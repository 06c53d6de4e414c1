/** The Blum-Blum-Shub generator of the stream-cipher exercises: a modulus
    n = p * q and a state s that every call of `next` replaces by its square
    modulo n. */
module Bbs {
  import opened Modular

  /** One step of the generator: the square of the state modulo n. */
  function Step(n: nat, s: nat): (r: nat)
    requires n > 0
    ensures r < n
  {
    (s * s) % n
  }

  /** Modulo either prime factor of n, the new state is the square of the
      old state: the generator squares independently in both factors. */
  lemma StepModFactor(p: nat, q: nat, s: nat)
    requires p > 0 && q > 0
    ensures Step(p * q, s) % p == ((s % p) * (s % p)) % p
  {
    var n := p * q;
    var sq := s * s;
    ModUnique(sq, n, sq / n, sq % n);
    assert sq == sq % n + ((sq / n) * q) * p;
    ModShift(sq % n, (sq / n) * q, p);
    ReduceMul(s, s, p);
    ReduceMul(s, s % p, p);
    assert s * (s % p) == (s % p) * s;
  }

  /** The first k outputs from state s. */
  function Outputs(n: nat, s: nat, k: nat): (r: seq<nat>)
    requires n > 0
    ensures |r| == k
    decreases k
  {
    if k == 0 then [] else var t := Step(n, s); [t] + Outputs(n, t, k - 1)
  }

  /** Every output is the square of the one before it, modulo n. */
  lemma {:induction false} OutputsSquare(n: nat, s: nat, k: nat, i: nat)
    requires n > 0 && 0 < i < k
    ensures Outputs(n, s, k)[i] == Step(n, Outputs(n, s, k)[i - 1])
    decreases i
  {
    if i > 1 {
      OutputsSquare(n, Step(n, s), k - 1, i - 1);
    }
  }

  /** `BlumBlumShub`. */
  class BlumBlumShub {
    var n: nat
    var s: nat

    /** `new`: the modulus is p * q, which must fit a `usize`. */
    constructor (p: nat, q: nat, seed: nat)
      requires p * q <= UsizeMax
      ensures n == p * q && s == seed
    {
      n := p * q;
      s := seed;
    }

    /** `next`: squares the state modulo n and returns the new state. A
      zero modulus or a square that overflows a `usize` panics. */
    method Next() returns (r: nat)
      requires n > 0 && s * s <= UsizeMax
      modifies this
      ensures n == old(n) && s == Step(n, old(s))
      ensures r == s && r < n
    {
      s := (s * s) % n;
      r := s;
    }
  }

  /** `next` called k times, collecting what it returns; every square fits
      when the modulus is small enough and the state starts below it. */
  method Run(g: BlumBlumShub, k: nat) returns (out: seq<nat>)
    requires g.n > 0 && g.s < g.n && (g.n - 1) * (g.n - 1) <= UsizeMax
    modifies g
    ensures g.n == old(g.n)
    ensures out == Outputs(g.n, old(g.s), k)
    ensures k > 0 ==> g.s == out[k - 1]
  {
    ghost var s0 := g.s;
    out := [];
    var i := 0;
    while i < k
      invariant 0 <= i <= k && g.n == old(g.n) && g.s < g.n
      invariant out + Outputs(g.n, g.s, k - i) == Outputs(g.n, s0, k)
      invariant i > 0 ==> g.s == out[i - 1]
    {
      SquareFits(g.s, g.n);
      var x := g.Next();
      out := out + [x];
      i := i + 1;
    }
  }

  lemma SquareFits(s: nat, n: nat)
    requires s < n && (n - 1) * (n - 1) <= UsizeMax
    ensures s * s <= UsizeMax
  {
    MulMono(s, n - 1);
  }

  lemma MulMono(a: nat, b: nat)
    requires a <= b
    ensures a * a <= b * b
  {
    assert b * b - a * a == (b - a) * (b + a);
  }
}
