/** Modular arithmetic used by every cipher component: reduction of signed
    values into [0, m), the mod-26 specialisation, the exhaustive mod-26
    inverse search and Euclid's gcd. */
module Modular {

  /** Rust's `u8`. */
  type Byte = x: int | 0 <= x < 256

  /** `usize::MAX` on a 64-bit target. */
  const UsizeMax: nat := 0xFFFF_FFFF_FFFF_FFFF

  /** Size of the alphabet. */
  const N: int := 26

  /** The integer reduced into [0, m). Dafny's `%` is Euclidean, so it agrees
      with the source's "add m while negative, then take the remainder". */
  function Reduce(x: int, m: int): (r: int)
    requires m > 0
    ensures 0 <= r < m
    ensures Congruent(x, r, m)
  {
    ModUnique(x - x % m, m, x / m, 0);
    x % m
  }

  /** x and y differ by a multiple of m. */
  predicate Congruent(x: int, y: int, m: int)
    requires m > 0
  {
    (x - y) % m == 0
  }

  /** Every entry is a symbol of the alphabet. */
  predicate AllSymbols(v: seq<int>) { forall k :: 0 <= k < |v| ==> 0 <= v[k] < N }

  /** Reduction modulo 26 (`modb` of the classical-cipher toolkit). */
  function Mod26(x: int): (r: int)
    ensures 0 <= r < N
  {
    Reduce(x, N)
  }

  /** Division with remainder is unique. */
  lemma ModUnique(x: int, m: int, q: int, r: int)
    requires m > 0 && 0 <= r < m && x == q * m + r
    ensures x % m == r && x / m == q
  {
    var q', r' := x / m, x % m;
    assert x == q' * m + r';
    assert (q - q') * m == r' - r;
    if q > q' {
      MulAtLeast(q - q', m);
    } else if q < q' {
      MulAtLeast(q' - q, m);
    }
  }

  lemma MulAtLeast(t: int, m: int)
    requires t >= 1 && m > 0
    ensures t * m >= m
  {
    assert t * m == (t - 1) * m + m;
  }

  /** Adding a multiple of m does not change the remainder. */
  lemma ModShift(x: int, k: int, m: int)
    requires m > 0
    ensures (x + k * m) % m == x % m
  {
    ModUnique(x, m, x / m, x % m);
    ModUnique(x + k * m, m, x / m + k, x % m);
  }

  /** Reduction is congruence-invariant: x and y reduce to the same value
      exactly when their difference is a multiple of m. */
  lemma {:induction false} ReduceCongruent(x: int, y: int, m: int)
    requires m > 0
    ensures Reduce(x, m) == Reduce(y, m) <==> Congruent(x, y, m)
  {
    var qx, a := x / m, x % m;
    var qy, b := y / m, y % m;
    SubDecompose(x, y, m, qx, qy, a, b);
    if a == b {
      ModUnique(x - y, m, qx - qy, 0);
    } else if a > b {
      ModUnique(x - y, m, qx - qy, a - b);
    } else {
      ModUnique(x - y, m, qx - qy - 1, a - b + m);
    }
  }

  lemma SubDecompose(x: int, y: int, m: int, qx: int, qy: int, a: int, b: int)
    requires x == qx * m + a && y == qy * m + b
    ensures x - y == (qx - qy) * m + (a - b)
    ensures x - y == (qx - qy - 1) * m + (a - b + m)
  {
  }

  /** Reduction fixes values already in range and is m-periodic. */
  lemma ReduceFixesRange(x: int, m: int)
    requires m > 0
    ensures 0 <= x < m ==> Reduce(x, m) == x
    ensures Reduce(x + m, m) == Reduce(x, m)
  {
    if 0 <= x < m {
      ModUnique(x, m, 0, x);
    }
    ModShift(x, 1, m);
  }

  /** Reducing an operand first does not change the reduced sum. */
  lemma ReduceAdd(x: int, y: int, m: int)
    requires m > 0
    ensures Reduce(Reduce(x, m) + y, m) == Reduce(x + y, m)
  {
    ModUnique(x, m, x / m, x % m);
    ModShift(x % m + y, x / m, m);
  }

  /** Reducing a factor first does not change the reduced product. */
  lemma ReduceMul(x: int, y: int, m: int)
    requires m > 0
    ensures Reduce(Reduce(x, m) * y, m) == Reduce(x * y, m)
  {
    ModUnique(x, m, x / m, x % m);
    assert x * y == (x % m) * y + ((x / m) * y) * m;
    ModShift((x % m) * y, (x / m) * y, m);
  }

  /** `modb_n`: repeatedly adds m while x is negative, then takes the
      remainder of the now non-negative value. */
  method ModbN(x: int, m: int) returns (r: int)
    requires m > 0
    ensures r == Reduce(x, m)
  {
    var y := x;
    while y < 0
      invariant y >= x
      invariant y % m == x % m
      decreases -y
    {
      ModShift(y, 1, m);
      y := y + m;
    }
    r := y % m;
  }

  /** The value returned by `modb_inv` as a function of its input: the
      least j in [0, 26) with (Mod26(x) * j) mod 26 == 1, or -1. */
  predicate IsInverseSearch(x: int, r: int)
  {
    && (r == -1 <==> forall j :: 0 <= j < N ==> Mod26(Mod26(x) * j) != 1)
    && (r != -1 ==>
          && 0 <= r < N
          && Mod26(Mod26(x) * r) == 1
          && forall j :: 0 <= j < r ==> Mod26(Mod26(x) * j) != 1)
  }

  /** `modb_inv`: exhaustive search for a mod-26 inverse. */
  method ModbInv(x: int) returns (r: int)
    ensures IsInverseSearch(x, r)
  {
    var y := ModbN(x, N);
    var j := 0;
    while j < N
      invariant 0 <= j <= N
      invariant forall k :: 0 <= k < j ==> Mod26(y * k) != 1
    {
      var p := ModbN(y * j, N);
      if p == 1 {
        assert Mod26(Mod26(x) * j) == 1;
        return j;
      }
      j := j + 1;
    }
    r := -1;
  }

  /** The least j in [from, 26) with Mod26(y * j) == 1, or -1. */
  function InverseFrom(y: int, from: nat): (r: int)
    decreases N - from
  {
    if from >= N then -1 else if Mod26(y * from) == 1 then from else InverseFrom(y, from + 1)
  }

  /** The value `modb_inv` returns, as a function. */
  function ModInverse(x: int): int
  {
    InverseFrom(Mod26(x), 0)
  }

  lemma {:induction false} InverseFromSearch(y: int, from: nat)
    requires from <= N
    ensures var r := InverseFrom(y, from);
            && (r == -1 <==> forall j :: from <= j < N ==> Mod26(y * j) != 1)
            && (r != -1 ==>
                  && from <= r < N && Mod26(y * r) == 1
                  && forall j :: from <= j < r ==> Mod26(y * j) != 1)
    decreases N - from
  {
    if from < N && Mod26(y * from) != 1 {
      InverseFromSearch(y, from + 1);
      var r := InverseFrom(y, from + 1);
      assert InverseFrom(y, from) == r;
      if r == -1 {
        forall j | from <= j < N ensures Mod26(y * j) != 1 {
          if j != from {
            assert from + 1 <= j < N;
          }
        }
      } else {
        forall j | from <= j < r ensures Mod26(y * j) != 1 {
          if j != from {
            assert from + 1 <= j < r;
          }
        }
      }
    } else if from < N {
      assert !(forall j :: from <= j < N ==> Mod26(y * j) != 1) by {
        assert Mod26(y * from) == 1;
      }
    }
  }

  /** The search result is determined by the input: a value meets the
      description of `modb_inv` exactly when it is ModInverse(x). */
  lemma InverseSearchUnique(x: int, r: int)
    ensures IsInverseSearch(x, r) <==> r == ModInverse(x)
  {
    InverseFromSearch(Mod26(x), 0);
  }

  /** x has an inverse modulo 26. */
  predicate IsUnit(x: int)
  {
    exists j :: 0 <= j < N && Mod26(Mod26(x) * j) == 1
  }

  /** The search finds an inverse exactly for the units. */
  lemma UnitHasInverse(x: int)
    ensures IsUnit(x) <==> ModInverse(x) != -1
  {
    InverseFromSearch(Mod26(x), 0);
  }

  /** Congruent operands give congruent sums ... */
  lemma Mod26Add(x: int, x': int, y: int, y': int)
    requires Mod26(x) == Mod26(x') && Mod26(y) == Mod26(y')
    ensures Mod26(x + y) == Mod26(x' + y')
  {
    ReduceAdd(x, y, N);
    ReduceAdd(x', y, N);
    ReduceAdd(y, x', N);
    ReduceAdd(y', x', N);
  }

  /** ... and congruent products. */
  lemma Mod26Mul(x: int, x': int, y: int, y': int)
    requires Mod26(x) == Mod26(x') && Mod26(y) == Mod26(y')
    ensures Mod26(x * y) == Mod26(x' * y')
  {
    ReduceMul(x, y, N);
    ReduceMul(x', y, N);
    ReduceMul(y, x', N);
    ReduceMul(y', x', N);
    assert y * x' == x' * y && y' * x' == x' * y';
  }

  /** A residue sharing the factor 2 or 13 with 26 has no inverse: every
      product with it stays a multiple of that factor. */
  lemma {:induction false} NoInverseForNonUnits(x: int, j: int)
    requires Mod26(x) % 2 == 0 || Mod26(x) % 13 == 0
    ensures Mod26(Mod26(x) * j) != 1
  {
    var y := Mod26(x);
    var p := y * j;
    ModUnique(p, N, p / N, p % N);
    if y % 2 == 0 {
      ModUnique(y, 2, y / 2, 0);
      assert p == 2 * ((y / 2) * j);
      assert p % N == 2 * ((y / 2) * j - 13 * (p / N));
    } else {
      ModUnique(y, 13, y / 13, 0);
      assert p == 13 * ((y / 13) * j);
      assert p % N == 13 * ((y / 13) * j - 2 * (p / N));
    }
  }

  /** Euclid's algorithm, as the source's recursive `gcd`. The result is 0
      only for gcd(0, 0), and never exceeds a non-zero second argument. */
  function Gcd(a: nat, b: nat): (r: nat)
    ensures r == 0 <==> a == 0 && b == 0
    ensures b > 0 ==> r <= b
    decreases b
  {
    if b == 0 then a else Gcd(b, a % b)
  }

  /** d divides x (with 0 dividing only 0). */
  predicate Divides(d: nat, x: nat)
  {
    if d == 0 then x == 0 else x % d == 0
  }

  lemma DividesMod(d: nat, a: nat, b: nat)
    requires b > 0 && Divides(d, b)
    ensures Divides(d, a) <==> Divides(d, a % b)
  {
    if d > 0 {
      ModUnique(a, b, a / b, a % b);
      ModUnique(b, d, b / d, 0);
      assert a == a % b + ((a / b) * (b / d)) * d;
      ModShift(a % b, (a / b) * (b / d), d);
    }
  }

  /** `gcd` is a common divisor of both arguments, and every common divisor
      divides it: it is the greatest common divisor. */
  lemma {:induction false} GcdIsGreatest(a: nat, b: nat, d: nat)
    ensures Divides(Gcd(a, b), a) && Divides(Gcd(a, b), b)
    ensures Divides(d, a) && Divides(d, b) ==> Divides(d, Gcd(a, b))
    decreases b
  {
    if b == 0 {
      if a > 0 {
        ModUnique(a, a, 1, 0);
        ModUnique(0, a, 0, 0);
      }
    } else {
      GcdIsGreatest(b, a % b, d);
      DividesMod(Gcd(a, b), a, b);
      if Divides(d, b) {
        DividesMod(d, a, b);
      }
    }
  }
}
