/** The two in-place vector operations of the classical-cipher toolkit:
    Vigenère decoding with a repeating key (`de_vig`) and the rotation of a
    letter histogram by one place (`ceaser_1`), with the specifications they
    are proved against. */
module Vigenere {
  import opened Modular

  /** What `de_vig` computes: every symbol plus the key symbol at the same
      position modulo the key length, reduced mod 26. */
  function VigAdd(c: seq<Byte>, key: seq<Byte>): (r: seq<Byte>)
    requires |key| > 0
    ensures |r| == |c| && AllSymbols(r)
  {
    seq(|c|, i requires 0 <= i < |c| => Mod26(c[i] as int + key[i % |key|]))
  }

  /** The opposite shift: every symbol minus its key symbol, mod 26. */
  function VigSub(c: seq<Byte>, key: seq<Byte>): (r: seq<Byte>)
    requires |key| > 0
    ensures |r| == |c| && AllSymbols(r)
  {
    seq(|c|, i requires 0 <= i < |c| => Mod26(c[i] as int - key[i % |key|]))
  }

  /** The additive complement of every key symbol. */
  function Complement(key: seq<Byte>): (r: seq<Byte>)
    ensures |r| == |key| && AllSymbols(r)
  {
    seq(|key|, i requires 0 <= i < |key| => Mod26(-(key[i] as int)))
  }

  /** Adding and subtracting the same repeating key undo each other on
      symbols: shifting the output of `de_vig` back by the key recovers the
      ciphertext exactly, and conversely. */
  lemma {:induction false} VigRoundTrip(c: seq<Byte>, key: seq<Byte>)
    requires |key| > 0 && AllSymbols(c)
    ensures VigSub(VigAdd(c, key), key) == c
    ensures VigAdd(VigSub(c, key), key) == c
  {
    forall i | 0 <= i < |c|
      ensures VigSub(VigAdd(c, key), key)[i] == c[i]
      ensures VigAdd(VigSub(c, key), key)[i] == c[i]
    {
      var k: int := key[i % |key|];
      ReduceAdd(c[i] + k, -k, N);
      ReduceAdd(c[i] - k, k, N);
      ReduceFixesRange(c[i], N);
    }
  }

  /** Adding the complement of a key is the standard Vigenère decoding with
      that key; this is why the shifts found by the histogram search are
      added rather than subtracted. */
  lemma {:induction false} AddComplementIsSub(c: seq<Byte>, key: seq<Byte>)
    requires |key| > 0
    ensures VigAdd(c, Complement(key)) == VigSub(c, key)
  {
    forall i | 0 <= i < |c|
      ensures VigAdd(c, Complement(key))[i] == VigSub(c, key)[i]
    {
      var k: int := key[i % |key|];
      assert Complement(key)[i % |key|] == Mod26(-k);
      calc {
        Mod26(c[i] + Mod26(-k));
        { ReduceAdd(-k, c[i], N); assert Mod26(-k) + c[i] == c[i] + Mod26(-k); }
        Mod26(c[i] - k);
      }
    }
  }

  /** `de_vig`: decodes the vector in place with the repeating key. The key
      must be non-empty (the index is taken modulo its length) and every
      `u8` sum must fit. */
  method DeVig(c: array<Byte>, key: seq<Byte>)
    requires |key| > 0
    requires forall i :: 0 <= i < c.Length ==> c[i] as int + key[i % |key|] < 256
    modifies c
    ensures c[..] == VigAdd(old(c[..]), key)
  {
    var l := |key|;
    var i := 0;
    while i < c.Length
      invariant 0 <= i <= c.Length
      invariant forall j :: 0 <= j < i ==> c[j] == Mod26(old(c[j]) + key[j % l])
      invariant forall j :: i <= j < c.Length ==> c[j] == old(c[j])
    {
      c[i] := Mod26(c[i] as int + key[i % l]);
      i := i + 1;
    }
  }

  /** Rotation right by one place: the last entry moves to the front. */
  function RotateRight<T>(s: seq<T>): (r: seq<T>)
    requires |s| > 0
    ensures |r| == |s|
  {
    [s[|s| - 1]] + s[..|s| - 1]
  }

  /** Rotation right by k places. */
  function RotateN<T>(s: seq<T>, k: nat): (r: seq<T>)
    requires |s| > 0
    ensures |r| == |s|
  {
    if k == 0 then s else RotateRight(RotateN(s, k - 1))
  }

  /** Entry j of the k-fold rotation is entry (j - k) mod |s| of the original. */
  lemma {:induction false} RotateNAt<T>(s: seq<T>, k: nat, j: int)
    requires |s| > 0 && 0 <= j < |s|
    ensures RotateN(s, k)[j] == s[(j - k) % |s|]
  {
    var n := |s|;
    if k == 0 {
      ModUnique(j, n, 0, j);
    } else {
      var prev := RotateN(s, k - 1);
      assert RotateN(s, k) == [prev[n - 1]] + prev[..n - 1];
      if j == 0 {
        assert RotateN(s, k)[j] == prev[n - 1];
        RotateNAt(s, k - 1, n - 1);
        assert n - 1 - (k - 1) == j - k + 1 * n;
        ModShift(j - k, 1, n);
      } else {
        assert RotateN(s, k)[j] == prev[j - 1];
        RotateNAt(s, k - 1, j - 1);
        assert j - 1 - (k - 1) == j - k;
      }
    }
  }

  /** Rotating a length-n vector n times gives it back (26 single-place
      rotations of a 26-bin histogram restore it). */
  lemma RotateFullCircle<T>(s: seq<T>)
    requires |s| > 0
    ensures RotateN(s, |s|) == s
  {
    forall j | 0 <= j < |s| ensures RotateN(s, |s|)[j] == s[j] {
      RotateNAt(s, |s|, j);
      FullTurn(j, |s|);
    }
  }

  /** Going back a full turn lands on the same index. */
  lemma FullTurn(j: int, n: int)
    requires 0 <= j < n
    ensures (j - n) % n == j
  {
    ModUnique(j - n, n, -1, j);
  }

  /** The sum of the entries (the source's `fold` with `+`). */
  function Sum(s: seq<nat>): nat
  {
    if s == [] then 0 else s[0] + Sum(s[1..])
  }

  lemma {:induction false} SumAppend(a: seq<nat>, b: seq<nat>)
    ensures Sum(a + b) == Sum(a) + Sum(b)
  {
    if a != [] {
      assert (a + b)[1..] == a[1..] + b;
      SumAppend(a[1..], b);
    } else {
      assert a + b == b;
    }
  }

  /** Incrementing one entry increments the sum. */
  lemma {:induction false} SumIncrement(a: seq<nat>, c: nat)
    requires c < |a|
    ensures Sum(a[c := a[c] + 1]) == Sum(a) + 1
  {
    if c > 0 {
      assert a[c := a[c] + 1][1..] == a[1..][c - 1 := a[1..][c - 1] + 1];
      SumIncrement(a[1..], c - 1);
    } else {
      assert a[c := a[c] + 1][1..] == a[1..];
    }
  }

  /** A sequence of zeros sums to zero. */
  lemma {:induction false} SumZeros(a: seq<nat>)
    requires forall k :: 0 <= k < |a| ==> a[k] == 0
    ensures Sum(a) == 0
  {
    if a != [] {
      SumZeros(a[1..]);
    }
  }

  /** A rotation keeps the multiset of entries ... */
  lemma RotatePermutes<T>(s: seq<T>)
    requires |s| > 0
    ensures multiset(RotateRight(s)) == multiset(s)
  {
    var n := |s|;
    assert s == s[..n - 1] + [s[n - 1]];
  }

  /** ... and hence their sum. */
  lemma RotateKeepsSum(s: seq<nat>)
    requires |s| > 0
    ensures Sum(RotateRight(s)) == Sum(s)
  {
    var n := |s|;
    var init, last := s[..n - 1], [s[n - 1]];
    assert s == init + last;
    SumAppend(last, init);
    SumAppend(init, last);
  }

  /** `ceaser_1`: rotates the vector right by one place in place, by
      shifting every entry up one slot and putting the saved last entry at
      the front. The source indexes `l - 1`, so the vector is non-empty. */
  method Ceaser1(c: array<nat>)
    requires c.Length > 0
    modifies c
    ensures c[..] == RotateRight(old(c[..]))
  {
    var l := c.Length;
    var last := c[l - 1];
    var i := 1;
    while i < l
      invariant 1 <= i <= l
      invariant forall k :: l - i < k < l ==> c[k] == old(c[k - 1])
      invariant forall k :: 0 <= k <= l - i ==> c[k] == old(c[k])
    {
      c[l - i] := c[l - 1 - i];
      i := i + 1;
    }
    c[0] := last;
  }
}
