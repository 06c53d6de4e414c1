/** The affine cipher over the 26-symbol alphabet: encoding c -> a*c + b and
    decoding c -> (c - b) * a1, both reduced mod 26, for a single symbol and
    for a whole vector of symbols. */
module Affine {
  import opened Modular
  import opened Letters

  /** `affine_single`. */
  function AffineSingle(c: Byte, a: Byte, b: Byte): (r: Byte)
    ensures r < N && Congruent(c * a + b, r, N)
  {
    Mod26(c * a + b)
  }

  /** `deaffine_single`. */
  function DeaffineSingle(c: Byte, a1: Byte, b: Byte): (r: Byte)
    ensures r < N && Congruent((c - b) * a1, r, N)
  {
    Mod26((c - b) * a1)
  }

  /** a1 is a multiplicative inverse of a modulo 26. */
  predicate Inverse(a: int, a1: int)
  {
    Mod26(a * a1) == 1
  }

  /** Multiplying by a unit and then by its inverse gives back x mod 26. */
  lemma CancelInverse(x: int, a: int, a1: int)
    requires Inverse(a, a1) || Inverse(a1, a)
    ensures Mod26(Mod26(x * a) * a1) == Mod26(x)
  {
    ReduceMul(x * a, a1, N);
    assert x * a * a1 == (a * a1) * x;
    assert a * a1 == a1 * a;
    ReduceMul(a * a1, x, N);
  }

  /** Decoding undoes encoding on every symbol. */
  lemma {:induction false} AffineRoundTrip(c: Byte, a: Byte, a1: Byte, b: Byte)
    requires c < N && Inverse(a, a1)
    ensures DeaffineSingle(AffineSingle(c, a, b), a1, b) == c
  {
    var t: int := c * a;
    var y := Mod26(t + b);
    ReduceAdd(t + b, -(b as int), N);
    assert Mod26(y - b) == Mod26(t);
    ReduceMul(y - b, a1, N);
    ReduceMul(t, a1, N);
    CancelInverse(c, a, a1);
    ReduceFixesRange(c, N);
  }

  /** Encoding undoes decoding on every symbol. */
  lemma {:induction false} DeaffineRoundTrip(y: Byte, a: Byte, a1: Byte, b: Byte)
    requires y < N && Inverse(a, a1)
    ensures AffineSingle(DeaffineSingle(y, a1, b), a, b) == y
  {
    var t: int := y - b;
    var x := Mod26(t * a1);
    assert DeaffineSingle(y, a1, b) == x;
    ReduceAdd(x * a, b, N);
    CancelInverse(t, a1, a);
    assert Mod26(x * a) == Mod26(t);
    ReduceAdd(t, b, N);
    ReduceFixesRange(y, N);
  }

  /** The vector encoding, symbol by symbol. */
  function AffineAll(v: seq<Byte>, a: Byte, b: Byte): (r: seq<Byte>)
    ensures |r| == |v| && AllSymbols(r)
  {
    seq(|v|, k requires 0 <= k < |v| => AffineSingle(v[k], a, b))
  }

  /** The vector decoding, symbol by symbol. */
  function DeaffineAll(v: seq<Byte>, a1: Byte, b: Byte): (r: seq<Byte>)
    ensures |r| == |v| && AllSymbols(r)
  {
    seq(|v|, k requires 0 <= k < |v| => DeaffineSingle(v[k], a1, b))
  }

  /** Decoding a whole encoded vector restores it, and vice versa. */
  lemma {:induction false} AffineAllRoundTrip(v: seq<Byte>, a: Byte, a1: Byte, b: Byte)
    requires AllSymbols(v) && Inverse(a, a1)
    ensures DeaffineAll(AffineAll(v, a, b), a1, b) == v
    ensures AffineAll(DeaffineAll(v, a1, b), a, b) == v
  {
    forall k | 0 <= k < |v|
      ensures DeaffineAll(AffineAll(v, a, b), a1, b)[k] == v[k]
      ensures AffineAll(DeaffineAll(v, a1, b), a, b)[k] == v[k]
    {
      AffineRoundTrip(v[k], a, a1, b);
      DeaffineRoundTrip(v[k], a, a1, b);
    }
  }

  /** `encode_affine`: encodes a copy of the vector entry by entry. */
  method EncodeAffine(c: seq<Byte>, a: Byte, b: Byte) returns (x: seq<Byte>)
    ensures x == AffineAll(c, a, b)
  {
    x := c;
    var i := 0;
    while i < |x|
      invariant 0 <= i <= |x| == |c|
      invariant x[..i] == AffineAll(c, a, b)[..i]
      invariant x[i..] == c[i..]
    {
      x := x[i := AffineSingle(x[i], a, b)];
      i := i + 1;
    }
  }

  /** `decode_affine`: decodes a copy of the vector entry by entry. */
  method DecodeAffine(c: seq<Byte>, a1: Byte, b: Byte) returns (x: seq<Byte>)
    ensures x == DeaffineAll(c, a1, b)
  {
    x := c;
    var i := 0;
    while i < |x|
      invariant 0 <= i <= |x| == |c|
      invariant x[..i] == DeaffineAll(c, a1, b)[..i]
      invariant x[i..] == c[i..]
    {
      x := x[i := DeaffineSingle(x[i], a1, b)];
      i := i + 1;
    }
  }

  /** `upper_to_lower_morph`: a text of upper-case convertible characters,
      affine-encoded and written out in lower case. Letter k of the result
      is the lower-case letter of (symbol of s[k]) * a + b mod 26. */
  function UpperToLowerMorph(s: string, a: Byte, b: Byte): (r: string)
    requires UpperConvertible(s)
    ensures |r| == |s|
    ensures forall k :: 0 <= k < |s| ==>
              IsLower(r[k]) && Congruent((CharCode(s[k]) - UpperBase) * a + b, r[k] as int - LowerBase, N)
  {
    var v := AffineAll(StrUpperToInt(s), a, b);
    LowerText(v);
    IntToStrLower(v)
  }
}
