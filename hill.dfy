/** The mod-26 matrices of the Hill-cipher exercise (`Matrix`): a matrix
    of signed entries, built from a column of symbols, scaled in place
    (`mul_n`), multiplied onto a column vector (`mul`), cut from a text
    into columns (`from_str`), and the inverse key computed as the
    adjugate times the inverse determinant (`p3a`). */
module Hill {
  import opened Modular
  import opened Letters

  /** A column vector: one single-entry row per value. */
  function Column(v: seq<int>): (d: seq<seq<int>>)
    ensures |d| == |v| && forall i :: 0 <= i < |v| ==> d[i] == [v[i]]
  {
    seq(|v|, i requires 0 <= i < |v| => [v[i]])
  }

  /** Every entry multiplied by m and reduced mod 26. */
  function Scale(d: seq<seq<int>>, m: int): (r: seq<seq<int>>)
    ensures |r| == |d|
    ensures forall i :: 0 <= i < |d| ==> |r[i]| == |d[i]|
  {
    seq(|d|, i requires 0 <= i < |d| =>
      seq(|d[i]|, j requires 0 <= j < |d[i]| => Mod26(d[i][j] * m)))
  }

  /** Every scaled entry is a symbol congruent to the entry times m. */
  lemma ScaleEntries(d: seq<seq<int>>, m: int)
    ensures forall i, j :: 0 <= i < |d| && 0 <= j < |d[i]| ==>
              0 <= Scale(d, m)[i][j] < N && Congruent(Scale(d, m)[i][j], d[i][j] * m, N)
  {
  }

  /** The first column of every row of b that a row of a reaches exists. */
  predicate CanMul(a: seq<seq<int>>, b: seq<seq<int>>)
  {
    && |b| <= |a|
    && (forall j :: 0 <= j < |b| ==> |a[j]| <= |b|)
    && (forall j, i :: 0 <= j < |b| && 0 <= i < |a[j]| ==> |b[i]| > 0)
  }

  /** The fold of `mul`: the sum of row[i] * b[i][0] over i < n. */
  function DotUpTo(row: seq<int>, b: seq<seq<int>>, n: nat): int
    requires n <= |row| && n <= |b|
    requires forall i :: 0 <= i < n ==> |b[i]| > 0
  {
    if n == 0 then 0 else DotUpTo(row, b, n - 1) + row[n - 1] * b[n - 1][0]
  }

  /** The product of a and the column vector b, reduced mod 26; it has the
      shape of b. */
  function MulData(a: seq<seq<int>>, b: seq<seq<int>>): (r: seq<seq<int>>)
    requires CanMul(a, b)
    ensures |r| == |b|
    ensures forall j :: 0 <= j < |b| ==> |r[j]| == 1 && 0 <= r[j][0] < N
  {
    seq(|b|, j requires 0 <= j < |b| => [Mod26(DotUpTo(a[j], b, |a[j]|))])
  }

  /** `Matrix`. */
  class Matrix {
    var data: seq<seq<int>>

    /** A matrix literal. */
    constructor (d: seq<seq<int>>)
      ensures data == d
    {
      data := d;
    }

    /** `Matrix::new`: the column vector of v. */
    constructor FromColumn(v: seq<int>)
      ensures data == Column(v)
    {
      data := Column(v);
    }

    /** `mul_n`: every entry becomes (entry * m) mod 26, in place. */
    method MulN(m: int)
      modifies this
      ensures data == Scale(old(data), m)
    {
      ghost var d := data;
      var i := 0;
      while i < |data|
        invariant 0 <= i <= |data| == |d|
        invariant forall r :: 0 <= r < i ==> data[r] == Scale(d, m)[r]
        invariant forall r :: i <= r < |d| ==> data[r] == d[r]
      {
        var j := 0;
        while j < |data[i]|
          invariant |data| == |d| && 0 <= j <= |data[i]| == |d[i]|
          invariant data[i][..j] == Scale(d, m)[i][..j] && data[i][j..] == d[i][j..]
          invariant forall r :: 0 <= r < |d| && r != i ==> data[r] == (if r < i then Scale(d, m)[r] else d[r])
        {
          data := data[i := data[i][j := Mod26(data[i][j] * m)]];
          j := j + 1;
        }
        assert data[i] == data[i][..j];
        i := i + 1;
      }
      assert data == Scale(d, m);
    }

    /** `mul`: a copy of rhs whose row j is replaced by the reduced dot
      product of row j of this matrix with the first column of rhs. */
    method Mul(rhs: Matrix) returns (result: Matrix)
      requires CanMul(data, rhs.data)
      ensures fresh(result) && result.data == MulData(data, rhs.data)
    {
      result := new Matrix(rhs.data);
      var j := 0;
      while j < |result.data|
        invariant 0 <= j <= |result.data| == |rhs.data|
        invariant forall r :: 0 <= r < j ==> result.data[r] == MulData(data, rhs.data)[r]
        invariant forall r :: j <= r < |rhs.data| ==> result.data[r] == rhs.data[r]
      {
        result.data := result.data[j := [Mod26(DotUpTo(data[j], rhs.data, |data[j]|))]];
        j := j + 1;
      }
    }
  }

  /** `chunks(n)`: consecutive pieces of n values, the last one shorter
      when n does not divide the length. */
  function Chunks(v: seq<int>, n: nat): (r: seq<seq<int>>)
    requires n > 0
    decreases |v|
  {
    if v == [] then [] else if |v| <= n then [v] else [v[..n]] + Chunks(v[n..], n)
  }

  /** All pieces joined together. */
  function Flatten(cs: seq<seq<int>>): seq<int>
  {
    if cs == [] then [] else cs[0] + Flatten(cs[1..])
  }

  /** The pieces join back into the input ... */
  lemma {:induction false} ChunksFlatten(v: seq<int>, n: nat)
    requires n > 0
    ensures Flatten(Chunks(v, n)) == v
    decreases |v|
  {
    if |v| > n {
      ChunksFlatten(v[n..], n);
      assert Chunks(v, n)[1..] == Chunks(v[n..], n);
      assert v == v[..n] + v[n..];
    } else if v != [] {
      assert Chunks(v, n)[1..] == [];
    }
  }

  /** ... there are ceil(|v| / n) of them ... */
  lemma {:induction false} ChunksCount(v: seq<int>, n: nat)
    requires n > 0
    ensures |Chunks(v, n)| == (|v| + n - 1) / n
    decreases |v|
  {
    if v == [] {
      ModUnique(n - 1, n, 0, n - 1);
    } else if |v| <= n {
      ModUnique(|v| + n - 1, n, 1, |v| - 1);
    } else {
      ChunksCount(v[n..], n);
      var t := |v| - n + n - 1;
      ModUnique(t, n, t / n, t % n);
      ModUnique(|v| + n - 1, n, t / n + 1, t % n);
    }
  }

  /** ... and each holds n values, except possibly the last, which is not
      empty. */
  lemma {:induction false} ChunksSizes(v: seq<int>, n: nat)
    requires n > 0
    ensures forall k :: 0 <= k < |Chunks(v, n)| ==> 0 < |Chunks(v, n)[k]| <= n
    ensures forall k :: 0 <= k < |Chunks(v, n)| - 1 ==> |Chunks(v, n)[k]| == n
    decreases |v|
  {
    if |v| > n {
      var rest := Chunks(v[n..], n);
      ChunksSizes(v[n..], n);
      assert Chunks(v, n) == [v[..n]] + rest;
      forall k | 0 < k < |Chunks(v, n)| ensures Chunks(v, n)[k] == rest[k - 1] {
      }
    }
  }

  /** `from_str`: the text's symbols cut into column vectors of n entries
      (the last possibly shorter); `chunks` panics for n = 0. */
  method FromStr(s: string, n: nat) returns (result: seq<Matrix>)
    requires UpperConvertible(s) && n > 0
    ensures |result| == |Chunks(StrUpperToInt(s), n)|
    ensures forall k :: 0 <= k < |result| ==> result[k].data == Column(Chunks(StrUpperToInt(s), n)[k])
  {
    var cs := Chunks(StrUpperToInt(s), n);
    result := [];
    var k := 0;
    while k < |cs|
      invariant 0 <= k <= |cs| && |result| == k
      invariant forall r :: 0 <= r < k ==> result[r].data == Column(cs[r])
    {
      var m := new Matrix.FromColumn(cs[k]);
      result := result + [m];
      k := k + 1;
    }
  }

  /** A 2x2 matrix. */
  predicate Is2x2(d: seq<seq<int>>)
  {
    |d| == 2 && |d[0]| == 2 && |d[1]| == 2
  }

  /** ad - bc. */
  function Det(d: seq<seq<int>>): int
    requires Is2x2(d)
  {
    d[0][0] * d[1][1] - d[0][1] * d[1][0]
  }

  /** The adjugate with every entry reduced mod 26. */
  function Adjugate(d: seq<seq<int>>): (r: seq<seq<int>>)
    requires Is2x2(d)
    ensures Is2x2(r)
  {
    [[Mod26(d[1][1]), Mod26(-d[0][1])], [Mod26(-d[1][0]), Mod26(d[0][0])]]
  }

  /** The inverse key of `p3a`: the adjugate scaled by `modb_inv` of the
      determinant. */
  function InverseData(d: seq<seq<int>>): (r: seq<seq<int>>)
    requires Is2x2(d)
    ensures Is2x2(r)
  {
    Scale(Adjugate(d), ModInverse(Det(d)))
  }

  /** `p3a`'s computation of the inverse key, for any 2x2 key matrix. */
  method InverseKey(k: Matrix) returns (kInv: Matrix)
    requires Is2x2(k.data)
    ensures fresh(kInv) && kInv.data == InverseData(k.data)
  {
    var adbc := k.data[0][0] * k.data[1][1] - k.data[0][1] * k.data[1][0];
    var adbcInv := ModbInv(adbc);
    InverseSearchUnique(adbc, adbcInv);
    kInv := new Matrix([[Mod26(k.data[1][1]), Mod26(-k.data[0][1])],
                        [Mod26(-k.data[1][0]), Mod26(k.data[0][0])]]);
    kInv.MulN(adbcInv);
  }

  /** A column vector of two symbols. */
  predicate IsSymbolPair(v: seq<seq<int>>)
  {
    |v| == 2 && |v[0]| == 1 && |v[1]| == 1 && 0 <= v[0][0] < N && 0 <= v[1][0] < N
  }

  /** Two-term combinations of congruent terms are congruent. */
  lemma LinComb(p: int, p': int, q: int, q': int, u: int, u': int, w: int, w': int)
    requires Mod26(p) == Mod26(p') && Mod26(q) == Mod26(q')
    requires Mod26(u) == Mod26(u') && Mod26(w) == Mod26(w')
    ensures Mod26(p * u + q * w) == Mod26(p' * u' + q' * w')
  {
    Mod26Mul(p, p', u, u');
    Mod26Mul(q, q', w, w');
    Mod26Add(p * u, p' * u', q * w, q' * w');
  }

  /** A value multiplied by a unit and its inverse comes back. */
  lemma UnitCancels(t: int, det: int, dinv: int, x: int)
    requires Mod26(det * dinv) == 1 && 0 <= x < N && t == (det * dinv) * x
    ensures Mod26(t) == x
  {
    ReduceFixesRange(1, N);
    Mod26Mul(det * dinv, 1, x, x);
    ReduceFixesRange(x, N);
  }

  /** An entry of the inverse key is congruent to the adjugate entry of
      the unreduced key times the inverse determinant. */
  lemma ScaledEntry(e: int, dinv: int)
    ensures Mod26(Mod26(Mod26(e) * dinv)) == Mod26(e * dinv)
  {
    ReduceMul(e, dinv, N);
    ReduceFixesRange(Mod26(e * dinv), N);
  }

  /** The entries of the inverse key, against the key's own entries:
      each is congruent to an adjugate entry times the inverse of the
      determinant, and that inverse cancels the determinant. */
  lemma InverseEntries(k: seq<seq<int>>)
    requires Is2x2(k) && IsUnit(Det(k))
    ensures var d := ModInverse(Det(k));
            var ki := InverseData(k);
            && Mod26(Det(k) * d) == 1
            && Mod26(ki[0][0]) == Mod26(k[1][1] * d) && Mod26(ki[0][1]) == Mod26(-k[0][1] * d)
            && Mod26(ki[1][0]) == Mod26(-k[1][0] * d) && Mod26(ki[1][1]) == Mod26(k[0][0] * d)
  {
    var d := ModInverse(Det(k));
    UnitHasInverse(Det(k));
    InverseSearchUnique(Det(k), d);
    ReduceMul(Det(k), d, N);
    ScaledEntry(k[1][1], d);
    ScaledEntry(-k[0][1], d);
    ScaledEntry(-k[1][0], d);
    ScaledEntry(k[0][0], d);
  }

  /** The adjugate times the matrix, on either side, is the determinant
      times the identity: written out for the entries of a 2x2 product
      with a column (x, y), each scaled by d. */
  lemma AdjugateIdentities(a: int, b: int, c: int, e: int, d: int, x: int, y: int)
    ensures (e * d) * (a * x + b * y) + (-b * d) * (c * x + e * y) == ((a * e - b * c) * d) * x
    ensures (-c * d) * (a * x + b * y) + (a * d) * (c * x + e * y) == ((a * e - b * c) * d) * y
    ensures a * ((e * d) * x + (-b * d) * y) + b * ((-c * d) * x + (a * d) * y) == ((a * e - b * c) * d) * x
    ensures c * ((e * d) * x + (-b * d) * y) + e * ((-c * d) * x + (a * d) * y) == ((a * e - b * c) * d) * y
  {
  }

  /** A 2x2 matrix times a column of two entries. */
  lemma MulPair(k: seq<seq<int>>, v: seq<seq<int>>)
    requires Is2x2(k) && |v| == 2 && |v[0]| == 1 && |v[1]| == 1
    ensures CanMul(k, v)
    ensures MulData(k, v) == [[Mod26(k[0][0] * v[0][0] + k[0][1] * v[1][0])],
                              [Mod26(k[1][0] * v[0][0] + k[1][1] * v[1][0])]]
  {
    assert DotUpTo(k[0], v, 1) == k[0][0] * v[0][0];
    assert DotUpTo(k[1], v, 1) == k[1][0] * v[0][0];
  }

  /** One entry of a round trip: a combination congruent to the
      determinant times its inverse times x reduces to x. */
  lemma RoundTripEntry(p: int, q: int, u: int, w: int, p': int, q': int, u': int, w': int,
                       det: int, d: int, x: int)
    requires Mod26(p) == Mod26(p') && Mod26(q) == Mod26(q')
    requires Mod26(u) == Mod26(u') && Mod26(w) == Mod26(w')
    requires p' * u' + q' * w' == (det * d) * x
    requires Mod26(det * d) == 1 && 0 <= x < N
    ensures Mod26(p * u + q * w) == x
  {
    LinComb(p, p', q, q', u, u', w, w');
    UnitCancels(p' * u' + q' * w', det, d, x);
  }

  /** The arithmetic of decoding after encoding, entry by entry: A, B, C,
      E are the inverse key's entries, congruent to the adjugate of
      [[a, b], [c, e]] scaled by d, the inverse of its determinant. */
  lemma DecodeEncodeArith(a: int, b: int, c: int, e: int, d: int, x: int, y: int,
                          A: int, B: int, C: int, E: int)
    requires Mod26((a * e - b * c) * d) == 1 && 0 <= x < N && 0 <= y < N
    requires Mod26(A) == Mod26(e * d) && Mod26(B) == Mod26(-b * d)
    requires Mod26(C) == Mod26(-c * d) && Mod26(E) == Mod26(a * d)
    ensures Mod26(A * Mod26(a * x + b * y) + B * Mod26(c * x + e * y)) == x
    ensures Mod26(C * Mod26(a * x + b * y) + E * Mod26(c * x + e * y)) == y
  {
    var det := a * e - b * c;
    var u0, u1 := Mod26(a * x + b * y), Mod26(c * x + e * y);
    ReduceFixesRange(u0, N);
    ReduceFixesRange(u1, N);
    AdjugateIdentities(a, b, c, e, d, x, y);
    RoundTripEntry(A, B, u0, u1, e * d, -b * d, a * x + b * y, c * x + e * y, det, d, x);
    RoundTripEntry(C, E, u0, u1, -c * d, a * d, a * x + b * y, c * x + e * y, det, d, y);
  }

  /** The arithmetic of encoding after decoding, entry by entry. */
  lemma EncodeDecodeArith(a: int, b: int, c: int, e: int, d: int, x: int, y: int,
                          A: int, B: int, C: int, E: int)
    requires Mod26((a * e - b * c) * d) == 1 && 0 <= x < N && 0 <= y < N
    requires Mod26(A) == Mod26(e * d) && Mod26(B) == Mod26(-b * d)
    requires Mod26(C) == Mod26(-c * d) && Mod26(E) == Mod26(a * d)
    ensures Mod26(a * Mod26(A * x + B * y) + b * Mod26(C * x + E * y)) == x
    ensures Mod26(c * Mod26(A * x + B * y) + e * Mod26(C * x + E * y)) == y
  {
    var det := a * e - b * c;
    var z0, z1 := Mod26(A * x + B * y), Mod26(C * x + E * y);
    ReduceFixesRange(x, N);
    ReduceFixesRange(y, N);
    var f0, f1 := (e * d) * x + (-b * d) * y, (-c * d) * x + (a * d) * y;
    LinComb(A, e * d, B, -b * d, x, x, y, y);
    LinComb(C, -c * d, E, a * d, x, x, y, y);
    ReduceFixesRange(z0, N);
    ReduceFixesRange(z1, N);
    AdjugateIdentities(a, b, c, e, d, x, y);
    RoundTripEntry(a, b, z0, z1, a, b, f0, f1, det, d, x);
    RoundTripEntry(c, e, z0, z1, c, e, f0, f1, det, d, y);
  }

  /** A matrix whose entries are congruent to the adjugate of k scaled by
      d, where d inverts the determinant of k. */
  predicate IsInversePair(k: seq<seq<int>>, ki: seq<seq<int>>, d: int)
  {
    && Is2x2(k) && Is2x2(ki) && Mod26(Det(k) * d) == 1
    && Mod26(ki[0][0]) == Mod26(k[1][1] * d) && Mod26(ki[0][1]) == Mod26(-k[0][1] * d)
    && Mod26(ki[1][0]) == Mod26(-k[1][0] * d) && Mod26(ki[1][1]) == Mod26(k[0][0] * d)
  }

  /** Decoding with such a matrix undoes encoding with k ... */
  lemma PairDecodeEncode(k: seq<seq<int>>, ki: seq<seq<int>>, d: int, v: seq<seq<int>>)
    requires IsInversePair(k, ki, d) && IsSymbolPair(v)
    ensures MulData(ki, MulData(k, v)) == v
  {
    var x, y := v[0][0], v[1][0];
    assert v[0] == [x] && v[1] == [y];
    assert v == [[x], [y]];
    var a, b, c, e := k[0][0], k[0][1], k[1][0], k[1][1];
    var A, B, C, E := ki[0][0], ki[0][1], ki[1][0], ki[1][1];
    DecodeEncodeArith(a, b, c, e, d, x, y, A, B, C, E);
    var u0, u1 := Mod26(a * x + b * y), Mod26(c * x + e * y);
    MulPair(k, v);
    assert MulData(k, v) == [[u0], [u1]];
    MulPair(ki, [[u0], [u1]]);
  }

  /** ... and encoding undoes decoding. */
  lemma PairEncodeDecode(k: seq<seq<int>>, ki: seq<seq<int>>, d: int, v: seq<seq<int>>)
    requires IsInversePair(k, ki, d) && IsSymbolPair(v)
    ensures MulData(k, MulData(ki, v)) == v
  {
    var x, y := v[0][0], v[1][0];
    assert v[0] == [x] && v[1] == [y];
    assert v == [[x], [y]];
    var a, b, c, e := k[0][0], k[0][1], k[1][0], k[1][1];
    var A, B, C, E := ki[0][0], ki[0][1], ki[1][0], ki[1][1];
    EncodeDecodeArith(a, b, c, e, d, x, y, A, B, C, E);
    var z0, z1 := Mod26(A * x + B * y), Mod26(C * x + E * y);
    MulPair(ki, v);
    assert MulData(ki, v) == [[z0], [z1]];
    MulPair(k, [[z0], [z1]]);
  }

  /** When the determinant of the key is a unit mod 26, decoding a pair
      of symbols with the inverse key from `p3a` undoes encoding it with
      the key ... */
  lemma HillDecodeEncode(k: seq<seq<int>>, v: seq<seq<int>>)
    requires Is2x2(k) && IsUnit(Det(k)) && IsSymbolPair(v)
    ensures MulData(InverseData(k), MulData(k, v)) == v
  {
    InverseEntries(k);
    PairDecodeEncode(k, InverseData(k), ModInverse(Det(k)), v);
  }

  /** ... and encoding undoes decoding. */
  lemma HillEncodeDecode(k: seq<seq<int>>, v: seq<seq<int>>)
    requires Is2x2(k) && IsUnit(Det(k)) && IsSymbolPair(v)
    ensures MulData(k, MulData(InverseData(k), v)) == v
  {
    InverseEntries(k);
    PairEncodeDecode(k, InverseData(k), ModInverse(Det(k)), v);
  }

  /** The key of `p3a`, [[2, 3], [9, 6]], has determinant -15, which is 11
      mod 26 with inverse 19, and inverse key [[10, 21], [11, 12]]. */
  lemma P3aInverseKey()
    ensures ModInverse(Det([[2, 3], [9, 6]])) == 19
    ensures InverseData([[2, 3], [9, 6]]) == [[10, 21], [11, 12]]
  {
    var k := [[2, 3], [9, 6]];
    assert Det(k) == -15;
    assert Mod26(-15) == 11 by { ModUnique(-15, N, -1, 11); }
    InverseSearchUnique(-15, 19);
    forall j | 0 <= j < 19 ensures Mod26(11 * j) != 1 {
      ModUnique(11 * j, N, (11 * j) / N, (11 * j) % N);
    }
    assert Mod26(11 * 19) == 1 by { ModUnique(11 * 19, N, 8, 1); }
    assert IsInverseSearch(-15, 19);
    var adj := Adjugate(k);
    assert adj == [[6, 23], [17, 2]] by {
      ModUnique(6, N, 0, 6);
      ModUnique(-3, N, -1, 23);
      ModUnique(-9, N, -1, 17);
      ModUnique(2, N, 0, 2);
    }
    ModUnique(6 * 19, N, 4, 10);
    ModUnique(23 * 19, N, 16, 21);
    ModUnique(17 * 19, N, 12, 11);
    ModUnique(2 * 19, N, 1, 12);
    var sc := Scale(adj, 19);
    assert sc[0][0] == Mod26(6 * 19) && sc[0][1] == Mod26(23 * 19);
    assert sc[1][0] == Mod26(17 * 19) && sc[1][1] == Mod26(2 * 19);
    assert Mod26(6 * 19) == 10 && Mod26(23 * 19) == 21;
    assert Mod26(17 * 19) == 11 && Mod26(2 * 19) == 12;
    assert sc[0] == [10, 21] && sc[1] == [11, 12];
    assert sc == [[10, 21], [11, 12]];
  }
}
