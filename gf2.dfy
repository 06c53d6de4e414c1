/** The GF(2) side of the stream-cipher exercises: `modb`, which here
    reduces modulo 2, and the bit `Matrix` with its push, in-place scaling
    (`mul_n`), row-times-vector product (`lhs_mul`) and product with a
    column vector (`mul`). */
module Gf2 {
  import opened Modular
  import Hill

  /** A value reduced into {0, 1}. */
  function Bit(x: int): (r: int)
    ensures r == 0 || r == 1
    ensures Congruent(x, r, 2)
  {
    Reduce(x, 2)
  }

  /** `modb` of the stream-cipher exercises: `modb_n` with base 2 (the
      comment in the source still speaks of the alphabet). */
  method Modb(x: int) returns (r: int)
    ensures r == 0 || r == 1
    ensures Congruent(x, r, 2)
    ensures r == Bit(x)
  {
    r := ModbN(x, 2);
  }

  /** Reducing the summands first gives the same bit: addition of bits is
      exclusive or. */
  lemma BitAdd(x: int, y: int)
    ensures Bit(Bit(x) + Bit(y)) == Bit(x + y)
  {
    ReduceAdd(x, y, 2);
    ReduceAdd(y, Bit(x), 2);
  }

  /** Rust's `as u8` on a signed value: its low eight bits. */
  function ToU8(x: int): (r: Byte)
    ensures 0 <= x < 256 ==> r == x
  {
    x % 256
  }

  /** Every entry is 0 or 1. */
  predicate Binary(v: seq<int>)
  {
    forall k :: 0 <= k < |v| ==> v[k] == 0 || v[k] == 1
  }

  /** Every entry of every row is 0 or 1. */
  predicate BinaryMatrix(d: seq<seq<int>>)
  {
    forall i :: 0 <= i < |d| ==> Binary(d[i])
  }

  /** Every entry multiplied by m and reduced mod 2. */
  function Scale(d: seq<seq<int>>, m: int): (r: seq<seq<int>>)
    ensures |r| == |d| && BinaryMatrix(r)
    ensures forall i :: 0 <= i < |d| ==> |r[i]| == |d[i]|
    ensures forall i, j :: 0 <= i < |d| && 0 <= j < |d[i]| ==> Congruent(r[i][j], d[i][j] * m, 2)
  {
    seq(|d|, i requires 0 <= i < |d| =>
      seq(|d[i]|, j requires 0 <= j < |d[i]| => Bit(d[i][j] * m)))
  }

  /** On a bit matrix, scaling by an odd factor changes nothing and
      scaling by an even factor clears every entry. */
  lemma ScaleOfBinary(d: seq<seq<int>>, m: int)
    requires BinaryMatrix(d)
    ensures Bit(m) == 1 ==> Scale(d, m) == d
    ensures Bit(m) == 0 ==> forall i, j :: 0 <= i < |d| && 0 <= j < |d[i]| ==> Scale(d, m)[i][j] == 0
  {
    ReduceFixesRange(0, 2);
    forall i, j | 0 <= i < |d| && 0 <= j < |d[i]|
      ensures Scale(d, m)[i][j] == d[i][j] * Bit(m)
    {
      if d[i][j] == 1 {
        assert d[i][j] * m == m;
      } else {
        assert d[i][j] * m == 0;
      }
    }
    if Bit(m) == 1 {
      forall i | 0 <= i < |d| ensures Scale(d, m)[i] == d[i] {
        assert forall j :: 0 <= j < |d[i]| ==> Scale(d, m)[i][j] == d[i][j];
      }
    }
  }

  /** The accumulation of `lhs_mul` for one row: the sum of lhs[j] times
      the `u8` truncation of row[j], over j < n. */
  function RowSum(lhs: seq<Byte>, row: seq<int>, n: nat): nat
    requires n <= |lhs| && n <= |row|
  {
    if n == 0 then 0 else RowSum(lhs, row, n - 1) + Product(lhs[n - 1], ToU8(row[n - 1]))
  }

  /** The `u8` product of two `u8` values, before any overflow check. */
  function Product(a: Byte, b: Byte): nat
  {
    a * b
  }

  /** The partial sums only grow. */
  lemma {:induction false} RowSumGrows(lhs: seq<Byte>, row: seq<int>, j: nat, n: nat)
    requires j <= n <= |lhs| && n <= |row|
    ensures RowSum(lhs, row, j) <= RowSum(lhs, row, n)
    decreases n
  {
    if j < n {
      RowSumGrows(lhs, row, j, n - 1);
    }
  }

  /** What `lhs_mul` demands: a row for every entry of lhs, every row at
      least as long as lhs, and no `u8` sum that overflows. */
  predicate LhsMulFits(lhs: seq<Byte>, data: seq<seq<int>>)
  {
    && |lhs| <= |data|
    && forall i :: 0 <= i < |lhs| ==> |lhs| <= |data[i]| && RowSum(lhs, data[i], |lhs|) < 256
  }

  /** The GF(2) dot product of the first n entries of u and w, written as
      the stream-cipher exercises write it: the sum of the reduced products,
      reduced. */
  function ModSum(u: seq<int>, w: seq<int>, n: nat): nat
    requires n <= |u| && n <= |w|
  {
    if n == 0 then 0 else ModSum(u, w, n - 1) + Bit(u[n - 1] * w[n - 1])
  }

  /** Reducing once at the end, as `lhs_mul` does, gives the GF(2) dot
      product of lhs with the row whenever no entry of the row is changed
      by the `u8` truncation. */
  lemma {:induction false} RowSumParity(lhs: seq<Byte>, row: seq<int>, n: nat)
    requires n <= |lhs| && n <= |row|
    requires forall j :: 0 <= j < n ==> 0 <= row[j] < 256
    ensures Bit(RowSum(lhs, row, n)) == Bit(ModSum(lhs, row, n))
  {
    if n > 0 {
      RowSumParity(lhs, row, n - 1);
      var p := lhs[n - 1] * row[n - 1];
      assert RowSum(lhs, row, n) == RowSum(lhs, row, n - 1) + p;
      BitAdd(RowSum(lhs, row, n - 1), p);
      BitAdd(ModSum(lhs, row, n - 1), p);
      BitAdd(ModSum(lhs, row, n - 1), Bit(p));
      assert Bit(Bit(p)) == Bit(p) by { ReduceFixesRange(Bit(p), 2); }
    }
  }

  /** The product of the columns of a bit matrix with a column, reduced
      mod 2, as `mul` computes it. */
  function MulData(a: seq<seq<int>>, b: seq<seq<int>>): (r: seq<seq<int>>)
    requires Hill.CanMul(a, b)
    ensures |r| == |b|
    ensures forall j :: 0 <= j < |b| ==> |r[j]| == 1 && (r[j][0] == 0 || r[j][0] == 1)
  {
    seq(|b|, j requires 0 <= j < |b| => [Bit(Hill.DotUpTo(a[j], b, |a[j]|))])
  }

  /** The fold of `mul` against a column equals the accumulation of
      `lhs_mul` against the same entries. */
  lemma {:induction false} DotIsRowSum(row: seq<int>, lhs: seq<Byte>, n: nat)
    requires n <= |row| && n <= |lhs|
    requires forall j :: 0 <= j < n ==> 0 <= row[j] < 256
    ensures Hill.DotUpTo(row, Hill.Column(lhs), n) == RowSum(lhs, row, n)
  {
    if n > 0 {
      DotIsRowSum(row, lhs, n - 1);
      assert Hill.Column(lhs)[n - 1][0] == lhs[n - 1];
    }
  }

  /** `Matrix`. */
  class Matrix {
    var data: seq<seq<int>>

    /** `Matrix::new`: no rows. */
    constructor ()
      ensures data == []
    {
      data := [];
    }

    /** `push`: appends v as a new last row. */
    method Push(v: seq<Byte>)
      modifies this
      ensures data == old(data) + [v]
    {
      data := data + [v];
    }

    /** `mul_n`: every entry becomes modb(entry * m), in place. */
    method MulN(m: int)
      modifies this
      ensures data == Scale(old(data), m)
    {
      ghost var d := data;
      var i := 0;
      while i < |data|
        invariant 0 <= i <= |data| == |d|
        invariant forall r :: 0 <= r < i ==> data[r] == Scale(d, m)[r]
        invariant forall r :: i <= r < |d| ==> data[r] == d[r]
      {
        var j := 0;
        while j < |data[i]|
          invariant |data| == |d| && 0 <= j <= |data[i]| == |d[i]|
          invariant data[i][..j] == Scale(d, m)[i][..j] && data[i][j..] == d[i][j..]
          invariant forall r :: 0 <= r < |d| && r != i ==> data[r] == (if r < i then Scale(d, m)[r] else d[r])
        {
          var e := Modb(data[i][j] * m);
          data := data[i := data[i][j := e]];
          j := j + 1;
        }
        assert data[i] == data[i][..j];
        i := i + 1;
      }
      assert data == Scale(d, m);
    }

    /** `lhs_mul`: entry i of the result is the `u8` sum of lhs[j] times
      entry (i, j), reduced mod 2. */
    method LhsMul(lhs: seq<Byte>) returns (result: seq<Byte>)
      requires LhsMulFits(lhs, data)
      ensures |result| == |lhs| && Binary(result)
      ensures forall i :: 0 <= i < |lhs| ==> result[i] == Bit(RowSum(lhs, data[i], |lhs|))
    {
      result := lhs;
      var i := 0;
      while i < |lhs|
        invariant 0 <= i <= |lhs| == |result|
        invariant forall r :: 0 <= r < i ==> result[r] == Bit(RowSum(lhs, data[r], |lhs|))
      {
        result := result[i := 0];
        var j := 0;
        while j < |lhs|
          invariant 0 <= j <= |lhs| == |result|
          invariant result[i] == RowSum(lhs, data[i], j)
          invariant forall r :: 0 <= r < i ==> result[r] == Bit(RowSum(lhs, data[r], |lhs|))
        {
          RowSumGrows(lhs, data[i], j + 1, |lhs|);
          result := result[i := result[i] + lhs[j] * ToU8(data[i][j])];
          j := j + 1;
        }
        result := result[i := result[i] % 2];
        i := i + 1;
      }
    }

    /** `mul`: a copy of rhs whose row j is replaced by the reduced dot
      product of row j of this matrix with the first column of rhs. */
    method Mul(rhs: Matrix) returns (result: Matrix)
      requires Hill.CanMul(data, rhs.data)
      ensures fresh(result) && result.data == MulData(data, rhs.data)
    {
      result := new Matrix();
      result.data := rhs.data;
      var j := 0;
      while j < |result.data|
        invariant 0 <= j <= |result.data| == |rhs.data|
        invariant forall r :: 0 <= r < j ==> result.data[r] == MulData(data, rhs.data)[r]
        invariant forall r :: j <= r < |rhs.data| ==> result.data[r] == rhs.data[r]
      {
        var e := Modb(Hill.DotUpTo(data[j], rhs.data, |data[j]|));
        result.data := result.data[j := [e]];
        j := j + 1;
      }
    }
  }

  /** The value `lhs_mul` computes, as a function. */
  function LhsMulData(lhs: seq<Byte>, d: seq<seq<int>>): (r: seq<int>)
    requires LhsMulFits(lhs, d)
    ensures |r| == |lhs| && Binary(r)
  {
    seq(|lhs|, i requires 0 <= i < |lhs| => Bit(RowSum(lhs, d[i], |lhs|)))
  }

  /** On a square matrix of small entries, `lhs_mul` and `mul` agree: both
      give, for every row, its GF(2) dot product with the vector. */
  lemma LhsMulAgreesWithMul(lhs: seq<Byte>, d: seq<seq<int>>)
    requires |d| == |lhs| && forall i :: 0 <= i < |d| ==> |d[i]| == |lhs|
    requires forall i, j :: 0 <= i < |d| && 0 <= j < |d[i]| ==> 0 <= d[i][j] < 256
    requires LhsMulFits(lhs, d)
    ensures Hill.CanMul(d, Hill.Column(lhs))
    ensures MulData(d, Hill.Column(lhs)) == Hill.Column(LhsMulData(lhs, d))
    ensures forall i :: 0 <= i < |lhs| ==> LhsMulData(lhs, d)[i] == Bit(ModSum(lhs, d[i], |lhs|))
  {
    forall i | 0 <= i < |lhs|
      ensures Hill.DotUpTo(d[i], Hill.Column(lhs), |lhs|) == RowSum(lhs, d[i], |lhs|)
      ensures LhsMulData(lhs, d)[i] == Bit(ModSum(lhs, d[i], |lhs|))
    {
      DotIsRowSum(d[i], lhs, |lhs|);
      RowSumParity(lhs, d[i], |lhs|);
    }
  }
}
