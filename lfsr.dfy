/** The linear-feedback shift register exercises: digit strings and bit
    vectors (`str_to_ints`, `ints_to_str`), the known-plaintext recovery of
    the keystream and its window matrix (`solve_lfsr`), and the two
    computations of `p2`: extending a bit sequence by a linear recurrence
    over GF(2), and searching the end of the sequence for a period. */
module Lfsr {
  import opened Modular
  import opened Gf2

  datatype Option<T> = None | Some(value: T)

  predicate IsDigit(c: char) { '0' <= c <= '9' }

  predicate AllDigits(s: string) { forall k :: 0 <= k < |s| ==> IsDigit(s[k]) }

  /** The character of a decimal digit. */
  function DigitChar(d: int): (c: char)
    requires 0 <= d < 10
    ensures IsDigit(c) && c as int - '0' as int == d
  {
    ('0' as int + d) as char
  }

  /** `str_to_ints`: the value of every decimal digit. `to_digit(10)`
      fails on any other character, so the text must be all digits. */
  function StrToInts(s: string): (v: seq<Byte>)
    requires AllDigits(s)
    ensures |v| == |s| && forall k :: 0 <= k < |v| ==> v[k] < 10 && DigitChar(v[k]) == s[k]
  {
    seq(|s|, k requires 0 <= k < |s| => s[k] as int - '0' as int)
  }

  /** `to_string` of a `u8`: its decimal digits, without leading zeros. */
  function Decimal(i: Byte): (r: string)
    ensures AllDigits(r) && 1 <= |r|
    ensures |r| == 1 <==> i < 10
    decreases i
  {
    if i < 10 then [DigitChar(i)] else Decimal(i / 10) + [DigitChar(i % 10)]
  }

  /** `ints_to_str`: the decimal forms of the values, joined. */
  function IntsToStr(v: seq<Byte>): (r: string)
    ensures AllDigits(r) && |r| >= |v|
  {
    if v == [] then [] else Decimal(v[0]) + IntsToStr(v[1..])
  }

  /** One character per value exactly when every value is a single digit. */
  lemma {:induction false} IntsToStrLength(v: seq<Byte>)
    ensures |IntsToStr(v)| == |v| <==> forall k :: 0 <= k < |v| ==> v[k] < 10
  {
    if v != [] {
      IntsToStrLength(v[1..]);
      assert forall k :: 1 <= k < |v| ==> v[k] == v[1..][k - 1];
    }
  }

  /** On single digits `ints_to_str` writes one digit character per value. */
  lemma {:induction false} IntsToStrDigits(v: seq<Byte>)
    requires forall k :: 0 <= k < |v| ==> v[k] < 10
    ensures IntsToStr(v) == seq(|v|, k requires 0 <= k < |v| => DigitChar(v[k]))
  {
    if v != [] {
      IntsToStrDigits(v[1..]);
    }
  }

  /** Writing single digits out and reading them back gives them back ... */
  lemma DigitsRoundTrip(v: seq<Byte>)
    requires forall k :: 0 <= k < |v| ==> v[k] < 10
    ensures StrToInts(IntsToStr(v)) == v
  {
    IntsToStrDigits(v);
  }

  /** ... and reading a digit string and writing it out gives it back. */
  lemma StringRoundTrip(s: string)
    requires AllDigits(s)
    ensures IntsToStr(StrToInts(s)) == s
  {
    IntsToStrDigits(StrToInts(s));
  }

  /** The keystream of `solve_lfsr`: (plain[i] + cipher[i]) mod 2 for every
      plaintext position. */
  function Keystream(p: seq<Byte>, c: seq<Byte>): (ks: seq<Byte>)
    requires |p| <= |c|
    ensures |ks| == |p| && Binary(ks)
  {
    seq(|p|, i requires 0 <= i < |p| => (p[i] as int + c[i]) % 2)
  }

  /** On bits the keystream is the exclusive or of plaintext and
      ciphertext: it is 1 exactly where they differ, and adding it to the
      plaintext gives the ciphertext back. */
  lemma KeystreamIsXor(p: seq<Byte>, c: seq<Byte>)
    requires |p| <= |c| && Binary(p) && Binary(c)
    ensures forall i :: 0 <= i < |p| ==> (Keystream(p, c)[i] == 1 <==> p[i] != c[i])
    ensures forall i :: 0 <= i < |p| ==> (p[i] + Keystream(p, c)[i]) % 2 == c[i]
  {
  }

  /** The m x m matrix whose row i is the window of m keystream values
      starting at i. */
  function Windows(ks: seq<Byte>, m: nat): (r: seq<seq<int>>)
    requires 2 * m <= |ks| + 1
    ensures |r| == m
    ensures forall i :: 0 <= i < m ==> |r[i]| == m
    ensures forall i, j :: 0 <= i < m && 0 <= j < m ==> r[i][j] == ks[i + j]
  {
    seq(m, i requires 0 <= i < m => ks[i..i + m])
  }

  /** A sum of m products of bits is at most m. */
  lemma {:induction false} RowSumOfBits(lhs: seq<Byte>, row: seq<int>, n: nat)
    requires n <= |lhs| && n <= |row|
    requires forall j :: 0 <= j < n ==> lhs[j] <= 1 && 0 <= row[j] <= 1
    ensures RowSum(lhs, row, n) <= n
  {
    if n > 0 {
      RowSumOfBits(lhs, row, n - 1);
      var a, b := lhs[n - 1], ToU8(row[n - 1]);
      assert Product(a, b) <= 1 by {
        if a == 0 { assert Product(a, b) == 0; } else { assert Product(a, b) == b; }
      }
    }
  }

  /** `lhs_mul` cannot overflow on the window matrix of a bit keystream
      with fewer than 256 columns. */
  lemma WindowsFit(ks: seq<Byte>, m: nat)
    requires 2 * m <= |ks| && m < 256 && Binary(ks)
    ensures LhsMulFits(ks[m..2 * m], Windows(ks, m))
  {
    var w := Windows(ks, m);
    forall i | 0 <= i < m ensures RowSum(ks[m..2 * m], w[i], m) < 256 {
      RowSumOfBits(ks[m..2 * m], w[i], m);
    }
  }

  /** The keystream loop of `solve_lfsr`. */
  method KeystreamOf(plain: seq<Byte>, cipher: seq<Byte>) returns (keystream: seq<Byte>)
    requires |plain| <= |cipher| && forall k :: 0 <= k < |plain| ==> plain[k] < 10 && cipher[k] < 10
    ensures keystream == Keystream(plain, cipher)
  {
    keystream := [];
    var i := 0;
    while i < |plain|
      invariant 0 <= i <= |plain| && |keystream| == i
      invariant forall k :: 0 <= k < i ==> keystream[k] == (plain[k] as int + cipher[k]) % 2
    {
      keystream := keystream + [(plain[i] + cipher[i]) % 2];
      i := i + 1;
    }
  }

  /** The matrix loop of `solve_lfsr`: m pushes of keystream windows. */
  method WindowMatrix(keystream: seq<Byte>, m: nat) returns (matrix: Matrix)
    requires 2 * m <= |keystream|
    ensures fresh(matrix) && matrix.data == Windows(keystream, m)
  {
    matrix := new Matrix();
    var i := 0;
    while i < m
      invariant 0 <= i <= m && |matrix.data| == i
      invariant forall r :: 0 <= r < i ==> matrix.data[r] == keystream[r..r + m]
    {
      matrix.Push(keystream[i..i + m]);
      i := i + 1;
    }
  }

  /** The product of `solve_lfsr`: the window matrix times the m values
      after the first m, each entry the GF(2) dot product of a window with
      that vector. */
  method WindowProduct(keystream: seq<Byte>, m: nat, matrix: Matrix) returns (consts: seq<Byte>)
    requires 2 * m <= |keystream| && m < 256 && Binary(keystream)
    requires matrix.data == Windows(keystream, m)
    ensures |consts| == m
    ensures forall i :: 0 <= i < m ==>
              consts[i] == Bit(ModSum(keystream[m..2 * m], keystream[i..i + m], m))
  {
    var input := keystream[m..2 * m];
    WindowsFit(keystream, m);
    consts := matrix.LhsMul(input);
    forall r | 0 <= r < m
      ensures consts[r] == Bit(ModSum(input, keystream[r..r + m], m))
    {
      assert matrix.data[r] == keystream[r..r + m];
      RowSumParity(input, keystream[r..r + m], m);
    }
  }

  /** `solve_lfsr` without its printing: the keystream, the window matrix,
      the product `lhs_mul` computes from them, and the keystream written
      out. The ciphertext must be at least as long as the plaintext and the
      plaintext at least 2m long (the index and slice bounds). */
  method SolveLfsr(plaintext: string, ciphertext: string, m: nat)
    returns (keystream: seq<Byte>, matrix: Matrix, consts: seq<Byte>, out: string)
    requires AllDigits(plaintext) && AllDigits(ciphertext) && |plaintext| <= |ciphertext|
    requires m < 256 && 2 * m <= |plaintext|
    ensures keystream == Keystream(StrToInts(plaintext), StrToInts(ciphertext))
    ensures fresh(matrix) && matrix.data == Windows(keystream, m)
    ensures |consts| == m
    ensures forall i :: 0 <= i < m ==>
              consts[i] == Bit(ModSum(keystream[m..2 * m], keystream[i..i + m], m))
    ensures out == IntsToStr(keystream) && |out| == |plaintext| && StrToInts(out) == keystream
  {
    var plain := StrToInts(plaintext);
    var cipher := StrToInts(ciphertext);
    keystream := KeystreamOf(plain, cipher);
    matrix := WindowMatrix(keystream, m);
    consts := WindowProduct(keystream, m, matrix);
    out := IntsToStr(keystream);
    IntsToStrLength(keystream);
    DigitsRoundTrip(keystream);
  }

  /** The next value of the `p2` recurrence from position i: the sum of
      modb(values[i + j] * c[j]) over the coefficients, reduced mod 2. */
  function NextTerm(c: seq<int>, w: seq<int>, i: nat): (r: int)
    requires i + |c| <= |w|
    ensures r == 0 || r == 1
  {
    Bit(ModSum(w[i..i + |c|], c, |c|))
  }

  /** The sequence w extended by k terms of the recurrence. */
  function Extend(c: seq<int>, w: seq<int>, k: nat): (r: seq<int>)
    requires |c| <= |w|
    ensures |r| == |w| + k
  {
    if k == 0 then w else var prev := Extend(c, w, k - 1); prev + [NextTerm(c, prev, k - 1)]
  }

  /** The extension keeps the start, every added term obeys the recurrence
      on the whole extended sequence, and every added term is a bit. */
  lemma {:induction false} ExtendFacts(c: seq<int>, w: seq<int>, k: nat)
    requires |c| <= |w|
    ensures Extend(c, w, k)[..|w|] == w
    ensures forall i :: 0 <= i < k ==> Extend(c, w, k)[|w| + i] == NextTerm(c, Extend(c, w, k), i)
    ensures Binary(w) ==> Binary(Extend(c, w, k))
  {
    if k > 0 {
      ExtendFacts(c, w, k - 1);
      var prev := Extend(c, w, k - 1);
      var e := Extend(c, w, k);
      assert e == prev + [NextTerm(c, prev, k - 1)];
      forall i | 0 <= i < k ensures e[|w| + i] == NextTerm(c, e, i) {
        assert e[i..i + |c|] == prev[i..i + |c|];
        assert NextTerm(c, e, i) == NextTerm(c, prev, i);
        if i < k - 1 {
          assert e[|w| + i] == prev[|w| + i];
        } else {
          assert e[|w| + i] == e[|prev|];
        }
      }
    }
  }

  /** The recurrence loop of `p2`: `steps` times, accumulates the reduced
      products over the last |c| values and appends the reduced sum. */
  method Recurrence(c: seq<int>, values: seq<int>, steps: nat) returns (vs: seq<int>)
    requires |c| <= |values|
    ensures vs == Extend(c, values, steps)
  {
    vs := values;
    var i := 0;
    while i < steps
      invariant 0 <= i <= steps && vs == Extend(c, values, i)
    {
      var temp := 0;
      var j := 0;
      while j < |c|
        invariant 0 <= j <= |c| && temp == ModSum(vs[i..i + |c|], c, j)
      {
        var t := Modb(vs[i + j] * c[j]);
        temp := temp + t;
        j := j + 1;
      }
      var b := Modb(temp);
      vs := vs + [b];
      i := i + 1;
    }
  }

  /** Offset k of the period check for period p: the value k places from
      the end equals the values p, 2p and 3p places before it, all of them
      inside the sequence. */
  predicate Agrees(v: seq<int>, p: nat, k: nat)
  {
    var e := |v| - 1;
    && 3 * p + k <= e
    && v[e - k] == v[e - p - k]
    && v[e - k] == v[e - 2 * p - k]
    && v[e - k] == v[e - 3 * p - k]
  }

  /** The last p values repeat one, two and three periods back. */
  predicate RepeatsAtEnd(v: seq<int>, p: nat)
  {
    4 * p <= |v| && forall k :: 0 <= k < p ==> Agrees(v, p, k)
  }

  /** The period search of `p2`: tries periods 4, 5, ... and stops at the
      first one whose check passes. Where the source would index before
      the start of the sequence (and panic), the model returns None. The
      result is the least period from 4 on that repeats at the end, or None
      when there is none. */
  method FindPeriod(values: seq<int>) returns (r: Option<nat>)
    ensures r.Some? ==> 4 <= r.value && RepeatsAtEnd(values, r.value)
    ensures r.Some? ==> forall q :: 4 <= q < r.value ==> !RepeatsAtEnd(values, q)
    ensures r.None? ==> forall q :: 4 <= q ==> !RepeatsAtEnd(values, q)
  {
    if |values| == 0 {
      return None;
    }
    var end := |values| - 1;
    var period := 4;
    var found := false;
    while !found
      invariant 4 <= period <= |values| + 4
      invariant forall q :: 4 <= q < period ==> !RepeatsAtEnd(values, q)
      invariant found ==> RepeatsAtEnd(values, period)
      decreases |values| + 4 - period + (if found then 0 else 1)
    {
      found := true;
      var i := 0;
      while i < period
        invariant 0 <= i <= period
        invariant found
        invariant forall k :: 0 <= k < i ==> Agrees(values, period, k)
      {
        if end < period + i {
          NoLongPeriod(values, period);
          return None;
        }
        if values[end - i] != values[end - period - i] {
          found := false;
          break;
        }
        if end < 2 * period + i {
          NoLongPeriod(values, period);
          return None;
        }
        if values[end - i] != values[end - 2 * period - i] {
          found := false;
          break;
        }
        if end < 3 * period + i {
          NoLongPeriod(values, period);
          return None;
        }
        if values[end - i] != values[end - 3 * period - i] {
          found := false;
          break;
        }
        i := i + 1;
      }
      if !found {
        assert !Agrees(values, period, i);
        period := period + 1;
      } else {
        assert Agrees(values, period, period - 1);
      }
    }
    return Some(period);
  }

  /** Once a check would index before the start, no period that long or
      longer fits four times into the sequence. */
  lemma NoLongPeriod(v: seq<int>, p: nat)
    requires |v| < 4 * p
    ensures forall q :: p <= q ==> !RepeatsAtEnd(v, q)
  {
  }
}
