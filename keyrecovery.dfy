/** Vigenère key recovery for a chosen key length (`solve_vig`): one
    26-bin letter histogram per coset (the positions congruent to r modulo
    the key length), the best chi-squared rotation of each histogram as the
    key symbol for that coset, and decoding of the whole text with the key. */
module KeyRecovery {
  import opened Modular
  import opened Letters
  import opened Vigenere
  import opened Frequency

  /** Number of positions p < n with p % k == r and v[p] == s. */
  function CountAt(v: seq<int>, k: nat, r: nat, s: int, n: nat): nat
    requires 0 < k && n <= |v|
  {
    if n == 0 then 0
    else CountAt(v, k, r, s, n - 1) + (if (n - 1) % k == r && v[n - 1] == s then 1 else 0)
  }

  /** Histogram of coset r over the first n symbols. */
  function HistogramUpTo(v: seq<int>, k: nat, r: nat, n: nat): (h: seq<nat>)
    requires 0 < k && n <= |v|
    ensures |h| == N
  {
    seq(N, s requires 0 <= s < N => CountAt(v, k, r, s, n))
  }

  /** Histogram of coset r over the whole text. */
  function Histogram(v: seq<int>, k: nat, r: nat): (h: seq<nat>)
    requires 0 < k
    ensures |h| == N
  {
    HistogramUpTo(v, k, r, |v|)
  }

  /** Reading one more symbol adds one to its bin in its own coset's
      histogram and changes no other histogram. */
  lemma HistogramStep(v: seq<int>, k: nat, r: nat, n: nat)
    requires 0 < k && n < |v| && 0 <= v[n] < N
    ensures HistogramUpTo(v, k, r, n + 1) ==
              if n % k == r then HistogramUpTo(v, k, r, n)[v[n] := HistogramUpTo(v, k, r, n)[v[n]] + 1]
              else HistogramUpTo(v, k, r, n)
  {
  }

  /** Number of positions p < n with p % k == r: the size of coset r. */
  function CosetSize(k: nat, r: nat, n: nat): nat
    requires 0 < k
  {
    if n == 0 then 0 else CosetSize(k, r, n - 1) + (if (n - 1) % k == r then 1 else 0)
  }

  /** The histogram of coset r holds exactly one count per position of the
      coset. */
  lemma {:induction false} HistogramSumIsCosetSize(v: seq<int>, k: nat, r: nat, n: nat)
    requires 0 < k && n <= |v| && AllSymbols(v)
    ensures Sum(HistogramUpTo(v, k, r, n)) == CosetSize(k, r, n)
  {
    if n == 0 {
      SumZeros(HistogramUpTo(v, k, r, 0));
    } else {
      HistogramSumIsCosetSize(v, k, r, n - 1);
      HistogramStep(v, k, r, n - 1);
      if (n - 1) % k == r {
        SumIncrement(HistogramUpTo(v, k, r, n - 1), v[n - 1]);
      }
    }
  }

  function CosetSizes(k: nat, n: nat): (c: seq<nat>)
    requires 0 < k
    ensures |c| == k
  {
    seq(k, r requires 0 <= r < k => CosetSize(k, r, n))
  }

  /** The cosets partition the positions. */
  lemma {:induction false} CosetSizesSum(k: nat, n: nat)
    requires 0 < k
    ensures Sum(CosetSizes(k, n)) == n
  {
    if n == 0 {
      SumZeros(CosetSizes(k, 0));
    } else {
      CosetSizesSum(k, n - 1);
      var c := CosetSizes(k, n - 1);
      assert CosetSizes(k, n) == c[(n - 1) % k := c[(n - 1) % k] + 1];
      SumIncrement(c, (n - 1) % k);
    }
  }

  /** The counts of all keysize histograms together sum to the length of
      the text. */
  lemma HistogramsCoverText(v: seq<int>, k: nat)
    requires 0 < k && AllSymbols(v)
    ensures Sum(seq(k, r requires 0 <= r < k => Sum(Histogram(v, k, r)))) == |v|
  {
    forall r | 0 <= r < k ensures Sum(Histogram(v, k, r)) == CosetSize(k, r, |v|) {
      HistogramSumIsCosetSize(v, k, r, |v|);
    }
    assert seq(k, r requires 0 <= r < k => Sum(Histogram(v, k, r))) == CosetSizes(k, |v|);
    CosetSizesSum(k, |v|);
  }

  /** The histogram-building loop of `solve_vig`. */
  method BuildHistograms(v: seq<Byte>, k: nat) returns (freq: seq<seq<nat>>)
    requires 0 < k && AllSymbols(v)
    ensures |freq| == k
    ensures forall r :: 0 <= r < k ==> freq[r] == Histogram(v, k, r)
  {
    freq := seq(k, _ => seq(N, _ => 0));
    var i := 0;
    while i < |v|
      invariant 0 <= i <= |v| && |freq| == k
      invariant forall r :: 0 <= r < k ==> freq[r] == HistogramUpTo(v, k, r, i)
    {
      var c := v[i];
      forall r | 0 <= r < k ensures HistogramUpTo(v, k, r, i + 1) ==
          if r == i % k then freq[r][c := freq[r][c] + 1] else freq[r] {
        HistogramStep(v, k, r, i);
      }
      freq := freq[i % k := freq[i % k][c := freq[i % k][c] + 1]];
      i := i + 1;
    }
  }

  /** The key-assembly loop of `solve_vig`: the best rotation of every
      coset histogram, in coset order. */
  method RecoverKey(expectedOf: ExpectedCounts, v: seq<Byte>, k: nat, freq: seq<seq<nat>>)
    returns (key: seq<Byte>)
    requires 0 < k && |freq| == k
    requires forall r :: 0 <= r < k ==> freq[r] == Histogram(v, k, r)
    ensures |key| == k && AllSymbols(key)
    ensures forall r :: 0 <= r < k ==> IsBestShift(expectedOf, Histogram(v, k, r), key[r])
  {
    key := [];
    var r := 0;
    while r < k
      invariant 0 <= r <= k && |key| == r && AllSymbols(key)
      invariant forall j :: 0 <= j < r ==> IsBestShift(expectedOf, Histogram(v, k, j), key[j])
    {
      var x := GetBestX2Shift(expectedOf, freq[r]);
      key := key + [x];
      r := r + 1;
    }
  }

  /** The decoding step of `solve_vig`: the symbols are copied into a
      buffer, decoded in place by `de_vig` and written out in lower case. */
  method DecodeText(v: seq<Byte>, key: seq<Byte>) returns (plain: string)
    requires AllSymbols(v) && 0 < |key| && AllSymbols(key)
    ensures AllSymbols(VigAdd(v, key))
    ensures plain == IntToStrLower(VigAdd(v, key))
  {
    var buf := new Byte[|v|](j requires 0 <= j < |v| => v[j]);
    assert buf[..] == v;
    DeVig(buf, key);
    plain := IntToStrLower(buf[..]);
  }

  /** `solve_vig`: recovers one key symbol per coset by the histogram
      rotation search and decodes the text with `de_vig`. The key, which
      the source prints, is returned beside the plaintext. */
  method SolveVig(expectedOf: ExpectedCounts, cipher: string, keysize: nat)
    returns (key: seq<Byte>, plain: string)
    requires AllUpper(cipher) && 0 < keysize
    ensures UpperConvertible(cipher) && AllSymbols(StrUpperToInt(cipher))
    ensures |key| == keysize && AllSymbols(key)
    ensures forall r :: 0 <= r < keysize ==>
              IsBestShift(expectedOf, Histogram(StrUpperToInt(cipher), keysize, r), key[r])
    ensures plain == IntToStrLower(VigAdd(StrUpperToInt(cipher), key))
    ensures |plain| == |cipher| && forall j :: 0 <= j < |plain| ==> IsLower(plain[j])
  {
    UpperToLowerCase(cipher);
    var cipherv := StrUpperToInt(cipher);
    var freq := BuildHistograms(cipherv, keysize);
    key := RecoverKey(expectedOf, cipherv, keysize, freq);
    plain := DecodeText(cipherv, key);
    LowerText(VigAdd(cipherv, key));
  }
}
