/** The chi-squared fit of an observed letter histogram against the
    expected English counts, and the search over the cyclic rotations of the
    histogram for the best fit (`LetterFreq::get_x2` and
    `LetterFreq::get_best_x2_shift`). The expected counts themselves come
    from a floating-point table and are a parameter here. */
module Frequency {
  import opened Modular
  import opened Vigenere

  /** `get_expected_dist`: the expected count of every letter in a text of
      n letters; always 26 counts. */
  type ExpectedCounts = f: nat -> seq<nat> | forall n :: |f(n)| == N
    witness (n: nat) => seq(N, _ => 0)

  function Square(x: int): nat { x * x }

  /** Sum of squared differences between observed and expected counts,
      over the observed entries. */
  function X2(expected: seq<nat>, dist: seq<nat>): nat
    requires |dist| <= |expected|
  {
    if dist == [] then 0
    else Square(dist[0] as int - expected[0]) + X2(expected[1..], dist[1..])
  }

  /** The score is zero exactly when the observation equals the expectation. */
  lemma {:induction false} X2ZeroIff(expected: seq<nat>, dist: seq<nat>)
    requires |dist| <= |expected|
    ensures X2(expected, dist) == 0 <==> dist == expected[..|dist|]
  {
    if dist != [] {
      X2ZeroIff(expected[1..], dist[1..]);
      if dist[0] != expected[0] {
        assert Square(dist[0] as int - expected[0]) > 0;
      }
      assert expected[..|dist|] == [expected[0]] + expected[1..][..|dist| - 1];
    }
  }

  /** `get_x2`: accumulates the squared differences entry by entry. The
      source indexes the 26 expected counts by the observed positions. */
  method GetX2(expectedOf: ExpectedCounts, n: nat, dist: seq<nat>) returns (x2: nat)
    requires |dist| <= N
    ensures x2 == X2(expectedOf(n), dist)
  {
    var expected := expectedOf(n);
    x2 := 0;
    var i := 0;
    while i < |dist|
      invariant 0 <= i <= |dist|
      invariant x2 + X2(expected[i..], dist[i..]) == X2(expected, dist)
    {
      assert expected[i..][1..] == expected[i + 1..];
      assert dist[i..][1..] == dist[i + 1..];
      x2 := x2 + Square(dist[i] as int - expected[i]);
      i := i + 1;
    }
  }

  /** The score of the histogram rotated right k places, against the
      counts expected for its total. */
  function Chi(expectedOf: ExpectedCounts, dist: seq<nat>, k: nat): nat
    requires 0 < |dist| <= N
  {
    X2(expectedOf(Sum(dist)), RotateN(dist, k))
  }

  /** A score as seen by a strict comparison against the start value
      `usize::MAX`. */
  function Capped(x: nat): nat
  {
    if x < UsizeMax then x else UsizeMax
  }

  /** Number of rotations `get_best_x2_shift` tries. */
  const Passes: nat := 27

  /** The capped score of each of the 27 rotations tried. */
  function Scores(expectedOf: ExpectedCounts, dist: seq<nat>): (sc: seq<nat>)
    requires 0 < |dist| <= N
    ensures |sc| == Passes
  {
    seq(Passes, k requires 0 <= k < Passes => Capped(Chi(expectedOf, dist, k)))
  }

  /** r is the least index holding the minimum of s. */
  predicate IsLeastArgmin(s: seq<nat>, r: nat)
  {
    && r < |s|
    && (forall k :: 0 <= k < |s| ==> s[r] <= s[k])
    && (forall k :: 0 <= k < r ==> s[k] > s[r])
  }

  /** r is the least rotation in [0, 27) whose (capped) score is minimal. */
  predicate IsBestShift(expectedOf: ExpectedCounts, dist: seq<nat>, r: nat)
    requires 0 < |dist| <= N
  {
    IsLeastArgmin(Scores(expectedOf, dist), r)
  }

  /** The state of the scan after i passes: bestI is the least index of the
      least score so far, and bestX2 that score (usize::MAX before any). */
  predicate ArgminPrefix(sc: seq<nat>, i: nat, bestI: nat, bestX2: nat)
  {
    && i <= |sc| && bestX2 <= UsizeMax
    && (i == 0 ==> bestI == 0 && bestX2 == UsizeMax)
    && (i > 0 ==> bestI < i && bestX2 == sc[bestI])
    && (forall k :: 0 <= k < i ==> bestX2 <= sc[k])
    && (forall k :: 0 <= k < bestI ==> sc[k] > bestX2)
  }

  /** One pass of the scan with the strict comparison keeps the state. */
  lemma ArgminPrefixStep(sc: seq<nat>, i: nat, bestI: nat, bestX2: nat, x2: nat)
    requires i < |sc| && ArgminPrefix(sc, i, bestI, bestX2) && Capped(x2) == sc[i]
    ensures x2 < bestX2 ==> ArgminPrefix(sc, i + 1, i, x2)
    ensures !(x2 < bestX2) ==> ArgminPrefix(sc, i + 1, bestI, bestX2)
  {
  }

  /** At the end of the scan the state names the least argmin. */
  lemma ArgminPrefixDone(sc: seq<nat>, bestI: nat, bestX2: nat)
    requires |sc| > 0 && ArgminPrefix(sc, |sc|, bestI, bestX2)
    ensures IsLeastArgmin(sc, bestI)
  {
  }

  /** One pass of `get_best_x2_shift`: scores the buffer, which holds the
      histogram rotated i places, and rotates it one place further. */
  method ScoreAndRotate(expectedOf: ExpectedCounts, dist: seq<nat>, n: nat, a: array<nat>, i: nat)
    returns (x2: nat)
    requires 0 < |dist| <= N && n == Sum(dist) && i < Passes
    requires a.Length == |dist| && a[..] == RotateN(dist, i)
    modifies a
    ensures Capped(x2) == Scores(expectedOf, dist)[i]
    ensures a[..] == RotateN(dist, i + 1)
  {
    x2 := GetX2(expectedOf, n, a[..]);
    Ceaser1(a);
  }

  /** The comparison of one pass: a strictly smaller score replaces the
      best so far. */
  method Keep(ghost sc: seq<nat>, i: nat, bestI: nat, bestX2: nat, x2: nat)
    returns (bestI': nat, bestX2': nat)
    requires i < |sc| && ArgminPrefix(sc, i, bestI, bestX2) && Capped(x2) == sc[i]
    ensures ArgminPrefix(sc, i + 1, bestI', bestX2')
  {
    ArgminPrefixStep(sc, i, bestI, bestX2, x2);
    bestI', bestX2' := bestI, bestX2;
    if x2 < bestX2 {
      bestX2' := x2;
      bestI' := i;
    }
  }

  /** `get_best_x2_shift`: scores 27 successive rotations of a copy of the
      histogram, keeping the first strictly better score. On a 26-bin
      histogram the 27th pass sees the original again, so it never wins. */
  method GetBestX2Shift(expectedOf: ExpectedCounts, dist: seq<nat>) returns (bestI: nat)
    requires 0 < |dist| <= N
    ensures IsBestShift(expectedOf, dist, bestI)
    ensures |dist| == N ==> bestI < N
  {
    ghost var sc := Scores(expectedOf, dist);
    var n := Sum(dist);
    bestI := 0;
    var bestX2 := UsizeMax;
    var a := new nat[|dist|](k requires 0 <= k < |dist| => dist[k]);
    assert a[..] == RotateN(dist, 0);
    var i := 0;
    while i < Passes
      invariant 0 <= i <= Passes
      invariant a.Length == |dist| && a[..] == RotateN(dist, i)
      invariant ArgminPrefix(sc, i, bestI, bestX2)
    {
      var x2 := ScoreAndRotate(expectedOf, dist, n, a, i);
      bestI, bestX2 := Keep(sc, i, bestI, bestX2, x2);
      i := i + 1;
    }
    ArgminPrefixDone(sc, bestI, bestX2);
    if |dist| == N {
      LastPassNeverWins(expectedOf, dist, bestI);
    }
  }

  /** On a 26-bin histogram the 27th rotation is the original one again, so
      under the strict comparison it can never be the chosen shift. */
  lemma LastPassNeverWins(expectedOf: ExpectedCounts, dist: seq<nat>, r: nat)
    requires |dist| == N && IsBestShift(expectedOf, dist, r)
    ensures r < N
  {
    RotateFullCircle(dist);
    assert Scores(expectedOf, dist)[N] == Scores(expectedOf, dist)[0];
  }

  /** If some rotation of the histogram matches the expected counts exactly
      (the histogram of a text shifted by a known amount), the search
      returns a rotation that matches exactly, and none later than the
      first such. */
  lemma ExactShiftIsChosen(expectedOf: ExpectedCounts, dist: seq<nat>, s: nat, r: nat)
    requires 0 < |dist| <= N && s < Passes
    requires RotateN(dist, s) == expectedOf(Sum(dist))[..|dist|]
    requires IsBestShift(expectedOf, dist, r)
    ensures RotateN(dist, r) == expectedOf(Sum(dist))[..|dist|]
    ensures r <= s
  {
    var e := expectedOf(Sum(dist));
    X2ZeroIff(e, RotateN(dist, s));
    X2ZeroIff(e, RotateN(dist, r));
    assert Scores(expectedOf, dist)[s] == 0;
    assert Scores(expectedOf, dist)[r] == Capped(Chi(expectedOf, dist, r));
  }
}
