/** Kasiski key-length selection (`kasiski`): the positions of every window
    of each candidate length, the repeated windows only, the distances
    between every pair of positions of a repeated window, all distances
    pooled, and the candidate length that divides the largest share of them,
    scored as percent * percent * length. */
module Kasiski {

  // ---------------------------------------------------------------------
  // Window positions

  /** Number of windows of the given length the scan visits: the source
      loops over `0..len - key - 1`, which skips the last two windows. */
  function WindowCount(c: string, key: nat): (r: nat)
    ensures r == 0 || r + key < |c|
  {
    if key + 1 <= |c| then |c| - key - 1 else 0
  }

  /** Start positions p < n of the window w, in increasing order. */
  function Occ(c: string, w: string, n: nat): seq<nat>
    requires n <= WindowCount(c, |w|)
  {
    if n == 0 then []
    else Occ(c, w, n - 1) + (if c[n - 1..n - 1 + |w|] == w then [n - 1] else [])
  }

  /** Every position the scan records for the window w. */
  function Occurrences(c: string, w: string): seq<nat>
  {
    Occ(c, w, WindowCount(c, |w|))
  }

  predicate StrictlyIncreasing(ps: seq<int>)
  {
    forall i, j :: 0 <= i < j < |ps| ==> ps[i] < ps[j]
  }

  /** The recorded positions are increasing and below n, and the text
      holds w at each of them. */
  lemma {:induction false} OccFacts(c: string, w: string, n: nat)
    requires n <= WindowCount(c, |w|)
    ensures StrictlyIncreasing(Occ(c, w, n))
    ensures forall k :: 0 <= k < |Occ(c, w, n)| ==>
              Occ(c, w, n)[k] < n && Occ(c, w, n)[k] + |w| < |c|
              && c[Occ(c, w, n)[k]..Occ(c, w, n)[k] + |w|] == w
  {
    if n > 0 {
      OccFacts(c, w, n - 1);
    }
  }

  /** All substrings of the text: a finite set that holds every window. */
  ghost function Substrings(c: string): set<string>
  {
    set i, j | 0 <= i <= j <= |c| :: c[i..j]
  }

  /** Files position p under the window k, creating the entry if needed
      (`entry(..).or_insert(Vec::new()).push(p)`). */
  function File(m: map<string, seq<int>>, k: string, p: nat): (r: map<string, seq<int>>)
    ensures r.Keys == m.Keys + {k}
  {
    m[k := (if k in m then m[k] else []) + [p]]
  }

  /** The map after the window scan for lengths lo <= key' < key and the
      first i windows of length `key`, in the order the loops visit them. */
  ghost function ScanMap(c: string, lo: nat, key: nat, i: nat): map<string, seq<int>>
    requires i <= WindowCount(c, key)
    decreases key, i
  {
    if i > 0 then File(ScanMap(c, lo, key, i - 1), c[i - 1..i - 1 + key], i - 1)
    else if key <= lo then map[]
    else ScanMap(c, lo, key - 1, WindowCount(c, key - 1))
  }

  /** The scan has filed w exactly when w occurs with a length already
      scanned ... */
  lemma {:induction false} ScanMapKeys(c: string, lo: nat, key: nat, i: nat, w: string)
    requires lo <= key && i <= WindowCount(c, key)
    ensures w in ScanMap(c, lo, key, i) <==>
              (lo <= |w| < key && Occurrences(c, w) != []) || (|w| == key && Occ(c, w, i) != [])
    decreases key, i
  {
    if i > 0 {
      ScanMapKeys(c, lo, key, i - 1, w);
      ScanStep(c, lo, key, i, w);
      if w == c[i - 1..i - 1 + key] {
        OccStep(c, w, i);
        assert w in ScanMap(c, lo, key, i) && |w| == key && Occ(c, w, i) != [];
      } else {
        assert (w in ScanMap(c, lo, key, i)) == (w in ScanMap(c, lo, key, i - 1));
        if |w| == key {
          OccStep(c, w, i);
          assert (Occ(c, w, i) != []) == (Occ(c, w, i - 1) != []);
        }
      }
    } else if key > lo {
      assert ScanMap(c, lo, key, 0) == ScanMap(c, lo, key - 1, WindowCount(c, key - 1));
      ScanMapKeys(c, lo, key - 1, WindowCount(c, key - 1), w);
      assert |w| == key - 1 ==> Occ(c, w, WindowCount(c, key - 1)) == Occurrences(c, w);
    } else {
      assert ScanMap(c, lo, key, 0) == map[];
    }
  }

  /** The entry of w after filing position p under k. */
  lemma FileAt(m: map<string, seq<int>>, k: string, p: nat, w: string)
    requires w in m || w == k
    ensures File(m, k, p)[w] == if w == k then (if k in m then m[k] else []) + [p] else m[w]
  {
  }

  /** One more window files exactly its own text. */
  lemma ScanStep(c: string, lo: nat, key: nat, i: nat, w: string)
    requires 0 < i <= WindowCount(c, key)
    ensures w in ScanMap(c, lo, key, i) <==>
              w in ScanMap(c, lo, key, i - 1) || w == c[i - 1..i - 1 + key]
    ensures w == c[i - 1..i - 1 + key] ==> |w| == key
  {
  }

  /** One more window adds a position exactly when it holds w. */
  lemma OccStep(c: string, w: string, i: nat)
    requires 0 < i <= WindowCount(c, |w|)
    ensures Occ(c, w, i) != [] <==> Occ(c, w, i - 1) != [] || c[i - 1..i - 1 + |w|] == w
  {
  }

  /** ... and has filed under it exactly its positions so far. */
  lemma {:induction false} ScanMapValues(c: string, lo: nat, key: nat, i: nat, w: string)
    requires lo <= key && i <= WindowCount(c, key)
    ensures w in ScanMap(c, lo, key, i) ==>
              ScanMap(c, lo, key, i)[w] == if |w| == key then Occ(c, w, i) else Occurrences(c, w)
    decreases key, i, 1
  {
    if i > 0 {
      ValuesUp(c, lo, key, i, w);
    } else if key > lo {
      ValuesAcross(c, lo, key, w);
    }
  }

  /** ScanMapValues after one more window of the current length. */
  lemma {:induction false} ValuesUp(c: string, lo: nat, key: nat, i: nat, w: string)
    requires lo <= key && 0 < i <= WindowCount(c, key)
    ensures w in ScanMap(c, lo, key, i) ==>
              ScanMap(c, lo, key, i)[w] == if |w| == key then Occ(c, w, i) else Occurrences(c, w)
    decreases key, i, 0
  {
    ScanMapKeys(c, lo, key, i - 1, w);
    ScanMapValues(c, lo, key, i - 1, w);
    ValuesStep(c, lo, key, i, w);
  }

  /** ScanMapValues at the start of a new window length. */
  lemma {:induction false} ValuesAcross(c: string, lo: nat, key: nat, w: string)
    requires lo < key
    ensures w in ScanMap(c, lo, key, 0) ==>
              ScanMap(c, lo, key, 0)[w] == if |w| == key then Occ(c, w, 0) else Occurrences(c, w)
    decreases key, 0, 0
  {
    ScanMapKeys(c, lo, key - 1, WindowCount(c, key - 1), w);
    ScanMapValues(c, lo, key - 1, WindowCount(c, key - 1), w);
    ValuesNext(c, lo, key, w);
  }

  /** The inductive step of ScanMapValues within one window length. */
  lemma ValuesStep(c: string, lo: nat, key: nat, i: nat, w: string)
    requires lo <= key && 0 < i <= WindowCount(c, key)
    requires w in ScanMap(c, lo, key, i - 1) <==>
               (lo <= |w| < key && Occurrences(c, w) != []) || (|w| == key && Occ(c, w, i - 1) != [])
    requires w in ScanMap(c, lo, key, i - 1) ==>
               ScanMap(c, lo, key, i - 1)[w] == if |w| == key then Occ(c, w, i - 1) else Occurrences(c, w)
    ensures w in ScanMap(c, lo, key, i) ==>
              ScanMap(c, lo, key, i)[w] == if |w| == key then Occ(c, w, i) else Occurrences(c, w)
  {
    var prev := ScanMap(c, lo, key, i - 1);
    var k := c[i - 1..i - 1 + key];
    assert ScanMap(c, lo, key, i) == File(prev, k, i - 1);
    if w == k {
      FileAt(prev, k, i - 1, w);
      assert Occ(c, w, i) == Occ(c, w, i - 1) + [i - 1];
    } else if w in prev {
      FileAt(prev, k, i - 1, w);
      if |w| == key {
        assert Occ(c, w, i) == Occ(c, w, i - 1);
      }
    }
  }

  /** Moving on to the next window length keeps every entry. */
  lemma ValuesNext(c: string, lo: nat, key: nat, w: string)
    requires lo < key
    requires var n := WindowCount(c, key - 1);
             w in ScanMap(c, lo, key - 1, n) <==>
               (lo <= |w| < key - 1 && Occurrences(c, w) != []) || (|w| == key - 1 && Occ(c, w, n) != [])
    requires var n := WindowCount(c, key - 1);
             w in ScanMap(c, lo, key - 1, n) ==>
               ScanMap(c, lo, key - 1, n)[w] == if |w| == key - 1 then Occ(c, w, n) else Occurrences(c, w)
    ensures w in ScanMap(c, lo, key, 0) ==> |w| < key && ScanMap(c, lo, key, 0)[w] == Occurrences(c, w)
  {
    assert ScanMap(c, lo, key, 0) == ScanMap(c, lo, key - 1, WindowCount(c, key - 1));
  }

  /** The window-collection loops of `kasiski`: every window of every
      length lo <= key < hi is filed under its text with its position. The
      subtraction `len - key - 1` traps unless every key is below the
      length of the text. */
  method CollectWindows(c: string, lo: nat, hi: nat) returns (sets: map<string, seq<int>>)
    requires lo < hi ==> hi <= |c|
    ensures forall w :: w in sets <==> lo <= |w| < hi && Occurrences(c, w) != []
    ensures forall w :: w in sets ==> sets[w] == Occurrences(c, w)
  {
    sets := map[];
    var key := lo;
    while key < hi
      invariant key == lo || lo < key <= hi
      invariant sets == ScanMap(c, lo, key, 0)
    {
      sets := ScanLength(c, lo, key, sets);
      key := key + 1;
    }
    forall w ensures (w in sets <==> lo <= |w| < hi && Occurrences(c, w) != [])
      && (w in sets ==> sets[w] == Occurrences(c, w))
    {
      ScanComplete(c, lo, key, w);
    }
  }

  /** The inner loop of the window scan: files every scanned window of
      length `key` under its text. */
  method ScanLength(c: string, lo: nat, key: nat, sets: map<string, seq<int>>)
    returns (out: map<string, seq<int>>)
    requires lo <= key < |c| && sets == ScanMap(c, lo, key, 0)
    ensures out == ScanMap(c, lo, key + 1, 0)
  {
    out := sets;
    var i := 0;
    var count := |c| - key - 1;
    assert count == WindowCount(c, key);
    while i < count
      invariant 0 <= i <= count
      invariant out == ScanMap(c, lo, key, i)
    {
      var k := c[i..i + key];
      var entry := if k in out then out[k] else [];
      out := out[k := entry + [i]];
      i := i + 1;
    }
  }

  /** Once every length below `key` is scanned, the map holds exactly the
      occurring substrings of those lengths with all their positions. */
  lemma ScanComplete(c: string, lo: nat, key: nat, w: string)
    requires lo <= key
    ensures w in ScanMap(c, lo, key, 0) <==> lo <= |w| < key && Occurrences(c, w) != []
    ensures w in ScanMap(c, lo, key, 0) ==> ScanMap(c, lo, key, 0)[w] == Occurrences(c, w)
  {
    ScanMapKeys(c, lo, key, 0, w);
    ScanMapValues(c, lo, key, 0, w);
  }

  // ---------------------------------------------------------------------
  // Pairwise distances

  /** Distances from position v1 to every later position. */
  function Row(ps: seq<int>, v1: nat): (r: seq<int>)
    requires v1 < |ps|
    ensures |r| == |ps| - 1 - v1
  {
    seq(|ps| - 1 - v1, j requires 0 <= j < |ps| - 1 - v1 => ps[v1 + 1 + j] - ps[v1])
  }

  /** The rows of the first v1 positions, in order. */
  function PairsBefore(ps: seq<int>, v1: nat): seq<int>
    requires v1 <= |ps|
  {
    if v1 == 0 then [] else PairsBefore(ps, v1 - 1) + Row(ps, v1 - 1)
  }

  /** The distances the nested loops of `kasiski` push for one window. */
  function Pairs(ps: seq<int>): seq<int>
  {
    PairsBefore(ps, |ps|)
  }

  /** The first v1 rows hold v1 (2n - v1 - 1) / 2 distances, each positive
      when the positions increase. */
  lemma {:induction false} PairsBeforeFacts(ps: seq<int>, v1: nat)
    requires v1 <= |ps|
    ensures 2 * |PairsBefore(ps, v1)| == v1 * (2 * |ps| - v1 - 1)
    ensures StrictlyIncreasing(ps) ==> forall k :: 0 <= k < |PairsBefore(ps, v1)| ==> PairsBefore(ps, v1)[k] > 0
  {
    if v1 > 0 {
      PairsBeforeFacts(ps, v1 - 1);
      var n := |ps|;
      assert (v1 - 1) * (2 * n - v1) + 2 * (n - v1) == v1 * (2 * n - v1 - 1);
      var front := PairsBefore(ps, v1 - 1);
      var r := Row(ps, v1 - 1);
      if StrictlyIncreasing(ps) {
        forall k | 0 <= k < |front + r| ensures (front + r)[k] > 0 {
          if k >= |front| {
            assert (front + r)[k] == r[k - |front|] == ps[v1 + k - |front|] - ps[v1 - 1];
          }
        }
      }
    }
  }

  /** A window seen k times contributes k(k-1)/2 distances, all positive. */
  lemma PairsCount(ps: seq<int>)
    requires StrictlyIncreasing(ps)
    ensures 2 * |Pairs(ps)| == |ps| * (|ps| - 1)
    ensures forall k :: 0 <= k < |Pairs(ps)| ==> Pairs(ps)[k] > 0
  {
    PairsBeforeFacts(ps, |ps|);
  }

  /** The nested loops over one position list. The `usize` subtraction
      needs the later position to be the larger, which holds for the
      increasing lists the scan records. */
  method PairDistances(ps: seq<int>) returns (ds: seq<int>)
    requires StrictlyIncreasing(ps)
    ensures ds == Pairs(ps)
  {
    ds := [];
    var v1 := 0;
    while v1 < |ps|
      invariant 0 <= v1 <= |ps|
      invariant ds == PairsBefore(ps, v1)
    {
      ghost var row := Row(ps, v1);
      var v2 := v1 + 1;
      while v2 < |ps|
        invariant v1 + 1 <= v2 <= |ps|
        invariant ds == PairsBefore(ps, v1) + row[..v2 - v1 - 1]
      {
        assert row[..v2 - v1] == row[..v2 - v1 - 1] + [ps[v2] - ps[v1]];
        ds := ds + [ps[v2] - ps[v1]];
        v2 := v2 + 1;
      }
      assert row[..v2 - v1 - 1] == row;
      v1 := v1 + 1;
    }
  }

  /** The rewriting of every map entry from positions to distances. */
  method ToDistances(sets: map<string, seq<int>>) returns (out: map<string, seq<int>>)
    requires forall w :: w in sets ==> StrictlyIncreasing(sets[w])
    ensures out.Keys == sets.Keys
    ensures forall w :: w in out ==> out[w] == Pairs(sets[w])
  {
    out := sets;
    var todo := sets.Keys;
    while todo != {}
      invariant todo <= sets.Keys && out.Keys == sets.Keys
      invariant forall w :: w in out ==> out[w] == if w in todo then sets[w] else Pairs(sets[w])
      decreases |todo|
    {
      var w :| w in todo;
      var ds := PairDistances(out[w]);
      out := out[w := ds];
      todo := todo - {w};
    }
  }

  // ---------------------------------------------------------------------
  // Pooling the distances

  /** All values of the map together, as a bag. */
  ghost function BagOf(m: map<string, seq<int>>): multiset<int>
    decreases |m.Keys|
  {
    if m == map[] then multiset{}
    else
      var w :| w in m;
      assert |(m - {w}).Keys| < |m.Keys| by { assert m.Keys == (m - {w}).Keys + {w}; }
      multiset(m[w]) + BagOf(m - {w})
  }

  /** The bag does not depend on which entry is taken first. */
  lemma {:induction false} BagOfRemove(m: map<string, seq<int>>, w: string)
    requires w in m
    ensures BagOf(m) == multiset(m[w]) + BagOf(m - {w})
    decreases |m.Keys|
  {
    var v :| v in m && BagOf(m) == multiset(m[v]) + BagOf(m - {v});
    if v != w {
      assert m.Keys == (m - {v}).Keys + {v};
      assert m.Keys == (m - {w}).Keys + {w};
      var rest := m - {v} - {w};
      assert rest == m - {w} - {v};
      BagOfRemove(m - {v}, w);
      assert BagOf(m - {v}) == multiset(m[w]) + BagOf(rest);
      BagOfRemove(m - {w}, v);
      assert BagOf(m - {w}) == multiset(m[v]) + BagOf(rest);
    }
  }

  /** The entries of a map, restricted to the keys in s. */
  ghost function Restrict(m: map<string, seq<int>>, s: set<string>): map<string, seq<int>>
  {
    map w | w in m && w in s :: m[w]
  }

  /** Pushes every value of one entry, in order. */
  method PushAll(mults: seq<int>, val: seq<int>) returns (r: seq<int>)
    ensures r == mults + val
  {
    r := mults;
    var j := 0;
    while j < |val|
      invariant 0 <= j <= |val| && r == mults + val[..j]
    {
      assert val[..j + 1] == val[..j] + [val[j]];
      r := r + [val[j]];
      j := j + 1;
    }
    assert val[..j] == val;
  }

  /** The consolidation loop: every distance of every entry, in the map's
      iteration order, which is left open. */
  method Consolidate(sets: map<string, seq<int>>) returns (mults: seq<int>)
    ensures multiset(mults) == BagOf(sets)
  {
    mults := [];
    var todo := sets.Keys;
    assert Restrict(sets, todo) == sets;
    while todo != {}
      invariant todo <= sets.Keys
      invariant multiset(mults) + BagOf(Restrict(sets, todo)) == BagOf(sets)
      decreases |todo|
    {
      var w :| w in todo;
      BagOfRemove(Restrict(sets, todo), w);
      assert Restrict(sets, todo) - {w} == Restrict(sets, todo - {w});
      mults := PushAll(mults, sets[w]);
      todo := todo - {w};
    }
    assert Restrict(sets, {}) == map[];
  }

  // ---------------------------------------------------------------------
  // Scoring candidate lengths

  /** How many of the distances m divides. */
  function Hits(ds: seq<int>, m: nat): (r: nat)
    requires m > 0
    ensures r <= |ds|
  {
    if ds == [] then 0
    else Hits(ds[..|ds| - 1], m) + (if ds[|ds| - 1] % m == 0 then 1 else 0)
  }

  lemma {:induction false} HitsAppend(a: seq<int>, b: seq<int>, m: nat)
    requires m > 0
    ensures Hits(a + b, m) == Hits(a, m) + Hits(b, m)
    decreases |b|
  {
    if b == [] {
      assert a + b == a;
    } else {
      assert (a + b)[..|a + b| - 1] == a + b[..|b| - 1];
      HitsAppend(a, b[..|b| - 1], m);
    }
  }

  /** Taking out entry j removes one copy of it from the bag ... */
  lemma RemoveAtBag(t: seq<int>, j: nat)
    requires j < |t|
    ensures multiset(t[..j] + t[j + 1..]) == multiset(t) - multiset{t[j]}
  {
    assert t == t[..j] + [t[j]] + t[j + 1..];
  }

  /** ... and its share from the count. */
  lemma RemoveAtHits(t: seq<int>, j: nat, m: nat)
    requires j < |t| && m > 0
    ensures Hits(t, m) == Hits(t[..j] + t[j + 1..], m) + Hits([t[j]], m)
  {
    HitsAppend(t[..j], [t[j]] + t[j + 1..], m);
    HitsAppend([t[j]], t[j + 1..], m);
    HitsAppend(t[..j], t[j + 1..], m);
    assert t[..j] + ([t[j]] + t[j + 1..]) == t;
  }

  /** The count depends only on the bag of distances, not on their order. */
  lemma {:induction false} HitsPermutation(s: seq<int>, t: seq<int>, m: nat)
    requires m > 0 && multiset(s) == multiset(t)
    ensures Hits(s, m) == Hits(t, m)
    decreases |s|
  {
    if s == [] {
      assert |t| == |multiset(t)| == 0;
    } else {
      var x := s[|s| - 1];
      var s' := s[..|s| - 1];
      assert s == s' + [x];
      assert x in multiset(t);
      var j :| 0 <= j < |t| && t[j] == x;
      var t' := t[..j] + t[j + 1..];
      RemoveAtBag(t, j);
      assert multiset(s) == multiset(s') + multiset{x};
      assert multiset(s') == multiset(t');
      HitsPermutation(s', t', m);
      RemoveAtHits(t, j, m);
      HitsAppend(s', [x], m);
    }
  }

  /** `(x * 100) as f64 / total as f64` cast back to `usize`: the
      percentage, rounded down, and 0 when there are no distances (the cast
      turns the NaN of 0/0 into 0). The quotient of two integers this
      small is never rounded across an integer in `f64`, so the floor is
      exact. */
  function Percent(hits: nat, total: nat): (r: nat)
    ensures hits == 0 ==> r == 0
    ensures hits <= total ==> r <= 100
  {
    if total == 0 then 0 else (100 * hits) / total
  }

  /** The percentage is the floor of 100 * hits / total, and a share is at
      most 100 percent. */
  lemma PercentIsFloor(hits: nat, total: nat)
    requires total > 0
    ensures Percent(hits, total) * total <= 100 * hits < (Percent(hits, total) + 1) * total
    ensures hits <= total ==> Percent(hits, total) <= 100
  {
    var x := 100 * hits;
    var p := x / total;
    assert Percent(hits, total) == p;
    assert x == p * total + x % total;
    assert (p + 1) * total == p * total + total;
  }

  /** The arbitrary value of candidate length m: percent * percent * m. */
  function Score(ds: seq<int>, m: nat): nat
    requires m > 0
  {
    var p := Percent(Hits(ds, m), |ds|);
    p * p * m
  }

  /** best is what `kasiski` selects: 0 when no length in [lo, hi) scores
      above 0, otherwise the first length with the highest score. */
  predicate IsKasiskiChoice(ds: seq<int>, lo: nat, hi: nat, best: nat)
    requires lo < hi ==> 0 < lo
  {
    || (best == 0 && forall m :: lo <= m < hi ==> Score(ds, m) == 0)
    || (&& lo <= best < hi && Score(ds, best) > 0
        && (forall m :: lo <= m < hi ==> Score(ds, m) <= Score(ds, best))
        && (forall m :: lo <= m < best ==> Score(ds, m) < Score(ds, best)))
  }

  /** The selection is a function of the bag of distances. */
  lemma ChoiceIgnoresOrder(s: seq<int>, t: seq<int>, lo: nat, hi: nat, best: nat)
    requires lo < hi ==> 0 < lo
    requires multiset(s) == multiset(t)
    ensures IsKasiskiChoice(s, lo, hi, best) <==> IsKasiskiChoice(t, lo, hi, best)
  {
    assert |s| == |multiset(s)| == |multiset(t)| == |t|;
    forall m | lo <= m < hi ensures Score(s, m) == Score(t, m) {
      HitsPermutation(s, t, m);
    }
    if lo <= best < hi {
      HitsPermutation(s, t, best);
    }
  }

  /** The counting loop for one candidate length. */
  method CountHits(mults: seq<int>, m: nat) returns (x: nat)
    requires m > 0
    ensures x == Hits(mults, m)
  {
    x := 0;
    var i := 0;
    while i < |mults|
      invariant 0 <= i <= |mults| && x == Hits(mults[..i], m)
    {
      assert mults[..i + 1][..i] == mults[..i];
      if mults[i] % m == 0 {
        x := x + 1;
      }
      i := i + 1;
    }
    assert mults[..i] == mults;
  }

  /** The selection loop: a length replaces the best only with a strictly
      higher score, starting from best 0 and value 0. The remainder
      `v % m` traps for m = 0, so the lengths start at 1. */
  method SelectKeyLength(mults: seq<int>, lo: nat, hi: nat) returns (best: nat)
    requires lo < hi ==> 0 < lo
    ensures IsKasiskiChoice(mults, lo, hi, best)
  {
    var total := |mults|;
    best := 0;
    var bestValue := 0;
    var m := lo;
    while m < hi
      invariant m == lo || lo < m <= hi
      invariant || (best == 0 && bestValue == 0 && forall k :: lo <= k < m ==> Score(mults, k) == 0)
                || (&& lo <= best < m && bestValue == Score(mults, best) > 0
                    && (forall k :: lo <= k < m ==> Score(mults, k) <= bestValue)
                    && (forall k :: lo <= k < best ==> Score(mults, k) < bestValue))
    {
      var x := CountHits(mults, m);
      var p := if total == 0 then 0 else (x * 100) / total;
      assert p * p * m == Score(mults, m);
      if bestValue < p * p * m {
        bestValue := p * p * m;
        best := m;
      }
      m := m + 1;
    }
  }

  // ---------------------------------------------------------------------
  // The whole selection

  /** The positions of every window of a candidate length seen more than
      once. */
  ghost function RepeatedPositions(c: string, lo: nat, hi: nat): map<string, seq<int>>
  {
    map w | w in Substrings(c) && lo <= |w| < hi && |Occurrences(c, w)| > 1 :: Occurrences(c, w)
  }

  /** The distances the source pools, per repeated window of every
      candidate length, positions taken in order. */
  ghost function DistanceMap(c: string, lo: nat, hi: nat): map<string, seq<int>>
  {
    var rp := RepeatedPositions(c, lo, hi);
    map w | w in rp :: Pairs(rp[w])
  }

  /** Every pooled distance, as a bag. */
  ghost function DistanceBag(c: string, lo: nat, hi: nat): multiset<int>
  {
    BagOf(DistanceMap(c, lo, hi))
  }

  /** ds lists the bag b in some order. */
  ghost predicate Lists(ds: seq<int>, b: multiset<int>)
  {
    multiset(ds) == b
  }

  /** A window that occurs is a substring of the text. */
  lemma OccurringIsSubstring(c: string, w: string)
    requires Occurrences(c, w) != []
    ensures w in Substrings(c)
  {
    OccFacts(c, w, WindowCount(c, |w|));
    var p := Occurrences(c, w)[0];
    assert w == c[p..p + |w|];
  }

  /** Keeping the entries with more than one position (`retain`) leaves the
      repeated windows, each with increasing positions. */
  lemma RetainIsRepeated(c: string, lo: nat, hi: nat, sets: map<string, seq<int>>)
    requires forall w :: w in sets <==> lo <= |w| < hi && Occurrences(c, w) != []
    requires forall w :: w in sets ==> sets[w] == Occurrences(c, w)
    ensures (map w | w in sets && |sets[w]| > 1 :: sets[w]) == RepeatedPositions(c, lo, hi)
    ensures forall w :: w in RepeatedPositions(c, lo, hi) ==>
              StrictlyIncreasing(RepeatedPositions(c, lo, hi)[w])
  {
    var kept := map w | w in sets && |sets[w]| > 1 :: sets[w];
    var rp := RepeatedPositions(c, lo, hi);
    forall w | w in kept ensures w in rp {
      OccurringIsSubstring(c, w);
    }
    forall w | w in rp ensures StrictlyIncreasing(rp[w]) {
      OccFacts(c, w, WindowCount(c, |w|));
    }
    assert kept.Keys == rp.Keys;
  }

  /** The three map phases of `kasiski` give exactly the distance map. */
  method RepeatedWindowDistances(c: string, lo: nat, hi: nat) returns (sets: map<string, seq<int>>)
    requires lo < hi ==> hi <= |c|
    ensures sets == DistanceMap(c, lo, hi)
  {
    sets := CollectWindows(c, lo, hi);
    RetainIsRepeated(c, lo, hi, sets);
    sets := map w | w in sets && |sets[w]| > 1 :: sets[w];
    ghost var rp := RepeatedPositions(c, lo, hi);
    assert sets == rp;
    sets := ToDistances(sets);
    ghost var dm := DistanceMap(c, lo, hi);
    assert sets.Keys == dm.Keys;
    assert forall w :: w in sets ==> sets[w] == Pairs(rp[w]) == dm[w];
  }

  /** `kasiski`: the candidate length in [lo, hi) whose multiples take the
      largest share of the distances between repeated windows. Whatever
      order the map yields the distances in, the choice is the one the
      bag of distances determines. */
  method KasiskiKeyLength(c: string, lo: nat, hi: nat) returns (best: nat)
    requires lo < hi ==> 0 < lo && hi <= |c|
    ensures forall ds: seq<int> :: multiset(ds) == DistanceBag(c, lo, hi) ==> IsKasiskiChoice(ds, lo, hi, best)
    ensures exists ds: seq<int> :: Lists(ds, DistanceBag(c, lo, hi))
    ensures lo < hi ==> best == 0 || lo <= best < hi
  {
    var sets := RepeatedWindowDistances(c, lo, hi);
    var mults := Consolidate(sets);
    best := SelectKeyLength(mults, lo, hi);
    forall ds | multiset(ds) == DistanceBag(c, lo, hi) ensures IsKasiskiChoice(ds, lo, hi, best) {
      ChoiceIgnoresOrder(mults, ds, lo, hi, best);
    }
    assert Lists(mults, DistanceBag(c, lo, hi));
  }
}
