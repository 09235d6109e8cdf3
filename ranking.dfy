/** `rankSites`: score every candidate with the fixed weights 0.4 / 0.4 /
    0.2, then sort the scored records in place, highest score first, with
    a comparator that subtracts the first record's score from the second's,
    a record without a score counting as 0.
    `Array.prototype.sort` is stable; the model sorts by insertion, and
    `StableDescendingOrderIsUnique` shows that every stable sort by this
    comparator produces the same array. */
module Ranking {
  import opened Distance
  import opened Scoring

  /** The weights hard-wired in `rankSites`. */
  const DefaultWeights: Weights := Weights(0.4, 0.4, 0.2)

  /** The sort key `site.score || 0`: an absent score sorts as 0. */
  function Key(s: Site): real {
    s.score.GetOr(0.0)
  }

  /** On a scored record the fallback never applies: the sort key is the
      total score. */
  lemma KeyOfScored(t: Trig, site: Site, renewables: seq<RenewableSite>, demandCenters: seq<DemandCenter>,
                    zones: seq<RegulatoryZone>, w: Weights)
    ensures Key(Scored(t, site, renewables, demandCenters, zones, w)) == SiteScore(t, site, renewables, demandCenters, zones, w)
  {
  }

  /** The comparator: positive when `b` must come before `a`. */
  function Compare(a: Site, b: Site): (c: real)
    ensures c > 0.0 <==> Key(a) < Key(b)
  {
    Key(b) - Key(a)
  }

  /** Scores do not increase from front to back. */
  ghost predicate SortedDesc(s: seq<Site>) {
    forall i, j :: 0 <= i < j < |s| ==> Key(s[i]) >= Key(s[j])
  }

  /** The elements whose key is `k`, in their order in `s`. A sort is stable
      exactly when it leaves this subsequence unchanged for every key. */
  function WithKey(s: seq<Site>, k: real): (r: seq<Site>)
    ensures |r| <= |s|
  {
    if s == [] then []
    else WithKey(s[..|s| - 1], k) + (if Key(s[|s| - 1]) == k then [s[|s| - 1]] else [])
  }

  /** Insert `x` into a sequence sorted by descending key, after every
      element whose key is at least Key(x): the element moves left past
      strictly smaller keys only. */
  function InsertDesc(s: seq<Site>, x: Site): (r: seq<Site>)
    ensures |r| == |s| + 1
  {
    if s == [] then [x]
    else if Key(s[|s| - 1]) >= Key(x) then s + [x]
    else InsertDesc(s[..|s| - 1], x) + [s[|s| - 1]]
  }

  /** The stable descending sort, element by element from the front. */
  function SortDesc(s: seq<Site>): (r: seq<Site>)
    ensures |r| == |s|
  {
    if s == [] then [] else InsertDesc(SortDesc(s[..|s| - 1]), s[|s| - 1])
  }

  // ---------------------------------------------------------------------
  // Lemmas about the specification.

  lemma {:induction false} WithKeyAppend(a: seq<Site>, b: seq<Site>, k: real)
    ensures WithKey(a + b, k) == WithKey(a, k) + WithKey(b, k)
  {
    if b == [] {
      assert a + b == a;
    } else {
      assert (a + b)[..|a + b| - 1] == a + b[..|b| - 1];
      WithKeyAppend(a, b[..|b| - 1], k);
    }
  }

  /** Every element of `s` with key `k` shows up in WithKey(s, k). */
  lemma {:induction false} WithKeyContains(s: seq<Site>, i: nat)
    requires i < |s|
    ensures s[i] in WithKey(s, Key(s[i]))
  {
    if i < |s| - 1 {
      WithKeyContains(s[..|s| - 1], i);
    }
  }

  lemma {:induction false} InsertDescMultiset(s: seq<Site>, x: Site)
    ensures multiset(InsertDesc(s, x)) == multiset(s) + multiset{x}
  {
    if s == [] {
    } else if Key(s[|s| - 1]) >= Key(x) {
      assert InsertDesc(s, x) == s + [x];
    } else {
      var init, last := s[..|s| - 1], s[|s| - 1];
      calc {
        multiset(InsertDesc(s, x));
        multiset(InsertDesc(init, x) + [last]);
        multiset(InsertDesc(init, x)) + multiset{last};
        { InsertDescMultiset(init, x); }
        multiset(init) + multiset{x} + multiset{last};
        { assert s == init + [last]; }
        multiset(s) + multiset{x};
      }
    }
  }

  /** A lower bound on the keys of `s` and of `x` bounds the insertion. */
  lemma {:induction false} InsertDescLowerBound(s: seq<Site>, x: Site, m: real)
    requires forall i :: 0 <= i < |s| ==> Key(s[i]) >= m
    requires Key(x) >= m
    ensures forall i :: 0 <= i < |InsertDesc(s, x)| ==> Key(InsertDesc(s, x)[i]) >= m
  {
    if s != [] && Key(s[|s| - 1]) < Key(x) {
      InsertDescLowerBound(s[..|s| - 1], x, m);
    }
  }

  /** Appending an element no higher than all others keeps the order. */
  lemma SortedAppend(r: seq<Site>, y: Site)
    requires SortedDesc(r)
    requires forall i :: 0 <= i < |r| ==> Key(r[i]) >= Key(y)
    ensures SortedDesc(r + [y])
  {
  }

  lemma {:induction false} InsertDescSorted(s: seq<Site>, x: Site)
    requires SortedDesc(s)
    ensures SortedDesc(InsertDesc(s, x))
  {
    if s != [] && Key(s[|s| - 1]) < Key(x) {
      var init, last := s[..|s| - 1], s[|s| - 1];
      assert SortedDesc(init);
      InsertDescSorted(init, x);
      InsertDescLowerBound(init, x, Key(last));
      SortedAppend(InsertDesc(init, x), last);
    } else if s != [] {
      SortedAppend(s, x);
    }
  }

  lemma WithKeySingleton(y: Site, k: real)
    ensures WithKey([y], k) == if Key(y) == k then [y] else []
  {
    assert [y][..0] == [];
  }

  lemma {:induction false} InsertDescStable(s: seq<Site>, x: Site, k: real)
    ensures WithKey(InsertDesc(s, x), k) == WithKey(s, k) + WithKey([x], k)
  {
    if s == [] {
      WithKeySingleton(x, k);
    } else if Key(s[|s| - 1]) >= Key(x) {
      WithKeyAppend(s, [x], k);
    } else {
      var init, last := s[..|s| - 1], s[|s| - 1];
      var ins := InsertDesc(init, x);
      var wi, wx, wl := WithKey(init, k), WithKey([x], k), WithKey([last], k);
      calc {
        WithKey(InsertDesc(s, x), k);
        WithKey(ins + [last], k);
        { WithKeyAppend(ins, [last], k); }
        WithKey(ins, k) + wl;
        { InsertDescStable(init, x, k); }
        (wi + wx) + wl;
        { WithKeySingleton(x, k); WithKeySingleton(last, k); AppendEmptyCommutes(wi, wx, wl); }
        (wi + wl) + wx;
        { WithKeyAppend(init, [last], k); assert s == init + [last]; }
        WithKey(s, k) + wx;
      }
    }
  }

  /** Appending two sequences of which one is empty commutes. */
  lemma AppendEmptyCommutes(a: seq<Site>, b: seq<Site>, c: seq<Site>)
    requires b == [] || c == []
    ensures (a + b) + c == (a + c) + b
  {
    if b == [] {
      assert a + b == a;
    } else {
      assert a + c == a;
    }
  }

  /** The specification sort orders by descending score. */
  lemma {:induction false} SortDescSorted(s: seq<Site>)
    ensures SortedDesc(SortDesc(s))
  {
    if s != [] {
      SortDescSorted(s[..|s| - 1]);
      InsertDescSorted(SortDesc(s[..|s| - 1]), s[|s| - 1]);
    }
  }

  /** The specification sort is a permutation. */
  lemma {:induction false} SortDescPermutation(s: seq<Site>)
    ensures multiset(SortDesc(s)) == multiset(s)
  {
    if s != [] {
      var init, last := s[..|s| - 1], s[|s| - 1];
      calc {
        multiset(SortDesc(s));
        multiset(InsertDesc(SortDesc(init), last));
        { InsertDescMultiset(SortDesc(init), last); }
        multiset(SortDesc(init)) + multiset{last};
        { SortDescPermutation(init); }
        multiset(init) + multiset{last};
        { assert s == init + [last]; }
        multiset(s);
      }
    }
  }

  /** The specification sort is stable: sites with equal scores keep their
      relative input order. */
  lemma {:induction false} SortDescStable(s: seq<Site>, k: real)
    ensures WithKey(SortDesc(s), k) == WithKey(s, k)
  {
    if s != [] {
      var init, last := s[..|s| - 1], s[|s| - 1];
      SortDescStable(init, k);
      InsertDescStable(SortDesc(init), last, k);
      assert [last][..0] == [];
    }
  }

  /** Equal-key subsequences agree for every key. */
  ghost predicate SameKeyed(r: seq<Site>, q: seq<Site>) {
    forall k :: WithKey(r, k) == WithKey(q, k)
  }

  /** There is only one sorted order that keeps every equal-key subsequence:
      any stable sort by descending score yields the same sequence. */
  lemma {:induction false} StableDescendingOrderIsUnique(r: seq<Site>, q: seq<Site>)
    requires SortedDesc(r) && SortedDesc(q)
    requires SameKeyed(r, q)
    ensures r == q
  {
    SameKeyedBothEmpty(r, q);
    if r != [] {
      LastKeysAgree(r, q);
      var ri, qi := r[..|r| - 1], q[..|q| - 1];
      DropLastSameKeyed(r, q);
      SortedDropLast(r);
      SortedDropLast(q);
      StableDescendingOrderIsUnique(ri, qi);
      assert r == ri + [r[|r| - 1]];
      assert q == qi + [q[|q| - 1]];
    }
  }

  /** Same-keyed sequences are empty together. */
  lemma SameKeyedBothEmpty(r: seq<Site>, q: seq<Site>)
    requires SameKeyed(r, q)
    ensures r == [] <==> q == []
  {
    LastKeyPresent(r);
    LastKeyPresent(q);
    if r != [] {
      assert WithKey(q, Key(r[|r| - 1])) != [];
    }
    if q != [] {
      assert WithKey(r, Key(q[|q| - 1])) != [];
    }
  }

  /** Two non-empty sorted same-keyed sequences end in the same (least)
      key. */
  lemma LastKeysAgree(r: seq<Site>, q: seq<Site>)
    requires SortedDesc(r) && SortedDesc(q)
    requires SameKeyed(r, q)
    requires r != [] && q != []
    ensures Key(r[|r| - 1]) == Key(q[|q| - 1])
  {
    LastKeyPresent(r);
    LastKeyPresent(q);
    var kr, kq := Key(r[|r| - 1]), Key(q[|q| - 1]);
    assert WithKey(q, kr) == WithKey(r, kr);
    assert WithKey(r, kq) == WithKey(q, kq);
    LastKeyIsLeast(q, kr);
    LastKeyIsLeast(r, kq);
  }

  /** Dropping the last element keeps the order. */
  lemma SortedDropLast(s: seq<Site>)
    requires SortedDesc(s) && s != []
    ensures SortedDesc(s[..|s| - 1])
  {
    var init := s[..|s| - 1];
    forall i, j | 0 <= i < j < |init| ensures Key(init[i]) >= Key(init[j]) {
      assert init[i] == s[i] && init[j] == s[j];
    }
  }

  /** Two same-keyed sequences whose last elements share a key have the
      same last element, and stay same-keyed without it. */
  lemma DropLastSameKeyed(r: seq<Site>, q: seq<Site>)
    requires r != [] && q != [] && SameKeyed(r, q)
    requires Key(r[|r| - 1]) == Key(q[|q| - 1])
    ensures r[|r| - 1] == q[|q| - 1]
    ensures SameKeyed(r[..|r| - 1], q[..|q| - 1])
  {
    var kr := Key(r[|r| - 1]);
    var ri, qi := r[..|r| - 1], q[..|q| - 1];
    var wr, wq := WithKey(ri, kr), WithKey(qi, kr);
    assert WithKey(r, kr) == wr + [r[|r| - 1]];
    assert WithKey(q, kr) == wq + [q[|q| - 1]];
    assert |wr| == |wq|;
    assert (wr + [r[|r| - 1]])[|wr|] == r[|r| - 1];
    assert (wq + [q[|q| - 1]])[|wq|] == q[|q| - 1];
    assert (wr + [r[|r| - 1]])[..|wr|] == wr;
    assert (wq + [q[|q| - 1]])[..|wq|] == wq;
    forall k ensures WithKey(ri, k) == WithKey(qi, k) {
      assert WithKey(r, k) == WithKey(q, k);
      if k != kr {
        assert WithKey(r, k) == WithKey(ri, k);
        assert WithKey(q, k) == WithKey(qi, k);
      }
    }
  }

  /** The last element's key occurs in a non-empty sequence. */
  lemma LastKeyPresent(s: seq<Site>)
    ensures s != [] ==> WithKey(s, Key(s[|s| - 1])) != []
  {
    if s != [] {
      WithKeyContains(s, |s| - 1);
    }
  }

  /** In a sorted sequence, a key that occurs is at least the last key. */
  lemma LastKeyIsLeast(s: seq<Site>, k: real)
    requires SortedDesc(s) && s != []
    requires WithKey(s, k) != []
    ensures Key(s[|s| - 1]) <= k
  {
    var i := WithKeyIndex(s, k);
  }

  /** An element of WithKey(s, k) is an element of s. */
  lemma {:induction false} WithKeyIndex(s: seq<Site>, k: real) returns (i: nat)
    requires WithKey(s, k) != []
    ensures i < |s| && Key(s[i]) == k
  {
    var init := s[..|s| - 1];
    if Key(s[|s| - 1]) == k {
      i := |s| - 1;
    } else {
      assert WithKey(s, k) == WithKey(init, k);
      i := WithKeyIndex(init, k);
    }
  }

  // ---------------------------------------------------------------------
  // The in-place sort and the ranking entry point.

  /** `scoredSites.sort((a, b) => (b.score || 0) - (a.score || 0))`. */
  method SortByScoreDesc(a: array<Site>)
    modifies a
    ensures a[..] == SortDesc(old(a[..]))
  {
    ghost var input := a[..];
    var i := 0;
    while i < a.Length
      invariant 0 <= i <= a.Length
      invariant a[..i] == SortDesc(input[..i])
      invariant a[i..] == input[i..]
    {
      assert input[..i + 1][..i] == input[..i];
      assert SortDesc(input[..i + 1]) == InsertDesc(SortDesc(input[..i]), input[i]);
      assert a[i] == input[i];
      InsertLast(a, i);
      assert a[i + 1..] == input[i + 1..];
      i := i + 1;
    }
    assert input[..a.Length] == input;
  }

  /** Move a[i] left past the elements of the sorted prefix a[..i] that
      score strictly lower: one pass of the sort. */
  method InsertLast(a: array<Site>, i: nat)
    requires i < a.Length
    modifies a
    ensures a[..i + 1] == InsertDesc(old(a[..i]), old(a[i]))
    ensures a[i + 1..] == old(a[i + 1..])
  {
    ghost var sorted := a[..i];
    ghost var x := a[i];
    var j := SwapDown(a, i);
    InsertDescAt(sorted, x, j);
    ghost var expected := sorted[..j] + [x] + sorted[j..];
    forall m | 0 <= m <= i ensures a[..i + 1][m] == expected[m] {
      if m < j {
        assert expected[m] == sorted[m];
      } else if m > j {
        assert expected[m] == sorted[m - 1];
      }
    }
    assert a[..i + 1] == expected;
  }

  /** The swapping loop of one pass: a[i] travels down to position j,
      the elements it passes move up by one, and it stops below an
      element that scores at least as high. */
  method SwapDown(a: array<Site>, i: nat) returns (j: nat)
    requires i < a.Length
    modifies a
    ensures j <= i
    ensures forall m :: 0 <= m < j ==> a[m] == old(a[m])
    ensures a[j] == old(a[i])
    ensures forall m :: j < m <= i ==> a[m] == old(a[m - 1])
    ensures forall m :: j <= m < i ==> Key(old(a[m])) < Key(old(a[i]))
    ensures j == 0 || Key(old(a[j - 1])) >= Key(old(a[i]))
    ensures forall m :: i < m < a.Length ==> a[m] == old(a[m])
  {
    j := i;
    while j > 0 && Compare(a[j - 1], a[j]) > 0.0
      invariant 0 <= j <= i
      invariant forall m :: 0 <= m < j ==> a[m] == old(a[m])
      invariant a[j] == old(a[i])
      invariant forall m :: j < m <= i ==> a[m] == old(a[m - 1])
      invariant forall m :: j <= m < i ==> Key(old(a[m])) < Key(old(a[i]))
      invariant forall m :: i < m < a.Length ==> a[m] == old(a[m])
    {
      a[j - 1], a[j] := a[j], a[j - 1];
      j := j - 1;
    }
  }

  /** Insertion lands right after the last element that scores at least as
      high as `x`. */
  lemma {:induction false} InsertDescAt(s: seq<Site>, x: Site, j: nat)
    requires j <= |s|
    requires j == 0 || Key(s[j - 1]) >= Key(x)
    requires forall m :: j <= m < |s| ==> Key(s[m]) < Key(x)
    ensures InsertDesc(s, x) == s[..j] + [x] + s[j..]
  {
    if j == |s| {
      assert s[..j] == s && s[j..] == [];
    } else {
      var init, last := s[..|s| - 1], s[|s| - 1];
      assert Key(last) < Key(x);
      assert InsertDesc(s, x) == InsertDesc(init, x) + [last];
      InsertDescAt(init, x, j);
      assert init[..j] == s[..j];
      assert init[j..] + [last] == s[j..];
      assert InsertDesc(s, x) == (init[..j] + [x] + init[j..]) + [last];
    }
  }

  /** `candidateSites.map(site => scoreCandidateSite(site, ...))`. */
  function ScoreAll(t: Trig, candidateSites: seq<Site>, renewables: seq<RenewableSite>,
                    demandCenters: seq<DemandCenter>, zones: seq<RegulatoryZone>, w: Weights): (r: seq<Site>)
    ensures |r| == |candidateSites|
    ensures forall i :: 0 <= i < |r| ==> r[i] == Scored(t, candidateSites[i], renewables, demandCenters, zones, w)
  {
    if candidateSites == [] then []
    else [Scored(t, candidateSites[0], renewables, demandCenters, zones, w)]
         + ScoreAll(t, candidateSites[1..], renewables, demandCenters, zones, w)
  }

  /** `rankSites(candidateSites, renewables, demandCenters, regulatoryZones)`. */
  method RankSites(t: Trig, candidateSites: seq<Site>, renewables: seq<RenewableSite>,
                   demandCenters: seq<DemandCenter>, zones: seq<RegulatoryZone>) returns (ranked: seq<Site>)
    ensures ranked == SortDesc(ScoreAll(t, candidateSites, renewables, demandCenters, zones, DefaultWeights))
    ensures |ranked| == |candidateSites|
    ensures SortedDesc(ranked)
    ensures multiset(ranked) == multiset(ScoreAll(t, candidateSites, renewables, demandCenters, zones, DefaultWeights))
    ensures SameKeyed(ranked, ScoreAll(t, candidateSites, renewables, demandCenters, zones, DefaultWeights))
    ensures forall i :: 0 <= i < |ranked| ==> ranked[i].score.Some? && 0.0 <= Key(ranked[i]) <= 1.0
  {
    var weights := DefaultWeights;
    var scored := ScoreAll(t, candidateSites, renewables, demandCenters, zones, weights);
    ranked := SortedCopy(scored);
    RankedFacts(t, candidateSites, renewables, demandCenters, zones);
  }

  /** Copy the scored records into a fresh array, sort it in place and
      read it back. */
  method SortedCopy(scored: seq<Site>) returns (ranked: seq<Site>)
    ensures ranked == SortDesc(scored)
  {
    var scoredSites := new Site[|scored|](i requires 0 <= i < |scored| => scored[i]);
    assert scoredSites[..] == scored;
    SortByScoreDesc(scoredSites);
    ranked := scoredSites[..];
  }

  /** The promises of `rankSites`, stated of the sorted scored list. */
  lemma RankedFacts(t: Trig, candidateSites: seq<Site>, renewables: seq<RenewableSite>,
                    demandCenters: seq<DemandCenter>, zones: seq<RegulatoryZone>)
    ensures var all := ScoreAll(t, candidateSites, renewables, demandCenters, zones, DefaultWeights);
      && |SortDesc(all)| == |candidateSites|
      && SortedDesc(SortDesc(all))
      && multiset(SortDesc(all)) == multiset(all)
      && SameKeyed(SortDesc(all), all)
      && forall i :: 0 <= i < |SortDesc(all)| ==> SortDesc(all)[i].score.Some? && 0.0 <= Key(SortDesc(all)[i]) <= 1.0
  {
    var all := ScoreAll(t, candidateSites, renewables, demandCenters, zones, DefaultWeights);
    ScoreAllBounded(t, candidateSites, renewables, demandCenters, zones);
    SortedScoredFacts(all);
    assert |SortDesc(all)| == |multiset(all)|;
  }

  /** What the caller of `rankSites` relies on, for the sort of any list of
      scored records with scores in [0, 1]. */
  lemma SortedScoredFacts(all: seq<Site>)
    requires forall i :: 0 <= i < |all| ==> all[i].score.Some? && 0.0 <= Key(all[i]) <= 1.0
    ensures SortedDesc(SortDesc(all))
    ensures multiset(SortDesc(all)) == multiset(all)
    ensures SameKeyed(SortDesc(all), all)
    ensures forall i :: 0 <= i < |all| ==> SortDesc(all)[i].score.Some? && 0.0 <= Key(SortDesc(all)[i]) <= 1.0
  {
    SortDescSorted(all);
    SortDescPermutation(all);
    forall k ensures WithKey(SortDesc(all), k) == WithKey(all, k) {
      SortDescStable(all, k);
    }
    PermutationKeepsBounds(all, SortDesc(all));
  }

  /** Under the default weights every scored record has a score in [0, 1]. */
  lemma ScoreAllBounded(t: Trig, candidateSites: seq<Site>, renewables: seq<RenewableSite>,
                        demandCenters: seq<DemandCenter>, zones: seq<RegulatoryZone>)
    ensures forall i :: 0 <= i < |candidateSites| ==>
      ScoreAll(t, candidateSites, renewables, demandCenters, zones, DefaultWeights)[i].score.Some? &&
      0.0 <= Key(ScoreAll(t, candidateSites, renewables, demandCenters, zones, DefaultWeights)[i]) <= 1.0
  {
    forall i | 0 <= i < |candidateSites|
      ensures 0.0 <= SiteScore(t, candidateSites[i], renewables, demandCenters, zones, DefaultWeights) <= 1.0
    {
      SiteScoreBounded(t, candidateSites[i], renewables, demandCenters, zones, DefaultWeights);
    }
  }

  /** A property of every element, here "scored, within [0, 1]", survives
      any permutation. */
  lemma PermutationKeepsBounds(s: seq<Site>, r: seq<Site>)
    requires multiset(r) == multiset(s)
    requires forall i :: 0 <= i < |s| ==> s[i].score.Some? && 0.0 <= Key(s[i]) <= 1.0
    ensures forall i :: 0 <= i < |r| ==> r[i].score.Some? && 0.0 <= Key(r[i]) <= 1.0
  {
    forall i | 0 <= i < |r| ensures r[i].score.Some? && 0.0 <= Key(r[i]) <= 1.0 {
      assert r[i] in multiset(s);
      var j :| 0 <= j < |s| && s[j] == r[i];
    }
  }

  // ---------------------------------------------------------------------
  // The two-candidate scenario.

  /** A permitted zone drawn around the first candidate of the scenario. */
  function ScenarioZones(): seq<RegulatoryZone> {
    [RegulatoryZone(1, "Z", Permitted, ScenarioRing())]
  }

  function ScenarioRing(): Polygon.Ring {
    [Polygon.Vertex(28.6, 77.2), Polygon.Vertex(28.6, 77.3), Polygon.Vertex(28.65, 77.3), Polygon.Vertex(28.65, 77.2)]
  }

  /** An edge along a meridian is crossed exactly when it straddles the
      ray's latitude and lies east of the point. */
  lemma MeridianEdge(p: Polygon.Point, a: Polygon.Vertex, b: Polygon.Vertex)
    requires a.lon == b.lon && a.lat != b.lat
    ensures Polygon.EdgeCrosses(p, a, b) <==> Polygon.Straddles(p, a, b) && p.longitude < a.lon
  {
    assert Polygon.CrossingLon(p, a, b) == a.lon;
  }

  /** Of the four edges, only the one from (28.65, 77.3) back to
      (28.6, 77.3) passes east of (28.61, 77.22). */
  lemma ScenarioS1Edges(ring: Polygon.Ring, p: Polygon.Point)
    requires ring == ScenarioRing() && p == Polygon.Point(28.61, 77.22)
    ensures !Polygon.EdgeCrosses(p, ring[0], ring[3])
    ensures !Polygon.EdgeCrosses(p, ring[1], ring[0])
    ensures Polygon.EdgeCrosses(p, ring[2], ring[1])
    ensures !Polygon.EdgeCrosses(p, ring[3], ring[2])
  {
    MeridianEdge(p, ring[0], ring[3]);
    MeridianEdge(p, ring[2], ring[1]);
  }

  /** (28.61, 77.22) is inside the ring: one crossing. */
  lemma ScenarioRingContainsS1()
    ensures Polygon.Contains(Polygon.Point(28.61, 77.22), ScenarioRing())
  {
    var ring, p := ScenarioRing(), Polygon.Point(28.61, 77.22);
    ScenarioS1Edges(ring, p);
    assert Polygon.Crossings(p, ring, 1) == 0;
    assert Polygon.Crossings(p, ring, 2) == 0;
    assert Polygon.Crossings(p, ring, 3) == 1;
  }

  /** (28.70, 77.50) is north of the ring: no edge straddles its latitude. */
  lemma ScenarioRingExcludesS2()
    ensures !Polygon.Contains(Polygon.Point(28.70, 77.50), ScenarioRing())
  {
    var ring, p := ScenarioRing(), Polygon.Point(28.70, 77.50);
    assert Polygon.Crossings(p, ring, 1) == 0;
    assert Polygon.Crossings(p, ring, 2) == 0;
    assert Polygon.Crossings(p, ring, 3) == 0;
  }

  /** S1 = (28.61, 77.22) lies in the permitted zone; S2 = (28.70, 77.50)
      lies outside every zone. */
  lemma ScenarioZoning(s1: Site, s2: Site)
    requires s1.latitude == 28.61 && s1.longitude == 77.22
    requires s2.latitude == 28.70 && s2.longitude == 77.50
    ensures RegulatoryScore(s1, ScenarioZones()) == 1.0
    ensures RegulatoryScore(s2, ScenarioZones()) == 0.0
  {
    ScenarioRingContainsS1();
    ScenarioRingExcludesS2();
    assert SitePoint(s1) == Polygon.Point(28.61, 77.22);
    assert SitePoint(s2) == Polygon.Point(28.70, 77.50);
    FirstMatchWins(s1, ScenarioZones(), 0);
  }

  /** Two records already in descending order are left as they are. */
  lemma SortDescTwo(a: Site, b: Site)
    requires Key(a) >= Key(b)
    ensures SortDesc([a, b]) == [a, b]
  {
    assert [a, b][..1] == [a];
    assert [a][..0] == [];
  }

  /** The nearest of one reference is that reference. */
  lemma MinDistanceSingleton(t: Trig, site: Site, f: Facility)
    ensures MinDistanceKm(t, site, [f]) == Finite(SiteDistanceKm(t, site, f))
  {
    assert [f][1..] == [];
  }

  /** Under the default weights, a full regulatory point outweighs no
      loss on the other two sub-scores. */
  lemma DefaultCombineStrict(r1: real, d1: real, r2: real, d2: real)
    requires r1 >= r2 && d1 >= d2
    ensures Combine(DefaultWeights, r1, d1, 1.0) > Combine(DefaultWeights, r2, d2, 0.0)
  {
  }

  /** A candidate on top of the only renewable source, inside the permitted
      zone and at least as near the demand centre, outscores one outside
      the zone. The distances are not evaluated, so the demand-side
      comparison is a hypothesis. */
  lemma ScenarioScores(t: Trig, s1: Site, s2: Site, source: Facility, demandCenter: Facility)
    requires s1.latitude == 28.61 && s1.longitude == 77.22
    requires s2.latitude == 28.70 && s2.longitude == 77.50
    requires source.latitude == s1.latitude && source.longitude == s1.longitude
    requires SiteDistanceKm(t, s1, demandCenter) <= SiteDistanceKm(t, s2, demandCenter)
    ensures SiteScore(t, s1, [source], [demandCenter], ScenarioZones(), DefaultWeights)
          > SiteScore(t, s2, [source], [demandCenter], ScenarioZones(), DefaultWeights)
  {
    ScenarioZoning(s1, s2);
    CoincidentReferenceScoresOne(t, s1, [source], 0);
    RenewableScoreRange(t, s2, [source]);
    MinDistanceSingleton(t, s1, demandCenter);
    MinDistanceSingleton(t, s2, demandCenter);
    NearerScoresHigher(t, s1, s2, [demandCenter]);
    DefaultCombineStrict(RenewableScore(t, s1, [source]), DemandScore(t, s1, [demandCenter]),
                         RenewableScore(t, s2, [source]), DemandScore(t, s2, [demandCenter]));
  }

  /** ... and `rankSites` puts it first. */
  lemma ScenarioRanking(t: Trig, s1: Site, s2: Site, source: Facility, demandCenter: Facility)
    requires s1.latitude == 28.61 && s1.longitude == 77.22
    requires s2.latitude == 28.70 && s2.longitude == 77.50
    requires source.latitude == s1.latitude && source.longitude == s1.longitude
    requires SiteDistanceKm(t, s1, demandCenter) <= SiteDistanceKm(t, s2, demandCenter)
    ensures SortDesc(ScoreAll(t, [s1, s2], [source], [demandCenter], ScenarioZones(), DefaultWeights))
          == [Scored(t, s1, [source], [demandCenter], ScenarioZones(), DefaultWeights),
              Scored(t, s2, [source], [demandCenter], ScenarioZones(), DefaultWeights)]
  {
    ScenarioScores(t, s1, s2, source, demandCenter);
    var a := Scored(t, s1, [source], [demandCenter], ScenarioZones(), DefaultWeights);
    var b := Scored(t, s2, [source], [demandCenter], ScenarioZones(), DefaultWeights);
    var all := ScoreAll(t, [s1, s2], [source], [demandCenter], ScenarioZones(), DefaultWeights);
    assert |all| == 2 && all[0] == a && all[1] == b;
    assert all == [a, b];
    SortDescTwo(a, b);
  }
}
