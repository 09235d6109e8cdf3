/** The plant search of the map view: the filter predicate applied to the
    plant list whenever the search form is submitted, and the per-type
    count shown in the "Found N plants" panel. */
module PlantSearch {
  import opened Wrappers

  datatype Status = Operational | Planned | Construction

  /** `PlantLocation`; `kind` is the source's `type` field and
      `coordinates` its `[latitude, longitude]` pair. */
  datatype PlantLocation = PlantLocation(
    id: string, name: string, kind: string, state: string, city: string,
    coordinates: (real, real), capacity: string, status: Status)

  /** The search form's values. An empty field is the form's "not chosen";
      a field the caller leaves out is read as the empty string. `budget`
      and `population` are collected by the form but never filtered on. */
  datatype SearchFilters = SearchFilters(state: string, city: string, budget: string,
                                         population: string, plantType: string)

  // ---------------------------------------------------------------------
  // Case-insensitive substring search (`toLowerCase` / `includes`).

  /** Lower-case one character; only the ASCII letters are mapped, each
      to the letter of the same place in the lower-case alphabet. */
  function LowerChar(c: char): (r: char)
    ensures !('A' <= r <= 'Z')
    ensures 'A' <= c <= 'Z' ==> 'a' <= r <= 'z' && r as int - 'a' as int == c as int - 'A' as int
    ensures !('A' <= c <= 'Z') ==> r == c
  {
    if 'A' <= c <= 'Z' then (c as int + 32) as char else c
  }

  /** Two characters are equal, or are the upper- and lower-case forms of
      one ASCII letter. */
  ghost predicate SameIgnoringCase(a: char, b: char) {
    a == b
    || ('A' <= a <= 'Z' && b as int == a as int + ('a' as int - 'A' as int))
    || ('A' <= b <= 'Z' && a as int == b as int + ('a' as int - 'A' as int))
  }

  /** Two strings that differ at most in the case of ASCII letters. */
  ghost predicate EqualIgnoringCase(s: string, t: string) {
    |s| == |t| && forall i :: 0 <= i < |s| ==> SameIgnoringCase(s[i], t[i])
  }

  /** `s.toLowerCase()`, character by character: the result spells the
      same string up to case, no upper-case letter is left, and every other
      character keeps its place. */
  function Lower(s: string): (r: string)
    ensures |r| == |s|
    ensures EqualIgnoringCase(s, r)
    ensures forall i :: 0 <= i < |r| ==> !('A' <= r[i] <= 'Z')
    ensures forall i :: 0 <= i < |s| && !('A' <= s[i] <= 'Z') ==> r[i] == s[i]
  {
    seq(|s|, i requires 0 <= i < |s| => LowerChar(s[i]))
  }

  /** Two characters lower-case alike exactly when they agree up to case. */
  lemma LowerCharAgrees(a: char, b: char)
    ensures LowerChar(a) == LowerChar(b) <==> SameIgnoringCase(a, b)
  {
  }

  /** Two strings lower-case alike exactly when they agree up to case. */
  lemma LowerAgreesIffEqualIgnoringCase(s: string, t: string)
    ensures Lower(s) == Lower(t) <==> EqualIgnoringCase(s, t)
  {
    if |s| == |t| {
      forall i | 0 <= i < |s|
        ensures Lower(s)[i] == Lower(t)[i] <==> SameIgnoringCase(s[i], t[i])
      {
        LowerCharAgrees(s[i], t[i]);
      }
      if EqualIgnoringCase(s, t) {
        assert forall i :: 0 <= i < |s| ==> Lower(s)[i] == Lower(t)[i];
      }
    }
  }

  /** Lower-casing twice is lower-casing once. */
  lemma LowerIdempotent(s: string)
    ensures Lower(Lower(s)) == Lower(s)
  {
  }

  /** The city test is blind to case: replacing the plant's city or the
      searched city by any spelling that differs only in the case of its
      letters does not change whether the plant matches. */
  lemma CityMatchCaseBlind(f: SearchFilters, p: PlantLocation, searched: string, city: string)
    requires EqualIgnoringCase(f.city, searched) && EqualIgnoringCase(p.city, city)
    ensures CityMatches(f, p) <==> CityMatches(f.(city := searched), p.(city := city))
  {
    LowerAgreesIffEqualIgnoringCase(f.city, searched);
    LowerAgreesIffEqualIgnoringCase(p.city, city);
  }

  /** In particular, lower-casing the plant's city or the searched city
      beforehand does not change which plants match. */
  lemma CityMatchIgnoresCase(f: SearchFilters, p: PlantLocation)
    ensures CityMatches(f, p) <==> CityMatches(f.(city := Lower(f.city)), p.(city := Lower(p.city)))
  {
    LowerIdempotent(f.city);
    LowerIdempotent(p.city);
  }

  /** `needle` occurs in `haystack` starting at offset `i`. */
  predicate OccursAt(haystack: string, needle: string, i: nat) {
    i + |needle| <= |haystack| && haystack[i..i + |needle|] == needle
  }

  /** `haystack.includes(needle)`: the needle occurs at some offset. The
      empty needle occurs in every string, every string occurs in itself,
      and no needle longer than the haystack occurs in it. */
  predicate Includes(haystack: string, needle: string)
    ensures needle == [] ==> Includes(haystack, needle)
    ensures needle == haystack ==> Includes(haystack, needle)
    ensures Includes(haystack, needle) ==> |needle| <= |haystack|
  {
    assert needle == [] ==> OccursAt(haystack, needle, 0);
    assert needle == haystack ==> OccursAt(haystack, needle, 0);
    exists i: nat :: i <= |haystack| && OccursAt(haystack, needle, i)
  }

  // ---------------------------------------------------------------------
  // The filter predicate.

  /** The three criteria of the search, each satisfied by an empty field. */
  predicate StateMatches(f: SearchFilters, p: PlantLocation) {
    f.state == "" || p.state == f.state
  }

  predicate CityMatches(f: SearchFilters, p: PlantLocation) {
    f.city == "" || Includes(Lower(p.city), Lower(f.city))
  }

  predicate TypeMatches(f: SearchFilters, p: PlantLocation) {
    f.plantType == "" || p.kind == f.plantType
  }

  /** The callback given to `filter`, with its early returns: `null` or
      `undefined` filters (`None`) reject nothing. */
  function Keep(filters: Option<SearchFilters>, p: PlantLocation): (keep: bool)
    ensures filters.None? ==> keep
    ensures filters.Some? ==>
      (keep <==> StateMatches(filters.value, p) && CityMatches(filters.value, p) && TypeMatches(filters.value, p))
  {
    match filters
    case None => true
    case Some(f) =>
      if f.state != "" && p.state != f.state then false
      else if f.city != "" && !Includes(Lower(p.city), Lower(f.city)) then false
      else if f.plantType != "" && p.kind != f.plantType then false
      else true
  }

  /** `plants.filter(plant => Keep(searchFilters, plant))`. */
  function FilterPlants(filters: Option<SearchFilters>, plants: seq<PlantLocation>): (r: seq<PlantLocation>)
    ensures |r| <= |plants|
    ensures forall p :: p in r <==> p in plants && Keep(filters, p)
    ensures forall p :: multiset(r)[p] == if Keep(filters, p) then multiset(plants)[p] else 0
  {
    if plants == [] then []
    else
      var rest := FilterPlants(filters, plants[1..]);
      assert plants == [plants[0]] + plants[1..];
      if Keep(filters, plants[0]) then [plants[0]] + rest else rest
  }

  /** Strictly increasing positions into a list of length n. */
  ghost predicate Increasing(idx: seq<nat>, n: nat) {
    && (forall k :: 0 <= k < |idx| ==> idx[k] < n)
    && (forall k, m :: 0 <= k < m < |idx| ==> idx[k] < idx[m])
  }

  /** The positions `idx`, each moved one place right. */
  lemma ShiftPositions(idx: seq<nat>, n: nat) returns (shifted: seq<nat>)
    requires Increasing(idx, n)
    ensures Increasing(shifted, n + 1)
    ensures |shifted| == |idx|
    ensures forall k :: 0 <= k < |idx| ==> shifted[k] == idx[k] + 1
    ensures 0 !in shifted
    ensures forall i :: 1 <= i <= n ==> (i in shifted <==> i - 1 in idx)
  {
    shifted := seq(|idx|, k requires 0 <= k < |idx| => idx[k] + 1);
    forall i | 1 <= i <= n ensures i in shifted <==> i - 1 in idx {
      if i - 1 in idx {
        var k :| 0 <= k < |idx| && idx[k] == i - 1;
        assert shifted[k] == i;
      }
    }
  }

  /** Position 0 put in front of positions that are all at least 1. */
  lemma PrependFirst(shifted: seq<nat>, n: nat) returns (idx: seq<nat>)
    requires Increasing(shifted, n) && 0 !in shifted && n > 0
    ensures Increasing(idx, n)
    ensures |idx| == |shifted| + 1 && idx[0] == 0
    ensures forall k :: 0 <= k < |shifted| ==> idx[k + 1] == shifted[k]
    ensures forall i :: i in idx <==> i == 0 || i in shifted
  {
    idx := [0] + shifted;
    forall k, m | 0 <= k < m < |idx| ensures idx[k] < idx[m] {
      if k > 0 {
        assert idx[k] == shifted[k - 1] && idx[m] == shifted[m - 1];
      } else {
        assert idx[m] == shifted[m - 1] && idx[m] != 0;
      }
    }
  }

  /** What `idx` says about the filtered list: it is `plants` read at the
      increasing positions `idx`, which are the positions of the kept plants. */
  ghost predicate KeptPositions(filters: Option<SearchFilters>, plants: seq<PlantLocation>,
                                r: seq<PlantLocation>, idx: seq<nat>) {
    && Increasing(idx, |plants|)
    && |idx| == |r|
    && (forall k :: 0 <= k < |idx| ==> r[k] == plants[idx[k]])
    && (forall i :: 0 <= i < |plants| ==> (i in idx <==> Keep(filters, plants[i])))
  }

  /** The positions for the tail, shifted, serve the whole list when its
      head is rejected. */
  lemma ShiftedPositionsFit(filters: Option<SearchFilters>, plants: seq<PlantLocation>,
                            rest: seq<PlantLocation>, restIdx: seq<nat>) returns (shifted: seq<nat>)
    requires plants != []
    requires KeptPositions(filters, plants[1..], rest, restIdx)
    ensures Increasing(shifted, |plants|) && 0 !in shifted && |shifted| == |rest|
    ensures forall k :: 0 <= k < |shifted| ==> rest[k] == plants[shifted[k]]
    ensures forall i :: 1 <= i < |plants| ==> (i in shifted <==> Keep(filters, plants[i]))
  {
    var tail := plants[1..];
    shifted := ShiftPositions(restIdx, |tail|);
    forall k | 0 <= k < |shifted| ensures rest[k] == plants[shifted[k]] {
      assert rest[k] == tail[restIdx[k]];
    }
    forall i | 1 <= i < |plants| ensures i in shifted <==> Keep(filters, plants[i]) {
      assert plants[i] == tail[i - 1];
    }
  }

  /** The head is kept: position 0 comes first. */
  lemma KeptHeadPositions(filters: Option<SearchFilters>, plants: seq<PlantLocation>,
                          rest: seq<PlantLocation>, shifted: seq<nat>) returns (idx: seq<nat>)
    requires plants != [] && Keep(filters, plants[0])
    requires Increasing(shifted, |plants|) && 0 !in shifted && |shifted| == |rest|
    requires forall k :: 0 <= k < |shifted| ==> rest[k] == plants[shifted[k]]
    requires forall i :: 1 <= i < |plants| ==> (i in shifted <==> Keep(filters, plants[i]))
    ensures KeptPositions(filters, plants, [plants[0]] + rest, idx)
  {
    idx := PrependFirst(shifted, |plants|);
    var r := [plants[0]] + rest;
    forall k | 0 <= k < |idx| ensures r[k] == plants[idx[k]] {
      if k > 0 {
        assert r[k] == rest[k - 1];
      }
    }
  }

  /** The filtered list is the input list with the rejected plants taken
      out, order kept: it is the input read at increasing positions, and
      those positions are exactly the positions of the kept plants. */
  lemma {:induction false} FilterIsOrderedSubsequence(filters: Option<SearchFilters>, plants: seq<PlantLocation>)
    returns (idx: seq<nat>)
    ensures KeptPositions(filters, plants, FilterPlants(filters, plants), idx)
  {
    if plants == [] {
      idx := [];
    } else {
      var rest := FilterPlants(filters, plants[1..]);
      var restIdx := FilterIsOrderedSubsequence(filters, plants[1..]);
      var shifted := ShiftedPositionsFit(filters, plants, rest, restIdx);
      if Keep(filters, plants[0]) {
        idx := KeptHeadPositions(filters, plants, rest, shifted);
      } else {
        idx := shifted;
      }
    }
  }

  /** Without filters, or with every field empty, every plant is kept. */
  lemma {:induction false} NoCriteriaKeepsAll(filters: Option<SearchFilters>, plants: seq<PlantLocation>)
    requires filters.None? || (filters.value.state == "" && filters.value.city == "" && filters.value.plantType == "")
    ensures FilterPlants(filters, plants) == plants
  {
    if plants != [] {
      NoCriteriaKeepsAll(filters, plants[1..]);
      assert plants == [plants[0]] + plants[1..];
    }
  }

  /** `g` asks at least what `f` asks: every field set in `f` is set to the
      same value in `g` (budget and population play no part). */
  predicate Tightens(g: SearchFilters, f: SearchFilters) {
    && (f.state == "" || g.state == f.state)
    && (f.city == "" || g.city == f.city)
    && (f.plantType == "" || g.plantType == f.plantType)
  }

  /** A plant that passes a tighter search passes the looser one. */
  lemma KeepMonotone(g: SearchFilters, f: SearchFilters, p: PlantLocation)
    requires Tightens(g, f)
    requires Keep(Some(g), p)
    ensures Keep(Some(f), p)
  {
  }

  /** Adding criteria never enlarges the result: searching with the tighter
      filters is the same as searching the looser result again, so the
      tighter result is an ordered sub-list of the looser one. */
  lemma {:induction false} FilterMonotone(g: SearchFilters, f: SearchFilters, plants: seq<PlantLocation>)
    requires Tightens(g, f)
    ensures FilterPlants(Some(g), plants) == FilterPlants(Some(g), FilterPlants(Some(f), plants))
    ensures |FilterPlants(Some(g), plants)| <= |FilterPlants(Some(f), plants)|
  {
    if plants != [] {
      FilterMonotone(g, f, plants[1..]);
      var restF := FilterPlants(Some(f), plants[1..]);
      if Keep(Some(f), plants[0]) {
        assert FilterPlants(Some(f), plants) == [plants[0]] + restF;
        assert ([plants[0]] + restF)[1..] == restF;
      } else {
        if Keep(Some(g), plants[0]) {
          KeepMonotone(g, f, plants[0]);
        }
      }
    }
  }

  // ---------------------------------------------------------------------
  // The per-type count.

  /** Number of plants of type `t`. */
  function CountOfType(plants: seq<PlantLocation>, t: string): (c: nat)
    ensures c <= |plants|
    ensures c > 0 <==> exists i :: 0 <= i < |plants| && plants[i].kind == t
  {
    if plants == [] then 0
    else
      var init := plants[..|plants| - 1];
      var c := CountOfType(init, t);
      assert forall i :: 0 <= i < |init| ==> init[i] == plants[i];
      c + (if plants[|plants| - 1].kind == t then 1 else 0)
  }

  /** `acc` is the count dictionary of `plants`: its keys are the types
      that occur and each maps to its number of plants. */
  ghost predicate CountsOf(acc: map<string, nat>, plants: seq<PlantLocation>) {
    forall t :: (t in acc <==> CountOfType(plants, t) > 0) && (t in acc ==> acc[t] == CountOfType(plants, t))
  }

  /** One step of the `reduce`: counting one more plant. */
  lemma CountsOfStep(acc: map<string, nat>, plants: seq<PlantLocation>, k: nat)
    requires k < |plants| && CountsOf(acc, plants[..k])
    ensures CountsOf(acc[plants[k].kind := (if plants[k].kind in acc then acc[plants[k].kind] else 0) + 1],
                     plants[..k + 1])
  {
    var t := plants[k].kind;
    var acc' := acc[t := (if t in acc then acc[t] else 0) + 1];
    assert plants[..k + 1] == plants[..k] + [plants[k]];
    assert plants[..k + 1][..k] == plants[..k];
    forall u ensures (u in acc' <==> CountOfType(plants[..k + 1], u) > 0)
                  && (u in acc' ==> acc'[u] == CountOfType(plants[..k + 1], u))
    {
      assert CountOfType(plants[..k + 1], u) == CountOfType(plants[..k], u) + (if t == u then 1 else 0);
    }
  }

  /** The total of the values of a count dictionary. */
  ghost function Total(m: map<string, nat>): nat
    decreases |m|
  {
    if m == map[] then 0
    else
      var k := AnyKey(m);
      m[k] + Total(m - {k})
  }

  ghost function AnyKey(m: map<string, nat>): (k: string)
    requires m != map[]
    ensures k in m
  {
    var k :| k in m; k
  }

  /** Total does not depend on which key is taken out first. */
  lemma {:induction false} TotalRemove(m: map<string, nat>, k: string)
    requires k in m
    ensures Total(m) == m[k] + Total(m - {k})
    decreases |m|
  {
    var a := AnyKey(m);
    if a != k {
      TotalRemove(m - {a}, k);
      TotalRemove(m - {k}, a);
      assert (m - {a}) - {k} == (m - {k}) - {a};
    }
  }

  /** Adding one to key `t` (inserting it with 1 when absent) adds one to
      the total. */
  lemma TotalIncrement(m: map<string, nat>, t: string)
    ensures Total(m[t := if t in m then m[t] + 1 else 1]) == Total(m) + 1
  {
    var m' := m[t := if t in m then m[t] + 1 else 1];
    TotalRemove(m', t);
    if t in m {
      TotalRemove(m, t);
      assert m' - {t} == m - {t};
    } else {
      assert m' - {t} == m;
    }
  }

  /** The per-type tally of the filtered plants, built by folding over the
      list into an initially empty dictionary and adding one to the entry
      of each plant's type (an absent entry counts as zero): the keys are exactly the types that occur, each mapped to its number
      of plants, and the counts add up to the number of plants. */
  method CountByType(plants: seq<PlantLocation>) returns (acc: map<string, nat>)
    ensures forall t :: t in acc <==> exists i :: 0 <= i < |plants| && plants[i].kind == t
    ensures forall t :: t in acc ==> acc[t] == CountOfType(plants, t)
    ensures Total(acc) == |plants|
  {
    acc := map[];
    var k := 0;
    while k < |plants|
      invariant 0 <= k <= |plants|
      invariant CountsOf(acc, plants[..k])
      invariant Total(acc) == k
    {
      var t := plants[k].kind;
      CountsOfStep(acc, plants, k);
      TotalIncrement(acc, t);
      acc := acc[t := (if t in acc then acc[t] else 0) + 1];
      k := k + 1;
    }
    assert plants[..k] == plants;
  }
}
