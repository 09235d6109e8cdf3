/** Per-site suitability score (`scoreCandidateSite`): inverse-distance
    decay to the nearest renewable source and to the nearest demand centre,
    plus a regulatory sub-score decided by the first zone that contains the
    site, combined by a weighted sum. */
module Scoring {
  import opened Wrappers
  import opened Distance
  import opened Polygon

  /** A candidate site; `score` is absent until the site has been scored. */
  datatype Site = Site(id: int, name: string, latitude: real, longitude: real, score: Option<real>)

  /** A renewable source or a demand centre (the two record types of the
      source have the same fields). */
  datatype Facility = Facility(id: int, name: string, latitude: real, longitude: real)

  type RenewableSite = Facility
  type DemandCenter = Facility

  /** A regulatory zone; `kind` is the source's `type` field. */
  datatype RegulatoryZone = RegulatoryZone(id: int, name: string, kind: string, coordinates: Ring)

  datatype Weights = Weights(renewable: real, demand: real, regulatory: real)

  /** The only zone type that scores 1. */
  const Permitted: string := "permitted"

  /** The value of `Math.min(...xs)`: the least element, or `Infinity` for
      an empty argument list. */
  datatype ExtReal = Finite(value: real) | PosInf

  /** The site as the point that `isInsidePolygon` receives. */
  function SitePoint(site: Site): Point {
    Point(site.latitude, site.longitude)
  }

  function SiteDistanceKm(t: Trig, site: Site, f: Facility): real {
    DistanceKm(t, site.latitude, site.longitude, f.latitude, f.longitude)
  }

  /** `Math.min(...refs.map(r => getDistanceKm(site, r)))`. */
  function MinDistanceKm(t: Trig, site: Site, refs: seq<Facility>): (m: ExtReal)
    ensures m.PosInf? <==> |refs| == 0
    ensures m.Finite? ==> m.value >= 0.0
    ensures m.Finite? ==> forall k :: 0 <= k < |refs| ==> m.value <= SiteDistanceKm(t, site, refs[k])
    ensures m.Finite? ==> exists k :: 0 <= k < |refs| && m.value == SiteDistanceKm(t, site, refs[k])
  {
    if |refs| == 0 then PosInf
    else
      var d := SiteDistanceKm(t, site, refs[0]);
      var tail := refs[1..];
      var rest := MinDistanceKm(t, site, tail);
      assert forall k :: 1 <= k < |refs| ==> refs[k] == tail[k - 1];
      if rest.PosInf? || d <= rest.value then
        Finite(d)
      else
        var k :| 0 <= k < |tail| && rest.value == SiteDistanceKm(t, site, tail[k]);
        assert refs[k + 1] == tail[k];
        rest
  }

  /** `1 / (1 + d)`, where `1 / (1 + Infinity)` is 0. */
  function Decay(m: ExtReal): (s: real)
    requires m.Finite? ==> m.value >= 0.0
    ensures m.PosInf? ==> s == 0.0
    ensures m.Finite? ==> 0.0 < s <= 1.0
    ensures m.Finite? ==> (s == 1.0 <==> m.value == 0.0)
  {
    match m
    case PosInf => 0.0
    case Finite(d) =>
      assert 1.0 / (1.0 + d) * (1.0 + d) == 1.0;
      1.0 / (1.0 + d)
  }

  /** The decay is antitone: a nearer reference never scores lower. */
  lemma DecayAntitone(d1: real, d2: real)
    requires 0.0 <= d1 <= d2
    ensures Decay(Finite(d1)) >= Decay(Finite(d2))
  {
    var s1, s2 := Decay(Finite(d1)), Decay(Finite(d2));
    assert s1 * (1.0 + d1) == 1.0;
    assert s2 * (1.0 + d2) == 1.0;
    assert s2 * (1.0 + d1) <= s2 * (1.0 + d2);
    assert s2 * (1.0 + d1) <= s1 * (1.0 + d1);
  }

  function RenewableScore(t: Trig, site: Site, renewables: seq<RenewableSite>): real {
    Decay(MinDistanceKm(t, site, renewables))
  }

  function DemandScore(t: Trig, site: Site, demandCenters: seq<DemandCenter>): real {
    Decay(MinDistanceKm(t, site, demandCenters))
  }

  /** Index of the first zone, in list order, whose ring contains the site. */
  function FirstContainingZone(site: Site, zones: seq<RegulatoryZone>): (r: Option<nat>)
    ensures r.Some? ==> r.value < |zones| && Contains(SitePoint(site), zones[r.value].coordinates)
    ensures r.Some? ==> forall j :: 0 <= j < r.value ==> !Contains(SitePoint(site), zones[j].coordinates)
    ensures r.None? ==> forall j :: 0 <= j < |zones| ==> !Contains(SitePoint(site), zones[j].coordinates)
  {
    if |zones| == 0 then None
    else if Contains(SitePoint(site), zones[0].coordinates) then Some(0)
    else
      match FirstContainingZone(site, zones[1..])
      case None => None
      case Some(k) => Some(k + 1)
  }

  /** The regulatory sub-score: 1 if the first containing zone is
      "permitted", 0 if it has any other type or no zone contains the site. */
  function RegulatoryScore(site: Site, zones: seq<RegulatoryZone>): (r: real)
    ensures r == 0.0 || r == 1.0
  {
    match FirstContainingZone(site, zones)
    case None => 0.0
    case Some(k) => if zones[k].kind == Permitted then 1.0 else 0.0
  }

  /** The zone loop of `scoreCandidateSite`: scan in order, stop at the
      first zone that contains the site. */
  method ScanZones(site: Site, zones: seq<RegulatoryZone>) returns (regulatoryScore: real)
    ensures regulatoryScore == RegulatoryScore(site, zones)
  {
    regulatoryScore := 0.0;
    var k := 0;
    while k < |zones|
      invariant 0 <= k <= |zones|
      invariant forall j :: 0 <= j < k ==> !Contains(SitePoint(site), zones[j].coordinates)
    {
      var inside := IsInsidePolygon(SitePoint(site), zones[k].coordinates);
      if inside {
        regulatoryScore := if zones[k].kind == Permitted then 1.0 else 0.0;
        assert FirstContainingZone(site, zones) == Some(k);
        return;
      }
      k := k + 1;
    }
  }

  /** The weighted sum of the three sub-scores. */
  function Combine(w: Weights, renewableScore: real, demandScore: real, regulatoryScore: real): real {
    w.renewable * renewableScore + w.demand * demandScore + w.regulatory * regulatoryScore
  }

  /** `totalScore` of `scoreCandidateSite`. */
  function SiteScore(t: Trig, site: Site, renewables: seq<RenewableSite>, demandCenters: seq<DemandCenter>,
                     zones: seq<RegulatoryZone>, w: Weights): (s: real)
    ensures NonNegative(w) ==> 0.0 <= s <= w.renewable + w.demand + w.regulatory
  {
    var r, d, g := RenewableScore(t, site, renewables), DemandScore(t, site, demandCenters), RegulatoryScore(site, zones);
    RenewableScoreRange(t, site, renewables);
    DemandScoreRange(t, site, demandCenters);
    if NonNegative(w) then CombineBounded(w, r, d, g); Combine(w, r, d, g) else Combine(w, r, d, g)
  }

  /** The site record with `score` set to the total score (`{ ...site, score }`). */
  function Scored(t: Trig, site: Site, renewables: seq<RenewableSite>, demandCenters: seq<DemandCenter>,
                  zones: seq<RegulatoryZone>, w: Weights): (r: Site)
    ensures r.(score := site.score) == site
    ensures r.score.Some?
    ensures NonNegative(w) ==> 0.0 <= r.score.value <= w.renewable + w.demand + w.regulatory
  {
    site.(score := Some(SiteScore(t, site, renewables, demandCenters, zones, w)))
  }

  /** `scoreCandidateSite(site, renewables, demandCenters, regulatoryZones, weights)`:
      a copy of the site that differs from it only in its score. */
  method ScoreCandidateSite(t: Trig, site: Site, renewables: seq<RenewableSite>, demandCenters: seq<DemandCenter>,
                            zones: seq<RegulatoryZone>, w: Weights) returns (scored: Site)
    ensures scored == Scored(t, site, renewables, demandCenters, zones, w)
  {
    var minRenewableDistance := MinDistanceKm(t, site, renewables);
    var renewableScore := Decay(minRenewableDistance);
    var minDemandDistance := MinDistanceKm(t, site, demandCenters);
    var demandScore := Decay(minDemandDistance);
    var regulatoryScore := ScanZones(site, zones);
    assert renewableScore == RenewableScore(t, site, renewables);
    assert demandScore == DemandScore(t, site, demandCenters);
    var totalScore := Combine(w, renewableScore, demandScore, regulatoryScore);
    scored := site.(score := Some(totalScore));
  }

  // ---------------------------------------------------------------------
  // Properties of the sub-scores and of the total.

  /** Scoring changes nothing but the score, and the score is always set. */
  lemma ScoredChangesOnlyScore(t: Trig, site: Site, renewables: seq<RenewableSite>, demandCenters: seq<DemandCenter>,
                               zones: seq<RegulatoryZone>, w: Weights)
    ensures var r := Scored(t, site, renewables, demandCenters, zones, w);
      && r.id == site.id && r.name == site.name
      && r.latitude == site.latitude && r.longitude == site.longitude
      && r.score == Some(SiteScore(t, site, renewables, demandCenters, zones, w))
  {
  }

  /** With at least one reference, a decay sub-score lies in (0, 1]; with
      none it is 0 (the source's `1 / (1 + Infinity)`). */
  lemma RenewableScoreRange(t: Trig, site: Site, renewables: seq<RenewableSite>)
    ensures |renewables| > 0 ==> 0.0 < RenewableScore(t, site, renewables) <= 1.0
    ensures |renewables| == 0 ==> RenewableScore(t, site, renewables) == 0.0
  {
  }

  lemma DemandScoreRange(t: Trig, site: Site, demandCenters: seq<DemandCenter>)
    ensures |demandCenters| > 0 ==> 0.0 < DemandScore(t, site, demandCenters) <= 1.0
    ensures |demandCenters| == 0 ==> DemandScore(t, site, demandCenters) == 0.0
  {
  }

  /** A reference at the site's own coordinates is at distance 0, so the
      sub-score is exactly 1. */
  lemma CoincidentReferenceScoresOne(t: Trig, site: Site, refs: seq<Facility>, k: nat)
    requires k < |refs|
    requires refs[k].latitude == site.latitude && refs[k].longitude == site.longitude
    ensures Decay(MinDistanceKm(t, site, refs)) == 1.0
  {
    DistanceToSelfIsZero(t, site.latitude, site.longitude);
    assert SiteDistanceKm(t, site, refs[k]) == 0.0;
  }

  /** Conversely, a sub-score of exactly 1 means some reference is at
      distance 0. */
  lemma ScoreOneMeansZeroDistance(t: Trig, site: Site, refs: seq<Facility>)
    requires Decay(MinDistanceKm(t, site, refs)) == 1.0
    ensures exists k :: 0 <= k < |refs| && SiteDistanceKm(t, site, refs[k]) == 0.0
  {
  }

  /** A site nearer to its nearest reference never gets a lower sub-score. */
  lemma NearerScoresHigher(t: Trig, s1: Site, s2: Site, refs: seq<Facility>)
    ensures |refs| > 0 && MinDistanceKm(t, s1, refs).value <= MinDistanceKm(t, s2, refs).value ==>
      Decay(MinDistanceKm(t, s1, refs)) >= Decay(MinDistanceKm(t, s2, refs))
  {
    if |refs| > 0 && MinDistanceKm(t, s1, refs).value <= MinDistanceKm(t, s2, refs).value {
      DecayAntitone(MinDistanceKm(t, s1, refs).value, MinDistanceKm(t, s2, refs).value);
    }
  }

  /** The regulatory sub-score is 0 or 1, and it is 1 exactly when some
      zone contains the site, is "permitted", and no earlier zone contains
      the site. */
  lemma RegulatoryScoreCharacterised(site: Site, zones: seq<RegulatoryZone>)
    ensures RegulatoryScore(site, zones) == 0.0 || RegulatoryScore(site, zones) == 1.0
    ensures RegulatoryScore(site, zones) == 1.0 <==>
      exists k :: 0 <= k < |zones| && Contains(SitePoint(site), zones[k].coordinates)
        && zones[k].kind == Permitted
        && forall j :: 0 <= j < k ==> !Contains(SitePoint(site), zones[j].coordinates)
  {
    var r := FirstContainingZone(site, zones);
    if r.Some? && zones[r.value].kind == Permitted {
      assert RegulatoryScore(site, zones) == 1.0;
    } else {
      forall k | 0 <= k < |zones| && Contains(SitePoint(site), zones[k].coordinates)
        && forall j :: 0 <= j < k ==> !Contains(SitePoint(site), zones[j].coordinates)
        ensures zones[k].kind != Permitted
      {
        assert r == Some(k);
      }
    }
  }

  /** First match wins: the first containing zone decides, whatever the
      zones after it say. */
  lemma FirstMatchWins(site: Site, zones: seq<RegulatoryZone>, k: nat)
    requires k < |zones| && Contains(SitePoint(site), zones[k].coordinates)
    requires forall j :: 0 <= j < k ==> !Contains(SitePoint(site), zones[j].coordinates)
    ensures RegulatoryScore(site, zones) == if zones[k].kind == Permitted then 1.0 else 0.0
  {
    assert FirstContainingZone(site, zones) == Some(k);
  }

  /** Zones appended after one that contains the site are never consulted. */
  lemma LaterZonesIgnored(site: Site, zones: seq<RegulatoryZone>, later: seq<RegulatoryZone>)
    requires exists j :: 0 <= j < |zones| && Contains(SitePoint(site), zones[j].coordinates)
    ensures RegulatoryScore(site, zones + later) == RegulatoryScore(site, zones)
  {
    var k := FirstContainingZone(site, zones).value;
    assert (zones + later)[k] == zones[k];
    FirstMatchWins(site, zones + later, k);
  }

  /** With no zone containing the site the regulatory sub-score is 0, the
      same as under a restrictive zone. */
  lemma UnzonedScoresZero(site: Site, zones: seq<RegulatoryZone>)
    requires forall j :: 0 <= j < |zones| ==> !Contains(SitePoint(site), zones[j].coordinates)
    ensures RegulatoryScore(site, zones) == 0.0
  {
  }

  /** Two overlapping zones listed "restricted" then "permitted": the site at
      (1,1), inside both, scores 0 on the regulatory dimension. */
  lemma ZonePriorityExample(site: Site)
    requires site.latitude == 1.0 && site.longitude == 1.0
    ensures RegulatoryScore(site,
      [RegulatoryZone(1, "A", "restricted", UnitTestSquare()),
       RegulatoryZone(2, "B", Permitted, UnitTestSquare())]) == 0.0
  {
    SquareContainsInterior(SitePoint(site));
    var zones := [RegulatoryZone(1, "A", "restricted", UnitTestSquare()),
                  RegulatoryZone(2, "B", Permitted, UnitTestSquare())];
    FirstMatchWins(site, zones, 0);
  }

  predicate NonNegative(w: Weights) {
    w.renewable >= 0.0 && w.demand >= 0.0 && w.regulatory >= 0.0
  }

  /** Weights that are non-negative and sum to 1 keep the total in [0, 1]. */
  lemma SiteScoreBounded(t: Trig, site: Site, renewables: seq<RenewableSite>, demandCenters: seq<DemandCenter>,
                         zones: seq<RegulatoryZone>, w: Weights)
    requires NonNegative(w) && w.renewable + w.demand + w.regulatory == 1.0
    ensures 0.0 <= SiteScore(t, site, renewables, demandCenters, zones, w) <= 1.0
  {
  }

  /** The weighted sum of three scores in [0, 1], under non-negative
      weights, lies between 0 and the sum of the weights. */
  lemma CombineBounded(w: Weights, r: real, d: real, g: real)
    requires NonNegative(w)
    requires 0.0 <= r <= 1.0 && 0.0 <= d <= 1.0 && 0.0 <= g <= 1.0
    ensures 0.0 <= Combine(w, r, d, g) <= w.renewable + w.demand + w.regulatory
  {
    var a := WeightedBound(w.renewable, r);
    var b := WeightedBound(w.demand, d);
    var c := WeightedBound(w.regulatory, g);
    SumOfBounded(a, b, c, w.renewable, w.demand, w.regulatory);
  }

  lemma SumOfBounded(a: real, b: real, c: real, wa: real, wb: real, wc: real)
    requires 0.0 <= a <= wa && 0.0 <= b <= wb && 0.0 <= c <= wc
    ensures 0.0 <= a + b + c <= wa + wb + wc
  {
  }

  /** A weight times a score in [0, 1] lies between 0 and the weight. */
  lemma WeightedBound(w: real, x: real) returns (p: real)
    requires w >= 0.0 && 0.0 <= x <= 1.0
    ensures p == w * x
    ensures 0.0 <= p <= w
  {
    p := w * x;
    assert w * x <= w * 1.0;
  }
}
