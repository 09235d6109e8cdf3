# Hydrogen site suitability: a Dafny model of the scoring engine

The application shows candidate sites for hydrogen infrastructure on a map
and ranks them by suitability. This project models the part of it that
computes, in three pieces:

* **The scoring and ranking engine** (`premal/components/ScoreCalculator.ts`):
  * haversine distance (`getDistanceKm`);
  * even-odd ray-casting containment (`isInsidePolygon`);
  * the per-site weighted score (`scoreCandidateSite`);
  * the ranking (`rankSites`), which scores every candidate with weights
    0.4 / 0.4 / 0.2 and sorts the array in place by descending score.
* **The plant search of the map page** (`src/components/MapContainer.tsx`):
  * the filter predicate applied to the plant list;
  * the per-type count shown in the results panel.
* **The layer switch of the map page** (`src/pages/Map.tsx`): `toggleLayer`.

## Modules

| file | module | what it holds |
|---|---|---|
| `wrappers.dfy` | `Wrappers` | `Option`, the model of `undefined`/`null` and of optional fields |
| `distance.dfy` | `Distance` | `DistanceKm` over `real`, with the trigonometric functions as a parameter `t: Trig` |
| `polygon.dfy` | `Polygon` | `IsInsidePolygon` (the loop) and `Crossings` / `Contains` (its specification) |
| `scoring.dfy` | `Scoring` | record types, the three sub-scores, `ScanZones`, `ScoreCandidateSite` |
| `ranking.dfy` | `Ranking` | the comparator, the in-place stable sort on an `array<Site>`, `RankSites` |
| `plants.dfy` | `PlantSearch` | the search filter and the `reduce` count (a loop over a `map`) |
| `layers.dfy` | `Layers` | `ToggleLayer` over a list of `LayerState` records |

### How the source is represented

* **Numbers.** TypeScript `number` is modelled as `real`, so the arithmetic is
  exact. `Math.sin`, `Math.cos`, `Math.sqrt` and `Math.atan2` are the fields
  of a `Trig` record. A `Trig` must obey a handful of laws that the
  mathematical functions satisfy: sin 0 = 0, sqrt ≥ 0, sqrt 0 = 0,
  sqrt 1 = 1, atan2(0, 1) = 0, and atan2(y, x) ≥ 0 when y ≥ 0.
* **Empty reference lists.** `Math.min()` over an empty list is `Infinity`.
  It is modelled as `ExtReal.PosInf`, and `1 / (1 + Infinity)` as the
  sub-score 0.
* **Optional score.** The optional `score` is an `Option<real>`. The sort key
  `score || 0` is `Key`.
* **Search filters.** A null or undefined `searchFilters` is `None`. A filter
  field the caller leaves out is the empty string. Both reject nothing, as in
  the source.

### Edge cases the code handles without reporting an error

* **Empty reference set.** `scoreCandidateSite` raises no error when there is
  no renewable source or no demand centre: `Math.min()` of nothing is
  `Infinity` and the sub-score silently becomes 0. The model does the same;
  `RenewableScoreRange` and `DemandScoreRange` state it.
* **Degenerate polygons.** `isInsidePolygon` accepts a ring of any length
  and never reports it as malformed; in exact arithmetic a ring with fewer
  than three vertices contains no point (`DegenerateRingCrossesEvenly`,
  `Contains`). With floating-point rounding this can fail; see "Floating
  point" under "## Left out".
  Coordinates are not validated either, and neither does the model.
* **Weights.** The weights are hard-wired in `rankSites`
  (`DefaultWeights`); only `scoreCandidateSite` takes them as a parameter.
  `rankSites` has no per-candidate failure path, so the model has none.

## Model

| member | source | states |
|---|---|---|
| `Distance.DistanceKm` | premal/components/ScoreCalculator.ts:43-54 | the haversine distance R·2·atan2(√a, √(1−a)) with R = 6371 km is never negative |
| `Distance.HaversineTerm` | premal/components/ScoreCalculator.ts:47-51 | the haversine term `a` is 0 when the two points coincide |
| `Distance.HaversineTermSymmetric` | premal/components/ScoreCalculator.ts:47-51 | swapping the two points leaves `a` unchanged (for any odd sine) |
| `Distance.DistanceToSelfIsZero` | premal/components/ScoreCalculator.ts:43-54 | the distance from a point to itself is exactly 0 |
| `Distance.DistanceSymmetric` | premal/components/ScoreCalculator.ts:43-54 | swapping the two points gives the same distance (for any odd sine) |
| `Polygon.PrevIsBijection` | premal/components/ScoreCalculator.ts:60 | the pairing of `i` with `j` is one-to-one and onto: as `i` runs over the ring every vertex is the far end `j` of exactly one tested edge |
| `Polygon.EdgeCrosses` | premal/components/ScoreCalculator.ts:63 | an edge counts as crossed only if it is not horizontal, so the division never divides by zero, and only if one of its ends lies east of the point |
| `Polygon.CrossingOnSegment` | premal/components/ScoreCalculator.ts:63 | where the edge straddles the ray, the computed crossing longitude lies between the longitudes of the edge's two ends |
| `Polygon.Crossings` | premal/components/ScoreCalculator.ts:59-66 | the number of crossed edges among the first k (edge i joins vertex i to vertex i−1, wrapping); its parity is what `IsInsidePolygon` computes, and the only bound stated on it is the plain one, at most k |
| `Polygon.Contains` | premal/components/ScoreCalculator.ts:56-67 | only a ring of at least three vertices contains a point |
| `Polygon.IsInsidePolygon` | premal/components/ScoreCalculator.ts:56-67 | the flag starts false and flips once per crossed edge; the answer is true iff the number of crossed edges (vertex i, vertex i−1, wrapping) is odd |
| `Polygon.EdgeCrossesReversed` | premal/components/ScoreCalculator.ts:63 | in exact arithmetic, whether an edge is crossed does not depend on its direction; the division is only reached when exactly one end is above the ray, so its divisor is non-zero |
| `Polygon.DegenerateRingCrossesEvenly` | premal/components/ScoreCalculator.ts:56-67 | in exact arithmetic, in rings of 0, 1 or 2 vertices the ray crosses an even number of edges, so such a ring contains no point |
| `Polygon.SquareExample` | premal/components/ScoreCalculator.ts:56-67 | in the square (0,0),(0,2),(2,2),(2,0) the point (1,1) is inside and (5,5) is outside |
| `Polygon.SquareContainsInterior` | premal/components/ScoreCalculator.ts:56-67 | every point strictly inside that square is classified inside |
| `Scoring.MinDistanceKm` | premal/components/ScoreCalculator.ts:76-78 | `Math.min` of the distances: Infinity iff there is no reference; otherwise the distance to some reference, and no larger than any of them |
| `Scoring.Decay` | premal/components/ScoreCalculator.ts:79 | 1/(1+d) lies in (0,1] for d ≥ 0, equals 1 iff d = 0, and is 0 for d = Infinity |
| `Scoring.DecayAntitone` | premal/components/ScoreCalculator.ts:79 | a smaller distance never gives a smaller sub-score |
| `Scoring.FirstContainingZone` | premal/components/ScoreCalculator.ts:87-91 | the index of the first zone in list order whose ring contains the site; none before it contains the site; none at all when the result is absent |
| `Scoring.RegulatoryScore` | premal/components/ScoreCalculator.ts:86-92 | the regulatory sub-score is 0 or 1, never anything in between |
| `Scoring.ScanZones` | premal/components/ScoreCalculator.ts:86-92 | the loop with `break` computes 1 when the first containing zone is "permitted", and 0 otherwise |
| `Scoring.ScoreCandidateSite` | premal/components/ScoreCalculator.ts:69-100 | returns the input record with only `score` set to wR·renewable + wD·demand + wG·regulatory |
| `Scoring.SiteScore` | premal/components/ScoreCalculator.ts:94-97 | under non-negative weights the total lies between 0 and the sum of the weights |
| `Scoring.Scored` | premal/components/ScoreCalculator.ts:99 | the result differs from the input site only in `score`, which is always present and, under non-negative weights, between 0 and the sum of the weights |
| `Scoring.ScoredChangesOnlyScore` | premal/components/ScoreCalculator.ts:99 | id, name, latitude and longitude are unchanged and the score is always present |
| `Scoring.RenewableScoreRange` | premal/components/ScoreCalculator.ts:76-79 | the renewable sub-score lies in (0,1] when there is a renewable source, and is 0 when there is none |
| `Scoring.DemandScoreRange` | premal/components/ScoreCalculator.ts:81-84 | the same for the demand sub-score and the demand centres |
| `Scoring.CoincidentReferenceScoresOne` | premal/components/ScoreCalculator.ts:76-84 | a site at a reference's exact coordinates gets the sub-score 1 |
| `Scoring.ScoreOneMeansZeroDistance` | premal/components/ScoreCalculator.ts:76-84 | conversely, a sub-score of 1 means some reference is at distance 0 |
| `Scoring.NearerScoresHigher` | premal/components/ScoreCalculator.ts:76-84 | a site whose nearest reference is nearer never scores lower on that dimension |
| `Scoring.RegulatoryScoreCharacterised` | premal/components/ScoreCalculator.ts:86-92 | the regulatory sub-score is 0 or 1, and it is 1 iff some zone contains the site, is "permitted", and no earlier zone contains the site |
| `Scoring.FirstMatchWins` | premal/components/ScoreCalculator.ts:87-91 | the first containing zone decides the regulatory sub-score |
| `Scoring.LaterZonesIgnored` | premal/components/ScoreCalculator.ts:90 | zones after a containing zone are never consulted |
| `Scoring.UnzonedScoresZero` | premal/components/ScoreCalculator.ts:86 | a site that no zone contains scores 0, as under a restrictive zone |
| `Scoring.ZonePriorityExample` | premal/components/ScoreCalculator.ts:86-92 | overlapping zones listed "restricted" then "permitted" give 0, not 1 |
| `Scoring.SiteScoreBounded` | premal/components/ScoreCalculator.ts:94-97 | with non-negative weights summing to 1, the total score lies in [0,1] |
| `Scoring.CombineBounded` | premal/components/ScoreCalculator.ts:94-97 | the weighted sum of three values in [0,1], under non-negative weights, lies between 0 and the sum of the weights |
| `Ranking.KeyOfScored` | premal/components/ScoreCalculator.ts:112 | the `|| 0` fallback of the sort key never applies to a scored record: its key is its total score |
| `Ranking.Compare` | premal/components/ScoreCalculator.ts:112 | the comparator is positive exactly when `b` scores higher than `a` |
| `Ranking.InsertLast` | premal/components/ScoreCalculator.ts:112 | one insertion pass moves a[i] left past the strictly lower scores of the sorted prefix and leaves the rest of the array alone |
| `Ranking.SortByScoreDesc` | premal/components/ScoreCalculator.ts:112 | the in-place sort leaves the array equal to the stable descending sort of its old contents |
| `Ranking.SortedCopy` | premal/components/ScoreCalculator.ts:112-113 | copying the scored list into an array and sorting it in place gives the stable descending sort of the list |
| `Ranking.SortDescSorted` | premal/components/ScoreCalculator.ts:112 | scores do not increase along the sorted list |
| `Ranking.SortDescPermutation` | premal/components/ScoreCalculator.ts:112 | the sorted list is a permutation of its input |
| `Ranking.SortDescStable` | premal/components/ScoreCalculator.ts:112 | for every score, the records with that score appear in their input order |
| `Ranking.StableDescendingOrderIsUnique` | premal/components/ScoreCalculator.ts:112 | two descending, stable orders of the same records are equal, so any stable sort with this comparator gives the model's result |
| `Ranking.ScoreAll` | premal/components/ScoreCalculator.ts:109-111 | one scored record per candidate, in input order |
| `Ranking.ScoreAllBounded` | premal/components/ScoreCalculator.ts:108-111 | under the weights 0.4/0.4/0.2 every scored record has a score in [0,1] |
| `Ranking.RankSites` | premal/components/ScoreCalculator.ts:102-114 | the output has the input's length; it is sorted by descending score, is a permutation of the scored records, and keeps equal scores in input order; every score is present and in [0,1] |
| `Ranking.ScenarioZoning` | premal/components/ScoreCalculator.ts:86-92 | a permitted zone around (28.61, 77.22) gives S1 the regulatory point and S2 = (28.70, 77.50) none |
| `Ranking.ScenarioScores` | premal/components/ScoreCalculator.ts:69-100 | S1, which coincides with the renewable source and is no farther from the demand centre, outscores S2 |
| `Ranking.ScenarioRanking` | premal/components/ScoreCalculator.ts:102-114 | so `rankSites` puts S1 before S2 |
| `PlantSearch.Lower` | src/components/MapContainer.tsx:131 | `toLowerCase` keeps the length, spells the same string up to the case of ASCII letters, leaves no upper-case letter, and keeps every character that is not an upper-case letter in place |
| `PlantSearch.LowerAgreesIffEqualIgnoringCase` | src/components/MapContainer.tsx:131 | two strings lower-case to the same string exactly when, position by position, their characters are equal or are the two cases of one ASCII letter |
| `PlantSearch.CityMatchCaseBlind` | src/components/MapContainer.tsx:131 | the city test gives the same answer when either city is replaced by any spelling that differs only in letter case |
| `PlantSearch.LowerIdempotent` | src/components/MapContainer.tsx:131 | lower-casing an already lower-cased string changes nothing |
| `PlantSearch.CityMatchIgnoresCase` | src/components/MapContainer.tsx:131 | the city test gives the same answer when either city is lower-cased beforehand |
| `PlantSearch.Includes` | src/components/MapContainer.tsx:131 | the empty needle occurs in every string, every string occurs in itself, and a needle longer than the haystack never occurs |
| `PlantSearch.Keep` | src/components/MapContainer.tsx:129-134 | with no filters every plant is kept; otherwise a plant is kept iff state is empty or equal, the city is empty or, after lower-casing both, contained in the plant's city (`CityMatchCaseBlind` shows this ignores letter case), and the type is empty or equal |
| `PlantSearch.FilterPlants` | src/components/MapContainer.tsx:129-135 | a plant is in the result iff it is in the input and passes; each kept plant occurs as often as in the input |
| `PlantSearch.FilterIsOrderedSubsequence` | src/components/MapContainer.tsx:129 | the result is the input read at increasing positions, and those positions are exactly the positions of the plants that pass |
| `PlantSearch.NoCriteriaKeepsAll` | src/components/MapContainer.tsx:130-132 | null filters, or all fields empty, return the whole list |
| `PlantSearch.KeepMonotone` | src/components/MapContainer.tsx:130-133 | a plant that passes a tighter search passes the looser one |
| `PlantSearch.FilterMonotone` | src/components/MapContainer.tsx:130-133 | an extra criterion never enlarges the result: the tighter search equals searching the looser result again |
| `PlantSearch.CountOfType` | src/components/MapContainer.tsx:257 | the number of plants of a type is positive iff the type occurs |
| `PlantSearch.TotalIncrement` | src/components/MapContainer.tsx:257 | adding one to a key, or inserting it with 1, adds one to the sum of the counts |
| `PlantSearch.CountByType` | src/components/MapContainer.tsx:256-259 | the keys are exactly the types that occur; each count is the number of plants of that type; the counts sum to the list's length |
| `Layers.ToggleOne` | src/pages/Map.tsx:77-79 | only `visible` may change, and it flips iff the id matches |
| `Layers.ToggleLayer` | src/pages/Map.tsx:74-82 | same length and order; matching layers have `visible` negated and nothing else changed; other layers are returned unchanged |
| `Layers.ToggleUnknownIdIsIdentity` | src/pages/Map.tsx:76-80 | an id that no layer has leaves the list unchanged |
| `Layers.ToggleInvolution` | src/pages/Map.tsx:74-82 | toggling the same id twice restores the list |
| `Layers.ToggleCommutes` | src/pages/Map.tsx:74-82 | toggling two ids in either order gives the same list |

## Left out

- **Floating point.** The exact IEEE-754 behaviour is not modelled: rounding
  of the trigonometry, of the score arithmetic and of the crossing
  longitude computed in `isInsidePolygon`, NaN and `-0`. Scores and
  coordinates are exact reals.
- Polygon.EdgeCrossesReversed, Polygon.DegenerateRingCrossesEvenly: hold in
  exact arithmetic only. In doubles the two directions of one edge can
  round the crossing longitude differently: for the ring (0,0), (3,1)
  (latitude, longitude) and the point at latitude 1, longitude 1/3, one
  direction computes 0.3333333333333333 and the other 0.33333333333333337,
  so the edge is counted once and the two-vertex ring is reported as
  containing the point.
- Ranking.ScenarioScores, Ranking.ScenarioRanking: the numeric value of
  `getDistanceKm`, such as the Delhi–Mumbai distance of about 1150–1160 km,
  cannot be stated over abstract trigonometric functions, so these lemmas
  take the demand-side distance comparison as a hypothesis.
- Distance.DistanceSymmetric: holds for every `Trig` whose sine is odd. This
  is a separate hypothesis rather than one of the `Trig` laws, because as a
  standing law its quantifier would slow down every proof that mentions a
  distance.
- **Which sort algorithm.** The JavaScript engine's sort is not modelled as
  such. The model sorts by insertion. `StableDescendingOrderIsUnique` shows
  that every stable sort with the same comparator gives the same array.
- PlantSearch.CountByType: the count is a Dafny `map`, not a JavaScript
  object. A type named after a property of `Object.prototype` would behave
  differently there: for `"toString"`, `"constructor"` or `"valueOf"` the
  lookup `acc[type] || 0` finds the inherited function and the count
  becomes a string concatenation, and `"__proto__"` creates no key at all.
  The plant records' `type` values in the data (src/components/MapContainer.tsx:25-119)
  are five fixed names, none of which is such a name.
- **Key order of the count dictionary.** The insertion order in which
  `Object.entries` lists the keys is not modelled: the count is a Dafny
  `map`.
- **Case folding.** `toLowerCase` is modelled for ASCII letters only; Unicode
  case mapping is not modelled.
- **Unused fields.** The plant record's `coordinates`, `capacity` and
  `status`, and the search form's `budget` and `population`, are carried but
  never used, as in the source.
- **Rendering and libraries.** Leaflet and react-leaflet rendering, marker
  icons and colours, the heatmap, and the score-band and threshold styling
  are presentation.
- **React plumbing.** `useState`, `useEffect`, the timer-driven mock
  optimisation and the authentication forms are plumbing or library calls.
  The state update in `setActiveLayers` is modelled as the function it
  applies.
- **Static data.** The mock datasets and the JSON imports are static data.
  The model takes the plant list, the candidates and the reference sets as
  arbitrary input lists.
