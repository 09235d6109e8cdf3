/** Even-odd ray casting (`isInsidePolygon`).

    A ring vertex is the pair `[latitude, longitude]`: component 0 is the
    ray-casting y axis and component 1 the x axis. Edge k of a ring of n
    vertices joins vertex k to vertex k-1, where vertex -1 is vertex n-1
    (the loop `for (i = 0, j = n - 1; i < n; j = i++)`). A horizontal ray
    from the query point towards +x is tested against every edge; the answer
    flips once per crossing. Points exactly on an edge get whatever the
    arithmetic yields: the model does not promise either side for them. */
module Polygon {

  datatype Point = Point(latitude: real, longitude: real)

  /** One ring vertex, `[lat, lon]` in the source. */
  datatype Vertex = Vertex(lat: real, lon: real)

  type Ring = seq<Vertex>

  /** Exactly one end of the edge lies strictly above the ray. */
  predicate Straddles(p: Point, vi: Vertex, vj: Vertex) {
    (vi.lat > p.latitude) != (vj.lat > p.latitude)
  }

  /** The x (longitude) at which the edge's line meets the ray's height.
      Only defined for an edge that is not horizontal. */
  function CrossingLon(p: Point, vi: Vertex, vj: Vertex): real
    requires vi.lat != vj.lat
  {
    ((vj.lon - vi.lon) * (p.latitude - vi.lat)) / (vj.lat - vi.lat) + vi.lon
  }

  /** The source's `intersect` for the edge (vertex i, vertex j). The
      division is reached only through the short-circuit `&&`, after the
      straddle test, which makes the divisor non-zero; this function is
      well formed exactly because of that. */
  predicate EdgeCrosses(p: Point, vi: Vertex, vj: Vertex)
    ensures EdgeCrosses(p, vi, vj) ==> vi.lat != vj.lat
    ensures EdgeCrosses(p, vi, vj) ==> p.longitude < vi.lon || p.longitude < vj.lon
  {
    if Straddles(p, vi, vj) then
      CrossingOnSegment(p, vi, vj);
      p.longitude < CrossingLon(p, vi, vj)
    else false
  }

  /** Where the edge straddles the ray's height, the crossing point lies on
      the edge itself: between the longitudes of its two ends. */
  lemma CrossingOnSegment(p: Point, vi: Vertex, vj: Vertex)
    requires Straddles(p, vi, vj)
    ensures vi.lat != vj.lat
    ensures vi.lon <= vj.lon ==> vi.lon <= CrossingLon(p, vi, vj) <= vj.lon
    ensures vj.lon <= vi.lon ==> vj.lon <= CrossingLon(p, vi, vj) <= vi.lon
  {
    var d, u, w := vj.lat - vi.lat, p.latitude - vi.lat, vj.lon - vi.lon;
    var t := u / d;
    assert 0.0 <= t <= 1.0 by {
      if d > 0.0 {
        assert 0.0 <= u < d;
      } else {
        assert d <= u < 0.0;
      }
    }
    assert CrossingLon(p, vi, vj) == t * w + vi.lon;
    if w >= 0.0 {
      assert 0.0 <= t * w <= w;
    } else {
      assert w <= t * w <= 0.0;
    }
  }

  /** Index of the vertex before vertex k in a ring of n vertices. */
  function Prev(n: nat, k: nat): (j: nat)
    requires k < n
    ensures j < n
  {
    if k == 0 then n - 1 else k - 1
  }

  /** Index of the vertex after vertex j in a ring of n vertices. */
  function Next(n: nat, j: nat): (k: nat)
    requires j < n
    ensures k < n
  {
    if j == n - 1 then 0 else j + 1
  }

  /** `Prev` pairs every vertex with exactly one predecessor: as k runs
      over the ring, every vertex is the far end of exactly one tested
      edge. */
  lemma PrevIsBijection(n: nat)
    ensures forall k1, k2 :: 0 <= k1 < n && 0 <= k2 < n && Prev(n, k1) == Prev(n, k2) ==> k1 == k2
    ensures forall j :: 0 <= j < n ==> Prev(n, Next(n, j)) == j
  {
  }

  /** Number of the edges 0 .. k-1 of the ring that the ray crosses. */
  function Crossings(p: Point, ring: Ring, k: nat): (c: nat)
    requires k <= |ring|
    ensures c <= k
  {
    if k == 0 then 0
    else Crossings(p, ring, k - 1)
         + (if EdgeCrosses(p, ring[k - 1], ring[Prev(|ring|, k - 1)]) then 1 else 0)
  }

  /** Even-odd rule: inside iff the ray crosses an odd number of edges. */
  predicate Contains(p: Point, ring: Ring)
    ensures Contains(p, ring) ==> |ring| >= 3
  {
    DegenerateRingCrossesEvenly(p, ring);
    Crossings(p, ring, |ring|) % 2 == 1
  }

  /** `isInsidePolygon(point, polygon)`. */
  method IsInsidePolygon(p: Point, ring: Ring) returns (inside: bool)
    ensures inside <==> Crossings(p, ring, |ring|) % 2 == 1
  {
    inside := false;
    var i := 0;
    var j := |ring| - 1;
    while i < |ring|
      invariant 0 <= i <= |ring|
      invariant i < |ring| ==> j == Prev(|ring|, i)
      invariant inside <==> Crossings(p, ring, i) % 2 == 1
    {
      var intersect := EdgeCrosses(p, ring[i], ring[j]);
      if intersect {
        inside := !inside;
      }
      j := i;
      i := i + 1;
    }
  }

  /** Both ends of a non-horizontal edge describe the same line, so they
      give the same crossing longitude. */
  lemma CrossingLonReversed(p: Point, a: Vertex, b: Vertex)
    requires a.lat != b.lat
    ensures CrossingLon(p, a, b) == CrossingLon(p, b, a)
  {
    var y := p.latitude;
    var d := b.lat - a.lat;
    var l := ((b.lon - a.lon) * (y - a.lat)) / d;
    var r := ((a.lon - b.lon) * (y - b.lat)) / (a.lat - b.lat);
    assert l * d == (b.lon - a.lon) * (y - a.lat);
    assert r * (a.lat - b.lat) == (a.lon - b.lon) * (y - b.lat);
    assert r * d == (b.lon - a.lon) * (y - b.lat);
    assert (l - r) * d == (b.lon - a.lon) * d;
    assert l - r == b.lon - a.lon;
  }

  /** Whether the ray crosses an edge does not depend on the edge's direction
      (exact real arithmetic). */
  lemma EdgeCrossesReversed(p: Point, a: Vertex, b: Vertex)
    ensures EdgeCrosses(p, a, b) == EdgeCrosses(p, b, a)
  {
    if a.lat != b.lat {
      CrossingLonReversed(p, a, b);
    }
  }

  /** A ring of fewer than three vertices contains no point: with none the
      loop does not run, with one the self-edge does not straddle, with two
      the same edge is counted once in each direction. */
  lemma DegenerateRingCrossesEvenly(p: Point, ring: Ring)
    ensures |ring| < 3 ==> Crossings(p, ring, |ring|) % 2 == 0
  {
    if |ring| == 1 {
      assert !Straddles(p, ring[0], ring[0]);
      assert Crossings(p, ring, 1) == 0;
    } else if |ring| == 2 {
      EdgeCrossesReversed(p, ring[0], ring[1]);
      assert Crossings(p, ring, 1) == (if EdgeCrosses(p, ring[0], ring[1]) then 1 else 0);
      assert Crossings(p, ring, 2) == 2 * Crossings(p, ring, 1);
    }
  }

  /** The square with corners (0,0), (0,2), (2,2), (2,0). */
  function UnitTestSquare(): Ring {
    [Vertex(0.0, 0.0), Vertex(0.0, 2.0), Vertex(2.0, 2.0), Vertex(2.0, 0.0)]
  }

  /** Every point strictly inside the square is contained, (1,1) among
      them: of the four edges only the one from (2,2) back to (0,2) is
      crossed, at longitude 2. */
  lemma SquareContainsInterior(p: Point)
    requires 0.0 < p.latitude < 2.0 && 0.0 < p.longitude < 2.0
    ensures Contains(p, UnitTestSquare())
  {
    var sq := UnitTestSquare();
    assert CrossingLon(p, sq[0], sq[3]) == 0.0;
    assert !EdgeCrosses(p, sq[0], sq[3]);
    assert !Straddles(p, sq[1], sq[0]);
    assert CrossingLon(p, sq[2], sq[1]) == 2.0;
    assert EdgeCrosses(p, sq[2], sq[1]);
    assert !Straddles(p, sq[3], sq[2]);
    assert Crossings(p, sq, 1) == 0;
    assert Crossings(p, sq, 2) == 0;
    assert Crossings(p, sq, 3) == 1;
    assert Crossings(p, sq, 4) == 1;
  }

  /** No point above the square's top latitude is contained, (5,5) among
      them: no edge straddles its latitude. */
  lemma SquareExcludesAbove(p: Point)
    requires p.latitude >= 2.0
    ensures !Contains(p, UnitTestSquare())
  {
    var sq := UnitTestSquare();
    assert Crossings(p, sq, 1) == 0;
    assert Crossings(p, sq, 2) == 0;
    assert Crossings(p, sq, 3) == 0;
    assert Crossings(p, sq, 4) == 0;
  }

  /** The two concrete points of the basic containment case. */
  lemma SquareExample()
    ensures Contains(Point(1.0, 1.0), UnitTestSquare())
    ensures !Contains(Point(5.0, 5.0), UnitTestSquare())
  {
    SquareContainsInterior(Point(1.0, 1.0));
    SquareExcludesAbove(Point(5.0, 5.0));
  }
}
