/** Great-circle distance by the haversine formula (`getDistanceKm`).

    The source evaluates `Math.sin`, `Math.cos`, `Math.sqrt` and `Math.atan2`
    in IEEE double precision. The model works over `real` and takes the four
    functions as a parameter of type `Trig`: any record of functions that obeys
    the laws below, each of which the mathematical functions satisfy. */
module Distance {

  /** Earth radius in kilometres, as in the source. */
  const EarthRadiusKm: real := 6371.0

  /** `Math.PI` as JavaScript prints it. */
  const Pi: real := 3.141592653589793

  datatype TrigOps = TrigOps(
    sin: real -> real,
    cos: real -> real,
    sqrt: real -> real,
    atan2: (real, real) -> real)

  /** Facts about the real functions that every `Trig` obeys: sine
      vanishes at 0; square roots are non-negative, with sqrt(0) = 0 and
      sqrt(1) = 1; atan2(0, 1) = 0 and atan2(y, x) is non-negative whenever
      y >= 0. */
  ghost predicate Laws(t: TrigOps) {
    && t.sin(0.0) == 0.0
    && (forall x: real :: t.sqrt(x) >= 0.0)
    && t.sqrt(0.0) == 0.0
    && t.sqrt(1.0) == 1.0
    && t.atan2(0.0, 1.0) == 0.0
    && (forall y: real, x: real :: y >= 0.0 ==> t.atan2(y, x) >= 0.0)
  }

  /** Trigonometric operations obeying `Laws`. The witness is a crude
      stand-in that only shows the laws are consistent. */
  type Trig = t: TrigOps | Laws(t)
    witness TrigOps(x => x, x => 1.0, x => if x == 1.0 then 1.0 else 0.0, (y, x) => 0.0)

  function Square(x: real): (r: real)
    ensures r >= 0.0
  {
    x * x
  }

  function Radians(deg: real): real {
    (deg * Pi) / 180.0
  }

  /** The haversine term `a` of the source; it vanishes when the two
      points coincide. */
  function HaversineTerm(t: Trig, lat1: real, lon1: real, lat2: real, lon2: real): (a: real)
    ensures lat1 == lat2 && lon1 == lon2 ==> a == 0.0
  {
    var dLat := Radians(lat2 - lat1);
    var dLon := Radians(lon2 - lon1);
    assert lat1 == lat2 ==> dLat / 2.0 == 0.0;
    assert lon1 == lon2 ==> dLon / 2.0 == 0.0;
    Square(t.sin(dLat / 2.0)) + t.cos(Radians(lat1)) * t.cos(Radians(lat2)) * Square(t.sin(dLon / 2.0))
  }

  /** `getDistanceKm(lat1, lon1, lat2, lon2)`: R * 2 * atan2(sqrt(a), sqrt(1 - a)). */
  function DistanceKm(t: Trig, lat1: real, lon1: real, lat2: real, lon2: real): (d: real)
    ensures d >= 0.0
  {
    var a := HaversineTerm(t, lat1, lon1, lat2, lon2);
    var c := 2.0 * t.atan2(t.sqrt(a), t.sqrt(1.0 - a));
    EarthRadiusKm * c
  }

  /** Sine is odd. Kept apart from `Laws`: as a standing assumption its
      quantifier would put a sine term for every pair of angles in every
      proof that mentions a distance. */
  ghost predicate SineIsOdd(t: Trig) {
    forall x: real, y: real :: x + y == 0.0 ==> t.sin(x) == -t.sin(y)
  }

  /** The distance from a point to itself is 0. */
  lemma DistanceToSelfIsZero(t: Trig, lat: real, lon: real)
    ensures DistanceKm(t, lat, lon, lat, lon) == 0.0
  {
    assert 1.0 - HaversineTerm(t, lat, lon, lat, lon) == 1.0;
  }

  /** Squared sine does not see the sign of its argument. */
  lemma SquareSinNegated(t: Trig, x: real, y: real)
    requires SineIsOdd(t)
    requires y == -x
    ensures Square(t.sin(y)) == Square(t.sin(x))
  {
    assert t.sin(x) == -t.sin(y);
  }

  /** Swapping the two points leaves the haversine term unchanged. */
  lemma HaversineTermSymmetric(t: Trig, lat1: real, lon1: real, lat2: real, lon2: real)
    requires SineIsOdd(t)
    ensures HaversineTerm(t, lat1, lon1, lat2, lon2) == HaversineTerm(t, lat2, lon2, lat1, lon1)
  {
    SquareSinNegated(t, Radians(lat2 - lat1) / 2.0, Radians(lat1 - lat2) / 2.0);
    SquareSinNegated(t, Radians(lon2 - lon1) / 2.0, Radians(lon1 - lon2) / 2.0);
  }

  /** Distance is symmetric: `getDistanceKm(A, B) == getDistanceKm(B, A)`. */
  lemma DistanceSymmetric(t: Trig, lat1: real, lon1: real, lat2: real, lon2: real)
    requires SineIsOdd(t)
    ensures DistanceKm(t, lat1, lon1, lat2, lon2) == DistanceKm(t, lat2, lon2, lat1, lon1)
  {
    HaversineTermSymmetric(t, lat1, lon1, lat2, lon2);
  }
}
