/** The distance the snap really uses, the haversine formula, over abstract trigonometric
    functions: what it means for the scanned window. */
module GreatCircle {
  import opened Reals
  import opened RoadNetwork
  import opened Snapping

  const EARTH_RADIUS_KM := 6371.0

  /** Sine, cosine and pi, with the laws used of them, each for given angles. */
  datatype Trig = Trig(sin: real -> real, cos: real -> real, pi: real) {
    function Rad(degrees: real): real {
      degrees * pi / 180.0
    }

    predicate OnCircle(x: real) {
      Square(sin(x)) + Square(cos(x)) == 1.0
    }

    predicate Symmetric(x: real) {
      sin(-x) == -sin(x) && cos(-x) == cos(x)
    }

    predicate Subtracts(x: real, y: real) {
      cos(x - y) == cos(x) * cos(y) + sin(x) * sin(y)
    }

    predicate RightHalf(x: real) {
      -pi / 2.0 <= x <= pi / 2.0 ==> cos(x) >= 0.0
    }

    predicate Rises(x: real, y: real) {
      0.0 <= x < y <= pi / 2.0 ==> sin(x) < sin(y)
    }

    /** On the first quarter the sine lies above its chords from zero. */
    predicate AboveChord(c: real, x: real) {
      0.0 <= c <= 1.0 && 0.0 <= x <= pi / 2.0 ==> c * sin(x) <= sin(c * x)
    }

    ghost predicate HasArc(y: real) {
      -1.0 <= y <= 1.0 ==> exists x :: -pi / 2.0 <= x <= pi / 2.0 && sin(x) == y
    }

    ghost predicate Lawful() {
      && 3.1415 < pi < 3.1415927 && sin(0.0) == 0.0 && cos(pi) == -1.0
      && (forall x :: OnCircle(x)) && (forall x :: Symmetric(x)) && (forall x, y :: Subtracts(x, y))
      && (forall x :: RightHalf(x)) && (forall x, y :: Rises(x, y)) && (forall c, x :: AboveChord(c, x))
      && (forall y :: HasArc(y))
    }
  }

  lemma SineNonnegative(t: Trig, x: real)
    requires t.Lawful() && 0.0 <= x <= t.pi / 2.0
    ensures t.sin(x) >= 0.0
  {
    assert t.Rises(0.0, x);
  }

  /** On the first quarter the squares of the sines order the angles. */
  lemma SineOrder(t: Trig, x: real, y: real)
    requires t.Lawful() && 0.0 <= x <= t.pi / 2.0 && 0.0 <= y <= t.pi / 2.0
    ensures Square(t.sin(x)) <= Square(t.sin(y)) <==> x <= y
  {
    SineNonnegative(t, x);
    SineNonnegative(t, y);
    assert t.Rises(x, y) && t.Rises(y, x);
    if x < y {
      SquareGrows(t.sin(y), t.sin(x));
    } else if y < x {
      SquareGrows(t.sin(x), t.sin(y));
    }
  }

  lemma SineOfAbs(t: Trig, x: real)
    requires t.Lawful()
    ensures Square(t.sin(Abs(x))) == Square(t.sin(x)) && t.cos(Abs(x)) == t.cos(x)
  {
    assert t.Symmetric(x);
  }

  // ----- the formula -----

  /** The square of the sine of half the angle between two places. */
  function Hav(t: Trig, a: Place, b: Place): real {
    Square(t.sin(t.Rad(b.lat - a.lat) / 2.0))
    + t.cos(t.Rad(a.lat)) * t.cos(t.Rad(b.lat)) * Square(t.sin(t.Rad(b.lng - a.lng) / 2.0))
  }

  function HalfAngle(km: real): real {
    km / (2.0 * EARTH_RADIUS_KM)
  }

  /** The distance is twice the earth's radius times the angle of the first quarter that
      the arc tangent finds. */
  ghost predicate Measured(t: Trig, dist: (Place, Place) -> real, a: Place, b: Place) {
    OnGlobe(a) && OnGlobe(b) ==>
      0.0 <= HalfAngle(dist(a, b)) <= t.pi / 2.0 && Square(t.sin(HalfAngle(dist(a, b)))) == Hav(t, a, b)
  }

  ghost predicate IsHaversine(t: Trig, dist: (Place, Place) -> real) {
    forall a: Place, b: Place :: Measured(t, dist, a, b)
  }

  lemma RadRange(t: Trig, degrees: real, bound: real)
    requires t.pi > 0.0 && Abs(degrees) <= bound
    ensures Abs(t.Rad(degrees)) == t.Rad(Abs(degrees)) <= t.Rad(bound)
  {
    assert (bound - Abs(degrees)) * t.pi >= 0.0;
    assert degrees < 0.0 ==> degrees * t.pi <= 0.0;
  }

  lemma CosineOnGlobe(t: Trig, p: Place)
    requires t.Lawful() && OnGlobe(p)
    ensures t.cos(t.Rad(p.lat)) >= 0.0
  {
    RadRange(t, p.lat, 90.0);
    assert t.RightHalf(t.Rad(p.lat));
  }

  lemma ProductNonnegative(a: real, b: real, c: real)
    requires a >= 0.0 && b >= 0.0 && c >= 0.0
    ensures a * b * c >= 0.0
  {
    assert a * b >= 0.0;
  }

  // ----- latitude -----

  lemma LatitudeAngle(t: Trig, dist: (Place, Place) -> real, at: Place, p: Place)
    requires t.Lawful() && IsHaversine(t, dist) && OnGlobe(at) && OnGlobe(p)
    ensures t.Rad(Abs(p.lat - at.lat)) / 2.0 <= HalfAngle(dist(at, p))
  {
    var d := t.Rad(p.lat - at.lat) / 2.0;
    assert Measured(t, dist, at, p);
    CosineOnGlobe(t, at);
    CosineOnGlobe(t, p);
    var s := t.sin(t.Rad(p.lng - at.lng) / 2.0);
    SquareNonnegative(s);
    ProductNonnegative(t.cos(t.Rad(at.lat)), t.cos(t.Rad(p.lat)), Square(s));
    RadRange(t, p.lat - at.lat, 180.0);
    SineOfAbs(t, d);
    SineOrder(t, Abs(d), HalfAngle(dist(at, p)));
  }

  lemma LatitudeKm(pi: real, degrees: real, km: real)
    requires pi > 3.1415 && degrees >= 0.0 && degrees * pi / 180.0 / 2.0 <= HalfAngle(km)
    ensures degrees * 111.0 <= km
  {
    assert degrees * (pi - 3.1415) >= 0.0;
    assert degrees * pi >= degrees * 3.1415;
  }

  /** Along a meridian the distance is the earth's radius, 6371 km, times the angle. */
  lemma HaversineMeridian(t: Trig, dist: (Place, Place) -> real, at: Place, p: Place)
    requires t.Lawful() && IsHaversine(t, dist) && OnGlobe(at) && OnGlobe(p) && p.lng == at.lng
    ensures dist(at, p) == 6371.0 * t.Rad(Abs(p.lat - at.lat))
  {
    var d, h := t.Rad(p.lat - at.lat) / 2.0, HalfAngle(dist(at, p));
    assert Measured(t, dist, at, p);
    assert t.Rad(p.lng - at.lng) / 2.0 == 0.0;
    assert Square(t.sin(0.0)) == 0.0;
    RadRange(t, p.lat - at.lat, 180.0);
    SineOfAbs(t, d);
    SineOrder(t, Abs(d), h);
    SineOrder(t, h, Abs(d));
    assert h == t.Rad(Abs(p.lat - at.lat)) / 2.0;
  }

  /** A degree of latitude costs at least 111 km. */
  lemma HaversineLatitude(t: Trig, dist: (Place, Place) -> real, at: Place)
    requires t.Lawful() && IsHaversine(t, dist) && OnGlobe(at)
    ensures LatitudeCosts(dist, at)
  {
    forall p: Place | OnGlobe(p)
      ensures Abs(p.lat - at.lat) * 111.0 <= dist(at, p)
    {
      LatitudeAngle(t, dist, at, p);
      LatitudeKm(t.pi, Abs(p.lat - at.lat), dist(at, p));
    }
  }

  // ----- along a parallel -----

  lemma CosineAtMostOne(t: Trig, x: real)
    requires t.Lawful() && t.cos(x) >= 0.0
    ensures t.cos(x) <= 1.0
  {
    assert t.OnCircle(x);
    SquareNonnegative(t.sin(x));
    SquareLess(t.cos(x), 1.0);
  }

  lemma Shrinks(c: real, x: real)
    requires 0.0 <= c <= 1.0 && x >= 0.0
    ensures 0.0 <= c * x <= x
  {
    assert (1.0 - c) * x >= 0.0;
  }

  lemma SquareMonotone(a: real, b: real)
    requires 0.0 <= a <= b
    ensures Square(a) <= Square(b)
  {
    if a < b {
      SquareGrows(b, a);
    }
  }

  /** An angle whose sine is a fraction of another's is at most that fraction of it. */
  lemma FractionOfArc(t: Trig, c: real, x: real, h: real)
    requires t.Lawful() && 0.0 <= c <= 1.0 && 0.0 <= x <= t.pi / 2.0 && 0.0 <= h <= t.pi / 2.0
    requires Square(t.sin(h)) == Square(c * t.sin(x))
    ensures h <= c * x
  {
    SineNonnegative(t, x);
    Shrinks(c, t.sin(x));
    Shrinks(c, x);
    assert t.AboveChord(c, x);
    SquareMonotone(c * t.sin(x), t.sin(c * x));
    SineOrder(t, h, c * x);
  }

  lemma ParallelHav(t: Trig, at: Place, p: Place)
    requires t.Lawful() && p.lat == at.lat
    ensures Hav(t, at, p) == Square(t.cos(t.Rad(at.lat)) * t.sin(Abs(t.Rad(p.lng - at.lng) / 2.0)))
  {
    var c, x := t.cos(t.Rad(at.lat)), t.Rad(p.lng - at.lng) / 2.0;
    SineOfAbs(t, x);
    assert t.Rad(p.lat - at.lat) / 2.0 == 0.0 && Square(t.sin(0.0)) == 0.0;
    SquareProduct(c, t.sin(Abs(x)));
    assert c * c * Square(t.sin(x)) == Square(c) * Square(t.sin(x));
  }

  lemma ParallelAngle(t: Trig, dist: (Place, Place) -> real, at: Place, p: Place)
    requires t.Lawful() && IsHaversine(t, dist) && OnGlobe(at) && OnGlobe(p)
    requires p.lat == at.lat && Abs(p.lng - at.lng) <= 180.0
    ensures HalfAngle(dist(at, p)) <= t.cos(t.Rad(at.lat)) * (t.Rad(Abs(p.lng - at.lng)) / 2.0)
  {
    assert Measured(t, dist, at, p);
    CosineOnGlobe(t, at);
    CosineAtMostOne(t, t.Rad(at.lat));
    RadRange(t, p.lng - at.lng, 180.0);
    ParallelHav(t, at, p);
    FractionOfArc(t, t.cos(t.Rad(at.lat)), Abs(t.Rad(p.lng - at.lng) / 2.0), HalfAngle(dist(at, p)));
  }

  lemma KmOfArc(q: real, arc: real, km: real)
    requires q <= arc * 3.1415927 && arc >= 0.0 && HalfAngle(km) <= q / 360.0
    ensures km <= arc * 111.195
  {
  }

  lemma ParallelKm(pi: real, c: real, degrees: real, km: real)
    requires 0.0 < pi < 3.1415927 && c >= 0.0 && degrees >= 0.0
    requires HalfAngle(km) <= c * (degrees * pi / 180.0 / 2.0)
    ensures km <= degrees * (111.195 * c)
  {
    var arc := c * degrees;
    assert arc >= 0.0;
    assert c * (degrees * pi / 180.0 / 2.0) == arc * pi / 360.0;
    assert arc * pi <= arc * 3.1415927 by {
      Shrinks(pi / 3.1415927, arc * 3.1415927);
    }
    KmOfArc(arc * pi, arc, km);
    assert arc * 111.195 == degrees * (111.195 * c);
  }

  /** Along a parallel a degree costs at most 111.195 km times the cosine. */
  lemma HaversineParallel(t: Trig, dist: (Place, Place) -> real, at: Place, p: Place)
    requires t.Lawful() && IsHaversine(t, dist) && OnGlobe(at) && OnGlobe(p)
    requires p.lat == at.lat && Abs(p.lng - at.lng) <= 180.0
    ensures dist(at, p) <= Abs(p.lng - at.lng) * (111.195 * t.cos(t.Rad(at.lat)))
  {
    ParallelAngle(t, dist, at, p);
    CosineOnGlobe(t, at);
    ParallelKm(t.pi, t.cos(t.Rad(at.lat)), Abs(p.lng - at.lng), dist(at, p));
  }

  /** The rail snap of 50 km misses nodes wherever the cosine of the latitude is at most
      0.89, that is, from about 27 degrees on. */
  lemma RailSnapMissesFrom27(t: Trig, dist: (Place, Place) -> real, at: Place)
    requires t.Lawful() && IsHaversine(t, dist) && OnGlobe(at) && t.cos(t.Rad(at.lat)) <= 0.89
    ensures !AlwaysNearest(dist, at, RAIL_SNAP_KM)
  {
    var kmPerDegree := 111.195 * t.cos(t.Rad(at.lat));
    forall p: Place | OnGlobe(p) && p.lat == at.lat && Abs(p.lng - at.lng) <= 180.0
      ensures dist(at, p) <= Abs(p.lng - at.lng) * kmPerDegree
    {
      HaversineParallel(t, dist, at, p);
    }
    RailSnapMisses(dist, at, kmPerDegree);
  }

  // ----- the exact reach -----

  /** The cosine of the angle between two places. */
  function Dot(t: Trig, a: Place, b: Place): real {
    t.sin(t.Rad(a.lat)) * t.sin(t.Rad(b.lat))
    + t.cos(t.Rad(a.lat)) * t.cos(t.Rad(b.lat)) * t.cos(t.Rad(b.lng - a.lng))
  }

  lemma DoubleAngle(t: Trig, x: real)
    requires t.Lawful()
    ensures t.cos(x) == 1.0 - 2.0 * Square(t.sin(x / 2.0))
  {
    var y := x / 2.0;
    assert t.Subtracts(y, -y) && t.Symmetric(y) && t.OnCircle(y);
    assert y - -y == x;
  }

  lemma HavIsDot(t: Trig, a: Place, b: Place)
    requires t.Lawful()
    ensures 1.0 - 2.0 * Hav(t, a, b) == Dot(t, a, b)
  {
    var x, y := t.Rad(b.lat), t.Rad(a.lat);
    var cc, s := t.cos(y) * t.cos(x), Square(t.sin(t.Rad(b.lng - a.lng) / 2.0));
    DoubleAngle(t, t.Rad(b.lat - a.lat));
    DoubleAngle(t, t.Rad(b.lng - a.lng));
    assert t.Subtracts(x, y);
    assert t.Rad(b.lat - a.lat) == x - y;
    assert cc * (1.0 - 2.0 * s) == cc - 2.0 * (cc * s);
  }

  /** A place is within the limit exactly when the cosine of its angle is at least that of
      the limit's angle. */
  lemma WithinByDot(t: Trig, dist: (Place, Place) -> real, at: Place, p: Place, maxKm: real)
    requires t.Lawful() && IsHaversine(t, dist) && OnGlobe(at) && OnGlobe(p)
    requires 0.0 <= maxKm <= EARTH_RADIUS_KM * t.pi
    ensures dist(at, p) <= maxKm <==> Dot(t, at, p) >= t.cos(maxKm / EARTH_RADIUS_KM)
  {
    assert Measured(t, dist, at, p);
    HavIsDot(t, at, p);
    DoubleAngle(t, maxKm / EARTH_RADIUS_KM);
    assert maxKm / EARTH_RADIUS_KM / 2.0 == HalfAngle(maxKm);
    SineOrder(t, HalfAngle(dist(at, p)), HalfAngle(maxKm));
  }

  lemma Distribute(x: real, y: real, z: real)
    requires y + z == 1.0
    ensures x * z == x - x * y
  {
    assert x * (y + z) == x * y + x * z;
  }

  lemma CapAlgebra(a: real, c: real, u: real, v: real, l: real, m: real, cosLimit: real)
    requires Square(a) + Square(c) == 1.0 && Square(u) + Square(v) == 1.0 && Square(m) + Square(l) == 1.0
    requires a * u + c * v * l >= cosLimit >= 0.0
    ensures Square(c) * Square(m) <= 1.0 - Square(cosLimit)
  {
    CauchySchwarz(a, c * l, u, v);
    assert a * u + (c * l) * v == a * u + c * v * l;
    SquareMonotone(cosLimit, a * u + c * v * l);
    assert Square(cosLimit) <= Square(a) + Square(c * l);
    SquareProduct(c, l);
    Distribute(Square(c), Square(m), Square(l));
  }

  /** What a place within the limit tells of its longitude. */
  lemma CapBound(t: Trig, at: Place, p: Place, cosLimit: real)
    requires t.Lawful() && Dot(t, at, p) >= cosLimit >= 0.0
    ensures Square(t.cos(t.Rad(at.lat))) * Square(t.sin(t.Rad(p.lng - at.lng))) <= 1.0 - Square(cosLimit)
  {
    var a, c := t.sin(t.Rad(at.lat)), t.cos(t.Rad(at.lat));
    var u, v := t.sin(t.Rad(p.lat)), t.cos(t.Rad(p.lat));
    var l, m := t.cos(t.Rad(p.lng - at.lng)), t.sin(t.Rad(p.lng - at.lng));
    assert t.OnCircle(t.Rad(at.lat)) && t.OnCircle(t.Rad(p.lat)) && t.OnCircle(t.Rad(p.lng - at.lng));
    CapAlgebra(a, c, u, v, l, m, cosLimit);
  }

  lemma ProductBelow(a: real, u: real, m: real)
    requires Square(u) <= 1.0 && Square(a) < Square(m) && m >= 0.0
    ensures a * u < m
  {
    SquareProduct(a, u);
    SquareNonnegative(a);
    SquareNonnegative(u);
    Shrinks(Square(u), Square(a));
    if a * u >= m {
      SquareMonotone(m, a * u);
    }
  }

  /** Away from the poles a place on the far half of the globe is outside the limit. */
  lemma FarHalf(a: real, c: real, u: real, v: real, l: real, cosLimit: real)
    requires Square(a) + Square(c) == 1.0 && Square(u) + Square(v) == 1.0 && c >= 0.0 && v >= 0.0
    requires cosLimit >= 0.0 && Square(c) > 1.0 - Square(cosLimit)
    ensures l <= 0.0 ==> a * u + c * v * l < cosLimit
  {
    SquareNonnegative(v);
    ProductBelow(a, u, cosLimit);
    if l <= 0.0 {
      assert c * v >= 0.0;
      assert (c * v) * -l >= 0.0;
    }
  }
}
