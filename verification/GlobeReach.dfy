/** How far east and west the places within a limit reach on the globe, and so exactly
    when the snap, with the distance it really uses, agrees with a full scan. */
module GlobeReach {
  import opened Reals
  import opened RoadNetwork
  import opened Snapping
  import opened GreatCircle

  // ----- angles once around -----

  lemma SineOfPi(t: Trig)
    requires t.Lawful()
    ensures t.sin(t.pi) == 0.0
  {
    assert t.OnCircle(t.pi);
    if t.sin(t.pi) > 0.0 {
      SquarePositive(t.sin(t.pi));
    } else if t.sin(t.pi) < 0.0 {
      SquarePositive(-t.sin(t.pi));
    }
  }

  /** Only near zero and near a whole turn is the cosine positive. */
  lemma PositiveCosine(t: Trig, x: real)
    requires t.Lawful() && t.cos(x) > 0.0
    ensures !(t.pi / 2.0 <= x <= 3.0 * t.pi / 2.0)
  {
    SineOfPi(t);
    assert t.Subtracts(x, t.pi) && t.RightHalf(x - t.pi);
  }

  lemma ZeroSquare(x: real)
    requires Square(x) == 0.0
    ensures x == 0.0
  {
    if x > 0.0 {
      SquarePositive(x);
    } else if x < 0.0 {
      SquarePositive(-x);
    }
  }

  /** The other way around the circle has the same cosine, and the same sine up to its sign. */
  lemma OtherWay(t: Trig, x: real)
    requires t.Lawful()
    ensures t.cos(2.0 * t.pi - x) == t.cos(x) && Square(t.sin(2.0 * t.pi - x)) == Square(t.sin(x))
  {
    SineOfPi(t);
    var pi := t.pi;
    assert t.Subtracts(pi, -pi) && t.Symmetric(pi);
    assert pi - -pi == 2.0 * pi;
    assert t.Subtracts(2.0 * pi, x) && t.OnCircle(2.0 * pi) && t.OnCircle(x) && t.OnCircle(2.0 * pi - x);
    var s := t.sin(2.0 * pi);
    assert t.cos(2.0 * pi) == 1.0 && Square(s) == 0.0;
    ZeroSquare(s);
  }

  /** An angle with a positive cosine and a sine no larger than another's is no larger, or
      as near to a whole turn. */
  lemma NearZeroOrTurn(t: Trig, x: real, y: real)
    requires t.Lawful() && 0.0 <= x <= 2.0 * t.pi && 0.0 <= y <= t.pi / 2.0
    requires t.cos(x) > 0.0 && Square(t.sin(x)) <= Square(t.sin(y))
    ensures x <= y || 2.0 * t.pi - x <= y
  {
    PositiveCosine(t, x);
    if x < t.pi / 2.0 {
      SineOrder(t, x, y);
    } else {
      OtherWay(t, x);
      SineOrder(t, 2.0 * t.pi - x, y);
    }
  }

  // ----- the limit's reach in degrees -----

  /** A place with both poles beyond the limit, and the longitude difference, in degrees,
      that the limit reaches to either side: its sine times the cosine of the latitude is
      the sine of the limit's angle. */
  ghost predicate Reaches(t: Trig, at: Place, maxKm: real, degrees: real) {
    && OnGlobe(at)
    && 0.0 < maxKm <= EARTH_RADIUS_KM * t.pi / 2.0 && 0.0 < degrees < 90.0
    && t.cos(t.Rad(at.lat)) * t.sin(t.Rad(degrees)) == t.sin(maxKm / EARTH_RADIUS_KM)
  }

  /** That many degrees to either side do not cross the antimeridian. */
  predicate Inside(at: Place, degrees: real) {
    -180.0 < at.lng - degrees && at.lng + degrees < 180.0
  }

  lemma ReachAngles(t: Trig, at: Place, maxKm: real, degrees: real)
    requires t.Lawful() && Reaches(t, at, maxKm, degrees)
    ensures 0.0 < maxKm / EARTH_RADIUS_KM <= t.pi / 2.0 && 0.0 < t.Rad(degrees) < t.pi / 2.0
  {
    assert t.Rad(degrees) == degrees * (t.pi / 180.0);
    assert (90.0 - degrees) * (t.pi / 180.0) > 0.0 && degrees * (t.pi / 180.0) > 0.0;
  }

  lemma BelowOne(c: real, s: real, a: real, k: real)
    requires c >= 0.0 && 0.0 < s < 1.0 && c * s > 0.0 && k >= 0.0
    requires Square(a) + Square(c) == 1.0 && Square(c * s) == 1.0 - Square(k)
    ensures c > 0.0 && k > 0.0 && Square(c) > 1.0 - Square(k)
  {
    assert c == 0.0 ==> c * s == 0.0;
    Larger(1.0, s, c);
    SquareGrows(c, c * s);
    SquareNonnegative(a);
    assert k == 0.0 ==> Square(k) == 0.0;
  }

  lemma SineAtMostOne(t: Trig, x: real)
    requires t.Lawful() && t.sin(x) >= 0.0
    ensures t.sin(x) <= 1.0
  {
    assert t.OnCircle(x);
    SquareNonnegative(t.cos(x));
    SquareLess(t.sin(x), 1.0);
  }

  /** The sine of the reach is below one, so the poles are beyond the limit. */
  lemma PolesBeyond(t: Trig, at: Place, maxKm: real, degrees: real)
    requires t.Lawful() && Reaches(t, at, maxKm, degrees)
    ensures var c, s, k := t.cos(t.Rad(at.lat)), t.sin(t.Rad(degrees)), t.cos(maxKm / EARTH_RADIUS_KM);
            && c > 0.0 && k > 0.0 && Square(c) * Square(s) == 1.0 - Square(k) && Square(c) > 1.0 - Square(k)
  {
    var delta, l := maxKm / EARTH_RADIUS_KM, t.Rad(degrees);
    var c, s, k := t.cos(t.Rad(at.lat)), t.sin(l), t.cos(delta);
    ReachAngles(t, at, maxKm, degrees);
    assert t.Rises(0.0, delta) && t.Rises(0.0, l) && t.Rises(l, t.pi / 2.0);
    CosineOnGlobe(t, at);
    assert t.RightHalf(delta) && t.OnCircle(delta) && t.OnCircle(t.Rad(at.lat)) && t.OnCircle(t.pi / 2.0);
    SquareProduct(c, s);
    SineAtMostOne(t, t.pi / 2.0);
    BelowOne(c, s, t.sin(t.Rad(at.lat)), k);
  }

  // ----- no place within the limit lies farther east or west -----

  lemma CancelSquare(c: real, m: real, s: real)
    requires c > 0.0 && Square(c) * m <= Square(c) * s
    ensures m <= s
  {
    SquarePositive(c);
    if m > s {
      Larger(m, s, Square(c));
    }
  }

  lemma WithinTurns(t: Trig, dist: (Place, Place) -> real, at: Place, p: Place, maxKm: real, degrees: real)
    requires t.Lawful() && IsHaversine(t, dist) && Reaches(t, at, maxKm, degrees)
    requires OnGlobe(p) && dist(at, p) <= maxKm
    ensures var x := t.Rad(p.lng - at.lng);
            t.cos(x) > 0.0 && Square(t.sin(x)) <= Square(t.sin(t.Rad(degrees)))
  {
    var k := t.cos(maxKm / EARTH_RADIUS_KM);
    var c := t.cos(t.Rad(at.lat));
    PolesBeyond(t, at, maxKm, degrees);
    WithinByDot(t, dist, at, p, maxKm);
    CapBound(t, at, p, k);
    CancelSquare(c, Square(t.sin(t.Rad(p.lng - at.lng))), Square(t.sin(t.Rad(degrees))));
    CosineOnGlobe(t, p);
    assert t.OnCircle(t.Rad(at.lat)) && t.OnCircle(t.Rad(p.lat));
    FarHalf(t.sin(t.Rad(at.lat)), c, t.sin(t.Rad(p.lat)), t.cos(t.Rad(p.lat)), t.cos(t.Rad(p.lng - at.lng)), k);
  }

  lemma RadOrder(t: Trig, a: real, b: real)
    requires t.pi > 0.0
    ensures t.Rad(a) <= t.Rad(b) <==> a <= b
  {
    var unit := t.pi / 180.0;
    assert t.Rad(a) == a * unit && t.Rad(b) == b * unit;
    if a < b {
      Larger(b, a, unit);
    } else if b < a {
      Larger(a, b, unit);
    }
  }

  lemma NotFarther(t: Trig, dist: (Place, Place) -> real, at: Place, p: Place, maxKm: real, degrees: real)
    requires t.Lawful() && IsHaversine(t, dist) && Reaches(t, at, maxKm, degrees) && Inside(at, degrees)
    requires OnGlobe(p) && dist(at, p) <= maxKm
    ensures Abs(p.lng - at.lng) <= degrees
  {
    var d := Abs(p.lng - at.lng);
    var x := t.Rad(p.lng - at.lng);
    WithinTurns(t, dist, at, p, maxKm, degrees);
    RadRange(t, p.lng - at.lng, 360.0);
    SineOfAbs(t, x);
    ReachAngles(t, at, maxKm, degrees);
    assert t.Rad(360.0) == 2.0 * t.pi;
    NearZeroOrTurn(t, Abs(x), t.Rad(degrees));
    RadOrder(t, d, degrees);
    assert 2.0 * t.pi - t.Rad(d) == t.Rad(360.0 - d);
    RadOrder(t, 360.0 - d, degrees);
  }

  // ----- and some place within it lies exactly there -----

  lemma QuotientSquare(a: real, k: real)
    requires k > 0.0
    ensures Square(a / k) * Square(k) == Square(a)
  {
    SquareProduct(a / k, k);
    assert (a / k) * k == a;
  }

  lemma SquareEqual(a: real, b: real)
    requires a >= 0.0 && b >= 0.0 && Square(a) == Square(b)
    ensures a == b
  {
    SquareLess(a, b);
    SquareLess(b, a);
  }

  lemma SumOfQuotients(x: real, y: real, kk: real, aa: real, bb: real)
    requires kk > 0.0 && x * kk == aa && y * kk == bb && aa + bb == kk
    ensures x + y == 1.0
  {
    var z := 1.0 - x;
    assert z * kk == kk - x * kk;
    if y > z {
      Larger(y, z, kk);
    } else if y < z {
      Larger(z, y, kk);
    }
  }

  /** The latitude whose sine and cosine are in the given proportion. */
  lemma Latitude(t: Trig, a: real, b: real, k: real) returns (x: real)
    requires t.Lawful() && k > 0.0 && b >= 0.0 && Square(a) + Square(b) == Square(k)
    ensures -t.pi / 2.0 <= x <= t.pi / 2.0 && t.sin(x) == a / k && t.cos(x) == b / k
  {
    QuotientSquare(a, k);
    QuotientSquare(b, k);
    SquarePositive(k);
    SumOfQuotients(Square(a / k), Square(b / k), Square(k), Square(a), Square(b));
    SquareNonnegative(b / k);
    SquareLess(Abs(a / k), 1.0);
    assert t.HasArc(a / k);
    x :| -t.pi / 2.0 <= x <= t.pi / 2.0 && t.sin(x) == a / k;
    assert t.RightHalf(x) && t.OnCircle(x);
    DivideMonotone(0.0, b, k);
    SquareEqual(t.cos(x), b / k);
  }

  /** sin^2 of the latitude plus its cos^2 times cos^2 of the reach is cos^2 of the limit. */
  lemma ReachTriangle(t: Trig, at: Place, maxKm: real, degrees: real)
    requires t.Lawful() && Reaches(t, at, maxKm, degrees)
    ensures var b := t.cos(t.Rad(at.lat)) * t.cos(t.Rad(degrees));
            b >= 0.0 && Square(t.sin(t.Rad(at.lat))) + Square(b) == Square(t.cos(maxKm / EARTH_RADIUS_KM))
  {
    var c, l := t.cos(t.Rad(at.lat)), t.Rad(degrees);
    ReachAngles(t, at, maxKm, degrees);
    PolesBeyond(t, at, maxKm, degrees);
    assert t.RightHalf(l) && t.OnCircle(l) && t.OnCircle(t.Rad(at.lat));
    SquareProduct(c, t.cos(l));
    Distribute(Square(c), Square(t.sin(l)), Square(t.cos(l)));
    assert c * t.cos(l) >= 0.0;
  }

  lemma QuotientSum(a: real, b: real, k: real)
    requires k > 0.0 && Square(a) + Square(b) == Square(k)
    ensures a * (a / k) + b * (b / k) == k
  {
    assert a * (a / k) + b * (b / k) == (a * a + b * b) / k;
    assert k * k / k == k;
  }

  lemma DotAtLeast(a: real, b: real, c: real, k: real, l: real, m: real)
    requires k > 0.0 && c >= 0.0 && b >= 0.0 && b == c * l && m >= l && a * (a / k) + b * (b / k) == k
    ensures a * (a / k) + c * (b / k) * m >= k
  {
    DivideMonotone(0.0, b, k);
    var f := c * (b / k);
    assert f >= 0.0;
    assert f * (m - l) >= 0.0;
    assert f * m == f * l + f * (m - l);
    assert f * l == b * (b / k);
  }

  lemma SameCosine(t: Trig, degrees: real, shift: real)
    requires t.Lawful() && (shift == degrees || shift == -degrees)
    ensures t.cos(t.Rad(shift)) == t.cos(t.Rad(degrees))
  {
    assert t.Symmetric(t.Rad(degrees));
    assert t.Rad(-degrees) == -t.Rad(degrees);
  }

  lemma LatitudeInDegrees(t: Trig, x: real)
    requires t.pi > 0.0 && -t.pi / 2.0 <= x <= t.pi / 2.0
    ensures t.Rad(x * 180.0 / t.pi) == x && -90.0 <= x * 180.0 / t.pi <= 90.0
  {
    var d := x * 180.0 / t.pi;
    assert d * t.pi == x * 180.0;
    assert t.Rad(-90.0) == -t.pi / 2.0 && t.Rad(90.0) == t.pi / 2.0;
    RadOrder(t, d, 90.0);
    RadOrder(t, -90.0, d);
  }

  /** Whatever the longitude, as long as it is no farther, some place there is within the
      limit. */
  lemma AtLongitude(t: Trig, dist: (Place, Place) -> real, at: Place, maxKm: real, degrees: real, lng: real)
    returns (p: Place)
    requires t.Lawful() && IsHaversine(t, dist) && Reaches(t, at, maxKm, degrees)
    requires -180.0 <= lng <= 180.0 && t.cos(t.Rad(lng - at.lng)) >= t.cos(t.Rad(degrees))
    ensures OnGlobe(p) && dist(at, p) <= maxKm && p.lng == lng
  {
    var a, c, k := t.sin(t.Rad(at.lat)), t.cos(t.Rad(at.lat)), t.cos(maxKm / EARTH_RADIUS_KM);
    var b := c * t.cos(t.Rad(degrees));
    PolesBeyond(t, at, maxKm, degrees);
    ReachTriangle(t, at, maxKm, degrees);
    var x := Latitude(t, a, b, k);
    p := Place(x * 180.0 / t.pi, lng);
    LatitudeInDegrees(t, x);
    QuotientSum(a, b, k);
    DotAtLeast(a, b, c, k, t.cos(t.Rad(degrees)), t.cos(t.Rad(lng - at.lng)));
    assert Dot(t, at, p) >= k;
    WithinByDot(t, dist, at, p, maxKm);
  }

  /** So the limit reaches exactly that far east and west. */
  lemma HaversineReach(t: Trig, dist: (Place, Place) -> real, at: Place, maxKm: real, degrees: real)
    requires t.Lawful() && IsHaversine(t, dist) && Reaches(t, at, maxKm, degrees) && Inside(at, degrees)
    ensures Reach(dist, at, maxKm, at.lng - degrees, at.lng + degrees)
  {
    forall p: Place | OnGlobe(p) && dist(at, p) <= maxKm
      ensures at.lng - degrees <= p.lng <= at.lng + degrees
    {
      NotFarther(t, dist, at, p, maxKm, degrees);
    }
    SameCosine(t, degrees, degrees);
    SameCosine(t, degrees, -degrees);
    var west := AtLongitude(t, dist, at, maxKm, degrees, at.lng - degrees);
    var east := AtLongitude(t, dist, at, maxKm, degrees, at.lng + degrees);
  }
}
