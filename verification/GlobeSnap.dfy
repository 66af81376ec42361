/** When the snap, with the distance it really uses, agrees with a full scan: exactly, for
    every place of the globe. */
module GlobeSnap {
  import opened Reals
  import opened RoadNetwork
  import opened Snapping
  import opened GreatCircle
  import opened GlobeReach
  import GraphIndex

  /** Away from the poles and the antimeridian it agrees exactly when the two columns of
      cells at the limit's reach are scanned. */
  lemma InsideExactly(t: Trig, dist: (Place, Place) -> real, at: Place, maxKm: real, degrees: real)
    requires t.Lawful() && IsHaversine(t, dist) && Reaches(t, at, maxKm, degrees) && Inside(at, degrees)
    ensures AlwaysNearest(dist, at, maxKm) <==>
            && ColumnScanned(at, at.lng - degrees, Radius(maxKm))
            && ColumnScanned(at, at.lng + degrees, Radius(maxKm))
  {
    HaversineLatitude(t, dist, at);
    HaversineReach(t, dist, at, maxKm, degrees);
    SnapExactlyWhenColumnsScanned(dist, at, maxKm, at.lng - degrees, at.lng + degrees);
  }

  // ----- across the antimeridian -----

  /** The window of a limit of at most a quarter of the globe is less than 91 degrees wide
      to either side. */
  lemma WindowWidth(t: Trig, maxKm: real)
    requires t.Lawful() && 0.0 < maxKm <= EARTH_RADIUS_KM * t.pi / 2.0
    ensures 1 <= Radius(maxKm) <= 4550
  {
    var cells := maxKm / KM_PER_CELL;
    assert maxKm < 10008.0;
    assert -4509.0 < -cells < 0.0;
    assert -4509 <= (-cells).Floor <= 0;
  }

  lemma FarColumn(t: Trig, at: Place, maxKm: real, lng: real)
    requires t.Lawful() && 0.0 < maxKm <= EARTH_RADIUS_KM * t.pi / 2.0 && Abs(lng - at.lng) >= 180.0
    ensures !ColumnScanned(at, lng, Radius(maxKm))
  {
    WindowWidth(t, maxKm);
    var x, y := at.lng / GraphIndex.GRID_CELL_SIZE_DEG, lng / GraphIndex.GRID_CELL_SIZE_DEG;
    if lng >= at.lng {
      assert y - x >= 9000.0;
      FloorShift(x, y, -9000);
    } else {
      assert x - y >= 9000.0;
      FloorShift(y, x, -9000);
    }
  }

  /** A place within the limit half a turn of longitude away or more is not scanned. */
  lemma FarPlaceMissed(t: Trig, dist: (Place, Place) -> real, at: Place, maxKm: real, p: Place)
    requires t.Lawful() && 0.0 < maxKm <= EARTH_RADIUS_KM * t.pi / 2.0
    requires OnGlobe(p) && dist(at, p) <= maxKm && Abs(p.lng - at.lng) >= 180.0
    ensures !AlwaysNearest(dist, at, maxKm)
  {
    FarColumn(t, at, maxKm, p.lng);
    SnapExactlyWhenWindowReaches(dist, at, maxKm);
  }

  lemma CosineFalls(t: Trig, x: real, y: real)
    requires t.Lawful() && 0.0 <= x <= y <= t.pi / 2.0
    ensures t.cos(x) >= t.cos(y)
  {
    SineOrder(t, x, y);
    assert t.OnCircle(x) && t.OnCircle(y) && t.RightHalf(x) && t.RightHalf(y);
    SquareLess(t.cos(y), t.cos(x));
  }

  /** The cosine of a longitude difference of all but d degrees of a turn. */
  lemma TurnCosine(t: Trig, d: real, shift: real, degrees: real)
    requires t.Lawful() && 0.0 <= d <= degrees <= 90.0 && (shift == 360.0 - d || shift == d - 360.0)
    ensures t.cos(t.Rad(shift)) >= t.cos(t.Rad(degrees))
  {
    RadOrder(t, 0.0, d);
    RadOrder(t, d, degrees);
    RadOrder(t, degrees, 90.0);
    assert t.Rad(0.0) == 0.0 && t.Rad(90.0) == t.pi / 2.0 && t.Rad(360.0 - d) == 2.0 * t.pi - t.Rad(d);
    OtherWay(t, t.Rad(d));
    CosineFalls(t, t.Rad(d), t.Rad(degrees));
    SameCosine(t, 360.0 - d, shift);
  }

  /** Where the limit reaches the antimeridian, the snap misses nodes beyond it. */
  lemma AntimeridianMisses(t: Trig, dist: (Place, Place) -> real, at: Place, maxKm: real, degrees: real)
    requires t.Lawful() && IsHaversine(t, dist) && Reaches(t, at, maxKm, degrees) && !Inside(at, degrees)
    ensures !AlwaysNearest(dist, at, maxKm)
  {
    var d := 180.0 - Abs(at.lng);
    var lng := if at.lng >= 0.0 then -180.0 else 180.0;
    TurnCosine(t, d, lng - at.lng, degrees);
    var p := AtLongitude(t, dist, at, maxKm, degrees, lng);
    FarPlaceMissed(t, dist, at, maxKm, p);
  }

  // ----- at the poles -----

  lemma QuarterTurn(t: Trig)
    requires t.Lawful()
    ensures t.sin(t.pi / 2.0) == 1.0 && t.cos(t.pi / 2.0) == 0.0
  {
    var q := t.pi / 2.0;
    assert t.Subtracts(q, -q) && t.Symmetric(q) && t.OnCircle(q);
    assert q - -q == t.pi;
    ZeroSquare(t.cos(q));
    SineNonnegative(t, q);
    SquareEqual(t.sin(q), 1.0);
  }

  /** The cosine of the angle to a pole is the sine of the latitude, up to its sign. */
  lemma PoleDot(t: Trig, at: Place, north: bool, lng: real)
    requires t.Lawful()
    ensures Dot(t, at, Place(if north then 90.0 else -90.0, lng)) ==
            if north then t.sin(t.Rad(at.lat)) else -t.sin(t.Rad(at.lat))
  {
    QuarterTurn(t);
    assert t.Symmetric(t.pi / 2.0);
    assert t.Rad(90.0) == t.pi / 2.0 && t.Rad(-90.0) == -(t.pi / 2.0);
  }

  /** A pole within the limit has every longitude. */
  ghost predicate PoleWithin(t: Trig, at: Place, maxKm: real) {
    Abs(t.sin(t.Rad(at.lat))) >= t.cos(maxKm / EARTH_RADIUS_KM)
  }

  lemma PoleMisses(t: Trig, dist: (Place, Place) -> real, at: Place, maxKm: real)
    requires t.Lawful() && IsHaversine(t, dist) && OnGlobe(at) && 0.0 < maxKm <= EARTH_RADIUS_KM * t.pi / 2.0
    requires PoleWithin(t, at, maxKm)
    ensures !AlwaysNearest(dist, at, maxKm)
  {
    var north := t.sin(t.Rad(at.lat)) >= 0.0;
    var p := Place(if north then 90.0 else -90.0, if at.lng >= 0.0 then -180.0 else 180.0);
    PoleDot(t, at, north, p.lng);
    WithinByDot(t, dist, at, p, maxKm);
    FarPlaceMissed(t, dist, at, maxKm, p);
  }

  lemma SmallerSquare(a: real, k: real)
    requires Abs(a) < k
    ensures Square(a) < Square(k)
  {
    SquareGrows(k, Abs(a));
  }

  lemma ProperFraction(s: real, c: real)
    requires 0.0 < s && c >= 0.0 && Square(s) < Square(c)
    ensures c > 0.0 && 0.0 < s / c < 1.0 && c * (s / c) == s
  {
    if c < s {
      SquareGrows(s, c);
    }
    var y := s / c;
    assert y * c == s;
    if y > 1.0 {
      Larger(y, 1.0, c);
    } else if y < 0.0 {
      Larger(0.0, y, c);
    }
  }

  /** The angle of the first quarter with a given sine. */
  lemma ArcSine(t: Trig, y: real) returns (x: real)
    requires t.Lawful() && 0.0 < y < 1.0
    ensures 0.0 < x < t.pi / 2.0 && t.sin(x) == y
  {
    assert t.HasArc(y);
    x :| -t.pi / 2.0 <= x <= t.pi / 2.0 && t.sin(x) == y;
    QuarterTurn(t);
    if x <= 0.0 {
      assert t.Symmetric(x);
      SineNonnegative(t, -x);
    }
  }

  /** With both poles beyond the limit there is a reach. */
  lemma ReachExists(t: Trig, at: Place, maxKm: real) returns (degrees: real)
    requires t.Lawful() && OnGlobe(at) && 0.0 < maxKm <= EARTH_RADIUS_KM * t.pi / 2.0
    requires !PoleWithin(t, at, maxKm)
    ensures Reaches(t, at, maxKm, degrees)
  {
    var delta := maxKm / EARTH_RADIUS_KM;
    var c, s := t.cos(t.Rad(at.lat)), t.sin(delta);
    CosineOnGlobe(t, at);
    SmallerSquare(t.sin(t.Rad(at.lat)), t.cos(delta));
    assert t.OnCircle(delta) && t.OnCircle(t.Rad(at.lat)) && t.Rises(0.0, delta);
    ProperFraction(s, c);
    var x := ArcSine(t, s / c);
    degrees := x * 180.0 / t.pi;
    LatitudeInDegrees(t, x);
    RadOrder(t, degrees, 0.0);
    RadOrder(t, 90.0, degrees);
    assert t.Rad(0.0) == 0.0 && t.Rad(90.0) == t.pi / 2.0;
  }

  // ----- everywhere -----

  /** With the distance it really uses and any limit up to a quarter of the globe, the snap
      agrees with a full scan on every graph exactly when the limit reaches neither a pole
      nor the antimeridian and the two columns at its reach are scanned. */
  lemma HaversineSnapExactly(t: Trig, dist: (Place, Place) -> real, at: Place, maxKm: real)
    requires t.Lawful() && IsHaversine(t, dist) && OnGlobe(at) && 0.0 < maxKm <= EARTH_RADIUS_KM * t.pi / 2.0
    ensures AlwaysNearest(dist, at, maxKm) <==>
            exists degrees ::
              && Reaches(t, at, maxKm, degrees) && Inside(at, degrees)
              && ColumnScanned(at, at.lng - degrees, Radius(maxKm))
              && ColumnScanned(at, at.lng + degrees, Radius(maxKm))
  {
    forall degrees | Reaches(t, at, maxKm, degrees) && Inside(at, degrees)
      ensures AlwaysNearest(dist, at, maxKm) <==>
              && ColumnScanned(at, at.lng - degrees, Radius(maxKm))
              && ColumnScanned(at, at.lng + degrees, Radius(maxKm))
    {
      InsideExactly(t, dist, at, maxKm, degrees);
    }
    if PoleWithin(t, at, maxKm) {
      PoleMisses(t, dist, at, maxKm);
    } else {
      var degrees := ReachExists(t, at, maxKm);
      if !Inside(at, degrees) {
        AntimeridianMisses(t, dist, at, maxKm, degrees);
      }
    }
  }

  /** In particular it agrees wherever the reach is at most the radius in degrees. */
  lemma HaversineSnapNearest(t: Trig, dist: (Place, Place) -> real, at: Place, maxKm: real, degrees: real)
    requires t.Lawful() && IsHaversine(t, dist) && Reaches(t, at, maxKm, degrees) && Inside(at, degrees)
    requires degrees <= Radius(maxKm) as real * GraphIndex.GRID_CELL_SIZE_DEG
    ensures AlwaysNearest(dist, at, maxKm)
  {
    DegreesInWindow(at, Place(at.lat, at.lng - degrees), Radius(maxKm));
    DegreesInWindow(at, Place(at.lat, at.lng + degrees), Radius(maxKm));
    InsideExactly(t, dist, at, maxKm, degrees);
  }
}
