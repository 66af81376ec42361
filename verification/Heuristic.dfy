/** The optional A* estimate: flat distance to the target over a reference speed,
    or zero when the speed is not positive. */
module Heuristic {
  import opened Reals
  import opened RoadNetwork

  const KM_PER_DEG := 111.195

  /** Flat-earth distance, with the cosine of one fixed latitude for both axes. */
  function FlatDistKm(sqrt: real -> real, a: Place, b: Place, cosLat: real): real {
    sqrt(Square((b.lat - a.lat) * KM_PER_DEG) + Square((b.lng - a.lng) * KM_PER_DEG * cosLat))
  }

  datatype Estimator = Estimator(flatKm: (int, int) -> real, speedKmH: real) {
    function Hours(n: int, target: int): real {
      if speedKmH > 0.0 then flatKm(n, target) / speedKmH else 0.0
    }

    function Toward(target: int): int -> real {
      n => Hours(n, target)
    }
  }

  /** The estimator over node positions; the cosine is the target's. */
  function FlatEstimator(sqrt: real -> real, cos: real -> real, place: int -> Place, speed: real): Estimator {
    Estimator((n, target) => FlatDistKm(sqrt, place(n), place(target), cos(place(target).lat)), speed)
  }

  /** The estimate toward a target is never negative, zero there, and changes along an
      arc, in either direction, by no more than the arc's time. */
  ghost predicate Steady(q: Query, est: Estimator, target: int) {
    && (forall n :: est.Hours(n, target) >= 0.0) && est.Hours(target, target) == 0.0
    && forall u, v, e :: q.Arc(u, v, e) ==>
         && est.Hours(u, target) <= q.hours(e) + est.Hours(v, target)
         && est.Hours(v, target) <= q.hours(e) + est.Hours(u, target)
  }

  /** What the bidirectional search promises with this estimate. */
  ghost function Promised(q: Query, est: Estimator, start: int, goal: int): Grade {
    if est.speedKmH <= 0.0 then Best
    else if Steady(q, est, start) && Steady(q, est, goal) then TwiceBest
    else AnyTime
  }

  lemma AxisSum(a: real, b: real, c: real, scale: real)
    ensures (c - a) * scale == (b - a) * scale + (c - b) * scale
  {
  }

  /** The flat distance is nonnegative and its square is that of the two axes. */
  lemma FlatSquare(sqrt: real -> real, a: Place, b: Place, cosLat: real)
    requires IsSqrt(sqrt)
    ensures FlatDistKm(sqrt, a, b, cosLat) >= 0.0
    ensures Square(FlatDistKm(sqrt, a, b, cosLat))
            == Square((b.lat - a.lat) * KM_PER_DEG) + Square((b.lng - a.lng) * KM_PER_DEG * cosLat)
  {
    SquareNonnegative((b.lat - a.lat) * KM_PER_DEG);
    SquareNonnegative((b.lng - a.lng) * KM_PER_DEG * cosLat);
  }

  /** With one fixed cosine the flat distance obeys the triangle inequality. */
  lemma FlatTriangle(sqrt: real -> real, a: Place, b: Place, c: Place, cosLat: real)
    requires IsSqrt(sqrt)
    ensures FlatDistKm(sqrt, a, c, cosLat) <= FlatDistKm(sqrt, a, b, cosLat) + FlatDistKm(sqrt, b, c, cosLat)
  {
    var x, y := (b.lat - a.lat) * KM_PER_DEG, (b.lng - a.lng) * KM_PER_DEG * cosLat;
    var u, v := (c.lat - b.lat) * KM_PER_DEG, (c.lng - b.lng) * KM_PER_DEG * cosLat;
    AxisSum(a.lat, b.lat, c.lat, KM_PER_DEG);
    AxisSum(a.lng * KM_PER_DEG, b.lng * KM_PER_DEG, c.lng * KM_PER_DEG, cosLat);
    FlatSquare(sqrt, a, b, cosLat);
    FlatSquare(sqrt, b, c, cosLat);
    FlatSquare(sqrt, a, c, cosLat);
    PlaneTriangle(x, y, u, v, FlatDistKm(sqrt, a, b, cosLat), FlatDistKm(sqrt, b, c, cosLat),
                  FlatDistKm(sqrt, a, c, cosLat));
  }

  /** Moving from u to v changes the estimate by at most the flat length of the move. */
  lemma EstimateStep(sqrt: real -> real, cos: real -> real, place: int -> Place, speed: real, u: int, v: int,
                     target: int)
    requires IsSqrt(sqrt) && speed > 0.0
    ensures var est := FlatEstimator(sqrt, cos, place, speed);
            est.Hours(u, target)
            <= FlatDistKm(sqrt, place(u), place(v), cos(place(target).lat)) / speed + est.Hours(v, target)
  {
    var c := cos(place(target).lat);
    var uv, vt := FlatDistKm(sqrt, place(u), place(v), c), FlatDistKm(sqrt, place(v), place(target), c);
    FlatTriangle(sqrt, place(u), place(v), place(target), c);
    DivideMonotone(FlatDistKm(sqrt, place(u), place(target), c), uv + vt, speed);
    assert (uv + vt) / speed == uv / speed + vt / speed;
  }

  /** A nonnegative root of a square is its absolute value. */
  lemma RootIsAbs(r: real, x: real)
    requires r >= 0.0 && Square(r) == Square(x)
    ensures r == Abs(x)
  {
    assert Square(Abs(x)) == Square(x);
    SquareLess(r, Abs(x));
    SquareLess(Abs(x), r);
  }

  lemma ZeroTimes(x: real, y: real)
    requires x == 0.0
    ensures x * y == 0.0 && Square(x) == 0.0
  {
  }

  /** A degree along a meridian is 111.195 km, and along a parallel the given fraction. */
  lemma FlatDegrees(sqrt: real -> real, a: Place, b: Place, cosLat: real)
    requires IsSqrt(sqrt)
    ensures a.lng == b.lng ==> FlatDistKm(sqrt, a, b, cosLat) == Abs((b.lat - a.lat) * 111.195)
    ensures a.lat == b.lat ==> FlatDistKm(sqrt, a, b, cosLat) == Abs((b.lng - a.lng) * 111.195 * cosLat)
  {
    FlatSquare(sqrt, a, b, cosLat);
    var x, w := (b.lat - a.lat) * 111.195, (b.lng - a.lng) * 111.195;
    if a.lng == b.lng {
      ZeroTimes(w, cosLat);
      ZeroTimes(w * cosLat, 1.0);
      RootIsAbs(FlatDistKm(sqrt, a, b, cosLat), x);
    }
    if a.lat == b.lat {
      ZeroTimes(x, 1.0);
      RootIsAbs(FlatDistKm(sqrt, a, b, cosLat), w * cosLat);
    }
  }

  /** On one meridian the flat distance is the latitude difference in kilometres. */
  lemma MeridianDistance(sqrt: real -> real, a: Place, b: Place, cosLat: real, km: real)
    requires IsSqrt(sqrt) && a.lng == b.lng && km >= 0.0
    requires (b.lat - a.lat) * KM_PER_DEG == km || (b.lat - a.lat) * KM_PER_DEG == -km
    ensures FlatDistKm(sqrt, a, b, cosLat) == km
  {
    FlatDegrees(sqrt, a, b, cosLat);
  }
}
