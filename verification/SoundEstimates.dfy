/** What makes the straight-line estimate steady: no edge beats the reference speed. */
module SoundEstimates {
  import opened Reals
  import opened RoadNetwork
  import opened Heuristic
  import opened Bidirectional
  import opened BidirectionalProof

  ghost predicate NoEdgeTooFast(q: Query, sqrt: real -> real, cosLat: real, place: int -> Place, speed: real)
    requires speed > 0.0
  {
    forall u, v, e :: q.Arc(u, v, e) ==>
      && FlatDistKm(sqrt, place(u), place(v), cosLat) / speed <= q.hours(e)
      && FlatDistKm(sqrt, place(v), place(u), cosLat) / speed <= q.hours(e)
  }

  /** The instance uses the flat estimate and no edge beats the reference speed. */
  ghost predicate Sound(p: Instance, sqrt: real -> real, cos: real -> real, place: int -> Place, speed: real) {
    && p.est == FlatEstimator(sqrt, cos, place, speed)
    && (speed > 0.0 ==> NoEdgeTooFast(p.q, sqrt, cos(place(p.goal).lat), place, speed)
                        && NoEdgeTooFast(p.q, sqrt, cos(place(p.start).lat), place, speed))
  }

  /** Toward any target whose cosine lets no edge beat the reference speed the flat
      estimate is steady. */
  lemma FlatIsSteady(q: Query, sqrt: real -> real, cos: real -> real, place: int -> Place, speed: real, target: int)
    requires IsSqrt(sqrt) && q.NonnegativeHours()
    requires speed > 0.0 ==> NoEdgeTooFast(q, sqrt, cos(place(target).lat), place, speed)
    ensures Steady(q, FlatEstimator(sqrt, cos, place, speed), target)
  {
    var est := FlatEstimator(sqrt, cos, place, speed);
    if speed > 0.0 {
      var cosLat := cos(place(target).lat);
      forall n
        ensures est.Hours(n, target) >= 0.0
      {
        FlatSquare(sqrt, place(n), place(target), cosLat);
        DivideMonotone(0.0, FlatDistKm(sqrt, place(n), place(target), cosLat), speed);
      }
      MeridianDistance(sqrt, place(target), place(target), cosLat, 0.0);
      forall u, v, e | q.Arc(u, v, e)
        ensures est.Hours(u, target) <= q.hours(e) + est.Hours(v, target)
        ensures est.Hours(v, target) <= q.hours(e) + est.Hours(u, target)
      {
        EstimateStep(sqrt, cos, place, speed, u, v, target);
        EstimateStep(sqrt, cos, place, speed, v, u, target);
      }
    }
  }

  /** A sound flat estimate is steady toward both ends, and so consistent both ways. */
  lemma SoundIsSteady(p: Instance, sqrt: real -> real, cos: real -> real, place: int -> Place, speed: real)
    requires IsSqrt(sqrt) && p.q.NonnegativeHours() && Sound(p, sqrt, cos, place, speed)
    ensures Steady(p.q, p.est, p.start) && Steady(p.q, p.est, p.goal)
    ensures p.Fwd().Consistent() && p.Bwd().Consistent()
  {
    FlatIsSteady(p.q, sqrt, cos, place, speed, p.start);
    FlatIsSteady(p.q, sqrt, cos, place, speed, p.goal);
    SteadyConsistent(p);
  }
}
