/** Where the bidirectional search keeps its promises and where it does not: the
    stopping rule compares scores while the queues are ordered by estimates, so with a
    positive reference speed it can stop too early, though never at more than twice the
    optimum; and a negative meeting node reads as "no path". All are exact conditions. */
module EstimateLimits {
  import opened Wrappers
  import opened Reals
  import opened RoadNetwork
  import opened Frontier
  import opened Heuristic
  import opened Bidirectional
  import opened BidirectionalProof
  import opened SoundEstimates
  import opened EarlyStop

  ghost predicate WithinFactor(q: Query, start: int, goal: int, factor: real, time: real) {
    forall ns, es :: q.Connects(ns, es, start, goal) ==> time <= factor * Sum(q.hours, es)
  }

  /** r is an answer the search may give on a sound input. */
  ghost predicate SoundAnswer(p: Instance, sqrt: real -> real, cos: real -> real, place: int -> Place, speed: real,
                              r: SearchResult) {
    && p.Ready() && p.q.PositiveHours() && Sound(p, sqrt, cos, place, speed)
    && IsOutcome(p, r) && r.Found?
  }

  /** On every sound input every answer is within the factor of every route. */
  ghost predicate AlwaysWithin(sqrt: real -> real, cos: real -> real, speed: real, factor: real) {
    forall p: Instance, place: int -> Place, r: SearchResult :: SoundAnswer(p, sqrt, cos, place, speed, r) ==>
      WithinFactor(p.q, p.start, p.goal, factor, r.path.timeHours)
  }

  ghost predicate AlwaysFastest(sqrt: real -> real, cos: real -> real, speed: real) {
    forall p: Instance, place: int -> Place, r: SearchResult :: SoundAnswer(p, sqrt, cos, place, speed, r) ==>
      p.q.NoneFaster(p.start, p.goal, r.path.timeHours)
  }

  lemma FactorMonotone(a: real, b: real, x: real)
    requires a <= b && x >= 0.0
    ensures a * x <= b * x
  {
  }

  /** A short edge that keeps the good route below half of two hours over the factor. */
  lemma ShortEnough(factor: real, short: real)
    requires factor < 2.0 && short == (2.0 - factor) / 8.0
    ensures short > 0.0 && factor * (1.0 + 2.0 * short) < 2.0
  {
    SquareNonnegative(2.0 - factor);
    assert factor * (2.0 - factor) == 2.0 * (2.0 - factor) - Square(2.0 - factor);
    assert factor * (1.0 + 2.0 * short) == factor + factor * (2.0 - factor) / 4.0;
  }

  lemma GapAnswer(sqrt: real -> real, cos: real -> real, speed: real, short: real) returns (r: SearchResult)
    requires IsSqrt(sqrt) && speed > 0.0 && short > 0.0
    ensures SoundAnswer(Gap(sqrt, cos, speed, short), sqrt, cos, GapPlace(speed), speed, r)
    ensures r.path.timeHours == 2.0
  {
    GapReady(sqrt, cos, speed, short);
    GapSound(sqrt, cos, speed, short);
    r := GapOutcome(sqrt, cos, speed, short);
  }

  /** Two hours against an hour and two short edges. */
  lemma GapNotWithin(q: Query, ns: seq<int>, es: seq<Edge>, factor: real, short: real)
    requires factor < 2.0 && short == (2.0 - factor) / 8.0
    requires q.Connects(ns, es, 0, 1) && Sum(q.hours, es) == 1.0 + 2.0 * short
    ensures !WithinFactor(q, 0, 1, factor, 2.0)
  {
    ShortEnough(factor, short);
    assert factor * Sum(q.hours, es) == factor * (1.0 + 2.0 * short);
  }

  lemma GapBreaksFactor(sqrt: real -> real, cos: real -> real, speed: real, factor: real)
    requires IsSqrt(sqrt) && speed > 0.0 && factor < 2.0
    ensures !AlwaysWithin(sqrt, cos, speed, factor)
  {
    var short := (2.0 - factor) / 8.0;
    ShortEnough(factor, short);
    var p := Gap(sqrt, cos, speed, short);
    var r := GapAnswer(sqrt, cos, speed, short);
    var ns, es := GapRoute(p.q, speed, short);
    assert p.start == 0 && p.goal == 1;
    GapNotWithin(p.q, ns, es, factor, short);
  }

  lemma TwiceWithin(time: real, c: real, factor: real)
    requires time <= 2.0 * c && c >= 0.0 && factor >= 2.0
    ensures time <= factor * c
  {
    FactorMonotone(2.0, factor, c);
  }

  lemma GradedWithin(q: Query, start: int, goal: int, factor: real, time: real)
    requires q.NonnegativeHours() && q.Graded(start, goal, TwiceBest, time) && factor >= 2.0
    ensures WithinFactor(q, start, goal, factor, time)
  {
    forall ns, es | q.Connects(ns, es, start, goal)
      ensures time <= factor * Sum(q.hours, es)
    {
      WalkHoursNonnegative(q, ns, es);
      assert Meets(TwiceBest, time, Sum(q.hours, es));
      TwiceWithin(time, Sum(q.hours, es), factor);
    }
  }

  /** Two is the exact price of stopping early: with a positive reference speed the
      search stays within a factor of the optimum on all sound inputs exactly when the
      factor is at least two. */
  lemma TwiceIsExact(sqrt: real -> real, cos: real -> real, speed: real, factor: real)
    requires IsSqrt(sqrt) && speed > 0.0
    ensures AlwaysWithin(sqrt, cos, speed, factor) <==> factor >= 2.0
  {
    if factor < 2.0 {
      GapBreaksFactor(sqrt, cos, speed, factor);
    } else {
      forall p: Instance, place: int -> Place, r: SearchResult | SoundAnswer(p, sqrt, cos, place, speed, r)
        ensures WithinFactor(p.q, p.start, p.goal, factor, r.path.timeHours)
      {
        SoundIsSteady(p, sqrt, cos, place, speed);
        OutcomeAnswers(p, r);
        GradedWithin(p.q, p.start, p.goal, factor, r.path.timeHours);
      }
    }
  }

  lemma FastestIsWithinOne(q: Query, start: int, goal: int, time: real)
    requires q.NoneFaster(start, goal, time)
    ensures WithinFactor(q, start, goal, 1.0, time)
  {
    forall ns, es | q.Connects(ns, es, start, goal)
      ensures time <= 1.0 * Sum(q.hours, es)
    {
      assert Meets(Best, time, Sum(q.hours, es));
    }
  }

  /** The search returns the fastest route on all sound inputs exactly when the
      reference speed is not positive, that is, when the estimate is switched off. */
  lemma FastestExactlyWithoutEstimate(sqrt: real -> real, cos: real -> real, speed: real)
    requires IsSqrt(sqrt)
    ensures AlwaysFastest(sqrt, cos, speed) <==> speed <= 0.0
  {
    if speed > 0.0 {
      GapBreaksFactor(sqrt, cos, speed, 1.0);
      var p: Instance, place: int -> Place, r: SearchResult :|
        SoundAnswer(p, sqrt, cos, place, speed, r) && !WithinFactor(p.q, p.start, p.goal, 1.0, r.path.timeHours);
      if p.q.NoneFaster(p.start, p.goal, r.path.timeHours) {
        FastestIsWithinOne(p.q, p.start, p.goal, r.path.timeHours);
      }
    } else {
      forall p: Instance, place: int -> Place, r: SearchResult | SoundAnswer(p, sqrt, cos, place, speed, r)
        ensures p.q.NoneFaster(p.start, p.goal, r.path.timeHours)
      {
        OutcomeAnswers(p, r);
      }
    }
  }

  // ----- a meeting node below zero -----

  /** Searching m -> n over a single edge meets at the goal n itself. */
  function Single(m: int, n: int, ns: set<int>): Instance {
    Instance(Query(Network(ns, map[m := [GapEdge(n, 1.0, 1.0)]], Some(map[n := [m]])), e => true, OwnHours, {}, {}),
             map[n := [m]], m, n, Estimator((a, b) => 0.0, 0.0))
  }

  lemma SingleReady(m: int, n: int, ns: set<int>)
    requires m != n && m in ns && n in ns
    ensures Single(m, n, ns).Ready() && Single(m, n, ns).q.HasRoute(m, n)
  {
    var p, e := Single(m, n, ns), GapEdge(n, 1.0, 1.0);
    assert e in p.q.net.Out(m) && p.q.Arc(m, n, e);
    forall u, v
      ensures u in In(p.rev, v) <==> exists e :: e in p.q.net.Out(u) && e.to == v
    {
    }
    assert p.q.Connects([m, n], [e], m, n);
  }

  lemma SingleStep(p: Instance, n: int)
    requires p.goal == n && p.start != n && p.q.hours(GapEdge(n, 1.0, 1.0)) == 1.0
    requires (forall v :: p.Fwd().h(v) == 0.0 && p.Bwd().h(v) == 0.0)
    requires Hops(p.Fwd(), p.rev, p.start) == [Hop(n, GapEdge(n, 1.0, 1.0))]
    ensures exists f: Side :: f.queue == [Entry(n, 1.0, 1.0)]
                              && Next(p, Initial(p), Joint(f, Initial(p).b, Meeting(Some(1.0), 1.0, n)))
  {
    var s, hop := Initial(p), Hop(n, GapEdge(n, 1.0, 1.0));
    var f0 := Settle(s.f, 0);
    PopFresh(p.Fwd(), p.rev, Half(s.f, s.m), s.b, f0, [hop]);
    assert [hop][..0] == [];
    assert ExpandMeet(Half(f0, s.m), s.b, p.q.hours, p.Fwd().h, p.start, []) == Half(f0, s.m);
    var f := Relax(f0, p.q.hours, p.Fwd().h, p.start, hop);
    assert Joint(f, s.b, Meeting(Some(1.0), 1.0, n)) == Advance(p, s, 0, 0);
  }

  lemma SingleHops(m: int, n: int, ns: set<int>)
    requires m in ns && n in ns
    ensures Hops(Single(m, n, ns).Fwd(), Single(m, n, ns).rev, m) == [Hop(n, GapEdge(n, 1.0, 1.0))]
  {
    var q, e := Single(m, n, ns).q, GapEdge(n, 1.0, 1.0);
    assert q.net.Out(m) == [e] && [e][..0] == [];
    assert q.Arc(m, n, e);
    assert ForwardHops(q, m, []) == [];
  }

  lemma NegativeOutcome(p: Instance, s: Joint)
    requires p.Ready() && Reachable(p, s) && Halted(s) && s.m.node < 0
    ensures IsOutcome(p, NoPath)
  {
    ReachableInv(p, s);
    assert Returns(p, s, NoPath);
  }

  lemma SingleOutcome(m: int, n: int, ns: set<int>)
    requires m != n && m in ns && n in ns && n < 0
    ensures IsOutcome(Single(m, n, ns), NoPath)
  {
    var p := Single(m, n, ns);
    SingleHops(m, n, ns);
    ReachableInitially(p);
    SingleStep(p, n);
    var f: Side :| f.queue == [Entry(n, 1.0, 1.0)]
                   && Next(p, Initial(p), Joint(f, Initial(p).b, Meeting(Some(1.0), 1.0, n)));
    var s := Joint(f, Initial(p).b, Meeting(Some(1.0), 1.0, n));
    ReachableNext(p, Initial(p), s);
    assert Tops(s, 0, 0) && StopsAt(s, 0, 0);
    SingleReady(m, n, ns);
    NegativeOutcome(p, s);
  }

  ghost predicate NoPathMeansNoRoute(ns: set<int>) {
    forall p: Instance :: p.Ready() && p.q.net.nodes == ns && IsOutcome(p, NoPath) ==> !p.q.HasRoute(p.start, p.goal)
  }

  /** "No path" is the truth for every search over a node set exactly when no negative
      id shares the set with another node. */
  lemma NoPathTruthfulExactlyWithoutNegatives(ns: set<int>)
    ensures NoPathMeansNoRoute(ns) <==> forall n, m :: n in ns && m in ns && n < 0 ==> m == n
  {
    if n, m :| n in ns && m in ns && n < 0 && m != n {
      SingleReady(m, n, ns);
      SingleOutcome(m, n, ns);
      assert Single(m, n, ns).q.net.nodes == ns;
    } else {
      forall p: Instance | p.Ready() && p.q.net.nodes == ns && IsOutcome(p, NoPath)
        ensures !p.q.HasRoute(p.start, p.goal)
      {
        assert p.q.Usable(p.start) && p.q.Usable(p.goal);
        assert forall n :: n in ns ==> n >= 0;
        OutcomeAnswers(p, NoPath);
      }
    }
  }
}
