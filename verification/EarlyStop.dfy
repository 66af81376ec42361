/** A family of runs of the bidirectional search that stop as early as the stopping rule
    allows. Six nodes on one meridian, given by their travel time from the start at the
    reference speed: the start 0, node 3 and node 5 at 0, the goal 1, node 2 and node 4
    at 1. The route 0-3-4-1 takes one hour and two short edges; the direct edge takes two
    hours. Each end, when settled, pushes three entries: a decoy (2 or 5), whose score is
    one hour and whose estimate is zero, the near node of the good route, and the other
    end. The decoys come to the tops, one hour each, and stop the search at the direct
    edge, before the near nodes have been looked at. */
module EarlyStop {
  import opened Wrappers
  import opened Reals
  import opened RoadNetwork
  import opened Frontier
  import opened Heuristic
  import opened Bidirectional
  import opened BidirectionalProof
  import opened SoundEstimates

  function GapEdge(to: int, hours: real, km: real): Edge {
    Edge(to, km, DEFAULT_SPEED_KMH, hours, Unclassified, 1, 0)
  }

  function GapPosition(n: int): real {
    if n == 1 || n == 2 || n == 4 then 1.0 else 0.0
  }

  function GapPlace(speed: real): int -> Place {
    n => Place(GapPosition(n) * speed / KM_PER_DEG, 0.0)
  }

  function GapReverse(): map<int, seq<int>> {
    map[1 := [5, 4, 0], 2 := [0], 3 := [0], 4 := [3]]
  }

  function GapNetwork(speed: real, short: real): Network {
    Network({0, 1, 2, 3, 4, 5},
            map[0 := [GapEdge(2, 1.0, speed), GapEdge(3, short, short), GapEdge(1, 2.0, 2.0 * speed)],
                3 := [GapEdge(4, 1.0, speed)],
                4 := [GapEdge(1, short, short)],
                5 := [GapEdge(1, 1.0, speed)]],
            Some(GapReverse()))
  }

  function Gap(sqrt: real -> real, cos: real -> real, speed: real, short: real): Instance {
    Instance(Query(GapNetwork(speed, short), e => true, OwnHours, {}, {}), GapReverse(), 0, 1,
             FlatEstimator(sqrt, cos, GapPlace(speed), speed))
  }

  lemma GapArcs(speed: real, short: real, u: int, v: int, e: Edge)
    ensures e in GapNetwork(speed, short).Out(u) && e.to == v <==>
      || (u == 0 && v == 2 && e == GapEdge(2, 1.0, speed))
      || (u == 0 && v == 3 && e == GapEdge(3, short, short))
      || (u == 0 && v == 1 && e == GapEdge(1, 2.0, 2.0 * speed))
      || (u == 3 && v == 4 && e == GapEdge(4, 1.0, speed))
      || (u == 4 && v == 1 && e == GapEdge(1, short, short))
      || (u == 5 && v == 1 && e == GapEdge(1, 1.0, speed))
  {
  }

  lemma GapTransposed(speed: real, short: real)
    ensures Transposed(GapNetwork(speed, short), GapReverse())
  {
    var net := GapNetwork(speed, short);
    forall u, v
      ensures u in In(GapReverse(), v) <==> exists e :: e in net.Out(u) && e.to == v
    {
      if u in In(GapReverse(), v) {
        var e := if v == 1 then (if u == 5 then GapEdge(1, 1.0, speed)
                                 else if u == 4 then GapEdge(1, short, short) else GapEdge(1, 2.0, 2.0 * speed))
                 else if v == 3 then GapEdge(3, short, short) else GapEdge(v, 1.0, speed);
        assert e in net.Out(u) && e.to == v;
      }
      if e :| e in net.Out(u) && e.to == v {
        GapArcs(speed, short, u, v, e);
      }
    }
  }

  lemma GapReady(sqrt: real -> real, cos: real -> real, speed: real, short: real)
    requires short > 0.0
    ensures Gap(sqrt, cos, speed, short).Ready() && Gap(sqrt, cos, speed, short).q.PositiveHours()
  {
    var p := Gap(sqrt, cos, speed, short);
    forall u, v, e | p.q.Arc(u, v, e)
      ensures p.q.hours(e) > 0.0
    {
      GapArcs(speed, short, u, v, e);
    }
    GapTransposed(speed, short);
  }

  // ----- estimates -----

  function Apart1D(a: int, b: int): real {
    if GapPosition(a) == GapPosition(b) then 0.0 else 1.0
  }

  lemma Cancel(a: real, speed: real)
    requires speed > 0.0
    ensures a * speed / speed == a
  {
  }

  lemma GapDistance(sqrt: real -> real, speed: real, a: int, b: int, cosLat: real)
    requires IsSqrt(sqrt) && speed > 0.0
    ensures FlatDistKm(sqrt, GapPlace(speed)(a), GapPlace(speed)(b), cosLat) / speed == Apart1D(a, b)
  {
    var x, y, km := GapPosition(a), GapPosition(b), Apart1D(a, b) * speed;
    assert (y * speed / KM_PER_DEG - x * speed / KM_PER_DEG) * KM_PER_DEG == (y - x) * speed;
    assert km >= 0.0;
    MeridianDistance(sqrt, GapPlace(speed)(a), GapPlace(speed)(b), cosLat, km);
    Cancel(Apart1D(a, b), speed);
  }

  lemma GapSound(sqrt: real -> real, cos: real -> real, speed: real, short: real)
    requires IsSqrt(sqrt) && speed > 0.0 && short > 0.0
    ensures Sound(Gap(sqrt, cos, speed, short), sqrt, cos, GapPlace(speed), speed)
  {
    var p, place := Gap(sqrt, cos, speed, short), GapPlace(speed);
    forall cosLat, u, v, e | p.q.Arc(u, v, e)
      ensures FlatDistKm(sqrt, place(u), place(v), cosLat) / speed <= p.q.hours(e)
      ensures FlatDistKm(sqrt, place(v), place(u), cosLat) / speed <= p.q.hours(e)
    {
      GapArcs(speed, short, u, v, e);
      GapDistance(sqrt, speed, u, v, cosLat);
      GapDistance(sqrt, speed, v, u, cosLat);
    }
  }

  lemma GapEstimates(sqrt: real -> real, cos: real -> real, speed: real, short: real, n: int)
    requires IsSqrt(sqrt) && speed > 0.0
    ensures Gap(sqrt, cos, speed, short).Fwd().h(n) == Apart1D(n, 1)
    ensures Gap(sqrt, cos, speed, short).Bwd().h(n) == Apart1D(n, 0)
  {
    GapDistance(sqrt, speed, n, 1, cos(GapPlace(speed)(1).lat));
    GapDistance(sqrt, speed, n, 0, cos(GapPlace(speed)(0).lat));
  }

  // ----- settling one end -----

  /** The three hops out of an end, in the order in which they are relaxed. */
  datatype Fan = Fan(root: int, decoy: int, near: int, far: int, toDecoy: Edge, toNear: Edge, toFar: Edge) {
    predicate FourNodes() {
      root != decoy && root != near && root != far && decoy != near && decoy != far && near != far
    }

    predicate GapTimes(hours: Edge -> real, h: int -> real, short: real) {
      && hours(toDecoy) == 1.0 && hours(toNear) == short && hours(toFar) == 2.0
      && h(decoy) == 0.0 && h(near) == 1.0 && h(far) == 0.0
    }

    function Hops(): seq<Hop> {
      [Hop(decoy, toDecoy), Hop(near, toNear), Hop(far, toFar)]
    }

    function Bare(): Side {
      Side(map[root := 0.0], map[root := 0.0], map[], map[], map[root := 0], [])
    }

    function WithDecoy(): Side {
      Side(map[root := 0.0, decoy := 1.0], map[root := 0.0, decoy := toDecoy.distanceKm],
           map[decoy := root], map[decoy := toDecoy], map[root := 0], [Entry(decoy, 1.0, 1.0)])
    }

    function WithNear(short: real): Side {
      Side(map[root := 0.0, decoy := 1.0, near := short],
           map[root := 0.0, decoy := toDecoy.distanceKm, near := toNear.distanceKm],
           map[decoy := root, near := root], map[decoy := toDecoy, near := toNear], map[root := 0],
           [Entry(decoy, 1.0, 1.0), Entry(near, short, short + 1.0)])
    }

    /** The side after the end has been settled and expanded. */
    function Whole(short: real): Side {
      Side(map[root := 0.0, decoy := 1.0, near := short, far := 2.0],
           map[root := 0.0, decoy := toDecoy.distanceKm, near := toNear.distanceKm, far := toFar.distanceKm],
           map[decoy := root, near := root, far := root],
           map[decoy := toDecoy, near := toNear, far := toFar], map[root := 0],
           [Entry(decoy, 1.0, 1.0), Entry(near, short, short + 1.0), Entry(far, 2.0, 2.0)])
    }
  }

  lemma RelaxDecoy(f: Fan, hours: Edge -> real, h: int -> real, short: real)
    requires f.FourNodes() && f.GapTimes(hours, h, short)
    ensures Relax(f.Bare(), hours, h, f.root, f.Hops()[0]) == f.WithDecoy()
  {
  }

  lemma RelaxNear(f: Fan, hours: Edge -> real, h: int -> real, short: real)
    requires f.FourNodes() && f.GapTimes(hours, h, short)
    ensures Relax(f.WithDecoy(), hours, h, f.root, f.Hops()[1]) == f.WithNear(short)
  {
  }

  lemma RelaxFar(f: Fan, hours: Edge -> real, h: int -> real, short: real)
    requires f.FourNodes() && f.GapTimes(hours, h, short)
    ensures Relax(f.WithNear(short), hours, h, f.root, f.Hops()[2]) == f.Whole(short)
    ensures Improves(f.WithNear(short), hours, f.root, f.Hops()[2])
  {
    var r := Relax(f.WithNear(short), hours, h, f.root, f.Hops()[2]);
    assert r.g == f.Whole(short).g;
    assert r.d == f.Whole(short).d;
    assert r.link == f.Whole(short).link;
    assert r.linkEdge == f.Whole(short).linkEdge;
    assert r.queue == f.Whole(short).queue;
  }

  /** A hop to a node the other side has not reached leaves the meeting alone. */
  lemma NoMeeting(s: Half, other: Side, hours: Edge -> real, h: int -> real, cur: int, hops: seq<Hop>, hop: Hop,
                  r: Half)
    requires cur in s.me.g && s.me.d.Keys == s.me.g.Keys && other.d.Keys == other.g.Keys && hop.node !in other.g
    requires cur in r.me.g && r.me.d.Keys == r.me.g.Keys && ExpandMeet(s, other, hours, h, cur, hops) == r
    ensures ExpandMeet(s, other, hours, h, cur, hops + [hop]) == Half(Relax(r.me, hours, h, cur, hop), r.m)
  {
    assert (hops + [hop])[..|hops|] == hops;
  }

  /** A hop that meets the other side's root at no further cost. */
  lemma MeetRoot(s: Half, other: Side, hours: Edge -> real, h: int -> real, cur: int, hops: seq<Hop>, hop: Hop, r: Half)
    requires cur in s.me.g && s.me.d.Keys == s.me.g.Keys && other.d.Keys == other.g.Keys
    requires cur in r.me.g && r.me.d.Keys == r.me.g.Keys && ExpandMeet(s, other, hours, h, cur, hops) == r
    requires Improves(r.me, hours, cur, hop) && hop.node in other.g
    requires other.g[hop.node] == 0.0 && other.d[hop.node] == 0.0
    ensures var me := Relax(r.me, hours, h, cur, hop);
            hop.node in me.g && hop.node in me.d
            && ExpandMeet(s, other, hours, h, cur, hops + [hop])
               == Half(me, Offer(r.m, hop.node, me.g[hop.node], 0.0, me.d[hop.node], 0.0))
  {
    assert (hops + [hop])[..|hops|] == hops;
  }

  /** The other side has reached its own root, at no cost, and neither decoy nor near. */
  predicate Faces(f: Fan, other: Side) {
    && other.d.Keys == other.g.Keys && f.decoy !in other.g && f.near !in other.g
    && f.far in other.g && other.g[f.far] == 0.0 && other.d[f.far] == 0.0
  }

  lemma ExpandFan(f: Fan, hours: Edge -> real, h: int -> real, short: real, other: Side, m: Meeting)
    requires f.FourNodes() && f.GapTimes(hours, h, short) && Faces(f, other)
    ensures ExpandMeet(Half(f.Bare(), m), other, hours, h, f.root, f.Hops())
            == Half(f.Whole(short), Offer(m, f.far, 2.0, 0.0, f.toFar.distanceKm, 0.0))
  {
    var s, hops := Half(f.Bare(), m), f.Hops();
    RelaxDecoy(f, hours, h, short);
    RelaxNear(f, hours, h, short);
    RelaxFar(f, hours, h, short);
    NoMeeting(s, other, hours, h, f.root, [], hops[0], s);
    NoMeeting(s, other, hours, h, f.root, [] + [hops[0]], hops[1], Half(f.WithDecoy(), m));
    MeetRoot(s, other, hours, h, f.root, [] + [hops[0]] + [hops[1]], hops[2], Half(f.WithNear(short), m));
    assert [] + [hops[0]] + [hops[1]] + [hops[2]] == hops;
  }

  /** Popping a fresh entry whose own meeting check changes nothing. */
  lemma PopFresh(t: Task, rev: map<int, seq<int>>, s: Half, other: Side, settled: Side, hops: seq<Hop>)
    requires Scored(s.me) && other.d.Keys == other.g.Keys && s.me.queue != []
    requires !Stale(s.me, s.me.queue[0]) && MeetAt(s.m, s.me, other, s.me.queue[0]) == s.m
    requires settled == Settle(s.me, 0) && hops == Hops(t, rev, s.me.queue[0].node)
    ensures Pop(t, rev, s, other, 0)
            == ExpandMeet(Half(settled, s.m), other, t.q.hours, t.h, s.me.queue[0].node, hops)
  {
  }

  lemma PopFan(f: Fan, t: Task, rev: map<int, seq<int>>, me: Side, estimate: real, other: Side, m: Meeting, short: real)
    requires me == StartSide(f.root, estimate) && f.FourNodes() && f.GapTimes(t.q.hours, t.h, short)
    requires Faces(f, other) && Hops(t, rev, f.root) == f.Hops()
    requires f.root in other.g ==> m.best.Some? && m.best.value <= other.g[f.root]
    ensures Scored(me)
    ensures Pop(t, rev, Half(me, m), other, 0)
            == Half(f.Whole(short), Offer(m, f.far, 2.0, 0.0, f.toFar.distanceKm, 0.0))
  {
    assert MeetAt(m, me, other, me.queue[0]) == m;
    PopFresh(t, rev, Half(me, m), other, f.Bare(), f.Hops());
    ExpandFan(f, t.q.hours, t.h, short, other, m);
  }

  // ----- the run -----

  function ForwardFan(speed: real, short: real): Fan {
    Fan(0, 2, 3, 1, GapEdge(2, 1.0, speed), GapEdge(3, short, short), GapEdge(1, 2.0, 2.0 * speed))
  }

  function BackwardFan(speed: real, short: real): Fan {
    Fan(1, 5, 4, 0, GapEdge(1, 1.0, speed), GapEdge(1, short, short), GapEdge(1, 2.0, 2.0 * speed))
  }

  const NONE := Meeting(None, 0.0, -1)

  /** The direct edge, met at the goal. */
  function Direct(speed: real): Meeting {
    Meeting(Some(2.0), 2.0 * speed, 1)
  }

  function AfterFirst(speed: real, short: real, estimate: real): Joint {
    Joint(ForwardFan(speed, short).Whole(short), StartSide(1, estimate), Direct(speed))
  }

  function AfterSecond(speed: real, short: real): Joint {
    Joint(ForwardFan(speed, short).Whole(short), BackwardFan(speed, short).Whole(short), Direct(speed))
  }

  lemma ForwardFanHops(q: Query, speed: real, short: real)
    requires q == Query(GapNetwork(speed, short), q.permits, q.hours, {}, {}) && forall e :: q.permits(e)
    ensures ForwardHops(q, 0, q.net.Out(0)) == ForwardFan(speed, short).Hops()
  {
    var f := ForwardFan(speed, short);
    var a, b, c := f.toDecoy, f.toNear, f.toFar;
    assert q.net.Out(0) == [a, b, c];
    assert [a, b, c][..2] == [a, b] && [a, b][..1] == [a] && [a][..0] == [];
    assert q.Arc(0, 2, a) && q.Arc(0, 3, b) && q.Arc(0, 1, c);
    assert ForwardHops(q, 0, []) == [];
    assert ForwardHops(q, 0, [a]) == [Hop(2, a)];
    assert ForwardHops(q, 0, [a, b]) == [Hop(2, a), Hop(3, b)];
  }

  lemma OnlyEdgeInto(q: Query, from: int, e: Edge)
    requires (from, e.to) !in q.blockedEdges && q.permits(e)
    ensures FastestInto(q, from, e.to, [e]) == Some(e)
  {
    assert [e][..0] == [];
    assert FastestInto(q, from, e.to, []) == None;
  }

  lemma DirectEdgeInto(q: Query, speed: real, short: real)
    requires q == Query(GapNetwork(speed, short), q.permits, q.hours, {}, {}) && forall e :: q.permits(e)
    ensures FastestInto(q, 0, 1, q.net.Out(0)) == Some(GapEdge(1, 2.0, 2.0 * speed))
  {
    var f := ForwardFan(speed, short);
    var a, b, c := f.toDecoy, f.toNear, f.toFar;
    assert q.net.Out(0) == [a, b, c];
    assert [a, b, c][..2] == [a, b] && [a, b][..1] == [a] && [a][..0] == [];
    assert FastestInto(q, 0, 1, []) == None;
    assert FastestInto(q, 0, 1, [a]) == None;
    assert FastestInto(q, 0, 1, [a, b]) == None;
  }

  lemma BackwardFanHops(q: Query, speed: real, short: real)
    requires q == Query(GapNetwork(speed, short), q.permits, q.hours, {}, {}) && forall e :: q.permits(e)
    ensures BackwardHops(q, 1, In(GapReverse(), 1)) == BackwardFan(speed, short).Hops()
  {
    var f := BackwardFan(speed, short);
    assert q.net.Out(5) == [f.toDecoy] && q.net.Out(4) == [f.toNear];
    OnlyEdgeInto(q, 5, f.toDecoy);
    OnlyEdgeInto(q, 4, f.toNear);
    DirectEdgeInto(q, speed, short);
    assert In(GapReverse(), 1) == [5, 4, 0];
    assert [5, 4, 0][..2] == [5, 4] && [5, 4][..1] == [5] && [5][..0] == [];
    assert BackwardHops(q, 1, []) == [];
    assert BackwardHops(q, 1, [5]) == [Hop(5, f.toDecoy)];
    assert BackwardHops(q, 1, [5, 4]) == [Hop(5, f.toDecoy), Hop(4, f.toNear)];
  }

  /** A forward, and a backward, step whose pop is known. */
  lemma ForwardNext(p: Instance, s: Joint, r: Half)
    requires Scored(s.f) && Scored(s.b) && Tops(s, 0, 0) && !StopsAt(s, 0, 0)
    requires s.f.queue[0].gCost <= s.b.queue[0].gCost && Pop(p.Fwd(), p.rev, Half(s.f, s.m), s.b, 0) == r
    ensures Next(p, s, Joint(r.me, s.b, r.m))
  {
    assert Joint(r.me, s.b, r.m) == Advance(p, s, 0, 0);
  }

  lemma BackwardNext(p: Instance, s: Joint, r: Half)
    requires Scored(s.f) && Scored(s.b) && Tops(s, 0, 0) && !StopsAt(s, 0, 0)
    requires s.f.queue[0].gCost > s.b.queue[0].gCost && Pop(p.Bwd(), p.rev, Half(s.b, s.m), s.f, 0) == r
    ensures Next(p, s, Joint(s.f, r.me, r.m))
  {
    assert Joint(s.f, r.me, r.m) == Advance(p, s, 0, 0);
  }

  lemma FirstTops(s: Joint, f: real, b: real)
    requires s == Joint(StartSide(0, f), StartSide(1, b), NONE)
    ensures Scored(s.f) && Scored(s.b) && Tops(s, 0, 0) && !StopsAt(s, 0, 0)
    ensures s.f.queue[0].gCost <= s.b.queue[0].gCost
  {
  }

  lemma SecondTops(s: Joint, speed: real, short: real, b: real)
    requires short > 0.0 && s == AfterFirst(speed, short, b)
    ensures Scored(s.f) && Scored(s.b) && Tops(s, 0, 0) && !StopsAt(s, 0, 0)
    ensures s.f.queue[0].gCost > s.b.queue[0].gCost
  {
  }

  /** The two decoys stop the search. */
  lemma LastTops(s: Joint, speed: real, short: real)
    requires short > 0.0 && s == AfterSecond(speed, short)
    ensures Tops(s, 0, 0) && StopsAt(s, 0, 0)
  {
  }

  lemma FirstStep(sqrt: real -> real, cos: real -> real, speed: real, short: real)
    requires IsSqrt(sqrt) && speed > 0.0 && short > 0.0
    ensures var p := Gap(sqrt, cos, speed, short);
            Next(p, Initial(p), AfterFirst(speed, short, p.Bwd().h(1)))
  {
    var p, f := Gap(sqrt, cos, speed, short), ForwardFan(speed, short);
    var s := Initial(p);
    GapEstimates(sqrt, cos, speed, short, 1);
    GapEstimates(sqrt, cos, speed, short, 2);
    GapEstimates(sqrt, cos, speed, short, 3);
    ForwardFanHops(p.q, speed, short);
    FirstTops(s, p.Fwd().h(0), p.Bwd().h(1));
    PopFan(f, p.Fwd(), p.rev, s.f, p.Fwd().h(0), s.b, NONE, short);
    ForwardNext(p, s, Half(f.Whole(short), Direct(speed)));
  }

  lemma SecondStep(sqrt: real -> real, cos: real -> real, speed: real, short: real)
    requires IsSqrt(sqrt) && speed > 0.0 && short > 0.0
    ensures var p := Gap(sqrt, cos, speed, short);
            Next(p, AfterFirst(speed, short, p.Bwd().h(1)), AfterSecond(speed, short))
  {
    var p, f := Gap(sqrt, cos, speed, short), BackwardFan(speed, short);
    var s := AfterFirst(speed, short, p.Bwd().h(1));
    GapEstimates(sqrt, cos, speed, short, 0);
    GapEstimates(sqrt, cos, speed, short, 4);
    GapEstimates(sqrt, cos, speed, short, 5);
    BackwardFanHops(p.q, speed, short);
    SecondTops(s, speed, short, p.Bwd().h(1));
    PopFan(f, p.Bwd(), p.rev, s.b, p.Bwd().h(1), s.f, Direct(speed), short);
    BackwardNext(p, s, Half(f.Whole(short), Direct(speed)));
  }

  lemma GapReachable(sqrt: real -> real, cos: real -> real, speed: real, short: real)
    requires IsSqrt(sqrt) && speed > 0.0 && short > 0.0
    ensures Reachable(Gap(sqrt, cos, speed, short), AfterSecond(speed, short))
  {
    var p := Gap(sqrt, cos, speed, short);
    ReachableInitially(p);
    FirstStep(sqrt, cos, speed, short);
    ReachableNext(p, Initial(p), AfterFirst(speed, short, p.Bwd().h(1)));
    SecondStep(sqrt, cos, speed, short);
    ReachableNext(p, AfterFirst(speed, short, p.Bwd().h(1)), AfterSecond(speed, short));
  }

  lemma OutcomeOf(p: Instance, s: Joint) returns (r: SearchResult)
    requires p.Ready() && Reachable(p, s) && Halted(s) && s.m.best.Some? && s.m.node >= 0
    ensures IsOutcome(p, r) && r.Found? && r.path.timeHours == s.m.best.value
  {
    ReachableInv(p, s);
    r := Found(Stitched(p, s));
    assert Returns(p, s, r);
  }

  /** The search may return the direct edge of two hours. */
  lemma GapOutcome(sqrt: real -> real, cos: real -> real, speed: real, short: real) returns (r: SearchResult)
    requires IsSqrt(sqrt) && speed > 0.0 && short > 0.0
    ensures IsOutcome(Gap(sqrt, cos, speed, short), r) && r.Found? && r.path.timeHours == 2.0
  {
    var s := AfterSecond(speed, short);
    GapReachable(sqrt, cos, speed, short);
    GapReady(sqrt, cos, speed, short);
    LastTops(s, speed, short);
    r := OutcomeOf(Gap(sqrt, cos, speed, short), s);
  }

  /** The good route takes an hour and two short edges. */
  lemma GapRoute(q: Query, speed: real, short: real) returns (ns: seq<int>, es: seq<Edge>)
    requires short > 0.0 && q == Query(GapNetwork(speed, short), q.permits, OwnHours, {}, {})
    requires forall e :: q.permits(e)
    ensures q.Connects(ns, es, 0, 1) && Sum(q.hours, es) == 1.0 + 2.0 * short
  {
    var a, b, c := GapEdge(3, short, short), GapEdge(4, 1.0, speed), GapEdge(1, short, short);
    ns, es := [0, 3, 4, 1], [a, b, c];
    assert q.Arc(0, 3, a) && q.Arc(3, 4, b) && q.Arc(4, 1, c);
    assert [a, b, c][..2] == [a, b] && [a, b][..1] == [a] && [a][..0] == [];
    assert Sum(q.hours, []) == 0.0;
    assert Sum(q.hours, [a]) == short;
    assert Sum(q.hours, [a, b]) == short + 1.0;
  }
}
