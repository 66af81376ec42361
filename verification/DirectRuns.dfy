/** Every run of the bidirectional search whose direct edge is a fastest route returns it,
    whatever the estimate, although its stopping rule promises so little. */
module DirectRuns {
  import opened Wrappers
  import opened RoadNetwork
  import opened Frontier
  import opened SearchTree
  import opened Bidirectional
  import opened BidirectionalProof
  import opened DirectEdge

  /** The meeting changes only to a cheaper one. */
  ghost predicate OnlyCheaper(m: Meeting, r: Meeting) {
    m.best.Some? ==> r.best.Some? && r.best.value <= m.best.value && (r.best == m.best ==> r == m)
  }

  lemma {:induction false} ExpandCheaper(s: Half, other: Side, hours: Edge -> real, h: int -> real, cur: int,
                                         hops: seq<Hop>)
    requires cur in s.me.g && s.me.d.Keys == s.me.g.Keys && other.d.Keys == other.g.Keys
    ensures OnlyCheaper(s.m, ExpandMeet(s, other, hours, h, cur, hops).m)
  {
    if hops != [] {
      ExpandCheaper(s, other, hours, h, cur, hops[..|hops| - 1]);
    }
  }

  lemma PopOnlyLowers(t: Task, rev: map<int, seq<int>>, s: Half, other: Side, i: nat, v: int)
    requires Scored(s.me) && other.d.Keys == other.g.Keys && i < |s.me.queue|
    ensures var r := Pop(t, rev, s, other, i); OnlyCheaper(s.m, r.m) && OnlyLowers(s.me, r.me, v)
  {
    var x := s.me.queue[i];
    if !Stale(s.me, x) {
      var settled := Half(Settle(s.me, i), MeetAt(s.m, s.me, other, x));
      ExpandCheaper(settled, other, t.q.hours, t.h, x.node, Hops(t, rev, x.node));
      ExpandLowers(settled.me, t.q.hours, t.h, x.node, Hops(t, rev, x.node), v);
    }
  }

  /** The goal is linked straight to the start, and the two sides meet there. */
  ghost predicate MetDirectly(p: Instance, s: Joint) {
    Held(p.Fwd(), s.f, p.goal) && s.m.best.Some? && s.m.node == p.goal && s.m.best.value == s.f.g[p.goal]
  }

  lemma AdvanceLowers(p: Instance, s: Joint, i: nat, j: nat)
    requires Scored(s.f) && Scored(s.b) && Tops(s, i, j) && !StopsAt(s, i, j)
    ensures var r := Advance(p, s, i, j); OnlyCheaper(s.m, r.m) && OnlyLowers(s.f, r.f, p.goal)
  {
    AdvanceIsPop(p, s, i, j);
    if s.f.queue[i].gCost <= s.b.queue[j].gCost {
      PopOnlyLowers(p.Fwd(), p.rev, Half(s.f, s.m), s.b, i, p.goal);
    } else {
      PopOnlyLowers(p.Bwd(), p.rev, Half(s.b, s.m), s.f, j, p.goal);
    }
  }

  /** No meeting is cheaper than a route is. */
  lemma MeetingIsRoute(p: Instance, s: Joint, time: real)
    requires p.Ready() && JointInv(p, s) && s.m.best.Some? && p.q.NoneFaster(p.start, p.goal, time)
    ensures time <= s.m.best.value
  {
    StitchedExact(p, s);
    assert Meets(Best, time, s.m.best.value);
  }

  lemma SameMeeting(p: Instance, s: Joint, r: Joint)
    requires MetDirectly(p, s) && Held(p.Fwd(), r.f, p.goal) && r.f.g[p.goal] == s.f.g[p.goal]
    requires OnlyCheaper(s.m, r.m) && r.m.best.Some? && s.f.g[p.goal] <= r.m.best.value
    ensures MetDirectly(p, r)
  {
  }

  lemma BothTrees(p: Instance, s: Joint)
    requires JointInv(p, s)
    ensures Tree(p.Fwd(), s.f) && Tree(p.Bwd(), s.b)
  {
  }

  lemma ForwardHeld(p: Instance, s: Joint, r: Joint)
    requires p.Ready() && JointInv(p, r) && Held(p.Fwd(), s.f, p.goal) && OnlyLowers(s.f, r.f, p.goal)
    ensures Held(p.Fwd(), r.f, p.goal) && r.f.g[p.goal] == s.f.g[p.goal]
  {
    BothTrees(p, r);
    HeldAfter(p.Fwd(), s.f, r.f, p.goal);
  }

  lemma AdvanceMetDirectly(p: Instance, s: Joint, i: nat, j: nat)
    requires p.Ready() && JointInv(p, s) && MetDirectly(p, s)
    requires Scored(s.f) && Scored(s.b) && Tops(s, i, j) && !StopsAt(s, i, j)
    ensures MetDirectly(p, Advance(p, s, i, j))
  {
    AdvanceLowers(p, s, i, j);
    AdvanceInv(p, s, i, j);
    var r := Advance(p, s, i, j);
    ForwardHeld(p, s, r);
    MeetingIsRoute(p, r, s.f.g[p.goal]);
    SameMeeting(p, s, r);
  }

  /** The first step expands the start, and the sides meet at the goal. */
  lemma FirstMetDirectly(p: Instance, i: nat, j: nat)
    requires p.Ready() && DirectIsFastest(p.q, p.start, p.goal)
    requires Tops(Initial(p), i, j) && !StopsAt(Initial(p), i, j)
    ensures MetDirectly(p, Advance(p, Initial(p), i, j))
  {
    var s := Initial(p);
    var t := p.Fwd();
    var r := Advance(p, s, i, j);
    InitialInv(p);
    AdvanceInv(p, s, i, j);
    AdvanceIsPop(p, s, i, j);
    assert i == 0 && j == 0;
    assert r.b == s.b && r.f == Expand(Settle(s.f, 0), t.q.hours, t.h, p.start, Hops(t, p.rev, p.start));
    FirstHeld(t, Settle(s.f, 0), p.rev, p.goal);
    RootScores(p, r);
    assert r.m.best.Some? && r.m.node in r.b.g;
  }

  lemma {:induction false} RunMetDirectly(p: Instance, tr: seq<Joint>, k: nat)
    requires p.Ready() && DirectIsFastest(p.q, p.start, p.goal) && Run(p, tr) && 0 < k < |tr|
    ensures MetDirectly(p, tr[k])
  {
    assert Next(p, tr[k - 1], tr[k]);
    var i, j :| Tops(tr[k - 1], i, j) && !StopsAt(tr[k - 1], i, j) && tr[k] == Advance(p, tr[k - 1], i, j);
    if k == 1 {
      FirstMetDirectly(p, i, j);
    } else {
      RunMetDirectly(p, tr, k - 1);
      RunInv(p, tr, k - 1);
      AdvanceMetDirectly(p, tr[k - 1], i, j);
    }
  }

  lemma InitialGoesOn(p: Instance)
    ensures !Halted(Initial(p))
  {
  }

  lemma HaltedMetDirectly(p: Instance, s: Joint)
    requires p.Ready() && DirectIsFastest(p.q, p.start, p.goal) && Reachable(p, s) && Halted(s)
    ensures MetDirectly(p, s)
  {
    var tr :| Run(p, tr) && tr[|tr| - 1] == s;
    InitialGoesOn(p);
    assert |tr| > 1;
    RunMetDirectly(p, tr, |tr| - 1);
  }

  lemma RootChain(t: Task, s: Side)
    requires Tree(t, s)
    ensures Chain(t, s, t.root) == [t.root] && Chain(t, s, t.root)[1..] == []
  {
  }

  lemma StitchedDirectly(p: Instance, s: Joint)
    requires JointInv(p, s) && MetDirectly(p, s)
    ensures Stitched(p, s).nodes == [p.start, p.goal]
    ensures p.q.NoneFaster(p.start, p.goal, Stitched(p, s).timeHours)
  {
    BothTrees(p, s);
    HeldChain(p.Fwd(), s.f, p.goal);
    RootChain(p.Bwd(), s.b);
  }

  lemma ReturnsStitched(p: Instance, s: Joint, r: SearchResult)
    requires JointInv(p, s) && s.m.best.Some? && Returns(p, s, r)
    ensures r == if s.m.node < 0 then NoPath else Found(Stitched(p, s))
  {
  }

  /** Every outcome of every run is the direct edge, or nothing when the goal's id is
      negative; no estimate, tie or stopping test can lead elsewhere. */
  lemma DirectOutcome(p: Instance, r: SearchResult)
    requires p.Ready() && DirectIsFastest(p.q, p.start, p.goal) && IsOutcome(p, r)
    ensures r.Found? <==> p.goal >= 0
    ensures r.Found? ==> r.path.nodes == [p.start, p.goal] && p.q.NoneFaster(p.start, p.goal, r.path.timeHours)
  {
    var s :| Reachable(p, s) && Halted(s) && JointInv(p, s) && Returns(p, s, r);
    HaltedMetDirectly(p, s);
    StitchedDirectly(p, s);
    ReturnsStitched(p, s, r);
  }
}
