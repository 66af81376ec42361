/** The bidirectional search itself, in the form of loops over the edge lists. Each
    loop computes the step function of the state machine, so a call is one of its runs. */
module BidirectionalSearch {
  import opened Wrappers
  import opened RoadNetwork
  import opened Frontier
  import opened SearchTree
  import opened Heuristic
  import opened Bidirectional
  import opened BidirectionalProof
  import opened DirectEdge
  import DirectRuns
  import AStar

  /** Keeps the cheaper of two meetings, the old one on a tie. */
  method TryMeet(m: Meeting, node: int, fwd: real, bwd: real, fwdKm: real, bwdKm: real) returns (r: Meeting)
    ensures r == Offer(m, node, fwd, bwd, fwdKm, bwdKm)
    ensures r.best.Some? && r.best.value <= fwd + bwd && (m.best.Some? ==> r.best.value <= m.best.value)
    ensures r == m || r == Meeting(Some(fwd + bwd), fwdKm + bwdKm, node)
    ensures m.best.Some? && m.best.value <= fwd + bwd ==> r == m
  {
    r := m;
    var total := fwd + bwd;
    if m.best.None? || total < m.best.value {
      r := Meeting(Some(total), fwdKm + bwdKm, node);
    }
  }

  /** Relaxes one hop and checks it against the other frontier. */
  method RelaxHop(q: Query, h: int -> real, cur: int, v: int, edge: Edge, me: Side, other: Side, m: Meeting)
    returns (me': Side, m': Meeting)
    requires cur in me.g && me.d.Keys == me.g.Keys && other.d.Keys == other.g.Keys
    requires v !in me.closed
    ensures Half(me', m') == RelaxMeet(Half(me, m), other, q.hours, h, cur, Hop(v, edge))
  {
    me', m' := me, m;
    var tent := me.g[cur] + q.hours(edge);
    if v in me.g && tent >= me.g[v] {
      return;
    }
    me' := Side(me.g[v := tent], me.d[v := me.d[cur] + edge.distanceKm], me.link[v := cur],
                me.linkEdge[v := edge], me.closed, me.queue + [Entry(v, tent, tent + h(v))]);
    if v in other.g {
      m' := TryMeet(m, v, tent, other.g[v], me'.d[v], other.d[v]);
    }
  }

  lemma ExpandMeetSnoc(s: Half, other: Side, hours: Edge -> real, h: int -> real, cur: int, hops: seq<Hop>, hop: Hop)
    requires cur in s.me.g && s.me.d.Keys == s.me.g.Keys && other.d.Keys == other.g.Keys
    ensures ExpandMeet(s, other, hours, h, cur, hops + [hop])
            == RelaxMeet(ExpandMeet(s, other, hours, h, cur, hops), other, hours, h, cur, hop)
  {
    assert (hops + [hop])[..|hops|] == hops;
  }

  lemma ForwardMeetSnoc(q: Query, h: int -> real, cur: int, s0: Half, other: Side, es: seq<Edge>, i: nat)
    requires i < |es| && cur in s0.me.g && s0.me.d.Keys == s0.me.g.Keys && other.d.Keys == other.g.Keys
    ensures var s := ExpandMeet(s0, other, q.hours, h, cur, ForwardHops(q, cur, es[..i]));
            ExpandMeet(s0, other, q.hours, h, cur, ForwardHops(q, cur, es[..i + 1]))
            == if q.Arc(cur, es[i].to, es[i]) then RelaxMeet(s, other, q.hours, h, cur, Hop(es[i].to, es[i])) else s
  {
    assert es[..i + 1][..i] == es[..i];
    ExpandMeetSnoc(s0, other, q.hours, h, cur, ForwardHops(q, cur, es[..i]), Hop(es[i].to, es[i]));
    assert ForwardHops(q, cur, es[..i]) + [] == ForwardHops(q, cur, es[..i]);
  }

  lemma BackwardMeetSnoc(q: Query, h: int -> real, cur: int, s0: Half, other: Side, froms: seq<int>, i: nat)
    requires i < |froms| && cur in s0.me.g && s0.me.d.Keys == s0.me.g.Keys && other.d.Keys == other.g.Keys
    ensures var s := ExpandMeet(s0, other, q.hours, h, cur, BackwardHops(q, cur, froms[..i]));
            var best := FastestInto(q, froms[i], cur, q.net.Out(froms[i]));
            ExpandMeet(s0, other, q.hours, h, cur, BackwardHops(q, cur, froms[..i + 1]))
            == if q.Usable(froms[i]) && best.Some?
               then RelaxMeet(s, other, q.hours, h, cur, Hop(froms[i], best.value)) else s
  {
    var best := FastestInto(q, froms[i], cur, q.net.Out(froms[i]));
    assert froms[..i + 1][..i] == froms[..i];
    if best.Some? {
      ExpandMeetSnoc(s0, other, q.hours, h, cur, BackwardHops(q, cur, froms[..i]), Hop(froms[i], best.value));
    }
    assert BackwardHops(q, cur, froms[..i]) + [] == BackwardHops(q, cur, froms[..i]);
  }

  method ExpandForward(q: Query, h: int -> real, cur: int, f0: Side, b: Side, m0: Meeting) returns (f: Side, m: Meeting)
    requires q.Usable(cur) && cur in f0.g && f0.d.Keys == f0.g.Keys && b.d.Keys == b.g.Keys
    ensures Half(f, m) == ExpandMeet(Half(f0, m0), b, q.hours, h, cur, ForwardHops(q, cur, q.net.Out(cur)))
  {
    f, m := f0, m0;
    var es := q.net.Out(cur);
    for i := 0 to |es|
      invariant cur in f.g && f.d.Keys == f.g.Keys
      invariant Half(f, m) == ExpandMeet(Half(f0, m0), b, q.hours, h, cur, ForwardHops(q, cur, es[..i]))
    {
      ForwardMeetSnoc(q, h, cur, Half(f0, m0), b, es, i);
      var edge := es[i];
      if edge.to in f.closed {
        continue;
      }
      if edge.to in q.blockedNodes || (cur, edge.to) in q.blockedEdges {
        continue;
      }
      if !q.permits(edge) || edge.to !in q.net.nodes {
        continue;
      }
      f, m := RelaxHop(q, h, cur, edge.to, edge, f, b, m);
    }
    assert es[..|es|] == es;
  }

  /** The fastest permitted edge from -> cur, the first one on a tie. */
  method FindFastest(q: Query, from: int, cur: int) returns (best: Option<Edge>)
    ensures best == FastestInto(q, from, cur, q.net.Out(from))
  {
    best := None;
    var bestTime := 0.0;
    var es := q.net.Out(from);
    for i := 0 to |es|
      invariant best == FastestInto(q, from, cur, es[..i])
      invariant best.Some? ==> bestTime == q.hours(best.value)
    {
      assert es[..i + 1][..i] == es[..i];
      var e := es[i];
      if e.to != cur || (from, cur) in q.blockedEdges || !q.permits(e) {
        continue;
      }
      var t := q.hours(e);
      if best.None? || t < bestTime {
        best, bestTime := Some(e), t;
      }
    }
    assert es[..|es|] == es;
  }

  method ExpandBackward(q: Query, rev: map<int, seq<int>>, h: int -> real, cur: int, b0: Side, f: Side, m0: Meeting)
    returns (b: Side, m: Meeting)
    requires cur in b0.g && b0.d.Keys == b0.g.Keys && f.d.Keys == f.g.Keys
    ensures Half(b, m) == ExpandMeet(Half(b0, m0), f, q.hours, h, cur, BackwardHops(q, cur, In(rev, cur)))
  {
    b, m := b0, m0;
    var froms := In(rev, cur);
    for i := 0 to |froms|
      invariant cur in b.g && b.d.Keys == b.g.Keys
      invariant Half(b, m) == ExpandMeet(Half(b0, m0), f, q.hours, h, cur, BackwardHops(q, cur, froms[..i]))
    {
      BackwardMeetSnoc(q, h, cur, Half(b0, m0), f, froms, i);
      var fromID := froms[i];
      if fromID in b.closed || fromID in q.blockedNodes {
        continue;
      }
      var best := FindFastest(q, fromID, cur);
      if best.None? || fromID !in q.net.nodes {
        continue;
      }
      b, m := RelaxHop(q, h, cur, fromID, best.value, b, f, m);
    }
    assert froms[..|froms|] == froms;
  }

  /** Turns an array around in place, swapping from both ends. */
  method ReverseInPlace<T>(a: array<T>)
    modifies a
    ensures a[..] == Reversed(old(a[..]))
  {
    var i, j := 0, a.Length - 1;
    while i < j
      invariant 0 <= i <= j + 1 <= a.Length && i + j == a.Length - 1
      invariant forall k :: 0 <= k < i || j < k < a.Length ==> a[k] == old(a[a.Length - 1 - k])
      invariant forall k :: i <= k <= j ==> a[k] == old(a[k])
    {
      a[i], a[j] := a[j], a[i];
      i, j := i + 1, j - 1;
    }
  }

  method ReversedSlice<T>(s: seq<T>) returns (r: seq<T>)
    ensures r == Reversed(s)
  {
    var a := new T[|s|](i requires 0 <= i < |s| => s[i]);
    assert a[..] == s;
    ReverseInPlace(a);
    r := a[..];
  }

  /** Walks the forward links from the meeting node back to the start. */
  method CollectForward(ghost t: Task, f: Side, start: int, meeting: int) returns (ids: seq<int>, edges: seq<Edge>)
    requires Tree(t, f) && meeting in f.g && t.root == start
    ensures ids == Chain(t, f, meeting) && edges == ChainEdges(t, f, meeting)
  {
    ids, edges := [meeting], [];
    var cur := meeting;
    NothingCollected(t, f, meeting);
    while cur != start && cur in f.link
      invariant cur in f.g
      invariant ids + Chain(t, f, cur)[1..] == Chain(t, f, meeting)
      invariant edges + ChainEdges(t, f, cur) == ChainEdges(t, f, meeting)
      decreases Rank(f, cur)
    {
      FollowLink(t, f, cur, ids, edges, Chain(t, f, meeting), ChainEdges(t, f, meeting));
      edges := edges + [f.linkEdge[cur]];
      cur := f.link[cur];
      ids := ids + [cur];
    }
    LinksDone(t, f, cur, ids, edges, Chain(t, f, meeting), ChainEdges(t, f, meeting));
  }

  /** Walks the backward links from the meeting node on to the goal. */
  method CollectBackward(ghost t: Task, b: Side, goal: int, meeting: int) returns (ids: seq<int>, edges: seq<Edge>)
    requires Tree(t, b) && meeting in b.g && t.root == goal
    ensures ids == Chain(t, b, meeting)[1..] && edges == ChainEdges(t, b, meeting)
  {
    ids, edges := [], [];
    var cur := meeting;
    NothingCollected(t, b, meeting);
    while cur != goal && cur in b.link
      invariant cur in b.g
      invariant ids + Chain(t, b, cur)[1..] == Chain(t, b, meeting)[1..]
      invariant edges + ChainEdges(t, b, cur) == ChainEdges(t, b, meeting)
      decreases Rank(b, cur)
    {
      FollowLink(t, b, cur, ids, edges, Chain(t, b, meeting)[1..], ChainEdges(t, b, meeting));
      edges := edges + [b.linkEdge[cur]];
      cur := b.link[cur];
      ids := ids + [cur];
    }
    LinksDone(t, b, cur, ids, edges, Chain(t, b, meeting)[1..], ChainEdges(t, b, meeting));
  }

  method BuildBidirPath(ghost p: Instance, f: Side, b: Side, m: Meeting, start: int, goal: int) returns (r: PathResult)
    requires JointInv(p, Joint(f, b, m)) && m.best.Some? && start == p.start && goal == p.goal
    ensures r == Stitched(p, Joint(f, b, m))
  {
    var fwdIDs, fwdEdges := CollectForward(p.Fwd(), f, start, m.node);
    fwdIDs := ReversedSlice(fwdIDs);
    fwdEdges := ReversedSlice(fwdEdges);
    var bwdIDs, bwdEdges := CollectBackward(p.Bwd(), b, goal, m.node);
    r := PathResult(fwdIDs + bwdIDs, fwdEdges + bwdEdges, m.km, m.best.value);
  }

  lemma ReachableFacts(p: Instance, s: Joint)
    requires p.Ready() && Reachable(p, s)
    ensures Scored(s.f) && Scored(s.b)
    ensures forall i :: 0 <= i < |s.f.queue| ==> p.q.Usable(s.f.queue[i].node)
  {
    ReachableInv(p, s);
    ScoredByInv(p.Fwd(), s.f);
    ScoredByInv(p.Bwd(), s.b);
  }

  lemma AdvanceReachable(p: Instance, s: Joint, i: nat, j: nat)
    requires p.Ready() && Reachable(p, s) && Scored(s.f) && Scored(s.b) && Tops(s, i, j) && !StopsAt(s, i, j)
    ensures Reachable(p, Advance(p, s, i, j))
    ensures JointPotential(p, Advance(p, s, i, j)) < JointPotential(p, s)
  {
    assert Next(p, s, Advance(p, s, i, j));
    ReachableNext(p, s, Advance(p, s, i, j));
    ReachableInv(p, s);
    AdvancePays(p, s, i, j);
  }

  /** One forward iteration: pop, skip stale entries, settle, meet, expand. */
  method PopForward(ghost t: Task, ghost rev: map<int, seq<int>>, q: Query, h: int -> real, f0: Side, b: Side,
                    m0: Meeting, top: nat)
    returns (f: Side, m: Meeting)
    requires t.dir.Forward? && q == t.q && h == t.h
    requires Scored(f0) && b.d.Keys == b.g.Keys && top < |f0.queue| && q.Usable(f0.queue[top].node)
    ensures Half(f, m) == Pop(t, rev, Half(f0, m0), b, top)
  {
    var cur := f0.queue[top];
    f, m := f0.(queue := RemoveAt(f0.queue, top)), m0;
    if cur.node in f.closed {
      return;
    }
    if cur.node in f.g && cur.gCost > f.g[cur.node] {
      return;
    }
    f := f.(closed := f.closed[cur.node := |f.closed|]);
    if cur.node in b.g {
      m := TryMeet(m, cur.node, cur.gCost, b.g[cur.node], f.d[cur.node], b.d[cur.node]);
    }
    f, m := ExpandForward(q, h, cur.node, f, b, m);
  }

  method PopBackward(ghost t: Task, q: Query, rev: map<int, seq<int>>, h: int -> real, b0: Side, f: Side, m0: Meeting,
                     top: nat)
    returns (b: Side, m: Meeting)
    requires t.dir.Backward? && q == t.q && h == t.h
    requires Scored(b0) && f.d.Keys == f.g.Keys && top < |b0.queue|
    ensures Half(b, m) == Pop(t, rev, Half(b0, m0), f, top)
  {
    var cur := b0.queue[top];
    b, m := b0.(queue := RemoveAt(b0.queue, top)), m0;
    if cur.node in b.closed {
      return;
    }
    if cur.node in b.g && cur.gCost > b.g[cur.node] {
      return;
    }
    b := b.(closed := b.closed[cur.node := |b.closed|]);
    if cur.node in f.g {
      m := TryMeet(m, cur.node, f.g[cur.node], cur.gCost, f.d[cur.node], b.d[cur.node]);
    }
    b, m := ExpandBackward(q, rev, h, cur.node, b, f, m);
  }

  /** The main loop: compare the tops, stop or advance the cheaper side. */
  method RunToHalt(ghost p: Instance, q: Query, rev: map<int, seq<int>>, start: int, goal: int, est: Estimator)
    returns (f: Side, b: Side, m: Meeting)
    requires p.Ready() && p == Instance(q, rev, start, goal, est)
    ensures Reachable(p, Joint(f, b, m)) && Halted(Joint(f, b, m))
  {
    var hF, hB := est.Toward(goal), est.Toward(start);
    f := StartSide(start, hF(start));
    b := StartSide(goal, hB(goal));
    m := Meeting(None, 0.0, -1);
    ReachableInitially(p);
    while f.queue != [] || b.queue != []
      invariant Reachable(p, Joint(f, b, m))
      decreases JointPotential(p, Joint(f, b, m))
    {
      var i, j := 0, 0;
      var topF, topB := None, None;
      if f.queue != [] {
        i := PeekTop(f.queue);
        topF := Some(f.queue[i].gCost);
      }
      if b.queue != [] {
        j := PeekTop(b.queue);
        topB := Some(b.queue[j].gCost);
      }
      ghost var s := Joint(f, b, m);
      assert Tops(s, i, j) && StopsAt(s, i, j) == Stops(topF, topB, m.best);
      if Stops(topF, topB, m.best) {
        return;
      }
      ReachableFacts(p, s);
      AdvanceReachable(p, s, i, j);
      if topF.value <= topB.value {
        f, m := PopForward(p.Fwd(), rev, q, hF, f, b, m, i);
      } else {
        b, m := PopBackward(p.Bwd(), q, rev, hB, b, f, m, j);
      }
    }
    assert Tops(Joint(f, b, m), 0, 0) && StopsAt(Joint(f, b, m), 0, 0);
  }

  /** The fallback keeps every promise of the bidirectional search. */
  lemma FallbackAnswers(q: Query, start: int, goal: int, est: Estimator, r: SearchResult)
    requires q.NonnegativeHours()
    requires AStar.Answers(q, start, goal, true, AStar.AStarGrade(Task(q, Forward, start, est.Toward(goal))), r)
    ensures AStar.Answers(q, start, goal, true, Promised(q, est, start, goal), r)
  {
    var p := Instance(q, map[], start, goal, est);
    if est.speedKmH <= 0.0 {
      ZeroEstimateConsistent(p);
    } else if Steady(q, est, start) && Steady(q, est, goal) {
      SteadyConsistent(p);
    }
    if r.Found? {
      forall ns, es | q.Connects(ns, es, start, goal)
        ensures Meets(Promised(q, est, start, goal), r.path.timeHours, Sum(q.hours, es))
      {
        WalkHoursNonnegative(q, ns, es);
      }
    }
  }

  /** Bidirectional search from start to goal. Without a reverse adjacency list it
      falls back to the unidirectional search, which makes the same promises. */
  method Search(q: Query, start: int, goal: int, est: Estimator) returns (r: SearchResult)
    requires q.NonnegativeHours()
    requires start !in q.blockedNodes && goal !in q.blockedNodes
    requires q.net.rev.Some? ==> Transposed(q.net, q.net.rev.value)
    ensures AStar.Answers(q, start, goal, q.net.rev.None? || (forall n :: n in q.net.nodes ==> n >= 0),
                          Promised(q, est, start, goal), r)
    ensures q.net.rev.Some? && q.Usable(start) && q.Usable(goal) && start != goal ==>
              IsOutcome(Instance(q, q.net.rev.value, start, goal, est), r)
    ensures r.Found? && start != goal && DirectIsFastest(q, start, goal) ==> r.path.nodes == [start, goal]
  {
    if q.net.rev.None? {
      ghost var pops;
      r, pops := AStar.Search(q, start, goal, est);
      FallbackAnswers(q, start, goal, est, r);
      return;
    }
    if start !in q.net.nodes {
      return StartMissing;
    }
    if goal !in q.net.nodes {
      return GoalMissing;
    }
    ghost var complete := forall n :: n in q.net.nodes ==> n >= 0;
    if start == goal {
      AStar.TrivialAnswer(q, start, complete, Promised(q, est, start, goal));
      return Found(PathResult([start], [], 0.0, 0.0));
    }
    ghost var p := Instance(q, q.net.rev.value, start, goal, est);
    var f, b, m := RunToHalt(p, q, q.net.rev.value, start, goal, est);
    ReachableInv(p, Joint(f, b, m));
    if m.node < 0 || m.best.None? {
      r := NoPath;
    } else {
      var path := BuildBidirPath(p, f, b, m, start, goal);
      r := Found(path);
    }
    assert Returns(p, Joint(f, b, m), r);
    assert IsOutcome(p, r);
    OutcomeAnswers(p, r);
    if DirectIsFastest(q, start, goal) {
      DirectRuns.DirectOutcome(p, r);
    }
  }
}
