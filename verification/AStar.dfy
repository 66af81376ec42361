/** The unidirectional search and the reconstruction of its path. */
module AStar {
  import opened RoadNetwork
  import opened Frontier
  import opened SearchTree
  import opened Heuristic
  import opened SearchCost
  import opened DirectEdge

  lemma ExpandSnoc(s: Side, hours: Edge -> real, h: int -> real, cur: int, hops: seq<Hop>, hop: Hop)
    requires cur in s.g && cur in s.d
    ensures Expand(s, hours, h, cur, hops + [hop]) == Relax(Expand(s, hours, h, cur, hops), hours, h, cur, hop)
  {
    assert (hops + [hop])[..|hops|] == hops;
  }

  /** One more edge in the list: one more relaxation if the edge passes the filters. */
  lemma ForwardSnoc(q: Query, h: int -> real, cur: int, s0: Side, es: seq<Edge>, i: nat)
    requires i < |es| && cur in s0.g && cur in s0.d
    ensures var s := Expand(s0, q.hours, h, cur, ForwardHops(q, cur, es[..i]));
            Expand(s0, q.hours, h, cur, ForwardHops(q, cur, es[..i + 1]))
            == if q.Arc(cur, es[i].to, es[i]) then Relax(s, q.hours, h, cur, Hop(es[i].to, es[i])) else s
  {
    assert es[..i + 1][..i] == es[..i];
    ExpandSnoc(s0, q.hours, h, cur, ForwardHops(q, cur, es[..i]), Hop(es[i].to, es[i]));
    assert ForwardHops(q, cur, es[..i]) + [] == ForwardHops(q, cur, es[..i]);
  }

  /** Relaxes one edge out of the node just settled. */
  method RelaxEdge(q: Query, h: int -> real, cur: int, edge: Edge, s: Side) returns (r: Side)
    requires q.Usable(cur) && cur in s.g && cur in s.d && edge in q.net.Out(cur)
    ensures r == if q.Arc(cur, edge.to, edge) then Relax(s, q.hours, h, cur, Hop(edge.to, edge)) else s
  {
    r := s;
    if edge.to in s.closed {
      return;
    }
    if edge.to in q.blockedNodes || (cur, edge.to) in q.blockedEdges {
      return;
    }
    if !q.permits(edge) || edge.to !in q.net.nodes {
      return;
    }
    var tent := s.g[cur] + q.hours(edge);
    if edge.to !in s.g || tent < s.g[edge.to] {
      r := Side(s.g[edge.to := tent], s.d[edge.to := s.d[cur] + edge.distanceKm],
                s.link[edge.to := cur], s.linkEdge[edge.to := edge], s.closed,
                s.queue + [Entry(edge.to, tent, tent + h(edge.to))]);
    }
  }

  /** Relaxes every edge out of the node just settled, in list order. */
  method ExpandNode(q: Query, h: int -> real, cur: int, s0: Side) returns (s: Side)
    requires q.Usable(cur) && cur in s0.g && cur in s0.d && cur in s0.closed
    ensures s == Expand(s0, q.hours, h, cur, ForwardHops(q, cur, q.net.Out(cur)))
  {
    s := s0;
    var es := q.net.Out(cur);
    for i := 0 to |es|
      invariant cur in s.g && cur in s.d
      invariant s == Expand(s0, q.hours, h, cur, ForwardHops(q, cur, es[..i]))
    {
      ForwardSnoc(q, h, cur, s0, es, i);
      s := RelaxEdge(q, h, cur, es[i], s);
    }
    assert es[..|es|] == es;
  }

  /** Copies a sequence back to front. */
  method CopyReversed<T>(s: seq<T>) returns (r: seq<T>)
    ensures r == Reversed(s)
  {
    var out := new T[|s|](i requires 0 <= i < |s| => s[i]);
    for i := 0 to |s|
      invariant forall j :: 0 <= j < i ==> out[|s| - 1 - j] == s[j]
    {
      out[|s| - 1 - i] := s[i];
    }
    r := out[..];
    forall k | 0 <= k < |s|
      ensures r[k] == s[|s| - 1 - k]
    {
      var j := |s| - 1 - k;
      assert out[|s| - 1 - j] == s[j];
    }
  }

  /** Follows the links from the goal to the root and turns the list around. */
  method BuildPath(ghost t: Task, s: Side, goal: int) returns (p: PathResult)
    requires Tree(t, s) && goal in s.g
    ensures p.nodes == Reversed(Chain(t, s, goal)) && p.edges == Reversed(ChainEdges(t, s, goal))
    ensures p.timeHours == s.g[goal] && p.distanceKm == s.d[goal]
  {
    var ids, reverseEdges := [goal], [];
    var cur := goal;
    NothingCollected(t, s, goal);
    while cur in s.link
      invariant cur in s.g
      invariant ids + Chain(t, s, cur)[1..] == Chain(t, s, goal)
      invariant reverseEdges + ChainEdges(t, s, cur) == ChainEdges(t, s, goal)
      decreases Rank(s, cur)
    {
      FollowLink(t, s, cur, ids, reverseEdges, Chain(t, s, goal), ChainEdges(t, s, goal));
      reverseEdges := reverseEdges + [s.linkEdge[cur]];
      cur := s.link[cur];
      ids := ids + [cur];
    }
    LinksDone(t, s, cur, ids, reverseEdges, Chain(t, s, goal), ChainEdges(t, s, goal));
    var nodes := CopyReversed(ids);
    var edges := CopyReversed(reverseEdges);
    p := PathResult(nodes, edges, s.d[goal], s.g[goal]);
  }

  /** What both searches promise: the errors for missing ends, "no path" only when
      there is none (if `complete`), and an exact route, which visits no node twice when
      all times are positive and whose time is as good as the grade says. */
  ghost predicate Answers(q: Query, start: int, goal: int, complete: bool, grade: Grade, r: SearchResult) {
    && (r.StartMissing? <==> start !in q.net.nodes)
    && (r.GoalMissing? <==> start in q.net.nodes && goal !in q.net.nodes)
    && (r.NoPath? && complete ==> !q.HasRoute(start, goal))
    && (r.Found? ==> ExactRoute(q, start, goal, r.path))
    && (r.Found? && q.PositiveHours() ==> Distinct(r.path.nodes))
    && (r.Found? ==> q.Graded(start, goal, grade, r.path.timeHours))
  }

  /** The answer is "no path" exactly when no permitted, unblocked walk exists. */
  lemma AnswersNoPath(q: Query, start: int, goal: int, grade: Grade, r: SearchResult)
    requires start in q.net.nodes && goal in q.net.nodes && Answers(q, start, goal, true, grade, r)
    ensures r.NoPath? <==> !q.HasRoute(start, goal)
  {
    if r.Found? {
      assert q.Connects(r.path.nodes, r.path.edges, start, goal);
    }
  }

  /** Any two complete and exact answers agree: the bidirectional search costs what the
      unidirectional one does, and its fallback changes nothing. */
  lemma AnswersAgree(q: Query, start: int, goal: int, a: SearchResult, b: SearchResult)
    requires Answers(q, start, goal, true, Best, a) && Answers(q, start, goal, true, Best, b)
    ensures a.Found? <==> b.Found?
    ensures a.Found? ==> a.path.timeHours == b.path.timeHours
    ensures !a.Found? ==> a == b
  {
    if a.Found? {
      assert q.Connects(a.path.nodes, a.path.edges, start, goal);
    }
    if b.Found? {
      assert q.Connects(b.path.nodes, b.path.edges, start, goal);
    }
  }

  lemma TrivialAnswer(q: Query, start: int, complete: bool, grade: Grade)
    requires q.Usable(start) && q.NonnegativeHours()
    ensures Answers(q, start, start, complete, grade, Found(PathResult([start], [], 0.0, 0.0)))
  {
    var p := PathResult([start], [], 0.0, 0.0);
    assert q.Connects([start], [], start, start);
    forall ns, es | q.Connects(ns, es, start, start)
      ensures Meets(grade, p.timeHours, Sum(q.hours, es))
    {
      WalkHoursNonnegative(q, ns, es);
    }
  }

  /** What the unidirectional search promises. */
  ghost function AStarGrade(t: Task): Grade {
    if t.Consistent() then Best else AnyTime
  }

  /** Popping the goal: its walk is exact, and optimal under a consistent estimate. */
  lemma GoalPopped(t: Task, s: Side, top: nat, goal: int, p: PathResult)
    requires t.dir.Forward? && t.Ready() && Inv(t, s)
    requires IsTop(s.queue, top) && !Stale(s, s.queue[top]) && s.queue[top].node == goal
    requires p.nodes == Reversed(Chain(t, s, goal)) && p.edges == Reversed(ChainEdges(t, s, goal))
    requires p.timeHours == s.g[goal] && p.distanceKm == s.d[goal]
    ensures Answers(t.q, t.root, goal, true, AStarGrade(t), Found(p))
  {
    ForwardTreeWalk(t, s, goal);
    assert s.queue[top] in s.queue;
    if t.Consistent() {
      forall ns, es | t.q.Connects(ns, es, t.root, goal)
        ensures s.g[goal] <= Sum(t.q.hours, es)
      {
        WalkPrefixOutward(t, ns, es, |es|);
        assert ns[..|es| + 1] == ns && es[..|es|] == es;
        NoWalkBeatsQueue(t, s, ns, es);
        assert Bounded(t, s, goal, Sum(t.q.hours, es));
      }
    }
  }

  lemma QueueExhausted(t: Task, s: Side, goal: int)
    requires t.dir.Forward? && Inv(t, s) && s.queue == [] && goal !in s.closed
    ensures !t.q.HasRoute(t.root, goal)
  {
    if ns, es :| t.q.Connects(ns, es, t.root, goal) {
      WalkPrefixOutward(t, ns, es, |es|);
      assert ns[..|es| + 1] == ns && es[..|es|] == es;
      assert ns[|es|] == goal;
      ExhaustedReachesAll(t, s, ns, es);
    }
  }

  lemma ForwardCovers(t: Task, cur: int)
    requires t.dir.Forward? && t.q.Usable(cur)
    ensures Covers(t, cur, ForwardHops(t.q, cur, t.q.net.Out(cur)))
  {
    var es := t.q.net.Out(cur);
    var hops := ForwardHops(t.q, cur, es);
    ForwardHopsCover(t.q, cur, es);
    forall v, e | t.Step(cur, v, e)
      ensures exists i :: 0 <= i < |hops| && hops[i].node == v && t.q.hours(hops[i].edge) <= t.q.hours(e)
    {
      assert t.q.Arc(cur, e.to, e) && e in es;
      var i :| 0 <= i < |hops| && hops[i] == Hop(e.to, e);
      assert hops[i].node == v;
    }
  }

  lemma {:induction false} ChainIgnoresQueue(t: Task, s: Side, r: Side, v: int)
    requires Tree(t, s) && Tree(t, r) && r == s.(queue := r.queue) && v in s.g
    ensures Chain(t, s, v) == Chain(t, r, v) && ChainEdges(t, s, v) == ChainEdges(t, r, v)
    decreases Rank(s, v)
  {
    if v != t.root {
      ParentRank(t, s, v);
      ParentRank(t, r, v);
      ChainIgnoresQueue(t, s, r, s.link[v]);
    }
  }

  /** A* from start to goal with a closed set that never reopens a node. It pops at most
      one entry more than the graph has edges. A direct edge that is a fastest route is
      the answer, whatever the estimate. */
  method Search(q: Query, start: int, goal: int, est: Estimator) returns (r: SearchResult, ghost pops: nat)
    requires q.NonnegativeHours()
    requires start !in q.blockedNodes && goal !in q.blockedNodes
    ensures Answers(q, start, goal, true, AStarGrade(Task(q, Forward, start, est.Toward(goal))), r)
    ensures pops <= 1 + EdgeCount(Task(q, Forward, start, est.Toward(goal)), map[], q.net.nodes)
    ensures r.Found? && start != goal && DirectIsFastest(q, start, goal) ==> r.path.nodes == [start, goal]
  {
    pops := 0;
    if start !in q.net.nodes {
      return StartMissing, 0;
    }
    if goal !in q.net.nodes {
      return GoalMissing, 0;
    }
    var h := est.Toward(goal);
    ghost var t := Task(q, Forward, start, h);
    if start == goal {
      TrivialAnswer(q, start, true, AStarGrade(t));
      return Found(PathResult([start], [], 0.0, 0.0)), 0;
    }

    var s := StartSide(start, h(start));
    StartInv(t);
    StartPotential(t, map[], h(start));
    while s.queue != []
      invariant Inv(t, s) && goal !in s.closed && OnCourse(t, s, goal)
      invariant pops + Potential(t, map[], s) <= 1 + EdgeCount(t, map[], q.net.nodes)
      decreases Potential(t, map[], s)
    {
      var top := PeekTop(s.queue);
      var cur := s.queue[top];
      ghost var before := s;
      s := s.(queue := RemoveAt(s.queue, top));
      pops := pops + 1;
      if cur.node in s.closed || (cur.node in s.g && cur.gCost > s.g[cur.node]) {
        DiscardInv(t, before, top);
        DiscardPays(t, map[], before, top);
        CourseDiscard(t, before, top, goal);
        continue;
      }
      if cur.node == goal {
        assert before.queue[top] in before.queue;
        SameTree(t, before, s);
        var p := BuildPath(t, s, goal);
        ChainIgnoresQueue(t, before, s, goal);
        GoalPopped(t, before, top, goal, p);
        if DirectIsFastest(q, start, goal) {
          CourseEnds(t, before, top, goal);
        }
        return Found(p), pops;
      }
      s := s.(closed := s.closed[cur.node := |s.closed|]);
      assert s == Settle(before, top);
      SettleMid(t, before, top);
      ghost var settled := s;
      s := ExpandNode(q, h, cur.node, s);
      ForwardCovers(t, cur.node);
      ExpandInv(t, settled, cur.node, ForwardHops(q, cur.node, q.net.Out(cur.node)));
      ExpandPays(t, map[], before, top);
      CourseExpand(t, before, top, map[], goal);
    }
    QueueExhausted(t, s, goal);
    return NoPath, pops;
  }
}
