/** What the frontier invariant buys: the links of a reached node spell out a walk
    with exactly its scores, an empty queue means everything reachable was reached,
    and with a consistent heuristic no walk beats the score or the queue. */
module SearchTree {
  import opened RoadNetwork
  import opened Frontier

  function Rank(s: Side, v: int): nat {
    if v in s.closed then s.closed[v] else |s.closed|
  }

  lemma ParentRank(t: Task, s: Side, v: int)
    requires Tree(t, s) && v in s.g && v != t.root
    ensures v in s.link && v in s.linkEdge && s.link[v] in s.g && s.link[v] in s.closed
    ensures Rank(s, s.link[v]) < Rank(s, v)
  {
    assert Attached(t, s, v);
  }

  /** The nodes from v along the links to the root. */
  ghost function Chain(t: Task, s: Side, v: int): (ns: seq<int>)
    requires Tree(t, s) && v in s.g
    ensures ns != []
    decreases Rank(s, v)
  {
    if v == t.root then [v]
    else
      ParentRank(t, s, v);
      [v] + Chain(t, s, s.link[v])
  }

  ghost function ChainEdges(t: Task, s: Side, v: int): seq<Edge>
    requires Tree(t, s) && v in s.g
    decreases Rank(s, v)
  {
    if v == t.root then []
    else
      ParentRank(t, s, v);
      [s.linkEdge[v]] + ChainEdges(t, s, s.link[v])
  }

  lemma ChainUnfolds(t: Task, s: Side, v: int)
    requires Tree(t, s) && v in s.g && v in s.link
    ensures s.link[v] in s.g && v in s.linkEdge && Rank(s, s.link[v]) < Rank(s, v)
    ensures Chain(t, s, v) == [v] + Chain(t, s, s.link[v])
    ensures ChainEdges(t, s, v) == [s.linkEdge[v]] + ChainEdges(t, s, s.link[v])
  {
    ParentRank(t, s, v);
  }

  lemma ChainHead(t: Task, s: Side, v: int)
    requires Tree(t, s) && v in s.g
    ensures Chain(t, s, v)[0] == v && Chain(t, s, v) == [v] + Chain(t, s, v)[1..]
  {
  }

  /** Following one link keeps what was collected plus what is left. */
  lemma FollowLink(t: Task, s: Side, cur: int, ids: seq<int>, edges: seq<Edge>, ns: seq<int>, es: seq<Edge>)
    requires Tree(t, s) && cur in s.g && cur in s.link
    requires ids + Chain(t, s, cur)[1..] == ns && edges + ChainEdges(t, s, cur) == es
    ensures s.link[cur] in s.g && cur in s.linkEdge && Rank(s, s.link[cur]) < Rank(s, cur)
    ensures ids + [s.link[cur]] + Chain(t, s, s.link[cur])[1..] == ns
    ensures edges + [s.linkEdge[cur]] + ChainEdges(t, s, s.link[cur]) == es
  {
    ChainUnfolds(t, s, cur);
    var u := s.link[cur];
    ChainHead(t, s, u);
    assert Chain(t, s, cur)[1..] == [u] + Chain(t, s, u)[1..];
  }

  lemma NothingCollected(t: Task, s: Side, v: int)
    requires Tree(t, s) && v in s.g
    ensures [] + Chain(t, s, v)[1..] == Chain(t, s, v)[1..] && [] + ChainEdges(t, s, v) == ChainEdges(t, s, v)
    ensures [v] + Chain(t, s, v)[1..] == Chain(t, s, v)
  {
    ChainHead(t, s, v);
  }

  /** At the end of the links everything has been collected. */
  lemma LinksDone(t: Task, s: Side, cur: int, ids: seq<int>, edges: seq<Edge>, ns: seq<int>, es: seq<Edge>)
    requires Tree(t, s) && cur in s.g && (cur !in s.link || cur == t.root)
    requires ids + Chain(t, s, cur)[1..] == ns && edges + ChainEdges(t, s, cur) == es
    ensures ids == ns && edges == es
  {
    assert cur == t.root;
    assert Chain(t, s, cur)[1..] == [];
  }

  /** The chain is a step-by-step way back to the root that settles ever earlier, and
      its edges sum up to the scores of v. */
  lemma {:induction false} ChainExact(t: Task, s: Side, v: int)
    requires Tree(t, s) && v in s.g
    ensures var ns, es := Chain(t, s, v), ChainEdges(t, s, v);
            && |ns| == |es| + 1 && ns[0] == v && ns[|es|] == t.root
            && (forall i :: 0 <= i < |es| ==> t.Step(ns[i + 1], ns[i], es[i]))
            && Sum(t.q.hours, es) == s.g[v] && Sum(Km, es) == s.d[v]
    decreases Rank(s, v)
  {
    if v == t.root {
    } else {
      ParentRank(t, s, v);
      var u, e := s.link[v], s.linkEdge[v];
      ChainExact(t, s, u);
      assert Attached(t, s, v);
      var ns, es := Chain(t, s, v), ChainEdges(t, s, v);
      assert es == [e] + ChainEdges(t, s, u);
      SumConcat(t.q.hours, [e], ChainEdges(t, s, u));
      SumConcat(Km, [e], ChainEdges(t, s, u));
      SumOne(t.q.hours, e);
      SumOne(Km, e);
      forall i | 0 <= i < |es|
        ensures t.Step(ns[i + 1], ns[i], es[i])
      {
        if i > 0 {
          assert t.Step(Chain(t, s, u)[i], Chain(t, s, u)[i - 1], ChainEdges(t, s, u)[i - 1]);
        }
      }
    }
  }

  /** Along the chain the settling position strictly falls, so no node repeats; the
      score never rises, and strictly falls when every edge takes time. */
  lemma {:induction false} ChainDescends(t: Task, s: Side, v: int)
    requires Tree(t, s) && v in s.g && t.Ready()
    ensures var ns := Chain(t, s, v);
            && (forall i :: 0 <= i < |ns| ==> ns[i] in s.g)
            && (forall i :: 0 < i < |ns| ==> Rank(s, ns[i]) < Rank(s, v))
            && Distinct(ns)
            && (t.q.PositiveHours() ==> forall i :: 0 < i < |ns| ==> s.g[ns[i]] < s.g[v])
    decreases Rank(s, v)
  {
    if v == t.root {
    } else {
      ParentRank(t, s, v);
      var u, ns := s.link[v], Chain(t, s, v);
      ChainDescends(t, s, u);
      assert Attached(t, s, v);
      var rest := Chain(t, s, u);
      assert rest[0] == u;
      assert forall i :: 0 < i < |ns| ==> ns[i] == rest[i - 1];
      assert t.q.PositiveHours() ==> t.q.hours(s.linkEdge[v]) > 0.0;
    }
  }

  /** In the forward direction the reversed chain is the walk from the root to v. */
  lemma ForwardTreeWalk(t: Task, s: Side, v: int)
    requires Tree(t, s) && v in s.g && t.dir.Forward? && t.Ready()
    ensures var ns, es := Reversed(Chain(t, s, v)), Reversed(ChainEdges(t, s, v));
            && t.q.Connects(ns, es, t.root, v) && Distinct(ns)
            && Sum(t.q.hours, es) == s.g[v] && Sum(Km, es) == s.d[v]
  {
    ChainExact(t, s, v);
    ChainDescends(t, s, v);
    var cs, ds := Chain(t, s, v), ChainEdges(t, s, v);
    var ns, es := Reversed(cs), Reversed(ds);
    SumReversed(t.q.hours, ds);
    SumReversed(Km, ds);
    forall i | 0 <= i < |es|
      ensures t.q.Arc(ns[i], ns[i + 1], es[i])
    {
      var j := |ds| - 1 - i;
      assert t.Step(cs[j + 1], cs[j], ds[j]);
    }
    forall i | 0 <= i < |ns|
      ensures t.q.Usable(ns[i])
    {
      assert cs[|cs| - 1 - i] in s.g;
    }
  }

  /** In the backward direction the chain itself is the walk from v to the root. */
  lemma BackwardTreeWalk(t: Task, s: Side, v: int)
    requires Tree(t, s) && v in s.g && t.dir.Backward? && t.Ready()
    ensures var ns, es := Chain(t, s, v), ChainEdges(t, s, v);
            && t.q.Connects(ns, es, v, t.root) && Distinct(ns)
            && Sum(t.q.hours, es) == s.g[v] && Sum(Km, es) == s.d[v]
  {
    ChainExact(t, s, v);
    ChainDescends(t, s, v);
    var ns, es := Chain(t, s, v), ChainEdges(t, s, v);
    forall i | 0 <= i < |es|
      ensures t.q.Arc(ns[i], ns[i + 1], es[i])
    {
      assert t.Step(ns[i + 1], ns[i], es[i]);
    }
  }

  lemma OutwardPrefix(t: Task, ns: seq<int>, es: seq<Edge>)
    requires t.Outward(ns, es) && es != []
    ensures t.Outward(ns[..|es|], es[..|es| - 1])
    ensures t.Step(ns[|es| - 1], ns[|es|], es[|es| - 1])
    ensures Sum(t.q.hours, es) == Sum(t.q.hours, es[..|es| - 1]) + t.q.hours(es[|es| - 1])
  {
    var n := |es| - 1;
    var ms, fs := ns[..n + 1], es[..n];
    forall i | 0 <= i < n
      ensures t.Step(ms[i], ms[i + 1], fs[i])
    {
      assert t.Step(ns[i], ns[i + 1], es[i]);
    }
  }

  /** Once the queue is empty every node that the direction can reach was reached. */
  lemma {:induction false} ExhaustedReachesAll(t: Task, s: Side, ns: seq<int>, es: seq<Edge>)
    requires Inv(t, s) && s.queue == [] && t.Outward(ns, es)
    ensures ns[|es|] in s.g
    decreases |es|
  {
    if es == [] {
    } else {
      OutwardPrefix(t, ns, es);
      ExhaustedReachesAll(t, s, ns[..|es|], es[..|es| - 1]);
      assert ns[|es| - 1] in s.closed;
    }
  }

  /** v is reached with a score of at most c, or the queue promises at most c plus
      the estimate at v. */
  ghost predicate Bounded(t: Task, s: Side, v: int, c: real) {
    || (v in s.g && s.g[v] <= c)
    || exists x :: x in s.queue && x.fCost <= c + t.h(v)
  }

  lemma BoundedStep(t: Task, s: Side, u: int, v: int, e: Edge, c: real)
    requires Queued(t, s) && s.closed.Keys <= s.g.Keys && Final(t, s, {})
    requires t.Step(u, v, e) && t.h(u) <= t.q.hours(e) + t.h(v)
    requires Bounded(t, s, u, c)
    ensures Bounded(t, s, v, c + t.q.hours(e))
  {
    if u in s.g && s.g[u] <= c && u !in s.closed {
      assert Entry(u, s.g[u], s.g[u] + t.h(u)) in s.queue;
    }
  }

  /** For any walk out of the root: either its end has a score that is no worse, or
      some queue entry promises no more than the walk plus the estimate at its end. */
  lemma {:induction false} NoWalkBeatsQueue(t: Task, s: Side, ns: seq<int>, es: seq<Edge>)
    requires Inv(t, s) && t.Consistent() && t.Outward(ns, es)
    ensures Bounded(t, s, ns[|es|], Sum(t.q.hours, es))
    decreases |es|
  {
    if es == [] {
    } else {
      var n := |es| - 1;
      OutwardPrefix(t, ns, es);
      NoWalkBeatsQueue(t, s, ns[..n + 1], es[..n]);
      BoundedStep(t, s, ns[n], ns[n + 1], es[n], Sum(t.q.hours, es[..n]));
    }
  }

  lemma WalkPrefixOutward(t: Task, ns: seq<int>, es: seq<Edge>, i: nat)
    requires t.dir.Forward? && t.q.IsWalk(ns, es) && ns[0] == t.root && i <= |es|
    ensures t.Outward(ns[..i + 1], es[..i])
  {
    forall j | 0 <= j < i
      ensures t.Step(ns[..i + 1][j], ns[..i + 1][j + 1], es[..i][j])
    {
      assert t.q.Arc(ns[j], ns[j + 1], es[j]);
    }
  }

  lemma WalkSuffixOutward(t: Task, ns: seq<int>, es: seq<Edge>, i: nat)
    requires t.dir.Backward? && t.q.IsWalk(ns, es) && ns[|es|] == t.root && i <= |es|
    ensures t.Outward(Reversed(ns[i..]), Reversed(es[i..]))
    ensures Reversed(ns[i..])[|es| - i] == ns[i]
    ensures Sum(t.q.hours, Reversed(es[i..])) == Sum(t.q.hours, es[i..])
  {
    var ms, fs := Reversed(ns[i..]), Reversed(es[i..]);
    SumReversed(t.q.hours, es[i..]);
    forall j | 0 <= j < |fs|
      ensures t.Step(ms[j], ms[j + 1], fs[j])
    {
      var k := |es| - 1 - j;
      assert t.q.Arc(ns[k], ns[k + 1], es[k]);
    }
  }
}
