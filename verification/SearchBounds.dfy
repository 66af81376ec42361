/** How many queue entries a search can pop on a graph built by adding nodes and edges:
    in either direction no more than one plus the number of edges added. */
module SearchBounds {
  import opened RoadNetwork
  import opened Frontier
  import opened SearchCost
  import opened Heuristic
  import opened GraphIndex
  import opened Bidirectional
  import opened BidirectionalProof
  import AStar

  function EdgesAdded(ops: seq<Op>): nat {
    if ops == [] then 0 else EdgesAdded(ops[..|ops| - 1]) + if ops[|ops| - 1].AddEdge? then 1 else 0
  }

  // ----- totals -----

  lemma {:induction false} TotalSame<T>(f: T -> nat, g: T -> nat, ns: set<T>)
    requires forall x :: x in ns ==> f(x) == g(x)
    ensures Total(f, ns) == Total(g, ns)
    decreases ns
  {
    if ns != {} {
      var x :| x in ns && Total(f, ns) == f(x) + Total(f, ns - {x});
      TotalRemove(g, ns, x);
      TotalSame(f, g, ns - {x});
    }
  }

  /** One weight grows by one, the others stay. */
  lemma TotalBump<T>(f: T -> nat, g: T -> nat, ns: set<T>, at: T)
    requires at in ns && g(at) == f(at) + 1 && forall x :: x in ns && x != at ==> g(x) == f(x)
    ensures Total(g, ns) == Total(f, ns) + 1
  {
    TotalRemove(f, ns, at);
    TotalRemove(g, ns, at);
    TotalSame(f, g, ns - {at});
  }

  /** A new element of weight zero. */
  lemma TotalNew<T>(f: T -> nat, g: T -> nat, ns: set<T>, x: T)
    requires x !in ns && g(x) == 0 && forall y :: y in ns ==> g(y) == f(y)
    ensures Total(g, ns + {x}) == Total(f, ns)
  {
    TotalRemove(g, ns + {x}, x);
    assert ns + {x} - {x} == ns;
    TotalSame(f, g, ns);
  }

  // ----- edges of a built graph -----

  function OutDegree(s: GraphState): int -> nat {
    n => |s.Out(n)|
  }

  function InDegree(s: GraphState): int -> nat {
    n => |In(s.rev, n)|
  }

  lemma SomeMember<T>(s: seq<T>)
    ensures s != [] ==> exists x :: x in s
  {
    if s != [] {
      assert s[0] in s;
    }
  }

  lemma FreshIsBare(ops: seq<Op>, id: int)
    requires LegalBuild(ops) && id !in Build(ops).places
    ensures Build(ops).Out(id) == [] && In(Build(ops).rev, id) == []
  {
    var s := Build(ops);
    BuildFlags(ops);
    BuildTranspose(ops);
    SomeMember(s.Out(id));
    forall u
      ensures u !in In(s.rev, id)
    {
      CountPositive(s.Out(u), id);
      assert multiset(In(s.rev, id))[u] == CountTo(s.Out(u), id) == 0;
    }
    SomeMember(In(s.rev, id));
  }

  lemma EdgeDegrees(s: GraphState, from: int, e: Edge, n: int)
    ensures var r := Apply(s, AddEdge(from, e));
            && OutDegree(r)(n) == OutDegree(s)(n) + (if n == from then 1 else 0)
            && InDegree(r)(n) == InDegree(s)(n) + (if n == e.to then 1 else 0)
  {
  }

  /** Both the outgoing lists and the reverse lists hold every edge once. */
  lemma {:induction false} DegreesCountEdges(ops: seq<Op>)
    requires LegalBuild(ops)
    ensures Total(OutDegree(Build(ops)), Build(ops).places.Keys) == EdgesAdded(ops)
    ensures Total(InDegree(Build(ops)), Build(ops).places.Keys) == EdgesAdded(ops)
  {
    if ops == [] {
    } else {
      var init, op := ops[..|ops| - 1], ops[|ops| - 1];
      var s, r := Build(init), Build(ops);
      DegreesCountEdges(init);
      match op
      case AddNode(id, place, flags) =>
        FreshIsBare(init, id);
        assert r.places.Keys == s.places.Keys + {id};
        TotalNew(OutDegree(s), OutDegree(r), s.places.Keys, id);
        TotalNew(InDegree(s), InDegree(r), s.places.Keys, id);
      case AddEdge(from, e) =>
        forall n
          ensures OutDegree(r)(n) == OutDegree(s)(n) + (if n == from then 1 else 0)
          ensures InDegree(r)(n) == InDegree(s)(n) + (if n == e.to then 1 else 0)
        {
          EdgeDegrees(s, from, e, n);
        }
        TotalBump(OutDegree(s), OutDegree(r), s.places.Keys, from);
        TotalBump(InDegree(s), InDegree(r), s.places.Keys, e.to);
    }
  }

  /** The edge count that bounds a search is the number of edges added, both for a search
      that follows the edges and for one that follows the reverse lists. */
  lemma EdgeCountIsEdgesAdded(ops: seq<Op>, t: Task)
    requires LegalBuild(ops) && t.q.net == Build(ops).Snapshot()
    ensures EdgeCount(t, Build(ops).rev, t.q.net.nodes) == EdgesAdded(ops)
  {
    var s := Build(ops);
    DegreesCountEdges(ops);
    assert forall n :: t.q.net.Out(n) == s.Out(n);
    if t.dir.Forward? {
      TotalSame(OutDegree(s), v => Degree(t, s.rev, v), s.places.Keys);
    } else {
      TotalSame(InDegree(s), v => Degree(t, s.rev, v), s.places.Keys);
    }
  }

  /** The pops of the unidirectional search, which never reads the reverse lists. */
  lemma AStarPops(ops: seq<Op>, q: Query, start: int, goal: int, est: Estimator, pops: nat)
    requires LegalBuild(ops) && q.net == Build(ops).Snapshot()
    requires pops <= 1 + EdgeCount(Task(q, Forward, start, est.Toward(goal)), map[], q.net.nodes)
    ensures pops <= 1 + EdgesAdded(ops)
  {
    var t := Task(q, Forward, start, est.Toward(goal));
    EdgeCountIsEdgesAdded(ops, t);
    TotalSame(v => Degree(t, map[], v), v => Degree(t, Build(ops).rev, v), q.net.nodes);
  }

  /** Searching a built graph pops at most one entry more than edges were added. */
  method SearchBuilt(ops: seq<Op>, q: Query, start: int, goal: int, est: Estimator)
    returns (r: SearchResult, ghost pops: nat)
    requires LegalBuild(ops) && q.net == Build(ops).Snapshot() && q.NonnegativeHours()
    requires start !in q.blockedNodes && goal !in q.blockedNodes
    ensures pops <= 1 + EdgesAdded(ops)
    ensures AStar.Answers(q, start, goal, true, AStar.AStarGrade(Task(q, Forward, start, est.Toward(goal))), r)
  {
    r, pops := AStar.Search(q, start, goal, est);
    AStarPops(ops, q, start, goal, est, pops);
  }

  /** Each direction of a bidirectional run pops at most one entry more than edges were
      added, and so pushes at most that many. */
  lemma RunPops(ops: seq<Op>, p: Instance, tr: seq<Joint>)
    requires LegalBuild(ops) && p.q.net == Build(ops).Snapshot() && p.rev == Build(ops).rev
    requires p.Ready() && Run(p, tr)
    ensures var k := |tr| - 1;
            && ForwardPops(tr, k) + |tr[k].f.queue| <= 1 + EdgesAdded(ops)
            && BackwardPops(tr, k) + |tr[k].b.queue| <= 1 + EdgesAdded(ops)
            && k <= 2 + 2 * EdgesAdded(ops)
  {
    RunLength(p, tr);
    EdgeCountIsEdgesAdded(ops, p.Fwd());
    EdgeCountIsEdgesAdded(ops, p.Bwd());
  }
}
