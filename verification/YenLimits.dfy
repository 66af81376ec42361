/** Two limits of Yen's algorithm. A first path of two nodes ends it at once, even when
    other paths exist: the code tries no spur from it. And an alternative is re-built from
    the shortest instead of the fastest parallel edges. Each has its exact condition and a
    call that shows it. */
module YenLimits {
  import opened Wrappers
  import opened RoadNetwork
  import opened Heuristic
  import opened DirectEdge
  import opened YenPaths
  import opened YenPool
  import opened YenRounds
  import opened Yen

  /** What is promised of every answer without an estimate and without a cap, on a graph
      without negative node ids. */
  ghost predicate Returned(q: Query, start: int, goal: int, k: int, paths: seq<PathResult>) {
    && 1 <= |paths| <= (if k <= 0 then 1 else k)
    && AllGood(q, start, goal, paths) && Distinctly(paths)
    && (forall i :: 0 < i < |paths| ==> Rechosen(q, paths[i]))
    && q.NoneFaster(start, goal, paths[0].timeHours)
    && (|paths[0].nodes| < 3 ==> |paths| == 1)
    && (start != goal && DirectIsFastest(q, start, goal) ==> paths[0].nodes == [start, goal])
    && (|paths| < k && |paths[0].nodes| >= 3 ==> Exhausted(q, start, goal, paths, 0))
  }

  // ----- a short first path -----

  /** Fewer than k paths were returned, although some simple path is not among them. */
  ghost predicate StopsShort(q: Query, start: int, goal: int, k: int, paths: seq<PathResult>) {
    |paths| < k && exists p :: SimplePath(q, start, goal, p) && NotIn(paths, p)
  }

  ghost predicate HasInnerNode(q: Query, start: int, goal: int) {
    exists p :: SimplePath(q, start, goal, p) && |p| > 2
  }

  /** A short first path is the direct edge, and then that is a fastest route. */
  lemma ShortIsDirect(q: Query, start: int, goal: int, x: PathResult)
    requires Request(q) && GoodPath(q, start, goal, x) && |x.nodes| < 3 && start != goal
    requires q.NoneFaster(start, goal, x.timeHours)
    ensures x.nodes == [start, goal] && DirectIsFastest(q, start, goal)
  {
    var e := x.edges[0];
    assert x.edges == [e];
    SumOne(q.hours, e);
    assert q.Arc(x.nodes[0], x.nodes[1], e);
  }

  lemma ShortPaths(start: int, goal: int, p: seq<int>)
    requires p != [] && Distinct(p) && p[0] == start && p[|p| - 1] == goal
    ensures start == goal ==> p == [start]
    ensures start != goal && |p| <= 2 ==> p == [start, goal]
  {
    assert |p| > 1 ==> p[0] != p[|p| - 1];
  }

  lemma MissingIsLong(q: Query, start: int, goal: int, k: int, paths: seq<PathResult>, p: seq<int>)
    requires Request(q) && Returned(q, start, goal, k, paths) && |paths| < k
    requires SimplePath(q, start, goal, p) && NotIn(paths, p)
    ensures DirectIsFastest(q, start, goal) && |p| > 2
  {
    var x := paths[0];
    assert x in paths && GoodPath(q, start, goal, x) && p != x.nodes;
    ShortPaths(start, goal, p);
    ShortPaths(start, goal, x.nodes);
    ShortIsDirect(q, start, goal, x);
  }

  /** Every answer to a request for two or more paths stops short of k paths exactly when
      a direct edge is a fastest route and some simple path has an inner node. */
  lemma FewerThanKExactly(q: Query, start: int, goal: int, k: int, paths: seq<PathResult>)
    requires Request(q) && k >= 2 && Returned(q, start, goal, k, paths)
    ensures StopsShort(q, start, goal, k, paths) <==>
              DirectIsFastest(q, start, goal) && HasInnerNode(q, start, goal)
  {
    if StopsShort(q, start, goal, k, paths) {
      var p :| SimplePath(q, start, goal, p) && NotIn(paths, p);
      MissingIsLong(q, start, goal, k, paths, p);
    }
    if DirectIsFastest(q, start, goal) && HasInnerNode(q, start, goal) {
      var p :| SimplePath(q, start, goal, p) && |p| > 2;
      assert p[0] != p[|p| - 1];
      assert paths == [paths[0]] && paths[0].nodes == [start, goal];
      assert NotIn(paths, p);
    }
  }

  /** A call without an estimate and without a cap, between nodes that are connected. */
  method Ask(q: Query, start: int, goal: int, k: int, est: Estimator) returns (paths: seq<PathResult>)
    requires Request(q) && Thorough(q) && est.speedKmH <= 0.0
    requires start in q.net.nodes && goal in q.net.nodes && q.HasRoute(start, goal)
    ensures Returned(q, start, goal, k, paths)
    ensures k >= 2 ==> (StopsShort(q, start, goal, k, paths) <==>
                        DirectIsFastest(q, start, goal) && HasInnerNode(q, start, goal))
  {
    var r := KFastestPaths(q, start, goal, k, 0, est);
    paths := r.paths;
    if k >= 2 {
      FewerThanKExactly(q, start, goal, k, paths);
    }
  }

  function Street(to: int, hours: real): Edge {
    Edge(to, hours, 1.0, hours, Residential, 1, 0)
  }

  /** A direct street 0 - 1 of one hour and a detour over 2 of four hours. */
  function Detour(): Query {
    Query(Network({0, 1, 2}, map[0 := [Street(1, 1.0), Street(2, 2.0)], 2 := [Street(1, 2.0)]],
                  Some(map[1 := [0, 2], 2 := [0]])),
          e => true, OwnHours, {}, {})
  }

  lemma DetourEdges(u: int, v: int, e: Edge)
    ensures e in Detour().net.Out(u) && e.to == v <==>
      || (u == 0 && v == 1 && e == Street(1, 1.0))
      || (u == 0 && v == 2 && e == Street(2, 2.0))
      || (u == 2 && v == 1 && e == Street(1, 2.0))
  {
  }

  lemma DetourRequest()
    ensures Request(Detour())
  {
    var q := Detour();
    forall u, v, e | q.Arc(u, v, e)
      ensures q.hours(e) > 0.0
    {
      DetourEdges(u, v, e);
    }
    var rev := q.net.rev.value;
    forall u, v
      ensures u in In(rev, v) <==> exists e :: e in q.net.Out(u) && e.to == v
    {
      if u in In(rev, v) {
        var e := if v == 2 then Street(2, 2.0) else if u == 0 then Street(1, 1.0) else Street(1, 2.0);
        assert e in q.net.Out(u) && e.to == v;
      }
      if e :| e in q.net.Out(u) && e.to == v {
        DetourEdges(u, v, e);
      }
    }
  }

  lemma DetourChosen()
    ensures Chosen(Detour(), 0, 1) == Some(Street(1, 1.0))
    ensures Chosen(Detour(), 0, 2) == Some(Street(2, 2.0))
    ensures Chosen(Detour(), 2, 1) == Some(Street(1, 2.0))
  {
    var q, a, b, c := Detour(), Street(1, 1.0), Street(2, 2.0), Street(1, 2.0);
    assert q.net.Out(0) == [a, b] && q.net.Out(2) == [c];
    assert [a, b][..1] == [a] && [a][..0] == [] && [c][..0] == [];
    assert ShortestTo(q.permits, 1, []) == None && ShortestTo(q.permits, 2, []) == None;
    assert ShortestTo(q.permits, 1, [a]) == Some(a) && ShortestTo(q.permits, 2, [a]) == None;
  }

  lemma DetourPaths()
    ensures SimplePath(Detour(), 0, 1, [0, 1]) && PathHours(Detour(), [0, 1]) == 1.0
    ensures SimplePath(Detour(), 0, 1, [0, 2, 1])
  {
    DetourChosen();
    var q, d := Detour(), [0, 1];
    assert d[..1] == [0];
    assert PathEdges(q, [0]) == [];
    assert PathEdges(q, d) == [Street(1, 1.0)];
    SumOne(q.hours, Street(1, 1.0));
    assert q.hours(Street(1, 1.0)) == 1.0;
  }

  /** Every edge takes an hour or more, so a path of one hour has two nodes. */
  lemma {:induction false} DetourHours(ns: seq<int>, es: seq<Edge>)
    requires Detour().IsWalk(ns, es)
    ensures Sum(Detour().hours, es) >= |es| as real
    decreases |es|
  {
    if es != [] {
      var n := |es| - 1;
      WalkPrefix(Detour(), ns, es);
      DetourHours(ns[..|es|], es[..n]);
      assert Detour().Arc(ns[n], ns[n + 1], es[n]);
      DetourEdges(ns[n], ns[n + 1], es[n]);
    }
  }

  /** Asked for two or more paths, the algorithm returns the direct street alone,
      although the detour is a simple path too. */
  lemma ShortFirstPathStops(k: int, paths: seq<PathResult>)
    requires k >= 2 && Returned(Detour(), 0, 1, k, paths)
    ensures |paths| == 1 && paths[0].nodes == [0, 1]
    ensures SimplePath(Detour(), 0, 1, [0, 2, 1]) && NotIn(paths, [0, 2, 1])
  {
    DetourPaths();
    var q, x := Detour(), paths[0];
    assert x in paths && GoodPath(q, 0, 1, x);
    PathEdgesWalk(q, [0, 1]);
    assert q.Connects([0, 1], PathEdges(q, [0, 1]), 0, 1);
    assert Meets(Best, x.timeHours, PathHours(q, [0, 1]));
    DetourHours(x.nodes, x.edges);
    assert |x.nodes| <= 2;
  }

  /** The same of an actual call. */
  method AskDetour(k: int, est: Estimator) returns (paths: seq<PathResult>)
    requires k >= 2 && est.speedKmH <= 0.0
    ensures |paths| == 1 && paths[0].nodes == [0, 1]
    ensures SimplePath(Detour(), 0, 1, [0, 2, 1]) && NotIn(paths, [0, 2, 1])
  {
    DetourRequest();
    DetourPaths();
    PathEdgesWalk(Detour(), [0, 1]);
    assert Detour().Connects([0, 1], PathEdges(Detour(), [0, 1]), 0, 1);
    paths := Ask(Detour(), 0, 1, k, est);
    ShortFirstPathStops(k, paths);
  }

  // ----- parallel edges -----

  /** The edge chosen from u to v is a fastest one. */
  ghost predicate PairFastest(q: Query, u: int, v: int) {
    forall e :: q.Arc(u, v, e) ==> Chosen(q, u, v).Some? && q.hours(Chosen(q, u, v).value) <= q.hours(e)
  }

  /** No walk over the same nodes is faster. */
  ghost predicate FastestOverNodes(q: Query, x: PathResult) {
    forall es :: q.IsWalk(x.nodes, es) ==> x.timeHours <= Sum(q.hours, es)
  }

  lemma PathHoursSnoc(q: Query, ns: seq<int>, v: int)
    requires Linked(q, ns) && ns != [] && Chosen(q, ns[|ns| - 1], v).Some?
    ensures Linked(q, ns + [v])
    ensures PathHours(q, ns + [v]) == PathHours(q, ns) + q.hours(Chosen(q, ns[|ns| - 1], v).value)
  {
    var last := Chosen(q, ns[|ns| - 1], v).value;
    PathEdgesSnoc(q, ns, v);
    SumConcat(q.hours, PathEdges(q, ns), [last]);
    SumOne(q.hours, last);
  }

  lemma PairsSnoc(q: Query, init: seq<int>, v: int, es: seq<Edge>)
    requires init != [] && Linked(q, init) && es != [] && q.Arc(init[|init| - 1], v, es[|es| - 1])
    requires PairFastest(q, init[|init| - 1], v)
    requires PathHours(q, init) <= Sum(q.hours, es[..|es| - 1])
    ensures Linked(q, init + [v]) && PathHours(q, init + [v]) <= Sum(q.hours, es)
  {
    ArcIsChosen(q, init[|init| - 1], v, es[|es| - 1]);
    PathHoursSnoc(q, init, v);
  }

  lemma {:induction false} PairsCompare(q: Query, ns: seq<int>, es: seq<Edge>)
    requires q.IsWalk(ns, es) && Linked(q, ns)
    requires forall i :: 0 <= i < |ns| - 1 ==> PairFastest(q, ns[i], ns[i + 1])
    ensures PathHours(q, ns) <= Sum(q.hours, es)
    decreases |es|
  {
    if es != [] {
      var n := |es|;
      WalkPrefix(q, ns, es);
      LinkedPrefix(q, ns, n);
      forall i | 0 <= i < n - 1
        ensures PairFastest(q, ns[..n][i], ns[..n][i + 1])
      {
        assert PairFastest(q, ns[i], ns[i + 1]);
      }
      PairsCompare(q, ns[..n], es[..n - 1]);
      assert q.Arc(ns[n - 1], ns[n], es[n - 1]) && ns == ns[..n] + [ns[n]];
      PairsSnoc(q, ns[..n], ns[n], es);
    }
  }

  lemma SumReplaced(f: Edge -> real, es: seq<Edge>, i: nat, e: Edge)
    requires i < |es|
    ensures Sum(f, es[i := e]) == Sum(f, es) - f(es[i]) + f(e)
  {
    var r := es[i := e];
    assert es == es[..i] + [es[i]] + es[i + 1..] && r == es[..i] + [e] + es[i + 1..];
    SumConcat(f, es[..i], [es[i]]);
    SumConcat(f, es[..i], [e]);
    SumConcat(f, es[..i] + [es[i]], es[i + 1..]);
    SumConcat(f, es[..i] + [e], es[i + 1..]);
    SumOne(f, es[i]);
    SumOne(f, e);
  }

  lemma ReplacedWalk(q: Query, ns: seq<int>, es: seq<Edge>, i: nat, e: Edge)
    requires q.IsWalk(ns, es) && i < |es| && q.Arc(ns[i], ns[i + 1], e)
    ensures q.IsWalk(ns, es[i := e])
  {
    var r := es[i := e];
    forall j | 0 <= j < |r|
      ensures q.Arc(ns[j], ns[j + 1], r[j])
    {
      assert j != i ==> r[j] == es[j];
    }
  }

  /** A faster edge between two neighbours makes a faster walk over the same nodes. */
  lemma FasterPairFasterWalk(q: Query, x: PathResult, i: nat, e: Edge)
    requires q.IsWalk(x.nodes, x.edges) && x.timeHours == Sum(q.hours, x.edges) && i < |x.edges|
    requires q.Arc(x.nodes[i], x.nodes[i + 1], e) && q.hours(e) < q.hours(x.edges[i])
    ensures !FastestOverNodes(q, x)
  {
    var es := x.edges[i := e];
    SumReplaced(q.hours, x.edges, i, e);
    ReplacedWalk(q, x.nodes, x.edges, i, e);
    assert x.timeHours > Sum(q.hours, es);
  }

  /** A returned alternative has the best time over its own nodes exactly when every edge
      chosen along it is a fastest one between its ends. */
  lemma AlternativeFastestExactly(q: Query, start: int, goal: int, x: PathResult)
    requires GoodPath(q, start, goal, x) && Rechosen(q, x)
    ensures FastestOverNodes(q, x) <==>
            forall i :: 0 <= i < |x.nodes| - 1 ==> PairFastest(q, x.nodes[i], x.nodes[i + 1])
  {
    var ns := x.nodes;
    PathEdgesLength(q, ns);
    if forall i :: 0 <= i < |ns| - 1 ==> PairFastest(q, ns[i], ns[i + 1]) {
      forall es | q.IsWalk(ns, es)
        ensures x.timeHours <= Sum(q.hours, es)
      {
        PairsCompare(q, ns, es);
      }
    } else {
      var i :| 0 <= i < |ns| - 1 && !PairFastest(q, ns[i], ns[i + 1]);
      var e :| q.Arc(ns[i], ns[i + 1], e) && !(q.hours(Chosen(q, ns[i], ns[i + 1]).value) <= q.hours(e));
      FasterPairFasterWalk(q, x, i, e);
    }
  }

  function Lane(to: int, km: real, hours: real): Edge {
    Edge(to, km, km, hours, Residential, 1, 0)
  }

  /** Two streets lead from 0 to 1, a short slow one and a long fast one. From 0 to 3 it
      takes three hours over 1 by the fast street, two hours over 2, and five directly. */
  function TwoStreets(): Query {
    Query(Network({0, 1, 2, 3},
                  map[0 := [Lane(1, 1.0, 10.0), Lane(1, 5.0, 2.0), Lane(2, 1.0, 1.0), Lane(3, 5.0, 5.0)],
                      1 := [Lane(3, 1.0, 1.0)], 2 := [Lane(3, 1.0, 1.0)]],
                  Some(map[1 := [0, 0], 2 := [0], 3 := [1, 2, 0]])),
          e => true, OwnHours, {}, {})
  }

  lemma TwoStreetsEdges(u: int, v: int, e: Edge)
    ensures e in TwoStreets().net.Out(u) && e.to == v <==>
      || (u == 0 && v == 1 && (e == Lane(1, 1.0, 10.0) || e == Lane(1, 5.0, 2.0)))
      || (u == 0 && v == 2 && e == Lane(2, 1.0, 1.0))
      || (u == 0 && v == 3 && e == Lane(3, 5.0, 5.0))
      || (u == 1 && v == 3 && e == Lane(3, 1.0, 1.0))
      || (u == 2 && v == 3 && e == Lane(3, 1.0, 1.0))
  {
  }

  lemma TwoStreetsRequest()
    ensures Request(TwoStreets())
  {
    var q := TwoStreets();
    forall u, v, e | q.Arc(u, v, e)
      ensures q.hours(e) > 0.0
    {
      TwoStreetsEdges(u, v, e);
    }
    var rev := q.net.rev.value;
    forall u, v
      ensures u in In(rev, v) <==> exists e :: e in q.net.Out(u) && e.to == v
    {
      if u in In(rev, v) {
        var e := if v == 1 then Lane(1, 5.0, 2.0) else if v == 2 then Lane(2, 1.0, 1.0)
                 else if u == 0 then Lane(3, 5.0, 5.0) else Lane(3, 1.0, 1.0);
        assert e in q.net.Out(u) && e.to == v;
      }
      if e :| e in q.net.Out(u) && e.to == v {
        TwoStreetsEdges(u, v, e);
      }
    }
  }

  /** Every two-edge walk of the network adds up its two edges. */
  lemma TwoEdges(ns: seq<int>, a: Edge, b: Edge)
    requires |ns| == 3 && TwoStreets().Arc(ns[0], ns[1], a) && TwoStreets().Arc(ns[1], ns[2], b)
    ensures TwoStreets().IsWalk(ns, [a, b])
    ensures Sum(TwoStreets().hours, [a, b]) == TwoStreets().hours(a) + TwoStreets().hours(b)
  {
    var q := TwoStreets();
    assert [a, b] == [a] + [b];
    SumConcat(q.hours, [a], [b]);
    SumOne(q.hours, a);
    SumOne(q.hours, b);
  }

  lemma TwoStreetsPaths(p: seq<int>, es: seq<Edge>)
    requires TwoStreets().Connects(p, es, 0, 3) && Distinct(p)
    ensures p == [0, 3] || p == [0, 1, 3] || p == [0, 2, 3]
  {
    var q := TwoStreets();
    assert |p| >= 2;
    assert q.Arc(p[0], p[1], es[0]);
    TwoStreetsEdges(p[0], p[1], es[0]);
    if p[1] == 3 {
      assert |p| == 2;
    } else {
      assert |p| >= 3 && q.Arc(p[1], p[2], es[1]);
      TwoStreetsEdges(p[1], p[2], es[1]);
      assert p[2] == 3 && |p| == 3;
    }
  }

  lemma TwoStreetsHours(p: seq<int>, es: seq<Edge>)
    requires TwoStreets().Connects(p, es, 0, 3)
    ensures p == [0, 3] ==> Sum(TwoStreets().hours, es) == 5.0
    ensures p == [0, 1, 3] ==> Sum(TwoStreets().hours, es) >= 3.0
    ensures p == [0, 1, 3] && es[0] == Lane(1, 1.0, 10.0) ==> Sum(TwoStreets().hours, es) == 11.0
    ensures p == [0, 2, 3] ==> Sum(TwoStreets().hours, es) == 2.0
  {
    var q := TwoStreets();
    if p == [0, 3] {
      assert q.Arc(0, 3, es[0]) && es == [es[0]];
      TwoStreetsEdges(0, 3, es[0]);
      SumOne(q.hours, es[0]);
    } else if |p| == 3 {
      assert q.Arc(p[0], p[1], es[0]) && q.Arc(p[1], p[2], es[1]) && es == [es[0], es[1]];
      TwoStreetsEdges(p[0], p[1], es[0]);
      TwoStreetsEdges(p[1], p[2], es[1]);
      TwoEdges(p, es[0], es[1]);
    }
  }

  lemma ShortStreetChosen()
    ensures Chosen(TwoStreets(), 0, 1) == Some(Lane(1, 1.0, 10.0))
    ensures Chosen(TwoStreets(), 0, 3).Some?
  {
    var q := TwoStreets();
    var a, b, c, d := Lane(1, 1.0, 10.0), Lane(1, 5.0, 2.0), Lane(2, 1.0, 1.0), Lane(3, 5.0, 5.0);
    assert q.net.Out(0) == [a, b, c, d];
    assert [a, b, c, d][..3] == [a, b, c] && [a, b, c][..2] == [a, b] && [a, b][..1] == [a] && [a][..0] == [];
    assert ShortestTo(q.permits, 1, []) == None;
    assert ShortestTo(q.permits, 1, [a]) == Some(a);
    assert ShortestTo(q.permits, 1, [a, b]) == Some(a);
    assert ShortestTo(q.permits, 1, [a, b, c]) == Some(a);
    ArcIsChosen(q, 0, 3, d);
  }

  /** The routes 0-2-3 and, by the fast street, 0-1-3. */
  lemma TwoStreetsRoutes()
    ensures TwoStreets().Connects([0, 2, 3], [Lane(2, 1.0, 1.0), Lane(3, 1.0, 1.0)], 0, 3)
    ensures TwoStreets().Connects([0, 1, 3], [Lane(1, 5.0, 2.0), Lane(3, 1.0, 1.0)], 0, 3)
    ensures Sum(TwoStreets().hours, [Lane(2, 1.0, 1.0), Lane(3, 1.0, 1.0)]) == 2.0
    ensures Sum(TwoStreets().hours, [Lane(1, 5.0, 2.0), Lane(3, 1.0, 1.0)]) == 3.0
  {
    TwoEdges([0, 2, 3], Lane(2, 1.0, 1.0), Lane(3, 1.0, 1.0));
    TwoEdges([0, 1, 3], Lane(1, 5.0, 2.0), Lane(3, 1.0, 1.0));
  }

  lemma TwoStreetsFirst(x: PathResult)
    requires GoodPath(TwoStreets(), 0, 3, x) && TwoStreets().NoneFaster(0, 3, x.timeHours)
    ensures x.nodes == [0, 2, 3]
  {
    var q := TwoStreets();
    TwoStreetsRoutes();
    assert Meets(Best, x.timeHours, 2.0);
    TwoStreetsPaths(x.nodes, x.edges);
    TwoStreetsHours(x.nodes, x.edges);
  }

  lemma TwoStreetsAlternative(x: PathResult)
    requires GoodPath(TwoStreets(), 0, 3, x) && Rechosen(TwoStreets(), x) && x.nodes != [0, 2, 3]
    ensures x.timeHours >= 5.0
  {
    var q := TwoStreets();
    TwoStreetsPaths(x.nodes, x.edges);
    TwoStreetsHours(x.nodes, x.edges);
    PathEdgesLength(q, x.nodes);
    ShortStreetChosen();
  }

  lemma DirectIsSimple()
    ensures SimplePath(TwoStreets(), 0, 3, [0, 3])
  {
    ShortStreetChosen();
  }

  /** Asked for two paths, the algorithm returns 0-2-3 and then a path of five hours or
      more, although the permitted walk 0-1-3 by the fast street takes three. */
  lemma ShortEdgesMisrank(paths: seq<PathResult>)
    requires Returned(TwoStreets(), 0, 3, 2, paths)
    ensures |paths| == 2 && paths[0].nodes == [0, 2, 3] && paths[1].timeHours >= 5.0
    ensures exists es :: TwoStreets().Connects([0, 1, 3], es, 0, 3) && Sum(TwoStreets().hours, es) == 3.0
  {
    assert paths[0] in paths;
    TwoStreetsFirst(paths[0]);
    DirectIsSimple();
    if |paths| < 2 {
      assert NotIn(paths, [0, 3]);
      assert false;
    }
    assert paths[1] in paths && paths[1].nodes != paths[0].nodes;
    TwoStreetsAlternative(paths[1]);
    TwoStreetsRoutes();
  }

  /** The same of an actual call. */
  method AskTwoStreets(est: Estimator) returns (paths: seq<PathResult>)
    requires est.speedKmH <= 0.0
    ensures |paths| == 2 && paths[0].nodes == [0, 2, 3] && paths[1].timeHours >= 5.0
    ensures exists es :: TwoStreets().Connects([0, 1, 3], es, 0, 3) && Sum(TwoStreets().hours, es) == 3.0
  {
    TwoStreetsRequest();
    TwoStreetsRoutes();
    paths := Ask(TwoStreets(), 0, 3, 2, est);
    ShortEdgesMisrank(paths);
  }
}
