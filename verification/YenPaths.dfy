/** Node sequences and the edges chosen for them: between two nodes Yen's algorithm
    re-chooses the shortest permitted parallel edge, so a node sequence has one time. */
module YenPaths {
  import opened Wrappers
  import opened RoadNetwork

  /** The shortest permitted edge to `to` in a list, the first one on a tie. */
  function ShortestTo(permits: Edge -> bool, to: int, es: seq<Edge>): Option<Edge> {
    if es == [] then None
    else
      var best, e := ShortestTo(permits, to, es[..|es| - 1]), es[|es| - 1];
      if e.to == to && permits(e) && (best.None? || e.distanceKm < best.value.distanceKm) then Some(e) else best
  }

  function Chosen(q: Query, u: int, v: int): Option<Edge> {
    ShortestTo(q.permits, v, q.net.Out(u))
  }

  ghost predicate Linked(q: Query, ns: seq<int>) {
    forall i :: 0 <= i < |ns| - 1 ==> Chosen(q, ns[i], ns[i + 1]).Some?
  }

  lemma LinkedPrefix(q: Query, ns: seq<int>, n: nat)
    requires Linked(q, ns) && n <= |ns|
    ensures Linked(q, ns[..n])
  {
    forall i | 0 <= i < |ns[..n]| - 1
      ensures Chosen(q, ns[..n][i], ns[..n][i + 1]).Some?
    {
      assert Chosen(q, ns[i], ns[i + 1]).Some?;
    }
  }

  ghost function PathEdges(q: Query, ns: seq<int>): (es: seq<Edge>)
    requires Linked(q, ns)
  {
    if |ns| <= 1 then []
    else
      var n := |ns| - 1;
      assert Chosen(q, ns[n - 1], ns[n - 1 + 1]).Some?;
      LinkedPrefix(q, ns, n);
      PathEdges(q, ns[..n]) + [Chosen(q, ns[n - 1], ns[n]).value]
  }

  ghost function PathHours(q: Query, ns: seq<int>): real
    requires Linked(q, ns)
  {
    Sum(q.hours, PathEdges(q, ns))
  }

  /** A loopless node sequence from start to goal with a permitted edge at every step. */
  ghost predicate SimplePath(q: Query, start: int, goal: int, ns: seq<int>) {
    && ns != [] && ns[0] == start && ns[|ns| - 1] == goal
    && Distinct(ns)
    && (forall i :: 0 <= i < |ns| ==> ns[i] in q.net.nodes)
    && Linked(q, ns)
  }

  /** The base query blocks nothing; spur searches add blocks to it. */
  ghost predicate Unblocked(q: Query) {
    q.blockedEdges == {} && q.blockedNodes == {}
  }

  /** No permitted edge is faster than the one chosen between its ends. */
  ghost predicate ChosenFastest(q: Query) {
    forall u, e :: e in q.net.Out(u) && q.permits(e) && u in q.net.nodes && e.to in q.net.nodes ==>
      Chosen(q, u, e.to).Some? && q.hours(Chosen(q, u, e.to).value) <= q.hours(e)
  }

  lemma LinkedSuffix(q: Query, ns: seq<int>, n: nat)
    requires Linked(q, ns) && n <= |ns|
    ensures Linked(q, ns[n..])
  {
    forall i | 0 <= i < |ns[n..]| - 1
      ensures Chosen(q, ns[n..][i], ns[n..][i + 1]).Some?
    {
      assert Chosen(q, ns[n + i], ns[n + i + 1]).Some?;
    }
  }

  /** The chosen edge is permitted and no permitted parallel edge is shorter; it exists
      exactly when a permitted edge does. */
  lemma {:induction false} ShortestToIsShortest(permits: Edge -> bool, to: int, es: seq<Edge>)
    ensures var best := ShortestTo(permits, to, es);
            && (best.Some? ==> best.value in es && best.value.to == to && permits(best.value))
            && (forall e :: e in es && e.to == to && permits(e) ==>
                  best.Some? && best.value.distanceKm <= e.distanceKm)
  {
    if es != [] {
      ShortestToIsShortest(permits, to, es[..|es| - 1]);
      assert es == es[..|es| - 1] + [es[|es| - 1]];
    }
  }

  lemma ChosenIsArc(q: Query, u: int, v: int)
    requires Chosen(q, u, v).Some? && q.Usable(u) && q.Usable(v) && (u, v) !in q.blockedEdges
    ensures q.Arc(u, v, Chosen(q, u, v).value)
  {
    ShortestToIsShortest(q.permits, v, q.net.Out(u));
  }

  lemma ArcIsChosen(q: Query, u: int, v: int, e: Edge)
    requires q.Arc(u, v, e)
    ensures Chosen(q, u, v).Some?
    ensures ChosenFastest(q) ==> q.hours(Chosen(q, u, v).value) <= q.hours(e)
  {
    ShortestToIsShortest(q.permits, v, q.net.Out(u));
  }

  lemma {:induction false} PathEdgesLength(q: Query, ns: seq<int>)
    requires Linked(q, ns) && ns != []
    ensures |PathEdges(q, ns)| == |ns| - 1
    ensures forall i :: 0 <= i < |ns| - 1 ==> Chosen(q, ns[i], ns[i + 1]).Some?
                                              && PathEdges(q, ns)[i] == Chosen(q, ns[i], ns[i + 1]).value
  {
    if |ns| > 1 {
      var n := |ns| - 1;
      LinkedPrefix(q, ns, n);
      PathEdgesLength(q, ns[..n]);
      var es := PathEdges(q, ns[..n]);
      forall i | 0 <= i < n
        ensures Chosen(q, ns[i], ns[i + 1]).Some? && PathEdges(q, ns)[i] == Chosen(q, ns[i], ns[i + 1]).value
      {
        if i < n - 1 {
          assert es[i] == Chosen(q, ns[..n][i], ns[..n][i + 1]).value;
        }
      }
    }
  }

  /** The chosen edges of usable, unblocked nodes form a walk. */
  lemma PathEdgesWalk(q: Query, ns: seq<int>)
    requires Linked(q, ns) && ns != [] && (forall i :: 0 <= i < |ns| ==> q.Usable(ns[i]))
    requires forall i :: 0 <= i < |ns| - 1 ==> (ns[i], ns[i + 1]) !in q.blockedEdges
    ensures q.IsWalk(ns, PathEdges(q, ns))
  {
    PathEdgesLength(q, ns);
    forall i | 0 <= i < |ns| - 1
      ensures q.Arc(ns[i], ns[i + 1], PathEdges(q, ns)[i])
    {
      ChosenIsArc(q, ns[i], ns[i + 1]);
    }
  }

  lemma WalkPrefix(q: Query, ns: seq<int>, es: seq<Edge>)
    requires q.IsWalk(ns, es) && es != []
    ensures q.IsWalk(ns[..|es|], es[..|es| - 1])
  {
    forall i | 0 <= i < |es| - 1
      ensures q.Arc(ns[..|es|][i], ns[..|es|][i + 1], es[..|es| - 1][i])
    {
      assert q.Arc(ns[i], ns[i + 1], es[i]);
    }
  }

  /** Any walk runs over linked nodes, and its chosen edges are no slower when the
      shortest parallel edge is also the fastest. */
  lemma {:induction false} WalkLinked(q: Query, ns: seq<int>, es: seq<Edge>)
    requires q.IsWalk(ns, es)
    ensures Linked(q, ns)
    ensures ChosenFastest(q) ==> PathHours(q, ns) <= Sum(q.hours, es)
    decreases |es|
  {
    forall i | 0 <= i < |ns| - 1
      ensures Chosen(q, ns[i], ns[i + 1]).Some?
    {
      ArcIsChosen(q, ns[i], ns[i + 1], es[i]);
    }
    if es != [] {
      var n := |es|;
      WalkPrefix(q, ns, es);
      WalkLinked(q, ns[..n], es[..n - 1]);
      ArcIsChosen(q, ns[n - 1], ns[n], es[n - 1]);
      var init, last := PathEdges(q, ns[..n]), Chosen(q, ns[n - 1], ns[n]).value;
      assert PathEdges(q, ns) == init + [last];
      SumConcat(q.hours, init, [last]);
      SumOne(q.hours, last);
    }
  }

  ghost predicate NeverSlower(q: Query) {
    forall ns, es :: q.IsWalk(ns, es) ==> Linked(q, ns) && PathHours(q, ns) <= Sum(q.hours, es)
  }

  lemma SingleWalk(q: Query, u: int, e: Edge)
    requires q.Arc(u, e.to, e)
    ensures q.IsWalk([u, e.to], [e]) && Chosen(q, u, e.to).Some?
    ensures Linked(q, [u, e.to]) && PathHours(q, [u, e.to]) == q.hours(Chosen(q, u, e.to).value)
  {
    ArcIsChosen(q, u, e.to, e);
    var chosen := Chosen(q, u, e.to).value;
    assert [u, e.to][..1] == [u] && PathEdges(q, [u]) == [];
    assert PathEdges(q, [u, e.to]) == [chosen];
    SumOne(q.hours, chosen);
  }

  /** Choosing the shortest edge of every pair again never makes a path slower exactly
      when, between any two nodes, the edge chosen is also a fastest one. */
  lemma RechoosingNeverSlower(q: Query)
    requires Unblocked(q)
    ensures NeverSlower(q) <==> ChosenFastest(q)
  {
    if ChosenFastest(q) {
      forall ns, es | q.IsWalk(ns, es)
        ensures Linked(q, ns) && PathHours(q, ns) <= Sum(q.hours, es)
      {
        WalkLinked(q, ns, es);
      }
    }
    if NeverSlower(q) {
      forall u, e | e in q.net.Out(u) && q.permits(e) && u in q.net.nodes && e.to in q.net.nodes
        ensures Chosen(q, u, e.to).Some? && q.hours(Chosen(q, u, e.to).value) <= q.hours(e)
      {
        SingleWalk(q, u, e);
        assert q.IsWalk([u, e.to], [e]);
        SumOne(q.hours, e);
      }
    }
  }

  lemma LinkedSnoc(q: Query, a: seq<int>, v: int)
    requires Linked(q, a) && a != [] && Chosen(q, a[|a| - 1], v).Some?
    ensures Linked(q, a + [v])
  {
    var c := a + [v];
    forall i | 0 <= i < |c| - 1
      ensures Chosen(q, c[i], c[i + 1]).Some?
    {
      if i < |a| - 1 {
        assert Chosen(q, a[i], a[i + 1]).Some?;
      }
    }
  }

  lemma PathEdgesSnoc(q: Query, a: seq<int>, v: int)
    requires Linked(q, a) && a != [] && Chosen(q, a[|a| - 1], v).Some?
    ensures Linked(q, a + [v]) && PathEdges(q, a + [v]) == PathEdges(q, a) + [Chosen(q, a[|a| - 1], v).value]
  {
    LinkedSnoc(q, a, v);
    assert (a + [v])[..|a|] == a;
  }

  lemma AssocSnoc<T>(x: seq<T>, y: seq<T>, e: T)
    ensures x + y + [e] == x + (y + [e])
  {
  }

  lemma JoinedLast(a: seq<int>, b: seq<int>)
    requires a != [] && b != [] && a[|a| - 1] == b[0]
    ensures (a + b[1..])[|a + b[1..]| - 1] == b[|b| - 1]
  {
  }

  lemma JoinStep(q: Query, a: seq<int>, init: seq<int>, v: int)
    requires Linked(q, init) && init != [] && a != [] && a[|a| - 1] == init[0] && Linked(q, a)
    requires Linked(q, a + init[1..]) && PathEdges(q, a + init[1..]) == PathEdges(q, a) + PathEdges(q, init)
    requires Chosen(q, init[|init| - 1], v).Some?
    ensures Linked(q, init + [v]) && Linked(q, a + init[1..] + [v])
    ensures PathEdges(q, a + init[1..] + [v]) == PathEdges(q, a) + PathEdges(q, init + [v])
  {
    JoinedLast(a, init);
    PathEdgesSnoc(q, a + init[1..], v);
    PathEdgesSnoc(q, init, v);
    AssocSnoc(PathEdges(q, a), PathEdges(q, init), Chosen(q, init[|init| - 1], v).value);
  }

  lemma JoinForms(a: seq<int>, b: seq<int>) returns (init: seq<int>, v: int)
    requires |b| > 1
    ensures init == b[..|b| - 1] && v == b[|b| - 1] && init != [] && init[0] == b[0]
    ensures b == init + [v] && a + b[1..] == a + init[1..] + [v]
  {
    init, v := b[..|b| - 1], b[|b| - 1];
  }

  lemma LinkedInit(q: Query, b: seq<int>, init: seq<int>, v: int)
    requires Linked(q, b) && b == init + [v] && init != []
    ensures Linked(q, init) && Chosen(q, init[|init| - 1], v).Some?
  {
    LinkedPrefix(q, b, |init|);
    assert b[..|init|] == init;
    var n := |init| - 1;
    assert Chosen(q, b[n], b[n + 1]).Some?;
  }

  /** Joining two linked sequences at a shared node joins their edges. */
  lemma {:induction false} PathEdgesJoin(q: Query, a: seq<int>, b: seq<int>)
    requires Linked(q, a) && Linked(q, b) && a != [] && b != [] && a[|a| - 1] == b[0]
    ensures Linked(q, a + b[1..])
    ensures PathEdges(q, a + b[1..]) == PathEdges(q, a) + PathEdges(q, b)
    decreases |b|
  {
    if |b| == 1 {
      assert a + b[1..] == a;
    } else {
      var init, v := JoinForms(a, b);
      LinkedInit(q, b, init, v);
      PathEdgesJoin(q, a, init);
      JoinStep(q, a, init, v);
    }
  }

  lemma PathHoursJoin(q: Query, a: seq<int>, b: seq<int>)
    requires Linked(q, a) && Linked(q, b) && a != [] && b != [] && a[|a| - 1] == b[0]
    ensures Linked(q, a + b[1..])
    ensures PathHours(q, a + b[1..]) == PathHours(q, a) + PathHours(q, b)
  {
    PathEdgesJoin(q, a, b);
    SumConcat(q.hours, PathEdges(q, a), PathEdges(q, b));
  }

  /** Blocking edges or nodes changes neither the chosen edges nor their time. */
  lemma {:induction false} SameChoice(q: Query, r: Query, ns: seq<int>)
    requires r.net == q.net && r.permits == q.permits && r.hours == q.hours
    ensures Linked(q, ns) <==> Linked(r, ns)
    ensures Linked(q, ns) ==> PathEdges(q, ns) == PathEdges(r, ns)
    decreases |ns|
  {
    assert forall u, v :: Chosen(q, u, v) == Chosen(r, u, v);
    if |ns| > 1 && Linked(q, ns) {
      LinkedPrefix(q, ns, |ns| - 1);
      SameChoice(q, r, ns[..|ns| - 1]);
    }
  }

  /** Two simple paths to the same goal are never proper extensions of each other. */
  lemma NoProperExtension(q: Query, start: int, goal: int, a: seq<int>, b: seq<int>)
    requires SimplePath(q, start, goal, a) && SimplePath(q, start, goal, b) && a <= b
    ensures a == b
  {
    assert b[|a| - 1] == goal;
  }
}
