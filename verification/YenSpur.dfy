/** One spur search: the part of an accepted path up to the spur node stays, the nodes
    before the spur node and the edges already taken from this root are blocked. */
module YenSpur {
  import opened RoadNetwork
  import opened YenPaths

  /** r is a proper prefix of some accepted path. */
  ghost predicate IsRoot(accepted: seq<PathResult>, r: seq<int>) {
    exists i :: 0 <= i < |accepted| && r <= accepted[i].nodes && |r| < |accepted[i].nodes|
  }

  /** After its first n nodes p parts from every accepted path that shares them. */
  ghost predicate Parts(accepted: seq<PathResult>, p: seq<int>, n: nat)
    requires n < |p|
  {
    forall i :: 0 <= i < |accepted| && p[..n] <= accepted[i].nodes && n < |accepted[i].nodes| ==>
      accepted[i].nodes[n] != p[n]
  }

  /** p leaves the accepted paths right after its first n nodes. */
  ghost predicate Leaves(accepted: seq<PathResult>, p: seq<int>, n: nat) {
    1 <= n < |p| && IsRoot(accepted, p[..n]) && Parts(accepted, p, n)
  }

  /** The edges that accepted paths with root r take out of its last node. */
  ghost function RootEdges(accepted: seq<PathResult>, r: seq<int>): set<EdgeKey>
    requires r != []
  {
    set i | 0 <= i < |accepted| && r <= accepted[i].nodes && |r| < |accepted[i].nodes|
      :: (r[|r| - 1], accepted[i].nodes[|r|])
  }

  ghost function RootNodes(r: seq<int>): set<int>
    requires r != []
  {
    set i | 0 <= i < |r| - 1 :: r[i]
  }

  ghost function SpurQuery(q: Query, accepted: seq<PathResult>, r: seq<int>): Query
    requires r != []
  {
    q.(blockedEdges := RootEdges(accepted, r), blockedNodes := RootNodes(r))
  }

  lemma RootNodesMember(r: seq<int>, x: int)
    requires r != []
    ensures x in RootNodes(r) <==> exists i :: 0 <= i < |r| - 1 && r[i] == x
  {
  }

  /** The rest of any simple path that leaves the accepted paths at r is a walk the
      spur search may take. */
  lemma TailIsSpurWalk(q: Query, start: int, goal: int, accepted: seq<PathResult>, r: seq<int>, p: seq<int>)
    requires Unblocked(q) && SimplePath(q, start, goal, p)
    requires 1 <= |r| < |p| && r == p[..|r|] && Parts(accepted, p, |r|)
    ensures Linked(q, p[|r| - 1..])
    ensures SpurQuery(q, accepted, r).Connects(p[|r| - 1..], PathEdges(q, p[|r| - 1..]), r[|r| - 1], goal)
  {
    var n, sub := |r| - 1, SpurQuery(q, accepted, r);
    var tail := p[n..];
    LinkedSuffix(q, p, n);
    SameChoice(q, sub, tail);
    forall i | 0 <= i < |tail|
      ensures sub.Usable(tail[i])
    {
      assert tail[i] == p[n + i];
      RootNodesMember(r, tail[i]);
    }
    forall i | 0 <= i < |tail| - 1
      ensures (tail[i], tail[i + 1]) !in sub.blockedEdges
    {
      assert tail[i] == p[n + i];
      if i == 0 {
        assert forall k :: 0 <= k < |accepted| && r <= accepted[k].nodes && |r| < |accepted[k].nodes| ==>
            accepted[k].nodes[|r|] != p[|r|];
      } else {
        assert tail[i] != r[n];
      }
    }
    PathEdgesWalk(sub, tail);
  }

  /** Root and spur share no node but the spur node. */
  lemma JoinedIsDistinct(q: Query, accepted: seq<PathResult>, r: seq<int>, ms: seq<int>)
    requires r != [] && Distinct(r) && Distinct(ms) && ms != [] && ms[0] == r[|r| - 1]
    requires forall i :: 0 <= i < |ms| ==> SpurQuery(q, accepted, r).Usable(ms[i])
    ensures Distinct(r + ms[1..])
  {
    var t := r + ms[1..];
    forall i, j | 0 <= i < j < |t|
      ensures t[i] != t[j]
    {
      if i < |r| <= j {
        assert t[j] == ms[j - |r| + 1] && SpurQuery(q, accepted, r).Usable(ms[j - |r| + 1]);
        RootNodesMember(r, t[i]);
        assert i == |r| - 1 ==> t[i] == ms[0];
      }
    }
  }

  /** The first spur edge is no edge by which an accepted path leaves the root. */
  lemma JoinedParts(q: Query, accepted: seq<PathResult>, r: seq<int>, v: int, t: seq<int>)
    requires r != [] && |r| < |t| && t[..|r|] == r && t[|r|] == v
    requires (r[|r| - 1], v) !in SpurQuery(q, accepted, r).blockedEdges
    ensures Parts(accepted, t, |r|)
  {
    forall i | 0 <= i < |accepted| && t[..|r|] <= accepted[i].nodes && |r| < |accepted[i].nodes|
      ensures accepted[i].nodes[|r|] != t[|r|]
    {
      assert (r[|r| - 1], accepted[i].nodes[|r|]) in RootEdges(accepted, r);
    }
  }

  lemma SpurLength(q: Query, start: int, goal: int, base: seq<int>, n: nat, ms: seq<int>)
    requires SimplePath(q, start, goal, base) && 1 <= n < |base|
    requires ms != [] && ms[0] == base[n - 1] && ms[|ms| - 1] == goal
    ensures |ms| >= 2
  {
    assert base[|base| - 1] == goal;
  }

  lemma JoinedIsLinked(q: Query, sub: Query, base: seq<int>, n: nat, ms: seq<int>, es: seq<Edge>)
    requires sub.net == q.net && sub.permits == q.permits && sub.hours == q.hours
    requires Linked(q, base) && 1 <= n <= |base| && sub.IsWalk(ms, es) && ms[0] == base[n - 1]
    ensures Linked(q, ms) && Linked(q, base[..n] + ms[1..])
  {
    WalkLinked(sub, ms, es);
    SameChoice(q, sub, ms);
    LinkedPrefix(q, base, n);
    PathEdgesJoin(q, base[..n], ms);
  }

  /** The spur path, joined to its root, is a simple path from start to goal that
      leaves the accepted paths at the root. */
  lemma JoinedIsSimple(q: Query, start: int, goal: int, accepted: seq<PathResult>, base: seq<int>, n: nat,
                       spur: PathResult)
    requires Unblocked(q) && SimplePath(q, start, goal, base) && 1 <= n < |base|
    requires SpurQuery(q, accepted, base[..n]).Connects(spur.nodes, spur.edges, base[n - 1], goal)
    requires Distinct(spur.nodes)
    ensures var t := base[..n] + spur.nodes[1..];
            SimplePath(q, start, goal, t) && n < |t| && t[..n] == base[..n] && Parts(accepted, t, n)
  {
    var r, ms := base[..n], spur.nodes;
    var t, sub := r + ms[1..], SpurQuery(q, accepted, r);
    SpurLength(q, start, goal, base, n, ms);
    assert sub.Arc(ms[0], ms[1], spur.edges[0]);
    JoinedParts(q, accepted, r, ms[1], t);
    JoinedIsDistinct(q, accepted, r, ms);
    JoinedIsLinked(q, sub, base, n, ms, spur.edges);
    forall i | 0 <= i < |t|
      ensures t[i] in q.net.nodes
    {
      if i >= n {
        assert sub.Usable(ms[i - n + 1]);
      }
    }
  }

  lemma SpurHours(q: Query, sub: Query, ms: seq<int>, es: seq<Edge>)
    requires sub.net == q.net && sub.permits == q.permits && sub.hours == q.hours && ChosenFastest(q)
    requires sub.IsWalk(ms, es)
    ensures Linked(q, ms) && PathHours(q, ms) <= Sum(q.hours, es)
  {
    assert forall u, v :: Chosen(q, u, v) == Chosen(sub, u, v);
    assert ChosenFastest(sub);
    WalkLinked(sub, ms, es);
    SameChoice(q, sub, ms);
  }

  lemma RootHoursNonnegative(q: Query, r: seq<int>)
    requires Unblocked(q) && q.NonnegativeHours() && Linked(q, r) && r != []
    requires forall i :: 0 <= i < |r| ==> r[i] in q.net.nodes
    ensures PathHours(q, r) >= 0.0
  {
    PathEdgesWalk(q, r);
    WalkHoursNonnegative(q, r, PathEdges(q, r));
  }

  /** Behind the same root the better tail makes the better path. */
  lemma TailsCompare(q: Query, r: seq<int>, ms: seq<int>, tail: seq<int>, grade: Grade)
    requires Linked(q, r) && Linked(q, ms) && Linked(q, tail) && r != [] && ms != [] && tail != []
    requires r[|r| - 1] == ms[0] == tail[0] && PathHours(q, r) >= 0.0
    requires Meets(grade, PathHours(q, ms), PathHours(q, tail))
    ensures Linked(q, r + ms[1..]) && Linked(q, r + tail[1..])
    ensures Meets(grade, PathHours(q, r + ms[1..]), PathHours(q, r + tail[1..]))
  {
    PathHoursJoin(q, r, ms);
    PathHoursJoin(q, r, tail);
  }

  /** Whatever the spur search promises of its route holds of the joined path against
      every simple path that leaves the accepted ones at this root. */
  lemma JoinedIsGraded(q: Query, start: int, goal: int, accepted: seq<PathResult>, base: seq<int>, n: nat,
                       spur: PathResult, p: seq<int>, grade: Grade)
    requires Unblocked(q) && q.NonnegativeHours() && ChosenFastest(q)
    requires SimplePath(q, start, goal, base) && 1 <= n < |base|
    requires var sub := SpurQuery(q, accepted, base[..n]);
             && ExactRoute(sub, base[n - 1], goal, spur)
             && sub.Graded(base[n - 1], goal, grade, spur.timeHours)
    requires SimplePath(q, start, goal, p) && n < |p| && p[..n] == base[..n] && Parts(accepted, p, n)
    requires Linked(q, base[..n] + spur.nodes[1..])
    ensures Meets(grade, PathHours(q, base[..n] + spur.nodes[1..]), PathHours(q, p))
  {
    var r, ms, tail := base[..n], spur.nodes, p[n - 1..];
    var sub := SpurQuery(q, accepted, r);
    TailIsSpurWalk(q, start, goal, accepted, r, p);
    SpurHours(q, sub, ms, spur.edges);
    assert Meets(grade, spur.timeHours, Sum(sub.hours, PathEdges(q, tail)));
    LinkedPrefix(q, base, n);
    RootHoursNonnegative(q, r);
    TailsCompare(q, r, ms, tail, grade);
    assert r + tail[1..] == p;
  }
}
