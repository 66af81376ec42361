/** The pieces of Yen's algorithm: what a spur search blocks, how root and spur are
    joined over re-chosen edges, and how the candidates are ordered. */
module YenCandidates {
  import opened Wrappers
  import opened RoadNetwork
  import opened YenPaths
  import opened YenSpur
  import opened YenPool

  const TOLERANCE := 0.000000001

  /** Faster by more than the tolerance, or else shorter. */
  predicate Less(a: PathResult, b: PathResult) {
    var d := a.timeHours - b.timeHours;
    if d > TOLERANCE || -d > TOLERANCE then a.timeHours < b.timeHours else a.distanceKm < b.distanceKm
  }

  /** Equal, or more than a billionth of an hour apart. */
  ghost predicate Apart(s: real, t: real) {
    s == t || s - t > 0.000000001 || t - s > 0.000000001
  }

  /** Within the tolerance the comparator can run in a circle: each path is before the
      next one, and the last before the first. */
  lemma LessMayCycle(a: PathResult, b: PathResult, c: PathResult)
    requires a.timeHours + 0.000000001 == b.timeHours && b.timeHours + 0.000000001 == c.timeHours
    requires a.distanceKm > b.distanceKm > c.distanceKm
    ensures Less(b, a) && Less(c, b) && Less(a, c)
  {
  }

  /** The comparator is an order only on times that are equal or clearly apart. */
  ghost predicate Separated(xs: seq<PathResult>) {
    forall x, y :: x in xs && y in xs ==> Apart(x.timeHours, y.timeHours)
  }

  ghost predicate NoneBefore(a: PathResult, xs: seq<PathResult>) {
    forall x :: x in xs ==> !Less(x, a)
  }

  ghost predicate InOrder(xs: seq<PathResult>) {
    xs == [] || (NoneBefore(xs[0], xs[1..]) && InOrder(xs[1..]))
  }

  function Insert(c: PathResult, xs: seq<PathResult>): (r: seq<PathResult>)
    ensures multiset(r) == multiset{c} + multiset(xs)
  {
    if xs == [] then [c]
    else if Less(c, xs[0]) then [c] + xs
    else
      assert xs == [xs[0]] + xs[1..];
      [xs[0]] + Insert(c, xs[1..])
  }

  lemma NotLessTransitive(a: PathResult, b: PathResult, c: PathResult)
    requires Apart(a.timeHours, b.timeHours) && Apart(b.timeHours, c.timeHours) && Apart(a.timeHours, c.timeHours)
    requires !Less(b, a) && !Less(c, b)
    ensures !Less(c, a)
  {
  }

  lemma NoneBeforeAll(c: PathResult, xs: seq<PathResult>)
    requires xs != [] && Separated([c] + xs) && NoneBefore(xs[0], xs[1..]) && Less(c, xs[0])
    ensures NoneBefore(c, xs)
  {
    assert c in [c] + xs && xs[0] in [c] + xs;
    forall x | x in xs
      ensures !Less(x, c)
    {
      assert x in [c] + xs;
      assert xs == [xs[0]] + xs[1..];
      if x in xs[1..] {
        NotLessTransitive(c, xs[0], x);
      }
    }
  }

  lemma {:induction false} InsertOrdered(c: PathResult, xs: seq<PathResult>)
    requires Separated([c] + xs) && InOrder(xs)
    ensures InOrder(Insert(c, xs))
  {
    if xs == [] {
    } else if Less(c, xs[0]) {
      NoneBeforeAll(c, xs);
      assert ([c] + xs)[1..] == xs;
    } else {
      var rest := Insert(c, xs[1..]);
      assert forall x :: x in [c] + xs[1..] ==> x in [c] + xs;
      InsertOrdered(c, xs[1..]);
      forall x | x in rest
        ensures !Less(x, xs[0])
      {
        assert x in multiset(rest);
        assert x == c || x in multiset(xs[1..]);
      }
      assert ([xs[0]] + rest)[1..] == rest;
    }
  }

  lemma SeparatedSubset(pool: seq<PathResult>, i: nat, xs: seq<PathResult>)
    requires i < |pool| && Separated(pool) && multiset(xs) == multiset(pool[..i])
    ensures Separated([pool[i]] + xs)
  {
    forall x | x in [pool[i]] + xs
      ensures x in pool
    {
      if x in xs {
        assert x in multiset(xs) && x in multiset(pool[..i]);
      }
    }
  }

  /** Faster paths first, and of equally fast ones the shorter. */
  ghost predicate Ranked(xs: seq<PathResult>) {
    forall i, j :: 0 <= i < j < |xs| ==>
      xs[i].timeHours < xs[j].timeHours
      || (xs[i].timeHours == xs[j].timeHours && xs[i].distanceKm <= xs[j].distanceKm)
  }

  lemma {:induction false} OrderRanks(xs: seq<PathResult>)
    requires Separated(xs) && InOrder(xs)
    ensures Ranked(xs)
  {
    if xs != [] {
      var rest := xs[1..];
      assert forall x :: x in rest ==> x in xs;
      OrderRanks(rest);
      forall i, j | 0 <= i < j < |xs|
        ensures xs[i].timeHours < xs[j].timeHours
                || (xs[i].timeHours == xs[j].timeHours && xs[i].distanceKm <= xs[j].distanceKm)
      {
        assert xs[j] == rest[j - 1] && xs[j] in rest && xs[0] in xs;
        assert i > 0 ==> xs[i] == rest[i - 1];
      }
    }
  }

  lemma SeparatedSame(pool: seq<PathResult>, sorted: seq<PathResult>)
    requires Separated(pool) && multiset(sorted) == multiset(pool)
    ensures Separated(sorted)
  {
    forall x | x in sorted
      ensures x in pool
    {
      assert x in multiset(sorted) && x in multiset(pool);
    }
  }

  /** Sorting by Less: always a permutation, and in order when the times are equal or
      clearly apart (with other times the comparator is no order and the library sort
      promises none). */
  method SortCandidates(pool: seq<PathResult>) returns (sorted: seq<PathResult>)
    ensures multiset(sorted) == multiset(pool)
    ensures Separated(pool) ==> InOrder(sorted) && Ranked(sorted)
  {
    sorted := [];
    for i := 0 to |pool|
      invariant multiset(sorted) == multiset(pool[..i])
      invariant Separated(pool) ==> InOrder(sorted)
    {
      assert pool[..i + 1] == pool[..i] + [pool[i]];
      if Separated(pool) {
        SeparatedSubset(pool, i, sorted);
        InsertOrdered(pool[i], sorted);
      }
      sorted := Insert(pool[i], sorted);
    }
    assert pool[..|pool|] == pool;
    if Separated(pool) {
      SeparatedSame(pool, sorted);
      OrderRanks(sorted);
    }
  }

  /** The head of an ordered pool is a fastest candidate. */
  lemma HeadIsFastest(pool: seq<PathResult>)
    requires pool != [] && Separated(pool) && InOrder(pool)
    ensures AllAbove(pool, pool[0].timeHours)
  {
    forall x | x in pool
      ensures pool[0].timeHours <= x.timeHours
    {
      assert pool == [pool[0]] + pool[1..];
      assert pool[0] in pool;
    }
  }

  method EdgeBetween(q: Query, from: int, to: int) returns (best: Option<Edge>)
    ensures best == Chosen(q, from, to)
  {
    best := None;
    var es := q.net.Out(from);
    for i := 0 to |es|
      invariant best == ShortestTo(q.permits, to, es[..i])
    {
      assert es[..i + 1][..i] == es[..i];
      var edge := es[i];
      if edge.to != to || !q.permits(edge) {
        continue;
      }
      if best.None? || edge.distanceKm < best.value.distanceKm {
        best := Some(edge);
      }
    }
    assert es[..|es|] == es;
  }

  lemma OneMoreEdge(q: Query, ns: seq<int>, i: nat)
    requires i < |ns| - 1 && Linked(q, ns[..i + 1]) && Chosen(q, ns[i], ns[i + 1]).Some?
    ensures Linked(q, ns[..i + 2])
    ensures var e := Chosen(q, ns[i], ns[i + 1]).value;
            && PathEdges(q, ns[..i + 2]) == PathEdges(q, ns[..i + 1]) + [e]
            && Sum(Km, PathEdges(q, ns[..i + 2])) == Sum(Km, PathEdges(q, ns[..i + 1])) + e.distanceKm
            && Sum(q.hours, PathEdges(q, ns[..i + 2])) == Sum(q.hours, PathEdges(q, ns[..i + 1])) + q.hours(e)
  {
    var e := Chosen(q, ns[i], ns[i + 1]).value;
    assert ns[..i + 2] == ns[..i + 1] + [ns[i + 1]];
    LinkedSnoc(q, ns[..i + 1], ns[i + 1]);
    assert ns[..i + 2][..i + 1] == ns[..i + 1];
    SumConcat(Km, PathEdges(q, ns[..i + 1]), [e]);
    SumConcat(q.hours, PathEdges(q, ns[..i + 1]), [e]);
    SumOne(Km, e);
    SumOne(q.hours, e);
  }

  method RechooseEdges(q: Query, nodes: seq<int>) returns (r: Option<PathResult>)
    requires nodes != []
    ensures if Linked(q, nodes) then
              r == Some(PathResult(nodes, PathEdges(q, nodes), Sum(Km, PathEdges(q, nodes)), PathHours(q, nodes)))
            else r.None?
  {
    var edges, dist, hours := [], 0.0, 0.0;
    for i := 0 to |nodes| - 1
      invariant Linked(q, nodes[..i + 1])
      invariant edges == PathEdges(q, nodes[..i + 1])
      invariant dist == Sum(Km, edges) && hours == Sum(q.hours, edges)
    {
      var edge := EdgeBetween(q, nodes[i], nodes[i + 1]);
      if edge.None? {
        assert Chosen(q, nodes[i], nodes[i + 1]).None?;
        return None;
      }
      OneMoreEdge(q, nodes, i);
      edges := edges + [edge.value];
      dist := dist + edge.value.distanceKm;
      hours := hours + q.hours(edge.value);
    }
    assert nodes[..|nodes| - 1 + 1] == nodes;
    r := Some(PathResult(nodes, edges, dist, hours));
  }

  /** Joins root and spur at the spur node and re-chooses every edge. */
  method CombineRootAndSpur(q: Query, rootNodes: seq<int>, spurNodes: seq<int>) returns (r: Option<PathResult>)
    ensures rootNodes == [] || spurNodes == [] ==> r.None?
    ensures rootNodes != [] && spurNodes != [] ==>
              var ns := rootNodes + spurNodes[1..];
              if Linked(q, ns) then
                r == Some(PathResult(ns, PathEdges(q, ns), Sum(Km, PathEdges(q, ns)), PathHours(q, ns)))
              else r.None?
  {
    if rootNodes == [] || spurNodes == [] {
      return None;
    }
    r := RechooseEdges(q, rootNodes + spurNodes[1..]);
  }

  predicate SamePrefix(nodes: seq<int>, prefix: seq<int>) {
    prefix <= nodes
  }

  method BlockEdges(accepted: seq<PathResult>, root: seq<int>) returns (blocked: set<EdgeKey>)
    requires root != []
    ensures blocked == RootEdges(accepted, root)
  {
    blocked := {};
    var n := |root|;
    for i := 0 to |accepted|
      invariant blocked == RootEdges(accepted[..i], root)
    {
      assert forall k :: 0 <= k < i ==> accepted[..i + 1][k] == accepted[..i][k];
      var path := accepted[i];
      if |path.nodes| <= n {
        continue;
      }
      if SamePrefix(path.nodes, root) {
        blocked := blocked + {(path.nodes[n - 1], path.nodes[n])};
      }
    }
    assert accepted[..|accepted|] == accepted;
  }

  method BlockNodes(root: seq<int>) returns (blocked: set<int>)
    requires root != []
    ensures blocked == RootNodes(root)
  {
    blocked := {};
    for i := 0 to |root| - 1
      invariant blocked == set k | 0 <= k < i :: root[k]
    {
      blocked := blocked + {root[i]};
    }
  }
}
