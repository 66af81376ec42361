/** The pool argument of Yen's algorithm. For every root (a proper prefix of an accepted
    path) whose last node was used as a spur node, the pool holds a candidate for the
    simple paths that leave the accepted ones there, whose time against any of them is as
    good as the grade of the spur searches. A spur cap limits the roots this is said of. */
module YenPool {
  import opened RoadNetwork
  import opened YenPaths
  import opened YenSpur

  predicate WithinCap(cap: int, n: nat) {
    cap <= 0 || n <= cap
  }

  ghost predicate NotIn(xs: seq<PathResult>, p: seq<int>) {
    forall i :: 0 <= i < |xs| ==> xs[i].nodes != p
  }

  ghost predicate LeavesEarly(accepted: seq<PathResult>, p: seq<int>, cap: int) {
    exists n: nat :: WithinCap(cap, n) && Leaves(accepted, p, n)
  }

  ghost predicate GoodPath(q: Query, start: int, goal: int, x: PathResult) {
    SimplePath(q, start, goal, x.nodes) && ExactRoute(q, start, goal, x)
  }

  ghost predicate AllGood(q: Query, start: int, goal: int, xs: seq<PathResult>) {
    forall x :: x in xs ==> GoodPath(q, start, goal, x)
  }

  /** The reported times are those of the chosen edges. */
  ghost predicate Timed(q: Query, xs: seq<PathResult>) {
    forall x :: x in xs ==> Linked(q, x.nodes) && x.timeHours == PathHours(q, x.nodes)
  }

  /** A candidate below the root r whose time is as good as the grade says. */
  ghost predicate HasCandidate(pool: seq<PathResult>, r: seq<int>, grade: Grade, hours: real) {
    exists c :: c in pool && r <= c.nodes && Meets(grade, c.timeHours, hours)
  }

  /** The pool has a candidate below r for every simple path that leaves at r. */
  ghost predicate Covered(q: Query, start: int, goal: int, grade: Grade, accepted: seq<PathResult>,
                          pool: seq<PathResult>, r: seq<int>) {
    forall p :: SimplePath(q, start, goal, p) && |r| < |p| && p[..|r|] == r && Parts(accepted, p, |r|) ==>
      HasCandidate(pool, r, grade, PathHours(q, p))
  }

  /** Every root within the cap is covered, except those of the last accepted path that
      are longer than `done`. */
  ghost predicate RootsCovered(q: Query, start: int, goal: int, grade: Grade, accepted: seq<PathResult>,
                               pool: seq<PathResult>,
                               cap: int, done: nat)
    requires accepted != []
  {
    forall r :: IsRoot(accepted, r) && r != [] && WithinCap(cap, |r|)
                && !(r <= accepted[|accepted| - 1].nodes && |r| > done)
                ==> Covered(q, start, goal, grade, accepted, pool, r)
  }

  /** Against every simple path outside that leaves early, every accepted path is as good
      as the grade says. */
  ghost predicate Bound(q: Query, start: int, goal: int, grade: Grade, accepted: seq<PathResult>, cap: int) {
    forall p, x ::
      SimplePath(q, start, goal, p) && NotIn(accepted, p) && LeavesEarly(accepted, p, cap) && x in accepted ==>
        Meets(grade, x.timeHours, PathHours(q, p))
  }

  ghost predicate Ascending(xs: seq<PathResult>) {
    forall i, j :: 0 <= i < j < |xs| ==> xs[i].timeHours <= xs[j].timeHours
  }

  ghost predicate AllAbove(xs: seq<PathResult>, hours: real) {
    forall x :: x in xs ==> hours <= x.timeHours
  }

  // ----- leaving points -----

  /** A path outside the accepted ones leaves them somewhere, searched from n on. */
  lemma {:induction false} LeavesSomewhere(q: Query, start: int, goal: int, accepted: seq<PathResult>, p: seq<int>,
                                           k: nat, n: nat)
    returns (m: nat)
    requires AllGood(q, start, goal, accepted) && SimplePath(q, start, goal, p) && NotIn(accepted, p)
    requires 1 <= n <= |p| && k < |accepted| && p[..n] <= accepted[k].nodes
    ensures Leaves(accepted, p, m) && n <= m
    decreases |p| - n
  {
    var a := accepted[k].nodes;
    assert accepted[k] in accepted && accepted[k].nodes != p;
    if n == |p| {
      assert p[..n] == p;
      NoProperExtension(q, start, goal, p, a);
    }
    assert IsRoot(accepted, p[..n]);
    if j :| 0 <= j < |accepted| && p[..n] <= accepted[j].nodes
            && n < |accepted[j].nodes| && accepted[j].nodes[n] == p[n] {
      assert p[..n + 1] == p[..n] + [p[n]];
      assert p[..n + 1] <= accepted[j].nodes;
      m := LeavesSomewhere(q, start, goal, accepted, p, j, n + 1);
    } else {
      m := n;
    }
  }

  lemma StartsTogether(q: Query, start: int, goal: int, accepted: seq<PathResult>, p: seq<int>)
    requires accepted != [] && AllGood(q, start, goal, accepted) && SimplePath(q, start, goal, p)
    ensures p[..1] <= accepted[0].nodes
  {
    assert accepted[0] in accepted;
    assert p[..1] == [start];
  }

  /** A path that leaves A + [c] within the cap also leaves A within the cap. */
  lemma LeavesBefore(q: Query, start: int, goal: int, accepted: seq<PathResult>, c: PathResult, p: seq<int>, cap: int)
    requires accepted != [] && AllGood(q, start, goal, accepted) && SimplePath(q, start, goal, p)
    requires NotIn(accepted + [c], p) && LeavesEarly(accepted + [c], p, cap)
    ensures NotIn(accepted, p) && LeavesEarly(accepted, p, cap)
  {
    var more := accepted + [c];
    assert forall i :: 0 <= i < |accepted| ==> more[i] == accepted[i];
    var n: nat :| WithinCap(cap, n) && Leaves(more, p, n);
    StartsTogether(q, start, goal, accepted, p);
    var m := LeavesSomewhere(q, start, goal, accepted, p, 0, 1);
  }

  // ----- covering -----

  lemma CoveredVacuously(q: Query, start: int, goal: int, grade: Grade, accepted: seq<PathResult>,
                         pool: seq<PathResult>, base: seq<int>, n: nat)
    requires Unblocked(q) && 1 <= n <= |base|
    requires !SpurQuery(q, accepted, base[..n]).HasRoute(base[n - 1], goal)
    ensures Covered(q, start, goal, grade, accepted, pool, base[..n])
  {
    var r := base[..n];
    if p :| SimplePath(q, start, goal, p) && |r| < |p| && p[..|r|] == r && Parts(accepted, p, |r|) {
      TailIsSpurWalk(q, start, goal, accepted, r, p);
      assert false;
    }
  }

  lemma CoveredBySpur(q: Query, start: int, goal: int, grade: Grade, accepted: seq<PathResult>, pool: seq<PathResult>,
                      base: seq<int>, n: nat, spur: PathResult, c: PathResult)
    requires Unblocked(q) && q.NonnegativeHours() && ChosenFastest(q)
    requires SimplePath(q, start, goal, base) && 1 <= n < |base|
    requires var sub := SpurQuery(q, accepted, base[..n]);
             && ExactRoute(sub, base[n - 1], goal, spur)
             && sub.Graded(base[n - 1], goal, grade, spur.timeHours)
    requires c in pool && c.nodes == base[..n] + spur.nodes[1..] && Linked(q, c.nodes)
    requires c.timeHours == PathHours(q, c.nodes)
    ensures Covered(q, start, goal, grade, accepted, pool, base[..n])
  {
    var r := base[..n];
    forall p | SimplePath(q, start, goal, p) && |r| < |p| && p[..|r|] == r && Parts(accepted, p, |r|)
      ensures HasCandidate(pool, r, grade, PathHours(q, p))
    {
      JoinedIsGraded(q, start, goal, accepted, base, n, spur, p, grade);
      assert r <= c.nodes;
    }
  }

  /** Any candidate below the root covers it, times aside. */
  lemma CoveredByAny(q: Query, start: int, goal: int, accepted: seq<PathResult>, pool: seq<PathResult>, r: seq<int>,
                     c: PathResult)
    requires c in pool && r <= c.nodes
    ensures Covered(q, start, goal, AnyTime, accepted, pool, r)
  {
    forall p | SimplePath(q, start, goal, p) && |r| < |p| && p[..|r|] == r && Parts(accepted, p, |r|)
      ensures HasCandidate(pool, r, AnyTime, PathHours(q, p))
    {
    }
  }

  /** A pool that keeps its members, in any order, keeps covering. */
  lemma CoveredByMore(q: Query, start: int, goal: int, grade: Grade, accepted: seq<PathResult>, pool: seq<PathResult>,
                      more: seq<PathResult>, r: seq<int>)
    requires Covered(q, start, goal, grade, accepted, pool, r) && forall c :: c in pool ==> c in more
    ensures Covered(q, start, goal, grade, accepted, more, r)
  {
    forall p | SimplePath(q, start, goal, p) && |r| < |p| && p[..|r|] == r && Parts(accepted, p, |r|)
      ensures HasCandidate(more, r, grade, PathHours(q, p))
    {
      assert HasCandidate(pool, r, grade, PathHours(q, p));
      var c :| c in pool && r <= c.nodes && Meets(grade, c.timeHours, PathHours(q, p));
      assert c in more;
    }
  }

  lemma PartsFewer(accepted: seq<PathResult>, c: PathResult, p: seq<int>, n: nat)
    requires n < |p| && Parts(accepted + [c], p, n)
    ensures Parts(accepted, p, n)
  {
    var more := accepted + [c];
    forall i | 0 <= i < |accepted| && p[..n] <= accepted[i].nodes && n < |accepted[i].nodes|
      ensures accepted[i].nodes[n] != p[n]
    {
      assert more[i] == accepted[i];
    }
  }

  /** Moving c from the pool to the accepted paths uncovers only roots of c. */
  lemma CoveredAfterAccept(q: Query, start: int, goal: int, grade: Grade, accepted: seq<PathResult>,
                           pool: seq<PathResult>, r: seq<int>)
    requires pool != [] && Covered(q, start, goal, grade, accepted, pool, r) && !(r <= pool[0].nodes)
    ensures Covered(q, start, goal, grade, accepted + [pool[0]], pool[1..], r)
  {
    var c := pool[0];
    forall p | SimplePath(q, start, goal, p) && |r| < |p| && p[..|r|] == r && Parts(accepted + [c], p, |r|)
      ensures HasCandidate(pool[1..], r, grade, PathHours(q, p))
    {
      PartsFewer(accepted, c, p, |r|);
      assert HasCandidate(pool, r, grade, PathHours(q, p));
      var x :| x in pool && r <= x.nodes && Meets(grade, x.timeHours, PathHours(q, p));
      assert pool == [c] + pool[1..];
      assert x in pool[1..];
    }
  }

  ghost predicate AllRootsCovered(q: Query, start: int, goal: int, grade: Grade, accepted: seq<PathResult>,
                                  pool: seq<PathResult>, cap: int) {
    forall r :: IsRoot(accepted, r) && r != [] && WithinCap(cap, |r|) ==>
      Covered(q, start, goal, grade, accepted, pool, r)
  }

  /** Once every spur node within the cap was tried, every root within it is covered. */
  lemma RoundCoversAll(q: Query, start: int, goal: int, grade: Grade, accepted: seq<PathResult>,
                       pool: seq<PathResult>, cap: int, done: nat)
    requires accepted != [] && AllGood(q, start, goal, accepted)
    requires RootsCovered(q, start, goal, grade, accepted, pool, cap, done)
    requires var base := accepted[|accepted| - 1].nodes; done >= |base| - 1 || (cap > 0 && done >= cap)
    ensures AllRootsCovered(q, start, goal, grade, accepted, pool, cap)
  {
    var base := accepted[|accepted| - 1].nodes;
    assert accepted[|accepted| - 1] in accepted;
    forall r | IsRoot(accepted, r) && r != [] && WithinCap(cap, |r|)
      ensures Covered(q, start, goal, grade, accepted, pool, r)
    {
      if r <= base && |r| > done {
        assert r == base;
        var i :| 0 <= i < |accepted| && r <= accepted[i].nodes && |r| < |accepted[i].nodes|;
        assert accepted[i] in accepted;
        NoProperExtension(q, start, goal, base, accepted[i].nodes);
      }
    }
  }

  lemma CoveredGives(q: Query, start: int, goal: int, grade: Grade, accepted: seq<PathResult>, pool: seq<PathResult>,
                     p: seq<int>, n: nat)
    requires n < |p| && Covered(q, start, goal, grade, accepted, pool, p[..n])
    requires SimplePath(q, start, goal, p) && Parts(accepted, p, n)
    ensures exists c :: c in pool && Meets(grade, c.timeHours, PathHours(q, p))
  {
    assert |p[..n]| == n;
    assert HasCandidate(pool, p[..n], grade, PathHours(q, p));
    var c :| c in pool && p[..n] <= c.nodes && Meets(grade, c.timeHours, PathHours(q, p));
  }

  /** Any simple path that leaves early is at least as slow as some candidate. */
  lemma OutsiderBound(q: Query, start: int, goal: int, grade: Grade, accepted: seq<PathResult>, pool: seq<PathResult>,
                      cap: int, p: seq<int>)
    requires AllRootsCovered(q, start, goal, grade, accepted, pool, cap)
    requires SimplePath(q, start, goal, p) && LeavesEarly(accepted, p, cap)
    ensures exists c :: c in pool && Meets(grade, c.timeHours, PathHours(q, p))
  {
    var n: nat :| WithinCap(cap, n) && Leaves(accepted, p, n);
    assert IsRoot(accepted, p[..n]);
    CoveredGives(q, start, goal, grade, accepted, pool, p, n);
  }

  lemma CheaperMeets(grade: Grade, a: real, b: real, other: real)
    requires a <= b && Meets(grade, b, other)
    ensures Meets(grade, a, other)
  {
  }

  /** Accepting the cheapest candidate: it is as good as the grade says against every
      path still outside, and the paths accepted before stay so. */
  lemma AcceptKeepsBound(q: Query, start: int, goal: int, grade: Grade, accepted: seq<PathResult>,
                         pool: seq<PathResult>, cap: int)
    requires accepted != [] && pool != [] && AllGood(q, start, goal, accepted)
    requires Bound(q, start, goal, grade, accepted, cap)
    requires AllRootsCovered(q, start, goal, grade, accepted, pool, cap) && AllAbove(pool, pool[0].timeHours)
    ensures Bound(q, start, goal, grade, accepted + [pool[0]], cap)
  {
    var more := accepted + [pool[0]];
    forall p, x | SimplePath(q, start, goal, p) && NotIn(more, p) && LeavesEarly(more, p, cap) && x in more
      ensures Meets(grade, x.timeHours, PathHours(q, p))
    {
      LeavesBefore(q, start, goal, accepted, pool[0], p, cap);
      if x == pool[0] {
        OutsiderBound(q, start, goal, grade, accepted, pool, cap, p);
        var c :| c in pool && Meets(grade, c.timeHours, PathHours(q, p));
        CheaperMeets(grade, x.timeHours, c.timeHours, PathHours(q, p));
      }
    }
  }

  lemma AcceptKeepsRoots(q: Query, start: int, goal: int, grade: Grade, accepted: seq<PathResult>,
                         pool: seq<PathResult>, cap: int)
    requires accepted != [] && pool != [] && AllRootsCovered(q, start, goal, grade, accepted, pool, cap)
    ensures RootsCovered(q, start, goal, grade, accepted + [pool[0]], pool[1..], cap, 0)
  {
    var c, more := pool[0], accepted + [pool[0]];
    forall r | IsRoot(more, r) && r != [] && WithinCap(cap, |r|) && !(r <= more[|more| - 1].nodes && |r| > 0)
      ensures Covered(q, start, goal, grade, more, pool[1..], r)
    {
      var i :| 0 <= i < |more| && r <= more[i].nodes && |r| < |more[i].nodes|;
      assert i < |accepted| && more[i] == accepted[i];
      assert IsRoot(accepted, r);
      CoveredAfterAccept(q, start, goal, grade, accepted, pool, r);
    }
  }

  /** One more spur node done: its root is covered now, the others stay covered. */
  lemma SpurKeepsRoots(q: Query, start: int, goal: int, grade: Grade, accepted: seq<PathResult>,
                       pool: seq<PathResult>, more: seq<PathResult>,
                       cap: int, done: nat)
    requires accepted != [] && done < |accepted[|accepted| - 1].nodes|
    requires RootsCovered(q, start, goal, grade, accepted, pool, cap, done) && forall c :: c in pool ==> c in more
    requires Covered(q, start, goal, grade, accepted, more, accepted[|accepted| - 1].nodes[..done + 1])
    ensures RootsCovered(q, start, goal, grade, accepted, more, cap, done + 1)
  {
    var base := accepted[|accepted| - 1].nodes;
    forall r | IsRoot(accepted, r) && r != [] && WithinCap(cap, |r|) && !(r <= base && |r| > done + 1)
      ensures Covered(q, start, goal, grade, accepted, more, r)
    {
      if r <= base && |r| == done + 1 {
        assert r == base[..done + 1];
      } else {
        CoveredByMore(q, start, goal, grade, accepted, pool, more, r);
      }
    }
  }

  /** What parts from the accepted paths is none of them. */
  lemma CandidateIsNew(accepted: seq<PathResult>, t: seq<int>, n: nat)
    requires n < |t| && Parts(accepted, t, n)
    ensures NotIn(accepted, t)
  {
    forall i | 0 <= i < |accepted|
      ensures accepted[i].nodes != t
    {
      assert t[..n] <= t;
    }
  }

  /** A new candidate is never faster than the path it was spurred from. */
  lemma CandidateNotFaster(q: Query, start: int, goal: int, accepted: seq<PathResult>, cap: int, t: seq<int>, n: nat)
    requires accepted != [] && Bound(q, start, goal, Best, accepted, cap)
    requires SimplePath(q, start, goal, t) && 1 <= n < |accepted[|accepted| - 1].nodes| && n < |t|
    requires t[..n] == accepted[|accepted| - 1].nodes[..n] && Parts(accepted, t, n) && WithinCap(cap, n)
    ensures accepted[|accepted| - 1].timeHours <= PathHours(q, t)
  {
    var last := accepted[|accepted| - 1].nodes;
    assert t[..n] <= last;
    assert IsRoot(accepted, t[..n]);
    assert Leaves(accepted, t, n);
    CandidateIsNew(accepted, t, n);
    assert accepted[|accepted| - 1] in accepted;
  }
}
