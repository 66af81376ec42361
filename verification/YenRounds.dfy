/** What every round of Yen's algorithm keeps, and what that means for the paths. */
module YenRounds {
  import opened Wrappers
  import opened RoadNetwork
  import opened Heuristic
  import opened PathSignature
  import opened YenPaths
  import opened YenSpur
  import opened YenPool
  import opened YenCandidates
  import AStar

  ghost predicate PathsApart(q: Query, start: int, goal: int) {
    forall p, r :: SimplePath(q, start, goal, p) && SimplePath(q, start, goal, r) ==>
      Apart(PathHours(q, p), PathHours(q, r))
  }

  /** The searches find a route whenever there is one: no negative node id, which the
      bidirectional search misreads. */
  ghost predicate Thorough(q: Query) {
    q.net.rev.None? || forall n :: n in q.net.nodes ==> n >= 0
  }

  /** When candidates can be ranked: thorough searches, shortest parallel edges also
      fastest, and path times equal or clearly apart. */
  ghost predicate Rankable(q: Query, start: int, goal: int) {
    Thorough(q) && ChosenFastest(q) && PathsApart(q, start, goal)
  }

  /** When the answer is the k fastest: rankable, and no estimate. */
  ghost predicate Ideal(q: Query, start: int, goal: int, est: Estimator) {
    est.speedKmH <= 0.0 && Rankable(q, start, goal)
  }

  ghost predicate SteadyEverywhere(q: Query, est: Estimator) {
    forall n :: n in q.net.nodes ==> Steady(q, est, n)
  }

  /** How good the paths returned are against those that are not. */
  ghost function GradeOf(q: Query, start: int, goal: int, est: Estimator): Grade {
    if !Rankable(q, start, goal) then AnyTime
    else if est.speedKmH <= 0.0 then Best
    else if SteadyEverywhere(q, est) then TwiceBest
    else AnyTime
  }

  ghost predicate Distinctly(accepted: seq<PathResult>) {
    forall i, j :: 0 <= i < j < |accepted| ==> accepted[i].nodes != accepted[j].nodes
  }

  // ----- what every round keeps -----

  /** The request Yen works on: nothing blocked, positive times, a correct reverse list. */
  ghost predicate Request(q: Query) {
    && Unblocked(q) && q.PositiveHours()
    && (q.net.rev.Some? ==> Transposed(q.net, q.net.rev.value))
  }

  ghost predicate Keyed(accepted: seq<PathResult>, pool: seq<PathResult>, seen: set<string>) {
    forall ns :: Signature(ns) in seen <==> !NotIn(accepted, ns) || !NotIn(pool, ns)
  }

  /** No node sequence occurs twice among the accepted paths and the pool. */
  ghost predicate NoRepeats(accepted: seq<PathResult>, pool: seq<PathResult>) {
    && Distinctly(accepted)
    && (forall x :: x in pool ==> NotIn(accepted, x.nodes) && multiset(pool)[x] == 1)
    && (forall x, y :: x in pool && y in pool && x.nodes == y.nodes ==> x == y)
  }

  ghost predicate Rechosen(q: Query, x: PathResult) {
    Linked(q, x.nodes) && x.edges == PathEdges(q, x.nodes)
  }

  ghost predicate Genuine(q: Query, start: int, goal: int, accepted: seq<PathResult>, pool: seq<PathResult>,
                        seen: set<string>) {
    && accepted != [] && AllGood(q, start, goal, accepted) && AllGood(q, start, goal, pool)
    && (forall i :: 0 < i < |accepted| ==> Rechosen(q, accepted[i]))
    && (forall x :: x in pool ==> Rechosen(q, x))
    && NoRepeats(accepted, pool) && Keyed(accepted, pool, seen)
  }

  /** Nothing is overlooked: every root is covered, as well as the searches are graded. */
  ghost predicate Open(q: Query, start: int, goal: int, est: Estimator, accepted: seq<PathResult>,
                       pool: seq<PathResult>, cap: int, done: nat)
    requires accepted != []
  {
    Thorough(q) ==> RootsCovered(q, start, goal, GradeOf(q, start, goal, est), accepted, pool, cap, done)
  }

  ghost predicate Sharp(q: Query, start: int, goal: int, accepted: seq<PathResult>, pool: seq<PathResult>)
    requires accepted != []
  {
    && Timed(q, accepted) && Timed(q, pool)
    && Ascending(accepted) && AllAbove(pool, accepted[|accepted| - 1].timeHours)
  }

  // ----- the cap -----

  /** The path t leaves one of the paths within the cap, where none before that one
      leads on like t. */
  ghost predicate Spurred(accepted: seq<PathResult>, t: seq<int>, cap: int) {
    exists j: nat, n: nat ::
      && j < |accepted| && 1 <= n < |t| && n < |accepted[j].nodes| && (cap <= 0 || n <= cap)
      && t[..n] == accepted[j].nodes[..n] && Parts(accepted[..j + 1], t, n)
  }

  /** Every path but the first leaves an earlier one within the cap. */
  ghost predicate SpurredInTurn(paths: seq<PathResult>, cap: int) {
    forall i :: 0 < i < |paths| ==> Spurred(paths[..i], paths[i].nodes, cap)
  }

  ghost predicate AllSpurred(accepted: seq<PathResult>, pool: seq<PathResult>, cap: int) {
    SpurredInTurn(accepted, cap) && forall x :: x in pool ==> Spurred(accepted, x.nodes, cap)
  }

  lemma SpurredHere(accepted: seq<PathResult>, t: seq<int>, n: nat, cap: int)
    requires accepted != [] && 1 <= n < |t| && n < |accepted[|accepted| - 1].nodes| && WithinCap(cap, n)
    requires t[..n] == accepted[|accepted| - 1].nodes[..n] && Parts(accepted, t, n)
    ensures Spurred(accepted, t, cap)
  {
    var j := |accepted| - 1;
    assert accepted[..j + 1] == accepted;
  }

  lemma SpurredStill(accepted: seq<PathResult>, c: PathResult, t: seq<int>, cap: int)
    requires Spurred(accepted, t, cap)
    ensures Spurred(accepted + [c], t, cap)
  {
    var j: nat, n: nat :|
      && j < |accepted| && 1 <= n < |t| && n < |accepted[j].nodes| && (cap <= 0 || n <= cap)
      && t[..n] == accepted[j].nodes[..n] && Parts(accepted[..j + 1], t, n);
    var more := accepted + [c];
    assert more[..j + 1] == accepted[..j + 1] && more[j] == accepted[j];
  }

  /** Accepting a candidate: the others still leave where they left. */
  lemma SpurredAccept(accepted: seq<PathResult>, pool: seq<PathResult>, c: PathResult, rest: seq<PathResult>, cap: int)
    requires AllSpurred(accepted, pool, cap) && c in pool && forall x :: x in rest ==> x in pool
    ensures AllSpurred(accepted + [c], rest, cap)
  {
    var more := accepted + [c];
    forall i | 0 < i < |more|
      ensures Spurred(more[..i], more[i].nodes, cap)
    {
      assert more[..i] == accepted[..i];
      assert accepted[..|accepted|] == accepted;
    }
    forall x | x in rest
      ensures Spurred(more, x.nodes, cap)
    {
      SpurredStill(accepted, c, x.nodes, cap);
    }
  }

  /** Everything a round keeps. */
  ghost predicate Kept(q: Query, start: int, goal: int, est: Estimator, accepted: seq<PathResult>,
                       pool: seq<PathResult>, seen: set<string>, cap: int, done: nat) {
    && Genuine(q, start, goal, accepted, pool, seen)
    && Open(q, start, goal, est, accepted, pool, cap, done)
    && Bound(q, start, goal, GradeOf(q, start, goal, est), accepted, cap)
    && (Ideal(q, start, goal, est) ==> Sharp(q, start, goal, accepted, pool))
    && AllSpurred(accepted, pool, cap)
  }

  /** What a spur attempt at the last accepted path yields. */
  ghost predicate SpurOutcome(q: Query, start: int, goal: int, est: Estimator, accepted: seq<PathResult>, n: nat,
                              c: Option<PathResult>)
    requires accepted != [] && 1 <= n < |accepted[|accepted| - 1].nodes|
  {
    var r := accepted[|accepted| - 1].nodes[..n];
    && (c.Some? ==> && GoodPath(q, start, goal, c.value) && Rechosen(q, c.value)
                    && n < |c.value.nodes| && c.value.nodes[..n] == r && Parts(accepted, c.value.nodes, n))
    && (Thorough(q) ==>
          Covered(q, start, goal, GradeOf(q, start, goal, est), accepted, if c.Some? then [c.value] else [], r))
  }

  lemma SpurEndsUsable(q: Query, start: int, goal: int, accepted: seq<PathResult>, base: seq<int>, n: nat)
    requires Request(q) && SimplePath(q, start, goal, base) && 1 <= n < |base|
    ensures var sub := SpurQuery(q, accepted, base[..n]);
            && sub.Usable(base[n - 1]) && sub.Usable(goal) && base[n - 1] != goal
            && sub.NonnegativeHours() && sub.PositiveHours()
            && (sub.net.rev.Some? ==> Transposed(sub.net, sub.net.rev.value))
  {
    var sub := SpurQuery(q, accepted, base[..n]);
    RootNodesMember(base[..n], base[n - 1]);
    RootNodesMember(base[..n], goal);
    forall u, v, e | sub.Arc(u, v, e)
      ensures sub.hours(e) > 0.0
    {
      assert q.Arc(u, v, e);
    }
  }

  lemma CombinedGood(q: Query, start: int, goal: int, t: seq<int>)
    requires Unblocked(q) && SimplePath(q, start, goal, t)
    ensures GoodPath(q, start, goal, PathResult(t, PathEdges(q, t), Sum(Km, PathEdges(q, t)), PathHours(q, t)))
  {
    PathEdgesWalk(q, t);
  }

  lemma SpurFailed(q: Query, start: int, goal: int, est: Estimator, accepted: seq<PathResult>, n: nat, grade: Grade,
                   r: SearchResult)
    requires Unblocked(q) && accepted != [] && 1 <= n < |accepted[|accepted| - 1].nodes|
    requires var base := accepted[|accepted| - 1].nodes;
             AStar.Answers(SpurQuery(q, accepted, base[..n]), base[n - 1], goal, Thorough(q), grade, r) && r.NoPath?
    ensures SpurOutcome(q, start, goal, est, accepted, n, None)
  {
    if Thorough(q) {
      CoveredVacuously(q, start, goal, GradeOf(q, start, goal, est), accepted, [], accepted[|accepted| - 1].nodes, n);
    }
  }

  /** Blocking edges and nodes leaves a steady estimate steady. */
  lemma SpurSteady(q: Query, est: Estimator, accepted: seq<PathResult>, r: seq<int>, target: int)
    requires Unblocked(q) && Steady(q, est, target) && r != []
    ensures Steady(SpurQuery(q, accepted, r), est, target)
  {
    var sub := SpurQuery(q, accepted, r);
    assert forall u, v, e :: sub.Arc(u, v, e) ==> q.Arc(u, v, e);
  }

  /** What a spur search promises is at least what the whole algorithm needs. */
  lemma SpurGrade(q: Query, start: int, goal: int, est: Estimator, accepted: seq<PathResult>, base: seq<int>, n: nat,
                  time: real)
    requires Unblocked(q) && SimplePath(q, start, goal, base) && 1 <= n < |base|
    requires var sub := SpurQuery(q, accepted, base[..n]);
             sub.Graded(base[n - 1], goal, Promised(sub, est, base[n - 1], goal), time)
    ensures SpurQuery(q, accepted, base[..n]).Graded(base[n - 1], goal, GradeOf(q, start, goal, est), time)
  {
    if est.speedKmH > 0.0 && GradeOf(q, start, goal, est) == TwiceBest {
      SpurSteady(q, est, accepted, base[..n], base[n - 1]);
      SpurSteady(q, est, accepted, base[..n], goal);
    }
  }

  lemma SpurFound(q: Query, start: int, goal: int, est: Estimator, accepted: seq<PathResult>, n: nat, complete: bool,
                  r: SearchResult, c: PathResult)
    requires Request(q) && accepted != [] && SimplePath(q, start, goal, accepted[|accepted| - 1].nodes)
    requires 1 <= n < |accepted[|accepted| - 1].nodes|
    requires var base := accepted[|accepted| - 1].nodes;
             var sub := SpurQuery(q, accepted, base[..n]);
             && sub.PositiveHours() && r.Found?
             && AStar.Answers(sub, base[n - 1], goal, complete, Promised(sub, est, base[n - 1], goal), r)
    requires var t := accepted[|accepted| - 1].nodes[..n] + r.path.nodes[1..];
             Linked(q, t) ==> c == PathResult(t, PathEdges(q, t), Sum(Km, PathEdges(q, t)), PathHours(q, t))
    ensures Linked(q, accepted[|accepted| - 1].nodes[..n] + r.path.nodes[1..])
    ensures SpurOutcome(q, start, goal, est, accepted, n, Some(c))
  {
    var base, grade := accepted[|accepted| - 1].nodes, GradeOf(q, start, goal, est);
    JoinedIsSimple(q, start, goal, accepted, base, n, r.path);
    CombinedGood(q, start, goal, base[..n] + r.path.nodes[1..]);
    if grade != AnyTime {
      SpurGrade(q, start, goal, est, accepted, base, n, r.path.timeHours);
      CoveredBySpur(q, start, goal, grade, accepted, [c], base, n, r.path, c);
    } else {
      CoveredByAny(q, start, goal, accepted, [c], base[..n], c);
    }
  }

  // ----- steps of a round -----

  lemma NotInAppended(pool: seq<PathResult>, c: PathResult, ns: seq<int>)
    ensures NotIn(pool + [c], ns) <==> NotIn(pool, ns) && c.nodes != ns
  {
    var more := pool + [c];
    assert more[|pool|] == c;
    assert forall i :: 0 <= i < |pool| ==> more[i] == pool[i];
  }

  lemma NotInMember(xs: seq<PathResult>, ns: seq<int>)
    ensures NotIn(xs, ns) <==> forall x :: x in xs ==> x.nodes != ns
  {
    if !NotIn(xs, ns) {
      var i :| 0 <= i < |xs| && xs[i].nodes == ns;
      assert xs[i] in xs;
    }
  }

  lemma KeyedAppend(accepted: seq<PathResult>, pool: seq<PathResult>, seen: set<string>, c: PathResult)
    requires Keyed(accepted, pool, seen)
    ensures Keyed(accepted, pool + [c], seen + {Signature(c.nodes)})
  {
    forall ns
      ensures Signature(ns) in seen + {Signature(c.nodes)} <==> !NotIn(accepted, ns) || !NotIn(pool + [c], ns)
    {
      NotInAppended(pool, c, ns);
      if Signature(ns) == Signature(c.nodes) {
        SignatureInjective(ns, c.nodes);
      }
    }
  }

  lemma NoRepeatsAppend(accepted: seq<PathResult>, pool: seq<PathResult>, c: PathResult)
    requires NoRepeats(accepted, pool) && NotIn(accepted, c.nodes) && NotIn(pool, c.nodes)
    ensures NoRepeats(accepted, pool + [c])
  {
    var more := pool + [c];
    NotInMember(pool, c.nodes);
    assert multiset(more) == multiset(pool) + multiset{c};
    forall x | x in more
      ensures NotIn(accepted, x.nodes) && multiset(more)[x] == 1
    {
      if x == c {
        assert c !in pool;
        assert multiset(pool)[c] == 0;
      } else {
        assert x in pool;
      }
    }
  }

  lemma GenuineAppend(q: Query, start: int, goal: int, accepted: seq<PathResult>, pool: seq<PathResult>,
                    seen: set<string>, c: PathResult)
    requires Genuine(q, start, goal, accepted, pool, seen) && GoodPath(q, start, goal, c) && Rechosen(q, c)
    requires Signature(c.nodes) !in seen
    ensures Genuine(q, start, goal, accepted, pool + [c], seen + {Signature(c.nodes)})
  {
    NoRepeatsAppend(accepted, pool, c);
    KeyedAppend(accepted, pool, seen, c);
  }

  lemma SameTime(q: Query, x: PathResult, c: PathResult)
    requires x.nodes == c.nodes && Rechosen(q, x) && x.timeHours == Sum(q.hours, x.edges)
    requires Rechosen(q, c) && c.timeHours == Sum(q.hours, c.edges)
    ensures x.timeHours == c.timeHours
  {
  }

  lemma CoveredByTwin(q: Query, start: int, goal: int, grade: Grade, accepted: seq<PathResult>, c: PathResult,
                      x: PathResult, r: seq<int>)
    requires Covered(q, start, goal, grade, accepted, [c], r) && x.nodes == c.nodes && x.timeHours == c.timeHours
    ensures Covered(q, start, goal, grade, accepted, [x], r)
  {
    forall p | SimplePath(q, start, goal, p) && |r| < |p| && p[..|r|] == r && Parts(accepted, p, |r|)
      ensures HasCandidate([x], r, grade, PathHours(q, p))
    {
      assert HasCandidate([c], r, grade, PathHours(q, p));
      assert x in [x];
    }
  }

  /** A spur attempt without a new candidate: the path was seen, so the pool has it. */
  lemma OpenUnchanged(q: Query, start: int, goal: int, est: Estimator, accepted: seq<PathResult>, pool: seq<PathResult>,
                      seen: set<string>, cap: int, done: nat, c: Option<PathResult>)
    requires Genuine(q, start, goal, accepted, pool, seen) && Open(q, start, goal, est, accepted, pool, cap, done)
    requires done + 1 < |accepted[|accepted| - 1].nodes| && SpurOutcome(q, start, goal, est, accepted, done + 1, c)
    requires c.Some? ==> Signature(c.value.nodes) in seen
    ensures Open(q, start, goal, est, accepted, pool, cap, done + 1)
  {
    var r, grade := accepted[|accepted| - 1].nodes[..done + 1], GradeOf(q, start, goal, est);
    if Thorough(q) {
      if c.Some? {
        CandidateIsNew(accepted, c.value.nodes, done + 1);
        NotInMember(pool, c.value.nodes);
        var x :| x in pool && x.nodes == c.value.nodes;
        SameTime(q, x, c.value);
        CoveredByTwin(q, start, goal, grade, accepted, c.value, x, r);
        CoveredByMore(q, start, goal, grade, accepted, [x], pool, r);
      } else {
        CoveredByMore(q, start, goal, grade, accepted, [], pool, r);
      }
      SpurKeepsRoots(q, start, goal, grade, accepted, pool, pool, cap, done);
    }
  }

  /** A spur attempt with a new candidate. */
  lemma OpenAppend(q: Query, start: int, goal: int, est: Estimator, accepted: seq<PathResult>, pool: seq<PathResult>,
                   cap: int, done: nat, c: PathResult)
    requires accepted != [] && Open(q, start, goal, est, accepted, pool, cap, done)
    requires done + 1 < |accepted[|accepted| - 1].nodes|
    requires SpurOutcome(q, start, goal, est, accepted, done + 1, Some(c))
    ensures Open(q, start, goal, est, accepted, pool + [c], cap, done + 1)
  {
    var grade := GradeOf(q, start, goal, est);
    if Thorough(q) {
      CoveredByMore(q, start, goal, grade, accepted, [c], pool + [c], accepted[|accepted| - 1].nodes[..done + 1]);
      SpurKeepsRoots(q, start, goal, grade, accepted, pool, pool + [c], cap, done);
    }
  }

  lemma AboveAppend(pool: seq<PathResult>, c: PathResult, hours: real)
    requires AllAbove(pool, hours) && hours <= c.timeHours
    ensures AllAbove(pool + [c], hours)
  {
  }

  lemma TimedAppend(q: Query, pool: seq<PathResult>, c: PathResult)
    requires Timed(q, pool) && Linked(q, c.nodes) && c.timeHours == PathHours(q, c.nodes)
    ensures Timed(q, pool + [c])
  {
  }

  /** A candidate spurred from the last accepted path is no faster than that path. */
  lemma SharpAppend(q: Query, start: int, goal: int, est: Estimator, accepted: seq<PathResult>, pool: seq<PathResult>,
                    cap: int, done: nat, c: PathResult)
    requires accepted != [] && Sharp(q, start, goal, accepted, pool) && Bound(q, start, goal, Best, accepted, cap)
    requires done + 1 < |accepted[|accepted| - 1].nodes| && WithinCap(cap, done + 1)
    requires SpurOutcome(q, start, goal, est, accepted, done + 1, Some(c))
    ensures Sharp(q, start, goal, accepted, pool + [c])
  {
    CandidateNotFaster(q, start, goal, accepted, cap, c.nodes, done + 1);
    AboveAppend(pool, c, accepted[|accepted| - 1].timeHours);
    TimedAppend(q, pool, c);
  }

  /** The number of spur positions tried on the last accepted path: all but its goal, or
      as many as the cap allows. */
  function SpurEnd(accepted: seq<PathResult>, cap: int): nat
    requires accepted != []
  {
    var n := |accepted[|accepted| - 1].nodes|;
    if n == 0 then 0 else if cap > 0 && n - 1 > cap then cap else n - 1
  }

  // ----- accepting the head of the sorted pool -----

  lemma SameMembers(pool: seq<PathResult>, sorted: seq<PathResult>)
    requires multiset(sorted) == multiset(pool)
    ensures forall x :: x in sorted <==> x in pool
  {
    forall x
      ensures x in sorted <==> x in pool
    {
      assert x in sorted <==> x in multiset(sorted);
      assert x in pool <==> x in multiset(pool);
    }
  }

  lemma SortedGenuine(q: Query, start: int, goal: int, accepted: seq<PathResult>, pool: seq<PathResult>,
                    sorted: seq<PathResult>, seen: set<string>)
    requires Genuine(q, start, goal, accepted, pool, seen) && multiset(sorted) == multiset(pool)
    ensures Genuine(q, start, goal, accepted, sorted, seen)
  {
    SameMembers(pool, sorted);
    forall ns
      ensures Signature(ns) in seen <==> !NotIn(accepted, ns) || !NotIn(sorted, ns)
    {
      NotInMember(pool, ns);
      NotInMember(sorted, ns);
    }
  }

  lemma HeadOnce(pool: seq<PathResult>, x: PathResult)
    requires pool != [] && x in pool[1..] && multiset(pool)[x] == 1
    ensures x != pool[0] && multiset(pool[1..])[x] == 1
  {
    assert pool == [pool[0]] + pool[1..];
    assert multiset(pool) == multiset{pool[0]} + multiset(pool[1..]);
    assert x in multiset(pool[1..]);
  }

  lemma NoRepeatsAccept(accepted: seq<PathResult>, pool: seq<PathResult>)
    requires NoRepeats(accepted, pool) && pool != []
    ensures NoRepeats(accepted + [pool[0]], pool[1..])
  {
    var c, more := pool[0], accepted + [pool[0]];
    assert c in pool;
    forall x | x in pool[1..]
      ensures NotIn(more, x.nodes) && multiset(pool[1..])[x] == 1
    {
      assert x in pool;
      HeadOnce(pool, x);
      NotInAppended(accepted, c, x.nodes);
    }
  }

  lemma KeyedAccept(accepted: seq<PathResult>, pool: seq<PathResult>, seen: set<string>)
    requires Keyed(accepted, pool, seen) && pool != []
    ensures Keyed(accepted + [pool[0]], pool[1..], seen)
  {
    forall ns
      ensures Signature(ns) in seen <==> !NotIn(accepted + [pool[0]], ns) || !NotIn(pool[1..], ns)
    {
      NotInAppended(accepted, pool[0], ns);
      NotInMember(pool, ns);
      NotInMember(pool[1..], ns);
      assert pool == [pool[0]] + pool[1..];
    }
  }

  lemma GenuineAccept(q: Query, start: int, goal: int, accepted: seq<PathResult>, pool: seq<PathResult>,
                    seen: set<string>)
    requires Genuine(q, start, goal, accepted, pool, seen) && pool != []
    ensures Genuine(q, start, goal, accepted + [pool[0]], pool[1..], seen)
  {
    assert pool[0] in pool;
    NoRepeatsAccept(accepted, pool);
    KeyedAccept(accepted, pool, seen);
  }

  /** Candidates are timed by their chosen edges, so rankable inputs separate them. */
  lemma PoolSeparated(q: Query, start: int, goal: int, pool: seq<PathResult>)
    requires Rankable(q, start, goal) && AllGood(q, start, goal, pool) && forall x :: x in pool ==> Rechosen(q, x)
    ensures Separated(pool) && Timed(q, pool)
  {
    forall x, y | x in pool && y in pool
      ensures Apart(x.timeHours, y.timeHours)
    {
      assert GoodPath(q, start, goal, x) && GoodPath(q, start, goal, y);
    }
  }

  lemma AscendingSnoc(xs: seq<PathResult>, c: PathResult)
    requires xs != [] && Ascending(xs) && xs[|xs| - 1].timeHours <= c.timeHours
    ensures Ascending(xs + [c])
  {
    var more := xs + [c];
    forall i, j | 0 <= i < j < |more|
      ensures more[i].timeHours <= more[j].timeHours
    {
      if j == |xs| && i < |xs| - 1 {
        assert xs[i].timeHours <= xs[|xs| - 1].timeHours;
      }
    }
  }

  /** The head of the sorted pool is a fastest candidate. */
  lemma SortedHead(q: Query, start: int, goal: int, pool: seq<PathResult>, sorted: seq<PathResult>)
    requires Rankable(q, start, goal) && AllGood(q, start, goal, pool) && forall x :: x in pool ==> Rechosen(q, x)
    requires multiset(sorted) == multiset(pool) && sorted != [] && InOrder(sorted)
    ensures AllAbove(sorted, sorted[0].timeHours) && Timed(q, sorted)
  {
    SameMembers(pool, sorted);
    PoolSeparated(q, start, goal, sorted);
    HeadIsFastest(sorted);
  }

  /** One path moves from the pool to the accepted ones; if the times allow an order, it is
      a fastest one and among those a shortest. */
  ghost predicate TakesBest(accepted: seq<PathResult>, pool: seq<PathResult>, more: seq<PathResult>,
                            rest: seq<PathResult>) {
    && |more| == |accepted| + 1 && more[..|accepted|] == accepted
    && multiset([more[|accepted|]] + rest) == multiset(pool)
    && (Separated(pool) ==> Ranked([more[|accepted|]] + rest))
  }

  lemma HeadTaken(accepted: seq<PathResult>, pool: seq<PathResult>, sorted: seq<PathResult>)
    requires sorted != [] && multiset(sorted) == multiset(pool) && (Separated(pool) ==> Ranked(sorted))
    ensures TakesBest(accepted, pool, accepted + [sorted[0]], sorted[1..])
  {
    assert [sorted[0]] + sorted[1..] == sorted;
  }

  lemma AllCoveredByMore(q: Query, start: int, goal: int, grade: Grade, accepted: seq<PathResult>,
                         pool: seq<PathResult>, more: seq<PathResult>, cap: int)
    requires AllRootsCovered(q, start, goal, grade, accepted, pool, cap) && forall c :: c in pool ==> c in more
    ensures AllRootsCovered(q, start, goal, grade, accepted, more, cap)
  {
    forall r | IsRoot(accepted, r) && r != [] && WithinCap(cap, |r|)
      ensures Covered(q, start, goal, grade, accepted, more, r)
    {
      CoveredByMore(q, start, goal, grade, accepted, pool, more, r);
    }
  }

  /** Accepting the head keeps every accepted path as good as the grade says. */
  lemma BoundAccept(q: Query, start: int, goal: int, est: Estimator, accepted: seq<PathResult>, pool: seq<PathResult>,
                    sorted: seq<PathResult>, seen: set<string>, cap: int, done: nat)
    requires Genuine(q, start, goal, accepted, pool, seen)
    requires Bound(q, start, goal, GradeOf(q, start, goal, est), accepted, cap)
    requires Open(q, start, goal, est, accepted, pool, cap, done)
    requires multiset(sorted) == multiset(pool) && sorted != [] && (Rankable(q, start, goal) ==> InOrder(sorted))
    requires done == SpurEnd(accepted, cap)
    ensures Bound(q, start, goal, GradeOf(q, start, goal, est), accepted + [sorted[0]], cap)
  {
    var grade := GradeOf(q, start, goal, est);
    if grade != AnyTime {
      SortedHead(q, start, goal, pool, sorted);
      SameMembers(pool, sorted);
      RoundCoversAll(q, start, goal, grade, accepted, pool, cap, done);
      AllCoveredByMore(q, start, goal, grade, accepted, pool, sorted, cap);
      AcceptKeepsBound(q, start, goal, grade, accepted, sorted, cap);
    }
  }

  /** Accepting any candidate opens the roots of that path only. */
  lemma OpenAccept(q: Query, start: int, goal: int, est: Estimator, accepted: seq<PathResult>, pool: seq<PathResult>,
                   sorted: seq<PathResult>, cap: int, done: nat)
    requires accepted != [] && AllGood(q, start, goal, accepted) && Open(q, start, goal, est, accepted, pool, cap, done)
    requires sorted != [] && forall x :: x in pool ==> x in sorted
    requires done == SpurEnd(accepted, cap)
    ensures Open(q, start, goal, est, accepted + [sorted[0]], sorted[1..], cap, 0)
  {
    var grade := GradeOf(q, start, goal, est);
    if Thorough(q) {
      RoundCoversAll(q, start, goal, grade, accepted, pool, cap, done);
      AllCoveredByMore(q, start, goal, grade, accepted, pool, sorted, cap);
      AcceptKeepsRoots(q, start, goal, grade, accepted, sorted, cap);
    }
  }

  lemma SharpAccept(q: Query, start: int, goal: int, accepted: seq<PathResult>, pool: seq<PathResult>,
                    sorted: seq<PathResult>, seen: set<string>)
    requires Genuine(q, start, goal, accepted, pool, seen) && Sharp(q, start, goal, accepted, pool)
    requires Rankable(q, start, goal) && multiset(sorted) == multiset(pool) && sorted != [] && InOrder(sorted)
    ensures Sharp(q, start, goal, accepted + [sorted[0]], sorted[1..])
  {
    SortedHead(q, start, goal, pool, sorted);
    SameMembers(pool, sorted);
    assert sorted[0] in sorted;
    AscendingSnoc(accepted, sorted[0]);
    TimedAppend(q, accepted, sorted[0]);
    assert forall x :: x in sorted[1..] ==> x in sorted;
  }

  // ----- the whole algorithm -----

  /** Against every simple path outside that leaves the paths within the cap, each of
      them is as good as the grade says. Without a cap that is every path outside. */
  ghost predicate Beyond(q: Query, start: int, goal: int, grade: Grade, paths: seq<PathResult>, cap: int) {
    forall p, x ::
      SimplePath(q, start, goal, p) && NotIn(paths, p) && x in paths && (cap <= 0 || LeavesEarly(paths, p, cap)) ==>
        Meets(grade, x.timeHours, PathHours(q, p))
  }

  /** In ascending order, with no faster simple path outside. */
  ghost predicate Fastest(q: Query, start: int, goal: int, paths: seq<PathResult>, cap: int) {
    Timed(q, paths) && Ascending(paths) && Beyond(q, start, goal, Best, paths, cap)
  }

  /** Nothing is left outside, as far as the cap lets the algorithm see. */
  ghost predicate Exhausted(q: Query, start: int, goal: int, paths: seq<PathResult>, cap: int) {
    forall p :: SimplePath(q, start, goal, p) && NotIn(paths, p) ==> cap > 0 && !LeavesEarly(paths, p, cap)
  }

  lemma OutsiderLeaves(q: Query, start: int, goal: int, accepted: seq<PathResult>, p: seq<int>, cap: int)
    requires accepted != [] && AllGood(q, start, goal, accepted) && SimplePath(q, start, goal, p) && NotIn(accepted, p)
    requires cap <= 0
    ensures LeavesEarly(accepted, p, cap)
  {
    StartsTogether(q, start, goal, accepted, p);
    var m := LeavesSomewhere(q, start, goal, accepted, p, 0, 1);
  }

  lemma BoundIsBeyond(q: Query, start: int, goal: int, grade: Grade, accepted: seq<PathResult>, cap: int)
    requires accepted != [] && AllGood(q, start, goal, accepted) && Bound(q, start, goal, grade, accepted, cap)
    ensures Beyond(q, start, goal, grade, accepted, cap)
  {
    forall p, x | SimplePath(q, start, goal, p) && NotIn(accepted, p) && x in accepted
                  && (cap <= 0 || LeavesEarly(accepted, p, cap))
      ensures Meets(grade, x.timeHours, PathHours(q, p))
    {
      if cap <= 0 {
        OutsiderLeaves(q, start, goal, accepted, p, cap);
      }
    }
  }

  lemma EmptyPoolExhausts(q: Query, start: int, goal: int, est: Estimator, accepted: seq<PathResult>, cap: int,
                          done: nat)
    requires accepted != [] && AllGood(q, start, goal, accepted) && Thorough(q)
    requires Open(q, start, goal, est, accepted, [], cap, done)
    requires done == SpurEnd(accepted, cap)
    ensures Exhausted(q, start, goal, accepted, cap)
  {
    var grade := GradeOf(q, start, goal, est);
    RoundCoversAll(q, start, goal, grade, accepted, [], cap, done);
    forall p | SimplePath(q, start, goal, p) && NotIn(accepted, p)
      ensures cap > 0 && !LeavesEarly(accepted, p, cap)
    {
      if cap <= 0 {
        OutsiderLeaves(q, start, goal, accepted, p, cap);
      }
      if LeavesEarly(accepted, p, cap) {
        OutsiderBound(q, start, goal, grade, accepted, [], cap, p);
        assert false;
      }
    }
  }

  lemma FirstIsTimed(q: Query, start: int, goal: int, x: PathResult)
    requires Unblocked(q) && ChosenFastest(q) && GoodPath(q, start, goal, x) && q.NoneFaster(start, goal, x.timeHours)
    ensures x.timeHours == PathHours(q, x.nodes)
  {
    WalkLinked(q, x.nodes, x.edges);
    PathEdgesWalk(q, x.nodes);
    assert q.Connects(x.nodes, PathEdges(q, x.nodes), start, goal);
  }

  lemma FirstBound(q: Query, start: int, goal: int, grade: Grade, x: PathResult, cap: int)
    requires Unblocked(q) && q.Graded(start, goal, grade, x.timeHours)
    ensures Bound(q, start, goal, grade, [x], cap)
  {
    forall p | SimplePath(q, start, goal, p)
      ensures Meets(grade, x.timeHours, PathHours(q, p))
    {
      PathEdgesWalk(q, p);
      assert q.Connects(p, PathEdges(q, p), start, goal);
    }
  }

  lemma FirstGrade(q: Query, start: int, goal: int, est: Estimator, time: real)
    requires start in q.net.nodes && goal in q.net.nodes && q.Graded(start, goal, Promised(q, est, start, goal), time)
    ensures q.Graded(start, goal, GradeOf(q, start, goal, est), time)
  {
  }

  lemma FirstKeyed(x: PathResult)
    ensures Keyed([x], [], {Signature(x.nodes)})
  {
    forall ns
      ensures Signature(ns) in {Signature(x.nodes)} <==> !NotIn([x], ns) || !NotIn([], ns)
    {
      if Signature(ns) == Signature(x.nodes) {
        SignatureInjective(ns, x.nodes);
        assert [x][0].nodes == ns;
      }
    }
  }

  /** The first path is exact and simple, and starts the invariant. */
  lemma FirstPath(q: Query, start: int, goal: int, est: Estimator, cap: int, complete: bool, r: SearchResult)
    requires Request(q) && AStar.Answers(q, start, goal, complete, Promised(q, est, start, goal), r) && r.Found?
    ensures Kept(q, start, goal, est, [r.path], [], {Signature(r.path.nodes)}, cap, 0)
  {
    var x := r.path;
    WalkLinked(q, x.nodes, x.edges);
    forall i | 0 <= i < |x.nodes|
      ensures x.nodes[i] in q.net.nodes
    {
      assert q.Usable(x.nodes[i]);
    }
    assert GoodPath(q, start, goal, x);
    FirstKeyed(x);
    assert q.Usable(x.nodes[0]) && q.Usable(x.nodes[|x.nodes| - 1]);
    FirstGrade(q, start, goal, est, x.timeHours);
    FirstBound(q, start, goal, GradeOf(q, start, goal, est), x, cap);
    if Ideal(q, start, goal, est) {
      FirstIsTimed(q, start, goal, x);
    }
  }

  lemma KeptAppend(q: Query, start: int, goal: int, est: Estimator, accepted: seq<PathResult>, pool: seq<PathResult>,
                   seen: set<string>, cap: int, done: nat, c: PathResult)
    requires Kept(q, start, goal, est, accepted, pool, seen, cap, done) && Signature(c.nodes) !in seen
    requires done + 1 < |accepted[|accepted| - 1].nodes| && WithinCap(cap, done + 1)
    requires SpurOutcome(q, start, goal, est, accepted, done + 1, Some(c))
    ensures Kept(q, start, goal, est, accepted, pool + [c], seen + {Signature(c.nodes)}, cap, done + 1)
  {
    OpenAppend(q, start, goal, est, accepted, pool, cap, done, c);
    if Ideal(q, start, goal, est) {
      SharpAppend(q, start, goal, est, accepted, pool, cap, done, c);
    }
    GenuineAppend(q, start, goal, accepted, pool, seen, c);
    SpurredHere(accepted, c.nodes, done + 1, cap);
  }

  lemma KeptAccept(q: Query, start: int, goal: int, est: Estimator, accepted: seq<PathResult>, pool: seq<PathResult>,
                   sorted: seq<PathResult>, seen: set<string>, cap: int, done: nat)
    requires Kept(q, start, goal, est, accepted, pool, seen, cap, done) && done == SpurEnd(accepted, cap)
    requires multiset(sorted) == multiset(pool) && sorted != [] && (Rankable(q, start, goal) ==> InOrder(sorted))
    ensures Kept(q, start, goal, est, accepted + [sorted[0]], sorted[1..], seen, cap, 0)
  {
    SameMembers(pool, sorted);
    OpenAccept(q, start, goal, est, accepted, pool, sorted, cap, done);
    BoundAccept(q, start, goal, est, accepted, pool, sorted, seen, cap, done);
    if Ideal(q, start, goal, est) {
      SharpAccept(q, start, goal, accepted, pool, sorted, seen);
    }
    SortedGenuine(q, start, goal, accepted, pool, sorted, seen);
    GenuineAccept(q, start, goal, accepted, sorted, seen);
    SpurredAccept(accepted, pool, sorted[0], sorted[1..], cap);
  }

  /** What the accepted paths promise as soon as the algorithm stops. */
  lemma KeptPromises(q: Query, start: int, goal: int, est: Estimator, accepted: seq<PathResult>, pool: seq<PathResult>,
                     seen: set<string>, cap: int, done: nat)
    requires Kept(q, start, goal, est, accepted, pool, seen, cap, done)
    ensures AllGood(q, start, goal, accepted) && Distinctly(accepted)
    ensures forall i :: 0 < i < |accepted| ==> Rechosen(q, accepted[i])
    ensures SpurredInTurn(accepted, cap)
    ensures Beyond(q, start, goal, GradeOf(q, start, goal, est), accepted, cap)
    ensures Ideal(q, start, goal, est) ==> Fastest(q, start, goal, accepted, cap)
  {
    BoundIsBeyond(q, start, goal, GradeOf(q, start, goal, est), accepted, cap);
  }
}
