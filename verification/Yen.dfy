/** Yen's k fastest loopless paths over the bidirectional search, with an optional cap
    on the spur positions tried per accepted path. */
module Yen {
  import opened Wrappers
  import opened RoadNetwork
  import opened Heuristic
  import opened DirectEdge
  import opened PathSignature
  import opened YenPaths
  import opened YenPool
  import opened YenCandidates
  import opened YenRounds
  import AStar
  import BidirectionalSearch

  datatype KResult = Paths(paths: seq<PathResult>) | Failed(error: SearchResult)

  /** Searches a spur path at position spurIdx of the last accepted path and joins it to
      the root. */
  method TrySpur(q: Query, start: int, goal: int, est: Estimator, accepted: seq<PathResult>, spurIdx: nat)
    returns (c: Option<PathResult>)
    requires Request(q) && accepted != [] && SimplePath(q, start, goal, accepted[|accepted| - 1].nodes)
    requires spurIdx + 1 < |accepted[|accepted| - 1].nodes|
    ensures SpurOutcome(q, start, goal, est, accepted, spurIdx + 1, c)
  {
    var base := accepted[|accepted| - 1];
    var spurID := base.nodes[spurIdx];
    var root := base.nodes[..spurIdx + 1];
    var blockedEdges := BlockEdges(accepted, root);
    var blockedNodes := BlockNodes(root);
    SpurEndsUsable(q, start, goal, accepted, base.nodes, spurIdx + 1);
    var sub := q.(blockedEdges := blockedEdges, blockedNodes := blockedNodes);
    var spur := BidirectionalSearch.Search(sub, spurID, goal, est);
    if !spur.Found? {
      SpurFailed(q, start, goal, est, accepted, spurIdx + 1, Promised(sub, est, spurID, goal), spur);
      return None;
    }
    c := CombineRootAndSpur(q, root, spur.path.nodes);
    SpurFound(q, start, goal, est, accepted, spurIdx + 1, Thorough(q), spur,
              if c.Some? then c.value else base);
  }

  /** Spurs from every allowed position of the last accepted path. */
  method SpurRound(q: Query, start: int, goal: int, est: Estimator, cap: int, accepted: seq<PathResult>,
                   pool0: seq<PathResult>, seen0: set<string>)
    returns (pool: seq<PathResult>, seen: set<string>)
    requires Request(q) && Kept(q, start, goal, est, accepted, pool0, seen0, cap, 0)
    ensures Kept(q, start, goal, est, accepted, pool, seen, cap, SpurEnd(accepted, cap))
    ensures pool0 <= pool && seen0 <= seen
  {
    pool, seen := pool0, seen0;
    var base := accepted[|accepted| - 1];
    assert base in accepted;
    var spurEnd := |base.nodes| - 1;
    if cap > 0 && spurEnd > cap {
      spurEnd := cap;
    }
    for spurIdx := 0 to spurEnd
      invariant Kept(q, start, goal, est, accepted, pool, seen, cap, spurIdx)
      invariant pool0 <= pool && seen0 <= seen
    {
      var total := TrySpur(q, start, goal, est, accepted, spurIdx);
      if total.None? {
        OpenUnchanged(q, start, goal, est, accepted, pool, seen, cap, spurIdx, total);
        continue;
      }
      var sig := BuildSignature(total.value.nodes);
      if sig in seen {
        OpenUnchanged(q, start, goal, est, accepted, pool, seen, cap, spurIdx, total);
        continue;
      }
      KeptAppend(q, start, goal, est, accepted, pool, seen, cap, spurIdx, total.value);
      seen := seen + {sig};
      pool := pool + [total.value];
    }
  }

  lemma SameSize(pool: seq<PathResult>, sorted: seq<PathResult>)
    requires multiset(sorted) == multiset(pool)
    ensures |sorted| == |pool|
  {
    assert |multiset(sorted)| == |sorted| && |multiset(pool)| == |pool|;
  }

  /** Sorts the pool and moves its head to the accepted paths. */
  method AcceptBest(q: Query, start: int, goal: int, est: Estimator, cap: int, accepted: seq<PathResult>,
                    pool: seq<PathResult>, ghost seen: set<string>)
    returns (more: seq<PathResult>, rest: seq<PathResult>)
    requires accepted != [] && pool != []
    requires Kept(q, start, goal, est, accepted, pool, seen, cap, SpurEnd(accepted, cap))
    ensures |more| == |accepted| + 1 && more[0] == accepted[0]
    ensures TakesBest(accepted, pool, more, rest)
    ensures Kept(q, start, goal, est, more, rest, seen, cap, 0)
  {
    var sorted := SortCandidates(pool);
    SameSize(pool, sorted);
    if Rankable(q, start, goal) {
      PoolSeparated(q, start, goal, pool);
    }
    KeptAccept(q, start, goal, est, accepted, pool, sorted, seen, cap, SpurEnd(accepted, cap));
    HeadTaken(accepted, pool, sorted);
    more, rest := accepted + [sorted[0]], sorted[1..];
  }

  /** Up to k distinct loopless paths. A cap of zero or less means no cap. */
  method KFastestPaths(q: Query, start: int, goal: int, k: int, maxSpurNodes: int, est: Estimator) returns (r: KResult)
    requires Request(q)
    ensures r.Failed? ==> !r.error.Found?
                          && AStar.Answers(q, start, goal, Thorough(q), Promised(q, est, start, goal), r.error)
    ensures r.Paths? ==> 1 <= |r.paths| <= (if k <= 0 then 1 else k)
    ensures r.Paths? ==> AllGood(q, start, goal, r.paths) && Distinctly(r.paths)
                         && forall i :: 0 < i < |r.paths| ==> Rechosen(q, r.paths[i])
    ensures r.Paths? ==> SpurredInTurn(r.paths, maxSpurNodes)
    ensures r.Paths? ==> q.Graded(start, goal, Promised(q, est, start, goal), r.paths[0].timeHours)
    ensures r.Paths? ==> Beyond(q, start, goal, GradeOf(q, start, goal, est), r.paths, maxSpurNodes)
    ensures r.Paths? && Ideal(q, start, goal, est) ==> Fastest(q, start, goal, r.paths, maxSpurNodes)
    ensures r.Paths? && |r.paths[0].nodes| < 3 ==> |r.paths| == 1
    ensures r.Paths? && start != goal && DirectIsFastest(q, start, goal) ==> r.paths[0].nodes == [start, goal]
    ensures r.Paths? && Thorough(q) && |r.paths| < k && |r.paths[0].nodes| >= 3 ==>
              Exhausted(q, start, goal, r.paths, maxSpurNodes)
  {
    var want := if k <= 0 then 1 else k;
    var first := BidirectionalSearch.Search(q, start, goal, est);
    if !first.Found? {
      return Failed(first);
    }
    FirstPath(q, start, goal, est, maxSpurNodes, Thorough(q), first);
    var accepted, pool := [first.path], [];
    if want == 1 || |first.path.nodes| < 3 {
      KeptPromises(q, start, goal, est, accepted, pool, {Signature(first.path.nodes)}, maxSpurNodes, 0);
      return Paths(accepted);
    }
    var sig := BuildSignature(first.path.nodes);
    var seen := {sig};
    while |accepted| < want
      invariant 1 <= |accepted| <= want && accepted[0] == first.path
      invariant Kept(q, start, goal, est, accepted, pool, seen, maxSpurNodes, 0)
      decreases want - |accepted|
    {
      pool, seen := SpurRound(q, start, goal, est, maxSpurNodes, accepted, pool, seen);
      if pool == [] {
        if Thorough(q) {
          EmptyPoolExhausts(q, start, goal, est, accepted, maxSpurNodes, SpurEnd(accepted, maxSpurNodes));
        }
        KeptPromises(q, start, goal, est, accepted, pool, seen, maxSpurNodes, SpurEnd(accepted, maxSpurNodes));
        return Paths(accepted);
      }
      accepted, pool := AcceptBest(q, start, goal, est, maxSpurNodes, accepted, pool, seen);
    }
    KeptPromises(q, start, goal, est, accepted, pool, seen, maxSpurNodes, 0);
    r := Paths(accepted);
  }
}
