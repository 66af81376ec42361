# Route search: a Dafny model

This project models the in-process route search of a geographic service and proves what
the search promises: the road graph with its redundant indexes, A* search, bidirectional
A* search, Yen's k fastest loopless paths, and the three consumers of a path, namely the
polyline codec, turn-by-turn instructions and transit legs.

The modules follow the program.

- `RoadNetwork` holds edges, queries (profile filter, edge times, blocked edges and
  nodes), walks and their sums; `Heuristic` the straight-line estimate; `Reals` the
  arithmetic both and the snap need.
- `Frontier`, `SearchTree` and `SearchCost` are the theory of one search direction: the
  invariant of a best-first search with lazy deletion, the walk stored in its links, and
  a potential that bounds its pops. Both A* and each half of the bidirectional search
  use it.
- `DirectEdge` shows that a direct edge which is a fastest route is never given up once
  found; `AStar` and, through `DirectRuns`, every run of the bidirectional search use it.
- `AStar` is the unidirectional search. `Bidirectional` is the two-sided search as a
  state machine whose heap ties are open, `BidirectionalProof` what holds of all its
  runs, and `BidirectionalSearch` the loops that carry out such a run.
- `SoundEstimates` says when the straight-line estimate is steady, `EarlyStop` is a family
  of runs that stop as early as the stopping rule allows, and `EstimateLimits` holds the
  exact limits of the optimality claim and of the "no path" answer.
- `PathSignature`, `YenPaths`, `YenSpur`, `YenPool`, `YenCandidates`, `YenRounds` and `Yen`
  are the k fastest paths, from the edges chosen between two nodes to the whole algorithm;
  `YenLimits` holds its exact limits, with calls that show them.
- `GraphIndex` and `Snapping` specify the graph's indexes over every sequence of
  additions, `SearchBounds` bounds the searches on any graph built that way, and
  `RoadGraph` holds the mutable classes that implement them. `GreatCircle`, `GlobeReach`
  and `GlobeSnap` apply the snapping results to the haversine distance the snap uses.
- `Words` (64-bit integers), `PolylineCodec` and `Polyline`, `Instructions`, and `Transit`
  are the consumers.

Where the source updates state in loops, the model does too: the searches, Yen's rounds,
the codec, the maneuver scan, the leg splitter and the snapping scan are methods with
loops, each proved equal to a specification function or to one step of the state
machine, and the laws are then proved of the specification. Paths carry node ids, not
node objects.

## What the code does not keep

Six promises of the code or its documentation do not hold of the code as it stands. The
code was kept and the exact condition proved.

- `internal/routing/bidir.go:22-29` claims optimality for any admissible estimate. The
  stopping test reads the cost so far of the queue tops although the queues are ordered
  by estimated total, so with a positive reference speed, which every transport profile
  has (`internal/routing/engine.go:182-219`), the search can stop too early.
  `EstimateLimits.FastestExactlyWithoutEstimate` shows that the answer is always fastest
  exactly when the speed is not positive. What does hold is
  `BidirectionalProof.HaltedWithinTwice`: with a steady estimate the answer takes at most
  twice as long as any route. Two is exact: `EstimateLimits.TwiceIsExact` shows that no
  smaller factor holds on all sound inputs.
- A meeting node with a negative id reads as "no meeting yet"
  (`internal/routing/bidir.go:118-126`, `internal/routing/bidir.go:286`), so the search
  can report no path where one exists.
  `EstimateLimits.NoPathTruthfulExactlyWithoutNegatives` gives the exact node sets on
  which the answer can be trusted.
- A first path of two nodes ends Yen's algorithm although other paths may exist
  (`internal/routing/yen.go:41`). `YenLimits.Ask` and `YenLimits.FewerThanKExactly` give
  the exact inputs, those with a direct edge that is a fastest route: every run returns
  that edge (`DirectRuns.DirectOutcome`). `YenLimits.AskDetour` is a call that misses a path.
- An alternative is re-built from the shortest instead of the fastest parallel edges
  (`internal/routing/yen.go:153`), so it can be reported too slow and ranked too late:
  `YenLimits.AskTwoStreets` is such a call. `YenPaths.RechoosingNeverSlower` shows on which
  graphs that never costs time, and `YenLimits.AlternativeFastestExactly` for which
  returned paths it does not.
- The snapping window ignores that a degree of longitude shrinks with latitude, and that
  longitudes wrap around (`internal/routing/graph.go:219`). On the globe and with the
  haversine distance (`internal/utils/geo.go:8`), snapping agrees with a full scan exactly
  when the limit reaches neither a pole nor the antimeridian and the two columns of cells
  at its reach are scanned: `GlobeSnap.HaversineSnapExactly`. The 50 km snap
  (`internal/routing/multimodal.go:16-18`) fails wherever the cosine of the latitude is at
  most 0.89, from about 27 degrees on: `GreatCircle.RailSnapMissesFrom27`.
- The end of a one-way motorway that allows walking counts as routable on foot, although
  walking may not use the motorway (`internal/routing/graph.go:245-279`,
  `internal/routing/engine.go:340-342`). `GraphIndex.RoutableMeansTouched` gives the exact
  condition, `GraphIndex.RoutableUntouched` the input.

## Assumptions

- Times, distances and coordinates are exact; `math.MaxFloat64` is "none". Not-a-number
  and infinite values do not occur.
- The times of permitted edges are not negative for validity, completeness and
  optimality, and positive where simple paths are promised and in Yen's algorithm. They
  are positive whenever lengths are (`RoadNetwork.EdgeTravelTimeHours`).
- Start and goal are not blocked. Yen's spur searches are shown to keep to this.
- The reverse adjacency list, when there is one, matches the edges. That is proved of
  every graph made by `AddNode` and `AddEdge`.
- Ranking Yen's paths needs `YenRounds.Rankable`: no negative ids (or no reverse list),
  parallel edges chosen well, and path times that are equal or more than 1e-9 apart,
  because the comparator with its tolerance is no order otherwise
  (`YenCandidates.LessMayCycle`). Then the answer is the k fastest without an estimate
  (`YenRounds.Ideal`), and within twice of every path outside with an estimate that is
  steady toward every node. That the paths are simple, exact and distinct is proved
  without any of this; that none is left out needs only the absence of negative ids and a
  first path with an inner node.
- The heap is "some entry with the least estimated total"; the library sort is any
  permutation, and an ordered one where the comparator is an order.
- The map of settled nodes stores their settling order where the source stores `true`;
  only membership is ever read by the search.
- Rounded coordinates fit a machine integer.
- Square root, sine, cosine, pi, turn angles, street names and the profile functions are
  parameters. Square root is used only through its defining property, the trigonometric
  functions through a few laws (`GreatCircle.Trig`), and the distance through the
  haversine formula. The general results of `Snapping` hold of any distance.
- Coordinates that are snapped lie on the globe: latitudes from -90 to 90, longitudes from
  -180 to 180 degrees.

## Model

| member | source | states |
|---|---|---|
| `RoadNetwork.EdgeTravelTimeHours` | internal/routing/astar.go:225-242 | without an override a positive stored time is the time; otherwise time multiplied by the usable speed is the length, where the usable speed is the override's, or the edge's own without one, if positive and 40 km/h if not; a positive length gives a positive time |
| `Heuristic.FlatTriangle` | internal/routing/astar.go:213-218 | the flat distance with one fixed cosine obeys the triangle inequality |
| `Heuristic.FlatDegrees` | internal/routing/astar.go:213-218 | a degree along a meridian is 111.195 km, and a degree along a parallel the fraction of it that the fixed cosine says |
| `Heuristic.EstimateStep` | internal/routing/astar.go:196-201 | the estimate drops along an edge by at most the edge's flat length over the reference speed |
| `Frontier.PeekTop` | internal/routing/astar.go:30-51 | an index of an entry with the least estimated total |
| `Frontier.ForwardHopsCover` | internal/routing/bidir.go:172-188 | the edges that pass all filters are exactly the permitted, unblocked arcs out of a node |
| `Frontier.FastestIntoIsBest` | internal/routing/bidir.go:236-259 | the edge picked from u to v is permitted and no permitted parallel edge is faster; none only if there is none |
| `Frontier.BackwardHopsArcs` | internal/routing/bidir.go:226-265 | every arc offered going backward is permitted and unblocked and enters the node |
| `Frontier.BackwardHopsCover` | internal/routing/bidir.go:226-265 | going backward, every arc into a node is covered by an offered arc from the same tail that is at least as fast |
| `Frontier.StartInv` | internal/routing/astar.go:107-124 | the initial state satisfies the search invariant |
| `Frontier.DiscardInv` | internal/routing/astar.go:143-148 | dropping a stale entry keeps the invariant |
| `Frontier.SettleMid` | internal/routing/astar.go:141-153 | a settled node's popped cost is its score, and with a consistent estimate it is final and settled in order |
| `Frontier.RelaxMid` | internal/routing/astar.go:155-189 | relaxing one edge keeps the tree exact, every open score queued, and settled scores unchanged: no node is ever reopened |
| `Frontier.ExpandInv` | internal/routing/astar.go:155-190 | after all edges of the settled node the full invariant holds again and settled scores are unchanged |
| `SearchTree.ChainExact` | internal/routing/astar.go:244-266 | following the links from any node leads to the root over permitted arcs whose times and lengths sum to exactly its two scores |
| `SearchTree.ChainDescends` | internal/routing/astar.go:244-266 | the chain visits no node twice and, for positive times, its scores strictly fall |
| `SearchTree.ForwardTreeWalk` | internal/routing/astar.go:257-265 | the reversed chain is a simple walk from the start with exact sums |
| `SearchTree.BackwardTreeWalk` | internal/routing/bidir.go:328-339 | the backward chain is a simple walk to the goal with exact sums |
| `SearchTree.ExhaustedReachesAll` | internal/routing/astar.go:193-193 | with an empty queue every node some walk leads to has been reached |
| `SearchTree.NoWalkBeatsQueue` | internal/routing/astar.go:111-114 | with a consistent estimate the end of any walk is settled at no more than the walk's time, or a queued entry bounds the walk from below |
| `SearchCost.StartPotential` | internal/routing/bidir.go:87-112 | the potential starts at one plus the number of edges, duplicates in the reverse list included |
| `SearchCost.ExpandPays` | internal/routing/bidir.go:158-208 | settling and expanding a node lowers the potential, however many entries it pushes |
| `DirectEdge.FirstHeld` | internal/routing/astar.go:155-190 | when a direct edge is a fastest route, the first expansion links the goal to the start with a score no route beats |
| `DirectEdge.HeldAfter` | internal/routing/astar.go:171-189 | and no later step changes that score or that link, whatever the estimate |
| `AStar.RelaxEdge` | internal/routing/astar.go:156-189 | one iteration of the edge loop: every filter, then the relaxation, or no change |
| `AStar.ExpandNode` | internal/routing/astar.go:155-190 | the edge loop relaxes exactly the hops that pass the filters, in list order |
| `AStar.BuildPath` | internal/routing/astar.go:244-266 | returns the reversed chain of the goal with the goal's two scores |
| `AStar.Search` | internal/routing/astar.go:63-194 | terminates after at most one plus the edge count pops; a found path is a permitted, unblocked, exact walk, simple for positive times, and fastest under a consistent estimate; no path is reported only if there is none; missing ends are reported as such; a direct edge that is a fastest route is returned under any estimate |
| `AStar.GoalPopped` | internal/routing/astar.go:150-152 | the first pop of the goal is optimal under a consistent estimate |
| `AStar.QueueExhausted` | internal/routing/astar.go:193-193 | an empty queue without the goal settled means that no route exists |
| `AStar.AnswersNoPath` | internal/routing/astar.go:10-11 | "no path" exactly when no permitted, unblocked route exists |
| `AStar.AnswersAgree` | internal/routing/bidir.go:33-36 | any two exact, complete answers agree: same failure, or same time, so the fallback does not change the cost |
| `Bidirectional.FirstLeastIsKept` | internal/routing/bidir.go:116-126 | however many meetings are offered, the one kept is the first of the cheapest, with its node and length |
| `Bidirectional.ReachableNext` | internal/routing/bidir.go:129-284 | reachable states are closed under the steps of the loop |
| `BidirectionalProof.RelaxMet` | internal/routing/bidir.go:195-207 | relaxing a hop and offering the meeting keeps the best meeting at most the sum of both scores of every node reached from both sides |
| `BidirectionalProof.PopMet` | internal/routing/bidir.go:158-208 | so does a whole iteration, and the best cost and length stay exactly the scores of the meeting node |
| `BidirectionalProof.MeetAtIdle` | internal/routing/bidir.go:167-170 | the meeting check on settling never changes anything, since relaxing has already offered every meeting |
| `BidirectionalProof.AdvanceInv` | internal/routing/bidir.go:129-283 | one iteration, forward or backward, keeps the joint invariant |
| `BidirectionalProof.ReachableInv` | internal/routing/bidir.go:129-284 | every state of every run satisfies it, for any estimate and any heap ties |
| `BidirectionalProof.AdvancePays` | internal/routing/bidir.go:129-284 | every iteration lowers the joint potential |
| `BidirectionalProof.SidesPay` | internal/routing/bidir.go:156-284 | over a run each side's pops are paid for by its own potential |
| `BidirectionalProof.RunLength` | internal/routing/bidir.go:129-284 | each direction makes at most one plus its edge count pops, so a run's length is bounded by the two together |
| `BidirectionalProof.StitchedExact` | internal/routing/bidir.go:298-356 | the stitched path is a permitted, unblocked walk from start to goal with one more node than edges, whose sums are exactly the reported time and distance, for any estimate |
| `BidirectionalProof.StitchedSimple` | internal/routing/bidir.go:298-356 | it visits no node twice when times are positive, for any estimate |
| `BidirectionalProof.NoMeetingNoRoute` | internal/routing/bidir.go:286-288 | stopping without a meeting, as soon as one queue is empty, means that no route exists |
| `BidirectionalProof.WalkNotFaster` | internal/routing/bidir.go:141-152 | without an estimate, when the loop stops no walk beats the best meeting, even with stale entries on top |
| `BidirectionalProof.HaltedOptimal` | internal/routing/bidir.go:22-29 | so the cost at the stop is the minimum over all routes |
| `BidirectionalProof.HaltedWithinTwice` | internal/routing/bidir.go:141-152 | with an estimate that is never negative, zero at its target and consistent, the cost at the stop is at most twice that of any route |
| `BidirectionalProof.ZeroEstimateConsistent` | internal/routing/bidir.go:67-72 | a reference speed that is not positive makes both estimates zero, which is consistent |
| `BidirectionalProof.OutcomeAnswers` | internal/routing/bidir.go:286-289 | whatever a run returns answers the query: exact and simple, complete without negative ids, optimal without an estimate, within twice the optimum with a steady one |
| `DirectRuns.RunMetDirectly` | internal/routing/bidir.go:128-284 | when a direct edge is a fastest route, every state of every run after the first step has the goal linked to the start and the best meeting at the goal, for any estimate and any ties |
| `DirectRuns.DirectOutcome` | internal/routing/bidir.go:286-289 | so every outcome of every run has the nodes start and goal and the least time, or is "no path" exactly when the goal's id is negative |
| `BidirectionalSearch.FallbackAnswers` | internal/routing/bidir.go:33-36 | the fallback without a reverse list keeps every promise of the bidirectional search |
| `BidirectionalSearch.ExpandForward` | internal/routing/bidir.go:172-208 | the forward edge loop is the expansion step of the state machine |
| `BidirectionalSearch.FindFastest` | internal/routing/bidir.go:238-256 | the first fastest permitted edge between two nodes |
| `BidirectionalSearch.ExpandBackward` | internal/routing/bidir.go:228-282 | the backward loop over the reverse list is the expansion step of the state machine |
| `BidirectionalSearch.PopForward` | internal/routing/bidir.go:156-208 | a forward iteration is the pop step of the state machine |
| `BidirectionalSearch.PopBackward` | internal/routing/bidir.go:210-283 | a backward iteration is the pop step of the state machine |
| `BidirectionalSearch.RunToHalt` | internal/routing/bidir.go:128-284 | the main loop terminates in a reachable state in which the stopping test holds |
| `BidirectionalSearch.ReverseInPlace` | internal/routing/bidir.go:321-326 | swapping from both ends turns an array around |
| `BidirectionalSearch.BuildBidirPath` | internal/routing/bidir.go:298-356 | returns the reversed forward chain followed by the backward chain, with the meeting's cost and length |
| `BidirectionalSearch.Search` | internal/routing/bidir.go:37-290 | terminates; exact, simple, complete, and optimal or within twice the optimum as the outcome of a run, and the same through the fallback without a reverse list; a direct edge that is a fastest route is returned under any estimate |
| `SoundEstimates.FlatIsSteady` | internal/routing/astar.go:203-212 | the straight-line estimate is never negative, zero at its target and consistent, for any target whose cosine lets no edge beat the reference speed |
| `SoundEstimates.SoundIsSteady` | internal/routing/astar.go:203-212 | a reference speed no edge exceeds makes the estimate steady and consistent in both directions |
| `EarlyStop.GapOutcome` | internal/routing/bidir.go:141-152 | for any positive reference speed and any short edge there is a six-node input on which a run returns a route of two hours |
| `EarlyStop.GapRoute` | internal/routing/bidir.go:22-29 | that input has a route of one hour and two short edges |
| `EarlyStop.GapSound` | internal/routing/astar.go:203-212 | and no edge of it beats the reference speed |
| `EstimateLimits.TwiceIsExact` | internal/routing/bidir.go:141-152 | with a positive reference speed the search stays within a factor of the optimum on all sound inputs if and only if the factor is at least two |
| `EstimateLimits.FastestExactlyWithoutEstimate` | internal/routing/bidir.go:22-29 | the search returns a fastest route on all sound inputs if and only if the reference speed is not positive |
| `EstimateLimits.NoPathTruthfulExactlyWithoutNegatives` | internal/routing/bidir.go:286-288 | "no path" is true on every graph over a node set if and only if no negative id shares the set with another node |
| `PathSignature.SignatureInjective` | internal/routing/yen.go:172-181 | different node sequences have different signatures |
| `PathSignature.SignatureWrites` | internal/routing/yen.go:172-181 | an id is written in decimal with a sign if negative, and ids are joined by commas |
| `PathSignature.BuildSignature` | internal/routing/yen.go:172-181 | the builder loop writes the decimal ids joined by commas |
| `YenPaths.ShortestToIsShortest` | internal/routing/yen.go:143-158 | the edge chosen between two nodes is a permitted one of least length, and none only if there is none |
| `YenPaths.WalkLinked` | internal/routing/yen.go:125-133 | every walk can be re-chosen, and no slower when the chosen edges are also fastest |
| `YenPaths.RechoosingNeverSlower` | internal/routing/yen.go:143-158 | re-choosing never slows any walk if and only if the edge chosen between any two nodes is a fastest one |
| `YenPaths.PathHoursJoin` | internal/routing/yen.go:119-133 | joining two paths at a node adds their times |
| `YenPaths.NoProperExtension` | internal/routing/yen.go:59-67 | no simple path to the goal is a proper prefix of another |
| `YenSpur.TailIsSpurWalk` | internal/routing/yen.go:57-74 | the rest of every simple path that leaves the accepted ones at the spur node survives the blocked edges and nodes |
| `YenSpur.JoinedIsSimple` | internal/routing/yen.go:69-82 | root plus spur path is a simple path from start to goal that leaves all accepted paths at the spur node |
| `YenSpur.JoinedIsGraded` | internal/routing/yen.go:74-82 | whatever the spur search promises, the fastest route or one within twice of it, holds of the joined path against every simple path leaving there |
| `YenPool.LeavesSomewhere` | internal/routing/yen.go:55-67 | every simple path that is not accepted leaves the accepted ones at some spur position |
| `YenPool.CoveredVacuously` | internal/routing/yen.go:75-77 | a failed spur search means that no simple path leaves there |
| `YenPool.CoveredAfterAccept` | internal/routing/yen.go:102-103 | accepting a candidate uncovers only roots of that candidate |
| `YenPool.RoundCoversAll` | internal/routing/yen.go:55-89 | after a round every root within the cap has its candidate in the pool, including the roots of earlier accepted paths |
| `YenPool.OutsiderBound` | internal/routing/yen.go:91-103 | every simple path outside that leaves within the cap has a candidate in the pool, against it as good as the searches are graded |
| `YenPool.CandidateNotFaster` | internal/routing/yen.go:79-88 | a candidate spurred from the last accepted path is no faster than that path, for every cap |
| `YenPool.CandidateIsNew` | internal/routing/yen.go:59-67 | what leaves the accepted paths at a spur node is none of them |
| `YenCandidates.LessMayCycle` | internal/routing/yen.go:95-100 | within the tolerance the comparator is no order |
| `YenCandidates.InsertOrdered` | internal/routing/yen.go:95-100 | the comparator sorts times that are equal or clearly apart |
| `YenCandidates.SortCandidates` | internal/routing/yen.go:95-100 | sorting permutes the pool, and on times equal or more than 1e-9 apart it puts faster paths first and, of equally fast ones, shorter ones |
| `YenCandidates.OrderRanks` | internal/routing/yen.go:95-100 | that is what an order by the comparator means for any two paths in it |
| `YenCandidates.HeadIsFastest` | internal/routing/yen.go:95-102 | the head of an ordered pool is a fastest candidate |
| `YenCandidates.EdgeBetween` | internal/routing/yen.go:143-158 | the first shortest permitted edge between two nodes |
| `YenCandidates.CombineRootAndSpur` | internal/routing/yen.go:109-141 | the joined nodes with their re-chosen edges and exact sums, or nothing when some pair has no permitted edge |
| `YenCandidates.BlockEdges` | internal/routing/yen.go:59-67 | blocks exactly the edges by which accepted paths leave the root |
| `YenCandidates.BlockNodes` | internal/routing/yen.go:69-72 | blocks exactly the root's nodes before the spur node |
| `Yen.TrySpur` | internal/routing/yen.go:56-82 | a spur attempt yields a new simple exact path that leaves at the spur node, and covers its root whenever the search is complete |
| `YenRounds.GenuineAppend` | internal/routing/yen.go:83-88 | the seen set stays exactly the signatures of accepted paths and candidates, without repeats |
| `YenRounds.SpurredAccept` | internal/routing/yen.go:51-67 | for every estimate, each accepted path but the first, and each candidate, leaves an earlier accepted path within the cap, at a place where no accepted path up to that one leads on like it |
| `YenRounds.OpenUnchanged` | internal/routing/yen.go:80-86 | an attempt whose path was seen already finds it in the pool, so nothing is overlooked |
| `YenRounds.BoundAccept` | internal/routing/yen.go:95-103 | accepting the head keeps every accepted path as good as graded against every simple path outside that leaves within the cap |
| `YenRounds.SharpAccept` | internal/routing/yen.go:95-103 | without an estimate it also keeps the accepted times ascending and the pool above them |
| `YenRounds.EmptyPoolExhausts` | internal/routing/yen.go:91-93 | an empty pool after a round means that no simple path is left, for any profile |
| `Yen.SpurRound` | internal/routing/yen.go:49-89 | one round over the spur positions of the last accepted path keeps all of it, covers every position within the cap and, for every estimate, adds only candidates that leave within the cap |
| `Yen.AcceptBest` | internal/routing/yen.go:95-103 | one path moves from the pool to the accepted ones, for every estimate a fastest one and among those a shortest if the times allow an order, and everything the rounds keep is kept |
| `Yen.KFastestPaths` | internal/routing/yen.go:23-107 | up to k distinct simple exact paths with re-chosen edges, the first as good as the search promises; on rankable inputs every one of them, against any simple path outside (leaving within the cap), is no slower without an estimate and at most twice as slow with a steady one, ascending without an estimate; on graphs without negative ids fewer than k only when none is left, provided the first has three nodes; the direct edge alone when it is a fastest route, and every further path leaves an earlier one within the cap, under any estimate |
| `YenLimits.FewerThanKExactly` | internal/routing/yen.go:41-43 | an answer to a request for two or more paths stops short of k although a simple path is missing if and only if a direct edge is a fastest route and some simple path has an inner node |
| `YenLimits.Ask` | internal/routing/yen.go:23-107 | the same of every call without an estimate and without a cap between connected nodes of a graph without negative ids |
| `YenLimits.AskDetour` | internal/routing/yen.go:41-43 | a call on an input with two simple paths returns one, however many are asked for |
| `YenLimits.AlternativeFastestExactly` | internal/routing/yen.go:124-133 | a returned alternative has the best time over its own nodes if and only if every edge chosen along it is a fastest one between its ends |
| `YenLimits.AskTwoStreets` | internal/routing/yen.go:143-158 | a call for two paths returns a second path of five hours or more although a permitted walk of three exists, because the shortest parallel edge is not the fastest |
| `GraphIndex.BuildTranspose` | internal/routing/graph.go:160-175 | after any sequence of additions the reverse list of v holds u exactly as often as u has edges to v |
| `GraphIndex.BuildIsTransposed` | internal/routing/graph.go:84-93 | so it is a correct reverse list for the searches |
| `GraphIndex.BuildFlags` | internal/routing/graph.go:160-169 | after any legal build a node has a flag bit exactly when an incident edge has it |
| `GraphIndex.RoutableExactly` | internal/routing/graph.go:245-279 | for every profile, walking included, a node is routable exactly when a permitted edge leaves it or, for a sink, an edge with the profile's flags enters it |
| `GraphIndex.RoutableMeansTouched` | internal/routing/engine.go:340-342 | that is about permitted edges if and only if the node is no sink that only edges of barred kinds lead to |
| `GraphIndex.RoutableUntouched` | internal/routing/engine.go:340-342 | the end of a one-way motorway with the foot flag is routable on foot although no edge that walking may use touches it |
| `SearchBounds.EdgeCountIsEdgesAdded` | internal/routing/graph.go:160-175 | on a legally built graph the edges out of all nodes, and the entries of all reverse lists, number exactly the edges added |
| `SearchBounds.SearchBuilt` | internal/routing/astar.go:63-194 | a call of the unidirectional search on a built graph pops at most one entry more than edges were added |
| `SearchBounds.RunPops` | internal/routing/bidir.go:129-284 | each direction of a bidirectional run pops and pushes at most one entry more than there are edges |
| `Snapping.BuildGrid` | internal/routing/graph.go:151-155 | after any legal build every node is entered in its own cell and nowhere else |
| `Snapping.CellBounds` | internal/routing/graph.go:281-286 | a place lies between its cell's multiple of 0.02 degrees and the next one, in both directions |
| `Snapping.RadiusBounds` | internal/routing/graph.go:219-222 | the radius is the limit in cells of 2.22 km, rounded up, and one more |
| `Snapping.RowScanned` | internal/routing/graph.go:218-228 | in latitude the window reaches every place of the globe within the limit |
| `Snapping.SnapExactlyWhenWindowReaches` | internal/routing/graph.go:193-243 | for any distance, snapping equals a full scan on every graph of places on the globe if and only if the window contains every place of the globe within the limit |
| `Snapping.SnapExactlyWhenColumnsScanned` | internal/routing/graph.go:218-228 | that is, if and only if the columns of the two extreme longitudes within the limit are scanned |
| `Snapping.WideWindowReaches` | internal/routing/graph.go:219-222 | it holds where, within the limit, a degree of longitude is long enough for the radius |
| `Snapping.NarrowWindowMisses` | internal/routing/graph.go:219-222 | it fails where one cell beyond the window is still within the limit along the parallel |
| `Snapping.RailSnapMisses` | internal/routing/multimodal.go:16-18 | it fails for the 50 km rail snap wherever a degree of longitude is at most 100 km long |
| `GreatCircle.HaversineLatitude` | internal/utils/geo.go:5-16 | under the haversine distance a degree of latitude costs at least 111 km |
| `GreatCircle.HaversineMeridian` | internal/utils/geo.go:5-16 | along a meridian the distance is 6371 km times the angle |
| `GreatCircle.HaversineParallel` | internal/utils/geo.go:5-16 | along a parallel a degree of longitude costs at most 111.195 km times the cosine of the latitude |
| `GreatCircle.WithinByDot` | internal/utils/geo.go:5-16 | a place is within the limit exactly when the cosine of the angle between the two places is at least that of the limit |
| `GreatCircle.RailSnapMissesFrom27` | internal/routing/multimodal.go:16-18 | the 50 km rail snap misses nodes wherever the cosine of the latitude is at most 0.89 |
| `GlobeReach.HaversineReach` | internal/utils/geo.go:5-16 | away from the poles and the antimeridian the limit reaches exactly as far east and west as the angle whose sine is that of the limit over the cosine of the latitude |
| `GlobeSnap.AntimeridianMisses` | internal/routing/graph.go:218-228 | where the limit reaches the antimeridian the snap misses nodes |
| `GlobeSnap.PoleMisses` | internal/routing/graph.go:218-228 | and where it reaches a pole |
| `GlobeSnap.HaversineSnapExactly` | internal/routing/graph.go:206-243 | for every place of the globe and every limit up to a quarter of it, snapping with the haversine distance equals a full scan on every graph if and only if the limit reaches neither a pole nor the antimeridian and the columns of cells at its reach are scanned |
| `GlobeSnap.HaversineSnapNearest` | internal/routing/graph.go:219-222 | in particular it does where the reach is at most the radius in degrees |
| `RoadGraph.Graph.constructor` | internal/routing/graph.go:108-117 | a new graph is the empty one |
| `RoadGraph.Graph.AddNode` | internal/routing/graph.go:151-155 | adds the node to the table and to its cell, and nothing else |
| `RoadGraph.Graph.MarkFlags` | internal/routing/graph.go:164-169 | joins flags into one node object and leaves every other node alone |
| `RoadGraph.Graph.AddEdge` | internal/routing/graph.go:160-175 | appends to the adjacency and reverse lists and joins the flags of both ends |
| `RoadGraph.Graph.IsRoutable` | internal/routing/graph.go:254-279 | the two-phase check decides the routability predicate |
| `RoadGraph.Graph.NearestNode` | internal/routing/graph.go:181-191 | a node at the least distance over the table in any scan order, none only for an empty table |
| `RoadGraph.Graph.ScanCell` | internal/routing/graph.go:228-236 | the nearest routable node among the best so far and one cell |
| `RoadGraph.Graph.ScanWindow` | internal/routing/graph.go:224-238 | the nearest routable node of all cells of the window |
| `RoadGraph.Graph.NearestNodeWithin` | internal/routing/graph.go:206-243 | the nearest routable node of the window within the limit, none exactly when there is none |
| `PolylineCodec.UnfoldsAgree` | internal/utils/polyline.go:76-79 | inverting before or after the final shift gives the same number below the sign bit |
| `PolylineCodec.UnfoldFold` | internal/utils/polyline.go:51-61 | a 64-bit number is folded and unfolded to itself if and only if the shift loses no bit, and comes back half a word away otherwise |
| `PolylineCodec.GroupsLength` | internal/routing/engine.go:661-665 | a value takes at most n characters exactly when it is below 32 to the n |
| `PolylineCodec.GroupsPrintable` | internal/routing/engine.go:661-665 | all characters lie between 63 and 126 |
| `PolylineCodec.ChunkRoundTrip` | internal/routing/engine.go:633-666 | a delta is read back exactly when it fits the shift guard, and rejected otherwise unless its shift lost a top bit |
| `PolylineCodec.GuardedRoundTrip` | internal/routing/engine.go:598-631 | a point list is decoded to itself exactly when every delta fits the guard, and rejected otherwise unless a shift lost a top bit |
| `PolylineCodec.UnguardedRoundTrip` | internal/utils/polyline.go:10-80 | the utility codec returns a point list exactly when no shift of a delta loses a bit of the 64 |
| `PolylineCodec.DecodedShifts` | internal/utils/polyline.go:25-47 | whatever the utility decoder returns can be encoded and decoded again |
| `PolylineCodec.LegalRoundTrip` | internal/routing/engine.go:598-631 | points in the legal coordinate range never trip the guard |
| `PolylineCodec.LegalChunkShort` | internal/routing/engine.go:656-666 | between legal points a coordinate takes at most six characters between 63 and 126 |
| `PolylineCodec.LegalTextShort` | internal/routing/engine.go:598-611 | a list of legal points takes at most twelve printable characters a point |
| `PolylineCodec.DecodersAgree` | internal/utils/polyline.go:25-80 | the routing decoder accepts exactly the texts the utility decoder reads to the end that have no seven continuing characters in a row, and then both give the same points |
| `PolylineCodec.DecodesExactly` | internal/utils/polyline.go:25-80 | the utility decoder reads a text to the end, without running past it, if and only if the text is empty or its last byte does not continue and the bytes that do not continue are even in number; they are twice as many as the points |
| `PolylineCodec.GuardedDecodesExactly` | internal/routing/engine.go:614-654 | the routing decoder accepts exactly those of them without seven continuing bytes in a row |
| `Polyline.ReadUnits` | internal/utils/polyline.go:42-45 | a decoded coordinate in degrees times 100000 is the number read |
| `Polyline.WrittenUnits` | internal/routing/engine.go:603-604 | the number written is within one half of 100000 times the coordinate in degrees |
| `Polyline.RoundNear` | internal/routing/engine.go:603-604 | rounding takes the nearest whole number, and of two the one farther from zero |
| `Polyline.FixedExact` | internal/routing/engine.go:603-604 | a coordinate on the grid of 1e-5 degrees is rounded to itself |
| `Polyline.FixedNear` | internal/routing/engine.go:603-604 | any coordinate moves by at most half of 1e-5 degrees |
| `Polyline.GlobeText` | internal/routing/engine.go:598-666 | places with latitudes within 90 and longitudes within 180 degrees are written in at most twelve printable characters each, which the routing decoder reads back as the rounded places |
| `Polyline.KnownText` | internal/utils/polyline.go:10-80 | the place 38.5 north, 120.2 west is written as the bytes 95, 112, 126, 105, 70, 126, 112, 115, 124, 85, and both decoders read it from them |
| `Polyline.EncodeChunk` | internal/routing/engine.go:656-666 | the writing loop appends the groups of the folded value |
| `Polyline.EncodePolyline` | internal/routing/engine.go:599-611 | encodes the deltas of the points in units of a hundred thousandth of a degree, each rounded by at most half a unit; for places of the globe the text is printable, short and read back |
| `Polyline.DecodeChunkGuarded` | internal/routing/engine.go:633-654 | the reading loop reads one number, or fails at the end of the text or at the shift guard |
| `Polyline.DecodeChunkOn` | internal/utils/polyline.go:65-80 | the reading loop reads one number, dropping the bits beyond 64, or runs past the end of the text |
| `Polyline.DecodeGuarded` | internal/routing/engine.go:614-631 | decodes the text to points in units of a hundred thousandth of a degree, and to no points when any number fails |
| `Polyline.DecodeOn` | internal/utils/polyline.go:25-47 | decodes the text to points in the same units, or runs past its end |
| `Polyline.StitchPreservesPath` | internal/utils/polyline.go:86-100 | for legs whose ends meet, empty ones interspersed, the stitched points have exactly the legs' consecutive pairs in order, the first point and the last |
| `Polyline.CombinePolylines` | internal/utils/polyline.go:86-101 | decodes, stitches and encodes the legs again; fails only on a leg that cannot be decoded |
| `Polyline.CombinedDecodes` | internal/utils/polyline.go:82-101 | for decoded legs that meet, the combined text decodes to exactly the legs' segments |
| `Instructions.UnnamedLinkChain` | internal/routing/instructions.go:231-267 | the end of the chain of unnamed links, the turn made over it, and its length |
| `Instructions.ToldExactly` | internal/routing/instructions.go:49-91 | what a node tells follows from its turn alone: signed bands of 25, 55, 125 and 155 degrees give kind and side, nothing for a slight turn on the same street; over a chain of unnamed links the turn is measured from the edge before to the edge after it, a U-turn from 150 degrees on, a turn from 55 degrees on if it is 0.08 km long, and nothing otherwise |
| `Instructions.TellNode` | internal/routing/instructions.go:49-91 | one iteration tells exactly that and goes on behind a chain |
| `Instructions.ScanJump` | internal/routing/instructions.go:56-76 | the jump over a chain skips only nodes that tell nothing |
| `Instructions.FindManeuvers` | internal/routing/instructions.go:41-99 | the scan that jumps over chains tells the departure onto the first street, exactly what the turn at every inner node outside a chain tells, and the arrival |
| `Instructions.ManeuversCut` | internal/routing/instructions.go:41-99 | the maneuvers start at node 0, end at the last node, rise strictly and never lie inside a chain |
| `Instructions.ContinueMeansNewStreet` | internal/routing/instructions.go:77-91 | a "continue" is told only where the street changes, and never for a chain |
| `Instructions.CollapseContinues` | internal/routing/instructions.go:149-161 | the loop drops each continue that follows a kept one |
| `Instructions.CollapseKeepsTurns` | internal/routing/instructions.go:149-161 | collapsing drops continues only, each after a kept one, and keeps all other maneuvers in order |
| `Instructions.CollapseDrops` | internal/routing/instructions.go:149-161 | a dropped continue follows a kept one with no kept maneuver between them, so of a run the first is kept |
| `Instructions.CollapseKeepsCuts` | internal/routing/instructions.go:149-161 | the cuts survive collapsing and no two continues are left in a row |
| `Instructions.NoTimeNoLength` | internal/routing/instructions.go:184-189 | a stretch without time has no length, so the fallback speed never counts |
| `Instructions.TimingExact` | internal/routing/instructions.go:179-183 | the time of a stretch is the sum of its stored times without an override, and of each length over its overriding speed with one |
| `Instructions.InstructionLeg` | internal/routing/instructions.go:170-191 | the length and minutes of exactly the edges between two maneuvers, the minutes sixty times those sums, or by the fallback speed where there is length but no time |
| `Instructions.LegsCover` | internal/routing/instructions.go:102-127 | the first i legs cover exactly the edges before maneuver i |
| `Instructions.BuildInstructions` | internal/routing/instructions.go:34-130 | tells the departure, only what the turns at inner nodes tell, all of it but continues that follow a kept one, and the arrival, and the legs sum to the path's length and sixty times its hours, stored or at the overriding speeds; a path without nodes only arrives |
| `Transit.BuildSegmentLeg` | internal/routing/multimodal.go:224-302 | a leg is walked exactly when its first edge is a transfer, a bus exactly for a bus route, a train exactly for a subway, light rail or tram, and public transport otherwise; its length is the sum of its edges, its minutes sixty times their hours plus 3.0 exactly when its first edge is no transfer |
| `Transit.SplitTransitLegs` | internal/routing/multimodal.go:195-235 | the legs are the maximal runs of equal line and mode, each with exactly the nodes around its edges, its totals, and the mode that every one of its edges' kinds has |
| `Transit.RunsUnique` | internal/routing/multimodal.go:203-220 | a list of edges has only one division into maximal runs |
| `Transit.LegsMeet` | internal/routing/multimodal.go:214-218 | neighbouring legs share their boundary node, from the path's first node to its last |
| `Transit.LegsConserve` | internal/routing/multimodal.go:237-302 | lengths sum to the path's, minutes to sixty times its hours plus three per boarded leg |

## Left out

- Yen.KFastestPaths: the bounds against paths outside are stated for rankable inputs only, because the comparator is no order on times less than 1e-9 apart and re-chosen parallel edges can be slower; with a positive reference speed they are within twice, because the search itself promises no more.
- GraphIndex.BuildFlags: adding the same node id twice is outside it, as it is for the grid (`Snapping.BuildGrid`), since the source then leaves the old object in its cell; `RoadGraph.Graph.AddNode` covers it.
- RoadGraph.Graph.NearestNodeWithin: a graph without a grid gets the nearest node or nothing, as in the source, which is not the nearest routable node.
- YenCandidates.SortCandidates: stands for the library sort, of which only its contract is modelled; an insertion sort fills in for it.
- Polyline.DecodeOn: reading past the end, a panic in the source, is the result "none".
- Instructions.BuildInstructions: rounding of the reported numbers and the instruction texts.
- Transit.BuildSegmentLeg: the points and polyline of a leg, its line name, its instructions and the rounding of its totals.
- Floating-point rounding, not-a-number and infinities: times and distances are exact.
- Context cancellation and its check every 4096 iterations.
- The binary heap's array and index fields: the contract "some least entry" is used.
- A graph whose reverse map is missing while edges are being added: the loaders always create it.
- GlobeSnap.HaversineSnapExactly: limits beyond a quarter of the globe (about 10000 km) are left to `Snapping.SnapExactlyWhenWindowReaches`; the sine, cosine and arc tangent of the library are not modelled beyond their laws.
- Bearings and flight arcs: more trigonometry.
- Name interning, stored edge polylines, street-name cleaning and the table of highway kinds by name.
- Route computation around the searches (OSRM client, cache, alternatives, multi-modal assembly): plumbing around them.
- HTTP, WebSocket, Redis, SQL, metrics and the simulators.
