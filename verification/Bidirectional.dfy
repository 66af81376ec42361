/** The bidirectional search as a state machine: two frontiers, one forward from the
    start and one backward from the goal, that share the best meeting found so far.
    Heap ties are open, so one input may have many runs; the lemmas of this module
    and of BidirectionalProof hold of every run. */
module Bidirectional {
  import opened Wrappers
  import opened RoadNetwork
  import opened Frontier
  import opened Heuristic

  /** The best complete cost (None stands for the largest float), its length and the
      node where the two halves meet (-1 until there is one). */
  datatype Meeting = Meeting(best: Option<real>, km: real, node: int)

  datatype Joint = Joint(f: Side, b: Side, m: Meeting)

  datatype Instance = Instance(q: Query, rev: map<int, seq<int>>, start: int, goal: int, est: Estimator) {
    function Fwd(): Task {
      Task(q, Forward, start, est.Toward(goal))
    }

    function Bwd(): Task {
      Task(q, Backward, goal, est.Toward(start))
    }

    /** Both ends usable and different, times not negative, reverse list correct. */
    ghost predicate Ready() {
      && q.Usable(start) && q.Usable(goal) && start != goal
      && q.NonnegativeHours() && Transposed(q.net, rev)
    }
  }

  // ----- steps -----

  function Offer(m: Meeting, node: int, a: real, b: real, aKm: real, bKm: real): Meeting {
    if m.best.None? || a + b < m.best.value then Meeting(Some(a + b), aKm + bKm, node) else m
  }

  /** One call of the meeting check. */
  datatype Bid = Bid(node: int, fwd: real, bwd: real, fwdKm: real, bwdKm: real) {
    function Hours(): real {
      fwd + bwd
    }
  }

  /** The meeting after a run of checks, from no meeting at all. */
  function AfterBids(bids: seq<Bid>): Meeting {
    if bids == [] then Meeting(None, 0.0, -1)
    else
      var b := bids[|bids| - 1];
      Offer(AfterBids(bids[..|bids| - 1]), b.node, b.fwd, b.bwd, b.fwdKm, b.bwdKm)
  }

  /** No bid is cheaper than the i-th, and none before it is as cheap. */
  ghost predicate FirstLeast(bids: seq<Bid>, i: nat) {
    && i < |bids|
    && (forall j :: 0 <= j < |bids| ==> bids[i].Hours() <= bids[j].Hours())
    && (forall j :: 0 <= j < i ==> bids[i].Hours() < bids[j].Hours())
  }

  /** However many meetings are offered, the one kept is the first of the cheapest. */
  lemma {:induction false} FirstLeastIsKept(bids: seq<Bid>) returns (i: nat)
    requires bids != []
    ensures FirstLeast(bids, i)
    ensures AfterBids(bids) == Meeting(Some(bids[i].Hours()), bids[i].fwdKm + bids[i].bwdKm, bids[i].node)
    decreases |bids|
  {
    var n := |bids| - 1;
    if n == 0 {
      assert AfterBids(bids[..0]) == Meeting(None, 0.0, -1);
      i := 0;
    } else {
      i := FirstLeastIsKept(bids[..n]);
      assert forall j :: 0 <= j < n ==> bids[..n][j] == bids[j];
      if bids[n].Hours() < bids[i].Hours() {
        i := n;
      }
    }
  }

  predicate Scored(s: Side) {
    && s.d.Keys == s.g.Keys
    && forall i :: 0 <= i < |s.queue| ==> s.queue[i].node in s.g
  }

  /** One direction's frontier together with the shared meeting. */
  datatype Half = Half(me: Side, m: Meeting)

  function RelaxMeet(s: Half, other: Side, hours: Edge -> real, h: int -> real, cur: int, hop: Hop): (r: Half)
    requires cur in s.me.g && s.me.d.Keys == s.me.g.Keys && other.d.Keys == other.g.Keys
    ensures r.me == Relax(s.me, hours, h, cur, hop)
    ensures r.me.d.Keys == r.me.g.Keys
  {
    var me := Relax(s.me, hours, h, cur, hop);
    var v := hop.node;
    if Improves(s.me, hours, cur, hop) && v in other.g then
      Half(me, Offer(s.m, v, me.g[v], other.g[v], me.d[v], other.d[v]))
    else
      Half(me, s.m)
  }

  function ExpandMeet(s: Half, other: Side, hours: Edge -> real, h: int -> real, cur: int, hops: seq<Hop>): (r: Half)
    requires cur in s.me.g && s.me.d.Keys == s.me.g.Keys && other.d.Keys == other.g.Keys
    ensures r.me == Expand(s.me, hours, h, cur, hops)
    ensures r.me.d.Keys == r.me.g.Keys
  {
    if hops == [] then s
    else RelaxMeet(ExpandMeet(s, other, hours, h, cur, hops[..|hops| - 1]), other, hours, h, cur, hops[|hops| - 1])
  }

  /** The meeting check made when a node settles. */
  function MeetAt(m: Meeting, me: Side, other: Side, x: Entry): Meeting
    requires x.node in me.d && other.d.Keys == other.g.Keys
  {
    if x.node in other.g then Offer(m, x.node, x.gCost, other.g[x.node], me.d[x.node], other.d[x.node]) else m
  }

  /** Pops entry i: discards it when stale, otherwise settles and expands its node. */
  function Pop(t: Task, rev: map<int, seq<int>>, s: Half, other: Side, i: nat): Half
    requires Scored(s.me) && other.d.Keys == other.g.Keys && i < |s.me.queue|
  {
    var x := s.me.queue[i];
    if Stale(s.me, x) then
      Half(Discard(s.me, i), s.m)
    else
      ExpandMeet(Half(Settle(s.me, i), MeetAt(s.m, s.me, other, x)), other, t.q.hours, t.h, x.node,
                 Hops(t, rev, x.node))
  }

  function Initial(p: Instance): Joint {
    Joint(StartSide(p.start, p.Fwd().h(p.start)), StartSide(p.goal, p.Bwd().h(p.goal)), Meeting(None, 0.0, -1))
  }

  predicate Tops(s: Joint, i: nat, j: nat) {
    && (s.f.queue != [] ==> IsTop(s.f.queue, i))
    && (s.b.queue != [] ==> IsTop(s.b.queue, j))
  }

  function TopCost(queue: seq<Entry>, i: nat): Option<real>
    requires queue != [] ==> i < |queue|
  {
    if queue == [] then None else Some(queue[i].gCost)
  }

  /** topF + topB >= mu, where None is the largest float: an empty queue always stops
      the search, and without a meeting two finite tops never do. */
  predicate Stops(topF: Option<real>, topB: Option<real>, mu: Option<real>) {
    topF.None? || topB.None? || (mu.Some? && topF.value + topB.value >= mu.value)
  }

  predicate StopsAt(s: Joint, i: nat, j: nat)
    requires Tops(s, i, j)
  {
    Stops(TopCost(s.f.queue, i), TopCost(s.b.queue, j), s.m.best)
  }

  /** Advances the direction whose top has the smaller cost, forward on a tie. */
  function Advance(p: Instance, s: Joint, i: nat, j: nat): Joint
    requires Scored(s.f) && Scored(s.b) && Tops(s, i, j) && !StopsAt(s, i, j)
  {
    if s.f.queue[i].gCost <= s.b.queue[j].gCost then
      var r := Pop(p.Fwd(), p.rev, Half(s.f, s.m), s.b, i);
      Joint(r.me, s.b, r.m)
    else
      var r := Pop(p.Bwd(), p.rev, Half(s.b, s.m), s.f, j);
      Joint(s.f, r.me, r.m)
  }

  ghost predicate Next(p: Instance, s: Joint, s': Joint) {
    && Scored(s.f) && Scored(s.b)
    && exists i, j :: Tops(s, i, j) && !StopsAt(s, i, j) && s' == Advance(p, s, i, j)
  }

  ghost predicate Halted(s: Joint) {
    exists i, j :: Tops(s, i, j) && StopsAt(s, i, j)
  }

  /** A run: from the initial state, one step at a time. */
  ghost predicate Run(p: Instance, tr: seq<Joint>) {
    && tr != [] && tr[0] == Initial(p)
    && forall k :: 0 <= k < |tr| - 1 ==> Next(p, tr[k], tr[k + 1])
  }

  ghost predicate Reachable(p: Instance, s: Joint) {
    exists tr :: Run(p, tr) && tr[|tr| - 1] == s
  }

  lemma ReachableInitially(p: Instance)
    ensures Reachable(p, Initial(p))
  {
    assert Run(p, [Initial(p)]);
  }

  lemma ReachableNext(p: Instance, s: Joint, s': Joint)
    requires Reachable(p, s) && Next(p, s, s')
    ensures Reachable(p, s')
  {
    var tr :| Run(p, tr) && tr[|tr| - 1] == s;
    var tr' := tr + [s'];
    forall k | 0 <= k < |tr'| - 1
      ensures Next(p, tr'[k], tr'[k + 1])
    {
      if k < |tr| - 1 {
        assert Next(p, tr[k], tr[k + 1]);
      }
    }
    assert Run(p, tr') && tr'[|tr'| - 1] == s';
  }
}
