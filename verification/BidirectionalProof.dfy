/** Safety of every run of the bidirectional search, and what a halted run returns. */
module BidirectionalProof {
  import opened Wrappers
  import opened RoadNetwork
  import opened Frontier
  import opened SearchTree
  import opened Heuristic
  import opened Bidirectional
  import opened SearchCost
  import AStar

  /** The meeting is the exact sum of the two current scores of its node, and no node
      reached from both sides does better. */
  ghost predicate Met(a: Side, b: Side, m: Meeting)
    requires a.d.Keys == a.g.Keys && b.d.Keys == b.g.Keys
  {
    && (m.best.Some? ==> && m.node in a.g && m.node in b.g
                         && m.best.value == a.g[m.node] + b.g[m.node]
                         && m.km == a.d[m.node] + b.d[m.node])
    && (forall x :: x in a.g && x in b.g ==> m.best.Some? && m.best.value <= a.g[x] + b.g[x])
  }

  ghost predicate JointInv(p: Instance, s: Joint) {
    Inv(p.Fwd(), s.f) && Inv(p.Bwd(), s.b) && Met(s.f, s.b, s.m)
  }

  lemma MetSymmetric(a: Side, b: Side, m: Meeting)
    requires a.d.Keys == a.g.Keys && b.d.Keys == b.g.Keys && Met(a, b, m)
    ensures Met(b, a, m)
  {
  }

  lemma InitialInv(p: Instance)
    requires p.Ready()
    ensures JointInv(p, Initial(p))
  {
    StartInv(p.Fwd());
    StartInv(p.Bwd());
  }

  lemma BackwardSteps(p: Instance, cur: int, hops: seq<Hop>)
    requires p.Ready() && p.q.Usable(cur) && hops == BackwardHops(p.q, cur, In(p.rev, cur))
    ensures forall i :: 0 <= i < |hops| ==> p.Bwd().Step(cur, hops[i].node, hops[i].edge)
  {
    BackwardHopsArcs(p.q, cur, In(p.rev, cur));
  }

  lemma BackwardCovered(p: Instance, cur: int, hops: seq<Hop>, u: int, e: Edge)
    requires p.Ready() && p.q.Usable(cur) && p.Bwd().Step(cur, u, e)
    requires hops == BackwardHops(p.q, cur, In(p.rev, cur))
    ensures exists i :: 0 <= i < |hops| && hops[i].node == u && p.q.hours(hops[i].edge) <= p.q.hours(e)
  {
    BackwardHopsCover(p.q, cur, In(p.rev, cur));
    assert p.q.Arc(u, cur, e);
    assert e in p.q.net.Out(u) && e.to == cur;
    assert u in In(p.rev, cur);
    var hop :| hop in hops && hop.node == u && p.q.hours(hop.edge) <= p.q.hours(e);
  }

  lemma BackwardCovers(p: Instance, cur: int, hops: seq<Hop>)
    requires p.Ready() && p.q.Usable(cur) && hops == BackwardHops(p.q, cur, In(p.rev, cur))
    ensures Covers(p.Bwd(), cur, hops)
  {
    BackwardSteps(p, cur, hops);
    forall u, e | p.Bwd().Step(cur, u, e)
      ensures exists i :: 0 <= i < |hops| && hops[i].node == u && p.q.hours(hops[i].edge) <= p.q.hours(e)
    {
      BackwardCovered(p, cur, hops, u, e);
    }
  }

  lemma HopsCover(p: Instance, t: Task, cur: int)
    requires p.Ready() && (t == p.Fwd() || t == p.Bwd()) && t.q.Usable(cur)
    ensures Covers(t, cur, Hops(t, p.rev, cur))
  {
    if t.dir.Forward? {
      AStar.ForwardCovers(t, cur);
    } else {
      BackwardCovers(p, cur, Hops(t, p.rev, cur));
    }
  }

  lemma RelaxMet(s: Half, other: Side, hours: Edge -> real, h: int -> real, cur: int, hop: Hop)
    requires cur in s.me.g && s.me.d.Keys == s.me.g.Keys && other.d.Keys == other.g.Keys
    requires Met(s.me, other, s.m)
    ensures var r := RelaxMeet(s, other, hours, h, cur, hop); Met(r.me, other, r.m)
  {
  }

  lemma {:induction false} ExpandMet(s: Half, other: Side, hours: Edge -> real, h: int -> real, cur: int,
                                     hops: seq<Hop>)
    requires cur in s.me.g && s.me.d.Keys == s.me.g.Keys && other.d.Keys == other.g.Keys
    requires Met(s.me, other, s.m)
    ensures var r := ExpandMeet(s, other, hours, h, cur, hops); Met(r.me, other, r.m)
  {
    if hops != [] {
      ExpandMet(s, other, hours, h, cur, hops[..|hops| - 1]);
      RelaxMet(ExpandMeet(s, other, hours, h, cur, hops[..|hops| - 1]), other, hours, h, cur, hops[|hops| - 1]);
    }
  }

  /** The check made on settling never changes the meeting: relaxing already did. */
  lemma MeetAtIdle(m: Meeting, me: Side, other: Side, x: Entry)
    requires me.d.Keys == me.g.Keys && other.d.Keys == other.g.Keys && Met(me, other, m)
    requires x.node in me.g && x.gCost == me.g[x.node]
    ensures MeetAt(m, me, other, x) == m
  {
  }

  /** Settling and expanding the top keeps the frontier's invariant. */
  lemma PopSide(p: Instance, t: Task, me: Side, i: nat)
    requires p.Ready() && (t == p.Fwd() || t == p.Bwd())
    requires Inv(t, me) && IsTop(me.queue, i) && !Stale(me, me.queue[i])
    ensures var cur, settled := me.queue[i].node, Settle(me, i);
            && cur in me.g && cur in me.d && me.queue[i].gCost == me.g[cur]
            && Inv(t, Expand(settled, t.q.hours, t.h, cur, Hops(t, p.rev, cur)))
  {
    var cur := me.queue[i].node;
    SettleMid(t, me, i);
    assert t.q.Usable(cur);
    HopsCover(p, t, cur);
    ExpandInv(t, Settle(me, i), cur, Hops(t, p.rev, cur));
  }

  lemma PopMet(t: Task, rev: map<int, seq<int>>, s: Half, other: Side, i: nat)
    requires s.me.d.Keys == s.me.g.Keys && other.d.Keys == other.g.Keys && Met(s.me, other, s.m)
    requires Scored(s.me) && i < |s.me.queue|
    requires s.me.queue[i].gCost == s.me.g[s.me.queue[i].node] || Stale(s.me, s.me.queue[i])
    ensures var r := Pop(t, rev, s, other, i);
            r.me.d.Keys == r.me.g.Keys && Met(r.me, other, r.m)
  {
    var x := s.me.queue[i];
    if !Stale(s.me, x) {
      MeetAtIdle(s.m, s.me, other, x);
      ExpandMet(Half(Settle(s.me, i), s.m), other, t.q.hours, t.h, x.node, Hops(t, rev, x.node));
    }
  }

  lemma PopInv(p: Instance, t: Task, s: Half, other: Side, i: nat)
    requires p.Ready() && (t == p.Fwd() || t == p.Bwd())
    requires Inv(t, s.me) && other.d.Keys == other.g.Keys && Met(s.me, other, s.m)
    requires Scored(s.me) && IsTop(s.me.queue, i)
    ensures var r := Pop(t, p.rev, s, other, i);
            Inv(t, r.me) && Met(r.me, other, r.m)
  {
    if Stale(s.me, s.me.queue[i]) {
      DiscardInv(t, s.me, i);
    } else {
      PopSide(p, t, s.me, i);
    }
    PopMet(t, p.rev, s, other, i);
  }

  lemma ScoredByInv(t: Task, s: Side)
    requires Inv(t, s)
    ensures Scored(s)
  {
    forall i | 0 <= i < |s.queue|
      ensures s.queue[i].node in s.g
    {
      assert s.queue[i] in s.queue;
    }
  }

  lemma AdvanceIsPop(p: Instance, s: Joint, i: nat, j: nat)
    requires Scored(s.f) && Scored(s.b) && Tops(s, i, j) && !StopsAt(s, i, j)
    ensures IsTop(s.f.queue, i) && IsTop(s.b.queue, j)
    ensures Advance(p, s, i, j) ==
      if s.f.queue[i].gCost <= s.b.queue[j].gCost then
        var r := Pop(p.Fwd(), p.rev, Half(s.f, s.m), s.b, i); Joint(r.me, s.b, r.m)
      else
        var r := Pop(p.Bwd(), p.rev, Half(s.b, s.m), s.f, j); Joint(s.f, r.me, r.m)
  {
  }

  lemma AdvanceInv(p: Instance, s: Joint, i: nat, j: nat)
    requires p.Ready() && JointInv(p, s)
    requires Scored(s.f) && Scored(s.b) && Tops(s, i, j) && !StopsAt(s, i, j)
    ensures JointInv(p, Advance(p, s, i, j))
  {
    AdvanceIsPop(p, s, i, j);
    if s.f.queue[i].gCost <= s.b.queue[j].gCost {
      PopInv(p, p.Fwd(), Half(s.f, s.m), s.b, i);
    } else {
      var r := Pop(p.Bwd(), p.rev, Half(s.b, s.m), s.f, j);
      MetSymmetric(s.f, s.b, s.m);
      PopInv(p, p.Bwd(), Half(s.b, s.m), s.f, j);
      MetSymmetric(r.me, s.f, r.m);
    }
  }

  /** Every state of every run satisfies the invariant. */
  lemma {:induction false} RunInv(p: Instance, tr: seq<Joint>, k: nat)
    requires p.Ready() && Run(p, tr) && k < |tr|
    ensures JointInv(p, tr[k])
  {
    if k == 0 {
      InitialInv(p);
    } else {
      RunInv(p, tr, k - 1);
      assert Next(p, tr[k - 1], tr[k]);
      var i, j :| Tops(tr[k - 1], i, j) && !StopsAt(tr[k - 1], i, j) && tr[k] == Advance(p, tr[k - 1], i, j);
      AdvanceInv(p, tr[k - 1], i, j);
    }
  }

  lemma ReachableInv(p: Instance, s: Joint)
    requires p.Ready() && Reachable(p, s)
    ensures JointInv(p, s)
  {
    var tr :| Run(p, tr) && tr[|tr| - 1] == s;
    RunInv(p, tr, |tr| - 1);
  }

  // ----- termination -----

  ghost function JointPotential(p: Instance, s: Joint): nat {
    Potential(p.Fwd(), p.rev, s.f) + Potential(p.Bwd(), p.rev, s.b)
  }

  lemma PopPays(p: Instance, t: Task, s: Half, other: Side, i: nat)
    requires Tree(t, s.me) && Scored(s.me) && other.d.Keys == other.g.Keys && i < |s.me.queue|
    ensures Potential(t, p.rev, Pop(t, p.rev, s, other, i).me) < Potential(t, p.rev, s.me)
  {
    if Stale(s.me, s.me.queue[i]) {
      DiscardPays(t, p.rev, s.me, i);
    } else {
      ExpandPays(t, p.rev, s.me, i);
    }
  }

  /** Pops of one direction in the first k steps; a pop always changes that side. */
  function ForwardPops(tr: seq<Joint>, k: nat): nat
    requires k < |tr|
  {
    if k == 0 then 0 else ForwardPops(tr, k - 1) + if tr[k].f != tr[k - 1].f then 1 else 0
  }

  function BackwardPops(tr: seq<Joint>, k: nat): nat
    requires k < |tr|
  {
    if k == 0 then 0 else BackwardPops(tr, k - 1) + if tr[k].b != tr[k - 1].b then 1 else 0
  }

  /** A step pays on the side it changes and leaves the other side alone. */
  ghost predicate PaysOneSide(p: Instance, s: Joint, s': Joint) {
    || (s'.b == s.b && Potential(p.Fwd(), p.rev, s'.f) < Potential(p.Fwd(), p.rev, s.f))
    || (s'.f == s.f && Potential(p.Bwd(), p.rev, s'.b) < Potential(p.Bwd(), p.rev, s.b))
  }

  lemma AdvanceSides(p: Instance, s: Joint, i: nat, j: nat)
    requires Tree(p.Fwd(), s.f) && Tree(p.Bwd(), s.b)
    requires Scored(s.f) && Scored(s.b) && Tops(s, i, j) && !StopsAt(s, i, j)
    ensures PaysOneSide(p, s, Advance(p, s, i, j))
  {
    AdvanceIsPop(p, s, i, j);
    if s.f.queue[i].gCost <= s.b.queue[j].gCost {
      PopPays(p, p.Fwd(), Half(s.f, s.m), s.b, i);
    } else {
      PopPays(p, p.Bwd(), Half(s.b, s.m), s.f, j);
    }
  }

  lemma AdvancePays(p: Instance, s: Joint, i: nat, j: nat)
    requires Tree(p.Fwd(), s.f) && Tree(p.Bwd(), s.b)
    requires Scored(s.f) && Scored(s.b) && Tops(s, i, j) && !StopsAt(s, i, j)
    ensures JointPotential(p, Advance(p, s, i, j)) < JointPotential(p, s)
  {
    AdvanceSides(p, s, i, j);
  }

  lemma RunSides(p: Instance, tr: seq<Joint>, k: nat)
    requires p.Ready() && Run(p, tr) && k + 1 < |tr|
    ensures PaysOneSide(p, tr[k], tr[k + 1])
  {
    var s, s' := tr[k], tr[k + 1];
    assert Next(p, s, s');
    RunInv(p, tr, k);
    var i, j :| Tops(s, i, j) && !StopsAt(s, i, j) && s' == Advance(p, s, i, j);
    AdvanceSides(p, s, i, j);
  }

  lemma {:induction false} SidesPay(p: Instance, tr: seq<Joint>, k: nat)
    requires p.Ready() && Run(p, tr) && k < |tr|
    ensures Potential(p.Fwd(), p.rev, tr[k].f) + ForwardPops(tr, k) <= Potential(p.Fwd(), p.rev, tr[0].f)
    ensures Potential(p.Bwd(), p.rev, tr[k].b) + BackwardPops(tr, k) <= Potential(p.Bwd(), p.rev, tr[0].b)
    ensures k <= ForwardPops(tr, k) + BackwardPops(tr, k)
  {
    if k > 0 {
      SidesPay(p, tr, k - 1);
      RunSides(p, tr, k - 1);
    }
  }

  /** Every run ends: each step pops, and each direction pops, and with what is still
      queued has pushed, at most one entry more than the edges it can look at, duplicates
      in the reverse list included. */
  lemma RunLength(p: Instance, tr: seq<Joint>)
    requires p.Ready() && Run(p, tr)
    ensures var k := |tr| - 1;
            && k <= ForwardPops(tr, k) + BackwardPops(tr, k)
            && ForwardPops(tr, k) + |tr[k].f.queue| <= 1 + EdgeCount(p.Fwd(), p.rev, p.q.net.nodes)
            && BackwardPops(tr, k) + |tr[k].b.queue| <= 1 + EdgeCount(p.Bwd(), p.rev, p.q.net.nodes)
  {
    SidesPay(p, tr, |tr| - 1);
    StartPotential(p.Fwd(), p.rev, p.Fwd().h(p.start));
    StartPotential(p.Bwd(), p.rev, p.Bwd().h(p.goal));
  }

  // ----- the stitched path -----

  ghost function Stitched(p: Instance, s: Joint): PathResult
    requires JointInv(p, s) && s.m.best.Some?
  {
    var x := s.m.node;
    PathResult(Reversed(Chain(p.Fwd(), s.f, x)) + Chain(p.Bwd(), s.b, x)[1..],
               Reversed(ChainEdges(p.Fwd(), s.f, x)) + ChainEdges(p.Bwd(), s.b, x),
               s.m.km, s.m.best.value)
  }

  /** A negative meeting node reads as "none", whatever the cost found. */
  ghost predicate Returns(p: Instance, s: Joint, r: SearchResult)
    requires JointInv(p, s)
  {
    if s.m.node < 0 || s.m.best.None? then r == NoPath else r == Found(Stitched(p, s))
  }

  /** At any time the stitched path is a permitted, unblocked walk from start to goal
      whose edges sum up to exactly the reported time and distance. */
  lemma StitchedExact(p: Instance, s: Joint)
    requires p.Ready() && JointInv(p, s) && s.m.best.Some?
    ensures ExactRoute(p.q, p.start, p.goal, Stitched(p, s))
  {
    var x := s.m.node;
    var ns, es := Reversed(Chain(p.Fwd(), s.f, x)), Reversed(ChainEdges(p.Fwd(), s.f, x));
    var ms, fs := Chain(p.Bwd(), s.b, x), ChainEdges(p.Bwd(), s.b, x);
    ForwardTreeWalk(p.Fwd(), s.f, x);
    BackwardTreeWalk(p.Bwd(), s.b, x);
    WalkJoin(p.q, ns, es, ms, fs);
    SumConcat(p.q.hours, es, fs);
    SumConcat(Km, es, fs);
  }

  lemma JoinedDistinct(cs: seq<int>, ms: seq<int>)
    requires cs != [] && ms != [] && Distinct(cs) && Distinct(ms)
    requires forall i, j :: 0 <= i < |cs| && 0 < j < |ms| ==> cs[i] != ms[j]
    ensures Distinct(Reversed(cs) + ms[1..])
  {
    var ns, n := Reversed(cs) + ms[1..], |cs|;
    forall i, j | 0 <= i < j < |ns|
      ensures ns[i] != ns[j]
    {
      assert i < n ==> ns[i] == cs[n - 1 - i];
      assert j < n ==> ns[j] == cs[n - 1 - j];
      assert i >= n ==> ns[i] == ms[i - n + 1];
      assert j >= n ==> ns[j] == ms[j - n + 1];
    }
  }

  /** A node strictly inside both halves would be reached from both sides for less
      than the best meeting. */
  lemma HalvesDisjoint(p: Instance, s: Joint, x: int, y: int)
    requires JointInv(p, s) && s.m.best.Some? && x == s.m.node
    requires y in s.f.g && y in s.b.g && s.b.g[y] < s.b.g[x]
    ensures s.f.g[y] > s.f.g[x]
  {
  }

  /** With positive times the stitched path visits no node twice. */
  lemma StitchedSimple(p: Instance, s: Joint)
    requires p.Ready() && JointInv(p, s) && s.m.best.Some? && p.q.PositiveHours()
    ensures Distinct(Stitched(p, s).nodes)
  {
    var x := s.m.node;
    var cs, ms := Chain(p.Fwd(), s.f, x), Chain(p.Bwd(), s.b, x);
    ChainDescends(p.Fwd(), s.f, x);
    ChainDescends(p.Bwd(), s.b, x);
    ChainExact(p.Fwd(), s.f, x);
    forall i, j | 0 <= i < |cs| && 0 < j < |ms|
      ensures cs[i] != ms[j]
    {
      if cs[i] == ms[j] {
        HalvesDisjoint(p, s, x, ms[j]);
      }
    }
    JoinedDistinct(cs, ms);
  }

  // ----- completeness -----

  /** Stopping without a meeting, be it on the first empty queue, means no route. */
  lemma NoMeetingNoRoute(p: Instance, s: Joint)
    requires p.Ready() && JointInv(p, s) && Halted(s) && s.m.best.None?
    ensures !p.q.HasRoute(p.start, p.goal)
  {
    var i, j :| Tops(s, i, j) && StopsAt(s, i, j);
    if ns, es :| p.q.Connects(ns, es, p.start, p.goal) {
      if s.f.queue == [] {
        WalkPrefixOutward(p.Fwd(), ns, es, |es|);
        assert ns[..|es| + 1] == ns && es[..|es|] == es && ns[|es|] == p.goal;
        ExhaustedReachesAll(p.Fwd(), s.f, ns, es);
      } else {
        WalkSuffixOutward(p.Bwd(), ns, es, 0);
        ExhaustedReachesAll(p.Bwd(), s.b, Reversed(ns[0..]), Reversed(es[0..]));
      }
    }
  }

  // ----- optimality with a zero estimate -----

  lemma ZeroEstimateConsistent(p: Instance)
    requires p.est.speedKmH <= 0.0 && p.q.NonnegativeHours()
    ensures p.Fwd().Consistent() && p.Bwd().Consistent()
  {
  }

  /** One side against a whole walk: it has scored the far end no worse than the walk,
      or the entry on top of its queue costs at most as much. */
  lemma SteadyTop(t: Task, s: Side, i: nat, v: int, c: real)
    requires Queued(t, s) && Bounded(t, s, v, c)
    requires (forall n :: t.h(n) >= 0.0) && t.h(v) == 0.0 && (s.queue != [] ==> IsTop(s.queue, i))
    ensures (v in s.g && s.g[v] <= c) || (s.queue != [] && s.queue[i].gCost <= c)
  {
    if x :| x in s.queue && x.fCost <= c + t.h(v) {
      var k :| 0 <= k < |s.queue| && s.queue[k] == x;
      assert s.queue[i] in s.queue;
      assert t.h(s.queue[i].node) >= 0.0;
    }
  }

  /** The tail of the walk from its i-th node is scored by the backward side, or costs
      at least what is on top of its queue. */
  lemma TailBound(p: Instance, s: Joint, j: nat, ns: seq<int>, es: seq<Edge>, i: nat)
    requires p.Ready() && Inv(p.Bwd(), s.b) && p.est.speedKmH <= 0.0
    requires p.q.Connects(ns, es, p.start, p.goal) && i <= |es|
    requires s.b.queue != [] ==> IsTop(s.b.queue, j)
    ensures var c := Sum(p.q.hours, es[i..]);
            || (ns[i] in s.b.g && s.b.g[ns[i]] <= c)
            || (s.b.queue != [] && s.b.queue[j].gCost <= c)
  {
    ZeroEstimateConsistent(p);
    WalkSuffixOutward(p.Bwd(), ns, es, i);
    NoWalkBeatsQueue(p.Bwd(), s.b, Reversed(ns[i..]), Reversed(es[i..]));
    SteadyTop(p.Bwd(), s.b, j, ns[i], Sum(p.q.hours, es[i..]));
  }

  /** The forward score of a settled node on the walk carries over to the next node. */
  lemma SettledStep(p: Instance, s: Joint, ns: seq<int>, es: seq<Edge>, i: nat)
    requires p.Ready() && Inv(p.Fwd(), s.f) && p.est.speedKmH <= 0.0
    requires p.q.IsWalk(ns, es) && i < |es| && ns[i] in s.f.closed
    requires s.f.g[ns[i]] <= Sum(p.q.hours, es[..i])
    ensures ns[i + 1] in s.f.g && s.f.g[ns[i + 1]] <= Sum(p.q.hours, es[..i + 1])
  {
    ZeroEstimateConsistent(p);
    assert p.q.Arc(ns[i], ns[i + 1], es[i]);
    assert p.Fwd().Step(ns[i], ns[i + 1], es[i]);
    assert es[..i + 1][..i] == es[..i];
  }

  /** An unsettled node keeps the top of the queue at or below its score. */
  lemma UnsettledTop(t: Task, s: Side, i0: nat, u: int)
    requires Queued(t, s) && (forall n :: t.h(n) == 0.0) && u in s.g && u !in s.closed
    requires s.queue != [] ==> IsTop(s.queue, i0)
    ensures s.queue != [] && s.queue[i0].gCost <= s.g[u]
  {
    assert Entry(u, s.g[u], s.g[u] + t.h(u)) in s.queue;
    assert s.queue[i0] in s.queue;
  }

  lemma MetBound(p: Instance, s: Joint, x: int, c: real)
    requires JointInv(p, s) && x in s.f.g && x in s.b.g && s.f.g[x] + s.b.g[x] <= c
    ensures s.m.best.Some? && s.m.best.value <= c
  {
  }

  lemma RootScores(p: Instance, s: Joint)
    requires JointInv(p, s)
    ensures p.start in s.f.g && s.f.g[p.start] == 0.0
    ensures p.goal in s.b.g && s.b.g[p.goal] == 0.0
  {
  }

  lemma SumSplit(f: Edge -> real, es: seq<Edge>, i: nat)
    requires i <= |es|
    ensures Sum(f, es) == Sum(f, es[..i]) + Sum(f, es[i..])
  {
    assert es == es[..i] + es[i..];
    SumConcat(f, es[..i], es[i..]);
  }

  /** The walk leaves the settled forward nodes at its i-th node: the backward side has
      scored the rest of it, or the stopping rule already rules it out. */
  lemma LeavingSettled(p: Instance, s: Joint, i0: nat, j0: nat, ns: seq<int>, es: seq<Edge>, i: nat)
    requires p.Ready() && JointInv(p, s) && p.est.speedKmH <= 0.0
    requires Tops(s, i0, j0) && StopsAt(s, i0, j0)
    requires p.q.Connects(ns, es, p.start, p.goal) && i <= |es|
    requires ns[i] in s.f.g && ns[i] !in s.f.closed && s.f.g[ns[i]] <= Sum(p.q.hours, es[..i])
    ensures s.m.best.Some? && s.m.best.value <= Sum(p.q.hours, es)
  {
    SumSplit(p.q.hours, es, i);
    UnsettledTop(p.Fwd(), s.f, i0, ns[i]);
    TailBound(p, s, j0, ns, es, i);
    if ns[i] in s.b.g && s.b.g[ns[i]] <= Sum(p.q.hours, es[i..]) {
      MetBound(p, s, ns[i], Sum(p.q.hours, es));
    }
  }

  /** If the forward score of the walk's i-th node is no worse than the walk so far,
      then the best meeting is no worse than the whole walk. */
  lemma {:induction false} WalkNotFaster(p: Instance, s: Joint, i0: nat, j0: nat, ns: seq<int>, es: seq<Edge>, i: nat)
    requires p.Ready() && JointInv(p, s) && p.est.speedKmH <= 0.0
    requires Tops(s, i0, j0) && StopsAt(s, i0, j0)
    requires p.q.Connects(ns, es, p.start, p.goal) && i <= |es|
    requires ns[i] in s.f.g && s.f.g[ns[i]] <= Sum(p.q.hours, es[..i])
    ensures s.m.best.Some? && s.m.best.value <= Sum(p.q.hours, es)
    decreases |es| - i
  {
    if ns[i] !in s.f.closed {
      LeavingSettled(p, s, i0, j0, ns, es, i);
    } else if i == |es| {
      RootScores(p, s);
      assert es[..i] == es;
      MetBound(p, s, ns[i], Sum(p.q.hours, es));
    } else {
      SettledStep(p, s, ns, es, i);
      WalkNotFaster(p, s, i0, j0, ns, es, i + 1);
    }
  }

  lemma HaltedOptimal(p: Instance, s: Joint)
    requires p.Ready() && JointInv(p, s) && Halted(s) && p.est.speedKmH <= 0.0 && s.m.best.Some?
    ensures p.q.NoneFaster(p.start, p.goal, s.m.best.value)
  {
    var i, j :| Tops(s, i, j) && StopsAt(s, i, j);
    RootScores(p, s);
    forall ns, es | p.q.Connects(ns, es, p.start, p.goal)
      ensures Meets(Best, s.m.best.value, Sum(p.q.hours, es))
    {
      assert es[..0] == [];
      WalkNotFaster(p, s, i, j, ns, es, 0);
    }
  }

  // ----- within twice the optimum with any steady estimate -----

  lemma SteadyConsistent(p: Instance)
    requires Steady(p.q, p.est, p.start) && Steady(p.q, p.est, p.goal)
    ensures p.Fwd().Consistent() && p.Bwd().Consistent()
    ensures forall n :: p.Fwd().h(n) >= 0.0 && p.Bwd().h(n) >= 0.0
    ensures p.Fwd().h(p.goal) == 0.0 && p.Bwd().h(p.start) == 0.0
  {
  }

  lemma ForwardTopBound(p: Instance, s: Joint, i: nat, ns: seq<int>, es: seq<Edge>)
    requires p.Ready() && Inv(p.Fwd(), s.f) && Steady(p.q, p.est, p.start) && Steady(p.q, p.est, p.goal)
    requires p.q.Connects(ns, es, p.start, p.goal) && (s.f.queue != [] ==> IsTop(s.f.queue, i))
    ensures var c := Sum(p.q.hours, es);
            (p.goal in s.f.g && s.f.g[p.goal] <= c) || (s.f.queue != [] && s.f.queue[i].gCost <= c)
  {
    SteadyConsistent(p);
    WalkPrefixOutward(p.Fwd(), ns, es, |es|);
    assert ns[..|es| + 1] == ns && es[..|es|] == es && ns[|es|] == p.goal;
    NoWalkBeatsQueue(p.Fwd(), s.f, ns, es);
    SteadyTop(p.Fwd(), s.f, i, p.goal, Sum(p.q.hours, es));
  }

  lemma BackwardTopBound(p: Instance, s: Joint, j: nat, ns: seq<int>, es: seq<Edge>)
    requires p.Ready() && Inv(p.Bwd(), s.b) && Steady(p.q, p.est, p.start) && Steady(p.q, p.est, p.goal)
    requires p.q.Connects(ns, es, p.start, p.goal) && (s.b.queue != [] ==> IsTop(s.b.queue, j))
    ensures var c := Sum(p.q.hours, es);
            (p.start in s.b.g && s.b.g[p.start] <= c) || (s.b.queue != [] && s.b.queue[j].gCost <= c)
  {
    SteadyConsistent(p);
    WalkSuffixOutward(p.Bwd(), ns, es, 0);
    assert es[0..] == es;
    NoWalkBeatsQueue(p.Bwd(), s.b, Reversed(ns[0..]), Reversed(es[0..]));
    SteadyTop(p.Bwd(), s.b, j, p.start, Sum(p.q.hours, es));
  }

  /** Whichever test stopped the loop, the best meeting takes at most twice as long as
      any route: until the route is met, no top is dearer than the route. */
  lemma HaltedWithinTwice(p: Instance, s: Joint)
    requires p.Ready() && JointInv(p, s) && Halted(s) && s.m.best.Some?
    requires Steady(p.q, p.est, p.start) && Steady(p.q, p.est, p.goal)
    ensures p.q.Graded(p.start, p.goal, TwiceBest, s.m.best.value)
  {
    var i, j :| Tops(s, i, j) && StopsAt(s, i, j);
    RootScores(p, s);
    forall ns, es | p.q.Connects(ns, es, p.start, p.goal)
      ensures Meets(TwiceBest, s.m.best.value, Sum(p.q.hours, es))
    {
      var c := Sum(p.q.hours, es);
      WalkHoursNonnegative(p.q, ns, es);
      ForwardTopBound(p, s, i, ns, es);
      BackwardTopBound(p, s, j, ns, es);
      if p.goal in s.f.g && s.f.g[p.goal] <= c {
        MetBound(p, s, p.goal, c);
      } else if p.start in s.b.g && s.b.g[p.start] <= c {
        MetBound(p, s, p.start, c);
      }
    }
  }

  /** r is what the search returns from some halted run. */
  ghost predicate IsOutcome(p: Instance, r: SearchResult) {
    exists s :: Reachable(p, s) && Halted(s) && JointInv(p, s) && Returns(p, s, r)
  }

  lemma HaltedAnswers(p: Instance, s: Joint, r: SearchResult)
    requires p.Ready() && JointInv(p, s) && Halted(s) && Returns(p, s, r)
    ensures r.NoPath? || r.Found?
    ensures r.NoPath? && (forall n :: n in p.q.net.nodes ==> n >= 0) ==> !p.q.HasRoute(p.start, p.goal)
    ensures r.Found? ==> ExactRoute(p.q, p.start, p.goal, r.path)
    ensures r.Found? && p.q.PositiveHours() ==> Distinct(r.path.nodes)
    ensures r.Found? ==> p.q.Graded(p.start, p.goal, Promised(p.q, p.est, p.start, p.goal), r.path.timeHours)
  {
    if s.m.best.None? {
      NoMeetingNoRoute(p, s);
    } else {
      StitchedExact(p, s);
      if p.q.PositiveHours() {
        StitchedSimple(p, s);
      }
      if p.est.speedKmH <= 0.0 {
        HaltedOptimal(p, s);
      } else if Steady(p.q, p.est, p.start) && Steady(p.q, p.est, p.goal) {
        HaltedWithinTwice(p, s);
      }
      assert p.q.Usable(s.m.node);
    }
  }

  /** Everything a halted run returns: an exact walk, simple when times are positive;
      nothing at all only when there is no route or some node is negative; the fastest
      route when the estimate is switched off, and one within twice the fastest when the
      estimate is steady. */
  lemma OutcomeAnswers(p: Instance, r: SearchResult)
    requires p.Ready() && IsOutcome(p, r)
    ensures AStar.Answers(p.q, p.start, p.goal, forall n :: n in p.q.net.nodes ==> n >= 0,
                          Promised(p.q, p.est, p.start, p.goal), r)
    ensures r.NoPath? || r.Found?
  {
    var s :| Reachable(p, s) && Halted(s) && JointInv(p, s) && Returns(p, s, r);
    HaltedAnswers(p, s, r);
  }
}
