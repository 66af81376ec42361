/** One direction of a best-first search with lazy deletion: the scores, the
    tree of links, the settled nodes and the queue, together with the invariant
    that every step keeps. A unidirectional search runs one of these forward from
    the start; a bidirectional search runs a second one backward from the goal. */
module Frontier {
  import opened Wrappers
  import opened RoadNetwork

  datatype Direction = Forward | Backward

  /** A queue entry; entries are never updated, so a node may have stale ones. */
  datatype Entry = Entry(node: int, gCost: real, fCost: real)

  /** `closed` maps a settled node to its position in the settling order. */
  datatype Side = Side(g: map<int, real>, d: map<int, real>, link: map<int, int>,
                       linkEdge: map<int, Edge>, closed: map<int, nat>, queue: seq<Entry>)

  /** What a search direction is run on: the query, the root it grows from and the
      heuristic estimate of the remaining time. */
  datatype Task = Task(q: Query, dir: Direction, root: int, h: int -> real) {

    /** e leads from u one step away from the root, to v. */
    predicate Step(u: int, v: int, e: Edge) {
      if dir.Forward? then q.Arc(u, v, e) else q.Arc(v, u, e)
    }

    ghost predicate Consistent() {
      forall u, v, e :: Step(u, v, e) ==> h(u) <= q.hours(e) + h(v)
    }

    ghost predicate Ready() {
      q.Usable(root) && q.NonnegativeHours()
    }

    /** ns and es lead from the root outward, one step at a time. */
    ghost predicate Outward(ns: seq<int>, es: seq<Edge>) {
      && |ns| == |es| + 1
      && ns[0] == root
      && (forall i :: 0 <= i < |es| ==> Step(ns[i], ns[i + 1], es[i]))
    }
  }

  // ----- queue -----

  predicate IsTop(queue: seq<Entry>, i: nat) {
    i < |queue| && forall j :: 0 <= j < |queue| ==> queue[i].fCost <= queue[j].fCost
  }

  /** The heap's contract: the top is some entry of least fCost; ties are open. */
  method PeekTop(queue: seq<Entry>) returns (top: nat)
    requires queue != []
    ensures IsTop(queue, top)
  {
    top := 0;
    for i := 1 to |queue|
      invariant top < |queue|
      invariant forall j :: 0 <= j < i ==> queue[top].fCost <= queue[j].fCost
    {
      if queue[i].fCost < queue[top].fCost {
        top := i;
      }
    }
  }

  function RemoveAt(queue: seq<Entry>, i: nat): (r: seq<Entry>)
    requires i < |queue|
    ensures |r| == |queue| - 1
    ensures forall x :: x in r ==> x in queue
    ensures forall x :: x in queue && x != queue[i] ==> x in r
  {
    var r := seq(|queue| - 1, j requires 0 <= j < |queue| - 1 => if j < i then queue[j] else queue[j + 1]);
    assert forall k :: 0 <= k < |queue| && k != i ==> queue[k] == r[if k < i then k else k - 1];
    r
  }

  // ----- steps of one direction -----

  function StartSide(root: int, estimate: real): Side {
    Side(map[root := 0.0], map[root := 0.0], map[], map[], map[], [Entry(root, 0.0, estimate)])
  }

  /** A popped entry is skipped when its node is settled or a better score is known. */
  predicate Stale(s: Side, x: Entry) {
    x.node in s.closed || (x.node in s.g && x.gCost > s.g[x.node])
  }

  function Discard(s: Side, i: nat): Side
    requires i < |s.queue|
  {
    s.(queue := RemoveAt(s.queue, i))
  }

  function Settle(s: Side, i: nat): Side
    requires i < |s.queue|
  {
    s.(queue := RemoveAt(s.queue, i), closed := s.closed[s.queue[i].node := |s.closed|])
  }

  /** An edge that may be relaxed from the node being expanded. */
  datatype Hop = Hop(node: int, edge: Edge)

  predicate Improves(s: Side, hours: Edge -> real, cur: int, hop: Hop)
    requires cur in s.g
  {
    && hop.node !in s.closed
    && (hop.node in s.g ==> s.g[cur] + hours(hop.edge) < s.g[hop.node])
  }

  function Relax(s: Side, hours: Edge -> real, h: int -> real, cur: int, hop: Hop): (r: Side)
    requires cur in s.g && cur in s.d
    ensures r.closed == s.closed && |r.queue| <= |s.queue| + 1
  {
    if Improves(s, hours, cur, hop) then
      var v, tent := hop.node, s.g[cur] + hours(hop.edge);
      Side(s.g[v := tent], s.d[v := s.d[cur] + hop.edge.distanceKm], s.link[v := cur],
           s.linkEdge[v := hop.edge], s.closed, s.queue + [Entry(v, tent, tent + h(v))])
    else
      s
  }

  function Expand(s: Side, hours: Edge -> real, h: int -> real, cur: int, hops: seq<Hop>): (r: Side)
    requires cur in s.g && cur in s.d
    ensures cur in r.g && cur in r.d
    ensures r.closed == s.closed && |r.queue| <= |s.queue| + |hops|
  {
    if hops == [] then s
    else Relax(Expand(s, hours, h, cur, hops[..|hops| - 1]), hours, h, cur, hops[|hops| - 1])
  }

  // ----- which hops a node offers -----

  /** Outgoing edges in list order that pass every filter. */
  function ForwardHops(q: Query, cur: int, es: seq<Edge>): seq<Hop> {
    if es == [] then []
    else
      var e := es[|es| - 1];
      ForwardHops(q, cur, es[..|es| - 1]) + if q.Arc(cur, e.to, e) then [Hop(e.to, e)] else []
  }

  /** The fastest permitted edge to `cur` in a list, the first one on a tie. */
  function FastestInto(q: Query, from: int, cur: int, es: seq<Edge>): Option<Edge> {
    if es == [] then None
    else
      var best, e := FastestInto(q, from, cur, es[..|es| - 1]), es[|es| - 1];
      if e.to == cur && (from, cur) !in q.blockedEdges && q.permits(e)
         && (best.None? || q.hours(e) < q.hours(best.value)) then Some(e)
      else best
  }

  /** For each tail of an incoming edge in list order, its fastest permitted edge. */
  function BackwardHops(q: Query, cur: int, froms: seq<int>): seq<Hop> {
    if froms == [] then []
    else
      var from := froms[|froms| - 1];
      var best := FastestInto(q, from, cur, q.net.Out(from));
      BackwardHops(q, cur, froms[..|froms| - 1])
      + if q.Usable(from) && best.Some? then [Hop(from, best.value)] else []
  }

  function Hops(t: Task, rev: map<int, seq<int>>, cur: int): seq<Hop> {
    if t.dir.Forward? then ForwardHops(t.q, cur, t.q.net.Out(cur)) else BackwardHops(t.q, cur, In(rev, cur))
  }

  /** The hops of a direction are sound, and no permitted step beats them. */
  ghost predicate Covers(t: Task, cur: int, hops: seq<Hop>) {
    && (forall i :: 0 <= i < |hops| ==> t.Step(cur, hops[i].node, hops[i].edge))
    && (forall v, e :: t.Step(cur, v, e) ==>
          exists i :: 0 <= i < |hops| && hops[i].node == v && t.q.hours(hops[i].edge) <= t.q.hours(e))
  }

  /** The hops are exactly the edges of the list that may be taken out of `cur`. */
  ghost predicate AreHops(q: Query, cur: int, es: seq<Edge>, hops: seq<Hop>) {
    && (forall i :: 0 <= i < |hops| ==> hops[i].edge in es && q.Arc(cur, hops[i].node, hops[i].edge))
    && (forall e :: e in es && q.Arc(cur, e.to, e) ==> Hop(e.to, e) in hops)
  }

  lemma OneMoreHop(q: Query, cur: int, init: seq<Edge>, e: Edge, hops: seq<Hop>)
    requires AreHops(q, cur, init, hops)
    ensures AreHops(q, cur, init + [e], hops + if q.Arc(cur, e.to, e) then [Hop(e.to, e)] else [])
  {
    var more := hops + if q.Arc(cur, e.to, e) then [Hop(e.to, e)] else [];
    forall i | 0 <= i < |more|
      ensures more[i].edge in init + [e] && q.Arc(cur, more[i].node, more[i].edge)
    {
      assert i < |hops| ==> more[i] == hops[i];
    }
    forall x | x in init + [e] && q.Arc(cur, x.to, x)
      ensures Hop(x.to, x) in more
    {
      assert x in init ==> Hop(x.to, x) in hops;
    }
  }

  lemma {:induction false} ForwardHopsCover(q: Query, cur: int, es: seq<Edge>)
    requires q.Usable(cur)
    ensures AreHops(q, cur, es, ForwardHops(q, cur, es))
  {
    if es != [] {
      var init, e := es[..|es| - 1], es[|es| - 1];
      ForwardHopsCover(q, cur, init);
      OneMoreHop(q, cur, init, e, ForwardHops(q, cur, init));
      assert es == init + [e];
    }
  }

  lemma {:induction false} FastestIntoIsBest(q: Query, from: int, cur: int, es: seq<Edge>)
    ensures var best := FastestInto(q, from, cur, es);
            && (best.Some? ==> best.value in es && best.value.to == cur
                               && (from, cur) !in q.blockedEdges && q.permits(best.value))
            && (forall e :: e in es && e.to == cur && (from, cur) !in q.blockedEdges && q.permits(e)
                            ==> best.Some? && q.hours(best.value) <= q.hours(e))
  {
    if es != [] {
      FastestIntoIsBest(q, from, cur, es[..|es| - 1]);
      assert es == es[..|es| - 1] + [es[|es| - 1]];
    }
  }

  lemma {:induction false} BackwardHopsArcs(q: Query, cur: int, froms: seq<int>)
    requires q.Usable(cur)
    ensures forall hop :: hop in BackwardHops(q, cur, froms) ==> q.Arc(hop.node, cur, hop.edge)
  {
    if froms != [] {
      var from := froms[|froms| - 1];
      BackwardHopsArcs(q, cur, froms[..|froms| - 1]);
      FastestIntoIsBest(q, from, cur, q.net.Out(from));
    }
  }

  lemma {:induction false} BackwardHopsCover(q: Query, cur: int, froms: seq<int>)
    requires q.Usable(cur)
    ensures forall u, e :: u in froms && q.Arc(u, cur, e) ==>
              exists hop :: hop in BackwardHops(q, cur, froms) && hop.node == u && q.hours(hop.edge) <= q.hours(e)
  {
    if froms != [] {
      var n := |froms| - 1;
      var from := froms[n];
      var rest, hops := BackwardHops(q, cur, froms[..n]), BackwardHops(q, cur, froms);
      BackwardHopsCover(q, cur, froms[..n]);
      FastestIntoIsBest(q, from, cur, q.net.Out(from));
      assert froms == froms[..n] + [from];
      forall u, e | u in froms && q.Arc(u, cur, e)
        ensures exists hop :: hop in hops && hop.node == u && q.hours(hop.edge) <= q.hours(e)
      {
        if u !in froms[..n] {
          assert hops[|rest|].node == u && hops[|rest|] in hops;
        }
      }
    }
  }

  // ----- the invariant -----

  ghost predicate Attached(t: Task, s: Side, v: int)
    requires v in s.link && v in s.linkEdge && v in s.g && v in s.d
    requires s.d.Keys == s.g.Keys && s.closed.Keys <= s.g.Keys
  {
    var u, e := s.link[v], s.linkEdge[v];
    && u in s.closed
    && (v in s.closed ==> s.closed[u] < s.closed[v])
    && t.Step(u, v, e)
    && s.g[v] == s.g[u] + t.q.hours(e)
    && s.d[v] == s.d[u] + e.distanceKm
  }

  /** The links form a tree with exact scores: a node hangs under a node that was
      settled before it, so the parent's scores can no longer change. */
  ghost predicate Tree(t: Task, s: Side) {
    && t.root in s.g && s.g[t.root] == 0.0
    && s.d.Keys == s.g.Keys && s.d[t.root] == 0.0
    && s.link.Keys == s.linkEdge.Keys == s.g.Keys - {t.root}
    && s.closed.Keys <= s.g.Keys
    && (forall v :: v in s.g ==> t.q.Usable(v) && s.g[v] >= 0.0)
    && (forall v :: v in s.closed ==> s.closed[v] < |s.closed|)
    && (forall v {:trigger Attached(t, s, v)} :: v in s.link ==> Attached(t, s, v))
  }

  /** Every entry is at least its node's score, and every unsettled reached node
      still has an entry at exactly its score. */
  ghost predicate Queued(t: Task, s: Side) {
    && (forall x :: x in s.queue ==> x.node in s.g && s.g[x.node] <= x.gCost && x.fCost == x.gCost + t.h(x.node))
    && (forall v :: v in s.g && v !in s.closed ==> Entry(v, s.g[v], s.g[v] + t.h(v)) in s.queue)
  }

  /** Steps out of settled nodes lead to reached nodes. */
  ghost predicate Reached(t: Task, s: Side, except: set<int>) {
    forall v, w, e :: v in s.closed && v !in except && t.Step(v, w, e) ==> w in s.g
  }

  /** With a consistent heuristic no step out of a settled node can still improve a
      score, settled or not: nothing ever has to be reopened. */
  ghost predicate Final(t: Task, s: Side, except: set<int>)
    requires s.closed.Keys <= s.g.Keys
  {
    forall v, w, e :: v in s.closed && v !in except && t.Step(v, w, e) ==>
      w in s.g && s.g[w] <= s.g[v] + t.q.hours(e)
  }

  /** With a consistent heuristic nodes settle in order of g + h. */
  ghost predicate Ordered(t: Task, s: Side)
    requires s.closed.Keys <= s.g.Keys
  {
    forall v, x :: v in s.closed && x in s.queue ==> s.g[v] + t.h(v) <= x.fCost
  }

  ghost predicate Inv(t: Task, s: Side) {
    && Tree(t, s) && Queued(t, s) && Reached(t, s, {})
    && (t.Consistent() ==> Final(t, s, {}) && Ordered(t, s))
  }

  /** The invariant while the steps out of `cur` are being relaxed. */
  ghost predicate Mid(t: Task, s: Side, cur: int) {
    && Tree(t, s) && Queued(t, s) && Reached(t, s, {cur})
    && cur in s.closed
    && (t.Consistent() ==>
          Final(t, s, {cur}) && Ordered(t, s)
          && forall v :: v in s.closed ==> s.g[v] + t.h(v) <= s.g[cur] + t.h(cur))
  }

  lemma StartTree(t: Task, s: Side, estimate: real)
    requires t.Ready() && s == StartSide(t.root, estimate)
    ensures Tree(t, s)
  {
  }

  lemma StartQueue(t: Task, s: Side)
    requires s == StartSide(t.root, t.h(t.root))
    ensures Queued(t, s) && Reached(t, s, {}) && s.closed.Keys <= s.g.Keys && Final(t, s, {}) && Ordered(t, s)
  {
  }

  lemma StartInv(t: Task)
    requires t.Ready()
    ensures Inv(t, StartSide(t.root, t.h(t.root)))
  {
    var s := StartSide(t.root, t.h(t.root));
    StartTree(t, s, t.h(t.root));
    StartQueue(t, s);
  }

  lemma SameTree(t: Task, s: Side, r: Side)
    requires Tree(t, s) && r == s.(queue := r.queue)
    ensures Tree(t, r)
  {
    forall v | v in r.link
      ensures Attached(t, r, v)
    {
      assert Attached(t, s, v);
    }
  }

  lemma DiscardOrdered(t: Task, s: Side, i: nat)
    requires s.closed.Keys <= s.g.Keys && Final(t, s, {}) && Ordered(t, s) && i < |s.queue|
    ensures Final(t, Discard(s, i), {}) && Ordered(t, Discard(s, i))
  {
  }

  lemma DiscardQueued(t: Task, s: Side, i: nat)
    requires Queued(t, s) && i < |s.queue| && Stale(s, s.queue[i])
    ensures Queued(t, Discard(s, i))
  {
  }

  lemma DiscardInv(t: Task, s: Side, i: nat)
    requires Inv(t, s) && i < |s.queue| && Stale(s, s.queue[i])
    ensures Inv(t, Discard(s, i))
  {
    var r := Discard(s, i);
    SameTree(t, s, r);
    assert Queued(t, r) by { DiscardQueued(t, s, i); }
    if t.Consistent() {
      DiscardOrdered(t, s, i);
    }
  }

  lemma SettleOrdered(t: Task, s: Side, i: nat)
    requires s.closed.Keys <= s.g.Keys && Queued(t, s) && Final(t, s, {}) && Ordered(t, s)
    requires IsTop(s.queue, i) && !Stale(s, s.queue[i])
    ensures var cur, r := s.queue[i].node, Settle(s, i);
            && cur in s.g && r.closed.Keys <= r.g.Keys
            && Final(t, r, {cur}) && Ordered(t, r)
            && forall v :: v in r.closed ==> r.g[v] + t.h(v) <= r.g[cur] + t.h(cur)
  {
    assert s.queue[i] in s.queue;
  }

  lemma SettleReached(t: Task, s: Side, i: nat)
    requires Reached(t, s, {}) && i < |s.queue|
    ensures Reached(t, Settle(s, i), {s.queue[i].node})
  {
  }

  lemma QueuedByParts(t: Task, s: Side, r: Side, kept: seq<Entry>, n: int)
    requires r.g == s.g && r.queue == kept && forall v :: v in s.g && v !in r.closed ==> v !in s.closed && v != n
    requires forall x :: x in kept ==> x.node in s.g && s.g[x.node] <= x.gCost && x.fCost == x.gCost + t.h(x.node)
    requires forall v :: v in s.g && v !in s.closed && v != n ==> Entry(v, s.g[v], s.g[v] + t.h(v)) in kept
    ensures Queued(t, r)
  {
  }

  lemma DropEntry(t: Task, s: Side, i: nat)
    requires Queued(t, s) && i < |s.queue|
    ensures var r := Discard(s, i);
            && (forall x :: x in r.queue ==>
                  x.node in s.g && s.g[x.node] <= x.gCost && x.fCost == x.gCost + t.h(x.node))
            && (forall v :: v in s.g && v !in s.closed && v != s.queue[i].node ==>
                  Entry(v, s.g[v], s.g[v] + t.h(v)) in r.queue)
  {
  }

  lemma SettleQueued(t: Task, s: Side, i: nat)
    requires Queued(t, s) && i < |s.queue|
    ensures Queued(t, Settle(s, i))
  {
    DropEntry(t, s, i);
    QueuedByParts(t, s, Settle(s, i), Discard(s, i).queue, s.queue[i].node);
  }

  lemma SettleTree(t: Task, s: Side, i: nat)
    requires Tree(t, s) && i < |s.queue| && s.queue[i].node in s.g && s.queue[i].node !in s.closed
    ensures Tree(t, Settle(s, i))
  {
    var r := Settle(s, i);
    forall v | v in r.link
      ensures Attached(t, r, v)
    {
      assert Attached(t, s, v);
    }
  }

  lemma SettleMid(t: Task, s: Side, i: nat)
    requires Inv(t, s) && IsTop(s.queue, i) && !Stale(s, s.queue[i])
    ensures Mid(t, Settle(s, i), s.queue[i].node)
    ensures s.queue[i].gCost == s.g[s.queue[i].node]
  {
    assert s.queue[i] in s.queue;
    SettleTree(t, s, i);
    SettleQueued(t, s, i);
    SettleReached(t, s, i);
    if t.Consistent() {
      SettleOrdered(t, s, i);
    }
  }

  lemma StepFacts(t: Task, u: int, v: int, e: Edge)
    requires t.Ready() && t.Step(u, v, e)
    ensures t.q.Usable(u) && t.q.Usable(v) && t.q.hours(e) >= 0.0
  {
  }

  lemma RelaxOrdered(t: Task, s: Side, cur: int, hop: Hop)
    requires t.Ready() && t.Consistent() && t.Step(cur, hop.node, hop.edge)
    requires cur in s.g && cur in s.d && cur in s.closed && s.closed.Keys <= s.g.Keys
    requires Final(t, s, {cur}) && Ordered(t, s)
    requires forall v :: v in s.closed ==> s.g[v] + t.h(v) <= s.g[cur] + t.h(cur)
    ensures var r := Relax(s, t.q.hours, t.h, cur, hop);
            && r.closed.Keys <= r.g.Keys && cur in r.g && hop.node in r.g
            && Final(t, r, {cur}) && Ordered(t, r)
            && (forall v :: v in r.closed ==> r.g[v] + t.h(v) <= r.g[cur] + t.h(cur))
            && r.g[hop.node] <= r.g[cur] + t.q.hours(hop.edge)
  {
    StepFacts(t, cur, hop.node, hop.edge);
  }

  /** Settled nodes keep their scores, other scores only improve, and the hop's far
      end is reached. */
  ghost predicate Improved(s: Side, r: Side) {
    && r.closed == s.closed
    && s.g.Keys <= r.g.Keys
    && (forall v :: v in s.g ==> r.g[v] <= s.g[v])
    && (forall v :: v in s.g && v in s.closed ==> r.g[v] == s.g[v])
  }

  lemma RelaxReached(t: Task, s: Side, cur: int, hop: Hop)
    requires Reached(t, s, {cur}) && cur in s.g && cur in s.d && cur in s.closed && s.closed.Keys <= s.g.Keys
    ensures var r := Relax(s, t.q.hours, t.h, cur, hop);
            Reached(t, r, {cur}) && Improved(s, r) && hop.node in r.g
  {
  }

  /** A better score with its own entry. */
  lemma PushQueued(t: Task, s: Side, r: Side, v: int, tent: real)
    requires Queued(t, s) && v !in s.closed && (v in s.g ==> tent < s.g[v])
    requires r.g == s.g[v := tent] && r.closed == s.closed
    requires r.queue == s.queue + [Entry(v, tent, tent + t.h(v))]
    ensures Queued(t, r)
  {
    var pushed := Entry(v, tent, tent + t.h(v));
    forall x | x in r.queue
      ensures x.node in r.g && r.g[x.node] <= x.gCost && x.fCost == x.gCost + t.h(x.node)
    {
      assert x in s.queue || x == pushed;
    }
    forall w | w in r.g && w !in r.closed
      ensures Entry(w, r.g[w], r.g[w] + t.h(w)) in r.queue
    {
      assert w != v ==> Entry(w, s.g[w], s.g[w] + t.h(w)) in s.queue;
    }
  }

  lemma RelaxQueued(t: Task, s: Side, cur: int, hop: Hop)
    requires Queued(t, s) && cur in s.g && cur in s.d
    ensures Queued(t, Relax(s, t.q.hours, t.h, cur, hop))
  {
    if Improves(s, t.q.hours, cur, hop) {
      PushQueued(t, s, Relax(s, t.q.hours, t.h, cur, hop), hop.node, s.g[cur] + t.q.hours(hop.edge));
    }
  }

  lemma RelaxTree(t: Task, s: Side, cur: int, hop: Hop)
    requires t.Ready() && Tree(t, s) && cur in s.closed && t.Step(cur, hop.node, hop.edge)
    ensures Tree(t, Relax(s, t.q.hours, t.h, cur, hop))
  {
    var r := Relax(s, t.q.hours, t.h, cur, hop);
    StepFacts(t, cur, hop.node, hop.edge);
    forall v | v in r.link
      ensures Attached(t, r, v)
    {
      if r == s || v != hop.node {
        assert Attached(t, s, v);
      }
    }
  }

  ghost predicate RelaxedBy(t: Task, s: Side, r: Side, cur: int, hop: Hop) {
    && Improved(s, r)
    && cur in r.g && hop.node in r.g
    && (t.Consistent() ==> r.g[hop.node] <= r.g[cur] + t.q.hours(hop.edge))
  }

  lemma RelaxMid(t: Task, s: Side, cur: int, hop: Hop)
    requires t.Ready() && Mid(t, s, cur) && t.Step(cur, hop.node, hop.edge)
    ensures Mid(t, Relax(s, t.q.hours, t.h, cur, hop), cur)
    ensures RelaxedBy(t, s, Relax(s, t.q.hours, t.h, cur, hop), cur, hop)
  {
    RelaxTree(t, s, cur, hop);
    RelaxQueued(t, s, cur, hop);
    RelaxReached(t, s, cur, hop);
    if t.Consistent() {
      RelaxOrdered(t, s, cur, hop);
    }
  }

  /** Relaxing any list of steps out of `cur` keeps the invariant and leaves every
      listed far end reached (and final, with a consistent heuristic). */
  lemma {:induction false} ExpandMid(t: Task, s: Side, cur: int, hops: seq<Hop>)
    requires t.Ready() && Mid(t, s, cur)
    requires forall i :: 0 <= i < |hops| ==> t.Step(cur, hops[i].node, hops[i].edge)
    ensures var r := Expand(s, t.q.hours, t.h, cur, hops);
            && Mid(t, r, cur) && Improved(s, r)
            && forall i :: 0 <= i < |hops| ==> RelaxedBy(t, s, r, cur, hops[i])
  {
    if hops != [] {
      var n := |hops| - 1;
      var m, r := Expand(s, t.q.hours, t.h, cur, hops[..n]), Expand(s, t.q.hours, t.h, cur, hops);
      ExpandMid(t, s, cur, hops[..n]);
      RelaxMid(t, m, cur, hops[n]);
      forall i | 0 <= i < |hops|
        ensures RelaxedBy(t, s, r, cur, hops[i])
      {
        if i < n {
          assert RelaxedBy(t, s, m, cur, hops[..n][i]);
        }
      }
    }
  }

  lemma CloseCurrent(t: Task, r: Side, cur: int)
    requires Mid(t, r, cur)
    requires forall w, e :: t.Step(cur, w, e) ==> w in r.g && (t.Consistent() ==> r.g[w] <= r.g[cur] + t.q.hours(e))
    ensures Inv(t, r)
  {
  }

  /** Once every step out of `cur` has been relaxed the full invariant is back. */
  lemma ExpandInv(t: Task, s: Side, cur: int, hops: seq<Hop>)
    requires t.Ready() && Mid(t, s, cur) && Covers(t, cur, hops)
    ensures Inv(t, Expand(s, t.q.hours, t.h, cur, hops))
    ensures Improved(s, Expand(s, t.q.hours, t.h, cur, hops))
  {
    var r := Expand(s, t.q.hours, t.h, cur, hops);
    ExpandMid(t, s, cur, hops);
    forall w, e | t.Step(cur, w, e)
      ensures w in r.g && (t.Consistent() ==> r.g[w] <= r.g[cur] + t.q.hours(e))
    {
      var i :| 0 <= i < |hops| && hops[i].node == w && t.q.hours(hops[i].edge) <= t.q.hours(e);
      assert RelaxedBy(t, s, r, cur, hops[i]);
    }
    CloseCurrent(t, r, cur);
  }
}
