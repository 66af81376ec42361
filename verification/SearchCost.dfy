/** How much work a search can do: every pop pays for itself out of a potential made
    of the queued entries and the edges of the nodes not settled yet. */
module SearchCost {
  import opened RoadNetwork
  import opened Frontier

  ghost function Total<T>(weight: T -> nat, ns: set<T>): nat {
    if ns == {} then 0
    else
      var x :| x in ns;
      weight(x) + Total(weight, ns - {x})
  }

  lemma {:induction false} TotalRemove<T>(weight: T -> nat, ns: set<T>, x: T)
    requires x in ns
    ensures Total(weight, ns) == weight(x) + Total(weight, ns - {x})
    decreases ns
  {
    var y :| y in ns && Total(weight, ns) == weight(y) + Total(weight, ns - {y});
    if y != x {
      TotalRemove(weight, ns - {y}, x);
      TotalRemove(weight, ns - {x}, y);
      assert ns - {y} - {x} == ns - {x} - {y};
    }
  }

  /** Edges a direction looks at when it expands v, duplicates in the reverse list
      included. */
  function Degree(t: Task, rev: map<int, seq<int>>, v: int): nat {
    if t.dir.Forward? then |t.q.net.Out(v)| else |In(rev, v)|
  }

  ghost function EdgeCount(t: Task, rev: map<int, seq<int>>, ns: set<int>): nat {
    Total(v => Degree(t, rev, v), ns)
  }

  ghost function Potential(t: Task, rev: map<int, seq<int>>, s: Side): nat {
    |s.queue| + EdgeCount(t, rev, t.q.net.nodes - s.closed.Keys)
  }

  lemma {:induction false} ForwardHopsCount(q: Query, cur: int, es: seq<Edge>)
    ensures |ForwardHops(q, cur, es)| <= |es|
  {
    if es != [] {
      ForwardHopsCount(q, cur, es[..|es| - 1]);
    }
  }

  lemma {:induction false} BackwardHopsCount(q: Query, cur: int, froms: seq<int>)
    ensures |BackwardHops(q, cur, froms)| <= |froms|
  {
    if froms != [] {
      BackwardHopsCount(q, cur, froms[..|froms| - 1]);
    }
  }

  lemma StartPotential(t: Task, rev: map<int, seq<int>>, estimate: real)
    ensures Potential(t, rev, StartSide(t.root, estimate)) == 1 + EdgeCount(t, rev, t.q.net.nodes)
  {
    var s := StartSide(t.root, estimate);
    assert t.q.net.nodes - s.closed.Keys == t.q.net.nodes;
  }

  lemma HopsCount(t: Task, rev: map<int, seq<int>>, cur: int)
    ensures |Hops(t, rev, cur)| <= Degree(t, rev, cur)
  {
    if t.dir.Forward? {
      ForwardHopsCount(t.q, cur, t.q.net.Out(cur));
    } else {
      BackwardHopsCount(t.q, cur, In(rev, cur));
    }
  }

  lemma SettlePays(t: Task, rev: map<int, seq<int>>, open: set<int>, cur: int)
    requires cur in open
    ensures |Hops(t, rev, cur)| + EdgeCount(t, rev, open - {cur}) <= EdgeCount(t, rev, open)
  {
    TotalRemove(v => Degree(t, rev, v), open, cur);
    HopsCount(t, rev, cur);
  }

  /** Settling the node of entry i and expanding it, however many entries that pushes,
      lowers the potential. */
  lemma ExpandPays(t: Task, rev: map<int, seq<int>>, s: Side, i: nat)
    requires Tree(t, s) && i < |s.queue| && s.queue[i].node in s.g && s.queue[i].node !in s.closed
    ensures var cur := s.queue[i].node;
            Potential(t, rev, Expand(Settle(s, i), t.q.hours, t.h, cur, Hops(t, rev, cur))) < Potential(t, rev, s)
  {
    var cur := s.queue[i].node;
    var r := Expand(Settle(s, i), t.q.hours, t.h, cur, Hops(t, rev, cur));
    var open := t.q.net.nodes - s.closed.Keys;
    assert t.q.Usable(cur);
    SettlePays(t, rev, open, cur);
    assert t.q.net.nodes - r.closed.Keys == open - {cur};
  }

  lemma DiscardPays(t: Task, rev: map<int, seq<int>>, s: Side, i: nat)
    requires i < |s.queue|
    ensures Potential(t, rev, Discard(s, i)) < Potential(t, rev, s)
  {
  }
}
