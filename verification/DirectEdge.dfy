/** A direct edge that is a fastest route is found in the first expansion, and no later
    score is strictly smaller: whatever the estimate, both searches return that edge. */
module DirectEdge {
  import opened RoadNetwork
  import opened Frontier
  import opened SearchTree

  /** Some direct edge is a fastest route. */
  ghost predicate DirectIsFastest(q: Query, start: int, goal: int) {
    exists e :: q.Arc(start, goal, e) && q.NoneFaster(start, goal, q.hours(e))
  }

  /** The goal hangs under the root, with a score that no route beats. */
  ghost predicate Held(t: Task, s: Side, goal: int) {
    && goal in s.g && goal in s.link && s.link[goal] == t.root
    && t.q.NoneFaster(t.root, goal, s.g[goal])
  }

  /** A score changes only to a smaller one, and only then does its link change. */
  ghost predicate OnlyLowers(s: Side, r: Side, v: int) {
    v in s.g && v in s.link ==>
      && v in r.g && v in r.link && r.g[v] <= s.g[v]
      && (r.g[v] == s.g[v] ==> r.link[v] == s.link[v])
  }

  lemma {:induction false} ExpandLowers(s: Side, hours: Edge -> real, h: int -> real, cur: int, hops: seq<Hop>, v: int)
    requires cur in s.g && cur in s.d
    ensures OnlyLowers(s, Expand(s, hours, h, cur, hops), v)
  {
    if hops != [] {
      ExpandLowers(s, hours, h, cur, hops[..|hops| - 1], v);
    }
  }

  /** Expanding the only scored node scores exactly the far ends of its hops. */
  lemma {:induction false} FirstScores(s: Side, hours: Edge -> real, h: int -> real, cur: int, hops: seq<Hop>, v: int)
    requires cur in s.g && cur in s.d && cur in s.closed && v !in s.g && v !in s.closed
    ensures var r := Expand(s, hours, h, cur, hops);
            && (v in r.g ==> v in r.link && r.link[v] == cur)
            && r.g[cur] == s.g[cur]
            && forall i :: 0 <= i < |hops| && hops[i].node == v ==> v in r.g && r.g[v] <= s.g[cur] + hours(hops[i].edge)
  {
    if hops != [] {
      var n, r := |hops| - 1, Expand(s, hours, h, cur, hops);
      FirstScores(s, hours, h, cur, hops[..n], v);
      forall i | 0 <= i < |hops| && hops[i].node == v
        ensures v in r.g && r.g[v] <= s.g[cur] + hours(hops[i].edge)
      {
        assert i < n ==> hops[..n][i] == hops[i];
      }
    }
  }

  /** The first expansion takes hold of the goal. */
  lemma FirstHeld(t: Task, s: Side, rev: map<int, seq<int>>, goal: int)
    requires t.dir.Forward? && t.Ready() && goal != t.root && DirectIsFastest(t.q, t.root, goal)
    requires s == Settle(StartSide(t.root, t.h(t.root)), 0)
    ensures Held(t, Expand(s, t.q.hours, t.h, t.root, Hops(t, rev, t.root)), goal)
  {
    var hops := Hops(t, rev, t.root);
    var e :| t.q.Arc(t.root, goal, e) && t.q.NoneFaster(t.root, goal, t.q.hours(e));
    FirstScores(s, t.q.hours, t.h, t.root, hops, goal);
    ForwardHopsCover(t.q, t.root, t.q.net.Out(t.root));
    var i :| 0 <= i < |hops| && hops[i] == Hop(goal, e);
    assert hops[i].node == goal && hops[i].edge == e;
  }

  /** And nothing can loosen it. */
  lemma HeldAfter(t: Task, s: Side, r: Side, goal: int)
    requires t.dir.Forward? && t.Ready() && Tree(t, r) && Held(t, s, goal) && OnlyLowers(s, r, goal)
    ensures Held(t, r, goal) && r.g[goal] == s.g[goal]
  {
    ForwardTreeWalk(t, r, goal);
    assert Meets(Best, s.g[goal], r.g[goal]);
  }

  lemma HeldChain(t: Task, s: Side, goal: int)
    requires Tree(t, s) && Held(t, s, goal)
    ensures Chain(t, s, goal) == [goal, t.root] && Reversed(Chain(t, s, goal)) == [t.root, goal]
  {
    ChainUnfolds(t, s, goal);
    assert Chain(t, s, t.root) == [t.root];
  }

  /** What every state of a search toward the goal keeps. */
  ghost predicate OnCourse(t: Task, s: Side, goal: int) {
    DirectIsFastest(t.q, t.root, goal) ==> s == StartSide(t.root, t.h(t.root)) || Held(t, s, goal)
  }

  lemma CourseExpand(t: Task, s: Side, i: nat, rev: map<int, seq<int>>, goal: int)
    requires t.dir.Forward? && t.Ready() && goal != t.root && OnCourse(t, s, goal)
    requires i < |s.queue| && s.queue[i].node in s.g && s.queue[i].node in s.d
    requires Tree(t, Expand(Settle(s, i), t.q.hours, t.h, s.queue[i].node, Hops(t, rev, s.queue[i].node)))
    ensures OnCourse(t, Expand(Settle(s, i), t.q.hours, t.h, s.queue[i].node, Hops(t, rev, s.queue[i].node)), goal)
  {
    var cur := s.queue[i].node;
    if DirectIsFastest(t.q, t.root, goal) {
      if s == StartSide(t.root, t.h(t.root)) {
        FirstHeld(t, Settle(s, i), rev, goal);
      } else {
        ExpandLowers(Settle(s, i), t.q.hours, t.h, cur, Hops(t, rev, cur), goal);
        HeldAfter(t, s, Expand(Settle(s, i), t.q.hours, t.h, cur, Hops(t, rev, cur)), goal);
      }
    }
  }

  /** A state that is not the first one stays on course when a stale entry goes. */
  lemma CourseDiscard(t: Task, s: Side, i: nat, goal: int)
    requires OnCourse(t, s, goal) && i < |s.queue| && Stale(s, s.queue[i])
    ensures OnCourse(t, Discard(s, i), goal)
  {
  }

  /** So the goal, when it is popped, is linked straight to the start. */
  lemma CourseEnds(t: Task, s: Side, i: nat, goal: int)
    requires Tree(t, s) && goal != t.root && OnCourse(t, s, goal)
    requires i < |s.queue| && s.queue[i].node == goal && DirectIsFastest(t.q, t.root, goal)
    ensures goal in s.g && Reversed(Chain(t, s, goal)) == [t.root, goal]
  {
    HeldChain(t, s, goal);
  }
}
