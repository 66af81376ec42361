/** The graph and its redundant indexes as values: what adding nodes and edges does to
    the adjacency lists, the reverse lists, the flag unions and the snapping grid. */
module GraphIndex {
  import opened Wrappers
  import opened RoadNetwork

  datatype Cell = Cell(lat: int, lng: int)

  /** A node as the grid sees it: its id and the coordinates it was added with. */
  datatype Spot = Spot(id: int, place: Place)

  datatype GraphState = GraphState(places: map<int, Place>, flags: map<int, bv8>, edges: map<int, seq<Edge>>,
                                   rev: map<int, seq<int>>, grid: map<Cell, seq<Spot>>) {
    function Out(u: int): seq<Edge> {
      if u in edges then edges[u] else []
    }

    function InCell(c: Cell): seq<Spot> {
      if c in grid then grid[c] else []
    }

    function Snapshot(): Network {
      Network(places.Keys, edges, Some(rev))
    }
  }

  const GRID_CELL_SIZE_DEG := 0.02

  function CellFor(p: Place): Cell {
    Cell((p.lat / GRID_CELL_SIZE_DEG).Floor, (p.lng / GRID_CELL_SIZE_DEG).Floor)
  }

  const EmptyGraph := GraphState(map[], map[], map[], map[], map[])

  datatype Op = AddNode(id: int, place: Place, flags: bv8) | AddEdge(from: int, edge: Edge)

  function MergeFlags(flags: map<int, bv8>, n: int, more: bv8): map<int, bv8> {
    if n in flags then flags[n := flags[n] | more] else flags
  }

  function Apply(s: GraphState, op: Op): GraphState {
    match op
    case AddNode(id, place, flags) =>
      s.(places := s.places[id := place], flags := s.flags[id := flags],
         grid := s.grid[CellFor(place) := s.InCell(CellFor(place)) + [Spot(id, place)]])
    case AddEdge(from, e) =>
      s.(edges := s.edges[from := s.Out(from) + [e]],
         flags := MergeFlags(MergeFlags(s.flags, from, e.flags), e.to, e.flags),
         rev := s.rev[e.to := In(s.rev, e.to) + [from]])
  }

  function Build(ops: seq<Op>): GraphState {
    if ops == [] then EmptyGraph else Apply(Build(ops[..|ops| - 1]), ops[|ops| - 1])
  }

  /** How the loaders build a graph: each node once and without flags, and edges only
      between nodes already there. */
  predicate Legal(s: GraphState, op: Op) {
    match op
    case AddNode(id, _, flags) => id !in s.places && flags == 0
    case AddEdge(from, e) => from in s.places && e.to in s.places
  }

  predicate LegalBuild(ops: seq<Op>) {
    ops == [] || (LegalBuild(ops[..|ops| - 1]) && Legal(Build(ops[..|ops| - 1]), ops[|ops| - 1]))
  }

  // ----- reverse adjacency -----

  function CountTo(es: seq<Edge>, v: int): nat {
    if es == [] then 0 else CountTo(es[..|es| - 1], v) + if es[|es| - 1].to == v then 1 else 0
  }

  /** The reverse list of v holds u exactly as often as u has edges to v. */
  ghost predicate ExactTranspose(s: GraphState) {
    forall u, v :: multiset(In(s.rev, v))[u] == CountTo(s.Out(u), v)
  }

  lemma AddEdgeTranspose(s: GraphState, from: int, e: Edge, u: int, v: int)
    requires multiset(In(s.rev, v))[u] == CountTo(s.Out(u), v)
    ensures var r := Apply(s, AddEdge(from, e)); multiset(In(r.rev, v))[u] == CountTo(r.Out(u), v)
  {
    var r, es, tails := Apply(s, AddEdge(from, e)), s.Out(from), In(s.rev, v);
    assert (es + [e])[..|es|] == es;
    assert multiset(tails + [from]) == multiset(tails) + multiset{from};
    assert r.Out(u) == if u == from then es + [e] else s.Out(u);
    assert In(r.rev, v) == if v == e.to then tails + [from] else tails;
  }

  lemma ApplyTranspose(s: GraphState, op: Op)
    requires ExactTranspose(s)
    ensures ExactTranspose(Apply(s, op))
  {
    var r := Apply(s, op);
    forall u, v
      ensures multiset(In(r.rev, v))[u] == CountTo(r.Out(u), v)
    {
      assert multiset(In(s.rev, v))[u] == CountTo(s.Out(u), v);
      match op
      case AddNode(id, place, flags) =>
        assert r.Out(u) == s.Out(u) && r.rev == s.rev;
      case AddEdge(from, e) =>
        AddEdgeTranspose(s, from, e, u, v);
    }
  }

  /** Whatever is added in whatever order, the reverse lists stay the exact transpose. */
  lemma {:induction false} BuildTranspose(ops: seq<Op>)
    ensures ExactTranspose(Build(ops))
  {
    if ops == [] {
    } else {
      BuildTranspose(ops[..|ops| - 1]);
      ApplyTranspose(Build(ops[..|ops| - 1]), ops[|ops| - 1]);
    }
  }

  lemma {:induction false} CountPositive(es: seq<Edge>, v: int)
    ensures CountTo(es, v) > 0 <==> exists e :: e in es && e.to == v
  {
    if es != [] {
      CountPositive(es[..|es| - 1], v);
      var last := es[|es| - 1];
      assert es == es[..|es| - 1] + [last];
      if last.to == v {
        assert last in es;
      }
    }
  }

  /** So the searches may rely on the reverse lists of any graph built this way. */
  lemma BuildIsTransposed(ops: seq<Op>)
    ensures Transposed(Build(ops).Snapshot(), Build(ops).rev)
  {
    var s := Build(ops);
    BuildTranspose(ops);
    forall u, v
      ensures u in In(s.rev, v) <==> exists e :: e in s.Snapshot().Out(u) && e.to == v
    {
      CountPositive(s.Out(u), v);
      assert multiset(In(s.rev, v))[u] == CountTo(s.Out(u), v);
      assert u in In(s.rev, v) <==> u in multiset(In(s.rev, v));
      assert s.Snapshot().Out(u) == s.Out(u);
    }
    assert Transposed(s.Snapshot(), s.rev);
  }

  // ----- flag unions -----

  ghost predicate Incident(s: GraphState, n: int, e: Edge) {
    e in s.Out(n) || (e.to == n && exists u :: e in s.Out(u))
  }

  /** AccessFlags.Has: some bit of the mask is set. */
  predicate Has(flags: bv8, mask: bv8) {
    flags & mask != 0
  }

  ghost predicate HasIncident(s: GraphState, n: int, mask: bv8) {
    exists e :: Incident(s, n, e) && Has(e.flags, mask)
  }

  /** A node has a flag exactly when one of its edges, in or out, has it. */
  ghost predicate FlagsAreUnion(s: GraphState) {
    && s.flags.Keys == s.places.Keys
    && (forall n, mask: bv8 :: n in s.flags ==> (Has(s.flags[n], mask) <==> HasIncident(s, n, mask)))
  }

  ghost predicate EndsPresent(s: GraphState) {
    forall u, e :: e in s.Out(u) ==> u in s.places && e.to in s.places
  }

  lemma HasOr(a: bv8, b: bv8, mask: bv8)
    ensures Has(a | b, mask) <==> Has(a, mask) || Has(b, mask)
  {
  }

  lemma HasNone(mask: bv8)
    ensures !Has(0, mask)
  {
  }

  lemma AddEdgeOut(s: GraphState, from: int, e: Edge, u: int, x: Edge)
    ensures x in Apply(s, AddEdge(from, e)).Out(u) <==> x in s.Out(u) || (u == from && x == e)
  {
  }

  lemma AddEdgeIncident(s: GraphState, from: int, e: Edge, n: int, mask: bv8)
    ensures HasIncident(Apply(s, AddEdge(from, e)), n, mask)
            <==> HasIncident(s, n, mask) || ((n == from || n == e.to) && Has(e.flags, mask))
  {
    var r := Apply(s, AddEdge(from, e));
    forall u, x
      ensures x in r.Out(u) <==> x in s.Out(u) || (u == from && x == e)
    {
      AddEdgeOut(s, from, e, u, x);
    }
    if x :| Incident(s, n, x) && Has(x.flags, mask) {
      assert Incident(r, n, x);
    }
    if (n == from || n == e.to) && Has(e.flags, mask) {
      assert e in r.Out(from);
      assert Incident(r, n, e);
    }
    if x :| Incident(r, n, x) && Has(x.flags, mask) {
      assert Incident(s, n, x) || x == e;
    }
  }

  lemma MergedFlag(flags: map<int, bv8>, n: int, more: bv8, x: int, mask: bv8)
    requires x in flags
    ensures x in MergeFlags(flags, n, more)
    ensures Has(MergeFlags(flags, n, more)[x], mask) <==> Has(flags[x], mask) || (x == n && Has(more, mask))
  {
    if x == n {
      var f := flags[x];
      HasOr(f, more, mask);
      assert MergeFlags(flags, n, more)[x] == f | more;
    }
  }

  lemma AddEdgeFlag(flags: map<int, bv8>, from: int, to: int, more: bv8, n: int, mask: bv8)
    requires n in flags
    ensures var r := MergeFlags(MergeFlags(flags, from, more), to, more);
            n in r && (Has(r[n], mask) <==> Has(flags[n], mask) || ((n == from || n == to) && Has(more, mask)))
  {
    MergedFlag(flags, from, more, n, mask);
    MergedFlag(MergeFlags(flags, from, more), to, more, n, mask);
  }

  lemma AddEdgeFlags(s: GraphState, from: int, e: Edge)
    requires FlagsAreUnion(s) && from in s.places && e.to in s.places
    ensures FlagsAreUnion(Apply(s, AddEdge(from, e)))
  {
    var r := Apply(s, AddEdge(from, e));
    assert r.flags.Keys == s.flags.Keys;
    forall n, mask: bv8 | n in r.flags
      ensures Has(r.flags[n], mask) <==> HasIncident(r, n, mask)
    {
      AddEdgeIncident(s, from, e, n, mask);
      AddEdgeFlag(s.flags, from, e.to, e.flags, n, mask);
    }
  }

  lemma AddEdgeEnds(s: GraphState, from: int, e: Edge)
    requires EndsPresent(s) && from in s.places && e.to in s.places
    ensures EndsPresent(Apply(s, AddEdge(from, e)))
  {
    forall u, x | x in Apply(s, AddEdge(from, e)).Out(u)
      ensures u in s.places && x.to in s.places
    {
      AddEdgeOut(s, from, e, u, x);
    }
  }

  lemma AddNodeOut(s: GraphState, id: int, place: Place, flags: bv8, u: int)
    ensures Apply(s, AddNode(id, place, flags)).Out(u) == s.Out(u)
  {
  }

  lemma AddNodeIncident(s: GraphState, id: int, place: Place, flags: bv8, n: int, mask: bv8)
    ensures HasIncident(Apply(s, AddNode(id, place, flags)), n, mask) <==> HasIncident(s, n, mask)
  {
    var r := Apply(s, AddNode(id, place, flags));
    forall u
      ensures r.Out(u) == s.Out(u)
    {
      AddNodeOut(s, id, place, flags, u);
    }
    if x :| Incident(s, n, x) && Has(x.flags, mask) {
      assert Incident(r, n, x);
    }
    if x :| Incident(r, n, x) && Has(x.flags, mask) {
      assert Incident(s, n, x);
    }
  }

  lemma NewNodeBare(s: GraphState, id: int, mask: bv8)
    requires EndsPresent(s) && id !in s.places
    ensures !HasIncident(s, id, mask)
  {
  }

  lemma AddNodeKeeps(s: GraphState, id: int, place: Place)
    requires FlagsAreUnion(s) && EndsPresent(s) && id !in s.places
    ensures FlagsAreUnion(Apply(s, AddNode(id, place, 0))) && EndsPresent(Apply(s, AddNode(id, place, 0)))
  {
    var r := Apply(s, AddNode(id, place, 0));
    forall u
      ensures r.Out(u) == s.Out(u)
    {
      AddNodeOut(s, id, place, 0, u);
    }
    forall n, mask: bv8 | n in r.flags
      ensures Has(r.flags[n], mask) <==> HasIncident(r, n, mask)
    {
      AddNodeIncident(s, id, place, 0, n, mask);
      if n == id {
        NewNodeBare(s, id, mask);
        HasNone(mask);
      }
    }
  }

  /** After any legal build the flags are the exact unions. */
  lemma {:induction false} BuildFlags(ops: seq<Op>)
    requires LegalBuild(ops)
    ensures FlagsAreUnion(Build(ops)) && EndsPresent(Build(ops))
  {
    if ops == [] {
    } else {
      var s, op := Build(ops[..|ops| - 1]), ops[|ops| - 1];
      BuildFlags(ops[..|ops| - 1]);
      match op
      case AddNode(id, place, _) =>
        AddNodeKeeps(s, id, place);
      case AddEdge(from, e) =>
        AddEdgeFlags(s, from, e);
        AddEdgeEnds(s, from, e);
    }
  }

  // ----- routable nodes -----

  predicate SomePermitted(es: seq<Edge>, edgeOK: Edge -> bool) {
    exists i :: 0 <= i < |es| && edgeOK(es[i])
  }

  /** A stand-in edge carrying only a node's combined flags. */
  function Synthetic(flags: bv8): Edge {
    Edge(0, 0.0, 0.0, 0.0, Unknown, flags, 0)
  }

  predicate NodeRoutable(s: GraphState, id: int, edgeOK: Option<Edge -> bool>) {
    match edgeOK
    case None => true
    case Some(ok) =>
      if id !in s.flags || s.flags[id] == 0 then false
      else if !ok(Synthetic(s.flags[id])) && s.Out(id) == [] then false
      else SomePermitted(s.Out(id), ok) || s.Out(id) == []
  }

  /** The access rules of all profiles: some flag of the mask, and no barred road kind.
      Only walking bars any. */
  function AccessProfile(mask: bv8, barred: set<HighwayKind>): Edge -> bool {
    (e: Edge) => Has(e.flags, mask) && e.kind !in barred
  }

  const NO_WALKING: set<HighwayKind> := {Motorway, MotorwayLink, Trunk, TrunkLink}

  ghost predicate SomeLeaves(s: GraphState, id: int, ok: Edge -> bool) {
    exists e :: e in s.Out(id) && ok(e)
  }

  lemma SomePermittedLeaves(s: GraphState, id: int, ok: Edge -> bool)
    ensures SomePermitted(s.Out(id), ok) <==> SomeLeaves(s, id, ok)
  {
    if e :| e in s.Out(id) && ok(e) {
      var i :| 0 <= i < |s.Out(id)| && s.Out(id)[i] == e;
    }
  }

  ghost predicate Enters(s: GraphState, id: int, mask: bv8) {
    exists u, e :: e in s.Out(u) && e.to == id && Has(e.flags, mask)
  }

  lemma SinkIncident(s: GraphState, id: int, mask: bv8)
    requires s.Out(id) == []
    ensures HasIncident(s, id, mask) <==> Enters(s, id, mask)
  {
    if u, e :| e in s.Out(u) && e.to == id && Has(e.flags, mask) {
      assert Incident(s, id, e);
    }
  }

  lemma LeavingIncident(s: GraphState, id: int, mask: bv8, barred: set<HighwayKind>)
    requires SomeLeaves(s, id, AccessProfile(mask, barred))
    ensures HasIncident(s, id, mask)
  {
    var e :| e in s.Out(id) && AccessProfile(mask, barred)(e);
    assert Incident(s, id, e);
  }

  /** For every access profile a node is routable exactly when a permitted edge leaves it
      or, if no edge leaves it at all, when an edge with one of the mask's flags enters it,
      whatever its road kind. */
  lemma RoutableExactly(ops: seq<Op>, id: int, mask: bv8, barred: set<HighwayKind>)
    requires LegalBuild(ops) && id in Build(ops).places && Unknown !in barred
    ensures var s := Build(ops);
            NodeRoutable(s, id, Some(AccessProfile(mask, barred))) <==>
              SomeLeaves(s, id, AccessProfile(mask, barred)) || (s.Out(id) == [] && Enters(s, id, mask))
  {
    var s := Build(ops);
    BuildFlags(ops);
    assert Has(s.flags[id], mask) <==> HasIncident(s, id, mask);
    HasNone(mask);
    SomePermittedLeaves(s, id, AccessProfile(mask, barred));
    assert AccessProfile(mask, barred)(Synthetic(s.flags[id])) <==> Has(s.flags[id], mask);
    if s.Out(id) == [] {
      SinkIncident(s, id, mask);
    } else if SomeLeaves(s, id, AccessProfile(mask, barred)) {
      LeavingIncident(s, id, mask, barred);
    }
  }

  /** Some permitted edge touches the node: leaves it or, at a sink, enters it. */
  ghost predicate Touched(s: GraphState, id: int, ok: Edge -> bool) {
    SomeLeaves(s, id, ok) || (s.Out(id) == [] && exists u, e :: e in s.Out(u) && e.to == id && ok(e))
  }

  /** So the answer is about permitted edges exactly when the node is no sink that only
      edges of barred kinds give the profile's flags. Without barred kinds it always is. */
  lemma RoutableMeansTouched(ops: seq<Op>, id: int, mask: bv8, barred: set<HighwayKind>)
    requires LegalBuild(ops) && id in Build(ops).places && Unknown !in barred
    ensures var s, ok := Build(ops), AccessProfile(mask, barred);
            (NodeRoutable(s, id, Some(ok)) <==> Touched(s, id, ok)) <==>
            (s.Out(id) == [] && Enters(s, id, mask) ==>
               exists u, e :: e in s.Out(u) && e.to == id && Has(e.flags, mask) && e.kind !in barred)
  {
    var s, ok := Build(ops), AccessProfile(mask, barred);
    RoutableExactly(ops, id, mask, barred);
    assert forall e :: ok(e) <==> Has(e.flags, mask) && e.kind !in barred;
    if u, e :| e in s.Out(u) && e.to == id && ok(e) {
      assert Has(e.flags, mask);
    }
  }

  const FOOT: bv8 := 0x08

  /** A one-way motorway whose edge allows walking. */
  const WalkedMotorway: seq<Op> := [
    AddNode(0, Place(0.0, 0.0), 0),
    AddNode(1, Place(0.0, 1.0), 0),
    AddEdge(0, Edge(1, 100.0, 100.0, 1.0, Motorway, FOOT, 0))
  ]

  lemma LegalSnoc(ops: seq<Op>, op: Op)
    requires LegalBuild(ops) && Legal(Build(ops), op)
    ensures LegalBuild(ops + [op]) && Build(ops + [op]) == Apply(Build(ops), op)
  {
    assert (ops + [op])[..|ops|] == ops;
  }

  lemma WalkedMotorwayBuild()
    ensures LegalBuild(WalkedMotorway)
    ensures var s := Build(WalkedMotorway);
            && s.places.Keys == {0, 1} && s.edges == map[0 := [Edge(1, 100.0, 100.0, 1.0, Motorway, FOOT, 0)]]
  {
    var a, b, c := WalkedMotorway[0], WalkedMotorway[1], WalkedMotorway[2];
    assert [] + [a] == [a] && [a] + [b] == [a, b] && [a, b] + [c] == WalkedMotorway;
    LegalSnoc([], a);
    assert Build([a]).places.Keys == {0} && Build([a]).edges == map[];
    LegalSnoc([a], b);
    assert Build([a, b]).places.Keys == {0, 1} && Build([a, b]).edges == map[];
    LegalSnoc([a, b], c);
    assert Build([a, b]).Out(0) + [c.edge] == [c.edge];
  }

  /** Walking may not use the motorway, yet its end counts as routable on foot. */
  lemma RoutableUntouched()
    ensures LegalBuild(WalkedMotorway)
    ensures var s, walking := Build(WalkedMotorway), AccessProfile(FOOT, NO_WALKING);
            NodeRoutable(s, 1, Some(walking)) && !Touched(s, 1, walking)
  {
    WalkedMotorwayBuild();
    var s, e := Build(WalkedMotorway), Edge(1, 100.0, 100.0, 1.0, Motorway, FOOT, 0);
    RoutableExactly(WalkedMotorway, 1, FOOT, NO_WALKING);
    assert e in s.Out(0) && Has(e.flags, FOOT);
    assert forall u, x :: x in s.Out(u) ==> u == 0 && x == e;
  }
}
