/** The mutable graph: node objects shared by the node table and the grid, adjacency
    lists and the indexes that AddNode and AddEdge keep beside them. */
module RoadGraph {
  import opened Wrappers
  import opened RoadNetwork
  import opened GraphIndex
  import opened Snapping

  class Node {
    const id: int
    const place: Place
    var flags: bv8

    constructor (id: int, place: Place)
      ensures this.id == id && this.place == place && flags == 0
    {
      this.id := id;
      this.place := place;
      flags := 0;
    }
  }

  function SpotOf(n: Node): Spot {
    Spot(n.id, n.place)
  }

  function Spots(ns: seq<Node>): (r: seq<Spot>)
    ensures |r| == |ns| && forall i :: 0 <= i < |ns| ==> r[i] == SpotOf(ns[i])
  {
    seq(|ns|, i requires 0 <= i < |ns| => SpotOf(ns[i]))
  }

  function SpotOrNone(n: Node?): Option<Spot> {
    if n == null then None else Some(SpotOf(n))
  }

  ghost predicate InOwnCells(s: GraphState) {
    forall c, x :: x in s.InCell(c) ==> CellFor(x.place) == c
  }

  ghost predicate NoFarther(dist: (Place, Place) -> real, at: Place, nearest: Option<Spot>, x: Spot) {
    nearest.Some? && dist(at, nearest.value.place) <= dist(at, x.place)
  }

  /** What scanning a list of spots after `best` gives. */
  ghost predicate Scanned(s: GraphState, dist: (Place, Place) -> real, at: Place, ok: Option<Edge -> bool>,
                          spots: seq<Spot>,
                          best: Option<Spot>, nearest: Option<Spot>) {
    && (nearest == best || (nearest.Some? && nearest.value in spots && NodeRoutable(s, nearest.value.id, ok)))
    && (best.Some? ==> NoFarther(dist, at, nearest, best.value))
    && (forall x :: x in spots && NodeRoutable(s, x.id, ok) ==> NoFarther(dist, at, nearest, x))
  }

  /** The choice made for one more spot. */
  function Closer(s: GraphState, dist: (Place, Place) -> real, at: Place, ok: Option<Edge -> bool>, x: Spot,
                  best: Option<Spot>): Option<Spot> {
    if NodeRoutable(s, x.id, ok) && (best.None? || dist(at, x.place) < dist(at, best.value.place)) then Some(x)
    else best
  }

  lemma ScannedSnoc(s: GraphState, dist: (Place, Place) -> real, at: Place, ok: Option<Edge -> bool>,
                    spots: seq<Spot>, x: Spot,
                    best: Option<Spot>, nearest: Option<Spot>)
    requires Scanned(s, dist, at, ok, spots, best, nearest)
    ensures Scanned(s, dist, at, ok, spots + [x], best, Closer(s, dist, at, ok, x, nearest))
  {
  }

  /** Cells before offset (a, b) in the scan order of the window. */
  predicate Before(center: Cell, radius: int, a: int, b: int, c: Cell) {
    && InWindow(center, c, radius)
    && (c.lat < center.lat + a || (c.lat == center.lat + a && c.lng < center.lng + b))
  }

  ghost predicate NearestBefore(s: GraphState, dist: (Place, Place) -> real, at: Place, ok: Option<Edge -> bool>,
                                radius: int, a: int, b: int, nearest: Option<Spot>) {
    && (nearest.Some? ==> nearest.value in s.InCell(CellFor(nearest.value.place))
                          && NodeRoutable(s, nearest.value.id, ok)
                          && InWindow(CellFor(at), CellFor(nearest.value.place), radius))
    && forall c, x :: Before(CellFor(at), radius, a, b, c) && x in s.InCell(c) && NodeRoutable(s, x.id, ok) ==>
         NoFarther(dist, at, nearest, x)
  }

  lemma ScanStep(s: GraphState, dist: (Place, Place) -> real, at: Place, ok: Option<Edge -> bool>, radius: int,
                 a: int, b: int,
                 best: Option<Spot>, nearest: Option<Spot>)
    requires InOwnCells(s) && -radius <= a <= radius && -radius <= b <= radius
    requires NearestBefore(s, dist, at, ok, radius, a, b, best)
    requires Scanned(s, dist, at, ok, s.InCell(Cell(CellFor(at).lat + a, CellFor(at).lng + b)), best, nearest)
    ensures NearestBefore(s, dist, at, ok, radius, a, b + 1, nearest)
  {
    var center := CellFor(at);
    var here := Cell(center.lat + a, center.lng + b);
    forall c, x | Before(center, radius, a, b + 1, c) && x in s.InCell(c) && NodeRoutable(s, x.id, ok)
      ensures NoFarther(dist, at, nearest, x)
    {
      if c != here {
        assert Before(center, radius, a, b, c);
        assert NoFarther(dist, at, best, x);
      }
    }
  }

  lemma NextRow(s: GraphState, dist: (Place, Place) -> real, at: Place, ok: Option<Edge -> bool>, radius: int, a: int,
                nearest: Option<Spot>)
    requires NearestBefore(s, dist, at, ok, radius, a, radius + 1, nearest)
    ensures NearestBefore(s, dist, at, ok, radius, a + 1, -radius, nearest)
  {
    forall c, x | Before(CellFor(at), radius, a + 1, -radius, c) && x in s.InCell(c) && NodeRoutable(s, x.id, ok)
      ensures NoFarther(dist, at, nearest, x)
    {
      assert Before(CellFor(at), radius, a, radius + 1, c);
    }
  }

  /** After the whole window: the nearest eligible spot, kept only within reach. */
  lemma WindowResult(s: GraphState, dist: (Place, Place) -> real, at: Place, maxKm: real, ok: Option<Edge -> bool>,
                     nearest: Option<Spot>)
    requires maxKm > 0.0 && InOwnCells(s)
    requires NearestBefore(s, dist, at, ok, Radius(maxKm), Radius(maxKm) + 1, -Radius(maxKm), nearest)
    ensures SnapResult(s, dist, at, maxKm, ok,
                       if nearest.Some? && dist(at, nearest.value.place) <= maxKm then nearest else None)
  {
    var radius := Radius(maxKm);
    forall x | Eligible(s, at, maxKm, ok, x)
      ensures NoFarther(dist, at, nearest, x)
    {
      assert Before(CellFor(at), radius, radius + 1, -radius, CellFor(x.place));
    }
  }

  ghost function GridSpots(grid: map<Cell, seq<Node>>): map<Cell, seq<Spot>> {
    map c | c in grid :: Spots(grid[c])
  }

  ghost predicate InTheirCells(grid: map<Cell, seq<Node>>) {
    forall c, n :: c in grid && n in grid[c] ==> CellFor(n.place) == c
  }

  lemma GridSpotsAdd(grid: map<Cell, seq<Node>>, k: Cell, cell: seq<Node>, n: Node)
    requires InTheirCells(grid) && k == CellFor(n.place) && cell == if k in grid then grid[k] else []
    ensures InTheirCells(grid[k := cell + [n]])
    ensures GridSpots(grid[k := cell + [n]]) == GridSpots(grid)[k := Spots(cell) + [SpotOf(n)]]
  {
    assert Spots(cell + [n]) == Spots(cell) + [SpotOf(n)];
  }

  /** Adding an edge, step by step. */
  lemma AddEdgeSteps(s: GraphState, linked: GraphState, half: GraphState, marked: GraphState, r: GraphState,
                     from: int, e: Edge)
    requires linked == s.(edges := s.edges[from := s.Out(from) + [e]])
    requires half == linked.(flags := MergeFlags(linked.flags, from, e.flags))
    requires marked == half.(flags := MergeFlags(half.flags, e.to, e.flags))
    requires r == marked.(rev := marked.rev[e.to := In(marked.rev, e.to) + [from]])
    ensures r == Apply(s, GraphIndex.AddEdge(from, e))
  {
  }

  class Graph {
    var nodes: map<int, Node>
    var edges: map<int, seq<Edge>>
    var revAdj: map<int, seq<int>>
    var grid: map<Cell, seq<Node>>

    ghost predicate Valid()
      reads this
    {
      && (forall id :: id in nodes ==> nodes[id].id == id)
      && InTheirCells(grid)
    }

    ghost function Objects(): set<Node>
      reads this
    {
      set id | id in nodes :: nodes[id]
    }

    /** The graph as a value. */
    ghost function State(): GraphState
      reads this, Objects()
    {
      GraphState(map id | id in nodes :: nodes[id].place, map id | id in nodes :: nodes[id].flags,
                 edges, revAdj, GridSpots(grid))
    }

    constructor ()
      ensures Valid() && State() == EmptyGraph
    {
      nodes, edges, revAdj, grid := map[], map[], map[], map[];
    }

    method Register(n: Node)
      requires Valid()
      modifies this
      ensures Valid()
      ensures State() == old(State()).(places := old(State()).places[n.id := n.place],
                                       flags := old(State()).flags[n.id := n.flags])
    {
      ghost var s := State();
      nodes := nodes[n.id := n];
      assert State().places == s.places[n.id := n.place];
      assert State().flags == s.flags[n.id := n.flags];
    }

    method EnterCell(n: Node)
      requires Valid()
      modifies this
      ensures Valid()
      ensures State() == old(State()).(grid := old(State()).grid[CellFor(n.place) :=
                                         old(State()).InCell(CellFor(n.place)) + [SpotOf(n)]])
    {
      var k := CellFor(n.place);
      var cell := if k in grid then grid[k] else [];
      GridSpotsAdd(grid, k, cell, n);
      grid := grid[k := cell + [n]];
    }

    method AddNode(n: Node)
      requires Valid()
      modifies this
      ensures Valid() && State() == Apply(old(State()), GraphIndex.AddNode(n.id, n.place, n.flags))
    {
      Register(n);
      EnterCell(n);
    }

    method MarkFlags(id: int, more: bv8)
      requires Valid()
      modifies Objects()
      ensures Valid() && Objects() == old(Objects())
      ensures State() == old(State()).(flags := MergeFlags(old(State()).flags, id, more))
    {
      if id in nodes {
        var joined := nodes[id].flags | more;
        nodes[id].flags := joined;
        forall x | x in nodes
          ensures nodes[x].flags == if x == id then joined else old(nodes[x].flags)
        {
          assert nodes[x].id == x;
        }
        assert State().flags == old(State()).flags[id := joined];
      }
      assert State().places == old(State()).places && State().grid == old(State()).grid;
    }

    method Link(from: int, e: Edge)
      requires Valid()
      modifies this
      ensures Valid() && Objects() == old(Objects())
      ensures State() == old(State()).(edges := old(State()).edges[from := old(State()).Out(from) + [e]])
    {
      edges := edges[from := (if from in edges then edges[from] else []) + [e]];
    }

    method LinkBack(from: int, to: int)
      requires Valid()
      modifies this
      ensures Valid() && Objects() == old(Objects())
      ensures State() == old(State()).(rev := old(State()).rev[to := In(old(State()).rev, to) + [from]])
    {
      revAdj := revAdj[to := In(revAdj, to) + [from]];
    }

    method AddEdge(from: int, e: Edge)
      requires Valid()
      modifies this, Objects()
      ensures Valid() && State() == Apply(old(State()), GraphIndex.AddEdge(from, e))
    {
      ghost var s := State();
      Link(from, e);
      ghost var linked := State();
      MarkFlags(from, e.flags);
      ghost var half := State();
      MarkFlags(e.to, e.flags);
      ghost var marked := State();
      LinkBack(from, e.to);
      AddEdgeSteps(s, linked, half, marked, State(), from, e);
    }

    method IsRoutable(id: int, edgeOK: Option<Edge -> bool>) returns (b: bool)
      requires Valid()
      ensures b == NodeRoutable(State(), id, edgeOK)
    {
      if edgeOK.None? {
        return true;
      }
      if id !in nodes || nodes[id].flags == 0 {
        return false;
      }
      var outgoing := if id in edges then edges[id] else [];
      assert outgoing == State().Out(id) && State().flags[id] == nodes[id].flags;
      if !edgeOK.value(Synthetic(nodes[id].flags)) && outgoing == [] {
        return false;
      }
      for i := 0 to |outgoing|
        invariant forall j :: 0 <= j < i ==> !edgeOK.value(outgoing[j])
      {
        if edgeOK.value(outgoing[i]) {
          return true;
        }
      }
      b := outgoing == [];
    }

    ghost predicate IsNearest(dist: (Place, Place) -> real, at: Place, n: Node)
      reads this
    {
      && n.id in nodes && nodes[n.id] == n
      && forall id :: id in nodes ==> dist(at, n.place) <= dist(at, nodes[id].place)
    }

    static method PickAny<T>(xs: set<T>) returns (x: T)
      requires xs != {}
      ensures x in xs
    {
      x :| x in xs;
    }

    /** The node closest to a place, by a scan of the node table in any order. */
    method NearestNode(dist: (Place, Place) -> real, at: Place) returns (nearest: Node?)
      requires Valid()
      ensures nearest == null <==> nodes == map[]
      ensures nearest != null ==> IsNearest(dist, at, nearest)
    {
      nearest := null;
      var rest := nodes.Keys;
      while rest != {}
        invariant rest <= nodes.Keys
        invariant nearest == null <==> rest == nodes.Keys
        invariant nearest != null ==> nearest.id in nodes && nodes[nearest.id] == nearest
        invariant nearest != null ==>
                    forall id :: id in nodes.Keys - rest ==> dist(at, nearest.place) <= dist(at, nodes[id].place)
      {
        var id := PickAny(rest);
        var n := nodes[id];
        if nearest == null || dist(at, n.place) < dist(at, nearest.place) {
          nearest := n;
        }
        rest := rest - {id};
      }
    }

    method Consider(dist: (Place, Place) -> real, at: Place, ok: Option<Edge -> bool>, n: Node, best: Node?,
                    ghost s: GraphState)
      returns (nearest: Node?)
      requires Valid() && s == State()
      ensures SpotOrNone(nearest) == Closer(s, dist, at, ok, SpotOf(n), SpotOrNone(best))
    {
      nearest := best;
      var routable := IsRoutable(n.id, ok);
      if !routable {
        return;
      }
      if nearest == null || dist(at, n.place) < dist(at, nearest.place) {
        nearest := n;
      }
    }

    /** The nearest node so far, after the routable nodes of one more cell. */
    method ScanCell(dist: (Place, Place) -> real, at: Place, ok: Option<Edge -> bool>, c: Cell, best: Node?,
                    ghost s: GraphState)
      returns (nearest: Node?)
      requires Valid() && s == State()
      ensures Scanned(s, dist, at, ok, s.InCell(c), SpotOrNone(best), SpotOrNone(nearest))
    {
      nearest := best;
      var cell := if c in grid then grid[c] else [];
      ghost var spots := Spots(cell);
      assert s.InCell(c) == spots;
      for i := 0 to |cell|
        invariant Scanned(s, dist, at, ok, spots[..i], SpotOrNone(best), SpotOrNone(nearest))
      {
        ScannedSnoc(s, dist, at, ok, spots[..i], spots[i], SpotOrNone(best), SpotOrNone(nearest));
        nearest := Consider(dist, at, ok, cell[i], nearest, s);
        assert spots[..i + 1] == spots[..i] + [spots[i]];
      }
      assert spots[..|cell|] == spots;
    }

    lemma CellsHoldTheirSpots()
      requires Valid()
      ensures InOwnCells(State())
    {
      forall c, x | x in State().InCell(c)
        ensures CellFor(x.place) == c
      {
        var cell := if c in grid then grid[c] else [];
        assert State().InCell(c) == Spots(cell);
        var j :| 0 <= j < |cell| && Spots(cell)[j] == x;
        assert cell[j] in grid[c];
      }
    }

    /** Scans the cells of one row of the window. */
    method ScanRow(dist: (Place, Place) -> real, at: Place, ok: Option<Edge -> bool>, radius: int, dLat: int,
                   best: Node?,
                   ghost s: GraphState)
      returns (nearest: Node?)
      requires Valid() && -radius <= dLat <= radius && s == State() && InOwnCells(s)
      requires NearestBefore(s, dist, at, ok, radius, dLat, -radius, SpotOrNone(best))
      ensures NearestBefore(s, dist, at, ok, radius, dLat + 1, -radius, SpotOrNone(nearest))
    {
      nearest := best;
      var center := CellFor(at);
      var dLng := -radius;
      while dLng <= radius
        invariant -radius <= dLng <= radius + 1
        invariant NearestBefore(s, dist, at, ok, radius, dLat, dLng, SpotOrNone(nearest))
      {
        ghost var was := SpotOrNone(nearest);
        nearest := ScanCell(dist, at, ok, Cell(center.lat + dLat, center.lng + dLng), nearest, s);
        ScanStep(s, dist, at, ok, radius, dLat, dLng, was, SpotOrNone(nearest));
        dLng := dLng + 1;
      }
      NextRow(s, dist, at, ok, radius, dLat, SpotOrNone(nearest));
    }

    /** Scans the cells of the window row by row. */
    method ScanWindow(dist: (Place, Place) -> real, at: Place, ok: Option<Edge -> bool>, radius: int,
                      ghost s: GraphState)
      returns (nearest: Node?)
      requires Valid() && radius >= 1 && s == State() && InOwnCells(s)
      ensures NearestBefore(s, dist, at, ok, radius, radius + 1, -radius, SpotOrNone(nearest))
    {
      nearest := null;
      var dLat := -radius;
      while dLat <= radius
        invariant -radius <= dLat <= radius + 1
        invariant NearestBefore(s, dist, at, ok, radius, dLat, -radius, SpotOrNone(nearest))
      {
        nearest := ScanRow(dist, at, ok, radius, dLat, nearest, s);
        dLat := dLat + 1;
      }
    }

    /** A graph without a grid falls back to the nearest node of all, routable or nothing. */
    method NearestWithoutGrid(dist: (Place, Place) -> real, at: Place, maxKm: real, ok: Option<Edge -> bool>)
      returns (r: Node?)
      requires Valid()
      ensures r != null ==> IsNearest(dist, at, r) && NodeRoutable(State(), r.id, ok) && dist(at, r.place) <= maxKm
      ensures r == null ==>
                nodes == map[]
                || exists n :: n in Objects() && IsNearest(dist, at, n)
                               && !(NodeRoutable(State(), n.id, ok) && dist(at, n.place) <= maxKm)
    {
      r := NearestNode(dist, at);
      if r != null {
        var routable := IsRoutable(r.id, ok);
        assert r in Objects();
        if !routable || dist(at, r.place) > maxKm {
          r := null;
        }
      }
    }

    method NearestInGrid(dist: (Place, Place) -> real, at: Place, maxKm: real, ok: Option<Edge -> bool>,
                         ghost s: GraphState)
      returns (r: Node?)
      requires Valid() && maxKm > 0.0 && s == State()
      ensures SnapResult(s, dist, at, maxKm, ok, SpotOrNone(r))
    {
      CellsHoldTheirSpots();
      r := ScanWindow(dist, at, ok, Radius(maxKm), s);
      WindowResult(s, dist, at, maxKm, ok, SpotOrNone(r));
      if r == null || dist(at, r.place) > maxKm {
        r := null;
      }
    }

    /** Snaps to the nearest routable node through the grid. */
    method NearestNodeWithin(dist: (Place, Place) -> real, at: Place, maxKm: real, ok: Option<Edge -> bool>)
      returns (r: Node?)
      requires Valid()
      ensures grid != map[] ==> SnapResult(State(), dist, at, maxKm, ok, SpotOrNone(r))
      ensures grid == map[] && r != null ==>
                maxKm > 0.0 && IsNearest(dist, at, r) && NodeRoutable(State(), r.id, ok) && dist(at, r.place) <= maxKm
      ensures grid == map[] && r == null && maxKm > 0.0 ==>
                nodes == map[]
                || exists n :: n in Objects() && IsNearest(dist, at, n)
                               && !(NodeRoutable(State(), n.id, ok) && dist(at, n.place) <= maxKm)
    {
      if maxKm <= 0.0 {
        return null;
      }
      if grid == map[] {
        r := NearestWithoutGrid(dist, at, maxKm, ok);
        return;
      }
      r := NearestInGrid(dist, at, maxKm, ok, State());
    }
  }
}
