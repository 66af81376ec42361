/** Snapping a coordinate to the nearest routable node through the grid, compared with
    a scan of all nodes. The great-circle distance is abstract. */
module Snapping {
  import opened Wrappers
  import opened Reals
  import opened RoadNetwork
  import opened GraphIndex

  /** Every grid entry is a current node in its own cell, and every node is entered. */
  ghost predicate GridExact(s: GraphState) {
    && (forall c, x :: x in s.InCell(c) ==> x.id in s.places && s.places[x.id] == x.place && CellFor(x.place) == c)
    && (forall id :: id in s.places ==> Spot(id, s.places[id]) in s.InCell(CellFor(s.places[id])))
  }

  lemma AddNodeGrid(s: GraphState, id: int, place: Place, flags: bv8)
    requires GridExact(s) && id !in s.places
    ensures GridExact(Apply(s, AddNode(id, place, flags)))
  {
    var r := Apply(s, AddNode(id, place, flags));
    forall c, x | x in r.InCell(c)
      ensures x.id in r.places && r.places[x.id] == x.place && CellFor(x.place) == c
    {
      assert x in s.InCell(c) || (x == Spot(id, place) && c == CellFor(place));
    }
    forall n | n in r.places
      ensures Spot(n, r.places[n]) in r.InCell(CellFor(r.places[n]))
    {
      if n != id {
        assert Spot(n, s.places[n]) in s.InCell(CellFor(s.places[n]));
      }
    }
  }

  lemma AddEdgeGrid(s: GraphState, from: int, e: Edge)
    requires GridExact(s)
    ensures GridExact(Apply(s, AddEdge(from, e)))
  {
    var r := Apply(s, AddEdge(from, e));
    assert forall c :: r.InCell(c) == s.InCell(c);
  }

  lemma {:induction false} BuildGrid(ops: seq<Op>)
    requires LegalBuild(ops)
    ensures GridExact(Build(ops))
  {
    if ops == [] {
    } else {
      var s, op := Build(ops[..|ops| - 1]), ops[|ops| - 1];
      BuildGrid(ops[..|ops| - 1]);
      match op
      case AddNode(id, place, flags) =>
        AddNodeGrid(s, id, place, flags);
      case AddEdge(from, e) =>
        AddEdgeGrid(s, from, e);
    }
  }

  const KM_PER_CELL := 111.0 * GRID_CELL_SIZE_DEG

  function Ceil(x: real): int {
    -((-x).Floor)
  }

  function Radius(maxKm: real): int {
    var r := Ceil(maxKm / KM_PER_CELL) + 1;
    if r < 1 then 1 else r
  }

  /** The radius in cells of 2.22 km, rounded up, and one more. */
  lemma RadiusBounds(maxKm: real)
    requires maxKm > 0.0
    ensures (Radius(maxKm) - 2) as real * 2.22 < maxKm <= (Radius(maxKm) - 1) as real * 2.22
  {
    var cells := maxKm / KM_PER_CELL;
    assert cells * 2.22 == maxKm;
    assert (-cells).Floor as real <= -cells < (-cells).Floor as real + 1.0;
  }

  /** Cells are 0.02 degrees wide and high. */
  lemma CellBounds(p: Place)
    ensures CellFor(p).lat as real * 0.02 <= p.lat < (CellFor(p).lat + 1) as real * 0.02
    ensures CellFor(p).lng as real * 0.02 <= p.lng < (CellFor(p).lng + 1) as real * 0.02
  {
    var x, y := p.lat / GRID_CELL_SIZE_DEG, p.lng / GRID_CELL_SIZE_DEG;
    assert x * 0.02 == p.lat && y * 0.02 == p.lng;
  }

  predicate InWindow(center: Cell, c: Cell, radius: int) {
    && center.lat - radius <= c.lat <= center.lat + radius
    && center.lng - radius <= c.lng <= center.lng + radius
  }

  /** What the snap looks for: a routable node of the scanned cells. */
  ghost predicate Eligible(s: GraphState, at: Place, maxKm: real, ok: Option<Edge -> bool>, x: Spot) {
    && InWindow(CellFor(at), CellFor(x.place), Radius(maxKm))
    && x in s.InCell(CellFor(x.place))
    && NodeRoutable(s, x.id, ok)
  }

  /** The grid search's result: a nearest eligible node within reach, or none. */
  ghost predicate SnapResult(s: GraphState, dist: (Place, Place) -> real, at: Place, maxKm: real,
                             ok: Option<Edge -> bool>, r: Option<Spot>) {
    match r
    case Some(n) =>
      && maxKm > 0.0 && Eligible(s, at, maxKm, ok, n) && dist(at, n.place) <= maxKm
      && forall x :: Eligible(s, at, maxKm, ok, x) ==> dist(at, n.place) <= dist(at, x.place)
    case None =>
      maxKm <= 0.0 || forall x :: Eligible(s, at, maxKm, ok, x) ==> dist(at, x.place) > maxKm
  }

  /** The scan of all nodes: a nearest routable node within reach, or none. */
  ghost predicate FullScan(s: GraphState, dist: (Place, Place) -> real, at: Place, maxKm: real,
                           ok: Option<Edge -> bool>, r: Option<Spot>) {
    match r
    case Some(n) =>
      && n.id in s.places && n.place == s.places[n.id]
      && NodeRoutable(s, n.id, ok) && dist(at, n.place) <= maxKm
      && forall id :: id in s.places && NodeRoutable(s, id, ok) ==> dist(at, n.place) <= dist(at, s.places[id])
    case None =>
      forall id :: id in s.places && NodeRoutable(s, id, ok) ==> dist(at, s.places[id]) > maxKm
  }

  /** Shifting by whole cells shifts the cell index; between two shifts it stays between. */
  lemma FloorShift(a: real, b: real, k: int)
    requires a - b <= k as real
    ensures a.Floor <= b.Floor + k
  {
    assert (b + k as real).Floor == b.Floor + k;
  }

  /** A difference of at most `radius` cell sizes in degrees stays inside the window. */
  lemma DegreesInWindow(at: Place, p: Place, radius: int)
    requires radius >= 0
    requires Abs(p.lat - at.lat) <= radius as real * GRID_CELL_SIZE_DEG
    requires Abs(p.lng - at.lng) <= radius as real * GRID_CELL_SIZE_DEG
    ensures InWindow(CellFor(at), CellFor(p), radius)
  {
    FloorShift(p.lat / GRID_CELL_SIZE_DEG, at.lat / GRID_CELL_SIZE_DEG, radius);
    FloorShift(at.lat / GRID_CELL_SIZE_DEG, p.lat / GRID_CELL_SIZE_DEG, radius);
    FloorShift(p.lng / GRID_CELL_SIZE_DEG, at.lng / GRID_CELL_SIZE_DEG, radius);
    FloorShift(at.lng / GRID_CELL_SIZE_DEG, p.lng / GRID_CELL_SIZE_DEG, radius);
  }

  /** Latitude is never the problem: where a degree is at least 111 km, every place
      within reach is within one cell less than the radius. */
  lemma LatitudeReach(latDiff: real, km: real, maxKm: real)
    requires 0.0 <= latDiff && latDiff * 111.0 <= km <= maxKm
    ensures latDiff <= (Radius(maxKm) - 1) as real * GRID_CELL_SIZE_DEG
  {
    var cells := maxKm / KM_PER_CELL;
    assert cells >= 0.0;
    assert Ceil(cells) as real >= cells;
    assert Ceil(cells) >= 0;
    assert latDiff <= cells * GRID_CELL_SIZE_DEG;
  }

  /** The scanned cells contain every place of the globe within reach. */
  ghost predicate WindowReaches(dist: (Place, Place) -> real, at: Place, maxKm: real) {
    forall p: Place :: OnGlobe(p) && dist(at, p) <= maxKm ==> InWindow(CellFor(at), CellFor(p), Radius(maxKm))
  }

  ghost predicate AllOnGlobe(s: GraphState) {
    forall id :: id in s.places ==> OnGlobe(s.places[id])
  }

  lemma SnapIsFullScan(ops: seq<Op>, dist: (Place, Place) -> real, at: Place, maxKm: real, ok: Option<Edge -> bool>,
                       r: Option<Spot>)
    requires LegalBuild(ops) && AllOnGlobe(Build(ops)) && WindowReaches(dist, at, maxKm) && maxKm > 0.0
    requires SnapResult(Build(ops), dist, at, maxKm, ok, r)
    ensures FullScan(Build(ops), dist, at, maxKm, ok, r)
  {
    var s := Build(ops);
    BuildGrid(ops);
    forall id | id in s.places && NodeRoutable(s, id, ok)
      ensures r.None? ==> dist(at, s.places[id]) > maxKm
      ensures r.Some? ==> dist(at, r.value.place) <= dist(at, s.places[id])
    {
      var x := Spot(id, s.places[id]);
      if dist(at, x.place) <= maxKm {
        assert Eligible(s, at, maxKm, ok, x);
      }
    }
  }

  /** On every graph of places of the globe the snap finds what the full scan finds. */
  ghost predicate AlwaysNearest(dist: (Place, Place) -> real, at: Place, maxKm: real) {
    forall ops, ok, r :: LegalBuild(ops) && AllOnGlobe(Build(ops)) && SnapResult(Build(ops), dist, at, maxKm, ok, r) ==>
      FullScan(Build(ops), dist, at, maxKm, ok, r)
  }

  /** One node, alone in the graph. */
  lemma LoneNode(p: Place)
    ensures LegalBuild([AddNode(0, p, 0)])
    ensures var s := Build([AddNode(0, p, 0)]);
            s.places == map[0 := p] && s.grid == map[CellFor(p) := [Spot(0, p)]]
  {
    var ops := [AddNode(0, p, 0)];
    assert ops[..0] == [];
    assert Build([]) == EmptyGraph && LegalBuild([]);
    assert [] + [Spot(0, p)] == [Spot(0, p)];
  }

  /** Snapping agrees with the full scan on every graph exactly when the scanned cells
      contain every place within reach. */
  lemma SnapExactlyWhenWindowReaches(dist: (Place, Place) -> real, at: Place, maxKm: real)
    requires maxKm > 0.0
    ensures AlwaysNearest(dist, at, maxKm) <==> WindowReaches(dist, at, maxKm)
  {
    if WindowReaches(dist, at, maxKm) {
      forall ops, ok, r | LegalBuild(ops) && AllOnGlobe(Build(ops)) && SnapResult(Build(ops), dist, at, maxKm, ok, r)
        ensures FullScan(Build(ops), dist, at, maxKm, ok, r)
      {
        SnapIsFullScan(ops, dist, at, maxKm, ok, r);
      }
    } else {
      var p: Place :| OnGlobe(p) && dist(at, p) <= maxKm && !InWindow(CellFor(at), CellFor(p), Radius(maxKm));
      var ops := [AddNode(0, p, 0)];
      LoneNode(p);
      var s := Build(ops);
      assert forall x: Spot :: x in s.InCell(CellFor(x.place)) ==> x == Spot(0, p);
      assert SnapResult(s, dist, at, maxKm, None, None);
      assert NodeRoutable(s, 0, None) && 0 in s.places;
      assert !FullScan(s, dist, at, maxKm, None, None);
    }
  }

  // ----- what that means in longitude -----

  /** On the globe a degree of latitude is at least 111 km. */
  ghost predicate LatitudeCosts(dist: (Place, Place) -> real, at: Place) {
    forall p: Place :: OnGlobe(p) ==> Abs(p.lat - at.lat) * 111.0 <= dist(at, p)
  }

  /** The westernmost and the easternmost longitude within the limit. */
  ghost predicate Reach(dist: (Place, Place) -> real, at: Place, maxKm: real, west: real, east: real) {
    && (forall p: Place :: OnGlobe(p) && dist(at, p) <= maxKm ==> west <= p.lng <= east)
    && (exists p: Place :: OnGlobe(p) && dist(at, p) <= maxKm && p.lng == west)
    && (exists p: Place :: OnGlobe(p) && dist(at, p) <= maxKm && p.lng == east)
  }

  /** The scanned columns of cells include the one of this longitude. */
  predicate ColumnScanned(at: Place, lng: real, radius: int) {
    CellFor(at).lng - radius <= (lng / GRID_CELL_SIZE_DEG).Floor <= CellFor(at).lng + radius
  }

  /** In latitude the window always reaches every place within the limit. */
  lemma RowScanned(dist: (Place, Place) -> real, at: Place, maxKm: real, p: Place)
    requires LatitudeCosts(dist, at) && OnGlobe(p) && dist(at, p) <= maxKm
    ensures Abs(p.lat - at.lat) <= (Radius(maxKm) - 1) as real * GRID_CELL_SIZE_DEG
    ensures CellFor(at).lat - Radius(maxKm) <= CellFor(p).lat <= CellFor(at).lat + Radius(maxKm)
  {
    LatitudeReach(Abs(p.lat - at.lat), dist(at, p), maxKm);
    DegreesInWindow(at, Place(p.lat, at.lng), Radius(maxKm));
  }

  lemma ColumnBetween(at: Place, lng: real, west: real, east: real, radius: int)
    requires west <= lng <= east && ColumnScanned(at, west, radius) && ColumnScanned(at, east, radius)
    ensures ColumnScanned(at, lng, radius)
  {
    FloorShift(lng / GRID_CELL_SIZE_DEG, east / GRID_CELL_SIZE_DEG, 0);
    FloorShift(west / GRID_CELL_SIZE_DEG, lng / GRID_CELL_SIZE_DEG, 0);
  }

  /** Snapping agrees with the full scan on every graph exactly when the columns of the
      westernmost and the easternmost longitude within the limit are scanned. */
  lemma SnapExactlyWhenColumnsScanned(dist: (Place, Place) -> real, at: Place, maxKm: real, west: real, east: real)
    requires maxKm > 0.0 && LatitudeCosts(dist, at) && Reach(dist, at, maxKm, west, east)
    ensures AlwaysNearest(dist, at, maxKm) <==>
            ColumnScanned(at, west, Radius(maxKm)) && ColumnScanned(at, east, Radius(maxKm))
  {
    SnapExactlyWhenWindowReaches(dist, at, maxKm);
    if ColumnScanned(at, west, Radius(maxKm)) && ColumnScanned(at, east, Radius(maxKm)) {
      forall p: Place | OnGlobe(p) && dist(at, p) <= maxKm
        ensures InWindow(CellFor(at), CellFor(p), Radius(maxKm))
      {
        RowScanned(dist, at, maxKm, p);
        ColumnBetween(at, p.lng, west, east, Radius(maxKm));
      }
    }
  }

  // ----- sufficient bounds on either side -----

  /** A difference in degrees, from its cost in km and the limit. */
  lemma DegreesFromKm(x: real, bound: real, kmPerDegree: real, km: real, maxKm: real)
    requires kmPerDegree > 0.0 && x * kmPerDegree <= km <= maxKm <= bound * kmPerDegree
    ensures x <= bound
  {
    Scale(x, bound, kmPerDegree);
  }

  lemma PlaceInWindow(at: Place, p: Place, km: real, maxKm: real, kmPerDegree: real, width: real)
    requires Abs(p.lat - at.lat) * 111.0 <= km <= maxKm && kmPerDegree > 0.0
    requires Abs(p.lng - at.lng) * kmPerDegree <= km
    requires width == Radius(maxKm) as real * GRID_CELL_SIZE_DEG && maxKm <= width * kmPerDegree
    ensures InWindow(CellFor(at), CellFor(p), Radius(maxKm))
  {
    LatitudeReach(Abs(p.lat - at.lat), km, maxKm);
    DegreesFromKm(Abs(p.lng - at.lng), width, kmPerDegree, km, maxKm);
    DegreesInWindow(at, p, Radius(maxKm));
  }

  /** Wide enough: when, within the limit, a degree of longitude is long enough, the
      window reaches; `width` is the radius in degrees. */
  lemma WideWindowReaches(dist: (Place, Place) -> real, at: Place, maxKm: real, kmPerDegree: real, width: real)
    requires kmPerDegree > 0.0 && LatitudeCosts(dist, at)
    requires forall p: Place :: OnGlobe(p) && dist(at, p) <= maxKm ==> Abs(p.lng - at.lng) * kmPerDegree <= dist(at, p)
    requires width == Radius(maxKm) as real * GRID_CELL_SIZE_DEG && maxKm <= width * kmPerDegree
    ensures WindowReaches(dist, at, maxKm)
  {
    forall p: Place | OnGlobe(p) && dist(at, p) <= maxKm
      ensures InWindow(CellFor(at), CellFor(p), Radius(maxKm))
    {
      var km := dist(at, p);
      assert Abs(p.lat - at.lat) * 111.0 <= km && Abs(p.lng - at.lng) * kmPerDegree <= km;
      PlaceInWindow(at, p, km, maxKm, kmPerDegree, width);
    }
  }

  /** One column beyond the window, to a side where the globe still has it. */
  lemma BeyondWindow(at: Place, radius: int, width: real) returns (p: Place)
    requires OnGlobe(at) && radius >= 0 && width == (radius + 1) as real * GRID_CELL_SIZE_DEG && width <= 180.0
    ensures OnGlobe(p) && p.lat == at.lat && Abs(p.lng - at.lng) == width
    ensures !InWindow(CellFor(at), CellFor(p), radius)
  {
    var x, w := at.lng / GRID_CELL_SIZE_DEG, (radius + 1) as real;
    if at.lng <= 0.0 {
      p := Place(at.lat, at.lng + width);
      assert p.lng / GRID_CELL_SIZE_DEG == x + w;
      FloorShift(x, x + w, -(radius + 1));
    } else {
      p := Place(at.lat, at.lng - width);
      assert p.lng / GRID_CELL_SIZE_DEG == x - w;
      FloorShift(x - w, x, -(radius + 1));
    }
  }

  /** Too narrow: when one column beyond the window is still within the limit along the
      parallel, snapping misses nodes on some graph. */
  lemma NarrowWindowMisses(dist: (Place, Place) -> real, at: Place, maxKm: real, kmPerDegree: real, width: real)
    requires maxKm > 0.0 && OnGlobe(at)
    requires width == (Radius(maxKm) + 1) as real * GRID_CELL_SIZE_DEG && width <= 180.0
    requires forall p: Place :: OnGlobe(p) && p.lat == at.lat && Abs(p.lng - at.lng) <= 180.0 ==>
               dist(at, p) <= Abs(p.lng - at.lng) * kmPerDegree
    requires width * kmPerDegree <= maxKm
    ensures !AlwaysNearest(dist, at, maxKm)
  {
    var p := BeyondWindow(at, Radius(maxKm), width);
    assert dist(at, p) <= width * kmPerDegree;
    SnapExactlyWhenWindowReaches(dist, at, maxKm);
  }

  const RAIL_SNAP_KM := 50.0

  lemma RailRadius()
    ensures Radius(RAIL_SNAP_KM) == 24
  {
    var cells := RAIL_SNAP_KM / KM_PER_CELL;
    assert -23.0 < -cells < -22.0;
    assert (-cells).Floor == -23;
  }

  /** The rail snap of 50 km misses nodes wherever a degree of longitude is at most a
      hundred kilometres long. */
  lemma RailSnapMisses(dist: (Place, Place) -> real, at: Place, kmPerDegree: real)
    requires OnGlobe(at) && kmPerDegree <= 100.0
    requires forall p: Place :: OnGlobe(p) && p.lat == at.lat && Abs(p.lng - at.lng) <= 180.0 ==>
               dist(at, p) <= Abs(p.lng - at.lng) * kmPerDegree
    ensures !AlwaysNearest(dist, at, RAIL_SNAP_KM)
  {
    RailRadius();
    NarrowWindowMisses(dist, at, RAIL_SNAP_KM, kmPerDegree, 0.5);
  }
}
