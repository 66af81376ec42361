/** The road network as the searches see it: adjacency lists, the reverse
    adjacency list, profile and spur filters, and walks with their exact sums.
    Times and distances are exact (`real`) instead of floating point. */
module RoadNetwork {
  import opened Wrappers

  /** A coordinate pair in degrees. */
  datatype Place = Place(lat: real, lng: real)

  predicate OnGlobe(p: Place) {
    -90.0 <= p.lat <= 90.0 && -180.0 <= p.lng <= 180.0
  }

  datatype HighwayKind =
    | Unknown | Motorway | MotorwayLink | Trunk | TrunkLink | Primary | PrimaryLink
    | Secondary | SecondaryLink | Tertiary | TertiaryLink | Unclassified | Residential
    | LivingStreet | Service | Track | Footway | Pedestrian | Path | Steps | Corridor
    | Crossing | Sidewalk | Platform | Rail | Subway | LightRail | NarrowGauge | Tram
    | BusRoute | Transfer

  datatype Edge = Edge(to: int, distanceKm: real, speedKmH: real, timeHours: real,
                       kind: HighwayKind, flags: bv8, nameIdx: nat)

  const DEFAULT_SPEED_KMH := 40.0

  /** The speed a time is computed with: the profile's if it overrides the edge's own, and
      40 km/h when that is not positive. */
  ghost function UsableSpeed(e: Edge, speedFn: Option<Edge -> real>): real {
    var wanted := match speedFn case None => e.speedKmH case Some(f) => f(e);
    if wanted > 0.0 then wanted else 40.0
  }

  /** Travel time of one edge: the stored time unless a profile speed overrides it, and
      otherwise the time in which the usable speed covers its length. A positive length
      always gives a positive time, which is the one fact the searches rely on. */
  function EdgeTravelTimeHours(e: Edge, speedFn: Option<Edge -> real>): (hours: real)
    ensures speedFn.None? && e.timeHours > 0.0 ==> hours == e.timeHours
    ensures speedFn.Some? || e.timeHours <= 0.0 ==> hours * UsableSpeed(e, speedFn) == e.distanceKm
    ensures e.distanceKm >= 0.0 ==> hours >= 0.0
    ensures e.distanceKm > 0.0 ==> hours > 0.0
  {
    if speedFn.None? && e.timeHours > 0.0 then
      e.timeHours
    else
      var speed := if speedFn.Some? then speedFn.value(e) else e.speedKmH;
      e.distanceKm / (if speed <= 0.0 then DEFAULT_SPEED_KMH else speed)
  }

  /** The travel time without a speed override. */
  function OwnHours(e: Edge): real {
    EdgeTravelTimeHours(e, None)
  }

  /** `rev` is None when the graph was built without a reverse adjacency list. */
  datatype Network = Network(nodes: set<int>, edges: map<int, seq<Edge>>, rev: Option<map<int, seq<int>>>) {
    function Out(u: int): seq<Edge> {
      if u in edges then edges[u] else []
    }
  }

  function In(rev: map<int, seq<int>>, v: int): seq<int> {
    if v in rev then rev[v] else []
  }

  /** The reverse list names exactly the tails of the edges that enter each node
      (duplicates allowed). */
  ghost predicate Transposed(net: Network, rev: map<int, seq<int>>) {
    forall u, v :: u in In(rev, v) <==> exists e :: e in net.Out(u) && e.to == v
  }

  type EdgeKey = (int, int)

  /** How good an answer's time is promised to be. */
  datatype Grade = AnyTime | TwiceBest | Best

  predicate Meets(grade: Grade, hours: real, other: real) {
    match grade
    case AnyTime => true
    case TwiceBest => hours <= 2.0 * other
    case Best => hours <= other
  }

  function Km(e: Edge): real {
    e.distanceKm
  }

  function StoredHours(e: Edge): real {
    e.timeHours
  }

  function Sum(f: Edge -> real, es: seq<Edge>): real {
    if es == [] then 0.0 else Sum(f, es[..|es| - 1]) + f(es[|es| - 1])
  }

  /** One search request: the network with the profile's edge filter and edge time,
      and the edges and nodes that a spur search blocks. */
  datatype Query = Query(net: Network, permits: Edge -> bool, hours: Edge -> real,
                         blockedEdges: set<EdgeKey>, blockedNodes: set<int>) {

    predicate Usable(n: int) {
      n in net.nodes && n !in blockedNodes
    }

    /** e is an edge u -> v that the search may take. */
    predicate Arc(u: int, v: int, e: Edge) {
      && Usable(u) && Usable(v)
      && e in net.Out(u) && e.to == v
      && (u, v) !in blockedEdges
      && permits(e)
    }

    ghost predicate NonnegativeHours() {
      forall u, v, e :: Arc(u, v, e) ==> hours(e) >= 0.0
    }

    ghost predicate PositiveHours() {
      forall u, v, e :: Arc(u, v, e) ==> hours(e) > 0.0
    }

    ghost predicate IsWalk(ns: seq<int>, es: seq<Edge>) {
      && |ns| == |es| + 1
      && (forall i :: 0 <= i < |ns| ==> Usable(ns[i]))
      && (forall i :: 0 <= i < |es| ==> Arc(ns[i], ns[i + 1], es[i]))
    }

    ghost predicate Connects(ns: seq<int>, es: seq<Edge>, start: int, goal: int) {
      IsWalk(ns, es) && ns[0] == start && ns[|ns| - 1] == goal
    }

    ghost predicate HasRoute(start: int, goal: int) {
      exists ns, es :: Connects(ns, es, start, goal)
    }

    /** Against every permitted, unblocked walk from start to goal the time is as good as
        the grade says. */
    ghost predicate Graded(start: int, goal: int, grade: Grade, time: real) {
      forall ns, es :: Connects(ns, es, start, goal) ==> Meets(grade, time, Sum(hours, es))
    }

    /** No permitted, unblocked walk from start to goal is faster. */
    ghost predicate NoneFaster(start: int, goal: int, time: real) {
      Graded(start, goal, Best, time)
    }
  }

  ghost predicate Distinct(ns: seq<int>) {
    forall i, j :: 0 <= i < j < |ns| ==> ns[i] != ns[j]
  }

  function Reversed<T>(s: seq<T>): (r: seq<T>)
    ensures |r| == |s|
    ensures forall i :: 0 <= i < |s| ==> r[i] == s[|s| - 1 - i]
  {
    seq(|s|, i requires 0 <= i < |s| => s[|s| - 1 - i])
  }

  datatype PathResult = PathResult(nodes: seq<int>, edges: seq<Edge>, distanceKm: real, timeHours: real)

  datatype SearchResult = Found(path: PathResult) | NoPath | StartMissing | GoalMissing

  /** What a returned path must be: a permitted, unblocked walk from start to goal
      whose reported time and distance are the exact sums over its edges. */
  ghost predicate ExactRoute(q: Query, start: int, goal: int, p: PathResult) {
    && q.Connects(p.nodes, p.edges, start, goal)
    && p.timeHours == Sum(q.hours, p.edges)
    && p.distanceKm == Sum(Km, p.edges)
  }

  lemma {:induction false} SumConcat(f: Edge -> real, a: seq<Edge>, b: seq<Edge>)
    ensures Sum(f, a + b) == Sum(f, a) + Sum(f, b)
  {
    if b == [] {
      assert a + b == a;
    } else {
      SumConcat(f, a, b[..|b| - 1]);
      assert (a + b)[..|a + b| - 1] == a + b[..|b| - 1];
    }
  }

  lemma SumOne(f: Edge -> real, e: Edge)
    ensures Sum(f, [e]) == f(e)
  {
    assert [e][..0] == [];
    assert Sum(f, []) == 0.0;
  }

  lemma {:induction false} SumSame(f: Edge -> real, g: Edge -> real, es: seq<Edge>)
    requires forall e :: e in es ==> f(e) == g(e)
    ensures Sum(f, es) == Sum(g, es)
  {
    if es != [] {
      SumSame(f, g, es[..|es| - 1]);
    }
  }

  lemma SliceSnoc<T>(s: seq<T>, a: nat, i: nat)
    requires a <= i < |s|
    ensures s[a..i + 1] == s[a..i] + [s[i]]
  {
  }

  /** One more edge at the end of a stretch adds its value. */
  lemma SumSlice(f: Edge -> real, es: seq<Edge>, a: nat, i: nat)
    requires a <= i < |es|
    ensures Sum(f, es[a..i + 1]) == Sum(f, es[a..i]) + f(es[i])
  {
    SliceSnoc(es, a, i);
    SumConcat(f, es[a..i], [es[i]]);
    SumOne(f, es[i]);
  }

  lemma {:induction false} SumReversed(f: Edge -> real, es: seq<Edge>)
    ensures Sum(f, Reversed(es)) == Sum(f, es)
  {
    if es == [] {
    } else {
      var init, last := es[..|es| - 1], es[|es| - 1];
      assert Reversed(es) == [last] + Reversed(init);
      SumConcat(f, [last], Reversed(init));
      SumOne(f, last);
      SumReversed(f, init);
    }
  }

  lemma {:induction false} WalkHoursNonnegative(q: Query, ns: seq<int>, es: seq<Edge>)
    requires q.NonnegativeHours() && q.IsWalk(ns, es)
    ensures Sum(q.hours, es) >= 0.0
  {
    if es == [] {
    } else {
      assert q.Arc(ns[|es| - 1], ns[|es|], es[|es| - 1]);
      WalkHoursNonnegative(q, ns[..|es|], es[..|es| - 1]);
    }
  }

  /** Walks that meet at a node join into one walk with the summed time. */
  lemma WalkJoin(q: Query, ns: seq<int>, es: seq<Edge>, ms: seq<int>, fs: seq<Edge>)
    requires q.IsWalk(ns, es) && q.IsWalk(ms, fs) && ns[|ns| - 1] == ms[0]
    ensures q.IsWalk(ns + ms[1..], es + fs)
    ensures (ns + ms[1..])[0] == ns[0]
    ensures (ns + ms[1..])[|ns + ms[1..]| - 1] == ms[|ms| - 1]
  {
    var js, gs := ns + ms[1..], es + fs;
    forall i | 0 <= i < |gs|
      ensures q.Arc(js[i], js[i + 1], gs[i])
    {
      if i < |es| {
        assert q.Arc(ns[i], ns[i + 1], es[i]);
      } else {
        assert q.Arc(ms[i - |es|], ms[i - |es| + 1], fs[i - |es|]);
      }
    }
  }
}
