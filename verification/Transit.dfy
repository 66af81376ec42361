/** Cutting a transit path into legs: one leg per maximal run of edges with the same
    line label and mode. Distances and durations are not rounded. */
module Transit {
  import opened RoadNetwork

  datatype Mode = Train | Bus | Walking | PublicTransport

  function EdgeMode(kind: HighwayKind): Mode {
    match kind
    case Subway => Train
    case LightRail => Train
    case Tram => Train
    case BusRoute => Bus
    case Transfer => Walking
    case _ => PublicTransport
  }

  datatype Leg = Leg(mode: Mode, nodes: seq<int>, edges: seq<Edge>, km: real, minutes: real)

  const BOARDING_PENALTY_MIN := 3.0

  predicate SameRun(e: Edge, f: Edge) {
    e.nameIdx == f.nameIdx && EdgeMode(e.kind) == EdgeMode(f.kind)
  }

  // ----- maximal runs -----

  function Flatten(runs: seq<seq<Edge>>): seq<Edge> {
    if runs == [] then [] else Flatten(runs[..|runs| - 1]) + runs[|runs| - 1]
  }

  ghost predicate Uniform(run: seq<Edge>) {
    run != [] && forall i :: 0 <= i < |run| ==> SameRun(run[i], run[0])
  }

  /** The runs make up the list, each is uniform, and neighbours differ. */
  ghost predicate MaximalRuns(es: seq<Edge>, runs: seq<seq<Edge>>) {
    && Flatten(runs) == es
    && (forall i :: 0 <= i < |runs| ==> Uniform(runs[i]))
    && (forall i :: 0 <= i < |runs| - 1 ==> !SameRun(runs[i][0], runs[i + 1][0]))
  }

  lemma {:induction false} FlattenNonempty(runs: seq<seq<Edge>>)
    requires runs != [] && forall i :: 0 <= i < |runs| ==> runs[i] != []
    ensures Flatten(runs) != []
  {
  }

  lemma MaximalPrefix(es: seq<Edge>, runs: seq<seq<Edge>>)
    requires MaximalRuns(es, runs) && runs != []
    ensures var last := runs[|runs| - 1];
            |last| <= |es| && es[|es| - |last|..] == last
            && MaximalRuns(es[..|es| - |last|], runs[..|runs| - 1])
  {
    var init := runs[..|runs| - 1];
    assert es[..|es| - |runs[|runs| - 1]|] == Flatten(init);
    assert forall i :: 0 <= i < |init| ==> init[i] == runs[i];
  }

  /** The last run starts where the label or mode last changed. */
  lemma LastRunStart(es: seq<Edge>, runs: seq<seq<Edge>>)
    requires MaximalRuns(es, runs) && runs != []
    ensures var n := |es| - |runs[|runs| - 1]|;
            && 0 <= n < |es|
            && (forall i :: n <= i < |es| ==> SameRun(es[i], es[n]))
            && (n > 0 ==> !SameRun(es[n - 1], es[n]))
  {
    MaximalPrefix(es, runs);
    var k := |runs| - 1;
    var last, n := runs[k], |es| - |runs[k]|;
    assert Uniform(last);
    forall i | n <= i < |es|
      ensures SameRun(es[i], es[n])
    {
      assert es[i] == last[i - n] && es[n] == last[0];
    }
    if n > 0 {
      MaximalPrefix(es[..n], runs[..k]);
      var prev := runs[k - 1];
      assert Uniform(prev) && runs[..k][k - 1] == prev;
      assert es[n - 1] == prev[|prev| - 1];
      assert !SameRun(runs[k - 1][0], runs[k - 1 + 1][0]);
      assert SameRun(prev[|prev| - 1], prev[0]);
    }
  }

  /** A list has only one division into maximal runs. */
  lemma {:induction false} RunsUnique(es: seq<Edge>, a: seq<seq<Edge>>, b: seq<seq<Edge>>)
    requires MaximalRuns(es, a) && MaximalRuns(es, b)
    ensures a == b
    decreases |a|
  {
    if a == [] {
      if b != [] {
        FlattenNonempty(b);
      }
    } else if b == [] {
      FlattenNonempty(a);
    } else {
      LastRunStart(es, a);
      LastRunStart(es, b);
      var m, n := |es| - |a[|a| - 1]|, |es| - |b[|b| - 1]|;
      assert m == n;
      MaximalPrefix(es, a);
      MaximalPrefix(es, b);
      RunsUnique(es[..m], a[..|a| - 1], b[..|b| - 1]);
      assert a == a[..|a| - 1] + [a[|a| - 1]] && b == b[..|b| - 1] + [b[|b| - 1]];
    }
  }

  // ----- legs -----

  function EdgesOf(legs: seq<Leg>): (r: seq<seq<Edge>>)
    ensures |r| == |legs| && forall i :: 0 <= i < |legs| ==> r[i] == legs[i].edges
  {
    seq(|legs|, i requires 0 <= i < |legs| => legs[i].edges)
  }

  /** The mode says what kind of road or line it is: transfers are walked, bus routes are
      buses, rails in the city are trains, and everything else is public transport. */
  ghost predicate Rides(mode: Mode, kind: HighwayKind) {
    && (mode == Walking <==> kind == Transfer)
    && (mode == Bus <==> kind == BusRoute)
    && (mode == Train <==> kind in {Subway, LightRail, Tram})
  }

  /** The mode fits every edge. */
  ghost predicate Moded(leg: Leg) {
    forall i :: 0 <= i < |leg.edges| ==> Rides(leg.mode, leg.edges[i].kind)
  }

  /** A leg's totals: the edges' length, sixty times their stored hours, and three
      minutes of boarding unless its first edge is a transfer. */
  ghost predicate Billed(leg: Leg) {
    && leg.edges != [] && Rides(leg.mode, leg.edges[0].kind)
    && leg.km == Sum(Km, leg.edges)
    && leg.minutes == 60.0 * Sum(StoredHours, leg.edges) + (if leg.edges[0].kind == Transfer then 0.0 else 3.0)
  }

  lemma SameMode(mode: Mode, e: Edge, f: Edge)
    requires Rides(mode, e.kind) && SameRun(f, e)
    ensures Rides(mode, f.kind)
  {
  }

  lemma RunModed(leg: Leg)
    requires Billed(leg) && Uniform(leg.edges)
    ensures Moded(leg)
  {
    forall i | 0 <= i < |leg.edges|
      ensures Rides(leg.mode, leg.edges[i].kind)
    {
      SameMode(leg.mode, leg.edges[0], leg.edges[i]);
    }
  }

  /** Each leg holds the nodes around its own edges, so that neighbours share exactly
      their boundary node. */
  ghost predicate Framed(nodes: seq<int>, legs: seq<Leg>)
    decreases |legs|
  {
    if legs == [] then |nodes| == 1 else
      var last := legs[|legs| - 1];
      var n := |nodes| - 1 - |last.edges|;
      n >= 0 && last.nodes == nodes[n..] && Framed(nodes[..n + 1], legs[..|legs| - 1])
  }

  /** Framed legs share their boundary nodes, from the path's first node to its last. */
  lemma {:induction false} LegsMeet(nodes: seq<int>, legs: seq<Leg>)
    requires Framed(nodes, legs) && legs != []
    ensures forall i :: 0 <= i < |legs| ==> |legs[i].nodes| == |legs[i].edges| + 1
    ensures legs[0].nodes[0] == nodes[0]
    ensures legs[|legs| - 1].nodes[|legs[|legs| - 1].nodes| - 1] == nodes[|nodes| - 1]
    ensures forall i :: 0 <= i < |legs| - 1 ==> legs[i].nodes[|legs[i].nodes| - 1] == legs[i + 1].nodes[0]
    decreases |legs|
  {
    var k := |legs| - 1;
    var init, n := legs[..k], |nodes| - 1 - |legs[k].edges|;
    if k > 0 {
      LegsMeet(nodes[..n + 1], init);
      assert forall i :: 0 <= i < k ==> legs[i] == init[i];
    }
  }

  function LegsKm(legs: seq<Leg>): real {
    if legs == [] then 0.0 else LegsKm(legs[..|legs| - 1]) + legs[|legs| - 1].km
  }

  function LegsMinutes(legs: seq<Leg>): real {
    if legs == [] then 0.0 else LegsMinutes(legs[..|legs| - 1]) + legs[|legs| - 1].minutes
  }

  function Boardings(legs: seq<Leg>): nat {
    if legs == [] then 0
    else Boardings(legs[..|legs| - 1]) + if legs[|legs| - 1].mode == Walking then 0 else 1
  }

  method BuildSegmentLeg(nodes: seq<int>, edges: seq<Edge>) returns (leg: Leg)
    requires edges != [] && |nodes| == |edges| + 1
    ensures leg.nodes == nodes && leg.edges == edges && Billed(leg)
  {
    var totalKm, totalHours := 0.0, 0.0;
    for i := 0 to |edges|
      invariant totalKm == Sum(Km, edges[0..i]) && totalHours == Sum(StoredHours, edges[0..i])
    {
      SumSlice(Km, edges, 0, i);
      SumSlice(StoredHours, edges, 0, i);
      totalKm := totalKm + edges[i].distanceKm;
      totalHours := totalHours + edges[i].timeHours;
    }
    assert edges[0..|edges|] == edges;
    var mode := EdgeMode(edges[0].kind);
    var durationMin := totalHours * 60.0;
    if mode != Walking {
      durationMin := durationMin + BOARDING_PENALTY_MIN;
    }
    leg := Leg(mode, nodes, edges, totalKm, durationMin);
  }

  ghost predicate AllBilled(legs: seq<Leg>) {
    forall i :: 0 <= i < |legs| ==> Billed(legs[i])
  }

  /** Every leg is one run, and neighbours differ. */
  ghost predicate Alternating(legs: seq<Leg>) {
    && (forall i :: 0 <= i < |legs| ==> Uniform(legs[i].edges))
    && (forall i :: 0 <= i < |legs| - 1 ==> !SameRun(legs[i].edges[0], legs[i + 1].edges[0]))
  }

  ghost predicate AllModed(legs: seq<Leg>) {
    forall i :: 0 <= i < |legs| ==> Moded(legs[i])
  }

  lemma RunsModed(legs: seq<Leg>)
    requires AllBilled(legs) && Alternating(legs)
    ensures AllModed(legs)
  {
    forall i | 0 <= i < |legs|
      ensures Moded(legs[i])
    {
      RunModed(legs[i]);
    }
  }

  /** What holds of the legs built for the edges before segStart. */
  ghost predicate BuiltTo(p: PathResult, legs: seq<Leg>, segStart: nat)
    requires |p.nodes| == |p.edges| + 1 && segStart <= |p.edges|
  {
    && Flatten(EdgesOf(legs)) == p.edges[..segStart] && Alternating(legs) && AllBilled(legs)
    && (legs != [] && segStart < |p.edges| ==> !SameRun(legs[|legs| - 1].edges[0], p.edges[segStart]))
    && Framed(p.nodes[..segStart + 1], legs)
  }

  /** The edges from segStart up to i are one run so far. */
  ghost predicate OneRun(es: seq<Edge>, segStart: nat, i: nat) {
    forall j :: segStart <= j < i && j < |es| && segStart < |es| ==> SameRun(es[j], es[segStart])
  }

  lemma SegmentUniform(es: seq<Edge>, a: nat, i: nat)
    requires a < i <= |es| && OneRun(es, a, i)
    ensures Uniform(es[a..i]) && es[a..i][0] == es[a]
  {
    var run := es[a..i];
    forall j | 0 <= j < |run|
      ensures SameRun(run[j], run[0])
    {
      assert run[j] == es[a + j];
    }
  }

  lemma FlattenSnoc(legs: seq<Leg>, leg: Leg)
    ensures Flatten(EdgesOf(legs + [leg])) == Flatten(EdgesOf(legs)) + leg.edges
  {
    assert EdgesOf(legs + [leg]) == EdgesOf(legs) + [leg.edges];
    assert EdgesOf(legs + [leg])[..|legs|] == EdgesOf(legs);
  }

  lemma AlternatingSnoc(legs: seq<Leg>, leg: Leg)
    requires Alternating(legs) && Uniform(leg.edges)
    requires legs != [] ==> !SameRun(legs[|legs| - 1].edges[0], leg.edges[0])
    ensures Alternating(legs + [leg])
  {
    var more := legs + [leg];
    forall j | 0 <= j < |more| - 1
      ensures !SameRun(more[j].edges[0], more[j + 1].edges[0])
    {
      if j < |legs| - 1 {
        assert !SameRun(legs[j].edges[0], legs[j + 1].edges[0]);
      }
    }
  }

  lemma BilledSnoc(legs: seq<Leg>, leg: Leg)
    requires AllBilled(legs) && Billed(leg)
    ensures AllBilled(legs + [leg])
  {
  }

  lemma FramedSnoc(nodes: seq<int>, legs: seq<Leg>, segStart: nat, i: nat, leg: Leg)
    requires segStart < i < |nodes| && Framed(nodes[..segStart + 1], legs)
    requires leg.nodes == nodes[segStart..i + 1] && |leg.edges| == i - segStart
    ensures Framed(nodes[..i + 1], legs + [leg])
  {
    assert (legs + [leg])[..|legs|] == legs;
    assert nodes[..i + 1][segStart..] == leg.nodes;
    assert nodes[..i + 1][..segStart + 1] == nodes[..segStart + 1];
  }

  lemma OneRunMore(es: seq<Edge>, segStart: nat, i: nat)
    requires OneRun(es, segStart, i) && segStart < i < |es| && SameRun(es[i], es[segStart])
    ensures OneRun(es, segStart, i + 1)
  {
  }

  lemma BuiltSnoc(p: PathResult, legs: seq<Leg>, segStart: nat, i: nat, leg: Leg)
    requires |p.nodes| == |p.edges| + 1 && segStart < i <= |p.edges|
    requires BuiltTo(p, legs, segStart) && Billed(leg)
    requires leg.edges == p.edges[segStart..i] && leg.nodes == p.nodes[segStart..i + 1]
    requires OneRun(p.edges, segStart, i)
    requires i < |p.edges| ==> !SameRun(p.edges[i], p.edges[segStart])
    ensures BuiltTo(p, legs + [leg], i)
  {
    SegmentUniform(p.edges, segStart, i);
    FlattenSnoc(legs, leg);
    assert p.edges[..i] == p.edges[..segStart] + p.edges[segStart..i];
    AlternatingSnoc(legs, leg);
    BilledSnoc(legs, leg);
    FramedSnoc(p.nodes, legs, segStart, i, leg);
  }

  lemma BuiltAll(p: PathResult, legs: seq<Leg>)
    requires |p.nodes| == |p.edges| + 1 && BuiltTo(p, legs, |p.edges|)
    ensures MaximalRuns(p.edges, EdgesOf(legs)) && Framed(p.nodes, legs)
    ensures AllBilled(legs) && AllModed(legs)
  {
    RunsModed(legs);
    assert p.edges[..|p.edges|] == p.edges && p.nodes[..|p.edges| + 1] == p.nodes;
  }

  /** Appends the leg for the edges from segStart up to i. */
  method CloseSegment(p: PathResult, legs: seq<Leg>, segStart: nat, i: nat) returns (more: seq<Leg>)
    requires |p.nodes| == |p.edges| + 1 && segStart < i <= |p.edges|
    requires BuiltTo(p, legs, segStart) && OneRun(p.edges, segStart, i)
    requires i < |p.edges| ==> !SameRun(p.edges[i], p.edges[segStart])
    ensures BuiltTo(p, more, i)
  {
    var leg := BuildSegmentLeg(p.nodes[segStart..i + 1], p.edges[segStart..i]);
    BuiltSnoc(p, legs, segStart, i, leg);
    more := legs + [leg];
  }

  /** The list ends, or the line label or the mode changes. */
  method BreakHere(es: seq<Edge>, segStart: nat, i: nat) returns (b: bool)
    requires segStart < i <= |es|
    ensures b <==> i == |es| || !SameRun(es[i], es[segStart])
  {
    b := i == |es| || es[i].nameIdx != es[segStart].nameIdx || EdgeMode(es[i].kind) != EdgeMode(es[segStart].kind);
  }

  lemma NoLegs(p: PathResult)
    requires |p.nodes| == |p.edges| + 1
    ensures BuiltTo(p, [], 0) && OneRun(p.edges, 0, 1)
  {
    assert p.edges[..0] == [];
  }

  lemma NoEdges()
    ensures MaximalRuns([], EdgesOf([])) && AllBilled([]) && AllModed([])
  {
  }

  /** Splits a path into its legs. */
  method SplitTransitLegs(p: PathResult) returns (legs: seq<Leg>)
    requires p.edges == [] || |p.nodes| == |p.edges| + 1
    ensures p.edges == [] ==> legs == []
    ensures MaximalRuns(p.edges, EdgesOf(legs))
    ensures AllBilled(legs) && AllModed(legs)
    ensures p.edges != [] ==> Framed(p.nodes, legs)
  {
    legs := [];
    if p.edges == [] || p.nodes == [] {
      NoEdges();
      return;
    }
    var segStart := 0;
    NoLegs(p);
    var i := 1;
    while i <= |p.edges|
      invariant segStart < i <= |p.edges| + 1 && segStart <= |p.edges|
      invariant i == |p.edges| + 1 <==> segStart == |p.edges|
      invariant BuiltTo(p, legs, segStart) && OneRun(p.edges, segStart, i)
    {
      var breakHere := BreakHere(p.edges, segStart, i);
      if !breakHere {
        OneRunMore(p.edges, segStart, i);
        i := i + 1;
        continue;
      }
      legs := CloseSegment(p, legs, segStart, i);
      segStart := i;
      i := i + 1;
    }
    BuiltAll(p, legs);
  }

  /** The legs of any division add up: lengths to the path's, minutes to sixty times its
      stored hours plus three per leg that is boarded. */
  lemma {:induction false} LegsConserve(legs: seq<Leg>)
    requires AllBilled(legs)
    ensures LegsKm(legs) == Sum(Km, Flatten(EdgesOf(legs)))
    ensures LegsMinutes(legs) == 60.0 * Sum(StoredHours, Flatten(EdgesOf(legs)))
                                 + 3.0 * Boardings(legs) as real
  {
    if legs != [] {
      var n := |legs| - 1;
      LegsConserve(legs[..n]);
      var all, last := EdgesOf(legs), legs[n];
      assert all[..n] == EdgesOf(legs[..n]);
      SumConcat(Km, Flatten(all[..n]), last.edges);
      SumConcat(StoredHours, Flatten(all[..n]), last.edges);
      assert Billed(last);
    }
  }
}
