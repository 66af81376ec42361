/** Turn-by-turn instructions: a path is cut at its maneuvers, and the pieces add up to
    the path. Turn angles and street names are abstract; distances are not rounded. */
module Instructions {
  import opened Wrappers
  import opened Reals
  import opened RoadNetwork

  datatype Kind = Depart | Continue | Turn | UTurn | Arrive

  datatype Maneuver = Maneuver(nodeIndex: nat, kind: Kind, modifier: string, street: string)

  datatype Location = AtStart | AtEnd | AtNode(node: int)

  datatype Instruction = Instruction(index: nat, kind: Kind, modifier: string, distanceKm: real, durationMin: real,
                                     location: Location, street: string)

  /** What the cutting depends on: the turn between two path segments (a to b, then c to
      d), street names, when two names are the same street, and the speed override. */
  datatype Guide = Guide(turn: (int, int, int, int) -> real, name: nat -> string,
                         same: (string, string) -> bool, speedFn: Option<Edge -> real>)

  predicate IsLink(kind: HighwayKind) {
    kind == MotorwayLink || kind == TrunkLink || kind == PrimaryLink || kind == SecondaryLink || kind == TertiaryLink
  }

  predicate IsUnnamedLink(e: Edge) {
    e.nameIdx == 0 && IsLink(e.kind)
  }

  function StreetName(p: PathResult, edgeIdx: int, g: Guide): string {
    if 0 <= edgeIdx < |p.edges| then g.name(p.edges[edgeIdx].nameIdx) else ""
  }

  function ManeuverType(delta: real): (Kind, string) {
    var abs := Abs(delta);
    var side := if delta < 0.0 then "left" else "right";
    if abs >= 155.0 then (UTurn, "uturn")
    else if abs < 25.0 then (Continue, "straight")
    else if abs < 55.0 then (Turn, "slight_" + side)
    else if abs < 125.0 then (Turn, side)
    else (Turn, "sharp_" + side)
  }

  /** A path as the searches return it: one more node than edges. */
  predicate Shaped(p: PathResult) {
    |p.nodes| == |p.edges| + 1
  }

  // ----- where the path is cut -----

  ghost predicate Rising(ms: seq<Maneuver>) {
    forall a, b :: 0 <= a < b < |ms| ==> ms[a].nodeIndex < ms[b].nodeIndex
  }

  /** Both edges at node j belong to one chain of unnamed links. */
  predicate InsideLinks(p: PathResult, j: nat) {
    2 <= j < |p.edges| && IsUnnamedLink(p.edges[j - 1]) && IsUnnamedLink(p.edges[j])
  }

  /** Cuts at the first and last node, in between in path order, never inside a chain. */
  ghost predicate Cuts(p: PathResult, ms: seq<Maneuver>) {
    && |ms| >= 2
    && ms[0].kind == Depart && ms[0].nodeIndex == 0
    && ms[|ms| - 1].kind == Arrive && ms[|ms| - 1].nodeIndex == |p.nodes| - 1
    && Rising(ms)
    && (forall a :: 0 <= a < |ms| ==> !InsideLinks(p, ms[a].nodeIndex))
  }

  /** The first edge from i on that is no unnamed link. */
  function LinkEnd(p: PathResult, i: nat): nat
    decreases |p.edges| - i
  {
    if i < |p.edges| && IsUnnamedLink(p.edges[i]) then LinkEnd(p, i + 1) else i
  }

  lemma {:induction false} LinkEndFacts(p: PathResult, i: nat)
    ensures var e := LinkEnd(p, i);
            && i <= e && (i <= |p.edges| ==> e <= |p.edges|)
            && (e < |p.edges| ==> !IsUnnamedLink(p.edges[e]))
            && (forall j :: i <= j < e ==> j < |p.edges| && IsUnnamedLink(p.edges[j]))
    decreases |p.edges| - i
  {
    if i < |p.edges| && IsUnnamedLink(p.edges[i]) {
      LinkEndFacts(p, i + 1);
    }
  }

  /** The turn made over a chain of links: from the edge before it to the edge after it,
      or to the chain's own course where the path ends with it. */
  function LinkTurn(p: PathResult, i: nat, e: nat, g: Guide): real
    requires 1 <= i <= e < |p.nodes|
  {
    var prev, enter, exit := p.nodes[i - 1], p.nodes[i], p.nodes[e];
    if e + 1 < |p.nodes| then g.turn(prev, enter, exit, p.nodes[e + 1]) else g.turn(prev, enter, enter, exit)
  }

  /** The maneuver told at an inner node that does not lie inside a chain, if any. */
  function Told(p: PathResult, g: Guide, i: nat): Option<Maneuver>
    requires Shaped(p) && 1 <= i < |p.edges|
  {
    LinkEndFacts(p, i);
    var e := LinkEnd(p, i);
    if e > i then
      var delta := LinkTurn(p, i, e, g);
      if Abs(delta) >= 150.0 then Some(Maneuver(i, UTurn, "uturn", StreetName(p, e, g)))
      else if Sum(Km, p.edges[i..e]) >= 0.08 && Abs(delta) >= 55.0 then
        Some(Maneuver(i, ManeuverType(delta).0, ManeuverType(delta).1, StreetName(p, e, g)))
      else None
    else
      var delta := g.turn(p.nodes[i - 1], p.nodes[i], p.nodes[i], p.nodes[i + 1]);
      if Abs(delta) < 25.0 && g.same(StreetName(p, i - 1, g), StreetName(p, i, g)) then None
      else Some(Maneuver(i, ManeuverType(delta).0, ManeuverType(delta).1, StreetName(p, i, g)))
  }

  // ----- what a node tells, from its turn alone -----

  /** The turn in degrees, negative to the left, by bands. */
  ghost predicate FitsTurn(delta: real, kind: Kind, modifier: string) {
    if delta <= -155.0 || 155.0 <= delta then kind == UTurn && modifier == "uturn"
    else if delta <= -125.0 then kind == Turn && modifier == "sharp_left"
    else if delta <= -55.0 then kind == Turn && modifier == "left"
    else if delta <= -25.0 then kind == Turn && modifier == "slight_left"
    else if delta < 25.0 then kind == Continue && modifier == "straight"
    else if delta < 55.0 then kind == Turn && modifier == "slight_right"
    else if delta < 125.0 then kind == Turn && modifier == "right"
    else kind == Turn && modifier == "sharp_right"
  }

  lemma TypeFits(delta: real)
    ensures FitsTurn(delta, ManeuverType(delta).0, ManeuverType(delta).1)
  {
    assert "slight_" + "left" == "slight_left" && "slight_" + "right" == "slight_right";
    assert "sharp_" + "left" == "sharp_left" && "sharp_" + "right" == "sharp_right";
  }

  /** The edges from i up to e are the whole rest of a chain of unnamed links. */
  ghost predicate IsChain(p: PathResult, i: nat, e: nat) {
    var links := {MotorwayLink, TrunkLink, PrimaryLink, SecondaryLink, TertiaryLink};
    && i < e <= |p.edges|
    && (forall j :: i <= j < e ==> p.edges[j].nameIdx == 0 && p.edges[j].kind in links)
    && (e < |p.edges| ==> p.edges[e].nameIdx != 0 || p.edges[e].kind !in links)
  }

  /** Between two edges of which the second is no unnamed link: nothing when the turn is
      slight and the street stays, and the turn onto the second edge's street otherwise. */
  ghost predicate ToldOnRoad(p: PathResult, g: Guide, i: nat, m: Option<Maneuver>)
    requires Shaped(p) && 1 <= i < |p.edges|
  {
    var delta := g.turn(p.nodes[i - 1], p.nodes[i], p.nodes[i], p.nodes[i + 1]);
    var before, after := g.name(p.edges[i - 1].nameIdx), g.name(p.edges[i].nameIdx);
    if -25.0 < delta < 25.0 && g.same(before, after) then m == None
    else m.Some? && m.value.nodeIndex == i && m.value.street == after && FitsTurn(delta, m.value.kind, m.value.modifier)
  }

  /** Where a chain starts: a U-turn from 150 degrees on, a turn from 55 degrees on if the
      chain is 80 metres long, and nothing otherwise. The turn is measured from the edge
      before the chain to the edge after it, or to the chain's end where nothing follows. */
  ghost predicate ToldOverChain(p: PathResult, g: Guide, i: nat, e: nat, m: Option<Maneuver>)
    requires Shaped(p) && 1 <= i < e <= |p.edges|
  {
    var ends := e == |p.edges|;
    var delta := if ends then g.turn(p.nodes[i - 1], p.nodes[i], p.nodes[i], p.nodes[e])
                 else g.turn(p.nodes[i - 1], p.nodes[i], p.nodes[e], p.nodes[e + 1]);
    var street := if ends then "" else g.name(p.edges[e].nameIdx);
    if delta <= -150.0 || 150.0 <= delta then m == Some(Maneuver(i, UTurn, "uturn", street))
    else if (delta <= -55.0 || 55.0 <= delta) && Sum(Km, p.edges[i..e]) >= 0.08 then
      m.Some? && m.value.nodeIndex == i && m.value.street == street && FitsTurn(delta, m.value.kind, m.value.modifier)
    else m == None
  }

  ghost predicate ToldAt(p: PathResult, g: Guide, i: nat, m: Option<Maneuver>)
    requires Shaped(p) && 1 <= i < |p.edges|
  {
    && (forall e: nat :: IsChain(p, i, e) ==> ToldOverChain(p, g, i, e, m))
    && ((forall e: nat :: !IsChain(p, i, e)) ==> ToldOnRoad(p, g, i, m))
  }

  lemma TurnsAgree(delta: real, a: Maneuver, b: Maneuver)
    requires FitsTurn(delta, a.kind, a.modifier) && FitsTurn(delta, b.kind, b.modifier)
    requires a.nodeIndex == b.nodeIndex && a.street == b.street
    ensures a == b
  {
  }

  lemma {:induction false} LinkEndIs(p: PathResult, i: nat, e: nat)
    requires i <= e <= |p.edges| && (forall j :: i <= j < e ==> IsUnnamedLink(p.edges[j]))
    requires e < |p.edges| ==> !IsUnnamedLink(p.edges[e])
    ensures LinkEnd(p, i) == e
    decreases e - i
  {
    if i < e {
      LinkEndIs(p, i + 1, e);
    }
  }

  lemma ChainEnd(p: PathResult, i: nat, e: nat)
    ensures IsChain(p, i, e) <==> LinkEnd(p, i) == e > i
  {
    LinkEndFacts(p, i);
    if IsChain(p, i, e) {
      LinkEndIs(p, i, e);
    }
  }

  lemma ToldRoad(p: PathResult, g: Guide, i: nat)
    requires Shaped(p) && 1 <= i < |p.edges| && LinkEnd(p, i) <= i
    ensures ToldOnRoad(p, g, i, Told(p, g, i))
  {
    LinkEndFacts(p, i);
    TypeFits(g.turn(p.nodes[i - 1], p.nodes[i], p.nodes[i], p.nodes[i + 1]));
  }

  lemma ToldChain(p: PathResult, g: Guide, i: nat, e: nat)
    requires Shaped(p) && 1 <= i < e <= |p.edges| && LinkEnd(p, i) == e
    ensures ToldOverChain(p, g, i, e, Told(p, g, i))
  {
    LinkEndFacts(p, i);
    TypeFits(LinkTurn(p, i, e, g));
  }

  lemma RoadAgrees(p: PathResult, g: Guide, i: nat, a: Option<Maneuver>, b: Option<Maneuver>)
    requires Shaped(p) && 1 <= i < |p.edges| && ToldOnRoad(p, g, i, a) && ToldOnRoad(p, g, i, b)
    ensures a == b
  {
    if a.Some? {
      TurnsAgree(g.turn(p.nodes[i - 1], p.nodes[i], p.nodes[i], p.nodes[i + 1]), a.value, b.value);
    }
  }

  lemma ChainAgrees(p: PathResult, g: Guide, i: nat, e: nat, a: Option<Maneuver>, b: Option<Maneuver>)
    requires Shaped(p) && 1 <= i < e <= |p.edges| && ToldOverChain(p, g, i, e, a) && ToldOverChain(p, g, i, e, b)
    ensures a == b
  {
    var delta := LinkTurn(p, i, e, g);
    if a.Some? && FitsTurn(delta, a.value.kind, a.value.modifier) && FitsTurn(delta, b.value.kind, b.value.modifier) {
      TurnsAgree(delta, a.value, b.value);
    }
  }

  /** What the scan tells at a node is right, and nothing else would be. */
  lemma ToldExactly(p: PathResult, g: Guide, i: nat, m: Option<Maneuver>)
    requires Shaped(p) && 1 <= i < |p.edges|
    ensures ToldAt(p, g, i, m) <==> m == Told(p, g, i)
  {
    forall e: nat
      ensures IsChain(p, i, e) <==> LinkEnd(p, i) == e > i
    {
      ChainEnd(p, i, e);
    }
    LinkEndFacts(p, i);
    var e, told := LinkEnd(p, i), Told(p, g, i);
    if e > i {
      ToldChain(p, g, i, e);
      assert IsChain(p, i, e);
      if ToldAt(p, g, i, m) {
        ChainAgrees(p, g, i, e, m, told);
      }
    } else {
      ToldRoad(p, g, i);
      if ToldAt(p, g, i, m) {
        RoadAgrees(p, g, i, m, told);
      }
    }
  }

  /** What node i adds: nothing inside a chain of links. */
  function ToldHere(p: PathResult, g: Guide, i: nat): seq<Maneuver>
    requires Shaped(p) && 1 <= i < |p.edges|
  {
    if !InsideLinks(p, i) && Told(p, g, i).Some? then [Told(p, g, i).value] else []
  }

  /** All maneuvers before node i: the departure, and what every inner node adds. */
  function ToldBefore(p: PathResult, g: Guide, i: nat): seq<Maneuver>
    requires Shaped(p) && i <= |p.edges|
  {
    if i <= 1 then [Maneuver(0, Depart, "straight", StreetName(p, 0, g))]
    else ToldBefore(p, g, i - 1) + ToldHere(p, g, i - 1)
  }

  lemma InsideSilent(p: PathResult, g: Guide, i: nat)
    requires Shaped(p) && 1 < i <= |p.edges| && InsideLinks(p, i - 1)
    ensures ToldBefore(p, g, i) == ToldBefore(p, g, i - 1)
  {
  }

  lemma {:induction false} StretchSilent(p: PathResult, g: Guide, i: nat, e: nat)
    requires Shaped(p) && 1 <= i < e <= |p.edges| && forall j :: i < j < e ==> InsideLinks(p, j)
    ensures ToldBefore(p, g, e) == ToldBefore(p, g, i + 1)
    decreases e
  {
    if e > i + 1 {
      InsideSilent(p, g, e);
      StretchSilent(p, g, i, e - 1);
    }
  }

  /** Nodes inside a chain tell nothing. */
  lemma ChainSilent(p: PathResult, g: Guide, i: nat, e: nat)
    requires Shaped(p) && 1 <= i < e <= |p.edges| && forall j :: i <= j < e ==> IsUnnamedLink(p.edges[j])
    ensures ToldBefore(p, g, e) == ToldBefore(p, g, i + 1)
  {
    assert forall j :: i < j < e ==> InsideLinks(p, j);
    StretchSilent(p, g, i, e);
  }

  ghost predicate Started(p: PathResult, ms: seq<Maneuver>, i: nat) {
    && ms != [] && ms[0].kind == Depart && ms[0].nodeIndex == 0
    && Rising(ms) && ms[|ms| - 1].nodeIndex < i
    && (forall a :: 0 <= a < |ms| ==> !InsideLinks(p, ms[a].nodeIndex))
  }

  lemma StartedSnoc(p: PathResult, ms: seq<Maneuver>, i: nat, m: Maneuver)
    requires Started(p, ms, i) && m.nodeIndex == i && !InsideLinks(p, i)
    ensures Started(p, ms + [m], i + 1)
  {
    var more := ms + [m];
    forall a, b | 0 <= a < b < |more|
      ensures more[a].nodeIndex < more[b].nodeIndex
    {
      if b == |ms| && a < |ms| - 1 {
        assert ms[a].nodeIndex < ms[|ms| - 1].nodeIndex;
      }
    }
  }

  lemma ToldIndex(p: PathResult, g: Guide, i: nat)
    requires Shaped(p) && 1 <= i < |p.edges|
    ensures Told(p, g, i).Some? ==> Told(p, g, i).value.nodeIndex == i
  {
  }

  lemma StartedMore(p: PathResult, ms: seq<Maneuver>, i: nat, here: seq<Maneuver>)
    requires Started(p, ms, i)
    requires here == [] || (|here| == 1 && here[0].nodeIndex == i && !InsideLinks(p, i))
    ensures Started(p, ms + here, i + 1)
  {
    if here == [] {
      assert ms + here == ms;
    } else {
      StartedSnoc(p, ms, i, here[0]);
      assert ms + here == ms + [here[0]];
    }
  }

  lemma {:induction false} ToldStarted(p: PathResult, g: Guide, i: nat)
    requires Shaped(p) && 1 <= i <= |p.edges|
    ensures Started(p, ToldBefore(p, g, i), i)
  {
    if i > 1 {
      ToldStarted(p, g, i - 1);
      ToldIndex(p, g, i - 1);
      StartedMore(p, ToldBefore(p, g, i - 1), i - 1, ToldHere(p, g, i - 1));
    }
  }

  /** Node i lies in no chain but at its start, and this is what it tells. */
  ghost predicate TellsThere(p: PathResult, g: Guide, i: nat, m: Maneuver)
    requires Shaped(p)
  {
    1 <= i < |p.edges| && !InsideLinks(p, i) && ToldAt(p, g, i, Some(m))
  }

  ghost predicate IsDeparture(p: PathResult, g: Guide, m: Maneuver)
    requires Shaped(p) && p.edges != []
  {
    m == Maneuver(0, Depart, "straight", g.name(p.edges[0].nameIdx))
  }

  /** A departure, and then exactly what the inner nodes before i tell. */
  ghost predicate AreTold(p: PathResult, g: Guide, i: nat, ms: seq<Maneuver>)
    requires Shaped(p) && p.edges != []
  {
    && ms != [] && IsDeparture(p, g, ms[0])
    && forall m :: m in ms[1..] <==> m.nodeIndex < i && TellsThere(p, g, m.nodeIndex, m)
  }

  lemma HereExactly(p: PathResult, g: Guide, j: nat)
    requires Shaped(p) && 1 <= j < |p.edges|
    ensures forall m :: m in ToldHere(p, g, j) <==> m.nodeIndex == j && TellsThere(p, g, j, m)
  {
    forall m: Maneuver
      ensures m in ToldHere(p, g, j) <==> m.nodeIndex == j && TellsThere(p, g, j, m)
    {
      ToldExactly(p, g, j, Some(m));
      ToldIndex(p, g, j);
    }
  }

  lemma AreToldMore(p: PathResult, g: Guide, j: nat, ms: seq<Maneuver>, here: seq<Maneuver>)
    requires Shaped(p) && 1 <= j < |p.edges| && AreTold(p, g, j, ms)
    requires forall m :: m in here <==> m.nodeIndex == j && TellsThere(p, g, j, m)
    ensures AreTold(p, g, j + 1, ms + here)
  {
    assert (ms + here)[1..] == ms[1..] + here;
  }

  lemma {:induction false} BeforeAreTold(p: PathResult, g: Guide, i: nat)
    requires Shaped(p) && 1 <= i <= |p.edges|
    ensures AreTold(p, g, i, ToldBefore(p, g, i))
  {
    if i > 1 {
      BeforeAreTold(p, g, i - 1);
      HereExactly(p, g, i - 1);
      AreToldMore(p, g, i - 1, ToldBefore(p, g, i - 1), ToldHere(p, g, i - 1));
    }
  }

  function Maneuvers(p: PathResult, g: Guide): seq<Maneuver>
    requires Shaped(p) && |p.nodes| >= 2
  {
    ToldBefore(p, g, |p.nodes| - 1) + [Maneuver(|p.nodes| - 1, Arrive, "straight", "")]
  }

  ghost predicate IsArrival(p: PathResult, m: Maneuver) {
    m == Maneuver(|p.edges|, Arrive, "straight", "")
  }

  /** A departure, exactly what the inner nodes tell, and an arrival. */
  ghost predicate Announces(p: PathResult, g: Guide, ms: seq<Maneuver>)
    requires Shaped(p) && p.edges != []
  {
    ms != [] && AreTold(p, g, |p.edges|, ms[..|ms| - 1]) && IsArrival(p, ms[|ms| - 1])
  }

  lemma ManeuversTold(p: PathResult, g: Guide)
    requires Shaped(p) && |p.nodes| >= 2
    ensures Announces(p, g, Maneuvers(p, g))
  {
    var told := ToldBefore(p, g, |p.edges|);
    BeforeAreTold(p, g, |p.edges|);
    assert Maneuvers(p, g)[..|told|] == told;
  }

  /** The maneuvers cut the path in order and never inside a chain. */
  lemma ManeuversCut(p: PathResult, g: Guide)
    requires Shaped(p) && |p.nodes| >= 2
    ensures Cuts(p, Maneuvers(p, g))
  {
    var last := |p.nodes| - 1;
    ToldStarted(p, g, last);
    StartedSnoc(p, ToldBefore(p, g, last), last, Maneuver(last, Arrive, "straight", ""));
  }

  lemma ToldContinue(p: PathResult, g: Guide, i: nat)
    requires Shaped(p) && 1 <= i < |p.edges| && Told(p, g, i).Some? && Told(p, g, i).value.kind == Continue
    ensures !IsUnnamedLink(p.edges[i]) && !g.same(StreetName(p, i - 1, g), StreetName(p, i, g))
  {
    LinkEndFacts(p, i);
  }

  /** No "continue" is told where the street stays the same, and none of them in a
      chain, where a gentle course is passed over. */
  lemma {:induction false} ContinueMeansNewStreet(p: PathResult, g: Guide, i: nat, m: Maneuver)
    requires Shaped(p) && 1 <= i <= |p.edges| && m in ToldBefore(p, g, i) && m.kind == Continue
    ensures 1 <= m.nodeIndex < i && !IsUnnamedLink(p.edges[m.nodeIndex])
    ensures !g.same(StreetName(p, m.nodeIndex - 1, g), StreetName(p, m.nodeIndex, g))
  {
    if i > 1 && m in ToldBefore(p, g, i - 1) {
      ContinueMeansNewStreet(p, g, i - 1, m);
    } else if i > 1 {
      ToldIndex(p, g, i - 1);
      assert Told(p, g, i - 1) == Some(m);
      ToldContinue(p, g, i - 1);
    }
  }

  /** The end of the chain of unnamed links that starts at an edge, with the turn from
      the edge before the chain to the edge after it, and the chain's length. */
  method UnnamedLinkChain(p: PathResult, startEdge: nat, g: Guide) returns (endEdge: nat, delta: real, km: real)
    requires Shaped(p) && startEdge >= 1
    ensures endEdge == LinkEnd(p, startEdge)
    ensures endEdge > startEdge ==>
              && endEdge < |p.nodes| && delta == LinkTurn(p, startEdge, endEdge, g)
              && km == Sum(Km, p.edges[startEdge..endEdge])
  {
    endEdge, delta, km := startEdge, 0.0, 0.0;
    if startEdge >= |p.edges| || startEdge + 1 >= |p.nodes| {
      return;
    }
    if !IsUnnamedLink(p.edges[startEdge]) {
      return;
    }
    while endEdge < |p.edges| && IsUnnamedLink(p.edges[endEdge])
      invariant startEdge <= endEdge <= |p.edges|
      invariant LinkEnd(p, startEdge) == LinkEnd(p, endEdge)
      invariant km == Sum(Km, p.edges[startEdge..endEdge])
    {
      SumSlice(Km, p.edges, startEdge, endEdge);
      km := km + p.edges[endEdge].distanceKm;
      endEdge := endEdge + 1;
    }
    var prev, enter, exit := p.nodes[startEdge - 1], p.nodes[startEdge], p.nodes[endEdge];
    if endEdge + 1 >= |p.nodes| {
      delta := g.turn(prev, enter, enter, exit);
    } else {
      delta := g.turn(prev, enter, exit, p.nodes[endEdge + 1]);
    }
  }

  /** What the scan tells at node i, and the node where it goes on: behind a chain. */
  method TellNode(p: PathResult, g: Guide, i: nat) returns (m: Option<Maneuver>, next: nat)
    requires Shaped(p) && 1 <= i < |p.edges|
    ensures m == Told(p, g, i) && ToldAt(p, g, i, m)
    ensures next == if LinkEnd(p, i) > i then LinkEnd(p, i) else i + 1
  {
    m := None;
    var delta := g.turn(p.nodes[i - 1], p.nodes[i], p.nodes[i], p.nodes[i + 1]);
    var linkEnd, linkDelta, linkKm := UnnamedLinkChain(p, i, g);
    LinkEndFacts(p, i);
    ToldExactly(p, g, i, Told(p, g, i));
    if linkEnd > i {
      if Abs(linkDelta) >= 150.0 {
        m := Some(Maneuver(i, UTurn, "uturn", StreetName(p, linkEnd, g)));
      } else if linkKm >= 0.08 && Abs(linkDelta) >= 55.0 {
        var (kind, modifier) := ManeuverType(linkDelta);
        m := Some(Maneuver(i, kind, modifier, StreetName(p, linkEnd, g)));
      }
      return m, linkEnd;
    }
    next := i + 1;
    var prevStreet, nextStreet := StreetName(p, i - 1, g), StreetName(p, i, g);
    if Abs(delta) < 25.0 && g.same(prevStreet, nextStreet) {
      return;
    }
    var (kind, modifier) := ManeuverType(delta);
    if kind == Continue && g.same(prevStreet, nextStreet) {
      return;
    }
    m := Some(Maneuver(i, kind, modifier, nextStreet));
  }

  /** The scan may jump: between i and the node where it goes on nothing is told. */
  lemma ScanJump(p: PathResult, g: Guide, i: nat, next: nat)
    requires Shaped(p) && 1 <= i < |p.edges| && !InsideLinks(p, i)
    requires next == if LinkEnd(p, i) > i then LinkEnd(p, i) else i + 1
    ensures i < next <= |p.edges| && !InsideLinks(p, next)
    ensures ToldBefore(p, g, next) == ToldBefore(p, g, i) + if Told(p, g, i).Some? then [Told(p, g, i).value] else []
  {
    LinkEndFacts(p, i);
    if LinkEnd(p, i) > i {
      ChainSilent(p, g, i, next);
    }
  }

  /** Finds the maneuvers of a path with at least two nodes, jumping over each chain. */
  method FindManeuvers(p: PathResult, g: Guide) returns (ms: seq<Maneuver>)
    requires Shaped(p) && |p.nodes| >= 2
    ensures ms == Maneuvers(p, g) && Announces(p, g, ms)
  {
    ManeuversTold(p, g);
    ms := [Maneuver(0, Depart, "straight", StreetName(p, 0, g))];
    var i := 1;
    while i < |p.nodes| - 1
      invariant 1 <= i <= |p.nodes| - 1
      invariant ms == ToldBefore(p, g, i) && !InsideLinks(p, i)
    {
      var m, next := TellNode(p, g, i);
      ScanJump(p, g, i, next);
      if m.Some? {
        ms := ms + [m.value];
      }
      i := next;
    }
    ms := ms + [Maneuver(|p.nodes| - 1, Arrive, "straight", "")];
  }

  // ----- collapsing repeated continues -----

  function Collapse(ms: seq<Maneuver>): (r: seq<Maneuver>)
    ensures ms != [] ==> r != []
  {
    if ms == [] then []
    else
      var out, m := Collapse(ms[..|ms| - 1]), ms[|ms| - 1];
      if m.kind == Continue && out != [] && out[|out| - 1].kind == Continue then out else out + [m]
  }

  method CollapseContinues(ms: seq<Maneuver>) returns (out: seq<Maneuver>)
    ensures out == Collapse(ms)
  {
    out := [];
    for i := 0 to |ms|
      invariant out == Collapse(ms[..i])
    {
      assert ms[..i + 1][..i] == ms[..i];
      var m := ms[i];
      if m.kind == Continue && |out| > 0 && out[|out| - 1].kind == Continue {
        continue;
      }
      out := out + [m];
    }
    assert ms[..|ms|] == ms;
  }

  ghost predicate NoDoubleContinue(ms: seq<Maneuver>) {
    forall a :: 0 <= a < |ms| - 1 ==> !(ms[a].kind == Continue && ms[a + 1].kind == Continue)
  }

  function WithoutContinues(ms: seq<Maneuver>): seq<Maneuver> {
    if ms == [] then []
    else WithoutContinues(ms[..|ms| - 1]) + if ms[|ms| - 1].kind == Continue then [] else [ms[|ms| - 1]]
  }

  lemma WithoutSnoc(out: seq<Maneuver>, m: Maneuver)
    ensures WithoutContinues(out + [m]) == WithoutContinues(out) + if m.kind == Continue then [] else [m]
  {
    assert (out + [m])[..|out|] == out;
  }

  lemma CollapseSnoc(init: seq<Maneuver>, m: Maneuver)
    ensures var out := Collapse(init);
            Collapse(init + [m]) ==
              if m.kind == Continue && out != [] && out[|out| - 1].kind == Continue then out else out + [m]
  {
    assert (init + [m])[..|init|] == init;
  }

  /** Collapsing drops continues only, and only right after a continue that is kept. */
  lemma {:induction false} CollapseKeepsTurns(ms: seq<Maneuver>)
    ensures WithoutContinues(Collapse(ms)) == WithoutContinues(ms)
    ensures ms != [] && ms[|ms| - 1].kind == Continue ==> Collapse(ms)[|Collapse(ms)| - 1].kind == Continue
    decreases |ms|
  {
    if ms != [] {
      var init, m := ms[..|ms| - 1], ms[|ms| - 1];
      assert ms == init + [m];
      CollapseKeepsTurns(init);
      CollapseSnoc(init, m);
      WithoutSnoc(Collapse(init), m);
      WithoutSnoc(init, m);
    }
  }

  /** A kept continue with no kept maneuver between it and m. */
  ghost predicate FollowsContinue(ms: seq<Maneuver>, m: Maneuver) {
    exists a :: 0 <= a < |ms| && ms[a].kind == Continue && ms[a].nodeIndex < m.nodeIndex
                && (a + 1 < |ms| ==> m.nodeIndex < ms[a + 1].nodeIndex)
  }

  lemma FollowsStill(ms: seq<Maneuver>, m: Maneuver, last: Maneuver)
    requires FollowsContinue(ms, m) && m.nodeIndex < last.nodeIndex
    ensures FollowsContinue(ms + [last], m)
  {
    var a :| 0 <= a < |ms| && ms[a].kind == Continue && ms[a].nodeIndex < m.nodeIndex
             && (a + 1 < |ms| ==> m.nodeIndex < ms[a + 1].nodeIndex);
    var more := ms + [last];
    assert more[a] == ms[a] && more[a + 1] == if a + 1 < |ms| then ms[a + 1] else last;
  }

  lemma {:induction false} CollapseMembers(ms: seq<Maneuver>)
    ensures forall m :: m in Collapse(ms) ==> m in ms
    decreases |ms|
  {
    if ms != [] {
      CollapseMembers(ms[..|ms| - 1]);
    }
  }

  lemma LastRises(init: seq<Maneuver>, last: Maneuver)
    requires Rising(init + [last])
    ensures Rising(init) && forall m :: m in init ==> m.nodeIndex < last.nodeIndex
  {
    var ms := init + [last];
    assert forall k :: 0 <= k < |init| ==> ms[k] == init[k];
    assert ms[|init|] == last;
  }

  /** What is dropped is a continue that follows a kept one. */
  lemma {:induction false} CollapseDrops(ms: seq<Maneuver>, m: Maneuver)
    requires Rising(ms) && m in ms && m !in Collapse(ms)
    ensures m.kind == Continue && FollowsContinue(Collapse(ms), m)
    decreases |ms|
  {
    var init, last := ms[..|ms| - 1], ms[|ms| - 1];
    var out := Collapse(init);
    assert ms == init + [last];
    LastRises(init, last);
    CollapseSnoc(init, last);
    CollapseMembers(init);
    if m in init {
      CollapseDrops(init, m);
      FollowsStill(out, m, last);
    } else {
      assert out[|out| - 1] in out;
    }
  }

  lemma RisingSnoc(p: PathResult, out: seq<Maneuver>, m: Maneuver)
    requires out != [] && Rising(out) && NoDoubleContinue(out) && out[|out| - 1].nodeIndex < m.nodeIndex
    requires !(m.kind == Continue && out[|out| - 1].kind == Continue)
    requires !InsideLinks(p, m.nodeIndex) && forall a :: 0 <= a < |out| ==> !InsideLinks(p, out[a].nodeIndex)
    ensures Rising(out + [m]) && NoDoubleContinue(out + [m])
    ensures forall a :: 0 <= a < |out + [m]| ==> !InsideLinks(p, (out + [m])[a].nodeIndex)
  {
    var r := out + [m];
    forall a, b | 0 <= a < b < |r|
      ensures r[a].nodeIndex < r[b].nodeIndex
    {
      if b == |out| {
        assert out[a].nodeIndex <= out[|out| - 1].nodeIndex;
      }
    }
  }

  /** Collapsing keeps a rising selection that starts with the same maneuver, and leaves
      no two continues in a row. */
  lemma {:induction false} CollapseSelects(p: PathResult, ms: seq<Maneuver>)
    requires ms != [] && Rising(ms) && forall a :: 0 <= a < |ms| ==> !InsideLinks(p, ms[a].nodeIndex)
    ensures var r := Collapse(ms);
            && r[0] == ms[0] && Rising(r) && NoDoubleContinue(r)
            && r[|r| - 1].nodeIndex <= ms[|ms| - 1].nodeIndex
            && (forall a :: 0 <= a < |r| ==> !InsideLinks(p, r[a].nodeIndex))
    decreases |ms|
  {
    var n := |ms| - 1;
    if n == 0 {
      assert Collapse(ms[..0]) == [];
    } else {
      CollapseSelects(p, ms[..n]);
      var out := Collapse(ms[..n]);
      assert ms[n - 1].nodeIndex < ms[n].nodeIndex;
      if Collapse(ms) != out {
        RisingSnoc(p, out, ms[n]);
      }
    }
  }

  lemma CollapseLast(init: seq<Maneuver>, last: Maneuver)
    requires last.kind != Continue
    ensures Collapse(init + [last]) == Collapse(init) + [last]
  {
    CollapseSnoc(init, last);
  }

  lemma CollapseEnds(p: PathResult, ms: seq<Maneuver>)
    requires Cuts(p, ms)
    ensures Collapse(ms)[0] == ms[0] && Collapse(ms)[|Collapse(ms)| - 1] == ms[|ms| - 1]
  {
    var init, last := ms[..|ms| - 1], ms[|ms| - 1];
    assert ms == init + [last];
    CollapseSelects(p, ms);
    CollapseLast(init, last);
  }

  /** The cuts survive collapsing: the ends are no continues. */
  lemma CollapseKeepsCuts(p: PathResult, ms: seq<Maneuver>)
    requires Cuts(p, ms)
    ensures Cuts(p, Collapse(ms)) && NoDoubleContinue(Collapse(ms))
  {
    CollapseSelects(p, ms);
    CollapseEnds(p, ms);
  }

  // ----- what the collapsed list tells -----

  /** A departure, only what inner nodes tell, all of it except continues that follow a
      kept continue, and an arrival. */
  ghost predicate Guides(p: PathResult, g: Guide, ms: seq<Maneuver>)
    requires Shaped(p) && p.edges != []
  {
    && |ms| >= 2 && IsDeparture(p, g, ms[0]) && IsArrival(p, ms[|ms| - 1])
    && (forall a :: 0 < a < |ms| - 1 ==> TellsThere(p, g, ms[a].nodeIndex, ms[a]))
    && (forall m: Maneuver :: TellsThere(p, g, m.nodeIndex, m) ==>
          m in ms || (m.kind == Continue && FollowsContinue(ms, m)))
  }

  lemma InnerTold(p: PathResult, g: Guide, found: seq<Maneuver>, m: Maneuver)
    requires Shaped(p) && p.edges != [] && Announces(p, g, found) && m in found && 0 < m.nodeIndex < |p.edges|
    ensures TellsThere(p, g, m.nodeIndex, m)
  {
    var n := |found| - 1;
    var init := found[..n];
    var k :| 0 <= k < |found| && found[k] == m;
    assert k < n && init[k] == m;
    assert k > 0;
    assert init[1..][k - 1] == m;
  }

  lemma OnlyTold(p: PathResult, g: Guide, found: seq<Maneuver>, ms: seq<Maneuver>, a: nat)
    requires Shaped(p) && p.edges != [] && Announces(p, g, found) && Cuts(p, ms)
    requires (forall m :: m in ms ==> m in found) && 0 < a < |ms| - 1
    ensures TellsThere(p, g, ms[a].nodeIndex, ms[a])
  {
    assert ms[0].nodeIndex < ms[a].nodeIndex < ms[|ms| - 1].nodeIndex;
    assert ms[a] in ms;
    InnerTold(p, g, found, ms[a]);
  }

  lemma AllTold(p: PathResult, g: Guide, found: seq<Maneuver>, m: Maneuver)
    requires Shaped(p) && p.edges != [] && Announces(p, g, found) && TellsThere(p, g, m.nodeIndex, m)
    ensures m in found
  {
    var init := found[..|found| - 1];
    assert m in init[1..];
  }

  /** Collapsing what was found leaves a guide along the path. */
  lemma CollapsedGuides(p: PathResult, g: Guide, found: seq<Maneuver>)
    requires Shaped(p) && p.edges != [] && Announces(p, g, found) && Cuts(p, found)
    ensures Guides(p, g, Collapse(found))
  {
    var ms := Collapse(found);
    CollapseKeepsCuts(p, found);
    CollapseEnds(p, found);
    CollapseMembers(found);
    forall a | 0 < a < |ms| - 1
      ensures TellsThere(p, g, ms[a].nodeIndex, ms[a])
    {
      OnlyTold(p, g, found, ms, a);
    }
    forall m: Maneuver | TellsThere(p, g, m.nodeIndex, m)
      ensures m in ms || (m.kind == Continue && FollowsContinue(ms, m))
    {
      AllTold(p, g, found, m);
      if m !in ms {
        CollapseDrops(found, m);
      }
    }
  }

  // ----- the legs between maneuvers -----

  function Timing(g: Guide): Edge -> real {
    (e: Edge) => EdgeTravelTimeHours(e, g.speedFn)
  }

  ghost predicate NonnegativeLengths(es: seq<Edge>) {
    forall i :: 0 <= i < |es| ==> es[i].distanceKm >= 0.0
  }

  /** A stretch that takes no time has no length, so the fallback speed never counts. */
  lemma {:induction false} NoTimeNoLength(g: Guide, es: seq<Edge>)
    requires NonnegativeLengths(es)
    ensures Sum(Timing(g), es) >= 0.0 && Sum(Km, es) >= 0.0
    ensures Sum(Timing(g), es) == 0.0 ==> Sum(Km, es) == 0.0
  {
    if es != [] {
      var n := |es| - 1;
      assert forall i :: 0 <= i < n ==> es[..n][i] == es[i];
      NoTimeNoLength(g, es[..n]);
      assert Timing(g)(es[n]) == EdgeTravelTimeHours(es[n], g.speedFn);
    }
  }

  /** No override, and a stored time on every edge. */
  ghost predicate StoredTimes(g: Guide, es: seq<Edge>) {
    g.speedFn.None? && forall e :: e in es ==> e.timeHours > 0.0
  }

  /** A speed override that is positive on every edge. */
  ghost predicate Overridden(g: Guide, es: seq<Edge>) {
    g.speedFn.Some? && forall e :: e in es ==> g.speedFn.value(e) > 0.0
  }

  ghost function AtSpeed(speed: Edge -> real): Edge -> real {
    (e: Edge) => if speed(e) > 0.0 then e.distanceKm / speed(e) else 0.0
  }

  lemma HoursAtSpeed(hours: real, speed: real, km: real)
    requires speed > 0.0 && hours * speed == km
    ensures hours == km / speed
  {
  }

  /** What the times of a stretch are: the stored ones, or those at the overriding speeds. */
  lemma TimingExact(g: Guide, es: seq<Edge>)
    ensures StoredTimes(g, es) ==> Sum(Timing(g), es) == Sum(StoredHours, es)
    ensures Overridden(g, es) ==> Sum(Timing(g), es) == Sum(AtSpeed(g.speedFn.value), es)
  {
    if StoredTimes(g, es) {
      SumSame(Timing(g), StoredHours, es);
    }
    if Overridden(g, es) {
      forall e | e in es
        ensures Timing(g)(e) == AtSpeed(g.speedFn.value)(e)
      {
        HoursAtSpeed(EdgeTravelTimeHours(e, g.speedFn), g.speedFn.value(e), e.distanceKm);
      }
      SumSame(Timing(g), AtSpeed(g.speedFn.value), es);
    }
  }

  /** Minutes: sixty times the hours, or by the fallback speed where there is length but
      no time. */
  ghost predicate Takes(g: Guide, es: seq<Edge>, fallbackSpeedKmH: real, minutes: real) {
    if Sum(Timing(g), es) == 0.0 && Sum(Km, es) > 0.0
    then minutes / 60.0 * (if fallbackSpeedKmH <= 0.0 then 40.0 else fallbackSpeedKmH) == Sum(Km, es)
    else minutes == 60.0 * Sum(Timing(g), es)
  }

  /** Where no length is negative the fallback speed never counts. */
  ghost predicate TakesUsually(g: Guide, es: seq<Edge>, minutes: real) {
    NonnegativeLengths(es) ==>
      && minutes == 60.0 * Sum(Timing(g), es)
      && (StoredTimes(g, es) ==> minutes == 60.0 * Sum(StoredHours, es))
      && (Overridden(g, es) ==> minutes == 60.0 * Sum(AtSpeed(g.speedFn.value), es))
  }

  lemma TakesExactly(g: Guide, es: seq<Edge>, fallbackSpeedKmH: real, minutes: real)
    requires Takes(g, es, fallbackSpeedKmH, minutes)
    ensures TakesUsually(g, es, minutes)
  {
    TimingExact(g, es);
    if NonnegativeLengths(es) {
      NoTimeNoLength(g, es);
    }
  }

  lemma FallbackHours(km: real, speed: real, hours: real)
    requires speed > 0.0 && hours == km / speed
    ensures hours * 60.0 / 60.0 * speed == km
  {
    assert hours * 60.0 / 60.0 == hours;
  }

  lemma LegTakes(g: Guide, es: seq<Edge>, fallbackSpeedKmH: real, km: real, timed: real, hours: real, minutes: real)
    requires km == Sum(Km, es) && timed == Sum(Timing(g), es) && minutes == hours * 60.0
    requires hours == if timed == 0.0 && km > 0.0
                      then km / (if fallbackSpeedKmH <= 0.0 then DEFAULT_SPEED_KMH else fallbackSpeedKmH) else timed
    ensures Takes(g, es, fallbackSpeedKmH, minutes) && TakesUsually(g, es, minutes)
  {
    if timed == 0.0 && km > 0.0 {
      FallbackHours(km, if fallbackSpeedKmH <= 0.0 then DEFAULT_SPEED_KMH else fallbackSpeedKmH, hours);
    }
    TakesExactly(g, es, fallbackSpeedKmH, minutes);
  }

  /** Length and minutes of the edges from one maneuver's node to the next one's. */
  method InstructionLeg(p: PathResult, fromNode: nat, toNode: nat, g: Guide, fallbackSpeedKmH: real)
    returns (km: real, minutes: real)
    requires fromNode <= |p.edges|
    ensures toNode <= fromNode || p.edges == [] ==> km == 0.0 && minutes == 0.0
    ensures fromNode < toNode && p.edges != [] ==>
              var es := p.edges[fromNode..if toNode > |p.edges| then |p.edges| else toNode];
              km == Sum(Km, es) && Takes(g, es, fallbackSpeedKmH, minutes) && TakesUsually(g, es, minutes)
  {
    if toNode <= fromNode || |p.edges| == 0 {
      return 0.0, 0.0;
    }
    var to := if toNode > |p.edges| then |p.edges| else toNode;
    var hours := 0.0;
    km := 0.0;
    for i := fromNode to to
      invariant km == Sum(Km, p.edges[fromNode..i]) && hours == Sum(Timing(g), p.edges[fromNode..i])
    {
      var edge := p.edges[i];
      SumSlice(Km, p.edges, fromNode, i);
      SumSlice(Timing(g), p.edges, fromNode, i);
      km := km + edge.distanceKm;
      hours := hours + EdgeTravelTimeHours(edge, g.speedFn);
    }
    ghost var timed := hours;
    if hours == 0.0 && km > 0.0 {
      hours := km / (if fallbackSpeedKmH <= 0.0 then DEFAULT_SPEED_KMH else fallbackSpeedKmH);
    }
    minutes := hours * 60.0;
    LegTakes(g, p.edges[fromNode..to], fallbackSpeedKmH, km, timed, hours, minutes);
  }

  function TotalKm(out: seq<Instruction>): real {
    if out == [] then 0.0 else TotalKm(out[..|out| - 1]) + out[|out| - 1].distanceKm
  }

  function TotalMin(out: seq<Instruction>): real {
    if out == [] then 0.0 else TotalMin(out[..|out| - 1]) + out[|out| - 1].durationMin
  }

  /** Node where the leg of maneuver i ends: the next maneuver's, or its own at the end. */
  function NextManeuverNode(ms: seq<Maneuver>, i: nat): nat
    requires i < |ms|
  {
    if i + 1 >= |ms| then ms[i].nodeIndex else ms[i + 1].nodeIndex
  }

  /** Instruction i tells maneuver i and covers the edges up to the next one. */
  ghost predicate Tells(p: PathResult, ms: seq<Maneuver>, g: Guide, i: nat, inst: Instruction)
    requires i < |ms|
  {
    var from, to := ms[i].nodeIndex, NextManeuverNode(ms, i);
    && inst.index == i && inst.kind == ms[i].kind && inst.modifier == ms[i].modifier && inst.street == ms[i].street
    && from <= to <= |p.edges|
    && inst.distanceKm == Sum(Km, p.edges[from..to])
    && (NonnegativeLengths(p.edges) ==> inst.durationMin == 60.0 * Sum(Timing(g), p.edges[from..to]))
    && inst.location == if ms[i].kind == Arrive then AtEnd else if i == 0 then AtStart
                        else if ms[i].nodeIndex < |p.nodes| then AtNode(p.nodes[ms[i].nodeIndex]) else AtEnd
  }

  /** The instructions of a path tell its cuts one by one, and their legs add up to the
      path's length and sixty times its hours. */
  ghost predicate Conserves(p: PathResult, g: Guide, out: seq<Instruction>) {
    && TotalKm(out) == Sum(Km, p.edges)
    && (NonnegativeLengths(p.edges) ==>
          && TotalMin(out) == 60.0 * Sum(Timing(g), p.edges)
          && (StoredTimes(g, p.edges) ==> TotalMin(out) == 60.0 * Sum(StoredHours, p.edges))
          && (Overridden(g, p.edges) ==> TotalMin(out) == 60.0 * Sum(AtSpeed(g.speedFn.value), p.edges)))
  }

  lemma LegExtends(p: PathResult, f: Edge -> real, from: nat, to: nat)
    requires from <= to <= |p.edges|
    ensures Sum(f, p.edges[..to]) == Sum(f, p.edges[..from]) + Sum(f, p.edges[from..to])
  {
    assert p.edges[..to] == p.edges[..from] + p.edges[from..to];
    SumConcat(f, p.edges[..from], p.edges[from..to]);
  }

  /** Leg i - 1 ends where leg i starts, and the last but one at the last edge. */
  lemma LegEnds(p: PathResult, ms: seq<Maneuver>, i: nat)
    requires Shaped(p) && Cuts(p, ms) && 1 <= i <= |ms|
    ensures NextManeuverNode(ms, i - 1) == if i < |ms| then ms[i].nodeIndex else |p.edges|
  {
  }

  /** The first i legs cover exactly the edges before maneuver i. */
  lemma {:induction false} LegsCover(p: PathResult, ms: seq<Maneuver>, g: Guide, out: seq<Instruction>, i: nat)
    requires Shaped(p) && Cuts(p, ms) && |out| == |ms| && i <= |ms|
    requires forall a :: 0 <= a < |ms| ==> Tells(p, ms, g, a, out[a])
    ensures var at := if i < |ms| then ms[i].nodeIndex else |p.edges|;
            && at <= |p.edges|
            && TotalKm(out[..i]) == Sum(Km, p.edges[..at])
            && (NonnegativeLengths(p.edges) ==> TotalMin(out[..i]) == 60.0 * Sum(Timing(g), p.edges[..at]))
    decreases i
  {
    if i == 0 {
      assert p.edges[..0] == [];
    } else {
      LegsCover(p, ms, g, out, i - 1);
      assert Tells(p, ms, g, i - 1, out[i - 1]);
      assert out[..i][..i - 1] == out[..i - 1];
      var from, to := ms[i - 1].nodeIndex, NextManeuverNode(ms, i - 1);
      LegExtends(p, Km, from, to);
      LegExtends(p, Timing(g), from, to);
      LegEnds(p, ms, i);
    }
  }

  lemma AllConserve(p: PathResult, ms: seq<Maneuver>, g: Guide, out: seq<Instruction>)
    requires Shaped(p) && Cuts(p, ms) && |out| == |ms|
    requires forall a :: 0 <= a < |ms| ==> Tells(p, ms, g, a, out[a])
    ensures Conserves(p, g, out)
  {
    LegsCover(p, ms, g, out, |ms|);
    TimingExact(g, p.edges);
    assert out[..|ms|] == out && p.edges[..|p.edges|] == p.edges;
  }

  ghost predicate Tellable(p: PathResult, ms: seq<Maneuver>) {
    forall i :: 0 <= i < |ms| ==>
      ms[i].nodeIndex <= NextManeuverNode(ms, i) <= |p.edges| && ms[i].nodeIndex < |p.nodes|
  }

  lemma CutsTellable(p: PathResult, ms: seq<Maneuver>)
    requires Shaped(p) && Cuts(p, ms)
    ensures Tellable(p, ms)
  {
    forall i | 0 <= i < |ms|
      ensures ms[i].nodeIndex <= NextManeuverNode(ms, i) <= |p.edges| && ms[i].nodeIndex < |p.nodes|
    {
      assert i < |ms| - 1 ==> ms[i].nodeIndex < ms[|ms| - 1].nodeIndex;
      assert i + 1 < |ms| - 1 ==> ms[i + 1].nodeIndex < ms[|ms| - 1].nodeIndex;
    }
  }

  lemma LegFacts(p: PathResult, g: Guide, from: nat, to: nat)
    requires from <= to <= |p.edges|
    ensures from == to ==> Sum(Km, p.edges[from..to]) == 0.0 && Sum(Timing(g), p.edges[from..to]) == 0.0
    ensures NonnegativeLengths(p.edges) ==> NonnegativeLengths(p.edges[from..to])
  {
    if from == to {
      assert p.edges[from..to] == [];
    }
  }

  method TellManeuver(p: PathResult, ms: seq<Maneuver>, g: Guide, fallbackSpeedKmH: real,
                      i: nat) returns (inst: Instruction)
    requires i < |ms| && Tellable(p, ms)
    ensures Tells(p, ms, g, i, inst)
  {
    var m := ms[i];
    var to := NextManeuverNode(ms, i);
    var location := AtNode(p.nodes[m.nodeIndex]);
    if i == 0 {
      location := AtStart;
    }
    if m.kind == Arrive {
      location := AtEnd;
    }
    var km, minutes := InstructionLeg(p, m.nodeIndex, to, g, fallbackSpeedKmH);
    LegFacts(p, g, m.nodeIndex, to);
    inst := Instruction(i, m.kind, m.modifier, km, minutes, location, m.street);
  }

  method TellAll(p: PathResult, ms: seq<Maneuver>, g: Guide, fallbackSpeedKmH: real) returns (out: seq<Instruction>)
    requires Tellable(p, ms)
    ensures |out| == |ms| && forall i :: 0 <= i < |ms| ==> Tells(p, ms, g, i, out[i])
  {
    out := [];
    for i := 0 to |ms|
      invariant |out| == i && forall a :: 0 <= a < i ==> Tells(p, ms, g, a, out[a])
    {
      var inst := TellManeuver(p, ms, g, fallbackSpeedKmH, i);
      out := out + [inst];
    }
  }

  lemma SingleNodeConserves(p: PathResult, g: Guide, ms: seq<Maneuver>, out: seq<Instruction>)
    requires p.edges == [] && |ms| == |out| == 2 && ms[0].nodeIndex == ms[1].nodeIndex == 0
    requires Tells(p, ms, g, 0, out[0]) && Tells(p, ms, g, 1, out[1])
    ensures Conserves(p, g, out)
  {
    assert out[..1][..0] == [];
    assert TotalKm([]) == 0.0 && TotalMin([]) == 0.0;
    assert TotalKm(out[..1]) == out[0].distanceKm && TotalMin(out[..1]) == out[0].durationMin;
    assert p.edges[0..0] == [];
    TimingExact(g, p.edges);
    assert NonnegativeLengths(p.edges);
  }

  lemma TwoKept(ms: seq<Maneuver>)
    requires |ms| == 2 && ms[0].kind == Depart && ms[1].kind == Arrive
    ensures Collapse(ms) == ms
  {
    assert ms[..1][..0] == [];
    assert Collapse([]) == [];
    assert Collapse(ms[..1]) == [ms[0]];
  }

  /** Turn-by-turn instructions of a path; a path without nodes only arrives. */
  method BuildInstructions(p: PathResult, g: Guide, fallbackSpeedKmH: real)
    returns (out: seq<Instruction>, ghost ms: seq<Maneuver>)
    requires p.nodes == [] || Shaped(p)
    ensures p.nodes == [] ==> out == [Instruction(0, Arrive, "straight", 0.0, 0.0, AtEnd, "")]
    ensures |p.nodes| >= 2 ==> Shaped(p) && ms == Collapse(Maneuvers(p, g)) && Cuts(p, ms) && NoDoubleContinue(ms)
    ensures |p.nodes| >= 2 ==> Guides(p, g, ms)
    ensures p.nodes != [] ==> |out| == |ms| && forall i :: 0 <= i < |ms| ==> Tells(p, ms, g, i, out[i])
    ensures p.nodes != [] ==> Conserves(p, g, out)
  {
    if p.nodes == [] {
      ms := [];
      return [Instruction(0, Arrive, "straight", 0.0, 0.0, AtEnd, "")], ms;
    }
    if |p.nodes| == 1 {
      var two := [Maneuver(0, Depart, "straight", StreetName(p, 0, g)), Maneuver(0, Arrive, "straight", "")];
      TwoKept(two);
      two := CollapseContinues(two);
      ms := two;
      out := TellAll(p, two, g, fallbackSpeedKmH);
      SingleNodeConserves(p, g, ms, out);
      return;
    }
    var found := FindManeuvers(p, g);
    ManeuversCut(p, g);
    CollapseKeepsCuts(p, found);
    CollapsedGuides(p, g, found);
    var maneuvers := CollapseContinues(found);
    ms := maneuvers;
    CutsTellable(p, ms);
    out := TellAll(p, maneuvers, g, fallbackSpeedKmH);
    AllConserve(p, ms, g, out);
  }
}
