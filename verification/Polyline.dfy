/** The two polyline codecs as loops over a builder and an index, and the stitcher. */
module Polyline {
  import opened Wrappers
  import opened Words
  import opened PolylineCodec
  import opened RoadNetwork

  const PRECISION := 100000.0

  /** Rounds half away from zero. */
  function Round(x: real): int {
    if x >= 0.0 then (x + 0.5).Floor else -((-x + 0.5).Floor)
  }

  function ToFixed(c: Place): Fixed {
    Fixed(Round(c.lat * PRECISION), Round(c.lng * PRECISION))
  }

  function FromFixed(f: Fixed): Place {
    Place(f.lat as real / PRECISION, f.lng as real / PRECISION)
  }

  function ToFixedAll(cs: seq<Place>): (r: seq<Fixed>)
    ensures |r| == |cs| && forall i :: 0 <= i < |cs| ==> r[i] == ToFixed(cs[i])
  {
    seq(|cs|, i requires 0 <= i < |cs| => ToFixed(cs[i]))
  }

  function FromFixedAll(fs: seq<Fixed>): (r: seq<Place>)
    ensures |r| == |fs| && forall i :: 0 <= i < |fs| ==> r[i] == FromFixed(fs[i])
  {
    seq(|fs|, i requires 0 <= i < |fs| => FromFixed(fs[i]))
  }

  lemma RoundWhole(n: int)
    ensures Round(n as real / PRECISION * PRECISION) == n
  {
    assert n as real / PRECISION * PRECISION == n as real;
    assert (n as real + 0.5).Floor == n;
    assert (-(n as real) + 0.5).Floor == -n;
  }

  lemma FixedExact(f: Fixed)
    ensures ToFixed(FromFixed(f)) == f
  {
    RoundWhole(f.lat);
    RoundWhole(f.lng);
  }

  lemma FixedExactAll(fs: seq<Fixed>)
    ensures ToFixedAll(FromFixedAll(fs)) == fs
  {
    forall i | 0 <= i < |fs|
      ensures ToFixedAll(FromFixedAll(fs))[i] == fs[i]
    {
      FixedExact(fs[i]);
    }
  }

  /** The nearest whole number, and of two the one farther from zero. */
  lemma RoundNear(x: real)
    ensures x >= 0.0 ==> Round(x) as real - 0.5 <= x < Round(x) as real + 0.5
    ensures x <= 0.0 ==> Round(x) as real - 0.5 < x <= Round(x) as real + 0.5
  {
  }

  /** Rounding moves a coordinate by at most half a unit. */
  lemma FixedNear(c: Place)
    ensures -0.000005 <= FromFixed(ToFixed(c)).lat - c.lat <= 0.000005
    ensures -0.000005 <= FromFixed(ToFixed(c)).lng - c.lng <= 0.000005
  {
    RoundNear(c.lat * PRECISION);
    RoundNear(c.lng * PRECISION);
  }

  // ----- the unit of the format: a hundred thousandth of a degree -----

  ghost predicate Rounded(c: Place, f: Fixed) {
    && -0.5 <= f.lat as real - 100000.0 * c.lat <= 0.5
    && -0.5 <= f.lng as real - 100000.0 * c.lng <= 0.5
  }

  ghost predicate InUnits(c: Place, f: Fixed) {
    c.lat * 100000.0 == f.lat as real && c.lng * 100000.0 == f.lng as real
  }

  lemma WrittenUnits(c: Place)
    ensures Rounded(c, ToFixed(c))
  {
    RoundNear(c.lat * PRECISION);
    RoundNear(c.lng * PRECISION);
  }

  lemma ReadUnits(f: Fixed)
    ensures InUnits(FromFixed(f), f)
  {
  }

  ghost predicate AllRounded(cs: seq<Place>, fs: seq<Fixed>) {
    |fs| == |cs| && forall i :: 0 <= i < |cs| ==> Rounded(cs[i], fs[i])
  }

  ghost predicate AllInUnits(cs: seq<Place>, fs: seq<Fixed>) {
    |fs| == |cs| && forall i :: 0 <= i < |cs| ==> InUnits(cs[i], fs[i])
  }

  lemma AllWrittenUnits(cs: seq<Place>)
    ensures AllRounded(cs, ToFixedAll(cs))
  {
    forall i | 0 <= i < |cs|
      ensures Rounded(cs[i], ToFixedAll(cs)[i])
    {
      WrittenUnits(cs[i]);
    }
  }

  lemma AllReadUnits(fs: seq<Fixed>)
    ensures AllInUnits(FromFixedAll(fs), fs)
  {
    forall i | 0 <= i < |fs|
      ensures InUnits(FromFixedAll(fs)[i], fs[i])
    {
      ReadUnits(fs[i]);
    }
  }

  /** Places of the globe are written as legal points. */
  lemma GlobeIsLegal(c: Place)
    requires OnGlobe(c)
    ensures LegalPoint(ToFixed(c))
  {
    WrittenUnits(c);
  }

  /** So their text is printable, short and read back by the routing decoder. */
  lemma GlobeText(cs: seq<Place>)
    requires forall i :: 0 <= i < |cs| ==> OnGlobe(cs[i])
    ensures var buf := EncodeFrom(ToFixedAll(cs), ORIGIN);
            && Printable(buf) && |buf| <= 12 * |cs|
            && DecodeFrom(buf, ORIGIN, true) == Some(ToFixedAll(cs))
  {
    forall i | 0 <= i < |cs|
      ensures LegalPoint(ToFixedAll(cs)[i])
    {
      GlobeIsLegal(cs[i]);
    }
    LegalRoundTrip(ToFixedAll(cs));
    LegalTextShort(ToFixedAll(cs), ORIGIN);
  }

  /** The numbers written are the rounded coordinates; for places of the globe the text is
      printable, short and read back. */
  ghost predicate TextOf(cs: seq<Place>, buf: seq<Byte>) {
    && AllRounded(cs, ToFixedAll(cs))
    && ((forall i :: 0 <= i < |cs| ==> OnGlobe(cs[i])) ==>
          Printable(buf) && |buf| <= 12 * |cs| && DecodeFrom(buf, ORIGIN, true) == Some(ToFixedAll(cs)))
  }

  lemma WrittenText(cs: seq<Place>)
    ensures TextOf(cs, EncodeFrom(ToFixedAll(cs), ORIGIN))
  {
    AllWrittenUnits(cs);
    if forall i :: 0 <= i < |cs| ==> OnGlobe(cs[i]) {
      GlobeText(cs);
    }
  }

  /** The text of one place, byte by byte: "_p~iF~ps|U" is 38.5 north, 120.2 west. */
  lemma KnownText()
    ensures var text := [95, 112, 126, 105, 70, 126, 112, 115, 124, 85];
            && EncodeFrom([ToFixed(Place(38.5, -120.2))], ORIGIN) == text
            && DecodeFrom(text, ORIGIN, true) == DecodeFrom(text, ORIGIN, false)
            && DecodeFrom(text, ORIGIN, true).Some?
            && FromFixedAll(DecodeFrom(text, ORIGIN, true).value) == [Place(38.5, -120.2)]
  {
    var p := Fixed(3850000, -12020000);
    ReadUnits(p);
    FixedExact(p);
    assert FromFixed(p) == Place(38.5, -120.2);
    KnownChunks();
    assert [p][1..] == [];
    assert EncodeFrom([p], ORIGIN) == Chunk(Delta(3850000, 0)) + Chunk(Delta(-12020000, 0)) + [];
    GlobeText([Place(38.5, -120.2)]);
    assert ToFixedAll([Place(38.5, -120.2)]) == [p];
    DecodersAgree(EncodeFrom([p], ORIGIN), ORIGIN);
  }

  // ----- encoding, the same in both codecs -----

  method EncodeChunk(buf: seq<Byte>, value: int) returns (r: seq<Byte>)
    ensures r == buf + Chunk(value)
  {
    r := buf;
    var v := Signed(value * 2);
    if v < 0 {
      v := -v - 1;
    }
    while v >= CONTINUE
      invariant v >= 0
      invariant r + Groups(v) == buf + Chunk(value)
    {
      r := r + [CONTINUE + v % 32 + OFFSET];
      v := v / 32;
    }
    r := r + [v + OFFSET];
  }

  lemma EncodeHead(fixed: seq<Fixed>, i: nat, prev: Fixed, buf: seq<Byte>)
    requires i < |fixed|
    ensures buf + EncodeFrom(fixed[i..], prev)
            == buf + Chunk(Delta(fixed[i].lat, prev.lat)) + Chunk(Delta(fixed[i].lng, prev.lng))
               + EncodeFrom(fixed[i + 1..], fixed[i])
  {
    assert fixed[i..][0] == fixed[i] && fixed[i..][1..] == fixed[i + 1..];
    var a, b := Chunk(Delta(fixed[i].lat, prev.lat)), Chunk(Delta(fixed[i].lng, prev.lng));
    var r := EncodeFrom(fixed[i + 1..], fixed[i]);
    assert EncodeFrom(fixed[i..], prev) == a + b + r;
    assert buf + (a + b + r) == buf + a + b + r;
  }

  method EncodePolyline(points: seq<Place>) returns (buf: seq<Byte>)
    ensures buf == EncodeFrom(ToFixedAll(points), ORIGIN) && TextOf(points, buf)
  {
    WrittenText(points);
    buf := [];
    ghost var fixed := ToFixedAll(points);
    var prev := ORIGIN;
    assert fixed[0..] == fixed;
    for i := 0 to |points|
      invariant buf + EncodeFrom(fixed[i..], prev) == EncodeFrom(fixed, ORIGIN)
    {
      var p := ToFixed(points[i]);
      EncodeHead(fixed, i, prev, buf);
      var dLat, dLng := Signed(p.lat - prev.lat), Signed(p.lng - prev.lng);
      assert dLat == Delta(fixed[i].lat, prev.lat) && dLng == Delta(fixed[i].lng, prev.lng);
      buf := EncodeChunk(buf, dLat);
      buf := EncodeChunk(buf, dLng);
      prev := p;
    }
    assert buf + [] == buf;
  }

  // ----- decoding -----

  /** Adds the low part already read, below the rest scaled by p. */
  function Scaled(low: nat, p: nat, r: Option<Read>): Option<Read> {
    match r
    case None => None
    case Some(x) => Some(Read(low + p * x.value, x.rest))
  }

  lemma ScaleStep(low: nat, p: nat, b: nat, x: nat)
    ensures low + p * (b + 32 * x) == low + p * b + 32 * p * x
  {
  }

  /** The bits read so far stay below the shift, so the loop's bitwise or is a sum. */
  lemma LowStaysLow(low: nat, p: nat, b: nat)
    requires low < p && b < 32
    ensures low + p * b < 32 * p
  {
  }

  lemma SuffixStep(s: seq<Byte>, i: nat)
    requires i < |s|
    ensures s[i..] != [] && s[i..][0] == s[i] && s[i..][1..] == s[i + 1..]
  {
  }

  /** One byte read: `more` is what has been read with it. */
  lemma OnStep(here: seq<Byte>, low: nat, p: nat, more: int)
    requires here != [] && low < p && more == low + p * Payload(here[0])
    ensures 0 <= more < 32 * p
    ensures Scaled(low, p, ReadOn(here)) ==
      if !Continues(here[0]) then Some(Read(more, here[1..])) else Scaled(more, 32 * p, ReadOn(here[1..]))
  {
    LowStaysLow(low, p, Payload(here[0]));
    if ReadOn(here[1..]).Some? {
      ScaleStep(low, p, Payload(here[0]), ReadOn(here[1..]).value.value);
    }
  }

  lemma GuardedStep(here: seq<Byte>, k: nat, low: nat, p: nat, more: int)
    requires here != [] && low < p && more == low + p * Payload(here[0])
    ensures 0 <= more < 32 * p
    ensures Scaled(low, p, ReadGuarded(here, k)) ==
      if !Continues(here[0]) then Some(Read(more, here[1..]))
      else if 5 * (k + 1) > 30 then None
      else Scaled(more, 32 * p, ReadGuarded(here[1..], k + 1))
  {
    LowStaysLow(low, p, Payload(here[0]));
    if ReadGuarded(here[1..], k + 1).Some? {
      ScaleStep(low, p, Payload(here[0]), ReadGuarded(here[1..], k + 1).value.value);
    }
  }

  /** The routing decoder's loop; index points at the next byte, 2^shift is kept as p. */
  method DecodeChunkGuarded(s: seq<Byte>, index: nat) returns (v: int, ok: bool, next: nat)
    requires index <= |s|
    ensures match ReadGuarded(s[index..], 0)
            case None => !ok
            case Some(r) => ok && v == UnfoldAfter(r.value) && next <= |s| && s[next..] == r.rest
  {
    v, ok, next := 0, false, index;
    var result, shift, p := 0, 0, 1;
    ghost var k := 0;
    while true
      invariant index <= next <= |s| && shift == 5 * k
      invariant 0 <= result < p
      invariant ReadGuarded(s[index..], 0) == Scaled(result, p, ReadGuarded(s[next..], k))
      decreases |s| - next
    {
      if next >= |s| {
        return;
      }
      SuffixStep(s, next);
      var b := s[next] - OFFSET;
      var more := result + p * (b % 32);
      GuardedStep(s[next..], k, result, p, more);
      next := next + 1;
      result := more;
      shift := shift + 5;
      k := k + 1;
      p := 32 * p;
      if b < CONTINUE {
        break;
      }
      if shift > 30 {
        return;
      }
    }
    ok := true;
    v := if result % 2 != 0 then -(result / 2) - 1 else result / 2;
  }

  /** The utility decoder's loop; ok is false where the original would panic. The bits
      shifted out of the word are lost. */
  method DecodeChunkOn(s: seq<Byte>, index: nat) returns (v: int, ok: bool, next: nat)
    requires index <= |s|
    ensures match ReadOn(s[index..])
            case None => !ok
            case Some(r) => ok && v == UnfoldBefore(r.value) && next <= |s| && s[next..] == r.rest
  {
    v, ok, next := 0, false, index;
    var result, p := 0, 1;
    ghost var read := 0;
    while true
      invariant index <= next <= |s| && 0 <= read < p && result == Signed(read)
      invariant ReadOn(s[index..]) == Scaled(read, p, ReadOn(s[next..]))
      decreases |s| - next
    {
      if next >= |s| {
        return;
      }
      SuffixStep(s, next);
      var b := s[next] - OFFSET;
      var bits := p * (b % 32);
      OnStep(s[next..], read, p, read + bits);
      SignedAdd(read, bits);
      next := next + 1;
      read := read + bits;
      result := Signed(result + bits);
      p := 32 * p;
      if b < CONTINUE {
        break;
      }
    }
    ok := true;
    var inverted := if result % 2 != 0 then -result - 1 else result;
    v := inverted / 2;
  }

  function Prefixed(done: seq<Fixed>, r: Option<seq<Fixed>>): Option<seq<Fixed>> {
    match r
    case None => None
    case Some(ps) => Some(done + ps)
  }

  lemma NothingPrefixed(r: Option<seq<Fixed>>)
    ensures Prefixed([], r) == r
  {
    if r.Some? {
      assert [] + r.value == r.value;
    }
  }

  lemma DecodePoint(s: seq<Byte>, prev: Fixed, guarded: bool, done: seq<Fixed>, p: Fixed, a: Read, b: Read)
    requires s != [] && ShorterRead(s, guarded) == Some(a) && ShorterRead(a.rest, guarded) == Some(b)
    requires p == Moved(prev, a.value, b.value, guarded)
    ensures Prefixed(done, DecodeFrom(s, prev, guarded)) == Prefixed(done + [p], DecodeFrom(b.rest, p, guarded))
  {
    DecodeStep(s, prev, guarded, a, b);
    if DecodeFrom(b.rest, p, guarded).Some? {
      assert done + ([p] + DecodeFrom(b.rest, p, guarded).value) == done + [p] + DecodeFrom(b.rest, p, guarded).value;
    }
  }

  lemma FromFixedSnoc(done: seq<Fixed>, p: Fixed)
    ensures FromFixedAll(done + [p]) == FromFixedAll(done) + [FromFixed(p)]
  {
  }

  lemma DecodedUnits(s: seq<Byte>, guarded: bool)
    ensures var r := DecodeFrom(s, ORIGIN, guarded); r.Some? ==> AllInUnits(FromFixedAll(r.value), r.value)
  {
    if DecodeFrom(s, ORIGIN, guarded).Some? {
      AllReadUnits(DecodeFrom(s, ORIGIN, guarded).value);
    }
  }

  /** The routing decoder: malformed text gives no points at all. */
  method DecodeGuarded(s: seq<Byte>) returns (points: seq<Place>)
    ensures points == match DecodeFrom(s, ORIGIN, true) case None => [] case Some(ps) => FromFixedAll(ps)
    ensures DecodeFrom(s, ORIGIN, true).Some? ==> AllInUnits(points, DecodeFrom(s, ORIGIN, true).value)
  {
    points := [];
    var index, lat, lng := 0, 0, 0;
    ghost var done: seq<Fixed> := [];
    assert s[0..] == s;
    NothingPrefixed(DecodeFrom(s, ORIGIN, true));
    DecodedUnits(s, true);
    while index < |s|
      invariant index <= |s| && points == FromFixedAll(done)
      invariant DecodeFrom(s, ORIGIN, true) == Prefixed(done, DecodeFrom(s[index..], Fixed(lat, lng), true))
      decreases |s| - index
    {
      ghost var here := s[index..];
      ghost var prev := Fixed(lat, lng);
      ReadShrinks(here, 0);
      var dLat, ok, next := DecodeChunkGuarded(s, index);
      if !ok {
        assert ShorterRead(here, true) == None;
        return [];
      }
      ghost var a := ReadGuarded(here, 0).value;
      ReadShrinks(a.rest, 0);
      var dLng, ok', next' := DecodeChunkGuarded(s, next);
      if !ok' {
        assert ShorterRead(a.rest, true) == None;
        return [];
      }
      ghost var b := ReadGuarded(a.rest, 0).value;
      assert |s[next'..]| < |here|;
      index, lat, lng := next', Signed(lat + dLat), Signed(lng + dLng);
      points := points + [FromFixed(Fixed(lat, lng))];
      DecodePoint(here, prev, true, done, Fixed(lat, lng), a, b);
      FromFixedSnoc(done, Fixed(lat, lng));
      done := done + [Fixed(lat, lng)];
    }
    assert done + [] == done;
  }

  /** The utility decoder; None where the original would run past the end. */
  method DecodeOn(s: seq<Byte>) returns (r: Option<seq<Place>>)
    ensures r == match DecodeFrom(s, ORIGIN, false) case None => None case Some(ps) => Some(FromFixedAll(ps))
    ensures r.Some? ==> AllInUnits(r.value, DecodeFrom(s, ORIGIN, false).value)
  {
    var points := [];
    var index, lat, lng := 0, 0, 0;
    ghost var done: seq<Fixed> := [];
    assert s[0..] == s;
    NothingPrefixed(DecodeFrom(s, ORIGIN, false));
    DecodedUnits(s, false);
    while index < |s|
      invariant index <= |s| && points == FromFixedAll(done)
      invariant DecodeFrom(s, ORIGIN, false) == Prefixed(done, DecodeFrom(s[index..], Fixed(lat, lng), false))
      decreases |s| - index
    {
      ghost var here := s[index..];
      ghost var prev := Fixed(lat, lng);
      ReadShrinks(here, 0);
      var dLat, ok, next := DecodeChunkOn(s, index);
      if !ok {
        assert ShorterRead(here, false) == None;
        return None;
      }
      ghost var a := ReadOn(here).value;
      ReadShrinks(a.rest, 0);
      var dLng, ok', next' := DecodeChunkOn(s, next);
      if !ok' {
        assert ShorterRead(a.rest, false) == None;
        return None;
      }
      ghost var b := ReadOn(a.rest).value;
      assert |s[next'..]| < |here|;
      index, lat, lng := next', Signed(lat + dLat), Signed(lng + dLng);
      points := points + [FromFixed(Fixed(lat, lng))];
      DecodePoint(here, prev, false, done, Fixed(lat, lng), a, b);
      FromFixedSnoc(done, Fixed(lat, lng));
      done := done + [Fixed(lat, lng)];
    }
    assert done + [] == done;
    r := Some(points);
  }

  // ----- stitching -----

  function Append(all: seq<Fixed>, p: seq<Fixed>): seq<Fixed> {
    if p == [] then all else if all == [] then p else all + p[1..]
  }

  /** Leg after leg, dropping the first point of every leg but the first nonempty one. */
  function Stitch(ps: seq<seq<Fixed>>): seq<Fixed> {
    if ps == [] then []
    else Append(Stitch(ps[..|ps| - 1]), ps[|ps| - 1])
  }

  /** The consecutive point pairs: the path a list of points draws. */
  function Segments(p: seq<Fixed>): seq<(Fixed, Fixed)> {
    if |p| <= 1 then [] else Segments(p[..|p| - 1]) + [(p[|p| - 2], p[|p| - 1])]
  }

  function AllSegments(ps: seq<seq<Fixed>>): seq<(Fixed, Fixed)> {
    if ps == [] then [] else AllSegments(ps[..|ps| - 1]) + Segments(ps[|ps| - 1])
  }

  function FirstPoint(ps: seq<seq<Fixed>>): Option<Fixed> {
    if ps == [] then None
    else if FirstPoint(ps[..|ps| - 1]).Some? then FirstPoint(ps[..|ps| - 1])
    else if ps[|ps| - 1] == [] then None else Some(ps[|ps| - 1][0])
  }

  function LastPoint(ps: seq<seq<Fixed>>): Option<Fixed> {
    if ps == [] then None
    else
      var p := ps[|ps| - 1];
      if p == [] then LastPoint(ps[..|ps| - 1]) else Some(p[|p| - 1])
  }

  /** Every nonempty leg starts where the nonempty leg before it ends. */
  predicate EndsMeet(ps: seq<seq<Fixed>>) {
    ps == [] || (var n := |ps| - 1;
                 && EndsMeet(ps[..n])
                 && (ps[n] == [] || LastPoint(ps[..n]).None? || LastPoint(ps[..n]).value == ps[n][0]))
  }

  lemma {:induction false} SegmentsJoin(a: seq<Fixed>, p: seq<Fixed>)
    requires a != [] && p != [] && a[|a| - 1] == p[0]
    ensures Segments(a + p[1..]) == Segments(a) + Segments(p)
    decreases |p|
  {
    var c := a + p[1..];
    if |p| == 1 {
      assert c == a;
    } else {
      var init := p[..|p| - 1];
      SegmentsJoin(a, init);
      assert c[..|c| - 1] == a + init[1..];
      assert c[|c| - 2] == p[|p| - 2];
    }
  }

  lemma {:induction false} NoFirstNoSegments(ps: seq<seq<Fixed>>)
    requires FirstPoint(ps).None?
    ensures AllSegments(ps) == []
  {
    if ps != [] {
      NoFirstNoSegments(ps[..|ps| - 1]);
    }
  }

  lemma AppendSegments(all: seq<Fixed>, p: seq<Fixed>)
    requires all != [] && p != [] ==> all[|all| - 1] == p[0]
    ensures Segments(Append(all, p)) == Segments(all) + Segments(p)
  {
    if p == [] {
      assert Segments(all) + [] == Segments(all);
    } else if all == [] {
      assert [] + Segments(p) == Segments(p);
    } else {
      SegmentsJoin(all, p);
    }
  }

  /** Stitching legs that meet draws exactly the legs' own segments in order, from the
      first point of the first nonempty leg to the last point of the last. */
  lemma {:induction false} StitchPreservesPath(ps: seq<seq<Fixed>>)
    requires EndsMeet(ps)
    ensures Segments(Stitch(ps)) == AllSegments(ps)
    ensures Stitch(ps) == [] <==> FirstPoint(ps).None?
    ensures Stitch(ps) == [] <==> LastPoint(ps).None?
    ensures Stitch(ps) != [] ==> Stitch(ps)[0] == FirstPoint(ps).value
                                 && Stitch(ps)[|Stitch(ps)| - 1] == LastPoint(ps).value
    decreases |ps|
  {
    if ps == [] {
    } else {
      var n := |ps| - 1;
      var all, p := Stitch(ps[..n]), ps[n];
      StitchPreservesPath(ps[..n]);
      AppendSegments(all, p);
      if all == [] {
        NoFirstNoSegments(ps[..n]);
      }
    }
  }

  ghost predicate AllDecode(legs: seq<seq<Byte>>, ps: seq<seq<Fixed>>) {
    |legs| == |ps| && forall i :: 0 <= i < |legs| ==> DecodeFrom(legs[i], ORIGIN, false) == Some(ps[i])
  }

  lemma AppendCoords(all: seq<Fixed>, p: seq<Fixed>)
    requires p != []
    ensures FromFixedAll(Append(all, p)) ==
            if all == [] then FromFixedAll(p) else FromFixedAll(all) + FromFixedAll(p)[1..]
  {
  }

  /** Decodes each leg, drops the junction duplicates and encodes the whole again. */
  method CombinePolylines(legs: seq<seq<Byte>>, ghost ps: seq<seq<Fixed>>) returns (r: Option<seq<Byte>>)
    ensures AllDecode(legs, ps) ==> r == Some(EncodeFrom(Stitch(ps), ORIGIN))
    ensures r.None? ==> exists i :: 0 <= i < |legs| && DecodeFrom(legs[i], ORIGIN, false).None?
  {
    var all := [];
    for i := 0 to |legs|
      invariant AllDecode(legs, ps) ==> all == FromFixedAll(Stitch(ps[..i]))
    {
      var pts := DecodeOn(legs[i]);
      if pts.None? {
        return None;
      }
      if AllDecode(legs, ps) {
        assert ps[..i + 1][..i] == ps[..i];
        assert pts.value == FromFixedAll(ps[i]);
        if ps[i] != [] {
          AppendCoords(Stitch(ps[..i]), ps[i]);
        }
      }
      if pts.value == [] {
        continue;
      }
      if i > 0 && |all| > 0 {
        all := all + pts.value[1..];
      } else {
        all := pts.value;
      }
    }
    if AllDecode(legs, ps) {
      assert ps[..|legs|] == ps;
      FixedExactAll(Stitch(ps));
    }
    var buf := EncodePolyline(all);
    r := Some(buf);
  }

  lemma {:induction false} DeltasJoin(a: seq<Fixed>, b: seq<Fixed>, prev: Fixed)
    requires a != [] && DeltasShift(a, prev) && DeltasShift(b, a[|a| - 1])
    ensures DeltasShift(a + b, prev)
    decreases |a|
  {
    if |a| == 1 {
      assert (a + b)[1..] == b;
    } else {
      DeltasJoin(a[1..], b, a[0]);
      assert (a + b)[1..] == a[1..] + b;
    }
  }

  /** Legs that were decoded and meet can be encoded again as one. */
  lemma {:induction false} StitchedShifts(legs: seq<seq<Byte>>, ps: seq<seq<Fixed>>)
    requires AllDecode(legs, ps) && EndsMeet(ps)
    ensures PointsFit(Stitch(ps)) && DeltasShift(Stitch(ps), ORIGIN)
    decreases |ps|
  {
    if ps != [] {
      var n := |ps| - 1;
      var all, p := Stitch(ps[..n]), ps[n];
      assert AllDecode(legs[..n], ps[..n]);
      StitchedShifts(legs[..n], ps[..n]);
      StitchPreservesPath(ps[..n]);
      DecodedShifts(legs[n], ORIGIN);
      if all != [] && p != [] {
        DeltasJoin(all, p[1..], ORIGIN);
      }
    }
  }

  /** Decoding the combination of decoded legs that meet gives exactly their segments. */
  lemma CombinedDecodes(legs: seq<seq<Byte>>, ps: seq<seq<Fixed>>)
    requires AllDecode(legs, ps) && EndsMeet(ps)
    ensures DecodeFrom(EncodeFrom(Stitch(ps), ORIGIN), ORIGIN, false) == Some(Stitch(ps))
    ensures Segments(DecodeFrom(EncodeFrom(Stitch(ps), ORIGIN), ORIGIN, false).value) == AllSegments(ps)
  {
    StitchedShifts(legs, ps);
    UnguardedRoundTrip(Stitch(ps), ORIGIN);
    StitchPreservesPath(ps);
  }
}
