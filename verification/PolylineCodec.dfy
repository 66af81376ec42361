/** The encoded polyline format: signed deltas in units of 1e-5 degrees, folded to
    nonnegative numbers and written in groups of five bits, lowest first, each byte
    offset by 63 and every byte but the last marked with 32. Two decoders exist: the
    routing one gives up after seven bytes or at the end of the text, the utility one
    does neither. Integers are 64 bits wide. */
module PolylineCodec {
  import opened Wrappers
  import opened Words

  type Byte = b: int | 0 <= b < 256

  const OFFSET := 63
  const CONTINUE := 32

  /** A coordinate pair in units of 1e-5 degrees. */
  datatype Fixed = Fixed(lat: int, lng: int)

  // ----- one signed number -----

  /** Shift left and invert if negative. The shift loses the top bit. */
  function Fold(v: int): nat {
    var n := Signed(2 * v);
    if n < 0 then -n - 1 else n
  }

  function Groups(u: nat): (s: seq<Byte>)
    ensures s != []
  {
    if u >= CONTINUE then [CONTINUE + u % 32 + OFFSET] + Groups(u / 32) else [u + OFFSET]
  }

  function Chunk(v: int): seq<Byte> {
    Groups(Fold(v))
  }

  /** The five payload bits of a byte; two's complement makes this the remainder even
      for bytes below the offset. */
  function Payload(b: Byte): nat {
    (b - OFFSET) % 32
  }

  predicate Continues(b: Byte) {
    b - OFFSET >= CONTINUE
  }

  datatype Read = Read(value: nat, rest: seq<Byte>)

  /** The routing decoder, k bytes into a number: it fails at the end of the text and
      when a byte at shift 30 or beyond still asks for more. */
  function ReadGuarded(s: seq<Byte>, k: nat): Option<Read>
    decreases |s|
  {
    if s == [] then None
    else if !Continues(s[0]) then Some(Read(Payload(s[0]), s[1..]))
    else if 5 * (k + 1) > 30 then None
    else match ReadGuarded(s[1..], k + 1)
      case None => None
      case Some(r) => Some(Read(Payload(s[0]) + 32 * r.value, r.rest))
  }

  /** The utility decoder; None is its out-of-range panic. */
  function ReadOn(s: seq<Byte>): Option<Read>
    decreases |s|
  {
    if s == [] then None
    else if !Continues(s[0]) then Some(Read(Payload(s[0]), s[1..]))
    else match ReadOn(s[1..])
      case None => None
      case Some(r) => Some(Read(Payload(s[0]) + 32 * r.value, r.rest))
  }

  /** Halve, then invert; the routing decoder's numbers have 35 bits at most. */
  function UnfoldAfter(u: nat): int {
    if u % 2 != 0 then -(u / 2) - 1 else u / 2
  }

  /** Invert, then halve, whatever bits of the number a word still holds. */
  function UnfoldBefore(u: nat): int {
    var n := Signed(u);
    if n % 2 != 0 then (-n - 1) / 2 else n / 2
  }

  /** Below the sign bit the two orders give the same number. */
  lemma UnfoldsAgree(u: nat)
    requires u < HALF
    ensures UnfoldAfter(u) == UnfoldBefore(u)
  {
    SignedFits(u);
  }

  function Unfold(u: nat, guarded: bool): int {
    if guarded then UnfoldAfter(u) else UnfoldBefore(u)
  }

  /** The numbers whose shift loses nothing. */
  predicate FitsShift(v: int) {
    -0x4000_0000_0000_0000 <= v < 0x4000_0000_0000_0000
  }

  lemma UnfoldIsShort(u: nat)
    ensures FitsShift(UnfoldBefore(u))
  {
    SignedFits(u);
  }

  /** A machine integer is folded and unfolded to itself exactly when its shift loses
      nothing; otherwise it comes back half a word away. */
  lemma UnfoldFold(v: int)
    requires Fits(v)
    ensures Fold(v) < HALF && UnfoldAfter(Fold(v)) == UnfoldBefore(Fold(v))
    ensures UnfoldAfter(Fold(v)) == if FitsShift(v) then v else if v < 0 then v + HALF else v - HALF
  {
    SignedFits(2 * v);
    if FitsShift(v) {
    } else if v < 0 {
      SignedShift(2 * v + WORD, -1);
      SignedFits(2 * v + WORD);
    } else {
      SignedShift(2 * v - WORD, 1);
      SignedFits(2 * v - WORD);
    }
    UnfoldsAgree(Fold(v));
  }

  function Pow32(k: nat): nat {
    if k == 0 then 1 else 32 * Pow32(k - 1)
  }

  lemma {:induction false} PowAtLeast(n: nat)
    requires n >= 1
    ensures Pow32(n) >= 32
  {
    if n > 1 {
      PowAtLeast(n - 1);
    } else {
      assert Pow32(1) == 32 * Pow32(0);
    }
  }

  lemma {:induction false} GroupsLength(u: nat, n: nat)
    requires n >= 1
    ensures u < Pow32(n) <==> |Groups(u)| <= n
    decreases n
  {
    if n == 1 {
      assert Pow32(1) == 32 * Pow32(0) == 32;
    } else if u >= 32 {
      GroupsLength(u / 32, n - 1);
      assert Pow32(n) == 32 * Pow32(n - 1);
    } else {
      PowAtLeast(n);
    }
  }

  predicate Printable(s: seq<Byte>) {
    forall i :: 0 <= i < |s| ==> 63 <= s[i] <= 126
  }

  lemma {:induction false} GroupsPrintable(u: nat)
    ensures Printable(Groups(u))
  {
    if u >= 32 {
      GroupsPrintable(u / 32);
      var rest := Groups(u / 32);
      assert forall i :: 1 <= i < |Groups(u)| ==> Groups(u)[i] == rest[i - 1];
    }
  }

  lemma {:induction false} ReadOnGroups(u: nat, t: seq<Byte>)
    ensures ReadOn(Groups(u) + t) == Some(Read(u, t))
  {
    var s := Groups(u) + t;
    if u >= 32 {
      ReadOnGroups(u / 32, t);
      assert s[1..] == Groups(u / 32) + t;
    } else {
      assert s[1..] == t;
    }
  }

  /** The guard lets a number through exactly when it fits the bytes that are left. */
  lemma {:induction false} ReadGuardedGroups(u: nat, t: seq<Byte>, k: nat)
    requires k <= 6
    ensures ReadGuarded(Groups(u) + t, k) == if |Groups(u)| <= 7 - k then Some(Read(u, t)) else None
    decreases u
  {
    var s := Groups(u) + t;
    if u >= 32 {
      assert s[1..] == Groups(u / 32) + t;
      if k < 6 {
        ReadGuardedGroups(u / 32, t, k + 1);
      }
    } else {
      assert s[1..] == t;
    }
  }

  predicate FitsGuard(v: int) {
    -0x4_0000_0000 <= v < 0x4_0000_0000
  }

  lemma PowSeven()
    ensures Pow32(6) == 0x4000_0000 && Pow32(7) == 0x8_0000_0000
  {
    assert Pow32(1) == 32 * Pow32(0);
    assert Pow32(2) == 32 * Pow32(1);
    assert Pow32(3) == 32 * Pow32(2);
    assert Pow32(4) == 32 * Pow32(3);
    assert Pow32(5) == 32 * Pow32(4);
    assert Pow32(6) == 32 * Pow32(5);
    assert Pow32(7) == 32 * Pow32(6);
  }

  lemma FoldShort(v: int)
    requires FitsShift(v)
    ensures Fold(v) == if v < 0 then -2 * v - 1 else 2 * v
  {
    SignedFits(2 * v);
  }

  /** The routing decoder reads an encoded number back exactly when it is within 2^34;
      any other number whose shift loses nothing it rejects. */
  lemma ChunkRoundTrip(v: int, t: seq<Byte>)
    requires Fits(v)
    ensures FitsGuard(v) ==> ReadGuarded(Chunk(v) + t, 0) == Some(Read(Fold(v), t))
    ensures FitsShift(v) && !FitsGuard(v) ==> ReadGuarded(Chunk(v) + t, 0) == None
    ensures ReadGuarded(Chunk(v) + t, 0).None? || ReadGuarded(Chunk(v) + t, 0) == Some(Read(Fold(v), t))
  {
    ReadGuardedGroups(Fold(v), t, 0);
    GroupsLength(Fold(v), 7);
    PowSeven();
    if FitsShift(v) {
      FoldShort(v);
    }
  }

  /** Seven groups of five bits. */
  lemma {:induction false} ReadGuardedSmall(s: seq<Byte>, k: nat)
    requires k <= 6 && ReadGuarded(s, k).Some?
    ensures ReadGuarded(s, k).value.value < Pow32(7 - k)
    decreases |s|
  {
    PowAtLeast(7 - k);
    if Continues(s[0]) {
      ReadGuardedSmall(s[1..], k + 1);
      assert Pow32(7 - k) == 32 * Pow32(6 - k);
    }
  }

  lemma GuardedUnfolds(s: seq<Byte>)
    requires ReadGuarded(s, 0).Some?
    ensures var u := ReadGuarded(s, 0).value.value; UnfoldAfter(u) == UnfoldBefore(u)
  {
    ReadGuardedSmall(s, 0);
    PowSeven();
    UnfoldsAgree(ReadGuarded(s, 0).value.value);
  }

  // ----- lists of points -----

  /** The difference of two coordinates, as a machine integer. */
  function Delta(to: int, from: int): int {
    Signed(to - from)
  }

  function EncodeFrom(pts: seq<Fixed>, prev: Fixed): seq<Byte> {
    if pts == [] then []
    else Chunk(Delta(pts[0].lat, prev.lat)) + Chunk(Delta(pts[0].lng, prev.lng)) + EncodeFrom(pts[1..], pts[0])
  }

  lemma {:induction false} ReadShrinks(s: seq<Byte>, k: nat)
    ensures ReadOn(s).Some? ==> |ReadOn(s).value.rest| < |s|
    ensures ReadGuarded(s, k).Some? ==> |ReadGuarded(s, k).value.rest| < |s|
    decreases |s|
  {
    if s != [] {
      ReadShrinks(s[1..], k + 1);
    }
  }

  function ShorterRead(s: seq<Byte>, guarded: bool): (r: Option<Read>)
    ensures r.Some? ==> |r.value.rest| < |s|
  {
    ReadShrinks(s, 0);
    if guarded then ReadGuarded(s, 0) else ReadOn(s)
  }

  function Moved(prev: Fixed, a: nat, b: nat, guarded: bool): Fixed {
    Fixed(Signed(prev.lat + Unfold(a, guarded)), Signed(prev.lng + Unfold(b, guarded)))
  }

  /** Both decoders: deltas accumulate from prev; the two differ only in how they read a
      number and in which order they invert and halve. */
  function DecodeFrom(s: seq<Byte>, prev: Fixed, guarded: bool): Option<seq<Fixed>>
    decreases |s|
  {
    if s == [] then Some([])
    else match ShorterRead(s, guarded)
      case None => None
      case Some(a) =>
        match ShorterRead(a.rest, guarded)
        case None => None
        case Some(b) =>
          var p := Moved(prev, a.value, b.value, guarded);
          match DecodeFrom(b.rest, p, guarded)
          case None => None
          case Some(ps) => Some([p] + ps)
  }

  const ORIGIN := Fixed(0, 0)

  predicate PointFits(p: Fixed) {
    Fits(p.lat) && Fits(p.lng)
  }

  predicate PointsFit(pts: seq<Fixed>) {
    forall i :: 0 <= i < |pts| ==> PointFits(pts[i])
  }

  predicate StepShifts(p: Fixed, prev: Fixed) {
    FitsShift(Delta(p.lat, prev.lat)) && FitsShift(Delta(p.lng, prev.lng))
  }

  predicate StepFits(p: Fixed, prev: Fixed) {
    FitsGuard(Delta(p.lat, prev.lat)) && FitsGuard(Delta(p.lng, prev.lng))
  }

  /** Every delta between neighbours keeps its bits when shifted. */
  predicate DeltasShift(pts: seq<Fixed>, prev: Fixed) {
    pts == [] || (StepShifts(pts[0], prev) && DeltasShift(pts[1..], pts[0]))
  }

  /** Every delta between neighbours fits the guard. */
  predicate DeltasFit(pts: seq<Fixed>, prev: Fixed) {
    pts == [] || (StepFits(pts[0], prev) && DeltasFit(pts[1..], pts[0]))
  }

  /** Decoding one point off the front, by either decoder. */
  lemma DecodeStep(s: seq<Byte>, prev: Fixed, guarded: bool, a: Read, b: Read)
    requires s != [] && ShorterRead(s, guarded) == Some(a) && ShorterRead(a.rest, guarded) == Some(b)
    ensures var p := Moved(prev, a.value, b.value, guarded);
            var rest := DecodeFrom(b.rest, p, guarded);
            DecodeFrom(s, prev, guarded) == if rest.Some? then Some([p] + rest.value) else None
  {
  }

  /** One coordinate after its delta was folded and unfolded: right exactly when the
      shift lost nothing. */
  lemma Arrives(to: int, from: int, guarded: bool)
    requires Fits(to)
    ensures Signed(from + Unfold(Fold(Delta(to, from)), guarded)) == to <==> FitsShift(Delta(to, from))
  {
    var d := Delta(to, from);
    SignedFits(to - from);
    UnfoldFold(d);
    SignedStep(from, to);
    if !FitsShift(d) {
      var k := if d < 0 then HALF else -HALF;
      SignedAdd(from + d, k);
      assert from + Unfold(Fold(d), guarded) == from + d + k;
      assert Signed(to + k) != to;
    }
  }

  /** The front of an encoded list, as a decoder reads it that can read its deltas. */
  lemma EncodedFront(pts: seq<Fixed>, prev: Fixed, guarded: bool)
    requires pts != []
    requires guarded ==> StepFits(pts[0], prev)
    ensures var p := Moved(prev, Fold(Delta(pts[0].lat, prev.lat)), Fold(Delta(pts[0].lng, prev.lng)), guarded);
            var rest := DecodeFrom(EncodeFrom(pts[1..], pts[0]), p, guarded);
            DecodeFrom(EncodeFrom(pts, prev), prev, guarded) == if rest.Some? then Some([p] + rest.value) else None
  {
    var x, y := Delta(pts[0].lat, prev.lat), Delta(pts[0].lng, prev.lng);
    var rest := EncodeFrom(pts[1..], pts[0]);
    var s := Chunk(x) + (Chunk(y) + rest);
    assert EncodeFrom(pts, prev) == s;
    SignedFits(pts[0].lat - prev.lat);
    SignedFits(pts[0].lng - prev.lng);
    if guarded {
      ChunkRoundTrip(x, Chunk(y) + rest);
      ChunkRoundTrip(y, rest);
    } else {
      ReadOnGroups(Fold(x), Chunk(y) + rest);
      ReadOnGroups(Fold(y), rest);
    }
    DecodeStep(s, prev, guarded, Read(Fold(x), Chunk(y) + rest), Read(Fold(y), rest));
  }

  /** Encoding a point and decoding it arrives at the point exactly when no shift loses a
      bit. */
  lemma PointArrives(p: Fixed, prev: Fixed, guarded: bool)
    requires PointFits(p)
    ensures Moved(prev, Fold(Delta(p.lat, prev.lat)), Fold(Delta(p.lng, prev.lng)), guarded) == p <==>
            StepShifts(p, prev)
    ensures StepFits(p, prev) ==> StepShifts(p, prev)
  {
    Arrives(p.lat, prev.lat, guarded);
    Arrives(p.lng, prev.lng, guarded);
  }

  /** A front whose deltas do not fit the guard: the text is rejected or, where a shift
      lost the top bit, starts with another point. */
  lemma UnfittingFront(pts: seq<Fixed>, prev: Fixed)
    requires pts != [] && PointFits(pts[0])
    requires !StepFits(pts[0], prev)
    ensures var r := DecodeFrom(EncodeFrom(pts, prev), prev, true); r.None? || r.value == [] || r.value[0] != pts[0]
    ensures StepShifts(pts[0], prev) ==> DecodeFrom(EncodeFrom(pts, prev), prev, true) == None
  {
    var x, y := Delta(pts[0].lat, prev.lat), Delta(pts[0].lng, prev.lng);
    var rest := EncodeFrom(pts[1..], pts[0]);
    var s := Chunk(x) + (Chunk(y) + rest);
    assert EncodeFrom(pts, prev) == s;
    SignedFits(pts[0].lat - prev.lat);
    SignedFits(pts[0].lng - prev.lng);
    ChunkRoundTrip(x, Chunk(y) + rest);
    ChunkRoundTrip(y, rest);
    assert ShorterRead(s, true) == ReadGuarded(s, 0);
    if ReadGuarded(s, 0).Some? {
      assert ShorterRead(Chunk(y) + rest, true) == ReadGuarded(Chunk(y) + rest, 0);
      if ReadGuarded(Chunk(y) + rest, 0).Some? {
        DecodeStep(s, prev, true, Read(Fold(x), Chunk(y) + rest), Read(Fold(y), rest));
        PointArrives(pts[0], prev, true);
      }
    }
  }

  lemma SomeTail(p: Fixed, rest: seq<Fixed>, pts: seq<Fixed>)
    requires pts != []
    ensures [p] + rest == pts <==> p == pts[0] && rest == pts[1..]
  {
    assert pts == [pts[0]] + pts[1..];
    assert ([p] + rest)[1..] == rest && ([p] + rest)[0] == p;
  }

  /** The front survives exactly when no shift loses a bit, and then the rest decides. */
  lemma FrontRoundTrip(pts: seq<Fixed>, prev: Fixed, guarded: bool)
    requires pts != [] && PointFits(pts[0]) && (guarded ==> StepFits(pts[0], prev))
    ensures DecodeFrom(EncodeFrom(pts, prev), prev, guarded) == Some(pts) <==>
            StepShifts(pts[0], prev) && DecodeFrom(EncodeFrom(pts[1..], pts[0]), pts[0], guarded) == Some(pts[1..])
    ensures StepShifts(pts[0], prev) && DecodeFrom(EncodeFrom(pts[1..], pts[0]), pts[0], guarded) == None ==>
              DecodeFrom(EncodeFrom(pts, prev), prev, guarded) == None
  {
    var p := Moved(prev, Fold(Delta(pts[0].lat, prev.lat)), Fold(Delta(pts[0].lng, prev.lng)), guarded);
    EncodedFront(pts, prev, guarded);
    PointArrives(pts[0], prev, guarded);
    var rest := DecodeFrom(EncodeFrom(pts[1..], pts[0]), p, guarded);
    if rest.Some? {
      SomeTail(p, rest.value, pts);
    }
  }

  /** The routing decoder returns the encoded points exactly when all deltas fit; it
      rejects the text otherwise, unless a shift lost a top bit. */
  lemma {:induction false} GuardedRoundTrip(pts: seq<Fixed>, prev: Fixed)
    requires PointsFit(pts)
    ensures DecodeFrom(EncodeFrom(pts, prev), prev, true) == Some(pts) <==> DeltasFit(pts, prev)
    ensures DeltasShift(pts, prev) && !DeltasFit(pts, prev) ==> DecodeFrom(EncodeFrom(pts, prev), prev, true) == None
    decreases |pts|
  {
    if pts == [] {
    } else if StepFits(pts[0], prev) {
      PointArrives(pts[0], prev, true);
      FrontRoundTrip(pts, prev, true);
      GuardedRoundTrip(pts[1..], pts[0]);
    } else {
      UnfittingFront(pts, prev);
    }
  }

  /** The utility decoder returns the encoded points exactly when no shift loses a bit. */
  lemma {:induction false} UnguardedRoundTrip(pts: seq<Fixed>, prev: Fixed)
    requires PointsFit(pts)
    ensures DecodeFrom(EncodeFrom(pts, prev), prev, false) == Some(pts) <==> DeltasShift(pts, prev)
    decreases |pts|
  {
    if pts != [] {
      FrontRoundTrip(pts, prev, false);
      UnguardedRoundTrip(pts[1..], pts[0]);
    }
  }

  lemma DeltaOfMove(from: int, u: nat)
    ensures FitsShift(Delta(Signed(from + UnfoldBefore(u)), from))
  {
    var d := UnfoldBefore(u);
    UnfoldIsShort(u);
    SignedAdd(from + d, -from);
    SignedFits(d);
  }

  /** What the utility decoder returns can be encoded and decoded again. */
  lemma {:induction false} DecodedShifts(s: seq<Byte>, prev: Fixed)
    requires DecodeFrom(s, prev, false).Some?
    ensures var pts := DecodeFrom(s, prev, false).value; PointsFit(pts) && DeltasShift(pts, prev)
    decreases |s|
  {
    if s != [] {
      var a := ShorterRead(s, false).value;
      var b := ShorterRead(a.rest, false).value;
      var p := Moved(prev, a.value, b.value, false);
      DecodedShifts(b.rest, p);
      SignedFits(prev.lat + UnfoldBefore(a.value));
      SignedFits(prev.lng + UnfoldBefore(b.value));
      DeltaOfMove(prev.lat, a.value);
      DeltaOfMove(prev.lng, b.value);
      var pts := DecodeFrom(s, prev, false).value;
      assert pts[0] == p && pts[1..] == DecodeFrom(b.rest, p, false).value;
    }
  }

  /** Latitudes within 90 and longitudes within 180 degrees. */
  predicate LegalPoint(p: Fixed) {
    -9_000_000 <= p.lat <= 9_000_000 && -18_000_000 <= p.lng <= 18_000_000
  }

  lemma {:induction false} LegalDeltasFit(pts: seq<Fixed>, prev: Fixed)
    requires LegalPoint(prev) && forall i :: 0 <= i < |pts| ==> LegalPoint(pts[i])
    ensures DeltasFit(pts, prev) && PointsFit(pts)
    decreases |pts|
  {
    if pts != [] {
      LegalDeltasFit(pts[1..], pts[0]);
      SignedFits(pts[0].lat - prev.lat);
      SignedFits(pts[0].lng - prev.lng);
      assert forall i :: 0 < i < |pts| ==> pts[i] == pts[1..][i - 1];
    }
  }

  lemma LegalDeltaShort(a: int, b: int)
    requires -18_000_000 <= a <= 18_000_000 && -18_000_000 <= b <= 18_000_000
    ensures |Chunk(Delta(b, a))| <= 6 && Printable(Chunk(Delta(b, a)))
  {
    SignedFits(b - a);
    FoldShort(b - a);
    PowSeven();
    GroupsLength(Fold(b - a), 6);
    GroupsPrintable(Fold(b - a));
  }

  /** Between legal points a delta takes at most six printable bytes. */
  lemma LegalChunkShort(a: Fixed, b: Fixed)
    requires LegalPoint(a) && LegalPoint(b)
    ensures |Chunk(Delta(b.lat, a.lat))| <= 6 && |Chunk(Delta(b.lng, a.lng))| <= 6
    ensures Printable(Chunk(Delta(b.lat, a.lat))) && Printable(Chunk(Delta(b.lng, a.lng)))
  {
    LegalDeltaShort(a.lat, b.lat);
    LegalDeltaShort(a.lng, b.lng);
  }

  /** Every list of legal points survives the routing codec. */
  lemma LegalRoundTrip(pts: seq<Fixed>)
    requires forall i :: 0 <= i < |pts| ==> LegalPoint(pts[i])
    ensures DecodeFrom(EncodeFrom(pts, ORIGIN), ORIGIN, true) == Some(pts)
  {
    LegalDeltasFit(pts, ORIGIN);
    GuardedRoundTrip(pts, ORIGIN);
  }

  lemma PrintableJoin(a: seq<Byte>, b: seq<Byte>)
    requires Printable(a) && Printable(b)
    ensures Printable(a + b)
  {
  }

  /** And takes at most twelve printable characters a point. */
  lemma {:induction false} LegalTextShort(pts: seq<Fixed>, prev: Fixed)
    requires LegalPoint(prev) && forall i :: 0 <= i < |pts| ==> LegalPoint(pts[i])
    ensures Printable(EncodeFrom(pts, prev)) && |EncodeFrom(pts, prev)| <= 12 * |pts|
    decreases |pts|
  {
    if pts != [] {
      var a, b := Chunk(Delta(pts[0].lat, prev.lat)), Chunk(Delta(pts[0].lng, prev.lng));
      LegalChunkShort(prev, pts[0]);
      assert forall i :: 0 < i < |pts| ==> pts[i] == pts[1..][i - 1];
      LegalTextShort(pts[1..], pts[0]);
      PrintableJoin(a, b);
      PrintableJoin(a + b, EncodeFrom(pts[1..], pts[0]));
      assert EncodeFrom(pts, prev) == a + b + EncodeFrom(pts[1..], pts[0]);
    }
  }

  /** Two numbers in full. */
  lemma KnownChunks()
    ensures Chunk(Delta(3850000, 0)) == [95, 112, 126, 105, 70]
    ensures Chunk(Delta(-12020000, 0)) == [126, 112, 115, 124, 85]
  {
    SignedFits(3850000);
    SignedFits(-12020000);
    SignedFits(7700000);
    SignedFits(-24040000);
    assert Fold(3850000) == 7700000 && Fold(-12020000) == 24039999;
    assert Groups(7) == [70] && Groups(22) == [85];
    assert Groups(234) == [105, 70] && Groups(733) == [124, 85];
    assert Groups(7519) == [126, 105, 70] && Groups(23476) == [115, 124, 85];
    assert Groups(240625) == [112, 126, 105, 70] && Groups(751249) == [112, 115, 124, 85];
  }

  // ----- agreement of the two decoders -----

  /** Seven bytes in a row that all ask for more. */
  predicate LongRunAt(s: seq<Byte>, i: nat) {
    i + 7 <= |s| && forall j :: i <= j < i + 7 ==> Continues(s[j])
  }

  predicate NoLongRun(s: seq<Byte>) {
    forall i :: 0 <= i < |s| ==> !LongRunAt(s, i)
  }

  /** Whatever the routing decoder reads, the other reads alike; it refuses one of the
      other's numbers only over too long a run. */
  lemma {:induction false} ReadsAgree(s: seq<Byte>, k: nat)
    requires k <= 6
    ensures ReadGuarded(s, k).Some? ==> ReadOn(s) == ReadGuarded(s, k)
    ensures ReadOn(s).Some? ==>
      (ReadGuarded(s, k).None? <==> |s| >= 7 - k && forall j :: 0 <= j < 7 - k ==> Continues(s[j]))
    decreases |s|
  {
    if s != [] && Continues(s[0]) && k < 6 {
      ReadsAgree(s[1..], k + 1);
      assert forall j :: 0 < j < |s| ==> s[j] == s[1..][j - 1];
      if |s| >= 7 - k && forall j :: 0 <= j < 7 - k ==> Continues(s[j]) {
        assert forall j :: 0 <= j < 6 - k ==> Continues(s[1..][j]);
      }
    }
  }

  /** A number ends with a byte that does not ask for more, so no run spans it. */
  lemma {:induction false} ReadStops(s: seq<Byte>)
    requires ReadOn(s).Some?
    ensures var n := |s| - |ReadOn(s).value.rest|;
            1 <= n <= |s| && !Continues(s[n - 1]) && ReadOn(s).value.rest == s[n..]
    decreases |s|
  {
    if Continues(s[0]) {
      ReadStops(s[1..]);
    }
  }

  lemma RunsSplit(s: seq<Byte>, n: nat)
    requires 1 <= n <= |s| && !Continues(s[n - 1])
    requires forall j :: n <= j < |s| ==> s[j] == s[n..][j - n]
    ensures NoLongRun(s) <==> NoLongRun(s[n..]) && forall i :: 0 <= i < n ==> !LongRunAt(s, i)
  {
    forall i | 0 <= i < |s[n..]|
      ensures LongRunAt(s[n..], i) <==> LongRunAt(s, n + i)
    {
      if LongRunAt(s, n + i) {
        assert forall j :: i <= j < i + 7 ==> s[n..][j] == s[n + j];
      }
      if LongRunAt(s[n..], i) {
        forall j | n + i <= j < n + i + 7
          ensures Continues(s[j])
        {
          assert s[j] == s[n..][j - n];
        }
      }
    }
    if NoLongRun(s[n..]) && forall i :: 0 <= i < n ==> !LongRunAt(s, i) {
      forall i | 0 <= i < |s|
        ensures !LongRunAt(s, i)
      {
        if i >= n {
          assert !LongRunAt(s[n..], i - n);
        }
      }
    }
    if NoLongRun(s) {
      forall i | 0 <= i < |s[n..]|
        ensures !LongRunAt(s[n..], i)
      {
        assert !LongRunAt(s, n + i);
      }
    }
  }

  lemma {:induction false} ReadWithinSeven(s: seq<Byte>, k: nat)
    requires k <= 6 && ReadGuarded(s, k).Some?
    ensures |s| - |ReadGuarded(s, k).value.rest| <= 7 - k
    ensures ReadOn(s) == ReadGuarded(s, k)
    decreases |s|
  {
    if Continues(s[0]) {
      ReadWithinSeven(s[1..], k + 1);
    }
  }

  lemma FirstRunOnly(s: seq<Byte>, n: nat)
    requires 1 <= n <= |s| && !Continues(s[n - 1])
    requires ReadOn(s).Some? && n == |s| - |ReadOn(s).value.rest| && ReadGuarded(s, 0).Some?
    ensures forall i :: 0 <= i < n ==> !LongRunAt(s, i)
  {
    ReadWithinSeven(s, 0);
    forall i | 0 <= i < n
      ensures !LongRunAt(s, i)
    {
      assert i <= n - 1 < i + 7;
    }
  }

  /** One number: accepted by both, or refused by the routing decoder over a run. */
  lemma NumberAgreement(s: seq<Byte>)
    requires ReadOn(s).Some?
    ensures ReadGuarded(s, 0).Some? ==> ReadGuarded(s, 0) == ReadOn(s)
    ensures NoLongRun(s) <==> ReadGuarded(s, 0).Some? && NoLongRun(ReadOn(s).value.rest)
  {
    var n := |s| - |ReadOn(s).value.rest|;
    ReadsAgree(s, 0);
    ReadStops(s);
    RunsSplit(s, n);
    if ReadGuarded(s, 0).Some? {
      FirstRunOnly(s, n);
    } else {
      assert LongRunAt(s, 0);
    }
  }

  /** The routing decoder accepts exactly the texts that the other decodes without
      running past the end and that have no seven bytes of 95 or more in a row, and then
      both return the same points. */
  lemma {:induction false} DecodersAgree(s: seq<Byte>, prev: Fixed)
    ensures DecodeFrom(s, prev, true).Some? <==> DecodeFrom(s, prev, false).Some? && NoLongRun(s)
    ensures DecodeFrom(s, prev, true).Some? ==> DecodeFrom(s, prev, true) == DecodeFrom(s, prev, false)
    decreases |s|
  {
    if s == [] {
    } else {
      ReadsAgree(s, 0);
      if ReadOn(s).Some? {
        NumberAgreement(s);
        var a := ReadOn(s).value;
        ReadsAgree(a.rest, 0);
        if ReadOn(a.rest).Some? {
          NumberAgreement(a.rest);
          var b := ReadOn(a.rest).value;
          ReadShrinks(s, 0);
          ReadShrinks(a.rest, 0);
          if ReadGuarded(s, 0).Some? && ReadGuarded(a.rest, 0).Some? {
            GuardedUnfolds(s);
            GuardedUnfolds(a.rest);
          }
          DecodersAgree(b.rest, Moved(prev, a.value, b.value, false));
        }
      }
    }
  }

  // ----- which texts decode at all -----

  /** Bytes that end a number. */
  function Ends(s: seq<Byte>): nat {
    if s == [] then 0 else Ends(s[1..]) + if Continues(s[0]) then 0 else 1
  }

  /** The text breaks off after a whole point. */
  predicate WholePoints(s: seq<Byte>) {
    s != [] ==> !Continues(s[|s| - 1]) && Ends(s) % 2 == 0
  }

  lemma {:induction false} LastEnds(s: seq<Byte>)
    requires s != [] && !Continues(s[|s| - 1])
    ensures Ends(s) > 0
  {
    if |s| > 1 {
      assert s[1..][|s| - 2] == s[|s| - 1];
      LastEnds(s[1..]);
    }
  }

  /** Reading a number uses up one ending byte, and fails only when there is none. */
  lemma {:induction false} ReadEnds(s: seq<Byte>)
    ensures ReadOn(s).Some? <==> Ends(s) > 0
    ensures ReadOn(s).Some? ==>
      var rest := ReadOn(s).value.rest;
      && Ends(rest) == Ends(s) - 1
      && (if rest == [] then !Continues(s[|s| - 1]) else rest[|rest| - 1] == s[|s| - 1])
    decreases |s|
  {
    if s != [] {
      ReadEnds(s[1..]);
      assert |s| > 1 ==> s[1..][|s| - 2] == s[|s| - 1];
    }
  }

  lemma FirstPointEnds(s: seq<Byte>)
    requires s != []
    ensures WholePoints(s) <==>
            && ReadOn(s).Some? && ReadOn(ReadOn(s).value.rest).Some?
            && WholePoints(ReadOn(ReadOn(s).value.rest).value.rest)
    ensures ReadOn(s).Some? && ReadOn(ReadOn(s).value.rest).Some? ==>
              Ends(ReadOn(ReadOn(s).value.rest).value.rest) == Ends(s) - 2
  {
    ReadEnds(s);
    if !Continues(s[|s| - 1]) {
      LastEnds(s);
    }
    if ReadOn(s).Some? {
      ReadEnds(ReadOn(s).value.rest);
    }
  }

  lemma FirstUnread(s: seq<Byte>, prev: Fixed)
    requires s != [] && (ReadOn(s).None? || ReadOn(ReadOn(s).value.rest).None?)
    ensures DecodeFrom(s, prev, false).None?
  {
    ReadShrinks(s, 0);
  }

  /** The utility decoder runs past the end exactly on the texts that break off inside a
      number or between the two numbers of a point; two ending bytes make a point. */
  lemma {:induction false} DecodesExactly(s: seq<Byte>, prev: Fixed)
    ensures DecodeFrom(s, prev, false).Some? <==> WholePoints(s)
    ensures WholePoints(s) ==> |DecodeFrom(s, prev, false).value| * 2 == Ends(s)
    decreases |s|
  {
    if s != [] {
      FirstPointEnds(s);
      if ReadOn(s).None? || ReadOn(ReadOn(s).value.rest).None? {
        FirstUnread(s, prev);
      } else {
        var a := ReadOn(s).value;
        var b := ReadOn(a.rest).value;
        ReadShrinks(s, 0);
        ReadShrinks(a.rest, 0);
        var p := Moved(prev, a.value, b.value, false);
        DecodesExactly(b.rest, p);
        DecodeStep(s, prev, false, a, b);
      }
    }
  }

  /** So the routing decoder accepts exactly the texts that end after a whole point and
      have no seven bytes of 95 or more in a row. */
  lemma GuardedDecodesExactly(s: seq<Byte>, prev: Fixed)
    ensures DecodeFrom(s, prev, true).Some? <==> WholePoints(s) && NoLongRun(s)
  {
    DecodersAgree(s, prev);
    DecodesExactly(s, prev);
  }
}
