/** What RTP fragmentation and reassembly promise: the shape of fragmented units, the end-to-end
    round trip, and what a decoder may deliver for any packets at all. */
module RtpTheorems {
  import opened Options
  import opened Bytes
  import opened AnnexB
  import opened Rtp

  // ---------------------------------------------------------------- one fragment

  /** The NAL unit header the decoder rebuilds from the FU headers: H.264 loses the F bit. */
  function RebuiltHeader(codec: Codec, unit: seq<byte>): seq<byte>
    requires |unit| >= codec.NaluHeaderSize()
  {
    if codec.H264? then [unit[0] % 128] else unit[..2]
  }

  /** Packing the header bits of one NAL unit into FU headers and taking them out again. */
  lemma H264Bits(b: byte, flags: int)
    requires flags in {0, 64, 128, 192}
    ensures var indicator, fu := b / 32 % 4 * 32 + FU_A, flags + b % 32;
            && indicator % 32 == FU_A && indicator / 32 * 32 + fu % 32 == b % 128
            && (fu >= 128 <==> flags >= 128) && (fu / 64 % 2 == 1 <==> flags % 128 == 64)
  {
    assert (b / 32 % 4 * 32 + FU_A) / 32 == b / 32 % 4;
  }

  lemma H265Bits(b: byte, flags: int)
    requires flags in {0, 64, 128, 192}
    ensures var h, fu := b / 128 * 128 + b % 2 + H265_FU * 2, flags + b / 2 % 64;
            && h / 2 % 64 == H265_FU && h / 128 * 128 + fu % 64 * 2 + h % 2 == b
            && (fu >= 128 <==> flags >= 128) && (fu / 64 % 2 == 1 <==> flags % 128 == 64)
  {
    if b >= 128 {
      assert b / 128 == 1 && b / 2 % 64 == b / 2 - 64;
    } else {
      assert b / 128 == 0 && b / 2 % 64 == b / 2;
    }
  }

  lemma H264FuBits(unit: seq<byte>, start: bool, end: bool)
    requires |unit| >= 1
    ensures var h := FuHeaders(H264, unit, start, end);
            NaluType(H264, h) == FU_A && FuFragment(H264, h, []) == Fragment(start, end, RebuiltHeader(H264, unit), [])
  {
    H264Bits(unit[0], FuFlags(start, end));
  }

  lemma H265FuBits(unit: seq<byte>, start: bool, end: bool)
    requires |unit| >= 2
    ensures var h := FuHeaders(H265, unit, start, end);
            NaluType(H265, h) == H265_FU && FuFragment(H265, h, []) == Fragment(start, end, RebuiltHeader(H265, unit), [])
  {
    H265Bits(unit[0], FuFlags(start, end));
    assert RebuiltHeader(H265, unit) == [unit[0], unit[1]];
  }

  function FuType(codec: Codec): int { if codec.H264? then FU_A else H265_FU }

  /** What the decoder reads from FU headers. */
  function FuFragment(codec: Codec, h: seq<byte>, chunk: seq<byte>): Kind
    requires |h| == codec.NaluHeaderSize() + 1
  {
    var fu := h[codec.NaluHeaderSize()];
    Fragment(fu >= 128, fu / 64 % 2 == 1,
             if codec.H264? then [h[0] / 32 * 32 + fu % 32] else [h[0] / 128 * 128 + fu % 64 * 2 + h[0] % 2, h[1]],
             chunk)
  }

  lemma ClassifyFragment(codec: Codec, header: seq<byte>, fuHeaders: seq<byte>, chunk: seq<byte>)
    requires |header| == HEADER_SIZE && |fuHeaders| == codec.NaluHeaderSize() + 1
    requires NaluType(codec, fuHeaders) == FuType(codec)
    ensures Classify(codec, header + fuHeaders + chunk) == FuFragment(codec, fuHeaders, chunk)
  {
    assert (header + fuHeaders + chunk)[HEADER_SIZE..] == fuHeaders + chunk;
    assert (fuHeaders + chunk)[|fuHeaders|..] == chunk;
  }

  lemma HeaderFields(session: Session, marker: bool, seqNumber: int, rest: seq<byte>)
    requires session.Valid() && 0 <= seqNumber < 0x10000
    ensures var p := RtpHeader(session, marker, seqNumber) + rest;
            MarkerOf(p) == marker && SeqNumberOf(p) == seqNumber && p[HEADER_SIZE..] == rest
  {
    var h := RtpHeader(session, marker, seqNumber);
    assert h[2..4] == U16(seqNumber);
  }

  // ---------------------------------------------------------------- the shape of a fragmented unit

  function Ceiling(n: nat, d: nat): nat
    requires d > 0
  {
    (n + d - 1) / d
  }

  /** Packet i of `ps` is the fragment of `unit` that its place says: S on the first only, E and
      the marker on the last only, every other packet exactly one MTU, consecutive numbers. */
  ghost predicate IsFragment(codec: Codec, unit: seq<byte>, seqNumber: int, start: bool, ps: seq<seq<byte>>, i: nat)
    requires i < |ps| && |unit| >= codec.NaluHeaderSize()
  {
    var last := i == |ps| - 1;
    && HEADER_SIZE + codec.NaluHeaderSize() + 1 < |ps[i]| <= MTU && (!last ==> |ps[i]| == MTU)
    && MarkerOf(ps[i]) == last
    && SeqNumberOf(ps[i]) == (seqNumber + i) % 0x10000
    && Classify(codec, ps[i]) ==
       Fragment(start && i == 0, last, RebuiltHeader(codec, unit), FuChunk(codec, ps[i]))
  }

  /** The fragment of the unit that an FU packet carries. */
  function FuChunk(codec: Codec, packet: seq<byte>): seq<byte> {
    var n := HEADER_SIZE + codec.NaluHeaderSize() + 1;
    if |packet| < n then [] else packet[n..]
  }

  /** The fragments of a sequence of FU packets, joined. */
  function JoinChunks(codec: Codec, ps: seq<seq<byte>>): seq<byte> {
    if ps == [] then [] else FuChunk(codec, ps[0]) + JoinChunks(codec, ps[1..])
  }

  lemma OnePacket(codec: Codec, session: Session, seqNumber: int, unit: seq<byte>, start: bool, end: bool, chunk: seq<byte>)
    requires session.Valid() && 0 <= seqNumber < 0x10000 && |unit| >= codec.NaluHeaderSize()
    ensures var p := FuPacket(codec, session, seqNumber, unit, start, end, chunk);
            && |p| == HEADER_SIZE + codec.NaluHeaderSize() + 1 + |chunk| && FuChunk(codec, p) == chunk
            && MarkerOf(p) == end && SeqNumberOf(p) == seqNumber
            && Classify(codec, p) == Fragment(start, end, RebuiltHeader(codec, unit), chunk)
  {
    var h := FuHeaders(codec, unit, start, end);
    if codec.H264? { H264FuBits(unit, start, end); } else { H265FuBits(unit, start, end); }
    ClassifyFragment(codec, RtpHeader(session, end, seqNumber), h, chunk);
    HeaderFields(session, end, seqNumber, h + chunk);
    assert RtpHeader(session, end, seqNumber) + h + chunk == RtpHeader(session, end, seqNumber) + (h + chunk);
  }

  lemma CeilingStep(n: nat, codec: Codec)
    requires n > codec.FuPayloadSize()
    ensures Ceiling(n, codec.FuPayloadSize()) == 1 + Ceiling(n - codec.FuPayloadSize(), codec.FuPayloadSize())
  {
    if codec.H264? {
      assert (n + 1285) / 1286 == 1 + (n - 1286 + 1285) / 1286;
    } else {
      assert (n + 1284) / 1285 == 1 + (n - 1285 + 1284) / 1285;
    }
  }

  lemma {:induction false} FuCount(codec: Codec, session: Session, seqNumber: int, unit: seq<byte>, start: bool,
                                   body: seq<byte>)
    requires session.Valid() && 0 <= seqNumber < 0x10000 && |unit| >= codec.NaluHeaderSize() && |body| > 0
    ensures |FuPackets(codec, session, seqNumber, unit, start, body)| == Ceiling(|body|, codec.FuPayloadSize())
    decreases |body|
  {
    var size := codec.FuPayloadSize();
    if |body| > size {
      FuCount(codec, session, (seqNumber + 1) % 0x10000, unit, false, body[size..]);
      CeilingStep(|body|, codec);
    }
  }

  lemma LaterFragment(codec: Codec, unit: seq<byte>, seqNumber: int, start: bool, p: seq<byte>, rest: seq<seq<byte>>, i: nat)
    requires |unit| >= codec.NaluHeaderSize() && i < |rest| && 0 <= seqNumber < 0x10000
    requires IsFragment(codec, unit, (seqNumber + 1) % 0x10000, false, rest, i)
    ensures IsFragment(codec, unit, seqNumber, start, [p] + rest, i + 1)
  {
    assert ([p] + rest)[i + 1] == rest[i];
  }

  lemma FirstFragment(codec: Codec, session: Session, seqNumber: int, unit: seq<byte>, start: bool, chunk: seq<byte>,
                      rest: seq<seq<byte>>)
    requires session.Valid() && 0 <= seqNumber < 0x10000 && |unit| >= codec.NaluHeaderSize()
    requires 0 < |chunk| <= codec.FuPayloadSize() && (rest != [] ==> |chunk| == codec.FuPayloadSize())
    ensures var p := FuPacket(codec, session, seqNumber, unit, start, rest == [], chunk);
            IsFragment(codec, unit, seqNumber, start, [p] + rest, 0)
  {
    OnePacket(codec, session, seqNumber, unit, start, rest == [], chunk);
  }

  lemma {:induction false} FuFragments(codec: Codec, session: Session, seqNumber: int, unit: seq<byte>, start: bool,
                                       body: seq<byte>, i: nat)
    requires session.Valid() && 0 <= seqNumber < 0x10000 && |unit| >= codec.NaluHeaderSize() && |body| > 0
    requires i < |FuPackets(codec, session, seqNumber, unit, start, body)|
    ensures IsFragment(codec, unit, seqNumber, start, FuPackets(codec, session, seqNumber, unit, start, body), i)
    decreases |body|
  {
    var size := codec.FuPayloadSize();
    if |body| <= size {
      FirstFragment(codec, session, seqNumber, unit, start, body, []);
      assert [FuPacket(codec, session, seqNumber, unit, start, true, body)] + [] ==
             FuPackets(codec, session, seqNumber, unit, start, body);
    } else {
      var next := (seqNumber + 1) % 0x10000;
      var rest := FuPackets(codec, session, next, unit, false, body[size..]);
      FuCount(codec, session, next, unit, false, body[size..]);
      if i == 0 {
        FirstFragment(codec, session, seqNumber, unit, start, body[..size], rest);
      } else {
        FuFragments(codec, session, next, unit, false, body[size..], i - 1);
        LaterFragment(codec, unit, seqNumber, start,
                      FuPacket(codec, session, seqNumber, unit, start, false, body[..size]), rest, i - 1);
      }
    }
  }

  lemma {:induction false} FuJoin(codec: Codec, session: Session, seqNumber: int, unit: seq<byte>, start: bool,
                                  body: seq<byte>)
    requires session.Valid() && 0 <= seqNumber < 0x10000 && |unit| >= codec.NaluHeaderSize()
    ensures JoinChunks(codec, FuPackets(codec, session, seqNumber, unit, start, body)) == body
    decreases |body|
  {
    hide FuPacket, FuChunk, Classify, RebuiltHeader, MarkerOf, SeqNumberOf;
    var size := codec.FuPayloadSize();
    if |body| > size {
      FuJoin(codec, session, (seqNumber + 1) % 0x10000, unit, false, body[size..]);
      OnePacket(codec, session, seqNumber, unit, start, false, body[..size]);
      assert body == body[..size] + body[size..];
    } else if |body| > 0 {
      OnePacket(codec, session, seqNumber, unit, start, true, body);
    }
  }

  /** Any unit over one payload is fragmented into the expected number of packets, at least two,
      of the expected shape, and their chunks join to the unit without its header. */
  lemma FragmentShape(codec: Codec, session: Session, seqNumber: int, unit: seq<byte>)
    requires session.Valid() && 0 <= seqNumber < 0x10000 && |unit| > PAYLOAD_SIZE
    ensures var ps := UnitPackets(codec, session, seqNumber, unit);
            && |ps| == (if codec.H264? then Ceiling(|unit| - 1, 1286) else Ceiling(|unit| - 2, 1285))
            && |ps| >= 2
            && (forall i | 0 <= i < |ps| :: IsFragment(codec, unit, seqNumber, true, ps, i))
            && JoinChunks(codec, ps) == unit[codec.NaluHeaderSize()..]
  {
    var ps, body := UnitPackets(codec, session, seqNumber, unit), unit[codec.NaluHeaderSize()..];
    FuCount(codec, session, seqNumber, unit, true, body);
    FuJoin(codec, session, seqNumber, unit, true, body);
    forall i | 0 <= i < |ps| ensures IsFragment(codec, unit, seqNumber, true, ps, i) {
      FuFragments(codec, session, seqNumber, unit, true, body, i);
    }
  }

  // ---------------------------------------------------------------- decoding what was encoded

  lemma {:induction false} AcceptConcat(nalu: seq<byte>, ks: seq<Kind>, ls: seq<Kind>)
    requires |nalu| <= MAX_NALU_SIZE
    ensures var a := AcceptAll(nalu, ks);
            var b := AcceptAll(a.nalu, ls);
            AcceptAll(nalu, ks + ls) == Decoded(b.nalu, a.delivered + b.delivered)
    decreases |ks|
  {
    if ks == [] {
      assert ks + ls == ls;
    } else {
      assert (ks + ls)[1..] == ks[1..] + ls;
      AcceptConcat(Accept(nalu, ks[0]).nalu, ks[1..], ls);
    }
  }

  lemma AcceptOne(nalu: seq<byte>, k: Kind)
    requires |nalu| <= MAX_NALU_SIZE
    ensures AcceptAll(nalu, [k]) == Accept(nalu, k)
  {
    assert Accept(nalu, k).delivered + [] == Accept(nalu, k).delivered;
  }

  /** The fragments of a unit as the decoder sees them. */
  function FuKinds(codec: Codec, header: seq<byte>, start: bool, body: seq<byte>): seq<Kind>
    decreases |body|
  {
    var size := codec.FuPayloadSize();
    if |body| == 0 then []
    else if |body| <= size then [Fragment(start, true, header, body)]
    else [Fragment(start, false, header, body[..size])] + FuKinds(codec, header, false, body[size..])
  }

  lemma {:induction false} KindsOfFu(codec: Codec, session: Session, seqNumber: int, unit: seq<byte>, start: bool,
                                     body: seq<byte>)
    requires session.Valid() && 0 <= seqNumber < 0x10000 && |unit| >= codec.NaluHeaderSize()
    ensures Kinds(codec, FuPackets(codec, session, seqNumber, unit, start, body)) ==
            FuKinds(codec, RebuiltHeader(codec, unit), start, body)
    decreases |body|
  {
    var size := codec.FuPayloadSize();
    if |body| > size {
      KindsOfFu(codec, session, (seqNumber + 1) % 0x10000, unit, false, body[size..]);
      OnePacket(codec, session, seqNumber, unit, start, false, body[..size]);
    } else if |body| > 0 {
      OnePacket(codec, session, seqNumber, unit, start, true, body);
    }
  }

  /** Fragments after the first: they complete a unit that is open and still fits, and
      otherwise leave nothing. */
  lemma {:induction false} AcceptTail(codec: Codec, header: seq<byte>, body: seq<byte>, nalu: seq<byte>)
    requires |nalu| <= MAX_NALU_SIZE && |body| > 0
    ensures AcceptAll(nalu, FuKinds(codec, header, false, body)) ==
            Decoded([], if nalu == [] || |nalu| + |body| > MAX_NALU_SIZE then [] else [nalu + body])
    decreases |body|
  {
    var size := codec.FuPayloadSize();
    if |body| <= size {
      AcceptOne(nalu, Fragment(false, true, header, body));
    } else {
      var k := Fragment(false, false, header, body[..size]);
      AcceptOne(nalu, k);
      AcceptConcat(nalu, [k], FuKinds(codec, header, false, body[size..]));
      AcceptTail(codec, header, body[size..], Accept(nalu, k).nalu);
      assert nalu + body[..size] + body[size..] == nalu + body;
    }
  }

  lemma AcceptFragmented(codec: Codec, header: seq<byte>, body: seq<byte>, nalu: seq<byte>)
    requires |nalu| <= MAX_NALU_SIZE && |body| > codec.FuPayloadSize() && |header| <= 2
    ensures AcceptAll(nalu, FuKinds(codec, header, true, body)) ==
            Decoded([], if |START_CODE + header| + |body| > MAX_NALU_SIZE then [] else [START_CODE + header + body])
  {
    var size := codec.FuPayloadSize();
    assert 0 < size && |START_CODE| == 4 && size < 2000;
    hide *;
    var k := Fragment(true, false, header, body[..size]);
    var first := START_CODE + header + body[..size];
    AcceptOne(nalu, k);
    AcceptConcat(nalu, [k], FuKinds(codec, header, false, body[size..]));
    FirstKind(codec, header, body);
    OpensUnit(nalu, header, body[..size]);
    AcceptTail(codec, header, body[size..], first);
    assert first + body[size..] == START_CODE + header + body;
  }

  lemma FirstKind(codec: Codec, header: seq<byte>, body: seq<byte>)
    requires |body| > codec.FuPayloadSize()
    ensures var size := codec.FuPayloadSize();
            FuKinds(codec, header, true, body)
            == [Fragment(true, false, header, body[..size])] + FuKinds(codec, header, false, body[size..])
  {
  }

  lemma OpensUnit(nalu: seq<byte>, header: seq<byte>, chunk: seq<byte>)
    requires |nalu| <= MAX_NALU_SIZE && |START_CODE + header| + |chunk| <= MAX_NALU_SIZE
    ensures Accept(nalu, Fragment(true, false, header, chunk)) == Decoded(START_CODE + header + chunk, [])
  {
  }

  /** When the decoder can give a unit back: a small one needs a type the decoder takes for a
      single unit; a large one must fit the decoder's buffer, and for H.264 have a clear F bit,
      because the FU indicator is built without it. */
  predicate Decodable(codec: Codec, unit: seq<byte>) {
    && |unit| >= codec.SmallestUnit()
    && if |unit| <= PAYLOAD_SIZE then
         (if codec.H264? then 0 < NaluType(codec, unit) < 24 else NaluType(codec, unit) < 48)
       else
         |unit| <= MAX_NALU_SIZE - |START_CODE| && (codec.H264? ==> !ForbiddenBit(unit))
  }

  lemma DecodeFragmented(codec: Codec, session: Session, seqNumber: int, unit: seq<byte>, nalu: seq<byte>)
    requires session.Valid() && 0 <= seqNumber < 0x10000 && |unit| > PAYLOAD_SIZE && |nalu| <= MAX_NALU_SIZE
    ensures Decode(codec, nalu, UnitPackets(codec, session, seqNumber, unit)) ==
            Decoded([], if |START_CODE| + |unit| > MAX_NALU_SIZE then []
                        else [START_CODE + RebuiltHeader(codec, unit) + unit[codec.NaluHeaderSize()..]])
  {
    var body := unit[codec.NaluHeaderSize()..];
    KindsOfFu(codec, session, seqNumber, unit, true, body);
    AcceptFragmented(codec, RebuiltHeader(codec, unit), body, nalu);
  }

  /** The rebuilt header is the unit's own exactly when no F bit is lost. */
  lemma RebuiltUnit(codec: Codec, unit: seq<byte>)
    requires |unit| >= 2
    ensures START_CODE + RebuiltHeader(codec, unit) + unit[codec.NaluHeaderSize()..] == START_CODE + unit <==>
            (codec.H264? ==> !ForbiddenBit(unit))
  {
    var out := START_CODE + RebuiltHeader(codec, unit) + unit[codec.NaluHeaderSize()..];
    assert out[4] == RebuiltHeader(codec, unit)[0] && (START_CODE + unit)[4] == unit[0];
    if codec.H264? ==> !ForbiddenBit(unit) {
      assert RebuiltHeader(codec, unit) + unit[codec.NaluHeaderSize()..] == unit;
      assert out == START_CODE + (RebuiltHeader(codec, unit) + unit[codec.NaluHeaderSize()..]);
    }
  }

  lemma DecodeSmall(codec: Codec, session: Session, seqNumber: int, unit: seq<byte>, nalu: seq<byte>)
    requires session.Valid() && 0 <= seqNumber < 0x10000 && |nalu| <= MAX_NALU_SIZE
    requires codec.SmallestUnit() <= |unit| <= PAYLOAD_SIZE
    ensures var k := Classify(codec, RtpHeader(session, SingleMarker(codec, unit), seqNumber) + unit);
            && Decode(codec, nalu, UnitPackets(codec, session, seqNumber, unit)) == Accept(nalu, k)
            && (if Decodable(codec, unit) then k == Single(unit) else !k.Single?)
  {
    var p := RtpHeader(session, SingleMarker(codec, unit), seqNumber) + unit;
    assert p[HEADER_SIZE..] == unit;
    assert Kinds(codec, [p]) == [Classify(codec, p)];
    AcceptOne(nalu, Classify(codec, p));
  }

  /** A decodable unit is delivered behind a start code, whatever was buffered before. */
  lemma UnitRoundTrip(codec: Codec, session: Session, seqNumber: int, unit: seq<byte>, nalu: seq<byte>)
    requires session.Valid() && 0 <= seqNumber < 0x10000 && |nalu| <= MAX_NALU_SIZE
    requires Decodable(codec, unit)
    ensures Decode(codec, nalu, UnitPackets(codec, session, seqNumber, unit)) == Decoded([], [START_CODE + unit])
  {
    if |unit| <= PAYLOAD_SIZE {
      DecodeSmall(codec, session, seqNumber, unit, nalu);
    } else {
      DecodeFragmented(codec, session, seqNumber, unit, nalu);
      RebuiltUnit(codec, unit);
    }
  }

  /** From any state a unit makes the decoder deliver at most one buffer, and only a decodable
      one is delivered intact when nothing was buffered. */
  lemma UndecodableUnit(codec: Codec, session: Session, seqNumber: int, unit: seq<byte>, nalu: seq<byte>)
    requires session.Valid() && 0 <= seqNumber < 0x10000 && |nalu| <= MAX_NALU_SIZE
    ensures var r := Decode(codec, nalu, UnitPackets(codec, session, seqNumber, unit));
            && |r.delivered| <= 1
            && (nalu == [] && !Decodable(codec, unit) ==> r.delivered != [START_CODE + unit])
  {
    if |unit| < codec.SmallestUnit() {
    } else if |unit| <= PAYLOAD_SIZE {
      DecodeSmall(codec, session, seqNumber, unit, nalu);
    } else {
      DecodeFragmented(codec, session, seqNumber, unit, nalu);
      RebuiltUnit(codec, unit);
    }
  }

  // ---------------------------------------------------------------- end to end

  function WithStartCodes(units: seq<seq<byte>>): (out: seq<seq<byte>>)
    ensures |out| == |units|
  {
    if units == [] then [] else [START_CODE + units[0]] + WithStartCodes(units[1..])
  }

  ghost predicate AllDecodable(codec: Codec, units: seq<seq<byte>>) {
    forall i | 0 <= i < |units| :: Decodable(codec, units[i])
  }

  /** Decoding the packets of some units: the first unit's, then the rest. */
  lemma DecodeFirstThenRest(codec: Codec, session: Session, seqNumber: int, units: seq<seq<byte>>, nalu: seq<byte>)
      returns (next: int, a: Decoded, b: Decoded)
    requires session.Valid() && 0 <= seqNumber < 0x10000 && |nalu| <= MAX_NALU_SIZE && units != []
    ensures 0 <= next < 0x10000 && |a.nalu| <= MAX_NALU_SIZE
    ensures a == Decode(codec, nalu, UnitPackets(codec, session, seqNumber, units[0]))
    ensures b == Decode(codec, a.nalu, UnitsPackets(codec, session, next, units[1..]))
    ensures Decode(codec, nalu, UnitsPackets(codec, session, seqNumber, units)) ==
            Decoded(b.nalu, a.delivered + b.delivered)
  {
    hide UnitPackets, RtpHeader, FuHeaders, Classify, Accept;
    var first := UnitPackets(codec, session, seqNumber, units[0]);
    next := (seqNumber + |first|) % 0x10000;
    var rest := UnitsPackets(codec, session, next, units[1..]);
    a := Decode(codec, nalu, first);
    b := Decode(codec, a.nalu, rest);
    DecodeConcat(codec, nalu, first, rest);
  }

  lemma DecodeConcat(codec: Codec, nalu: seq<byte>, ps: seq<seq<byte>>, qs: seq<seq<byte>>)
    requires |nalu| <= MAX_NALU_SIZE
    ensures var a := Decode(codec, nalu, ps);
            var b := Decode(codec, a.nalu, qs);
            Decode(codec, nalu, ps + qs) == Decoded(b.nalu, a.delivered + b.delivered)
  {
    assert Kinds(codec, ps + qs) == Kinds(codec, ps) + Kinds(codec, qs);
    AcceptConcat(nalu, Kinds(codec, ps), Kinds(codec, qs));
  }

  lemma {:induction false} AtMostOneEach(codec: Codec, session: Session, seqNumber: int, units: seq<seq<byte>>,
                                         nalu: seq<byte>)
    requires session.Valid() && 0 <= seqNumber < 0x10000 && |nalu| <= MAX_NALU_SIZE
    ensures |Decode(codec, nalu, UnitsPackets(codec, session, seqNumber, units)).delivered| <= |units|
    decreases |units|
  {
    if units != [] {
      var next, a, b := DecodeFirstThenRest(codec, session, seqNumber, units, nalu);
      UndecodableUnit(codec, session, seqNumber, units[0], nalu);
      AtMostOneEach(codec, session, next, units[1..], a.nalu);
    }
  }

  lemma {:induction false} UnitsRoundTrip(codec: Codec, session: Session, seqNumber: int, units: seq<seq<byte>>)
    requires session.Valid() && 0 <= seqNumber < 0x10000
    ensures Decode(codec, [], UnitsPackets(codec, session, seqNumber, units)).delivered == WithStartCodes(units) <==>
            AllDecodable(codec, units)
    decreases |units|
  {
    if units != [] {
      var next, a, b := DecodeFirstThenRest(codec, session, seqNumber, units, []);
      var out := a.delivered + b.delivered;
      if Decodable(codec, units[0]) {
        UnitRoundTrip(codec, session, seqNumber, units[0], []);
        UnitsRoundTrip(codec, session, next, units[1..]);
        TailDecodable(codec, units);
        assert out[1..] == b.delivered && WithStartCodes(units)[1..] == WithStartCodes(units[1..]);
      } else {
        UndecodableUnit(codec, session, seqNumber, units[0], []);
        AtMostOneEach(codec, session, next, units[1..], a.nalu);
        if |out| == |units| { assert out[0] == a.delivered[0]; }
      }
    }
  }

  lemma TailDecodable(codec: Codec, units: seq<seq<byte>>)
    requires units != [] && Decodable(codec, units[0])
    ensures AllDecodable(codec, units) <==> AllDecodable(codec, units[1..])
  {
    if AllDecodable(codec, units[1..]) {
      forall i | 0 <= i < |units| ensures Decodable(codec, units[i]) {
        if i > 0 { assert units[i] == units[1..][i - 1]; }
      }
    }
  }

  /** Encoding an Annex B stream and decoding the packets in order delivers exactly its units,
      in order, each behind a four-byte start code, if and only if every unit is decodable. */
  lemma AnnexBEndToEnd(codec: Codec, session: Session, seqNumber: int, units: seq<seq<byte>>, gaps: seq<nat>, tail: nat)
    requires session.Valid() && 0 <= seqNumber < 0x10000
    requires |gaps| == |units| && AllClean(units)
    ensures var packets := Encode(codec, session, seqNumber, Stream(units, gaps, tail));
            Decode(codec, [], packets).delivered == WithStartCodes(units) <==> AllDecodable(codec, units)
  {
    SplitStream(units, gaps, tail);
    UnitsRoundTrip(codec, session, seqNumber, units);
  }

  // ---------------------------------------------------------------- what a decoder may deliver

  /** The packet that opened the unit being assembled: the last S fragment, if only other
      fragments without E, or packets too short to be looked at, followed it. */
  function OpenedAt(ks: seq<Kind>): (i: Option<nat>)
    ensures i.Some? ==> i.value < |ks| && ks[i.value].Fragment? && ks[i.value].start
    decreases |ks|
  {
    if ks == [] then None else
    match ks[|ks| - 1]
    case Short => OpenedAt(ks[..|ks| - 1])
    case Fragment(start, end, _, _) =>
      if start then Some(|ks| - 1) else if end then None else OpenedAt(ks[..|ks| - 1])
    case _ => None
  }

  /** The payloads of the fragments among some packets, joined. */
  function Payloads(ks: seq<Kind>): seq<byte>
    decreases |ks|
  {
    if ks == [] then [] else
    var k := ks[|ks| - 1];
    Payloads(ks[..|ks| - 1]) + if k.Fragment? then k.chunk else []
  }

  /** Start code, rebuilt header, and every fragment since the opening one. */
  function Assembled(ks: seq<Kind>, i: nat): seq<byte>
    requires i < |ks| && ks[i].Fragment?
  {
    START_CODE + ks[i].header + Payloads(ks[i..])
  }

  lemma AssembledExtends(ks: seq<Kind>, i: nat, k: Kind)
    requires i < |ks| && ks[i].Fragment?
    ensures Assembled(ks + [k], i) == Assembled(ks, i) + if k.Fragment? then k.chunk else []
  {
    var all := (ks + [k])[i..];
    assert all[..|all| - 1] == ks[i..];
  }

  /** The bytes a decoder holds after some packets, said without running it. */
  function Held(ks: seq<Kind>): seq<byte> {
    match OpenedAt(ks)
    case None => []
    case Some(i) => if |Assembled(ks, i)| > MAX_NALU_SIZE then [] else Assembled(ks, i)
  }

  lemma HeldStep(before: seq<Kind>, k: Kind)
    requires |Held(before)| <= MAX_NALU_SIZE
    ensures Held(before + [k]) == Accept(Held(before), k).nalu
  {
    var ks := before + [k];
    assert ks[..|ks| - 1] == before;
    if k.Fragment? && k.start {
      assert ks[|ks| - 1..] == [k];
      assert Payloads([k]) == Payloads([k][..0]) + k.chunk == k.chunk;
    } else if OpenedAt(before).Some? {
      AssembledExtends(before, OpenedAt(before).value, k);
    }
  }

  lemma {:induction false} BufferedBytes(ks: seq<Kind>)
    ensures AcceptAll([], ks).nalu == Held(ks)
    decreases |ks|
  {
    if ks != [] {
      var before, k := ks[..|ks| - 1], ks[|ks| - 1];
      assert ks == before + [k];
      BufferedBytes(before);
      AcceptConcat([], before, [k]);
      AcceptOne(AcceptAll([], before).nalu, k);
      HeldStep(before, k);
    }
  }

  /** For any packets at all (lost, reordered, malformed): the next packet makes the decoder
      deliver a single-unit payload behind a start code, or, on an E fragment, the opening
      fragment's rebuilt header and the payloads of all fragments since, if that fits; nothing
      else is ever delivered, and the buffer never overflows. */
  lemma DecoderSafety(codec: Codec, ps: seq<seq<byte>>, p: seq<byte>)
    ensures var before, k := Kinds(codec, ps), Classify(codec, p);
            var nalu := Decode(codec, [], ps).nalu;
            && |nalu| <= MAX_NALU_SIZE
            && Accept(nalu, k).delivered ==
               if k.Single? then
                 (if |START_CODE + k.unit| <= MAX_NALU_SIZE then [START_CODE + k.unit] else [])
               else if k.Fragment? && !k.start && k.end && OpenedAt(before).Some? then
                 var out := Assembled(before, OpenedAt(before).value) + k.chunk;
                 if |out| <= MAX_NALU_SIZE then [out] else []
               else []
  {
    BufferedBytes(Kinds(codec, ps));
  }
}
