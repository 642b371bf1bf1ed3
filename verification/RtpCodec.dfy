/** The RTP encoder and decoder as they run: packets are built in one buffer, NAL units are
    gathered in another. `Rtp` says what they compute. */
module RtpCodec {
  import opened Options
  import opened Bytes
  import opened AnnexB
  import opened Rtp
  import opened RtpHeaders

  class RtpEncoder {
    const codec: Codec
    const payloadType: int
    const ssrc: int
    const clockRate: nat
    var timestamp: int
    var baseTimestampUs: nat
    var seqNumber: int
    const buf: array<byte>
    /** What on_packet has been called with. */
    var sent: seq<seq<byte>>

    ghost predicate Valid()
      reads this
    {
      && 0 <= seqNumber < 0x10000 && Session().Valid() && buf.Length == MTU + 128
      && clockRate == CLOCK_RATE && 0 <= baseTimestampUs < MICROSECONDS
    }

    function Session(): Session
      reads this
    {
      Rtp.Session(payloadType, timestamp, ssrc)
    }

    constructor (codec: Codec)
      ensures Valid() && fresh(buf) && this.codec == codec && seqNumber == 0 && sent == [] && baseTimestampUs == 0
      ensures payloadType == (if codec.H264? then 96 else 98) && ssrc == (if codec.H264? then 1 else 2)
    {
      this.codec := codec;
      payloadType, ssrc := if codec.H264? then 96 else 98, if codec.H264? then 1 else 2;
      clockRate, timestamp, baseTimestampUs, seqNumber := 90000, 0, 0, 0;
      buf := new byte[MTU + 128](_ => 0);
      sent := [];
    }

    /** memcpy into the packet buffer. */
    method Put(offset: nat, data: seq<byte>)
      requires Valid() && offset + |data| <= buf.Length
      modifies buf
      ensures buf[..offset + |data|] == old(buf[..offset]) + data
    {
      forall i | 0 <= i < |data| { buf[offset + i] := data[i]; }
      assert buf[..offset] == old(buf[..offset]);
      assert buf[offset..offset + |data|] == data;
      assert buf[..offset + |data|] == buf[..offset] + buf[offset..offset + |data|];
    }

    method WriteHeader(marker: bool)
      requires Valid()
      modifies this`seqNumber, buf
      ensures Valid() && seqNumber == (old(seqNumber) + 1) % 0x10000
      ensures buf[..HEADER_SIZE] == RtpHeader(Session(), marker, old(seqNumber))
    {
      hide U16, U32;
      Put(0, [0x80, (if marker then 128 else 0) + payloadType]);
      Put(2, U16(seqNumber));
      Put(4, U32(timestamp));
      Put(8, U32(ssrc));
      seqNumber := (seqNumber + 1) % 0x10000;
    }

    method EncodeSingle(unit: seq<byte>)
      requires Valid() && codec.SmallestUnit() <= |unit| <= PAYLOAD_SIZE
      modifies this`seqNumber, this`sent, buf
      ensures Valid() && seqNumber == (old(seqNumber) + 1) % 0x10000
      ensures sent == old(sent) + UnitPackets(codec, Session(), old(seqNumber), unit)
    {
      WriteHeader(SingleMarker(codec, unit));
      Put(HEADER_SIZE, unit);
      sent := sent + [buf[..HEADER_SIZE + |unit|]];
    }

    /** Fragmentation: fragments of the payload size while more remains, then the rest with the
        E bit and the marker. */
    method EncodeFu(unit: seq<byte>)
      requires Valid() && |unit| > PAYLOAD_SIZE
      modifies this`seqNumber, this`sent, buf
      ensures Valid()
      ensures sent == old(sent) + UnitPackets(codec, Session(), old(seqNumber), unit)
      ensures seqNumber == (old(seqNumber) + |UnitPackets(codec, Session(), old(seqNumber), unit)|) % 0x10000
    {
      hide RtpHeader, FuHeaders, FuPacket, FuPackets;
      var size := codec.FuPayloadSize();
      var body := unit[codec.NaluHeaderSize()..];
      var start := true;
      ghost var all := FuPackets(codec, Session(), seqNumber, unit, true, body);
      while |body| > 0
        invariant Valid() && Session() == old(Session())
        invariant sent + FuPackets(codec, Session(), seqNumber, unit, start, body) == old(sent) + all
        invariant (seqNumber + |FuPackets(codec, Session(), seqNumber, unit, start, body)|) % 0x10000 ==
                  (old(seqNumber) + |all|) % 0x10000
        decreases |body|
      {
        FuStep(codec, Session(), seqNumber, unit, start, body, sent);
        if |body| <= size {
          SendFragment(unit, start, true, body);
          start, body := false, [];
          break;
        }
        SendFragment(unit, start, false, body[..size]);
        body, start := body[size..], false;
      }
      NoFragments(codec, Session(), seqNumber, unit, start);
    }

    method SendFragment(unit: seq<byte>, start: bool, end: bool, chunk: seq<byte>)
      requires Valid() && |unit| > PAYLOAD_SIZE && |chunk| <= codec.FuPayloadSize()
      modifies this`seqNumber, this`sent, buf
      ensures Valid() && seqNumber == (old(seqNumber) + 1) % 0x10000
      ensures sent == old(sent) + [FuPacket(codec, Session(), old(seqNumber), unit, start, end, chunk)]
    {
      WriteHeader(end);
      var headers := FuHeaders(codec, unit, start, end);
      Put(HEADER_SIZE, headers);
      Put(HEADER_SIZE + |headers|, chunk);
      sent := sent + [buf[..HEADER_SIZE + |headers| + |chunk|]];
    }

    /** The splitting loop: from one start code to the next, without the zeros in between. */
    method EncodeUnits(data: seq<byte>)
      requires Valid()
      modifies this`seqNumber, this`sent, buf
      ensures Valid()
      ensures sent == old(sent) + Encode(codec, Session(), old(seqNumber), data)
    {
      hide UnitPackets, UnitsPackets, UnitsFrom, TrimZeros, AfterStartCode;
      var pstart := FindNalu(data, 0);
      ghost var all := UnitsPackets(codec, Session(), seqNumber, UnitsFrom(data, pstart));
      while pstart < |data|
        invariant Valid() && Session() == old(Session()) && pstart <= |data|
        invariant sent + UnitsPackets(codec, Session(), seqNumber, UnitsFrom(data, pstart)) == old(sent) + all
        decreases |data| - pstart
      {
        var pend := FindNalu(data, pstart);
        var raw := data[pstart..if pend != |data| then pend - 1 else pend];
        var size := TrimmedSize(raw);
        UnitsStep(codec, Session(), seqNumber, data, pstart, pend, raw[..size], sent);
        EncodeUnit(raw[..size]);
        pstart := pend;
      }
      NoUnits(codec, Session(), seqNumber, data);
    }

    /** One unit; the empty ones, and for H.265 those of one byte, are skipped. */
    method EncodeUnit(unit: seq<byte>)
      requires Valid()
      modifies this`seqNumber, this`sent, buf
      ensures Valid()
      ensures sent == old(sent) + UnitPackets(codec, Session(), old(seqNumber), unit)
      ensures seqNumber == (old(seqNumber) + |UnitPackets(codec, Session(), old(seqNumber), unit)|) % 0x10000
    {
      if |unit| < codec.SmallestUnit() {
      } else if |unit| <= PAYLOAD_SIZE {
        EncodeSingle(unit);
      } else {
        EncodeFu(unit);
      }
    }

    /** The public entry: time stamps count clock ticks since the first buffer, in 64-bit
        arithmetic cut to 32 bits. */
    /** The first call that finds no base time sets it. All packets of a buffer carry the ticks of the
        90 kHz clock since then. */
    method RtpEncode(data: seq<byte>, timestampUs: nat) returns (ret: int)
      requires Valid() && timestampUs < MICROSECONDS
      modifies this, buf
      ensures Valid()
      ensures data == [] ==> ret == -1 && unchanged(this)
      ensures data != [] ==>
                && ret == 0
                && baseTimestampUs == (if old(baseTimestampUs) == 0 then timestampUs else old(baseTimestampUs))
                && sent == old(sent) + Encode(codec, Session(), old(seqNumber), data)
                && forall k | |old(sent)| <= k < |sent| ::
                     Headed(sent[k], payloadType, (old(seqNumber) + k - |old(sent)|) % 0x10000,
                            Ticks(timestampUs - baseTimestampUs), ssrc)
    {
      if |data| == 0 { return -1; }
      if baseTimestampUs == 0 { baseTimestampUs := timestampUs; }
      var delta := (timestampUs - baseTimestampUs) % MICROSECONDS;
      timestamp := delta * clockRate % MICROSECONDS / 1000000 % 0x1_0000_0000;
      ghost var first := seqNumber;
      EncodeUnits(data);
      AllHeaded(codec, Session(), first, data);
      ret := 0;
    }
  }

  /** Unfolds the packets of a fragmented unit by one packet. */
  lemma FuStep(codec: Codec, session: Session, seqNumber: int, unit: seq<byte>, start: bool, body: seq<byte>,
               sent: seq<seq<byte>>)
    requires session.Valid() && 0 <= seqNumber < 0x10000 && |unit| >= codec.NaluHeaderSize() && |body| > 0
    ensures var size, next := codec.FuPayloadSize(), (seqNumber + 1) % 0x10000;
            var last := |body| <= size;
            var p := FuPacket(codec, session, seqNumber, unit, start, last, if last then body else body[..size]);
            var rest := FuPackets(codec, session, next, unit, false, if last then [] else body[size..]);
            var all := FuPackets(codec, session, seqNumber, unit, start, body);
            && (last ==> FuPackets(codec, session, next, unit, start, []) == [])
            && sent + all == sent + [p] + rest && |all| == 1 + |rest|
            && (next + |rest|) % 0x10000 == (seqNumber + |all|) % 0x10000
  {
    hide FuPacket;
    if |body| <= codec.FuPayloadSize() {
      assert FuPackets(codec, session, (seqNumber + 1) % 0x10000, unit, false, []) == [];
    }
  }

  /** Unfolds the units of a buffer by one unit. */
  lemma UnitsStep(codec: Codec, session: Session, seqNumber: int, data: seq<byte>, i: nat, end: nat, unit: seq<byte>,
                  sent: seq<seq<byte>>)
    requires session.Valid() && 0 <= seqNumber < 0x10000 && i < |data|
    requires end == AfterStartCode(data, i)
    requires unit == TrimZeros(data[i..if end != |data| then end - 1 else end])
    ensures var first := UnitPackets(codec, session, seqNumber, unit);
            sent + UnitsPackets(codec, session, seqNumber, UnitsFrom(data, i)) ==
            (sent + first) + UnitsPackets(codec, session, (seqNumber + |first|) % 0x10000, UnitsFrom(data, end))
  {
    hide UnitPackets, UnitsPackets, UnitsFrom, TrimZeros, AfterStartCode;
    UnfoldUnits(data, i, end, unit);
    if unit == [] {
      NoPackets(codec, session, seqNumber);
      assert sent + [] == sent;
    } else {
      PacketsStep(codec, session, seqNumber, unit, UnitsFrom(data, end), sent);
    }
  }

  lemma UnfoldUnits(data: seq<byte>, i: nat, end: nat, unit: seq<byte>)
    requires i < |data| && end == AfterStartCode(data, i)
    requires unit == TrimZeros(data[i..if end != |data| then end - 1 else end])
    ensures UnitsFrom(data, i) == if unit == [] then UnitsFrom(data, end) else [unit] + UnitsFrom(data, end)
  {
    hide TrimZeros, AfterStartCode;
  }

  lemma NoUnits(codec: Codec, session: Session, seqNumber: int, data: seq<byte>)
    requires session.Valid() && 0 <= seqNumber < 0x10000
    ensures UnitsPackets(codec, session, seqNumber, UnitsFrom(data, |data|)) == []
  {
  }

  lemma NoFragments(codec: Codec, session: Session, seqNumber: int, unit: seq<byte>, start: bool)
    requires session.Valid() && 0 <= seqNumber < 0x10000 && |unit| >= codec.NaluHeaderSize()
    ensures FuPackets(codec, session, seqNumber, unit, start, []) == []
  {
  }

  lemma NoPackets(codec: Codec, session: Session, seqNumber: int)
    requires session.Valid() && 0 <= seqNumber < 0x10000
    ensures UnitPackets(codec, session, seqNumber, []) == []
  {
  }

  lemma PacketsStep(codec: Codec, session: Session, seqNumber: int, unit: seq<byte>, rest: seq<seq<byte>>,
                    sent: seq<seq<byte>>)
    requires session.Valid() && 0 <= seqNumber < 0x10000
    ensures var first := UnitPackets(codec, session, seqNumber, unit);
            sent + UnitsPackets(codec, session, seqNumber, [unit] + rest) ==
            (sent + first) + UnitsPackets(codec, session, (seqNumber + |first|) % 0x10000, rest)
  {
    hide UnitPackets;
    assert ([unit] + rest)[1..] == rest;
  }

  class RtpDecoder {
    const codec: Codec
    const naluBuf: array<byte>
    var naluOffset: nat
    /** What on_packet has been called with. */
    var delivered: seq<seq<byte>>

    ghost predicate Valid()
      reads this
    {
      naluBuf.Length == MAX_NALU_SIZE && naluOffset <= MAX_NALU_SIZE
    }

    ghost function Nalu(): seq<byte>
      requires Valid()
      reads this, naluBuf
    {
      naluBuf[..naluOffset]
    }

    constructor (codec: Codec)
      ensures Valid() && fresh(naluBuf) && this.codec == codec && Nalu() == [] && delivered == []
    {
      this.codec := codec;
      naluBuf := new byte[MAX_NALU_SIZE](_ => 0);
      naluOffset, delivered := 0, [];
    }

    method AppendNalu(data: seq<byte>) returns (ok: bool)
      requires Valid()
      modifies this`naluOffset, naluBuf
      ensures Valid() && ok == Append(old(Nalu()), data).Some?
      ensures Nalu() == if ok then old(Nalu()) + data else []
    {
      if |data| > naluBuf.Length - naluOffset {
        naluOffset := 0;
        return false;
      }
      forall i | 0 <= i < |data| { naluBuf[naluOffset + i] := data[i]; }
      ghost var was := naluOffset;
      naluOffset := naluOffset + |data|;
      assert naluBuf[..was] == old(Nalu()) && naluBuf[was..naluOffset] == data;
      assert naluBuf[..naluOffset] == naluBuf[..was] + naluBuf[was..naluOffset];
      ok := true;
    }

    method Deliver()
      requires Valid()
      modifies this`naluOffset, this`delivered
      ensures Valid() && Nalu() == [] && delivered == old(delivered) + [old(Nalu())]
    {
      delivered := delivered + [naluBuf[..naluOffset]];
      naluOffset := 0;
    }

    method DecodeSingle(unit: seq<byte>, size: nat) returns (ret: int)
      requires Valid() && |unit| <= size
      modifies this, naluBuf
      ensures Valid() && Nalu() == Accept(old(Nalu()), Single(unit)).nalu
      ensures delivered == old(delivered) + Accept(old(Nalu()), Single(unit)).delivered
      ensures ret == if Append(START_CODE, unit).Some? then size else -1
    {
      naluOffset := 0;
      var ok := AppendNalu(START_CODE);
      assert Nalu() == START_CODE;
      ok := AppendNalu(unit);
      if !ok { return -1; }
      Deliver();
      ret := size;
    }

    method DecodeFragment(start: bool, end: bool, header: seq<byte>, chunk: seq<byte>) returns (ret: int)
      requires Valid() && |header| <= 2
      modifies this, naluBuf
      ensures Valid() && Nalu() == Accept(old(Nalu()), Fragment(start, end, header, chunk)).nalu
      ensures delivered == old(delivered) + Accept(old(Nalu()), Fragment(start, end, header, chunk)).delivered
      ensures var held := if start then START_CODE + header else old(Nalu());
              ret == if held != [] && Append(held, chunk).None? then -1 else 0
    {
      ret := 0;
      if start {
        naluOffset := 0;
        var ok := AppendNalu(START_CODE);
        assert Nalu() == START_CODE;
        ok := AppendNalu(header);
        assert Nalu() == START_CODE + header;
        ok := AppendNalu(chunk);
        if !ok { return -1; }
      } else if naluOffset != 0 {
        var ok := AppendNalu(chunk);
        if !ok { return -1; }
        if end {
          Deliver();
        }
      }
    }

    /** A packet of an unknown type drops whatever was being assembled. */
    method Drop()
      requires Valid()
      modifies this`naluOffset
      ensures Valid() && Nalu() == []
    {
      naluOffset := 0;
    }

    method DecodeH264(packet: seq<byte>) returns (ret: int)
      requires Valid() && codec.H264?
      modifies this, naluBuf
      ensures Valid() && Nalu() == Accept(old(Nalu()), Classify(codec, packet)).nalu
      ensures delivered == old(delivered) + Accept(old(Nalu()), Classify(codec, packet)).delivered
      ensures Classify(codec, packet).Short? || Classify(codec, packet).Unknown? ==> ret == -1
    {
      if |packet| <= HEADER_SIZE { return -1; }
      var payload := packet[HEADER_SIZE..];
      var naluType := payload[0] % 32;
      if naluType > 0 && naluType < 24 {
        ret := DecodeSingle(payload, |packet|);
      } else if naluType == FU_A && |payload| >= 2 {
        var indicator, fu := payload[0], payload[1];
        ret := DecodeFragment(fu >= 128, fu / 64 % 2 == 1, [indicator / 32 * 32 + fu % 32], payload[2..]);
      } else {
        Drop();
        ret := -1;
      }
    }

    method DecodeH265(packet: seq<byte>) returns (ret: int)
      requires Valid() && codec.H265?
      modifies this, naluBuf
      ensures Valid() && Nalu() == Accept(old(Nalu()), Classify(codec, packet)).nalu
      ensures delivered == old(delivered) + Accept(old(Nalu()), Classify(codec, packet)).delivered
      ensures Classify(codec, packet).Short? || Classify(codec, packet).Unknown? ==> ret == -1
    {
      if |packet| < HEADER_SIZE + 2 { return -1; }
      var payload := packet[HEADER_SIZE..];
      var nalType := payload[0] / 2 % 64;
      if nalType < 48 {
        ret := DecodeSingle(payload, |packet|);
      } else if nalType == H265_FU && |payload| >= 3 {
        var fu := payload[2];
        var header := [payload[0] / 128 * 128 + fu % 64 * 2 + payload[0] % 2, payload[1]];
        ret := DecodeFragment(fu >= 128, fu / 64 % 2 == 1, header, payload[3..]);
      } else {
        Drop();
        ret := -1;
      }
    }
  }
}
