/** What a receiver reads from the headers of the packets, and the clock behind their timestamps. */
module RtpHeaders {
  import opened Bytes
  import opened AnnexB
  import opened Rtp

  const CLOCK_RATE := 90000
  const MICROSECONDS := 0x1_0000_0000_0000_0000

  // ---------------------------------------------------------------- reading headers

  /** Version 2 without padding, extension or contributing sources (section 5.1 of RFC 3550); then
      payload type, sequence number, timestamp and synchronisation source. */
  predicate Headed(p: seq<byte>, payloadType: int, seqNumber: int, stamp: int, ssrc: int) {
    && |p| >= HEADER_SIZE && p[0] == 0x80 && p[1] % 128 == payloadType
    && ReadU16(p, 2) == seqNumber && ReadU32(p, 4) == stamp && ReadU32(p, 8) == ssrc
  }

  lemma HeaderRead(session: Session, marker: bool, seqNumber: int, rest: seq<byte>)
    requires session.Valid() && 0 <= seqNumber < 0x10000
    ensures Headed(RtpHeader(session, marker, seqNumber) + rest, session.payloadType, seqNumber,
                   session.timestamp, session.ssrc)
    ensures (RtpHeader(session, marker, seqNumber) + rest)[1] >= 128 <==> marker
  {
    hide U16, U32;
    var number, stamp, source := U16(seqNumber), U32(session.timestamp), U32(session.ssrc);
    var p := RtpHeader(session, marker, seqNumber) + rest;
    assert p[2] == number[0] && p[3] == number[1];
    assert p[4] == stamp[0] && p[5] == stamp[1] && p[6] == stamp[2] && p[7] == stamp[3];
    assert p[8] == source[0] && p[9] == source[1] && p[10] == source[2] && p[11] == source[3];
  }

  /** Packets numbered from one number on, with one timestamp. */
  ghost predicate Numbered(ps: seq<seq<byte>>, session: Session, seqNumber: int) {
    forall k | 0 <= k < |ps| ::
      Headed(ps[k], session.payloadType, (seqNumber + k) % 0x10000, session.timestamp, session.ssrc)
  }

  lemma NumberedJoin(ps: seq<seq<byte>>, qs: seq<seq<byte>>, session: Session, seqNumber: int)
    requires 0 <= seqNumber < 0x10000
    requires Numbered(ps, session, seqNumber) && Numbered(qs, session, (seqNumber + |ps|) % 0x10000)
    ensures Numbered(ps + qs, session, seqNumber)
  {
    hide Headed;
    forall k | 0 <= k < |ps + qs|
      ensures Headed((ps + qs)[k], session.payloadType, (seqNumber + k) % 0x10000, session.timestamp, session.ssrc)
    {
      if k >= |ps| {
        assert (ps + qs)[k] == qs[k - |ps|];
        NextNumber(seqNumber, |ps|, k);
      } else {
        assert (ps + qs)[k] == ps[k];
      }
    }
  }

  lemma NextNumber(first: int, m: nat, k: nat)
    requires 0 <= first && m <= k
    ensures ((first + m) % 0x10000 + (k - m)) % 0x10000 == (first + k) % 0x10000
  {
  }

  lemma FuHeaded(codec: Codec, session: Session, seqNumber: int, unit: seq<byte>, start: bool, end: bool, chunk: seq<byte>)
    requires session.Valid() && 0 <= seqNumber < 0x10000 && |unit| >= codec.NaluHeaderSize()
    ensures Numbered([FuPacket(codec, session, seqNumber, unit, start, end, chunk)], session, seqNumber)
  {
    var h := FuHeaders(codec, unit, start, end);
    HeaderRead(session, end, seqNumber, h + chunk);
    assert RtpHeader(session, end, seqNumber) + h + chunk == RtpHeader(session, end, seqNumber) + (h + chunk);
  }

  lemma {:induction false} FragmentsHeaded(codec: Codec, session: Session, seqNumber: int, unit: seq<byte>, start: bool,
                                           body: seq<byte>)
    requires session.Valid() && 0 <= seqNumber < 0x10000 && |unit| >= codec.NaluHeaderSize()
    ensures Numbered(FuPackets(codec, session, seqNumber, unit, start, body), session, seqNumber)
    decreases |body|
  {
    hide FuPacket, Headed, Numbered;
    var size := codec.FuPayloadSize();
    if |body| == 0 {
      NoneNumbered(session, seqNumber);
    } else if |body| <= size {
      FuHeaded(codec, session, seqNumber, unit, start, true, body);
    } else {
      FuHeaded(codec, session, seqNumber, unit, start, false, body[..size]);
      FragmentsHeaded(codec, session, (seqNumber + 1) % 0x10000, unit, false, body[size..]);
      NumberedJoin([FuPacket(codec, session, seqNumber, unit, start, false, body[..size])],
                   FuPackets(codec, session, (seqNumber + 1) % 0x10000, unit, false, body[size..]), session, seqNumber);
    }
  }

  lemma NoneNumbered(session: Session, seqNumber: int)
    ensures Numbered([], session, seqNumber)
  {
  }

  lemma UnitHeaded(codec: Codec, session: Session, seqNumber: int, unit: seq<byte>)
    requires session.Valid() && 0 <= seqNumber < 0x10000
    ensures Numbered(UnitPackets(codec, session, seqNumber, unit), session, seqNumber)
  {
    hide Headed;
    if codec.SmallestUnit() <= |unit| <= PAYLOAD_SIZE {
      HeaderRead(session, SingleMarker(codec, unit), seqNumber, unit);
    } else if |unit| > PAYLOAD_SIZE {
      FragmentsHeaded(codec, session, seqNumber, unit, true, unit[codec.NaluHeaderSize()..]);
    }
  }

  lemma {:induction false} UnitsHeaded(codec: Codec, session: Session, seqNumber: int, units: seq<seq<byte>>)
    requires session.Valid() && 0 <= seqNumber < 0x10000
    ensures Numbered(UnitsPackets(codec, session, seqNumber, units), session, seqNumber)
    decreases |units|
  {
    hide Headed, Numbered, UnitPackets;
    if units == [] {
      NoneNumbered(session, seqNumber);
    } else {
      var first := UnitPackets(codec, session, seqNumber, units[0]);
      UnitHeaded(codec, session, seqNumber, units[0]);
      UnitsHeaded(codec, session, (seqNumber + |first|) % 0x10000, units[1..]);
      NumberedJoin(first, UnitsPackets(codec, session, (seqNumber + |first|) % 0x10000, units[1..]), session, seqNumber);
    }
  }

  /** Every packet of a buffer has the session's fields and timestamp, and the next number. */
  lemma AllHeaded(codec: Codec, session: Session, seqNumber: int, buf: seq<byte>)
    requires session.Valid() && 0 <= seqNumber < 0x10000
    ensures Numbered(Encode(codec, session, seqNumber, buf), session, seqNumber)
  {
    UnitsHeaded(codec, session, seqNumber, Split(buf));
  }

  // ---------------------------------------------------------------- markers and fragment headers

  /** The bytes of a fragment behind the RTP header: indicator or payload header of the FU type with the
      bits kept from the unit, then start flag, end flag and the unit's type (section 5.8 of RFC 6184,
      section 4.4.3 of RFC 7798). */
  ghost predicate FragmentBytes(codec: Codec, unit: seq<byte>, p: seq<byte>, first: bool, last: bool)
    requires |unit| >= codec.NaluHeaderSize()
  {
    var flags := (if first then 0x80 else 0) + (if last then 0x40 else 0);
    && |p| > HEADER_SIZE + codec.NaluHeaderSize()
    && (p[1] >= 128 <==> last)
    && (codec.H264? ==>
          p[12] % 32 == 28 && p[12] / 32 == unit[0] / 32 % 4 && p[13] == flags + unit[0] % 32)
    && (codec.H265? ==>
          && p[12] / 2 % 64 == 49 && p[12] / 128 == unit[0] / 128 && p[12] % 2 == unit[0] % 2
          && p[13] == unit[1] && p[14] == flags + unit[0] / 2 % 64)
  }

  lemma FuPacketBytes(codec: Codec, session: Session, seqNumber: int, unit: seq<byte>, start: bool, end: bool,
                      chunk: seq<byte>)
    requires session.Valid() && 0 <= seqNumber < 0x10000 && |unit| >= codec.NaluHeaderSize()
    ensures FragmentBytes(codec, unit, FuPacket(codec, session, seqNumber, unit, start, end, chunk), start, end)
  {
    hide U16, U32;
    var h := FuHeaders(codec, unit, start, end);
    var p := FuPacket(codec, session, seqNumber, unit, start, end, chunk);
    assert p[1] == RtpHeader(session, end, seqNumber)[1];
    assert p[12] == h[0] && p[13] == h[1];
    if codec.H265? {
      assert p[14] == h[2];
      PayloadHeaderBits(unit[0]);
    }
  }

  lemma PayloadHeaderBits(b: byte)
    ensures var h := b / 128 * 128 + b % 2 + H265_FU * 2;
            h / 2 % 64 == 49 && h / 128 == b / 128 && h % 2 == b % 2
  {
    if b >= 128 { assert b / 128 == 1; } else { assert b / 128 == 0; }
  }

  lemma {:induction false} FragmentsBytes(codec: Codec, session: Session, seqNumber: int, unit: seq<byte>, start: bool,
                                          body: seq<byte>, k: nat)
    requires session.Valid() && 0 <= seqNumber < 0x10000 && |unit| >= codec.NaluHeaderSize()
    requires k < |FuPackets(codec, session, seqNumber, unit, start, body)|
    ensures var ps := FuPackets(codec, session, seqNumber, unit, start, body);
            FragmentBytes(codec, unit, ps[k], start && k == 0, k == |ps| - 1)
    decreases |body|
  {
    hide FuPacket, FragmentBytes;
    var size, next := codec.FuPayloadSize(), (seqNumber + 1) % 0x10000;
    if |body| <= size {
      FuPacketBytes(codec, session, seqNumber, unit, start, true, body);
    } else {
      var rest := FuPackets(codec, session, next, unit, false, body[size..]);
      assert rest != [];
      if k == 0 {
        FuPacketBytes(codec, session, seqNumber, unit, start, false, body[..size]);
      } else {
        FragmentsBytes(codec, session, next, unit, false, body[size..], k - 1);
        assert FuPackets(codec, session, seqNumber, unit, start, body)[k] == rest[k - 1];
      }
    }
  }

  /** The bytes and the marker of each packet of a unit. A unit in one packet is marked if it is a slice
      of the types the encoder knows. */
  lemma UnitBytes(codec: Codec, session: Session, seqNumber: int, unit: seq<byte>, k: nat)
    requires session.Valid() && 0 <= seqNumber < 0x10000
    requires k < |UnitPackets(codec, session, seqNumber, unit)|
    ensures |unit| >= codec.NaluHeaderSize()
    ensures var ps := UnitPackets(codec, session, seqNumber, unit);
            if |unit| > PAYLOAD_SIZE then FragmentBytes(codec, unit, ps[k], k == 0, k == |ps| - 1)
            else
              && |ps| == 1 && |ps[0]| == HEADER_SIZE + |unit| && ps[0][HEADER_SIZE..] == unit
              && (ps[0][1] >= 128 <==>
                    if codec.H264? then unit[0] % 32 in {1, 5} else unit[0] / 2 % 64 in {1, 19, 20, 21})
  {
    if |unit| > PAYLOAD_SIZE {
      FragmentsBytes(codec, session, seqNumber, unit, true, unit[codec.NaluHeaderSize()..], k);
    } else {
      HeaderRead(session, SingleMarker(codec, unit), seqNumber, unit);
    }
  }

  // ---------------------------------------------------------------- the clock

  /** The timestamp for a number of microseconds since the base, in the 64-bit arithmetic of the encoder. */
  function Ticks(delta: int): (stamp: int)
    ensures 0 <= stamp < 0x1_0000_0000
  {
    delta % MICROSECONDS * CLOCK_RATE % MICROSECONDS / 1000000 % 0x1_0000_0000
  }

  /** Until the product wraps, after 2372 days, it is the number of whole ticks of 100/9 microseconds
      that have passed, modulo 2^32. */
  lemma TicksCount(delta: int, n: int)
    requires 0 <= delta && delta * CLOCK_RATE < MICROSECONDS
    requires 100 * n <= 9 * delta < 100 * n + 100
    ensures Ticks(delta) == n % 0x1_0000_0000
  {
    Unwrapped(delta, MICROSECONDS);
    Unwrapped(delta * CLOCK_RATE, MICROSECONDS);
    WholeTicks(delta, n);
  }

  lemma Unwrapped(x: int, m: int)
    requires 0 <= x < m
    ensures x % m == x
  {
  }

  lemma WholeTicks(delta: int, n: int)
    requires 100 * n <= 9 * delta < 100 * n + 100
    ensures delta * 90000 / 1000000 == n
  {
  }

  /** Later buffers do not carry smaller timestamps until the 32 bits wrap. */
  lemma TicksGrow(delta: int, delta': int)
    requires 0 <= delta <= delta' && delta' * 9 < 100 * 0x1_0000_0000
    ensures Ticks(delta) <= Ticks(delta')
  {
    TicksCount(delta, delta * 9 / 100);
    TicksCount(delta', delta' * 9 / 100);
  }
}
