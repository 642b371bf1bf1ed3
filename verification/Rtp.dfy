/** RTP payloads for H.264 (RFC 6184) and H.265 (RFC 7798): what the encoders send and what the
    decoders make of a packet, as functions. `RtpCodec` holds the code that computes them. */
module Rtp {
  import opened Options
  import opened Bytes
  import opened AnnexB

  const MTU := 1300
  const HEADER_SIZE := 12
  const PAYLOAD_SIZE := MTU - HEADER_SIZE
  const MAX_NALU_SIZE := 10240
  const FU_A := 28
  const H265_FU := 49
  const START_CODE: seq<byte> := [0, 0, 0, 1]

  datatype Codec = H264 | H265 {
    /** Bytes of the NAL unit header, which a fragmentation unit carries in another form. */
    function NaluHeaderSize(): nat { if H264? then 1 else 2 }

    function FuPayloadSize(): nat { PAYLOAD_SIZE - NaluHeaderSize() - 1 }

    function SmallestUnit(): nat { if H264? then 1 else 2 }
  }

  // ---------------------------------------------------------------- headers

  /** The fields of the RTP header that one encoder never changes, and its timestamp. */
  datatype Session = Session(payloadType: int, timestamp: int, ssrc: int) {
    predicate Valid() {
      0 <= payloadType < 128 && 0 <= timestamp < 0x1_0000_0000 && 0 <= ssrc < 0x1_0000_0000
    }
  }

  function RtpHeader(session: Session, marker: bool, seqNumber: int): (h: seq<byte>)
    requires session.Valid() && 0 <= seqNumber < 0x10000
    ensures |h| == HEADER_SIZE
  {
    [0x80, (if marker then 128 else 0) + session.payloadType] + U16(seqNumber) +
    U32(session.timestamp) + U32(session.ssrc)
  }

  function MarkerOf(packet: seq<byte>): bool
    requires |packet| >= HEADER_SIZE
  {
    packet[1] >= 128
  }

  function SeqNumberOf(packet: seq<byte>): int
    requires |packet| >= HEADER_SIZE
  {
    ReadU16(packet, 2)
  }

  function NaluType(codec: Codec, unit: seq<byte>): int
    requires |unit| > 0
  {
    if codec.H264? then unit[0] % 32 else unit[0] / 2 % 64
  }

  /** The forbidden_zero_bit of a NAL unit. */
  predicate ForbiddenBit(unit: seq<byte>)
    requires |unit| > 0
  {
    unit[0] >= 128
  }

  predicate SingleMarker(codec: Codec, unit: seq<byte>)
    requires |unit| > 0
  {
    var t := NaluType(codec, unit);
    if codec.H264? then t == 5 || t == 1 else t == 1 || t == 19 || t == 20 || t == 21
  }

  /** The S and E bits of an FU header. */
  function FuFlags(start: bool, end: bool): (f: int)
    ensures f in {0, 64, 128, 192} && (f >= 128 <==> start) && (f % 128 == 64 <==> end)
  {
    (if start then 128 else 0) + if end then 64 else 0
  }

  /** What replaces the NAL unit header in a fragmentation unit: the payload header with the FU
      type, then the FU header with the original type. */
  function FuHeaders(codec: Codec, unit: seq<byte>, start: bool, end: bool): (h: seq<byte>)
    requires |unit| >= codec.NaluHeaderSize()
    ensures |h| == codec.NaluHeaderSize() + 1
  {
    var flags := FuFlags(start, end);
    if codec.H264? then
      [unit[0] / 32 % 4 * 32 + FU_A, flags + NaluType(codec, unit)]
    else
      [unit[0] / 128 * 128 + unit[0] % 2 + H265_FU * 2, unit[1], flags + NaluType(codec, unit)]
  }

  // ---------------------------------------------------------------- encoding

  /** Fragments of at most `size` bytes. */
  function Chunks(body: seq<byte>, size: nat): seq<seq<byte>>
    requires size > 0
  {
    if |body| == 0 then []
    else if |body| <= size then [body]
    else [body[..size]] + Chunks(body[size..], size)
  }

  function FuPacket(codec: Codec, session: Session, seqNumber: int, unit: seq<byte>, start: bool, end: bool,
                    chunk: seq<byte>): seq<byte>
    requires session.Valid() && 0 <= seqNumber < 0x10000 && |unit| >= codec.NaluHeaderSize()
  {
    RtpHeader(session, end, seqNumber) + FuHeaders(codec, unit, start, end) + chunk
  }

  /** The packets for the rest of a fragmented unit. */
  function FuPackets(codec: Codec, session: Session, seqNumber: int, unit: seq<byte>, start: bool, body: seq<byte>)
      : (ps: seq<seq<byte>>)
    requires session.Valid() && 0 <= seqNumber < 0x10000 && |unit| >= codec.NaluHeaderSize()
    decreases |body|
  {
    var size := codec.FuPayloadSize();
    if |body| == 0 then []
    else if |body| <= size then [FuPacket(codec, session, seqNumber, unit, start, true, body)]
    else [FuPacket(codec, session, seqNumber, unit, start, false, body[..size])] +
         FuPackets(codec, session, (seqNumber + 1) % 0x10000, unit, false, body[size..])
  }

  /** The packets of one NAL unit. */
  function UnitPackets(codec: Codec, session: Session, seqNumber: int, unit: seq<byte>): (ps: seq<seq<byte>>)
    requires session.Valid() && 0 <= seqNumber < 0x10000
  {
    if |unit| < codec.SmallestUnit() then []
    else if |unit| <= PAYLOAD_SIZE then [RtpHeader(session, SingleMarker(codec, unit), seqNumber) + unit]
    else FuPackets(codec, session, seqNumber, unit, true, unit[codec.NaluHeaderSize()..])
  }

  function UnitsPackets(codec: Codec, session: Session, seqNumber: int, units: seq<seq<byte>>): seq<seq<byte>>
    requires session.Valid() && 0 <= seqNumber < 0x10000
    decreases |units|
  {
    if units == [] then [] else
    var first := UnitPackets(codec, session, seqNumber, units[0]);
    first + UnitsPackets(codec, session, (seqNumber + |first|) % 0x10000, units[1..])
  }

  /** Everything the encoder sends for one buffer of Annex B data. */
  function Encode(codec: Codec, session: Session, seqNumber: int, buf: seq<byte>): seq<seq<byte>>
    requires session.Valid() && 0 <= seqNumber < 0x10000
  {
    UnitsPackets(codec, session, seqNumber, Split(buf))
  }

  // ---------------------------------------------------------------- decoding

  /** What a decoder takes a packet to be. */
  datatype Kind =
    | Short
    | Single(unit: seq<byte>)
    | Fragment(start: bool, end: bool, header: seq<byte>, chunk: seq<byte>)
    | Unknown

  function Classify(codec: Codec, packet: seq<byte>): Kind {
    if |packet| < HEADER_SIZE + codec.SmallestUnit() then Short else
    var payload := packet[HEADER_SIZE..];
    var t := NaluType(codec, payload);
    if codec.H264? then
      if 0 < t < 24 then Single(payload)
      else if t == FU_A && |payload| >= 2 then
        Fragment(payload[1] >= 128, payload[1] / 64 % 2 == 1,
                 [payload[0] / 32 * 32 + payload[1] % 32], payload[2..])
      else Unknown
    else
      if t < 48 then Single(payload)
      else if t == H265_FU && |payload| >= 3 then
        Fragment(payload[2] >= 128, payload[2] / 64 % 2 == 1,
                 [payload[0] / 128 * 128 + payload[2] % 64 * 2 + payload[0] % 2, payload[1]], payload[3..])
      else Unknown
  }

  /** rtp_decoder_append_nalu: an overflow empties the buffer. */
  function Append(nalu: seq<byte>, data: seq<byte>): Option<seq<byte>> {
    if |nalu| + |data| > MAX_NALU_SIZE then None else Some(nalu + data)
  }

  /** The buffered bytes after a packet, and what the packet made the decoder deliver. */
  datatype Decoded = Decoded(nalu: seq<byte>, delivered: seq<seq<byte>>)

  /** The effect of one packet, by what it was taken to be. */
  function Accept(nalu: seq<byte>, k: Kind): (r: Decoded)
    requires |nalu| <= MAX_NALU_SIZE
    ensures |r.nalu| <= MAX_NALU_SIZE
  {
    match k
    case Short => Decoded(nalu, [])
    case Unknown => Decoded([], [])
    case Single(unit) =>
      (match Append(START_CODE, unit)
       case None => Decoded([], [])
       case Some(out) => Decoded([], [out]))
    case Fragment(start, end, header, chunk) =>
      if start then
        (match Append(START_CODE + header, chunk)
         case None => Decoded([], [])
         case Some(out) => Decoded(out, []))
      else if nalu == [] then Decoded([], [])
      else
        (match Append(nalu, chunk)
         case None => Decoded([], [])
         case Some(out) => if end then Decoded([], [out]) else Decoded(out, []))
  }

  function AcceptAll(nalu: seq<byte>, ks: seq<Kind>): (r: Decoded)
    requires |nalu| <= MAX_NALU_SIZE
    ensures |r.nalu| <= MAX_NALU_SIZE
    decreases |ks|
  {
    if ks == [] then Decoded(nalu, []) else
    var first := Accept(nalu, ks[0]);
    var rest := AcceptAll(first.nalu, ks[1..]);
    Decoded(rest.nalu, first.delivered + rest.delivered)
  }

  function Kinds(codec: Codec, packets: seq<seq<byte>>): (ks: seq<Kind>)
    ensures |ks| == |packets| && forall i | 0 <= i < |ks| :: ks[i] == Classify(codec, packets[i])
  {
    seq(|packets|, i requires 0 <= i < |packets| => Classify(codec, packets[i]))
  }

  /** A run of the decoder over some packets, from a given content of its buffer. */
  function Decode(codec: Codec, nalu: seq<byte>, packets: seq<seq<byte>>): (r: Decoded)
    requires |nalu| <= MAX_NALU_SIZE
    ensures |r.nalu| <= MAX_NALU_SIZE
  {
    AcceptAll(nalu, Kinds(codec, packets))
  }
}
