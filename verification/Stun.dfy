/** STUN messages (RFC 5389): building them attribute by attribute, signing, walking, validating
    and parsing them, as functions on byte sequences. `StunMessages` holds the code. */
module Stun {
  import opened Options
  import opened Bytes

  const BUF_SIZE := 1500
  const HEADER := 20
  const COOKIE: seq<byte> := [0x21, 0x12, 0xA4, 0x42]

  const MAPPED_ADDRESS := 0x0001
  const USERNAME := 0x0006
  const MESSAGE_INTEGRITY := 0x0008
  const ERROR_CODE := 0x0009
  const CHANNEL_NUMBER := 0x000C
  const XOR_PEER_ADDRESS := 0x0012
  const DATA := 0x0013
  const REALM := 0x0014
  const NONCE := 0x0015
  const XOR_RELAYED_ADDRESS := 0x0016
  const XOR_MAPPED_ADDRESS := 0x0020
  const FINGERPRINT := 0x8028

  /** The keyed hash and the checksum, of which only determinism and the sizes of the results
      matter. */
  datatype Crypto = Crypto(hmac: (seq<byte>, seq<byte>) -> seq<byte>, crc: seq<byte> -> seq<byte>) {
    ghost predicate Valid() {
      (forall m, k :: |hmac(m, k)| == 20) && (forall m :: |crc(m)| == 4)
    }
  }

  // ---------------------------------------------------------------- building

  datatype Attribute = Attribute(typ: int, value: seq<byte>) {
    predicate Valid() {
      0 <= typ < 0x10000 && |value| < 0x10000
    }
  }

  function Padded(n: nat): (p: nat)
    ensures p % 4 == 0 && n <= p < n + 4
  {
    (n + 3) / 4 * 4
  }

  function EncodeAttribute(a: Attribute): (e: seq<byte>)
    requires a.Valid()
    ensures |e| == 4 + Padded(|a.value|) && |e| % 4 == 0
  {
    U16(a.typ) + U16(|a.value|) + a.value + Zeros(Padded(|a.value|) - |a.value|)
  }

  function Body(attributes: seq<Attribute>): (b: seq<byte>)
    requires forall i | 0 <= i < |attributes| :: attributes[i].Valid()
    ensures |b| % 4 == 0
  {
    if attributes == [] then []
    else
      var front := Body(attributes[..|attributes| - 1]);
      var last := EncodeAttribute(attributes[|attributes| - 1]);
      FoursAdd(|front|, |last|);
      front + last
  }

  lemma FoursAdd(m: nat, n: nat)
    requires m % 4 == 0 && n % 4 == 0
    ensures (m + n) % 4 == 0
  {
  }

  /** A message is consistent: its size is the header's plus what its length field says, and a
      multiple of four. */
  predicate Consistent(msg: seq<byte>) {
    |msg| >= HEADER && |msg| % 4 == 0 && |msg| == HEADER + ReadU16(msg, 2) && msg[4..8] == COOKIE
  }

  function SetLength(msg: seq<byte>, n: int): (r: seq<byte>)
    requires |msg| >= HEADER && 0 <= n < 0x10000
    ensures |r| == |msg| && ReadU16(r, 2) == n && r[..2] == msg[..2] && r[4..] == msg[4..]
  {
    msg[..2] + U16(n) + msg[4..]
  }

  function Created(typ: int, transactionId: seq<byte>): (msg: seq<byte>)
    requires 0 <= typ < 0x10000 && |transactionId| == 12
    ensures Consistent(msg) && |msg| == HEADER
  {
    U16(typ) + [0, 0] + COOKIE + transactionId
  }

  function Message(typ: int, transactionId: seq<byte>, attributes: seq<Attribute>): (msg: seq<byte>)
    requires 0 <= typ < 0x10000 && |transactionId| == 12
    requires forall i | 0 <= i < |attributes| :: attributes[i].Valid()
    requires |Body(attributes)| < 0x10000
    ensures Consistent(msg) && |msg| == HEADER + |Body(attributes)|
  {
    var header := SetLength(Created(typ, transactionId), |Body(attributes)|);
    HeaderCounts(header, Body(attributes));
    header + Body(attributes)
  }

  lemma HeaderCounts(header: seq<byte>, body: seq<byte>)
    requires |header| == HEADER && header[4..8] == COOKIE && ReadU16(header, 2) == |body| && |body| % 4 == 0
    ensures Consistent(header + body)
  {
    assert (header + body)[4..8] == header[4..8];
  }

  predicate Fits(msg: seq<byte>, a: Attribute) {
    |msg| >= HEADER && |msg| + 4 + Padded(|a.value|) <= BUF_SIZE
  }

  /** stun_msg_write_attr. */
  function WriteAttribute(msg: seq<byte>, a: Attribute): (r: Option<seq<byte>>)
    requires a.Valid() && Consistent(msg) && |msg| <= BUF_SIZE
    ensures r.Some? <==> Fits(msg, a)
    ensures r.Some? ==> Consistent(r.value) && |r.value| == |msg| + 4 + Padded(|a.value|) <= BUF_SIZE
  {
    if !Fits(msg, a) then None
    else Some(SetLength(msg, ReadU16(msg, 2) + 4 + Padded(|a.value|)) + EncodeAttribute(a))
  }

  /** stun_msg_finish with a short-term password: integrity over a message whose length already
      counts the integrity attribute, then the fingerprint over one that counts both. */
  function Finish(msg: seq<byte>, password: seq<byte>, crypto: Crypto): (r: Option<seq<byte>>)
    requires Consistent(msg) && |msg| <= BUF_SIZE && crypto.Valid()
    ensures r.Some? <==> |msg| <= BUF_SIZE - 32
    ensures r.Some? ==> Consistent(r.value) && |r.value| == |msg| + 32
  {
    if |msg| > BUF_SIZE - 32 then None
    else
      var n := ReadU16(msg, 2);
      var integrity := Attribute(MESSAGE_INTEGRITY, crypto.hmac(SetLength(msg, n + 24), password));
      var signed := SetLength(msg, n + 32) + EncodeAttribute(integrity);
      Some(signed + EncodeAttribute(Attribute(FINGERPRINT, crypto.crc(signed))))
  }

  // ---------------------------------------------------------------- walking

  /** An attribute and the offset at which its header stands. */
  datatype Located = Located(offset: nat, attribute: Attribute)

  /** The attributes from `pos` on, if they fill the buffer exactly. */
  function Walk(buf: seq<byte>, pos: nat): (ws: Option<seq<Located>>)
    decreases |buf| - pos
  {
    if pos >= |buf| then (if pos == |buf| then Some([]) else None)
    else if |buf| - pos < 4 then None
    else
      var next := pos + 4 + Padded(ReadU16(buf, pos + 2));
      if next > |buf| then None
      else
        var here := Located(pos, AttributeAt(buf, pos));
        match Walk(buf, next)
        case None => None
        case Some(rest) => Some([here] + rest)
  }

  function AttributeAt(buf: seq<byte>, pos: nat): (a: Attribute)
    requires pos + 4 <= |buf|
    requires pos + 4 + Padded(ReadU16(buf, pos + 2)) <= |buf|
    ensures a.Valid()
  {
    Attribute(ReadU16(buf, pos), buf[pos + 4..pos + 4 + ReadU16(buf, pos + 2)])
  }

  predicate Probe(buf: seq<byte>) {
    |buf| >= HEADER && buf[4..8] == COOKIE
  }

  /** What both readers demand before they look at attributes. */
  predicate Framed(buf: seq<byte>) {
    HEADER <= |buf| <= BUF_SIZE && Probe(buf) && HEADER + ReadU16(buf, 2) == |buf|
  }

  // ---------------------------------------------------------------- validating

  ghost predicate HasType(ws: seq<Located>, i: int, typ: int) {
    0 <= i < |ws| && ws[i].attribute.typ == typ
  }

  /** The attribute i is the only one of its type. */
  ghost predicate Only(ws: seq<Located>, i: int, typ: int) {
    HasType(ws, i, typ) && forall j :: HasType(ws, j, typ) ==> j == i
  }

  /** Exactly one integrity attribute, of 20 bytes, that is the keyed hash of everything before
      it; and if there is a fingerprint, one of 4 bytes at the very end that is the checksum of
      everything before it. */
  ghost predicate Authentic(buf: seq<byte>, password: seq<byte>, crypto: Crypto) {
    && Framed(buf) && Walk(buf, HEADER).Some?
    && var ws := Walk(buf, HEADER).value;
       && (exists i :: Only(ws, i, MESSAGE_INTEGRITY) && IntegrityAt(buf, ws[i], password, crypto))
       && (forall i :: HasType(ws, i, FINGERPRINT) ==> i == |ws| - 1 && FingerprintAt(buf, ws[i], crypto))
  }

  predicate IntegrityAt(buf: seq<byte>, w: Located, password: seq<byte>, crypto: Crypto) {
    && |w.attribute.value| == 20
    && HEADER <= w.offset <= |buf| && w.offset + 24 - HEADER < 0x10000
    && w.attribute.value == crypto.hmac(SetLength(buf[..w.offset], w.offset + 24 - HEADER), password)
  }

  predicate FingerprintAt(buf: seq<byte>, w: Located, crypto: Crypto) {
    && |w.attribute.value| == 4
    && w.offset <= |buf| && w.attribute.value == crypto.crc(buf[..w.offset])
  }

  // ---------------------------------------------------------------- walking what was built

  lemma {:induction false} WalkOne(before: seq<byte>, a: Attribute, after: seq<byte>)
    requires a.Valid()
    ensures var buf, pos := before + EncodeAttribute(a) + after, |before|;
            && ReadU16(buf, pos + 2) == |a.value| && AttributeAt(buf, pos) == a
            && Walk(buf, pos) ==
               var rest := Walk(buf, pos + |EncodeAttribute(a)|);
               if rest.None? then None else Some([Located(pos, a)] + rest.value)
  {
    var e := EncodeAttribute(a);
    var buf, pos := before + e + after, |before|;
    assert e[0..2] == U16(a.typ) && e[2..4] == U16(|a.value|);
    assert buf[pos] == e[0] && buf[pos + 1] == e[1] && buf[pos + 2] == e[2] && buf[pos + 3] == e[3];
    assert buf[pos + 4..pos + 4 + |a.value|] == e[4..4 + |a.value|] == a.value;
  }

  lemma WalkEnd(buf: seq<byte>)
    ensures Walk(buf, |buf|) == Some([])
  {
  }

  /** Where the attributes of a list stand when the first is at `pos`. */
  function Offsets(attributes: seq<Attribute>, pos: nat): seq<Located> {
    if attributes == [] then []
    else [Located(pos, attributes[0])] + Offsets(attributes[1..], pos + 4 + Padded(|attributes[0].value|))
  }

  /** Attributes one after another, from the first. */
  function Concat(attributes: seq<Attribute>): (b: seq<byte>)
    requires forall i | 0 <= i < |attributes| :: attributes[i].Valid()
  {
    if attributes == [] then [] else EncodeAttribute(attributes[0]) + Concat(attributes[1..])
  }

  lemma {:induction false} ConcatAppend(attributes: seq<Attribute>, a: Attribute)
    requires a.Valid() && forall i | 0 <= i < |attributes| :: attributes[i].Valid()
    ensures Concat(attributes + [a]) == Concat(attributes) + EncodeAttribute(a)
    decreases |attributes|
  {
    hide EncodeAttribute;
    if attributes == [] {
      assert Concat([a]) == EncodeAttribute(a) + Concat([]);
    } else {
      assert (attributes + [a])[1..] == attributes[1..] + [a];
      ConcatAppend(attributes[1..], a);
    }
  }

  lemma {:induction false} BodyIsConcat(attributes: seq<Attribute>)
    requires forall i | 0 <= i < |attributes| :: attributes[i].Valid()
    ensures Body(attributes) == Concat(attributes)
    decreases |attributes|
  {
    hide EncodeAttribute;
    if attributes != [] {
      var before, a := attributes[..|attributes| - 1], attributes[|attributes| - 1];
      BodyIsConcat(before);
      ConcatAppend(before, a);
      assert before + [a] == attributes;
    }
  }

  lemma {:induction false} WalkConcat(before: seq<byte>, attributes: seq<Attribute>)
    requires forall i | 0 <= i < |attributes| :: attributes[i].Valid()
    ensures Walk(before + Concat(attributes), |before|) == Some(Offsets(attributes, |before|))
    decreases |attributes|
  {
    hide EncodeAttribute, Walk;
    if attributes == [] {
      WalkEnd(before);
      assert before + Concat(attributes) == before;
    } else {
      var e, after := EncodeAttribute(attributes[0]), Concat(attributes[1..]);
      WalkOne(before, attributes[0], after);
      WalkConcat(before + e, attributes[1..]);
      assert before + Concat(attributes) == before + e + after;
    }
  }

  /** The readers see exactly the attributes that were written, and end at the end. */
  lemma WalkMessage(header: seq<byte>, attributes: seq<Attribute>)
    requires |header| == HEADER && forall i | 0 <= i < |attributes| :: attributes[i].Valid()
    ensures Walk(header + Body(attributes), HEADER) == Some(Offsets(attributes, HEADER))
  {
    BodyIsConcat(attributes);
    WalkConcat(header, attributes);
  }

  /** Writing an attribute to a message of some attributes gives the message of one more. */
  lemma WriteExtends(typ: int, transactionId: seq<byte>, attributes: seq<Attribute>, a: Attribute)
    requires 0 <= typ < 0x10000 && |transactionId| == 12 && a.Valid()
    requires forall i | 0 <= i < |attributes| :: attributes[i].Valid()
    requires |Body(attributes)| + HEADER <= BUF_SIZE
    requires Fits(Message(typ, transactionId, attributes), a)
    ensures |Body(attributes + [a])| < 0x10000
    ensures WriteAttribute(Message(typ, transactionId, attributes), a) ==
            Some(Message(typ, transactionId, attributes + [a]))
  {
    hide EncodeAttribute;
    assert (attributes + [a])[..|attributes|] == attributes;
    var msg := Message(typ, transactionId, attributes);
    var n := |Body(attributes)| + 4 + Padded(|a.value|);
    var h := Created(typ, transactionId);
    assert ReadU16(msg, 2) == |Body(attributes)|;
    assert SetLength(msg, n) == SetLength(h, n) + Body(attributes);
    assert SetLength(msg, n) + EncodeAttribute(a) == SetLength(h, n) + (Body(attributes) + EncodeAttribute(a));
    assert Body(attributes + [a]) == Body(attributes) + EncodeAttribute(a);
  }
}
