/** Parsing of STUN messages, and what holds from building to reading: a finished message is
    accepted exactly when it should be, and addresses survive the XOR mapping. */
module StunTheorems {
  import opened Options
  import opened Bytes
  import opened Stun

  // ---------------------------------------------------------------- mapped addresses

  /** Exclusive or of two octets, bit by bit. */
  function XorBits(a: nat, b: nat, n: nat): nat {
    if n == 0 then 0 else (a + b) % 2 + 2 * XorBits(a / 2, b / 2, n - 1)
  }

  function Power2(n: nat): nat {
    if n == 0 then 1 else 2 * Power2(n - 1)
  }

  lemma {:induction false} XorFits(a: nat, b: nat, n: nat)
    ensures XorBits(a, b, n) < Power2(n)
    decreases n
  {
    if n > 0 { XorFits(a / 2, b / 2, n - 1); }
  }

  lemma {:induction false} XorUndone(a: nat, b: nat, n: nat)
    requires a < Power2(n)
    ensures XorBits(XorBits(a, b, n), b, n) == a
    decreases n
  {
    if n > 0 {
      XorUndone(a / 2, b / 2, n - 1);
      var x := (a + b) % 2 + 2 * XorBits(a / 2, b / 2, n - 1);
      SplitBit((a + b) % 2, XorBits(a / 2, b / 2, n - 1));
      BitUndone(a, b, x);
      assert XorBits(x, b, n) == a % 2 + 2 * (a / 2);
    }
  }

  lemma SplitBit(bit: nat, rest: nat)
    requires bit < 2
    ensures (bit + 2 * rest) / 2 == rest && (bit + 2 * rest) % 2 == bit
  {
  }

  lemma BitUndone(a: nat, b: nat, x: nat)
    requires x % 2 == (a + b) % 2
    ensures (x + b) % 2 == a % 2
  {
  }

  function Xor(a: byte, b: byte): byte {
    XorFits(a, b, 8);
    XorBits(a, b, 8)
  }

  function XorAll(s: seq<byte>, mask: seq<byte>): (r: seq<byte>)
    requires |s| <= |mask|
    ensures |r| == |s|
  {
    seq(|s|, i requires 0 <= i < |s| => Xor(s[i], mask[i]))
  }

  lemma XorAllUndone(s: seq<byte>, mask: seq<byte>)
    requires |s| <= |mask|
    ensures XorAll(XorAll(s, mask), mask) == s
  {
    forall i | 0 <= i < |s| ensures Xor(Xor(s[i], mask[i]), mask[i]) == s[i] {
      XorUndone(s[i], mask[i], 8);
    }
  }

  datatype MappedAddress = MappedAddress(v6: bool, ip: seq<byte>, port: int) {
    predicate Valid() {
      |ip| == (if v6 then 16 else 4) && 0 <= port < 0x10000
    }
  }

  /** The reserved first byte is whatever the caller's buffer held. */
  function SetMapped(reserved: byte, mask: seq<byte>, addr: MappedAddress): (value: seq<byte>)
    requires addr.Valid() && |mask| == 16
    ensures |value| == if addr.v6 then 20 else 8
  {
    [reserved, if addr.v6 then 2 else 1] + XorAll(U16(addr.port), mask) + XorAll(addr.ip, mask)
  }

  predicate AddressValueOk(value: seq<byte>) {
    |value| >= 8 && (value[1] == 1 || (value[1] == 2 && |value| >= 20))
  }

  function GetMapped(value: seq<byte>, mask: seq<byte>): (addr: MappedAddress)
    requires AddressValueOk(value) && |mask| == 16
    ensures addr.Valid()
  {
    var v6 := value[1] == 2;
    MappedAddress(v6, XorAll(if v6 then value[4..20] else value[4..8], mask), ReadU16(XorAll(value[2..4], mask), 0))
  }

  /** Reading a mapped address back undoes writing it, for both families and any mask. */
  lemma MappedRoundTrip(reserved: byte, mask: seq<byte>, addr: MappedAddress)
    requires addr.Valid() && |mask| == 16
    ensures AddressValueOk(SetMapped(reserved, mask, addr))
    ensures GetMapped(SetMapped(reserved, mask, addr), mask) == addr
  {
    hide Xor;
    var value := SetMapped(reserved, mask, addr);
    assert value[2..4] == XorAll(U16(addr.port), mask);
    assert value[4..] == XorAll(addr.ip, mask);
    assert value[4..|value|] == value[4..];
    XorAllUndone(U16(addr.port), mask);
    XorAllUndone(addr.ip, mask);
  }

  // ---------------------------------------------------------------- the message type

  /** The class bits C1 and C0 of a message type. */
  function ParsedClass(typ: bv16): bv16 {
    if typ & 0x0110 == 0x0110 then 0x0110
    else if typ & 0x0010 == 0x0010 then 0x0010
    else if typ & 0x0100 == 0x0100 then 0x0100
    else 0
  }

  /** The method bits, with the class bits taken out from between them. */
  function ParsedMethod(typ: bv16): bv16 {
    ((typ & 0x3E00) >> 2) | ((typ & 0x00E0) >> 1) | (typ & 0x000F)
  }

  /** Messages are created with class and method simply combined. Reading the method back works
      exactly for methods below 16, which all methods in use are. */
  lemma TypeRoundTrip(class_: bv16, method_: bv16)
    requires class_ == 0 || class_ == 0x0010 || class_ == 0x0100 || class_ == 0x0110
    requires method_ < 0x1000
    ensures ParsedMethod(class_ | method_) == method_ <==> method_ < 16
    ensures method_ < 16 ==> ParsedClass(class_ | method_) == class_
  {
    assert (class_ | method_) & 0x3E00 == method_ & 0x3E00 && (class_ | method_) & 0x00E0 == method_ & 0x00E0;
  }

  // ---------------------------------------------------------------- parsing

  datatype Fields = Fields(username: seq<byte>, realm: seq<byte>, nonce: seq<byte>, integrity: seq<byte>,
                           fingerprint: seq<byte>, errorCode: int, channel: int, dataOffset: nat, dataLen: nat,
                           mapped: Option<MappedAddress>, relayed: Option<MappedAddress>, peer: Option<MappedAddress>)

  const NO_FIELDS := Fields([], [], [], [], [], 0, 0, 0, 0, None, None, None)

  /** What the parser demands of an attribute of a type it knows. */
  predicate Acceptable(a: Attribute) {
    if a.typ == MAPPED_ADDRESS || a.typ == XOR_PEER_ADDRESS || a.typ == XOR_RELAYED_ADDRESS ||
       a.typ == XOR_MAPPED_ADDRESS then AddressValueOk(a.value)
    else if a.typ == MESSAGE_INTEGRITY then |a.value| == 20
    else if a.typ == FINGERPRINT then |a.value| == 4
    else if a.typ == ERROR_CODE then |a.value| >= 4
    else if a.typ == CHANNEL_NUMBER then |a.value| >= 2
    else true
  }

  /** A value copied into a field of `size` bytes that must end with a zero. */
  function Copied(value: seq<byte>, size: nat): seq<byte>
    requires size > 0
  {
    if |value| < size then value else value[..size - 1]
  }

  /** The mask of the XOR attributes: magic cookie and transaction id. */
  function Mask(buf: seq<byte>): (mask: seq<byte>)
    requires |buf| >= HEADER
    ensures |mask| == 16
  {
    COOKIE + buf[8..20]
  }

  function Take(f: Fields, w: Located, mask: seq<byte>): Fields
    requires Acceptable(w.attribute) && |mask| == 16
  {
    var a := w.attribute;
    if a.typ == MAPPED_ADDRESS then f.(mapped := Some(GetMapped(a.value, Zeros(16))))
    else if a.typ == USERNAME then f.(username := Copied(a.value, 128))
    else if a.typ == MESSAGE_INTEGRITY then f.(integrity := a.value)
    else if a.typ == ERROR_CODE then f.(errorCode := (a.value[2] as int) * 100 + a.value[3] as int)
    else if a.typ == CHANNEL_NUMBER then f.(channel := ReadU16(a.value, 0))
    else if a.typ == XOR_PEER_ADDRESS then f.(peer := Some(GetMapped(a.value, mask)))
    else if a.typ == DATA then f.(dataOffset := w.offset + 4, dataLen := |a.value|)
    else if a.typ == REALM then f.(realm := Copied(a.value, 64))
    else if a.typ == NONCE then f.(nonce := Copied(a.value, 64))
    else if a.typ == XOR_RELAYED_ADDRESS then f.(relayed := Some(GetMapped(a.value, mask)))
    else if a.typ == XOR_MAPPED_ADDRESS then f.(mapped := Some(GetMapped(a.value, mask)))
    else if a.typ == FINGERPRINT then f.(fingerprint := a.value)
    else f
  }

  predicate AllAcceptable(ws: seq<Located>) {
    forall i | 0 <= i < |ws| :: Acceptable(ws[i].attribute)
  }

  function TakeAll(f: Fields, ws: seq<Located>, mask: seq<byte>): Fields
    requires AllAcceptable(ws) && |mask| == 16
    decreases |ws|
  {
    if ws == [] then f else TakeAll(Take(f, ws[0], mask), ws[1..], mask)
  }

  lemma {:induction false} TakeAppend(f: Fields, ws: seq<Located>, w: Located, mask: seq<byte>)
    requires AllAcceptable(ws) && Acceptable(w.attribute) && |mask| == 16
    ensures AllAcceptable(ws + [w])
    ensures TakeAll(f, ws + [w], mask) == Take(TakeAll(f, ws, mask), w, mask)
    decreases |ws|
  {
    hide Acceptable, Take;
    if ws == [] {
      assert [w][1..] == [] && ws + [w] == [w];
      assert TakeAll(Take(f, w, mask), [], mask) == Take(f, w, mask);
    } else {
      assert (ws + [w])[1..] == ws[1..] + [w];
      TakeAppend(Take(f, ws[0], mask), ws[1..], w, mask);
    }
  }

  /** stun_parse_msg_buf: the fields, if the message is framed, its attributes fill it exactly
      and each is acceptable. */
  function Parse(buf: seq<byte>, f: Fields): Option<Fields> {
    if !Framed(buf) || Walk(buf, HEADER).None? || !AllAcceptable(Walk(buf, HEADER).value) then None
    else Some(TakeAll(f, Walk(buf, HEADER).value, Mask(buf)))
  }

  // ---------------------------------------------------------------- from building to reading

  lemma {:induction false} OffsetsAppend(attributes: seq<Attribute>, pos: nat, a: Attribute)
    requires forall i | 0 <= i < |attributes| :: attributes[i].Valid()
    ensures Offsets(attributes + [a], pos) == Offsets(attributes, pos) + [Located(pos + |Concat(attributes)|, a)]
    decreases |attributes|
  {
    hide EncodeAttribute;
    if attributes == [] {
      assert attributes + [a] == [a];
      assert Offsets([a][1..], pos + 4 + Padded(|a.value|)) == [];
    } else {
      var next := pos + 4 + Padded(|attributes[0].value|);
      var first := Located(pos, attributes[0]);
      OffsetsAppend(attributes[1..], next, a);
      OffsetsCons(attributes[0], attributes[1..] + [a], pos);
      OffsetsCons(attributes[0], attributes[1..], pos);
      assert attributes + [a] == [attributes[0]] + (attributes[1..] + [a]);
      assert attributes == [attributes[0]] + attributes[1..];
    }
  }

  lemma OffsetsCons(a: Attribute, rest: seq<Attribute>, pos: nat)
    ensures Offsets([a] + rest, pos) == [Located(pos, a)] + Offsets(rest, pos + 4 + Padded(|a.value|))
  {
    assert ([a] + rest)[1..] == rest;
  }

  lemma {:induction false} OffsetsAttributes(attributes: seq<Attribute>, pos: nat, i: nat)
    requires i < |attributes|
    ensures |Offsets(attributes, pos)| == |attributes| && Offsets(attributes, pos)[i].attribute == attributes[i]
    decreases |attributes|
  {
    var next := pos + 4 + Padded(|attributes[0].value|);
    if i > 0 {
      OffsetsAttributes(attributes[1..], next, i - 1);
    } else if |attributes| > 1 {
      OffsetsAttributes(attributes[1..], next, 0);
    }
  }

  /** What finishing appends: the integrity attribute and the fingerprint. */
  function Signature(msg: seq<byte>, password: seq<byte>, crypto: Crypto): (s: (Attribute, Attribute))
    requires Consistent(msg) && |msg| <= BUF_SIZE - 32
  {
    var n := ReadU16(msg, 2);
    var integrity := Attribute(MESSAGE_INTEGRITY, crypto.hmac(SetLength(msg, n + 24), password));
    (integrity,
     if integrity.Valid() then Attribute(FINGERPRINT, crypto.crc(SetLength(msg, n + 32) + EncodeAttribute(integrity)))
     else Attribute(FINGERPRINT, []))
  }

  /** A finished message is a header with the final length and the attributes, those two last. */
  lemma FinishedMessage(typ: int, transactionId: seq<byte>, attributes: seq<Attribute>, password: seq<byte>,
                        crypto: Crypto)
    requires 0 <= typ < 0x10000 && |transactionId| == 12 && crypto.Valid()
    requires forall i | 0 <= i < |attributes| :: attributes[i].Valid()
    requires HEADER + |Body(attributes)| <= BUF_SIZE - 32
    ensures var msg := Message(typ, transactionId, attributes);
            var s := Signature(msg, password, crypto);
            var all := attributes + [s.0, s.1];
            && s.0.Valid() && s.1.Valid()
            && Finish(msg, password, crypto) ==
               Some(SetLength(Created(typ, transactionId), |Body(attributes)| + 32) + Body(all))
  {
    hide EncodeAttribute;
    var msg := Message(typ, transactionId, attributes);
    var s := Signature(msg, password, crypto);
    var n, header := |Body(attributes)|, Created(typ, transactionId);
    assert SetLength(msg, n + 32) == SetLength(header, n + 32) + Body(attributes);
    BodyAppend(attributes, s.0);
    BodyAppend(attributes + [s.0], s.1);
    assert attributes + [s.0] + [s.1] == attributes + [s.0, s.1];
    Regroup(SetLength(header, n + 32), Body(attributes), EncodeAttribute(s.0), EncodeAttribute(s.1));
  }

  lemma BodyAppend(attributes: seq<Attribute>, a: Attribute)
    requires a.Valid() && forall i | 0 <= i < |attributes| :: attributes[i].Valid()
    ensures Body(attributes + [a]) == Body(attributes) + EncodeAttribute(a)
  {
    hide EncodeAttribute;
    assert (attributes + [a])[..|attributes|] == attributes;
  }

  lemma Regroup(a: seq<byte>, b: seq<byte>, c: seq<byte>, d: seq<byte>)
    ensures a + b + c + d == a + (b + c + d)
  {
  }

  // ---------------------------------------------------------------- acceptance

  ghost predicate Unsigned(attributes: seq<Attribute>) {
    forall i | 0 <= i < |attributes| :: attributes[i].typ != MESSAGE_INTEGRITY && attributes[i].typ != FINGERPRINT
  }

  /** Both readers of a finished message walk the attributes that were written and the two that
      were appended, each at its place, to the exact end. */
  lemma FinishedWalk(typ: int, transactionId: seq<byte>, attributes: seq<Attribute>, password: seq<byte>, crypto: Crypto)
    requires 0 <= typ < 0x10000 && |transactionId| == 12 && crypto.Valid()
    requires forall i | 0 <= i < |attributes| :: attributes[i].Valid()
    requires HEADER + |Body(attributes)| <= BUF_SIZE - 32
    ensures var msg := Message(typ, transactionId, attributes);
            var s := Signature(msg, password, crypto);
            var out := Finish(msg, password, crypto).value;
            && Framed(out)
            && Walk(out, HEADER) == Some(Offsets(attributes + [s.0, s.1], HEADER))
            && Offsets(attributes + [s.0, s.1], HEADER) ==
               Offsets(attributes, HEADER) + [Located(|msg|, s.0), Located(|msg| + 24, s.1)]
  {
    hide EncodeAttribute, Walk, Body;
    var msg := Message(typ, transactionId, attributes);
    var s := Signature(msg, password, crypto);
    var all := attributes + [s.0, s.1];
    FinishedMessage(typ, transactionId, attributes, password, crypto);
    WalkMessage(SetLength(Created(typ, transactionId), |Body(attributes)| + 32), all);
    OffsetsAppend(attributes, HEADER, s.0);
    OffsetsAppend(attributes + [s.0], HEADER, s.1);
    ConcatAppend(attributes, s.0);
    BodyIsConcat(attributes);
    assert attributes + [s.0] + [s.1] == all;
    assert |s.0.value| == 20 && Padded(20) == 20;
    assert |EncodeAttribute(s.0)| == 24;
    assert |msg| == HEADER + |Concat(attributes)| && |msg| + 24 == HEADER + |Concat(attributes + [s.0])|;
    assert Offsets(all, HEADER) ==
           Offsets(attributes, HEADER) + [Located(|msg|, s.0)] + [Located(|msg| + 24, s.1)];
  }

  /** The appended attributes verify. */
  lemma SignatureVerifies(typ: int, transactionId: seq<byte>, attributes: seq<Attribute>, password: seq<byte>,
                          crypto: Crypto)
    requires 0 <= typ < 0x10000 && |transactionId| == 12 && crypto.Valid()
    requires forall i | 0 <= i < |attributes| :: attributes[i].Valid()
    requires HEADER + |Body(attributes)| <= BUF_SIZE - 32
    ensures var msg := Message(typ, transactionId, attributes);
            var s := Signature(msg, password, crypto);
            var out := Finish(msg, password, crypto).value;
            && IntegrityAt(out, Located(|msg|, s.0), password, crypto)
            && FingerprintAt(out, Located(|msg| + 24, s.1), crypto)
  {
    hide EncodeAttribute, Body;
    var msg := Message(typ, transactionId, attributes);
    var n := ReadU16(msg, 2);
    var out := Finish(msg, password, crypto).value;
    assert out[..|msg|] == SetLength(msg, n + 32);
    assert SetLength(SetLength(msg, n + 32), n + 24) == SetLength(msg, n + 24);
    var s := Signature(msg, password, crypto);
    assert out[..|msg| + 24] == SetLength(msg, n + 32) + EncodeAttribute(s.0);
  }

  /** Of a finished message: the validator accepts it with the signing password exactly when the
      writer put in no integrity attribute or fingerprint of its own, and the parser accepts it
      exactly when every attribute the writer put in is acceptable. */
  lemma FinishedMessageAccepted(typ: int, transactionId: seq<byte>, attributes: seq<Attribute>, password: seq<byte>,
                                crypto: Crypto, f: Fields)
    requires 0 <= typ < 0x10000 && |transactionId| == 12 && crypto.Valid()
    requires forall i | 0 <= i < |attributes| :: attributes[i].Valid()
    requires HEADER + |Body(attributes)| <= BUF_SIZE - 32
    ensures var out := Finish(Message(typ, transactionId, attributes), password, crypto).value;
            && (Authentic(out, password, crypto) <==> Unsigned(attributes))
            && (Parse(out, f).Some? <==> forall i | 0 <= i < |attributes| :: Acceptable(attributes[i]))
  {
    hide Finish, Walk, Message, Framed, Offsets, IntegrityAt, FingerprintAt;
    var msg := Message(typ, transactionId, attributes);
    var s := Signature(msg, password, crypto);
    var out := Finish(msg, password, crypto).value;
    var all := attributes + [s.0, s.1];
    var ws := Offsets(all, HEADER);
    FinishedWalk(typ, transactionId, attributes, password, crypto);
    SignatureVerifies(typ, transactionId, attributes, password, crypto);
    forall i | 0 <= i < |all| ensures |ws| == |all| && ws[i].attribute == all[i] {
      OffsetsAttributes(all, HEADER, i);
    }
    assert all[|attributes|] == s.0 && all[|attributes| + 1] == s.1;
    AcceptedAsSigned(out, ws, all, |attributes|, password, crypto);
    forall i | 0 <= i < |attributes| ensures Acceptable(ws[i].attribute) <==> Acceptable(attributes[i]) {
      assert all[i] == attributes[i];
    }
  }

  lemma AcceptedAsSigned(buf: seq<byte>, ws: seq<Located>, all: seq<Attribute>, n: nat, password: seq<byte>,
                         crypto: Crypto)
    requires Framed(buf) && Walk(buf, HEADER) == Some(ws) && |ws| == |all| == n + 2
    requires forall i | 0 <= i < |all| :: ws[i].attribute == all[i]
    requires all[n].typ == MESSAGE_INTEGRITY && all[n + 1].typ == FINGERPRINT
    requires IntegrityAt(buf, ws[n], password, crypto) && FingerprintAt(buf, ws[n + 1], crypto)
    ensures Authentic(buf, password, crypto) <==> Unsigned(all[..n])
  {
    hide Framed, Walk, IntegrityAt, FingerprintAt;
    assert HasType(ws, n, MESSAGE_INTEGRITY) && HasType(ws, n + 1, FINGERPRINT);
    if Unsigned(all[..n]) {
      assert forall i | 0 <= i < n :: all[..n][i] == all[i];
      assert Only(ws, n, MESSAGE_INTEGRITY);
    } else {
      var i :| 0 <= i < n && (all[..n][i].typ == MESSAGE_INTEGRITY || all[..n][i].typ == FINGERPRINT);
      assert HasType(ws, i, all[i].typ);
    }
  }
}
