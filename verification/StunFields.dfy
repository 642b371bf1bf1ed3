/** What a STUN message says on the wire and what the parser's fields hold afterwards: the bytes
    of a finished message, and each field told from the list of attributes written. */
module StunFields {
  import opened Options
  import opened Bytes
  import opened Stun
  import opened StunTheorems

  /** A message of these attributes can be built and has room for its signature. */
  ghost predicate Buildable(typ: int, transactionId: seq<byte>, attributes: seq<Attribute>, crypto: Crypto) {
    && 0 <= typ < 0x10000 && |transactionId| == 12 && crypto.Valid()
    && (forall i | 0 <= i < |attributes| :: attributes[i].Valid())
    && HEADER + |Body(attributes)| <= BUF_SIZE - 32
  }

  /** The finished message. */
  ghost function Sent(typ: int, transactionId: seq<byte>, attributes: seq<Attribute>, password: seq<byte>,
                      crypto: Crypto): seq<byte>
    requires Buildable(typ, transactionId, attributes, crypto)
  {
    Finish(Message(typ, transactionId, attributes), password, crypto).value
  }

  /** Its attributes, with the two signing ones at the end. */
  ghost function WithSignature(typ: int, transactionId: seq<byte>, attributes: seq<Attribute>, password: seq<byte>,
                               crypto: Crypto): seq<Attribute>
    requires Buildable(typ, transactionId, attributes, crypto)
  {
    var s := Signature(Message(typ, transactionId, attributes), password, crypto);
    attributes + [s.0, s.1]
  }

  // ---------------------------------------------------------------- the wire

  /** The attributes before the i-th take up this many bytes. */
  function Before(attributes: seq<Attribute>, i: nat): nat
    requires i <= |attributes| && forall j | 0 <= j < |attributes| :: attributes[j].Valid()
  {
    |Body(attributes[..i])|
  }

  /** Type and length of `a` in network order at `pos`, its value, and zeros up to the next
      multiple of four. */
  predicate Written(buf: seq<byte>, pos: nat, a: Attribute) {
    && pos + 4 + |a.value| <= |buf|
    && buf[pos] as int * 256 + buf[pos + 1] as int == a.typ
    && buf[pos + 2] as int * 256 + buf[pos + 3] as int == |a.value|
    && buf[pos + 4..pos + 4 + |a.value|] == a.value
    && forall k | pos + 4 + |a.value| <= k < |buf| && k < pos + 4 + Padded(|a.value|) :: buf[k] == 0
  }

  lemma EncodedBytes(before: seq<byte>, a: Attribute, after: seq<byte>)
    requires a.Valid()
    ensures Written(before + EncodeAttribute(a) + after, |before|, a)
  {
    var e, pos := EncodeAttribute(a), |before|;
    var buf := before + e + after;
    assert forall k | 0 <= k < |e| :: buf[pos + k] == e[k];
    assert buf[pos + 4..pos + 4 + |a.value|] == e[4..4 + |a.value|] == a.value;
    forall k | pos + 4 + |a.value| <= k < pos + 4 + Padded(|a.value|) ensures buf[k] == 0 {
      assert buf[k] == e[k - pos];
    }
  }

  lemma {:induction false} BodySplits(attributes: seq<Attribute>, i: nat) returns (before: seq<byte>, after: seq<byte>)
    requires i < |attributes| && forall j | 0 <= j < |attributes| :: attributes[j].Valid()
    ensures |before| == Before(attributes, i)
    ensures Body(attributes) == before + EncodeAttribute(attributes[i]) + after
    decreases |attributes|
  {
    hide EncodeAttribute;
    var front, last := attributes[..|attributes| - 1], attributes[|attributes| - 1];
    if i == |attributes| - 1 {
      before, after := Body(front), [];
      assert before + EncodeAttribute(last) + [] == Body(attributes);
    } else {
      before, after := BodySplits(front, i);
      assert front[..i] == attributes[..i] && front[i] == attributes[i];
      after := after + EncodeAttribute(last);
      Regrouped(before, EncodeAttribute(front[i]), after[..|after| - |EncodeAttribute(last)|], EncodeAttribute(last));
    }
  }

  /** A finished message on the wire: type, length, cookie and transaction id in the header, then
      every attribute at its place. */
  lemma WireFormat(typ: int, transactionId: seq<byte>, attributes: seq<Attribute>, password: seq<byte>, crypto: Crypto)
    requires Buildable(typ, transactionId, attributes, crypto)
    ensures var out := Sent(typ, transactionId, attributes, password, crypto);
            && HEADER <= |out|
            && out[0] as int * 256 + out[1] as int == typ
            && out[2] as int * 256 + out[3] as int == |out| - 20
            && out[4..8] == [0x21, 0x12, 0xA4, 0x42] && out[8..20] == transactionId
            && forall i | 0 <= i < |attributes| :: Written(out, 20 + Before(attributes, i), attributes[i])
  {
    hide EncodeAttribute, Body, Written, Signature;
    var out := Sent(typ, transactionId, attributes, password, crypto);
    var all := WithSignature(typ, transactionId, attributes, password, crypto);
    FinishedMessage(typ, transactionId, attributes, password, crypto);
    hide Finish, Message, SetLength, Created;
    var header := SetLength(Created(typ, transactionId), |Body(attributes)| + 32);
    assert out == header + Body(all) && |out| == |header| + |Body(all)|;
    HeaderBytes(typ, transactionId, |Body(attributes)| + 32, Body(all));
    forall i | 0 <= i < |attributes| ensures Written(out, 20 + Before(attributes, i), attributes[i]) {
      AttributeBytes(header, all, i);
      assert all[..i] == attributes[..i] && all[i] == attributes[i];
    }
  }

  lemma AttributeBytes(header: seq<byte>, attributes: seq<Attribute>, i: nat)
    requires i < |attributes| && forall j | 0 <= j < |attributes| :: attributes[j].Valid()
    ensures Written(header + Body(attributes), |header| + Before(attributes, i), attributes[i])
  {
    hide *;
    var before, after := BodySplits(attributes, i);
    BehindHeader(header, before, attributes[i], after);
  }

  lemma BehindHeader(header: seq<byte>, before: seq<byte>, a: Attribute, after: seq<byte>)
    requires a.Valid()
    ensures Written(header + (before + EncodeAttribute(a) + after), |header| + |before|, a)
  {
    hide EncodeAttribute, Written;
    EncodedBytes(header + before, a, after);
    Regrouped(header, before, EncodeAttribute(a), after);
  }

  lemma Regrouped(a: seq<byte>, b: seq<byte>, c: seq<byte>, d: seq<byte>)
    ensures a + b + c + d == a + (b + c + d)
  {
  }

  lemma HeaderBytes(typ: int, transactionId: seq<byte>, n: int, body: seq<byte>)
    requires 0 <= typ < 0x10000 && |transactionId| == 12 && 0 <= n < 0x10000
    ensures var out := SetLength(Created(typ, transactionId), n) + body;
            && out[0] as int * 256 + out[1] as int == typ
            && out[2] as int * 256 + out[3] as int == n
            && out[4..8] == [0x21, 0x12, 0xA4, 0x42] && out[8..20] == transactionId
  {
    var header := SetLength(Created(typ, transactionId), n);
    var out := header + body;
    assert ReadU16(header, 2) == n;
    assert header[..2] == Created(typ, transactionId)[..2] == U16(typ);
    assert header[0] == U16(typ)[0] && header[1] == U16(typ)[1];
    assert header[4..] == COOKIE + transactionId;
    assert out[4..8] == header[4..][..4] && out[8..20] == header[4..][4..16];
  }

  /** The last 32 bytes: the keyed hash of everything before it, with a length field that ends
      with the integrity attribute (section 15.4 of RFC 5389), and the checksum of everything
      before the fingerprint. */
  lemma SignatureBytes(typ: int, transactionId: seq<byte>, attributes: seq<Attribute>, password: seq<byte>, crypto: Crypto)
    requires Buildable(typ, transactionId, attributes, crypto)
    ensures var out := Sent(typ, transactionId, attributes, password, crypto);
            var n := |out| - 32;
            && n >= HEADER
            && out[n..n + 4] == [0, 8, 0, 20]
            && out[n + 4..n + 24] == crypto.hmac(out[..2] + [(n + 4) / 256, (n + 4) % 256] + out[4..n], password)
            && out[n + 24..n + 28] == [0x80, 0x28, 0, 4]
            && out[n + 28..] == crypto.crc(out[..n + 24])
  {
    hide Body;
    var msg := Message(typ, transactionId, attributes);
    hide Message, Buildable;
    FinishedParts(msg, password, crypto);
  }

  lemma FinishedParts(msg: seq<byte>, password: seq<byte>, crypto: Crypto)
    requires Consistent(msg) && |msg| <= BUF_SIZE - 32 && crypto.Valid()
    ensures var out, n := Finish(msg, password, crypto).value, |msg|;
            && |out| == n + 32
            && out[n..n + 4] == [0, 8, 0, 20]
            && out[n + 4..n + 24] == crypto.hmac(out[..2] + [(n + 4) / 256, (n + 4) % 256] + out[4..n], password)
            && out[n + 24..n + 28] == [0x80, 0x28, 0, 4]
            && out[n + 28..] == crypto.crc(out[..n + 24])
  {
    var n, length := |msg|, ReadU16(msg, 2);
    var hash := crypto.hmac(SetLength(msg, length + 24), password);
    var e := EncodeAttribute(Attribute(MESSAGE_INTEGRITY, hash));
    var signed := SetLength(msg, length + 32) + e;
    var check := crypto.crc(signed);
    var e' := EncodeAttribute(Attribute(FINGERPRINT, check));
    EncodedWhole(MESSAGE_INTEGRITY, hash);
    EncodedWhole(FINGERPRINT, check);
    var out := Finish(msg, password, crypto).value;
    assert out == signed + e';
    SignedText(msg, length + 24, length + 32, e + e', out);
    hide Finish, EncodeAttribute, SetLength, ReadU16;
    assert out[..n + 24] == signed && out[n + 24..] == e';
    assert signed[n..] == e;
    assert out[n..n + 4] == e[..4] && out[n + 4..n + 24] == e[4..];
    assert out[n + 24..n + 28] == e'[..4] && out[n + 28..] == e'[4..];
  }

  lemma EncodedWhole(typ: int, value: seq<byte>)
    requires 0 <= typ < 0x10000 && |value| < 0x10000 && |value| % 4 == 0
    ensures EncodeAttribute(Attribute(typ, value)) == U16(typ) + U16(|value|) + value
  {
    assert Padded(|value|) == |value|;
  }

  lemma SignedText(msg: seq<byte>, length: int, final: int, rest: seq<byte>, out: seq<byte>)
    requires |msg| >= HEADER && 0 <= length < 0x10000 && 0 <= final < 0x10000
    requires out == SetLength(msg, final) + rest
    ensures SetLength(msg, length) == out[..2] + U16(length) + out[4..|msg|]
  {
  }

  // ---------------------------------------------------------------- the fields

  /** The last attribute of one of the given types. */
  function LastOf(attributes: seq<Attribute>, types: set<int>): (r: Option<nat>)
    ensures r.None? ==> forall i | 0 <= i < |attributes| :: attributes[i].typ !in types
    ensures r.Some? ==> r.value < |attributes| && attributes[r.value].typ in types
    ensures r.Some? ==> forall i | r.value < i < |attributes| :: attributes[i].typ !in types
    decreases |attributes|
  {
    var n := |attributes| - 1;
    if n < 0 then None else if attributes[n].typ in types then Some(n) else LastOf(attributes[..n], types)
  }

  predicate AllTaken(attributes: seq<Attribute>) {
    forall i | 0 <= i < |attributes| :: attributes[i].Valid() && Acceptable(attributes[i])
  }

  /** The last value of a type, cut to the room there is. */
  function Text(attributes: seq<Attribute>, typ: int, room: nat, otherwise: seq<byte>): seq<byte> {
    var i := LastOf(attributes, {typ});
    if i.None? then otherwise
    else if |attributes[i.value].value| <= room then attributes[i.value].value
    else attributes[i.value].value[..room]
  }

  /** The last address under either of two types, the first written in the clear, the second
      under the mask. */
  function LastAddress(attributes: seq<Attribute>, plain: int, masked: int, mask: seq<byte>,
                       otherwise: Option<MappedAddress>): Option<MappedAddress>
    requires AllTaken(attributes) && |mask| == 16
    requires plain == 0x0001 || plain == masked
    requires masked in {0x0012, 0x0016, 0x0020}
  {
    var i := LastOf(attributes, {plain, masked});
    if i.None? then otherwise
    else Some(GetMapped(attributes[i.value].value, if attributes[i.value].typ == masked then mask else Zeros(16)))
  }

  /** The two bytes at i of the last value of a type, as the digits of a number. */
  function Number(attributes: seq<Attribute>, typ: int, i: nat, base: nat, otherwise: int): int
    requires AllTaken(attributes) && ((typ == 0x0009 && i == 2) || (typ == 0x000C && i == 0))
  {
    var k := LastOf(attributes, {typ});
    if k.None? then otherwise
    else attributes[k.value].value[i] as int * base + attributes[k.value].value[i + 1] as int
  }

  /** Where in the message the last DATA value stands, and how long it is. */
  function Data(attributes: seq<Attribute>, offset: nat, length: nat): (nat, nat)
    requires AllTaken(attributes)
  {
    var k := LastOf(attributes, {0x0013});
    if k.None? then (offset, length)
    else (20 + Before(attributes, k.value) + 4, |attributes[k.value].value|)
  }

  /** Every field, by what was written last under its type; the types are those of section 18.2
      of RFC 5389 and section 14 of RFC 5766. */
  function ReadFields(f: Fields, attributes: seq<Attribute>, mask: seq<byte>): Fields
    requires AllTaken(attributes) && |mask| == 16
  {
    Fields(
      Text(attributes, 0x0006, 127, f.username),
      Text(attributes, 0x0014, 63, f.realm),
      Text(attributes, 0x0015, 63, f.nonce),
      Text(attributes, 0x0008, 20, f.integrity),
      Text(attributes, 0x8028, 4, f.fingerprint),
      Number(attributes, 0x0009, 2, 100, f.errorCode),
      Number(attributes, 0x000C, 0, 256, f.channel),
      Data(attributes, f.dataOffset, f.dataLen).0,
      Data(attributes, f.dataOffset, f.dataLen).1,
      LastAddress(attributes, 0x0001, 0x0020, mask, f.mapped),
      LastAddress(attributes, 0x0016, 0x0016, mask, f.relayed),
      LastAddress(attributes, 0x0012, 0x0012, mask, f.peer))
  }

  lemma LastOfAppend(attributes: seq<Attribute>, a: Attribute, types: set<int>)
    ensures LastOf(attributes + [a], types) ==
            if a.typ in types then Some(|attributes|) else LastOf(attributes, types)
  {
    assert (attributes + [a])[..|attributes|] == attributes;
  }

  lemma TextAppend(attributes: seq<Attribute>, a: Attribute, typ: int, room: nat, otherwise: seq<byte>)
    ensures Text(attributes + [a], typ, room, otherwise) ==
            if a.typ != typ then Text(attributes, typ, room, otherwise)
            else if |a.value| <= room then a.value else a.value[..room]
  {
    hide LastOf;
    LastOfAppend(attributes, a, {typ});
  }

  lemma AddressAppend(attributes: seq<Attribute>, a: Attribute, plain: int, masked: int, mask: seq<byte>,
                      otherwise: Option<MappedAddress>)
    requires AllTaken(attributes + [a]) && AllTaken(attributes) && |mask| == 16
    requires plain == 0x0001 || plain == masked
    requires masked in {0x0012, 0x0016, 0x0020}
    ensures a.typ == plain || a.typ == masked ==> AddressValueOk(a.value)
    ensures LastAddress(attributes + [a], plain, masked, mask, otherwise) ==
            if a.typ == masked then Some(GetMapped(a.value, mask))
            else if a.typ == plain then Some(GetMapped(a.value, Zeros(16)))
            else LastAddress(attributes, plain, masked, mask, otherwise)
  {
    hide LastOf, GetMapped;
    assert (attributes + [a])[|attributes|] == a;
    LastOfAppend(attributes, a, {plain, masked});
  }

  lemma NumberAppend(attributes: seq<Attribute>, a: Attribute, typ: int, i: nat, base: nat, otherwise: int)
    requires AllTaken(attributes + [a]) && AllTaken(attributes)
    requires (typ == 0x0009 && i == 2) || (typ == 0x000C && i == 0)
    ensures a.typ == typ ==> |a.value| > i + 1
    ensures Number(attributes + [a], typ, i, base, otherwise) ==
            if a.typ == typ then a.value[i] as int * base + a.value[i + 1] as int
            else Number(attributes, typ, i, base, otherwise)
  {
    hide LastOf;
    assert (attributes + [a])[|attributes|] == a;
    LastOfAppend(attributes, a, {typ});
  }

  lemma DataAppend(attributes: seq<Attribute>, a: Attribute, offset: nat, length: nat)
    requires AllTaken(attributes + [a]) && AllTaken(attributes)
    ensures Data(attributes + [a], offset, length) ==
            if a.typ == 0x0013 then (20 + |Body(attributes)| + 4, |a.value|) else Data(attributes, offset, length)
  {
    hide LastOf, Body;
    var all := attributes + [a];
    LastOfAppend(attributes, a, {0x0013});
    assert all[..|attributes|] == attributes;
    assert forall i | 0 <= i < |attributes| :: all[..i] == attributes[..i] && all[i] == attributes[i];
  }

  /** Taking in one more attribute is reading the fields of a list that is one longer. */
  lemma TakeReads(f: Fields, attributes: seq<Attribute>, a: Attribute, mask: seq<byte>)
    requires AllTaken(attributes + [a]) && AllTaken(attributes) && |mask| == 16 && Acceptable(a)
    ensures ReadFields(f, attributes + [a], mask) ==
            Take(ReadFields(f, attributes, mask), Located(20 + |Body(attributes)|, a), mask)
  {
    hide LastOf, GetMapped, Text, LastAddress, Number, Data, Body, AllTaken;
    TextAppend(attributes, a, 0x0006, 127, f.username);
    TextAppend(attributes, a, 0x0014, 63, f.realm);
    TextAppend(attributes, a, 0x0015, 63, f.nonce);
    TextAppend(attributes, a, 0x0008, 20, f.integrity);
    TextAppend(attributes, a, 0x8028, 4, f.fingerprint);
    NumberAppend(attributes, a, 0x0009, 2, 100, f.errorCode);
    NumberAppend(attributes, a, 0x000C, 0, 256, f.channel);
    DataAppend(attributes, a, f.dataOffset, f.dataLen);
    AddressAppend(attributes, a, 0x0001, 0x0020, mask, f.mapped);
    AddressAppend(attributes, a, 0x0016, 0x0016, mask, f.relayed);
    AddressAppend(attributes, a, 0x0012, 0x0012, mask, f.peer);
  }

  lemma {:induction false} TakeAllReads(f: Fields, attributes: seq<Attribute>, mask: seq<byte>)
    requires AllTaken(attributes) && |mask| == 16
    ensures AllAcceptable(Offsets(attributes, HEADER))
    ensures TakeAll(f, Offsets(attributes, HEADER), mask) == ReadFields(f, attributes, mask)
    decreases |attributes|
  {
    hide Take, Acceptable;
    if attributes != [] {
      hide ReadFields;
      var before, a := attributes[..|attributes| - 1], attributes[|attributes| - 1];
      assert attributes == before + [a];
      TakeAllReads(f, before, mask);
      OffsetsAppend(before, HEADER, a);
      BodyIsConcat(before);
      TakeAppend(f, Offsets(before, HEADER), Located(HEADER + |Concat(before)|, a), mask);
      TakeReads(f, before, a, mask);
    }
  }

  /** The readers walk the attributes and the signature, and every one of these is taken in. */
  lemma SentWalk(typ: int, transactionId: seq<byte>, attributes: seq<Attribute>, password: seq<byte>, crypto: Crypto)
    requires Buildable(typ, transactionId, attributes, crypto) && AllTaken(attributes)
    ensures var out := Sent(typ, transactionId, attributes, password, crypto);
            var all := WithSignature(typ, transactionId, attributes, password, crypto);
            Framed(out) && Walk(out, HEADER) == Some(Offsets(all, HEADER)) && AllTaken(all)
  {
    FinishedWalk(typ, transactionId, attributes, password, crypto);
    var msg := Message(typ, transactionId, attributes);
    SignatureTaken(msg, password, crypto);
    hide Finish, Message, Body, Signature, Walk, Framed, Offsets, AllTaken;
    var s := Signature(msg, password, crypto);
    AllTakenAppend(attributes, s.0);
    AllTakenAppend(attributes + [s.0], s.1);
    assert attributes + [s.0] + [s.1] == attributes + [s.0, s.1];
  }

  /** Reading what was built: the parser's fields are those that the list of attributes, with the
      two signing ones at its end, gives under the message's own cookie and transaction id. */
  lemma FieldsRead(typ: int, transactionId: seq<byte>, attributes: seq<Attribute>, password: seq<byte>, crypto: Crypto,
                   f: Fields)
    requires Buildable(typ, transactionId, attributes, crypto) && AllTaken(attributes)
    ensures var out := Sent(typ, transactionId, attributes, password, crypto);
            var all := WithSignature(typ, transactionId, attributes, password, crypto);
            && AllTaken(all)
            && Parse(out, f) == Some(ReadFields(f, all, [0x21, 0x12, 0xA4, 0x42] + transactionId))
  {
    assert |transactionId| == 12;
    hide *;
    SentWalk(typ, transactionId, attributes, password, crypto);
    WireFormat(typ, transactionId, attributes, password, crypto);
    ParsedFields(Sent(typ, transactionId, attributes, password, crypto), transactionId,
                 WithSignature(typ, transactionId, attributes, password, crypto), f);
  }

  /** Offset and length of the data in the fields mark out this value in the message. */
  predicate MarksOut(buf: seq<byte>, g: Fields, value: seq<byte>) {
    && g.dataLen == |value| && g.dataOffset + g.dataLen <= |buf|
    && buf[g.dataOffset..g.dataOffset + g.dataLen] == value
  }

  /** The data offset that the parser leaves points at the data written last. */
  lemma DataFound(typ: int, transactionId: seq<byte>, attributes: seq<Attribute>, password: seq<byte>, crypto: Crypto,
                  f: Fields, i: nat)
    requires Buildable(typ, transactionId, attributes, crypto) && AllTaken(attributes)
    requires LastOf(attributes, {0x0013}) == Some(i)
    ensures var out := Sent(typ, transactionId, attributes, password, crypto);
            var parsed := Parse(out, f);
            parsed.Some? && MarksOut(out, parsed.value, attributes[i].value)
  {
    assert forall j | 0 <= j < |attributes| :: attributes[j].Valid();
    hide *;
    SentDataAt(typ, transactionId, attributes, password, crypto, f, i);
    SentValueAt(typ, transactionId, attributes, password, crypto, i);
    var out := Sent(typ, transactionId, attributes, password, crypto);
    var g := Parse(out, f).value;
    assert g.dataOffset == 20 + Before(attributes, i) + 4;
    WrittenValue(out, 20 + Before(attributes, i), attributes[i], g);
  }

  lemma SentDataAt(typ: int, transactionId: seq<byte>, attributes: seq<Attribute>, password: seq<byte>, crypto: Crypto,
                   f: Fields, i: nat)
    requires Buildable(typ, transactionId, attributes, crypto) && AllTaken(attributes)
    requires LastOf(attributes, {0x0013}) == Some(i)
    ensures var parsed := Parse(Sent(typ, transactionId, attributes, password, crypto), f);
            && parsed.Some? && parsed.value.dataLen == |attributes[i].value|
            && parsed.value.dataOffset == 20 + Before(attributes, i) + 4
  {
    var s := SignatureBehind(typ, transactionId, attributes, password, crypto);
    hide *;
    FieldsRead(typ, transactionId, attributes, password, crypto, f);
    DataRead(f, attributes, s, [0x21, 0x12, 0xA4, 0x42] + transactionId);
  }

  lemma SentValueAt(typ: int, transactionId: seq<byte>, attributes: seq<Attribute>, password: seq<byte>, crypto: Crypto,
                    i: nat)
    requires Buildable(typ, transactionId, attributes, crypto) && i < |attributes|
    ensures Written(Sent(typ, transactionId, attributes, password, crypto), 20 + Before(attributes, i), attributes[i])
  {
    hide Sent, Written, Before;
    WireFormat(typ, transactionId, attributes, password, crypto);
  }

  lemma WrittenValue(buf: seq<byte>, pos: nat, a: Attribute, g: Fields)
    requires Written(buf, pos, a) && g.dataOffset == pos + 4 && g.dataLen == |a.value|
    ensures MarksOut(buf, g, a.value)
  {
  }

  lemma SignatureTaken(msg: seq<byte>, password: seq<byte>, crypto: Crypto)
    requires Consistent(msg) && |msg| <= BUF_SIZE - 32 && crypto.Valid()
    ensures var s := Signature(msg, password, crypto);
            && s.0.typ == MESSAGE_INTEGRITY && s.0.Valid() && Acceptable(s.0)
            && s.1.typ == FINGERPRINT && s.1.Valid() && Acceptable(s.1)
  {
    hide EncodeAttribute, SetLength;
  }

  lemma SignatureBehind(typ: int, transactionId: seq<byte>, attributes: seq<Attribute>, password: seq<byte>, crypto: Crypto)
      returns (s: (Attribute, Attribute))
    requires Buildable(typ, transactionId, attributes, crypto)
    ensures |transactionId| == 12 && s.0.typ == MESSAGE_INTEGRITY && s.1.typ == FINGERPRINT
    ensures WithSignature(typ, transactionId, attributes, password, crypto) == attributes + [s.0, s.1]
  {
    hide Body, Message;
    s := Signature(Message(typ, transactionId, attributes), password, crypto);
  }

  lemma AllTakenAppend(attributes: seq<Attribute>, a: Attribute)
    requires AllTaken(attributes) && a.Valid() && Acceptable(a)
    ensures AllTaken(attributes + [a])
  {
    hide Acceptable;
  }

  lemma ParsedFields(out: seq<byte>, transactionId: seq<byte>, attributes: seq<Attribute>, f: Fields)
    requires Framed(out) && Walk(out, HEADER) == Some(Offsets(attributes, HEADER)) && AllTaken(attributes)
    requires out[8..20] == transactionId
    ensures Parse(out, f) == Some(ReadFields(f, attributes, [0x21, 0x12, 0xA4, 0x42] + transactionId))
  {
    hide Walk, Offsets, Take, ReadFields, Acceptable;
    TakeAllReads(f, attributes, Mask(out));
  }

  lemma DataRead(f: Fields, attributes: seq<Attribute>, s: (Attribute, Attribute), mask: seq<byte>)
    requires AllTaken(attributes + [s.0, s.1]) && AllTaken(attributes) && |mask| == 16
    requires s.0.typ == MESSAGE_INTEGRITY && s.1.typ == FINGERPRINT
    ensures forall i | LastOf(attributes, {0x0013}) == Some(i) ::
              var g := ReadFields(f, attributes + [s.0, s.1], mask);
              g.dataOffset == 20 + Before(attributes, i) + 4 && g.dataLen == |attributes[i].value|
  {
    hide LastOf, GetMapped, Text, LastAddress, Number, Body;
    var all := attributes + [s.0, s.1];
    BehindSignature(attributes, s, {0x0013});
    assert forall i | 0 <= i < |attributes| :: all[..i] == attributes[..i] && all[i] == attributes[i];
  }

  /** The signature hides no attribute of another type. */
  lemma BehindSignature(attributes: seq<Attribute>, s: (Attribute, Attribute), types: set<int>)
    requires s.0.typ !in types && s.1.typ !in types
    ensures LastOf(attributes + [s.0, s.1], types) == LastOf(attributes, types)
  {
    hide LastOf;
    assert attributes + [s.0] + [s.1] == attributes + [s.0, s.1];
    LastOfAppend(attributes, s.0, types);
    LastOfAppend(attributes + [s.0], s.1, types);
  }

  /** Attribute i is the last of the given types and holds `addr` as written under the mask. */
  predicate Carries(attributes: seq<Attribute>, types: set<int>, i: nat, typ: int, mask: seq<byte>, addr: MappedAddress)
    requires addr.Valid() && |mask| == 16
  {
    && LastOf(attributes, types) == Some(i) && attributes[i].typ == typ
    && exists reserved: byte :: attributes[i].value == SetMapped(reserved, mask, addr)
  }

  /** An address that the writer put in last, under the cookie and the transaction id of its
      message, is the address the parser finds there; MAPPED-ADDRESS goes without the mask. */
  lemma AddressesRead(typ: int, transactionId: seq<byte>, attributes: seq<Attribute>, password: seq<byte>,
                      crypto: Crypto, f: Fields, i: nat, addr: MappedAddress)
    requires Buildable(typ, transactionId, attributes, crypto) && AllTaken(attributes) && addr.Valid()
    ensures var parsed := Parse(Sent(typ, transactionId, attributes, password, crypto), f);
            var mask := [0x21, 0x12, 0xA4, 0x42] + transactionId;
            && parsed.Some?
            && (Carries(attributes, {0x0001, 0x0020}, i, 0x0020, mask, addr) ==> parsed.value.mapped == Some(addr))
            && (Carries(attributes, {0x0001, 0x0020}, i, 0x0001, Zeros(16), addr) ==> parsed.value.mapped == Some(addr))
            && (Carries(attributes, {0x0016}, i, 0x0016, mask, addr) ==> parsed.value.relayed == Some(addr))
            && (Carries(attributes, {0x0012}, i, 0x0012, mask, addr) ==> parsed.value.peer == Some(addr))
  {
    var mask := [0x21, 0x12, 0xA4, 0x42] + transactionId;
    var s := SignatureBehind(typ, transactionId, attributes, password, crypto);
    hide Buildable, Sent, WithSignature, Parse, Carries, LastAddress, LastOf, Number, Text, Data;
    FieldsRead(typ, transactionId, attributes, password, crypto, f);
    CarriedAddress(attributes, s, 0x0001, 0x0020, mask, f.mapped, i, addr);
    CarriedAddress(attributes, s, 0x0016, 0x0016, mask, f.relayed, i, addr);
    CarriedAddress(attributes, s, 0x0012, 0x0012, mask, f.peer, i, addr);
    assert {0x0016, 0x0016} == {0x0016} && {0x0012, 0x0012} == {0x0012};
  }

  lemma CarriedAddress(attributes: seq<Attribute>, s: (Attribute, Attribute), plain: int, masked: int, mask: seq<byte>,
                       otherwise: Option<MappedAddress>, i: nat, addr: MappedAddress)
    requires AllTaken(attributes) && AllTaken(attributes + [s.0, s.1]) && |mask| == 16 && addr.Valid()
    requires plain == 0x0001 || plain == masked
    requires masked in {0x0012, 0x0016, 0x0020}
    requires s.0.typ == MESSAGE_INTEGRITY && s.1.typ == FINGERPRINT
    ensures var r := LastAddress(attributes + [s.0, s.1], plain, masked, mask, otherwise);
            && (Carries(attributes, {plain, masked}, i, masked, mask, addr) ==> r == Some(addr))
            && (plain != masked && Carries(attributes, {plain, masked}, i, plain, Zeros(16), addr) ==> r == Some(addr))
  {
    hide LastOf, GetMapped, SetMapped;
    BehindSignature(attributes, s, {plain, masked});
    forall m: seq<byte>, reserved: byte | |m| == 16
      ensures AddressValueOk(SetMapped(reserved, m, addr)) && GetMapped(SetMapped(reserved, m, addr), m) == addr
    {
      MappedRoundTrip(reserved, m, addr);
    }
  }

  // ---------------------------------------------------------------- the mask

  function Bit(x: nat, i: nat): nat {
    if i == 0 then x % 2 else Bit(x / 2, i - 1)
  }

  /** Each bit of an exclusive or is set just when the two bits differ. */
  lemma {:induction false} XorBitwise(a: nat, b: nat, n: nat, i: nat)
    requires i < n
    ensures Bit(XorBits(a, b, n), i) == 1 <==> Bit(a, i) != Bit(b, i)
    decreases n
  {
    SplitBit((a + b) % 2, XorBits(a / 2, b / 2, n - 1));
    if i > 0 {
      XorBitwise(a / 2, b / 2, n - 1, i - 1);
    } else {
      hide XorBits;
      BitDiffers(a, b);
    }
  }

  lemma BitDiffers(a: nat, b: nat)
    ensures (a + b) % 2 == 1 <==> a % 2 != b % 2
  {
  }

  /** The port is written under the first two bytes of the mask, and the address under the mask
      from its first byte on, in network order. */
  lemma MaskedBytes(reserved: byte, mask: seq<byte>, addr: MappedAddress, k: nat, i: nat)
    requires addr.Valid() && |mask| == 16 && i < 8 && k < |addr.ip|
    ensures var value := SetMapped(reserved, mask, addr);
            && value[1] == (if addr.v6 then 2 else 1)
            && (Bit(value[2], i) == 1 <==> Bit(addr.port / 256, i) != Bit(mask[0], i))
            && (Bit(value[3], i) == 1 <==> Bit(addr.port % 256, i) != Bit(mask[1], i))
            && (Bit(value[4 + k], i) == 1 <==> Bit(addr.ip[k], i) != Bit(mask[k], i))
  {
    hide XorBits, Bit;
    XorBitwise(addr.port / 256, mask[0], 8, i);
    XorBitwise(addr.port % 256, mask[1], 8, i);
    XorBitwise(addr.ip[k], mask[k], 8, i);
  }
}
