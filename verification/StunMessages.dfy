/** The STUN message buffer as it is used: attributes written in place, the two signing
    attributes appended, and the two readers, which walk the buffer with a position. */
module StunMessages {
  import opened Options
  import opened Bytes
  import opened Stun
  import opened StunTheorems

  class StunMessage {
    const buf: array<byte>
    var size: nat
    var fields: Fields

    ghost predicate Valid()
      reads this
    {
      buf.Length == BUF_SIZE && size <= BUF_SIZE
    }

    ghost function Contents(): seq<byte>
      requires Valid()
      reads this, buf
    {
      buf[..size]
    }

    constructor ()
      ensures Valid() && fresh(buf) && size == 0 && fields == NO_FIELDS
    {
      buf := new byte[BUF_SIZE](_ => 0);
      size, fields := 0, NO_FIELDS;
    }

    method Put(offset: nat, data: seq<byte>)
      requires Valid() && offset + |data| <= BUF_SIZE
      modifies buf
      ensures buf[..] == old(buf[..offset]) + data + old(buf[offset + |data|..])
    {
      forall i | 0 <= i < |data| { buf[offset + i] := data[i]; }
      assert buf[..offset] == old(buf[..offset]) && buf[offset..offset + |data|] == data;
      assert buf[offset + |data|..] == old(buf[offset + |data|..]);
      assert buf[..] == buf[..offset] + buf[offset..offset + |data|] + buf[offset + |data|..];
    }

    /** `transactionId` is what the random source returns, if it works. */
    method Create(typ: int, transactionId: Option<seq<byte>>) returns (ret: int)
      requires Valid() && 0 <= typ < 0x10000 && (transactionId.Some? ==> |transactionId.value| == 12)
      modifies this`size, buf
      ensures Valid() && ret == if transactionId.Some? then 0 else -1
      ensures ret == 0 ==> Contents() == Created(typ, transactionId.value)
      ensures ret == -1 ==> size == 0
    {
      if transactionId.None? {
        size := 0;
        return -1;
      }
      Put(0, U16(typ) + [0, 0] + COOKIE + transactionId.value);
      size := HEADER;
      ret := 0;
    }

    method WriteLength(n: int)
      requires Valid() && size >= HEADER && 0 <= n < 0x10000
      modifies buf
      ensures Contents() == SetLength(old(Contents()), n)
    {
      Put(2, U16(n));
      assert Contents() == SetLength(old(Contents()), n);
    }

    method AppendBytes(data: seq<byte>)
      requires Valid() && size + |data| <= BUF_SIZE
      modifies this`size, buf
      ensures Valid() && Contents() == old(Contents()) + data
    {
      Put(size, data);
      size := size + |data|;
      assert Contents() == old(Contents()) + data;
    }

    /** The attribute at the end, zeros up to the next multiple of four, and the new length. */
    method WriteAttr(a: Attribute) returns (ret: int)
      requires Valid() && a.Valid() && (size >= HEADER ==> Consistent(Contents()))
      modifies this`size, buf
      ensures Valid() && ret == if old(Fits(Contents(), a)) then 0 else -1
      ensures ret == 0 ==> Some(Contents()) == WriteAttribute(old(Contents()), a) && Consistent(Contents())
      ensures ret == -1 ==> size == old(size) && buf[..] == old(buf[..])
    {
      var padded := Padded(|a.value|);
      if size < HEADER || padded > BUF_SIZE - 4 || size > BUF_SIZE - 4 - padded { return -1; }
      var n := ReadU16(buf[..size], 2);
      WriteLength(n + 4 + padded);
      AppendBytes(U16(a.typ) + U16(|a.value|) + a.value + Zeros(padded - |a.value|));
      ret := 0;
    }

    /** Signing with a short-term password; `hashing` is whether the hash function works. */
    method Finish(password: seq<byte>, crypto: Crypto, hashing: bool) returns (ret: int)
      requires Valid() && crypto.Valid() && Consistent(Contents())
      modifies this`size, buf
      ensures Valid() && ret == if old(size) <= BUF_SIZE - 32 && hashing then 0 else -1
      ensures ret == 0 ==> Some(Contents()) == Stun.Finish(old(Contents()), password, crypto) && Consistent(Contents())
      ensures ret == -1 ==> size == old(size)
    {
      hide EncodeAttribute, Consistent;
      if size > BUF_SIZE - 32 { return -1; }
      ConsistentLength(Contents());
      var n := ReadU16(buf[..size], 2);
      WriteLength(n + 24);
      if !hashing { return -1; }
      ghost var msg := old(Contents());
      var integrity := Attribute(MESSAGE_INTEGRITY, crypto.hmac(buf[..size], password));
      AppendBytes(EncodeAttribute(integrity));
      WriteLength(n + 32);
      SetLengthAgain(msg, n + 24, n + 32, EncodeAttribute(integrity));
      AppendBytes(EncodeAttribute(Attribute(FINGERPRINT, crypto.crc(buf[..size]))));
      ret := 0;
    }

    static lemma ConsistentLength(msg: seq<byte>)
      requires Consistent(msg)
      ensures |msg| >= HEADER && ReadU16(msg, 2) == |msg| - HEADER
    {
    }

    static lemma SetLengthAgain(msg: seq<byte>, n: int, m: int, rest: seq<byte>)
      requires |msg| >= HEADER && 0 <= n < 0x10000 && 0 <= m < 0x10000
      ensures SetLength(SetLength(msg, n) + rest, m) == SetLength(msg, m) + rest
    {
    }

    // -------------------------------------------------------------- reading

    /** Parses the first `received` bytes of the buffer. */
    method ParseBuf(received: nat) returns (ret: int)
      requires Valid()
      modifies this`size, this`fields
      ensures Valid() && buf[..] == old(buf[..])
      ensures received > BUF_SIZE ==> ret == -1
      ensures received <= BUF_SIZE ==>
                var parsed := Parse(buf[..received], old(fields));
                && ret == (if parsed.Some? then 0 else -1)
                && (ret == 0 ==> size == received && fields == parsed.value)
    {
      if received < HEADER || received > BUF_SIZE { return -1; }
      var b := buf[..received];
      if b[4..8] != COOKIE { return -1; }
      var length := HEADER + ReadU16(b, 2);
      if length != received { return -1; }
      size := length;
      var ok := ParseAttributes(b);
      ret := if ok then 0 else -1;
    }

    method ParseAttributes(b: seq<byte>) returns (ok: bool)
      requires Framed(b)
      modifies this`fields
      ensures ok <==> Parse(b, old(fields)).Some?
      ensures ok ==> fields == Parse(b, old(fields)).value
    {
      hide Framed, AttributeAt, Acceptable, Take;
      assert HEADER <= |b| by { FramedSize(b); }
      var pos := HEADER;
      var mask := Mask(b);
      ghost var done: seq<Located> := [];
      WalkStart(b);
      while pos < |b|
        invariant HEADER <= pos <= |b| && Walked(b, done, pos)
        invariant AllAcceptable(done) && fields == TakeAll(old(fields), done, mask)
        decreases |b| - pos
      {
        WalkStep(b, done, pos);
        if |b| - pos < 4 { return false; }
        var next := pos + 4 + Padded(ReadU16(b, pos + 2));
        if next > |b| { return false; }
        var w := Located(pos, AttributeAt(b, pos));
        if !Acceptable(w.attribute) {
          Unacceptable(b, done, w, next);
          return false;
        }
        TakeAppend(old(fields), done, w, mask);
        fields := Take(fields, w, mask);
        done := done + [w];
        pos := next;
      }
      WalkedToEnd(b, done);
      ok := true;
    }

    /** Whether the message carries valid integrity for the password. */
    static method IsValid(b: seq<byte>, password: seq<byte>, crypto: Crypto, hashing: bool) returns (ret: int)
      requires crypto.Valid()
      ensures ret == if hashing && Authentic(b, password, crypto) then 0 else -1
    {
      if |b| < HEADER || |b| > BUF_SIZE || b[4..8] != COOKIE { return -1; }
      if HEADER + ReadU16(b, 2) != |b| { return -1; }
      var integrity, fingerprint := FindSignature(b);
      AuthenticBySignature(b, password, crypto, integrity, fingerprint);
      if integrity.None? { return -1; }
      if fingerprint.Some? && !FingerprintAt(b, fingerprint.value, crypto) { return -1; }
      if !hashing || !IntegrityAt(b, integrity.value, password, crypto) { return -1; }
      ret := 0;
    }

    /** One walk over the attributes: the integrity attribute, if it is the only one and has the
        right size, and the fingerprint, if any, provided it is last and has the right size. */
    static method FindSignature(b: seq<byte>) returns (integrity: Option<Located>, fingerprint: Option<Located>)
      requires Framed(b)
      ensures integrity.Some? <==> Signed(b)
      ensures integrity.Some? ==> SignatureOf(Walk(b, HEADER).value, integrity, fingerprint)
    {
      hide Framed, AttributeAt, SignatureOf, Signed;
      assert HEADER <= |b| <= BUF_SIZE by { FramedSize(b); }
      var pos := HEADER;
      integrity, fingerprint := None, None;
      ghost var done: seq<Located> := [];
      WalkStart(b);
      ScanStart();
      while pos < |b|
        invariant HEADER <= pos <= |b| && Walked(b, done, pos)
        invariant SignatureOf(done, integrity, fingerprint) && (fingerprint.Some? ==> pos == |b|)
        decreases |b| - pos
      {
        WalkStep(b, done, pos);
        if |b| - pos < 4 { Unwalkable(b); return None, None; }
        var next := pos + 4 + Padded(ReadU16(b, pos + 2));
        if next > |b| { Unwalkable(b); return None, None; }
        var w := Located(pos, AttributeAt(b, pos));
        ScanStep(b, done, w, next, integrity);
        if w.attribute.typ == MESSAGE_INTEGRITY {
          if |w.attribute.value| != 20 || integrity.Some? { return None, None; }
          integrity := Some(w);
        } else if w.attribute.typ == FINGERPRINT {
          if |w.attribute.value| != 4 || fingerprint.Some? || next != |b| { return None, None; }
          fingerprint := Some(w);
        }
        done := done + [w];
        pos := next;
      }
      WalkedToEnd(b, done);
      ScanEnd(b, done, integrity, fingerprint);
    }
  }

  // ---------------------------------------------------------------- the walk so far

  lemma FramedSize(b: seq<byte>)
    requires Framed(b)
    ensures HEADER <= |b| <= BUF_SIZE
  {
  }

  /** The attributes gone through before `pos`. */
  ghost predicate Walked(b: seq<byte>, done: seq<Located>, pos: nat) {
    Walk(b, HEADER) == Prepend(done, Walk(b, pos))
  }

  lemma WalkStart(b: seq<byte>)
    ensures Walked(b, [], HEADER)
  {
    if Walk(b, HEADER).Some? { assert [] + Walk(b, HEADER).value == Walk(b, HEADER).value; }
  }

  function Prepend(done: seq<Located>, rest: Option<seq<Located>>): Option<seq<Located>> {
    if rest.None? then None else Some(done + rest.value)
  }

  lemma WalkStep(b: seq<byte>, done: seq<Located>, pos: nat)
    requires HEADER <= pos < |b| && Walked(b, done, pos)
    ensures |b| - pos < 4 ==> Walk(b, HEADER).None?
    ensures |b| - pos >= 4 ==>
              var next := pos + 4 + Padded(ReadU16(b, pos + 2));
              && (next > |b| ==> Walk(b, HEADER).None?)
              && (next <= |b| ==> Walked(b, done + [Located(pos, AttributeAt(b, pos))], next))
  {
    hide AttributeAt;
    if |b| - pos >= 4 && pos + 4 + Padded(ReadU16(b, pos + 2)) <= |b| {
      var next := pos + 4 + Padded(ReadU16(b, pos + 2));
      var w := Located(pos, AttributeAt(b, pos));
      assert Walk(b, pos) == Prepend([w], Walk(b, next));
      PrependTwice(done, w, Walk(b, next));
    }
  }

  lemma PrependTwice(done: seq<Located>, w: Located, rest: Option<seq<Located>>)
    ensures Prepend(done, Prepend([w], rest)) == Prepend(done + [w], rest)
  {
    if rest.Some? { assert done + ([w] + rest.value) == done + [w] + rest.value; }
  }

  lemma WalkedToEnd(b: seq<byte>, done: seq<Located>)
    requires HEADER <= |b| && Walked(b, done, |b|)
    ensures Walk(b, HEADER) == Some(done)
  {
    assert done + [] == done;
  }

  lemma Unacceptable(b: seq<byte>, done: seq<Located>, w: Located, next: nat)
    requires Walked(b, done + [w], next) && !Acceptable(w.attribute)
    ensures Walk(b, HEADER).Some? ==> !AllAcceptable(Walk(b, HEADER).value)
  {
    hide Acceptable, Walk;
    if Walk(b, HEADER).Some? {
      assert (done + [w])[|done|] == w;
      assert Walk(b, HEADER).value[|done|] == w;
    }
  }

  // ---------------------------------------------------------------- scanning for the signature

  /** A message whose attributes include one integrity attribute, of 20 bytes, and at most one
      fingerprint, last and of 4 bytes. */
  ghost predicate Signed(b: seq<byte>) {
    && Walk(b, HEADER).Some?
    && var ws := Walk(b, HEADER).value;
       && (exists i :: Only(ws, i, MESSAGE_INTEGRITY) && |ws[i].attribute.value| == 20)
       && (forall i :: HasType(ws, i, FINGERPRINT) ==> i == |ws| - 1 && |ws[i].attribute.value| == 4)
  }

  /** What a scan of some attributes has found: the only integrity attribute, or that there is
      none; a fingerprint at the end, or that there is none. */
  ghost predicate SignatureOf(ws: seq<Located>, integrity: Option<Located>, fingerprint: Option<Located>) {
    && (if integrity.Some? then
          exists i :: Only(ws, i, MESSAGE_INTEGRITY) && ws[i] == integrity.value && |ws[i].attribute.value| == 20
        else forall i :: !HasType(ws, i, MESSAGE_INTEGRITY))
    && (if fingerprint.Some? then
          && HasType(ws, |ws| - 1, FINGERPRINT) && ws[|ws| - 1] == fingerprint.value
          && |fingerprint.value.attribute.value| == 4 && forall i :: HasType(ws, i, FINGERPRINT) ==> i == |ws| - 1
        else forall i :: !HasType(ws, i, FINGERPRINT))
  }

  lemma ScanStart()
    ensures SignatureOf([], None, None)
  {
  }

  lemma Unwalkable(b: seq<byte>)
    requires Walk(b, HEADER).None?
    ensures !Signed(b)
  {
  }

  /** The next attribute either spoils the signature or extends what the scan has found. */
  lemma ScanStep(b: seq<byte>, done: seq<Located>, w: Located, next: nat, integrity: Option<Located>)
    requires Walked(b, done + [w], next) && next <= |b| && SignatureOf(done, integrity, None)
    ensures var t, n := w.attribute.typ, |w.attribute.value|;
            && (t == MESSAGE_INTEGRITY ==>
                  if n != 20 || integrity.Some? then !Signed(b) else SignatureOf(done + [w], Some(w), None))
            && (t == FINGERPRINT ==>
                  if n != 4 || next != |b| then !Signed(b) else SignatureOf(done + [w], integrity, Some(w)))
            && (t != MESSAGE_INTEGRITY && t != FINGERPRINT ==> SignatureOf(done + [w], integrity, None))
  {
    Extends(done, w, MESSAGE_INTEGRITY);
    Extends(done, w, FINGERPRINT);
    if Walk(b, HEADER).Some? {
      var ws := Walk(b, HEADER).value;
      var rest := Walk(b, next).value;
      assert ws == (done + [w]) + rest && ws[|done|] == w;
      assert HasType(ws, |done|, w.attribute.typ);
      assert next < |b| ==> |ws| - 1 > |done|;
      if integrity.Some? {
        var i :| Only(done, i, MESSAGE_INTEGRITY);
        assert HasType(ws, i, MESSAGE_INTEGRITY) && i != |done|;
      }
    }
  }

  lemma Extends(done: seq<Located>, w: Located, typ: int)
    ensures forall i :: HasType(done + [w], i, typ) <==> HasType(done, i, typ) || (i == |done| && w.attribute.typ == typ)
    ensures forall i :: Only(done, i, typ) && w.attribute.typ != typ ==> Only(done + [w], i, typ)
    ensures (forall i :: !HasType(done, i, typ)) && w.attribute.typ == typ ==> Only(done + [w], |done|, typ)
  {
  }

  lemma ScanEnd(b: seq<byte>, ws: seq<Located>, integrity: Option<Located>, fingerprint: Option<Located>)
    requires Walk(b, HEADER) == Some(ws) && SignatureOf(ws, integrity, fingerprint)
    ensures integrity.Some? <==> Signed(b)
  {
  }

  /** For a scanned message, authenticity is a matter of the two attributes found. */
  lemma AuthenticBySignature(b: seq<byte>, password: seq<byte>, crypto: Crypto, integrity: Option<Located>,
                             fingerprint: Option<Located>)
    requires Framed(b) && (integrity.Some? <==> Signed(b))
    requires integrity.Some? ==> SignatureOf(Walk(b, HEADER).value, integrity, fingerprint)
    ensures Authentic(b, password, crypto) <==>
            && integrity.Some? && IntegrityAt(b, integrity.value, password, crypto)
            && (fingerprint.Some? ==> FingerprintAt(b, fingerprint.value, crypto))
  {
    hide Walk, Framed;
    if Authentic(b, password, crypto) {
      var i :| Only(Walk(b, HEADER).value, i, MESSAGE_INTEGRITY) &&
               IntegrityAt(b, Walk(b, HEADER).value[i], password, crypto);
      assert Signed(b);
    }
  }
}
