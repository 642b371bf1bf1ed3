/** Reassembly of a fragmented DTLS ClientHello (section 4.2.3 of RFC 6347): the effect of each
    datagram as a function, and what any run of datagrams amounts to. */
module ClientHello {
  import opened Options
  import opened Bytes

  const RECORD_HEADER := 13
  const HANDSHAKE_HEADER := 12
  const HEADERS := 25
  const CONTENT_HANDSHAKE := 22
  const CLIENT_HELLO := 1
  const CLIENT_HELLO_MAX := 16384

  function U24(v: int): (b: seq<byte>)
    requires 0 <= v < 0x100_0000
    ensures |b| == 3 && ReadU24(b, 0) == v
  {
    [v / 65536, v / 256 % 256, v % 256]
  }

  function ReadU24(b: seq<byte>, i: nat): (v: int)
    requires i + 3 <= |b|
    ensures 0 <= v < 0x100_0000
  {
    (b[i] as int) * 65536 + (b[i + 1] as int) * 256 + b[i + 2] as int
  }

  // ---------------------------------------------------------------- one datagram

  /** A datagram holding exactly one handshake record of type ClientHello. Any other datagram
      is none of the reassembler's business. */
  predicate IsClientHello(p: seq<byte>) {
    && |p| >= HEADERS && p[0] == CONTENT_HANDSHAKE
    && ReadU16(p, 11) + RECORD_HEADER == |p|
    && p[13] == CLIENT_HELLO
  }

  function TotalLen(p: seq<byte>): int requires |p| >= HEADERS { ReadU24(p, 14) }

  function MessageSeq(p: seq<byte>): int requires |p| >= HEADERS { ReadU16(p, 17) }

  function FragmentOffset(p: seq<byte>): int requires |p| >= HEADERS { ReadU24(p, 19) }

  function FragmentLen(p: seq<byte>): int requires |p| >= HEADERS { ReadU24(p, 22) }

  predicate Unfragmented(p: seq<byte>)
    requires |p| >= HEADERS
  {
    FragmentOffset(p) == 0 && FragmentLen(p) == TotalLen(p)
  }

  predicate WellFormed(p: seq<byte>)
    requires |p| >= HEADERS
  {
    && 0 < TotalLen(p) <= CLIENT_HELLO_MAX
    && FragmentOffset(p) + FragmentLen(p) <= TotalLen(p)
    && |p| == HEADERS + FragmentLen(p)
  }

  /** The headers of the record under construction: the first fragment's, rewritten to describe
      the whole message. */
  function WholeHeaders(p: seq<byte>): (h: seq<byte>)
    requires |p| >= HEADERS && TotalLen(p) <= CLIENT_HELLO_MAX
    ensures |h| == HEADERS
  {
    p[..11] + U16(HANDSHAKE_HEADER + TotalLen(p)) + p[13..19] + [0, 0, 0] + U24(TotalLen(p))
  }

  /** `cells[k]` is byte k of the message, once some fragment has brought it. */
  datatype Assembly = Idle | Assembling(messageSeq: int, headers: seq<byte>, cells: seq<Option<byte>>)

  /** `Passed` hands the datagram on as it came; `Whole` replaces it by a reassembled record. */
  datatype Outcome = Passed | WantRead | DecodeError | BufferTooSmall | AllocFailed | Whole(record: seq<byte>)

  function Empty(n: nat): seq<Option<byte>> {
    seq(n, _ => None)
  }

  function Merge(cells: seq<Option<byte>>, offset: nat, data: seq<byte>): (r: seq<Option<byte>>)
    ensures |r| == |cells|
    ensures forall k | 0 <= k < |r| :: r[k] == if offset <= k < offset + |data| then Some(data[k - offset]) else cells[k]
  {
    seq(|cells|, k requires 0 <= k < |cells| =>
      if offset <= k < offset + |data| then Some(data[k - offset]) else cells[k])
  }

  predicate Full(cells: seq<Option<byte>>) {
    forall k | 0 <= k < |cells| :: cells[k].Some?
  }

  function Contents(cells: seq<Option<byte>>): (body: seq<byte>)
    requires Full(cells)
    ensures |body| == |cells| && forall k | 0 <= k < |body| :: cells[k] == Some(body[k])
  {
    seq(|cells|, k requires 0 <= k < |cells| => cells[k].value)
  }

  /** The assembly a fragment is merged into: the one in progress if it is for the same message. */
  function Current(a: Assembly, p: seq<byte>): Assembly
    requires |p| >= HEADERS && WellFormed(p)
  {
    if a.Assembling? && |a.cells| == TotalLen(p) && a.messageSeq == MessageSeq(p) then a
    else Assembling(MessageSeq(p), WholeHeaders(p), Empty(TotalLen(p)))
  }

  predicate NeedsMemory(a: Assembly, p: seq<byte>)
    requires |p| >= HEADERS && WellFormed(p)
  {
    !(a.Assembling? && |a.cells| == TotalLen(p) && a.messageSeq == MessageSeq(p))
  }

  function Step(a: Assembly, p: seq<byte>, capacity: nat, memory: bool): (Assembly, Outcome) {
    if !IsClientHello(p) then (a, Passed)
    else if Unfragmented(p) then (Idle, Passed)
    else if !WellFormed(p) then (Idle, DecodeError)
    else if HEADERS + TotalLen(p) > capacity then (Idle, BufferTooSmall)
    else if NeedsMemory(a, p) && !memory then (Idle, AllocFailed)
    else
      var c := Current(a, p);
      var cells := Merge(c.cells, FragmentOffset(p), p[HEADERS..]);
      if Full(cells) then (Idle, Whole(c.headers + Contents(cells)))
      else (c.(cells := cells), WantRead)
  }

  // ---------------------------------------------------------------- runs for one message

  datatype Message = Message(messageSeq: int, body: seq<byte>)

  /** A proper fragment of the message: a true slice of its body, labelled as such. */
  ghost predicate IsFragmentOf(p: seq<byte>, m: Message) {
    && IsClientHello(p) && !Unfragmented(p) && WellFormed(p)
    && TotalLen(p) == |m.body| && MessageSeq(p) == m.messageSeq
    && p[HEADERS..] == m.body[FragmentOffset(p)..FragmentOffset(p) + FragmentLen(p)]
  }

  /** Fragments of one message in any order, with any overlap and repetition, among datagrams
      that are no ClientHello. */
  ghost predicate Consistent(ps: seq<seq<byte>>, m: Message) {
    forall i | 0 <= i < |ps| :: IsFragmentOf(ps[i], m) || !IsClientHello(ps[i])
  }

  /** Byte k of the message has arrived. */
  ghost predicate Covered(ps: seq<seq<byte>>, k: nat)
    decreases |ps|
  {
    ps != [] &&
    var p := ps[|ps| - 1];
    || Covered(ps[..|ps| - 1], k)
    || (IsClientHello(p) && FragmentOffset(p) <= k < FragmentOffset(p) + FragmentLen(p))
  }

  ghost predicate Complete(ps: seq<seq<byte>>, m: Message) {
    forall k | 0 <= k < |m.body| :: Covered(ps, k)
  }

  /** The first fragment seen, whose headers the record keeps. */
  function FirstFragment(ps: seq<seq<byte>>): Option<seq<byte>> {
    if ps == [] then None
    else if IsClientHello(ps[0]) then Some(ps[0])
    else FirstFragment(ps[1..])
  }

  /** The reassembler after a run from idle, with memory available. */
  function Run(ps: seq<seq<byte>>, capacity: nat): Assembly
    decreases |ps|
  {
    if ps == [] then Idle else Step(Run(ps[..|ps| - 1], capacity), ps[|ps| - 1], capacity, true).0
  }

  /** What the reassembler holds while the message is not complete. */
  ghost predicate Holds(a: Assembly, ps: seq<seq<byte>>, m: Message) {
    if FirstFragment(ps).None? then a == Idle
    else
      var first := FirstFragment(ps).value;
      && a.Assembling? && a.messageSeq == m.messageSeq && |a.cells| == |m.body|
      && |first| >= HEADERS && TotalLen(first) == |m.body| <= CLIENT_HELLO_MAX && a.headers == WholeHeaders(first)
      && (forall k | 0 <= k < |m.body| :: a.cells[k] == if Covered(ps, k) then Some(m.body[k]) else None)
  }

  /** One record: the first fragment's headers, made whole, and the message's body. */
  ghost predicate IsWholeRecord(o: Outcome, ps: seq<seq<byte>>, m: Message) {
    && FirstFragment(ps).Some?
    && var first := FirstFragment(ps).value;
       && |first| >= HEADERS && TotalLen(first) == |m.body| <= CLIENT_HELLO_MAX
       && o == Whole(WholeHeaders(first) + m.body)
  }

  lemma {:induction false} FirstFragmentExtends(ps: seq<seq<byte>>, p: seq<byte>)
    ensures FirstFragment(ps + [p]) ==
            if FirstFragment(ps).Some? then FirstFragment(ps) else if IsClientHello(p) then Some(p) else None
    decreases |ps|
  {
    if ps == [] {
      assert ps + [p] == [p];
      assert FirstFragment([p][1..]) == None;
    } else {
      assert (ps + [p])[1..] == ps[1..] + [p];
      FirstFragmentExtends(ps[1..], p);
    }
  }

  lemma {:induction false} UncoveredWithoutFragments(ps: seq<seq<byte>>, k: nat)
    requires FirstFragment(ps).None?
    ensures !Covered(ps, k)
    decreases |ps|
  {
    if ps != [] {
      var before, p := ps[..|ps| - 1], ps[|ps| - 1];
      assert ps == before + [p];
      FirstFragmentExtends(before, p);
      UncoveredWithoutFragments(before, k);
    }
  }

  /** One more datagram of a consistent run: the answer, and what is held if more is to come. */
  lemma StepOfRun(a: Assembly, ps: seq<seq<byte>>, p: seq<byte>, m: Message, capacity: nat)
    requires Holds(a, ps, m) && !Complete(ps, m)
    requires IsFragmentOf(p, m) || !IsClientHello(p)
    requires |m.body| <= CLIENT_HELLO_MAX && HEADERS + |m.body| <= capacity
    ensures var r := Step(a, p, capacity, true);
            if !IsClientHello(p) then r.1 == Passed && Holds(r.0, ps + [p], m) && !Complete(ps + [p], m)
            else if Complete(ps + [p], m) then
              r.0 == Idle && IsWholeRecord(r.1, ps + [p], m)
            else r.1 == WantRead && Holds(r.0, ps + [p], m)
  {
    assert (ps + [p])[..|ps|] == ps;
    FirstFragmentExtends(ps, p);
    if !IsClientHello(p) {
      var k :| 0 <= k < |m.body| && !Covered(ps, k);
      assert !Covered(ps + [p], k);
    } else {
      MergeOfRun(a, ps, p, m);
      var c := Current(a, p);
      var cells := Merge(c.cells, FragmentOffset(p), p[HEADERS..]);
      assert Full(cells) <==> Complete(ps + [p], m);
      if Full(cells) {
        assert Contents(cells) == m.body;
      }
    }
  }

  lemma MergeOfRun(a: Assembly, ps: seq<seq<byte>>, p: seq<byte>, m: Message)
    requires Holds(a, ps, m) && IsFragmentOf(p, m)
    ensures var cells := Merge(Current(a, p).cells, FragmentOffset(p), p[HEADERS..]);
            |cells| == |m.body| &&
            forall k | 0 <= k < |m.body| :: cells[k] == if Covered(ps + [p], k) then Some(m.body[k]) else None
  {
    assert (ps + [p])[..|ps|] == ps;
    if FirstFragment(ps).None? {
      forall k | 0 <= k < |m.body| ensures !Covered(ps, k) { UncoveredWithoutFragments(ps, k); }
    }
    var cells := Merge(Current(a, p).cells, FragmentOffset(p), p[HEADERS..]);
    forall k | 0 <= k < |m.body| ensures cells[k] == if Covered(ps + [p], k) then Some(m.body[k]) else None {
      if FragmentOffset(p) <= k < FragmentOffset(p) + FragmentLen(p) {
        assert p[HEADERS..][k - FragmentOffset(p)] == m.body[k];
      }
    }
  }

  lemma {:induction false} RunHolds(ps: seq<seq<byte>>, m: Message, capacity: nat)
    requires Consistent(ps, m) && !Complete(ps, m)
    requires |m.body| <= CLIENT_HELLO_MAX && HEADERS + |m.body| <= capacity
    ensures Holds(Run(ps, capacity), ps, m)
    decreases |ps|
  {
    if ps != [] {
      var before, p := ps[..|ps| - 1], ps[|ps| - 1];
      assert ps == before + [p];
      var k :| 0 <= k < |m.body| && !Covered(ps, k);
      assert !Covered(before, k);
      RunHolds(before, m, capacity);
      StepOfRun(Run(before, capacity), before, p, m, capacity);
    }
  }

  /** Reassembly, over any run: while the fragments seen do not cover the message every fragment
      is answered WANT_READ and other datagrams pass; the fragment that completes the cover
      yields one record with the first fragment's headers, made whole, and the original body,
      and leaves nothing behind. */
  lemma Reassembly(ps: seq<seq<byte>>, p: seq<byte>, m: Message, capacity: nat)
    requires Consistent(ps + [p], m) && !Complete(ps, m)
    requires |m.body| <= CLIENT_HELLO_MAX && HEADERS + |m.body| <= capacity
    ensures var r := Step(Run(ps, capacity), p, capacity, true);
            if !IsClientHello(p) then r == (Run(ps, capacity), Passed)
            else if Complete(ps + [p], m) then
              r.0 == Idle && IsWholeRecord(r.1, ps + [p], m)
            else r.1 == WantRead
  {
    forall i | 0 <= i < |ps| ensures IsFragmentOf(ps[i], m) || !IsClientHello(ps[i]) {
      assert (ps + [p])[i] == ps[i];
    }
    assert (ps + [p])[|ps|] == p;
    RunHolds(ps, m, capacity);
    StepOfRun(Run(ps, capacity), ps, p, m, capacity);
  }

  /** The record it yields is an unfragmented ClientHello of the same message, which the
      reassembler itself would pass. */
  lemma WholeRecord(first: seq<byte>, m: Message, a: Assembly, capacity: nat, memory: bool)
    requires IsFragmentOf(first, m)
    ensures var record := WholeHeaders(first) + m.body;
            && IsClientHello(record) && ReadU16(record, 11) == HANDSHAKE_HEADER + |m.body|
            && FragmentOffset(record) == 0 && FragmentLen(record) == TotalLen(record) == |m.body|
            && MessageSeq(record) == m.messageSeq && record[HEADERS..] == m.body
            && Step(a, record, capacity, memory) == (Idle, Passed)
  {
    var h := WholeHeaders(first);
    var record := h + m.body;
    assert h[11..13] == U16(HANDSHAKE_HEADER + |m.body|);
    assert h[13..19] == first[13..19];
    assert h[22..25] == U24(|m.body|);
    assert record[11] == h[11..13][0] && record[12] == h[11..13][1];
    assert record[13] == first[13..19][0] == first[13];
    assert record[14] == first[14] && record[15] == first[15] && record[16] == first[16];
    assert record[17] == first[17] && record[18] == first[18];
    assert record[22] == U24(|m.body|)[0] && record[23] == U24(|m.body|)[1] && record[24] == U24(|m.body|)[2];
  }

  // ---------------------------------------------------------------- one message after another

  /** The reassembler is not at work on a message of that number and length. */
  ghost predicate Unrelated(a: Assembly, m: Message) {
    a.Assembling? ==> a.messageSeq != m.messageSeq || |a.cells| != |m.body|
  }

  /** Every ClientHello of the run has another message number or another length. */
  ghost predicate OtherMessages(ps: seq<seq<byte>>, m: Message) {
    forall i | 0 <= i < |ps| && IsClientHello(ps[i]) :: MessageSeq(ps[i]) != m.messageSeq || TotalLen(ps[i]) != |m.body|
  }

  lemma {:induction false} OthersLeaveUnrelated(ps: seq<seq<byte>>, m: Message, capacity: nat)
    requires OtherMessages(ps, m)
    ensures Unrelated(Run(ps, capacity), m)
    decreases |ps|
  {
    if ps != [] {
      var before, p := ps[..|ps| - 1], ps[|ps| - 1];
      assert forall i | 0 <= i < |before| :: before[i] == ps[i];
      OthersLeaveUnrelated(before, m, capacity);
    }
  }

  /** A fragment of a message that is not in progress starts over. */
  lemma StartsOver(a: Assembly, p: seq<byte>, m: Message, capacity: nat, memory: bool)
    requires Unrelated(a, m) && IsFragmentOf(p, m)
    ensures Step(a, p, capacity, memory) == Step(Idle, p, capacity, memory)
  {
  }

  lemma {:induction false} RunForgets(hs: seq<seq<byte>>, ps: seq<seq<byte>>, m: Message, capacity: nat)
    requires OtherMessages(hs, m) && Consistent(ps, m)
    ensures FirstFragment(ps).None? ==> Run(hs + ps, capacity) == Run(hs, capacity) && Run(ps, capacity) == Idle
    ensures FirstFragment(ps).Some? ==> Run(hs + ps, capacity) == Run(ps, capacity)
    decreases |ps|
  {
    hide Step, IsClientHello, IsFragmentOf;
    if ps == [] {
      assert hs + ps == hs;
    } else {
      var before, p := ps[..|ps| - 1], ps[|ps| - 1];
      assert ps == before + [p] && (hs + ps)[..|hs + ps| - 1] == hs + before;
      assert Consistent(before, m) by { assert forall i | 0 <= i < |before| :: before[i] == ps[i]; }
      RunForgets(hs, before, m, capacity);
      FirstFragmentExtends(before, p);
      OneMoreForgets(hs, before, p, m, capacity);
    }
  }

  /** The next datagram is answered as if the other messages had not been. */
  lemma OneMoreForgets(hs: seq<seq<byte>>, ps: seq<seq<byte>>, p: seq<byte>, m: Message, capacity: nat)
    requires OtherMessages(hs, m) && (IsFragmentOf(p, m) || !IsClientHello(p))
    requires FirstFragment(ps).None? ==> Run(hs + ps, capacity) == Run(hs, capacity) && Run(ps, capacity) == Idle
    requires FirstFragment(ps).Some? ==> Run(hs + ps, capacity) == Run(ps, capacity)
    ensures IsClientHello(p) ==> Step(Run(hs + ps, capacity), p, capacity, true) == Step(Run(ps, capacity), p, capacity, true)
    ensures !IsClientHello(p) ==> forall a :: Step(a, p, capacity, true) == (a, Passed)
  {
    if IsClientHello(p) && FirstFragment(ps).None? {
      hide Step, IsClientHello, Run;
      OthersLeaveUnrelated(hs, m, capacity);
      StartsOver(Run(hs, capacity), p, m, capacity, true);
    }
  }

  /** Reassembly after any other messages, abandoned half-way or not: fragments of a message with
      another number or another length leave no trace in the record of this one. */
  lemma NextMessage(hs: seq<seq<byte>>, ps: seq<seq<byte>>, p: seq<byte>, m: Message, capacity: nat)
    requires OtherMessages(hs, m) && Consistent(ps + [p], m) && !Complete(ps, m)
    requires |m.body| <= CLIENT_HELLO_MAX && HEADERS + |m.body| <= capacity
    ensures var r := Step(Run(hs + ps, capacity), p, capacity, true);
            if !IsClientHello(p) then r == (Run(hs + ps, capacity), Passed)
            else if Complete(ps + [p], m) then r.0 == Idle && IsWholeRecord(r.1, ps + [p], m)
            else r.1 == WantRead
  {
    hide Step, Run, IsClientHello, IsFragmentOf, IsWholeRecord, Complete, FirstFragment, OtherMessages;
    assert Consistent(ps, m) && (IsFragmentOf(p, m) || !IsClientHello(p)) by {
      assert (ps + [p])[|ps|] == p && forall i | 0 <= i < |ps| :: (ps + [p])[i] == ps[i];
    }
    Reassembly(ps, p, m, capacity);
    RunForgets(hs, ps, m, capacity);
    OneMoreForgets(hs, ps, p, m, capacity);
  }
}
