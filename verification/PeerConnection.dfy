/** The ClientHello reassembler of a peer connection as it runs: an allocated record, a map of
    the bytes received, and their count. */
module PeerConnection {
  import opened Options
  import opened Bytes
  import opened ClientHello

  const WANT_READ := -0x6900
  const DECODE_ERROR := -0x7300
  const BUFFER_TOO_SMALL := -0x6A00
  const ALLOC_FAILED := -0x7F00

  /** The number of cells of the coverage map that are set. */
  function SetCells(map_: seq<byte>): nat {
    if map_ == [] then 0 else SetCells(map_[..|map_| - 1]) + if map_[|map_| - 1] != 0 then 1 else 0
  }

  lemma {:induction false} SetCellsBound(map_: seq<byte>)
    ensures SetCells(map_) <= |map_|
    ensures SetCells(map_) == |map_| <==> forall k | 0 <= k < |map_| :: map_[k] != 0
    decreases |map_|
  {
    if map_ != [] {
      SetCellsBound(map_[..|map_| - 1]);
    }
  }

  lemma {:induction false} SetOneCell(map_: seq<byte>, k: nat)
    requires k < |map_| && map_[k] == 0
    ensures SetCells(map_[k := 1]) == SetCells(map_) + 1
    decreases |map_|
  {
    var last := |map_| - 1;
    if k == last {
      assert map_[k := 1][..last] == map_[..last];
    } else {
      assert map_[k := 1][..last] == map_[..last][k := 1];
      SetOneCell(map_[..last], k);
    }
  }

  lemma {:induction false} NoCells(map_: seq<byte>)
    requires forall k | 0 <= k < |map_| :: map_[k] == 0
    ensures SetCells(map_) == 0
    decreases |map_|
  {
    if map_ != [] { NoCells(map_[..|map_| - 1]); }
  }

  class Reassembler {
    var hello: array?<byte>
    var map_: array?<byte>
    var received: nat
    var messageSeq: int

    /** The count is the number of set cells, and short of the whole between calls. */
    ghost predicate Valid()
      reads this, hello, map_
    {
      && (hello == null <==> map_ == null)
      && (hello != null ==>
            && hello.Length == HEADERS + map_.Length && hello != map_
            && received == SetCells(map_[..]) < map_.Length)
    }

    ghost function Assembly(): Assembly
      requires Valid()
      reads this, hello, map_
    {
      if hello == null || map_ == null then Idle
      else Assembling(messageSeq, hello[..HEADERS], Cells(map_[..], hello[HEADERS..]))
    }

    constructor ()
      ensures Valid() && Assembly() == Idle
    {
      hello, map_, received, messageSeq := null, null, 0, 0;
    }

    method Clear()
      modifies this
      ensures Valid() && Assembly() == Idle && received == 0
    {
      hello, map_, received, messageSeq := null, null, 0, 0;
    }

    /** Starts a record for the message of `p`. */
    method Begin(p: seq<byte>, memory: bool) returns (ok: bool)
      requires |p| >= HEADERS && WellFormed(p)
      modifies this
      ensures Valid() && ok == memory
      ensures !ok ==> Assembly() == Idle
      ensures ok ==> fresh(hello) && fresh(map_) && map_ != null && map_.Length == TotalLen(p)
      ensures ok ==> Assembly() == Assembling(MessageSeq(p), WholeHeaders(p), Empty(TotalLen(p)))
    {
      Clear();
      if !memory { return false; }
      var total := TotalLen(p);
      var record := new byte[HEADERS + total];
      map_ := new byte[total](_ => 0);
      var headers := WholeHeaders(p);
      forall i | 0 <= i < HEADERS { record[i] := headers[i]; }
      hello, messageSeq := record, MessageSeq(p);
      NoCells(map_[..]);
      assert hello[..HEADERS] == headers;
      assert Cells(map_[..], hello[HEADERS..]) == Empty(total);
      ok := true;
    }

    /** Copies a fragment into the record, marking and counting the bytes that are new. */
    method Fill(offset: nat, data: seq<byte>)
      requires hello != null && map_ != null && hello != map_ && hello.Length == HEADERS + map_.Length
      requires offset + |data| <= map_.Length && received == SetCells(map_[..])
      modifies this`received, hello, map_
      ensures received == SetCells(map_[..]) && hello[..HEADERS] == old(hello[..HEADERS])
      ensures Cells(map_[..], hello[HEADERS..]) == Merge(old(Cells(map_[..], hello[HEADERS..])), offset, data)
    {
      for i := 0 to |data|
        invariant received == SetCells(map_[..])
        invariant hello[..HEADERS] == old(hello[..HEADERS])
        invariant Cells(map_[..], hello[HEADERS..]) ==
                  Merge(old(Cells(map_[..], hello[HEADERS..])), offset, data[..i])
      {
        Receive(offset + i, data[i]);
        MergeOne(old(Cells(map_[..], hello[HEADERS..])), offset, data, i);
      }
      assert data[..|data|] == data;
    }

    static lemma MergeOne(cells: seq<Option<byte>>, offset: nat, data: seq<byte>, i: nat)
      requires i < |data| && offset + |data| <= |cells|
      ensures Merge(cells, offset, data[..i + 1]) == Merge(cells, offset, data[..i])[offset + i := Some(data[i])]
    {
    }

    method Receive(at: nat, value: byte)
      requires hello != null && map_ != null && hello != map_ && hello.Length == HEADERS + map_.Length
      requires at < map_.Length && received == SetCells(map_[..])
      modifies this`received, hello, map_
      ensures received == SetCells(map_[..]) && hello[..HEADERS] == old(hello[..HEADERS])
      ensures Cells(map_[..], hello[HEADERS..]) == old(Cells(map_[..], hello[HEADERS..]))[at := Some(value)]
    {
      ghost var before := map_[..];
      if map_[at] == 0 {
        SetOneCell(before, at);
        map_[at] := 1;
        assert map_[..] == before[at := 1];
        received := received + 1;
      }
      hello[HEADERS + at] := value;
    }

    /** `packet[..len]` is the datagram; a completed record replaces it in place. */
    method Reassemble(packet: array<byte>, len: nat, memory: bool) returns (ret: int)
      requires Valid() && len <= packet.Length && packet != hello && packet != map_
      modifies this, hello, map_, packet
      ensures Valid()
      ensures Assembly() == Step(old(Assembly()), old(packet[..len]), packet.Length, memory).0
      ensures var o := Step(old(Assembly()), old(packet[..len]), packet.Length, memory).1;
              && (o.Passed? ==> ret == len && packet[..] == old(packet[..]))
              && (o.Whole? ==> ret == |o.record| <= packet.Length && packet[..ret] == o.record)
              && (o.WantRead? ==> ret == WANT_READ)
              && (o.DecodeError? ==> ret == DECODE_ERROR)
              && (o.BufferTooSmall? ==> ret == BUFFER_TOO_SMALL)
              && (o.AllocFailed? ==> ret == ALLOC_FAILED)
    {
      var p := packet[..len];
      if len < HEADERS || p[0] != CONTENT_HANDSHAKE { return len; }
      var recordLen := ReadU16(p, 11);
      if recordLen + RECORD_HEADER != len || recordLen < HANDSHAKE_HEADER { return len; }
      if p[13] != CLIENT_HELLO { return len; }
      var total, offset, size := TotalLen(p), FragmentOffset(p), FragmentLen(p);
      if offset == 0 && size == total {
        Clear();
        return len;
      }
      if total == 0 || total > CLIENT_HELLO_MAX || offset > total || size > total - offset ||
         recordLen != HANDSHAKE_HEADER + size {
        Clear();
        return DECODE_ERROR;
      }
      if HEADERS + total > packet.Length {
        Clear();
        return BUFFER_TOO_SMALL;
      }
      if hello == null || hello.Length != HEADERS + total || messageSeq != MessageSeq(p) {
        var ok := Begin(p, memory);
        if !ok { return ALLOC_FAILED; }
      }
      ret := Accept(packet, p);
    }

    method Accept(packet: array<byte>, p: seq<byte>) returns (ret: int)
      requires Valid() && hello != null && packet != hello && packet != map_
      requires |p| >= HEADERS && WellFormed(p) && map_.Length == TotalLen(p) && packet.Length >= HEADERS + TotalLen(p)
      modifies this, hello, map_, packet
      ensures Valid()
      ensures var a := old(Assembly());
              var cells := Merge(a.cells, FragmentOffset(p), p[HEADERS..]);
              if Full(cells) then
                Assembly() == Idle && ret == HEADERS + TotalLen(p) && packet[..ret] == a.headers + Contents(cells)
              else Assembly() == a.(cells := cells) && ret == WANT_READ
    {
      Fill(FragmentOffset(p), p[HEADERS..]);
      SetCellsBound(map_[..]);
      ghost var cells := Cells(map_[..], hello[HEADERS..]);
      assert Full(cells) <==> received == map_.Length;
      if received != map_.Length { return WANT_READ; }
      var n := HEADERS + map_.Length;
      forall i | 0 <= i < n { packet[i] := hello[i]; }
      assert packet[..n] == hello[..HEADERS] + Contents(cells);
      Clear();
      ret := n;
    }
  }

  /** The received bytes of a record body, by its coverage map. */
  ghost function Cells(map_: seq<byte>, body: seq<byte>): (cells: seq<Option<byte>>)
    requires |map_| == |body|
    ensures |cells| == |map_|
    ensures forall k | 0 <= k < |cells| :: cells[k] == if map_[k] != 0 then Some(body[k]) else None
  {
    seq(|map_|, k requires 0 <= k < |map_| => if map_[k] != 0 then Some(body[k]) else None)
  }
}
