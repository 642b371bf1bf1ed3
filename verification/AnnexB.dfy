/** The Annex B byte stream: what separates NAL units, and the splitter of the RTP encoders. */
module AnnexB {
  import opened Bytes

  predicate StartCodeAt(buf: seq<byte>, i: int) {
    0 <= i && i + 3 <= |buf| && buf[i] == 0 && buf[i + 1] == 0 && buf[i + 2] == 1
  }

  /** The index just after the first start code at or after `i`, or the end of the buffer. */
  function AfterStartCode(buf: seq<byte>, i: nat): (r: nat)
    requires i <= |buf|
    ensures i <= r <= |buf| && (i < |buf| ==> i < r)
    decreases |buf| - i
  {
    if i + 3 > |buf| then |buf|
    else if StartCodeAt(buf, i) then i + 3
    else AfterStartCode(buf, i + 1)
  }

  function TrimZeros(s: seq<byte>): seq<byte> {
    if s != [] && s[|s| - 1] == 0 then TrimZeros(s[..|s| - 1]) else s
  }

  /** The units the encoder sends, from a position just after a start code on. A unit that
      reaches the end of the buffer keeps its last byte; one followed by another start code
      loses that code's 01, and then its zeros. */
  function UnitsFrom(buf: seq<byte>, i: nat): seq<seq<byte>>
    requires i <= |buf|
    decreases |buf| - i
  {
    if i >= |buf| then [] else
    var end := AfterStartCode(buf, i);
    var unit := TrimZeros(buf[i..if end != |buf| then end - 1 else end]);
    (if unit == [] then [] else [unit]) + UnitsFrom(buf, end)
  }

  function Split(buf: seq<byte>): seq<seq<byte>> {
    UnitsFrom(buf, AfterStartCode(buf, 0))
  }

  method FindNalu(buf: seq<byte>, start: nat) returns (r: nat)
    requires start <= |buf|
    ensures r == AfterStartCode(buf, start)
  {
    if |buf| - start < 3 { return |buf|; }
    var p := start + 2;
    while p < |buf|
      invariant start + 2 <= p <= |buf|
      invariant AfterStartCode(buf, start) == AfterStartCode(buf, p - 2)
    {
      if buf[p - 2] == 0 && buf[p - 1] == 0 && buf[p] == 1 { return p + 1; }
      p := p + 1;
    }
    r := |buf|;
  }

  /** The length of a unit once its trailing zeros are dropped. */
  method TrimmedSize(unit: seq<byte>) returns (size: nat)
    ensures size <= |unit| && unit[..size] == TrimZeros(unit)
  {
    size := |unit|;
    assert unit[..size] == unit;
    while size > 0 && unit[size - 1] == 0
      invariant size <= |unit|
      invariant TrimZeros(unit[..size]) == TrimZeros(unit)
    {
      assert unit[..size][..size - 1] == unit[..size - 1];
      size := size - 1;
    }
  }

  // ---------------------------------------------------------------- splitting undoes joining

  /** A NAL unit that can stand in a byte stream: not empty, no start code inside, and no
      trailing zero. */
  ghost predicate Clean(unit: seq<byte>) {
    |unit| > 0 && unit[|unit| - 1] != 0 && forall i :: !StartCodeAt(unit, i)
  }

  ghost predicate AllClean(units: seq<seq<byte>>) {
    forall k | 0 <= k < |units| :: Clean(units[k])
  }

  /** Units joined by start codes: before each, at least two zeros and a 01; zeros at the end. */
  function Stream(units: seq<seq<byte>>, gaps: seq<nat>, tail: nat): seq<byte>
    requires |gaps| == |units|
  {
    if units == [] then Zeros(tail)
    else Zeros(2 + gaps[0]) + [1] + units[0] + Stream(units[1..], gaps[1..], tail)
  }

  /** If the first start code at or after `i` begins at `j`, it is found. */
  lemma {:induction false} FirstStartCode(buf: seq<byte>, i: nat, j: nat)
    requires i <= j && StartCodeAt(buf, j)
    requires forall k | i <= k < j :: !StartCodeAt(buf, k)
    ensures AfterStartCode(buf, i) == j + 3
    decreases j - i
  {
    if i < j { FirstStartCode(buf, i + 1, j); }
  }

  lemma {:induction false} NoStartCode(buf: seq<byte>, i: nat)
    requires i <= |buf| && forall k | i <= k :: !StartCodeAt(buf, k)
    ensures AfterStartCode(buf, i) == |buf|
    decreases |buf| - i
  {
    if i < |buf| { NoStartCode(buf, i + 1); }
  }

  lemma {:induction false} TrimUnit(unit: seq<byte>, n: nat)
    requires unit == [] || unit[|unit| - 1] != 0
    ensures TrimZeros(unit + Zeros(n)) == unit
    decreases n
  {
    if n == 0 {
      assert unit + Zeros(0) == unit;
    } else {
      var s := unit + Zeros(n);
      assert s[..|s| - 1] == unit + Zeros(n - 1);
      TrimUnit(unit, n - 1);
    }
  }

  /** No start code begins inside a clean unit that zeros follow. */
  lemma {:induction false} NoCodeInUnit(buf: seq<byte>, i: nat, unit: seq<byte>, zeros: nat, k: nat)
    requires Clean(unit) && i + |unit| + zeros <= |buf|
    requires buf[i..i + |unit|] == unit
    requires forall z | i + |unit| <= z < i + |unit| + zeros :: buf[z] == 0
    requires i <= k && k + 3 <= i + |unit| + zeros
    ensures !StartCodeAt(buf, k)
  {
    if StartCodeAt(buf, k) {
      assert buf[i + |unit| - 1] == unit[|unit| - 1];
      assert k + 2 < i + |unit|;
      assert buf[k] == unit[k - i] && buf[k + 1] == unit[k - i + 1] && buf[k + 2] == unit[k - i + 2];
      assert StartCodeAt(unit, k - i);
    }
  }

  lemma {:induction false} LastBoundary(buf: seq<byte>, i: nat, unit: seq<byte>, tail: nat)
    requires Clean(unit) && i <= |buf| && buf[i..] == unit + Zeros(tail)
    ensures i < |buf| && AfterStartCode(buf, i) == |buf| && TrimZeros(buf[i..|buf|]) == unit
  {
    assert |buf| == i + |unit| + tail;
    assert buf[i..i + |unit|] == buf[i..][..|unit|] == unit;
    forall z | i + |unit| <= z < |buf| ensures buf[z] == 0 { assert buf[z] == buf[i..][z - i]; }
    forall k | i <= k ensures !StartCodeAt(buf, k) {
      if k + 3 <= |buf| { NoCodeInUnit(buf, i, unit, tail, k); }
    }
    NoStartCode(buf, i);
    assert buf[i..|buf|] == unit + Zeros(tail);
    TrimUnit(unit, tail);
  }

  lemma {:induction false} NextBoundary(buf: seq<byte>, i: nat, unit: seq<byte>, gap: nat)
    requires Clean(unit) && i + |unit| + 2 + gap + 1 < |buf|
    requires buf[i..i + |unit| + 2 + gap] == unit + Zeros(2 + gap) && buf[i + |unit| + 2 + gap] == 1
    ensures AfterStartCode(buf, i) == i + |unit| + 2 + gap + 1
    ensures TrimZeros(buf[i..i + |unit| + 2 + gap]) == unit
  {
    var j := i + |unit| + gap;
    var piece := buf[i..j + 2];
    assert buf[i..i + |unit|] == piece[..|unit|] == unit;
    forall z | i + |unit| <= z < j + 2 ensures buf[z] == 0 { assert buf[z] == piece[z - i]; }
    forall k | i <= k < j ensures !StartCodeAt(buf, k) {
      NoCodeInUnit(buf, i, unit, 2 + gap, k);
    }
    FirstStartCode(buf, i, j);
    TrimUnit(unit, 2 + gap);
  }

  lemma {:induction false} LastUnit(buf: seq<byte>, i: nat, unit: seq<byte>)
    requires i < |buf| && unit != [] && AfterStartCode(buf, i) == |buf| && TrimZeros(buf[i..|buf|]) == unit
    ensures UnitsFrom(buf, i) == [unit]
  {
  }

  lemma {:induction false} NextUnit(buf: seq<byte>, i: nat, end: nat, unit: seq<byte>)
    requires i < end < |buf| && unit != [] && AfterStartCode(buf, i) == end && TrimZeros(buf[i..end - 1]) == unit
    ensures UnitsFrom(buf, i) == [unit] + UnitsFrom(buf, end)
  {
    hide TrimZeros, AfterStartCode;
  }

  lemma {:induction false} FirstOfMany(before: seq<byte>, unit: seq<byte>, gap: nat, after: seq<byte>)
    requires Clean(unit) && after != []
    ensures var before' := before + unit + Zeros(2 + gap) + [1];
            && before + (unit + (Zeros(2 + gap) + ([1] + after))) == before' + after
            && UnitsFrom(before' + after, |before|) == [unit] + UnitsFrom(before' + after, |before'|)
  {
    var buf := before + (unit + (Zeros(2 + gap) + ([1] + after)));
    Regroup(before, unit, Zeros(2 + gap), after);
    NextBoundary(buf, |before|, unit, gap);
    NextUnit(buf, |before|, |before| + |unit| + 2 + gap + 1, unit);
  }

  lemma {:induction false} OnlyUnit(before: seq<byte>, unit: seq<byte>, tail: nat)
    requires Clean(unit)
    ensures UnitsFrom(before + (unit + Zeros(tail)), |before|) == [unit]
  {
    var buf := before + (unit + Zeros(tail));
    assert buf[|before|..] == unit + Zeros(tail);
    LastBoundary(buf, |before|, unit, tail);
    LastUnit(buf, |before|, unit);
  }

  /** From just after a start code: the units of the rest of the stream, whatever came before. */
  lemma {:induction false} UnitsOfStream(before: seq<byte>, unit: seq<byte>, rest: seq<seq<byte>>, gaps: seq<nat>, tail: nat)
    requires |gaps| == |rest| && Clean(unit) && AllClean(rest)
    ensures UnitsFrom(before + (unit + Stream(rest, gaps, tail)), |before|) == [unit] + rest
    decreases |rest|
  {
    if rest == [] {
      OnlyUnit(before, unit, tail);
    } else {
      var after := StreamStep(rest, gaps, tail);
      FirstOfMany(before, unit, gaps[0], after);
      UnitsOfStream(before + unit + Zeros(2 + gaps[0]) + [1], rest[0], rest[1..], gaps[1..], tail);
    }
  }

  lemma {:induction false} StreamStep(units: seq<seq<byte>>, gaps: seq<nat>, tail: nat) returns (after: seq<byte>)
    requires |gaps| == |units| > 0 && AllClean(units)
    ensures Stream(units, gaps, tail) == Zeros(2 + gaps[0]) + ([1] + after) && after != []
    ensures after == units[0] + Stream(units[1..], gaps[1..], tail)
    ensures Clean(units[0]) && AllClean(units[1..]) && units == [units[0]] + units[1..]
  {
    after := units[0] + Stream(units[1..], gaps[1..], tail);
    assert Clean(units[0]);
    assert Zeros(2 + gaps[0]) + [1] + units[0] + Stream(units[1..], gaps[1..], tail) == Zeros(2 + gaps[0]) + ([1] + after);
  }

  lemma Regroup(before: seq<byte>, unit: seq<byte>, zeros: seq<byte>, after: seq<byte>)
    ensures var buf := before + (unit + (zeros + ([1] + after)));
            && buf == before + unit + zeros + [1] + after
            && buf[|before|..|before| + |unit| + |zeros|] == unit + zeros
            && buf[|before| + |unit| + |zeros|] == 1
  {
    var buf := before + (unit + (zeros + ([1] + after)));
    assert buf == before + unit + zeros + [1] + after;
    assert buf[|before|..] == (unit + zeros) + ([1] + after);
  }

  /** Splitting a byte stream gives back exactly its units, in order. */
  lemma {:induction false} SplitStream(units: seq<seq<byte>>, gaps: seq<nat>, tail: nat)
    requires |gaps| == |units| && AllClean(units)
    ensures Split(Stream(units, gaps, tail)) == units
  {
    var buf := Stream(units, gaps, tail);
    if units == [] {
      NoStartCode(buf, 0);
    } else {
      var zeros := 2 + gaps[0];
      var after := StreamStep(units, gaps, tail);
      FirstStartCode(buf, 0, zeros - 2);
      assert buf == (Zeros(zeros) + [1]) + after;
      UnitsOfStream(Zeros(zeros) + [1], units[0], units[1..], gaps[1..], tail);
    }
  }
}
