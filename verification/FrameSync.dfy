/** The row bookkeeping of the triple-buffered display, as a state machine on values.
    A frame is a sequence of rows and a row its bytes; nothing depends on the pixel format.
    `Display.Instance` runs these steps in place. */
module FrameSync {
  import opened Options
  import opened Bytes

  const BUFFER_COUNT := 3

  /** A row interval together with its validity flag (dirty_rows_valid, dirty_y1, dirty_y2). */
  datatype RowSpan = RowSpan(valid: bool, y1: int, y2: int) {
    predicate Has(r: int) {
      valid && y1 <= r <= y2
    }

    predicate Fits(height: nat) {
      valid ==> 0 <= y1 <= y2 < height
    }
  }

  const NO_ROWS := RowSpan(false, 0, 0)

  type Row = seq<byte>

  datatype Buffer = Buffer(rows: seq<Row>, sync: RowSpan)

  /** `last` is the buffer most recently handed to the video output; `draw` is the one LVGL
      renders into. */
  datatype State = State(buffers: seq<Buffer>, last: Option<nat>, dirty: RowSpan, draw: nat)

  function Min(a: int, b: int): int { if a < b then a else b }

  function Max(a: int, b: int): int { if a < b then b else a }

  // ---------------------------------------------------------------- the steps of the port

  function Widen(span: RowSpan, y1: int, y2: int): RowSpan {
    if span.valid then RowSpan(true, Min(span.y1, y1), Max(span.y2, y2)) else RowSpan(true, y1, y2)
  }

  function MarkDirty(dirty: RowSpan, y1: int, y2: int, height: nat): RowSpan {
    var lo := Max(y1, 0);
    var hi := Min(y2, height - 1);
    if lo > hi then dirty else Widen(dirty, lo, hi)
  }

  /** The first buffer other than `last` that the video output has released, or, when none is
      free, the one the port blocks on. */
  function Pick(free: seq<bool>, last: Option<nat>, i: nat := 0): nat
    decreases |free| - i
  {
    if i >= |free| then (if last == Some(0) then 1 else 0)
    else if last != Some(i) && free[i] then i
    else Pick(free, last, i + 1)
  }

  /** What the choice of a draw buffer must satisfy: a buffer on offer, if there is one, and the first
      of them; otherwise the one that will be released next. */
  predicate Offered(free: seq<bool>, last: Option<nat>, i: nat) {
    i < |free| && free[i] && last != Some(i)
  }

  ghost predicate RightChoice(free: seq<bool>, last: Option<nat>, i: nat) {
    if exists k: nat :: Offered(free, last, k) then
      Offered(free, last, i) && forall k: nat | k < i :: !Offered(free, last, k)
    else i == if last == Some(0) then 1 else 0
  }

  function CopyRows(dest: seq<Row>, src: seq<Row>, span: RowSpan): (r: seq<Row>)
    requires |dest| == |src|
    ensures |r| == |dest|
    ensures forall k :: 0 <= k < |r| ==> r[k] == if span.Has(k) then src[k] else dest[k]
  {
    seq(|dest|, k requires 0 <= k < |dest| => if span.Has(k) then src[k] else dest[k])
  }

  function PaintRows(rows: seq<Row>, y1: int, y2: int, paint: (int, Row) -> Row): (r: seq<Row>)
    ensures |r| == |rows|
    ensures forall k :: 0 <= k < |r| ==> r[k] == if y1 <= k <= y2 then paint(k, rows[k]) else rows[k]
  {
    seq(|rows|, k requires 0 <= k < |rows| => if y1 <= k <= y2 then paint(k, rows[k]) else rows[k])
  }

  /** The shape every reachable state has. */
  predicate Shaped(s: State, height: nat) {
    && |s.buffers| == BUFFER_COUNT
    && s.draw < BUFFER_COUNT
    && (s.last.Some? ==> s.last.value < BUFFER_COUNT)
    && s.dirty.Fits(height)
    && (forall i | 0 <= i < BUFFER_COUNT :: |s.buffers[i].rows| == height && s.buffers[i].sync.Fits(height))
    && (s.last.None? ==> forall i | 0 <= i < BUFFER_COUNT :: !s.buffers[i].sync.valid)
  }

  function Blank(height: nat, blank: Row): seq<Row> {
    seq(height, _ => blank)
  }

  /** The state a successful reconfiguration leaves: zeroed buffers, nothing out of date. */
  function Fresh(height: nat, blank: Row): (s: State)
    ensures Shaped(s, height)
  {
    State(seq(BUFFER_COUNT, _ => Buffer(Blank(height, blank), NO_ROWS)), None, NO_ROWS, 0)
  }

  /** LV_EVENT_RENDER_START: choose a buffer and repair its stale rows from the last frame. */
  function RenderStart(s: State, height: nat, free: seq<bool>): (s': State)
    requires Shaped(s, height) && |free| == BUFFER_COUNT
    ensures Shaped(s', height)
  {
    PickInRange(free, s.last, 0);
    var next := Pick(free, s.last);
    var b := s.buffers[next];
    if b.sync.valid && s.last.Some? then
      var repaired := Buffer(CopyRows(b.rows, s.buffers[s.last.value].rows, b.sync), b.sync.(valid := false));
      s.(buffers := s.buffers[next := repaired], draw := next)
    else
      s.(draw := next)
  }

  /** LVGL paints an area of the draw buffer: an arbitrary change of the rows of that area. */
  function Paint(s: State, height: nat, y1: int, y2: int, paint: (int, Row) -> Row): (s': State)
    requires Shaped(s, height)
    ensures Shaped(s', height)
  {
    var b := s.buffers[s.draw];
    s.(buffers := s.buffers[s.draw := b.(rows := PaintRows(b.rows, y1, y2, paint))])
  }

  /** flush_cb for the area just painted. */
  function Flush(s: State, height: nat, y1: int, y2: int, isLast: bool, gpuIdle: bool): (s': State)
    requires Shaped(s, height)
    ensures Shaped(s', height)
  {
    var dirty := MarkDirty(s.dirty, y1, y2, height);
    if !isLast || !gpuIdle then s.(dirty := dirty)
    else
      var behind := seq(BUFFER_COUNT, i requires 0 <= i < BUFFER_COUNT => FallBehind(s.buffers[i], i == s.draw, dirty));
      State(behind, Some(s.draw), dirty.(valid := false), s.draw)
  }

  /** A presented frame makes every other buffer out of date on the rows it changed. */
  function FallBehind(b: Buffer, presented: bool, dirty: RowSpan): Buffer {
    if presented || !dirty.valid then b else b.(sync := Widen(b.sync, dirty.y1, dirty.y2))
  }

  lemma PickInRange(free: seq<bool>, last: Option<nat>, i: nat)
    requires |free| == BUFFER_COUNT
    ensures Pick(free, last, i) < BUFFER_COUNT && last != Some(Pick(free, last, i))
    decreases |free| - i
  {
  }

  lemma {:induction false} PickIsRight(free: seq<bool>, last: Option<nat>, i: nat)
    requires forall k: nat | k < i :: !Offered(free, last, k)
    ensures RightChoice(free, last, Pick(free, last, i))
    decreases |free| - i
  {
    if i < |free| && !Offered(free, last, i) { PickIsRight(free, last, i + 1); }
  }

  // ---------------------------------------------------------------- runs

  /** What the environment does. `paint` is what LVGL does to a row of the area, which may
      depend on the row's old content (blending); `free` and `gpuIdle` are the answers of the
      video output and of the GPU. */
  datatype Event =
    | Start(free: seq<bool>)
    | Draw(y1: int, y2: int, paint: (int, Row) -> Row, isLast: bool, gpuIdle: bool)
    | Reconfigured

  /** LVGL brackets the draws of one refresh between a RENDER_START event and the draw it
      flags as last; the colour format only changes between refreshes. */
  predicate Rendering(es: seq<Event>) {
    |es| > 0 && var e := es[|es| - 1]; e.Start? || (e.Draw? && !e.isLast)
  }

  predicate Allowed(es: seq<Event>)
    decreases |es|
  {
    |es| == 0 ||
    var before, e := es[..|es| - 1], es[|es| - 1];
    && Allowed(before)
    && (e.Draw? <==> Rendering(before))
    && (e.Start? ==> |e.free| == BUFFER_COUNT)
  }

  function Step(s: State, height: nat, blank: Row, e: Event): (s': State)
    requires Shaped(s, height) && (e.Start? ==> |e.free| == BUFFER_COUNT)
    ensures Shaped(s', height)
  {
    match e
    case Start(free) => RenderStart(s, height, free)
    case Draw(y1, y2, paint, isLast, gpuIdle) => Flush(Paint(s, height, y1, y2, paint), height, y1, y2, isLast, gpuIdle)
    case Reconfigured => Fresh(height, blank)
  }

  function Run(es: seq<Event>, height: nat, blank: Row): (s: State)
    requires Allowed(es)
    ensures Shaped(s, height)
    decreases |es|
  {
    if |es| == 0 then Fresh(height, blank)
    else Step(Run(es[..|es| - 1], height, blank), height, blank, es[|es| - 1])
  }

  // ---------------------------------------------------------------- the reference: one framebuffer

  /** What a single framebuffer holds: every draw since the last reconfiguration, in order. */
  function Reference(es: seq<Event>, height: nat, blank: Row): (rows: seq<Row>)
    ensures |rows| == height
    decreases |es|
  {
    if |es| == 0 then Blank(height, blank)
    else ReferenceStep(Reference(es[..|es| - 1], height, blank), height, blank, es[|es| - 1])
  }

  function ReferenceStep(rows: seq<Row>, height: nat, blank: Row, e: Event): (rows': seq<Row>)
    requires |rows| == height
    ensures |rows'| == height
  {
    match e
    case Start(_) => rows
    case Draw(y1, y2, paint, _, _) => PaintRows(rows, y1, y2, paint)
    case Reconfigured => Blank(height, blank)
  }

  /** Rows painted so far by the refresh in progress. */
  ghost predicate Touched(es: seq<Event>, r: int)
    decreases |es|
  {
    |es| > 0 &&
    var before, e := es[..|es| - 1], es[|es| - 1];
    e.Draw? && (e.y1 <= r <= e.y2 || (Rendering(before) && Touched(before, r)))
  }

  /** Rows painted by a refresh that was abandoned because the GPU never drained, since the
      last reconfiguration. */
  ghost predicate Lost(es: seq<Event>, r: int)
    decreases |es|
  {
    |es| > 0 &&
    var before, e := es[..|es| - 1], es[|es| - 1];
    && !e.Reconfigured?
    && (Lost(before, r) || (e.Draw? && e.isLast && !e.gpuIdle && Touched(es, r)))
  }

  predicate Presents(e: Event) {
    e.Draw? && e.isLast && e.gpuIdle
  }

  // ---------------------------------------------------------------- the invariants

  /** Row r of the last presented frame; before the first one, every buffer starts blank. */
  function Base(s: State, height: nat, blank: Row, r: nat): Row
    requires Shaped(s, height) && r < height
  {
    if s.last.Some? then s.buffers[s.last.value].rows[r] else blank
  }

  /** While a refresh is in progress, LVGL draws into a repaired buffer that is not on screen. */
  predicate DrawBufferReady(s: State) {
    s.draw < |s.buffers| && s.last != Some(s.draw) && !s.buffers[s.draw].sync.valid
  }

  /** Any row where a buffer differs from the last presented one is in that buffer's sync
      interval or in the pending dirty interval. */
  ghost predicate StaleRowsKnown(s: State, height: nat, blank: Row) {
    && Shaped(s, height)
    && (forall i, r | 0 <= i < BUFFER_COUNT && 0 <= r < height ::
          s.buffers[i].rows[r] == Base(s, height, blank, r) || s.buffers[i].sync.Has(r) || s.dirty.Has(r))
  }

  /** On rows no abandoned refresh touched: the last presented frame is the reference frame up
      to the rows the current refresh painted, a buffer differs from it only where its sync
      interval says so, and the draw buffer of a refresh in progress is the reference frame. */
  ghost predicate Tracks(es: seq<Event>, s: State, height: nat, blank: Row) {
    var frame := Reference(es, height, blank);
    var rendering := Rendering(es);
    && Shaped(s, height)
    && (rendering ==> DrawBufferReady(s))
    && (forall r | 0 <= r < height && rendering && Touched(es, r) :: s.dirty.Has(r))
    && (forall r | 0 <= r < height && !Lost(es, r) && !(rendering && Touched(es, r)) ::
          Base(s, height, blank, r) == frame[r])
    && (forall r | 0 <= r < height && !Lost(es, r) && rendering :: s.buffers[s.draw].rows[r] == frame[r])
    && (forall i, r | 0 <= i < BUFFER_COUNT && 0 <= r < height && !Lost(es, r) && !(rendering && i == s.draw) ::
          s.buffers[i].rows[r] == Base(s, height, blank, r) || s.buffers[i].sync.Has(r))
  }

  lemma StartKeepsStale(s: State, height: nat, blank: Row, free: seq<bool>)
    requires StaleRowsKnown(s, height, blank) && |free| == BUFFER_COUNT
    ensures StaleRowsKnown(RenderStart(s, height, free), height, blank)
    ensures DrawBufferReady(RenderStart(s, height, free))
  {
    PickInRange(free, s.last, 0);
    var s' := RenderStart(s, height, free);
    forall i, r | 0 <= i < BUFFER_COUNT && 0 <= r < height
      ensures s'.buffers[i].rows[r] == Base(s', height, blank, r) || s'.buffers[i].sync.Has(r) || s'.dirty.Has(r)
    {
      assert s.buffers[i].rows[r] == Base(s, height, blank, r) || s.buffers[i].sync.Has(r) || s.dirty.Has(r);
    }
  }

  lemma DrawKeepsStale(s: State, height: nat, blank: Row, e: Event)
    requires StaleRowsKnown(s, height, blank) && e.Draw?
    requires DrawBufferReady(s)
    ensures StaleRowsKnown(Flush(Paint(s, height, e.y1, e.y2, e.paint), height, e.y1, e.y2, e.isLast, e.gpuIdle), height, blank)
  {
    var p := Paint(s, height, e.y1, e.y2, e.paint);
    var s' := Flush(p, height, e.y1, e.y2, e.isLast, e.gpuIdle);
    var dirty := MarkDirty(s.dirty, e.y1, e.y2, height);
    forall i, r | 0 <= i < BUFFER_COUNT && 0 <= r < height
      ensures s'.buffers[i].rows[r] == Base(s', height, blank, r) || s'.buffers[i].sync.Has(r) || s'.dirty.Has(r)
    {
      assert s.buffers[i].rows[r] == Base(s, height, blank, r) || s.buffers[i].sync.Has(r) || s.dirty.Has(r);
      assert s.buffers[s.draw].rows[r] == Base(s, height, blank, r) || s.buffers[s.draw].sync.Has(r) || s.dirty.Has(r);
    }
  }

  /** Staleness over all runs, abandoned refreshes included. */
  lemma {:induction false} StalenessInvariant(es: seq<Event>, height: nat, blank: Row)
    requires Allowed(es)
    ensures StaleRowsKnown(Run(es, height, blank), height, blank)
    ensures Rendering(es) ==> DrawBufferReady(Run(es, height, blank))
    decreases |es|
  {
    if |es| > 0 {
      var before, e := es[..|es| - 1], es[|es| - 1];
      StalenessInvariant(before, height, blank);
      var s := Run(before, height, blank);
      match e
      case Start(free) => StartKeepsStale(s, height, blank, free);
      case Draw(_, _, _, _, _) => DrawKeepsStale(s, height, blank, e);
      case Reconfigured =>
    }
  }

  // ---------------------------------------------------------------- refinement of one framebuffer

  lemma StartKeepsTrack(es: seq<Event>, s: State, height: nat, blank: Row, e: Event)
    requires Allowed(es + [e]) && e.Start? && Tracks(es, s, height, blank)
    ensures Tracks(es + [e], RenderStart(s, height, e.free), height, blank)
  {
    assert (es + [e])[..|es|] == es;
    PickInRange(e.free, s.last, 0);
    var s' := RenderStart(s, height, e.free);
    forall i, r | 0 <= i < BUFFER_COUNT && 0 <= r < height && !Lost(es, r)
      ensures s'.buffers[i].rows[r] == Base(s', height, blank, r) || (i != s'.draw && s'.buffers[i].sync.Has(r))
    {
      assert s.buffers[i].rows[r] == Base(s, height, blank, r) || s.buffers[i].sync.Has(r);
    }
  }

  /** A painted row is marked dirty, and so is every row the refresh painted before it. */
  lemma TouchedIsDirty(es: seq<Event>, s: State, height: nat, blank: Row, e: Event, r: nat)
    requires Allowed(es + [e]) && e.Draw? && Tracks(es, s, height, blank)
    requires r < height && Touched(es + [e], r)
    ensures MarkDirty(s.dirty, e.y1, e.y2, height).Has(r)
  {
    assert (es + [e])[..|es|] == es;
    if !(e.y1 <= r <= e.y2) { assert s.dirty.Has(r); }
  }

  lemma DrawKeepsTrack(es: seq<Event>, s: State, height: nat, blank: Row, e: Event)
    requires Allowed(es + [e]) && e.Draw? && Tracks(es, s, height, blank)
    ensures Tracks(es + [e], Step(s, height, blank, e), height, blank)
  {
    var es' := es + [e];
    assert es'[..|es|] == es;
    forall r | 0 <= r < height && Touched(es', r)
      ensures MarkDirty(s.dirty, e.y1, e.y2, height).Has(r)
    {
      TouchedIsDirty(es, s, height, blank, e, r);
    }
    if Presents(e) {
      PresentKeepsTrack(es, s, height, blank, e);
    } else {
      HoldKeepsTrack(es, s, height, blank, e);
    }
  }

  lemma HoldKeepsTrack(es: seq<Event>, s: State, height: nat, blank: Row, e: Event)
    requires Allowed(es + [e]) && e.Draw? && !Presents(e) && Tracks(es, s, height, blank)
    requires forall r | 0 <= r < height && Touched(es + [e], r) :: MarkDirty(s.dirty, e.y1, e.y2, height).Has(r)
    ensures Tracks(es + [e], Step(s, height, blank, e), height, blank)
  {
    assert (es + [e])[..|es|] == es;
  }

  lemma PresentKeepsTrack(es: seq<Event>, s: State, height: nat, blank: Row, e: Event)
    requires Allowed(es + [e]) && Presents(e) && Tracks(es, s, height, blank)
    requires forall r | 0 <= r < height && Touched(es + [e], r) :: MarkDirty(s.dirty, e.y1, e.y2, height).Has(r)
    ensures Tracks(es + [e], Step(s, height, blank, e), height, blank)
  {
    var es' := es + [e];
    assert es'[..|es|] == es;
    var s' := Step(s, height, blank, e);
    forall i, r | 0 <= i < BUFFER_COUNT && 0 <= r < height && !Lost(es', r)
      ensures s'.buffers[i].rows[r] == Base(s', height, blank, r) || s'.buffers[i].sync.Has(r)
    {
      if i != s.draw {
        assert s.buffers[i].rows[r] == Base(s, height, blank, r) || s.buffers[i].sync.Has(r);
      }
    }
  }

  lemma {:induction false} RunTracksReference(es: seq<Event>, height: nat, blank: Row)
    requires Allowed(es)
    ensures Tracks(es, Run(es, height, blank), height, blank)
    decreases |es|
  {
    if |es| > 0 {
      var before, e := es[..|es| - 1], es[|es| - 1];
      assert before + [e] == es;
      RunTracksReference(before, height, blank);
      var s := Run(before, height, blank);
      match e
      case Start(_) => StartKeepsTrack(before, s, height, blank, e);
      case Draw(_, _, _, _, _) => DrawKeepsTrack(before, s, height, blank, e);
      case Reconfigured =>
    }
  }

  /** Every presented frame, in every run: it is the reference frame except on rows that an
      abandoned refresh painted. */
  lemma UnlostRows(es: seq<Event>, height: nat, blank: Row)
    requires |es| > 0 && Allowed(es) && Presents(es[|es| - 1])
    ensures var s := Run(es, height, blank);
            s.last.Some? && forall r | 0 <= r < height && !Lost(es, r) ::
              s.buffers[s.last.value].rows[r] == Reference(es, height, blank)[r]
  {
    RunTracksReference(es, height, blank);
    var s := Run(es, height, blank);
    forall r | 0 <= r < height && !Lost(es, r)
      ensures s.buffers[s.last.value].rows[r] == Reference(es, height, blank)[r]
    {
      assert Base(s, height, blank, r) == Reference(es, height, blank)[r];
    }
  }

  predicate GpuAlwaysDrains(es: seq<Event>) {
    forall i | 0 <= i < |es| :: es[i].Draw? && es[i].isLast ==> es[i].gpuIdle
  }

  lemma {:induction false} NothingLost(es: seq<Event>, r: int)
    requires GpuAlwaysDrains(es)
    ensures !Lost(es, r)
    decreases |es|
  {
    if |es| > 0 {
      NothingLost(es[..|es| - 1], r);
    }
  }

  /** The lazily synchronised buffers refine one framebuffer: whichever free buffers the video
      output offers, each presented frame holds all draws since the last reconfiguration. */
  lemma FrameRefinement(es: seq<Event>, height: nat, blank: Row)
    requires |es| > 0 && Allowed(es) && Presents(es[|es| - 1]) && GpuAlwaysDrains(es)
    ensures var s := Run(es, height, blank);
            s.last.Some? && s.buffers[s.last.value].rows == Reference(es, height, blank)
  {
    UnlostRows(es, height, blank);
    forall r | 0 <= r < height ensures !Lost(es, r) { NothingLost(es, r); }
  }

  /** Without the GPU assumption the refinement may fail: a refresh abandoned in buffer 0 is
      missing from the next frame when the video output then only offers buffer 1. */
  lemma AbandonedRefreshIsMissing() returns (es: seq<Event>)
    ensures |es| > 0 && Allowed(es) && Presents(es[|es| - 1])
    ensures Run(es, 2, []).last.Some?
    ensures Run(es, 2, []).buffers[Run(es, 2, []).last.value].rows != Reference(es, 2, [])
  {
    var none: seq<Event> := [];
    var es1 := Extend(none, Start([true, true, true]), 2, []);
    var es2 := Extend(es1, Draw(0, 0, (r: int, row: Row) => [7], true, false), 2, []);
    var es3 := Extend(es2, Start([false, true, true]), 2, []);
    assert Run(es3, 2, []).draw == 1;
    es := Extend(es3, Draw(1, 1, (r: int, row: Row) => [7], true, true), 2, []);
    assert Run(es, 2, []).buffers[1].rows[0] == [];
  }

  lemma Extend(es: seq<Event>, e: Event, height: nat, blank: Row) returns (es': seq<Event>)
    requires Allowed(es) && (e.Draw? <==> Rendering(es)) && (e.Start? ==> |e.free| == BUFFER_COUNT)
    ensures es' == es + [e] && Allowed(es')
    ensures Run(es', height, blank) == Step(Run(es, height, blank), height, blank, e)
    ensures Reference(es', height, blank) == ReferenceStep(Reference(es, height, blank), height, blank, e)
  {
    es' := es + [e];
    assert es'[..|es|] == es;
  }
}
