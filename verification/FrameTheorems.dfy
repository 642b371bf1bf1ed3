/** Exactly when a presented frame is the reference frame: decided by the schedule of refreshes
    alone, whatever LVGL paints. */
module FrameTheorems {
  import opened Options
  import opened Bytes
  import opened FrameSync

  // ---------------------------------------------------------------- schedules

  /** Two events that differ at most in what is painted. */
  ghost predicate AlikeEvent(e: Event, f: Event) {
    match e
    case Start(free) => f == e
    case Draw(y1, y2, _, isLast, gpuIdle) =>
      f.Draw? && f.y1 == y1 && f.y2 == y2 && f.isLast == isLast && f.gpuIdle == gpuIdle
    case Reconfigured => f.Reconfigured?
  }

  /** Two runs of the same schedule. */
  ghost predicate Alike(es: seq<Event>, fs: seq<Event>) {
    |es| == |fs| && forall k | 0 <= k < |es| :: AlikeEvent(es[k], fs[k])
  }

  /** The bookkeeping of two states: everything but the rows. */
  ghost predicate SameBooks(s: State, t: State) {
    && s.last == t.last && s.dirty == t.dirty && s.draw == t.draw && |s.buffers| == |t.buffers| == BUFFER_COUNT
    && forall i | 0 <= i < BUFFER_COUNT :: s.buffers[i].sync == t.buffers[i].sync
  }

  lemma {:induction false} AlikeBooks(es: seq<Event>, fs: seq<Event>, height: nat, blank: Row)
    requires Allowed(es) && Alike(es, fs)
    ensures Allowed(fs) && (Rendering(es) <==> Rendering(fs))
    ensures SameBooks(Run(es, height, blank), Run(fs, height, blank))
    decreases |es|
  {
    if es != [] {
      AlikeFront(es, fs);
      AlikeBooks(es[..|es| - 1], fs[..|fs| - 1], height, blank);
      assert AlikeEvent(es[|es| - 1], fs[|fs| - 1]);
      AlikeStep(Run(es[..|es| - 1], height, blank), Run(fs[..|fs| - 1], height, blank), height, blank,
                es[|es| - 1], fs[|fs| - 1]);
    }
  }

  lemma AlikeFront(es: seq<Event>, fs: seq<Event>)
    requires es != [] && Alike(es, fs)
    ensures Alike(es[..|es| - 1], fs[..|fs| - 1])
  {
  }

  lemma AlikeStep(s: State, t: State, height: nat, blank: Row, e: Event, f: Event)
    requires Shaped(s, height) && Shaped(t, height) && SameBooks(s, t) && AlikeEvent(e, f)
    requires e.Start? ==> |e.free| == BUFFER_COUNT
    ensures SameBooks(Step(s, height, blank, e), Step(t, height, blank, f))
  {
  }

  // ---------------------------------------------------------------- rows that are current

  /** Row r of buffer i has received every draw since the last reconfiguration: a draw that covers
      it reaches the draw buffer only, and a repair takes the row from the last presented buffer. */
  ghost predicate Current(es: seq<Event>, height: nat, blank: Row, i: nat, r: nat)
    requires Allowed(es) && i < BUFFER_COUNT
    decreases |es|
  {
    es == [] ||
    var before, e := es[..|es| - 1], es[|es| - 1];
    var s := Run(before, height, blank);
    match e
    case Start(free) =>
      if i == Pick(free, s.last) && s.last.Some? && s.buffers[i].sync.Has(r) then
        Current(before, height, blank, s.last.value, r)
      else Current(before, height, blank, i, r)
    case Draw(y1, y2, _, _, _) => (y1 <= r <= y2 ==> i == s.draw) && Current(before, height, blank, i, r)
    case Reconfigured => true
  }

  lemma {:induction false} CurrentAlike(es: seq<Event>, fs: seq<Event>, height: nat, blank: Row, i: nat, r: nat)
    requires Allowed(es) && Allowed(fs) && Alike(es, fs) && i < BUFFER_COUNT
    ensures Current(es, height, blank, i, r) <==> Current(fs, height, blank, i, r)
    decreases |es|
  {
    hide Run, Rendering;
    if es != [] {
      var before, before' := es[..|es| - 1], fs[..|fs| - 1];
      AlikeFront(es, fs);
      AlikeBooks(before, before', height, blank);
      assert AlikeEvent(es[|es| - 1], fs[|fs| - 1]);
      CurrentAlike(before, before', height, blank, i, r);
      var last := Run(before, height, blank).last;
      if last.Some? { CurrentAlike(before, before', height, blank, last.value, r); }
    }
  }

  /** What one event makes of row r of buffer i. */
  function NextRow(s: State, height: nat, blank: Row, e: Event, i: nat, r: nat): Row
    requires Shaped(s, height) && i < BUFFER_COUNT && r < height
  {
    var row := s.buffers[i].rows[r];
    match e
    case Start(free) =>
      if i == Pick(free, s.last) && s.last.Some? && s.buffers[i].sync.Has(r) then s.buffers[s.last.value].rows[r]
      else row
    case Draw(y1, y2, paint, _, _) => if i == s.draw && y1 <= r <= y2 then paint(r, row) else row
    case Reconfigured => blank
  }

  lemma StepRow(s: State, height: nat, blank: Row, e: Event, i: nat, r: nat)
    requires Shaped(s, height) && i < BUFFER_COUNT && r < height && (e.Start? ==> |e.free| == BUFFER_COUNT)
    ensures Step(s, height, blank, e).buffers[i].rows[r] == NextRow(s, height, blank, e, i, r)
  {
  }

  /** A current row is the reference row, whatever was painted. */
  lemma {:induction false} CurrentRow(es: seq<Event>, height: nat, blank: Row, i: nat, r: nat)
    requires Allowed(es) && i < BUFFER_COUNT && r < height && Current(es, height, blank, i, r)
    ensures Run(es, height, blank).buffers[i].rows[r] == Reference(es, height, blank)[r]
    decreases |es|
  {
    hide Step, Pick;
    if es != [] {
      var before, e := es[..|es| - 1], es[|es| - 1];
      var s := Run(before, height, blank);
      StepRow(s, height, blank, e, i, r);
      if e.Start? && i == Pick(e.free, s.last) && s.last.Some? && s.buffers[i].sync.Has(r) {
        CurrentRow(before, height, blank, s.last.value, r);
      } else if !e.Reconfigured? {
        CurrentRow(before, height, blank, i, r);
      }
    }
  }

  // ---------------------------------------------------------------- counting the draws of a row

  /** A paint that leaves a mark on each row. */
  function Mark(r: int, row: Row): Row { row + [0] }

  function Marking(e: Event): Event {
    if e.Draw? then e.(paint := Mark) else e
  }

  /** The schedule with paints that count how often each row was drawn. */
  function Counting(es: seq<Event>): (fs: seq<Event>)
    ensures Alike(es, fs) && forall k | 0 <= k < |fs| && fs[k].Draw? :: fs[k].paint == Mark
  {
    seq(|es|, k requires 0 <= k < |es| => Marking(es[k]))
  }

  /** Then a row that is not current is too short: it has missed a draw. */
  lemma {:induction false} OutdatedRow(es: seq<Event>, height: nat, blank: Row, i: nat, r: nat)
    requires Allowed(es) && i < BUFFER_COUNT && r < height
    requires forall k | 0 <= k < |es| && es[k].Draw? :: es[k].paint == Mark
    requires !Current(es, height, blank, i, r)
    ensures |Run(es, height, blank).buffers[i].rows[r]| < |Reference(es, height, blank)[r]|
    decreases |es|
  {
    hide Step, Pick;
    var before, e := es[..|es| - 1], es[|es| - 1];
    var s := Run(before, height, blank);
    StepRow(s, height, blank, e, i, r);
    if e.Start? && i == Pick(e.free, s.last) && s.last.Some? && s.buffers[i].sync.Has(r) {
      OutdatedRow(before, height, blank, s.last.value, r);
    } else if Current(before, height, blank, i, r) {
      CurrentRow(before, height, blank, i, r);
    } else {
      OutdatedRow(before, height, blank, i, r);
    }
  }

  // ---------------------------------------------------------------- presented frames

  /** Row r of buffer i is the reference row. */
  ghost predicate RowRight(es: seq<Event>, height: nat, blank: Row, i: nat, r: nat)
    requires i < BUFFER_COUNT && r < height
  {
    Allowed(es) && Run(es, height, blank).buffers[i].rows[r] == Reference(es, height, blank)[r]
  }

  /** A row of a buffer is right whatever is painted exactly when it is current. */
  lemma RowExactly(es: seq<Event>, height: nat, blank: Row, i: nat, r: nat)
    requires Allowed(es) && i < BUFFER_COUNT && r < height
    ensures (forall fs | Alike(es, fs) :: RowRight(fs, height, blank, i, r)) <==> Current(es, height, blank, i, r)
  {
    if Current(es, height, blank, i, r) {
      forall fs | Alike(es, fs) ensures RowRight(fs, height, blank, i, r) {
        AlikeBooks(es, fs, height, blank);
        CurrentAlike(es, fs, height, blank, i, r);
        CurrentRow(fs, height, blank, i, r);
      }
    } else {
      var fs := Counting(es);
      AlikeBooks(es, fs, height, blank);
      CurrentAlike(es, fs, height, blank, i, r);
      OutdatedRow(fs, height, blank, i, r);
      assert !RowRight(fs, height, blank, i, r);
    }
  }

  /** The presented frame is the single framebuffer's. */
  ghost predicate FrameRight(es: seq<Event>, height: nat, blank: Row) {
    && Allowed(es) && Run(es, height, blank).last.Some?
    && Run(es, height, blank).buffers[Run(es, height, blank).last.value].rows == Reference(es, height, blank)
  }

  ghost predicate AlwaysRight(es: seq<Event>, height: nat, blank: Row) {
    forall fs | Alike(es, fs) :: FrameRight(fs, height, blank)
  }

  ghost predicate AllCurrent(es: seq<Event>, height: nat, blank: Row, i: nat)
    requires Allowed(es) && i < BUFFER_COUNT
  {
    forall r: nat | r < height :: Current(es, height, blank, i, r)
  }

  /** A schedule presents the reference frame whatever is painted exactly when every row of the
      presented buffer is current. */
  lemma PresentedFrame(es: seq<Event>, height: nat, blank: Row)
    requires es != [] && Allowed(es) && Presents(es[|es| - 1])
    ensures var s := Run(es, height, blank);
            s.last == Some(s.draw) && (AlwaysRight(es, height, blank) <==> AllCurrent(es, height, blank, s.draw))
  {
    hide Allowed, Current;
    var i := Run(es, height, blank).draw;
    if AllCurrent(es, height, blank, i) {
      forall fs | Alike(es, fs) ensures FrameRight(fs, height, blank) {
        RightByRows(es, fs, height, blank, i);
      }
    }
    if AlwaysRight(es, height, blank) {
      forall r: nat | r < height ensures Current(es, height, blank, i, r) {
        forall fs | Alike(es, fs) ensures RowRight(fs, height, blank, i, r) {
          AlikeBooks(es, fs, height, blank);
          assert FrameRight(fs, height, blank);
        }
        RowExactly(es, height, blank, i, r);
      }
    }
  }

  lemma RightByRows(es: seq<Event>, fs: seq<Event>, height: nat, blank: Row, i: nat)
    requires Allowed(es) && Alike(es, fs) && i < BUFFER_COUNT && Run(es, height, blank).last == Some(i)
    requires AllCurrent(es, height, blank, i)
    ensures FrameRight(fs, height, blank)
  {
    hide Current, Reference, Run;
    AlikeBooks(es, fs, height, blank);
    forall r: nat | r < height
      ensures Run(fs, height, blank).buffers[i].rows[r] == Reference(fs, height, blank)[r]
    {
      CurrentAlike(es, fs, height, blank, i, r);
      CurrentRow(fs, height, blank, i, r);
    }
  }

  // ---------------------------------------------------------------- rows no abandoned refresh touched

  lemma {:induction false} LostAlike(es: seq<Event>, fs: seq<Event>, r: int)
    requires Alike(es, fs)
    ensures Touched(es, r) <==> Touched(fs, r)
    ensures Lost(es, r) <==> Lost(fs, r)
    decreases |es|
  {
    if es != [] {
      AlikeFront(es, fs);
      LostAlike(es[..|es| - 1], fs[..|fs| - 1], r);
      assert AlikeEvent(es[|es| - 1], fs[|fs| - 1]);
      if |es| > 1 { assert AlikeEvent(es[|es| - 2], fs[|fs| - 2]); }
    }
  }

  /** A row that no abandoned refresh touched is current in the buffer being drawn, and in the one
      just presented. The converse fails: a later refresh may take up the abandoned buffer again. */
  lemma UnlostIsCurrent(es: seq<Event>, height: nat, blank: Row, r: nat)
    requires es != [] && Allowed(es) && r < height && !Lost(es, r)
    requires Rendering(es) || Presents(es[|es| - 1])
    ensures Current(es, height, blank, Run(es, height, blank).draw, r)
  {
    var i := Run(es, height, blank).draw;
    forall fs | Alike(es, fs) ensures RowRight(fs, height, blank, i, r) {
      AlikeBooks(es, fs, height, blank);
      LostAlike(es, fs, r);
      assert AlikeEvent(es[|es| - 1], fs[|fs| - 1]);
      UnlostDrawRow(fs, height, blank, r);
    }
    RowExactly(es, height, blank, i, r);
  }

  lemma UnlostDrawRow(es: seq<Event>, height: nat, blank: Row, r: nat)
    requires es != [] && Allowed(es) && r < height && !Lost(es, r)
    requires Rendering(es) || Presents(es[|es| - 1])
    ensures RowRight(es, height, blank, Run(es, height, blank).draw, r)
  {
    if Rendering(es) {
      RunTracksReference(es, height, blank);
    } else {
      UnlostRows(es, height, blank);
    }
  }

  // ---------------------------------------------------------------- the refresh after an abandoned one

  predicate AllDraws(ds: seq<Event>) {
    forall k | 0 <= k < |ds| :: ds[k].Draw?
  }

  /** The draws of a refresh change neither the draw buffer nor which of its rows are current. */
  lemma {:induction false} DrawsKeepCurrent(es: seq<Event>, ds: seq<Event>, height: nat, blank: Row)
    requires Allowed(es + ds) && AllDraws(ds)
    ensures Allowed(es) && Run(es + ds, height, blank).draw == Run(es, height, blank).draw
    ensures var i := Run(es, height, blank).draw;
            forall r: nat :: Current(es + ds, height, blank, i, r) <==> Current(es, height, blank, i, r)
    decreases |ds|
  {
    if ds == [] {
      assert es + ds == es;
    } else {
      var front := ds[..|ds| - 1];
      assert (es + ds)[..|es + ds| - 1] == es + front;
      DrawsKeepCurrent(es, front, height, blank);
    }
  }

  /** What a refresh painted is missing from every buffer but its own. */
  lemma {:induction false} TouchedElsewhere(es: seq<Event>, height: nat, blank: Row, i: nat, r: nat)
    requires es != [] && Allowed(es) && Touched(es, r) && i < BUFFER_COUNT && i != Run(es, height, blank).draw
    ensures !Current(es, height, blank, i, r)
    decreases |es|
  {
    var before, e := es[..|es| - 1], es[|es| - 1];
    if !(e.y1 <= r <= e.y2) { TouchedElsewhere(before, height, blank, i, r); }
  }

  /** The last event of a refresh that was given up because the GPU did not drain. */
  predicate Abandons(es: seq<Event>) {
    es != [] && es[|es| - 1].Draw? && es[|es| - 1].isLast && !es[|es| - 1].gpuIdle
  }

  lemma AbandonedState(es: seq<Event>, height: nat, blank: Row)
    requires Allowed(es) && Abandons(es)
    ensures DrawBufferReady(Run(es, height, blank))
  {
    StalenessInvariant(es[..|es| - 1], height, blank);
  }

  /** Choosing the next buffer: the abandoned rows are current again exactly if it is the same one. */
  lemma NextBuffer(es: seq<Event>, height: nat, blank: Row, free: seq<bool>, touched: nat)
    requires Allowed(es) && Abandons(es) && |free| == BUFFER_COUNT
    requires touched < height && Touched(es, touched)
    requires AllCurrent(es, height, blank, Run(es, height, blank).draw)
    ensures var s, next := Run(es, height, blank), es + [Start(free)];
            && Allowed(next) && Run(next, height, blank).draw == Pick(free, s.last) < BUFFER_COUNT
            && (AllCurrent(next, height, blank, Pick(free, s.last)) <==> Pick(free, s.last) == s.draw)
  {
    var s, next := Run(es, height, blank), es + [Start(free)];
    assert next[..|next| - 1] == es;
    PickInRange(free, s.last, 0);
    AbandonedState(es, height, blank);
    var i := Pick(free, s.last);
    if i == s.draw {
      forall r: nat | r < height ensures Current(next, height, blank, i, r) {
        assert Current(es, height, blank, i, r);
      }
    } else {
      TouchedElsewhere(es, height, blank, i, touched);
      if s.last.Some? { TouchedElsewhere(es, height, blank, s.last.value, touched); }
      assert !Current(next, height, blank, i, touched);
    }
  }

  /** After an abandoned refresh that painted some row on screen, the next presented frame is the
      reference frame, whatever is painted, exactly if the next refresh is given the same buffer. */
  lemma AbandonedRefresh(es: seq<Event>, height: nat, blank: Row, free: seq<bool>, ds: seq<Event>, touched: nat)
    requires Abandons(es) && Allowed(es + [Start(free)] + ds)
    requires ds != [] && AllDraws(ds) && Presents(ds[|ds| - 1])
    requires touched < height && Touched(es, touched)
    requires Allowed(es) && AllCurrent(es, height, blank, Run(es, height, blank).draw)
    ensures AlwaysRight(es + [Start(free)] + ds, height, blank)
       <==> Pick(free, Run(es, height, blank).last) == Run(es, height, blank).draw
  {
    hide Current, AlwaysRight, Touched, Pick;
    var next := es + [Start(free)];
    DrawsKeepCurrent(next, ds, height, blank);
    assert next[..|next| - 1] == es;
    NextBuffer(es, height, blank, free, touched);
    PresentedFrame(next + ds, height, blank);
  }

  /** Up to the first abandoned refresh the draw buffer is current, as that requires. */
  lemma CurrentUntilAbandoned(es: seq<Event>, height: nat, blank: Row)
    requires Allowed(es) && Abandons(es) && GpuAlwaysDrains(es[..|es| - 1])
    ensures AllCurrent(es, height, blank, Run(es, height, blank).draw)
  {
    var before := es[..|es| - 1];
    forall r: nat | r < height ensures Current(es, height, blank, Run(es, height, blank).draw, r) {
      NothingLost(before, r);
      UnlostIsCurrent(before, height, blank, r);
    }
  }

  // ---------------------------------------------------------------- drawing into released buffers

  lemma {:induction false} AllowedPrefix(es: seq<Event>, k: nat)
    requires Allowed(es) && k <= |es|
    ensures Allowed(es[..k])
    decreases |es|
  {
    if k < |es| {
      AllowedPrefix(es[..|es| - 1], k);
      assert es[..|es| - 1][..k] == es[..k];
    } else {
      assert es[..k] == es;
    }
  }

  /** Every refresh of a run draws into a buffer that the video output has released, if it offered
      any besides the one on screen: the first of them. It never draws into the one on screen. */
  lemma DrawsIntoReleased(es: seq<Event>, height: nat, blank: Row, k: nat)
    requires Allowed(es) && k < |es| && es[k].Start?
    ensures Allowed(es[..k]) && Allowed(es[..k + 1])
    ensures var last, draw := Run(es[..k], height, blank).last, Run(es[..k + 1], height, blank).draw;
            && draw < BUFFER_COUNT && last != Some(draw) && RightChoice(es[k].free, last, draw)
  {
    AllowedPrefix(es, k);
    AllowedPrefix(es, k + 1);
    var before := es[..k];
    assert es[..k + 1][..k] == before;
    var last := Run(before, height, blank).last;
    PickInRange(es[k].free, last, 0);
    PickIsRight(es[k].free, last, 0);
  }

  // ---------------------------------------------------------------- no more rows than needed

  predicate Covers(e: Event, r: int) { e.Draw? && e.y1 <= r <= e.y2 }

  /** Row r has been drawn since a frame was last presented. */
  ghost predicate Pending(es: seq<Event>, r: int)
    decreases |es|
  {
    es != [] &&
    var before, e := es[..|es| - 1], es[|es| - 1];
    && !e.Reconfigured? && !Presents(e)
    && (Covers(e, r) || Pending(before, r))
  }

  /** The dirty interval is the smallest that holds the pending rows of the screen. */
  lemma {:induction false} DirtyIsTight(es: seq<Event>, height: nat, blank: Row)
    requires Allowed(es)
    ensures var dirty := Run(es, height, blank).dirty;
            && (dirty.valid ==> Pending(es, dirty.y1) && Pending(es, dirty.y2))
            && (forall r | 0 <= r < height && Pending(es, r) :: dirty.Has(r))
    decreases |es|
  {
    if es != [] {
      var before, e := es[..|es| - 1], es[|es| - 1];
      DirtyIsTight(before, height, blank);
    }
  }

  /** Row r was changed on screen since buffer i was repaired or presented, by a frame that had
      it among its pending rows or at the edges of them. */
  ghost predicate Missed(es: seq<Event>, height: nat, blank: Row, i: nat, r: int)
    requires Allowed(es)
    decreases |es|
  {
    es != [] &&
    var before, e := es[..|es| - 1], es[|es| - 1];
    var s := Run(before, height, blank);
    match e
    case Start(free) => Missed(before, height, blank, i, r) && (i == Pick(free, s.last) ==> s.last.None?)
    case Draw(_, _, _, _, _) =>
      || Missed(before, height, blank, i, r)
      || (Presents(e) && i != s.draw && (Covers(e, r) || Pending(before, r)))
    case Reconfigured => false
  }

  lemma StepSync(s: State, height: nat, blank: Row, e: Event, i: nat)
    requires Shaped(s, height) && i < BUFFER_COUNT && (e.Start? ==> |e.free| == BUFFER_COUNT)
    ensures var sync, after := s.buffers[i].sync, Step(s, height, blank, e).buffers[i].sync;
            && (e.Start? ==> after == if i == Pick(e.free, s.last) && s.last.Some? then sync.(valid := false) else sync)
            && (e.Draw? && (!Presents(e) || i == s.draw) ==> after == sync)
            && (Presents(e) && i != s.draw ==>
                  var dirty := MarkDirty(s.dirty, e.y1, e.y2, height);
                  after == if dirty.valid then Widen(sync, dirty.y1, dirty.y2) else sync)
            && (e.Reconfigured? ==> !after.valid)
  {
  }

  /** A sync interval is the smallest that holds the rows of the screen that its buffer has missed. */
  lemma {:induction false} SyncIsTight(es: seq<Event>, height: nat, blank: Row, i: nat)
    requires Allowed(es) && i < BUFFER_COUNT
    ensures var sync := Run(es, height, blank).buffers[i].sync;
            && (sync.valid ==> Missed(es, height, blank, i, sync.y1) && Missed(es, height, blank, i, sync.y2))
            && (forall r | 0 <= r < height && Missed(es, height, blank, i, r) :: sync.Has(r))
    decreases |es|
  {
    if es != [] {
      var before, e := es[..|es| - 1], es[|es| - 1];
      hide Step, Pick;
      SyncIsTight(before, height, blank, i);
      DirtyIsTight(before, height, blank);
      StepSync(Run(before, height, blank), height, blank, e, i);
    }
  }
}
