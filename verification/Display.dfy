/** The display port: its callbacks run the steps of `FrameSync` in place, and
    `Reconfigure` replaces the video buffers as one transaction. */
module Display {
  import opened Options
  import opened FrameSync

  // ---------------------------------------------------------------- resources of the media platform

  datatype Resource = Pool(id: nat) | Block(id: nat) | Mapping(id: nat) | Registration(id: nat)

  /** The memory services of the platform. Every acquisition gets a new token, so a resource
      that is no longer live can never be released again: each release is of a live resource,
      and happens once. Any acquisition may fail. */
  class Platform {
    ghost var live: set<Resource>
    ghost var ever: set<Resource>
    var next: nat

    ghost predicate Valid()
      reads this
    {
      live <= ever && forall r | r in ever :: r.id < next
    }

    method CreatePool(possible: bool) returns (pool: Option<nat>)
      requires Valid()
      modifies this
      ensures Valid()
      ensures pool.Some? <==> possible
      ensures pool.None? ==> live == old(live) && ever == old(ever)
      ensures pool.Some? ==> Acquired(old(live), old(ever), {Pool(pool.value)})
    {
      if !possible { return None; }
      live, ever := live + {Pool(next)}, ever + {Pool(next)};
      pool, next := Some(next), next + 1;
    }

    method GetBlock(possible: bool) returns (block: Option<nat>)
      requires Valid()
      modifies this
      ensures Valid()
      ensures block.Some? <==> possible
      ensures block.None? ==> live == old(live) && ever == old(ever)
      ensures block.Some? ==> Acquired(old(live), old(ever), {Block(block.value)})
    {
      if !possible { return None; }
      live, ever := live + {Block(next)}, ever + {Block(next)};
      block, next := Some(next), next + 1;
    }

    method Map(possible: bool) returns (addr: Option<nat>)
      requires Valid()
      modifies this
      ensures Valid()
      ensures addr.Some? <==> possible
      ensures addr.None? ==> live == old(live) && ever == old(ever)
      ensures addr.Some? ==> Acquired(old(live), old(ever), {Mapping(addr.value)}) && Registration(addr.value) !in ever
    {
      if !possible { return None; }
      live, ever := live + {Mapping(next)}, ever + {Mapping(next)};
      addr, next := Some(next), next + 1;
    }

    method Register(addr: nat)
      requires Valid() && Mapping(addr) in live && Registration(addr) !in ever
      modifies this
      ensures Valid() && Acquired(old(live), old(ever), {Registration(addr)})
    {
      live, ever := live + {Registration(addr)}, ever + {Registration(addr)};
    }

    method Release(r: Resource)
      requires Valid() && r in live
      modifies this
      ensures Valid() && live == old(live) - {r} && ever == old(ever)
    {
      live := live - {r};
    }

    ghost predicate Acquired(live0: set<Resource>, ever0: set<Resource>, rs: set<Resource>)
      reads this
    {
      rs !! ever0 && live == live0 + rs && ever == ever0 + rs
    }
  }

  // ---------------------------------------------------------------- colour formats

  datatype ColorFormat = L8 | AL88 | RGB565 | RGB565A8 | RGB888 | ARGB8888 | XRGB8888 | OtherFormat

  datatype PixelFormat = Mono8 | Rgb565Le | Bgr888 | Argb8888 | Unsupported

  function PixelSize(cf: ColorFormat): nat {
    match cf
    case L8 => 1
    case AL88 | RGB565 => 2
    case RGB888 | RGB565A8 => 3
    case ARGB8888 | XRGB8888 => 4
    case OtherFormat => 0
  }

  function PixelFormatOf(cf: ColorFormat): PixelFormat {
    match cf
    case L8 => Mono8
    case RGB565 => Rgb565Le
    case RGB888 => Bgr888
    case ARGB8888 | XRGB8888 => Argb8888
    case _ => Unsupported
  }

  // ---------------------------------------------------------------- the display instance

  /** The mapped address and the block handle of one buffer. */
  datatype Slot = Slot(addr: Option<nat>, handle: Option<nat>)

  const EMPTY := Slot(None, None)

  ghost function SlotResources(slot: Slot): set<Resource> {
    (if slot.addr.Some? then {Mapping(slot.addr.value), Registration(slot.addr.value)} else {}) +
    (if slot.handle.Some? then {Block(slot.handle.value)} else {})
  }

  /** What the first n of the three buffers hold. */
  ghost function SlotsResources(slots: seq<Slot>, n: nat := BUFFER_COUNT): set<Resource>
    requires n <= |slots| == BUFFER_COUNT
  {
    (if 0 < n then SlotResources(slots[0]) else {}) +
    (if 1 < n then SlotResources(slots[1]) else {}) +
    (if 2 < n then SlotResources(slots[2]) else {})
  }

  ghost function PoolResources(pool: Option<nat>): set<Resource> {
    if pool.Some? then {Pool(pool.value)} else {}
  }

  /** No resource belongs to two buffers, so releasing buffer by buffer releases nothing twice. */
  ghost predicate Separate(slots: seq<Slot>)
    requires |slots| == BUFFER_COUNT
  {
    && SlotResources(slots[0]) !! SlotResources(slots[1])
    && SlotResources(slots[0]) !! SlotResources(slots[2])
    && SlotResources(slots[1]) !! SlotResources(slots[2])
  }

  predicate Complete(slots: seq<Slot>) {
    forall i | 0 <= i < |slots| :: slots[i].addr.Some? && slots[i].handle.Some?
  }

  /** Whether every buffer can get a block and a mapping. */
  predicate AllPossible(block: seq<bool>, map_: seq<bool>)
    requires |block| == |map_|
  {
    forall i | 0 <= i < |block| :: block[i] && map_[i]
  }

  /** Everything a reconfiguration may replace. */
  datatype Config = Config(colorFormat: ColorFormat, pixelFormat: PixelFormat, pool: Option<nat>,
                                slots: seq<Slot>, state: State)

  const ACCEPTED := (true, true, true)

  class Instance {
    const platform: Platform
    const height: nat
    const width: nat
    const blank: Row
    var colorFormat: ColorFormat
    var pixelFormat: PixelFormat
    var pool: Option<nat>
    var slots: array<Slot>
    var frames: array<Buffer>
    var last: Option<nat>
    var dirty: RowSpan
    var draw: nat
    var reconfigureFailed: bool

    ghost function State(): State
      reads this, frames
    {
      FrameSync.State(frames[..], last, dirty, draw)
    }

    ghost function Configuration(): Config
      reads this, slots, frames
    {
      Config(colorFormat, pixelFormat, pool, slots[..], State())
    }

    ghost function Resources(): set<Resource>
      reads this, slots
      requires slots.Length == BUFFER_COUNT
    {
      SlotsResources(slots[..]) + PoolResources(pool)
    }

    ghost predicate Owning()
      reads this, slots, platform
    {
      && platform.Valid() && slots.Length == BUFFER_COUNT
      && Separate(slots[..]) && Resources() <= platform.live
    }

    ghost predicate Valid()
      reads this, slots, frames, platform
    {
      && Owning() && Shaped(State(), height)
      && (pool.None? ==> slots[..] == [EMPTY, EMPTY, EMPTY])
    }

    constructor (platform: Platform, width: nat, height: nat, blank: Row, cf: ColorFormat)
      requires platform.Valid()
      ensures Valid() && fresh(slots) && fresh(frames)
      ensures this.platform == platform && this.height == height && this.width == width && this.blank == blank
      ensures Resources() == {} && State() == Fresh(height, blank)
    {
      this.platform, this.width, this.height, this.blank := platform, width, height, blank;
      colorFormat, pixelFormat, pool := cf, PixelFormatOf(cf), None;
      slots := new Slot[BUFFER_COUNT](_ => EMPTY);
      var zeroed := Buffer(FrameSync.Blank(height, blank), NO_ROWS);
      frames := new Buffer[BUFFER_COUNT](_ => zeroed);
      last, dirty, draw, reconfigureFailed := None, NO_ROWS, 0, false;
      new;
      assert slots[..] == [EMPTY, EMPTY, EMPTY];
      assert frames[..] == Fresh(height, blank).buffers;
    }

    /** The scratch copy that reconfiguration fills: the format and pool slots of `of`, with
        no buffers yet. */
    constructor Replacement(of: Instance, cf: ColorFormat)
      ensures platform == of.platform && height == of.height && width == of.width && blank == of.blank
      ensures fresh(slots) && slots.Length == BUFFER_COUNT && slots[..] == [EMPTY, EMPTY, EMPTY]
      ensures fresh(frames) && frames[..] == Fresh(height, blank).buffers
      ensures colorFormat == cf && pixelFormat == PixelFormatOf(cf) && pool == of.pool
    {
      platform, width, height, blank := of.platform, of.width, of.height, of.blank;
      colorFormat, pixelFormat, pool := cf, PixelFormatOf(cf), of.pool;
      slots := new Slot[BUFFER_COUNT](_ => EMPTY);
      var zeroed := Buffer(FrameSync.Blank(of.height, of.blank), NO_ROWS);
      frames := new Buffer[BUFFER_COUNT](_ => zeroed);
      last, dirty, draw, reconfigureFailed := of.last, of.dirty, of.draw, of.reconfigureFailed;
      new;
      assert slots[..] == [EMPTY, EMPTY, EMPTY];
      assert frames[..] == Fresh(height, blank).buffers;
    }

    // -------------------------------------------------------------- callbacks

    method MarkDirtyRows(y1: int, y2: int)
      requires Valid()
      modifies this`dirty
      ensures Valid() && dirty == MarkDirty(old(dirty), y1, y2, height)
    {
      var lo := Max(y1, 0);
      var hi := Min(y2, height - 1);
      if lo > hi { return; }
      if !dirty.valid {
        dirty := RowSpan(true, lo, hi);
        return;
      }
      dirty := RowSpan(true, Min(dirty.y1, lo), Max(dirty.y2, hi));
    }

    /** `free[i]` is whether the video output reports buffer i as released. When it reports
        none, the port blocks until the chosen one is. */
    method FindFreeBuffer(free: seq<bool>) returns (next: nat)
      requires |free| == BUFFER_COUNT
      ensures next == Pick(free, last) && RightChoice(free, last, next)
    {
      PickIsRight(free, last, 0);
      var i := 0;
      while i < BUFFER_COUNT
        invariant 0 <= i <= BUFFER_COUNT
        invariant Pick(free, last) == Pick(free, last, i)
      {
        if last != Some(i) && free[i] { return i; }
        i := i + 1;
      }
      next := if last == Some(0) then 1 else 0;
    }

    method PrepareDrawBuffer(free: seq<bool>)
      requires Valid() && |free| == BUFFER_COUNT
      modifies this`draw, frames
      ensures Valid() && State() == RenderStart(old(State()), height, free) && RightChoice(free, last, draw)
    {
      ghost var s := State();
      var next := FindFreeBuffer(free);
      PickInRange(free, last, 0);
      if frames[next].sync.valid && last.Some? {
        var b, src := frames[next], frames[last.value];
        frames[next] := Buffer(CopyRows(b.rows, src.rows, b.sync), b.sync.(valid := false));
      }
      draw := next;
      assert frames[..] == RenderStart(s, height, free).buffers;
    }

    method FlushCb(y1: int, y2: int, isLast: bool, gpuIdle: bool)
      requires Valid()
      modifies this`dirty, this`last, frames
      ensures Valid() && State() == Flush(old(State()), height, y1, y2, isLast, gpuIdle)
    {
      ghost var s := State();
      MarkDirtyRows(y1, y2);
      if !isLast || !gpuIdle { return; }
      RecordPresented();
      last := Some(draw);
      dirty := dirty.(valid := false);
      assert frames[..] == Flush(s, height, y1, y2, isLast, gpuIdle).buffers;
    }

    /** The loop of flush_cb: remember the presented change for every other buffer. */
    method RecordPresented()
      requires frames.Length == BUFFER_COUNT
      modifies frames
      ensures forall k | 0 <= k < BUFFER_COUNT :: frames[k] == FallBehind(old(frames[k]), k == draw, dirty)
    {
      for i := 0 to BUFFER_COUNT
        invariant forall k | 0 <= k < i :: frames[k] == FallBehind(old(frames[k]), k == draw, dirty)
        invariant forall k | i <= k < BUFFER_COUNT :: frames[k] == old(frames[k])
      {
        if i == draw || !dirty.valid { continue; }
        var b := frames[i];
        if b.sync.valid {
          frames[i] := Buffer(b.rows, RowSpan(true, Min(b.sync.y1, dirty.y1), Max(b.sync.y2, dirty.y2)));
        } else {
          frames[i] := Buffer(b.rows, RowSpan(true, dirty.y1, dirty.y2));
        }
      }
    }

    // -------------------------------------------------------------- reconfiguration

    /** Releases the mapping and the block of one buffer. */
    method ReleaseSlot(i: nat)
      requires platform.Valid() && slots.Length == BUFFER_COUNT && i < BUFFER_COUNT
      requires SlotResources(slots[i]) <= platform.live
      modifies slots, platform
      ensures platform.Valid() && platform.ever == old(platform.ever)
      ensures platform.live == old(platform.live) - old(SlotResources(slots[i]))
      ensures slots[..] == old(slots[..])[i := EMPTY]
    {
      if slots[i].addr.Some? {
        platform.Release(Registration(slots[i].addr.value));
        platform.Release(Mapping(slots[i].addr.value));
        slots[i] := slots[i].(addr := None);
      }
      if slots[i].handle.Some? {
        platform.Release(Block(slots[i].handle.value));
        slots[i] := slots[i].(handle := None);
      }
    }

    method ReleaseSlots()
      requires platform.Valid() && slots.Length == BUFFER_COUNT
      requires Separate(slots[..]) && SlotsResources(slots[..]) <= platform.live
      modifies slots, platform
      ensures platform.Valid() && platform.ever == old(platform.ever)
      ensures slots[..] == [EMPTY, EMPTY, EMPTY]
      ensures platform.live == old(platform.live) - old(SlotsResources(slots[..]))
    {
      ghost var held := slots[..];
      for i := 0 to BUFFER_COUNT
        invariant platform.Valid() && platform.ever == old(platform.ever)
        invariant slots.Length == BUFFER_COUNT
        invariant forall k | 0 <= k < i :: slots[k] == EMPTY
        invariant forall k | i <= k < BUFFER_COUNT :: slots[k] == held[k]
        invariant platform.live == old(platform.live) - SlotsResources(held, i)
      {
        ReleaseSlot(i);
      }
      assert slots[..] == [EMPTY, EMPTY, EMPTY];
    }

    /** Releases whatever the instance holds: buffer by buffer, then the pool. */
    method BufferDeinit()
      requires Owning()
      modifies this`pool, slots, platform
      ensures Owning() && Resources() == {} && pool == None && slots[..] == [EMPTY, EMPTY, EMPTY]
      ensures platform.live == old(platform.live) - old(Resources())
      ensures platform.ever == old(platform.ever)
    {
      ReleaseSlots();
      if pool.Some? {
        platform.Release(Pool(pool.value));
        pool := None;
      }
    }

    /** Block, mapping and registration of buffer i; the block goes back if mapping fails. */
    method AllocateSingleBuffer(i: nat, blockPossible: bool, mapPossible: bool) returns (ok: bool)
      requires Owning() && i < BUFFER_COUNT && slots[i] == EMPTY
      modifies slots, platform
      ensures Owning() && old(platform.ever) <= platform.ever
      ensures ok == (blockPossible && mapPossible)
      ensures forall k | 0 <= k < BUFFER_COUNT && (k != i || !ok) :: slots[k] == old(slots[k])
      ensures ok ==> slots[i].addr.Some? && slots[i].handle.Some?
      ensures old(Resources()) <= Resources() && (Resources() - old(Resources())) !! old(platform.ever)
      ensures platform.live == old(platform.live) + Resources()
    {
      var block := platform.GetBlock(blockPossible);
      if block.None? { return false; }
      var addr := platform.Map(mapPossible);
      if addr.None? {
        platform.Release(Block(block.value));
        return false;
      }
      platform.Register(addr.value);
      slots[i] := Slot(addr, block);
      ok := true;
    }

    /** Disable, set attributes, enable: three calls that may each fail. */
    static method ConfigureOsd(accepts: (bool, bool, bool)) returns (ok: bool)
      ensures ok <==> accepts == ACCEPTED
    {
      if !accepts.0 { return false; }
      if !accepts.1 { return false; }
      if !accepts.2 { return false; }
      return true;
    }

    /** One buffer after another, stopping at the first that cannot be had. */
    method AllocateBuffers(block: seq<bool>, map_: seq<bool>) returns (ok: bool)
      requires Owning() && slots[..] == [EMPTY, EMPTY, EMPTY] && |block| == |map_| == BUFFER_COUNT
      modifies slots, platform
      ensures Owning() && old(platform.ever) <= platform.ever
      ensures (Resources() - old(Resources())) !! old(platform.ever) && old(Resources()) <= Resources()
      ensures platform.live == old(platform.live) + Resources()
      ensures ok <==> AllPossible(block, map_)
      ensures ok ==> Complete(slots[..])
    {
      for i := 0 to BUFFER_COUNT
        invariant Owning() && old(platform.ever) <= platform.ever
        invariant (Resources() - old(Resources())) !! old(platform.ever) && old(Resources()) <= Resources()
        invariant platform.live == old(platform.live) + Resources()
        invariant forall k | 0 <= k < i :: block[k] && map_[k]
        invariant forall k | 0 <= k < i :: slots[k].addr.Some? && slots[k].handle.Some?
        invariant forall k | i <= k < BUFFER_COUNT :: slots[k] == EMPTY
      {
        var done := AllocateSingleBuffer(i, block[i], map_[i]);
        if !done { return false; }
      }
      ok := true;
    }

    /** Fills the replacement: a pool, then its buffers. On failure everything acquired on the
        way has been released again. */
    method Populate(poolPossible: bool, block: seq<bool>, map_: seq<bool>) returns (ok: bool)
      requires platform.Valid() && slots.Length == BUFFER_COUNT && slots[..] == [EMPTY, EMPTY, EMPTY]
      requires |block| == |map_| == BUFFER_COUNT
      modifies this`pool, slots, platform
      ensures Owning() && old(platform.ever) <= platform.ever
      ensures Resources() !! old(platform.ever)
      ensures platform.live == old(platform.live) + Resources()
      ensures !ok ==> Resources() == {}
      ensures ok <==> poolPossible && AllPossible(block, map_)
      ensures ok ==> pool.Some? && Complete(slots[..])
    {
      pool := platform.CreatePool(poolPossible);
      if pool.None? { return false; }
      ok := AllocateBuffers(block, map_);
      if !ok {
        BufferDeinit();
      }
    }

    /** `stride` is LVGL's stride for the new format (0 when LVGL has none). On failure the
        instance keeps its buffers, pool, formats and last frame, and whatever was acquired is
        no longer live; on success it holds exactly the replacement, and what it held before is
        no longer live. */
    method Reconfigure(cf: ColorFormat, stride: nat, poolPossible: bool, block: seq<bool>, map_: seq<bool>,
                       acceptsNew: (bool, bool, bool), acceptsOld: (bool, bool, bool)) returns (ok: bool)
      requires Valid() && |block| == |map_| == BUFFER_COUNT
      modifies this, slots, frames, platform
      ensures Valid() && slots == old(slots) && frames == old(frames) && old(platform.ever) <= platform.ever
      ensures !ok ==> Configuration() == old(Configuration()) && platform.live == old(platform.live)
      ensures ok ==> Configuration() == Config(cf, PixelFormatOf(cf), pool, slots[..], Fresh(height, blank))
      ensures ok ==> pool.Some? && Complete(slots[..]) && Resources() !! old(platform.ever)
      ensures ok ==> platform.live == old(platform.live) - old(Resources()) + Resources()
      ensures var allocates := poolPossible && AllPossible(block, map_);
              var sized := (if stride == 0 then width * PixelSize(cf) else stride) * height != 0;
              && (ok <==> sized && allocates && acceptsNew == ACCEPTED)
              && (reconfigureFailed <==>
                    if ok then false
                    else if sized && allocates && pool.Some? then acceptsOld != ACCEPTED
                    else old(reconfigureFailed))
    {
      hide SlotsResources, PoolResources, Separate, Complete, AllPossible, PixelSize, Shaped;
      var drawStride := if stride == 0 then width * PixelSize(cf) else stride;
      if drawStride * height == 0 { return false; }
      var replacement, populated := BuildReplacement(cf, poolPossible, block, map_);
      if !populated { return false; }
      var accepted := ConfigureOsd(acceptsNew);
      if !accepted {
        RollBack(replacement, acceptsOld);
        return false;
      }
      Adopt(replacement);
      ok := true;
    }

    method BuildReplacement(cf: ColorFormat, poolPossible: bool, block: seq<bool>, map_: seq<bool>)
        returns (replacement: Instance, populated: bool)
      requires Valid() && |block| == |map_| == BUFFER_COUNT
      modifies platform
      ensures Valid() && Configuration() == old(Configuration())
      ensures replacement.Owning() && replacement.platform == platform && Resources() !! replacement.Resources()
      ensures fresh(replacement) && fresh(replacement.slots) && fresh(replacement.frames)
      ensures old(platform.ever) <= platform.ever && replacement.Resources() !! old(platform.ever)
      ensures platform.live == old(platform.live) + replacement.Resources()
      ensures populated <==> poolPossible && AllPossible(block, map_)
      ensures !populated ==> replacement.Resources() == {}
      ensures populated ==> replacement.pool.Some? && Complete(replacement.slots[..])
      ensures replacement.frames[..] == Fresh(height, blank).buffers
      ensures replacement.colorFormat == cf && replacement.pixelFormat == PixelFormatOf(cf)
    {
      replacement := new Instance.Replacement(this, cf);
      populated := replacement.Populate(poolPossible, block, map_);
    }

    /** The video output refused the replacement: free it, then restore the old configuration. */
    method RollBack(replacement: Instance, acceptsOld: (bool, bool, bool))
      requires Valid() && replacement.Owning() && replacement.platform == platform
      requires replacement != this && replacement.slots != slots
      requires Resources() !! replacement.Resources()
      modifies this`reconfigureFailed, replacement, replacement.slots, platform
      ensures Valid() && platform.ever == old(platform.ever)
      ensures platform.live == old(platform.live) - old(replacement.Resources())
      ensures reconfigureFailed == if pool.Some? then acceptsOld != ACCEPTED else old(reconfigureFailed)
    {
      replacement.BufferDeinit();
      if pool.Some? {
        var restored := ConfigureOsd(acceptsOld);
        reconfigureFailed := !restored;
      }
    }

    /** The commit: free the old buffers, take over those of the replacement. */
    method Adopt(replacement: Instance)
      requires Valid() && replacement.Owning() && replacement.platform == platform
      requires replacement != this && replacement.slots != slots && replacement.frames != frames
      requires Resources() !! replacement.Resources() && replacement.pool.Some?
      requires replacement.frames[..] == Fresh(height, blank).buffers
      modifies this, slots, frames, platform
      ensures Valid() && slots == old(slots) && frames == old(frames) && platform.ever == old(platform.ever)
      ensures Configuration() == Config(replacement.colorFormat, replacement.pixelFormat, replacement.pool,
                                        replacement.slots[..], Fresh(height, blank))
      ensures !reconfigureFailed
      ensures platform.live == old(platform.live) - old(Resources())
    {
      if pool.Some? {
        BufferDeinit();
      }
      TakeOver(replacement);
    }

    method TakeOver(replacement: Instance)
      requires slots.Length == replacement.slots.Length == BUFFER_COUNT && frames.Length == BUFFER_COUNT
      requires replacement != this && replacement.slots != slots && replacement.frames != frames
      requires replacement.frames[..] == Fresh(height, blank).buffers
      modifies this, slots, frames
      ensures slots == old(slots) && frames == old(frames)
      ensures Configuration() == Config(replacement.colorFormat, replacement.pixelFormat, replacement.pool,
                                        replacement.slots[..], Fresh(height, blank))
      ensures !reconfigureFailed
    {
      colorFormat, pixelFormat, pool := replacement.colorFormat, replacement.pixelFormat, replacement.pool;
      forall i | 0 <= i < BUFFER_COUNT { slots[i] := replacement.slots[i]; }
      forall i | 0 <= i < BUFFER_COUNT { frames[i] := replacement.frames[i]; }
      last, draw, dirty, reconfigureFailed := None, 0, NO_ROWS, false;
      assert slots[..] == replacement.slots[..];
      assert frames[..] == replacement.frames[..];
    }
  }
}
