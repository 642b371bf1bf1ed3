/** Images written pixel by pixel or strip by strip into a destination buffer. The scalar loops
    and the vector loops of the converter and of the blender have the same shape and differ in
    what they make of a pixel, which is the job. Buffers are addressed by byte offsets. */
module Raster {
  import opened ImageConvert
  import B = Blend

  // ---------------------------------------------------------------- jobs

  datatype Job = Convert(conversion: Conversion, source: seq<bv8>) | Blend(mixing: B.Mixing)
  {
    predicate Valid() {
      match this
      case Convert(c, _) => c.Supported()
      case Blend(b) => b.Valid()
    }

    /** Bytes of a destination pixel. */
    function Size(): nat {
      match this
      case Convert(c, _) => c.to.Size()
      case Blend(b) => b.size
    }

    /** What is read along with the destination: the source image, or the mask. */
    function Input(): seq<bv8> {
      match this
      case Convert(_, source) => source
      case Blend(b) => b.Mask()
    }

    /** How far the input advances with a pixel. */
    function Step(): nat {
      match this
      case Convert(c, _) => c.from.Size()
      case Blend(b) => b.Step()
    }

    /** The reference: the new bytes of a pixel whose input is at an offset. */
    function Pixel(d: seq<bv8>, from: nat): (p: seq<bv8>)
      requires Valid() && |d| == Size() && from + Step() <= |Input()|
      ensures |p| == Size()
    {
      match this
      case Convert(c, source) => ScalarPixel(c, source[from..from + c.from.Size()])
      case Blend(b) => if b.fill then B.FilledPixel(b) else B.ReferencePixel(b, d, B.Mix(b, from))
    }

    /** Jobs with a vector routine. A premultiplied format is never converted to itself. */
    predicate Vectorised() {
      match this
      case Convert(c, _) =>
        (Expands(c) || Packs(c) || ConvertsPacked(c)) && !(c.from.ARGB8888Pre? && c.to.ARGB8888Pre?)
      case Blend(b) => true
    }

    /** What the vector lane of the pixel stores. Fills distinguish aligned addresses. */
    function LanePixel(d: seq<bv8>, from: nat, aligned: bool): seq<bv8>
      requires Valid() && Vectorised() && |d| == Size() && from + Step() <= |Input()|
    {
      match this
      case Convert(c, source) => VectorPixel(c, source[from..from + c.from.Size()])
      case Blend(b) => if b.fill then B.FillLane(b, aligned) else B.MixPixelLane(b, d, B.MixLane(b, from))
    }
  }

  lemma LaneAgrees(j: Job, d: seq<bv8>, from: nat, aligned: bool)
    requires j.Valid() && j.Vectorised() && |d| == j.Size() && from + j.Step() <= |j.Input()|
    ensures j.LanePixel(d, from, aligned) == j.Pixel(d, from)
  {
    hide VectorPixel, ScalarPixel, B.FillLane, B.FilledPixel, B.MixPixelLane, B.ReferencePixel, B.MixLane, B.Mix;
    match j
    case Convert(c, source) => PixelAgrees(c, source[from..from + c.from.Size()]);
    case Blend(b) =>
      if b.fill {
        B.FillAgrees(b, aligned);
      } else {
        B.MixAgrees(b, from);
        B.MixPixelAgrees(b, d, B.Mix(b, from));
      }
  }

  // ---------------------------------------------------------------- what is to be written

  /** The bytes p stored at an offset; nothing where they do not fit. */
  function Put(d: seq<bv8>, at: nat, p: seq<bv8>): (r: seq<bv8>)
    ensures |r| == |d|
  {
    if at + |p| <= |d| then d[..at] + p + d[at + |p|..] else d
  }

  /** n pixels in place, one after the other. */
  function Row(j: Job, d: seq<bv8>, at: nat, from: nat, n: nat): (r: seq<bv8>)
    requires j.Valid()
    ensures |r| == |d|
    decreases n
  {
    if n == 0 || at + j.Size() > |d| || from + j.Step() > |j.Input()| then d
    else
      Row(j, Put(d, at, j.Pixel(d[at..at + j.Size()], from)), at + j.Size(), from + j.Step(), n - 1)
  }

  /** An image in memory: where its first row starts and how far apart the rows are. */
  datatype View = View(at: nat, stride: nat) {
    function Next(): View { View(at + stride, stride) }

    /** Where pixel x of row y starts. */
    function Pixel(x: nat, y: nat, size: nat): nat {
      Offset(Offset(at, y, stride), x, size)
    }
  }

  function Image(j: Job, d: seq<bv8>, to: View, from: View, w: nat, h: nat): (r: seq<bv8>)
    requires j.Valid()
    ensures |r| == |d|
    decreases h
  {
    if h == 0 then d
    else Image(j, Row(j, d, to.at, from.at, w), to.Next(), from.Next(), w, h - 1)
  }

  /** Every row of an image lies inside a buffer. */
  predicate RowsFit(length: nat, v: View, bytes: nat, h: nat)
    decreases h
  {
    h == 0 || bytes == 0 || (v.at + bytes <= length && RowsFit(length, v.Next(), bytes, h - 1))
  }

  predicate Fits(j: Job, length: nat, to: View, from: View, w: nat, h: nat) {
    RowsFit(length, to, w * j.Size(), h) && RowsFit(|j.Input()|, from, w * j.Step(), h)
  }

  // ---------------------------------------------------------------- arithmetic of offsets

  lemma OneLess(n: nat, size: nat)
    requires n > 0
    ensures n * size == size + (n - 1) * size
    ensures (n - 1) * size >= 0
  {
  }

  lemma NotNegative(n: nat, size: nat)
    ensures n * size >= 0
  {
  }

  lemma SizePositive(n: nat, size: nat)
    requires n > 0 && size > 0
    ensures n * size > 0
  {
  }

  /** Where the k-th of consecutive items starts. */
  function Offset(at: nat, k: nat, size: nat): nat {
    NotNegative(k, size);
    at + k * size
  }

  lemma OffsetZero(at: nat, size: nat)
    ensures Offset(at, 0, size) == at
  {
  }

  lemma NextOffset(at: nat, k: nat, size: nat)
    requires k > 0
    ensures Offset(at, k, size) == Offset(at + size, k - 1, size)
    ensures at + size <= Offset(at, k, size)
  {
    OneLess(k, size);
  }

  lemma OffsetInside(at: nat, k: nat, n: nat, size: nat)
    requires k < n
    ensures at <= Offset(at, k, size)
    ensures Offset(at, k, size) + size <= Offset(at, n, size)
  {
    assert (k + 1) * size <= n * size;
    NotNegative(k, size);
  }

  lemma PixelOfNextRow(v: View, x: nat, y: nat, size: nat)
    requires y > 0
    ensures v.Pixel(x, y, size) == v.Next().Pixel(x, y - 1, size)
    ensures v.at + v.stride <= v.Pixel(x, y, size)
  {
    NextOffset(v.at, y, v.stride);
    NotNegative(x, size);
  }

  lemma Product(n: nat, vl: nat, size: nat)
    requires vl <= n
    ensures n * size == vl * size + (n - vl) * size
    ensures 0 <= vl * size && 0 <= (n - vl) * size
  {
    assert (vl + (n - vl)) * size == vl * size + (n - vl) * size;
  }

  // ---------------------------------------------------------------- strips of lanes

  /** What a vector load of vl destination pixels p, the lane operations and the store write. */
  function Strip(j: Job, p: seq<bv8>, from: nat, vl: nat, aligned: bool): (r: seq<bv8>)
    requires j.Valid() && j.Vectorised()
    requires |p| == vl * j.Size() && from + vl * j.Step() <= |j.Input()|
    ensures |r| == vl * j.Size()
    decreases vl
  {
    if vl == 0 then []
    else
      OneLess(vl, j.Size());
      OneLess(vl, j.Step());
      LaneAgrees(j, p[..j.Size()], from, aligned);
      j.LanePixel(p[..j.Size()], from, aligned) + Strip(j, p[j.Size()..], from + j.Step(), vl - 1, aligned)
  }

  lemma PutTwice(d: seq<bv8>, at: nat, p: seq<bv8>, q: seq<bv8>)
    requires at + |p| + |q| <= |d|
    ensures Put(d, at, p + q) == Put(Put(d, at, p), at + |p|, q)
  {
    var e := Put(d, at, p);
    assert e[..at + |p|] == d[..at] + p;
    assert e[at + |p| + |q|..] == d[at + |p| + |q|..];
    assert Put(d, at, p + q) == d[..at] + (p + q) + d[at + |p| + |q|..];
    assert d[..at] + (p + q) == d[..at] + p + q;
  }

  lemma PutNothing(d: seq<bv8>, at: nat)
    ensures Put(d, at, []) == d
  {
    if at <= |d| { assert d[..at] + [] + d[at..] == d; }
  }

  /** Storing a pixel leaves what lies behind it. */
  lemma PutKeepsRest(d: seq<bv8>, at: nat, p: seq<bv8>, end: nat)
    requires at + |p| <= end <= |d|
    ensures Put(d, at, p)[at + |p|..end] == d[at + |p|..end]
  {
  }

  /** Reading, computing and storing a whole strip, and going on behind it, is doing its pixels
      one after the other: no pixel of a strip depends on another. */
  lemma {:induction false} StripIsPixels(j: Job, d: seq<bv8>, at: nat, from: nat, vl: nat, n: nat, aligned: bool)
    requires j.Valid() && j.Vectorised() && vl <= n && vl * j.Size() >= 0 && vl * j.Step() >= 0
    requires from + vl * j.Step() <= |j.Input()| && at + vl * j.Size() <= |d|
    ensures Row(j, d, at, from, n)
         == Row(j, Put(d, at, Strip(j, d[at..at + vl * j.Size()], from, vl, aligned)), at + vl * j.Size(),
                from + vl * j.Step(), n - vl)
    decreases vl
  {
    hide j.Valid, j.Vectorised, j.LanePixel, j.Pixel, j.Size, j.Step, j.Input, Put;
    if vl == 0 {
      PutNothing(d, at);
    } else {
      var size, end := j.Size(), at + vl * j.Size();
      OneLess(vl, size);
      OneLess(vl, j.Step());
      var p := d[at..end];
      assert p[..size] == d[at..at + size];
      assert p[size..] == d[at + size..end];
      LaneAgrees(j, p[..size], from, aligned);
      var q := j.Pixel(p[..size], from);
      var e := Put(d, at, q);
      PutKeepsRest(d, at, q, end);
      StripIsPixels(j, e, at + size, from + j.Step(), vl - 1, n - 1, aligned);
      PutTwice(d, at, q, Strip(j, p[size..], from + j.Step(), vl - 1, aligned));
    }
  }

  // ---------------------------------------------------------------- what the image holds

  lemma {:induction false} RowOutside(j: Job, d: seq<bv8>, at: nat, from: nat, n: nat, i: nat)
    requires j.Valid() && i < |d| && !(at <= i < Offset(at, n, j.Size()))
    ensures Row(j, d, at, from, n)[i] == d[i]
    decreases n
  {
    hide j.Valid, j.Size, j.Step, j.Input, j.Pixel, Offset;
    if n > 0 && at + j.Size() <= |d| && from + j.Step() <= |j.Input()| {
      NextOffset(at, n, j.Size());
      var e := Put(d, at, j.Pixel(d[at..at + j.Size()], from));
      assert e[i] == d[i];
      RowOutside(j, e, at + j.Size(), from + j.Step(), n - 1, i);
    }
  }

  /** The bytes of the pixel that starts at an offset. */
  function PixelAt(d: seq<bv8>, at: nat, size: nat): (p: seq<bv8>)
    requires at + size <= |d|
    ensures |p| == size
  {
    d[at..at + size]
  }

  lemma FirstPixel(j: Job, d: seq<bv8>, at: nat, from: nat, n: nat)
    requires j.Valid() && n > 0 && at + j.Size() <= |d| && from + j.Step() <= |j.Input()|
    ensures Row(j, d, at, from, n)
         == Row(j, Put(d, at, j.Pixel(PixelAt(d, at, j.Size()), from)), at + j.Size(), from + j.Step(), n - 1)
    ensures PixelAt(Row(j, d, at, from, n), at, j.Size()) == j.Pixel(PixelAt(d, at, j.Size()), from)
  {
    hide j.Valid, j.Size, j.Step, j.Input, j.Pixel, Offset;
    var size := j.Size();
    var q := j.Pixel(d[at..at + size], from);
    var e := Put(d, at, q);
    var r := Row(j, e, at + size, from + j.Step(), n - 1);
    forall i | at <= i < at + size ensures r[i] == q[i - at] {
      RowOutside(j, e, at + size, from + j.Step(), n - 1, i);
    }
    SliceIs(r, at, q);
  }

  lemma SliceIs(r: seq<bv8>, at: nat, q: seq<bv8>)
    requires at + |q| <= |r| && forall i | at <= i < at + |q| :: r[i] == q[i - at]
    ensures r[at..at + |q|] == q
  {
  }

  lemma {:induction false} RowPixel(j: Job, d: seq<bv8>, at: nat, from: nat, n: nat, x: nat)
    requires j.Valid() && x < n
    requires Offset(at, n, j.Size()) <= |d| && Offset(from, n, j.Step()) <= |j.Input()|
    ensures Offset(at, x, j.Size()) + j.Size() <= |d|
    ensures Offset(from, x, j.Step()) + j.Step() <= |j.Input()|
    ensures PixelAt(Row(j, d, at, from, n), Offset(at, x, j.Size()), j.Size())
         == j.Pixel(PixelAt(d, Offset(at, x, j.Size()), j.Size()), Offset(from, x, j.Step()))
    decreases n
  {
    hide j.Valid, j.Size, j.Step, j.Input, j.Pixel, Put, Row, Offset;
    var size := j.Size();
    OffsetInside(at, x, n, size);
    OffsetInside(from, x, n, j.Step());
    NextOffset(at, n, size);
    NextOffset(from, n, j.Step());
    FirstPixel(j, d, at, from, n);
    if x > 0 {
      NextOffset(at, x, size);
      NextOffset(from, x, j.Step());
      var q := j.Pixel(PixelAt(d, at, size), from);
      RowPixel(j, Put(d, at, q), at + size, from + j.Step(), n - 1, x - 1);
      PutKeepsLater(d, at, q, Offset(at, x, size), size);
    } else {
      OffsetZero(at, size);
      OffsetZero(from, j.Step());
    }
  }

  lemma PutKeepsLater(d: seq<bv8>, at: nat, p: seq<bv8>, other: nat, size: nat)
    requires at + |p| <= other && other + size <= |d|
    ensures PixelAt(Put(d, at, p), other, size) == PixelAt(d, other, size)
  {
  }

  /** Byte i lies in row y of an image w pixels wide. */
  predicate InRow(v: View, w: nat, size: nat, y: nat, i: nat) {
    v.Pixel(0, y, size) <= i < v.Pixel(w, y, size)
  }

  /** Padding at the ends of rows, and everything before and after the image, keeps its value. */
  lemma {:induction false} ImageOutside(j: Job, d: seq<bv8>, to: View, from: View, w: nat, h: nat, i: nat)
    requires j.Valid() && i < |d|
    requires forall y: nat | y < h :: !InRow(to, w, j.Size(), y, i)
    ensures Image(j, d, to, from, w, h)[i] == d[i]
    decreases h
  {
    hide Row, Offset, j.Valid, j.Size;
    if h > 0 {
      assert !InRow(to, w, j.Size(), 0, i);
      OffsetZero(to.at, to.stride);
      OffsetZero(to.at, j.Size());
      RowOutside(j, d, to.at, from.at, w, i);
      forall y: nat | y < h - 1 ensures !InRow(to.Next(), w, j.Size(), y, i) {
        assert !InRow(to, w, j.Size(), y + 1, i);
        NextOffset(to.at, y + 1, to.stride);
      }
      ImageOutside(j, Row(j, d, to.at, from.at, w), to.Next(), from.Next(), w, h - 1, i);
    }
  }

  /** Pixel x of row y in the result r is the job's pixel of what was there before and of the
      input that belongs to it. */
  predicate PixelDone(j: Job, d: seq<bv8>, r: seq<bv8>, to: View, from: View, x: nat, y: nat)
    requires j.Valid() && |r| == |d|
  {
    var at, input := to.Pixel(x, y, j.Size()), from.Pixel(x, y, j.Step());
    && at + j.Size() <= |d| && input + j.Step() <= |j.Input()|
    && PixelAt(r, at, j.Size()) == j.Pixel(PixelAt(d, at, j.Size()), input)
  }

  /** Where rows do not overlap, every pixel of the image is done. */
  lemma {:induction false} ImagePixel(j: Job, d: seq<bv8>, to: View, from: View, w: nat, h: nat, x: nat, y: nat)
    requires j.Valid() && x < w && y < h && Fits(j, |d|, to, from, w, h)
    requires Offset(0, w, j.Size()) <= to.stride
    requires j.Step() == 0 ==> from == View(0, 0)
    ensures PixelDone(j, d, Image(j, d, to, from, w, h), to, from, x, y)
    decreases h
  {
    hide *;
    NextRow(j, d, to, from, w, h);
    var e := Row(j, d, to.at, from.at, w);
    if y == 0 {
      FirstRowDone(j, d, to, from, w, h, x);
    } else {
      NextView(to);
      NextView(from);
      ImagePixel(j, e, to.Next(), from.Next(), w, h - 1, x, y - 1);
      LaterRowDone(j, d, Image(j, e, to.Next(), from.Next(), w, h - 1), to, from, w, x, y);
    }
  }

  lemma NextView(v: View)
    ensures v.Next().stride == v.stride
    ensures v == View(0, 0) ==> v.Next() == v
  {
  }

  lemma FirstRowDone(j: Job, d: seq<bv8>, to: View, from: View, w: nat, h: nat, x: nat)
    requires j.Valid() && x < w && h > 0 && Offset(0, w, j.Size()) <= to.stride
    requires Offset(to.at, w, j.Size()) <= |d| && Offset(from.at, w, j.Step()) <= |j.Input()|
    ensures PixelDone(j, d, Image(j, Row(j, d, to.at, from.at, w), to.Next(), from.Next(), w, h - 1), to, from, x, 0)
  {
    hide Row, Image, Offset, View.Pixel, j.Valid, j.Input, j.Pixel, j.Size, j.Step;
    FirstRowPixel(j, d, to, from, w, x);
    LaterRowsKeep(j, Row(j, d, to.at, from.at, w), to, from, w, h, x);
  }

  lemma LaterRowDone(j: Job, d: seq<bv8>, r: seq<bv8>, to: View, from: View, w: nat, x: nat, y: nat)
    requires j.Valid() && x < w && y > 0 && |r| == |d| && Offset(0, w, j.Size()) <= to.stride
    requires PixelDone(j, Row(j, d, to.at, from.at, w), r, to.Next(), from.Next(), x, y - 1)
    ensures PixelDone(j, d, r, to, from, x, y)
  {
    hide Row, Offset, View.Pixel, j.Valid, j.Input, j.Pixel, j.Size, j.Step;
    PixelOfNextRow(to, x, y, j.Size());
    PixelOfNextRow(from, x, y, j.Step());
    FirstRowKeeps(j, d, to, from, w, x, y);
  }

  lemma FirstRowPixel(j: Job, d: seq<bv8>, to: View, from: View, w: nat, x: nat)
    requires j.Valid() && x < w
    requires Offset(to.at, w, j.Size()) <= |d| && Offset(from.at, w, j.Step()) <= |j.Input()|
    ensures PixelDone(j, d, Row(j, d, to.at, from.at, w), to, from, x, 0)
  {
    hide Row, Offset, j.Valid, j.Input, j.Pixel, j.Size, j.Step;
    OffsetZero(to.at, to.stride);
    OffsetZero(from.at, from.stride);
    RowPixel(j, d, to.at, from.at, w, x);
  }

  lemma LaterRowsKeep(j: Job, e: seq<bv8>, to: View, from: View, w: nat, h: nat, x: nat)
    requires j.Valid() && x < w && h > 0
    requires Offset(to.at, w, j.Size()) <= |e| && Offset(0, w, j.Size()) <= to.stride
    ensures to.Pixel(x, 0, j.Size()) + j.Size() <= |e|
    ensures PixelAt(Image(j, e, to.Next(), from.Next(), w, h - 1), to.Pixel(x, 0, j.Size()), j.Size())
         == PixelAt(e, to.Pixel(x, 0, j.Size()), j.Size())
  {
    hide Row, Image, j.Valid, j.Size;
    var size := j.Size();
    OffsetZero(to.at, to.stride);
    var at := to.Pixel(x, 0, size);
    OffsetInside(to.at, x, w, size);
    var r := Image(j, e, to.Next(), from.Next(), w, h - 1);
    forall i | at <= i < at + size ensures r[i] == e[i] {
      forall y: nat | y < h - 1 ensures !InRow(to.Next(), w, size, y, i) {
        NextOffset(to.at, y + 1, to.stride);
        OffsetZero(to.Next().Pixel(0, y, size), size);
        OffsetZero(Offset(to.at + to.stride, y, to.stride), size);
      }
      ImageOutside(j, e, to.Next(), from.Next(), w, h - 1, i);
    }
    assert r[at..at + size] == e[at..at + size];
  }

  lemma FirstRowKeeps(j: Job, d: seq<bv8>, to: View, from: View, w: nat, x: nat, y: nat)
    requires j.Valid() && x < w && y > 0 && Offset(0, w, j.Size()) <= to.stride
    requires to.Pixel(x, y, j.Size()) + j.Size() <= |d|
    ensures PixelAt(Row(j, d, to.at, from.at, w), to.Pixel(x, y, j.Size()), j.Size())
         == PixelAt(d, to.Pixel(x, y, j.Size()), j.Size())
  {
    var size, at := j.Size(), to.Pixel(x, y, j.Size());
    hide Row, View.Pixel, j.Valid, j.Size;
    PixelOfNextRow(to, x, y, size);
    var r := Row(j, d, to.at, from.at, w);
    forall i | at <= i < at + size ensures r[i] == d[i] {
      RowOutside(j, d, to.at, from.at, w, i);
    }
    assert r[at..at + size] == d[at..at + size];
  }

  lemma NextRowFits(length: nat, v: View, w: nat, size: nat, h: nat)
    requires h > 0 && w * size >= 0 && RowsFit(length, v, w * size, h)
    requires size == 0 ==> v == View(0, 0)
    ensures w > 0 ==> v.at + w * size <= length
    ensures RowsFit(length, v.Next(), w * size, h - 1)
  {
    if w > 0 && size > 0 {
      SizePositive(w, size);
    } else {
      NoBytes(w, size);
    }
  }

  lemma NoBytes(w: nat, size: nat)
    requires w == 0 || size == 0
    ensures w * size == 0
  {
  }

  lemma NextRow(j: Job, d: seq<bv8>, to: View, from: View, w: nat, h: nat)
    requires j.Valid() && Fits(j, |d|, to, from, w, h) && h > 0
    requires j.Step() == 0 ==> from == View(0, 0)
    ensures w > 0 ==> Offset(to.at, w, j.Size()) <= |d| && Offset(from.at, w, j.Step()) <= |j.Input()|
    ensures Image(j, d, to, from, w, h)
         == Image(j, Row(j, d, to.at, from.at, w), to.Next(), from.Next(), w, h - 1)
    ensures Fits(j, |d|, to.Next(), from.Next(), w, h - 1)
  {
    HasSize(j);
    hide Row, RowsFit, j.Size, j.Step, j.Input, j.Valid;
    NotNegative(w, j.Size());
    NotNegative(w, j.Step());
    NextRowFits(|d|, to, w, j.Size(), h);
    NextRowFits(|j.Input()|, from, w, j.Step(), h);
  }

  lemma HasSize(j: Job)
    requires j.Valid()
    ensures j.Size() > 0
  {
  }

  lemma NoRows(j: Job, d: seq<bv8>, to: View, from: View, w: nat)
    requires j.Valid()
    ensures Image(j, d, to, from, w, 0) == d
  {
  }

  lemma NoPixels(j: Job, d: seq<bv8>, at: nat, from: nat)
    requires j.Valid()
    ensures Row(j, d, at, from, 0) == d
  {
  }

  // ---------------------------------------------------------------- the loops

  /** Store bytes at an offset. */
  method Store(dest: array<bv8>, at: nat, p: seq<bv8>)
    requires at + |p| <= dest.Length
    modifies dest
    ensures dest[..] == Put(old(dest[..]), at, p)
  {
    forall i | 0 <= i < |p| { dest[at + i] := p[i]; }
    assert dest[..] == old(dest[..at]) + p + old(dest[at + |p|..]);
    assert old(dest[..at]) == old(dest[..])[..at];
    assert old(dest[at + |p|..]) == old(dest[..])[at + |p|..];
  }

  /** A row in strips; the processor chooses the length of each. Where the buffer lies is left open,
      so each strip may start at an aligned address or not. */
  method VectorRow(j: Job, dest: array<bv8>, at: nat, from: nat, width: nat)
    requires j.Valid() && j.Vectorised()
    requires Offset(at, width, j.Size()) <= dest.Length && Offset(from, width, j.Step()) <= |j.Input()|
    modifies dest
    ensures dest[..] == Row(j, old(dest[..]), at, from, width)
  {
    hide j.Valid, j.Vectorised, j.Size, j.Step, j.Input, Row, Strip, Put;
    var remaining: nat, input: nat, pixel: nat := width, from, at;
    while remaining > 0
      invariant remaining <= width
      invariant pixel + remaining * j.Size() <= dest.Length
      invariant input + remaining * j.Step() <= |j.Input()|
      invariant Row(j, dest[..], pixel, input, remaining) == Row(j, old(dest[..]), at, from, width)
    {
      var vl: nat :| 1 <= vl <= remaining;
      var aligned: bool := *;
      Product(remaining, vl, j.Size());
      Product(remaining, vl, j.Step());
      StripIsPixels(j, dest[..], pixel, input, vl, remaining, aligned);
      assert dest[..][pixel..pixel + vl * j.Size()] == dest[pixel..pixel + vl * j.Size()];
      Store(dest, pixel, Strip(j, dest[pixel..pixel + vl * j.Size()], input, vl, aligned));
      input, pixel := input + vl * j.Step(), pixel + vl * j.Size();
      remaining := remaining - vl;
    }
    NoPixels(j, dest[..], pixel, input);
  }

  method VectorRows(j: Job, dest: array<bv8>, to: View, from: View, width: nat, height: nat)
    requires j.Valid() && j.Vectorised() && Fits(j, dest.Length, to, from, width, height)
    requires j.Step() == 0 ==> from == View(0, 0)
    modifies dest
    ensures dest[..] == Image(j, old(dest[..]), to, from, width, height)
  {
    hide Fits, Image, Row, j.Valid, j.Vectorised;
    var y, d, s := 0, to, from;
    while y < height
      invariant y <= height && (j.Step() == 0 ==> s == View(0, 0))
      invariant Fits(j, dest.Length, d, s, width, height - y)
      invariant Image(j, dest[..], d, s, width, height - y) == Image(j, old(dest[..]), to, from, width, height)
    {
      NextRow(j, dest[..], d, s, width, height - y);
      if width > 0 {
        VectorRow(j, dest, d.at, s.at, width);
      } else {
        NoPixels(j, dest[..], d.at, s.at);
      }
      y, d, s := y + 1, d.Next(), s.Next();
    }
    NoRows(j, dest[..], d, s, width);
  }

  /** A row pixel by pixel. */
  method ScalarRow(j: Job, dest: array<bv8>, at: nat, from: nat, width: nat)
    requires j.Valid()
    requires Offset(at, width, j.Size()) <= dest.Length && Offset(from, width, j.Step()) <= |j.Input()|
    modifies dest
    ensures dest[..] == Row(j, old(dest[..]), at, from, width)
  {
    hide j.Valid, j.Size, j.Step, j.Input, j.Pixel, Put;
    var x: nat, input: nat, pixel: nat := 0, from, at;
    while x < width
      invariant x <= width
      invariant pixel + (width - x) * j.Size() <= dest.Length
      invariant input + (width - x) * j.Step() <= |j.Input()|
      invariant Row(j, dest[..], pixel, input, width - x) == Row(j, old(dest[..]), at, from, width)
    {
      OneLess(width - x, j.Size());
      OneLess(width - x, j.Step());
      assert dest[..][pixel..pixel + j.Size()] == dest[pixel..pixel + j.Size()];
      Store(dest, pixel, j.Pixel(dest[pixel..pixel + j.Size()], input));
      x, input, pixel := x + 1, input + j.Step(), pixel + j.Size();
    }
  }
}
