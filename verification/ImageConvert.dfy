/** Colour conversion: pixels as the scalar reference reads and writes them, and as each lane of
    the vector routines computes them. */
module ImageConvert {
  import opened B = Bytes

  datatype Format =
    | L8 | A8 | AL88 | RGB565 | RGB565Swapped | RGB888 | XRGB8888 | ARGB8888 | ARGB8888Pre
    | ARGB1555 | ARGB4444 | ARGB2222 | ARGB8565
    | Other(size: nat)
  {
    /** Bytes per pixel; LVGL has formats this port does not convert. */
    function Size(): nat {
      match this
      case L8 | A8 | ARGB2222 => 1
      case AL88 | RGB565 | RGB565Swapped | ARGB1555 | ARGB4444 => 2
      case RGB888 | ARGB8565 => 3
      case XRGB8888 | ARGB8888 | ARGB8888Pre => 4
      case Other(size) => size
    }
  }

  datatype Color = Color(blue: bv8, green: bv8, red: bv8, alpha: bv8)

  // ---------------------------------------------------------------- the scalar reference

  function Expand2(v: bv8): bv8 { v * 85 }

  function Expand4(v: bv8): bv8 { (v << 4) | v }

  function Expand5(v: bv8): bv8 { (v << 3) | (v >> 2) }

  function Expand6(v: bv8): bv8 { (v << 2) | (v >> 4) }

  function Low8(v: bv16): bv8 { (v & 0xff) as bv8 }

  function High8(v: bv16): bv8 { (v >> 8) as bv8 }

  /** A 16-bit value in memory, low byte first. */
  function Word(lo: bv8, hi: bv8): bv16 { ((hi as bv16) << 8) | (lo as bv16) }

  function Swapped(v: bv16): bv16 { (v << 8) | (v >> 8) }

  function From565(v: bv16, alpha: bv8): Color {
    Color(Expand5(Low8(v & 0x1f)), Expand6(Low8((v >> 5) & 0x3f)), Expand5(Low8((v >> 11) & 0x1f)), alpha)
  }

  lemma ProductFits(c: int, alpha: int)
    requires 0 <= c <= 255 && 0 <= alpha <= 255
    ensures 0 <= c * alpha <= 255 * alpha
  {
  }

  lemma ScaledFits(c: int, alpha: int)
    requires 0 <= c <= 255 && 0 <= alpha <= 255
    ensures 0 <= (c * alpha + 127) / 255 <= 255
  {
    ProductFits(c, alpha);
  }

  lemma Quotient(n: int, a: int, v: int)
    requires 0 <= n && 0 < a && v == n / a
    ensures v * a <= n < v * a + a && 0 <= v
  {
  }

  /** Division by alpha, rounded and limited to 255. */
  function Divided(c: int, a: int): (v: int)
    requires 0 <= c <= 255 && 0 < a <= 255
    ensures 0 <= v <= 255
  {
    var v := (c * 255 + a / 2) / a;
    Quotient(c * 255 + a / 2, a, v);
    if v > 255 then 255 else v
  }

  function Multiplied(c: int, a: int): (v: int)
    requires 0 <= c <= 255 && 0 <= a <= 255
    ensures 0 <= v <= 255
  {
    ScaledFits(c, a);
    (c * a + 127) / 255
  }

  function Unmultiplied(c: bv8, alpha: bv8): bv8
    requires alpha != 0
  {
    ValueEnds(alpha);
    ToBits(Divided(Value(c), Value(alpha)))
  }

  function Premultiplied(c: bv8, alpha: bv8): bv8 {
    ToBits(Multiplied(Value(c), Value(alpha)))
  }

  predicate Readable(cf: Format) { !cf.Other? }

  function ReadPixel(cf: Format, s: seq<bv8>): Color
    requires Readable(cf) && |s| == cf.Size()
  {
    match cf
    case L8 => Color(s[0], s[0], s[0], 0xff)
    case A8 => Color(0xff, 0xff, 0xff, s[0])
    case AL88 => Color(s[0], s[0], s[0], s[1])
    case RGB565 => From565(Word(s[0], s[1]), 0xff)
    case RGB565Swapped => From565(Swapped(Word(s[0], s[1])), 0xff)
    case RGB888 => Color(s[0], s[1], s[2], 0xff)
    case XRGB8888 => Color(s[0], s[1], s[2], 0xff)
    case ARGB8888 => Color(s[0], s[1], s[2], s[3])
    case ARGB8888Pre =>
      var a := s[3];
      if a == 0 || a == 0xff then Color(s[0], s[1], s[2], a)
      else Color(Unmultiplied(s[0], a), Unmultiplied(s[1], a), Unmultiplied(s[2], a), a)
    case ARGB1555 =>
      var v := Word(s[0], s[1]);
      Color(Expand5(Low8((v >> 11) & 0x1f)), Expand5(Low8((v >> 6) & 0x1f)), Expand5(Low8((v >> 1) & 0x1f)),
            if v & 1 != 0 then 0xff else 0)
    case ARGB4444 =>
      var v := Word(s[0], s[1]);
      Color(Expand4(Low8((v >> 12) & 0x0f)), Expand4(Low8((v >> 8) & 0x0f)), Expand4(Low8((v >> 4) & 0x0f)),
            Expand4(Low8(v & 0x0f)))
    case ARGB2222 =>
      Color(Expand2((s[0] >> 6) & 3), Expand2((s[0] >> 4) & 3), Expand2((s[0] >> 2) & 3), Expand2(s[0] & 3))
    case ARGB8565 => From565(Word(s[0], s[1]), s[2])
  }

  function Weigh(red: int, green: int, blue: int): (y: int)
    requires 0 <= red <= 255 && 0 <= green <= 255 && 0 <= blue <= 255
    ensures 0 <= y <= 255
  {
    (red * 77 + green * 150 + blue * 29 + 128) / 256
  }

  function Luminance(c: Color): bv8 {
    ToBits(Weigh(Value(c.red), Value(c.green), Value(c.blue)))
  }

  function To565(c: Color): bv16 {
    ((c.red >> 3) as bv16 << 11) | ((c.green >> 2) as bv16 << 5) | (c.blue >> 3) as bv16
  }

  function Bytes(v: bv16): seq<bv8> { [Low8(v), High8(v)] }

  function WritePixel(cf: Format, c: Color): (s: seq<bv8>)
    requires Readable(cf)
    ensures |s| == cf.Size()
  {
    match cf
    case L8 => [Luminance(c)]
    case A8 => [c.alpha]
    case AL88 => [Luminance(c), c.alpha]
    case RGB565 => Bytes(To565(c))
    case RGB565Swapped => Bytes(Swapped(To565(c)))
    case RGB888 => [c.blue, c.green, c.red]
    case XRGB8888 => [c.blue, c.green, c.red, 0xff]
    case ARGB8888 => [c.blue, c.green, c.red, c.alpha]
    case ARGB8888Pre =>
      [Premultiplied(c.blue, c.alpha), Premultiplied(c.green, c.alpha), Premultiplied(c.red, c.alpha), c.alpha]
    case ARGB1555 =>
      Bytes(((c.blue >> 3) as bv16 << 11) | ((c.green >> 3) as bv16 << 6) | ((c.red >> 3) as bv16 << 1) |
            (c.alpha >> 7) as bv16)
    case ARGB4444 =>
      Bytes(((c.blue >> 4) as bv16 << 12) | ((c.green >> 4) as bv16 << 8) | ((c.red >> 4) as bv16 << 4) |
            (c.alpha >> 4) as bv16)
    case ARGB2222 => [(c.blue & 0xc0) | ((c.green >> 2) & 0x30) | ((c.red >> 4) & 0x0c) | (c.alpha >> 6)]
    case ARGB8565 => Bytes(To565(c)) + [c.alpha]
  }

  /** Reading and writing a pixel in one format gives back its bytes; only the unused byte of
      XRGB8888 is set. For premultiplied pixels see PremultipliedSurvives. */
  lemma SelfConversion(cf: Format, s: seq<bv8>)
    requires Readable(cf) && |s| == cf.Size() && !cf.ARGB8888Pre?
    ensures WritePixel(cf, ReadPixel(cf, s)) == if cf.XRGB8888? then s[3 := 0xff] else s
  {
    hide Word, Swapped, From565, To565, Luminance, Bytes, Expand2, Expand4, Expand5, Expand6;
    match cf
    case L8 => GreyLuminance(s[0], 0xff);
    case AL88 => GreyLuminance(s[0], s[1]);
    case RGB565 => Kept565(s[0], s[1], 0xff);
    case RGB565Swapped =>
      SwappedWord(s[0], s[1]);
      SwappedWord(s[1], s[0]);
      Kept565(s[1], s[0], 0xff);
      Kept565(s[0], s[1], 0xff);
    case ARGB8565 => Kept565(s[0], s[1], s[2]);
    case ARGB1555 => Kept1555(s);
    case ARGB4444 => Kept4444(s);
    case ARGB2222 => Kept2222(s);
    case _ =>
  }

  lemma Kept1555(s: seq<bv8>)
    requires |s| == 2
    ensures WritePixel(ARGB1555, ReadPixel(ARGB1555, s)) == s
  {
  }

  lemma Kept4444(s: seq<bv8>)
    requires |s| == 2
    ensures WritePixel(ARGB4444, ReadPixel(ARGB4444, s)) == s
  {
  }

  lemma Kept2222(s: seq<bv8>)
    requires |s| == 1
    ensures WritePixel(ARGB2222, ReadPixel(ARGB2222, s)) == s
  {
  }

  lemma GreyLuminance(v: bv8, alpha: bv8)
    ensures Luminance(Color(v, v, v, alpha)) == v
  {
    hide Value, ToBits;
    SameBits(v, Weigh(Value(v), Value(v), Value(v)));
  }

  lemma Kept565(lo: bv8, hi: bv8, alpha: bv8)
    ensures To565(From565(Word(lo, hi), alpha)) == Word(lo, hi)
    ensures Bytes(Word(lo, hi)) == [lo, hi] && From565(Word(lo, hi), alpha).alpha == alpha
  {
  }

  lemma SwappedWord(lo: bv8, hi: bv8)
    ensures Swapped(Word(lo, hi)) == Word(hi, lo)
  {
  }

  /** An MPP RGB888 source has red first. */
  function Reordered(cf: Format, rgb: bool, c: Color): Color {
    if rgb && cf.RGB888? then Color(c.red, c.green, c.blue, c.alpha) else c
  }

  /** A conversion: source and destination format, and whether the source has red first. */
  datatype Conversion = Conversion(from: Format, to: Format, rgb: bool) {
    predicate Supported() { Readable(from) && Readable(to) }
  }

  function ScalarPixel(c: Conversion, s: seq<bv8>): (d: seq<bv8>)
    requires c.Supported() && |s| == c.from.Size()
    ensures |d| == c.to.Size()
  {
    WritePixel(c.to, Reordered(c.from, c.rgb, ReadPixel(c.from, s)))
  }

  // ---------------------------------------------------------------- lanes of rvv_expand_to_rgb

  /** The registers v4, v5, v6, v7 of one lane. */
  datatype Lane = Lane(v4: bv8, v5: bv8, v6: bv8, v7: bv8)

  predicate HasAlpha(cf: Format) {
    cf.A8? || cf.AL88? || cf.ARGB1555? || cf.ARGB4444? || cf.ARGB2222? || cf.ARGB8565?
  }

  predicate Expands(c: Conversion) {
    && (c.to.RGB888? || c.to.XRGB8888? || c.to.ARGB8888? || c.to.ARGB8888Pre?)
    && !(c.to.ARGB8888Pre? && HasAlpha(c.from))
    && (c.from.L8? || c.from.A8? || c.from.ARGB2222? || c.from.AL88? || c.from.RGB565? || c.from.RGB565Swapped? ||
        c.from.ARGB1555? || c.from.ARGB4444? || c.from.ARGB8565?)
  }

  /** Shifting left then right clears high bits; each line is one vector instruction. */
  function Lane565(v0: bv8, v1: bv8, v7: bv8): Lane {
    var v4 := v0 << 3;
    var v4 := v4 >> 3;
    var v5 := v0 >> 5;
    var v2 := v1 << 5;
    var v2 := v2 >> 5;
    var v2 := v2 << 3;
    var v5 := v5 | v2;
    var v6 := v1 >> 3;
    var v2 := v4;
    var v4 := v4 << 3;
    var v2 := v2 >> 2;
    var v4 := v4 | v2;
    var v2 := v5;
    var v5 := v5 << 2;
    var v2 := v2 >> 4;
    var v5 := v5 | v2;
    var v2 := v6;
    var v6 := v6 << 3;
    var v2 := v2 >> 2;
    var v6 := v6 | v2;
    Lane(v4, v5, v6, v7)
  }

  function Lane1555(v0: bv8, v1: bv8): Lane {
    var v6 := v0 >> 1;
    var v6 := v6 << 3;
    var v6 := v6 >> 3;
    var v5 := v0 >> 6;
    var v2 := v1 << 5;
    var v2 := v2 >> 5;
    var v2 := v2 << 2;
    var v5 := v5 | v2;
    var v4 := v1 >> 3;
    var v7 := v0 << 7;
    var v7 := v7 >> 7;
    var v7 := v7 * 255;
    var v2 := v4;
    var v4 := v4 << 3;
    var v2 := v2 >> 2;
    var v4 := v4 | v2;
    var v2 := v5;
    var v5 := v5 << 3;
    var v2 := v2 >> 2;
    var v5 := v5 | v2;
    var v2 := v6;
    var v6 := v6 << 3;
    var v2 := v2 >> 2;
    var v6 := v6 | v2;
    Lane(v4, v5, v6, v7)
  }

  function Lane4444(v0: bv8, v1: bv8): Lane {
    var v4 := v1 >> 4;
    var v5 := v1 << 4;
    var v5 := v5 >> 4;
    var v6 := v0 >> 4;
    var v7 := v0 << 4;
    var v7 := v7 >> 4;
    var v2 := v4;
    var v4 := v4 << 4;
    var v4 := v4 | v2;
    var v2 := v5;
    var v5 := v5 << 4;
    var v5 := v5 | v2;
    var v2 := v6;
    var v6 := v6 << 4;
    var v6 := v6 | v2;
    var v2 := v7;
    var v7 := v7 << 4;
    var v7 := v7 | v2;
    Lane(v4, v5, v6, v7)
  }

  function Lane2222(v0: bv8): Lane {
    var v4 := v0 >> 6;
    var v5 := v0 << 2;
    var v5 := v5 >> 6;
    var v6 := v0 << 4;
    var v6 := v6 >> 6;
    var v7 := v0 << 6;
    var v7 := v7 >> 6;
    Lane(v4 * 85, v5 * 85, v6 * 85, v7 * 85)
  }

  function ExpandLane(cf: Format, s: seq<bv8>): Lane
    requires Readable(cf) && |s| == cf.Size()
  {
    match cf
    case L8 => Lane(s[0], s[0], s[0], 0xff)
    case A8 => Lane(0xff, 0xff, 0xff, s[0])
    case AL88 => Lane(s[0], s[0], s[0], s[1])
    case RGB565 => Lane565(s[0], s[1], 0xff)
    case RGB565Swapped => Lane565(s[1], s[0], 0xff)
    case ARGB1555 => Lane1555(s[0], s[1])
    case ARGB4444 => Lane4444(s[0], s[1])
    case ARGB2222 => Lane2222(s[0])
    case ARGB8565 => Lane565(s[0], s[1], s[2])
    case _ => Lane(0, 0, 0, 0)
  }

  /** The segment store of three or four registers. */
  function StoreLane(to: Format, l: Lane): seq<bv8> {
    if to.RGB888? then [l.v4, l.v5, l.v6]
    else [l.v4, l.v5, l.v6, if to.XRGB8888? then 0xff else l.v7]
  }

  // ---------------------------------------------------------------- lanes of the other routines

  predicate Packs(c: Conversion) {
    && (c.from.RGB888? || c.from.XRGB8888? || c.from.ARGB8888?)
    && (c.to.RGB565? || c.to.RGB565Swapped? || c.to.ARGB1555? || c.to.ARGB4444? || c.to.ARGB2222? || c.to.ARGB8565?)
  }

  predicate PackedFormat(cf: Format) {
    cf.RGB888? || cf.XRGB8888? || cf.ARGB8888? || cf.ARGB8888Pre?
  }

  predicate ConvertsPacked(c: Conversion) {
    && PackedFormat(c.from) && PackedFormat(c.to)
    && (c.from.ARGB8888Pre? != c.to.ARGB8888Pre? ==> c.from.RGB888? || c.from.XRGB8888?)
  }

  /** The segment load of three or four registers. */
  function LoadLane(c: Conversion, s: seq<bv8>): Lane
    requires PackedFormat(c.from) && |s| == c.from.Size()
  {
    if c.from.RGB888? then
      if c.rgb then Lane(s[2], s[1], s[0], 0xff) else Lane(s[0], s[1], s[2], 0xff)
    else Lane(s[0], s[1], s[2], if c.from.XRGB8888? then 0xff else s[3])
  }

  function PackLane(to: Format, l: Lane): seq<bv8> {
    match to
    case ARGB1555 =>
      var v0 := l.v7 >> 7;
      var v0 := v0 | ((l.v6 >> 3) << 1);
      var v0 := v0 | ((l.v5 >> 3) << 6);
      var v1 := l.v5 >> 5;
      var v1 := v1 | ((l.v4 >> 3) << 3);
      [v0, v1]
    case ARGB4444 =>
      var v0 := l.v7 >> 4;
      var v0 := v0 | ((l.v6 >> 4) << 4);
      var v1 := l.v5 >> 4;
      var v1 := v1 | ((l.v4 >> 4) << 4);
      [v0, v1]
    case ARGB2222 =>
      var v0 := (l.v4 >> 6) << 6;
      var v0 := v0 | ((l.v5 >> 6) << 4);
      var v0 := v0 | ((l.v6 >> 6) << 2);
      var v0 := v0 | (l.v7 >> 6);
      [v0]
    case _ =>
      var v0 := l.v4 >> 3;
      var v0 := v0 | ((l.v5 >> 2) << 5);
      var v1 := l.v5 >> 5;
      var v1 := v1 | ((l.v6 >> 3) << 3);
      if to.RGB565Swapped? then [v1, v0] else if to.ARGB8565? then [v0, v1, l.v7] else [v0, v1]
  }

  /** What the routine that takes the conversion stores for one pixel. */
  function VectorPixel(c: Conversion, s: seq<bv8>): seq<bv8>
    requires c.Supported() && |s| == c.from.Size() && (Expands(c) || Packs(c) || ConvertsPacked(c))
  {
    if Expands(c) then StoreLane(c.to, ExpandLane(c.from, s))
    else if Packs(c) then PackLane(c.to, LoadLane(c, s))
    else StoreLane(c.to, LoadLane(c, s))
  }

  // ---------------------------------------------------------------- lanes agree with the reference

  function ColorOf(l: Lane): Color { Color(l.v4, l.v5, l.v6, l.v7) }

  lemma Lane565Reads(v0: bv8, v1: bv8, alpha: bv8)
    ensures ColorOf(Lane565(v0, v1, alpha)) == From565(Word(v0, v1), alpha)
  {
  }

  lemma ExpandLaneReads(cf: Format, s: seq<bv8>)
    requires cf.L8? || cf.A8? || cf.ARGB2222? || cf.AL88? || cf.RGB565? || cf.RGB565Swapped? || cf.ARGB1555? ||
             cf.ARGB4444? || cf.ARGB8565?
    requires |s| == cf.Size()
    ensures ColorOf(ExpandLane(cf, s)) == ReadPixel(cf, s)
  {
    match cf
    case RGB565 => Lane565Reads(s[0], s[1], 0xff);
    case RGB565Swapped => SwappedWord(s[0], s[1]); Lane565Reads(s[1], s[0], 0xff);
    case ARGB8565 => Lane565Reads(s[0], s[1], s[2]);
    case _ =>
  }

  lemma PackLaneWrites(to: Format, l: Lane)
    requires to.RGB565? || to.RGB565Swapped? || to.ARGB1555? || to.ARGB4444? || to.ARGB2222? || to.ARGB8565?
    ensures PackLane(to, l) == WritePixel(to, ColorOf(l))
  {
  }

  /** Premultiplying an opaque colour changes nothing. */
  lemma OpaquePremultiplied(c: bv8)
    ensures Premultiplied(c, 0xff) == c
  {
    hide Value, ToBits;
    ValueEnds(0xff);
    SameBits(c, Multiplied(Value(c), 255));
  }

  lemma StoreLaneWrites(to: Format, l: Lane)
    requires PackedFormat(to) && (to.ARGB8888Pre? ==> l.v7 == 0xff)
    ensures StoreLane(to, l) == WritePixel(to, ColorOf(l))
  {
    if to.ARGB8888Pre? {
      OpaquePremultiplied(l.v4);
      OpaquePremultiplied(l.v5);
      OpaquePremultiplied(l.v6);
    }
  }

  lemma LoadLaneReads(c: Conversion, s: seq<bv8>)
    requires PackedFormat(c.from) && !c.from.ARGB8888Pre? && |s| == c.from.Size()
    ensures ColorOf(LoadLane(c, s)) == Reordered(c.from, c.rgb, ReadPixel(c.from, s))
  {
  }

  /** A pixel is the same whether a vector lane or the scalar code converts it, for every
      conversion a routine takes, except between two premultiplied formats. */
  lemma PixelAgrees(c: Conversion, s: seq<bv8>)
    requires c.Supported() && |s| == c.from.Size() && (Expands(c) || Packs(c) || ConvertsPacked(c))
    requires !(c.from.ARGB8888Pre? && c.to.ARGB8888Pre?)
    ensures VectorPixel(c, s) == ScalarPixel(c, s)
  {
    if Expands(c) {
      ExpandLaneReads(c.from, s);
      if !HasAlpha(c.from) { OpaqueLane(c.from, s); }
      StoreLaneWrites(c.to, ExpandLane(c.from, s));
    } else {
      LoadLaneReads(c, s);
      if Packs(c) { PackLaneWrites(c.to, LoadLane(c, s)); } else { StoreLaneWrites(c.to, LoadLane(c, s)); }
    }
  }

  lemma OpaqueLane(cf: Format, s: seq<bv8>)
    requires cf.L8? || cf.RGB565? || cf.RGB565Swapped?
    requires |s| == cf.Size()
    ensures ExpandLane(cf, s).v7 == 0xff
  {
  }

  // ---------------------------------------------------------------- premultiplied pixels

  /** Division by alpha, rounded to the nearest and limited to 255: what c must be multiplied back from. */
  lemma DivisionRounds(c: int, a: int)
    requires 0 <= c <= 255 && 0 < a <= 255
    ensures var v := (c * 255 + a / 2) / a;
            && (c <= a ==> v <= 255 && c * 510 - a <= 2 * (v * a) <= c * 510 + a)
            && (c > a ==> v >= 255)
  {
    var n := c * 255 + a / 2;
    var v := n / a;
    Quotient(n, a, v);
    if c <= a { AtMost255(n, a, v); } else { AtLeast255(n, a, v); }
  }

  lemma LessByFactor(v: int, a: int, w: int)
    requires 0 < a
    ensures v * a < w * a <==> v < w
  {
  }

  lemma AtMost255(n: int, a: int, v: int)
    requires 0 < a && v * a <= n < 256 * a
    ensures v <= 255
  {
    LessByFactor(v, a, 256);
  }

  lemma AtLeast255(n: int, a: int, v: int)
    requires 0 < a && 255 * a <= n < v * a + a
    ensures v >= 255
  {
    LessByFactor(254, a, v);
  }

  lemma MultipliedBack(c: int, a: int)
    requires 0 <= c <= 255 && 0 < a <= 255
    ensures Multiplied(Divided(c, a), a) == c <==> c <= a
    ensures c <= a ==> c * 510 - a <= 2 * (Divided(c, a) * a) <= c * 510 + a
    ensures c > a ==> Divided(c, a) == 255
  {
    DivisionRounds(c, a);
    var p := Divided(c, a) * a;
    if c <= a {
      assert 255 * c <= p + 127 < 255 * c + 255;
    } else {
      assert p == 255 * a;
      assert (p + 127) / 255 == a;
    }
  }

  /** Dividing by alpha and multiplying again gives a channel back exactly if it is at most alpha. */
  lemma UnmultipliedBack(c: bv8, a: bv8)
    requires a != 0
    ensures Premultiplied(Unmultiplied(c, a), a) == c <==> Value(c) <= Value(a)
  {
    hide Multiplied, Divided, Value, ToBits;
    ValueEnds(a);
    var v := Divided(Value(c), Value(a));
    ValueOfBits(v);
    SameBits(c, Multiplied(v, Value(a)));
    MultipliedBack(Value(c), Value(a));
  }

  /** Reading a premultiplied channel: the nearest quotient, and full where it exceeds alpha. */
  lemma UnmultipliedIsNearest(c: bv8, a: bv8)
    requires a != 0
    ensures var v, i, j := Value(Unmultiplied(c, a)), Value(c), Value(a);
            if i <= j then i * 510 - j <= 2 * (v * j) <= i * 510 + j else v == 255
  {
    hide Divided, Value, ToBits;
    ValueEnds(a);
    ValueOfBits(Divided(Value(c), Value(a)));
    MultipliedBack(Value(c), Value(a));
  }

  /** Writing one: the nearest product. */
  lemma PremultipliedIsNearest(c: bv8, a: bv8)
    ensures var p, product := Value(Premultiplied(c, a)), Value(c) * Value(a);
            product - 127 <= 255 * p <= product + 127
  {
    hide Multiplied, Value, ToBits;
    ValueOfBits(Multiplied(Value(c), Value(a)));
    ProductRounds(Value(c), Value(a));
  }

  lemma ProductRounds(c: int, a: int)
    requires 0 <= c <= 255 && 0 <= a <= 255
    ensures c * a - 127 <= 255 * Multiplied(c, a) <= c * a + 127
  {
    ProductFits(c, a);
    Quotient(c * a + 127, 255, Multiplied(c, a));
  }

  /** A premultiplied pixel is proper if no channel exceeds alpha. */
  predicate Proper(s: seq<bv8>)
    requires |s| == 4
  {
    Value(s[0]) <= Value(s[3]) && Value(s[1]) <= Value(s[3]) && Value(s[2]) <= Value(s[3])
  }

  lemma ChannelSurvives(c: bv8, a: bv8)
    ensures Restored(c, a) == c <==> Value(c) <= Value(a)
  {
    hide Unmultiplied, Premultiplied, Value;
    ValueEnds(a);
    ValueEnds(c);
    if a == 0xff { OpaquePremultiplied(c); }
    else if a == 0 { ClearPremultiplied(c); }
    else { UnmultipliedBack(c, a); }
  }

  lemma ClearPremultiplied(c: bv8)
    ensures Premultiplied(c, 0) == 0
  {
    hide Value, ToBits;
    ValueEnds(0);
    SameBits(0, Multiplied(Value(c), Value(0)));
  }

  function Restored(c: bv8, a: bv8): bv8 {
    Premultiplied(if a == 0 || a == 0xff then c else Unmultiplied(c, a), a)
  }

  lemma PreBytes(s: seq<bv8>)
    requires |s| == 4
    ensures WritePixel(ARGB8888Pre, ReadPixel(ARGB8888Pre, s))
         == [Restored(s[0], s[3]), Restored(s[1], s[3]), Restored(s[2], s[3]), s[3]]
  {
    hide Unmultiplied, Premultiplied;
  }

  /** Reading and writing a premultiplied pixel gives back its bytes exactly if it is proper. */
  lemma PremultipliedSurvives(s: seq<bv8>)
    requires |s| == 4
    ensures WritePixel(ARGB8888Pre, ReadPixel(ARGB8888Pre, s)) == s <==> Proper(s)
  {
    hide Unmultiplied, Premultiplied;
    ChannelSurvives(s[0], s[3]);
    ChannelSurvives(s[1], s[3]);
    ChannelSurvives(s[2], s[3]);
    var r := WritePixel(ARGB8888Pre, ReadPixel(ARGB8888Pre, s));
    PreBytes(s);
    assert r == s <==> r[0] == s[0] && r[1] == s[1] && r[2] == s[2];
  }

  /** The excluded pair agrees exactly on the proper pixels: the vector routine copies a pixel and the
      scalar code reads and writes it. The dispatch copies equal formats before it comes to a routine. */
  lemma PremultipliedDiffers(s: seq<bv8>, rgb: bool)
    requires |s| == 4
    ensures var c := Conversion(ARGB8888Pre, ARGB8888Pre, rgb);
            ConvertsPacked(c) && (VectorPixel(c, s) == ScalarPixel(c, s) <==> Proper(s))
  {
    hide ReadPixel, WritePixel;
    PremultipliedSurvives(s);
  }

  // ---------------------------------------------------------------- what the formats mean

  /** Five and six bits are spread over eight: both ends exact, and never a full step of the narrow
      scale away from proportional. Two and four bits are exactly proportional. */
  lemma ExpandedIsProportional(v: bv8)
    ensures v < 4 ==> 3 * (Expand2(v) as int) == 255 * (v as int)
    ensures v < 16 ==> 15 * (Expand4(v) as int) == 255 * (v as int)
    ensures v < 32 ==> 255 * (v as int) - 31 < 31 * (Expand5(v) as int) < 255 * (v as int) + 31
    ensures v < 64 ==> 255 * (v as int) - 63 < 63 * (Expand6(v) as int) < 255 * (v as int) + 63
    ensures Expand5(0) == Expand6(0) == 0 && Expand5(31) == Expand6(63) == 255
  {
    Narrow5(v);
    Narrow6(v);
    Narrow24(v);
  }

  lemma Narrow5(v: bv8)
    ensures v < 32 ==> 255 * (v as int) - 31 < 31 * (Expand5(v) as int) < 255 * (v as int) + 31
  {
    if v < 32 {
      var e := Expand5(v);
      assert e == 8 * v + v / 4;
      assert e as int == 8 * (v as int) + (v as int) / 4;
    }
  }

  lemma Narrow6(v: bv8)
    ensures v < 64 ==> 255 * (v as int) - 63 < 63 * (Expand6(v) as int) < 255 * (v as int) + 63
  {
    if v < 64 {
      var e := Expand6(v);
      assert e == 4 * v + v / 16;
      assert e as int == 4 * (v as int) + (v as int) / 16;
    }
  }

  lemma Narrow24(v: bv8)
    ensures v < 4 ==> 3 * (Expand2(v) as int) == 255 * (v as int)
    ensures v < 16 ==> 15 * (Expand4(v) as int) == 255 * (v as int)
  {
    if v < 16 { assert Expand4(v) == 17 * v && (17 * v) as int == 17 * (v as int); }
    if v < 4 { assert (v * 85) as int == 85 * (v as int); }
  }

  /** Luminance is within one of 0.299 red, 0.587 green and 0.114 blue, the weights of
      Recommendation ITU-R BT.601. */
  lemma LuminanceIsBt601(c: Color)
    ensures var y := 299 * Value(c.red) + 587 * Value(c.green) + 114 * Value(c.blue);
            y - 1000 < 1000 * Value(Luminance(c)) < y + 1000
  {
    hide Weigh, Value, ToBits;
    ValueOfBits(Weigh(Value(c.red), Value(c.green), Value(c.blue)));
    WeighsLikeBt601(Value(c.red), Value(c.green), Value(c.blue));
  }

  lemma WeighsLikeBt601(red: int, green: int, blue: int)
    requires 0 <= red <= 255 && 0 <= green <= 255 && 0 <= blue <= 255
    ensures var y := 299 * red + 587 * green + 114 * blue;
            y - 1000 < 1000 * Weigh(red, green, blue) < y + 1000
  {
  }

  /** Where the fields of the packed formats lie, high bits first; grey and alpha formats say nothing
      about the other channels. */
  lemma FieldsOf(lo: bv8, hi: bv8)
    ensures var v, c := Word(lo, hi), ReadPixel(RGB565, [lo, hi]);
            v >> 11 == (c.red >> 3) as bv16 && (v >> 5) & 63 == (c.green >> 2) as bv16 && v & 31 == (c.blue >> 3) as bv16
    ensures var v, c := Word(lo, hi), ReadPixel(ARGB1555, [lo, hi]);
            && v >> 11 == (c.blue >> 3) as bv16 && (v >> 6) & 31 == (c.green >> 3) as bv16
            && (v >> 1) & 31 == (c.red >> 3) as bv16 && v & 1 == (c.alpha >> 7) as bv16
    ensures var v, c := Word(lo, hi), ReadPixel(ARGB4444, [lo, hi]);
            && v >> 12 == (c.blue >> 4) as bv16 && (v >> 8) & 15 == (c.green >> 4) as bv16
            && (v >> 4) & 15 == (c.red >> 4) as bv16 && v & 15 == (c.alpha >> 4) as bv16
    ensures var c := ReadPixel(ARGB2222, [lo]);
            && lo >> 6 == c.blue >> 6 && (lo >> 4) & 3 == c.green >> 6
            && (lo >> 2) & 3 == c.red >> 6 && lo & 3 == c.alpha >> 6
    ensures ReadPixel(L8, [lo]) == Color(lo, lo, lo, 0xff) && ReadPixel(A8, [lo]) == Color(0xff, 0xff, 0xff, lo)
    ensures ReadPixel(AL88, [lo, hi]) == Color(lo, lo, lo, hi)
  {
    Fields565(lo, hi);
    Fields1555(lo, hi);
    Fields4444(lo, hi);
  }

  lemma Fields565(lo: bv8, hi: bv8)
    ensures var v, c := Word(lo, hi), ReadPixel(RGB565, [lo, hi]);
            v >> 11 == (c.red >> 3) as bv16 && (v >> 5) & 63 == (c.green >> 2) as bv16 && v & 31 == (c.blue >> 3) as bv16
  {
  }

  lemma Fields1555(lo: bv8, hi: bv8)
    ensures var v, c := Word(lo, hi), ReadPixel(ARGB1555, [lo, hi]);
            && v >> 11 == (c.blue >> 3) as bv16 && (v >> 6) & 31 == (c.green >> 3) as bv16
            && (v >> 1) & 31 == (c.red >> 3) as bv16 && v & 1 == (c.alpha >> 7) as bv16
  {
  }

  lemma Fields4444(lo: bv8, hi: bv8)
    ensures var v, c := Word(lo, hi), ReadPixel(ARGB4444, [lo, hi]);
            && v >> 12 == (c.blue >> 4) as bv16 && (v >> 8) & 15 == (c.green >> 4) as bv16
            && (v >> 4) & 15 == (c.red >> 4) as bv16 && v & 15 == (c.alpha >> 4) as bv16
  {
  }

  /** A source with red first has its bytes reversed, whichever routine converts it. */
  lemma RedFirst(s: seq<bv8>)
    requires |s| == 3
    ensures var c := Conversion(RGB888, RGB888, true);
            ScalarPixel(c, s) == [s[2], s[1], s[0]] && ConvertsPacked(c) && VectorPixel(c, s) == [s[2], s[1], s[0]]
  {
  }
}
