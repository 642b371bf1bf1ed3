/** Filling and blending a colour: the reference for one pixel, and what each vector lane computes.
    Lane arithmetic is on registers of 8 and 16 bits, so every result is reduced to its width. */
module Blend {
  import opened Options
  import opened Bytes

  datatype Color = Color(blue: bv8, green: bv8, red: bv8)

  /** A blend operation. Without a mask the mix is the opacity, and a plain fill overwrites. The
      largest opacity that still blends, LVGL's LV_OPA_MAX less one, belongs to another library. */
  datatype Mixing = Mixing(size: nat, color: Color, opa: bv8, fill: bool, mask: Option<seq<bv8>>, combine: bool,
                           opaMax: nat)
  {
    predicate Valid() {
      && (size == 3 || size == 4) && 1 <= opaMax <= 255
      && (fill ==> mask.None?)
    }

    function Mask(): seq<bv8> {
      if mask.Some? then mask.value else []
    }

    /** How far the mask advances with a pixel. */
    function Step(): nat {
      if mask.Some? then 1 else 0
    }
  }

  // ---------------------------------------------------------------- the reference

  lemma AtMost(x: byte, y: byte)
    ensures 0 <= x * y <= 255 * y
  {
  }

  lemma ProductFits(x: byte, y: byte)
    ensures 0 <= x * y <= 65025
  {
    AtMost(x, y);
  }

  /** The accumulator never exceeds 16 bits. */
  lemma WeightedFits(c: byte, d: byte, mix: byte)
    ensures 0 <= mix * c <= 65025 && 0 <= d * (255 - mix)
    ensures mix * c + d * (255 - mix) <= 65025
  {
    AtMost(c, mix);
    AtMost(d, 255 - mix);
  }

  function Scaled(x: byte, y: byte): byte {
    ProductFits(x, y);
    x * y / 256
  }

  function Weighted(c: byte, d: byte, mix: byte): byte {
    WeightedFits(c, d, mix);
    (mix * c + d * (255 - mix)) / 256
  }

  /** The blend lies between the two, or one below: the weights sum to 255 and not to 256. */
  lemma BlendLiesBetween(c: byte, d: byte, mix: byte)
    ensures var lo, hi := if c < d then c else d, if c < d then d else c;
            lo - 1 <= Weighted(c, d, mix) <= hi
  {
    var lo, hi := if c < d then c else d, if c < d then d else c;
    Scale(mix, c, lo, hi);
    Scale(255 - mix, d, lo, hi);
    assert 255 * lo == mix * lo + (255 - mix) * lo;
    assert 255 * hi == mix * hi + (255 - mix) * hi;
    assert 255 * lo <= mix * c + d * (255 - mix) <= 255 * hi;
    WeightedFits(c, d, mix);
  }

  lemma Scale(w: byte, x: byte, lo: byte, hi: byte)
    requires lo <= x <= hi
    ensures w * lo <= w * x <= w * hi
  {
  }

  /** The more mix, the nearer to the colour: from the destination at no mix to the colour at full
      mix, and either or one below at those ends. */
  lemma BlendMovesToColor(c: byte, d: byte, mix: byte, more: byte)
    requires mix <= more
    ensures d <= c ==> Weighted(c, d, mix) <= Weighted(c, d, more)
    ensures c <= d ==> Weighted(c, d, more) <= Weighted(c, d, mix)
    ensures Weighted(c, d, 0) == if d == 0 then 0 else d - 1
    ensures Weighted(c, d, 255) == if c == 0 then 0 else c - 1
  {
    WeightedFits(c, d, mix);
    WeightedFits(c, d, more);
    WeightedFits(c, d, 0);
    WeightedFits(c, d, 255);
    WeightedFrom(c, d, mix);
    WeightedFrom(c, d, more);
    if d <= c { Scaling(mix, more, c - d); } else { Scaling(mix, more, d - c); }
  }

  lemma WeightedFrom(c: byte, d: byte, mix: byte)
    ensures mix * c + d * (255 - mix) == 255 * d + mix * (c - d) == 255 * d - mix * (d - c)
  {
  }

  lemma Scaling(mix: byte, more: byte, x: byte)
    requires mix <= more
    ensures mix * x <= more * x
  {
  }

  /** Mask and opacity together cover no more than either, more with more of either, and at full
      opacity the mask or one less. */
  lemma CombinedMix(x: byte, y: byte, more: byte)
    requires y <= more
    ensures Scaled(x, y) <= x && Scaled(x, y) <= y
    ensures Scaled(x, y) <= Scaled(x, more) && Scaled(y, x) <= Scaled(more, x)
    ensures Scaled(x, 255) == Scaled(255, x) == if x == 0 then 0 else x - 1
  {
    ProductFits(x, y);
    ProductFits(x, more);
    AtMost(x, y);
    AtMost(y, x);
    Scaling(y, more, x);
  }

  /** How strongly the colour covers a pixel. */
  function Mix(b: Mixing, at: nat): bv8
    requires at + b.Step() <= |b.Mask()|
  {
    if b.mask.None? then b.opa
    else if b.combine then Scaled(b.Mask()[at] as int, b.opa as int) as bv8
    else b.Mask()[at]
  }

  function ReferenceChannel(b: Mixing, c: bv8, d: bv8, mix: bv8): bv8 {
    if mix == 0 then d
    else if mix as int >= b.opaMax then c
    else Weighted(c as int, d as int, mix as int) as bv8
  }

  function ReferencePixel(b: Mixing, d: seq<bv8>, mix: bv8): (r: seq<bv8>)
    requires b.Valid() && |d| == b.size
    ensures |r| == b.size
  {
    [ReferenceChannel(b, b.color.blue, d[0], mix), ReferenceChannel(b, b.color.green, d[1], mix),
     ReferenceChannel(b, b.color.red, d[2], mix)] + d[3..]
  }

  function FilledPixel(b: Mixing): (r: seq<bv8>)
    requires b.Valid()
    ensures |r| == b.size
  {
    [b.color.blue, b.color.green, b.color.red] + if b.size == 4 then [0xff] else []
  }

  /** The opacity covers where there is no mask, the mask's byte where it is not combined, and less
      than both where it is. */
  lemma MixCovers(b: Mixing, at: nat)
    requires at + b.Step() <= |b.Mask()|
    ensures b.mask == None ==> Mix(b, at) == b.opa
    ensures b.mask != None && !b.combine ==> Mix(b, at) == b.mask.value[at]
    ensures b.mask != None && b.combine ==>
              Mix(b, at) as int <= b.opa as int && Mix(b, at) as int <= b.mask.value[at] as int
  {
    hide Scaled;
    if b.mask != None {
      var x := Scaled(b.mask.value[at] as int, b.opa as int);
      CombinedMix(b.mask.value[at] as int, b.opa as int, 255);
      ValueOfBits(x);
    }
  }

  /** No cover leaves a pixel as it is; full cover makes it the colour, blue first, and leaves a
      fourth byte alone; a fill differs from that only in making the fourth byte opaque. */
  lemma CoverEnds(b: Mixing, d: seq<bv8>, mix: bv8)
    requires b.Valid() && |d| == b.size && b.opaMax <= mix as int
    ensures ReferencePixel(b, d, 0) == d
    ensures ReferencePixel(b, d, mix)[..3] == FilledPixel(b)[..3] == [b.color.blue, b.color.green, b.color.red]
    ensures b.size == 4 ==> ReferencePixel(b, d, mix)[3] == d[3] && FilledPixel(b)[3] == 255
  {
    hide Weighted;
    assert d == [d[0], d[1], d[2]] + d[3..];
  }

  // ---------------------------------------------------------------- the lanes

  /** Multiply two 8-bit lanes into 16 bits. */
  function WideMultiply(x: byte, y: byte): (r: int)
    ensures 0 <= r
  {
    (x * y) % 0x10000
  }

  /** Multiply and add to a 16-bit accumulator. */
  function MultiplyAdd(acc: int, x: byte, y: byte): (r: int)
    ensures 0 <= r
  {
    (acc + x * y) % 0x10000
  }

  /** Shift a 16-bit lane right by eight and keep eight bits. */
  function Narrow(x: int): byte
    requires 0 <= x
  {
    (x / 256) % 256
  }

  function MixLane(b: Mixing, at: nat): bv8
    requires at + b.Step() <= |b.Mask()|
  {
    if b.mask.None? then b.opa
    else
      var v16 := b.Mask()[at];
      if b.combine then Narrow(WideMultiply(v16 as int, b.opa as int)) as bv8 else v16
  }

  function WeightedLane(c: byte, d: byte, v16: byte): byte {
    var v18 := 255 - v16;
    var v20 := WideMultiply(v16, c);
    var v20 := MultiplyAdd(v20, d, v18);
    Narrow(v20)
  }

  /** The two merges: untouched where the mix is nothing, the colour where it exceeds the threshold. */
  function ChannelLane(b: Mixing, c: bv8, d: bv8, v16: bv8): bv8 {
    var v24 := WeightedLane(c as int, d as int, v16 as int) as bv8;
    var v24 := if v16 == 0 then d else v24;
    if v16 as int > b.opaMax - 1 then c else v24
  }

  function MixPixelLane(b: Mixing, d: seq<bv8>, v16: bv8): (r: seq<bv8>)
    requires b.Valid() && |d| == b.size
    ensures |r| == b.size
  {
    [ChannelLane(b, b.color.blue, d[0], v16), ChannelLane(b, b.color.green, d[1], v16),
     ChannelLane(b, b.color.red, d[2], v16)] + if b.size == 4 then [d[3]] else []
  }

  /** The colour as one 32-bit word with an opaque alpha byte. */
  function Word(c: Color): bv32 {
    0xff00_0000 | ((c.red as bv32) << 16) | ((c.green as bv32) << 8) | (c.blue as bv32)
  }

  function ByteOf(word: bv32, shift: nat): bv8
    requires shift <= 24
  {
    ((word >> shift) & 0xff) as bv8
  }

  /** A 32-bit store, low byte first, for four-byte pixels at an aligned address. */
  function WordStore(word: bv32): (r: seq<bv8>)
    ensures |r| == 4
  {
    [ByteOf(word, 0), ByteOf(word, 8), ByteOf(word, 16), ByteOf(word, 24)]
  }

  /** The segment store of four planes at any other address. Each register takes the low byte of a
      value shifted down, alpha the whole shifted value. */
  function FourPlanes(word: bv32): (r: seq<bv8>)
    ensures |r| == 4
  {
    var blue, green, red, alpha := word & 0xff, (word >> 8) & 0xff, (word >> 16) & 0xff, word >> 24;
    [blue as bv8, green as bv8, red as bv8, alpha as bv8]
  }

  /** The segment store of three planes. */
  function ThreePlanes(word: bv32): (r: seq<bv8>)
    ensures |r| == 3
  {
    var blue, green, red := word & 0xff, (word >> 8) & 0xff, (word >> 16) & 0xff;
    [blue as bv8, green as bv8, red as bv8]
  }

  function FillLane(b: Mixing, aligned: bool): (r: seq<bv8>)
    requires b.Valid()
    ensures |r| == b.size
  {
    if b.size == 4 && aligned then WordStore(Word(b.color))
    else if b.size == 4 then FourPlanes(Word(b.color))
    else ThreePlanes(Word(b.color))
  }

  // ---------------------------------------------------------------- they agree

  lemma ScaledAgrees(x: byte, y: byte)
    ensures WideMultiply(x, y) == x * y
    ensures Narrow(WideMultiply(x, y)) == Scaled(x, y)
  {
    ProductFits(x, y);
  }

  lemma MixAgrees(b: Mixing, at: nat)
    requires at + b.Step() <= |b.Mask()|
    ensures MixLane(b, at) == Mix(b, at)
  {
    hide WideMultiply, Narrow, Scaled;
    if b.mask.Some? { ScaledAgrees(b.Mask()[at] as int, b.opa as int); }
  }

  lemma NoWrap(p: int, q: int)
    requires 0 <= p && 0 <= q && p + q <= 65025
    ensures (p % 0x10000 + q) % 0x10000 == p + q
    ensures ((p + q) / 256) % 256 == (p + q) / 256
  {
  }

  /** No wrap-around: the 16-bit lane holds the exact sum, and eight bits hold its high byte. */
  lemma WeightedAgrees(c: byte, d: byte, mix: byte)
    ensures MultiplyAdd(WideMultiply(mix, c), d, 255 - mix) == mix * c + d * (255 - mix)
    ensures WeightedLane(c, d, mix) == Weighted(c, d, mix)
  {
    WeightedFits(c, d, mix);
    NoWrap(mix * c, d * (255 - mix));
  }

  lemma ChannelAgrees(b: Mixing, c: bv8, d: bv8, mix: bv8)
    requires b.Valid()
    ensures ChannelLane(b, c, d, mix) == ReferenceChannel(b, c, d, mix)
  {
    hide WeightedLane, Weighted;
    WeightedAgrees(c as int, d as int, mix as int);
  }

  lemma MixPixelAgrees(b: Mixing, d: seq<bv8>, mix: bv8)
    requires b.Valid() && |d| == b.size
    ensures MixPixelLane(b, d, mix) == ReferencePixel(b, d, mix)
  {
    hide ChannelLane, ReferenceChannel;
    ChannelAgrees(b, b.color.blue, d[0], mix);
    ChannelAgrees(b, b.color.green, d[1], mix);
    ChannelAgrees(b, b.color.red, d[2], mix);
    assert d[3..] == if b.size == 4 then [d[3]] else [];
  }

  lemma WordParts(c: Color)
    ensures ByteOf(Word(c), 0) == c.blue && ByteOf(Word(c), 8) == c.green
    ensures ByteOf(Word(c), 16) == c.red && ByteOf(Word(c), 24) == 0xff
  {
  }

  /** The three kinds of store write the same bytes, wherever a pixel lies. */
  lemma FillAgrees(b: Mixing, aligned: bool)
    requires b.Valid()
    ensures FillLane(b, aligned) == FilledPixel(b)
  {
    WordParts(b.color);
    PlanesAgree(Word(b.color));
    hide Word, ByteOf, FourPlanes, ThreePlanes;
  }

  lemma PlanesAgree(word: bv32)
    ensures FourPlanes(word) == [ByteOf(word, 0), ByteOf(word, 8), ByteOf(word, 16), ByteOf(word, 24)]
    ensures ThreePlanes(word) == [ByteOf(word, 0), ByteOf(word, 8), ByteOf(word, 16)]
  {
    assert word >> 24 == (word >> 24) & 0xff;
    assert word >> 0 == word;
  }
}
