/** The entry points of the vector blender. */
module RvvBlend {
  import opened Options
  import opened Raster
  import B = Blend

  const MIN_ROW_PIXELS := 8

  /** The fill descriptor. Without a destination buffer, or without a descriptor, nothing is done. */
  datatype Descriptor = Descriptor(w: int, h: int, to: View, color: B.Color, opa: bv8, mask: Option<seq<bv8>>,
                                   maskStride: nat, opaMax: nat)

  datatype Outcome = Done | Invalid

  predicate CanHandle(enabled: bool, dsc: Option<Descriptor>, dest: array?<bv8>, size: nat) {
    && enabled && dsc.Some? && dest != null
    && dsc.value.w >= MIN_ROW_PIXELS && dsc.value.h > 0 && (size == 3 || size == 4)
  }

  function Filling(dsc: Descriptor, size: nat): Job {
    Job.Blend(B.Mixing(size, dsc.color, dsc.opa, true, None, false, dsc.opaMax))
  }

  function Mixture(dsc: Descriptor, size: nat, masked: bool, combine: bool): Job {
    Job.Blend(B.Mixing(size, dsc.color, dsc.opa, false, if masked then dsc.mask else None, combine, dsc.opaMax))
  }

  /** Where the mask starts; without one the offset stays where it is. */
  function MaskView(dsc: Descriptor, masked: bool): View {
    if masked && dsc.mask.Some? then View(0, dsc.maskStride) else View(0, 0)
  }

  predicate Covered(dsc: Descriptor, j: Job, length: nat, mask: View)
    requires dsc.w >= 0 && dsc.h >= 0
  {
    1 <= dsc.opaMax <= 255 && Fits(j, length, dsc.to, mask, dsc.w, dsc.h)
  }

  /** The rectangle of the descriptor after the job, pixel by pixel. */
  function Painted(j: Job, dsc: Descriptor, d: seq<bv8>, mask: View): (r: seq<bv8>)
    requires j.Valid() && dsc.w >= 0 && dsc.h >= 0
    ensures |r| == |d|
  {
    Image(j, d, dsc.to, mask, dsc.w, dsc.h)
  }

  /** Overwrite a rectangle with an opaque colour. */
  method FillColor(enabled: bool, dsc: Option<Descriptor>, dest: array?<bv8>, size: nat) returns (r: Outcome)
    requires CanHandle(enabled, dsc, dest, size) ==>
               Covered(dsc.value, Filling(dsc.value, size), dest.Length, View(0, 0))
    modifies dest
    ensures r.Done? <==> CanHandle(enabled, dsc, dest, size)
    ensures r.Done? ==> dest != null
    ensures r.Done? ==> dest[..] == Painted(Filling(dsc.value, size), dsc.value, old(dest[..]), View(0, 0))
    ensures r.Invalid? && dest != null ==> dest[..] == old(dest[..])
  {
    hide Fits, Image;
    if !CanHandle(enabled, dsc, dest, size) { return Invalid; }
    VectorRows(Filling(dsc.value, size), dest, dsc.value.to, View(0, 0), dsc.value.w, dsc.value.h);
    return Done;
  }

  /** Blend a colour into a rectangle: with its opacity alone, with a mask, or with both. */
  method MixColor(enabled: bool, dsc: Option<Descriptor>, dest: array?<bv8>, size: nat, masked: bool, combine: bool)
    returns (r: Outcome)
    requires CanHandle(enabled, dsc, dest, size) ==>
               Covered(dsc.value, Mixture(dsc.value, size, masked, combine), dest.Length, MaskView(dsc.value, masked))
    modifies dest
    ensures r.Done? <==> CanHandle(enabled, dsc, dest, size)
    ensures r.Done? ==> dest != null
    ensures r.Done? ==> dest[..] == Painted(Mixture(dsc.value, size, masked, combine), dsc.value, old(dest[..]),
                                            MaskView(dsc.value, masked))
    ensures r.Invalid? && dest != null ==> dest[..] == old(dest[..])
  {
    hide Fits, Image;
    if !CanHandle(enabled, dsc, dest, size) { return Invalid; }
    VectorRows(Mixture(dsc.value, size, masked, combine), dest, dsc.value.to, MaskView(dsc.value, masked),
               dsc.value.w, dsc.value.h);
    return Done;
  }

  /** The mix that belongs to a pixel: the opacity, the mask's byte, or their product. */
  function MixAt(dsc: Descriptor, masked: bool, combine: bool, x: nat, y: nat): bv8 {
    var at := View(0, dsc.maskStride).Pixel(x, y, 1);
    if !masked || dsc.mask.None? || at >= |dsc.mask.value| then dsc.opa
    else if combine then B.Scaled(dsc.mask.value[at] as int, dsc.opa as int) as bv8
    else dsc.mask.value[at]
  }

  /** The blended image equals the pixel-by-pixel reference for every size, stride, mask, opacity
      and strip length: each pixel is blended with its own mix, and bytes outside the rows stay. */
  lemma BlendedImage(dsc: Descriptor, size: nat, masked: bool, combine: bool, d: seq<bv8>, x: nat, y: nat, i: nat)
    requires (size == 3 || size == 4) && x < dsc.w && y < dsc.h
    requires Covered(dsc, Mixture(dsc, size, masked, combine), |d|, MaskView(dsc, masked))
    requires Offset(0, dsc.w, size) <= dsc.to.stride
    ensures var j, at := Mixture(dsc, size, masked, combine), dsc.to.Pixel(x, y, size);
            var r := Painted(j, dsc, d, MaskView(dsc, masked));
            && at + size <= |d|
            && PixelAt(r, at, size)
               == B.ReferencePixel(j.mixing, PixelAt(d, at, size), MixAt(dsc, masked, combine, x, y))
            && (i < |d| && (forall row: nat | row < dsc.h :: !InRow(dsc.to, dsc.w, size, row, i)) ==> r[i] == d[i])
  {
    hide Image, Fits, Offset, PixelAt, View.Pixel, B.ReferencePixel, B.Scaled;
    var j, v := Mixture(dsc, size, masked, combine), MaskView(dsc, masked);
    ImagePixel(j, d, dsc.to, v, dsc.w, dsc.h, x, y);
    if i < |d| && forall row: nat | row < dsc.h :: !InRow(dsc.to, dsc.w, size, row, i) {
      ImageOutside(j, d, dsc.to, v, dsc.w, dsc.h, i);
    }
    if j.mixing.mask.None? { NoInput(x, y); }
  }

  lemma NoInput(x: nat, y: nat)
    ensures View(0, 0).Pixel(x, y, 0) == 0
  {
  }

  /** A plain fill makes every pixel the opaque colour. */
  lemma FilledImage(dsc: Descriptor, size: nat, d: seq<bv8>, x: nat, y: nat, i: nat)
    requires (size == 3 || size == 4) && x < dsc.w && y < dsc.h
    requires Covered(dsc, Filling(dsc, size), |d|, View(0, 0)) && Offset(0, dsc.w, size) <= dsc.to.stride
    ensures var at, r := dsc.to.Pixel(x, y, size), Painted(Filling(dsc, size), dsc, d, View(0, 0));
            && at + size <= |d|
            && PixelAt(r, at, size)
               == [dsc.color.blue, dsc.color.green, dsc.color.red] + (if size == 4 then [0xff] else [])
            && (i < |d| && (forall row: nat | row < dsc.h :: !InRow(dsc.to, dsc.w, size, row, i)) ==> r[i] == d[i])
  {
    hide Image, Fits, Offset, PixelAt, View.Pixel;
    var j := Filling(dsc, size);
    ImagePixel(j, d, dsc.to, View(0, 0), dsc.w, dsc.h, x, y);
    if i < |d| && forall row: nat | row < dsc.h :: !InRow(dsc.to, dsc.w, size, row, i) {
      ImageOutside(j, d, dsc.to, View(0, 0), dsc.w, dsc.h, i);
    }
    NoInput(x, y);
  }
}
