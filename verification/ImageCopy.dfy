/** The converter's routines and the dispatch between them. */
module ImageCopy {
  import opened ImageConvert
  import opened Raster

  /** Each routine refuses a conversion it has no lanes for before it touches the destination. */
  method ExpandToRgb(c: Conversion, src: seq<bv8>, dest: array<bv8>, to: View, from: View, width: nat, height: nat)
    returns (ok: bool)
    requires Fits(Convert(c, src), dest.Length, to, from, width, height)
    modifies dest
    ensures ok == Expands(c)
    ensures ok ==> c.Supported() && dest[..] == Image(Convert(c, src), old(dest[..]), to, from, width, height)
    ensures !ok ==> dest[..] == old(dest[..])
  {
    hide Fits, Image;
    ok := Expands(c);
    if ok { VectorRows(Convert(c, src), dest, to, from, width, height); }
  }

  method PackFrom2432(c: Conversion, src: seq<bv8>, dest: array<bv8>, to: View, from: View, width: nat, height: nat)
    returns (ok: bool)
    requires Fits(Convert(c, src), dest.Length, to, from, width, height)
    modifies dest
    ensures ok == Packs(c)
    ensures ok ==> c.Supported() && dest[..] == Image(Convert(c, src), old(dest[..]), to, from, width, height)
    ensures !ok ==> dest[..] == old(dest[..])
  {
    hide Fits, Image;
    ok := Packs(c);
    if ok { VectorRows(Convert(c, src), dest, to, from, width, height); }
  }

  /** Two premultiplied formats are equal formats, which never reach this routine. */
  method ConvertPacked(c: Conversion, src: seq<bv8>, dest: array<bv8>, to: View, from: View, width: nat, height: nat)
    returns (ok: bool)
    requires !(c.from.ARGB8888Pre? && c.to.ARGB8888Pre?)
    requires Fits(Convert(c, src), dest.Length, to, from, width, height)
    modifies dest
    ensures ok == ConvertsPacked(c)
    ensures ok ==> c.Supported() && dest[..] == Image(Convert(c, src), old(dest[..]), to, from, width, height)
    ensures !ok ==> dest[..] == old(dest[..])
  {
    hide Fits, Image;
    ok := ConvertsPacked(c);
    if ok { VectorRows(Convert(c, src), dest, to, from, width, height); }
  }

  /** The scalar loops take every readable and writable pair, and an empty image of any format. */
  predicate ScalarAccepts(c: Conversion, width: nat, height: nat) {
    c.from.Size() != 0 && c.to.Size() != 0 && (width == 0 || height == 0 || c.Supported())
  }

  /** What becomes of the destination: the reference image, or nothing for an unknown format. */
  function Converted(c: Conversion, src: seq<bv8>, d: seq<bv8>, to: View, from: View, w: nat, h: nat): (r: seq<bv8>)
    ensures |r| == |d|
  {
    if c.Supported() then Image(Convert(c, src), d, to, from, w, h) else d
  }

  method ScalarConvert(c: Conversion, src: seq<bv8>, dest: array<bv8>, to: View, from: View, width: nat, height: nat)
    returns (ok: bool)
    requires Fits(Convert(c, src), dest.Length, to, from, width, height)
    modifies dest
    ensures ok == ScalarAccepts(c, width, height)
    ensures dest[..] == if ok then Converted(c, src, old(dest[..]), to, from, width, height) else old(dest[..])
  {
    hide Fits, Image, Row;
    if c.from.Size() == 0 || c.to.Size() == 0 {
      return false;
    }
    var j, y, d, s := Convert(c, src), 0, to, from;
    while y < height
      invariant y <= height
      invariant y > 0 ==> width == 0 || c.Supported()
      invariant c.Supported() ==> Fits(j, dest.Length, d, s, width, height - y)
      invariant Converted(c, src, dest[..], d, s, width, height - y)
             == Converted(c, src, old(dest[..]), to, from, width, height)
      invariant !c.Supported() ==> dest[..] == old(dest[..])
    {
      if width > 0 {
        if !c.Supported() { return false; }
        NextRow(j, dest[..], d, s, width, height - y);
        ScalarRow(j, dest, d.at, s.at, width);
      } else if c.Supported() {
        NextRow(j, dest[..], d, s, width, height - y);
        NoPixels(j, dest[..], d.at, s.at);
      }
      y, d, s := y + 1, d.Next(), s.Next();
    }
    if c.Supported() { NoRows(j, dest[..], d, s, width); }
    return true;
  }

  datatype Backend = Rvv | Scalar | Unsupported

  /** The part of the copy callback behind its shortcuts for equal formats. The first routine that
      takes the conversion does it, and whichever it is, the destination becomes what the scalar
      loops would have made of it. */
  method DrawBufCopy(c: Conversion, src: seq<bv8>, dest: array<bv8>, to: View, from: View, width: nat, height: nat)
    returns (backend: Backend)
    requires c.rgb ==> c.from.RGB888?
    requires c.from == c.to ==> c.rgb
    requires Fits(Convert(c, src), dest.Length, to, from, width, height)
    modifies dest
    ensures backend.Rvv? <==> Expands(c) || Packs(c) || ConvertsPacked(c)
    ensures backend.Unsupported? <==> !ScalarAccepts(c, width, height)
    ensures dest[..] == if ScalarAccepts(c, width, height)
                        then Converted(c, src, old(dest[..]), to, from, width, height) else old(dest[..])
  {
    hide Fits, Image;
    var ok := ExpandToRgb(c, src, dest, to, from, width, height);
    if !ok { ok := PackFrom2432(c, src, dest, to, from, width, height); }
    if !ok { ok := ConvertPacked(c, src, dest, to, from, width, height); }
    if ok { return Rvv; }
    ok := ScalarConvert(c, src, dest, to, from, width, height);
    backend := if ok then Scalar else Unsupported;
  }

  /** In a destination whose rows do not overlap, pixel x of row y holds the source pixel read in
      its format, reordered, and written in the other; every byte outside the rows is as before. */
  lemma CopiedImage(c: Conversion, src: seq<bv8>, d: seq<bv8>, to: View, from: View, w: nat, h: nat,
                    x: nat, y: nat, i: nat)
    requires c.Supported() && Fits(Convert(c, src), |d|, to, from, w, h)
    requires x < w && y < h && Offset(0, w, c.to.Size()) <= to.stride
    ensures var r := Converted(c, src, d, to, from, w, h);
            var at, input := to.Pixel(x, y, c.to.Size()), from.Pixel(x, y, c.from.Size());
            && at + c.to.Size() <= |d| && input + c.from.Size() <= |src|
            && r[at..at + c.to.Size()] == ScalarPixel(c, src[input..input + c.from.Size()])
            && (i < |d| && (forall row: nat | row < h :: !InRow(to, w, c.to.Size(), row, i)) ==> r[i] == d[i])
  {
    hide Image, Fits, View.Pixel, Offset, ScalarPixel;
    ImagePixel(Convert(c, src), d, to, from, w, h, x, y);
    if i < |d| && forall row: nat | row < h :: !InRow(to, w, c.to.Size(), row, i) {
      ImageOutside(Convert(c, src), d, to, from, w, h, i);
    }
  }
}
