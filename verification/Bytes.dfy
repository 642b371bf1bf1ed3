/** Octets as bounded integers; bit fields are taken apart with / and %. */
module Bytes {
  type byte = x: int | 0 <= x < 256

  function Zeros(n: nat): (z: seq<byte>)
    ensures |z| == n && forall i | 0 <= i < n :: z[i] == 0
  {
    seq(n, _ => 0)
  }

  /** Network byte order of a 16-bit value. */
  function U16(v: int): (b: seq<byte>)
    requires 0 <= v < 0x10000
    ensures |b| == 2 && ReadU16(b, 0) == v
  {
    [v / 256, v % 256]
  }

  function ReadU16(b: seq<byte>, i: nat): (v: int)
    requires i + 2 <= |b|
    ensures 0 <= v < 0x10000
  {
    (b[i] as int) * 256 + b[i + 1] as int
  }

  function U32(v: int): (b: seq<byte>)
    requires 0 <= v < 0x1_0000_0000
    ensures |b| == 4 && ReadU32(b, 0) == v
  {
    [v / 256 / 256 / 256, v / 256 / 256 % 256, v / 256 % 256, v % 256]
  }

  /** The 32-bit value of four bytes in network order. */
  function ReadU32(b: seq<byte>, i: nat): (v: int)
    requires i + 4 <= |b|
    ensures 0 <= v < 0x1_0000_0000
  {
    (b[i] as int) * 0x100_0000 + (b[i + 1] as int) * 0x1_0000 + (b[i + 2] as int) * 256 + b[i + 3] as int
  }

  // ---------------------------------------------------------------- bytes as bits

  function ToBits(x: int): bv8
    requires 0 <= x <= 255
  {
    x as bv8
  }

  function Value(b: bv8): (v: int)
    ensures 0 <= v <= 255
  {
    b as int
  }

  lemma NextValue(b: bv8)
    requires b != 255
    ensures Value(b + 1) == Value(b) + 1
  {
  }

  lemma ValueEnds(b: bv8)
    ensures Value(b) == 255 <==> b == 255
    ensures Value(b) == 0 <==> b == 0
  {
  }

  lemma BitsOfValue(b: bv8)
    ensures ToBits(Value(b)) == b
  {
  }

  lemma {:induction false} BitsFor(x: int) returns (b: bv8)
    requires 0 <= x <= 255
    ensures Value(b) == x
    decreases x
  {
    hide Value;
    ValueEnds(0);
    b := 0;
    if x > 0 {
      b := BitsFor(x - 1);
      ValueEnds(b);
      NextValue(b);
      b := b + 1;
    }
  }

  /** Every value of a byte has its bits. */
  lemma ValueOfBits(x: int)
    requires 0 <= x <= 255
    ensures Value(ToBits(x)) == x
  {
    hide Value, ToBits;
    var b := BitsFor(x);
    BitsOfValue(b);
  }

  lemma SameBits(b: bv8, x: int)
    requires 0 <= x <= 255
    ensures ToBits(x) == b <==> x == Value(b)
  {
    hide Value, ToBits;
    ValueOfBits(x);
    BitsOfValue(b);
  }
}
