/**
 * Fixed-width unsigned integers, disk blocks, and the little-endian codecs
 * that the packed on-disk records of the filesystem use.
 */
module Bytes {
  /** Size in bytes of every block of the virtual disk. */
  const BLOCK_SIZE: nat := 4096

  newtype u8 = x: int | 0 <= x < 0x100
  newtype u16 = x: int | 0 <= x < 0x1_0000
  newtype u32 = x: int | 0 <= x < 0x1_0000_0000

  /** One block of the virtual disk. */
  type Block = b: seq<u8> | |b| == BLOCK_SIZE witness Zeros(BLOCK_SIZE)

  function Zeros(n: nat): (z: seq<u8>)
    ensures |z| == n
    ensures forall i | 0 <= i < n :: z[i] == 0
  {
    seq(n, _ => 0)
  }

  /** The 16-bit value stored little-endian in the bytes `lo`, `hi`. */
  function Le16(lo: u8, hi: u8): u16
  {
    (lo as int + 0x100 * hi as int) as u16
  }

  /** The two bytes that store `x` little-endian. */
  function Le16Bytes(x: u16): (b: seq<u8>)
    ensures |b| == 2 && Le16(b[0], b[1]) == x
  {
    [(x as int % 0x100) as u8, (x as int / 0x100) as u8]
  }

  lemma Le16BytesOfLe16(lo: u8, hi: u8)
    ensures Le16Bytes(Le16(lo, hi)) == [lo, hi]
  {
  }

  /** The 32-bit value stored little-endian in four bytes: two 16-bit halves, low half first. */
  function Le32(b0: u8, b1: u8, b2: u8, b3: u8): u32
  {
    (Le16(b0, b1) as int + 0x1_0000 * Le16(b2, b3) as int) as u32
  }

  /** The four bytes that store `x` little-endian. */
  function Le32Bytes(x: u32): (b: seq<u8>)
    ensures |b| == 4 && Le32(b[0], b[1], b[2], b[3]) == x
  {
    var lo := Le16Bytes((x as int % 0x1_0000) as u16);
    var hi := Le16Bytes((x as int / 0x1_0000) as u16);
    lo + hi
  }

  lemma Le32BytesOfLe32(b0: u8, b1: u8, b2: u8, b3: u8)
    ensures Le32Bytes(Le32(b0, b1, b2, b3)) == [b0, b1, b2, b3]
  {
    var x := Le32(b0, b1, b2, b3) as int;
    assert x % 0x1_0000 == Le16(b0, b1) as int;
    assert x / 0x1_0000 == Le16(b2, b3) as int;
    Le16BytesOfLe16(b0, b1);
    Le16BytesOfLe16(b2, b3);
  }

  /** A packed array of 16-bit values, little-endian, two bytes each. */
  function EncodeU16s(xs: seq<u16>): (b: seq<u8>)
    ensures |b| == 2 * |xs|
  {
    if xs == [] then [] else Le16Bytes(xs[0]) + EncodeU16s(xs[1..])
  }

  /** Reads a packed array of little-endian 16-bit values. */
  function DecodeU16s(b: seq<u8>): (xs: seq<u16>)
    requires |b| % 2 == 0
    ensures 2 * |xs| == |b|
  {
    if b == [] then [] else [Le16(b[0], b[1])] + DecodeU16s(b[2..])
  }

  lemma {:induction false} DecodeEncodeU16s(xs: seq<u16>)
    ensures DecodeU16s(EncodeU16s(xs)) == xs
  {
    if xs != [] {
      var b := EncodeU16s(xs);
      assert b[2..] == EncodeU16s(xs[1..]);
      DecodeEncodeU16s(xs[1..]);
    }
  }

  lemma {:induction false} EncodeDecodeU16s(b: seq<u8>)
    requires |b| % 2 == 0
    ensures EncodeU16s(DecodeU16s(b)) == b
  {
    if b != [] {
      var xs := DecodeU16s(b);
      assert xs[1..] == DecodeU16s(b[2..]);
      EncodeDecodeU16s(b[2..]);
      Le16BytesOfLe16(b[0], b[1]);
      assert b == [b[0], b[1]] + b[2..];
    }
  }

  /** Value `j` of a packed array lives in bytes `2j` and `2j + 1`. */
  lemma {:induction false} DecodeU16sAt(b: seq<u8>, j: nat)
    requires |b| % 2 == 0 && j < |b| / 2
    ensures DecodeU16s(b)[j] == Le16(b[2 * j], b[2 * j + 1])
  {
    if j > 0 {
      DecodeU16sAt(b[2..], j - 1);
    }
  }
}
