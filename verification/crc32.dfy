/** The CRC-32 used for chunk checksums: the `crc` crate driven by the
    parameter record `CRC_32_ALGO` (pngme/src/chunk.rs:11-20), which is the
    CRC of section 5.5 of the PNG specification (W3C, Second Edition), also
    known as CRC-32/ISO-HDLC.

    Two definitions are given. `Reference` is the textbook shift register that
    reads a parameter record literally: most significant bit first, the
    polynomial as written, input bytes and the final register bit-reversed
    when `refin`/`refout` say so. `Checksum` is the reflected (least
    significant bit first) form with the bit-reversed polynomial 0xEDB88320
    that the rest of the model uses. `ReflectedMatchesReference` proves that
    for every record with `refin` and `refout` set the two forms agree, and
    `ChecksumIsReference` instantiates it at `CRC_32_ALGO`. */
module Crc32 {
  import opened Bytes

  /** The `crc::Algorithm<u32>` parameter record. The registers below are
      `bv32`, so only `width == 32` is meaningful; `check` is the checksum
      of the ASCII text "123456789" and `residue` is not used here. */
  datatype Algorithm = Algorithm(
    width: nat,
    poly: bv32,
    init: bv32,
    refin: bool,
    refout: bool,
    xorout: bv32,
    check: bv32,
    residue: bv32)

  const CRC_32_POLY: bv32 := 0x04C1_1DB7

  const CRC_32_ALGO: Algorithm := Algorithm(
    width := 32,
    poly := CRC_32_POLY,
    init := 0xFFFF_FFFF,
    refin := true,
    refout := true,
    xorout := 0xFFFF_FFFF,
    check := 0xCBF4_3926,
    residue := 0x0000_0000)

  /** `CRC_32_POLY` with its 32 bits in reverse order. */
  const REFLECTED_POLY: bv32 := 0xEDB8_8320

  /** Bit reversal of a byte: bit i moves to bit 7 - i. */
  function Reflect8(b: bv8): bv8 {
    var b := ((b >> 1) & 0x55) | ((b & 0x55) << 1);
    var b := ((b >> 2) & 0x33) | ((b & 0x33) << 2);
    (b >> 4) | (b << 4)
  }

  /** Bit reversal of a 32-bit word: bit i moves to bit 31 - i. */
  function Reflect32(x: bv32): bv32 {
    var x := ((x >> 1) & 0x5555_5555) | ((x & 0x5555_5555) << 1);
    var x := ((x >> 2) & 0x3333_3333) | ((x & 0x3333_3333) << 2);
    var x := ((x >> 4) & 0x0F0F_0F0F) | ((x & 0x0F0F_0F0F) << 4);
    var x := ((x >> 8) & 0x00FF_00FF) | ((x & 0x00FF_00FF) << 8);
    (x >> 16) | (x << 16)
  }

  /** The value of a register word. */
  function Word(x: bv32): uint32 {
    x as int
  }

  /** The bits of an input byte. */
  function ByteBits(b: uint8): bv8 {
    b as bv8
  }

  // ---------------------------------------------------------------------
  // Reference definition: a parameter record read literally
  // ---------------------------------------------------------------------

  /** One shift of the most-significant-bit-first register. */
  function MsbShift(poly: bv32, reg: bv32): bv32 {
    if reg & 0x8000_0000 != 0 then (reg << 1) ^ poly else reg << 1
  }

  function MsbShifts(poly: bv32, reg: bv32, k: nat): bv32
    decreases k
  {
    if k == 0 then reg else MsbShifts(poly, MsbShift(poly, reg), k - 1)
  }

  /** An input byte placed in the top byte of the register, bit-reversed
      first when `refin` is set. */
  function TopByte(refin: bool, b: uint8): bv32 {
    ((if refin then Reflect8(ByteBits(b)) else ByteBits(b)) as bv32) << 24
  }

  /** Feeds one input byte into the register. */
  function MsbFeed(alg: Algorithm, reg: bv32, b: uint8): bv32 {
    MsbShifts(alg.poly, reg ^ TopByte(alg.refin, b), 8)
  }

  /** Register contents after feeding `data`, in order, into `reg`. */
  function MsbRun(alg: Algorithm, reg: bv32, data: seq<uint8>): bv32
    decreases |data|
  {
    if |data| == 0 then reg else MsbRun(alg, MsbFeed(alg, reg, data[0]), data[1..])
  }

  /** The checksum a parameter record describes. */
  function Reference(alg: Algorithm, data: seq<uint8>): uint32 {
    var reg := MsbRun(alg, alg.init, data);
    var out := if alg.refout then Reflect32(reg) else reg;
    Word(out ^ alg.xorout)
  }

  // ---------------------------------------------------------------------
  // Reflected definition
  // ---------------------------------------------------------------------

  /** One shift of the least-significant-bit-first register with the
      bit-reversed polynomial `rpoly`. */
  function LsbShift(rpoly: bv32, reg: bv32): bv32 {
    if reg & 1 != 0 then (reg >> 1) ^ rpoly else reg >> 1
  }

  function LsbShifts(rpoly: bv32, reg: bv32, k: nat): bv32
    decreases k
  {
    if k == 0 then reg else LsbShifts(rpoly, LsbShift(rpoly, reg), k - 1)
  }

  /** An input byte placed in the bottom byte of the register. */
  function LowByte(b: uint8): bv32 {
    ByteBits(b) as bv32
  }

  function LsbFeed(rpoly: bv32, reg: bv32, b: uint8): bv32 {
    LsbShifts(rpoly, reg ^ LowByte(b), 8)
  }

  /** Register contents after feeding `data`, in order, into `reg`. */
  function LsbRun(rpoly: bv32, reg: bv32, data: seq<uint8>): bv32
    decreases |data|
  {
    if |data| == 0 then reg else LsbRun(rpoly, LsbFeed(rpoly, reg, data[0]), data[1..])
  }

  /** The checksum the codec computes over type and data bytes, run
      least-significant bit first with the mirrored polynomial;
      `ChecksumIsReference` states that it is the checksum `CRC_32_ALGO`
      describes. */
  function Checksum(data: seq<uint8>): uint32 {
    Word(LsbRun(REFLECTED_POLY, 0xFFFF_FFFF, data) ^ 0xFFFF_FFFF)
  }

  /** The checksum computed incrementally, one byte at a time, as the crate's
      digest does. */
  method ComputeChecksum(data: seq<uint8>) returns (crc: uint32)
    ensures crc == Checksum(data)
  {
    var reg: bv32 := 0xFFFF_FFFF;
    var i := 0;
    while i < |data|
      invariant i <= |data|
      invariant LsbRun(REFLECTED_POLY, reg, data[i..]) == LsbRun(REFLECTED_POLY, 0xFFFF_FFFF, data)
    {
      assert data[i..][1..] == data[i + 1..];
      reg := LsbFeed(REFLECTED_POLY, reg, data[i]);
      i := i + 1;
    }
    crc := Word(reg ^ 0xFFFF_FFFF);
  }

  /** Feeding `a + b` is feeding `a`, then `b`. */
  lemma {:induction false} RunAppend(rpoly: bv32, reg: bv32, a: seq<uint8>, b: seq<uint8>)
    ensures LsbRun(rpoly, reg, a + b) == LsbRun(rpoly, LsbRun(rpoly, reg, a), b)
    decreases |a|
  {
    if |a| == 0 {
      assert a + b == b;
    } else {
      assert (a + b)[1..] == a[1..] + b;
      RunAppend(rpoly, LsbFeed(rpoly, reg, a[0]), a[1..], b);
    }
  }

  // ---------------------------------------------------------------------
  // Agreement of the two definitions
  // ---------------------------------------------------------------------

  lemma Reflect32Xor(x: bv32, y: bv32)
    ensures Reflect32(x ^ y) == Reflect32(x) ^ Reflect32(y)
  {
  }

  lemma TopBitMirrors(reg: bv32)
    ensures (reg & 0x8000_0000 != 0) == (Reflect32(reg) & 1 != 0)
  {
  }

  lemma ShiftLeftMirrors(reg: bv32)
    ensures Reflect32(reg << 1) == Reflect32(reg) >> 1
  {
  }

  /** Mirroring the register turns an MSB-first shift into an LSB-first one
      with the mirrored polynomial. */
  lemma ShiftMirrors(poly: bv32, reg: bv32)
    ensures Reflect32(MsbShift(poly, reg)) == LsbShift(Reflect32(poly), Reflect32(reg))
  {
    TopBitMirrors(reg);
    ShiftLeftMirrors(reg);
    if reg & 0x8000_0000 != 0 {
      Reflect32Xor(reg << 1, poly);
    }
  }

  lemma {:induction false} ShiftsMirror(poly: bv32, reg: bv32, k: nat)
    ensures Reflect32(MsbShifts(poly, reg, k)) == LsbShifts(Reflect32(poly), Reflect32(reg), k)
    decreases k
  {
    if k > 0 {
      ShiftMirrors(poly, reg);
      ShiftsMirror(poly, MsbShift(poly, reg), k - 1);
    }
  }

  /** A bit-reversed byte in the top byte mirrors to the byte itself in the
      bottom byte. */
  lemma TopByteMirrors(b: uint8)
    ensures Reflect32(TopByte(true, b)) == LowByte(b)
  {
  }

  lemma TopXorMirrors(reg: bv32, b: uint8)
    ensures Reflect32(reg ^ TopByte(true, b)) == Reflect32(reg) ^ LowByte(b)
  {
    Reflect32Xor(reg, TopByte(true, b));
    TopByteMirrors(b);
  }

  lemma FeedMirrors(alg: Algorithm, reg: bv32, b: uint8)
    requires alg.refin
    ensures Reflect32(MsbFeed(alg, reg, b)) == LsbFeed(Reflect32(alg.poly), Reflect32(reg), b)
  {
    ShiftsMirror(alg.poly, reg ^ TopByte(true, b), 8);
    TopXorMirrors(reg, b);
  }

  /** With reflected input, feeding the same bytes into a register and into
      its mirror image keeps the two registers mirror images of each
      other. */
  lemma {:induction false} RunMirrors(alg: Algorithm, reg: bv32, data: seq<uint8>)
    requires alg.refin
    ensures LsbRun(Reflect32(alg.poly), Reflect32(reg), data) == Reflect32(MsbRun(alg, reg, data))
    decreases |data|
  {
    if |data| > 0 {
      FeedMirrors(alg, reg, data[0]);
      RunMirrors(alg, MsbFeed(alg, reg, data[0]), data[1..]);
    }
  }

  /** For every record with reflected input and output, the reference
      checksum is the LSB-first register with mirrored polynomial and initial
      value, xored with `xorout`. */
  lemma ReflectedMatchesReference(alg: Algorithm, data: seq<uint8>)
    requires alg.refin && alg.refout
    ensures Reference(alg, data)
         == Word(LsbRun(Reflect32(alg.poly), Reflect32(alg.init), data) ^ alg.xorout)
  {
    RunMirrors(alg, alg.init, data);
  }

  /** The checksum the codec uses is the one `CRC_32_ALGO` describes. */
  lemma ChecksumIsReference(data: seq<uint8>)
    ensures Checksum(data) == Reference(CRC_32_ALGO, data)
  {
    var alg := CRC_32_ALGO;
    assert alg.refin && alg.refout;
    assert Reflect32(alg.poly) == REFLECTED_POLY;
    assert Reflect32(alg.init) == 0xFFFF_FFFF;
    assert alg.xorout == 0xFFFF_FFFF;
    ReflectedMatchesReference(alg, data);
  }

  /** The `check` field of `CRC_32_ALGO` is the checksum of the ASCII text
      "123456789". */
  lemma CheckValue()
    ensures Checksum([49, 50, 51, 52, 53, 54, 55, 56, 57]) == 0xCBF4_3926
  {
    assert LsbFeed(REFLECTED_POLY, 0xffffffff, 49) == 0x7c231048;
    assert LsbFeed(REFLECTED_POLY, 0x7c231048, 50) == 0xb0acbb32;
    assert LsbFeed(REFLECTED_POLY, 0xb0acbb32, 51) == 0x77b79c2d;
    assert LsbFeed(REFLECTED_POLY, 0x77b79c2d, 52) == 0x641c1f5c;
    assert LsbFeed(REFLECTED_POLY, 0x641c1f5c, 53) == 0x340ac5e3;
    assert LsbFeed(REFLECTED_POLY, 0x340ac5e3, 54) == 0xf68d2c9e;
    assert LsbFeed(REFLECTED_POLY, 0xf68d2c9e, 55) == 0xaffc9660;
    assert LsbFeed(REFLECTED_POLY, 0xaffc9660, 56) == 0x651f2550;
    assert LsbFeed(REFLECTED_POLY, 0x651f2550, 57) == 0x340bc6d9;
  }

  /** The same check value, computed from the parameter record read
      literally. */
  lemma ReferenceCheckValue()
    ensures Reference(CRC_32_ALGO, [49, 50, 51, 52, 53, 54, 55, 56, 57]) == Word(CRC_32_ALGO.check)
  {
    CheckValue();
    ChecksumIsReference([49, 50, 51, 52, 53, 54, 55, 56, 57]);
    assert Word(CRC_32_ALGO.check) == 0xCBF4_3926;
  }
}
