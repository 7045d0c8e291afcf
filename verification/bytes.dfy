/** Fixed-width unsigned integers and their big-endian byte encoding, as used by
    `u32::to_be_bytes` and `u32::from_be_bytes`. */
module Bytes {

  type uint8 = x: int | 0 <= x < 0x100

  type uint32 = x: int | 0 <= x < 0x1_0000_0000

  /** Number of distinct `u32` values; `as u32` reduces modulo this. */
  const UINT32_LIMIT: int := 0x1_0000_0000

  /** `u8::is_ascii_uppercase`: 'A'..='Z'. */
  predicate IsAsciiUppercase(b: uint8) {
    65 <= b <= 90
  }

  /** `u8::is_ascii_lowercase`: 'a'..='z'. */
  predicate IsAsciiLowercase(b: uint8) {
    97 <= b <= 122
  }

  /** `u8::is_ascii_alphabetic`. */
  predicate IsAsciiAlphabetic(b: uint8) {
    IsAsciiUppercase(b) || IsAsciiLowercase(b)
  }

  /** Every byte is an ASCII letter. */
  predicate AllAsciiAlphabetic(bytes: seq<uint8>) {
    forall i :: 0 <= i < |bytes| ==> IsAsciiAlphabetic(bytes[i])
  }

  /** Whether bit 0x20 of a byte is clear, i.e. `b & 0x20 == 0`. */
  predicate Bit5Clear(b: uint8) {
    (b / 0x20) % 2 == 0
  }

  /** `n.to_be_bytes()`: most significant byte first. */
  function ToBE32(n: uint32): (r: seq<uint8>)
    ensures |r| == 4
    ensures FromBE32(r) == n
  {
    var r := [n / 0x100_0000, (n / 0x1_0000) % 0x100, (n / 0x100) % 0x100, n % 0x100];
    assert n == r[0] * 0x100_0000 + r[1] * 0x1_0000 + r[2] * 0x100 + r[3];
    r
  }

  /** `u32::from_be_bytes` on four bytes. */
  function FromBE32(b: seq<uint8>): (n: uint32)
    requires |b| == 4
  {
    (b[0] as int) * 0x100_0000 + (b[1] as int) * 0x1_0000 + (b[2] as int) * 0x100 + b[3] as int
  }

  /** Decoding four bytes and encoding the value again gives the same bytes. */
  lemma ToFromBE32(b: seq<uint8>)
    requires |b| == 4
    ensures ToBE32(FromBE32(b)) == b
  {
    Digits(b[0], b[1], b[2], b[3]);
  }

  /** The base-256 digits of a four-digit number. */
  lemma Digits(b0: uint8, b1: uint8, b2: uint8, b3: uint8)
    ensures var n := b0 * 0x100_0000 + b1 * 0x1_0000 + b2 * 0x100 + b3;
      && n / 0x100_0000 == b0
      && (n / 0x1_0000) % 0x100 == b1
      && (n / 0x100) % 0x100 == b2
      && n % 0x100 == b3
  {
    var n := b0 * 0x100_0000 + b1 * 0x1_0000 + b2 * 0x100 + b3;
    assert n / 0x100 == b0 * 0x1_0000 + b1 * 0x100 + b2;
    assert n / 0x1_0000 == b0 * 0x100 + b1;
  }
}
