/** The UTF-8 storage of a Rust `str`: `s.len()` and `s.as_bytes()` see the
    encoded bytes, not the characters. Dafny strings are sequences of Unicode
    scalar values. */
module Utf8 {
  import opened Bytes

  /** The UTF-8 encoding of one scalar value (RFC 3629, section 3). */
  function EncodeChar(c: char): (r: seq<uint8>)
    ensures 1 <= |r| <= 4
    ensures (|r| == 1) == (c as int < 0x80)
    ensures |r| == 1 ==> r[0] == c as int
    ensures |r| > 1 ==> r[0] >= 0xC0
  {
    var cp := c as int;
    if cp < 0x80 then [cp]
    else if cp < 0x800 then [0xC0 + cp / 0x40, 0x80 + cp % 0x40]
    else if cp < 0x1_0000 then [0xE0 + cp / 0x1000, 0x80 + (cp / 0x40) % 0x40, 0x80 + cp % 0x40]
    else [0xF0 + cp / 0x4_0000, 0x80 + (cp / 0x1000) % 0x40, 0x80 + (cp / 0x40) % 0x40, 0x80 + cp % 0x40]
  }

  /** `s.as_bytes()`. */
  function Encode(s: string): (r: seq<uint8>)
    ensures |r| >= |s|
  {
    if |s| == 0 then [] else EncodeChar(s[0]) + Encode(s[1..])
  }

  /** A string whose encoding consists of ASCII letters only is made of
      one-byte characters, each an ASCII letter, and its encoding is its
      sequence of code points. */
  lemma {:induction false} LettersAreOneByteEach(s: string)
    requires AllAsciiAlphabetic(Encode(s))
    ensures |Encode(s)| == |s|
    ensures forall i :: 0 <= i < |s| ==> Encode(s)[i] == s[i] as int
    ensures forall i :: 0 <= i < |s| ==> s[i] as int < 0x80 && IsAsciiAlphabetic(s[i] as int)
    decreases |s|
  {
    if |s| > 0 {
      var head := EncodeChar(s[0]);
      assert Encode(s) == head + Encode(s[1..]);
      assert IsAsciiAlphabetic(Encode(s)[0]);
      assert |head| == 1;
      assert forall i :: 0 <= i < |Encode(s[1..])| ==> Encode(s[1..])[i] == Encode(s)[i + 1];
      LettersAreOneByteEach(s[1..]);
    }
  }

  /** A string of ASCII characters is encoded as its code points. */
  lemma {:induction false} AsciiEncoding(s: string)
    requires forall i :: 0 <= i < |s| ==> s[i] as int < 0x80
    ensures |Encode(s)| == |s|
    ensures forall i :: 0 <= i < |s| ==> Encode(s)[i] == s[i] as int
    decreases |s|
  {
    if |s| > 0 {
      AsciiEncoding(s[1..]);
    }
  }
}
