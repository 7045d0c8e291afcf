/** A length-prefixed, CRC-checked chunk (pngme/src/chunk.rs), laid out as in
    section 5.3 of the PNG specification (W3C, Second Edition):
    big-endian length, 4 type bytes, the data, big-endian CRC of type and
    data. */
module Chunks {
  import opened Bytes
  import opened Wrappers
  import opened Errors
  import opened ChunkTypes
  import Crc32

  /** The source's `Chunk`; the fields are what the accessors `length()`,
      `chunk_type()`, `data()` and `crc()` return. */
  datatype Chunk = Chunk(length: uint32, chunkType: ChunkType, data: seq<uint8>, crc: uint32)

  /** The bytes the CRC covers: type bytes followed by data. */
  function CrcInput(t: ChunkType, data: seq<uint8>): seq<uint8> {
    t.bytes + data
  }

  /** A chunk whose fields agree with each other: a letter type, the true
      data length and the true CRC. Every chunk `New` builds from fewer than
      2^32 bytes, and every chunk `Parse` returns, is one. */
  predicate Consistent(c: Chunk) {
    && AllAsciiAlphabetic(c.chunkType.bytes)
    && c.length == |c.data|
    && c.crc == Crc32.Checksum(CrcInput(c.chunkType, c.data))
  }

  /** `Chunk::new`: `data.len() as u32` keeps the length modulo 2^32. */
  function New(t: ChunkType, data: seq<uint8>): (c: Chunk)
    ensures c.chunkType == t && c.data == data
    ensures c.length == |data| % UINT32_LIMIT
    ensures c.crc == Crc32.Checksum(t.bytes + data)
    ensures AllAsciiAlphabetic(t.bytes) && |data| < UINT32_LIMIT ==> Consistent(c)
  {
    Chunk(|data| % UINT32_LIMIT, t, data, Crc32.Checksum(CrcInput(t, data)))
  }

  /** `Chunk::as_bytes`; `Layout` states where each field lands. */
  function AsBytes(c: Chunk): (r: seq<uint8>)
    ensures |r| == 12 + |c.data|
  {
    ToBE32(c.length) + c.chunkType.bytes + c.data + ToBE32(c.crc)
  }

  /** `Chunk::try_from(&[u8])`. Reads one chunk from the front of `b`; bytes
      after it are not looked at. Which error each malformed input gets is
      stated by `ParseRejects`. */
  function Parse(b: seq<uint8>): (r: Result<Chunk, Error>)
    ensures |b| < 12 ==> r == Err(TooShort)
    ensures r.Ok? ==> Consistent(r.value) && 12 + r.value.length <= |b|
    ensures r.Ok? ==> AsBytes(r.value) == b[..12 + r.value.length]
  {
    if |b| < 12 then
      Err(TooShort)
    else
      var chunkType :- TryFromBytes(b[4..8]);
      ParseBody(b, chunkType)
  }

  /** The part of `Parse` after the type has been read: the length test, the
      data and the CRC test. */
  function ParseBody(b: seq<uint8>, chunkType: ChunkType): (r: Result<Chunk, Error>)
    requires |b| >= 12 && b[4..8] == chunkType.bytes && AllAsciiAlphabetic(chunkType.bytes)
    ensures r.Ok? ==> Consistent(r.value) && 12 + r.value.length <= |b|
    ensures r.Ok? ==> AsBytes(r.value) == b[..12 + r.value.length]
  {
    var length := FromBE32(b[..4]);
    var dataEnd := 8 + length;
    if |b| < dataEnd + 4 then
      Err(NotEnoughData)
    else
      var data := b[8..dataEnd];
      var expectedCrc := FromBE32(b[dataEnd..dataEnd + 4]);
      var calculatedCrc := Crc32.Checksum(CrcInput(chunkType, data));
      assert CrcInput(chunkType, data) == b[4..dataEnd];
      if calculatedCrc != expectedCrc then
        Err(CrcMismatch)
      else
        var c := Chunk(length, chunkType, data, calculatedCrc);
        ParsedBytes(b, c);
        Ok(c)
  }

  /** The error `Parse` reports for each kind of malformed input, checked in
      the source's order: too short for the fixed fields, a type byte that
      is not a letter, a length field running past the end, a CRC that does
      not match type and data. */
  lemma ParseRejects(b: seq<uint8>)
    ensures |b| >= 12 && !AllAsciiAlphabetic(b[4..8]) ==> Parse(b) == Err(InvalidCharacters)
    ensures |b| >= 12 && AllAsciiAlphabetic(b[4..8]) && |b| < 12 + FromBE32(b[..4])
            ==> Parse(b) == Err(NotEnoughData)
    ensures |b| >= 12 && AllAsciiAlphabetic(b[4..8]) && |b| >= 12 + FromBE32(b[..4])
            && Crc32.Checksum(b[4..8 + FromBE32(b[..4])])
               != FromBE32(b[8 + FromBE32(b[..4])..12 + FromBE32(b[..4])])
            ==> Parse(b) == Err(CrcMismatch)
    ensures Parse(b).Ok? ==> Parse(b).value.length == FromBE32(b[..4])
  {
    if |b| >= 12 && AllAsciiAlphabetic(b[4..8]) {
      var n: int := FromBE32(b[..4]);
      if |b| >= 12 + n {
        assert CrcInput(ChunkType(b[4..8]), b[8..8 + n]) == b[4..8 + n];
      }
    }
  }

  /** The only errors `Parse` reports are the four above. */
  lemma ParseErrors(b: seq<uint8>)
    ensures Parse(b).Err? ==> Parse(b).error in {TooShort, InvalidCharacters, NotEnoughData, CrcMismatch}
  {
  }

  /** The serialisation of the chunk `Parse` builds is the prefix it read. */
  lemma ParsedBytes(b: seq<uint8>, c: Chunk)
    requires |b| >= 12 + c.length && c.length == |c.data|
    requires FromBE32(b[..4]) == c.length
    requires b[4..8] == c.chunkType.bytes
    requires b[8..8 + c.length] == c.data
    requires FromBE32(b[8 + c.length..12 + c.length]) == c.crc
    ensures AsBytes(c) == b[..12 + c.length]
  {
    ToFromBE32(b[..4]);
    ToFromBE32(b[8 + c.length..12 + c.length]);
    assert b[..12 + c.length]
        == b[..4] + b[4..8] + b[8..8 + c.length] + b[8 + c.length..12 + c.length];
  }

  // ---------------------------------------------------------------------
  // Properties
  // ---------------------------------------------------------------------

  /** Parsing the serialisation of a consistent chunk, followed by anything,
      gives the chunk back. */
  lemma ParseSerialised(c: Chunk, rest: seq<uint8>)
    requires Consistent(c)
    ensures Parse(AsBytes(c) + rest) == Ok(c)
  {
    var s := AsBytes(c);
    var b := s + rest;
    var n := |c.data|;
    Layout(c);
    assert b[..4] == s[..4];
    assert b[4..8] == s[4..8];
    assert b[4..8 + n] == s[4..8 + n];
    assert b[8..8 + n] == s[8..8 + n];
    assert b[8 + n..12 + n] == s[8 + n..12 + n];
    assert TryFromBytes(b[4..8]) == Ok(c.chunkType);
  }

  /** Round trip: a chunk built by `New` from a letter type and fewer than
      2^32 bytes parses back from its serialisation with the same length,
      type, data and CRC. */
  lemma NewRoundTrip(t: ChunkType, data: seq<uint8>)
    requires AllAsciiAlphabetic(t.bytes) && |data| < UINT32_LIMIT
    ensures Parse(AsBytes(New(t, data))) == Ok(New(t, data))
    ensures New(t, data).length == |data|
  {
    ParseSerialised(New(t, data), []);
    assert AsBytes(New(t, data)) + [] == AsBytes(New(t, data));
  }

  /** Bytes after the first chunk do not influence `Parse`. */
  lemma ParseIgnoresTrailing(b: seq<uint8>, rest: seq<uint8>)
    requires Parse(b).Ok?
    ensures Parse(b + rest) == Parse(b)
  {
    var c := Parse(b).value;
    var k := 12 + c.length;
    SplitAt(b, k, rest);
    ParseSerialised(c, b[k..]);
    ParseSerialised(c, b[k..] + rest);
  }

  lemma SplitAt(b: seq<uint8>, k: nat, rest: seq<uint8>)
    requires k <= |b|
    ensures b == b[..k] + b[k..]
    ensures b + rest == b[..k] + (b[k..] + rest)
  {
  }

  /** Where the fields of a serialised chunk sit in its bytes: the length
      field, the type, the data, then the CRC, each big-endian. */
  lemma Layout(c: Chunk)
    ensures var b := AsBytes(c);
      && FromBE32(b[..4]) == c.length
      && b[4..8] == c.chunkType.bytes
      && b[8..8 + |c.data|] == c.data
      && b[4..8 + |c.data|] == CrcInput(c.chunkType, c.data)
      && FromBE32(b[8 + |c.data|..12 + |c.data|]) == c.crc
  {
    var b := AsBytes(c);
    var n := |c.data|;
    assert b[..4] == ToBE32(c.length);
    assert b[8 + n..12 + n] == ToBE32(c.crc);
  }

  /** A serialised chunk whose trailing CRC is replaced by any other value
      is rejected with `CrcMismatch`. */
  lemma WrongCrcRejected(c: Chunk, wire: uint32)
    requires Consistent(c) && wire != c.crc
    ensures Parse(AsBytes(c.(crc := wire))) == Err(CrcMismatch)
  {
    Layout(c.(crc := wire));
    ParseRejects(AsBytes(c.(crc := wire)));
  }
}
