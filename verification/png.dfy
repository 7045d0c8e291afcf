/** A PNG file as a signature followed by a sequence of chunks
    (pngme/src/png.rs), laid out as in section 5.2 of the PNG specification
    (W3C, Second Edition). The source mutates a `Png` in place; here each
    operation returns the new value. */
module Pngs {
  import opened Bytes
  import opened Wrappers
  import opened Errors
  import opened ChunkTypes
  import Chunks

  type Bytes8 = s: seq<uint8> | |s| == 8 witness [0, 0, 0, 0, 0, 0, 0, 0]

  /** `Png::STANDARD_HEADER`, the PNG signature. */
  const STANDARD_HEADER: Bytes8 := [137, 80, 78, 71, 13, 10, 26, 10]

  /** The source's `Png`; `header()` and `chunks()` return the fields. */
  datatype Png = Png(header: Bytes8, chunks: seq<Chunks.Chunk>)

  /** The result of `remove_first_chunk`: the file after the call and what
      the call returned. */
  datatype Removal = Removal(png: Png, result: Result<Chunks.Chunk, Error>)

  /** `Png::from_chunks`. */
  function FromChunks(chunks: seq<Chunks.Chunk>): (p: Png)
    ensures p.header == STANDARD_HEADER && p.chunks == chunks
  {
    Png(STANDARD_HEADER, chunks)
  }

  /** `Png::append_chunk`. */
  function AppendChunk(p: Png, c: Chunks.Chunk): (q: Png)
    ensures q.header == p.header
    ensures |q.chunks| == |p.chunks| + 1 && q.chunks[..|p.chunks|] == p.chunks
    ensures q.chunks[|p.chunks|] == c
  {
    Png(p.header, p.chunks + [c])
  }

  /** No chunk in `chunks[..n]` has type `t`. */
  predicate NoneBefore(chunks: seq<Chunks.Chunk>, t: ChunkType, n: nat)
    requires n <= |chunks|
  {
    forall j :: 0 <= j < n ==> chunks[j].chunkType != t
  }

  /** The index of the first chunk of type `t`, if there is one. */
  function Position(chunks: seq<Chunks.Chunk>, t: ChunkType): (r: Option<nat>)
    ensures r.None? <==> NoneBefore(chunks, t, |chunks|)
    ensures r.Some? ==> r.value < |chunks| && chunks[r.value].chunkType == t
                        && NoneBefore(chunks, t, r.value)
    decreases |chunks|
  {
    if |chunks| == 0 then None
    else if chunks[0].chunkType == t then Some(0)
    else
      match Position(chunks[1..], t)
      case None => None
      case Some(i) => Some(i + 1)
  }

  /** `Png::remove_first_chunk`: an unreadable type string is returned as
      the type's own error and a missing type as `ChunkNotFound`, both
      leaving the file alone; otherwise the first chunk of that type is
      taken out and returned. */
  function RemoveFirstChunk(p: Png, chunkType: string): (r: Removal)
    ensures FromStr(chunkType).Err? ==> r == Removal(p, Err(FromStr(chunkType).error))
    ensures FromStr(chunkType).Ok? && NoneBefore(p.chunks, FromStr(chunkType).value, |p.chunks|)
            ==> r == Removal(p, Err(ChunkNotFound))
    ensures FromStr(chunkType).Ok? && !NoneBefore(p.chunks, FromStr(chunkType).value, |p.chunks|)
            ==> r.result.Ok?
    ensures r.result.Ok? ==>
              && FromStr(chunkType).Ok?
              && r.result.value.chunkType == FromStr(chunkType).value
              && r.png.header == p.header
              && |r.png.chunks| == |p.chunks| - 1
              && exists i :: 0 <= i < |p.chunks|
                   && p.chunks[i] == r.result.value
                   && NoneBefore(p.chunks, FromStr(chunkType).value, i)
                   && r.png.chunks == p.chunks[..i] + p.chunks[i + 1..]
  {
    match FromStr(chunkType)
    case Err(e) => Removal(p, Err(e))
    case Ok(t) =>
      match Position(p.chunks, t)
      case None => Removal(p, Err(ChunkNotFound))
      case Some(i) =>
        Removal(Png(p.header, p.chunks[..i] + p.chunks[i + 1..]), Ok(p.chunks[i]))
  }

  /** `Png::chunk_by_type`: the first chunk of the given type, or `None`
      when there is none or the type string is unreadable. */
  function ChunkByType(p: Png, chunkType: string): (r: Option<Chunks.Chunk>)
    ensures FromStr(chunkType).Err? ==> r.None?
    ensures FromStr(chunkType).Ok? ==>
              (r.None? <==> NoneBefore(p.chunks, FromStr(chunkType).value, |p.chunks|))
    ensures r.Some? ==> exists i :: 0 <= i < |p.chunks| && p.chunks[i] == r.value
                          && r.value.chunkType == FromStr(chunkType).value
                          && NoneBefore(p.chunks, FromStr(chunkType).value, i)
  {
    match FromStr(chunkType)
    case Err(_) => None
    case Ok(t) =>
      match Position(p.chunks, t)
      case None => None
      case Some(i) => Some(p.chunks[i])
  }

  /** The chunks' serialisations, one after another. */
  function ChunksBytes(chunks: seq<Chunks.Chunk>): (r: seq<uint8>)
    ensures |r| >= 12 * |chunks|
    decreases |chunks|
  {
    if |chunks| == 0 then [] else Chunks.AsBytes(chunks[0]) + ChunksBytes(chunks[1..])
  }

  /** `Png::as_bytes`. */
  function AsBytes(p: Png): (r: seq<uint8>)
    ensures |r| == 8 + |ChunksBytes(p.chunks)|
    ensures r[..8] == p.header && r[8..] == ChunksBytes(p.chunks)
  {
    p.header + ChunksBytes(p.chunks)
  }

  /** A function that reads one chunk from the front of a byte string. The
      chunk loop is stated for any reader, so that its proofs see only the
      reader properties below; `Parse` runs it with `Chunks.Parse`, which
      the `ChunkReader` lemmas show has all of them. */
  type Reader = seq<uint8> -> Result<Chunks.Chunk, Error>

  /** The reader never claims more bytes than it was given. */
  ghost predicate Advances(read: Reader) {
    forall x :: read(x).Ok? ==> 12 + read(x).value.length <= |x|
  }

  /** A chunk the reader returns serialises to exactly the prefix it read. */
  ghost predicate ReadsPrefix(read: Reader) {
    forall x :: read(x).Ok? ==>
      && 12 + read(x).value.length <= |x|
      && Chunks.AsBytes(read(x).value) == x[..12 + read(x).value.length]
  }

  /** A chunk the reader returns is consistent. */
  ghost predicate ReadsConsistent(read: Reader) {
    forall x :: read(x).Ok? ==> Chunks.Consistent(read(x).value)
  }

  /** The reader gets a consistent chunk back from its serialisation,
      whatever follows it. */
  ghost predicate ReadsBack(read: Reader) {
    forall c: Chunks.Chunk, rest: seq<uint8> :: Chunks.Consistent(c) ==> read(Chunks.AsBytes(c) + rest) == Ok(c)
  }

  /** Bytes after a chunk the reader accepts do not change what it reads. */
  ghost predicate IgnoresTrailing(read: Reader) {
    forall x, y :: read(x).Ok? ==> read(x + y) == read(x)
  }

  /** Fewer than 12 bytes are too short for the reader. */
  ghost predicate ShortFails(read: Reader) {
    forall x :: |x| < 12 ==> read(x) == Err(TooShort)
  }

  /** The reader never reports a bad signature. */
  ghost predicate NoHeaderError(read: Reader) {
    forall x :: read(x) != Err(InvalidHeader)
  }

  /** `Chunks.Parse` never claims more bytes than it was given. */
  lemma ChunkReaderAdvances()
    ensures Advances(Chunks.Parse)
  {
  }

  /** `Chunks.Parse` returns consistent chunks serialising to what it
      read, and never reports a bad signature. */
  lemma ChunkReaderReads()
    ensures ReadsPrefix(Chunks.Parse) && ReadsConsistent(Chunks.Parse)
    ensures NoHeaderError(Chunks.Parse)
  {
    forall x: seq<uint8>
      ensures Chunks.Parse(x) != Err(InvalidHeader)
    {
      Chunks.ParseErrors(x);
    }
  }

  /** `Chunks.Parse` reads a consistent chunk back from its bytes. */
  lemma ChunkReaderBack()
    ensures ReadsBack(Chunks.Parse)
  {
    forall c: Chunks.Chunk, rest: seq<uint8> | Chunks.Consistent(c)
      ensures Chunks.Parse(Chunks.AsBytes(c) + rest) == Ok(c)
    {
      Chunks.ParseSerialised(c, rest);
    }
  }

  /** `Chunks.Parse` ignores what follows a chunk and rejects fewer than 12
      bytes. */
  lemma ChunkReaderTrailing()
    ensures IgnoresTrailing(Chunks.Parse) && ShortFails(Chunks.Parse)
  {
    forall x: seq<uint8>, y: seq<uint8> | Chunks.Parse(x).Ok?
      ensures Chunks.Parse(x + y) == Chunks.Parse(x)
    {
      Chunks.ParseIgnoresTrailing(x, y);
    }
  }

  /** What the chunk loop run with `Chunks.Parse` on the bytes after the
      signature promises. */
  lemma ParsedChunks(rest: seq<uint8>)
    ensures Advances(Chunks.Parse)
    ensures ParseChunks(Chunks.Parse, rest) != Err(InvalidHeader)
    ensures ParseChunks(Chunks.Parse, rest).Ok? ==>
              && ChunksBytes(ParseChunks(Chunks.Parse, rest).value) == rest
              && AllConsistent(ParseChunks(Chunks.Parse, rest).value)
  {
    ChunkReaderAdvances();
    ChunkReaderReads();
    ParseChunksErrors(Chunks.Parse, rest);
    ParseChunksBytes(Chunks.Parse, rest);
    ParseChunksConsistent(Chunks.Parse, rest);
  }

  /** The chunk loop of `Png::try_from` (pngme/src/png.rs:79-83) on the
      bytes after the signature: read a chunk at the front, keep it and go
      on after it until nothing is left; the first chunk error ends the
      loop. */
  function ParseChunks(read: Reader, rest: seq<uint8>): (r: Result<seq<Chunks.Chunk>, Error>)
    requires Advances(read)
    ensures r.Ok? ==> 12 * |r.value| <= |rest|
    ensures r.Ok? ==> (|r.value| == 0 <==> |rest| == 0)
    decreases |rest|
  {
    if |rest| == 0 then
      Ok([])
    else
      match read(rest)
      case Err(e) => Err(e)
      case Ok(c) =>
        match ParseChunks(read, rest[12 + c.length..])
        case Err(e) => Err(e)
        case Ok(tail) => Ok([c] + tail)
  }

  /** `Png::try_from(&[u8])`. */
  function Parse(b: seq<uint8>): (r: Result<Png, Error>)
    ensures (|b| < 8 || b[..8] != STANDARD_HEADER) <==> r == Err(InvalidHeader)
    ensures r.Ok? ==> AsBytes(r.value) == b && r.value.header == STANDARD_HEADER
    ensures r.Ok? ==> AllConsistent(r.value.chunks)
  {
    if |b| < 8 || b[..8] != STANDARD_HEADER then
      Err(InvalidHeader)
    else
      ParsedChunks(b[8..]);
      match ParseChunks(Chunks.Parse, b[8..])
      case Err(e) => Err(e)
      case Ok(chunks) =>
        assert b == b[..8] + b[8..];
        Ok(Png(STANDARD_HEADER, chunks))
  }

  /** The chunks the loop reads serialise back to exactly the bytes it
      read. */
  lemma {:induction false} ParseChunksBytes(read: Reader, rest: seq<uint8>)
    requires Advances(read) && ReadsPrefix(read)
    ensures ParseChunks(read, rest).Ok? ==> ChunksBytes(ParseChunks(read, rest).value) == rest
    decreases |rest|
  {
    if |rest| > 0 && read(rest).Ok? {
      var c := read(rest).value;
      var k := 12 + c.length;
      ParseChunksBytes(read, rest[k..]);
      if ParseChunks(read, rest[k..]).Ok? {
        var tail := ParseChunks(read, rest[k..]).value;
        assert ([c] + tail)[1..] == tail;
        assert rest == rest[..k] + rest[k..];
      }
    }
  }

  /** Every chunk in `chunks` is consistent. */
  predicate AllConsistent(chunks: seq<Chunks.Chunk>) {
    forall c :: c in chunks ==> Chunks.Consistent(c)
  }

  /** Splitting off the first of consistent chunks. */
  lemma ConsistentSplit(chunks: seq<Chunks.Chunk>)
    requires AllConsistent(chunks) && |chunks| > 0
    ensures Chunks.Consistent(chunks[0]) && AllConsistent(chunks[1..])
  {
    assert chunks[0] in chunks;
  }

  /** Putting a consistent chunk in front of consistent chunks. */
  lemma ConsistentJoin(c: Chunks.Chunk, chunks: seq<Chunks.Chunk>)
    requires Chunks.Consistent(c) && AllConsistent(chunks)
    ensures AllConsistent([c] + chunks)
  {

  }

  /** The chunks the loop reads are consistent. */
  lemma {:induction false} ParseChunksConsistent(read: Reader, rest: seq<uint8>)
    requires Advances(read) && ReadsConsistent(read)
    ensures ParseChunks(read, rest).Ok? ==> AllConsistent(ParseChunks(read, rest).value)
    decreases |rest|
  {
    if |rest| > 0 && read(rest).Ok? {
      var c := read(rest).value;
      ParseChunksConsistent(read, rest[12 + c.length..]);
      if ParseChunks(read, rest[12 + c.length..]).Ok? {
        ConsistentJoin(c, ParseChunks(read, rest[12 + c.length..]).value);
      }
    }
  }

  /** The chunk loop never reports a bad signature. */
  lemma {:induction false} ParseChunksErrors(read: Reader, rest: seq<uint8>)
    requires Advances(read) && NoHeaderError(read)
    ensures ParseChunks(read, rest) != Err(InvalidHeader)
    decreases |rest|
  {
    if |rest| > 0 && read(rest).Ok? {
      var c := read(rest).value;
      ParseChunksErrors(read, rest[12 + c.length..]);
    }
  }

  /** What the loop still has to return once `chunks` have been read. */
  function Continue(chunks: seq<Chunks.Chunk>, r: Result<seq<Chunks.Chunk>, Error>): Result<seq<Chunks.Chunk>, Error> {
    match r
    case Err(e) => Err(e)
    case Ok(tail) => Ok(chunks + tail)
  }

  /** One turn of the source's `while` loop, in terms of `ParseChunks`:
      the chunk read at `index` moves to the chunks read so far and the
      loop goes on at `next`, just after it. */
  lemma LoopStep(read: Reader, b: seq<uint8>, index: nat, next: nat, chunks: seq<Chunks.Chunk>)
    requires Advances(read)
    requires index < |b| && read(b[index..]).Ok?
    requires next == index + 12 + read(b[index..]).value.length
    ensures next <= |b|
    ensures Continue(chunks, ParseChunks(read, b[index..]))
            == Continue(chunks + [read(b[index..]).value], ParseChunks(read, b[next..]))
  {
    var c := read(b[index..]).value;
    assert b[index..][12 + c.length..] == b[next..];
    match ParseChunks(read, b[next..])
    case Err(_) =>
    case Ok(tail) =>
      assert chunks + ([c] + tail) == chunks + [c] + tail;
  }

  /** `Png::try_from` as the source writes it, with a `while` loop. */
  method TryFrom(b: seq<uint8>) returns (r: Result<Png, Error>)
    ensures r == Parse(b)
  {
    if |b| < 8 || b[..8] != STANDARD_HEADER {
      return Err(InvalidHeader);
    }
    ChunkReaderAdvances();
    var chunks: seq<Chunks.Chunk> := [];
    var index := 8;
    assert Continue([], ParseChunks(Chunks.Parse, b[8..])) == ParseChunks(Chunks.Parse, b[8..]) by {
      if ParseChunks(Chunks.Parse, b[8..]).Ok? {
        assert [] + ParseChunks(Chunks.Parse, b[8..]).value == ParseChunks(Chunks.Parse, b[8..]).value;
      }
    }
    while index < |b|
      invariant 8 <= index <= |b|
      invariant Continue(chunks, ParseChunks(Chunks.Parse, b[index..])) == ParseChunks(Chunks.Parse, b[8..])
      decreases |b| - index
    {
      var chunk := Chunks.Parse(b[index..]);
      if chunk.Err? {
        return Err(chunk.error);
      }
      var c := chunk.value;
      var next := index + 4 + 4 + c.length + 4;
      LoopStep(Chunks.Parse, b, index, next, chunks);
      chunks := chunks + [c];
      index := next;
    }
    assert b[index..] == [];
    assert chunks + [] == chunks;
    r := Ok(Png(STANDARD_HEADER, chunks));
  }

  // ---------------------------------------------------------------------
  // Properties
  // ---------------------------------------------------------------------

  /** The loop reads back every sequence of consistent chunks from their
      serialisations. */
  lemma {:induction false} ParseChunksBack(read: Reader, chunks: seq<Chunks.Chunk>)
    requires Advances(read) && ReadsBack(read)
    requires AllConsistent(chunks)
    ensures ParseChunks(read, ChunksBytes(chunks)) == Ok(chunks)
    decreases |chunks|
  {
    if |chunks| > 0 {
      ConsistentSplit(chunks);
      ReadFirst(read, chunks);
      ParseChunksBack(read, chunks[1..]);
      assert [chunks[0]] + chunks[1..] == chunks;
    }
  }

  /** The reader takes the first chunk off a serialised sequence and leaves
      the serialisation of the others. */
  lemma ReadFirst(read: Reader, chunks: seq<Chunks.Chunk>)
    requires ReadsBack(read)
    requires |chunks| > 0 && Chunks.Consistent(chunks[0])
    ensures read(ChunksBytes(chunks)) == Ok(chunks[0])
    ensures 12 + chunks[0].length <= |ChunksBytes(chunks)|
    ensures ChunksBytes(chunks)[12 + chunks[0].length..] == ChunksBytes(chunks[1..])
  {
    var c := chunks[0];
    assert ChunksBytes(chunks) == Chunks.AsBytes(c) + ChunksBytes(chunks[1..]);
  }

  /** Round trip: a file built from consistent chunks parses back from its
      bytes. */
  lemma ParseAsBytes(chunks: seq<Chunks.Chunk>)
    requires AllConsistent(chunks)
    ensures Parse(AsBytes(FromChunks(chunks))) == Ok(FromChunks(chunks))
  {
    ChunkReaderAdvances();
    ChunkReaderBack();
    ParseChunksBack(Chunks.Parse, chunks);
  }

  /** The signature alone is a file with no chunks. */
  lemma ParseEmpty()
    ensures Parse(STANDARD_HEADER) == Ok(FromChunks([]))
  {
  }

  /** Appending a chunk appends its serialisation. */
  lemma {:induction false} ChunksBytesAppend(chunks: seq<Chunks.Chunk>, c: Chunks.Chunk)
    ensures ChunksBytes(chunks + [c]) == ChunksBytes(chunks) + Chunks.AsBytes(c)
    decreases |chunks|
  {
    if |chunks| == 0 {
      assert chunks + [c] == [c];
      assert ChunksBytes([c]) == Chunks.AsBytes(c) + ChunksBytes([]);
    } else {
      assert (chunks + [c])[1..] == chunks[1..] + [c];
      ChunksBytesAppend(chunks[1..], c);
    }
  }

  lemma AsBytesAppend(p: Png, c: Chunks.Chunk)
    ensures AsBytes(AppendChunk(p, c)) == AsBytes(p) + Chunks.AsBytes(c)
  {
    ChunksBytesAppend(p.chunks, c);
  }

  /** Bytes after the last chunk are never ignored: fewer than 12 of them
      make the chunk reader fail with `TooShort`. */
  lemma {:induction false} ParseChunksTrailing(read: Reader, rest: seq<uint8>, extra: seq<uint8>)
    requires Advances(read) && IgnoresTrailing(read) && ShortFails(read)
    requires ParseChunks(read, rest).Ok?
    requires 0 < |extra| < 12
    ensures ParseChunks(read, rest + extra) == Err(TooShort)
    decreases |rest|
  {
    if |rest| == 0 {
      assert rest + extra == extra;
    } else {
      var c := read(rest).value;
      var k := 12 + c.length;
      ReadWithTrailing(read, rest, extra);
      ParseChunksTrailing(read, rest[k..], extra);
    }
  }

  /** Reading a chunk with bytes appended reads the same chunk and leaves
      the appended bytes at the end of what is left. */
  lemma ReadWithTrailing(read: Reader, rest: seq<uint8>, extra: seq<uint8>)
    requires Advances(read) && IgnoresTrailing(read)
    requires read(rest).Ok?
    ensures 12 + read(rest).value.length <= |rest|
    ensures read(rest + extra) == read(rest)
    ensures (rest + extra)[12 + read(rest).value.length..] == rest[12 + read(rest).value.length..] + extra
  {
  }

  lemma ParseTrailing(b: seq<uint8>, extra: seq<uint8>)
    requires Parse(b).Ok?
    requires 0 < |extra| < 12
    ensures Parse(b + extra) == Err(TooShort)
  {
    SignatureKept(b, extra);
    TrailingChunks(b[8..], extra);
  }

  /** Appending to a file with a good signature keeps the signature. */
  lemma SignatureKept(b: seq<uint8>, extra: seq<uint8>)
    requires |b| >= 8
    ensures (b + extra)[..8] == b[..8] && (b + extra)[8..] == b[8..] + extra
  {
  }

  /** `ParseChunksTrailing` for `Chunks.Parse`. */
  lemma TrailingChunks(rest: seq<uint8>, extra: seq<uint8>)
    requires 0 < |extra| < 12
    ensures Advances(Chunks.Parse)
    ensures ParseChunks(Chunks.Parse, rest).Ok? ==> ParseChunks(Chunks.Parse, rest + extra) == Err(TooShort)
  {
    ChunkReaderAdvances();
    ChunkReaderTrailing();
    if ParseChunks(Chunks.Parse, rest).Ok? {
      ParseChunksTrailing(Chunks.Parse, rest, extra);
    }
  }


  /** `chunk_by_type` finds exactly the chunk `remove_first_chunk` takes
      out. */
  lemma ChunkByTypeIsRemoved(p: Png, chunkType: string)
    ensures ChunkByType(p, chunkType)
         == (var r := RemoveFirstChunk(p, chunkType);
             if r.result.Ok? then Some(r.result.value) else None)
  {
  }

  /** Removing a chunk then putting it back at the same place restores the
      file. */
  lemma RemoveThenReinsert(p: Png, chunkType: string)
    requires RemoveFirstChunk(p, chunkType).result.Ok?
    ensures var r := RemoveFirstChunk(p, chunkType);
            var i := Position(p.chunks, FromStr(chunkType).value).value;
            r.png.chunks[..i] + [r.result.value] + r.png.chunks[i..] == p.chunks
  {
    var t := FromStr(chunkType).value;
    var i := Position(p.chunks, t).value;
    var rest := RemoveFirstChunk(p, chunkType).png.chunks;
    assert rest[..i] == p.chunks[..i];
    assert rest[i..] == p.chunks[i + 1..];
    assert p.chunks == p.chunks[..i] + [p.chunks[i]] + p.chunks[i + 1..];
  }

  /** The source's tests, for any chunk type text and any data: a file of
      one chunk has one chunk and the standard signature, gives that chunk
      to `chunk_by_type` and `remove_first_chunk` (leaving no chunks),
      serialises to more than the signature and parses back to itself. */
  lemma SingleChunkFile(s: string, data: seq<uint8>)
    requires FromStr(s).Ok? && |data| < UINT32_LIMIT
    ensures var c := Chunks.New(FromStr(s).value, data);
            var p := FromChunks([c]);
            && |p.chunks| == 1 && p.header == STANDARD_HEADER
            && AppendChunk(FromChunks([]), c) == p
            && ChunkByType(p, s) == Some(c)
            && RemoveFirstChunk(p, s) == Removal(FromChunks([]), Ok(c))
            && |AsBytes(p)| > 8
            && Parse(AsBytes(p)) == Ok(p)
  {
    var t := FromStr(s).value;
    assert AllAsciiAlphabetic(t.bytes) by {
      forall i | 0 <= i < 4
        ensures IsAsciiAlphabetic(t.bytes[i])
      {
        assert IsAsciiLetterChar(s[i]);
      }
    }
    var c := Chunks.New(t, data);
    assert AllConsistent([c]);
    ParseAsBytes([c]);
  }
}
