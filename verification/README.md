# pngme core in Dafny

A model of the codec at the heart of pngme, a tool that hides messages in
PNG files. The model has three layers, each with its own file:

- **Chunk types** (`chunk_type.dfy`, module `ChunkTypes`). A chunk type is a
  4-byte code. It is built from four bytes or from text, and it can be
  displayed. It has the four property bits: critical, public, reserved and
  safe-to-copy.
- **Chunks** (`chunk.dfy`, module `Chunks`). A chunk is laid out as a
  big-endian length, the type, the data, then a big-endian CRC-32 of the type
  and data. `New` builds a chunk, `AsBytes` serialises it and `Parse` reads one
  from the front of a byte string. The CRC-32 (`crc32.dfy`, module `Crc32`) is
  defined twice and proved equal:
  - the reference MSB-first register described by the parameter record
    `CRC_32_ALGO` (polynomial 0x04C11DB7, reflected input and output, initial
    value and final xor 0xFFFFFFFF);
  - the reflected LSB-first register with 0xEDB88320 that the codec runs.
- **PNG files** (`png.dfy`, module `Pngs`). A file is the 8-byte signature
  followed by chunks. The module covers building, appending, finding and
  removing chunks, serialising a file and parsing one back.

The source mutates a `Png` in place. Here every operation returns the new
value, and `remove_first_chunk` returns a `Removal` that pairs the new file
with the result.

Parsing a file reads chunks in a loop until the input is used up. That loop
is `Pngs.ParseChunks`. It is stated over any chunk reader, a function
`seq<uint8> -> Result<Chunk, Error>`. Its lemmas assume only named reader
properties:
- the reader consumes at least 12 bytes and never more than it was given;
- it returns what it read;
- it reads back what it serialised;
- it ignores trailing bytes;
- it fails on short input.

`Pngs.Parse` runs the loop with `Chunks.Parse`, and the `ChunkReader` lemmas
show that `Chunks.Parse` has each of these properties. `Pngs.TryFrom` is the
source's `while` loop, written as a method and proved equal to `Pngs.Parse`.

Other files:
- `bytes.dfy`: byte and `u32` types, ASCII classes and big-endian conversion.
- `utf8.dfy`: the UTF-8 encoding of a text, because Rust's `str::len` counts
  bytes.
- `errors.dfy`: one constructor per failure message of the source.
- `wrappers.dfy`: `Option` and `Result`.
- `chunk_vectors.dfy`: the concrete chunk values used by the source's tests.

Two behaviours of the code are worth stating:
- `is_public` tests byte 0, the same byte as `is_critical`. The PNG convention
  (section 5.4 of the PNG specification) puts the public bit in byte 1.
  `ChunkTypes.PublicReadsByteZero` shows the effect on "tEXt".
- Parsing a file does not tolerate trailing bytes. Between 1 and 11 extra
  bytes after the last chunk make the chunk reader fail with `TooShort`
  (`Pngs.ParseTrailing`).

## Model

| member | source | states |
|---|---|---|
| ChunkTypes.IsCritical | pngme/pngme_lib/src/chunk_type.rs:32-34 | When byte 0 is a letter, the chunk is critical exactly when bit 0x20 of byte 0 is clear |
| ChunkTypes.IsPublic | pngme/pngme_lib/src/chunk_type.rs:38-40 | When byte 0 is a letter, the chunk is reported public exactly when bit 0x20 of byte 0 (not byte 1) is clear |
| ChunkTypes.IsReservedBitValid | pngme/pngme_lib/src/chunk_type.rs:44-46 | The reserved bit is valid exactly when byte 2 masked with 0x20 is zero |
| ChunkTypes.IsSafeToCopy | pngme/pngme_lib/src/chunk_type.rs:50-52 | When byte 3 is a letter, the chunk is safe to copy exactly when bit 0x20 of byte 3 is set |
| ChunkTypes.IsValid | pngme/pngme_lib/src/chunk_type.rs:26-28 | A chunk type is valid exactly when its reserved bit is valid and its bytes would be accepted unchanged by the byte constructor |
| ChunkTypes.TryFromBytes | pngme/pngme_lib/src/chunk_type.rs:62-68 | Four bytes make a chunk type exactly when all of them are ASCII letters, and the type keeps those bytes; otherwise the error is InvalidCharacters |
| ChunkTypes.FromStr | pngme/pngme_lib/src/chunk_type.rs:75-88 | A text makes a chunk type exactly when it is four ASCII letters, whose codes become the bytes; a UTF-8 byte length other than 4 gives WrongLength, and otherwise a non-letter gives InvalidCharacters |
| Utf8.Encode | pngme/pngme_lib/src/chunk_type.rs:76-79 | The UTF-8 bytes of a text, at least one per character; LettersAreOneByteEach shows that a letter encoding has exactly one byte per character, each the character's code |
| ChunkTypes.FromStrAgreesWithTryFrom | pngme/pngme_lib/src/chunk_type.rs:83-87 | Once the text is 4 bytes long, converting it is the same as converting its bytes |
| ChunkTypes.Display | pngme/pngme_lib/src/chunk_type.rs:92-97 | The display text has four characters; DisplayFromStr and FromStrDisplay give its exact value for letter types |
| ChunkTypes.DisplayFromStr | pngme/pngme_lib/src/chunk_type.rs:92-97 | Displaying a chunk type converted from text gives that text back |
| ChunkTypes.FromStrDisplay | pngme/pngme_lib/src/chunk_type.rs:92-97 | Converting the display text of a letter chunk type gives the same chunk type |
| ChunkTypes.PublicIsCritical | pngme/pngme_lib/src/chunk_type.rs:32-40 | is_public and is_critical agree on every chunk type, because both read byte 0 |
| ChunkTypes.PublicReadsByteZero | pngme/pngme_lib/src/chunk_type.rs:38-40 | In "tEXt" byte 1 is upper case, so section 5.4 of the PNG specification calls it public, yet is_public reports false |
| ChunkTypes.ReservedBitIsUppercase | pngme/pngme_lib/src/chunk_type.rs:44-46 | For a letter chunk type, clearing bit 0x20 of byte 2 is the same as byte 2 being upper case |
| ChunkTypes.ValidIsReservedBitValid | pngme/pngme_lib/src/chunk_type.rs:26-28 | For any chunk type built from bytes, is_valid holds exactly when the reserved bit is valid |
| ChunkTypes.SourceExamples | pngme/pngme_lib/src/chunk_type.rs:106-198 | The tests' conversions: "RuSt" from text equals "RuSt" from bytes, displays as "RuSt" and has a valid reserved bit; "Ru_t" and "E*If" are rejected; "RuSt" differs from "RuST". One further case follows from the reserved-bit rule rather than from a test: "Rust" constructs but its reserved bit is not valid |
| ChunkTypes.PropertyExamples | pngme/pngme_lib/src/chunk_type.rs:120-172 | The tests' property cases: InFo is critical and inFo is not; Publ is public and publ is not; Safe is safe to copy and SafE is not; ExIf is valid |
| Bytes.ToBE32 | pngme/src/chunk.rs:76-79 | The big-endian encoding of a u32 is 4 bytes that decode back to the same value |
| Bytes.FromBE32 | pngme/src/chunk.rs:92 | Four bytes read as a big-endian u32; ToBE32 and ToFromBE32 make it the inverse of the encoding |
| Bytes.ToFromBE32 | pngme/src/chunk.rs:92 | Decoding 4 bytes as a big-endian u32 and encoding the value again gives the same bytes |
| Crc32.Reference | pngme/src/chunk.rs:11-20 | The CRC a parameter record defines: bytes fed most significant bit first (bit-reversed when refin is set), the register reflected when refout is set, then xored with xorout; its check value is reproduced by ReferenceCheckValue |
| Crc32.Checksum | pngme/src/chunk.rs:38-39 | The checksum the codec computes; ChecksumIsReference proves it equal, for every input, to the CRC that CRC_32_ALGO defines |
| Crc32.ChecksumIsReference | pngme/src/chunk.rs:10-20 | The checksum the codec computes is the CRC-32 that the CRC_32_ALGO parameter record defines, bit by bit, for every input |
| Crc32.ReflectedMatchesReference | pngme/src/chunk.rs:11-20 | For any record with reflected input and output, the MSB-first reference equals the LSB-first register with mirrored polynomial and initial value |
| Crc32.CheckValue | pngme/src/chunk.rs:17 | The checksum of "123456789" is the record's check value 0xCBF43926 |
| Crc32.ReferenceCheckValue | pngme/src/chunk.rs:11-20 | The reference computation from the record reproduces the record's own check field |
| Crc32.ComputeChecksum | pngme/src/chunk.rs:38-39 | Feeding the bytes one at a time into a register gives the checksum of the whole input |
| Crc32.RunAppend | pngme/src/chunk.rs:100-104 | Feeding a concatenation is feeding the first part, then the second from the register it left |
| Chunks.New | pngme/src/chunk.rs:33-46 | New keeps the type and data, sets the CRC to the checksum of type then data, and keeps the length modulo 2^32; below 2^32 bytes of data the chunk is consistent |
| Chunks.AsBytes | pngme/src/chunk.rs:74-81 | A serialised chunk is 12 bytes longer than its data; Layout places each field and ParseSerialised reads it back |
| Chunks.Parse | pngme/src/chunk.rs:88-114 | Fewer than 12 bytes give TooShort; a parsed chunk is consistent (letter type, true length, true CRC) and serialises to exactly the prefix it was read from |
| Chunks.ParseRejects | pngme/src/chunk.rs:89-107 | The error for each malformed input: a non-letter type byte gives InvalidCharacters, a length running past the end gives NotEnoughData, and a CRC field that differs from the checksum gives CrcMismatch; a parsed length is the length field |
| Chunks.ParseErrors | pngme/src/chunk.rs:88-114 | The only errors reading a chunk reports are TooShort, InvalidCharacters, NotEnoughData and CrcMismatch |
| Chunks.Layout | pngme/src/chunk.rs:74-81 | In a serialised chunk, the length field, type, data and CRC field sit at offsets 0, 4, 8 and 8 + length, and bytes 4 to 8 + length are the CRC input |
| Chunks.ParseSerialised | pngme/src/chunk.rs:74-114 | Reading back the serialisation of a consistent chunk, followed by any bytes, gives the chunk |
| Chunks.NewRoundTrip | pngme/src/chunk.rs:175-202 | A chunk built by New from a letter type and fewer than 2^32 bytes has the true length and reads back from its serialisation unchanged |
| Chunks.ParseIgnoresTrailing | pngme/src/chunk.rs:94-98 | Bytes after a successfully read chunk do not change the result |
| Chunks.WrongCrcRejected | pngme/src/chunk.rs:204-227 | A serialised consistent chunk whose CRC field holds any other value is rejected with CrcMismatch |
| ChunkVectors.RustType | pngme/src/chunk.rs:136 | The text "RuSt" converts to the chunk type with bytes 82, 117, 83, 116 |
| ChunkVectors.RustChunkCrc | pngme/src/chunk.rs:134-141 | The chunk of type "RuSt" with data "Rust" has length 4 and CRC 712841866 |
| ChunkVectors.MessageChunkCrc | pngme/src/chunk.rs:172 | The constant 2882656334 expected there is the CRC of the chunk of type "RuSt" whose data is the text "This is where your secret message will be!" (42 bytes). The text does not appear in the code; it is the data whose CRC the constant is |
| ChunkVectors.ExpectedCrcMismatch | pngme/src/chunk.rs:140 | The CRC 2882656334 expected for the "RuSt"/"Rust" chunk is not its CRC; it belongs to the message chunk |
| ChunkVectors.RustChunkFromBytes | pngme/src/chunk.rs:175-227 | The serialised "RuSt"/"Rust" chunk reads back unchanged, and with its CRC field raised by one it is rejected with CrcMismatch |
| Pngs.FromChunks | pngme/src/png.rs:18-23 | A file built from chunks carries the standard signature and exactly those chunks |
| Pngs.AppendChunk | pngme/src/png.rs:26-28 | Appending keeps the signature and every earlier chunk in place and adds the new chunk last |
| Pngs.AsBytesAppend | pngme/src/png.rs:26-28 | After an append, the file serialises to its old bytes followed by the new chunk's bytes |
| Pngs.Position | pngme/src/png.rs:33 | The index search returns the first index whose chunk has the type, and none exactly when no chunk has it |
| Pngs.RemoveFirstChunk | pngme/src/png.rs:31-38 | A type text that does not convert returns its conversion error and a type with no chunk returns ChunkNotFound, both leaving the file unchanged; otherwise the first chunk of that type is returned and removed, with the signature and all other chunks kept in order |
| Pngs.RemoveThenReinsert | pngme/src/png.rs:31-38 | Putting the removed chunk back at its index restores the original chunk list |
| Pngs.ChunkByType | pngme/src/png.rs:51-57 | Finding by type gives none for a type text that does not convert, and otherwise the first chunk of that type, none exactly when the file has no such chunk |
| Pngs.ChunkByTypeIsRemoved | pngme/src/png.rs:51-57 | The chunk found by type is exactly the chunk that removing that type would return |
| Pngs.ChunksBytes | pngme/src/png.rs:62-64 | The chunks' serialisations in order, at least 12 bytes per chunk |
| Pngs.AsBytes | pngme/src/png.rs:60-66 | A file serialises to its signature followed by its chunks' serialisations |
| Pngs.Parse | pngme/src/png.rs:73-88 | Reading a file gives InvalidHeader exactly when the input is shorter than 8 bytes or does not start with the signature; a file it returns has the standard signature, consistent chunks, and serialises to the whole input |
| Pngs.ParseChunks | pngme/src/png.rs:79-83 | The chunk loop: a successful run read at least 12 bytes per chunk and returns no chunks exactly when it was given no bytes |
| Pngs.TryFrom | pngme/src/png.rs:73-88 | The source's while loop, which advances the index by 12 + length per chunk, computes the same result as the recursive definition of reading a file |
| Pngs.LoopStep | pngme/src/png.rs:79-83 | One loop turn moves the chunk read at the index to the chunks already read and resumes just after that chunk, still inside the input |
| Pngs.ParseChunksBytes | pngme/src/png.rs:79-83 | For any reader that returns what it read, the chunks the loop reads serialise, one after another, to exactly the bytes it was given |
| Pngs.ParseChunksConsistent | pngme/src/png.rs:80 | For any reader that returns consistent chunks, every chunk the loop reads is consistent |
| Pngs.ParseChunksErrors | pngme/src/png.rs:80 | The loop reports only the errors of its chunk reader, so never InvalidHeader |
| Pngs.ChunkReaderReads | pngme/src/chunk.rs:88-114 | The chunk reader returns consistent chunks that serialise to the prefix it read, and never reports InvalidHeader |
| Pngs.ChunkReaderBack | pngme/src/chunk.rs:74-114 | The chunk reader reads back every consistent chunk from its serialisation followed by any bytes |
| Pngs.ChunkReaderTrailing | pngme/src/chunk.rs:89-98 | The chunk reader ignores bytes after a chunk it reads and gives TooShort on fewer than 12 bytes |
| Pngs.ParseChunksBack | pngme/src/png.rs:60-83 | For any reader that reads back what was serialised, the loop reads back every list of consistent chunks from its serialisation |
| Pngs.ParseAsBytes | pngme/src/png.rs:60-88 | Round trip: a file of consistent chunks reads back unchanged from its serialisation |
| Pngs.ParseEmpty | pngme/src/png.rs:79 | The bare signature reads as a file with no chunks |
| Pngs.ParseChunksTrailing | pngme/src/png.rs:79-82 | For any reader that ignores trailing bytes and fails on short input, 1 to 11 bytes after the last chunk make the loop fail with TooShort |
| Pngs.ParseTrailing | pngme/src/png.rs:73-88 | A readable file followed by 1 to 11 more bytes is rejected with TooShort |
| Pngs.SingleChunkFile | pngme/src/png.rs:112-191 | The tests' one-chunk file: it has one chunk and the standard signature; it equals the empty file with that chunk appended; finding its type gives the chunk; removing its type gives the chunk and leaves an empty file; it serialises to more than 8 bytes; it reads back unchanged |

## Left out

- `pngme/src/chunk_type.rs`, which `pngme/src/chunk.rs:7` imports, is not part of this model. Chunk types are modelled from `pngme/pngme_lib/src/chunk_type.rs` and the two are taken to be identical.
- The command-line program (argument parsing, file I/O, encode, decode, remove and print commands) and the crate roots: they are I/O around the core.
- The `Display` implementations of `Chunk` and `Png`, and `Chunk::data_as_string`: they only format text and check UTF-8 for printing.
- The field accessors (`bytes`, `length`, `chunk_type`, `data`, `crc`, `header`, `chunks`): they are the fields of the datatypes.
- Error messages: each distinct message of the source is one `Error` constructor; the text itself is not modelled.
- ChunkTypes.Display: its contract states only that the result has four characters. `from_utf8_lossy` decodes whole UTF-8 sequences, while the model maps each byte to its character or to U+FFFD. The two agree on every chunk type built by `TryFromBytes` or `FromStr`; `DisplayFromStr` and `FromStrDisplay` state the exact behaviour for those.
- The `try_into` error branch of `from_str` (pngme/pngme_lib/src/chunk_type.rs:79-82) cannot be taken after the length test, so it has no counterpart.
- Pointer width: `usize` is taken as 64 bits, so `8 + length` and the loop index never overflow.
- The CRC crate's table-driven implementation: the checksum is modelled bit by bit and proved equal to the reference definition of the parameter record.
- `Chunk` derives no equality in the source, yet the `Png` tests compare chunks. The model compares chunks field by field.
- The chunk tests at pngme/src/chunk.rs:184 and :213 pass the polynomial constant where the crate expects a parameter record. They are modelled as using `CRC_32_ALGO`, the only CRC the codec computes.

## Findings

| source | as written | input that shows it | evidently intended | confidence | as-written member | corrected member |
|---|---|---|---|---|---|---|
| pngme/src/chunk.rs:134-141 | The tests expect CRC 2882656334 for the chunk of type "RuSt" with data "Rust" (also at lines 172 and 238) | type "RuSt", data [82, 117, 115, 116]: its CRC-32 is 712841866 | The tests should expect 712841866; 2882656334 is the CRC of the same type with the data "This is where your secret message will be!" | high, not executed | ChunkVectors.ExpectedCrcMismatch | ChunkVectors.RustChunkCrc |
