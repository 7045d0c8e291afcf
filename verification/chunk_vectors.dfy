/** Concrete values for the chunk built in the source's own tests
    (pngme/src/chunk.rs:128-242): type "RuSt" with data "Rust", and the same
    type with the text "This is where your secret message will be!". The
    register values are checked one byte at a time; `Crc32.RunAppend` joins
    the blocks. */
module ChunkVectors {
  import opened Bytes
  import opened Wrappers
  import opened Crc32
  import opened ChunkTypes
  import opened Chunks
  import opened Errors

  /** The chunk type "RuSt". */
  const RUST_TYPE: ChunkType := ChunkType([82, 117, 83, 116])

  /** The data "Rust". */
  const RUST_DATA: seq<uint8> := [82, 117, 115, 116]

  /** The data "This is where your secret message will be!", in blocks of
      eight bytes. */
  const MESSAGE: seq<uint8> :=
    [84, 104, 105, 115, 32, 105, 115, 32]          // "This is "
    + ([119, 104, 101, 114, 101, 32, 121, 111]     // "where yo"
    + ([117, 114, 32, 115, 101, 99, 114, 101]      // "ur secre"
    + ([116, 32, 109, 101, 115, 115, 97, 103]      // "t messag"
    + ([101, 32, 119, 105, 108, 108, 32, 98]       // "e will b"
    + [101, 33]))))                                // "e!"

  /** The source's tests build the chunk type with `from_str("RuSt")`. */
  lemma RustType()
    ensures FromStr("RuSt") == Ok(RUST_TYPE)
  {
    SourceExamples();
  }

  /** The register after the type bytes "RuSt". */
  lemma TypeBlock()
    ensures LsbRun(REFLECTED_POLY, 0xffffffff, [82, 117, 83, 116]) == 0x2b7bf6c3
  {
    assert LsbFeed(REFLECTED_POLY, 0xffffffff, 82) == 0xa89820aa;
    assert LsbFeed(REFLECTED_POLY, 0xa89820aa, 117) == 0x16c45765;
    assert LsbFeed(REFLECTED_POLY, 0x16c45765, 83) == 0xcfac51ce;
    assert LsbFeed(REFLECTED_POLY, 0xcfac51ce, 116) == 0x2b7bf6c3;
  }

  /** The register after the data "Rust". */
  lemma RustDataBlock()
    ensures LsbRun(REFLECTED_POLY, 0x2b7bf6c3, [82, 117, 115, 116]) == 0xd582e575
  {
    assert LsbFeed(REFLECTED_POLY, 0x2b7bf6c3, 82) == 0x8723d824;
    assert LsbFeed(REFLECTED_POLY, 0x8723d824, 117) == 0x1ceb42ba;
    assert LsbFeed(REFLECTED_POLY, 0x1ceb42ba, 115) == 0xe2a49156;
    assert LsbFeed(REFLECTED_POLY, 0xe2a49156, 116) == 0xd582e575;
  }

  lemma RustRegister(b0: seq<uint8>, b1: seq<uint8>)
    requires b0 == [82, 117, 83, 116] && b1 == [82, 117, 115, 116]
    ensures LsbRun(REFLECTED_POLY, 0xffffffff, b0 + b1) == 0xd582e575
  {
    TypeBlock();
    RustDataBlock();
    RunAppend(REFLECTED_POLY, 0xffffffff, b0, b1);
  }

  /** The chunk the source's tests build from "RuSt" and "Rust" has length 4
      and CRC 712841866. */
  lemma RustChunkCrc()
    ensures New(RUST_TYPE, RUST_DATA).length == 4
    ensures New(RUST_TYPE, RUST_DATA).crc == 712841866
  {
    RustRegister(RUST_TYPE.bytes, RUST_DATA);
  }

  lemma MessageBlock1()
    ensures LsbRun(REFLECTED_POLY, 0x2b7bf6c3, [84, 104, 105, 115, 32, 105, 115, 32]) == 0x0487c27f
  {
    assert LsbFeed(REFLECTED_POLY, 0x2b7bf6c3, 84) == 0x6e407d11;
    assert LsbFeed(REFLECTED_POLY, 0x6e407d11, 104) == 0x29b789e5;
    assert LsbFeed(REFLECTED_POLY, 0x29b789e5, 105) == 0xe4277882;
    assert LsbFeed(REFLECTED_POLY, 0xe4277882, 115) == 0xca5ee5f2;
    assert LsbFeed(REFLECTED_POLY, 0xca5ee5f2, 32) == 0x6817ed1d;
    assert LsbFeed(REFLECTED_POLY, 0x6817ed1d, 105) == 0x5700a2c8;
    assert LsbFeed(REFLECTED_POLY, 0x5700a2c8, 115) == 0x5ce46aa6;
    assert LsbFeed(REFLECTED_POLY, 0x5ce46aa6, 32) == 0x0487c27f;
  }

  lemma MessageBlock2()
    ensures LsbRun(REFLECTED_POLY, 0x0487c27f, [119, 104, 101, 114, 101, 32, 121, 111]) == 0x0a65c7d4
  {
    assert LsbFeed(REFLECTED_POLY, 0x0487c27f, 119) == 0x0edf0ff0;
    assert LsbFeed(REFLECTED_POLY, 0x0edf0ff0, 104) == 0xfedac479;
    assert LsbFeed(REFLECTED_POLY, 0xfedac479, 101) == 0x14ff868b;
    assert LsbFeed(REFLECTED_POLY, 0x14ff868b, 114) == 0xc475b53e;
    assert LsbFeed(REFLECTED_POLY, 0xc475b53e, 101) == 0xfc7dfdc9;
    assert LsbFeed(REFLECTED_POLY, 0xfc7dfdc9, 32) == 0xd92a2721;
    assert LsbFeed(REFLECTED_POLY, 0xd92a2721, 121) == 0x6569f3e1;
    assert LsbFeed(REFLECTED_POLY, 0x6569f3e1, 111) == 0x0a65c7d4;
  }

  lemma MessageBlock3()
    ensures LsbRun(REFLECTED_POLY, 0x0a65c7d4, [117, 114, 32, 115, 101, 99, 114, 101]) == 0xd945629f
  {
    assert LsbFeed(REFLECTED_POLY, 0x0a65c7d4, 117) == 0xa1dbf6b9;
    assert LsbFeed(REFLECTED_POLY, 0xa1dbf6b9, 114) == 0x0c17c0ce;
    assert LsbFeed(REFLECTED_POLY, 0x0c17c0ce, 32) == 0x47bed8bf;
    assert LsbFeed(REFLECTED_POLY, 0x47bed8bf, 115) == 0x92953043;
    assert LsbFeed(REFLECTED_POLY, 0x92953043, 101) == 0xd29f10cd;
    assert LsbFeed(REFLECTED_POLY, 0xd29f10cd, 99) == 0x31bc11ff;
    assert LsbFeed(REFLECTED_POLY, 0x31bc11ff, 114) == 0x9338438c;
    assert LsbFeed(REFLECTED_POLY, 0x9338438c, 101) == 0xd945629f;
  }

  lemma MessageBlock4()
    ensures LsbRun(REFLECTED_POLY, 0xd945629f, [116, 32, 109, 101, 115, 115, 97, 103]) == 0xb3eb484f
  {
    assert LsbFeed(REFLECTED_POLY, 0xd945629f, 116) == 0x37017e92;
    assert LsbFeed(REFLECTED_POLY, 0x37017e92, 32) == 0x2558d3de;
    assert LsbFeed(REFLECTED_POLY, 0x2558d3de, 109) == 0x524dbae5;
    assert LsbFeed(REFLECTED_POLY, 0x524dbae5, 101) == 0xedeace9a;
    assert LsbFeed(REFLECTED_POLY, 0xedeace9a, 115) == 0xd93bb012;
    assert LsbFeed(REFLECTED_POLY, 0xd93bb012, 115) == 0x3a6c6a7e;
    assert LsbFeed(REFLECTED_POLY, 0x3a6c6a7e, 97) == 0x8d32619f;
    assert LsbFeed(REFLECTED_POLY, 0x8d32619f, 103) == 0xb3eb484f;
  }

  lemma MessageBlock5()
    ensures LsbRun(REFLECTED_POLY, 0xb3eb484f, [101, 32, 119, 105, 108, 108, 32, 98]) == 0x7f0b93f5
  {
    assert LsbFeed(REFLECTED_POLY, 0xb3eb484f, 101) == 0xdb08229e;
    assert LsbFeed(REFLECTED_POLY, 0xdb08229e, 32) == 0x2c0296a9;
    assert LsbFeed(REFLECTED_POLY, 0x2c0296a9, 119) == 0x6147fd45;
    assert LsbFeed(REFLECTED_POLY, 0x6147fd45, 105) == 0x32b92b1e;
    assert LsbFeed(REFLECTED_POLY, 0x32b92b1e, 108) == 0xbe39a93b;
    assert LsbFeed(REFLECTED_POLY, 0xbe39a93b, 108) == 0xf5b1fdfe;
    assert LsbFeed(REFLECTED_POLY, 0xf5b1fdfe, 32) == 0x619e4e2e;
    assert LsbFeed(REFLECTED_POLY, 0x619e4e2e, 98) == 0x7f0b93f5;
  }

  lemma MessageBlock6()
    ensures LsbRun(REFLECTED_POLY, 0x7f0b93f5, [101, 33]) == 0x542e27b1
  {
    assert LsbFeed(REFLECTED_POLY, 0x7f0b93f5, 101) == 0xf07098d7;
    assert LsbFeed(REFLECTED_POLY, 0xf07098d7, 33) == 0x542e27b1;
  }

  lemma MessageRegister(b0: seq<uint8>, b1: seq<uint8>, b2: seq<uint8>, b3: seq<uint8>,
                        b4: seq<uint8>, b5: seq<uint8>, b6: seq<uint8>)
    requires b0 == [82, 117, 83, 116]
    requires b1 == [84, 104, 105, 115, 32, 105, 115, 32]
    requires b2 == [119, 104, 101, 114, 101, 32, 121, 111]
    requires b3 == [117, 114, 32, 115, 101, 99, 114, 101]
    requires b4 == [116, 32, 109, 101, 115, 115, 97, 103]
    requires b5 == [101, 32, 119, 105, 108, 108, 32, 98]
    requires b6 == [101, 33]
    ensures LsbRun(REFLECTED_POLY, 0xffffffff, b0 + (b1 + (b2 + (b3 + (b4 + (b5 + b6))))))
         == 0x542e27b1
  {
    TypeBlock();
    MessageBlock1();
    MessageBlock2();
    MessageBlock3();
    MessageBlock4();
    MessageBlock5();
    MessageBlock6();
    RunAppend(REFLECTED_POLY, 0xffffffff, b0, b1 + (b2 + (b3 + (b4 + (b5 + b6)))));
    RunAppend(REFLECTED_POLY, 0x2b7bf6c3, b1, b2 + (b3 + (b4 + (b5 + b6))));
    RunAppend(REFLECTED_POLY, 0x0487c27f, b2, b3 + (b4 + (b5 + b6)));
    RunAppend(REFLECTED_POLY, 0x0a65c7d4, b3, b4 + (b5 + b6));
    RunAppend(REFLECTED_POLY, 0xd945629f, b4, b5 + b6);
    RunAppend(REFLECTED_POLY, 0xb3eb484f, b5, b6);
  }

  /** 2882656334 is the CRC of the chunk with type "RuSt" and the message
      text as data. */
  lemma MessageChunkCrc()
    ensures New(RUST_TYPE, MESSAGE).length == 42
    ensures New(RUST_TYPE, MESSAGE).crc == 2882656334
  {
    MessageRegister(
      RUST_TYPE.bytes,
      [84, 104, 105, 115, 32, 105, 115, 32],
      [119, 104, 101, 114, 101, 32, 121, 111],
      [117, 114, 32, 115, 101, 99, 114, 101],
      [116, 32, 109, 101, 115, 115, 97, 103],
      [101, 32, 119, 105, 108, 108, 32, 98],
      [101, 33]);
  }

  /** The CRC the source's tests expect for the "RuSt"/"Rust" chunk,
      2882656334, is not that chunk's CRC; it is the CRC of the chunk with
      the same type and the message text as data. */
  lemma ExpectedCrcMismatch()
    ensures New(RUST_TYPE, RUST_DATA).crc != 2882656334
    ensures New(RUST_TYPE, MESSAGE).crc == 2882656334
  {
    RustChunkCrc();
    MessageChunkCrc();
  }

  /** The source's two byte-level tests: the serialised "RuSt"/"Rust" chunk
      parses back unchanged, and with its CRC field raised by one it is
      rejected. */
  lemma RustChunkFromBytes()
    ensures var c := New(RUST_TYPE, RUST_DATA);
      && Parse(AsBytes(c)) == Ok(c)
      && Parse(AsBytes(c.(crc := 712841867))) == Err(CrcMismatch)
  {
    var c := New(RUST_TYPE, RUST_DATA);
    RustChunkCrc();
    assert AllAsciiAlphabetic(RUST_TYPE.bytes) by {
      SourceExamples();
    }
    NewRoundTrip(RUST_TYPE, RUST_DATA);
    WrongCrcRejected(c, 712841867);
  }
}
