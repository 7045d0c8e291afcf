/** The failure modes of the codec. The source reports every failure through a
    dynamically typed error carrying a message; each distinct message becomes
    one constructor here. */
module Errors {

  datatype Error =
    /** a chunk type byte is not an ASCII letter */
    | InvalidCharacters
    /** a chunk type text is not exactly 4 bytes long */
    | WrongLength
    /** fewer than 12 bytes are left for a chunk */
    | TooShort
    /** the declared data length plus the CRC does not fit in the input */
    | NotEnoughData
    /** the recomputed CRC differs from the one read from the input */
    | CrcMismatch
    /** the input does not start with the 8-byte PNG signature */
    | InvalidHeader
    /** no chunk of the requested type is present */
    | ChunkNotFound
}
