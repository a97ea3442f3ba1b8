/** The result triple `(String, [u8; 32], u64)` that a hashing worker sends
    to the collector, and the black-box SHA-256 of the `lsx` crate. */
module Records {
  import opened Bytes

  const DIGEST_LENGTH: nat := 32

  /** A SHA-256 digest. */
  type Digest = d: seq<Byte> | |d| == DIGEST_LENGTH witness seq(32, _ => 0)

  /** SHA-256 of a byte string; its internals are not modelled. */
  type Hash = seq<Byte> -> Digest

  /** A hashed file: its path as a UTF-8 string, its digest and its size. */
  datatype FileRecord = FileRecord(path: seq<Byte>, digest: Digest, size: U64)
}
