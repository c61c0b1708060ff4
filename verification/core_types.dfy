/** The block-chain value types the chain-state layer stores and indexes. They
    belong to the core crate, which is not part of this model: only the fields
    this layer reads are spelled out, and hashing is left to the caller. */
module CoreTypes {
  import opened BigEndian
  import opened Ser

  /** Width of a block hash in bytes. */
  const HASH_SIZE: nat := 32

  /** A block hash: a fixed-width byte string. */
  type Hash = s: seq<byte> | |s| == HASH_SIZE witness seq(HASH_SIZE, i => 0)

  /** Cumulative proof-of-work difficulty; its encoding is the core crate's. */
  datatype Difficulty = Difficulty(num: nat)

  /** Difficulty::one, the base unit of difficulty. */
  function DifficultyOne(): Difficulty
  {
    Difficulty(1)
  }

  /** A block header: its height, the hash of its parent, the total
      difficulty of its chain, and every other field as opaque bytes. */
  datatype BlockHeader = BlockHeader(height: u64, previous: Hash, totalDifficulty: Difficulty, fields: seq<byte>)

  datatype Block = Block(header: BlockHeader, body: seq<byte>)

  /** Hash::read, taken to read the hash's fixed width of bytes. */
  function ReadHash(s: seq<byte>): (r: ReadResult<Hash>)
    ensures r.ReadFailed? <==> |s| < HASH_SIZE
    ensures r.Parsed? ==> r.value + r.rest == s
  {
    if |s| < HASH_SIZE then ReadFailed(UnexpectedEof)
    else
      var h: Hash := s[..HASH_SIZE];
      Parsed(h, s[HASH_SIZE..])
  }
}
