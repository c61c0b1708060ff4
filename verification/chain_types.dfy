/** The types the block-chain pipeline requires of its storage: the Tip fork
    handle with its fixed binary layout, and the chain store contract, here an
    in-memory store with two head pointers, block and header maps and a
    height index. */
module ChainTypes {
  import opened BigEndian
  import opened Ser
  import opened CoreTypes
  import opened GrinStore

  /** Length of the fixed part of a Tip's encoding: the height and two hashes. */
  const TIP_FIXED_LEN: nat := 8 + 2 * HASH_SIZE

  /** The tip of a fork: its height, its last block, the block before that,
      and the total difficulty accumulated on the fork. */
  datatype Tip = Tip(height: u64, lastBlockH: Hash, prevBlockH: Hash, totalDifficulty: Difficulty)
  {
    /** Tip::new: the tip of a chain holding only the genesis block. */
    static function New(gbh: Hash): (t: Tip)
      ensures t.height == 0 && t.lastBlockH == gbh && t.prevBlockH == gbh
      ensures t.totalDifficulty == DifficultyOne()
    {
      Tip(0, gbh, gbh, DifficultyOne())
    }

    /** Tip::from_block: the tip whose last block has header bh. The header's
        hash is computed by the caller's hash function. */
    static function FromBlock(bh: BlockHeader, headerHash: BlockHeader -> Hash): (t: Tip)
      ensures t.height == bh.height && t.lastBlockH == headerHash(bh)
      ensures t.prevBlockH == bh.previous && t.totalDifficulty == bh.totalDifficulty
    {
      Tip(bh.height, headerHash(bh), bh.previous, bh.totalDifficulty)
    }

    /** Writeable::write: the 8-byte big-endian height, the last block hash,
        the previous block hash, then the difficulty's own encoding. Only the
        difficulty encoding can fail. */
    function Write(dc: Codec<Difficulty>): (r: WriteResult)
      ensures r.Written? <==> dc.write(totalDifficulty).Written?
      ensures r.WriteFailed? ==> r.error == dc.write(totalDifficulty).error
      ensures r.Written? ==>
                && |r.bytes| == TIP_FIXED_LEN + |dc.write(totalDifficulty).bytes|
                && FromBE(r.bytes[..8]) == height
                && r.bytes[8..8 + HASH_SIZE] == lastBlockH
                && r.bytes[8 + HASH_SIZE..TIP_FIXED_LEN] == prevBlockH
                && r.bytes[TIP_FIXED_LEN..] == dc.write(totalDifficulty).bytes
    {
      var w0 := WriteU64([], height);
      var w1 := WriteFixed(w0, lastBlockH);
      var w2 := WriteFixed(w1, prevBlockH);
      match dc.write(totalDifficulty)
      case Written(d) =>
        var r := WriteFixed(w2, d);
        assert r[..8] == w0 && r[8..8 + HASH_SIZE] == lastBlockH;
        assert r[8 + HASH_SIZE..TIP_FIXED_LEN] == prevBlockH;
        Written(r)
      case WriteFailed(e) => WriteFailed(e)
    }

    /** Readable::read: the fields in the order Write puts them; the first
        reader error is returned. */
    static function Read(s: seq<byte>, dc: Codec<Difficulty>): (r: ReadResult<Tip>)
      ensures |s| < TIP_FIXED_LEN ==> r == ReadFailed(UnexpectedEof)
      ensures |s| >= TIP_FIXED_LEN ==> (r.Parsed? <==> dc.read(s[TIP_FIXED_LEN..]).Parsed?)
      ensures r.Parsed? ==>
                && ToBE(r.value.height, 8) == s[..8]
                && r.value.lastBlockH == s[8..8 + HASH_SIZE]
                && r.value.prevBlockH == s[8 + HASH_SIZE..TIP_FIXED_LEN]
                && dc.read(s[TIP_FIXED_LEN..]) == Parsed(r.value.totalDifficulty, r.rest)
    {
      match ReadU64(s)
      case ReadFailed(e) => ReadFailed(e)
      case Parsed(height, s1) =>
        match ReadHash(s1)
        case ReadFailed(e) => ReadFailed(e)
        case Parsed(last, s2) =>
          assert s1 == s[8..] && last == s1[..HASH_SIZE] && s2 == s1[HASH_SIZE..];
          match ReadHash(s2)
          case ReadFailed(e) => ReadFailed(e)
          case Parsed(prev, s3) =>
            assert prev == s2[..HASH_SIZE] && s3 == s2[HASH_SIZE..];
            assert last == s[8..8 + HASH_SIZE] && prev == s[8 + HASH_SIZE..TIP_FIXED_LEN];
            assert s3 == s[TIP_FIXED_LEN..];
            match dc.read(s3)
            case ReadFailed(e) => ReadFailed(e)
            case Parsed(diff, s4) => Parsed(Tip(height, last, prev, diff), s4)
    }
  }

  /** Reading back what Write produced, followed by anything at all, gives the
      same Tip and consumes exactly the written bytes, provided the difficulty
      encoding round-trips. */
  lemma TipRoundTrip(t: Tip, dc: Codec<Difficulty>, tail: seq<byte>)
    requires Lossless(dc) && t.Write(dc).Written?
    ensures Tip.Read(t.Write(dc).bytes + tail, dc) == Parsed(t, tail)
  {
    var bytes := t.Write(dc).bytes;
    var d := dc.write(t.totalDifficulty).bytes;
    var s := bytes + tail;
    assert s[..8] == bytes[..8];
    assert s[8..8 + HASH_SIZE] == bytes[8..8 + HASH_SIZE];
    assert s[8 + HASH_SIZE..TIP_FIXED_LEN] == bytes[8 + HASH_SIZE..TIP_FIXED_LEN];
    assert s[TIP_FIXED_LEN..] == d + tail;
    assert dc.read(d + tail) == Parsed(t.totalDifficulty, tail);
    var r := Tip.Read(s, dc);
    Pow256Eight();
    FromToBE(r.value.height, 8);
  }

  /** The Tip as a Writeable/Readable value, for use with the store. */
  function TipCodec(dc: Codec<Difficulty>): Codec<Tip>
  {
    Codec((t: Tip) => t.Write(dc), (s: seq<byte>) => Tip.Read(s, dc))
  }

  /** Tips can be stored with put_ser and read back with get_ser. */
  lemma TipCodecLossless(dc: Codec<Difficulty>)
    requires Lossless(dc)
    ensures Lossless(TipCodec(dc))
  {
    var c := TipCodec(dc);
    forall t: Tip, tail: seq<byte> | c.write(t).Written?
      ensures c.read(c.write(t).bytes + tail) == Parsed(t, tail)
    {
      TipRoundTrip(t, dc, tail);
    }
  }

  /** A tip built from a child header continues the tip built from its parent. */
  lemma FromBlockExtends(parent: BlockHeader, child: BlockHeader, headerHash: BlockHeader -> Hash)
    requires child.previous == headerHash(parent) && child.height == parent.height + 1
    ensures Tip.FromBlock(child, headerHash).prevBlockH == Tip.FromBlock(parent, headerHash).lastBlockH
    ensures Tip.FromBlock(child, headerHash).height == Tip.FromBlock(parent, headerHash).height + 1
  {
  }

  // ---------------------------------------------------------------------
  // The chain store contract

  /** Every indexed height above zero has its predecessor indexed too. */
  ghost predicate HeightsContiguous(heights: map<u64, BlockHeader>)
  {
    forall h: u64 :: h in heights && h > 0 ==> h - 1 in heights
  }

  /** In a contiguous index, an entry at height h means every height up to h
      has an entry. */
  lemma {:induction false} ContiguousBelow(heights: map<u64, BlockHeader>, h: u64, k: u64)
    requires HeightsContiguous(heights) && h in heights && k <= h
    ensures k in heights
    decreases h - k
  {
    if k < h {
      ContiguousBelow(heights, h - 1, k);
    }
  }

  /** The consistency setup_height checks: a header above genesis may be
      indexed only once its parent is indexed at the height below. */
  predicate PredecessorIndexed(heights: map<u64, BlockHeader>, bh: BlockHeader, headerHash: BlockHeader -> Hash)
  {
    bh.height == 0 || (bh.height - 1 in heights && headerHash(heights[bh.height - 1]) == bh.previous)
  }

  /** An in-memory chain store. Blocks and headers are keyed by their hashes,
      computed by the caller-supplied hash functions. */
  class ChainStore {
    const headerHash: BlockHeader -> Hash
    const blockHash: Block -> Hash
    var head: Option<Tip>
    var headerHead: Option<Tip>
    var blocks: map<Hash, Block>
    var headers: map<Hash, BlockHeader>
    var heights: map<u64, BlockHeader>

    /** The height index is contiguous from zero, and each entry is a
        header at the height it is indexed under. */
    ghost predicate Valid()
      reads this
    {
      && HeightsContiguous(heights)
      && (forall h :: h in heights ==> heights[h].height == h)
    }

    /** An empty store, before genesis is saved. */
    constructor (headerHash: BlockHeader -> Hash, blockHash: Block -> Hash)
      ensures Valid()
      ensures this.headerHash == headerHash && this.blockHash == blockHash
      ensures head == None && headerHead == None
      ensures blocks == map[] && headers == map[] && heights == map[]
    {
      this.headerHash := headerHash;
      this.blockHash := blockHash;
      head, headerHead := None, None;
      blocks, headers, heights := map[], map[], map[];
    }

    /** The head of the chain; not found before one is saved. */
    method Head() returns (r: Result<Tip>)
      ensures r.Ok? <==> head.Some?
      ensures head.Some? ==> r.value == head.value
      ensures head.None? ==> r == Err(NotFoundErr)
    {
      r := OptionToNotFound(Ok(head));
    }

    /** The header of the head's last block. */
    method HeadHeader() returns (r: Result<BlockHeader>)
      ensures r.Ok? <==> head.Some? && head.value.lastBlockH in headers
      ensures r.Ok? ==> r.value == headers[head.value.lastBlockH]
      ensures r.Err? ==> r.error == NotFoundErr
    {
      var t := Head();
      if t.Err? {
        return Err(t.error);
      }
      r := GetBlockHeader(t.value.lastBlockH);
    }

    /** Overwrites the head; the header head is left as it was. */
    method SaveHead(t: Tip) returns (r: Result<()>)
      requires Valid()
      modifies this`head
      ensures Valid()
      ensures r == Ok(()) && head == Some(t)
      ensures headerHead == old(headerHead)
    {
      head := Some(t);
      r := Ok(());
    }

    method GetBlock(h: Hash) returns (r: Result<Block>)
      ensures r.Ok? <==> h in blocks
      ensures r.Ok? ==> r.value == blocks[h]
      ensures r.Err? ==> r.error == NotFoundErr
    {
      r := OptionToNotFound(Ok(if h in blocks then Some(blocks[h]) else None));
    }

    method GetBlockHeader(h: Hash) returns (r: Result<BlockHeader>)
      ensures r.Ok? <==> h in headers
      ensures r.Ok? ==> r.value == headers[h]
      ensures r.Err? ==> r.error == NotFoundErr
    {
      r := OptionToNotFound(Ok(if h in headers then Some(headers[h]) else None));
    }

    /** Stores a block under its hash. */
    method SaveBlock(b: Block) returns (r: Result<()>)
      requires Valid()
      modifies this`blocks
      ensures Valid()
      ensures r == Ok(()) && blocks == old(blocks)[blockHash(b) := b]
    {
      blocks := blocks[blockHash(b) := b];
      r := Ok(());
    }

    /** Stores a header under its hash. */
    method SaveBlockHeader(bh: BlockHeader) returns (r: Result<()>)
      requires Valid()
      modifies this`headers
      ensures Valid()
      ensures r == Ok(()) && headers == old(headers)[headerHash(bh) := bh]
    {
      headers := headers[headerHash(bh) := bh];
      r := Ok(());
    }

    /** The tip of the header chain; not found before one is saved. */
    method GetHeaderHead() returns (r: Result<Tip>)
      ensures r.Ok? <==> headerHead.Some?
      ensures headerHead.Some? ==> r.value == headerHead.value
      ensures headerHead.None? ==> r == Err(NotFoundErr)
    {
      r := OptionToNotFound(Ok(headerHead));
    }

    /** Overwrites the header head; the head is left as it was. */
    method SaveHeaderHead(t: Tip) returns (r: Result<()>)
      requires Valid()
      modifies this`headerHead
      ensures Valid()
      ensures r == Ok(()) && headerHead == Some(t)
      ensures head == old(head)
    {
      headerHead := Some(t);
      r := Ok(());
    }

    /** The header indexed at a height: a header at exactly that height. */
    method GetHeaderByHeight(height: u64) returns (r: Result<BlockHeader>)
      requires Valid()
      ensures r.Ok? <==> height in heights
      ensures r.Ok? ==> r.value == heights[height] && r.value.height == height
      ensures r.Err? ==> r.error == NotFoundErr
    {
      r := OptionToNotFound(Ok(if height in heights then Some(heights[height]) else None));
    }

    /** Indexes bh at its height after checking that its parent is the header
        indexed one height below. When the check fails nothing is written and
        the parent is reported not found at its height. On success every
        height up to bh's is indexed. */
    method SetupHeight(bh: BlockHeader) returns (r: Result<()>)
      requires Valid()
      modifies this`heights
      ensures Valid()
      ensures r.Ok? <==> PredecessorIndexed(old(heights), bh, headerHash)
      ensures r.Ok? ==> heights == old(heights)[bh.height := bh]
      ensures r.Ok? ==> forall k: u64 :: k <= bh.height ==> k in heights
      ensures r.Err? ==> r.error == NotFoundErr && heights == old(heights)
    {
      if !PredecessorIndexed(heights, bh, headerHash) {
        return Err(NotFoundErr);
      }
      heights := heights[bh.height := bh];
      forall k: u64 | k <= bh.height
        ensures k in heights
      {
        ContiguousBelow(heights, bh.height, k);
      }
      r := Ok(());
    }
  }
}
