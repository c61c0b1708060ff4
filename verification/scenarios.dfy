/** Call sequences a caller of the store and of the chain store relies on,
    proved from the operations' contracts alone. */
module Scenarios {
  import opened BigEndian
  import opened Ser
  import opened CoreTypes
  import opened GrinStore
  import opened ChainTypes

  /** put then get returns the value exactly, whatever bytes key and value
      hold, and leaves every other key as it was. */
  method PutThenGet(s: Store, key: seq<byte>, value: seq<byte>) returns (r: Result<Option<seq<byte>>>)
    modifies s
    ensures r == Ok(Some(value))
    ensures forall k :: k != key ==> Lookup(s.db, k) == Lookup(old(s.db), k)
  {
    var _ := s.Put(key, value, Healthy);
    r := s.Get(key, Healthy);
  }

  /** delete then get finds nothing, whether or not the key was present, and
      leaves every other key as it was. */
  method DeleteThenGet(s: Store, key: seq<byte>) returns (r: Result<Option<seq<byte>>>)
    modifies s
    ensures r == Ok(None)
    ensures forall k :: k != key ==> Lookup(s.db, k) == Lookup(old(s.db), k)
  {
    var _ := s.Delete(key, Healthy);
    r := s.Get(key, Healthy);
  }

  /** A value stored with put_ser is read back by get_ser. */
  method PutSerThenGetSer<T(!new)>(s: Store, key: seq<byte>, value: T, c: Codec<T>) returns (r: Result<Option<T>>)
    requires Lossless(c) && c.write(value).Written?
    modifies s
    ensures r == Ok(Some(value))
  {
    var _ := s.PutSer(key, value, c, Healthy);
    r := s.GetSer(key, c, Healthy);
    DecodeStoredRoundTrip(c, value, [], 0);
    assert c.write(value).bytes + [] == c.write(value).bytes;
  }

  /** Three staged writes become visible together when the batch is written,
      the last one winning where keys repeat. */
  method BatchOfThree<T>(s: Store, k1: seq<byte>, k2: seq<byte>, k3: seq<byte>, v1: T, v2: T, v3: T, c: Codec<T>)
    requires c.write(v1).Written? && c.write(v2).Written? && c.write(v3).Written?
    modifies s
    ensures k1 in s.db && k2 in s.db && k3 in s.db
    ensures s.db[k3] == c.write(v3).bytes
    ensures k2 != k3 ==> s.db[k2] == c.write(v2).bytes
    ensures k1 != k2 && k1 != k3 ==> s.db[k1] == c.write(v1).bytes
    ensures forall k :: k != k1 && k != k2 && k != k3 ==> Lookup(s.db, k) == Lookup(old(s.db), k)
  {
    var b := s.NewBatch();
    var _ := b.PutSer(k1, v1, c, Healthy);
    var _ := b.PutSer(k2, v2, c, Healthy);
    var _ := b.PutSer(k3, v3, c, Healthy);
    ghost var ws := b.staged;
    assert ws == [(k1, c.write(v1).bytes), (k2, c.write(v2).bytes), (k3, c.write(v3).bytes)];
    var _ := b.Write(Healthy);
    ghost var db0 := old(s.db);
    LastWriteOfThree(ws[0], ws[1], ws[2]);
    ApplyWritesLookup(db0, ws, k1);
    ApplyWritesLookup(db0, ws, k2);
    ApplyWritesLookup(db0, ws, k3);
    forall k | k != k1 && k != k2 && k != k3
      ensures Lookup(s.db, k) == Lookup(db0, k)
    {
      ApplyWritesLookup(db0, ws, k);
    }
  }

  lemma LastWriteOfThree(w1: Write, w2: Write, w3: Write)
    ensures LastWrite([w1, w2, w3], w3.0) == Some(w3.1)
    ensures w2.0 != w3.0 ==> LastWrite([w1, w2, w3], w2.0) == Some(w2.1)
    ensures w1.0 != w2.0 && w1.0 != w3.0 ==> LastWrite([w1, w2, w3], w1.0) == Some(w1.1)
  {
    assert [w1, w2, w3][..2] == [w1, w2];
    assert [w1, w2][..1] == [w1];
    if w1.0 != w2.0 && w1.0 != w3.0 {
      assert LastWrite([w1], w1.0) == Some(w1.1);
      assert LastWrite([w1, w2], w1.0) == Some(w1.1);
    }
  }

  /** A batch that is never written changes nothing. */
  method DiscardedBatch<T>(s: Store, k1: seq<byte>, k2: seq<byte>, k3: seq<byte>, v: T, c: Codec<T>)
    ensures s.db == old(s.db)
  {
    var b := s.NewBatch();
    var r := b.PutSer(k1, v, c, Healthy);
    if r.Ok? {
      r := b.PutSer(k2, v, c, Healthy);
      if r.Ok? {
        r := b.PutSer(k3, v, c, Healthy);
      }
    }
  }

  /** The two head pointers are independent: saving the header head does not
      move the head. */
  method IndependentHeads(cs: ChainStore, genesis: Hash, ahead: Tip) returns (h: Result<Tip>, hh: Result<Tip>)
    requires cs.Valid()
    modifies cs
    ensures h == Ok(Tip.New(genesis)) && h.value.height == 0
    ensures hh == Ok(ahead)
  {
    var _ := cs.SaveHead(Tip.New(genesis));
    var _ := cs.SaveHeaderHead(ahead);
    h := cs.Head();
    hh := cs.GetHeaderHead();
  }

  /** A header is indexed above its parent only when its declared previous
      hash is the hash indexed at the height below. */
  method IndexChild(cs: ChainStore, child: BlockHeader) returns (r: Result<()>, found: Result<BlockHeader>)
    requires cs.Valid() && child.height > 0 && child.height - 1 in cs.heights
    modifies cs
    ensures cs.Valid()
    ensures r.Ok? <==> cs.headerHash(old(cs.heights)[child.height - 1]) == child.previous
    ensures r.Ok? ==> found == Ok(child)
    ensures r.Err? ==> r.error == NotFoundErr && cs.heights == old(cs.heights)
  {
    r := cs.SetupHeight(child);
    found := cs.GetHeaderByHeight(child.height);
  }
}
