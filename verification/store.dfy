/** The key/value store wrapper of the chain-state layer: its error kinds,
    the key codec, the store itself (a finite map from byte strings to byte
    strings) and the atomic write batch. */
module GrinStore {
  import opened BigEndian
  import opened Ser

  /** The separator byte ':' written between a key's prefix and its identifier. */
  const SEP: byte := 58

  /** The crate's error kinds: a missing key, an engine failure carrying the
      engine's message, and a serialisation failure. */
  datatype Error = NotFoundErr | RocksDbErr(msg: string) | SerErr(cause: SerError)

  datatype Option<T> = None | Some(value: T)

  datatype Result<T> = Ok(value: T) | Err(error: Error)

  /** What the storage engine reports for one call. Disk I/O is outside the
      model, so each engine call is told whether it succeeds; a call that
      fails changes nothing. */
  datatype Engine = Healthy | Fails(msg: string)

  type Db = map<seq<byte>, seq<byte>>

  /** A staged write: a key and the serialised value to store under it. */
  type Write = (seq<byte>, seq<byte>)

  // ---------------------------------------------------------------------
  // Key codec

  /** The key layout: one prefix byte naming the record kind, the separator,
      then the identifier bytes verbatim. */
  function Key(prefix: byte, id: seq<byte>): seq<byte>
  {
    [prefix, SEP] + id
  }

  /** A growable byte vector that is edited in place. */
  class ByteVec {
    var items: seq<byte>

    constructor (init: seq<byte>)
      ensures items == init
    {
      items := init;
    }

    /** Vec::insert: shifts the tail one place right; an index past the end
        is a panic, so callers must not pass one. */
    method Insert(index: nat, b: byte)
      requires index <= |items|
      modifies this
      ensures |items| == |old(items)| + 1
      ensures items[index] == b
      ensures items[..index] == old(items)[..index] && items[index + 1..] == old(items)[index..]
    {
      items := items[..index] + [b] + items[index..];
    }

    /** write_u64::<BigEndian>: appends the 8-byte big-endian form of n. */
    method WriteU64(n: u64)
      modifies this
      ensures items == Ser.WriteU64(old(items), n)
    {
      items := items + ToBE(n, 8);
    }
  }

  /** to_key: turns the caller's identifier vector into a key in place, by
      inserting the separator and then the prefix at the front. */
  method ToKey(prefix: byte, id: ByteVec) returns (key: ByteVec)
    modifies id
    ensures key == id
    ensures id.items == Key(prefix, old(id.items))
    ensures |id.items| == |old(id.items)| + 2 && id.items[2..] == old(id.items)
  {
    id.Insert(0, SEP);
    id.Insert(0, prefix);
    key := id;
  }

  /** u64_to_key: the key of a height-indexed record, the prefix and
      separator followed by the 8-byte big-endian height. */
  method U64ToKey(prefix: byte, val: u64) returns (key: seq<byte>)
    ensures key == Key(prefix, ToBE(val, 8))
    ensures |key| == 10 && key[0] == prefix && key[1] == SEP
    ensures FromBE(key[2..]) == val
  {
    var v := new ByteVec([]);
    v.WriteU64(val);
    v.Insert(0, SEP);
    v.Insert(0, prefix);
    key := v.items;
    Pow256Eight();
    FromToBE(val, 8);
  }

  /** Two keys are equal exactly when prefix and identifier both are: record
      kinds never collide, and identifiers are kept verbatim. */
  lemma KeyInjective(p: byte, q: byte, a: seq<byte>, b: seq<byte>)
    ensures Key(p, a) == Key(q, b) <==> p == q && a == b
  {
    if Key(p, a) == Key(q, b) {
      assert Key(p, a)[0] == p && Key(q, b)[0] == q;
      assert Key(p, a)[2..] == a && Key(q, b)[2..] == b;
    }
  }

  /** For one prefix, distinct heights give distinct keys. */
  lemma HeightKeyInjective(p: byte, a: u64, b: u64)
    ensures Key(p, ToBE(a, 8)) == Key(p, ToBE(b, 8)) <==> a == b
  {
    KeyInjective(p, p, ToBE(a, 8), ToBE(b, 8));
    Pow256Eight();
    ToBEInjective(a, b, 8);
  }

  /** For one prefix, the engine's bytewise key order is height order. */
  lemma HeightKeyOrder(p: byte, a: u64, b: u64)
    requires a < b
    ensures LexLess(Key(p, ToBE(a, 8)), Key(p, ToBE(b, 8)))
  {
    Pow256Eight();
    ToBEOrder(a, b, 8);
    LexLessCommonPrefix([p, SEP], ToBE(a, 8), ToBE(b, 8));
  }

  /** The converse of HeightKeyOrder: a height key sorting before another of
      the same prefix has the smaller height, so a range scan over height keys
      visits heights in increasing order. */
  lemma HeightKeyOrderConverse(p: byte, a: u64, b: u64)
    requires LexLess(Key(p, ToBE(a, 8)), Key(p, ToBE(b, 8)))
    ensures a < b
  {
    LexLessAsymmetric(Key(p, ToBE(a, 8)), Key(p, ToBE(b, 8)));
    if b < a {
      HeightKeyOrder(p, b, a);
    }
  }

  // ---------------------------------------------------------------------
  // Error mapping

  /** option_to_not_found: a lookup that must find something. */
  function OptionToNotFound<T>(res: Result<Option<T>>): (r: Result<T>)
    ensures r.Ok? <==> res.Ok? && res.value.Some?
    ensures r.Ok? ==> r.value == res.value.value
    ensures res.Ok? && res.value.None? ==> r == Err(NotFoundErr)
    ensures res.Err? ==> r == Err(res.error)
  {
    match res
    case Ok(None) => Err(NotFoundErr)
    case Ok(Some(o)) => Ok(o)
    case Err(e) => Err(e)
  }

  // ---------------------------------------------------------------------
  // The store's contents and their specification

  /** What the engine returns for a key: its value, or nothing. */
  function Lookup(db: Db, key: seq<byte>): Option<seq<byte>>
  {
    if key in db then Some(db[key]) else None
  }

  /** The value the last staged write to key carries, if any write stages it. */
  function LastWrite(ws: seq<Write>, key: seq<byte>): (r: Option<seq<byte>>)
    ensures r.None? <==> forall i :: 0 <= i < |ws| ==> ws[i].0 != key
  {
    if ws == [] then None
    else if ws[|ws| - 1].0 == key then Some(ws[|ws| - 1].1)
    else
      var r := LastWrite(ws[..|ws| - 1], key);
      assert forall i :: 0 <= i < |ws| - 1 ==> ws[..|ws| - 1][i] == ws[i];
      r
  }

  /** The value LastWrite finds is staged by a write that no later write to
      the same key overrides. */
  lemma {:induction false} LastWriteIsLast(ws: seq<Write>, key: seq<byte>)
    requires LastWrite(ws, key).Some?
    ensures exists i :: 0 <= i < |ws| && ws[i] == (key, LastWrite(ws, key).value) &&
                        forall j :: i < j < |ws| ==> ws[j].0 != key
  {
    var n := |ws|;
    if ws[n - 1].0 == key {
      assert ws[n - 1] == (key, LastWrite(ws, key).value);
    } else {
      var init := ws[..n - 1];
      LastWriteIsLast(init, key);
      var i :| 0 <= i < |init| && init[i] == (key, LastWrite(init, key).value) &&
               forall j :: i < j < |init| ==> init[j].0 != key;
      assert ws[i] == init[i];
      forall j | i < j < n
        ensures ws[j].0 != key
      {
        if j < n - 1 {
          assert ws[j] == init[j];
        }
      }
    }
  }

  /** The database after applying the staged writes in order, as one step. */
  function ApplyWrites(db: Db, ws: seq<Write>): Db
  {
    if ws == [] then db
    else ApplyWrites(db, ws[..|ws| - 1])[ws[|ws| - 1].0 := ws[|ws| - 1].1]
  }

  /** After a commit, a staged key holds the value of its last staged write,
      and every other key keeps its old value. */
  lemma {:induction false} ApplyWritesLookup(db: Db, ws: seq<Write>, key: seq<byte>)
    ensures Lookup(ApplyWrites(db, ws), key) ==
            if LastWrite(ws, key).Some? then LastWrite(ws, key) else Lookup(db, key)
  {
    if ws != [] {
      ApplyWritesLookup(db, ws[..|ws| - 1], key);
    }
  }

  /** Every staged key is visible after a commit. */
  lemma ApplyWritesStagedVisible(db: Db, ws: seq<Write>, i: nat)
    requires i < |ws|
    ensures ws[i].0 in ApplyWrites(db, ws)
  {
    ApplyWritesLookup(db, ws, ws[i].0);
  }

  /** The decode step of get_ser_limited: len 0 decodes the whole value,
      otherwise only its first len bytes; trailing bytes are ignored. */
  function DecodeStored<T>(c: Codec<T>, val: seq<byte>, len: nat): Result<Option<T>>
    requires len <= |val|
  {
    var lval := if len > 0 then val[..len] else val;
    match c.read(lval)
    case Parsed(v, _) => Ok(Some(v))
    case ReadFailed(e) => Err(SerErr(e))
  }

  /** A value stored by put_ser is read back by get_ser, and by
      get_ser_limited whenever the truncation keeps the whole encoding. */
  lemma DecodeStoredRoundTrip<T(!new)>(c: Codec<T>, v: T, tail: seq<byte>, len: nat)
    requires Lossless(c) && c.write(v).Written?
    requires len == 0 || |c.write(v).bytes| <= len <= |c.write(v).bytes| + |tail|
    ensures DecodeStored(c, c.write(v).bytes + tail, len) == Ok(Some(v))
  {
    var bytes := c.write(v).bytes;
    if len > 0 {
      assert (bytes + tail)[..len] == bytes + tail[..len - |bytes|];
      assert c.read(bytes + tail[..len - |bytes|]) == Parsed(v, tail[..len - |bytes|]);
    } else {
      assert c.read(bytes + tail) == Parsed(v, tail);
    }
  }

  // ---------------------------------------------------------------------
  // The store

  /** The engine handle: single-threaded here, every write one state change. */
  class Store {
    var db: Db

    /** Opens the store over the contents already persisted at its location. */
    constructor Open(persisted: Db)
      ensures db == persisted
    {
      db := persisted;
    }

    method Put(key: seq<byte>, value: seq<byte>, io: Engine) returns (r: Result<()>)
      modifies this
      ensures io.Healthy? ==> r == Ok(()) && db == old(db)[key := value]
      ensures io.Fails? ==> r == Err(RocksDbErr(io.msg)) && db == old(db)
    {
      if io.Healthy? {
        db := db[key := value];
        r := Ok(());
      } else {
        r := Err(RocksDbErr(io.msg));
      }
    }

    /** Serialises the value, then puts it; a serialisation failure is
        reported as such and the engine is not called. */
    method PutSer<T>(key: seq<byte>, value: T, c: Codec<T>, io: Engine) returns (r: Result<()>)
      modifies this
      ensures c.write(value).WriteFailed? ==> r == Err(SerErr(c.write(value).error)) && db == old(db)
      ensures c.write(value).Written? && io.Healthy? ==>
                r == Ok(()) && db == old(db)[key := c.write(value).bytes]
      ensures c.write(value).Written? && io.Fails? ==> r == Err(RocksDbErr(io.msg)) && db == old(db)
    {
      match c.write(value)
      case Written(data) =>
        r := Put(key, data, io);
      case WriteFailed(err) =>
        r := Err(SerErr(err));
    }

    /** An absent key is Ok(None), not an error. */
    method Get(key: seq<byte>, io: Engine) returns (r: Result<Option<seq<byte>>>)
      ensures io.Healthy? ==> r.Ok? && (r.value.Some? <==> key in db)
      ensures io.Healthy? && key in db ==> r.value == Some(db[key])
      ensures io.Fails? ==> r == Err(RocksDbErr(io.msg))
    {
      if io.Healthy? {
        r := Ok(Lookup(db, key));
      } else {
        r := Err(RocksDbErr(io.msg));
      }
    }

    method GetSer<T>(key: seq<byte>, c: Codec<T>, io: Engine) returns (r: Result<Option<T>>)
      ensures io.Fails? ==> r == Err(RocksDbErr(io.msg))
      ensures io.Healthy? && key !in db ==> r == Ok(None)
      ensures io.Healthy? && key in db ==> r == DecodeStored(c, db[key], 0)
    {
      r := GetSerLimited(key, 0, c, io);
    }

    /** Reads and decodes a value, only its first len bytes when len > 0.
        Slicing past the end of the stored value is a panic, so a present
        key's value must be at least len bytes long. */
    method GetSerLimited<T>(key: seq<byte>, len: nat, c: Codec<T>, io: Engine) returns (r: Result<Option<T>>)
      requires key in db ==> len <= |db[key]|
      ensures io.Fails? ==> r == Err(RocksDbErr(io.msg))
      ensures io.Healthy? && key !in db ==> r == Ok(None)
      ensures io.Healthy? && key in db ==> r == DecodeStored(c, db[key], len)
    {
      var data := Get(key, io);
      if data.Err? {
        return Err(data.error);
      }
      match data.value {
        case Some(val) =>
          var lval := if len > 0 then val[..len] else val[..];
          match c.read(lval) {
            case Parsed(v, _) =>
              r := Ok(Some(v));
            case ReadFailed(e) =>
              r := Err(SerErr(e));
          }
        case None =>
          r := Ok(None);
      }
    }

    /** Deleting an absent key is not an error. */
    method Delete(key: seq<byte>, io: Engine) returns (r: Result<()>)
      modifies this
      ensures io.Healthy? ==> r == Ok(()) && db == old(db) - {key}
      ensures io.Fails? ==> r == Err(RocksDbErr(io.msg)) && db == old(db)
    {
      if io.Healthy? {
        db := db - {key};
        r := Ok(());
      } else {
        r := Err(RocksDbErr(io.msg));
      }
    }

    /** Opens an empty batch bound to this store. */
    method NewBatch() returns (b: Batch)
      ensures fresh(b) && b.store == this && b.staged == [] && b.open
    {
      b := new Batch(this);
    }

    /** Applies a batch's staged writes, in order, as one state change; on an
        engine failure none of them is applied. */
    method Write(writes: seq<Write>, io: Engine) returns (r: Result<()>)
      modifies this
      ensures io.Healthy? ==> r == Ok(()) && db == ApplyWrites(old(db), writes)
      ensures io.Fails? ==> r == Err(RocksDbErr(io.msg)) && db == old(db)
    {
      if io.Healthy? {
        db := ApplyWrites(db, writes);
        r := Ok(());
      } else {
        r := Err(RocksDbErr(io.msg));
      }
    }
  }

  /** A batch of serialised writes that reaches the store only when written.
      A batch is used up by a failed put_ser or by write (it is moved in the
      source); open says it is still usable. */
  class Batch {
    const store: Store
    var staged: seq<Write>
    var open: bool

    constructor (store: Store)
      ensures this.store == store && staged == [] && open
    {
      this.store := store;
      staged := [];
      open := true;
    }

    /** Stages one serialised write; the store itself is left untouched. */
    method PutSer<T>(key: seq<byte>, value: T, c: Codec<T>, io: Engine) returns (r: Result<()>)
      requires open
      modifies this
      ensures store.db == old(store.db)
      ensures c.write(value).Written? && io.Healthy? ==>
                r == Ok(()) && open && staged == old(staged) + [(key, c.write(value).bytes)]
      ensures c.write(value).WriteFailed? ==>
                r == Err(SerErr(c.write(value).error)) && !open && staged == old(staged)
      ensures c.write(value).Written? && io.Fails? ==>
                r == Err(RocksDbErr(io.msg)) && !open && staged == old(staged)
    {
      match c.write(value)
      case Written(data) =>
        if io.Healthy? {
          staged := staged + [(key, data)];
          r := Ok(());
        } else {
          open := false;
          r := Err(RocksDbErr(io.msg));
        }
      case WriteFailed(err) =>
        open := false;
        r := Err(SerErr(err));
    }

    /** Commits every staged write at once. */
    method Write(io: Engine) returns (r: Result<()>)
      requires open
      modifies this, store
      ensures !open && staged == old(staged)
      ensures io.Healthy? ==> r == Ok(()) && store.db == ApplyWrites(old(store.db), staged)
      ensures io.Fails? ==> r == Err(RocksDbErr(io.msg)) && store.db == old(store.db)
    {
      r := store.Write(staged, io);
      open := false;
    }
  }
}
