# Grin chain-state storage layer, in Dafny

This project models the persistent chain-state layer of the Grin node, which has two parts.

**The key/value store wrapper (`grin_store`).** It covers:
- the error kinds `NotFoundErr`, `RocksDbErr` and `SerErr`;
- the key codec `to_key` and `u64_to_key`;
- `option_to_not_found`;
- the `Store`, with `put`, `put_ser`, `get`, `get_ser`, `get_ser_limited`, `delete`, `batch` and `write`;
- the atomic write `Batch`.

**The chain types the block pipeline requires (`chain/src/types.rs`).** It covers:
- the `Tip` fork handle, with `new`, `from_block` and its byte-exact encoding and decoding;
- the `ChainStore` contract, as an in-memory store with:
  - a head pointer and a header-head pointer;
  - blocks and headers keyed by hash;
  - a height index whose writes check the predecessor.

Modules:
- `BigEndian` (`bigendian.dfy`): bytes, `u64`, the 8-byte big-endian codec, and the bytewise order the engine uses to sort keys.
- `Ser` (`ser.dfy`): the serialisation collaborator. A `Writeable`/`Readable` type is a `Codec`, a pair of function values. `Lossless(c)` states the round-trip that every such pair is assumed to satisfy. Lemmas that need a round-trip take it as a precondition.
- `GrinStore` (`store.dfy`): `store/src/lib.rs`.
  - `Store` is a class over a `map<seq<byte>, seq<byte>>`.
  - `Batch` is a class holding the staged writes.
  - `ByteVec` is the `Vec<u8>` that `to_key` edits in place.
  - Committing a batch is one assignment, `db := ApplyWrites(db, staged)`.
- `CoreTypes` (`core_types.dfy`): the fields of `Hash`, `Difficulty`, `BlockHeader` and `Block` that this layer reads.
- `ChainTypes` (`chain_types.dfy`): `chain/src/types.rs`.
- `Scenarios` (`scenarios.dfy`): sequences of calls that a caller relies on, proved from the contracts alone.

Parameters that stand for the outside world:
- Each engine call takes an `Engine` value, `Healthy` or `Fails(msg)`. It says whether RocksDB succeeds, and a failed call changes nothing.
- Header and block hashing (`BlockHeader::hash` and the block hash) are function values given to `Tip.FromBlock` and to the `ChainStore`.
- The encoding of `Difficulty` is a `Codec` parameter.

Two choices the code's signatures decide:
- **Failure error of `setup_height`.** `setup_height` returns `grin_store::Error` (`chain/src/types.rs:123`), which has only `NotFoundErr`, `RocksDbErr` and `SerErr` (`store/src/lib.rs:39-47`). So a failed predecessor check is reported as `NotFoundErr`.
- **Contents of the height index.** `get_header_by_height` returns a `BlockHeader` (`chain/src/types.rs:117`), so the index maps heights to headers. The store's invariant says each indexed header is at the height it is indexed under.

## Model

| member | source | states |
|---|---|---|
| BigEndian.FromToBE | store/src/lib.rs:188 | Decoding the big-endian bytes of a height gives the height back, for every value below 256^n |
| BigEndian.ToFromBE | store/src/lib.rs:188 | Re-encoding a decoded 8-byte string gives the same bytes, so the codec is a bijection |
| BigEndian.ToBEInjective | store/src/lib.rs:188 | Two numbers in range have the same big-endian bytes exactly when they are equal |
| BigEndian.ToBEOrder | store/src/lib.rs:188 | a < b implies that the encoding of a sorts bytewise before the encoding of b |
| BigEndian.ToBEOrderConverse | store/src/lib.rs:188 | The converse: an encoding that sorts bytewise before another encodes the smaller number |
| BigEndian.LexLessAsymmetric | store/src/lib.rs:186-192 | The engine's key order is strict: it never holds in both directions and never between equal keys |
| Ser.WriteU64 | chain/src/types.rs:64 | Writing the height appends exactly 8 bytes, which decode to the height, and keeps what was written before |
| Ser.WriteFixed | chain/src/types.rs:65-66 | A hash is appended verbatim, without a length prefix |
| Ser.ReadU64 | chain/src/types.rs:73 | Fails exactly when fewer than 8 bytes remain; otherwise consumes 8 bytes that encode the returned value |
| CoreTypes.ReadHash | chain/src/types.rs:74-75 | Fails exactly when fewer than 32 bytes remain; otherwise returns the next 32 bytes and the rest |
| GrinStore.ByteVec.Insert | store/src/lib.rs:180-181 | Inserting at an index within bounds grows the vector by one: the new byte goes at that index, the prefix is unchanged and the tail moves right by one |
| GrinStore.ByteVec.WriteU64 | store/src/lib.rs:188 | Appends the 8-byte big-endian form of the value |
| GrinStore.ToKey | store/src/lib.rs:179-183 | The caller's vector becomes `[prefix, ':']` followed by its old contents; it is 2 longer and the identifier bytes are unchanged |
| GrinStore.U64ToKey | store/src/lib.rs:186-192 | The key is 10 bytes: the prefix, ':', then 8 bytes that decode back to the height |
| GrinStore.KeyInjective | store/src/lib.rs:178-183 | Two keys are equal exactly when prefix and identifier both are, so record kinds never collide |
| GrinStore.HeightKeyInjective | store/src/lib.rs:186-192 | For one prefix, height keys are equal exactly when the heights are |
| GrinStore.HeightKeyOrder | store/src/lib.rs:186-192 | For one prefix, a < b implies that the key of a sorts bytewise before the key of b |
| GrinStore.HeightKeyOrderConverse | store/src/lib.rs:186-192 | For one prefix, a key that sorts before another has the smaller height, so key order and height order coincide |
| GrinStore.OptionToNotFound | store/src/lib.rs:195-201 | `Ok(None)` becomes `Err(NotFoundErr)`, `Ok(Some(o))` becomes `Ok(o)`, and errors pass through unchanged; the result is Ok exactly when a value was present |
| GrinStore.LastWrite | store/src/lib.rs:161-170 | Returns no value exactly when no staged write names the key |
| GrinStore.LastWriteIsLast | store/src/lib.rs:161-170 | The value found comes from a staged write to the key that no later write to the same key overrides |
| GrinStore.ApplyWritesLookup | store/src/lib.rs:146-149 | After a commit, a staged key holds the value of its last staged write, and every other key keeps its old value |
| GrinStore.ApplyWritesStagedVisible | store/src/lib.rs:172-175 | Every staged key is present after the batch is written |
| GrinStore.DecodeStoredRoundTrip | store/src/lib.rs:117-130 | A value written by a lossless codec is decoded back by a read with len 0, or by one whose len does not cut the encoding |
| GrinStore.Store.Open | store/src/lib.rs:76-84 | The opened store holds the contents already persisted |
| GrinStore.Store.Put | store/src/lib.rs:87-90 | On success the key maps to the value and every other key is unchanged; an engine failure is `RocksDbErr` and changes nothing |
| GrinStore.Store.PutSer | store/src/lib.rs:94-100 | A serialisation failure returns `SerErr` and leaves the store untouched; otherwise the serialised bytes are put |
| GrinStore.Store.Get | store/src/lib.rs:103-106 | On success returns `Some` of the stored bytes exactly when the key is present, and `Ok(None)` otherwise; an engine failure is `RocksDbErr` |
| GrinStore.Store.GetSer | store/src/lib.rs:110-112 | An absent key is `Ok(None)`; a present key's whole value is decoded |
| GrinStore.Store.GetSerLimited | store/src/lib.rs:117-130 | An absent key is `Ok(None)`. A present key decodes its first len bytes, or the whole value when len is 0, and a decode error becomes `SerErr`. len may not exceed the stored length, because that slice panics |
| GrinStore.Store.Delete | store/src/lib.rs:133-136 | On success the key is absent whether or not it was present before, and no other key changes |
| GrinStore.Store.NewBatch | store/src/lib.rs:139-144 | A fresh, empty, usable batch bound to this store |
| GrinStore.Store.Write | store/src/lib.rs:146-149 | Applies all staged writes in one state change; an engine failure applies none of them |
| GrinStore.Batch.PutSer | store/src/lib.rs:161-170 | Appends exactly one staged write and leaves the store unchanged; a serialisation or engine failure consumes the batch and stages nothing |
| GrinStore.Batch.Write | store/src/lib.rs:173-175 | Consumes the batch; the store becomes the old store with every staged write applied in order, or stays unchanged on an engine failure |
| ChainTypes.Tip.New | chain/src/types.rs:41-48 | Height 0, last = prev = the genesis hash, and total difficulty `Difficulty::one()` |
| ChainTypes.Tip.FromBlock | chain/src/types.rs:51-58 | Copies the header's height, its hash, its previous hash and its total difficulty, and computes nothing else |
| ChainTypes.Tip.Write | chain/src/types.rs:63-67 | Layout: bytes 0-7 decode to the height, 8-39 are the last hash, 40-71 are the previous hash, and the rest is the difficulty encoding; fails only when the difficulty encoding fails |
| ChainTypes.Tip.Read | chain/src/types.rs:72-84 | Inputs shorter than the 72-byte fixed part fail; otherwise the fields are taken from the same offsets and the read succeeds exactly when the difficulty decodes |
| ChainTypes.TipRoundTrip | chain/src/types.rs:62-84 | `read(write(t) ++ tail) = (t, tail)`: read gives t back and consumes exactly the written bytes |
| ChainTypes.TipCodecLossless | chain/src/types.rs:62-84 | The Tip codec is lossless whenever the difficulty codec is, so Tips round-trip through `put_ser`/`get_ser` |
| ChainTypes.FromBlockExtends | chain/src/types.rs:51-58 | The tip built from a child header has as previous hash the last hash of its parent's tip, one height higher |
| ChainTypes.ContiguousBelow | chain/src/types.rs:119-122 | In a contiguous height index, an entry at height h implies an entry at every lower height |
| ChainTypes.ChainStore.constructor | chain/src/types.rs:88 | An empty store: no head pointers, no records and an empty height index |
| ChainTypes.ChainStore.Head | chain/src/types.rs:89-90 | Returns the saved head, or `NotFoundErr` before any head is saved |
| ChainTypes.ChainStore.HeadHeader | chain/src/types.rs:92-93 | Returns the stored header of the head's last block; not found when there is no head or no such header |
| ChainTypes.ChainStore.SaveHead | chain/src/types.rs:95-96 | The head becomes t, the header head is unchanged, and the store's invariant is kept |
| ChainTypes.ChainStore.GetBlock | chain/src/types.rs:98-99 | Returns the block stored under the hash; an unknown hash is `NotFoundErr` |
| ChainTypes.ChainStore.GetBlockHeader | chain/src/types.rs:101-102 | Returns the header stored under the hash; an unknown hash is `NotFoundErr` |
| ChainTypes.ChainStore.SaveBlock | chain/src/types.rs:104-105 | Stores the block under its hash, changes no other entry, and keeps the store's invariant |
| ChainTypes.ChainStore.SaveBlockHeader | chain/src/types.rs:107-108 | Stores the header under its hash, changes no other entry, and keeps the store's invariant |
| ChainTypes.ChainStore.GetHeaderHead | chain/src/types.rs:110-111 | Returns the saved header head, or `NotFoundErr` before one is saved |
| ChainTypes.ChainStore.SaveHeaderHead | chain/src/types.rs:113-114 | The header head becomes t, the head is unchanged, and the store's invariant is kept |
| ChainTypes.ChainStore.GetHeaderByHeight | chain/src/types.rs:116-117 | Returns the block header at the requested height: the header indexed there, whose own height is the requested one. A missing entry is `NotFoundErr` |
| ChainTypes.ChainStore.SetupHeight | chain/src/types.rs:119-123 | Succeeds exactly when the header is at height 0 or its parent is indexed one height below. It then indexes the header at its height, and every lower height holds an entry. On failure it writes nothing and returns `NotFoundErr`. Either way the index stays contiguous and every entry is at its own height |
| Scenarios.PutThenGet | store/src/lib.rs:87-106 | `put(k, v)` then `get(k)` returns `Some(v)` exactly, and every other key is unchanged |
| Scenarios.DeleteThenGet | store/src/lib.rs:103-136 | `delete(k)` then `get(k)` returns `None`, and every other key is unchanged |
| Scenarios.PutSerThenGetSer | store/src/lib.rs:94-130 | With a lossless codec, `put_ser` then `get_ser` returns the value |
| Scenarios.BatchOfThree | store/src/lib.rs:139-175 | Writing a batch of three staged puts makes all three keys visible at once. The last value wins for repeated keys, and no other key changes |
| Scenarios.DiscardedBatch | store/src/lib.rs:152-170 | A batch that is staged but never written leaves the store unchanged |
| Scenarios.IndependentHeads | chain/src/types.rs:89-114 | After saving the genesis tip as head and another tip as header head, `head()` is still the genesis tip, at height 0 |
| Scenarios.IndexChild | chain/src/types.rs:116-123 | Indexing a child succeeds exactly when its previous hash is the hash of the header at the height below, and `get_header_by_height` then returns the child |

## Left out

- `Store::open` engine tuning is left out: universal compaction, 256 open files, no fsync, create-if-missing. These are engine configuration and filesystem I/O.
- GrinStore.Store.Open: takes the persisted contents in place of a path and cannot fail. The model has no `RocksDbErr` from opening.
- The `RwLock` and the `unsafe impl Sync/Send` are left out. The model is single-threaded, and each `put`, `delete` or batch commit is one state change.
- Crash durability of a batch is modelled only as "commit is one transition".
- The `Display` formatting and the `From<rocksdb::Error>` conversion are left out. `RocksDbErr` carries the message that the `Engine` parameter supplies.
- Several pieces of the core crate are not part of this model:
  - the internals of `ser::ser_vec` and `ser::deserialize`, which are the `Codec` parameters;
  - the encoding of `Difficulty`, which is a `Codec<Difficulty>` parameter, with its round-trip assumed through `Lossless`;
  - `BlockHeader::hash` and the block hash, which are function parameters.
- `Hash::read` is taken to read exactly the hash's 32 bytes, the fixed width that `write_fixed_bytes` writes.
- The writer and reader primitives that `ser` supplies are idealised:
  - `write_u64` and `write_fixed_bytes` write to the in-memory sink of `ser_vec` and are taken to be infallible, so `Tip.Write` fails only when the difficulty encoding fails;
  - `read_u64` and `Hash::read` are taken to fail only on short input;
  - the `SerError` variants (`UnexpectedEof`, `CorruptedData`, `IOErr`) are the model's own, and `UnexpectedEof` stands for whatever error the real reader reports on short input.
- `ChainAdapter` and `NoopAdapter` are left out: a notification callback with no behaviour.
- `p2p/src/lib.rs` and `grin/src/lib.rs` are left out: module and crate declarations only.
- The implementation of `ChainStore` over the real store is not part of this model. This includes its key prefixes and the body of `setup_height`.
- ChainTypes.ChainStore.SetupHeight: the check promised in the trait's doc comment is modelled only as "the parent must be indexed at the height below". The model does not repair or rewrite lower heights. It does not keep every stored link consistent after a reorganisation either, because the index is only promised to stay contiguous.
