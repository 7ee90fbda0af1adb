# kv_table: a verified model of eosio.cdt's key-value table

This project models `kv_table`, the multi-index table that eosio.cdt contracts build
on the host's flat key-value intrinsics (`libraries/eosiolib/contracts/eosio/key_value.hpp`).
The model covers:

- **keys** (`key_type`): concatenation, `table_key`, hex rendering and parsing, and the
  byte-wise order the host keeps keys in;
- **`make_prefix`** (the namespace of one index) and the record framing
  (`serialize`, `deserialize`, `get_size`);
- **the host store** for one (database, contract) namespace: a map, its keys in
  ascending order, and iterator handles;
- **`put`, `put_secondary` and `erase`**, both as imperative methods writing through
  the host and as functions of the stored map;
- **the per-index queries**: `find`, `exists`, `get`, `operator[]`, `begin`, `end`,
  `rbegin`, `rend`, `lower_bound`, `upper_bound`, `range` and `setup`;
- **the cursors**: `base_iterator::compare`, `value()` and `key()`; `++`, `--`,
  `key_compare` and move-assignment on `iterator` and `reverse_iterator`.

The central invariant is `TableProofs.Consistent`. It says that every primary entry
deserializes to a record stored under its own primary key. It also says that every
secondary index is exactly the inverse of the records: each record has one entry in
each index, and each entry leads back to its record.

`put` keeps this invariant. It aborts exactly when another record already holds one of
the new record's secondary keys. `erase` keeps it too, when the value passed in carries
the stored record's secondary keys. Reads through any index of a consistent store find
exactly the records.

Abort (`eosio::check`) is modelled as a `Failure`/`Fail` result. The host discards a
transaction that aborts, so the model says nothing about the store after a failure.

Modules, one per file:

| file | module | contents |
|---|---|---|
| outcomes.dfy | `Outcomes` | `Option`, `Result`, `Outcome` and the abort reasons |
| keys.dfy | `Keys` | `key_type`, `table_key` and the key order |
| hex.dfy | `Hex` | `to_hex` and `from_hex` |
| prefixes.dfy | `Prefixes` | `make_prefix` |
| framing.dfy | `Framing` | `serialize`, `deserialize` and `get_size` |
| host.dfy | `Host` | the host store and its iterators |
| schema.dfy | `Schema` | the table layout; `get`, `operator[]`, and `put`/`erase` as functions |
| table_proofs.dfy | `TableProofs` | the consistency invariant and its preservation |
| table.dfy | `Table` | the `kv_table` class (`init`, `put_secondary`, `put`, `erase`) |
| cursors.dfy | `Cursors` | `base_iterator`, `iterator` and `reverse_iterator` |
| positions.dfy | `Positions` | where host iterators land in the sorted key list |
| index_ops.dfy | `IndexOps` | the index queries and `range` |

## Model

| member | source | states |
|---|---|---|
| `Keys.Concat` | libraries/eosiolib/contracts/eosio/key_value.hpp:90-94 | `a + b` has length `|a|+|b|`, starts with `a`, and the rest is exactly `b` |
| `Keys.ConcatAssociative` | libraries/eosiolib/contracts/eosio/key_value.hpp:90-99 | `(a + b) + c == a + (b + c)`, so repeated `+=` may be grouped freely |
| `Keys.KeyBuffer.Append` | libraries/eosiolib/contracts/eosio/key_value.hpp:96-99 | `+=` appends `b` in place; the old bytes stay as a prefix and the length grows by `|b|` |
| `Keys.KeyBuffer.Plus` | libraries/eosiolib/contracts/eosio/key_value.hpp:90-94 | `+` returns a fresh buffer holding this key followed by `b` |
| `Keys.TableKey` | libraries/eosiolib/contracts/eosio/key_value.hpp:165-167 | `table_key(prefix, key)` starts with `prefix` and the rest is `key` |
| `Keys.TableKeyInjective` | libraries/eosiolib/contracts/eosio/key_value.hpp:165-167 | under one prefix, two composite keys are equal iff the field keys are |
| `Keys.LtIrreflexive` | libraries/eosiolib/contracts/eosio/key_value.hpp:54 | no key sorts before itself |
| `Keys.LtAsymmetric` | libraries/eosiolib/contracts/eosio/key_value.hpp:54 | two keys are never each below the other |
| `Keys.LtTransitive` | libraries/eosiolib/contracts/eosio/key_value.hpp:54 | the key order is transitive |
| `Keys.LtTotal` | libraries/eosiolib/contracts/eosio/key_value.hpp:54 | any two keys are equal or ordered one way |
| `Keys.LtAtFirstDifference` | libraries/eosiolib/contracts/eosio/key_value.hpp:54 | keys that agree up to a byte are ordered by that byte, compared unsigned |
| `Keys.LtCommonPrefix` | libraries/eosiolib/contracts/eosio/key_value.hpp:165-167 | putting the same prefix in front of two keys keeps their order, both ways |
| `Keys.EmptyIsLeast` | libraries/eosiolib/contracts/eosio/key_value.hpp:709 | the empty key (`lower_bound("")`) is below every non-empty key |
| `Keys.Compare3` | libraries/eosiolib/contracts/eosio/key_value.hpp:51-54 | the host's three-way comparison: 0 iff equal, negative iff below, positive iff above |
| `Hex.HexEncode` | libraries/eosiolib/contracts/eosio/key_value.hpp:122-146 | the rendering has two characters per byte |
| `Hex.HexEncodeAt` | libraries/eosiolib/contracts/eosio/key_value.hpp:132-137 | byte `i` is written as `hex_characters[b >> 4]` at `2i` and `hex_characters[b & 0x0f]` at `2i+1` |
| `Hex.ToHex` | libraries/eosiolib/contracts/eosio/key_value.hpp:122-146 | the buffer loop returns the rendering, or aborts when `2 * size()` overflows 32 bits |
| `Hex.ToHexFailsIffTooLong` | libraries/eosiolib/contracts/eosio/key_value.hpp:125-126 | the length check aborts exactly for keys of 2^31 bytes or more |
| `Hex.HexEncodeDigits` | libraries/eosiolib/contracts/eosio/key_value.hpp:122-137 | `to_hex` writes only lowercase hex digits |
| `Hex.DecodePairs` | libraries/eosiolib/contracts/eosio/key_value.hpp:109-117 | one byte per character pair |
| `Hex.DecodePairsAt` | libraries/eosiolib/contracts/eosio/key_value.hpp:110-117 | byte `i` is `(hi << 4) | low` of characters `2i` and `2i+1` |
| `Hex.FromHex` | libraries/eosiolib/contracts/eosio/key_value.hpp:101-120 | the parsing loop aborts exactly on odd length, otherwise returns the decoded pairs |
| `Hex.NibbleOfSignedByte` | libraries/eosiolib/contracts/eosio/key_value.hpp:110-115 | a byte at or above 0x80 is a negative signed `char`, so it takes the `<= '9'` branch |
| `Hex.NibbleOfDigit` | libraries/eosiolib/contracts/eosio/key_value.hpp:114-115 | the digit conversion reads each lowercase hex digit back as its value |
| `Hex.DigitOfNibble` | libraries/eosiolib/contracts/eosio/key_value.hpp:114-115 | a lowercase hex digit converts to a value below 16 whose digit is that character |
| `Hex.ByteRoundTrip` | libraries/eosiolib/contracts/eosio/key_value.hpp:112-117 | the two digits written for a byte decode back to the byte |
| `Hex.DecodeEncodeAt` | libraries/eosiolib/contracts/eosio/key_value.hpp:101-137 | byte `i` of `from_hex(to_hex(k))` is byte `i` of `k` |
| `Hex.FromHexToHex` | libraries/eosiolib/contracts/eosio/key_value.hpp:101-146 | `from_hex(to_hex(k)) == k` for every key |
| `Hex.PairRoundTrip` | libraries/eosiolib/contracts/eosio/key_value.hpp:112-135 | re-rendering a decoded pair of lowercase digits gives the pair back |
| `Hex.ToHexFromHexAt` | libraries/eosiolib/contracts/eosio/key_value.hpp:101-137 | characters `2j` and `2j+1` survive decoding and re-rendering |
| `Hex.ToHexFromHex` | libraries/eosiolib/contracts/eosio/key_value.hpp:101-146 | `to_hex(from_hex(s)) == s` for even-length lowercase hex strings |
| `Prefixes.NameKeyInjective` | libraries/eosiolib/contracts/eosio/key_value.hpp:161-163 | distinct names have distinct eight-byte encodings |
| `Prefixes.MakePrefix` | libraries/eosiolib/contracts/eosio/key_value.hpp:161-163 | a prefix is 17 bytes: the status byte, then the table name, then the index name |
| `Prefixes.MakePrefixInjective` | libraries/eosiolib/contracts/eosio/key_value.hpp:161-163 | two prefixes are equal iff the table and index names are |
| `Prefixes.PrefixIsolation` | libraries/eosiolib/contracts/eosio/key_value.hpp:161-167 | no key lies under the prefixes of two different (table, index) pairs |
| `Framing.Serialize` | libraries/eosiolib/contracts/eosio/key_value.hpp:927-967 | the bytes fill exactly the `get_size` buffer; a non-variant value is a zero byte followed by the packed record, a variant is the packed record |
| `Framing.Deserialize` | libraries/eosiolib/contracts/eosio/key_value.hpp:941-955 | a non-variant value must start with discriminant 0, else it aborts; success means the codec read the record |
| `Framing.DeserializeSerialize` | libraries/eosiolib/contracts/eosio/key_value.hpp:927-955 | with a lossless codec, deserializing a serialized record gives it back |
| `Framing.SerializeInjective` | libraries/eosiolib/contracts/eosio/key_value.hpp:927-955 | equal stored bytes mean equal records |
| `Host.Least` | libraries/eosiolib/contracts/eosio/key_value.hpp:66 | the smallest key satisfying a predicate, or none when no key does |
| `Host.Greatest` | libraries/eosiolib/contracts/eosio/key_value.hpp:63 | the largest key satisfying a predicate, or none when no key does |
| `Host.Insert` | libraries/eosiolib/contracts/eosio/key_value.hpp:33 | inserting a new key keeps the key list sorted and adds exactly that key |
| `Host.Remove` | libraries/eosiolib/contracts/eosio/key_value.hpp:30 | removing a key keeps the list sorted and drops exactly that key |
| `Host.KvHost.Get` | libraries/eosiolib/contracts/eosio/key_value.hpp:36-39 | `kv_get`/`kv_get_data` find the stored value exactly when the key is stored |
| `Host.KvHost.Set` | libraries/eosiolib/contracts/eosio/key_value.hpp:33 | `kv_set` maps the key to the value and changes nothing else |
| `Host.KvHost.Erase` | libraries/eosiolib/contracts/eosio/key_value.hpp:30 | `kv_erase` removes the key and changes nothing else |
| `Host.KvHost.ItCreate` | libraries/eosiolib/contracts/eosio/key_value.hpp:42 | a new non-zero handle, not in use, at the end of the prefix |
| `Host.KvHost.ItDestroy` | libraries/eosiolib/contracts/eosio/key_value.hpp:45 | the handle is released and no other handle changes |
| `Host.KvHost.ItNext` | libraries/eosiolib/contracts/eosio/key_value.hpp:60 | moves the handle to the next key of its prefix (from the end, to the first) and reports its status |
| `Host.KvHost.ItPrev` | libraries/eosiolib/contracts/eosio/key_value.hpp:63 | moves the handle to the previous key of its prefix (from the end, to the last) and reports its status |
| `Host.KvHost.ItLowerBound` | libraries/eosiolib/contracts/eosio/key_value.hpp:66 | moves the handle to the least key of its prefix not below `k` |
| `Schema.SetupIsolates` | libraries/eosiolib/contracts/eosio/key_value.hpp:810-812 | two indices of one table whose key spaces share a key have the same name |
| `Schema.ReadRecord` | libraries/eosiolib/contracts/eosio/key_value.hpp:675-689 | a secondary entry naming a missing primary key aborts; success implies the redirect found the primary entry |
| `Schema.Get` | libraries/eosiolib/contracts/eosio/key_value.hpp:657-699 | `get` returns nothing exactly when `table_key(prefix, k)` is not stored |
| `Schema.At` | libraries/eosiolib/contracts/eosio/key_value.hpp:641-645 | `operator[]` aborts with "key not found" when `get` finds nothing, and otherwise agrees with `get` |
| `Schema.EraseSecondaries` | libraries/eosiolib/contracts/eosio/key_value.hpp:872-877 | the erase loop removes exactly the entries `v` has in the remaining indices; every other entry stays with its value |
| `TableProofs.PrefixesDisjoint` | libraries/eosiolib/contracts/eosio/key_value.hpp:161-163 | a key under a secondary prefix is under no other index's prefix, primary included |
| `TableProofs.IndexFrame` | libraries/eosiolib/contracts/eosio/key_value.hpp:239-279 | an index stays correct when nothing under its own prefix changes |
| `TableProofs.InsertStep` | libraries/eosiolib/contracts/eosio/key_value.hpp:246-249 | for a new record, the secondary key is already stored iff another record holds it; otherwise writing it extends the index |
| `TableProofs.UpdateKeptStep` | libraries/eosiolib/contracts/eosio/key_value.hpp:251-259 | for an existing record whose key is stored, the entry names another record iff that record holds the key |
| `TableProofs.UpdateMovedStep` | libraries/eosiolib/contracts/eosio/key_value.hpp:260-264 | for an existing record whose key is free, moving the old entry to the new key keeps the index exact |
| `TableProofs.StepPreserves` | libraries/eosiolib/contracts/eosio/key_value.hpp:240-277 | one pass of the loop leaves the other indices and the primary entries as they were |
| `TableProofs.StepOnce` | libraries/eosiolib/contracts/eosio/key_value.hpp:240-277 | one index of `put_secondary` aborts iff another record holds `v`'s key there; otherwise that index is updated and nothing else moves |
| `TableProofs.PutSecondariesCorrect` | libraries/eosiolib/contracts/eosio/key_value.hpp:239-279 | `put_secondary` aborts iff another record holds one of `v`'s keys (duplicate or in-use error by case); on success every index is exact for the new records |
| `TableProofs.RecordsDomain` | libraries/eosiolib/contracts/eosio/key_value.hpp:823-855 | in a consistent store the records are exactly the primary entries |
| `TableProofs.PutCorrect` | libraries/eosiolib/contracts/eosio/key_value.hpp:823-855 | `put(v)` aborts iff another record holds one of `v`'s secondary keys; on success the store is consistent and the records are the old ones with `v` under its primary key |
| `TableProofs.PutWriteCorrect` | libraries/eosiolib/contracts/eosio/key_value.hpp:844-850 | the final `kv_set` of the serialized record completes a consistent store holding the new records |
| `TableProofs.EraseSecondariesCorrect` | libraries/eosiolib/contracts/eosio/key_value.hpp:872-877 | the erase loop leaves every index exact for the records without `tk` |
| `TableProofs.PutSecondariesFrame` | libraries/eosiolib/contracts/eosio/key_value.hpp:239-279 | `put_secondary` from index `i` on changes no key outside the prefixes of indices `i` and up |
| `TableProofs.PutFrame` | libraries/eosiolib/contracts/eosio/key_value.hpp:823-855 | on any store, a successful `put(v)` leaves every key outside the table's prefixes present or absent, and valued, as before |
| `TableProofs.EraseFrame` | libraries/eosiolib/contracts/eosio/key_value.hpp:863-880 | on any store, `erase(v)` removes exactly `v`'s primary entry and the secondary entries computed from `v`, and only when the primary entry is stored; every other entry keeps its value |
| `TableProofs.EraseCorrect` | libraries/eosiolib/contracts/eosio/key_value.hpp:863-880 | `erase(v)` changes nothing when the key is absent; otherwise it removes exactly that record and keeps the store consistent |
| `TableProofs.GetPrimaryCorrect` | libraries/eosiolib/contracts/eosio/key_value.hpp:657-699 | `get` through the primary index of a consistent store returns exactly the stored record |
| `TableProofs.GetSecondaryCorrect` | libraries/eosiolib/contracts/eosio/key_value.hpp:657-699 | `get` through a secondary index never aborts and finds a record iff one has that field key, namely that record |
| `TableProofs.PutThenGet` | libraries/eosiolib/contracts/eosio/key_value.hpp:657-699 | after a successful `put(v)`, `get` finds `v` under its key in every index |
| `Table.KvTable.constructor` | libraries/eosiolib/contracts/eosio/key_value.hpp:897-915 | `init` records the table and runs `setup` on each index, giving it `make_prefix(table, index)` |
| `Table.KvTable.PutSecondary` | libraries/eosiolib/contracts/eosio/key_value.hpp:239-279 | the loop over the secondary indices aborts or writes exactly as `PutSecondaries` says |
| `Table.KvTable.Put` | libraries/eosiolib/contracts/eosio/key_value.hpp:823-855 | aborts or leaves the store exactly as `PutSpec` says |
| `Table.KvTable.EraseSecondaryEntries` | libraries/eosiolib/contracts/eosio/key_value.hpp:872-877 | the loop over the secondary indices leaves the store exactly as `EraseSecondaries` says |
| `Table.KvTable.Erase` | libraries/eosiolib/contracts/eosio/key_value.hpp:863-880 | leaves the store exactly as `EraseSpec` says |
| `Cursors.CompareHandles` | libraries/eosiolib/contracts/eosio/key_value.hpp:394-406 | end cursors are equal; an end cursor is above a positioned one; otherwise the order is the positions' key order |
| `Cursors.KeyCompareHandle` | libraries/eosiolib/contracts/eosio/key_value.hpp:448-454 | 1 at the end, otherwise the cursor's key compared with `kt` |
| `Cursors.ReadCursor` | libraries/eosiolib/contracts/eosio/key_value.hpp:327-371 | `value()` aborts at the end or on an erased entry; otherwise it reads the record, through the primary entry for a secondary index |
| `Cursors.CursorKey` | libraries/eosiolib/contracts/eosio/key_value.hpp:373-386 | `key()` returns the stored key the handle stands at, and succeeds whenever it stands at a stored key |
| `Cursors.PositionCompareAntisymmetric` | libraries/eosiolib/contracts/eosio/key_value.hpp:456-478 | swapping the cursors negates the comparison; it is 0 iff the positions are equal |
| `Cursors.PositionCompareTransitive` | libraries/eosiolib/contracts/eosio/key_value.hpp:464-466 | `<` on cursors is transitive |
| `Cursors.RendDecrementSkipsFirst` | libraries/eosiolib/contracts/eosio/key_value.hpp:511-518 | as written, `--` on a reverse cursor without a handle never lands on the index's first key |
| `Cursors.RendDecrementCorrected` | libraries/eosiolib/contracts/eosio/key_value.hpp:511-518 | the position a step from the reverse end should reach: the least key of the index, or none when the index is empty |
| `Cursors.Iterator.Increment` | libraries/eosiolib/contracts/eosio/key_value.hpp:433-437 | aborts at the end; otherwise moves to the next key of the index |
| `Cursors.Iterator.Decrement` | libraries/eosiolib/contracts/eosio/key_value.hpp:439-446 | creates a handle when there is none; moves to the previous key (from the end, to the last); aborts iff there is none |
| `Cursors.Iterator.MoveAssign` | libraries/eosiolib/contracts/eosio/key_value.hpp:423-431 | releases the old handle; takes over the other cursor's handle, status and index; leaves the other without a handle |
| `Cursors.ReverseIterator.Increment` | libraries/eosiolib/contracts/eosio/key_value.hpp:505-509 | aborts at the end; otherwise moves to the previous key of the index |
| `Cursors.ReverseIterator.Decrement` | libraries/eosiolib/contracts/eosio/key_value.hpp:511-518 | as written: without a handle, goes to `lower_bound("")` and then one key on; aborts iff it ends at the end |
| `Cursors.ReverseIterator.DecrementCorrected` | libraries/eosiolib/contracts/eosio/key_value.hpp:511-518 | without a handle, steps straight from the end to the first key; aborts iff the index is empty |
| `Cursors.ReverseIterator.MoveAssign` | libraries/eosiolib/contracts/eosio/key_value.hpp:495-503 | as for `iterator` |
| `Positions.Filter` | libraries/eosiolib/contracts/eosio/key_value.hpp:803-805 | the keys satisfying a predicate, in their order; sortedness is kept |
| `Positions.KeysBetween` | libraries/eosiolib/contracts/eosio/key_value.hpp:798-808 | exactly the index's keys in `[lo, hi)`, ascending |
| `Positions.KeysFrom` | libraries/eosiolib/contracts/eosio/key_value.hpp:803 | exactly the index's keys from `lo` on, ascending |
| `Positions.SortedUnique` | libraries/eosiolib/contracts/eosio/key_value.hpp:803-805 | two strictly sorted key lists with the same elements are equal |
| `Positions.LowerBoundExact` | libraries/eosiolib/contracts/eosio/key_value.hpp:599-611 | `lower_bound(k)` lands on `k` iff `k` is stored under the prefix |
| `Positions.LowerBoundPastKey` | libraries/eosiolib/contracts/eosio/key_value.hpp:775-784 | when `lower_bound(k)` is not on `k`, it is where a step past `k` would be |
| `Positions.LowerBoundOfEmpty` | libraries/eosiolib/contracts/eosio/key_value.hpp:707-712 | `lower_bound("")` is the index's first key |
| `Positions.LowerBoundIsFirst` | libraries/eosiolib/contracts/eosio/key_value.hpp:803 | `lower_bound(lo)` stands at the first of the index's keys from `lo` on |
| `Positions.NextInFilter` | libraries/eosiolib/contracts/eosio/key_value.hpp:803 | `++` from the n-th key from `lo` on reaches the (n+1)-th, or the end |
| `IndexOps.End` | libraries/eosiolib/contracts/eosio/key_value.hpp:720-722 | a cursor with no handle, at the end |
| `IndexOps.REnd` | libraries/eosiolib/contracts/eosio/key_value.hpp:743-745 | a reverse cursor with no handle, at the end |
| `IndexOps.FindTableKey` | libraries/eosiolib/contracts/eosio/key_value.hpp:599-611 | the cursor stands at the store key iff it is stored under the prefix; otherwise the probing handle is released and `end()` is returned |
| `IndexOps.Find` | libraries/eosiolib/contracts/eosio/key_value.hpp:593-597 | the cursor stands at `table_key(prefix, y)` iff that key is stored, else at the end |
| `IndexOps.ExistsTableKey` | libraries/eosiolib/contracts/eosio/key_value.hpp:625-628 | true iff the store key is present |
| `IndexOps.Exists` | libraries/eosiolib/contracts/eosio/key_value.hpp:620-623 | true iff `get(y)` would find an entry |
| `IndexOps.Begin` | libraries/eosiolib/contracts/eosio/key_value.hpp:707-712 | a cursor at the index's smallest key, or at the end when the index is empty |
| `IndexOps.RBegin` | libraries/eosiolib/contracts/eosio/key_value.hpp:730-735 | a reverse cursor at the index's largest key, or at the end |
| `IndexOps.LowerBound` | libraries/eosiolib/contracts/eosio/key_value.hpp:757-763 | a cursor at the least key of the index not below `table_key(prefix, y)` |
| `IndexOps.UpperBoundStaysOnKey` | libraries/eosiolib/contracts/eosio/key_value.hpp:775-784 | as written, when the entry for `y` exists, `upper_bound(y)` stands on it |
| `IndexOps.UpperBound` | libraries/eosiolib/contracts/eosio/key_value.hpp:775-784 | as written: `lower_bound(y)`, stepped once only when the cursor's key equals the bare `y` |
| `IndexOps.UpperBoundCorrected` | libraries/eosiolib/contracts/eosio/key_value.hpp:775-784 | a cursor at the least key of the index above `table_key(prefix, y)` |
| `IndexOps.ReadAllMeaning` | libraries/eosiolib/contracts/eosio/key_value.hpp:803-805 | on success, one record per key, each the one stored under that key; on failure, the error of the first read that failed |
| `IndexOps.ReadAllFailureSticks` | libraries/eosiolib/contracts/eosio/key_value.hpp:803-805 | once a read has aborted, reading more keys gives the same abort |
| `IndexOps.ReadAllStep` | libraries/eosiolib/contracts/eosio/key_value.hpp:803-805 | reading one more key appends that key's record, or aborts with its error |
| `IndexOps.KeysBetweenIsPrefix` | libraries/eosiolib/contracts/eosio/key_value.hpp:798-808 | the keys in `[lo, hi)` are the keys from `lo` on that come before the first one at or above `hi` |
| `IndexOps.ReleaseBoth` | libraries/eosiolib/contracts/eosio/key_value.hpp:304-308 | releasing the two handles `range` opened restores the host's iterator table |
| `IndexOps.LoopTest` | libraries/eosiolib/contracts/eosio/key_value.hpp:803 | `itr < end_itr` holds exactly while the cursor's key is below `hi` |
| `IndexOps.ReadAndStep` | libraries/eosiolib/contracts/eosio/key_value.hpp:803-805 | `value()` reads the n-th key's record; `++` then moves to the next key; no other handle moves |
| `IndexOps.Precedes` | libraries/eosiolib/contracts/eosio/key_value.hpp:464-466 | `itr < end_itr` is true iff keys below `hi` remain |
| `IndexOps.Walk` | libraries/eosiolib/contracts/eosio/key_value.hpp:803-805 | the loop returns the records under the keys from `lo` that are below `hi`, in order, or the first abort |
| `IndexOps.ReadBetween` | libraries/eosiolib/contracts/eosio/key_value.hpp:803-805 | between `lower_bound(lo)` and `lower_bound(hi)`, the records of the keys in `[lo, hi)` |
| `IndexOps.Collect` | libraries/eosiolib/contracts/eosio/key_value.hpp:803-805 | the records of the index's keys in `[lo, hi)` in ascending order; both handles are released |
| `IndexOps.Range` | libraries/eosiolib/contracts/eosio/key_value.hpp:798-808 | as written: the bounds are prefixed twice before `lower_bound` |
| `IndexOps.RangeCorrected` | libraries/eosiolib/contracts/eosio/key_value.hpp:798-808 | the records whose field keys lie in `[b, e)`, in ascending order |
| `IndexOps.RangeCorrectedSelects` | libraries/eosiolib/contracts/eosio/key_value.hpp:798-808 | an entry is returned iff it is stored and its field key lies in `[b, e)` |
| `IndexOps.RangeAsWrittenMisses` | libraries/eosiolib/contracts/eosio/key_value.hpp:798-808 | as written, an entry whose field key is empty or does not start with the prefix's first byte is never returned |

## Left out

- The host intrinsics (`kv_get`, `kv_set`, `kv_it_*`, key_value.hpp lines 28-73) are declarations only; their code is not part of this model. `Host.KvHost` states the behaviour the table relies on: an ordered map, iterators scoped to a prefix, `next` from the end wraps to the first key, `prev` from the end goes to the last, `key_compare` at the end returns 1, and keys compare byte-wise unsigned.
- Databases and contracts (`kv_ram`, `kv_disk`, `db_name`, `contract_name`): one `KvHost` is one (database, contract) namespace.
- `make_key`, `convert_to_key`, `pack`, `unpack` and `pack_size` are not part of this model. An index's key function and the record codec are parameters. `range(key_type, key_type)` takes bounds that are already keys; the double prefixing it adds (see Findings) does not depend on what `make_key` makes of them.
- `make_prefix` encodes the status byte and two names. The model assumes each name is encoded as its eight bytes, most significant first.
- `Framing.Deserialize`: reads the discriminant as one byte. A non-canonical varuint 0 (such as `0x80 0x00`) is not modelled.
- `malloc`/`alloca`/`free` and the 512-byte stack threshold do not change any result, so they are left out.
- `validate_types`, the `std::function` key wrapper and the virtual `setup` dispatch are left out; they are compile-time checks or dispatch with no behaviour of their own.
- Rollback: after an abort the host discards the transaction, so the model leaves the store unconstrained after a `Fail`.
- The move constructors (lines 299-302, 421, 493) are not modelled as members. `base_iterator`'s move constructor does not copy `index`.
- Destructors are left out. The model releases handles only where the source does so explicitly: in `operator=`, `find` and `range`.
- `Cursors.Iterator.MoveAssign` / `Cursors.ReverseIterator.MoveAssign`: on self-move-assignment the handle is released and then kept. The ensures states this dangling handle rather than `Valid()`.
- `Hex.FromHex`: each character of the input stands for one byte of the `std::string_view`, the character whose code is that byte. Bytes outside `0-9a-f` are not rejected. They convert by the source's arithmetic on the target's signed `char`, truncated to eight bits. Characters above U+00FF have no single-byte counterpart, so the model says nothing faithful about them: in the source such a character is several bytes, which changes the pairing and the odd-length abort. The round trip is stated for lowercase hex only.
- `Table.KvTable.Erase` removes the secondary entries computed from the value passed in, not from the stored record, as the source does. `TableProofs.EraseCorrect` therefore requires that value to carry the stored record's secondary keys. With a stale value, the stored record's own entries remain. Worse, if a stale secondary key now belongs to another record, that record's live index entry is deleted. `TableProofs.EraseFrame` states exactly which keys go in every case.
- `find(key_type)` and `exists(key_type)` take a full store key, while `get(key_type)`, `operator[](key_type)` and `lower_bound(key_type)` add the index prefix themselves. The model follows the code: `FindTableKey` and `ExistsTableKey` take store keys.
- `good()` and the comparison operators `==`, `!=`, `<=`, `>`, `>=` are thin wrappers over `compare`. They are covered through `Cursors.CompareHandles`.

## Findings

The documented behaviour of `upper_bound` (the first entry above the key) and of `range` (exactly the records whose keys lie in `[b, e)`) is not what the code does. The model follows the code, and the corrected members carry the documented behaviour.

| source | as written | input that shows it | evidently intended | confidence | as-written member | corrected member |
|---|---|---|---|---|---|---|
| libraries/eosiolib/contracts/eosio/key_value.hpp:775-784 | `upper_bound(key)` compares the cursor's full store key with the bare field key `key`, so the comparison is never 0 for the entry of `key` itself | an index holding the entry `table_key(prefix, y)`; `upper_bound(y)` returns a cursor on that entry | the cursor moves past the entry of `y`, to the first key above `table_key(prefix, y)` | not executed | `IndexOps.UpperBoundStaysOnKey` | `IndexOps.UpperBoundCorrected` |
| libraries/eosiolib/contracts/eosio/key_value.hpp:511-518 | `reverse_iterator::operator--` on a cursor without a handle moves to `lower_bound("")` (the first key) and then calls `next`, landing on the second key | `rend()` of an index holding keys `a < b`; `--` lands on `b`, or aborts when the index holds one key | `--` from `rend()` reaches the first key, mirroring `iterator::operator--` from `end()` | not executed | `Cursors.RendDecrementSkipsFirst` | `Cursors.ReverseIterator.DecrementCorrected` |
| libraries/eosiolib/contracts/eosio/key_value.hpp:798-808 | `range` builds `table_key(prefix, b)` and passes it to `lower_bound(key_type)`, which prefixes it again | any entry whose field key is empty or whose first byte is not the status byte 1 (e.g. a field key starting with 0x00); `range` never returns it, whatever the bounds | `range(b, e)` returns the records whose field keys lie in `[b, e)` | not executed | `IndexOps.RangeAsWrittenMisses` | `IndexOps.RangeCorrected` |
