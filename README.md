# Ceph's RocksDB key-value store core and the CAS chunk reference class

This project models two parts of Ceph.

**`RocksDBStore`** (`src/kv/RocksDBStore.cc`) maps Ceph's logical key space
of `(prefix, key)` pairs onto RocksDB. The model covers:

- **Merge operators.** Operators are registered per prefix with
  `set_merge_operator`. One router operator serves every prefix that has no
  column family of its own. It picks the first registration whose prefix is
  followed by NUL in the raw key. A column family's linker is bound by
  `install_cf_mergeop` to the *last* registration of its name. The router's
  name is the rendering of its sorted prefix map.
- **Column families and shards.** `add_column_family` builds the partition
  directory. `get_cf_handle` picks a shard by hashing the bytes
  `[hash_l, hash_h)` of the key. Keys of prefixes without a column family go
  to the default column family as `prefix NUL key`. `split_key`,
  `past_prefix` and `raw_key_is_prefixed` work on that encoding.
- **Sharding definitions.** `parse_sharding_def` parses text such as
  `O(6) m(7,10-) prefix(4,0-10)=options`, including `strtol`'s saturation
  and the truncating `size_t` and `uint32_t` casts. `sharding_def_to_columns`
  lists the column names: `name` for one shard, `name-0` .. `name-(n-1)`
  otherwise. The comparison and classification part of `verify_sharding`
  is modelled, together with the missing-column check made when opening.
- **Transactions.** The write batch is a sequence of records. `set`,
  `rmkey`, `rm_single_key` and `merge` each append one routed record.
  `rmkeys_by_prefix` and `rm_range_keys` delete key by key under a save
  point. When the 64-bit counter reaches zero they roll back and append one
  range delete instead.
- **Compaction queue.** `compact_range_async` coalesces a new range with
  the first queued range that it equals or crosses. The compaction thread
  reads the pair ("", "") as "compact the whole database"; the model keeps
  that reading (`CompactQueue.Compacts`) but not the thread.
- **`ShardMergeIteratorImpl`.** One iterator per shard, kept in a vector
  sorted by `KeyLess`, so the front iterator stands on the least key. The
  model covers `seek_to_first`, `lower_bound`, `upper_bound`,
  `seek_to_last`, `next` and `prev`. Each shard's key list is an input and
  each shard's position is an index into it. Position -1 means "before the
  first key".

**`cls_cas`** (`src/cls/cas/cls_cas.cc`) is the object-class method set that
keeps the reference set of a content-addressed chunk in an extended
attribute. The object is a class with three fields: whether it exists, its
data, and its attribute. Each method is specified by a function from the
old state and the decoded input to the return code and the new state.

Some properties of the source are worth knowing.

- The router takes the first registration of a prefix, but a column
  family's linker takes the last one (`MergeRouter.FirstVersusLast`).
- A queued compaction range can be queued twice when an earlier queued
  range is crossed first (`CompactQueue.DuplicateAfterCrossing`).
- The whole-database request ("", "") is coalesced as if it were the
  one-key range [""]: a queued range starting at "" absorbs it
  (`CompactQueue.WholeRequestLost`), and a request starting at "" turns a
  queued whole-database compaction into a bounded one
  (`CompactQueue.QueuedWholeShrinks`). Away from that request, coalescing
  loses no work (`CompactQueue.EnqueueCovers`).
- The sharded path of `rmkeys_by_prefix` deletes up to the fixed key
  `ff ff ff ff`. On its range path, a shard key above that stays, but on
  its key-by-key path the same key is deleted
  (`Transaction.ShardLimitLeavesHighKeys`).
- The `(pointer, length)` overload of `set` writes the combined key under
  the null handle rather than `default_cf`. RocksDB files a null handle
  under the default family, id 0, so the record lands in the same family
  when `default_cf` is that family (`Transaction.SetRawSameFamily`).

## Model

| member | source | states |
|---|---|---|
| MergeRouter.LastMatchSpec | src/kv/RocksDBStore.cc:337-349 | the operator chosen for a prefix is the one of a registration of that prefix that no later registration overrides; none exactly when the prefix was never registered |
| MergeRouter.NamesSpec | src/kv/RocksDBStore.cc:84-105 | the name map the router builds is sorted and maps each prefix to the name of its last registration |
| MergeRouter.RouterEntriesSpec | src/kv/RocksDBStore.cc:84-105 | after erasing the column-family names, the map is sorted, omits every column-family prefix, and maps every other prefix to the name of its last registration |
| MergeRouter.RouterNameByLastMatch | src/kv/RocksDBStore.cc:84-105 | the router name depends only on which operator each prefix last registered |
| MergeRouter.RouterNameOrderFree | src/kv/RocksDBStore.cc:168-176 | with one registration per prefix, the order of the set_merge_operator calls does not change the router name |
| MergeRouter.PutLookup | src/kv/RocksDBStore.cc:92-94 | `names[k] = v` maps k to v and leaves every other key as it was |
| MergeRouter.PutSorted | src/kv/RocksDBStore.cc:90-94 | `names[k] = v` keeps the map sorted by key |
| MergeRouter.WithoutLookup | src/kv/RocksDBStore.cc:95-97 | erasing the column-family names removes exactly those keys |
| MergeRouter.SortedUnique | src/kv/RocksDBStore.cc:84-105 | two sorted maps with the same contents are the same list, so the rendering depends only on the contents |
| MergeRouter.FirstMatch | src/kv/RocksDBStore.cc:109-133 | the index of the first registration whose prefix plus NUL starts the key, or the registration count when none does |
| MergeRouter.LinkerMerge | src/kv/RocksDBStore.cc:140-165 | the linker always calls its bound operator: merge with the existing value when there is one, merge_nonexistent with the value otherwise; the result is true |
| MergeRouter.RouterMerge | src/kv/RocksDBStore.cc:109-133 | no operator is called exactly when no registered prefix plus NUL starts the key; otherwise the first such registration's operator handles the merge as its linker would; the result is true either way |
| MergeRouter.FirstVersusLast | src/kv/RocksDBStore.cc:109-133 | with two operators registered for one prefix, the router merges with the first while install_cf_mergeop binds the last |
| Store.Placed | src/kv/RocksDBStore.cc:516-518 | the handle list grows with nulls to hold the shard index, the slot holds the new handle, and every other slot keeps its handle |
| Store.Clamp | src/kv/RocksDBStore.cc:533-534 | `std::min<uint32_t>` of the bound and the 32-bit truncated key size, which is the smaller of the two for sizes below 2^32 |
| Store.ShardIndex | src/kv/RocksDBStore.cc:530-537 | the shard index is below the shard count |
| Store.SameWindowSameShard | src/kv/RocksDBStore.cc:530-537 | keys that agree on bytes [hash_l, hash_h) go to the same shard |
| Store.ShortKeysShareShard | src/kv/RocksDBStore.cc:530-537 | every key shorter than hash_l goes to the shard of the empty string's hash |
| Store.RocksStore.SetMergeOperator | src/kv/RocksDBStore.cc:168-176 | with the database closed, appends the registration, returns 0, and changes nothing else |
| Store.RocksStore.InstallCfMergeop | src/kv/RocksDBStore.cc:337-349 | the operator bound to a column family is the last registration of its name, or none |
| Store.RocksStore.RouterNameOf | src/kv/RocksDBStore.cc:84-105 | the router's name, kept as assoc_name, is the rendering of the registrations whose prefix has no column family |
| Store.RocksStore.AddColumnFamily | src/kv/RocksDBStore.cc:502-519 | the name's entry records its hash window; its handle list holds the handle at the shard index and keeps the other slots; every other entry and the rest of the store are unchanged |
| Store.RocksStore.GetCfHandle | src/kv/RocksDBStore.cc:525-539 | null for a prefix without a column family; otherwise one of its handles: the only one for a single shard, otherwise the one at the hash of the key window modulo the shard count |
| Store.RocksStore.CompactRangeAsync | src/kv/RocksDBStore.cc:1677-1718 | the queue becomes the coalesced queue of CompactQueue.Enqueue and nothing else changes |
| CompactQueue.FirstHit | src/kv/RocksDBStore.cc:1684-1708 | the scan stops at the first queued range that equals the request or that the request crosses |
| CompactQueue.EnqueueGrows | src/kv/RocksDBStore.cc:1677-1718 | the queue grows exactly when the request touches no queued range, and then by exactly the request at the end |
| CompactQueue.DuplicateIsNoOp | src/kv/RocksDBStore.cc:1686-1689 | a request equal to the first range the scan meets leaves the queue unchanged |
| CompactQueue.DuplicateAfterCrossing | src/kv/RocksDBStore.cc:1684-1706 | from the empty queue, four requests reach a queue holding the same range twice, because the last request crosses an earlier range first |
| CompactQueue.WholeRequestLost | src/kv/RocksDBStore.cc:1663-1664 | a whole-database request behind a queued range starting at "" is absorbed by it, and a key the whole-database compaction would reach is then compacted by no queued request |
| CompactQueue.QueuedWholeShrinks | src/kv/RocksDBStore.cc:1663-1664 | a request starting at "" replaces a queued whole-database request by a bounded range, after which some key is no longer compacted |
| CompactQueue.CoversInSome | src/kv/RocksDBStore.cc:1663-1666 | without the whole-database request, a queue compacts exactly the keys its ranges hold |
| CompactQueue.EnqueueInSome | src/kv/RocksDBStore.cc:1677-1718 | read as key ranges, coalescing loses and invents no key: after the call a key lies in a queued range exactly when it did before or lies in the request |
| CompactQueue.EnqueueNoWhole | src/kv/RocksDBStore.cc:1677-1718 | coalescing well-formed ranges other than ("", "") never produces ("", "") |
| CompactQueue.EnqueueCovers | src/kv/RocksDBStore.cc:1663-1718 | when neither the queue nor the request holds the whole-database request, coalescing loses and invents no work: a key is compacted by the new queue exactly when the old queue or the request compacts it |
| CompactQueue.EnqueueWellFormed | src/kv/RocksDBStore.cc:1677-1718 | a well-formed request keeps a queue of well-formed ranges well formed |
| KeyCodec.FirstNul | src/kv/RocksDBStore.cc:1622 | memchr's result: the first NUL, with no NUL before it, or the length when there is none |
| KeyCodec.SplitKey | src/kv/RocksDBStore.cc:1617-1635 | -EINVAL exactly when the slice has no NUL; otherwise a NUL-free prefix and a key that combine back into the slice |
| KeyCodec.SplitCombine | src/kv/RocksDBStore.cc:1617-1635 | splitting a combined key with a NUL-free prefix gives back the prefix and the key |
| KeyCodec.PastPrefix | src/kv/RocksDBStore.cc:1859-1864 | the prefix followed by the single byte 0x01 |
| KeyCodec.RawKeyIsPrefixedIffCombined | src/kv/RocksDBStore.cc:1823-1831 | a raw key is prefixed exactly when it is `prefix NUL key` for some key |
| KeyCodec.RawKeyIsPrefixedIffSplit | src/kv/RocksDBStore.cc:1823-1831 | for a NUL-free prefix, raw_key_is_prefixed agrees with the prefix split_key extracts |
| KeyCodec.PrefixRangeExact | src/kv/RocksDBStore.cc:1388-1392 | the range [`p NUL`, `p 01 NUL`) holds a combined key of a NUL-free prefix exactly when that prefix is p |
| KeyCodec.CombinedRangeExact | src/kv/RocksDBStore.cc:1432-1434 | the range [`p NUL start`, `p NUL end`) holds `q NUL key` exactly when q is p and key lies in [start, end) |
| Sharding.ToSizeT | src/kv/RocksDBStore.cc:611-616 | the long-to-size_t cast keeps exactly the non-negative values |
| Sharding.ToUint32 | src/kv/RocksDBStore.cc:618-636 | the long-to-uint32_t cast keeps every value that fits |
| Sharding.StrToL | src/kv/RocksDBStore.cc:611-636 | strtol saturates to the range of long, and without digits it returns 0 and does not move the end pointer |
| Sharding.StrToLDigits | src/kv/RocksDBStore.cc:611-636 | on an unsigned run of digits that fits in a long, strtol reads exactly that number and stops after it |
| Sharding.ParseShardingDef | src/kv/RocksDBStore.cc:565-650 | the parser's result: the columns pushed before the first malformed token, and false exactly when an error position is set |
| Sharding.ParseStep | src/kv/RocksDBStore.cc:590-648 | one iteration: a malformed token ends the parse with its error after the columns already pushed; a good token pushes its column and parsing continues after the token |
| Sharding.ParseColumnError | src/kv/RocksDBStore.cc:606-643 | a malformed token reports a position after its start, inside the text or at its terminator |
| Sharding.ParseErrorShape | src/kv/RocksDBStore.cc:565-650 | a failed parse reports an error position inside the text or at its terminator |
| Sharding.ParseShapedColumn | src/kv/RocksDBStore.cc:599-643 | a token with '(' before its first '=': the name is the text before '(', the options the text after '=', and the shard numbers are read after '(' starting from one shard and the full range |
| Sharding.ReadCount | src/kv/RocksDBStore.cc:611-625 | the shard count is followed by ',' and the range, or by ')' |
| Sharding.ReadLow | src/kv/RocksDBStore.cc:618-631 | the first hash byte must be followed by '-' |
| Sharding.ReadHigh | src/kv/RocksDBStore.cc:633-643 | the last hash byte is optional; without it the range keeps the end it had |
| Sharding.ParseOpenRange | src/kv/RocksDBStore.cc:606-643 | `name(N,L-)` has the range [L, UINT32_MAX) |
| Sharding.ParseBareColumn | src/kv/RocksDBStore.cc:599-645 | a token without '(' before its first '=' is one shard over the full range; its name and options, joined by '=', give back the token |
| Sharding.ShardNames | src/kv/RocksDBStore.cc:652-665 | a column contributes one name per shard, each shard's engine name in shard order |
| Sharding.ShardingDefToColumns | src/kv/RocksDBStore.cc:652-665 | the column names of the whole definition, column after column |
| Sharding.DecStrInjective | src/kv/RocksDBStore.cc:660-662 | to_string is injective, so different shard numbers give different column names |
| ShardingExample.ParseExample | src/kv/RocksDBStore.cc:557-563 | the documented example parses into four columns: `I`, one shard over [0, UINT32_MAX) with options `write_buffer_size=1048576`, then 6, 7 and 4 shards with ranges [0, UINT32_MAX), [10, UINT32_MAX) and [0, 10); everything after a token's first '=' is its options, including the later '=' and ',' |
| ShardingCheck.SortByNameSpec | src/kv/RocksDBStore.cc:766-769 | the sort by name orders the definitions by name and keeps every column |
| ShardingCheck.MatchesSameShapes | src/kv/RocksDBStore.cc:771-791 | matching definitions hold the same columns, up to order and options |
| ShardingCheck.MatchesIff | src/kv/RocksDBStore.cc:766-791 | for definitions with distinct names, sorting and comparing them succeeds exactly when they hold the same (name, count, window) columns up to order |
| ShardingCheck.CompareSorted | src/kv/RocksDBStore.cc:771-786 | the comparison loop matches exactly when the sizes agree and name, count and window agree column by column |
| ShardingCheck.Select | src/kv/RocksDBStore.cc:800-811 | a shard is classified as existing exactly when the engine lists its name |
| ShardingCheck.SelectPartition | src/kv/RocksDBStore.cc:800-811 | the existing and the missing shards together are all the shards, each once |
| ShardingCheck.AllShardsNames | src/kv/RocksDBStore.cc:824-831 | the shard names classified are the column names sharding_def_to_columns lists |
| ShardingCheck.AllShardsMerge | src/kv/RocksDBStore.cc:813-823 | every shard descriptor carries its column's linked merge operator, if it has one |
| ShardingCheck.FirstBadOptions | src/kv/RocksDBStore.cc:813-821 | the first column whose options do not parse, with every earlier column's options parsing; it is the length exactly when every column's options parse |
| ShardingCheck.Verify | src/kv/RocksDBStore.cc:739-843 | returns 0, -EIO or -EINVAL; 0 exactly when the definitions match, the engine's list was read, every stored column's options parse and the engine lists exactly one family more than the existing shards; -EINVAL exactly when all holds up to some stored column whose options do not parse; mismatching definitions give -EIO; on success the existing columns are the descriptors of the listed shards followed by "default", and the missing columns are the descriptors of the unlisted shards |
| ShardingCheck.EmplaceCf | src/kv/RocksDBStore.cc:800-811 | a shard the engine lists is appended to the existing ones, any other to the missing ones |
| ShardingCheck.EmplaceColumn | src/kv/RocksDBStore.cc:824-831 | one column's shards are classified in shard order |
| ShardingCheck.ClassifyAll | src/kv/RocksDBStore.cc:813-832 | the classification loop succeeds exactly when every column's options parse, and then it classifies every shard of every column; otherwise it stops at the first column whose options do not parse, having classified the shards of the columns before it |
| ShardingCheck.VerifySharding | src/kv/RocksDBStore.cc:739-843 | an unreadable stored definition gives -EIO; otherwise the result is Verify's verdict |
| ShardingCheck.VerifyAcceptsListedStore | src/kv/RocksDBStore.cc:813-843 | when the definitions match, the options parse and the engine lists exactly the stored shards' families and "default", verify_sharding returns 0 with every shard existing and none missing |
| ShardingCheck.VerifyClassifiesEveryShard | src/kv/RocksDBStore.cc:800-841 | on success every stored shard is classified exactly once, and the shard names are the stored definition's column names |
| ShardingCheck.MissingCheck | src/kv/RocksDBStore.cc:899-908 | -EIO exactly when column families are missing and the recreate marker does not read "1"; 0 otherwise |
| Transaction.Route | src/kv/RocksDBStore.cc:1310-1322 | a prefix without a column family writes `prefix NUL k` to default_cf; a sharded one writes the bare key to one of its handles |
| Transaction.RouteDecodes | src/kv/RocksDBStore.cc:1617-1635 | a key written to the default family splits back into its prefix and key |
| Transaction.RouteInjective | src/kv/RocksDBStore.cc:1310-1322 | distinct logical keys of NUL-free prefixes land on distinct default-family keys |
| Transaction.CountedErases | src/kv/RocksDBStore.cc:1379-1394 | a counting removal erases the range delete's keys once the counter reaches zero, and otherwise exactly the visited keys of its family |
| Transaction.RunHoldsBelow | src/kv/RocksDBStore.cc:1424-1429 | on a sorted iterator, the keys the loop visits are exactly the listed keys below end |
| Transaction.PrefixRemovalExact | src/kv/RocksDBStore.cc:1376-1396 | for a prefix without a column family, either path erases a stored combined key exactly when its prefix is the one removed |
| Transaction.RangeRemovalExact | src/kv/RocksDBStore.cc:1416-1438 | for a prefix without a column family, either path erases exactly that prefix's keys in [start, end) |
| Transaction.ShardLimitLeavesHighKeys | src/kv/RocksDBStore.cc:1398-1412 | a shard key above `ff ff ff ff` survives the range path but is deleted on the key-by-key path |
| Transaction.PerShardErases | src/kv/RocksDBStore.cc:1397-1413 | the per-shard removals erase a key exactly when one shard's removal erases it |
| Transaction.ShardedPrefixRemovalErases | src/kv/RocksDBStore.cc:1396-1413 | on a sharded prefix, every listed key of every shard below `ff ff ff ff` is erased, whichever path the shard takes |
| Transaction.ShardedRangeRemovalErases | src/kv/RocksDBStore.cc:1438-1458 | on a sharded prefix whose shards have distinct families, a shard's family loses a key exactly when it lies in [start, end), whichever path the shard takes |
| Transaction.SetRawSameFamily | src/kv/RocksDBStore.cc:1324-1338 | the pointer-and-length set files its combined key in the same family as set does, when default_cf is the family with id 0 |
| Transaction.RocksTransaction.constructor | src/kv/RocksDBStore.cc:1284-1287 | a transaction starts on its store with an empty batch |
| Transaction.RocksTransaction.Set | src/kv/RocksDBStore.cc:1310-1322 | appends a Put of the routed key and value |
| Transaction.RocksTransaction.SetRaw | src/kv/RocksDBStore.cc:1324-1338 | appends a Put under the handle get_cf_handle gave, which is null for the combined key |
| Transaction.RocksTransaction.Rmkey | src/kv/RocksDBStore.cc:1340-1363 | appends a Delete of the routed key |
| Transaction.RocksTransaction.RmSingleKey | src/kv/RocksDBStore.cc:1365-1374 | appends a SingleDelete of the routed key |
| Transaction.RocksTransaction.MergeValue | src/kv/RocksDBStore.cc:1461-1499 | appends a Merge of the routed key and value |
| Transaction.RocksTransaction.SetSavePoint | src/kv/RocksDBStore.cc:1381 | remembers the batch length |
| Transaction.RocksTransaction.RollbackToSavePoint | src/kv/RocksDBStore.cc:1387 | drops the records added since the innermost save point, and that save point |
| Transaction.RocksTransaction.PopSavePoint | src/kv/RocksDBStore.cc:1394 | forgets the innermost save point and keeps the records |
| Transaction.RocksTransaction.DeleteCounted | src/kv/RocksDBStore.cc:1379-1395 | the counting loop appends either one Delete per visited key, or the range delete once the counter reaches zero, and leaves the save points as they were |
| Transaction.RocksTransaction.RmkeysByPrefix | src/kv/RocksDBStore.cc:1376-1414 | appends the records of the prefix removal: on the default family over [`p NUL`, `p 01 NUL`), or shard by shard |
| Transaction.RocksTransaction.RmRangeKeys | src/kv/RocksDBStore.cc:1416-1459 | appends the records of the range removal: on the default family over [`p NUL start`, `p NUL end`), or shard by shard over [start, end) |
| Transaction.RocksTransaction.ShardsCounted | src/kv/RocksDBStore.cc:1397-1413 | runs one counting removal per shard, in handle order |
| MergeIterator.PrecedesIffNotKeyLess | src/kv/RocksDBStore.cc:1939-1961 | the vector order is KeyLess, in which a valid iterator comes before an invalid one and valid ones compare by key |
| MergeIterator.InsertOrdered | src/kv/RocksDBStore.cc:1983-1993 | inserting an iterator keeps the vector ordered and adds exactly that iterator |
| MergeIterator.SortIdsSpec | src/kv/RocksDBStore.cc:1983-1993 | the sort orders the vector by KeyLess and keeps every iterator |
| MergeIterator.PermutesDistinct | src/kv/RocksDBStore.cc:1968-1977 | the vector refers to each shard once |
| MergeIterator.HeadIsLeastAhead | src/kv/RocksDBStore.cc:2125-2130 | the front of an ordered vector stands on the least key not yet passed, and is invalid exactly when no key is left |
| MergeIterator.SeekPos | src/kv/RocksDBStore.cc:2037-2047 | Seek stops at the first key not below the target |
| MergeIterator.SeekSplits | src/kv/RocksDBStore.cc:2037-2047 | after Seek, the keys passed are exactly those below the target |
| MergeIterator.UpperSplits | src/kv/RocksDBStore.cc:2023-2036 | after upper_bound's Seek and skip of an equal key, the keys passed are exactly those not above the key |
| MergeIterator.SeekedMerged | src/kv/RocksDBStore.cc:1983-2047 | after a seek and the sort, the front stands on the least key at or beyond the bound, and is valid exactly when there is one |
| MergeIterator.StepForward | src/kv/RocksDBStore.cc:2048-2065 | advancing the front shard passes exactly the front key |
| MergeIterator.NextSuccessor | src/kv/RocksDBStore.cc:2048-2065 | after next, the front stands on the least key above the old key, and is valid exactly when there is one |
| MergeIterator.BubbleStep | src/kv/RocksDBStore.cc:2055-2061 | one swap of the bubble loop moves the advanced iterator one place back and keeps the rest ordered |
| MergeIterator.BubbledOrdered | src/kv/RocksDBStore.cc:2055-2061 | when the bubble loop stops, the vector is ordered |
| MergeIterator.LastRound | src/kv/RocksDBStore.cc:2001-2019 | one round of seek_to_last's scan keeps the greatest last key so far at the front and moves the others past their end |
| MergeIterator.LastScanStarts | src/kv/RocksDBStore.cc:1994-2000 | with every shard at its last key, the scan starts with the front iterator as the greatest so far |
| MergeIterator.LastSeeked | src/kv/RocksDBStore.cc:1994-2022 | after seek_to_last, the front stands on the greatest key of all shards, and is valid exactly when any shard holds a key |
| MergeIterator.ProbedIds | src/kv/RocksDBStore.cc:2081-2095 | the iterators that could step back are collected, and every such iterator is |
| MergeIterator.ProbeStarted | src/kv/RocksDBStore.cc:2081-2095 | a shard iterator on a key or past the end steps back exactly when it is beyond its first key; one on its first key is sought back to it |
| MergeIterator.ProbedAllPlaced | src/kv/RocksDBStore.cc:2081-2095 | probing each iterator once probes every shard |
| MergeIterator.HighestAt | src/kv/RocksDBStore.cc:2105-2113 | the index found by the highest loop lies among those scanned |
| MergeIterator.Highest | src/kv/RocksDBStore.cc:2105-2113 | the highest iterator is one of those that stepped back |
| MergeIterator.HighestIsGreatest | src/kv/RocksDBStore.cc:2105-2113 | no iterator that stepped back stands on a greater key than the highest |
| MergeIterator.IndexOf | src/kv/RocksDBStore.cc:2117-2122 | the first position holding the iterator |
| MergeIterator.ToFront | src/kv/RocksDBStore.cc:2117-2122 | the rotation brings one iterator to the front, shifts the earlier ones back by one, and keeps every iterator |
| MergeIterator.PrevIters | src/kv/RocksDBStore.cc:2078-2124 | prev's new vector holds the same iterators |
| MergeIterator.PrevPlaced | src/kv/RocksDBStore.cc:2078-2124 | prev leaves every shard position inside its key list |
| MergeIterator.PrevAtStart | src/kv/RocksDBStore.cc:2096-2103 | when no iterator can step back, the iteration becomes invalid, and no key lies before the old key |
| MergeIterator.PrevStepsBack | src/kv/RocksDBStore.cc:2105-2122 | otherwise the highest iterator moves one key back to the front of the vector, and every other iterator moves forward again |
| MergeIterator.PrevGreatest | src/kv/RocksDBStore.cc:2105-2113 | the key the highest iterator stepped back to is the greatest key before the old key |
| MergeIterator.PrevPredecessor | src/kv/RocksDBStore.cc:2078-2124 | after prev, the front stands on the greatest key below the old key, and is valid exactly when there is one |
| MergeIterator.ShardMergeIter.constructor | src/kv/RocksDBStore.cc:1968-1977 | one iterator per shard, in shard order |
| MergeIterator.ShardMergeIter.SeekToFirst | src/kv/RocksDBStore.cc:1983-1993 | every shard at its first key; the front stands on the least stored key, and is valid exactly when there is one; returns 0 |
| MergeIterator.ShardMergeIter.LowerBound | src/kv/RocksDBStore.cc:2037-2047 | the front stands on the least key not below the bound, and is valid exactly when there is one; returns 0 |
| MergeIterator.ShardMergeIter.UpperBound | src/kv/RocksDBStore.cc:2023-2036 | the front stands on the least key above the bound, and is valid exactly when there is one; returns 0 |
| MergeIterator.ShardMergeIter.SeekToLast | src/kv/RocksDBStore.cc:1994-2022 | the front stands on the greatest stored key, every other shard is past its end, and the result is valid exactly when a key is stored; returns 0 |
| MergeIterator.ShardMergeIter.EachToLast | src/kv/RocksDBStore.cc:1995-1997 | every shard at its last key |
| MergeIterator.ShardMergeIter.ScanForLast | src/kv/RocksDBStore.cc:1999-2019 | the scan ends with the greatest last key at the front and the other shards past their end |
| MergeIterator.ShardMergeIter.Next | src/kv/RocksDBStore.cc:2048-2065 | -1 and no change when invalid; otherwise the front shard advances, the vector stays ordered, and the front stands on the next key in order |
| MergeIterator.ShardMergeIter.BubbleUp | src/kv/RocksDBStore.cc:2055-2061 | the bubble loop restores the order when only the front was out of place |
| MergeIterator.ShardMergeIter.Prev | src/kv/RocksDBStore.cc:2078-2124 | the new positions and vector are prev's; the front stands on the greatest key before the old key, and is valid exactly when there is one; returns 0 |
| MergeIterator.ShardMergeIter.ProbeEach | src/kv/RocksDBStore.cc:2081-2095 | every iterator is stepped back if it can be, and the ones that could are collected |
| MergeIterator.ShardMergeIter.ProbeOne | src/kv/RocksDBStore.cc:2082-2094 | a valid iterator steps back and joins prev_done if it still stands on a key, otherwise it seeks its first key again; an invalid one seeks its last key and joins exactly when the shard holds a key |
| MergeIterator.ShardMergeIter.PickHighest | src/kv/RocksDBStore.cc:2105-2113 | finds the highest iterator among those that stepped back and advances every other one again |
| MergeIterator.ShardMergeIter.Rotate | src/kv/RocksDBStore.cc:2117-2122 | brings the highest iterator to the front and shifts the earlier ones back by one |
| ClsCas.Refcount | src/cls/cas/cls_cas.cc:24-46 | 0, -ENOENT or -EIO; no references on an error |
| ClsCas.ChunkObject.ReadRefcount | src/cls/cas/cls_cas.cc:24-46 | the references stored in the attribute; a missing attribute reads as none |
| ClsCas.ChunkObject.CreateOrGetRef | src/cls/cas/cls_cas.cc:68-121 | the return code and the new object are those of create_or_get_ref on the old object |
| ClsCas.ChunkObject.GetRef | src/cls/cas/cls_cas.cc:123-156 | the return code and the new object are those of get_ref on the old object |
| ClsCas.ChunkObject.PutRef | src/cls/cas/cls_cas.cc:158-199 | the return code and the new object are those of put_ref on the old object |
| ClsCas.ChunkObject.SetRefs | src/cls/cas/cls_cas.cc:201-226 | the return code and the new object are those of set_refs on the old object |
| ClsCas.ChunkObject.ReadRefs | src/cls/cas/cls_cas.cc:228-245 | the copy loop returns the stored references, or the read's error |
| ClsCas.ChunkObject.GetXattr | src/cls/cas/cls_cas.cc:30 | -ENOENT for a missing object, -ENODATA for a missing attribute, and otherwise the attribute |
| ClsCas.ChunkObject.SetXattr | src/cls/cas/cls_cas.cc:48-61 | stores the encoded set, creating the object if needed, and keeps its data |
| ClsCas.ChunkObject.WriteFull | src/cls/cas/cls_cas.cc:87 | the object exists and holds the data; the attribute is kept |
| ClsCas.ChunkObject.Remove | src/cls/cas/cls_cas.cc:190 | removing a missing object fails with -ENOENT; otherwise the object is gone |
| ClsCas.RefcountReadsStored | src/cls/cas/cls_cas.cc:24-46 | the read gives 0 and a set exactly when the object exists and holds that set; read_refs returns the same |
| ClsCas.DecodeFailureChangesNothing | src/cls/cas/cls_cas.cc:73-79 | input that does not decode is refused with -EINVAL, and every method leaves the object unchanged |
| ClsCas.CreateOnMissing | src/cls/cas/cls_cas.cc:83-95 | create_or_get_ref on a missing chunk writes the data and records the source as its one reference |
| ClsCas.VerifyMismatchRefused | src/cls/cas/cls_cas.cc:100-106 | with FLAG_VERIFY, data that differs from the stored chunk gives -ENOMSG and changes nothing |
| ClsCas.TakeRefExact | src/cls/cas/cls_cas.cc:110-118 | taking a reference gives -EEXIST, changing nothing, exactly when the source is held; otherwise the set gains exactly the source; get_ref agrees with create_or_get_ref |
| ClsCas.GetRefNeedsChunk | src/cls/cas/cls_cas.cc:136-141 | get_ref on a missing chunk or an undecodable attribute fails with the read's error and changes nothing |
| ClsCas.PutRefUnheld | src/cls/cas/cls_cas.cc:176-185 | put_ref gives -ENOLINK, changing nothing, exactly when the source is not held |
| ClsCas.PutRefHeld | src/cls/cas/cls_cas.cc:186-198 | put_ref of a held source succeeds; it removes the chunk exactly when that was the last reference, and otherwise stores the set without the source |
| ClsCas.SetRefsStores | src/cls/cas/cls_cas.cc:214-225 | an empty set removes the chunk; any other set is stored as given and the data is kept |
| ClsCas.MethodsKeepInvariant | src/cls/cas/cls_cas.cc:68-226 | every method keeps the object well formed and never leaves an empty reference set behind |
| ClsCas.GetThenPutRestores | src/cls/cas/cls_cas.cc:123-199 | taking a new reference and dropping it again restores a chunk that had other references |

## Left out

- I/O is not modelled: file reads, `ListColumnFamilies`, opening the database, the compaction thread and its lock, and logging. Results that come from them are parameters.
- The options-string parser (`GetColumnFamilyOptionsFromString`) is the parameter `optionsOk`. The options objects themselves are not modelled.
- `ceph_str_hash_rjenkins` is the store's parameter `strHash`, because its definition is not part of this model.
- `delete_range_threshold` is a constructor parameter. The configuration that sets it is not modelled.
- `combine_strings` is defined in a header that is not part of this model. It is modelled as `prefix NUL key`, as the rest of the file uses it.
- The store's `do_open` lifecycle is not modelled: opening the database and setting `default_cf` from the engine. `default_cf` is a field that starts null.
- The engine's iterators are not modelled. The keys they visit are inputs: `keys` and `shardKeys` in the removals, and `shards` in the merge iterator.
- Iterator status errors are not modelled. The engine's status is always ok, so every seek returns 0.
- MergeIterator.SortIds: `std::sort` may order equal elements either way. The model takes insertion order, which is one of the orders `std::sort` may produce. The contracts state only ordering and permutation, which hold for every such order.
- ShardingCheck.SortByName: `std::sort` may order columns with equal names either way. The model fixes insertion order. `Matches` and `Verify` depend on that choice only when a definition repeats a column name.
- MergeIterator.ShardMergeIter.Prev: the claims that the front stands on the predecessor and is valid exactly when one exists are stated only when the vector was ordered before the call and no key is stored in two shards. The other results hold unconditionally.
- MergeIterator.ShardMergeIter.Next: the successor claim is likewise stated only when the vector was ordered before the call and no key is stored in two shards.
- The position "before the first key" of a RocksDB iterator is modelled as -1.
- The rotation loop of `prev` always stops at the highest iterator, which is in the vector. The model keeps that loop, with the stop proved from the vector's contents.
- Transaction.RocksTransaction.Rmkey: this one method stands for both `rmkey` overloads, which route alike.
- Transaction.RocksTransaction.MergeValue: contiguous and fragmented values produce the same record. The value is a byte string.
- `put_bat`'s choice between a contiguous `Put` and a `SliceParts` `Put` is not modelled, because both write the same record.
- The whole-space iterator and `get_iterator`'s construction are not modelled.
- `cls_cas` write and setxattr I/O failures are not modelled; those calls always succeed. `hobject_t` keeps the fields its equality compares: name, locator key, snapshot, hash, max flag, pool and namespace. Its ordering and its encoding are not modelled.
- `FLAG_VERIFY` is 1. Its defining header is not part of this model.
- The encoding of the reference set and of the method inputs is modelled as decoding to a value or failing (`Undecodable`, `None`).
- The store's constructor is in `RocksDBStore.h`, which is not part of this model. `Store.RocksStore`'s constructor starts an empty, closed store.
- MergeRouter.RouterMerge: the router compares the prefix with the key's first bytes without checking the key's length. The model reads only inside the key, so a key no longer than the prefix matches nothing.
- Store.RocksStore.CompactRangeAsync: after a coalescing `erase`, the source compares the erased iterator with `end()`. The model takes that comparison as false, so nothing more is appended, as the comment "no merge, new entry" intends. Starting the compaction thread and waking it are not modelled.
- `references_chunk` and the class registration in `CLS_INIT` are not modelled. They are not among the chunk reference-counting operations.
