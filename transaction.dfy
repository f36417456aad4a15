/**
 * The store's write transaction: every update is routed to a column family
 * and appended as a record to one engine write batch. Prefix and range
 * removals count the keys they visit and, from the store's
 * delete_range_threshold on, roll the per-key deletes back to a save point
 * and emit a single range delete instead.
 */
module Transaction {
  import opened Bytes
  import opened Wrappers
  import opened KeyCodec
  import opened Store

  /** One write-batch record. */
  datatype Op =
    | Put(cf: Handle, key: Bytes, value: Bytes)
    | Delete(cf: Handle, key: Bytes)
    | SingleDelete(cf: Handle, key: Bytes)
    | Merge(cf: Handle, key: Bytes, value: Bytes)
    | DeleteRange(cf: Handle, begin: Bytes, end: Bytes)

  /** The column family id the engine files a record under: a null handle stands for the default family, id 0. */
  function FamilyId(h: Handle): nat
  {
    if h.Null? then 0 else h.id
  }

  /** Record op removes raw key k from the family with that id; a range delete's end is excluded. */
  predicate Erases(op: Op, id: nat, k: Bytes)
  {
    match op
    case Delete(h, key) => FamilyId(h) == id && key == k
    case SingleDelete(h, key) => FamilyId(h) == id && key == k
    case DeleteRange(h, b, e) => FamilyId(h) == id && LessEq(b, k) && Less(k, e)
    case _ => false
  }

  /** Some record of ops removes k. */
  predicate ErasedBy(ops: seq<Op>, id: nat, k: Bytes)
  {
    exists i :: 0 <= i < |ops| && Erases(ops[i], id, k)
  }

  /**
   * Where a logical key (prefix, k) is written: to the handle get_cf_handle
   * gives when that is not null, under the bare key; otherwise to the
   * default column family under `prefix NUL k`.
   */
  function Route(db: RocksStore, prefix: Bytes, k: Bytes): (r: (Handle, Bytes))
    requires db.Valid()
    reads db
    ensures !db.IsColumnFamily(prefix) ==> r.0 == db.defaultCf && r.1 == CombineStrings(prefix, k)
    ensures db.IsColumnFamily(prefix) && Null !in db.cfHandles[prefix].handles ==>
              r.0 in db.cfHandles[prefix].handles && r.1 == k
  {
    var cf := db.GetCfHandle(prefix, k);
    if cf != Null then (cf, k) else (db.defaultCf, CombineStrings(prefix, k))
  }

  /** A key written to the default family under a NUL-free prefix splits back into that prefix and key. */
  lemma RouteDecodes(db: RocksStore, prefix: Bytes, k: Bytes)
    requires db.Valid() && !db.IsColumnFamily(prefix) && NUL !in prefix
    ensures SplitKey(Route(db, prefix, k).1) == Ok((prefix, k))
  {
    SplitCombine(prefix, k);
  }

  /** Distinct logical keys of NUL-free prefixes without a column family land on distinct default-family keys. */
  lemma RouteInjective(db: RocksStore, p1: Bytes, k1: Bytes, p2: Bytes, k2: Bytes)
    requires db.Valid() && !db.IsColumnFamily(p1) && !db.IsColumnFamily(p2)
    requires NUL !in p1 && NUL !in p2
    requires Route(db, p1, k1) == Route(db, p2, k2)
    ensures p1 == p2 && k1 == k2
  {
    RouteDecodes(db, p1, k1);
    RouteDecodes(db, p2, k2);
  }

  /**
   * The (--cnt) != 0 test on a 64-bit counter that starts at the threshold:
   * with n keys to visit the counter reaches zero, and the range delete is
   * chosen, when n reaches the threshold; a zero threshold wraps around, so
   * it takes 2^64 keys, except that with no key to visit the counter is
   * never decremented and stays zero.
   */
  predicate UsesRange(threshold: uint64, n: nat)
  {
    if threshold == 0 then n == 0 || n >= TWO_TO_64 else n >= threshold
  }

  /** One Delete record per raw key, in order. */
  function DeleteEach(cf: Handle, raw: seq<Bytes>): (r: seq<Op>)
    ensures |r| == |raw|
  {
    seq(|raw|, j requires 0 <= j < |raw| => Delete(cf, raw[j]))
  }

  /** What a counting removal leaves in the batch: the range delete, or a delete per visited key. */
  function Counted(cf: Handle, raw: seq<Bytes>, threshold: uint64, range: Op): seq<Op>
  {
    if UsesRange(threshold, |raw|) then [range] else DeleteEach(cf, raw)
  }

  /** The key a visited iterator key is deleted under: combined with the prefix on the default family. */
  function RawKey(prefix: Option<Bytes>, k: Bytes): Bytes
  {
    if prefix.Some? then CombineStrings(prefix.value, k) else k
  }

  function Raw(prefix: Option<Bytes>, ks: seq<Bytes>): (r: seq<Bytes>)
    ensures |r| == |ks|
  {
    seq(|ks|, j requires 0 <= j < |ks| => RawKey(prefix, ks[j]))
  }

  /** The iterator key is still inside the removal: below end, when there is one. */
  predicate Below(k: Bytes, end: Option<Bytes>)
  {
    end.None? || Less(k, end.value)
  }

  /** How many keys the loop visits before one is not below end. */
  function RunLength(keys: seq<Bytes>, end: Option<Bytes>): (n: nat)
    ensures n <= |keys|
    ensures forall j :: 0 <= j < n ==> Below(keys[j], end)
    ensures n < |keys| ==> !Below(keys[n], end)
  {
    if |keys| == 0 || !Below(keys[0], end) then 0 else 1 + RunLength(keys[1..], end)
  }

  function Run(keys: seq<Bytes>, end: Option<Bytes>): seq<Bytes>
  {
    keys[..RunLength(keys, end)]
  }

  /** The visit after which the counter first reads zero again. */
  function Trigger(threshold: uint64): nat
  {
    if threshold == 0 then TWO_TO_64 else threshold
  }

  /** The counter after i decrements. */
  function Remaining(threshold: uint64, i: nat): (c: uint64)
    requires i <= Trigger(threshold)
  {
    if threshold == 0 then (if i == 0 then 0 else TWO_TO_64 - i) else threshold - i
  }

  /** The four-byte limit a sharded prefix removal deletes up to. */
  const SHARD_LIMIT: Bytes := [0xff as char, 0xff as char, 0xff as char, 0xff as char]

  /**
   * The records rmkeys_by_prefix adds: on the default family for a prefix
   * without a column family, over [`prefix NUL`, `prefix 0x01 NUL`);
   * otherwise per shard, over ["", SHARD_LIMIT).
   */
  function PrefixRemoval(db: RocksStore, prefix: Bytes, keys: seq<Bytes>, shardKeys: Handle -> seq<Bytes>): seq<Op>
    reads db
  {
    if prefix !in db.cfHandles then
      Counted(db.defaultCf, Raw(Some(prefix), keys), db.deleteRangeThreshold,
        DeleteRange(db.defaultCf, CombineStrings(prefix, []), CombineStrings(PastPrefix(prefix), [])))
    else
      PerShard(db.cfHandles[prefix].handles, shardKeys, None, db.deleteRangeThreshold, [], SHARD_LIMIT)
  }

  /**
   * The records rm_range_keys adds: on the default family over
   * [`prefix NUL start`, `prefix NUL end`), or per shard over [start, end).
   */
  function RangeRemoval(db: RocksStore, prefix: Bytes, start: Bytes, end: Bytes, keys: seq<Bytes>,
                        shardKeys: Handle -> seq<Bytes>): seq<Op>
    reads db
  {
    if prefix !in db.cfHandles then
      Counted(db.defaultCf, Raw(Some(prefix), Run(keys, Some(end))), db.deleteRangeThreshold,
        DeleteRange(db.defaultCf, CombineStrings(prefix, start), CombineStrings(prefix, end)))
    else
      PerShard(db.cfHandles[prefix].handles, shardKeys, Some(end), db.deleteRangeThreshold, start, end)
  }

  /** Each shard's counting removal, shard after shard. */
  function PerShard(handles: seq<Handle>, shardKeys: Handle -> seq<Bytes>, end: Option<Bytes>,
                    threshold: uint64, lo: Bytes, hi: Bytes): seq<Op>
  {
    if |handles| == 0 then []
    else
      var h := handles[|handles| - 1];
      PerShard(handles[..|handles| - 1], shardKeys, end, threshold, lo, hi)
        + Counted(h, Run(shardKeys(h), end), threshold, DeleteRange(h, lo, hi))
  }

  /**
   * What a counting removal erases: with the range delete, the range's keys;
   * otherwise exactly the visited keys, on the family it ran over.
   */
  lemma CountedErases(cf: Handle, raw: seq<Bytes>, threshold: uint64, range: Op, id: nat, x: Bytes)
    ensures ErasedBy(Counted(cf, raw, threshold, range), id, x)
            <==> if UsesRange(threshold, |raw|) then Erases(range, id, x) else FamilyId(cf) == id && x in raw
  {
    var ops := Counted(cf, raw, threshold, range);
    if UsesRange(threshold, |raw|) {
      assert ops[0] == range;
    } else {
      if x in raw && FamilyId(cf) == id {
        var j :| 0 <= j < |raw| && raw[j] == x;
        assert Erases(ops[j], id, x);
      }
    }
  }

  /** The visited keys of a sorted iterator run hold every listed key below end. */
  lemma RunHoldsBelow(keys: seq<Bytes>, end: Bytes, key: Bytes)
    requires forall i, j :: 0 <= i < j < |keys| ==> Less(keys[i], keys[j])
    ensures key in Run(keys, Some(end)) <==> key in keys && Less(key, end)
  {
    var n := RunLength(keys, Some(end));
    if key in keys && Less(key, end) {
      var j :| 0 <= j < |keys| && keys[j] == key;
      if j >= n {
        if j > n {
          LessTransitive(keys[n], keys[j], end);
        }
        assert false;
      }
      assert Run(keys, Some(end))[j] == key;
    }
  }

  /** With Raw combining one NUL-free prefix, a combined key is listed exactly when its parts are. */
  lemma RawCombined(p: Bytes, ks: seq<Bytes>, q: Bytes, key: Bytes)
    requires NUL !in p && NUL !in q
    ensures CombineStrings(q, key) in Raw(Some(p), ks) <==> q == p && key in ks
  {
    var raw := Raw(Some(p), ks);
    if CombineStrings(q, key) in raw {
      var j :| 0 <= j < |raw| && raw[j] == CombineStrings(q, key);
      SplitCombine(p, ks[j]);
      SplitCombine(q, key);
    }
    if q == p && key in ks {
      var j :| 0 <= j < |ks| && ks[j] == key;
      assert raw[j] == CombineStrings(q, key);
    }
  }

  /**
   * rmkeys_by_prefix on a prefix without a column family removes exactly the
   * prefix's keys from the default family, whichever path it takes: when the
   * iterator lists every stored key of the prefix, a stored key `q NUL key`
   * of a NUL-free prefix q is erased exactly when q is the prefix.
   */
  lemma {:induction false} PrefixRemovalExact(db: RocksStore, prefix: Bytes, keys: seq<Bytes>,
                                              shardKeys: Handle -> seq<Bytes>, q: Bytes, key: Bytes)
    requires prefix !in db.cfHandles && NUL !in prefix && NUL !in q
    requires q == prefix ==> key in keys
    ensures ErasedBy(PrefixRemoval(db, prefix, keys, shardKeys), FamilyId(db.defaultCf), CombineStrings(q, key))
            <==> q == prefix
  {
    var raw := Raw(Some(prefix), keys);
    var range := DeleteRange(db.defaultCf, CombineStrings(prefix, []), CombineStrings(PastPrefix(prefix), []));
    CountedErases(db.defaultCf, raw, db.deleteRangeThreshold, range, FamilyId(db.defaultCf), CombineStrings(q, key));
    PrefixRangeExact(prefix, q, key);
    RawCombined(prefix, keys, q, key);
  }

  /**
   * rm_range_keys on a prefix without a column family removes exactly the
   * prefix's keys in [start, end) from the default family, whichever path it
   * takes, when the iterator lists the prefix's stored keys from start on in
   * ascending order.
   */
  lemma {:induction false} RangeRemovalExact(db: RocksStore, prefix: Bytes, start: Bytes, end: Bytes, keys: seq<Bytes>,
                                             shardKeys: Handle -> seq<Bytes>, q: Bytes, key: Bytes)
    requires prefix !in db.cfHandles && NUL !in prefix && NUL !in q
    requires forall i, j :: 0 <= i < j < |keys| ==> Less(keys[i], keys[j])
    requires forall i :: 0 <= i < |keys| ==> LessEq(start, keys[i])
    requires q == prefix && LessEq(start, key) && Less(key, end) ==> key in keys
    ensures ErasedBy(RangeRemoval(db, prefix, start, end, keys, shardKeys), FamilyId(db.defaultCf), CombineStrings(q, key))
            <==> q == prefix && LessEq(start, key) && Less(key, end)
  {
    var run := Run(keys, Some(end));
    var range := DeleteRange(db.defaultCf, CombineStrings(prefix, start), CombineStrings(prefix, end));
    CountedErases(db.defaultCf, Raw(Some(prefix), run), db.deleteRangeThreshold, range,
      FamilyId(db.defaultCf), CombineStrings(q, key));
    CombinedRangeExact(prefix, q, key, start, end);
    RawCombined(prefix, run, q, key);
    RunHoldsBelow(keys, end, key);
  }

  /**
   * A shard key at or above SHARD_LIMIT survives the range path of a
   * sharded prefix removal although the per-key path deletes it: one such
   * key with a threshold of 1 takes the range path and stays, with a
   * threshold of 2 it is deleted.
   */
  lemma ShardLimitLeavesHighKeys()
    ensures !ErasedBy(Counted(Cf(1), [SHARD_LIMIT + [NUL]], 1, DeleteRange(Cf(1), [], SHARD_LIMIT)), 1, SHARD_LIMIT + [NUL])
    ensures ErasedBy(Counted(Cf(1), [SHARD_LIMIT + [NUL]], 2, DeleteRange(Cf(1), [], SHARD_LIMIT)), 1, SHARD_LIMIT + [NUL])
  {
    var k := SHARD_LIMIT + [NUL];
    var range := DeleteRange(Cf(1), [], SHARD_LIMIT);
    PrefixLess(SHARD_LIMIT, [NUL]);
    LessAsymmetric(SHARD_LIMIT, k);
    assert Counted(Cf(1), [k], 1, range) == [range];
    assert Counted(Cf(1), [k], 2, range)[0] == Delete(Cf(1), k);
  }

  /** The per-shard removals over one more shard add that shard's removal at the end. */
  lemma PerShardSnoc(handles: seq<Handle>, idx: nat, shardKeys: Handle -> seq<Bytes>, end: Option<Bytes>,
                     threshold: uint64, lo: Bytes, hi: Bytes)
    requires idx < |handles|
    ensures PerShard(handles[..idx + 1], shardKeys, end, threshold, lo, hi)
            == PerShard(handles[..idx], shardKeys, end, threshold, lo, hi)
               + Counted(handles[idx], Run(shardKeys(handles[idx]), end), threshold, DeleteRange(handles[idx], lo, hi))
  {
    assert handles[..idx + 1][..idx] == handles[..idx];
  }

  lemma AppendStep(b0: seq<Op>, done: seq<Op>, more: seq<Op>, b1: seq<Op>, b2: seq<Op>)
    requires b1 == b0 + done && b2 == b1 + more
    ensures b2 == b0 + (done + more)
  {
  }

  /** Without a prefix the raw keys are the keys themselves. */
  lemma RawNone(ks: seq<Bytes>)
    ensures Raw(None, ks) == ks
  {
  }

  /** Shard h's own counting removal erases x in family id. */
  predicate ShardErases(h: Handle, shardKeys: Handle -> seq<Bytes>, end: Option<Bytes>,
                        threshold: uint64, lo: Bytes, hi: Bytes, id: nat, x: Bytes)
  {
    ErasedBy(Counted(h, Run(shardKeys(h), end), threshold, DeleteRange(h, lo, hi)), id, x)
  }

  /** A key is erased by the per-shard removals exactly when one shard's removal erases it. */
  lemma {:induction false} PerShardErases(handles: seq<Handle>, shardKeys: Handle -> seq<Bytes>, end: Option<Bytes>,
                                          threshold: uint64, lo: Bytes, hi: Bytes, id: nat, x: Bytes)
    ensures ErasedBy(PerShard(handles, shardKeys, end, threshold, lo, hi), id, x)
            <==> exists j :: 0 <= j < |handles| && ShardErases(handles[j], shardKeys, end, threshold, lo, hi, id, x)
    decreases |handles|
  {
    if |handles| > 0 {
      var m := |handles| - 1;
      var front := handles[..m];
      var a := PerShard(front, shardKeys, end, threshold, lo, hi);
      var b := Counted(handles[m], Run(shardKeys(handles[m]), end), threshold, DeleteRange(handles[m], lo, hi));
      assert PerShard(handles, shardKeys, end, threshold, lo, hi) == a + b;
      PerShardErases(front, shardKeys, end, threshold, lo, hi, id, x);
      ErasedByAppend(a, b, id, x);
      assert ErasedBy(b, id, x) == ShardErases(handles[m], shardKeys, end, threshold, lo, hi, id, x);
      if ErasedBy(a, id, x) {
        var j :| 0 <= j < m && ShardErases(front[j], shardKeys, end, threshold, lo, hi, id, x);
        assert front[j] == handles[j];
        assert ShardErases(handles[j], shardKeys, end, threshold, lo, hi, id, x);
      } else if ErasedBy(b, id, x) {
        assert ShardErases(handles[m], shardKeys, end, threshold, lo, hi, id, x);
      } else {
        forall j | 0 <= j < |handles|
          ensures !ShardErases(handles[j], shardKeys, end, threshold, lo, hi, id, x)
        {
          if j < m {
            assert front[j] == handles[j];
          }
        }
      }
    }
  }

  lemma ErasedByAppend(a: seq<Op>, b: seq<Op>, id: nat, x: Bytes)
    ensures ErasedBy(a + b, id, x) <==> ErasedBy(a, id, x) || ErasedBy(b, id, x)
  {
    if ErasedBy(a + b, id, x) {
      var i :| 0 <= i < |a + b| && Erases((a + b)[i], id, x);
      if i >= |a| {
        assert Erases(b[i - |a|], id, x);
      } else {
        assert Erases(a[i], id, x);
      }
    }
    if ErasedBy(a, id, x) {
      var i :| 0 <= i < |a| && Erases(a[i], id, x);
      assert Erases((a + b)[i], id, x);
    }
    if ErasedBy(b, id, x) {
      var i :| 0 <= i < |b| && Erases(b[i], id, x);
      assert Erases((a + b)[|a| + i], id, x);
    }
  }

  /**
   * On a sharded prefix, rmkeys_by_prefix erases every listed key of every
   * shard that sorts below SHARD_LIMIT, whichever path the shard takes.
   */
  lemma ShardedPrefixRemovalErases(db: RocksStore, prefix: Bytes, keys: seq<Bytes>, shardKeys: Handle -> seq<Bytes>,
                                   j: nat, x: Bytes)
    requires prefix in db.cfHandles && j < |db.cfHandles[prefix].handles|
    requires x in shardKeys(db.cfHandles[prefix].handles[j]) && Less(x, SHARD_LIMIT)
    ensures ErasedBy(PrefixRemoval(db, prefix, keys, shardKeys), FamilyId(db.cfHandles[prefix].handles[j]), x)
  {
    var handles := db.cfHandles[prefix].handles;
    var h := handles[j];
    var T := db.deleteRangeThreshold;
    assert Run(shardKeys(h), None) == shardKeys(h);
    CountedErases(h, shardKeys(h), T, DeleteRange(h, [], SHARD_LIMIT), FamilyId(h), x);
    assert ShardErases(h, shardKeys, None, T, [], SHARD_LIMIT, FamilyId(h), x);
    PerShardErases(handles, shardKeys, None, T, [], SHARD_LIMIT, FamilyId(h), x);
  }

  /**
   * On a sharded prefix, rm_range_keys removes exactly the keys in
   * [start, end) from a shard's family, whichever path each shard takes,
   * when that shard's iterator lists its stored keys from start on in
   * ascending order and no other shard shares its family.
   */
  lemma {:induction false} ShardedRangeRemovalErases(db: RocksStore, prefix: Bytes, start: Bytes, end: Bytes,
                                                     keys: seq<Bytes>, shardKeys: Handle -> seq<Bytes>, j: nat, x: Bytes)
    requires prefix in db.cfHandles && j < |db.cfHandles[prefix].handles|
    requires var ks := shardKeys(db.cfHandles[prefix].handles[j]);
             (forall a, b :: 0 <= a < b < |ks| ==> Less(ks[a], ks[b])) &&
             (forall a :: 0 <= a < |ks| ==> LessEq(start, ks[a])) &&
             (LessEq(start, x) && Less(x, end) ==> x in ks)
    requires forall i :: 0 <= i < |db.cfHandles[prefix].handles| && i != j ==>
               FamilyId(db.cfHandles[prefix].handles[i]) != FamilyId(db.cfHandles[prefix].handles[j])
    ensures ErasedBy(RangeRemoval(db, prefix, start, end, keys, shardKeys), FamilyId(db.cfHandles[prefix].handles[j]), x)
            <==> LessEq(start, x) && Less(x, end)
  {
    var handles := db.cfHandles[prefix].handles;
    var h := handles[j];
    var id := FamilyId(h);
    var T := db.deleteRangeThreshold;
    CountedErases(h, Run(shardKeys(h), Some(end)), T, DeleteRange(h, start, end), id, x);
    RunHoldsBelow(shardKeys(h), end, x);
    assert ShardErases(h, shardKeys, Some(end), T, start, end, id, x) <==> LessEq(start, x) && Less(x, end);
    forall i | 0 <= i < |handles| && i != j
      ensures !ShardErases(handles[i], shardKeys, Some(end), T, start, end, id, x)
    {
      CountedErases(handles[i], Run(shardKeys(handles[i]), Some(end)), T, DeleteRange(handles[i], start, end), id, x);
    }
    PerShardErases(handles, shardKeys, Some(end), T, start, end, id, x);
  }

  /** The (pointer, length) set files its combined key under the default family like set, when default_cf is the family with id 0. */
  lemma SetRawSameFamily(db: RocksStore, prefix: Bytes, k: Bytes)
    requires db.Valid() && FamilyId(db.defaultCf) == 0
    ensures FamilyId(db.GetCfHandle(prefix, k)) == FamilyId(Route(db, prefix, k).0)
  {
  }

  class RocksTransaction {
    /** The store the transaction writes to. */
    const db: RocksStore
    /** bat: the write batch's records, in order. */
    var batch: seq<Op>
    /** The batch lengths recorded by the open save points, innermost last. */
    var savePoints: seq<nat>

    constructor (store: RocksStore)
      ensures db == store && batch == [] && savePoints == []
    {
      db := store;
      batch := [];
      savePoints := [];
    }

    /** set: a Put of the routed key. */
    method Set(prefix: Bytes, k: Bytes, value: Bytes)
      requires db.Valid()
      modifies this
      ensures batch == old(batch) + [Put(Route(db, prefix, k).0, Route(db, prefix, k).1, value)]
      ensures savePoints == old(savePoints)
    {
      var cf := db.GetCfHandle(prefix, k);
      if cf != Null {
        batch := batch + [Put(cf, k, value)];
      } else {
        batch := batch + [Put(db.defaultCf, CombineStrings(prefix, k), value)];
      }
    }

    /**
     * set with a (pointer, length) key: as set, except that the combined key
     * is written under the null handle get_cf_handle gave rather than the
     * store's default_cf.
     */
    method SetRaw(prefix: Bytes, k: Bytes, value: Bytes)
      requires db.Valid()
      modifies this
      ensures batch == old(batch) + [Put(db.GetCfHandle(prefix, k), Route(db, prefix, k).1, value)]
      ensures savePoints == old(savePoints)
    {
      var cf := db.GetCfHandle(prefix, k);
      if cf != Null {
        batch := batch + [Put(cf, k, value)];
      } else {
        batch := batch + [Put(cf, CombineStrings(prefix, k), value)];
      }
    }

    /** rmkey (both overloads): a Delete of the routed key. */
    method Rmkey(prefix: Bytes, k: Bytes)
      requires db.Valid()
      modifies this
      ensures batch == old(batch) + [Delete(Route(db, prefix, k).0, Route(db, prefix, k).1)]
      ensures savePoints == old(savePoints)
    {
      var cf := db.GetCfHandle(prefix, k);
      if cf != Null {
        batch := batch + [Delete(cf, k)];
      } else {
        batch := batch + [Delete(db.defaultCf, CombineStrings(prefix, k))];
      }
    }

    /** rm_single_key: a SingleDelete of the routed key. */
    method RmSingleKey(prefix: Bytes, k: Bytes)
      requires db.Valid()
      modifies this
      ensures batch == old(batch) + [SingleDelete(Route(db, prefix, k).0, Route(db, prefix, k).1)]
      ensures savePoints == old(savePoints)
    {
      var cf := db.GetCfHandle(prefix, k);
      if cf != Null {
        batch := batch + [SingleDelete(cf, k)];
      } else {
        batch := batch + [SingleDelete(db.defaultCf, CombineStrings(prefix, k))];
      }
    }

    /** merge: a Merge of the routed key, whether or not the value is contiguous. */
    method MergeValue(prefix: Bytes, k: Bytes, value: Bytes)
      requires db.Valid()
      modifies this
      ensures batch == old(batch) + [Merge(Route(db, prefix, k).0, Route(db, prefix, k).1, value)]
      ensures savePoints == old(savePoints)
    {
      var cf := db.GetCfHandle(prefix, k);
      if cf != Null {
        batch := batch + [Merge(cf, k, value)];
      } else {
        batch := batch + [Merge(db.defaultCf, CombineStrings(prefix, k), value)];
      }
    }

    /** SetSavePoint: remembers the batch length. */
    method SetSavePoint()
      modifies this
      ensures batch == old(batch) && savePoints == old(savePoints) + [|batch|]
    {
      savePoints := savePoints + [|batch|];
    }

    /** RollbackToSavePoint: drops the records added since the innermost save point, and the save point. */
    method RollbackToSavePoint()
      requires |savePoints| > 0 && savePoints[|savePoints| - 1] <= |batch|
      modifies this
      ensures batch == old(batch)[..old(savePoints)[|old(savePoints)| - 1]]
      ensures savePoints == old(savePoints)[..|old(savePoints)| - 1]
    {
      batch := batch[..savePoints[|savePoints| - 1]];
      savePoints := savePoints[..|savePoints| - 1];
    }

    /** PopSavePoint: forgets the innermost save point and keeps the records. */
    method PopSavePoint()
      requires |savePoints| > 0
      modifies this
      ensures batch == old(batch) && savePoints == old(savePoints)[..|old(savePoints)| - 1]
    {
      savePoints := savePoints[..|savePoints| - 1];
    }

    /**
     * The counting loop shared by both removals: under a save point, delete
     * each visited key while the counter, decremented before each delete,
     * stays non-zero; if it reads zero at the end, roll back and add the
     * range record instead, otherwise drop the save point.
     */
    method DeleteCounted(cf: Handle, prefix: Option<Bytes>, keys: seq<Bytes>, end: Option<Bytes>, range: Op)
      modifies this
      ensures batch == old(batch) + Counted(cf, Raw(prefix, Run(keys, end)), db.deleteRangeThreshold, range)
      ensures savePoints == old(savePoints)
    {
      var threshold := db.deleteRangeThreshold;
      var cnt: uint64 := threshold;
      ghost var n := RunLength(keys, end);
      SetSavePoint();
      var i := 0;
      while true
        invariant i <= n && i < Trigger(threshold)
        invariant cnt == Remaining(threshold, i)
        invariant savePoints == old(savePoints) + [|old(batch)|]
        invariant batch == old(batch) + DeleteEach(cf, Raw(prefix, keys[..i]))
        decreases |keys| - i
      {
        if i == |keys| || !Below(keys[i], end) {
          break;
        }
        cnt := if cnt == 0 then TWO_TO_64 - 1 else cnt - 1;
        if cnt == 0 {
          break;
        }
        assert DeleteEach(cf, Raw(prefix, keys[..i + 1]))
          == DeleteEach(cf, Raw(prefix, keys[..i])) + [Delete(cf, RawKey(prefix, keys[i]))];
        batch := batch + [Delete(cf, RawKey(prefix, keys[i]))];
        i := i + 1;
      }
      assert Run(keys, end) == keys[..n];
      if cnt == 0 {
        assert UsesRange(threshold, n);
        RollbackToSavePoint();
        batch := batch + [range];
      } else {
        assert i == n && !UsesRange(threshold, n);
        PopSavePoint();
      }
    }

    /**
     * rmkeys_by_prefix: keys are the prefix iterator's keys in order, and
     * shardKeys(h) the keys of shard h in order.
     */
    method RmkeysByPrefix(prefix: Bytes, keys: seq<Bytes>, shardKeys: Handle -> seq<Bytes>)
      requires db.Valid()
      modifies this
      ensures batch == old(batch) + PrefixRemoval(db, prefix, keys, shardKeys)
      ensures savePoints == old(savePoints)
    {
      if prefix !in db.cfHandles {
        DeleteCounted(db.defaultCf, Some(prefix), keys, None,
          DeleteRange(db.defaultCf, CombineStrings(prefix, []), CombineStrings(PastPrefix(prefix), [])));
        assert Run(keys, None) == keys;
      } else {
        ShardsCounted(db.cfHandles[prefix].handles, shardKeys, None, [], SHARD_LIMIT);
      }
    }

    /**
     * rm_range_keys: keys are the prefix iterator's keys from its lower
     * bound of start on, and shardKeys(h) the keys of shard h from its seek
     * to start on, both in order.
     */
    method RmRangeKeys(prefix: Bytes, start: Bytes, end: Bytes, keys: seq<Bytes>, shardKeys: Handle -> seq<Bytes>)
      requires db.Valid()
      modifies this
      ensures batch == old(batch) + RangeRemoval(db, prefix, start, end, keys, shardKeys)
      ensures savePoints == old(savePoints)
    {
      if prefix !in db.cfHandles {
        DeleteCounted(db.defaultCf, Some(prefix), keys, Some(end),
          DeleteRange(db.defaultCf, CombineStrings(prefix, start), CombineStrings(prefix, end)));
      } else {
        ShardsCounted(db.cfHandles[prefix].handles, shardKeys, Some(end), start, end);
      }
    }

    /** The per-shard loop of both removals. */
    method ShardsCounted(handles: seq<Handle>, shardKeys: Handle -> seq<Bytes>, end: Option<Bytes>, lo: Bytes, hi: Bytes)
      modifies this
      ensures batch == old(batch) + PerShard(handles, shardKeys, end, db.deleteRangeThreshold, lo, hi)
      ensures savePoints == old(savePoints)
    {
      for idx := 0 to |handles|
        invariant batch == old(batch) + PerShard(handles[..idx], shardKeys, end, db.deleteRangeThreshold, lo, hi)
        invariant savePoints == old(savePoints)
      {
        var h := handles[idx];
        ghost var before := batch;
        PerShardSnoc(handles, idx, shardKeys, end, db.deleteRangeThreshold, lo, hi);
        RawNone(Run(shardKeys(h), end));
        DeleteCounted(h, None, shardKeys(h), end, DeleteRange(h, lo, hi));
        AppendStep(old(batch), PerShard(handles[..idx], shardKeys, end, db.deleteRangeThreshold, lo, hi),
          Counted(h, Run(shardKeys(h), end), db.deleteRangeThreshold, DeleteRange(h, lo, hi)), before, batch);
      }
      assert handles[..|handles|] == handles;
    }
  }
}
