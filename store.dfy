/**
 * The store object's routing state: the registered merge operators, the
 * partition directory (one entry per dedicated column family, holding its
 * hash window and one engine handle per shard) and the compaction queue.
 */
module Store {
  import opened Bytes
  import opened Wrappers
  import opened MergeRouter
  import CompactQueue

  /** An engine column-family handle; Null is the null pointer. */
  datatype Handle = Null | Cf(id: nat)

  /**
   * A directory entry: keys hash on their bytes [hashL, hashH) and go to
   * handles[hash % |handles|].
   */
  datatype ShardedColumn = ShardedColumn(hashL: uint32, hashH: uint32, handles: seq<Handle>)

  /** handles after `resize(shard_idx + 1)` when too short, then `handles[shard_idx] = handle`. */
  function Placed(handles: seq<Handle>, idx: nat, h: Handle): (r: seq<Handle>)
    ensures |r| == if |handles| <= idx then idx + 1 else |handles|
    ensures r[idx] == h
    ensures forall j :: 0 <= j < |r| && j != idx ==> r[j] == if j < |handles| then handles[j] else Null
  {
    var grown := if |handles| <= idx then handles + seq(idx + 1 - |handles|, _ => Null) else handles;
    grown[idx := h]
  }

  /** std::min<uint32_t>(bound, key.size()): the size is cut to 32 bits first. */
  function Clamp(bound: uint32, size: nat): (r: uint32)
    ensures r <= bound && r <= size
    ensures size < TWO_TO_32 ==> r == if bound <= size then bound else size
  {
    var size32 := size % TWO_TO_32;
    if bound <= size32 then bound else size32
  }

  /** The bytes of key that the shard hash reads. */
  function Window(col: ShardedColumn, key: Bytes): Bytes
  {
    var l := Clamp(col.hashL, |key|);
    var h := Clamp(col.hashH, |key|);
    if l <= h then key[l..h] else []
  }

  /** The shard a key of a multi-shard column family goes to. */
  function ShardIndex(col: ShardedColumn, key: Bytes, hash: Bytes -> uint32): (i: nat)
    requires |col.handles| > 0
    ensures i < |col.handles|
  {
    hash(Window(col, key)) % |col.handles|
  }

  /**
   * Keys no longer than 2^32 - 1 bytes that both reach hashH and agree on
   * bytes [hashL, hashH) go to the same shard.
   */
  lemma SameWindowSameShard(col: ShardedColumn, k1: Bytes, k2: Bytes, hash: Bytes -> uint32)
    requires |col.handles| > 0 && col.hashL < col.hashH
    requires col.hashH <= |k1| < TWO_TO_32 && col.hashH <= |k2| < TWO_TO_32
    requires k1[col.hashL..col.hashH] == k2[col.hashL..col.hashH]
    ensures ShardIndex(col, k1, hash) == ShardIndex(col, k2, hash)
  {
    assert Window(col, k1) == k1[col.hashL..col.hashH];
    assert Window(col, k2) == k2[col.hashL..col.hashH];
  }

  /** A key shorter than hashL hashes the empty string, so all such keys share one shard. */
  lemma ShortKeysShareShard(col: ShardedColumn, k1: Bytes, k2: Bytes, hash: Bytes -> uint32)
    requires |col.handles| > 0 && col.hashL < col.hashH
    requires |k1| <= col.hashL && |k2| <= col.hashL
    ensures ShardIndex(col, k1, hash) == ShardIndex(col, k2, hash) == hash([]) % |col.handles|
  {
    assert Window(col, k1) == [];
    assert Window(col, k2) == [];
  }

  class RocksStore {
    /** merge_ops: every set_merge_operator registration, in order. */
    var mergeOps: seq<Registration>
    /** db != nullptr */
    var dbOpen: bool
    /** cf_handles: the partition directory. */
    var cfHandles: map<Bytes, ShardedColumn>
    /** compact_queue */
    var compactQueue: seq<CompactQueue.Range>
    /** assoc_name: the router's last computed name. */
    var assocName: Bytes
    /** default_cf: the engine's default column family, null until the database is opened. */
    var defaultCf: Handle
    /** delete_range_threshold: from this many keys on, a prefix or range removal becomes one range delete. */
    const deleteRangeThreshold: uint64
    /** ceph_str_hash_rjenkins, whose definition is not part of this model. */
    const strHash: Bytes -> uint32

    /** Every directory entry has a shard and a non-empty hash window bound. */
    ghost predicate Valid()
      reads this
    {
      forall name :: name in cfHandles ==>
        |cfHandles[name].handles| > 0 && cfHandles[name].hashL < cfHandles[name].hashH
    }

    constructor (hash: Bytes -> uint32, threshold: uint64)
      ensures Valid()
      ensures mergeOps == [] && !dbOpen && cfHandles == map[] && compactQueue == [] && assocName == []
      ensures defaultCf == Null
      ensures strHash == hash && deleteRangeThreshold == threshold
    {
      mergeOps := [];
      dbOpen := false;
      cfHandles := map[];
      compactQueue := [];
      assocName := [];
      defaultCf := Null;
      strHash := hash;
      deleteRangeThreshold := threshold;
    }

    /** set_merge_operator: only while the database is closed; appends the registration. */
    method SetMergeOperator(prefix: Bytes, op: MergeOperator) returns (r: int)
      requires !dbOpen
      modifies this
      ensures defaultCf == old(defaultCf)
      ensures r == 0
      ensures mergeOps == old(mergeOps) + [(prefix, op)]
      ensures dbOpen == old(dbOpen) && cfHandles == old(cfHandles)
      ensures compactQueue == old(compactQueue) && assocName == old(assocName)
    {
      mergeOps := mergeOps + [(prefix, op)];
      r := 0;
    }

    /**
     * install_cf_mergeop: the operator a column family's linker is bound to.
     * Every registration is visited and an equal prefix replaces the choice,
     * so the last registration of the prefix wins; none means no operator.
     */
    method InstallCfMergeop(prefix: Bytes) returns (op: Option<MergeOperator>)
      ensures op == LastMatch(mergeOps, prefix)
    {
      op := None;
      for i := 0 to |mergeOps|
        invariant op == LastMatch(mergeOps[..i], prefix)
      {
        assert mergeOps[..i + 1][..i] == mergeOps[..i];
        if mergeOps[i].0 == prefix {
          op := Some(mergeOps[i].1);
        }
      }
      assert mergeOps[..|mergeOps|] == mergeOps;
    }

    /** MergeOperatorRouter::Name: recomputes assoc_name from the registrations and the directory. */
    method RouterNameOf() returns (name: Bytes)
      modifies this
      ensures defaultCf == old(defaultCf)
      ensures name == assocName == RouterName(mergeOps, cfHandles.Keys)
      ensures mergeOps == old(mergeOps) && dbOpen == old(dbOpen) && cfHandles == old(cfHandles)
      ensures compactQueue == old(compactQueue)
    {
      assocName := RouterName(mergeOps, cfHandles.Keys);
      name := assocName;
    }

    /**
     * add_column_family: the first registration of a name records its hash
     * window, which must be non-empty; later ones must repeat it. The
     * name's handle list grows to hold shard_idx and only that slot changes.
     */
    method AddColumnFamily(name: Bytes, hashL: uint32, hashH: uint32, shardIdx: nat, handle: Handle)
      requires Valid()
      requires name in cfHandles ==> cfHandles[name].hashL == hashL && cfHandles[name].hashH == hashH
      requires name !in cfHandles ==> hashL < hashH
      modifies this
      ensures defaultCf == old(defaultCf)
      ensures Valid()
      ensures name in cfHandles && cfHandles[name].hashL == hashL && cfHandles[name].hashH == hashH
      ensures cfHandles == old(cfHandles)[name := ShardedColumn(hashL, hashH,
        Placed(if name in old(cfHandles) then old(cfHandles)[name].handles else [], shardIdx, handle))]
      ensures mergeOps == old(mergeOps) && dbOpen == old(dbOpen)
      ensures compactQueue == old(compactQueue) && assocName == old(assocName)
    {
      var handles := if name in cfHandles then cfHandles[name].handles else [];
      if |handles| <= shardIdx {
        handles := handles + seq(shardIdx + 1 - |handles|, _ => Null);
      }
      handles := handles[shardIdx := handle];
      cfHandles := cfHandles[name := ShardedColumn(hashL, hashH, handles)];
    }

    /** is_column_family */
    predicate IsColumnFamily(prefix: Bytes)
      reads this
    {
      prefix in cfHandles
    }

    /**
     * get_cf_handle: null for a prefix without a column family, the only
     * handle of a single-shard one, and otherwise the handle at the hash of
     * the key's window modulo the shard count, always one of its handles.
     */
    function GetCfHandle(prefix: Bytes, key: Bytes): (h: Handle)
      requires Valid()
      reads this
      ensures !IsColumnFamily(prefix) ==> h == Null
      ensures IsColumnFamily(prefix) ==> h in cfHandles[prefix].handles
      ensures IsColumnFamily(prefix) && |cfHandles[prefix].handles| == 1 ==> h == cfHandles[prefix].handles[0]
      ensures IsColumnFamily(prefix) && |cfHandles[prefix].handles| > 1 ==>
                h == cfHandles[prefix].handles[ShardIndex(cfHandles[prefix], key, strHash)]
    {
      if prefix !in cfHandles then Null
      else
        var col := cfHandles[prefix];
        if |col.handles| == 1 then col.handles[0]
        else col.handles[ShardIndex(col, key, strHash)]
    }

    /**
     * compact_range_async: scans the queue for the first range that equals
     * the request or that the request crosses, and coalesces there, or
     * appends the request.
     */
    method CompactRangeAsync(start: Bytes, end: Bytes)
      modifies this
      ensures defaultCf == old(defaultCf)
      ensures compactQueue == CompactQueue.Enqueue(old(compactQueue), start, end)
      ensures mergeOps == old(mergeOps) && dbOpen == old(dbOpen) && cfHandles == old(cfHandles)
      ensures assocName == old(assocName)
    {
      var q := compactQueue;
      var p := 0;
      while p < |q|
        invariant p <= |q|
        invariant forall j :: 0 <= j < p ==> !CompactQueue.Hit(q[j], start, end)
      {
        if q[p].0 == start && q[p].1 == end {
          return;
        }
        if LessEq(start, q[p].0) && LessEq(q[p].0, end) {
          var upper := if Less(q[p].1, end) then end else q[p].1;
          compactQueue := q[..p] + q[p + 1..] + [(start, upper)];
          return;
        }
        if LessEq(start, q[p].1) && LessEq(q[p].1, end) {
          compactQueue := q[..p] + q[p + 1..] + [(q[p].0, end)];
          return;
        }
        p := p + 1;
      }
      compactQueue := q + [(start, end)];
    }
  }
}
