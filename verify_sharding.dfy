/**
 * Checking a sharding definition against the one stored with the database
 * when an existing database is opened: both are sorted by column name and
 * compared on name, shard count and hash window (options may differ); then
 * every shard of the stored definition is classified as existing or missing
 * by the engine's list of column families.
 */
module ShardingCheck {
  import opened Bytes
  import opened Wrappers
  import Errno
  import opened Sharding
  import MergeRouter

  // ---------------------------------------------------------------------
  // Sorting by name
  // ---------------------------------------------------------------------

  /** Sorted by name, equal names allowed. */
  predicate SortedByName(s: seq<ColumnFamily>)
  {
    forall i, j :: 0 <= i < j < |s| ==> LessEq(s[i].name, s[j].name)
  }

  /** Every name in s is at least b. */
  predicate NamesFrom(b: Bytes, s: seq<ColumnFamily>)
  {
    forall i :: 0 <= i < |s| ==> LessEq(b, s[i].name)
  }

  /** Inserts x after every column whose name is not above its own. */
  function InsertByName(s: seq<ColumnFamily>, x: ColumnFamily): seq<ColumnFamily>
  {
    if |s| == 0 then [x]
    else if Less(x.name, s[0].name) then [x] + s
    else [s[0]] + InsertByName(s[1..], x)
  }

  /**
   * The order std::sort by name gives. Insertion sort is one of the orders
   * std::sort may produce; with distinct names it is the only one.
   */
  function SortByName(d: seq<ColumnFamily>): seq<ColumnFamily>
  {
    if |d| == 0 then [] else InsertByName(SortByName(d[..|d| - 1]), d[|d| - 1])
  }

  lemma {:induction false} InsertNamesFrom(s: seq<ColumnFamily>, x: ColumnFamily, b: Bytes)
    requires NamesFrom(b, s) && LessEq(b, x.name)
    ensures NamesFrom(b, InsertByName(s, x))
    decreases |s|
  {
    if |s| > 0 && !Less(x.name, s[0].name) {
      InsertNamesFrom(s[1..], x, b);
    }
  }

  lemma ConsSortedByName(c: ColumnFamily, s: seq<ColumnFamily>)
    requires NamesFrom(c.name, s) && SortedByName(s)
    ensures SortedByName([c] + s)
  {
    var r := [c] + s;
    forall i, j | 0 <= i < j < |r|
      ensures LessEq(r[i].name, r[j].name)
    {
      assert r[j] == s[j - 1];
      if i > 0 {
        assert r[i] == s[i - 1];
      }
    }
  }

  lemma {:induction false} InsertSorted(s: seq<ColumnFamily>, x: ColumnFamily)
    requires SortedByName(s)
    ensures SortedByName(InsertByName(s, x))
    ensures multiset(InsertByName(s, x)) == multiset(s) + multiset{x}
    decreases |s|
  {
    if |s| == 0 {
    } else if Less(x.name, s[0].name) {
      forall i | 0 <= i < |s|
        ensures LessEq(x.name, s[i].name)
      {
        LessEqTransitive(x.name, s[0].name, s[i].name);
      }
      ConsSortedByName(x, s);
    } else {
      LessTotal(x.name, s[0].name);
      assert NamesFrom(s[0].name, s[1..]);
      InsertNamesFrom(s[1..], x, s[0].name);
      InsertSorted(s[1..], x);
      ConsSortedByName(s[0], InsertByName(s[1..], x));
      assert s == [s[0]] + s[1..];
    }
  }

  /** The sort orders by name and keeps every column. */
  lemma {:induction false} SortByNameSpec(d: seq<ColumnFamily>)
    ensures SortedByName(SortByName(d))
    ensures multiset(SortByName(d)) == multiset(d)
    decreases |d|
  {
    if |d| > 0 {
      var init, x := d[..|d| - 1], d[|d| - 1];
      SortByNameSpec(init);
      var s := SortByName(init);
      SortByNameUnfold(d, init, x, s);
      InsertSorted(s, x);
      MultisetSnoc(d, init, x);
    }
  }

  lemma SortByNameUnfold(d: seq<ColumnFamily>, init: seq<ColumnFamily>, x: ColumnFamily, s: seq<ColumnFamily>)
    requires |d| > 0 && init == d[..|d| - 1] && x == d[|d| - 1] && s == SortByName(init)
    ensures SortByName(d) == InsertByName(s, x)
  {
  }

  lemma MultisetSnoc(d: seq<ColumnFamily>, init: seq<ColumnFamily>, x: ColumnFamily)
    requires |d| > 0 && init == d[..|d| - 1] && x == d[|d| - 1]
    ensures multiset(d) == multiset(init) + multiset{x}
  {
    assert d == init + [x];
  }

  // ---------------------------------------------------------------------
  // Structural comparison
  // ---------------------------------------------------------------------

  /** What the comparison looks at: everything but the options. */
  datatype Shape = Shape(name: Bytes, shardCnt: uint64, hashL: uint32, hashH: uint32)

  function ShapeOf(c: ColumnFamily): Shape
  {
    Shape(c.name, c.shardCnt, c.hashL, c.hashH)
  }

  function Shapes(s: seq<ColumnFamily>): (r: seq<Shape>)
    ensures |r| == |s| && forall i :: 0 <= i < |s| ==> r[i] == ShapeOf(s[i])
  {
    seq(|s|, i requires 0 <= i < |s| => ShapeOf(s[i]))
  }

  /** The requested and the stored definition agree, column by column after sorting. */
  predicate Matches(requested: seq<ColumnFamily>, stored: seq<ColumnFamily>)
  {
    Shapes(SortByName(requested)) == Shapes(SortByName(stored))
  }

  lemma ShapesCons(c: ColumnFamily, s: seq<ColumnFamily>)
    ensures Shapes([c] + s) == [ShapeOf(c)] + Shapes(s)
  {
  }

  lemma ShapesSnoc(s: seq<ColumnFamily>, c: ColumnFamily)
    ensures Shapes(s + [c]) == Shapes(s) + [ShapeOf(c)]
  {
  }

  lemma {:induction false} ShapesInsert(s: seq<ColumnFamily>, x: ColumnFamily)
    ensures multiset(Shapes(InsertByName(s, x))) == multiset(Shapes(s)) + multiset{ShapeOf(x)}
    decreases |s|
  {
    if |s| == 0 {
    } else if Less(x.name, s[0].name) {
      ShapesCons(x, s);
    } else {
      ShapesInsert(s[1..], x);
      ShapesCons(s[0], InsertByName(s[1..], x));
      ShapesCons(s[0], s[1..]);
      assert s == [s[0]] + s[1..];
    }
  }

  /** Sorting permutes the columns' shapes. */
  lemma {:induction false} ShapesSort(d: seq<ColumnFamily>)
    ensures multiset(Shapes(SortByName(d))) == multiset(Shapes(d))
    decreases |d|
  {
    if |d| > 0 {
      var init := d[..|d| - 1];
      ShapesSort(init);
      ShapesInsert(SortByName(init), d[|d| - 1]);
      ShapesSnoc(init, d[|d| - 1]);
      assert d == init + [d[|d| - 1]];
    }
  }

  /** Matching definitions hold the same columns up to order and options. */
  lemma MatchesSameShapes(requested: seq<ColumnFamily>, stored: seq<ColumnFamily>)
    requires Matches(requested, stored)
    ensures multiset(Shapes(requested)) == multiset(Shapes(stored))
  {
    ShapesSort(requested);
    ShapesSort(stored);
  }

  predicate DistinctNames(s: seq<ColumnFamily>)
  {
    forall i, j :: 0 <= i < j < |s| ==> s[i].name != s[j].name
  }

  predicate StrictlySorted(s: seq<Shape>)
  {
    forall i, j :: 0 <= i < j < |s| ==> Less(s[i].name, s[j].name)
  }

  /** An element of a permutation of d is an element of d. */
  lemma InPermutation<T>(x: T, s: seq<T>, d: seq<T>)
    requires multiset(s) == multiset(d) && x in s
    ensures x in d
  {
    assert x in multiset(s);
  }

  /** Sorting columns with distinct names orders them strictly. */
  lemma {:induction false} SortStrict(d: seq<ColumnFamily>)
    requires DistinctNames(d)
    ensures StrictByName(SortByName(d))
    decreases |d|
  {
    if |d| > 0 {
      var init := d[..|d| - 1];
      var x := d[|d| - 1];
      var s := SortByName(init);
      SortByNameSpec(init);
      SortStrict(init);
      assert forall i :: 0 <= i < |s| ==> s[i].name != x.name by {
        forall i | 0 <= i < |s|
          ensures s[i].name != x.name
        {
          InPermutation(s[i], s, init);
          var j :| 0 <= j < |init| && init[j] == s[i];
          assert d[j] == init[j];
        }
      }
      InsertStrict(s, x);
    }
  }

  /** Sorted by name, no name twice. */
  predicate StrictByName(s: seq<ColumnFamily>)
  {
    forall i, j :: 0 <= i < j < |s| ==> Less(s[i].name, s[j].name)
  }

  /** Every name in s is above b. */
  predicate NamesAbove(b: Bytes, s: seq<ColumnFamily>)
  {
    forall i :: 0 <= i < |s| ==> Less(b, s[i].name)
  }

  lemma {:induction false} InsertAbove(s: seq<ColumnFamily>, x: ColumnFamily, b: Bytes)
    requires NamesAbove(b, s) && Less(b, x.name)
    ensures NamesAbove(b, InsertByName(s, x))
    decreases |s|
  {
    if |s| > 0 && !Less(x.name, s[0].name) {
      InsertAbove(s[1..], x, b);
    }
  }

  lemma {:induction false} InsertStrict(s: seq<ColumnFamily>, x: ColumnFamily)
    requires StrictByName(s)
    requires forall i :: 0 <= i < |s| ==> s[i].name != x.name
    ensures StrictByName(InsertByName(s, x))
    decreases |s|
  {
    if |s| == 0 {
    } else if Less(x.name, s[0].name) {
      forall i | 0 <= i < |s|
        ensures Less(x.name, s[i].name)
      {
        if i > 0 {
          LessTransitive(x.name, s[0].name, s[i].name);
        }
      }
      StrictCons(x, s);
    } else {
      LessTotal(x.name, s[0].name);
      assert NamesAbove(s[0].name, s[1..]);
      InsertAbove(s[1..], x, s[0].name);
      InsertStrict(s[1..], x);
      StrictCons(s[0], InsertByName(s[1..], x));
    }
  }

  lemma StrictCons(c: ColumnFamily, s: seq<ColumnFamily>)
    requires NamesAbove(c.name, s) && StrictByName(s)
    ensures StrictByName([c] + s)
  {
    var r := [c] + s;
    forall i, j | 0 <= i < j < |r|
      ensures Less(r[i].name, r[j].name)
    {
      assert r[j] == s[j - 1];
      if i > 0 {
        assert r[i] == s[i - 1];
      }
    }
  }

  /** Columns strictly ordered by name have strictly ordered shapes. */
  lemma StrictShapes(s: seq<ColumnFamily>)
    requires StrictByName(s)
    ensures StrictlySorted(Shapes(s))
  {
  }

  lemma TailMultiset(u: seq<Shape>, v: seq<Shape>)
    requires |u| > 0 && |v| > 0 && u[0] == v[0] && multiset(u) == multiset(v)
    ensures multiset(u[1..]) == multiset(v[1..])
  {
    assert u == [u[0]] + u[1..] && v == [v[0]] + v[1..];
    assert multiset(u) == multiset{u[0]} + multiset(u[1..]);
    assert multiset(v) == multiset{u[0]} + multiset(v[1..]);
    assert multiset(u[1..]) == multiset(u) - multiset{u[0]};
    assert multiset(v[1..]) == multiset(v) - multiset{u[0]};
  }

  /** Strictly sorted sequences with the same elements are equal. */
  lemma {:induction false} StrictlySortedUnique(u: seq<Shape>, v: seq<Shape>)
    requires StrictlySorted(u) && StrictlySorted(v) && multiset(u) == multiset(v)
    ensures u == v
    decreases |u|
  {
    if |u| == 0 {
      assert |multiset(v)| == 0;
    } else {
      assert |multiset(v)| == |u|;
      InPermutation(u[0], u, v);
      InPermutation(v[0], v, u);
      var k :| 0 <= k < |v| && v[k] == u[0];
      var m :| 0 <= m < |u| && u[m] == v[0];
      if k > 0 && m > 0 {
        LessAsymmetric(v[0].name, u[0].name);
        assert false;
      }
      TailMultiset(u, v);
      StrictlySortedUnique(u[1..], v[1..]);
    }
  }

  /**
   * With the names of each definition distinct, the comparison succeeds
   * exactly when the two definitions hold the same columns, in any order and
   * with any options.
   */
  lemma MatchesIff(requested: seq<ColumnFamily>, stored: seq<ColumnFamily>)
    requires DistinctNames(requested) && DistinctNames(stored)
    ensures Matches(requested, stored) <==> multiset(Shapes(requested)) == multiset(Shapes(stored))
  {
    if multiset(Shapes(requested)) == multiset(Shapes(stored)) {
      ShapesSort(requested);
      ShapesSort(stored);
      SortStrict(requested);
      SortStrict(stored);
      StrictShapes(SortByName(requested));
      StrictShapes(SortByName(stored));
      StrictlySortedUnique(Shapes(SortByName(requested)), Shapes(SortByName(stored)));
    } else if Matches(requested, stored) {
      MatchesSameShapes(requested, stored);
    }
  }

  // ---------------------------------------------------------------------
  // Classification of shards
  // ---------------------------------------------------------------------

  /** The merge operator a column family descriptor carries. */
  datatype CfMerge = RouterOp | LinkedOp(op: MergeRouter.MergeOperator) | NoOp

  /** A rocksdb::ColumnFamilyDescriptor: a column family name and its merge operator. */
  datatype Descriptor = Descriptor(name: Bytes, merge: CfMerge)

  /** The (shard_id, column) pair recorded beside each descriptor. */
  datatype ShardRef = ShardRef(shardId: nat, column: ColumnFamily)

  /** One shard of the stored definition: its descriptor and its directory entry. */
  datatype Shard = Shard(desc: Descriptor, ref: ShardRef)

  const DEFAULT: Bytes := "default"

  /** install_cf_mergeop for a column: the linker of the last registration of its name, or none. */
  function MergeFor(ops: seq<MergeRouter.Registration>, name: Bytes): CfMerge
  {
    var op := MergeRouter.LastMatch(ops, name);
    if op.Some? then LinkedOp(op.value) else NoOp
  }

  /** The shards of one column family, in shard order. */
  function ShardsOf(ops: seq<MergeRouter.Registration>, c: ColumnFamily): (r: seq<Shard>)
    ensures |r| == c.shardCnt
  {
    seq(c.shardCnt, i requires 0 <= i < c.shardCnt =>
      Shard(Descriptor(ShardName(c, i), MergeFor(ops, c.name)), ShardRef(i, c)))
  }

  /** The shards of a definition, column after column. */
  function AllShards(ops: seq<MergeRouter.Registration>, defs: seq<ColumnFamily>): seq<Shard>
  {
    if |defs| == 0 then [] else AllShards(ops, defs[..|defs| - 1]) + ShardsOf(ops, defs[|defs| - 1])
  }

  /** The shards whose column family the engine lists (present is true) or does not list. */
  function Select(shards: seq<Shard>, cfs: seq<Bytes>, present: bool): (r: seq<Shard>)
    ensures forall i :: 0 <= i < |r| ==> (r[i].desc.name in cfs <==> present)
  {
    if |shards| == 0 then []
    else
      var rest := Select(shards[..|shards| - 1], cfs, present);
      var s := shards[|shards| - 1];
      if (s.desc.name in cfs) == present then rest + [s] else rest
  }

  function Descs(s: seq<Shard>): (r: seq<Descriptor>)
    ensures |r| == |s| && forall i :: 0 <= i < |s| ==> r[i] == s[i].desc
  {
    seq(|s|, i requires 0 <= i < |s| => s[i].desc)
  }

  function Refs(s: seq<Shard>): (r: seq<ShardRef>)
    ensures |r| == |s| && forall i :: 0 <= i < |s| ==> r[i] == s[i].ref
  {
    seq(|s|, i requires 0 <= i < |s| => s[i].ref)
  }

  function Names(s: seq<Shard>): (r: seq<Bytes>)
    ensures |r| == |s| && forall i :: 0 <= i < |s| ==> r[i] == s[i].desc.name
  {
    seq(|s|, i requires 0 <= i < |s| => s[i].desc.name)
  }

  /** Every shard is classified once: the existing and the missing ones together are all of them. */
  lemma {:induction false} SelectPartition(shards: seq<Shard>, cfs: seq<Bytes>)
    ensures multiset(Select(shards, cfs, true)) + multiset(Select(shards, cfs, false)) == multiset(shards)
    decreases |shards|
  {
    if |shards| > 0 {
      SelectPartition(shards[..|shards| - 1], cfs);
      assert shards == shards[..|shards| - 1] + [shards[|shards| - 1]];
    }
  }

  lemma ShardsOfNames(ops: seq<MergeRouter.Registration>, c: ColumnFamily)
    ensures Names(ShardsOf(ops, c)) == ShardNames(c)
  {
  }

  /** The shard names classified are the column names sharding_def_to_columns lists. */
  lemma {:induction false} AllShardsNames(ops: seq<MergeRouter.Registration>, defs: seq<ColumnFamily>)
    ensures Names(AllShards(ops, defs)) == Columns(defs)
    decreases |defs|
  {
    if |defs| > 0 {
      var init := defs[..|defs| - 1];
      AllShardsNames(ops, init);
      ShardsOfNames(ops, defs[|defs| - 1]);
      assert Names(AllShards(ops, init) + ShardsOf(ops, defs[|defs| - 1]))
          == Names(AllShards(ops, init)) + Names(ShardsOf(ops, defs[|defs| - 1]));
    }
  }

  /** Every descriptor of a shard carries its column's linked merge operator, if any. */
  lemma AllShardsMerge(ops: seq<MergeRouter.Registration>, defs: seq<ColumnFamily>, i: nat)
    requires i < |AllShards(ops, defs)|
    ensures AllShards(ops, defs)[i].desc.merge == MergeFor(ops, AllShards(ops, defs)[i].ref.column.name)
    decreases |defs|
  {
    var init := defs[..|defs| - 1];
    if i < |AllShards(ops, init)| {
      AllShardsMerge(ops, init, i);
    }
  }

  /** Every column's options parse. */
  predicate OptionsAllOk(defs: seq<ColumnFamily>, optionsOk: Bytes -> bool)
  {
    forall i :: 0 <= i < |defs| ==> optionsOk(defs[i].options)
  }

  /** The first column, in order, whose options do not parse, or |defs|. */
  function FirstBadOptions(defs: seq<ColumnFamily>, optionsOk: Bytes -> bool): (i: nat)
    ensures i <= |defs| && OptionsAllOk(defs[..i], optionsOk)
    ensures i < |defs| ==> !optionsOk(defs[i].options)
    ensures i == |defs| <==> OptionsAllOk(defs, optionsOk)
  {
    if |defs| == 0 then 0
    else if !optionsOk(defs[0].options) then 0
    else
      var j := FirstBadOptions(defs[1..], optionsOk);
      assert defs[..j + 1] == [defs[0]] + defs[1..][..j];
      j + 1
  }

  /** The loop stops at k exactly when k is the first column whose options do not parse. */
  lemma FirstBadOptionsAt(defs: seq<ColumnFamily>, k: nat, optionsOk: Bytes -> bool)
    requires k <= |defs| && OptionsAllOk(defs[..k], optionsOk)
    requires k < |defs| ==> !optionsOk(defs[k].options)
    ensures FirstBadOptions(defs, optionsOk) == k
  {
    var i := FirstBadOptions(defs, optionsOk);
    assert forall j :: 0 <= j < k ==> defs[..k][j] == defs[j];
    assert forall j :: 0 <= j < i ==> defs[..i][j] == defs[j];
  }

  /** The outcome of verify_sharding. */
  datatype Verdict = Verdict(
    code: int,
    existingCfs: seq<Descriptor>,
    existingShards: seq<ShardRef>,
    missingCfs: seq<Descriptor>,
    missingShards: seq<ShardRef>)

  /**
   * verify_sharding for a stored definition file that could be read
   * (storedText; an absent file reads as empty) and the engine's column
   * families (listed; None when listing them failed). The column-family
   * options parser is the parameter optionsOk.
   */
  function Verify(ops: seq<MergeRouter.Registration>, requestedText: Bytes, storedText: Bytes,
                  listed: Option<seq<Bytes>>, optionsOk: Bytes -> bool): (v: Verdict)
    ensures v.code in {0, -Errno.EIO, -Errno.EINVAL}
    ensures !Matches(Parse(requestedText, 0).defs, Parse(storedText, 0).defs) ==> v.code == -Errno.EIO
    ensures var stored := SortByName(Parse(storedText, 0).defs);
            v.code == -Errno.EINVAL <==>
              Matches(Parse(requestedText, 0).defs, Parse(storedText, 0).defs) && listed.Some? &&
              FirstBadOptions(stored, optionsOk) < |stored|
    ensures var stored := SortByName(Parse(storedText, 0).defs);
            v.code == 0 <==>
              Matches(Parse(requestedText, 0).defs, Parse(storedText, 0).defs) && listed.Some? &&
              FirstBadOptions(stored, optionsOk) == |stored| &&
              |Select(AllShards(ops, stored), listed.value, true)| + 1 == |listed.value|
    ensures var stored := SortByName(Parse(storedText, 0).defs);
            v.code == 0 ==>
              v.existingCfs == Descs(Select(AllShards(ops, stored), listed.value, true)) + [Descriptor(DEFAULT, RouterOp)] &&
              v.missingCfs == Descs(Select(AllShards(ops, stored), listed.value, false))
    ensures v.code == 0 ==>
              listed.Some? && |v.existingCfs| == |listed.value| &&
              |v.existingCfs| == |v.existingShards| + 1 &&
              v.existingCfs[|v.existingShards|] == Descriptor(DEFAULT, RouterOp)
    ensures v.code == 0 ==>
              (forall i :: 0 <= i < |v.existingShards| ==> v.existingCfs[i].name in listed.value) &&
              (forall i :: 0 <= i < |v.missingCfs| ==> v.missingCfs[i].name !in listed.value)
  {
    var stored := SortByName(Parse(storedText, 0).defs);
    if !Matches(Parse(requestedText, 0).defs, Parse(storedText, 0).defs) then
      Verdict(-Errno.EIO, [], [], [], [])
    else if listed.None? then
      Verdict(-Errno.EIO, [], [], [], [])
    else if !OptionsAllOk(stored, optionsOk) then
      Verdict(-Errno.EINVAL, [], [], [], [])
    else
      var shards := AllShards(ops, stored);
      var existing := Select(shards, listed.value, true);
      var missing := Select(shards, listed.value, false);
      if |existing| + 1 != |listed.value| then
        Verdict(-Errno.EIO, [], [], [], [])
      else
        Verdict(0, Descs(existing) + [Descriptor(DEFAULT, RouterOp)], Refs(existing), Descs(missing), Refs(missing))
  }

  /** Classifying a concatenation classifies each part. */
  lemma {:induction false} SelectAppend(x: seq<Shard>, y: seq<Shard>, cfs: seq<Bytes>, present: bool)
    ensures Select(x + y, cfs, present) == Select(x, cfs, present) + Select(y, cfs, present)
    decreases |y|
  {
    if |y| == 0 {
      assert x + y == x;
    } else {
      var init := y[..|y| - 1];
      SelectAppend(x, init, cfs, present);
      assert (x + y)[..|x + y| - 1] == x + init;
    }
  }

  /** The emplace_cf lambda: a shard the engine lists is existing, any other missing. */
  method EmplaceCf(sh: Shard, cfs: seq<Bytes>, existing: seq<Shard>, missing: seq<Shard>)
    returns (existing': seq<Shard>, missing': seq<Shard>)
    ensures existing' == existing + Select([sh], cfs, true)
    ensures missing' == missing + Select([sh], cfs, false)
  {
    assert [sh][..0] == [];
    if sh.desc.name in cfs {
      existing' := existing + [sh];
      missing' := missing;
    } else {
      existing' := existing;
      missing' := missing + [sh];
    }
  }

  /** The shards of one column, pushed in shard order: the bare name with one shard, name-i otherwise. */
  method EmplaceColumn(ops: seq<MergeRouter.Registration>, column: ColumnFamily, cfs: seq<Bytes>,
                       existing: seq<Shard>, missing: seq<Shard>)
    returns (existing': seq<Shard>, missing': seq<Shard>)
    ensures existing' == existing + Select(ShardsOf(ops, column), cfs, true)
    ensures missing' == missing + Select(ShardsOf(ops, column), cfs, false)
  {
    var merge := MergeFor(ops, column.name);
    var shards := ShardsOf(ops, column);
    if column.shardCnt == 1 {
      var sh := Shard(Descriptor(column.name, merge), ShardRef(0, column));
      assert shards == [sh];
      existing', missing' := EmplaceCf(sh, cfs, existing, missing);
    } else {
      existing', missing' := existing, missing;
      for i := 0 to column.shardCnt
        invariant existing' == existing + Select(shards[..i], cfs, true)
        invariant missing' == missing + Select(shards[..i], cfs, false)
      {
        var cfName := column.name + "-" + DecStr(i);
        var sh := Shard(Descriptor(cfName, merge), ShardRef(i, column));
        assert shards[i] == sh;
        assert shards[..i + 1] == shards[..i] + [sh];
        SelectAppend(shards[..i], [sh], cfs, true);
        SelectAppend(shards[..i], [sh], cfs, false);
        existing', missing' := EmplaceCf(sh, cfs, existing', missing');
      }
      assert shards[..column.shardCnt] == shards;
    }
  }

  /** The comparison loop: sizes first, then name, count and window column by column. */
  method CompareSorted(a: seq<ColumnFamily>, b: seq<ColumnFamily>) returns (matched: bool)
    ensures matched <==> Shapes(a) == Shapes(b)
  {
    matched := true;
    if |a| != |b| {
      matched := false;
    } else {
      for i := 0 to |a|
        invariant matched ==> forall j :: 0 <= j < i ==> ShapeOf(a[j]) == ShapeOf(b[j])
        invariant !matched ==> Shapes(a) != Shapes(b)
      {
        if a[i].name != b[i].name || a[i].shardCnt != b[i].shardCnt ||
           a[i].hashL != b[i].hashL || a[i].hashH != b[i].hashH {
          assert Shapes(a)[i] != Shapes(b)[i];
          matched := false;
          break;
        }
      }
    }
  }

  lemma AllShardsSnoc(ops: seq<MergeRouter.Registration>, b: seq<ColumnFamily>, k: nat)
    requires k < |b|
    ensures AllShards(ops, b[..k + 1]) == AllShards(ops, b[..k]) + ShardsOf(ops, b[k])
  {
    assert b[..k + 1][..k] == b[..k];
  }

  lemma OptionsStep(b: seq<ColumnFamily>, k: nat, optionsOk: Bytes -> bool)
    requires k < |b| && OptionsAllOk(b[..k], optionsOk) && optionsOk(b[k].options)
    ensures OptionsAllOk(b[..k + 1], optionsOk)
  {
    assert b[..k + 1] == b[..k] + [b[k]];
  }

  /** One more column classified: its shards follow those of the columns before it. */
  lemma ClassifyStep(ops: seq<MergeRouter.Registration>, b: seq<ColumnFamily>, k: nat, cfs: seq<Bytes>)
    requires k < |b|
    ensures Select(AllShards(ops, b[..k + 1]), cfs, true) ==
              Select(AllShards(ops, b[..k]), cfs, true) + Select(ShardsOf(ops, b[k]), cfs, true)
    ensures Select(AllShards(ops, b[..k + 1]), cfs, false) ==
              Select(AllShards(ops, b[..k]), cfs, false) + Select(ShardsOf(ops, b[k]), cfs, false)
  {
    AllShardsSnoc(ops, b, k);
    SelectAppend(AllShards(ops, b[..k]), ShardsOf(ops, b[k]), cfs, true);
    SelectAppend(AllShards(ops, b[..k]), ShardsOf(ops, b[k]), cfs, false);
  }

  /**
   * The classification loop over the sorted stored definition: a column
   * whose options do not parse stops it (false); otherwise every shard of
   * every column is emplaced.
   */
  method ClassifyAll(ops: seq<MergeRouter.Registration>, b: seq<ColumnFamily>, cfs: seq<Bytes>,
                     optionsOk: Bytes -> bool)
    returns (ok: bool, existing: seq<Shard>, missing: seq<Shard>)
    ensures ok <==> OptionsAllOk(b, optionsOk)
    ensures ok ==> existing == Select(AllShards(ops, b), cfs, true)
    ensures ok ==> missing == Select(AllShards(ops, b), cfs, false)
    ensures !ok ==> existing == Select(AllShards(ops, b[..FirstBadOptions(b, optionsOk)]), cfs, true)
    ensures !ok ==> missing == Select(AllShards(ops, b[..FirstBadOptions(b, optionsOk)]), cfs, false)
  {
    existing, missing := [], [];
    for k := 0 to |b|
      invariant OptionsAllOk(b[..k], optionsOk)
      invariant existing == Select(AllShards(ops, b[..k]), cfs, true)
      invariant missing == Select(AllShards(ops, b[..k]), cfs, false)
    {
      if !optionsOk(b[k].options) {
        FirstBadOptionsAt(b, k, optionsOk);
        return false, existing, missing;
      }
      OptionsStep(b, k, optionsOk);
      ClassifyStep(ops, b, k, cfs);
      existing, missing := EmplaceColumn(ops, b[k], cfs, existing, missing);
    }
    assert b[..|b|] == b;
    ok := true;
  }

  /**
   * verify_sharding: parses both definitions, sorts them by name and
   * compares them, lists the engine's column families, and classifies every
   * shard of the stored definition, the descriptors carrying the merge
   * operator install_cf_mergeop picks for the column. storedFile is None
   * when the stored definition exists but cannot be read (an absent file
   * reads as empty); on an error the caller discards the output lists, which
   * the model leaves empty.
   */
  method VerifySharding(ops: seq<MergeRouter.Registration>, requestedText: Bytes, storedFile: Option<Bytes>,
                        listed: Option<seq<Bytes>>, optionsOk: Bytes -> bool) returns (v: Verdict)
    ensures storedFile.None? ==> v == Verdict(-Errno.EIO, [], [], [], [])
    ensures storedFile.Some? ==> v == Verify(ops, requestedText, storedFile.value, listed, optionsOk)
  {
    if storedFile.None? {
      return Verdict(-Errno.EIO, [], [], [], []);
    }
    var _, requested, _ := ParseShardingDef(requestedText);
    var _, stored, _ := ParseShardingDef(storedFile.value);
    var b := SortByName(stored);
    var matched := CompareSorted(SortByName(requested), b);
    if !matched {
      return Verdict(-Errno.EIO, [], [], [], []);
    }
    if listed.None? {
      return Verdict(-Errno.EIO, [], [], [], []);
    }
    var ok, existing, missing := ClassifyAll(ops, b, listed.value, optionsOk);
    if !ok {
      return Verdict(-Errno.EINVAL, [], [], [], []);
    }
    var existingCfs := Descs(existing) + [Descriptor(DEFAULT, RouterOp)];
    if |existingCfs| != |listed.value| {
      return Verdict(-Errno.EIO, [], [], [], []);
    }
    return Verdict(0, existingCfs, Refs(existing), Descs(missing), Refs(missing));
  }

  /** When the engine lists every shard's family, every shard exists and none is missing. */
  lemma {:induction false} SelectAllListed(shards: seq<Shard>, cfs: seq<Bytes>)
    requires forall i :: 0 <= i < |shards| ==> shards[i].desc.name in cfs
    ensures Select(shards, cfs, true) == shards && Select(shards, cfs, false) == []
    decreases |shards|
  {
    if |shards| > 0 {
      SelectAllListed(shards[..|shards| - 1], cfs);
    }
  }

  /**
   * A store opens: when the definitions match, every stored column's
   * options parse and the engine lists exactly the stored shards' families
   * followed by "default", verify_sharding accepts, with every shard
   * existing and none missing.
   */
  lemma VerifyAcceptsListedStore(ops: seq<MergeRouter.Registration>, requestedText: Bytes, storedText: Bytes,
                                 optionsOk: Bytes -> bool)
    requires Matches(Parse(requestedText, 0).defs, Parse(storedText, 0).defs)
    requires OptionsAllOk(SortByName(Parse(storedText, 0).defs), optionsOk)
    ensures var shards := AllShards(ops, SortByName(Parse(storedText, 0).defs));
            var v := Verify(ops, requestedText, storedText, Some(Names(shards) + [DEFAULT]), optionsOk);
            v.code == 0 && v.existingCfs == Descs(shards) + [Descriptor(DEFAULT, RouterOp)] && v.missingCfs == []
  {
    var shards := AllShards(ops, SortByName(Parse(storedText, 0).defs));
    var cfs := Names(shards) + [DEFAULT];
    forall i | 0 <= i < |shards|
      ensures shards[i].desc.name in cfs
    {
      assert cfs[i] == shards[i].desc.name;
    }
    SelectAllListed(shards, cfs);
  }

  /**
   * On success every shard of the stored definition is classified exactly
   * once, existing or missing, and the shard names are the column names
   * sharding_def_to_columns lists for the sorted stored definition.
   */
  lemma VerifyClassifiesEveryShard(ops: seq<MergeRouter.Registration>, requestedText: Bytes, storedText: Bytes,
                                   listed: Option<seq<Bytes>>, optionsOk: Bytes -> bool)
    requires Verify(ops, requestedText, storedText, listed, optionsOk).code == 0
    ensures var stored := SortByName(Parse(storedText, 0).defs);
            var v := Verify(ops, requestedText, storedText, listed, optionsOk);
            var existing := Select(AllShards(ops, stored), listed.value, true);
            var missing := Select(AllShards(ops, stored), listed.value, false);
            v.existingShards == Refs(existing) && v.missingShards == Refs(missing) &&
            multiset(existing) + multiset(missing) == multiset(AllShards(ops, stored)) &&
            Names(AllShards(ops, stored)) == Columns(stored)
  {
    var stored := SortByName(Parse(storedText, 0).defs);
    SelectPartition(AllShards(ops, stored), listed.value);
    AllShardsNames(ops, stored);
  }

  /**
   * The check after verify_sharding when opening: missing column families
   * are an error (-EIO) unless the recreate marker file reads exactly "1";
   * recreateText is None when that file could not be read.
   */
  function MissingCheck(recreateText: Option<Bytes>, missingCfs: seq<Descriptor>): (r: int)
    ensures r == -Errno.EIO <==> recreateText != Some("1") && |missingCfs| != 0
    ensures r != -Errno.EIO ==> r == 0
  {
    var recreateMode := recreateText == Some("1");
    if !recreateMode && |missingCfs| != 0 then -Errno.EIO else 0
  }
}
