/**
 * The iterator over a column family split into several shards: one engine
 * iterator per shard, kept in a vector ordered so that the first one holds
 * the smallest current key. The vector holds references to the shard
 * iterators; here a reference is the shard's index, and each shard iterator
 * is its shard's keys, in the engine's ascending order, and a position.
 * Position p of a shard with n keys is valid when 0 <= p < n; n is past the
 * last key and -1 is before the first.
 */
module MergeIterator {
  import opened Bytes

  /** The keys of every shard, in shard order. */
  type Shards = seq<seq<Bytes>>

  predicate StrictlySorted(keys: seq<Bytes>)
  {
    forall i, j :: 0 <= i < j < |keys| ==> Less(keys[i], keys[j])
  }

  /** No key is stored in two shards. */
  predicate Disjoint(shards: Shards)
  {
    forall a, b, x :: 0 <= a < |shards| && 0 <= b < |shards| && a != b && x in shards[a] ==> x !in shards[b]
  }

  /** Shard id's iterator stands on a key. */
  predicate IsValid(shards: Shards, pos: seq<int>, id: nat)
  {
    id < |shards| && id < |pos| && 0 <= pos[id] < |shards[id]|
  }

  function KeyOf(shards: Shards, pos: seq<int>, id: nat): Bytes
    requires IsValid(shards, pos, id)
  {
    shards[id][pos[id]]
  }

  /** KeyLess: a valid iterator comes before an invalid one, two valid ones compare by key. */
  predicate KeyLess(shards: Shards, pos: seq<int>, a: nat, b: nat)
  {
    IsValid(shards, pos, a) && (!IsValid(shards, pos, b) || Less(KeyOf(shards, pos, a), KeyOf(shards, pos, b)))
  }

  /** a may stand before b in the vector: b is not KeyLess than a. */
  predicate Precedes(shards: Shards, pos: seq<int>, a: nat, b: nat)
  {
    !IsValid(shards, pos, b) || (IsValid(shards, pos, a) && LessEq(KeyOf(shards, pos, a), KeyOf(shards, pos, b)))
  }

  /** The vector is sorted by KeyLess. */
  predicate Ordered(shards: Shards, pos: seq<int>, iters: seq<nat>)
  {
    forall i, j :: 0 <= i < j < |iters| ==> Precedes(shards, pos, iters[i], iters[j])
  }

  lemma PrecedesIffNotKeyLess(shards: Shards, pos: seq<int>, a: nat, b: nat)
    ensures Precedes(shards, pos, a, b) <==> !KeyLess(shards, pos, b, a)
  {
    if IsValid(shards, pos, a) && IsValid(shards, pos, b) {
      LessTotal(KeyOf(shards, pos, a), KeyOf(shards, pos, b));
      if Less(KeyOf(shards, pos, b), KeyOf(shards, pos, a)) {
        LessAsymmetric(KeyOf(shards, pos, b), KeyOf(shards, pos, a));
      }
    }
  }

  lemma PrecedesTransitive(shards: Shards, pos: seq<int>, a: nat, b: nat, c: nat)
    requires Precedes(shards, pos, a, b) && Precedes(shards, pos, b, c)
    ensures Precedes(shards, pos, a, c)
  {
    if IsValid(shards, pos, c) {
      LessEqTransitive(KeyOf(shards, pos, a), KeyOf(shards, pos, b), KeyOf(shards, pos, c));
    }
  }

  /** The shard ids 0 .. n - 1. */
  function Ids(n: nat): (r: seq<nat>)
    ensures |r| == n && forall i :: 0 <= i < n ==> r[i] == i
  {
    seq(n, i requires 0 <= i < n => i)
  }

  /** The vector refers to every shard exactly once. */
  predicate Permutes(n: nat, iters: seq<nat>)
  {
    multiset(iters) == multiset(Ids(n))
  }

  lemma PermutesMembers(n: nat, iters: seq<nat>)
    requires Permutes(n, iters)
    ensures |iters| == n
    ensures forall id: nat :: id in iters <==> id < n
    ensures forall i :: 0 <= i < |iters| ==> iters[i] < n
  {
    assert |multiset(iters)| == |multiset(Ids(n))|;
    forall id: nat
      ensures id in iters <==> id < n
    {
      assert id in iters <==> id in multiset(Ids(n));
      if id < n {
        assert Ids(n)[id] == id;
      }
      if id in Ids(n) {
        var i :| 0 <= i < n && Ids(n)[i] == id;
      }
    }
    forall i | 0 <= i < |iters|
      ensures iters[i] < n
    {
      assert iters[i] in iters;
    }
  }

  lemma PermutesBounded(n: nat, iters: seq<nat>)
    requires Permutes(n, iters)
    ensures forall i :: 0 <= i < |iters| ==> iters[i] < n
  {
    PermutesMembers(n, iters);
  }

  // ---------------------------------------------------------------------
  // std::sort by KeyLess
  // ---------------------------------------------------------------------

  function InsertId(shards: Shards, pos: seq<int>, s: seq<nat>, x: nat): seq<nat>
  {
    if |s| == 0 then [x]
    else if KeyLess(shards, pos, x, s[0]) then [x] + s
    else [s[0]] + InsertId(shards, pos, s[1..], x)
  }

  /**
   * The order std::sort by KeyLess gives: insertion sort is one of the
   * orders it may produce, and the only one among valid iterators on
   * pairwise distinct keys.
   */
  function SortIds(shards: Shards, pos: seq<int>, s: seq<nat>): seq<nat>
  {
    if |s| == 0 then [] else InsertId(shards, pos, SortIds(shards, pos, s[..|s| - 1]), s[|s| - 1])
  }

  /** Every element of s comes after b. */
  predicate AllAfter(shards: Shards, pos: seq<int>, b: nat, s: seq<nat>)
  {
    forall i :: 0 <= i < |s| ==> Precedes(shards, pos, b, s[i])
  }

  lemma {:induction false} InsertAfter(shards: Shards, pos: seq<int>, s: seq<nat>, x: nat, b: nat)
    requires AllAfter(shards, pos, b, s) && Precedes(shards, pos, b, x)
    ensures AllAfter(shards, pos, b, InsertId(shards, pos, s, x))
    decreases |s|
  {
    if |s| > 0 && !KeyLess(shards, pos, x, s[0]) {
      InsertAfter(shards, pos, s[1..], x, b);
    }
  }

  lemma ConsOrdered(shards: Shards, pos: seq<int>, c: nat, s: seq<nat>)
    requires AllAfter(shards, pos, c, s) && Ordered(shards, pos, s)
    ensures Ordered(shards, pos, [c] + s)
  {
    var r := [c] + s;
    forall i, j | 0 <= i < j < |r|
      ensures Precedes(shards, pos, r[i], r[j])
    {
      assert r[j] == s[j - 1];
      if i > 0 {
        assert r[i] == s[i - 1];
      }
    }
  }

  /** Whatever precedes the head of an ordered vector precedes all of it. */
  lemma BeforeHeadAll(shards: Shards, pos: seq<int>, x: nat, s: seq<nat>)
    requires Ordered(shards, pos, s) && |s| > 0 && Precedes(shards, pos, x, s[0])
    ensures AllAfter(shards, pos, x, s)
  {
    forall i | 0 < i < |s|
      ensures Precedes(shards, pos, x, s[i])
    {
      PrecedesTransitive(shards, pos, x, s[0], s[i]);
    }
  }

  /** The tail of an ordered vector is ordered and comes after its head. */
  lemma OrderedTail(shards: Shards, pos: seq<int>, s: seq<nat>)
    requires Ordered(shards, pos, s) && |s| > 0
    ensures Ordered(shards, pos, s[1..]) && AllAfter(shards, pos, s[0], s[1..])
  {
    assert forall i :: 0 <= i < |s| - 1 ==> s[1..][i] == s[i + 1];
  }

  lemma {:induction false} InsertOrdered(shards: Shards, pos: seq<int>, s: seq<nat>, x: nat)
    requires Ordered(shards, pos, s)
    ensures Ordered(shards, pos, InsertId(shards, pos, s, x))
    ensures multiset(InsertId(shards, pos, s, x)) == multiset(s) + multiset{x}
    decreases |s|
  {
    if |s| == 0 {
    } else if KeyLess(shards, pos, x, s[0]) {
      PrecedesIffNotKeyLess(shards, pos, x, s[0]);
      BeforeHeadAll(shards, pos, x, s);
      ConsOrdered(shards, pos, x, s);
    } else {
      var rest := InsertId(shards, pos, s[1..], x);
      assert InsertId(shards, pos, s, x) == [s[0]] + rest;
      PrecedesIffNotKeyLess(shards, pos, s[0], x);
      OrderedTail(shards, pos, s);
      InsertAfter(shards, pos, s[1..], x, s[0]);
      InsertOrdered(shards, pos, s[1..], x);
      ConsOrdered(shards, pos, s[0], rest);
      assert s == [s[0]] + s[1..];
    }
  }

  /** The sort orders the vector by KeyLess and keeps every reference. */
  lemma {:induction false} SortIdsSpec(shards: Shards, pos: seq<int>, s: seq<nat>)
    ensures Ordered(shards, pos, SortIds(shards, pos, s))
    ensures multiset(SortIds(shards, pos, s)) == multiset(s)
    decreases |s|
  {
    if |s| > 0 {
      SortIdsSpec(shards, pos, s[..|s| - 1]);
      InsertOrdered(shards, pos, SortIds(shards, pos, s[..|s| - 1]), s[|s| - 1]);
      assert s == s[..|s| - 1] + [s[|s| - 1]];
    }
  }

  lemma DuplicateCount(s: seq<nat>, i: nat, j: nat)
    requires i < j < |s| && s[i] == s[j]
    ensures multiset(s)[s[i]] >= 2
  {
    assert s == s[..j] + [s[j]] + s[j + 1..];
    assert s[i] in s[..j];
  }

  lemma {:induction false} IdsCount(n: nat, x: nat)
    ensures multiset(Ids(n))[x] <= 1
    decreases n
  {
    if n > 0 {
      IdsCount(n - 1, x);
      assert Ids(n) == Ids(n - 1) + [n - 1];
      if x == n - 1 {
        assert x !in Ids(n - 1);
      }
    }
  }

  /** A vector that refers to every shard once holds no reference twice. */
  lemma PermutesDistinct(n: nat, iters: seq<nat>)
    requires Permutes(n, iters)
    ensures forall i, j :: 0 <= i < j < |iters| ==> iters[i] != iters[j]
  {
    forall i, j | 0 <= i < j < |iters|
      ensures iters[i] != iters[j]
    {
      if iters[i] == iters[j] {
        DuplicateCount(iters, i, j);
        IdsCount(n, iters[i]);
        assert false;
      }
    }
  }

  // ---------------------------------------------------------------------
  // What the merged view has passed and what lies ahead
  // ---------------------------------------------------------------------

  /** One position per shard, each from before its first key to past its last. */
  predicate WellPlaced(shards: Shards, pos: seq<int>)
  {
    |pos| == |shards| && forall id :: 0 <= id < |shards| ==> -1 <= pos[id] <= |shards[id]|
  }

  predicate AllSorted(shards: Shards)
  {
    forall id :: 0 <= id < |shards| ==> StrictlySorted(shards[id])
  }

  /** No shard iterator stands before its first key. */
  predicate Started(pos: seq<int>)
  {
    forall id :: 0 <= id < |pos| ==> 0 <= pos[id]
  }

  /** x is stored in some shard. */
  predicate InUnion(shards: Shards, x: Bytes)
  {
    exists id :: 0 <= id < |shards| && x in shards[id]
  }

  /** x lies before its shard iterator's position. */
  predicate Passed(shards: Shards, pos: seq<int>, x: Bytes)
  {
    exists id, j :: 0 <= id < |shards| && id < |pos| && 0 <= j < pos[id] && j < |shards[id]| && shards[id][j] == x
  }

  /** x lies at or after its shard iterator's position. */
  predicate Ahead(shards: Shards, pos: seq<int>, x: Bytes)
  {
    exists id, j :: 0 <= id < |shards| && id < |pos| && 0 <= pos[id] <= j < |shards[id]| && shards[id][j] == x
  }

  /**
   * The state a merged iteration keeps: the vector is a sorted permutation
   * of the shards, no shard stands before its first key, and every key
   * already passed sorts below the current one.
   */
  ghost predicate Merged(shards: Shards, pos: seq<int>, iters: seq<nat>)
  {
    |shards| > 0 && |iters| == |shards| && WellPlaced(shards, pos) && Started(pos)
    && Permutes(|shards|, iters) && Ordered(shards, pos, iters)
    && (IsValid(shards, pos, iters[0]) ==>
          forall x :: Passed(shards, pos, x) ==> Less(x, KeyOf(shards, pos, iters[0])))
  }

  lemma UnionSplit(shards: Shards, pos: seq<int>, x: Bytes)
    requires WellPlaced(shards, pos) && Started(pos)
    ensures InUnion(shards, x) <==> Passed(shards, pos, x) || Ahead(shards, pos, x)
  {
    if InUnion(shards, x) {
      var id :| 0 <= id < |shards| && x in shards[id];
      var j :| 0 <= j < |shards[id]| && shards[id][j] == x;
      if j < pos[id] {
        assert Passed(shards, pos, x);
      } else {
        assert Ahead(shards, pos, x);
      }
    }
    if Passed(shards, pos, x) {
      var id, j :| 0 <= id < |shards| && id < |pos| && 0 <= j < pos[id] && j < |shards[id]| && shards[id][j] == x;
      assert x in shards[id];
    }
    if Ahead(shards, pos, x) {
      var id, j :| 0 <= id < |shards| && id < |pos| && 0 <= pos[id] <= j < |shards[id]| && shards[id][j] == x;
      assert x in shards[id];
    }
  }

  /**
   * In a sorted permutation of started shards, the first iterator is valid
   * exactly when some key lies ahead, and then its key is the least of them.
   */
  lemma HeadIsLeastAhead(shards: Shards, pos: seq<int>, iters: seq<nat>)
    requires |iters| > 0 && WellPlaced(shards, pos) && AllSorted(shards) && Started(pos)
    requires Permutes(|shards|, iters) && Ordered(shards, pos, iters)
    ensures IsValid(shards, pos, iters[0]) ==>
              Ahead(shards, pos, KeyOf(shards, pos, iters[0]))
              && forall x :: Ahead(shards, pos, x) ==> LessEq(KeyOf(shards, pos, iters[0]), x)
    ensures !IsValid(shards, pos, iters[0]) ==> forall x :: !Ahead(shards, pos, x)
  {
    PermutesMembers(|shards|, iters);
    var h := iters[0];
    forall x | Ahead(shards, pos, x)
      ensures IsValid(shards, pos, h) && LessEq(KeyOf(shards, pos, h), x)
    {
      var id, j :| 0 <= id < |shards| && id < |pos| && 0 <= pos[id] <= j < |shards[id]| && shards[id][j] == x;
      assert IsValid(shards, pos, id);
      assert id in iters;
      var i :| 0 <= i < |iters| && iters[i] == id;
      if i > 0 {
        assert Precedes(shards, pos, iters[0], iters[i]);
      }
      if j > pos[id] {
        assert Less(shards[id][pos[id]], shards[id][j]);
      }
      LessEqTransitive(KeyOf(shards, pos, h), KeyOf(shards, pos, id), x);
    }
    if IsValid(shards, pos, h) {
      assert shards[h][pos[h]] == KeyOf(shards, pos, h);
    }
  }

  // ---------------------------------------------------------------------
  // Positioning every shard against a bound
  // ---------------------------------------------------------------------

  /** x is at or past lo, or strictly past it. */
  predicate Bound(x: Bytes, lo: Bytes, strict: bool)
  {
    if strict then Less(lo, x) else LessEq(lo, x)
  }

  /** Position p of keys separates the keys out of bound from those within. */
  predicate Splits(keys: seq<Bytes>, p: int, lo: Bytes, strict: bool)
  {
    0 <= p <= |keys|
    && (forall j :: 0 <= j < p ==> !Bound(keys[j], lo, strict))
    && (forall j :: p <= j < |keys| ==> Bound(keys[j], lo, strict))
  }

  /** Seek(t) on one shard: the first position whose key is not below t. */
  function SeekPos(keys: seq<Bytes>, t: Bytes): (p: nat)
    ensures p <= |keys|
    ensures forall j :: 0 <= j < p ==> Less(keys[j], t)
    ensures p < |keys| ==> !Less(keys[p], t)
  {
    if |keys| == 0 || !Less(keys[0], t) then 0 else 1 + SeekPos(keys[1..], t)
  }

  /** Seek(after), then one step on when the iterator stands on after itself. */
  function UpperPos(keys: seq<Bytes>, after: Bytes): nat
  {
    var p := SeekPos(keys, after);
    if p < |keys| && keys[p] == after then p + 1 else p
  }

  /** A shard's position after SeekToFirst. */
  lemma FirstSplits(keys: seq<Bytes>)
    ensures Splits(keys, 0, [], false)
  {
    forall j | 0 <= j < |keys|
      ensures LessEq([], keys[j])
    {
    }
  }

  /** lower_bound leaves each shard just before its first key at or past the bound. */
  lemma SeekSplits(keys: seq<Bytes>, to: Bytes)
    requires StrictlySorted(keys)
    ensures Splits(keys, SeekPos(keys, to), to, false)
  {
    var p := SeekPos(keys, to);
    forall j | 0 <= j < p
      ensures !LessEq(to, keys[j])
    {
      LessAsymmetric(keys[j], to);
      LessIrreflexive(to);
    }
    forall j | p <= j < |keys|
      ensures LessEq(to, keys[j])
    {
      LessTotal(to, keys[p]);
      if j > p {
        LessEqTransitive(to, keys[p], keys[j]);
      }
    }
  }

  /** upper_bound leaves each shard just before its first key past the bound. */
  lemma UpperSplits(keys: seq<Bytes>, after: Bytes)
    requires StrictlySorted(keys)
    ensures Splits(keys, UpperPos(keys, after), after, true)
  {
    var p := SeekPos(keys, after);
    var u := UpperPos(keys, after);
    forall j | 0 <= j < u
      ensures !Less(after, keys[j])
    {
      if j < p {
        LessAsymmetric(keys[j], after);
      } else {
        LessIrreflexive(after);
      }
    }
    forall j | u <= j < |keys|
      ensures Less(after, keys[j])
    {
      LessTotal(after, keys[p]);
      if j > p {
        LessEqTransitive(after, keys[p], keys[j]);
      }
    }
  }

  lemma OutOfBoundBelow(x: Bytes, k: Bytes, lo: Bytes, strict: bool)
    requires !Bound(x, lo, strict) && Bound(k, lo, strict)
    ensures Less(x, k)
  {
    LessTotal(x, lo);
    if strict {
      if x != lo {
        LessTransitive(x, lo, k);
      }
    } else if lo != k {
      LessTransitive(x, lo, k);
    }
  }

  /**
   * After every shard is positioned against a bound and the vector sorted,
   * the iteration is merged, valid exactly when some stored key is within
   * the bound, and its key is the least such key.
   */
  lemma SeekedMerged(shards: Shards, pos: seq<int>, iters: seq<nat>, lo: Bytes, strict: bool)
    requires |shards| > 0 && |pos| == |shards| && AllSorted(shards)
    requires Permutes(|shards|, iters) && Ordered(shards, pos, iters)
    requires forall id :: 0 <= id < |shards| ==> Splits(shards[id], pos[id], lo, strict)
    ensures Merged(shards, pos, iters)
    ensures IsValid(shards, pos, iters[0]) <==> exists x :: InUnion(shards, x) && Bound(x, lo, strict)
    ensures IsValid(shards, pos, iters[0]) ==>
              InUnion(shards, KeyOf(shards, pos, iters[0])) && Bound(KeyOf(shards, pos, iters[0]), lo, strict)
              && forall x :: InUnion(shards, x) && Bound(x, lo, strict) ==> LessEq(KeyOf(shards, pos, iters[0]), x)
  {
    PermutesMembers(|shards|, iters);
    HeadIsLeastAhead(shards, pos, iters);
    forall x
      ensures Ahead(shards, pos, x) <==> InUnion(shards, x) && Bound(x, lo, strict)
      ensures Passed(shards, pos, x) ==> !Bound(x, lo, strict)
    {
      UnionSplit(shards, pos, x);
      if Passed(shards, pos, x) {
        var id, j :| 0 <= id < |shards| && id < |pos| && 0 <= j < pos[id] && j < |shards[id]| && shards[id][j] == x;
      }
      if Ahead(shards, pos, x) {
        var id, j :| 0 <= id < |shards| && id < |pos| && 0 <= pos[id] <= j < |shards[id]| && shards[id][j] == x;
      }
    }
    var h := iters[0];
    if IsValid(shards, pos, h) {
      forall x | Passed(shards, pos, x)
        ensures Less(x, KeyOf(shards, pos, h))
      {
        OutOfBoundBelow(x, KeyOf(shards, pos, h), lo, strict);
      }
    }
  }

  // ---------------------------------------------------------------------
  // Stepping forward
  // ---------------------------------------------------------------------

  /** What lies ahead and what is passed once the first shard, standing on k, steps past it. */
  lemma StepForward(shards: Shards, pos: seq<int>, iters: seq<nat>, pos2: seq<int>, x: Bytes)
    requires Merged(shards, pos, iters) && AllSorted(shards) && Disjoint(shards)
    requires IsValid(shards, pos, iters[0])
    requires pos2 == pos[iters[0] := pos[iters[0]] + 1]
    ensures Ahead(shards, pos2, x) <==> InUnion(shards, x) && Less(KeyOf(shards, pos, iters[0]), x)
    ensures Passed(shards, pos2, x) ==> LessEq(x, KeyOf(shards, pos, iters[0]))
  {
    var h := iters[0];
    var k := KeyOf(shards, pos, h);
    HeadIsLeastAhead(shards, pos, iters);
    UnionSplit(shards, pos, x);
    if Ahead(shards, pos2, x) {
      var id, j :| 0 <= id < |shards| && id < |pos2| && 0 <= pos2[id] <= j < |shards[id]| && shards[id][j] == x;
      assert x in shards[id];
      if id == h {
        assert Less(shards[h][pos[h]], x);
      } else {
        assert Ahead(shards, pos, x);
        assert k in shards[h];
      }
    }
    if InUnion(shards, x) && Less(k, x) {
      if Passed(shards, pos, x) {
        LessAsymmetric(x, k);
      }
      var id, j :| 0 <= id < |shards| && id < |pos| && 0 <= pos[id] <= j < |shards[id]| && shards[id][j] == x;
      if id == h && j == pos[h] {
        LessIrreflexive(k);
      }
      assert Ahead(shards, pos2, x);
    }
    if Passed(shards, pos2, x) {
      var id, j :| 0 <= id < |shards| && id < |pos2| && 0 <= j < pos2[id] && j < |shards[id]| && shards[id][j] == x;
      if !(id == h && j == pos[h]) {
        assert Passed(shards, pos, x);
      }
    }
  }

  /**
   * next() on a merged iteration standing on k: advancing the first shard
   * and re-sorting gives a merged iteration that is valid exactly when a
   * stored key lies past k, and then stands on the least of them.
   */
  lemma NextSuccessor(shards: Shards, pos: seq<int>, iters: seq<nat>, pos2: seq<int>, iters2: seq<nat>)
    requires Merged(shards, pos, iters) && AllSorted(shards) && Disjoint(shards)
    requires IsValid(shards, pos, iters[0])
    requires pos2 == pos[iters[0] := pos[iters[0]] + 1]
    requires multiset(iters2) == multiset(iters) && Ordered(shards, pos2, iters2)
    ensures |iters2| == |iters| && Merged(shards, pos2, iters2)
    ensures IsValid(shards, pos2, iters2[0]) <==>
              exists x :: InUnion(shards, x) && Less(KeyOf(shards, pos, iters[0]), x)
    ensures IsValid(shards, pos2, iters2[0]) ==>
              InUnion(shards, KeyOf(shards, pos2, iters2[0]))
              && Less(KeyOf(shards, pos, iters[0]), KeyOf(shards, pos2, iters2[0]))
              && forall x :: InUnion(shards, x) && Less(KeyOf(shards, pos, iters[0]), x) ==>
                   LessEq(KeyOf(shards, pos2, iters2[0]), x)
  {
    var k := KeyOf(shards, pos, iters[0]);
    assert |iters2| == |multiset(iters2)| == |iters|;
    assert Permutes(|shards|, iters2);
    forall x
      ensures Ahead(shards, pos2, x) <==> InUnion(shards, x) && Less(k, x)
      ensures Passed(shards, pos2, x) ==> LessEq(x, k)
    {
      StepForward(shards, pos, iters, pos2, x);
    }
    assert WellPlaced(shards, pos2) && Started(pos2);
    HeadIsLeastAhead(shards, pos2, iters2);
    if IsValid(shards, pos2, iters2[0]) {
      var k2 := KeyOf(shards, pos2, iters2[0]);
      UnionSplit(shards, pos2, k2);
      forall x | Passed(shards, pos2, x)
        ensures Less(x, k2)
      {
        if x != k {
          LessTransitive(x, k, k2);
        }
      }
    }
  }

  // ---------------------------------------------------------------------
  // Seeking to the last key
  // ---------------------------------------------------------------------

  /** SeekToLast on one shard: its last key; a shard without keys stays invalid, at its empty end. */
  function LastPos(keys: seq<Bytes>): nat
  {
    if |keys| == 0 then 0 else |keys| - 1
  }

  lemma LastIsGreatest(keys: seq<Bytes>, x: Bytes)
    requires StrictlySorted(keys) && x in keys
    ensures LessEq(x, keys[|keys| - 1])
  {
    var j :| 0 <= j < |keys| && keys[j] == x;
    if j < |keys| - 1 {
      assert Less(keys[j], keys[|keys| - 1]);
    }
  }

  /** s with its first and i-th elements exchanged. */
  function SwapFront(s: seq<nat>, i: nat): (r: seq<nat>)
    requires 0 < i < |s|
    ensures |r| == |s| && r[0] == s[i] && r[i] == s[0]
    ensures forall j :: 0 < j < |s| && j != i ==> r[j] == s[j]
    ensures multiset(r) == multiset(s)
  {
    s[0 := s[i]][i := s[0]]
  }

  /**
   * Round i of seek_to_last's scan: the i-th iterator goes to the front when
   * it is valid and the first is not or is KeyLess than it.
   */
  function LastRoundIters(shards: Shards, pos: seq<int>, iters: seq<nat>, i: nat): seq<nat>
    requires 0 < i < |iters|
  {
    var head := iters[0];
    var other := iters[i];
    if IsValid(shards, pos, other) && (!IsValid(shards, pos, head) || KeyLess(shards, pos, head, other))
    then SwapFront(iters, i)
    else iters
  }

  /**
   * What holds before round i of seek_to_last's scan: the first iterator
   * and the unscanned ones on their last keys, the scanned ones past their
   * ends, and the first holding the greatest key of every scanned shard (or
   * every scanned shard empty).
   */
  ghost predicate LastScan(shards: Shards, pos: seq<int>, iters: seq<nat>, i: nat)
  {
    |pos| == |shards| && 1 <= i <= |iters|
    && (forall j :: 0 <= j < |iters| ==> iters[j] < |shards|)
    && pos[iters[0]] == LastPos(shards[iters[0]])
    && (forall j :: 1 <= j < i ==> pos[iters[j]] == |shards[iters[j]]|)
    && (forall j :: i <= j < |iters| ==> pos[iters[j]] == LastPos(shards[iters[j]]))
    && (IsValid(shards, pos, iters[0]) ==>
          forall j, x :: 0 <= j < i && x in shards[iters[j]] ==> LessEq(x, KeyOf(shards, pos, iters[0])))
    && (!IsValid(shards, pos, iters[0]) ==> forall j :: 0 <= j < i ==> |shards[iters[j]]| == 0)
  }

  /** A shard iterator on its last key that is not valid belongs to an empty shard. */
  lemma LastPosInvalid(keys: seq<Bytes>, p: int)
    requires p == LastPos(keys) && !(0 <= p < |keys|)
    ensures |keys| == 0 && p == |keys|
  {
  }

  /** A round of the scan that moves the i-th iterator to the front. */
  lemma LastRoundSwap(shards: Shards, pos: seq<int>, iters: seq<nat>, i: nat, pos2: seq<int>, it2: seq<nat>)
    requires AllSorted(shards) && LastScan(shards, pos, iters, i) && i < |iters| && iters[0] != iters[i]
    requires IsValid(shards, pos, iters[i])
    requires !IsValid(shards, pos, iters[0]) || KeyLess(shards, pos, iters[0], iters[i])
    requires forall j :: 0 < j < |iters| && j != i ==> iters[j] != iters[0] && iters[j] != iters[i]
    requires pos2 == pos[iters[0] := |shards[iters[0]]|] && it2 == SwapFront(iters, i)
    ensures LastScan(shards, pos2, it2, i + 1)
  {
    var h, o := iters[0], iters[i];
    if !IsValid(shards, pos, h) {
      LastPosInvalid(shards[h], pos[h]);
    }
    assert KeyOf(shards, pos2, o) == KeyOf(shards, pos, o);
    forall j, x | 0 <= j < i + 1 && x in shards[it2[j]]
      ensures LessEq(x, KeyOf(shards, pos2, o))
    {
      if j == 0 {
        LastIsGreatest(shards[o], x);
      } else {
        var j0 := if j == i then 0 else j;
        assert it2[j] == iters[j0] && x in shards[iters[j0]];
        LessEqTransitive(x, KeyOf(shards, pos, h), KeyOf(shards, pos, o));
      }
    }
  }

  /** A round of the scan that leaves the first iterator in place. */
  lemma LastRoundKeep(shards: Shards, pos: seq<int>, iters: seq<nat>, i: nat, pos2: seq<int>)
    requires AllSorted(shards) && LastScan(shards, pos, iters, i) && i < |iters|
    requires forall j :: 0 <= j < |iters| && j != i ==> iters[j] != iters[i]
    requires !(IsValid(shards, pos, iters[i]) && (!IsValid(shards, pos, iters[0]) || KeyLess(shards, pos, iters[0], iters[i])))
    requires pos2 == pos[iters[i] := |shards[iters[i]]|]
    ensures LastScan(shards, pos2, iters, i + 1)
  {
    var h, o := iters[0], iters[i];
    if IsValid(shards, pos, o) {
      LessTotal(KeyOf(shards, pos, h), KeyOf(shards, pos, o));
      assert KeyOf(shards, pos2, h) == KeyOf(shards, pos, h);
      forall j, x | 0 <= j < i + 1 && x in shards[iters[j]]
        ensures LessEq(x, KeyOf(shards, pos2, h))
      {
        if j == i {
          LastIsGreatest(shards[o], x);
          LessEqTransitive(x, KeyOf(shards, pos, o), KeyOf(shards, pos, h));
        }
      }
    } else {
      LastPosInvalid(shards[o], pos[o]);
      assert pos2 == pos;
    }
  }

  /** The positions after round i: the iterator left in slot i steps past its last key. */
  function LastRoundPos(shards: Shards, pos: seq<int>, iters: seq<nat>, i: nat): seq<int>
    requires 0 < i < |iters| && |pos| == |shards| && forall j :: 0 <= j < |iters| ==> iters[j] < |shards|
  {
    var it2 := LastRoundIters(shards, pos, iters, i);
    if IsValid(shards, pos, it2[i]) then pos[it2[i] := pos[it2[i]] + 1] else pos
  }

  /** Stepping an iterator on its last key, when valid, leaves it just past its end. */
  lemma LastStepPast(shards: Shards, pos: seq<int>, id: nat)
    requires id < |shards| == |pos| && pos[id] == LastPos(shards[id])
    ensures (if IsValid(shards, pos, id) then pos[id := pos[id] + 1] else pos) == pos[id := |shards[id]|]
  {
    if !IsValid(shards, pos, id) {
      LastPosInvalid(shards[id], pos[id]);
    }
  }

  lemma LastRound(shards: Shards, pos: seq<int>, iters: seq<nat>, i: nat)
    requires AllSorted(shards) && Permutes(|shards|, iters) && LastScan(shards, pos, iters, i) && i < |iters|
    ensures LastScan(shards, LastRoundPos(shards, pos, iters, i), LastRoundIters(shards, pos, iters, i), i + 1)
  {
    PermutesDistinct(|shards|, iters);
    var h, o := iters[0], iters[i];
    if IsValid(shards, pos, o) && (!IsValid(shards, pos, h) || KeyLess(shards, pos, h, o)) {
      LastRoundFront(shards, pos, iters, i, h, o);
    } else {
      LastRoundStay(shards, pos, iters, i, h, o);
    }
  }

  /** LastRound when the i-th iterator wins the round. */
  lemma LastRoundFront(shards: Shards, pos: seq<int>, iters: seq<nat>, i: nat, h: nat, o: nat)
    requires AllSorted(shards) && LastScan(shards, pos, iters, i) && i < |iters|
    requires h == iters[0] && o == iters[i] && h != o
    requires forall j :: 0 < j < |iters| && j != i ==> iters[j] != h && iters[j] != o
    requires IsValid(shards, pos, o) && (!IsValid(shards, pos, h) || KeyLess(shards, pos, h, o))
    ensures LastScan(shards, LastRoundPos(shards, pos, iters, i), LastRoundIters(shards, pos, iters, i), i + 1)
  {
    var it2 := SwapFront(iters, i);
    assert LastRoundIters(shards, pos, iters, i) == it2;
    LastStepPast(shards, pos, h);
    var pos2 := pos[h := |shards[h]|];
    assert LastRoundPos(shards, pos, iters, i) == pos2;
    LastRoundSwap(shards, pos, iters, i, pos2, it2);
  }

  /** LastRound when the first iterator keeps its place. */
  lemma LastRoundStay(shards: Shards, pos: seq<int>, iters: seq<nat>, i: nat, h: nat, o: nat)
    requires AllSorted(shards) && LastScan(shards, pos, iters, i) && i < |iters|
    requires h == iters[0] && o == iters[i]
    requires forall j :: 0 <= j < |iters| && j != i ==> iters[j] != o
    requires !(IsValid(shards, pos, o) && (!IsValid(shards, pos, h) || KeyLess(shards, pos, h, o)))
    ensures LastScan(shards, LastRoundPos(shards, pos, iters, i), LastRoundIters(shards, pos, iters, i), i + 1)
  {
    assert LastRoundIters(shards, pos, iters, i) == iters;
    LastStepPast(shards, pos, o);
    var pos2 := pos[o := |shards[o]|];
    assert LastRoundPos(shards, pos, iters, i) == pos2;
    LastRoundKeep(shards, pos, iters, i, pos2);
  }

  /**
   * The state seek_to_last leaves: the first iterator on the greatest stored
   * key and every other one past its end. With no key in two shards it is
   * a merged iteration.
   */
  lemma LastMerged(shards: Shards, pos: seq<int>, iters: seq<nat>)
    requires |shards| > 0 && |iters| == |shards| && WellPlaced(shards, pos) && AllSorted(shards) && Disjoint(shards)
    requires Permutes(|shards|, iters) && forall i :: 0 <= i < |iters| ==> iters[i] < |shards|
    requires pos[iters[0]] == LastPos(shards[iters[0]])
    requires forall i :: 1 <= i < |iters| ==> pos[iters[i]] == |shards[iters[i]]|
    requires IsValid(shards, pos, iters[0]) ==>
               forall x :: InUnion(shards, x) ==> LessEq(x, KeyOf(shards, pos, iters[0]))
    ensures Merged(shards, pos, iters)
  {
    PermutesMembers(|shards|, iters);
    PermutesDistinct(|shards|, iters);
    var h := iters[0];
    forall id | 0 <= id < |pos|
      ensures 0 <= pos[id]
    {
      assert id in iters;
    }
    if IsValid(shards, pos, h) {
      var k := KeyOf(shards, pos, h);
      forall x | Passed(shards, pos, x)
        ensures Less(x, k)
      {
        var id, j :| 0 <= id < |shards| && id < |pos| && 0 <= j < pos[id] && j < |shards[id]| && shards[id][j] == x;
        assert id in iters;
        var i :| 0 <= i < |iters| && iters[i] == id;
        assert x in shards[id];
        if i == 0 {
          assert StrictlySorted(shards[h]);
          assert Less(shards[h][j], shards[h][pos[h]]);
        } else {
          assert id != h && k in shards[h];
          assert InUnion(shards, x);
          assert x != k;
        }
      }
    }
  }

  /** The scan starts with every iterator on its last key. */
  lemma LastScanStarts(shards: Shards, pos: seq<int>, iters: seq<nat>)
    requires |pos| == |shards| && |iters| == |shards| > 0 && AllSorted(shards)
    requires forall j :: 0 <= j < |iters| ==> iters[j] < |shards|
    requires forall id :: 0 <= id < |shards| ==> pos[id] == LastPos(shards[id])
    ensures LastScan(shards, pos, iters, 1)
  {
    var h := iters[0];
    if IsValid(shards, pos, h) {
      forall x | x in shards[h]
        ensures LessEq(x, KeyOf(shards, pos, h))
      {
        LastIsGreatest(shards[h], x);
      }
    }
  }

  /** Every position the scan leaves is a last key or past the end. */
  lemma LastScanPlaced(shards: Shards, pos: seq<int>, iters: seq<nat>)
    requires Permutes(|shards|, iters) && LastScan(shards, pos, iters, |iters|)
    ensures WellPlaced(shards, pos)
  {
    PermutesMembers(|shards|, iters);
    forall id | 0 <= id < |shards|
      ensures -1 <= pos[id] <= |shards[id]|
    {
      assert id in iters;
    }
  }

  /** After the whole scan only the first iterator can be valid, on the greatest stored key. */
  lemma LastSeeked(shards: Shards, pos: seq<int>, iters: seq<nat>)
    requires |shards| > 0 && AllSorted(shards) && Permutes(|shards|, iters) && LastScan(shards, pos, iters, |iters|)
    ensures IsValid(shards, pos, iters[0]) <==> exists x :: InUnion(shards, x)
    ensures IsValid(shards, pos, iters[0]) ==>
              InUnion(shards, KeyOf(shards, pos, iters[0]))
              && forall x :: InUnion(shards, x) ==> LessEq(x, KeyOf(shards, pos, iters[0]))
    ensures Disjoint(shards) ==> Merged(shards, pos, iters)
  {
    PermutesMembers(|shards|, iters);
    if IsValid(shards, pos, iters[0]) {
      forall x | InUnion(shards, x)
        ensures LessEq(x, KeyOf(shards, pos, iters[0]))
      {
        var id :| 0 <= id < |shards| && x in shards[id];
        assert id in iters;
      }
      assert KeyOf(shards, pos, iters[0]) in shards[iters[0]];
      assert InUnion(shards, KeyOf(shards, pos, iters[0]));
    } else {
      forall id | 0 <= id < |shards|
        ensures |shards[id]| == 0
      {
        assert id in iters;
      }
    }
    LastScanPlaced(shards, pos, iters);
    if Disjoint(shards) {
      LastMerged(shards, pos, iters);
    }
  }

  /** The vector is sorted after its first element. */
  predicate TailOrdered(shards: Shards, pos: seq<int>, iters: seq<nat>)
  {
    forall a, b :: 0 < a < b < |iters| ==> Precedes(shards, pos, iters[a], iters[b])
  }

  /**
   * Bubbling the element at i up: the others are in order, and every one
   * before i precedes it.
   */
  predicate Bubbling(shards: Shards, pos: seq<int>, iters: seq<nat>, i: nat)
  {
    i < |iters|
    && (forall a, b :: 0 <= a < b < |iters| && a != i && b != i ==> Precedes(shards, pos, iters[a], iters[b]))
    && (forall a :: 0 <= a < i ==> Precedes(shards, pos, iters[a], iters[i]))
  }

  lemma BubbleStep(shards: Shards, pos: seq<int>, iters: seq<nat>, i: nat)
    requires i + 1 < |iters| && Bubbling(shards, pos, iters, i)
    requires !KeyLess(shards, pos, iters[i], iters[i + 1])
    ensures Bubbling(shards, pos, Swap(iters, i), i + 1)
  {
    PrecedesIffNotKeyLess(shards, pos, iters[i + 1], iters[i]);
    var s := Swap(iters, i);
    forall a, b | 0 <= a < b < |s| && a != i + 1 && b != i + 1
      ensures Precedes(shards, pos, s[a], s[b])
    {
      if a == i {
        assert s[a] == iters[i + 1];
        if b > i + 1 {
          assert Precedes(shards, pos, iters[i + 1], iters[b]);
        }
      } else if b == i {
        assert Precedes(shards, pos, iters[a], iters[i + 1]);
      } else {
        assert s[a] == iters[a] && s[b] == iters[b];
      }
    }
  }

  /**
   * When the bubbling stops, at the end of the vector or below a neighbour
   * it is KeyLess than, the vector is sorted.
   */
  lemma BubbledOrdered(shards: Shards, pos: seq<int>, iters: seq<nat>, i: nat)
    requires Bubbling(shards, pos, iters, i)
    requires i + 1 < |iters| ==> KeyLess(shards, pos, iters[i], iters[i + 1])
    ensures Ordered(shards, pos, iters)
  {
    forall b | i < b < |iters|
      ensures Precedes(shards, pos, iters[i], iters[b])
    {
      assert Precedes(shards, pos, iters[i], iters[i + 1]);
      if b > i + 1 {
        PrecedesTransitive(shards, pos, iters[i], iters[i + 1], iters[b]);
      }
    }
  }

  // ---------------------------------------------------------------------
  // Stepping back
  // ---------------------------------------------------------------------

  /**
   * prev()'s first loop on one shard iterator: a valid one steps back, and
   * one that thereby leaves its first key is put back on it; an invalid one
   * seeks its last key.
   */
  function ProbePos(keys: seq<Bytes>, p: int): int
  {
    if 0 <= p < |keys| then (if p > 0 then p - 1 else 0) else LastPos(keys)
  }

  /** Whether that iterator joins prev_done: it stepped back onto a key or found a last key. */
  predicate Probed(keys: seq<Bytes>, p: int)
  {
    if 0 <= p < |keys| then p > 0 else |keys| > 0
  }

  /** Every position after prev()'s first loop. */
  function ProbeAll(shards: Shards, pos: seq<int>): seq<int>
    requires |pos| == |shards|
  {
    seq(|shards|, id requires 0 <= id < |shards| => ProbePos(shards[id], pos[id]))
  }

  /** prev_done after the probe of s[..n]: the references, in order, whose iterators joined it. */
  function ProbedIds(shards: Shards, pos: seq<int>, s: seq<nat>, n: nat): (r: seq<nat>)
    requires |pos| == |shards| && n <= |s| && forall i :: 0 <= i < |s| ==> s[i] < |shards|
    ensures forall i :: 0 <= i < |r| ==> r[i] < |shards| && r[i] in s && Probed(shards[r[i]], pos[r[i]])
    ensures forall k :: 0 <= k < n && Probed(shards[s[k]], pos[s[k]]) ==> s[k] in r
  {
    if n == 0 then []
    else ProbedIds(shards, pos, s, n - 1) + (if Probed(shards[s[n - 1]], pos[s[n - 1]]) then [s[n - 1]] else [])
  }

  predicate Distinct(s: seq<nat>)
  {
    forall i, j :: 0 <= i < j < |s| ==> s[i] != s[j]
  }

  /** Every member of prev_done after the probe of s[..n] comes from s[..n]. */
  lemma {:induction false} ProbedIdsFrom(shards: Shards, pos: seq<int>, s: seq<nat>, n: nat, x: nat)
    requires |pos| == |shards| && n <= |s| && (forall i :: 0 <= i < |s| ==> s[i] < |shards|)
    requires x in ProbedIds(shards, pos, s, n)
    ensures exists k :: 0 <= k < n && s[k] == x
  {
    if n > 0 && x in ProbedIds(shards, pos, s, n - 1) {
      ProbedIdsFrom(shards, pos, s, n - 1, x);
    }
  }

  lemma {:induction false} ProbedDistinct(shards: Shards, pos: seq<int>, s: seq<nat>, n: nat)
    requires |pos| == |shards| && n <= |s| && (forall i :: 0 <= i < |s| ==> s[i] < |shards|) && Distinct(s)
    ensures Distinct(ProbedIds(shards, pos, s, n))
  {
    if n > 0 {
      ProbedDistinct(shards, pos, s, n - 1);
      if s[n - 1] in ProbedIds(shards, pos, s, n - 1) {
        ProbedIdsFrom(shards, pos, s, n - 1, s[n - 1]);
        assert false;
      }
    }
  }

  lemma ProbedIdsSnoc(shards: Shards, pos: seq<int>, s: seq<nat>, n: nat)
    requires |pos| == |shards| && n < |s| && (forall i :: 0 <= i < |s| ==> s[i] < |shards|)
    ensures ProbedIds(shards, pos, s, n + 1)
            == ProbedIds(shards, pos, s, n) + (if Probed(shards[s[n]], pos[s[n]]) then [s[n]] else [])
  {
  }

  /** The probe of iters[i] keeps the positions the probe loop has reached for every other reference. */
  lemma ProbeStep(shards: Shards, pos0: seq<int>, iters: seq<nat>, i: nat, p: seq<int>, p2: seq<int>)
    requires Distinct(iters) && i < |iters| && |p| == |shards| && |pos0| == |shards|
    requires forall k :: 0 <= k < |iters| ==> iters[k] < |shards|
    requires forall k :: 0 <= k < i ==> p[iters[k]] == ProbePos(shards[iters[k]], pos0[iters[k]])
    requires forall k :: i <= k < |iters| ==> p[iters[k]] == pos0[iters[k]]
    requires p2 == p[iters[i] := ProbePos(shards[iters[i]], p[iters[i]])]
    ensures forall k :: 0 <= k < i + 1 ==> p2[iters[k]] == ProbePos(shards[iters[k]], pos0[iters[k]])
    ensures forall k :: i + 1 <= k < |iters| ==> p2[iters[k]] == pos0[iters[k]]
  {
    forall k | 0 <= k < |iters| && k != i
      ensures p2[iters[k]] == p[iters[k]]
    {
      if k < i {
        assert iters[k] != iters[i];
      } else {
        assert iters[i] != iters[k];
      }
    }
  }

  lemma ProbeAllWellPlaced(shards: Shards, pos: seq<int>)
    requires |pos| == |shards|
    ensures WellPlaced(shards, ProbeAll(shards, pos))
  {
  }

  /** Probing every reference of a permutation probes every shard. */
  lemma ProbedAllPlaced(shards: Shards, pos: seq<int>, iters: seq<nat>, pos1: seq<int>)
    requires |pos| == |shards| && |pos1| == |shards| && Permutes(|shards|, iters)
    requires forall k :: 0 <= k < |iters| ==> iters[k] < |shards| && pos1[iters[k]] == ProbePos(shards[iters[k]], pos[iters[k]])
    ensures pos1 == ProbeAll(shards, pos)
  {
    PermutesMembers(|shards|, iters);
    forall id | 0 <= id < |shards|
      ensures pos1[id] == ProbeAll(shards, pos)[id]
    {
      assert id in iters;
    }
  }

  /**
   * The highest loop over done[..n]: starting from the first member of
   * prev_done, each later member replaces the choice when the choice is
   * KeyLess than it. The result is the chosen member's index.
   */
  function HighestAt(shards: Shards, pos: seq<int>, done: seq<nat>, n: nat): (k: nat)
    requires 0 < n <= |done|
    ensures k < n
  {
    if n == 1 then 0
    else
      var k := HighestAt(shards, pos, done, n - 1);
      if KeyLess(shards, pos, done[k], done[n - 1]) then n - 1 else k
  }

  lemma HighestAtStep(shards: Shards, pos: seq<int>, done: seq<nat>, n: nat, k: nat)
    requires 0 < n < |done| && k == HighestAt(shards, pos, done, n)
    ensures HighestAt(shards, pos, done, n + 1) == if KeyLess(shards, pos, done[k], done[n]) then n else k
  {
  }

  /** KeyLess of two iterators depends only on their own positions. */
  lemma KeyLessSamePos(shards: Shards, p: seq<int>, q: seq<int>, a: nat, b: nat)
    requires |p| == |q| && a < |p| && b < |p| && p[a] == q[a] && p[b] == q[b]
    ensures KeyLess(shards, p, a, b) == KeyLess(shards, q, a, b)
  {
  }

  /** The member of prev_done the highest loop settles on. */
  function Highest(shards: Shards, pos: seq<int>, done: seq<nat>): (h: nat)
    requires |done| > 0
    ensures h in done
  {
    done[HighestAt(shards, pos, done, |done|)]
  }

  /** Among valid iterators, the highest loop settles on one holding the greatest key. */
  lemma {:induction false} HighestIsGreatest(shards: Shards, pos: seq<int>, done: seq<nat>, n: nat)
    requires 0 < n <= |done| && forall i :: 0 <= i < |done| ==> IsValid(shards, pos, done[i])
    ensures forall i :: 0 <= i < n ==>
              LessEq(KeyOf(shards, pos, done[i]), KeyOf(shards, pos, done[HighestAt(shards, pos, done, n)]))
  {
    if n > 1 {
      HighestIsGreatest(shards, pos, done, n - 1);
      var g := done[HighestAt(shards, pos, done, n - 1)];
      var last := done[n - 1];
      var h := done[HighestAt(shards, pos, done, n)];
      LessTotal(KeyOf(shards, pos, g), KeyOf(shards, pos, last));
      forall i | 0 <= i < n
        ensures LessEq(KeyOf(shards, pos, done[i]), KeyOf(shards, pos, h))
      {
        if i < n - 1 && HighestAt(shards, pos, done, n) == n - 1 {
          LessEqTransitive(KeyOf(shards, pos, done[i]), KeyOf(shards, pos, g), KeyOf(shards, pos, last));
        }
      }
    }
  }

  /** Where x stands in s: its first occurrence. */
  function IndexOf(s: seq<nat>, x: nat): (i: nat)
    requires x in s
    ensures i < |s| && s[i] == x && x !in s[..i]
  {
    if s[0] == x then 0
    else
      var i := IndexOf(s[1..], x);
      assert s[..i + 1] == [s[0]] + s[1..][..i];
      i + 1
  }

  /** s with its j-th element moved to the front, the others keeping their order. */
  function ToFront(s: seq<nat>, j: nat): (r: seq<nat>)
    requires j < |s|
    ensures |r| == |s| && r[0] == s[j]
    ensures forall k :: 0 <= k < j ==> r[k + 1] == s[k]
    ensures forall k :: j < k < |s| ==> r[k] == s[k]
    ensures multiset(r) == multiset(s)
  {
    assert s == s[..j] + [s[j]] + s[j + 1..];
    [s[j]] + s[..j] + s[j + 1..]
  }

  /** pos with every member of done other than h stepped forward once. */
  function Advanced(pos: seq<int>, done: seq<nat>, h: nat): seq<int>
  {
    seq(|pos|, id requires 0 <= id < |pos| => if id in done && id != h then pos[id] + 1 else pos[id])
  }

  lemma AdvancedNone(pos: seq<int>, done: seq<nat>, h: nat)
    requires |done| > 0 && done[0] == h
    ensures Advanced(pos, done[..1], h) == pos
  {
    assert done[..1] == [h];
  }

  /** Before the highest loop's step i, the choice h and the next member done[i] are still where the probe left them. */
  lemma AdvancedUntouched(pos: seq<int>, done: seq<nat>, i: nat, hk: nat, h: nat)
    requires hk < i < |done| && h == done[hk] && h < |pos| && done[i] < |pos| && Distinct(done)
    ensures h in done[..i] && done[i] !in done[..i]
    ensures Advanced(pos, done[..i], h)[h] == pos[h] && Advanced(pos, done[..i], h)[done[i]] == pos[done[i]]
  {
    assert done[..i][hk] == h;
    assert forall k :: 0 <= k < i ==> done[..i][k] != done[i];
  }

  /** The highest loop's step that keeps h and steps the next member forward. */
  lemma AdvancedKeep(pos: seq<int>, done: seq<nat>, i: nat, h: nat)
    requires i < |done| && done[i] < |pos| && done[i] != h && done[i] !in done[..i]
    ensures Advanced(pos, done[..i + 1], h) == Advanced(pos, done[..i], h)[done[i] := pos[done[i]] + 1]
  {
    assert done[..i + 1] == done[..i] + [done[i]];
  }

  /** The highest loop's step that steps h forward and chooses the next member. */
  lemma AdvancedSwitch(pos: seq<int>, done: seq<nat>, i: nat, h: nat)
    requires i < |done| && h < |pos| && h in done[..i] && done[i] !in done[..i]
    ensures Advanced(pos, done[..i + 1], done[i]) == Advanced(pos, done[..i], h)[h := pos[h] + 1]
  {
    assert done[..i + 1] == done[..i] + [done[i]];
  }

  /**
   * The positions prev() leaves. With nobody in prev_done the first
   * iterator, when valid, steps back before its first key; otherwise every
   * member of prev_done except the highest steps forward again.
   */
  function PrevPos(shards: Shards, pos: seq<int>, iters: seq<nat>): seq<int>
    requires |pos| == |shards| && |iters| > 0 && forall i :: 0 <= i < |iters| ==> iters[i] < |shards|
  {
    var pos1 := ProbeAll(shards, pos);
    var done := ProbedIds(shards, pos, iters, |iters|);
    if |done| == 0 then
      (if IsValid(shards, pos1, iters[0]) then pos1[iters[0] := pos1[iters[0]] - 1] else pos1)
    else
      Advanced(pos1, done, Highest(shards, pos1, done))
  }

  /** The vector prev() leaves: the highest moved to the front, the others in their order. */
  function PrevIters(shards: Shards, pos: seq<int>, iters: seq<nat>): (r: seq<nat>)
    requires |pos| == |shards| && |iters| > 0 && forall i :: 0 <= i < |iters| ==> iters[i] < |shards|
    ensures |r| == |iters| && multiset(r) == multiset(iters)
  {
    var done := ProbedIds(shards, pos, iters, |iters|);
    if |done| == 0 then iters
    else ToFront(iters, IndexOf(iters, Highest(shards, ProbeAll(shards, pos), done)))
  }

  /** x sorts before the current key, or the iteration is past its end. */
  predicate BeforeHead(shards: Shards, pos: seq<int>, iters: seq<nat>, x: Bytes)
    requires |iters| > 0
  {
    !IsValid(shards, pos, iters[0]) || Less(x, KeyOf(shards, pos, iters[0]))
  }

  lemma NotLessOfLessEq(a: Bytes, b: Bytes)
    requires LessEq(a, b)
    ensures !Less(b, a)
  {
    if a == b {
      LessIrreflexive(a);
    } else {
      LessAsymmetric(a, b);
    }
  }

  /** In a merged iteration an iterator joins prev_done exactly when it has passed a key. */
  lemma ProbeStarted(keys: seq<Bytes>, p: int)
    requires 0 <= p <= |keys|
    ensures Probed(keys, p) <==> p > 0
    ensures ProbePos(keys, p) == if p > 0 then p - 1 else p
  {
  }

  /** prev() leaves every position between before-the-first and past-the-last key. */
  lemma PrevPlaced(shards: Shards, pos: seq<int>, iters: seq<nat>)
    requires WellPlaced(shards, pos) && |iters| > 0 && forall i :: 0 <= i < |iters| ==> iters[i] < |shards|
    ensures WellPlaced(shards, PrevPos(shards, pos, iters))
  {
    var pos1 := ProbeAll(shards, pos);
    var done := ProbedIds(shards, pos, iters, |iters|);
    assert WellPlaced(shards, pos1);
    if |done| > 0 {
      var pos2 := PrevPos(shards, pos, iters);
      forall id | 0 <= id < |shards|
        ensures -1 <= pos2[id] <= |shards[id]|
      {
        if id in done {
          var i :| 0 <= i < |done| && done[i] == id;
        }
      }
    }
  }

  /**
   * A merged iteration with no key passed: nothing sorts before the
   * current key, and prev() leaves the iteration invalid.
   */
  lemma PrevAtStart(shards: Shards, pos: seq<int>, iters: seq<nat>)
    requires Merged(shards, pos, iters) && AllSorted(shards)
    requires forall i :: 0 <= i < |iters| ==> iters[i] < |shards|
    requires |ProbedIds(shards, pos, iters, |iters|)| == 0
    ensures !IsValid(shards, PrevPos(shards, pos, iters), PrevIters(shards, pos, iters)[0])
    ensures forall x :: InUnion(shards, x) ==> !BeforeHead(shards, pos, iters, x)
  {
    PermutesMembers(|shards|, iters);
    forall id | 0 <= id < |shards|
      ensures pos[id] == 0
    {
      assert id in iters;
      ProbeStarted(shards[id], pos[id]);
    }
    HeadIsLeastAhead(shards, pos, iters);
    forall x | InUnion(shards, x)
      ensures !BeforeHead(shards, pos, iters, x)
    {
      var id :| 0 <= id < |shards| && x in shards[id];
      var j :| 0 <= j < |shards[id]| && shards[id][j] == x;
      assert Ahead(shards, pos, x);
      NotLessOfLessEq(KeyOf(shards, pos, iters[0]), x);
    }
  }

  /**
   * Moving the j-th reference to the front, with a new position for it that
   * precedes every other, keeps a sorted vector sorted.
   */
  lemma FrontOrdered(shards: Shards, pos: seq<int>, iters: seq<nat>, j: nat, h: nat, pos2: seq<int>)
    requires j < |iters| && iters[j] == h && Distinct(iters) && Ordered(shards, pos, iters)
    requires |pos2| == |pos| && forall id :: 0 <= id < |pos| && id != h ==> pos2[id] == pos[id]
    requires forall k :: 0 <= k < |iters| && iters[k] != h ==> Precedes(shards, pos2, h, iters[k])
    ensures Ordered(shards, pos2, ToFront(iters, j))
  {
    var r := ToFront(iters, j);
    forall a, b | 0 <= a < b < |r|
      ensures Precedes(shards, pos2, r[a], r[b])
    {
      var b0 := if b <= j then b - 1 else b;
      assert r[b] == iters[b0] && b0 != j;
      if a > 0 {
        var a0 := if a <= j then a - 1 else a;
        assert r[a] == iters[a0] && a0 != j && a0 < b0;
        assert Precedes(shards, pos, iters[a0], iters[b0]);
      }
    }
  }

  /**
   * A merged iteration that has passed some key: prev() steps the highest
   * member of prev_done back by one and moves it to the front, and that
   * iterator's new key is the greatest key passed.
   */
  lemma PrevStepsBack(shards: Shards, pos: seq<int>, iters: seq<nat>, h: nat)
    requires Merged(shards, pos, iters) && AllSorted(shards)
    requires forall i :: 0 <= i < |iters| ==> iters[i] < |shards|
    requires |ProbedIds(shards, pos, iters, |iters|)| > 0
    requires h == Highest(shards, ProbeAll(shards, pos), ProbedIds(shards, pos, iters, |iters|))
    ensures h in iters && h < |shards| && 0 < pos[h]
    ensures PrevPos(shards, pos, iters) == pos[h := pos[h] - 1]
    ensures PrevIters(shards, pos, iters) == ToFront(iters, IndexOf(iters, h))
    ensures forall id :: 0 <= id < |shards| && 0 < pos[id] ==>
              LessEq(shards[id][pos[id] - 1], shards[h][pos[h] - 1])
  {
    var pos1 := ProbeAll(shards, pos);
    var done := ProbedIds(shards, pos, iters, |iters|);
    PermutesMembers(|shards|, iters);
    forall id | 0 <= id < |shards|
      ensures (Probed(shards[id], pos[id]) <==> pos[id] > 0)
      ensures pos1[id] == if pos[id] > 0 then pos[id] - 1 else pos[id]
    {
      ProbeStarted(shards[id], pos[id]);
    }
    assert h in done;
    forall i | 0 <= i < |done|
      ensures IsValid(shards, pos1, done[i])
    {
    }
    HighestIsGreatest(shards, pos1, done, |done|);
    var pos2 := PrevPos(shards, pos, iters);
    forall id | 0 <= id < |shards|
      ensures pos2[id] == pos[h := pos[h] - 1][id]
    {
      if id in done {
        assert pos[id] > 0;
      } else {
        assert id in iters;
      }
    }
    forall id | 0 <= id < |shards| && 0 < pos[id]
      ensures LessEq(shards[id][pos[id] - 1], shards[h][pos[h] - 1])
    {
      assert id in iters && id in done;
      var i :| 0 <= i < |done| && done[i] == id;
      assert KeyOf(shards, pos1, done[i]) == shards[id][pos[id] - 1];
    }
  }

  /**
   * In a merged iteration the greatest key passed is the greatest stored
   * key before the current one.
   */
  lemma PrevGreatest(shards: Shards, pos: seq<int>, iters: seq<nat>, h: nat)
    requires Merged(shards, pos, iters) && AllSorted(shards)
    requires h < |shards| && 0 < pos[h]
    requires forall id :: 0 <= id < |shards| && 0 < pos[id] ==>
               LessEq(shards[id][pos[id] - 1], shards[h][pos[h] - 1])
    ensures InUnion(shards, shards[h][pos[h] - 1]) && BeforeHead(shards, pos, iters, shards[h][pos[h] - 1])
    ensures forall x :: InUnion(shards, x) && BeforeHead(shards, pos, iters, x) ==> LessEq(x, shards[h][pos[h] - 1])
  {
    var k2 := shards[h][pos[h] - 1];
    assert k2 in shards[h];
    assert Passed(shards, pos, k2);
    HeadIsLeastAhead(shards, pos, iters);
    forall x | InUnion(shards, x) && BeforeHead(shards, pos, iters, x)
      ensures LessEq(x, k2)
    {
      var id :| 0 <= id < |shards| && x in shards[id];
      var j :| 0 <= j < |shards[id]| && shards[id][j] == x;
      if j >= pos[id] {
        assert Ahead(shards, pos, x);
        if IsValid(shards, pos, iters[0]) {
          NotLessOfLessEq(KeyOf(shards, pos, iters[0]), x);
        }
        assert false;
      }
      if j < pos[id] - 1 {
        assert StrictlySorted(shards[id]);
        assert Less(x, shards[id][pos[id] - 1]);
      }
      LessEqTransitive(x, shards[id][pos[id] - 1], k2);
    }
  }

  /** The key stepped back onto precedes every other iterator's key. */
  lemma PrevFrontFirst(shards: Shards, pos: seq<int>, iters: seq<nat>, h: nat, pos2: seq<int>)
    requires Merged(shards, pos, iters) && AllSorted(shards)
    requires h < |shards| && 0 < pos[h] && pos2 == pos[h := pos[h] - 1]
    requires BeforeHead(shards, pos, iters, shards[h][pos[h] - 1])
    ensures forall k :: 0 <= k < |iters| && iters[k] != h ==> Precedes(shards, pos2, h, iters[k])
  {
    var k2 := shards[h][pos[h] - 1];
    HeadIsLeastAhead(shards, pos, iters);
    forall k | 0 <= k < |iters| && iters[k] != h
      ensures Precedes(shards, pos2, h, iters[k])
    {
      var o := iters[k];
      if IsValid(shards, pos, o) {
        assert Ahead(shards, pos, KeyOf(shards, pos, o));
        LessEqTransitive(k2, KeyOf(shards, pos, iters[0]), KeyOf(shards, pos, o));
      }
    }
  }

  /** Every key passed after the step back sorts below the key stepped back onto. */
  lemma PrevPassedBelow(shards: Shards, pos: seq<int>, iters: seq<nat>, h: nat, pos2: seq<int>)
    requires Merged(shards, pos, iters) && AllSorted(shards) && Disjoint(shards)
    requires h < |shards| && 0 < pos[h] && pos2 == pos[h := pos[h] - 1]
    requires forall x :: InUnion(shards, x) && BeforeHead(shards, pos, iters, x) ==> LessEq(x, shards[h][pos[h] - 1])
    ensures forall x :: Passed(shards, pos2, x) ==> Less(x, shards[h][pos[h] - 1])
  {
    var k2 := shards[h][pos[h] - 1];
    forall x | Passed(shards, pos2, x)
      ensures Less(x, k2)
    {
      var id, jj :| 0 <= id < |shards| && id < |pos2| && 0 <= jj < pos2[id] && jj < |shards[id]| && shards[id][jj] == x;
      if id == h {
        assert StrictlySorted(shards[h]);
      } else {
        assert Passed(shards, pos, x);
        assert x in shards[id] && k2 in shards[h];
        assert InUnion(shards, x);
      }
    }
  }

  /**
   * With no key in two shards, stepping the iterator holding the greatest
   * key before the current one back onto it and moving it to the front
   * leaves a merged iteration.
   */
  lemma PrevMerged(shards: Shards, pos: seq<int>, iters: seq<nat>, h: nat)
    requires Merged(shards, pos, iters) && AllSorted(shards) && Disjoint(shards)
    requires forall i :: 0 <= i < |iters| ==> iters[i] < |shards|
    requires h in iters && 0 < pos[h]
    requires BeforeHead(shards, pos, iters, shards[h][pos[h] - 1])
    requires forall x :: InUnion(shards, x) && BeforeHead(shards, pos, iters, x) ==> LessEq(x, shards[h][pos[h] - 1])
    ensures Merged(shards, pos[h := pos[h] - 1], ToFront(iters, IndexOf(iters, h)))
  {
    var j := IndexOf(iters, h);
    var pos2 := pos[h := pos[h] - 1];
    PermutesDistinct(|shards|, iters);
    PrevFrontFirst(shards, pos, iters, h, pos2);
    FrontOrdered(shards, pos, iters, j, h, pos2);
    PrevPassedBelow(shards, pos, iters, h, pos2);
    MergedAfterStepBack(shards, pos, iters, j, h, pos2);
  }

  /** The parts of a merged iteration after the step back, put together. */
  lemma MergedAfterStepBack(shards: Shards, pos: seq<int>, iters: seq<nat>, j: nat, h: nat, pos2: seq<int>)
    requires |shards| > 0 && |iters| == |shards| && WellPlaced(shards, pos) && Started(pos) && Permutes(|shards|, iters)
    requires j < |iters| && iters[j] == h && h < |shards| && 0 < pos[h] && pos2 == pos[h := pos[h] - 1]
    requires Ordered(shards, pos2, ToFront(iters, j))
    requires forall x :: Passed(shards, pos2, x) ==> Less(x, shards[h][pos[h] - 1])
    ensures Merged(shards, pos2, ToFront(iters, j))
  {
    assert Permutes(|shards|, ToFront(iters, j));
  }

  /**
   * prev() in a merged iteration with no key in two shards: the iteration
   * is valid afterwards exactly when some stored key sorts before the
   * current one (any stored key, when it was past its end), and then it is
   * a merged iteration standing on the greatest such key.
   */
  lemma PrevPredecessor(shards: Shards, pos: seq<int>, iters: seq<nat>, pos2: seq<int>, iters2: seq<nat>)
    requires Merged(shards, pos, iters) && AllSorted(shards) && Disjoint(shards)
    requires forall i :: 0 <= i < |iters| ==> iters[i] < |shards|
    requires pos2 == PrevPos(shards, pos, iters) && iters2 == PrevIters(shards, pos, iters)
    ensures |iters2| > 0
    ensures IsValid(shards, pos2, iters2[0]) <==> exists x :: InUnion(shards, x) && BeforeHead(shards, pos, iters, x)
    ensures IsValid(shards, pos2, iters2[0]) ==>
              Merged(shards, pos2, iters2)
              && InUnion(shards, KeyOf(shards, pos2, iters2[0]))
              && BeforeHead(shards, pos, iters, KeyOf(shards, pos2, iters2[0]))
              && forall x :: InUnion(shards, x) && BeforeHead(shards, pos, iters, x) ==>
                   LessEq(x, KeyOf(shards, pos2, iters2[0]))
  {
    var done := ProbedIds(shards, pos, iters, |iters|);
    if |done| == 0 {
      PrevAtStart(shards, pos, iters);
    } else {
      var h := Highest(shards, ProbeAll(shards, pos), done);
      PrevStepsBack(shards, pos, iters, h);
      PrevFound(shards, pos, iters, h, pos2, iters2);
    }
  }

  /** PrevPredecessor when some shard iterator found a predecessor and h holds the greatest. */
  lemma PrevFound(shards: Shards, pos: seq<int>, iters: seq<nat>, h: nat, pos2: seq<int>, iters2: seq<nat>)
    requires Merged(shards, pos, iters) && AllSorted(shards) && Disjoint(shards)
    requires forall i :: 0 <= i < |iters| ==> iters[i] < |shards|
    requires h in iters && h < |shards| && 0 < pos[h]
    requires pos2 == pos[h := pos[h] - 1] && iters2 == ToFront(iters, IndexOf(iters, h))
    requires forall id :: 0 <= id < |shards| && 0 < pos[id] ==>
               LessEq(shards[id][pos[id] - 1], shards[h][pos[h] - 1])
    ensures |iters2| > 0 && IsValid(shards, pos2, iters2[0])
    ensures Merged(shards, pos2, iters2)
    ensures InUnion(shards, KeyOf(shards, pos2, iters2[0]))
    ensures BeforeHead(shards, pos, iters, KeyOf(shards, pos2, iters2[0]))
    ensures forall x :: InUnion(shards, x) && BeforeHead(shards, pos, iters, x) ==>
              LessEq(x, KeyOf(shards, pos2, iters2[0]))
  {
    PrevGreatest(shards, pos, iters, h);
    PrevMerged(shards, pos, iters, h);
    assert iters2[0] == h;
    assert pos2[h] == pos[h] - 1;
    assert KeyOf(shards, pos2, h) == shards[h][pos[h] - 1];
  }


  // ---------------------------------------------------------------------
  // The iterator
  // ---------------------------------------------------------------------

  class ShardMergeIter {
    /** The keys of each shard, fixed for the iterator's lifetime. */
    const shards: Shards
    /** Each shard iterator's position, by shard. */
    var pos: seq<int>
    /** iters: references to the shard iterators, the current one first. */
    var iters: seq<nat>

    ghost predicate Consistent()
      reads this
    {
      |shards| > 0 && |iters| == |shards| && WellPlaced(shards, pos) && AllSorted(shards)
      && Permutes(|shards|, iters) && forall i :: 0 <= i < |iters| ==> iters[i] < |shards|
    }

    /** One iterator per shard, in shard order, none positioned yet. */
    constructor (shardKeys: Shards)
      requires |shardKeys| > 0 && AllSorted(shardKeys)
      ensures Consistent() && shards == shardKeys && iters == Ids(|shardKeys|)
      ensures forall id :: 0 <= id < |shardKeys| ==> pos[id] == |shardKeys[id]|
    {
      shards := shardKeys;
      pos := seq(|shardKeys|, id requires 0 <= id < |shardKeys| => |shardKeys[id]|);
      iters := Ids(|shardKeys|);
    }

    /** valid(): whether the first shard iterator stands on a key. */
    function Valid(): bool
      requires Consistent()
      reads this
    {
      IsValid(shards, pos, iters[0])
    }

    /** key(): the first shard iterator's key. */
    function Key(): Bytes
      requires Consistent() && Valid()
      reads this
    {
      KeyOf(shards, pos, iters[0])
    }

    /**
     * seek_to_first: every shard iterator to its first key, then the vector
     * sorted. The iteration then stands on the least stored key, if any.
     */
    method SeekToFirst() returns (r: int)
      requires Consistent()
      modifies this
      ensures Consistent() && r == 0
      ensures forall id :: 0 <= id < |shards| ==> pos[id] == 0
      ensures multiset(iters) == multiset(old(iters)) && Merged(shards, pos, iters)
      ensures Valid() <==> exists x :: InUnion(shards, x)
      ensures Valid() ==> InUnion(shards, Key()) && forall x :: InUnion(shards, x) ==> LessEq(Key(), x)
    {
      PermutesMembers(|shards|, iters);
      for i := 0 to |iters|
        invariant iters == old(iters) && |pos| == |shards|
        invariant forall id :: 0 <= id < |shards| ==> pos[id] == if id in iters[..i] then 0 else old(pos)[id]
      {
        assert iters[..i + 1] == iters[..i] + [iters[i]] && iters[i] in iters;
        pos := pos[iters[i] := 0];
      }
      assert iters[..|iters|] == iters;
      SortIdsSpec(shards, pos, iters);
      iters := SortIds(shards, pos, iters);
      forall id | 0 <= id < |shards|
        ensures Splits(shards[id], pos[id], [], false)
      {
        FirstSplits(shards[id]);
      }
      SeekedMerged(shards, pos, iters, [], false);
      PermutesMembers(|shards|, iters);
      r := 0;
    }

    /**
     * lower_bound: every shard iterator seeks to its first key at or past
     * to, then the vector is sorted. The iteration then stands on the least
     * stored key at or past to, if any.
     */
    method LowerBound(to: Bytes) returns (r: int)
      requires Consistent()
      modifies this
      ensures Consistent() && r == 0
      ensures forall id :: 0 <= id < |shards| ==> pos[id] == SeekPos(shards[id], to)
      ensures multiset(iters) == multiset(old(iters)) && Merged(shards, pos, iters)
      ensures Valid() <==> exists x :: InUnion(shards, x) && LessEq(to, x)
      ensures Valid() ==>
                InUnion(shards, Key()) && LessEq(to, Key())
                && forall x :: InUnion(shards, x) && LessEq(to, x) ==> LessEq(Key(), x)
    {
      PermutesMembers(|shards|, iters);
      for i := 0 to |iters|
        invariant iters == old(iters) && |pos| == |shards|
        invariant forall id :: 0 <= id < |shards| ==>
                    pos[id] == if id in iters[..i] then SeekPos(shards[id], to) else old(pos)[id]
      {
        assert iters[..i + 1] == iters[..i] + [iters[i]] && iters[i] in iters;
        pos := pos[iters[i] := SeekPos(shards[iters[i]], to)];
      }
      assert iters[..|iters|] == iters;
      SortIdsSpec(shards, pos, iters);
      iters := SortIds(shards, pos, iters);
      forall id | 0 <= id < |shards|
        ensures Splits(shards[id], pos[id], to, false)
      {
        SeekSplits(shards[id], to);
      }
      SeekedMerged(shards, pos, iters, to, false);
      PermutesMembers(|shards|, iters);
      r := 0;
    }

    /**
     * upper_bound: every shard iterator seeks to after and steps once more
     * when it lands on after itself, then the vector is sorted. The
     * iteration then stands on the least stored key past after, if any.
     */
    method UpperBound(after: Bytes) returns (r: int)
      requires Consistent()
      modifies this
      ensures Consistent() && r == 0
      ensures forall id :: 0 <= id < |shards| ==> pos[id] == UpperPos(shards[id], after)
      ensures multiset(iters) == multiset(old(iters)) && Merged(shards, pos, iters)
      ensures Valid() <==> exists x :: InUnion(shards, x) && Less(after, x)
      ensures Valid() ==>
                InUnion(shards, Key()) && Less(after, Key())
                && forall x :: InUnion(shards, x) && Less(after, x) ==> LessEq(Key(), x)
    {
      PermutesMembers(|shards|, iters);
      for i := 0 to |iters|
        invariant iters == old(iters) && |pos| == |shards|
        invariant forall id :: 0 <= id < |shards| ==>
                    pos[id] == if id in iters[..i] then UpperPos(shards[id], after) else old(pos)[id]
      {
        assert iters[..i + 1] == iters[..i] + [iters[i]] && iters[i] in iters;
        var id := iters[i];
        var p := SeekPos(shards[id], after);
        if p < |shards[id]| && shards[id][p] == after {
          p := p + 1;
        }
        pos := pos[id := p];
      }
      assert iters[..|iters|] == iters;
      SortIdsSpec(shards, pos, iters);
      iters := SortIds(shards, pos, iters);
      forall id | 0 <= id < |shards|
        ensures Splits(shards[id], pos[id], after, true)
      {
        UpperSplits(shards[id], after);
      }
      SeekedMerged(shards, pos, iters, after, true);
      PermutesMembers(|shards|, iters);
      r := 0;
    }

    /**
     * seek_to_last: every shard iterator to its last key; then each later
     * iterator is compared with the first, swapped to the front when it is
     * valid and the first is not or has a smaller key, and the one left in
     * its place is stepped past its end. Only the first can stay valid, on
     * the greatest stored key.
     */
    method SeekToLast() returns (r: int)
      requires Consistent()
      modifies this
      ensures Consistent() && r == 0
      ensures multiset(iters) == multiset(old(iters))
      ensures pos[iters[0]] == LastPos(shards[iters[0]])
      ensures forall i :: 1 <= i < |iters| ==> pos[iters[i]] == |shards[iters[i]]|
      ensures Valid() <==> exists x :: InUnion(shards, x)
      ensures Valid() ==> InUnion(shards, Key()) && forall x :: InUnion(shards, x) ==> LessEq(x, Key())
      ensures Disjoint(shards) ==> Merged(shards, pos, iters)
    {
      EachToLast();
      LastScanStarts(shards, pos, iters);
      ScanForLast();
      LastSeeked(shards, pos, iters);
      r := 0;
    }

    /** seek_to_last's first loop: every shard iterator to its last key. */
    method EachToLast()
      requires Consistent()
      modifies this
      ensures Consistent() && iters == old(iters)
      ensures forall id :: 0 <= id < |shards| ==> pos[id] == LastPos(shards[id])
    {
      PermutesMembers(|shards|, iters);
      for i := 0 to |iters|
        invariant iters == old(iters) && |pos| == |shards|
        invariant forall id :: 0 <= id < |shards| ==>
                    pos[id] == if id in iters[..i] then LastPos(shards[id]) else old(pos)[id]
      {
        assert iters[..i + 1] == iters[..i] + [iters[i]] && iters[i] in iters;
        pos := pos[iters[i] := LastPos(shards[iters[i]])];
      }
      assert iters[..|iters|] == iters;
    }

    /** seek_to_last's second loop: the scan for the greatest last key. */
    method ScanForLast()
      requires Consistent() && LastScan(shards, pos, iters, 1)
      modifies this
      ensures Consistent() && LastScan(shards, pos, iters, |iters|)
      ensures multiset(iters) == multiset(old(iters))
    {
      var its, p := iters, pos;
      for i := 1 to |its|
        invariant |its| == |shards| && Permutes(|shards|, its) && LastScan(shards, p, its, i)
        invariant multiset(its) == multiset(iters)
      {
        LastRound(shards, p, its, i);
        p, its := ScanRound(shards, p, its, i);
      }
      LastScanPlaced(shards, p, its);
      iters, pos := its, p;
    }

    /** One round of seek_to_last's scan, on the positions p and the vector its. */
    static method ScanRound(shards: Shards, p: seq<int>, its: seq<nat>, i: nat) returns (p2: seq<int>, its2: seq<nat>)
      requires 0 < i < |its| && |p| == |shards| && forall j :: 0 <= j < |its| ==> its[j] < |shards|
      ensures its2 == LastRoundIters(shards, p, its, i) && p2 == LastRoundPos(shards, p, its, i)
    {
      its2, p2 := its, p;
      if IsValid(shards, p, its[0]) {
        if IsValid(shards, p, its[i]) && KeyLess(shards, p, its[0], its[i]) {
          its2 := SwapFront(its, i);
        }
      } else if IsValid(shards, p, its[i]) {
        its2 := SwapFront(its, i);
      }
      if IsValid(shards, p, its2[i]) {
        p2 := p[its2[i] := p[its2[i]] + 1];
      }
    }

    /**
     * prev(): every shard iterator steps back (see ProbePos), those left on
     * a key form prev_done; with none, the first iterator when valid steps
     * back before its first key. Otherwise the highest of prev_done is
     * chosen, the others step forward again, and the highest is moved to
     * the front. In a merged iteration this is the step to the greatest
     * stored key before the current one.
     */
    method Prev() returns (r: int)
      requires Consistent()
      modifies this
      ensures Consistent() && r == 0
      ensures pos == PrevPos(shards, old(pos), old(iters)) && iters == PrevIters(shards, old(pos), old(iters))
      ensures Merged(shards, old(pos), old(iters)) && Disjoint(shards) ==>
                (Valid() <==> exists x :: InUnion(shards, x) && BeforeHead(shards, old(pos), old(iters), x))
                && (Valid() ==>
                      Merged(shards, pos, iters) && InUnion(shards, Key())
                      && BeforeHead(shards, old(pos), old(iters), Key())
                      && forall x :: InUnion(shards, x) && BeforeHead(shards, old(pos), old(iters), x) ==> LessEq(x, Key()))
    {
      ghost var pos0, iters0 := pos, iters;
      PermutesDistinct(|shards|, iters);
      var done := ProbeEach();
      ghost var pos1 := pos;
      r := 0;
      if |done| == 0 {
        if IsValid(shards, pos, iters[0]) {
          pos := pos[iters[0] := pos[iters[0]] - 1];
        }
        assert pos == PrevPos(shards, pos0, iters0) && iters == PrevIters(shards, pos0, iters0);
      } else {
        ProbedDistinct(shards, pos0, iters0, |iters0|);
        var highest := PickHighest(done);
        Rotate(highest);
        assert highest == Highest(shards, pos1, done);
        assert pos == PrevPos(shards, pos0, iters0) && iters == PrevIters(shards, pos0, iters0);
      }
      PrevPlaced(shards, pos0, iters0);
      PermutesBounded(|shards|, iters);
      if Merged(shards, pos0, iters0) && Disjoint(shards) {
        PrevPredecessor(shards, pos0, iters0, pos, iters);
      }
    }

    /** prev()'s first loop: the probe of every shard iterator, collecting prev_done. */
    method ProbeEach() returns (done: seq<nat>)
      requires Consistent() && Distinct(iters)
      modifies this
      ensures Consistent() && iters == old(iters)
      ensures pos == ProbeAll(shards, old(pos))
      ensures done == ProbedIds(shards, old(pos), iters, |iters|)
    {
      done := [];
      var p := pos;
      for i := 0 to |iters|
        invariant pos == old(pos) && iters == old(iters) && |p| == |shards|
        invariant forall k :: 0 <= k < i ==> p[iters[k]] == ProbePos(shards[iters[k]], pos[iters[k]])
        invariant forall k :: i <= k < |iters| ==> p[iters[k]] == pos[iters[k]]
        invariant done == ProbedIds(shards, pos, iters, i)
      {
        ghost var before := p;
        assert before[iters[i]] == pos[iters[i]];
        ProbedIdsSnoc(shards, pos, iters, i);
        var q, joined := ProbeOne(shards[iters[i]], p[iters[i]]);
        p := p[iters[i] := q];
        ProbeStep(shards, pos, iters, i, before, p);
        if joined {
          done := done + [iters[i]];
        }
      }
      ProbedAllPlaced(shards, pos, iters, p);
      ProbeAllWellPlaced(shards, pos);
      pos := p;
    }

    /**
     * The probe of one shard iterator standing at p over keys: a valid one
     * steps back and, when that leaves its first key, seeks its first key
     * again; an invalid one seeks its last key. It joins prev_done when it
     * stands on a key.
     */
    static method ProbeOne(keys: seq<Bytes>, p: int) returns (q: int, joined: bool)
      ensures q == ProbePos(keys, p) && joined == Probed(keys, p)
      ensures joined ==> 0 <= q < |keys|
    {
      if 0 <= p < |keys| {
        q := p - 1;
        joined := 0 <= q < |keys|;
        if !joined {
          q := 0;
        }
      } else {
        q := LastPos(keys);
        joined := 0 <= q < |keys|;
      }
    }

    /**
     * prev()'s highest loop: each later member of prev_done replaces the
     * choice when the choice is KeyLess than it, and the one not kept steps
     * forward again.
     */
    method PickHighest(done: seq<nat>) returns (highest: nat)
      requires |pos| == |shards| && |done| > 0 && Distinct(done)
      requires forall i :: 0 <= i < |done| ==> done[i] < |shards|
      modifies this
      ensures iters == old(iters)
      ensures highest == Highest(shards, old(pos), done)
      ensures pos == Advanced(old(pos), done, highest)
    {
      highest := done[0];
      ghost var hk := 0;
      var p := pos;
      AdvancedNone(p, done, highest);
      for i := 1 to |done|
        invariant pos == old(pos) && iters == old(iters) && |p| == |pos| == |shards|
        invariant hk == HighestAt(shards, pos, done, i) && highest == done[hk]
        invariant p == Advanced(pos, done[..i], highest)
      {
        var next := done[i];
        AdvancedUntouched(pos, done, i, hk, highest);
        KeyLessSamePos(shards, p, pos, highest, next);
        HighestAtStep(shards, pos, done, i, hk);
        if KeyLess(shards, p, highest, next) {
          AdvancedSwitch(pos, done, i, highest);
          p := p[highest := p[highest] + 1];
          highest := next;
          hk := i;
        } else {
          AdvancedKeep(pos, done, i, highest);
          p := p[next := p[next] + 1];
        }
      }
      assert done[..|done|] == done;
      pos := p;
    }

    /**
     * prev()'s last loop: hold starts as the highest and is swapped with each
     * vector slot in turn until the highest comes back out, which moves the
     * highest to the front and shifts the ones before it up by one.
     */
    method Rotate(highest: nat)
      requires highest in iters
      modifies this
      ensures pos == old(pos)
      ensures iters == ToFront(old(iters), IndexOf(old(iters), highest))
    {
      ghost var its := iters;
      ghost var j := IndexOf(iters, highest);
      assert forall k :: 0 <= k < j ==> its[k] != highest by {
        forall k | 0 <= k < j ensures its[k] != highest {
          assert its[k] == its[..j][k];
        }
      }
      var hold := highest;
      var i := 0;
      // The source bounds the loop by the vector's size; it always stops at the highest first.
      while true
        invariant 0 <= i <= j && pos == old(pos) && |iters| == |its|
        invariant i == 0 ==> hold == highest
        invariant 0 < i ==> hold == its[i - 1] && iters[0] == highest
        invariant forall k :: 0 < k < i ==> iters[k] == its[k - 1]
        invariant forall k :: i <= k < |its| ==> iters[k] == its[k]
        decreases j - i
      {
        var tmp := iters[i];
        iters := iters[i := hold];
        hold := tmp;
        if hold == highest {
          ghost var r := ToFront(its, j);
          assert i == j;
          assert forall k :: 0 <= k < |r| ==> iters[k] == r[k] by {
            forall k | 0 <= k < |r| ensures iters[k] == r[k] {
              if 0 < k <= j {
                assert r[(k - 1) + 1] == its[k - 1];
              }
            }
          }
          break;
        }
        i := i + 1;
      }
    }

    /**
     * next(): when the first shard iterator is valid, step it and bubble it
     * up the vector by adjacent swaps until it is KeyLess than its
     * neighbour; otherwise -1 and nothing changes. A sorted vector stays
     * sorted, and a merged iteration moves to the next stored key.
     */
    method Next() returns (r: int)
      requires Consistent()
      modifies this
      ensures Consistent()
      ensures !old(Valid()) ==> r == -1 && pos == old(pos) && iters == old(iters)
      ensures old(Valid()) ==> r == 0 && pos == old(pos)[old(iters)[0] := old(pos)[old(iters)[0]] + 1]
      ensures multiset(iters) == multiset(old(iters))
      ensures Ordered(shards, old(pos), old(iters)) ==> Ordered(shards, pos, iters)
      ensures old(Valid()) && Merged(shards, old(pos), old(iters)) && Disjoint(shards) ==>
                Merged(shards, pos, iters)
                && (Valid() <==> exists x :: InUnion(shards, x) && Less(old(Key()), x))
                && (Valid() ==>
                      Less(old(Key()), Key())
                      && forall x :: InUnion(shards, x) && Less(old(Key()), x) ==> LessEq(Key(), x))
    {
      var h := iters[0];
      if !IsValid(shards, pos, h) {
        return -1;
      }
      PermutesDistinct(|shards|, iters);
      pos := pos[h := pos[h] + 1];
      r := 0;
      if Ordered(shards, old(pos), iters) {
        forall a, b | 0 < a < b < |iters|
          ensures Precedes(shards, pos, iters[a], iters[b])
        {
          assert Precedes(shards, old(pos), iters[a], iters[b]);
        }
        assert TailOrdered(shards, pos, iters);
      }
      BubbleUp();
      if old(Valid()) && Merged(shards, old(pos), old(iters)) && Disjoint(shards) {
        NextSuccessor(shards, old(pos), old(iters), pos, iters);
      }
    }

    /**
     * next()'s loop: the first iterator moves up by adjacent swaps until it
     * is KeyLess than its neighbour. When the rest of the vector is sorted,
     * the whole vector is sorted afterwards.
     */
    method BubbleUp()
      requires Consistent()
      modifies this
      ensures Consistent() && pos == old(pos)
      ensures multiset(iters) == multiset(old(iters))
      ensures TailOrdered(shards, pos, old(iters)) ==> Ordered(shards, pos, iters)
    {
      var h := iters[0];
      ghost var tailOrdered := TailOrdered(shards, pos, iters);
      var i := 0;
      while i < |iters| - 1
        invariant 0 <= i < |iters| && pos == old(pos)
        invariant multiset(iters) == multiset(old(iters))
        invariant forall j :: 0 <= j < |iters| ==> iters[j] < |shards|
        invariant tailOrdered ==> Bubbling(shards, pos, iters, i)
      {
        if KeyLess(shards, pos, iters[i], iters[i + 1]) {
          break;
        }
        if tailOrdered {
          BubbleStep(shards, pos, iters, i);
        }
        iters := Swap(iters, i);
        i := i + 1;
      }
      if tailOrdered {
        BubbledOrdered(shards, pos, iters, i);
      }
    }
  }

  /** s with the elements at i and i + 1 exchanged. */
  function Swap(s: seq<nat>, i: nat): (r: seq<nat>)
    requires i + 1 < |s|
    ensures |r| == |s| && r[i] == s[i + 1] && r[i + 1] == s[i]
    ensures forall j :: 0 <= j < |s| && j != i && j != i + 1 ==> r[j] == s[j]
    ensures multiset(r) == multiset(s)
  {
    assert s == s[..i] + [s[i], s[i + 1]] + s[i + 2..];
    s[..i] + [s[i + 1], s[i]] + s[i + 2..]
  }
}
