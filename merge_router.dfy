/**
 * Merge-operator dispatch. The store keeps the registered merge operators as
 * an ordered list of (prefix, operator) pairs. The default column family gets
 * one router that picks an operator by key prefix and whose name lists every
 * registration that is not served by a dedicated column family; each
 * dedicated column family gets a linker bound to one operator.
 */
module MergeRouter {
  import opened Bytes
  import opened Wrappers
  import KeyCodec

  /** A KeyValueDB::MergeOperator: its identity and what its name() returns. */
  datatype MergeOperator = MergeOperator(id: nat, name: Bytes)

  /** One set_merge_operator registration. */
  type Registration = (Bytes, MergeOperator)

  /**
   * The call a merge operator's Merge makes on the operator it selected:
   * merge with an existing value, merge_nonexistent without one, or nothing.
   */
  datatype MergeCall =
    | Merge(op: MergeOperator, existing: Bytes, value: Bytes)
    | MergeNonexistent(op: MergeOperator, value: Bytes)
    | NoCall

  /** What Merge returns to the engine, and the call it made. */
  datatype MergeResult = MergeResult(ok: bool, call: MergeCall)

  // ---------------------------------------------------------------------
  // A std::map<string, string> as a list of entries sorted by key
  // ---------------------------------------------------------------------

  type Entries = seq<(Bytes, Bytes)>

  predicate Sorted(a: Entries)
  {
    forall i, j :: 0 <= i < j < |a| ==> Less(a[i].0, a[j].0)
  }

  /** Every key of a sorts after b. */
  predicate Above(b: Bytes, a: Entries)
  {
    forall i :: 0 <= i < |a| ==> Less(b, a[i].0)
  }

  function Lookup(a: Entries, k: Bytes): Option<Bytes>
  {
    if |a| == 0 then None
    else if a[0].0 == k then Some(a[0].1)
    else Lookup(a[1..], k)
  }

  /** names[k] = v: replace the entry for k, or insert it in key order. */
  function Put(a: Entries, k: Bytes, v: Bytes): Entries
  {
    if |a| == 0 then [(k, v)]
    else if a[0].0 == k then [(k, v)] + a[1..]
    else if Less(k, a[0].0) then [(k, v)] + a
    else [a[0]] + Put(a[1..], k, v)
  }

  /** names.erase(k) for every k in ks. */
  function Without(a: Entries, ks: set<Bytes>): Entries
  {
    if |a| == 0 then []
    else if a[0].0 in ks then Without(a[1..], ks)
    else [a[0]] + Without(a[1..], ks)
  }

  lemma {:induction false} PutLookup(a: Entries, k: Bytes, v: Bytes, x: Bytes)
    ensures Lookup(Put(a, k, v), x) == if x == k then Some(v) else Lookup(a, x)
    decreases |a|
  {
    if |a| > 0 && a[0].0 != k && !Less(k, a[0].0) {
      PutLookup(a[1..], k, v, x);
    }
  }

  lemma {:induction false} PutAbove(a: Entries, k: Bytes, v: Bytes, b: Bytes)
    requires Above(b, a) && Less(b, k)
    ensures Above(b, Put(a, k, v))
    decreases |a|
  {
    if |a| > 0 && a[0].0 != k && !Less(k, a[0].0) {
      PutAbove(a[1..], k, v, b);
    }
  }

  /** A list whose head sorts below every later key, and whose tail is sorted, is sorted. */
  lemma ConsSorted(e: (Bytes, Bytes), a: Entries)
    requires Above(e.0, a) && Sorted(a)
    ensures Sorted([e] + a)
  {
    var r := [e] + a;
    forall i, j | 0 <= i < j < |r|
      ensures Less(r[i].0, r[j].0)
    {
      if i > 0 {
        assert r[i] == a[i - 1] && r[j] == a[j - 1];
      } else {
        assert r[j] == a[j - 1];
      }
    }
  }

  lemma {:induction false} PutSorted(a: Entries, k: Bytes, v: Bytes)
    requires Sorted(a)
    ensures Sorted(Put(a, k, v))
    decreases |a|
  {
    if |a| == 0 {
    } else if a[0].0 == k {
      assert Above(k, a[1..]);
      ConsSorted((k, v), a[1..]);
    } else if Less(k, a[0].0) {
      forall i | 0 <= i < |a|
        ensures Less(k, a[i].0)
      {
        if i > 0 {
          LessTransitive(k, a[0].0, a[i].0);
        }
      }
      ConsSorted((k, v), a);
    } else {
      LessTotal(k, a[0].0);
      assert Above(a[0].0, a[1..]);
      PutAbove(a[1..], k, v, a[0].0);
      PutSorted(a[1..], k, v);
      ConsSorted(a[0], Put(a[1..], k, v));
    }
  }

  lemma {:induction false} WithoutLookup(a: Entries, ks: set<Bytes>, x: Bytes)
    ensures Lookup(Without(a, ks), x) == if x in ks then None else Lookup(a, x)
    decreases |a|
  {
    if |a| > 0 {
      WithoutLookup(a[1..], ks, x);
    }
  }

  lemma {:induction false} WithoutAbove(a: Entries, ks: set<Bytes>, b: Bytes)
    requires Above(b, a)
    ensures Above(b, Without(a, ks))
    decreases |a|
  {
    if |a| > 0 {
      WithoutAbove(a[1..], ks, b);
    }
  }

  lemma {:induction false} WithoutSorted(a: Entries, ks: set<Bytes>)
    requires Sorted(a)
    ensures Sorted(Without(a, ks))
    decreases |a|
  {
    if |a| > 0 {
      WithoutSorted(a[1..], ks);
      if a[0].0 !in ks {
        assert Above(a[0].0, a[1..]);
        WithoutAbove(a[1..], ks, a[0].0);
        ConsSorted(a[0], Without(a[1..], ks));
      }
    }
  }

  /** A sorted list holds no entry for a key below its first key. */
  lemma {:induction false} LookupBelow(a: Entries, k: Bytes)
    requires Sorted(a) && |a| > 0 && Less(k, a[0].0)
    ensures Lookup(a, k) == None
    decreases |a|
  {
    LessIrreflexive(k);
    if |a| > 1 {
      LessTransitive(k, a[0].0, a[1].0);
      LookupBelow(a[1..], k);
    }
  }

  /** A key a sorted list maps is one of its entries' keys. */
  lemma {:induction false} LookupFound(a: Entries, k: Bytes) returns (i: nat)
    requires Lookup(a, k).Some?
    ensures i < |a| && a[i] == (k, Lookup(a, k).value)
    decreases |a|
  {
    if a[0].0 == k {
      i := 0;
    } else {
      var j := LookupFound(a[1..], k);
      i := j + 1;
    }
  }

  /** Two sorted lists that map every key alike are the same list: a std::map has one order. */
  lemma {:induction false} SortedUnique(a: Entries, b: Entries)
    requires Sorted(a) && Sorted(b)
    requires forall k :: Lookup(a, k) == Lookup(b, k)
    ensures a == b
    decreases |a|
  {
    if |a| == 0 && |b| > 0 {
      LookupHead(b);
      assert false;
    } else if |a| > 0 && |b| == 0 {
      LookupHead(a);
      assert false;
    } else if |a| > 0 {
      if a[0].0 != b[0].0 {
        LessTotal(a[0].0, b[0].0);
        if Less(a[0].0, b[0].0) {
          LookupBelow(b, a[0].0);
        } else {
          LookupBelow(a, b[0].0);
        }
      } else {
        assert Lookup(a, a[0].0) == Lookup(b, b[0].0);
        forall k
          ensures Lookup(a[1..], k) == Lookup(b[1..], k)
        {
          if k == a[0].0 {
            assert Above(k, a[1..]) && Above(k, b[1..]);
            LookupNone(a[1..], k);
            LookupNone(b[1..], k);
          } else {
            assert Lookup(a, k) == Lookup(a[1..], k) && Lookup(b, k) == Lookup(b[1..], k);
          }
        }
        SortedUnique(a[1..], b[1..]);
      }
    }
  }

  lemma LookupHead(a: Entries)
    requires |a| > 0
    ensures Lookup(a, a[0].0) == Some(a[0].1)
  {
  }

  lemma LookupNone(a: Entries, k: Bytes)
    requires Above(k, a)
    ensures Lookup(a, k) == None
  {
    if Lookup(a, k).Some? {
      var i := LookupFound(a, k);
      LessIrreflexive(k);
    }
  }

  // ---------------------------------------------------------------------
  // Registrations
  // ---------------------------------------------------------------------

  /** The operator of the last registration for prefix, if any. */
  function LastMatch(ops: seq<Registration>, prefix: Bytes): Option<MergeOperator>
  {
    if |ops| == 0 then None
    else if ops[|ops| - 1].0 == prefix then Some(ops[|ops| - 1].1)
    else LastMatch(ops[..|ops| - 1], prefix)
  }

  /** LastMatch finds the registration for prefix that no later registration overrides. */
  lemma {:induction false} LastMatchSpec(ops: seq<Registration>, prefix: Bytes)
    ensures LastMatch(ops, prefix).None? <==> forall i :: 0 <= i < |ops| ==> ops[i].0 != prefix
    ensures LastMatch(ops, prefix).Some? ==>
      exists i :: 0 <= i < |ops| && ops[i] == (prefix, LastMatch(ops, prefix).value) &&
                  (forall j :: i < j < |ops| ==> ops[j].0 != prefix)
    decreases |ops|
  {
    if |ops| > 0 && ops[|ops| - 1].0 != prefix {
      var init := ops[..|ops| - 1];
      LastMatchSpec(init, prefix);
      assert forall i :: 0 <= i < |init| ==> init[i] == ops[i];
    }
  }

  /** Names(ops): the map filled by `names[p.first] = p.second->name()` over the registrations. */
  function Names(ops: seq<Registration>): Entries
  {
    if |ops| == 0 then []
    else Put(Names(ops[..|ops| - 1]), ops[|ops| - 1].0, ops[|ops| - 1].1.name)
  }

  function NameOf(op: Option<MergeOperator>): Option<Bytes>
  {
    if op.Some? then Some(op.value.name) else None
  }

  lemma {:induction false} NamesSpec(ops: seq<Registration>)
    ensures Sorted(Names(ops))
    ensures forall p :: Lookup(Names(ops), p) == NameOf(LastMatch(ops, p))
    decreases |ops|
  {
    if |ops| > 0 {
      var init := ops[..|ops| - 1];
      var last := ops[|ops| - 1];
      NamesSpec(init);
      PutSorted(Names(init), last.0, last.1.name);
      forall p
        ensures Lookup(Names(ops), p) == NameOf(LastMatch(ops, p))
      {
        PutLookup(Names(init), last.0, last.1.name, p);
      }
    }
  }

  /** The router's entries: the registrations whose prefix has no column family of its own. */
  function RouterEntries(ops: seq<Registration>, cfs: set<Bytes>): Entries
  {
    Without(Names(ops), cfs)
  }

  /** `.prefix:name` for each entry, in order. */
  function Render(a: Entries): Bytes
  {
    if |a| == 0 then []
    else ['.'] + a[0].0 + [':'] + a[0].1 + Render(a[1..])
  }

  /**
   * MergeOperatorRouter::Name: the rendering of the router's entries; the
   * store also keeps it as assoc_name.
   */
  function RouterName(ops: seq<Registration>, cfs: set<Bytes>): Bytes
  {
    Render(RouterEntries(ops, cfs))
  }

  /**
   * The router's entries are sorted by prefix, skip every prefix served by a
   * column family, and give every other prefix the name of its last
   * registration.
   */
  lemma RouterEntriesSpec(ops: seq<Registration>, cfs: set<Bytes>)
    ensures Sorted(RouterEntries(ops, cfs))
    ensures forall p :: Lookup(RouterEntries(ops, cfs), p) ==
                        if p in cfs then None else NameOf(LastMatch(ops, p))
  {
    NamesSpec(ops);
    WithoutSorted(Names(ops), cfs);
    forall p
      ensures Lookup(RouterEntries(ops, cfs), p) == if p in cfs then None else NameOf(LastMatch(ops, p))
    {
      WithoutLookup(Names(ops), cfs, p);
    }
  }

  /** The router's name depends only on which operator each prefix last registered. */
  lemma RouterNameByLastMatch(ops1: seq<Registration>, ops2: seq<Registration>, cfs: set<Bytes>)
    requires forall p :: LastMatch(ops1, p) == LastMatch(ops2, p)
    ensures RouterName(ops1, cfs) == RouterName(ops2, cfs)
  {
    RouterEntriesSpec(ops1, cfs);
    RouterEntriesSpec(ops2, cfs);
    SortedUnique(RouterEntries(ops1, cfs), RouterEntries(ops2, cfs));
  }

  /** Each prefix is registered at most once. */
  predicate DistinctPrefixes(ops: seq<Registration>)
  {
    forall i, j :: 0 <= i < j < |ops| ==> ops[i].0 != ops[j].0
  }

  /** Without repeated prefixes, the last registration of a prefix is its only one. */
  lemma DistinctLastMatch(ops: seq<Registration>, p: Bytes)
    requires DistinctPrefixes(ops)
    ensures forall op :: LastMatch(ops, p) == Some(op) <==> (p, op) in ops
  {
    LastMatchSpec(ops, p);
  }

  /**
   * set_merge_operator may be called in any order: registering the same
   * operators, one per prefix, in another order gives the same router name.
   */
  lemma RouterNameOrderFree(ops1: seq<Registration>, ops2: seq<Registration>, cfs: set<Bytes>)
    requires DistinctPrefixes(ops1) && DistinctPrefixes(ops2)
    requires multiset(ops1) == multiset(ops2)
    ensures RouterName(ops1, cfs) == RouterName(ops2, cfs)
  {
    forall p
      ensures LastMatch(ops1, p) == LastMatch(ops2, p)
    {
      DistinctLastMatch(ops1, p);
      DistinctLastMatch(ops2, p);
      assert forall r :: r in ops1 <==> r in ops2 by {
        forall r
          ensures r in ops1 <==> r in ops2
        {
          assert r in multiset(ops1) <==> r in multiset(ops2);
        }
      }
      if LastMatch(ops1, p).Some? {
        assert (p, LastMatch(ops1, p).value) in ops2;
      }
    }
    RouterNameByLastMatch(ops1, ops2, cfs);
  }

  // ---------------------------------------------------------------------
  // Merge
  // ---------------------------------------------------------------------

  /** The index of the first registration whose prefix the key carries, or |ops|. */
  function FirstMatch(ops: seq<Registration>, key: Bytes): (i: nat)
    ensures i <= |ops|
    ensures forall j :: 0 <= j < i ==> !KeyCodec.RawKeyIsPrefixed(key, ops[j].0)
    ensures i < |ops| ==> KeyCodec.RawKeyIsPrefixed(key, ops[i].0)
  {
    if |ops| == 0 then 0
    else if KeyCodec.RawKeyIsPrefixed(key, ops[0].0) then 0
    else 1 + FirstMatch(ops[1..], key)
  }

  /** MergeOperatorLinker::Merge: always the bound operator. */
  function LinkerMerge(op: MergeOperator, existing: Option<Bytes>, value: Bytes): (r: MergeResult)
    ensures r.ok && r.call != NoCall && r.call.op == op
    ensures r.call.Merge? <==> existing.Some?
    ensures r.call.Merge? ==> r.call.existing == existing.value && r.call.value == value
    ensures r.call.MergeNonexistent? ==> r.call.value == value
  {
    if existing.Some? then MergeResult(true, Merge(op, existing.value, value))
    else MergeResult(true, MergeNonexistent(op, value))
  }

  /**
   * MergeOperatorRouter::Merge: the first registration whose prefix is
   * followed by NUL in the key handles the merge, as its linker would; with
   * no such registration nothing is called; the result is true either way.
   */
  function RouterMerge(ops: seq<Registration>, key: Bytes, existing: Option<Bytes>, value: Bytes): (r: MergeResult)
    ensures r.ok
    ensures r.call == NoCall <==> forall j :: 0 <= j < |ops| ==> !KeyCodec.RawKeyIsPrefixed(key, ops[j].0)
    ensures r.call != NoCall ==>
      exists i :: 0 <= i < |ops| && KeyCodec.RawKeyIsPrefixed(key, ops[i].0) &&
                  (forall j :: 0 <= j < i ==> !KeyCodec.RawKeyIsPrefixed(key, ops[j].0)) &&
                  r == LinkerMerge(ops[i].1, existing, value)
  {
    var i := FirstMatch(ops, key);
    if i == |ops| then MergeResult(true, NoCall)
    else LinkerMerge(ops[i].1, existing, value)
  }

  /**
   * The router takes the first registration of a prefix while a column
   * family's linker (install_cf_mergeop) takes the last: with two operators
   * registered for one prefix they pick different ones.
   */
  lemma FirstVersusLast(p: Bytes, a: MergeOperator, b: MergeOperator, key: Bytes, value: Bytes)
    requires KeyCodec.RawKeyIsPrefixed(key, p)
    ensures RouterMerge([(p, a), (p, b)], key, None, value).call.op == a
    ensures LastMatch([(p, a), (p, b)], p) == Some(b)
  {
    assert FirstMatch([(p, a), (p, b)], key) == 0;
  }
}
