/**
 * The queue of asynchronous compaction requests. A request is a key range
 * [start, end], both ends included as the engine's range compaction takes
 * them. A new request is coalesced with the first queued range it touches;
 * the coalescing is deliberately partial (only the first touching range is
 * considered). The pair ("", "") is the whole-database request: the
 * compaction thread compacts everything for it.
 */
module CompactQueue {
  import opened Bytes

  type Range = (Bytes, Bytes)

  /** k lies in r. */
  predicate InRange(r: Range, k: Bytes)
  {
    LessEq(r.0, k) && LessEq(k, r.1)
  }

  /** The whole-database request ("", ""). */
  predicate Whole(r: Range)
  {
    r.0 == [] && r.1 == []
  }

  /** Compacting r compacts k: r is the whole-database request or holds k. */
  predicate Compacts(r: Range, k: Bytes)
  {
    Whole(r) || InRange(r, k)
  }

  /** Some queued request compacts k. */
  predicate Covers(q: seq<Range>, k: Bytes)
  {
    exists i :: 0 <= i < |q| && Compacts(q[i], k)
  }

  /** Some queued range, read as a key range, holds k. */
  predicate InSome(q: seq<Range>, k: Bytes)
  {
    exists i :: 0 <= i < |q| && InRange(q[i], k)
  }

  /** No queued request is the whole-database one. */
  predicate NoWhole(q: seq<Range>)
  {
    forall i :: 0 <= i < |q| ==> !Whole(q[i])
  }

  /** Every queued range has its start no later than its end. */
  predicate WellFormed(q: seq<Range>)
  {
    forall i :: 0 <= i < |q| ==> LessEq(q[i].0, q[i].1)
  }

  /** The new request's start lies inside r: r's start is within [start, end]. */
  predicate CrossesStart(r: Range, start: Bytes, end: Bytes)
  {
    LessEq(start, r.0) && LessEq(r.0, end)
  }

  /** The new request holds r's end. */
  predicate CrossesEnd(r: Range, start: Bytes, end: Bytes)
  {
    LessEq(start, r.1) && LessEq(r.1, end)
  }

  /** A queued range at which the scan stops: the same range, or one the request crosses. */
  predicate Hit(r: Range, start: Bytes, end: Bytes)
  {
    r == (start, end) || CrossesStart(r, start, end) || CrossesEnd(r, start, end)
  }

  /** The position where the scan stops, or |q| when it runs off the end. */
  function FirstHit(q: seq<Range>, start: Bytes, end: Bytes): (i: nat)
    ensures i <= |q|
    ensures forall j :: 0 <= j < i ==> !Hit(q[j], start, end)
    ensures i < |q| ==> Hit(q[i], start, end)
  {
    if |q| == 0 then 0
    else if Hit(q[0], start, end) then 0
    else 1 + FirstHit(q[1..], start, end)
  }

  /** `end > p->second ? end : p->second` */
  function Later(a: Bytes, b: Bytes): Bytes
  {
    if Less(b, a) then a else b
  }

  /** q without its i-th range. */
  function Remove(q: seq<Range>, i: nat): seq<Range>
    requires i < |q|
  {
    q[..i] + q[i + 1..]
  }

  /**
   * The queue after compact_range_async(start, end): unchanged when the scan
   * stops at the same range; with the range it stops at removed and their
   * union appended when the request crosses it; with the request appended
   * when nothing is touched.
   */
  function Enqueue(q: seq<Range>, start: Bytes, end: Bytes): (r: seq<Range>)
    ensures |r| == |q| || |r| == |q| + 1
  {
    var i := FirstHit(q, start, end);
    if i == |q| then q + [(start, end)]
    else if q[i] == (start, end) then q
    else if CrossesStart(q[i], start, end) then Remove(q, i) + [(start, Later(end, q[i].1))]
    else Remove(q, i) + [(q[i].0, end)]
  }

  /** The queue grows only when the request touches no queued range, and then by exactly the request. */
  lemma EnqueueGrows(q: seq<Range>, start: Bytes, end: Bytes)
    ensures |Enqueue(q, start, end)| == |q| + 1 <==> forall j :: 0 <= j < |q| ==> !Hit(q[j], start, end)
    ensures |Enqueue(q, start, end)| == |q| + 1 ==> Enqueue(q, start, end) == q + [(start, end)]
  {
  }

  /** A request equal to the first range the scan meets changes nothing. */
  lemma DuplicateIsNoOp(q: seq<Range>, i: nat, start: Bytes, end: Bytes)
    requires i < |q| && q[i] == (start, end)
    requires forall j :: 0 <= j < i ==> !Hit(q[j], start, end)
    ensures Enqueue(q, start, end) == q
  {
  }

  /**
   * An exact duplicate of a queued range is queued a second time when an
   * earlier range is crossed first. From the empty queue, the requests
   * [b, bb], [c, c2] and [bb, d] leave [c, c2] ahead of [b, d]; the request
   * [b, d] then crosses [c, c2] first and leaves [b, d] twice in the queue.
   */
  lemma DuplicateAfterCrossing()
    ensures Enqueue(Enqueue(Enqueue(Enqueue([], "b", "bb"), "c", "c2"), "bb", "d"), "b", "d")
            == [("b", "d"), ("b", "d")]
  {
    var q1 := Enqueue([], "b", "bb");
    assert q1 == [("b", "bb")];
    assert Less("bb", "c") && Less("b", "c");
    assert !Hit(("b", "bb"), "c", "c2");
    var q2 := Enqueue(q1, "c", "c2");
    assert q2 == [("b", "bb"), ("c", "c2")];
    assert Less("b", "bb") && Less("bb", "d") && Less("c", "d") && Less("c2", "d");
    assert CrossesEnd(("b", "bb"), "bb", "d") && !CrossesStart(("b", "bb"), "bb", "d");
    var q3 := Enqueue(q2, "bb", "d");
    assert q3 == [("c", "c2"), ("b", "d")];
    assert CrossesStart(("c", "c2"), "b", "d");
    assert Enqueue(q3, "b", "d") == [("b", "d"), ("b", "d")];
  }

  /**
   * A whole-database request is absorbed by a queued range that starts at
   * "": enqueueing ("", "") behind ("", "x") leaves only ("", "x"), which
   * does not compact "y".
   */
  lemma WholeRequestLost()
    ensures Enqueue([([], "x")], [], []) == [([], "x")]
    ensures Compacts(([], []), "y") && !Covers(Enqueue([([], "x")], [], []), "y")
  {
    var q: seq<Range> := [([], "x")];
    assert CrossesStart(q[0], [], []);
    assert Less("x", "y");
    assert !InRange(q[0], "y");
  }

  /**
   * A queued whole-database compaction shrinks: the request ("", "x")
   * crosses the queued ("", "") and replaces it by ("", "x").
   */
  lemma QueuedWholeShrinks()
    ensures Enqueue([([], [])], [], "x") == [([], "x")]
    ensures Covers([([], [])], "y") && !Covers(Enqueue([([], [])], [], "x"), "y")
  {
    var q: seq<Range> := [([], [])];
    assert Whole(q[0]);
    assert CrossesStart(q[0], [], "x");
    assert Less("x", "y");
    assert !InRange(([], "x"), "y");
  }

  /** Without the whole-database request, a queue compacts exactly the keys its ranges hold. */
  lemma CoversInSome(q: seq<Range>, k: Bytes)
    requires NoWhole(q)
    ensures Covers(q, k) <==> InSome(q, k)
  {
    if Covers(q, k) {
      var i :| 0 <= i < |q| && Compacts(q[i], k);
      assert InRange(q[i], k);
    }
    if InSome(q, k) {
      var i :| 0 <= i < |q| && InRange(q[i], k);
      assert Compacts(q[i], k);
    }
  }

  lemma CoversRemove(q: seq<Range>, i: nat, k: Bytes)
    requires i < |q|
    ensures InSome(q, k) <==> InSome(Remove(q, i), k) || InRange(q[i], k)
  {
    var rest := Remove(q, i);
    assert forall j :: 0 <= j < i ==> rest[j] == q[j];
    assert forall j :: i < j < |q| ==> rest[j - 1] == q[j];
    if InSome(q, k) {
      var j :| 0 <= j < |q| && InRange(q[j], k);
      if j < i {
        assert InRange(rest[j], k);
      } else if j > i {
        assert InRange(rest[j - 1], k);
      }
    }
    if InSome(rest, k) {
      var j :| 0 <= j < |rest| && InRange(rest[j], k);
      if j < i {
        assert InRange(q[j], k);
      } else {
        assert rest[j] == q[j + 1];
      }
    }
  }

  lemma CoversAppend(q: seq<Range>, r: Range, k: Bytes)
    ensures InSome(q + [r], k) <==> InSome(q, k) || InRange(r, k)
  {
    var q' := q + [r];
    if InSome(q', k) {
      var j :| 0 <= j < |q'| && InRange(q'[j], k);
      if j < |q| {
        assert InRange(q[j], k);
      }
    }
    if InSome(q, k) {
      var j :| 0 <= j < |q| && InRange(q[j], k);
      assert InRange(q'[j], k);
    }
    assert q'[|q|] == r;
  }

  /** The union of the request and a range whose start it holds is [start, the later end]. */
  lemma UnionCrossingStart(start: Bytes, end: Bytes, r: Range, k: Bytes)
    requires CrossesStart(r, start, end)
    ensures InRange((start, Later(end, r.1)), k) <==> InRange((start, end), k) || InRange(r, k)
  {
    LessTotal(r.1, end);
    LessTotal(k, end);
    if InRange((start, Later(end, r.1)), k) && !InRange((start, end), k) {
      // k is past end, so past r's start as well.
      LessEqTransitive(r.0, end, k);
    }
    if InRange(r, k) {
      LessEqTransitive(start, r.0, k);
      if !Less(r.1, end) {
        assert Later(end, r.1) == r.1;
      } else {
        LessEqTransitive(k, r.1, end);
      }
    }
    if InRange((start, end), k) && Less(end, r.1) {
      LessEqTransitive(k, end, r.1);
    }
  }

  /**
   * The union of the request and a well-formed range whose end it holds but
   * whose start it does not is [that range's start, end].
   */
  lemma UnionCrossingEnd(start: Bytes, end: Bytes, r: Range, k: Bytes)
    requires LessEq(r.0, r.1) && CrossesEnd(r, start, end) && !CrossesStart(r, start, end)
    ensures InRange((r.0, end), k) <==> InRange((start, end), k) || InRange(r, k)
  {
    LessEqTransitive(r.0, r.1, end);
    // r's start lies before the request's start.
    LessTotal(start, r.0);
    assert Less(r.0, start);
    LessTotal(k, start);
    if InRange((r.0, end), k) && !InRange((start, end), k) {
      if start != r.1 {
        LessTransitive(k, start, r.1);
      }
    }
    if InRange((start, end), k) {
      LessEqTransitive(r.0, start, k);
    }
    if InRange(r, k) {
      LessEqTransitive(k, r.1, end);
    }
  }

  /**
   * Coalescing key ranges loses and invents nothing: when every queued range
   * is well formed, a key lies in a range after the call exactly when it did
   * before or lies in the request.
   */
  lemma EnqueueInSome(q: seq<Range>, start: Bytes, end: Bytes, k: Bytes)
    requires WellFormed(q)
    ensures InSome(Enqueue(q, start, end), k) <==> InSome(q, k) || InRange((start, end), k)
  {
    var i := FirstHit(q, start, end);
    if i == |q| {
      CoversAppend(q, (start, end), k);
    } else if q[i] == (start, end) {
      assert InRange((start, end), k) ==> InRange(q[i], k);
    } else if CrossesStart(q[i], start, end) {
      CoversRemove(q, i, k);
      CoversAppend(Remove(q, i), (start, Later(end, q[i].1)), k);
      UnionCrossingStart(start, end, q[i], k);
    } else {
      CoversRemove(q, i, k);
      CoversAppend(Remove(q, i), (q[i].0, end), k);
      UnionCrossingEnd(start, end, q[i], k);
    }
  }

  /**
   * Away from the whole-database request, coalescing loses and invents no
   * work: when every queued range is well formed and neither the queue nor
   * the request is ("", ""), the new queue holds no ("", "") either, and a key
   * is compacted by it exactly when the old queue or the request compacts it.
   */
  lemma EnqueueCovers(q: seq<Range>, start: Bytes, end: Bytes, k: Bytes)
    requires WellFormed(q) && NoWhole(q) && !Whole((start, end))
    ensures NoWhole(Enqueue(q, start, end))
    ensures Covers(Enqueue(q, start, end), k) <==> Covers(q, k) || Compacts((start, end), k)
  {
    EnqueueNoWhole(q, start, end);
    EnqueueInSome(q, start, end, k);
    CoversInSome(q, k);
    CoversInSome(Enqueue(q, start, end), k);
  }

  /** Coalescing never makes the whole-database request out of ordinary ranges. */
  lemma EnqueueNoWhole(q: seq<Range>, start: Bytes, end: Bytes)
    requires WellFormed(q) && NoWhole(q) && !Whole((start, end))
    ensures NoWhole(Enqueue(q, start, end))
  {
    var i := FirstHit(q, start, end);
    if i < |q| && q[i] != (start, end) {
      var rest := Remove(q, i);
      assert forall j :: 0 <= j < i ==> rest[j] == q[j];
      assert forall j :: i <= j < |rest| ==> rest[j] == q[j + 1];
      if CrossesStart(q[i], start, end) {
        // Later(end, _) is never below end, and only "" is not above "".
        assert !Less(end, []);
        assert !Whole((start, Later(end, q[i].1)));
      } else {
        // q[i] starts at or before its end, which is at most end.
        assert !Less(q[i].1, []);
        assert !Whole((q[i].0, end));
      }
      assert Enqueue(q, start, end) == rest + [if CrossesStart(q[i], start, end) then (start, Later(end, q[i].1)) else (q[i].0, end)];
    }
  }

  /** A well-formed request keeps a well-formed queue well formed. */
  lemma EnqueueWellFormed(q: seq<Range>, start: Bytes, end: Bytes)
    requires WellFormed(q) && LessEq(start, end)
    ensures WellFormed(Enqueue(q, start, end))
  {
    var i := FirstHit(q, start, end);
    if i < |q| && q[i] != (start, end) {
      var rest := Remove(q, i);
      assert forall j :: 0 <= j < i ==> rest[j] == q[j];
      assert forall j :: i <= j < |rest| ==> rest[j] == q[j + 1];
      var last: Range := if CrossesStart(q[i], start, end) then (start, Later(end, q[i].1)) else (q[i].0, end);
      if CrossesStart(q[i], start, end) {
        LessTotal(q[i].1, end);
        if Less(end, q[i].1) {
          LessEqTransitive(start, end, q[i].1);
        }
      } else {
        LessEqTransitive(q[i].0, q[i].1, end);
      }
      assert LessEq(last.0, last.1);
      assert Enqueue(q, start, end) == rest + [last];
    }
  }
}
