/**
 * The physical key layout of the default column family: a logical key
 * (prefix, key) is stored as `prefix NUL key`. Keys routed to a dedicated
 * column family are stored as the bare key.
 */
module KeyCodec {
  import opened Bytes
  import opened Wrappers
  import Errno

  const ONE: Byte := 1 as char

  /** combine_strings: `prefix NUL key`. */
  function CombineStrings(prefix: Bytes, key: Bytes): Bytes
  {
    prefix + [NUL] + key
  }

  /** memchr(in, 0, size): the index of the first NUL byte, or |s| when there is none. */
  function FirstNul(s: Bytes): (i: nat)
    ensures i <= |s|
    ensures forall j :: 0 <= j < i ==> s[j] != NUL
    ensures i < |s| ==> s[i] == NUL
  {
    if |s| == 0 then 0
    else if s[0] == NUL then 0
    else 1 + FirstNul(s[1..])
  }

  /**
   * split_key: the bytes before the first NUL are the prefix, the bytes after
   * it the key; a slice without a NUL is -EINVAL. A NUL in the last position
   * gives an empty key.
   */
  function SplitKey(s: Bytes): (r: Result<(Bytes, Bytes)>)
    ensures r.Err? <==> NUL !in s
    ensures r.Err? ==> r.code == -Errno.EINVAL
    ensures r.Ok? ==> NUL !in r.value.0 && s == CombineStrings(r.value.0, r.value.1)
  {
    var i := FirstNul(s);
    if i == |s| then
      Err(-Errno.EINVAL)
    else
      assert s == s[..i] + [NUL] + s[i + 1..];
      Ok((s[..i], s[i + 1..]))
  }

  /** past_prefix: the prefix followed by byte 0x01. */
  function PastPrefix(prefix: Bytes): (limit: Bytes)
    ensures |limit| == |prefix| + 1 && limit[..|prefix|] == prefix && limit[|prefix|] == ONE
  {
    prefix + [ONE]
  }

  /** raw_key_is_prefixed: the raw key starts with `prefix NUL`. */
  predicate RawKeyIsPrefixed(raw: Bytes, prefix: Bytes)
  {
    |raw| > |prefix| && raw[|prefix|] == NUL && raw[..|prefix|] == prefix
  }

  /** Splitting a combined key gives back its parts whenever the prefix has no NUL. */
  lemma SplitCombine(prefix: Bytes, key: Bytes)
    requires NUL !in prefix
    ensures SplitKey(CombineStrings(prefix, key)) == Ok((prefix, key))
  {
    var s := CombineStrings(prefix, key);
    var i := FirstNul(s);
    assert s[|prefix|] == NUL;
    assert forall j :: 0 <= j < |prefix| ==> s[j] == prefix[j];
    assert i == |prefix|;
    assert s[..i] == prefix && s[i + 1..] == key;
  }

  /** raw_key_is_prefixed holds exactly of the keys combine_strings produces for that prefix. */
  lemma RawKeyIsPrefixedIffCombined(raw: Bytes, prefix: Bytes)
    ensures RawKeyIsPrefixed(raw, prefix) <==> exists key :: raw == CombineStrings(prefix, key)
  {
    if RawKeyIsPrefixed(raw, prefix) {
      assert raw == CombineStrings(prefix, raw[|prefix| + 1..]);
    }
    if exists key :: raw == CombineStrings(prefix, key) {
      var key :| raw == CombineStrings(prefix, key);
      assert raw[..|prefix|] == prefix;
    }
  }

  /** For a NUL-free prefix, raw_key_is_prefixed agrees with the prefix split_key extracts. */
  lemma RawKeyIsPrefixedIffSplit(raw: Bytes, prefix: Bytes)
    requires NUL !in prefix
    ensures RawKeyIsPrefixed(raw, prefix) <==> SplitKey(raw).Ok? && SplitKey(raw).value.0 == prefix
  {
    if RawKeyIsPrefixed(raw, prefix) {
      var key := raw[|prefix| + 1..];
      assert raw == CombineStrings(prefix, key);
      SplitCombine(prefix, key);
    }
    if SplitKey(raw).Ok? && SplitKey(raw).value.0 == prefix {
      assert raw == CombineStrings(prefix, SplitKey(raw).value.1);
    }
  }

  /** The length of the longest common prefix of a and b. */
  function CommonLen(a: Bytes, b: Bytes): (n: nat)
    ensures n <= |a| && n <= |b| && a[..n] == b[..n]
    ensures n < |a| && n < |b| ==> a[n] != b[n]
  {
    if |a| == 0 || |b| == 0 || a[0] != b[0] then 0
    else
      var n := 1 + CommonLen(a[1..], b[1..]);
      assert a[..n] == [a[0]] + a[1..][..n - 1];
      assert b[..n] == [b[0]] + b[1..][..n - 1];
      n
  }

  /**
   * The range [`prefix NUL`, `prefix 0x01 NUL`) that rmkeys_by_prefix deletes
   * on the default column family holds the combined keys of that prefix and
   * of no other NUL-free prefix.
   */
  lemma PrefixRangeExact(p: Bytes, q: Bytes, key: Bytes)
    requires NUL !in p && NUL !in q
    ensures (LessEq(CombineStrings(p, []), CombineStrings(q, key))
             && Less(CombineStrings(q, key), CombineStrings(PastPrefix(p), [])))
            <==> q == p
  {
    var k := CombineStrings(q, key);
    var lo := CombineStrings(p, []);
    var hi := CombineStrings(PastPrefix(p), []);
    assert lo == p + [NUL];
    assert hi == p + [ONE, NUL];
    if q == p {
      InOwnRange(p, key, k, lo, hi);
    } else {
      var n := CommonLen(p, q);
      assert k[..n] == q[..n] && lo[..n] == p[..n] && hi[..n] == p[..n];
      if n == |q| && n < |p| {
        BelowRange(p, q, k, lo, n);
      } else if n == |p| && n < |q| {
        AboveRange(p, q, key, k, hi);
      } else {
        DifferInside(p, q, k, lo, hi, n);
      }
    }
  }

  /** The combined keys of p lie in p's range. */
  lemma InOwnRange(p: Bytes, key: Bytes, k: Bytes, lo: Bytes, hi: Bytes)
    requires k == p + [NUL] + key && lo == p + [NUL] && hi == p + [ONE, NUL]
    ensures LessEq(lo, k) && Less(k, hi)
  {
    assert k == lo + key;
    PrefixLessEq(lo, k);
    assert k[..|p|] == hi[..|p|];
    LessAtFirstDifference(k, hi, |p|);
  }

  /** A key whose prefix is a proper prefix of p sorts before p's range. */
  lemma BelowRange(p: Bytes, q: Bytes, k: Bytes, lo: Bytes, n: nat)
    requires NUL !in p && n == |q| < |p| && lo == p + [NUL]
    requires |k| > n && k[..n] == lo[..n] && k[n] == NUL
    ensures !LessEq(lo, k)
  {
    assert lo[n] == p[n] && p[n] != NUL;
    LessAtFirstDifference(k, lo, n);
    NotLessEqOfLess(k, lo);
  }

  /** A key whose prefix strictly extends p sorts at or after the end of p's range. */
  lemma AboveRange(p: Bytes, q: Bytes, key: Bytes, k: Bytes, hi: Bytes)
    requires NUL !in q && |p| < |q| && q[..|p|] == p
    requires k == q + [NUL] + key && hi == p + [ONE, NUL]
    ensures !Less(k, hi)
  {
    var n := |p|;
    assert k[..n] == hi[..n];
    assert q[n] != NUL && k[n] == q[n] && hi[n] == ONE;
    if k[n] != ONE {
      LessAtFirstDifference(hi, k, n);
      NotLessOfLess(hi, k);
    } else if n + 1 < |q| {
      assert k[..n + 1] == hi[..n + 1];
      assert k[n + 1] == q[n + 1] && q[n + 1] != NUL && hi[n + 1] == NUL;
      LessAtFirstDifference(hi, k, n + 1);
      NotLessOfLess(hi, k);
    } else {
      assert k[..|hi|] == hi;
      PrefixLessEq(hi, k);
      if hi != k {
        NotLessOfLess(hi, k);
      } else {
        LessIrreflexive(k);
      }
    }
  }

  /** A key whose prefix differs from p at a position inside both lies outside p's range. */
  lemma DifferInside(p: Bytes, q: Bytes, k: Bytes, lo: Bytes, hi: Bytes, n: nat)
    requires n < |p| && n < |q| && p[n] != q[n]
    requires lo == p + [NUL] && hi == p + [ONE, NUL]
    requires |k| > n && k[..n] == lo[..n] && k[..n] == hi[..n] && k[n] == q[n]
    ensures !(LessEq(lo, k) && Less(k, hi))
  {
    assert lo[n] == p[n] && hi[n] == p[n];
    if q[n] < p[n] {
      LessAtFirstDifference(k, lo, n);
      NotLessEqOfLess(k, lo);
    } else {
      LessAtFirstDifference(hi, k, n);
      NotLessOfLess(hi, k);
    }
  }

  /**
   * The range [`prefix NUL start`, `prefix NUL end`) that rm_range_keys
   * deletes on the default column family holds the combined keys of that
   * prefix whose key lies in [start, end), and nothing of any other NUL-free
   * prefix.
   */
  lemma CombinedRangeExact(p: Bytes, q: Bytes, key: Bytes, start: Bytes, end: Bytes)
    requires NUL !in p && NUL !in q
    ensures (LessEq(CombineStrings(p, start), CombineStrings(q, key))
             && Less(CombineStrings(q, key), CombineStrings(p, end)))
            <==> q == p && LessEq(start, key) && Less(key, end)
  {
    var k := CombineStrings(q, key);
    var lo := CombineStrings(p, start);
    var hi := CombineStrings(p, end);
    var pn := p + [NUL];
    assert lo == pn + start && hi == pn + end;
    if q == p {
      assert k == pn + key;
      LessCommonPrefix(pn, start, key);
      LessCommonPrefix(pn, key, end);
      assert lo == k ==> start == (pn + start)[|pn|..] == key;
    } else if LessEq(lo, k) && Less(k, hi) {
      PrefixRangeExact(p, q, key);
      assert CombineStrings(p, []) == pn;
      PrefixLessEq(pn, lo);
      LessEqTransitive(pn, lo, k);
      EndBelowPast(p, end, hi);
      LessTransitive(k, hi, CombineStrings(PastPrefix(p), []));
      assert false;
    }
  }

  /** Every combined key of p sorts before `p 0x01 NUL`. */
  lemma EndBelowPast(p: Bytes, end: Bytes, hi: Bytes)
    requires hi == p + [NUL] + end
    ensures Less(hi, CombineStrings(PastPrefix(p), []))
  {
    var past := CombineStrings(PastPrefix(p), []);
    assert past == p + [ONE, NUL];
    assert hi[..|p|] == past[..|p|];
    LessAtFirstDifference(hi, past, |p|);
  }

  lemma NotLessEqOfLess(a: Bytes, b: Bytes)
    requires Less(a, b)
    ensures !LessEq(b, a)
  {
    LessAsymmetric(a, b);
    LessIrreflexive(a);
  }

  lemma NotLessOfLess(a: Bytes, b: Bytes)
    requires Less(a, b)
    ensures !Less(b, a)
  {
    LessAsymmetric(a, b);
  }
}
