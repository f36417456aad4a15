/**
 * Byte strings as the store sees them (a C++ std::string or a rocksdb::Slice)
 * and the bytewise order the engine's default comparator and std::string's
 * operator< both use: lexicographic on unsigned bytes.
 */
module Bytes {

  /** One byte, written as a char whose code point is below 256. */
  type Byte = c: char | c as int < 256

  type Bytes = seq<Byte>

  const NUL: Byte := 0 as char

  const UINT32_MAX: int := 0xFFFF_FFFF
  const TWO_TO_32: int := 0x1_0000_0000
  const TWO_TO_64: int := 0x1_0000_0000_0000_0000

  type uint32 = x: int | 0 <= x < TWO_TO_32
  type uint64 = x: int | 0 <= x < TWO_TO_64

  /** Strict lexicographic order: memcmp on the common length, then the shorter first. */
  predicate Less(a: Bytes, b: Bytes)
    decreases |a|
  {
    if |a| == 0 then |b| > 0
    else if |b| == 0 then false
    else if a[0] != b[0] then a[0] < b[0]
    else Less(a[1..], b[1..])
  }

  predicate LessEq(a: Bytes, b: Bytes)
  {
    a == b || Less(a, b)
  }

  lemma {:induction false} LessIrreflexive(a: Bytes)
    ensures !Less(a, a)
    decreases |a|
  {
    if |a| > 0 {
      LessIrreflexive(a[1..]);
    }
  }

  lemma {:induction false} LessAsymmetric(a: Bytes, b: Bytes)
    requires Less(a, b)
    ensures !Less(b, a)
    decreases |a|
  {
    if |a| > 0 && |b| > 0 && a[0] == b[0] {
      LessAsymmetric(a[1..], b[1..]);
    }
  }

  lemma {:induction false} LessTransitive(a: Bytes, b: Bytes, c: Bytes)
    requires Less(a, b) && Less(b, c)
    ensures Less(a, c)
    decreases |a|
  {
    if |a| > 0 && |b| > 0 && |c| > 0 && a[0] == b[0] && b[0] == c[0] {
      LessTransitive(a[1..], b[1..], c[1..]);
    }
  }

  lemma {:induction false} LessTotal(a: Bytes, b: Bytes)
    ensures a == b || Less(a, b) || Less(b, a)
    decreases |a|
  {
    if |a| > 0 && |b| > 0 && a[0] == b[0] {
      LessTotal(a[1..], b[1..]);
      if a[1..] == b[1..] {
        assert a == [a[0]] + a[1..] && b == [b[0]] + b[1..];
      }
    }
  }

  lemma LessEqTransitive(a: Bytes, b: Bytes, c: Bytes)
    requires LessEq(a, b) && LessEq(b, c)
    ensures LessEq(a, c)
  {
    if a != b && b != c {
      LessTransitive(a, b, c);
    }
  }

  /** A proper prefix sorts before the longer string. */
  lemma {:induction false} PrefixLess(a: Bytes, b: Bytes)
    requires |b| > 0
    ensures Less(a, a + b)
    decreases |a|
  {
    if |a| > 0 {
      assert (a + b)[1..] == a[1..] + b;
      PrefixLess(a[1..], b);
    }
  }

  /** Appending to both sides of a strict difference inside the common part keeps the order. */
  lemma {:induction false} LessAppend(a: Bytes, b: Bytes, x: Bytes, y: Bytes)
    requires |a| == |b| && Less(a, b)
    ensures Less(a + x, b + y)
    decreases |a|
  {
    if a[0] == b[0] {
      assert (a + x)[1..] == a[1..] + x;
      assert (b + y)[1..] == b[1..] + y;
      LessAppend(a[1..], b[1..], x, y);
    }
  }

  /** A common prefix does not change the comparison. */
  lemma {:induction false} LessCommonPrefix(p: Bytes, x: Bytes, y: Bytes)
    ensures Less(p + x, p + y) <==> Less(x, y)
    decreases |p|
  {
    if |p| > 0 {
      assert (p + x)[1..] == p[1..] + x;
      assert (p + y)[1..] == p[1..] + y;
      LessCommonPrefix(p[1..], x, y);
    } else {
      assert p + x == x && p + y == y;
    }
  }

  /** Strings that differ first at position i compare as their bytes at i do. */
  lemma {:induction false} LessAtFirstDifference(a: Bytes, b: Bytes, i: nat)
    requires i < |a| && i < |b| && a[..i] == b[..i] && a[i] != b[i]
    ensures Less(a, b) <==> a[i] < b[i]
    decreases i
  {
    if i > 0 {
      assert a[1..][..i - 1] == a[..i][1..] && b[1..][..i - 1] == b[..i][1..];
      LessAtFirstDifference(a[1..], b[1..], i - 1);
    }
  }

  /** If a is a prefix of b, then a sorts no later than b. */
  lemma PrefixLessEq(a: Bytes, b: Bytes)
    requires |a| <= |b| && b[..|a|] == a
    ensures LessEq(a, b)
  {
    if |a| < |b| {
      assert b == a + b[|a|..];
      PrefixLess(a, b[|a|..]);
    } else {
      assert b == b[..|a|];
    }
  }
}
