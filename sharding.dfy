/**
 * The sharding definition text: a space-separated list of
 *   name [ '(' shard_count [ ',' hash_begin '-' [ hash_end ] ] ')' ] [ '=' options ]
 * parsed into column family descriptions, and the expansion of those
 * descriptions into the names of the engine's column families.
 *
 * The parser works on the whole text with absolute positions: like the C++,
 * which hands strtol a pointer into the original buffer, it may read past the
 * end of the current token, and past the end of the text it reads the
 * terminating NUL of the std::string the callers pass in.
 */
module Sharding {
  import opened Bytes
  import opened Wrappers

  const LONG_MAX: int := 0x7FFF_FFFF_FFFF_FFFF
  const LONG_MIN: int := -0x8000_0000_0000_0000

  /** One column family of a sharding definition (RocksDBStore::ColumnFamily). */
  datatype ColumnFamily = ColumnFamily(
    name: Bytes,
    shardCnt: uint64,
    options: Bytes,
    hashL: uint32,
    hashH: uint32)

  /** What the parser expected where it stopped. */
  datatype Expected = Integer | Dash | CloseParen

  /** The position of the offending byte and what was expected there. */
  datatype ParseError = ParseError(pos: nat, expected: Expected)

  /** What parse_sharding_def leaves behind: the columns pushed so far and the error, if any. */
  datatype Parsed = Parsed(defs: seq<ColumnFamily>, error: Option<ParseError>)

  datatype Column = Column(cf: ColumnFamily) | Failed(err: ParseError)

  // ---------------------------------------------------------------------------
  // Characters and numbers

  /** The byte at position i of the NUL-terminated buffer holding t. */
  function At(t: Bytes, i: nat): Byte
  {
    if i < |t| then t[i] else NUL
  }

  /** isspace in the C locale. */
  predicate IsSpace(c: Byte)
  {
    c == ' ' || (9 <= c as int <= 13)
  }

  predicate IsDigit(c: Byte)
  {
    '0' <= c <= '9'
  }

  predicate AllDigits(s: Bytes)
  {
    forall i :: 0 <= i < |s| ==> IsDigit(s[i])
  }

  /** The value of a string of decimal digits. */
  function DecValue(s: Bytes): int
  {
    if |s| == 0 then 0
    else 10 * DecValue(s[..|s| - 1]) + (s[|s| - 1] as int - '0' as int)
  }

  /** The value of the decimal digits t[d..e], read in place. */
  function DigitsValue(t: Bytes, d: nat, e: nat): int
    requires d <= e <= |t|
    decreases e - d
  {
    if e == d then 0 else 10 * DigitsValue(t, d, e - 1) + (t[e - 1] as int - '0' as int)
  }

  lemma {:induction false} DigitsValueSlice(t: Bytes, d: nat, e: nat)
    requires d <= e <= |t|
    ensures DigitsValue(t, d, e) == DecValue(t[d..e])
    decreases e - d
  {
    if e > d {
      DigitsValueSlice(t, d, e - 1);
      assert t[d..e][..e - d - 1] == t[d..e - 1];
    }
  }

  /** std::to_string of a non-negative number. */
  function DecStr(n: nat): (s: Bytes)
    ensures |s| > 0 && AllDigits(s)
  {
    var d := (('0' as int) + n % 10) as char;
    if n < 10 then [d] else DecStr(n / 10) + [d]
  }

  lemma {:induction false} DecValueOfDecStr(n: nat)
    ensures DecValue(DecStr(n)) == n
  {
    var s := DecStr(n);
    if n >= 10 {
      DecValueOfDecStr(n / 10);
      assert s[..|s| - 1] == DecStr(n / 10);
    }
  }

  lemma DecStrInjective(m: nat, n: nat)
    requires DecStr(m) == DecStr(n)
    ensures m == n
  {
    DecValueOfDecStr(m);
    DecValueOfDecStr(n);
  }

  /**
   * size_t from long: two's complement wrap-around, which is the Euclidean
   * remainder modulo 2^64 (never negative).
   */
  function ToSizeT(v: int): (r: uint64)
    ensures LONG_MIN <= v <= LONG_MAX ==> (r == v <==> v >= 0)
  {
    v % TWO_TO_64
  }

  /** uint32_t from long: two's complement truncation to the low 32 bits. */
  function ToUint32(v: int): (r: uint32)
    ensures 0 <= v < TWO_TO_32 ==> r == v
  {
    v % TWO_TO_32
  }

  /** The first position at or after i whose byte is not white space. */
  function SkipSpaces(t: Bytes, i: nat): (j: nat)
    requires i <= |t|
    ensures i <= j <= |t| && !IsSpace(At(t, j))
    decreases |t| - i
  {
    if i < |t| && IsSpace(t[i]) then SkipSpaces(t, i + 1) else i
  }

  /** The first position at or after i whose byte is not a decimal digit. */
  function DigitsEnd(t: Bytes, i: nat): (j: nat)
    requires i <= |t|
    ensures i <= j <= |t| && !IsDigit(At(t, j))
    decreases |t| - i
  {
    if i < |t| && IsDigit(t[i]) then DigitsEnd(t, i + 1) else i
  }

  /** The run of digits at i ends at k when every byte in between is a digit and the one at k is not. */
  lemma {:induction false} DigitsEndAt(t: Bytes, i: nat, k: nat)
    requires i <= k <= |t| && !IsDigit(At(t, k))
    requires forall m :: i <= m < k ==> IsDigit(t[m])
    ensures DigitsEnd(t, i) == k
    decreases k - i
  {
    if i < k {
      DigitsEndAt(t, i + 1, k);
    }
  }

  /**
   * strtol(&t[p], &end, 10): skips white space, takes an optional sign and the
   * longest run of digits, saturating at the range of long. Without digits it
   * returns 0 and leaves end at p.
   */
  function StrToL(t: Bytes, p: nat): (r: (int, nat))
    requires p <= |t|
    ensures LONG_MIN <= r.0 <= LONG_MAX
    ensures r.1 == p || p < r.1 <= |t|
    ensures r.1 == p ==> r.0 == 0
  {
    var q := SkipSpaces(t, p);
    var neg := At(t, q) == '-';
    var d := if At(t, q) == '-' || At(t, q) == '+' then q + 1 else q;
    var e := DigitsEnd(t, d);
    if e == d then (0, p)
    else
      var v := DigitsValue(t, d, e);
      var value := Saturate(if neg then -v else v);
      (value, e)
  }

  /** strtol on an unsigned run of digits t[p..e] that fits in a long reads exactly that number. */
  lemma StrToLDigits(t: Bytes, p: nat, e: nat)
    requires p < e <= |t| && !IsDigit(At(t, e))
    requires forall m :: p <= m < e ==> IsDigit(t[m])
    requires DigitsValue(t, p, e) <= LONG_MAX
    ensures StrToL(t, p) == (DigitsValue(t, p, e), e)
  {
    assert SkipSpaces(t, p) == p;
    DigitsEndAt(t, p, e);
    DigitsValueNonNegative(t, p, e);
  }

  lemma {:induction false} DigitsValueNonNegative(t: Bytes, d: nat, e: nat)
    requires d <= e <= |t|
    requires forall m :: d <= m < e ==> IsDigit(t[m])
    ensures DigitsValue(t, d, e) >= 0
    decreases e - d
  {
    if e > d {
      DigitsValueNonNegative(t, d, e - 1);
    }
  }

  /** A value clamped to the range of long, as strtol does on overflow. */
  function Saturate(v: int): (r: int)
    ensures LONG_MIN <= r <= LONG_MAX
    ensures LONG_MIN <= v <= LONG_MAX ==> r == v
  {
    if v < LONG_MIN then LONG_MIN else if v > LONG_MAX then LONG_MAX else v
  }

  /** The first position in [i, end) holding c, or end. */
  function Find(t: Bytes, c: Byte, i: nat, end: nat): (j: nat)
    requires i <= end <= |t|
    ensures i <= j <= end
    ensures j < end ==> t[j] == c
    decreases end - i
  {
    if i == end then end
    else if t[i] == c then i
    else Find(t, c, i + 1, end)
  }

  /** No byte of t[a..b] is c. */
  predicate NoneIn(t: Bytes, a: nat, b: nat, c: Byte)
    requires b <= |t|
    decreases b - a
  {
    a >= b || (t[a] != c && NoneIn(t, a + 1, b, c))
  }

  lemma {:induction false} NoneInSlice(t: Bytes, a: nat, b: nat, c: Byte)
    requires a <= b <= |t| && NoneIn(t, a, b, c)
    ensures c !in t[a..b]
    decreases b - a
  {
    if a < b {
      NoneInSlice(t, a + 1, b, c);
      assert t[a..b] == [t[a]] + t[a + 1..b];
    }
  }

  lemma {:induction false} SliceNoneIn(t: Bytes, a: nat, b: nat, c: Byte)
    requires a <= b <= |t| && c !in t[a..b]
    ensures NoneIn(t, a, b, c)
    decreases b - a
  {
    if a < b {
      assert t[a..b] == [t[a]] + t[a + 1..b];
      SliceNoneIn(t, a + 1, b, c);
    }
  }

  /** Find stops at the first occurrence: no byte before its result is c. */
  lemma {:induction false} FindSkips(t: Bytes, c: Byte, i: nat, end: nat)
    requires i <= end <= |t|
    ensures NoneIn(t, i, Find(t, c, i, end), c)
    decreases end - i
  {
    if i < end && t[i] != c {
      FindSkips(t, c, i + 1, end);
    }
  }

  /** Find returns k when c does not occur before k and k is end or holds c. */
  lemma {:induction false} FindAt(t: Bytes, c: Byte, i: nat, end: nat, k: nat)
    requires i <= k <= end <= |t|
    requires NoneIn(t, i, k, c)
    requires k < end ==> t[k] == c
    ensures Find(t, c, i, end) == k
    decreases k - i
  {
    if i < k {
      FindAt(t, c, i + 1, end, k);
    }
  }

  // ---------------------------------------------------------------------------
  // The parser

  /** The numbers between the parentheses of a token: shard count and hash byte range. */
  datatype Shards = Shards(count: uint64, hashL: uint32, hashH: uint32)

  /** What a ColumnFamily holds before any number is read: one shard, the whole key. */
  const DefaultShards: Shards := Shards(1, 0, UINT32_MAX)

  /** The outcome of reading the parenthesised part of a token. */
  datatype ShardsRead = Read(shards: Shards) | Malformed(err: ParseError)

  /** The column family named name with the given options and shard numbers. */
  function Assemble(name: Bytes, options: Bytes, r: ShardsRead): Column
  {
    match r
    case Malformed(err) => Failed(err)
    case Read(sh) => Column(ColumnFamily(name, sh.count, options, sh.hashL, sh.hashH))
  }

  /** One column definition: the token t[start..tokEnd] (the loop body of parse_sharding_def). */
  function ParseColumn(t: Bytes, start: nat, tokEnd: nat): Column
    requires start <= tokEnd <= |t|
  {
    var eq := Find(t, '=', start, tokEnd);
    ColumnAt(t, start, tokEnd, eq, Find(t, '(', start, eq))
  }

  /** The token t[start..tokEnd] whose first '=' is at eq and whose first '(' before it is at bpos. */
  function ColumnAt(t: Bytes, start: nat, tokEnd: nat, eq: nat, bpos: nat): Column
    requires start <= bpos <= eq <= tokEnd <= |t|
  {
    Assemble(t[start..bpos], if eq < tokEnd then t[eq + 1..tokEnd] else [], ShardsAt(t, eq, bpos))
  }

  /** The shard numbers of a token: read after its '(', or the defaults when it has none. */
  function ShardsAt(t: Bytes, eq: nat, bpos: nat): ShardsRead
    requires bpos <= eq <= |t|
  {
    if bpos == eq then Read(DefaultShards) else ParseShards(t, bpos + 1, Count, DefaultShards)
  }

  /** The numbers inside the parentheses, in the order they are read. */
  datatype Stage = Count | Low | High

  function Remaining(stage: Stage): nat
  {
    match stage
    case Count => 2
    case Low => 1
    case High => 0
  }

  /**
   * The text after '(' read one number at a time from p: the shard count,
   * then after ',' the first hash byte, then after '-' the optional last
   * hash byte, and finally ')'. sh holds what has been read so far and the
   * defaults for the rest.
   */
  function ParseShards(t: Bytes, p: nat, stage: Stage, sh: Shards): ShardsRead
    requires p <= |t|
    decreases |t| - p
  {
    var (v, e) := StrToL(t, p);
    match stage
    case Count =>
      if e == p then Malformed(ParseError(p, Integer))
      else if At(t, e) == ',' then ParseShards(t, e + 1, Low, sh.(count := ToSizeT(v)))
      else Close(t, e, sh.(count := ToSizeT(v)))
    case Low =>
      if e == p then Malformed(ParseError(p, Integer))
      else if At(t, e) != '-' then Malformed(ParseError(e, Dash))
      else ParseShards(t, e + 1, High, sh.(hashL := ToUint32(v)))
    case High =>
      Close(t, e, if e == p then sh else sh.(hashH := ToUint32(v)))
  }

  /** The ')' that must follow the last number read. */
  function Close(t: Bytes, e: nat, sh: Shards): ShardsRead
  {
    if At(t, e) != ')' then Malformed(ParseError(e, CloseParen)) else Read(sh)
  }

  /** The end of the token starting at pos: the next space, or the end of the text. */
  function TokenEnd(t: Bytes, pos: nat): nat
    requires pos <= |t|
  {
    Find(t, ' ', pos, |t|)
  }

  /** Where the remaining text starts after the token at pos. */
  function NextPos(t: Bytes, pos: nat): (next: nat)
    requires pos < |t|
    ensures pos < next <= |t|
  {
    var e := TokenEnd(t, pos);
    if e < |t| then e + 1 else |t|
  }

  /** The outcome of parsing t from position pos to the end, stopping at the first error. */
  function Parse(t: Bytes, pos: nat): Parsed
    requires pos <= |t|
    decreases |t| - pos
  {
    if pos == |t| then Parsed([], None)
    else
      match ParseColumn(t, pos, TokenEnd(t, pos))
      case Failed(err) => Parsed([], Some(err))
      case Column(cf) =>
        var rest := Parse(t, NextPos(t, pos));
        Parsed([cf] + rest.defs, rest.error)
  }

  /** The columns d pushed before a parse whose outcome is r. */
  function Prepend(d: seq<ColumnFamily>, r: Parsed): Parsed
  {
    Parsed(d + r.defs, r.error)
  }

  /**
   * parse_sharding_def: consumes the text token by token, pushing one column
   * family per token, and stops at the first malformed token. Returns false
   * exactly when an error position was set.
   */
  method ParseShardingDef(text: Bytes) returns (ok: bool, defs: seq<ColumnFamily>, error: Option<ParseError>)
    ensures ok <==> error.None?
    ensures Parsed(defs, error) == Parse(text, 0)
  {
    defs := [];
    error := None;
    var pos := 0;
    PrependNothing(Parse(text, 0));
    while pos < |text|
      invariant pos <= |text|
      invariant Parse(text, 0) == Prepend(defs, Parse(text, pos))
      decreases |text| - pos
    {
      var tokEnd := TokenEnd(text, pos);
      var column := ParseColumn(text, pos, tokEnd);
      var next := if tokEnd < |text| then tokEnd + 1 else |text|;
      ParseStep(text, pos, tokEnd, next, column, defs);
      if column.Failed? {
        error := Some(column.err);
        break;
      }
      defs := defs + [column.cf];
      pos := next;
    }
    ok := error.None?;
  }

  lemma PrependNothing(r: Parsed)
    ensures Prepend([], r) == r
  {
    assert [] + r.defs == r.defs;
  }

  /**
   * One iteration of the parser: a failed token ends the parse with its error
   * after the columns already pushed; a column is pushed and the parse goes on
   * after the token.
   */
  lemma ParseStep(t: Bytes, pos: nat, tokEnd: nat, next: nat, column: Column, defs: seq<ColumnFamily>)
    requires pos < |t| && tokEnd == TokenEnd(t, pos)
    requires next == (if tokEnd < |t| then tokEnd + 1 else |t|)
    requires column == ParseColumn(t, pos, tokEnd)
    ensures pos < next <= |t|
    ensures column.Failed? ==> Prepend(defs, Parse(t, pos)) == Parsed(defs, Some(column.err))
    ensures column.Column? ==> Prepend(defs, Parse(t, pos)) == Prepend(defs + [column.cf], Parse(t, next))
  {
    assert next == NextPos(t, pos);
    ParseUnfold(t, pos, column, next);
    if column.Column? {
      var rest := Parse(t, next);
      assert defs + ([column.cf] + rest.defs) == (defs + [column.cf]) + rest.defs;
    } else {
      assert defs + [] == defs;
    }
  }

  /** Parse from pos is the column of the token at pos followed by the parse after it. */
  lemma ParseUnfold(t: Bytes, pos: nat, column: Column, next: nat)
    requires pos < |t| && column == ParseColumn(t, pos, TokenEnd(t, pos)) && next == NextPos(t, pos)
    ensures column.Failed? ==> Parse(t, pos) == Parsed([], Some(column.err))
    ensures column.Column? ==> Parse(t, pos) == Parsed([column.cf] + Parse(t, next).defs, Parse(t, next).error)
  {
  }

  // ---------------------------------------------------------------------------
  // Properties of the parser

  lemma {:induction false} ParseShardsError(t: Bytes, p: nat, stage: Stage, sh: Shards)
    requires p <= |t|
    requires ParseShards(t, p, stage, sh).Malformed?
    ensures p <= ParseShards(t, p, stage, sh).err.pos <= |t|
    decreases Remaining(stage)
  {
    var (v, e) := StrToL(t, p);
    if stage == Count && e != p && At(t, e) == ',' {
      ParseShardsError(t, e + 1, Low, sh.(count := ToSizeT(v)));
    } else if stage == Low && e != p && At(t, e) == '-' {
      ParseShardsError(t, e + 1, High, sh.(hashL := ToUint32(v)));
    }
  }

  /** A failed token reports a position after its start, inside the text or at its terminator. */
  lemma ParseColumnError(t: Bytes, start: nat, tokEnd: nat)
    requires start <= tokEnd <= |t|
    requires ParseColumn(t, start, tokEnd).Failed?
    ensures start < ParseColumn(t, start, tokEnd).err.pos <= |t|
  {
    var eq := Find(t, '=', start, tokEnd);
    var bpos := Find(t, '(', start, eq);
    ParseShardsError(t, bpos + 1, Count, DefaultShards);
  }

  /** A parse that fails reports a position after where it started, inside the text or at its terminator. */
  lemma {:induction false} ParseErrorShape(t: Bytes, pos: nat)
    requires pos <= |t|
    ensures Parse(t, pos).error.Some? ==> pos < Parse(t, pos).error.value.pos <= |t|
    decreases |t| - pos
  {
    if pos < |t| {
      if ParseColumn(t, pos, TokenEnd(t, pos)).Failed? {
        ParseColumnError(t, pos, TokenEnd(t, pos));
      } else {
        ParseErrorShape(t, NextPos(t, pos));
      }
    }
  }

  /**
   * A token with '(' before its first '=' reads its shard numbers after that
   * '(', starting from one shard and the full range; the text before the '('
   * is the name and the text after the '=' the options.
   */
  lemma ParseShapedColumn(t: Bytes, start: nat, tokEnd: nat, eq: nat, bpos: nat, options: Bytes)
    requires start <= tokEnd <= |t| && eq == Find(t, '=', start, tokEnd)
    requires options == if eq < tokEnd then t[eq + 1..tokEnd] else []
    requires bpos == Find(t, '(', start, eq) && bpos < eq
    ensures ParseColumn(t, start, tokEnd)
      == Assemble(t[start..bpos], options, ParseShards(t, bpos + 1, Count, DefaultShards))
  {
    var r := ParseShards(t, bpos + 1, Count, DefaultShards);
    assert ShardsAt(t, eq, bpos) == r;
    assert ParseColumn(t, start, tokEnd) == ColumnAt(t, start, tokEnd, eq, bpos);
  }

  /** A non-empty run of decimal digits t[p..e] whose value fits in a long. */
  predicate DigitRun(t: Bytes, p: nat, e: nat)
  {
    p < e <= |t| && (forall m :: p <= m < e ==> IsDigit(t[m])) && DigitsValue(t, p, e) <= LONG_MAX
  }

  /** The shard count N is followed either by ',' and the range, or by ')'. */
  lemma ReadCount(t: Bytes, p: nat, c: nat, sh: Shards)
    requires DigitRun(t, p, c) && (At(t, c) == ',' || At(t, c) == ')')
    ensures var n := ToSizeT(DigitsValue(t, p, c));
      ParseShards(t, p, Count, sh)
        == if At(t, c) == ',' then ParseShards(t, c + 1, Low, sh.(count := n)) else Read(sh.(count := n))
  {
    StrToLDigits(t, p, c);
  }

  /** The first hash byte L must be followed by '-'. */
  lemma ReadLow(t: Bytes, p: nat, d: nat, sh: Shards)
    requires DigitRun(t, p, d) && At(t, d) == '-'
    ensures ParseShards(t, p, Low, sh) == ParseShards(t, d + 1, High, sh.(hashL := ToUint32(DigitsValue(t, p, d))))
  {
    StrToLDigits(t, p, d);
  }

  /** The last hash byte H is optional: without it the end of the range is left as it was. */
  lemma ReadHigh(t: Bytes, p: nat, e: nat, sh: Shards)
    requires p <= e <= |t| && At(t, e) == ')' && (p < e ==> DigitRun(t, p, e))
    ensures ParseShards(t, p, High, sh)
      == Read(if e == p then sh else sh.(hashH := ToUint32(DigitsValue(t, p, e))))
  {
    if p < e {
      StrToLDigits(t, p, e);
    } else {
      assert SkipSpaces(t, p) == p && DigitsEnd(t, p) == p;
    }
  }

  /**
   * In `name(N,L-)` the range keeps the end it had: from the defaults of a
   * fresh column family, that is the range [L, UINT32_MAX).
   */
  lemma ParseOpenRange(t: Bytes, p: nat, c: nat, d: nat)
    requires DigitRun(t, p, c) && At(t, c) == ','
    requires DigitRun(t, c + 1, d) && At(t, d) == '-' && At(t, d + 1) == ')'
    ensures ParseShards(t, p, Count, DefaultShards)
      == Read(Shards(ToSizeT(DigitsValue(t, p, c)), ToUint32(DigitsValue(t, c + 1, d)), UINT32_MAX))
  {
    ReadCount(t, p, c, DefaultShards);
    var sh := DefaultShards.(count := ToSizeT(DigitsValue(t, p, c)));
    ReadLow(t, c + 1, d, sh);
    ReadHigh(t, d + 1, d + 1, sh.(hashL := ToUint32(DigitsValue(t, c + 1, d))));
  }

  /** The first '(' of a token, when no '=' comes before it, is where ParseColumn reads the shard numbers. */
  lemma ShapedAt(t: Bytes, start: nat, tokEnd: nat, b: nat)
    requires start <= b < tokEnd <= |t| && t[b] == '(' && '(' !in t[start..b] && '=' !in t[start..b]
    ensures var eq := Find(t, '=', start, tokEnd); b < eq && Find(t, '(', start, eq) == b
  {
    var eq := Find(t, '=', start, tokEnd);
    SliceNoneIn(t, start, b, '=');
    SliceNoneIn(t, start, b, '(');
    FindSkips(t, '=', start, tokEnd);
    if eq <= b {
      assert false;
    }
    FindAt(t, '(', start, eq, b);
  }

  /**
   * A token without '(' before its first '=' is a column family with one shard
   * and the full hash range; the text before '=' is its name, the text after
   * it its options.
   */
  lemma ParseBareColumn(t: Bytes, start: nat, tokEnd: nat)
    requires start <= tokEnd <= |t|
    requires '(' !in t[start..Find(t, '=', start, tokEnd)]
    ensures ParseColumn(t, start, tokEnd).Column?
    ensures var cf := ParseColumn(t, start, tokEnd).cf;
      && cf.shardCnt == 1 && cf.hashL == 0 && cf.hashH == UINT32_MAX
      && '=' !in cf.name
      && t[start..tokEnd] == cf.name + (if '=' in t[start..tokEnd] then ['='] + cf.options else [])
  {
    var eq := Find(t, '=', start, tokEnd);
    var options := if eq < tokEnd then t[eq + 1..tokEnd] else [];
    BareColumnValue(t, start, tokEnd, eq, options);
    TokenSplitsAtEq(t, start, tokEnd, eq, options);
  }

  /** Without '(' before the first '=', ParseColumn takes the bare branch. */
  lemma BareColumnValue(t: Bytes, start: nat, tokEnd: nat, eq: nat, options: Bytes)
    requires start <= tokEnd <= |t| && eq == Find(t, '=', start, tokEnd)
    requires options == if eq < tokEnd then t[eq + 1..tokEnd] else []
    requires '(' !in t[start..eq]
    ensures ParseColumn(t, start, tokEnd) == Column(ColumnFamily(t[start..eq], 1, options, 0, UINT32_MAX))
  {
    SliceNoneIn(t, start, eq, '(');
    FindAt(t, '(', start, eq, eq);
  }

  /** A token is the text before its first '=' followed, when there is one, by '=' and the options. */
  lemma TokenSplitsAtEq(t: Bytes, start: nat, tokEnd: nat, eq: nat, options: Bytes)
    requires start <= tokEnd <= |t| && eq == Find(t, '=', start, tokEnd)
    requires options == if eq < tokEnd then t[eq + 1..tokEnd] else []
    ensures '=' !in t[start..eq]
    ensures t[start..tokEnd] == t[start..eq] + (if '=' in t[start..tokEnd] then ['='] + options else [])
  {
    FindSkips(t, '=', start, tokEnd);
    NoneInSlice(t, start, eq, '=');
    var tok := t[start..tokEnd];
    if eq < tokEnd {
      assert tok == t[start..eq] + ['='] + t[eq + 1..tokEnd];
      assert tok[eq - start] == '=';
    } else {
      assert tok == t[start..eq];
    }
  }

  // ---------------------------------------------------------------------------
  // Column names

  /** The engine name of shard j of a column family: the bare name when it has one shard. */
  function ShardName(cf: ColumnFamily, j: nat): Bytes
  {
    if cf.shardCnt == 1 then cf.name else cf.name + "-" + DecStr(j)
  }

  /** The shard names of one column family, in shard order. */
  function ShardNames(cf: ColumnFamily): (names: seq<Bytes>)
    ensures |names| == cf.shardCnt
    ensures forall j :: 0 <= j < |names| ==> names[j] == ShardName(cf, j)
  {
    seq(cf.shardCnt, j requires 0 <= j => ShardName(cf, j))
  }

  /** The column names of a whole definition, column family after column family. */
  function Columns(defs: seq<ColumnFamily>): seq<Bytes>
  {
    if |defs| == 0 then [] else Columns(defs[..|defs| - 1]) + ShardNames(defs[|defs| - 1])
  }

  /**
   * sharding_def_to_columns: a column family with one shard contributes its
   * name, one with n shards contributes name-0 .. name-(n-1), in order.
   */
  method ShardingDefToColumns(defs: seq<ColumnFamily>) returns (columns: seq<Bytes>)
    ensures columns == Columns(defs)
  {
    columns := [];
    for i := 0 to |defs|
      invariant columns == Columns(defs[..i])
    {
      assert defs[..i + 1][..i] == defs[..i];
      if defs[i].shardCnt == 1 {
        columns := columns + [defs[i].name];
      } else {
        ghost var before := columns;
        for j := 0 to defs[i].shardCnt
          invariant columns == before + ShardNames(defs[i])[..j]
        {
          columns := columns + [defs[i].name + "-" + DecStr(j)];
        }
      }
    }
    assert defs[..|defs|] == defs;
  }
}
