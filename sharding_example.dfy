/**
 * The sharding definition used as the worked example of the grammar:
 * four column families, a bare one with options, one with the default
 * range, one with an open range and one with a closed range and two
 * options.
 */
module ShardingExample {
  import opened Bytes
  import opened Wrappers
  import opened Sharding

  const FirstOptions: Bytes := "write_buffer_" + "size=1048576"
  const ExampleOptions: Bytes := "disable_auto_" + "compactions=true," + "max_bytes_for_" + "level_base=1048576"

  /** `I=...`, the first token. */
  const Head: Bytes := "I=" + FirstOptions
  /** ` O(6) m(7,10-) `, the two middle tokens with the spaces around them. */
  const Middle: Bytes := " O(6) m(7,10-) "
  /** `prefix(4,0-10)=`, the last token up to its options. */
  const Shape: Bytes := "prefix(4,0-10)="

  const ExampleText: Bytes := Head + Middle + Shape + ExampleOptions

  /** The four columns the example defines. */
  const Bare := ColumnFamily("I", 1, FirstOptions, 0, UINT32_MAX)
  const Plain := ColumnFamily("O", 6, [], 0, UINT32_MAX)
  const OpenRange := ColumnFamily("m", 7, [], 10, UINT32_MAX)
  const Ranged := ColumnFamily("prefix", 4, ExampleOptions, 0, 10)

  /**
   * The example parses into four column families: a single shard over the
   * whole key with the options after the first '=', then 6, 7 and 4
   * shards with hash ranges [0, UINT32_MAX), [10, UINT32_MAX) and [0, 10);
   * everything after the first '=' of a token is its options, further '='
   * and ',' included.
   */
  lemma ParseExample()
    ensures Parse(ExampleText, 0) == Parsed([Bare, Plain, OpenRange, Ranged], None)
  {
    BareToken();
    FirstToken();
    SecondToken();
    ThirdToken();
    ParseFour(ExampleText, Bare, Plain, OpenRange, Ranged);
  }

  /** A text whose four tokens end at 27, 32, 41 and its end parses into their four columns. */
  lemma ParseFour(t: Bytes, c0: ColumnFamily, c1: ColumnFamily, c2: ColumnFamily, c3: ColumnFamily)
    requires |t| > 42
    requires TokenEnd(t, 0) == 27 && ParseColumn(t, 0, 27) == Column(c0)
    requires TokenEnd(t, 28) == 32 && ParseColumn(t, 28, 32) == Column(c1)
    requires TokenEnd(t, 33) == 41 && ParseColumn(t, 33, 41) == Column(c2)
    requires TokenEnd(t, 42) == |t| && ParseColumn(t, 42, |t|) == Column(c3)
    ensures Parse(t, 0) == Parsed([c0, c1, c2, c3], None)
  {
    ParseStep(t, 0, 27, 28, Column(c0), []);
    ParseStep(t, 28, 32, 33, Column(c1), [c0]);
    ParseStep(t, 33, 41, 42, Column(c2), [c0, c1]);
    ParseStep(t, 42, |t|, |t|, Column(c3), [c0, c1, c2]);
  }

  /** Where the four pieces of the text lie. */
  lemma Layout()
    ensures |Head| == 27 && |Middle| == 15 && |Shape| == 15 && |ExampleText| == 119
    ensures ExampleText[..27] == Head && ExampleText[27..42] == Middle
    ensures ExampleText[42..57] == Shape && ExampleText[57..] == ExampleOptions
  {
    var t := ExampleText;
    assert t[..27] == Head;
    assert t[27..42] == Middle;
    assert t[42..57] == Shape;
    assert t[57..] == ExampleOptions;
  }

  /** `I=write_buffer_size=1048576`: one shard over the whole key, and the options after the first '='. */
  lemma BareToken()
    ensures TokenEnd(ExampleText, 0) == 27
    ensures ParseColumn(ExampleText, 0, 27) == Column(Bare)
  {
    HeadBytes();
    BareTokenAt(ExampleText);
  }

  /** The first token, as the parser sees it. */
  lemma HeadBytes()
    ensures |ExampleText| > 27 && ExampleText[0] == 'I' && ExampleText[1] == '=' && ExampleText[27] == ' '
    ensures ExampleText[2..27] == FirstOptions && NoneIn(ExampleText, 0, 27, ' ')
  {
    var t := ExampleText;
    Layout();
    HeadNoSpace();
    assert t[0..27] == Head;
    assert t[27] == Middle[0];
    SliceNoneIn(t, 0, 27, ' ');
    assert Head[2..] == FirstOptions;
    assert t[2..27] == Head[2..];
  }

  lemma HeadNoSpace()
    ensures ' ' !in Head && Head[0] == 'I' && Head[1] == '='
  {
    assert ' ' !in "write_buffer_";
    assert ' ' !in "size=1048576";
  }

  /** A token `I=` followed by options up to the space at 27. */
  lemma BareTokenAt(t: Bytes)
    requires |t| > 27 && t[0] == 'I' && t[1] == '=' && t[27] == ' '
    requires t[2..27] == FirstOptions && NoneIn(t, 0, 27, ' ')
    ensures TokenEnd(t, 0) == 27
    ensures ParseColumn(t, 0, 27) == Column(Bare)
  {
    FindAt(t, ' ', 0, |t|, 27);
    FindAt(t, '=', 0, 27, 1);
    FindAt(t, '(', 0, 1, 1);
    assert t[0..1] == "I";
    assert ParseColumn(t, 0, 27) == ColumnAt(t, 0, 27, 1, 1);
  }

  /** The middle piece, byte by byte. */
  lemma MiddleBytes()
    ensures ExampleText[27] == ' ' && ExampleText[28] == 'O' && ExampleText[29] == '('
    ensures ExampleText[30] == '6' && ExampleText[31] == ')' && ExampleText[32] == ' '
    ensures ExampleText[33] == 'm' && ExampleText[34] == '(' && ExampleText[35] == '7'
    ensures ExampleText[36] == ',' && ExampleText[37] == '1' && ExampleText[38] == '0'
    ensures ExampleText[39] == '-' && ExampleText[40] == ')' && ExampleText[41] == ' '
  {
    var t := ExampleText;
    Layout();
    assert t[27..42] == Middle;
    assert forall i :: 0 <= i < 15 ==> t[27 + i] == Middle[i];
  }

  /** `O(6)`: six shards over the whole key. */
  lemma FirstToken()
    ensures TokenEnd(ExampleText, 28) == 32
    ensures ParseColumn(ExampleText, 28, 32) == Column(Plain)
  {
    var t := ExampleText;
    Layout();
    MiddleBytes();
    assert t[28..29] == "O";
    assert ' ' !in t[28..32] && '=' !in t[28..32];
    SliceNoneIn(t, 28, 32, ' ');
    FindAt(t, ' ', 28, |t|, 32);
    ShapedAt(t, 28, 32, 29);
    SliceNoneIn(t, 28, 32, '=');
    FindAt(t, '=', 28, 32, 32);
    FirstShards(t);
    ParseShapedColumn(t, 28, 32, 32, 29, []);
  }

  lemma FirstShards(t: Bytes)
    requires |t| > 31 && t[30] == '6' && t[31] == ')'
    ensures ParseShards(t, 30, Count, DefaultShards) == Read(Shards(6, 0, UINT32_MAX))
  {
    assert DigitsValue(t, 30, 31) == 6;
    ReadCount(t, 30, 31, DefaultShards);
  }

  /** `m(7,10-)`: seven shards hashing the key from byte 10 on. */
  lemma SecondToken()
    ensures TokenEnd(ExampleText, 33) == 41
    ensures ParseColumn(ExampleText, 33, 41) == Column(OpenRange)
  {
    var t := ExampleText;
    Layout();
    MiddleBytes();
    assert t[33..34] == "m";
    assert ' ' !in t[33..41] && '=' !in t[33..41];
    SliceNoneIn(t, 33, 41, ' ');
    FindAt(t, ' ', 33, |t|, 41);
    ShapedAt(t, 33, 41, 34);
    SliceNoneIn(t, 33, 41, '=');
    FindAt(t, '=', 33, 41, 41);
    SecondShards(t);
    ParseShapedColumn(t, 33, 41, 41, 34, []);
  }

  lemma SecondShards(t: Bytes)
    requires |t| > 40 && t[35] == '7' && t[36] == ',' && t[37] == '1' && t[38] == '0' && t[39] == '-' && t[40] == ')'
    ensures ParseShards(t, 35, Count, DefaultShards) == Read(Shards(7, 10, UINT32_MAX))
  {
    assert DigitsValue(t, 35, 36) == 7 && DigitsValue(t, 37, 39) == 10;
    ParseOpenRange(t, 35, 36, 39);
  }

  /** `prefix(4,0-10)=...`: four shards hashing bytes 0 to 10, with two options. */
  lemma ThirdToken()
    ensures TokenEnd(ExampleText, 42) == |ExampleText|
    ensures ParseColumn(ExampleText, 42, |ExampleText|) == Column(Ranged)
  {
    var t := ExampleText;
    Layout();
    OptionsNoSpace();
    SliceNoneIn(t, 57, |t|, ' ');
    ThirdTokenAt(t);
  }

  /** A text holding Shape at 42, followed by the options up to its end. */
  lemma ThirdTokenAt(t: Bytes)
    requires |t| == 119 && t[42..57] == Shape && t[57..] == ExampleOptions && NoneIn(t, 57, 119, ' ')
    ensures TokenEnd(t, 42) == |t|
    ensures ParseColumn(t, 42, |t|) == Column(Ranged)
  {
    ShapeBytes(t);
    NoneInJoin(t, 42, 57, 119, ' ');
    FindAt(t, ' ', 42, |t|, |t|);
    ShapedAt(t, 42, |t|, 48);
    FindAt(t, '=', 42, |t|, 56);
    ThirdShards(t);
    ParseShapedColumn(t, 42, |t|, 56, 48, ExampleOptions);
  }

  /** Shape, byte by byte, where it lies in t. */
  lemma ShapeBytes(t: Bytes)
    requires |t| >= 57 && t[42..57] == Shape
    ensures t[42..48] == "prefix" && t[48] == '(' && t[49] == '4' && t[50] == ',' && t[51] == '0'
    ensures t[52] == '-' && t[53] == '1' && t[54] == '0' && t[55] == ')' && t[56] == '='
    ensures '(' !in t[42..48] && '=' !in t[42..48]
    ensures NoneIn(t, 42, 57, ' ') && NoneIn(t, 42, 56, '=')
  {
    assert forall i :: 0 <= i < 15 ==> t[42 + i] == Shape[i];
    assert t[42..48] == Shape[..6];
    ShapeNoneIn(t);
  }

  /** Shape holds no space, and no '=' before its last byte. */
  lemma ShapeNoneIn(t: Bytes)
    requires |t| >= 57 && t[42..57] == Shape
    ensures NoneIn(t, 42, 57, ' ') && NoneIn(t, 42, 56, '=')
  {
    assert ' ' !in Shape;
    SliceNoneIn(t, 42, 57, ' ');
    assert t[42..56] == Shape[..14];
    assert '=' !in Shape[..14];
    SliceNoneIn(t, 42, 56, '=');
  }

  /** No c in [a, b) and none in [b, e): none in [a, e). */
  lemma {:induction false} NoneInJoin(t: Bytes, a: nat, b: nat, e: nat, c: Byte)
    requires a <= b <= e <= |t| && NoneIn(t, a, b, c) && NoneIn(t, b, e, c)
    ensures NoneIn(t, a, e, c)
    decreases b - a
  {
    if a < b {
      NoneInJoin(t, a + 1, b, e, c);
    }
  }

  lemma OptionsNoSpace()
    ensures ' ' !in ExampleOptions
  {
    assert ' ' !in "disable_auto_";
    assert ' ' !in "compactions=true,";
    assert ' ' !in "max_bytes_for_";
    assert ' ' !in "level_base=1048576";
  }

  lemma ThirdShards(t: Bytes)
    requires |t| > 55 && t[49] == '4' && t[50] == ',' && t[51] == '0' && t[52] == '-'
    requires t[53] == '1' && t[54] == '0' && t[55] == ')'
    ensures ParseShards(t, 49, Count, DefaultShards) == Read(Shards(4, 0, 10))
  {
    assert DigitsValue(t, 49, 50) == 4 && DigitsValue(t, 51, 52) == 0 && DigitsValue(t, 53, 55) == 10;
    ReadCount(t, 49, 50, DefaultShards);
    ReadLow(t, 51, 52, Shards(4, 0, UINT32_MAX));
    ReadHigh(t, 53, 55, Shards(4, 0, UINT32_MAX));
  }
}
