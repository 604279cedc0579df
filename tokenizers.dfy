/**
  The state and the result codes of the two tokenizers, `Fl_Html_Tokenizer`
  and `Fl_Css_Tokenizer`. Their scanning loops are not part of this model;
  what is modelled is each result code's value, the error/success split the
  callers rely on, the state `reset` establishes and the accessors of the
  last token, and the integer-format flags of `int_value`.
*/
module Tokenizers {
  import opened Wrappers

  /** `Fl_Html_Tokenizer::Result`. */
  datatype HtmlResult =
    | Finish | TagName | AttributeName | AttributeValue | EndTag | EndSelfClosedTag
    | Body | Comment | Cdata | QuestionComment | UnknownComment
    | BadTagName | BadAttributeName | BadAttributeValue | EofInTag | EofInComment
  {
    /** The enumerator's value: tokens are positive, 0 ends the input, errors are negative. */
    function Code(): (c: int)
      ensures c < 0 <==> IsError()
      ensures c == 0 <==> this == Finish
      ensures -5 <= c <= 10
    {
      match this
      case Finish => 0
      case TagName => 1
      case AttributeName => 2
      case AttributeValue => 3
      case EndTag => 4
      case EndSelfClosedTag => 5
      case Body => 6
      case Comment => 7
      case Cdata => 8
      case QuestionComment => 9
      case UnknownComment => 10
      case BadTagName => -1
      case BadAttributeName => -2
      case BadAttributeValue => -3
      case EofInTag => -4
      case EofInComment => -5
    }

    predicate IsError()
    {
      BadTagName? || BadAttributeName? || BadAttributeValue? || EofInTag? || EofInComment?
    }
  }

  /** The result a code stands for, if any. */
  function HtmlResultOf(c: int): (r: Option<HtmlResult>)
    ensures r.Some? ==> r.value.Code() == c
    ensures r.None? <==> c < -5 || c > 10
  {
    if c == 0 then Some(Finish) else if c == 1 then Some(TagName)
    else if c == 2 then Some(AttributeName) else if c == 3 then Some(AttributeValue)
    else if c == 4 then Some(EndTag) else if c == 5 then Some(EndSelfClosedTag)
    else if c == 6 then Some(Body) else if c == 7 then Some(Comment)
    else if c == 8 then Some(Cdata) else if c == 9 then Some(QuestionComment)
    else if c == 10 then Some(UnknownComment) else if c == -1 then Some(BadTagName)
    else if c == -2 then Some(BadAttributeName) else if c == -3 then Some(BadAttributeValue)
    else if c == -4 then Some(EofInTag) else if c == -5 then Some(EofInComment)
    else None
  }

  /** No two results share a code: a caller's `switch` on the value is unambiguous. */
  lemma HtmlResultCodesDistinct(a: HtmlResult, b: HtmlResult)
    ensures a.Code() == b.Code() ==> a == b
  {
    assert HtmlResultOf(a.Code()) == Some(a);
  }

  /** `Fl_Css_Tokenizer::Result`. `COMMA` is a flag bit that marks the token after a comma. */
  const CSS_FINISH: bv32 := 0
  const CSS_SELECTOR: bv32 := 1
  const CSS_PROPERTY: bv32 := 2
  const CSS_VALUE: bv32 := 3
  const CSS_COMMA: bv32 := 4
  const CSS_COMMA_SELECTOR: bv32 := CSS_COMMA | CSS_SELECTOR
  const CSS_COMMA_VALUE: bv32 := CSS_COMMA | CSS_VALUE
  /** -1 in two's complement. */
  const CSS_INVALID_SEPARATOR: bv32 := 0xFFFF_FFFF

  /** Stripping the comma bit recovers the plain kind. */
  lemma CssCommaKinds()
    ensures CSS_COMMA_SELECTOR == 5 && CSS_COMMA_VALUE == 7
    ensures CSS_COMMA_SELECTOR & !CSS_COMMA == CSS_SELECTOR && CSS_COMMA_VALUE & !CSS_COMMA == CSS_VALUE
    ensures CSS_SELECTOR & CSS_COMMA == 0 && CSS_PROPERTY & CSS_COMMA == 0 && CSS_VALUE & CSS_COMMA == 0
  {
  }

  // ---------------------------------------------------------------------
  // `Fl_Html_Tokenizer::Int_Format`, the format policy of `int_value`.

  const FORMAT_10: bv32 := 0
  const FORMAT_8: bv32 := 8
  const FORMAT_16: bv32 := 16
  const FORMAT_0: bv32 := 0x100
  const FORMAT_0X: bv32 := 0x400
  const FORMAT_X: bv32 := 0x800
  const FORMAT_HASH: bv32 := 0x100
  const FORMAT_ALL: bv32 := FORMAT_0 | FORMAT_0X | FORMAT_X | FORMAT_HASH

  /** The prefix rules a format may switch on, each documented with its own flag. */
  datatype PrefixRule = OctalAfterZero | HexAfterZeroX | HexAfterX | HexAfterHash

  /** The flag of each rule, as the enumeration declares it. */
  function RuleFlag(rule: PrefixRule): bv32
  {
    match rule
    case OctalAfterZero => FORMAT_0
    case HexAfterZeroX => FORMAT_0X
    case HexAfterX => FORMAT_X
    case HexAfterHash => FORMAT_HASH
  }

  /** A format value switches on the rules whose flags it has (the flags are meant to be OR-ed). */
  predicate Enables(format: bv32, rule: PrefixRule)
  {
    format & RuleFlag(rule) != 0
  }

  /**
    As declared, FORMAT_HASH and FORMAT_0 are the same bit: asking for "hex
    after '#'" also asks for "octal after a leading 0", so "010" would read as
    eight, not ten, and FORMAT_ALL lacks a bit of its own for '#'.
  */
  lemma FormatHashCollides()
    ensures FORMAT_HASH == FORMAT_0
    ensures Enables(FORMAT_HASH, OctalAfterZero)
    ensures FORMAT_ALL == 0xD00
  {
  }

  /** The flag FORMAT_HASH evidently should have: 0x200 is the free bit between FORMAT_0 and FORMAT_0X. */
  const FORMAT_HASH_DISTINCT: bv32 := 0x200

  function RuleFlagDistinct(rule: PrefixRule): bv32
  {
    match rule
    case OctalAfterZero => FORMAT_0
    case HexAfterZeroX => FORMAT_0X
    case HexAfterX => FORMAT_X
    case HexAfterHash => FORMAT_HASH_DISTINCT
  }

  predicate EnablesDistinct(format: bv32, rule: PrefixRule)
  {
    format & RuleFlagDistinct(rule) != 0
  }

  /** With distinct flags each rule's own flag switches on exactly that rule, and their union switches on all. */
  lemma DistinctFlagsSelectOneRule(rule: PrefixRule, other: PrefixRule)
    ensures EnablesDistinct(RuleFlagDistinct(rule), other) <==> rule == other
    ensures EnablesDistinct(FORMAT_0 | FORMAT_0X | FORMAT_X | FORMAT_HASH_DISTINCT, other)
    ensures !EnablesDistinct(FORMAT_10, other) && !EnablesDistinct(FORMAT_8, other) && !EnablesDistinct(FORMAT_16, other)
  {
  }

  // ---------------------------------------------------------------------
  // Tokenizer state

  /** A position in the tokenizer's input, or null. */
  datatype Ptr = NullPtr | At(offset: nat)

  /** The state of `Fl_Html_Tokenizer`; `input` is the string `pos` was last set to. */
  class HtmlTokenizer {
    var input: seq<char>
    var inTag: int
    var val: Ptr
    var pos: Ptr
    var valLen: int

    /** A token has been read and `val` points into the input. */
    predicate HasValue()
      reads this
    {
      val.At? && val.offset <= |input|
    }

    /** `Fl_Html_Tokenizer(str)`: `reset(str)` on a new tokenizer, with `None` for the null string. */
    constructor(str: Option<seq<char>>)
      ensures inTag == 0 && val == NullPtr && valLen == 0 && !HasValue()
      ensures str.Some? ==> input == str.value && pos == At(0)
      ensures str.None? ==> input == [] && pos == NullPtr
    {
      new;
      Reset(str);
    }

    /** `reset(str)`: scanning restarts at the start of `str`, outside any tag, with no token. */
    method Reset(str: Option<seq<char>>)
      modifies this
      ensures inTag == 0 && val == NullPtr && valLen == 0 && !HasValue()
      ensures str.Some? ==> input == str.value && pos == At(0)
      ensures str.None? ==> input == [] && pos == NullPtr
    {
      input := if str.Some? then str.value else [];
      pos := if str.Some? then At(0) else NullPtr;
      inTag := 0;
      val := NullPtr;
      valLen := 0;
    }

    /** `value()`: the input from the last token's start (not null-terminated). */
    function Value(): seq<char>
      reads this
      requires HasValue()
    {
      input[val.offset..]
    }

    /** `value_length()`. */
    function ValueLength(): int
      reads this
    {
      valLen
    }
  }

  /** The state of `Fl_Css_Tokenizer`. */
  class CssTokenizer {
    var str: Option<seq<char>>
    var len: int
    var result: int

    /** `Fl_Css_Tokenizer(str, len = -1, in_field = SELECTOR)`: `reset(str, len, in_field)` on a new tokenizer. */
    constructor(str: Option<seq<char>>, len: int, inField: int)
      ensures this.str == str && this.len == len && result == inField
    {
      new;
      Reset(str, len, inField);
    }

    /** `reset(str, len, in_field)`: the next token is read from `str`, as if from field `inField`. */
    method Reset(str: Option<seq<char>>, len: int, inField: int)
      modifies this
      ensures this.str == str && this.len == len && result == inField
    {
      this.str := str;
      this.len := len;
      this.result := inField;
    }
  }
}
