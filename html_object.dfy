/**
  `Fl_Html_Object_`, the base of HTML tags and words: the tag-kind bits, the
  word-breaking rule, and the static name helpers `is_word` and
  `skip_spaces`. A node's virtual answers (`name()`, `type()`,
  `closed_by()`, and `breaks_word()` where a subclass overrides it) are data
  of the node here.
*/
module HtmlObjects {
  import opened Wrappers
  import opened Text

  /** `Fl_Html_Object_::Type`. */
  const BLOCK: bv32 := 1
  const TD: bv32 := 2
  const TR: bv32 := 4
  const TABLE: bv32 := 8
  const LI: bv32 := 0x10
  const DT: bv32 := 0x20
  const DD: bv32 := 0x30

  /**
    The kind bits as written: DD is not a bit of its own but LI and DT
    together, so a DD tag also tests as LI and as DT. Only BLOCK is the low bit.
  */
  lemma TypeBits()
    ensures DD == LI | DT
    ensures DD & LI == LI && DD & DT == DT
    ensures (TD | TR | TABLE | LI | DT | DD) & BLOCK == 0
    ensures TD & TR == 0 && TR & TABLE == 0 && TD & TABLE == 0 && LI & DT == 0
  {
  }

  /**
    What a node answers to its virtual methods: `name()` (null for a word),
    `type()`, `closed_by()`, and `breaks_word()` when a subclass redefines it.
  */
  datatype HtmlTag = HtmlTag(name: Option<seq<char>>, typeBits: bv32, closedBy: int, breaksWordOverride: Option<bv32>)

  /**
    `breaks_word()`. By default a tag breaks words exactly when it is
    block-level, and the default answer only ever uses bit 1 (bit 2, an
    "alien close-by object", comes only from an override).
  */
  function BreaksWord(o: HtmlTag): (r: bv32)
    ensures o.breaksWordOverride.Some? ==> r == o.breaksWordOverride.value
    ensures o.breaksWordOverride.None? ==> (r != 0 <==> o.typeBits & BLOCK != 0)
    ensures o.breaksWordOverride.None? ==> r == 0 || r == BLOCK
  {
    match o.breaksWordOverride
    case Some(b) => b
    case None => BLOCK & o.typeBits
  }

  /** By default the space bit is set whenever any bit is, and a tag carrying only non-block kind bits breaks no word. */
  lemma DefaultBreaksWordSpace(o: HtmlTag)
    requires o.breaksWordOverride.None?
    ensures BreaksWord(o) & 1 != 0 <==> BreaksWord(o) != 0
    ensures o.typeBits & (TD | TR | TABLE | LI | DT | DD) == o.typeBits ==> BreaksWord(o) == 0
  {
  }

  /**
    `is_word(str, to, str_len)`: the first `str_len` characters of `str` are
    the word `to`, ignoring case. A zero length matches every word.
  */
  function IsWord(str: seq<char>, to: seq<char>, strLen: int): (r: bool)
    ensures r <==> strLen == 0 || (strLen == |CStr(to)| && CaseEqual(View(str, strLen), CStr(to)))
  {
    strLen == CaseNameSubstring(str, to, strLen)
  }

  /** The result of `skip_spaces(str, len)`: the count it returns and the new values of its two reference arguments. */
  datatype Skipped = Skipped(count: nat, str: seq<char>, len: int)

  /**
    `skip_spaces`: advances `str` past its leading white space (within `len`)
    and shortens `len` by as much, returning how many characters it skipped.
    What is left to read is the rest of what could be read before, and it
    does not start with white space.
  */
  function SkipSpaces(str: seq<char>, len: int): (r: Skipped)
    ensures r.count == Spaces(str, len)
    ensures r.str == str[r.count..] && r.len == len - r.count
    ensures forall i :: 0 <= i < r.count ==> IsSpace(str[i])
    ensures View(r.str, r.len) == View(str, len)[r.count..]
    ensures View(r.str, r.len) != [] ==> !IsSpace(View(r.str, r.len)[0])
  {
    var a := Spaces(str, len);
    ViewDrop(str, len, a);
    Skipped(a, str[a..], len - a)
  }

  /** The readable part of a string advanced by `k` readable characters is the old one less those `k`. */
  lemma ViewDrop(str: seq<char>, len: int, k: nat)
    requires k <= |View(str, len)|
    ensures View(str[k..], len - k) == View(str, len)[k..]
  {
    var c := CStr(str);
    CStrDrop(str, k);
    if 0 <= len < |c| {
      assert c[..len][k..] == c[k..][..len - k];
    }
  }

  /** Skipping spaces twice skips nothing the second time. */
  lemma SkipSpacesIdempotent(str: seq<char>, len: int)
    ensures var r := SkipSpaces(str, len); SkipSpaces(r.str, r.len) == Skipped(0, r.str, r.len)
  {
    var r := SkipSpaces(str, len);
    var v := View(r.str, r.len);
    assert Spaces(r.str, r.len) == LeadingSpaces(v);
    if v != [] {
      assert !IsSpace(v[0]);
    }
    assert r.str[0..] == r.str;
  }

  /**
    `Fl_Html_Object_::name_compares(str, len)`: the case-insensitive
    counterpart of the XML one. A node without a name (a word) compares
    unequal to everything; otherwise the first `len` characters of `str`
    must spell the name, ignoring case, and a zero `len` matches.
  */
  function NameCompares(o: HtmlTag, str: seq<char>, len: int): (r: bool)
    ensures o.name.None? ==> !r
    ensures o.name.Some? ==> (r <==> len == 0 || (len == |CStr(o.name.value)| && CaseEqual(View(str, len), CStr(o.name.value))))
  {
    match o.name
    case None => false
    case Some(n) => len == CaseSubstring(str, n, len)
  }

  /**
    On a complete token the two comparisons agree: `is_word` asks for a name
    boundary after the match and `name_compares` does not, but a match that
    fills the whole length has nothing after it.
  */
  lemma IsWordIsNameCompares(o: HtmlTag, str: seq<char>, len: int)
    requires o.name.Some?
    ensures IsWord(str, o.name.value, len) == NameCompares(o, str, len)
  {
  }
}
