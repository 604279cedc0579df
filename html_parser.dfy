/**
  `Fl_Html_Parser`'s own state and policies: the scratch buffer, the error
  recovery for a mismatched closing tag, and the word-concatenation rule run
  when a tag is closed.

  Words that are not separated by white space in the source are concatenated
  unless a word-breaking tag lies between them. The parser remembers where
  the last word's text ends (`last_word_finish`) and which link the next word
  should be chained into (`last_word_concatenation`); closing a block-level
  tag writes a space at the former and points the latter at a dummy link, so
  the next word starts afresh.
*/
module HtmlParsers {
  import opened Wrappers
  import opened Text
  import opened XmlObjects
  import opened Tokenizers
  import opened XmlParsers
  import opened HtmlObjects

  /** A `char *` into a word's text buffer, or null. */
  datatype CharRef = NullChar | CharAt(buf: array<char>, offset: nat)

  class HtmlParser {
    /** The `Fl_Xml_Parser` part. */
    const xml: XmlParser
    /** The virtual answers of every node built so far. */
    var tags: map<NodeId, HtmlTag>
    var lastWordFinish: CharRef
    var lastWordConcatenation: Slot
    var buffer: array?<char>
    var bufferSize: int

    /** The scratch buffer holds `buffer_size_` characters, and there is none before the first request. */
    ghost predicate BufferValid()
      reads this
    {
      && bufferSize >= 0
      && (buffer == null ==> bufferSize == 0)
      && (buffer != null ==> buffer.Length == bufferSize)
    }

    /**
      `Fl_Html_Parser(table)`: no scratch buffer yet, and the parent stack of
      a fresh `Fl_Xml_Parser` with its default table size of 32. The C++
      constructor leaves `last_word_finish` and `last_word_concatenation`
      uninitialised, so nothing is promised about them.
    */
    constructor()
      ensures fresh(xml) && xml.Valid() && xml.parentTableSize == 32 && xml.currentParent == 0
      ensures buffer == null && bufferSize == 0 && BufferValid()
      ensures tags == map[]
    {
      xml := new XmlParser(32);
      tags := map[];
      lastWordFinish := NullChar;
      lastWordConcatenation := DummyWordConcatenation;
      buffer := null;
      bufferSize := 0;
    }

    /** `last_word_space(c)`: remembers where a word-breaking tag should write its space. */
    method LastWordSpace(c: CharRef)
      modifies this`lastWordFinish
      ensures lastWordFinish == c
    {
      lastWordFinish := c;
    }

    /**
      `get_buffer(size)`: the scratch buffer, replaced by a new one of exactly
      `size` characters when it is smaller than that. Its old contents are
      not carried over. So it never shrinks, holds at least `size`
      characters afterwards, and is handed back unchanged when big enough.
    */
    method GetBuffer(size: int) returns (b: array?<char>)
      requires BufferValid()
      modifies this`buffer, this`bufferSize
      ensures BufferValid() && b == buffer
      ensures bufferSize == if size > old(bufferSize) then size else old(bufferSize)
      ensures size <= old(bufferSize) ==> buffer == old(buffer)
      ensures size > old(bufferSize) ==> fresh(buffer) && buffer != null && buffer.Length == size
      ensures size > 0 ==> b != null && b.Length >= size
    {
      if size > bufferSize {
        buffer := new char[size];
        bufferSize := size;
      }
      b := buffer;
    }

    /**
      `handle_bad_closing_tag()`: a closing tag that does not match the open
      one is accepted when the open tag is one that others close implicitly
      (nonzero `closed_by()`), or when the token is "/p" in any case, as
      stray paragraph ends are common. The tag open at the current depth must
      be known to the parser.
    */
    function HandleBadClosingTag(): (r: bool)
      reads this, xml, xml.parentTable, xml.parentTableNext, xml.tokenizer
      requires xml.Valid() && xml.tokenizer.HasValue()
      requires xml.Parent().Some? ==> xml.Parent().value in tags
      ensures r <==> || (xml.Parent().Some? && tags[xml.Parent().value].closedBy != 0)
                     || xml.tokenizer.ValueLength() == 0
                     || (xml.tokenizer.ValueLength() == 2 && CaseEqual(View(xml.tokenizer.Value(), 2), "/p"))
    {
      SlashPIsCString();
      var p := xml.Parent();
      if p.Some? && tags[p.value].closedBy != 0 then true
      else IsWord(xml.tokenizer.Value(), "/p", xml.tokenizer.ValueLength())
    }

    /**
      `finish_tag()`, before the tag's own `finish` hook: when the tag being
      closed breaks words, a space is written where the last word ends (bit
      1: the tag is block-level) and the next word is no longer chained to
      the last one. A tag that does not break words changes nothing.
    */
    method FinishTag()
      requires xml.Valid() && xml.Parent().Some? && xml.Parent().value in tags
      requires BreaksWord(tags[xml.Parent().value]) & 1 != 0 ==>
                 lastWordFinish.CharAt? && lastWordFinish.offset < lastWordFinish.buf.Length
      modifies this`lastWordConcatenation, if lastWordFinish.CharAt? then {lastWordFinish.buf} else {}
      ensures var br := BreaksWord(tags[xml.Parent().value]);
        && (br & 1 != 0 ==> lastWordFinish.buf[..] == old(lastWordFinish.buf[..])[lastWordFinish.offset := ' '])
        && (br & 1 == 0 && lastWordFinish.CharAt? ==> lastWordFinish.buf[..] == old(lastWordFinish.buf[..]))
        && (br != 0 ==> lastWordConcatenation == DummyWordConcatenation)
        && (br == 0 ==> lastWordConcatenation == old(lastWordConcatenation))
      ensures BreaksWord(tags[xml.Parent().value]) & 1 != 0 ==>
        forall start :: 0 <= start <= lastWordFinish.offset && |CStr(old(lastWordFinish.buf[start..]))| == lastWordFinish.offset - start ==>
          CStr(lastWordFinish.buf[start..]) == CStr(old(lastWordFinish.buf[start..])) + [' '] + CStr(old(lastWordFinish.buf[lastWordFinish.offset + 1..]))
    {
      var p := xml.Parent().value;
      var br := BreaksWord(tags[p]);
      if br != 0 {
        if br & 1 != 0 {
          ghost var before := lastWordFinish.buf[..];
          lastWordFinish.buf[lastWordFinish.offset] := ' ';
          SpaceAfterEveryStart(before, lastWordFinish.offset);
        }
        lastWordConcatenation := DummyWordConcatenation;
      }
    }
  }

  lemma SlashPIsCString()
    ensures CStr("/p") == "/p"
  {
    CStrConcat("/p", []);
    assert "/p" + [] == "/p";
  }

  /**
    The space written by `finish_tag` takes the place of the NUL that ends
    the last word, so the word reads with a trailing space, followed by
    whatever text the buffer held after that NUL; if a second NUL follows,
    the word is exactly the old one plus the space.
  */
  lemma {:induction false} RetroactiveSpace(s: seq<char>)
    requires |CStr(s)| < |s|
    ensures CStr(s[|CStr(s)| := ' ']) == CStr(s) + [' '] + CStr(s[|CStr(s)| + 1..])
    ensures |CStr(s)| + 1 < |s| && s[|CStr(s)| + 1] == '\0' ==> CStr(s[|CStr(s)| := ' ']) == CStr(s) + [' ']
  {
    var w := CStr(s);
    var rest := s[|w| + 1..];
    OverwriteSplits(s, |w|, ' ');
    assert s[..|w|] == w;
    assert '\0' !in w + [' '] by {
      forall c | c in w + [' '] ensures c != '\0' {
        assert c in w || c == ' ';
      }
    }
    CStrConcat(w + [' '], rest);
    if rest != [] && rest[0] == '\0' {
      assert CStr(rest) == [];
    }
  }

  /**
    `finish_tag`'s write seen from the start of the last word: when the word
    that starts at `start` ends at the NUL at `offset`, the space put there
    makes the word read with a trailing space, followed by what came after.
  */
  lemma SpaceAfterWord(buf: seq<char>, start: nat, offset: nat)
    requires start <= offset < |buf| && |CStr(buf[start..])| == offset - start
    ensures CStr(buf[offset := ' '][start..]) == CStr(buf[start..]) + [' '] + CStr(buf[offset + 1..])
  {
    var s := buf[start..];
    RetroactiveSpace(s);
    assert buf[offset := ' '][start..] == s[offset - start := ' '];
    assert s[offset - start + 1..] == buf[offset + 1..];
  }

  /** `SpaceAfterWord` for every start of a word that ends at `offset`. */
  lemma SpaceAfterEveryStart(buf: seq<char>, offset: nat)
    requires offset < |buf|
    ensures forall start :: 0 <= start <= offset && |CStr(buf[start..])| == offset - start ==>
      CStr(buf[offset := ' '][start..]) == CStr(buf[start..]) + [' '] + CStr(buf[offset + 1..])
  {
    forall start | 0 <= start <= offset && |CStr(buf[start..])| == offset - start
      ensures CStr(buf[offset := ' '][start..]) == CStr(buf[start..]) + [' '] + CStr(buf[offset + 1..])
    {
      SpaceAfterWord(buf, start, offset);
    }
  }

  /** Overwriting position `k` splits the buffer into what precedes it, the new character, and what follows. */
  lemma OverwriteSplits(s: seq<char>, k: nat, c: char)
    requires k < |s|
    ensures s[k := c] == s[..k] + [c] + s[k + 1..]
  {
  }
}
