# A model of the markup parser engine of `Fl_Html_Parser.H`

This project models the parsing engine that `html/Fl_Html_Parser.H` declares, in Dafny,
and proves properties of the model. The engine is a forgiving HTML tokenizer and a
tree builder on top of it. The builder links tag and word nodes into a tree of
`next` (next sibling) and `aux` (first child) links. It keeps a parent stack
indexed by nesting depth. The HTML layer adds recovery for mismatched closing tags
and a rule for when adjacent words run together.

Two kinds of member are modelled.

- Members whose bodies are in the header are modelled from those bodies. These are
  the tree walks `destroy_object_list`, `destroy_children` and `iterate_list`, the
  parent stack (`add_object`, `pop_parent`, `last_object`, `parent`),
  `friendly_error`, both `name_compares`, `is_word`, `skip_spaces`,
  `breaks_word`, `handle_bad_closing_tag`, `finish_tag`, `get_buffer`,
  `last_word_space`, and both tokenizers' `reset`.
- Members the header only declares are modelled from their doc comments. These are
  the pair table (`add_`, `replace_`, and the four `find` look-ups) and the string
  helpers `substring`, `case_substring`, `name_substring` and `case_name_substring`.
- `spaces` is declared with no body and no comment. Its meaning is taken from its
  name and from the comment of `skip_spaces`, which calls it (658-664).

Modules, one per file:

- `Text` (`text.dfy`): the C-string helpers. A `char *` argument is a
  `seq<char>` read up to its first NUL. A length argument of -1 means "unknown but
  null-terminated". `View(src, len)` is the part of `src` a helper may read.
- `PairTables` (`pair_table.dfy`): `Fl_Html_Pair_Table` as a class over its
  sequence of entries, plus the newest-first search `Newest` that specifies it.
- `Tokenizers` (`tokenizers.dfy`): the result codes of both tokenizers, the
  `Int_Format` flag values, and the state each tokenizer's `reset` sets.
- `XmlObjects` (`xml_object.dfy`): the `next`/`aux` tree as the datatype
  `ObjectList`, with the iteration and destruction loops proved against
  pre-order and deletion-order functions.
- `XmlParsers` (`xml_parser.dfy`): `Fl_Xml_Parser`'s parent stack as a class
  over the two arrays. A `Slot` is a link address. `cells` is the memory those
  addresses designate. Ghost chains record the sibling list of every open depth.
- `HtmlObjects` (`html_object.dfy`): the `Type` bits, `breaks_word`,
  `is_word`, `skip_spaces` and the case-insensitive `name_compares`.
- `HtmlParsers` (`html_parser.dfy`): `Fl_Html_Parser`'s scratch buffer, its
  closing-tag recovery and its word-concatenation step.
- `Wrappers` (`wrappers.dfy`): `Option`.

Inheritance is modelled by composition. `XmlParser` holds its tokenizer part, and
`HtmlParser` holds its `XmlParser` part. A node's virtual answers (`name()`,
`type()`, `closed_by()`, and an overriding `breaks_word()`) are data of the node,
the datatype `HtmlTag`, looked up by node identity.

Three facts about the code shape the model (line numbers refer to `html/Fl_Html_Parser.H`):

- `get_buffer` drops the old contents when it grows: it deletes the old buffer and
  allocates a new one without copying (744-745).
- `destroy_object_list` deletes the whole sibling chain it is given, each node's
  children first (445-452), and `destroy_children` deletes the whole child chain
  (440-443).
- The retroactive space between words is written by `finish_tag`, when the tag
  being closed has bit 1 of `breaks_word()` set (775-782).

## Model

| member | source | states |
|---|---|---|
| Text.Substring | html/Fl_Html_Parser.H:327-329 | the result is `strlen(to)` exactly when `to` is non-empty and starts the readable part of `src`, otherwise 0; it never exceeds a given length |
| Text.CaseSubstring | html/Fl_Html_Parser.H:331-332 | as `Substring`, ignoring ASCII case |
| Text.NameSubstring | html/Fl_Html_Parser.H:334-342 | the result is `strlen(to)` exactly when the `substring` match succeeds and ends the readable part or is followed by a name terminator, otherwise 0; a positive length shorter than `to` always gives 0 |
| Text.CaseNameSubstring | html/Fl_Html_Parser.H:344-345 | as `NameSubstring`, ignoring ASCII case |
| Text.Spaces | html/Fl_Html_Parser.H:658-664 | the result counts exactly the white space that starts the readable part: all counted characters are spaces and the next readable one is not |
| Text.ViewWithinLength | html/Fl_Html_Parser.H:336-340 | given a length, what a helper may read is the same whatever follows the first `len` characters |
| Text.SubstringWithinLength | html/Fl_Html_Parser.H:336-340 | all four prefix helpers give the same answer whatever follows the declared length: none reads past it |
| Text.CaseMatchesWeaker | html/Fl_Html_Parser.H:331-345 | every case-sensitive match is also a case-insensitive match, of the same length |
| PairTables.Newest | html/Fl_Html_Parser.H:27 | the index found is the newest entry that answers the look-up; no newer entry answers; none means no entry answers |
| PairTables.Replaced | html/Fl_Html_Parser.H:34-36 | when an entry has the name, the newest such entry gets the new value and keeps its name, every other entry stays, and its old value is returned; otherwise the pair is appended and there is no previous value |
| PairTables.PairTable.constructor | html/Fl_Html_Parser.H:20 | the table starts empty with room for `size` entries |
| PairTables.PairTable.FromStatic | html/Fl_Html_Parser.H:18 | a table over a caller's array holds its first `filled` entries, with that array's capacity |
| PairTables.PairTable.Copy | html/Fl_Html_Parser.H:19 | the copy holds the same entries |
| PairTables.PairTable.Add | html/Fl_Html_Parser.H:24-32 | the pair is appended after every existing entry, with no duplicate check; capacity grows when full and never shrinks |
| PairTables.PairTable.Replace | html/Fl_Html_Parser.H:34-36 | the new entries and the returned previous value are those of `Replaced`: the newest entry of that name takes the value and its old value is returned, or the pair is appended and there is no previous value; the storage never shrinks |
| PairTables.PairTable.Find | html/Fl_Html_Parser.H:39-52 | 0, with `value` untouched, exactly when no entry answers; otherwise the length of the newest answering name and that entry's value |
| PairTables.PrefixMatchAdvances | html/Fl_Html_Parser.H:39-43 | after a prefix hit, the first (returned count) characters of `src` are the key and fit in the length, so the caller may advance by it |
| PairTables.AddOverrides | html/Fl_Html_Parser.H:27 | an entry added last answers before every older entry it matches |
| PairTables.AddOther | html/Fl_Html_Parser.H:27 | adding an entry that does not answer a look-up leaves that look-up unchanged |
| PairTables.ReplaceThenFind | html/Fl_Html_Parser.H:34-36 | after `replace_`, an exact look-up of the name yields the new value, and `replace_` returned what that look-up found before (none if the name was absent) |
| PairTables.CaseFindsNoOlder | html/Fl_Html_Parser.H:45-52 | when a case-sensitive look-up succeeds, the case-insensitive one succeeds too, on the same entry or a newer one |
| PairTables.ExactAtNul | html/Fl_Html_Parser.H:48-51 | an exact look-up with an explicit length finds a key that the source spells up to its NUL ("amp" in "amp\0x" with length 5), ignoring case for `find_case_`, and not a key that is only a prefix of the source within the length |
| PairTables.ExactIsPrefix | html/Fl_Html_Parser.H:39-49 | when `find_` succeeds, `find_substring_` succeeds too, on the same entry or a newer one |
| Tokenizers.HtmlResult.Code | html/Fl_Html_Parser.H:158-177 | the codes are those of `Result`: errors exactly the negative ones, `FINISH` exactly 0, all within -5..10 |
| Tokenizers.HtmlResultOf | html/Fl_Html_Parser.H:158-177 | every code in -5..10 is a result, with that code, and no other value is |
| Tokenizers.HtmlResultCodesDistinct | html/Fl_Html_Parser.H:158-177 | no two results share a code |
| Tokenizers.CssCommaKinds | html/Fl_Html_Parser.H:96-106 | `COMMA_SELECTOR` is 5 and `COMMA_VALUE` is 7; clearing the `COMMA` bit gives back the plain kind, which never has that bit |
| Tokenizers.FormatHashCollides | html/Fl_Html_Parser.H:302-306 | as written, `FORMAT_HASH` equals `FORMAT_0`, so asking for '#' also switches on octal-after-0, and `FORMAT_ALL` is 0xD00 |
| Tokenizers.DistinctFlagsSelectOneRule | html/Fl_Html_Parser.H:297-315 | with `FORMAT_HASH` on its own bit, each rule's flag switches on that rule only, their union switches on all, and the forcing formats switch on none |
| Tokenizers.HtmlTokenizer.constructor | html/Fl_Html_Parser.H:404-406 | the constructor is `reset(str)` on a new tokenizer: it starts outside any tag with no token, reading from the start of `str` (null stays null) |
| Tokenizers.HtmlTokenizer.Reset | html/Fl_Html_Parser.H:407-412 | `reset` clears the tag flag and the token and points the scan position at `str` |
| Tokenizers.CssTokenizer.constructor | html/Fl_Html_Parser.H:114-116 | the constructor is `reset(str, len, in_field)` on a new tokenizer: it sets the string, its length and the starting field |
| Tokenizers.CssTokenizer.Reset | html/Fl_Html_Parser.H:109-111 | `reset` sets the string, its length and the starting field |
| XmlObjects.IterateList | html/Fl_Html_Parser.H:456-463 | the callback calls, in order, are the pre-order of the list with levels: a node at `level`, its children at `level+1`, then its next siblings |
| XmlObjects.PreOrderIsForestOrder | html/Fl_Html_Parser.H:456-463 | that order is the pre-order of the tree the links describe, with each child one level below its parent |
| XmlObjects.PreOrderVisitsAll | html/Fl_Html_Parser.H:456-463 | the callback is called once per node reachable through the links, with multiplicity, and as many times as there are nodes |
| XmlObjects.UniqueIdsOnce | html/Fl_Html_Parser.H:430-431 | in a tree of distinct nodes each node occurs exactly once |
| XmlObjects.IterateVisitsEachOnce | html/Fl_Html_Parser.H:456-463 | on a tree of distinct nodes the callback is called exactly once on each node and on nothing else |
| XmlObjects.DestroyChildren | html/Fl_Html_Parser.H:440-443 | the children are deleted in deletion order, none of them twice, and `aux_` is left null with the rest of the node unchanged; the node must not be among its own descendants, or `aux_ = 0` would write to a deleted node |
| XmlObjects.DestroyObjectList | html/Fl_Html_Parser.H:445-452 | every node of the chain and below is deleted, in deletion order, each while still live, and the live set loses exactly those nodes |
| XmlObjects.DeletionOrderCounts | html/Fl_Html_Parser.H:445-452 | the nodes deleted are the tree's nodes, with multiplicity |
| XmlObjects.DestroyDeletesEachOnce | html/Fl_Html_Parser.H:445-452 | on a tree of distinct nodes each node is deleted exactly once and nothing else is, one deletion per node |
| XmlObjects.NameCompares | html/Fl_Html_Parser.H:483-486 | true exactly when `len` is 0 or the first `len` characters of `str` are the name, case-sensitively |
| XmlParsers.ReadSlotsWithin | html/Fl_Html_Parser.H:534-539 | a sibling chain reads only the slot it hangs from and the `next_` fields of its own nodes |
| XmlParsers.LinkedEnd | html/Fl_Html_Parser.H:536-538 | a depth's next-slot is the slot its chain hangs from while the chain is empty, and the last node's `next_` otherwise |
| XmlParsers.LinkedFrame | html/Fl_Html_Parser.H:537 | a store through an address a chain does not read leaves that chain intact |
| XmlParsers.EndNotRead | html/Fl_Html_Parser.H:537-538 | a chain of distinct nodes never reads its own next-slot, so storing there does not cut it |
| XmlParsers.LinkedAppend | html/Fl_Html_Parser.H:536-538 | storing a node in the next-slot appends it to the chain, and its own `next_` becomes the new next-slot |
| XmlParsers.FriendlyError | html/Fl_Html_Parser.H:607-610 | "No error" exactly for 0, "Unknown error" exactly from `LAST_ERROR` on, and each of codes 1-4 its own entry of `error_strings`; a negative code is excluded, as it would index before the table |
| XmlParsers.FriendlyErrorDistinct | html/Fl_Html_Parser.H:509-515 | each code below `LAST_ERROR` has its own message, and `UNKNOWN_ERROR` gets "Unknown error" |
| XmlParsers.XmlParser.constructor | html/Fl_Html_Parser.H:581-585 | tables of `table_size` entries, at depth 0, with an empty chain hanging from the parse result |
| XmlParsers.XmlParser.LastObject | html/Fl_Html_Parser.H:587 | the last node added at the current depth |
| XmlParsers.XmlParser.Parent | html/Fl_Html_Parser.H:589-592 | null at depth 0, otherwise the last node added one level up |
| XmlParsers.XmlParser.PopParent | html/Fl_Html_Parser.H:531-532 | the depth drops by one and the chains of the remaining depths and all links are unchanged |
| XmlParsers.XmlParser.AddObject | html/Fl_Html_Parser.H:534-539 | null changes nothing; otherwise the node is stored through the current next-slot, which moves to its `next_`, becomes the last object, is appended to the current depth's chain, and no other depth or link changes |
| HtmlObjects.TypeBits | html/Fl_Html_Parser.H:675-683 | `DD` is `LI` and `DT` together, not a bit of its own; `BLOCK` is the only low bit |
| HtmlObjects.BreaksWord | html/Fl_Html_Parser.H:700-704 | an override answers for itself; by default the result is non-zero exactly for block-level tags, and is 0 or `BLOCK` |
| HtmlObjects.DefaultBreaksWordSpace | html/Fl_Html_Parser.H:700-704 | by default bit 1 is set whenever any bit is, and a tag with only non-block kind bits breaks no word |
| HtmlObjects.IsWord | html/Fl_Html_Parser.H:655-656 | true exactly when `str_len` is 0 or the first `str_len` characters of `str` are `to`, ignoring case |
| HtmlObjects.SkipSpaces | html/Fl_Html_Parser.H:658-664 | the count is `spaces(str, len)`; `str` advances and `len` shrinks by it; what is left to read is the old readable part less the skipped spaces, and does not start with a space |
| HtmlObjects.SkipSpacesIdempotent | html/Fl_Html_Parser.H:658-664 | skipping spaces a second time skips nothing |
| HtmlObjects.NameCompares | html/Fl_Html_Parser.H:668-673 | false for a nameless node; otherwise true exactly when `len` is 0 or the first `len` characters spell the name, ignoring case |
| HtmlObjects.IsWordIsNameCompares | html/Fl_Html_Parser.H:655-673 | on a named node, `is_word` and the HTML `name_compares` agree |
| HtmlParsers.HtmlParser.constructor | html/Fl_Html_Parser.H:788-789 | no scratch buffer and a size of 0, over a fresh parent stack of 32 depths |
| HtmlParsers.HtmlParser.LastWordSpace | html/Fl_Html_Parser.H:739-741 | records where the next retroactive space goes, changing nothing else |
| HtmlParsers.HtmlParser.GetBuffer | html/Fl_Html_Parser.H:742-749 | afterwards the size is the larger of the old size and `size`; a big enough buffer comes back unchanged, otherwise a fresh one of exactly `size`; a positive request gets at least `size` characters |
| HtmlParsers.HtmlParser.HandleBadClosingTag | html/Fl_Html_Parser.H:766-772 | true exactly when the open tag has a non-zero `closed_by()`, or the token has length 0, or it is "/p" in any case |
| HtmlParsers.HtmlParser.FinishTag | html/Fl_Html_Parser.H:775-786 | when `breaks_word()` has bit 1 a space is written at the last word's end; when it is non-zero the concatenation link becomes the dummy; when it is 0 nothing changes; for any word in the buffer that ended at the overwritten NUL, the word now reads with a trailing space followed by what came after it |
| HtmlParsers.SpaceAfterWord | html/Fl_Html_Parser.H:775-786 | the write of `finish_tag` seen from where the last word starts: if that word ends at the NUL at `last_word_finish`, afterwards it reads as the word, a space, and what followed the NUL |
| HtmlParsers.SpaceAfterEveryStart | html/Fl_Html_Parser.H:775-786 | the same for every start of a word that ends at the overwritten NUL |
| HtmlParsers.RetroactiveSpace | html/Fl_Html_Parser.H:775-786 | the space replaces the NUL ending the last word, so the word reads with a trailing space; with the second NUL `translate_copy` provides, it reads as exactly the word plus the space |

## Left out

- `push_parent`: declared without a body, so the model has no way to open a nesting depth; the parent stack starts at depth 0 and only shrinks from a depth that was given.
- `XmlParsers.XmlParser.constructor`: the C++ constructor only allocates the tables; the depth-0 state the model starts in is the one `parse` sets up, and `parse` has no body here.
- `XmlParsers.XmlParser.PopParent`: requires a depth above 0; the C++ code decrements unconditionally, and below 0 `last_object()` would read before the table.
- `Fl_Xml_Parser::parse` and `Fl_Html_Parser::parse` (605, 774), `add_object` of the HTML parser (734), `Fl_Html_Parser::process_body` (736), `create_word` and `create_tag` of the HTML parser (764-765): declared without bodies, so the parse loop that calls the modelled members is not modelled.
- `create_tag`, `create_word` (542-545) and `process_attribute` (490): pure virtual factories and hooks with no body, left out as parameters of the parse.
- `create_comment` (551), `no_body` (497), `Fl_Xml_Parser::process_body` (563) and `Fl_Html_Object_::process_body` (710): trivial virtual defaults (discard the comment, no tag lacks a body, no special body processing), used only by the bodiless `parse`.
- `Fl_Xml_Parser::handle_bad_closing_tag` and `Fl_Xml_Parser::finish_tag` (556, 560): the XML defaults, which reject every mismatched closing tag and do nothing; the model has only the HTML overrides `HandleBadClosingTag` and `FinishTag`, as `parse`, their only caller, has no body.
- `Fl_Html_Object_::finish`, called at the end of `finish_tag`: a virtual hook whose default does nothing; `FinishTag` models the part before it.
- `HtmlParsers.HtmlParser.constructor`: promises nothing about `last_word_finish` and `last_word_concatenation`, which the C++ constructor leaves uninitialised; the creation table, image creator, file name and directory are not modelled.
- The tokenizers' `operator()` and the `read_*` helpers and `Fl_Css_Parser::parse_inline`: declared without bodies, so no scanning rule is modelled.
- `Property` (132-146): a holder of one CSS property's values, filled only by its bodiless `add` and by the unmodelled CSS parser; its accessors, `property(p, length)` and `clear` only store or return fields.
- `int_value`, `signed_int_value`, `float_value`, `translate`, `translate_copy`, `str_equal`, `first_word_equal`, `case_first_word_equal` and `get_word`: declared without bodies; only the `Int_Format` flag values are modelled.
- `translate_in_place` (285-288) and `is_first_word` (666): one-line wrappers around the bodiless `translate` and `case_first_word_equal`.
- `default_table` and `default_create_object_table`: static tables whose contents are not in the header.
- `last_result`, `special_character_table`, `image_creator`, `filename`, `directory`, `index`: plain accessors of state that only the unmodelled members set.
- `value()` and `value_length()` (397-401): plain accessors of the last token, modelled as `Tokenizers.HtmlTokenizer.Value` and `Tokenizers.HtmlTokenizer.ValueLength` without contracts of their own, since the token they return is set only by the unmodelled `operator()`.
- `PairTables.PairTable.Find`: that `value` is left as passed in when the look-up fails is an assumption; the comments of 39-52 only promise the result 0, and this is the rule documented for `int_value` (311).
- `XmlObjects.IterateList`: the callback is left out, and the model assumes it does not change the links; in the C++ code it receives a non-const node (454) before that node's `children()` and `next()` are read (458-461), so a callback that relinks nodes changes the walk and the once-each, pre-order result does not hold for it.
- `Text.Spaces`: `spaces` has neither body nor comment; the model takes it to count the leading characters of the readable part for which the C locale's `isspace` holds (space, tab, newline, carriage return, vertical tab, form feed), never reading past `len`.
- The pair table's `static_table` flag, `resize_buffer` and the growth factor: `PairTables.PairTable.Add` states only that capacity grows when full and never shrinks, not by how much.
- `Text.NameSubstring` and `Text.CaseNameSubstring`: the doc comment names white space, '>' and '=' "and similar" as terminators; the model fixes the set to white space, '>', '=' and '/'.
- `HtmlObjects.IsWord`: under the documented contract a zero `str_len` matches every word, so a zero-length closing token is accepted by `handle_bad_closing_tag`; this follows from the contract of `case_name_substring`, whose body is not in the header.
- `HtmlParsers.HtmlParser.GetBuffer`: models the size and identity of the buffer, not its contents, which are not carried over on growth.
- Memory management: nodes are identities and deletion is the removal from a live set; the freeing of tables and buffers in destructors is not modelled.
- The children of a node are the `aux_` chain, which is what the base `children()` returns; a subclass that uses `aux_` for the next word and overrides `children()` is not modelled.

## Findings

| source | as written | input that shows it | evidently intended | confidence | as-written member | corrected member |
|---|---|---|---|---|---|---|
| html/Fl_Html_Parser.H:302-305 | `FORMAT_HASH = 0x100`, the same value as `FORMAT_0` | the format `FORMAT_HASH` has bit 0x100, so it also enables octal after a leading 0 ("010" is eight) | a bit of its own, such as the unused 0x200, so each prefix rule is selected alone | medium; not executed | Tokenizers.FormatHashCollides | Tokenizers.DistinctFlagsSelectOneRule |
