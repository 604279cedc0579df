/**
  `Fl_Html_Pair_Table`: an ordered table of (name, value) entries searched
  newest-first, by exact name or by name as a leading substring of the source,
  case-sensitively or not. The special-character table (entity name to UTF-8
  text) and the tag-creation table are both instances.

  The table's member bodies are not part of this model; what is modelled is
  their documented behaviour, over the sequence of entries the table holds.
*/
module PairTables {
  import opened Wrappers
  import opened Text

  /** An entry: a null-terminated name and an opaque value. */
  datatype Entry<V> = Entry(name: seq<char>, value: V)

  /** The four look-ups: `find_substring_`, `find_case_substring_`, `find_`, `find_case_`. */
  datatype Mode = Prefix | CasePrefix | Exact | CaseExact

  /**
    Whether an entry named `name` answers a look-up of `src` within `length`.
    A prefix look-up wants the name at the start of `src`; an exact one wants
    the readable part of `src` to be the name, and either `src` ends with it
    at its NUL or `length` is the name's length (a negative `length` reads up
    to the NUL). An empty name never answers, since a zero-length match
    cannot be told apart from failure.
  */
  predicate Matches(mode: Mode, name: seq<char>, src: seq<char>, length: int)
  {
    var key := CStr(name);
    match mode
    case Prefix => Substring(src, name, length) != 0
    case CasePrefix => CaseSubstring(src, name, length) != 0
    case Exact => key != [] && View(src, length) == key && (length < 0 || length == |key| || CStr(src) == key)
    case CaseExact => key != [] && CaseEqual(View(src, length), key) && (length < 0 || length == |key| || CaseEqual(CStr(src), key))
  }

  /** The index of the newest entry that answers the look-up, if any. */
  function Newest<V>(entries: seq<Entry<V>>, mode: Mode, src: seq<char>, length: int): (r: Option<nat>)
    ensures r.Some? ==> r.value < |entries| && Matches(mode, entries[r.value].name, src, length)
    ensures r.Some? ==> forall j :: r.value < j < |entries| ==> !Matches(mode, entries[j].name, src, length)
    ensures r.None? ==> forall j :: 0 <= j < |entries| ==> !Matches(mode, entries[j].name, src, length)
  {
    if entries == [] then None
    else if Matches(mode, entries[|entries| - 1].name, src, length) then Some(|entries| - 1)
    else Newest(entries[..|entries| - 1], mode, src, length)
  }

  /**
    The entries after `replace_(name, value)`, and the value it returns: the
    newest entry of that exact name gets the new value, keeps its name and
    every other entry stays, and its old value is returned; if no entry has
    that name, the pair is appended and there is no previous value.
  */
  function Replaced<V>(entries: seq<Entry<V>>, name: seq<char>, value: V): (r: (seq<Entry<V>>, Option<V>))
    ensures Newest(entries, Exact, name, -1).None? ==> r == (entries + [Entry(name, value)], None)
    ensures Newest(entries, Exact, name, -1).Some? ==>
      var i := Newest(entries, Exact, name, -1).value;
      && |r.0| == |entries|
      && r.0[i] == Entry(entries[i].name, value)
      && r.1 == Some(entries[i].value)
      && (forall j :: 0 <= j < |entries| && j != i ==> r.0[j] == entries[j])
  {
    match Newest(entries, Exact, name, -1)
    case Some(i) => (entries[i := entries[i].(value := value)], Some(entries[i].value))
    case None => (entries + [Entry(name, value)], None)
  }

  class PairTable<V> {
    /** `table[0..n)`, oldest first. */
    var entries: seq<Entry<V>>
    /** `table_size_`: how many entries the storage holds before it must grow. */
    var tableSize: nat

    ghost predicate Valid()
      reads this
    {
      |entries| <= tableSize
    }

    /** `Fl_Html_Pair_Table(int size = 64)`: an empty table with room for `size` entries. */
    constructor(size: nat)
      ensures Valid() && entries == [] && tableSize == size
    {
      entries := [];
      tableSize := size;
    }

    /** The table built over a caller's array already holding `filled` entries. */
    constructor FromStatic(table: seq<Entry<V>>, filled: nat)
      requires filled <= |table|
      ensures Valid() && entries == table[..filled] && tableSize == |table|
    {
      entries := table[..filled];
      tableSize := |table|;
    }

    /** The copy constructor. */
    constructor Copy(other: PairTable<V>)
      requires other.Valid()
      ensures Valid() && entries == other.entries
    {
      entries := other.entries;
      tableSize := other.tableSize;
    }

    /** `add_`: appends the pair; no duplicate check, the storage grows when full. */
    method Add(name: seq<char>, value: V)
      requires Valid()
      modifies this
      ensures Valid()
      ensures entries == old(entries) + [Entry(name, value)]
      ensures tableSize >= old(tableSize)
    {
      if |entries| == tableSize {
        tableSize := 2 * tableSize + 1;
      }
      entries := entries + [Entry(name, value)];
    }

    /** `replace_`: gives the newest entry of that name the new value, or adds the pair; returns the previous value. */
    method Replace(name: seq<char>, value: V) returns (previous: Option<V>)
      requires Valid()
      modifies this
      ensures Valid()
      ensures (entries, previous) == Replaced(old(entries), name, value)
      ensures tableSize >= old(tableSize)
    {
      var (after, prev) := Replaced(entries, name, value);
      if |after| > tableSize {
        tableSize := 2 * tableSize + 1;
      }
      entries, previous := after, prev;
    }

    /**
      The four look-ups. On success: the matched name's length (so that a
      caller can advance `src` by it) and that entry's value, from the newest
      entry that answers. On failure: 0, and `value` as it was passed in.
    */
    function Find(mode: Mode, src: seq<char>, value: V, length: int): (r: (int, V))
      reads this
      ensures r.0 == 0 ==> r.1 == value
      ensures r.0 == 0 <==> forall j :: 0 <= j < |entries| ==> !Matches(mode, entries[j].name, src, length)
      ensures r.0 != 0 ==> exists i :: 0 <= i < |entries| && Matches(mode, entries[i].name, src, length)
                                        && r == (|CStr(entries[i].name)|, entries[i].value)
                                        && forall j :: i < j < |entries| ==> !Matches(mode, entries[j].name, src, length)
    {
      match Newest(entries, mode, src, length)
      case None => (0, value)
      case Some(i) => (|CStr(entries[i].name)|, entries[i].value)
    }
  }

  // ---------------------------------------------------------------------
  // Properties of the look-ups

  /** A prefix match tells the caller how far to advance: the first `n` characters of `src` are the name. */
  lemma PrefixMatchAdvances<V>(entries: seq<Entry<V>>, src: seq<char>, length: int)
    ensures var r := Newest(entries, Prefix, src, length);
      r.Some? ==> src[..|CStr(entries[r.value].name)|] == CStr(entries[r.value].name)
                  && (length >= 0 ==> |CStr(entries[r.value].name)| <= length)
  {
  }

  /** `Newest` depends only on which entries answer. */
  lemma {:induction false} NewestAgrees<V>(a: seq<Entry<V>>, b: seq<Entry<V>>,
                                          m1: Mode, s1: seq<char>, l1: int,
                                          m2: Mode, s2: seq<char>, l2: int)
    requires |a| == |b|
    requires forall j :: 0 <= j < |a| ==> (Matches(m1, a[j].name, s1, l1) <==> Matches(m2, b[j].name, s2, l2))
    ensures Newest(a, m1, s1, l1) == Newest(b, m2, s2, l2)
  {
    if a != [] {
      NewestAgrees(a[..|a| - 1], b[..|b| - 1], m1, s1, l1, m2, s2, l2);
    }
  }

  /** Override: a newly added entry answers before every older one. */
  lemma AddOverrides<V>(entries: seq<Entry<V>>, name: seq<char>, value: V, mode: Mode, src: seq<char>, length: int)
    requires Matches(mode, name, src, length)
    ensures Newest(entries + [Entry(name, value)], mode, src, length) == Some(|entries|)
  {
  }

  /** Adding an entry that does not answer leaves the look-up as it was. */
  lemma AddOther<V>(entries: seq<Entry<V>>, name: seq<char>, value: V, mode: Mode, src: seq<char>, length: int)
    requires !Matches(mode, name, src, length)
    ensures Newest(entries + [Entry(name, value)], mode, src, length) == Newest(entries, mode, src, length)
  {
    assert (entries + [Entry(name, value)])[..|entries|] == entries;
  }

  /**
    After `replace_(name, value)`, an exact look-up of the name finds `value`,
    and `replace_` returned the value the look-up found before.
  */
  lemma {:induction false} ReplaceThenFind<V>(entries: seq<Entry<V>>, name: seq<char>, value: V, src: seq<char>, length: int)
    requires Matches(Exact, name, src, length)
    ensures var (after, previous) := Replaced(entries, name, value);
      var r := Newest(after, Exact, src, length);
      r.Some? && after[r.value].value == value
      && previous == (match Newest(entries, Exact, src, length) case Some(i) => Some(entries[i].value) case None => None)
  {
    var key := CStr(name);
    assert View(name, -1) == key;
    // An entry answers `src` exactly when it answers the name itself.
    forall j | 0 <= j < |entries|
      ensures Matches(Exact, entries[j].name, src, length) <==> Matches(Exact, entries[j].name, name, -1)
    {
    }
    NewestAgrees(entries, entries, Exact, src, length, Exact, name, -1);
    var (after, previous) := Replaced(entries, name, value);
    match Newest(entries, Exact, name, -1)
    case Some(i) =>
      forall j | 0 <= j < |after|
        ensures Matches(Exact, after[j].name, src, length) <==> Matches(Exact, entries[j].name, name, -1)
      {
      }
      NewestAgrees(after, entries, Exact, src, length, Exact, name, -1);
    case None =>
      AddOverrides(entries, name, value, Exact, src, length);
  }

  /** A case-sensitive look-up that succeeds makes the case-insensitive one succeed, on that entry or a newer one. */
  lemma CaseFindsNoOlder<V>(entries: seq<Entry<V>>, mode: Mode, src: seq<char>, length: int)
    requires mode == Prefix || mode == Exact
    requires Newest(entries, mode, src, length).Some?
    ensures var c := Newest(entries, if mode == Prefix then CasePrefix else CaseExact, src, length);
      c.Some? && c.value >= Newest(entries, mode, src, length).value
  {
    var i := Newest(entries, mode, src, length).value;
    CaseMatchesWeaker(src, entries[i].name, length);
  }

  /** An exact match is also a prefix match, so `find_substring_` succeeds where `find_` does. */
  lemma ExactIsPrefix<V>(entries: seq<Entry<V>>, src: seq<char>, length: int)
    requires Newest(entries, Exact, src, length).Some?
    ensures var p := Newest(entries, Prefix, src, length);
      p.Some? && p.value >= Newest(entries, Exact, src, length).value
  {
    var i := Newest(entries, Exact, src, length).value;
    var key := CStr(entries[i].name);
    assert View(src, length)[..|key|] == key;
  }

  /** A source that ends at its NUL right after the key is found whatever the explicit length. */
  lemma ExactAtNul()
    ensures Matches(Exact, "amp", "amp\0x", 5)
    ensures Matches(CaseExact, "amp", "AMP\0x", 5)
    ensures !Matches(Exact, "amp", "ampx", 5)
  {
    CStrConcat("amp", "\0x");
    assert "amp" + "\0x" == "amp\0x";
    CStrConcat("AMP", "\0x");
    assert "AMP" + "\0x" == "AMP\0x";
    CStrConcat("amp", []);
    assert "amp" + [] == "amp";
    CStrConcat("ampx", []);
    assert "ampx" + [] == "ampx";
  }
}
