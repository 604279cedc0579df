/**
  `Fl_Xml_Parser`'s tree builder: the parent stack.

  For every nesting depth `d` the parser keeps `parent_table_[d]`, the node
  most recently added at that depth, and `parent_table_next_[d]`, the address
  of the link that the next node at that depth must be stored in: at first the
  slot the depth's chain hangs from (the parse result, or a parent's `aux_`),
  afterwards the `next_` field of the last node added. Storing a new node
  through that address and moving the address to the node's own `next_`
  appends the node to the chain without walking it.

  Addresses are `Slot`s; `cells` holds what each written slot contains. The
  ghost `Chains[d]` and `Starts[d]` are the sibling chain of depth `d` and the
  slot it hangs from.
*/
module XmlParsers {
  import opened Wrappers
  import opened XmlObjects
  import opened Tokenizers

  /** The address of a link: the parse result, a node's `next_` or `aux_`, or the HTML parser's dummy word link. */
  datatype Slot = ResultSlot | NextOf(node: NodeId) | AuxOf(node: NodeId) | DummyWordConcatenation

  /** `nodes` hang from slot `s`, each one's `next_` holding the following one; `e` is the last node's `next_` address. */
  ghost predicate Linked(cells: map<Slot, Option<NodeId>>, s: Slot, nodes: seq<NodeId>, e: Slot)
    decreases |nodes|
  {
    if nodes == [] then s == e
    else s in cells && cells[s] == Some(nodes[0]) && Linked(cells, NextOf(nodes[0]), nodes[1..], e)
  }

  /** The slots a chain's links are read from. */
  ghost function ReadSlots(s: Slot, nodes: seq<NodeId>): set<Slot>
    decreases |nodes|
  {
    if nodes == [] then {} else {s} + ReadSlots(NextOf(nodes[0]), nodes[1..])
  }

  ghost predicate Distinct(s: seq<NodeId>)
  {
    forall i, j :: 0 <= i < j < |s| ==> s[i] != s[j]
  }

  lemma {:induction false} ReadSlotsWithin(s: Slot, nodes: seq<NodeId>)
    ensures forall x :: x in ReadSlots(s, nodes) ==> x == s || (x.NextOf? && x.node in nodes)
    decreases |nodes|
  {
    if nodes != [] {
      ReadSlotsWithin(NextOf(nodes[0]), nodes[1..]);
    }
  }

  lemma {:induction false} LinkedEnd(cells: map<Slot, Option<NodeId>>, s: Slot, nodes: seq<NodeId>, e: Slot)
    requires Linked(cells, s, nodes, e)
    ensures nodes == [] ==> e == s
    ensures nodes != [] ==> e == NextOf(nodes[|nodes| - 1])
    decreases |nodes|
  {
    if nodes != [] {
      LinkedEnd(cells, NextOf(nodes[0]), nodes[1..], e);
    }
  }

  /** Writing a slot the chain does not read leaves it linked. */
  lemma {:induction false} LinkedFrame(cells: map<Slot, Option<NodeId>>, s: Slot, nodes: seq<NodeId>, e: Slot,
                                       w: Slot, v: Option<NodeId>)
    requires Linked(cells, s, nodes, e) && w !in ReadSlots(s, nodes)
    ensures Linked(cells[w := v], s, nodes, e)
    decreases |nodes|
  {
    if nodes != [] {
      LinkedFrame(cells, NextOf(nodes[0]), nodes[1..], e, w, v);
    }
  }

  /** A chain of distinct nodes that does not hang from one of its own `next_` fields never reads its end slot. */
  lemma {:induction false} EndNotRead(cells: map<Slot, Option<NodeId>>, s: Slot, nodes: seq<NodeId>, e: Slot)
    requires Linked(cells, s, nodes, e) && Distinct(nodes)
    requires forall i :: 0 <= i < |nodes| ==> s != NextOf(nodes[i])
    ensures e !in ReadSlots(s, nodes)
    decreases |nodes|
  {
    if nodes != [] {
      LinkedEnd(cells, s, nodes, e);
      EndNotRead(cells, NextOf(nodes[0]), nodes[1..], e);
    }
  }

  /** Storing `o` in the end slot appends it; its own `next_` becomes the end. */
  lemma {:induction false} LinkedAppend(cells: map<Slot, Option<NodeId>>, s: Slot, nodes: seq<NodeId>, e: Slot, o: NodeId)
    requires Linked(cells, s, nodes, e) && e !in ReadSlots(s, nodes)
    ensures Linked(cells[e := Some(o)], s, nodes + [o], NextOf(o))
    decreases |nodes|
  {
    if nodes == [] {
      assert nodes + [o] == [o];
    } else {
      assert (nodes + [o])[0] == nodes[0] && (nodes + [o])[1..] == nodes[1..] + [o];
      LinkedAppend(cells, NextOf(nodes[0]), nodes[1..], e, o);
    }
  }

  // ---------------------------------------------------------------------
  // Parse errors

  const BAD_CLOSING_TAG := 1
  const BAD_CLOSING_TAG_NAME := 2
  const UNCLOSED_TAG := 3
  const UNFINISHED_TAG := 4
  const LAST_ERROR := 5
  const UNKNOWN_ERROR := 255

  /** `error_strings`, indexed by error code. */
  const ErrorStrings: seq<string> := ["No error", "Bad closing tag", "Bad closing tag name", "Unclosed tag", "Unfinished tag"]

  /**
    `friendly_error`: the message for a parse result. Codes from LAST_ERROR on
    share "Unknown error"; a negative code would index before the table.
  */
  function FriendlyError(error: int): (r: string)
    requires 0 <= error
    ensures r == "No error" <==> error == 0
    ensures r == "Unknown error" <==> error >= LAST_ERROR
    ensures error == BAD_CLOSING_TAG ==> r == "Bad closing tag"
    ensures error == BAD_CLOSING_TAG_NAME ==> r == "Bad closing tag name"
    ensures error == UNCLOSED_TAG ==> r == "Unclosed tag"
    ensures error == UNFINISHED_TAG ==> r == "Unfinished tag"
  {
    if error >= LAST_ERROR then "Unknown error" else ErrorStrings[error]
  }

  /** Each code below LAST_ERROR, `UNKNOWN_ERROR` excluded, has a message of its own. */
  lemma FriendlyErrorDistinct(a: int, b: int)
    requires 0 <= a < b
    requires a < LAST_ERROR
    ensures FriendlyError(a) != FriendlyError(b)
    ensures FriendlyError(UNKNOWN_ERROR) == "Unknown error"
  {
  }

  // ---------------------------------------------------------------------

  class XmlParser {
    /** The tokenizer `Fl_Xml_Parser` derives from. */
    const tokenizer: HtmlTokenizer
    const parentTable: array<Option<NodeId>>
    const parentTableNext: array<Slot>
    const parentTableSize: int
    var currentParent: int
    var cells: map<Slot, Option<NodeId>>
    ghost var Chains: seq<seq<NodeId>>
    ghost var Starts: seq<Slot>

    ghost predicate Valid()
      reads this, parentTable, parentTableNext
    {
      && parentTable.Length == parentTableNext.Length == parentTableSize
      && 0 <= currentParent < parentTableSize
      && |Chains| == |Starts| == currentParent + 1
      && (forall d :: 0 <= d < |Chains| ==> Linked(cells, Starts[d], Chains[d], parentTableNext[d]))
      && (forall d :: 0 <= d < |Chains| && Chains[d] != [] ==> parentTable[d] == Some(Chains[d][|Chains[d]| - 1]))
      && (forall d :: 0 <= d < |Starts| ==> !Starts[d].NextOf?)
      && (forall d, d' :: 0 <= d < d' < |Starts| ==> Starts[d] != Starts[d'])
      && (forall d :: 0 <= d < |Chains| ==> Distinct(Chains[d]))
      && (forall d, d', x :: 0 <= d < |Chains| && 0 <= d' < |Chains| && d != d' && x in Chains[d] ==> x !in Chains[d'])
    }

    /**
      `Fl_Xml_Parser(table_size)`, in the state a parse starts from: depth 0,
      with an empty chain hanging from the parse result.
    */
    constructor(tableSize: int)
      requires tableSize >= 1
      ensures Valid() && fresh(parentTable) && fresh(parentTableNext) && fresh(tokenizer)
      ensures parentTableSize == tableSize && currentParent == 0 && cells == map[]
      ensures Chains == [[]] && Starts == [ResultSlot] && parentTableNext[0] == ResultSlot
    {
      tokenizer := new HtmlTokenizer(None);
      parentTable := new Option<NodeId>[tableSize](_ => None);
      parentTableNext := new Slot[tableSize](_ => ResultSlot);
      parentTableSize := tableSize;
      currentParent := 0;
      cells := map[];
      Chains := [[]];
      Starts := [ResultSlot];
    }

    /** `last_object()`: the node most recently added at the current depth. */
    function LastObject(): (r: Option<NodeId>)
      reads this, parentTable, parentTableNext
      requires Valid()
      ensures Chains[currentParent] != [] ==> r == Some(Chains[currentParent][|Chains[currentParent]| - 1])
    {
      parentTable[currentParent]
    }

    /** `parent()`: none at depth 0, otherwise the last node added one level up. */
    function Parent(): (r: Option<NodeId>)
      reads this, parentTable, parentTableNext
      requires Valid()
      ensures currentParent == 0 ==> r.None?
      ensures currentParent > 0 && Chains[currentParent - 1] != [] ==>
                r == Some(Chains[currentParent - 1][|Chains[currentParent - 1]| - 1])
    {
      if currentParent == 0 then None else parentTable[currentParent - 1]
    }

    /** `pop_parent()`: back up one level, leaving that level's chain complete. */
    method PopParent()
      requires Valid() && currentParent > 0
      modifies this
      ensures Valid()
      ensures currentParent == old(currentParent) - 1
      ensures Chains == old(Chains)[..old(currentParent)] && Starts == old(Starts)[..old(currentParent)]
      ensures cells == old(cells)
    {
      currentParent := currentParent - 1;
      Chains := Chains[..currentParent + 1];
      Starts := Starts[..currentParent + 1];
    }

    /**
      `add_object(o)`: a null `o` changes nothing. Otherwise `o` is stored in
      the current depth's next-slot, which moves to `o`'s own `next_`, and
      becomes the last object; the chain of that depth grows by `o` and no
      other depth changes. `o` must be a new node, in no chain yet.
    */
    method AddObject(o: Option<NodeId>)
      requires Valid()
      requires o.Some? ==> forall d :: 0 <= d < |Chains| ==> o.value !in Chains[d]
      modifies this, parentTable, parentTableNext
      ensures Valid()
      ensures currentParent == old(currentParent) && Starts == old(Starts)
      ensures o.None? ==> cells == old(cells) && Chains == old(Chains)
      ensures o.None? ==> parentTable[..] == old(parentTable[..]) && parentTableNext[..] == old(parentTableNext[..])
      ensures o.Some? ==> parentTable[..] == old(parentTable[..])[currentParent := o]
      ensures o.Some? ==> parentTableNext[..] == old(parentTableNext[..])[currentParent := NextOf(o.value)]
      ensures o.Some? ==> cells == old(cells)[old(parentTableNext[currentParent]) := o]
      ensures o.Some? ==> Chains == old(Chains)[currentParent := old(Chains[currentParent]) + [o.value]]
      ensures o.Some? ==> LastObject() == o
    {
      if o.None? {
        return;
      }
      var d := currentParent;
      ghost var oldCells, oldChains, oldNext := cells, Chains, parentTableNext[..];
      var slot := parentTableNext[d];
      parentTable[d] := o;
      cells := cells[slot := o];
      parentTableNext[d] := NextOf(o.value);
      Chains := Chains[d := Chains[d] + [o.value]];

      EndNotRead(oldCells, Starts[d], oldChains[d], slot);
      forall k | 0 <= k < |Chains|
        ensures Linked(cells, Starts[k], Chains[k], parentTableNext[k])
      {
        if k == d {
          LinkedAppend(oldCells, Starts[d], oldChains[d], slot, o.value);
        } else {
          LinkedEnd(oldCells, Starts[d], oldChains[d], slot);
          ReadSlotsWithin(Starts[k], oldChains[k]);
          if oldChains[d] != [] {
            assert oldChains[d][|oldChains[d]| - 1] in oldChains[d];
          }
          LinkedFrame(oldCells, Starts[k], oldChains[k], oldNext[k], slot, o);
        }
      }
    }
  }
}
