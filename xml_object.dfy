/**
  `Fl_Xml_Object`: a node with a `next_` link to its next sibling and an
  `aux_` link to its first child. A chain of nodes reached through these links
  is the value `ObjectList`: null, or a node with the list hanging
  off its `aux_` and the list hanging off its `next_`. Each node owns both, so
  the structure is a tree and no node is reached twice through the links.
*/
module XmlObjects {
  import opened Text

  /** The identity of a node (its address). */
  type NodeId = nat

  datatype ObjectList = Null | Object(id: NodeId, aux: ObjectList, next: ObjectList)

  function Size(t: ObjectList): nat
  {
    match t
    case Null => 0
    case Object(_, aux, next) => 1 + Size(aux) + Size(next)
  }

  /** The node identities in the list and below it, with multiplicity. */
  function Ids(t: ObjectList): multiset<NodeId>
  {
    match t
    case Null => multiset{}
    case Object(x, aux, next) => multiset{x} + Ids(aux) + Ids(next)
  }

  function IdSet(t: ObjectList): set<NodeId>
  {
    match t
    case Null => {}
    case Object(x, aux, next) => {x} + IdSet(aux) + IdSet(next)
  }

  /** Every node is a distinct object. */
  predicate Unique(t: ObjectList)
  {
    match t
    case Null => true
    case Object(x, aux, next) =>
      Unique(aux) && Unique(next) && x !in IdSet(aux) && x !in IdSet(next) && IdSet(aux) !! IdSet(next)
  }

  // ---------------------------------------------------------------------
  // iterate_list

  /** One call of the iteration callback: the node and its nesting level. */
  datatype Visit = Visit(id: NodeId, level: int)

  /** The callback calls of `iterate_list(t, fn, level)`, in order. */
  function PreOrder(t: ObjectList, level: int): seq<Visit>
  {
    match t
    case Null => []
    case Object(x, aux, next) => [Visit(x, level)] + PreOrder(aux, level + 1) + PreOrder(next, level)
  }

  /**
    `iterate_list`: walks the sibling chain, calling the callback on each node
    and recursing into its children one level deeper before moving on. The
    callback is an outside function; its calls are returned in order.
  */
  method IterateList(t: ObjectList, level: int) returns (calls: seq<Visit>)
    ensures calls == PreOrder(t, level)
    decreases Size(t)
  {
    calls := [];
    var cur := t;
    while cur.Object?
      invariant Size(cur) <= Size(t)
      invariant calls + PreOrder(cur, level) == PreOrder(t, level)
      decreases Size(cur)
    {
      calls := calls + [Visit(cur.id, level)];
      var c := cur.aux;
      if c.Object? {
        var sub := IterateList(c, level + 1);
        calls := calls + sub;
      }
      cur := cur.next;
    }
  }

  /** The same tree with its children as sequences: the reference view of nesting. */
  datatype Tree = Tree(id: NodeId, kids: seq<Tree>)

  function Forest(t: ObjectList): seq<Tree>
  {
    match t
    case Null => []
    case Object(x, aux, next) => [Tree(x, Forest(aux))] + Forest(next)
  }

  /** Pre-order over a forest: each tree's root at `level`, then its kids one level deeper, then the next tree. */
  function TreeOrder(tr: Tree, level: int): seq<Visit>
    decreases tr
  {
    [Visit(tr.id, level)] + ForestOrder(tr.kids, level + 1)
  }

  function ForestOrder(ts: seq<Tree>, level: int): seq<Visit>
    decreases ts
  {
    if ts == [] then [] else TreeOrder(ts[0], level) + ForestOrder(ts[1..], level)
  }

  lemma {:induction false} ForestOrderAppend(a: seq<Tree>, b: seq<Tree>, level: int)
    ensures ForestOrder(a + b, level) == ForestOrder(a, level) + ForestOrder(b, level)
  {
    if a == [] {
      assert a + b == b;
    } else {
      assert (a + b)[0] == a[0] && (a + b)[1..] == a[1..] + b;
      ForestOrderAppend(a[1..], b, level);
    }
  }

  /** `iterate_list` is the pre-order with levels of the tree the links describe. */
  lemma {:induction false} PreOrderIsForestOrder(t: ObjectList, level: int)
    ensures PreOrder(t, level) == ForestOrder(Forest(t), level)
  {
    match t
    case Null =>
    case Object(x, aux, next) =>
      PreOrderIsForestOrder(aux, level + 1);
      PreOrderIsForestOrder(next, level);
      var tr := Tree(x, Forest(aux));
      ForestOrderAppend([tr], Forest(next), level);
      assert ForestOrder([tr], level) == TreeOrder(tr, level);
  }

  /** The identities the callback is called on. */
  function VisitedIds(vs: seq<Visit>): multiset<NodeId>
  {
    if vs == [] then multiset{} else multiset{vs[0].id} + VisitedIds(vs[1..])
  }

  lemma {:induction false} VisitedIdsAppend(a: seq<Visit>, b: seq<Visit>)
    ensures VisitedIds(a + b) == VisitedIds(a) + VisitedIds(b)
  {
    if a == [] {
      assert a + b == b;
    } else {
      assert (a + b)[0] == a[0] && (a + b)[1..] == a[1..] + b;
      VisitedIdsAppend(a[1..], b);
    }
  }

  /** The callback is called once per node reachable through the links, with multiplicity. */
  lemma {:induction false} PreOrderVisitsAll(t: ObjectList, level: int)
    ensures VisitedIds(PreOrder(t, level)) == Ids(t)
    ensures |PreOrder(t, level)| == Size(t)
  {
    match t
    case Null =>
    case Object(x, aux, next) =>
      PreOrderVisitsAll(aux, level + 1);
      PreOrderVisitsAll(next, level);
      VisitedIdsAppend([Visit(x, level)], PreOrder(aux, level + 1));
      VisitedIdsAppend([Visit(x, level)] + PreOrder(aux, level + 1), PreOrder(next, level));
  }

  /** In a tree of distinct nodes every identity occurs once, and only those of the tree occur. */
  lemma {:induction false} UniqueIdsOnce(t: ObjectList)
    requires Unique(t)
    ensures forall x :: Ids(t)[x] == (if x in IdSet(t) then 1 else 0)
  {
    match t
    case Null =>
    case Object(y, aux, next) =>
      UniqueIdsOnce(aux);
      UniqueIdsOnce(next);
  }

  /** So `iterate_list` calls the callback exactly once on each node of the tree and on nothing else. */
  lemma IterateVisitsEachOnce(t: ObjectList, level: int)
    requires Unique(t)
    ensures forall x :: VisitedIds(PreOrder(t, level))[x] == (if x in IdSet(t) then 1 else 0)
  {
    PreOrderVisitsAll(t, level);
    UniqueIdsOnce(t);
  }

  // ---------------------------------------------------------------------
  // destroy_children, destroy_object_list

  /** The order `destroy_object_list` deletes nodes in: a node's children, then the node, then its next siblings. */
  function DeletionOrder(t: ObjectList): seq<NodeId>
  {
    match t
    case Null => []
    case Object(x, aux, next) => DeletionOrder(aux) + [x] + DeletionOrder(next)
  }

  /**
    `destroy_children`: deletes the list of children and leaves `aux_` null.
    `live` is the set of nodes not yet deleted; a node is deleted only while it
    is live, so nothing is deleted twice. The node is not one of its own
    descendants, since `aux_` is cleared after they are deleted.
  */
  method DestroyChildren(t: ObjectList, live: set<NodeId>) returns (t': ObjectList, deleted: seq<NodeId>, liveAfter: set<NodeId>)
    requires t.Object? && Unique(t.aux) && t.id !in IdSet(t.aux) && IdSet(t.aux) <= live
    ensures t' == t.(aux := Null)
    ensures deleted == DeletionOrder(t.aux)
    ensures liveAfter == live - IdSet(t.aux)
    decreases Size(t), 1
  {
    deleted, liveAfter := DestroyObjectList(t.aux, live);
    t' := t.(aux := Null);
  }

  /** `destroy_object_list`: deletes every node of the chain and everything below them. */
  method DestroyObjectList(t: ObjectList, live: set<NodeId>) returns (deleted: seq<NodeId>, liveAfter: set<NodeId>)
    requires Unique(t) && IdSet(t) <= live
    ensures deleted == DeletionOrder(t)
    ensures liveAfter == live - IdSet(t)
    decreases Size(t), 2
  {
    deleted, liveAfter := [], live;
    var cur := t;
    while cur.Object?
      invariant Size(cur) <= Size(t) && IdSet(cur) <= IdSet(t)
      invariant Unique(cur) && IdSet(cur) <= liveAfter
      invariant deleted + DeletionOrder(cur) == DeletionOrder(t)
      invariant liveAfter == live - (IdSet(t) - IdSet(cur))
      decreases Size(cur)
    {
      var n := cur.next;
      ghost var before := liveAfter;
      var emptied, d;
      emptied, d, liveAfter := DestroyChildren(cur, liveAfter);
      assert cur.id in liveAfter;  // `delete t` on a node not yet deleted
      assert DeletionOrder(cur) == d + [cur.id] + DeletionOrder(n);
      deleted := deleted + d + [cur.id];
      liveAfter := liveAfter - {cur.id};
      DestroyStepSets(IdSet(t), cur, live, before, liveAfter);
      cur := n;
    }
  }

  /** The live set after one node of the chain and its children are gone. */
  lemma DestroyStepSets(all: set<NodeId>, cur: ObjectList, live: set<NodeId>, before: set<NodeId>, after: set<NodeId>)
    requires cur.Object? && Unique(cur) && IdSet(cur) <= all
    requires before == live - (all - IdSet(cur))
    requires after == before - IdSet(cur.aux) - {cur.id}
    ensures after == live - (all - IdSet(cur.next))
  {
    assert IdSet(cur) == {cur.id} + IdSet(cur.aux) + IdSet(cur.next);
  }

  lemma {:induction false} DeletionOrderCounts(t: ObjectList)
    ensures multiset(DeletionOrder(t)) == Ids(t)
  {
    match t
    case Null =>
    case Object(x, aux, next) =>
      DeletionOrderCounts(aux);
      DeletionOrderCounts(next);
  }

  /** Destruction deletes each node of a tree of distinct nodes exactly once, and nothing else. */
  lemma DestroyDeletesEachOnce(t: ObjectList)
    requires Unique(t)
    ensures forall x :: multiset(DeletionOrder(t))[x] == (if x in IdSet(t) then 1 else 0)
    ensures |DeletionOrder(t)| == Size(t)
  {
    DeletionOrderCounts(t);
    UniqueIdsOnce(t);
    PreOrderVisitsAll(t, 0);
  }

  // ---------------------------------------------------------------------
  // name_compares

  /**
    `Fl_Xml_Object::name_compares(str, len)`, for a node whose `name()` is
    `name`: true when the first `len` characters of `str` spell the name
    exactly. A zero `len` compares equal to every name.
  */
  function NameCompares(name: seq<char>, str: seq<char>, len: int): (r: bool)
    ensures r <==> len == 0 || (len == |CStr(name)| && View(str, len) == CStr(name))
  {
    len == Substring(str, name, len)
  }
}
