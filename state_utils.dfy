/** The list and walk helpers of the C++ engine (state_utils.cpp) as the loops
    and recursions they are: std::find over an id list, the insert and erase
    helpers built on it, the pre-order collection and the visible-order
    neighbours.  Each is proved equal to its reference definition. */
module StateUtils {
  import opened Types
  import opened Vectors
  import opened Forest
  import opened Preorder

  /** std::find: the position of the first `x`, or `|v|` when there is none. */
  method FindId(v: seq<Id>, x: Id) returns (i: nat)
    ensures i <= |v| && x !in v[..i]
    ensures i < |v| <==> x in v
    ensures x in v ==> i == IndexOf(v, x)
  {
    i := 0;
    while i < |v| && v[i] != x
      invariant i <= |v| && x !in v[..i]
    {
      i := i + 1;
    }
    if i < |v| {
      IndexOfAt(v, i);
    } else {
      assert v[..i] == v;
    }
  }

  /** insert_after: `n` inserted right after the first `e`. */
  method InsertIdAfter(v: seq<Id>, e: Id, n: Id) returns (r: seq<Id>)
    requires e in v
    ensures r == InsertAfter(v, e, n)
  {
    var i := FindId(v, e);
    r := v[..i + 1] + [n] + v[i + 1..];
  }

  /** insert_before: `n` inserted right before the first `e`. */
  method InsertIdBefore(v: seq<Id>, e: Id, n: Id) returns (r: seq<Id>)
    requires e in v
    ensures r == InsertBefore(v, e, n)
  {
    var i := FindId(v, e);
    r := v[..i] + [n] + v[i..];
  }

  /** erase_from: the first `x` erased. */
  method EraseId(v: seq<Id>, x: Id) returns (r: seq<Id>)
    requires x in v
    ensures r == EraseFrom(v, x)
  {
    var i := FindId(v, x);
    r := v[..i] + v[i + 1..];
    EraseFromUndone(v, x);
  }

  /** index_in_siblings. */
  method IndexInSiblingsOf(s: State, id: Id) returns (i: nat)
    requires Linked(s) && id in s.nodes
    ensures ParentResolves(s, id) && id in SiblingsOf(s, id)
    ensures i == IndexInSiblings(s, id)
  {
    SiblingsOfLinked(s, id);
    i := FindId(SiblingsOf(s, id), id);
  }

  /** preorder_collect: `root` and then each child's subtree, appended to `out`. */
  method PreorderCollect(s: State, root: Id, out: seq<Id>) returns (r: seq<Id>)
    requires Linked(s) && Acyclic(s) && root in s.nodes
    ensures r == out + PreorderFrom(s, root)
    decreases Below(s, root)
  {
    r := out + [root];
    var ch := s.nodes[root].children;
    assert ChildrenLinked(s, root);
    for i := 0 to |ch|
      invariant r + PreorderKids(s, root, i) == out + PreorderFrom(s, root)
    {
      BelowShrinks(s, root, ch[i]);
      r := PreorderCollect(s, ch[i], r);
    }
  }

  /** visible_order_ids (C++): the scoped subtree (nothing when the scope names a
      missing node), or the subtree of every root in root order. */
  method VisibleOrderIds(s: State) returns (out: seq<Id>)
    requires Linked(s) && Acyclic(s)
    ensures out == VisibleOrder(s)
  {
    out := [];
    if s.scopeRootId.Some? {
      if s.scopeRootId.value in s.nodes {
        out := PreorderCollect(s, s.scopeRootId.value, out);
      }
      return;
    }
    assert RootsListed(s);
    for i := 0 to |s.rootOrder|
      invariant out + PreorderRoots(s, i) == PreorderRoots(s, 0)
    {
      assert PreorderRoots(s, i) == PreorderFrom(s, s.rootOrder[i]) + PreorderRoots(s, i + 1);
      out := PreorderCollect(s, s.rootOrder[i], out);
    }
    assert out == PreorderRoots(s, 0);
  }

  /** prev_visible_id: the node shown just before `id`, if any. */
  method PrevVisibleId(s: State, id: Id) returns (r: Option<Id>)
    requires Linked(s) && Acyclic(s)
    ensures r == PrevVisible(s, id)
  {
    var order := VisibleOrderIds(s);
    var i := FindId(order, id);
    if i == |order| || i == 0 {
      r := None;
    } else {
      r := Some(order[i - 1]);
    }
  }

  /** next_visible_id: the node shown just after `id`, if any. */
  method NextVisibleId(s: State, id: Id) returns (r: Option<Id>)
    requires Linked(s) && Acyclic(s)
    ensures r == NextVisible(s, id)
  {
    var order := VisibleOrderIds(s);
    var i := FindId(order, id);
    if i == |order| || i + 1 == |order| {
      r := None;
    } else {
      r := Some(order[i + 1]);
    }
  }
}
