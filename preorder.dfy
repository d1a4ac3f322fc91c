/** The visible order: the pre-order walk of the forest (or of the scoped
    subtree) that the editor displays and that caret navigation follows. */
module Preorder {
  import opened Types
  import opened Vectors
  import opened Forest

  /** The subtree of `x` in pre-order: `x`, then each child's subtree in order
      (preorder_collect). */
  function PreorderFrom(s: State, x: Id): (r: seq<Id>)
    requires Linked(s) && Acyclic(s) && x in s.nodes
    decreases Below(s, x), 1, 0
  {
    [x] + PreorderKids(s, x, 0)
  }

  /** The subtrees of the children of `x` from position `i` on, in order. */
  function PreorderKids(s: State, x: Id, i: nat): (r: seq<Id>)
    requires Linked(s) && Acyclic(s) && x in s.nodes && i <= |s.nodes[x].children|
    decreases Below(s, x), 0, |s.nodes[x].children| - i
  {
    var ch := s.nodes[x].children;
    if i == |ch| then []
    else
      assert ChildrenLinked(s, x);
      BelowShrinks(s, x, ch[i]);
      PreorderFrom(s, ch[i]) + PreorderKids(s, x, i + 1)
  }

  /** The subtrees of the roots from position `i` on, in root order. */
  function PreorderRoots(s: State, i: nat): (r: seq<Id>)
    requires Linked(s) && Acyclic(s) && i <= |s.rootOrder|
    decreases |s.rootOrder| - i
  {
    if i == |s.rootOrder| then []
    else
      assert RootsListed(s);
      PreorderFrom(s, s.rootOrder[i]) + PreorderRoots(s, i + 1)
  }

  /** visible_order_ids (C++): the scoped subtree when a scope is set, nothing when
      the scope names a missing node, otherwise every root's subtree in order. */
  function VisibleOrder(s: State): (r: seq<Id>)
    requires Linked(s) && Acyclic(s)
  {
    match s.scopeRootId
    case Some(root) => if root in s.nodes then PreorderFrom(s, root) else []
    case None => PreorderRoots(s, 0)
  }

  /** visibleOrderIds (JavaScript): like the C++ order, except that a scope naming
      a missing node falls back to the whole forest. */
  function VisibleOrderFallback(s: State): (r: seq<Id>)
    requires Linked(s) && Acyclic(s)
    ensures ScopeLive(s) ==> r == VisibleOrder(s)
  {
    if s.scopeRootId.Some? && s.scopeRootId.value in s.nodes then PreorderFrom(s, s.scopeRootId.value)
    else PreorderRoots(s, 0)
  }

  /** The element before `id` in `order`, if `id` occurs there and is not first. */
  function PrevIn(order: seq<Id>, id: Id): (r: Option<Id>)
    ensures r.Some? ==> id in order && 0 < IndexOf(order, id) && r.value == order[IndexOf(order, id) - 1]
    ensures r == None ==> id !in order || IndexOf(order, id) == 0
  {
    if id !in order then None
    else
      var i := IndexOf(order, id);
      if i == 0 then None else Some(order[i - 1])
  }

  /** The element after `id` in `order`, if `id` occurs there and is not last. */
  function NextIn(order: seq<Id>, id: Id): (r: Option<Id>)
    ensures r.Some? ==> id in order && IndexOf(order, id) + 1 < |order| && r.value == order[IndexOf(order, id) + 1]
    ensures r == None ==> id !in order || IndexOf(order, id) + 1 == |order|
  {
    if id !in order then None
    else
      var i := IndexOf(order, id);
      if i + 1 < |order| then Some(order[i + 1]) else None
  }

  /** In a list without duplicates, "previous" and "next" undo each other. */
  lemma PrevNextInverse(order: seq<Id>, id: Id)
    requires NoDup(order)
    ensures PrevIn(order, id).Some? ==> PrevIn(order, id).value != id && NextIn(order, PrevIn(order, id).value) == Some(id)
    ensures NextIn(order, id).Some? ==> NextIn(order, id).value != id && PrevIn(order, NextIn(order, id).value) == Some(id)
  {
    if id in order {
      var i := IndexOf(order, id);
      if i > 0 {
        IndexOfUnique(order, i - 1);
      }
      if i + 1 < |order| {
        IndexOfUnique(order, i + 1);
      }
    }
  }

  /** prev_visible_id / next_visible_id (C++). */
  function PrevVisible(s: State, id: Id): (r: Option<Id>)
    requires Linked(s) && Acyclic(s)
    ensures r.Some? ==> r.value in s.nodes && r.value != id && NextVisible(s, r.value) == Some(id)
  {
    VisibleOrderFacts(s);
    PrevNextInverse(VisibleOrder(s), id);
    PrevIn(VisibleOrder(s), id)
  }

  function NextVisible(s: State, id: Id): (r: Option<Id>)
    requires Linked(s) && Acyclic(s)
    ensures r.Some? ==> r.value in s.nodes && r.value != id
  {
    VisibleOrderFacts(s);
    PrevNextInverse(VisibleOrder(s), id);
    NextIn(VisibleOrder(s), id)
  }

  /** prevVisibleId / nextVisibleId (JavaScript). */
  function PrevVisibleFallback(s: State, id: Id): (r: Option<Id>)
    requires Linked(s) && Acyclic(s)
    ensures r.Some? ==> r.value in s.nodes && r.value != id && NextVisibleFallback(s, r.value) == Some(id)
  {
    VisibleOrderFacts(s);
    PrevNextInverse(VisibleOrderFallback(s), id);
    PrevIn(VisibleOrderFallback(s), id)
  }

  function NextVisibleFallback(s: State, id: Id): (r: Option<Id>)
    requires Linked(s) && Acyclic(s)
    ensures r.Some? ==> r.value in s.nodes && r.value != id
  {
    VisibleOrderFacts(s);
    PrevNextInverse(VisibleOrderFallback(s), id);
    NextIn(VisibleOrderFallback(s), id)
  }

  /** The node after `id` in the visible order has `id` just before it, in both
      the C++ and the JavaScript order. */
  lemma NextPrevVisibleInverse(s: State, id: Id)
    requires Linked(s) && Acyclic(s)
    ensures NextVisible(s, id).Some? ==> PrevVisible(s, NextVisible(s, id).value) == Some(id)
    ensures NextVisibleFallback(s, id).Some? ==>
      PrevVisibleFallback(s, NextVisibleFallback(s, id).value) == Some(id)
  {
    VisibleOrderFacts(s);
    PrevNextInverse(VisibleOrder(s), id);
    PrevNextInverse(VisibleOrderFallback(s), id);
  }

  // ---------------------------------------------------------------------------
  // What the walk lists
  // ---------------------------------------------------------------------------

  /** A proper descendant of `x` lies under one of `x`'s children. */
  lemma {:induction false} UnderSomeChild(s: State, y: Id, x: Id)
    requires Linked(s) && Acyclic(s) && x in s.nodes && y in s.nodes && Under(s, y, x) && y != x
    ensures exists j :: 0 <= j < |s.nodes[x].children| && Under(s, y, s.nodes[x].children[j])
    decreases Depth(s)[y]
  {
    var p := s.nodes[y].parentId.value;
    DepthOfParent(s, y);
    assert ParentLinked(s, y);
    if p == x {
      var j := IndexOf(s.nodes[x].children, y);
      assert Under(s, y, s.nodes[x].children[j]);
    } else {
      UnderSomeChild(s, p, x);
      var j :| 0 <= j < |s.nodes[x].children| && Under(s, p, s.nodes[x].children[j]);
      assert Under(s, y, s.nodes[x].children[j]);
    }
  }

  /** Every node lies under one of the listed roots. */
  lemma {:induction false} UnderSomeRoot(s: State, y: Id)
    requires Linked(s) && Acyclic(s) && y in s.nodes
    ensures exists j :: 0 <= j < |s.rootOrder| && Under(s, y, s.rootOrder[j])
    decreases Depth(s)[y]
  {
    assert ParentLinked(s, y);
    DepthOfParent(s, y);
    match s.nodes[y].parentId
    case None =>
      var j := IndexOf(s.rootOrder, y);
      assert Under(s, y, s.rootOrder[j]);
    case Some(p) =>
      UnderSomeRoot(s, p);
      var j :| 0 <= j < |s.rootOrder| && Under(s, p, s.rootOrder[j]);
      assert Under(s, y, s.rootOrder[j]);
  }

  /** Each element's parent link is `top` or names an earlier element. */
  ghost predicate ParentsFirst(s: State, r: seq<Id>, top: Option<Id>) {
    forall k :: 0 <= k < |r| ==>
      && r[k] in s.nodes
      && (s.nodes[r[k]].parentId == top || (s.nodes[r[k]].parentId.Some? && s.nodes[r[k]].parentId.value in r[..k]))
  }

  lemma ParentsFirstCons(s: State, c: Id, t: seq<Id>, top: Option<Id>)
    requires c in s.nodes && s.nodes[c].parentId == top && ParentsFirst(s, t, Some(c))
    ensures ParentsFirst(s, [c] + t, top)
  {
    var r := [c] + t;
    forall k | 0 < k < |r|
      ensures s.nodes[r[k]].parentId == top || (s.nodes[r[k]].parentId.Some? && s.nodes[r[k]].parentId.value in r[..k])
    {
      assert r[k] == t[k - 1] && r[..k] == [c] + t[..k - 1];
    }
  }

  lemma ParentsFirstConcat(s: State, a: seq<Id>, b: seq<Id>, top: Option<Id>)
    requires ParentsFirst(s, a, top) && ParentsFirst(s, b, top)
    ensures ParentsFirst(s, a + b, top)
  {
    var r := a + b;
    forall k | |a| <= k < |r|
      ensures s.nodes[r[k]].parentId == top || (s.nodes[r[k]].parentId.Some? && s.nodes[r[k]].parentId.value in r[..k])
    {
      assert r[k] == b[k - |a|] && r[..k] == a + b[..k - |a|];
    }
    forall k | 0 <= k < |a| ensures r[..k] == a[..k] && r[k] == a[k] {
    }
  }

  /** The pre-order walk of `x` lists exactly the subtree of `x`, once each, `x`
      first, and every other node after its parent. */
  lemma {:induction false} PreorderFromFacts(s: State, x: Id)
    requires Linked(s) && Acyclic(s) && x in s.nodes
    ensures var r := PreorderFrom(s, x);
      && r[0] == x && NoDup(r)
      && (forall y :: y in r <==> y in Below(s, x))
      && ParentsFirst(s, r[1..], Some(x))
    decreases Below(s, x), 1, 0
  {
    var r := PreorderFrom(s, x);
    var kids := PreorderKids(s, x, 0);
    PreorderKidsFacts(s, x, 0);
    assert r == [x] + kids && r[1..] == kids;
    ConcatNoDup([x], kids);
    forall y ensures y in r <==> y in Below(s, x) {
      if y in Below(s, x) && y != x {
        UnderSomeChild(s, y, x);
      }
    }
  }

  /** What the walks of the children of `x` from position `i` on list: each
      node once, exactly the nodes under those children, none under an earlier
      child, each after its parent. */
  ghost predicate KidsFacts(s: State, x: Id, i: nat, r: seq<Id>)
    requires Acyclic(s) && x in s.nodes && i <= |s.nodes[x].children|
  {
    var ch := s.nodes[x].children;
    && NoDup(r)
    && (forall y :: y in r ==> y in s.nodes && Under(s, y, x) && y != x)
    && (forall y, j :: y in r && 0 <= j < i ==> !Under(s, y, ch[j]))
    && (forall j, y :: i <= j < |ch| && y in s.nodes && Under(s, y, ch[j]) ==> y in r)
    && ParentsFirst(s, r, Some(x))
  }

  lemma {:induction false} PreorderKidsFacts(s: State, x: Id, i: nat)
    requires Linked(s) && Acyclic(s) && x in s.nodes && i <= |s.nodes[x].children|
    ensures KidsFacts(s, x, i, PreorderKids(s, x, i))
    decreases Below(s, x), 0, |s.nodes[x].children| - i
  {
    var ch := s.nodes[x].children;
    assert ChildrenLinked(s, x);
    if i < |ch| {
      var c := ch[i];
      BelowShrinks(s, x, c);
      PreorderFromFacts(s, c);
      PreorderKidsFacts(s, x, i + 1);
      KidWalkFacts(s, x, i);
      KidsStep(s, x, i, PreorderFrom(s, c), PreorderKids(s, x, i + 1));
      assert PreorderKids(s, x, i) == PreorderFrom(s, c) + PreorderKids(s, x, i + 1);
    }
  }

  /** One child's walk followed by the walks of the later children. */
  lemma KidsStep(s: State, x: Id, i: nat, head: seq<Id>, tail: seq<Id>)
    requires Linked(s) && Acyclic(s) && x in s.nodes && i < |s.nodes[x].children|
    requires NoDup(head) && KidsFacts(s, x, i + 1, tail)
    requires var ch := s.nodes[x].children;
      && (forall y :: y in head ==> y in s.nodes && Under(s, y, x) && y != x)
      && (forall y, j :: y in head && 0 <= j < i ==> !Under(s, y, ch[j]))
      && (forall y :: y in s.nodes && Under(s, y, ch[i]) ==> y in head)
      && (forall y :: y in head ==> Under(s, y, ch[i]))
      && ParentsFirst(s, head, Some(x))
    ensures KidsFacts(s, x, i, head + tail)
  {
    var ch := s.nodes[x].children;
    var r := head + tail;
    forall y, j | y in r && 0 <= j < i ensures !Under(s, y, ch[j]) {
      if y !in head {
        assert y in tail;
      }
    }
    forall j, y | i <= j < |ch| && y in s.nodes && Under(s, y, ch[j]) ensures y in r {
      if j != i {
        assert y in tail;
      }
    }
    ConcatNoDup(head, tail);
    ParentsFirstConcat(s, head, tail, Some(x));
  }

  /** The walk of the child at position `i` of `x`, given what is known of
      every walk: it lists nodes under `x` other than `x`, none under an earlier
      child, all under that child, each after its parent. */
  lemma KidWalkFacts(s: State, x: Id, i: nat)
    requires Linked(s) && Acyclic(s) && x in s.nodes && i < |s.nodes[x].children|
    requires s.nodes[x].children[i] in s.nodes
    requires var c := s.nodes[x].children[i]; var head := PreorderFrom(s, c);
      && head[0] == c
      && (forall y :: y in head <==> y in Below(s, c))
      && ParentsFirst(s, head[1..], Some(c))
    ensures var ch := s.nodes[x].children; var head := PreorderFrom(s, ch[i]);
      && (forall y :: y in head ==> y in s.nodes && Under(s, y, x) && y != x)
      && (forall y, j :: y in head && 0 <= j < i ==> !Under(s, y, ch[j]))
      && (forall y :: y in s.nodes && Under(s, y, ch[i]) ==> y in head)
      && (forall y :: y in head ==> Under(s, y, ch[i]))
      && ParentsFirst(s, head, Some(x))
  {
    var ch := s.nodes[x].children;
    var c := ch[i];
    var head := PreorderFrom(s, c);
    assert ChildrenLinked(s, x);
    DepthOfParent(s, c);
    assert Under(s, c, x);
    forall y | y in head ensures y in s.nodes && Under(s, y, x) && y != x {
      UnderTrans(s, y, c, x);
      UnderDepth(s, y, c);
    }
    forall y, j | y in head && 0 <= j < i ensures !Under(s, y, ch[j]) {
      if Under(s, y, ch[j]) {
        DepthOfParent(s, ch[j]);
        UnderSameDepth(s, y, c, ch[j]);
      }
    }
    assert head == [c] + head[1..];
    ParentsFirstCons(s, c, head[1..], Some(x));
  }

  /** The walks of the roots from position `i` on list, once each, exactly the
      nodes under those roots, none under an earlier root. */
  lemma {:induction false} PreorderRootsFacts(s: State, i: nat)
    requires Linked(s) && Acyclic(s) && i <= |s.rootOrder|
    ensures var r := PreorderRoots(s, i);
      && NoDup(r)
      && (forall y :: y in r ==> y in s.nodes)
      && (forall y, j :: y in r && 0 <= j < i ==> !Under(s, y, s.rootOrder[j]))
      && (forall j, y :: i <= j < |s.rootOrder| && y in s.nodes && Under(s, y, s.rootOrder[j]) ==> y in r)
      && ParentsFirst(s, r, None)
    decreases |s.rootOrder| - i
  {
    var ro := s.rootOrder;
    var r := PreorderRoots(s, i);
    assert RootsListed(s);
    if i < |ro| {
      var c := ro[i];
      var head := PreorderFrom(s, c);
      var tail := PreorderRoots(s, i + 1);
      assert r == head + tail;
      PreorderFromFacts(s, c);
      PreorderRootsFacts(s, i + 1);
      DepthOfParent(s, c);
      forall y, j | y in head && 0 <= j < i + 1 ensures !Under(s, y, ro[j]) || j == i {
        if Under(s, y, ro[j]) {
          DepthOfParent(s, ro[j]);
          UnderSameDepth(s, y, c, ro[j]);
        }
      }
      ConcatNoDup(head, tail);
      assert head == [c] + head[1..];
      ParentsFirstCons(s, c, head[1..], None);
      ParentsFirstConcat(s, head, tail, None);
    }
  }

  /** Without a scope every node is displayed exactly once, each after its parent;
      with a live scope exactly the scoped subtree is, the scope root first. */
  lemma VisibleOrderFacts(s: State)
    requires Linked(s) && Acyclic(s)
    ensures NoDup(VisibleOrder(s)) && NoDup(VisibleOrderFallback(s))
    ensures forall y :: y in VisibleOrder(s) ==> y in s.nodes
    ensures forall y :: y in VisibleOrderFallback(s) ==> y in s.nodes
    ensures s.scopeRootId == None ==>
      (forall y :: y in VisibleOrder(s) <==> y in s.nodes) && ParentsFirst(s, VisibleOrder(s), None)
    ensures s.scopeRootId.Some? && s.scopeRootId.value in s.nodes ==>
      && VisibleOrder(s)[0] == s.scopeRootId.value
      && forall y :: y in VisibleOrder(s) <==> y in Below(s, s.scopeRootId.value)
    ensures s.scopeRootId.Some? && s.scopeRootId.value !in s.nodes ==>
      VisibleOrder(s) == [] && forall y :: y in VisibleOrderFallback(s) <==> y in s.nodes
  {
    PreorderRootsFacts(s, 0);
    forall y | y in s.nodes ensures y in PreorderRoots(s, 0) {
      UnderSomeRoot(s, y);
    }
    if s.scopeRootId.Some? && s.scopeRootId.value in s.nodes {
      PreorderFromFacts(s, s.scopeRootId.value);
    }
  }

  /** With no scope the visible order is a permutation of the nodes. */
  lemma {:induction false} UnscopedOrderCoversForest(s: State)
    requires Linked(s) && Acyclic(s) && s.scopeRootId == None
    ensures |VisibleOrder(s)| == |s.nodes|
  {
    VisibleOrderFacts(s);
    var order := VisibleOrder(s);
    NoDupCard(order);
    assert (set y | y in order) == s.nodes.Keys;
  }

  lemma {:induction false} NoDupCard(v: seq<Id>)
    requires NoDup(v)
    ensures |set y | y in v| == |v|
  {
    if v != [] {
      var t := v[1..];
      assert NoDup(t);
      NoDupCard(t);
      assert (set y | y in v) == (set y | y in t) + {v[0]};
      assert v[0] !in t;
    }
  }
}
