/** The reference definitions of the engine's commands, as functions from a
    state to the state after the command.  Each follows the statement order of
    the C++ engine; where the JavaScript engines behave differently the
    difference is a separate definition or a parameter.  The C++ mutators, the
    browser demo and the BulletCanvas class are proved equal to these. */
module Edits {
  import opened Types
  import opened Vectors
  import opened Forest
  import opened Preorder

  // ---------------------------------------------------------------------------
  // Focus and scope
  // ---------------------------------------------------------------------------

  /** set_focus (C++): a negative caret becomes 0; there is no upper clamp. */
  function SetFocusLowerClamped(s: State, id: Id, caret: int): (t: State)
    ensures t.caret >= 0 && (caret >= 0 ==> t.caret == caret)
    ensures t == s.(focusedId := id, caret := t.caret)
  {
    s.(focusedId := id, caret := if caret < 0 then 0 else caret)
  }

  /** setFocus (demo.js): the caret is clamped into the target's text. */
  function SetFocusClamped(s: State, id: Id, caret: int): (t: State)
    requires id in s.nodes
    ensures 0 <= t.caret <= |s.nodes[id].text|
    ensures 0 <= caret <= |s.nodes[id].text| ==> t.caret == caret
    ensures t == s.(focusedId := id, caret := t.caret)
  {
    var len := |s.nodes[id].text|;
    s.(focusedId := id, caret := if caret < 0 then 0 else if caret > len then len else caret)
  }

  /** setFocus (BulletCanvas): the caret is stored as given. */
  function SetFocusUnclamped(s: State, id: Id, caret: int): (t: State)
    ensures t.focusedId == id && t.caret == caret
    ensures t == s.(focusedId := id, caret := caret)
  {
    s.(focusedId := id, caret := caret)
  }

  /** The SetScopeRoot command, and BulletCanvas.setScopeRoot (an empty id clears the scope). */
  function SetScope(s: State, scope: Option<Id>): (t: State)
    ensures t.scopeRootId == scope && t == s.(scopeRootId := scope)
  {
    s.(scopeRootId := scope)
  }

  // ---------------------------------------------------------------------------
  // Adding nodes
  // ---------------------------------------------------------------------------

  /** insert_empty_sibling_after: a fresh empty node with `id`'s parent, right
      after `id`, focused at 0. */
  function InsertSiblingAfter(s: State, id: Id): (t: State)
    requires Linked(s) && id in s.nodes
  {
    SiblingsOfLinked(s, id);
    var nid := NextId(s);
    var par := s.nodes[id].parentId;
    var u := s.(idCounter := s.idCounter + 1, nodes := s.nodes[nid := Node(nid, par, "", [])]);
    var v := WithContainer(u, par, InsertAfter(SiblingsOf(s, id), id, nid));
    SetFocusLowerClamped(v, nid, 0)
  }

  /** appendEmptyChild (JavaScript): a fresh empty node at the end of `p`'s
      children, focused at 0. */
  function AppendEmptyChild(s: State, p: Id): (t: State)
    requires p in s.nodes
  {
    var nid := NextId(s);
    var u := s.(idCounter := s.idCounter + 1, nodes := s.nodes[nid := Node(nid, Some(p), "", [])]);
    var v := u.(nodes := u.nodes[p := u.nodes[p].(children := u.nodes[p].children + [nid])]);
    v.(focusedId := nid, caret := 0)
  }

  /** ensureTrailingEmptyChild (JavaScript): appends an empty child, and returns its
      id, unless the last child of `p` already has empty text. */
  function EnsureTrailingEmptyChild(s: State, p: Id): (r: (State, Option<Id>))
    requires Linked(s) && p in s.nodes
  {
    var ch := s.nodes[p].children;
    if |ch| == 0 then (AppendEmptyChild(s, p), Some(NextId(s)))
    else
      assert ChildrenLinked(s, p);
      if |s.nodes[ch[|ch| - 1]].text| > 0 then (AppendEmptyChild(s, p), Some(NextId(s)))
      else (s, None)
  }

  /** The children of `cs` get parent `p`; every other node is untouched. */
  function Reparented(nodes: map<Id, Node>, cs: seq<Id>, p: Id): (r: map<Id, Node>)
    ensures r.Keys == nodes.Keys
    ensures forall y :: y in nodes ==> r[y] == if y in cs then nodes[y].(parentId := Some(p)) else nodes[y]
  {
    map y | y in nodes :: if y in cs then nodes[y].(parentId := Some(p)) else nodes[y]
  }

  /** The caret split_at_caret splits at: the command's caret, or the state's when
      the command's is negative, kept within the text. */
  function SplitCaret(s: State, id: Id, caret: int): (k: nat)
    requires id in s.nodes
    ensures k <= |s.nodes[id].text|
    ensures 0 <= caret <= |s.nodes[id].text| ==> k == caret
    ensures caret < 0 && 0 <= s.caret <= |s.nodes[id].text| ==> k == s.caret
    ensures caret < 0 && s.caret < 0 ==> k == 0
    ensures k < |s.nodes[id].text| ==> k == caret || (caret < 0 && k == s.caret) || (caret < 0 && s.caret < 0 && k == 0)
  {
    var len := |s.nodes[id].text|;
    var c := if caret < 0 then s.caret else caret;
    var c' := if c < 0 then 0 else c;
    if c' > len then len else c'
  }

  /** splitAtCaret (demo.js): the state's caret when none is given, then clamped. */
  function SplitCaretDemo(s: State, id: Id, caret: Option<int>): (k: nat)
    requires id in s.nodes
    ensures k <= |s.nodes[id].text|
    ensures caret.Some? && 0 <= caret.value <= |s.nodes[id].text| ==> k == caret.value
    ensures caret.Some? && caret.value < 0 ==> k == 0
    ensures caret == None && 0 <= s.caret <= |s.nodes[id].text| ==> k == s.caret
  {
    var len := |s.nodes[id].text|;
    var c := if caret.None? then s.caret else caret.value;
    if c < 0 then 0 else if c > len then len else c
  }

  /** splitAtCaret (BulletCanvas): the given caret, clamped. */
  function SplitCaretCanvas(s: State, id: Id, caret: int): (k: nat)
    requires id in s.nodes
    ensures k <= |s.nodes[id].text|
    ensures 0 <= caret <= |s.nodes[id].text| ==> k == caret
    ensures caret < 0 ==> k == 0
    ensures caret > |s.nodes[id].text| ==> k == |s.nodes[id].text|
  {
    var len := |s.nodes[id].text|;
    if caret < 0 then 0 else if caret > len then len else caret
  }

  /** split_at_caret at position `k`: `id` keeps `text[..k]` and no children; a
      fresh node right after it gets `text[k..]` and all the children, and the focus. */
  function Split(s: State, id: Id, k: nat): (t: State)
    requires Linked(s) && id in s.nodes && k <= |s.nodes[id].text|
  {
    SiblingsOfLinked(s, id);
    var node := s.nodes[id];
    var nid := NextId(s);
    var moved := Reparented(s.nodes, node.children, nid);
    var kept := moved[id := moved[id].(children := [], text := node.text[..k])];
    var u := s.(idCounter := s.idCounter + 1, nodes := kept[nid := Node(nid, node.parentId, node.text[k..], node.children)]);
    var v := WithContainer(u, node.parentId, InsertAfter(SiblingsOf(s, id), id, nid));
    SetFocusLowerClamped(v, nid, 0)
  }

  // ---------------------------------------------------------------------------
  // Moving nodes
  // ---------------------------------------------------------------------------

  /** indent: the node becomes the last child of its previous sibling; no-op
      without one. */
  function Indent(s: State, id: Id): (t: State)
    requires Linked(s) && id in s.nodes
  {
    SiblingsOfLinked(s, id);
    match PrevSibling(s, id)
    case None => s
    case Some(prev) =>
      var u := WithContainer(s, s.nodes[id].parentId, EraseFrom(SiblingsOf(s, id), id));
      var n1 := u.nodes[id := u.nodes[id].(parentId := Some(prev))];
      u.(nodes := n1[prev := n1[prev].(children := n1[prev].children + [id])])
  }

  /** `x` placed right after `p` (`after`) or right before it. */
  function Placed(v: seq<Id>, p: Id, x: Id, after: bool): (r: seq<Id>)
    requires p in v
    ensures |r| == |v| + 1 && forall y :: y in r <==> y in v || y == x
    ensures NoDup(v) && x !in v ==> NoDup(r)
  {
    if after then InsertAfter(v, p, x) else InsertBefore(v, p, x)
  }

  /** The node leaves its parent's children and is placed next to the parent in
      the grandparent's list (or the root order): just after it when `after`,
      just before it otherwise. */
  function Hoist(s: State, id: Id, after: bool): (t: State)
    requires Linked(s) && Acyclic(s) && id in s.nodes && s.nodes[id].parentId.Some?
  {
    HoistFacts(s, id);
    var p := s.nodes[id].parentId.value;
    var gp := s.nodes[p].parentId;
    var n1 := s.nodes[p := s.nodes[p].(children := EraseFrom(s.nodes[p].children, id))];
    match gp
    case None =>
      s.(rootOrder := Placed(s.rootOrder, p, id, after), nodes := n1[id := n1[id].(parentId := None)])
    case Some(g) =>
      var n2 := n1[g := n1[g].(children := Placed(n1[g].children, p, id, after))];
      s.(nodes := n2[id := n2[id].(parentId := Some(g))])
  }

  /** In a well-formed forest a node with a parent sits in the parent's children,
      and the parent sits in the grandparent's children or the root order. */
  lemma HoistFacts(s: State, id: Id)
    requires Linked(s) && Acyclic(s) && id in s.nodes && s.nodes[id].parentId.Some?
    ensures var p := s.nodes[id].parentId.value;
      && p in s.nodes && p != id && id in s.nodes[p].children
      && (s.nodes[p].parentId == None ==> p in s.rootOrder)
      && (s.nodes[p].parentId.Some? ==>
            var g := s.nodes[p].parentId.value;
            g in s.nodes && g != p && g != id && p in s.nodes[g].children)
  {
    assert ParentLinked(s, id);
    var p := s.nodes[id].parentId.value;
    assert ParentLinked(s, p);
    DepthOfParent(s, id);
    DepthOfParent(s, p);
  }

  /** outdent: the node becomes the next sibling of its parent; no-op on a root. */
  function Outdent(s: State, id: Id): (t: State)
    requires Linked(s) && Acyclic(s) && id in s.nodes
  {
    if s.nodes[id].parentId == None then s else Hoist(s, id, true)
  }

  /** move_up: swap with the previous sibling; at the first position move before
      the parent one level up; a first root stays. */
  function MoveUp(s: State, id: Id): (t: State)
    requires Linked(s) && Acyclic(s) && id in s.nodes
  {
    SiblingsOfLinked(s, id);
    var sibs := SiblingsOf(s, id);
    var i := IndexInSiblings(s, id);
    if i > 0 then WithContainer(s, s.nodes[id].parentId, Swap(sibs, i - 1, i))
    else if s.nodes[id].parentId == None then s
    else Hoist(s, id, false)
  }

  /** move_down: swap with the next sibling; at the last position move after the
      parent one level up; a last root stays. */
  function MoveDown(s: State, id: Id): (t: State)
    requires Linked(s) && Acyclic(s) && id in s.nodes
  {
    SiblingsOfLinked(s, id);
    var sibs := SiblingsOf(s, id);
    var i := IndexInSiblings(s, id);
    if i + 1 < |sibs| then WithContainer(s, s.nodes[id].parentId, Swap(sibs, i, i + 1))
    else if s.nodes[id].parentId == None then s
    else Hoist(s, id, true)
  }

  // ---------------------------------------------------------------------------
  // Removing nodes
  // ---------------------------------------------------------------------------

  /** The node erased from its sibling list and from the node map. */
  function RemoveNode(s: State, id: Id): (t: State)
    requires Linked(s) && id in s.nodes
  {
    SiblingsOfLinked(s, id);
    var u := WithContainer(s, s.nodes[id].parentId, EraseFrom(SiblingsOf(s, id), id));
    u.(nodes := u.nodes - {id})
  }

  /** ensure_min_one_root: a fresh empty root, focused at 0, when no root is left. */
  function EnsureMinOneRoot(s: State): (t: State)
  {
    if |s.rootOrder| == 0 then
      var rid := NextId(s);
      s.(idCounter := s.idCounter + 1, nodes := s.nodes[rid := Node(rid, None, "", [])],
         rootOrder := [rid], focusedId := rid, caret := 0)
    else s
  }

  /** Where the focus goes after a deletion: the previous visible node, else the
      next, else the first root. */
  function FallbackFocus(prev: Option<Id>, next: Option<Id>, rootOrder: seq<Id>): (f: Option<Id>)
    ensures f == None <==> prev == None && next == None && rootOrder == []
    ensures prev.Some? ==> f == prev
    ensures prev == None && next.Some? ==> f == next
    ensures prev == None && next == None && rootOrder != [] ==> f == Some(rootOrder[0])
  {
    if prev.Some? then prev
    else if next.Some? then next
    else if rootOrder == [] then None
    else Some(rootOrder[0])
  }

  /** delete_empty_at_id (C++).  An unknown node, one with text, or one with
      children stays.  The sole root only loses its (already empty) text and takes
      the focus.  Otherwise the node is removed, a scope on it is cleared, a root
      is recreated if none is left, and the focus goes to the fallback with the
      caret at the end of its text. */
  function DeleteEmpty(s: State, id: Id): (t: State)
    requires Linked(s) && Acyclic(s)
  {
    if id !in s.nodes then s
    else if |s.nodes[id].text| != 0 then s
    else if |s.nodes[id].children| != 0 then s
    else
      var prev := PrevVisible(s, id);
      var next := NextVisible(s, id);
      var node := s.nodes[id];
      if node.parentId == None && |s.rootOrder| == 1 then
        s.(nodes := s.nodes[id := node.(text := "")], focusedId := node.id, caret := 0)
      else
        var u := RemoveNode(s, id);
        var u2 := if u.scopeRootId.Some? && u.scopeRootId == Some(id) then u.(scopeRootId := None) else u;
        var u3 := EnsureMinOneRoot(u2);
        match FallbackFocus(prev, next, u3.rootOrder)
        case None => u3
        case Some(f) =>
          DeleteFocusLive(s, id, prev, next, u3);
          SetFocusLowerClamped(u3, f, |u3.nodes[f].text|)
  }

  /** The fallback focus of a deletion is a live node. */
  lemma {:induction false} DeleteFocusLive(s: State, id: Id, prev: Option<Id>, next: Option<Id>, u3: State)
    requires Linked(s) && Acyclic(s) && id in s.nodes
    requires prev.Some? ==> prev.value in s.nodes && prev.value != id
    requires next.Some? ==> next.value in s.nodes && next.value != id
    requires u3 == EnsureMinOneRoot(RemoveNode(s, id).(scopeRootId := u3.scopeRootId))
    ensures FallbackFocus(prev, next, u3.rootOrder).Some? ==> FallbackFocus(prev, next, u3.rootOrder).value in u3.nodes
  {
    var u := RemoveNode(s, id);
    assert u.nodes.Keys == s.nodes.Keys - {id};
    assert u3.nodes.Keys >= u.nodes.Keys;
    if prev == None && next == None && |u.rootOrder| > 0 {
      FirstRootSurvives(s, id);
      assert u3.rootOrder == u.rootOrder;
    }
  }

  /** A root left after the removal of `id` is a live node. */
  lemma FirstRootSurvives(s: State, id: Id)
    requires Linked(s) && Acyclic(s) && id in s.nodes
    ensures var u := RemoveNode(s, id);
      |u.rootOrder| > 0 ==> u.rootOrder[0] in u.nodes
  {
    var u := RemoveNode(s, id);
    SiblingsOfLinked(s, id);
    assert RootsListed(s);
    if |u.rootOrder| > 0 {
      var r := u.rootOrder[0];
      assert r in u.rootOrder;
      if s.nodes[id].parentId == None {
        assert r in s.rootOrder && r != id;
      } else {
        assert u.rootOrder == s.rootOrder;
        var j :| 0 <= j < |s.rootOrder| && s.rootOrder[j] == r;
        assert s.nodes[r].parentId == None;
      }
    }
  }

  /** The removal half of deleteEmptyAtId (JavaScript), after the guards: the node
      is removed; with no root left a fresh root takes the focus, otherwise the
      focus moves as `Refocused` says. */
  function RemoveWithFallback(s: State, id: Id, prev: Option<Id>, next: Option<Id>): (t: State)
    requires Linked(s) && Acyclic(s) && id in s.nodes
    requires prev.Some? ==> prev.value in s.nodes && prev.value != id
    requires next.Some? ==> next.value in s.nodes && next.value != id
  {
    var u := RemoveNode(s, id);
    if |u.rootOrder| == 0 then
      var rid := NextId(u);
      u.(idCounter := u.idCounter + 1, nodes := u.nodes[rid := Node(rid, None, "", [])],
         rootOrder := [rid], focusedId := rid, caret := 0)
    else
      RefocusReady(s, id, prev, next);
      Refocused(u, s.nodes[id].parentId, prev, next)
  }

  /** After the removal, the nodes shown next to the removed one and the first
      root left are still live. */
  lemma RefocusReady(s: State, id: Id, prev: Option<Id>, next: Option<Id>)
    requires Linked(s) && Acyclic(s) && id in s.nodes
    requires prev.Some? ==> prev.value in s.nodes && prev.value != id
    requires next.Some? ==> next.value in s.nodes && next.value != id
    ensures var u := RemoveNode(s, id);
      && (prev.Some? ==> prev.value in u.nodes)
      && (next.Some? ==> next.value in u.nodes)
      && (|u.rootOrder| > 0 ==> u.rootOrder[0] in u.nodes)
  {
    var u := RemoveNode(s, id);
    SiblingsOfLinked(s, id);
    assert u.nodes.Keys == s.nodes.Keys - {id};
    FirstRootSurvives(s, id);
  }

  /** Where deleteEmptyAtId (JavaScript) puts the focus once the node is gone
      from `u` and some root is left.  When the scope root was shown just
      before the removed node, the next node takes the focus, or else, if the
      removed node was the scope root's last child, a fresh child of the scope
      root.  Otherwise the fallback focus, with the caret at the end of its
      text. */
  function Refocused(u: State, parent: Option<Id>, prev: Option<Id>, next: Option<Id>): (t: State)
    requires prev.Some? ==> prev.value in u.nodes
    requires next.Some? ==> next.value in u.nodes
    requires |u.rootOrder| > 0 && u.rootOrder[0] in u.nodes
  {
    if u.scopeRootId.Some? && prev == u.scopeRootId && next.Some? then
      u.(focusedId := next.value, caret := 0)
    else if u.scopeRootId.Some? && prev == u.scopeRootId && parent.Some? && parent == u.scopeRootId
         && |u.nodes[parent.value].children| == 0 then
      AppendEmptyChild(u, parent.value)
    else
      var f := FallbackFocus(prev, next, u.rootOrder).value;
      u.(focusedId := f, caret := |u.nodes[f].text|)
  }

  /** deleteEmptyAtId (demo.js and BulletCanvas).  Like the C++ command, except
      that the scope root is never deleted (it only loses its text and takes the
      focus), the visible order falls back to the whole forest under a dangling
      scope, and the focus after a deletion under a scope avoids the scope root.
      demo.js tests for the sole root first and BulletCanvas for the scope root
      first; both tests lead to the same state. */
  function DeleteEmptyGuarded(s: State, id: Id): (t: State)
    requires Linked(s) && Acyclic(s)
  {
    if id !in s.nodes then s
    else if |s.nodes[id].text| > 0 then s
    else if |s.nodes[id].children| != 0 then s
    else if (s.nodes[id].parentId == None && |s.rootOrder| == 1)
         || (s.scopeRootId.Some? && s.scopeRootId == Some(id)) then
      s.(nodes := s.nodes[id := s.nodes[id].(text := "")], focusedId := id, caret := 0)
    else
      RemoveWithFallback(s, id, PrevVisibleFallback(s, id), NextVisibleFallback(s, id))
  }

  // ---------------------------------------------------------------------------
  // Merging
  // ---------------------------------------------------------------------------

  /** merge_next_sibling_into_current: the next sibling's text and children are
      appended to the node, the next sibling is removed, and the caret goes to the
      end of the joined text.  No-op if the node has children or no next sibling.
      `clearScope` says whether a scope on the removed node is cleared (C++) or
      left dangling (JavaScript). */
  function Merge(s: State, id: Id, clearScope: bool): (t: State)
    requires Linked(s) && id in s.nodes
  {
    SiblingsOfLinked(s, id);
    var node := s.nodes[id];
    if |node.children| != 0 then s
    else match NextSibling(s, id)
      case None => s
      case Some(next) =>
        var m := s.nodes[next];
        var joined := node.(text := node.text + m.text, children := node.children + m.children);
        var n1 := Reparented(s.nodes[id := joined], m.children, id);
        var u := WithContainer(s.(nodes := n1), node.parentId, EraseFrom(SiblingsOf(s, id), next));
        var u2 := u.(nodes := u.nodes - {next});
        var u3 := if clearScope && u2.scopeRootId.Some? && u2.scopeRootId == Some(next) then u2.(scopeRootId := None) else u2;
        SetFocusLowerClamped(u3, id, |joined.text|)
  }
}
