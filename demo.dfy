/** The browser demo's engine (web/demo/demo.js, lines 4-97): module-level
    functions that change a state object in place, with ids drawn from a
    counter closure shared by the whole module.  Each edit is proved equal to
    the reference definition of its command, applied to the state before the
    call; the lookups are proved equal to the reference queries. */
module Demo {
  import opened Types
  import opened Vectors
  import opened Forest
  import opened Preorder
  import opened Edits
  import opened Preserve
  import opened Laws
  import opened StateUtils
  import opened JsState
  import Engine

  /** The counter closure behind `newId`, which hands out j1, j2, ... */
  class IdSource {
    var count: nat

    constructor ()
      ensures count == 0
    {
      count := 0;
    }

    /** newId: the next counter value, larger than every one handed out before. */
    method NewId() returns (id: Id)
      modifies this
      ensures count == old(count) + 1 && id == Id(count)
    {
      count := count + 1;
      id := Id(count);
    }
  }

  /** The engine state that the state object and the module's counter hold together. */
  ghost function View(state: StateObject, ids: IdSource): State
    reads state, ids
  {
    state.Value(ids.count)
  }

  /** initialState: one empty root with a fresh id, focused at caret 0, no scope. */
  method InitialState(ids: IdSource) returns (state: StateObject)
    modifies ids
    ensures fresh(state) && ids.count == old(ids.count) + 1
    ensures View(state, ids) == FreshRoot(ids.count)
  {
    var id := ids.NewId();
    state := new StateObject(map[id := Node(id, None, "", [])], [id], id, 0, None);
  }

  // ---------------------------------------------------------------------------
  // Focus
  // ---------------------------------------------------------------------------

  /** setFocus: the caret is clamped into the target's text. */
  method SetFocus(state: StateObject, id: Id, caret: int)
    requires id in state.nodes
    modifies state`focusedId, state`caret
    ensures state.focusedId == id
    ensures state.caret == if caret < 0 then 0 else if caret > |state.nodes[id].text| then |state.nodes[id].text| else caret
    ensures forall c :: state.Value(c) == old(state.Value(c)).(focusedId := id, caret := state.caret)
  {
    state.focusedId := id;
    var len := |state.nodes[id].text|;
    state.caret := if caret < 0 then 0 else if caret > len then len else caret;
  }

  // ---------------------------------------------------------------------------
  // Adding nodes
  // ---------------------------------------------------------------------------

  /** insertEmptySiblingAfter. */
  method InsertEmptySiblingAfter(state: StateObject, ids: IdSource, id: Id)
    requires Walkable(View(state, ids)) && id in state.nodes && NextId(View(state, ids)) !in state.nodes
    modifies state, ids
    ensures View(state, ids) == InsertSiblingAfter(old(View(state, ids)), id)
  {
    ghost var s := View(state, ids);
    InsertSiblingAfterIs(s, id);
    var node := state.nodes[id];
    var nid := ids.NewId();
    state.nodes := state.nodes[nid := Node(nid, node.parentId, "", [])];
    ghost var u := View(state, ids);
    assert u == s.(idCounter := s.idCounter + 1, nodes := s.nodes[nid := Node(nid, node.parentId, "", [])]);
    assert SiblingsOf(u, id) == SiblingsOf(s, id);
    state.SpliceAfter(ids.count, id, nid);
    ghost var v := WithContainer(u, node.parentId, InsertAfter(SiblingsOf(s, id), id, nid));
    assert View(state, ids) == v;
    SetFocus(state, nid, 0);
  }

  /** appendEmptyChild: returns the id of the new last child of `parentId`. */
  method AppendEmptyChild(state: StateObject, ids: IdSource, parentId: Id) returns (nid: Id)
    requires parentId in state.nodes
    modifies state, ids
    ensures nid == NextId(old(View(state, ids)))
    ensures View(state, ids) == Edits.AppendEmptyChild(old(View(state, ids)), parentId)
  {
    nid := ids.NewId();
    state.nodes := state.nodes[nid := Node(nid, Some(parentId), "", [])];
    state.nodes := state.nodes[parentId := state.nodes[parentId].(children := state.nodes[parentId].children + [nid])];
    SetFocus(state, nid, 0);
  }

  /** ensureTrailingEmptyChild: a new empty last child, and its id, unless the
      last child already has empty text. */
  method EnsureTrailingEmptyChild(state: StateObject, ids: IdSource, parentId: Id) returns (r: Option<Id>)
    requires Walkable(View(state, ids)) && parentId in state.nodes
    modifies state, ids
    ensures (View(state, ids), r) == Edits.EnsureTrailingEmptyChild(old(View(state, ids)), parentId)
  {
    assert ChildrenLinked(View(state, ids), parentId);
    var ch := state.nodes[parentId].children;
    if |ch| == 0 {
      var nid := AppendEmptyChild(state, ids, parentId);
      return Some(nid);
    }
    var lastId := ch[|ch| - 1];
    if |state.nodes[lastId].text| > 0 {
      var nid := AppendEmptyChild(state, ids, parentId);
      return Some(nid);
    }
    return None;
  }

  /** splitAtCaret: the state's caret when none is given, clamped; the text from
      the caret on and all the children go to a new next sibling, which takes
      the focus. */
  method SplitAtCaret(state: StateObject, ids: IdSource, id: Id, caret: Option<int>)
    requires Walkable(View(state, ids)) && id in state.nodes && NextId(View(state, ids)) !in state.nodes
    modifies state, ids
    ensures View(state, ids) == Split(old(View(state, ids)), id, SplitCaretDemo(old(View(state, ids)), id, caret))
  {
    ghost var s := View(state, ids);
    SplitFacts(s, id);
    var node := state.nodes[id];
    var c := if caret.None? then state.caret else caret.value;
    c := if c < 0 then 0 else if c > |node.text| then |node.text| else c;
    var nid := ids.NewId();
    state.SplitOff(s.idCounter, id, c, nid);
    ghost var w := View(state, ids);
    Engine.SplitPlace(s, id, c, w);
    assert SiblingsOf(w, id) == SiblingsOf(s, id);
    state.SpliceAfter(ids.count, id, nid);
    ghost var v := WithContainer(w, node.parentId, InsertAfter(SiblingsOf(s, id), id, nid));
    assert View(state, ids) == v;
    SetFocus(state, nid, 0);
    assert View(state, ids) == v.(focusedId := nid, caret := 0);
    assert c == SplitCaretDemo(s, id, caret);
    SplitIs(s, id, c);
  }

  // ---------------------------------------------------------------------------
  // Removing nodes
  // ---------------------------------------------------------------------------

  /** deleteEmptyAtId: the sole root is checked first, then the scope root; both
      stay and only lose their (empty) text. */
  method DeleteEmptyAtId(state: StateObject, ids: IdSource, id: Id)
    requires Walkable(View(state, ids))
    modifies state, ids
    ensures View(state, ids) == DeleteEmptyGuarded(old(View(state, ids)), id)
  {
    ghost var s := View(state, ids);
    if id !in state.nodes || |state.nodes[id].text| > 0 {
      return;
    }
    if |state.nodes[id].children| != 0 {
      return;
    }
    var n := state.nodes[id];
    var isRoot := n.parentId.None?;
    if isRoot && |state.rootOrder| == 1 {
      state.nodes := state.nodes[id := n.(text := "")];
      SetFocus(state, id, 0);
      return;
    }
    if state.scopeRootId.Some? && id == state.scopeRootId.value {
      state.nodes := state.nodes[id := state.nodes[id].(text := "")];
      SetFocus(state, id, 0);
      return;
    }
    var prev := state.PrevVisibleId(ids.count, id);
    var next := state.NextVisibleId(ids.count, id);
    var parent := state.nodes[id].parentId;
    SiblingsOfLinked(s, id);
    state.Unlink(ids.count, id, id);
    Refocus(state, ids, s, id, parent, prev, next);
  }

  /** The rest of deleteEmptyAtId once `id` (with parent link `parent`, shown
      between `prev` and `next`) is gone from `s`: a fresh root when none is
      left, the focus kept off the scope root, or else the fallback focus. */
  method Refocus(state: StateObject, ids: IdSource, ghost s: State, ghost id: Id,
                 parent: Option<Id>, prev: Option<Id>, next: Option<Id>)
    requires Walkable(s) && id in s.nodes && parent == s.nodes[id].parentId
    requires prev.Some? ==> prev.value in s.nodes && prev.value != id
    requires next.Some? ==> next.value in s.nodes && next.value != id
    requires View(state, ids) == RemoveNode(s, id)
    modifies state, ids
    ensures View(state, ids) == RemoveWithFallback(s, id, prev, next)
  {
    ghost var u := RemoveNode(s, id);
    if |state.rootOrder| == 0 {
      var rid := ids.NewId();
      state.nodes := state.nodes[rid := Node(rid, None, "", [])];
      state.rootOrder := [rid];
      SetFocus(state, rid, 0);
      assert View(state, ids) == u.(idCounter := u.idCounter + 1, nodes := u.nodes[rid := Node(rid, None, "", [])],
                                     rootOrder := [rid], focusedId := rid, caret := 0);
      return;
    }
    RefocusReady(s, id, prev, next);
    RefocusAmongRoots(state, ids, parent, prev, next);
  }

  /** The rest of `Refocus` when some root is left: the focus kept off the scope
      root, or else the fallback focus. */
  method RefocusAmongRoots(state: StateObject, ids: IdSource, parent: Option<Id>, prev: Option<Id>, next: Option<Id>)
    requires prev.Some? ==> prev.value in state.nodes
    requires next.Some? ==> next.value in state.nodes
    requires |state.rootOrder| > 0 && state.rootOrder[0] in state.nodes
    modifies state, ids
    ensures View(state, ids) == Refocused(old(View(state, ids)), parent, prev, next)
  {
    ghost var u := View(state, ids);
    if state.scopeRootId.Some? && prev == state.scopeRootId {
      if next.Some? {
        SetFocus(state, next.value, 0);
        assert View(state, ids) == u.(focusedId := next.value, caret := 0);
        return;
      }
      if parent.Some? && parent == state.scopeRootId && |state.nodes[parent.value].children| == 0 {
        AppendFocusedChild(state, ids, parent.value);
        return;
      }
    }
    FocusFallback(state, ids, prev, next);
  }

  /** `appendEmptyChild(state, parent)` followed by `setFocus(state, nid, 0)` on
      the new child, which already has the focus at 0. */
  method AppendFocusedChild(state: StateObject, ids: IdSource, p: Id)
    requires p in state.nodes
    modifies state, ids
    ensures View(state, ids) == Edits.AppendEmptyChild(old(View(state, ids)), p)
  {
    var nid := AppendEmptyChild(state, ids, p);
    ghost var w := View(state, ids);
    SetFocus(state, nid, 0);
    assert View(state, ids) == w;
  }

  /** The last branch of the delete: the focus goes to the previous visible
      node, else the next, else the first root, with the caret at the end of
      its text. */
  method FocusFallback(state: StateObject, ids: IdSource, prev: Option<Id>, next: Option<Id>)
    requires FallbackFocus(prev, next, state.rootOrder).Some?
    requires FallbackFocus(prev, next, state.rootOrder).value in state.nodes
    modifies state
    ensures var f := FallbackFocus(prev, next, old(state.rootOrder)).value;
      View(state, ids) == old(View(state, ids)).(focusedId := f, caret := |old(state.nodes)[f].text|)
  {
    var nf := if prev.Some? then prev.value else if next.Some? then next.value else state.rootOrder[0];
    SetFocus(state, nf, |state.nodes[nf].text|);
  }

  /** mergeNextSiblingIntoCurrent: like the C++ merge, but a scope on the
      absorbed sibling is left in place. */
  method MergeNextSiblingIntoCurrent(state: StateObject, ids: IdSource, id: Id)
    requires Walkable(View(state, ids)) && id in state.nodes
    modifies state
    ensures View(state, ids) == Merge(old(View(state, ids)), id, false)
  {
    ghost var s := View(state, ids);
    if |state.nodes[id].children| != 0 {
      return;
    }
    var next := state.NextSiblingId(ids.count, id);
    if next.None? {
      return;
    }
    MergeTarget(s, id);
    assert ChildrenLinked(s, next.value);
    var m := state.nodes[next.value];
    state.nodes := state.nodes[id := state.nodes[id].(text := state.nodes[id].text + m.text)];
    state.Adopt(id, m.children);
    ghost var node := s.nodes[id];
    ghost var joined := node.(text := node.text + m.text, children := node.children + m.children);
    assert state.nodes == Reparented(s.nodes[id := joined], m.children, id);
    ghost var w := View(state, ids);
    assert SiblingsOf(w, id) == SiblingsOf(s, id);
    state.Unlink(ids.count, id, next.value);
    SetFocus(state, id, |state.nodes[id].text|);
  }
}
