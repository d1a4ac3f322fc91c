/** The BulletCanvas editor's state methods (packages/bullet-canvas-dom/src/core.js,
    lines 20-53).  The instance holds the state object and its own id counter
    `_idc`; every edit changes the state object in place.  Each edit is proved
    equal to the reference definition of its command, applied to the state
    before the call. */
module Canvas {
  import opened Types
  import opened Vectors
  import opened Forest
  import opened Preorder
  import opened Edits
  import opened Preserve
  import opened Laws
  import opened JsState
  import Engine

  class BulletCanvas {
    var state: StateObject
    /** `_idc`; a counter never set reads as 0. */
    var idc: nat

    /** The engine state the instance holds: its state object and its counter. */
    ghost function Model(): State
      reads this, state
    {
      state.Value(idc)
    }

    /** The constructor without `options.value`: the state comes from
        initialState(), which draws the instance's first id. */
    constructor ()
      ensures fresh(state) && idc == 1 && Model() == FreshRoot(1)
    {
      idc := 0;
      state := new StateObject(map[], [], Id(0), 0, None);
      new;
      state := InitialState();
    }

    /** The constructor with `options.value` as written: that object itself
        becomes the state (no copy is made) and the counter stays unset. */
    constructor LoadAsWritten(value: StateObject)
      ensures state == value && idc == 0
    {
      idc := 0;
      state := value;
    }

    /** The constructor with `options.value`, with the counter moved past every
        id in the state so that later ids are new. */
    constructor Load(value: StateObject)
      ensures state == value
      ensures Counted(Model()) && NextId(Model()) !in state.nodes
    {
      idc := 0;
      state := value;
      new;
      AdvanceCounter();
      NextIdFresh(Model());
    }

    // -------------------------------------------------------------------------
    // Public API
    // -------------------------------------------------------------------------

    /** getState: a deep copy of the state. */
    method GetState() returns (copy: StateObject)
      ensures fresh(copy) && copy.Value(idc) == Model()
    {
      copy := state.Clone();
    }

    /** setState as written: a deep copy of `s` is installed and the counter
        stays where it was. */
    method SetStateAsWritten(s: StateObject)
      modifies this`state
      ensures fresh(state) && Model() == s.Value(idc)
    {
      state := s.Clone();
    }

    /** setState with the counter moved past every id of the installed state, so
        that the next id drawn is not in use. */
    method SetState(s: StateObject)
      modifies this`state, this`idc
      ensures fresh(state) && idc >= old(idc) && Model() == s.Value(idc)
      ensures Counted(Model()) && NextId(Model()) !in state.nodes
    {
      state := s.Clone();
      AdvanceCounter();
      NextIdFresh(Model());
    }

    /** The counter raised to the largest serial in use, if that is larger. */
    method AdvanceCounter()
      modifies this`idc
      ensures idc >= old(idc) && Counted(Model())
    {
      var keys := state.nodes.Keys;
      while keys != {}
        invariant keys <= state.nodes.Keys && idc >= old(idc)
        invariant forall x :: x in state.nodes && x !in keys ==> x.serial <= idc
        decreases keys
      {
        var k :| k in keys;
        if k.serial > idc {
          idc := k.serial;
        }
        keys := keys - {k};
      }
    }

    /** setScopeRoot: an empty id clears the scope. */
    method SetScopeRoot(id: Option<Id>)
      modifies state`scopeRootId
      ensures Model() == SetScope(old(Model()), id)
    {
      state.scopeRootId := id;
    }

    // -------------------------------------------------------------------------
    // State helpers
    // -------------------------------------------------------------------------

    /** initialState: one empty root with the instance's next id, focused at
        caret 0, no scope. */
    method InitialState() returns (s: StateObject)
      modifies this`idc
      ensures fresh(s) && idc == old(idc) + 1 && s.Value(idc) == FreshRoot(idc)
    {
      var id := NewId();
      s := new StateObject(map[id := Node(id, None, "", [])], [id], id, 0, None);
    }

    /** newId: the instance counter plus one, stored back. */
    method NewId() returns (id: Id)
      modifies this`idc
      ensures idc == old(idc) + 1 && id == Id(idc)
    {
      idc := idc + 1;
      id := Id(idc);
    }

    /** setFocus: the caret is stored as given, without clamping. */
    method SetFocus(id: Id, caret: int)
      modifies state`focusedId, state`caret
      ensures Model() == SetFocusUnclamped(old(Model()), id, caret)
    {
      state.focusedId := id;
      state.caret := caret;
    }

    // -------------------------------------------------------------------------
    // Adding nodes
    // -------------------------------------------------------------------------

    /** insertEmptySiblingAfter: returns the new node's id. */
    method InsertEmptySiblingAfter(id: Id) returns (nid: Id)
      requires Walkable(Model()) && id in state.nodes && NextId(Model()) !in state.nodes
      modifies this`idc, state
      ensures nid == NextId(old(Model()))
      ensures Model() == InsertSiblingAfter(old(Model()), id)
    {
      ghost var s := Model();
      InsertSiblingAfterIs(s, id);
      var node := state.nodes[id];
      nid := NewId();
      state.nodes := state.nodes[nid := Node(nid, node.parentId, "", [])];
      ghost var u := Model();
      assert u == s.(idCounter := s.idCounter + 1, nodes := s.nodes[nid := Node(nid, node.parentId, "", [])]);
      assert SiblingsOf(u, id) == SiblingsOf(s, id);
      state.SpliceAfter(idc, id, nid);
      ghost var v := WithContainer(u, node.parentId, InsertAfter(SiblingsOf(s, id), id, nid));
      assert Model() == v;
      SetFocus(nid, 0);
    }

    /** appendEmptyChild: returns the id of the new last child of `parentId`. */
    method AppendEmptyChild(parentId: Id) returns (nid: Id)
      requires parentId in state.nodes
      modifies this`idc, state
      ensures nid == NextId(old(Model()))
      ensures Model() == Edits.AppendEmptyChild(old(Model()), parentId)
    {
      nid := NewId();
      state.nodes := state.nodes[nid := Node(nid, Some(parentId), "", [])];
      state.nodes := state.nodes[parentId := state.nodes[parentId].(children := state.nodes[parentId].children + [nid])];
      SetFocus(nid, 0);
    }

    /** ensureTrailingEmptyChild: a new empty last child, and its id, unless the
        last child already has empty text. */
    method EnsureTrailingEmptyChild(parentId: Id) returns (r: Option<Id>)
      requires Walkable(Model()) && parentId in state.nodes
      modifies this`idc, state
      ensures (Model(), r) == Edits.EnsureTrailingEmptyChild(old(Model()), parentId)
    {
      assert ChildrenLinked(Model(), parentId);
      var ch := state.nodes[parentId].children;
      if |ch| == 0 {
        var nid := AppendEmptyChild(parentId);
        return Some(nid);
      }
      var lastId := ch[|ch| - 1];
      if |state.nodes[lastId].text| > 0 {
        var nid := AppendEmptyChild(parentId);
        return Some(nid);
      }
      return None;
    }

    /** splitAtCaret: the given caret, clamped; the text from the caret on and
        all the children go to a new next sibling, which takes the focus. */
    method SplitAtCaret(id: Id, caret: int)
      requires Walkable(Model()) && id in state.nodes && NextId(Model()) !in state.nodes
      modifies this`idc, state
      ensures Model() == Split(old(Model()), id, SplitCaretCanvas(old(Model()), id, caret))
    {
      ghost var s := Model();
      SplitFacts(s, id);
      var node := state.nodes[id];
      var c := if caret < 0 then 0 else if caret > |node.text| then |node.text| else caret;
      var nid := NewId();
      state.SplitOff(s.idCounter, id, c, nid);
      ghost var w := Model();
      Engine.SplitPlace(s, id, c, w);
      assert SiblingsOf(w, id) == SiblingsOf(s, id);
      state.SpliceAfter(idc, id, nid);
      ghost var v := WithContainer(w, node.parentId, InsertAfter(SiblingsOf(s, id), id, nid));
      assert Model() == v;
      SetFocus(nid, 0);
      assert Model() == v.(focusedId := nid, caret := 0);
      SplitIs(s, id, c);
    }

    // -------------------------------------------------------------------------
    // Moving nodes
    // -------------------------------------------------------------------------

    /** indent: the node becomes the last child of its previous sibling. */
    method Indent(id: Id)
      requires Walkable(Model()) && id in state.nodes
      modifies state`nodes, state`rootOrder
      ensures Model() == Edits.Indent(old(Model()), id)
    {
      state.Indent(idc, id);
    }

    /** outdent: the node becomes the next sibling of its parent. */
    method Outdent(id: Id)
      requires Walkable(Model()) && id in state.nodes
      modifies state`nodes, state`rootOrder
      ensures Model() == Edits.Outdent(old(Model()), id)
    {
      state.Outdent(idc, id);
    }

    /** moveUp: swap with the previous sibling, or move before the parent one level up. */
    method MoveUp(id: Id)
      requires Walkable(Model()) && id in state.nodes
      modifies state`nodes, state`rootOrder
      ensures Model() == Edits.MoveUp(old(Model()), id)
    {
      state.MoveUp(idc, id);
    }

    /** moveDown: swap with the next sibling, or move after the parent one level up. */
    method MoveDown(id: Id)
      requires Walkable(Model()) && id in state.nodes
      modifies state`nodes, state`rootOrder
      ensures Model() == Edits.MoveDown(old(Model()), id)
    {
      state.MoveDown(idc, id);
    }

    // -------------------------------------------------------------------------
    // Removing nodes
    // -------------------------------------------------------------------------

    /** deleteEmptyAtId: the scope root is checked first, then the sole root; both
        stay and only lose their (empty) text. */
    method DeleteEmptyAtId(id: Id)
      requires Walkable(Model())
      modifies this`idc, state
      ensures Model() == DeleteEmptyGuarded(old(Model()), id)
    {
      ghost var s := Model();
      if id !in state.nodes || |state.nodes[id].text| > 0 {
        return;
      }
      if |state.nodes[id].children| != 0 {
        return;
      }
      var n := state.nodes[id];
      if state.scopeRootId.Some? && id == state.scopeRootId.value {
        state.nodes := state.nodes[id := state.nodes[id].(text := "")];
        SetFocus(id, 0);
        return;
      }
      var isRoot := n.parentId.None?;
      if isRoot && |state.rootOrder| == 1 {
        state.nodes := state.nodes[id := n.(text := "")];
        SetFocus(id, 0);
        return;
      }
      var prev := state.PrevVisibleId(idc, id);
      var next := state.NextVisibleId(idc, id);
      var parent := state.nodes[id].parentId;
      SiblingsOfLinked(s, id);
      state.Unlink(idc, id, id);
      Refocus(s, id, parent, prev, next);
    }

    /** The rest of deleteEmptyAtId once `id` (with parent link `parent`, shown
        between `prev` and `next`) is gone from `s`. */
    method Refocus(ghost s: State, ghost id: Id, parent: Option<Id>, prev: Option<Id>, next: Option<Id>)
      requires Walkable(s) && id in s.nodes && parent == s.nodes[id].parentId
      requires prev.Some? ==> prev.value in s.nodes && prev.value != id
      requires next.Some? ==> next.value in s.nodes && next.value != id
      requires Model() == RemoveNode(s, id)
      modifies this`idc, state
      ensures Model() == RemoveWithFallback(s, id, prev, next)
    {
      ghost var u := RemoveNode(s, id);
      if |state.rootOrder| == 0 {
        var rid := NewId();
        state.nodes := state.nodes[rid := Node(rid, None, "", [])];
        state.rootOrder := [rid];
        SetFocus(rid, 0);
        return;
      }
      RefocusReady(s, id, prev, next);
      RefocusAmongRoots(parent, prev, next);
    }

    /** The rest of `Refocus` when some root is left: the focus kept off the
        scope root, or else the fallback focus. */
    method RefocusAmongRoots(parent: Option<Id>, prev: Option<Id>, next: Option<Id>)
      requires prev.Some? ==> prev.value in state.nodes
      requires next.Some? ==> next.value in state.nodes
      requires |state.rootOrder| > 0 && state.rootOrder[0] in state.nodes
      modifies this`idc, state
      ensures Model() == Refocused(old(Model()), parent, prev, next)
    {
      if state.scopeRootId.Some? && prev == state.scopeRootId {
        if next.Some? {
          SetFocus(next.value, 0);
          return;
        }
        if parent.Some? && parent == state.scopeRootId && |state.nodes[parent.value].children| == 0 {
          var nid := AppendEmptyChild(parent.value);
          SetFocus(nid, 0);
          return;
        }
      }
      var nf := if prev.Some? then prev.value else if next.Some? then next.value else state.rootOrder[0];
      SetFocus(nf, |state.nodes[nf].text|);
    }

    /** mergeNextSiblingIntoCurrent: a scope on the absorbed sibling is left in place. */
    method MergeNextSiblingIntoCurrent(id: Id)
      requires Walkable(Model()) && id in state.nodes
      modifies state`nodes, state`rootOrder, state`focusedId, state`caret
      ensures Model() == Merge(old(Model()), id, false)
    {
      ghost var s := Model();
      if |state.nodes[id].children| != 0 {
        return;
      }
      var next := state.NextSiblingId(idc, id);
      if next.None? {
        return;
      }
      MergeTarget(s, id);
      assert ChildrenLinked(s, next.value);
      var m := state.nodes[next.value];
      state.nodes := state.nodes[id := state.nodes[id].(text := state.nodes[id].text + m.text)];
      state.Adopt(id, m.children);
      ghost var node := s.nodes[id];
      ghost var joined := node.(text := node.text + m.text, children := node.children + m.children);
      assert state.nodes == Reparented(s.nodes[id := joined], m.children, id);
      ghost var w := Model();
      assert SiblingsOf(w, id) == SiblingsOf(s, id);
      state.Unlink(idc, id, next.value);
      SetFocus(id, |state.nodes[id].text|);
    }
  }

  /** A valid document installed by the setState as written into an instance
      whose counter was never advanced: the next id drawn is already in use, so
      the next insertion overwrites a node and lists it twice. */
  lemma StaleCounterCollides()
    ensures var doc := FreshRoot(1);
      var installed := doc.(idCounter := 0);
      && Valid(doc)
      && Walkable(installed)
      && NextId(installed) in installed.nodes
      && !Counted(installed)
      && !NoDup(InsertAfter(installed.rootOrder, Id(1), NextId(installed)))
  {
    var installed := FreshRoot(1).(idCounter := 0);
    assert ParentLinked(installed, Id(1));
    assert DepthRanked(installed, map[Id(1) := 0]);
    assert InsertAfter(installed.rootOrder, Id(1), NextId(installed))[0] == Id(1);
  }
}
