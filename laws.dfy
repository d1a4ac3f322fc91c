/** What each command does to the forest, node by node, and the round trips
    the engine's tests rely on: outdent undoes indent, move down undoes move
    up, merge undoes split, and deleting a freshly inserted sibling gives the
    forest back. */
module Laws {
  import opened Types
  import opened Vectors
  import opened Forest
  import opened Preorder
  import opened Edits
  import opened Preserve
  import opened Reshape

  // ---------------------------------------------------------------------------
  // Indent and hoist, node by node
  // ---------------------------------------------------------------------------

  /** indent: the node leaves its sibling list and becomes the last child of its
      previous sibling; nothing else changes. */
  lemma IndentExact(s: State, id: Id)
    requires Structural(s) && id in s.nodes
    requires ParentResolves(s, id) && id in SiblingsOf(s, id) && PrevSibling(s, id).Some?
    ensures var t := Edits.Indent(s, id);
      var prev := PrevSibling(s, id).value;
      var par := s.nodes[id].parentId;
      var sibs := SiblingsOf(s, id);
      && prev in s.nodes && prev != id && par != Some(prev) && par != Some(id)
      && t == s.(nodes := t.nodes, rootOrder := t.rootOrder)
      && t.nodes.Keys == s.nodes.Keys
      && t.nodes[id] == s.nodes[id].(parentId := Some(prev))
      && t.nodes[prev] == s.nodes[prev].(children := s.nodes[prev].children + [id])
      && (par.Some? ==> t.nodes[par.value] == s.nodes[par.value].(children := EraseFrom(sibs, id)))
      && t.rootOrder == (if par.Some? then s.rootOrder else EraseFrom(sibs, id))
      && (forall y :: y in s.nodes && y != id && y != prev && Some(y) != par ==> t.nodes[y] == s.nodes[y])
  {
    IndentTarget(s, id);
  }

  // ---------------------------------------------------------------------------
  // Split and merge, node by node
  // ---------------------------------------------------------------------------

  /** split_at_caret: the node keeps the text before the caret and loses its
      children; a fresh node right after it takes the text from the caret on, the
      children (which now point to it) and the focus. */
  lemma SplitExact(s: State, id: Id, k: nat)
    requires Linked(s) && Counted(s) && Acyclic(s) && id in s.nodes && k <= |s.nodes[id].text|
    ensures ParentResolves(s, id) && id in SiblingsOf(s, id)
    ensures var t := Split(s, id, k);
      var node := s.nodes[id];
      var par := node.parentId;
      var nid := NextId(s);
      var sibs := InsertAfter(SiblingsOf(s, id), id, nid);
      && nid !in s.nodes && Some(nid) != par && Some(id) != par && id !in node.children
      && t == s.(nodes := t.nodes, rootOrder := t.rootOrder, idCounter := s.idCounter + 1, focusedId := nid, caret := 0)
      && t.nodes.Keys == s.nodes.Keys + {nid}
      && t.nodes[id] == node.(text := node.text[..k], children := [])
      && t.nodes[nid] == Node(nid, par, node.text[k..], node.children)
      && t.nodes[id].text + t.nodes[nid].text == node.text
      && (par.Some? ==> par.value in s.nodes && par.value !in node.children
                        && t.nodes[par.value] == s.nodes[par.value].(children := sibs) && t.rootOrder == s.rootOrder)
      && (par == None ==> t.rootOrder == sibs)
      && (forall y :: y in node.children ==> y in s.nodes && t.nodes[y] == s.nodes[y].(parentId := Some(nid)))
      && (forall y :: y in s.nodes && y != id && y !in node.children && Some(y) != par ==> t.nodes[y] == s.nodes[y])
  {
    var node := s.nodes[id];
    assert node.text[..k] + node.text[k..] == node.text;
    NextIdFresh(s);
    SplitFacts(s, id);
    SplitNodes(s, id, k);
  }

  /** The facts about a node, its parent and its children that a split relies on. */
  lemma SplitFacts(s: State, id: Id)
    requires Linked(s) && Acyclic(s) && id in s.nodes && NextId(s) !in s.nodes
    ensures ParentResolves(s, id) && id in SiblingsOf(s, id)
    ensures var node := s.nodes[id];
      var par := node.parentId;
      var nid := NextId(s);
      && nid !in s.nodes && Some(nid) != par && Some(id) != par && id !in node.children && nid !in node.children
      && (par.Some? ==> par.value in s.nodes && par.value !in node.children)
      && (forall y :: y in node.children ==> y in s.nodes)
  {
    SiblingsOfLinked(s, id);
    assert ChildrenLinked(s, id);
    DepthOfParent(s, id);
    var node := s.nodes[id];
    if node.parentId.Some? {
      var q := node.parentId.value;
      if q in node.children {
        DepthOfParent(s, q);
      }
    }
  }

  lemma SplitNodes(s: State, id: Id, k: nat)
    requires Linked(s) && id in s.nodes && k <= |s.nodes[id].text|
    requires ParentResolves(s, id) && id in SiblingsOf(s, id)
    requires var node := s.nodes[id];
      var par := node.parentId;
      var nid := NextId(s);
      && nid !in s.nodes && Some(nid) != par && Some(id) != par && id !in node.children && nid !in node.children
      && (par.Some? ==> par.value in s.nodes && par.value !in node.children)
      && (forall y :: y in node.children ==> y in s.nodes)
    ensures var t := Split(s, id, k);
      var node := s.nodes[id];
      var par := node.parentId;
      var nid := NextId(s);
      var sibs := InsertAfter(SiblingsOf(s, id), id, nid);
      && t == s.(nodes := t.nodes, rootOrder := t.rootOrder, idCounter := s.idCounter + 1, focusedId := nid, caret := 0)
      && t.nodes.Keys == s.nodes.Keys + {nid}
      && t.nodes[id] == node.(text := node.text[..k], children := [])
      && t.nodes[nid] == Node(nid, par, node.text[k..], node.children)
      && (par.Some? ==> t.nodes[par.value] == s.nodes[par.value].(children := sibs) && t.rootOrder == s.rootOrder)
      && (par == None ==> t.rootOrder == sibs)
      && (forall y :: y in node.children ==> t.nodes[y] == s.nodes[y].(parentId := Some(nid)))
      && (forall y :: y in s.nodes && y != id && y !in node.children && Some(y) != par ==> t.nodes[y] == s.nodes[y])
  {
    SplitIs(s, id, k);
  }

  /** merge_next_sibling_into_current, when it happens: the node takes the next
      sibling's text after its own and the next sibling's children (which now
      point to it), the next sibling is gone, and the caret sits at the end of the
      joined text. */
  lemma MergeExact(s: State, id: Id, clearScope: bool)
    requires Structural(s) && id in s.nodes && s.nodes[id].children == []
    requires ParentResolves(s, id) && id in SiblingsOf(s, id) && NextSibling(s, id).Some?
    ensures var t := Merge(s, id, clearScope);
      var node := s.nodes[id];
      var par := node.parentId;
      var next := NextSibling(s, id).value;
      var m := s.nodes[next];
      var sibs := EraseFrom(SiblingsOf(s, id), next);
      && next in s.nodes && next != id && m.parentId == par
      && t == s.(nodes := t.nodes, rootOrder := t.rootOrder, focusedId := id, caret := |node.text| + |m.text|,
                 scopeRootId := t.scopeRootId)
      && t.scopeRootId == (if clearScope && s.scopeRootId == Some(next) then None else s.scopeRootId)
      && t.nodes.Keys == s.nodes.Keys - {next}
      && t.nodes[id] == node.(text := node.text + m.text, children := m.children)
      && (par.Some? ==> par.value in s.nodes && par.value != next && par.value !in m.children
                        && t.nodes[par.value] == s.nodes[par.value].(children := sibs) && t.rootOrder == s.rootOrder)
      && (par == None ==> t.rootOrder == sibs)
      && (forall y :: y in m.children ==> y in s.nodes && y != next && t.nodes[y] == s.nodes[y].(parentId := Some(id)))
      && (forall y :: y in s.nodes && y != id && y != next && y !in m.children && Some(y) != par ==> t.nodes[y] == s.nodes[y])
  {
    MergeTarget(s, id);
    var next := NextSibling(s, id).value;
    assert ChildrenLinked(s, next);
    MergeNodes(s, id, next, clearScope);
  }

  lemma MergeNodes(s: State, id: Id, next: Id, clearScope: bool)
    requires Linked(s) && id in s.nodes && s.nodes[id].children == []
    requires ParentResolves(s, id) && id in SiblingsOf(s, id) && NextSibling(s, id) == Some(next)
    requires var par := s.nodes[id].parentId;
      var m := s.nodes[next];
      && next in s.nodes && next != id && m.parentId == par
      && next !in m.children && id !in m.children
      && (par.Some? ==> par.value != next && par.value != id && par.value !in m.children)
      && (forall y :: y in m.children ==> y in s.nodes)
    ensures var t := Merge(s, id, clearScope);
      var node := s.nodes[id];
      var par := node.parentId;
      var m := s.nodes[next];
      var sibs := EraseFrom(SiblingsOf(s, id), next);
      && t == s.(nodes := t.nodes, rootOrder := t.rootOrder, focusedId := id, caret := |node.text| + |m.text|,
                 scopeRootId := t.scopeRootId)
      && t.scopeRootId == (if clearScope && s.scopeRootId == Some(next) then None else s.scopeRootId)
      && t.nodes.Keys == s.nodes.Keys - {next}
      && t.nodes[id] == node.(text := node.text + m.text, children := m.children)
      && (par.Some? ==> t.nodes[par.value] == s.nodes[par.value].(children := sibs) && t.rootOrder == s.rootOrder)
      && (par == None ==> t.rootOrder == sibs)
      && (forall y :: y in m.children ==> y != next && t.nodes[y] == s.nodes[y].(parentId := Some(id)))
      && (forall y :: y in s.nodes && y != id && y != next && y !in m.children && Some(y) != par ==> t.nodes[y] == s.nodes[y])
  {
    SiblingsOfLinked(s, id);
    MergeCase(s, id, clearScope);
    var sibs := SiblingsOf(s, id);
    var w := MergeMid(s, id, next);
    var t := Merge(s, id, clearScope);
    MergedFields(s, id, next, sibs, clearScope, w, t);
    MergedTable(s, id, next, sibs, clearScope, w, t);
  }

  /** The fields of a merged state written out: the focus, caret, scope and the
      lists. */
  lemma MergedFields(s: State, id: Id, next: Id, sibs: seq<Id>, clearScope: bool, w: State, t: State)
    requires MergeRemoveCase(s, id, next, sibs, clearScope, w, t)
    ensures var node := s.nodes[id];
      var par := node.parentId;
      var m := s.nodes[next];
      && t == s.(nodes := t.nodes, rootOrder := t.rootOrder, focusedId := id, caret := |node.text| + |m.text|,
                 scopeRootId := t.scopeRootId)
      && t.scopeRootId == (if clearScope && s.scopeRootId == Some(next) then None else s.scopeRootId)
      && t.nodes.Keys == s.nodes.Keys - {next}
      && (par.Some? ==> t.nodes[par.value] == s.nodes[par.value].(children := EraseFrom(sibs, next)) && t.rootOrder == s.rootOrder)
      && (par == None ==> t.rootOrder == EraseFrom(sibs, next))
  {
  }

  /** The table of a merged state written out: the joined node, the adopted
      children and every other node. */
  lemma MergedTable(s: State, id: Id, next: Id, sibs: seq<Id>, clearScope: bool, w: State, t: State)
    requires MergeRemoveCase(s, id, next, sibs, clearScope, w, t)
    requires forall y :: y in s.nodes[next].children ==> y in s.nodes
    ensures var node := s.nodes[id];
      var par := node.parentId;
      var m := s.nodes[next];
      && t.nodes.Keys == s.nodes.Keys - {next}
      && t.nodes[id] == node.(text := node.text + m.text, children := m.children)
      && (forall y :: y in m.children ==> y != next && y in s.nodes && y in t.nodes && t.nodes[y] == s.nodes[y].(parentId := Some(id)))
      && (forall y :: y in s.nodes && y != id && y != next && y !in m.children && Some(y) != par ==> y in t.nodes && t.nodes[y] == s.nodes[y])
  {
    MergedKeys(s, id, next, sibs, clearScope, w, t);
    var m := s.nodes[next];
    forall y | y in m.children
      ensures y != next && y in s.nodes && y in t.nodes && t.nodes[y] == s.nodes[y].(parentId := Some(id))
    {
      MergedAt(s, id, next, sibs, clearScope, w, t, y);
    }
    forall y | y in s.nodes && y != id && y != next && y !in m.children && Some(y) != s.nodes[id].parentId
      ensures y in t.nodes && t.nodes[y] == s.nodes[y]
    {
      MergedAt(s, id, next, sibs, clearScope, w, t, y);
    }
  }

  /** The merged table's keys, and the joined node. */
  lemma MergedKeys(s: State, id: Id, next: Id, sibs: seq<Id>, clearScope: bool, w: State, t: State)
    requires MergeRemoveCase(s, id, next, sibs, clearScope, w, t)
    ensures t.nodes.Keys == s.nodes.Keys - {next}
    ensures var node := s.nodes[id];
      var m := s.nodes[next];
      t.nodes[id] == node.(text := node.text + m.text, children := m.children)
  {
    var node := s.nodes[id];
    var par := node.parentId;
    var m := s.nodes[next];
    var joined := node.(text := node.text + m.text, children := node.children + m.children);
    var n1 := Reparented(s.nodes[id := joined], m.children, id);
    var u := WithContainer(s.(nodes := n1), par, EraseFrom(sibs, next));
    assert t.nodes[id] == u.nodes[id];
    assert u.nodes[id] == n1[id];
    assert n1[id] == joined;
    assert joined.children == m.children by {
      assert node.children == [];
    }
  }

  /** One node of the merged table other than the joined one and the parent. */
  lemma MergedAt(s: State, id: Id, next: Id, sibs: seq<Id>, clearScope: bool, w: State, t: State, y: Id)
    requires MergeRemoveCase(s, id, next, sibs, clearScope, w, t)
    requires y in s.nodes && y != id && y != next && Some(y) != s.nodes[id].parentId
    ensures y in t.nodes
    ensures t.nodes[y] == if y in s.nodes[next].children then s.nodes[y].(parentId := Some(id)) else s.nodes[y]
  {
    var node := s.nodes[id];
    var par := node.parentId;
    var m := s.nodes[next];
    var joined := node.(text := node.text + m.text, children := node.children + m.children);
    var n1 := Reparented(s.nodes[id := joined], m.children, id);
    var u := WithContainer(s.(nodes := n1), par, EraseFrom(sibs, next));
    var u2 := u.(nodes := u.nodes - {next});
    var u3 := if clearScope && u2.scopeRootId.Some? && u2.scopeRootId == Some(next) then u2.(scopeRootId := None) else u2;
    assert t.nodes == u3.nodes && u3.nodes == u2.nodes;
    assert u2.nodes[y] == u.nodes[y];
    assert u.nodes[y] == n1[y];
    assert s.nodes[id := joined][y] == s.nodes[y];
  }

  // ---------------------------------------------------------------------------
  // Deletion
  // ---------------------------------------------------------------------------

  /** delete_empty_at_id (C++): an unknown node, a node with text and a node with
      children stay; the sole root keeps its place and takes the focus; any other
      empty leaf is removed from the forest and from its sibling list, a scope on
      it is cleared, and the focus moves to the node shown before it, else the one
      after it, else the first root, with the caret at the end of its text. */
  lemma DeleteEmptyExact(s: State, id: Id)
    requires Valid(s)
    ensures var t := DeleteEmpty(s, id);
      && (id !in s.nodes || |s.nodes[id].text| > 0 || s.nodes[id].children != [] ==> t == s)
      && ((id in s.nodes && s.nodes[id].text == [] && s.nodes[id].children == []
           && s.nodes[id].parentId == None && |s.rootOrder| == 1) ==> t == s.(focusedId := id, caret := 0))
  {
    if id in s.nodes && |s.nodes[id].text| == 0 && s.nodes[id].children == [] {
      assert ParentLinked(s, id);
      assert s.nodes[id].(text := "") == s.nodes[id];
      assert s.nodes[s.nodes[id].id := s.nodes[id].(text := "")] == s.nodes;
    }
  }

  lemma DeleteRemovesExact(s: State, id: Id)
    requires Valid(s) && id in s.nodes && s.nodes[id].text == [] && s.nodes[id].children == []
    requires !(s.nodes[id].parentId == None && |s.rootOrder| == 1)
    ensures ParentResolves(s, id) && id in SiblingsOf(s, id)
    ensures var t := DeleteEmpty(s, id);
      var par := s.nodes[id].parentId;
      var f := FallbackFocus(PrevVisible(s, id), NextVisible(s, id), t.rootOrder);
      && t.nodes.Keys == s.nodes.Keys - {id}
      && (par == None ==> t.rootOrder == EraseFrom(SiblingsOf(s, id), id))
      && (par.Some? ==> t.rootOrder == s.rootOrder && par.value in t.nodes)
      && (forall y :: y in t.nodes && Some(y) != par ==> t.nodes[y] == s.nodes[y])
      && (par.Some? ==> t.nodes[par.value] == s.nodes[par.value].(children := EraseFrom(SiblingsOf(s, id), id)))
      && t.scopeRootId == (if s.scopeRootId == Some(id) then None else s.scopeRootId)
      && t.idCounter == s.idCounter
      && f.Some? && t.focusedId == f.value && t.caret == |s.nodes[f.value].text|
  {
    SiblingsOfLinked(s, id);
    RemoveNodeStructural(s, id);
    var prev := PrevVisible(s, id);
    var next := NextVisible(s, id);
    var u := RemoveNode(s, id);
    var u2 := if u.scopeRootId.Some? && u.scopeRootId == Some(id) then u.(scopeRootId := None) else u;
    assert EnsureMinOneRoot(u2) == u2;
    DeleteFocusLive(s, id, prev, next, u2);
    var f := FallbackFocus(prev, next, u2.rootOrder).value;
    var t := SetFocusLowerClamped(u2, f, |u2.nodes[f].text|);
    assert t == DeleteEmpty(s, id);
    DepthOfParent(s, id);
  }

  /** Without a scope the JavaScript deletion is the C++ one. */
  lemma DeleteAgreesWithoutScope(s: State, id: Id)
    requires Valid(s) && s.scopeRootId == None
    ensures DeleteEmptyGuarded(s, id) == DeleteEmpty(s, id)
  {
    if id in s.nodes && |s.nodes[id].text| == 0 && s.nodes[id].children == [] {
      assert ParentLinked(s, id);
      if !(s.nodes[id].parentId == None && |s.rootOrder| == 1) {
        RemoveNodeStructural(s, id);
        assert PrevVisibleFallback(s, id) == PrevVisible(s, id);
        assert NextVisibleFallback(s, id) == NextVisible(s, id);
        var u := RemoveNode(s, id);
        assert EnsureMinOneRoot(u) == u;
      }
    }
  }

  /** The JavaScript deletion never removes the scope root, nor changes the scope. */
  lemma GuardedKeepsScope(s: State, id: Id)
    requires Valid(s) && s.scopeRootId.Some?
    ensures DeleteEmptyGuarded(s, id).scopeRootId == s.scopeRootId
    ensures s.scopeRootId.value in DeleteEmptyGuarded(s, id).nodes
  {
    if id in s.nodes && |s.nodes[id].text| == 0 && s.nodes[id].children == []
       && !(s.nodes[id].parentId == None && |s.rootOrder| == 1) && s.scopeRootId != Some(id) {
      RemoveNodeStructural(s, id);
      var u := RemoveNode(s, id);
      var t := RemoveWithFallback(s, id, PrevVisibleFallback(s, id), NextVisibleFallback(s, id));
      assert DeleteEmptyGuarded(s, id) == t;
      assert u.scopeRootId == s.scopeRootId && s.scopeRootId.value in u.nodes;
      assert t.scopeRootId == u.scopeRootId && t.nodes.Keys >= u.nodes.Keys;
    }
  }

  /** The C++ deletion does remove an empty, childless scope root that is not the
      sole root, and clears the scope. */
  lemma DeleteClearsScope(s: State, id: Id)
    requires Valid(s) && s.scopeRootId == Some(id) && s.nodes[id].text == [] && s.nodes[id].children == []
    requires !(s.nodes[id].parentId == None && |s.rootOrder| == 1)
    ensures DeleteEmpty(s, id).scopeRootId == None && id !in DeleteEmpty(s, id).nodes
  {
    DeleteRemovesExact(s, id);
  }

  // ---------------------------------------------------------------------------
  // Round trips
  // ---------------------------------------------------------------------------

  /** Two states that agree on every field and on every node are equal. */
  lemma SameState(s: State, t: State)
    requires t.nodes.Keys == s.nodes.Keys && forall y :: y in s.nodes ==> t.nodes[y] == s.nodes[y]
    requires t.rootOrder == s.rootOrder && t.focusedId == s.focusedId && t.caret == s.caret
    requires t.scopeRootId == s.scopeRootId && t.idCounter == s.idCounter
    ensures t == s
  {
    assert t.nodes == s.nodes;
  }

  /** Writing back the original entries of the two changed nodes gives the
      original node map back. */
  lemma RestoredTwo(s: State, m: map<Id, Node>, a: Id, b: Id)
    requires a in s.nodes && b in s.nodes && m.Keys == s.nodes.Keys
    requires forall y :: y in s.nodes && y != a && y != b ==> m[y] == s.nodes[y]
    ensures m[b := s.nodes[b]][a := s.nodes[a]] == s.nodes
    ensures s.(nodes := m[b := s.nodes[b]][a := s.nodes[a]]) == s
  {
    assert m[b := s.nodes[b]][a := s.nodes[a]] == s.nodes;
  }

  /** The same for three changed nodes. */
  lemma RestoredNodes(s: State, m: map<Id, Node>, a: Id, b: Id, c: Id)
    requires a in s.nodes && b in s.nodes && c in s.nodes && m.Keys == s.nodes.Keys
    requires forall y :: y in s.nodes && y != a && y != b && y != c ==> m[y] == s.nodes[y]
    ensures m[b := s.nodes[b]][c := s.nodes[c]][a := s.nodes[a]] == s.nodes
    ensures s.(nodes := m[b := s.nodes[b]][c := s.nodes[c]][a := s.nodes[a]]) == s
  {
    assert m[b := s.nodes[b]][c := s.nodes[c]][a := s.nodes[a]] == s.nodes;
  }

  /** The branches in which the structural commands leave the state as it is:
      indent without a previous sibling, outdent of a root, move up of a first
      root, move down of a last root, and merge of a node that has children or
      has no next sibling. */
  lemma NoOpBranches(s: State, id: Id, clearScope: bool)
    requires Linked(s) && Acyclic(s) && id in s.nodes
    ensures ParentResolves(s, id) && id in SiblingsOf(s, id)
    ensures PrevSibling(s, id) == None ==> Edits.Indent(s, id) == s
    ensures s.nodes[id].parentId == None ==> Edits.Outdent(s, id) == s
    ensures s.nodes[id].parentId == None && PrevSibling(s, id) == None ==> Edits.MoveUp(s, id) == s
    ensures s.nodes[id].parentId == None && NextSibling(s, id) == None ==> Edits.MoveDown(s, id) == s
    ensures |s.nodes[id].children| != 0 || NextSibling(s, id) == None ==> Merge(s, id, clearScope) == s
  {
    SiblingsOfLinked(s, id);
  }

  /** Outdent right after indent puts the node back where it was: the whole state
      is restored. */
  lemma IndentThenOutdent(s: State, id: Id)
    requires Valid(s) && id in s.nodes
    requires ParentResolves(s, id) && id in SiblingsOf(s, id) && PrevSibling(s, id).Some?
    ensures Valid(Edits.Indent(s, id))
    ensures Edits.Outdent(Edits.Indent(s, id), id) == s
  {
    IndentValid(s, id);
    IndentExact(s, id);
    IndentTarget(s, id);
    SiblingsOfLinked(s, id);
    var sibs := SiblingsOf(s, id);
    var i := IndexInSiblings(s, id);
    InsertAfterErased(sibs, i);
    IndexOfUnique(sibs, i);
    EraseAppended(s.nodes[PrevSibling(s, id).value].children, id);
    var t := Edits.Indent(s, id);
    var prev := PrevSibling(s, id).value;
    if s.nodes[id].parentId.Some? {
      IndentUndoneUnder(s, t, id, prev, s.nodes[id].parentId.value, sibs);
    } else {
      IndentUndoneRoot(s, t, id, prev, sibs);
    }
  }

  /** The hoist that outdent performs, applied to the result of indenting `id`
      from the list `sibs` of parent `q` into its previous sibling `prev`. */
  lemma IndentUndoneUnder(s: State, t: State, id: Id, prev: Id, q: Id, sibs: seq<Id>)
    requires Linked(t) && Acyclic(t)
    requires id in s.nodes && prev in s.nodes && q in s.nodes
    requires prev != id && q != prev && q != id && id in sibs
    requires t == s.(nodes := t.nodes) && t.nodes.Keys == s.nodes.Keys
    requires t.nodes[id] == s.nodes[id].(parentId := Some(prev))
    requires t.nodes[prev] == s.nodes[prev].(children := s.nodes[prev].children + [id])
    requires t.nodes[q] == s.nodes[q].(children := EraseFrom(sibs, id))
    requires forall y :: y in s.nodes && y != id && y != prev && y != q ==> t.nodes[y] == s.nodes[y]
    requires s.nodes[id].parentId == Some(q) && s.nodes[prev].parentId == Some(q) && s.nodes[q].children == sibs
    requires prev in EraseFrom(sibs, id) && InsertAfter(EraseFrom(sibs, id), prev, id) == sibs
    requires EraseFrom(s.nodes[prev].children + [id], id) == s.nodes[prev].children
    ensures Hoist(t, id, true) == s
  {
    HoistUnderIs(t, id, true);
    assert Hoist(t, id, true) == t.(nodes := t.nodes[prev := s.nodes[prev]][q := s.nodes[q]][id := s.nodes[id]]);
    RestoredNodes(s, t.nodes, id, prev, q);
  }

  /** The same, when `id` and `prev` are roots. */
  lemma IndentUndoneRoot(s: State, t: State, id: Id, prev: Id, sibs: seq<Id>)
    requires Linked(t) && Acyclic(t)
    requires id in s.nodes && prev in s.nodes && prev != id && id in sibs
    requires t == s.(nodes := t.nodes, rootOrder := t.rootOrder) && t.nodes.Keys == s.nodes.Keys
    requires t.nodes[id] == s.nodes[id].(parentId := Some(prev))
    requires t.nodes[prev] == s.nodes[prev].(children := s.nodes[prev].children + [id])
    requires t.rootOrder == EraseFrom(sibs, id)
    requires forall y :: y in s.nodes && y != id && y != prev ==> t.nodes[y] == s.nodes[y]
    requires s.nodes[id].parentId == None && s.nodes[prev].parentId == None && s.rootOrder == sibs
    requires prev in EraseFrom(sibs, id) && InsertAfter(EraseFrom(sibs, id), prev, id) == sibs
    requires EraseFrom(s.nodes[prev].children + [id], id) == s.nodes[prev].children
    ensures Hoist(t, id, true) == s
  {
    HoistRootIs(t, id, true);
    var m := t.nodes[prev := s.nodes[prev]][id := s.nodes[id]];
    assert Hoist(t, id, true) == t.(rootOrder := sibs, nodes := m);
    RestoredTwo(s, t.nodes, id, prev);
    assert t.(rootOrder := sibs, nodes := m) == s.(nodes := m);
  }

  /** Merging right after a split joins the two halves again: the state comes
      back with the caret at the end of the node's text and one id used up.  This
      holds whether or not the merge clears a scope on the absorbed node, since a
      fresh node is never the scope root. */
  lemma SplitThenMerge(s: State, id: Id, k: nat, clearScope: bool)
    requires Valid(s) && id in s.nodes && k <= |s.nodes[id].text|
    ensures Valid(Split(s, id, k)) && id in Split(s, id, k).nodes
    ensures Merge(Split(s, id, k), id, clearScope)
         == s.(focusedId := id, caret := |s.nodes[id].text|, idCounter := s.idCounter + 1)
  {
    SplitValid(s, id, k);
    SplitExact(s, id, k);
    var t := Split(s, id, k);
    var nid := NextId(s);
    SplitNext(s, id, k);
    MergeExact(t, id, clearScope);
    MergedBack(s, t, Merge(t, id, clearScope), id, nid);
  }

  /** After a split the fresh node is the next sibling of the split node. */
  lemma SplitNext(s: State, id: Id, k: nat)
    requires Structural(s) && id in s.nodes && k <= |s.nodes[id].text|
    requires ParentResolves(s, id) && id in SiblingsOf(s, id)
    requires var t := Split(s, id, k);
      var par := s.nodes[id].parentId;
      && NextId(s) !in s.nodes && id in t.nodes && t.nodes[id].parentId == par
      && (par.Some? ==> par.value in s.nodes && par.value in t.nodes
                        && t.nodes[par.value].children == InsertAfter(SiblingsOf(s, id), id, NextId(s)))
      && (par == None ==> t.rootOrder == InsertAfter(SiblingsOf(s, id), id, NextId(s)))
    ensures var t := Split(s, id, k);
      && ParentResolves(t, id) && id in SiblingsOf(t, id)
      && SiblingsOf(t, id) == InsertAfter(SiblingsOf(s, id), id, NextId(s))
      && NextSibling(t, id) == Some(NextId(s))
      && EraseFrom(SiblingsOf(t, id), NextId(s)) == SiblingsOf(s, id)
      && forall y :: y in s.nodes[id].children ==> y in s.nodes && s.nodes[y].parentId == Some(id)
  {
    assert ChildrenLinked(s, id);
    EraseInsertedAfter(SiblingsOf(s, id), id, NextId(s));
    var t := Split(s, id, k);
    var sibs := SiblingsOf(s, id);
    var nid := NextId(s);
    SiblingsOfLinked(s, id);
    assert nid !in sibs;
    var r := InsertAfter(sibs, id, nid);
    assert SiblingsOf(t, id) == r;
    IndexOfUnique(r, IndexOf(sibs, id));
    assert IndexInSiblings(t, id) == IndexOf(sibs, id);
  }

  /** The state a merge leaves after a split, compared with the state before the split. */
  lemma MergedBack(s: State, t: State, r: State, id: Id, nid: Id)
    requires id in s.nodes && nid !in s.nodes && id != nid
    requires var node := s.nodes[id];
      var par := node.parentId;
      && Some(nid) != par && Some(id) != par && id !in node.children
      && (forall y :: y in node.children ==> y in s.nodes && s.nodes[y].parentId == Some(id))
      && t.nodes.Keys == s.nodes.Keys + {nid}
      && t.nodes[id] == node.(text := t.nodes[id].text, children := [])
      && t.nodes[nid] == Node(nid, par, t.nodes[nid].text, node.children)
      && t.nodes[id].text + t.nodes[nid].text == node.text
      && (par.Some? ==> par.value in s.nodes && par.value !in node.children && t.rootOrder == s.rootOrder
                        && t.nodes[par.value] == s.nodes[par.value].(children := t.nodes[par.value].children)
                        && nid in t.nodes[par.value].children
                        && EraseFrom(t.nodes[par.value].children, nid) == s.nodes[par.value].children)
      && (par == None ==> nid in t.rootOrder && EraseFrom(t.rootOrder, nid) == s.rootOrder)
      && (forall y :: y in node.children ==> t.nodes[y] == s.nodes[y].(parentId := Some(nid)))
      && (forall y :: y in s.nodes && y != id && y !in node.children && Some(y) != par ==> t.nodes[y] == s.nodes[y])
    requires var node := t.nodes[id];
      var par := node.parentId;
      var m := t.nodes[nid];
      && (par.Some? ==> par.value in t.nodes && nid in t.nodes[par.value].children)
      && r == t.(nodes := r.nodes, rootOrder := r.rootOrder, focusedId := id, caret := |node.text| + |m.text|,
                 scopeRootId := r.scopeRootId)
      && r.nodes.Keys == t.nodes.Keys - {nid}
      && r.nodes[id] == node.(text := node.text + m.text, children := m.children)
      && (par.Some? ==> r.nodes[par.value] == t.nodes[par.value].(children := EraseFrom(t.nodes[par.value].children, nid))
                        && r.rootOrder == t.rootOrder)
      && (par == None ==> r.rootOrder == EraseFrom(t.rootOrder, nid))
      && (forall y :: y in m.children ==> y != nid && r.nodes[y] == t.nodes[y].(parentId := Some(id)))
      && (forall y :: y in t.nodes && y != id && y != nid && y !in m.children && Some(y) != par ==> r.nodes[y] == t.nodes[y])
    requires r.scopeRootId == s.scopeRootId && t.idCounter == s.idCounter + 1
    ensures r == s.(focusedId := id, caret := |s.nodes[id].text|, idCounter := s.idCounter + 1)
  {
    var node := s.nodes[id];
    var par := node.parentId;
    var a := t.nodes[id];
    var b := t.nodes[nid];
    assert r.nodes.Keys == s.nodes.Keys;
    forall y | y in s.nodes ensures r.nodes[y] == s.nodes[y] {
      if y == id {
        JoinedBack(node, a, b, r.nodes[id]);
      } else if y in node.children {
        assert r.nodes[y] == t.nodes[y].(parentId := Some(id));
        assert s.nodes[y].parentId == Some(id);
      } else if Some(y) == par {
        assert r.nodes[y] == t.nodes[y].(children := EraseFrom(t.nodes[y].children, nid));
      } else {
        assert y != nid && y !in b.children;
        assert r.nodes[y] == t.nodes[y];
      }
    }
    assert r.nodes == s.nodes;
  }

  /** A node cut in two by a split and joined again by a merge is the node it was. */
  lemma JoinedBack(node: Node, a: Node, b: Node, j: Node)
    requires a == node.(text := a.text, children := [])
    requires b.parentId == node.parentId && b.children == node.children
    requires a.text + b.text == node.text
    requires j == a.(text := a.text + b.text, children := b.children)
    ensures j == node
  {
  }

  /** Removing the node that insert_empty_sibling_after just added gives back the
      state before the insertion, except for the used-up id and the focus. */
  lemma RemoveInsertedSibling(s: State, id: Id)
    requires Valid(s) && id in s.nodes
    ensures Valid(InsertSiblingAfter(s, id)) && NextId(s) in InsertSiblingAfter(s, id).nodes
    ensures RemoveNode(InsertSiblingAfter(s, id), NextId(s))
         == s.(idCounter := s.idCounter + 1, focusedId := NextId(s), caret := 0)
  {
    InsertSiblingAfterValid(s, id);
    InsertSiblingAfterExact(s, id);
    var u := InsertSiblingAfter(s, id);
    var nid := NextId(s);
    var sibs := SiblingsOf(s, id);
    EraseInsertedAfter(sibs, id, nid);
    SiblingsOfLinked(u, nid);
    var par := s.nodes[id].parentId;
    var w := WithContainer(u, par, EraseFrom(SiblingsOf(u, nid), nid));
    var r := RemoveNode(u, nid);
    assert r == w.(nodes := w.nodes - {nid});
    assert nid !in s.nodes && u.nodes.Keys == s.nodes.Keys + {nid} && w.nodes.Keys == u.nodes.Keys;
    assert r.nodes.Keys == s.nodes.Keys;
    forall y | y in s.nodes ensures r.nodes[y] == s.nodes[y] {
      if Some(y) != par {
        assert w.nodes[y] == u.nodes[y];
      }
    }
    SameTable(r.nodes, s.nodes);
  }

  /** Two tables with the same keys and the same entry at each key are equal. */
  lemma SameTable(a: map<Id, Node>, b: map<Id, Node>)
    requires a.Keys == b.Keys && forall y :: y in b ==> a[y] == b[y]
    ensures a == b
  {
  }

  /** insert_empty_sibling_after: a fresh empty node with the same parent sits
      right after `id` and has the focus; nothing else changes. */
  lemma InsertSiblingAfterExact(s: State, id: Id)
    requires Structural(s) && id in s.nodes
    ensures ParentResolves(s, id) && id in SiblingsOf(s, id)
    ensures var t := InsertSiblingAfter(s, id);
      var par := s.nodes[id].parentId;
      var nid := NextId(s);
      var sibs := InsertAfter(SiblingsOf(s, id), id, nid);
      && nid !in s.nodes && Some(nid) != par
      && t == s.(nodes := t.nodes, rootOrder := t.rootOrder, idCounter := s.idCounter + 1, focusedId := nid, caret := 0)
      && t.nodes.Keys == s.nodes.Keys + {nid}
      && t.nodes[nid] == Node(nid, par, "", [])
      && (par.Some? ==> par.value in s.nodes && t.nodes[par.value] == s.nodes[par.value].(children := sibs)
                        && t.rootOrder == s.rootOrder)
      && (par == None ==> t.rootOrder == sibs)
      && (forall y :: y in s.nodes && Some(y) != par ==> t.nodes[y] == s.nodes[y])
      && ParentResolves(t, nid) && SiblingsOf(t, nid) == sibs
  {
    InsertSiblingAfterIs(s, id);
    SiblingsOfLinked(s, id);
    NextIdFresh(s);
  }

  /** Deleting the empty sibling just inserted restores the forest, the root order
      and the scope; only the id counter has moved on. */
  lemma InsertThenDelete(s: State, id: Id)
    requires Valid(s) && id in s.nodes
    ensures Valid(InsertSiblingAfter(s, id))
    ensures var t := DeleteEmpty(InsertSiblingAfter(s, id), NextId(s));
      && Valid(t)
      && t == s.(idCounter := s.idCounter + 1, focusedId := t.focusedId, caret := t.caret)
  {
    RemoveInsertedSibling(s, id);
    var u := InsertSiblingAfter(s, id);
    var nid := NextId(s);
    InsertSiblingAfterIs(s, id);
    SiblingsOfLinked(s, id);
    NextIdFresh(s);
    assert u.nodes[nid] == Node(nid, s.nodes[id].parentId, "", []);
    assert s.nodes[id].parentId == None ==> |u.rootOrder| == |s.rootOrder| + 1 >= 2;
    DeleteEmptyValid(u, nid);
    var r := RemoveNode(u, nid);
    assert r == s.(idCounter := s.idCounter + 1, focusedId := nid, caret := 0);
    assert r.scopeRootId != Some(nid);
    UnderSomeRoot(s, s.focusedId);
    assert EnsureMinOneRoot(r) == r;
    var f := FallbackFocus(PrevVisible(u, nid), NextVisible(u, nid), r.rootOrder);
    var t := DeleteEmpty(u, nid);
    assert t == r || (f.Some? && t == SetFocusLowerClamped(r, f.value, |r.nodes[f.value].text|));
  }

  /** Move down right after a move up that swapped gives the state back. */
  lemma MoveUpThenDown(s: State, id: Id)
    requires Valid(s) && id in s.nodes
    requires ParentResolves(s, id) && id in SiblingsOf(s, id) && IndexInSiblings(s, id) > 0
    ensures Valid(Edits.MoveUp(s, id))
    ensures Edits.MoveDown(Edits.MoveUp(s, id), id) == s
  {
    MoveUpValid(s, id);
    SiblingsOfLinked(s, id);
    var par := s.nodes[id].parentId;
    var sibs := SiblingsOf(s, id);
    var i := IndexInSiblings(s, id);
    MoveUpSwaps(s, id);
    var t := Edits.MoveUp(s, id);
    SwapNoDup(sibs, i - 1, i);
    SwapTwice(sibs, i - 1, i);
    if par.Some? { DepthOfParent(s, id); }
    var k: nat := i - 1;
    assert Linked(t) && Acyclic(t);
    assert sibs == Container(s, par) && k + 1 == i;
    assert t == WithContainer(s, par, Swap(Container(s, par), k, k + 1));
    SwappedBack(s, t, id, k);
  }

  /** move_up of a node that has a previous sibling swaps the two. */
  lemma MoveUpSwaps(s: State, id: Id)
    requires Linked(s) && Acyclic(s) && id in s.nodes
    requires ParentResolves(s, id) && id in SiblingsOf(s, id) && IndexInSiblings(s, id) > 0
    ensures var i := IndexInSiblings(s, id);
      Edits.MoveUp(s, id) == WithContainer(s, s.nodes[id].parentId, Swap(SiblingsOf(s, id), i - 1, i))
  {
  }

  /** Move down of a node sitting at position `k` of a list that a swap of
      positions `k` and `k + 1` produced from `s` restores `s`. */
  lemma {:induction false} SwappedBack(s: State, t: State, id: Id, k: nat)
    requires Linked(t) && Acyclic(t) && id in s.nodes
    requires var par := s.nodes[id].parentId;
      && (par.Some? ==> par.value in s.nodes && par.value != id)
      && k + 1 < |Container(s, par)|
      && t == WithContainer(s, par, Swap(Container(s, par), k, k + 1))
      && NoDup(Swap(Container(s, par), k, k + 1))
      && Swap(Container(s, par), k, k + 1)[k] == id
      && Swap(Swap(Container(s, par), k, k + 1), k, k + 1) == Container(s, par)
    ensures Edits.MoveDown(t, id) == s
  {
    var par := s.nodes[id].parentId;
    var w := Swap(Container(s, par), k, k + 1);
    assert t.nodes[id] == s.nodes[id];
    assert SiblingsOf(t, id) == w;
    IndexOfUnique(w, k);
    MoveDownSwaps(t, id, k);
    ContainerRestored(s, par, w, t);
  }

  /** move_down of the node at position `k` of a list with a later element
      swaps the two. */
  lemma MoveDownSwaps(t: State, id: Id, k: nat)
    requires Linked(t) && Acyclic(t) && id in t.nodes
    requires ParentResolves(t, id) && IndexInSiblings(t, id) == k && k + 1 < |SiblingsOf(t, id)|
    ensures Edits.MoveDown(t, id) == WithContainer(t, t.nodes[id].parentId, Swap(SiblingsOf(t, id), k, k + 1))
  {
  }

  /** Writing a list back over its replacement gives the state back. */
  lemma ContainerRestored(s: State, par: Option<Id>, w: seq<Id>, t: State)
    requires par.Some? ==> par.value in s.nodes
    requires t == WithContainer(s, par, w)
    ensures WithContainer(t, par, Container(s, par)) == s
  {
  }
  // ---------------------------------------------------------------------------
  // Hoist: where the node lands, and what it carries along
  // ---------------------------------------------------------------------------

  /** `t` is `s` with `id` hoisted: the node takes its parent's parent, leaves
      the parent's children and lands right after (`after`) or right before
      the parent in the list that holds the parent, with its own text and
      children; every other parent link stays, and only the node, its parent
      and its grandparent change. */
  ghost predicate Hoisted(s: State, t: State, id: Id, after: bool)
    requires Linked(s) && Acyclic(s) && id in s.nodes && s.nodes[id].parentId.Some?
  {
    HoistFacts(s, id);
    var p := s.nodes[id].parentId.value;
    SiblingsOfLinked(s, p);
    && t.nodes.Keys == s.nodes.Keys
    && (s.nodes[p].parentId.Some? ==> t.rootOrder == s.rootOrder)
    && t.nodes[id] == s.nodes[id].(parentId := s.nodes[p].parentId)
    && t.nodes[p].children == EraseFrom(s.nodes[p].children, id)
    && Container(t, s.nodes[p].parentId) == Placed(SiblingsOf(s, p), p, id, after)
    && (forall y :: y in s.nodes && y != id ==> t.nodes[y].parentId == s.nodes[y].parentId)
    && (forall y :: y in s.nodes && y != id && y != p && Some(y) != s.nodes[p].parentId ==> t.nodes[y] == s.nodes[y])
    && t.focusedId == s.focusedId && t.caret == s.caret && t.scopeRootId == s.scopeRootId && t.idCounter == s.idCounter
  }

  /** The hoist at the end of outdent, move up and move down does what
      `Hoisted` says. */
  lemma HoistPlaces(s: State, id: Id, after: bool)
    requires Linked(s) && Acyclic(s) && id in s.nodes && s.nodes[id].parentId.Some?
    ensures Hoisted(s, Hoist(s, id, after), id, after)
  {
    HoistFacts(s, id);
    var p := s.nodes[id].parentId.value;
    assert ChildrenLinked(s, p);
    assert ParentLinked(s, p);
    var t := Hoist(s, id, after);
    if s.nodes[p].parentId == None {
      HoistRootIs(s, id, after);
      HoistedRoot(s, id, after, t);
    } else {
      HoistUnderIs(s, id, after);
      HoistedUnder(s, id, after, t);
    }
  }

  lemma HoistedRoot(s: State, id: Id, after: bool, t: State)
    requires Linked(s) && Acyclic(s) && id in s.nodes && s.nodes[id].parentId.Some?
    requires var p := s.nodes[id].parentId.value;
      p in s.nodes && p != id && id in s.nodes[p].children && s.nodes[p].parentId == None && p in s.rootOrder
    requires var p := s.nodes[id].parentId.value;
      t == s.(rootOrder := Placed(s.rootOrder, p, id, after),
        nodes := s.nodes[p := s.nodes[p].(children := EraseFrom(s.nodes[p].children, id))][id := s.nodes[id].(parentId := None)])
    ensures Hoisted(s, t, id, after)
  {
    var p := s.nodes[id].parentId.value;
    assert ParentLinked(s, p);
    assert SiblingsOf(s, p) == s.rootOrder;
    RootHoistFrame(s.nodes, t.nodes, p, id,
      s.nodes[p].(children := EraseFrom(s.nodes[p].children, id)),
      s.nodes[id].(parentId := None));
    assert Container(t, None) == Placed(s.rootOrder, p, id, after);
  }

  /** Two single-node updates of a table keep its keys, every other node and
      every parent link but the second node's. */
  lemma RootHoistFrame(m: map<Id, Node>, m': map<Id, Node>, p: Id, x: Id, a: Node, c: Node)
    requires p in m && x in m
    requires a.parentId == m[p].parentId
    requires m' == m[p := a][x := c]
    ensures m'.Keys == m.Keys
    ensures forall y :: y in m && y != x ==> m'[y].parentId == m[y].parentId
    ensures forall y :: y in m && y != x && y != p ==> m'[y] == m[y]
  {
  }

  lemma HoistedUnder(s: State, id: Id, after: bool, t: State)
    requires Linked(s) && Acyclic(s) && id in s.nodes && s.nodes[id].parentId.Some?
    requires var p := s.nodes[id].parentId.value;
      && p in s.nodes && p != id && id in s.nodes[p].children && s.nodes[p].parentId.Some?
      && var g := s.nodes[p].parentId.value;
      && g in s.nodes && g != p && g != id && p in s.nodes[g].children
    requires var p := s.nodes[id].parentId.value;
      var g := s.nodes[p].parentId.value;
      t == s.(nodes := s.nodes[p := s.nodes[p].(children := EraseFrom(s.nodes[p].children, id))]
                              [g := s.nodes[g].(children := Placed(s.nodes[g].children, p, id, after))]
                              [id := s.nodes[id].(parentId := Some(g))])
    ensures Hoisted(s, t, id, after)
  {
    var p := s.nodes[id].parentId.value;
    var g := s.nodes[p].parentId.value;
    assert SiblingsOf(s, p) == s.nodes[g].children;
    HoistFrame(s.nodes, t.nodes, p, g, id,
      s.nodes[p].(children := EraseFrom(s.nodes[p].children, id)),
      s.nodes[g].(children := Placed(s.nodes[g].children, p, id, after)),
      s.nodes[id].(parentId := Some(g)));
  }

  /** Three single-node updates of a table keep its keys, every other node and
      every parent link but the last node's. */
  lemma HoistFrame(m: map<Id, Node>, m': map<Id, Node>, p: Id, g: Id, x: Id, a: Node, b: Node, c: Node)
    requires p in m && g in m && x in m
    requires a.parentId == m[p].parentId && b.parentId == m[g].parentId
    requires m' == m[p := a][g := b][x := c]
    ensures m'.Keys == m.Keys
    ensures forall y :: y in m && y != x ==> m'[y].parentId == m[y].parentId
    ensures forall y :: y in m && y != x && y != p && y != g ==> m'[y] == m[y]
  {
  }

  /** A hoisted node carries its whole subtree along: the same nodes lie under
      it, and each of them other than the node itself is untouched. */
  lemma HoistKeepsSubtree(s: State, id: Id, after: bool)
    requires Linked(s) && Acyclic(s) && id in s.nodes && s.nodes[id].parentId.Some?
    ensures Acyclic(Hoist(s, id, after))
    ensures var t := Hoist(s, id, after);
      && t.nodes.Keys == s.nodes.Keys
      && (forall x :: x in s.nodes ==> (Under(t, x, id) <==> Under(s, x, id)))
      && (forall x :: x in s.nodes && x != id && Under(s, x, id) ==> t.nodes[x] == s.nodes[x])
  {
    HoistPlaces(s, id, after);
    HoistedKeepsSubtree(s, Hoist(s, id, after), id, after);
  }

  lemma HoistedKeepsSubtree(s: State, t: State, id: Id, after: bool)
    requires Linked(s) && Acyclic(s) && id in s.nodes && s.nodes[id].parentId.Some?
    requires Hoisted(s, t, id, after)
    ensures Acyclic(t) && t.nodes.Keys == s.nodes.Keys
    ensures forall x :: x in s.nodes ==> (Under(t, x, id) <==> Under(s, x, id))
    ensures forall x :: x in s.nodes && x != id && Under(s, x, id) ==> t.nodes[x] == s.nodes[x]
  {
    HoistFacts(s, id);
    var p := s.nodes[id].parentId.value;
    var gp := s.nodes[p].parentId;
    DepthOfParent(s, id);
    assert !Under(s, p, id) by {
      if Under(s, p, id) { UnderDepth(s, p, id); }
    }
    if gp.Some? {
      DepthOfParent(s, p);
      assert !Under(s, gp.value, id) by {
        if Under(s, gp.value, id) { UnderDepth(s, gp.value, id); }
      }
    }
    RelocateAcyclic(s, t, id, gp);
  }

  // ---------------------------------------------------------------------------
  // ensureTrailingEmptyChild, node by node
  // ---------------------------------------------------------------------------

  /** ensureTrailingEmptyChild: nothing changes and no id comes back exactly
      when the parent's last child has empty text; otherwise a fresh empty leaf
      becomes the parent's last child, takes the focus at 0 and its id comes
      back. */
  lemma EnsureTrailingExact(s: State, p: Id)
    requires Valid(s) && p in s.nodes
    ensures var (t, r) := EnsureTrailingEmptyChild(s, p);
      var ch := s.nodes[p].children;
      && (r.None? <==> |ch| > 0 && ch[|ch| - 1] in s.nodes && |s.nodes[ch[|ch| - 1]].text| == 0)
      && (r.None? ==> t == s)
      && (r.Some? ==>
            && r.value !in s.nodes
            && t.nodes.Keys == s.nodes.Keys + {r.value}
            && t.nodes[r.value] == Node(r.value, Some(p), "", [])
            && t.nodes[p].children == ch + [r.value]
            && (forall y :: y in s.nodes && y != p ==> t.nodes[y] == s.nodes[y])
            && t.focusedId == r.value && t.caret == 0
            && Valid(t))
  {
    NextIdFresh(s);
    assert ChildrenLinked(s, p);
    AppendEmptyChildValid(s, p);
  }
}
