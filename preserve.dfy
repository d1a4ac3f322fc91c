/** Every structural command keeps the invariants the engine's tests check
    after each step: the tree shape, a live focus with the caret inside its
    text, and a live scope. */
module Preserve {
  import opened Types
  import opened Vectors
  import opened Forest
  import opened Preorder
  import opened Reshape
  import opened Edits

  /** A sibling is never inside the subtree of another sibling. */
  lemma SiblingNotUnder(s: State, a: Id, b: Id)
    requires Acyclic(s) && a in s.nodes && b in s.nodes && a != b
    requires s.nodes[a].parentId == s.nodes[b].parentId
    ensures !Under(s, a, b)
  {
    if Under(s, a, b) {
      UnderDepth(s, a, b);
      DepthOfParent(s, a);
      DepthOfParent(s, b);
    }
  }

  /** A node's parent is not inside the node's subtree. */
  lemma ParentNotUnder(s: State, x: Id)
    requires Acyclic(s) && x in s.nodes && s.nodes[x].parentId.Some?
    ensures s.nodes[x].parentId.value in s.nodes
    ensures s.nodes[x].parentId.value != x && !Under(s, s.nodes[x].parentId.value, x)
  {
    DepthOfParent(s, x);
    if Under(s, s.nodes[x].parentId.value, x) {
      UnderDepth(s, s.nodes[x].parentId.value, x);
    }
  }

  /** Texts, focus, scope and a larger counter do not touch the tree shape. */
  lemma ShapeKept(s: State, t: State)
    requires Structural(s)
    requires t.nodes.Keys == s.nodes.Keys && t.rootOrder == s.rootOrder && t.idCounter >= s.idCounter
    requires forall y :: y in s.nodes ==>
      t.nodes[y].id == s.nodes[y].id && t.nodes[y].parentId == s.nodes[y].parentId && t.nodes[y].children == s.nodes[y].children
    ensures Structural(t)
  {
    PermuteLinked(s, t.(idCounter := s.idCounter), None);
    SameParentsAcyclic(s, t);
    var t' := t.(idCounter := s.idCounter);
    forall x | x in t.nodes ensures ParentLinked(t, x) {
      assert ParentLinked(t', x);
    }
    assert RootsListed(t') && (forall p :: p in t.nodes ==> ChildrenLinked(t', p));
    forall p | p in t.nodes ensures ChildrenLinked(t, p) {
      assert ChildrenLinked(t', p);
    }
  }

  // ---------------------------------------------------------------------------
  // Adding nodes
  // ---------------------------------------------------------------------------

  lemma InsertSiblingAfterValid(s: State, id: Id)
    requires Valid(s) && id in s.nodes
    ensures Valid(InsertSiblingAfter(s, id))
  {
    var t := InsertSiblingAfter(s, id);
    var nid := NextId(s);
    NextIdFresh(s);
    SiblingsOfLinked(s, id);
    var par := s.nodes[id].parentId;
    AddLeafLinked(s, t, nid, par);
    AddLeafAcyclic(s, t, nid, par);
  }

  /** The appended child takes the focus, so the old focus need not be live. */
  lemma AppendEmptyChildValid(s: State, p: Id)
    requires Structural(s) && ScopeLive(s) && p in s.nodes
    ensures Valid(AppendEmptyChild(s, p))
  {
    var t := AppendEmptyChild(s, p);
    var nid := NextId(s);
    NextIdFresh(s);
    assert ChildrenLinked(s, p);
    assert nid != p;
    AddLeafLinked(s, t, nid, Some(p));
    AddLeafAcyclic(s, t, nid, Some(p));
  }

  lemma EnsureTrailingEmptyChildValid(s: State, p: Id)
    requires Valid(s) && p in s.nodes
    ensures Valid(EnsureTrailingEmptyChild(s, p).0)
  {
    AppendEmptyChildValid(s, p);
  }

  /** split_at_caret is an inserted sibling that then takes over all the children. */
  lemma SplitValid(s: State, id: Id, k: nat)
    requires Valid(s) && id in s.nodes && k <= |s.nodes[id].text|
    ensures Valid(Split(s, id, k))
  {
    var u := InsertSiblingAfter(s, id);
    InsertSiblingAfterValid(s, id);
    NextIdFresh(s);
    assert ChildrenLinked(s, id);
    DepthOfParent(s, id);
    SplitShape(s, id, k);
    TransferLinked(u, Split(s, id, k), id, NextId(s));
    TransferAcyclic(u, Split(s, id, k), id, NextId(s));
  }

  /** How the split state differs from the state with an empty sibling inserted. */
  lemma SplitShape(s: State, id: Id, k: nat)
    requires Linked(s) && id in s.nodes && k <= |s.nodes[id].text|
    requires NextId(s) !in s.nodes && id !in s.nodes[id].children && NextId(s) !in s.nodes[id].children
    ensures var u := InsertSiblingAfter(s, id);
      var t := Split(s, id, k);
      var nid := NextId(s);
      && u.nodes.Keys == s.nodes.Keys + {nid} && nid != id
      && u.nodes[nid].children == [] && u.nodes[id].children == s.nodes[id].children
      && u.nodes[nid].parentId == u.nodes[id].parentId
      && t.nodes.Keys == u.nodes.Keys && t.rootOrder == u.rootOrder && t.idCounter == u.idCounter
      && t.nodes[nid].children == s.nodes[id].children && t.nodes[id].children == []
      && (forall y :: y in u.nodes ==> t.nodes[y].id == u.nodes[y].id)
      && (forall y :: y in u.nodes && y != id && y != nid ==> t.nodes[y].children == u.nodes[y].children)
      && (forall y :: y in u.nodes ==>
            t.nodes[y].parentId == if y in u.nodes[id].children then Some(nid) else u.nodes[y].parentId)
      && t.focusedId == nid && t.caret == 0 && t.scopeRootId == s.scopeRootId
  {
    var node := s.nodes[id];
    var nid := NextId(s);
    var u := InsertSiblingAfter(s, id);
    var t := Split(s, id, k);
    SplitShapeFields(s, id, k);
    forall y | y in u.nodes
      ensures t.nodes[y].id == u.nodes[y].id
      ensures y != id && y != nid ==> t.nodes[y].children == u.nodes[y].children
      ensures t.nodes[y].parentId == if y in node.children then Some(nid) else u.nodes[y].parentId
    {
      SplitShapeAt(s, id, k, y);
    }
  }

  /** The split state and the state with an empty sibling inserted share their
      keys, root order and counter; the new node is childless in one and holds
      the children in the other. */
  lemma SplitShapeFields(s: State, id: Id, k: nat)
    requires Linked(s) && id in s.nodes && k <= |s.nodes[id].text|
    requires NextId(s) !in s.nodes && id !in s.nodes[id].children && NextId(s) !in s.nodes[id].children
    ensures var u := InsertSiblingAfter(s, id);
      var t := Split(s, id, k);
      var nid := NextId(s);
      && u.nodes.Keys == s.nodes.Keys + {nid} && nid != id
      && u.nodes[nid].children == [] && u.nodes[id].children == s.nodes[id].children
      && u.nodes[nid].parentId == u.nodes[id].parentId
      && t.nodes.Keys == u.nodes.Keys && t.rootOrder == u.rootOrder && t.idCounter == u.idCounter
      && t.nodes[nid].children == s.nodes[id].children && t.nodes[id].children == []
      && t.focusedId == nid && t.caret == 0 && t.scopeRootId == s.scopeRootId
  {
    SiblingsOfLinked(s, id);
    InsertSiblingAfterIs(s, id);
    SplitIs(s, id, k);
  }

  /** One node of the split state against the same node after an empty sibling
      is inserted. */
  lemma SplitShapeAt(s: State, id: Id, k: nat, y: Id)
    requires Linked(s) && id in s.nodes && k <= |s.nodes[id].text|
    requires NextId(s) !in s.nodes && id !in s.nodes[id].children && NextId(s) !in s.nodes[id].children
    requires y in s.nodes || y == NextId(s)
    ensures var u := InsertSiblingAfter(s, id);
      var t := Split(s, id, k);
      var nid := NextId(s);
      && y in u.nodes && y in t.nodes
      && t.nodes[y].id == u.nodes[y].id
      && (y != id && y != nid ==> t.nodes[y].children == u.nodes[y].children)
      && t.nodes[y].parentId == if y in s.nodes[id].children then Some(nid) else u.nodes[y].parentId
  {
    SiblingsOfLinked(s, id);
    var node := s.nodes[id];
    var nid := NextId(s);
    var par := node.parentId;
    var sibs := InsertAfter(SiblingsOf(s, id), id, nid);
    var u := InsertSiblingAfter(s, id);
    var t := Split(s, id, k);
    InsertSiblingAfterIs(s, id);
    SplitIs(s, id, k);
    var u0 := s.(idCounter := s.idCounter + 1, nodes := s.nodes[nid := Node(nid, par, "", [])]);
    var moved := Reparented(s.nodes, node.children, nid);
    var kept := moved[id := moved[id].(children := [], text := node.text[..k])];
    var w := s.(idCounter := s.idCounter + 1, nodes := kept[nid := Node(nid, par, node.text[k..], node.children)]);
    assert u == WithContainer(u0, par, sibs).(focusedId := nid, caret := 0);
    assert t == WithContainer(w, par, sibs).(focusedId := nid, caret := 0);
    if Some(y) == par {
      assert y != id && y != nid;
      assert u.nodes[y] == s.nodes[y].(children := sibs);
      assert t.nodes[y] == moved[y].(children := sibs);
    } else {
      assert u.nodes[y] == u0.nodes[y];
      assert t.nodes[y] == w.nodes[y];
    }
  }

  lemma InsertSiblingAfterIs(s: State, id: Id)
    requires Linked(s) && id in s.nodes
    ensures ParentResolves(s, id) && id in SiblingsOf(s, id)
    ensures var nid := NextId(s);
      var par := s.nodes[id].parentId;
      var u0 := s.(idCounter := s.idCounter + 1, nodes := s.nodes[nid := Node(nid, par, "", [])]);
      InsertSiblingAfter(s, id) == WithContainer(u0, par, InsertAfter(SiblingsOf(s, id), id, nid)).(focusedId := nid, caret := 0)
  {
    SiblingsOfLinked(s, id);
  }

  lemma SplitIs(s: State, id: Id, k: nat)
    requires Linked(s) && id in s.nodes && k <= |s.nodes[id].text|
    ensures ParentResolves(s, id) && id in SiblingsOf(s, id)
    ensures var node := s.nodes[id];
      var nid := NextId(s);
      var moved := Reparented(s.nodes, node.children, nid);
      var kept := moved[id := moved[id].(children := [], text := node.text[..k])];
      var w := s.(idCounter := s.idCounter + 1, nodes := kept[nid := Node(nid, node.parentId, node.text[k..], node.children)]);
      Split(s, id, k) == WithContainer(w, node.parentId, InsertAfter(SiblingsOf(s, id), id, nid)).(focusedId := nid, caret := 0)
  {
    SiblingsOfLinked(s, id);
  }

  // ---------------------------------------------------------------------------
  // Moving nodes
  // ---------------------------------------------------------------------------

  /** A node moved under a parent outside its own subtree, with texts, focus
      and scope untouched, keeps every invariant. */
  lemma RelocateValid(s: State, t: State, id: Id, np: Option<Id>)
    requires Valid(s) && ParentResolves(s, id) && Resolves(s, np)
    requires s.nodes[id].parentId != np
    requires np.Some? ==> !Under(s, np.value, id)
    requires t.nodes.Keys == s.nodes.Keys && t.idCounter == s.idCounter && |t.rootOrder| > 0
    requires forall y :: y in s.nodes ==> t.nodes[y].id == s.nodes[y].id && t.nodes[y].text == s.nodes[y].text
    requires t.nodes[id].parentId == np
    requires forall y :: y in s.nodes && y != id ==> t.nodes[y].parentId == s.nodes[y].parentId
    requires forall y :: y in s.nodes && Some(y) != s.nodes[id].parentId && Some(y) != np ==>
      t.nodes[y].children == s.nodes[y].children
    requires s.nodes[id].parentId.Some? && np.Some? ==> t.rootOrder == s.rootOrder
    requires NoDup(Container(t, s.nodes[id].parentId))
    requires forall y :: y in Container(t, s.nodes[id].parentId) <==> y in Container(s, s.nodes[id].parentId) && y != id
    requires NoDup(Container(t, np))
    requires forall y :: y in Container(t, np) <==> y in Container(s, np) || y == id
    requires t.focusedId == s.focusedId && t.caret == s.caret && t.scopeRootId == s.scopeRootId
    ensures Valid(t)
  {
    RelocateLinked(s, t, id, np);
    RelocateAcyclic(s, t, id, np);
  }

  lemma IndentValid(s: State, id: Id)
    requires Valid(s) && id in s.nodes
    ensures Valid(Edits.Indent(s, id))
  {
    SiblingsOfLinked(s, id);
    if PrevSibling(s, id).Some? {
      IndentTarget(s, id);
      IndentShape(s, id);
      RelocateValid(s, Edits.Indent(s, id), id, Some(PrevSibling(s, id).value));
    }
  }

  /** The previous sibling, which indent moves the node under, is a live node
      outside the node's subtree. */
  lemma IndentTarget(s: State, id: Id)
    requires Structural(s) && id in s.nodes
    requires ParentResolves(s, id) && id in SiblingsOf(s, id) && PrevSibling(s, id).Some?
    ensures var prev := PrevSibling(s, id).value;
      var par := s.nodes[id].parentId;
      && prev in s.nodes && s.nodes[prev].parentId == par
      && par != Some(prev) && par != Some(id) && !Under(s, prev, id)
      && NoDup(s.nodes[prev].children) && id !in s.nodes[prev].children
  {
    SiblingsOfLinked(s, id);
    var prev := PrevSibling(s, id).value;
    DepthOfParent(s, prev);
    DepthOfParent(s, id);
    assert ChildrenLinked(s, prev);
    SiblingNotUnder(s, prev, id);
  }

  /** indent moves the node from its sibling list to the end of its previous
      sibling's children. */
  lemma IndentShape(s: State, id: Id)
    requires Linked(s) && id in s.nodes
    requires ParentResolves(s, id) && id in SiblingsOf(s, id) && PrevSibling(s, id).Some?
    requires var prev := PrevSibling(s, id).value;
      var par := s.nodes[id].parentId;
      && prev in s.nodes && s.nodes[prev].parentId == par
      && par != Some(prev) && par != Some(id)
      && NoDup(s.nodes[prev].children) && id !in s.nodes[prev].children
    ensures var t := Edits.Indent(s, id);
      var prev := PrevSibling(s, id).value;
      var par := s.nodes[id].parentId;
      && t.nodes.Keys == s.nodes.Keys && t.idCounter == s.idCounter
      && (par.Some? ==> t.rootOrder == s.rootOrder)
      && (par.Some? || |t.rootOrder| > 0)
      && (forall y :: y in s.nodes ==> t.nodes[y].id == s.nodes[y].id && t.nodes[y].text == s.nodes[y].text)
      && t.nodes[id].parentId == Some(prev)
      && (forall y :: y in s.nodes && y != id ==> t.nodes[y].parentId == s.nodes[y].parentId)
      && (forall y :: y in s.nodes && Some(y) != par && y != prev ==> t.nodes[y].children == s.nodes[y].children)
      && Resolves(t, par) && NoDup(Container(t, par))
      && (forall y :: y in Container(t, par) <==> y in Container(s, par) && y != id)
      && NoDup(Container(t, Some(prev)))
      && (forall y :: y in Container(t, Some(prev)) <==> y in Container(s, Some(prev)) || y == id)
      && t.focusedId == s.focusedId && t.caret == s.caret && t.scopeRootId == s.scopeRootId
  {
    IndentTable(s, id);
    IndentLists(s, id);
  }

  /** The node table after indent: only the moved node's parent link, the old
      parent's list and the previous sibling's children change. */
  lemma IndentTable(s: State, id: Id)
    requires Linked(s) && id in s.nodes
    requires ParentResolves(s, id) && id in SiblingsOf(s, id) && PrevSibling(s, id).Some?
    requires var prev := PrevSibling(s, id).value;
      var par := s.nodes[id].parentId;
      && prev in s.nodes && par != Some(prev) && par != Some(id)
    ensures var t := Edits.Indent(s, id);
      var prev := PrevSibling(s, id).value;
      var par := s.nodes[id].parentId;
      && t.nodes.Keys == s.nodes.Keys && t.idCounter == s.idCounter
      && (par.Some? ==> t.rootOrder == s.rootOrder)
      && (forall y :: y in s.nodes ==> t.nodes[y].id == s.nodes[y].id && t.nodes[y].text == s.nodes[y].text)
      && t.nodes[id].parentId == Some(prev)
      && (forall y :: y in s.nodes && y != id ==> t.nodes[y].parentId == s.nodes[y].parentId)
      && (forall y :: y in s.nodes && Some(y) != par && y != prev ==> t.nodes[y].children == s.nodes[y].children)
      && t.focusedId == s.focusedId && t.caret == s.caret && t.scopeRootId == s.scopeRootId
  {
    SiblingsOfLinked(s, id);
    var prev := PrevSibling(s, id).value;
    var par := s.nodes[id].parentId;
    var u := WithContainer(s, par, EraseFrom(SiblingsOf(s, id), id));
    var n1 := u.nodes[id := u.nodes[id].(parentId := Some(prev))];
    var t := u.(nodes := n1[prev := n1[prev].(children := n1[prev].children + [id])]);
    assert t == Edits.Indent(s, id);
    forall y | y in s.nodes
      ensures y in t.nodes && t.nodes[y].id == s.nodes[y].id && t.nodes[y].text == s.nodes[y].text
      ensures y != id ==> t.nodes[y].parentId == s.nodes[y].parentId
      ensures Some(y) != par && y != prev ==> t.nodes[y].children == s.nodes[y].children
    {
      if y != prev && y != id {
        assert t.nodes[y] == u.nodes[y];
      }
    }
  }

  /** The two sibling lists after indent: the old one lost the node, the previous
      sibling's children gained it at the end. */
  lemma IndentLists(s: State, id: Id)
    requires Linked(s) && id in s.nodes
    requires ParentResolves(s, id) && id in SiblingsOf(s, id) && PrevSibling(s, id).Some?
    requires var prev := PrevSibling(s, id).value;
      var par := s.nodes[id].parentId;
      && prev in s.nodes && par != Some(prev) && par != Some(id)
      && NoDup(s.nodes[prev].children) && id !in s.nodes[prev].children
    ensures var t := Edits.Indent(s, id);
      var prev := PrevSibling(s, id).value;
      var par := s.nodes[id].parentId;
      && (par.Some? || |t.rootOrder| > 0)
      && Resolves(t, par) && NoDup(Container(t, par))
      && (forall y :: y in Container(t, par) <==> y in Container(s, par) && y != id)
      && NoDup(Container(t, Some(prev)))
      && (forall y :: y in Container(t, Some(prev)) <==> y in Container(s, Some(prev)) || y == id)
  {
    SiblingsOfLinked(s, id);
    var prev := PrevSibling(s, id).value;
    var par := s.nodes[id].parentId;
    var u := WithContainer(s, par, EraseFrom(SiblingsOf(s, id), id));
    var n1 := u.nodes[id := u.nodes[id].(parentId := Some(prev))];
    var t := u.(nodes := n1[prev := n1[prev].(children := n1[prev].children + [id])]);
    assert t == Edits.Indent(s, id);
    ConcatNoDup(s.nodes[prev].children, [id]);
    assert Container(t, Some(prev)) == s.nodes[prev].children + [id];
    assert |Container(t, par)| > 0;
  }

  lemma HoistValid(s: State, id: Id, after: bool)
    requires Valid(s) && id in s.nodes && s.nodes[id].parentId.Some?
    ensures Valid(Hoist(s, id, after))
  {
    var p := s.nodes[id].parentId.value;
    DepthOfParent(s, id);
    if s.nodes[p].parentId == None {
      HoistToRootValid(s, id, after);
    } else {
      HoistToGrandparentValid(s, id, after);
    }
  }

  /** hoist of a child of a root, written out. */
  lemma HoistRootIs(s: State, id: Id, after: bool)
    requires Linked(s) && Acyclic(s) && id in s.nodes && s.nodes[id].parentId.Some?
    requires var p := s.nodes[id].parentId.value;
      p in s.nodes && p != id && id in s.nodes[p].children && s.nodes[p].parentId == None && p in s.rootOrder
    ensures var p := s.nodes[id].parentId.value;
      Hoist(s, id, after) == s.(rootOrder := Placed(s.rootOrder, p, id, after),
        nodes := s.nodes[p := s.nodes[p].(children := EraseFrom(s.nodes[p].children, id))][id := s.nodes[id].(parentId := None)])
  {
  }

  /** hoist of a node whose parent has a parent, written out. */
  lemma HoistUnderIs(s: State, id: Id, after: bool)
    requires Linked(s) && Acyclic(s) && id in s.nodes && s.nodes[id].parentId.Some?
    requires var p := s.nodes[id].parentId.value;
      && p in s.nodes && p != id && id in s.nodes[p].children && s.nodes[p].parentId.Some?
      && var g := s.nodes[p].parentId.value;
      && g in s.nodes && g != p && g != id && p in s.nodes[g].children
    ensures var p := s.nodes[id].parentId.value;
      var g := s.nodes[p].parentId.value;
      Hoist(s, id, after) == s.(nodes := s.nodes[p := s.nodes[p].(children := EraseFrom(s.nodes[p].children, id))]
                                                [g := s.nodes[g].(children := Placed(s.nodes[g].children, p, id, after))]
                                                [id := s.nodes[id].(parentId := Some(g))])
  {
    var p := s.nodes[id].parentId.value;
    var g := s.nodes[p].parentId.value;
    var n1 := s.nodes[p := s.nodes[p].(children := EraseFrom(s.nodes[p].children, id))];
    assert n1[g] == s.nodes[g] && n1[id] == s.nodes[id];
    var n2 := n1[g := n1[g].(children := Placed(n1[g].children, p, id, after))];
    assert n2[id] == s.nodes[id];
  }

  lemma HoistToRootValid(s: State, id: Id, after: bool)
    requires Valid(s) && id in s.nodes && s.nodes[id].parentId.Some?
    requires s.nodes[id].parentId.value in s.nodes && s.nodes[s.nodes[id].parentId.value].parentId == None
    ensures Valid(Hoist(s, id, after))
  {
    HoistFacts(s, id);
    var p := s.nodes[id].parentId.value;
    assert ChildrenLinked(s, p);
    assert RootsListed(s);
    assert id !in s.rootOrder;
    HoistRootIs(s, id, after);
    var pc := EraseFrom(s.nodes[p].children, id);
    var ro := Placed(s.rootOrder, p, id, after);
    var t := s.(rootOrder := ro, nodes := s.nodes[p := s.nodes[p].(children := pc)][id := s.nodes[id].(parentId := None)]);
    assert t.nodes[s.focusedId].text == s.nodes[s.focusedId].text;
    assert Container(t, Some(p)) == pc;
    assert Container(t, None) == ro;
    RelocateLinked(s, t, id, None);
    RelocateAcyclic(s, t, id, None);
  }

  lemma HoistToGrandparentValid(s: State, id: Id, after: bool)
    requires Valid(s) && id in s.nodes && s.nodes[id].parentId.Some?
    requires s.nodes[id].parentId.value in s.nodes && s.nodes[s.nodes[id].parentId.value].parentId.Some?
    ensures Valid(Hoist(s, id, after))
  {
    HoistFacts(s, id);
    var p := s.nodes[id].parentId.value;
    var g := s.nodes[p].parentId.value;
    assert ChildrenLinked(s, p);
    assert ChildrenLinked(s, g);
    assert id !in s.nodes[g].children;
    HoistUnderIs(s, id, after);
    var pc := EraseFrom(s.nodes[p].children, id);
    var gc := Placed(s.nodes[g].children, p, id, after);
    var t := s.(nodes := s.nodes[p := s.nodes[p].(children := pc)][g := s.nodes[g].(children := gc)][id := s.nodes[id].(parentId := Some(g))]);
    assert t.nodes[s.focusedId].text == s.nodes[s.focusedId].text;
    assert Container(t, Some(p)) == pc;
    assert Container(t, Some(g)) == gc;
    assert !Under(s, g, id) by {
      if Under(s, g, id) { DepthOfParent(s, id); DepthOfParent(s, p); UnderDepth(s, g, id); }
    }
    RelocateLinked(s, t, id, Some(g));
    RelocateAcyclic(s, t, id, Some(g));
  }

  lemma OutdentValid(s: State, id: Id)
    requires Valid(s) && id in s.nodes
    ensures Valid(Edits.Outdent(s, id))
  {
    if s.nodes[id].parentId.Some? {
      HoistValid(s, id, true);
    }
  }

  lemma SwapValid(s: State, id: Id, i: nat, j: nat)
    requires Valid(s) && id in s.nodes
    requires ParentResolves(s, id) && i < |SiblingsOf(s, id)| && j < |SiblingsOf(s, id)|
    ensures Valid(WithContainer(s, s.nodes[id].parentId, Swap(SiblingsOf(s, id), i, j)))
  {
    var par := s.nodes[id].parentId;
    var t := WithContainer(s, par, Swap(SiblingsOf(s, id), i, j));
    SiblingsOfLinked(s, id);
    SwapNoDup(SiblingsOf(s, id), i, j);
    PermuteLinked(s, t, par);
    SameParentsAcyclic(s, t);
  }

  lemma MoveUpValid(s: State, id: Id)
    requires Valid(s) && id in s.nodes
    ensures Valid(Edits.MoveUp(s, id))
  {
    SiblingsOfLinked(s, id);
    var i := IndexInSiblings(s, id);
    if i > 0 {
      SwapValid(s, id, i - 1, i);
    } else if s.nodes[id].parentId.Some? {
      HoistValid(s, id, false);
    }
  }

  lemma MoveDownValid(s: State, id: Id)
    requires Valid(s) && id in s.nodes
    ensures Valid(Edits.MoveDown(s, id))
  {
    SiblingsOfLinked(s, id);
    var i := IndexInSiblings(s, id);
    if i + 1 < |SiblingsOf(s, id)| {
      SwapValid(s, id, i, i + 1);
    } else if s.nodes[id].parentId.Some? {
      HoistValid(s, id, true);
    }
  }

  // ---------------------------------------------------------------------------
  // Removing nodes
  // ---------------------------------------------------------------------------

  /** Removing a childless node keeps the shape; the root order stays non-empty
      unless the node was the only root. */
  lemma RemoveNodeStructural(s: State, id: Id)
    requires Structural(s) && id in s.nodes && |s.nodes[id].children| == 0
    requires !(s.nodes[id].parentId == None && |s.rootOrder| == 1)
    ensures Structural(RemoveNode(s, id))
    ensures RemoveNode(s, id).nodes.Keys == s.nodes.Keys - {id}
  {
    var t := RemoveNode(s, id);
    SiblingsOfLinked(s, id);
    DepthOfParent(s, id);
    RemoveLeafLinked(s, t, id);
    RemoveLeafAcyclic(s, t, id);
    if s.nodes[id].parentId == None {
      assert |t.rootOrder| == |s.rootOrder| - 1;
    }
  }

  lemma DeleteEmptyValid(s: State, id: Id)
    requires Valid(s)
    ensures Valid(DeleteEmpty(s, id))
  {
    if id in s.nodes && |s.nodes[id].text| == 0 && |s.nodes[id].children| == 0 {
      if s.nodes[id].parentId == None && |s.rootOrder| == 1 {
        assert ParentLinked(s, id);
        ShapeKept(s, DeleteEmpty(s, id));
      } else {
        DeleteRemovesValid(s, id);
      }
    }
  }

  lemma DeleteRemovesValid(s: State, id: Id)
    requires Valid(s) && id in s.nodes && |s.nodes[id].text| == 0 && s.nodes[id].children == []
    requires !(s.nodes[id].parentId == None && |s.rootOrder| == 1)
    ensures Valid(DeleteEmpty(s, id))
  {
    var prev := PrevVisible(s, id);
    var next := NextVisible(s, id);
    RemoveNodeStructural(s, id);
    var u := RemoveNode(s, id);
    var u2 := if u.scopeRootId.Some? && u.scopeRootId == Some(id) then u.(scopeRootId := None) else u;
    assert EnsureMinOneRoot(u2) == u2;
    DeleteFocusLive(s, id, prev, next, u2);
    var f := FallbackFocus(prev, next, u2.rootOrder).value;
    var t := SetFocusLowerClamped(u2, f, |u2.nodes[f].text|);
    ShapeKept(u, t);
    assert ScopeLive(t);
    assert t == DeleteEmpty(s, id);
  }

  lemma DeleteEmptyGuardedValid(s: State, id: Id)
    requires Valid(s)
    ensures Valid(DeleteEmptyGuarded(s, id))
  {
    if id in s.nodes && |s.nodes[id].text| == 0 && |s.nodes[id].children| == 0 {
      if (s.nodes[id].parentId == None && |s.rootOrder| == 1) || s.scopeRootId == Some(id) {
        assert ParentLinked(s, id);
        ShapeKept(s, DeleteEmptyGuarded(s, id));
      } else {
        RemoveWithFallbackValid(s, id, PrevVisibleFallback(s, id), NextVisibleFallback(s, id));
      }
    }
  }

  lemma RemoveWithFallbackValid(s: State, id: Id, prev: Option<Id>, next: Option<Id>)
    requires Valid(s) && id in s.nodes && s.nodes[id].children == []
    requires !(s.nodes[id].parentId == None && |s.rootOrder| == 1) && s.scopeRootId != Some(id)
    requires prev.Some? ==> prev.value in s.nodes && prev.value != id
    requires next.Some? ==> next.value in s.nodes && next.value != id
    ensures Valid(RemoveWithFallback(s, id, prev, next))
  {
    RemoveNodeStructural(s, id);
    var u := RemoveNode(s, id);
    var parent := s.nodes[id].parentId;
    assert ScopeLive(u);
    if u.scopeRootId.Some? && prev == u.scopeRootId && next.Some? {
      ShapeKept(u, u.(focusedId := next.value, caret := 0));
    } else if u.scopeRootId.Some? && prev == u.scopeRootId && parent.Some? && parent == u.scopeRootId
         && |u.nodes[parent.value].children| == 0 {
      AppendEmptyChildValid(u, parent.value);
    } else {
      DeleteFocusLive(s, id, prev, next, EnsureMinOneRoot(u));
      var f := FallbackFocus(prev, next, u.rootOrder).value;
      ShapeKept(u, u.(focusedId := f, caret := |u.nodes[f].text|));
    }
  }

  /** The state half-way through a merge: the next sibling's children handed to
      `id`, the next sibling still present but childless. */
  ghost function MergeMid(s: State, id: Id, next: Id): (w: State)
    requires id in s.nodes && next in s.nodes
  {
    var m := s.nodes[next];
    var node := s.nodes[id];
    var joined := node.(text := node.text + m.text, children := node.children + m.children);
    var n1 := Reparented(s.nodes[id := joined], m.children, id);
    s.(nodes := n1[next := n1[next].(children := [])])
  }

  /** The next sibling a merge absorbs: a live node with `id`'s parent, holding
      neither `id`, itself, nor their parent among its children. */
  lemma MergeTarget(s: State, id: Id)
    requires Linked(s) && Acyclic(s) && id in s.nodes
    requires ParentResolves(s, id) && id in SiblingsOf(s, id) && NextSibling(s, id).Some?
    ensures var next := NextSibling(s, id).value;
      var par := s.nodes[id].parentId;
      var m := s.nodes[next];
      && next in s.nodes && next != id && m.parentId == par
      && next !in m.children && id !in m.children
      && (par.Some? ==> par.value != next && par.value != id && par.value !in m.children)
  {
    var next := NextSibling(s, id).value;
    var m := s.nodes[next];
    var par := s.nodes[id].parentId;
    assert ChildrenLinked(s, next);
    DepthOfParent(s, next);
    DepthOfParent(s, id);
    assert ParentLinked(s, id);
    if par.Some? {
      DepthOfParent(s, par.value);
    }
  }

  /** The first half of a merge is a hand-over of children between siblings. */
  lemma MergeMidStructural(s: State, id: Id, next: Id)
    requires Structural(s) && id in s.nodes && next in s.nodes && next != id
    requires s.nodes[id].children == [] && s.nodes[next].parentId == s.nodes[id].parentId
    requires next !in s.nodes[next].children && id !in s.nodes[next].children
    ensures Structural(MergeMid(s, id, next))
  {
    var w := MergeMid(s, id, next);
    var m := s.nodes[next];
    assert w.nodes.Keys == s.nodes.Keys && w.rootOrder == s.rootOrder && w.idCounter == s.idCounter;
    assert w.nodes[id].children == m.children && w.nodes[next].children == [];
    forall y | y in s.nodes
      ensures w.nodes[y].id == s.nodes[y].id
      ensures y != next && y != id ==> w.nodes[y].children == s.nodes[y].children
      ensures w.nodes[y].parentId == if y in m.children then Some(id) else s.nodes[y].parentId
    {
    }
    TransferLinked(s, w, next, id);
    TransferAcyclic(s, w, next, id);
  }

  /** The second half of a merge removes the now childless next sibling. */
  lemma MergeRemoveShape(s: State, id: Id, clearScope: bool)
    requires Linked(s) && id in s.nodes && s.nodes[id].children == []
    requires ParentResolves(s, id) && id in SiblingsOf(s, id) && NextSibling(s, id).Some?
    requires var next := NextSibling(s, id).value;
      var par := s.nodes[id].parentId;
      var m := s.nodes[next];
      && next in s.nodes && next != id && m.parentId == par
      && next !in m.children && id !in m.children
      && (par.Some? ==> par.value != next && par.value != id && par.value !in m.children)
    ensures var next := NextSibling(s, id).value;
      var w := MergeMid(s, id, next);
      var t := Merge(s, id, clearScope);
      var par := s.nodes[id].parentId;
      && w.nodes.Keys == s.nodes.Keys
      && ParentResolves(w, next) && w.nodes[next].children == [] && w.nodes[next].parentId == par
      && par != Some(next)
      && t.nodes.Keys == w.nodes.Keys - {next} && t.idCounter == w.idCounter
      && (forall y :: y in t.nodes ==> t.nodes[y].id == w.nodes[y].id && t.nodes[y].parentId == w.nodes[y].parentId)
      && (forall y :: y in t.nodes && Some(y) != par ==> t.nodes[y].children == w.nodes[y].children)
      && (par.Some? ==> t.rootOrder == w.rootOrder)
      && Container(w, par) == SiblingsOf(s, id)
      && Resolves(t, par) && Container(t, par) == EraseFrom(SiblingsOf(s, id), next)
      && t.focusedId == id && t.caret == |t.nodes[id].text|
      && t.scopeRootId == if clearScope && s.scopeRootId == Some(next) then None else s.scopeRootId
  {
    SiblingsOfLinked(s, id);
    var next := NextSibling(s, id).value;
    MergeCase(s, id, clearScope);
    var w := MergeMid(s, id, next);
    var t := Merge(s, id, clearScope);
    MergeRemovedMid(s, id, next, SiblingsOf(s, id), clearScope, w, t);
    MergeRemovedNodes(s, id, next, SiblingsOf(s, id), clearScope, w, t);
    MergeRemovedList(s, id, next, SiblingsOf(s, id), clearScope, w, t);
  }

  /** A merge that happens is the merge written out in `MergeRemoveCase`. */
  lemma MergeCase(s: State, id: Id, clearScope: bool)
    requires Linked(s) && id in s.nodes && s.nodes[id].children == []
    requires ParentResolves(s, id) && id in SiblingsOf(s, id) && NextSibling(s, id).Some?
    requires var next := NextSibling(s, id).value;
      var par := s.nodes[id].parentId;
      var m := s.nodes[next];
      && next in s.nodes && next != id && m.parentId == par
      && next !in m.children && id !in m.children
      && (par.Some? ==> par.value != next && par.value != id && par.value !in m.children)
    ensures var next := NextSibling(s, id).value;
      MergeRemoveCase(s, id, next, SiblingsOf(s, id), clearScope, MergeMid(s, id, next), Merge(s, id, clearScope))
  {
    SiblingsOfLinked(s, id);
    var next := NextSibling(s, id).value;
    var node := s.nodes[id];
    var m := s.nodes[next];
    var joined := node.(text := node.text + m.text, children := node.children + m.children);
    var n1 := Reparented(s.nodes[id := joined], m.children, id);
    var u := WithContainer(s.(nodes := n1), node.parentId, EraseFrom(SiblingsOf(s, id), next));
    var u2 := u.(nodes := u.nodes - {next});
    var u3 := if clearScope && u2.scopeRootId.Some? && u2.scopeRootId == Some(next) then u2.(scopeRootId := None) else u2;
    assert Merge(s, id, clearScope) == SetFocusLowerClamped(u3, id, |joined.text|);
  }

  /** `t` is the merge of `id` with its next sibling `next`, written out, and
      `w` the state halfway; `sibs` is the list that holds both. */
  ghost predicate MergeRemoveCase(s: State, id: Id, next: Id, sibs: seq<Id>, clearScope: bool, w: State, t: State) {
    && id in s.nodes && next in s.nodes && next != id && s.nodes[id].children == []
    && var par := s.nodes[id].parentId;
      var node := s.nodes[id];
      var m := s.nodes[next];
      && m.parentId == par && next !in m.children && id !in m.children
      && (par.Some? ==> par.value in s.nodes && par.value != next && par.value != id && par.value !in m.children)
      && Container(s, par) == sibs && next in sibs
      && w == MergeMid(s, id, next)
      && var joined := node.(text := node.text + m.text, children := node.children + m.children);
        var n1 := Reparented(s.nodes[id := joined], m.children, id);
        var u := WithContainer(s.(nodes := n1), par, EraseFrom(sibs, next));
        var u2 := u.(nodes := u.nodes - {next});
        var u3 := if clearScope && u2.scopeRootId.Some? && u2.scopeRootId == Some(next) then u2.(scopeRootId := None) else u2;
        t == SetFocusLowerClamped(u3, id, |joined.text|)
  }

  /** The halfway state of a merge: same keys, and the absorbed sibling is a
      childless node still in the parent's list. */
  lemma MergeRemovedMid(s: State, id: Id, next: Id, sibs: seq<Id>, clearScope: bool, w: State, t: State)
    requires MergeRemoveCase(s, id, next, sibs, clearScope, w, t)
    ensures var par := s.nodes[id].parentId;
      && w.nodes.Keys == s.nodes.Keys
      && ParentResolves(w, next) && w.nodes[next].children == [] && w.nodes[next].parentId == par
      && par != Some(next)
      && Container(w, par) == sibs
  {
  }

  /** The merged state's table is the halfway one without `next`, with the same
      ids and parent links and, off the parent, the same children. */
  lemma MergeRemovedNodes(s: State, id: Id, next: Id, sibs: seq<Id>, clearScope: bool, w: State, t: State)
    requires MergeRemoveCase(s, id, next, sibs, clearScope, w, t)
    ensures w.nodes.Keys == s.nodes.Keys
    ensures var par := s.nodes[id].parentId;
      && t.nodes.Keys == w.nodes.Keys - {next} && t.idCounter == w.idCounter
      && (forall y :: y in t.nodes ==> t.nodes[y].id == w.nodes[y].id && t.nodes[y].parentId == w.nodes[y].parentId)
      && (forall y :: y in t.nodes && Some(y) != par ==> t.nodes[y].children == w.nodes[y].children)
      && (par.Some? ==> t.rootOrder == w.rootOrder)
  {
    var par := s.nodes[id].parentId;
    var node := s.nodes[id];
    var m := s.nodes[next];
    var joined := node.(text := node.text + m.text, children := node.children + m.children);
    var n1 := Reparented(s.nodes[id := joined], m.children, id);
    var u := WithContainer(s.(nodes := n1), par, EraseFrom(sibs, next));
    assert t.nodes == u.nodes - {next};
    assert w.nodes == n1[next := n1[next].(children := [])];
    forall y | y in t.nodes
      ensures t.nodes[y].id == w.nodes[y].id && t.nodes[y].parentId == w.nodes[y].parentId
      ensures Some(y) != par ==> t.nodes[y].children == w.nodes[y].children
    {
      assert w.nodes[y] == n1[y];
      if Some(y) != par {
        assert t.nodes[y] == n1[y];
      } else {
        assert t.nodes[y] == n1[y].(children := EraseFrom(sibs, next));
      }
    }
  }

  /** The merged state's list drops `next`; the focus is on `id` at the end of
      the joined text, and the scope is cleared only when asked and on `next`. */
  lemma MergeRemovedList(s: State, id: Id, next: Id, sibs: seq<Id>, clearScope: bool, w: State, t: State)
    requires MergeRemoveCase(s, id, next, sibs, clearScope, w, t)
    ensures var par := s.nodes[id].parentId;
      && Resolves(t, par) && Container(t, par) == EraseFrom(sibs, next)
      && id in t.nodes && t.focusedId == id && t.caret == |t.nodes[id].text|
      && t.scopeRootId == if clearScope && s.scopeRootId == Some(next) then None else s.scopeRootId
  {
    var node := s.nodes[id];
    var m := s.nodes[next];
    assert t.nodes[id] == node.(text := node.text + m.text, children := node.children + m.children);
  }

  /** A merge that happens keeps the tree shape. */
  lemma MergeStepStructural(s: State, id: Id, clearScope: bool)
    requires Structural(s) && id in s.nodes && s.nodes[id].children == []
    requires ParentResolves(s, id) && id in SiblingsOf(s, id) && NextSibling(s, id).Some?
    ensures Structural(Merge(s, id, clearScope))
  {
    SiblingsOfLinked(s, id);
    var next := NextSibling(s, id).value;
    MergeTarget(s, id);
    MergeMidStructural(s, id, next);
    MergeRemoveShape(s, id, clearScope);
    var w := MergeMid(s, id, next);
    var t := Merge(s, id, clearScope);
    assert |EraseFrom(SiblingsOf(s, id), next)| == |SiblingsOf(s, id)| - 1;
    RemoveLeafLinked(w, t, next);
    RemoveLeafAcyclic(w, t, next);
    assert |t.rootOrder| > 0 by {
      if s.nodes[id].parentId == None {
        assert |SiblingsOf(s, id)| >= 2;
      }
    }
  }

  /** merge_next_sibling_into_current keeps the tree shape and the focus valid; the
      scope stays live unless it was the absorbed sibling and is not cleared (the
      JavaScript engines), when it is left dangling. */
  lemma MergeStructural(s: State, id: Id, clearScope: bool)
    requires Valid(s) && id in s.nodes
    ensures ParentResolves(s, id) && id in SiblingsOf(s, id)
    ensures Structural(Merge(s, id, clearScope)) && FocusValid(Merge(s, id, clearScope))
    ensures ScopeLive(Merge(s, id, clearScope)) <==>
      !(!clearScope && s.nodes[id].children == [] && NextSibling(s, id).Some? && s.scopeRootId == NextSibling(s, id))
  {
    SiblingsOfLinked(s, id);
    if s.nodes[id].children == [] && NextSibling(s, id).Some? {
      MergeStepStructural(s, id, clearScope);
      MergeTarget(s, id);
      MergeRemoveShape(s, id, clearScope);
    }
  }

  lemma MergeValid(s: State, id: Id)
    requires Valid(s) && id in s.nodes
    ensures Valid(Merge(s, id, true))
  {
    MergeStructural(s, id, true);
  }

  // ---------------------------------------------------------------------------
  // Focus and scope
  // ---------------------------------------------------------------------------

  /** set_focus keeps the invariants exactly when the caret is not past the end
      of the target's text: it only lifts a negative caret to 0. */
  lemma SetFocusLowerClampedValid(s: State, id: Id, caret: int)
    requires Valid(s) && id in s.nodes
    ensures Valid(SetFocusLowerClamped(s, id, caret)) <==> caret <= |s.nodes[id].text|
  {
    ShapeKept(s, SetFocusLowerClamped(s, id, caret));
  }

  /** demo.js's setFocus always keeps the invariants. */
  lemma SetFocusClampedValid(s: State, id: Id, caret: int)
    requires Valid(s) && id in s.nodes
    ensures Valid(SetFocusClamped(s, id, caret))
  {
    ShapeKept(s, SetFocusClamped(s, id, caret));
  }

  /** Setting the scope keeps the invariants exactly when the new scope is empty or live. */
  lemma SetScopeValid(s: State, scope: Option<Id>)
    requires Valid(s)
    ensures Valid(SetScope(s, scope)) <==> scope == None || scope.value in s.nodes
  {
    ShapeKept(s, SetScope(s, scope));
  }
}
