/** The state object of the two JavaScript engines (web/demo/demo.js and
    packages/bullet-canvas-dom/src/core.js): a plain object whose fields the
    edit functions change in place.  Node records are values in its node table;
    the sibling list a node lives in is changed through `WriteSiblings`, which
    stands for a write through the array reference `siblingsRef` returns.  The
    id counter is not part of the object: the demo keeps it in a module-level
    closure and BulletCanvas in an instance field. */
module JsState {
  import opened Types
  import opened Vectors
  import opened Forest
  import opened Preorder
  import opened Edits
  import opened StateUtils

  /** Parent links and child lists agree and have no cycle: what the helpers
      need for `siblingsRef` to find the node and for the walk to end.  It says
      nothing about the id counter, which lives outside the object. */
  ghost predicate Walkable(s: State) {
    Linked(s) && Acyclic(s)
  }

  class StateObject {
    var nodes: map<Id, Node>
    var rootOrder: seq<Id>
    var focusedId: Id
    var caret: int
    var scopeRootId: Option<Id>

    /** An object literal `{ nodes, rootOrder, focusedId, caret, scopeRootId }`. */
    constructor (nodes: map<Id, Node>, rootOrder: seq<Id>, focusedId: Id, caret: int, scopeRootId: Option<Id>)
      ensures this.nodes == nodes && this.rootOrder == rootOrder && this.focusedId == focusedId
      ensures this.caret == caret && this.scopeRootId == scopeRootId
    {
      this.nodes := nodes;
      this.rootOrder := rootOrder;
      this.focusedId := focusedId;
      this.caret := caret;
      this.scopeRootId := scopeRootId;
    }

    /** `structuredClone(this)`: a fresh object holding the same values. */
    method Clone() returns (copy: StateObject)
      ensures fresh(copy)
      ensures copy.nodes == nodes && copy.rootOrder == rootOrder && copy.focusedId == focusedId
      ensures copy.caret == caret && copy.scopeRootId == scopeRootId
    {
      copy := new StateObject(nodes, rootOrder, focusedId, caret, scopeRootId);
    }

    /** The object's contents as an engine state, with the id counter kept
        outside the object. */
    function Value(counter: nat): State
      reads this
    {
      State(nodes, rootOrder, focusedId, caret, scopeRootId, counter)
    }

    /** siblingsRef: the list holding `id`, its parent's children or the root order. */
    function SiblingsRef(id: Id): (sibs: seq<Id>)
      reads this
      requires id in nodes && (nodes[id].parentId.Some? ==> nodes[id].parentId.value in nodes)
      ensures forall c :: ParentResolves(Value(c), id) && sibs == SiblingsOf(Value(c), id)
    {
      match nodes[id].parentId
      case None => rootOrder
      case Some(p) => nodes[p].children
    }

    /** The list `siblingsRef` returned for a node with parent link `parent`,
        changed in place to `v`. */
    method WriteSiblings(parent: Option<Id>, v: seq<Id>)
      requires parent.Some? ==> parent.value in nodes
      modifies this`nodes, this`rootOrder
      ensures parent.None? ==> rootOrder == v && nodes == old(nodes)
      ensures parent.Some? ==>
        rootOrder == old(rootOrder) && nodes == old(nodes)[parent.value := old(nodes)[parent.value].(children := v)]
    {
      match parent
      case None => rootOrder := v;
      case Some(p) => nodes := nodes[p := nodes[p].(children := v)];
    }

    // -------------------------------------------------------------------------
    // Lookups and edits written the same way in both engines.  The ghost
    // parameter `c` is the id counter, which lives outside the object and
    // which none of them touches.
    // -------------------------------------------------------------------------

    /** dfs inside visibleOrderIds: `id`, then each child's subtree, pushed onto `out`. */
    method Dfs(ghost c: nat, id: Id, out: seq<Id>) returns (r: seq<Id>)
      requires Walkable(Value(c)) && id in nodes
      ensures r == out + PreorderFrom(Value(c), id)
      decreases Below(Value(c), id)
    {
      ghost var s := Value(c);
      r := out + [id];
      var ch := nodes[id].children;
      assert ChildrenLinked(s, id);
      for i := 0 to |ch|
        invariant r + PreorderKids(s, id, i) == out + PreorderFrom(s, id)
      {
        BelowShrinks(s, id, ch[i]);
        r := Dfs(c, ch[i], r);
      }
    }

    /** visibleOrderIds: the scoped subtree when the scope names a live node,
        otherwise (no scope, or a scope left dangling) every root's subtree. */
    method VisibleOrderIds(ghost c: nat) returns (out: seq<Id>)
      requires Walkable(Value(c))
      ensures out == VisibleOrderFallback(Value(c))
    {
      ghost var s := Value(c);
      out := [];
      if scopeRootId.Some? && scopeRootId.value in nodes {
        out := Dfs(c, scopeRootId.value, out);
        return;
      }
      assert RootsListed(s);
      for i := 0 to |rootOrder|
        invariant out + PreorderRoots(s, i) == PreorderRoots(s, 0)
      {
        out := Dfs(c, rootOrder[i], out);
      }
    }

    /** indexInSiblings. */
    method SiblingIndex(ghost c: nat, id: Id) returns (i: nat)
      requires Walkable(Value(c)) && id in nodes
      ensures ParentResolves(Value(c), id) && id in SiblingsOf(Value(c), id)
      ensures i == IndexInSiblings(Value(c), id)
    {
      SiblingsOfLinked(Value(c), id);
      i := FindId(SiblingsRef(id), id);
    }

    /** prevSiblingId: the sibling just before `id`, if any. */
    method PrevSiblingId(ghost c: nat, id: Id) returns (r: Option<Id>)
      requires Walkable(Value(c)) && id in nodes
      ensures ParentResolves(Value(c), id) && id in SiblingsOf(Value(c), id)
      ensures r == PrevSibling(Value(c), id)
    {
      SiblingsOfLinked(Value(c), id);
      var a := SiblingsRef(id);
      var i := FindId(a, id);
      r := if i > 0 then Some(a[i - 1]) else None;
    }

    /** nextSiblingId: the sibling just after `id`, if any. */
    method NextSiblingId(ghost c: nat, id: Id) returns (r: Option<Id>)
      requires Walkable(Value(c)) && id in nodes
      ensures ParentResolves(Value(c), id) && id in SiblingsOf(Value(c), id)
      ensures r == NextSibling(Value(c), id)
    {
      SiblingsOfLinked(Value(c), id);
      var a := SiblingsRef(id);
      var i := FindId(a, id);
      r := if i < |a| && i + 1 < |a| then Some(a[i + 1]) else None;
    }

    /** prevVisibleId: the node shown just before `id`, if any. */
    method PrevVisibleId(ghost c: nat, id: Id) returns (r: Option<Id>)
      requires Walkable(Value(c))
      ensures r == PrevVisibleFallback(Value(c), id)
    {
      var a := VisibleOrderIds(c);
      var i := FindId(a, id);
      r := if i < |a| && i > 0 then Some(a[i - 1]) else None;
    }

    /** nextVisibleId: the node shown just after `id`, if any. */
    method NextVisibleId(ghost c: nat, id: Id) returns (r: Option<Id>)
      requires Walkable(Value(c))
      ensures r == NextVisibleFallback(Value(c), id)
    {
      var a := VisibleOrderIds(c);
      var i := FindId(a, id);
      r := if i < |a| && i + 1 < |a| then Some(a[i + 1]) else None;
    }

    /** indent: the node becomes the last child of its previous sibling. */
    method Indent(ghost c: nat, id: Id)
      requires Walkable(Value(c)) && id in nodes
      modifies this`nodes, this`rootOrder
      ensures Value(c) == Edits.Indent(old(Value(c)), id)
    {
      var prev := PrevSiblingId(c, id);
      if prev.None? {
        return;
      }
      var sibs := SiblingsRef(id);
      var i := FindId(sibs, id);
      WriteSiblings(nodes[id].parentId, RemoveAt(sibs, i));
      nodes := nodes[id := nodes[id].(parentId := prev)];
      var p := prev.value;
      nodes := nodes[p := nodes[p].(children := nodes[p].children + [id])];
    }

    /** The tail shared by outdent, moveUp and moveDown: out of the parent's
        children, into the grandparent's children (or the root order) right after
        (`after`) or right before the parent. */
    method HoistNode(ghost c: nat, id: Id, after: bool)
      requires Walkable(Value(c)) && id in nodes
      requires nodes[id].parentId.Some?
      modifies this`nodes, this`rootOrder
      ensures Value(c) == Hoist(old(Value(c)), id, after)
    {
      HoistFacts(Value(c), id);
      var p := nodes[id].parentId.value;
      var gp := nodes[p].parentId;
      var pc := nodes[p].children;
      var k := FindId(pc, id);
      nodes := nodes[p := nodes[p].(children := RemoveAt(pc, k))];
      if gp.None? {
        var j := FindId(rootOrder, p);
        rootOrder := InsertAt(rootOrder, if after then j + 1 else j, id);
        nodes := nodes[id := nodes[id].(parentId := None)];
      } else {
        var g := gp.value;
        var gpc := nodes[g].children;
        var j := FindId(gpc, p);
        nodes := nodes[g := nodes[g].(children := InsertAt(gpc, if after then j + 1 else j, id))];
        nodes := nodes[id := nodes[id].(parentId := gp)];
      }
    }

    /** outdent: the node becomes the next sibling of its parent. */
    method Outdent(ghost c: nat, id: Id)
      requires Walkable(Value(c)) && id in nodes
      modifies this`nodes, this`rootOrder
      ensures Value(c) == Edits.Outdent(old(Value(c)), id)
    {
      if nodes[id].parentId.None? {
        return;
      }
      HoistNode(c, id, true);
    }

    /** moveUp: swap with the previous sibling, or move before the parent one level up. */
    method MoveUp(ghost c: nat, id: Id)
      requires Walkable(Value(c)) && id in nodes
      modifies this`nodes, this`rootOrder
      ensures Value(c) == Edits.MoveUp(old(Value(c)), id)
    {
      SiblingsOfLinked(Value(c), id);
      var n := nodes[id];
      var sibs := SiblingsRef(id);
      var i := FindId(sibs, id);
      if i > 0 {
        WriteSiblings(n.parentId, sibs[i - 1 := sibs[i]][i := sibs[i - 1]]);
        return;
      }
      if n.parentId.None? {
        return;
      }
      HoistNode(c, id, false);
    }

    /** moveDown: swap with the next sibling, or move after the parent one level up. */
    method MoveDown(ghost c: nat, id: Id)
      requires Walkable(Value(c)) && id in nodes
      modifies this`nodes, this`rootOrder
      ensures Value(c) == Edits.MoveDown(old(Value(c)), id)
    {
      SiblingsOfLinked(Value(c), id);
      var n := nodes[id];
      var sibs := SiblingsRef(id);
      var i := FindId(sibs, id);
      if i + 1 < |sibs| {
        WriteSiblings(n.parentId, sibs[i := sibs[i + 1]][i + 1 := sibs[i]]);
        return;
      }
      if n.parentId.None? {
        return;
      }
      HoistNode(c, id, true);
    }

    /** `cs.forEach(cid => state.nodes[cid].parentId = p)`. */
    method SetParents(cs: seq<Id>, p: Id)
      requires forall y :: y in cs ==> y in nodes
      modifies this`nodes
      ensures nodes == Reparented(old(nodes), cs, p)
    {
      ghost var n0 := nodes;
      for j := 0 to |cs|
        invariant nodes.Keys == n0.Keys
        invariant forall y :: y in n0 ==> nodes[y] == if y in cs[..j] then n0[y].(parentId := Some(p)) else n0[y]
      {
        nodes := nodes[cs[j] := nodes[cs[j]].(parentId := Some(p))];
      }
      assert cs[..|cs|] == cs;
    }

    /** The first half of splitAtCaret once `nid` is drawn: a node `nid` takes
        the text from `k` on and the children, which now point to it; `id` keeps
        the text before `k` and no children. */
    method SplitOff(ghost c: nat, id: Id, k: nat, nid: Id)
      requires Walkable(Value(c)) && id in nodes && k <= |nodes[id].text| && nid !in nodes
      modifies this`nodes
      ensures var s := old(Value(c));
        var node := s.nodes[id];
        var moved := Reparented(s.nodes, node.children, nid);
        Value(c) == s.(nodes := moved[id := moved[id].(children := [], text := node.text[..k])]
                                     [nid := Node(nid, node.parentId, node.text[k..], node.children)])
    {
      ghost var s := Value(c);
      assert ChildrenLinked(s, id);
      var node := nodes[id];
      ghost var born := Node(nid, node.parentId, node.text[k..], node.children);
      nodes := nodes[nid := Node(nid, node.parentId, node.text[k..], node.children)];
      SetParents(node.children, nid);
      ghost var moved := Reparented(s.nodes, node.children, nid);
      ReparentedAdded(s.nodes, node.children, nid, born);
      nodes := nodes[id := nodes[id].(children := [], text := node.text[..k])];
      assert nodes == moved[id := moved[id].(children := [], text := node.text[..k])][nid := born];
    }

    /** `sibs.splice(sibs.indexOf(id) + 1, 0, nid)` on the list holding `id`. */
    method SpliceAfter(ghost c: nat, id: Id, nid: Id)
      requires ParentResolves(Value(c), id) && id in SiblingsOf(Value(c), id)
      modifies this`nodes, this`rootOrder
      ensures Value(c) ==
        WithContainer(old(Value(c)), old(nodes[id].parentId), InsertAfter(SiblingsOf(old(Value(c)), id), id, nid))
    {
      var sibs := SiblingsRef(id);
      var idx := FindId(sibs, id);
      WriteSiblings(nodes[id].parentId, InsertAt(sibs, idx + 1, nid));
    }

    /** `sibs.splice(sibs.indexOf(x), 1); delete state.nodes[x]` on the list
        `sibs` holding `id`. */
    method Unlink(ghost c: nat, id: Id, x: Id)
      requires ParentResolves(Value(c), id) && x in SiblingsOf(Value(c), id)
      modifies this`nodes, this`rootOrder
      ensures var s := old(Value(c));
        var u := WithContainer(s, s.nodes[id].parentId, EraseFrom(SiblingsOf(s, id), x));
        Value(c) == u.(nodes := u.nodes - {x})
    {
      var sibs := SiblingsRef(id);
      var i := FindId(sibs, x);
      WriteSiblings(nodes[id].parentId, RemoveAt(sibs, i));
      nodes := nodes - {x};
    }

    /** `cs.forEach(cid => { state.nodes[cid].parentId = id; n.children.push(cid); })`. */
    method Adopt(id: Id, cs: seq<Id>)
      requires id in nodes && id !in cs && forall y :: y in cs ==> y in nodes
      modifies this`nodes
      ensures var n0 := old(nodes);
        nodes == Reparented(n0[id := n0[id].(children := n0[id].children + cs)], cs, id)
    {
      ghost var n0 := nodes;
      for j := 0 to |cs|
        invariant nodes.Keys == n0.Keys
        invariant forall y :: y in n0 && y != id ==>
          nodes[y] == if y in cs[..j] then n0[y].(parentId := Some(id)) else n0[y]
        invariant nodes[id] == n0[id].(children := n0[id].children + cs[..j])
      {
        nodes := nodes[cs[j] := nodes[cs[j]].(parentId := Some(id))];
        nodes := nodes[id := nodes[id].(children := nodes[id].children + [cs[j]])];
      }
      assert cs[..|cs|] == cs;
    }
  }

  /** Reparenting commutes with adding a node that is not reparented. */
  lemma ReparentedAdded(nodes: map<Id, Node>, cs: seq<Id>, p: Id, n: Node)
    requires n.id !in cs
    ensures Reparented(nodes[n.id := n], cs, p) == Reparented(nodes, cs, p)[n.id := n]
  {
  }
}
