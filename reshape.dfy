/** The shapes of change the structural commands make to a forest, each proved
    once to keep the tree shape: a node moved to another container, a
    container reordered, a leaf added, a leaf removed, and the children of one
    node handed to a sibling.  The proofs go through an equivalent form of the
    link invariant: every container lists, once each, exactly the nodes whose
    parent link names its owner. */
module Reshape {
  import opened Types
  import opened Vectors
  import opened Forest

  /** The container named by `c` exists. */
  ghost predicate Resolves(s: State, c: Option<Id>) {
    c.Some? ==> c.value in s.nodes
  }

  ghost predicate NodeOk(s: State, x: Id)
    requires x in s.nodes
  {
    && s.nodes[x].id == x
    && Resolves(s, s.nodes[x].parentId)
  }

  /** Container `c` lists, once each, exactly the nodes whose parent link is `c`. */
  ghost predicate ContainerExact(s: State, c: Option<Id>)
    requires Resolves(s, c)
  {
    && NoDup(Container(s, c))
    && forall y :: y in Container(s, c) <==> y in s.nodes && s.nodes[y].parentId == c
  }

  ghost predicate Exact(s: State) {
    && (forall x {:trigger NodeOk(s, x)} :: x in s.nodes ==> NodeOk(s, x))
    && ContainerExact(s, None)
    && (forall p {:trigger ContainerExact(s, Some(p))} :: p in s.nodes ==> ContainerExact(s, Some(p)))
  }

  lemma LinkedIsExact(s: State)
    requires Linked(s)
    ensures Exact(s)
  {
    forall x | x in s.nodes ensures NodeOk(s, x) {
      assert ParentLinked(s, x);
    }
    forall c: Option<Id> | Resolves(s, c) ensures ContainerExact(s, c) {
      if c.Some? { assert ChildrenLinked(s, c.value); }
      forall y | y in Container(s, c) ensures y in s.nodes && s.nodes[y].parentId == c {
        var i :| 0 <= i < |Container(s, c)| && Container(s, c)[i] == y;
      }
      forall y | y in s.nodes && s.nodes[y].parentId == c ensures y in Container(s, c) {
        assert ParentLinked(s, y);
      }
    }
  }

  lemma ExactIsLinked(s: State)
    requires Exact(s)
    ensures Linked(s)
  {
    assert ContainerExact(s, None);
    forall p | p in s.nodes ensures ChildrenLinked(s, p) {
      assert ContainerExact(s, Some(p));
      forall i | 0 <= i < |s.nodes[p].children|
        ensures s.nodes[p].children[i] in s.nodes && s.nodes[s.nodes[p].children[i]].parentId == Some(p)
      {
        assert s.nodes[p].children[i] in Container(s, Some(p));
      }
    }
    forall x | x in s.nodes ensures ParentLinked(s, x) {
      assert NodeOk(s, x);
      assert ContainerExact(s, s.nodes[x].parentId);
    }
    forall i | 0 <= i < |s.rootOrder|
      ensures s.rootOrder[i] in s.nodes && s.nodes[s.rootOrder[i]].parentId == None
    {
      assert s.rootOrder[i] in Container(s, None);
    }
  }

  /** A container whose list and whose members' parent links are untouched stays exact. */
  lemma ContainerKept(s: State, t: State, c: Option<Id>)
    requires Linked(s) && Resolves(s, c) && Resolves(t, c)
    requires Container(t, c) == Container(s, c)
    requires forall y :: y in t.nodes && t.nodes[y].parentId == c ==> y in s.nodes && s.nodes[y].parentId == c
    requires forall y :: y in s.nodes && s.nodes[y].parentId == c ==> y in t.nodes && t.nodes[y].parentId == c
    ensures ContainerExact(t, c)
  {
    LinkedIsExact(s);
    assert ContainerExact(s, c);
  }

  // ---------------------------------------------------------------------------
  // A node moved to another container (indent, outdent, hoist, sink)
  // ---------------------------------------------------------------------------

  lemma RelocateLinked(s: State, t: State, id: Id, np: Option<Id>)
    requires Linked(s) && ParentResolves(s, id) && Resolves(s, np)
    requires s.nodes[id].parentId != np
    requires t.nodes.Keys == s.nodes.Keys && t.idCounter == s.idCounter
    requires forall y :: y in s.nodes ==> t.nodes[y].id == s.nodes[y].id
    requires t.nodes[id].parentId == np
    requires forall y :: y in s.nodes && y != id ==> t.nodes[y].parentId == s.nodes[y].parentId
    requires forall y :: y in s.nodes && Some(y) != s.nodes[id].parentId && Some(y) != np ==>
      t.nodes[y].children == s.nodes[y].children
    requires s.nodes[id].parentId.Some? && np.Some? ==> t.rootOrder == s.rootOrder
    requires NoDup(Container(t, s.nodes[id].parentId))
    requires forall y :: y in Container(t, s.nodes[id].parentId) <==> y in Container(s, s.nodes[id].parentId) && y != id
    requires NoDup(Container(t, np))
    requires forall y :: y in Container(t, np) <==> y in Container(s, np) || y == id
    ensures Linked(t)
  {
    LinkedIsExact(s);
    var op := s.nodes[id].parentId;
    forall x | x in t.nodes ensures NodeOk(t, x) {
      assert NodeOk(s, x);
    }
    forall c: Option<Id> | Resolves(t, c) ensures ContainerExact(t, c) {
      assert ContainerExact(s, c);
      if c != op && c != np {
        assert Container(t, c) == Container(s, c);
      }
      RelocatedContainer(s, t, id, np, c);
    }
    ExactIsLinked(t);
  }

  /** One container after the move: the old parent's list lost `id`, the new
      one gained it, and any other list is unchanged. */
  lemma RelocatedContainer(s: State, t: State, id: Id, np: Option<Id>, c: Option<Id>)
    requires id in s.nodes && s.nodes[id].parentId != np
    requires Resolves(s, c) && Resolves(t, c) && ContainerExact(s, c)
    requires t.nodes.Keys == s.nodes.Keys
    requires t.nodes[id].parentId == np
    requires forall y :: y in s.nodes && y != id ==> t.nodes[y].parentId == s.nodes[y].parentId
    requires c != s.nodes[id].parentId && c != np ==> Container(t, c) == Container(s, c)
    requires c == s.nodes[id].parentId ==>
      NoDup(Container(t, c)) && forall y :: y in Container(t, c) <==> y in Container(s, c) && y != id
    requires c == np ==> NoDup(Container(t, c)) && forall y :: y in Container(t, c) <==> y in Container(s, c) || y == id
    ensures ContainerExact(t, c)
  {
  }

  /** Moving `id` under a parent outside its own subtree keeps the forest acyclic,
      and the nodes under `id` stay exactly those that were. */
  lemma RelocateAcyclic(s: State, t: State, id: Id, np: Option<Id>)
    requires Acyclic(s) && id in s.nodes
    requires t.nodes.Keys == s.nodes.Keys
    requires t.nodes[id].parentId == np
    requires forall y :: y in s.nodes && y != id ==> t.nodes[y].parentId == s.nodes[y].parentId
    requires np.Some? ==> np.value in s.nodes && !Under(s, np.value, id)
    ensures Acyclic(t)
    ensures forall x :: x in s.nodes ==> (Under(t, x, id) <==> Under(s, x, id))
  {
    var d := Depth(s);
    var nd: nat := if np.Some? then d[np.value] + 1 else 0;
    forall x | x in s.nodes && Under(s, x, id) ensures d[id] <= d[x] {
      UnderDepth(s, x, id);
    }
    var rank: map<Id, nat> := map x | x in s.nodes :: if Under(s, x, id) then d[x] - d[id] + nd else d[x];
    forall x | x in rank ensures RankStep(t, rank, x) {
      DepthOfParent(s, x);
      if x != id {
        match s.nodes[x].parentId
        case None =>
        case Some(p) =>
          assert Under(s, x, id) <==> Under(s, p, id);
      }
    }
    assert DepthRanked(t, rank);
    SubtreeKept(s, t, id, np);
  }

  lemma {:induction false} SubtreeKept(s: State, t: State, id: Id, np: Option<Id>)
    requires Acyclic(s) && Acyclic(t) && id in s.nodes
    requires t.nodes.Keys == s.nodes.Keys
    requires t.nodes[id].parentId == np
    requires forall y :: y in s.nodes && y != id ==> t.nodes[y].parentId == s.nodes[y].parentId
    ensures forall x :: x in s.nodes ==> (Under(t, x, id) <==> Under(s, x, id))
  {
    forall x | x in s.nodes ensures Under(t, x, id) <==> Under(s, x, id) {
      UnderKept(s, t, id, np, x);
    }
  }

  lemma {:induction false} UnderKept(s: State, t: State, id: Id, np: Option<Id>, x: Id)
    requires Acyclic(s) && Acyclic(t) && id in s.nodes && x in s.nodes
    requires t.nodes.Keys == s.nodes.Keys
    requires t.nodes[id].parentId == np
    requires forall y :: y in s.nodes && y != id ==> t.nodes[y].parentId == s.nodes[y].parentId
    ensures Under(t, x, id) <==> Under(s, x, id)
    decreases Depth(s)[x]
  {
    if x != id {
      DepthOfParent(s, x);
      if s.nodes[x].parentId.Some? {
        UnderKept(s, t, id, np, s.nodes[x].parentId.value);
      }
    }
  }

  // ---------------------------------------------------------------------------
  // A container reordered (the swap of move up / move down)
  // ---------------------------------------------------------------------------

  lemma PermuteLinked(s: State, t: State, c: Option<Id>)
    requires Linked(s) && Resolves(s, c)
    requires t.nodes.Keys == s.nodes.Keys && t.idCounter == s.idCounter
    requires forall y :: y in s.nodes ==> t.nodes[y].id == s.nodes[y].id && t.nodes[y].parentId == s.nodes[y].parentId
    requires forall y :: y in s.nodes && Some(y) != c ==> t.nodes[y].children == s.nodes[y].children
    requires c.Some? ==> t.rootOrder == s.rootOrder
    requires NoDup(Container(t, c)) && forall y :: y in Container(t, c) <==> y in Container(s, c)
    ensures Linked(t)
  {
    LinkedIsExact(s);
    forall x | x in t.nodes ensures NodeOk(t, x) {
      assert NodeOk(s, x);
    }
    forall c': Option<Id> | Resolves(t, c') ensures ContainerExact(t, c') {
      assert ContainerExact(s, c');
      if c' != c {
        assert Container(t, c') == Container(s, c');
      }
    }
    ExactIsLinked(t);
  }

  /** Parent links alone decide acyclicity and descent. */
  lemma SameParentsAcyclic(s: State, t: State)
    requires Acyclic(s)
    requires t.nodes.Keys == s.nodes.Keys
    requires forall y :: y in s.nodes ==> t.nodes[y].parentId == s.nodes[y].parentId
    ensures Acyclic(t)
    ensures forall x, a :: x in s.nodes ==> (Under(t, x, a) <==> Under(s, x, a))
  {
    var d := Depth(s);
    forall x | x in d ensures RankStep(t, d, x) {
      DepthOfParent(s, x);
    }
    assert DepthRanked(t, d);
    forall x, a | x in s.nodes ensures Under(t, x, a) <==> Under(s, x, a) {
      UnderSameParents(s, t, x, a);
    }
  }

  lemma {:induction false} UnderSameParents(s: State, t: State, x: Id, a: Id)
    requires Acyclic(s) && Acyclic(t) && x in s.nodes
    requires t.nodes.Keys == s.nodes.Keys
    requires forall y :: y in s.nodes ==> t.nodes[y].parentId == s.nodes[y].parentId
    ensures Under(t, x, a) <==> Under(s, x, a)
    decreases Depth(s)[x]
  {
    if x != a {
      DepthOfParent(s, x);
      if s.nodes[x].parentId.Some? {
        UnderSameParents(s, t, s.nodes[x].parentId.value, a);
      }
    }
  }

  // ---------------------------------------------------------------------------
  // A leaf added (insert sibling, append child, a fresh root)
  // ---------------------------------------------------------------------------

  lemma AddLeafLinked(s: State, t: State, nid: Id, par: Option<Id>)
    requires Linked(s) && nid !in s.nodes && Resolves(s, par)
    requires t.nodes.Keys == s.nodes.Keys + {nid}
    requires t.idCounter >= s.idCounter && nid.serial <= t.idCounter
    requires t.nodes[nid].id == nid && t.nodes[nid].parentId == par && t.nodes[nid].children == []
    requires forall y :: y in s.nodes ==> t.nodes[y].id == s.nodes[y].id && t.nodes[y].parentId == s.nodes[y].parentId
    requires forall y :: y in s.nodes && Some(y) != par ==> t.nodes[y].children == s.nodes[y].children
    requires par.Some? ==> t.rootOrder == s.rootOrder
    requires NoDup(Container(t, par)) && forall y :: y in Container(t, par) <==> y in Container(s, par) || y == nid
    ensures Linked(t)
  {
    LinkedIsExact(s);
    forall x | x in t.nodes ensures NodeOk(t, x) {
      if x != nid { assert NodeOk(s, x); }
    }
    forall c: Option<Id> | Resolves(t, c) ensures ContainerExact(t, c) {
      if c == Some(nid) {
        forall y | y in s.nodes ensures s.nodes[y].parentId != Some(nid) {
          assert NodeOk(s, y);
        }
      } else {
        assert ContainerExact(s, c);
        if c != par {
          assert Container(t, c) == Container(s, c);
        }
      }
    }
    ExactIsLinked(t);
  }

  lemma AddLeafAcyclic(s: State, t: State, nid: Id, par: Option<Id>)
    requires Acyclic(s) && nid !in s.nodes && Resolves(s, par)
    requires t.nodes.Keys == s.nodes.Keys + {nid}
    requires t.nodes[nid].parentId == par
    requires forall y :: y in s.nodes ==> t.nodes[y].parentId == s.nodes[y].parentId
    ensures Acyclic(t)
  {
    var d := Depth(s);
    var rank := d[nid := if par.Some? then d[par.value] + 1 else 0];
    forall x | x in rank ensures RankStep(t, rank, x) {
      if x != nid {
        DepthOfParent(s, x);
      }
    }
    assert DepthRanked(t, rank);
  }

  // ---------------------------------------------------------------------------
  // A leaf removed (delete, and the absorbed sibling of a merge)
  // ---------------------------------------------------------------------------

  lemma RemoveLeafLinked(s: State, t: State, id: Id)
    requires Linked(s) && ParentResolves(s, id) && s.nodes[id].children == []
    requires s.nodes[id].parentId != Some(id)
    requires t.nodes.Keys == s.nodes.Keys - {id} && t.idCounter >= s.idCounter
    requires forall y :: y in t.nodes ==> t.nodes[y].id == s.nodes[y].id && t.nodes[y].parentId == s.nodes[y].parentId
    requires forall y :: y in t.nodes && Some(y) != s.nodes[id].parentId ==> t.nodes[y].children == s.nodes[y].children
    requires s.nodes[id].parentId.Some? ==> t.rootOrder == s.rootOrder
    requires NoDup(Container(t, s.nodes[id].parentId))
    requires forall y :: y in Container(t, s.nodes[id].parentId) <==> y in Container(s, s.nodes[id].parentId) && y != id
    ensures Linked(t)
  {
    LinkedIsExact(s);
    var par := s.nodes[id].parentId;
    forall x | x in t.nodes ensures NodeOk(t, x) {
      assert NodeOk(s, x);
    }
    assert ContainerExact(s, Some(id));
    forall c: Option<Id> | Resolves(t, c) ensures ContainerExact(t, c) {
      assert ContainerExact(s, c);
      if c != par {
        assert Container(t, c) == Container(s, c);
      }
    }
    ExactIsLinked(t);
  }

  lemma RemoveLeafAcyclic(s: State, t: State, id: Id)
    requires Linked(s) && Acyclic(s) && id in s.nodes && s.nodes[id].children == []
    requires t.nodes.Keys == s.nodes.Keys - {id}
    requires forall y :: y in t.nodes ==> t.nodes[y].parentId == s.nodes[y].parentId
    ensures Acyclic(t)
  {
    var d := Depth(s);
    var rank := map x | x in t.nodes :: d[x];
    assert ChildrenLinked(s, id);
    forall x | x in rank ensures RankStep(t, rank, x) {
      DepthOfParent(s, x);
      assert ParentLinked(s, x);
    }
    assert DepthRanked(t, rank);
  }

  // ---------------------------------------------------------------------------
  // The children of one node handed to a sibling (split, merge)
  // ---------------------------------------------------------------------------

  lemma TransferLinked(s: State, t: State, from: Id, to: Id)
    requires Linked(s) && from in s.nodes && to in s.nodes && from != to
    requires s.nodes[to].children == []
    requires t.nodes.Keys == s.nodes.Keys && t.idCounter >= s.idCounter && t.rootOrder == s.rootOrder
    requires forall y :: y in s.nodes ==> t.nodes[y].id == s.nodes[y].id
    requires t.nodes[to].children == s.nodes[from].children && t.nodes[from].children == []
    requires forall y :: y in s.nodes && y != from && y != to ==> t.nodes[y].children == s.nodes[y].children
    requires forall y :: y in s.nodes ==>
      t.nodes[y].parentId == if y in s.nodes[from].children then Some(to) else s.nodes[y].parentId
    ensures Linked(t)
  {
    LinkedIsExact(s);
    assert ContainerExact(s, Some(from));
    assert ContainerExact(s, Some(to));
    forall x | x in t.nodes ensures NodeOk(t, x) {
      assert NodeOk(s, x);
    }
    forall c: Option<Id> | Resolves(t, c) ensures ContainerExact(t, c) {
      assert ContainerExact(s, c);
      if c != Some(from) && c != Some(to) {
        assert Container(t, c) == Container(s, c);
      }
    }
    ExactIsLinked(t);
  }

  lemma TransferAcyclic(s: State, t: State, from: Id, to: Id)
    requires Linked(s) && Acyclic(s) && from in s.nodes && to in s.nodes
    requires s.nodes[from].parentId == s.nodes[to].parentId
    requires t.nodes.Keys == s.nodes.Keys
    requires forall y :: y in s.nodes ==>
      t.nodes[y].parentId == if y in s.nodes[from].children then Some(to) else s.nodes[y].parentId
    ensures Acyclic(t)
  {
    var d := Depth(s);
    assert ChildrenLinked(s, from);
    DepthOfParent(s, from);
    DepthOfParent(s, to);
    assert d[from] == d[to];
    forall x | x in d ensures RankStep(t, d, x) {
      DepthOfParent(s, x);
      if x in s.nodes[from].children {
        var i :| 0 <= i < |s.nodes[from].children| && s.nodes[from].children[i] == x;
      }
    }
    assert DepthRanked(t, d);
  }
}
