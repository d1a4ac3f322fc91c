/** The well-formedness of an outline state and the queries every structural
    edit goes through: the sibling list a node lives in, its position there,
    its previous and next sibling, fresh ids, the initial state, and the
    chain of ancestors of a node. */
module Forest {
  import opened Types
  import opened Vectors

  // ---------------------------------------------------------------------------
  // Well-formedness: the invariants the engine's tests check after every
  // command (engine/tests/test_engine.cpp:35-93), plus two the tests leave
  // unchecked: every node is stored under its own id, and the counter is past
  // every id in use (`Counted`), which is what makes the next id drawn new.
  // ---------------------------------------------------------------------------

  /** Every root is listed once, is a live node and has no parent. */
  ghost predicate RootsListed(s: State) {
    && NoDup(s.rootOrder)
    && forall i :: 0 <= i < |s.rootOrder| ==>
         s.rootOrder[i] in s.nodes && s.nodes[s.rootOrder[i]].parentId == None
  }

  /** The children of `p` are distinct live nodes whose parent link is `p`. */
  ghost predicate ChildrenLinked(s: State, p: Id)
    requires p in s.nodes
  {
    && NoDup(s.nodes[p].children)
    && forall i :: 0 <= i < |s.nodes[p].children| ==>
         s.nodes[p].children[i] in s.nodes && s.nodes[s.nodes[p].children[i]].parentId == Some(p)
  }

  /** `x` is stored under its own id and sits in the container its parent link
      names: `rootOrder` for a root, else its parent's children. */
  ghost predicate ParentLinked(s: State, x: Id)
    requires x in s.nodes
  {
    && s.nodes[x].id == x
    && match s.nodes[x].parentId
       case None => x in s.rootOrder
       case Some(p) => p in s.nodes && x in s.nodes[p].children
  }

  ghost predicate Linked(s: State) {
    && RootsListed(s)
    && (forall p {:trigger ChildrenLinked(s, p)} :: p in s.nodes ==> ChildrenLinked(s, p))
    && (forall x {:trigger ParentLinked(s, x)} :: x in s.nodes ==> ParentLinked(s, x))
  }

  /** Every id in use was issued by the counter, so the next id drawn is new. */
  ghost predicate Counted(s: State) {
    forall x :: x in s.nodes ==> x.serial <= s.idCounter
  }

  /** `x` has rank 0 if it is a root, one more than its parent's otherwise. */
  ghost predicate RankStep(s: State, rank: map<Id, nat>, x: Id)
    requires x in rank && x in s.nodes
  {
    match s.nodes[x].parentId
    case None => rank[x] == 0
    case Some(p) => p in rank && rank[x] == rank[p] + 1
  }

  /** `rank` gives every node its depth. */
  ghost predicate DepthRanked(s: State, rank: map<Id, nat>) {
    && rank.Keys == s.nodes.Keys
    && forall x {:trigger RankStep(s, rank, x)} :: x in rank ==> RankStep(s, rank, x)
  }

  /** Following parent links from any node reaches a root: the nodes have depths. */
  ghost predicate Acyclic(s: State) {
    exists rank :: DepthRanked(s, rank)
  }

  /** The tree shape: at least one root, every id in exactly one container with
      matching parent links, and no cycles (so every node is reachable from a root). */
  ghost predicate Structural(s: State) {
    |s.rootOrder| > 0 && Linked(s) && Counted(s) && Acyclic(s)
  }

  /** The focused node is live and the caret lies within its text. */
  ghost predicate FocusValid(s: State) {
    s.focusedId in s.nodes && 0 <= s.caret <= |s.nodes[s.focusedId].text|
  }

  /** A scope, when set, names a live node. */
  ghost predicate ScopeLive(s: State) {
    s.scopeRootId.Some? ==> s.scopeRootId.value in s.nodes
  }

  /** The invariants the C++ engine's tests check after each command, together
      with the key/id agreement and the counter bound `Counted`. */
  ghost predicate Valid(s: State) {
    Structural(s) && FocusValid(s) && ScopeLive(s)
  }

  // ---------------------------------------------------------------------------
  // Depth and descendants
  // ---------------------------------------------------------------------------

  ghost function Depth(s: State): (d: map<Id, nat>)
    requires Acyclic(s)
    ensures DepthRanked(s, d)
  {
    var r :| DepthRanked(s, r); r
  }

  /** `x` is `a` or a descendant of `a`. */
  ghost predicate Under(s: State, x: Id, a: Id)
    requires Acyclic(s) && x in s.nodes
    decreases Depth(s)[x]
  {
    x == a ||
    match s.nodes[x].parentId
    case None => false
    case Some(p) => assert RankStep(s, Depth(s), x); Under(s, p, a)
  }

  /** A parent is one level shallower than its child. */
  lemma DepthOfParent(s: State, x: Id)
    requires Acyclic(s) && x in s.nodes
    ensures s.nodes[x].parentId == None ==> Depth(s)[x] == 0
    ensures s.nodes[x].parentId.Some? ==>
      s.nodes[x].parentId.value in s.nodes && Depth(s)[x] == Depth(s)[s.nodes[x].parentId.value] + 1
  {
    assert RankStep(s, Depth(s), x);
  }

  /** The nodes of the subtree rooted at `a`. */
  ghost function Below(s: State, a: Id): set<Id>
    requires Acyclic(s)
  {
    set y | y in s.nodes && Under(s, y, a)
  }

  lemma {:induction false} UnderDepth(s: State, x: Id, a: Id)
    requires Acyclic(s) && x in s.nodes && Under(s, x, a)
    ensures a in s.nodes && Depth(s)[a] <= Depth(s)[x]
    ensures Depth(s)[a] == Depth(s)[x] ==> x == a
    decreases Depth(s)[x]
  {
    DepthOfParent(s, x);
    if x != a {
      var p := s.nodes[x].parentId.value;
      UnderDepth(s, p, a);
    }
  }

  lemma {:induction false} UnderTrans(s: State, x: Id, b: Id, a: Id)
    requires Acyclic(s) && x in s.nodes && b in s.nodes
    requires Under(s, x, b) && Under(s, b, a)
    ensures Under(s, x, a)
    decreases Depth(s)[x]
  {
    if x != b {
      DepthOfParent(s, x);
      UnderTrans(s, s.nodes[x].parentId.value, b, a);
    }
  }

  /** Two ancestors of the same node at the same depth are the same node. */
  lemma {:induction false} UnderSameDepth(s: State, x: Id, a: Id, b: Id)
    requires Acyclic(s) && x in s.nodes && Under(s, x, a) && Under(s, x, b)
    requires a in s.nodes && b in s.nodes && Depth(s)[a] == Depth(s)[b]
    ensures a == b
    decreases Depth(s)[x]
  {
    UnderDepth(s, x, a);
    UnderDepth(s, x, b);
    if x != a && x != b {
      DepthOfParent(s, x);
      UnderSameDepth(s, s.nodes[x].parentId.value, a, b);
    }
  }

  /** A child's subtree is a strict part of its parent's. */
  lemma BelowShrinks(s: State, x: Id, c: Id)
    requires Acyclic(s) && x in s.nodes && c in s.nodes && s.nodes[c].parentId == Some(x)
    ensures Below(s, c) < Below(s, x)
  {
    forall y | y in Below(s, c) ensures y in Below(s, x) {
      assert Under(s, c, x);
      UnderTrans(s, y, c, x);
    }
    assert x in Below(s, x);
    DepthOfParent(s, c);
    if x in Below(s, c) {
      UnderDepth(s, x, c);
    }
  }

  // ---------------------------------------------------------------------------
  // Sibling lists (siblings_ref / siblings_cref and the sibling queries)
  // ---------------------------------------------------------------------------

  /** The id's parent link is empty or names a live node. */
  ghost predicate ParentResolves(s: State, id: Id) {
    id in s.nodes && (s.nodes[id].parentId.Some? ==> s.nodes[id].parentId.value in s.nodes)
  }

  /** The list a node with parent link `parent` lives in: `rootOrder` or the parent's children. */
  function Container(s: State, parent: Option<Id>): seq<Id>
    requires parent.Some? ==> parent.value in s.nodes
  {
    match parent
    case None => s.rootOrder
    case Some(p) => s.nodes[p].children
  }

  /** The state with that list replaced (a write through the reference siblings_ref returns). */
  function WithContainer(s: State, parent: Option<Id>, v: seq<Id>): (t: State)
    requires parent.Some? ==> parent.value in s.nodes
    ensures t.nodes.Keys == s.nodes.Keys
    ensures Container(t, parent) == v
    ensures forall y :: y in s.nodes && Some(y) != parent ==> t.nodes[y] == s.nodes[y]
    ensures parent.Some? ==> t.nodes[parent.value] == s.nodes[parent.value].(children := v)
    ensures parent.Some? ==> t.rootOrder == s.rootOrder
    ensures t.focusedId == s.focusedId && t.caret == s.caret
    ensures t.scopeRootId == s.scopeRootId && t.idCounter == s.idCounter
  {
    match parent
    case None => s.(rootOrder := v)
    case Some(p) => s.(nodes := s.nodes[p := s.nodes[p].(children := v)])
  }

  /** siblings_cref: the list holding `id`.  In a linked state it is exactly the
      set of nodes that share `id`'s parent, and contains `id` once. */
  function SiblingsOf(s: State, id: Id): (sibs: seq<Id>)
    requires ParentResolves(s, id)
    ensures sibs == Container(s, s.nodes[id].parentId)
    ensures Linked(s) ==> NoDup(sibs) && id in sibs
    ensures Linked(s) ==> forall y :: y in sibs <==> y in s.nodes && s.nodes[y].parentId == s.nodes[id].parentId
  {
    SiblingsCharacterised(s, id);
    Container(s, s.nodes[id].parentId)
  }

  lemma SiblingsCharacterised(s: State, id: Id)
    requires ParentResolves(s, id)
    ensures Linked(s) ==>
      var sibs := Container(s, s.nodes[id].parentId);
      NoDup(sibs) && id in sibs && forall y :: y in sibs <==> y in s.nodes && s.nodes[y].parentId == s.nodes[id].parentId
  {
    if Linked(s) {
      SiblingsOfLinked(s, id);
    }
  }

  lemma SiblingsOfLinked(s: State, id: Id)
    requires Linked(s) && id in s.nodes
    ensures ParentResolves(s, id)
    ensures var sibs := Container(s, s.nodes[id].parentId);
      NoDup(sibs) && id in sibs && forall y :: y in sibs <==> y in s.nodes && s.nodes[y].parentId == s.nodes[id].parentId
  {
    assert ParentLinked(s, id);
    var par := s.nodes[id].parentId;
    var sibs := Container(s, par);
    forall y ensures y in sibs <==> y in s.nodes && s.nodes[y].parentId == par {
      if y in sibs {
        var i :| 0 <= i < |sibs| && sibs[i] == y;
        if par.Some? { assert ChildrenLinked(s, par.value); }
      }
      if y in s.nodes && s.nodes[y].parentId == par {
        assert ParentLinked(s, y);
      }
    }
    if par.Some? { assert ChildrenLinked(s, par.value); }
  }

  /** index_in_siblings: where `id` sits in its own sibling list. */
  function IndexInSiblings(s: State, id: Id): (i: nat)
    requires ParentResolves(s, id) && id in SiblingsOf(s, id)
    ensures i < |SiblingsOf(s, id)| && SiblingsOf(s, id)[i] == id
    ensures id !in SiblingsOf(s, id)[..i]
  {
    IndexOf(SiblingsOf(s, id), id)
  }

  /** prev_sibling_id: the sibling just before `id`, if any. */
  function PrevSibling(s: State, id: Id): (r: Option<Id>)
    requires ParentResolves(s, id) && id in SiblingsOf(s, id)
    ensures r == None <==> IndexInSiblings(s, id) == 0
    ensures r.Some? ==> SiblingsOf(s, id)[IndexInSiblings(s, id) - 1] == r.value && r.value != id
    ensures Linked(s) && r.Some? ==> r.value in s.nodes && s.nodes[r.value].parentId == s.nodes[id].parentId
  {
    var sibs := SiblingsOf(s, id);
    var i := IndexInSiblings(s, id);
    if i == 0 then None
    else
      assert sibs[i - 1] in sibs[..i];
      Some(sibs[i - 1])
  }

  /** next_sibling_id: the sibling just after `id`, if any. */
  function NextSibling(s: State, id: Id): (r: Option<Id>)
    requires ParentResolves(s, id) && id in SiblingsOf(s, id)
    ensures r == None <==> IndexInSiblings(s, id) + 1 == |SiblingsOf(s, id)|
    ensures r.Some? ==> SiblingsOf(s, id)[IndexInSiblings(s, id) + 1] == r.value
    ensures Linked(s) && r.Some? ==> r.value != id && r.value in s.nodes && s.nodes[r.value].parentId == s.nodes[id].parentId
  {
    var sibs := SiblingsOf(s, id);
    var i := IndexInSiblings(s, id);
    if i + 1 >= |sibs| then None
    else Some(sibs[i + 1])
  }

  /** The previous and next sibling are inverse to each other. */
  lemma {:induction false} PrevNextSiblingInverse(s: State, id: Id)
    requires Linked(s) && id in s.nodes
    ensures ParentResolves(s, id) && id in SiblingsOf(s, id)
    ensures PrevSibling(s, id).Some? ==>
      var p := PrevSibling(s, id).value;
      ParentResolves(s, p) && id in SiblingsOf(s, p) && NextSibling(s, p) == Some(id)
    ensures NextSibling(s, id).Some? ==>
      var n := NextSibling(s, id).value;
      ParentResolves(s, n) && n in SiblingsOf(s, n) && PrevSibling(s, n) == Some(id)
  {
    SiblingsOfLinked(s, id);
    var sibs := SiblingsOf(s, id);
    var i := IndexInSiblings(s, id);
    if i > 0 {
      var p := sibs[i - 1];
      SiblingsOfLinked(s, p);
      assert SiblingsOf(s, p) == sibs;
      IndexOfUnique(sibs, i - 1);
    }
    if i + 1 < |sibs| {
      var n := sibs[i + 1];
      SiblingsOfLinked(s, n);
      assert SiblingsOf(s, n) == sibs;
      IndexOfUnique(sibs, i + 1);
    }
  }

  // ---------------------------------------------------------------------------
  // Ids and the initial state
  // ---------------------------------------------------------------------------

  /** The id make_new_id hands out next. */
  function NextId(s: State): Id {
    Id(s.idCounter + 1)
  }

  /** make_new_id: bumps the counter and returns the id built from it.  In a
      state whose ids all came from the counter that id is not in use. */
  method MakeNewId(s: State) returns (id: Id, t: State)
    ensures t == s.(idCounter := s.idCounter + 1)
    ensures id == NextId(s) && id.serial == t.idCounter
    ensures Counted(s) ==> id !in s.nodes
  {
    t := s.(idCounter := s.idCounter + 1);
    id := Id(t.idCounter);
    if Counted(s) {
      NextIdFresh(s);
    }
  }

  /** Ids are never reused: the next id is newer than every id in the state. */
  lemma NextIdFresh(s: State)
    requires Counted(s)
    ensures NextId(s) !in s.nodes
    ensures forall x :: x in s.nodes ==> x.serial < NextId(s).serial
  {
  }

  /** A forest of one empty root, the id drawn from counter value `n`, focused
      at caret 0 with no scope. */
  function FreshRoot(n: nat): (s: State)
    ensures Valid(s)
    ensures s.nodes.Keys == {Id(n)} && s.rootOrder == [Id(n)]
    ensures s.nodes[Id(n)].text == "" && s.nodes[Id(n)].children == []
    ensures s.focusedId == Id(n) && s.caret == 0 && s.scopeRootId == None && s.idCounter == n
  {
    var root := Node(Id(n), None, "", []);
    var s := State(map[Id(n) := root], [Id(n)], Id(n), 0, None, n);
    assert RankStep(s, map[Id(n) := 0], Id(n));
    assert DepthRanked(s, map[Id(n) := 0]);
    assert ParentLinked(s, Id(n));
    assert ChildrenLinked(s, Id(n));
    s
  }

  /** initial_state: one empty root "n1", focused at caret 0, counter at 1. */
  function InitialState(): (s: State)
    ensures Valid(s)
    ensures s.nodes.Keys == {Id(1)} && s.rootOrder == [Id(1)]
    ensures s.nodes[Id(1)].text == "" && s.nodes[Id(1)].children == []
    ensures s.focusedId == Id(1) && s.caret == 0 && s.scopeRootId == None && s.idCounter == 1
  {
    FreshRoot(1)
  }

  // ---------------------------------------------------------------------------
  // ancestors_to_root
  // ---------------------------------------------------------------------------

  function Reversed(v: seq<Id>): (r: seq<Id>)
    ensures |r| == |v| && forall i :: 0 <= i < |v| ==> r[i] == v[|v| - 1 - i]
  {
    if v == [] then [] else Reversed(v[1..]) + [v[0]]
  }

  /** ancestors_to_root: the chain from a root down to `id`, each element the parent
      of the next; empty for an unknown id. */
  method AncestorsToRoot(s: State, id: Id) returns (chain: seq<Id>)
    requires Acyclic(s)
    ensures id !in s.nodes ==> chain == []
    ensures id in s.nodes ==>
      && |chain| > 0 && chain[|chain| - 1] == id
      && chain[0] in s.nodes && s.nodes[chain[0]].parentId == None
      && forall i :: 0 < i < |chain| ==> chain[i] in s.nodes && s.nodes[chain[i]].parentId == Some(chain[i - 1])
  {
    if id !in s.nodes {
      return [];
    }
    var rev: seq<Id> := [];
    var cur := id;
    ghost var depth := Depth(s);
    // The source loops while `cur` is non-empty and leaves through the break
    // at a root; `cur` here is never empty.
    while true
      invariant cur in s.nodes
      invariant forall k :: 0 <= k < |rev| ==> rev[k] in s.nodes
      invariant rev == [] ==> cur == id
      invariant rev != [] ==> rev[0] == id && s.nodes[rev[|rev| - 1]].parentId == Some(cur)
      invariant forall k :: 0 <= k < |rev| - 1 ==> s.nodes[rev[k]].parentId == Some(rev[k + 1])
      decreases depth[cur]
    {
      rev := rev + [cur];
      var node := s.nodes[cur];
      if node.parentId == None {
        break;
      }
      DepthOfParent(s, cur);
      cur := node.parentId.value;
    }
    chain := Reversed(rev);
    ReversedChain(s, rev);
  }

  lemma ReversedChain(s: State, rev: seq<Id>)
    requires rev != [] && forall k :: 0 <= k < |rev| ==> rev[k] in s.nodes
    requires s.nodes[rev[|rev| - 1]].parentId == None
    requires forall k :: 0 <= k < |rev| - 1 ==> s.nodes[rev[k]].parentId == Some(rev[k + 1])
    ensures var chain := Reversed(rev);
      && chain[|chain| - 1] == rev[0]
      && chain[0] in s.nodes && s.nodes[chain[0]].parentId == None
      && forall i :: 0 < i < |chain| ==> chain[i] in s.nodes && s.nodes[chain[i]].parentId == Some(chain[i - 1])
  {
    var chain := Reversed(rev);
    forall i | 0 < i < |chain| ensures chain[i] in s.nodes && s.nodes[chain[i]].parentId == Some(chain[i - 1]) {
      var k := |rev| - 1 - i;
      assert chain[i] == rev[k] && chain[i - 1] == rev[k + 1];
    }
  }
}
