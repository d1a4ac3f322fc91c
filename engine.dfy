/** The C++ reference engine (engine.cpp).  `apply_command` copies the state and
    runs one mutator on the copy, so the state is a value: each mutator is a
    method that takes the state and returns it changed, statement by statement
    as in the source, and is proved equal to the reference definition of its
    command.  `Step` is the whole command dispatch as a function; what it keeps
    invariant is proved in `StepValid`. */
module Engine {
  import opened Types
  import opened Vectors
  import opened Forest
  import opened Preorder
  import opened Edits
  import opened Preserve
  import opened StateUtils

  // ---------------------------------------------------------------------------
  // The dispatch
  // ---------------------------------------------------------------------------

  /** apply_command: the state after one command.  A command whose target is not
      a live node changes nothing. */
  function Step(s: State, cmd: Command): (t: State)
    requires Linked(s) && Acyclic(s)
  {
    var target := Target(s, cmd);
    if target !in s.nodes then s
    else match cmd.kind
      case InsertEmptySiblingAfter => InsertSiblingAfter(s, target)
      case SplitAtCaret => Split(s, target, SplitCaret(s, target, cmd.caret))
      case Indent => Edits.Indent(s, target)
      case Outdent => Edits.Outdent(s, target)
      case MoveUp => Edits.MoveUp(s, target)
      case MoveDown => Edits.MoveDown(s, target)
      case DeleteEmptyAtId => DeleteEmpty(s, target)
      case MergeNextSiblingIntoCurrent => Merge(s, target, true)
      case SetFocus => SetFocusLowerClamped(s, target, cmd.caret)
      case SetScopeRoot => SetScope(s, cmd.scopeRootId)
  }

  /** The commands after which the invariants can fail: a SetFocus whose caret
      lies past the end of the target's text (set_focus only lifts negative
      carets), and a SetScopeRoot naming a node that does not exist (the engine
      stores the scope unchecked). */
  predicate Breaks(s: State, cmd: Command) {
    var target := Target(s, cmd);
    && target in s.nodes
    && ((cmd.kind == SetFocus && cmd.caret > |s.nodes[target].text|)
        || (cmd.kind == SetScopeRoot && cmd.scopeRootId.Some? && cmd.scopeRootId.value !in s.nodes))
  }

  /** Every command keeps the engine's invariants, except exactly the ones
      `Breaks` names. */
  lemma StepValid(s: State, cmd: Command)
    requires Valid(s)
    ensures Valid(Step(s, cmd)) <==> !Breaks(s, cmd)
  {
    var target := Target(s, cmd);
    if target in s.nodes {
      match cmd.kind
      case SetFocus => SetFocusLowerClampedValid(s, target, cmd.caret);
      case SetScopeRoot => SetScopeValid(s, cmd.scopeRootId);
      case _ => EditStepValid(s, cmd);
    }
  }

  /** The commands other than SetFocus and SetScopeRoot always keep the invariants. */
  lemma EditStepValid(s: State, cmd: Command)
    requires Valid(s) && Target(s, cmd) in s.nodes
    requires cmd.kind != SetFocus && cmd.kind != SetScopeRoot
    ensures Valid(Step(s, cmd))
  {
    var target := Target(s, cmd);
    match cmd.kind
    case InsertEmptySiblingAfter => InsertSiblingAfterValid(s, target);
    case SplitAtCaret => SplitValid(s, target, SplitCaret(s, target, cmd.caret));
    case Indent => IndentValid(s, target);
    case Outdent => OutdentValid(s, target);
    case MoveUp => MoveUpValid(s, target);
    case MoveDown => MoveDownValid(s, target);
    case DeleteEmptyAtId => DeleteEmptyValid(s, target);
    case MergeNextSiblingIntoCurrent => MergeValid(s, target);
  }

  /** apply_command: clone, resolve the target, dispatch. */
  method ApplyCommand(s0: State, cmd: Command) returns (s: State)
    requires Linked(s0) && Acyclic(s0)
    requires cmd.kind.InsertEmptySiblingAfter? || cmd.kind.SplitAtCaret? ==> NextId(s0) !in s0.nodes
    ensures s == Step(s0, cmd)
  {
    s := s0;
    var target := if cmd.id == None then s.focusedId else cmd.id.value;
    if target !in s.nodes {
      return;
    }
    match cmd.kind {
      case InsertEmptySiblingAfter =>
        s := InsertSibling(s, target);
      case SplitAtCaret =>
        s := SplitNode(s, target, cmd.caret);
      case Indent =>
        s := IndentNode(s, target);
      case Outdent =>
        s := OutdentNode(s, target);
      case MoveUp =>
        s := MoveNodeUp(s, target);
      case MoveDown =>
        s := MoveNodeDown(s, target);
      case DeleteEmptyAtId =>
        s := DeleteEmptyNode(s, target);
      case MergeNextSiblingIntoCurrent =>
        s := MergeNextSibling(s, target);
      case SetFocus =>
        s := FocusAt(s, target, cmd.caret);
      case SetScopeRoot =>
        s := s.(scopeRootId := cmd.scopeRootId);
    }
  }

  // ---------------------------------------------------------------------------
  // The mutators
  // ---------------------------------------------------------------------------

  /** set_focus. */
  method FocusAt(s: State, id: Id, caret: int) returns (t: State)
    ensures t == SetFocusLowerClamped(s, id, caret)
  {
    t := s.(focusedId := id);
    t := t.(caret := if caret < 0 then 0 else caret);
  }

  /** ensure_min_one_root. */
  method EnsureRoot(s: State) returns (t: State)
    ensures t == EnsureMinOneRoot(s)
  {
    t := s;
    if |t.rootOrder| == 0 {
      var rid;
      rid, t := MakeNewId(t);
      t := t.(nodes := t.nodes[rid := Node(rid, None, "", [])]);
      t := t.(rootOrder := t.rootOrder + [rid]);
      t := t.(focusedId := rid, caret := 0);
    }
  }

  /** insert_empty_sibling_after. */
  method InsertSibling(s: State, id: Id) returns (t: State)
    requires Linked(s) && id in s.nodes && NextId(s) !in s.nodes
    ensures t == InsertSiblingAfter(s, id)
  {
    SiblingsOfLinked(s, id);
    var nid;
    nid, t := MakeNewId(s);
    var par := s.nodes[id].parentId;
    t := t.(nodes := t.nodes[nid := Node(nid, par, "", [])]);
    var sibs := Container(t, t.nodes[id].parentId);
    sibs := InsertIdAfter(sibs, id, nid);
    t := WithContainer(t, par, sibs);
    t := FocusAt(t, nid, 0);
  }

  /** split_at_caret: the caret is resolved, the children are handed to the new
      node one by one, then the node is cut and the new node placed after it. */
  method SplitNode(s: State, id: Id, caret: int) returns (t: State)
    requires Linked(s) && Acyclic(s) && id in s.nodes && NextId(s) !in s.nodes
    ensures t == Split(s, id, SplitCaret(s, id, caret))
  {
    var node := s.nodes[id];
    var c := caret;
    if c < 0 { c := s.caret; }
    if c < 0 { c := 0; }
    if c > |node.text| { c := |node.text|; }
    var nid;
    nid, t := MakeNewId(s);
    var moved := node.children;
    var nodes := t.nodes;
    assert ChildrenLinked(s, id);
    for j := 0 to |moved|
      invariant nodes.Keys == s.nodes.Keys
      invariant forall y :: y in s.nodes ==>
        nodes[y] == if y in moved[..j] then s.nodes[y].(parentId := Some(nid)) else s.nodes[y]
    {
      nodes := nodes[moved[j] := nodes[moved[j]].(parentId := Some(nid))];
    }
    assert moved[..|moved|] == moved;
    assert nodes == Reparented(s.nodes, moved, nid);
    nodes := nodes[id := nodes[id].(children := [], text := node.text[..c])];
    t := t.(nodes := nodes[nid := Node(nid, node.parentId, node.text[c..], moved)]);
    SplitPlace(s, id, c, t);
    var sibs := Container(t, t.nodes[id].parentId);
    sibs := InsertIdAfter(sibs, id, nid);
    t := WithContainer(t, node.parentId, sibs);
    t := FocusAt(t, nid, 0);
  }

  /** Once the children have moved, `id` still has its parent link and its list
      is unchanged. */
  lemma SplitPlace(s: State, id: Id, k: nat, t: State)
    requires Linked(s) && Acyclic(s) && id in s.nodes && k <= |s.nodes[id].text| && NextId(s) !in s.nodes
    requires var node := s.nodes[id];
      var nid := NextId(s);
      var moved := Reparented(s.nodes, node.children, nid);
      t == s.(idCounter := s.idCounter + 1,
              nodes := moved[id := moved[id].(children := [], text := node.text[..k])][nid := Node(nid, node.parentId, node.text[k..], node.children)])
    ensures ParentResolves(s, id) && id in SiblingsOf(s, id)
    ensures id in t.nodes && t.nodes[id].parentId == s.nodes[id].parentId
    ensures ParentResolves(t, id) && Container(t, t.nodes[id].parentId) == SiblingsOf(s, id)
  {
    SiblingsOfLinked(s, id);
    assert ChildrenLinked(s, id);
    DepthOfParent(s, id);
    var par := s.nodes[id].parentId;
    if par.Some? {
      DepthOfParent(s, par.value);
      assert par.value !in s.nodes[id].children;
    }
  }

  /** indent. */
  method IndentNode(s: State, id: Id) returns (t: State)
    requires Linked(s) && id in s.nodes
    ensures t == Edits.Indent(s, id)
  {
    t := s;
    var i := IndexInSiblingsOf(s, id);
    if i == 0 {
      return;
    }
    var prevId := SiblingsOf(s, id)[i - 1];
    var par := s.nodes[id].parentId;
    var cur := EraseId(Container(t, par), id);
    t := WithContainer(t, par, cur);
    t := t.(nodes := t.nodes[id := t.nodes[id].(parentId := Some(prevId))]);
    t := t.(nodes := t.nodes[prevId := t.nodes[prevId].(children := t.nodes[prevId].children + [id])]);
  }

  /** The hoist shared by outdent, move_up and move_down: out of the parent's
      children, into the grandparent's list (or the root order) right after
      (`after`) or right before the parent. */
  method HoistNode(s: State, id: Id, after: bool) returns (t: State)
    requires Linked(s) && Acyclic(s) && id in s.nodes && s.nodes[id].parentId.Some?
    ensures t == Hoist(s, id, after)
  {
    HoistFacts(s, id);
    var p := s.nodes[id].parentId.value;
    var gp := s.nodes[p].parentId;
    var pc := EraseId(s.nodes[p].children, id);
    t := s.(nodes := s.nodes[p := s.nodes[p].(children := pc)]);
    if gp == None {
      var ro;
      if after {
        ro := InsertIdAfter(t.rootOrder, p, id);
      } else {
        ro := InsertIdBefore(t.rootOrder, p, id);
      }
      t := t.(rootOrder := ro);
      t := t.(nodes := t.nodes[id := t.nodes[id].(parentId := None)]);
    } else {
      var g := gp.value;
      var gc;
      if after {
        gc := InsertIdAfter(t.nodes[g].children, p, id);
      } else {
        gc := InsertIdBefore(t.nodes[g].children, p, id);
      }
      t := t.(nodes := t.nodes[g := t.nodes[g].(children := gc)]);
      t := t.(nodes := t.nodes[id := t.nodes[id].(parentId := Some(g))]);
    }
  }

  /** outdent. */
  method OutdentNode(s: State, id: Id) returns (t: State)
    requires Linked(s) && Acyclic(s) && id in s.nodes
    ensures t == Edits.Outdent(s, id)
  {
    if s.nodes[id].parentId == None {
      return s;
    }
    t := HoistNode(s, id, true);
  }

  /** move_up. */
  method MoveNodeUp(s: State, id: Id) returns (t: State)
    requires Linked(s) && Acyclic(s) && id in s.nodes
    ensures t == Edits.MoveUp(s, id)
  {
    var i := IndexInSiblingsOf(s, id);
    var par := s.nodes[id].parentId;
    if i > 0 {
      var sibs := SiblingsOf(s, id);
      sibs := sibs[i - 1 := sibs[i]][i := sibs[i - 1]];
      return WithContainer(s, par, sibs);
    }
    if par == None {
      return s;
    }
    t := HoistNode(s, id, false);
  }

  /** move_down. */
  method MoveNodeDown(s: State, id: Id) returns (t: State)
    requires Linked(s) && Acyclic(s) && id in s.nodes
    ensures t == Edits.MoveDown(s, id)
  {
    var i := IndexInSiblingsOf(s, id);
    var par := s.nodes[id].parentId;
    var sibs := SiblingsOf(s, id);
    if i + 1 < |sibs| {
      sibs := sibs[i := sibs[i + 1]][i + 1 := sibs[i]];
      return WithContainer(s, par, sibs);
    }
    if par == None {
      return s;
    }
    t := HoistNode(s, id, true);
  }

  /** delete_empty_at_id. */
  method DeleteEmptyNode(s: State, id: Id) returns (t: State)
    requires Linked(s) && Acyclic(s)
    ensures t == DeleteEmpty(s, id)
  {
    t := s;
    if id !in s.nodes || |s.nodes[id].text| != 0 || |s.nodes[id].children| != 0 {
      return;
    }
    var prev := PrevVisibleId(s, id);
    var next := NextVisibleId(s, id);
    var node := s.nodes[id];
    if node.parentId == None && |s.rootOrder| == 1 {
      t := t.(nodes := t.nodes[id := node.(text := "")]);
      t := t.(focusedId := node.id, caret := 0);
      return;
    }
    SiblingsOfLinked(s, id);
    var sibs := EraseId(SiblingsOf(s, id), id);
    t := WithContainer(t, node.parentId, sibs);
    t := t.(nodes := t.nodes - {id});
    assert t == RemoveNode(s, id);
    if t.scopeRootId.Some? && t.scopeRootId == Some(id) {
      t := t.(scopeRootId := None);
    }
    t := EnsureRoot(t);
    var newFocus := FallbackFocus(prev, next, t.rootOrder);
    if newFocus.Some? {
      DeleteFocusLive(s, id, prev, next, t);
      t := FocusAt(t, newFocus.value, |t.nodes[newFocus.value].text|);
    }
  }

  /** merge_next_sibling_into_current: text and children appended, the absorbed
      children re-pointed one by one, the next sibling removed, and a scope on it
      cleared. */
  method MergeNextSibling(s: State, id: Id) returns (t: State)
    requires Linked(s) && Acyclic(s) && id in s.nodes
    ensures t == Merge(s, id, true)
  {
    t := s;
    var node := s.nodes[id];
    if |node.children| != 0 {
      return;
    }
    var i := IndexInSiblingsOf(s, id);
    var sibs := SiblingsOf(s, id);
    if i + 1 >= |sibs| {
      return;
    }
    var nextId := sibs[i + 1];
    assert NextSibling(s, id) == Some(nextId);
    MergeTarget(s, id);
    assert ChildrenLinked(s, nextId);
    var m := s.nodes[nextId];
    var joined := node.(text := node.text + m.text, children := node.children + m.children);
    var start := s.nodes[id := joined];
    var nodes := start;
    for j := 0 to |m.children|
      invariant nodes.Keys == start.Keys
      invariant forall y :: y in start ==>
        nodes[y] == if y in m.children[..j] then start[y].(parentId := Some(id)) else start[y]
    {
      nodes := nodes[m.children[j] := nodes[m.children[j]].(parentId := Some(id))];
    }
    assert m.children[..|m.children|] == m.children;
    assert nodes == Reparented(start, m.children, id);
    t := t.(nodes := nodes);
    assert t.nodes[id].parentId == node.parentId;
    var rest := EraseId(Container(t, t.nodes[id].parentId), nextId);
    t := WithContainer(t, node.parentId, rest);
    t := t.(nodes := t.nodes - {nextId});
    if t.scopeRootId.Some? && t.scopeRootId == Some(nextId) {
      t := t.(scopeRootId := None);
    }
    t := FocusAt(t, id, |t.nodes[id].text|);
  }
}
