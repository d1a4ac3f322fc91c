/** The data model of the outline engine: bullets (nodes), the whole editor
    state, and the commands the engine dispatches on.

    Node ids in the engine are strings built from a counter ("n1", "n2", ... in
    the C++ engine, "j1", "j2", ... in the JavaScript ones).  Only the counter
    value matters for the behaviour, so an id is modelled by its serial number.
    The empty string, which the source uses as "no id" (a root's parentId, a
    missing neighbour, a command without a target), is modelled by `None`. */
module Types {

  datatype Option<T> = None | Some(value: T)

  /** A node id: the counter value it was generated from. */
  datatype Id = Id(serial: nat)

  /** A bullet.  `parentId == None` marks a root; `children` is in display order. */
  datatype Node = Node(id: Id, parentId: Option<Id>, text: string, children: seq<Id>)

  /** The whole editor state.  `rootOrder` lists the roots in display order;
      `scopeRootId == None` means the full forest is in scope; `idCounter` is
      the last counter value handed out. */
  datatype State = State(
    nodes: map<Id, Node>,
    rootOrder: seq<Id>,
    focusedId: Id,
    caret: int,
    scopeRootId: Option<Id>,
    idCounter: nat)

  datatype CommandType =
    | InsertEmptySiblingAfter
    | SplitAtCaret
    | Indent
    | Outdent
    | MoveUp
    | MoveDown
    | DeleteEmptyAtId
    | MergeNextSiblingIntoCurrent
    | SetFocus
    | SetScopeRoot

  /** A command.  `id == None` targets the focused node; `caret` is used by
      SplitAtCaret and SetFocus; `scopeRootId` by SetScopeRoot. */
  datatype Command = Command(kind: CommandType, id: Option<Id>, caret: int, scopeRootId: Option<Id>)

  /** The caret a command carries when the caller gives none. */
  const DefaultCaret: int := -1

  /** A command built with only its type and target, every other field at its default. */
  function MakeCommand(kind: CommandType, id: Option<Id>): (c: Command)
    ensures c.kind == kind && c.id == id
    ensures c.caret < 0 && c.scopeRootId == None
  {
    Command(kind, id, DefaultCaret, None)
  }

  /** The node a command acts on: its own id, or the focused node when it has none. */
  function Target(s: State, cmd: Command): (t: Id)
    ensures cmd.id == None ==> t == s.focusedId
    ensures cmd.id != None ==> t == cmd.id.value
  {
    match cmd.id
    case None => s.focusedId
    case Some(x) => x
  }
}
