# Outline tree engine, modelled in Dafny

The bullet editor keeps an outline as a forest of text "bullets". The state is:

- a node table `id -> Node(parentId, text, children)`;
- the ordered `rootOrder`;
- the focused node and its caret;
- an optional drill-down scope (`scopeRootId`);
- an id counter.

Structural commands change that state: insert an empty sibling, split at the caret, indent, outdent, move up and move down (a swap, or a hoist one level up at the ends of a sibling list), delete an empty leaf with a focus fallback, merge the next sibling, set focus and set scope. Navigation follows the "visible order", a pre-order walk of the forest or of the scoped subtree.

The repository holds three implementations of the engine, and all three are modelled here:

- **The C++ engine** (`engine/src/engine.cpp`, `engine/src/state_utils.cpp`, `engine/include/bullet_engine/types.hpp`). `apply_command` copies the state and mutates the copy, so the state is a value (`Types.State`). Each mutator is a method that changes it statement by statement (module `Engine`). The list helpers and the walk are loops and recursions (module `StateUtils`).
- **The browser demo** (`web/demo/demo.js`, lines 4-97). The state is a mutable object (`JsState.StateObject`, its fields reassigned in place). The module-level functions and the counter closure behind `newId` are module `Demo`.
- **The `BulletCanvas` class** (`packages/bullet-canvas-dom/src/core.js`, lines 20-53). It is `Canvas.BulletCanvas`, a class that holds a state object and the per-instance counter `_idc`.

Every command has one reference definition, a function from state to state (module `Edits`). Where the three implementations differ, the reference definition has one variant per behaviour. Every implementation method is proved equal to the reference definition applied to the state before the call. The C++ methods state `t == Edits.X(s)`. The JavaScript methods state `View == Edits.X(old(View))`, where the view reads the object's fields and the counter. What the commands promise is proved once, about the reference definitions:

- `Preserve`: each command keeps the well-formedness invariants (`Forest.Valid`). These are the checks the engine's tests run after every command, plus two more that the tests do not check. Every node is stored under its own id. The counter is at or past every id in use (`Forest.Counted`), which is what makes the next id drawn a new one.
- `Laws`: what each command does node by node, and the round trips the tests rely on.

Ids are modelled by their counter value (`Id(serial)`). The empty string that the sources use for "no id" is modelled as `None`.

The implementations differ in these places:

| behaviour | C++ | demo.js | core.js |
|---|---|---|---|
| caret in set focus | only a negative caret is lifted to 0 (`SetFocusLowerClamped`) | clamped to the text (`SetFocusClamped`) | stored as given (`SetFocusUnclamped`) |
| delete of the scope root | removed, and the scope is cleared (`DeleteEmpty`) | kept, its text emptied (`DeleteEmptyGuarded`; sole root checked first) | same result as demo.js (scope root checked first) |
| merge absorbing the scope root | scope cleared (`Merge(.., true)`) | scope left dangling (`Merge(.., false)`) | as demo.js |
| scope naming a missing node | empty visible order (`VisibleOrder`) | whole forest (`VisibleOrderFallback`) | as demo.js |
| id counter | in the state | module closure (`Demo.IdSource`) | instance field `_idc` |

The repository documents several things that the code does not do. The documentation says:

- the caret is always clamped into the focused text;
- a scoped root is never deleted;
- ids never collide.

The C++ code does not clamp the caret from above, and its delete removes a scoped root. `BulletCanvas` can hand out an id that is already in use (see Findings). The model follows the code in each case. `Engine.StepValid` states exactly which commands break the invariants.

## Model

| member | source | states |
|---|---|---|
| Types.MakeCommand | engine/include/bullet_engine/types.hpp:40-47 | a command built from a type and a target has a negative caret (the default -1) and no scope |
| Types.Target | engine/src/engine.cpp:216 | a command with no id acts on the focused node, otherwise on its own id |
| Vectors.IndexOf | engine/src/state_utils.cpp:30 | the position found holds `x`, and no earlier position does |
| Vectors.IndexOfUnique | engine/src/state_utils.cpp:28-33 | in a list without duplicates, the position found for the element at `k` is `k` |
| Vectors.InsertAt | web/demo/demo.js:40 | `splice(k, 0, x)`: `x` sits at `k`, the elements before and after are kept in order, the length grows by one, and no duplicate is introduced |
| Vectors.RemoveAt | web/demo/demo.js:84 | `splice(k, 1)`: the element at `k` is gone, the others are kept in order, and the length shrinks by one |
| Vectors.InsertAfter | engine/src/state_utils.cpp:40-44 | the newcomer sits immediately after the first `existing`, the length grows by one, the members are the old ones plus the newcomer, and no duplicate is introduced |
| Vectors.InsertBefore | engine/src/state_utils.cpp:46-50 | the newcomer sits immediately before the first `existing`, with the same length, membership and no-duplicate facts |
| Vectors.EraseFrom | engine/src/state_utils.cpp:52-56 | the length shrinks by one, and in a list without duplicates exactly `x` is gone |
| Vectors.InsertAfterUndone | engine/src/state_utils.cpp:40-44 | removing what insert_after placed gives the list back |
| Vectors.InsertBeforeUndone | engine/src/state_utils.cpp:46-50 | removing what insert_before placed gives the list back |
| Vectors.EraseFromUndone | engine/src/state_utils.cpp:52-56 | erase_from removes the first occurrence, and putting it back at that position restores the list |
| Vectors.EraseInsertedAfter | engine/src/state_utils.cpp:40-56 | erase_from undoes insert_after of an element that was not in the list |
| Vectors.InsertAfterErased | engine/src/state_utils.cpp:40-56 | erasing the element at `i` and inserting it back after element `i-1` restores the list |
| Vectors.EraseAppended | engine/src/engine.cpp:85 | erasing an element that was just pushed back restores the list |
| Vectors.Swap | engine/src/engine.cpp:112 | std::swap of two positions exchanges them, keeps every other position, and is a permutation |
| Vectors.SwapNoDup | engine/src/engine.cpp:112 | a swap keeps a list duplicate-free and keeps its members |
| Vectors.SwapTwice | engine/src/engine.cpp:137 | swapping the same two positions again gives the list back |
| Forest.WithContainer | engine/src/state_utils.cpp:8-16 | a write through siblings_ref replaces that one list and leaves every other node, the focus, the scope and the counter alone |
| Forest.SiblingsOf | engine/src/state_utils.cpp:18-26 | the list is `rootOrder` for a root and the parent's children otherwise; in a linked state it holds `id` once and is exactly the set of nodes that share `id`'s parent |
| Forest.SiblingsOfLinked | engine/src/state_utils.cpp:18-26 | in a linked state the parent of any node resolves, and its sibling list is duplicate-free, holds it, and holds exactly the nodes with the same parent |
| Forest.IndexInSiblings | engine/src/state_utils.cpp:28-33 | the position holds `id`, and no earlier position does |
| Forest.PrevSibling | engine/src/engine.cpp:18-23 | empty exactly at position 0; otherwise the element just before `id`, a different node with the same parent |
| Forest.NextSibling | engine/src/engine.cpp:25-30 | empty exactly at the last position; otherwise the element just after `id`, a different node with the same parent |
| Forest.PrevNextSiblingInverse | engine/src/engine.cpp:18-30 | the next sibling of the previous sibling is the node itself, and the other way round |
| Forest.MakeNewId | engine/src/state_utils.cpp:35-38 | the counter goes up by one, the id is built from the new value, and when every id in use came from the counter it is not in use |
| Forest.NextIdFresh | engine/src/state_utils.cpp:35-38 | when every id in use came from the counter, the next id is newer than all of them, so it is never reused |
| Forest.Linked | engine/tests/test_engine.cpp:38-84 | the tests' container checks: roots listed once and parentless; children listed once and linked back; every node stored under its own id and listed in the container its parent link names |
| Forest.Acyclic | engine/tests/test_engine.cpp:73-74 | every node has a depth one more than its parent's, so following parent links from any node ends at a root, which is the tests' check that no node is orphaned |
| Forest.Counted | engine/src/state_utils.cpp:35-38 | every id in use was drawn from the counter; the tests do not check it |
| Forest.Valid | engine/tests/test_engine.cpp:35-93 | at least one root, `Linked`, `Acyclic`, a live focus with the caret inside its text, and a live scope when one is set, plus `Counted` |
| Forest.Under | engine/src/state_utils.cpp:58-64 | `x` is `a` or lies below it, following parent links; the subtree the walk from `a` lists |
| Forest.FreshRoot | web/demo/demo.js:6-15 | one empty root with the drawn id, focused at caret 0, no scope, and the state is valid |
| Forest.InitialState | engine/src/state_utils.cpp:94-104 | exactly one empty root n1, focused at caret 0, no scope, counter at 1, and the state is valid |
| Forest.AncestorsToRoot | engine/src/state_utils.cpp:106-120 | empty for an unknown id; otherwise a chain that starts at a root, ends at `id`, and in which each element is the parent of the next |
| Forest.ReversedChain | engine/src/state_utils.cpp:117-119 | reversing the upward walk gives a chain from the root down to `id` |
| Preorder.VisibleOrderFallback | web/demo/demo.js:17-22 | the JavaScript visible order equals the C++ one whenever the scope is live |
| Preorder.PrevIn | engine/src/state_utils.cpp:80-85 | empty when `id` is absent or first; otherwise the element just before it |
| Preorder.NextIn | engine/src/state_utils.cpp:87-92 | empty when `id` is absent or last; otherwise the element just after it |
| Preorder.PrevNextInverse | engine/src/state_utils.cpp:80-92 | in a list without duplicates, previous and next undo each other |
| Preorder.PrevVisible | engine/src/state_utils.cpp:80-85 | the previous visible node is live, differs from `id`, and `id` is its next visible node |
| Preorder.NextVisible | engine/src/state_utils.cpp:87-92 | the next visible node is live and differs from `id` |
| Preorder.PrevVisibleFallback | web/demo/demo.js:31 | prevVisibleId: live, not `id`, and nextVisibleId of it is `id` |
| Preorder.NextVisibleFallback | web/demo/demo.js:32 | nextVisibleId: live and not `id` |
| Preorder.NextPrevVisibleInverse | engine/src/state_utils.cpp:80-92 | the node after `id` in the visible order has `id` before it, in the C++ order and in the JavaScript one |
| Preorder.PreorderFrom | engine/src/state_utils.cpp:58-64 | the walk from a node: the node, then each child's walk in child order (what it lists is stated by `PreorderFromFacts`) |
| Preorder.PreorderKids | engine/src/state_utils.cpp:61-63 | the walks of the children from position `i` on, in order |
| Preorder.PreorderRoots | engine/src/state_utils.cpp:74-77 | the walks of the roots from position `i` on, in root order |
| Preorder.VisibleOrder | engine/src/state_utils.cpp:66-78 | the C++ visible order: the scoped subtree, nothing for a scope naming a missing node, else every root's subtree (stated by `VisibleOrderFacts`) |
| Preorder.PreorderFromFacts | engine/src/state_utils.cpp:58-64 | preorder_collect starts at the node, lists each node of its subtree exactly once, and lists each node after its parent |
| Preorder.VisibleOrderFacts | engine/src/state_utils.cpp:66-78 | without a scope every node is shown exactly once and after its parent; with a live scope exactly the scoped subtree is shown, with the scope root first; with a dangling scope the C++ order is empty and the JavaScript order is the whole forest |
| Preorder.UnscopedOrderCoversForest | engine/src/state_utils.cpp:74-77 | without a scope the visible order is as long as the node table |
| StateUtils.FindId | engine/src/state_utils.cpp:30 | std::find: the first position of `x`, or the end when `x` is absent |
| StateUtils.InsertIdAfter | engine/src/state_utils.cpp:40-44 | the loop-based insert_after equals `InsertAfter` |
| StateUtils.InsertIdBefore | engine/src/state_utils.cpp:46-50 | the loop-based insert_before equals `InsertBefore` |
| StateUtils.EraseId | engine/src/state_utils.cpp:52-56 | the loop-based erase_from equals `EraseFrom` |
| StateUtils.IndexInSiblingsOf | engine/src/state_utils.cpp:28-33 | index_in_siblings finds `id` in its own sibling list, at `IndexInSiblings` |
| StateUtils.PreorderCollect | engine/src/state_utils.cpp:58-64 | the recursive walk with an accumulator appends exactly the pre-order of the subtree |
| StateUtils.VisibleOrderIds | engine/src/state_utils.cpp:66-78 | visible_order_ids equals `VisibleOrder` (the scoped subtree, nothing for a dangling scope, else every root's subtree) |
| StateUtils.PrevVisibleId | engine/src/state_utils.cpp:80-85 | prev_visible_id equals `PrevVisible` |
| StateUtils.NextVisibleId | engine/src/state_utils.cpp:87-92 | next_visible_id equals `NextVisible` |
| Edits.SetFocusLowerClamped | engine/src/engine.cpp:45-48 | the caret is never negative, a non-negative caret is kept as given, and only the focus and the caret change |
| Edits.SetFocusClamped | web/demo/demo.js:34 | the caret lies within the target's text, an in-range caret is kept, and only the focus and the caret change |
| Edits.SetFocusUnclamped | packages/bullet-canvas-dom/src/core.js:41 | the focus and the caret are stored exactly as given, and nothing else changes |
| Edits.SetScope | engine/src/engine.cpp:247-248 | only the scope changes, to the given one |
| Edits.Reparented | engine/src/engine.cpp:66-68 | exactly the listed children get the new parent; the node set and every other node stay |
| Edits.SplitCaret | engine/src/engine.cpp:60-62 | the split point lies within the text: the command's caret when it is in range, the state's caret when the command's is negative, and 0 when both are negative |
| Edits.SplitCaretDemo | web/demo/demo.js:62-63 | the split point lies within the text: the given caret when it is in range, 0 when it is negative, and the state's caret when none is given |
| Edits.SplitCaretCanvas | packages/bullet-canvas-dom/src/core.js:50 | the given caret is clamped into `[0, len]` |
| Edits.Placed | engine/src/engine.cpp:121-129 | one longer, the members are the old ones plus `x`, and no duplicate is introduced |
| Edits.FallbackFocus | engine/src/engine.cpp:184 | the previous visible node, else the next, else the first root, and empty only when all three are missing |
| Edits.DeleteFocusLive | engine/src/engine.cpp:181-188 | the fallback focus after removal (and after recreating a root) is a live node |
| Edits.InsertSiblingAfter | engine/src/engine.cpp:50-56 | reference definition: a new empty node with `id`'s parent, right after `id`, focused at 0; its properties are `Preserve.InsertSiblingAfterValid`, `Laws.InsertSiblingAfterExact` and `Laws.InsertThenDelete` |
| Edits.AppendEmptyChild | web/demo/demo.js:44-50 | reference definition: a new empty node at the end of `p`'s children, focused at 0; see `Preserve.AppendEmptyChildValid` |
| Edits.EnsureTrailingEmptyChild | web/demo/demo.js:52-58 | reference definition: appends an empty child unless the last child's text is empty; see `Laws.EnsureTrailingExact` |
| Edits.Split | engine/src/engine.cpp:58-75 | reference definition: `id` keeps the text before `k` and loses its children, and a new next sibling gets the rest and the focus (also demo.js:60-72 and core.js:50); see `Preserve.SplitValid`, `Laws.SplitExact` and `Laws.SplitThenMerge` |
| Edits.Indent | engine/src/engine.cpp:77-86 | reference definition: the node becomes the last child of its previous sibling, with no change without one; see `Preserve.IndentValid`, `Laws.IndentExact` and `Laws.NoOpBranches` |
| Edits.Hoist | engine/src/engine.cpp:115-129 | reference definition: the node leaves its parent and is placed before or after the parent in the grandparent's list; see `Laws.HoistPlaces` and `Laws.HoistKeepsSubtree` |
| Edits.Outdent | engine/src/engine.cpp:88-105 | reference definition: the hoist placing the node after its parent, with no change for a root; see `Preserve.OutdentValid` and `Laws.IndentThenOutdent` |
| Edits.MoveUp | engine/src/engine.cpp:107-130 | reference definition: a swap with the previous sibling, else a hoist before the parent, with no change for a first root; see `Preserve.MoveUpValid` and `Laws.MoveUpSwaps` |
| Edits.MoveDown | engine/src/engine.cpp:132-155 | reference definition: a swap with the next sibling, else a hoist after the parent, with no change for a last root; see `Preserve.MoveDownValid` and `Laws.MoveUpThenDown` |
| Edits.RemoveNode | engine/src/engine.cpp:173-176 | reference definition: the node is erased from its list and from the table |
| Edits.EnsureMinOneRoot | engine/src/engine.cpp:34-43 | reference definition: a new empty focused root when no root is left, and no change otherwise |
| Edits.DeleteEmpty | engine/src/engine.cpp:157-189 | reference definition of the C++ delete; see `Preserve.DeleteEmptyValid`, `Laws.DeleteEmptyExact`, `Laws.DeleteRemovesExact` and `Laws.DeleteClearsScope` |
| Edits.DeleteEmptyGuarded | web/demo/demo.js:79-95 | reference definition of the JavaScript delete, which keeps the scope root; see `Preserve.DeleteEmptyGuardedValid`, `Laws.GuardedKeepsScope` and `Laws.DeleteAgreesWithoutScope` |
| Edits.RemoveWithFallback | web/demo/demo.js:82-94 | reference definition of the JavaScript removal: a fresh focused root when no root is left, otherwise `Refocused`; see `Preserve.RemoveWithFallbackValid` |
| Edits.Refocused | web/demo/demo.js:86-94 | reference definition of the focus after the removal: the next node or a new child of the scope root when the scope root was shown just before, else the previous, next or first root with the caret at the end of its text |
| Edits.RefocusReady | web/demo/demo.js:82-85 | the previous and next visible nodes and the first root left survive the removal |
| Edits.Merge | engine/src/engine.cpp:191-212 | reference definition: the next sibling's text and children join the node, the sibling goes, and a scope on it is cleared or left as chosen; see `Preserve.MergeValid`, `Laws.MergeExact` and `Laws.SplitThenMerge` |
| Preserve.InsertSiblingAfterValid | engine/src/engine.cpp:50-56 | insert_empty_sibling_after keeps the state valid |
| Preserve.AppendEmptyChildValid | web/demo/demo.js:44-50 | appendEmptyChild keeps the state valid |
| Preserve.EnsureTrailingEmptyChildValid | web/demo/demo.js:52-58 | ensureTrailingEmptyChild keeps the state valid |
| Preserve.SplitValid | engine/src/engine.cpp:58-75 | a split at any point within the text keeps the state valid |
| Preserve.IndentValid | engine/src/engine.cpp:77-86 | indent keeps the state valid |
| Preserve.HoistRootIs | engine/src/engine.cpp:97-99 | hoisting a child of a root: it leaves the parent's children, joins `rootOrder` next to the parent, and loses its parent link |
| Preserve.HoistUnderIs | engine/src/engine.cpp:100-104 | hoisting a deeper node: it leaves the parent's children, joins the grandparent's children next to the parent, and takes the grandparent as its parent |
| Preserve.HoistValid | engine/src/engine.cpp:115-129 | the hoist at the end of outdent, move_up and move_down keeps the state valid |
| Preserve.OutdentValid | engine/src/engine.cpp:88-105 | outdent keeps the state valid |
| Preserve.SwapValid | engine/src/engine.cpp:111-113 | swapping two siblings keeps the state valid |
| Preserve.MoveUpValid | engine/src/engine.cpp:107-130 | move_up keeps the state valid |
| Preserve.MoveDownValid | engine/src/engine.cpp:132-155 | move_down keeps the state valid |
| Preserve.DeleteEmptyValid | engine/src/engine.cpp:157-189 | delete_empty_at_id keeps the state valid, including the removal of the scope root and of the last root |
| Preserve.DeleteEmptyGuardedValid | web/demo/demo.js:79-95 | the JavaScript delete keeps the state valid |
| Preserve.RemoveWithFallbackValid | web/demo/demo.js:82-94 | the JavaScript removal with its scope-aware focus fallback keeps the state valid |
| Preserve.MergeStructural | web/demo/demo.js:97 | every merge keeps the tree shape, a live focus and the caret bound; the scope stays live unless the merge does not clear it (the JavaScript variants) and it named the absorbed sibling |
| Preserve.MergeValid | engine/src/engine.cpp:191-212 | the C++ merge, which clears a scope on the absorbed node, keeps the state valid |
| Preserve.SetFocusLowerClampedValid | engine/src/engine.cpp:45-48 | set_focus on a live node keeps the state valid if and only if the caret is at most the text length |
| Preserve.SetFocusClampedValid | web/demo/demo.js:34 | setFocus on a live node always keeps the state valid |
| Preserve.SetScopeValid | engine/src/engine.cpp:247-248 | setting the scope keeps the state valid if and only if the scope is empty or names a live node |
| Laws.IndentExact | engine/src/engine.cpp:77-86 | with a previous sibling, the node leaves its list and becomes the last child of that sibling; only the node, that sibling and the old list change |
| Laws.SplitExact | engine/src/engine.cpp:58-75 | the node keeps `text[..k]` and no children; a fresh node right after it gets `text[k..]`, the children (now linked to it) and the focus at 0; the two texts concatenate to the original |
| Laws.SplitNext | engine/src/engine.cpp:72-73 | after a split the fresh node is the next sibling of the split node |
| Laws.MergeExact | engine/src/engine.cpp:191-212 | for a childless node with a next sibling: the node takes the sibling's text after its own and the sibling's children (now linked to it), the sibling leaves its list and the table, a scope on it is cleared only in the C++ variant, the caret sits at the end of the joined text, and nothing else changes |
| Laws.DeleteEmptyExact | engine/src/engine.cpp:157-172 | unknown, non-empty or non-leaf nodes stay; the sole root stays and takes the focus at caret 0 |
| Laws.DeleteRemovesExact | engine/src/engine.cpp:173-189 | any other empty leaf is removed from its list and from the table, a scope on it is cleared, and the focus goes to the previous visible node, else the next, else the first root, with the caret at the end |
| Laws.DeleteAgreesWithoutScope | web/demo/demo.js:79-95 | without a scope the JavaScript delete gives the same state as the C++ one |
| Laws.GuardedKeepsScope | web/demo/demo.js:81 | the JavaScript delete never removes the scope root and never changes the scope |
| Laws.DeleteClearsScope | engine/src/engine.cpp:177-180 | the C++ delete does remove an empty leaf that is the scope root (when it is not the sole root), and clears the scope |
| Laws.IndentThenOutdent | engine/src/engine.cpp:77-105 | an outdent right after an indent that moved the node restores the whole state |
| Laws.SplitThenMerge | engine/src/engine.cpp:58-75 | a merge right after a split restores the state, except that the caret sits at the end of the text and one id is used up |
| Laws.InsertSiblingAfterExact | engine/src/engine.cpp:50-56 | exactly one fresh empty node with the same parent appears, right after `id`, and takes the focus at 0; nothing else changes |
| Laws.InsertThenDelete | engine/src/engine.cpp:157-189 | deleting the empty sibling just inserted restores the forest, `rootOrder` and the scope |
| Laws.MoveUpSwaps | engine/src/engine.cpp:111-114 | move_up of a node with a previous sibling swaps the two in their list |
| Laws.MoveUpThenDown | engine/src/engine.cpp:132-139 | move_down right after a swapping move_up restores the state |
| Laws.HoistPlaces | engine/src/engine.cpp:115-129 | at the ends of its list the node leaves its parent, takes the grandparent (or none) as parent, and lands right before (move_up) or right after (outdent, move_down) the former parent; it keeps its text and children, and only the node, its parent and its grandparent change |
| Laws.HoistKeepsSubtree | engine/src/engine.cpp:140-154 | a hoisted node keeps its whole subtree: the same nodes lie under it, and each of them is untouched |
| Laws.EnsureTrailingExact | web/demo/demo.js:52-58 | no id comes back and nothing changes exactly when the last child has empty text; otherwise a fresh empty leaf becomes the last child, takes the focus at 0, its id comes back, and the state stays valid |
| Laws.NoOpBranches | engine/src/engine.cpp:77-195 | indent without a previous sibling, outdent of a root, move up of a first root, move down of a last root, and merge of a node with children or without a next sibling all leave the state exactly as it was |
| Engine.StepValid | engine/src/engine.cpp:214-252 | every command keeps the invariants except exactly two: a SetFocus past the end of the text, and a SetScopeRoot naming a missing node |
| Engine.ApplyCommand | engine/src/engine.cpp:214-252 | apply_command resolves the target and dispatches; for any command except an insert or split whose next id is in use, its result is `Step` (an unknown target changes nothing), and its input is a value, which it leaves untouched |
| Engine.Step | engine/src/engine.cpp:214-252 | reference definition of one command: an unknown target changes nothing, otherwise the command's edit; its property is `Engine.StepValid` |
| Engine.Breaks | engine/src/engine.cpp:244-248 | the two commands that can leave an invalid state: SetFocus past the end of the text, and SetScopeRoot naming a missing node |
| Engine.FocusAt | engine/src/engine.cpp:45-48 | set_focus equals `SetFocusLowerClamped` |
| Engine.EnsureRoot | engine/src/engine.cpp:34-43 | ensure_min_one_root equals `EnsureMinOneRoot` |
| Engine.InsertSibling | engine/src/engine.cpp:50-56 | when the next id is not in use, insert_empty_sibling_after equals `InsertSiblingAfter` |
| Engine.SplitNode | engine/src/engine.cpp:58-75 | when the next id is not in use, split_at_caret equals `Split` at `SplitCaret` |
| Engine.IndentNode | engine/src/engine.cpp:77-86 | indent equals `Indent` |
| Engine.HoistNode | engine/src/engine.cpp:115-129 | the shared hoist equals `Hoist` |
| Engine.OutdentNode | engine/src/engine.cpp:88-105 | outdent equals `Outdent` |
| Engine.MoveNodeUp | engine/src/engine.cpp:107-130 | move_up equals `MoveUp` |
| Engine.MoveNodeDown | engine/src/engine.cpp:132-155 | move_down equals `MoveDown` |
| Engine.DeleteEmptyNode | engine/src/engine.cpp:157-189 | delete_empty_at_id equals `DeleteEmpty` |
| Engine.MergeNextSibling | engine/src/engine.cpp:191-212 | merge_next_sibling_into_current equals `Merge` with the scope cleared |
| JsState.StateObject.constructor | web/demo/demo.js:8-14 | the object literal holds the given fields |
| JsState.StateObject.Clone | packages/bullet-canvas-dom/src/core.js:20 | structuredClone gives a fresh object with the same contents |
| JsState.StateObject.SiblingsRef | web/demo/demo.js:24-27 | siblingsRef is the sibling list of the engine state |
| JsState.StateObject.WriteSiblings | web/demo/demo.js:40 | an in-place splice on the list siblingsRef returned changes that list only |
| JsState.StateObject.Dfs | web/demo/demo.js:19 | dfs appends the pre-order of the subtree |
| JsState.StateObject.VisibleOrderIds | web/demo/demo.js:17-22 | visibleOrderIds equals `VisibleOrderFallback` |
| JsState.StateObject.SiblingIndex | web/demo/demo.js:28 | indexInSiblings equals `IndexInSiblings` |
| JsState.StateObject.PrevSiblingId | web/demo/demo.js:29 | prevSiblingId equals `PrevSibling` |
| JsState.StateObject.NextSiblingId | web/demo/demo.js:30 | nextSiblingId equals `NextSibling` |
| JsState.StateObject.PrevVisibleId | web/demo/demo.js:31 | prevVisibleId equals `PrevVisibleFallback` |
| JsState.StateObject.NextVisibleId | web/demo/demo.js:32 | nextVisibleId equals `NextVisibleFallback` |
| JsState.StateObject.Indent | web/demo/demo.js:74 | indent, in place, equals `Indent` on the state before |
| JsState.StateObject.HoistNode | web/demo/demo.js:75-77 | the shared hoist, in place, equals `Hoist` |
| JsState.StateObject.Outdent | web/demo/demo.js:75 | outdent, in place, equals `Outdent` |
| JsState.StateObject.MoveUp | web/demo/demo.js:76 | moveUp, in place, equals `MoveUp` |
| JsState.StateObject.MoveDown | web/demo/demo.js:77 | moveDown, in place, equals `MoveDown` |
| JsState.StateObject.SetParents | web/demo/demo.js:67 | the forEach reparenting equals `Reparented` |
| JsState.StateObject.SplitOff | web/demo/demo.js:65-69 | the new node takes the suffix and the children, and the old node keeps the prefix and no children |
| JsState.StateObject.SpliceAfter | web/demo/demo.js:70 | the new id is spliced in right after `id` in its list |
| JsState.StateObject.Unlink | web/demo/demo.js:84 | the node leaves its list and the table |
| JsState.StateObject.Adopt | web/demo/demo.js:97 | the node appends the children, which are relinked to it |
| Demo.IdSource.constructor | web/demo/demo.js:4 | the closure counter starts at 0 |
| Demo.IdSource.NewId | web/demo/demo.js:4 | each id is the counter after one increment, so ids strictly increase and never repeat |
| Demo.InitialState | web/demo/demo.js:6-15 | a fresh object with one empty root, focused at caret 0, no scope, under the next counter value |
| Demo.SetFocus | web/demo/demo.js:34 | the focus is the target, the caret is clamped into its text, and every other field of the state keeps its value |
| Demo.InsertEmptySiblingAfter | web/demo/demo.js:36-42 | when the next id is not in use, equals `InsertSiblingAfter` |
| Demo.AppendEmptyChild | web/demo/demo.js:44-50 | returns the next id, and equals `AppendEmptyChild` |
| Demo.EnsureTrailingEmptyChild | web/demo/demo.js:52-58 | the new state and the returned id equal `EnsureTrailingEmptyChild` |
| Demo.SplitAtCaret | web/demo/demo.js:60-72 | when the next id is not in use, equals `Split` at `SplitCaretDemo` |
| Demo.DeleteEmptyAtId | web/demo/demo.js:79-95 | equals `DeleteEmptyGuarded` |
| Demo.Refocus | web/demo/demo.js:85-94 | the tail of the delete equals `RemoveWithFallback`: a fresh root, the scope-aware choice, or the ordinary fallback |
| Demo.RefocusAmongRoots | web/demo/demo.js:86-94 | with a root left, the tail of the delete equals `Refocused` on the state after the removal |
| Demo.AppendFocusedChild | web/demo/demo.js:91 | a new empty child appended to the emptied scope root and focused again at 0; equals `AppendEmptyChild` |
| Demo.FocusFallback | web/demo/demo.js:94 | the focus goes to the previous visible node, else the next, else the first root, with the caret at the end of its text, and nothing else changes |
| Demo.MergeNextSiblingIntoCurrent | web/demo/demo.js:97 | equals `Merge` with the scope left in place |
| Canvas.BulletCanvas.constructor | packages/bullet-canvas-dom/src/core.js:6 | without a value, the instance holds one empty root j1 and the counter is at 1 |
| Canvas.BulletCanvas.LoadAsWritten | packages/bullet-canvas-dom/src/core.js:6 | with a value, as written: that object is installed and the counter stays at 0 |
| Canvas.BulletCanvas.Load | packages/bullet-canvas-dom/src/core.js:6 | with a value, corrected: the value is installed and the counter is moved to at least every serial in use, so the next id is free |
| Canvas.BulletCanvas.GetState | packages/bullet-canvas-dom/src/core.js:20 | a fresh copy with the same contents |
| Canvas.BulletCanvas.SetStateAsWritten | packages/bullet-canvas-dom/src/core.js:21 | as written: a fresh copy of `s` is installed, and the counter is left where it was |
| Canvas.BulletCanvas.SetState | packages/bullet-canvas-dom/src/core.js:21 | corrected: a fresh copy is installed, the counter never goes down and ends at or past every serial in use, and the next id is free |
| Canvas.BulletCanvas.AdvanceCounter | packages/bullet-canvas-dom/src/core.js:31 | the counter rises to at least every serial in use, and never goes down |
| Canvas.BulletCanvas.SetScopeRoot | packages/bullet-canvas-dom/src/core.js:22 | equals `SetScope` |
| Canvas.BulletCanvas.InitialState | packages/bullet-canvas-dom/src/core.js:30 | one empty root drawn from the instance counter |
| Canvas.BulletCanvas.NewId | packages/bullet-canvas-dom/src/core.js:31 | the counter goes up by one, and the id is built from it |
| Canvas.BulletCanvas.SetFocus | packages/bullet-canvas-dom/src/core.js:41 | equals `SetFocusUnclamped` |
| Canvas.BulletCanvas.InsertEmptySiblingAfter | packages/bullet-canvas-dom/src/core.js:42 | whatever `_idc` is, as long as the id it draws is not in use: returns that id, and equals `InsertSiblingAfter` |
| Canvas.BulletCanvas.AppendEmptyChild | packages/bullet-canvas-dom/src/core.js:43 | returns the next id, and equals `AppendEmptyChild` |
| Canvas.BulletCanvas.EnsureTrailingEmptyChild | packages/bullet-canvas-dom/src/core.js:44 | equals `EnsureTrailingEmptyChild` |
| Canvas.BulletCanvas.Indent | packages/bullet-canvas-dom/src/core.js:46 | equals `Indent` |
| Canvas.BulletCanvas.Outdent | packages/bullet-canvas-dom/src/core.js:47 | equals `Outdent` |
| Canvas.BulletCanvas.MoveUp | packages/bullet-canvas-dom/src/core.js:48 | equals `MoveUp` |
| Canvas.BulletCanvas.MoveDown | packages/bullet-canvas-dom/src/core.js:49 | equals `MoveDown` |
| Canvas.BulletCanvas.SplitAtCaret | packages/bullet-canvas-dom/src/core.js:50 | whatever `_idc` is, as long as the id it draws is not in use: equals `Split` at `SplitCaretCanvas` |
| Canvas.BulletCanvas.DeleteEmptyAtId | packages/bullet-canvas-dom/src/core.js:51-52 | the scope root is checked before the sole root, and the result still equals `DeleteEmptyGuarded` |
| Canvas.BulletCanvas.Refocus | packages/bullet-canvas-dom/src/core.js:51-52 | the tail of the delete equals `RemoveWithFallback` |
| Canvas.BulletCanvas.RefocusAmongRoots | packages/bullet-canvas-dom/src/core.js:51-52 | with a root left, the tail of the delete equals `Refocused` on the state after the removal |
| Canvas.BulletCanvas.MergeNextSiblingIntoCurrent | packages/bullet-canvas-dom/src/core.js:53 | equals `Merge` with the scope left in place |
| Canvas.StaleCounterCollides | packages/bullet-canvas-dom/src/core.js:21 | a valid one-root document installed with counter 0 is still walkable, so every edit accepts it, but its next id is already in use and inserting it would list that id twice |

## Left out

- DOM rendering and event wiring are not modelled: `render`, the key, paste and focus handlers, caret measurement, guides, tokens and breadcrumbs. They choose which engine operation to call but hold no structural logic.
- The `emit` notifications, the `applyCommand` stub, `destroy` and the DOM half of `focusNode` are not modelled. The state half of `focusNode` stores the focus and the caret exactly as `Canvas.BulletCanvas.SetFocus` does.
- The WebAssembly bridge and the C++ header of prototypes are not part of this model.
- Ids are modelled by their counter value. The "n"/"j" prefixes, string formatting and hashing are not modelled.
- C++ `std::string` ids allow a scope of `Some("")`, which `visible_order_ids` treats as no scope. Ids here cannot be empty, so that case is not modelled.
- `idCounter` is `unsigned long long`, and `caret` and the split caret are `int`. The model uses unbounded integers, so 64-bit wrap-around of the counter and 32-bit overflow of text lengths are not modelled.
- Text is a sequence of characters. JavaScript counts UTF-16 code units and C++ counts bytes, which differ for non-ASCII text; the encoding is not modelled.
- `BulletCanvas.splitAtCaret` called without a caret computes with `NaN` in JavaScript. `Canvas.BulletCanvas.SplitAtCaret` always takes an integer caret.
- JsState.StateObject.Indent and the other JavaScript edits (Outdent, MoveUp, MoveDown, and the Demo and Canvas methods) require a state whose parent links and child lists agree and have no cycle (`Walkable`). On any other state the source reads missing entries, or its walk never ends, so no behaviour is modelled there. `Walkable` says nothing about the id counter, so these edits accept a document whatever `_idc` or the demo's counter holds.
- Canvas.BulletCanvas.InsertEmptySiblingAfter, Canvas.BulletCanvas.SplitAtCaret, Demo.InsertEmptySiblingAfter, Demo.SplitAtCaret, Engine.InsertSibling and Engine.SplitNode require that the id they draw is not already in use. When it is, the source overwrites a live node and lists the id twice. `Canvas.StaleCounterCollides` exhibits that case, and the model does not follow the broken state any further. The other edits that draw an id (append child, ensure trailing child, and the deletes that recreate a root or a child) are modelled for every counter value.
- Canvas.BulletCanvas.constructor: the `autofocus` option only calls `focusNode`, which is covered above; the container and the DOM root element are not modelled.
- The C++ engine's `apply_command` on an unknown target returns the copy unchanged. The model has no separate copy, because the state is a value.
- The random test driver and its logging are not modelled. The checks it runs after every command are part of `Forest.Valid`, which also requires that nodes are stored under their own ids and that every id in use came from the counter (`Forest.Counted`).

## Findings

| source | as written | input that shows it | evidently intended | confidence | as-written member | corrected member |
|---|---|---|---|---|---|---|
| packages/bullet-canvas-dom/src/core.js:21 | `setState` installs a copy of the document but leaves `_idc` where it was | An instance whose `_idc` is 0 (built with `options.value`) gets `setState` of a valid document whose only root is j1. The next `insertEmptySiblingAfter(j1)` draws j1 again, overwrites the root, and lists j1 twice in `rootOrder`. | the counter moves past every id in the installed document, so new ids are never in use | medium, not executed | Canvas.BulletCanvas.SetStateAsWritten, Canvas.StaleCounterCollides | Canvas.BulletCanvas.SetState |
| packages/bullet-canvas-dom/src/core.js:6 | the constructor installs `options.value` as the state and never sets `_idc`, which then reads as 0 | `new BulletCanvas(el, { value })` where `value` holds a root j1, followed by any insert: the first `newId` is j1, an id already in the document | the counter starts past every id in the given value | medium, not executed | Canvas.BulletCanvas.LoadAsWritten, Canvas.StaleCounterCollides | Canvas.BulletCanvas.Load |
