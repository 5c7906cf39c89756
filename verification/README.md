# DartMark structural editing core, in Dafny

DartMark is a keyboard-driven editor for the DOM of a page shown in an iframe. The
document body is the root. A cursor selects one element. Every command either
moves the cursor or edits the tree around it. This project models three parts of
the editor:

- the tree edits of `DartMarkActions`: create a sibling, a first or last child,
  or a wrapping parent; retag; replace the text; remove; edit the id;
- the navigation, guards and setup pass of `DartMark`;
- the undo/redo history of `UndoStack`.

It then proves the properties the editor relies on.

The document is an immutable tree, `Tree.Node`, with three kinds of node:

- `Element`, with a tag, an ordered class list, an id and children. The id `""`
  stands for no id attribute.
- `Text`.
- `Comment`, which stands for every other node kind.

A position is an index path. Each step counts every child node, text and
comments included, as `getIndexFromElement` does. The editor state is
`Editor.Editor`: the root plus an optional cursor path. Every `throw` becomes an
`Err` carrying a `Results.Error`, and `Results.Message` gives the text the editor
reports.

The modules follow the program's structure:

| module | file | models |
|---|---|---|
| `Results`, `Whitespace` | results.dfy, whitespace.dfy | options, results and error messages; the JavaScript `\s` class with `^\s*$` and `^\S+$` |
| `Tree` | tree.dfy | nodes, paths, the class-list edits, `isEmpty`, and the two document invariants |
| `Walker` | walker.dfy | a `TreeWalker` that shows elements only (section 6.2 of the WHATWG DOM Standard): its `nextNode`, `previousNode` and sibling searches |
| `IndexPath` | indexpath.dfy | `getIndexFromElement` and `getElementFromIndex` |
| `Actions`, `ActionLaws` | actions.dfy, laws.dfy | `DartMarkActions`, and how its edits undo one another |
| `Editor`, `Commands` | editor.dfy, commands.dfy | the setup pass, cursor moves and the guarded commands of `DartMark` |
| `UndoStack` | undostack.dfy | `UndoStack` and `UndoItem` |

Every edit is proved to keep two invariants, gathered in `Actions.Keeps`:

- **Covered**: every empty element carries the `dm_empty` marker class.
- **Unique ids**: no id occurs twice in the document.

The setup pass establishes Covered. Every edit also states a frame
(`Tree.ChangedOnlyAt`): it changes only the subtree at one path. Nothing outside
that subtree changes, and the ancestors keep their tags, classes, ids and
numbers of children.

The cursor moves are specified against independent references:

- `moveForward` and `moveBackward` step through `Editor.Stops`. This is the
  element pre-order (`Walker.PreOrder`) with "no cursor" put in front, and the
  two moves walk it as a cycle.
- The sibling moves are specified by `Editor.CyclicNext`. It names the next
  element sibling and wraps around to the first.

The JavaScript cursor is a node reference. The model's cursor is a path, and
after an edit that shifts positions the model moves the path so that it still
names the same node.

`replaceElement` follows the source as written. The replacement is created
marked exactly when the old element was not marked. Then the old class string is
copied over it when that string is non-empty. So an element with no class at all
comes back carrying `dm_empty`, even when it has content
(`Actions.RetagMarksContent`). A retag and a retag back therefore restore the
document only when the element has a class (`ActionLaws.RetagRoundTrip`). In the
running editor the selected element always has the `dm_cursor` class, so this case
does not arise there. The model leaves that class out, so here it does.

## Model

| member | source | states |
|---|---|---|
| `Tree.IsEmpty` | js/DartMarkActions.js:21-41 | the scan answers true exactly when no child is an element or text holding anything but whitespace; comments are ignored; an element child always makes it false |
| `Tree.AddClass` | js/DartMarkActions.js:12 | `classList.add`: the marker is present afterwards, every other class is kept, and nothing changes when it was already there |
| `Tree.RemoveClass` | js/DartMarkActions.js:61 | `classList.remove`: the class is absent afterwards and every other class is kept; nothing changes when it was absent |
| `Tree.ReplaceAtChangesOnly` | js/DartMarkActions.js:50 | replacing the node at a path changes only that subtree; ancestors keep tag, classes, id and child count, and every path apart from it still finds the same node |
| `Tree.ReplaceAtTwice` | js/DartMarkActions.js:91 | replacing a node twice at the same path is the same as replacing it once with the second node |
| `Tree.IdBagReplace` | js/DartMarkActions.js:118-128 | the ids of the document after a replacement are those before, less the ids of the old subtree, plus those of the new one |
| `Tree.CoveredReplace` | js/DartMarkActions.js:107-116 | putting a covered element where an element stood keeps the whole document covered |
| `Actions.GenerateNode` | js/DartMarkActions.js:9-15 | a new childless element with no id, tag `name` or `div` when the name is empty, carrying `dm_empty` exactly when not asked for a non-empty node |
| `Actions.CreatePrev` | js/DartMarkActions.js:46-51 | on the root an error; otherwise the parent gains one new empty `div` just before the node, the other children stay in order, the node is now one position later, only the parent's subtree changes, and both invariants hold |
| `Actions.CreateNext` | js/DartMarkActions.js:53-58 | on the root an error; otherwise one new empty `div` just after the node, the node stays where it was, only the parent's subtree changes, and both invariants hold |
| `Actions.InsertChild` | js/DartMarkActions.js:60-68 | the element loses `dm_empty` and gains a new empty `div` at the given position; the children before and after it keep their order, tag and id are kept, and both invariants hold |
| `Actions.CreateFirst` | js/DartMarkActions.js:60-63 | the element loses `dm_empty` and its children become the new empty `div` followed by the old children; both invariants hold |
| `Actions.CreateLast` | js/DartMarkActions.js:65-68 | the element loses `dm_empty` and its children become the old children followed by the new empty `div`; both invariants hold |
| `Actions.CreateParent` | js/DartMarkActions.js:70-77 | on the root an error; otherwise the node's slot holds a classless, id-less `div` whose only child is the node, the node now sits one level deeper, and both invariants hold |
| `Actions.WrapPreserves` | js/DartMarkActions.js:74-76 | wrapping an element in a new element without id keeps the document covered and its ids unique |
| `Actions.TagName` | js/DartMarkActions.js:10 | the given name when it is non-empty, and `div` exactly when it is empty |
| `Actions.Retagged` | js/DartMarkActions.js:83-90 | the replacement has the new tag and the old children and id; it takes the old classes when there are any, and otherwise carries only `dm_empty` |
| `Actions.RetagMarksContent` | js/DartMarkActions.js:83-89 | a classless element with content is unmarked before the retag and marked after it, though still not empty |
| `Actions.ReplaceElement` | js/DartMarkActions.js:79-93 | on the root an error; otherwise the element at the same path has the new tag, the same children in order and the same id, and the classes `Retagged` describes; only that subtree changes and both invariants hold |
| `Actions.ReplaceText` | js/DartMarkActions.js:95-105 | the element's only child is a text node holding the text; it carries `dm_empty` exactly when the text is whitespace only; every other class, the tag and the id are kept; both invariants hold |
| `Actions.RemoveNode` | js/DartMarkActions.js:107-116 | on the root an error; otherwise the node is gone from its parent's children, the others keep their order, the parent gains `dm_empty` exactly when it is now empty, and both invariants hold |
| `Actions.RemovePreserves` | js/DartMarkActions.js:111-115 | dropping a child and marking the parent when it becomes empty keeps the document covered and its ids unique |
| `Actions.EditId` | js/DartMarkActions.js:118-128 | an empty id removes the attribute; an id with whitespace is refused; an id in use anywhere in the document, the node included, is refused; otherwise the id is set; only the node changes, and ids stay unique |
| `Actions.IdUnique` | js/DartMarkActions.js:123-126 | setting an id that nobody uses, or removing one, keeps the document's ids unique |
| `ActionLaws.RemoveUndoesCreatePrev` | js/DartMarkActions.js:46-51 | removing the element `createPrev` inserted gives back the document before it |
| `ActionLaws.RemoveUndoesCreateNext` | js/DartMarkActions.js:53-58 | removing the element `createNext` inserted gives back the document before it |
| `ActionLaws.RemoveRestores` | js/DartMarkActions.js:107-116 | removing a freshly inserted empty `div` beside an element child restores the parent, which keeps its marker state, and with it the document |
| `ActionLaws.RetagRoundTrip` | js/DartMarkActions.js:79-93 | retagging and then retagging back to the old tag succeeds, and gives the document back exactly when the element has a class |
| `ActionLaws.ReplaceTextIdempotent` | js/DartMarkActions.js:95-105 | setting the same text twice is setting it once |
| `ActionLaws.EditIdTwice` | js/DartMarkActions.js:123-124 | an id just set cannot be set again on the same element, because the lookup finds the element itself |
| `ActionLaws.EditIdUndo` | js/DartMarkActions.js:118-128 | with unique ids, setting an id and then restoring the old one, or removing it when there was none, gives the document back |
| `IndexPath.GetIndexFromElement` | js/DartMark.js:284-307 | each step of the path is the number of preceding siblings of every kind, there is one step per ancestor, and following the path from the root finds the node |
| `IndexPath.GetElementFromIndex` | js/DartMark.js:266-282 | the path walk finds the node the path names, or no node when a step is out of range; a node found, seen with its ancestors, belongs to the same root |
| `IndexPath.FocusRoundTrip` | js/DartMark.js:266-307 | every node a path reaches has a location whose index path is that path and whose root is the document |
| `Walker.NextIsSuccessor` | js/DartMark.js:392 | the walker's `nextNode` from an element is its successor in the element pre-order, and nothing after the last |
| `Walker.PrevIsPredecessor` | js/DartMark.js:411 | the walker's `previousNode` from an element is its predecessor in the element pre-order, and nothing before the root |
| `Walker.LastPathIsLast` | js/DartMark.js:404-408 | running `nextNode` until it fails ends on the last element of the pre-order |
| `Walker.NextNode` | js/DartMark.js:391-392 | `nextNode` over index paths: any node it returns is an element of the subtree (its order is `Walker.NextIsSuccessor`) |
| `Walker.PrevNode` | js/DartMark.js:410-411 | `previousNode` over index paths: any node it returns is an element of the subtree (its order is `Walker.PrevIsPredecessor`) |
| `Walker.LastPath` | js/DartMark.js:404-408 | the node `moveBackward` reaches from no cursor is an element of the subtree (that it is the last one is `Walker.LastPathIsLast`) |
| `Walker.Complete` | js/DartMark.js:174 | every element of the root's subtree occurs in the pre-order |
| `Walker.PreOrderDistinct` | js/DartMark.js:174 | no element occurs twice in the pre-order |
| `Walker.FirstElementFrom` | js/DartMark.js:449-452 | the first element child at or after a position, or none when only other nodes follow |
| `Walker.LastElementBefore` | js/DartMark.js:428-431 | the last element child before a position, or none when only other nodes precede it |
| `Editor.MarkEmpty` | js/DartMark.js:146-164 | the result is the marked copy of the node (`MarkedCopy`): at every depth, each element keeps its kind, tag, id, classes and number of children, and gains `dm_empty` exactly when it is empty; no marker is removed; afterwards the tree is covered and holds the same ids |
| `Editor.MarkedCopyUnique` | js/DartMark.js:146-164 | a tree has only one marked copy, so any tree that marks exactly the empty elements of the body and changes nothing else is the one the pass builds |
| `Editor.MarkEmptyFixes` | js/DartMark.js:146-164 | the setup pass changes nothing exactly when the tree is already covered |
| `Editor.MarkEmptyIdempotent` | js/DartMark.js:146-164 | running the setup pass twice is running it once |
| `Editor.Setup` | js/DartMark.js:146-174 | the editor starts with no cursor on the marked copy of the body: exactly the empty elements gained `dm_empty` and nothing else changed; the root is covered with the same ids, and an already covered body is left as it is |
| `Editor.MoveForward` | js/DartMark.js:384-396 | the cursor advances one stop in the cycle of no cursor, then the elements in pre-order: the root from no cursor, the next element otherwise, no cursor after the last |
| `Editor.MoveBackward` | js/DartMark.js:398-415 | the cursor goes back one stop in the same cycle: the last element from no cursor, the previous element otherwise, no cursor from the root |
| `Editor.ForwardBackward` | js/DartMark.js:384-415 | each of the two moves undoes the other |
| `Editor.ForwardSweep` | js/DartMark.js:384-396 | repeated forward moves from no cursor visit every element once in pre-order and return to no cursor |
| `Editor.BackwardSweep` | js/DartMark.js:398-415 | repeated backward moves from no cursor visit the last element first, then each earlier element in turn, and the root last |
| `Editor.SweepsReverse` | js/DartMark.js:384-415 | the state after `k` backward moves from no cursor is the state after all but `k` of the forward sweep: the backward sweep is the forward sweep reversed |
| `Editor.NextSibling` | js/DartMark.js:448-453 | the next element sibling of the cursor, wrapping around to the parent's first element child |
| `Editor.PrevSibling` | js/DartMark.js:427-432 | the previous element sibling, wrapping around to the parent's last element child |
| `Editor.MoveNext` | js/DartMark.js:438-457 | the root from no cursor, nothing on the root, otherwise the cyclically next element sibling under the same parent |
| `Editor.MovePrev` | js/DartMark.js:417-436 | the root from no cursor, nothing on the root, otherwise the cyclically previous element sibling under the same parent |
| `Editor.CyclicNextUnique` | js/DartMark.js:438-457 | the sibling `moveNext` chooses is determined by the cursor |
| `Editor.CyclicNextInjective` | js/DartMark.js:417-457 | two element siblings never have the same next sibling, so `movePrev` is well defined as the inverse |
| `Editor.NextPrev` | js/DartMark.js:417-457 | `movePrev` undoes `moveNext` and `moveNext` undoes `movePrev` whenever a node is selected |
| `Editor.MoveChild` | js/DartMark.js:459-474 | the root from no cursor; the "no children" error exactly when the node has no element child and no other error ever; otherwise it succeeds on the first element child |
| `Editor.MoveUp` | js/DartMark.js:476-488 | the root from no cursor, nothing on the root, otherwise the parent |
| `Editor.UpAfterChild` | js/DartMark.js:459-488 | moving up after moving to a child gives back the editor as it was |
| `Editor.MoveFirst` | js/DartMark.js:490-504 | the root from no cursor, nothing on the root, otherwise the parent's first element child |
| `Editor.MoveLast` | js/DartMark.js:506-520 | the root from no cursor, nothing on the root, otherwise the parent's last element child |
| `Editor.FirstIdempotent` | js/DartMark.js:490-504 | moving to the first sibling twice is moving there once |
| `Editor.PrevOfFirstIsLast` | js/DartMark.js:417-436 | `movePrev` from the first element sibling wraps around to where `moveLast` goes |
| `Editor.ClearCursor` | js/DartMark.js:262-264 | `clearCursor` unsets the cursor and keeps the document |
| `Editor.ClearThenMove` | js/DartMark.js:262-264 | after `clearCursor`, `moveForward` selects the root and `moveBackward` the last element in document order |
| `Commands.CreatePrev` | js/DartMark.js:522-527 | no cursor is an error; on the root an error; otherwise the document is the one `Actions.CreatePrev` builds, both invariants hold, and the cursor is one position later under the same parent, where the selected node now is |
| `Commands.CreateNext` | js/DartMark.js:529-534 | no cursor is an error; on the root an error; otherwise the document is the one `Actions.CreateNext` builds and the cursor stays on the node at the same path |
| `Commands.CreateFirst` | js/DartMark.js:536-541 | an error exactly when there is no cursor, and success whenever there is one; the document is the one `Actions.CreateFirst` builds, and the selected element's children are a new empty `div` followed by the old ones |
| `Commands.CreateLast` | js/DartMark.js:543-548 | an error exactly when there is no cursor, and success whenever there is one; the document is the one `Actions.CreateLast` builds, and the selected element's children are the old ones followed by a new empty `div` |
| `Commands.CreateParent` | js/DartMark.js:550-556 | no cursor is an error; on the root an error; otherwise the document is the one `Actions.CreateParent` builds and the cursor follows the node into its new parent |
| `Commands.EditId` | js/DartMark.js:558-569 | an error exactly when there is no cursor or the id edit fails, with the edit's error; a cancelled prompt changes nothing; otherwise the document is the one `Actions.EditId` builds and the selected element carries the answer as its id |
| `Commands.ReplaceText` | js/DartMark.js:595-605 | an error exactly when there is no cursor, and success whenever there is one; a cancelled prompt changes nothing; otherwise the document is the one `Actions.ReplaceText` builds and the selected element's only child is the answer's text |
| `Commands.ReplaceElement` | js/DartMark.js:607-616 | no cursor is an error; a cancelled prompt changes nothing; on the root an error, and success on any other element; otherwise the document is the one `Actions.ReplaceElement` builds and the cursor selects the replacement, which has the answer's tag |
| `Commands.RemoveNode` | js/DartMark.js:571-593 | no cursor is an error; on the root an error; otherwise the document is the one `Actions.RemoveNode` builds, and the cursor goes to the next element sibling (one position back, since the node is gone), else the previous element sibling (same position), else the parent, and names that node in the edited tree |
| `Commands.CursorAfterRemoval` | js/DartMark.js:578-589 | the cursor `removeNode` chooses is the parent or a position under the same parent, short of the old last position |
| `Commands.RemovalCursor` | js/DartMark.js:578-592 | the path chosen before the removal is the next element sibling's old position less one, else the previous element sibling's position, else the parent, and in the document after the removal it names that sibling or the parent |
| `Commands.UndoCreatePrev` | js/DartMark.js:522-593 | `createPrev`, then `movePrev` onto the new element, then `removeNode` gives back the editor as it was |
| `UndoStack.New` | js/UndoStack.js:6-10 | a new history is valid, empty and at its newest change |
| `UndoStack.Push` | js/UndoStack.js:18-25 | the index advances by one, the items above the old index are discarded, the new item is on top, and the history is at its newest change |
| `UndoStack.Undo` | js/UndoStack.js:27-37 | the "oldest change" error exactly at index -1; otherwise the undo of the current item is run, the index goes down by one, and the items stay as they were |
| `UndoStack.Redo` | js/UndoStack.js:39-49 | the "newest change" error exactly when there is no item above the index; otherwise the redo of that item is run, the index goes up by one, and the items stay as they were |
| `UndoStack.UndoThenRedo` | js/UndoStack.js:27-49 | an undo followed by a redo restores the history and redoes the undone item |
| `UndoStack.RedoThenUndo` | js/UndoStack.js:27-49 | a redo followed by an undo restores the history and undoes the redone item |
| `UndoStack.PushThenUndo` | js/UndoStack.js:18-49 | right after a push a redo fails, and an undo undoes the pushed item and returns to the old index |
| `UndoStack.UndoHistory` | js/UndoStack.js:27-37 | `k` undos in a row succeed exactly when `k` is at most the index plus one, and they undo the items from the top down |

## Left out

- Keyboard and mouse event wiring and the shortcut dispatch (js/DartMark.js:29-108) are event plumbing. Each command is modelled as a function of the editor state.
- `reportError`, `toggleHelp`, the style sheet, the wait for the frame to load and `scrollTo` are presentation and layout.
- `generatePath`, the breadcrumb, is display only.
- `changeCursor`'s `dm_cursor` class is left out. The cursor is separate state. Because of this, classless elements exist in the model, which the running editor never selects (see `replaceElement` above).
- `prompt`, `confirm` and the `frozen` flag are user interaction. The answer to a prompt is a parameter, `None` for a cancelled prompt.
- `textContent` is left out because it depends on layout through `innerText`. It only supplies the prompt's initial text.
- `document.createElement` is left out: its validation of tag names, and its lower-casing of them, are not modelled. A tag is taken as given, with `div` for an empty name.
- Attributes other than `id` and `class` are left out. `class` is an ordered list, with no normalisation of whitespace or duplicates in the class string.
- `getElementById` is modelled as a search of the root's subtree. Ids elsewhere in the frame's document, outside the body, are not modelled.
- The undo and redo callbacks are left out. An item is opaque, and undo or redo returns the callback to run as an `Effect` value. A callback that throws, which would leave the index unchanged in the source, is not modelled.
- `updateCursor` calls `changeCursor` on the node already selected. The cursor state is unchanged and only the display is refreshed, so it has no function of its own. `clearCursor` is modelled as `Editor.ClearCursor`.
