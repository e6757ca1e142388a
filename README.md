# meronotes note store, in Dafny

A model of the note store of the meronotes editor extension and of the
little tree logic its two views (todo and done) put on top of it.

The store (`Store.Storage`) owns one persisted slot that holds the root
list of notes. Each `Types.Note` holds its children inline, so the slot is
a forest. The class keeps that slot as a `seq<Note>` field, `store`. It
also has a counter, `events`, of the change notifications it has fired.
Every successful mutation ends in `Update`: the forest is written back and
the counter goes up by one.

The source changes notes in place through the reference that `get`
returns. The model names that reference by a path: a root index, then a
child index per level (`Forest.Path`). `Store.Search` is the recursive
walk of `get` and yields that path. A field write through the reference
becomes `Forest.ReplaceAt` of the note at that path.

Ids are strings. `Forest.Ids` is the multiset of every id at any depth,
and `Forest.Unique` says that no id occurs twice. Fresh ids, which the
source draws from `randomUUID`, are parameters that must not already be
in the forest. Under that condition, every mutation keeps ids unique. `add` and
`addChild` add exactly the fresh id. `delete` removes exactly the ids of
the dropped subtrees. `deleteAll` empties the forest. Every other
mutation keeps the multiset of ids as it was.

- Module layout: `Types` (src/types.ts), `Forest` and `Lists` (pure
  definitions behind src/storage.ts), `Store` (src/storage.ts),
  `Todos` (src/providers/todos.ts) and `Done` (src/providers/done.ts).
- Array `splice` and `findIndex` follow JavaScript semantics. A negative
  start counts from the end, and out-of-range starts clamp
  (`Lists.SpliceStart`). `findIndex` returns -1 when nothing matches.
- `done`, `redo` and `markAllDone` touch root-level notes only. Nothing
  cascades to children or parents (`Lists.DoneDoesNotCascade`,
  `Lists.MarkAllKeepsNested`).

## Model

| member | source | states |
|---|---|---|
| Types.MakeItem | src/types.ts:17-42 | the item copies id and parent unchanged and takes the label from the contents; the checkbox is Checked iff the note is done; the item is Expanded iff the note has a child; the context value is the one passed in |
| Types.ItemDeterminesNote | src/types.ts:27-40 | two notes give the same item exactly when they agree on id, contents, done flag, parent and on whether they have children |
| Types.TodoItem | src/providers/todos.ts:20-24 | a todo-view item is the note's item with the context value "meronote/todo" and the note's id; `Todos.TodoChildren` builds its items with it |
| Types.DoneItem | src/providers/done.ts:17-21 | a done-view item is the note's item with the context value "meronote/done" and the note's id; `Done.DoneChildren` builds its items with it |
| Forest.ReplaceAt | src/storage.ts:130 | replacing the note at a valid path keeps the root list's length, and the path then leads to the new note |
| Forest.ReplaceAtRestore | src/storage.ts:130 | after a replacement, putting the old note back gives the original forest, so nothing but that note changed |
| Forest.IdsReplaceAt | src/storage.ts:143 | a replacement swaps the old note's subtree ids for the new note's; every other id stays |
| Forest.AtIds | src/storage.ts:66-85 | the subtree ids of any note in the forest are part of the forest's ids |
| Forest.Walk | src/storage.ts:69-80 | the nested scan of `get`, where `break` ends only the current level and a deeper hit overwrites the recorded one; once a hit is recorded the answer stays a hit, and a new answer is a path that starts inside the scanned range (`Forest.WalkSound` and `Forest.WalkComplete` state soundness and completeness) |
| Forest.WalkSound | src/storage.ts:69-80 | every path the walk records leads to a note with the searched id |
| Forest.WalkComplete | src/storage.ts:69-80 | the walk records nothing exactly when no note from the scan position on, at any depth, has the id |
| Forest.Locate | src/storage.ts:66-85 | `get` yields a path to a note with the id, at any depth, and yields nothing exactly when no note of the forest has the id |
| Forest.Lookup | src/storage.ts:66-85 | the note `get` returns has the id and sits in the forest; the result is undefined exactly when the id is absent |
| Forest.LookupOpt | src/storage.ts:140 | `get` of an absent parent id finds nothing |
| Forest.TwoPaths | src/storage.ts:69-80 | two different paths account for two occurrences of ids in the forest |
| Forest.LocateUnique | src/storage.ts:66-85 | with unique ids, `get` finds exactly the one note that has the id |
| Lists.IndexOf | src/storage.ts:56-58 | the index of the first root with the id, and -1 exactly when no root has it |
| Lists.SpliceStart | src/storage.ts:62 | the start `splice` uses: in range it is the index itself; a negative start counts from the end; a start past the end clamps to the length; one before the beginning clamps to 0 |
| Lists.RemoveAt | src/storage.ts:62 | `splice(i, 1)` shortens the list by one and removes exactly the element the start names; the elements before it stay in place and those after it shift down by one |
| Lists.InsertAt | src/storage.ts:62 | `splice(i, 0, x)` lengthens the list by one and adds exactly `x` at the start position; the old elements before it stay in place and those after it shift up by one |
| Lists.MoveItem | src/storage.ts:62 | `splice(to, 0, splice(from, 1)[0])`: the same notes and length (`Lists.MoveSpec` states placement and order) |
| Lists.MoveSpec | src/storage.ts:60-64 | for indices inside the list, `move` is a permutation of the same length; the note from `from` is at `to`; all other roots keep their relative order |
| Lists.MoveNextToTarget | src/providers/todos.ts:106-112 | `move` with two different in-range indices is a permutation that keeps the other roots in order; the moved root lands right after the root that was at `to` when dragged down, and right before it when dragged up |
| Lists.Reorder | src/providers/todos.ts:124-135 | the sibling reorder keeps the length and the multiset of children |
| Lists.ReorderBeforeTarget | src/providers/todos.ts:124-135 | when both notes are siblings, the dragged note ends up immediately before the target and the others keep their order |
| Lists.IdsRemoveAt | src/storage.ts:62 | removing an element removes exactly its subtree's ids |
| Lists.IdsInsertAt | src/storage.ts:62 | inserting an element adds exactly its subtree's ids |
| Lists.IdsMoveItem | src/storage.ts:60-64 | `move` keeps every id of the forest |
| Lists.IdsReorder | src/providers/todos.ts:124-135 | the sibling reorder keeps every id |
| Lists.RemoveId | src/storage.ts:143 | the filtered list keeps exactly the notes whose id differs |
| Lists.MatchId | src/storage.ts:143 | the dropped notes are exactly those with the id |
| Lists.RemoveIdAppend | src/storage.ts:143 | the filter distributes over concatenation, so kept notes stay in their order |
| Lists.RemoveIdSplits | src/storage.ts:138-149 | every note is kept or dropped, and the forest's ids split into the kept notes' and the dropped subtrees' |
| Lists.RemoveIdUnique | src/storage.ts:138-149 | with unique ids, no id of a removed note's subtree is left in the list |
| Lists.SetDoneFirst | src/storage.ts:155-161 | only the first root with the id gets the flag; when no root has the id the list is unchanged; every other root is untouched |
| Lists.SetDoneIdempotent | src/storage.ts:155-183 | `done` (and `redo`) twice equals once |
| Lists.DoneThenRedo | src/storage.ts:155-183 | `done` then `redo` on a root that was not done restores the root list |
| Lists.DoneDoesNotCascade | src/storage.ts:155-164 | for every forest, id and flag: an id that names no root changes nothing; no root's children change; at every nested path the note stays as it was |
| Lists.SetDoneKeepsIds | src/storage.ts:155-183 | `done` and `redo` keep every id |
| Lists.MarkAll | src/storage.ts:166-172 | every root is done afterwards, and otherwise unchanged with its children |
| Lists.MarkAllKeepsIds | src/storage.ts:166-172 | `markAllDone` keeps every id |
| Lists.MarkAllKeepsNested | src/storage.ts:166-172 | for every forest, `markAllDone` leaves the note at every nested path as it was |
| Store.NewNote | src/storage.ts:88-93 | a created note has the given id, contents and parent, is not done and has no children |
| Store.AddChildAt | src/storage.ts:104-110 | the parent note becomes itself with the new child appended to its children; putting the old parent back gives the original forest, so nothing else changes |
| Store.AddChildIds | src/storage.ts:98-116 | adding a child adds exactly its id to the forest |
| Store.DeleteResult | src/storage.ts:138-149 | the forest after `delete`: when the parent id resolves, only that note changes, and its children lose the notes with the id (putting it back gives the old forest); otherwise the root list keeps exactly the notes whose id differs (`Store.DeleteIds` states the ids) |
| Store.DeleteIds | src/storage.ts:138-149 | `delete` drops only notes with the id, and exactly their subtrees' ids leave the forest |
| Store.DeleteKeepsUnique | src/storage.ts:138-149 | deleting keeps ids unique |
| Store.Search | src/storage.ts:69-80 | the recursive scan with its inner `break` computes the path `get` returns |
| Store.Storage.constructor | src/storage.ts:28-40 | an absent slot starts as an empty forest; an existing one is kept; nothing has fired yet |
| Store.Storage.IsEmpty | src/storage.ts:46-48 | true exactly when the forest holds no note at any depth |
| Store.Storage.IndexOf | src/storage.ts:56-58 | first root index with the id, or -1 exactly when no root has it |
| Store.Storage.Update | src/storage.ts:50-54 | the slot holds the given forest and one change event has fired |
| Store.Storage.Get | src/storage.ts:66-85 | returns a note with the id from any depth, and nothing exactly when the id is absent |
| Store.Storage.Move | src/storage.ts:60-64 | the root list becomes the splice move of the old one, with the same notes and ids; one event fires |
| Store.Storage.Add | src/storage.ts:87-96 | the root list grows by exactly the new note at the end; exactly the fresh id is added; ids stay unique; one event fires |
| Store.Storage.AddChild | src/storage.ts:98-116 | when the parent id resolves, that note's children gain the new child at the end, nothing else changes and one event fires; otherwise nothing changes and nothing fires |
| Store.Storage.Edit | src/storage.ts:118-136 | when the id resolves, only that note's contents change and one event fires; otherwise nothing changes and nothing fires |
| Store.Storage.Delete | src/storage.ts:138-149 | the resolved parent's children, or else the root list, lose the notes with the id; when the parent resolves, only that note changes (putting it back gives the old forest); exactly the dropped subtrees' ids leave; ids stay unique; one event fires |
| Store.Storage.DeleteAll | src/storage.ts:151-153 | the forest is empty, `isEmpty` holds and one event fires |
| Store.Storage.SetFirst | src/storage.ts:156-161 | the loop sets the flag on the first root with the id and stops; nested notes are not visited |
| Store.Storage.Done | src/storage.ts:155-164 | the first root with the id becomes done; ids are kept; one event fires even when no root has the id |
| Store.Storage.Redo | src/storage.ts:174-183 | the first root with the id becomes not done; ids are kept; one event fires even when no root has the id |
| Store.Storage.MarkAllDone | src/storage.ts:166-172 | every root becomes done with its children untouched; ids are kept; one event fires |
| Todos.Pending | src/providers/todos.ts:224-228 | the todo filter keeps exactly the notes that are not done |
| Todos.PendingAppend | src/providers/todos.ts:169 | the todo filter keeps stored order |
| Todos.PendingEmpty | src/providers/todos.ts:77 | nothing is pending exactly when every note is done |
| Todos.ElementId | src/providers/todos.ts:165 | an absent element looks up no id |
| Todos.TodoChildren | src/providers/todos.ts:162-229 | the resolved note's not-done children, or else the not-done roots, mapped one to one through `TodoItem`, all unchecked; `Todos.PendingAppend` states that the filter keeps stored order |
| Todos.NoTodoItems | src/providers/todos.ts:73-79 | the flag is set exactly when every root is done |
| Todos.DropPlan | src/providers/todos.ts:91-140 | the branch the drop takes, in both directions: no transfer exactly when nothing was dragged; an empty transfer is a TypeError; for a dragged note, the root move exactly when neither parent resolves, a TypeError when exactly one resolves, and, when both resolve, the sibling reorder exactly when they are the same note and nothing otherwise |
| Todos.DropResult | src/providers/todos.ts:91-140 | the forest after the drop keeps its root count, and every branch but the two reorders leaves it unchanged (`Todos.DropKeepsIds` states the ids) |
| Todos.DropKeepsIds | src/providers/todos.ts:91-140 | no drop adds or removes an id, so ids stay unique |
| Todos.RootDropPlacement | src/providers/todos.ts:106-112 | when neither parent resolves, dropping one root on a different root permutes the roots, keeps the others in order, and puts the dragged root right after the target when dragged down and right before it when dragged up |
| Todos.RootDropIsMove | src/providers/todos.ts:107-111 | when neither parent resolves, the drop takes the root branch and is `move(indexOf(target), indexOf(src))` |
| Todos.SiblingDropPlacement | src/providers/todos.ts:122-138 | when both parents resolve to the same note, the drop takes the sibling branch; only that parent changes; its children are permuted, with the dragged note immediately before the target and the others in order |
| Todos.HandleDrop | src/providers/todos.ts:91-140 | no transfer changes nothing; an empty transfer or exactly one resolved parent is a TypeError that changes nothing; different parents change nothing; the two reorders change the forest and fire once |
| Todos.Create | src/providers/todos.ts:236-242 | `add` runs only for entered, non-empty text |
| Todos.CreateChild | src/providers/todos.ts:244-256 | `addChild` runs only for entered, non-empty text |
| Todos.DeleteCommand | src/providers/todos.ts:258-260 | the command performs `delete` on the note |
| Todos.DeleteAllCommand | src/providers/todos.ts:262-276 | an empty store is only reported; otherwise everything is deleted only on "Yes" |
| Todos.OnTodoCheckbox | src/providers/todos.ts:64-66 | ticking a todo performs `done` on its id |
| Done.Completed | src/providers/done.ts:66-69 | the done filter keeps exactly the notes that are done |
| Done.CompletedAppend | src/providers/done.ts:66-69 | the done filter distributes over concatenation, so the done notes keep stored order |
| Done.DoneChildren | src/providers/done.ts:59-72 | for the root request, the done roots mapped one to one through `DoneItem`, all checked, in stored order (`Done.CompletedAppend`); for any element, nothing |
| Done.OnDoneCheckbox | src/providers/done.ts:38-40 | unticking in the done view performs `redo` on the id |
| Done.ViewsPartition | src/providers/done.ts:64-70 | the todo roots and the done roots together are the root list, each root exactly once |
| Done.RootViewsCoverStore | src/providers/done.ts:64-70 | the two root-level views together show as many items as there are roots |
| Done.MarkAllDoneViews | src/storage.ts:166-172 | after `markAllDone`, the todo root list is empty, `noTodoItems` is set, and the done view shows every root |
| Done.CompletedAll | src/providers/done.ts:68 | a list of done notes passes the done filter whole |
| Done.PendingUpdate | src/providers/todos.ts:226 | replacing one note changes the pending notes by exactly that note: the old one leaves if it was pending, the new one joins if it is |
| Done.CompletedUpdate | src/providers/done.ts:68 | replacing one note changes the done notes by exactly that note: the old one leaves if it was done, the new one joins if it is |
| Done.PendingUpdateCount | src/providers/todos.ts:226 | changing one note changes the todo count by that note's change of flag |
| Done.CompletedUpdateCount | src/providers/done.ts:68 | changing one note changes the done count by that note's change of flag |
| Done.DoneMovesNote | src/providers/todos.ts:64-66 | ticking a pending root moves that note from the todo list to the done list: the pending roots lose exactly it, the done roots gain exactly its done version, and the counts shift by one |
| Done.RedoMovesNote | src/providers/done.ts:38-40 | unticking a done root moves that note back: the done roots lose exactly it, the pending roots gain exactly its not-done version, and the counts shift by one |

## Left out

- Persistence backend: the host's key-value store, key syncing and the event emitter are not modelled. `Update` only replaces the slot and counts the event. The live array that `store` returns is the class's single `store` field.
- Id generation: `randomUUID` is a `freshId` parameter that must not already be in the forest.
- Store.Storage.Move: where the first `splice` removes nothing (an empty root list), the source inserts `undefined` into the list. The model requires `from` to name an element instead.
- Todos.HandleDrop: the same `undefined` insertion can happen on an empty list, so the model requires that the chosen branch's first splice removes a note (`DropDefined`). When exactly one parent resolves, line 123 reads a property of `undefined`; the model returns `TypeError` and changes nothing.
- Todos.TodoChildren: the `items` dictionary built by the discarded inner walk (src/providers/todos.ts:173-210) only feeds console output, so it is not modelled.
- Tree-view mechanics are not modelled: rendering, `reveal`, `getParent`, `handleDrag`, the transfer MIME type, the execution of `setContext`, warnings, information messages and console logging. The dialogs become parameters: the input box text is an `Option<string>`, and the modal answer is an `Option<string>`.
- Notes are values in the model, not shared objects. The source updates a note object through the reference `get` returns. The model replaces the note at its path, which gives the same result because the store owns every note exactly once.
- src/extension.ts is not part of this model: its command wiring, input boxes, empty-edit check and the `isEmpty` guard before `markAllDone`. src/providers/notes.ts is not part of this model either (file watching and document I/O). src/meronotes.ts is a superseded draft and is not modelled.
- `async` and the promise wrapping of the view methods are not modelled.
