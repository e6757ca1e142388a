/** The records shared by the store and the two tree views: a note and the
    tree item a view builds from it. */
module Types {

  datatype Option<+T> = None | Some(value: T)

  /** A note of the forest. Children are held inline, so a note owns its
      whole subtree; `parent` is the id of the owning note, absent on roots. */
  datatype Note = Note(
    id: string,
    done: bool,
    contents: string,
    children: seq<Note>,
    parent: Option<string>)

  datatype CheckboxState = Checked | Unchecked

  datatype CollapsibleState = Collapsed | Expanded

  /** The tree item a view shows for a note. */
  datatype NoteItem = NoteItem(
    contextValue: string,
    id: string,
    itemLabel: string,
    parent: Option<string>,
    checkboxState: CheckboxState,
    collapsibleState: CollapsibleState)

  /** Context value of the items of the todo view. */
  const TodoContext: string := "meronote/todo"

  /** Context value of the items of the done view. */
  const DoneContext: string := "meronote/done"

  /** The projection of a note to a tree item. */
  function MakeItem(contextValue: string, note: Note): (item: NoteItem)
    ensures item.contextValue == contextValue
    ensures item.id == note.id && item.parent == note.parent
    ensures item.itemLabel == note.contents
    ensures item.checkboxState == Checked <==> note.done
    ensures item.collapsibleState == Expanded <==> |note.children| > 0
  {
    NoteItem(
      contextValue,
      note.id,
      note.contents,
      note.parent,
      if note.done then Checked else Unchecked,
      if |note.children| > 0 then Expanded else Collapsed)
  }

  /** The item a note shows as in the todo view. */
  function TodoItem(note: Note): (item: NoteItem)
    ensures item.contextValue == "meronote/todo" && item.id == note.id
  {
    MakeItem(TodoContext, note)
  }

  /** The item a note shows as in the done view. */
  function DoneItem(note: Note): (item: NoteItem)
    ensures item.contextValue == "meronote/done" && item.id == note.id
  {
    MakeItem(DoneContext, note)
  }

  /** An item carries everything of its note except the children, of
      which it keeps only whether there are any: two notes give the same
      item exactly when they agree on those. */
  lemma ItemDeterminesNote(contextValue: string, a: Note, b: Note)
    ensures MakeItem(contextValue, a) == MakeItem(contextValue, b) <==>
      a.id == b.id && a.contents == b.contents && a.done == b.done &&
      a.parent == b.parent && (|a.children| > 0 <==> |b.children| > 0)
  {
  }
}
