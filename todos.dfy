/** The todo view: its projection of the store, its empty flag, the
    drop-to-reorder rule and the guards of its commands. */
module Todos {
  import opened Types
  import opened Forest
  import opened Lists
  import opened Store

  /** `filter(note => !note.done)`. */
  function Pending(s: seq<Note>): (r: seq<Note>)
    ensures forall n :: n in r <==> n in s && !n.done
    ensures |r| <= |s|
  {
    if s == [] then []
    else (if !s[0].done then [s[0]] else []) + Pending(s[1..])
  }

  /** The filter works piece by piece, so the kept notes stay in stored order. */
  lemma {:induction false} PendingAppend(a: seq<Note>, b: seq<Note>)
    ensures Pending(a + b) == Pending(a) + Pending(b)
    decreases a
  {
    if a == [] {
      assert a + b == b;
    } else {
      assert (a + b)[0] == a[0];
      assert (a + b)[1..] == a[1..] + b;
      PendingAppend(a[1..], b);
    }
  }

  /** Nothing is pending exactly when every note is done. */
  lemma PendingEmpty(s: seq<Note>)
    ensures Pending(s) == [] <==> forall j :: 0 <= j < |s| ==> s[j].done
  {
    if Pending(s) != [] {
      assert Pending(s)[0] in s;
    }
  }

  /** The id `getChildren` looks up: an absent element gives no id. */
  function ElementId(element: Option<NoteItem>): (id: Option<string>)
    ensures element.Some? <==> id.Some?
    ensures element.Some? ==> id.value == element.value.id
  {
    if element.Some? then Some(element.value.id) else None
  }

  /** The todo view's children: the not-done children of the note the
      element names, or the not-done roots when the element is absent or
      does not resolve. */
  function TodoChildren(store: seq<Note>, element: Option<NoteItem>): (r: seq<NoteItem>)
    ensures var it := LookupOpt(store, ElementId(element));
      var notes := Pending(if it.Some? then it.value.children else store);
      |r| == |notes| && forall k :: 0 <= k < |r| ==> r[k] == TodoItem(notes[k])
    ensures forall k :: 0 <= k < |r| ==>
      r[k].checkboxState == Unchecked && r[k].contextValue == "meronote/todo"
  {
    var it := LookupOpt(store, ElementId(element));
    var notes := Pending(if it.Some? then it.value.children else store);
    seq(|notes|, k requires 0 <= k < |notes| => TodoItem(notes[k]))
  }

  /** The `noTodoItems` context flag: set exactly when no root is pending. */
  function NoTodoItems(store: seq<Note>): (r: bool)
    ensures r <==> forall j :: 0 <= j < |store| ==> store[j].done
  {
    PendingEmpty(store);
    |Pending(store)| == 0
  }

  /** How a drop ends. `TypeError` is the source reading a property of an
      undefined value; it rejects before anything has changed. */
  datatype DropOutcome = NoTransfer | RootMove | SiblingReorder | Ignored | TypeError

  /** Which branch of the drop handler runs. */
  function DropPlan(s: seq<Note>, target: NoteItem, transfer: Option<seq<NoteItem>>): (r: DropOutcome)
    ensures r == NoTransfer <==> transfer.None?
    ensures transfer == Some([]) ==> r == TypeError
    ensures r == RootMove ==>
      LocateOpt(s, transfer.value[0].parent).None? && LocateOpt(s, target.parent).None?
    ensures r in {SiblingReorder, Ignored} ==>
      LocateOpt(s, transfer.value[0].parent).Some? && LocateOpt(s, target.parent).Some? &&
      (r == SiblingReorder <==>
        At(s, LocateOpt(s, transfer.value[0].parent).value).id ==
        At(s, LocateOpt(s, target.parent).value).id)
    ensures transfer.Some? && transfer.value != [] ==>
      var sp, tp := LocateOpt(s, transfer.value[0].parent), LocateOpt(s, target.parent);
      (sp.None? && tp.None? ==> r == RootMove) &&
      (sp.None? != tp.None? ==> r == TypeError) &&
      (sp.Some? && tp.Some? ==> r in {SiblingReorder, Ignored})
  {
    if transfer.None? then NoTransfer
    else if transfer.value == [] then TypeError
    else
      var src := transfer.value[0];
      var sp := LocateOpt(s, src.parent);
      var tp := LocateOpt(s, target.parent);
      if sp.None? && tp.None? then RootMove
      else if sp.None? || tp.None? then TypeError
      else if At(s, sp.value).id == At(s, tp.value).id then SiblingReorder
      else Ignored
  }

  /** The first splice of the chosen branch removes a note (on an empty
      list it would remove nothing and the source would then insert
      `undefined`). */
  ghost predicate DropDefined(s: seq<Note>, target: NoteItem, transfer: Option<seq<NoteItem>>)
  {
    match DropPlan(s, target, transfer)
    case RootMove => |s| > 0
    case SiblingReorder =>
      |At(s, LocateOpt(s, transfer.value[0].parent).value).children| > 0
    case _ => true
  }

  /** The forest after the drop. */
  function DropResult(s: seq<Note>, target: NoteItem, transfer: Option<seq<NoteItem>>): (r: seq<Note>)
    requires DropDefined(s, target, transfer)
    ensures |r| == |s|
    ensures DropPlan(s, target, transfer) !in {RootMove, SiblingReorder} ==> r == s
  {
    match DropPlan(s, target, transfer)
    case RootMove =>
      var src := transfer.value[0];
      MoveItem(s, Lists.IndexOf(s, target.id), Lists.IndexOf(s, src.id))
    case SiblingReorder =>
      var src := transfer.value[0];
      var p := LocateOpt(s, src.parent).value;
      ReplaceAt(s, p, At(s, p).(children := Reorder(At(s, p).children, src.id, target.id)))
    case _ => s
  }

  /** No drop adds or removes an id, so ids stay unique. */
  lemma DropKeepsIds(s: seq<Note>, target: NoteItem, transfer: Option<seq<NoteItem>>)
    requires DropDefined(s, target, transfer)
    ensures Ids(DropResult(s, target, transfer)) == Ids(s)
    ensures Unique(s) ==> Unique(DropResult(s, target, transfer))
  {
    match DropPlan(s, target, transfer)
    case RootMove =>
      var src := transfer.value[0];
      IdsMoveItem(s, Lists.IndexOf(s, target.id), Lists.IndexOf(s, src.id));
    case SiblingReorder =>
      var src := transfer.value[0];
      var p := LocateOpt(s, src.parent).value;
      var o := At(s, p);
      var n := o.(children := Reorder(o.children, src.id, target.id));
      IdsReorder(o.children, src.id, target.id);
      IdsReplaceAt(s, p, n);
      CancelRight(Ids(DropResult(s, target, transfer)), Ids(s), NoteIds(o), multiset{});
    case _ =>
  }

  /** Dropping a root on another root moves it next to the target: after
      it when dragged downwards, before it when dragged upwards; the roots
      are permuted and the others keep their order. */
  lemma RootDropPlacement(s: seq<Note>, target: NoteItem, src: NoteItem)
    requires LocateOpt(s, src.parent).None? && LocateOpt(s, target.parent).None?
    requires Lists.IndexOf(s, src.id) >= 0 && Lists.IndexOf(s, target.id) >= 0
    requires src.id != target.id
    ensures MovedNextTo(s, DropResult(s, target, Some([src])),
      Lists.IndexOf(s, target.id), Lists.IndexOf(s, src.id))
  {
    var from, to := Lists.IndexOf(s, src.id), Lists.IndexOf(s, target.id);
    RootDropIsMove(s, target, src);
    MoveNextToTarget(s, to, from);
  }

  /** A single dragged root dropped among the roots is `move(to, from)`. */
  lemma RootDropIsMove(s: seq<Note>, target: NoteItem, src: NoteItem)
    requires LocateOpt(s, src.parent).None? && LocateOpt(s, target.parent).None? && |s| > 0
    ensures DropPlan(s, target, Some([src])) == RootMove
    ensures DropDefined(s, target, Some([src]))
    ensures DropResult(s, target, Some([src])) ==
      MoveItem(s, Lists.IndexOf(s, target.id), Lists.IndexOf(s, src.id))
  {
    assert Some([src]).value[0] == src;
  }

  /** Dropping a note on a sibling changes only the shared parent, whose
      children are permuted with the dragged note now immediately before
      the target and the others in their order. */
  lemma SiblingDropPlacement(s: seq<Note>, target: NoteItem, src: NoteItem)
    requires LocateOpt(s, src.parent).Some? && LocateOpt(s, target.parent).Some?
    requires At(s, LocateOpt(s, src.parent).value).id == At(s, LocateOpt(s, target.parent).value).id
    requires var c := At(s, LocateOpt(s, src.parent).value).children;
      Lists.IndexOf(c, src.id) >= 0 &&
      Lists.IndexOf(RemoveAt(c, Lists.IndexOf(c, src.id)), target.id) >= 0
    ensures DropPlan(s, target, Some([src])) == SiblingReorder
    ensures DropDefined(s, target, Some([src]))
    ensures var p := LocateOpt(s, src.parent).value;
      var c := At(s, p).children;
      var r := DropResult(s, target, Some([src]));
      var j := Lists.IndexOf(RemoveAt(c, Lists.IndexOf(c, src.id)), target.id);
      ValidPath(r, p) &&
      ReplaceAt(r, p, At(s, p)) == s &&
      multiset(At(r, p).children) == multiset(c) &&
      At(r, p).children[j].id == src.id && At(r, p).children[j + 1].id == target.id &&
      At(r, p).children[..j] + At(r, p).children[j+1..] == RemoveAt(c, Lists.IndexOf(c, src.id))
  {
    assert Some([src]).value[0] == src;
    var p := LocateOpt(s, src.parent).value;
    var c := At(s, p).children;
    ReorderBeforeTarget(c, src.id, target.id);
    ReplaceAtRestore(s, p, At(s, p).(children := Reorder(c, src.id, target.id)));
  }

  /** `handleDrop`: reorders roots through `move`, or siblings in place on
      their parent's children followed by an update; otherwise nothing. */
  method HandleDrop(st: Storage, target: NoteItem, transfer: Option<seq<NoteItem>>)
    returns (outcome: DropOutcome)
    requires DropDefined(st.store, target, transfer)
    modifies st
    ensures outcome == DropPlan(old(st.store), target, transfer)
    ensures st.store == DropResult(old(st.store), target, transfer)
    ensures Ids(st.store) == Ids(old(st.store))
    ensures st.events == old(st.events) + (if outcome in {RootMove, SiblingReorder} then 1 else 0)
  {
    DropKeepsIds(st.store, target, transfer);
    if transfer.None? {
      return NoTransfer;
    }
    if transfer.value == [] {
      return TypeError;
    }
    var src := transfer.value[0];
    var srcParent: Option<Path> := None;
    if src.parent.Some? {
      srcParent := Search(st.store, src.parent.value);
    }
    var targetParent: Option<Path> := None;
    if target.parent.Some? {
      targetParent := Search(st.store, target.parent.value);
    }
    if srcParent.None? && targetParent.None? {
      var from := st.IndexOf(src.id);
      var to := st.IndexOf(target.id);
      st.Move(to, from);
      return RootMove;
    }
    if srcParent.None? || targetParent.None? {
      return TypeError;
    }
    var parent := At(st.store, srcParent.value);
    if parent.id == At(st.store, targetParent.value).id {
      var tmp := parent.children;
      var from := Lists.IndexOf(tmp, src.id);
      var f := tmp[SpliceStart(from, |tmp|)];
      tmp := RemoveAt(tmp, from);
      tmp := InsertAt(tmp, Lists.IndexOf(tmp, target.id), f);
      st.Update(ReplaceAt(st.store, srcParent.value, parent.(children := tmp)));
      return SiblingReorder;
    }
    return Ignored;
  }

  /** Whether an input box answer is used: it was not cancelled and is not empty. */
  predicate Entered(input: Option<string>)
  {
    input.Some? && input.value != ""
  }

  /** The `create` command: adds a root note only for entered text. */
  method Create(st: Storage, input: Option<string>, freshId: string)
    requires freshId !in Ids(st.store)
    modifies st
    ensures Entered(input) ==>
      st.store == old(st.store) + [NewNote(freshId, input.value, None)] &&
      st.events == old(st.events) + 1
    ensures !Entered(input) ==> st.store == old(st.store) && st.events == old(st.events)
  {
    if Entered(input) {
      st.Add(input.value, freshId);
    }
  }

  /** The `createChild` command: adds a child only for entered text. */
  method CreateChild(st: Storage, parent: NoteItem, input: Option<string>, freshId: string)
    requires freshId !in Ids(st.store)
    modifies st
    ensures var p := Locate(old(st.store), parent.id);
      if Entered(input) && p.Some? then
        st.store == AddChildAt(old(st.store), p.value, NewNote(freshId, input.value, Some(parent.id))) &&
        st.events == old(st.events) + 1
      else
        st.store == old(st.store) && st.events == old(st.events)
  {
    if Entered(input) {
      st.AddChild(parent, input.value, freshId);
    }
  }

  /** The `delete` command. */
  method DeleteCommand(st: Storage, note: NoteItem)
    modifies st
    ensures st.store == DeleteResult(old(st.store), note.id, note.parent)
    ensures st.events == old(st.events) + 1
  {
    st.Delete(note);
  }

  /** The `deleteAll` command: on an empty store it only informs the user
      (`informed`); otherwise it deletes when the confirmation is "Yes". */
  method DeleteAllCommand(st: Storage, answer: Option<string>) returns (informed: bool)
    modifies st
    ensures informed <==> old(st.store) == []
    ensures if !informed && answer == Some("Yes") then
        st.store == [] && st.events == old(st.events) + 1
      else
        st.store == old(st.store) && st.events == old(st.events)
  {
    if st.IsEmpty() {
      return true;
    }
    informed := false;
    if answer == Some("Yes") {
      st.DeleteAll();
    }
  }

  /** Ticking a checkbox in the todo view marks that note done. */
  method OnTodoCheckbox(st: Storage, note: NoteItem)
    modifies st
    ensures st.store == SetDoneFirst(old(st.store), note.id, true)
    ensures st.events == old(st.events) + 1
  {
    st.Done(note.id);
  }
}
