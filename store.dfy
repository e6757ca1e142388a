/** The note store: the root list persisted in one storage slot, read and
    changed in place, with a change notification after every update. */
module Store {
  import opened Types
  import opened Forest
  import opened Lists

  /** The note `add` and `addChild` create: not done and without children. */
  function NewNote(id: string, contents: string, parent: Option<string>): (n: Note)
    ensures n.id == id && n.contents == contents && n.parent == parent
    ensures !n.done && n.children == []
  {
    Note(id, false, contents, [], parent)
  }

  /** The forest after `children.push(child)` on the note at `p`. */
  function AddChildAt(s: seq<Note>, p: Path, child: Note): (r: seq<Note>)
    requires ValidPath(s, p)
    ensures ValidPath(r, p) && At(r, p) == At(s, p).(children := At(s, p).children + [child])
    ensures ReplaceAt(r, p, At(s, p)) == s
  {
    ReplaceAtRestore(s, p, At(s, p).(children := At(s, p).children + [child]));
    ReplaceAt(s, p, At(s, p).(children := At(s, p).children + [child]))
  }

  /** A new leaf under the note at `p` adds exactly its id to the forest. */
  lemma AddChildIds(s: seq<Note>, p: Path, child: Note)
    requires ValidPath(s, p) && child.children == []
    ensures Ids(AddChildAt(s, p, child)) == Ids(s) + multiset{child.id}
  {
    var o := At(s, p);
    var n := o.(children := o.children + [child]);
    IdsReplaceAt(s, p, n);
    IdsAppend(o.children, [child]);
    assert Ids([child]) == multiset{child.id} by {
      assert [child][1..] == [];
    }
    CancelRight(Ids(AddChildAt(s, p, child)), Ids(s), NoteIds(o), multiset{child.id});
  }

  /** The forest `delete` leaves: when the note's parent id resolves, that
      note's children without the id; otherwise the root list without it. */
  function DeleteResult(s: seq<Note>, id: string, parent: Option<string>): (r: seq<Note>)
    ensures var p := LocateOpt(s, parent);
      p.Some? ==>
        ValidPath(r, p.value) &&
        At(r, p.value) == At(s, p.value).(children := RemoveId(At(s, p.value).children, id)) &&
        ReplaceAt(r, p.value, At(s, p.value)) == s
    ensures LocateOpt(s, parent).None? ==> forall n :: n in r <==> n in s && n.id != id
  {
    match LocateOpt(s, parent)
    case Some(p) =>
      var n := At(s, p).(children := RemoveId(At(s, p).children, id));
      ReplaceAtRestore(s, p, n);
      ReplaceAt(s, p, n)
    case None => RemoveId(s, id)
  }

  /** The notes `delete` drops, each with its whole subtree. */
  function Removed(s: seq<Note>, id: string, parent: Option<string>): seq<Note>
  {
    match LocateOpt(s, parent)
    case Some(p) => MatchId(At(s, p).children, id)
    case None => MatchId(s, id)
  }

  /** `delete` drops only notes with the id, and the ids that leave the
      forest are exactly those of their subtrees. */
  lemma DeleteIds(s: seq<Note>, id: string, parent: Option<string>)
    ensures forall n :: n in Removed(s, id, parent) ==> n.id == id
    ensures Ids(DeleteResult(s, id, parent)) + Ids(Removed(s, id, parent)) == Ids(s)
  {
    match LocateOpt(s, parent)
    case Some(p) =>
      var o := At(s, p);
      var n := o.(children := RemoveId(o.children, id));
      RemoveIdSplits(o.children, id);
      IdsReplaceAt(s, p, n);
      assert NoteIds(n) + Ids(MatchId(o.children, id)) == NoteIds(o);
      Exchange(Ids(DeleteResult(s, id, parent)), Ids(s), NoteIds(o), NoteIds(n),
        Ids(MatchId(o.children, id)));
    case None =>
      RemoveIdSplits(s, id);
  }

  lemma Exchange<T>(r: multiset<T>, s: multiset<T>, o: multiset<T>, n: multiset<T>, m: multiset<T>)
    requires r + o == s + n && n + m == o
    ensures r + m == s
  {
    forall x ensures (r + m)[x] == s[x] {
      assert (r + o)[x] == (s + n)[x];
      assert (n + m)[x] == o[x];
    }
  }

  /** Deleting keeps ids unique. */
  lemma DeleteKeepsUnique(s: seq<Note>, id: string, parent: Option<string>)
    requires Unique(s)
    ensures Unique(DeleteResult(s, id, parent))
  {
    DeleteIds(s, id, parent);
    NoDupSub(Ids(DeleteResult(s, id, parent)), Ids(s));
  }

  /** The nested walk of `get`: scans a list, stops at the first note with
      the id, and otherwise searches that note's children first; a hit
      deeper down replaces an earlier one. Returns the path of the last hit. */
  method Search(s: seq<Note>, id: string) returns (ret: Option<Path>)
    ensures ret == Locate(s, id)
    decreases s
  {
    ret := None;
    var i := 0;
    while i < |s|
      invariant 0 <= i <= |s|
      invariant Walk(s, id, i, ret) == Walk(s, id, 0, None)
    {
      if s[i].id == id {
        ret := Some([i]);
        break;
      }
      if |s[i].children| > 0 {
        var c := Search(s[i].children, id);
        if c.Some? {
          ret := Some([i] + c.value);
        }
      }
      i := i + 1;
    }
  }

  class Storage {
    /** The persisted slot: the root notes, each holding its children inline. */
    var store: seq<Note>
    /** How many change notifications have been fired. */
    var events: nat

    /** Binds the store to its slot; an absent slot starts as an empty list. */
    constructor (slot: Option<seq<Note>>)
      ensures store == (if slot.Some? then slot.value else [])
      ensures events == 0
    {
      store := if slot.Some? then slot.value else [];
      events := 0;
    }

    /** No note at any depth. */
    function IsEmpty(): (r: bool)
      reads this
      ensures r <==> Ids(store) == multiset{}
    {
      |store| == 0
    }

    /** The root-level index of the first note with the id, or -1. */
    function IndexOf(id: string): (r: int)
      reads this
      ensures -1 <= r < |store|
      ensures r >= 0 ==> store[r].id == id && forall j :: 0 <= j < r ==> store[j].id != id
      ensures r == -1 <==> forall j :: 0 <= j < |store| ==> store[j].id != id
    {
      Lists.IndexOf(store, id)
    }

    /** Writes the forest back to the slot and fires the change event. */
    method Update(s: seq<Note>)
      modifies this
      ensures store == s && events == old(events) + 1
    {
      store := s;
      events := events + 1;
    }

    /** A note with the id at any depth, or nothing when none has it. */
    method Get(id: string) returns (r: Option<Note>)
      ensures r == Lookup(store, id)
      ensures r.Some? ==> r.value.id == id
      ensures r.None? <==> id !in Ids(store)
    {
      var p := Search(store, id);
      r := if p.Some? then Some(At(store, p.value)) else None;
    }

    /** Moves the root at `from` to `to` in the shortened root list. */
    method Move(to: int, from: int)
      requires -|store| <= from < |store|
      modifies this
      ensures store == MoveItem(old(store), to, from)
      ensures multiset(store) == multiset(old(store)) && Ids(store) == Ids(old(store))
      ensures events == old(events) + 1
    {
      var tmp := store;
      var k := SpliceStart(from, |tmp|);
      var x := tmp[k];
      tmp := RemoveAt(tmp, from);
      tmp := InsertAt(tmp, to, x);
      IdsMoveItem(store, to, from);
      Update(tmp);
    }

    /** Appends a new root note with a fresh id. */
    method Add(contents: string, freshId: string)
      requires freshId !in Ids(store)
      modifies this
      ensures store == old(store) + [NewNote(freshId, contents, None)]
      ensures Ids(store) == Ids(old(store)) + multiset{freshId}
      ensures Unique(old(store)) ==> Unique(store)
      ensures events == old(events) + 1
    {
      var n := NewNote(freshId, contents, None);
      IdsAppend(store, [n]);
      assert Ids([n]) == multiset{freshId} by {
        assert [n][1..] == [];
      }
      if Unique(store) {
        NoDupAdd(Ids(store), freshId);
      }
      Update(store + [n]);
    }

    /** Appends a new child with a fresh id to the note the parent item
        names; when no note has that id nothing changes and nothing fires. */
    method AddChild(parent: NoteItem, contents: string, freshId: string)
      requires freshId !in Ids(store)
      modifies this
      ensures var p := Locate(old(store), parent.id);
        if p.Some? then
          store == AddChildAt(old(store), p.value, NewNote(freshId, contents, Some(parent.id))) &&
          ReplaceAt(store, p.value, At(old(store), p.value)) == old(store) &&
          Ids(store) == Ids(old(store)) + multiset{freshId} &&
          events == old(events) + 1
        else
          store == old(store) && events == old(events)
      ensures Unique(old(store)) ==> Unique(store)
    {
      var p := Search(store, parent.id);
      if p.Some? {
        var child := NewNote(freshId, contents, Some(parent.id));
        var current := At(store, p.value);
        var s := ReplaceAt(store, p.value, current.(children := current.children + [child]));
        ReplaceAtRestore(store, p.value, current.(children := current.children + [child]));
        AddChildIds(store, p.value, child);
        if Unique(store) {
          NoDupAdd(Ids(store), freshId);
        }
        Update(s);
      }
    }

    /** Replaces the contents of the note the item names; when no note has
        that id nothing changes and nothing fires. */
    method Edit(current: NoteItem, value: string)
      modifies this
      ensures var p := Locate(old(store), current.id);
        if p.Some? then
          store == ReplaceAt(old(store), p.value, At(old(store), p.value).(contents := value)) &&
          At(store, p.value) == At(old(store), p.value).(contents := value) &&
          ReplaceAt(store, p.value, At(old(store), p.value)) == old(store) &&
          events == old(events) + 1
        else
          store == old(store) && events == old(events)
      ensures Ids(store) == Ids(old(store))
    {
      var p := Search(store, current.id);
      if p.Some? {
        var note := At(store, p.value);
        var s := ReplaceAt(store, p.value, note.(contents := value));
        ReplaceAtRestore(store, p.value, note.(contents := value));
        IdsReplaceAt(store, p.value, note.(contents := value));
        CancelRight(Ids(s), Ids(store), NoteIds(note), multiset{});
        Update(s);
      }
    }

    /** Removes the note the item names from its parent's children, or from
        the root list when its parent id does not resolve, and fires. */
    method Delete(note: NoteItem)
      modifies this
      ensures store == DeleteResult(old(store), note.id, note.parent)
      ensures var p := LocateOpt(old(store), note.parent);
        p.Some? ==>
          ValidPath(store, p.value) &&
          At(store, p.value) ==
            At(old(store), p.value).(children := RemoveId(At(old(store), p.value).children, note.id)) &&
          ReplaceAt(store, p.value, At(old(store), p.value)) == old(store)
      ensures Ids(store) + Ids(Removed(old(store), note.id, note.parent)) == Ids(old(store))
      ensures Unique(old(store)) ==> Unique(store)
      ensures events == old(events) + 1
    {
      var s := store;
      var pp: Option<Path> := None;
      if note.parent.Some? {
        pp := Search(store, note.parent.value);
      }
      if pp.Some? {
        var parent := At(store, pp.value);
        s := ReplaceAt(store, pp.value, parent.(children := RemoveId(parent.children, note.id)));
        ReplaceAtRestore(store, pp.value, parent.(children := RemoveId(parent.children, note.id)));
      } else {
        s := RemoveId(store, note.id);
      }
      DeleteIds(store, note.id, note.parent);
      if Unique(store) {
        DeleteKeepsUnique(store, note.id, note.parent);
      }
      Update(s);
    }

    /** Replaces the forest by an empty one and fires. */
    method DeleteAll()
      modifies this
      ensures store == [] && IsEmpty() && Unique(store)
      ensures events == old(events) + 1
    {
      Update([]);
    }

    /** The shared loop of `done` and `redo`: the first root with the id
        gets the flag; nested notes are not visited. */
    method SetFirst(id: string, v: bool)
      modifies this
      ensures store == SetDoneFirst(old(store), id, v)
      ensures events == old(events)
    {
      var i := 0;
      while i < |store|
        invariant 0 <= i <= |store|
        invariant store == old(store)
        invariant forall j :: 0 <= j < i ==> store[j].id != id
      {
        if store[i].id == id {
          store := store[i := store[i].(done := v)];
          break;
        }
        i := i + 1;
      }
    }

    /** Marks the first root with the id done, then fires in any case. */
    method Done(id: string)
      modifies this
      ensures store == SetDoneFirst(old(store), id, true)
      ensures Ids(store) == Ids(old(store))
      ensures events == old(events) + 1
    {
      SetDoneKeepsIds(store, id, true);
      SetFirst(id, true);
      Update(store);
    }

    /** Marks the first root with the id not done, then fires in any case. */
    method Redo(id: string)
      modifies this
      ensures store == SetDoneFirst(old(store), id, false)
      ensures Ids(store) == Ids(old(store))
      ensures events == old(events) + 1
    {
      SetDoneKeepsIds(store, id, false);
      SetFirst(id, false);
      Update(store);
    }

    /** Marks every root done, leaving the children as they are, and fires. */
    method MarkAllDone()
      modifies this
      ensures store == MarkAll(old(store))
      ensures Ids(store) == Ids(old(store))
      ensures events == old(events) + 1
    {
      var i := 0;
      while i < |store|
        invariant 0 <= i <= |store| == |old(store)|
        invariant forall j :: 0 <= j < i ==> store[j] == old(store)[j].(done := true)
        invariant forall j :: i <= j < |store| ==> store[j] == old(store)[j]
        invariant events == old(events)
      {
        store := store[i := store[i].(done := true)];
        i := i + 1;
      }
      assert store == MarkAll(old(store));
      MarkAllKeepsIds(old(store));
      Update(store);
    }
  }
}
