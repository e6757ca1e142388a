/** The done view: a flat list of the done roots, whose checkbox undoes a
    note, and how it and the todo view split the roots between them. */
module Done {
  import opened Types
  import opened Forest
  import opened Lists
  import opened Store
  import opened Todos

  /** `filter(note => note.done)`. */
  function Completed(s: seq<Note>): (r: seq<Note>)
    ensures forall n :: n in r <==> n in s && n.done
    ensures |r| <= |s|
  {
    if s == [] then []
    else (if s[0].done then [s[0]] else []) + Completed(s[1..])
  }

  /** The filter works piece by piece, so the done notes stay in stored order. */
  lemma {:induction false} CompletedAppend(a: seq<Note>, b: seq<Note>)
    ensures Completed(a + b) == Completed(a) + Completed(b)
    decreases a
  {
    if a == [] {
      assert a + b == b;
    } else {
      assert (a + b)[0] == a[0];
      assert (a + b)[1..] == a[1..] + b;
      CompletedAppend(a[1..], b);
    }
  }

  /** The done view's children: for the root request the done roots in
      stored order, and nothing below any element, so the view is flat. */
  function DoneChildren(store: seq<Note>, element: Option<NoteItem>): (r: seq<NoteItem>)
    ensures element.Some? ==> r == []
    ensures element.None? ==>
      (|r| == |Completed(store)| &&
       forall k :: 0 <= k < |r| ==> r[k] == DoneItem(Completed(store)[k]))
    ensures forall k :: 0 <= k < |r| ==>
      r[k].checkboxState == Checked && r[k].contextValue == "meronote/done"
  {
    if element.Some? then []
    else
      var notes := Completed(store);
      seq(|notes|, k requires 0 <= k < |notes| => DoneItem(notes[k]))
  }

  /** Ticking a checkbox in the done view marks that note not done. */
  method OnDoneCheckbox(st: Storage, note: NoteItem)
    modifies st
    ensures st.store == SetDoneFirst(old(st.store), note.id, false)
    ensures st.events == old(st.events) + 1
  {
    st.Redo(note.id);
  }

  /** Every root is in exactly one of the two root lists: the pending
      roots of the todo view and the done roots of the done view. */
  lemma {:induction false} ViewsPartition(s: seq<Note>)
    ensures multiset(Pending(s)) + multiset(Completed(s)) == multiset(s)
    ensures |Pending(s)| + |Completed(s)| == |s|
    decreases s
  {
    if s != [] {
      ViewsPartition(s[1..]);
      assert s == [s[0]] + s[1..];
    }
  }

  /** At the level of the views: the todo and done root lists together
      show every root once. */
  lemma RootViewsCoverStore(s: seq<Note>)
    ensures |TodoChildren(s, None)| + |DoneChildren(s, None)| == |s|
  {
    ViewsPartition(s);
  }

  /** After `markAllDone` the todo view's root list is empty, its empty
      flag is set, and the done view shows every root. */
  lemma MarkAllDoneViews(s: seq<Note>)
    ensures Pending(MarkAll(s)) == []
    ensures NoTodoItems(MarkAll(s))
    ensures Completed(MarkAll(s)) == MarkAll(s)
  {
    PendingEmpty(MarkAll(s));
    CompletedAll(MarkAll(s));
  }

  lemma {:induction false} CompletedAll(s: seq<Note>)
    requires forall j :: 0 <= j < |s| ==> s[j].done
    ensures Completed(s) == s
    decreases s
  {
    if s != [] {
      CompletedAll(s[1..]);
    }
  }

  /** The pending notes after replacing the note at `k`: the old note
      leaves the todo list if it was pending, the new one joins if it is. */
  lemma PendingUpdate(s: seq<Note>, k: nat, n: Note)
    requires k < |s|
    ensures multiset(Pending(s[k := n])) + multiset(Pending([s[k]])) ==
      multiset(Pending(s)) + multiset(Pending([n]))
  {
    var t := s[k := n];
    SplitAt(s, k);
    SplitAt(t, k);
    assert t[..k] == s[..k] && t[k+1..] == s[k+1..];
    PendingAppend(s[..k], [s[k]] + s[k+1..]);
    PendingAppend([s[k]], s[k+1..]);
    PendingAppend(t[..k], [n] + t[k+1..]);
    PendingAppend([n], t[k+1..]);
  }

  /** The done notes after replacing the note at `k`, likewise. */
  lemma CompletedUpdate(s: seq<Note>, k: nat, n: Note)
    requires k < |s|
    ensures multiset(Completed(s[k := n])) + multiset(Completed([s[k]])) ==
      multiset(Completed(s)) + multiset(Completed([n]))
  {
    var t := s[k := n];
    SplitAt(s, k);
    SplitAt(t, k);
    assert t[..k] == s[..k] && t[k+1..] == s[k+1..];
    CompletedAppend(s[..k], [s[k]] + s[k+1..]);
    CompletedAppend([s[k]], s[k+1..]);
    CompletedAppend(t[..k], [n] + t[k+1..]);
    CompletedAppend([n], t[k+1..]);
  }

  /** Number of pending notes after replacing the note at `k`. */
  lemma PendingUpdateCount(s: seq<Note>, k: nat, n: Note)
    requires k < |s|
    ensures |Pending(s[k := n])| + (if s[k].done then 0 else 1) ==
      |Pending(s)| + (if n.done then 0 else 1)
  {
    PendingUpdate(s, k, n);
    assert [s[k]][1..] == [] && [n][1..] == [];
    assert |multiset(Pending(s[k := n]) + Pending([s[k]]))| == |multiset(Pending(s) + Pending([n]))|;
  }

  /** Number of done notes after replacing the note at `k`. */
  lemma CompletedUpdateCount(s: seq<Note>, k: nat, n: Note)
    requires k < |s|
    ensures |Completed(s[k := n])| + (if s[k].done then 1 else 0) ==
      |Completed(s)| + (if n.done then 1 else 0)
  {
    ViewsPartition(s);
    ViewsPartition(s[k := n]);
    PendingUpdateCount(s, k, n);
  }

  lemma SplitAt(s: seq<Note>, k: nat)
    requires k < |s|
    ensures s == s[..k] + ([s[k]] + s[k+1..])
  {
  }

  /** Ticking a pending root in the todo view moves that very note to the
      done view: it leaves the pending roots, and its done version joins
      the done roots; nothing else changes in either view. */
  lemma DoneMovesNote(s: seq<Note>, id: string)
    requires Lists.IndexOf(s, id) >= 0 && !s[Lists.IndexOf(s, id)].done
    ensures var k, t := Lists.IndexOf(s, id), SetDoneFirst(s, id, true);
      multiset(Pending(t)) + multiset{s[k]} == multiset(Pending(s)) &&
      multiset(Completed(t)) == multiset(Completed(s)) + multiset{t[k]}
    ensures |Pending(SetDoneFirst(s, id, true))| + 1 == |Pending(s)|
    ensures |Completed(SetDoneFirst(s, id, true))| == |Completed(s)| + 1
  {
    var k := Lists.IndexOf(s, id);
    var n := s[k].(done := true);
    assert SetDoneFirst(s, id, true) == s[k := n];
    Flip(s[k], n);
    PendingUpdate(s, k, n);
    CompletedUpdate(s, k, n);
    PendingUpdateCount(s, k, n);
    CompletedUpdateCount(s, k, n);
  }

  /** Unticking a done root in the done view moves that very note back to
      the todo view. */
  lemma RedoMovesNote(s: seq<Note>, id: string)
    requires Lists.IndexOf(s, id) >= 0 && s[Lists.IndexOf(s, id)].done
    ensures var k, t := Lists.IndexOf(s, id), SetDoneFirst(s, id, false);
      multiset(Pending(t)) == multiset(Pending(s)) + multiset{t[k]} &&
      multiset(Completed(t)) + multiset{s[k]} == multiset(Completed(s))
    ensures |Pending(SetDoneFirst(s, id, false))| == |Pending(s)| + 1
    ensures |Completed(SetDoneFirst(s, id, false))| + 1 == |Completed(s)|
  {
    var k := Lists.IndexOf(s, id);
    var n := s[k].(done := false);
    assert SetDoneFirst(s, id, false) == s[k := n];
    Flip(n, s[k]);
    PendingUpdate(s, k, n);
    CompletedUpdate(s, k, n);
    PendingUpdateCount(s, k, n);
    CompletedUpdateCount(s, k, n);
  }

  /** The filters of a one-note list, for a pending note and a done one. */
  lemma Flip(a: Note, b: Note)
    requires !a.done && b.done
    ensures Pending([a]) == [a] && Pending([b]) == []
    ensures Completed([a]) == [] && Completed([b]) == [b]
  {
    assert [a][1..] == [] && [b][1..] == [];
  }
}
