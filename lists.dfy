/** Operations on one list of sibling notes (the root list or a note's
    children): finding by id, the array `splice` moves, filtering by id and
    flag updates on the first match. */
module Lists {
  import opened Types
  import opened Forest

  /** `findIndex` by id: the index of the first note with the id, or -1. */
  function IndexOf(s: seq<Note>, id: string): (r: int)
    ensures -1 <= r < |s|
    ensures r >= 0 ==> s[r].id == id && forall j :: 0 <= j < r ==> s[j].id != id
    ensures r == -1 <==> forall j :: 0 <= j < |s| ==> s[j].id != id
  {
    if s == [] then -1
    else if s[0].id == id then 0
    else
      var k := IndexOf(s[1..], id);
      if k == -1 then -1 else k + 1
  }

  /** Where `splice` starts for a start argument `i` on a list of length
      `len`: a negative start counts from the end, and both ends clamp. */
  function SpliceStart(i: int, len: nat): (k: nat)
    ensures k <= len
    ensures 0 <= i <= len ==> k == i
    ensures -(len as int) <= i < 0 ==> k == len as int + i
    ensures i > len ==> k == len
    ensures i < -(len as int) ==> k == 0
  {
    if i < 0 then (if len + i < 0 then 0 else len + i)
    else if i > len then len
    else i
  }

  /** `splice(i, 1)`: the list without the element the start `i` names. */
  function RemoveAt(s: seq<Note>, i: int): (r: seq<Note>)
    requires -|s| <= i < |s|
    ensures |r| == |s| - 1
    ensures var k := SpliceStart(i, |s|);
      multiset(r) + multiset{s[k]} == multiset(s)
    ensures var k := SpliceStart(i, |s|);
      forall j :: 0 <= j < |r| ==> r[j] == if j < k then s[j] else s[j + 1]
  {
    var k := SpliceStart(i, |s|);
    CutOut(s, k);
    s[..k] + s[k+1..]
  }

  /** Cutting out the element at `k`: one fewer of it, the rest in order. */
  lemma CutOut(s: seq<Note>, k: nat)
    requires k < |s|
    ensures var r := s[..k] + s[k+1..];
      multiset(r) + multiset{s[k]} == multiset(s) &&
      forall j :: 0 <= j < |r| ==> r[j] == if j < k then s[j] else s[j + 1]
  {
    assert s == s[..k] + [s[k]] + s[k+1..];
  }

  /** `splice(i, 0, x)`: the list with `x` inserted where the start `i` names. */
  function InsertAt(s: seq<Note>, i: int, x: Note): (r: seq<Note>)
    ensures |r| == |s| + 1
    ensures multiset(r) == multiset(s) + multiset{x}
    ensures r[SpliceStart(i, |s|)] == x
    ensures var k := SpliceStart(i, |s|);
      forall j :: 0 <= j < |s| ==> s[j] == if j < k then r[j] else r[j + 1]
  {
    var k := SpliceStart(i, |s|);
    PutIn(s, k, x);
    s[..k] + [x] + s[k..]
  }

  /** Putting `x` in at `k`: one more of it, the old elements in order around it. */
  lemma PutIn(s: seq<Note>, k: nat, x: Note)
    requires k <= |s|
    ensures var r := s[..k] + [x] + s[k..];
      multiset(r) == multiset(s) + multiset{x} &&
      forall j :: 0 <= j < |s| ==> s[j] == if j < k then r[j] else r[j + 1]
  {
    assert s == s[..k] + s[k..];
  }

  /** `tmp.splice(to, 0, tmp.splice(from, 1)[0])`: the element at `from`
      is taken out, then put back at `to` in the shortened list. */
  function MoveItem(s: seq<Note>, to: int, from: int): (r: seq<Note>)
    requires -|s| <= from < |s|
    ensures |r| == |s| && multiset(r) == multiset(s)
  {
    InsertAt(RemoveAt(s, from), to, s[SpliceStart(from, |s|)])
  }

  /** A move with both indices inside the list is a permutation that puts
      the moved note at `to` and keeps every other note in its order. */
  lemma MoveSpec(s: seq<Note>, to: int, from: int)
    requires 0 <= from < |s| && 0 <= to < |s|
    ensures var r := MoveItem(s, to, from);
      |r| == |s| && multiset(r) == multiset(s) && r[to] == s[from] &&
      r[..to] + r[to+1..] == s[..from] + s[from+1..]
  {
    var rest := RemoveAt(s, from);
    var r := MoveItem(s, to, from);
    assert r == rest[..to] + [s[from]] + rest[to..];
    assert r[..to] == rest[..to];
    assert r[to+1..] == rest[to..];
    assert rest == rest[..to] + rest[to..];
  }

  /** `r` is `s` with the note at `from` moved to `to`: a permutation,
      the others in their order, and the moved note just after the note
      that was at `to` when moved downwards, just before it when moved
      upwards. */
  ghost predicate MovedNextTo(s: seq<Note>, r: seq<Note>, to: int, from: int)
  {
    0 <= from < |s| && 0 <= to < |s| && |r| == |s| &&
    multiset(r) == multiset(s) && r[to] == s[from] &&
    r[..to] + r[to+1..] == s[..from] + s[from+1..] &&
    (from < to ==> r[to - 1] == s[to]) &&
    (from > to ==> r[to + 1] == s[to])
  }

  /** Dropping a root on another root: dragged downwards the note lands
      just after the target, dragged upwards just before it. */
  lemma MoveNextToTarget(s: seq<Note>, to: int, from: int)
    requires 0 <= from < |s| && 0 <= to < |s| && from != to
    ensures MovedNextTo(s, MoveItem(s, to, from), to, from)
  {
    var r := MoveItem(s, to, from);
    MoveSpec(s, to, from);
    var rest := s[..from] + s[from+1..];
    if from < to {
      assert rest[to - 1] == s[to];
      assert (r[..to] + r[to+1..])[to - 1] == r[to - 1];
    } else {
      assert rest[to] == s[to];
      assert (r[..to] + r[to+1..])[to] == r[to + 1];
    }
  }

  /** The reorder of siblings: the note with `srcId` is taken out, then put
      back where the note with `targetId` sits in the shortened list. */
  function Reorder(c: seq<Note>, srcId: string, targetId: string): (r: seq<Note>)
    requires |c| > 0
    ensures |r| == |c| && multiset(r) == multiset(c)
  {
    var from := IndexOf(c, srcId);
    var rest := RemoveAt(c, from);
    InsertAt(rest, IndexOf(rest, targetId), c[SpliceStart(from, |c|)])
  }

  /** When both notes are among the siblings, the moved note ends up
      immediately before the target, and the others keep their order. */
  lemma ReorderBeforeTarget(c: seq<Note>, srcId: string, targetId: string)
    requires IndexOf(c, srcId) >= 0
    requires IndexOf(RemoveAt(c, IndexOf(c, srcId)), targetId) >= 0
    ensures var r := Reorder(c, srcId, targetId);
      var j := IndexOf(RemoveAt(c, IndexOf(c, srcId)), targetId);
      r[j] == c[IndexOf(c, srcId)] && r[j].id == srcId &&
      r[j + 1].id == targetId &&
      r[..j] + r[j+1..] == RemoveAt(c, IndexOf(c, srcId))
  {
    var from := IndexOf(c, srcId);
    var rest := RemoveAt(c, from);
    var j := IndexOf(rest, targetId);
    var r := Reorder(c, srcId, targetId);
    assert r == rest[..j] + [c[from]] + rest[j..];
    assert r[j + 1] == rest[j];
    assert r[..j] == rest[..j];
    assert r[j+1..] == rest[j..];
    assert rest == rest[..j] + rest[j..];
  }

  /** `filter(item => item.id !== id)`. */
  function RemoveId(s: seq<Note>, id: string): (r: seq<Note>)
    ensures forall n :: n in r <==> n in s && n.id != id
    ensures |r| <= |s|
  {
    if s == [] then []
    else (if s[0].id != id then [s[0]] else []) + RemoveId(s[1..], id)
  }

  /** The notes `RemoveId` drops. */
  function MatchId(s: seq<Note>, id: string): (r: seq<Note>)
    ensures forall n :: n in r <==> n in s && n.id == id
  {
    if s == [] then []
    else (if s[0].id == id then [s[0]] else []) + MatchId(s[1..], id)
  }

  /** Filtering works piece by piece, so the kept notes stay in order. */
  lemma {:induction false} RemoveIdAppend(a: seq<Note>, b: seq<Note>, id: string)
    ensures RemoveId(a + b, id) == RemoveId(a, id) + RemoveId(b, id)
    decreases a
  {
    if a == [] {
      assert a + b == b;
    } else {
      assert (a + b)[0] == a[0];
      assert (a + b)[1..] == a[1..] + b;
      RemoveIdAppend(a[1..], b, id);
    }
  }

  /** Removing by id splits the list: every note is either kept or dropped,
      and with a note go the ids of its whole subtree. */
  lemma {:induction false} RemoveIdSplits(s: seq<Note>, id: string)
    ensures |RemoveId(s, id)| + |MatchId(s, id)| == |s|
    ensures Ids(RemoveId(s, id)) + Ids(MatchId(s, id)) == Ids(s)
    decreases s
  {
    if s != [] {
      var x, rest := s[0], s[1..];
      RemoveIdSplits(rest, id);
      assert Ids(s) == NoteIds(x) + Ids(rest);
      if x.id != id {
        assert RemoveId(s, id) == [x] + RemoveId(rest, id);
        assert MatchId(s, id) == MatchId(rest, id) by {
          assert [] + MatchId(rest, id) == MatchId(rest, id);
        }
        IdsCons(x, RemoveId(rest, id));
      } else {
        assert RemoveId(s, id) == RemoveId(rest, id) by {
          assert [] + RemoveId(rest, id) == RemoveId(rest, id);
        }
        assert MatchId(s, id) == [x] + MatchId(rest, id);
        IdsCons(x, MatchId(rest, id));
      }
    }
  }

  /** The ids of a list with a note in front. */
  lemma IdsCons(x: Note, t: seq<Note>)
    ensures Ids([x] + t) == NoteIds(x) + Ids(t)
  {
    assert ([x] + t)[0] == x && ([x] + t)[1..] == t;
  }

  /** With unique ids, nothing of a removed note's subtree is left. */
  lemma RemoveIdUnique(s: seq<Note>, n: Note)
    requires Unique(s) && n in s
    ensures forall x :: x in NoteIds(n) ==> x !in Ids(RemoveId(s, n.id))
  {
    RemoveIdSplits(s, n.id);
    var k :| 0 <= k < |MatchId(s, n.id)| && MatchId(s, n.id)[k] == n;
    IdsSplit(MatchId(s, n.id), k);
    forall x | x in NoteIds(n)
      ensures x !in Ids(RemoveId(s, n.id))
    {
      assert x in Ids(MatchId(s, n.id));
      assert x in Ids(s);
    }
  }

  /** The loop of `done`/`redo`: the first note with the id gets the flag,
      every other note is left as it was. */
  function SetDoneFirst(s: seq<Note>, id: string, v: bool): (r: seq<Note>)
    ensures |r| == |s|
    ensures IndexOf(s, id) == -1 ==> r == s
    ensures IndexOf(s, id) >= 0 ==> r[IndexOf(s, id)] == s[IndexOf(s, id)].(done := v)
    ensures forall j :: 0 <= j < |s| && j != IndexOf(s, id) ==> r[j] == s[j]
  {
    var k := IndexOf(s, id);
    if k < 0 then s else s[k := s[k].(done := v)]
  }

  /** Setting the flag twice is setting it once. */
  lemma SetDoneIdempotent(s: seq<Note>, id: string, v: bool)
    ensures SetDoneFirst(SetDoneFirst(s, id, v), id, v) == SetDoneFirst(s, id, v)
  {
    var r := SetDoneFirst(s, id, v);
    assert forall j :: 0 <= j < |s| ==> r[j].id == s[j].id;
    assert IndexOf(r, id) == IndexOf(s, id);
  }

  /** `done` followed by `redo` on a note that was not done restores the list. */
  lemma DoneThenRedo(s: seq<Note>, id: string)
    requires IndexOf(s, id) >= 0 ==> !s[IndexOf(s, id)].done
    ensures SetDoneFirst(SetDoneFirst(s, id, true), id, false) == s
  {
    var r := SetDoneFirst(s, id, true);
    assert forall j :: 0 <= j < |s| ==> r[j].id == s[j].id;
    assert IndexOf(r, id) == IndexOf(s, id);
  }

  /** `done` and `redo` neither reach a nested note nor cascade: an id
      that names no root changes nothing, no root's children change, and
      every note below the roots is left as it was. */
  lemma DoneDoesNotCascade(s: seq<Note>, id: string, v: bool)
    ensures IndexOf(s, id) == -1 ==> SetDoneFirst(s, id, v) == s
    ensures forall j :: 0 <= j < |s| ==> SetDoneFirst(s, id, v)[j].children == s[j].children
    ensures forall p :: ValidPath(s, p) && |p| > 1 ==>
      ValidPath(SetDoneFirst(s, id, v), p) && At(SetDoneFirst(s, id, v), p) == At(s, p)
  {
    var r := SetDoneFirst(s, id, v);
    forall p | ValidPath(s, p) && |p| > 1
      ensures ValidPath(r, p) && At(r, p) == At(s, p)
    {
      assert r[p[0]].children == s[p[0]].children;
    }
  }

  /** Only a flag changes, so no id appears or disappears. */
  lemma SetDoneKeepsIds(s: seq<Note>, id: string, v: bool)
    ensures Ids(SetDoneFirst(s, id, v)) == Ids(s)
  {
    var k := IndexOf(s, id);
    if k >= 0 {
      var n := s[k].(done := v);
      IdsUpdate(s, k, n);
      assert NoteIds(n) == NoteIds(s[k]);
      var a, b, c := Ids(s[k := n]), Ids(s), NoteIds(n);
      assert a + c == b + c;
      assert forall x :: a[x] == (a + c)[x] - c[x] == (b + c)[x] - c[x] == b[x];
    }
  }

  /** The `forEach` of `markAllDone`: every note of the list is done, its
      children untouched. */
  function MarkAll(s: seq<Note>): (r: seq<Note>)
    ensures |r| == |s|
    ensures forall j :: 0 <= j < |s| ==> r[j] == s[j].(done := true)
  {
    seq(|s|, j requires 0 <= j < |s| => s[j].(done := true))
  }

  /** Marking every root done keeps every id. */
  lemma {:induction false} MarkAllKeepsIds(s: seq<Note>)
    ensures Ids(MarkAll(s)) == Ids(s)
    decreases s
  {
    if s != [] {
      MarkAllKeepsIds(s[1..]);
      assert MarkAll(s)[1..] == MarkAll(s[1..]);
    }
  }

  /** `markAllDone` does not cascade either: every note below the roots is
      left as it was. */
  lemma MarkAllKeepsNested(s: seq<Note>)
    ensures forall p :: ValidPath(s, p) && |p| > 1 ==>
      ValidPath(MarkAll(s), p) && At(MarkAll(s), p) == At(s, p)
  {
    var r := MarkAll(s);
    forall p | ValidPath(s, p) && |p| > 1
      ensures ValidPath(r, p) && At(r, p) == At(s, p)
    {
      assert r[p[0]].children == s[p[0]].children;
    }
  }

  /** Taking a note out of the list takes its subtree's ids with it. */
  lemma IdsRemoveAt(s: seq<Note>, i: int)
    requires -|s| <= i < |s|
    ensures Ids(RemoveAt(s, i)) + NoteIds(s[SpliceStart(i, |s|)]) == Ids(s)
  {
    var k := SpliceStart(i, |s|);
    assert RemoveAt(s, i) == s[..k] + s[k+1..];
    IdsSplit(s, k);
    IdsAppend(s[..k], s[k+1..]);
    Swap(Ids(s[..k]), NoteIds(s[k]), Ids(s[k+1..]));
  }

  lemma Swap<T>(a: multiset<T>, b: multiset<T>, c: multiset<T>)
    ensures a + b + c == a + c + b
  {
  }

  lemma IdsCut(s: seq<Note>, k: nat)
    requires k <= |s|
    ensures Ids(s) == Ids(s[..k]) + Ids(s[k..])
  {
    assert s == s[..k] + s[k..];
    IdsAppend(s[..k], s[k..]);
  }

  lemma IdsMiddle(a: seq<Note>, x: Note, b: seq<Note>)
    ensures Ids(a + [x] + b) == Ids(a) + NoteIds(x) + Ids(b)
  {
    IdsSplit(a + [x] + b, |a|);
    assert (a + [x] + b)[..|a|] == a && (a + [x] + b)[|a| + 1..] == b;
  }

  /** Putting a note into the list adds its subtree's ids. */
  lemma IdsInsertAt(s: seq<Note>, i: int, x: Note)
    ensures Ids(InsertAt(s, i, x)) == Ids(s) + NoteIds(x)
  {
    var k := SpliceStart(i, |s|);
    IdsMiddle(s[..k], x, s[k..]);
    IdsCut(s, k);
    Swap(Ids(s[..k]), NoteIds(x), Ids(s[k..]));
  }

  /** A move keeps every id of the list's subtrees. */
  lemma IdsMoveItem(s: seq<Note>, to: int, from: int)
    requires -|s| <= from < |s|
    ensures Ids(MoveItem(s, to, from)) == Ids(s)
  {
    IdsRemoveAt(s, from);
    IdsInsertAt(RemoveAt(s, from), to, s[SpliceStart(from, |s|)]);
  }

  /** A reorder keeps every id of the list's subtrees. */
  lemma IdsReorder(c: seq<Note>, srcId: string, targetId: string)
    requires |c| > 0
    ensures Ids(Reorder(c, srcId, targetId)) == Ids(c)
  {
    var from := IndexOf(c, srcId);
    var rest := RemoveAt(c, from);
    IdsRemoveAt(c, from);
    IdsInsertAt(rest, IndexOf(rest, targetId), c[SpliceStart(from, |c|)]);
  }
}
