/** The note forest as a value: the ids it holds, paths to its notes, the
    depth-first lookup the store performs, and replacing one note in place. */
module Forest {
  import opened Types

  /** The position of a note: an index into the root list, then an index
      into each successive child list. */
  type Path = seq<nat>

  /** Every id of the forest, at any depth, with its multiplicity. */
  ghost function Ids(s: seq<Note>): multiset<string>
    decreases s
  {
    if s == [] then multiset{} else multiset{s[0].id} + Ids(s[0].children) + Ids(s[1..])
  }

  /** The ids of a note's whole subtree, its own included. */
  ghost function NoteIds(n: Note): multiset<string>
  {
    multiset{n.id} + Ids(n.children)
  }

  /** No element occurs twice. */
  ghost predicate NoDup(m: multiset<string>)
  {
    forall x :: x in m ==> m[x] == 1
  }

  /** No id occurs twice anywhere in the forest. */
  ghost predicate Unique(s: seq<Note>)
  {
    NoDup(Ids(s))
  }

  lemma NoDupSub(a: multiset<string>, b: multiset<string>)
    requires a <= b && NoDup(b)
    ensures NoDup(a)
  {
    forall x | x in a ensures a[x] == 1 {
      assert x in b;
    }
  }

  lemma NoDupAdd(m: multiset<string>, x: string)
    requires NoDup(m) && x !in m
    ensures NoDup(m + multiset{x})
  {
    var m' := m + multiset{x};
    forall y | y in m' ensures m'[y] == 1 {
      if y != x {
        assert m'[y] == m[y];
      }
    }
  }

  lemma {:induction false} IdsAppend(a: seq<Note>, b: seq<Note>)
    ensures Ids(a + b) == Ids(a) + Ids(b)
    decreases a
  {
    if a == [] {
      assert a + b == b;
    } else {
      assert (a + b)[0] == a[0];
      assert (a + b)[1..] == a[1..] + b;
      IdsAppend(a[1..], b);
    }
  }

  /** The ids of a forest are those of its roots' subtrees, root by root. */
  lemma IdsSplit(s: seq<Note>, i: nat)
    requires i < |s|
    ensures Ids(s) == Ids(s[..i]) + NoteIds(s[i]) + Ids(s[i+1..])
  {
    assert s == s[..i] + s[i..];
    IdsAppend(s[..i], s[i..]);
    assert s[i..][0] == s[i];
    assert s[i..][1..] == s[i+1..];
  }

  lemma IdsUpdate(s: seq<Note>, i: nat, n: Note)
    requires i < |s|
    ensures Ids(s[i := n]) + NoteIds(s[i]) == Ids(s) + NoteIds(n)
  {
    IdsSplit(s, i);
    IdsSplit(s[i := n], i);
    assert s[i := n][..i] == s[..i];
    assert s[i := n][i+1..] == s[i+1..];
  }

  /** Cancelling the common part of two multiset sums. */
  lemma Cancel<T>(r: multiset<T>, s: multiset<T>, k: multiset<T>, c: multiset<T>,
                  c': multiset<T>, na: multiset<T>, nn: multiset<T>)
    requires c' + na == c + nn
    requires r + (k + c) == s + (k + c')
    ensures r + na == s + nn
  {
    forall x ensures (r + na)[x] == (s + nn)[x] {
      assert (c' + na)[x] == (c + nn)[x];
      assert (r + (k + c))[x] == (s + (k + c'))[x];
    }
  }

  /** Cancelling the common part `o` of two multiset sums. */
  lemma CancelRight<T>(r: multiset<T>, s: multiset<T>, o: multiset<T>, c: multiset<T>)
    requires r + o == s + o + c
    ensures r == s + c
  {
    forall x ensures r[x] == (s + c)[x] {
      assert (r + o)[x] == (s + o + c)[x];
    }
  }

  /** A path that leads to a note of the forest. */
  ghost predicate ValidPath(s: seq<Note>, p: Path)
    decreases p
  {
    |p| > 0 && p[0] < |s| && (|p| == 1 || ValidPath(s[p[0]].children, p[1..]))
  }

  /** The note a valid path leads to. */
  function At(s: seq<Note>, p: Path): Note
    requires ValidPath(s, p)
    decreases p
  {
    if |p| == 1 then s[p[0]] else At(s[p[0]].children, p[1..])
  }

  /** The forest with the note at `p` replaced by `n` and everything else kept. */
  function ReplaceAt(s: seq<Note>, p: Path, n: Note): (r: seq<Note>)
    requires ValidPath(s, p)
    ensures |r| == |s| && ValidPath(r, p) && At(r, p) == n
    decreases p
  {
    if |p| == 1 then s[p[0] := n]
    else s[p[0] := s[p[0]].(children := ReplaceAt(s[p[0]].children, p[1..], n))]
  }

  /** Replacing a note and then putting the old one back gives the original
      forest: a replacement changes nothing but the note at `p`. */
  lemma {:induction false} ReplaceAtRestore(s: seq<Note>, p: Path, n: Note)
    requires ValidPath(s, p)
    ensures ReplaceAt(ReplaceAt(s, p, n), p, At(s, p)) == s
    decreases p
  {
    if |p| > 1 {
      ReplaceAtRestore(s[p[0]].children, p[1..], n);
    }
  }

  /** A note's subtree is part of the forest's ids. */
  lemma {:induction false} AtIds(s: seq<Note>, p: Path)
    requires ValidPath(s, p)
    ensures NoteIds(At(s, p)) <= Ids(s)
    decreases p
  {
    IdsSplit(s, p[0]);
    if |p| > 1 {
      AtIds(s[p[0]].children, p[1..]);
    }
  }

  /** Replacing a note swaps its subtree's ids for the new note's and
      leaves every other id in place. */
  lemma {:induction false} IdsReplaceAt(s: seq<Note>, p: Path, n: Note)
    requires ValidPath(s, p)
    ensures Ids(ReplaceAt(s, p, n)) + NoteIds(At(s, p)) == Ids(s) + NoteIds(n)
    decreases p
  {
    if |p| == 1 {
      IdsUpdate(s, p[0], n);
    } else {
      var o := s[p[0]];
      var c := o.children;
      var c' := ReplaceAt(c, p[1..], n);
      var o' := o.(children := c');
      var a := At(c, p[1..]);
      assert At(s, p) == a;
      assert ReplaceAt(s, p, n) == s[p[0] := o'];
      IdsReplaceAt(c, p[1..], n);
      assert Ids(c') + NoteIds(a) == Ids(c) + NoteIds(n);
      IdsUpdate(s, p[0], o');
      Cancel(Ids(s[p[0] := o']), Ids(s), multiset{o.id}, Ids(c), Ids(c'), NoteIds(a), NoteIds(n));
    }
  }

  /** The lookup the store performs. It scans `s` from index `i`; on a note
      with the id it records that note's path and stops scanning this list;
      otherwise it first searches the note's children, whose last hit
      overwrites `ret`. So the answer is the last hit recorded. */
  function Walk(s: seq<Note>, id: string, i: nat, ret: Option<Path>): (r: Option<Path>)
    requires i <= |s|
    ensures ret.Some? ==> r.Some?
    ensures r.Some? && r != ret ==> |r.value| > 0 && i <= r.value[0] < |s|
    decreases s, |s| - i
  {
    if i == |s| then ret
    else if s[i].id == id then Some([i])
    else
      var c := Walk(s[i].children, id, 0, None);
      Walk(s, id, i + 1, if c.Some? then Some([i] + c.value) else ret)
  }

  lemma {:induction false} WalkSound(s: seq<Note>, id: string, i: nat, ret: Option<Path>)
    requires i <= |s|
    requires ret.Some? ==> ValidPath(s, ret.value) && At(s, ret.value).id == id
    ensures var r := Walk(s, id, i, ret);
      r.Some? ==> ValidPath(s, r.value) && At(s, r.value).id == id
    decreases s, |s| - i
  {
    if i < |s| && s[i].id != id {
      var c := Walk(s[i].children, id, 0, None);
      WalkSound(s[i].children, id, 0, None);
      if c.Some? {
        assert ([i] + c.value)[1..] == c.value;
      }
      WalkSound(s, id, i + 1, if c.Some? then Some([i] + c.value) else ret);
    }
  }

  lemma {:induction false} WalkComplete(s: seq<Note>, id: string, i: nat, ret: Option<Path>)
    requires i <= |s|
    ensures Walk(s, id, i, ret).None? <==> ret.None? && id !in Ids(s[i..])
    decreases s, |s| - i
  {
    if i < |s| {
      assert s[i..][0] == s[i];
      assert s[i..][1..] == s[i+1..];
      if s[i].id != id {
        var c := Walk(s[i].children, id, 0, None);
        WalkComplete(s[i].children, id, 0, None);
        assert s[i].children[0..] == s[i].children;
        WalkComplete(s, id, i + 1, if c.Some? then Some([i] + c.value) else ret);
      }
    }
  }

  /** The path of the note the store's `get` returns, if any. */
  function Locate(s: seq<Note>, id: string): (r: Option<Path>)
    ensures r.Some? ==> ValidPath(s, r.value) && At(s, r.value).id == id
    ensures r.None? <==> id !in Ids(s)
  {
    WalkSound(s, id, 0, None);
    WalkComplete(s, id, 0, None);
    assert s[0..] == s;
    Walk(s, id, 0, None)
  }

  /** The note the store's `get` returns: a note with that id at any depth,
      or nothing exactly when no note of the forest has the id. */
  function Lookup(s: seq<Note>, id: string): (r: Option<Note>)
    ensures r.Some? ==>
      (r.value.id == id && Locate(s, id).Some? && r.value == At(s, Locate(s, id).value))
    ensures r.None? <==> id !in Ids(s)
  {
    match Locate(s, id)
    case Some(p) => Some(At(s, p))
    case None => None
  }

  /** `get` for an optional id: an absent id matches no note. */
  function LookupOpt(s: seq<Note>, id: Option<string>): (r: Option<Note>)
    ensures id.None? ==> r.None?
    ensures id.Some? ==> r == Lookup(s, id.value)
  {
    if id.Some? then Lookup(s, id.value) else None
  }

  function LocateOpt(s: seq<Note>, id: Option<string>): (r: Option<Path>)
    ensures id.None? ==> r.None?
    ensures id.Some? ==> r == Locate(s, id.value)
  {
    if id.Some? then Locate(s, id.value) else None
  }

  /** The note a path leads to lies in the subtree of the root it starts at. */
  lemma AtInRoot(s: seq<Note>, p: Path)
    requires ValidPath(s, p)
    ensures At(s, p).id in NoteIds(s[p[0]])
  {
    if |p| > 1 {
      AtIds(s[p[0]].children, p[1..]);
    }
  }

  /** The subtrees of two different roots are both part of the forest's ids. */
  lemma TwoRoots(s: seq<Note>, a: nat, b: nat)
    requires a < b < |s|
    ensures NoteIds(s[a]) + NoteIds(s[b]) <= Ids(s)
  {
    RootIn(s[..b], a);
    IdsSplit(s, b);
    AddLe(NoteIds(s[a]), Ids(s[..b]), NoteIds(s[b]), Ids(s[b+1..]));
  }

  /** A root's subtree is part of the forest's ids. */
  lemma RootIn(s: seq<Note>, i: nat)
    requires i < |s|
    ensures NoteIds(s[i]) <= Ids(s)
  {
    IdsSplit(s, i);
  }

  lemma AddLe<T>(x: multiset<T>, p: multiset<T>, y: multiset<T>, q: multiset<T>)
    requires x <= p
    ensures x + y <= p + y + q
  {
  }

  /** Two different paths lead to two occurrences of ids in the forest. */
  lemma {:induction false} TwoPaths(s: seq<Note>, p: Path, q: Path)
    requires ValidPath(s, p) && ValidPath(s, q) && p != q
    ensures multiset{At(s, p).id, At(s, q).id} <= Ids(s)
    decreases p, 1
  {
    if p[0] != q[0] {
      var x, y := At(s, p).id, At(s, q).id;
      assert multiset{x, y} == multiset{x} + multiset{y};
      AtInRoot(s, p);
      AtInRoot(s, q);
      if p[0] < q[0] {
        TwoRoots(s, p[0], q[0]);
      } else {
        TwoRoots(s, q[0], p[0]);
      }
    } else {
      TwoPathsOneRoot(s, p, q);
      IdsSplit(s, p[0]);
      LeTrans(multiset{At(s, p).id, At(s, q).id}, NoteIds(s[p[0]]), Ids(s));
    }
  }

  /** Two different paths into the subtree of the same root. */
  lemma {:induction false} TwoPathsOneRoot(s: seq<Note>, p: Path, q: Path)
    requires ValidPath(s, p) && ValidPath(s, q) && p != q && p[0] == q[0]
    ensures multiset{At(s, p).id, At(s, q).id} <= NoteIds(s[p[0]])
    decreases p, 0
  {
    var n := s[p[0]];
    if |p| == 1 {
      TopAndBelow(n, q[1..]);
    } else if |q| == 1 {
      TopAndBelow(n, p[1..]);
    } else {
      assert p[1..] != q[1..] by {
        assert p == [p[0]] + p[1..] && q == [q[0]] + q[1..];
      }
      TwoPaths(n.children, p[1..], q[1..]);
      LeTrans(multiset{At(s, p).id, At(s, q).id}, Ids(n.children), NoteIds(n));
    }
  }

  lemma LeTrans<T>(a: multiset<T>, b: multiset<T>, c: multiset<T>)
    requires a <= b && b <= c
    ensures a <= c
  {
  }

  /** A note's own id and an id below it are both in its subtree. */
  lemma TopAndBelow(n: Note, c: Path)
    requires ValidPath(n.children, c)
    ensures multiset{n.id, At(n.children, c).id} <= NoteIds(n)
  {
    var y := At(n.children, c).id;
    AtIds(n.children, c);
    assert y in NoteIds(At(n.children, c));
    assert multiset{n.id, y} == multiset{n.id} + multiset{y};
  }

  /** With unique ids, `get` finds the one note that has the id. */
  lemma LocateUnique(s: seq<Note>, q: Path)
    requires Unique(s) && ValidPath(s, q)
    ensures Locate(s, At(s, q).id) == Some(q)
  {
    var id := At(s, q).id;
    AtIds(s, q);
    var r := Locate(s, id);
    if r.value != q {
      TwoPaths(s, r.value, q);
      assert false;
    }
  }
}
