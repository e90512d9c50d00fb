/** Walks through the directory tree: a dot-free path is unique, and what removing a subtree leaves
    of every walk. */
module FsWalks {
  import opened Basics
  import opened FsModel
  import opened FsTree
  import opened FsRemove

  predicate NoDots(comps: seq<string>) { forall i :: 0 <= i < |comps| ==> comps[i] != "." && comps[i] != ".." }

  /** One name down: the inode is recorded under the directory it was found in. */
  lemma WalkName(d: Disk, w: Places, rk: Ranks, p: nat, c: string, x: nat)
    requires Tree(d, w, rk) && c != "." && c != ".." && Walk(d, p, [c]) == Some(x)
    ensures IsDir(d, p) && x in w && w[x].dir == p
    ensures Lookup(d, p, c, 0) == Some(w[x].slot) && DirSlot(d, p, w[x].slot).ino == x &&
      DirSlot(d, p, w[x].slot).name == c
  {
    assert [c][1..] == [];
    var k := Lookup(d, p, c, 0).value;
    FoundPlace(d, w, rk, p, c, k);
  }

  /** ".." leads to the directory that names this one. */
  lemma WalkUp(d: Disk, w: Places, rk: Ranks, x: nat)
    requires Tree(d, w, rk) && IsDir(d, x)
    ensures Walk(d, x, [".."]) == Some(ParentOf(w, x))
  {
    assert [".."][1..] == [];
    assert !Matches(DirSlot(d, x, 0), "..") && Matches(DirSlot(d, x, 1), "..");
    var r := Lookup(d, x, "..", 0);
    assert r == Some(1);
  }

  lemma WalkLast(d: Disk, cur: nat, comps: seq<string>, x: nat) returns (p: nat)
    requires comps != [] && Walk(d, cur, comps) == Some(x)
    ensures Walk(d, cur, comps[..|comps| - 1]) == Some(p) && Walk(d, p, [comps[|comps| - 1]]) == Some(x)
  {
    var s, c := comps[..|comps| - 1], comps[|comps| - 1];
    assert comps == s + [c];
    WalkAppend(d, cur, s, [c]);
    p := Walk(d, cur, s).value;
  }

  lemma WalkNowhere(d: Disk, cur: nat)
    ensures Walk(d, cur, []) == Some(cur)
  {}

  /** Only one path without "." and ".." leads from the root to an inode. */
  lemma {:induction false} PathUnique(d: Disk, w: Places, rk: Ranks, a: seq<string>, b: seq<string>, x: nat)
    requires Tree(d, w, rk) && NoDots(a) && NoDots(b)
    requires Walk(d, ROOT, a) == Some(x) && Walk(d, ROOT, b) == Some(x)
    ensures a == b
    decreases |a|
  {
    hide EntriesOk, DotsOk, UniqueNames, Walk, Ranked;
    WalkNowhere(d, ROOT);
    if a != [] { NotRoot(d, w, rk, a, x); }
    if b != [] { NotRoot(d, w, rk, b, x); }
    if a != [] && b != [] {
      var p := WalkLast(d, ROOT, a, x);
      var q := WalkLast(d, ROOT, b, x);
      WalkName(d, w, rk, p, a[|a| - 1], x);
      WalkName(d, w, rk, q, b[|b| - 1], x);
      PathUnique(d, w, rk, a[..|a| - 1], b[..|b| - 1], p);
      assert a == a[..|a| - 1] + [a[|a| - 1]] && b == b[..|b| - 1] + [b[|b| - 1]];
    }
  }

  lemma NotRoot(d: Disk, w: Places, rk: Ranks, a: seq<string>, x: nat)
    requires Tree(d, w, rk) && NoDots(a) && a != [] && Walk(d, ROOT, a) == Some(x)
    ensures x != ROOT
  {
    hide EntriesOk, DotsOk, UniqueNames, Walk, Ranked;
    var p := WalkLast(d, ROOT, a, x);
    WalkName(d, w, rk, p, a[|a| - 1], x);
  }

  // ---- removal ----

  /** The walk, given up on entering the subtree of c. */
  ghost function WalkWithout(d: Disk, w: Places, rk: Ranks, c: nat, cur: nat, comps: seq<string>): Option<nat>
    requires Ranked(w, rk)
    decreases |comps|
  {
    if comps == [] then Some(cur)
    else if comps[0] == "." then WalkWithout(d, w, rk, c, cur, comps[1..])
    else if !IsDir(d, cur) then None
    else match Lookup(d, cur, comps[0], 0)
      case None => None
      case Some(k) =>
        if Under(w, rk, c, DirSlot(d, cur, k).ino) then None
        else WalkWithout(d, w, rk, c, DirSlot(d, cur, k).ino, comps[1..])
  }

  lemma RemovedSlots(d: Disk, e: Disk, w: Places, rk: Ranks, c: nat, p: nat)
    requires Ranked(w, rk) && c in w && Unlinked(d, e, w, rk, c) && IsDir(d, p) && !Under(w, rk, c, p)
    ensures IsDir(e, p) && Used(e.ino[p]) == Used(d.ino[p])
    ensures forall m {:trigger DirSlot(e, p, m)} :: 0 <= m < Used(d.ino[p]) ==>
      DirSlot(e, p, m) == if Place(p, m) == w[c] then EMPTY_ENTRY else DirSlot(d, p, m)
  {
    assert e.ino[p] == d.ino[p];
  }

  /** From outside the subtree, only the cleared slot leads into it. */
  lemma IntoSubtree(d: Disk, w: Places, rk: Ranks, c: nat, p: nat, name: string, k: nat)
    requires Tree(d, w, rk) && c in w && IsDir(d, p) && !Under(w, rk, c, p) && Lookup(d, p, name, 0) == Some(k)
    ensures Under(w, rk, c, DirSlot(d, p, k).ino) <==> Place(p, k) == w[c]
    ensures Place(p, k) == w[c] ==> forall m :: 0 <= m < Used(d.ino[p]) && m != k ==> !Matches(DirSlot(d, p, m), name)
  {
    assert DirSlot(d, w[c].dir, w[c].slot).ino == c;
    if k >= 2 {
      assert IsLink(DirSlot(d, p, k), w, Place(p, k));
    } else {
      assert DirSlot(d, p, 0).ino == p && DirSlot(d, p, 1).ino == ParentOf(w, p);
    }
    if Place(p, k) == w[c] {
      forall m | 0 <= m < Used(d.ino[p]) && m != k ensures !Matches(DirSlot(d, p, m), name) {
        assert IsLink(DirSlot(d, p, k), w, Place(p, k));
      }
    }
  }

  lemma RemovedLookup(d: Disk, e: Disk, w: Places, rk: Ranks, c: nat, p: nat, name: string)
    requires Tree(d, w, rk) && c in w && Unlinked(d, e, w, rk, c) && IsDir(d, p) && !Under(w, rk, c, p)
    ensures IsDir(e, p)
    ensures Lookup(e, p, name, 0) ==
      match Lookup(d, p, name, 0)
      case None => None
      case Some(k) => if Under(w, rk, c, DirSlot(d, p, k).ino) then None else Some(k)
    ensures Lookup(e, p, name, 0).Some? ==>
      DirSlot(e, p, Lookup(e, p, name, 0).value) == DirSlot(d, p, Lookup(e, p, name, 0).value)
  {
    hide Named, EntriesOk, DotsOk, UniqueNames, Unlinked, Under;
    RemovedSlots(d, e, w, rk, c, p);
    var r, r' := Lookup(d, p, name, 0), Lookup(e, p, name, 0);
    assert !Matches(EMPTY_ENTRY, name);
    forall m | 0 <= m < Used(d.ino[p])
      ensures Matches(DirSlot(e, p, m), name) <==> Matches(DirSlot(d, p, m), name) && Place(p, m) != w[c]
    {}
    if r.Some? {
      IntoSubtree(d, w, rk, c, p, name, r.value);
      assert Matches(DirSlot(e, p, r.value), name) <==> Place(p, r.value) != w[c];
    }
  }

  /** After a removal every walk from outside the subtree is the old one, unless that entered the
      subtree: then it fails. */
  lemma {:induction false} RemovedWalk(d: Disk, e: Disk, w: Places, rk: Ranks, c: nat, cur: nat, comps: seq<string>)
    requires Tree(d, w, rk) && c in w && Unlinked(d, e, w, rk, c) && !Under(w, rk, c, cur)
    ensures Walk(e, cur, comps) == WalkWithout(d, w, rk, c, cur, comps)
    decreases |comps|
  {
    hide Named, EntriesOk, DotsOk, UniqueNames, Under;
    if comps != [] {
      if comps[0] == "." {
        RemovedWalk(d, e, w, rk, c, cur, comps[1..]);
      } else if IsDir(d, cur) {
        RemovedLookup(d, e, w, rk, c, cur, comps[0]);
        var r := Lookup(e, cur, comps[0], 0);
        if r.Some? { RemovedWalk(d, e, w, rk, c, DirSlot(d, cur, r.value).ino, comps[1..]); }
      } else {
        NotDirKept(d, e, w, rk, c, cur);
      }
    }
  }

  lemma NotDirKept(d: Disk, e: Disk, w: Places, rk: Ranks, c: nat, cur: nat)
    requires Ranked(w, rk) && c in w && Unlinked(d, e, w, rk, c) && !IsDir(d, cur)
    ensures !IsDir(e, cur)
  {
    if cur < INO_COUNT { assert e.ino[cur] == d.ino[cur] || IsZero(e.ino[cur]); }
  }

  /** A walk that stays outside is the walk. */
  lemma {:induction false} WithoutWalk(d: Disk, w: Places, rk: Ranks, c: nat, cur: nat, comps: seq<string>)
    requires Ranked(w, rk) && !Under(w, rk, c, cur) && WalkWithout(d, w, rk, c, cur, comps).Some?
    ensures Walk(d, cur, comps) == WalkWithout(d, w, rk, c, cur, comps)
    ensures !Under(w, rk, c, WalkWithout(d, w, rk, c, cur, comps).value)
    decreases |comps|
  {
    hide Under;
    if comps != [] {
      if comps[0] == "." {
        WithoutWalk(d, w, rk, c, cur, comps[1..]);
      } else {
        WithoutWalk(d, w, rk, c, DirSlot(d, cur, Lookup(d, cur, comps[0], 0).value).ino, comps[1..]);
      }
    }
  }

  /** A dot-free path to an inode outside the subtree never enters it. */
  lemma {:induction false} PlainStaysOut(d: Disk, w: Places, rk: Ranks, c: nat, cur: nat, comps: seq<string>, x: nat)
    requires Tree(d, w, rk) && NoDots(comps) && Walk(d, cur, comps) == Some(x) && !Under(w, rk, c, x)
    ensures WalkWithout(d, w, rk, c, cur, comps) == Some(x) && !Under(w, rk, c, cur)
    decreases |comps|
  {
    hide Named, EntriesOk, DotsOk, UniqueNames;
    if comps != [] {
      var k := Lookup(d, cur, comps[0], 0).value;
      FoundPlace(d, w, rk, cur, comps[0], k);
      PlainStaysOut(d, w, rk, c, DirSlot(d, cur, k).ino, comps[1..], x);
    }
  }

  /** The path that led to the removed inode leads nowhere. */
  lemma RemovedGone(d: Disk, e: Disk, w: Places, rk: Ranks, c: nat, cur: nat, comps: seq<string>, i: nat)
    requires Tree(d, w, rk) && c in w && Unlinked(d, e, w, rk, c) && Walk(d, cur, comps) == Some(c)
    requires i < |comps| && comps[i] != "."
    ensures Walk(e, cur, comps) == None
  {
    hide Named, EntriesOk, DotsOk, UniqueNames;
    if Under(w, rk, c, cur) {
      if cur < INO_COUNT { assert IsZero(e.ino[cur]); }
      WalkFree(e, cur, comps, i);
    } else {
      RemovedWalk(d, e, w, rk, c, cur, comps);
      if Walk(e, cur, comps).Some? { WithoutWalk(d, w, rk, c, cur, comps); }
    }
  }

  lemma {:induction false} WalkFree(e: Disk, cur: nat, comps: seq<string>, i: nat)
    requires !IsDir(e, cur) && i < |comps| && comps[i] != "."
    ensures Walk(e, cur, comps) == None
    decreases |comps|
  {
    if comps[0] == "." { WalkFree(e, cur, comps[1..], i - 1); }
  }

  /** What is left of every walk when the subtree of c is gone. */
  ghost predicate WalksLeft(d: Disk, e: Disk, w: Places, rk: Ranks, c: nat)
    requires Ranked(w, rk)
  {
    forall cur, comps {:trigger Walk(e, cur, comps)} :: 0 <= cur && !Under(w, rk, c, cur) ==>
      Walk(e, cur, comps) == WalkWithout(d, w, rk, c, cur, comps)
  }

  lemma UnlinkedWalks(d: Disk, e: Disk, w: Places, rk: Ranks, c: nat)
    requires Tree(d, w, rk) && c in w && Unlinked(d, e, w, rk, c)
    ensures WalksLeft(d, e, w, rk, c)
  {
    hide Named, EntriesOk, DotsOk, UniqueNames, Under, Unlinked, Walk, WalkWithout;
    forall cur, comps | 0 <= cur && !Under(w, rk, c, cur)
      ensures Walk(e, cur, comps) == WalkWithout(d, w, rk, c, cur, comps) {
      RemovedWalk(d, e, w, rk, c, cur, comps);
    }
  }
}
