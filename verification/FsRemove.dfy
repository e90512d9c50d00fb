/** Removing a subtree: the disk part-way through, and after the entry is cleared. */
module FsRemove {
  import opened Basics
  import opened FsModel
  import opened FsBlocks
  import opened FsTree
  import opened FsCreate

  ghost function Sub(w: Places, rk: Ranks, a: nat): set<nat>
    requires Ranked(w, rk)
  {
    set y: nat | y < INO_COUNT && Under(w, rk, a, y)
  }

  /** Everything below the children of a named by slots before k. */
  ghost function SubUpTo(w: Places, rk: Ranks, a: nat, k: nat): set<nat>
    requires Ranked(w, rk)
  {
    set y: nat | y < INO_COUNT && UnderChild(w, rk, a, k, y)
  }

  /** inode_free_blocks of one of the inodes clears bit b. */
  ghost predicate FreedBy(d: Disk, gone: set<nat>, b: nat) {
    exists i :: i in gone && i < INO_COUNT && Frees(d.dat, d.ino[i], b)
  }

  /** e is d with the inodes in gone zeroed, and every bit cleared that freeing them clears. */
  ghost predicate Partial(d: Disk, e: Disk, gone: set<nat>) {
    && e.dat == d.dat
    && (forall i {:trigger e.ino[i]} {:trigger i in gone} :: 0 <= i < INO_COUNT ==>
          if i in gone then IsZero(e.ino[i]) else e.ino[i] == d.ino[i])
    && (forall b {:trigger e.bm[b]} :: 0 <= b < DATA_COUNT ==> (e.bm[b] <==> d.bm[b] && !FreedBy(d, gone, b)))
  }

  lemma PartialStart(d: Disk)
    ensures Partial(d, d, {})
  {}

  /** A directory that is not yet gone is as it was. */
  lemma PartialNode(d: Disk, w: Places, rk: Ranks, e: Disk, gone: set<nat>, x: nat)
    requires NodesOk(d) && Tree(d, w, rk) && Partial(d, e, gone) && IsDir(d, x) && Sub(w, rk, x) !! gone
    ensures e.dat == d.dat && e.ino[x] == d.ino[x] && DirOk(d.dat, d.ino[x])
  {
    assert x in Sub(w, rk, x);
  }

  /** Slot k of directory a: either it names child c, or it adds nothing to the subtree. */
  lemma SubSlot(d: Disk, w: Places, rk: Ranks, a: nat, k: nat)
    requires Tree(d, w, rk) && IsDir(d, a) && k < Used(d.ino[a])
    ensures var e := DirSlot(d, a, k);
      if e.ino == 0 || e.name == "." || e.name == ".."
      then SubUpTo(w, rk, a, k + 1) == SubUpTo(w, rk, a, k)
      else e.ino in w && w[e.ino] == Place(a, k)
  {
    var e := DirSlot(d, a, k);
    if e.ino == 0 || e.name == "." || e.name == ".." {
      forall y: nat | UnderChild(w, rk, a, k + 1, y) ensures UnderChild(w, rk, a, k, y) {
        var c :| c in w && w[c].dir == a && w[c].slot < k + 1 && Under(w, rk, c, y);
        assert DirSlot(d, w[c].dir, w[c].slot).ino == c;
        assert w[c].slot != k;
      }
    } else {
      assert k >= 2;
    }
  }

  lemma SubChild(w: Places, rk: Ranks, a: nat, k: nat, c: nat)
    requires Ranked(w, rk) && c in w && w[c] == Place(a, k)
    requires forall x :: x in w && w[x] == Place(a, k) ==> x == c
    ensures SubUpTo(w, rk, a, k + 1) == SubUpTo(w, rk, a, k) + Sub(w, rk, c)
    ensures SubUpTo(w, rk, a, k) !! Sub(w, rk, c)
  {
    forall y: nat | y < INO_COUNT && UnderChild(w, rk, a, k + 1, y)
      ensures UnderChild(w, rk, a, k, y) || Under(w, rk, c, y)
    {
      var x :| x in w && w[x].dir == a && w[x].slot < k + 1 && Under(w, rk, x, y);
      assert w[x].slot == k ==> w[x] == Place(a, k);
    }
    forall y: nat | y < INO_COUNT && UnderChild(w, rk, a, k, y) && Under(w, rk, c, y) ensures false {
      var x :| x in w && w[x].dir == a && w[x].slot < k && Under(w, rk, x, y);
      SiblingsDisjoint(w, rk, a, x, c, y);
    }
  }

  /** The child named by slot k of a adds its own subtree, disjoint from the earlier ones. */
  lemma SubNext(d: Disk, w: Places, rk: Ranks, a: nat, k: nat, c: nat)
    requires Tree(d, w, rk) && c in w && w[c] == Place(a, k)
    ensures SubUpTo(w, rk, a, k + 1) == SubUpTo(w, rk, a, k) + Sub(w, rk, c)
    ensures SubUpTo(w, rk, a, k) !! Sub(w, rk, c)
    ensures Sub(w, rk, c) <= Sub(w, rk, a) && rk[a] < rk[c]
  {
    forall y | y in w && w[y] == Place(a, k) ensures y == c {
      assert DirSlot(d, w[y].dir, w[y].slot).ino == y;
      assert DirSlot(d, w[c].dir, w[c].slot).ino == c;
    }
    SubChild(w, rk, a, k, c);
    SubWithin(w, rk, a, c);
  }

  /** Slots that can name a child of inode a. */
  function ChildSlots(d: Disk, a: nat): nat { if IsDir(d, a) then Used(d.ino[a]) else 0 }

  lemma SubDone(d: Disk, w: Places, rk: Ranks, a: nat)
    requires Tree(d, w, rk) && a < INO_COUNT
    ensures SubUpTo(w, rk, a, ChildSlots(d, a)) + {a} == Sub(w, rk, a)
    ensures a !in SubUpTo(w, rk, a, ChildSlots(d, a)) && a in Sub(w, rk, a)
  {
    forall c | c in w && w[c].dir == a ensures w[c].slot < ChildSlots(d, a) {
      assert IsDir(d, w[c].dir);
    }
    SubAll(w, rk, a, ChildSlots(d, a));
  }

  lemma SubNone(w: Places, rk: Ranks, a: nat)
    requires Ranked(w, rk)
    ensures SubUpTo(w, rk, a, 0) == {}
  {}

  /** All the children together with a make up the subtree. */
  lemma SubAll(w: Places, rk: Ranks, a: nat, k: nat)
    requires Ranked(w, rk) && a < INO_COUNT
    requires forall c :: c in w && w[c].dir == a ==> w[c].slot < k
    ensures SubUpTo(w, rk, a, k) + {a} == Sub(w, rk, a)
    ensures a !in SubUpTo(w, rk, a, k)
  {
    forall y: nat | y < INO_COUNT ensures y in Sub(w, rk, a) <==> y == a || y in SubUpTo(w, rk, a, k)
      ensures y in SubUpTo(w, rk, a, k) ==> y != a
    {
      if Under(w, rk, a, y) && y != a {
        var c := UnderStep(w, rk, a, y);
        assert UnderChild(w, rk, a, k, y);
      }
      if UnderChild(w, rk, a, k, y) {
        var c :| c in w && w[c].dir == a && w[c].slot < k && Under(w, rk, c, y);
        UnderTrans(w, rk, a, c, y);
      }
    }
  }

  lemma SubWithin(w: Places, rk: Ranks, a: nat, c: nat)
    requires Ranked(w, rk) && c in w && w[c].dir == a
    ensures Sub(w, rk, c) <= Sub(w, rk, a) && a !in Sub(w, rk, c) && rk[a] < rk[c]
  {
    forall y | y in Sub(w, rk, c) ensures y in Sub(w, rk, a) && y != a { UnderTrans(w, rk, a, c, y); }
  }

  /** Clearing the blocks of inode a and zeroing it extends what is gone by a. */
  lemma PartialStep(d: Disk, e: Disk, gone: set<nat>, a: nat, bm': Bitmap)
    requires Partial(d, e, gone) && a !in gone && a < INO_COUNT
    requires forall b {:trigger bm'[b]} :: 0 <= b < DATA_COUNT ==> (bm'[b] <==> e.bm[b] && !Frees(e.dat, d.ino[a], b))
    ensures Partial(d, Disk(bm', e.ino[a := ZERO_INODE], e.dat), gone + {a})
  {
    hide Frees;
    var e' := Disk(bm', e.ino[a := ZERO_INODE], e.dat);
    forall b | 0 <= b < DATA_COUNT ensures e'.bm[b] <==> d.bm[b] && !FreedBy(d, gone + {a}, b) {
      assert FreedBy(d, gone + {a}, b) <==> FreedBy(d, gone, b) || Frees(d.dat, d.ino[a], b) by {
        if FreedBy(d, gone, b) {
          var i :| i in gone && i < INO_COUNT && Frees(d.dat, d.ino[i], b);
          assert i in gone + {a};
        }
        if Frees(d.dat, d.ino[a], b) { assert a in gone + {a}; }
      }
    }
  }

  ghost function OwnKept(own: Own, gone: set<nat>): Own { map b | b in own && own[b].ino !in gone :: own[b] }

  /** Every inode that goes is live, and no directory among them uses blocks[20..21]. */
  ghost predicate AllSmall(d: Disk, gone: set<nat>) {
    forall y {:trigger y in gone} :: y in gone ==> y < INO_COUNT && d.ino[y].kind != Free && TablesOnly(d.ino[y])
  }

  /** Then exactly the blocks of what is gone are free. */
  lemma SmallFreed(d: Disk, own: Own, gone: set<nat>, b: nat)
    requires Owners(d, own) && AllSmall(d, gone) && b < DATA_COUNT
    ensures FreedBy(d, gone, b) <==> b in own && own[b].ino in gone
  {
    hide Owners, Frees;
    if FreedBy(d, gone, b) {
      var i :| i in gone && i < INO_COUNT && Frees(d.dat, d.ino[i], b);
      FreesOwned(d, own, i, b);
    }
    if b in own && own[b].ino in gone { FreesOwned(d, own, own[b].ino, b); }
  }

  function MarkedBits(own: Own): Bitmap { seq(DATA_COUNT, (b: nat) => b in own) }

  /** The disk with the bitmap its owner map asks for. */
  function Mended(e: Disk, own: Own): Disk { e.(bm := MarkedBits(own)) }

  /** Whatever freeing did to the bitmap, what is left is owned as before. */
  lemma PartialOwners(d: Disk, own: Own, e: Disk, gone: set<nat>)
    requires Owners(d, own) && NodesOk(d) && Partial(d, e, gone)
    ensures Owners(Mended(e, OwnKept(own, gone)), OwnKept(own, gone)) && NodesOk(e)
    ensures forall j {:trigger e.ino[j]} :: 0 <= j < INO_COUNT && j !in gone ==> ViewAt(e, j) == ViewAt(d, j)
  {
    var own' := OwnKept(own, gone);
    var m := Mended(e, own');
    forall i, s | 0 <= i < INO_COUNT ensures Ptr(m, i, s) == if i in gone then NONE else Ptr(d, i, s) {
      assert i in gone ==> IsZero(e.ino[i]);
    }
    forall i, s | 0 <= i < INO_COUNT && Ptr(m, i, s) != NONE
      ensures Ptr(m, i, s) in own' && own'[Ptr(m, i, s)] == Ref(i, s)
    {
      assert Ptr(m, i, s) == Ptr(d, i, s);
    }
    forall b | b in own'
      ensures b < DATA_COUNT && own'[b].ino < INO_COUNT && Ptr(m, own'[b].ino, own'[b].slot) == b
    {
      assert own'[b] == own[b] && Ptr(d, own[b].ino, own[b].slot) == b;
    }
    forall i | 0 <= i < INO_COUNT ensures NodeOk(e.dat, e.ino[i]) {
      assert i in gone ==> IsZero(e.ino[i]);
      assert NodeOk(d.dat, d.ino[i]);
    }
  }

  /** If all that is gone was small, the bitmap needs no mending. */
  lemma PartialMended(d: Disk, own: Own, e: Disk, gone: set<nat>)
    requires Owners(d, own) && Partial(d, e, gone) && AllSmall(d, gone)
    ensures e.bm == MarkedBits(OwnKept(own, gone))
  {
    var own' := OwnKept(own, gone);
    forall b | 0 <= b < DATA_COUNT ensures e.bm[b] == MarkedBits(own')[b] {
      SmallFreed(d, own, gone, b);
      assert d.bm[b] <==> b in own;
    }
  }

  /** A directory over 240 slots ends with a sector that inode_free_blocks reads as block numbers,
      the last eight of them zero; so freeing it clears bit 0. */
  lemma LargeFreesZero(dat: DataArea, n: Inode)
    requires DirOk(dat, n)
    ensures TablesOnly(n) <==> Used(n) <= 240
    ensures !TablesOnly(n) ==> Frees(dat, n, 0)
  {
    if !TablesOnly(n) {
      assert n.blocks[20] < DATA_COUNT && dat[n.blocks[20]].Entries?;
      assert Words(dat[n.blocks[20]])[120] == 0;
      assert FreesTable(dat, n, 0, 0);
    } else {
      assert n.blocks[20] == NONE;
    }
  }

  /** The root's block 0 is lost exactly when something gone was large. */
  lemma ZeroKept(d: Disk, own: Own, e: Disk, gone: set<nat>)
    requires Owners(d, own) && NodesOk(d) && Partial(d, e, gone)
    requires IsDir(d, ROOT) && d.ino[ROOT].blocks[0] == 0 && ROOT !in gone
    requires forall y :: y in gone ==> Live(d, y)
    ensures e.bm[0] <==> AllSmall(d, gone)
    ensures AllSmall(d, gone) <==> forall y :: y in gone && IsDir(d, y) ==> Used(d.ino[y]) <= 240
  {
    assert Ptr(d, ROOT, Direct(0)) == 0;
    assert d.bm[0] && own[0].ino == ROOT;
    forall y | y in gone && IsDir(d, y)
      ensures TablesOnly(d.ino[y]) <==> Used(d.ino[y]) <= 240
      ensures !TablesOnly(d.ino[y]) ==> FreedBy(d, gone, 0)
    {
      assert NodeOk(d.dat, d.ino[y]);
      LargeFreesZero(d.dat, d.ino[y]);
    }
    if AllSmall(d, gone) {
      SmallFreed(d, own, gone, 0);
    } else {
      var y :| y in gone && !(y < INO_COUNT && d.ino[y].kind != Free && TablesOnly(d.ino[y]));
      assert Live(d, y) && IsDir(d, y);
    }
  }

  /** e is d after the subtree of c was removed and its entry cleared, in terms of views. */
  ghost predicate Removed(d: Disk, e: Disk, w: Places, rk: Ranks, c: nat)
    requires Ranked(w, rk) && c in w
  {
    && Unlinked(d, e, w, rk, c)
    && (forall j {:trigger e.ino[j]} :: 0 <= j < INO_COUNT && j != w[c].dir && !Under(w, rk, c, j) ==>
          ViewAt(e, j) == ViewAt(d, j))
  }

  /** Exactly the blocks of the subtree of c are free again. */
  ghost predicate Reclaimed(e: Disk, w: Places, rk: Ranks, own: Own, c: nat)
    requires Ranked(w, rk)
  {
    forall b {:trigger e.bm[b]} :: 0 <= b < DATA_COUNT ==> (e.bm[b] <==> b in own && !Under(w, rk, c, own[b].ino))
  }

  lemma MendedReclaimed(e: Disk, w: Places, rk: Ranks, d: Disk, own: Own, c: nat)
    requires Ranked(w, rk) && Owners(d, own) && e.bm == MarkedBits(OwnKept(own, Sub(w, rk, c)))
    ensures Reclaimed(e, w, rk, own, c)
  {
    forall b | 0 <= b < DATA_COUNT ensures e.bm[b] <==> b in own && !Under(w, rk, c, own[b].ino) {
      if b in own { assert own[b].ino < INO_COUNT; }
    }
  }

  lemma PartialViews(d: Disk, own: Own, d1: Disk, e: Disk, gone: set<nat>, p: nat)
    requires Owners(d, own) && NodesOk(d) && Partial(d, d1, gone) && p < INO_COUNT
    requires e.ino == d1.ino && OthersKept(OwnKept(own, gone), p, d1.dat, e.dat)
    ensures forall i {:trigger e.ino[i]} :: 0 <= i < INO_COUNT && i in gone ==> IsZero(e.ino[i])
    ensures forall i {:trigger e.ino[i]} :: 0 <= i < INO_COUNT && i !in gone ==> e.ino[i] == d.ino[i]
    ensures forall i {:trigger e.ino[i]} :: 0 <= i < INO_COUNT && i !in gone && i != p ==> ViewAt(e, i) == ViewAt(d, i)
  {
    var m := Mended(d1, OwnKept(own, gone));
    PartialOwners(d, own, d1, gone);
    OthersView(m, OwnKept(own, gone), p, e);
    forall i | 0 <= i < INO_COUNT && i !in gone && i != p ensures ViewAt(e, i) == ViewAt(d, i) {
      assert ViewAt(e, i) == ViewAt(m, i) by { assert e.ino[i] == m.ino[i]; }
      assert ViewAt(d1, i) == ViewAt(d, i) by { assert d1.ino[i] == d.ino[i]; }
    }
  }

  /** Zeroing the subtree and then clearing the entry removes exactly the subtree. */
  lemma PartialRemoved(d: Disk, own: Own, d1: Disk, e: Disk, w: Places, rk: Ranks, c: nat)
    requires Owners(d, own) && NodesOk(d) && Ranked(w, rk) && c in w
    requires Partial(d, d1, Sub(w, rk, c))
    requires e.ino == d1.ino && OthersKept(OwnKept(own, Sub(w, rk, c)), w[c].dir, d1.dat, e.dat)
    requires forall m {:trigger DirSlot(e, w[c].dir, m)} :: 0 <= m < Used(d1.ino[w[c].dir]) ==>
      DirSlot(e, w[c].dir, m) == if m == w[c].slot then EMPTY_ENTRY else DirSlot(d1, w[c].dir, m)
    ensures Removed(d, e, w, rk, c)
  {
    var gone := Sub(w, rk, c);
    var p := w[c].dir;
    PartialViews(d, own, d1, e, gone, p);
    forall j | 0 <= j < INO_COUNT && j != p && !Under(w, rk, c, j) ensures ViewAt(e, j) == ViewAt(d, j) {
      assert j !in gone && e.ino[j] == d.ino[j];
    }
    assert Unlinked(d, e, w, rk, c) by {
      forall q, k | IsDir(e, q) && 0 <= k < Used(e.ino[q])
        ensures Place(q, k) == w[c] ==> DirSlot(e, q, k) == EMPTY_ENTRY
        ensures Place(q, k) != w[c] ==> DirSlot(e, q, k) == DirSlot(d, q, k)
      {
        assert q !in gone && e.ino[q] == d.ino[q];
        if q != p { EntriesAre(d, e, q); }
      }
    }
  }

  /** A directory outside the subtree is found and searched as before. */
  lemma PartialLookup(d: Disk, e: Disk, gone: set<nat>, p: nat, name: string)
    requires Partial(d, e, gone) && p < INO_COUNT && p !in gone
    ensures e.ino[p] == d.ino[p] && Lookup(e, p, name, 0) == Lookup(d, p, name, 0)
  {
    assert e.ino[p] == d.ino[p];
    assert forall k :: 0 <= k ==> DirSlot(e, p, k) == DirSlot(d, p, k);
    var a, b := Lookup(d, p, name, 0), Lookup(e, p, name, 0);
  }

  /** The inode an ordinary name leads to is named by that very slot. */
  lemma FoundPlace(d: Disk, w: Places, rk: Ranks, p: nat, name: string, k: nat)
    requires Tree(d, w, rk) && IsDir(d, p) && name != "." && name != ".." && Lookup(d, p, name, 0) == Some(k)
    ensures var c := DirSlot(d, p, k).ino;
      c in w && w[c] == Place(p, k) && DirSlot(d, p, k).kind == d.ino[c].kind && p !in Sub(w, rk, c)
  {
    var c := DirSlot(d, p, k).ino;
    assert DirSlot(d, p, 0).name == "." && DirSlot(d, p, 1).name == "..";
    assert k >= 2;
    SubWithin(w, rk, p, c);
  }
}
