/** What the file system invariants mean for a reader, and where the code falls short of them. */
module FsTheorems {
  import opened Basics
  import opened FsModel
  import opened FsBlocks
  import opened FsTree
  import opened FsCreate
  import opened FsRemove
  import opened FsWalks

  /** Entry k of directory p, other than "." and "..", names inode c. */
  predicate Names(d: Disk, p: nat, k: nat, c: nat) {
    IsDir(d, p) && 2 <= k < Used(d.ino[p]) && c != 0 && DirSlot(d, p, k).ino == c
  }

  /** Each live inode but the root is named by exactly one entry, in a live directory; a
      directory's ".." is the directory that names it. */
  lemma OneName(d: Disk, w: Places, rk: Ranks, c: nat) returns (p: nat, k: nat)
    requires Tree(d, w, rk) && Live(d, c) && c != ROOT
    ensures Names(d, p, k, c)
    ensures forall q, m :: Names(d, q, m, c) ==> q == p && m == k
    ensures IsDir(d, c) ==> DirSlot(d, c, 1).ino == p
  {
    p, k := w[c].dir, w[c].slot;
    forall q, m | Names(d, q, m, c) ensures q == p && m == k {
      assert IsHole(DirSlot(d, q, m)) || IsLink(DirSlot(d, q, m), w, Place(q, m));
    }
  }

  /** Every live inode is reached from the root by a path without dots, so the entries form one tree. */
  lemma {:induction false} HasPath(d: Disk, w: Places, rk: Ranks, c: nat) returns (comps: seq<string>)
    requires Tree(d, w, rk) && Live(d, c)
    ensures Walk(d, ROOT, comps) == Some(c) && NoDots(comps)
    decreases rk[c]
  {
    if c == ROOT {
      comps := [];
    } else {
      var p, k := w[c].dir, w[c].slot;
      var up := HasPath(d, w, rk, p);
      var name := DirSlot(d, p, k).name;
      assert IsLink(DirSlot(d, p, k), w, Place(p, k));
      LookupName(d, w, rk, p, k);
      assert Walk(d, p, [name]) == Walk(d, c, [name][1..]);
      WalkAppend(d, ROOT, up, [name]);
      comps := up + [name];
    }
  }

  lemma LookupName(d: Disk, w: Places, rk: Ranks, p: nat, k: nat)
    requires Tree(d, w, rk) && IsDir(d, p) && 2 <= k < Used(d.ino[p]) && IsLink(DirSlot(d, p, k), w, Place(p, k))
    ensures Lookup(d, p, DirSlot(d, p, k).name, 0) == Some(k)
  {
    var name := DirSlot(d, p, k).name;
    var r := Lookup(d, p, name, 0);
    assert Matches(DirSlot(d, p, k), name);
    assert DirSlot(d, p, 0).name == "." && DirSlot(d, p, 1).name == "..";
  }

  // ---- directories that outgrow their direct blocks ----

  /** Freeing inode i touches no other inode's block. */
  ghost predicate FreesOnlyOwn(d: Disk, own: Own, i: nat)
    requires i < INO_COUNT
  {
    forall b {:trigger own[b]} :: b in own && Frees(d.dat, d.ino[i], b) ==> own[b].ino == i
  }

  /** Exactly when freeing a directory is safe: up to 240 slots. A larger one takes the root's block 0
      from it. */
  lemma DirFreeIff(d: Disk, own: Own, i: nat)
    requires Owners(d, own) && NodesOk(d) && IsDir(d, i) && i != ROOT
    requires IsDir(d, ROOT) && d.ino[ROOT].blocks[0] == 0
    ensures FreesOnlyOwn(d, own, i) <==> Used(d.ino[i]) <= 240
  {
    hide Frees;
    assert NodeOk(d.dat, d.ino[i]);
    LargeFreesZero(d.dat, d.ino[i]);
    assert Ptr(d, ROOT, Direct(0)) == 0;
    assert own[0].ino == ROOT;
    if TablesOnly(d.ino[i]) {
      forall b | b in own && Frees(d.dat, d.ino[i], b) ensures own[b].ino == i { FreesOwned(d, own, i, b); }
    }
  }

  /** The root with one directory, of 241 slots in blocks 10..30; all but the first two are holes,
      as after the removal of the files they named. */
  function SpilledInode(i: nat): Inode {
    if i == 0 then Inode("/", Dir, 3 * 40, NO_BLOCKS[0 := 0])
    else if i == 1 then Inode("big", Dir, 241 * 40, BlocksFrom(10))
    else ZERO_INODE
  }

  /** Blocks from first on, in all slots but the last. */
  function BlocksFrom(first: nat): (r: BlockList)
    ensures forall k :: 0 <= k < 22 ==> r[k] == if k < 21 then first + k else NONE
  {
    seq(22, (k: nat) => if k < 21 then first + k else NONE)
  }

  function SpilledBlock(b: nat): Block {
    if b == 0 then Entries(DotSlots(0, 0)[2 := DirEntry(1, "big", Dir)])
    else if b == 10 then Entries(DotSlots(1, 0))
    else if 10 < b <= 30 then Entries(EMPTY_SLOTS)
    else ZERO_BLOCK
  }

  function SpilledDisk(): Disk {
    Disk(seq(DATA_COUNT, (b: nat) => SpilledUsed(b)),
         seq(INO_COUNT, (i: nat) => SpilledInode(i)),
         seq(DATA_COUNT, (b: nat) => SpilledBlock(b)))
  }

  predicate SpilledUsed(b: nat) { b == 0 || 10 <= b <= 30 }

  function SpilledOwn(): Own {
    map b: nat | b <= 30 && SpilledUsed(b) :: if b == 0 then Ref(0, Direct(0)) else Ref(1, Direct(b - 10))
  }

  function SpilledPlaces(): Places { map[1 := Place(0, 2)] }

  function SpilledRanks(): Ranks { seq(INO_COUNT, (i: nat) => if i == 1 then 1 else 0) }

  lemma SpilledPtr(i: nat, s: Slot)
    requires i < INO_COUNT
    ensures Ptr(SpilledDisk(), i, s) ==
      match s
      case Direct(k) => if i == 0 && k == 0 then 0 else if i == 1 && k < 21 then 10 + k else NONE
      case Entry(_, _) => NONE
  {
    assert SpilledDisk().ino[i] == SpilledInode(i);
  }

  lemma SpilledOwners()
    ensures Owners(SpilledDisk(), SpilledOwn())
  {
    var d, own := SpilledDisk(), SpilledOwn();
    forall i, s | 0 <= i < INO_COUNT && Ptr(d, i, s) != NONE
      ensures Ptr(d, i, s) in own && own[Ptr(d, i, s)] == Ref(i, s)
    {
      SpilledPtr(i, s);
    }
    forall b | b in own ensures b < DATA_COUNT && own[b].ino < INO_COUNT && Ptr(d, own[b].ino, own[b].slot) == b {
      SpilledPtr(own[b].ino, own[b].slot);
    }
  }

  /** Entry k of directory p on that disk. */
  function SpilledEntry(p: nat, k: nat): DirEntry {
    if k == 0 then DirEntry(p, ".", Dir) else if k == 1 then DirEntry(0, "..", Dir)
    else if p == 0 then DirEntry(1, "big", Dir) else EMPTY_ENTRY
  }

  lemma SpilledSlot(p: nat, k: nat)
    requires p < 2 && k < Used(SpilledDisk().ino[p])
    ensures Used(SpilledDisk().ino[p]) == if p == 0 then 3 else 241
    ensures DirSlot(SpilledDisk(), p, k) == SpilledEntry(p, k)
  {
    var d := SpilledDisk();
    assert d.ino[p] == SpilledInode(p);
    var b := d.ino[p].blocks[k / 12];
    assert b == if p == 0 then 0 else 10 + k / 12;
    assert d.dat[b] == SpilledBlock(b);
  }

  lemma SpilledNodes()
    ensures NodesOk(SpilledDisk())
  {
    var d := SpilledDisk();
    forall i | 0 <= i < INO_COUNT ensures NodeOk(d.dat, d.ino[i]) {
      assert d.ino[i] == SpilledInode(i);
      if i < 2 {
        forall j | 0 <= j < 22 && 12 * j < Used(d.ino[i])
          ensures d.ino[i].blocks[j] < DATA_COUNT && d.dat[d.ino[i].blocks[j]].Entries?
        {
          assert d.dat[d.ino[i].blocks[j]] == SpilledBlock(d.ino[i].blocks[j]);
        }
        assert forall j :: 0 <= j < 22 && 12 * j >= Used(d.ino[i]) ==> d.ino[i].blocks[j] == NONE;
      }
    }
  }

  ghost predicate SpilledOk(d: Disk) {
    && (forall i {:trigger d.ino[i]} :: 0 <= i < INO_COUNT ==> d.ino[i] == SpilledInode(i))
    && (forall p, k {:trigger DirSlot(d, p, k)} :: 0 <= p < 2 && 0 <= k < Used(d.ino[p]) ==>
      DirSlot(d, p, k) == SpilledEntry(p, k))
  }

  lemma SpilledEntries()
    ensures SpilledOk(SpilledDisk())
  {
    var d := SpilledDisk();
    forall p, k | 0 <= p < 2 && 0 <= k < Used(d.ino[p]) ensures DirSlot(d, p, k) == SpilledEntry(p, k) {
      SpilledSlot(p, k);
    }
  }

  lemma SpilledParts(d: Disk)
    requires SpilledOk(d)
    ensures Named(d, SpilledPlaces()) && EntriesOk(d, SpilledPlaces()) && DotsOk(d, SpilledPlaces())
  {
    assert d.ino[0] == SpilledInode(0) && d.ino[1] == SpilledInode(1);
    assert DirSlot(d, 0, 2) == SpilledEntry(0, 2);
    assert forall p :: IsDir(d, p) ==> p < 2;
    assert forall p :: Live(d, p) ==> p < 2;
  }

  lemma SpilledNames(d: Disk)
    requires SpilledOk(d)
    ensures UniqueNames(d)
  {
    assert d.ino[0] == SpilledInode(0) && d.ino[1] == SpilledInode(1);
    assert forall p :: IsDir(d, p) ==> p < 2;
  }

  lemma SpilledTree()
    ensures Tree(SpilledDisk(), SpilledPlaces(), SpilledRanks())
  {
    hide Named, EntriesOk, DotsOk, UniqueNames, SpilledOk;
    SpilledEntries();
    SpilledParts(SpilledDisk());
    SpilledNames(SpilledDisk());
  }

  /** Removing that directory clears the bit of the root's block: the last eight words of its sector
      20 are zero, and inode_free_blocks reads them as block numbers. */
  lemma SpillBreaks()
    ensures Owners(SpilledDisk(), SpilledOwn()) && NodesOk(SpilledDisk())
    ensures Tree(SpilledDisk(), SpilledPlaces(), SpilledRanks()) && SpilledDisk().ino[ROOT].blocks[0] == 0
    ensures IsDir(SpilledDisk(), 1) && Used(SpilledDisk().ino[1]) == 241
    ensures SpilledOwn()[0].ino == ROOT && Frees(SpilledDisk().dat, SpilledDisk().ino[1], 0)
    ensures !FreesOnlyOwn(SpilledDisk(), SpilledOwn(), 1)
  {
    hide Owners, Frees, Tree;
    SpilledOwners();
    SpilledNodes();
    SpilledTree();
    var d := SpilledDisk();
    assert d.ino[0] == SpilledInode(0) && d.ino[1] == SpilledInode(1);
    assert NodeOk(d.dat, d.ino[1]);
    LargeFreesZero(d.dat, d.ino[1]);
    DirFreeIff(d, SpilledOwn(), 1);
  }
}
