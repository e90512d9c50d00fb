/** What create_inode does to the disk: the new inode, its link, and the rollback. */
module FsCreate {
  import opened Basics
  import opened FsModel
  import opened FsBlocks
  import opened FsFiles
  import opened FsTree
  import opened FsPath
  import opened Bits

  ghost function ViewAt(d: Disk, i: nat): View {
    if i < INO_COUNT then ViewOf(d.dat, d.ino[i]) else NoNode
  }

  /** What a path leads to. */
  ghost function PathView(d: Disk, base: nat, path: string): View {
    match Resolve(d, base, path)
    case None => NoNode
    case Some(f) => ViewAt(d, f)
  }

  /** e is d after dir_add stored x in slot s of directory p. */
  ghost predicate AddedSlot(d: Disk, e: Disk, p: nat, s: nat, x: DirEntry) {
    && IsDir(d, p) && IsDir(e, p) && s <= Used(d.ino[p])
    && (s < Used(d.ino[p]) ==> IsHole(DirSlot(d, p, s)))
    && (forall k :: 0 <= k < s ==> !IsHole(DirSlot(d, p, k)))
    && Used(e.ino[p]) == (if s < Used(d.ino[p]) then Used(d.ino[p]) else s + 1)
    && DirSlot(e, p, s) == x
    && (forall m {:trigger DirSlot(e, p, m)} :: 0 <= m < Used(d.ino[p]) && m != s ==>
          DirSlot(e, p, m) == DirSlot(d, p, m))
    && (forall j {:trigger e.ino[j]} :: 0 <= j < INO_COUNT && j != p ==> e.ino[j] == d.ino[j])
  }

  ghost predicate HasHole(d: Disk, p: nat)
    requires p < INO_COUNT
  {
    exists k :: 0 <= k < Used(d.ino[p]) && IsHole(DirSlot(d, p, k))
  }

  /** Directory p can be given one more slot with the free blocks left. */
  predicate CanGrow(d: Disk, p: nat, free: int)
    requires p < INO_COUNT
  {
    Used(d.ino[p]) < 264 && (Used(d.ino[p]) % 12 != 0 || free > 0)
  }

  /** dir_add finds a place in p: a hole, or a new slot. */
  ghost predicate CanAdd(d: Disk, p: nat, free: int) {
    IsDir(d, p) && (HasHole(d, p) || CanGrow(d, p, free))
  }

  /** There is space for a new inode linked into p: a directory takes a block of its own first. */
  ghost predicate CanLink(d: Disk, p: nat, isDir: bool) {
    var free := FreeCount(d.bm) - if isDir then 1 else 0;
    free >= 0 && CanAdd(d, p, free)
  }

  /** create_file or mkdir succeeds: the path splits, is new, and an inode and space are free. */
  ghost predicate Creatable(d: Disk, base: nat, path: string, isDir: bool) {
    && Split(d, base, path).Some? && Resolve(d, base, path) == None
    && (exists i :: 0 <= i < INO_COUNT && d.ino[i].kind == Free)
    && Live(d, Split(d, base, path).value.0) && CanLink(d, Split(d, base, path).value.0, isDir)
  }

  /** c is the lowest free inode. */
  predicate LowestFree(d: Disk, c: nat) {
    c < INO_COUNT && d.ino[c].kind == Free && forall i :: 0 <= i < c ==> d.ino[i].kind != Free
  }

  /** mkdir in a parent that is itself the free inode about to be used: the inode is written before
      the parent is read, so the new directory is found to be its own parent. */
  ghost predicate MakesOwnParent(d: Disk, base: nat, path: string, isDir: bool) {
    && isDir && Split(d, base, path).Some? && Resolve(d, base, path) == None
    && LowestFree(d, Split(d, base, path).value.0) && FreeCount(d.bm) > 0
  }

  /** An entry of directory c after the first two names c. */
  ghost predicate SelfNamed(e: Disk, c: nat)
    requires c < INO_COUNT
  {
    IsDir(e, c) && exists k :: 2 <= k < Used(e.ino[c]) && c != 0 && DirSlot(e, c, k).ino == c
  }

  /** Then there is no tree. */
  lemma SelfNamedNoTree(e: Disk, c: nat, w: Places, rk: Ranks)
    requires c < INO_COUNT && SelfNamed(e, c)
    ensures !Tree(e, w, rk)
  {
  }

  lemma MadeSelf(d: Disk, own: Own, d1: Disk, own1: Own, e: Disk, c: nat, p: nat, s: nat, name: string, kind: Kind)
    requires Made(d, own, d1, own1, c, p, kind) && d.ino[0].kind != Free
    requires p == c && AddedSlot(d1, e, p, s, DirEntry(c, name, kind))
    ensures SelfNamed(e, c)
  {
    assert ViewAt(d1, c).entries[0] == DirSlot(d1, c, 0) && ViewAt(d1, c).entries[1] == DirSlot(d1, c, 1);
    assert !IsHole(DirSlot(d1, c, 0)) && !IsHole(DirSlot(d1, c, 1));
    assert DirSlot(e, c, s).ino == c;
  }

  lemma UnchangedSelf(d: Disk)
    ensures Unchanged(d, d)
  {}

  lemma UnchangedDirs(d: Disk, e: Disk)
    requires Unchanged(d, e)
    ensures SameDirs(d, e)
  {}

  /** Making an unlinked inode leaves the room in any other directory as it was. */
  lemma MadeRoom(d: Disk, own: Own, d1: Disk, own1: Own, c: nat, p: nat, kind: Kind, free: int)
    requires Owners(d, own) && NodesOk(d) && Made(d, own, d1, own1, c, p, kind) && p < INO_COUNT
    ensures p != c ==> (CanAdd(d1, p, free) <==> CanAdd(d, p, free))
    ensures p != c && !Live(d, p) ==> !CanAdd(d1, p, free)
    ensures p == c ==> (CanAdd(d1, p, free) <==> kind == Dir)
  {
    if p == c {
      if kind == Dir { assert |ViewAt(d1, c).entries| == Used(d1.ino[c]); }
      return;
    }
    OthersView(d, own, c, d1);
    assert d1.ino[p] == d.ino[p];
    if IsDir(d, p) {
      EntriesAre(d, d1, p);
      assert forall k :: 0 <= k < Used(d.ino[p]) ==> DirSlot(d1, p, k) == DirSlot(d, p, k);
    }
  }

  lemma MadeCell(d: Disk, own: Own, d1: Disk, own1: Own, c: nat, p: nat, kind: Kind)
    requires Made(d, own, d1, own1, c, p, kind)
    ensures Owners(d1, own1) && NodesOk(d1) && d1.ino == d.ino[c := d1.ino[c]]
  {}

  lemma MadeAddedBlocks(d: Disk, own: Own, d1: Disk, own1: Own, e: Disk, c: nat, p: nat, s: nat, name: string,
      kind: Kind)
    requires Made(d, own, d1, own1, c, p, kind) && p != c
    requires AddedSlot(d1, e, p, s, DirEntry(c, name, kind)) && e.ino[p].blocks[0] == d1.ino[p].blocks[0]
    ensures forall j {:trigger e.ino[j]} :: 0 <= j < INO_COUNT && j != c ==> e.ino[j].blocks[0] == d.ino[j].blocks[0]
  {}

  function DotSlots(c: nat, p: nat): Slots12 {
    EMPTY_SLOTS[0 := DirEntry(c, ".", Dir)][1 := DirEntry(p, "..", Dir)]
  }

  /** The view of a file or directory that has just been made. */
  function FreshView(c: nat, p: nat, kind: Kind): View {
    if kind == Dir then DirView([DirEntry(c, ".", Dir), DirEntry(p, "..", Dir)]) else FileView([])
  }

  /** d1 is d with the unlinked inode c, which owns at most one new block. */
  ghost predicate Made(d: Disk, own: Own, d1: Disk, own1: Own, c: nat, p: nat, kind: Kind) {
    && c < INO_COUNT && d.ino[c].kind == Free && kind != Free
    && Owners(d1, own1) && NodesOk(d1)
    && d1.ino == d.ino[c := d1.ino[c]] && d1.ino[c].kind == kind && TablesOnly(d1.ino[c])
    && ViewAt(d1, c) == FreshView(c, p, kind)
    && OthersKept(own, c, d.dat, d1.dat) && Without(own1, c) == own
  }

  /** An inode without blocks can take the place of a free one. */
  lemma EmptyOwners(d: Disk, own: Own, c: nat, n0: Inode)
    requires Owners(d, own) && c < INO_COUNT && d.ino[c].kind == Free
    requires n0.kind != Free && n0.blocks == NO_BLOCKS
    ensures Owners(d.(ino := d.ino[c := n0]), own)
    ensures forall b :: b in own ==> own[b].ino != c
  {
    var d0 := d.(ino := d.ino[c := n0]);
    forall i, s | 0 <= i < INO_COUNT ensures Ptr(d0, i, s) == Ptr(d, i, s) {}
    assert forall b :: b in own ==> Ptr(d, own[b].ino, own[b].slot) == b;
  }

  lemma MakeFile(d: Disk, own: Own, c: nat, p: nat, n: Inode)
    requires Owners(d, own) && NodesOk(d) && c < INO_COUNT && d.ino[c].kind == Free
    requires n.kind == File && n.size == 0 && n.blocks == NO_BLOCKS
    ensures Made(d, own, d.(ino := d.ino[c := n]), own, c, p, File)
  {
    hide Owners;
    var d1 := d.(ino := d.ino[c := n]);
    EmptyOwners(d, own, c, n);
    EmptyMapped(d.dat, n);
    ChunksContent(d.dat, n, []);
    OthersView(d, own, c, d1);
    assert Without(own, c) == own;
  }

  lemma MakeDir(d: Disk, own: Own, c: nat, p: nat, n: Inode, b: nat)
    requires Owners(d, own) && NodesOk(d) && c < INO_COUNT && d.ino[c].kind == Free
    requires n.kind == Dir && n.size == 80 && b < DATA_COUNT && !d.bm[b]
    requires n.blocks == NO_BLOCKS[0 := b]
    ensures Made(d, own, Disk(d.bm[b := true], d.ino[c := n], d.dat[b := Entries(DotSlots(c, p))]),
                 own[b := Ref(c, Direct(0))], c, p, Dir)
  {
    var n0 := n.(blocks := NO_BLOCKS);
    var x := Entries(DotSlots(c, p));
    var d0 := d.(ino := d.ino[c := n0]);
    var d1 := Disk(d.bm[b := true], d.ino[c := n], d.dat[b := x]);
    var own1 := own[b := Ref(c, Direct(0))];
    EmptyOwners(d, own, c, n0);
    TakeDirect(d0, own, c, 0, b, x);
    assert n == n0.(blocks := n0.blocks[0 := b]);
    assert d1 == PutDirect(d0, c, 0, b, x);
    assert b !in own;
    hide Owners;
    OthersView(d, own, c, d1);
    assert DirOk(d1.dat, n);
    assert SlotOf(d1.dat, n, 0) == DirEntry(c, ".", Dir) && SlotOf(d1.dat, n, 1) == DirEntry(p, "..", Dir);
    assert ViewAt(d1, c).entries == [DirEntry(c, ".", Dir), DirEntry(p, "..", Dir)];
    assert Without(own1, c) == own;
  }

  /** Nothing a caller can observe differs. */
  ghost predicate Unchanged(d: Disk, e: Disk) {
    && e.bm == d.bm && SameDirs(d, e)
    && (forall j {:trigger ViewAt(e, j)} :: 0 <= j < INO_COUNT ==> ViewAt(e, j) == ViewAt(d, j))
  }

  /** Undoing an unlinked inode gives the disk back. */
  lemma Rollback(d: Disk, own: Own, d1: Disk, own1: Own, bm': Bitmap, c: nat, p: nat, kind: Kind)
    requires Owners(d, own) && NodesOk(d) && Made(d, own, d1, own1, c, p, kind)
    requires forall b {:trigger bm'[b]} :: 0 <= b < DATA_COUNT ==>
      (bm'[b] <==> d1.bm[b] && !Frees(d1.dat, d1.ino[c], b))
    ensures var e := Disk(bm', d1.ino[c := ZERO_INODE], d1.dat);
      Owners(e, own) && NodesOk(e) && Unchanged(d, e)
  {
    var e := Disk(bm', d1.ino[c := ZERO_INODE], d1.dat);
    ReleaseOwners(d1, own1, c, bm', ZERO_INODE);
    OthersView(d, own, c, e);
    forall j | 0 <= j < INO_COUNT ensures ViewAt(e, j) == ViewAt(d, j) {
      if j != c { assert e.ino[j] == d.ino[j]; }
    }
    forall q, k | IsDir(d, q) && 0 <= k < Used(d.ino[q]) ensures DirSlot(e, q, k) == DirSlot(d, q, k) {
      assert ViewAt(e, q).entries[k] == DirSlot(e, q, k);
      assert ViewAt(d, q).entries[k] == DirSlot(d, q, k);
    }
    assert e.bm == d.bm;
  }

  /** e is d after the path was created as inode c, named in slot s of p. */
  ghost predicate Created(d: Disk, e: Disk, c: nat, p: nat, s: nat, name: string, kind: Kind) {
    && Linked(d, e, c, p, s, name) && e.ino[c].kind == kind
    && (forall k :: 0 <= k < s ==> !IsHole(DirSlot(d, p, k)))
    && ViewAt(e, c) == FreshView(c, p, kind)
    && (forall j {:trigger e.ino[j]} :: 0 <= j < INO_COUNT && j != c && j != p ==>
          e.ino[j] == d.ino[j] && ViewAt(e, j) == ViewAt(d, j))
  }

  lemma EntriesAre(d: Disk, e: Disk, q: nat)
    requires IsDir(d, q) && IsDir(e, q) && ViewAt(e, q) == ViewAt(d, q)
    ensures Used(e.ino[q]) == Used(d.ino[q])
    ensures forall k {:trigger DirSlot(e, q, k)} :: 0 <= k < Used(d.ino[q]) ==> DirSlot(e, q, k) == DirSlot(d, q, k)
  {
    assert |ViewAt(e, q).entries| == Used(e.ino[q]) && |ViewAt(d, q).entries| == Used(d.ino[q]);
    forall k | 0 <= k < Used(d.ino[q]) ensures DirSlot(e, q, k) == DirSlot(d, q, k) {
      assert ViewAt(e, q).entries[k] == DirSlot(e, q, k);
      assert ViewAt(d, q).entries[k] == DirSlot(d, q, k);
    }
  }

  /** Making the inode and then adding its entry is creating it. */
  lemma MadeAdded(d: Disk, own: Own, d1: Disk, own1: Own, e: Disk, c: nat, p: nat, s: nat, name: string, kind: Kind)
    requires Owners(d, own) && NodesOk(d) && Made(d, own, d1, own1, c, p, kind) && p != c
    requires AddedSlot(d1, e, p, s, DirEntry(c, name, kind)) && OthersKept(own1, p, d1.dat, e.dat)
    ensures Created(d, e, c, p, s, name, kind)
  {
    OthersView(d, own, c, d1);
    OthersView(d1, own1, p, e);
    forall j | 0 <= j < INO_COUNT && j != c && j != p ensures e.ino[j] == d.ino[j] && ViewAt(e, j) == ViewAt(d, j) {
      assert d1.ino[j] == d.ino[j];
    }
    assert e.ino[c] == d1.ino[c] && ViewAt(e, c) == ViewAt(d1, c);
    assert d1.ino[p] == d.ino[p];
    EntriesAre(d, d1, p);
    forall q, k | IsDir(d, q) && 0 <= k < Used(d.ino[q]) && !(q == p && k == s)
      ensures DirSlot(e, q, k) == DirSlot(d, q, k)
    {
      if q != p { assert e.ino[q] == d.ino[q]; EntriesAre(d, e, q); }
    }
    if kind == Dir {
      assert |ViewAt(e, c).entries| == Used(e.ino[c]);
      assert ViewAt(e, c).entries[0] == DirSlot(e, c, 0);
      assert ViewAt(e, c).entries[1] == DirSlot(e, c, 1);
    }
  }

  /** Every path that resolved still resolves to the same inode. */
  ghost predicate KeepsPaths(d: Disk, e: Disk) {
    forall b, q {:trigger Resolve(e, b, q)} :: 0 <= b && Resolve(d, b, q).Some? ==> Resolve(e, b, q) == Resolve(d, b, q)
  }

  /** A path that split_last splits and resolve_from does not find has a usable new name. */
  lemma NewName(d: Disk, w: Places, rk: Ranks, base: nat, path: string, p: nat, name: string)
    requires Tree(d, w, rk) && IsDir(d, p)
    requires Split(d, base, path) == Some((p, name)) && Resolve(d, base, path) == None
    ensures GoodName(name) && Lookup(d, p, name, 0) == None
  {
    SplitAgrees(d, base, path);
    assert Walk(d, p, [name]) == None;
    assert [name][1..] == [];
    assert Matches(DirSlot(d, p, 1), "..");
  }

  /** After create_file or mkdir the path names the new inode, and no old path is disturbed. */
  lemma CreatedPaths(d: Disk, e: Disk, w: Places, rk: Ranks, base: nat, path: string,
                     c: nat, p: nat, s: nat, name: string, kind: Kind)
    requires Tree(d, w, rk) && Created(d, e, c, p, s, name, kind)
    requires Split(d, base, path) == Some((p, name)) && Resolve(d, base, path) == None
    ensures Tree(e, w[c := Place(p, s)], rk[c := rk[p] + 1])
    ensures Resolve(e, base, path) == Some(c) && KeepsPaths(d, e)
  {
    NewName(d, w, rk, base, path, p, name);
    assert Linking(d, e, w, rk, c, p, s, name);
    LinkTree(d, e, w, rk, c, p, s, name);
    forall b, q | 0 <= b && Resolve(d, b, q).Some? ensures Resolve(e, b, q) == Resolve(d, b, q) {
      LinkWalk(d, e, w, rk, c, p, s, name, Start(b, q), Comps(q));
    }
    SplitKept(d, e, base, path);
    SplitAgrees(e, base, path);
    LinkLookup(d, e, w, rk, c, p, s, name, p, name);
    assert Walk(e, c, [name][1..]) == Some(c);
  }

  lemma SplitKept(d: Disk, e: Disk, base: nat, path: string)
    requires KeepsPaths(d, e) && Split(d, base, path).Some?
    ensures Split(e, base, path) == Split(d, base, path)
  {
    var k := LastSlash(path);
    if k > 0 { assert Resolve(e, base, path[..k]) == Resolve(d, base, path[..k]); }
  }
}
