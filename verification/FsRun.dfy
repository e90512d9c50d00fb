/** Whole runs of the file system, from format on. */
module FsRun {
  import opened Basics
  import opened FsModel
  import opened FsBlocks
  import opened FsTree
  import opened FsPath
  import opened FsTheorems
  import opened FsCreate
  import opened FsWalks
  import opened FsCore

  datatype Op =
    | MakeFile(base: nat, path: string)
    | MakeDir(base: nat, path: string)
    | Write(base: nat, path: string, data: seq<byte>)
    | Append(base: nat, path: string, data: seq<byte>)
    | Remove(base: nat, path: string, recursive: bool)

  /** The call is one the code is written for: its base is an inode number, mkdir's parent is not the
      free inode it would use itself, and an append does not overflow 32 bits. */
  predicate Admissible(d: Disk, op: Op) {
    && op.base < INO_COUNT
    && (op.MakeDir? && Split(d, op.base, op.path).Some? ==> !LowestFree(d, Split(d, op.base, op.path).value.0))
    && (op.Append? ==> !AppendWraps(d, op.base, op.path, |op.data|))
  }

  /** Entry k of directory p is the only one that names c, and ".." of c is p. */
  ghost predicate OnlyName(d: Disk, c: nat, p: nat, k: nat) {
    && Names(d, p, k, c) && (forall q, m :: Names(d, q, m, c) ==> q == p && m == k)
    && (IsDir(d, c) ==> DirSlot(d, c, 1).ino == p)
  }

  /** The only path without dots from the root to c. */
  ghost predicate OnlyPath(d: Disk, c: nat, comps: seq<string>) {
    && NoDots(comps) && Walk(d, ROOT, comps) == Some(c)
    && forall other :: NoDots(other) && Walk(d, ROOT, other) == Some(c) ==> other == comps
  }

  /** Exactly one entry names c, its ".." leads back, and exactly one dot-free path leads to it. */
  ghost predicate InTree(d: Disk, c: nat) {
    (c != ROOT ==> exists p, k :: OnlyName(d, c, p, k)) && exists comps :: OnlyPath(d, c, comps)
  }

  lemma TreeMeans(d: Disk, w: Places, rk: Ranks)
    requires Tree(d, w, rk)
    ensures forall c {:trigger Live(d, c)} :: Live(d, c) ==> InTree(d, c)
  {
    hide Tree, Walk, NoDots;
    forall c | Live(d, c) ensures InTree(d, c) {
      var comps := HasPath(d, w, rk, c);
      forall other | NoDots(other) && Walk(d, ROOT, other) == Some(c) ensures other == comps {
        PathUnique(d, w, rk, other, comps, c);
      }
      assert OnlyPath(d, c, comps);
      if c != ROOT {
        var p, k := OneName(d, w, rk, c);
        assert OnlyName(d, c, p, k);
      }
    }
  }

  /** Any sequence of calls, up to the first that is not admissible or the first removal that takes
      the root's block (exactly those of a subtree with a directory over 240 slots): the live inodes
      form one tree and, unless the root's block was taken, the bitmap is exact. */
  method Run(disk: DataArea, ops: seq<Op>) returns (fs: CofeuFs, n: nat)
    ensures fresh(fs) && n <= |ops| && (n < |ops| ==> !Admissible(fs.D(), ops[n]) || !fs.bm[0])
    ensures forall c {:trigger Live(fs.D(), c)} :: Live(fs.D(), c) ==> InTree(fs.D(), c)
    ensures fs.Valid() <==> fs.bm[0]
    ensures fs.bm[0] <==> BitmapExact(fs.D())
    ensures !fs.bm[0] ==> 0 < n && ops[n - 1].Remove?
  {
    hide Owners, NodesOk, Tree, BitmapExact, InTree, Admissible;
    fs := new CofeuFs(disk);
    n := 0;
    Sound(fs.D(), fs.own, fs.where, fs.rank);
    while n < |ops| && fs.bm[0] && Admissible(fs.D(), ops[n])
      invariant fresh(fs) && n <= |ops| && (fs.Valid() <==> fs.bm[0]) && (fs.bm[0] <==> BitmapExact(fs.D()))
      invariant Tree(fs.D(), fs.where, fs.rank)
      invariant !fs.bm[0] ==> 0 < n && ops[n - 1].Remove?
      decreases |ops| - n
    {
      Perform(fs, ops[n]);
      n := n + 1;
    }
    TreeMeans(fs.D(), fs.where, fs.rank);
  }

  /** One admissible call on a sound disk. Only a removal can make it unsound, and then bit 0 shows it. */
  method Perform(fs: CofeuFs, op: Op)
    requires fs.Valid() && Admissible(fs.D(), op)
    modifies fs
    ensures Tree(fs.D(), fs.where, fs.rank) && (fs.Valid() <==> fs.bm[0]) && (fs.bm[0] <==> BitmapExact(fs.D()))
    ensures !op.Remove? ==> fs.Valid()
    ensures !(op.Remove? && op.recursive) ==>
      forall i {:trigger IsDir(fs.D(), i)} :: old(IsDir(fs.D(), i)) ==> IsDir(fs.D(), i)
    ensures op.Remove? && old(Split(fs.D(), op.base, op.path).Some? && PathView(fs.D(), op.base, op.path).FileView?) ==>
      old(Split(fs.D(), op.base, op.path)).value.1 == "." || Resolve(fs.D(), op.base, op.path) == None
  {
    hide Owners, NodesOk, Named, EntriesOk, DotsOk, UniqueNames, BitmapExact, Creatable, Resolve, CreatedFile, Wrote,
         Appended, WroteNew, KeepsPaths, Created;
    ghost var d := fs.D();
    match op {
      case MakeFile(base, path) =>
        var ok, c, s := fs.CreateInode(base, path, false);
        MakeDirs(d, fs.D(), base, path, false, ok, c, s);
      case MakeDir(base, path) =>
        var ok, c, s := fs.CreateInode(base, path, true);
        MakeDirs(d, fs.D(), base, path, true, ok, c, s);
      case Write(base, path, data) =>
        var ok, mid := fs.WriteFile(base, path, data);
        if Resolve(d, base, path).None? && Creatable(d, base, path, false) { CreatedFileDirs(d, mid, base, path); }
        if Resolve(d, base, path).Some? || Creatable(d, base, path, false) {
          WroteDirs(mid, fs.D(), Resolve(mid, base, path).value, data, ok);
        } else {
          UnchangedKinds(d, fs.D());
        }
      case Append(base, path, data) =>
        var ok := fs.AppendFile(base, path, data);
        AppendDirs(d, fs.D(), base, path, data, ok);
      case Remove(base, path, recursive) => var _ := fs.RemoveFile(base, path, recursive);
    }
    if fs.Valid() { Sound(fs.D(), fs.own, fs.where, fs.rank); }
  }

  /** No directory is lost. */
  ghost predicate DirsKept(d: Disk, e: Disk) { forall i {:trigger IsDir(e, i)} :: IsDir(d, i) ==> IsDir(e, i) }

  lemma UnchangedKinds(d: Disk, e: Disk)
    requires Unchanged(d, e)
    ensures DirsKept(d, e)
  {}

  lemma MakeDirs(d: Disk, e: Disk, base: nat, path: string, isDir: bool, ok: bool, c: nat, s: nat)
    requires !ok ==> Unchanged(d, e)
    requires ok ==> Split(d, base, path).Some?
    requires ok ==>
      Created(d, e, c, Split(d, base, path).value.0, s, Split(d, base, path).value.1, if isDir then Dir else File)
    ensures DirsKept(d, e)
  {}

  lemma CreatedFileDirs(d: Disk, e: Disk, base: nat, path: string)
    requires CreatedFile(d, e, base, path)
    ensures DirsKept(d, e)
  {}

  lemma WroteDirs(d: Disk, e: Disk, f: nat, data: seq<byte>, ok: bool)
    requires Wrote(d, e, f, data, ok)
    ensures DirsKept(d, e)
  {}

  lemma AppendDirs(d: Disk, e: Disk, base: nat, path: string, data: seq<byte>, ok: bool)
    requires match Resolve(d, base, path)
      case None => WroteNew(d, e, base, path, data, ok)
      case Some(f) => Appended(d, e, f, data, ok)
    ensures DirsKept(d, e)
  {
    hide Created;
    match Resolve(d, base, path) {
      case None =>
        if Creatable(d, base, path, false) {
          var mid :| CreatedFile(d, mid, base, path) && Wrote(mid, e, Resolve(mid, base, path).value, data, ok);
          CreatedFileDirs(d, mid, base, path);
          WroteDirs(mid, e, Resolve(mid, base, path).value, data, ok);
        } else {
          UnchangedKinds(d, e);
        }
      case Some(f) =>
    }
  }

  /** A sound disk has an exact bitmap, bit 0 included. */
  lemma Sound(d: Disk, own: Own, w: Places, rk: Ranks)
    requires Owners(d, own) && Tree(d, w, rk) && d.ino[ROOT].blocks[0] == 0
    ensures BitmapExact(d) && d.bm[0]
  {
    OwnersExact(d, own);
    assert Ptr(d, ROOT, Direct(0)) == 0;
  }
}
