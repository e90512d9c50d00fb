/** Runs of the shell in which its current directory goes wrong, from format on. */
module ShellRuns {
  import opened Basics
  import opened FsModel
  import opened FsBlocks
  import opened FsTree
  import opened FsPath
  import opened FsCreate
  import opened FsWalks
  import opened FsSpace
  import opened FsCore
  import opened ShellCd
  import opened Bits

  // ---- disks with a few small directories ----

  /** Exactly the first k + 1 inodes are in use, as directories of at most three entries. */
  predicate Chain(d: Disk, k: nat) {
    k < INO_COUNT && forall i {:trigger d.ino[i]} :: 0 <= i < INO_COUNT ==>
      if i <= k then d.ino[i].kind == Dir && Used(d.ino[i]) <= 3 else d.ino[i].kind == Free
  }

  lemma {:induction false} FewKeys(own: Own, keys: set<nat>, n: nat)
    requires forall b :: b in keys ==> b in own && own[b].ino < n
    requires forall a, b :: a in keys && b in keys && own[a].ino == own[b].ino ==> a == b
    ensures |keys| <= n
  {
    if n > 0 {
      if b :| b in keys && own[b].ino == n - 1 {
        FewKeys(own, keys - {b}, n - 1);
      } else {
        FewKeys(own, keys, n - 1);
      }
    } else {
      assert keys == {};
    }
  }

  /** A small directory keeps its one block in its first slot. */
  lemma ChainSlot(d: Disk, own: Own, k: nat, b: nat)
    requires Owners(d, own) && NodesOk(d) && Chain(d, k) && b in own
    ensures own[b] == Ref(own[b].ino, Direct(0)) && own[b].ino < INO_COUNT && d.ino[own[b].ino].blocks[0] == b
  {
    var i, s := own[b].ino, own[b].slot;
    assert Ptr(d, i, s) == b && b < DATA_COUNT;
    assert NodeOk(d.dat, d.ino[i]);
  }

  /** So there is room for another. */
  lemma ChainRoom(d: Disk, own: Own, k: nat)
    requires Owners(d, own) && NodesOk(d) && Chain(d, k)
    ensures FreeCount(d.bm) > 0
  {
    hide Owners, NodesOk, Chain;
    forall b | b in own
      ensures own[b] == Ref(own[b].ino, Direct(0)) && own[b].ino < INO_COUNT && d.ino[own[b].ino].blocks[0] == b {
      ChainSlot(d, own, k, b);
    }
    FewKeys(own, own.Keys, INO_COUNT);
    FreeCountOwn(d, own);
    assert |own| == |own.Keys|;
  }

  lemma OneNamePath(d: Disk, base: nat, n: string)
    requires GoodName(n)
    ensures Split(d, base, n) == Some((base, n)) && Comps(n) == [n] && Resolve(d, base, n) == Walk(d, base, [n])
  {
    hide Walk;
    CompsName(n);
    assert forall i :: 0 <= i < |n| ==> n[i] in n;
    assert LastSlash(n) == -1;
    assert n[0..] == n;
  }

  /** An empty directory has no such name. */
  lemma EmptyLookup(d: Disk, w: Places, rk: Ranks, p: nat, n: string)
    requires Tree(d, w, rk) && IsDir(d, p) && Used(d.ino[p]) == 2 && GoodName(n)
    ensures Walk(d, p, [n]) == None
  {
    assert DirSlot(d, p, 0).name == "." && DirSlot(d, p, 1).name == "..";
  }

  lemma ChainCreatable(d: Disk, own: Own, w: Places, rk: Ranks, k: nat, n: string)
    requires Owners(d, own) && NodesOk(d) && Tree(d, w, rk) && Chain(d, k) && Used(d.ino[k]) == 2
    requires GoodName(n) && k + 1 < INO_COUNT
    ensures Creatable(d, k, n, true)
  {
    hide Owners, NodesOk, Tree, Walk;
    ChainRoom(d, own, k);
    OneNamePath(d, k, n);
    EmptyLookup(d, w, rk, k, n);
    assert d.ino[k + 1].kind == Free;
  }

  lemma ChainLonger(d: Disk, e: Disk, w: Places, rk: Ranks, k: nat, c: nat, s: nat, n: string)
    requires Tree(d, w, rk) && Chain(d, k) && Used(d.ino[k]) == 2
    requires Created(d, e, c, k, s, n, Dir) && LowestFree(d, c)
    ensures c == k + 1 && Chain(e, k + 1) && Used(e.ino[k + 1]) == 2
  {
    assert IsDir(d, k);
    assert !IsHole(DirSlot(d, k, 0)) && !IsHole(DirSlot(d, k, 1));
    assert d.ino[k].kind == Dir && (k + 1 < INO_COUNT ==> d.ino[k + 1].kind == Free);
    assert d.ino[c].kind == Free;
  }

  // ---- down and down ----

  function Copies(n: string, k: nat): seq<string> { seq(k, _ => n) }

  lemma {:induction false} CopiesText(n: string, k: nat)
    ensures |Slashed(Copies(n, k))| == k * (|n| + 1)
  {
    if k > 0 {
      CopiesText(n, k - 1);
      assert Copies(n, k)[..k - 1] == Copies(n, k - 1);
    }
  }

  /** What norm_join has room for when k directories of that name are above a further one. */
  predicate Fits(n: string, k: nat) { |n| <= MAX_SEG && k < MAX_DEPTH && k * (|n| + 1) + |n| + 2 < MAX_TEXT }

  /** The shell is in step, in the last of k directories called n, each in the one before. */
  ghost predicate Level(sh: Shell, n: string, k: nat)
    reads sh, sh.fs
  {
    && sh.InStep() && Tidy(sh.cwdstr) && sh.cwdstr == Render(Copies(n, k)) && sh.cwd == k
    && Chain(sh.fs.D(), k) && Used(sh.fs.ino[k]) == 2
  }

  lemma FitsOneName(n: string, k: nat)
    requires GoodName(n)
    ensures Comps(Render(Copies(n, k))) == Copies(n, k)
    ensures |Render(Copies(n, k))| + (if Render(Copies(n, k)) == "/" then 0 else 1) == k * (|n| + 1) + 1
    ensures CdNames(Copies(n, k), n) == Copies(n, k + 1)
  {
    hide Comps, Norm;
    var c := Copies(n, k);
    CompsRender(c);
    CopiesText(n, k);
    CompsName(n);
    NormPlain(c, [n]);
    assert c + [n] == Copies(n, k + 1);
    assert n[0] in n;
    AnchoredLength(c);
  }

  /** mkdir n and cd n: one level down, in step exactly when it fits. */
  method Deeper(sh: Shell, n: string, k: nat)
    requires Level(sh, n, k) && GoodName(n) && k <= MAX_DEPTH
    modifies sh, sh.fs
    ensures sh.fs.Valid() && sh.cwd == k + 1 && Chain(sh.fs.D(), k + 1)
    ensures Resolve(sh.fs.D(), k, n) == Some(k + 1)
    ensures if Fits(n, k) then Level(sh, n, k + 1)
            else !sh.InStep() && forall base: nat :: Resolve(sh.fs.D(), base, sh.cwdstr) != Some(sh.cwd)
  {
    hide Tree, Owners, NodesOk, Comps, Resolve, Fits, Shows, NewText, Chain, Creatable, Created, Tidy, Render,
         Faithful, Roomy, LowestFree, Split;
    ghost var d, w, rk := sh.fs.D(), sh.fs.where, sh.fs.rank;
    ChainCreatable(d, sh.fs.own, w, rk, k, n);
    OneNamePath(d, k, n);
    var ok, c, s := sh.Make(n, true);
    ChainLonger(d, sh.fs.D(), w, rk, k, c, s, n);
    DownText(sh.fs.D(), sh.fs.where, sh.fs.rank, sh.cwdstr, n, k);
    ok := sh.Cd(n);
  }

  /** What norm_join makes of one more name. */
  lemma FitsIs(n: string, k: nat, text: string, names: seq<string>)
    requires names == Copies(n, k) && |text| + (if text == "/" then 0 else 1) == k * (|n| + 1) + 1
    ensures Fits(n, k) <==>
      |n| <= 19 && |names| < 16 && |text| + (if text == "/" then 0 else 1) + |n| + 1 < 127
  {}

  lemma DownText(d: Disk, w: Places, rk: Ranks, text: string, n: string, k: nat)
    requires Tree(d, w, rk) && Shows(d, k, text) && Tidy(text) && text == Render(Copies(n, k)) && GoodName(n)
    requires Chain(d, k + 1) && Resolve(d, k, n) == Some(k + 1)
    ensures IsDir(d, k + 1) && (Shows(d, k + 1, NewText(text, n)) <==> Fits(n, k))
    ensures forall base: nat :: Resolve(d, base, NewText(text, n)) == Some(k + 1) <==> Fits(n, k)
    ensures Fits(n, k) ==> NewText(text, n) == Render(Copies(n, k + 1))
  {
    hide Tree, Comps, Norm, Stacked, Working, Walk, Slashed, Fits, Render, Copies;
    FitsOneName(n, k);
    FitsIs(n, k, text, Comps(text));
    assert d.ino[k + 1].kind == Dir;
    forall base: nat ensures Resolve(d, base, NewText(text, n)) == Some(k + 1) <==> Fits(n, k) {
      CdOneName(d, w, rk, k, text, n, k + 1, base);
    }
    CdOneName(d, w, rk, k, text, n, k + 1, 0);
    CdExact(d, w, rk, k, text, n, k + 1, 0);
  }

  /** Directories of one name, each in the one before: cd keeps text and inode in step as far as every
      level fits, and the next step ends with a text that does not lead to the current directory. A
      name of 20 characters breaks at once, one of 19 at the seventh level, one of at most 6 at the
      seventeenth. */
  method Descend(disk: DataArea, n: string) returns (sh: Shell, k: nat)
    requires GoodName(n)
    ensures k <= MAX_DEPTH && !Fits(n, k) && forall j :: 0 <= j < k ==> Fits(n, j)
    ensures sh.fs.Valid() && sh.cwd == k + 1 && IsDir(sh.fs.D(), k + 1) && !sh.InStep()
    ensures forall base: nat :: Resolve(sh.fs.D(), base, sh.cwdstr) != Some(sh.cwd)
    ensures (|n| > 19 ==> k == 0) && (|n| == 19 ==> k == 6) && (|n| <= 6 ==> k == 16)
  {
    hide Level, Fits, Chain, Resolve, Tree, Owners, NodesOk;
    sh := Begin(disk, n);
    k := 0;
    while Fits(n, k)
      invariant fresh(sh) && fresh(sh.fs) && k <= MAX_DEPTH && Level(sh, n, k) && forall j :: 0 <= j < k ==> Fits(n, j)
      decreases MAX_DEPTH - k
    {
      Deeper(sh, n, k);
      FitsBelow(n, k);
      k := k + 1;
    }
    Deeper(sh, n, k);
    Limits(n, k);
    ChainLast(sh.fs.D(), k + 1);
  }

  /** A shell on a disk just formatted. */
  method Begin(disk: DataArea, n: string) returns (sh: Shell)
    ensures fresh(sh) && fresh(sh.fs) && Level(sh, n, 0)
  {
    hide Level, Tree, Owners, NodesOk, Shows;
    var fs := new CofeuFs(disk);
    sh := new Shell(fs);
    FormatLevel(sh, n);
  }

  lemma FormatLevel(sh: Shell, n: string)
    requires sh.InStep() && sh.cwdstr == "/" && sh.cwd == ROOT
    requires forall i :: 0 <= i < INO_COUNT ==>
      ViewAt(sh.fs.D(), i) == if i == ROOT then FreshView(ROOT, ROOT, Dir) else NoNode
    ensures Level(sh, n, 0)
  {
    var d := sh.fs.D();
    CompsRender([]);
    assert |ViewAt(d, ROOT).entries| == Used(d.ino[ROOT]);
    assert Copies(n, 0) == [];
    forall i | 0 < i < INO_COUNT ensures d.ino[i].kind == Free { assert ViewAt(d, i) == NoNode; }
  }

  lemma FitsBelow(n: string, k: nat)
    ensures Fits(n, k) ==> k < MAX_DEPTH
  {}

  lemma ChainLast(d: Disk, k: nat)
    requires Chain(d, k)
    ensures IsDir(d, k)
  {}

  lemma Limits(n: string, k: nat)
    requires GoodName(n) && k <= MAX_DEPTH && !Fits(n, k) && forall j :: 0 <= j < k ==> Fits(n, j)
    ensures (|n| > 19 ==> k == 0) && (|n| == 19 ==> k == 6) && (|n| <= 6 ==> k == 16)
  {
    assert (k > 0 ==> Fits(n, 0)) && (k > 6 ==> Fits(n, 6));
    assert |n| <= 6 && k <= 15 ==> k * (|n| + 1) <= 15 * 7;
  }

  // ---- a directory that is its own parent ----

  /** What is left when the only directory below the root is removed. */
  lemma ChainShorter(d: Disk, e: Disk, w: Places, rk: Ranks)
    requires Tree(d, w, rk) && Chain(d, 1) && 1 in w && Unlinked(d, e, w, rk, 1)
    ensures Chain(e, 0) && LowestFree(e, 1)
  {
    assert d.ino[0].kind == Dir;
    forall i | 0 <= i < INO_COUNT ensures if i == 0 then e.ino[i] == d.ino[i] else e.ino[i].kind == Free {
      assert i > 1 ==> d.ino[i].kind == Free;
    }
  }

  lemma TopRemovable(d: Disk, w: Places, rk: Ranks)
    requires Tree(d, w, rk) && Chain(d, 1) && Resolve(d, 0, "a") == Some(1)
    ensures PathRemovable(d, 1, "/a", true) && Resolve(d, 1, "/a") == Some(1)
    ensures 1 in w && SubtreeSmall(d, w, rk, 1)
  {
    hide Named, EntriesOk, DotsOk, UniqueNames, Comps;
    var p := "/a";
    assert LastSlash(p) == 0 && p[1..] == "a";
    CompsName("a");
    CompsJoin("", "a");
    CompsEmpty();
    assert p == "" + "/" + "a" && [] + ["a"] == ["a"];
    WalkName(d, w, rk, 0, "a", 1);
  }

  lemma StaleMakes(d: Disk, e: Disk, w: Places, rk: Ranks, own: Own, was: Own)
    requires Tree(d, w, rk) && Chain(d, 1) && 1 in w && RemovedTarget(d, e, w, rk, was, 1)
    requires Owners(e, own) && NodesOk(e)
    ensures MakesOwnParent(e, 1, "x", true) && LowestFree(e, 1)
  {
    hide Tree, Owners, NodesOk, Walk;
    RankedTree(d, w, rk);
    RemovedUnlinked(d, e, w, rk, 1);
    ChainShorter(d, e, w, rk);
    ChainRoom(e, own, 0);
    OneNamePath(e, 1, "x");
    WalkFree(e, 1, ["x"], 0);
  }

  lemma RankedTree(d: Disk, w: Places, rk: Ranks)
    requires Tree(d, w, rk)
    ensures Ranked(w, rk)
  {}

  /** mkdir a; cd a; rm -r /a; mkdir x: the new directory takes the inode the shell is still in, and
      names itself. The disk is no longer sound. */
  method StaleParent(disk: DataArea) returns (sh: Shell)
    ensures SelfNamed(sh.fs.D(), 1) && !sh.fs.Valid()
    ensures forall w, rk :: !Tree(sh.fs.D(), w, rk)
  {
    hide Tree, Owners, NodesOk, Comps, Walk, RemovedTarget, WalksLeft, SubtreeSmall, Chain, SelfNamed, Resolve, Split,
         Creatable, MakesOwnParent, PathRemovable, Unchanged, KeepsPaths, Created, Shows, Tidy, Render;
    sh := Begin(disk, "a");
    var fs := sh.fs;
    Deeper(sh, "a", 0);
    ghost var d, w, rk, own := fs.D(), fs.where, fs.rank, fs.own;
    RankedTree(d, w, rk);
    TopRemovable(d, w, rk);
    var ok := fs.RemoveFile(sh.cwd, "/a", true);
    StaleMakes(d, fs.D(), w, rk, fs.own, own);
    ghost var c, s;
    ok, c, s := fs.CreateInode(sh.cwd, "x", true);
    forall w, rk ensures !Tree(fs.D(), w, rk) { SelfNamedNoTree(fs.D(), 1, w, rk); }
  }
}
