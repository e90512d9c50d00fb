/** The cofeufs driver: its in-memory bitmap, inode table and data sectors, updated in place. */
module FsCore {
  import opened Basics
  import opened FsModel
  import opened FsBlocks
  import opened FsFiles
  import opened FsDirs
  import opened FsTree
  import opened FsPath
  import opened FsCreate
  import opened FsRemove
  import opened FsWalks
  import opened FsSpace
  import opened Bits

  datatype MapResult = Full | NoSpace | Got(lba: nat)

  class CofeuFs {
    var bm: Bitmap
    var ino: InodeTable
    var dat: DataArea
    ghost var own: Own
    ghost var where: Places
    ghost var rank: Ranks

    function D(): Disk
      reads this
    {
      Disk(bm, ino, dat)
    }

    ghost predicate Valid()
      reads this
    {
      Owners(D(), own) && NodesOk(D()) && Tree(D(), where, rank) && ino[ROOT].blocks[0] == 0
    }

    /** format: an empty root directory in data block 0. */
    constructor (disk: DataArea)
      ensures Valid()
      ensures forall i :: 0 <= i < INO_COUNT ==>
        ViewAt(D(), i) == if i == ROOT then FreshView(ROOT, ROOT, Dir) else NoNode
    {
      bm := seq(DATA_COUNT, _ => false)[0 := true];
      ino := seq(INO_COUNT, _ => ZERO_INODE)[ROOT := RootInode()];
      dat := disk[0 := Entries(DotSlots(ROOT, ROOT))];
      own := map[0 := Ref(ROOT, Direct(0))];
      where := map[];
      rank := seq(INO_COUNT, _ => 0);
      new;
      FormatOk(D(), rank);
    }

    // ---- blocks ----

    method BlockAlloc() returns (ok: bool, idx: nat)
      modifies this`bm
      ensures ok ==> idx < DATA_COUNT && !old(bm)[idx] && bm == old(bm)[idx := true]
      ensures ok ==> forall b :: 0 <= b < idx ==> old(bm)[b]
      ensures ok ==> FreeCount(old(bm)) == FreeCount(bm) + 1
      ensures !ok ==> bm == old(bm) && FreeCount(bm) == 0
    {
      var i := 0;
      while i < DATA_COUNT
        invariant 0 <= i <= DATA_COUNT && bm == old(bm)
        invariant forall b :: 0 <= b < i ==> bm[b]
      {
        if !bm[i] {
          FreeCountSet(bm, i);
          bm := bm[i := true];
          return true, i;
        }
        i := i + 1;
      }
      FreeCountFull(bm);
      return false, 0;
    }

    method BlockFree(n: nat)
      modifies this`bm
      ensures bm == if n < DATA_COUNT then old(bm)[n := false] else old(bm)
    {
      if n >= DATA_COUNT { return; }
      bm := bm[n := false];
    }

    /** Frees one indirect table and the blocks it lists. */
    method FreeTable(tbl: nat)
      requires tbl < DATA_COUNT
      modifies this`bm
      ensures forall b {:trigger bm[b]} :: 0 <= b < DATA_COUNT ==>
        (bm[b] <==> old(bm)[b] && b != tbl && b !in Words(dat[tbl]))
    {
      var ptrs := Words(dat[tbl]);
      var j := 0;
      while j < IND_PTRS
        invariant 0 <= j <= IND_PTRS
        invariant forall b {:trigger bm[b]} :: 0 <= b < DATA_COUNT ==>
          (bm[b] <==> old(bm)[b] && b !in ptrs[..j])
      {
        assert ptrs[..j + 1] == ptrs[..j] + [ptrs[j]];
        if ptrs[j] != NONE && ptrs[j] < DATA_COUNT { BlockFree(ptrs[j]); }
        j := j + 1;
      }
      assert ptrs[..j] == ptrs;
      BlockFree(tbl);
    }

    method InodeFreeBlocks(n: Inode) returns (out: Inode)
      modifies this`bm
      ensures forall b {:trigger bm[b]} :: 0 <= b < DATA_COUNT ==>
        (bm[b] <==> old(bm)[b] && !Frees(dat, n, b))
      ensures out.(blocks := n.blocks) == n
      ensures forall k {:trigger out.blocks[k]} :: 0 <= k < 22 ==>
        out.blocks[k] == if n.blocks[k] < DATA_COUNT then NONE else n.blocks[k]
    {
      out := n;
      var i := 0;
      while i < MAX_DIRECT
        invariant 0 <= i <= MAX_DIRECT
        invariant out.(blocks := n.blocks) == n
        invariant forall k {:trigger out.blocks[k]} :: 0 <= k < 22 ==>
          out.blocks[k] == if k < i && n.blocks[k] < DATA_COUNT then NONE else n.blocks[k]
        invariant forall b {:trigger bm[b]} :: 0 <= b < DATA_COUNT ==>
          (bm[b] <==> old(bm)[b] && !(exists k :: 0 <= k < i && n.blocks[k] == b))
      {
        if out.blocks[i] != NONE && out.blocks[i] < DATA_COUNT {
          BlockFree(out.blocks[i]);
          out := out.(blocks := out.blocks[i := NONE]);
        }
        i := i + 1;
      }
      if n.blocks[20] != NONE && n.blocks[20] < DATA_COUNT {
        FreeTable(n.blocks[20]);
        out := out.(blocks := out.blocks[20 := NONE]);
      }
      if n.blocks[21] != NONE && n.blocks[21] < DATA_COUNT {
        FreeTable(n.blocks[21]);
        out := out.(blocks := out.blocks[21 := NONE]);
      }
    }

    /** The block holding logical block bi, or nothing. */
    method InodeBlockAt(n: Inode, bi: nat) returns (r: Option<nat>)
      ensures r == RawBlock(dat, n, bi)
      ensures n.kind == File && (bi < 20 ==> n.blocks[bi] == NONE || n.blocks[bi] < DATA_COUNT) ==>
        r == if bi < 276 && BlockOf(dat, n, bi) < DATA_COUNT then Some(BlockOf(dat, n, bi)) else None
    {
      if bi < MAX_DIRECT {
        if n.blocks[bi] == NONE { return None; }
        return Some(n.blocks[bi]);
      }
      var t, j := (bi - 20) / 128, (bi - 20) % 128;
      if t >= 2 { return None; }
      var tbl := n.blocks[20 + t];
      if tbl == NONE || tbl >= DATA_COUNT { return None; }
      var idx := Words(dat[tbl])[j];
      if idx == NONE || idx >= DATA_COUNT { return None; }
      return Some(idx);
    }

    // ---- growing a file ----

    /** The disk with inode i replaced by the copy being edited in memory. */
    ghost function With(i: nat, n: Inode): Disk
      requires i < INO_COUNT
      reads this
    {
      Disk(bm, ino[i := n], dat)
    }

    /** inode_map_next for a file whose next block is direct. */
    method MapDirectNext(ghost i: nat, n: Inode, k: nat) returns (r: MapResult, out: Inode)
      requires i < INO_COUNT && k < 20 && MappedT(dat, n, k, 0)
      requires Owners(With(i, n), own)
      modifies this`bm, this`own
      ensures Owners(With(i, out), own) && OthersOwned(old(own), own, i)
      ensures !r.Full? && out.(blocks := n.blocks) == n
      ensures r.Got? ==> MappedT(dat, out, k + 1, 0) && r.lba == BlockOf(dat, out, k)
      ensures if r.Got? then FreeCount(old(bm)) == FreeCount(bm) + 1 else FreeCount(old(bm)) == 0
    {
      ghost var d := With(i, n);
      out := n;
      var ok, idx := BlockAlloc();
      if !ok { return NoSpace, out; }
      assert BlockOf(dat, n, k) == NONE;
      TakeDirect(d, own, i, k, idx, dat[idx]);
      MapDirect(dat, n, k, idx);
      out := n.(blocks := n.blocks[k := idx]);
      assert With(i, out) == PutDirect(d, i, k, idx, dat[idx]);
      assert idx !in own;
      own := own[idx := Ref(i, Direct(k))];
      return Got(idx), out;
    }

    /** Allocates indirect table t, filled with empty entries. */
    method AddTable(ghost i: nat, n: Inode, t: nat, ghost k: nat) returns (ok: bool, out: Inode)
      requires i < INO_COUNT && t < 2 && k == 20 + 128 * t && MappedT(dat, n, k, t)
      requires Owners(With(i, n), own)
      modifies this`bm, this`dat, this`own
      ensures Owners(With(i, out), own) && OthersOwned(old(own), own, i) && OthersKept(old(own), i, old(dat), dat)
      ensures out.(blocks := n.blocks) == n
      ensures ok ==> MappedT(dat, out, k, t + 1)
      ensures if ok then FreeCount(old(bm)) == FreeCount(bm) + 1 else FreeCount(old(bm)) == 0
    {
      hide Owners;
      out := n;
      ghost var d := With(i, n);
      var tbl;
      ok, tbl := BlockAlloc();
      if !ok { return; }
      GrowTable(d, own, i, t, tbl);
      out := n.(blocks := n.blocks[20 + t := tbl]);
      dat := dat[tbl := Table(EMPTY_TABLE)];
      assert With(i, out) == PutDirect(d, i, 20 + t, tbl, Table(EMPTY_TABLE));
      own := own[tbl := Ref(i, Direct(20 + t))];
    }

    /** Allocates a data block and records it in entry j of table t. */
    method FillEntry(ghost i: nat, n: Inode, t: nat, j: nat) returns (r: MapResult)
      requires i < INO_COUNT && t < 2 && j < 128 && MappedT(dat, n, 20 + 128 * t + j, t + 1)
      requires Owners(With(i, n), own)
      modifies this`bm, this`dat, this`own
      ensures Owners(With(i, n), own) && OthersOwned(old(own), own, i) && OthersKept(old(own), i, old(dat), dat)
      ensures !r.Full?
      ensures r.Got? ==> MappedT(dat, n, 21 + 128 * t + j, t + 1) && r.lba == BlockOf(dat, n, 20 + 128 * t + j)
      ensures if r.Got? then FreeCount(old(bm)) == FreeCount(bm) + 1 else FreeCount(old(bm)) == 0
    {
      hide Owners;
      ghost var d := With(i, n);
      var tbl := n.blocks[20 + t];
      var ok, b := BlockAlloc();
      if !ok { return NoSpace; }
      GrowEntry(d, own, i, t, j, b);
      dat := dat[tbl := Table(Words(dat[tbl])[j := b])];
      assert With(i, n) == PutEntry(d, tbl, j, b);
      own := own[b := Ref(i, Entry(t, j))];
      return Got(b);
    }

    method FirstFree(ptrs: Table128) returns (j: nat)
      ensures j <= 128 && (j < 128 ==> ptrs[j] == NONE)
      ensures forall m :: 0 <= m < j ==> ptrs[m] != NONE
    {
      j := 0;
      while j < IND_PTRS && ptrs[j] != NONE
        invariant j <= 128 && forall m :: 0 <= m < j ==> ptrs[m] != NONE
      {
        j := j + 1;
      }
    }

    /** One turn of inode_map_next's loop over indirect tables. */
    method MapIndirectNext(ghost i: nat, n: Inode, t: nat, ghost k: nat) returns (r: MapResult, out: Inode)
      requires i < INO_COUNT && t < 2 && 20 + 128 * t <= k <= 276
      requires MappedT(dat, n, k, TablesFor(k))
      requires Owners(With(i, n), own)
      modifies this`bm, this`dat, this`own
      ensures Owners(With(i, out), own) && OthersOwned(old(own), own, i) && OthersKept(old(own), i, old(dat), dat)
      ensures out.(blocks := n.blocks) == n
      ensures r.Full? <==> k >= 148 + 128 * t
      ensures r.Full? ==> out == n && dat == old(dat) && bm == old(bm) && own == old(own)
      ensures r.Got? ==> MappedT(dat, out, k + 1, t + 1) && r.lba == BlockOf(dat, out, k)
      ensures r.Got? ==> FreeCount(old(bm)) == FreeCount(bm) + StepCost(k)
      ensures r.NoSpace? ==> FreeCount(old(bm)) < StepCost(k)
    {
      hide Owners, OthersOwned, OthersKept, MappedT, StepCost, FreeCount;
      out := n;
      ghost var tables := TablesFor(k);
      ghost var own1, dat1 := own, dat;
      OthersNone(own, i, dat);
      TablePresent(dat, n, k, t);
      if n.blocks[20 + t] == NONE {
        var ok;
        ok, out := AddTable(i, n, t, k);
        if !ok { return NoSpace, out; }
        tables, own1, dat1 := t + 1, own, dat;
      }
      var tbl := out.blocks[20 + t];
      TableEntry(dat, out, k, tables, t, 0);
      if tbl >= DATA_COUNT { return NoSpace, out; }
      var j := FirstFree(Words(dat[tbl]));
      FirstEmpty(dat, out, k, tables, t, j);
      if j == IND_PTRS { return Full, out; }
      r := FillEntry(i, out, t, j);
      OthersTwice(old(own), own1, own, i, old(dat), dat1, dat);
    }

    /** Allocates the next data block of the file: direct slots first, then the tables. */
    method InodeMapNext(ghost i: nat, n: Inode, ghost k: nat) returns (r: MapResult, out: Inode)
      requires i < INO_COUNT && k <= 276 && Mapped(dat, n, k)
      requires Owners(With(i, n), own)
      modifies this`bm, this`dat, this`own
      ensures Owners(With(i, out), own) && OthersOwned(old(own), own, i) && OthersKept(old(own), i, old(dat), dat)
      ensures out.(blocks := n.blocks) == n
      ensures r.Full? <==> k == 276
      ensures r.Got? ==> Mapped(dat, out, k + 1) && r.lba == BlockOf(dat, out, k)
      ensures r.Got? ==> FreeCount(old(bm)) == FreeCount(bm) + StepCost(k)
      ensures r.NoSpace? ==> FreeCount(old(bm)) < StepCost(k)
    {
      hide Owners;
      out := n;
      MappedIff(dat, n, k);
      var m := 0;
      while m < MAX_DIRECT
        invariant 0 <= m <= MAX_DIRECT && m <= k
        invariant bm == old(bm) && dat == old(dat) && own == old(own)
      {
        assert BlockOf(dat, n, m) == n.blocks[m];
        if n.blocks[m] == NONE {
          r, out := MapDirectNext(i, n, m);
          if r.Got? { MappedIff(dat, out, m + 1); }
          return;
        }
        m := m + 1;
      }
      r, out := MapIndirectNext(i, n, 0, k);
      if r.Full? { r, out := MapIndirectNext(i, n, 1, k); }
      if r.Got? { MappedIff(dat, out, k + 1); }
    }
  
    // ---- writing ----

    /** Releases everything the inode holds and stores it with no blocks. */
    method WriteFileAbort(f: nat, n: Inode)
      requires f < INO_COUNT && n.kind == File && Owners(With(f, n), own)
      modifies this`bm, this`ino, this`own
      ensures own == Without(old(own), f) && Owners(D(), own)
      ensures ino == old(ino)[f := n.(size := 0, blocks := NO_BLOCKS)]
    {
      ghost var d := With(f, n);
      var out := InodeFreeBlocks(n);
      forall k | 0 <= k < 22 ensures out.blocks[k] == NONE {
        assert Ptr(d, f, Direct(k)) == n.blocks[k];
      }
      out := out.(size := 0);
      assert out.blocks == NO_BLOCKS;
      ReleaseOwners(d, own, f, bm, out);
      own := Without(own, f);
      ino := ino[f := out];
      assert D() == Disk(bm, d.ino[f := out], dat);
    }

    /** Allocates need blocks for the inode, which starts with none. */
    method MapAll(ghost f: nat, n0: Inode, need: nat) returns (ok: bool, n: Inode)
      requires f < INO_COUNT && need <= 276 && Mapped(dat, n0, 0) && Owners(With(f, n0), own)
      modifies this`bm, this`dat, this`own
      ensures Owners(With(f, n), own) && n.(blocks := n0.blocks) == n0
      ensures OthersOwned(old(own), own, f) && OthersKept(old(own), f, old(dat), dat)
      ensures ok ==> Mapped(dat, n, need)
      ensures ok <==> FreeCount(old(bm)) >= need + TablesFor(need)
    {
      hide Owners, Mapped;
      n := n0;
      var i := 0;
      while i < need
        invariant 0 <= i <= need && Mapped(dat, n, i) && ino == old(ino)
        invariant Owners(With(f, n), own) && n.(blocks := n0.blocks) == n0
        invariant OthersOwned(old(own), own, f) && OthersKept(old(own), f, old(dat), dat)
        invariant FreeCount(old(bm)) == FreeCount(bm) + i + TablesFor(i)
      {
        var r;
        r, n := InodeMapNext(f, n, i);
        if !r.Got? {
          assert TablesFor(i + 1) <= TablesFor(need);
          return false, n;
        }
        i := i + 1;
      }
      return true, n;
    }

    /** Copies data into the blocks of the inode, one sector at a time. */
    method StoreAll(ghost f: nat, n: Inode, data: seq<byte>) returns (ok: bool)
      requires f < INO_COUNT && n.size == |data| <= MAX_FILE
      requires Mapped(dat, n, Need(|data|)) && Owners(With(f, n), own)
      modifies this`dat
      ensures ok && Owners(With(f, n), own) && OthersKept(own, f, old(dat), dat)
      ensures FileOk(dat, n) && Content(dat, n) == data
    {
      hide Owners, Content, RawBlock;
      var need := (|data| + 511) / 512;
      var i := 0;
      while i < need
        invariant 0 <= i <= need && Mapped(dat, n, need)
        invariant Owners(With(f, n), own) && OthersKept(own, f, old(dat), dat)
        invariant forall k {:trigger BlockOf(dat, n, k)} :: 0 <= k < i ==>
          BlockOf(dat, n, k) < DATA_COUNT && dat[BlockOf(dat, n, k)] == Bytes(Chunk(data, k))
      {
        ghost var d := With(f, n);
        assert i < 20 ==> Ptr(d, f, Direct(i)) == n.blocks[i];
        var chunk := if i == need - 1 then |data| - i * 512 else 512;
        var sec := data[i * 512 .. i * 512 + chunk] + seq(512 - chunk, _ => 0);
        assert sec == Chunk(data, i);
        StoreChunk(d, own, f, need, i, Bytes(sec));
        var lba := InodeBlockAt(n, i);
        if lba == None { return false; }
        dat := dat[lba.value := Bytes(sec)];
        i := i + 1;
      }
      ChunksContent(dat, n, data);
      return true;
    }

    /** Maps and fills the emptied inode n, then stores it; or gives everything back. */
    method WriteBlocks(f: nat, n: Inode, data: seq<byte>) returns (ok: bool)
      requires f < INO_COUNT && n.kind == File && n.blocks == NO_BLOCKS && n.size == |data| <= MAX_FILE
      requires Owners(With(f, n), own)
      modifies this`bm, this`ino, this`dat, this`own
      ensures Owners(D(), own) && OthersKept(old(own), f, old(dat), dat)
      ensures forall j {:trigger ino[j]} :: 0 <= j < INO_COUNT && j != f ==> ino[j] == old(ino)[j]
      ensures ino[f].kind == File && FileOk(dat, ino[f])
      ensures Content(dat, ino[f]) == if ok then data else []
      ensures ok <==> FreeCount(old(bm)) >= BlocksFor(|data|)
    {
      EmptyMapped(dat, n);
      var n2;
      ok, n2 := MapAll(f, n, Need(|data|));
      if ok {
        label mapped:
        ok := StoreAll(f, n2, data);
        assert OthersKept(old(own), f, old@mapped(dat), dat);
        ino := ino[f := n2];
      } else {
        WriteFileAbort(f, n2);
        EmptyMapped(dat, ino[f]);
        ChunksContent(dat, ino[f], []);
      }
    }

    /** Replaces the contents of file f: its old blocks are released first. */
    method Rewrite(f: nat, data: seq<byte>) returns (ok: bool)
      requires Owners(D(), own) && NodesOk(D())
      requires f < INO_COUNT && ino[f].kind == File && |data| <= MAX_FILE
      modifies this`bm, this`ino, this`dat, this`own
      ensures Owners(D(), own) && NodesOk(D()) && OnlyFile(old(D()), D(), f)
      ensures ViewAt(D(), f) == FileView(if ok then data else [])
      ensures ok <==> Fits(old(D()), f, |data|)
    {
      hide Owners, OthersKept, FreeCount, BlocksFor;
      ghost var d, own0 := D(), own;
      assert NodeOk(dat, ino[f]);
      var n1 := InodeFreeBlocks(ino[f]);
      n1 := n1.(blocks := NO_BLOCKS, size := |data|);
      ReleaseOwners(d, own0, f, bm, n1);
      own := Without(own0, f);
      ghost var d1 := With(f, n1);
      ReleasedCount(d, own0, f, d1);
      ok := WriteBlocks(f, n1, data);
      RewriteViews(d, d1, Without(own0, f), D(), f);
    }

    /** write_file once the path has been resolved to inode f. */
    method WriteInode(f: nat, data: seq<byte>) returns (ok: bool)
      requires Valid() && f < INO_COUNT
      modifies this`bm, this`ino, this`dat, this`own
      ensures Valid()
      ensures OnlyFile(old(D()), D(), f) || D() == old(D())
      ensures ok ==> old(ino)[f].kind == File && |data| <= MAX_FILE
      ensures old(ino)[f].kind == File && |data| <= MAX_FILE ==>
        Wrote(old(D()), D(), f, data, ok)
      ensures !(old(ino)[f].kind == File && |data| <= MAX_FILE) ==> D() == old(D())
    {
      if ino[f].kind != File { return false; }
      if |data| > MAX_FILE { return false; }
      ghost var d := D();
      ok := Rewrite(f, data);
      OnlyFileTree(d, D(), f, where, rank);
    }
  
    // ---- directories ----

    method DirSlotRead(n: Inode, slot: nat) returns (r: Option<DirEntry>)
      requires DirOk(dat, n)
      ensures r == if slot / 12 * 12 < Used(n) then Some(SlotOf(dat, n, slot)) else None
    {
      var blk := slot / DE_PER_BLK;
      if blk >= MAX_BLOCKS || n.blocks[blk] == NONE { return None; }
      return Some(dat[n.blocks[blk]].slots[slot % DE_PER_BLK]);
    }

    /** The first entry of directory i that answers to the name. */
    method DirFind(i: nat, name: string) returns (r: Option<nat>)
      requires IsDir(D(), i) && DirOk(dat, ino[i])
      ensures r == Lookup(D(), i, name, 0)
    {
      var n := Used(ino[i]);
      var k := 0;
      while k < n
        invariant 0 <= k <= n && Lookup(D(), i, name, 0) == Lookup(D(), i, name, k)
      {
        var e := DirSlotRead(ino[i], k);
        if e == None { break; }
        if e.value.ino != 0 && e.value.name == name { return Some(k); }
        if name == ".." && e.value.name == ".." { return Some(k); }
        k := k + 1;
      }
      return None;
    }

    /** The first hole of directory i, or its number of slots. */
    method FindHole(i: nat) returns (k: nat)
      requires IsDir(D(), i) && DirOk(dat, ino[i])
      ensures k <= Used(ino[i]) && (k < Used(ino[i]) ==> IsHole(DirSlot(D(), i, k)))
      ensures forall j :: 0 <= j < k ==> !IsHole(DirSlot(D(), i, j))
      ensures k < Used(ino[i]) <==> HasHole(D(), i)
    {
      k := 0;
      while k < Used(ino[i])
        invariant k <= Used(ino[i]) && forall j :: 0 <= j < k ==> !IsHole(DirSlot(D(), i, j))
      {
        var e := DirSlotRead(ino[i], k);
        if e == None { return Used(ino[i]); }
        if e.value.ino == 0 && e.value.name == "" { return; }
        k := k + 1;
      }
    }

    // ---- paths ----

    /** resolve_from's copy loop: the length of the component at i. */
    method CopyComp(path: string, i: nat) returns (n: nat)
      requires i <= |path|
      ensures n == CompLen(path[i..], 31)
    {
      var rest := path[i..];
      n := 0;
      while n < |rest| && rest[n] != '/' && n < 31
        invariant n <= |rest| && n <= 31 && '/' !in rest[..n]
      {
        n := n + 1;
      }
      CompLenIs(rest, 31, n);
    }

    method SkipSlash(path: string, i: nat) returns (j: nat)
      requires i <= |path|
      ensures i <= j <= |path| && Comps(path[j..]) == Comps(path[i..])
      ensures i < |path| && path[i] == '/' ==> i < j
    {
      j := i;
      ghost var rest := path[i..];
      while j < |path| && path[j] == '/'
        invariant i <= j <= |path| && forall m :: 0 <= m < j - i ==> rest[m] == '/'
      {
        j := j + 1;
      }
      SkipSlashes(rest, j - i);
      assert rest[j - i..] == path[j..];
    }

    /** The component at i, and the position after the slashes that follow it. */
    method NextComp(path: string, i: nat) returns (comp: string, j: nat)
      requires i < |path|
      ensures i < j <= |path|
      ensures Comps(path[i..]) == if comp == "" then Comps(path[j..]) else [comp] + Comps(path[j..])
    {
      var n := CopyComp(path, i);
      comp := path[i .. i + n];
      assert comp == path[i..][..n] && path[i + n..] == path[i..][n..];
      assert n == 0 ==> path[i + n..] == path[i..];
      j := SkipSlash(path, i + n);
    }

    method ResolveFrom(base: nat, path: string) returns (r: Option<nat>)
      requires Valid() && base < INO_COUNT
      ensures r == Resolve(D(), base, path)
      ensures r.Some? ==> Live(D(), r.value) || r.value == base
    {
      hide Owners, EntriesOk, DotsOk, UniqueNames, NodesOk, DirOk, CompLen;
      var cur := if path != "" && path[0] == '/' then ROOT else base;
      var i := if path != "" && path[0] == '/' then 1 else 0;
      while i < |path|
        invariant 0 <= i <= |path| && (Live(D(), cur) || cur == base)
        invariant Walk(D(), cur, Comps(path[i..])) == Resolve(D(), base, path)
      {
        var comp, j := NextComp(path, i);
        i := j;
        if comp == "" || comp == "." { continue; }
        if ino[cur].kind != Dir { return None; }
        NodesDir(D(), cur);
        var k := DirFind(cur, comp);
        if k == None { return None; }
        LookupLive(D(), where, rank, cur, comp);
        cur := DirSlot(D(), cur, k.value).ino;
      }
      return Some(cur);
    }

    /** The position of the last slash, or -1. */
    method FindLastSlash(path: string) returns (last: int)
      ensures last == LastSlash(path)
    {
      last := -1;
      var p := 0;
      while p < |path|
        invariant 0 <= p <= |path| && -1 <= last < p
        invariant last >= 0 ==> path[last] == '/'
        invariant forall m :: last < m < p ==> path[m] != '/'
      {
        if path[p] == '/' { last := p; }
        p := p + 1;
      }
    }

    method SplitLast(base: nat, path: string) returns (r: Option<(nat, string)>)
      requires Valid() && base < INO_COUNT
      ensures r == Split(D(), base, path)
      ensures r.Some? ==> Live(D(), r.value.0) || r.value.0 == base
    {
      hide Owners, NodesOk, Tree, LastSlash, Resolve;
      if path == "" { return None; }
      RootLive(D(), where, rank);
      var last := FindLastSlash(path);
      if last >= 0 {
        var after := path[last + 1..];
        if after == "" { return None; }
        if last >= 95 { return None; }
        var parent := Some(ROOT);
        if last > 0 {
          parent := ResolveFrom(base, path[..last]);
          if parent == None { return None; }
        }
        if |after| > 31 { return None; }
        return Some((parent.value, after));
      }
      assert path[last + 1..] == path;
      if |path| > 31 { return None; }
      return Some((base, path));
    }

    // ---- creating ----

    /** Stores x in entry s of directory p. */
    method DirSlotWrite(p: nat, s: nat, x: DirEntry)
      requires IsDir(D(), p) && DirOk(dat, ino[p]) && s < Used(ino[p])
      modifies this`dat
      ensures s < 264 && ino[p].blocks[s / 12] < DATA_COUNT && old(dat)[ino[p].blocks[s / 12]].Entries?
      ensures D() == PutSlot(old(D()), p, s, x)
    {
      var n := ino[p];
      DirBlock(dat, n, s);
      var b := n.blocks[s / DE_PER_BLK];
      dat := dat[b := Entries(dat[b].slots[s % DE_PER_BLK := x])];
    }

    /** Adds an empty slot at the end of directory p, in a new block if the last one is full. */
    method DirGrow(p: nat) returns (ok: bool)
      requires Owners(D(), own) && NodesOk(D()) && IsDir(D(), p)
      modifies this`bm, this`ino, this`dat, this`own
      ensures !ok ==> D() == old(D()) && own == old(own)
      ensures Owners(D(), own) && NodesOk(D()) && OthersKept(old(own), p, old(dat), dat)
      ensures forall j {:trigger ino[j]} :: 0 <= j < INO_COUNT && j != p ==> ino[j] == old(ino)[j]
      ensures OthersOwned(old(own), own, p)
      ensures ok <==> CanGrow(old(D()), p, FreeCount(old(bm)))
      ensures ok ==> IsDir(D(), p) && Used(ino[p]) == Used(old(ino)[p]) + 1 && ino[p].blocks[0] == old(ino)[p].blocks[0]
      ensures ok ==> forall m {:trigger DirSlot(D(), p, m)} :: 0 <= m < Used(old(ino)[p]) ==>
        DirSlot(D(), p, m) == old(DirSlot(D(), p, m))
    {
      hide Owners, OthersKept, OthersOwned;
      OthersNone(own, p, dat);
      ghost var d := D();
      var n := ino[p];
      var blk := Used(n) / DE_PER_BLK;
      if blk >= MAX_BLOCKS { return false; }
      if n.blocks[blk] == NONE {
        var idx;
        ok, idx := BlockAlloc();
        if !ok { return; }
        GrowOk(d, own, p, idx);
        n := n.(blocks := n.blocks[blk := idx]);
        dat := dat[idx := Entries(EMPTY_SLOTS)];
        own := own[idx := Ref(p, Direct(blk))];
        ino := ino[p := n.(size := n.size + DE_SIZE)];
        assert D() == Widen(PutDirect(d, p, blk, idx, Entries(EMPTY_SLOTS)), p);
      } else {
        WidenOk(d, own, p);
        ino := ino[p := n.(size := n.size + DE_SIZE)];
        assert D() == Widen(d, p);
      }
      return true;
    }

    method DirAdd(p: nat, name: string, c: nat, kind: Kind) returns (ok: bool, ghost s: nat)
      requires Owners(D(), own) && NodesOk(D()) && p < INO_COUNT
      modifies this`bm, this`ino, this`dat, this`own
      ensures Owners(D(), own) && NodesOk(D())
      ensures !ok ==> D() == old(D()) && own == old(own)
      ensures ok <==> CanAdd(old(D()), p, FreeCount(old(bm)))
      ensures ok ==> AddedSlot(old(D()), D(), p, s, DirEntry(c, name, kind)) && OthersKept(old(own), p, old(dat), dat)
      ensures ok ==> ino[p].blocks[0] == old(ino)[p].blocks[0]
    {
      if ino[p].kind != Dir { return false, 0; }
      var k := FindHole(p);
      if k == Used(ino[p]) {
        ok := DirGrow(p);
        if !ok { return false, 0; }
      }
      ghost var d := D();
      DirBlock(dat, ino[p], k);
      PutSlotOk(d, own, p, k, DirEntry(c, name, kind));
      DirSlotWrite(p, k, DirEntry(c, name, kind));
      return true, k;
    }

    /** The lowest free inode. */
    method FreeInode() returns (r: Option<nat>)
      ensures r.Some? ==> r.value < INO_COUNT && ino[r.value].kind == Free
      ensures r.Some? ==> forall i :: 0 <= i < r.value ==> ino[i].kind != Free
      ensures r.None? ==> forall i :: 0 <= i < INO_COUNT ==> ino[i].kind != Free
    {
      var i := 0;
      while i < INO_COUNT
        invariant 0 <= i <= INO_COUNT && forall j :: 0 <= j < i ==> ino[j].kind != Free
      {
        if ino[i].kind == Free { return Some(i); }
        i := i + 1;
      }
      return None;
    }

    /** Writes the new inode, and for a directory its first block. */
    method MakeInode(c: nat, p: nat, name: string, isDir: bool) returns (ok: bool)
      requires Owners(D(), own) && NodesOk(D()) && c < INO_COUNT && ino[c].kind == Free
      modifies this`bm, this`ino, this`dat, this`own
      ensures !ok ==> D() == old(D()) && own == old(own)
      ensures ok ==> Made(old(D()), old(own), D(), own, c, p, if isDir then Dir else File)
      ensures if ok then FreeCount(old(bm)) == FreeCount(bm) + (if isDir then 1 else 0)
              else isDir && FreeCount(old(bm)) == 0
    {
      hide Owners;
      ghost var d := D();
      var n := Inode(name, if isDir then Dir else File, 0, NO_BLOCKS);
      if isDir {
        var idx;
        ok, idx := BlockAlloc();
        if !ok { return; }
        n := n.(blocks := n.blocks[0 := idx], size := 2 * DE_SIZE);
        MakeDir(d, own, c, p, n, idx);
        dat := dat[idx := Entries(DotSlots(c, p))];
        own := own[idx := Ref(c, Direct(0))];
      } else {
        MakeFile(d, own, c, p, n);
      }
      ino := ino[c := n];
      assert isDir || D() == d.(ino := d.ino[c := n]);
      return true;
    }

    /** Makes inode c and links it into p; undoes the inode when the entry cannot be added. When p is
        not in use, the entry can be added only if p is c itself, a directory by then. */
    method MakeAndLink(c: nat, p: nat, name: string, isDir: bool) returns (ok: bool, ghost s: nat)
      requires Owners(D(), own) && NodesOk(D()) && c < INO_COUNT && ino[c].kind == Free && p < INO_COUNT &&
        ino[ROOT].kind != Free
      modifies this`bm, this`ino, this`dat, this`own
      ensures Owners(D(), own) && NodesOk(D())
      ensures !ok ==> Unchanged(old(D()), D()) && own == old(own) && ino == old(ino)[c := ino[c]]
      ensures old(Live(D(), p)) ==> (ok <==> CanLink(old(D()), p, isDir))
      ensures old(Live(D(), p)) && ok ==> Created(old(D()), D(), c, p, s, name, if isDir then Dir else File)
      ensures old(Live(D(), p)) && ok ==> forall j {:trigger ino[j]} :: 0 <= j < INO_COUNT && j != c ==>
        ino[j].blocks[0] == old(ino)[j].blocks[0]
      ensures !old(Live(D(), p)) ==> (ok <==> p == c && isDir && FreeCount(old(bm)) > 0)
      ensures !old(Live(D(), p)) && ok ==> SelfNamed(D(), c)
    {
      hide Owners, NodesOk, CanAdd, Made, AddedSlot, Unchanged, Created;
      ghost var d, own0 := D(), own;
      var kind := if isDir then Dir else File;
      s := 0;
      UnchangedSelf(d);
      ok := MakeInode(c, p, name, isDir);
      if !ok { return; }
      ghost var d1, own1 := D(), own;
      MadeCell(d, own0, d1, own1, c, p, kind);
      MadeRoom(d, own0, d1, own1, c, p, kind, FreeCount(bm));
      ok, s := DirAdd(p, name, c, kind);
      if ok {
        if Live(d, p) {
          MadeAdded(d, own0, d1, own1, D(), c, p, s, name, kind);
          MadeAddedBlocks(d, own0, d1, own1, D(), c, p, s, name, kind);
        } else {
          MadeSelf(d, own0, d1, own1, D(), c, p, s, name, kind);
        }
      } else {
        var n := InodeFreeBlocks(ino[c]);
        Rollback(d, own0, d1, own1, bm, c, p, kind);
        ino := ino[c := ZERO_INODE];
        own := own0;
        assert D() == Disk(bm, d1.ino[c := ZERO_INODE], d1.dat);
      }
    }

    /** Records the place of the new inode c. */
    ghost method Relink(d: Disk, c: nat, p: nat, s: nat, name: string, kind: Kind, base: nat, path: string)
      requires Tree(d, where, rank) && Created(d, D(), c, p, s, name, kind)
      requires Split(d, base, path) == Some((p, name)) && Resolve(d, base, path) == None
      modifies this`where, this`rank
      ensures Tree(D(), where, rank) && Resolve(D(), base, path) == Some(c) && KeepsPaths(d, D())
    {
      hide Named, EntriesOk, DotsOk, UniqueNames, KeepsPaths;
      CreatedPaths(d, D(), where, rank, base, path, c, p, s, name, kind);
      where, rank := where[c := Place(p, s)], rank[c := rank[p] + 1];
    }

    /** The end of create_inode: the path splits into p and name, and does not resolve. */
    method CreateAt(c: nat, p: nat, name: string, isDir: bool, ghost base: nat, ghost path: string)
      returns (ok: bool, ghost s: nat)
      requires Valid() && p < INO_COUNT && c < INO_COUNT && ino[c].kind == Free
      requires Split(D(), base, path) == Some((p, name)) && Resolve(D(), base, path) == None
      modifies this
      ensures Valid() <==> old(Live(D(), p)) || !ok
      ensures !ok ==> Unchanged(old(D()), D())
      ensures old(Live(D(), p)) ==> (ok <==> CanLink(old(D()), p, isDir))
      ensures old(Live(D(), p)) && ok ==> Created(old(D()), D(), c, p, s, name, if isDir then Dir else File)
      ensures old(Live(D(), p)) && ok ==> Resolve(D(), base, path) == Some(c) && KeepsPaths(old(D()), D())
      ensures !old(Live(D(), p)) ==> (ok <==> p == c && isDir && FreeCount(old(bm)) > 0)
      ensures !old(Live(D(), p)) && ok ==> SelfNamed(D(), c)
    {
      hide Owners, NodesOk, Named, EntriesOk, DotsOk, UniqueNames, Created, KeepsPaths, CanLink, Unchanged, SelfNamed;
      ghost var d := D();
      RootLive(d, where, rank);
      ok, s := MakeAndLink(c, p, name, isDir);
      if !ok {
        UnchangedDirs(d, D());
        SameDirsTree(d, D(), where, rank);
      } else if Live(d, p) {
        Relink(d, c, p, s, name, if isDir then Dir else File, base, path);
      } else {
        SelfNamedNoTree(D(), c, where, rank);
      }
    }

    /** create_file and mkdir. A base inode that is not in use can be the one mkdir picks; then the
        new directory names itself, and that is the only way the disk can become unsound. */
    method CreateInode(base: nat, path: string, isDir: bool) returns (ok: bool, ghost c: nat, ghost s: nat)
      requires Valid() && base < INO_COUNT
      modifies this
      ensures ok <==> old(Creatable(D(), base, path, isDir)) || old(MakesOwnParent(D(), base, path, isDir))
      ensures Valid() <==> !old(MakesOwnParent(D(), base, path, isDir))
      ensures !ok ==> Unchanged(old(D()), D())
      ensures old(Creatable(D(), base, path, isDir)) ==>
        Resolve(D(), base, path) == Some(c) && KeepsPaths(old(D()), D())
      ensures old(Creatable(D(), base, path, isDir)) ==> old(Split(D(), base, path)).Some?
      ensures old(Creatable(D(), base, path, isDir)) ==>
        Created(old(D()), D(), c, old(Split(D(), base, path)).value.0, s,
                old(Split(D(), base, path)).value.1, if isDir then Dir else File)
      ensures ok ==> LowestFree(old(D()), c)
      ensures old(MakesOwnParent(D(), base, path, isDir)) ==> c < INO_COUNT && SelfNamed(D(), c)
    {
      hide Owners, NodesOk, Tree, Created, KeepsPaths, CanLink, Unchanged, SelfNamed;
      c, s := 0, 0;
      UnchangedSelf(D());
      var sp := SplitLast(base, path);
      if sp == None { return false, 0, 0; }
      var existing := ResolveFrom(base, path);
      if existing.Some? { return false, 0, 0; }
      var free := FreeInode();
      if free == None { return false, 0, 0; }
      c := free.value;
      ok, s := CreateAt(free.value, sp.value.0, sp.value.1, isDir, base, path);
    }

    // ---- reading and writing by path ----

    /** write_file. The disk mid is the one after the file was created, when it had to be. */
    method WriteFile(base: nat, path: string, data: seq<byte>) returns (ok: bool, ghost mid: Disk)
      requires Valid() && base < INO_COUNT
      modifies this
      ensures Valid()
      ensures old(Resolve(D(), base, path)).Some? ==> mid == old(D())
      ensures old(Resolve(D(), base, path)).None? && old(Creatable(D(), base, path, false)) ==>
        CreatedFile(old(D()), mid, base, path)
      ensures old(Resolve(D(), base, path)).Some? || old(Creatable(D(), base, path, false)) ==>
        Resolve(mid, base, path).Some? && Wrote(mid, D(), Resolve(mid, base, path).value, data, ok)
      ensures old(Resolve(D(), base, path)).None? && !old(Creatable(D(), base, path, false)) ==>
        !ok && Unchanged(old(D()), D())
      ensures ok ==> Resolve(D(), base, path) == Resolve(mid, base, path) && PathView(D(), base, path) == FileView(data)
    {
      hide Tree, Owners, NodesOk, Creatable;
      mid := D();
      var r := ResolveFrom(base, path);
      if r == None {
        ghost var c, s;
        ok, c, s := CreateInode(base, path, false);
        if !ok { return; }
        mid := D();
        r := ResolveFrom(base, path);
        if r == None { return false, mid; }
      }
      ok := WriteInode(r.value, data);
      if ok { OnlyFileResolve(mid, D(), r.value, base, path); }
    }

    /** Copies the first len bytes of file n, sector by sector. */
    method ReadBlocks(n: Inode, len: nat) returns (ok: bool, buf: seq<byte>)
      requires FileOk(dat, n) && len <= n.size
      ensures ok && buf == Content(dat, n)[..len]
    {
      hide Content, FileOk, BlockOf, RawBlock;
      buf := [];
      var blocks := (len + 511) / 512;
      var i := 0;
      while i < blocks
        invariant 0 <= i <= blocks
        invariant buf == Content(dat, n)[..if i * 512 < len then i * 512 else len]
      {
        var chunk := if i == (len - 1) / 512 then len - i * 512 else 512;
        ReadChunk(dat, n, i, len);
        var lba := InodeBlockAt(n, i);
        if lba == None { return false, buf; }
        buf := buf + dat[lba.value].bytes[..chunk];
        i := i + 1;
      }
      return true, buf;
    }

    method ReadFile(base: nat, path: string, maxlen: nat) returns (r: Option<seq<byte>>)
      requires Valid() && base < INO_COUNT
      ensures r == match PathView(D(), base, path)
        case FileView(bytes) => Some(bytes[..if |bytes| < maxlen then |bytes| else maxlen])
        case _ => None
    {
      var f := ResolveFrom(base, path);
      if f == None { return None; }
      var n := ino[f.value];
      if n.kind != File { return None; }
      var toRead := if n.size < maxlen then n.size else maxlen;
      assert NodeOk(dat, n);
      var ok, buf := ReadBlocks(n, toRead);
      if !ok { return None; }
      return Some(buf);
    }

    /** The copy loop of append_file: the whole current contents. */
    method LoadFile(f: nat) returns (ok: bool, tmp: seq<byte>)
      requires NodesOk(D()) && f < INO_COUNT && ino[f].kind == File
      ensures ok && ViewAt(D(), f) == FileView(tmp) && |tmp| == ino[f].size
    {
      var n := ino[f];
      assert NodeOk(dat, n);
      ok, tmp := ReadBlocks(n, n.size);
      assert tmp == Content(dat, n);
    }

    /** append_file: reads the file back and rewrites it with the new bytes at the end. */
    method AppendFile(base: nat, path: string, data: seq<byte>) returns (ok: bool)
      requires Valid() && base < INO_COUNT && !AppendWraps(D(), base, path, |data|)
      modifies this
      ensures Valid()
      ensures old(Resolve(D(), base, path)).Some? ==>
        Appended(old(D()), D(), old(Resolve(D(), base, path)).value, data, ok)
      ensures old(Resolve(D(), base, path)).None? ==> WroteNew(old(D()), D(), base, path, data, ok)
      ensures old(Resolve(D(), base, path)).None? && ok ==> PathView(D(), base, path) == FileView(data)
    {
      hide Tree, Owners, NodesOk;
      ghost var d := D();
      var r := ResolveFrom(base, path);
      if r == None {
        ghost var mid;
        ok, mid := WriteFile(base, path, data);
        return;
      }
      if ino[r.value].kind != File { return false; }
      if (ino[r.value].size + |data|) % 0x1_0000_0000 > MAX_FILE { return false; }
      var tmp;
      ok, tmp := LoadFile(r.value);
      if !ok { return; }
      ghost var mid;
      ok, mid := WriteFile(base, path, tmp + data);
    }

    // ---- removing ----

    /** What remove_inode_by_ino needs: d is the disk before the removal started, gone is what has
        been freed since. */
    ghost predicate Removing(d: Disk, gone: set<nat>, x: nat)
      reads this
    {
      && NodesOk(d) && Tree(d, where, rank) && Partial(d, D(), gone)
      && Live(d, x) && Sub(where, rank, x) !! gone
    }

    /** Frees the children of directory x, in slot order. */
    method RemoveChildren(x: nat, ghost d: Disk, ghost gone: set<nat>, ghost top: nat)
      requires Removing(d, gone, x) && IsDir(d, x)
      requires forall y :: 0 <= y < INO_COUNT ==> rank[y] <= top
      modifies this`bm, this`ino
      ensures Partial(d, D(), gone + SubUpTo(where, rank, x, Used(d.ino[x])))
      decreases top - rank[x], 0
    {
      hide NodesOk, EntriesOk, DotsOk, UniqueNames, Partial, DirOk;
      var child := ino[x];
      PartialNode(d, where, rank, D(), gone, x);
      var nc := Used(child);
      var i := 0;
      SubNone(where, rank, x);
      assert gone + SubUpTo(where, rank, x, 0) == gone;
      while i < nc
        invariant 0 <= i <= nc && Partial(d, D(), gone + SubUpTo(where, rank, x, i))
      {
        var e := DirSlotRead(child, i);
        if e == None { break; }
        assert e.value == DirSlot(d, x, i);
        SubSlot(d, where, rank, x, i);
        if e.value.ino != 0 && e.value.name != "." && e.value.name != ".." {
          RemoveChild(x, i, e.value.ino, d, gone, top);
        }
        i := i + 1;
      }
    }

    /** Frees the child c named by slot i of x, after the earlier children. */
    method RemoveChild(x: nat, ghost i: nat, c: nat, ghost d: Disk, ghost gone: set<nat>, ghost top: nat)
      requires NodesOk(d) && Tree(d, where, rank)
      requires IsDir(d, x) && c in where && where[c] == Place(x, i)
      requires Partial(d, D(), gone + SubUpTo(where, rank, x, i)) && Sub(where, rank, x) !! gone
      requires forall y :: 0 <= y < INO_COUNT ==> rank[y] <= top
      modifies this`bm, this`ino
      ensures Partial(d, D(), gone + SubUpTo(where, rank, x, i + 1))
      decreases top - rank[c], 2
    {
      hide NodesOk, EntriesOk, DotsOk, UniqueNames, Partial;
      SubNext(d, where, rank, x, i, c);
      ghost var gone1 := gone + SubUpTo(where, rank, x, i);
      RemoveByIno(c, d, gone1, top);
      assert gone1 + Sub(where, rank, c) == gone + SubUpTo(where, rank, x, i + 1);
    }

    /** Clears the blocks of one inode and zeroes it. */
    method FreeOne(x: nat, ghost d: Disk, ghost gone: set<nat>)
      requires Partial(d, D(), gone) && x < INO_COUNT && x !in gone
      modifies this`bm, this`ino
      ensures Partial(d, D(), gone + {x})
    {
      hide Frees, FreedBy;
      ghost var e := D();
      assert ino[x] == d.ino[x];
      var out := InodeFreeBlocks(ino[x]);
      PartialStep(d, e, gone, x, bm);
      ino := ino[x := ZERO_INODE];
      assert D() == Disk(bm, e.ino[x := ZERO_INODE], e.dat);
    }

    /** remove_inode_by_ino: the subtree first, then the inode itself. */
    method RemoveByIno(x: nat, ghost d: Disk, ghost gone: set<nat>, ghost top: nat)
      requires Removing(d, gone, x)
      requires forall y :: 0 <= y < INO_COUNT ==> rank[y] <= top
      modifies this`bm, this`ino
      ensures Partial(d, D(), gone + Sub(where, rank, x))
      decreases top - rank[x], 1
    {
      hide NodesOk, Named, EntriesOk, DotsOk, UniqueNames, FreedBy;
      SubDone(d, where, rank, x);
      SubNone(where, rank, x);
      ghost var gone1 := gone + SubUpTo(where, rank, x, ChildSlots(d, x));
      if ino[x].kind == Dir { RemoveChildren(x, d, gone, top); }
      assert Partial(d, D(), gone1) by { assert gone + {} == gone; }
      FreeOne(x, d, gone1);
      assert gone1 + {x} == gone + Sub(where, rank, x);
    }

    /** Forgets the places of a removed subtree. */
    ghost method Forget(d: Disk, c: nat)
      requires Tree(d, where, rank) && c in where && Unlinked(d, D(), where, rank, c)
      modifies this`where
      ensures Tree(D(), where, rank)
    {
      UnlinkTree(d, D(), where, rank, c);
      where := Kept(where, rank, c);
    }

    /** dir_remove, once the subtree of c has been freed. */
    method DirRemove(p: nat, name: string, ghost d: Disk, ghost c: nat)
      requires Owners(d, own) && NodesOk(d) && Tree(d, where, rank)
      requires c in where && where[c].dir == p && Partial(d, D(), Sub(where, rank, c))
      requires p !in Sub(where, rank, c) && Lookup(d, p, name, 0) == Some(where[c].slot)
      modifies this`dat, this`own
      ensures own == OwnKept(old(own), Sub(where, rank, c))
      ensures Owners(Mended(D(), own), own) && NodesOk(D()) && Removed(d, D(), where, rank, c)
    {
      hide EntriesOk, DotsOk, UniqueNames, Removed, Partial, Owners;
      ghost var gone := Sub(where, rank, c);
      ghost var d1, own0 := D(), own;
      own := OwnKept(own, gone);
      ghost var m := Mended(d1, own);
      PartialOwners(d, own0, d1, gone);
      PartialLookup(d, d1, gone, p, name);
      var k := DirFind(p, name);
      if k == None { return; }
      DirBlock(dat, ino[p], k.value);
      PutSlotOk(m, own, p, k.value, EMPTY_ENTRY);
      DirSlotWrite(p, k.value, EMPTY_ENTRY);
      assert Mended(D(), own) == PutSlot(m, p, k.value, EMPTY_ENTRY);
      MendedSlots(D(), own, p);
      MendedSlots(d1, own, p);
      PartialRemoved(d, own0, d1, D(), where, rank, c);
    }

    /** Frees the subtree of c, named by slot k of p, and clears the entry. The disk stays sound
        exactly when no directory of the subtree had more than 240 slots. */
    method RemoveSubtree(p: nat, name: string, c: nat)
      requires Valid() && IsDir(D(), p) && c in where && where[c].dir == p && p !in Sub(where, rank, c)
      requires Lookup(D(), p, name, 0) == Some(where[c].slot)
      modifies this
      ensures NodesOk(D()) && Tree(D(), where, rank)
      ensures Removed(old(D()), D(), old(where), old(rank), c)
      ensures Valid() <==> SubtreeSmall(old(D()), old(where), old(rank), c)
      ensures bm[0] <==> SubtreeSmall(old(D()), old(where), old(rank), c)
      ensures if Valid() then Reclaimed(D(), old(where), old(rank), old(own), c) else !BitmapExact(D())
    {
      hide Owners, NodesOk, EntriesOk, DotsOk, UniqueNames, Partial, Removed, Reclaimed, AllSmall;
      ghost var d, w, rk, own0 := D(), where, rank, own;
      ghost var gone := Sub(where, rank, c);
      PartialStart(d);
      RemoveByIno(c, d, {}, Highest(rank));
      assert {} + gone == gone;
      ghost var d1 := D();
      SubtreeZero(d, w, rk, own0, d1, c);
      DirRemove(p, name, d, c);
      if AllSmall(d, gone) {
        PartialMended(d, own0, d1, gone);
        MendedReclaimed(D(), w, rk, d, own0, c);
        assert Mended(D(), own) == D();
      } else {
        ZeroLost(D(), own);
      }
      RemovedUnlinked(d, D(), w, rk, c);
      Forget(d, c);
    }

    /** remove_inode_recursive. */
    method RemoveEntry(p: nat, name: string, recursive: bool) returns (ok: bool)
      requires Valid() && p < INO_COUNT && name != "." && name != ".."
      modifies this
      ensures ok <==> old(Removable(D(), p, name, recursive))
      ensures !ok ==> D() == old(D()) && Valid()
      ensures ok ==> old(Target(D(), p, name)) in old(where)
      ensures ok ==> RemovedTarget(old(D()), D(), old(where), old(rank), old(own), old(Target(D(), p, name)))
      ensures ok ==> NodesOk(D()) && Tree(D(), where, rank)
      ensures ok ==> (Valid() <==> SubtreeSmall(old(D()), old(where), old(rank), old(Target(D(), p, name))))
    {
      hide Owners, NodesOk, EntriesOk, DotsOk, UniqueNames, Removed, Reclaimed;
      if ino[p].kind != Dir { return false; }
      NodesDir(D(), p);
      var k := DirFind(p, name);
      if k == None { return false; }
      var e := DirSlotRead(ino[p], k.value);
      if e == None { return false; }
      if e.value.kind == Dir && !recursive { return false; }
      FoundPlace(D(), where, rank, p, name, k.value);
      RemoveSubtree(p, name, e.value.ino);
      return true;
    }

    /** remove_file. It succeeds exactly when the path splits into a parent and a name other than "." and
        "..", leads somewhere, and leads to a directory only if the call is recursive. Without the
        recursive flag no directory is lost. */
    method RemoveFile(base: nat, path: string, recursive: bool) returns (ok: bool)
      requires Valid() && base < INO_COUNT
      modifies this
      ensures ok <==> old(PathRemovable(D(), base, path, recursive))
      ensures !recursive ==> forall i {:trigger IsDir(D(), i)} :: old(IsDir(D(), i)) ==> IsDir(D(), i)
      ensures old(Split(D(), base, path)).Some? && old(PathView(D(), base, path)).FileView? ==>
        ok || old(Split(D(), base, path)).value.1 == "."
      ensures !ok ==> D() == old(D()) && Valid()
      ensures ok ==> old(Resolve(D(), base, path)).Some? && old(Resolve(D(), base, path)).value in old(where)
      ensures ok ==> RemovedTarget(old(D()), D(), old(where), old(rank), old(own), old(Resolve(D(), base, path)).value)
      ensures ok ==> NodesOk(D()) && Tree(D(), where, rank)
      ensures ok ==> (Valid() <==> SubtreeSmall(old(D()), old(where), old(rank), old(Resolve(D(), base, path)).value))
      ensures ok ==> Resolve(D(), base, path) == None
      ensures ok ==> WalksLeft(old(D()), D(), old(where), old(rank), old(Resolve(D(), base, path)).value)
    {
      hide Owners, NodesOk, Named, EntriesOk, DotsOk, UniqueNames, SubtreeSmall, RemovedTarget, Resolve, WalksLeft;
      ghost var d := D();
      var sp := SplitLast(base, path);
      if sp == None { return false; }
      var name := sp.value.1;
      ghost var w, rk, own0 := where, rank, own;
      if name != "." && PathView(d, base, path).FileView? { FileRemovable(d, w, rk, base, path, recursive); }
      if name == "." || name == ".." { return false; }
      RemovableMeans(d, w, rk, base, path, recursive);
      ok := RemoveEntry(sp.value.0, name, recursive);
      if ok {
        SplitTarget(d, base, path);
        RemovedPath(d, D(), w, rk, own0, base, path);
        if !recursive { DirsStay(d, D(), w, rk, own0, Resolve(d, base, path).value); }
      }
    }
  }

  lemma FileRemovable(d: Disk, w: Places, rk: Ranks, base: nat, path: string, recursive: bool)
    requires Tree(d, w, rk) && Split(d, base, path).Some? && Split(d, base, path).value.1 != "."
    requires PathView(d, base, path).FileView?
    ensures PathRemovable(d, base, path, recursive)
  {
    hide Named, EntriesOk, UniqueNames, Comps, Split;
    var p, name := Split(d, base, path).value.0, Split(d, base, path).value.1;
    SplitAgrees(d, base, path);
    if name == ".." {
      assert [name][1..] == [];
      WalkDir(d, p, name);
      WalkUp(d, w, rk, p);
      ParentDir(d, w, rk, p);
    }
    RemovableMeans(d, w, rk, base, path, recursive);
  }

  lemma WalkDir(d: Disk, x: nat, c: string)
    requires c != "." && Walk(d, x, [c]).Some?
    ensures IsDir(d, x)
  {}

  lemma ParentDir(d: Disk, w: Places, rk: Ranks, p: nat)
    requires Tree(d, w, rk) && IsDir(d, p)
    ensures IsDir(d, ParentOf(w, p))
  {}

  /** What may be removed, without the directory entry: an inode other than the root that the path leads
      to, and a directory only recursively. */
  lemma RemovableMeans(d: Disk, w: Places, rk: Ranks, base: nat, path: string, recursive: bool)
    requires Tree(d, w, rk) && Split(d, base, path).Some?
    requires Split(d, base, path).value.1 != "." && Split(d, base, path).value.1 != ".."
    ensures PathRemovable(d, base, path, recursive) <==>
      Resolve(d, base, path).Some? && (recursive || !IsDir(d, Resolve(d, base, path).value))
  {
    hide Comps, Split;
    var p, name := Split(d, base, path).value.0, Split(d, base, path).value.1;
    SplitAgrees(d, base, path);
    assert [name][1..] == [];
    if IsDir(d, p) {
      var r := Lookup(d, p, name, 0);
      if r.Some? { FoundPlace(d, w, rk, p, name, r.value); }
    }
  }

  lemma {:induction false} FileAlone(d: Disk, w: Places, rk: Ranks, c: nat, x: nat)
    requires Tree(d, w, rk) && !IsDir(d, c) && Under(w, rk, c, x)
    ensures x == c
    decreases if x < INO_COUNT then rk[x] else 0
  {
    if x != c { FileAlone(d, w, rk, c, w[x].dir); }
  }

  /** Removing a file leaves every directory. */
  lemma DirsStay(d: Disk, e: Disk, w: Places, rk: Ranks, own: Own, c: nat)
    requires Tree(d, w, rk) && c in w && !IsDir(d, c) && RemovedTarget(d, e, w, rk, own, c)
    ensures forall i {:trigger IsDir(e, i)} :: IsDir(d, i) ==> IsDir(e, i)
  {
    hide Named, EntriesOk, DotsOk, UniqueNames, Under, SubtreeSmall, Reclaimed;
    RemovedUnlinked(d, e, w, rk, c);
    forall i | IsDir(d, i) ensures IsDir(e, i) {
      if Under(w, rk, c, i) { FileAlone(d, w, rk, c, i); }
      assert e.ino[i] == d.ino[i];
    }
  }

  /** No directory in the subtree of c has more than 240 slots. */
  ghost predicate SubtreeSmall(d: Disk, w: Places, rk: Ranks, c: nat)
    requires Ranked(w, rk)
  {
    forall y :: y in Sub(w, rk, c) && IsDir(d, y) ==> Used(d.ino[y]) <= 240
  }

  /** The subtree of c is gone and nothing else changed; bit 0 is still set exactly when the subtree
      was small, and then exactly its blocks are free. */
  ghost predicate RemovedTarget(d: Disk, e: Disk, w: Places, rk: Ranks, own: Own, c: nat)
    requires Ranked(w, rk) && c in w
  {
    && Removed(d, e, w, rk, c) && (e.bm[0] <==> SubtreeSmall(d, w, rk, c))
    && (if SubtreeSmall(d, w, rk, c) then Reclaimed(e, w, rk, own, c) else !BitmapExact(e))
  }

  /** The removed path, and every walk, after the removal. */
  lemma RemovedPath(d: Disk, e: Disk, w: Places, rk: Ranks, own: Own, base: nat, path: string)
    requires Tree(d, w, rk) && Split(d, base, path).Some? && Split(d, base, path).value.1 != "."
    requires Resolve(d, base, path).Some? && Resolve(d, base, path).value in w
    requires RemovedTarget(d, e, w, rk, own, Resolve(d, base, path).value)
    ensures Resolve(e, base, path) == None
    ensures WalksLeft(d, e, w, rk, Resolve(d, base, path).value)
  {
    hide Named, EntriesOk, DotsOk, UniqueNames, Comps, WalksLeft, Unlinked, Walk;
    var c := Resolve(d, base, path).value;
    UnlinkedWalks(d, e, w, rk, c);
    var i := LastComp(path);
    RemovedGone(d, e, w, rk, c, Start(base, path), Comps(path), i);
  }

  /** The name split_last finds is the last component. */
  lemma LastComp(path: string) returns (i: nat)
    requires path != "" && 0 < |path[LastSlash(path) + 1..]| <= 31 && path[LastSlash(path) + 1..] != "."
    ensures i < |Comps(path)| && Comps(path)[i] != "."
  {
    var k := LastSlash(path);
    var name := path[k + 1..];
    assert '/' !in name;
    if k < 0 {
      assert name == path;
      CompsName(name);
      i := 0;
    } else {
      CompsSplit(path, k);
      i := |Comps(path[..k])|;
    }
  }

  lemma SubLive(d: Disk, w: Places, rk: Ranks, c: nat)
    requires Tree(d, w, rk) && c in w
    ensures ROOT !in Sub(w, rk, c) && forall y :: y in Sub(w, rk, c) ==> Live(d, y)
  {
    assert forall y :: y in Sub(w, rk, c) ==> y in w;
  }

  lemma SubtreeZero(d: Disk, w: Places, rk: Ranks, own: Own, e: Disk, c: nat)
    requires Owners(d, own) && NodesOk(d) && Tree(d, w, rk) && c in w && d.ino[ROOT].blocks[0] == 0
    requires Partial(d, e, Sub(w, rk, c))
    ensures e.bm[0] <==> AllSmall(d, Sub(w, rk, c))
    ensures AllSmall(d, Sub(w, rk, c)) <==> SubtreeSmall(d, w, rk, c)
    ensures e.ino[ROOT] == d.ino[ROOT]
  {
    hide Owners, NodesOk, EntriesOk, DotsOk, UniqueNames, AllSmall;
    SubLive(d, w, rk, c);
    ZeroKept(d, own, e, Sub(w, rk, c));
  }

  /** A disk whose root has lost its block is not exact under any owner map. */
  lemma ZeroLost(e: Disk, own: Own)
    requires IsDir(e, ROOT) && e.ino[ROOT].blocks[0] == 0 && !e.bm[0]
    ensures !BitmapExact(e) && !Owners(e, own)
  {
    assert Ptr(e, ROOT, Direct(0)) == 0;
  }

  lemma RemovedUnlinked(d: Disk, e: Disk, w: Places, rk: Ranks, c: nat)
    requires Ranked(w, rk) && c in w && Removed(d, e, w, rk, c)
    ensures Unlinked(d, e, w, rk, c)
  {}

  lemma MendedSlots(e: Disk, own: Own, p: nat)
    requires p < INO_COUNT
    ensures forall m {:trigger DirSlot(e, p, m)} {:trigger DirSlot(Mended(e, own), p, m)} :: 0 <= m ==>
      DirSlot(e, p, m) == DirSlot(Mended(e, own), p, m)
  {}

  lemma RootLive(d: Disk, w: Places, rk: Ranks)
    requires Tree(d, w, rk)
    ensures Live(d, ROOT) && IsDir(d, ROOT)
  {}

  lemma NodesDir(d: Disk, p: nat)
    requires NodesOk(d) && IsDir(d, p)
    ensures DirOk(d.dat, d.ino[p])
  {}

  /** inode_block_at as it reads the sectors, whatever they hold. */
  function RawBlock(dat: DataArea, n: Inode, bi: nat): Option<nat> {
    if bi < 20 then (if n.blocks[bi] == NONE then None else Some(n.blocks[bi]))
    else if bi >= 276 || n.blocks[20 + (bi - 20) / 128] >= DATA_COUNT then None
    else
      var b := Words(dat[n.blocks[20 + (bi - 20) / 128]])[(bi - 20) % 128];
      if b >= DATA_COUNT then None else Some(b)
  }

  /** remove_file accepts the path: it splits, and the entry may be removed. */
  predicate PathRemovable(d: Disk, base: nat, path: string, recursive: bool) {
    && Split(d, base, path).Some?
    && Split(d, base, path).value.1 != "." && Split(d, base, path).value.1 != ".."
    && Removable(d, Split(d, base, path).value.0, Split(d, base, path).value.1, recursive)
  }

  lemma SplitTarget(d: Disk, base: nat, path: string)
    requires Split(d, base, path).Some? && Split(d, base, path).value.1 != "."
    requires Removable(d, Split(d, base, path).value.0, Split(d, base, path).value.1, true)
    ensures Resolve(d, base, path) == Some(Target(d, Split(d, base, path).value.0, Split(d, base, path).value.1))
  {
    SplitAgrees(d, base, path);
    assert [Split(d, base, path).value.1][1..] == [];
  }

  function RootInode(): Inode { Inode("/", Dir, 2 * DE_SIZE, NO_BLOCKS[0 := 0]) }

  lemma FormatOk(d: Disk, rk: Ranks)
    requires forall b :: 0 <= b < DATA_COUNT ==> d.bm[b] == (b == 0)
    requires d.ino[ROOT] == RootInode() && forall i :: 0 < i < INO_COUNT ==> d.ino[i] == ZERO_INODE
    requires d.dat[0] == Entries(DotSlots(ROOT, ROOT))
    ensures Owners(d, map[0 := Ref(ROOT, Direct(0))]) && NodesOk(d) && Tree(d, map[], rk)
    ensures forall i :: 0 <= i < INO_COUNT ==>
      ViewAt(d, i) == if i == ROOT then FreshView(ROOT, ROOT, Dir) else NoNode
  {
    var n := d.ino[ROOT];
    assert SlotOf(d.dat, n, 0) == DirEntry(ROOT, ".", Dir) && SlotOf(d.dat, n, 1) == DirEntry(ROOT, "..", Dir);
    assert DirOk(d.dat, n);
    assert ViewAt(d, ROOT).entries == [DirEntry(ROOT, ".", Dir), DirEntry(ROOT, "..", Dir)];
    forall i, s | 0 <= i < INO_COUNT ensures Ptr(d, i, s) == if i == ROOT && s == Direct(0) then 0 else NONE {}
  }

  /** The inode the entry leads to. */
  function Target(d: Disk, p: nat, name: string): nat {
    if IsDir(d, p) && Lookup(d, p, name, 0).Some? then DirSlot(d, p, Lookup(d, p, name, 0).value).ino else 0
  }

  /** The entry exists, and is not a directory unless the removal is recursive. */
  predicate Removable(d: Disk, p: nat, name: string, recursive: bool) {
    && IsDir(d, p) && Lookup(d, p, name, 0).Some?
    && (recursive || DirSlot(d, p, Lookup(d, p, name, 0).value).kind != Dir)
  }

  /** The blocks of file f and the free blocks together can hold len bytes. */
  ghost predicate Fits(d: Disk, f: nat, len: nat)
    requires f < INO_COUNT
  {
    FreeCount(d.bm) + BlocksFor(d.ino[f].size) >= BlocksFor(len)
  }

  /** The outcome of writing data to inode f: it succeeds exactly when the data fits, and
      otherwise leaves the file empty. */
  ghost predicate Wrote(d: Disk, e: Disk, f: nat, data: seq<byte>, ok: bool) {
    && f < INO_COUNT
    && if d.ino[f].kind == File && |data| <= MAX_FILE
       then
         && OnlyFile(d, e, f) && ViewAt(e, f) == FileView(if ok then data else [])
         && (ok <==> Fits(d, f, |data|))
       else !ok && e == d
  }

  /** The outcome of writing data to a path that did not resolve: nothing if the file cannot be
      made, else the file is made first and then written. */
  ghost predicate WroteNew(d: Disk, e: Disk, base: nat, path: string, data: seq<byte>, ok: bool) {
    if Creatable(d, base, path, false)
    then exists mid :: CreatedFile(d, mid, base, path) && Wrote(mid, e, Resolve(mid, base, path).value, data, ok)
    else !ok && Unchanged(d, e)
  }

  /** The 32-bit sum of append_file's size check wraps around. */
  predicate AppendWraps(d: Disk, base: nat, path: string, len: nat) {
    len >= 0x1_0000_0000 || match Resolve(d, base, path)
      case None => false
      case Some(f) => f < INO_COUNT && d.ino[f].kind == File && d.ino[f].size + len >= 0x1_0000_0000
  }

  /** The outcome of appending data to inode f. */
  ghost predicate Appended(d: Disk, e: Disk, f: nat, data: seq<byte>, ok: bool) {
    match ViewAt(d, f)
    case FileView(bytes) =>
      if |bytes| + |data| <= MAX_FILE then Wrote(d, e, f, bytes + data, ok) else !ok && e == d
    case _ => !ok && e == d
  }

  /** The path was made as an empty file, and every older path still resolves. */
  ghost predicate CreatedFile(d: Disk, e: Disk, base: nat, path: string) {
    && Split(d, base, path).Some? && Resolve(e, base, path).Some? && KeepsPaths(d, e)
    && exists s :: Created(d, e, Resolve(e, base, path).value, Split(d, base, path).value.0, s,
                           Split(d, base, path).value.1, File)
  }

  lemma OnlyFileResolve(d: Disk, e: Disk, f: nat, base: nat, path: string)
    requires OnlyFile(d, e, f)
    ensures Resolve(e, base, path) == Resolve(d, base, path)
  {
    OnlyFileDirs(d, e, f);
    SameDirsWalk(d, e, Start(base, path), Comps(path));
  }

  /** Nothing but the contents of file f differs. */
  ghost predicate OnlyFile(d: Disk, e: Disk, f: nat) {
    && f < INO_COUNT && d.ino[f].kind == e.ino[f].kind == File
    && (forall j {:trigger d.ino[j]} {:trigger e.ino[j]} ::
          0 <= j < INO_COUNT && j != f ==> e.ino[j] == d.ino[j] && ViewAt(e, j) == ViewAt(d, j))
  }

  lemma RewriteViews(d: Disk, d1: Disk, own1: Own, e: Disk, f: nat)
    requires f < INO_COUNT && NodesOk(d) && d.ino[f].kind == e.ino[f].kind == File
    requires d1.dat == d.dat && Owners(d1, own1) && OthersKept(own1, f, d.dat, e.dat)
    requires forall j {:trigger d.ino[j]} {:trigger e.ino[j]} {:trigger d1.ino[j]} ::
      0 <= j < INO_COUNT && j != f ==> e.ino[j] == d.ino[j] == d1.ino[j]
    requires NodeOk(e.dat, e.ino[f])
    ensures NodesOk(e) && OnlyFile(d, e, f)
  {
    OthersView(d1, own1, f, e);
    forall j | 0 <= j < INO_COUNT && j != f ensures ViewAt(e, j) == ViewAt(d, j) {
      assert e.ino[j] == d1.ino[j];
    }
  }

  lemma OnlyFileDirs(d: Disk, e: Disk, f: nat)
    requires OnlyFile(d, e, f)
    ensures SameDirs(d, e)
  {
    forall p, k | IsDir(d, p) && 0 <= k < Used(d.ino[p]) ensures DirSlot(e, p, k) == DirSlot(d, p, k) {
      assert e.ino[p] == d.ino[p];
      assert ViewAt(e, p).entries[k] == DirSlot(e, p, k);
      assert ViewAt(d, p).entries[k] == DirSlot(d, p, k);
    }
  }

  lemma OnlyFileTree(d: Disk, e: Disk, f: nat, w: Places, rk: Ranks)
    requires OnlyFile(d, e, f) && Tree(d, w, rk)
    ensures Tree(e, w, rk)
  {
    OnlyFileDirs(d, e, f);
    SameDirsTree(d, e, w, rk);
  }
}
