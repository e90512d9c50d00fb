/** What the outcomes of the file operations mean in plain numbers: when they succeed, and where the
    bytes are. */
module FsMeans {
  import opened Basics
  import opened FsModel
  import opened FsBlocks
  import opened FsTree
  import opened FsPath
  import opened FsCreate
  import opened FsSpace
  import opened FsCore
  import opened Bits

  // ---- creating ----

  /** Directory p has a free slot among its entries. */
  predicate FreeSlot(d: Disk, p: nat)
    requires p < INO_COUNT
  {
    exists k :: 0 <= k < Used(d.ino[p]) && DirSlot(d, p, k).ino == 0 && DirSlot(d, p, k).name == ""
  }

  /** A file takes no block, a directory one, for itself. Its entry goes into a free slot, or behind the
      last of at most 263, which takes a block when the last block of the parent is full. */
  lemma CreatableMeans(d: Disk, base: nat, path: string, isDir: bool)
    ensures Creatable(d, base, path, isDir) <==>
      && Split(d, base, path).Some? && Resolve(d, base, path) == None
      && (exists i :: 0 <= i < 256 && d.ino[i].kind == Free)
      && IsDir(d, Split(d, base, path).value.0)
      && var p, own := Split(d, base, path).value.0, if isDir then 1 else 0;
         && FreeCount(d.bm) >= own
         && (FreeSlot(d, p) || (Used(d.ino[p]) < 264 && (Used(d.ino[p]) % 12 == 0 ==> FreeCount(d.bm) > own)))
  {
    hide Split, Resolve, FreeCount;
  }

  /** So a new name of at most 31 characters behind a directory of at most 94 can be made while an inode
      and two blocks are free and the directory has fewer than 264 slots. */
  lemma CreatableIn(d: Disk, w: Places, rk: Ranks, base: nat, dir: string, name: string, p: nat, c: nat, isDir: bool)
    requires Tree(d, w, rk) && GoodName(name) && |dir| < 95
    requires (if dir == "" then Some(ROOT) else Resolve(d, base, dir)) == Some(p) && IsDir(d, p)
    requires forall k :: 0 <= k < Used(d.ino[p]) ==> DirSlot(d, p, k).name != name
    requires c < INO_COUNT && d.ino[c].kind == Free && Used(d.ino[p]) < 264 && FreeCount(d.bm) >= 2
    ensures Creatable(d, base, dir + "/" + name, isDir)
  {
    hide Split, Resolve, FreeCount, Comps;
    SplitMeans(d, base, dir, name);
    SplitAgrees(d, base, dir + "/" + name);
    CreatableMeans(d, base, dir + "/" + name, isDir);
  }

  /** What create_inode leaves: the entry in the first free slot of the parent, or behind the last when
      none is free; an empty file, or a directory with "." and ".."; and all else as it was. */
  lemma CreatedMeans(d: Disk, e: Disk, c: nat, p: nat, s: nat, name: string, kind: Kind)
    requires Created(d, e, c, p, s, name, kind) && (kind == File || kind == Dir)
    ensures c < INO_COUNT && d.ino[c].kind == Free && IsDir(d, p)
    ensures DirSlot(e, p, s) == DirEntry(c, name, kind) && s <= Used(d.ino[p])
    ensures s < Used(d.ino[p]) ==> DirSlot(d, p, s).ino == 0 && DirSlot(d, p, s).name == ""
    ensures forall k :: 0 <= k < s ==> DirSlot(d, p, k).ino != 0 || DirSlot(d, p, k).name != ""
    ensures forall k :: 0 <= k < Used(d.ino[p]) && k != s ==> DirSlot(e, p, k) == DirSlot(d, p, k)
    ensures ViewAt(e, c) == if kind == File then FileView([])
                            else DirView([DirEntry(c, ".", Dir), DirEntry(p, "..", Dir)])
    ensures forall j {:trigger ViewAt(e, j)} :: 0 <= j < INO_COUNT && j != c && j != p ==> ViewAt(e, j) == ViewAt(d, j)
  {}

  // ---- writing ----

  /** A write succeeds exactly when the data has at most 276 sectors and what the file owned and the free
      blocks suffice for them and for the tables: one behind 20 sectors, two behind 148. A write that
      runs out of blocks leaves the file empty; no other file or directory changes either way. */
  lemma WroteMeans(d: Disk, own: Own, e: Disk, f: nat, data: seq<byte>, ok: bool)
    requires Owners(d, own) && NodesOk(d) && f < INO_COUNT && d.ino[f].kind == File && Wrote(d, e, f, data, ok)
    ensures var tables := if |data| <= 20 * 512 then 0 else if |data| <= 148 * 512 then 1 else 2;
      ok <==> |data| <= 141312 && FreeCount(d.bm) + |OwnedBy(own, f)| >= (|data| + 511) / 512 + tables
    ensures |data| <= 141312 ==> ViewAt(e, f) == FileView(if ok then data else [])
    ensures |data| > 141312 ==> e == d
    ensures forall j {:trigger ViewAt(e, j)} :: 0 <= j < INO_COUNT && j != f ==> ViewAt(e, j) == ViewAt(d, j)
  {
    hide Owners, FreeCount;
    assert NodeOk(d.dat, d.ino[f]);
    OwnedCount(d, own, f, Need(d.ino[f].size));
  }

  /** The same for an append, whose data is the old contents and the new bytes. */
  lemma AppendedMeans(d: Disk, e: Disk, f: nat, data: seq<byte>, ok: bool)
    requires NodesOk(d) && f < INO_COUNT && d.ino[f].kind == File && Appended(d, e, f, data, ok)
    ensures ViewAt(d, f).FileView?
    ensures var was := ViewAt(d, f).bytes;
      if |was| + |data| <= 141312 then Wrote(d, e, f, was + data, ok) else !ok && e == d
  {
    assert NodeOk(d.dat, d.ino[f]);
  }

  // ---- where things are ----

  /** Sector k of a file is named by one of twenty direct slots, by a word of the table in slot 20, or
      by one of the table in slot 21. */
  lemma BlockLayout(dat: DataArea, n: Inode, k: nat)
    requires n.kind == File && n.blocks[20] < DATA_COUNT && n.blocks[21] < DATA_COUNT && k < 276
    ensures BlockOf(dat, n, k) ==
      if k < 20 then n.blocks[k]
      else if k < 148 then Words(dat[n.blocks[20]])[k - 20]
      else Words(dat[n.blocks[21]])[k - 148]
  {}

  /** Byte x of a file is byte x mod 512 of its sector x / 512. */
  lemma ByteAt(d: Disk, f: nat, x: nat)
    requires NodesOk(d) && f < INO_COUNT && d.ino[f].kind == File && x < d.ino[f].size
    ensures ViewAt(d, f).FileView? && |ViewAt(d, f).bytes| == d.ino[f].size
    ensures var b := BlockOf(d.dat, d.ino[f], x / 512);
      b < DATA_COUNT && d.dat[b].Bytes? && ViewAt(d, f).bytes[x] == d.dat[b].bytes[x % 512]
  {
    assert NodeOk(d.dat, d.ino[f]);
    assert x / 512 < Need(d.ino[f].size);
  }

  /** Slot k of a directory is entry k mod 12 of its block k / 12. */
  lemma SlotAt(d: Disk, p: nat, k: nat)
    requires NodesOk(d) && IsDir(d, p) && k < Used(d.ino[p])
    ensures var b := d.ino[p].blocks[k / 12];
      b < DATA_COUNT && d.dat[b].Entries? && DirSlot(d, p, k) == d.dat[b].slots[k % 12]
  {
    assert NodeOk(d.dat, d.ino[p]);
  }
}
