/** Counting free blocks: the bitmap against the owner map, and what a file of a given size costs. */
module FsSpace {
  import opened FsModel
  import opened FsBlocks
  import opened FsFiles
  import opened Bits

  lemma FreeCountOwn(d: Disk, own: Own)
    requires Owners(d, own)
    ensures FreeCount(d.bm) + |own| == DATA_COUNT
  {
    FreeCountKeys(d.bm, own.Keys);
    assert |own| == |own.Keys|;
  }

  /** Data blocks and tables that a file of the given size occupies. */
  function BlocksFor(size: nat): nat { Need(size) + TablesFor(Need(size)) }

  /** The first k data blocks of a file. */
  ghost function DataBlocks(dat: DataArea, n: Inode, k: nat): set<nat> {
    set m | 0 <= m < k :: BlockOf(dat, n, m)
  }

  lemma {:induction false} DataBlocksCount(d: Disk, own: Own, f: nat, k: nat)
    requires Owners(d, own) && f < INO_COUNT && k <= 276
    requires forall m {:trigger BlockOf(d.dat, d.ino[f], m)} :: 0 <= m < k ==> BlockOf(d.dat, d.ino[f], m) != NONE
    ensures |DataBlocks(d.dat, d.ino[f], k)| == k
    decreases k
  {
    if k == 0 {
      assert DataBlocks(d.dat, d.ino[f], 0) == {};
    } else {
      var n := d.ino[f];
      var b := BlockOf(d.dat, n, k - 1);
      DataBlocksCount(d, own, f, k - 1);
      assert Ptr(d, f, LogSlot(k - 1)) == b;
      if b in DataBlocks(d.dat, n, k - 1) {
        var m :| 0 <= m < k - 1 && BlockOf(d.dat, n, m) == b;
        assert Ptr(d, f, LogSlot(m)) == b;
        LogSlotInjective(m, k - 1);
        assert false;
      }
      assert DataBlocks(d.dat, n, k) == DataBlocks(d.dat, n, k - 1) + {b};
    }
  }

  function TableBlocks(n: Inode, tables: nat): set<nat> {
    if tables == 0 then {} else if tables == 1 then {n.blocks[20]} else {n.blocks[20], n.blocks[21]}
  }

  ghost function OwnedBy(own: Own, f: nat): set<nat> { set b | b in own && own[b].ino == f }

  lemma OwnedOnly(d: Disk, own: Own, f: nat, k: nat, b: nat)
    requires Owners(d, own) && f < INO_COUNT && k <= 276 && Mapped(d.dat, d.ino[f], k) && b in OwnedBy(own, f)
    ensures b in DataBlocks(d.dat, d.ino[f], k) + TableBlocks(d.ino[f], TablesFor(k))
  {
    var n := d.ino[f];
    MappedIff(d.dat, n, k);
    var s := own[b].slot;
    assert Ptr(d, f, s) == b;
    if s.Entry? {
      LogEntry(s.t, s.j);
      assert BlockOf(d.dat, n, 20 + 128 * s.t + s.j) == b;
    } else if s.i < 20 {
      assert BlockOf(d.dat, n, s.i) == b;
    }
  }

  /** A file owns its data blocks and its tables, and nothing else. */
  lemma OwnedIs(d: Disk, own: Own, f: nat, k: nat)
    requires Owners(d, own) && f < INO_COUNT && k <= 276 && Mapped(d.dat, d.ino[f], k)
    ensures OwnedBy(own, f) == DataBlocks(d.dat, d.ino[f], k) + TableBlocks(d.ino[f], TablesFor(k))
  {
    var n := d.ino[f];
    MappedIff(d.dat, n, k);
    forall b | b in OwnedBy(own, f)
      ensures b in DataBlocks(d.dat, n, k) + TableBlocks(n, TablesFor(k)) {
      OwnedOnly(d, own, f, k, b);
    }
    forall m | 0 <= m < k ensures BlockOf(d.dat, n, m) in OwnedBy(own, f) {
      assert Ptr(d, f, LogSlot(m)) == BlockOf(d.dat, n, m);
    }
    assert Ptr(d, f, Direct(20)) == n.blocks[20] && Ptr(d, f, Direct(21)) == n.blocks[21];
  }

  lemma TableCount(d: Disk, own: Own, f: nat, k: nat)
    requires Owners(d, own) && f < INO_COUNT && k <= 276 && Mapped(d.dat, d.ino[f], k)
    ensures |TableBlocks(d.ino[f], TablesFor(k))| == TablesFor(k)
    ensures DataBlocks(d.dat, d.ino[f], k) !! TableBlocks(d.ino[f], TablesFor(k))
  {
    var n := d.ino[f];
    MappedIff(d.dat, n, k);
    assert Ptr(d, f, Direct(20)) == n.blocks[20] && Ptr(d, f, Direct(21)) == n.blocks[21];
    forall m | 0 <= m < k ensures BlockOf(d.dat, n, m) !in TableBlocks(n, TablesFor(k)) {
      assert Ptr(d, f, LogSlot(m)) == BlockOf(d.dat, n, m);
    }
  }

  lemma OwnedCount(d: Disk, own: Own, f: nat, k: nat)
    requires Owners(d, own) && f < INO_COUNT && k <= 276 && Mapped(d.dat, d.ino[f], k)
    ensures |OwnedBy(own, f)| == k + TablesFor(k)
  {
    hide Owners, TableBlocks, DataBlocks;
    OwnedIs(d, own, f, k);
    DataBlocksCount(d, own, f, k);
    TableCount(d, own, f, k);
  }

  /** Releasing a file gives back exactly what a file of its size costs. */
  lemma ReleasedCount(d: Disk, own: Own, f: nat, e: Disk)
    requires Owners(d, own) && f < INO_COUNT && d.ino[f].kind == File && FileOk(d.dat, d.ino[f])
    requires Owners(e, Without(own, f))
    ensures FreeCount(e.bm) == FreeCount(d.bm) + BlocksFor(d.ino[f].size)
  {
    hide Owners, FreeCount;
    OwnedCount(d, own, f, Need(d.ino[f].size));
    FreeCountOwn(d, own);
    FreeCountOwn(e, Without(own, f));
    assert own.Keys == Without(own, f).Keys + OwnedBy(own, f);
    assert |own| == |own.Keys| && |Without(own, f)| == |Without(own, f).Keys|;
  }
}
