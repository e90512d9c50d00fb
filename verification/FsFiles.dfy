/** File layout: growing the block map one block at a time, and reading bytes back. */
module FsFiles {
  import opened Basics
  import opened FsModel
  import opened FsBlocks

  /** Number of indirect tables a file of k blocks uses. */
  function TablesFor(k: nat): nat { if k <= 20 then 0 else if k <= 148 then 1 else 2 }

  /** Mapped, with the number of tables given separately: while a file grows, a table can be
      present before its first entry. */
  ghost predicate MappedT(dat: DataArea, n: Inode, k: nat, tables: nat) {
    && n.kind == File && TablesFor(k) <= tables <= 2
    && (tables >= 1 ==> n.blocks[20] < DATA_COUNT && dat[n.blocks[20]].Table?)
    && (tables >= 2 ==> n.blocks[21] < DATA_COUNT && dat[n.blocks[21]].Table?)
    && (tables < 1 ==> n.blocks[20] == NONE)
    && (tables < 2 ==> n.blocks[21] == NONE)
    && (forall m {:trigger BlockOf(dat, n, m)} :: 0 <= m < 276 ==>
          (BlockOf(dat, n, m) != NONE <==> m < k))
  }

  lemma MappedIff(dat: DataArea, n: Inode, k: nat)
    ensures Mapped(dat, n, k) <==> MappedT(dat, n, k, TablesFor(k))
  {
    assert Mapped(dat, n, k) ==> MappedT(dat, n, k, TablesFor(k)) by {
      if Mapped(dat, n, k) {
        assert if k > 20 + 128 * 0 then n.blocks[20 + 0] < DATA_COUNT else n.blocks[20 + 0] == NONE;
        assert if k > 20 + 128 * 1 then n.blocks[20 + 1] < DATA_COUNT else n.blocks[20 + 1] == NONE;
      }
    }
  }

  lemma LogEntry(t: nat, j: nat)
    requires t < 2 && j < 128
    ensures LogSlot(20 + 128 * t + j) == Entry(t, j)
  {
    assert (128 * t + j) / 128 == t;
  }

  /** Entry j of table t is the logical block 20 + 128 t + j. */
  lemma TableEntry(dat: DataArea, n: Inode, k: nat, tables: nat, t: nat, j: nat)
    requires MappedT(dat, n, k, tables) && t < tables && j < 128
    ensures n.blocks[20 + t] < DATA_COUNT && dat[n.blocks[20 + t]].Table?
    ensures dat[n.blocks[20 + t]].ptrs[j] == BlockOf(dat, n, 20 + 128 * t + j)
    ensures dat[n.blocks[20 + t]].ptrs[j] == NONE <==> 20 + 128 * t + j >= k
  {
    LogEntry(t, j);
  }

  /** Whether table t is present tells whether the file has reached it. */
  lemma TablePresent(dat: DataArea, n: Inode, k: nat, t: nat)
    requires MappedT(dat, n, k, TablesFor(k)) && t < 2 && 20 + 128 * t <= k <= 276
    ensures if n.blocks[20 + t] == NONE then TablesFor(k) == t && k == 20 + 128 * t else t < TablesFor(k)
    ensures StepCost(k) == if n.blocks[20 + t] == NONE then 2 else if k < 148 + 128 * t then 1 else StepCost(k)
  {}

  /** Blocks taken when a file grows from k to k + 1 data blocks. */
  function StepCost(k: nat): int { 1 + TablesFor(k + 1) - TablesFor(k) }

  /** The first empty entry of table t tells how far the file has grown. */
  lemma FirstEmpty(dat: DataArea, n: Inode, k: nat, tables: nat, t: nat, j: nat)
    requires MappedT(dat, n, k, tables) && t < tables && j <= 128 && 20 + 128 * t <= k
    requires n.blocks[20 + t] < DATA_COUNT && dat[n.blocks[20 + t]].Table?
    requires j > 0 ==> dat[n.blocks[20 + t]].ptrs[j - 1] != NONE
    requires j < 128 ==> dat[n.blocks[20 + t]].ptrs[j] == NONE
    ensures if j < 128 then k == 20 + 128 * t + j else k >= 148 + 128 * t
  {
    if j > 0 { TableEntry(dat, n, k, tables, t, j - 1); }
    if j < 128 { TableEntry(dat, n, k, tables, t, j); }
  }

  lemma MapDirect(dat: DataArea, n: Inode, k: nat, b: nat)
    requires MappedT(dat, n, k, 0) && k < 20 && b < DATA_COUNT
    ensures MappedT(dat, n.(blocks := n.blocks[k := b]), k + 1, 0)
  {
    var n' := n.(blocks := n.blocks[k := b]);
    forall m | 0 <= m < 276 ensures BlockOf(dat, n', m) == if m == k then b else BlockOf(dat, n, m) {}
  }

  lemma MapTable(dat: DataArea, n: Inode, k: nat, t: nat, b: nat)
    requires MappedT(dat, n, k, t) && t < 2 && b < DATA_COUNT && k == 20 + 128 * t
    requires forall s :: PtrOf(dat, n, s) != b
    ensures MappedT(dat[b := Table(EMPTY_TABLE)], n.(blocks := n.blocks[20 + t := b]), k, t + 1)
  {
    var n' := n.(blocks := n.blocks[20 + t := b]);
    var dat' := dat[b := Table(EMPTY_TABLE)];
    assert PtrOf(dat, n, Direct(20)) == n.blocks[20];
    forall m | 0 <= m < 276 ensures BlockOf(dat', n', m) == BlockOf(dat, n, m) {
      if m >= 20 && (m - 20) / 128 == t { assert BlockOf(dat, n, m) == NONE; }
    }
  }

  lemma MapEntry(dat: DataArea, n: Inode, k: nat, t: nat, b: nat)
    requires MappedT(dat, n, k, t + 1) && t < 2 && b < DATA_COUNT && 20 + 128 * t <= k < 148 + 128 * t
    requires n.blocks[20] != n.blocks[21]
    ensures var tbl := n.blocks[20 + t];
      MappedT(dat[tbl := Table(dat[tbl].ptrs[k - 20 - 128 * t := b])], n, k + 1, t + 1)
  {
    var tbl := n.blocks[20 + t];
    var dat' := dat[tbl := Table(dat[tbl].ptrs[k - 20 - 128 * t := b])];
    LogEntry(t, k - 20 - 128 * t);
    forall m | 0 <= m < 276 ensures BlockOf(dat', n, m) == if m == k then b else BlockOf(dat, n, m) {
      if m >= 20 && (m - 20) / 128 == t { assert m == 20 + 128 * t + (m - 20) % 128; }
    }
  }

  // ---- growing a file whose owner map is known ----

  /** Two steps that each leave the other inodes alone do so together. */
  lemma OthersTwice(own: Own, own1: Own, own2: Own, i: nat, dat: DataArea, dat1: DataArea, dat2: DataArea)
    requires OthersOwned(own, own1, i) && OthersOwned(own1, own2, i)
    requires OthersKept(own, i, dat, dat1) && OthersKept(own1, i, dat1, dat2)
    ensures OthersOwned(own, own2, i) && OthersKept(own, i, dat, dat2)
  {}

  lemma GrowTable(d: Disk, own: Own, i: nat, t: nat, b: nat)
    requires Owners(d, own) && i < INO_COUNT && t < 2 && b < DATA_COUNT && !d.bm[b]
    requires MappedT(d.dat, d.ino[i], 20 + 128 * t, t)
    ensures var e := PutDirect(d, i, 20 + t, b, Table(EMPTY_TABLE));
      var own' := own[b := Ref(i, Direct(20 + t))];
      && Owners(e, own') && MappedT(e.dat, e.ino[i], 20 + 128 * t, t + 1)
      && OthersOwned(own, own', i) && OthersKept(own, i, d.dat, e.dat)
  {
    assert b !in own;
    forall s ensures PtrOf(d.dat, d.ino[i], s) != b { assert Ptr(d, i, s) == PtrOf(d.dat, d.ino[i], s); }
    TakeDirect(d, own, i, 20 + t, b, Table(EMPTY_TABLE));
    MapTable(d.dat, d.ino[i], 20 + 128 * t, t, b);
  }

  lemma GrowEntry(d: Disk, own: Own, i: nat, t: nat, j: nat, b: nat)
    requires Owners(d, own) && i < INO_COUNT && t < 2 && j < 128 && b < DATA_COUNT && !d.bm[b]
    requires MappedT(d.dat, d.ino[i], 20 + 128 * t + j, t + 1)
    ensures d.ino[i].blocks[20 + t] < DATA_COUNT
    ensures var e := PutEntry(d, d.ino[i].blocks[20 + t], j, b);
      var own' := own[b := Ref(i, Entry(t, j))];
      && Owners(e, own') && MappedT(e.dat, e.ino[i], 21 + 128 * t + j, t + 1)
      && BlockOf(e.dat, e.ino[i], 20 + 128 * t + j) == b
      && OthersOwned(own, own', i) && OthersKept(own, i, d.dat, e.dat)
  {
    var n := d.ino[i];
    TableEntry(d.dat, n, 20 + 128 * t + j, t + 1, t, j);
    assert b !in own;
    assert Ptr(d, i, Direct(20)) == n.blocks[20] && Ptr(d, i, Direct(21)) == n.blocks[21];
    TakeEntry(d, own, i, t, j, b);
    MapEntry(d.dat, n, 20 + 128 * t + j, t, b);
    LogEntry(t, j);
  }

  // ---- bytes ----

  /** The k-th sector of a file holding data: its bytes, then zeroes. */
  function Chunk(data: seq<byte>, k: nat): (r: Sector) {
    seq(512, (x: nat) => if 512 * k + x < |data| then data[512 * k + x] else 0)
  }

  /** A file whose k-th block holds the k-th chunk of data contains data. */
  lemma ChunksContent(dat: DataArea, n: Inode, data: seq<byte>)
    requires FileOk(dat, n) && n.size == |data|
    requires forall k {:trigger BlockOf(dat, n, k)} :: 0 <= k < Need(n.size) ==>
      dat[BlockOf(dat, n, k)] == Bytes(Chunk(data, k))
    ensures Content(dat, n) == data
  {
    forall x | 0 <= x < n.size ensures Content(dat, n)[x] == data[x] {
      assert x / 512 < Need(n.size);
      assert dat[BlockOf(dat, n, x / 512)] == Bytes(Chunk(data, x / 512));
      assert 512 * (x / 512) + x % 512 == x;
    }
  }

  /** The bytes of block k are those of the file at 512 k. */
  lemma ContentChunk(dat: DataArea, n: Inode, k: nat, len: nat)
    requires FileOk(dat, n) && 512 * k + len <= n.size && 0 < len <= 512
    ensures k < Need(n.size) && BlockOf(dat, n, k) < DATA_COUNT && dat[BlockOf(dat, n, k)].Bytes?
    ensures dat[BlockOf(dat, n, k)].bytes[..len] == Content(dat, n)[512 * k .. 512 * k + len]
  {
    assert k < Need(n.size);
    forall x | 0 <= x < len
      ensures dat[BlockOf(dat, n, k)].bytes[x] == Content(dat, n)[512 * k + x]
    {
      assert (512 * k + x) / 512 == k && (512 * k + x) % 512 == x;
    }
  }

  /** What reading block k of the first len bytes adds, and what the reader may rely on. */
  lemma ReadChunk(dat: DataArea, n: Inode, k: nat, len: nat)
    requires FileOk(dat, n) && 512 * k < len <= n.size
    ensures var end := if 512 * (k + 1) < len then 512 * (k + 1) else len;
      var b := BlockOf(dat, n, k);
      && k < 276 && b < DATA_COUNT && dat[b].Bytes? && n.kind == File && (k < 20 ==> n.blocks[k] == b)
      && Content(dat, n)[..512 * k] + dat[b].bytes[..end - 512 * k] == Content(dat, n)[..end]
  {
    var end := if 512 * (k + 1) < len then 512 * (k + 1) else len;
    ContentChunk(dat, n, k, end - 512 * k);
    assert k < 20 ==> n.blocks[k] == BlockOf(dat, n, k);
  }

  lemma EmptyMapped(dat: DataArea, n: Inode)
    requires n.kind == File && n.blocks == NO_BLOCKS
    ensures Mapped(dat, n, 0)
  {
    forall m | 0 <= m < 276 ensures BlockOf(dat, n, m) == NONE {}
  }

  lemma LogSlotInjective(k: nat, m: nat)
    requires LogSlot(k) == LogSlot(m)
    ensures k == m
  {}

  /** Storing a sector in logical block i of file f moves no pointer and touches no other block. */
  lemma StoreChunk(d: Disk, own: Own, f: nat, need: nat, i: nat, x: Block)
    requires Owners(d, own) && f < INO_COUNT && Mapped(d.dat, d.ino[f], need) && i < need <= 276
    ensures BlockOf(d.dat, d.ino[f], i) < DATA_COUNT
    ensures var b := BlockOf(d.dat, d.ino[f], i);
      var e := d.(dat := d.dat[b := x]);
      && Owners(e, own) && Mapped(e.dat, d.ino[f], need) && OthersKept(own, f, d.dat, e.dat)
      && (forall k {:trigger BlockOf(e.dat, d.ino[f], k)} :: 0 <= k < 276 ==>
            BlockOf(e.dat, d.ino[f], k) == BlockOf(d.dat, d.ino[f], k))
      && (forall k {:trigger BlockOf(d.dat, d.ino[f], k)} :: 0 <= k < need && k != i ==>
        BlockOf(d.dat, d.ino[f], k) != b)
  {
    var n := d.ino[f];
    assert BlockOf(d.dat, n, i) == Ptr(d, f, LogSlot(i)) != NONE;
    var b := BlockOf(d.dat, n, i);
    WriteOwners(d, own, b, x);
    var e := d.(dat := d.dat[b := x]);
    forall k | 0 <= k < 276 ensures BlockOf(e.dat, n, k) == BlockOf(d.dat, n, k) {
      assert Ptr(e, f, LogSlot(k)) == Ptr(d, f, LogSlot(k));
    }
    forall k | 0 <= k < need && k != i ensures BlockOf(d.dat, n, k) != b {
      if BlockOf(d.dat, n, k) == b {
        assert Ptr(d, f, LogSlot(k)) == b;
        LogSlotInjective(k, i);
      }
    }
    assert Ptr(d, f, Direct(20)) == n.blocks[20] && Ptr(d, f, Direct(21)) == n.blocks[21];
    MappedIff(d.dat, n, need);
    MappedIff(e.dat, n, need);
  }
}
