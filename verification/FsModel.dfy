/** On-disk state of cofeufs, and the invariants that every operation keeps.
    Sectors are modelled by their typed contents: an indirect table of 128 block
    numbers, a directory block of 12 entries, or 512 bytes of file data. */
module FsModel {
  import opened Basics

  const DATA_COUNT := 65454
  const INO_COUNT := 256
  const NONE := 0xFFFF_FFFF
  const MAX_DIRECT := 20
  const IND_PTRS := 128
  const MAX_BLOCKS := 22
  const MAX_FILE := 141312
  const DE_SIZE := 40
  const DE_PER_BLK := 12
  const ROOT := 0

  /** FT_FREE, FT_FILE and FT_DIR. */
  datatype Kind = Free | File | Dir

  type BlockList = s: seq<nat> | |s| == 22 witness seq(22, _ => 0)

  datatype Inode = Inode(name: string, kind: Kind, size: nat, blocks: BlockList)

  datatype DirEntry = DirEntry(ino: nat, name: string, kind: Kind)

  type Table128 = s: seq<nat> | |s| == 128 witness seq(128, _ => 0)
  type Slots12 = s: seq<DirEntry> | |s| == 12 witness seq(12, _ => DirEntry(0, "", Free))
  type Sector = s: seq<byte> | |s| == 512 witness seq(512, _ => 0)

  datatype Block = Bytes(bytes: Sector) | Table(ptrs: Table128) | Entries(slots: Slots12)

  type Bitmap = s: seq<bool> | |s| == DATA_COUNT witness seq(DATA_COUNT, _ => false)
  type InodeTable = s: seq<Inode> | |s| == INO_COUNT witness seq(INO_COUNT, _ => ZERO_INODE)
  type DataArea = s: seq<Block> | |s| == DATA_COUNT witness seq(DATA_COUNT, _ => ZERO_BLOCK)

  datatype Disk = Disk(bm: Bitmap, ino: InodeTable, dat: DataArea)

  function Fill22(v: nat): (r: BlockList) ensures forall i :: 0 <= i < 22 ==> r[i] == v { seq(22, _ => v) }
  function Fill128(v: nat): (r: Table128) ensures forall i :: 0 <= i < 128 ==> r[i] == v { seq(128, _ => v) }
  function ZeroSector(): (r: Sector) ensures forall i :: 0 <= i < 512 ==> r[i] == 0 { seq(512, _ => 0) }
  function EmptySlots(): (r: Slots12)
    ensures forall i :: 0 <= i < 12 ==> r[i] == EMPTY_ENTRY
  {
    seq(12, _ => EMPTY_ENTRY)
  }

  const NO_BLOCKS: BlockList := Fill22(NONE)
  const ZERO_INODE: Inode := Inode("", Free, 0, Fill22(0))
  const ZERO_BLOCK: Block := Bytes(ZeroSector())
  const EMPTY_ENTRY: DirEntry := DirEntry(0, "", Free)
  const EMPTY_TABLE: Table128 := Fill128(NONE)
  const EMPTY_SLOTS: Slots12 := EmptySlots()

  // ---- a sector read back as an indirect table ----

  /** A little-endian 32-bit word. */
  function Word(b0: nat, b1: nat, b2: nat, b3: nat): nat {
    b0 + 0x100 * b1 + 0x1_0000 * b2 + 0x100_0000 * b3
  }

  /** The k-th little-endian word of a 40-byte directory entry. */
  function EntryWord(e: DirEntry, k: nat): nat {
    if k == 0 then e.ino
    else if k <= 8 then
      Word(NameByte(e.name, 4 * k - 4), NameByte(e.name, 4 * k - 3),
           NameByte(e.name, 4 * k - 2), NameByte(e.name, 4 * k - 1))
    else match e.kind case Free => 0 case File => 1 case Dir => 2
  }

  function NameByte(name: string, i: nat): nat {
    if i < |name| then name[i] as int % 256 else 0
  }

  /** inode_free_blocks and inode_block_at reinterpret whatever the sector holds as 128 words. */
  function Words(b: Block): (w: Table128) {
    match b
    case Table(p) => p
    case Entries(es) =>
      seq(128, (i: nat) requires i < 128 => if i < 120 then EntryWord(es[i / 10], i % 10) else 0)
    case Bytes(s) =>
      seq(128, (i: nat) requires i < 128 => Word(s[4 * i], s[4 * i + 1], s[4 * i + 2], s[4 * i + 3]))
  }

  // ---- block pointers and their owners ----

  /** A place where an inode keeps a block number: blocks[i], or entry j of indirect table t. */
  datatype Slot = Direct(i: nat) | Entry(t: nat, j: nat)

  predicate ValidSlot(s: Slot) {
    match s
    case Direct(i) => i < 22
    case Entry(t, j) => t < 2 && j < 128
  }

  /** The block number inode n keeps at a slot. Only files use blocks[20..21] as tables. */
  function PtrOf(dat: DataArea, n: Inode, s: Slot): nat {
    if n.kind == Free || !ValidSlot(s) then NONE else
    match s
    case Direct(i) => n.blocks[i]
    case Entry(t, j) =>
      var tbl := n.blocks[20 + t];
      if n.kind == File && tbl < DATA_COUNT then Words(dat[tbl])[j] else NONE
  }

  function Ptr(d: Disk, i: nat, s: Slot): nat
    requires i < INO_COUNT
  {
    PtrOf(d.dat, d.ino[i], s)
  }

  datatype Ref = Ref(ino: nat, slot: Slot)

  /** own is the inverse of Ptr, and the bitmap is exactly its domain. */
  ghost predicate Owners(d: Disk, own: map<nat, Ref>) {
    && (forall i, s {:trigger Ptr(d, i, s)} :: 0 <= i < INO_COUNT && Ptr(d, i, s) != NONE ==>
          Ptr(d, i, s) in own && own[Ptr(d, i, s)] == Ref(i, s))
    && (forall b {:trigger own[b]} :: b in own ==>
          b < DATA_COUNT && own[b].ino < INO_COUNT && Ptr(d, own[b].ino, own[b].slot) == b)
    && (forall b {:trigger d.bm[b]} :: 0 <= b < DATA_COUNT ==> (d.bm[b] <==> b in own))
  }

  /** No sharing and no leak, stated without the owner map. */
  ghost predicate BitmapExact(d: Disk) {
    && (forall i, s {:trigger Ptr(d, i, s)} :: 0 <= i < INO_COUNT && Ptr(d, i, s) != NONE ==>
          Ptr(d, i, s) < DATA_COUNT && d.bm[Ptr(d, i, s)])
    && (forall i, s, j, t {:trigger Ptr(d, i, s), Ptr(d, j, t)} ::
          0 <= i < INO_COUNT && 0 <= j < INO_COUNT && Ptr(d, i, s) == Ptr(d, j, t) != NONE ==>
          i == j && s == t)
    && (forall b {:trigger d.bm[b]} :: 0 <= b < DATA_COUNT && d.bm[b] ==>
          exists i, s :: 0 <= i < INO_COUNT && Ptr(d, i, s) == b)
  }

  /** A bit is set exactly when one slot of one live inode holds that block. */
  lemma OwnersExact(d: Disk, own: map<nat, Ref>)
    requires Owners(d, own)
    ensures BitmapExact(d)
  {
    forall b | 0 <= b < DATA_COUNT && d.bm[b]
      ensures exists i, s :: 0 <= i < INO_COUNT && Ptr(d, i, s) == b
    {
      assert Ptr(d, own[b].ino, own[b].slot) == b;
    }
  }

  // ---- files ----

  /** Blocks needed for a file of the given size. */
  function Need(size: nat): nat { (size + 511) / 512 }

  /** Where the k-th logical block of a file is recorded. */
  function LogSlot(k: nat): Slot {
    if k < 20 then Direct(k) else Entry((k - 20) / 128, (k - 20) % 128)
  }

  function BlockOf(dat: DataArea, n: Inode, k: nat): nat { PtrOf(dat, n, LogSlot(k)) }

  /** The first k logical blocks are mapped, the others are not, and a table is present
      exactly when one of its entries is. */
  ghost predicate Mapped(dat: DataArea, n: Inode, k: nat) {
    && n.kind == File
    && (forall t :: t == 0 || t == 1 ==>
          if k > 20 + 128 * t
          then n.blocks[20 + t] < DATA_COUNT && dat[n.blocks[20 + t]].Table?
          else n.blocks[20 + t] == NONE)
    && (forall m {:trigger BlockOf(dat, n, m)} :: 0 <= m < 276 ==>
          (BlockOf(dat, n, m) != NONE <==> m < k))
  }

  ghost predicate FileOk(dat: DataArea, n: Inode) {
    && n.size <= MAX_FILE
    && Mapped(dat, n, Need(n.size))
    && (forall m {:trigger BlockOf(dat, n, m)} :: 0 <= m < Need(n.size) ==>
          BlockOf(dat, n, m) < DATA_COUNT && dat[BlockOf(dat, n, m)].Bytes?)
  }

  /** The bytes of a file. */
  ghost function Content(dat: DataArea, n: Inode): (c: seq<byte>)
    requires FileOk(dat, n)
    ensures |c| == n.size
  {
    seq(n.size, (x: nat) requires x < n.size =>
      assert x / 512 < Need(n.size);
      dat[BlockOf(dat, n, x / 512)].bytes[x % 512])
  }

  // ---- directories ----

  function Used(n: Inode): nat { n.size / 40 }

  /** Directory entry k, as dir_slot_read finds it. */
  function SlotOf(dat: DataArea, n: Inode, k: nat): DirEntry {
    var blk := k / 12;
    if blk < 22 && n.blocks[blk] < DATA_COUNT && dat[n.blocks[blk]].Entries?
    then dat[n.blocks[blk]].slots[k % 12] else EMPTY_ENTRY
  }

  ghost predicate DirOk(dat: DataArea, n: Inode) {
    && n.kind == Dir
    && n.size % 40 == 0 && 2 <= Used(n) <= 264
    && (forall j {:trigger n.blocks[j]} :: 0 <= j < 22 ==>
          if 12 * j < Used(n)
          then n.blocks[j] < DATA_COUNT && dat[n.blocks[j]].Entries?
          else n.blocks[j] == NONE)
  }

  ghost predicate NodeOk(dat: DataArea, n: Inode) {
    match n.kind
    case Free => true
    case File => FileOk(dat, n)
    case Dir => DirOk(dat, n)
  }

  ghost predicate NodesOk(d: Disk) {
    forall i {:trigger d.ino[i]} :: 0 <= i < INO_COUNT ==> NodeOk(d.dat, d.ino[i])
  }

  predicate Live(d: Disk, i: int) { 0 <= i < INO_COUNT && d.ino[i].kind != Free }

  predicate IsDir(d: Disk, i: int) { 0 <= i < INO_COUNT && d.ino[i].kind == Dir }

  function DirSlot(d: Disk, i: nat, k: nat): DirEntry
    requires i < INO_COUNT
  {
    SlotOf(d.dat, d.ino[i], k)
  }
}
