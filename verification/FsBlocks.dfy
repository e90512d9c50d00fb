/** How taking, releasing and writing blocks moves the owner map, and what other
    inodes see of it. */
module FsBlocks {
  import opened Basics
  import opened FsModel

  type Own = map<nat, Ref>

  /** What a reader of inode n can observe. */
  datatype View = NoNode | FileView(bytes: seq<byte>) | DirView(entries: seq<DirEntry>)

  ghost function ViewOf(dat: DataArea, n: Inode): View {
    match n.kind
    case Free => NoNode
    case File => if FileOk(dat, n) then FileView(Content(dat, n)) else NoNode
    case Dir => DirView(seq(Used(n), (k: nat) => SlotOf(dat, n, k)))
  }

  // ---- frames ----

  /** Every block number held in a slot of n has the same contents on both sides. */
  ghost predicate SameBlocks(dat: DataArea, dat': DataArea, n: Inode) {
    forall s {:trigger PtrOf(dat, n, s)} ::
      PtrOf(dat, n, s) < DATA_COUNT ==> dat'[PtrOf(dat, n, s)] == dat[PtrOf(dat, n, s)]
  }

  lemma SamePtrs(dat: DataArea, dat': DataArea, n: Inode)
    requires SameBlocks(dat, dat', n)
    ensures forall s {:trigger PtrOf(dat', n, s)} :: PtrOf(dat', n, s) == PtrOf(dat, n, s)
  {
    forall s ensures PtrOf(dat', n, s) == PtrOf(dat, n, s) {
      if s.Entry? && ValidSlot(s) {
        assert n.kind != Free ==> PtrOf(dat, n, Direct(20 + s.t)) == n.blocks[20 + s.t];
      }
    }
  }

  lemma SameFile(dat: DataArea, dat': DataArea, n: Inode)
    requires SameBlocks(dat, dat', n) && FileOk(dat, n)
    ensures FileOk(dat', n) && Content(dat', n) == Content(dat, n)
  {
    SamePtrs(dat, dat', n);
    assert PtrOf(dat, n, Direct(20)) == n.blocks[20] && PtrOf(dat, n, Direct(21)) == n.blocks[21];
    forall m | 0 <= m < 276 ensures BlockOf(dat', n, m) == BlockOf(dat, n, m) {}
    assert forall m :: 0 <= m < Need(n.size) ==>
      dat'[BlockOf(dat', n, m)] == dat[BlockOf(dat, n, m)];
  }

  lemma SameDir(dat: DataArea, dat': DataArea, n: Inode)
    requires SameBlocks(dat, dat', n) && DirOk(dat, n)
    ensures DirOk(dat', n)
    ensures forall k {:trigger SlotOf(dat', n, k)} :: 0 <= k ==> SlotOf(dat', n, k) == SlotOf(dat, n, k)
  {
    forall j | 0 <= j < 22 && n.blocks[j] < DATA_COUNT ensures dat'[n.blocks[j]] == dat[n.blocks[j]] {
      assert PtrOf(dat, n, Direct(j)) == n.blocks[j];
    }
  }

  /** An inode whose blocks are untouched keeps its shape and its view. */
  lemma SameView(dat: DataArea, dat': DataArea, n: Inode)
    requires SameBlocks(dat, dat', n) && NodeOk(dat, n)
    ensures NodeOk(dat', n) && ViewOf(dat', n) == ViewOf(dat, n)
  {
    if n.kind == File { SameFile(dat, dat', n); }
    if n.kind == Dir {
      SameDir(dat, dat', n);
      assert ViewOf(dat', n).entries == ViewOf(dat, n).entries;
    }
  }

  /** Blocks of the inodes other than i have the same contents on both sides. */
  ghost predicate OthersKept(own: Own, i: nat, dat: DataArea, dat': DataArea) {
    forall b {:trigger own[b]} :: b in own && b < DATA_COUNT && own[b].ino != i ==> dat'[b] == dat[b]
  }

  lemma OthersSame(d: Disk, own: Own, i: nat, dat': DataArea)
    requires Owners(d, own) && OthersKept(own, i, d.dat, dat')
    ensures forall j {:trigger d.ino[j]} :: 0 <= j < INO_COUNT && j != i ==> SameBlocks(d.dat, dat', d.ino[j])
  {
    forall j | 0 <= j < INO_COUNT && j != i ensures SameBlocks(d.dat, dat', d.ino[j]) {
      forall s | PtrOf(d.dat, d.ino[j], s) < DATA_COUNT
        ensures dat'[PtrOf(d.dat, d.ino[j], s)] == d.dat[PtrOf(d.dat, d.ino[j], s)]
      {
        assert Ptr(d, j, s) in own && own[Ptr(d, j, s)] == Ref(j, s);
      }
    }
  }

  /** Replacing inode i and touching only its blocks keeps every other inode's view. */
  lemma OthersView(d: Disk, own: Own, i: nat, e: Disk)
    requires i < INO_COUNT && Owners(d, own) && OthersKept(own, i, d.dat, e.dat)
    requires forall j {:trigger d.ino[j]} {:trigger e.ino[j]} :: 0 <= j < INO_COUNT && j != i ==> e.ino[j] == d.ino[j]
    requires forall j {:trigger d.ino[j]} :: 0 <= j < INO_COUNT && j != i ==> NodeOk(d.dat, d.ino[j])
    ensures forall j {:trigger e.ino[j]} {:trigger d.ino[j]} :: 0 <= j < INO_COUNT && j != i ==>
      NodeOk(e.dat, e.ino[j]) && ViewOf(e.dat, e.ino[j]) == ViewOf(d.dat, d.ino[j])
  {
    OthersSame(d, own, i, e.dat);
    forall j | 0 <= j < INO_COUNT && j != i
      ensures NodeOk(e.dat, e.ino[j]) && ViewOf(e.dat, e.ino[j]) == ViewOf(d.dat, d.ino[j])
    {
      SameView(d.dat, e.dat, d.ino[j]);
    }
  }

  // ---- taking blocks ----

  /** Blocks recorded for inodes other than i stay recorded, and none is added for them. */
  ghost predicate OthersOwned(own: Own, own': Own, i: nat) {
    && (forall b {:trigger own[b]} :: b in own && own[b].ino != i ==> b in own' && own'[b] == own[b])
    && (forall b {:trigger own'[b]} :: b in own' && own'[b].ino != i ==> b in own && own'[b] == own[b])
  }

  lemma OthersNone(own: Own, i: nat, dat: DataArea)
    ensures OthersOwned(own, own, i) && OthersKept(own, i, dat, dat)
  {}

  /** b is used as an indirect table. */
  predicate IsTableRef(d: Disk, r: Ref) {
    r.ino < INO_COUNT && d.ino[r.ino].kind == File && r.slot.Direct? && r.slot.i >= 20
  }

  /** Writing a block that is not an indirect table moves no pointer. */
  lemma WriteOwners(d: Disk, own: Own, b: nat, x: Block)
    requires Owners(d, own) && b < DATA_COUNT
    requires b in own ==> !IsTableRef(d, own[b])
    ensures forall i, s {:trigger Ptr(d.(dat := d.dat[b := x]), i, s)} :: 0 <= i < INO_COUNT ==>
      Ptr(d.(dat := d.dat[b := x]), i, s) == Ptr(d, i, s)
    ensures Owners(d.(dat := d.dat[b := x]), own)
  {
    hide PtrOf, Words;
    var e := d.(dat := d.dat[b := x]);
    forall i, s | 0 <= i < INO_COUNT ensures Ptr(e, i, s) == Ptr(d, i, s) { WritePtr(d, own, b, x, i, s); }
    assert forall c :: c in own ==> Ptr(e, own[c].ino, own[c].slot) == Ptr(d, own[c].ino, own[c].slot);
  }

  lemma WritePtr(d: Disk, own: Own, b: nat, x: Block, i: nat, s: Slot)
    requires Owners(d, own) && b < DATA_COUNT && i < INO_COUNT
    requires b in own ==> !IsTableRef(d, own[b])
    ensures Ptr(d.(dat := d.dat[b := x]), i, s) == Ptr(d, i, s)
  {
    hide Words;
    if s.Entry? && ValidSlot(s) && d.ino[i].kind == File {
      assert Ptr(d, i, Direct(20 + s.t)) == d.ino[i].blocks[20 + s.t];
    }
  }

  /** Recording the free block b at the empty slot s of inode i, and moving no other pointer. */
  lemma TakeOwners(d: Disk, e: Disk, own: Own, i: nat, s: Slot, b: nat)
    requires Owners(d, own) && i < INO_COUNT && b < DATA_COUNT && !d.bm[b]
    requires e.bm == d.bm[b := true]
    requires Ptr(d, i, s) == NONE && Ptr(e, i, s) == b
    requires forall j, x {:trigger Ptr(e, j, x)} {:trigger Ptr(d, j, x)} ::
      0 <= j < INO_COUNT && !(j == i && x == s) ==> Ptr(e, j, x) == Ptr(d, j, x)
    ensures Owners(e, own[b := Ref(i, s)])
  {
    var own' := own[b := Ref(i, s)];
    assert b !in own;
    forall c | c in own'
      ensures c < DATA_COUNT && own'[c].ino < INO_COUNT && Ptr(e, own'[c].ino, own'[c].slot) == c
    {
      if c != b { assert own'[c] == own[c] && Ptr(d, own[c].ino, own[c].slot) == c; }
    }
  }

  /** The disk after free block b, holding x, is recorded in blocks[k] of inode i. */
  function PutDirect(d: Disk, i: nat, k: nat, b: nat, x: Block): Disk
    requires i < INO_COUNT && k < 22 && b < DATA_COUNT
  {
    Disk(d.bm[b := true],
         d.ino[i := d.ino[i].(blocks := d.ino[i].blocks[k := b])],
         d.dat[b := x])
  }

  lemma TakeDirect(d: Disk, own: Own, i: nat, k: nat, b: nat, x: Block)
    requires Owners(d, own) && i < INO_COUNT && k < 22 && b < DATA_COUNT && !d.bm[b]
    requires d.ino[i].kind != Free && d.ino[i].blocks[k] == NONE
    requires d.ino[i].kind == File && k >= 20 ==> x == Table(EMPTY_TABLE)
    ensures Owners(PutDirect(d, i, k, b, x), own[b := Ref(i, Direct(k))])
  {
    assert b !in own;
    WriteOwners(d, own, b, x);
    var d1 := d.(dat := d.dat[b := x]);
    var e := PutDirect(d, i, k, b, x);
    forall j, s | 0 <= j < INO_COUNT && !(j == i && s == Direct(k)) ensures Ptr(e, j, s) == Ptr(d, j, s) {
      assert Ptr(d1, j, s) == Ptr(d, j, s);
    }
    TakeOwners(d, e, own, i, Direct(k), b);
  }

  /** The disk after free block b is recorded in entry j of the table held in block tbl. */
  function PutEntry(d: Disk, tbl: nat, j: nat, b: nat): Disk
    requires tbl < DATA_COUNT && j < 128 && b < DATA_COUNT
  {
    Disk(d.bm[b := true], d.ino, d.dat[tbl := Table(Words(d.dat[tbl])[j := b])])
  }

  lemma TableWords(p: Table128)
    ensures Words(Table(p)) == p
  {}

  /** Rewriting one entry of an indirect table moves only that pointer. */
  lemma EntryPtrs(d: Disk, own: Own, i: nat, t: nat, j: nat, b: nat, m: nat, s: Slot)
    requires Owners(d, own) && i < INO_COUNT && m < INO_COUNT && t < 2 && j < 128 && b < DATA_COUNT
    requires d.ino[i].kind == File && d.ino[i].blocks[20 + t] < DATA_COUNT
    requires d.dat[d.ino[i].blocks[20 + t]].Table?
    ensures Ptr(PutEntry(d, d.ino[i].blocks[20 + t], j, b), m, s)
            == if m == i && s == Entry(t, j) then b else Ptr(d, m, s)
  {
    hide Words;
    var tbl := d.ino[i].blocks[20 + t];
    TableWords(Words(d.dat[tbl])[j := b]);
    assert Ptr(d, i, Direct(20 + t)) == tbl;
    if s.Entry? && ValidSlot(s) && d.ino[m].kind == File {
      assert Ptr(d, m, Direct(20 + s.t)) == d.ino[m].blocks[20 + s.t];
    }
  }

  lemma TakeEntry(d: Disk, own: Own, i: nat, t: nat, j: nat, b: nat)
    requires Owners(d, own) && i < INO_COUNT && t < 2 && j < 128 && b < DATA_COUNT && !d.bm[b]
    requires d.ino[i].kind == File && d.ino[i].blocks[20 + t] < DATA_COUNT
    requires d.dat[d.ino[i].blocks[20 + t]].Table? && d.dat[d.ino[i].blocks[20 + t]].ptrs[j] == NONE
    ensures Owners(PutEntry(d, d.ino[i].blocks[20 + t], j, b), own[b := Ref(i, Entry(t, j))])
  {
    var e := PutEntry(d, d.ino[i].blocks[20 + t], j, b);
    forall m, s | 0 <= m < INO_COUNT
      ensures Ptr(e, m, s) == if m == i && s == Entry(t, j) then b else Ptr(d, m, s)
    {
      EntryPtrs(d, own, i, t, j, b, m, s);
    }
    TakeOwners(d, e, own, i, Entry(t, j), b);
  }

  // ---- releasing blocks ----

  /** b is one of the block numbers that inode_free_blocks clears for n. */
  ghost predicate Frees(dat: DataArea, n: Inode, b: nat) {
    || (exists k :: 0 <= k < 20 && n.blocks[k] == b)
    || FreesTable(dat, n, 0, b) || FreesTable(dat, n, 1, b)
  }

  ghost predicate FreesTable(dat: DataArea, n: Inode, t: nat, b: nat)
    requires t < 2
  {
    var tbl := n.blocks[20 + t];
    tbl < DATA_COUNT && (b == tbl || b in Words(dat[tbl]))
  }

  /** blocks[20..21] are unused or hold indirect tables. */
  predicate TablesOnly(n: Inode) {
    n.kind == File || (n.blocks[20] == NONE && n.blocks[21] == NONE)
  }

  lemma FreesImpliesOwned(d: Disk, own: Own, i: nat, b: nat) returns (s: Slot)
    requires i < INO_COUNT && b < DATA_COUNT
    requires d.ino[i].kind != Free && TablesOnly(d.ino[i])
    requires Frees(d.dat, d.ino[i], b)
    ensures Ptr(d, i, s) == b
  {
    var n := d.ino[i];
    if k :| 0 <= k < 20 && n.blocks[k] == b {
      s := Direct(k);
    } else {
      var t := if FreesTable(d.dat, n, 0, b) then 0 else 1;
      if b == n.blocks[20 + t] {
        s := Direct(20 + t);
      } else {
        var j :| 0 <= j < 128 && Words(d.dat[n.blocks[20 + t]])[j] == b;
        s := Entry(t, j);
      }
    }
  }

  lemma OwnedImpliesFrees(d: Disk, i: nat, s: Slot)
    requires i < INO_COUNT && TablesOnly(d.ino[i]) && Ptr(d, i, s) < DATA_COUNT
    ensures Frees(d.dat, d.ino[i], Ptr(d, i, s))
  {
    hide Words;
    if s.Entry? {
      assert FreesTable(d.dat, d.ino[i], s.t, Ptr(d, i, s));
    } else if s.i >= 20 {
      assert FreesTable(d.dat, d.ino[i], s.i - 20, Ptr(d, i, s));
    }
  }

  /** For such an inode, inode_free_blocks clears exactly the blocks it owns. */
  lemma FreesOwned(d: Disk, own: Own, i: nat, b: nat)
    requires Owners(d, own) && i < INO_COUNT && b < DATA_COUNT
    requires d.ino[i].kind != Free && TablesOnly(d.ino[i])
    ensures Frees(d.dat, d.ino[i], b) <==> b in own && own[b].ino == i
  {
    if Frees(d.dat, d.ino[i], b) {
      var s := FreesImpliesOwned(d, own, i, b);
      assert Ptr(d, i, s) in own;
    }
    if b in own && own[b].ino == i { OwnedImpliesFrees(d, i, own[b].slot); }
  }

  ghost function Without(own: Own, i: nat): Own { map b | b in own && own[b].ino != i :: own[b] }

  /** Releasing all blocks of inode i, and giving it an inode without blocks. */
  lemma ReleaseOwners(d: Disk, own: Own, i: nat, bm': Bitmap, n': Inode)
    requires Owners(d, own) && i < INO_COUNT && d.ino[i].kind != Free && TablesOnly(d.ino[i])
    requires forall b {:trigger bm'[b]} :: 0 <= b < DATA_COUNT ==> (bm'[b] <==> d.bm[b] && !Frees(d.dat, d.ino[i], b))
    requires n'.kind == Free || n'.blocks == NO_BLOCKS
    ensures Owners(Disk(bm', d.ino[i := n'], d.dat), Without(own, i))
  {
    hide Frees, TablesOnly;
    var e := Disk(bm', d.ino[i := n'], d.dat);
    var own' := Without(own, i);
    forall b | 0 <= b < DATA_COUNT ensures bm'[b] <==> b in own' { FreesOwned(d, own, i, b); }
    forall s ensures Ptr(e, i, s) == NONE {}
    forall j, s | 0 <= j < INO_COUNT && Ptr(e, j, s) != NONE
      ensures Ptr(e, j, s) in own' && own'[Ptr(e, j, s)] == Ref(j, s)
    {
      assert Ptr(e, j, s) == Ptr(d, j, s);
    }
    forall b | b in own'
      ensures b < DATA_COUNT && own'[b].ino < INO_COUNT && Ptr(e, own'[b].ino, own'[b].slot) == b
    {
      assert own'[b] == own[b];
      assert Ptr(e, own[b].ino, own[b].slot) == Ptr(d, own[b].ino, own[b].slot);
    }
  }
}
