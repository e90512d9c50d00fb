/** Writing one directory entry, and growing a directory by one slot. */
module FsDirs {
  import opened FsModel
  import opened FsBlocks

  /** The disk after entry k of directory p is overwritten. */
  function PutSlot(d: Disk, p: nat, k: nat, e: DirEntry): Disk
    requires p < INO_COUNT && k < 264 && d.ino[p].blocks[k / 12] < DATA_COUNT
    requires d.dat[d.ino[p].blocks[k / 12]].Entries?
  {
    var b := d.ino[p].blocks[k / 12];
    d.(dat := d.dat[b := Entries(d.dat[b].slots[k % 12 := e])])
  }

  lemma DirBlock(dat: DataArea, n: Inode, k: nat)
    requires DirOk(dat, n) && k < Used(n)
    ensures k / 12 < 22 && n.blocks[k / 12] < DATA_COUNT && dat[n.blocks[k / 12]].Entries?
  {}

  /** Overwriting one entry changes that entry and nothing else. */
  lemma PutSlotOk(d: Disk, own: Own, p: nat, k: nat, e: DirEntry)
    requires Owners(d, own) && NodesOk(d) && IsDir(d, p) && k < Used(d.ino[p])
    requires k < 264 && d.ino[p].blocks[k / 12] < DATA_COUNT && d.dat[d.ino[p].blocks[k / 12]].Entries?
    ensures Owners(PutSlot(d, p, k, e), own) && NodesOk(PutSlot(d, p, k, e))
    ensures OthersKept(own, p, d.dat, PutSlot(d, p, k, e).dat)
    ensures forall m {:trigger DirSlot(PutSlot(d, p, k, e), p, m)} :: 0 <= m < Used(d.ino[p]) ==>
      DirSlot(PutSlot(d, p, k, e), p, m) == if m == k then e else DirSlot(d, p, m)
  {
    var b := d.ino[p].blocks[k / 12];
    assert Ptr(d, p, Direct(k / 12)) == b;
    var d' := PutSlot(d, p, k, e);
    WriteOwners(d, own, b, d'.dat[b]);
    OthersView(d, own, p, d');
    var n := d.ino[p];
    assert DirOk(d'.dat, n);
    forall m | 0 <= m < Used(n) ensures DirSlot(d', p, m) == if m == k then e else DirSlot(d, p, m) {
      PutSlotOther(d, own, p, k, e, m);
    }
  }

  lemma PutSlotOther(d: Disk, own: Own, p: nat, k: nat, e: DirEntry, m: nat)
    requires Owners(d, own) && IsDir(d, p) && DirOk(d.dat, d.ino[p]) && k < Used(d.ino[p]) && m < Used(d.ino[p])
    requires k < 264 && d.ino[p].blocks[k / 12] < DATA_COUNT && d.dat[d.ino[p].blocks[k / 12]].Entries?
    ensures DirSlot(PutSlot(d, p, k, e), p, m) == if m == k then e else DirSlot(d, p, m)
  {
    var n := d.ino[p];
    DirBlock(d.dat, n, m);
    assert Ptr(d, p, Direct(k / 12)) == n.blocks[k / 12];
    assert Ptr(d, p, Direct(m / 12)) == n.blocks[m / 12];
    assert m / 12 == k / 12 && m % 12 == k % 12 ==> m == k;
  }

  /** Inode p with one more slot of size. */
  function Widen(d: Disk, p: nat): Disk
    requires p < INO_COUNT
  {
    d.(ino := d.ino[p := d.ino[p].(size := d.ino[p].size + 40)])
  }

  lemma WidenOwners(d: Disk, own: Own, p: nat)
    requires p < INO_COUNT && Owners(d, own)
    ensures Owners(Widen(d, p), own)
  {
    forall i, s | 0 <= i < INO_COUNT ensures Ptr(Widen(d, p), i, s) == Ptr(d, i, s) {}
    assert forall b :: b in own ==> Ptr(Widen(d, p), own[b].ino, own[b].slot) == Ptr(d, own[b].ino, own[b].slot);
  }

  /** Widening in place, when the last block still has room. */
  lemma WidenOk(d: Disk, own: Own, p: nat)
    requires Owners(d, own) && NodesOk(d) && IsDir(d, p)
    requires Used(d.ino[p]) / 12 < 22 && d.ino[p].blocks[Used(d.ino[p]) / 12] != NONE
    ensures Owners(Widen(d, p), own) && NodesOk(Widen(d, p))
    ensures Used(Widen(d, p).ino[p]) == Used(d.ino[p]) + 1
    ensures forall m :: 0 <= m < Used(d.ino[p]) ==> DirSlot(Widen(d, p), p, m) == DirSlot(d, p, m)
  {
    WidenOwners(d, own, p);
    var n, n' := d.ino[p], Widen(d, p).ino[p];
    assert Used(n') == Used(n) + 1 && n'.size % 40 == 0;
    assert 12 * (Used(n) / 12) < Used(n);
    assert DirOk(d.dat, n');
    forall i | 0 <= i < INO_COUNT ensures NodeOk(d.dat, Widen(d, p).ino[i]) {
      assert NodeOk(d.dat, d.ino[i]);
    }
  }

  /** The directory after widening into the new block b: its old slots are where they were. */
  lemma GrowDir(d: Disk, own: Own, p: nat, b: nat)
    requires Owners(d, own) && NodesOk(d) && IsDir(d, p) && b < DATA_COUNT && b !in own
    requires Used(d.ino[p]) / 12 < 22 && d.ino[p].blocks[Used(d.ino[p]) / 12] == NONE
    ensures var e := Widen(PutDirect(d, p, Used(d.ino[p]) / 12, b, Entries(EMPTY_SLOTS)), p);
      && NodeOk(e.dat, e.ino[p]) && Used(e.ino[p]) == Used(d.ino[p]) + 1
      && (forall m :: 0 <= m < Used(d.ino[p]) ==> DirSlot(e, p, m) == DirSlot(d, p, m))
  {
    var n := d.ino[p];
    var e := Widen(PutDirect(d, p, Used(n) / 12, b, Entries(EMPTY_SLOTS)), p);
    var n' := e.ino[p];
    assert Used(n') == Used(n) + 1 && n'.size % 40 == 0;
    assert 12 * (Used(n) / 12) >= Used(n);
    forall j | 0 <= j < 22 && 12 * j < Used(n) ensures n.blocks[j] != b && n'.blocks[j] == n.blocks[j] {
      assert Ptr(d, p, Direct(j)) == n.blocks[j];
    }
    assert DirOk(e.dat, n');
  }

  /** Widening into the new block b, zeroed first. */
  lemma GrowOk(d: Disk, own: Own, p: nat, b: nat)
    requires Owners(d, own) && NodesOk(d) && IsDir(d, p) && b < DATA_COUNT && !d.bm[b]
    requires Used(d.ino[p]) / 12 < 22 && d.ino[p].blocks[Used(d.ino[p]) / 12] == NONE
    ensures var blk := Used(d.ino[p]) / 12;
      var e := Widen(PutDirect(d, p, blk, b, Entries(EMPTY_SLOTS)), p);
      && Owners(e, own[b := Ref(p, Direct(blk))]) && NodesOk(e)
      && OthersKept(own, p, d.dat, e.dat) && OthersOwned(own, own[b := Ref(p, Direct(blk))], p)
      && Used(e.ino[p]) == Used(d.ino[p]) + 1
      && (forall m :: 0 <= m < Used(d.ino[p]) ==> DirSlot(e, p, m) == DirSlot(d, p, m))
  {
    hide DirOk, Ptr;
    var blk := Used(d.ino[p]) / 12;
    var x := Entries(EMPTY_SLOTS);
    var d1 := PutDirect(d, p, blk, b, x);
    assert b !in own;
    TakeDirect(d, own, p, blk, b, x);
    WidenOwners(d1, own[b := Ref(p, Direct(blk))], p);
    OthersView(d, own, p, Widen(d1, p));
    GrowDir(d, own, p, b);
  }
}
