/** The physical memory manager: one bit per 4 KiB frame, with single and contiguous allocation. */
module Pmm {
  import opened Bits

  const PAGE := 4096

  class FrameMap {
    const base: nat
    const nframes: nat
    var bits: seq<bool>
    var freeFrames: nat

    /** The counter is the number of clear bits. */
    ghost predicate Valid()
      reads this
    {
      0 < base && |bits| == nframes && freeFrames == FreeCount(bits)
    }

    /** Frame address of bit i. */
    function FrameOf(i: nat): nat { base + PAGE * i }

    function IndexOf(f: nat): int { (f - base) / PAGE }

    /** f is the address of a managed frame that is allocated. */
    ghost predicate Marked(f: nat)
      reads this
    {
      base <= f && IndexOf(f) < |bits| && f == FrameOf(IndexOf(f)) && bits[IndexOf(f)]
    }

    /** pmm_init after the map itself has been placed. */
    constructor (b: nat, n: nat)
      requires 0 < b
      ensures Valid() && base == b && nframes == n && freeFrames == n
      ensures forall i :: 0 <= i < n ==> !bits[i]
    {
      base, nframes := b, n;
      bits := seq(n, _ => false);
      freeFrames := n;
      new;
      AllClear(bits);
    }

    /** pmm_alloc_frame: the lowest free frame, or 0 when there is none. */
    method AllocFrame() returns (f: nat, ghost i: nat)
      requires Valid()
      modifies this`bits, this`freeFrames
      ensures Valid()
      ensures f == 0 <==> old(freeFrames) == 0
      ensures f == 0 ==> bits == old(bits)
      ensures f != 0 ==> i < |old(bits)| && !old(bits)[i] && f == FrameOf(i) && bits == old(bits)[i := true]
      ensures f != 0 ==> f == base + 4096 * i && forall k :: 0 <= k < i ==> old(bits)[k]
      ensures f != 0 ==> freeFrames + 1 == old(freeFrames) && !old(Marked(f)) && Marked(f)
      ensures forall g: nat {:trigger Marked(g)} :: g != f ==> (Marked(g) <==> old(Marked(g)))
    {
      i := 0;
      var j := 0;
      while j < nframes
        invariant 0 <= j <= nframes && bits == old(bits) && freeFrames == old(freeFrames)
        invariant forall k :: 0 <= k < j ==> bits[k]
      {
        if !bits[j] {
          FreeCountSet(bits, j);
          bits := bits[j := true];
          freeFrames := freeFrames - 1;
          return FrameOf(j), j;
        }
        j := j + 1;
      }
      FreeCountFull(bits);
      return 0, 0;
    }

    /** f lies in no managed frame. */
    predicate Outside(f: nat) { f < base || f >= base + nframes * PAGE }

    /** pmm_free_frame: an address outside is ignored; inside, the bit is cleared and the counter
        raised, which is right exactly when the frame was allocated. */
    method FreeFrame(f: nat)
      requires Valid()
      modifies this`bits, this`freeFrames
      ensures Outside(f) ==> bits == old(bits) && freeFrames == old(freeFrames)
      ensures !Outside(f) ==>
        0 <= IndexOf(f) < nframes && bits == old(bits)[IndexOf(f) := false] && freeFrames == old(freeFrames) + 1
      ensures f < base || f >= base + 4096 * nframes ==> bits == old(bits) && freeFrames == old(freeFrames)
      ensures base <= f < base + 4096 * nframes ==> bits == old(bits)[(f - base) / 4096 := false]
      ensures Valid() <==> Outside(f) || old(bits)[IndexOf(f)]
      ensures old(Marked(f)) ==> !Marked(f) && !Outside(f)
      ensures forall g: nat {:trigger Marked(g)} :: old(Marked(f)) && g != f ==> (Marked(g) <==> old(Marked(g)))
    {
      if f < base || f >= base + nframes * PAGE { return; }
      var idx := (f - base) / PAGE;
      if bits[idx] { FreeCountClear(bits, idx); } else { assert bits[idx := false] == bits; }
      bits := bits[idx := false];
      freeFrames := freeFrames + 1;
    }

    /** range_mark: sets or clears n bits from i on, whatever they were. */
    method RangeMark(i: nat, n: nat, used: bool)
      requires |bits| == nframes && i + n <= nframes
      modifies this`bits
      ensures bits == Marking(old(bits), i, n, used)
    {
      var j := 0;
      while j < n
        invariant 0 <= j <= n && bits == Marking(old(bits), i, j, used)
      {
        bits := bits[i + j := used];
        j := j + 1;
      }
    }

    /** pmm_free_range: a range that leaves the map is ignored; inside, the bits are cleared and the
        counter raised by n, which is right exactly when every frame was allocated. */
    method FreeRange(p: nat, n: nat)
      requires Valid()
      modifies this`bits, this`freeFrames
      ensures RangeOutside(p, n) ==> bits == old(bits) && freeFrames == old(freeFrames)
      ensures !RangeOutside(p, n) ==> 0 <= IndexOf(p) && IndexOf(p) + n <= nframes
      ensures !RangeOutside(p, n) ==>
        bits == Marking(old(bits), IndexOf(p), n, false) && freeFrames == old(freeFrames) + n
      ensures Valid() <==> (RangeOutside(p, n) || forall k :: IndexOf(p) <= k < IndexOf(p) + n ==> old(bits)[k])
    {
      if n == 0 { return; }
      if p < base || p + n * PAGE > base + nframes * PAGE { return; }
      var i := (p - base) / PAGE;
      ClearCount(bits, i, n);
      RangeMark(i, n, false);
      freeFrames := freeFrames + n;
    }

    /** The call frees nothing. */
    predicate RangeOutside(p: nat, n: nat)
      ensures !RangeOutside(p, n) ==> 0 <= IndexOf(p) && IndexOf(p) + n <= nframes
    {
      n == 0 || p < base || p + n * PAGE > base + nframes * PAGE
    }

    /** Giving back a range just taken restores the map. */
    method TakeAndReturn(n: nat) returns (p: nat)
      requires Valid()
      modifies this`bits, this`freeFrames
      ensures Valid() && bits == old(bits) && freeFrames == old(freeFrames)
    {
      ghost var i;
      p, i := AllocRange(n);
      if p != 0 {
        assert IndexOf(p) == i;
        FreeRange(p, n);
        assert bits == old(bits);
      }
    }

    /** pmm_alloc_range: the first n contiguous free frames; 0 only when no such run exists. */
    method AllocRange(n: nat) returns (p: nat, ghost i: nat)
      requires Valid()
      modifies this`bits, this`freeFrames
      ensures Valid()
      ensures p == 0 <==> n == 0 || !exists k :: FreeRun(old(bits), k, n)
      ensures p == 0 ==> bits == old(bits)
      ensures p != 0 ==> FreeRun(old(bits), i, n) && p == FrameOf(i) && bits == Marking(old(bits), i, n, true)
      ensures p != 0 ==> freeFrames == old(freeFrames) - n && p == base + 4096 * i
      ensures p != 0 ==> forall k :: FreeRun(old(bits), k, n) ==> i <= k
    {
      i := 0;
      if n == 0 { return 0, 0; }
      var run := 0;
      var j := 0;
      while j <= nframes
        invariant 0 <= j <= nframes + 1 && 0 <= run <= j && bits == old(bits) && freeFrames == old(freeFrames)
        invariant j <= nframes ==> (forall k :: j - run <= k < j ==> !bits[k]) && (run < j ==> bits[j - run - 1])
        invariant forall k :: FreeRun(bits, k, n) ==> j <= nframes && j - run <= k
      {
        if j < nframes && !bits[j] {
          run := run + 1;
          j := j + 1;
          continue;
        }
        if run >= n {
          i := j - run;
          p := FrameOf(j - run);
          assert FreeRun(bits, i, n);
          SetCount(bits, i, n);
          RangeMark(j - run, n, true);
          freeFrames := freeFrames - n;
          return;
        }
        run := 0;
        j := j + 1;
      }
      return 0, 0;
    }
  }

  /** The n bits from k on are clear. */
  ghost predicate FreeRun(bits: seq<bool>, k: nat, n: nat) {
    k + n <= |bits| && forall m :: k <= m < k + n ==> !bits[m]
  }

  /** n bits from i on set to used. */
  function Marking(bits: seq<bool>, i: nat, n: nat, used: bool): (r: seq<bool>)
    requires i + n <= |bits|
    ensures |r| == |bits| && forall k :: 0 <= k < |bits| ==> r[k] == if i <= k < i + n then used else bits[k]
  {
    seq(|bits|, (k: nat) requires k < |bits| => if i <= k < i + n then used else bits[k])
  }

  /** Clearing a range gains one free frame for each bit that was set, so n exactly when all were. */
  lemma {:induction false} ClearCount(bits: seq<bool>, i: nat, n: nat)
    requires i + n <= |bits|
    ensures FreeCount(Marking(bits, i, n, false)) <= FreeCount(bits) + n
    ensures FreeCount(Marking(bits, i, n, false)) == FreeCount(bits) + n <==> forall k :: i <= k < i + n ==> bits[k]
    decreases n
  {
    if n == 0 {
      assert Marking(bits, i, 0, false) == bits;
    } else {
      ClearCount(bits, i, n - 1);
      var m := Marking(bits, i, n - 1, false);
      assert Marking(bits, i, n, false) == m[i + n - 1 := false];
      if bits[i + n - 1] { FreeCountClear(m, i + n - 1); } else { assert m[i + n - 1 := false] == m; }
    }
  }

  lemma {:induction false} SetCount(bits: seq<bool>, i: nat, n: nat)
    requires FreeRun(bits, i, n)
    ensures FreeCount(Marking(bits, i, n, true)) + n == FreeCount(bits)
    decreases n
  {
    if n == 0 {
      assert Marking(bits, i, 0, true) == bits;
    } else {
      SetCount(bits, i, n - 1);
      var m := Marking(bits, i, n - 1, true);
      assert Marking(bits, i, n, true) == m[i + n - 1 := true];
      FreeCountSet(m, i + n - 1);
    }
  }

  lemma {:induction false} AllClear(bits: seq<bool>)
    requires forall i :: 0 <= i < |bits| ==> !bits[i]
    ensures FreeCount(bits) == |bits|
    decreases |bits|
  {
    if |bits| > 0 { AllClear(bits[..|bits| - 1]); }
  }

  /** A frame given back twice: the counter then says there is one frame more than there are. */
  method FreedTwice(b: nat, n: nat) returns (m: FrameMap)
    requires 0 < b && 0 < n
    ensures !m.Valid() && m.freeFrames == n + 1 && |m.bits| == n
  {
    m := new FrameMap(b, n);
    var f, i := m.AllocFrame();
    m.FreeFrame(f);
    m.FreeFrame(f);
  }
}
