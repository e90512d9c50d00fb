/** Allocation bitmaps: counting their clear bits. */
module Bits {

  /** Number of clear bits. */
  ghost function FreeCount(bm: seq<bool>): nat {
    if |bm| == 0 then 0 else FreeCount(bm[..|bm| - 1]) + if bm[|bm| - 1] then 0 else 1
  }

  lemma {:induction false} FreeCountSet(bm: seq<bool>, i: nat)
    requires i < |bm| && !bm[i]
    ensures FreeCount(bm) == FreeCount(bm[i := true]) + 1
    decreases |bm|
  {
    var n := |bm| - 1;
    if i == n {
      assert bm[i := true][..n] == bm[..n];
    } else {
      assert bm[i := true][..n] == bm[..n][i := true];
      FreeCountSet(bm[..n], i);
    }
  }

  lemma {:induction false} FreeCountFull(bm: seq<bool>)
    requires forall i :: 0 <= i < |bm| ==> bm[i]
    ensures FreeCount(bm) == 0
    decreases |bm|
  {
    if |bm| > 0 { FreeCountFull(bm[..|bm| - 1]); }
  }

  /** Set bits and clear bits make up the bitmap. */
  lemma {:induction false} FreeCountKeys(bm: seq<bool>, keys: set<nat>)
    requires forall b: nat :: b in keys <==> b < |bm| && bm[b]
    ensures FreeCount(bm) + |keys| == |bm|
    decreases |bm|
  {
    if |bm| == 0 {
      assert keys == {};
    } else {
      var n: nat := |bm| - 1;
      FreeCountKeys(bm[..n], keys - {n});
      assert |keys - {n}| == |keys| - if n in keys then 1 else 0;
    }
  }

  lemma {:induction false} FreeCountClear(bm: seq<bool>, i: nat)
    requires i < |bm| && bm[i]
    ensures FreeCount(bm[i := false]) == FreeCount(bm) + 1
  {
    FreeCountSet(bm[i := false], i);
    assert bm[i := false][i := true] == bm;
  }
}
