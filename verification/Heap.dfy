/** The kernel heap: a first-fit, address-sorted, coalescing free list threaded through the
    headers of the free blocks. */
module Heap {

  const HDR := 16
  const MIN_BLOCK := 32
  const WORD := 0x1_0000_0000_0000_0000

  datatype Blk = Blk(addr: nat, size: nat)

  function End(b: Blk): nat { b.addr + b.size }

  predicate Aligned(n: int) { n % 8 == 0 }

  // ---- the request size ----

  function Align8(n: nat): nat { (n + 7) % WORD / 8 * 8 }

  /** The block size kmalloc asks for, in 64-bit arithmetic. */
  function Need(n: nat): nat {
    var m := Align8(if n == 0 then 1 else n);
    (HDR + if m < 8 then 8 else m) % WORD
  }

  lemma NeedAligned(n: nat)
    requires n < WORD
    ensures Aligned(Need(n))
  {}

  /** A request keeps room for its header exactly when the 64-bit sum does not wrap. */
  lemma NeedIff(n: nat)
    requires n < WORD
    ensures n <= WORD - 24 ==> Need(n) >= HDR + n && Need(n) >= 24 && Aligned(Need(n)) && Need(n) < HDR + n + 9
    ensures n <= WORD - 24 ==> Need(n) == 16 + if n <= 8 then 8 else (n + 7) / 8 * 8
    ensures WORD - 24 < n <= WORD - 8 ==> Need(n) < HDR
    ensures WORD - 8 < n ==> Need(n) == 24
  {}

  // ---- lists of blocks ----

  ghost function Sum(fl: seq<Blk>): nat { if fl == [] then 0 else fl[0].size + Sum(fl[1..]) }

  lemma {:induction false} SumConcat(a: seq<Blk>, b: seq<Blk>)
    ensures Sum(a + b) == Sum(a) + Sum(b)
  {
    if a == [] {
      assert a + b == b;
    } else {
      assert (a + b)[1..] == a[1..] + b;
      SumConcat(a[1..], b);
    }
  }

  /** Replacing the stretch fl[i..j] by mid. */
  function Splice(fl: seq<Blk>, i: nat, j: nat, mid: seq<Blk>): seq<Blk>
    requires i <= j <= |fl|
  {
    fl[..i] + mid + fl[j..]
  }

  lemma SumSplice(fl: seq<Blk>, i: nat, j: nat, mid: seq<Blk>)
    requires i <= j <= |fl|
    ensures Sum(Splice(fl, i, j, mid)) + Sum(fl[i..j]) == Sum(fl) + Sum(mid)
  {
    SumConcat(fl[..i] + mid, fl[j..]);
    SumConcat(fl[..i], mid);
    assert fl == fl[..i] + fl[i..j] + fl[j..];
    SumConcat(fl[..i] + fl[i..j], fl[j..]);
    SumConcat(fl[..i], fl[i..j]);
  }

  ghost function SumMap(m: map<nat, nat>): nat {
    if m == map[] then 0 else var k :| k in m; m[k] + SumMap(m - {k})
  }

  lemma {:induction false} SumMapRemove(m: map<nat, nat>, a: nat)
    requires a in m
    ensures SumMap(m) == m[a] + SumMap(m - {a})
    decreases |m|
  {
    var k :| k in m && SumMap(m) == m[k] + SumMap(m - {k});
    if k != a {
      SumMapRemove(m - {k}, a);
      SumMapRemove(m - {a}, k);
      assert m - {k} - {a} == m - {a} - {k};
    }
  }

  lemma SumMapAdd(m: map<nat, nat>, a: nat, v: nat)
    requires a !in m
    ensures SumMap(m[a := v]) == SumMap(m) + v
  {
    SumMapRemove(m[a := v], a);
    assert m[a := v] - {a} == m;
  }

  // ---- geometry ----

  /** Strictly sorted by address, no two blocks touching, all inside [lo, hi). */
  ghost predicate Sorted(fl: seq<Blk>, lo: nat, hi: nat) {
    && (forall i {:trigger fl[i]} :: 0 <= i < |fl| ==>
          lo <= fl[i].addr && End(fl[i]) <= hi && fl[i].size >= 24 && Aligned(fl[i].addr) && Aligned(fl[i].size))
    && (forall i, j {:trigger fl[i], fl[j]} :: 0 <= i < j < |fl| ==> End(fl[i]) < fl[j].addr)
  }

  /** Two stretches of memory do not meet. */
  predicate Apart(a: Blk, b: Blk) { End(a) <= b.addr || End(b) <= a.addr }

  /** Live blocks lie in the arena, apart from each other and from the free ones. */
  ghost predicate LiveOk(fl: seq<Blk>, live: map<nat, nat>, lo: nat, hi: nat) {
    && (forall a {:trigger live[a]} :: a in live ==>
          lo <= a && a + live[a] <= hi && live[a] >= 24 && Aligned(a) && Aligned(live[a]))
    && (forall a, b {:trigger live[a], live[b]} :: a in live && b in live && a != b ==>
          Apart(Blk(a, live[a]), Blk(b, live[b])))
    && (forall a, i {:trigger live[a], fl[i]} :: a in live && 0 <= i < |fl| ==> Apart(Blk(a, live[a]), fl[i]))
  }

  /** Each block of mid lies inside the stretch that fl[i..j] used to span. */
  lemma SortedSplice(fl: seq<Blk>, lo: nat, hi: nat, i: nat, j: nat, mid: seq<Blk>)
    requires i <= j <= |fl| && Sorted(fl, lo, hi) && Sorted(mid, lo, hi)
    requires forall k, m {:trigger fl[k], mid[m]} :: 0 <= k < i && 0 <= m < |mid| ==> End(fl[k]) < mid[m].addr
    requires forall k, m {:trigger fl[k], mid[m]} :: j <= k < |fl| && 0 <= m < |mid| ==> End(mid[m]) < fl[k].addr
    ensures Sorted(Splice(fl, i, j, mid), lo, hi)
  {
    hide Splice;
    var r := Splice(fl, i, j, mid);
    forall k, m | 0 <= k < m < |r| ensures End(r[k]) < r[m].addr {
      SpliceAt(fl, i, j, mid, k);
      SpliceAt(fl, i, j, mid, m);
    }
    forall k | 0 <= k < |r|
      ensures lo <= r[k].addr && End(r[k]) <= hi && r[k].size >= 24 && Aligned(r[k].addr) && Aligned(r[k].size)
    {
      SpliceAt(fl, i, j, mid, k);
    }
  }

  // ---- the chain in memory ----

  function Addr(fl: seq<Blk>, i: nat): nat { if i < |fl| then fl[i].addr else 0 }

  /** The header of the i-th free block: its size, and the address of the next one. */
  ghost predicate Header(sz: map<nat, nat>, nx: map<nat, nat>, fl: seq<Blk>, i: nat)
    requires i < |fl|
  {
    && fl[i].addr in sz && sz[fl[i].addr] == fl[i].size
    && fl[i].addr in nx && nx[fl[i].addr] == Addr(fl, i + 1)
  }

  /** head, sz and nx hold exactly the list fl; 0 is the null pointer. */
  ghost predicate Chain(head: nat, sz: map<nat, nat>, nx: map<nat, nat>, fl: seq<Blk>) {
    head == Addr(fl, 0) && forall i {:trigger Header(sz, nx, fl, i)} :: 0 <= i < |fl| ==> Header(sz, nx, fl, i)
  }

  lemma HeaderAt(head: nat, sz: map<nat, nat>, nx: map<nat, nat>, fl: seq<Blk>, i: nat)
    requires Chain(head, sz, nx, fl) && i < |fl|
    ensures Header(sz, nx, fl, i)
  {}

  /** The headers outside fl[i..j] are as before, except for the next field just before it. */
  ghost predicate OnlyAround(sz: map<nat, nat>, nx: map<nat, nat>, sz': map<nat, nat>, nx': map<nat, nat>,
    fl: seq<Blk>, i: nat, j: nat)
    requires i <= j <= |fl|
  {
    forall k {:trigger fl[k]} :: (0 <= k < i || j <= k < |fl|) && fl[k].addr in sz && fl[k].addr in nx ==>
      && fl[k].addr in sz' && sz'[fl[k].addr] == sz[fl[k].addr]
      && (k != i - 1 ==> fl[k].addr in nx' && nx'[fl[k].addr] == nx[fl[k].addr])
  }

  /** Editing the pointers around fl[i..j] so that they thread the blocks of mid instead. */
  lemma ChainSplice(head: nat, sz: map<nat, nat>, nx: map<nat, nat>, fl: seq<Blk>, i: nat, j: nat, mid: seq<Blk>,
                    head': nat, sz': map<nat, nat>, nx': map<nat, nat>)
    requires Chain(head, sz, nx, fl) && i <= j <= |fl| && |mid| <= 1
    requires OnlyAround(sz, nx, sz', nx', fl, i, j)
    requires var first := if mid == [] then Addr(fl, j) else mid[0].addr;
      if i == 0 then head' == first else head' == head && fl[i - 1].addr in nx' && nx'[fl[i - 1].addr] == first
    requires mid != [] ==> mid[0].addr in sz' && sz'[mid[0].addr] == mid[0].size
    requires mid != [] ==> mid[0].addr in nx' && nx'[mid[0].addr] == Addr(fl, j)
    ensures Chain(head', sz', nx', Splice(fl, i, j, mid))
  {
    var r := Splice(fl, i, j, mid);
    var n := |mid|;
    forall k | 0 <= k < |r| ensures Header(sz', nx', r, k) {
      if k < i {
        assert Header(sz, nx, fl, k);
        assert r[k] == fl[k];
        assert k + 1 < i ==> r[k + 1] == fl[k + 1];
      } else if k >= i + n {
        var m := k - i - n + j;
        assert Header(sz, nx, fl, m);
        assert r[k] == fl[m];
        assert m + 1 < |fl| ==> r[k + 1] == fl[m + 1];
      } else {
        assert k + 1 < |r| ==> r[k + 1] == fl[j];
      }
    }
  }

  /** Sizes stored outside [from, to) are as before. */
  ghost predicate KeptOutside(sz: map<nat, nat>, sz': map<nat, nat>, from: nat, to: nat) {
    forall a {:trigger a in sz'} {:trigger sz'[a]} :: a in sz && !(from <= a < to) ==> a in sz' && sz'[a] == sz[a]
  }

  /** What is left of a free block after need bytes are taken from its front. */
  function Rest(b: Blk, need: nat): seq<Blk>
    requires need <= b.size
  {
    if b.size - need >= MIN_BLOCK then [Blk(b.addr + need, b.size - need)] else []
  }

  lemma Mod8(a: int, b: int)
    requires Aligned(a) && Aligned(b)
    ensures Aligned(a + b) && Aligned(a - b)
  {}

  lemma CarveSorted(fl: seq<Blk>, lo: nat, hi: nat, i: nat, need: nat)
    requires Sorted(fl, lo, hi) && i < |fl| && need <= fl[i].size && Aligned(need)
    ensures Sorted(Splice(fl, i, i + 1, Rest(fl[i], need)), lo, hi)
    ensures forall k {:trigger fl[k]} :: 0 <= k < |fl| && k != i ==> fl[k].addr < fl[i].addr || fl[k].addr > End(fl[i])
  {
    Mod8(fl[i].addr, need);
    Mod8(fl[i].size, need);
    assert Sorted(Rest(fl[i], need), lo, hi);
    SortedSplice(fl, lo, hi, i, i + 1, Rest(fl[i], need));
  }

  /** The address of the block before position i, or 0. */
  function Before(fl: seq<Blk>, i: nat): nat
    requires i <= |fl|
  {
    if i == 0 then 0 else fl[i - 1].addr
  }

  /** Memory after a store through the pointer-to-pointer that follows prev. */
  function LinkHead(head: nat, prev: nat, v: nat): nat { if prev == 0 then v else head }
  function LinkNext(nx: map<nat, nat>, prev: nat, v: nat): map<nat, nat> { if prev == 0 then nx else nx[prev := v] }

  /** Splitting free block i: the remainder takes its place in the chain. */
  lemma SplitChain(head: nat, sz: map<nat, nat>, nx: map<nat, nat>, fl: seq<Blk>, lo: nat, hi: nat, i: nat, need: nat)
    requires Chain(head, sz, nx, fl) && Sorted(fl, lo, hi) && 0 < lo && i < |fl|
    requires 0 < need < fl[i].size
    ensures fl[i].addr in nx
    ensures var b, rest := fl[i].addr, fl[i].addr + need;
      Chain(LinkHead(head, Before(fl, i), rest), sz[rest := fl[i].size - need][b := need],
            LinkNext(nx[rest := nx[b]], Before(fl, i), rest), Splice(fl, i, i + 1, [Blk(rest, fl[i].size - need)]))
  {
    var b, rest := fl[i].addr, fl[i].addr + need;
    assert Header(sz, nx, fl, i);
    assert forall k {:trigger fl[k]} :: 0 <= k < |fl| && k != i ==> fl[k].addr < b || fl[k].addr > End(fl[i]);
    assert i > 0 ==> 0 < fl[i - 1].addr;
    hide Sorted;
    ChainSplice(head, sz, nx, fl, i, i + 1, [Blk(rest, fl[i].size - need)],
                LinkHead(head, Before(fl, i), rest), sz[rest := fl[i].size - need][b := need],
                LinkNext(nx[rest := nx[b]], Before(fl, i), rest));
  }

  /** Unlinking free block i. */
  lemma UnlinkChain(head: nat, sz: map<nat, nat>, nx: map<nat, nat>, fl: seq<Blk>, lo: nat, hi: nat, i: nat, need: nat)
    requires Chain(head, sz, nx, fl) && Sorted(fl, lo, hi) && 0 < lo && i < |fl|
    ensures fl[i].addr in nx
    ensures var b := fl[i].addr;
      Chain(LinkHead(head, Before(fl, i), nx[b]), sz[b := need], LinkNext(nx, Before(fl, i), nx[b]),
        Splice(fl, i, i + 1, []))
  {
    var b := fl[i].addr;
    assert Header(sz, nx, fl, i);
    assert forall k {:trigger fl[k]} :: 0 <= k < |fl| && k != i ==> fl[k].addr < b || fl[k].addr > End(fl[i]);
    assert i > 0 ==> 0 < fl[i - 1].addr;
    hide Sorted;
    ChainSplice(head, sz, nx, fl, i, i + 1, [], LinkHead(head, Before(fl, i), nx[b]), sz[b := need],
                LinkNext(nx, Before(fl, i), nx[b]));
  }

  // ---- taking and giving back ----

  /** Taking a block from the free list keeps everything apart. */
  lemma AllocLive(fl: seq<Blk>, live: map<nat, nat>, lo: nat, hi: nat, i: nat, need: nat)
    requires Sorted(fl, lo, hi) && LiveOk(fl, live, lo, hi) && i < |fl| && 24 <= need <= fl[i].size && Aligned(need)
    ensures fl[i].addr !in live
    ensures LiveOk(Splice(fl, i, i + 1, Rest(fl[i], need)), live[fl[i].addr := need], lo, hi)
  {
    hide Sorted, LiveOk, Splice, Rest;
    AllocApart(fl, live, lo, hi, i);
    var fl', live' := Splice(fl, i, i + 1, Rest(fl[i], need)), live[fl[i].addr := need];
    forall k | 0 <= k < |fl'| ensures AwayFrom(live', fl'[k]) { AllocAway(fl, live, lo, hi, i, need, k); }
    AllocBounds(fl, live, lo, hi, i, need);
    LiveOkMade(fl', live', lo, hi);
  }

  lemma LiveOkMade(fl: seq<Blk>, live: map<nat, nat>, lo: nat, hi: nat)
    requires forall a {:trigger live[a]} :: a in live ==>
      lo <= a && a + live[a] <= hi && live[a] >= 24 && Aligned(a) && Aligned(live[a])
    requires forall a, b {:trigger live[a], live[b]} :: a in live && b in live && a != b ==>
      Apart(Blk(a, live[a]), Blk(b, live[b]))
    requires forall k {:trigger fl[k]} :: 0 <= k < |fl| ==> AwayFrom(live, fl[k])
    ensures LiveOk(fl, live, lo, hi)
  {}

  /** The stretch meets no live block. */
  ghost predicate AwayFrom(live: map<nat, nat>, x: Blk) {
    forall a {:trigger live[a]} :: a in live ==> Apart(Blk(a, live[a]), x)
  }

  /** No live block meets a free one. */
  lemma AllocApart(fl: seq<Blk>, live: map<nat, nat>, lo: nat, hi: nat, i: nat)
    requires Sorted(fl, lo, hi) && LiveOk(fl, live, lo, hi) && i < |fl|
    ensures fl[i].addr !in live && fl[i].size >= 24 && lo <= fl[i].addr && End(fl[i]) <= hi && Aligned(fl[i].addr)
    ensures forall a {:trigger live[a]} :: a in live ==> Apart(Blk(a, live[a]), fl[i]) && live[a] >= 24
  {}

  lemma AllocBounds(fl: seq<Blk>, live: map<nat, nat>, lo: nat, hi: nat, i: nat, need: nat)
    requires Sorted(fl, lo, hi) && LiveOk(fl, live, lo, hi) && i < |fl| && 24 <= need <= fl[i].size && Aligned(need)
    ensures var l := live[fl[i].addr := need];
      && (forall a {:trigger l[a]} :: a in l ==> lo <= a && a + l[a] <= hi && l[a] >= 24 && Aligned(a) && Aligned(l[a]))
      && (forall a, b {:trigger l[a], l[b]} :: a in l && b in l && a != b ==> Apart(Blk(a, l[a]), Blk(b, l[b])))
  {
    hide Sorted;
    AllocApart(fl, live, lo, hi, i);
    var l := live[fl[i].addr := need];
    assert forall a {:trigger l[a]} :: a in l && a != fl[i].addr ==> a in live && l[a] == live[a];
  }

  /** What stays free after block i is carved meets neither the new block nor the old ones. */
  lemma AllocAway(fl: seq<Blk>, live: map<nat, nat>, lo: nat, hi: nat, i: nat, need: nat, k: nat)
    requires Sorted(fl, lo, hi) && LiveOk(fl, live, lo, hi) && i < |fl| && 24 <= need <= fl[i].size
    requires k < |Splice(fl, i, i + 1, Rest(fl[i], need))|
    ensures AwayFrom(live[fl[i].addr := need], Splice(fl, i, i + 1, Rest(fl[i], need))[k])
  {
    SpliceAt(fl, i, i + 1, Rest(fl[i], need), k);
    var l, x := live[fl[i].addr := need], Splice(fl, i, i + 1, Rest(fl[i], need))[k];
    forall a | a in l ensures Apart(Blk(a, l[a]), x) {
      if a != fl[i].addr { assert a in live && Apart(Blk(a, live[a]), fl[i]); }
    }
  }

  /** The header of every live block holds its size. */
  ghost predicate SizesOk(sz: map<nat, nat>, live: map<nat, nat>) {
    forall a {:trigger live[a]} :: a in live ==> a in sz && sz[a] == live[a]
  }

  lemma AllocSizes(fl: seq<Blk>, live: map<nat, nat>, lo: nat, hi: nat, i: nat, need: nat, sz: map<nat, nat>,
      sz': map<nat, nat>)
    requires LiveOk(fl, live, lo, hi) && i < |fl| && SizesOk(sz, live)
    requires KeptOutside(sz, sz', fl[i].addr, End(fl[i])) && fl[i].addr in sz' && sz'[fl[i].addr] == need
    ensures SizesOk(sz', live[fl[i].addr := need])
  {
    forall a | a in live && a != fl[i].addr ensures a in sz' && sz'[a] == live[a] {
      assert Apart(Blk(a, live[a]), fl[i]);
      assert a in sz;
    }
  }

  lemma SpliceAt(fl: seq<Blk>, i: nat, j: nat, mid: seq<Blk>, k: nat)
    requires i <= j <= |fl| && k < |Splice(fl, i, j, mid)|
    ensures Splice(fl, i, j, mid)[k]
      == if k < i then fl[k] else if k < i + |mid| then mid[k - i] else fl[k - i - |mid| + j]
    ensures |Splice(fl, i, j, mid)| == i + |mid| + (|fl| - j)
  {}

  lemma AllocSum(fl: seq<Blk>, i: nat, need: nat)
    requires i < |fl| && need <= fl[i].size
    ensures Sum(fl) == Sum(Splice(fl, i, i + 1, Rest(fl[i], need))) + need + Dropped(fl[i], need)
  {
    SumSplice(fl, i, i + 1, Rest(fl[i], need));
    SumSome(fl, i, i + 1);
    SumOne(Blk(fl[i].addr + need, fl[i].size - need));
  }

  /** Bytes of a block that are neither handed out nor kept on the list. */
  function Dropped(b: Blk, need: nat): nat
    requires need <= b.size
  {
    if b.size - need >= MIN_BLOCK then 0 else b.size - need
  }

  /** First position whose address is not below a. */
  ghost predicate Slot(fl: seq<Blk>, i: nat, a: nat) {
    && i <= |fl|
    && (forall k {:trigger fl[k]} :: 0 <= k < i ==> fl[k].addr < a)
    && (forall k {:trigger fl[k]} :: i <= k < |fl| ==> a <= fl[k].addr)
  }

  /** How far the freed block reaches on each side once it is merged with what it touches. */
  function RightEnd(fl: seq<Blk>, i: nat, b: Blk): nat { if i < |fl| && End(b) == fl[i].addr then i + 1 else i }

  function LeftEnd(fl: seq<Blk>, i: nat, b: Blk): nat
    requires i <= |fl|
  {
    if i > 0 && End(fl[i - 1]) == b.addr then i - 1 else i
  }

  function JoinRight(fl: seq<Blk>, i: nat, b: Blk): Blk {
    if i < |fl| && End(b) == fl[i].addr then Blk(b.addr, b.size + fl[i].size) else b
  }

  function Join(fl: seq<Blk>, i: nat, b: Blk): Blk
    requires i <= |fl|
  {
    var r := JoinRight(fl, i, b);
    if i > 0 && End(fl[i - 1]) == b.addr then Blk(fl[i - 1].addr, fl[i - 1].size + r.size) else r
  }

  /** The free list after block b is given back. */
  function Given(fl: seq<Blk>, i: nat, b: Blk): seq<Blk>
    requires i <= |fl|
  {
    Splice(fl, LeftEnd(fl, i, b), RightEnd(fl, i, b), [Join(fl, i, b)])
  }

  lemma GivenSorted(fl: seq<Blk>, lo: nat, hi: nat, i: nat, b: Blk)
    requires Sorted(fl, lo, hi) && Slot(fl, i, b.addr)
    requires lo <= b.addr && End(b) <= hi && b.size >= 24 && Aligned(b.addr) && Aligned(b.size)
    requires Clear(fl, b)
    ensures Sorted(Given(fl, i, b), lo, hi)
  {
    var m := Join(fl, i, b);
    if i < |fl| { Mod8(b.size, fl[i].size); }
    if i > 0 { Mod8(fl[i - 1].size, JoinRight(fl, i, b).size); }
    assert Sorted([m], lo, hi);
    forall k | 0 <= k < LeftEnd(fl, i, b) ensures End(fl[k]) < m.addr {
      assert k < i;
      assert i > 0 && k < i - 1 ==> End(fl[k]) < fl[i - 1].addr;
    }
    forall k | RightEnd(fl, i, b) <= k < |fl| ensures End(m) < fl[k].addr {
      assert End(m) == End(JoinRight(fl, i, b));
    }
    SortedSplice(fl, lo, hi, LeftEnd(fl, i, b), RightEnd(fl, i, b), [m]);
  }

  lemma GivenLive(fl: seq<Blk>, live: map<nat, nat>, lo: nat, hi: nat, i: nat, b: nat)
    requires Sorted(fl, lo, hi) && LiveOk(fl, live, lo, hi) && b in live && Slot(fl, i, b)
    ensures LiveOk(Given(fl, i, Blk(b, live[b])), live - {b}, lo, hi)
  {
    var x := Blk(b, live[b]);
    var fl', live' := Given(fl, i, x), live - {b};
    forall a, k | a in live' && 0 <= k < |fl'| ensures Apart(Blk(a, live'[a]), fl'[k]) {
      SpliceAt(fl, LeftEnd(fl, i, x), RightEnd(fl, i, x), [Join(fl, i, x)], k);
      var y := Blk(a, live[a]);
      assert Apart(y, x);
      assert i < |fl| ==> Apart(y, fl[i]);
      assert i > 0 ==> Apart(y, fl[i - 1]);
    }
  }

  lemma GivenSum(fl: seq<Blk>, i: nat, b: Blk)
    requires i <= |fl|
    ensures Sum(Given(fl, i, b)) == Sum(fl) + b.size
  {
    hide Sum, Splice;
    var l, r, m := LeftEnd(fl, i, b), RightEnd(fl, i, b), Join(fl, i, b);
    SumSplice(fl, l, r, [m]);
    SumOne(m);
    SumSome(fl, l, i);
    SumSome(fl, i, r);
    assert fl[l..r] == fl[l..i] + fl[i..r];
    SumConcat(fl[l..i], fl[i..r]);
  }

  lemma SumOne(x: Blk)
    ensures Sum([x]) == x.size
  {
    assert [x][1..] == [];
  }

  lemma SumSome(fl: seq<Blk>, i: nat, j: nat)
    requires i <= j <= |fl| && j <= i + 1
    ensures Sum(fl[i..j]) == if i < j then fl[i].size else 0
  {
    if i < j {
      assert fl[i..j] == [fl[i]];
      SumOne(fl[i]);
    }
  }

  /** Sizes stored anywhere but at b and c are as before. */
  ghost predicate KeptBut(sz: map<nat, nat>, sz': map<nat, nat>, b: nat, c: nat) {
    forall a {:trigger a in sz'} {:trigger sz'[a]} :: a in sz && a != b && a != c ==> a in sz' && sz'[a] == sz[a]
  }

  /** The block meets none of the free ones. */
  ghost predicate Clear(fl: seq<Blk>, b: Blk) {
    forall k {:trigger fl[k]} :: 0 <= k < |fl| ==> Apart(b, fl[k])
  }

  lemma LiveBlock(fl: seq<Blk>, live: map<nat, nat>, lo: nat, hi: nat, sz: map<nat, nat>, b: nat)
    requires LiveOk(fl, live, lo, hi) && SizesOk(sz, live) && b in live
    ensures lo <= b && b + live[b] <= hi && live[b] >= 24 && Aligned(b) && Aligned(live[b])
    ensures b in sz && sz[b] == live[b] && Clear(fl, Blk(b, live[b]))
  {}

  lemma FreeSizes(fl: seq<Blk>, live: map<nat, nat>, lo: nat, hi: nat, i: nat, b: nat, sz: map<nat, nat>,
      sz': map<nat, nat>)
    requires Sorted(fl, lo, hi) && LiveOk(fl, live, lo, hi) && i <= |fl| && SizesOk(sz, live) && 0 < lo
    requires KeptBut(sz, sz', b, Before(fl, i))
    ensures SizesOk(sz', live - {b})
  {
    forall a | a in live && a != b ensures a in sz' && sz'[a] == live[a] {
      assert i > 0 ==> Apart(Blk(a, live[a]), fl[i - 1]);
      assert a in sz;
    }
  }

  // ---- threading a freed block ----

  /** The list right after the freed block is linked in, before it is merged to the left. */
  function Inserted(fl: seq<Blk>, i: nat, b: Blk): seq<Blk>
    requires i <= |fl|
  {
    Splice(fl, i, RightEnd(fl, i, b), [JoinRight(fl, i, b)])
  }

  lemma InsertChain(head: nat, sz: map<nat, nat>, nx: map<nat, nat>, fl: seq<Blk>, i: nat, b: Blk)
    requires Chain(head, sz, nx, fl) && i <= |fl| && b.addr > 0
    requires forall k {:trigger fl[k]} :: 0 <= k < |fl| ==> fl[k].addr != b.addr && fl[k].addr > 0
    requires forall k {:trigger fl[k]} :: 0 <= k < |fl| && k != i - 1 ==> fl[k].addr != Before(fl, i)
    ensures Chain(LinkHead(head, Before(fl, i), b.addr), sz[b.addr := JoinRight(fl, i, b).size],
                  LinkNext(nx[b.addr := Addr(fl, RightEnd(fl, i, b))], Before(fl, i), b.addr), Inserted(fl, i, b))
  {
    ChainSplice(head, sz, nx, fl, i, RightEnd(fl, i, b), [JoinRight(fl, i, b)],
                LinkHead(head, Before(fl, i), b.addr), sz[b.addr := JoinRight(fl, i, b).size],
                LinkNext(nx[b.addr := Addr(fl, RightEnd(fl, i, b))], Before(fl, i), b.addr));
  }

  /** Absorbing block i into block i - 1. */
  lemma MergeChain(head: nat, sz: map<nat, nat>, nx: map<nat, nat>, r: seq<Blk>, i: nat)
    requires Chain(head, sz, nx, r) && 0 < i < |r|
    requires forall k {:trigger r[k]} :: 0 <= k < |r| && k != i - 1 ==> r[k].addr != r[i - 1].addr
    ensures r[i].addr in nx
    ensures Chain(head, sz[r[i - 1].addr := r[i - 1].size + r[i].size], nx[r[i - 1].addr := nx[r[i].addr]],
                  Splice(r, i - 1, i + 1, [Blk(r[i - 1].addr, r[i - 1].size + r[i].size)]))
  {
    assert Header(sz, nx, r, i) && Header(sz, nx, r, i - 1);
    assert i > 1 ==> Header(sz, nx, r, i - 2);
    ChainSplice(head, sz, nx, r, i - 1, i + 1, [Blk(r[i - 1].addr, r[i - 1].size + r[i].size)],
                head, sz[r[i - 1].addr := r[i - 1].size + r[i].size], nx[r[i - 1].addr := nx[r[i].addr]]);
  }

  lemma InsertedMerged(fl: seq<Blk>, i: nat, b: Blk)
    requires 0 < i <= |fl| && End(fl[i - 1]) == b.addr
    ensures Splice(Inserted(fl, i, b), i - 1, i + 1, [Join(fl, i, b)]) == Given(fl, i, b)
  {}

  lemma InsertedFacts(fl: seq<Blk>, i: nat, b: Blk, lo: nat, hi: nat)
    requires Sorted(fl, lo, hi) && Slot(fl, i, b.addr) && 0 < lo
    requires Clear(fl, b) && b.size > 0
    ensures forall k {:trigger fl[k]} :: 0 <= k < |fl| ==> fl[k].addr != b.addr && fl[k].addr > 0
    ensures forall k {:trigger fl[k]} :: 0 <= k < |fl| && k != i - 1 ==> fl[k].addr != Before(fl, i)
    ensures var r := Inserted(fl, i, b);
      && i < |r| && r[i] == JoinRight(fl, i, b)
      && (forall k {:trigger r[k]} :: 0 <= k < |r| && k != i ==> r[k].addr != b.addr)
      && (forall k {:trigger r[k]} :: 0 <= k < i ==> r[k] == fl[k])
      && (i > 0 ==> forall k {:trigger r[k]} :: 0 <= k < |r| && k != i - 1 ==> r[k].addr != r[i - 1].addr)
  {
    hide Sorted, Slot, Clear;
    InsertedApart(fl, i, b, lo, hi);
    var r, e := Inserted(fl, i, b), RightEnd(fl, i, b);
    forall k | 0 <= k < |r|
      ensures r[k] == if k < i then fl[k] else if k == i then JoinRight(fl, i, b) else fl[k - i - 1 + e] {
      SpliceAt(fl, i, e, [JoinRight(fl, i, b)], k);
    }
  }

  lemma InsertedApart(fl: seq<Blk>, i: nat, b: Blk, lo: nat, hi: nat)
    requires Sorted(fl, lo, hi) && Slot(fl, i, b.addr) && 0 < lo && Clear(fl, b) && b.size > 0
    ensures i <= |fl| && forall k {:trigger fl[k]} :: 0 <= k < |fl| ==> fl[k].addr != b.addr && fl[k].addr > 0
    ensures forall k {:trigger fl[k]} :: 0 <= k < |fl| && k != i - 1 ==> fl[k].addr != Before(fl, i)
    ensures forall k {:trigger fl[k]} :: 0 <= k < |fl| && i > 0 && k != i - 1 ==> fl[k].addr != fl[i - 1].addr
  {}

  /** The list of one block that fills the arena. */
  lemma OneBlock(a: nat, size: nat)
    requires Aligned(a) && Aligned(size) && size >= 24
    ensures Chain(a, map[a := size], map[a := 0], [Blk(a, size)])
    ensures Sorted([Blk(a, size)], a, a + size)
  {
    assert Header(map[a := size], map[a := 0], [Blk(a, size)], 0);
  }

  lemma NoneLive(fl: seq<Blk>, lo: nat, hi: nat)
    ensures LiveOk(fl, map[], lo, hi) && SumMap(map[]) == 0 && forall sz :: SizesOk(sz, map[])
  {
  }

  lemma PageSizes(pages: nat)
    ensures Aligned(4096 * pages)
  {
    assert 4096 * pages == 8 * (512 * pages);
  }

  class KHeap {
    const lo: nat
    const hi: nat
    var head: nat
    var sz: map<nat, nat>
    var nx: map<nat, nat>
    var heapUsed: nat

    ghost var fl: seq<Blk>
    ghost var live: map<nat, nat>
    ghost var lost: nat

    ghost predicate ListOk()
      reads this
    {
      0 < lo <= hi && Aligned(lo) && Chain(head, sz, nx, fl) && Sorted(fl, lo, hi)
    }

    /** The free list is sorted, uncoalescable and disjoint from live blocks; every byte of the
        arena is free, in use or in a dropped remainder. */
    ghost predicate Valid()
      reads this
    {
      && ListOk() && LiveOk(fl, live, lo, hi)
      && SizesOk(sz, live) && heapUsed == SumMap(live)
      && Sum(fl) + heapUsed + lost == hi - lo
    }

    /** kmalloc_init on a contiguous run of frames. */
    constructor (start: nat, pages: nat)
      requires 0 < start && Aligned(start) && 0 < pages
      ensures Valid() && live == map[] && lost == 0 && lo == start && hi == start + 4096 * pages
    {
      lo, hi := start, start + 4096 * pages;
      head := start;
      sz := map[start := 4096 * pages];
      nx := map[start := 0];
      heapUsed := 0;
      fl, live, lost := [Blk(start, 4096 * pages)], map[], 0;
      new;
      hide Chain, Sorted, LiveOk, SumMap, Sum, SizesOk;
      PageSizes(pages);
      OneBlock(start, 4096 * pages);
      SumOne(Blk(start, 4096 * pages));
      NoneLive(fl, lo, hi);
    }

    /** Stores through the pointer-to-pointer: the next field of prev, or the list head. */
    method SetLink(prev: nat, v: nat)
      modifies this`head, this`nx
      ensures head == LinkHead(old(head), prev, v) && nx == LinkNext(old(nx), prev, v)
    {
      if prev == 0 { head := v; } else { nx := nx[prev := v]; }
    }

    /** Takes need bytes from the front of free block i; a remainder under MIN_BLOCK is dropped. */
    method Carve(prev: nat, b: nat, need: nat, ghost i: nat)
      requires ListOk() && i < |fl| && b == fl[i].addr && prev == Before(fl, i)
      requires 0 < need <= fl[i].size && Aligned(need)
      modifies this`head, this`sz, this`nx, this`fl
      ensures ListOk() && b in sz && sz[b] == need
      ensures fl == Splice(old(fl), i, i + 1, Rest(old(fl)[i], need))
      ensures KeptOutside(old(sz), sz, b, End(old(fl)[i]))
    {
      hide Sorted, Chain, Splice, Aligned;
      CarveSorted(fl, lo, hi, i, need);
      HeaderAt(head, sz, nx, fl, i);
      var size, after := sz[b], nx[b];
      if size - need >= MIN_BLOCK {
        SplitChain(head, sz, nx, fl, lo, hi, i, need);
        var rest := b + need;
        sz := sz[rest := size - need];
        nx := nx[rest := after];
        SetLink(prev, rest);
      } else {
        UnlinkChain(head, sz, nx, fl, lo, hi, i, need);
        SetLink(prev, after);
      }
      sz := sz[b := need];
      fl := Splice(fl, i, i + 1, Rest(fl[i], need));
    }

    /** alloc_from: the first free block that is large enough. */
    method AllocFrom(need: nat) returns (p: nat, ghost i: nat)
      requires ListOk() && 24 <= need && Aligned(need)
      modifies this`head, this`sz, this`nx, this`fl
      ensures ListOk()
      ensures p == 0 ==> head == old(head) && sz == old(sz) && nx == old(nx) && fl == old(fl)
      ensures p == 0 ==> forall k :: 0 <= k < |fl| ==> fl[k].size < need
      ensures p != 0 ==> i < |old(fl)| && p == old(fl)[i].addr + HDR && need <= old(fl)[i].size
      ensures p != 0 ==> forall k :: 0 <= k < i ==> old(fl)[k].size < need
      ensures p != 0 ==> fl == Splice(old(fl), i, i + 1, Rest(old(fl)[i], need)) && p - HDR in sz && sz[p - HDR] == need
      ensures p != 0 ==> KeptOutside(old(sz), sz, p - HDR, End(old(fl)[i]))
      ensures p != 0 ==>
        var b := old(fl)[i];
        var rest := if b.size - need >= 32 then [Blk(b.addr + need, b.size - need)] else [];
        p == b.addr + 16 && fl == old(fl)[..i] + rest + old(fl)[i + 1..]
    {
      var prev, b := 0, head;
      i := 0;
      while b != 0
        invariant i <= |fl| && b == Addr(fl, i) && prev == Before(fl, i)
        invariant forall k :: 0 <= k < i ==> fl[k].size < need
        invariant head == old(head) && sz == old(sz) && nx == old(nx) && fl == old(fl)
        decreases |fl| - i
      {
        assert Header(sz, nx, fl, i);
        if sz[b] >= need {
          Carve(prev, b, need, i);
          return b + HDR, i;
        }
        prev, b := b, nx[b];
        i := i + 1;
      }
      return 0, 0;
    }
  
    /** kmalloc. It fails only when no free block fits; otherwise the block was not in use, its
        size is booked, and at most a remainder below MIN_BLOCK is lost. */
    method KMalloc(n: nat) returns (p: nat)
      requires Valid() && n < WORD && Need(n) >= 24
      modifies this
      ensures Valid()
      ensures p == 0 <==> forall k :: 0 <= k < |old(fl)| ==> old(fl)[k].size < Need(n)
      ensures p == 0 ==> head == old(head) && sz == old(sz) && nx == old(nx)
      ensures p == 0 ==> fl == old(fl) && live == old(live) && lost == old(lost)
      ensures p != 0 ==> p >= HDR && p - HDR !in old(live) && live == old(live)[p - HDR := Need(n)]
      ensures old(lost) <= lost < old(lost) + MIN_BLOCK
      ensures p != 0 ==> exists i: nat ::
        && FirstFit(old(fl), i, Need(n)) && p == old(fl)[i].addr + 16
        && lost == old(lost) + (if old(fl)[i].size - Need(n) >= 32 then 0 else old(fl)[i].size - Need(n))
    {
      hide Chain, Sorted, Splice, Sum, SumMap, Need, LiveOk, KeptOutside, SizesOk, Aligned;
      NeedAligned(n);
      var need := Need(n);
      ghost var i;
      p, i := AllocFrom(need);
      if p == 0 { return; }
      ghost var b := p - HDR;
      assert FirstFit(old(fl), i, need);
      AllocLive(old(fl), live, lo, hi, i, need);
      AllocSum(old(fl), i, need);
      SumMapAdd(live, b, need);
      AllocSizes(old(fl), live, lo, hi, i, need, old(sz), sz);
      heapUsed := heapUsed + need;
      live := live[b := need];
      lost := lost + Dropped(old(fl)[i], need);
    }
  
    /** The walk to the first free block that is not below b. */
    method FindSlot(b: nat) returns (prev: nat, cur: nat, ghost i: nat)
      requires ListOk()
      ensures i <= |fl| && Slot(fl, i, b) && prev == Before(fl, i) && cur == Addr(fl, i)
    {
      prev, cur, i := 0, head, 0;
      while cur != 0 && cur < b
        invariant i <= |fl| && prev == Before(fl, i) && cur == Addr(fl, i)
        invariant forall k {:trigger fl[k]} :: 0 <= k < i ==> fl[k].addr < b
        decreases |fl| - i
      {
        assert Header(sz, nx, fl, i);
        prev, cur := cur, nx[cur];
        i := i + 1;
      }
      assert i < |fl| ==> fl[i].addr > 0;
    }

    /** The walk to the block in front of b. */
    method FindBefore(b: nat, ghost r: seq<Blk>, ghost i: nat) returns (prev: nat)
      requires Chain(head, sz, nx, r) && 0 < i < |r| && r[i].addr == b
      requires forall k {:trigger r[k]} :: 0 <= k < |r| && k != i ==> r[k].addr != b
      ensures prev == r[i - 1].addr && prev in sz && prev in nx && sz[prev] == r[i - 1].size
    {
      ghost var m := 0;
      prev := head;
      assert Header(sz, nx, r, 0);
      while nx[prev] != b
        invariant m < i && prev == r[m].addr && Header(sz, nx, r, m)
        decreases i - m
      {
        assert m + 1 < i by { assert Addr(r, m + 1) == r[m + 1].addr; }
        assert Header(sz, nx, r, m + 1);
        prev := nx[prev];
        m := m + 1;
      }
      assert Addr(r, m + 1) == r[m + 1].addr;
    }

    /** insert_keep_coalesced: links b in address order and merges it with its neighbours. */
    method Insert(b: nat) returns (ghost i: nat)
      requires ListOk() && b in sz && lo <= b && sz[b] > 0
      requires Clear(fl, Blk(b, sz[b]))
      modifies this`head, this`sz, this`nx
      ensures i <= |fl| && Slot(fl, i, b) && Chain(head, sz, nx, Given(fl, i, Blk(b, old(sz)[b])))
      ensures KeptBut(old(sz), sz, b, Before(fl, i))
    {
      hide Chain, Sorted, Splice, Aligned, Slot;
      ghost var x := Blk(b, sz[b]);
      var prev, cur;
      prev, cur, i := FindSlot(b);
      InsertedFacts(fl, i, x, lo, hi);
      InsertChain(head, sz, nx, fl, i, x);
      if i < |fl| { HeaderAt(head, sz, nx, fl, i); }
      if cur != 0 && b + sz[b] == cur {
        var size, after := sz[b] + sz[cur], nx[cur];
        sz := sz[b := size];
        nx := nx[b := after];
      } else {
        sz := sz[b := sz[b]];
        nx := nx[b := cur];
      }
      SetLink(prev, b);
      ghost var r := Inserted(fl, i, x);
      assert Chain(head, sz, nx, r);
      if prev != 0 {
        var q := FindBefore(b, r, i);
        if q + sz[q] == b {
          MergeChain(head, sz, nx, r, i);
          InsertedMerged(fl, i, x);
          var size := sz[q] + sz[b];
          sz := sz[q := size];
          nx := nx[q := nx[b]];
        }
      }
    }
  
    /** kfree. A live block leaves the live set, its bytes return to the free list, and nothing is
        lost; null and pointers outside the arena are ignored. */
    method KFree(p: nat)
      requires Valid() && (p != 0 ==> p >= HDR && (p - HDR in live || p - HDR < lo || p - HDR > hi))
      modifies this
      ensures Valid() && lost == old(lost)
      ensures p != 0 && p - HDR in old(live) ==>
        live == old(live) - {p - HDR} && heapUsed + old(live)[p - HDR] == old(heapUsed)
      ensures p == 0 || p - HDR !in old(live) ==>
        live == old(live) && fl == old(fl) && head == old(head) && sz == old(sz) && nx == old(nx) &&
          heapUsed == old(heapUsed)
    {
      hide Chain, Sorted, Splice, Sum, SumMap, LiveOk, SizesOk, Given, Slot, KeptBut, Clear;
      if p == 0 { return; }
      var b: nat := p - HDR;
      var size := if b in sz then sz[b] else 0;
      if b in live { LiveBlock(fl, live, lo, hi, sz, b); }
      if !(b >= lo && b + size <= hi) || size % 8 != 0 { return; }
      SumMapRemove(live, b);
      heapUsed := heapUsed - sz[b];
      ghost var i := Insert(b);
      ghost var x := Blk(b, live[b]);
      GivenSorted(fl, lo, hi, i, x);
      GivenLive(fl, live, lo, hi, i, b);
      GivenSum(fl, i, x);
      FreeSizes(fl, live, lo, hi, i, b, old(sz), sz);
      fl, live := Given(fl, i, x), live - {b};
    }
  }

  /** Block i is the first that is large enough. */
  ghost predicate FirstFit(fl: seq<Blk>, i: nat, need: nat) {
    i < |fl| && fl[i].size >= need && forall k :: 0 <= k < i ==> fl[k].size < need
  }

  datatype HeapOp = Malloc(n: nat) | Free(k: nat)

  /** The outstanding pointers are distinct and are the live blocks. */
  ghost predicate Outstanding(out: seq<nat>, live: map<nat, nat>) {
    AllLive(out, live) && Distinct(out) && |out| == |live|
  }

  ghost predicate AllLive(out: seq<nat>, live: map<nat, nat>) {
    forall i {:trigger out[i]} :: 0 <= i < |out| ==> out[i] >= HDR && out[i] - HDR in live
  }

  ghost predicate Distinct(out: seq<nat>) {
    forall i, j {:trigger out[i], out[j]} :: 0 <= i < j < |out| ==> out[i] != out[j]
  }

  lemma DistinctAdd(out: seq<nat>, p: nat)
    requires Distinct(out) && forall i {:trigger out[i]} :: 0 <= i < |out| ==> out[i] != p
    ensures Distinct(out + [p])
  {
    var r := out + [p];
    forall i, j | 0 <= i < j < |r| ensures r[i] != r[j] {
      assert r[i] == out[i];
      assert j < |out| ==> r[j] == out[j];
    }
  }

  lemma DistinctDrop(out: seq<nat>, k: nat)
    requires Distinct(out) && k < |out|
    ensures Distinct(out[..k] + out[k + 1..])
    ensures forall i {:trigger (out[..k] + out[k + 1..])[i]} :: 0 <= i < |out| - 1 ==>
      (out[..k] + out[k + 1..])[i] != out[k]
  {
    var r := out[..k] + out[k + 1..];
    forall i | 0 <= i < |r| ensures r[i] == out[if i < k then i else i + 1] {}
  }

  lemma LiveCount(live: map<nat, nat>, a: nat, v: nat)
    ensures a !in live ==> |live[a := v]| == |live| + 1
    ensures a in live ==> |live - {a}| == |live| - 1
  {
    assert live[a := v].Keys == live.Keys + {a} && (live - {a}).Keys == live.Keys - {a};
    assert |live| == |live.Keys| && |live[a := v]| == |live[a := v].Keys| && |live - {a}| == |(live - {a}).Keys|;
  }

  lemma OutstandingAdd(out: seq<nat>, live: map<nat, nat>, p: nat, v: nat)
    requires Outstanding(out, live) && p >= HDR && p - HDR !in live
    ensures Outstanding(out + [p], live[p - HDR := v])
  {
    hide Distinct;
    LiveCount(live, p - HDR, v);
    DistinctAdd(out, p);
    var r := out + [p];
    forall i | 0 <= i < |r| ensures r[i] >= HDR && r[i] - HDR in live[p - HDR := v] {
      assert i < |out| ==> r[i] == out[i];
    }
  }

  lemma OutstandingDrop(out: seq<nat>, live: map<nat, nat>, k: nat)
    requires Outstanding(out, live) && k < |out|
    ensures Outstanding(out[..k] + out[k + 1..], live - {out[k] - HDR})
  {
    hide Distinct;
    LiveCount(live, out[k] - HDR, 0);
    DistinctDrop(out, k);
    var r := out[..k] + out[k + 1..];
    forall i | 0 <= i < |r| ensures r[i] >= HDR && r[i] - HDR in live - {out[k] - HDR} {
      assert r[i] == out[if i < k then i else i + 1];
    }
  }

  /** Any sequence of requests and releases of outstanding pointers, from an empty heap: the list
      stays sorted, apart and coalesced, and free, used and lost bytes make up the arena. */
  method Run(h: KHeap, ops: seq<HeapOp>) returns (out: seq<nat>)
    requires h.Valid() && h.live == map[]
    requires forall i :: 0 <= i < |ops| && ops[i].Malloc? ==> ops[i].n < WORD && Need(ops[i].n) >= 24
    modifies h
    ensures h.Valid() && Outstanding(out, h.live)
    ensures Sorted(h.fl, h.lo, h.hi) && LiveOk(h.fl, h.live, h.lo, h.hi)
    ensures Sum(h.fl) + SumMap(h.live) + h.lost == h.hi - h.lo && h.lost >= old(h.lost)
  {
    hide Sorted, LiveOk, Sum, SumMap, Outstanding, Chain;
    out := [];
    NoneOutstanding();
    for i := 0 to |ops|
      invariant h.Valid() && Outstanding(out, h.live) && h.lost >= old(h.lost)
    {
      match ops[i] {
        case Malloc(n) =>
          ghost var live := h.live;
          var p := h.KMalloc(n);
          if p != 0 {
            OutstandingAdd(out, live, p, Need(n));
            out := out + [p];
          }
        case Free(k) =>
          if k < |out| {
            OutstandingAt(out, h.live, k);
            OutstandingDrop(out, h.live, k);
            h.KFree(out[k]);
            out := out[..k] + out[k + 1..];
          }
      }
    }
  }

  lemma NoneOutstanding()
    ensures Outstanding([], map[])
  {}

  lemma OutstandingAt(out: seq<nat>, live: map<nat, nat>, k: nat)
    requires Outstanding(out, live) && k < |out|
    ensures out[k] >= HDR && out[k] - HDR in live
  {}
}
