/** The directory tree: naming entries, path walking, linking and unlinking. */
module FsTree {
  import opened Basics
  import opened FsModel

  /** The directory and slot that name an inode. */
  datatype Place = Place(dir: nat, slot: nat)

  type Places = map<nat, Place>
  type Ranks = s: seq<nat> | |s| == INO_COUNT witness seq(INO_COUNT, _ => 0)

  ghost function Highest(s: seq<nat>): (m: nat)
    ensures forall i :: 0 <= i < |s| ==> s[i] <= m
  {
    if s == [] then 0
    else
      var m := Highest(s[1..]);
      assert forall i :: 1 <= i < |s| ==> s[i] == s[1..][i - 1];
      if s[0] > m then s[0] else m
  }

  predicate GoodName(s: string) {
    0 < |s| <= 31 && s != "." && s != ".." && '/' !in s
  }

  function ParentOf(w: Places, i: nat): nat { if i in w then w[i].dir else ROOT }

  predicate IsHole(e: DirEntry) { e.ino == 0 && e.name == "" }

  /** A well-named entry for an inode whose place is here. */
  predicate IsLink(e: DirEntry, w: Places, here: Place) {
    e.ino in w && w[e.ino] == here && GoodName(e.name)
  }

  /** Each non-root live inode is named by exactly one entry, which carries its kind. */
  ghost predicate Named(d: Disk, w: Places) {
    && IsDir(d, ROOT) && ROOT !in w
    && (forall c {:trigger w[c]} :: c in w ==>
          && Live(d, c) && IsDir(d, w[c].dir)
          && 2 <= w[c].slot < Used(d.ino[w[c].dir])
          && DirSlot(d, w[c].dir, w[c].slot).ino == c
          && DirSlot(d, w[c].dir, w[c].slot).kind == d.ino[c].kind)
    && (forall c {:trigger Live(d, c)} :: Live(d, c) && c != ROOT ==> c in w)
  }

  /** Every entry after the first two is a hole or a well-named link recorded in w. */
  ghost predicate EntriesOk(d: Disk, w: Places) {
    forall p, k {:trigger DirSlot(d, p, k)} ::
      IsDir(d, p) && 2 <= k < Used(d.ino[p]) ==>
        IsHole(DirSlot(d, p, k)) || IsLink(DirSlot(d, p, k), w, Place(p, k))
  }

  /** "." is the directory itself and ".." is the directory that names it. */
  ghost predicate DotsOk(d: Disk, w: Places) {
    forall p {:trigger IsDir(d, p)} :: IsDir(d, p) ==>
      && 2 <= Used(d.ino[p])
      && DirSlot(d, p, 0) == DirEntry(p, ".", Dir)
      && DirSlot(d, p, 1) == DirEntry(ParentOf(w, p), "..", Dir)
  }

  ghost predicate UniqueNames(d: Disk) {
    forall p, k, m {:trigger DirSlot(d, p, k), DirSlot(d, p, m)} ::
      (IsDir(d, p) && 2 <= k < Used(d.ino[p]) && 2 <= m < Used(d.ino[p])
       && DirSlot(d, p, k).name == DirSlot(d, p, m).name != "") ==> k == m
  }

  ghost predicate Ranked(w: Places, rk: Ranks) {
    forall c {:trigger w[c]} :: c in w ==>
      c < INO_COUNT && w[c].dir < INO_COUNT && rk[w[c].dir] < rk[c]
  }

  ghost predicate Tree(d: Disk, w: Places, rk: Ranks) {
    Named(d, w) && EntriesOk(d, w) && DotsOk(d, w) && UniqueNames(d) && Ranked(w, rk)
  }

  // ---- dir_find ----

  /** The test dir_find applies to one entry; ".." may point at inode 0. */
  predicate Matches(e: DirEntry, name: string) {
    (e.ino != 0 && e.name == name) || (name == ".." && e.name == "..")
  }

  /** The first matching entry at or after k. */
  function Lookup(d: Disk, i: nat, name: string, k: nat): (r: Option<nat>)
    requires i < INO_COUNT
    ensures r.Some? ==> k <= r.value < Used(d.ino[i]) && Matches(DirSlot(d, i, r.value), name)
    ensures r.Some? ==> forall m :: k <= m < r.value ==> !Matches(DirSlot(d, i, m), name)
    ensures r.None? ==> forall m :: k <= m < Used(d.ino[i]) ==> !Matches(DirSlot(d, i, m), name)
    decreases Used(d.ino[i]) - k
  {
    if k >= Used(d.ino[i]) then None
    else if Matches(DirSlot(d, i, k), name) then Some(k)
    else Lookup(d, i, name, k + 1)
  }

  /** resolve_from over the components of a path. */
  function Walk(d: Disk, cur: nat, comps: seq<string>): Option<nat>
    decreases |comps|
  {
    if comps == [] then Some(cur)
    else if comps[0] == "." then Walk(d, cur, comps[1..])
    else if !IsDir(d, cur) then None
    else match Lookup(d, cur, comps[0], 0)
      case None => None
      case Some(k) => Walk(d, DirSlot(d, cur, k).ino, comps[1..])
  }

  lemma {:induction false} WalkLive(d: Disk, w: Places, rk: Ranks, cur: nat, comps: seq<string>)
    requires Tree(d, w, rk) && Live(d, cur)
    ensures Walk(d, cur, comps).Some? ==> Live(d, Walk(d, cur, comps).value)
    decreases |comps|
  {
    if comps == [] {
    } else if comps[0] == "." {
      WalkLive(d, w, rk, cur, comps[1..]);
    } else if IsDir(d, cur) {
      var r := Lookup(d, cur, comps[0], 0);
      if r.Some? {
        LookupLive(d, w, rk, cur, comps[0]);
        WalkLive(d, w, rk, DirSlot(d, cur, r.value).ino, comps[1..]);
      }
    }
  }

  lemma LookupLive(d: Disk, w: Places, rk: Ranks, cur: nat, name: string)
    requires Tree(d, w, rk) && IsDir(d, cur)
    requires Lookup(d, cur, name, 0).Some?
    ensures Live(d, DirSlot(d, cur, Lookup(d, cur, name, 0).value).ino)
  {
    var k := Lookup(d, cur, name, 0).value;
    if k >= 2 {
      assert DirSlot(d, cur, k).ino in w;
    } else {
      assert IsDir(d, ParentOf(w, cur));
    }
  }

  lemma {:induction false} WalkAppend(d: Disk, cur: nat, a: seq<string>, b: seq<string>)
    ensures Walk(d, cur, a + b) ==
            match Walk(d, cur, a) case None => None case Some(m) => Walk(d, m, b)
    decreases |a|
  {
    if a == [] {
      assert a + b == b;
    } else {
      assert (a + b)[1..] == a[1..] + b;
      if a[0] == "." {
        WalkAppend(d, cur, a[1..], b);
      } else if IsDir(d, cur) {
        var r := Lookup(d, cur, a[0], 0);
        if r.Some? { WalkAppend(d, DirSlot(d, cur, r.value).ino, a[1..], b); }
      }
    }
  }

  // ---- the same directories on two disks ----

  /** The directories of d have the same kind and entries in e. */
  ghost predicate SameDirs(d: Disk, e: Disk) {
    && (forall i {:trigger d.ino[i]} {:trigger e.ino[i]} :: 0 <= i < INO_COUNT ==>
          e.ino[i].kind == d.ino[i].kind && (d.ino[i].kind == Dir ==> Used(e.ino[i]) == Used(d.ino[i])))
    && (forall p, k {:trigger DirSlot(e, p, k)} {:trigger DirSlot(d, p, k)} ::
          IsDir(d, p) && 0 <= k < Used(d.ino[p]) ==> DirSlot(e, p, k) == DirSlot(d, p, k))
  }

  lemma SameDirsTree(d: Disk, e: Disk, w: Places, rk: Ranks)
    requires Tree(d, w, rk) && SameDirs(d, e)
    ensures Tree(e, w, rk)
  {
    assert forall p :: IsDir(e, p) <==> IsDir(d, p);
    assert forall p :: Live(e, p) <==> Live(d, p);
  }

  // ---- linking ----

  /** e is d with the fresh inode c linked into slot s of directory p, either in a hole
      or one past the end; nothing else about any directory changes. */
  ghost predicate Linked(d: Disk, e: Disk, c: nat, p: nat, s: nat, name: string) {
    && c < INO_COUNT && d.ino[c].kind == Free && e.ino[c].kind != Free
    && IsDir(d, p) && s <= Used(d.ino[p])
    && (s < Used(d.ino[p]) ==> IsHole(DirSlot(d, p, s)))
    && Used(e.ino[p]) == (if s < Used(d.ino[p]) then Used(d.ino[p]) else s + 1)
    && DirSlot(e, p, s) == DirEntry(c, name, e.ino[c].kind)
    && (forall i {:trigger e.ino[i]} {:trigger d.ino[i]} :: 0 <= i < INO_COUNT && i != c ==>
          && e.ino[i].kind == d.ino[i].kind
          && (d.ino[i].kind == Dir && i != p ==> Used(e.ino[i]) == Used(d.ino[i])))
    && (forall q, k {:trigger DirSlot(e, q, k)} ::
          IsDir(d, q) && 0 <= k < Used(d.ino[q]) && !(q == p && k == s) ==>
            DirSlot(e, q, k) == DirSlot(d, q, k))
    && (e.ino[c].kind == Dir ==>
          && Used(e.ino[c]) == 2
          && DirSlot(e, c, 0) == DirEntry(c, ".", Dir)
          && DirSlot(e, c, 1) == DirEntry(p, "..", Dir))
  }

  /** The situation of create_inode once dir_add has succeeded. */
  ghost predicate Linking(d: Disk, e: Disk, w: Places, rk: Ranks, c: nat, p: nat, s: nat, name: string) {
    && Tree(d, w, rk) && Linked(d, e, c, p, s, name)
    && GoodName(name) && Lookup(d, p, name, 0).None?
  }

  lemma LinkKept(d: Disk, e: Disk, w: Places, rk: Ranks, c: nat, p: nat, s: nat, name: string)
    requires Linking(d, e, w, rk, c, p, s, name)
    ensures c != ROOT && c !in w && s >= 2
    ensures forall x :: x != c ==> (IsDir(e, x) <==> IsDir(d, x)) && (Live(e, x) <==> Live(d, x))
    ensures forall x, k {:trigger DirSlot(e, x, k)} ::
      IsDir(e, x) && x != c && 0 <= k < Used(e.ino[x]) && !(x == p && k == s) ==>
        k < Used(d.ino[x]) && DirSlot(e, x, k) == DirSlot(d, x, k)
  {
    assert forall x {:trigger IsDir(e, x)} :: IsDir(e, x) && x != c ==> e.ino[x].kind == d.ino[x].kind;
    assert forall x {:trigger Live(e, x)} :: Live(e, x) && x != c ==> e.ino[x].kind == d.ino[x].kind;
  }

  lemma LinkNamed(d: Disk, e: Disk, w: Places, rk: Ranks, c: nat, p: nat, s: nat, name: string)
    requires Linking(d, e, w, rk, c, p, s, name)
    ensures Named(e, w[c := Place(p, s)])
  {
    hide Linking, DirSlot, Used;
    var w' := w[c := Place(p, s)];
    LinkNewName(d, e, w, rk, c, p, s, name);
    forall x | x in w
      ensures Live(e, x) && IsDir(e, w[x].dir) && 2 <= w[x].slot < Used(e.ino[w[x].dir])
      ensures DirSlot(e, w[x].dir, w[x].slot).ino == x && DirSlot(e, w[x].dir, w[x].slot).kind == e.ino[x].kind
    {
      LinkOldName(d, e, w, rk, c, p, s, name, x);
    }
    assert forall x :: x in w' ==> w'[x] == if x == c then Place(p, s) else w[x];
  }

  lemma LinkNewName(d: Disk, e: Disk, w: Places, rk: Ranks, c: nat, p: nat, s: nat, name: string)
    requires Linking(d, e, w, rk, c, p, s, name)
    ensures IsDir(e, ROOT) && ROOT !in w && c != ROOT && c !in w
    ensures Live(e, c) && IsDir(e, p) && 2 <= s < Used(e.ino[p])
    ensures DirSlot(e, p, s).ino == c && DirSlot(e, p, s).kind == e.ino[c].kind
    ensures forall x {:trigger Live(e, x)} :: Live(e, x) && x != ROOT && x != c ==> x in w
  {
    hide EntriesOk, DotsOk, UniqueNames;
    LinkKept(d, e, w, rk, c, p, s, name);
  }

  lemma LinkOldName(d: Disk, e: Disk, w: Places, rk: Ranks, c: nat, p: nat, s: nat, name: string, x: nat)
    requires Linking(d, e, w, rk, c, p, s, name) && x in w
    ensures x != c && Live(e, x) && IsDir(e, w[x].dir) && 2 <= w[x].slot < Used(e.ino[w[x].dir])
    ensures DirSlot(e, w[x].dir, w[x].slot).ino == x && DirSlot(e, w[x].dir, w[x].slot).kind == e.ino[x].kind
  {
    hide EntriesOk, DotsOk, UniqueNames;
    LinkKept(d, e, w, rk, c, p, s, name);
    assert DirSlot(d, w[x].dir, w[x].slot).ino == x;
  }

  lemma LinkEntries(d: Disk, e: Disk, w: Places, rk: Ranks, c: nat, p: nat, s: nat, name: string)
    requires Linking(d, e, w, rk, c, p, s, name)
    ensures EntriesOk(e, w[c := Place(p, s)])
  {
    hide DotsOk, UniqueNames;
    var w' := w[c := Place(p, s)];
    LinkKept(d, e, w, rk, c, p, s, name);
    forall x, k | IsDir(e, x) && 2 <= k < Used(e.ino[x])
      ensures IsHole(DirSlot(e, x, k)) || IsLink(DirSlot(e, x, k), w', Place(x, k))
    {
      if x != c && !(x == p && k == s) { assert DirSlot(e, x, k) == DirSlot(d, x, k); }
    }
  }

  lemma LinkDots(d: Disk, e: Disk, w: Places, rk: Ranks, c: nat, p: nat, s: nat, name: string)
    requires Linking(d, e, w, rk, c, p, s, name)
    ensures DotsOk(e, w[c := Place(p, s)])
  {
    hide EntriesOk, UniqueNames;
    var w' := w[c := Place(p, s)];
    LinkKept(d, e, w, rk, c, p, s, name);
    forall x | IsDir(e, x)
      ensures 2 <= Used(e.ino[x])
      ensures DirSlot(e, x, 0) == DirEntry(x, ".", Dir)
      ensures DirSlot(e, x, 1) == DirEntry(ParentOf(w', x), "..", Dir)
    {
      if x != c { assert IsDir(d, x); }
    }
  }

  lemma LinkUnique(d: Disk, e: Disk, w: Places, rk: Ranks, c: nat, p: nat, s: nat, name: string)
    requires Linking(d, e, w, rk, c, p, s, name)
    ensures UniqueNames(e)
  {
    LinkKept(d, e, w, rk, c, p, s, name);
    forall k | 2 <= k < Used(e.ino[p]) && k != s ensures DirSlot(e, p, k).name != name {
      assert !Matches(DirSlot(d, p, k), name);
    }
    forall x, k, m | IsDir(e, x) && 2 <= k < Used(e.ino[x]) && 2 <= m < Used(e.ino[x])
      && DirSlot(e, x, k).name == DirSlot(e, x, m).name != ""
      ensures k == m
    {
      if x != c && !(x == p && (k == s || m == s)) {
        assert DirSlot(e, x, k) == DirSlot(d, x, k) && DirSlot(e, x, m) == DirSlot(d, x, m);
      }
    }
  }

  lemma LinkTree(d: Disk, e: Disk, w: Places, rk: Ranks, c: nat, p: nat, s: nat, name: string)
    requires Linking(d, e, w, rk, c, p, s, name)
    ensures c != ROOT && c !in w
    ensures Tree(e, w[c := Place(p, s)], rk[c := rk[p] + 1])
  {
    hide EntriesOk, DotsOk, UniqueNames;
    LinkKept(d, e, w, rk, c, p, s, name);
    LinkNamed(d, e, w, rk, c, p, s, name);
    LinkEntries(d, e, w, rk, c, p, s, name);
    LinkDots(d, e, w, rk, c, p, s, name);
    LinkUnique(d, e, w, rk, c, p, s, name);
    assert forall x :: x in w ==> w[x].dir != c;
  }

  /** A directory lookup that succeeded keeps its answer; the new name resolves to c. */
  lemma LinkLookup(d: Disk, e: Disk, w: Places, rk: Ranks, c: nat, p: nat, s: nat, name: string,
                   q: nat, x: string)
    requires Linking(d, e, w, rk, c, p, s, name)
    requires IsDir(d, q) && (Lookup(d, q, x, 0).Some? || (q == p && x == name))
    ensures Lookup(e, q, x, 0) ==
            if q == p && x == name then Some(s) else Lookup(d, q, x, 0)
  {
    hide EntriesOk;
    assert c != ROOT;
    assert IsDir(e, q);
    assert s >= 2;
    forall m | 0 <= m < Used(d.ino[q]) && !(q == p && m == s)
      ensures DirSlot(e, q, m) == DirSlot(d, q, m)
    {}
    var r := Lookup(e, q, x, 0);
    if q == p && x == name {
      assert Matches(DirSlot(e, p, s), name);
    } else {
      var k := Lookup(d, q, x, 0).value;
      assert Matches(DirSlot(e, q, k), x);
      assert q == p ==> !Matches(DirSlot(e, p, s), x);
    }
  }

  lemma {:induction false} LinkWalk(d: Disk, e: Disk, w: Places, rk: Ranks, c: nat, p: nat, s: nat,
                                    name: string, cur: nat, comps: seq<string>)
    requires Linking(d, e, w, rk, c, p, s, name)
    requires Walk(d, cur, comps).Some?
    ensures Walk(e, cur, comps) == Walk(d, cur, comps)
    decreases |comps|
  {
    if comps == [] {
    } else if comps[0] == "." {
      LinkWalk(d, e, w, rk, c, p, s, name, cur, comps[1..]);
    } else {
      LinkLookup(d, e, w, rk, c, p, s, name, cur, comps[0]);
      var k := Lookup(d, cur, comps[0], 0).value;
      assert !(cur == p && k == s);
      LinkWalk(d, e, w, rk, c, p, s, name, DirSlot(d, cur, k).ino, comps[1..]);
    }
  }

  /** Walking d and e from the same place agrees when their directories agree. */
  lemma {:induction false} SameDirsWalk(d: Disk, e: Disk, cur: nat, comps: seq<string>)
    requires SameDirs(d, e)
    ensures Walk(e, cur, comps) == Walk(d, cur, comps)
    decreases |comps|
  {
    if comps == [] {
    } else if comps[0] == "." {
      SameDirsWalk(d, e, cur, comps[1..]);
    } else if IsDir(d, cur) {
      var a, b := Lookup(d, cur, comps[0], 0), Lookup(e, cur, comps[0], 0);
      forall m | 0 <= m < Used(d.ino[cur]) ensures DirSlot(e, cur, m) == DirSlot(d, cur, m) {}
      assert a == b;
      if a.Some? { SameDirsWalk(d, e, DirSlot(d, cur, a.value).ino, comps[1..]); }
    }
  }

  // ---- subtrees ----

  /** x is a or lies below a. */
  ghost predicate Under(w: Places, rk: Ranks, a: nat, x: nat)
    requires Ranked(w, rk)
    decreases if x < INO_COUNT then rk[x] else 0
  {
    x == a || (x in w && Under(w, rk, a, w[x].dir))
  }

  /** x lies below a child of a named by a slot before k. */
  ghost predicate UnderChild(w: Places, rk: Ranks, a: nat, k: nat, x: nat)
    requires Ranked(w, rk)
  {
    exists c :: c in w && w[c].dir == a && w[c].slot < k && Under(w, rk, c, x)
  }

  lemma {:induction false} UnderRank(w: Places, rk: Ranks, a: nat, x: nat)
    requires Ranked(w, rk) && a < INO_COUNT && x < INO_COUNT
    requires Under(w, rk, a, x)
    ensures x == a || rk[a] < rk[x]
    decreases rk[x]
  {
    if x != a { UnderRank(w, rk, a, w[x].dir); }
  }

  /** Below a means below exactly one of its children. */
  lemma {:induction false} UnderStep(w: Places, rk: Ranks, a: nat, x: nat) returns (c: nat)
    requires Ranked(w, rk) && a < INO_COUNT && x < INO_COUNT
    requires Under(w, rk, a, x) && x != a
    ensures c in w && w[c].dir == a && Under(w, rk, c, x)
    decreases rk[x]
  {
    if w[x].dir == a {
      c := x;
    } else {
      c := UnderStep(w, rk, a, w[x].dir);
    }
  }

  lemma {:induction false} UnderTrans(w: Places, rk: Ranks, a: nat, c: nat, x: nat)
    requires Ranked(w, rk) && c in w && w[c].dir == a && x < INO_COUNT
    requires Under(w, rk, c, x)
    ensures Under(w, rk, a, x) && x != a
    decreases rk[x]
  {
    UnderRank(w, rk, c, x);
    if x != c { UnderTrans(w, rk, a, c, w[x].dir); }
  }

  lemma {:induction false} SiblingsDisjoint(w: Places, rk: Ranks, a: nat, c: nat, c': nat, x: nat)
    requires Ranked(w, rk) && c in w && c' in w && w[c].dir == w[c'].dir == a && x < INO_COUNT
    requires Under(w, rk, c, x) && Under(w, rk, c', x)
    ensures c == c'
    decreases rk[x]
  {
    if x == c && x != c' {
      UnderRank(w, rk, c', a);
    } else if x == c' && x != c {
      UnderRank(w, rk, c, a);
    } else if x != c {
      SiblingsDisjoint(w, rk, a, c, c', w[x].dir);
    }
  }

  // ---- unlinking ----

  predicate IsZero(n: Inode) { n == ZERO_INODE }

  /** e is d with every inode below c freed and the entry naming c cleared; every other
      inode and directory entry is unchanged. */
  ghost predicate Unlinked(d: Disk, e: Disk, w: Places, rk: Ranks, c: nat)
    requires Ranked(w, rk) && c in w
  {
    && (forall i {:trigger e.ino[i]} {:trigger d.ino[i]} :: 0 <= i < INO_COUNT ==>
          (Under(w, rk, c, i) ==> IsZero(e.ino[i])) && (!Under(w, rk, c, i) ==> e.ino[i] == d.ino[i]))
    && (forall p, k {:trigger DirSlot(e, p, k)} :: IsDir(e, p) && 0 <= k < Used(e.ino[p]) ==>
          && (Place(p, k) == w[c] ==> DirSlot(e, p, k) == EMPTY_ENTRY)
          && (Place(p, k) != w[c] ==> DirSlot(e, p, k) == DirSlot(d, p, k)))
  }

  lemma UnlinkDirs(d: Disk, e: Disk, w: Places, rk: Ranks, c: nat)
    requires Tree(d, w, rk) && c in w && Unlinked(d, e, w, rk, c)
    ensures forall p :: IsDir(e, p) <==> IsDir(d, p) && !Under(w, rk, c, p)
    ensures forall p {:trigger e.ino[p]} :: IsDir(e, p) ==> e.ino[p] == d.ino[p]
    ensures forall p :: Live(e, p) <==> Live(d, p) && !Under(w, rk, c, p)
    ensures IsDir(e, w[c].dir) && IsDir(e, ROOT)
    ensures forall x {:trigger w[x]} :: x in w && !Under(w, rk, c, x) ==> IsDir(e, w[x].dir) && w[x] != w[c]
  {
    forall p | 0 <= p < INO_COUNT
      ensures IsDir(e, p) <==> IsDir(d, p) && !Under(w, rk, c, p)
      ensures Live(e, p) <==> Live(d, p) && !Under(w, rk, c, p)
      ensures IsDir(e, p) ==> e.ino[p] == d.ino[p]
    {
      assert e.ino[p] == d.ino[p] || IsZero(e.ino[p]);
    }
    if Under(w, rk, c, w[c].dir) { UnderRank(w, rk, c, w[c].dir); }
    forall x | x in w && !Under(w, rk, c, x) ensures IsDir(e, w[x].dir) && w[x] != w[c] {
      assert DirSlot(d, w[x].dir, w[x].slot).ino == x;
    }
  }

  ghost function Kept(w: Places, rk: Ranks, c: nat): Places
    requires Ranked(w, rk)
  {
    map x | x in w && !Under(w, rk, c, x) :: w[x]
  }

  lemma UnlinkNamed(d: Disk, e: Disk, w: Places, rk: Ranks, c: nat)
    requires Tree(d, w, rk) && c in w && Unlinked(d, e, w, rk, c)
    ensures Named(e, Kept(w, rk, c))
  {
    var w' := Kept(w, rk, c);
    UnlinkDirs(d, e, w, rk, c);
    forall x | x in w'
      ensures IsDir(e, w'[x].dir) && 2 <= w'[x].slot < Used(e.ino[w'[x].dir])
      ensures DirSlot(e, w'[x].dir, w'[x].slot).ino == x
      ensures DirSlot(e, w'[x].dir, w'[x].slot).kind == e.ino[x].kind
    {
      assert w'[x] == w[x];
      assert DirSlot(e, w[x].dir, w[x].slot) == DirSlot(d, w[x].dir, w[x].slot);
    }
  }

  lemma UnlinkEntries(d: Disk, e: Disk, w: Places, rk: Ranks, c: nat)
    requires Tree(d, w, rk) && c in w && Unlinked(d, e, w, rk, c)
    ensures EntriesOk(e, Kept(w, rk, c)) && UniqueNames(e)
  {
    UnlinkDirs(d, e, w, rk, c);
    var w' := Kept(w, rk, c);
    forall p, k | IsDir(e, p) && 2 <= k < Used(e.ino[p])
      ensures IsHole(DirSlot(e, p, k)) || IsLink(DirSlot(e, p, k), w', Place(p, k))
      ensures IsHole(DirSlot(e, p, k)) || DirSlot(e, p, k) == DirSlot(d, p, k)
    {
      var n := DirSlot(e, p, k);
      assert n == DirSlot(d, p, k) || n == EMPTY_ENTRY;
    }
  }

  lemma UnlinkDots(d: Disk, e: Disk, w: Places, rk: Ranks, c: nat)
    requires Tree(d, w, rk) && c in w && Unlinked(d, e, w, rk, c)
    ensures DotsOk(e, Kept(w, rk, c))
  {
    UnlinkDirs(d, e, w, rk, c);
    var w' := Kept(w, rk, c);
    forall p | IsDir(e, p)
      ensures 2 <= Used(e.ino[p])
      ensures DirSlot(e, p, 0) == DirEntry(p, ".", Dir)
      ensures DirSlot(e, p, 1) == DirEntry(ParentOf(w', p), "..", Dir)
    {
      assert IsDir(d, p);
      assert DirSlot(e, p, 0) == DirSlot(d, p, 0);
      assert DirSlot(e, p, 1) == DirSlot(d, p, 1);
    }
  }

  lemma UnlinkTree(d: Disk, e: Disk, w: Places, rk: Ranks, c: nat)
    requires Tree(d, w, rk) && c in w && Unlinked(d, e, w, rk, c)
    ensures Tree(e, Kept(w, rk, c), rk)
  {
    UnlinkNamed(d, e, w, rk, c);
    UnlinkEntries(d, e, w, rk, c);
    UnlinkDots(d, e, w, rk, c);
  }
}
