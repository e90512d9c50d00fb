/** The process table: slots, pids, round-robin selection, and the page frames of each process. */
module Sched {
  import opened Pmm

  const MAX_PROC := 32
  const MAX_PID := 0xFFFF

  datatype State = Empty | Ready | Running | Sleeping | Zombie

  /** frames[0..3] are the page tables pml4, pdpt, pd, pt; frames[4..7] the user stack; 0 is none. */
  type Frames = s: seq<nat> | |s| == 8 witness seq(8, _ => 0)

  datatype Process = Process(pid: nat, state: State, frames: Frames, cr3: nat, waketick: nat, exitcode: nat)

  type Table = s: seq<Process> | |s| == MAX_PROC witness seq(MAX_PROC, _ => NO_PROCESS)

  function NoFrames(): (r: Frames)
    ensures forall f :: 0 <= f < 8 ==> r[f] == 0
  {
    seq(8, _ => 0)
  }

  const NO_PROCESS := Process(0, Empty, NoFrames(), 0, 0, 0)

  // ---- who runs ----

  /** cur names the only running slot, or is -1 when none runs. */
  ghost predicate RunningOk(t: Table, cur: int) {
    && -1 <= cur < MAX_PROC
    && forall i {:trigger t[i]} :: 0 <= i < MAX_PROC ==> (t[i].state == Running <==> i == cur)
  }

  /** Occupied slots have distinct pids, none of them 0. */
  ghost predicate PidsOk(t: Table) {
    && (forall i {:trigger t[i]} :: 0 <= i < MAX_PROC && t[i].state != Empty ==> 1 <= t[i].pid <= MAX_PID)
    && (forall i, j {:trigger t[i], t[j]} :: 0 <= i < j < MAX_PROC && t[i].state != Empty && t[j].state != Empty ==>
          t[i].pid != t[j].pid)
  }

  /** Slots to go from cur, cyclically, until i comes up. */
  function Dist(cur: int, i: int): int { if i > cur then i - cur else i - cur + MAX_PROC }

  /** r is the slot that pick_ready chooses: the nearest ready one after cur other than skip, else
      skip itself if it is ready, else none. */
  ghost predicate Picks(t: Table, cur: int, skip: int, r: int)
    requires -1 <= cur < MAX_PROC
  {
    && -1 <= r < MAX_PROC
    && (r >= 0 ==> t[r].state == Ready)
    && (forall i {:trigger t[i]} :: 0 <= i < MAX_PROC && t[i].state == Ready && i != skip ==>
          r >= 0 && (r == i || (r != skip && Dist(cur, r) < Dist(cur, i))))
    && (0 <= skip < MAX_PROC && t[skip].state == Ready ==> r >= 0)
  }

  /** Whoever is ready and not chosen has come strictly closer to its turn. */
  lemma PicksCloser(t: Table, cur: int, skip: int, r: int, i: int)
    requires -1 <= cur < MAX_PROC && Picks(t, cur, skip, r)
    requires 0 <= i < MAX_PROC && t[i].state == Ready && i != skip && r != i
    ensures 0 <= r && Dist(r, i) < Dist(cur, i)
  {
    assert Dist(cur, r) < Dist(cur, i);
  }

  // ---- who owns which frame ----

  datatype Holder = Holder(slot: nat, index: nat)

  /** own is the inverse of the frame fields. */
  ghost predicate Held(t: Table, own: map<nat, Holder>) {
    && (forall i, f {:trigger t[i].frames[f]} :: 0 <= i < MAX_PROC && 0 <= f < 8 && t[i].frames[f] != 0 ==>
          t[i].frames[f] in own && own[t[i].frames[f]] == Holder(i, f))
    && (forall a {:trigger own[a]} :: a in own ==>
          a != 0 && own[a].slot < MAX_PROC && own[a].index < 8 && t[own[a].slot].frames[own[a].index] == a)
  }

  /** Empty slots hold nothing. */
  ghost predicate EmptiesBare(t: Table) {
    forall i, f {:trigger t[i].frames[f]} :: 0 <= i < MAX_PROC && 0 <= f < 8 && t[i].state == Empty ==>
      t[i].frames[f] == 0
  }

  lemma HeldPut(t: Table, own: map<nat, Holder>, i: nat, f: nat, a: nat)
    requires Held(t, own) && i < MAX_PROC && f < 8 && t[i].frames[f] == 0 && a != 0 && a !in own
    ensures Held(t[i := t[i].(frames := t[i].frames[f := a])], own[a := Holder(i, f)])
  {
    var t' := t[i := t[i].(frames := t[i].frames[f := a])];
    var own' := own[a := Holder(i, f)];
    forall j, g | 0 <= j < MAX_PROC && 0 <= g < 8 && t'[j].frames[g] != 0
      ensures t'[j].frames[g] in own' && own'[t'[j].frames[g]] == Holder(j, g)
    {
      if !(j == i && g == f) { assert t'[j].frames[g] == t[j].frames[g]; }
    }
    forall x | x in own' ensures t'[own'[x].slot].frames[own'[x].index] == x {
      if x != a { assert t[own[x].slot].frames[own[x].index] == x; }
    }
  }

  /** A record with the same frames can replace the one in slot i. */
  lemma FramesKept(t: Table, i: nat, p: Process, own: map<nat, Holder>)
    requires i < MAX_PROC && p.frames == t[i].frames
    ensures Held(t, own) ==> Held(t[i := p], own)
    ensures BareBut(t, i) ==> BareBut(t[i := p], i)
  {
    var t' := t[i := p];
    assert forall j, f {:trigger t'[j].frames[f]} :: 0 <= j < MAX_PROC && 0 <= f < 8 ==>
      t'[j].frames[f] == t[j].frames[f];
    if Held(t, own) {
      forall a | a in own
        ensures own[a].slot < MAX_PROC && own[a].index < 8 && t'[own[a].slot].frames[own[a].index] == a {
        assert t[own[a].slot].frames[own[a].index] == a;
      }
    }
  }

  lemma PutEmpty(t: Table, i: nat, p: Process, cur: int)
    requires i < MAX_PROC && i != cur && p.state == Empty && p.frames == NoFrames()
    requires RunningOk(t, cur) && PidsOk(t) && BareBut(t, i)
    ensures RunningOk(t[i := p], cur) && PidsOk(t[i := p]) && EmptiesBare(t[i := p])
  {
    var t' := t[i := p];
    forall j, f | 0 <= j < MAX_PROC && 0 <= f < 8 && t'[j].state == Empty ensures t'[j].frames[f] == 0 {
      if j != i { assert t[j].frames[f] == 0; }
    }
  }

  /** The frames alone decide who holds what. */
  lemma HeldSame(t: Table, own: map<nat, Holder>, t': Table, own': map<nat, Holder>)
    requires Held(t, own) && Held(t', own')
    requires forall i {:trigger t[i]} :: 0 <= i < MAX_PROC ==> t'[i].frames == t[i].frames
    ensures own' == own
  {
    forall a | a in own ensures a in own' && own'[a] == own[a] {
      assert t'[own[a].slot].frames[own[a].index] == t[own[a].slot].frames[own[a].index];
    }
    forall a | a in own' ensures a in own {
      assert t'[own'[a].slot].frames[own'[a].index] == t[own'[a].slot].frames[own'[a].index];
    }
  }

  lemma HeldDrop(t: Table, own: map<nat, Holder>, i: nat, f: nat)
    requires Held(t, own) && i < MAX_PROC && f < 8 && t[i].frames[f] != 0
    ensures Held(t[i := t[i].(frames := t[i].frames[f := 0])], own - {t[i].frames[f]})
    ensures t[i].frames[f] in own && |own - {t[i].frames[f]}| == |own| - 1
  {
    var a := t[i].frames[f];
    var t' := t[i := t[i].(frames := t[i].frames[f := 0])];
    var own' := own - {a};
    assert a in own && own[a] == Holder(i, f);
    forall j, g | 0 <= j < MAX_PROC && 0 <= g < 8 && t'[j].frames[g] != 0
      ensures t'[j].frames[g] in own' && own'[t'[j].frames[g]] == Holder(j, g)
    {
      assert t'[j].frames[g] == t[j].frames[g];
    }
    forall x | x in own' ensures t'[own'[x].slot].frames[own'[x].index] == x {
      assert own'[x] == own[x] && t[own[x].slot].frames[own[x].index] == x;
    }
    assert own'.Keys == own.Keys - {a};
    assert |own'| == |own'.Keys| && |own| == |own.Keys|;
  }

  /** Only frame fields differ, and only in slot i. */
  ghost predicate OnlyFrames(t: Table, t': Table, i: nat)
    requires i < MAX_PROC
  {
    && t' == t[i := t'[i]] && t'[i].(frames := t[i].frames, cr3 := t[i].cr3) == t[i]
  }

  /** Empty slots other than i hold nothing. */
  ghost predicate BareBut(t: Table, i: nat) {
    forall j, f {:trigger t[j].frames[f]} :: 0 <= j < MAX_PROC && j != i && 0 <= f < 8 && t[j].state == Empty ==>
      t[j].frames[f] == 0
  }

  lemma OnlyFramesKeeps(t: Table, t': Table, i: nat, cur: int)
    requires i < MAX_PROC && OnlyFrames(t, t', i)
    ensures RunningOk(t, cur) ==> RunningOk(t', cur)
    ensures PidsOk(t) ==> PidsOk(t')
    ensures EmptiesBare(t) || BareBut(t, i) ==> BareBut(t', i)
  {
    assert forall j {:trigger t'[j]} :: 0 <= j < MAX_PROC ==> t'[j].state == t[j].state && t'[j].pid == t[j].pid;
  }

  class Scheduler {
    const pmm: FrameMap
    var table: Table
    var cur: int
    var going: bool

    ghost var own: map<nat, Holder>
    ghost const total: nat

    /** Frames of different processes are different, all marked in the bitmap, and with the free
        ones they make up a constant number. */
    ghost predicate FramesOk()
      reads this, pmm
    {
      && pmm.Valid() && Held(table, own)
      && (forall a: nat {:trigger pmm.Marked(a)} {:trigger a in own} :: a in own ==> pmm.Marked(a))
      && pmm.freeFrames + |own| == total
    }

    ghost predicate Valid()
      reads this, pmm
    {
      FramesOk() && RunningOk(table, cur) && PidsOk(table) && EmptiesBare(table)
    }

    /** sched_init. */
    constructor (p: FrameMap)
      requires p.Valid()
      ensures Valid() && pmm == p && total == p.freeFrames && cur == -1
    {
      pmm := p;
      table := seq(MAX_PROC, _ => NO_PROCESS);
      cur, going := -1, false;
      own, total := map[], p.freeFrames;
    }

    // ---- address spaces ----

    /** Allocates a frame into field f of slot i; 0 when memory is exhausted. */
    method Grab(i: nat, f: nat) returns (a: nat)
      requires FramesOk() && i < MAX_PROC && f < 8 && table[i].frames[f] == 0
      modifies this`table, this`own, pmm
      ensures FramesOk() && OnlyFrames(old(table), table, i)
      ensures table[i].frames == old(table)[i].frames[f := a] && table[i].cr3 == old(table)[i].cr3
      ensures a == 0 <==> old(pmm.freeFrames) == 0
      ensures pmm.freeFrames == old(pmm.freeFrames) - if a == 0 then 0 else 1
    {
      ghost var k;
      a, k := pmm.AllocFrame();
      if a == 0 {
        assert table[i].frames[f := 0] == table[i].frames;
        return;
      }
      assert a !in own;
      HeldPut(table, own, i, f, a);
      table := table[i := table[i].(frames := table[i].frames[f := a])];
      own := own[a := Holder(i, f)];
    }

    /** Gives the frame in field f of slot i back, if there is one. */
    method Release(i: nat, f: nat)
      requires FramesOk() && i < MAX_PROC && f < 8
      modifies this`table, this`own, pmm
      ensures FramesOk() && OnlyFrames(old(table), table, i)
      ensures table[i].frames == old(table)[i].frames[f := 0] && table[i].cr3 == old(table)[i].cr3
      ensures pmm.freeFrames >= old(pmm.freeFrames)
    {
      var a := table[i].frames[f];
      if a == 0 {
        assert table[i].frames[f := 0] == table[i].frames;
        return;
      }
      HeldDrop(table, own, i, f);
      pmm.FreeFrame(a);
      table := table[i := table[i].(frames := table[i].frames[f := 0])];
      own := own - {a};
    }

    /** vm_free: the stack pages, then the four tables. */
    method VmFree(i: nat)
      requires FramesOk() && i < MAX_PROC
      modifies this`table, this`own, pmm
      ensures FramesOk() && OnlyFrames(old(table), table, i)
      ensures table[i].frames == NoFrames() && table[i].cr3 == 0 && pmm.freeFrames >= old(pmm.freeFrames)
    {
      hide Held;
      var k := 0;
      while k < 4
        invariant 0 <= k <= 4 && FramesOk() && OnlyFrames(old(table), table, i)
        invariant pmm.freeFrames >= old(pmm.freeFrames)
        invariant forall f :: 4 <= f < 4 + k ==> table[i].frames[f] == 0
      {
        Release(i, 4 + k);
        k := k + 1;
      }
      Release(i, 3);
      Release(i, 2);
      Release(i, 1);
      Release(i, 0);
      assert table[i].frames == NoFrames();
      SetCr3(i, 0);
    }

    method SetCr3(i: nat, v: nat)
      requires FramesOk() && i < MAX_PROC
      modifies this`table
      ensures FramesOk() && OnlyFrames(old(table), table, i)
      ensures table[i].frames == old(table)[i].frames && table[i].cr3 == v
    {
      var t := table;
      table := table[i := table[i].(cr3 := v)];
      assert forall j, f {:trigger table[j].frames[f]} :: 0 <= j < MAX_PROC && 0 <= f < 8 ==>
        table[j].frames[f] == t[j].frames[f];
    }

    /** The four page tables; true when all could be had. */
    method GrabTables(i: nat) returns (ok: bool)
      requires FramesOk() && i < MAX_PROC && table[i].frames == NoFrames() && table[i].cr3 == 0
      modifies this`table, this`own, pmm
      ensures FramesOk() && OnlyFrames(old(table), table, i) && table[i].cr3 == 0
      ensures ok <==> old(pmm.freeFrames) >= 4
      ensures ok ==> pmm.freeFrames == old(pmm.freeFrames) - 4
      ensures ok ==> forall f :: 0 <= f < 8 ==> (table[i].frames[f] != 0 <==> f < 4)
    {
      hide Held;
      var a0 := Grab(i, 0);
      var a1 := Grab(i, 1);
      var a2 := Grab(i, 2);
      var a3 := Grab(i, 3);
      ok := a0 != 0 && a1 != 0 && a2 != 0 && a3 != 0;
    }

    /** Stack pages, until memory runs out or all four are there. */
    method GrabStack(i: nat)
      requires FramesOk() && i < MAX_PROC && forall f :: 0 <= f < 8 ==> (table[i].frames[f] != 0 <==> f < 4)
      modifies this`table, this`own, pmm
      ensures FramesOk() && OnlyFrames(old(table), table, i)
      ensures table[i].cr3 == old(table)[i].cr3 && table[i].frames[0] == old(table)[i].frames[0]
      ensures forall f :: 0 <= f < 8 ==> (table[i].frames[f] != 0 <==> f < 4 + old(pmm.freeFrames))
    {
      hide Held;
      var k := 0;
      while k < 4
        invariant 0 <= k <= 4 && FramesOk() && OnlyFrames(old(table), table, i)
        invariant table[i].frames[0] == old(table)[i].frames[0] && table[i].cr3 == old(table)[i].cr3
        invariant pmm.freeFrames == old(pmm.freeFrames) - k
        invariant forall f :: 0 <= f < 8 ==> (table[i].frames[f] != 0 <==> f < 4 + k)
      {
        var a := Grab(i, 4 + k);
        if a == 0 { break; }
        k := k + 1;
      }
    }

    /** vm_new: four tables or nothing, then as many stack pages as there are. */
    method VmNew(i: nat)
      requires FramesOk() && i < MAX_PROC && table[i].frames == NoFrames() && table[i].cr3 == 0
      modifies this`table, this`own, pmm
      ensures FramesOk() && OnlyFrames(old(table), table, i)
      ensures table[i].cr3 == 0 ==> table[i].frames == NoFrames()
      ensures table[i].cr3 != 0 <==> old(pmm.freeFrames) >= 4
      ensures table[i].cr3 == 0 ==> pmm.freeFrames == old(pmm.freeFrames)
      ensures table[i].cr3 != 0 ==> forall f :: 0 <= f < 8 ==> (table[i].frames[f] != 0 <==> f < old(pmm.freeFrames))
    {
      hide Held;
      ghost var t, was := table, own;
      var ok := GrabTables(i);
      if !ok {
        VmFree(i);
        HeldSame(t, was, table, own);
        return;
      }
      GrabStack(i);
      SetCr3(i, table[i].frames[0]);
    }

    // ---- slots and pids ----

    /** pid_alloc: the smallest pid no occupied slot uses. */
    method PidAlloc() returns (pid: int)
      ensures 1 <= pid <= MAX_PID && FreshPid(table, pid)
      ensures forall p :: 1 <= p < pid ==> !FreshPid(table, p)
    {
      ghost var spare := SparePid(table);
      pid := 1;
      while pid <= MAX_PID
        invariant 1 <= pid <= MAX_PID + 1 && forall p :: 1 <= p < pid ==> !FreshPid(table, p)
      {
        var used := false;
        var i := 0;
        while i < MAX_PROC && !used
          invariant 0 <= i <= MAX_PROC
          invariant used ==> !FreshPid(table, pid)
          invariant !used ==> forall j :: 0 <= j < i ==> table[j].state == Empty || table[j].pid != pid
        {
          if table[i].state != Empty && table[i].pid == pid { used := true; }
          i := i + 1;
        }
        if !used { return; }
        pid := pid + 1;
      }
      return -1;
    }

    /** Frees the frames of a slot and empties it. */
    method Reap(i: nat)
      requires Valid() && i < MAX_PROC && i != cur
      modifies this`table, this`own, pmm
      ensures Valid() && table == old(table)[i := table[i]] && table[i].state == Empty
      ensures pmm.freeFrames >= old(pmm.freeFrames)
    {
      hide Held, RunningOk, PidsOk, EmptiesBare, BareBut;
      ghost var t := table;
      VmFree(i);
      OnlyFramesKeeps(t, table, i, cur);
      Vacate(i);
    }

    /** Marks a slot without frames empty. */
    method Vacate(i: nat)
      requires FramesOk() && i < MAX_PROC && i != cur && table[i].frames == NoFrames()
      requires RunningOk(table, cur) && PidsOk(table)
      requires BareBut(table, i)
      modifies this`table
      ensures Valid() && table == old(table)[i := table[i]] && table[i].state == Empty
    {
      hide Held, RunningOk, PidsOk, EmptiesBare, BareBut;
      var p := table[i].(pid := 0, state := Empty);
      FramesKept(table, i, p, own);
      PutEmpty(table, i, p, cur);
      table := table[i := p];
    }

    /** find_hole: the first empty slot; only when there is none the first zombie, reaped. */
    method FindHole() returns (i: int)
      requires Valid()
      modifies this`table, this`own, pmm
      ensures Valid() && -1 <= i < MAX_PROC && pmm.freeFrames >= old(pmm.freeFrames)
      ensures (exists j :: 0 <= j < MAX_PROC && old(table)[j].state == Empty) ==> table == old(table)
      ensures i >= 0 ==> table[i].state == Empty && table == old(table)[i := table[i]]
      ensures i >= 0 ==> old(table)[i].state == Empty || old(table)[i].state == Zombie
      ensures i >= 0 && old(table)[i].state == Empty ==> forall j :: 0 <= j < i ==> old(table)[j].state != Empty
      ensures i >= 0 && old(table)[i].state == Zombie ==>
        && (forall j :: 0 <= j < MAX_PROC ==> old(table)[j].state != Empty)
        && (forall j :: 0 <= j < i ==> old(table)[j].state != Zombie)
      ensures i < 0 ==> table == old(table) && forall j :: 0 <= j < MAX_PROC ==>
        table[j].state != Empty && table[j].state != Zombie
    {
      i := 0;
      while i < MAX_PROC
        invariant 0 <= i <= MAX_PROC && forall j :: 0 <= j < i ==> table[j].state != Empty
      {
        if table[i].state == Empty { return; }
        i := i + 1;
      }
      i := 0;
      while i < MAX_PROC
        invariant 0 <= i <= MAX_PROC && Valid() && table == old(table) && pmm.freeFrames == old(pmm.freeFrames)
        invariant forall j :: 0 <= j < i ==> table[j].state != Zombie
      {
        if table[i].state == Zombie {
          Reap(i);
          return;
        }
        i := i + 1;
      }
      return -1;
    }
  
    // ---- making processes ----

    /** Puts a record without frames into an empty slot. */
    method Install(i: nat, p: Process)
      requires FramesOk() && RunningOk(table, cur) && i < MAX_PROC && i != cur && BareBut(table, i)
      requires table[i].frames == p.frames && p.state != Running
      requires PidsOk(table[i := p])
      modifies this`table
      ensures FramesOk() && RunningOk(table, cur) && PidsOk(table) && BareBut(table, i) && table == old(table)[i := p]
    {
      hide Held, PidsOk, BareBut;
      FramesKept(table, i, p, own);
      table := table[i := p];
    }

    /** The body sched_spawn and fork share: a slot, a kernel stack, a pid, an address space; on any
        failure nothing is kept. */
    method Setup(stackOk: bool) returns (pid: int, i: int, tried: bool)
      requires Valid()
      modifies this`table, this`own, pmm
      ensures Valid() && -1 <= i < MAX_PROC
      ensures pid < 0 ==> i < 0 || table[i].state == Empty
      ensures pid < 0 ==> !CanStart(old(table), stackOk) || pmm.freeFrames < 4
      ensures tried <==> CanStart(old(table), stackOk)
      ensures tried && old(pmm.freeFrames) >= 4 ==> pid >= 0
      ensures pid >= 0 ==> tried
      ensures pid >= 0 ==> 0 <= i < MAX_PROC && table[i].state == Ready && table[i].pid == pid && table[i].cr3 != 0
      ensures forall j {:trigger table[j]} :: 0 <= j < MAX_PROC && j != i ==> table[j] == old(table)[j]
      ensures i >= 0 ==> old(table)[i].state == Empty || old(table)[i].state == Zombie
      ensures i >= 0 && old(table)[i].state == Zombie ==> forall e :: 0 <= e < MAX_PROC ==> old(table)[e].state != Empty
    {
      hide Held, RunningOk, PidsOk, EmptiesBare, BareBut, FreshPid;
      pid, tried := -1, false;
      i := FindHole();
      if i < 0 { return; }
      if !stackOk { return; }
      var p := PidAlloc();
      if p < 0 { return; }
      assert old(table)[i].state == Empty || old(table)[i].state == Zombie;
      tried := true;
      var ok := Occupy(i, p);
      if ok { pid := p; }
    }

    /** Fills empty slot i with a ready process and its address space, or leaves it empty. */
    method Occupy(i: nat, p: int) returns (ok: bool)
      requires Valid() && i < MAX_PROC && table[i].state == Empty && 1 <= p <= MAX_PID && FreshPid(table, p)
      modifies this`table, this`own, pmm
      ensures Valid() && table == old(table)[i := table[i]]
      ensures ok ==> table[i].state == Ready && table[i].pid == p && table[i].cr3 != 0
      ensures !ok ==> table[i].state == Empty && pmm.freeFrames < 4
      ensures ok <==> old(pmm.freeFrames) >= 4
    {
      hide Held, RunningOk, PidsOk, EmptiesBare, BareBut, FreshPid;
      EmptyFacts(table, i, cur);
      PidsEmpty(table, i, Process(p, Empty, NoFrames(), 0, 0, 0));
      ghost var t0 := table;
      Install(i, Process(p, Empty, NoFrames(), 0, 0, 0));
      ghost var t := table;
      VmNew(i);
      OnlyFramesKeeps(t, table, i, cur);
      FreshKept(t0, table, i, p);
      if table[i].cr3 == 0 {
        Vacate(i);
        return false;
      }
      PidsFresh(table, i, table[i].(state := Ready));
      Install(i, table[i].(state := Ready));
      BareAll(table, i);
      ok := true;
    }

    /** sched_spawn. It takes a zombie's slot only when no slot is empty, and has four free frames, a
        kernel stack and a slot to fail for want of. */
    method Spawn(stackOk: bool) returns (pid: int, i: int)
      requires Valid()
      modifies this`table, this`own, pmm
      ensures Valid() && -1 <= i < MAX_PROC
      ensures stackOk && (old(pmm.freeFrames) >= 4 || pmm.freeFrames >= 4) ==>
        pid >= 0 || forall j :: 0 <= j < MAX_PROC ==> old(table)[j].state != Empty && old(table)[j].state != Zombie
      ensures i >= 0 ==> old(table)[i].state == Empty || old(table)[i].state == Zombie
      ensures i >= 0 && old(table)[i].state == Zombie ==> forall e :: 0 <= e < MAX_PROC ==> old(table)[e].state != Empty
      ensures pid >= 0 ==>
        0 <= i < MAX_PROC && table[i].state == Ready && table[i].pid == pid && table[i].cr3 != 0 && stackOk
      ensures forall j {:trigger table[j]} :: 0 <= j < MAX_PROC && j != i ==> table[j] == old(table)[j]
    {
      hide Held, RunningOk, PidsOk, EmptiesBare;
      var tried;
      pid, i, tried := Setup(stackOk);
    }

    /** The fork system call; the caller keeps running. The return register gets the pid or -1, and
        keeps its old value when the address space cannot be built. */
    method Fork(stackOk: bool, imgPages: nat, rax0: int) returns (pid: int, i: int, rax: int)
      requires Valid() && cur >= 0
      modifies this`table, this`own, pmm
      ensures Valid() && table[cur] == old(table)[cur] && -1 <= i < MAX_PROC
      ensures table[cur].cr3 != 0 && imgPages != 0 && stackOk && (old(pmm.freeFrames) >= 4 || pmm.freeFrames >= 4) ==>
        pid >= 0 || forall j :: 0 <= j < MAX_PROC ==> old(table)[j].state != Empty && old(table)[j].state != Zombie
      ensures i >= 0 ==> old(table)[i].state == Empty || old(table)[i].state == Zombie
      ensures i >= 0 && old(table)[i].state == Zombie ==> forall e :: 0 <= e < MAX_PROC ==> old(table)[e].state != Empty
      ensures pid >= 0 ==>
        0 <= i < MAX_PROC && i != cur && table[i].state == Ready && table[i].pid == pid != table[cur].pid
      ensures pid >= 0 ==> table[i].cr3 != 0 && table[cur].cr3 != 0 && imgPages != 0 && stackOk
      ensures rax == if pid >= 0 then pid
        else if table[cur].cr3 == 0 || imgPages == 0 || !stackOk
          || (forall j :: 0 <= j < MAX_PROC ==> old(table)[j].state != Empty && old(table)[j].state != Zombie) then -1
        else rax0
      ensures forall j {:trigger table[j]} :: 0 <= j < MAX_PROC && j != i ==> table[j] == old(table)[j]
    {
      if table[cur].cr3 == 0 || imgPages == 0 { return -1, -1, -1; }
      var tried;
      pid, i, tried := Setup(stackOk);
      rax := if pid >= 0 then pid else if tried then rax0 else -1;
    }

    // ---- choosing ----

    /** wake_sleepers. */
    method WakeSleepers(now: nat)
      modifies this`table
      ensures table == WokenTable(old(table), now)
    {
      var i := 0;
      while i < MAX_PROC
        invariant 0 <= i <= MAX_PROC
        invariant forall j {:trigger table[j]} :: 0 <= j < MAX_PROC ==>
          table[j] == if j < i then Woken(old(table)[j], now) else old(table)[j]
      {
        if table[i].state == Sleeping && now >= table[i].waketick { table := table[i := table[i].(state := Ready)]; }
        i := i + 1;
      }
    }

    /** pick_ready. */
    method PickReady(skip: int) returns (r: int)
      requires -1 <= cur < MAX_PROC && -1 <= skip < MAX_PROC
      ensures Picks(table, cur, skip, r)
    {
      var k := 1;
      while k <= MAX_PROC
        invariant 1 <= k <= MAX_PROC + 1
        invariant forall i {:trigger table[i]} :: 0 <= i < MAX_PROC && table[i].state == Ready && i != skip ==>
          Dist(cur, i) >= k
      {
        var idx := (cur + k) % MAX_PROC;
        assert Dist(cur, idx) == k;
        if table[idx].state == Ready && idx != skip { return idx; }
        assert forall i :: 0 <= i < MAX_PROC && Dist(cur, i) == k ==> i == idx;
        k := k + 1;
      }
      if skip >= 0 && table[skip].state == Ready { return skip; }
      return -1;
    }

    /** The running process may just have been made a zombie or put to sleep. */
    ghost predicate Leaving()
      reads this, pmm
    {
      FramesOk() && Lax(table, cur) && PidsOk(table) && EmptiesBare(table)
    }

    /** sched_reschedule: wakes sleepers, requeues the running process, and gives the processor to
        the nearest ready slot. */
    method Reschedule(now: nat)
      requires Leaving()
      modifies this`table, this`cur
      ensures Valid()
      ensures if old(cur) < 0 && !going then cur == -1 && table == WokenTable(old(table), now)
              else Turn(old(table), old(cur), now, table, cur)
    {
      hide Held, PidsOk, EmptiesBare, Picks, RunningOk, Lax, SameSlots, WokenTable;
      LaxRange(table, cur);
      WokenRunning(table, cur, now);
      WakeSleepers(now);
      if cur < 0 && !going {
        SameSlotsKeeps(old(table), table, own);
        return;
      }
      var skip := -1;
      if cur >= 0 && table[cur].state == Running {
        table := table[cur := table[cur].(state := Ready)];
        skip := cur;
      }
      var r := PickReady(skip);
      TurnKeeps(old(table), cur, now, r);
      cur := r;
      if r >= 0 { table := table[r := table[r].(state := Running)]; }
      SameSlotsKeeps(old(table), table, own);
    }
  
    // ---- system calls and kernel entry points ----

    /** sched_go. */
    method Go()
      requires Valid()
      modifies this`going
      ensures Valid() && going
    {
      going := true;
    }

    /** Changes the state of the running process on its way out of the processor. */
    method Leave(p: Process)
      requires Valid() && cur >= 0
      requires p.frames == table[cur].frames && p.pid == table[cur].pid && p.state != Empty
      modifies this`table
      ensures Leaving() && table == old(table)[cur := p]
    {
      hide Held, PidsOk, EmptiesBare;
      table := table[cur := p];
      SameSlotsKeeps(old(table), table, own);
    }

    /** The exit system call, and the end of a process after a user page fault. */
    method Exit(code: nat, now: nat)
      requires Valid() && cur >= 0
      modifies this`table, this`cur
      ensures Valid()
      ensures Turn(old(table)[old(cur) := old(table)[old(cur)].(state := Zombie, exitcode := code)],
                   old(cur), now, table, cur)
      ensures cur != old(cur) && table[old(cur)].state == Zombie && table[old(cur)].exitcode == code
      ensures forall z :: 0 <= z < MAX_PROC && old(table)[z].state == Zombie ==> table[z] == old(table)[z]
    {
      hide Held, PidsOk, EmptiesBare;
      Leave(table[cur].(exitcode := code, state := Zombie));
      ghost var t, c := table, cur;
      Reschedule(now);
      TurnZombies(t, c, now, table, cur);
    }

    /** The sleep system call, in milliseconds at 100 ticks a second. */
    method Sleep(ms: nat, now: nat)
      requires Valid() && cur >= 0
      modifies this`table, this`cur
      ensures Valid()
      ensures ms == 0 ==> table == old(table) && cur == old(cur)
      ensures ms > 0 ==>
        Turn(old(table)[old(cur) := old(table)[old(cur)].(state := Sleeping, waketick := now + ms / 10)],
             old(cur), now, table, cur)
      ensures ms >= 10 ==>
        cur != old(cur) && table[old(cur)].state == Sleeping && table[old(cur)].waketick == now + ms / 10
      ensures forall z :: 0 <= z < MAX_PROC && old(table)[z].state == Zombie ==> table[z] == old(table)[z]
    {
      hide Held, PidsOk, EmptiesBare;
      if ms != 0 {
        Leave(table[cur].(state := Sleeping, waketick := now + ms / 10));
        ghost var t, c := table, cur;
        Reschedule(now);
        TurnZombies(t, c, now, table, cur);
      }
    }

    /** The yield system call and the timer tick. */
    method Yield(now: nat)
      requires Valid()
      modifies this`table, this`cur
      ensures Valid()
      ensures if old(cur) < 0 && !going then cur == -1 && table == WokenTable(old(table), now)
              else Turn(old(table), old(cur), now, table, cur)
      ensures forall z :: 0 <= z < MAX_PROC && old(table)[z].state == Zombie ==> table[z] == old(table)[z]
    {
      hide Held, PidsOk, EmptiesBare, Turn;
      ghost var t, c := table, cur;
      Reschedule(now);
      if c >= 0 || going { TurnZombies(t, c, now, table, cur); }
    }

    /** The first zombie, or the zombie with the wanted pid. */
    method FindZombie(want: nat) returns (i: int)
      ensures -1 <= i < MAX_PROC
      ensures i >= 0 ==> table[i].state == Zombie && (want == 0 || table[i].pid == want)
      ensures forall j :: 0 <= j < i ==> !(table[j].state == Zombie && (want == 0 || table[j].pid == want))
      ensures i < 0 ==> forall j :: 0 <= j < MAX_PROC ==>
        !(table[j].state == Zombie && (want == 0 || table[j].pid == want))
    {
      i := 0;
      while i < MAX_PROC
        invariant 0 <= i <= MAX_PROC
        invariant forall j :: 0 <= j < i ==> !(table[j].state == Zombie && (want == 0 || table[j].pid == want))
      {
        if table[i].state == Zombie && (want == 0 || table[i].pid == want) { return; }
        i := i + 1;
      }
      return -1;
    }

    /** The wait system call and sched_wait: reaps a zombie and returns its exit code. */
    method Wait(want: nat) returns (code: int)
      requires Valid()
      modifies this`table, this`own, pmm
      ensures Valid()
      ensures code < 0 ==> table == old(table)
      ensures code < 0 <==> forall j :: 0 <= j < MAX_PROC ==>
        !(old(table)[j].state == Zombie && (want == 0 || old(table)[j].pid == want))
      ensures code >= 0 ==> exists i :: 0 <= i < MAX_PROC && ReapedAt(old(table), table, i, want, code)
      ensures forall z :: 0 <= z < MAX_PROC && old(table)[z].state == Zombie && want == old(table)[z].pid ==>
        code == old(table)[z].exitcode
      ensures forall z :: 0 <= z < MAX_PROC && want != 0 && want != old(table)[z].pid ==> table[z] == old(table)[z]
    {
      hide Held, PidsOk, EmptiesBare;
      var i := FindZombie(want);
      if i < 0 { return -1; }
      code := table[i].exitcode;
      PidsMean(table);
      Reap(i);
      assert ReapedAt(old(table), table, i, want, code);
    }

    /** sched_kill: any process but the running one. */
    method Kill(pid: nat) returns (ok: bool)
      requires Valid()
      modifies this`table, this`own, pmm
      ensures Valid()
      ensures !ok ==> table == old(table)
      ensures forall z :: 0 <= z < MAX_PROC && pid != old(table)[z].pid ==> table[z] == old(table)[z]
      ensures ok ==> exists i ::
        0 <= i < MAX_PROC && i != cur && old(table)[i].pid == pid && ClearedAt(old(table), table, i)
      ensures ok <==> exists i ::
        0 <= i < MAX_PROC && i != cur && old(table)[i].state != Empty && old(table)[i].pid == pid
    {
      hide Held, EmptiesBare;
      var i := 0;
      while i < MAX_PROC && !(table[i].state != Empty && table[i].pid == pid)
        invariant 0 <= i <= MAX_PROC && forall j :: 0 <= j < i ==> !(table[j].state != Empty && table[j].pid == pid)
      {
        i := i + 1;
      }
      if i == MAX_PROC || i == cur { return false; }
      Reap(i);
      assert i != cur && old(table)[i].pid == pid && ClearedAt(old(table), table, i);
      return true;
    }
  }

  /** Slot i, in use before, is empty now, and no other slot changed. */
  predicate ClearedAt(t: Table, t': Table, i: nat)
    requires i < MAX_PROC
  {
    t[i].state != Empty && t'[i].state == Empty && t' == t[i := t'[i]]
  }

  /** Slot i held a zombie with this exit code, the one asked for, and only that slot is cleared. */
  predicate ReapedAt(t: Table, t': Table, i: nat, want: nat, code: int)
    requires i < MAX_PROC
  {
    t[i].state == Zombie && t[i].exitcode == code && (want == 0 || t[i].pid == want) && ClearedAt(t, t', i)
  }

  function WokenTable(t: Table, now: nat): (r: Table)
    ensures forall j {:trigger r[j]} :: 0 <= j < MAX_PROC ==> r[j] == Woken(t[j], now)
  {
    seq(MAX_PROC, (j: nat) requires j < MAX_PROC => Woken(t[j], now))
  }

  /** The table pick_ready looks at: sleepers woken, the running process back among the ready. */
  function Requeued(t: Table, cur: int, now: nat): Table
    requires -1 <= cur < MAX_PROC
  {
    var w := WokenTable(t, now);
    if cur >= 0 && w[cur].state == Running then w[cur := w[cur].(state := Ready)] else w
  }

  function SkipOf(t: Table, cur: int): int
    requires -1 <= cur < MAX_PROC
  {
    if cur >= 0 && t[cur].state == Running then cur else -1
  }

  function Dispatched(t: Table, r: int): Table
    requires -1 <= r < MAX_PROC
  {
    if r >= 0 then t[r := t[r].(state := Running)] else t
  }

  /** One turn of the scheduler. */
  ghost predicate Turn(t: Table, cur: int, now: nat, t': Table, r: int)
    requires -1 <= cur < MAX_PROC
  {
    && Picks(Requeued(t, cur, now), cur, SkipOf(t, cur), r)
    && t' == Dispatched(Requeued(t, cur, now), r)
  }

  lemma LaxRange(t: Table, cur: int)
    requires Lax(t, cur)
    ensures -1 <= cur < MAX_PROC
  {}

  lemma WokenRunning(t: Table, cur: int, now: nat)
    requires Lax(t, cur)
    ensures SameSlots(t, WokenTable(t, now)) && (cur < 0 ==> RunningOk(WokenTable(t, now), cur))
    ensures cur >= 0 ==> (WokenTable(t, now)[cur].state == Running <==> t[cur].state == Running)
  {}

  lemma TurnKeeps(t: Table, cur: int, now: nat, r: int)
    requires Lax(t, cur) && Picks(Requeued(t, cur, now), cur, SkipOf(t, cur), r)
    ensures -1 <= r < MAX_PROC
    ensures RunningOk(Dispatched(Requeued(t, cur, now), r), r) && SameSlots(t, Dispatched(Requeued(t, cur, now), r))
  {
    var q := Requeued(t, cur, now);
    assert forall j {:trigger q[j]} :: 0 <= j < MAX_PROC ==> q[j].state != Running;
    assert SameSlots(t, q);
  }

  /** A slot that is ready before a turn and not chosen by it has come strictly closer to its own
      turn, whatever the other slots are. */
  lemma TurnCloser(t: Table, cur: int, now: nat, t': Table, r: int, i: nat)
    requires -1 <= cur < MAX_PROC && Turn(t, cur, now, t', r) && i < MAX_PROC && t[i].state == Ready && r != i
    ensures r >= 0 && t'[i].state == Ready && Dist(r, i) < Dist(cur, i)
  {
    var q := Requeued(t, cur, now);
    assert q[i].state == Ready && i != SkipOf(t, cur);
    PicksCloser(q, cur, SkipOf(t, cur), r, i);
  }

  /** The whole table after a turn: r runs, sleepers that are due and the process that ran are ready,
      and nothing else changes. */
  lemma TurnTable(t: Table, cur: int, now: nat, t': Table, r: int)
    requires -1 <= cur < MAX_PROC && Turn(t, cur, now, t', r)
    ensures forall j {:trigger t'[j]} :: 0 <= j < MAX_PROC ==>
      t'[j] == if j == r then t[j].(state := Running)
               else if t[j].state == Sleeping && t[j].waketick <= now then t[j].(state := Ready)
               else if j == cur && t[j].state == Running then t[j].(state := Ready)
               else t[j]
  {}

  /** The m-th slot after cur, going round, is ready, or asleep and due. */
  predicate Due(t: Table, cur: int, m: int, now: nat) {
    var i := (cur + m) % 32;
    t[i].state == Ready || (t[i].state == Sleeping && t[i].waketick <= now)
  }

  /** The order is that of the slots, from the one after cur round to cur itself: the first that is due
      runs next. */
  lemma TurnNext(t: Table, cur: int, now: nat, t': Table, r: int, k: nat)
    requires -1 <= cur < MAX_PROC && Turn(t, cur, now, t', r)
    requires 1 <= k <= 32 && Due(t, cur, k, now) && forall m :: 1 <= m < k ==> !Due(t, cur, m, now)
    ensures r == (cur + k) % 32
  {
    var q, i := Requeued(t, cur, now), (cur + k) % 32;
    assert q[i].state == Ready && i != SkipOf(t, cur) && Dist(cur, i) == k;
    if r != i {
      assert r == (cur + Dist(cur, r)) % 32 && Due(t, cur, Dist(cur, r), now);
    }
  }

  /** When none is due, the process that ran goes on, if it still runs. */
  lemma TurnAlone(t: Table, cur: int, now: nat, t': Table, r: int)
    requires -1 <= cur < MAX_PROC && Turn(t, cur, now, t', r)
    requires forall i :: 0 <= i < MAX_PROC ==> t[i].state == Running ==> i == cur
    requires forall m :: 1 <= m <= 32 ==> !Due(t, cur, m, now)
    ensures r == if cur >= 0 && t[cur].state == Running then cur else -1
  {
    var q := Requeued(t, cur, now);
    if r >= 0 {
      assert q[r].state == Ready && r == (cur + Dist(cur, r)) % 32;
      assert !Due(t, cur, Dist(cur, r), now);
    }
  }

  /** Zombies wait to be reaped: no turn touches one. */
  lemma TurnZombies(t: Table, cur: int, now: nat, t': Table, r: int)
    requires -1 <= cur < MAX_PROC && Turn(t, cur, now, t', r)
    ensures forall z {:trigger t'[z]} :: 0 <= z < MAX_PROC && t[z].state == Zombie ==> t'[z] == t[z]
  {
    var q := Requeued(t, cur, now);
    if r >= 0 { assert q[r].state == Ready; }
  }

  datatype Snap = Snap(table: Table, cur: int)

  /** A turn of the scheduler at some tick, or any other step, which leaves cur alone. */
  datatype Move = Tick(now: nat) | Other

  ghost predicate History(h: seq<Snap>, moves: seq<Move>) {
    && |h| == |moves| + 1
    && (forall k {:trigger h[k]} :: 0 <= k < |h| ==> -1 <= h[k].cur < MAX_PROC)
    && forall k {:trigger moves[k]} :: 0 <= k < |moves| ==>
         match moves[k]
         case Tick(now) => Turn(h[k].table, h[k].cur, now, h[k + 1].table, h[k + 1].cur)
         case Other => h[k + 1].cur == h[k].cur
  }

  function Ticks(moves: seq<Move>): nat {
    if moves == [] then 0 else Ticks(moves[..|moves| - 1]) + if moves[|moves| - 1].Tick? then 1 else 0
  }

  /** Bounded waiting: over any history in which slot i is ready throughout, and so never chosen,
      there are fewer than MAX_PROC turns, whatever the other processes do meanwhile. */
  lemma {:induction false} BoundedWaiting(h: seq<Snap>, moves: seq<Move>, i: nat)
    requires History(h, moves) && i < MAX_PROC
    requires forall k {:trigger h[k]} :: 0 <= k < |h| ==> h[k].table[i].state == Ready
    ensures Ticks(moves) + Dist(h[|moves|].cur, i) <= Dist(h[0].cur, i)
    ensures Ticks(moves) < MAX_PROC
    decreases |moves|
  {
    var n := |moves|;
    if n > 0 {
      var h', moves' := h[..n], moves[..n - 1];
      assert forall k {:trigger h'[k]} :: 0 <= k < n ==> h'[k] == h[k];
      BoundedWaiting(h', moves', i);
      match moves[n - 1] {
        case Tick(now) =>
          var r := h[n].cur;
          assert Turn(h[n - 1].table, h[n - 1].cur, now, h[n].table, r);
          assert h[n].table[i].state == Ready;
          TurnCloser(h[n - 1].table, h[n - 1].cur, now, h[n].table, r, i);
        case Other =>
      }
    }
  }

  /** The processor idles exactly when no process can run. */
  lemma TurnIdle(t: Table, cur: int, now: nat, t': Table, r: int)
    requires Lax(t, cur) && Turn(t, cur, now, t', r)
    ensures r < 0 <==> forall j :: 0 <= j < MAX_PROC ==> !Runnable(t[j], now)
  {
    var q := Requeued(t, cur, now);
    assert forall j {:trigger q[j]} {:trigger t[j]} :: 0 <= j < MAX_PROC ==>
      (q[j].state == Ready <==> Runnable(t[j], now));
    if r < 0 {
      forall j | 0 <= j < MAX_PROC ensures !Runnable(t[j], now) { assert q[j].state != Ready; }
    }
  }

  /** Pids, frames and emptiness agree slot by slot. */
  ghost predicate SameSlots(t: Table, t': Table) {
    forall j {:trigger t[j]} {:trigger t'[j]} :: 0 <= j < MAX_PROC ==>
      t'[j].pid == t[j].pid && t'[j].frames == t[j].frames && (t'[j].state == Empty <==> t[j].state == Empty)
  }

  lemma SameSlotsKeeps(t: Table, t': Table, own: map<nat, Holder>)
    requires SameSlots(t, t')
    ensures Held(t, own) ==> Held(t', own)
    ensures PidsOk(t) ==> PidsOk(t')
    ensures EmptiesBare(t) ==> EmptiesBare(t')
  {
    assert forall j, f {:trigger t'[j].frames[f]} :: 0 <= j < MAX_PROC && 0 <= f < 8 ==>
      t'[j].frames[f] == t[j].frames[f];
    assert forall a {:trigger own[a]} :: a in own && own[a].slot < MAX_PROC && own[a].index < 8 ==>
      t'[own[a].slot].frames[own[a].index] == t[own[a].slot].frames[own[a].index];
  }

  /** A sleeping process whose time has come is ready. */
  function Woken(p: Process, now: nat): Process {
    if p.state == Sleeping && now >= p.waketick then p.(state := Ready) else p
  }

  predicate Runnable(p: Process, now: nat) {
    p.state == Ready || p.state == Running || (p.state == Sleeping && now >= p.waketick)
  }

  /** Only cur may be running, and it is not empty. */
  ghost predicate Lax(t: Table, cur: int) {
    && -1 <= cur < MAX_PROC && (cur >= 0 ==> t[cur].state != Empty)
    && forall i {:trigger t[i]} :: 0 <= i < MAX_PROC && t[i].state == Running ==> i == cur
  }

  lemma EmptyFacts(t: Table, i: nat, cur: int)
    requires i < MAX_PROC && t[i].state == Empty && EmptiesBare(t) && RunningOk(t, cur)
    ensures t[i].frames == NoFrames() && i != cur && BareBut(t, i)
  {
    assert forall f :: 0 <= f < 8 ==> t[i].frames[f] == 0;
  }

  /** Pids are distinct and not zero. */
  lemma PidsMean(t: Table)
    requires PidsOk(t)
    ensures forall i, j ::
      (0 <= i < j < MAX_PROC && t[i].state != Empty && t[j].state != Empty) ==> t[i].pid != t[j].pid
    ensures forall i :: 0 <= i < MAX_PROC && t[i].state != Empty ==> t[i].pid != 0
  {}

  lemma PidsEmpty(t: Table, i: nat, p: Process)
    requires i < MAX_PROC && PidsOk(t) && p.state == Empty
    ensures PidsOk(t[i := p])
  {}

  lemma PidsFresh(t: Table, i: nat, p: Process)
    requires i < MAX_PROC && PidsOk(t) && FreshPid(t, p.pid) && 1 <= p.pid <= MAX_PID
    ensures PidsOk(t[i := p])
  {}

  lemma FreshKept(t: Table, t': Table, i: nat, pid: int)
    requires i < MAX_PROC && t' == t[i := t'[i]] && t'[i].state == Empty && FreshPid(t, pid)
    ensures FreshPid(t', pid)
  {
    assert forall j {:trigger t'[j]} :: 0 <= j < MAX_PROC && j != i ==> t'[j] == t[j];
  }

  lemma BareAll(t: Table, i: nat)
    requires i < MAX_PROC && BareBut(t, i) && t[i].state != Empty
    ensures EmptiesBare(t)
  {}

  ghost function PidsBelow(t: Table, n: nat): set<int>
    requires n <= MAX_PROC
  {
    set i | 0 <= i < n :: t[i].pid
  }

  lemma {:induction false} PidsBelowFew(t: Table, n: nat)
    requires n <= MAX_PROC
    ensures |PidsBelow(t, n)| <= n
  {
    if n == 0 {
      assert PidsBelow(t, 0) == {};
    } else {
      PidsBelowFew(t, n - 1);
      assert PidsBelow(t, n) == PidsBelow(t, n - 1) + {t[n - 1].pid};
    }
  }

  /** The numbers 1 to n. */
  ghost function UpTo(n: nat): (s: set<int>)
    ensures |s| == n && forall p :: p in s <==> 1 <= p <= n
  {
    if n == 0 then {} else UpTo(n - 1) + {n}
  }

  lemma Fewer(a: set<int>, b: set<int>)
    requires a <= b
    ensures |a| <= |b|
  {
    assert b == a + (b - a);
  }

  /** There are more pids than slots. */
  lemma SparePid(t: Table) returns (p: int)
    ensures 1 <= p <= MAX_PROC + 1 && FreshPid(t, p)
  {
    PidsBelowFew(t, MAX_PROC);
    if UpTo(MAX_PROC + 1) <= PidsBelow(t, MAX_PROC) { Fewer(UpTo(MAX_PROC + 1), PidsBelow(t, MAX_PROC)); }
    p :| p in UpTo(MAX_PROC + 1) && p !in PidsBelow(t, MAX_PROC);
    assert forall i {:trigger t[i]} :: 0 <= i < MAX_PROC ==> t[i].pid in PidsBelow(t, MAX_PROC);
  }

  /** A process can be made: a kernel stack is there and a slot is empty or a zombie. */
  predicate CanStart(t: Table, stackOk: bool) {
    stackOk && exists j :: 0 <= j < MAX_PROC && (t[j].state == Empty || t[j].state == Zombie)
  }

  /** No occupied slot uses this pid. */
  ghost predicate FreshPid(t: Table, pid: int) {
    forall i {:trigger t[i]} :: 0 <= i < MAX_PROC && t[i].state != Empty ==> t[i].pid != pid
  }

  // ---- whole runs ----

  /** Entry points of the scheduler; kernel stacks, shared image pages and the return register are
      given by the caller. */
  datatype Call =
    | CallGo
    | CallSpawn(stackOk: bool)
    | CallFork(stackOk: bool, imgPages: nat, rax: int)
    | CallExit(code: nat, now: nat)
    | CallSleep(ms: nat, now: nat)
    | CallYield(now: nat)
    | CallWait(want: nat)
    | CallKill(pid: nat)

  lemma HistoryOther(h: seq<Snap>, moves: seq<Move>, t: Table)
    requires History(h, moves)
    ensures History(h + [Snap(t, h[|moves|].cur)], moves + [Other])
  {
    var h', m' := h + [Snap(t, h[|moves|].cur)], moves + [Other];
    assert forall k {:trigger h'[k]} :: 0 <= k < |h| ==> h'[k] == h[k];
    assert forall k {:trigger m'[k]} :: 0 <= k < |moves| ==> m'[k] == moves[k];
  }

  lemma HistoryTick(h: seq<Snap>, moves: seq<Move>, now: nat, t: Table, r: int)
    requires History(h, moves) && -1 <= r < MAX_PROC && Turn(h[|moves|].table, h[|moves|].cur, now, t, r)
    ensures History(h + [Snap(t, r)], moves + [Tick(now)]) && Ticks(moves + [Tick(now)]) == Ticks(moves) + 1
  {
    hide Turn;
    var h', m' := h + [Snap(t, r)], moves + [Tick(now)];
    assert forall k {:trigger h'[k]} :: 0 <= k < |h| ==> h'[k] == h[k];
    assert forall k {:trigger m'[k]} :: 0 <= k < |moves| ==> m'[k] == moves[k];
    assert m'[..|moves|] == moves;
  }

  /** The snapshots before a call, extended by those of the call: a change of the running process's
      state and the turn that follows it are two moves. */
  ghost function Grown(h: seq<Snap>, call: Call, t: Table, cur: int): seq<Snap>
    requires h != [] && -1 <= h[|h| - 1].cur < MAX_PROC
  {
    var o := h[|h| - 1];
    h + (if Leaves(o, call) then [Snap(Left(o, call), o.cur)] else []) + [Snap(t, cur)]
  }

  ghost function GrownMoves(h: seq<Snap>, moves: seq<Move>, call: Call, going: bool): seq<Move>
    requires h != []
  {
    var o := h[|h| - 1];
    moves + (if Leaves(o, call) then [Other] else []) + [if Turns(o, call, going) then Tick(call.now) else Other]
  }

  /** The call takes the running process off the processor first. */
  predicate Leaves(o: Snap, call: Call) { o.cur >= 0 && (call.CallExit? || (call.CallSleep? && call.ms > 0)) }

  /** The call makes a turn. */
  predicate Turns(o: Snap, call: Call, going: bool) { Leaves(o, call) || (call.CallYield? && (o.cur >= 0 || going)) }

  function Left(o: Snap, call: Call): Table
    requires -1 <= o.cur < MAX_PROC && Leaves(o, call)
  {
    match call
    case CallExit(code, _) => o.table[o.cur := o.table[o.cur].(state := Zombie, exitcode := code)]
    case CallSleep(ms, now) => o.table[o.cur := o.table[o.cur].(state := Sleeping, waketick := now + ms / 10)]
    case _ => o.table
  }

  /** The turn that the call makes from snapshot o. */
  ghost predicate TurnOf(o: Snap, call: Call, t: Table, cur: int)
    requires -1 <= o.cur < MAX_PROC && (call.CallExit? || call.CallSleep? || call.CallYield?)
  {
    Turn(if Leaves(o, call) then Left(o, call) else o.table, o.cur, call.now, t, cur)
  }

  /** One call; the system calls are made only while a process runs. */
  method Perform(s: Scheduler, call: Call)
    requires s.Valid()
    modifies s, s.pmm
    ensures s.Valid() && (s.going <==> old(s.going) || call.CallGo?)
    ensures !Turns(old(Snap(s.table, s.cur)), call, old(s.going)) ==> s.cur == old(s.cur)
    ensures -1 <= old(s.cur) < MAX_PROC
    ensures Turns(old(Snap(s.table, s.cur)), call, old(s.going)) ==>
      TurnOf(old(Snap(s.table, s.cur)), call, s.table, s.cur)
    ensures forall z :: 0 <= z < MAX_PROC && Spares(old(s.table), call, z) ==> s.table[z] == old(s.table)[z]
  {
    hide Held, PidsOk, EmptiesBare, Turn;
    match call {
      case CallGo => s.Go();
      case CallSpawn(stackOk) => var _, _ := s.Spawn(stackOk);
      case CallFork(stackOk, imgPages, rax) => if s.cur >= 0 { var _, _, _ := s.Fork(stackOk, imgPages, rax); }
      case CallExit(code, now) => if s.cur >= 0 { s.Exit(code, now); }
      case CallSleep(ms, now) => if s.cur >= 0 { s.Sleep(ms, now); }
      case CallYield(now) => s.Yield(now);
      case CallWait(want) => var _ := s.Wait(want);
      case CallKill(pid) => var _ := s.Kill(pid);
    }
  }

  /** Slot z is a zombie that the call does not reap or kill, nor takes for want of an empty slot. */
  predicate Spares(t: Table, call: Call, z: nat)
    requires z < MAX_PROC
  {
    && t[z].state == Zombie
    && (call.CallWait? ==> call.want != 0 && call.want != t[z].pid)
    && (call.CallKill? ==> call.pid != t[z].pid)
    && (call.CallSpawn? || call.CallFork? ==> exists e :: 0 <= e < MAX_PROC && t[e].state == Empty)
  }

  /** A zombie's exit code is kept for whoever waits for it: after any calls none of which waits for
      any process or for it, kills it, or makes a process when no slot is empty, Wait gives the code. */
  method ExitKept(s: Scheduler, calls: seq<Call>, z: nat) returns (code: int, ghost tables: seq<Table>)
    requires s.Valid() && z < MAX_PROC && s.table[z].state == Zombie
    modifies s, s.pmm
    ensures s.Valid() && |tables| == |calls| + 1 && tables[0] == old(s.table)
    ensures (forall k :: 0 <= k < |calls| ==> Spares(tables[k], calls[k], z)) ==> code == old(s.table)[z].exitcode
  {
    hide Held, PidsOk, EmptiesBare, Turn, Turns, Spares, RunningOk;
    tables := [s.table];
    var pid := s.table[z].pid;
    for k := 0 to |calls|
      invariant s.Valid() && |tables| == k + 1 && tables[0] == old(s.table) && tables[k] == s.table
      invariant (forall i :: 0 <= i < k ==> Spares(tables[i], calls[i], z)) ==> s.table[z] == old(s.table)[z]
    {
      Perform(s, calls[k]);
      tables := tables + [s.table];
    }
    code := s.Wait(pid);
  }

  lemma GrownHistory(h: seq<Snap>, moves: seq<Move>, call: Call, going: bool, t: Table, cur: int)
    requires History(h, moves) && -1 <= cur < MAX_PROC && -1 <= h[|h| - 1].cur < MAX_PROC
    requires !Turns(h[|h| - 1], call, going) ==> cur == h[|h| - 1].cur
    requires Turns(h[|h| - 1], call, going) ==> TurnOf(h[|h| - 1], call, t, cur)
    ensures History(Grown(h, call, t, cur), GrownMoves(h, moves, call, going))
  {
    hide Turn;
    var o := h[|h| - 1];
    if Leaves(o, call) {
      HistoryOther(h, moves, Left(o, call));
      HistoryTick(h + [Snap(Left(o, call), o.cur)], moves + [Other], call.now, t, cur);
    } else {
      assert h + [] == h && moves + [] == moves;
      if Turns(o, call, going) { HistoryTick(h, moves, call.now, t, cur); } else { HistoryOther(h, moves, t); }
    }
  }

  /** Any sequence of calls: one running slot named by cur or none, distinct pids, frames not shared,
      and free plus held frames as at the start. The snapshots of the table form a history, so a
      process that is ready in all of them has been passed over in fewer than MAX_PROC turns. */
  method Run(s: Scheduler, calls: seq<Call>) returns (ghost h: seq<Snap>, ghost moves: seq<Move>)
    requires s.Valid()
    modifies s, s.pmm
    ensures s.Valid()
    ensures RunningOk(s.table, s.cur) && PidsOk(s.table) && Held(s.table, s.own)
    ensures s.pmm.freeFrames + |s.own| == old(s.pmm.freeFrames + |s.own|)
    ensures History(h, moves) && h[0] == old(Snap(s.table, s.cur)) && h[|h| - 1] == Snap(s.table, s.cur)
    ensures forall i: nat :: i < MAX_PROC && ReadyIn(h, i) ==> Ticks(moves) < MAX_PROC
  {
    hide Held, PidsOk, EmptiesBare, Turn, Turns, Leaves, History, Ticks;
    h, moves := [Snap(s.table, s.cur)], [];
    HistoryStart(s.table, s.cur);
    for k := 0 to |calls|
      invariant s.Valid() && History(h, moves) && h != [] && h[0] == old(Snap(s.table, s.cur)) &&
        h[|h| - 1] == Snap(s.table, s.cur)
    {
      ghost var going := s.going;
      Perform(s, calls[k]);
      GrownHistory(h, moves, calls[k], going, s.table, s.cur);
      moves := GrownMoves(h, moves, calls[k], going);
      h := Grown(h, calls[k], s.table, s.cur);
    }
    forall i: nat | i < MAX_PROC && ReadyIn(h, i) ensures Ticks(moves) < MAX_PROC { BoundedWaiting(h, moves, i); }
  }

  /** Slot i is ready in every snapshot. */
  ghost predicate ReadyIn(h: seq<Snap>, i: nat)
    requires i < MAX_PROC
  {
    forall k {:trigger h[k]} :: 0 <= k < |h| ==> h[k].table[i].state == Ready
  }

  lemma HistoryStart(t: Table, cur: int)
    requires -1 <= cur < MAX_PROC
    ensures History([Snap(t, cur)], [])
  {}

  /** No two processes hold the same frame, and none holds one twice. */
  lemma FramesApart(t: Table, own: map<nat, Holder>, i: nat, f: nat, j: nat, g: nat)
    requires Held(t, own) && i < MAX_PROC && j < MAX_PROC && f < 8 && g < 8
    requires t[i].frames[f] == t[j].frames[g] != 0
    ensures i == j && f == g
  {
    assert own[t[i].frames[f]] == Holder(i, f) && own[t[j].frames[g]] == Holder(j, g);
  }
}
