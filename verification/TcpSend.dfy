/** The send half of a TCP control block before close: the ring of unacknowledged slots and
    the Nagle buffer, against the bytes the application has handed over. */
module TcpSend {
  import opened Basics
  import opened TcpStream

  const TXQ := 8
  datatype TxSlot = TxSlot(pend: bool, sacked: bool, seqno: nat, data: seq<byte>)

  type Slots = s: seq<TxSlot> | |s| == TXQ witness seq(TXQ, _ => TxSlot(false, false, 0, []))

  /** A data segment put on the wire. */
  datatype Wire = Wire(seqno: nat, data: seq<byte>)

  /** Ring position of the i-th pending slot. */
  function Idx(tail: nat, i: nat): nat { if tail + i < TXQ then tail + i else tail + i - TXQ }

  /** The pending slots are the cnt slots from tail up to head. */
  ghost predicate Contiguous(slots: Slots, head: nat, tail: nat, cnt: nat) {
    && tail < TXQ && cnt <= TXQ && head == Idx(tail, cnt) % TXQ
    && forall i {:trigger slots[Idx(tail, i)]} :: 0 <= i < TXQ ==> (slots[Idx(tail, i)].pend <==> i < cnt)
  }

  /** The pending slots, oldest first. */
  ghost function Queue(slots: Slots, tail: nat, cnt: nat): (q: seq<TxSlot>)
    requires tail < TXQ && cnt <= TXQ
    ensures |q| == cnt
  {
    seq(cnt, (i: nat) requires i < cnt => slots[Idx(tail, i)])
  }

  function End(s: TxSlot): nat { s.seqno + |s.data| }

  /** The queue tiles the sequence space from at or below una up to nxt with stream bytes. */
  ghost predicate Tiled(q: seq<TxSlot>, una: nat, nxt: nat, stream: seq<byte>, base: nat) {
    && (forall i {:trigger q[i]} :: 0 <= i < |q| ==>
          0 < |q[i].data| <= MSS && Carries(stream, base, q[i].seqno, q[i].data))
    && (forall i {:trigger q[i]} :: 0 <= i < |q| ==> End(q[i]) == if i + 1 < |q| then q[i + 1].seqno else nxt)
    && (if q == [] then una == nxt else q[0].seqno <= una < End(q[0]))
  }

  /** All data of the queue, end to end. */
  ghost function Flat(q: seq<TxSlot>): seq<byte> {
    if q == [] then [] else q[0].data + Flat(q[1..])
  }

  lemma TiledHead(q: seq<TxSlot>, una: nat, nxt: nat, stream: seq<byte>, base: nat)
    requires q != [] && Tiled(q, una, nxt, stream, base)
    ensures Carries(stream, base, q[0].seqno, q[0].data)
    ensures End(q[0]) == if |q| > 1 then q[1].seqno else nxt
  {}

  /** Slot data, end to end, is the stretch of the stream from the first pending slot to nxt. */
  lemma {:induction false} FlatIs(q: seq<TxSlot>, una: nat, nxt: nat, stream: seq<byte>, base: nat)
    requires q != [] && Tiled(q, una, nxt, stream, base)
    ensures base <= q[0].seqno <= nxt <= base + |stream|
    ensures Flat(q) == stream[q[0].seqno - base .. nxt - base]
    decreases |q|
  {
    hide Tiled, Flat;
    TiledHead(q, una, nxt, stream, base);
    FlatFirst(q);
    var a, m := q[0].seqno - base, End(q[0]) - base;
    if |q| > 1 {
      TiledPop(q, una, nxt, stream, base);
      FlatIs(q[1..], End(q[0]), nxt, stream, base);
      assert stream[a .. nxt - base] == stream[a .. m] + stream[m .. nxt - base];
    }
  }

  lemma FlatFirst(q: seq<TxSlot>)
    requires q != []
    ensures Flat(q) == if |q| > 1 then q[0].data + Flat(q[1..]) else q[0].data
  {
    assert |q| == 1 ==> q[0].data + Flat(q[1..]) == q[0].data;
  }

  /** The oldest slot and the counters still fit when una moves up inside the oldest slot. */
  lemma TiledAdvance(q: seq<TxSlot>, u: nat, ack: nat, nxt: nat, stream: seq<byte>, base: nat)
    requires Tiled(q, u, nxt, stream, base) && u <= ack <= nxt && (q != [] ==> ack < End(q[0]))
    ensures Tiled(q, ack, nxt, stream, base)
  {}

  /** The slot at tail tells whether anything is pending. */
  lemma TailIs(slots: Slots, head: nat, tail: nat, cnt: nat)
    requires Contiguous(slots, head, tail, cnt)
    ensures head < TXQ && tail < TXQ && cnt <= TXQ && (slots[tail].pend <==> cnt > 0)
    ensures cnt > 0 ==> Queue(slots, tail, cnt)[0] == slots[tail]
    ensures head == tail && slots[head].pend <==> cnt == TXQ
  {
    assert slots[Idx(tail, 0)].pend <==> 0 < cnt;
  }

  /** Filling the slot at head appends to the queue. */
  lemma PushQueue(slots: Slots, head: nat, tail: nat, cnt: nat, x: TxSlot)
    requires Contiguous(slots, head, tail, cnt) && cnt < TXQ && x.pend
    ensures Contiguous(slots[head := x], (head + 1) % TXQ, tail, cnt + 1)
    ensures Queue(slots[head := x], tail, cnt + 1) == Queue(slots, tail, cnt) + [x]
  {
    HeadIs(slots, head, tail, cnt);
    var slots' := slots[head := x];
    forall i | 0 <= i < TXQ ensures slots'[Idx(tail, i)] == if i == cnt then x else slots[Idx(tail, i)] {
      IdxApart(tail, i, cnt);
    }
    var q, q' := Queue(slots, tail, cnt), Queue(slots', tail, cnt + 1);
    forall i | 0 <= i < cnt + 1 ensures q'[i] == (q + [x])[i] {}
  }

  lemma HeadIs(slots: Slots, head: nat, tail: nat, cnt: nat)
    requires Contiguous(slots, head, tail, cnt) && cnt < TXQ
    ensures head == Idx(tail, cnt) < TXQ && (head + 1) % TXQ == Idx(tail, cnt + 1) % TXQ
  {}

  lemma IdxApart(tail: nat, i: nat, j: nat)
    requires tail < TXQ && i < TXQ && j < TXQ
    ensures Idx(tail, i) < TXQ && (Idx(tail, i) == Idx(tail, j) <==> i == j)
  {}

  lemma TiledNone(q: seq<TxSlot>, una: nat, nxt: nat, stream: seq<byte>, base: nat)
    requires q == [] && Tiled(q, una, nxt, stream, base)
    ensures una == nxt
  {}

  lemma TiledInside(q: seq<TxSlot>, una: nat, nxt: nat, stream: seq<byte>, base: nat)
    requires q != [] && Tiled(q, una, nxt, stream, base)
    ensures una < End(q[0])
  {}

  lemma TiledFirst(q: seq<TxSlot>, una: nat, nxt: nat, stream: seq<byte>, base: nat)
    requires q != [] && Tiled(q, una, nxt, stream, base)
    ensures q[0].seqno <= una
  {}

  /** Clearing the slot at tail removes the oldest. */
  lemma PopQueue(slots: Slots, head: nat, tail: nat, cnt: nat)
    requires Contiguous(slots, head, tail, cnt) && 0 < cnt
    ensures slots[tail] == Queue(slots, tail, cnt)[0]
    ensures var slots' := slots[tail := slots[tail].(pend := false)];
      && Contiguous(slots', head, (tail + 1) % TXQ, cnt - 1)
      && Queue(slots', (tail + 1) % TXQ, cnt - 1) == Queue(slots, tail, cnt)[1..]
  {
    var slots' := slots[tail := slots[tail].(pend := false)];
    var t := (tail + 1) % TXQ;
    forall i | 0 <= i < TXQ
      ensures slots'[Idx(t, i)].pend <==> i < cnt - 1
      ensures i < cnt - 1 ==> slots'[Idx(t, i)] == slots[Idx(tail, i + 1)]
    {
      IdxNext(tail, i);
      assert i < TXQ - 1 ==> (slots[Idx(tail, i + 1)].pend <==> i + 1 < cnt);
    }
  }

  /** The same, with the tiling, for what is left of a longer queue. */
  lemma PopTiled(slots: Slots, head: nat, tail: nat, cnt: nat, u: nat, nxt: nat, stream: seq<byte>, base: nat,
                 q: seq<TxSlot>, n: nat)
    requires Contiguous(slots, head, tail, cnt) && 0 < cnt && Tiled(Queue(slots, tail, cnt), u, nxt, stream, base)
    requires cnt + n == |q| && Queue(slots, tail, cnt) == q[n..]
    ensures slots[tail] == q[n]
    ensures var slots' := slots[tail := slots[tail].(pend := false)];
      && Contiguous(slots', head, (tail + 1) % TXQ, cnt - 1)
      && Queue(slots', (tail + 1) % TXQ, cnt - 1) == q[n + 1..]
      && Tiled(q[n + 1..], End(q[n]), nxt, stream, base)
  {
    hide Contiguous, Queue, Tiled;
    TailIs(slots, head, tail, cnt);
    PopQueue(slots, head, tail, cnt);
    TiledPop(Queue(slots, tail, cnt), u, nxt, stream, base);
    assert q[n..][0] == q[n] && q[n..][1..] == q[n + 1..];
  }

  lemma IdxNext(tail: nat, i: nat)
    requires tail < TXQ && i < TXQ
    ensures Idx((tail + 1) % TXQ, i) == if i == TXQ - 1 then tail else Idx(tail, i + 1)
    ensures i < TXQ - 1 ==> Idx(tail, i + 1) != tail
  {
  }

  lemma TiledPush(q: seq<TxSlot>, una: nat, nxt: nat, stream: seq<byte>, base: nat, x: TxSlot)
    requires Tiled(q, una, nxt, stream, base) && x.seqno == nxt
    requires 0 < |x.data| <= MSS && Carries(stream, base, nxt, x.data)
    ensures Tiled(q + [x], una, nxt + |x.data|, stream, base)
  {
    var r := q + [x];
    forall i | 0 <= i < |r| ensures End(r[i]) == if i + 1 < |r| then r[i + 1].seqno else nxt + |x.data| {
      if i < |q| { assert r[i] == q[i]; }
    }
  }

  /** Dropping an oldest slot that ends at or below ack. */
  lemma TiledPop(q: seq<TxSlot>, una: nat, nxt: nat, stream: seq<byte>, base: nat)
    requires q != [] && Tiled(q, una, nxt, stream, base)
    ensures Tiled(q[1..], End(q[0]), nxt, stream, base)
  {
    var r := q[1..];
    assert forall i {:trigger r[i]} :: 0 <= i < |r| ==> r[i] == q[i + 1];
  }

  /** No slot reaches beyond nxt. */
  lemma {:induction false} TiledEnd(q: seq<TxSlot>, una: nat, nxt: nat, stream: seq<byte>, base: nat, i: nat)
    requires Tiled(q, una, nxt, stream, base) && i < |q|
    ensures Carries(stream, base, q[i].seqno, q[i].data) && 0 < |q[i].data| <= MSS && End(q[i]) <= nxt
    decreases |q| - i
  {
    hide Carries;
    assert End(q[i]) == if i + 1 < |q| then q[i + 1].seqno else nxt;
    if i + 1 < |q| { TiledEnd(q, una, nxt, stream, base, i + 1); }
  }

  lemma TiledMore(q: seq<TxSlot>, una: nat, nxt: nat, stream: seq<byte>, base: nat, more: seq<byte>)
    requires Tiled(q, una, nxt, stream, base)
    ensures Tiled(q, una, nxt, stream + more, base)
  {
    forall i | 0 <= i < |q| ensures Carries(stream + more, base, q[i].seqno, q[i].data) {
      CarriesMore(stream, more, base, q[i].seqno, q[i].data);
    }
  }

  /** A pending slot is some element of the queue. */
  lemma PendInQueue(slots: Slots, head: nat, tail: nat, cnt: nat, j: nat) returns (i: nat)
    requires Contiguous(slots, head, tail, cnt) && j < TXQ && slots[j].pend
    ensures i < cnt && Queue(slots, tail, cnt)[i] == slots[j]
  {
    i := if j >= tail then j - tail else j + TXQ - tail;
    assert j == Idx(tail, i);
  }

  /** Marking slots as selectively acknowledged changes neither the ring nor the tiling. */
  lemma SackKeeps(slots: Slots, slots': Slots, head: nat, tail: nat, cnt: nat, una: nat, nxt: nat, stream: seq<byte>,
      base: nat)
    requires Contiguous(slots, head, tail, cnt) && Tiled(Queue(slots, tail, cnt), una, nxt, stream, base)
    requires forall j {:trigger slots'[j]} {:trigger slots[j]} :: 0 <= j < TXQ ==>
      slots'[j].(sacked := slots[j].sacked) == slots[j]
    ensures Contiguous(slots', head, tail, cnt) && Tiled(Queue(slots', tail, cnt), una, nxt, stream, base)
  {
    var q, q' := Queue(slots, tail, cnt), Queue(slots', tail, cnt);
    forall i | 0 <= i < cnt ensures q'[i].(sacked := q[i].sacked) == q[i] {}
    assert forall i {:trigger q'[i]} :: 0 <= i < cnt ==> q'[i].seqno == q[i].seqno && q'[i].data == q[i].data;
    assert cnt > 0 ==> q'[0].seqno == q[0].seqno && End(q'[0]) == End(q[0]);
  }

  /** What can happen to the control block while the application waits: an acknowledgement with
      its window and the congestion window computed from it, a SACK block, a changed segment
      size, or a poll at which the retransmission timer may have run out, with the congestion window
      it leaves. */
  datatype Env =
    | AckIn(ackno: nat, wnd: nat, cwnd: nat)
    | SackIn(left: nat, right: nat)
    | MssIn(mss: nat)
    | Tick(expired: bool, probe: bool, idle: bool, cwnd: nat)

  /** The window announced last, w before any. */
  function LastWnd(env: seq<Env>, w: nat): nat {
    if env == [] then w
    else
      var e := env[|env| - 1];
      if e.AckIn? then e.wnd else LastWnd(env[..|env| - 1], w)
  }

  lemma LastWndNext(env: seq<Env>, w: nat, k: nat)
    requires k < |env|
    ensures LastWnd(env[..k + 1], w) == if env[k].AckIn? then env[k].wnd else LastWnd(env[..k], w)
    ensures LastWnd(env[..0], w) == w
  {
    assert env[..k + 1][..k] == env[..k];
  }

  lemma {:induction false} LastWndJoin(a: seq<Env>, b: seq<Env>, w: nat)
    ensures LastWnd(a + b, w) == LastWnd(b, LastWnd(a, w))
    decreases |b|
  {
    if b == [] {
      assert a + b == a;
    } else {
      assert (a + b)[..|a + b| - 1] == a + b[..|b| - 1];
      LastWndJoin(a, b[..|b| - 1], w);
    }
  }

  /** Absorbing the next add bytes of data[a..len] extends the absorbed prefix. */
  lemma Absorb(acc: seq<byte>, data: seq<byte>, a: nat, len: nat, add: nat)
    requires a + add <= len <= |data|
    ensures (acc + data[..a]) + data[a..len][..add] == acc + data[..a + add]
    ensures add == len - a ==> data[a..len][..add] == data[a..len]
  {
    assert data[..a] + data[a..len][..add] == data[..a + add];
  }

  function NoSlots(): (r: Slots)
    ensures forall i :: 0 <= i < TXQ ==> !r[i].pend
  {
    seq(TXQ, _ => TxSlot(false, false, 0, []))
  }

  lemma Cleared(b: nat)
    ensures Contiguous(NoSlots(), 0, 0, 0) && Tiled(Queue(NoSlots(), 0, 0), b, b, [], b)
  {}

  function Min(a: nat, b: nat): nat { if a < b then a else b }

  /** ts_pick from ring position i on. */
  function PickFrom(slots: Slots, tail: nat, i: nat, fallback: int): int
    requires tail < TXQ && i <= TXQ
    decreases TXQ - i
  {
    if i == TXQ then fallback
    else
      var j := Idx(tail, i);
      if !slots[j].pend then PickFrom(slots, tail, i + 1, fallback)
      else if !slots[j].sacked then j
      else PickFrom(slots, tail, i + 1, if fallback < 0 then j else fallback)
  }

  /** The oldest pending slot that was not selectively acknowledged, else the oldest, else none. */
  ghost predicate IsOldest(slots: Slots, tail: nat, cnt: nat, pick: int)
    requires tail < TXQ && cnt <= TXQ
  {
    if pick < 0 then pick == -1 && cnt == 0
    else
      || (exists i :: 0 <= i < cnt && FirstOpen(slots, tail, i) && pick == Idx(tail, i))
      || (0 < cnt && pick == tail && forall k {:trigger Idx(tail, k)} :: 0 <= k < cnt ==> slots[Idx(tail, k)].sacked)
  }

  predicate FirstOpen(slots: Slots, tail: nat, i: nat)
    requires tail < TXQ && i < TXQ
  {
    !slots[Idx(tail, i)].sacked && forall k {:trigger Idx(tail, k)} :: 0 <= k < i ==> slots[Idx(tail, k)].sacked
  }

  /** What ts_pick picks. */
  lemma PickMeans(slots: Slots, head: nat, tail: nat, cnt: nat)
    requires Contiguous(slots, head, tail, cnt)
    ensures IsOldest(slots, tail, cnt, PickFrom(slots, tail, 0, -1))
    ensures PickFrom(slots, tail, 0, -1) >= 0 ==>
      PickFrom(slots, tail, 0, -1) < TXQ && slots[PickFrom(slots, tail, 0, -1)].pend
    ensures PickFrom(slots, tail, 0, -1) < 0 <==> cnt == 0
  {
    PickOn(slots, head, tail, cnt, 0);
    assert cnt > 0 ==> slots[Idx(tail, 0)].pend;
  }

  lemma {:induction false} PickOn(slots: Slots, head: nat, tail: nat, cnt: nat, i: nat)
    requires Contiguous(slots, head, tail, cnt) && i <= TXQ
    requires forall k {:trigger Idx(tail, k)} :: 0 <= k < i && k < cnt ==> slots[Idx(tail, k)].sacked
    ensures IsOldest(slots, tail, cnt, PickFrom(slots, tail, i, if i == 0 || cnt == 0 then -1 else tail))
    decreases TXQ - i
  {
    if i < TXQ {
      assert slots[Idx(tail, i)].pend <==> i < cnt;
      if i >= cnt || slots[Idx(tail, i)].sacked {
        PickOn(slots, head, tail, cnt, i + 1);
        assert i == 0 ==> Idx(tail, i) == tail;
      } else {
        assert FirstOpen(slots, tail, i);
      }
    }
  }

  const MAX_RETRANS := 12
  const KA_CNT := 6

  class Sender {
    var txb: Slots
    var txHead: nat
    var txTail: nat
    var sndUna: nat
    var sndNxt: nat
    var sndWnd: nat
    var cwnd: nat
    var mss: nat
    var lt: nat
    var dupacks: nat
    var fr: bool
    var recover: nat
    var nagle: seq<byte>
    var retries: nat
    var kaProbes: nat
    var aborted: bool
    var wire: seq<Wire>        // every data segment sent so far

    ghost const base: nat
    ghost var cnt: nat
    ghost var accepted: seq<byte>

    ghost predicate RingOk()
      reads this
    {
      Contiguous(txb, txHead, txTail, cnt)
    }

    /** Slots, then the Nagle buffer, are the tail of what the application handed over; and every
        data segment on the wire carried the right bytes for its number, up to sndNxt. */
    ghost predicate Valid()
      reads this
    {
      && RingOk() && |nagle| <= MSS
      && base <= sndNxt && |accepted| == sndNxt - base + |nagle| && nagle == accepted[sndNxt - base..]
      && Tiled(Queue(txb, txTail, cnt), sndUna, sndNxt, accepted, base)
      && forall i {:trigger wire[i]} :: 0 <= i < |wire| ==>
           && 0 < |wire[i].data| <= MSS && Carries(accepted, base, wire[i].seqno, wire[i].data)
           && wire[i].seqno + |wire[i].data| <= sndNxt
    }

    /** The pending slots end to end, then the Nagle buffer, are exactly the tail of the stream from
        the oldest pending slot on. */
    lemma Outstanding()
      requires Valid()
      ensures cnt > 0 ==> base <= txb[txTail].seqno <= sndUna
      ensures cnt > 0 ==> Flat(Queue(txb, txTail, cnt)) + nagle == accepted[txb[txTail].seqno - base..]
      ensures cnt == 0 ==> nagle == accepted[sndUna - base..]
    {
      hide Queue, Tiled, Carries, Flat;
      if cnt == 0 {
        TiledNone(Queue(txb, txTail, cnt), sndUna, sndNxt, accepted, base);
      } else {
        TailIs(txb, txHead, txTail, cnt);
        FlatIs(Queue(txb, txTail, cnt), sndUna, sndNxt, accepted, base);
        TiledFirst(Queue(txb, txTail, cnt), sndUna, sndNxt, accepted, base);
        var a, m := txb[txTail].seqno - base, sndNxt - base;
        assert accepted[a..] == accepted[a..m] + accepted[m..];
      }
    }

    /** A cleared control block right after the handshake. */
    constructor (b: nat, wnd: nat)
      ensures Valid() && base == b && accepted == [] && wire == [] && nagle == [] && cnt == 0
      ensures sndUna == sndNxt == b && sndWnd == wnd && cwnd == 4 * MSS && mss == MSS
      ensures lt == dupacks == retries == kaProbes == 0 && !fr && !aborted
    {
      hide Contiguous, Queue, Tiled, Carries, NoSlots, Idx, PickFrom, IsOldest, FirstOpen;
      txb := NoSlots();
      txHead, txTail, cnt := 0, 0, 0;
      base, sndUna, sndNxt := b, b, b;
      sndWnd, cwnd, mss := wnd, 4 * MSS, MSS;
      lt, dupacks, fr, recover := 0, 0, false, 0;
      retries, kaProbes, aborted := 0, 0, false;
      nagle, accepted, wire := [], [], [];
      new;
      Cleared(b);
    }

    /** Fills the slot at head with d, which follows sndNxt in the stream, and sends it. */
    method SendSlot(d: seq<byte>)
      requires RingOk() && cnt < TXQ && base <= sndNxt
      requires Tiled(Queue(txb, txTail, cnt), sndUna, sndNxt, accepted, base)
      requires 0 < |d| <= MSS && Carries(accepted, base, sndNxt, d)
      modifies this`txb, this`txHead, this`sndNxt, this`cnt, this`wire
      ensures RingOk() && sndNxt == old(sndNxt) + |d|
      ensures Tiled(Queue(txb, txTail, cnt), sndUna, sndNxt, accepted, base)
      ensures wire == old(wire) + [Wire(old(sndNxt), d)]
    {
      hide Contiguous, Queue, Tiled, Carries;
      TailIs(txb, txHead, txTail, cnt);
      var x := TxSlot(true, false, sndNxt, d);
      PushQueue(txb, txHead, txTail, cnt, x);
      TiledPush(Queue(txb, txTail, cnt), sndUna, sndNxt, accepted, base, x);
      txb := txb[txHead := x];
      wire := wire + [Wire(sndNxt, d)];
      sndNxt := sndNxt + |d|;
      txHead := (txHead + 1) % TXQ;
      cnt := cnt + 1;
    }

    /** nagle_flush: sends the buffered bytes as one segment when nothing is in flight or the
        buffer holds a full segment. */
    method NagleFlush()
      requires Valid()
      modifies this`txb, this`txHead, this`sndNxt, this`cnt, this`wire, this`nagle
      ensures Valid() && sndNxt >= old(sndNxt)
      ensures nagle == [] || (nagle == old(nagle) && sndNxt == old(sndNxt))
      ensures wire == if nagle == old(nagle) then old(wire) else old(wire) + [Wire(old(sndNxt), old(nagle))]
      ensures nagle == if sndWnd == 0 || (|old(nagle)| < mss && sndUna != old(sndNxt)) || old(cnt) == TXQ
                       then old(nagle) else []
      ensures sndNxt == old(sndNxt) + |old(nagle)| - |nagle|
    {
      hide Contiguous, Queue, Tiled;
      if nagle == [] || sndWnd == 0 { return; }
      if |nagle| < mss && sndUna != sndNxt { return; }
      TailIs(txb, txHead, txTail, cnt);
      if txHead == txTail && txb[txHead].pend { return; }
      SendSlot(nagle);
      nagle := [];
    }

    /** ack_slots: releases the slots that ack covers, oldest first. */
    method AckSlots(ack: nat) returns (ghost n: nat)
      requires RingOk() && Tiled(Queue(txb, txTail, cnt), sndUna, sndNxt, accepted, base)
      requires sndUna <= ack <= sndNxt
      modifies this`txb, this`txTail, this`cnt
      ensures RingOk() && Tiled(Queue(txb, txTail, cnt), ack, sndNxt, accepted, base)
      ensures n <= old(cnt) && Queue(txb, txTail, cnt) == old(Queue(txb, txTail, cnt))[n..]
      ensures forall i :: 0 <= i < n ==> End(old(Queue(txb, txTail, cnt))[i]) <= ack
      ensures n < old(cnt) ==> End(old(Queue(txb, txTail, cnt))[n]) > ack
    {
      hide Contiguous, Queue, Tiled;
      ghost var u: nat := sndUna;
      TailIs(txb, txHead, txTail, cnt);
      ghost var q := Queue(txb, txTail, cnt);
      n := 0;
      while txb[txTail].pend && txb[txTail].seqno + |txb[txTail].data| <= ack
        invariant RingOk() && txTail < TXQ && cnt <= TXQ && u <= ack && cnt + n == |q|
        invariant Tiled(Queue(txb, txTail, cnt), u, sndNxt, accepted, base)
        invariant Queue(txb, txTail, cnt) == q[n..] && forall i :: 0 <= i < n ==> End(q[i]) <= ack
        decreases cnt
      {
        TailIs(txb, txHead, txTail, cnt);
        PopTiled(txb, txHead, txTail, cnt, u, sndNxt, accepted, base, q, n);
        u := End(txb[txTail]);
        txb := txb[txTail := txb[txTail].(pend := false)];
        txTail := (txTail + 1) % TXQ;
        cnt := cnt - 1;
        n := n + 1;
      }
      TailIs(txb, txHead, txTail, cnt);
      TiledAdvance(Queue(txb, txTail, cnt), u, ack, sndNxt, accepted, base);
      assert n < |q| ==> q[n..][0] == q[n];
    }

    /** The slot ts_pick chooses, or -1. */
    function Oldest(): int
      requires txTail < TXQ
      reads this
    {
      PickFrom(txb, txTail, 0, -1)
    }

    /** ts_pick. */
    method TsPick() returns (pick: int)
      requires RingOk()
      ensures -1 <= pick < TXQ && (pick < 0 <==> cnt == 0) && txTail < TXQ && pick == Oldest()
      ensures pick >= 0 ==> txb[pick].pend
    {
      hide Queue;
      TailIs(txb, txHead, txTail, cnt);
      PickMeans(txb, txHead, txTail, cnt);
      var fallback := -1;
      var i := 0;
      while i < TXQ
        invariant 0 <= i <= TXQ && PickFrom(txb, txTail, 0, -1) == PickFrom(txb, txTail, i, fallback)
      {
        var j := (txTail + i) % TXQ;
        assert j == Idx(txTail, i);
        if txb[j].pend {
          if fallback < 0 { fallback := j; }
          if !txb[j].sacked { return j; }
        }
        i := i + 1;
      }
      return fallback;
    }

    /** Puts a pending slot on the wire again. */
    method Resend(j: nat)
      requires Valid() && j < TXQ && txb[j].pend
      modifies this`wire
      ensures Valid() && wire == old(wire) + [Wire(txb[j].seqno, txb[j].data)]
    {
      hide Contiguous, Queue, Tiled, Carries;
      var i := PendInQueue(txb, txHead, txTail, cnt, j);
      TailIs(txb, txHead, txTail, cnt);
      TiledEnd(Queue(txb, txTail, cnt), sndUna, sndNxt, accepted, base, i);
      wire := wire + [Wire(txb[j].seqno, txb[j].data)];
    }

    /** One more segment is on the wire: the slot ts_pick chooses. */
    ghost predicate ResentOldest(was: seq<Wire>)
      requires RingOk()
      reads this
    {
      txTail < TXQ && 0 <= Oldest() < TXQ && wire == was + [Wire(txb[Oldest()].seqno, txb[Oldest()].data)]
    }

    /** fast_recovery: the retransmission at the third duplicate acknowledgement. */
    method FastRecovery()
      requires Valid()
      modifies this`wire, this`fr, this`recover, this`retries
      ensures Valid() && old(wire) <= wire
      ensures if cnt == 0 then wire == old(wire) && fr == old(fr) && retries == old(retries)
              else fr && recover == sndNxt && retries == 0 && ResentOldest(old(wire))
    {
      hide Queue, Tiled, Carries;
      var pick := TsPick();
      if pick < 0 { return; }
      Resend(pick);
      recover := sndNxt;
      fr, retries := true, 0;
    }

    /** The slot ts_pick chooses starts at snd_una, so a timeout concerns it. */
    predicate OldestAtUna()
      reads this
    {
      txTail < TXQ && 0 <= Oldest() < TXQ && txb[Oldest()].seqno == sndUna
    }

    /** The timeout part of tcp_poll: the picked slot is sent again, and the thirteenth time in a row
        gives the connection up. */
    method Retransmit(expired: bool)
      requires Valid()
      modifies this`wire, this`fr, this`dupacks, this`lt, this`retries, this`aborted
      ensures Valid() && old(wire) <= wire
      ensures if !(expired && OldestAtUna())
              then wire == old(wire) && retries == old(retries) && aborted == old(aborted)
              else retries == old(retries) + 1 && (aborted <==> old(aborted) || retries > MAX_RETRANS)
      ensures expired && OldestAtUna() && retries > MAX_RETRANS ==> wire == old(wire)
      ensures lt == old(lt) || lt == 0
      ensures expired && OldestAtUna() && retries <= MAX_RETRANS ==>
        ResentOldest(old(wire)) && !fr && dupacks == 0 && lt == 0
    {
      hide Queue, Tiled, Carries, PickFrom;
      var pick := TsPick();
      if pick >= 0 && sndUna == txb[pick].seqno && expired {
        retries := retries + 1;
        if retries > MAX_RETRANS {
          aborted := true;
          return;
        }
        Resend(pick);
        fr, dupacks, lt := false, 0, 0;
      }
    }

    /** The keepalive part of tcp_poll: an idle connection is probed, and given up after six probes
        without an answer. */
    method Keepalive(probe: bool, idle: bool)
      modifies this`kaProbes, this`aborted
      ensures kaProbes == if sndUna != sndNxt then 0
        else if old(kaProbes) > 0 then old(kaProbes) + (if probe then 1 else 0) else if idle then 1 else 0
      ensures aborted <==> old(aborted) || (sndUna == sndNxt && old(kaProbes) > 0 && probe && kaProbes > KA_CNT)
    {
      if kaProbes > 0 {
        if sndUna != sndNxt {
          kaProbes := 0;
        } else if probe {
          kaProbes := kaProbes + 1;
          if kaProbes > KA_CNT { aborted := true; }
        }
      } else if sndUna == sndNxt && idle {
        kaProbes := 1;
      }
    }

    /** The timers of tcp_poll for an open connection. */
    method PollTx(expired: bool, probe: bool, idle: bool)
      requires Valid() && !aborted
      modifies this`wire, this`fr, this`dupacks, this`lt, this`retries, this`kaProbes, this`aborted
      ensures Valid() && old(wire) <= wire
      ensures lt == old(lt) || lt == 0
      ensures if expired && OldestAtUna() then retries == old(retries) + 1
              else retries == old(retries) && wire == old(wire)
      ensures expired && OldestAtUna() ==>
        if retries > 12 then aborted && wire == old(wire)
        else ResentOldest(old(wire)) && !fr && dupacks == 0 && lt == 0
      ensures retries <= 12 || !(expired && OldestAtUna()) ==>
        kaProbes == (if sndUna != sndNxt then 0
          else if old(kaProbes) > 0 then old(kaProbes) + (if probe then 1 else 0) else if idle then 1 else 0)
      ensures aborted <==>
        ((expired && OldestAtUna() && retries > 12) || (sndUna == sndNxt && old(kaProbes) >= 6 && probe))
    {
      hide Queue, Tiled, Carries, PickFrom, Contiguous;
      Retransmit(expired);
      if aborted { return; }
      Keepalive(probe, idle);
    }

    /** sack_apply for one block. */
    method SackApply(l: nat, r: nat)
      requires Valid()
      modifies this`txb
      ensures Valid()
      ensures forall k {:trigger txb[k]} :: 0 <= k < TXQ ==>
        txb[k] == old(txb)[k].(sacked :=
          old(txb)[k].sacked || (l < r && old(txb)[k].pend && l < End(old(txb)[k]) && r > old(txb)[k].seqno))
    {
      hide Contiguous, Queue, Tiled, Carries;
      if l >= r { return; }
      var was := txb;
      var j := 0;
      while j < TXQ
        invariant 0 <= j <= TXQ
        invariant forall k {:trigger txb[k]} {:trigger was[k]} :: 0 <= k < TXQ ==>
          txb[k] == was[k].(sacked := was[k].sacked || (k < j && was[k].pend && l < End(was[k]) && r > was[k].seqno))
      {
        if txb[j].pend && l < End(txb[j]) && r > txb[j].seqno { txb := txb[j := txb[j].(sacked := true)]; }
        j := j + 1;
      }
      SackKeeps(was, txb, txHead, txTail, cnt, sndUna, sndNxt, accepted, base);
    }

    /** With nothing in flight no slot is taken. */
    lemma FreeRing()
      requires Valid()
      ensures sndUna <= sndNxt && (sndUna == sndNxt ==> cnt == 0)
    {
      hide Queue, Tiled, Carries;
      if cnt > 0 {
        TailIs(txb, txHead, txTail, cnt);
        var q := Queue(txb, txTail, cnt);
        TiledEnd(q, sndUna, sndNxt, accepted, base, 0);
        TiledInside(q, sndUna, sndNxt, accepted, base);
      } else {
        TiledNone(Queue(txb, txTail, cnt), sndUna, sndNxt, accepted, base);
      }
    }

    /** The acknowledgement part of handle_tcp for an open connection. Every acknowledgement brings a
        new window. The Nagle buffer goes out when all is acknowledged and the window is not closed,
        however small it is; it stays while the window is closed or, short of a segment, while bytes
        are in flight. */
    method HandleAck(ackno: nat, wnd: nat, cw: nat)
      requires Valid()
      modifies this`txb, this`txHead, this`txTail, this`sndUna, this`sndNxt, this`sndWnd, this`cwnd,
               this`cnt, this`wire, this`nagle, this`dupacks, this`lt, this`fr, this`recover, this`retries,
               this`kaProbes
      ensures Valid() && old(wire) <= wire && sndNxt >= old(sndNxt)
      ensures sndUna == if old(sndUna) < ackno <= old(sndNxt) then ackno else old(sndUna)
      ensures old(nagle) == [] ==> nagle == []
      ensures dupacks == if old(sndUna) < ackno <= old(sndNxt) then 0
        else if ackno == old(sndUna) && old(kaProbes) == 0 then old(dupacks) + 1 else old(dupacks)
      ensures kaProbes == if ackno == old(sndUna) || old(sndUna) < ackno <= old(sndNxt) then 0 else old(kaProbes)
      ensures old(sndUna) < ackno <= old(sndNxt) ==> retries == 0
      ensures ackno == old(sndUna) && old(kaProbes) == 0 && old(dupacks) == 2 && cnt > 0 ==>
        fr && recover == sndNxt && ResentOldest(old(wire))
      ensures sndWnd == wnd && cwnd == cw
      ensures lt == if old(sndUna) < ackno <= old(sndNxt) then 0
        else if ackno == old(sndUna) && old(kaProbes) == 0 && old(dupacks) != 2 && !(old(dupacks) > 2 && old(fr)) then 2
        else old(lt)
      ensures sndNxt == old(sndNxt) + |old(nagle)| - |nagle| && (nagle == old(nagle) || nagle == [])
      ensures ackno == old(sndNxt) > old(sndUna) && wnd > 0 ==> nagle == []
      ensures wnd == 0 || !(old(sndUna) < ackno <= old(sndNxt)) || (|old(nagle)| < mss && ackno != old(sndNxt)) ==>
        nagle == old(nagle)
    {
      hide Contiguous, Queue, Tiled, Carries, PickFrom;
      sndWnd, cwnd := wnd, cw;
      if ackno > sndUna && ackno <= sndNxt {
        NewAck(ackno);
      } else if ackno == sndUna {
        if kaProbes > 0 { kaProbes := 0; } else { DupAck(); }
      }
    }

    method Advance(ackno: nat)
      requires Valid() && sndUna < ackno <= sndNxt
      modifies this`txb, this`txTail, this`sndUna, this`cnt
      ensures Valid() && sndUna == ackno && (ackno == sndNxt ==> cnt == 0)
    {
      hide Contiguous, Queue, Tiled, Carries;
      ghost var _ := AckSlots(ackno);
      sndUna := ackno;
      FreeRing();
    }

    /** An acknowledgement that makes progress. */
    method NewAck(ackno: nat)
      requires Valid() && sndUna < ackno <= sndNxt
      modifies this`txb, this`txHead, this`txTail, this`sndUna, this`sndNxt,
               this`cnt, this`wire, this`nagle, this`dupacks, this`lt, this`fr, this`retries, this`kaProbes
      ensures Valid() && old(wire) <= wire && sndUna == ackno && (old(nagle) == [] ==> nagle == [])
      ensures sndNxt == old(sndNxt) + |old(nagle)| - |nagle| && (nagle == old(nagle) || nagle == [])
      ensures ackno == old(sndNxt) && sndWnd > 0 ==> nagle == []
      ensures sndWnd == 0 || (|old(nagle)| < mss && ackno != old(sndNxt)) ==> nagle == old(nagle)
      ensures dupacks == 0 && retries == 0 && lt == 0 && kaProbes == 0 && (fr <==> old(fr) && ackno < recover)
    {
      hide Contiguous, Queue, Tiled, Carries, PickFrom;
      Restart(ackno);
      Advance(ackno);
      NagleFlush();
    }

    /** The counters after progress. */
    method Restart(ackno: nat)
      requires Valid()
      modifies this`dupacks, this`lt, this`fr, this`retries, this`kaProbes
      ensures Valid()
      ensures dupacks == 0 && retries == 0 && lt == 0 && kaProbes == 0 && (fr <==> old(fr) && ackno < recover)
    {
      hide Contiguous, Queue, Tiled, Carries, PickFrom;
      kaProbes, dupacks, retries, lt := 0, 0, 0, 0;
      if fr && ackno >= recover { fr := false; }
    }

    /** A duplicate acknowledgement; the third starts fast recovery. */
    method DupAck()
      requires Valid()
      modifies this`wire, this`dupacks, this`lt, this`fr, this`recover, this`retries
      ensures Valid() && old(wire) <= wire && dupacks == old(dupacks) + 1
      ensures old(dupacks) == 2 && cnt > 0 ==> fr && recover == sndNxt && ResentOldest(old(wire))
      ensures old(dupacks) != 2 ==> wire == old(wire) && fr == old(fr)
      ensures lt == if old(dupacks) != 2 && !(old(dupacks) > 2 && old(fr)) then 2 else old(lt)
    {
      hide Queue, Tiled, Carries;
      dupacks := dupacks + 1;
      if dupacks == 3 { FastRecovery(); } else if !(dupacks > 3 && fr) { lt := 2; }
    }

    method Handle(e: Env)
      requires Valid()
      modifies this
      ensures Valid() && old(wire) <= wire && accepted == old(accepted) && sndNxt >= old(sndNxt)
      ensures old(nagle) == [] ==> nagle == [] && sndNxt == old(sndNxt)
      ensures sndWnd == if e.AckIn? then e.wnd else old(sndWnd)
      ensures cwnd == if e.AckIn? || e.Tick? then e.cwnd else old(cwnd)
      ensures lt > 0 ==> old(lt) > 0 || e.AckIn?
    {
      hide Contiguous, Queue, Tiled, Carries;
      match e {
        case AckIn(ackno, wnd, cw) => HandleAck(ackno, wnd, cw);
        case SackIn(l, r) => SackApply(l, r);
        case MssIn(m) => mss := m;
        case Tick(expired, probe, idle, cw) =>
          cwnd := cw;
          if !aborted { PollTx(expired, probe, idle); }
      }
    }

    /** rem more bytes may not be sent now: the ring is full, or the window too small. */
    ghost predicate Blocked(rem: nat)
      reads this
    {
      cnt == TXQ || (sndNxt - sndUna + rem > Min(sndWnd, cwnd) && !(lt > 0 && sndNxt - sndUna + rem <= sndWnd))
    }

    /** net_tcp_send's wait for window and a free slot, while the first k of the events in env arrive. */
    method WaitWindow(rem: nat, env: seq<Env>) returns (ok: bool, ghost k: nat)
      requires Valid() && nagle == []
      modifies this
      ensures Valid() && nagle == [] && accepted == old(accepted) && old(wire) <= wire
      ensures k <= |env| && sndWnd == LastWnd(env[..k], old(sndWnd)) && sndNxt == old(sndNxt)
      ensures lt > 0 ==> old(lt) > 0 || exists e :: e in env[..k] && e.AckIn?
      ensures !old(Blocked(rem)) ==> ok && k == 0 && sndUna == old(sndUna) && mss == old(mss)
      ensures ok ==> !Blocked(rem) && cnt < TXQ
      ensures !ok ==> Blocked(rem)
    {
      hide Contiguous, Queue, Tiled, Carries, LastWnd;
      var n := 0;
      k := 0;
      NoEnv(sndWnd);
      while true
        invariant Valid() && nagle == [] && k == n <= |env| && accepted == old(accepted) && old(wire) <= wire
        invariant sndWnd == LastWnd(env[..k], old(sndWnd)) && sndNxt == old(sndNxt)
        invariant lt > 0 ==> old(lt) > 0 || exists e :: e in env[..k] && e.AckIn?
        invariant !old(Blocked(rem)) ==> !Blocked(rem) && k == 0 && sndUna == old(sndUna) && mss == old(mss)
        decreases |env| - n
      {
        TailIs(txb, txHead, txTail, cnt);
        var full := txHead == txTail && txb[txHead].pend;
        var flight := sndNxt - sndUna;
        if !full && (flight + rem <= Min(sndWnd, cwnd) || (lt > 0 && flight + rem <= sndWnd)) { return true, k; }
        if n == |env| { return false, k; }
        LastWndNext(env, old(sndWnd), n);
        assert env[..n + 1] == env[..n] + [env[n]];
        Handle(env[n]);
        n := n + 1;
        k := n;
      }
    }

    lemma NoEnv(w: nat)
      ensures LastWnd([], w) == w
    {}

    /** Takes over more bytes from the application, at the end of the Nagle buffer. */
    method Buffer(d: seq<byte>)
      requires Valid() && |nagle| + |d| <= MSS
      modifies this`nagle, this`accepted
      ensures Valid() && nagle == old(nagle) + d && accepted == old(accepted) + d
    {
      hide Queue, Tiled, Carries;
      TiledMore(Queue(txb, txTail, cnt), sndUna, sndNxt, accepted, base, d);
      forall i | 0 <= i < |wire| ensures Carries(accepted + d, base, wire[i].seqno, wire[i].data) {
        CarriesMore(accepted, d, base, wire[i].seqno, wire[i].data);
      }
      assert (accepted + d)[sndNxt - base..] == accepted[sndNxt - base..] + d;
      nagle, accepted := nagle + d, accepted + d;
    }

    /** Takes over bytes and sends them at once. */
    method SendNow(d: seq<byte>)
      requires Valid() && nagle == [] && 0 < |d| <= MSS && cnt < TXQ
      modifies this`txb, this`txHead, this`sndNxt, this`cnt, this`wire, this`nagle, this`accepted, this`lt
      ensures Valid() && nagle == [] && accepted == old(accepted) + d && sndNxt == old(sndNxt) + |d|
      ensures wire == old(wire) + [Wire(old(sndNxt), d)]
      ensures lt == if old(lt) > 0 then old(lt) - 1 else 0
    {
      hide Contiguous, Queue, Tiled;
      Buffer(d);
      assert accepted[sndNxt - base..] == d;
      SendSlot(d);
      nagle := [];
      if lt > 0 { lt := lt - 1; }
    }

    /** Adds what fits of d to a Nagle buffer that is in use, and flushes it if it can. */
    method TopUp(d: seq<byte>) returns (add: nat)
      requires Valid() && nagle != []
      modifies this
      ensures Valid() && add <= |d| && accepted == old(accepted) + d[..add] && old(wire) <= wire &&
        sndNxt >= old(sndNxt)
      ensures mss == old(mss) && sndWnd == old(sndWnd) && lt == old(lt) && (nagle == [] || add == |d| || |nagle| == MSS)
    {
      hide Contiguous, Queue, Tiled, Carries;
      add := Min(|d|, MSS - |nagle|);
      Buffer(d[..add]);
      NagleFlush();
    }

    predicate Untouched(n: seq<byte>, w: seq<Wire>, una: nat, nxt: nat, m: nat)
      reads this
    {
      nagle == n && wire == w && sndUna == una && sndNxt == nxt && mss == m
    }

    /** The rest of a write when the Nagle buffer is empty: less than a segment stays in it while bytes
        are in flight, else all is sent when the window and the ring admit it. limited says that only
        the allowance after a duplicate acknowledgement admits it. */
    method SendRest(d: seq<byte>, inflight: bool, env: seq<Env>) returns (ok: bool, ghost k: nat, ghost limited: bool)
      requires Valid() && nagle == [] && 0 < |d| <= MSS
      modifies this
      ensures Valid() && old(wire) <= wire
      ensures accepted == if ok then old(accepted) + d else old(accepted)
      ensures !ok ==> cnt == 8 || sndNxt + |d| > sndUna + sndWnd || (sndNxt + |d| > sndUna + cwnd && lt == 0)
      ensures k <= |env| && sndWnd == LastWnd(env[..k], old(sndWnd))
      ensures sndNxt == old(sndNxt) || sndNxt == old(sndNxt) + |d|
      ensures sndNxt > old(sndNxt) ==> sndNxt <= sndUna + sndWnd && (sndNxt <= sndUna + cwnd || limited)
      ensures limited || lt > 0 ==> old(lt) > 0 || exists e :: e in env[..k] && e.AckIn?
      ensures |d| < old(mss) && inflight ==> ok && Untouched(d, old(wire), old(sndUna), old(sndNxt), old(mss))
      ensures ok && (|d| >= old(mss) || !inflight) ==> nagle == [] && sndNxt == old(sndNxt) + |d|
      ensures !inflight && old(sndUna) == old(sndNxt) && |d| <= Min(old(sndWnd), old(cwnd)) ==>
        ok && nagle == [] && sndUna == old(sndUna) && sndNxt == old(sndNxt) + |d| && mss == old(mss)
    {
      hide Contiguous, Queue, Tiled, Carries, LastWnd;
      k, limited := 0, false;
      NoEnv(sndWnd);
      if |d| < mss && inflight {
        Buffer(d);
        return true, 0, false;
      }
      FreeRing();
      ok, k := WaitWindow(|d|, env);
      limited := lt > 0;
      if ok { SendNow(d); }
    }

    /** net_tcp_send: absorbs a prefix of the data; says true with less than all of it only when the
        Nagle buffer has filled up, and false only for no data or while it is blocked. With an empty
        Nagle buffer, less than a segment stays in it while bytes are in flight; else all is sent at
        once if nothing blocks it. */
    method Send(data: seq<byte>, env: seq<Env>) returns (ok: bool, absorbed: nat, ghost k: nat, ghost limited: bool)
      requires Valid()
      modifies this
      ensures Valid() && absorbed <= Min(|data|, Min(MSS, old(mss))) && accepted == old(accepted) + data[..absorbed]
      ensures old(wire) <= wire && sndNxt >= old(sndNxt)
      ensures old(nagle) == [] && old(sndUna) != old(sndNxt) && 0 < |data| < old(mss) <= MSS ==>
        ok && nagle == data && wire == old(wire) && sndNxt == old(sndNxt) && sndUna == old(sndUna)
      ensures old(nagle) == [] && old(sndUna) == old(sndNxt) && data != [] && old(mss) > 0 ==>
        || Min(|data|, Min(MSS, old(mss))) > Min(old(sndWnd), old(cwnd))
        || (ok && nagle == [] && sndUna == old(sndUna) && sndNxt == old(sndNxt) + absorbed > sndUna && mss == old(mss))
      ensures ok && old(nagle) == [] && 0 < old(mss) <= Min(|data|, MSS) ==>
        nagle == [] && sndNxt == old(sndNxt) + absorbed
      ensures k <= |env| && sndWnd == LastWnd(env[..k], old(sndWnd))
      ensures old(nagle) == [] && sndNxt > old(sndNxt) ==>
        sndNxt <= sndUna + sndWnd && (sndNxt <= sndUna + cwnd || limited)
      ensures limited || lt > 0 ==> old(lt) > 0 || exists e :: e in env[..k] && e.AckIn?
      ensures ok ==> absorbed == Min(|data|, Min(MSS, old(mss))) || |nagle| == MSS
      ensures !ok && data != [] && old(mss) > 0 ==>
        var rem := Min(|data|, Min(MSS, old(mss))) - absorbed;
        cnt == 8 || sndNxt + rem > sndUna + sndWnd || (sndNxt + rem > sndUna + cwnd && lt == 0)
    {
      hide Contiguous, Queue, Tiled, Carries, LastWnd;
      var len := Min(|data|, Min(MSS, mss));
      absorbed, k, limited := 0, 0, false;
      assert accepted + data[..0] == accepted;
      NoEnv(sndWnd);
      if len == 0 { return false, 0, 0, false; }
      var inflight := sndNxt - sndUna;
      while absorbed < len
        invariant Valid() && absorbed <= len
        invariant accepted == old(accepted) + data[..absorbed] && old(wire) <= wire && sndNxt >= old(sndNxt)
        invariant old(nagle) == [] ==>
          absorbed == 0 && Untouched(old(nagle), old(wire), old(sndUna), old(sndNxt), old(mss))
        invariant sndWnd == old(sndWnd) && lt == old(lt) && (old(nagle) == [] ==> cwnd == old(cwnd))
        decreases len - absorbed, |nagle|
      {
        var d := data[absorbed..len];
        if nagle != [] {
          var add := TopUp(d);
          Absorb(old(accepted), data, absorbed, len, add);
          absorbed := absorbed + add;
          if nagle != [] { return true, absorbed, 0, false; }
          continue;
        }
        Absorb(old(accepted), data, absorbed, len, len - absorbed);
        ok, k, limited := SendRest(d, inflight != 0, env);
        return ok, if ok then len else absorbed, k, limited;
      }
      return true, absorbed, 0, false;
    }
  }

  // ---- flow control over a run ----

  /** The application writes while the events in env come, or an event comes between two writes. */
  datatype Doing = Write(data: seq<byte>, env: seq<Env>) | Net(e: Env)

  /** New data sent by a write from an empty Nagle buffer: up to which number, when how many events had
      come, and what the control block said then. */
  datatype Burst = Burst(end: nat, events: nat, una: nat, wnd: nat, cwnd: nat, limited: bool)

  /** Any run of writes and events: whatever a write newly puts on the wire from an empty Nagle buffer
      ends within the window that was announced last, and within the congestion window unless a
      duplicate acknowledgement has allowed more. */
  method FlowRun(tx: Sender, steps: seq<Doing>) returns (ghost seen: seq<Env>, ghost bursts: seq<Burst>)
    requires tx.Valid() && tx.lt == 0
    modifies tx
    ensures tx.Valid() && tx.sndWnd == LastWnd(seen, old(tx.sndWnd))
    ensures forall b {:trigger b in bursts} :: b in bursts ==>
      && b.events <= |seen| && b.wnd == LastWnd(seen[..b.events], old(tx.sndWnd)) && b.end <= b.una + b.wnd
      && (b.end <= b.una + b.cwnd || exists e :: e in seen[..b.events] && e.AckIn?)
  {
    hide Contiguous, Queue, Tiled, Carries, LastWnd;
    seen, bursts := [], [];
    tx.NoEnv(tx.sndWnd);
    for i := 0 to |steps|
      invariant tx.Valid() && tx.sndWnd == LastWnd(seen, old(tx.sndWnd))
      invariant tx.lt > 0 ==> exists e :: e in seen && e.AckIn?
      invariant forall b {:trigger b in bursts} :: b in bursts ==>
        && b.events <= |seen| && b.wnd == LastWnd(seen[..b.events], old(tx.sndWnd)) && b.end <= b.una + b.wnd
        && (b.end <= b.una + b.cwnd || exists e :: e in seen[..b.events] && e.AckIn?)
    {
      ghost var nxt, was := tx.sndNxt, seen;
      match steps[i] {
        case Write(data, env) =>
          ghost var empty := tx.nagle == [];
          var _, _, k, limited := tx.Send(data, env);
          LastWndJoin(seen, env[..k], old(tx.sndWnd));
          seen := seen + env[..k];
          if empty && tx.sndNxt > nxt {
            bursts := bursts + [Burst(tx.sndNxt, |seen|, tx.sndUna, tx.sndWnd, tx.cwnd, limited)];
          }
        case Net(e) =>
          tx.Handle(e);
          LastWndJoin(seen, [e], old(tx.sndWnd));
          LastWndOne(e, LastWnd(seen, old(tx.sndWnd)));
          seen := seen + [e];
      }
      assert seen[..|was|] == was && seen[..|seen|] == seen;
      assert forall n :: 0 <= n <= |was| ==> seen[..n] == was[..n];
    }
  }

  lemma LastWndOne(e: Env, w: nat)
    ensures LastWnd([e], w) == if e.AckIn? then e.wnd else w
  {
    assert [e][..0] == [];
  }

  /** The Nagle buffer is not held to the window: a byte in flight, up to 1459 more written behind it,
      and an acknowledgement that leaves a window of one byte. What is sent ends behind the window
      exactly when it is more than one byte. */
  method Overrun(base: nat, x: byte, data: seq<byte>) returns (tx: Sender)
    requires 0 < |data| < MSS
    ensures tx.Valid() && tx.sndWnd == 1 && tx.nagle == [] && tx.sndNxt == base + 1 + |data|
    ensures tx.sndNxt > tx.sndUna + tx.sndWnd <==> |data| > 1
  {
    hide Contiguous, Queue, Tiled, Carries, LastWnd;
    tx := new Sender(base, 5000);
    var _, n, _, _ := tx.Send([x], []);
    var _, m, _, _ := tx.Send(data, []);
    tx.HandleAck(base + 1, 1, 5000);
  }
}
