/** The receive half of a TCP control block: the byte ring, the out-of-order slices and
    rcv_nxt, against the byte stream the peer is sending. */
module TcpReceive {
  import opened Basics
  import opened TcpStream

  const RX_RING := 8192
  const OOO_MAX := 4

  /** An out-of-order segment that is waiting for the bytes before it. */
  datatype OooSlice = OooSlice(used: bool, seqno: nat, data: seq<byte>)

  /** What handle_tcp reads of a segment once it belongs to an open connection. */
  datatype Segment = Segment(seqno: nat, data: seq<byte>, fin: bool)

  /** A segment of the peer's stream: any slice of it, in any order and any number of times;
      a FIN follows the last byte. */
  ghost predicate Genuine(stream: seq<byte>, base: nat, s: Segment) {
    && |s.data| <= MSS
    && (s.data != [] ==> Carries(stream, base, s.seqno, s.data))
    && (s.fin ==> s.seqno + |s.data| == base + |stream|)
  }

  type Cells = s: seq<byte> | |s| == RX_RING witness seq(RX_RING, _ => 0)

  /** Ring cell of the i-th unread byte, when fill bytes end at w. */
  function Cell(w: nat, fill: nat, i: int): int {
    var x := w - fill + i;
    if x < 0 then x + RX_RING else x
  }

  /** The unread bytes of the ring, oldest first. */
  function RingOf(cells: Cells, w: nat, fill: nat): (r: seq<byte>)
    requires w < RX_RING && fill <= RX_RING
    ensures |r| == fill
  {
    seq(fill, (i: nat) requires i < fill => cells[Cell(w, fill, i)])
  }

  /** Writing at w appends a byte. */
  lemma RingPush(cells: Cells, w: nat, fill: nat, v: byte)
    requires w < RX_RING && fill < RX_RING
    ensures RingOf(cells[w := v], (w + 1) % RX_RING, fill + 1) == RingOf(cells, w, fill) + [v]
  {
    var w' := (w + 1) % RX_RING;
    forall i | 0 <= i < fill ensures Cell(w', fill + 1, i) == Cell(w, fill, i) != w {}
    assert Cell(w', fill + 1, fill) == w;
  }

  /** The cell of the oldest byte, fill cells behind w. */
  function ReadAt(w: nat, fill: nat): (r: nat)
    requires w < RX_RING && fill <= RX_RING
    ensures r < RX_RING
  {
    (w + RX_RING - fill) % RX_RING
  }

  /** Forgetting the oldest byte. */
  lemma RingPop(cells: Cells, w: nat, fill: nat)
    requires w < RX_RING && 0 < fill <= RX_RING
    ensures RingOf(cells, w, fill) == [cells[ReadAt(w, fill)]] + RingOf(cells, w, fill - 1)
    ensures ReadAt(w, fill - 1) == (ReadAt(w, fill) + 1) % RX_RING
  {
    assert Cell(w, fill, 0) == ReadAt(w, fill);
  }

  ghost function UsedCount(o: seq<OooSlice>): nat {
    if o == [] then 0 else (if o[0].used then 1 else 0) + UsedCount(o[1..])
  }

  lemma {:induction false} UsedCountDrop(o: seq<OooSlice>, i: nat, x: OooSlice)
    requires i < |o| && o[i].used && !x.used
    ensures UsedCount(o[i := x]) < UsedCount(o)
  {
    if i == 0 {
      assert o[i := x][1..] == o[1..];
    } else {
      assert o[i := x][1..] == o[1..][i - 1 := x];
      UsedCountDrop(o[1..], i - 1, x);
    }
  }

  /** A waiting slice that starts below rcv_nxt: ooo_drain looks for rcv_nxt alone, so its turn has
      passed. */
  predicate Stale(x: OooSlice, nxt: int) { x.used && x.seqno < nxt }

  /** Slices that are stale at nxt stay where they are. */
  predicate StaleKept(was: seq<OooSlice>, nxt: int, now: seq<OooSlice>) {
    |was| == |now| && forall i {:trigger now[i]} :: 0 <= i < |was| && Stale(was[i], nxt) ==> now[i] == was[i]
  }

  /** Every slice is stale, so none is left for a segment that comes too early. */
  predicate Clogged(o: seq<OooSlice>, nxt: int) { forall i :: 0 <= i < |o| ==> Stale(o[i], nxt) }

  lemma CloggedStays(was: seq<OooSlice>, nxt: nat, now: seq<OooSlice>, nxt': nat)
    requires StaleKept(was, nxt, now) && Clogged(was, nxt) && nxt <= nxt'
    ensures now == was && Clogged(now, nxt')
  {}

  /** Slices differ only where x was put in a free place. */
  predicate OnlyAdds(was: seq<OooSlice>, now: seq<OooSlice>, x: OooSlice) {
    |was| == |now| && forall i {:trigger now[i]} :: 0 <= i < |was| && now[i] != was[i] ==> !was[i].used && now[i] == x
  }

  class Receiver {
    const rxr: array<byte>
    var rxrW: nat
    var rxrFill: nat
    var rlen: nat
    var rcvNxt: nat
    var ooo: seq<OooSlice>
    var finRx: bool
    var winUpdate: bool

    ghost var stream: seq<byte>
    ghost const base: nat
    ghost var delivered: seq<byte>

    ghost predicate RingOk()
      reads this
    {
      rxr.Length == RX_RING && rxrW < RX_RING && rxrFill <= RX_RING && rlen == rxrFill
    }

    /** The bytes received and not yet read, oldest first. */
    ghost function Ring(): (r: seq<byte>)
      requires RingOk()
      reads this, rxr
    {
      RingOf(rxr[..], rxrW, rxrFill)
    }

    /** Number of stream bytes taken over so far. */
    ghost function Stored(): nat
      reads this
    {
      |delivered| + rxrFill
    }

    /** Every waiting slice holds stream bytes. */
    ghost predicate OooOk()
      reads this
    {
      && |ooo| == OOO_MAX
      && forall i {:trigger ooo[i]} :: 0 <= i < OOO_MAX && ooo[i].used ==>
           0 < |ooo[i].data| <= MSS && Carries(stream, base, ooo[i].seqno, ooo[i].data)
    }

    /** What the application has read, then the ring, is the stream up to rcv_nxt; once a FIN
        has been accepted it is the whole stream. */
    ghost predicate Valid()
      reads this, rxr
    {
      && RingOk() && OooOk()
      && Stored() <= |stream| && delivered + Ring() == stream[..Stored()]
      && (if finRx then Stored() == |stream| && rcvNxt > base + |stream| else rcvNxt == base + Stored())
    }

    /** A cleared control block right after the handshake. */
    constructor (s: seq<byte>, b: nat)
      ensures Valid() && stream == s && base == b && delivered == [] && !finRx && fresh(rxr) && rxrFill == 0
      ensures forall i :: 0 <= i < OOO_MAX ==> !ooo[i].used
    {
      rxr := new byte[RX_RING](_ => 0);
      rxrW, rxrFill, rlen, rcvNxt := 0, 0, 0, b;
      ooo := seq(OOO_MAX, _ => OooSlice(false, 0, []));
      finRx, winUpdate := false, false;
      stream, base, delivered := s, b, [];
    }

    /** The peer goes on sending: what has come so far belongs to the longer stream too. */
    ghost method Extend(more: seq<byte>)
      requires Valid() && !finRx
      modifies this`stream
      ensures Valid() && stream == old(stream) + more
    {
      hide RingOf;
      forall i | 0 <= i < OOO_MAX && ooo[i].used ensures Carries(stream + more, base, ooo[i].seqno, ooo[i].data) {
        CarriesMore(stream, more, base, ooo[i].seqno, ooo[i].data);
      }
      assert (stream + more)[..Stored()] == stream[..Stored()];
      stream := stream + more;
    }

    /** rxr_push: appends what fits and reports how much that was. */
    method RxrPush(p: seq<byte>) returns (n: nat)
      requires RingOk()
      modifies this`rxrW, this`rxrFill, this`rlen, rxr
      ensures RingOk()
      ensures n == if |p| <= RX_RING - old(rxrFill) then |p| else RX_RING - old(rxrFill)
      ensures rxrFill == old(rxrFill) + n && Ring() == old(Ring()) + p[..n]
    {
      var w := rxrW;
      var room := RX_RING - rxrFill;
      n := if |p| > room then room else |p|;
      ghost var ring := Ring();
      var i := 0;
      while i < n
        modifies rxr
        invariant 0 <= i <= n && 0 <= w < RX_RING
        invariant RingOf(rxr[..], w, rxrFill + i) == ring + p[..i]
      {
        RingPush(rxr[..], w, rxrFill + i, p[i]);
        ghost var cells := rxr[..];
        rxr[w] := p[i];
        assert rxr[..] == cells[w := p[i]];
        assert p[..i + 1] == p[..i] + [p[i]];
        w := (w + 1) % RX_RING;
        i := i + 1;
      }
      rxrW := w;
      rxrFill := rxrFill + n;
      rlen := rlen + n;
    }

    /** ooo_store: keeps a copy unless it is already there or every slice is taken. */
    method OooStore(seqno: nat, d: seq<byte>) returns (kept: bool)
      requires OooOk() && 0 < |d| <= MSS && Carries(stream, base, seqno, d)
      modifies this`ooo
      ensures OooOk()
      ensures kept <==> exists i :: 0 <= i < OOO_MAX && ooo[i].used && ooo[i].seqno == seqno && |ooo[i].data| == |d|
      ensures OnlyAdds(old(ooo), ooo, OooSlice(true, seqno, d))
      ensures !kept ==> forall i :: 0 <= i < OOO_MAX ==> old(ooo)[i].used
    {
      var i := 0;
      while i < OOO_MAX
        invariant 0 <= i <= OOO_MAX && ooo == old(ooo)
        invariant forall k :: 0 <= k < i ==> !(ooo[k].used && ooo[k].seqno == seqno && |ooo[k].data| == |d|)
      {
        if ooo[i].used && ooo[i].seqno == seqno && |ooo[i].data| == |d| { return true; }
        i := i + 1;
      }
      i := 0;
      while i < OOO_MAX
        invariant 0 <= i <= OOO_MAX && ooo == old(ooo)
        invariant forall k :: 0 <= k < i ==> ooo[k].used
      {
        if !ooo[i].used {
          ooo := ooo[i := OooSlice(true, seqno, d)];
          assert ooo[i].used;
          return true;
        }
        i := i + 1;
      }
      return false;
    }

    /** No slice waits that could be taken next, unless the ring is full. */
    ghost predicate Drained()
      reads this
    {
      rxrFill == RX_RING || forall i :: 0 <= i < OOO_MAX && i < |ooo| ==>
        !(ooo[i].used && ooo[i].seqno == base + Stored())
    }

    /** The slice is set aside, or there is no room for it. */
    ghost predicate SetAside(seqno: nat, len: nat)
      reads this
    {
      || (exists i :: 0 <= i < OOO_MAX && i < |ooo| && ooo[i].used && ooo[i].seqno == seqno && |ooo[i].data| == len)
      || (forall i :: 0 <= i < OOO_MAX && i < |ooo| ==> ooo[i].used)
    }

    /** The first slice that starts at rcv_nxt. */
    method Pick() returns (pick: int)
      requires |ooo| == OOO_MAX
      ensures -1 <= pick < OOO_MAX
      ensures pick >= 0 ==> ooo[pick].used && ooo[pick].seqno == rcvNxt
      ensures pick < 0 ==> forall i :: 0 <= i < OOO_MAX ==> !(ooo[i].used && ooo[i].seqno == rcvNxt)
    {
      var i := 0;
      while i < OOO_MAX
        invariant 0 <= i <= OOO_MAX
        invariant forall k :: 0 <= k < i ==> !(ooo[k].used && ooo[k].seqno == rcvNxt)
      {
        if ooo[i].used && ooo[i].seqno == rcvNxt { return i; }
        i := i + 1;
      }
      return -1;
    }

    /** Pushes stream bytes that start at rcv_nxt, and advances it by what was stored. */
    method Take(d: seq<byte>) returns (n: nat)
      requires Valid() && !finRx && Carries(stream, base, rcvNxt, d)
      modifies this`rxrW, this`rxrFill, this`rlen, this`rcvNxt, rxr
      ensures Valid()
      ensures n == if |d| <= RX_RING - old(rxrFill) then |d| else RX_RING - old(rxrFill)
      ensures rxrFill == old(rxrFill) + n && rcvNxt == old(rcvNxt) + n
    {
      hide RingOf;
      ghost var k, ring := Stored(), Ring();
      n := RxrPush(d);
      rcvNxt := rcvNxt + n;
      assert delivered + (ring + d[..n]) == (delivered + ring) + d[..n];
      assert stream[..k + n] == stream[..k] + stream[k..k + |d|][..n];
    }

    /** No slice waits at rcv_nxt. */
    predicate NoneDue()
      reads this
    {
      forall i :: 0 <= i < OOO_MAX && i < |ooo| ==> !(ooo[i].used && ooo[i].seqno == rcvNxt)
    }

    /** One turn of ooo_drain, which says whether there may be another. */
    method DrainOne() returns (more: bool)
      requires Valid() && !finRx
      modifies this`rxrW, this`rxrFill, this`rlen, this`rcvNxt, this`ooo, this`winUpdate, rxr
      ensures Valid() && rcvNxt >= old(rcvNxt) && StaleKept(old(ooo), old(rcvNxt), ooo)
      ensures if old(winUpdate) || (!more && !NoneDue()) then winUpdate else winUpdate ==> rxrFill == RX_RING
      ensures if more then UsedCount(ooo) < UsedCount(old(ooo)) else rxrFill == RX_RING || NoneDue()
    {
      hide RingOf, Carries, UsedCount;
      var pick := Pick();
      if pick < 0 { return false; }
      var s := ooo[pick];
      CarriesTail(stream, base, rcvNxt, s.data, Least(|s.data|, RX_RING - rxrFill));
      var n := Take(s.data);
      more := n == |s.data|;
      if more {
        UsedCountDrop(ooo, pick, s.(used := false));
        ooo := ooo[pick := s.(used := false)];
      } else {
        if n > 0 { ooo := ooo[pick := OooSlice(true, rcvNxt, s.data[n..])]; }
        winUpdate := true;
      }
    }

    /** ooo_drain: takes over waiting slices as long as one starts at rcv_nxt. */
    method OooDrain()
      requires Valid() && !finRx
      modifies this`rxrW, this`rxrFill, this`rlen, this`rcvNxt, this`ooo, this`winUpdate, rxr
      ensures Valid() && rcvNxt >= old(rcvNxt) && StaleKept(old(ooo), old(rcvNxt), ooo)
      ensures NoneDue() || (rxrFill == RX_RING && winUpdate)
      ensures if old(winUpdate) then winUpdate else winUpdate ==> rxrFill == RX_RING
    {
      hide RingOf, Carries, UsedCount;
      var more := true;
      while more
        invariant Valid() && !finRx && rcvNxt >= old(rcvNxt) && StaleKept(old(ooo), old(rcvNxt), ooo)
        invariant more || NoneDue() || (rxrFill == RX_RING && winUpdate)
        invariant if old(winUpdate) then winUpdate else winUpdate ==> rxrFill == RX_RING
        decreases more, UsedCount(ooo)
      {
        more := DrainOne();
      }
    }

    /** Takes stream bytes that start at rcv_nxt, then whatever was waiting behind them. */
    method TakeAndDrain(d: seq<byte>)
      requires Valid() && !finRx && Carries(stream, base, rcvNxt, d)
      modifies this`rxrW, this`rxrFill, this`rlen, this`rcvNxt, this`ooo, this`winUpdate, rxr
      ensures Valid() && rcvNxt >= old(rcvNxt) + Least(|d|, RX_RING - old(rxrFill))
      ensures d != [] ==> Drained()
      ensures StaleKept(old(ooo), old(rcvNxt) + Least(|d|, RX_RING - old(rxrFill)), ooo)
      ensures old(winUpdate) || |d| > 8192 - old(rxrFill) ==> winUpdate
      ensures winUpdate ==> old(winUpdate) || rxrFill == 8192
    {
      var stored := Take(d);
      if stored < |d| { winUpdate := true; }
      if stored > 0 { OooDrain(); }
    }

    /** The data part of handle_tcp for a segment that is not wholly old: old bytes are skipped, later
        ones set aside. */
    method HandleData(seqno: nat, d: seq<byte>)
      requires Valid() && !finRx && 0 < |d| <= MSS && Carries(stream, base, seqno, d)
      requires rcvNxt < seqno + |d|
      modifies this`rxrW, this`rxrFill, this`rlen, this`rcvNxt, this`ooo, this`winUpdate, rxr
      ensures Valid() && rcvNxt >= old(rcvNxt)
      ensures seqno <= old(rcvNxt) ==> rcvNxt >= Least(seqno + |d|, old(rcvNxt) + RX_RING - old(rxrFill)) && Drained()
      ensures seqno <= old(rcvNxt) ==>
        StaleKept(old(ooo), Least(seqno + |d|, old(rcvNxt) + RX_RING - old(rxrFill)), ooo)
      ensures seqno <= old(rcvNxt) && seqno + |d| > old(rcvNxt) + 8192 - old(rxrFill) ==> winUpdate
      ensures winUpdate ==> old(winUpdate) || rxrFill == 8192
      ensures seqno > old(rcvNxt) ==>
        rcvNxt == old(rcvNxt) && SetAside(seqno, |d|) && OnlyAdds(old(ooo), ooo, OooSlice(true, seqno, d))
    {
      hide RingOf;
      if seqno > rcvNxt {
        var kept := OooStore(seqno, d);
      } else if seqno == rcvNxt {
        TakeAndDrain(d);
      } else {
        var skip := rcvNxt - seqno;
        CarriesTail(stream, base, seqno, d, skip);
        TakeAndDrain(d[skip..]);
      }
    }

    /** The data and FIN part of handle_tcp. Whatever the order of segments, nothing but stream
        bytes is stored; a segment that reaches rcv_nxt is taken as far as the ring has room; a
        FIN counts only when every byte before it is stored. A waiting slice that the segment passes
        over is never given back. */
    method HandleSegment(s: Segment)
      requires Valid() && Genuine(stream, base, s)
      modifies this`rxrW, this`rxrFill, this`rlen, this`rcvNxt, this`ooo, this`winUpdate, this`finRx, rxr
      ensures Valid()
      ensures finRx <==> old(finRx) || (s.fin && Stored() == |stream|)
      ensures s.data != [] && s.seqno <= old(rcvNxt) && !old(finRx) ==>
        base + Stored() >= Least(s.seqno + |s.data|, old(rcvNxt) + RX_RING - old(rxrFill))
      ensures s.data != [] && s.seqno <= old(rcvNxt) < s.seqno + |s.data| && !old(finRx) ==> Drained()
      ensures s.data != [] && s.seqno > old(rcvNxt) && !old(finRx) ==>
        && Stored() == old(Stored()) && SetAside(s.seqno, |s.data|)
        && OnlyAdds(old(ooo), ooo, OooSlice(true, s.seqno, s.data))
      ensures s.data != [] && s.seqno <= old(rcvNxt) < s.seqno + |s.data| && !old(finRx) ==>
        StaleKept(old(ooo), Least(s.seqno + |s.data|, old(rcvNxt) + RX_RING - old(rxrFill)), ooo)
      ensures winUpdate ==> old(winUpdate) || rxrFill == 8192
      ensures s.data != [] && !old(finRx) && s.seqno <= old(rcvNxt) ==>
        s.seqno + |s.data| <= old(rcvNxt) + 8192 - old(rxrFill) || winUpdate
      ensures Stored() >= old(Stored()) && rcvNxt >= old(rcvNxt) && StaleKept(old(ooo), old(rcvNxt), ooo)
      ensures !old(finRx) && finRx ==> rcvNxt == base + |stream| + 1
      ensures old(finRx) ==> rcvNxt == old(rcvNxt) + if s.fin then 1 else 0
    {
      hide RingOf;
      if s.data != [] && s.seqno + |s.data| > rcvNxt { HandleData(s.seqno, s.data); }
      if s.fin && s.seqno + |s.data| <= rcvNxt {
        rcvNxt := rcvNxt + 1;
        finRx := true;
      }
    }

    /** The copy loop of net_tcp_recv. */
    method CopyOut(cap: nat) returns (out: seq<byte>)
      requires RingOk()
      modifies this`rxrFill, this`rlen
      ensures RingOk() && old(Ring()) == out + Ring()
      ensures |out| == if old(rxrFill) <= cap then old(rxrFill) else cap
    {
      hide RingOf, ReadAt;
      ghost var ring := Ring();
      out := [];
      var r := ReadAt(rxrW, rxrFill);
      while |out| < cap && rxrFill > 0
        invariant RingOk() && |out| <= cap && |out| + rxrFill == old(rxrFill)
        invariant r == ReadAt(rxrW, rxrFill) && ring == out + Ring()
        decreases rxrFill
      {
        RingPop(rxr[..], rxrW, rxrFill);
        assert out + ([rxr[r]] + RingOf(rxr[..], rxrW, rxrFill - 1)) ==
          (out + [rxr[r]]) + RingOf(rxr[..], rxrW, rxrFill - 1);
        out := out + [rxr[r]];
        r := (r + 1) % RX_RING;
        rxrFill := rxrFill - 1;
        rlen := rlen - 1;
      }
    }

    /** net_tcp_recv: hands out the oldest bytes and nothing else. */
    method Recv(cap: nat) returns (out: seq<byte>)
      requires Valid()
      modifies this`rxrFill, this`rlen, this`delivered, this`winUpdate
      ensures Valid()
      ensures |out| == if old(rxrFill) <= cap then old(rxrFill) else cap
      ensures old(Ring()) == out + Ring()
      ensures delivered == old(delivered) + out && Stored() == old(Stored())
      ensures winUpdate <==> old(winUpdate) && (out == [] || rxrFill >= 4096)
    {
      hide RingOf;
      ghost var ring := Ring();
      out := CopyOut(cap);
      assert delivered + ring == (delivered + out) + Ring();
      delivered := delivered + out;
      if |out| > 0 && winUpdate && rxrFill < RX_RING / 2 { winUpdate := false; }
    }
  }

  function Least(a: int, b: int): int { if a < b then a else b }

  datatype Event = Arrive(s: Segment) | Read(cap: nat)

  /** Any run of arrivals and reads: the bytes read are a prefix of the stream, followed in it by
      what is still in the ring; once the FIN has been accepted the two make up all of it. */
  method Run(r: Receiver, events: seq<Event>) returns (got: seq<byte>)
    requires r.Valid() && r.delivered == []
    requires forall i :: 0 <= i < |events| && events[i].Arrive? ==> Genuine(r.stream, r.base, events[i].s)
    modifies r, r.rxr
    ensures r.Valid() && r.stream == old(r.stream) && |got| + r.rxrFill <= |r.stream|
    ensures got + r.Ring() == r.stream[..|got| + r.rxrFill]
    ensures r.finRx ==> got + r.Ring() == r.stream
    ensures StaleKept(old(r.ooo), old(r.rcvNxt), r.ooo) && r.rcvNxt >= old(r.rcvNxt)
  {
    got := [];
    var i := 0;
    while i < |events|
      invariant 0 <= i <= |events| && r.Valid() && r.delivered == got && r.stream == old(r.stream)
      invariant StaleKept(old(r.ooo), old(r.rcvNxt), r.ooo) && r.rcvNxt >= old(r.rcvNxt)
    {
      match events[i] {
        case Arrive(s) => r.HandleSegment(s);
        case Read(cap) =>
          var out := r.Recv(cap);
          got := got + out;
      }
      i := i + 1;
    }
    assert r.stream[..|r.stream|] == r.stream;
  }

  // ---- the store can fill up for good ----

  /** Some slice waits for the bytes before seqno. */
  predicate Waits(o: seq<OooSlice>, seqno: nat) { exists i :: 0 <= i < |o| && o[i].used && o[i].seqno == seqno }

  predicate AllUsed(o: seq<OooSlice>) { forall i :: 0 <= i < |o| ==> o[i].used }

  lemma FourWait(o: seq<OooSlice>, b: nat)
    requires |o| == OOO_MAX && Waits(o, b + 1) && Waits(o, b + 2) && Waits(o, b + 3) && Waits(o, b + 4)
    ensures AllUsed(o)
  {
    var i :| 0 <= i < OOO_MAX && o[i].used && o[i].seqno == b + 1;
    var j :| 0 <= j < OOO_MAX && o[j].used && o[j].seqno == b + 2;
    var k :| 0 <= k < OOO_MAX && o[k].used && o[k].seqno == b + 3;
    var l :| 0 <= l < OOO_MAX && o[l].used && o[l].seqno == b + 4;
    assert {i, j, k, l} == {0, 1, 2, 3};
  }

  /** A slice set aside keeps what was waiting. */
  lemma WaitsOn(was: seq<OooSlice>, now: seq<OooSlice>, x: OooSlice, seqno: nat)
    requires OnlyAdds(was, now, x)
    ensures Waits(was, seqno) ==> Waits(now, seqno)
    ensures AllUsed(was) ==> AllUsed(now)
  {
    if Waits(was, seqno) {
      var i :| 0 <= i < |was| && was[i].used && was[i].seqno == seqno;
      assert now[i] == was[i];
    }
  }

  /** The store holds a slice for each number up to top, or is full; none starts later. */
  predicate Filling(o: seq<OooSlice>, base: nat, top: nat) {
    && |o| == OOO_MAX && (AllUsed(o) || forall q {:trigger Waits(o, q)} :: base < q < top ==> Waits(o, q))
    && forall i :: 0 <= i < OOO_MAX && o[i].used ==> o[i].seqno < top
  }

  /** One more segment that comes too early. */
  lemma FillingNext(was: seq<OooSlice>, now: seq<OooSlice>, base: nat, top: nat, x: OooSlice)
    requires Filling(was, base, top) && OnlyAdds(was, now, x) && x.seqno == top && x.used
    requires Waits(now, top) || AllUsed(now)
    ensures Filling(now, base, top + 1)
  {
    WaitsOn(was, now, x, top);
    forall q | base < q < top && Waits(was, q) ensures Waits(now, q) { WaitsOn(was, now, x, q); }
  }

  /** Four two-byte segments too early, then one that covers them all: every slice is stale, and stays
      so through whatever else arrives. From then on nothing that comes too early is kept. */
  method Clog(stream: seq<byte>, base: nat, later: seq<Event>) returns (r: Receiver, got: seq<byte>)
    requires |stream| >= 10
    requires forall i :: 0 <= i < |later| && later[i].Arrive? ==> Genuine(stream, base, later[i].s)
    ensures r.Valid() && r.stream == stream && r.base == base && Clogged(r.ooo, r.rcvNxt)
  {
    hide RingOf, Filling, Waits, OnlyAdds;
    r := new Receiver(stream, base);
    NoneFilling(r.ooo, base);
    for k := 1 to 5
      invariant r.Valid() && r.stream == stream && r.base == base && r.delivered == [] && !r.finRx && r.rxrFill == 0
      invariant fresh(r) && fresh(r.rxr) && Filling(r.ooo, base, base + k)
    {
      ghost var was := r.ooo;
      var s := Segment(base + k, stream[k .. k + 2], false);
      r.HandleSegment(s);
      AsideWaits(r, s);
      FillingNext(was, r.ooo, base, base + k, OooSlice(true, s.seqno, s.data));
    }
    FillingFull(r.ooo, base);
    r.HandleSegment(Segment(base, stream[..10], false));
    ghost var held, nxt := r.ooo, r.rcvNxt;
    got := Run(r, later);
    CloggedStays(held, nxt, r.ooo, r.rcvNxt);
  }

  lemma AsideWaits(r: Receiver, s: Segment)
    requires |r.ooo| == OOO_MAX && r.SetAside(s.seqno, |s.data|)
    ensures Waits(r.ooo, s.seqno) || AllUsed(r.ooo)
  {}

  lemma NoneFilling(o: seq<OooSlice>, base: nat)
    requires |o| == OOO_MAX && forall i :: 0 <= i < OOO_MAX ==> !o[i].used
    ensures Filling(o, base, base + 1)
  {}

  lemma FillingFull(o: seq<OooSlice>, base: nat)
    requires Filling(o, base, base + 5)
    ensures forall i :: 0 <= i < OOO_MAX ==> Stale(o[i], base + 10)
  {
    if !AllUsed(o) { FourWait(o, base); }
  }
}
