/** Reassembly of the pieces that ip_send cuts: which arrivals give the datagrams back. */
module IpReassembly {
  import opened Basics
  import opened Checksum
  import opened IpFrag

  // ---- one slot ----

  /** The buffer has the bytes of piece k of d, which is not the last. */
  predicate BufHas(buf: seq<byte>, d: Datagram, k: nat) {
    && 1480 * (k + 1) <= |d.payload| && 20 + 1480 * (k + 1) <= |buf|
    && buf[20 + 1480 * k .. 20 + 1480 * (k + 1)] == d.payload[1480 * k .. 1480 * (k + 1)]
  }

  /** Slot s is collecting d and has at least the pieces in got. */
  predicate Collects(s: Slot, d: Datagram, got: set<nat>) {
    && SlotOk(s) && Sendable(d) && Count(d) > 1
    && s.f.used && s.f.src == d.src && s.f.id == d.id && s.f.proto == d.proto && s.f.tot == 0
    && forall k :: k in got ==> k + 1 < Count(d) && BufHas(s.buf, d, k)
  }

  /** Storing piece k leaves the others where they are. */
  lemma FilledHas(s: Slot, d: Datagram, k: nat, m: nat)
    requires SlotOk(s) && Sendable(d) && k + 1 < Count(d) && m + 1 < Count(d)
    requires m == k || BufHas(s.buf, d, m)
    ensures BufHas(Filled(s, Cut(d, k)).buf, d, m)
  {
    hide Piece, Count, EndOf, Filled;
    PiecesFit(d, k);
    PiecesFit(d, m);
    var g := Cut(d, k);
    var b := Filled(s, g).buf;
    FilledAt(s, g, 20);
    forall i | 1480 * m <= i < 1480 * (m + 1) ensures b[20 + i] == d.payload[i] {
      FilledAt(s, g, 20 + i);
      if m != k {
        assert s.buf[20 + i] == s.buf[20 + 1480 * m .. 20 + 1480 * (m + 1)][i - 1480 * m];
        assert d.payload[i] == d.payload[1480 * m .. 1480 * (m + 1)][i - 1480 * m];
      }
    }
  }

  /** A piece other than the last is added to what the slot has, in any order and as often as it likes;
      the first may also open a free slot. */
  lemma SettlePiece(s: Slot, d: Datagram, got: set<nat>, k: nat)
    requires Sendable(d) && Count(d) > 1 && k + 1 < Count(d) && SlotOk(s)
    requires Collects(s, d, got) || (k == 0 && got == {})
    ensures Settle(s, Cut(d, k)).1 == None && Collects(Settle(s, Cut(d, k)).0, d, got + {k})
  {
    hide Overwrite, Piece, Count, EndOf, BufHas, Sealed;
    PiecesFit(d, k);
    var g := Cut(d, k);
    var n := Filled(s, g);
    forall m | m in got + {k} ensures m + 1 < Count(d) && BufHas(n.buf, d, m) { FilledHas(s, d, k, m); }
  }

  /** The first j pieces are in the buffer exactly when each of them is. */
  lemma {:induction false} PiecesCover(buf: seq<byte>, d: Datagram, j: nat)
    requires Sendable(d) && |buf| == BUF && 1480 * j <= |d.payload|
    ensures buf[20 .. 20 + 1480 * j] == d.payload[..1480 * j] <==> forall k :: 0 <= k < j ==> BufHas(buf, d, k)
  {
    if j > 0 {
      var m := j - 1;
      PiecesCover(buf, d, m);
      assert buf[20 .. 20 + 1480 * j] == buf[20 .. 20 + 1480 * m] + buf[20 + 1480 * m .. 20 + 1480 * j];
      assert d.payload[..1480 * j] == d.payload[..1480 * m] + d.payload[1480 * m .. 1480 * j];
      if forall k :: 0 <= k < j ==> BufHas(buf, d, k) { assert BufHas(buf, d, m); }
      if buf[20 .. 20 + 1480 * j] == d.payload[..1480 * j] {
        assert buf[20 .. 20 + 1480 * m] == buf[20 .. 20 + 1480 * j][..1480 * m];
        assert buf[20 + 1480 * m .. 20 + 1480 * j] == buf[20 .. 20 + 1480 * j][1480 * m ..];
        assert d.payload[..1480 * m] == d.payload[..1480 * j][..1480 * m];
        assert d.payload[1480 * m .. 1480 * j] == d.payload[..1480 * j][1480 * m ..];
      }
    }
  }

  /** The last piece is dispatched at once, in whatever slot it lands and whatever else has come:
      completion looks only at the highest byte seen. What is given out is the datagram exactly when
      the buffer has all the other pieces. */
  lemma SettleLast(s: Slot, d: Datagram)
    requires Sendable(d) && Count(d) > 1 && SlotOk(s)
    ensures var r := Settle(s, Cut(d, Count(d) - 1));
      && r.1.Some? && |r.1.value| == |Packet(d)| && !r.0.f.used && SlotOk(r.0)
      && (r.1.value == Packet(d) <==> forall k :: 0 <= k < Count(d) - 1 ==> BufHas(s.buf, d, k))
  {
    hide Overwrite, Piece, Count, EndOf, BufHas, Sealed, Packet, Rewritten, Acceptable, Parse, WordAt, QuadAt;
    var j := Count(d) - 1;
    PiecesFit(d, j);
    PieceParses(d, j);
    var g := Cut(d, j);
    var n := Filled(s, g);
    FilledBuf(s, g);
    assert g.head[0 := 0x45] == g.head;
    WholeHeader(d, j);
    SealedPacket(n.buf, Packet(d)[..20], d.payload);
    PiecesCover(s.buf, d, j);
    LastJoins(d, s.buf[20 .. 20 + 1480 * j], 1480 * j);
  }

  /** The payload is right exactly when what comes before its last part is. */
  lemma LastJoins(d: Datagram, x: seq<byte>, at: nat)
    requires at <= |d.payload| && |x| == at
    ensures x + d.payload[at .. |d.payload|] == d.payload <==> x == d.payload[..at]
  {
    assert d.payload == d.payload[..at] + d.payload[at .. |d.payload|];
    JoinInjective(x, d.payload[..at], d.payload[at .. |d.payload|]);
  }

  /** Any piece's header, rewritten, is that of the whole. */
  lemma WholeHeader(d: Datagram, k: nat)
    requires Sendable(d) && k < Count(d)
    ensures Rewritten(Piece(d, k)[..20], |d.payload|) == Packet(d)[..20] && Packet(d)[20..] == d.payload
    ensures Packet(d) == Packet(d)[..20] + d.payload
  {
    hide Header, Count, Rewritten;
    PiecesFit(d, k);
    var more := if k + 1 < Count(d) then MF else 0;
    var n := 20 + EndOf(d, k) - 1480 * k;
    assert Piece(d, k)[..20] == Header(n, d.id, more + 185 * k, d.proto, d.src, d.dst);
    RewrittenHeader(n, d.id, more + 185 * k, d.proto, d.src, d.dst, |d.payload|);
  }

  lemma JoinInjective(x: seq<byte>, y: seq<byte>, b: seq<byte>)
    requires |x| == |y|
    ensures x + b == y + b <==> x == y
  {
    assert x == (x + b)[..|x|] && y == (y + b)[..|x|];
  }

  // ---- schedules ----

  /** The datagrams being collected, with the pieces that have come. */
  type Opens = map<Datagram, set<nat>>

  /** The arrival of packet k of d at some tick, with whatever padding the link added. */
  datatype Arrival = Arrival(d: Datagram, k: nat, pad: seq<byte>, now: nat)

  predicate SameKey(d: Datagram, d': Datagram) { d.src == d'.src && d.id == d'.id && d.proto == d'.proto }

  predicate InPieces(d: Datagram) { Count(d) > 1 }

  /** All pieces but the last have come. */
  predicate AllBut(d: Datagram, got: set<nat>) { forall k :: 0 <= k < Count(d) - 1 ==> k in got }

  /** What may arrive: a datagram in one piece; the first piece of a new one while fewer than two
      others, of other source, id or protocol, are open; of an open one any piece in any order and any
      number of times, but the last only when all others have come. While one is open, less than 200
      ticks after the last piece of any. */
  predicate Due(open: Opens, last: nat, a: Arrival) {
    && Sendable(a.d) && a.k < Count(a.d) && (open != map[] ==> a.now < last + EXPIRY)
    && (InPieces(a.d) ==>
      if a.d in open then a.k + 1 < Count(a.d) || AllBut(a.d, open[a.d])
      else a.k == 0 && |open| < 2 && forall d' :: d' in open ==> !SameKey(d', a.d))
  }

  function After(open: Opens, a: Arrival): Opens {
    if !InPieces(a.d) then open
    else if a.k + 1 == Count(a.d) then open - {a.d}
    else open[a.d := (if a.d in open then open[a.d] else {}) + {a.k}]
  }

  function LastAfter(last: nat, a: Arrival): nat { if InPieces(a.d) then a.now else last }

  /** Every arrival is due when its turn comes. */
  predicate Orderly(open: Opens, last: nat, arrivals: seq<Arrival>)
    decreases |arrivals|
  {
    arrivals == [] ||
    (Due(open, last, arrivals[0]) && Orderly(After(open, arrivals[0]), LastAfter(last, arrivals[0]), arrivals[1..]))
  }

  function OpenAfter(open: Opens, arrivals: seq<Arrival>): Opens
    decreases |arrivals|
  {
    if arrivals == [] then open else OpenAfter(After(open, arrivals[0]), arrivals[1..])
  }

  /** The datagrams whose last packet is among the arrivals, in that order. */
  function Finished(arrivals: seq<Arrival>): seq<Datagram> {
    if arrivals == [] then []
    else (if arrivals[0].k + 1 == Count(arrivals[0].d) then [arrivals[0].d] else []) + Finished(arrivals[1..])
  }

  /** The datagrams begun by the arrivals. */
  function Begun(open: Opens, arrivals: seq<Arrival>): seq<Datagram>
    decreases |arrivals|
  {
    if arrivals == [] then []
    else (if arrivals[0].d !in open then [arrivals[0].d] else []) + Begun(After(open, arrivals[0]), arrivals[1..])
  }

  /** The slot is free, or collects what o says. */
  predicate SlotIs(s: Slot, o: Option<Datagram>, open: Opens) {
    SlotOk(s) && if o == None then !s.f.used else o.value in open && Collects(s, o.value, open[o.value])
  }

  function Opened(o: Option<Datagram>): set<Datagram> { if o == None then {} else {o.value} }

  /** The two slots between them collect exactly the open datagrams. */
  predicate Tracks(a: Slot, b: Slot, oa: Option<Datagram>, ob: Option<Datagram>, open: Opens) {
    && SlotIs(a, oa, open) && SlotIs(b, ob, open) && open.Keys == Opened(oa) + Opened(ob)
    && (oa != None && ob != None ==> !SameKey(oa.value, ob.value))
  }

  /** The slot a due packet of a datagram in pieces goes to. */
  lemma PickDue(a: Slot, b: Slot, oa: Option<Datagram>, ob: Option<Datagram>, open: Opens, last: nat, x: Arrival)
    requires Tracks(a, b, oa, ob, open) && Due(open, last, x) && InPieces(x.d)
    ensures var s := Pick(a.f, b.f, Cut(x.d, x.k));
      if x.d in open then (s == 0 && oa == Some(x.d)) || (s == 1 && ob == Some(x.d))
      else (s == 0 && oa == None) || (s == 1 && ob == None)
  {
    hide Piece, BufHas, AllBut, Count;
    if oa != None && ob != None {
      assert open.Keys == {oa.value, ob.value} && oa.value != ob.value;
      assert |open| == |open.Keys|;
    }
  }

  /** What is in the slot the packet went to, afterwards. */
  function Moved(x: Arrival): Option<Datagram> { if x.k + 1 < Count(x.d) then Some(x.d) else None }

  /** The slot a due packet goes to. */
  lemma SettleDue(s: Slot, o: Option<Datagram>, open: Opens, last: nat, x: Arrival)
    requires SlotIs(s, o, open) && Due(open, last, x) && InPieces(x.d)
    requires o == if x.d in open then Some(x.d) else None
    ensures var r := Settle(s, Cut(x.d, x.k));
      && r.1 == (if x.k + 1 == Count(x.d) then Some(Packet(x.d)) else None)
      && SlotIs(r.0, Moved(x), After(open, x))
  {
    hide Piece, BufHas, Packet, Settle, Count, Cut;
    var got := if x.d in open then open[x.d] else {};
    if x.k + 1 < Count(x.d) {
      SettlePiece(s, x.d, got, x.k);
      NotFree(Settle(s, Cut(x.d, x.k)).0, x.d, got + {x.k});
    } else {
      SettleLast(s, x.d);
      AllHas(s, x.d, got);
    }
  }

  lemma NotFree(s: Slot, d: Datagram, got: set<nat>)
    requires Collects(s, d, got)
    ensures SlotOk(s)
  {}

  lemma AllHas(s: Slot, d: Datagram, got: set<nat>)
    requires Collects(s, d, got) && AllBut(d, got)
    ensures forall k :: 0 <= k < Count(d) - 1 ==> BufHas(s.buf, d, k)
  {}

  /** The other slot is not concerned. */
  lemma OtherSlot(s: Slot, o: Option<Datagram>, open: Opens, x: Arrival)
    requires SlotIs(s, o, open) && o != Some(x.d)
    ensures SlotIs(s, o, After(open, x))
  {}

  lemma OpenMoves(o: Option<Datagram>, other: Option<Datagram>, open: Opens, last: nat, x: Arrival)
    requires Due(open, last, x) && InPieces(x.d) && open.Keys == Opened(o) + Opened(other)
    requires o == if x.d in open then Some(x.d) else None
    requires o != None && other != None ==> !SameKey(o.value, other.value)
    ensures other != Some(x.d)
    ensures After(open, x).Keys == Opened(Moved(x)) + Opened(other) == Opened(other) + Opened(Moved(x))
    ensures Moved(x) != None && other != None ==>
      !SameKey(Moved(x).value, other.value) && !SameKey(other.value, Moved(x).value)
  {
    hide Count, AllBut, After, Due;
    DueFits(open, last, x);
    AfterKeys(open, x);
    DueLast(open, last, x);
    if other != None { assert other.value in open.Keys; }
    SetMoves(o, other, x.d);
  }

  lemma SetMoves(o: Option<Datagram>, other: Option<Datagram>, d: Datagram)
    requires other != Some(d) && (o == None || o == Some(d))
    ensures (Opened(o) + Opened(other)) - {d} == Opened(None) + Opened(other) == Opened(other) + Opened(None)
    ensures (Opened(o) + Opened(other)) + {d} == Opened(Some(d)) + Opened(other) == Opened(other) + Opened(Some(d))
  {}

  lemma DueLast(open: Opens, last: nat, x: Arrival)
    requires Due(open, last, x) && InPieces(x.d)
    ensures x.k + 1 == Count(x.d) ==> x.d in open
    ensures x.d !in open ==> forall d' :: d' in open ==> !SameKey(d', x.d)
  {}

  lemma AfterKeys(open: Opens, x: Arrival)
    requires InPieces(x.d)
    ensures After(open, x).Keys == if x.k + 1 == Count(x.d) then open.Keys - {x.d} else open.Keys + {x.d}
  {}

  /** The step of the main result: a due packet is taken, and the last one gives out the datagram. */
  lemma ArriveDue(a: Slot, b: Slot, oa: Option<Datagram>, ob: Option<Datagram>, open: Opens, last: nat, x: Arrival)
    returns (oa': Option<Datagram>, ob': Option<Datagram>)
    requires Tracks(a, b, oa, ob, open) && Due(open, last, x)
    ensures var r := Arrive(a, b, Piece(x.d, x.k));
      && r.out == (if x.k + 1 == Count(x.d) then Some(Packet(x.d)) else None)
      && Tracks(r.a, r.b, oa', ob', After(open, x))
    ensures Lodged(a.f, b.f, Piece(x.d, x.k)) <==> InPieces(x.d)
  {
    hide Arrive, Settle, Collects, Piece, Packet, Pick, Cut, After, Opened, SlotIs, Due, Lodged, SameKey, Acceptable,
         Parse, WordAt, QuadAt, EndOf;
    DueFits(open, last, x);
    TracksOk(a, b, oa, ob, open);
    PieceParses(x.d, x.k);
    Fragments(x.d, x.k);
    ArriveRead(a, b, Piece(x.d, x.k), Cut(x.d, x.k));
    oa', ob' := oa, ob;
    if !InPieces(x.d) {
      OnePiece(x.d, x.k);
      AfterWhole(open, x);
      return;
    }
    PickDue(a, b, oa, ob, open, last, x);
    if Pick(a.f, b.f, Cut(x.d, x.k)) == 0 {
      OpenMoves(oa, ob, open, last, x);
      SettleDue(a, oa, open, last, x);
      OtherSlot(b, ob, open, x);
      oa' := Moved(x);
    } else {
      OpenMoves(ob, oa, open, last, x);
      SettleDue(b, ob, open, last, x);
      OtherSlot(a, oa, open, x);
      ob' := Moved(x);
    }
  }

  lemma DueFits(open: Opens, last: nat, x: Arrival)
    requires Due(open, last, x)
    ensures Sendable(x.d) && x.k < Count(x.d)
  {}

  lemma TracksOk(a: Slot, b: Slot, oa: Option<Datagram>, ob: Option<Datagram>, open: Opens)
    requires Tracks(a, b, oa, ob, open)
    ensures SlotOk(a) && SlotOk(b)
    ensures open.Keys == Opened(oa) + Opened(ob) &&
      (oa != None && ob != None ==> !SameKey(oa.value, ob.value) && !SameKey(ob.value, oa.value))
    ensures open.Keys == Opened(ob) + Opened(oa)
  {}

  lemma AfterWhole(open: Opens, x: Arrival)
    requires !InPieces(x.d)
    ensures After(open, x) == open
  {}

  /** Arrive for a packet that reads as g. */
  lemma ArriveRead(a: Slot, b: Slot, p: seq<byte>, g: Frag)
    requires SlotOk(a) && SlotOk(b) && Acceptable(p) && Parse(p) == g && FragFits(g)
    ensures Arrive(a, b, p) ==
      if !g.more && g.off == 0 then Outcome(a, b, Some(p))
      else if Pick(a.f, b.f, g) == 0 then Outcome(Settle(a, g).0, b, Settle(a, g).1)
      else if Pick(a.f, b.f, g) == 1 then Outcome(a, Settle(b, g).0, Settle(b, g).1)
      else Outcome(a, b, None)
    ensures Lodged(a.f, b.f, p) <==> (g.more || g.off != 0) && Pick(a.f, b.f, g) >= 0
  {
    hide Settle, Acceptable, Parse, Pick;
  }

  /** Which packets of a datagram are fragments. */
  lemma Fragments(d: Datagram, k: nat)
    requires Sendable(d) && k < Count(d)
    ensures InPieces(d) <==> Cut(d, k).more || Cut(d, k).off != 0
    ensures InPieces(d) <==> Count(d) != 1
  {
    hide Header;
    PiecesFit(d, k);
  }

  /** A datagram in one piece. */
  lemma OnePiece(d: Datagram, k: nat)
    requires Sendable(d) && k < Count(d) && Count(d) == 1
    ensures Piece(d, k) == Packet(d)
  {
    hide Header;
    assert d.payload[0 .. EndOf(d, 0)] == d.payload;
  }

  lemma TrimPiece(d: Datagram, k: nat, pad: seq<byte>)
    requires Sendable(d) && k < Count(d)
    ensures 20 <= |Piece(d, k) + pad| <= 1500 + |pad| && Trimmed(Piece(d, k) + pad) == Piece(d, k)
    ensures QuadAt(Piece(d, k) + pad, 16) == d.dst
  {
    hide Piece, Acceptable, Parse, Count, EndOf, Cut;
    PieceParses(d, k);
    PiecesFit(d, k);
    PadReads(Piece(d, k), pad);
  }

  lemma PadReads(p: seq<byte>, pad: seq<byte>)
    requires |p| >= 20 && WordAt(p, 2) == |p|
    ensures Trimmed(p + pad) == p && QuadAt(p + pad, 16) == QuadAt(p, 16)
  {
    assert (p + pad)[..|p|] == p;
  }

  /** In an empty buffer the pieces before the last are found exactly where they are zero. */
  lemma ZerosHave(d: Datagram, j: nat)
    requires Sendable(d) && 1480 * j <= |d.payload|
    ensures (forall k :: 0 <= k < j ==> BufHas(Zeros(BUF), d, k)) <==> d.payload[..1480 * j] == Zeros(1480 * j)
  {
    PiecesCover(Zeros(BUF), d, j);
    assert Zeros(BUF)[20 .. 20 + 1480 * j] == Zeros(1480 * j);
  }

  /** A last piece that overtakes all others, on a host that has seen no fragment yet: a packet of the
      right length goes out at once, and is the datagram exactly when the bytes that are still on
      their way are all zero. */
  method LastFirst(d: Datagram) returns (out: Option<seq<byte>>)
    requires Sendable(d) && InPieces(d)
    ensures out.Some? && |out.value| == |Packet(d)|
    ensures out.value == Packet(d) <==> d.payload[..1480 * (Count(d) - 1)] == Zeros(1480 * (Count(d) - 1))
  {
    hide Arrive, Settle, Packet, Piece, BufHas, Count, Acceptable, Parse, WordAt, QuadAt, EndOf, Cut, Lodged;
    var r := new Reassembler();
    var packets := IpSend(d);
    ghost var j: nat := Count(d) - 1;
    PiecesFit(d, j);
    PieceParses(d, j);
    Fragments(d, j);
    ArriveRead(r.Slot0(), r.Slot1(), Piece(d, j), Cut(d, j));
    SettleLast(r.Slot0(), d);
    ZerosHave(d, j);
    out := r.HandleIpv4(packets[|packets| - 1], 0);
  }

  /** For example 1481 ones. */
  method Overtaken() returns (d: Datagram, out: Option<seq<byte>>)
    ensures Sendable(d) && Count(d) == 2 && out.Some? && out.value != Packet(d)
  {
    hide Packet;
    d := Datagram(1, 2, 3, 17, seq(1481, _ => 1));
    out := LastFirst(d);
    assert d.payload[..1480][0] == 1;
  }

  lemma TracksNone(a: Slot, b: Slot)
    requires SlotOk(a) && SlotOk(b) && !a.f.used && !b.f.used
    ensures Tracks(a, b, None, None, map[])
  {}

  /** Giving up both slots does no harm when nothing is open. */
  lemma TracksCleared(a: Slot, b: Slot, oa: Option<Datagram>, ob: Option<Datagram>)
    requires Tracks(a, b, oa, ob, map[])
    ensures oa == None && ob == None && Tracks(Slot(Cleared(a.f), a.buf), Slot(Cleared(b.f), b.buf), None, None, map[])
  {
    assert Opened(oa) + Opened(ob) == {} && Opened(oa) <= Opened(oa) + Opened(ob) &&
      Opened(ob) <= Opened(oa) + Opened(ob);
  }

  /** The expiry poll and the frame handler, for one due arrival. */
  method Take(r: Reassembler, h: Host, x: Arrival, ghost oa: Option<Datagram>, ghost ob: Option<Datagram>,
      ghost open: Opens, ghost last: nat)
    returns (out: Option<seq<byte>>, ghost oa': Option<Datagram>, ghost ob': Option<Datagram>)
    requires r.Valid() && Tracks(r.Slot0(), r.Slot1(), oa, ob, open) && Due(open, last, x) && ForUs(h, x.d.dst) &&
      |x.pad| <= 1500
    requires open != map[] ==> r.armed && r.expire == last + EXPIRY
    modifies r, r.b0, r.b1
    ensures r.Valid() && Tracks(r.Slot0(), r.Slot1(), oa', ob', After(open, x))
    ensures Sendable(x.d) && out == if x.k + 1 == Count(x.d) then Some(Packet(x.d)) else None
    ensures After(open, x) != map[] ==> r.armed && r.expire == LastAfter(last, x) + EXPIRY
  {
    hide Arrive, Tracks, Piece, Packet, Trimmed, Lodged, Cut, AllBut;
    oa', ob' := oa, ob;
    TracksOk(r.Slot0(), r.Slot1(), oa, ob, open);
    if open == map[] { TracksCleared(r.Slot0(), r.Slot1(), oa, ob); }
    r.ExpiryPoll(x.now);
    TrimPiece(x.d, x.k, x.pad);
    oa', ob' := ArriveDue(r.Slot0(), r.Slot1(), oa', ob', open, last, x);
    out := HandleFrame(r, h, Piece(x.d, x.k) + x.pad, x.now);
  }

  /** Pieces of any number of datagrams, at most two of them open at a time, the first of each first and
      the last last, with the others in any order and repeated at will: every datagram is dispatched
      when its last piece arrives, exactly as one unfragmented packet, and nothing else is. */
  method Run(r: Reassembler, h: Host, arrivals: seq<Arrival>) returns (out: seq<seq<byte>>)
    requires r.Valid() && !r.f0.used && !r.f1.used && Orderly(map[], 0, arrivals)
    requires forall x :: x in arrivals ==> |x.pad| <= 1500 && ForUs(h, x.d.dst)
    modifies r, r.b0, r.b1
    ensures r.Valid() && |out| == |Finished(arrivals)|
    ensures forall i :: 0 <= i < |out| ==> Sendable(Finished(arrivals)[i]) && out[i] == Packet(Finished(arrivals)[i])
  {
    hide Tracks, Packet, After, Due, ForUs, LastAfter, Orderly, Finished;
    out := [];
    assert arrivals[0..] == arrivals;
    var n := 0;
    TracksNone(r.Slot0(), r.Slot1());
    ghost var open: Opens, last: nat, oa: Option<Datagram>, ob: Option<Datagram>, done: seq<Datagram> :=
      map[], 0, None, None, [];
    while n < |arrivals|
      invariant 0 <= n <= |arrivals| && r.Valid() && Tracks(r.Slot0(), r.Slot1(), oa, ob, open)
      invariant open != map[] ==> r.armed && r.expire == last + EXPIRY
      invariant Orderly(open, last, arrivals[n..]) && Finished(arrivals) == done + Finished(arrivals[n..])
      invariant |out| == |done| && forall i :: 0 <= i < |out| ==> Sendable(done[i]) && out[i] == Packet(done[i])
    {
      var x := arrivals[n];
      NextArrival(open, last, arrivals, n);
      var p;
      p, oa, ob := Take(r, h, x, oa, ob, open, last);
      if p.Some? {
        out := out + [p.value];
        done := done + [x.d];
      }
      open, last := After(open, x), LastAfter(last, x);
      n := n + 1;
    }
    assert arrivals[n..] == [];
    NoneFinished();
  }

  lemma NoneFinished()
    ensures Finished([]) == []
  {}

  lemma NextArrival(open: Opens, last: nat, arrivals: seq<Arrival>, n: nat)
    requires n < |arrivals| && Orderly(open, last, arrivals[n..])
    ensures var x := arrivals[n];
      && Due(open, last, x) && Orderly(After(open, x), LastAfter(last, x), arrivals[n + 1..])
      && Finished(arrivals[n..]) == (if x.k + 1 == Count(x.d) then [x.d] else []) + Finished(arrivals[n + 1..])
  {
    assert arrivals[n..][1..] == arrivals[n + 1..];
  }

  /** Exactly once: over any orderly schedule a datagram is given out as often as it was begun, but
      for the copy that is still open. */
  lemma {:induction false} OnceEach(open: Opens, last: nat, arrivals: seq<Arrival>, d: Datagram)
    requires Orderly(open, last, arrivals) && forall x :: x in open ==> InPieces(x)
    ensures multiset(Begun(open, arrivals))[d] + (if d in open then 1 else 0)
         == multiset(Finished(arrivals))[d] + if d in OpenAfter(open, arrivals) then 1 else 0
    decreases |arrivals|
  {
    if arrivals != [] {
      var x := arrivals[0];
      assert x.d in open ==> InPieces(x.d);
      OnceEach(After(open, x), LastAfter(last, x), arrivals[1..], d);
      assert d in After(open, x) <==> (if d != x.d || !InPieces(x.d) then d in open else x.k + 1 < Count(x.d));
    }
  }
}
