/** Both halves together: what one side sends, over a network that may lose, repeat and reorder
    segments, against what the other side's application reads. */
module TcpLink {
  import opened Basics
  import opened TcpStream
  import TcpSend
  import TcpReceive
  import TcpClose

  /** What may happen next: the application writes, while the events in env come to the sender; an
      acknowledgement, a timeout or another event reaches the sender; the network delivers some
      segment sent earlier; the other application reads. */
  datatype Event =
    | Write(data: seq<byte>, env: seq<TcpSend.Env>)
    | Net(e: TcpSend.Env)
    | Deliver(k: nat)
    | Read(cap: nat)

  /** The bytes sent so far: all that was handed over but for the Nagle buffer. */
  ghost function Sent(tx: TcpSend.Sender): seq<byte>
    requires tx.base <= tx.sndNxt <= tx.base + |tx.accepted|
    reads tx
  {
    tx.accepted[..tx.sndNxt - tx.base]
  }

  /** What has been read and what is in the ring are a prefix of what was sent. */
  ghost predicate InOrder(tx: TcpSend.Sender, rx: TcpReceive.Receiver)
    reads tx, rx, rx.rxr
  {
    tx.Valid() && rx.Valid() && !rx.finRx && rx.base == tx.base && rx.stream == Sent(tx)
  }

  /** A segment on the wire carries bytes of the stream. */
  lemma OnWire(tx: TcpSend.Sender, rx: TcpReceive.Receiver, k: nat)
    requires tx.Valid() && rx.base == tx.base && rx.stream == Sent(tx) && k < |tx.wire|
    ensures TcpReceive.Genuine(rx.stream, rx.base, TcpReceive.Segment(tx.wire[k].seqno, tx.wire[k].data, false))
  {
    CarriesCut(tx.accepted, tx.base, tx.wire[k].seqno, tx.wire[k].data, tx.sndNxt - tx.base);
  }

  lemma CarriesCut(stream: seq<byte>, base: nat, seqno: nat, data: seq<byte>, n: nat)
    requires Carries(stream, base, seqno, data) && n <= |stream| && seqno + |data| <= base + n
    ensures Carries(stream[..n], base, seqno, data)
  {
    assert stream[..n][seqno - base .. seqno - base + |data|] == stream[seqno - base .. seqno - base + |data|];
  }

  lemma SentMore(a: seq<byte>, b: seq<byte>, m: nat, n: nat)
    requires a <= b && m <= |a| && m <= n <= |b|
    ensures a[..m] + b[m..n] == b[..n]
  {
    assert a[..m] == b[..m];
  }

  /** One event. */
  method Step(tx: TcpSend.Sender, rx: TcpReceive.Receiver, e: Event) returns (out: seq<byte>)
    requires InOrder(tx, rx)
    modifies tx, rx, rx.rxr
    ensures InOrder(tx, rx) && rx.delivered == old(rx.delivered) + out
    ensures old(tx.accepted) <= tx.accepted && (!e.Write? ==> tx.accepted == old(tx.accepted))
    ensures e.Write? ==> exists n :: 0 <= n <= |e.data| && tx.accepted == old(tx.accepted) + e.data[..n]
    ensures !e.Read? ==> out == []
    ensures !e.Write? ==> tx.sndWnd == if e.Net? && e.e.AckIn? then e.e.wnd else old(tx.sndWnd)
  {
    hide TcpSend.Contiguous, TcpSend.Tiled, TcpSend.Queue, TcpReceive.RingOf, Carries;
    out := [];
    ghost var was, m := tx.accepted, tx.sndNxt - tx.base;
    match e {
      case Write(data, env) =>
        var _, n, _, _ := tx.Send(data, env);
        SentMore(was, tx.accepted, m, tx.sndNxt - tx.base);
        rx.Extend(tx.accepted[m .. tx.sndNxt - tx.base]);
      case Net(ev) =>
        tx.Handle(ev);
        SentMore(was, tx.accepted, m, tx.sndNxt - tx.base);
        rx.Extend(tx.accepted[m .. tx.sndNxt - tx.base]);
      case Deliver(k) =>
        if k < |tx.wire| {
          OnWire(tx, rx, k);
          rx.HandleSegment(TcpReceive.Segment(tx.wire[k].seqno, tx.wire[k].data, false));
        }
      case Read(cap) => out := rx.Recv(cap);
    }
  }

  /** However writing, acknowledging, delivering and reading are interleaved, the reader gets a prefix
      of the bytes the writing application handed over, in order and without a gap. */
  method EndToEnd(tx: TcpSend.Sender, rx: TcpReceive.Receiver, events: seq<Event>) returns (got: seq<byte>)
    requires InOrder(tx, rx) && rx.delivered == []
    modifies tx, rx, rx.rxr
    ensures InOrder(tx, rx) && |got| + rx.rxrFill <= |tx.accepted| - |tx.nagle|
    ensures got + rx.Ring() == tx.accepted[..|got| + rx.rxrFill]
    ensures old(tx.accepted) <= tx.accepted
  {
    got := [];
    for i := 0 to |events|
      invariant InOrder(tx, rx) && rx.delivered == got && old(tx.accepted) <= tx.accepted
    {
      var out := Step(tx, rx, events[i]);
      got := got + out;
    }
  }

  // ---- close ----

  /** net_tcp_close for the sender's connection: the FIN takes the number after the last byte sent.
      That is the number after the last byte handed over exactly when the Nagle buffer is empty; else
      the bytes in it are behind the FIN, and whatever sends them then gives them wrong numbers. */
  method CloseSender(tx: TcpSend.Sender, rcv: nat, rto: nat, now: nat) returns (c: TcpClose.Connection)
    requires tx.Valid()
    ensures fresh(c) && c.st == TcpClose.FinWait1 && c.Closing(now) && c.sndUna == tx.sndUna
    ensures c.finSeq == tx.sndNxt && c.sndNxt == c.finSeq + 1
    ensures c.finSeq == tx.base + |tx.accepted| <==> tx.nagle == []
    ensures tx.accepted[c.finSeq - tx.base..] == tx.nagle
    ensures tx.nagle != [] ==> !Carries(tx.accepted, tx.base, c.sndNxt, tx.nagle)
  {
    hide TcpSend.Contiguous, TcpSend.Queue, TcpSend.Tiled;
    UnaFits(tx);
    c := new TcpClose.Connection(tx.sndUna, tx.sndNxt, rcv, tx.retries, rto);
    c.Close(now);
  }

  lemma UnaFits(tx: TcpSend.Sender)
    requires tx.Valid()
    ensures tx.sndUna <= tx.sndNxt
  {
    var q := TcpSend.Queue(tx.txb, tx.txTail, tx.cnt);
    if q != [] { TcpSend.TiledEnd(q, tx.sndUna, tx.sndNxt, tx.accepted, tx.base, 0); }
  }

  /** After the close: the network delivers a segment sent before it, or the FIN, or the other
      application reads. */
  datatype Late = Segment(k: nat) | Fin | Take(cap: nat)

  /** The end of a connection, from any state of the two ends: in whatever order the FIN and the
      segments sent before it come, once the FIN is accepted the reader has, or finds in the ring,
      exactly what was handed over without the Nagle buffer. So the FIN ends the stream where the
      writer did exactly when that buffer is empty. */
  method CloseToEnd(tx: TcpSend.Sender, rx: TcpReceive.Receiver, events: seq<Late>, rcv: nat, rto: nat, now: nat)
    returns (c: TcpClose.Connection)
    requires InOrder(tx, rx)
    modifies rx, rx.rxr
    ensures rx.Valid() && old(rx.delivered) <= rx.delivered
    ensures rx.finRx ==> rx.delivered + rx.Ring() == tx.accepted[..|tx.accepted| - |tx.nagle|]
    ensures rx.finRx ==> (rx.delivered + rx.Ring() == tx.accepted <==> tx.nagle == [])
  {
    hide TcpSend.Contiguous, TcpSend.Tiled, TcpSend.Queue, TcpReceive.RingOf, Carries;
    c := CloseSender(tx, rcv, rto, now);
    for i := 0 to |events|
      invariant tx.Valid() && rx.Valid() && rx.base == tx.base && rx.stream == Sent(tx) && c.finSeq == tx.sndNxt
      invariant old(rx.delivered) <= rx.delivered
    {
      match events[i] {
        case Segment(k) =>
          if k < |tx.wire| {
            OnWire(tx, rx, k);
            rx.HandleSegment(TcpReceive.Segment(tx.wire[k].seqno, tx.wire[k].data, false));
          }
        case Fin => rx.HandleSegment(TcpReceive.Segment(c.finSeq, [], true));
        case Take(cap) => var _ := rx.Recv(cap);
      }
    }
    assert rx.stream[..|rx.stream|] == rx.stream;
  }

  /** Two small writes and a close: the second is still in the Nagle buffer, and the FIN comes before
      its byte. */
  method HeldBack(base: nat, x: byte, y: byte) returns (tx: TcpSend.Sender, c: TcpClose.Connection)
    ensures tx.Valid() && tx.accepted == [x, y] && tx.nagle == [y] && c.finSeq == base + 1 < base + |tx.accepted|
  {
    hide TcpSend.Contiguous, TcpSend.Tiled, TcpSend.Queue, Carries;
    tx := new TcpSend.Sender(base, 1000);
    var _, n, _, _ := tx.Send([x], []);
    assert [x][..n] == [x];
    var _, m, _, _ := tx.Send([y], []);
    assert [y][..m] == [y];
    c := CloseSender(tx, 0, 20, 0);
  }
}
