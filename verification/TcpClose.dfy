/** Active close, kernel/net.cpp: the FIN handshake of one connection slot as a timed machine.
    Time is the tick counter; a poll is made at least once in every tick. */
module TcpClose {
  const FIN_WAIT: nat := 200      // ticks allowed in FIN_WAIT_1 and again in FIN_WAIT_2
  const TIME_WAIT: nat := 300
  const MAX_RETRANS: nat := 12
  const RTO_MAX: nat := 3000

  datatype State = Established | FinWait1 | FinWait2 | TimeWait | Released

  /** What the handshake depends on in a received segment. stored is the number of bytes the
      receive ring takes from it, flushed the number the Nagle buffer sends when the ACK makes
      progress, rto the timeout the round-trip estimate then gives, and fast whether a duplicate
      ACK starts a fast retransmission of pending data. */
  datatype Packet = Packet(rst: bool, isAck: bool, ack: nat, fin: bool, seqno: nat, dlen: nat,
                           stored: nat, flushed: nat, rto: nat, fast: bool)

  /** Anything that may happen to the slot between two ticks. Send is net_tcp_send, which FIN_WAIT_1
      still admits; Drop is an ICMP unreachable note or the loss of the slot to another socket. */
  datatype Event = Receive(p: Packet) | Poll | Send(n: nat) | Drop

  function Rank(s: State): nat {
    match s case Established => 0 case FinWait1 => 1 case FinWait2 => 2 case TimeWait => 3 case Released => 4
  }

  /** Where a segment takes the machine, given that it acknowledges our FIN or brings the peer's. */
  function Next(s: State, finAcked: bool, finTaken: bool): State {
    match s
    case FinWait1 => if finAcked && finTaken then TimeWait else if finAcked || finTaken then FinWait2 else FinWait1
    case FinWait2 => if finTaken then TimeWait else FinWait2
    case _ => s
  }

  /** rcv_nxt after the segment's data. */
  function Landed(p: Packet, rcv: nat): nat {
    if p.dlen > 0 && p.seqno <= rcv < p.seqno + p.dlen then rcv + p.stored else rcv
  }

  /** The segment's FIN is accepted: nothing before it is missing. */
  predicate FinTaken(p: Packet, rcv: nat) { p.fin && p.seqno + p.dlen <= Landed(p, rcv) }

  /** Ticks after the close by which each state must have been left. */
  function Budget(s: State): nat {
    match s
    case Established => 0
    case FinWait1 => FIN_WAIT
    case FinWait2 => FIN_WAIT + FIN_WAIT
    case TimeWait => FIN_WAIT + FIN_WAIT + TIME_WAIT
    case Released => 0
  }

  /** What a segment's effect depends on. */
  datatype Snap = Snap(st: State, sndUna: nat, sndNxt: nat, finSeq: nat, rcvNxt: nat)

  /** A segment, and the connection before and after it. */
  datatype Taken = Taken(before: Snap, p: Packet, after: Snap)

  /** The segment acknowledges our FIN. */
  predicate Covers(s: Snap, p: Packet) { p.isAck && s.finSeq < p.ack <= s.sndNxt }

  /** The segment takes a connection whose FIN is not acknowledged into TIME_WAIT: a FIN accepted in
      FIN_WAIT_2 while ours is outstanding, without an ACK of it. */
  predicate Premature(s: Snap, p: Packet) {
    !p.rst && s.st == FinWait2 && s.sndUna <= s.finSeq && !Covers(s, p) && FinTaken(p, s.rcvNxt)
  }

  /** The step enters TIME_WAIT with our FIN unacknowledged. */
  predicate EntersEarly(x: Taken) {
    x.before.st != TimeWait && x.after.st == TimeWait && x.after.sndUna <= x.after.finSeq
  }

  /** There was a premature segment, and no ACK of our FIN since. */
  function Early(log: seq<Taken>): bool {
    if log == [] then false
    else
      var x := log[|log| - 1];
      !(!x.p.rst && Covers(x.before, x.p)) && (Early(log[..|log| - 1]) || Premature(x.before, x.p))
  }

  lemma EarlyNone()
    ensures !Early([])
  {}

  lemma EarlyNext(log: seq<Taken>, x: Taken)
    ensures Early(log + [x]) <==> !(!x.p.rst && Covers(x.before, x.p)) && (Early(log) || Premature(x.before, x.p))
  {
    assert (log + [x])[..|log|] == log;
  }

  class Connection {
    var st: State
    var sndUna: nat
    var sndNxt: nat
    var rcvNxt: nat
    var finTx: bool
    var finRx: bool
    var finPend: bool
    var finSeq: nat
    var finSentAt: nat
    var closeAt: nat
    var twAt: nat
    var retries: nat
    var rto: nat
    ghost var start: nat       // tick of the close
    ghost var crossed: bool    // the peer's FIN was taken while ours was still unacknowledged
    ghost var log: seq<Taken>  // segments handled since the close

    constructor (una: nat, nxt: nat, rcv: nat, tries: nat, timeout: nat)
      requires una <= nxt
      ensures Open() && sndUna == una && sndNxt == nxt && rcvNxt == rcv && retries == tries && rto == timeout
    {
      st, sndUna, sndNxt, rcvNxt, retries, rto := Established, una, nxt, rcv, tries, timeout;
      finTx, finRx, finPend := false, false, false;
    }

    predicate Open() reads this { st == Established && sndUna <= sndNxt && !finTx && !finRx && !finPend }

    /** Our FIN has been acknowledged. */
    predicate FinAcked() reads this { finTx && sndUna > finSeq }

    /** The tick at which a poll gives the slot back. */
    function Deadline(): nat reads this { if st == TimeWait then twAt else closeAt }

    function Now(): Snap reads this { Snap(st, sndUna, sndNxt, finSeq, rcvNxt) }

    /** A connection on its way out, at a tick when the polls of all earlier ticks have been made. */
    ghost predicate Closing(now: nat)
      reads this
    {
      Timed(now) && LogOk()
    }

    /** The log tells whether TIME_WAIT came early, step by step and on the whole. */
    ghost predicate LogOk()
      reads this
    {
      && (forall i :: 0 <= i < |log| ==> (EntersEarly(log[i]) <==> Premature(log[i].before, log[i].p)))
      && (st == TimeWait ==> (!FinAcked() <==> Early(log)))
      && (st == FinWait1 || st == FinWait2 ==> !Early(log))
    }

    ghost predicate Timed(now: nat)
      reads this
    {
      && st != Established
      && (st != Released ==>
        && finTx && sndUna <= sndNxt && finSeq < sndNxt
        && start <= now <= Deadline() <= start + Budget(st)
        && (st == FinWait1 ==> !FinAcked() && !finRx && finPend && !crossed)
        && (st == FinWait2 ==> (if crossed then finRx && finPend else FinAcked() && !finRx && !finPend))
        && (st == TimeWait ==> finRx && (!crossed ==> FinAcked())))
    }

    lemma LogMeans(now: nat)
      requires Closing(now)
      ensures forall i :: 0 <= i < |log| ==> (EntersEarly(log[i]) <==> Premature(log[i].before, log[i].p))
      ensures st == TimeWait ==> (!FinAcked() <==> Early(log))
    {}

    /** net_tcp_close from ESTABLISHED. */
    method Close(now: nat)
      requires Open()
      modifies this
      ensures st == FinWait1 && Closing(now) && start == now && !crossed && log == []
      ensures sndUna == old(sndUna) && finSeq == old(sndNxt) && sndNxt == old(sndNxt) + 1 && rcvNxt == old(rcvNxt)
      ensures closeAt == now + FIN_WAIT && finSentAt == now && retries == old(retries) && rto == old(rto)
    {
      hide Early, Premature, EntersEarly;
      EarlyNone();
      finTx, finSeq, sndNxt, st := true, sndNxt, sndNxt + 1, FinWait1;
      closeAt, finPend, finSentAt := now + FIN_WAIT, true, now;
      start, crossed, log := now, false, [];
    }

    /** handle_tcp's ACK part for a connection past ESTABLISHED. */
    method TakeAck(p: Packet, now: nat)
      requires Timed(now) && st != Released
      modifies this`sndUna, this`sndNxt, this`st, this`closeAt, this`finPend, this`retries, this`rto
      ensures Timed(now)
      ensures st == Next(old(st), !old(FinAcked()) && FinAcked(), false)
      ensures sndUna == if p.isAck && old(sndUna) < p.ack <= old(sndNxt) then p.ack else old(sndUna)
      ensures closeAt == if st != old(st) then now + FIN_WAIT else old(closeAt)
      ensures old(st) != FinWait1 ==> finPend == old(finPend)
      ensures var progress := p.isAck && old(sndUna) < p.ack <= old(sndNxt);
        && rto == (if progress then p.rto else old(rto))
        && sndNxt == old(sndNxt) + (if progress then p.flushed else 0)
        && retries == if progress || (p.isAck && p.ack == old(sndUna) && p.fast) then 0 else old(retries)
    {
      if p.isAck && sndUna < p.ack <= sndNxt {
        rto := p.rto;
        sndUna := p.ack;
        retries := 0;
        if st == FinWait1 && finTx && p.ack >= finSeq + 1 {
          st, closeAt, finPend := FinWait2, now + FIN_WAIT, false;
        }
        sndNxt := sndNxt + p.flushed;
      } else if p.isAck && p.ack == sndUna && p.fast {
        retries := 0;
      }
    }

    /** handle_tcp's FIN part. */
    method TakeFin(p: Packet, now: nat)
      requires Timed(now) && st != Released
      modifies this`rcvNxt, this`finRx, this`st, this`twAt, this`crossed
      ensures Timed(now)
      ensures st == Next(old(st), false, p.fin && p.seqno + p.dlen <= old(rcvNxt))
      ensures st == TimeWait && old(st) != TimeWait ==> twAt == now + TIME_WAIT
      ensures rcvNxt == old(rcvNxt) + if p.fin && p.seqno + p.dlen <= old(rcvNxt) then 1 else 0
      ensures st == old(st) ==> twAt == old(twAt)
      ensures crossed == if old(st) == FinWait1 && st != FinWait1 then true else old(crossed)
    {
      if p.fin && p.seqno + p.dlen <= rcvNxt {
        rcvNxt := rcvNxt + 1;
        finRx := true;
        if st == FinWait2 {
          st, twAt := TimeWait, now + TIME_WAIT;
        } else if st == FinWait1 {
          st, crossed := FinWait2, true;
        }
      }
    }

    /** handle_tcp. */
    method Receive(p: Packet, now: nat)
      requires Closing(now) && st != Released
      modifies this
      ensures Closing(now) && start == old(start) && finSeq == old(finSeq)
      ensures st == Released <==> p.rst
      ensures !p.rst ==> st == Next(old(st), !old(FinAcked()) && FinAcked(), FinTaken(p, old(rcvNxt)))
      ensures !p.rst ==> rcvNxt == Landed(p, old(rcvNxt)) + if FinTaken(p, old(rcvNxt)) then 1 else 0
      ensures st == FinWait2 && old(st) == FinWait1 ==> closeAt == if FinAcked() then now + FIN_WAIT else old(closeAt)
      ensures st == TimeWait && old(st) != TimeWait ==> twAt == now + TIME_WAIT
      ensures st == old(st) ==> Deadline() == old(Deadline()) && finPend == old(finPend)
      ensures !p.rst ==> sndUna == if p.isAck && old(sndUna) < p.ack <= old(sndNxt) then p.ack else old(sndUna)
      ensures crossed <==> old(crossed) || (!p.rst && old(st) == FinWait1 && !FinAcked() && st == FinWait2)
      ensures old(st) != TimeWait ==> (st == TimeWait && !FinAcked() <==> Premature(old(Now()), p))
      ensures !p.rst ==>
        var progress := p.isAck && old(sndUna) < p.ack <= old(sndNxt);
        && rto == (if progress then p.rto else old(rto))
        && sndNxt == old(sndNxt) + (if progress then p.flushed else 0)
        && retries == if progress || (p.isAck && p.ack == old(sndUna) && p.fast) then 0 else old(retries)
      ensures log == old(log) + [Taken(old(Now()), p, Now())]
      ensures var acked := p.isAck && finSeq < p.ack <= old(sndNxt);
        var stored := if p.dlen > 0 && p.seqno <= old(rcvNxt) < p.seqno + p.dlen then p.stored else 0;
        var took := p.fin && p.seqno + p.dlen <= old(rcvNxt) + stored;
        && (!p.rst && old(st) == FinWait1 ==>
              st == if acked && took then TimeWait else if acked || took then FinWait2 else FinWait1)
        && (!p.rst && old(st) == FinWait2 ==> st == if took then TimeWait else FinWait2)
        && (!p.rst && old(st) == TimeWait ==> st == TimeWait)
        && (old(st) != TimeWait ==> (st == TimeWait && !FinAcked() <==>
              !p.rst && old(st) == FinWait2 && old(sndUna) <= finSeq && !acked && took))
    {
      hide Early;
      ghost var was := Now();
      Step(p, now);
      EarlyNext(log, Taken(was, p, Now()));
      log := log + [Taken(was, p, Now())];
    }

    /** The three parts of handle_tcp, one after the other. */
    method Step(p: Packet, now: nat)
      requires Timed(now) && st != Released
      modifies this`sndUna, this`sndNxt, this`rcvNxt, this`st, this`closeAt, this`twAt, this`finPend, this`finRx,
               this`retries, this`rto, this`crossed
      ensures Timed(now)
      ensures st == Released <==> p.rst
      ensures !p.rst ==> st == Next(old(st), !old(FinAcked()) && FinAcked(), FinTaken(p, old(rcvNxt)))
      ensures !p.rst ==> rcvNxt == Landed(p, old(rcvNxt)) + if FinTaken(p, old(rcvNxt)) then 1 else 0
      ensures st == FinWait2 && old(st) == FinWait1 ==> closeAt == if FinAcked() then now + FIN_WAIT else old(closeAt)
      ensures st == TimeWait && old(st) != TimeWait ==> twAt == now + TIME_WAIT
      ensures st == old(st) ==> Deadline() == old(Deadline()) && finPend == old(finPend)
      ensures !p.rst ==> sndUna == if p.isAck && old(sndUna) < p.ack <= old(sndNxt) then p.ack else old(sndUna)
      ensures crossed <==> old(crossed) || (!p.rst && old(st) == FinWait1 && !FinAcked() && st == FinWait2)
      ensures !p.rst ==>
        var progress := p.isAck && old(sndUna) < p.ack <= old(sndNxt);
        && rto == (if progress then p.rto else old(rto))
        && sndNxt == old(sndNxt) + (if progress then p.flushed else 0)
        && retries == if progress || (p.isAck && p.ack == old(sndUna) && p.fast) then 0 else old(retries)
    {
      if p.rst {
        Reset(now);
        return;
      }
      TakeAck(p, now);
      TakeData(p, now);
      TakeFin(p, now);
    }

    method Reset(now: nat)
      requires Timed(now) && st != Released
      modifies this`st
      ensures Timed(now) && st == Released
    {
      st := Released;
    }

    /** handle_tcp's data part, as far as rcv_nxt goes. */
    method TakeData(p: Packet, now: nat)
      requires Timed(now)
      modifies this`rcvNxt
      ensures Timed(now) && rcvNxt == Landed(p, old(rcvNxt))
    {
      if p.dlen > 0 && p.seqno <= rcvNxt < p.seqno + p.dlen { rcvNxt := rcvNxt + p.stored; }
    }

    /** tcp_poll: the FIN retransmission, then the clocks of the closing states. */
    method Poll(now: nat) returns (resent: bool)
      requires Closing(now) && st != Released
      modifies this`st, this`retries, this`finSentAt, this`rto
      ensures Closing(now) && Closing(now + 1)
      ensures var due := old(st) != TimeWait && old(finPend) && now - old(finSentAt) >= (old(rto) + 49) / 50;
        && (resent <==> due && old(retries) < 12)
        && st == (if now >= (if old(st) == TimeWait then old(twAt) else old(closeAt)) || (due && old(retries) >= 12)
                  then Released else old(st))
      ensures st != Released ==>
        finSentAt == (if resent then now else old(finSentAt)) && retries == old(retries) + if resent then 1 else 0
      ensures rto == if !resent then old(rto) else if 2 * old(rto) < 3000 then 2 * old(rto) else 3000
    {
      hide Early, Premature, EntersEarly;
      resent := false;
      if st == TimeWait {
        if now >= twAt { st := Released; }
        return;
      }
      if finPend && now - finSentAt >= (rto + 49) / 50 {
        retries := retries + 1;
        if retries > MAX_RETRANS {
          st := Released;
          return;
        }
        resent, finSentAt := true, now;
        if rto < RTO_MAX { rto := rto * 2; }
        if rto > RTO_MAX { rto := RTO_MAX; }
      }
      if now >= closeAt { st := Released; }
    }

    /** net_tcp_send as far as the close depends on it. */
    method SendMore(n: nat, now: nat)
      requires Closing(now) && st != Released
      modifies this`sndNxt
      ensures Closing(now) && sndNxt == old(sndNxt) + if st == FinWait1 then n else 0
    {
      if st == FinWait1 { sndNxt := sndNxt + n; }
    }

    /** The slot is taken away. */
    method Lose(now: nat)
      requires Closing(now) && st != Released
      modifies this`st
      ensures Closing(now) && st == Released
    {
      st := Released;
    }

    /** One tick: any events, then a poll. */
    method Tick(events: seq<Event>, now: nat)
      requires Closing(now)
      modifies this
      ensures Closing(now + 1) && start == old(start)
      ensures Rank(st) >= Rank(old(st))
      ensures st == TimeWait && old(st) != TimeWait ==> twAt == now + TIME_WAIT
      ensures old(st) == Released ==> twAt == old(twAt)
      ensures Logged(old(log), log, events)
      ensures old(st) == TimeWait && Gentle(events) ==>
        st == (if now >= old(twAt) then Released else TimeWait) && twAt == old(twAt)
    {
      hide LogOk, Early, Gentle, Premature;
      var i := 0;
      GentleAll(events);
      while i < |events|
        invariant Logged(old(log), log, events)
        invariant 0 <= i <= |events| && Closing(now) && start == old(start) && Rank(st) >= Rank(old(st))
        invariant st == TimeWait && old(st) != TimeWait ==> twAt == now + TIME_WAIT
        invariant old(st) == Released ==> twAt == old(twAt)
        invariant old(st) == TimeWait && Gentle(events) ==>
          twAt == old(twAt) && (st == TimeWait || (now >= twAt && st == Released))
      {
        assert events[i] in events;
        if st != Released {
          match events[i] {
            case Receive(p) => Receive(p, now);
            case Poll => var _ := Poll(now);
            case Send(n) => SendMore(n, now);
            case Drop => Lose(now);
          }
        }
        i := i + 1;
      }
      if st != Released { var _ := Poll(now); }
    }
  }

  /** The log has grown by segments among the events. */
  ghost predicate Logged(was: seq<Taken>, log: seq<Taken>, events: seq<Event>) {
    && |was| <= |log| && log[..|was|] == was
    && forall i :: |was| <= i < |log| ==> Event.Receive(log[i].p) in events
  }

  /** The segment is one of the script's. */
  ghost predicate Scripted(script: seq<seq<Event>>, n: nat, p: Packet) {
    exists k :: 0 <= k < n && k < |script| && Event.Receive(p) in script[k]
  }

  lemma LoggedScripted(was: seq<Taken>, log: seq<Taken>, script: seq<seq<Event>>, n: nat)
    requires n < |script| && Logged(was, log, script[n])
    requires forall i :: 0 <= i < |was| ==> Scripted(script, n, was[i].p)
    ensures forall i :: 0 <= i < |log| ==> Scripted(script, n + 1, log[i].p)
  {
    forall i | 0 <= i < |log| ensures Scripted(script, n + 1, log[i].p) {
      if i < |was| {
        assert log[i] == was[i] && Scripted(script, n, was[i].p);
      }
    }
  }

  lemma GentleAll(events: seq<Event>)
    ensures Gentle(events) ==> forall i :: 0 <= i < |events| ==>
      !events[i].Drop? && (events[i].Receive? ==> !events[i].p.rst)
  {}

  /** Nothing in it takes the slot away by force. */
  predicate Gentle(events: seq<Event>) {
    forall e :: e in events ==> !e.Drop? && (e.Receive? ==> !e.p.rst)
  }

  /** Closing at tick now and polling in each of the ticks that follow, whatever arrives: trace[i]
      is the state at the end of tick now + i. The states come in the order FIN_WAIT_1,
      FIN_WAIT_2, TIME_WAIT, released, each within its budget, so the slot is free from tick
      now + 700 on; and TIME_WAIT, once entered, lasts its 300 ticks unless it is cut short by
      force. In the log of handled segments TIME_WAIT is entered with our FIN unacknowledged exactly
      at a premature segment, and is left so exactly while no ACK of our FIN follows. */
  method Run(c: Connection, now: nat, script: seq<seq<Event>>) returns (trace: seq<State>, entered: int)
    requires c.Open()
    modifies c
    ensures |trace| == |script| && forall i :: 0 <= i < |trace| ==> trace[i] != Established
    ensures forall i, j :: 0 <= i <= j < |trace| ==> Rank(trace[i]) <= Rank(trace[j])
    ensures forall i :: 0 <= i < |trace| && trace[i] != Released ==> i < Budget(trace[i])
    ensures forall i :: 0 <= i < |c.log| ==> Scripted(script, |script|, c.log[i].p)
    ensures forall i :: 0 <= i < |c.log| ==> (EntersEarly(c.log[i]) <==> Premature(c.log[i].before, c.log[i].p))
    ensures c.st == TimeWait ==> (!c.FinAcked() <==> Early(c.log))
    ensures forall i :: 700 <= i < |trace| ==> trace[i] == Released
    ensures forall i :: 0 <= i < |trace| ==> (trace[i] == FinWait1 ==> i < 200) && (trace[i] == FinWait2 ==> i < 400)
    ensures -1 <= entered < |trace| && forall i :: 0 <= i < |trace| && trace[i] == TimeWait ==> 0 <= entered <= i
    ensures (forall i :: 0 <= i < |script| ==> Gentle(script[i])) && entered >= 0 ==>
      forall i :: entered <= i < |trace| ==> trace[i] == if i < entered + 300 then TimeWait else Released
  {
    hide Connection.LogOk, Early, Premature, EntersEarly, Gentle, Logged, Scripted, TraceOk, WaitOk;
    c.Close(now);
    trace, entered := [], -1;
    TraceNone();
    ghost var gentle := true;
    var k := 0;
    while k < |script|
      invariant 0 <= k == |trace| <= |script| && c.Closing(now + k) && c.start == now
      invariant TraceOk(trace, c.st) && WaitOk(trace, entered, gentle)
      invariant entered < 0 ==> c.st != TimeWait
      invariant forall i :: 0 <= i < |c.log| ==> Scripted(script, k, c.log[i].p)
      invariant gentle <==> forall i :: 0 <= i < k ==> Gentle(script[i])
      invariant gentle && entered >= 0 ==>
        c.twAt == now + entered + TIME_WAIT && c.st == if k <= entered + TIME_WAIT then TimeWait else Released
    {
      ghost var was := c.log;
      ghost var last := c.st;
      c.Tick(script[k], now + k);
      LoggedScripted(was, c.log, script, k);
      TraceNext(trace, last, c.st);
      WaitNext(trace, entered, gentle, c.st, gentle && Gentle(script[k]));
      gentle := gentle && Gentle(script[k]);
      if c.st == TimeWait && entered < 0 { entered := k; }
      trace := trace + [c.st];
      k := k + 1;
    }
    c.LogMeans(now + k);
    TraceMeans(trace, c.st);
    WaitMeans(trace, entered, gentle);
  }

  /** The states so far come in order, each within its budget, and none after the present one. */
  ghost predicate TraceOk(trace: seq<State>, last: State) {
    && (forall i :: 0 <= i < |trace| ==> trace[i] != Established && Rank(trace[i]) <= Rank(last))
    && (forall i, j :: 0 <= i <= j < |trace| ==> Rank(trace[i]) <= Rank(trace[j]))
    && (forall i :: 0 <= i < |trace| && trace[i] != Released ==> i < Budget(trace[i]))
  }

  lemma TraceNone()
    ensures TraceOk([], FinWait1) && WaitOk([], -1, true)
  {}

  lemma TraceNext(trace: seq<State>, last: State, st: State)
    requires TraceOk(trace, last) && Rank(last) <= Rank(st) && st != Established &&
      (st != Released ==> |trace| < Budget(st))
    ensures TraceOk(trace + [st], st)
  {
    var t := trace + [st];
    assert forall i :: 0 <= i < |trace| ==> t[i] == trace[i];
  }

  lemma TraceMeans(trace: seq<State>, last: State)
    requires TraceOk(trace, last)
    ensures forall i :: 0 <= i < |trace| ==> trace[i] != Established
    ensures forall i, j :: 0 <= i <= j < |trace| ==> Rank(trace[i]) <= Rank(trace[j])
    ensures forall i :: 0 <= i < |trace| && trace[i] != Released ==> i < Budget(trace[i])
    ensures forall i :: 700 <= i < |trace| ==> trace[i] == Released
    ensures forall i :: 0 <= i < |trace| ==> (trace[i] == FinWait1 ==> i < 200) && (trace[i] == FinWait2 ==> i < 400)
  {}

  /** entered is the first tick that ended in TIME_WAIT; if no force was used, that state lasts its time. */
  ghost predicate WaitOk(trace: seq<State>, entered: int, gentle: bool) {
    && -1 <= entered < |trace| && (forall i :: 0 <= i < |trace| && trace[i] == TimeWait ==> 0 <= entered <= i)
    && (gentle && entered >= 0 ==>
      forall i :: entered <= i < |trace| ==> trace[i] == if i < entered + TIME_WAIT then TimeWait else Released)
  }

  lemma WaitNext(trace: seq<State>, entered: int, gentle: bool, st: State, gentle': bool)
    requires WaitOk(trace, entered, gentle) && (gentle' ==> gentle)
    requires gentle' && entered >= 0 ==> st == if |trace| < entered + TIME_WAIT then TimeWait else Released
    ensures WaitOk(trace + [st], if st == TimeWait && entered < 0 then |trace| else entered, gentle')
  {
    var t := trace + [st];
    assert forall i :: 0 <= i < |trace| ==> t[i] == trace[i];
  }

  lemma WaitMeans(trace: seq<State>, entered: int, gentle: bool)
    requires WaitOk(trace, entered, gentle)
    ensures -1 <= entered < |trace| && forall i :: 0 <= i < |trace| && trace[i] == TimeWait ==> 0 <= entered <= i
    ensures gentle && entered >= 0 ==>
      forall i :: entered <= i < |trace| ==> trace[i] == if i < entered + TIME_WAIT then TimeWait else Released
  {}

  const NONE := Packet(false, false, 0, false, 0, 0, 0, 0, 0, false)

  /** Section 3.5 of RFC 793 lets a connection into TIME_WAIT only when its own FIN is
      acknowledged. Here two copies of the peer's FIN, with no ACK of ours, lead there.
      Premature says exactly when, and Run that nothing else does. */
  method CrossedFins() returns (c: Connection)
    ensures fresh(c) && c.st == TimeWait && !c.FinAcked() && c.crossed
  {
    c := new Connection(100, 100, 500, 0, 500);
    c.Close(10);
    c.Receive(NONE.(fin := true, seqno := 500), 11);
    c.Receive(NONE.(fin := true, seqno := 500), 12);
  }

  /** The bound of 700 is met exactly: an ACK and a FIN that come at the last moment keep the slot
      through the poll of tick 699. */
  method Slowest() returns (c: Connection)
    ensures fresh(c) && c.start == 0 && c.st == TimeWait && c.Closing(700) && c.twAt == 700
  {
    hide Connection.LogOk, Early, Premature, EntersEarly;
    c := new Connection(100, 100, 500, 0, RTO_MAX);
    c.Close(0);
    for now := 0 to 200
      invariant c.Closing(now) && c.start == 0 && c.st == FinWait1 && c.closeAt == 200 && c.rto == RTO_MAX
      invariant 60 * c.retries <= c.finSentAt <= now && c.sndUna == 100 && c.finSeq == 100 && c.rcvNxt == 500
    {
      var _ := c.Poll(now);
    }
    c.Receive(NONE.(isAck := true, ack := 101), 200);
    for now := 200 to 400
      invariant c.Closing(now) && c.start == 0 && c.st == FinWait2 && c.closeAt == 400 && !c.crossed && c.rcvNxt == 500
    {
      var _ := c.Poll(now);
    }
    c.Receive(NONE.(fin := true, seqno := 500), 400);
    for now := 400 to 700
      invariant c.Closing(now) && c.start == 0 && c.st == TimeWait && c.twAt == 700
    {
      var _ := c.Poll(now);
    }
  }
}
