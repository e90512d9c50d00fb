/** IPv4 fragmentation and reassembly, kernel/net.cpp: ip_send cuts a payload into fragments of
    1480 bytes, handle_ipv4 puts them together again in one of two slots. Packets are bytes. */
module IpFrag {
  import opened Basics
  import opened Checksum

  const MAX_PAYLOAD: nat := 65515
  const BUF: nat := 65556
  const MF: nat := 0x2000

  datatype Datagram = Datagram(src: u32, dst: u32, id: word, proto: byte, payload: seq<byte>)

  // ---- the sender ----

  /** rd32 at offset k. */
  function QuadAt(p: seq<byte>, k: nat): u32
    requires k + 3 < |p|
  {
    (Be16(p[k], p[k + 1]) as int) * 0x1_0000 + Be16(p[k + 2], p[k + 3])
  }

  /** The IPv4 header with a zero checksum field. */
  function Bare(total: word, id: word, frag: word, proto: byte, src: u32, dst: u32): (h: seq<byte>)
    ensures |h| == 20
  {
    [0x45, 0, total / 256, total % 256, id / 256, id % 256, frag / 256, frag % 256, 64, proto, 0, 0]
      + Quad(src) + Quad(dst)
  }

  function Header(total: word, id: word, frag: word, proto: byte, src: u32, dst: u32): (h: seq<byte>)
    ensures |h| == 20
  {
    var b := Bare(total, id, frag, proto, src, dst);
    Put16(b, 10, Ones(Sum16(b)))
  }

  /** The number of packets the payload needs. */
  function Count(d: Datagram): nat {
    if |d.payload| <= 1480 then 1 else (|d.payload| + 1479) / 1480
  }

  /** Where packet k stops. */
  function EndOf(d: Datagram, k: nat): nat {
    if 1480 * (k + 1) < |d.payload| then 1480 * (k + 1) else |d.payload|
  }

  predicate Sendable(d: Datagram) { |d.payload| <= MAX_PAYLOAD }

  /** Packet k of the datagram. */
  function Piece(d: Datagram, k: nat): seq<byte>
    requires Sendable(d) && k < Count(d)
  {
    var more := if k + 1 < Count(d) then MF else 0;
    Header(20 + EndOf(d, k) - 1480 * k, d.id, more + 185 * k, d.proto, d.src, d.dst)
      + d.payload[1480 * k .. EndOf(d, k)]
  }

  /** The datagram in one piece. */
  function Packet(d: Datagram): seq<byte>
    requires Sendable(d)
  {
    Header(20 + |d.payload|, d.id, 0, d.proto, d.src, d.dst) + d.payload
  }

  lemma PiecesFit(d: Datagram, k: nat)
    requires Sendable(d) && k < Count(d)
    ensures k <= 44 && 1480 * k <= |d.payload| && EndOf(d, k) - 1480 * k <= 1480
    ensures k + 1 < Count(d) ==> EndOf(d, k) == 1480 * (k + 1) < |d.payload|
    ensures k + 1 == Count(d) ==> EndOf(d, k) == |d.payload|
    ensures Count(d) > 1 ==> EndOf(d, k) > 1480 * k
    ensures |Piece(d, k)| == 20 + EndOf(d, k) - 1480 * k
  {
  }

  method MakeHeader(total: word, id: word, frag: word, proto: byte, src: u32, dst: u32) returns (h: seq<byte>)
    ensures h == Header(total, id, frag, proto, src, dst)
  {
    h := Bare(total, id, frag, proto, src, dst);
    var c := IpChecksum(h);
    h := Put16(h, 10, c);
  }

  /** ip_send below ARP: the packets handed to eth_send. */
  method IpSend(d: Datagram) returns (packets: seq<seq<byte>>)
    requires Sendable(d)
    ensures |packets| == Count(d) && forall k :: 0 <= k < |packets| ==> packets[k] == Piece(d, k)
  {
    hide Header;
    var len := |d.payload|;
    packets := [];
    if len > 1480 {
      var off := 0;
      while off < len
        invariant 0 <= off <= len && off == if |packets| < Count(d) then 1480 * |packets| else len
        invariant |packets| <= Count(d) && forall k :: 0 <= k < |packets| ==> packets[k] == Piece(d, k)
        decreases len - off
      {
        PiecesFit(d, |packets|);
        var chunk, last := len - off, true;
        if chunk > 1480 {
          chunk, last := 1480, false;
        }
        var h := MakeHeader(20 + chunk, d.id, (if last then 0 else MF) + off / 8, d.proto, d.src, d.dst);
        packets := packets + [h + d.payload[off .. off + chunk]];
        off := off + chunk;
      }
      return;
    }
    PiecesFit(d, 0);
    var h := MakeHeader(20 + len, d.id, 0, d.proto, d.src, d.dst);
    assert d.payload == d.payload[0 .. EndOf(d, 0)];
    packets := [h + d.payload];
  }

  // ---- the receiver ----

  /** An IP option: a padding byte, or a kind with its body. */
  datatype Opt = Nop | Opt(kind: byte, body: seq<byte>)

  function OptBytes(opts: seq<Opt>): seq<byte>
    requires GoodOpts(opts)
  {
    if opts == [] then [] else OneOpt(opts[0]) + OptBytes(opts[1..])
  }

  function OneOpt(o: Opt): seq<byte>
    requires GoodOpt(o)
  {
    match o
    case Nop => [1]
    case Opt(kind, body) => [kind, 2 + |body|] + body
  }

  /** Neither the end mark nor a source route, and short enough for its length byte. */
  predicate GoodOpt(o: Opt) {
    o.Opt? ==> o.kind != 0 && o.kind != 1 && o.kind != 0x83 && o.kind != 0x89 && |o.body| <= 253
  }

  predicate GoodOpts(opts: seq<Opt>) { forall i :: 0 <= i < |opts| ==> GoodOpt(opts[i]) }

  /** The option area is a list of good options, up to its end or to an end mark. */
  ghost predicate CleanOptions(area: seq<byte>) { exists opts, rest :: OptionList(area, opts, rest) }

  predicate OptionList(area: seq<byte>, opts: seq<Opt>, rest: seq<byte>) {
    GoodOpts(opts) && area == OptBytes(opts) + rest && (rest == [] || rest[0] == 0)
  }

  /** The walk of ip_opts_ok over an option area. */
  function OptionsOk(area: seq<byte>): bool
    decreases |area|
  {
    if area == [] || area[0] == 0 then true
    else if area[0] == 1 then OptionsOk(area[1..])
    else if |area| < 2 || area[1] < 2 || area[1] > |area| then false
    else if area[0] == 0x83 || area[0] == 0x89 then false
    else OptionsOk(area[area[1]..])
  }

  /** The first option of an accepted area. */
  lemma OptionsSplit(area: seq<byte>) returns (o: Opt, tail: seq<byte>)
    requires OptionsOk(area) && area != [] && area[0] != 0
    ensures GoodOpt(o) && area == OneOpt(o) + tail && |tail| < |area| && OptionsOk(tail)
  {
    o := if area[0] == 1 then Nop else Opt(area[0], area[2..area[1]]);
    tail := area[|OneOpt(o)|..];
  }

  lemma {:induction false} OptionsSound(area: seq<byte>) returns (opts: seq<Opt>, rest: seq<byte>)
    requires OptionsOk(area)
    ensures OptionList(area, opts, rest)
    decreases |area|
  {
    hide OptionsOk, OneOpt, GoodOpt;
    if area == [] || area[0] == 0 {
      opts, rest := [], area;
    } else {
      var o, tail := OptionsSplit(area);
      var more, end := OptionsSound(tail);
      opts, rest := [o] + more, end;
      assert opts[1..] == more;
      assert OneOpt(o) + (OptBytes(more) + rest) == OneOpt(o) + OptBytes(more) + rest;
    }
  }

  lemma {:induction false} OptionsComplete(opts: seq<Opt>, rest: seq<byte>)
    requires GoodOpts(opts) && (rest == [] || rest[0] == 0)
    ensures OptionsOk(OptBytes(opts) + rest)
    decreases |opts|
  {
    hide OptionsOk, OneOpt;
    if opts == [] {
      assert OptBytes(opts) + rest == rest;
      OptionsEnd(rest);
    } else {
      var tail := OptBytes(opts[1..]) + rest;
      assert OptBytes(opts) + rest == OneOpt(opts[0]) + tail;
      OptionsComplete(opts[1..], rest);
      OptionsFirst(opts[0], tail);
    }
  }

  lemma OptionsEnd(rest: seq<byte>)
    requires rest == [] || rest[0] == 0
    ensures OptionsOk(rest)
  {}

  lemma OptionsFirst(o: Opt, tail: seq<byte>)
    requires GoodOpt(o)
    ensures OptionsOk(OneOpt(o) + tail) == OptionsOk(tail)
  {
    assert (OneOpt(o) + tail)[|OneOpt(o)|..] == tail;
  }

  /** What ip_opts_ok accepts. */
  lemma OptionsMean(area: seq<byte>)
    ensures OptionsOk(area) <==> CleanOptions(area)
  {
    hide OptionsOk, OptBytes;
    if OptionsOk(area) {
      var opts, rest := OptionsSound(area);
    }
    if CleanOptions(area) {
      var opts, rest :| OptionList(area, opts, rest);
      OptionsComplete(opts, rest);
    }
  }

  /** ip_opts_ok. */
  method IpOptsOk(ip: seq<byte>, ihl: nat) returns (ok: bool)
    requires 20 <= ihl <= |ip|
    ensures ok <==> CleanOptions(ip[20..ihl])
    ensures ok == OptionsOk(ip[20..ihl])
  {
    hide CleanOptions;
    OptionsMean(ip[20..ihl]);
    var o: nat := 20;
    while o < ihl
      invariant o <= ihl && OptionsOk(ip[20..ihl]) == OptionsOk(ip[o..ihl])
      decreases ihl - o
    {
      ghost var area := ip[o..ihl];
      if ip[o] == 0 { return true; }
      if ip[o] == 1 {
        assert area[1..] == ip[o + 1..ihl];
        o := o + 1;
        continue;
      }
      if o + 1 >= ihl || ip[o + 1] < 2 || o + ip[o + 1] > ihl { return false; }
      if ip[o] == 0x83 || ip[o] == 0x89 { return false; }
      assert area[area[1]..] == ip[o + ip[o + 1]..ihl];
      o := o + ip[o + 1];
    }
    return true;
  }

  function Ihl(ip: seq<byte>): nat
    requires ip != []
  {
    ip[0] % 16 * 4
  }

  /** The header checks of handle_ipv4. */
  predicate Acceptable(ip: seq<byte>) {
    && 20 <= |ip| <= 65535 && ip[0] / 16 == 4 && 20 <= Ihl(ip) <= |ip| && ip[8] != 0
    && Ones(Sum16(ip[..Ihl(ip)])) == 0
    && (Ihl(ip) > 20 ==> OptionsOk(ip[20..Ihl(ip)]))
  }

  /** Which packets pass: IPv4, with a header of at least five words that is all there, a time to live,
      a header sum that is a multiple of 65535 other than zero, and clean options. */
  lemma AcceptableMeans(ip: seq<byte>)
    ensures Acceptable(ip) <==>
      && 20 <= |ip| <= 65535 && ip[0] / 16 == 4 && 5 <= ip[0] % 16 && ip[0] % 16 * 4 <= |ip| && ip[8] != 0
      && Sum16(ip[..ip[0] % 16 * 4]) > 0 && Sum16(ip[..ip[0] % 16 * 4]) % 65535 == 0
      && (ip[0] % 16 > 5 ==> CleanOptions(ip[20 .. ip[0] % 16 * 4]))
  {
    hide Sum16, Ones, OptionsOk, CleanOptions;
    if |ip| >= 20 && 5 <= ip[0] % 16 && ip[0] % 16 * 4 <= |ip| {
      OnesZero(Sum16(ip[..ip[0] % 16 * 4]));
      if ip[0] % 16 > 5 { OptionsMean(ip[20 .. ip[0] % 16 * 4]); }
    }
  }

  /** A packet whose header was changed in one byte after the first, or whose time to live is zero,
      leaves the slots as they were and gives out nothing. */
  lemma Damaged(a: Slot, b: Slot, ip: seq<byte>, k: nat, v: byte)
    requires SlotOk(a) && SlotOk(b) && Acceptable(ip) && 0 < k < ip[0] % 16 * 4
    ensures v != ip[k] ==> Arrive(a, b, ip[k := v]) == Outcome(a, b, None)
    ensures Arrive(a, b, ip[8 := 0]) == Outcome(a, b, None)
  {
    hide Sum16, Ones, OptionsOk, Parse, Settle;
    var ihl := ip[0] % 16 * 4;
    if v != ip[k] {
      assert ip[k := v][..ihl] == ip[..ihl][k := v];
      ByteChange(0, ip[..ihl], k, v);
    }
  }

  lemma AcceptableFits(ip: seq<byte>)
    requires Acceptable(ip)
    ensures |ip| >= 20 && Ihl(ip) <= |ip|
  {}

  /** The first half of handle_ipv4. */
  method CheckHeader(ip: seq<byte>) returns (ok: bool)
    requires |ip| <= 65535
    ensures ok <==> Acceptable(ip)
  {
    hide Sum16, Ones, OptionsOk, CleanOptions;
    if |ip| < 20 || ip[0] / 16 != 4 { return false; }
    var ihl := ip[0] % 16 * 4;
    if ihl < 20 || |ip| < ihl || ip[8] == 0 { return false; }
    var c := IpChecksum(ip[..ihl]);
    if c != 0 { return false; }
    ok := true;
    if ihl > 20 { ok := IpOptsOk(ip, ihl); }
  }

  /** A fragment as the receiver sees it. */
  datatype Frag = Frag(head: seq<byte>, src: u32, id: word, proto: byte, more: bool, off: nat, data: seq<byte>)

  function Parse(ip: seq<byte>): (g: Frag)
    requires |ip| >= 20 && Ihl(ip) <= |ip|
    ensures |g.head| == 20
  {
    Frag(ip[..20], QuadAt(ip, 12), WordAt(ip, 4), ip[9],
         WordAt(ip, 6) / MF % 2 == 1, WordAt(ip, 6) % MF * 8, ip[Ihl(ip)..])
  }

  datatype IpFrag = IpFrag(used: bool, src: u32, id: word, proto: byte, got: nat, tot: nat)

  /** A reassembly slot with its buffer, the header area first. */
  datatype Slot = Slot(f: IpFrag, buf: seq<byte>)

  predicate Keyed(f: IpFrag, g: Frag) { f.used && f.src == g.src && f.id == g.id && f.proto == g.proto }

  /** The slot a fragment goes to: its own, or the first free one, or none. */
  function Pick(f: IpFrag, f': IpFrag, g: Frag): int {
    if Keyed(f, g) then 0 else if Keyed(f', g) then 1 else if !f.used then 0 else if !f'.used then 1 else -1
  }

  /** memcpy. */
  function Overwrite(buf: seq<byte>, at: nat, data: seq<byte>): (r: seq<byte>)
    requires at + |data| <= |buf|
    ensures |r| == |buf|
  {
    buf[..at] + data + buf[at + |data|..]
  }

  predicate FragFits(g: Frag) { |g.head| == 20 && g.off + |g.data| <= MAX_PAYLOAD }

  function Cleared(f: IpFrag): IpFrag { f.(used := false, got := 0, tot := 0) }

  function Marked(f: IpFrag, g: Frag): IpFrag {
    var h := if g.off == 0 then IpFrag(true, g.src, g.id, g.proto, 0, 0) else f;
    var end := g.off + |g.data|;
    h.(got := if end > h.got then end else h.got, tot := if g.more then h.tot else end)
  }

  function Filled(s: Slot, g: Frag): Slot
    requires |s.buf| == BUF && FragFits(g)
  {
    Slot(Marked(s.f, g), Overwrite(Overwrite(s.buf, 0, g.head[0 := 0x45]), 20 + g.off, g.data))
  }

  predicate Complete(f: IpFrag) { f.tot != 0 && f.got >= f.tot }

  /** The header of a fragment, rewritten for the whole datagram. */
  function Rewritten(h: seq<byte>, tot: nat): (r: seq<byte>)
    requires |h| == 20 && tot <= MAX_PAYLOAD
    ensures |r| == 20
  {
    var b := Put16(Put16(Put16(h, 2, 20 + tot), 6, 0), 10, 0);
    Put16(b, 10, Ones(Sum16(b)))
  }

  /** The buffer with the header of the whole datagram. */
  function Sealed(buf: seq<byte>, tot: nat): (r: seq<byte>)
    requires |buf| == BUF && tot <= MAX_PAYLOAD
    ensures |r| == BUF
  {
    Rewritten(buf[..20], tot) + buf[20..]
  }

  datatype Outcome = Outcome(a: Slot, b: Slot, out: Option<seq<byte>>)

  /** One slot takes a fragment and, when that completes it, gives out the datagram. */
  function Settle(s: Slot, g: Frag): (Slot, Option<seq<byte>>)
    requires |s.buf| == BUF && s.f.tot <= MAX_PAYLOAD && FragFits(g)
  {
    var n := Filled(s, g);
    if Complete(n.f) then
      (Slot(Cleared(n.f), Sealed(n.buf, n.f.tot)), Some(Sealed(n.buf, n.f.tot)[..20 + n.f.tot]))
    else (n, None)
  }

  predicate SlotOk(s: Slot) { |s.buf| == BUF && s.f.tot <= MAX_PAYLOAD }

  /** What the arrival of any packet does to the two slots, and what goes to the upper layers. */
  function Arrive(a: Slot, b: Slot, ip: seq<byte>): Outcome
    requires SlotOk(a) && SlotOk(b)
  {
    if !Acceptable(ip) then Outcome(a, b, None) else
    var g := Parse(ip);
    if !g.more && g.off == 0 then Outcome(a, b, Some(ip))
    else if g.off + |g.data| > MAX_PAYLOAD then Outcome(a, b, None)
    else
      var s := Pick(a.f, b.f, g);
      if s == 0 then var r := Settle(a, g); Outcome(r.0, b, r.1)
      else if s == 1 then var r := Settle(b, g); Outcome(a, r.0, r.1)
      else Outcome(a, b, None)
  }

  function Zeros(n: nat): (z: seq<byte>)
    ensures |z| == n && forall i :: 0 <= i < n ==> z[i] == 0
  {
    seq(n, _ => 0)
  }

  class Reassembler {
    var f0: IpFrag
    var f1: IpFrag
    const b0: array<byte>
    const b1: array<byte>
    var expire: nat
    var armed: bool

    constructor ()
      ensures Valid() && fresh(b0) && fresh(b1) && !f0.used && !f1.used && !armed
      ensures b0[..] == Zeros(BUF) && b1[..] == Zeros(BUF)
    {
      expire, armed := 0, false;
      f0, f1 := IpFrag(false, 0, 0, 0, 0, 0), IpFrag(false, 0, 0, 0, 0, 0);
      b0, b1 := new byte[BUF](_ => 0), new byte[BUF](_ => 0);
    }

    predicate Valid()
      reads this
    {
      b0 != b1 && b0.Length == BUF && b1.Length == BUF && f0.tot <= MAX_PAYLOAD && f1.tot <= MAX_PAYLOAD
    }

    ghost function Slot0(): Slot reads this, b0 { Slot(f0, b0[..]) }
    ghost function Slot1(): Slot reads this, b1 { Slot(f1, b1[..]) }

    /** The buffer part of one arrival: header, data, and the final header if the datagram is whole. */
    method Store(b: array<byte>, f: IpFrag, g: Frag) returns (f': IpFrag, out: Option<seq<byte>>)
      requires b.Length == BUF && f.tot <= MAX_PAYLOAD && FragFits(g)
      modifies b
      ensures (Slot(f', b[..]), out) == Settle(Slot(f, old(b[..])), g) && f'.tot <= MAX_PAYLOAD
    {
      hide Overwrite, Sealed;
      Blit(b, 0, g.head[0 := 0x45]);
      Blit(b, 20 + g.off, g.data);
      f' := Marked(f, g);
      out := None;
      if Complete(f') {
        Seal(b, f'.tot);
        out := Some(b[..20 + f'.tot]);
        assert b[..][..20 + f'.tot] == b[..20 + f'.tot];
        f' := Cleared(f');
      }
    }

    /** Rewrites the header in place. */
    method Seal(b: array<byte>, tot: nat)
      requires b.Length == BUF && tot <= MAX_PAYLOAD
      modifies b
      ensures b[..] == Sealed(old(b[..]), tot)
    {
      hide Put16, Sum16, Ones;
      ghost var h, rest := b[..20], b[20..];
      assert b[..] == h + rest;
      Write16(b, 2, 20 + tot, h, rest);
      Write16(b, 6, 0, Put16(h, 2, 20 + tot), rest);
      Write16(b, 10, 0, Put16(Put16(h, 2, 20 + tot), 6, 0), rest);
      var c := IpChecksum(b[..20]);
      Write16(b, 10, c, b[..20], rest);
      assert old(b[..])[..20] == h && old(b[..])[20..] == rest;
    }

    /** handle_ipv4. */
    method HandleIpv4(ip: seq<byte>, now: nat) returns (out: Option<seq<byte>>)
      requires Valid() && |ip| <= 65535
      modifies this, b0, b1
      ensures Valid()
      ensures if Lodged(old(f0), old(f1), ip) then expire == now + 200 && armed
              else expire == old(expire) && armed == old(armed)
      ensures Outcome(Slot0(), Slot1(), out) == Arrive(old(Slot0()), old(Slot1()), ip)
    {
      hide Acceptable, Parse, Settle;
      var fine := CheckHeader(ip);
      if !fine { return None; }
      AcceptableFits(ip);
      var g := Parse(ip);
      if !g.more && g.off == 0 { return Some(ip); }
      if g.off + |g.data| > MAX_PAYLOAD { return None; }
      var s := Pick(f0, f1, g);
      if s < 0 { return None; }
      if s == 0 {
        f0, out := Store(b0, f0, g);
      } else {
        f1, out := Store(b1, f1, g);
      }
      expire, armed := now + EXPIRY, true;
    }

    /** frag_expiry_poll, but for the ICMP message: when no fragment has come for 200 ticks, both
        slots are given up. */
    method ExpiryPoll(now: nat)
      requires Valid()
      modifies this`f0, this`f1, this`armed
      ensures Valid()
      ensures if old(armed) && now >= expire then f0 == Cleared(old(f0)) && f1 == Cleared(old(f1)) && !armed
              else f0 == old(f0) && f1 == old(f1) && armed == old(armed)
    {
      if !armed || now < expire { return; }
      f0, f1, armed := Cleared(f0), Cleared(f1), false;
    }
  }

  const EXPIRY: nat := 200

  /** The packet is a fragment and finds a slot. */
  predicate Lodged(f: IpFrag, f': IpFrag, ip: seq<byte>) {
    Acceptable(ip) && (Parse(ip).more || Parse(ip).off != 0) && Parse(ip).off + |Parse(ip).data| <= MAX_PAYLOAD
      && Pick(f, f', Parse(ip)) >= 0
  }

  /** The addresses this host answers to; waiting is set while DHCP has not yet given it one. */
  datatype Host = Host(ip: u32, broadcast: u32, waiting: bool)

  predicate ForUs(h: Host, dst: u32) { h.waiting || dst == h.ip || dst == h.broadcast || dst == 0xFFFF_FFFF }

  /** The IPv4 branch of the frame handler, after the link header: packets for others are dropped, and
      the total length field cuts off the padding. */
  method HandleFrame(r: Reassembler, h: Host, ip: seq<byte>, now: nat) returns (out: Option<seq<byte>>)
    requires r.Valid() && |ip| <= 65535
    modifies r, r.b0, r.b1
    ensures r.Valid()
    ensures |ip| < 20 || !ForUs(h, QuadAt(ip, 16)) ==>
      out == None && r.Slot0() == old(r.Slot0()) && r.Slot1() == old(r.Slot1()) && r.armed == old(r.armed) &&
        r.expire == old(r.expire)
    ensures |ip| >= 20 && ForUs(h, QuadAt(ip, 16)) ==>
      && Outcome(r.Slot0(), r.Slot1(), out) == Arrive(old(r.Slot0()), old(r.Slot1()), Trimmed(ip))
      && (if Lodged(old(r.f0), old(r.f1), Trimmed(ip)) then r.expire == now + 200 && r.armed
          else r.expire == old(r.expire) && r.armed == old(r.armed))
  {
    if |ip| < 20 { return None; }
    var dst := QuadAt(ip, 16);
    if !h.waiting && dst != h.ip && dst != h.broadcast && dst != 0xFFFF_FFFF { return None; }
    out := r.HandleIpv4(Trimmed(ip), now);
  }

  /** Who is addressed, and where a packet ends. */
  lemma FrameMeans(h: Host, ip: seq<byte>)
    requires |ip| >= 20
    ensures ForUs(h, QuadAt(ip, 16)) <==>
      h.waiting || ip[16..20] == Quad(h.ip) || ip[16..20] == Quad(h.broadcast) || ip[16..20] == [255, 255, 255, 255]
    ensures Trimmed(ip) == var n := (ip[2] as int) * 256 + ip[3]; if n <= |ip| then ip[..n] else ip
  {
    QuadBytes(ip, 16, h.ip);
    QuadBytes(ip, 16, h.broadcast);
    QuadBytes(ip, 16, 0xFFFF_FFFF);
  }

  lemma QuadBytes(ip: seq<byte>, k: nat, v: u32)
    requires k + 3 < |ip|
    ensures QuadAt(ip, k) == v <==> ip[k .. k + 4] == Quad(v)
  {
    var q := Quad(v);
    QuadReads(v);
    if QuadAt(ip, k) == v {
      WordBytes(ip[k], ip[k + 1], v / 65536);
      WordBytes(ip[k + 2], ip[k + 3], v % 65536);
      assert ip[k .. k + 4] == q;
    }
    if ip[k .. k + 4] == q {
      var r := ip[k .. k + 4];
      assert ip[k] == r[0] && ip[k + 1] == r[1] && ip[k + 2] == r[2] && ip[k + 3] == r[3];
    }
  }

  lemma WordBytes(hi: byte, lo: byte, v: word)
    ensures Be16(hi, lo) == v <==> hi == v / 256 && lo == v % 256
  {}

  function Trimmed(ip: seq<byte>): seq<byte>
    requires |ip| >= 4
  {
    if WordAt(ip, 2) > |ip| then ip else ip[..WordAt(ip, 2)]
  }

  method Blit(a: array<byte>, at: nat, data: seq<byte>)
    requires at + |data| <= a.Length
    modifies a
    ensures a[..] == Overwrite(old(a[..]), at, data)
  {
    for i := 0 to |data|
      invariant forall j :: 0 <= j < a.Length ==> a[j] == if at <= j < at + i then data[j - at] else old(a[j])
    {
      a[at + i] := data[i];
    }
  }

  /** Stores a word in the front part of an array. */
  method Write16(a: array<byte>, k: nat, v: word, ghost front: seq<byte>, ghost rest: seq<byte>)
    requires a[..] == front + rest && k + 1 < |front|
    modifies a
    ensures a[..] == Put16(front, k, v) + rest && a[..|front|] == Put16(front, k, v)
  {
    a[k], a[k + 1] := v / 256, v % 256;
  }

  // ---- what the receiver makes of a piece ----

  /** What the receiver reads in a header that ip_send wrote, whatever the checksum; the fields are in
      network byte order. */
  lemma HeaderReads(total: word, id: word, frag: word, proto: byte, src: u32, dst: u32, c: word)
    ensures var h := Put16(Bare(total, id, frag, proto, src, dst), 10, c);
      && h[0] == 0x45 && WordAt(h, 2) == total && WordAt(h, 4) == id && WordAt(h, 6) == frag
      && h[8] == 64 && h[9] == proto && QuadAt(h, 12) == src && QuadAt(h, 16) == dst
      && (h[2] as int) * 256 + h[3] == total && (h[4] as int) * 256 + h[5] == id && (h[6] as int) * 256 + h[7] == frag
      && h[12..16] == Quad(src) && h[16..20] == Quad(dst)
  {
    QuadReads(src);
    QuadReads(dst);
  }

  /** Its checksum verifies. */
  lemma HeaderVerifies(total: word, id: word, frag: word, proto: byte, src: u32, dst: u32)
    ensures Ones(Sum16(Header(total, id, frag, proto, src, dst))) == 0
  {
    hide Sum16, Ones, Bare, WordAt, Put16;
    BareZero(total, id, frag, proto, src, dst);
    StoredVerifies(0, Bare(total, id, frag, proto, src, dst), 10);
  }

  lemma BareZero(total: word, id: word, frag: word, proto: byte, src: u32, dst: u32)
    ensures WordAt(Bare(total, id, frag, proto, src, dst), 10) == 0
  {}

  lemma HeaderWhole(total: word, id: word, frag: word, proto: byte, src: u32, dst: u32) returns (h: seq<byte>)
    ensures h == Header(total, id, frag, proto, src, dst) && Ones(Sum16(h)) == 0
    ensures h[0] == 0x45 && WordAt(h, 2) == total && WordAt(h, 4) == id && WordAt(h, 6) == frag
    ensures h[8] == 64 && h[9] == proto && QuadAt(h, 12) == src && QuadAt(h, 16) == dst
  {
    hide Sum16, Ones, Bare, WordAt, QuadAt, Put16;
    var b := Bare(total, id, frag, proto, src, dst);
    h := Put16(b, 10, Ones(Sum16(b)));
    HeaderReads(total, id, frag, proto, src, dst, Ones(Sum16(b)));
    HeaderVerifies(total, id, frag, proto, src, dst);
  }

  lemma QuadReads(v: u32)
    ensures QuadAt(Quad(v), 0) == v
  {
  }

  /** What packet k is a fragment of. */
  function Cut(d: Datagram, k: nat): (g: Frag)
    requires Sendable(d) && k < Count(d)
    ensures FragFits(g)
  {
    PiecesFit(d, k);
    Frag(Piece(d, k)[..20], d.src, d.id, d.proto, k + 1 < Count(d), 1480 * k, d.payload[1480 * k .. EndOf(d, k)])
  }

  /** A packet of a datagram passes every check and reads back as what was sent. */
  lemma PieceParses(d: Datagram, k: nat)
    requires Sendable(d) && k < Count(d)
    ensures var p := Piece(d, k);
      && Acceptable(p) && WordAt(p, 2) == |p| && p[0] == 0x45 && Ihl(p) == 20 && QuadAt(p, 16) == d.dst
      && Parse(p) == Cut(d, k)
      && (p[6] as int) * 256 + p[7] == (if k + 1 < Count(d) then 0x2000 else 0) + 1480 * k / 8
  {
    hide Header, Sum16, Ones, Count, EndOf, Parse, Acceptable, QuadAt;
    PiecesFit(d, k);
    var frag := (if k + 1 < Count(d) then MF else 0) + 185 * k;
    var h := HeaderWhole(20 + EndOf(d, k) - 1480 * k, d.id, frag, d.proto, d.src, d.dst);
    FragField(k, k + 1 < Count(d));
    ParseJoined(h, d.payload[1480 * k .. EndOf(d, k)]);
    assert Piece(d, k)[..20] == h;
  }

  /** A sound header with data behind it. */
  lemma ParseJoined(h: seq<byte>, data: seq<byte>)
    requires |h| == 20 && h[0] == 0x45 && h[8] == 64 && Ones(Sum16(h)) == 0 && |data| <= 1480
    ensures var p := h + data;
      && Acceptable(p) && Ihl(p) == 20 && p[0] == 0x45 && WordAt(p, 2) == WordAt(h, 2) && QuadAt(p, 16) == QuadAt(h, 16)
      && Parse(p) == Frag(h, QuadAt(h, 12), WordAt(h, 4), h[9], WordAt(h, 6) / MF % 2 == 1, WordAt(h, 6) % MF * 8, data)
  {
    hide Sum16, Ones;
    var p := h + data;
    assert p[..20] == h && p[20..] == data;
  }

  lemma FragField(k: nat, more: bool)
    requires k <= 44
    ensures var frag := (if more then MF else 0) + 185 * k;
      (frag / MF % 2 == 1 <==> more) && frag % MF * 8 == 1480 * k
  {
  }

  lemma FilledAt(s: Slot, g: Frag, i: nat)
    requires |s.buf| == BUF && FragFits(g) && 20 <= i < BUF
    ensures |Filled(s, g).buf| == BUF
    ensures Filled(s, g).buf[i] == if 20 + g.off <= i < 20 + g.off + |g.data| then g.data[i - 20 - g.off] else s.buf[i]
  {}

  lemma FilledBuf(s: Slot, g: Frag)
    requires |s.buf| == BUF && FragFits(g)
    ensures var b := Filled(s, g).buf;
      && |b| == BUF && b[..20] == g.head[0 := 0x45]
      && b[20 .. 20 + g.off + |g.data|] == s.buf[20 .. 20 + g.off] + g.data
      && b[20 + g.off + |g.data|..] == s.buf[20 + g.off + |g.data|..]
  {
  }

  /** The rewritten header is the one ip_send gives a datagram in one piece. */
  lemma RewrittenHeader(total: word, id: word, frag: word, proto: byte, src: u32, dst: u32, tot: nat)
    requires tot <= MAX_PAYLOAD
    ensures Rewritten(Header(total, id, frag, proto, src, dst), tot) == Header(20 + tot, id, 0, proto, src, dst)
  {
    hide Sum16, Ones;
    var h := Header(total, id, frag, proto, src, dst);
    assert Put16(Put16(Put16(h, 2, 20 + tot), 6, 0), 10, 0) == Bare(20 + tot, id, 0, proto, src, dst);
  }

  /** So the packet given out is right exactly when the bytes behind the header are. */
  lemma SealedPacket(buf: seq<byte>, h: seq<byte>, payload: seq<byte>)
    requires |buf| == BUF && |payload| <= MAX_PAYLOAD && Rewritten(buf[..20], |payload|) == h
    ensures var s := Sealed(buf, |payload|)[..20 + |payload|];
      |s| == |h + payload| && (s == h + payload <==> buf[20 .. 20 + |payload|] == payload)
  {
    hide Rewritten;
    var s := Sealed(buf, |payload|)[..20 + |payload|];
    assert s == h + buf[20 .. 20 + |payload|];
    assert s[20..] == buf[20 .. 20 + |payload|] && (h + payload)[20..] == payload;
  }
}
