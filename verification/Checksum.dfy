/** The one's-complement checksums of kernel/net.cpp (RFC 1071): IPv4, UDP, TCP and ICMPv6. */
module Checksum {
  import opened Basics

  /** The sum of the big-endian 16-bit words, an odd last byte padded with zero. */
  function Sum16(d: seq<byte>): nat {
    if |d| == 0 then 0
    else if |d| == 1 then Be16(d[0], 0)
    else Be16(d[0], d[1]) + Sum16(d[2..])
  }

  /** The sum is over big-endian words, the last byte of an odd number being the high one. With
      SumJoin this determines it. */
  lemma SumMeans(d: seq<byte>, hi: byte, lo: byte)
    ensures Sum16([]) == 0 && Sum16([hi, lo]) == hi * 256 + lo && Sum16([hi]) == hi * 256
    ensures |d| % 2 == 1 ==> Sum16(d) == Sum16(d + [0])
  {
    assert [hi, lo][2..] == [];
    if |d| % 2 == 1 {
      var m := |d| - 1;
      assert d == d[..m] + [d[m]] && d + [0] == d[..m] + [d[m], 0];
      SumJoin(d[..m], [d[m]]);
      SumJoin(d[..m], [d[m], 0]);
      assert [d[m], 0][2..] == [];
    }
  }

  /** A sum as one 16-bit word, 65535 taken away as long as it does not fit. */
  function Folded(s: nat): word { if s <= 65535 then s else Folded(s - 65535) }

  /** That is its residue modulo 65535, with 65535 for a non-zero multiple. */
  lemma {:induction false} FoldedIs(s: nat)
    ensures Folded(s) == if s == 0 then 0 else (s - 1) % 65535 + 1
  {
    if s > 65535 { FoldedIs(s - 65535); }
  }

  /** The checksum of a sum. */
  function Ones(s: nat): word { 65535 - Folded(s) }

  /** The 16-bit word that starts at offset k. */
  function WordAt(d: seq<byte>, k: nat): word
    requires k < |d|
  {
    Be16(d[k], if k + 1 < |d| then d[k + 1] else 0)
  }

  /** wr16. */
  function Put16(d: seq<byte>, k: nat, v: word): (r: seq<byte>)
    requires k + 1 < |d|
    ensures |r| == |d| && WordAt(r, k) == v
    ensures forall i {:trigger r[i]} :: 0 <= i < |d| && i != k && i != k + 1 ==> r[i] == d[i]
  {
    d[k := v / 256][k + 1 := v % 256]
  }

  lemma {:induction false} SumJoin(a: seq<byte>, b: seq<byte>)
    requires |a| % 2 == 0
    ensures Sum16(a + b) == Sum16(a) + Sum16(b)
  {
    if |a| == 0 {
      assert a + b == b;
    } else {
      assert (a + b)[2..] == a[2..] + b;
      SumJoin(a[2..], b);
    }
  }

  lemma {:induction false} SumBound(d: seq<byte>)
    ensures Sum16(d) <= (|d| + 1) / 2 * 65535
  {
    if |d| > 1 { SumBound(d[2..]); }
  }

  /** Changing the word at an even offset changes the sum by the difference. */
  lemma SumChange(d: seq<byte>, e: seq<byte>, k: nat)
    requires |d| == |e| && k % 2 == 0 && k < |d|
    requires forall i :: 0 <= i < |d| && i != k && i != k + 1 ==> d[i] == e[i]
    ensures Sum16(e) == Sum16(d) - WordAt(d, k) + WordAt(e, k)
    ensures Sum16(d) >= WordAt(d, k)
  {
    SumSplit(d, k);
    SumSplit(e, k);
    assert d[..k] == e[..k];
    assert k + 2 <= |d| ==> d[k + 2..] == e[k + 2..];
  }

  lemma SumPut(d: seq<byte>, k: nat, v: word)
    requires k % 2 == 0 && k + 1 < |d|
    ensures Sum16(Put16(d, k, v)) == Sum16(d) - WordAt(d, k) + v
  {
    SumChange(d, Put16(d, k, v), k);
  }

  lemma WordKept(d: seq<byte>, j: nat, v: word, k: nat)
    requires j % 2 == 0 && k % 2 == 0 && j != k && j + 1 < |d| && k + 1 < |d|
    ensures WordAt(Put16(d, j, v), k) == WordAt(d, k)
  {
    assert k + 1 != j && j + 1 != k;
  }

  lemma SumSplit(d: seq<byte>, k: nat)
    requires k < |d| && k % 2 == 0
    ensures Sum16(d) == Sum16(d[..k]) + WordAt(d, k) + if k + 2 <= |d| then Sum16(d[k + 2..]) else 0
  {
    assert d == d[..k] + d[k..];
    SumJoin(d[..k], d[k..]);
    if k + 2 <= |d| { assert d[k..][2..] == d[k + 2..]; }
  }

  /** One turn of the carry loop keeps the folded value. */
  lemma FoldStep(s: nat)
    ensures Folded(s % 65536 + s / 65536) == Folded(s)
    ensures s >= 65536 ==> s % 65536 + s / 65536 < s
  {
    var t := s % 65536 + s / 65536;
    assert s == t + 65535 * (s / 65536);
    SameResidue(t, s, s / 65536);
  }

  lemma {:induction false} SameResidue(t: nat, s: nat, q: nat)
    requires s == t + 65535 * q && (s > 0 ==> t > 0)
    ensures Folded(s) == Folded(t)
    decreases q
  {
    if q > 0 { SameResidue(t, s - 65535, q - 1); }
  }

  lemma OnesZero(s: nat)
    ensures Ones(s) == 0 <==> s > 0 && s % 65535 == 0
  {
    FoldedIs(s);
  }

  /** The carry loop and the complement. */
  method Finish(s: u32) returns (c: word)
    ensures c == Ones(s)
  {
    var sum := s;
    while sum / 65536 != 0
      invariant Folded(sum) == Folded(s)
      decreases sum
    {
      FoldStep(sum);
      sum := sum % 65536 + sum / 65536;
    }
    c := 65535 - sum;
  }

  /** The word loop shared by the IPv4, UDP and TCP sums; u32 shows that it cannot overflow. */
  method AddWords(start: u32, d: seq<byte>) returns (sum: u32)
    requires |d| <= 65535 && start <= 0x20_0000
    ensures sum == start + Sum16(d)
  {
    sum := start;
    var i := 0;
    while |d| - i > 1
      invariant 0 <= i <= |d| && i % 2 == 0
      invariant sum == start + Sum16(d[..i])
      invariant sum <= 0x20_0000 + i / 2 * 65535
    {
      assert d[..i + 2] == d[..i] + d[i..i + 2];
      SumJoin(d[..i], d[i..i + 2]);
      sum := sum + Be16(d[i], d[i + 1]);
      i := i + 2;
    }
    assert d == d[..i] + d[i..];
    SumJoin(d[..i], d[i..]);
    if i < |d| { sum := sum + Be16(d[i], 0); }
  }

  /** ip_checksum. */
  method IpChecksum(d: seq<byte>) returns (c: word)
    requires |d| <= 65535
    ensures c == Ones(Sum16(d))
  {
    var sum := AddWords(0, d);
    c := Finish(sum);
  }

  const ICMP6: byte := 58

  /** The pseudo header both ends add: addresses, protocol and length. */
  function Pseudo(saddr: u32, daddr: u32, proto: byte, len: nat): nat {
    saddr / 65536 + saddr % 65536 + (daddr / 65536 + daddr % 65536) + proto + len
  }

  /** The bytes of a 32-bit number in network order. */
  function Quad(v: u32): (q: seq<byte>)
    ensures |q| == 4
  {
    [v / 65536 / 256, v / 65536 % 256, v % 65536 / 256, v % 65536 % 256]
  }

  lemma SumQuad(v: u32)
    ensures Sum16(Quad(v)) == v / 65536 + v % 65536
  {
    hide Sum16;
    var hi, lo := v / 65536, v % 65536;
    assert Quad(v) == [hi / 256, hi % 256] + ([lo / 256, lo % 256] + []);
    SumWord(hi, [lo / 256, lo % 256] + []);
    SumWord(lo, []);
    SumNone();
  }

  lemma SumNone()
    ensures Sum16([]) == 0
  {}

  lemma SumWord(v: word, rest: seq<byte>)
    ensures Sum16([v / 256, v % 256] + rest) == v + Sum16(rest)
  {
    assert ([v / 256, v % 256] + rest)[2..] == rest;
  }

  /** The 12 bytes of section 3.1 of RFC 9293 that stand for the IPv4 header. */
  lemma PseudoBytes(saddr: u32, daddr: u32, proto: byte, len: word)
    ensures Pseudo(saddr, daddr, proto, len) ==
      Sum16(Quad(saddr) + Quad(daddr) + [0, proto, len / 256, len % 256])
  {
    var tail := [0, proto, len / 256, len % 256];
    SumJoin(Quad(saddr) + Quad(daddr), tail);
    SumJoin(Quad(saddr), Quad(daddr));
    SumQuad(saddr);
    SumQuad(daddr);
    assert tail == [proto / 256, proto % 256] + ([len / 256, len % 256] + []);
    SumWord(proto, [len / 256, len % 256] + []);
    SumWord(len, []);
  }

  /** udp_checksum and tcp_checksum, which differ in the protocol number alone: the checksum of the
      12 bytes of source, destination, protocol and length, followed by the segment. */
  method TransportChecksum(saddr: u32, daddr: u32, proto: byte, d: seq<byte>) returns (c: word)
    requires |d| <= 65535
    ensures c == Ones(Pseudo(saddr, daddr, proto, |d|) + Sum16(d))
    ensures c == Ones(Sum16([saddr / 65536 / 256, saddr / 65536 % 256, saddr % 65536 / 256, saddr % 65536 % 256,
                             daddr / 65536 / 256, daddr / 65536 % 256, daddr % 65536 / 256, daddr % 65536 % 256,
                             0, proto, |d| / 256, |d| % 256] + d))
  {
    hide Ones, Sum16;
    ghost var pseudo := Quad(saddr) + Quad(daddr) + [0, proto, |d| / 256, |d| % 256];
    assert pseudo == [saddr / 65536 / 256, saddr / 65536 % 256, saddr % 65536 / 256, saddr % 65536 % 256,
                      daddr / 65536 / 256, daddr / 65536 % 256, daddr % 65536 / 256, daddr % 65536 % 256,
                      0, proto, |d| / 256, |d| % 256];
    SumJoin(pseudo, d);
    PseudoBytes(saddr, daddr, proto, |d|);
    var sum: u32 := saddr / 65536 + saddr % 65536;
    sum := sum + daddr / 65536 + daddr % 65536;
    sum := sum + proto + |d|;
    sum := AddWords(sum, d);
    c := Finish(sum);
  }

  /** The 16-byte address loops of icmp6_checksum. */
  method AddAddress(start: u32, a: seq<byte>) returns (sum: u32)
    requires |a| == 16 && start <= 0x10_0000
    ensures sum == start + Sum16(a)
    ensures sum <= start + 8 * 65535
  {
    sum := AddWords(start, a);
    SumBound(a);
  }

  function Pseudo6(src: seq<byte>, dst: seq<byte>, len: nat): nat { Sum16(src) + Sum16(dst) + len + ICMP6 }

  /** The 40 bytes of section 8.1 of RFC 8200, with a 32-bit length and next header 58. */
  lemma Pseudo6Bytes(src: seq<byte>, dst: seq<byte>, len: word)
    requires |src| == 16 && |dst| == 16
    ensures Pseudo6(src, dst, len) == Sum16(src + dst + [0, 0, len / 256, len % 256, 0, 0, 0, 58])
  {
    var tail := [0, 0, len / 256, len % 256, 0, 0, 0, 58];
    SumJoin(src + dst, tail);
    SumJoin(src, dst);
    assert tail == [0, 0] + ([len / 256, len % 256] + ([0, 0] + ([0, 58] + [])));
    SumWord(0, [len / 256, len % 256] + ([0, 0] + ([0, 58] + [])));
    SumWord(len, [0, 0] + ([0, 58] + []));
    SumWord(0, [0, 58] + []);
    SumWord(58, []);
  }

  /** icmp6_checksum: one loop over even offsets with the missing last byte read as zero. It is the
      checksum of the 40 bytes of source, destination, length and next header, then the message. */
  method Icmp6Checksum(src: seq<byte>, dst: seq<byte>, d: seq<byte>) returns (c: word)
    requires |src| == 16 && |dst| == 16 && |d| <= 65535
    ensures c == Ones(Pseudo6(src, dst, |d|) + Sum16(d))
    ensures c == Ones(Sum16(src + dst + [0, 0, |d| / 256, |d| % 256, 0, 0, 0, 58] + d))
  {
    hide Ones, Sum16;
    Pseudo6Bytes(src, dst, |d|);
    SumJoin(src + dst + [0, 0, |d| / 256, |d| % 256, 0, 0, 0, 58], d);
    var sum := AddAddress(0, src);
    sum := AddAddress(sum, dst);
    sum := sum + |d| + ICMP6;
    sum := AddEven(sum, d);
    c := Finish(sum);
  }

  /** The message loop of icmp6_checksum. */
  method AddEven(start: u32, d: seq<byte>) returns (sum: u32)
    requires |d| <= 65535 && start <= 0x20_0000
    ensures sum == start + Sum16(d)
  {
    hide Sum16;
    sum := start;
    var i := 0;
    SumNone();
    SumBound(d);
    while i < |d|
      invariant 0 <= i <= |d| + 1 && i % 2 == 0
      invariant sum == start + Sum16(if i <= |d| then d[..i] else d) <= start + i / 2 * 65535
    {
      var low := if i + 1 < |d| then d[i + 1] else 0;
      ghost var m := if i + 2 <= |d| then i + 2 else |d|;
      assert d[..m] == d[..i] + d[i..m];
      SumJoin(d[..i], d[i..m]);
      assert m < i + 2 ==> d[..m] == d;
      SumMeans(d, d[i], low);
      assert d[i..m] == if i + 1 < |d| then [d[i], low] else [d[i]];
      sum := sum + Be16(d[i], low);
      i := i + 2;
    }
    assert d[..|d|] == d;
  }

  /** Storing the checksum in its zeroed field makes the receiver's sum come out zero, whatever the
      pseudo header p. */
  lemma StoredVerifies(p: nat, d: seq<byte>, k: nat)
    requires k % 2 == 0 && k + 1 < |d| && WordAt(d, k) == 0
    ensures Ones(p + Sum16(Put16(d, k, Ones(p + Sum16(d))))) == 0
  {
    hide Sum16, Ones, Put16, WordAt;
    var s := p + Sum16(d);
    SumPut(d, k, Ones(s));
    OnesClears(s);
  }

  /** A sum and its checksum add up to a non-zero multiple of 65535. */
  lemma OnesClears(s: nat)
    ensures Ones(s + Ones(s)) == 0
  {
    OnesZero(s + Ones(s));
    FoldedIs(s);
    if s > 0 { assert s + Ones(s) == 65535 * ((s - 1) / 65535 + 1); }
  }

  /** A change of one word in a packet that verifies is missed exactly when it turns 0x0000 into
      0xFFFF, or back while something else in the sum is not zero. */
  lemma WordChange(p: nat, d: seq<byte>, e: seq<byte>, k: nat)
    requires |d| == |e| && k % 2 == 0 && k < |d| && WordAt(d, k) != WordAt(e, k)
    requires forall i :: 0 <= i < |d| && i != k && i != k + 1 ==> d[i] == e[i]
    requires Ones(p + Sum16(d)) == 0
    ensures Ones(p + Sum16(e)) == 0 <==>
            || (WordAt(d, k) == 0 && WordAt(e, k) == 0xFFFF)
            || (WordAt(d, k) == 0xFFFF && WordAt(e, k) == 0 && p + Sum16(d) > 0xFFFF)
  {
    SumChange(d, e, k);
    var s: int, a: int, b: int := p + Sum16(d), WordAt(d, k), WordAt(e, k);
    OnesZero(s);
    OnesZero(s - a + b);
    var q := s / 65535;
    assert s == 65535 * q;
    ResidueGap(q, b - a);
  }

  lemma ResidueGap(q: nat, x: int)
    requires -65535 <= x <= 65535 && x != 0
    ensures (65535 * q + x) % 65535 == 0 <==> x == 65535 || x == -65535
  {
    if (65535 * q + x) % 65535 == 0 {
      var r := (65535 * q + x) / 65535;
      assert x == 65535 * (r - q);
    }
  }

  /** So a change of one byte is never missed. */
  lemma ByteChange(p: nat, d: seq<byte>, k: nat, b: byte)
    requires k < |d| && d[k] != b && Ones(p + Sum16(d)) == 0
    ensures Ones(p + Sum16(d[k := b])) != 0
  {
    var j := k - k % 2;
    WordChange(p, d, d[k := b], j);
  }

  /** But words may change places. */
  lemma WordsSwap(d: seq<byte>, j: nat, k: nat)
    requires j % 2 == 0 && k % 2 == 0 && j != k && j + 1 < |d| && k + 1 < |d|
    ensures Sum16(Put16(Put16(d, j, WordAt(d, k)), k, WordAt(d, j))) == Sum16(d)
  {
    hide Sum16, Put16, WordAt;
    var e := Put16(d, j, WordAt(d, k));
    SumPut(d, j, WordAt(d, k));
    WordKept(d, j, WordAt(d, k), k);
    SumPut(e, k, WordAt(d, j));
  }
}
