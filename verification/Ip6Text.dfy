/** IPv6 addresses as text, kernel/net.cpp: net_ip6_fmt and net_ip6_parse. */
module Ip6Text {
  import opened Basics

  /** The eight groups of an address. */
  type Groups = g: seq<word> | |g| == 8 witness [0, 0, 0, 0, 0, 0, 0, 0]

  function GroupsOf(a: seq<byte>): Groups
    requires |a| == 16
  {
    seq(8, (i: nat) requires i < 8 => Be16(a[2 * i], a[2 * i + 1]))
  }

  // ---- text ----

  function Digit(h: nat): char
    requires h < 16
  {
    "0123456789abcdef"[h]
  }

  /** Lower-case hexadecimal without leading zeros. */
  function Hex(v: nat): string { (if v < 16 then "" else Hex(v / 16)) + [Digit(v % 16)] }

  function Joined(texts: seq<string>): string {
    if |texts| == 0 then "" else if |texts| == 1 then texts[0] else texts[0] + ":" + Joined(texts[1..])
  }

  function Hexes(g: seq<word>): (t: seq<string>)
    ensures |t| == |g|
  {
    seq(|g|, (i: nat) requires i < |g| => Hex(g[i]))
  }

  /** The groups from b on, len of them, are all zero. */
  predicate Zeros(g: seq<word>, b: int, len: int) {
    0 <= b && 0 < len && b + len <= |g| && forall i :: b <= i < b + len ==> g[i] == 0
  }

  /** The zero run that section 4.2 of RFC 5952 shortens: the longest, the first of these, and of
      two groups at least. */
  ghost predicate Shortened(g: seq<word>, b: int, len: int) {
    && Zeros(g, b, len) && len >= 2
    && forall b', len' {:trigger Zeros(g, b', len')} :: Zeros(g, b', len') ==> len' < len || (len' == len && b <= b')
  }

  ghost predicate NoShortened(g: seq<word>) {
    forall b, len {:trigger Zeros(g, b, len)} :: Zeros(g, b, len) ==> len < 2
  }

  /** The canonical text of the groups. */
  ghost predicate Canonical(g: seq<word>, t: string) {
    || (NoShortened(g) && t == Joined(Hexes(g)))
    || exists b, len :: Shortened(g, b, len) && t == Joined(Hexes(g[..b])) + "::" + Joined(Hexes(g[b + len..]))
  }

  // ---- formatting ----

  lemma {:induction false} JoinedSnoc(ts: seq<string>, t: string)
    ensures Joined(ts + [t]) == if ts == [] then t else Joined(ts) + ":" + t
  {
    if |ts| > 0 {
      assert (ts + [t])[1..] == ts[1..] + [t];
      JoinedSnoc(ts[1..], t);
      if |ts| > 1 { assert ts[0] + ":" + (Joined(ts[1..]) + ":" + t) == Joined(ts) + ":" + t; }
    }
  }

  lemma HexesSnoc(g: seq<word>, i: nat, k: nat)
    requires i <= k < |g|
    ensures Joined(Hexes(g[i..k + 1])) == if i == k then Hex(g[k]) else Joined(Hexes(g[i..k])) + ":" + Hex(g[k])
  {
    assert Hexes(g[i..k + 1]) == Hexes(g[i..k]) + [Hex(g[k])];
    JoinedSnoc(Hexes(g[i..k]), Hex(g[k]));
  }

  lemma HexDef(v: nat)
    ensures Hex(v) == (if v < 16 then "" else Hex(v / 16)) + [Digit(v % 16)]
  {
  }

  lemma HexShort(v: word)
    ensures 1 <= |Hex(v)| <= 4
  {
    HexLen(v, 4);
  }

  function Pow16(n: nat): nat { match n case 0 => 1 case 1 => 16 case 2 => 256 case 3 => 4096 case _ => 65536 }

  lemma {:induction false} HexLen(v: nat, n: nat)
    requires 1 <= n <= 4 && v < Pow16(n)
    ensures 1 <= |Hex(v)| <= n
  {
    hide Hex;
    HexDef(v);
    if v >= 16 { HexLen(v / 16, n - 1); }
  }

  /** The first longest zero run, with length 0 when there is no zero group. */
  method BestRun(a: seq<byte>) returns (begin: int, len: int)
    requires |a| == 16
    ensures len > 0 ==> Zeros(GroupsOf(a), begin, len)
    ensures forall b, l {:trigger Zeros(GroupsOf(a), b, l)} :: Zeros(GroupsOf(a), b, l) ==>
      l < len || (l == len && begin <= b)
    ensures len >= 0
  {
    hide Zeros, GroupsOf;
    ghost var g := GroupsOf(a);
    begin, len := -1, 0;
    var cur, n := -1, 0;
    BestStart(g);
    for i := 0 to 8
      invariant RunEnds(g, i, cur, n) && BestUpTo(g, i, begin, len)
    {
      GroupZero(a, i);
      BestNext(g, i, cur, n, begin, len);
      if a[i * 2] == 0 && a[i * 2 + 1] == 0 {
        if cur < 0 { cur, n := i, 1; } else { n := n + 1; }
        if n > len { begin, len := cur, n; }
      } else {
        cur := -1;
      }
    }
    BestDone(g, begin, len);
  }

  lemma GroupZero(a: seq<byte>, i: nat)
    requires |a| == 16 && i < 8
    ensures GroupsOf(a)[i] == 0 <==> a[i * 2] == 0 && a[i * 2 + 1] == 0
  {}

  /** The zero run that ends at i starts at cur and has n groups; without one, cur is negative. */
  ghost predicate RunEnds(g: Groups, i: nat, cur: int, n: int)
    requires i <= 8
  {
    if cur >= 0 then cur < i && n == i - cur && Zeros(g, cur, n) && (cur > 0 ==> g[cur - 1] != 0)
    else cur == -1 && (i > 0 ==> g[i - 1] != 0)
  }

  /** The first longest zero run among the first i groups. */
  ghost predicate BestUpTo(g: Groups, i: nat, begin: int, len: int) {
    && len >= 0 && (len > 0 ==> Zeros(g, begin, len) && begin + len <= i)
    && forall b, l {:trigger Zeros(g, b, l)} :: Zeros(g, b, l) && b + l <= i ==> l < len || (l == len && begin <= b)
  }

  lemma BestStart(g: Groups)
    ensures RunEnds(g, 0, -1, 0) && BestUpTo(g, 0, -1, 0)
  {}

  lemma BestNext(g: Groups, i: nat, cur: int, n: int, begin: int, len: int)
    requires i < 8 && RunEnds(g, i, cur, n) && BestUpTo(g, i, begin, len)
    ensures g[i] != 0 ==> RunEnds(g, i + 1, -1, n) && BestUpTo(g, i + 1, begin, len)
    ensures g[i] == 0 ==>
      var c, m := if cur < 0 then i else cur, if cur < 0 then 1 else n + 1;
      RunEnds(g, i + 1, c, m) && (if m > len then BestUpTo(g, i + 1, c, m) else BestUpTo(g, i + 1, begin, len))
  {
    forall b, l | Zeros(g, b, l) && b + l == i + 1 ensures g[i] == 0 && b >= if cur < 0 then i else cur {
      assert g[i] == 0;
    }
  }

  lemma BestDone(g: Groups, begin: int, len: int)
    requires BestUpTo(g, 8, begin, len)
    ensures len > 0 ==> Zeros(g, begin, len)
    ensures forall b, l {:trigger Zeros(g, b, l)} :: Zeros(g, b, l) ==> l < len || (l == len && begin <= b)
    ensures len >= 0
  {}

  /** The digits of one group, lowest first. */
  method Digits(v: word) returns (tmp: string)
    ensures 1 <= |tmp| <= 4 && Backwards(tmp) == Hex(v)
  {
    hide Hex, Backwards, Digit;
    HexShort(v);
    HexDef(v);
    BackwardsLast("", Digit(v % 16));
    tmp := "" + [Digit(v % 16)];
    var g: nat := v / 16;
    while g > 0 && |tmp| < 4
      invariant 1 <= |tmp| <= 4
      invariant Hex(v) == (if g == 0 then "" else Hex(g)) + Backwards(tmp)
      decreases 4 - |tmp|
    {
      HexDef(g);
      BackwardsLast(tmp, Digit(g % 16));
      ghost var high := if g < 16 then "" else Hex(g / 16);
      assert high + [Digit(g % 16)] + Backwards(tmp) == high + ([Digit(g % 16)] + Backwards(tmp));
      tmp, g := tmp + [Digit(g % 16)], g / 16;
    }
    if g > 0 { HexDef(g); }
  }

  lemma BackwardsLast(t: string, c: char)
    ensures Backwards(t + [c]) == [c] + Backwards(t)
  {
    assert (t + [c])[..|t|] == t;
  }

  /** Writes one group, as far as there is room. */
  method AppendHex(out: string, v: word, cap: nat) returns (r: string)
    requires |out| < cap
    ensures |r| < cap && out <= r <= out + Hex(v)
    ensures r == out + Hex(v) || |r| == cap - 1
    ensures |out| + 4 < cap ==> r == out + Hex(v)
  {
    hide Backwards;
    var tmp := Digits(v);
    r := out;
    var n := |tmp|;
    assert tmp[..n] == tmp;
    while n > 0 && |r| < cap - 1
      invariant 0 <= n <= |tmp| && |r| < cap && out <= r
      invariant r + Backwards(tmp[..n]) == out + Backwards(tmp) && |r| == |out| + |tmp| - n
      decreases n
    {
      n := n - 1;
      assert tmp[..n + 1] == tmp[..n] + [tmp[n]];
      BackwardsLast(tmp[..n], tmp[n]);
      assert r + ([tmp[n]] + Backwards(tmp[..n])) == r + [tmp[n]] + Backwards(tmp[..n]);
      r := r + [tmp[n]];
    }
    assert n == 0 ==> Backwards(tmp[..n]) == "";
  }

  function Backwards(t: string): (r: string)
    ensures |r| == |t|
  {
    if t == "" then "" else [t[|t| - 1]] + Backwards(t[..|t| - 1])
  }

  /** The text of the first i groups, when the run of len groups at b is shortened. */
  function Part(g: Groups, b: int, len: int, i: nat): string
    requires i <= 8 && len >= 2 && (b < 0 || b + len <= 8)
  {
    if b < 0 || i <= b then Joined(Hexes(g[..i]))
    else if i < b + len then Joined(Hexes(g[..b]))
    else Joined(Hexes(g[..b])) + "::" + Joined(Hexes(g[b + len..i]))
  }

  lemma NoHexes(g: seq<word>)
    requires g == []
    ensures Joined(Hexes(g)) == ""
  {}

  lemma PartGroup(g: Groups, b: int, len: int, i: nat)
    requires i < 8 && len >= 2 && (b < 0 || b + len <= 8) && (b < 0 || i < b || b + len <= i)
    ensures Part(g, b, len, i + 1) ==
      Part(g, b, len, i) + (if i > 0 && !(b >= 0 && i == b + len) then ":" else "") + Hex(g[i])
  {
    hide Hex, Hexes, Joined;
    if b < 0 || i < b {
      assert g[0..i + 1] == g[..i + 1] && g[0..i] == g[..i];
      HexesSnoc(g, 0, i);
      if i == 0 { NoHexes(g[..0]); }
    } else {
      HexesSnoc(g, b + len, i);
      NoHexes(g[b + len..b + len]);
      var l := Joined(Hexes(g[..b])) + "::";
      if i > b + len {
        assert l + (Joined(Hexes(g[b + len..i])) + ":" + Hex(g[i])) ==
          l + Joined(Hexes(g[b + len..i])) + ":" + Hex(g[i]);
      }
    }
  }

  lemma PartRun(g: Groups, b: int, len: int)
    requires 0 <= b && 2 <= len && b + len <= 8
    ensures Part(g, b, len, b + len) == Part(g, b, len, b) + "::"
  {
    assert g[b + len..b + len] == [];
  }

  lemma PartAll(g: Groups, b: int, len: int)
    requires if b < 0 then NoShortened(g) && len >= 2 else Shortened(g, b, len)
    ensures Canonical(g, Part(g, b, len, 8))
  {
    assert g[..8] == g;
    if b >= 0 { assert g[b + len..8] == g[b + len..]; }
  }

  /** The end of the zero run that starts at i. */
  method SkipZeros(a: seq<byte>, i: nat) returns (e: nat)
    requires |a| == 16 && i < 8 && GroupsOf(a)[i] == 0
    ensures i < e <= 8 && Zeros(GroupsOf(a), i, e - i) && (e < 8 ==> GroupsOf(a)[e] != 0)
  {
    e := i;
    while e + 1 < 8 && a[(e + 1) * 2] == 0 && a[(e + 1) * 2 + 1] == 0
      invariant i <= e < 8 && Zeros(GroupsOf(a), i, e + 1 - i)
    {
      e := e + 1;
    }
    e := e + 1;
  }

  lemma {:induction false} PartGrows(g: Groups, b: int, len: int, i: nat)
    requires i <= 8 && len >= 2 && (b < 0 || b + len <= 8) && (b < 0 || i <= b || b + len <= i)
    ensures Part(g, b, len, i) <= Part(g, b, len, 8)
    decreases 8 - i
  {
    hide Part, Hex;
    if i == b {
      PartRun(g, b, len);
      PartGrows(g, b, len, b + len);
    } else if i < 8 {
      PartGroup(g, b, len, i);
      PartGrows(g, b, len, i + 1);
    }
  }

  /** The text is canonical, or as much of it as the room allows. */
  ghost predicate FormatOf(g: Groups, out: string, cap: nat) {
    exists t :: Canonical(g, t) && out <= t && (out == t || |out| + 2 >= cap)
  }

  /** One turn of the writing loop: the separator if one is due, then the group. */
  method WriteGroup(out: string, sep: bool, v: word, cap: nat, ghost part: string) returns (r: string)
    requires |out| < cap && out <= part && (out == part || |out| + 1 == cap)
    ensures |r| < cap
    ensures var next := part + (if sep then ":" else "") + Hex(v);
      r <= next && (r == next || |r| + 1 == cap) && (out == part && |out| + 5 < cap ==> r == next)
  {
    hide Hex;
    r := out;
    if sep {
      if |r| < cap - 1 { r := r + ":"; }
    }
    r := AppendHex(r, v, cap);
  }

  /** net_ip6_fmt: the canonical text, all of it when there are 40 bytes of room; with less it is cut
      off, at most one byte before the room is used up, and never overruns. */
  method Format(a: seq<byte>, cap: nat) returns (out: string)
    requires |a| == 16 && cap >= 1
    ensures |out| < cap && FormatOf(GroupsOf(a), out, cap)
    ensures cap >= 40 ==> Canonical(GroupsOf(a), out)
  {
    hide Part, Canonical, Hex;
    ghost var g := GroupsOf(a);
    var best, len := BestRun(a);
    if len < 2 { best := -1; }
    ghost var l := if len < 2 then 2 else len;
    assert if best < 0 then NoShortened(g) else Shortened(g, best, l);
    PartNone(g, best, l);
    PartAll(g, best, l);
    out := "";
    var afterDc := false;
    var i := 0;
    while i < 8
      invariant 0 <= i <= 8 && |out| < cap
      invariant best >= 0 ==> i <= best || i >= best + len
      invariant afterDc <==> best >= 0 && i == best + len
      invariant cap >= 40 ==> |out| <= 5 * i && (i > 0 ==> |out| < 5 * i)
      invariant out <= Part(g, best, l, i) && (out == Part(g, best, l, i) || |out| + 1 == cap)
      invariant cap >= 40 ==> out == Part(g, best, l, i)
    {
      PartGrows(g, best, l, i);
      if best == i {
        if |out| + 2 >= cap { break; }
        out := out + "::";
        PartRun(g, best, len);
        var e := SkipZeros(a, i);
        assert !(e < best + len);
        i := e;
        afterDc := true;
        continue;
      }
      PartGroup(g, best, l, i);
      HexShort(g[i]);
      out := WriteGroup(out, i > 0 && !afterDc, Be16(a[2 * i], a[2 * i + 1]), cap, Part(g, best, l, i));
      afterDc := false;
      i := i + 1;
    }
    assert Canonical(g, Part(g, best, l, 8));
  }

  lemma PartNone(g: Groups, b: int, len: int)
    requires len >= 2 && (b < 0 || b + len <= 8)
    ensures Part(g, b, len, 0) == ""
  {
  }

  // ---- parsing ----

  predicate IsHex(c: char) { '0' <= c <= '9' || 'a' <= c <= 'f' || 'A' <= c <= 'F' }

  function HexVal(c: char): nat
    requires IsHex(c)
  {
    if '0' <= c <= '9' then c as int - '0' as int
    else if 'a' <= c <= 'f' then c as int - 'a' as int + 10
    else c as int - 'A' as int + 10
  }

  /** One group as text: one to four hexadecimal digits of either case. */
  predicate GroupText(t: string) { 1 <= |t| <= 4 && AllHex(t) }

  predicate AllHex(t: string) { forall i :: 0 <= i < |t| ==> IsHex(t[i]) }

  function Val(t: string): nat
    requires AllHex(t)
  {
    if t == "" then 0 else Val(t[..|t| - 1]) * 16 + HexVal(t[|t| - 1])
  }

  lemma ValWord(t: string)
    requires GroupText(t)
    ensures Val(t) < 0x1_0000
  {
    ValBound(t, 4);
  }

  lemma {:induction false} ValBound(t: string, n: nat)
    requires AllHex(t) && |t| <= n <= 4
    ensures Val(t) < Pow16(n)
  {
    if n > 0 && t != "" { ValBound(t[..|t| - 1], n - 1); }
  }

  function ValOf(t: string): word
    requires GroupText(t)
  {
    ValWord(t);
    Val(t)
  }

  /** The first colon, or the end. */
  function Stop(u: string): (q: nat)
    ensures q <= |u| && (q < |u| ==> u[q] == ':') && forall i :: 0 <= i < q ==> u[i] != ':'
  {
    if u == "" || u[0] == ':' then 0 else 1 + Stop(u[1..])
  }

  /** The groups read, and the number of them before the double colon, or -1 without one. */
  datatype Reading = Reading(g: seq<word>, dc: int)

  /** One turn of the reading loop: refused, at the end of the text, or with text left. */
  datatype Turn = Bad | Last(r: Reading) | More(v: string, r: Reading)

  /** The turn at text u: a group, then the end, a colon or a double colon. */
  function TurnAt(u: string, r: Reading): (x: Turn)
    requires u != "" && r.dc <= |r.g|
    ensures x.Last? || x.More? ==> x.r.dc <= |x.r.g|
    ensures x.More? ==> |x.v| < |u|
  {
    var q := Stop(u);
    if !GroupText(u[..q]) || |r.g| >= 8 then Bad else After(u, q, Reading(r.g + [ValOf(u[..q])], r.dc))
  }

  /** What follows the group that ends at q. */
  function After(u: string, q: nat, r: Reading): (x: Turn)
    requires q <= |u| && u != "" && (q < |u| ==> u[q] == ':')
  {
    if q == |u| then Last(r)
    else if q + 1 < |u| && u[q + 1] == ':' then (if r.dc >= 0 then Bad else More(u[q + 2..], Reading(r.g, |r.g|)))
    else if q + 1 == |u| then Bad
    else More(u[q + 1..], r)
  }

  /** What net_ip6_parse makes of the remaining text. */
  function Rest(u: string, r: Reading): (x: Option<Reading>)
    requires r.dc <= |r.g|
    ensures x.Some? ==> x.value.dc <= |x.value.g|
    decreases |u|
  {
    if u == "" then Some(r)
    else match TurnAt(u, r)
      case Bad => None
      case Last(r') => Some(r')
      case More(v, r') => Rest(v, r')
  }

  function Read(s: string): (x: Option<Reading>)
    ensures x.Some? ==> x.value.dc <= |x.value.g|
  {
    if |s| >= 2 && s[0] == ':' && s[1] == ':' then Rest(s[2..], Reading([], 0)) else Rest(s, Reading([], -1))
  }

  function Zero(n: nat): (z: seq<word>)
    ensures |z| == n && forall i :: 0 <= i < n ==> z[i] == 0
  {
    seq(n, _ => 0)
  }

  /** The address a reading stands for. */
  function Expanded(r: Reading): Option<seq<word>>
    requires r.dc <= |r.g|
  {
    if r.dc < 0 then (if |r.g| == 8 then Some(r.g) else None)
    else if |r.g| >= 8 then None
    else Some(r.g[..r.dc] + Zero(8 - |r.g|) + r.g[r.dc..])
  }

  predicate Texts(ts: seq<string>) { forall t :: t in ts ==> GroupText(t) }

  function Vals(ts: seq<string>): (g: seq<word>)
    requires Texts(ts)
    ensures |g| == |ts|
  {
    if ts == [] then [] else [ValOf(ts[0])] + Vals(ts[1..])
  }

  /** The text has one of the two forms of section 2.2 of RFC 4291, and the groups are its value. */
  ghost predicate Denotes(s: string, g: seq<word>) {
    || (exists ts :: Texts(ts) && |ts| == 8 && s == Joined(ts) && g == Vals(ts))
    || (exists l, r :: Texts(l) && Texts(r) && |l| + |r| <= 7 && s == Joined(l) + "::" + Joined(r)
          && g == Vals(l) + Zero(8 - |l| - |r|) + Vals(r))
  }

  lemma StopAt(t: string, v: string)
    requires GroupText(t) && (v == "" || v[0] == ':')
    ensures Stop(t + v) == |t| && (t + v)[..|t|] == t
  {
    assert forall i :: 0 <= i < |t| ==> (t + v)[i] == t[i] != ':';
    assert v != "" ==> (t + v)[|t|] == ':';
  }

  /** A turn whose group is t. */
  lemma TurnGroup(t: string, v: string, r: Reading)
    requires GroupText(t) && r.dc <= |r.g| < 8 && (v == "" || v[0] == ':')
    ensures t + v != "" && (v != "" ==> (t + v)[|t|] == ':')
    ensures TurnAt(t + v, r) == After(t + v, |t|, Reading(r.g + [ValOf(t)], r.dc))
  {
    hide Stop, ValOf, GroupText, After;
    StopAt(t, v);
    GroupSome(t);
  }

  lemma GroupSome(t: string)
    requires GroupText(t)
    ensures t != "" && t[0] != ':'
  {}

  lemma AfterColon(t: string, v: string, r: Reading)
    requires v != "" && v[0] != ':'
    ensures var u := t + (":" + v); u[|t|] == ':' && After(u, |t|, r) == More(v, r)
  {
    var u := t + (":" + v);
    assert u[|t| + 1] == v[0] && u[|t| + 1..] == v;
  }

  lemma AfterPair(t: string, v: string, r: Reading)
    requires r.dc < 0
    ensures var u := t + ("::" + v); u[|t|] == ':' && After(u, |t|, r) == More(v, Reading(r.g, |r.g|))
  {
    var u := t + ("::" + v);
    assert u[|t| + 1] == ':' && u[|t| + 2..] == v;
  }

  /** One group at the end of the text, before a colon and before a double colon. */
  lemma RestLast(t: string, r: Reading)
    requires GroupText(t) && r.dc <= |r.g| < 8
    ensures Rest(t, r) == Some(Reading(r.g + [ValOf(t)], r.dc))
  {
    hide TurnAt, ValOf, GroupText, Stop;
    TurnGroup(t, "", r);
    assert t + "" == t;
  }

  lemma RestColon(t: string, v: string, r: Reading)
    requires GroupText(t) && r.dc <= |r.g| < 8 && v != "" && v[0] != ':'
    ensures Rest(t + ":" + v, r) == Rest(v, Reading(r.g + [ValOf(t)], r.dc))
  {
    hide TurnAt, ValOf, GroupText, Stop, After;
    assert t + ":" + v == t + (":" + v);
    TurnGroup(t, ":" + v, r);
    AfterColon(t, v, Reading(r.g + [ValOf(t)], r.dc));
  }

  lemma RestPair(t: string, v: string, r: Reading)
    requires GroupText(t) && |r.g| < 8 && r.dc < 0
    ensures Rest(t + "::" + v, r) == Rest(v, Reading(r.g + [ValOf(t)], |r.g| + 1))
  {
    hide TurnAt, ValOf, GroupText, Stop, After;
    assert t + "::" + v == t + ("::" + v);
    TurnGroup(t, "::" + v, r);
    AfterPair(t, v, Reading(r.g + [ValOf(t)], r.dc));
  }

  lemma TextsFirst(ts: seq<string>)
    requires Texts(ts) && ts != []
    ensures GroupText(ts[0]) && Texts(ts[1..]) && Vals(ts) == [ValOf(ts[0])] + Vals(ts[1..])
    ensures Joined(ts) == if ts[1..] == [] then ts[0] else ts[0] + ":" + Joined(ts[1..])
    ensures Joined(ts) != "" && Joined(ts)[0] != ':'
  {
    assert ts[0] in ts;
    assert Joined(ts)[0] == ts[0][0];
  }

  /** Groups read before the end of the text. */
  lemma {:induction false} RestTexts(ts: seq<string>, r: Reading)
    requires Texts(ts) && r.dc <= |r.g| && |r.g| + |ts| <= 8
    ensures Rest(Joined(ts), r) == Some(Reading(r.g + Vals(ts), r.dc))
    decreases |ts|
  {
    if ts == [] {
      assert r.g + [] == r.g;
    } else {
      RestFirst(ts, r);
    }
  }

  lemma {:induction false} RestFirst(ts: seq<string>, r: Reading)
    requires Texts(ts) && r.dc <= |r.g| && |r.g| + |ts| <= 8 && ts != []
    ensures Rest(Joined(ts), r) == Some(Reading(r.g + Vals(ts), r.dc))
    decreases |ts|
  {
    hide Rest, Joined, Vals, GroupText;
    TextsFirst(ts);
    var t, more := ts[0], ts[1..];
    if more == [] {
      RestLast(t, r);
      assert [ValOf(t)] + Vals(more) == [ValOf(t)];
    } else {
      TextsFirst(more);
      RestColon(t, Joined(more), r);
      RestFirst(more, Reading(r.g + [ValOf(t)], r.dc));
      assert r.g + [ValOf(t)] + Vals(more) == r.g + ([ValOf(t)] + Vals(more));
    }
  }

  /** Groups read up to the double colon, and after it. */
  lemma {:induction false} RestDouble(l: seq<string>, m: seq<string>, r: Reading)
    requires Texts(l) && Texts(m) && l != [] && r.dc < 0 && |r.g| + |l| + |m| <= 8
    ensures Rest(Joined(l) + "::" + Joined(m), r) == Some(Reading(r.g + Vals(l) + Vals(m), |r.g| + |l|))
    decreases |l|
  {
    hide Rest, Joined, Vals, GroupText;
    TextsFirst(l);
    var t, more := l[0], l[1..];
    var g := r.g + [ValOf(t)];
    if more == [] {
      RestPair(t, Joined(m), r);
      RestTexts(m, Reading(g, |g|));
      assert [ValOf(t)] + Vals(more) == [ValOf(t)];
    } else {
      var v := Joined(more) + "::" + Joined(m);
      TextsFirst(more);
      assert t + ":" + Joined(more) + "::" + Joined(m) == t + ":" + v;
      assert v[0] == Joined(more)[0];
      RestColon(t, v, r);
      RestDouble(more, m, Reading(g, r.dc));
      assert g + Vals(more) == r.g + ([ValOf(t)] + Vals(more));
    }
  }

  /** Whatever has one of the two forms is read, with its value. */
  lemma ReadComplete(s: string, g: seq<word>)
    requires Denotes(s, g)
    ensures Read(s).Some? && Expanded(Read(s).value) == Some(g)
  {
    if ts :| Texts(ts) && |ts| == 8 && s == Joined(ts) && g == Vals(ts) {
      TextsFirst(ts);
      RestTexts(ts, Reading([], -1));
      assert [] + Vals(ts) == Vals(ts);
    } else {
      var l, r :| Texts(l) && Texts(r) && |l| + |r| <= 7 && s == Joined(l) + "::" + Joined(r)
        && g == Vals(l) + Zero(8 - |l| - |r|) + Vals(r);
      ReadDouble(s, l, r);
    }
  }

  lemma ReadDouble(s: string, l: seq<string>, r: seq<string>)
    requires Texts(l) && Texts(r) && |l| + |r| <= 7 && s == Joined(l) + "::" + Joined(r)
    ensures Read(s) == Some(Reading(Vals(l) + Vals(r), |l|))
    ensures Expanded(Read(s).value) == Some(Vals(l) + Zero(8 - |l| - |r|) + Vals(r))
  {
    hide Read, Rest, Joined, Vals, Expanded, Texts, GroupText;
    NoTexts();
    if l == [] {
      ReadPair(Joined(r));
      RestTexts(r, Reading([], 0));
      assert [] + Vals(r) == Vals(r) == Vals(l) + Vals(r);
      assert Joined(l) + "::" == "::";
    } else {
      ReadNames(s, l, r);
    }
    ExpandedJoin(Vals(l), Vals(r));
  }

  lemma ReadNames(s: string, l: seq<string>, r: seq<string>)
    requires Texts(l) && Texts(r) && l != [] && |l| + |r| <= 7 && s == Joined(l) + "::" + Joined(r)
    ensures Read(s) == Some(Reading(Vals(l) + Vals(r), |l|))
  {
    hide Read, Rest, Joined, Vals, Texts, GroupText;
    TextsFirst(l);
    assert s[0] == Joined(l)[0];
    ReadPlain(s);
    RestDouble(l, r, Reading([], -1));
    assert [] + Vals(l) == Vals(l);
  }

  lemma ReadPair(v: string)
    ensures Read("::" + v) == Rest(v, Reading([], 0))
  {
    assert ("::" + v)[2..] == v;
  }

  lemma ReadPlain(s: string)
    requires s != "" && s[0] != ':'
    ensures Read(s) == Rest(s, Reading([], -1))
  {
  }

  lemma ExpandedJoin(l: seq<word>, r: seq<word>)
    requires |l| + |r| <= 7
    ensures Expanded(Reading(l + r, |l|)) == Some(l + Zero(8 - |l| - |r|) + r)
  {
    assert (l + r)[..|l|] == l && (l + r)[|l|..] == r;
  }

  lemma ZerosSplit(g: seq<word>, b: int, len: int)
    requires Zeros(g, b, len)
    ensures g == g[..b] + Zero(len) + g[b + len..]
  {
    var z := Zero(len);
    forall i | 0 <= i < |g| ensures g[i] == (g[..b] + z + g[b + len..])[i] {
      if b <= i < b + len { assert z[i - b] == 0; }
    }
  }

  /** Canonical text is read as the address it was made from. */
  lemma CanonicalDenotes(g: Groups, t: string)
    requires Canonical(g, t)
    ensures Denotes(t, g)
  {
    hide Hexes, Vals, Joined, Texts;
    if NoShortened(g) && t == Joined(Hexes(g)) {
      HexesVals(g);
    } else {
      var b, len :| Shortened(g, b, len) && t == Joined(Hexes(g[..b])) + "::" + Joined(Hexes(g[b + len..]));
      HexesVals(g[..b]);
      HexesVals(g[b + len..]);
      ZerosSplit(g, b, len);
    }
  }

  lemma HexVals(v: word)
    ensures GroupText(Hex(v)) && Val(Hex(v)) == v
  {
    HexShort(v);
    HexRead(v);
  }

  lemma DigitRead(h: nat)
    requires h < 16
    ensures IsHex(Digit(h)) && HexVal(Digit(h)) == h
  {
  }

  lemma ValLast(t: string, c: char)
    requires AllHex(t) && IsHex(c)
    ensures AllHex(t + [c]) && Val(t + [c]) == Val(t) * 16 + HexVal(c)
  {
    assert (t + [c])[..|t|] == t;
  }

  lemma {:induction false} HexRead(v: nat)
    ensures AllHex(Hex(v)) && Val(Hex(v)) == v
  {
    hide Hex, Val, HexVal, IsHex, Digit;
    HexDef(v);
    DigitRead(v % 16);
    if v >= 16 { HexRead(v / 16); }
    ValNone();
    ValLast(if v < 16 then "" else Hex(v / 16), Digit(v % 16));
  }

  lemma ValNone()
    ensures AllHex("") && Val("") == 0
  {
  }

  lemma HexValOf(v: word)
    ensures GroupText(Hex(v)) && ValOf(Hex(v)) == v
  {
    hide Hex;
    HexVals(v);
  }

  lemma {:induction false} HexesVals(g: seq<word>)
    ensures Texts(Hexes(g)) && Vals(Hexes(g)) == g
  {
    hide Hex, GroupText, Vals, Texts;
    if g == [] {
      NoTexts();
      assert Hexes(g) == [];
    } else {
      HexVals(g[0]);
      HexesVals(g[1..]);
      assert Hexes(g) == [Hex(g[0])] + Hexes(g[1..]);
      TextsCons(Hex(g[0]), Hexes(g[1..]));
      HexValOf(g[0]);
      assert g == [g[0]] + g[1..];
    }
  }

  /** The group of a turn that is not refused, and what follows it. */
  lemma TurnParts(u: string, r: Reading) returns (t: string, v: string)
    requires r.dc <= |r.g| && u != "" && TurnAt(u, r) != Bad
    ensures GroupText(t) && |r.g| < 8
    ensures var g := r.g + [ValOf(t)];
      || (u == t && TurnAt(u, r) == Last(Reading(g, r.dc)))
      || (r.dc < 0 && u == t + "::" + v && TurnAt(u, r) == More(v, Reading(g, |g|)))
      || (v != "" && u == t + ":" + v && TurnAt(u, r) == More(v, Reading(g, r.dc)))
  {
    hide GroupText, ValOf;
    var q := Stop(u);
    t := u[..q];
    if q == |u| {
      v := "";
    } else if u[q + 1] == ':' {
      v := u[q + 2..];
      assert u == t + "::" + v;
    } else {
      v := u[q + 1..];
      assert u == t + ":" + v;
    }
  }

  /** How a successful reading goes on. */
  lemma RestSteps(u: string, r: Reading) returns (t: string, v: string)
    requires r.dc <= |r.g| && u != "" && Rest(u, r).Some?
    ensures GroupText(t) && |r.g| < 8
    ensures var g := r.g + [ValOf(t)];
      || (u == t && Rest(u, r).value == Reading(g, r.dc))
      || (r.dc < 0 && |v| < |u| && u == t + "::" + v && Rest(u, r) == Rest(v, Reading(g, |g|)))
      || (v != "" && |v| < |u| && u == t + ":" + v && Rest(u, r) == Rest(v, Reading(g, r.dc)))
  {
    hide TurnAt, GroupText, ValOf;
    t, v := TurnParts(u, r);
  }

  lemma TextsCons(t: string, ts: seq<string>)
    requires GroupText(t) && Texts(ts)
    ensures Texts([t] + ts) && Vals([t] + ts) == [ValOf(t)] + Vals(ts)
    ensures Joined([t] + ts) == if ts == [] then t else t + ":" + Joined(ts)
  {
    assert ([t] + ts)[1..] == ts;
  }

  /** What was read has one of the two forms. */
  lemma {:induction false} RestSound(u: string, r: Reading) returns (l: seq<string>, m: seq<string>)
    requires r.dc <= |r.g| && Rest(u, r).Some?
    ensures Texts(l) && Texts(m)
    ensures var x := Rest(u, r).value;
      if r.dc >= 0 || x.dc < 0
      then l == [] && u == Joined(m) && x == Reading(r.g + Vals(m), r.dc)
      else l != [] && u == Joined(l) + "::" + Joined(m) && x == Reading(r.g + Vals(l) + Vals(m), |r.g| + |l|)
    decreases |u|
  {
    l, m := [], [];
    if u == "" {
      assert r.g + [] == r.g;
    } else {
      l, m := RestSoundStep(u, r);
    }
  }

  lemma {:induction false} RestSoundStep(u: string, r: Reading) returns (l: seq<string>, m: seq<string>)
    requires r.dc <= |r.g| && u != "" && Rest(u, r).Some?
    ensures Texts(l) && Texts(m)
    ensures var x := Rest(u, r).value;
      if r.dc >= 0 || x.dc < 0
      then l == [] && u == Joined(m) && x == Reading(r.g + Vals(m), r.dc)
      else l != [] && u == Joined(l) + "::" + Joined(m) && x == Reading(r.g + Vals(l) + Vals(m), |r.g| + |l|)
    decreases |u|, 0
  {
    hide Rest, Joined, Vals, GroupText, Texts;
    var t, v := RestSteps(u, r);
    var g := r.g + [ValOf(t)];
    l, m := [], [];
    NoTexts();
    if u == t && Rest(u, r).value == Reading(g, r.dc) {
      m := [t] + [];
      ConsGroups(r.g, t, []);
      TextsCons(t, []);
    } else if r.dc < 0 && u == t + "::" + v && Rest(u, r) == Rest(v, Reading(g, |g|)) {
      var _, m' := RestSound(v, Reading(g, |g|));
      l, m := [t] + [], m';
      ConsGroups(r.g, t, []);
      TextsCons(t, []);
    } else {
      var l', m' := RestSound(v, Reading(g, r.dc));
      if l' == [] {
        m := [t] + m';
        ConsGroups(r.g, t, m');
      } else {
        l, m := [t] + l', m';
        ConsGroups(r.g, t, l');
        ConsText(t, l', Joined(m'));
      }
    }
  }

  lemma ConsGroups(g: seq<word>, t: string, ts: seq<string>)
    requires GroupText(t) && Texts(ts)
    ensures Texts([t] + ts) && g + [ValOf(t)] + Vals(ts) == g + Vals([t] + ts)
    ensures ts != [] ==> Joined([t] + ts) == t + ":" + Joined(ts)
  {
    hide Joined, Vals, GroupText, ValOf;
    TextsCons(t, ts);
    assert g + [ValOf(t)] + Vals(ts) == g + ([ValOf(t)] + Vals(ts));
  }

  lemma ConsText(t: string, ts: seq<string>, m: string)
    requires GroupText(t) && Texts(ts) && ts != []
    ensures t + ":" + (Joined(ts) + "::" + m) == Joined([t] + ts) + "::" + m
  {
    hide Joined, Vals, GroupText, ValOf;
    TextsCons(t, ts);
    assert t + ":" + (Joined(ts) + "::" + m) == t + ":" + Joined(ts) + "::" + m;
  }

  lemma NoTexts()
    ensures Texts([]) && Joined([]) == "" && Vals([]) == []
  {
  }

  /** The texts that net_ip6_parse accepts, and with which value. */
  lemma ReadExact(s: string, g: seq<word>)
    ensures (Read(s).Some? && Expanded(Read(s).value) == Some(g)) <==> Denotes(s, g)
  {
    if Denotes(s, g) { ReadComplete(s, g); }
    if Read(s).Some? && Expanded(Read(s).value) == Some(g) { ReadSound(s, g); }
  }

  lemma ReadSound(s: string, g: seq<word>)
    requires Read(s).Some? && Expanded(Read(s).value) == Some(g)
    ensures Denotes(s, g)
  {
    hide Rest, Joined, Vals, Texts;
    NoTexts();
    var x := Read(s).value;
    if |s| >= 2 && s[0] == ':' && s[1] == ':' {
      var _, m := RestSound(s[2..], Reading([], 0));
      assert s == Joined([]) + "::" + Joined(m);
      assert x == Reading(Vals(m), 0);
      assert g == Vals([]) + Zero(8 - |m|) + Vals(m);
    } else {
      var l, m := RestSound(s, Reading([], -1));
      if x.dc < 0 {
        assert g == Vals(m);
      } else {
        assert x.g == Vals(l) + Vals(m);
        assert x.g[..|l|] == Vals(l) && x.g[|l|..] == Vals(m);
        assert g == Vals(l) + Zero(8 - |l| - |m|) + Vals(m);
      }
    }
  }

  /** The digits of one group from position p on. */
  method ScanGroup(s: string, p: nat) returns (ok: bool, v: nat, q: nat)
    requires p < |s|
    ensures p <= q <= |s|
    ensures ok <==> GroupText(s[p..][..Stop(s[p..])])
    ensures ok ==> q == p + Stop(s[p..]) && GroupText(s[p..q]) && v == ValOf(s[p..q])
  {
    hide Val, HexVal, IsHex;
    ValNone();
    v, q := 0, p;
    assert s[p..q] == "";
    var d := 0;
    while q < |s| && s[q] != ':'
      invariant p <= q <= |s| && d == q - p <= 4
      invariant AllHex(s[p..q]) && v == Val(s[p..q])
      invariant forall i :: p <= i < q ==> s[i] != ':'
      decreases |s| - q
    {
      StopAfter(s, p, q);
      if !IsHex(s[q]) { return false, 0, q; }
      d := d + 1;
      if d > 4 { return false, 0, q; }
      assert s[p..q + 1] == s[p..q] + [s[q]];
      ValLast(s[p..q], s[q]);
      v := v * 16 + HexVal(s[q]);
      q := q + 1;
    }
    StopHere(s, p, q);
    ok := d != 0;
  }

  lemma StopAfter(s: string, p: nat, q: nat)
    requires p <= q < |s| && forall i :: p <= i <= q ==> s[i] != ':'
    ensures q - p < Stop(s[p..]) && s[p..][..Stop(s[p..])][q - p] == s[q]
  {
    var u := s[p..];
    assert forall i :: 0 <= i <= q - p ==> u[i] == s[p + i];
  }

  lemma StopHere(s: string, p: nat, q: nat)
    requires p <= q <= |s| && (q < |s| ==> s[q] == ':') && forall i :: p <= i < q ==> s[i] != ':'
    ensures q - p == Stop(s[p..]) && s[p..][..Stop(s[p..])] == s[p..q]
  {
    var u := s[p..];
    assert forall i :: 0 <= i < q - p ==> u[i] == s[p + i];
    assert q < |s| ==> u[q - p] == ':';
  }

  /** One turn, at position p of the whole text. */
  lemma TurnOnce(s: string, p: nat, r: Reading)
    requires p < |s| && r.dc <= |r.g|
    ensures var q := p + Stop(s[p..]);
      && p <= q <= |s| && s[p..][..Stop(s[p..])] == s[p..q] && (q < |s| ==> s[q] == ':')
      && TurnAt(s[p..], r) ==
        if !GroupText(s[p..q]) || |r.g| >= 8 then Bad
        else if q == |s| then Last(Reading(r.g + [ValOf(s[p..q])], r.dc))
        else if q + 1 < |s| && s[q + 1] == ':' then
          (if r.dc >= 0 then Bad else More(s[q + 2..], Reading(r.g + [ValOf(s[p..q])], |r.g| + 1)))
        else if q + 1 == |s| then Bad
        else More(s[q + 1..], Reading(r.g + [ValOf(s[p..q])], r.dc))
  {
    hide GroupText, ValOf;
    var u := s[p..];
    var q := p + Stop(u);
    assert u[..Stop(u)] == s[p..q];
    assert q < |s| ==> u[Stop(u) + 1..] == s[q + 1..];
    assert q + 1 < |s| ==> u[Stop(u) + 2..] == s[q + 2..];
  }

  lemma RestTurn(u: string, r: Reading)
    requires u != "" && r.dc <= |r.g|
    ensures Rest(u, r) == match TurnAt(u, r) case Bad => None case Last(r') => Some(r') case More(v, r') => Rest(v, r')
  {}

  /** The end of the text adds nothing. */
  lemma RestEnd(r: Reading)
    requires r.dc <= |r.g|
    ensures Rest("", r) == Some(r)
  {
  }

  /** The reading loop of net_ip6_parse. */
  method ReadGroups(s: string) returns (ok: bool, g: seq<word>, dc: int)
    ensures ok <==> Read(s).Some?
    ensures ok ==> Reading(g, dc) == Read(s).value
  {
    hide Rest, TurnAt, Stop, ValOf, GroupText;
    g, dc := [], -1;
    var p := 0;
    if |s| >= 2 && s[0] == ':' && s[1] == ':' {
      dc, p := 0, 2;
    }
    assert p == 0 ==> s[p..] == s;
    while p < |s|
      invariant 0 <= p <= |s| && dc <= |g| <= 8
      invariant Read(s) == Rest(s[p..], Reading(g, dc))
      decreases |s| - p
    {
      ghost var u := s[p..];
      RestTurn(u, Reading(g, dc));
      TurnOnce(s, p, Reading(g, dc));
      var good, v, q := ScanGroup(s, p);
      if !good { return false, [], -1; }
      if |g| >= 8 { return false, [], -1; }
      assert u[..Stop(u)] == s[p..q];
      g := g + [v];
      if q + 1 < |s| && s[q] == ':' && s[q + 1] == ':' {
        if dc >= 0 { return false, [], -1; }
        dc := |g|;
        p := q + 2;
      } else if q < |s| {
        p := q + 1;
        if p == |s| { return false, [], -1; }
      } else {
        p := q;
        assert s[p..] == "";
        RestEnd(Reading(g, dc));
      }
    }
    assert s[p..] == "";
    RestEnd(Reading(g, dc));
    ok := true;
  }

  method PutGroup(out: array<byte>, i: nat, v: word)
    requires out.Length == 16 && i < 8
    modifies out
    ensures GroupsOf(out[..]) == GroupsOf(old(out[..]))[i := v]
  {
    out[i * 2], out[i * 2 + 1] := v / 256, v % 256;
  }

  /** Writes the groups one after the other, from group at on. */
  method PutGroups(out: array<byte>, at: nat, g: seq<word>)
    requires out.Length == 16 && at + |g| <= 8
    modifies out
    ensures GroupsOf(out[..]) == GroupsOf(old(out[..]))[..at] + g + GroupsOf(old(out[..]))[at + |g|..]
  {
    hide GroupsOf;
    ghost var was := GroupsOf(out[..]);
    assert was == was[..at] + g[..0] + was[at..];
    for i := 0 to |g|
      invariant GroupsOf(out[..]) == was[..at] + g[..i] + was[at + i..]
    {
      PutGroup(out, at + i, g[i]);
      assert g[..i + 1] == g[..i] + [g[i]];
    }
    assert g[..|g|] == g;
  }

  method Clear(out: array<byte>)
    requires out.Length == 16
    modifies out
    ensures GroupsOf(out[..]) == Zero(8)
  {
    for i := 0 to 16
      invariant forall j :: 0 <= j < i ==> out[j] == 0
    {
      out[i] := 0;
    }
  }

  /** net_ip6_parse: accepts exactly the texts of the two forms, and stores their value. */
  method Parse(s: string, out: array<byte>) returns (ok: bool)
    requires out.Length == 16
    modifies out
    ensures ok ==> Denotes(s, GroupsOf(out[..]))
    ensures !ok ==> forall g :: !Denotes(s, g)
  {
    hide Read, Denotes, GroupsOf;
    forall g ensures (Read(s).Some? && Expanded(Read(s).value) == Some(g)) <==> Denotes(s, g) { ReadExact(s, g); }
    var good, g, dc := ReadGroups(s);
    if !good { return false; }
    Clear(out);
    if dc >= 0 {
      if |g| >= 8 { return false; }
      var after := |g| - dc;
      PutGroups(out, 0, g[..dc]);
      PutGroups(out, 8 - after, g[dc..]);
      ZeroMiddle(g, dc);
    } else {
      if |g| != 8 { return false; }
      PutGroups(out, 0, g);
      assert GroupsOf(out[..]) == g;
    }
    ok := true;
  }

  lemma ZeroMiddle(g: seq<word>, dc: int)
    requires 0 <= dc <= |g| < 8
    ensures var a := Zero(8)[..0] + g[..dc] + Zero(8)[dc..];
      a[..8 - (|g| - dc)] + g[dc..] + a[8..] == g[..dc] + Zero(8 - |g|) + g[dc..]
  {
    var a := Zero(8)[..0] + g[..dc] + Zero(8)[dc..];
    assert a[..8 - (|g| - dc)] == g[..dc] + Zero(8 - |g|);
  }

  /** A text has one value at most. */
  lemma DenotesOnce(s: string, g: seq<word>, g': seq<word>)
    requires Denotes(s, g) && Denotes(s, g')
    ensures g == g'
  {
    ReadExact(s, g);
    ReadExact(s, g');
  }

  lemma SameBytes(a: seq<byte>, b: seq<byte>)
    requires |a| == 16 && |b| == 16 && GroupsOf(a) == GroupsOf(b)
    ensures a == b
  {
    forall i | 0 <= i < 16 ensures a[i] == b[i] {
      assert GroupsOf(a)[i / 2] == GroupsOf(b)[i / 2];
      assert i == 2 * (i / 2) || i == 2 * (i / 2) + 1;
    }
  }

  /** Group k is bytes 2k and 2k + 1, in network byte order. */
  lemma GroupBytes(a: seq<byte>, k: nat)
    requires |a| == 16 && k < 8
    ensures GroupsOf(a)[k] == (a[2 * k] as int) * 256 + a[2 * k + 1]
  {}

  /** Each digit is written behind those of the higher part. */
  lemma HexMore(v: nat, d: nat)
    requires d < 16
    ensures Hex(v * 16 + d) == (if v == 0 then "" else Hex(v)) + [Digit(d)]
  {
    hide Hex, Digit;
    HexDef(v * 16 + d);
    assert (v * 16 + d) / 16 == v && (v * 16 + d) % 16 == d;
  }

  lemma Digits16(h: nat)
    requires h < 16
    ensures Digit(h) == "0123456789abcdef"[h]
  {}

  lemma ValFour(a: char, b: char, c: char, d: char)
    requires IsHex(a) && IsHex(b) && IsHex(c) && IsHex(d)
    ensures GroupText([a, b, c, d])
    ensures ValOf([a, b, c, d]) == ((HexVal(a) * 16 + HexVal(b)) * 16 + HexVal(c)) * 16 + HexVal(d)
  {
    hide Val, HexVal;
    ValNone();
    ValLast("", a);
    ValLast([a], b);
    ValLast([a, b], c);
    ValLast([a, b, c], d);
    assert [] + [a] == [a] && [a] + [b] == [a, b] && [a, b] + [c] == [a, b, c] && [a, b, c] + [d] == [a, b, c, d];
  }

  /** An example, with every digit but four: what stands where in the 16 bytes. */
  method Sample(out: array<byte>) returns (ok: bool)
    requires out.Length == 16
    modifies out
    ensures ok && out[..] == [0xfe, 0x80, 0, 0, 0, 0, 0, 0, 0x12, 0x34, 0x56, 0x78, 0x9a, 0xbc, 0xde, 0xf0]
  {
    hide Denotes, GroupsOf;
    ok := Parse("fe80::1234:5678:9abc:DEF0", out);
    ghost var a := [0xfe, 0x80, 0, 0, 0, 0, 0, 0, 0x12, 0x34, 0x56, 0x78, 0x9a, 0xbc, 0xde, 0xf0];
    SampleDenotes(a);
    DenotesOnce("fe80::1234:5678:9abc:DEF0", GroupsOf(a), GroupsOf(out[..]));
    SameBytes(a, out[..]);
  }

  lemma SampleDenotes(a: seq<byte>)
    requires a == [0xfe, 0x80, 0, 0, 0, 0, 0, 0, 0x12, 0x34, 0x56, 0x78, 0x9a, 0xbc, 0xde, 0xf0]
    ensures Denotes("fe80::1234:5678:9abc:DEF0", GroupsOf(a))
  {
    hide GroupsOf, ValOf, Vals, Joined, Texts, GroupText, Denotes;
    ValFour('f', 'e', '8', '0');
    ValFour('1', '2', '3', '4');
    ValFour('5', '6', '7', '8');
    ValFour('9', 'a', 'b', 'c');
    ValFour('D', 'E', 'F', '0');
    var l, r := ["fe80"], ["1234", "5678", "9abc", "DEF0"];
    SampleTexts("fe80", "1234", "5678", "9abc", "DEF0");
    assert Joined(l) + "::" + Joined(r) == "fe80::1234:5678:9abc:DEF0";
    SampleGroups(a);
    assert Vals(l) + Zero(8 - |l| - |r|) + Vals(r) == [0xfe80, 0, 0, 0, 0x1234, 0x5678, 0x9abc, 0xdef0];
    DenotesPair(l, r);
  }

  lemma DenotesPair(l: seq<string>, r: seq<string>)
    requires Texts(l) && Texts(r) && |l| + |r| <= 7
    ensures Denotes(Joined(l) + "::" + Joined(r), Vals(l) + Zero(8 - |l| - |r|) + Vals(r))
  {}

  lemma SampleGroups(a: seq<byte>)
    requires a == [0xfe, 0x80, 0, 0, 0, 0, 0, 0, 0x12, 0x34, 0x56, 0x78, 0x9a, 0xbc, 0xde, 0xf0]
    ensures GroupsOf(a) == [0xfe80, 0, 0, 0, 0x1234, 0x5678, 0x9abc, 0xdef0]
  {}

  lemma SampleTexts(z: string, a: string, b: string, c: string, d: string)
    requires GroupText(z) && GroupText(a) && GroupText(b) && GroupText(c) && GroupText(d)
    ensures Texts([z]) && Vals([z]) == [ValOf(z)] && Joined([z]) == z
    ensures Texts([a, b, c, d]) && Vals([a, b, c, d]) == [ValOf(a), ValOf(b), ValOf(c), ValOf(d)]
    ensures Joined([a, b, c, d]) == a + ":" + (b + ":" + (c + ":" + d))
  {
    hide ValOf, Vals, GroupText, Joined, Texts;
    NoTexts();
    TextsCons(z, []);
    TextsCons(d, []);
    TextsCons(c, [d]);
    TextsCons(b, [c, d]);
    TextsCons(a, [b, c, d]);
    assert [z] + [] == [z] && [d] + [] == [d] && [c] + [d] == [c, d] && [b] + [c, d] == [b, c, d];
    assert [a] + [b, c, d] == [a, b, c, d];
  }

  /** Parsing what was formatted gives the address back. */
  method RoundTrip(a: seq<byte>, cap: nat, out: array<byte>) returns (text: string, ok: bool)
    requires |a| == 16 && cap >= 40 && out.Length == 16
    modifies out
    ensures ok && out[..] == a
  {
    hide Denotes, Canonical, GroupsOf;
    text := Format(a, cap);
    CanonicalDenotes(GroupsOf(a), text);
    ok := Parse(text, out);
    DenotesOnce(text, GroupsOf(a), GroupsOf(out[..]));
    SameBytes(a, out[..]);
  }
}
