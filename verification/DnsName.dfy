/** DNS names, kernel/net.cpp: dns_qname writes a name as labels, dns_read_name reads one back
    through compression pointers, dns_skip_name steps over one. */
module DnsName {
  import opened Basics

  const DOT: byte := 46
  const MAX_JUMPS: nat := 12

  type Label = seq<byte>

  predicate LabelOk(l: Label) { 0 < |l| <= 63 }

  predicate LabelsOk(ls: seq<Label>) { forall i :: 0 <= i < |ls| ==> LabelOk(ls[i]) }

  /** The wire form: every label after its length, then a zero byte. */
  function Encoded(ls: seq<Label>): seq<byte>
    requires LabelsOk(ls)
  {
    if ls == [] then [0] else [|ls[0]| as byte] + ls[0] + Encoded(ls[1..])
  }

  /** The name as text, a dot after every label. */
  function Dotted(ls: seq<Label>): seq<byte> {
    if ls == [] then [] else ls[0] + [DOT] + Dotted(ls[1..])
  }

  // ---- writing ----

  /** The length of the first label of a name. */
  function Cut(name: seq<byte>): (n: nat)
    ensures n <= |name| && (n < |name| ==> name[n] == DOT) && forall i :: 0 <= i < n ==> name[i] != DOT
  {
    if name == [] || name[0] == DOT then 0 else 1 + Cut(name[1..])
  }

  /** What follows the first label. */
  function Tail(name: seq<byte>): (t: seq<byte>)
    ensures name != [] ==> |t| < |name|
  {
    var n := Cut(name);
    if n < |name| then name[n + 1..] else []
  }

  /** The labels dns_qname takes from a name when n bytes are already written: empty labels and
      labels over 63 bytes are dropped, and nothing is begun after byte 249. */
  function Kept(name: seq<byte>, n: nat): (ls: seq<Label>)
    ensures LabelsOk(ls)
    decreases |name|
  {
    if name == [] || n >= 250 then []
    else
      var l := name[..Cut(name)];
      if LabelOk(l) then [l] + Kept(Tail(name), n + 1 + |l|) else Kept(Tail(name), n)
  }

  lemma {:induction false} EncodedLast(ls: seq<Label>, l: Label)
    requires LabelsOk(ls) && LabelOk(l)
    ensures LabelsOk(ls + [l])
    ensures Body(ls + [l]) == Body(ls) + [|l| as byte] + l
  {
    if ls == [] {
      assert Body([l]) == [|l| as byte] + l + Body([]);
      assert [] + [l] == [l];
    } else {
      EncodedLast(ls[1..], l);
      assert (ls + [l])[1..] == ls[1..] + [l];
    }
  }

  /** Encoded without its final zero. */
  function Body(ls: seq<Label>): seq<byte>
    requires LabelsOk(ls)
  {
    if ls == [] then [] else [|ls[0]| as byte] + ls[0] + Body(ls[1..])
  }

  lemma {:induction false} BodyEncoded(ls: seq<Label>)
    requires LabelsOk(ls)
    ensures Encoded(ls) == Body(ls) + [0]
  {
    if ls != [] { BodyEncoded(ls[1..]); }
  }

  /** The end of the label that starts at position at. */
  method LabelEnd(name: seq<byte>, at: nat) returns (p: nat)
    requires at <= |name|
    ensures at <= p <= |name| && p - at == Cut(name[at..])
  {
    p := at;
    while p < |name| && name[p] != DOT
      invariant at <= p <= |name|
      invariant forall i :: at <= i < p ==> name[i] != DOT
    {
      p := p + 1;
    }
    assert forall i :: 0 <= i < p - at ==> name[at..][i] != DOT;
    assert p < |name| ==> name[at..][p - at] == DOT;
  }

  lemma KeptDef(name: seq<byte>, n: nat)
    requires name != [] && n < 250
    ensures var l := name[..Cut(name)];
      Kept(name, n) == if LabelOk(l) then [l] + Kept(Tail(name), n + 1 + |l|) else Kept(Tail(name), n)
  {
  }

  /** One turn of Kept at position at, whose label ends at p. */
  lemma KeptOnce(name: seq<byte>, at: nat, p: nat, n: nat)
    requires at < |name| && n < 250 && p - at == Cut(name[at..])
    ensures at <= p <= |name|
    ensures var rest := name[if p < |name| then p + 1 else p..];
      Kept(name[at..], n) == if LabelOk(name[at..p]) then [name[at..p]] + Kept(rest, n + 1 + (p - at))
        else Kept(rest, n)
  {
    hide Kept;
    KeptDef(name[at..], n);
    assert name[at..][..p - at] == name[at..p];
    assert Tail(name[at..]) == name[if p < |name| then p + 1 else p..];
  }

  /** dns_qname. */
  method Qname(name: seq<byte>) returns (out: seq<byte>)
    ensures out == Encoded(Kept(name, 0))
  {
    hide Kept, Cut, Body, Encoded;
    out := [];
    var at := 0;
    ghost var done: seq<Label> := [];
    assert name[0..] == name;
    NoLabels();
    while at < |name| && |out| < 250
      invariant 0 <= at <= |name| && LabelsOk(done)
      invariant out == Body(done) && Kept(name, 0) == done + Kept(name[at..], |out|)
      decreases |name| - at
    {
      var p := LabelEnd(name, at);
      KeptOnce(name, at, p, |out|);
      var l := name[at..p];
      if 0 < |l| <= 63 {
        EncodedLast(done, l);
        SnocJoin(done, l, Kept(name[if p < |name| then p + 1 else p..], |out| + 1 + |l|));
        done := done + [l];
        out := out + [|l| as byte] + l;
      }
      at := if p < |name| then p + 1 else p;
    }
    KeptNone(name[at..], |out|);
    assert done + [] == done;
    BodyEncoded(done);
    out := out + [0];
  }

  lemma SnocJoin(a: seq<Label>, l: Label, b: seq<Label>)
    ensures a + ([l] + b) == a + [l] + b
  {}

  lemma NoLabels()
    ensures Body([]) == [] && Encoded([]) == [0]
  {
  }

  lemma KeptNone(name: seq<byte>, n: nat)
    requires name == [] || n >= 250
    ensures Kept(name, n) == []
  {
  }

  /** Labels joined by dots, as a user writes a name. */
  function Joined(ls: seq<Label>): seq<byte> {
    if ls == [] then [] else if |ls| == 1 then ls[0] else ls[0] + [DOT] + Joined(ls[1..])
  }

  lemma CutAt(l: Label, t: seq<byte>)
    requires DOT !in l && (t == [] || t[0] == DOT)
    ensures Cut(l + t) == |l| && (l + t)[..|l|] == l && Tail(l + t) == if t == [] then [] else t[1..]
  {
    assert forall i :: 0 <= i < |l| ==> (l + t)[i] == l[i] && l[i] in l;
    assert t != [] ==> (l + t)[|l|] == DOT;
  }

  lemma KeptFirst(l: Label, t: seq<byte>, n: nat)
    requires DOT !in l && LabelOk(l) && (t == [] || t[0] == DOT) && n < 250
    ensures Kept(l + t, n) == [l] + Kept(if t == [] then [] else t[1..], n + 1 + |l|)
  {
    hide Kept, Cut, Tail;
    CutAt(l, t);
    KeptDef(l + t, n);
  }

  /** A label that is empty or has more than 63 bytes is left out, and nothing is begun from byte 250 on. */
  lemma KeptSkips(l: Label, t: seq<byte>, n: nat)
    requires 46 !in l && (l == [] || |l| > 63)
    ensures n < 250 ==> Kept(l + [46] + t, n) == Kept(t, n)
    ensures n >= 250 ==> Kept(l + [46] + t, n) == []
  {
    hide Kept, Cut, Tail;
    var name := l + ([46] + t);
    assert name == l + [46] + t;
    CutAt(l, [46] + t);
    assert ([46] + t)[1..] == t;
    if n < 250 { KeptDef(name, n); } else { KeptNone(name, n); }
  }

  /** A name of sound labels is taken label by label, with or without a final dot, up to 250 bytes. */
  lemma {:induction false} KeptJoined(ls: seq<Label>, n: nat, dot: bool)
    requires forall i :: 0 <= i < |ls| ==> 0 < |ls[i]| <= 63 && 46 !in ls[i]
    requires n + |Joined(ls)| <= 250
    ensures Kept(Joined(ls) + (if dot && ls != [] then [DOT] else []), n) == ls
  {
    hide Kept;
    if ls == [] {
      KeptNone([], n);
    } else {
      var last := if dot then [DOT] else [];
      var l, more := ls[0], ls[1..];
      assert LabelOk(l) && ls == [l] + more;
      if more == [] {
        assert Joined(ls) == l;
        KeptFirst(l, last, n);
        KeptNone([], n + 1 + |l|);
        assert dot ==> last[1..] == [];
        assert [l] + [] == ls;
      } else {
        assert Joined(ls) + last == l + ([DOT] + (Joined(more) + last));
        KeptFirst(l, [DOT] + (Joined(more) + last), n);
        assert ([DOT] + (Joined(more) + last))[1..] == Joined(more) + last;
        KeptJoined(more, n + 1 + |l|, dot);
      }
    }
  }

  // ---- reading ----

  /** A read past the end of the message gives zero. */
  function At(d: seq<byte>, i: nat): byte { if i < |d| then d[i] else 0 }

  /** The target of the compression pointer at cur. */
  function Target(d: seq<byte>, cur: nat): nat { At(d, cur) % 64 * 256 + At(d, cur + 1) }

  /** The labels of the name at cur, following at most j pointers; None when there is no such name.
      Any of the two top bits of a length byte makes it a pointer. */
  function Names(d: seq<byte>, limit: nat, cur: nat, j: nat): (r: Option<seq<Label>>)
    requires limit <= |d|
    ensures r.Some? ==> LabelsOk(r.value)
    decreases j, limit - cur
  {
    if cur >= limit then None
    else if d[cur] >= 64 then (if j == 0 || cur + 1 >= limit then None else Names(d, limit, Target(d, cur), j - 1))
    else if d[cur] == 0 then Some([])
    else if cur + 1 + d[cur] > limit then None
    else
      var rest := Names(d, limit, cur + 1 + d[cur], j);
      if rest == None then None else Some([d[cur + 1 .. cur + 1 + d[cur]]] + rest.value)
  }

  /** Where the name at pos ends in the message itself; -1 when it runs past the limit. */
  function Skipped(d: seq<byte>, limit: nat, pos: nat): (r: int)
    requires limit <= |d|
    ensures r == -1 || pos < r <= limit + 1
    decreases limit - pos
  {
    if pos >= limit then -1
    else if d[pos] >= 64 then pos + 2
    else if d[pos] == 0 then pos + 1
    else Skipped(d, limit, pos + 1 + d[pos])
  }

  /** dns_skip_name; its jump counter never gets past one. */
  method SkipName(d: seq<byte>, pos0: int, limit: nat) returns (pos: int)
    requires limit <= |d|
    ensures pos == if pos0 < 0 then -1 else Skipped(d, limit, pos0)
  {
    pos := pos0;
    var jumps := 0;
    while true
      invariant jumps == 0 && (pos0 < 0 ==> pos == pos0)
      invariant pos0 >= 0 ==> pos >= 0 && Skipped(d, limit, pos0) == Skipped(d, limit, pos)
      decreases limit - pos
    {
      if pos < 0 || pos >= limit { return -1; }
      var b := d[pos];
      if b >= 64 {
        jumps := jumps + 1;
        if jumps > MAX_JUMPS { return -1; }
        return pos + 2;
      }
      if b == 0 { return pos + 1; }
      pos := pos + 1 + b;
    }
  }

  lemma {:induction false} DottedJoin(a: seq<Label>, b: seq<Label>)
    ensures Dotted(a + b) == Dotted(a) + Dotted(b)
  {
    if a == [] {
      assert a + b == b;
    } else {
      assert (a + b)[1..] == a[1..] + b;
      DottedJoin(a[1..], b);
    }
  }

  lemma DottedOne(a: seq<Label>, l: Label)
    ensures Dotted(a + [l]) == Dotted(a) + l + [DOT]
  {
    DottedJoin(a, [l]);
    assert Dotted([l]) == l + [DOT] + Dotted([]);
  }

  /** Copies the label of b bytes after cur, as far as the buffer allows. */
  method CopyLabel(d: seq<byte>, cur: nat, b: nat, out0: seq<byte>, cap: int) returns (ok: bool, out: seq<byte>)
    requires cur + 1 + b <= |d| && b > 0
    ensures ok <==> |out0| + b <= cap - 1
    ensures ok ==> out == out0 + d[cur + 1 .. cur + 1 + b]
  {
    out := out0;
    for i := 0 to b
      invariant out == out0 + d[cur + 1 .. cur + 1 + i]
      invariant i > 0 ==> |out| <= cap - 1
    {
      if |out| >= cap - 1 { return false, out; }
      out := out + [d[cur + 1 + i]];
    }
    ok := true;
  }

  /** The name at pos is done, then whatever is at cur with j pointers left. */
  ghost predicate Ahead(d: seq<byte>, limit: nat, pos: nat, done: seq<Label>, cur: nat, j: nat)
    requires limit <= |d|
  {
    var r := Names(d, limit, cur, j);
    Names(d, limit, pos, MAX_JUMPS) == if r == None then None else Some(done + r.value)
  }

  lemma AheadStart(d: seq<byte>, limit: nat, pos: nat)
    requires limit <= |d|
    ensures Ahead(d, limit, pos, [], pos, MAX_JUMPS)
  {
    var r := Names(d, limit, pos, MAX_JUMPS);
    assert r.Some? ==> [] + r.value == r.value;
  }

  lemma AheadJump(d: seq<byte>, limit: nat, pos: nat, done: seq<Label>, cur: nat, j: nat)
    requires limit <= |d| && Ahead(d, limit, pos, done, cur, j) && cur + 1 < limit && d[cur] >= 64 && j > 0
    ensures Ahead(d, limit, pos, done, Target(d, cur), j - 1)
  {
  }

  lemma AheadLabel(d: seq<byte>, limit: nat, pos: nat, done: seq<Label>, cur: nat, j: nat)
    requires limit <= |d| && Ahead(d, limit, pos, done, cur, j) && cur < limit && 0 < d[cur] < 64 &&
      cur + 1 + d[cur] <= limit
    ensures Ahead(d, limit, pos, done + [d[cur + 1 .. cur + 1 + d[cur]]], cur + 1 + d[cur], j)
    ensures var name := Names(d, limit, pos, MAX_JUMPS);
      name.Some? ==> name.value != [] && |Dotted(name.value)| >= |Dotted(done)| + d[cur] + 1
  {
    var l := d[cur + 1 .. cur + 1 + d[cur]];
    var rest := Names(d, limit, cur + 1 + d[cur], j);
    if rest.Some? {
      assert done + ([l] + rest.value) == (done + [l]) + rest.value;
      DottedJoin(done + [l], rest.value);
      DottedOne(done, l);
    }
  }

  /** Why the name at cur cannot be read, or that it ends here. */
  lemma AheadEnd(d: seq<byte>, limit: nat, pos: nat, done: seq<Label>, cur: nat, j: nat)
    requires limit <= |d| && Ahead(d, limit, pos, done, cur, j)
    ensures cur >= limit ==> Names(d, limit, pos, MAX_JUMPS) == None
    ensures cur < limit && d[cur] >= 64 && (j == 0 || cur + 1 >= limit) ==> Names(d, limit, pos, MAX_JUMPS) == None
    ensures cur < limit && 0 < d[cur] < 64 && cur + 1 + d[cur] > limit ==> Names(d, limit, pos, MAX_JUMPS) == None
    ensures cur < limit && d[cur] == 0 ==> Names(d, limit, pos, MAX_JUMPS) == Some(done)
  {
    assert done + [] == done;
  }

  lemma SkippedOnce(d: seq<byte>, limit: nat, cur: nat)
    requires limit <= |d| && cur < limit
    ensures Skipped(d, limit, cur) ==
      if d[cur] >= 64 then cur + 2 else if d[cur] == 0 then cur + 1 else Skipped(d, limit, cur + 1 + d[cur])
  {
  }

  /** dns_read_name: reads exactly the names that are laid out in the message with at most twelve
      pointers and fit the buffer, and then stops where dns_skip_name does. */
  method ReadName(d: seq<byte>, pos: int, limit: nat, cap: int) returns (after: int, out: seq<byte>)
    requires limit <= |d|
    ensures after >= 0 <==>
      && pos >= 0 && Names(d, limit, pos, MAX_JUMPS).Some?
      && var ls := Names(d, limit, pos, MAX_JUMPS).value; ls == [] || |Dotted(ls)| < cap
    ensures after >= 0 ==> out == Dotted(Names(d, limit, pos, MAX_JUMPS).value) && after == Skipped(d, limit, pos)
  {
    hide Names, Skipped, Dotted, Target, Ahead;
    out, after := [], pos;
    if pos < 0 { return -1, []; }
    var jumps, cur, jumped := 0, pos, false;
    ghost var done: seq<Label> := [];
    AheadStart(d, limit, pos);
    NoDots();
    while true
      invariant 0 <= jumps <= MAX_JUMPS && cur >= 0 && out == Dotted(done)
      invariant Ahead(d, limit, pos, done, cur, MAX_JUMPS - jumps)
      invariant if jumped then after == Skipped(d, limit, pos) && after >= 0
        else Skipped(d, limit, pos) == Skipped(d, limit, cur)
      invariant done == [] || |out| <= cap - 1
      decreases MAX_JUMPS - jumps, limit - cur
    {
      AheadEnd(d, limit, pos, done, cur, MAX_JUMPS - jumps);
      if cur + 1 > limit { return -1, []; }
      SkippedOnce(d, limit, cur);
      var blen := d[cur];
      if blen >= 64 {
        jumps := jumps + 1;
        if jumps > MAX_JUMPS { return -1, []; }
        if cur + 1 >= limit { return -1, []; }
        if !jumped { after, jumped := cur + 2, true; }
        AheadJump(d, limit, pos, done, cur, MAX_JUMPS - jumps + 1);
        cur := Target(d, cur);
        continue;
      }
      if blen == 0 {
        if !jumped { after := cur + 1; }
        return;
      }
      if cur + 1 + blen > limit { return -1, []; }
      AheadLabel(d, limit, pos, done, cur, MAX_JUMPS - jumps);
      DottedOne(done, d[cur + 1 .. cur + 1 + blen]);
      var ok, more := CopyLabel(d, cur, blen, out, cap);
      if !ok || |more| >= cap - 1 { return -1, []; }
      out := more + [DOT];
      done := done + [d[cur + 1 .. cur + 1 + blen]];
      cur := cur + 1 + blen;
    }
  }

  lemma NoDots()
    ensures Dotted([]) == []
  {
  }

  // ---- names in a message ----

  /** The bytes are in the message from p on, below the limit. */
  predicate Holds(d: seq<byte>, limit: nat, p: nat, bytes: seq<byte>) {
    limit <= |d| && p + |bytes| <= limit && d[p .. p + |bytes|] == bytes
  }

  lemma HoldsLabel(d: seq<byte>, limit: nat, p: nat, l: Label, rest: seq<byte>)
    requires LabelOk(l) && Holds(d, limit, p, [|l| as byte] + l + rest)
    ensures p < limit && d[p] == |l| && p + 1 + |l| <= limit && d[p + 1 .. p + 1 + |l|] == l
    ensures Holds(d, limit, p + 1 + |l|, rest)
  {
    var b := [|l| as byte] + l + rest;
    assert b[0] == |l| && b[1 .. 1 + |l|] == l && b[1 + |l|..] == rest;
    SliceOf(d, p, b, 0, 1);
    SliceOf(d, p, b, 1, 1 + |l|);
    SliceOf(d, p, b, 1 + |l|, |b|);
    assert d[p] == d[p .. p + 1][0];
  }

  lemma SliceOf(d: seq<byte>, p: nat, b: seq<byte>, x: nat, y: nat)
    requires x <= y <= |b| && p + |b| <= |d| && d[p .. p + |b|] == b
    ensures d[p + x .. p + y] == b[x .. y]
  {
    forall i | 0 <= i < y - x ensures d[p + x .. p + y][i] == b[x .. y][i] {
      assert d[p + x + i] == d[p .. p + |b|][x + i];
    }
  }

  /** One label. */
  lemma NamesLabel(d: seq<byte>, limit: nat, p: nat, l: Label, j: nat)
    requires LabelOk(l) && p + 1 + |l| <= limit <= |d| && d[p] == |l| && d[p + 1 .. p + 1 + |l|] == l
    ensures var rest := Names(d, limit, p + 1 + |l|, j);
      Names(d, limit, p, j) == if rest == None then None else Some([l] + rest.value)
    ensures Skipped(d, limit, p) == Skipped(d, limit, p + 1 + |l|)
  {
  }

  lemma BodyFirst(ls: seq<Label>)
    requires LabelsOk(ls) && ls != []
    ensures LabelOk(ls[0]) && LabelsOk(ls[1..]) && Body(ls) == [|ls[0]| as byte] + ls[0] + Body(ls[1..])
  {
  }

  /** Labels laid out at p are read before whatever follows them. */
  lemma {:induction false} NamesBody(d: seq<byte>, limit: nat, p: nat, pre: seq<Label>, j: nat)
    requires LabelsOk(pre) && Holds(d, limit, p, Body(pre))
    ensures var rest := Names(d, limit, p + |Body(pre)|, j);
      Names(d, limit, p, j) == if rest == None then None else Some(pre + rest.value)
    ensures Skipped(d, limit, p) == Skipped(d, limit, p + |Body(pre)|)
    decreases |pre|
  {
    hide Names, Skipped, Body;
    if pre == [] {
      NoLabels();
      var r := Names(d, limit, p, j);
      assert r.Some? ==> pre + r.value == r.value;
    } else {
      BodyFirst(pre);
      var l, more := pre[0], pre[1..];
      HoldsLabel(d, limit, p, l, Body(more));
      NamesLabel(d, limit, p, l, j);
      NamesBody(d, limit, p + 1 + |l|, more, j);
      var rest := Names(d, limit, p + |Body(pre)|, j);
      assert rest.Some? ==> [l] + (more + rest.value) == pre + rest.value;
    }
  }

  lemma NamesEnd(d: seq<byte>, limit: nat, e: nat, j: nat)
    requires e < limit <= |d| && d[e] == 0
    ensures Names(d, limit, e, j) == Some([]) && Skipped(d, limit, e) == e + 1
  {
  }

  /** An encoded name is read as its labels, and skipped as a whole. */
  lemma NamesEncoded(d: seq<byte>, limit: nat, p: nat, ls: seq<Label>, j: nat)
    requires LabelsOk(ls) && Holds(d, limit, p, Encoded(ls))
    ensures Names(d, limit, p, j) == Some(ls) && Skipped(d, limit, p) == p + |Encoded(ls)|
  {
    hide Names, Skipped, Body, Encoded;
    BodyEncoded(ls);
    var e := p + |Body(ls)|;
    assert d[p .. e] == d[p .. e + 1][..|Body(ls)|] == Body(ls);
    assert d[e] == d[p .. e + 1][|Body(ls)|] == 0;
    NamesBody(d, limit, p, ls, j);
    NamesEnd(d, limit, e, j);
    assert ls + [] == ls;
  }

  function Pointer(p: nat): seq<byte>
    requires p < 0x4000
  {
    [0xC0 + p / 256, p % 256]
  }

  lemma NamesPointer(d: seq<byte>, limit: nat, q: nat, p: nat, j: nat)
    requires p < 0x4000 && Holds(d, limit, q, Pointer(p)) && j > 0
    ensures Names(d, limit, q, j) == Names(d, limit, p, j - 1) && Skipped(d, limit, q) == q + 2
  {
    hide Names, Skipped;
    assert d[q] == d[q .. q + 2][0] && d[q + 1] == d[q .. q + 2][1];
    NamesJump(d, limit, q, j);
  }

  lemma NamesJump(d: seq<byte>, limit: nat, q: nat, j: nat)
    requires q + 1 < limit <= |d| && d[q] >= 64 && j > 0
    ensures Names(d, limit, q, j) == Names(d, limit, Target(d, q), j - 1) && Skipped(d, limit, q) == q + 2
  {}

  /** A compressed name: some labels of its own, then a pointer to a name read with j pointers. */
  lemma NamesCompressed(d: seq<byte>, limit: nat, q: nat, pre: seq<Label>, p: nat, ls: seq<Label>, j: nat)
    requires LabelsOk(pre) && p < 0x4000 && Holds(d, limit, q, Body(pre) + Pointer(p))
    requires Names(d, limit, p, j) == Some(ls)
    ensures Names(d, limit, q, j + 1) == Some(pre + ls) && Skipped(d, limit, q) == q + |Body(pre)| + 2
  {
    hide Names, Skipped, Body;
    var e := q + |Body(pre)|;
    assert d[q .. e] == d[q .. e + 2][..|Body(pre)|] == Body(pre);
    assert d[e .. e + 2] == d[q .. e + 2][|Body(pre)|..] == Pointer(p);
    NamesPointer(d, limit, e, p, j + 1);
    NamesBody(d, limit, q, pre, j + 1);
  }

  /** Every position but the last holds a pointer to the next. */
  predicate Chain(d: seq<byte>, limit: nat, ps: seq<nat>) {
    limit <= |d| && forall i :: 0 <= i < |ps| - 1 ==> Hop(d, limit, ps, i)
  }

  predicate Hop(d: seq<byte>, limit: nat, ps: seq<nat>, i: nat)
    requires limit <= |d| && i + 1 < |ps|
  {
    ps[i] + 1 < limit && d[ps[i]] >= 64 && Target(d, ps[i]) == ps[i + 1]
  }

  /** Chains of pointers: followed up to the allowance j, refused beyond it, whatever they form. */
  lemma {:induction false} NamesChain(d: seq<byte>, limit: nat, ps: seq<nat>, j: nat)
    requires ps != [] && Chain(d, limit, ps)
    ensures Names(d, limit, ps[0], j) == if |ps| - 1 > j then None else Names(d, limit, ps[|ps| - 1], j - (|ps| - 1))
    decreases |ps|
  {
    if |ps| > 1 {
      assert Hop(d, limit, ps, 0);
      if j > 0 {
        var t := ps[1..];
        forall i | 0 <= i < |t| - 1 ensures Hop(d, limit, t, i) { assert Hop(d, limit, ps, i + 1); }
        NamesChain(d, limit, t, j - 1);
      }
    }
  }

  /** More pointers allowed change nothing for a name that needs none. */
  lemma {:induction false} NamesMore(d: seq<byte>, limit: nat, cur: nat, j: nat)
    requires limit <= |d| && Names(d, limit, cur, 0).Some?
    ensures Names(d, limit, cur, j) == Names(d, limit, cur, 0)
    decreases limit - cur
  {
    if 0 < d[cur] < 64 { NamesMore(d, limit, cur + 1 + d[cur], j); }
  }

  /** A chain that ends in a name without pointers is read exactly when it has at most twelve. */
  lemma ChainLimit(d: seq<byte>, limit: nat, ps: seq<nat>)
    requires ps != [] && Chain(d, limit, ps) && Names(d, limit, ps[|ps| - 1], 0).Some?
    ensures Names(d, limit, ps[0], MAX_JUMPS).Some? <==> |ps| - 1 <= 12
  {
    hide Names;
    NamesChain(d, limit, ps, MAX_JUMPS);
    if |ps| - 1 <= 12 { NamesMore(d, limit, ps[|ps| - 1], 12 - (|ps| - 1)); }
  }

  /** A pointer to itself is refused. */
  lemma NamesLoop(d: seq<byte>, limit: nat, p: nat)
    requires limit <= |d| && p + 1 < limit && d[p] >= 64 && Target(d, p) == p
    ensures Names(d, limit, p, MAX_JUMPS) == None
  {
    var ps := seq(14, _ => p);
    forall i | 0 <= i < 13 ensures Hop(d, limit, ps, i) {}
    NamesChain(d, limit, ps, MAX_JUMPS);
  }

  lemma {:induction false} DottedJoined(ls: seq<Label>)
    ensures Dotted(ls) == if ls == [] then [] else Joined(ls) + [DOT]
  {
    if ls != [] {
      DottedJoined(ls[1..]);
      if |ls| > 1 { assert ls[0] + [DOT] + (Joined(ls[1..]) + [DOT]) == Joined(ls) + [DOT]; }
    }
  }

  /** Writing a name and reading it back gives the name with one dot at its end. */
  method RoundTrip(ls: seq<Label>, dot: bool, cap: int) returns (q: seq<byte>, after: int, text: seq<byte>)
    requires forall i :: 0 <= i < |ls| ==> 0 < |ls[i]| <= 63 && 46 !in ls[i]
    requires ls != [] && |Joined(ls)| <= 250 && cap >= |Joined(ls)| + 2
    ensures after == |q| && text == Joined(ls) + [46]
  {
    hide Kept, Names, Skipped, Encoded, Joined, Dotted;
    KeptJoined(ls, 0, dot);
    q := Qname(Joined(ls) + if dot then [DOT] else []);
    assert q == Encoded(ls) && q[0 .. |q|] == q;
    NamesEncoded(q, |q|, 0, ls, MAX_JUMPS);
    DottedJoined(ls);
    after, text := ReadName(q, 0, |q|, cap);
  }
}
