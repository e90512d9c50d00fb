/** The shell's current directory, kernel/shell.cpp: cd changes an inode number and, by lexical
    normalisation, the path text shown for it. The two must name the same directory. */
module ShellCd {
  import opened Basics
  import opened FsModel
  import opened FsTree
  import opened FsPath
  import opened FsCreate
  import opened FsWalks
  import opened FsCore

  const MAX_SEG: nat := 19
  const MAX_DEPTH: nat := 16
  const MAX_TEXT: nat := 127

  /** Lexical normalisation: the stack of names after the components. */
  function Norm(stack: seq<string>, comps: seq<string>): seq<string>
    decreases |comps|
  {
    if comps == [] then stack else Norm(Step(stack, comps[0]), comps[1..])
  }

  function Step(stack: seq<string>, c: string): seq<string> {
    if c == "." then stack
    else if c == ".." then (if stack == [] then [] else stack[..|stack| - 1])
    else stack + [c]
  }

  // ---- normalisation agrees with the walk ----

  /** One component, walked and normalised. */
  lemma StepWalk(d: Disk, w: Places, rk: Ranks, stack: seq<string>, x: nat, c: string, y: nat)
    requires Tree(d, w, rk) && NoDots(stack) && Walk(d, ROOT, stack) == Some(x) && Walk(d, x, [c]) == Some(y)
    ensures NoDots(Step(stack, c)) && Walk(d, ROOT, Step(stack, c)) == Some(y)
  {
    hide Tree, Walk;
    WalkNowhere(d, ROOT);
    if c == ".." {
      WalkDir(d, x, c);
      WalkUp(d, w, rk, x);
      if stack == [] {
        RootUnnamed(d, w, rk);
      } else {
        var p := WalkLast(d, ROOT, stack, x);
        WalkName(d, w, rk, p, stack[|stack| - 1], x);
      }
    } else if c == "." {
      WalkDot(d, x);
    } else {
      WalkAppend(d, ROOT, stack, [c]);
    }
  }

  lemma WalkDot(d: Disk, x: nat)
    ensures Walk(d, x, ["."]) == Some(x)
  {
    assert ["."][1..] == [];
  }

  lemma RootUnnamed(d: Disk, w: Places, rk: Ranks)
    requires Tree(d, w, rk)
    ensures ParentOf(w, ROOT) == ROOT
  {}

  /** Walking on from a directory ends where the normalised path leads from the root. */
  lemma {:induction false} NormWalk(d: Disk, w: Places, rk: Ranks, stack: seq<string>, x: nat, comps: seq<string>,
      y: nat)
    requires Tree(d, w, rk) && NoDots(stack) && Walk(d, ROOT, stack) == Some(x) && Walk(d, x, comps) == Some(y)
    ensures NoDots(Norm(stack, comps)) && Walk(d, ROOT, Norm(stack, comps)) == Some(y)
    decreases |comps|
  {
    if comps != [] {
      assert comps == [comps[0]] + comps[1..];
      WalkAppend(d, x, [comps[0]], comps[1..]);
      var m := Walk(d, x, [comps[0]]).value;
      StepWalk(d, w, rk, stack, x, comps[0], m);
      NormWalk(d, w, rk, Step(stack, comps[0]), m, comps[1..], y);
    }
  }

  // ---- the text ----

  /** The names, each after a slash. */
  function Slashed(stack: seq<string>): string {
    if stack == [] then "" else Slashed(stack[..|stack| - 1]) + "/" + stack[|stack| - 1]
  }

  function Render(stack: seq<string>): string { if stack == [] then "/" else Slashed(stack) }

  predicate Name(c: string) { 0 < |c| <= 31 && '/' !in c }

  predicate Names(stack: seq<string>) { forall c :: c in stack ==> Name(c) }

  lemma {:induction false} CompsNames(p: string)
    ensures Names(Comps(p))
    decreases |p|
  {
    if p != "" {
      if p[0] == '/' {
        CompsNames(p[1..]);
      } else {
        CompsNames(p[CompLen(p, 31)..]);
      }
    }
  }

  lemma {:induction false} CompsSlashed(stack: seq<string>)
    requires Names(stack)
    ensures Comps(Slashed(stack)) == stack
  {
    if stack != [] {
      var s, c := stack[..|stack| - 1], stack[|stack| - 1];
      CompsSlashed(s);
      CompsJoin(Slashed(s), c);
      assert c in stack;
      CompsName(c);
      assert stack == s + [c];
    }
  }

  lemma CompsRender(stack: seq<string>)
    requires Names(stack)
    ensures Comps(Render(stack)) == stack && Render(stack) != "" && Render(stack)[0] == '/'
  {
    CompsSlashed(stack);
    SlashedFirst(stack);
    if stack == [] { assert Comps("/") == Comps("/"[1..]); }
  }

  lemma {:induction false} SlashedFirst(stack: seq<string>)
    ensures stack != [] ==> Slashed(stack) != "" && Slashed(stack)[0] == '/'
  {
    if |stack| > 1 { SlashedFirst(stack[..|stack| - 1]); }
  }

  lemma {:induction false} NormNames(stack: seq<string>, comps: seq<string>)
    requires Names(stack) && Names(comps)
    ensures Names(Norm(stack, comps))
    decreases |comps|
  {
    if comps != [] { NormNames(Step(stack, comps[0]), comps[1..]); }
  }

  lemma {:induction false} NormPlain(stack: seq<string>, more: seq<string>)
    requires NoDots(more)
    ensures Norm(stack, more) == stack + more
    decreases |more|
  {
    if more == [] {
      assert stack + more == stack;
    } else {
      NormPlain(stack + [more[0]], more[1..]);
      assert stack + [more[0]] + more[1..] == stack + more;
    }
  }

  lemma {:induction false} NormConcat(stack: seq<string>, a: seq<string>, b: seq<string>)
    ensures Norm(stack, a + b) == Norm(Norm(stack, a), b)
    decreases |a|
  {
    if a == [] {
      assert a + b == b;
    } else {
      assert (a + b)[1..] == a[1..] + b;
      NormConcat(Step(stack, a[0]), a[1..], b);
    }
  }

  // ---- norm_join ----

  /** strncpy into a buffer of 128 bytes. */
  function Clipped(s: string): string { if |s| <= MAX_TEXT then s else s[..MAX_TEXT] }

  /** The working copy: the path itself, or the old text, a slash and the path if there is room. */
  function Working(cwdstr: string, path: string): string {
    if Absolute(path) then Clipped(path)
    else
      var u := Anchored(Clipped(cwdstr));
      if |u| + |path| + 1 < MAX_TEXT then u + path else u
  }

  function Anchored(t: string): string { if t != "" && t[|t| - 1] != '/' then t + "/" else t }

  /** One segment on a stack of at most sixteen. */
  function Push(stack: seq<string>, c: string): seq<string> {
    if c != "." && c != ".." && |stack| >= MAX_DEPTH then stack else Step(stack, c)
  }

  /** The stack after the text, cut into segments of at most 19 characters. */
  function Stacked(stack: seq<string>, p: string): seq<string>
    decreases |p|
  {
    if p == "" then stack
    else if p[0] == '/' then Stacked(stack, p[1..])
    else Stacked(Push(stack, p[..CompLen(p, MAX_SEG)]), p[CompLen(p, MAX_SEG)..])
  }

  lemma StackedName(stack: seq<string>, p: string)
    requires p != "" && p[0] != '/'
    ensures CompLen(p, MAX_SEG) > 0
    ensures Stacked(stack, p) == Stacked(Push(stack, p[..CompLen(p, MAX_SEG)]), p[CompLen(p, MAX_SEG)..])
  {
  }

  lemma StackedSlash(stack: seq<string>, p: string)
    requires p != "" && p[0] == '/'
    ensures Stacked(stack, p) == Stacked(stack, p[1..])
  {
  }

  /** Copies one segment. */
  method NextSeg(t: string, i: nat) returns (seg: string, j: nat)
    requires i < |t| && t[i] != '/'
    ensures i < j <= |t| && seg == t[i..j] && j - i == CompLen(t[i..], MAX_SEG)
  {
    j, seg := i, "";
    while j < |t| && t[j] != '/' && |seg| < MAX_SEG
      invariant i <= j <= |t| && seg == t[i..j] && |seg| <= MAX_SEG && '/' !in seg
      invariant j == i ==> j < |t|
    {
      seg := seg + [t[j]];
      j := j + 1;
    }
    assert t[i..][..j - i] == seg;
    assert j < |t| ==> t[i..][j - i] == t[j];
    CompLenIs(t[i..], MAX_SEG, j - i);
  }

  /** The segment loop of norm_join. */
  method StackSegments(t: string) returns (stack: seq<string>)
    ensures stack == Stacked([], t)
  {
    hide CompLen, Stacked;
    stack := [];
    var i := 0;
    assert t[0..] == t;
    while i < |t|
      invariant 0 <= i <= |t| && Stacked([], t) == Stacked(stack, t[i..])
      decreases |t| - i
    {
      while i < |t| && t[i] == '/'
        invariant 0 <= i <= |t| && Stacked([], t) == Stacked(stack, t[i..])
        decreases |t| - i
      {
        StackedSlash(stack, t[i..]);
        assert t[i..][1..] == t[i + 1..];
        i := i + 1;
      }
      if i == |t| { break; }
      StackedName(stack, t[i..]);
      var seg, j := NextSeg(t, i);
      assert t[i..][..j - i] == seg && t[i..][j - i..] == t[j..];
      i := j;
      if seg == "." { continue; }
      if seg == ".." {
        if |stack| > 0 { stack := stack[..|stack| - 1]; }
        continue;
      }
      if |stack| < MAX_DEPTH { stack := stack + [seg]; }
    }
    StackedEnd(stack);
    assert t[i..] == "";
  }

  /** norm_join. */
  method NormJoin(cwdstr: string, path: string) returns (out: string)
    ensures out == Clipped(Render(Stacked([], Working(cwdstr, path))))
  {
    hide Stacked, Working;
    var stack := StackSegments(Working(cwdstr, path));
    if |stack| == 0 { return "/"; }
    out := "";
    for k := 0 to |stack|
      invariant out == Slashed(stack[..k])
    {
      assert stack[..k + 1][..k] == stack[..k];
      out := out + "/" + stack[k];
    }
    assert stack[..|stack|] == stack;
    out := Clipped(out);
  }

  lemma StackedEnd(stack: seq<string>)
    ensures Stacked(stack, "") == stack
  {
  }

  // ---- when nothing is cut ----

  predicate Segments(comps: seq<string>) { forall i :: 0 <= i < |comps| ==> |comps[i]| <= MAX_SEG }

  /** The stack never has to hold more than sixteen names. */
  predicate Shallow(stack: seq<string>, comps: seq<string>)
    decreases |comps|
  {
    |stack| <= MAX_DEPTH && (comps == [] || Shallow(Step(stack, comps[0]), comps[1..]))
  }

  /** What norm_join has room for: names of at most 19 characters, sixteen levels, and less than
      127 characters of joined path. */
  predicate Roomy(cwdstr: string, path: string) {
    && Segments(Comps(cwdstr)) && Segments(Comps(path))
    && (if Absolute(path) then |path| < MAX_TEXT && Shallow([], Comps(path))
        else |Anchored(cwdstr)| + |path| + 1 < MAX_TEXT && Shallow(Comps(cwdstr), Comps(path)))
  }

  /** Short segments are the components. */
  lemma {:induction false} StackedNorm(stack: seq<string>, p: string)
    requires Segments(Comps(p)) && Shallow(stack, Comps(p))
    ensures Stacked(stack, p) == Norm(stack, Comps(p))
    decreases |p|
  {
    hide CompLen;
    if p != "" {
      if p[0] == '/' {
        StackedNorm(stack, p[1..]);
      } else {
        var n := CompLen(p, 31);
        assert Comps(p)[0] == p[..n] && Comps(p)[1..] == Comps(p[n..]);
        CompLenIs(p, MAX_SEG, n);
        StackedNorm(Step(stack, p[..n]), p[n..]);
      }
    }
  }

  lemma {:induction false} SlashedJoin(a: seq<string>, b: seq<string>)
    ensures |Slashed(a + b)| == |Slashed(a)| + |Slashed(b)|
    decreases |b|
  {
    if b == [] {
      assert a + b == a;
    } else {
      var m := b[..|b| - 1];
      assert (a + b)[..|a + b| - 1] == a + m;
      SlashedJoin(a, m);
    }
  }

  lemma SlashedOne(c: string)
    ensures |Slashed([c])| == 1 + |c|
  {
    assert [c][..0] == [];
  }

  /** The components and their slashes are no longer than the path. */
  lemma {:induction false} SlashedShort(p: string)
    requires Segments(Comps(p))
    ensures |Slashed(Comps(p))| <= |p| + if p == "" || p[0] == '/' then 0 else 1
    decreases |p|
  {
    hide CompLen, Slashed;
    SlashedNone();
    if p != "" {
      if p[0] == '/' {
        SlashedShort(p[1..]);
      } else {
        var n := CompLen(p, 31);
        assert Comps(p)[0] == p[..n] && Comps(p)[1..] == Comps(p[n..]);
        SlashedShort(p[n..]);
        SlashedJoin([p[..n]], Comps(p[n..]));
        SlashedOne(p[..n]);
      }
    }
  }

  lemma SlashedNone()
    ensures Slashed([]) == ""
  {
  }

  lemma {:induction false} NormShort(stack: seq<string>, comps: seq<string>)
    ensures |Slashed(Norm(stack, comps))| <= |Slashed(stack)| + |Slashed(comps)|
    decreases |comps|
  {
    hide Slashed;
    if comps != [] {
      var c := comps[0];
      assert comps == [c] + comps[1..];
      SlashedJoin([c], comps[1..]);
      SlashedOne(c);
      SlashedJoin(stack, [c]);
      if stack != [] {
        var l := stack[|stack| - 1];
        assert stack == stack[..|stack| - 1] + [l];
        SlashedJoin(stack[..|stack| - 1], [l]);
      }
      NormShort(Step(stack, c), comps[1..]);
    }
    SlashedNone();
  }

  /** The names cd leaves: from the root for an absolute path, else from where it was. */
  function CdNames(stack: seq<string>, path: string): seq<string> {
    Norm(if Absolute(path) then [] else stack, Comps(path))
  }

  /** The components of the working copy. */
  lemma WorkingComps(stack: seq<string>, path: string)
    requires Names(stack) && Roomy(Render(stack), path) && !Absolute(path)
    ensures var t := Working(Render(stack), path);
      Comps(t) == stack + Comps(path) && |t| < MAX_TEXT && t != "" && t[0] == '/'
  {
    hide Comps, Render, Segments, Shallow;
    CompsRender(stack);
    var r := Render(stack);
    assert Working(r, path) == Anchored(r) + path;
    assert Anchored(r)[0] == r[0];
    AnchoredComps(r, path);
  }

  lemma AnchoredComps(r: string, path: string)
    requires r != ""
    ensures Comps(Anchored(r) + path) == Comps(r) + Comps(path)
  {
    hide Comps;
    if r[|r| - 1] == '/' {
      var m := r[..|r| - 1];
      assert r == m + "/" + "" && r + path == m + "/" + path;
      CompsJoin(m, "");
      CompsJoin(m, path);
      CompsEmpty();
      assert Comps(m) + [] == Comps(m);
    } else {
      CompsJoin(r, path);
    }
  }

  lemma {:induction false} ShallowPlain(stack: seq<string>, more: seq<string>, comps: seq<string>)
    requires NoDots(more) && Shallow(stack + more, comps)
    ensures Shallow(stack, more + comps)
    decreases |more|
  {
    if more == [] {
      assert stack + more == stack && more + comps == comps;
    } else {
      assert |stack + more| <= MAX_DEPTH;
      assert (more + comps)[1..] == more[1..] + comps;
      assert stack + [more[0]] + more[1..] == stack + more;
      ShallowPlain(stack + [more[0]], more[1..], comps);
    }
  }

  /** With room, norm_join renders the normalised names. */
  lemma NormJoinIs(stack: seq<string>, path: string)
    requires Names(stack) && NoDots(stack) && Roomy(Render(stack), path)
    ensures Clipped(Render(Stacked([], Working(Render(stack), path)))) == Render(CdNames(stack, path))
  {
    hide CompLen, Stacked, Norm, Comps, Slashed;
    var t := Working(Render(stack), path);
    CompsRender(stack);
    if !Absolute(path) {
      WorkingComps(stack, path);
      assert [] + stack == stack;
      ShallowPlain([], stack, Comps(path));
      NormConcat([], stack, Comps(path));
      NormPlain([], stack);
    }
    StackedNorm([], t);
    SlashedShort(t);
    NormShort([], Comps(t));
    SlashedNone();
  }

  // ---- exactly when ----

  /** What norm_join writes. */
  function NewText(cwdstr: string, path: string): string { Clipped(Render(Stacked([], Working(cwdstr, path)))) }

  /** norm_join's text is the normalised path: a matter of the two texts alone. */
  predicate Faithful(cwdstr: string, path: string) {
    NewText(cwdstr, path) == Render(CdNames(Comps(cwdstr), path))
  }

  /** Names that norm_join leaves: at most sixteen of at most 19 characters. */
  predicate Kempt(stack: seq<string>) {
    Names(stack) && Segments(stack) && |stack| <= MAX_DEPTH
  }

  /** A text of such names, within its buffer. */
  predicate Tidy(cwdstr: string) { Segments(Comps(cwdstr)) && |Comps(cwdstr)| <= MAX_DEPTH && |cwdstr| <= MAX_TEXT }

  lemma {:induction false} StackedKempt(stack: seq<string>, p: string)
    requires Kempt(stack) && NoDots(stack)
    ensures Kempt(Stacked(stack, p)) && NoDots(Stacked(stack, p))
    decreases |p|
  {
    hide CompLen;
    if p != "" {
      if p[0] == '/' {
        StackedKempt(stack, p[1..]);
      } else {
        StackedName(stack, p);
        var c := p[..CompLen(p, MAX_SEG)];
        assert Kempt(Push(stack, c)) && NoDots(Push(stack, c));
        StackedKempt(Push(stack, c), p[CompLen(p, MAX_SEG)..]);
      }
    }
  }

  /** Cutting a text off leaves no more components, and no longer ones. */
  lemma {:induction false} CutComps(p: string, k: nat)
    requires k <= |p|
    ensures |Comps(p[..k])| <= |Comps(p)|
    ensures Segments(Comps(p)) ==> Segments(Comps(p[..k]))
    decreases |p|
  {
    hide CompLen;
    if k == 0 || p == "" {
      CompsEmpty();
      assert p[..k] == "";
    } else if p[0] == '/' {
      assert p[..k][1..] == p[1..][..k - 1];
      CutComps(p[1..], k - 1);
    } else {
      CutName(p, k);
    }
  }

  lemma {:induction false} CutName(p: string, k: nat)
    requires 0 < k <= |p| && p[0] != '/'
    ensures |Comps(p[..k])| <= |Comps(p)|
    ensures Segments(Comps(p)) ==> Segments(Comps(p[..k]))
    decreases |p|, 0
  {
    hide CompLen;
    var n, q := CompLen(p, 31), p[..k];
    var m := if k < n then k else n;
    assert '/' !in q[..m] by { assert q[..m] == p[..n][..m]; }
    CompLenIs(q, 31, m);
    FirstComp(p);
    FirstComp(q);
    if k <= n {
      assert q[m..] == "";
      CompsEmpty();
      assert |Comps(q)| == 1;
    } else {
      assert q[n..] == p[n..][..k - n];
      CutComps(p[n..], k - n);
    }
    assert Segments(Comps(p)) ==> |Comps(p)[0]| <= MAX_SEG && Segments(Comps(p)[1..]);
    assert q[..m] == p[..m];
  }

  /** What the components of the new text can be. */
  lemma NewTextComps(cwdstr: string, path: string)
    ensures var t, s := NewText(cwdstr, path), Stacked([], Working(cwdstr, path));
      && |t| <= MAX_TEXT && |Comps(t)| <= |s| <= MAX_DEPTH && Segments(Comps(t)) && NoDots(s) && Names(s)
      && (|Render(s)| <= MAX_TEXT ==> t == Render(s) && Comps(t) == s)
  {
    hide Stacked, Working, Comps, Slashed;
    var s := Stacked([], Working(cwdstr, path));
    StackedKempt([], Working(cwdstr, path));
    CompsRender(s);
    if |Render(s)| > MAX_TEXT { CutComps(Render(s), MAX_TEXT); }
  }

  /** Short plain names are stacked up to the sixteenth. */
  lemma {:induction false} StackedPlain(stack: seq<string>, p: string)
    requires NoDots(Comps(p)) && Segments(Comps(p)) && |stack| <= MAX_DEPTH
    ensures Stacked(stack, p) == First16(stack + Comps(p))
    decreases |p|
  {
    hide CompLen;
    if p == "" {
      assert stack + [] == stack;
    } else if p[0] == '/' {
      StackedPlain(stack, p[1..]);
    } else {
      var n := CompLen(p, 31);
      FirstComp(p);
      CompLenIs(p, MAX_SEG, n);
      var c := p[..n];
      assert c != "." && c != "..";
      assert stack + Comps(p) == stack + [c] + Comps(p[n..]);
      StackedPlain(Push(stack, c), p[n..]);
      if |stack| == MAX_DEPTH {
        assert First16(stack + Comps(p)) == stack && First16(stack + Comps(p[n..])) == stack;
      }
    }
  }

  function First16(s: seq<string>): seq<string> { if |s| <= MAX_DEPTH then s else s[..MAX_DEPTH] }

  /** The working copy has the whole path: it fits behind the old text or, when it is absolute, has
      only slashes after 127 characters. */
  predicate Whole(stack: seq<string>, path: string) {
    if Absolute(path) then forall i :: MAX_TEXT <= i < |path| ==> path[i] == '/'
    else |Anchored(Render(stack))| + |path| + 1 < MAX_TEXT
  }

  /** The room norm_join has for plain names after stack. */
  predicate RoomFor(stack: seq<string>, path: string) {
    && Segments(Comps(path)) && Whole(stack, path)
    && (if Absolute(path) then 0 else |stack|) + |Comps(path)| <= MAX_DEPTH
  }

  /** Cutting off slashes changes nothing. */
  lemma CutSlashes(p: string, k: nat)
    requires forall i :: k <= i < |p| ==> p[i] == '/'
    ensures Comps(if k < |p| then p[..k] else p) == Comps(p)
  {
    hide Comps;
    if k < |p| {
      var q := p[k + 1..];
      assert p == p[..k] + "/" + q;
      CompsJoin(p[..k], q);
      SkipSlashes(q, |q|);
      assert q[|q|..] == "";
      CompsEmpty();
      assert Comps(p[..k]) + [] == Comps(p[..k]);
    }
  }

  /** b is a, cut off after its first j names or inside the next one. */
  predicate CutAt(a: seq<string>, b: seq<string>, j: nat) {
    j < |a| && (b == a[..j] || (|b| == j + 1 && b[..j] == a[..j] && |b[j]| < |a[j]|))
  }

  /** Cutting off more than slashes loses a name or its end. */
  lemma {:induction false} CutShort(p: string, k: nat, i: nat) returns (j: nat)
    requires k <= i < |p| && p[i] != '/'
    ensures CutAt(Comps(p), Comps(p[..k]), j)
    decreases |p|
  {
    hide CompLen;
    CompsEmpty();
    if p[0] == '/' {
      if k > 0 {
        assert p[..k][1..] == p[1..][..k - 1];
        j := CutShort(p[1..], k - 1, i - 1);
      } else {
        j := CutShort(p[1..], 0, i - 1);
        assert p[..0] == "" && p[1..][..0] == "";
        j := 0;
      }
    } else {
      j := CutInName(p, k, i);
    }
  }

  lemma {:induction false} CutInName(p: string, k: nat, i: nat) returns (j: nat)
    requires k <= i < |p| && p[i] != '/' && p[0] != '/'
    ensures CutAt(Comps(p), Comps(p[..k]), j)
    decreases |p|, 0
  {
    hide CompLen;
    CompsEmpty();
    var n, q := CompLen(p, 31), p[..k];
    FirstComp(p);
    if k == 0 {
      assert q == "";
      return 0;
    }
    var m := if k < n then k else n;
    assert '/' !in q[..m] by { assert q[..m] == p[..n][..m]; }
    CompLenIs(q, 31, m);
    FirstComp(q);
    if k < n {
      assert q[m..] == "";
      j := 0;
    } else {
      assert q[n..] == p[n..][..k - n] && q[..n] == p[..n];
      var r := CutShort(p[n..], k - n, i - n);
      j := r + 1;
      CutAfter(p[..n], Comps(p[n..]), Comps(q[n..]), r);
    }
  }

  lemma CutAfter(c: string, a: seq<string>, b: seq<string>, j: nat)
    requires CutAt(a, b, j)
    ensures CutAt([c] + a, [c] + b, j + 1)
  {
    assert ([c] + a)[..j + 1] == [c] + a[..j];
    if b != a[..j] { assert ([c] + b)[..j + 1] == [c] + b[..j]; }
  }

  // ---- paths with "." and ".." ----

  /** The level after one component, from level h. */
  function Height(h: nat, c: string): nat {
    if c == "." then h else if c == ".." then (if h == 0 then 0 else h - 1) else h + 1
  }

  /** The path goes beyond sixteen levels and does not come back to the root afterwards. */
  predicate Loses(h: nat, lost: bool, comps: seq<string>)
    decreases |comps|
  {
    if comps == [] then lost
    else
      var g := Height(h, comps[0]);
      Loses(g, g > 0 && (lost || g > MAX_DEPTH), comps[1..])
  }

  /** The stack of sixteen against the names wanted: the same, or short of some. */
  predicate Lags(a: seq<string>, names: seq<string>, lost: bool) {
    |a| <= MAX_DEPTH && if lost then |a| < |names| else a == names
  }

  lemma LagsStep(a: seq<string>, names: seq<string>, lost: bool, c: string)
    requires Lags(a, names, lost)
    ensures |Step(names, c)| == Height(|names|, c)
    ensures var g := Height(|names|, c);
      Lags(Push(a, c), Step(names, c), g > 0 && (lost || g > MAX_DEPTH))
  {}

  lemma {:induction false} StackedLags(a: seq<string>, names: seq<string>, lost: bool, p: string)
    requires Segments(Comps(p)) && Lags(a, names, lost)
    ensures Lags(Stacked(a, p), Norm(names, Comps(p)), Loses(|names|, lost, Comps(p)))
    decreases |p|
  {
    hide CompLen, Lags, Push, Step, Height;
    if p != "" {
      if p[0] == '/' {
        StackedLags(a, names, lost, p[1..]);
      } else {
        var n := CompLen(p, 31);
        FirstComp(p);
        CompLenIs(p, MAX_SEG, n);
        var c := p[..n];
        var g := Height(|names|, c);
        LagsStep(a, names, lost, c);
        assert Segments(Comps(p[n..])) by { assert Comps(p)[1..] == Comps(p[n..]); }
        StackedLags(Push(a, c), Step(names, c), g > 0 && (lost || g > MAX_DEPTH), p[n..]);
      }
    }
  }

  lemma {:induction false} LosesPlain(h: nat, more: seq<string>, comps: seq<string>)
    requires NoDots(more) && h + |more| <= MAX_DEPTH
    ensures Loses(h, false, more + comps) == Loses(h + |more|, false, comps)
    decreases |more|
  {
    if more == [] {
      assert more + comps == comps;
    } else {
      assert (more + comps)[1..] == more[1..] + comps;
      LosesPlain(h + 1, more[1..], comps);
    }
  }

  lemma {:induction false} LosesNone(h: nat, comps: seq<string>)
    requires h + |comps| <= MAX_DEPTH
    ensures !Loses(h, false, comps)
    decreases |comps|
  {
    if comps != [] { LosesNone(Height(h, comps[0]), comps[1..]); }
  }

  /** What norm_join writes for short names, when the working copy is not longer than its buffer. */
  lemma ShortText(cwdstr: string, path: string)
    requires var q := Working(cwdstr, path); Absolute(q) && |q| <= MAX_TEXT && Segments(Comps(q))
    ensures var q := Working(cwdstr, path); var names := Norm([], Comps(q));
      && Comps(Render(names)) == names
      && (if Loses(0, false, Comps(q)) then |Comps(NewText(cwdstr, path))| < |names|
          else NewText(cwdstr, path) == Render(names))
  {
    hide Stacked, Working, Comps, Slashed, Norm, Loses;
    var q := Working(cwdstr, path);
    StackedLags([], [], false, q);
    NewTextComps(cwdstr, path);
    CompsNames(q);
    NormNames([], Comps(q));
    CompsRender(Norm([], Comps(q)));
    SlashedShort(q);
    NormShort([], Comps(q));
    SlashedNone();
  }

  /** For any path of short names that the working copy has whole, "." and ".." included: the text is
      right exactly when the path does not lose a name beyond the sixteenth level for good. */
  lemma FaithfulDots(stack: seq<string>, path: string)
    requires Kempt(stack) && NoDots(stack) && |Render(stack)| <= MAX_TEXT
    requires Segments(Comps(path)) && Whole(stack, path)
    ensures Faithful(Render(stack), path) <==> !Loses(if Absolute(path) then 0 else |stack|, false, Comps(path))
  {
    hide Stacked, Working, Comps, Slashed, Norm, NewText, Loses;
    CompsRender(stack);
    if Absolute(path) {
      CutSlashes(path, MAX_TEXT);
      AbsoluteWorking(Render(stack), path);
    } else {
      RelativeWorking(stack, path);
      SegmentsJoin(stack, Comps(path));
      LosesPlain(0, stack, Comps(path));
      NormConcat([], stack, Comps(path));
      NormPlain([], stack);
      assert [] + stack == stack;
    }
    ShortText(Render(stack), path);
  }

  /** For a path of names, without "." and "..", the text is right exactly when every name has at most
      19 characters, there are at most sixteen levels, and the working copy has all of it. */
  lemma FaithfulIff(stack: seq<string>, path: string)
    requires Kempt(stack) && NoDots(stack) && |Render(stack)| <= MAX_TEXT
    requires NoDots(Comps(path)) && Comps(path) != []
    ensures Faithful(Render(stack), path) <==> RoomFor(stack, path)
  {
    hide Stacked, Working, Comps, Slashed, Norm, CompLen, Loses, NewText, Whole;
    var names := CdNames(stack, path);
    CompsRender(stack);
    CompsNames(path);
    NormPlain([], Comps(path));
    NormPlain(stack, Comps(path));
    assert [] + Comps(path) == Comps(path);
    NormNames(stack, Comps(path));
    CompsRender(names);
    SegmentsJoin(stack, Comps(path));
    NewTextComps(Render(stack), path);
    if Segments(Comps(path)) && |names| <= MAX_DEPTH {
      if Whole(stack, path) {
        FaithfulDots(stack, path);
        LosesNone(if Absolute(path) then 0 else |stack|, Comps(path));
      } else if Absolute(path) {
        CutUnfaithful(stack, path);
      } else {
        DroppedIff(stack, path);
      }
    }
  }

  /** For every path: a right text is one of at most sixteen names of at most 19 characters, in 127. */
  lemma FaithfulNeeds(cwdstr: string, path: string)
    requires Faithful(cwdstr, path)
    ensures var names := CdNames(Comps(cwdstr), path);
      (forall i :: 0 <= i < |names| ==> |names[i]| <= 19) && |names| <= 16 && |Render(names)| <= 127
  {
    hide Stacked, Working, Comps, Slashed, Norm, NewText;
    CompsNames(cwdstr);
    CompsNames(path);
    NormNames([], Comps(path));
    NormNames(Comps(cwdstr), Comps(path));
    CompsRender(CdNames(Comps(cwdstr), path));
    NewTextComps(cwdstr, path);
  }

  /** A relative path that is dropped for want of room, whatever its names: the text stays, which is
      right exactly when the path leads back to where it started. */
  lemma DroppedIff(stack: seq<string>, path: string)
    requires Kempt(stack) && NoDots(stack) && |Render(stack)| <= MAX_TEXT && !Absolute(path) && !Whole(stack, path)
    ensures NewText(Render(stack), path) == Render(stack)
    ensures Faithful(Render(stack), path) <==> CdNames(stack, path) == stack
  {
    hide Stacked, Working, Comps, Slashed, Norm, CompLen;
    CompsRender(stack);
    CompsNames(path);
    RelativeWorking(stack, path);
    StackedPlain([], Working(Render(stack), path));
    assert [] + stack == stack;
    NewTextComps(Render(stack), path);
    NormNames(stack, Comps(path));
    CompsRender(CdNames(stack, path));
  }

  /** An absolute path of more than 127 characters that loses a name, or the end of one. */
  lemma CutUnfaithful(stack: seq<string>, path: string)
    requires Absolute(path) && NoDots(Comps(path)) && Segments(Comps(path)) && |Comps(path)| <= MAX_DEPTH
    requires !Whole(stack, path) && Names(stack)
    ensures !Faithful(Render(stack), path)
  {
    hide Stacked, Working, Comps, Slashed, Norm, CompLen, Loses, NewText;
    var names := Comps(path);
    var i :| MAX_TEXT <= i < |path| && path[i] != '/';
    var j := CutShort(path, MAX_TEXT, i);
    AbsoluteWorking(Render(stack), path);
    CutComps(path, MAX_TEXT);
    LosesNone(0, Comps(path[..MAX_TEXT]));
    ShortText(Render(stack), path);
    NormPlain([], names);
    assert [] + names == names;
    CompsNames(path);
    CompsRender(names);
    CutNorm(names, Comps(path[..MAX_TEXT]), j);
  }

  lemma CutNorm(names: seq<string>, cut: seq<string>, j: nat)
    requires NoDots(names) && CutAt(names, cut, j)
    ensures Norm([], cut) != names
  {
    hide Norm;
    var a := names[..j];
    NormPlain([], a);
    assert [] + a == a;
    if cut != a {
      assert cut == a + [cut[j]];
      NormConcat([], a, [cut[j]]);
      NormOne(a, cut[j]);
    }
  }

  lemma NormOne(stack: seq<string>, c: string)
    ensures Norm(stack, [c]) == Step(stack, c)
  {
    assert [c][1..] == [];
  }

  lemma SegmentsJoin(a: seq<string>, b: seq<string>)
    requires Segments(a)
    ensures Segments(a + b) <==> Segments(b)
  {
    if Segments(a + b) {
      forall i | 0 <= i < |b| ensures |b[i]| <= MAX_SEG { assert (a + b)[|a| + i] == b[i]; }
    }
  }

  lemma AbsoluteWorking(cwdstr: string, path: string)
    requires Absolute(path)
    ensures var q := Working(cwdstr, path);
      Absolute(q) && |q| <= MAX_TEXT && q == if |path| > MAX_TEXT then path[..MAX_TEXT] else path
  {}

  lemma RelativeWorking(stack: seq<string>, path: string)
    requires Names(stack) && |Render(stack)| <= MAX_TEXT && !Absolute(path)
    ensures var q := Working(Render(stack), path);
      && q != "" && q[0] == '/'
      && (if |Anchored(Render(stack))| + |path| + 1 < MAX_TEXT
          then |q| < MAX_TEXT && Comps(q) == stack + Comps(path) else Comps(q) == stack)
  {
    hide Comps, Render;
    CompsRender(stack);
    var r := Render(stack);
    assert Anchored(r)[0] == r[0];
    AnchoredComps(r, path);
    AnchoredComps(r, "");
    assert Anchored(r) + "" == Anchored(r);
    CompsEmpty();
    assert Comps(r) + [] == Comps(r);
  }

  // ---- the shell ----

  /** The text names the directory: its names lead from the root to the inode. */
  ghost predicate Shows(d: Disk, cwd: nat, cwdstr: string) {
    && IsDir(d, cwd) && Walk(d, ROOT, Comps(cwdstr)) == Some(cwd)
    && NoDots(Comps(cwdstr)) && cwdstr == Render(Comps(cwdstr))
  }

  /** What the user relies on: resolving the text from anywhere gives the current directory. */
  lemma ShowsResolve(d: Disk, cwd: nat, cwdstr: string, base: nat)
    requires Shows(d, cwd, cwdstr)
    ensures Resolve(d, base, cwdstr) == Some(cwd)
  {
    hide Comps;
    CompsNames(cwdstr);
    CompsRender(Comps(cwdstr));
  }

  /** Where a successful cd leads, as names from the root. */
  lemma CdWalk(d: Disk, w: Places, rk: Ranks, cwd: nat, cwdstr: string, path: string, x: nat)
    requires Tree(d, w, rk) && Resolve(d, cwd, path) == Some(x)
    requires Shows(d, cwd, cwdstr) || Absolute(path)
    ensures var n := CdNames(Comps(cwdstr), path);
      NoDots(n) && Names(n) && Walk(d, ROOT, n) == Some(x) && Comps(Render(n)) == n && Render(n)[..1] == "/"
  {
    hide Tree, Comps, Norm;
    var stack := Comps(cwdstr);
    CompsNames(cwdstr);
    CompsNames(path);
    if Absolute(path) {
      NormWalk(d, w, rk, [], ROOT, Comps(path), x);
      NormNames([], Comps(path));
    } else {
      NormWalk(d, w, rk, stack, cwd, Comps(path), x);
      NormNames(stack, Comps(path));
    }
    CompsRender(CdNames(stack, path));
  }

  /** Exactly when cd keeps text and inode together. If norm_join did not even have to clip its
      output, an unfaithful text does not resolve to the directory at all. */
  lemma CdExact(d: Disk, w: Places, rk: Ranks, cwd: nat, cwdstr: string, path: string, x: nat, base: nat)
    requires Tree(d, w, rk) && Resolve(d, cwd, path) == Some(x) && IsDir(d, x)
    requires Shows(d, cwd, cwdstr) || Absolute(path)
    ensures Shows(d, x, NewText(cwdstr, path)) <==> Faithful(cwdstr, path)
    ensures |Render(Stacked([], Working(cwdstr, path)))| <= MAX_TEXT ==>
      (Resolve(d, base, NewText(cwdstr, path)) == Some(x) <==> Faithful(cwdstr, path))
  {
    hide Tree, Comps, Norm, Stacked, Working, Walk, Slashed;
    var t, n, s := NewText(cwdstr, path), CdNames(Comps(cwdstr), path), Stacked([], Working(cwdstr, path));
    CdWalk(d, w, rk, cwd, cwdstr, path, x);
    NewTextComps(cwdstr, path);
    if Shows(d, x, t) { PathUnique(d, w, rk, Comps(t), n, x); }
    if Faithful(cwdstr, path) { ShowsResolve(d, x, t, base); }
    if |Render(s)| <= MAX_TEXT && Resolve(d, base, t) == Some(x) {
      CompsRender(s);
      PathUnique(d, w, rk, s, n, x);
    }
  }

  lemma AnchoredLength(stack: seq<string>)
    requires Names(stack)
    ensures |Anchored(Render(stack))| == |Slashed(stack)| + 1
    ensures |Render(stack)| == if stack == [] then 1 else |Slashed(stack)|
    ensures Render(stack) == "/" <==> stack == []
  {
    hide Slashed;
    SlashedNone();
    if stack != [] { SlashedEnds(stack); }
  }

  lemma SlashedEnds(stack: seq<string>)
    requires Names(stack) && stack != []
    ensures |Slashed(stack)| > 1 && Slashed(stack)[|Slashed(stack)| - 1] != '/'
  {
    var l := stack[|stack| - 1];
    assert l in stack && l[|l| - 1] in l;
  }

  /** For one name, from a state in step: text and inode stay together, and the text resolves to the
      directory at all, exactly when the name has at most 19 characters, fewer than sixteen levels are
      above it, and the joined path is under 127 characters. */
  lemma CdOneName(d: Disk, w: Places, rk: Ranks, cwd: nat, cwdstr: string, n: string, x: nat, base: nat)
    requires Tree(d, w, rk) && Shows(d, cwd, cwdstr) && Tidy(cwdstr)
    requires Name(n) && n != "." && n != ".." && Resolve(d, cwd, n) == Some(x) && IsDir(d, x)
    ensures var joined := |cwdstr| + (if cwdstr == "/" then 0 else 1) + |n|;
      var fits := |n| <= 19 && |Comps(cwdstr)| < 16 && joined + 1 < 127;
      (Shows(d, x, NewText(cwdstr, n)) <==> fits) && (Resolve(d, base, NewText(cwdstr, n)) == Some(x) <==> fits)
  {
    hide Tree, Comps, Norm, Stacked, Working, Walk, Slashed;
    var stack := Comps(cwdstr);
    CompsNames(cwdstr);
    AnchoredLength(stack);
    CompsName(n);
    assert n[0] in n;
    assert Comps(n)[0] == n && (Segments(Comps(n)) <==> |n| <= MAX_SEG);
    FaithfulIff(stack, n);
    CdExact(d, w, rk, cwd, cwdstr, n, x, base);
    OneNameText(stack, n);
  }

  /** For one name norm_join never has to clip. */
  lemma OneNameText(stack: seq<string>, n: string)
    requires Kempt(stack) && NoDots(stack) && |Render(stack)| <= MAX_TEXT && Name(n)
    ensures |Render(Stacked([], Working(Render(stack), n)))| <= MAX_TEXT
  {
    hide Comps, Slashed, CompLen, Stacked;
    var r := Render(stack);
    CompsRender(stack);
    assert n[0] in n;
    RelativeWorking(stack, n);
    StackedPlain([], r);
    assert [] + stack == stack;
    SlashedNone();
    if |Anchored(r)| + |n| + 1 < MAX_TEXT {
      AnchoredStacked(stack, n);
      TwoSegments(stack, n);
    } else {
      StackedPlain([], Working(r, n));
    }
  }

  lemma AnchoredStacked(stack: seq<string>, n: string)
    requires Names(stack) && Stacked([], Render(stack)) == stack
    ensures Stacked([], Anchored(Render(stack)) + n) == Stacked(stack, n)
    ensures |Anchored(Render(stack))| == |Slashed(stack)| + 1
  {
    hide Stacked, CompLen;
    if stack == [] {
      assert "/" + n == "" + "/" + n;
      StackedJoin([], "", n);
      StackedEnd([]);
    } else {
      var r := Slashed(stack);
      var l := stack[|stack| - 1];
      assert l in stack && r[|r| - 1] == l[|l| - 1] && l[|l| - 1] in l;
      StackedJoin([], r, n);
      assert Anchored(r) + n == r + "/" + n;
    }
  }

  lemma {:induction false} StackedJoin(stack: seq<string>, p: string, q: string)
    ensures Stacked(stack, p + "/" + q) == Stacked(Stacked(stack, p), q)
    decreases |p|
  {
    hide CompLen;
    var s := p + "/" + q;
    if p == "" {
      assert s[0] == '/' && s[1..] == q;
    } else if p[0] == '/' {
      assert s[0] == '/' && s[1..] == p[1..] + "/" + q;
      StackedJoin(stack, p[1..], q);
    } else {
      var n := CompLen(p, MAX_SEG);
      CompLenJoin(p, q, MAX_SEG);
      StackedName(stack, p);
      assert s[0] == p[0] && s[..n] == p[..n] && s[n..] == p[n..] + "/" + q;
      StackedName(stack, s);
      StackedJoin(Push(stack, p[..n]), p[n..], q);
    }
  }

  /** A name becomes at most two segments. */
  lemma TwoSegments(stack: seq<string>, n: string)
    requires Name(n)
    ensures |Slashed(Stacked(stack, n))| <= |Slashed(stack)| + |n| + 2
  {
    hide Stacked, CompLen, Slashed;
    assert forall i :: 0 <= i < |n| ==> n[i] in n;
    var k := if |n| <= MAX_SEG then |n| else MAX_SEG;
    CompLenIs(n, MAX_SEG, k);
    StackedName(stack, n);
    var mid, r := Push(stack, n[..k]), n[k..];
    PushShort(stack, n[..k]);
    if r == "" {
      StackedEnd(mid);
    } else {
      CompLenIs(r, MAX_SEG, |r|);
      StackedName(mid, r);
      assert r[..|r|] == r && r[|r|..] == "";
      PushShort(mid, r);
      StackedEnd(Push(mid, r));
    }
  }

  lemma PushShort(stack: seq<string>, c: string)
    ensures |Slashed(Push(stack, c))| <= |Slashed(stack)| + 1 + |c|
  {
    assert (stack + [c])[..|stack|] == stack;
  }

  /** Anything that leaves the directories alone, or only adds to them. */
  lemma KeptShows(d: Disk, e: Disk, cwd: nat, cwdstr: string)
    requires Shows(d, cwd, cwdstr) && KeepsPaths(d, e) && IsDir(e, cwd)
    ensures Shows(e, cwd, cwdstr)
  {
    hide Comps;
    ShowsResolve(d, cwd, cwdstr, 0);
    CompsNames(cwdstr);
    CompsRender(Comps(cwdstr));
    assert Resolve(e, 0, cwdstr) == Resolve(d, 0, cwdstr);
  }

  /** A removal keeps text and inode together exactly when it does not take the directory away. */
  lemma RemovedShows(d: Disk, e: Disk, w: Places, rk: Ranks, c: nat, cwd: nat, cwdstr: string)
    requires Tree(d, w, rk) && c in w && Unlinked(d, e, w, rk, c) && Shows(d, cwd, cwdstr)
    ensures Shows(e, cwd, cwdstr) <==> !Under(w, rk, c, cwd)
  {
    hide Named, EntriesOk, DotsOk, UniqueNames, Comps, Walk, WalkWithout;
    assert e.ino[cwd] == d.ino[cwd] || IsZero(e.ino[cwd]);
    if !Under(w, rk, c, cwd) {
      PlainStaysOut(d, w, rk, c, ROOT, Comps(cwdstr), cwd);
      RemovedWalk(d, e, w, rk, c, ROOT, Comps(cwdstr));
    }
  }

  class Shell {
    const fs: CofeuFs
    var cwd: nat
    var cwdstr: string

    ghost predicate InStep()
      reads this, fs
    {
      fs.Valid() && Shows(fs.D(), cwd, cwdstr)
    }

    /** The shell starts at the root. */
    constructor (disk: CofeuFs)
      requires disk.Valid()
      ensures InStep() && Tidy(cwdstr) && fs == disk && cwdstr == "/" && cwd == ROOT
    {
      fs, cwd, cwdstr := disk, ROOT, "/";
      new;
      CompsRender([]);
    }

    /** cmd_cd. From a state in step, or with an absolute path from any state, text and inode are in
        step afterwards exactly when norm_join's text is the normalised path. */
    method Cd(path: string) returns (ok: bool)
      requires fs.Valid() && cwd < INO_COUNT
      modifies this`cwd, this`cwdstr
      ensures ok <==> exists x :: Resolve(fs.D(), old(cwd), path) == Some(x) && IsDir(fs.D(), x)
      ensures if ok then Resolve(fs.D(), old(cwd), path) == Some(cwd) && cwdstr == NewText(old(cwdstr), path)
              else cwd == old(cwd) && cwdstr == old(cwdstr)
      ensures cwd < INO_COUNT
      ensures ok && (old(InStep()) || Absolute(path)) ==> (InStep() <==> Faithful(old(cwdstr), path))
      ensures ok && old(InStep()) && Roomy(old(cwdstr), path) ==>
        InStep() && Comps(cwdstr) == CdNames(Comps(old(cwdstr)), path)
      ensures old(Tidy(cwdstr)) ==> Tidy(cwdstr)
    {
      hide Tree, Owners, NodesOk, Comps, Norm, Stacked, Working, Walk;
      var x := fs.ResolveFrom(cwd, path);
      if x == None { return false; }
      var st := fs.ResolveFrom(cwd, path);
      if st == None || fs.ino[st.value].kind != Dir { return false; }
      if InStep() || Absolute(path) {
        CdExact(fs.D(), fs.where, fs.rank, cwd, cwdstr, path, x.value, 0);
        CdWalk(fs.D(), fs.where, fs.rank, cwd, cwdstr, path, x.value);
        CompsNames(cwdstr);
        if Roomy(cwdstr, path) && InStep() { NormJoinIs(Comps(cwdstr), path); }
      }
      NewTextComps(cwdstr, path);
      cwd := x.value;
      cwdstr := NormJoin(cwdstr, path);
      ok := true;
    }

    /** touch and mkdir from the current directory. */
    method Make(path: string, isDir: bool) returns (ok: bool, ghost c: nat, ghost s: nat)
      requires InStep()
      modifies fs
      ensures InStep() && (ok <==> old(Creatable(fs.D(), cwd, path, isDir)))
      ensures ok ==> LowestFree(old(fs.D()), c) && Resolve(fs.D(), cwd, path) == Some(c)
      ensures ok ==> old(Split(fs.D(), cwd, path)).Some?
      ensures ok ==>
        Created(old(fs.D()), fs.D(), c, old(Split(fs.D(), cwd, path)).value.0, s,
                old(Split(fs.D(), cwd, path)).value.1, if isDir then Dir else File)
    {
      hide Tree, Owners, NodesOk, Comps;
      ghost var d := fs.D();
      ParentLive(d, fs.where, fs.rank, cwd, path);
      ok, c, s := fs.CreateInode(cwd, path, isDir);
      if ok {
        assert fs.ino[cwd].kind == d.ino[cwd].kind;
        KeptShows(d, fs.D(), cwd, cwdstr);
      } else {
        SameDirsWalk(d, fs.D(), ROOT, Comps(cwdstr));
        assert fs.ino[cwd].kind == d.ino[cwd].kind;
      }
    }

    /** rm from the current directory: text and inode stay in step exactly when the removal does not
        take the current directory with it, nor the root's block. */
    method Remove(path: string, recursive: bool) returns (ok: bool)
      requires InStep()
      modifies fs
      ensures ok <==> old(PathRemovable(fs.D(), cwd, path, recursive))
      ensures !ok ==> InStep()
      ensures ok ==> old(Resolve(fs.D(), cwd, path)).Some? && old(Resolve(fs.D(), cwd, path)).value in old(fs.where)
      ensures ok ==> (Shows(fs.D(), cwd, cwdstr) <==>
        !Under(old(fs.where), old(fs.rank), old(Resolve(fs.D(), cwd, path)).value, cwd))
      ensures ok ==> (InStep() <==>
        fs.Valid() && !Under(old(fs.where), old(fs.rank), old(Resolve(fs.D(), cwd, path)).value, cwd))
    {
      hide Owners, NodesOk, Named, EntriesOk, DotsOk, UniqueNames, Shows, WalksLeft;
      ghost var d, w, rk := fs.D(), fs.where, fs.rank;
      ghost var r := Resolve(d, cwd, path);
      CwdLive();
      ok := fs.RemoveFile(cwd, path, recursive);
      if ok { RemovedShows(d, fs.D(), w, rk, r.value, cwd, cwdstr); }
    }

    lemma CwdLive()
      requires InStep()
      ensures cwd < INO_COUNT
    {}

    /** Any run of cd: steps[i] says whether text and inode are in step before the i-th. A failed cd
        changes nothing; a successful one from a state in step, or with an absolute path, leaves them
        in step exactly when it is faithful. */
    method CdAll(paths: seq<string>) returns (oks: seq<bool>, texts: seq<string>, ghost steps: seq<bool>)
      requires InStep()
      modifies this`cwd, this`cwdstr
      ensures |oks| == |paths| && |texts| == |steps| == |paths| + 1
      ensures steps[0] && texts[0] == old(cwdstr) && (steps[|paths|] <==> InStep()) && texts[|paths|] == cwdstr
      ensures forall i :: 0 <= i < |paths| && !oks[i] ==> steps[i + 1] == steps[i] && texts[i + 1] == texts[i]
      ensures forall i :: 0 <= i < |paths| && oks[i] && (steps[i] || Absolute(paths[i])) ==>
        (steps[i + 1] <==> Faithful(texts[i], paths[i]))
      ensures (forall i :: 0 <= i < |paths| && oks[i] ==> Faithful(texts[i], paths[i])) ==>
        InStep() && forall base: nat :: Resolve(fs.D(), base, cwdstr) == Some(cwd)
    {
      hide Tree, Owners, NodesOk, Shows, Faithful, NewText, Resolve, Roomy, CdNames, NoDots, Render;
      oks, texts, steps := [], [cwdstr], [true];
      CwdLive();
      var n := 0;
      while n < |paths|
        invariant 0 <= n <= |paths| && fs.Valid() && cwd < INO_COUNT
        invariant |oks| == n && |texts| == |steps| == n + 1
        invariant steps[0] && texts[0] == old(cwdstr) && (steps[n] <==> InStep()) && texts[n] == cwdstr
        invariant forall i :: 0 <= i < n && !oks[i] ==> steps[i + 1] == steps[i] && texts[i + 1] == texts[i]
        invariant forall i :: 0 <= i < n && oks[i] && (steps[i] || Absolute(paths[i])) ==>
          (steps[i + 1] <==> Faithful(texts[i], paths[i]))
        invariant (forall i :: 0 <= i < n && oks[i] ==> Faithful(texts[i], paths[i])) ==> steps[n]
      {
        var ok := Cd(paths[n]);
        oks, texts, steps := oks + [ok], texts + [cwdstr], steps + [InStep()];
        n := n + 1;
      }
      if InStep() {
        forall base: nat ensures Resolve(fs.D(), base, cwdstr) == Some(cwd) { ShowsResolve(fs.D(), cwd, cwdstr, base); }
      }
    }
  }

  lemma ParentLive(d: Disk, w: Places, rk: Ranks, cwd: nat, path: string)
    requires Tree(d, w, rk) && IsDir(d, cwd)
    ensures Split(d, cwd, path).Some? ==> Live(d, Split(d, cwd, path).value.0)
  {
    hide EntriesOk, DotsOk, UniqueNames, Comps;
    var k := LastSlash(path);
    if k > 0 { WalkLive(d, w, rk, Start(cwd, path[..k]), Comps(path[..k])); }
  }
}
