/** Path text: the components resolve_from walks, and the split split_last makes. */
module FsPath {
  import opened Basics
  import opened FsModel
  import opened FsTree

  /** Length of the next component: up to a slash, the end, or 31 characters. */
  function CompLen(p: string, room: nat): (n: nat)
    ensures n <= |p| && n <= room
    ensures '/' !in p[..n]
    ensures n < |p| && n < room ==> p[n] == '/'
  {
    if p == "" || room == 0 || p[0] == '/' then 0
    else
      var n := 1 + CompLen(p[1..], room - 1);
      assert p[..n] == [p[0]] + p[1..][..n - 1];
      n
  }

  /** The components of a path. Slashes separate; a run of more than 31 characters is cut
      into pieces, because resolve_from copies at most 31 characters per turn. */
  function Comps(p: string): seq<string>
    decreases |p|
  {
    if p == "" then []
    else if p[0] == '/' then Comps(p[1..])
    else
      var n := CompLen(p, 31);
      [p[..n]] + Comps(p[n..])
  }

  predicate Absolute(path: string) { path != "" && path[0] == '/' }

  function Start(base: nat, path: string): nat { if Absolute(path) then ROOT else base }

  /** resolve_from on a whole path. */
  function Resolve(d: Disk, base: nat, path: string): Option<nat> {
    Walk(d, Start(base, path), Comps(path))
  }

  /** Position of the last slash, or -1. */
  function LastSlash(path: string): (k: int)
    ensures -1 <= k < |path|
    ensures k >= 0 ==> path[k] == '/'
    ensures forall m :: k < m < |path| ==> path[m] != '/'
  {
    if path == "" then -1
    else if path[|path| - 1] == '/' then |path| - 1
    else LastSlash(path[..|path| - 1])
  }

  /** split_last: the parent inode and the final name. */
  function Split(d: Disk, base: nat, path: string): Option<(nat, string)> {
    if path == "" then None
    else
      var k := LastSlash(path);
      var name := path[k + 1..];
      if k < 0 then (if |name| > 31 then None else Some((base, name)))
      else if name == "" || k >= 95 then None
      else match (if k == 0 then Some(ROOT) else Resolve(d, base, path[..k]))
        case None => None
        case Some(parent) => if |name| > 31 then None else Some((parent, name))
  }

  lemma {:induction false} CompLenJoin(p: string, q: string, room: nat)
    ensures CompLen(p + "/" + q, room) == CompLen(p, room)
    decreases |p|
  {
    var s := p + "/" + q;
    if p == "" {
      assert s[0] == '/';
    } else {
      assert s[0] == p[0];
      assert s[1..] == p[1..] + "/" + q;
      if room > 0 { CompLenJoin(p[1..], q, room - 1); }
    }
  }

  lemma CompsEmpty()
    ensures Comps("") == []
  {
  }

  lemma FirstComp(p: string)
    requires p != "" && p[0] != '/'
    ensures CompLen(p, 31) > 0
    ensures Comps(p) == [p[..CompLen(p, 31)]] + Comps(p[CompLen(p, 31)..])
    ensures Comps(p)[0] == p[..CompLen(p, 31)] && Comps(p)[1..] == Comps(p[CompLen(p, 31)..])
  {}

  lemma SlashComps(p: string)
    requires Absolute(p)
    ensures Comps(p) == Comps(p[1..])
  {}

  /** Joining with a slash concatenates the components, whatever slashes either side has. */
  lemma {:induction false} CompsJoin(p: string, q: string)
    ensures Comps(p + "/" + q) == Comps(p) + Comps(q)
    decreases |p|
  {
    hide CompLen, Comps;
    var s := p + "/" + q;
    if p == "" {
      CompsEmpty();
      assert s[0] == '/' && s[1..] == q;
      SlashComps(s);
    } else if p[0] == '/' {
      assert s[0] == '/' && s[1..] == p[1..] + "/" + q;
      SlashComps(p);
      SlashComps(s);
      CompsJoin(p[1..], q);
    } else {
      var n := CompLen(p, 31);
      CompLenJoin(p, q, 31);
      assert s[0] == p[0];
      FirstComp(p);
      FirstComp(s);
      assert s[..n] == p[..n] && s[n..] == p[n..] + "/" + q;
      CompsJoin(p[n..], q);
    }
  }

  lemma CompsName(name: string)
    requires 0 < |name| <= 31 && '/' !in name
    ensures Comps(name) == [name]
  {
    assert name[..CompLen(name, 31)] == name;
    assert name[|name|..] == "";
  }

  /** The components of a path are those before its last slash, then the final name. */
  lemma CompsSplit(path: string, k: nat)
    requires k < |path| && path[k] == '/'
    requires 0 < |path[k + 1..]| <= 31 && '/' !in path[k + 1..]
    ensures Comps(path) == Comps(path[..k]) + [path[k + 1..]]
  {
    var dir, name := path[..k], path[k + 1..];
    assert path == dir + "/" + name;
    CompsJoin(dir, name);
    CompsName(name);
  }

  lemma ResolveSplit(d: Disk, base: nat, path: string, k: nat)
    requires k < |path| && path[k] == '/'
    requires 0 < |path[k + 1..]| <= 31 && '/' !in path[k + 1..]
    ensures Resolve(d, base, path) ==
      match (if k == 0 then Some(ROOT) else Resolve(d, base, path[..k]))
      case None => None
      case Some(parent) => Walk(d, parent, [path[k + 1..]])
  {
    hide CompLen;
    CompsSplit(path, k);
    WalkAppend(d, Start(base, path), Comps(path[..k]), [path[k + 1..]]);
    assert k > 0 ==> path[..k][0] == path[0];
  }

  /** When a path splits, and into what: a name alone belongs to base; behind a slash it belongs to the
      directory named before, in at most 94 characters. */
  lemma SplitMeans(d: Disk, base: nat, dir: string, name: string)
    requires 0 < |name| <= 31 && '/' !in name
    ensures Split(d, base, name) == Some((base, name))
    ensures |dir| < 95 ==>
      var p := if dir == "" then Some(ROOT) else Resolve(d, base, dir);
      Split(d, base, dir + "/" + name) == if p == None then None else Some((p.value, name))
    ensures |dir| >= 95 ==> Split(d, base, dir + "/" + name) == None
  {
    hide Resolve, LastSlash;
    JoinedPath(dir, name);
    PlainName(name);
  }

  lemma JoinedPath(dir: string, name: string)
    requires '/' !in name
    ensures var path := dir + "/" + name;
      path != "" && LastSlash(path) == |dir| && path[|dir| + 1..] == name && path[..|dir|] == dir
  {
    var path := dir + "/" + name;
    assert forall m :: |dir| < m < |path| ==> path[m] == name[m - |dir| - 1] && path[m] in name;
    assert path[|dir|] == '/';
  }

  lemma PlainName(name: string)
    requires '/' !in name
    ensures LastSlash(name) == -1 && name[0..] == name
  {
    assert forall i :: 0 <= i < |name| ==> name[i] in name;
  }

  /** Paths without a last name, or with one of more than 31 characters, do not split. */
  lemma SplitRefuses(d: Disk, base: nat, dir: string, name: string)
    requires '/' !in name && (name == "" || |name| > 31)
    ensures Split(d, base, name) == None && Split(d, base, dir + "/" + name) == None
  {
    hide Resolve, LastSlash;
    JoinedPath(dir, name);
    PlainName(name);
  }

  /** split_last and resolve_from agree: resolving the whole path is resolving the name in the
      parent that split_last found. */
  lemma SplitAgrees(d: Disk, base: nat, path: string)
    requires Split(d, base, path).Some?
    ensures 0 < |Split(d, base, path).value.1| <= 31 && '/' !in Split(d, base, path).value.1
    ensures Resolve(d, base, path) == Walk(d, Split(d, base, path).value.0, [Split(d, base, path).value.1])
  {
    hide Walk, Comps, CompLen;
    var k := LastSlash(path);
    assert '/' !in path[k + 1..];
    if k >= 0 {
      ResolveSplit(d, base, path, k);
    } else {
      assert path[k + 1..] == path;
      CompsName(path);
    }
  }

  /** CompLen is the only length that stops where resolve_from's copy loop stops. */
  lemma {:induction false} CompLenIs(p: string, room: nat, n: nat)
    requires n <= |p| && n <= room && '/' !in p[..n]
    requires n == |p| || n == room || p[n] == '/'
    ensures CompLen(p, room) == n
  {
    var m := CompLen(p, room);
    assert forall i :: 0 <= i < n ==> p[i] in p[..n];
    assert forall i :: 0 <= i < m ==> p[i] in p[..m];
  }

  lemma {:induction false} SkipSlashes(p: string, n: nat)
    requires n <= |p| && forall i :: 0 <= i < n ==> p[i] == '/'
    ensures Comps(p[n..]) == Comps(p)
    decreases n
  {
    if n > 0 {
      SkipSlashes(p[1..], n - 1);
      assert p[1..][n - 1..] == p[n..];
    } else {
      assert p[0..] == p;
    }
  }
}
