/** Path names: the printer `dentry_path_raw`, the resolver `kern_path` (before its symlink loop, without mounts) and
    `at_resolve`, which prints a directory and resolves a longer path. */
module Paths {

  type Name = string

  /** A dentry cache: every dentry's parent, name and children in list order. Dentries are numbered so that a parent
      comes before its children; the root is 0 and its own parent. */
  datatype Tree = Tree(parent: seq<nat>, name: seq<Name>, children: seq<seq<nat>>)

  const ROOT: nat := 0

  const ENOENT: int := 2
  const EBADF: int := 9
  const ENOTDIR: int := 20
  const ENAMETOOLONG: int := 36
  const PATH_MAX: nat := 4096

  datatype Result = Found(dentry: nat) | Failed(err: int)

  /** Parents lead to the root. */
  ghost predicate Rooted(t: Tree) {
    |t.parent| > 0 && t.parent[ROOT] == ROOT && |t.name| == |t.parent| == |t.children| &&
    forall d :: 0 < d < |t.parent| ==> t.parent[d] < d
  }

  /** Children agree with parents, and siblings have different names. */
  ghost predicate Linked(t: Tree) {
    Rooted(t) &&
    (forall d :: 0 < d < |t.parent| ==> d in t.children[t.parent[d]]) &&
    (forall p, i :: 0 <= p < |t.children| && 0 <= i < |t.children[p]| ==> p < t.children[p][i] < |t.parent| && t.parent[t.children[p][i]] == p) &&
    (forall p :: 0 <= p < |t.children| ==> DistinctNames(t, t.children[p]))
  }

  ghost predicate DistinctNames(t: Tree, cs: seq<nat>) {
    (forall i :: 0 <= i < |cs| ==> cs[i] < |t.name|) &&
    forall i, j :: 0 <= i < j < |cs| ==> t.name[cs[i]] != t.name[cs[j]]
  }

  /** A component a lookup can find: not empty, no slash, neither "." nor "..". */
  predicate PlainName(n: Name) { n != "" && '/' !in n && n != "." && n != ".." }

  ghost predicate PlainNames(t: Tree) {
    Rooted(t) && forall d :: 0 < d < |t.parent| ==> PlainName(t.name[d])
  }

  // ---- what a path means

  /** Length of the component at the front of `p`. */
  function ComponentEnd(p: string): (n: nat)
    ensures n <= |p| && '/' !in p[..n] && (n < |p| ==> p[n] == '/')
  {
    if p == "" || p[0] == '/' then 0 else 1 + ComponentEnd(p[1..])
  }

  /** The components between slashes; repeated slashes count once. */
  function Components(p: string): seq<Name>
    decreases |p|
  {
    if p == "" then []
    else if p[0] == '/' then Components(p[1..])
    else [p[..ComponentEnd(p)]] + Components(p[ComponentEnd(p)..])
  }

  /** First child on the list with that name: `d_lookup`. */
  function FindChild(t: Tree, cs: seq<nat>, n: Name): int {
    if cs == [] then -1
    else if cs[0] < |t.name| && t.name[cs[0]] == n then cs[0]
    else FindChild(t, cs[1..], n)
  }

  predicate Named(t: Tree, c: nat, n: Name) { c < |t.name| && t.name[c] == n }

  /** Entry `i` of the list is the first with the name. */
  ghost predicate FirstNamed(t: Tree, cs: seq<nat>, n: Name, i: nat) {
    i < |cs| && Named(t, cs[i], n) && forall j :: 0 <= j < i ==> !Named(t, cs[j], n)
  }

  /** One component of the walk. */
  function Step(t: Tree, d: nat, n: Name): Result {
    if d >= |t.parent| || d >= |t.children| then Failed(ENOENT)
    else if n == "." then Found(d)
    else if n == ".." then Found(if d == ROOT then d else t.parent[d])
    else
      var c := FindChild(t, t.children[d], n);
      if c < 0 then Failed(ENOENT) else Found(c)
  }

  /** The walk from `d`, component by component. */
  function Walk(t: Tree, d: nat, ns: seq<Name>): Result
    decreases |ns|
  {
    if ns == [] then Found(d)
    else
      var r := Step(t, d, ns[0]);
      if r.Found? then Walk(t, r.dentry, ns[1..]) else r
  }

  /** Continue a walk from where it got to. */
  function Onward(t: Tree, r: Result, ns: seq<Name>): Result {
    if r.Found? then Walk(t, r.dentry, ns) else r
  }

  lemma {:induction false} WalkJoin(t: Tree, d: nat, xs: seq<Name>, ys: seq<Name>)
    ensures Walk(t, d, xs + ys) == Onward(t, Walk(t, d, xs), ys)
    decreases |xs|
  {
    if xs == [] {
      assert xs + ys == ys;
    } else {
      assert (xs + ys)[1..] == xs[1..] + ys;
      var r := Step(t, d, xs[0]);
      if r.Found? { WalkJoin(t, r.dentry, xs[1..], ys); }
    }
  }

  lemma {:induction false} ComponentEndJoin(x: string, y: string)
    requires x != "" && x[0] != '/'
    ensures ComponentEnd(x + "/" + y) == ComponentEnd(x)
    decreases |x|
  {
    assert (x + "/" + y)[1..] == x[1..] + "/" + y;
    if |x| > 1 && x[1] != '/' { ComponentEndJoin(x[1..], y); }
  }

  /** A slash between two paths separates their components. */
  lemma {:induction false} ComponentsJoin(x: string, y: string)
    ensures Components(x + "/" + y) == Components(x) + Components(y)
    decreases |x|
  {
    var p := x + "/" + y;
    if x == "" {
      assert p[1..] == y;
    } else if x[0] == '/' {
      assert p[1..] == x[1..] + "/" + y;
      ComponentsJoin(x[1..], y);
    } else {
      var n := ComponentEnd(x);
      ComponentEndJoin(x, y);
      assert n > 0;
      assert p[..n] == x[..n] && p[n..] == x[n..] + "/" + y;
      ComponentsJoin(x[n..], y);
    }
  }

  lemma {:induction false} OneComponent(n: Name)
    requires n != "" && '/' !in n
    ensures ComponentEnd(n) == |n| && Components(n) == [n]
    decreases |n|
  {
    if |n| > 1 { OneComponent(n[1..]); }
    assert n[0] != '/';
    assert ComponentEnd(n) == |n|;
    assert n[..|n|] == n && n[|n|..] == "";
  }

  // ---- printing

  /** The names on the way from the root down to `d`. */
  ghost function Names(t: Tree, d: nat): seq<Name>
    requires Rooted(t) && d < |t.parent|
    decreases d
  {
    if d == ROOT then [] else Names(t, t.parent[d]) + [t.name[d]]
  }

  /** Each name with a slash before it. */
  ghost function Printed(t: Tree, d: nat): string
    requires Rooted(t) && d < |t.parent|
    decreases d
  {
    if d == ROOT then "" else Printed(t, t.parent[d]) + "/" + t.name[d]
  }

  ghost function PathOf(t: Tree, d: nat): string
    requires Rooted(t) && d < |t.parent|
  {
    if d == ROOT then "/" else Printed(t, d)
  }

  lemma {:induction false} ComponentsOfPrinted(t: Tree, d: nat)
    requires PlainNames(t) && d < |t.parent|
    ensures Components(Printed(t, d)) == Names(t, d)
    decreases d
  {
    if d != ROOT {
      ComponentsOfPrinted(t, t.parent[d]);
      ComponentsJoin(Printed(t, t.parent[d]), t.name[d]);
      OneComponent(t.name[d]);
    }
  }

  lemma ComponentsOfPath(t: Tree, d: nat)
    requires PlainNames(t) && d < |t.parent|
    ensures Components(PathOf(t, d)) == Names(t, d)
  {
    ComponentsOfPrinted(t, d);
    assert "/"[1..] == "";
  }

  lemma {:induction false} FindChildFinds(t: Tree, cs: seq<nat>, d: nat)
    requires d in cs && DistinctNames(t, cs) && d < |t.name|
    ensures FindChild(t, cs, t.name[d]) == d
    decreases |cs|
  {
    if cs[0] != d {
      assert cs == [cs[0]] + cs[1..];
      var j :| 0 <= j < |cs| && cs[j] == d;
      assert t.name[cs[0]] != t.name[cs[j]];
      FindChildFinds(t, cs[1..], d);
    }
  }

  lemma StepToChild(t: Tree, d: nat)
    requires Linked(t) && PlainNames(t) && 0 < d < |t.parent|
    ensures Walk(t, t.parent[d], [t.name[d]]) == Found(d)
  {
    var p := t.parent[d];
    assert PlainName(t.name[d]) && DistinctNames(t, t.children[p]) && d in t.children[p];
    hide Linked, FindChild, DistinctNames;
    FindChildFinds(t, t.children[p], d);
    assert [t.name[d]][1..] == [];
  }

  /** Walking down the names of a dentry reaches it. */
  lemma {:induction false} WalkNames(t: Tree, d: nat)
    requires Linked(t) && PlainNames(t) && d < |t.parent|
    ensures Walk(t, ROOT, Names(t, d)) == Found(d)
    decreases d
  {
    hide Linked, PlainName;
    if d != ROOT {
      WalkNames(t, t.parent[d]);
      WalkJoin(t, ROOT, Names(t, t.parent[d]), [t.name[d]]);
      StepToChild(t, d);
    }
  }

  /** Resolving the printed path of a dentry gives the dentry back. */
  lemma PrintResolve(t: Tree, d: nat)
    requires Linked(t) && PlainNames(t) && d < |t.parent|
    ensures Walk(t, ROOT, Components(PathOf(t, d))) == Found(d)
  {
    ComponentsOfPath(t, d);
    WalkNames(t, d);
  }

  // ---- the code

  method CopyChars(buf: array<char>, at: nat, s: string)
    requires at + |s| <= buf.Length
    modifies buf
    ensures buf[..] == old(buf[..])[..at] + s + old(buf[..])[at + |s|..]
  {
    var i := 0;
    while i < |s|
      invariant 0 <= i <= |s|
      invariant forall j :: 0 <= j < i ==> buf[at + j] == s[j]
      invariant forall j :: 0 <= j < at || at + i <= j < buf.Length ==> buf[j] == old(buf[j])
    {
      buf[at + i] := s[i];
      i := i + 1;
    }
  }

  /** Writes "/" + `s` just before `end`. */
  method PrependName(buf: array<char>, end: nat, s: string, ghost last: nat) returns (end': nat)
    requires |s| + 1 <= end <= last < buf.Length
    modifies buf
    ensures end' == end - |s| - 1
    ensures buf[end'..last] == "/" + s + old(buf[end..last]) && buf[last..] == old(buf[last..])
  {
    end' := end - |s|;
    CopyChars(buf, end', s);
    ghost var m := buf[..];
    assert m[end'..last] == s + old(buf[end..last]) && m[last..] == old(buf[last..]);
    end' := end' - 1;
    buf[end'] := '/';
    assert buf[end'..last] == ['/'] + m[end' + 1..last];
  }

  /** `dentry_path_raw`: fills `buf[..buflen]` from the right; the index where the path starts, or -1 for NULL. */
  method DentryPathRaw(t: Tree, dentry: nat, buf: array<char>, buflen: int) returns (at: int)
    requires Rooted(t) && dentry < |t.parent| && buflen <= buf.Length
    modifies buf
    ensures buflen <= 0 ==> at == -1 && buf[..] == old(buf[..])
    ensures buflen > 0 ==> (at == -1 <==> |PathOf(t, dentry)| + 1 > buflen)
    ensures at != -1 ==> 0 <= at < buflen && buf[at..buflen - 1] == PathOf(t, dentry) && buf[buflen - 1] == '\0'
    ensures buflen > 0 ==> buf[buflen..] == old(buf[buflen..])
  {
    if buflen <= 0 { return -1; }
    var end := buflen - 1;
    buf[end] := '\0';
    var d: nat := dentry;
    while d != t.parent[d]
      invariant 0 <= end < buflen && d < |t.parent| && buf[buflen - 1] == '\0' && buf[buflen..] == old(buf[buflen..])
      invariant Printed(t, dentry) == Printed(t, d) + buf[end..buflen - 1]
      decreases d
    {
      var name := t.name[d];
      if end - |name| - 1 < 0 { return -1; }
      ghost var tail := buf[end..buflen - 1];
      ghost var high := buf[buflen - 1..];
      end := PrependName(buf, end, name, buflen - 1);
      assert buf[buflen - 1] == high[0] && buf[buflen..] == high[1..];
      assert Printed(t, t.parent[d]) + ("/" + name + tail) == Printed(t, d) + tail;
      d := t.parent[d];
    }
    if end == buflen - 1 {
      if end < 1 { return -1; }
      end := end - 1;
      buf[end] := '/';
    }
    at := end;
  }

  /** `d_lookup`: the first child with the name, or -1. */
  method DLookup(t: Tree, d: nat, n: Name) returns (c: int)
    requires d < |t.children|
    ensures c == FindChild(t, t.children[d], n)
    ensures c == -1 <==> forall j :: 0 <= j < |t.children[d]| ==> !Named(t, t.children[d][j], n)
    ensures c != -1 ==> exists i: nat :: FirstNamed(t, t.children[d], n, i) && c == t.children[d][i]
  {
    var i := 0;
    while i < |t.children[d]|
      invariant 0 <= i <= |t.children[d]|
      invariant forall j :: 0 <= j < i ==> !Named(t, t.children[d][j], n)
      invariant FindChild(t, t.children[d], n) == FindChild(t, t.children[d][i..], n)
    {
      var child := t.children[d][i];
      if child < |t.name| && t.name[child] == n {
        assert FirstNamed(t, t.children[d], n, i);
        return child;
      }
      i := i + 1;
    }
    c := -1;
  }

  /** With LOOKUP_PARENT the last component is not walked. */
  function Wanted(ns: seq<Name>, parentOnly: bool): seq<Name> {
    if parentOnly && ns != [] then ns[..|ns| - 1] else ns
  }

  lemma {:induction false} FindChildInRange(t: Tree, cs: seq<nat>, n: Name)
    requires forall i :: 0 <= i < |cs| ==> cs[i] < |t.parent|
    ensures -1 <= FindChild(t, cs, n) < |t.parent|
  {
    if cs != [] { FindChildInRange(t, cs[1..], n); }
  }

  /** Skipping slashes changes no component; what follows is a component or the end. */
  method SkipSlashes(p: string, i: nat) returns (j: nat)
    requires i <= |p|
    ensures i <= j <= |p| && Components(p[i..]) == Components(p[j..]) && (j < |p| ==> p[j] != '/')
  {
    j := i;
    while j < |p| && p[j] == '/'
      invariant i <= j <= |p| && Components(p[i..]) == Components(p[j..])
    {
      assert p[j..][1..] == p[j + 1..];
      j := j + 1;
    }
  }

  method FindEnd(p: string, i: nat) returns (j: nat)
    requires i < |p| && p[i] != '/'
    ensures i < j <= |p| && Components(p[i..]) == [p[i..j]] + Components(p[j..])
  {
    j := i;
    while j < |p| && p[j] != '/'
      invariant i <= j <= |p| && ComponentEnd(p[i..]) == (j - i) + ComponentEnd(p[j..])
    {
      assert p[j..][1..] == p[j + 1..];
      j := j + 1;
    }
    assert p[i..][..j - i] == p[i..j] && p[i..][j - i..] == p[j..];
  }

  lemma WantedCons(n: Name, rest: seq<Name>, parentOnly: bool)
    ensures Wanted([n] + rest, parentOnly) == if parentOnly && rest == [] then [] else [n] + Wanted(rest, parentOnly)
  {
    if parentOnly && rest != [] {
      assert ([n] + rest)[..|rest|] == [n] + rest[..|rest| - 1];
    }
  }

  lemma WalkCons(t: Tree, d: nat, n: Name, rest: seq<Name>)
    ensures Walk(t, d, [n] + rest) == Onward(t, Step(t, d, n), rest)
  {
    assert ([n] + rest)[1..] == rest;
  }

  lemma NoComponents()
    ensures Components("") == []
  {
  }

  lemma SomeComponents(p: string)
    requires p != "" && p[0] != '/'
    ensures Components(p) != []
  {
  }

  /** `kern_path`: always from the root, whether or not the path begins with a slash. */
  method KernPath(t: Tree, path: string, parentOnly: bool) returns (r: Result)
    requires Linked(t)
    ensures r == Walk(t, ROOT, Wanted(Components(path), parentOnly))
  {
    hide Components, Walk, Wanted, FindChild;
    NoComponents();
    ghost var goal := Walk(t, ROOT, Wanted(Components(path), parentOnly));
    var d, i, walking := ROOT, 0, true;
    assert path[0..] == path && path[|path|..] == "";
    while i < |path| && walking
      invariant 0 <= i <= |path| && 0 <= d < |t.parent|
      invariant walking ==> goal == Walk(t, d, Wanted(Components(path[i..]), parentOnly))
      invariant !walking ==> goal == Found(d)
      decreases |path| - i, walking
    {
      i := SkipSlashes(path, i);
      if i < |path| {
        var next := FindEnd(path, i);
        var n := path[i..next];
        WantedCons(n, Components(path[next..]), parentOnly);
        if parentOnly {
          var after := SkipSlashes(path, next);
          walking := after < |path|;
          if walking { SomeComponents(path[after..]); } else { WalkEnd(t, d); }
        }
        if walking {
          WalkCons(t, d, n, Wanted(Components(path[next..]), parentOnly));
          if n == "." {
          } else if n == ".." {
            if d != ROOT { d := t.parent[d]; }
          } else {
            var c := DLookup(t, d, n);
            FindChildInRange(t, t.children[d], n);
            if c < 0 { return Failed(ENOENT); }
            d := c;
          }
          i := next;
        }
      }
    }
    WalkEnd(t, d);
    r := Found(d);
  }

  lemma WalkEnd(t: Tree, d: nat)
    ensures Walk(t, d, Wanted([], true)) == Found(d) && Walk(t, d, Wanted([], false)) == Found(d) && Walk(t, d, []) == Found(d)
  {
  }

  predicate Absolute(p: string) { p != "" && p[0] == '/' }

  /** `at_resolve` behind the file-descriptor lookup: `dir` is the directory the descriptor names, or -1 for AT_FDCWD.
      `hasInode` and `isDir` describe that directory's inode. */
  method AtResolve(t: Tree, dir: int, hasInode: bool, isDir: bool, pathname: string, parentOnly: bool) returns (r: Result)
    requires Linked(t) && -1 <= dir < |t.parent|
    ensures Absolute(pathname) || dir == -1 ==> r == Walk(t, ROOT, Wanted(Components(pathname), parentOnly))
    ensures !Absolute(pathname) && dir != -1 ==>
      r == if !hasInode then Failed(EBADF)
           else if !isDir then Failed(ENOTDIR)
           else if |PathOf(t, dir)| + 1 > PATH_MAX then Failed(ENAMETOOLONG)
           else Walk(t, ROOT, Wanted(Components(PathOf(t, dir) + "/" + pathname), parentOnly))
  {
    hide Components, Walk, Wanted, Printed, FindChild;
    if Absolute(pathname) || dir == -1 {
      r := KernPath(t, pathname, parentOnly);
      return;
    }
    if !hasInode { return Failed(EBADF); }
    if !isDir { return Failed(ENOTDIR); }
    var basePath := new char[PATH_MAX];
    var bp := DentryPathRaw(t, dir, basePath, PATH_MAX);
    if bp == -1 { return Failed(ENAMETOOLONG); }
    var full := basePath[bp..PATH_MAX - 1] + "/" + pathname;
    r := KernPath(t, full, parentOnly);
  }

  /** What `at_resolve` means: a relative path is walked from the directory itself, dot-dot and repeated slashes
      included. The one exception: LOOKUP_PARENT of a path without components answers the directory's own parent. */
  lemma AtResolveWalksFromBase(t: Tree, base: nat, pathname: string, parentOnly: bool)
    requires Linked(t) && PlainNames(t) && base < |t.parent|
    ensures Walk(t, ROOT, Wanted(Components(PathOf(t, base) + "/" + pathname), parentOnly)) ==
              if parentOnly && Components(pathname) == [] then Found(t.parent[base])
              else Walk(t, base, Wanted(Components(pathname), parentOnly))
  {
    var xs, ys := Names(t, base), Components(pathname);
    ComponentsJoin(PathOf(t, base), pathname);
    ComponentsOfPath(t, base);
    WalkNames(t, base);
    hide Linked, PlainNames, Components;
    if !parentOnly {
      WalkJoin(t, ROOT, xs, ys);
    } else if ys != [] {
      assert (xs + ys)[..|xs + ys| - 1] == xs + ys[..|ys| - 1];
      WalkJoin(t, ROOT, xs, ys[..|ys| - 1]);
    } else {
      assert xs + ys == xs;
      WalkNames(t, t.parent[base]);
      if base != ROOT { assert xs[..|xs| - 1] == Names(t, t.parent[base]); }
    }
  }

  /** A relative path is walked from the root whatever the working directory `cwd` is, so `kern_path` does what its comment
      announces for every relative path exactly when the working directory is the root. */
  lemma WorkingDirectoryIgnored(t: Tree, cwd: nat)
    requires Linked(t) && cwd < |t.parent|
    ensures (forall p: string :: !Absolute(p) ==> Walk(t, ROOT, Components(p)) == Walk(t, cwd, Components(p))) <==> cwd == ROOT
  {
    if cwd != ROOT {
      OneComponent(".");
      assert Walk(t, ROOT, ["."]) == Found(ROOT) && Walk(t, cwd, ["."]) == Found(cwd);
      assert !Absolute(".");
    }
  }

  // ---- what the special components and slashes mean

  /** What `kern_path` answers for a path, LOOKUP_PARENT aside. */
  function Resolve(t: Tree, p: string): Result { Walk(t, ROOT, Components(p)) }

  lemma ResolveJoin(t: Tree, p: string, q: string)
    ensures Resolve(t, p + "/" + q) == Onward(t, Resolve(t, p), Components(q))
  {
    ComponentsJoin(p, q);
    WalkJoin(t, ROOT, Components(p), Components(q));
  }

  lemma {:induction false} WalkStays(t: Tree, d: nat, ns: seq<Name>)
    requires Linked(t) && d < |t.parent|
    ensures Walk(t, d, ns).Found? ==> Walk(t, d, ns).dentry < |t.parent|
    ensures Walk(t, d, ns).Failed? ==> Walk(t, d, ns).err == ENOENT
    decreases |ns|
  {
    if ns != [] {
      FindChildInRange(t, t.children[d], ns[0]);
      if Step(t, d, ns[0]).Found? { WalkStays(t, Step(t, d, ns[0]).dentry, ns[1..]); }
    }
  }

  /** Dot-dot leads to the parent of whatever the path leads to, the root being its own; dot and trailing slashes change
      nothing. */
  lemma DotDot(t: Tree, p: string)
    requires Linked(t) && Resolve(t, p).Found?
    ensures var d := Resolve(t, p).dentry;
      && d < |t.parent| && Resolve(t, p + "/..") == Found(t.parent[d]) && Resolve(t, p + "/.") == Found(d)
      && Resolve(t, p + "/") == Found(d)
  {
    var d := Resolve(t, p).dentry;
    WalkStays(t, ROOT, Components(p));
    SpecialComponents();
    assert p + "/.." == p + "/" + ".." && p + "/." == p + "/" + "." && p + "/" == p + "/" + "";
    ResolveJoin(t, p, "..");
    ResolveJoin(t, p, ".");
    ResolveJoin(t, p, "");
    hide Components, FindChild;
    assert [".."][1..] == [] && ["."][1..] == [];
  }

  lemma SpecialComponents()
    ensures Components("..") == [".."] && Components(".") == ["."] && Components("") == []
  {
    OneComponent("..");
    OneComponent(".");
  }

  /** So the printed path of a dentry followed by dot-dot is its parent, and by dot the dentry itself. */
  lemma PrintedDotDot(t: Tree, d: nat)
    requires Linked(t) && PlainNames(t) && d < |t.parent|
    ensures Resolve(t, PathOf(t, d) + "/..") == Found(t.parent[d]) && Resolve(t, PathOf(t, d) + "/.") == Found(d)
  {
    PrintResolve(t, d);
    hide Linked, PlainNames, PathOf;
    DotDot(t, PathOf(t, d));
  }

  /** Going down to a child and back up cancels, whatever path led there. */
  lemma DownAndUp(t: Tree, p: string, c: nat)
    requires Linked(t) && PlainNames(t) && 0 < c < |t.parent| && Resolve(t, p) == Found(t.parent[c])
    ensures Resolve(t, p + "/" + t.name[c]) == Found(c) && Resolve(t, p + "/" + t.name[c] + "/..") == Resolve(t, p)
    ensures Walk(t, t.parent[c], [t.name[c], ".."]) == Found(t.parent[c])
  {
    StepToChild(t, c);
    assert PlainName(t.name[c]);
    OneComponent(t.name[c]);
    ResolveJoin(t, p, t.name[c]);
    hide Components, FindChild, Linked;
    DotDot(t, p + "/" + t.name[c]);
    WalkJoin(t, t.parent[c], [t.name[c]], [".."]);
    UpFrom(t, c);
    assert [t.name[c]] + [".."] == [t.name[c], ".."];
  }

  lemma UpFrom(t: Tree, c: nat)
    requires Linked(t) && 0 < c < |t.parent|
    ensures Walk(t, c, [".."]) == Found(t.parent[c])
  {
    assert [".."][1..] == [];
  }

  /** Repeated slashes count once, and leading ones not at all. */
  lemma SlashesCollapse(t: Tree, p: string, q: string)
    ensures Resolve(t, p + "//" + q) == Resolve(t, p + "/" + q) && Resolve(t, "/" + q) == Resolve(t, q)
  {
    assert p + "//" + q == (p + "/") + "/" + q && p + "/" == p + "/" + "" && "/" + q == "" + "/" + q;
    ComponentsJoin(p + "/", q);
    ComponentsJoin(p, "");
    ComponentsJoin(p, q);
    ComponentsJoin("", q);
    SpecialComponents();
    hide Components;
    assert Components(p) + [] == Components(p) && [] + Components(q) == Components(q);
  }

  /** A name that no child bears is not found, one that a child bears is that child, and nothing comes after a failure. */
  lemma NameLookup(t: Tree, p: string, n: Name)
    requires Linked(t) && PlainName(n)
    ensures Resolve(t, p).Found? ==>
            var d := Resolve(t, p).dentry;
            d < |t.parent| &&
            (Resolve(t, p + "/" + n) == Failed(ENOENT) <==> forall i :: 0 <= i < |t.children[d]| ==> !Named(t, t.children[d][i], n)) &&
            forall i :: 0 <= i < |t.children[d]| && Named(t, t.children[d][i], n) ==> Resolve(t, p + "/" + n) == Found(t.children[d][i])
    ensures Resolve(t, p).Failed? ==> Resolve(t, p) == Failed(ENOENT) && forall q: string :: Resolve(t, p + "/" + q) == Failed(ENOENT)
  {
    WalkStays(t, ROOT, Components(p));
    forall q: string ensures Resolve(t, p).Failed? ==> Resolve(t, p + "/" + q) == Failed(ENOENT) { ResolveJoin(t, p, q); }
    if Resolve(t, p).Found? {
      var d := Resolve(t, p).dentry;
      ResolveJoin(t, p, n);
      OneComponent(n);
      assert [n][1..] == [];
      var cs := t.children[d];
      assert DistinctNames(t, cs);
      LookupIs(t, cs, n);
      FindChildInRange(t, cs, n);
      hide Components, FindChild, Linked, DistinctNames;
      StepIs(t, d, n);
    }
  }

  lemma StepIs(t: Tree, d: nat, n: Name)
    requires Linked(t) && d < |t.parent| && PlainName(n)
    ensures Walk(t, d, [n]) == if FindChild(t, t.children[d], n) < 0 then Failed(ENOENT) else Found(FindChild(t, t.children[d], n))
  {
    assert [n][1..] == [];
    hide FindChild;
    if FindChild(t, t.children[d], n) >= 0 { assert Walk(t, FindChild(t, t.children[d], n), []) == Found(FindChild(t, t.children[d], n)); }
  }

  lemma {:induction false} LookupIs(t: Tree, cs: seq<nat>, n: Name)
    requires DistinctNames(t, cs)
    ensures FindChild(t, cs, n) < 0 <==> forall i :: 0 <= i < |cs| ==> !Named(t, cs[i], n)
    ensures forall i :: 0 <= i < |cs| && Named(t, cs[i], n) ==> FindChild(t, cs, n) == cs[i]
    decreases |cs|
  {
    if cs != [] {
      assert forall i :: 0 <= i < |cs[1..]| ==> cs[1..][i] == cs[i + 1];
      LookupIs(t, cs[1..], n);
      forall i | 0 <= i < |cs| && Named(t, cs[i], n) ensures FindChild(t, cs, n) == cs[i] {
        if i > 0 { assert cs[i] == cs[1..][i - 1]; }
      }
      if FindChild(t, cs, n) < 0 {
        forall i | 0 <= i < |cs| ensures !Named(t, cs[i], n) { if i > 0 { assert cs[i] == cs[1..][i - 1]; } }
      }
    }
  }

  /** LOOKUP_PARENT stops before the last component, whatever that is and however many slashes follow it. */
  lemma ParentLookup(t: Tree, p: string, n: Name)
    requires n != "" && '/' !in n
    ensures Walk(t, ROOT, Wanted(Components(p + "/" + n), true)) == Resolve(t, p)
    ensures Walk(t, ROOT, Wanted(Components(p + "/" + n + "/"), true)) == Resolve(t, p)
    ensures forall q: string :: Walk(t, ROOT, Wanted(Components(q), false)) == Resolve(t, q)
  {
    ComponentsJoin(p, n);
    OneComponent(n);
    assert p + "/" + n + "/" == (p + "/" + n) + "/" + "";
    ComponentsJoin(p + "/" + n, "");
    hide Components;
    assert (Components(p) + [n])[..|Components(p)|] == Components(p);
    NoComponents();
    assert Components(p) + [n] + [] == Components(p) + [n];
  }

  /** `at_resolve(dir, "..")` is the parent of the directory. */
  lemma AtDotDot(t: Tree, base: nat)
    requires Linked(t) && PlainNames(t) && base < |t.parent|
    ensures Walk(t, ROOT, Wanted(Components(PathOf(t, base) + "/" + ".."), false)) == Found(t.parent[base])
  {
    PrintedDotDot(t, base);
    assert PathOf(t, base) + "/" + ".." == PathOf(t, base) + "/..";
  }
}
