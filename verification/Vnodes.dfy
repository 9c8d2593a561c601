/** The tree of vnodes in memory: child lists, mounted filesystem roots, path printing and path
    resolution. */
module Vnodes {
  import opened PathNames

  const NULL := -1
  const MAX_DEPTH := 16

  datatype Kind = Dir | Mnt | Lnk | Other

  /** struct vnode.  `target` is the root mounted on a mount point, and for that root its mount point. */
  datatype Vnode = Vnode(kind: Kind, name: string, parent: int, first: int, next: int, target: int)

  type Tree = map<int, Vnode>
  type Kids = map<int, seq<int>>

  function First(s: seq<int>): int { if s == [] then NULL else s[0] }

  ghost predicate ChildAt(m: Tree, p: int, s: seq<int>, i: int)
    requires 0 <= i < |s|
  {
    s[i] in m && s[i] != NULL && m[s[i]].parent == p && m[s[i]].next == if i + 1 < |s| then s[i + 1] else NULL
  }

  /** The children of p, as its list links them. */
  ghost predicate ChildList(m: Tree, p: int, s: seq<int>)
    requires p in m
  {
    && m[p].first == First(s)
    && (forall i :: 0 <= i < |s| ==> ChildAt(m, p, s, i))
    && (forall i, j :: 0 <= i < j < |s| ==> s[i] != s[j])
  }

  predicate FsRoot(v: Vnode) { v.kind == Dir && v.target != NULL }

  /** Mount points and the roots mounted on them know each other and share their parent. */
  ghost predicate MountOk(m: Tree, n: int)
    requires n in m
  {
    m[n].kind == Mnt || FsRoot(m[n]) ==>
      && m[n].target in m && m[m[n].target].target == n && m[m[n].target].parent == m[n].parent
      && (if m[n].kind == Mnt then FsRoot(m[m[n].target]) else m[m[n].target].kind == Mnt)
  }

  /** A node with a parent is on the parent's list, unless it is a mounted root, which is on none. */
  ghost predicate ParentOk(m: Tree, kids: Kids, n: int)
    requires n in m && kids.Keys == m.Keys
  {
    && (m[n].parent != NULL ==> m[n].parent in m && (FsRoot(m[n]) || n in kids[m[n].parent]))
    && (FsRoot(m[n]) ==> forall p :: p in kids ==> n !in kids[p])
  }

  /** The links of the tree agree with each other. */
  ghost predicate Wired(m: Tree, kids: Kids) {
    && kids.Keys == m.Keys && NULL !in m
    && (forall p :: p in m ==> ChildList(m, p, kids[p]))
    && (forall n :: n in m ==> MountOk(m, n))
    && (forall n :: n in m ==> ParentOk(m, kids, n))
  }

  /** Heights that fall along every way up. */
  ghost predicate Graded(m: Tree, h: map<int, int>) {
    h.Keys == m.Keys && forall n :: n in m ==> h[n] >= 0 && (m[n].parent != NULL ==> m[n].parent in m && h[m[n].parent] < h[n])
  }

  /** No node is below itself, so every way up ends. */
  ghost predicate Acyclic(m: Tree) { exists h :: Graded(m, h) }

  ghost predicate Sound(m: Tree, kids: Kids) { Wired(m, kids) && Acyclic(m) }

  /** The k-th node on the way up from n. */
  ghost function Up(m: Tree, n: int, k: nat): int
    decreases k
  {
    if k == 0 || n !in m then n else Up(m, m[n].parent, k - 1)
  }

  ghost predicate Below(m: Tree, n: int, c: int) { exists k: nat :: Up(m, n, k) == c }

  /** Siblings have different, ordinary names. */
  ghost predicate Named(m: Tree, s: seq<int>) {
    && (forall i :: 0 <= i < |s| ==> s[i] in m && Ordinary(m[s[i]].name))
    && (forall i, j :: 0 <= i < j < |s| ==> s[i] in m && s[j] in m && m[s[i]].name != m[s[j]].name)
  }

  ghost predicate AllNamed(m: Tree, kids: Kids) { forall p :: p in m && p in kids ==> Named(m, kids[p]) }

  // ---------------------------------------------------------------- lookup

  /** vnode_lookup_child over the list. */
  ghost function LookupIn(m: Tree, s: seq<int>, name: string): int {
    if s == [] then NULL else if s[0] in m && m[s[0]].name == name then s[0] else LookupIn(m, s[1..], name)
  }

  lemma {:induction false} LookupFinds(m: Tree, s: seq<int>, name: string, k: int)
    requires Named(m, s) && 0 <= k < |s| && m[s[k]].name == name
    ensures LookupIn(m, s, name) == s[k]
    decreases |s|
  {
    if k > 0 {
      assert m[s[0]].name != m[s[k]].name;
      assert Named(m, s[1..]) by { NamedTail(m, s); }
      LookupFinds(m, s[1..], name, k - 1);
    }
  }

  lemma NamedTail(m: Tree, s: seq<int>)
    requires Named(m, s) && s != []
    ensures Named(m, s[1..])
  {
  }

  /** Crossing a mount point. */
  function Settle(m: Tree, n: int): int { if n in m && m[n].kind == Mnt then m[n].target else n }

  datatype Result = Found(node: int) | NoEntry | NotDir | LinkAhead

  /** vfs_find_internal, with names looked up in memory only and stopping at symbolic links. */
  ghost function Find(m: Tree, kids: Kids, at: int, path: string): Result
    decreases |path|, 1
  {
    if at !in m then NoEntry
    else if path == "" then Found(at)
    else if m[at].kind == Lnk then LinkAhead
    else
      var dir := Settle(m, at);
      if dir !in m || m[dir].kind != Dir then NotDir else Walk(m, kids, dir, SkipSlashes(path))
  }

  /** Its loop over "." and what follows it. */
  ghost function Walk(m: Tree, kids: Kids, dir: int, path: string): Result
    requires dir in m
    decreases |path|, 0
  {
    var (name, rest) := Element(path);
    if name == "." then
      if rest.None? then Found(dir) else Walk(m, kids, dir, rest.value)
    else if name == ".." then
      var up := if m[dir].parent == NULL then dir else m[dir].parent;
      if rest.None? then (if up in m then Found(up) else NoEntry) else Find(m, kids, up, rest.value)
    else
      var child := if dir in kids then LookupIn(m, kids[dir], name) else NULL;
      if child !in m then NoEntry
      else if rest.Some? then Find(m, kids, child, rest.value)
      else if m[child].kind == Lnk then LinkAhead
      else Found(child)
  }

  predicate Absolute(path: string) { path != "" && path[0] == '/' }

  function StartOf(root: int, rel: int, cwd: int, path: string): int {
    if Absolute(path) then root else if rel != NULL then rel else if cwd != NULL then cwd else root
  }

  function Relative(path: string): string { if Absolute(path) then SkipSlashes(path) else path }

  /** vfs_find of an absolute path. */
  ghost function FindAbsolute(m: Tree, kids: Kids, root: int, path: string): Result {
    match Find(m, kids, root, SkipSlashes(path))
    case Found(n) => Found(Settle(m, n))
    case r => r
  }

  // ---------------------------------------------------------------- what a path means

  predicate Dotted(name: string) { name == "." || name == ".." }

  /** A directory, or a mount point, through which the directory is entered that is mounted on it. */
  predicate Enters(m: Tree, n: int) { n in m && m[n].kind != Lnk && Settle(m, n) in m && m[Settle(m, n)].kind == Dir }

  /** Node c is the first child of d that has the name. */
  ghost predicate Child(m: Tree, kids: Kids, d: int, name: string, c: int) {
    d in kids && exists k :: 0 <= k < |kids[d]| && FirstAt(m, kids[d], name, k) && kids[d][k] == c
  }

  ghost predicate FirstAt(m: Tree, s: seq<int>, name: string, k: int)
    requires 0 <= k < |s|
  {
    NamedAt(m, s, name, k) && forall j :: 0 <= j < k ==> !NamedAt(m, s, name, j)
  }

  predicate NamedAt(m: Tree, s: seq<int>, name: string, k: int)
    requires 0 <= k < |s|
  {
    s[k] in m && m[s[k]].name == name
  }

  /** Where one element of a path leads from x: "." to the directory itself, ".." to its parent or, at
      the top, to itself, and a name to the child of that name. */
  ghost predicate Leads(m: Tree, kids: Kids, x: int, name: string, y: int) {
    && Enters(m, x) && y in m
    && var d := Settle(m, x);
    if name == "." then y == d
    else if name == ".." then y == if m[d].parent == NULL then d else m[d].parent
    else Child(m, kids, d, name, y)
  }

  /** The nodes that the first |t| - 1 elements of a path lead to, from `at` on. */
  ghost predicate Trail(m: Tree, kids: Kids, at: int, names: seq<string>, t: seq<int>)
    decreases |t|
  {
    && t != [] && t[0] == at
    && (|t| > 1 ==> names != [] && Leads(m, kids, at, names[0], t[1]) && Trail(m, kids, t[1], names[1..], t[1..]))
  }

  /** How a path ends whose trail has come to its last node: with that node, if all elements have been
      followed; at a symbolic link; at something that is no directory; or at a name that no child has. */
  ghost predicate Ends(m: Tree, kids: Kids, names: seq<string>, t: seq<int>, r: Result) {
    && t != []
    && var k, x := |t| - 1, t[|t| - 1];
    && x in m && k <= |names|
    && var byName := 0 < k && !Dotted(names[k - 1]);
    match r
    case Found(n) => k == |names| && n == x && (byName ==> m[x].kind != Lnk)
    case LinkAhead => m[x].kind == Lnk && (k < |names| || byName)
    case NotDir => k < |names| && m[x].kind != Lnk && !Enters(m, x)
    case NoEntry => k < |names| && Enters(m, x) && !Dotted(names[k]) && forall c :: !Child(m, kids, Settle(m, x), names[k], c)
  }

  /** What a path means, said by its elements. */
  ghost predicate Resolves(m: Tree, kids: Kids, at: int, path: string, r: Result) {
    exists t :: Trail(m, kids, at, Elements(path), t) && Ends(m, kids, Elements(path), t, r)
  }

  lemma {:induction false} LookupFirst(m: Tree, s: seq<int>, name: string)
    requires forall i :: 0 <= i < |s| ==> s[i] in m && s[i] != NULL
    ensures var c := LookupIn(m, s, name);
      if c == NULL then forall k :: 0 <= k < |s| ==> !NamedAt(m, s, name, k)
      else exists k :: 0 <= k < |s| && FirstAt(m, s, name, k) && s[k] == c
    decreases |s|
  {
    if s != [] && m[s[0]].name != name {
      var u := s[1..];
      LookupFirst(m, u, name);
      if LookupIn(m, s, name) == NULL {
        forall k | 0 <= k < |s| ensures !NamedAt(m, s, name, k) { if k > 0 { assert !NamedAt(m, u, name, k - 1); } }
      } else {
        var k :| 0 <= k < |u| && FirstAt(m, u, name, k) && u[k] == LookupIn(m, u, name);
        forall j | 0 <= j < k + 1 ensures !NamedAt(m, s, name, j) { if j > 0 { assert !NamedAt(m, u, name, j - 1); } }
        assert NamedAt(m, s, name, k + 1);
      }
    } else if s != [] {
      assert FirstAt(m, s, name, 0);
    }
  }

  /** Looking a name up finds the child of that name. */
  lemma ChildIs(m: Tree, kids: Kids, d: int, name: string, c: int)
    requires Wired(m, kids) && d in m
    ensures d in kids && (Child(m, kids, d, name, c) <==> c == LookupIn(m, kids[d], name) != NULL)
    ensures Child(m, kids, d, name, c) ==> c in m
  {
    var s := kids[d];
    assert ChildList(m, d, s);
    forall i | 0 <= i < |s| ensures s[i] in m && s[i] != NULL { assert ChildAt(m, d, s, i); }
    LookupFirst(m, s, name);
    if Child(m, kids, d, name, c) {
      var k :| 0 <= k < |s| && FirstAt(m, s, name, k) && s[k] == c;
      assert NamedAt(m, s, name, k);
      var l :| 0 <= l < |s| && FirstAt(m, s, name, l) && s[l] == LookupIn(m, s, name);
      assert k == l;
    }
  }

  /** A step and the trail from where it leads. */
  lemma TrailCons(m: Tree, kids: Kids, x: int, name: string, y: int, names: seq<string>, t: seq<int>, r: Result)
    requires Leads(m, kids, x, name, y) && names != [] && Trail(m, kids, y, names, t) && Ends(m, kids, names, t, r)
    ensures Trail(m, kids, x, [name] + names, [x] + t) && Ends(m, kids, [name] + names, [x] + t, r)
  {
    hide Leads, Child, Enters;
    var all, u := [name] + names, [x] + t;
    assert all[1..] == names && u[1..] == t;
    assert forall i :: 0 <= i < |names| ==> all[i + 1] == names[i];
  }

  lemma TrailLast(m: Tree, kids: Kids, x: int, name: string, y: int)
    requires Leads(m, kids, x, name, y)
    ensures Trail(m, kids, x, [name], [x, y])
    ensures Ends(m, kids, [name], [x, y], if !Dotted(name) && m[y].kind == Lnk then LinkAhead else Found(y))
  {
    hide Child, Enters;
    assert [x, y][1..] == [y] && Trail(m, kids, y, [name][1..], [y]);
  }

  /** Resolution follows the elements of the path. */
  lemma {:induction false} FindTrails(m: Tree, kids: Kids, at: int, path: string) returns (t: seq<int>)
    requires Wired(m, kids) && at in m
    ensures Trail(m, kids, at, Elements(path), t) && Ends(m, kids, Elements(path), t, Find(m, kids, at, path))
    decreases |path|, 1
  {
    hide Wired, Element, SkipSlashes, LookupIn, Child, Split;
    t := [at];
    if path != "" {
      SettleIn(m, kids, at);
      SplitSome(SkipSlashes(path));
      if Enters(m, at) { t := WalkTrails(m, kids, at, SkipSlashes(path)); }
    }
  }

  lemma SplitSome(path: string)
    ensures Split(path) != []
  {
  }

  lemma {:induction false} WalkTrails(m: Tree, kids: Kids, x: int, path: string) returns (t: seq<int>)
    requires Wired(m, kids) && Enters(m, x)
    ensures Trail(m, kids, x, Split(path), t) && Ends(m, kids, Split(path), t, Walk(m, kids, Settle(m, x), path))
    decreases |path|, 0
  {
    hide Wired, Element, LookupIn, Child, Trail, Ends, Find, Elements;
    var (name, rest) := Element(path);
    var d := Settle(m, x);
    WiredKeys(m, kids);
    ParentIn(m, kids, d);
    var y := if name == "." then d else if name == ".." then (if m[d].parent == NULL then d else m[d].parent) else LookupIn(m, kids[d], name);
    ChildIs(m, kids, d, name, y);
    if !Dotted(name) && y == NULL {
      t := [x];
      NoChild(m, kids, x, path);
    } else {
      assert Leads(m, kids, x, name, y);
      if rest.None? {
        t := [x, y];
        assert Split(path) == [name];
        TrailLast(m, kids, x, name, y);
      } else {
        ElementsMore(path);
        var u;
        if name == "." {
          u := WalkTrails(m, kids, y, rest.value);
          SplitIs(path);
        } else {
          u := FindTrails(m, kids, y, rest.value);
        }
        ElementsSome(rest.value);
        t := [x] + u;
        TrailCons(m, kids, x, name, y, Elements(rest.value), u, Walk(m, kids, d, path));
      }
    }
  }

  lemma ElementsSome(path: string)
    requires path != ""
    ensures Elements(path) != []
  {
  }

  lemma SplitIs(path: string)
    requires Element(path).1.Some?
    ensures Elements(Element(path).1.value) == Split(Element(path).1.value)
  {
    ElementSplits(path);
    hide Element, Split;
    SkipNone(Element(path).1.value);
  }

  lemma NoChild(m: Tree, kids: Kids, x: int, path: string)
    requires Wired(m, kids) && Enters(m, x) && Settle(m, x) in kids && !Dotted(Element(path).0)
    requires LookupIn(m, kids[Settle(m, x)], Element(path).0) == NULL
    ensures Trail(m, kids, x, Split(path), [x]) && Ends(m, kids, Split(path), [x], NoEntry)
  {
    hide Wired, Element, LookupIn, Child;
    forall c ensures !Child(m, kids, Settle(m, x), Element(path).0, c) { ChildIs(m, kids, Settle(m, x), Element(path).0, c); }
  }

  /** A path has one meaning. */
  lemma {:induction false} OneEnd(m: Tree, kids: Kids, at: int, names: seq<string>, t: seq<int>, r: Result, t': seq<int>, r': Result)
    requires Wired(m, kids)
    requires Trail(m, kids, at, names, t) && Ends(m, kids, names, t, r) && Trail(m, kids, at, names, t') && Ends(m, kids, names, t', r')
    ensures r == r'
    decreases |names|
  {
    hide Wired, Child;
    if |t| > 1 && |t'| > 1 {
      LeadsOnce(m, kids, at, names[0], t[1], t'[1]);
      if |t| > 2 || |t'| > 2 {
        EndsTail(m, kids, names, t, r);
        EndsTail(m, kids, names, t', r');
        OneEnd(m, kids, t[1], names[1..], t[1..], r, t'[1..], r');
      }
    }
  }

  lemma LeadsOnce(m: Tree, kids: Kids, x: int, name: string, y: int, z: int)
    requires Wired(m, kids) && Leads(m, kids, x, name, y) && Leads(m, kids, x, name, z)
    ensures y == z
  {
    hide Wired, Child;
    ChildIs(m, kids, Settle(m, x), name, y);
    ChildIs(m, kids, Settle(m, x), name, z);
  }

  lemma EndsTail(m: Tree, kids: Kids, names: seq<string>, t: seq<int>, r: Result)
    requires |t| > 1 && names != [] && |names| > 1 && Ends(m, kids, names, t, r)
    ensures Ends(m, kids, names[1..], t[1..], r)
  {
    hide Child, Enters;
  }

  /** Resolution gives the one meaning that a path has. */
  lemma FindMeans(m: Tree, kids: Kids, at: int, path: string)
    requires Wired(m, kids) && at in m
    ensures forall r :: Resolves(m, kids, at, path, r) <==> r == Find(m, kids, at, path)
  {
    hide Wired, Trail, Ends, Find, Elements;
    var t := FindTrails(m, kids, at, path);
    forall r | Resolves(m, kids, at, path, r) ensures r == Find(m, kids, at, path) {
      var u :| Trail(m, kids, at, Elements(path), u) && Ends(m, kids, Elements(path), u, r);
      OneEnd(m, kids, at, Elements(path), t, Find(m, kids, at, path), u, r);
    }
  }

  // ---------------------------------------------------------------- printing

  /** The name a node goes by in a path: a mounted root goes by its mount point's name. */
  function ShownName(m: Tree, n: int): string {
    if n !in m then "" else if FsRoot(m[n]) && m[n].target in m then m[m[n].target].name else m[n].name
  }

  function Names(m: Tree, down: seq<int>): seq<string> {
    if down == [] then [] else Names(m, down[..|down| - 1]) + [ShownName(m, down[|down| - 1])]
  }

  /** vfs_vnode_path of the last node of the way down from the top. */
  function Printed(m: Tree, down: seq<int>): string { "/" + Join(Names(m, down)) }

  function Above(top: int, down: seq<int>, i: int): int
    requires 0 <= i < |down|
  {
    if i == 0 then top else down[i - 1]
  }

  /** The i-th node on the way is a child of the one before; all but the last are directories that
      nothing is mounted on, and the last is no mount point and no symbolic link. */
  ghost predicate Under(m: Tree, top: int, down: seq<int>, i: int)
    requires 0 <= i < |down|
  {
    && down[i] in m && m[down[i]].parent == Above(top, down, i)
    && (if i + 1 < |down| then m[down[i]].kind == Dir else m[down[i]].kind != Mnt && m[down[i]].kind != Lnk)
  }

  /** The nodes from below `top` down to the last, each the parent of the next. */
  ghost predicate Lineage(m: Tree, top: int, down: seq<int>) {
    && top in m && m[top].parent == NULL
    && forall i :: 0 <= i < |down| ==> down[i] in m && m[down[i]].parent == Above(top, down, i)
  }

  ghost predicate WayDown(m: Tree, top: int, down: seq<int>) {
    && top in m && m[top].parent == NULL && m[top].kind == Dir
    && forall i :: 0 <= i < |down| ==> Under(m, top, down, i)
  }

  // ---------------------------------------------------------------- printing and resolving are inverse

  lemma {:induction false} NamesAt(m: Tree, down: seq<int>, i: int)
    requires 0 <= i < |down|
    ensures |Names(m, down)| == |down| && Names(m, down)[i] == ShownName(m, down[i])
    decreases |down|
  {
    if |down| > 1 { NamesAt(m, down[..|down| - 1], if i < |down| - 1 then i else 0); }
  }

  /** One step of resolution along joined names. */
  lemma FindNames(m: Tree, kids: Kids, at: int, names: seq<string>)
    requires AllOrdinary(names) && names != [] && at in m && m[at].kind != Lnk && Settle(m, at) in m && Settle(m, at) in kids
    requires m[Settle(m, at)].kind == Dir
    ensures var child := LookupIn(m, kids[Settle(m, at)], names[0]);
      Find(m, kids, at, Join(names)) ==
        if child !in m then NoEntry
        else if |names| > 1 then Find(m, kids, child, Join(names[1..]))
        else if m[child].kind == Lnk then LinkAhead else Found(child)
  {
    hide Join, Element, LookupIn;
    JoinStarts(names);
    ElementJoin(names);
    assert Ordinary(names[0]);
    assert SkipSlashes(Join(names)) == Join(names);
  }

  /** The entry under which a node on the way down is listed: itself, or the mount point it covers. */
  function Entry(m: Tree, n: int): int { if n in m && FsRoot(m[n]) then m[n].target else n }

  lemma EntryListed(m: Tree, kids: Kids, n: int)
    requires Wired(m, kids) && n in m && m[n].parent != NULL && m[n].kind != Mnt
    ensures var c := Entry(m, n);
      && m[n].parent in m && c in m && c in kids[m[n].parent] && m[c].name == ShownName(m, n) && Settle(m, c) == n
      && (m[n].kind != Lnk ==> m[c].kind != Lnk)
  {
    hide ChildList;
    assert MountOk(m, n) && ParentOk(m, kids, n);
    if FsRoot(m[n]) { assert ParentOk(m, kids, m[n].target); }
  }

  lemma EntryFound(m: Tree, kids: Kids, n: int)
    requires Wired(m, kids) && n in m && m[n].parent != NULL && m[n].kind != Mnt
    requires m[n].parent in m && m[n].parent in kids && Named(m, kids[m[n].parent])
    ensures LookupIn(m, kids[m[n].parent], ShownName(m, n)) == Entry(m, n) && Ordinary(ShownName(m, n))
  {
    hide Wired, Entry, ShownName;
    WiredKeys(m, kids);
    EntryListed(m, kids, n);
    var s := kids[m[n].parent];
    var k :| 0 <= k < |s| && s[k] == Entry(m, n);
    LookupFinds(m, s, ShownName(m, n), k);
  }

  lemma {:induction false} Descend(m: Tree, kids: Kids, top: int, down: seq<int>, at: int, j: int)
    requires Wired(m, kids) && WayDown(m, top, down) && 0 <= j < |down| && AllNamed(m, kids)
    requires at in m && m[at].kind != Lnk && Settle(m, at) == Above(top, down, j)
    ensures |Names(m, down)| == |down| && Find(m, kids, at, Join(Names(m, down)[j..])) == Found(Entry(m, down[|down| - 1]))
    decreases |down| - j
  {
    hide Find, Join, LookupIn, Names, Entry, ShownName, Ordinary, AllNamed, Wired, WayDown, Settle;
    var names := Names(m, down);
    WiredKeys(m, kids);
    forall i | j <= i < |down| ensures |names| == |down| && Ordinary(names[i]) {
      NamesAt(m, down, i);
      DownStep(m, kids, top, down, i);
    }
    NamesAt(m, down, j);
    DownStep(m, kids, top, down, j);
    FindNames(m, kids, at, names[j..]);
    if j + 1 < |down| {
      assert names[j..][1..] == names[j + 1..];
      Descend(m, kids, top, down, Entry(m, down[j]), j + 1);
    }
  }

  lemma WiredKeys(m: Tree, kids: Kids)
    requires Wired(m, kids)
    ensures kids.Keys == m.Keys && NULL !in m
  {
  }

  lemma DownStep(m: Tree, kids: Kids, top: int, down: seq<int>, i: int)
    requires Wired(m, kids) && WayDown(m, top, down) && 0 <= i < |down| && AllNamed(m, kids)
    ensures var n, p := down[i], Above(top, down, i);
      && n in m && p in m && p in kids && m[p].kind == Dir && Ordinary(ShownName(m, n)) && LookupIn(m, kids[p], ShownName(m, n)) == Entry(m, n)
      && Entry(m, n) in m && Settle(m, Entry(m, n)) == n && m[Entry(m, n)].kind != Lnk
  {
    hide Named, LookupIn, Wired, Entry, ShownName, Settle, Ordinary;
    WiredKeys(m, kids);
    assert Under(m, top, down, i);
    if i > 0 { assert Under(m, top, down, i - 1); }
    EntryListed(m, kids, down[i]);
    EntryFound(m, kids, down[i]);
  }

  /** Resolving the printed path of a node gives the node back, across any nesting of mounts. */
  lemma RoundTrip(m: Tree, kids: Kids, root: int, down: seq<int>)
    requires Wired(m, kids) && root in m && m[root].kind != Lnk && WayDown(m, Settle(m, root), down)
    requires AllNamed(m, kids)
    ensures FindAbsolute(m, kids, root, Printed(m, down)) == Found(if down == [] then Settle(m, root) else down[|down| - 1])
  {
    hide Find, Join, LookupIn, Names, ShownName, Ordinary, AllNamed, Wired, WayDown, Entry, Settle;
    var path := Join(Names(m, down));
    if down == [] {
      assert path == "" by { NoNames(m); }
      FindEmpty(m, kids, root);
    } else {
      Descend(m, kids, Settle(m, root), down, root, 0);
      assert Names(m, down)[0..] == Names(m, down);
      assert path != "" && path[0] != '/' by { PrintedStarts(m, kids, Settle(m, root), down); }
      DownStep(m, kids, Settle(m, root), down, |down| - 1);
    }
    assert Printed(m, down)[0] == '/' && Printed(m, down)[1..] == path;
    assert SkipSlashes(Printed(m, down)) == SkipSlashes(path) == path;
  }

  lemma NoNames(m: Tree)
    ensures Join(Names(m, [])) == ""
  {
  }

  lemma FindEmpty(m: Tree, kids: Kids, at: int)
    requires at in m
    ensures Find(m, kids, at, "") == Found(at)
  {
  }

  lemma PrintedStarts(m: Tree, kids: Kids, top: int, down: seq<int>)
    requires Wired(m, kids) && WayDown(m, top, down) && down != [] && AllNamed(m, kids)
    ensures Join(Names(m, down)) != "" && Join(Names(m, down))[0] != '/'
  {
    hide Wired, Names, Ordinary, AllNamed, WayDown, ShownName, Join;
    forall i | 0 <= i < |down| ensures |Names(m, down)| == |down| && Ordinary(Names(m, down)[i]) {
      NamesAt(m, down, i);
      DownStep(m, kids, top, down, i);
    }
    NamesAt(m, down, 0);
    JoinStarts(Names(m, down));
  }

  // ---------------------------------------------------------------- edits

  function Attached(m: Tree, p: int, c: int): Tree
    requires p in m && c in m
  {
    var m1 := m[c := m[c].(parent := p, next := m[p].first)];
    m1[p := m1[p].(first := c)]
  }

  lemma NotListed(m: Tree, kids: Kids, c: int, p: int)
    requires Wired(m, kids) && c in m && m[c].parent == NULL && p in m
    ensures c !in kids[p]
  {
    assert ChildList(m, p, kids[p]);
    forall i | 0 <= i < |kids[p]| ensures kids[p][i] != c { assert ChildAt(m, p, kids[p], i); }
  }

  lemma AttachList(m: Tree, kids: Kids, p: int, c: int, q: int)
    requires Wired(m, kids) && p in m && c in m && q in m && m[c].parent == NULL
    ensures ChildList(Attached(m, p, c), q, if q == p then [c] + kids[p] else kids[q])
  {
    assert ChildList(m, q, kids[q]);
    NotListed(m, kids, c, q);
    hide Wired;
    var m', s := Attached(m, p, c), if q == p then [c] + kids[p] else kids[q];
    forall i | 0 <= i < |s| ensures ChildAt(m', q, s, i) {
      if q == p {
        if i > 0 { assert ChildAt(m, q, kids[q], i - 1); }
      } else {
        assert ChildAt(m, q, kids[q], i);
      }
    }
  }

  lemma AttachWired(m: Tree, kids: Kids, p: int, c: int)
    requires Wired(m, kids) && p in m && c in m && m[c].parent == NULL && m[c].kind != Mnt && !FsRoot(m[c])
    ensures Wired(Attached(m, p, c), kids[p := [c] + kids[p]])
  {
    hide ChildList, MountOk, ParentOk, Attached;
    var m', kids' := Attached(m, p, c), kids[p := [c] + kids[p]];
    AttachParts(m, p, c);
    forall q | q in m' ensures ChildList(m', q, kids'[q]) { AttachList(m, kids, p, c, q); }
    forall n | n in m' ensures MountOk(m', n) { AttachMount(m, m', p, c, n); }
    forall n | n in m' ensures ParentOk(m', kids', n) { AttachParent(m, kids, m', kids', p, c, n); }
  }

  /** Node c has got parent p and nothing else has another parent. */
  ghost predicate Adopted(m: Tree, m': Tree, p: int, c: int) {
    && c in m && m'.Keys == m.Keys && m'[c].parent == p && (forall x :: x in m && x != c ==> m'[x].parent == m[x].parent)
    && forall x :: x in m ==> m'[x].kind == m[x].kind && m'[x].target == m[x].target && m'[x].name == m[x].name
  }

  lemma AdoptedIs(m: Tree, m': Tree, p: int, c: int)
    requires Adopted(m, m', p, c)
    ensures m'.Keys == m.Keys && c in m && m'[c].parent == p
  {
  }

  lemma AttachParts(m: Tree, p: int, c: int)
    requires p in m && c in m
    ensures Adopted(m, Attached(m, p, c), p, c)
  {
  }

  lemma AttachMount(m: Tree, m': Tree, p: int, c: int, n: int)
    requires Adopted(m, m', p, c) && n in m && MountOk(m, n) && MountOk(m, c) && m[c].kind != Mnt && !FsRoot(m[c])
    ensures MountOk(m', n)
  {
  }

  lemma AttachParent(m: Tree, kids: Kids, m': Tree, kids': Kids, p: int, c: int, n: int)
    requires Adopted(m, m', p, c) && n in m && p in m && kids.Keys == m.Keys && ParentOk(m, kids, n) && !FsRoot(m[c])
    requires kids' == kids[p := [c] + kids[p]]
    ensures ParentOk(m', kids', n)
  {
    if n == c { assert c in kids'[p]; }
  }

  /** vnode_detach: the child is unlinked and has no parent any more. */
  function Detached(m: Tree, p: int, before: int, n: int): Tree
    requires p in m && n in m && (before == NULL || before in m)
  {
    var m1 := m[n := m[n].(parent := NULL)];
    var m2 := if before == NULL then m1[p := m1[p].(first := m1[n].next)] else m1[before := m1[before].(next := m1[n].next)];
    m2[n := m2[n].(next := NULL)]
  }

  ghost function Before(s: seq<int>, k: int): int
    requires 0 <= k < |s|
  {
    if k == 0 then NULL else s[k - 1]
  }

  /** The list that n leaves: its other nodes, linked around it. */
  lemma DetachAt(m: Tree, p: int, s: seq<int>, k: int, i: int)
    requires p in m && ChildList(m, p, s) && 0 <= k < |s| && 0 <= i < |s| - 1 && s[k] in m && (k > 0 ==> s[k - 1] in m)
    ensures ChildAt(Detached(m, p, Before(s, k), s[k]), p, s[..k] + s[k + 1..], i)
  {
    var r := s[..k] + s[k + 1..];
    assert r[i] == s[if i < k then i else i + 1];
    assert ChildAt(m, p, s, if i < k then i else i + 1);
    if i == k - 1 { assert ChildAt(m, p, s, k); }
    else if i + 1 < |r| { assert r[i + 1] == s[if i < k then i + 1 else i + 2]; }
  }

  /** The list of another parent. */
  lemma DetachAway(m: Tree, p: int, s: seq<int>, k: int, q: int, r: seq<int>, i: int)
    requires p in m && ChildList(m, p, s) && 0 <= k < |s| && s[k] in m && (k > 0 ==> s[k - 1] in m)
    requires q != p && 0 <= i < |r| && ChildAt(m, q, r, i)
    ensures ChildAt(Detached(m, p, Before(s, k), s[k]), q, r, i)
  {
    assert ChildAt(m, p, s, k);
    if k > 0 { assert ChildAt(m, p, s, k - 1); }
  }

  lemma DetachFirst(m: Tree, p: int, s: seq<int>, k: int, q: int)
    requires p in m && q in m && ChildList(m, p, s) && 0 <= k < |s| && s[k] in m && (k > 0 ==> s[k - 1] in m)
    ensures Detached(m, p, Before(s, k), s[k])[q].first == if q == p then First(s[..k] + s[k + 1..]) else m[q].first
  {
    assert ChildAt(m, p, s, k);
    if k > 0 { assert ChildAt(m, p, s, k - 1); }
  }

  lemma DetachList(m: Tree, kids: Kids, p: int, k: int, q: int)
    requires Wired(m, kids) && p in m && 0 <= k < |kids[p]| && q in m && kids[p][k] in m && (k > 0 ==> kids[p][k - 1] in m)
    ensures var s := kids[p]; ChildList(Detached(m, p, Before(s, k), s[k]), q, if q == p then s[..k] + s[k + 1..] else kids[q])
  {
    hide Wired, ChildAt, Detached;
    WiredList(m, kids, p);
    WiredList(m, kids, q);
    var s := kids[p];
    var m', r := Detached(m, p, Before(s, k), s[k]), if q == p then s[..k] + s[k + 1..] else kids[q];
    forall i | 0 <= i < |r| ensures ChildAt(m', q, r, i) {
      if q == p { DetachAt(m, p, s, k, i); } else { DetachAway(m, p, s, k, q, r, i); }
    }
    DetachFirst(m, p, s, k, q);
    if q == p { Thinned(s, k); }
  }

  lemma Thinned(s: seq<int>, k: int)
    requires 0 <= k < |s| && forall i, j :: 0 <= i < j < |s| ==> s[i] != s[j]
    ensures var r := s[..k] + s[k + 1..]; forall i, j :: 0 <= i < j < |r| ==> r[i] != r[j]
  {
  }

  lemma WiredList(m: Tree, kids: Kids, p: int)
    requires Wired(m, kids) && p in m
    ensures p in kids && ChildList(m, p, kids[p])
  {
  }

  lemma DetachWired(m: Tree, kids: Kids, p: int, k: int)
    requires Wired(m, kids) && p in m && 0 <= k < |kids[p]| && kids[p][k] in m && (k > 0 ==> kids[p][k - 1] in m)
    requires m[kids[p][k]].kind != Mnt && !FsRoot(m[kids[p][k]])
    ensures var s := kids[p]; Wired(Detached(m, p, Before(s, k), s[k]), kids[p := s[..k] + s[k + 1..]])
  {
    hide ChildList, Detached, MountOk, ParentOk;
    var s := kids[p];
    var m', kids' := Detached(m, p, Before(s, k), s[k]), kids[p := s[..k] + s[k + 1..]];
    DetachParts(m, p, Before(s, k), s[k]);
    forall q | q in m' ensures ChildList(m', q, kids'[q]) { DetachList(m, kids, p, k, q); }
    forall x | x in m' ensures MountOk(m', x) { DetachMount(m, m', s[k], x); }
    SliceItems(s, k);
    forall x | x in m' ensures ParentOk(m', kids', x) { DetachParent(m, kids, m', kids', s[k], p, x); }
  }

  /** Node n has lost its parent and nothing else has. */
  ghost predicate Orphaned(m: Tree, m': Tree, n: int) {
    && n in m && m'.Keys == m.Keys && m'[n].parent == NULL && (forall x :: x in m && x != n ==> m'[x].parent == m[x].parent)
    && forall x :: x in m ==> m'[x].kind == m[x].kind && m'[x].target == m[x].target && m'[x].name == m[x].name
  }

  lemma DetachMount(m: Tree, m': Tree, n: int, x: int)
    requires Orphaned(m, m', n) && x in m && MountOk(m, x) && MountOk(m, n) && m[n].kind != Mnt && !FsRoot(m[n])
    ensures MountOk(m', x)
  {
  }

  lemma DetachParent(m: Tree, kids: Kids, m': Tree, kids': Kids, n: int, p: int, x: int)
    requires Orphaned(m, m', n) && x in m && kids.Keys == kids'.Keys == m.Keys && p in m && ParentOk(m, kids, x)
    requires m[n].kind != Mnt && !FsRoot(m[n])
    requires forall q :: q in kids && q != p ==> kids'[q] == kids[q]
    requires forall y :: y in kids[p] <==> y in kids'[p] || y == n
    ensures ParentOk(m', kids', x)
  {
  }

  lemma SliceItems(s: seq<int>, k: int)
    requires 0 <= k < |s|
    ensures forall x :: x in s <==> x in s[..k] + s[k + 1..] || x == s[k]
  {
    assert s == s[..k] + [s[k]] + s[k + 1..];
  }

  lemma DetachParts(m: Tree, p: int, before: int, n: int)
    requires p in m && n in m && (before == NULL || before in m)
    ensures Orphaned(m, Detached(m, p, before, n), n)
  {
  }

  /** vfs_mount_internal once its checks have passed. */
  function Mounted(m: Tree, at: int, r: int): Tree
    requires at in m && r in m
  {
    var m1 := m[at := m[at].(kind := Mnt, target := r)];
    m1[r := m1[r].(target := at, parent := m1[at].parent)]
  }

  lemma MountList(m: Tree, kids: Kids, at: int, r: int, q: int)
    requires Wired(m, kids) && at in m && r in m && q in m && m[r].parent == NULL
    ensures ChildList(Mounted(m, at, r), q, kids[q])
  {
    assert ChildList(m, q, kids[q]);
    NotListed(m, kids, r, q);
    hide Wired;
    forall i | 0 <= i < |kids[q]| ensures ChildAt(Mounted(m, at, r), q, kids[q], i) { assert ChildAt(m, q, kids[q], i); }
  }

  lemma MountWired(m: Tree, kids: Kids, at: int, r: int)
    requires Wired(m, kids) && at in m && r in m && at != r && m[at].kind == Dir && m[at].target == NULL
    requires m[r].kind == Dir && m[r].target == NULL && m[r].parent == NULL
    ensures Wired(Mounted(m, at, r), kids)
  {
    hide ChildList;
    var m' := Mounted(m, at, r);
    forall q | q in m' ensures ChildList(m', q, kids[q]) { MountList(m, kids, at, r, q); }
    forall n | n in m' ensures MountOk(m', n) { assert MountOk(m, n); }
    forall n | n in m' ensures ParentOk(m', kids, n) {
      assert ParentOk(m, kids, n);
      if n == r {
        assert ParentOk(m, kids, at);
        forall q | q in kids ensures r !in kids[q] { NotListed(m, kids, r, q); }
      }
    }
  }

  // ---------------------------------------------------------------- no cycles

  lemma UpStep(m: Tree, n: int, k: nat)
    requires n in m
    ensures Up(m, n, k + 1) == Up(m, m[n].parent, k)
  {
  }

  /** A node other than c is below c exactly when its parent is. */
  lemma BelowParent(m: Tree, n: int, c: int)
    requires n in m && n != c
    ensures Below(m, n, c) <==> Below(m, m[n].parent, c)
  {
    if Below(m, n, c) {
      var k: nat :| Up(m, n, k) == c;
      UpStep(m, n, k - 1);
    }
    if Below(m, m[n].parent, c) {
      var k: nat :| Up(m, m[n].parent, k) == c;
      UpStep(m, n, k);
    }
  }

  lemma BelowSelf(m: Tree, c: int)
    ensures Below(m, c, c)
  {
    assert Up(m, c, 0) == c;
  }

  /** `m'` gives the parentless node c the parent p and leaves every other parent. */
  ghost predicate Reparented(m: Tree, m': Tree, c: int, p: int) {
    && m'.Keys == m.Keys && NULL !in m && c in m && p in m && m[c].parent == NULL && m'[c].parent == p
    && forall n :: n in m && n != c ==> m'[n].parent == m[n].parent
  }

  lemma ReparentKeeps(m: Tree, m': Tree, c: int, p: int)
    requires Reparented(m, m', c, p) && Acyclic(m) && !Below(m, p, c)
    ensures Acyclic(m')
  {
    var h :| Graded(m, h);
    var h' := map n | n in m :: if Below(m, n, c) then h[n] + h[p] + 1 else h[n];
    BelowSelf(m, c);
    forall n | n in m' ensures h'[n] >= 0 && (m'[n].parent != NULL ==> m'[n].parent in m' && h'[m'[n].parent] < h'[n]) {
      if n != c { BelowParent(m, n, c); }
    }
    assert Graded(m', h');
  }

  /** Along a way up to c the heights of the new tree fall, too. */
  lemma {:induction false} HeightAbove(m: Tree, m': Tree, c: int, p: int, h: map<int, int>, n: int, k: nat)
    requires Reparented(m, m', c, p) && Graded(m', h) && n in m && Up(m, n, k) == c
    ensures h[c] <= h[n]
    decreases k
  {
    if k > 0 && n != c {
      UpStep(m, n, k - 1);
      if m[n].parent != NULL { HeightAbove(m, m', c, p, h, m[n].parent, k - 1); }
    }
  }

  lemma ReparentBreaks(m: Tree, m': Tree, c: int, p: int)
    requires Reparented(m, m', c, p) && Below(m, p, c)
    ensures !Acyclic(m')
  {
    var k: nat :| Up(m, p, k) == c;
    forall h ensures !Graded(m', h) {
      if Graded(m', h) { HeightAbove(m, m', c, p, h, p, k); }
    }
  }

  lemma SameParents(m: Tree, m': Tree)
    requires Acyclic(m) && m'.Keys == m.Keys && forall n :: n in m ==> m'[n].parent == m[n].parent || m'[n].parent == NULL
    ensures Acyclic(m')
  {
    var h :| Graded(m, h);
    assert Graded(m', h);
  }

  /** Neither a mount point nor a mounted root. */
  predicate Plain(v: Vnode) { v.kind != Mnt && !FsRoot(v) }

  lemma AttachWiredIff(m: Tree, kids: Kids, p: int, c: int)
    requires Wired(m, kids) && p in m && c in m && m[c].parent == NULL
    ensures p in kids && (Wired(Attached(m, p, c), kids[p := [c] + kids[p]]) <==> Plain(m[c]))
  {
    if Plain(m[c]) {
      AttachWired(m, kids, p, c);
    } else {
      var m', kids' := Attached(m, p, c), kids[p := [c] + kids[p]];
      assert MountOk(m, c);
      if FsRoot(m[c]) {
        assert c in kids'[p];
        assert !ParentOk(m', kids', c);
      } else {
        assert !MountOk(m', c);
      }
    }
  }

  /** Attaching keeps the tree a tree exactly if the child is plain and the parent is neither the child
      nor below it. */
  lemma AttachSoundIff(m: Tree, kids: Kids, p: int, c: int)
    requires Sound(m, kids) && p in m && c in m && m[c].parent == NULL
    ensures p in kids && (Sound(Attached(m, p, c), kids[p := [c] + kids[p]]) <==> Plain(m[c]) && !Below(m, p, c))
  {
    hide Wired, Acyclic;
    WiredKeys(m, kids);
    AttachWiredIff(m, kids, p, c);
    var m' := Attached(m, p, c);
    assert Reparented(m, m', c, p);
    if Below(m, p, c) { ReparentBreaks(m, m', c, p); } else { ReparentKeeps(m, m', c, p); }
  }

  /** Detaching a listed node keeps the tree a tree exactly if the node is no mount point. */
  lemma DetachSoundIff(m: Tree, kids: Kids, p: int, k: int)
    requires Sound(m, kids) && p in m && p in kids && 0 <= k < |kids[p]| && kids[p][k] in m && (k > 0 ==> kids[p][k - 1] in m)
    ensures var s := kids[p]; Sound(Detached(m, p, Before(s, k), s[k]), kids[p := s[..k] + s[k + 1..]]) <==> m[s[k]].kind != Mnt
    ensures Orphaned(m, Detached(m, p, Before(kids[p], k), kids[p][k]), kids[p][k])
  {
    var s := kids[p];
    var m' := Detached(m, p, Before(s, k), s[k]);
    ListedPlain(m, kids, p, k);
    DetachParts(m, p, Before(s, k), s[k]);
    hide Acyclic, Detached, ChildList, ParentOk;
    SameParents(m, m');
    if m[s[k]].kind != Mnt { DetachWired(m, kids, p, k); } else { assert !MountOk(m', s[k]); }
  }

  /** A mounted root is on no list, and what is on a list has a parent. */
  lemma ListedPlain(m: Tree, kids: Kids, p: int, k: int)
    requires Wired(m, kids) && p in m && 0 <= k < |kids[p]| && kids[p][k] in m
    ensures !FsRoot(m[kids[p][k]]) && m[kids[p][k]].parent == p != NULL && MountOk(m, kids[p][k])
  {
    assert ParentOk(m, kids, kids[p][k]);
    assert ChildList(m, p, kids[p]);
    assert ChildAt(m, p, kids[p], k);
  }

  /** A filesystem root that is mounted nowhere: a directory with neither mount point nor parent. */
  predicate Mountable(m: Tree, at: int, r: int)
    requires r in m
  {
    at != r && m[r].kind == Dir && m[r].target == NULL && m[r].parent == NULL
  }

  /** The links still agree after mounting exactly if the root was mounted nowhere. */
  lemma MountWiredIff(m: Tree, kids: Kids, at: int, r: int)
    requires Wired(m, kids) && at in m && r in m && m[at].kind == Dir && m[at].target == NULL
    ensures Wired(Mounted(m, at, r), kids) <==> Mountable(m, at, r)
  {
    if Mountable(m, at, r) {
      MountWired(m, kids, at, r);
    } else {
      var m' := Mounted(m, at, r);
      if at == r || m[r].kind != Dir {
        assert !MountOk(m', at);
      } else if m[r].target != NULL {
        assert MountOk(m, r);
        assert !MountOk(m', m[r].target);
      } else {
        assert ParentOk(m, kids, r);
        assert !ParentOk(m', kids, r);
      }
    }
  }

  /** Mounting keeps the tree a tree exactly if the root was mounted nowhere and the mount point does
      not lie below it. */
  lemma MountSoundIff(m: Tree, kids: Kids, at: int, r: int)
    requires Sound(m, kids) && at in m && r in m && m[at].kind == Dir && m[at].target == NULL
    ensures Sound(Mounted(m, at, r), kids) <==> Mountable(m, at, r) && !Below(m, m[at].parent, r)
  {
    hide Wired, Acyclic;
    WiredKeys(m, kids);
    MountWiredIff(m, kids, at, r);
    ParentIn(m, kids, at);
    var m', p := Mounted(m, at, r), m[at].parent;
    if Mountable(m, at, r) {
      if p == NULL {
        NothingAbove(m, r);
        SameParents(m, m');
      } else {
        assert Reparented(m, m', r, p);
        if Below(m, p, r) { ReparentBreaks(m, m', r, p); } else { ReparentKeeps(m, m', r, p); }
      }
    }
  }

  /** Filesystem root 3, mounted on directory 1 of root 0, is mounted on directory 2 as well: crossing 1
      still leads to 3, but 3 leads back to 2. */
  lemma MountedTwice()
    ensures var (m, kids) := TwoDirs();
      && Sound(m, kids) && m[2].kind == Dir && m[2].target == NULL && !Below(m, m[2].parent, 3)
      && !Sound(Mounted(m, 2, 3), kids)
      && Settle(Mounted(m, 2, 3), 1) == Settle(Mounted(m, 2, 3), 2) == 3 && Mounted(m, 2, 3)[3].target == 2
  {
    hide Sound, Below;
    TwoDirsSound();
    TwoDirsAbove();
    var (m, kids) := TwoDirs();
    MountSoundIff(m, kids, 2, 3);
  }

  lemma TwoDirsSound()
    ensures var (m, kids) := TwoDirs(); Sound(m, kids)
  {
    var (m, kids) := TwoDirs();
    assert Graded(m, map[0 := 0, 1 := 1, 2 := 1, 3 := 1]);
    assert ChildAt(m, 0, [1, 2], 0) && ChildAt(m, 0, [1, 2], 1);
    assert ChildList(m, 0, kids[0]) && ChildList(m, 1, kids[1]) && ChildList(m, 2, kids[2]) && ChildList(m, 3, kids[3]);
    assert 1 in kids[0] && 2 in kids[0];
    assert Wired(m, kids);
  }

  lemma TwoDirsAbove()
    ensures var (m, kids) := TwoDirs(); !Below(m, 0, 3)
  {
    var (m, kids) := TwoDirs();
    forall k: nat ensures Up(m, 0, k) != 3 { if k > 0 { UpStep(m, 0, k - 1); NullUp(m, k - 1); } }
  }

  function TwoDirs(): (Tree, Kids) {
    (map[0 := Vnode(Dir, "", NULL, 1, NULL, NULL), 1 := Vnode(Mnt, "a", 0, NULL, 2, 3),
         2 := Vnode(Dir, "b", 0, NULL, NULL, NULL), 3 := Vnode(Dir, "", 0, NULL, NULL, 1)],
     map[0 := [1, 2], 1 := [], 2 := [], 3 := []])
  }

  lemma NullUp(m: Tree, k: nat)
    requires NULL !in m
    ensures Up(m, NULL, k) == NULL
  {
  }

  lemma NothingAbove(m: Tree, r: int)
    requires NULL !in m && r in m
    ensures !Below(m, NULL, r)
  {
    forall k: nat ensures Up(m, NULL, k) == NULL {}
  }

  /** A vnode attached to itself: the links still agree, and its way up never ends. */
  lemma SelfAttached(v: Vnode)
    requires v.parent == NULL && v.first == NULL && v.next == NULL && v.kind == Dir && v.target == NULL
    ensures var m, kids: Kids := map[0 := v], map[0 := []];
      Sound(m, kids) && Wired(Attached(m, 0, 0), kids[0 := [0]]) && !Sound(Attached(m, 0, 0), kids[0 := [0]])
  {
    var m: Tree, kids: Kids := map[0 := v], map[0 := []];
    assert Graded(m, map[0 := 0]);
    assert ChildList(m, 0, kids[0]);
    assert Wired(m, kids);
    BelowSelf(m, 0);
    AttachWired(m, kids, 0, 0);
    AttachSoundIff(m, kids, 0, 0);
    assert [0] + kids[0] == [0];
  }

  /** Every node of a tree has a way up that ends. */
  lemma WayUp(m: Tree, n: int) returns (top: int, down: seq<int>)
    requires Acyclic(m) && n in m
    ensures Lineage(m, top, down) && n == if down == [] then top else down[|down| - 1]
  {
    var h :| Graded(m, h);
    top, down := WayUpBy(m, h, n);
  }

  lemma {:induction false} WayUpBy(m: Tree, h: map<int, int>, n: int) returns (top: int, down: seq<int>)
    requires Graded(m, h) && n in m
    ensures Lineage(m, top, down) && n == if down == [] then top else down[|down| - 1]
    decreases h[n]
  {
    if m[n].parent == NULL {
      top, down := n, [];
    } else {
      var up;
      top, up := WayUpBy(m, h, m[n].parent);
      down := up + [n];
      forall i | 0 <= i < |down| ensures down[i] in m && m[down[i]].parent == Above(top, down, i) {
        if i < |up| { assert Above(top, down, i) == Above(top, up, i); }
      }
    }
  }

  datatype MountResult = Mounts | Busy | NotADir

  class Vfs {
    var m: Tree
    var root: int
    ghost var kids: Kids

    ghost predicate Valid()
      reads this
    {
      Sound(m, kids) && (root == NULL || root in m)
    }

    /** A set of vnodes that nothing links yet. */
    constructor (nodes: map<int, (Kind, string)>)
      requires NULL !in nodes && forall n :: n in nodes ==> nodes[n].0 != Mnt
      ensures Valid() && m.Keys == nodes.Keys && root == NULL
    {
      m := map n | n in nodes :: Vnode(nodes[n].0, nodes[n].1, NULL, NULL, NULL, NULL);
      root := NULL;
      kids := map n | n in nodes :: [];
      new;
      assert Graded(m, map n | n in m :: 0);
    }

    /** vnode_attach.  Nothing checks that the parent is not below the child or that the child is no
        mount point or mounted root: the tree stays a tree exactly when neither is so. */
    method Attach(p: int, c: int)
      requires Valid() && p in m && c in m && m[c].parent == NULL
      modifies this`m, this`kids
      ensures Valid() <==> Plain(old(m)[c]) && !Below(old(m), p, c)
      ensures m.Keys == old(m.Keys) && m[c].parent == p && (Wired(m, kids) <==> Plain(old(m)[c]))
      ensures p in old(kids) && kids == old(kids)[p := [c] + old(kids)[p]]
      ensures Adopted(old(m), m, p, c)
    {
      hide Wired, Acyclic, Below, Adopted, Attached;
      AttachParts(m, p, c);
      AdoptedIs(m, Attached(m, p, c), p, c);
      AttachSoundIff(m, kids, p, c);
      AttachWiredIff(m, kids, p, c);
      m := Attached(m, p, c);
      kids := kids[p := [c] + kids[p]];
    }

    /** vnode_detach: undoes attaching.  The machine stops exactly on a mounted root, which no list
        holds; the tree stays a tree exactly unless a mount point is detached. */
    method Detach(n: int) returns (ok: bool)
      requires Valid() && n in m
      modifies this`m, this`kids
      ensures ok <==> old(m)[n].parent == NULL || !FsRoot(old(m)[n])
      ensures ok ==> (Valid() <==> old(m)[n].parent == NULL || old(m)[n].kind != Mnt)
      ensures ok ==> m.Keys == old(m.Keys) && m[n].parent == NULL && Orphaned(old(m), m, n)
      ensures old(m)[n].parent == NULL ==> m == old(m) && kids == old(kids)
      ensures ok && old(m)[n].parent != NULL ==>
        && var p := old(m)[n].parent;
        && p in old(kids)
        && exists k :: 0 <= k < |old(kids)[p]| && old(kids)[p][k] == n && kids == old(kids)[p := old(kids)[p][..k] + old(kids)[p][k + 1..]]
    {
      hide Wired, Acyclic, Detached;
      WiredKeys(m, kids);
      var parent := m[n].parent;
      if parent == NULL { return true; }
      Listed(m, kids, n);
      ListAt(m, kids, parent, 0);
      if n == m[parent].first {
        DetachSoundIff(m, kids, parent, 0);
        ListedPlain(m, kids, parent, 0);
        m, kids := Detached(m, parent, NULL, n), kids[parent := kids[parent][..0] + kids[parent][1..]];
        return true;
      }
      var ch := m[parent].first;
      ghost var i := 0;
      while ch != NULL
        invariant m == old(m) && kids == old(kids) && 0 <= i <= |kids[parent]|
        invariant if i < |kids[parent]| then ch in m && ch == kids[parent][i] else ch == NULL
        invariant n !in kids[parent][..i] && (i < |kids[parent]| ==> n != kids[parent][i])
        decreases |kids[parent]| - i
      {
        ListAt(m, kids, parent, i);
        ListAt(m, kids, parent, i + 1);
        if m[ch].next == n {
          DetachSoundIff(m, kids, parent, i + 1);
          ListedPlain(m, kids, parent, i + 1);
          m, kids := Detached(m, parent, ch, n), kids[parent := kids[parent][..i + 1] + kids[parent][i + 2..]];
          return true;
        }
        assert kids[parent][..i + 1] == kids[parent][..i] + [kids[parent][i]];
        ch, i := m[ch].next, i + 1;
      }
      assert kids[parent][..i] == kids[parent];
      return false;
    }

    /** vnode_lookup_child. */
    method LookupChild(p: int, name: string) returns (c: int)
      requires Valid() && p in m
      ensures p in kids && c == LookupIn(m, kids[p], name)
    {
      hide Wired;
      WiredKeys(m, kids);
      c := m[p].first;
      ghost var i := 0;
      ListAt(m, kids, p, 0);
      while c != NULL
        invariant 0 <= i <= |kids[p]| && c == (if i < |kids[p]| then kids[p][i] else NULL)
        invariant LookupIn(m, kids[p], name) == LookupIn(m, kids[p][i..], name)
        decreases |kids[p]| - i
      {
        ListAt(m, kids, p, i);
        LookupStep(m, kids[p], i, name);
        if m[c].name == name { return; }
        c, i := m[c].next, i + 1;
        ListAt(m, kids, p, i);
      }
      ListAt(m, kids, p, i);
      LookupEnd(m, kids[p], i, name);
    }

    /** vfs_mount_internal on a directory.  Nothing looks at the root that the filesystem returns: the
        links agree afterwards exactly if it was mounted nowhere, and the tree stays a tree exactly
        if moreover the directory does not lie below it. */
    method Mount(at: int, r: int) returns (res: MountResult)
      requires Valid() && at in m && r in m
      modifies this`m
      ensures kids == old(kids)
      ensures res == if old(m)[at].target != NULL then Busy else if old(m)[at].kind != Dir then NotADir else Mounts
      ensures res != Mounts ==> Valid() && m == old(m)
      ensures res == Mounts ==> (Valid() <==> Mountable(old(m), at, r) && !Below(old(m), old(m)[at].parent, r))
      ensures res == Mounts ==> (Wired(m, kids) <==> Mountable(old(m), at, r))
      ensures res == Mounts ==> m == Mounted(old(m), at, r) && Settle(m, at) == r
    {
      hide Wired, Acyclic, Below;
      if m[at].target != NULL { return Busy; }
      if m[at].kind != Dir { return NotADir; }
      MountSoundIff(m, kids, at, r);
      MountWiredIff(m, kids, at, r);
      m := Mounted(m, at, r);
      return Mounts;
    }

    /** vfs_mount_internal with no mount point: the filesystem becomes the root. */
    method MountRoot(r: int)
      requires Valid() && r in m
      modifies this`root
      ensures Valid() && root == r
    {
      root := r;
    }

    /** vfs_find_internal. */
    method FindInternal(at: int, path: string) returns (r: Result)
      requires Valid() && at in m
      ensures r == Find(m, kids, at, path)
      ensures forall q :: Resolves(m, kids, at, path, q) <==> q == r
      decreases |path|
    {
      hide Wired, LookupIn, Element, SkipSlashes, Resolves;
      FindMeans(m, kids, at, path);
      if path == "" { return Found(at); }
      if m[at].kind == Lnk { return LinkAhead; }
      var dir := Settle(m, at);
      SettleIn(m, kids, at);
      if m[dir].kind != Dir { return NotDir; }
      var rest := SkipSlashes(path);
      while true
        invariant |rest| <= |path| && Find(m, kids, at, path) == Walk(m, kids, dir, rest)
        decreases |rest|
      {
        var (name, more) := Element(rest);
        if name == "." {
          if more.None? { return Found(dir); }
          rest := more.value;
        } else if name == ".." {
          var up := if m[dir].parent == NULL then dir else m[dir].parent;
          ParentIn(m, kids, dir);
          if more.None? { return Found(up); }
          r := FindInternal(up, more.value);
          return;
        } else {
          var child := LookupChild(dir, name);
          ChildIn(m, kids, dir, name);
          if child == NULL { return NoEntry; }
          if more.Some? {
            r := FindInternal(child, more.value);
            return;
          }
          return if m[child].kind == Lnk then LinkAhead else Found(child);
        }
      }
    }

    /** vfs_find: an absolute path starts at the root, any other at `rel`, or else at the working
        directory, or else at the root.  A mount point at the end is crossed. */
    method FindPath(rel: int, cwd: int, path: string) returns (r: Result)
      requires Valid() && (rel == NULL || rel in m) && (cwd == NULL || cwd in m)
      ensures root == NULL ==> r == NoEntry
      ensures root != NULL ==>
        && var start := StartOf(root, rel, cwd, path);
        && start in m && exists q :: Resolves(m, kids, start, Relative(path), q) && r == if q.Found? then Found(Settle(m, q.node)) else q
      ensures root != NULL && Absolute(path) ==> r == FindAbsolute(m, kids, root, path)
    {
      hide Wired, Resolves, Find;
      if root == NULL { return NoEntry; }
      if Absolute(path) {
        r := FindInternal(root, SkipSlashes(path));
      } else {
        r := FindInternal(if rel != NULL then rel else if cwd != NULL then cwd else root, path);
      }
      if r.Found? && r.node in m && m[r.node].kind == Mnt { r := Found(m[r.node].target); }
    }

    /** vfs_vnode_path, for a node at most sixteen levels down. */
    method VnodePath(node: int, ghost top: int, ghost down: seq<int>) returns (path: string)
      requires Valid() && WayDown(m, top, down) && |down| <= MAX_DEPTH && node == if down == [] then top else down[|down| - 1]
      ensures path == Printed(m, down)
    {
      hide Wired, Join, Names, ShownName, WayDown;
      WiredKeys(m, kids);
      WayStep(m, kids, top, down, |down|);
      if m[node].parent == NULL {
        NoNames(m);
        return "/";
      }
      var stack: seq<int> := [];
      var n := node;
      while m[n].parent != NULL
        invariant |stack| <= |down| && n in m && n == if |stack| < |down| then down[|down| - 1 - |stack|] else top
        invariant forall i :: 0 <= i < |stack| ==> stack[i] == down[|down| - 1 - i]
        decreases |down| - |stack|
      {
        WayStep(m, kids, top, down, |down| - |stack|);
        assert |stack| < MAX_DEPTH;
        stack := stack + [n];
        n := m[n].parent;
      }
      WayStep(m, kids, top, down, |down| - |stack|);
      path := "";
      var i := |stack|;
      while i > 0
        invariant 0 <= i <= |stack| == |down|
        invariant path == if i == |stack| then "" else Printed(m, down[..|stack| - i])
      {
        i := i - 1;
        var item := stack[i];
        WayStep(m, kids, top, down, |stack| - i);
        PrintedSnoc(m, down, |stack| - i);
        ShownIs(m, kids, item);
        if m[item].kind == Dir && m[item].target != NULL { item := m[item].target; }
        path := path + "/" + m[item].name;
      }
      assert down[..|down|] == down;
    }
  }

  lemma Listed(m: Tree, kids: Kids, n: int)
    requires Wired(m, kids) && n in m && m[n].parent != NULL
    ensures m[n].parent in m && m[n].parent in kids && (n in kids[m[n].parent] <==> !FsRoot(m[n]))
  {
    assert ParentOk(m, kids, n);
  }

  lemma ListAt(m: Tree, kids: Kids, p: int, i: int)
    requires Wired(m, kids) && p in m && 0 <= i && p in kids
    ensures m[p].first == First(kids[p])
    ensures i < |kids[p]| ==> kids[p][i] in m && m[kids[p][i]].next == if i + 1 < |kids[p]| then kids[p][i + 1] else NULL
  {
    assert ChildList(m, p, kids[p]);
    if i < |kids[p]| { assert ChildAt(m, p, kids[p], i); }
  }

  lemma LookupStep(m: Tree, s: seq<int>, i: int, name: string)
    requires 0 <= i < |s| && s[i] in m
    ensures LookupIn(m, s[i..], name) == if m[s[i]].name == name then s[i] else LookupIn(m, s[i + 1..], name)
  {
    assert s[i..][1..] == s[i + 1..];
  }

  lemma LookupEnd(m: Tree, s: seq<int>, i: int, name: string)
    requires i == |s|
    ensures LookupIn(m, s[i..], name) == NULL
  {
  }

  lemma SettleIn(m: Tree, kids: Kids, n: int)
    requires Wired(m, kids) && n in m
    ensures Settle(m, n) in m
  {
    assert MountOk(m, n);
  }

  lemma ParentIn(m: Tree, kids: Kids, n: int)
    requires Wired(m, kids) && n in m
    ensures m[n].parent == NULL || m[n].parent in m
  {
    assert ParentOk(m, kids, n);
  }

  lemma ChildIn(m: Tree, kids: Kids, p: int, name: string)
    requires Wired(m, kids) && p in m && p in kids
    ensures var c := LookupIn(m, kids[p], name); if c == NULL then c !in m else c in m
  {
    LookupIs(m, kids[p], name);
  }

  lemma {:induction false} LookupIs(m: Tree, s: seq<int>, name: string)
    ensures var c := LookupIn(m, s, name); c == NULL || (c in m && m[c].name == name)
    decreases |s|
  {
    if s != [] { LookupIs(m, s[1..], name); }
  }

  lemma WayStep(m: Tree, kids: Kids, top: int, down: seq<int>, i: int)
    requires Wired(m, kids) && WayDown(m, top, down) && 0 <= i <= |down|
    ensures top in m && m[top].parent == NULL
    ensures i > 0 ==> down[i - 1] in m && m[down[i - 1]].parent == Above(top, down, i - 1) && Above(top, down, i - 1) in m && m[down[i - 1]].parent != NULL
  {
    hide ChildList, ParentOk, MountOk;
    if i > 0 { assert Under(m, top, down, i - 1); }
    if i > 1 { assert Under(m, top, down, i - 2); }
  }

  lemma PrintedSnoc(m: Tree, down: seq<int>, j: int)
    requires 0 < j <= |down|
    ensures Printed(m, down[..j]) == (if j == 1 then "" else Printed(m, down[..j - 1])) + "/" + ShownName(m, down[j - 1])
  {
    hide Join, ShownName;
    var d := down[..j];
    assert d[..j - 1] == down[..j - 1];
    JoinSnoc(Names(m, d[..j - 1]), ShownName(m, d[j - 1]));
    if j > 1 { NamesAt(m, d[..j - 1], 0); }
  }

  lemma ShownIs(m: Tree, kids: Kids, n: int)
    requires Wired(m, kids) && n in m
    ensures m[n].kind == Dir && m[n].target != NULL ==> m[n].target in m && ShownName(m, n) == m[m[n].target].name
    ensures !(m[n].kind == Dir && m[n].target != NULL) ==> ShownName(m, n) == m[n].name
  {
    assert MountOk(m, n);
  }
}
