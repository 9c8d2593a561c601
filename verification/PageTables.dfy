/** The page-table code itself: tables held in frames and changed in place, the physical
    allocator, and the contents of user frames.  Every method is proved to perform one step
    of the flat machine in `AddressSpaces`. */
module PageTables {
  import opened Memory
  import opened AddressSpaces
  import opened PhysicalPages
  import opened TableForest
  import Cow = CopyOnWrite

  // ---------------------------------------------------------------- frames behind the tables

  /** The allocated frames other than page tables, as the flat machine sees them. */
  ghost function FramesOf(pages: seq<Page>, usable: set<int>, memory: map<int, Data>): map<int, Frame> {
    map f | f in usable && 0 <= f < |pages| && f in memory && pages[f].alloc && pages[f].usage != Paging ::
      Frame(pages[f].usage, pages[f].refcount, memory[f])
  }

  ghost function StateOf(roots: set<int>, entries: Entries, pages: seq<Page>, usable: set<int>, memory: map<int, Data>): State {
    State(roots, entries, FramesOf(pages, usable, memory))
  }

  /** Page tables occupy exactly the frames marked for paging, and nothing refers to those. */
  ghost predicate Backed(pages: seq<Page>, usable: set<int>, memory: map<int, Data>, paging: set<int>) {
    && GoodPages(pages, usable) && memory.Keys == usable && paging == UsedSet(pages, usable, Paging)
    && (forall t :: t in paging ==> pages[t].refcount == 0)
  }

  ghost predicate Rooted(roots: set<int>, at: map<Pos, int>) {
    forall r :: r in roots <==> Pos(r, 4, 0) in at
  }

  // ---------------------------------------------------------------- the kernel half

  /** The kernel half of every space's top-level table. */
  ghost predicate Halves(kernels: map<int, seq<Entry>>, roots: set<int>, tables: map<int, seq<Entry>>) {
    kernels.Keys == roots && forall r :: r in roots ==> Half(kernels, tables, r)
  }

  ghost predicate Half(kernels: map<int, seq<Entry>>, tables: map<int, seq<Entry>>, r: int) {
    r in kernels && r in tables && |tables[r]| == TABLE_LEN && tables[r][USER_END..] == kernels[r]
  }

  /** A user slot of a top-level table, or any slot of another table, is no part of it. */
  lemma HalvesSlot(kernels: map<int, seq<Entry>>, roots: set<int>, f: Forest, victim: int, cut: int, k: Pos, i: int, e: Entry)
    requires Halves(kernels, roots, f.tables) && Tree(f, victim, cut) && Rooted(roots, f.at)
    requires k in f.at && f.at[k] in f.tables && 0 <= i < |f.tables[f.at[k]]| && i < Width(k.level)
    ensures Halves(kernels, roots, SetSlot(f, k, i, e))
  {
    hide Linked, Leaves;
    forall r | r in roots ensures Half(kernels, SetSlot(f, k, i, e), r) {
      RootTable(roots, f, r);
      assert Half(kernels, f.tables, r);
      assert f.role[f.at[k]] == k;
    }
  }

  lemma RootTable(roots: set<int>, f: Forest, r: int)
    requires Placed(f) && Rooted(roots, f.at) && r in roots
    ensures Pos(r, 4, 0) in f.at && f.at[Pos(r, 4, 0)] == r && r in f.role && f.role[r] == Pos(r, 4, 0)
  {
  }

  lemma HalvesNew(kernels: map<int, seq<Entry>>, roots: set<int>, tables: map<int, seq<Entry>>, t: int, row: seq<Entry>)
    requires Halves(kernels, roots, tables) && t !in tables
    ensures Halves(kernels, roots, tables[t := row]) && t !in roots
  {
    forall r | r in roots ensures Half(kernels, tables[t := row], r) { assert Half(kernels, tables, r); }
  }

  lemma HalvesGrow(kernels: map<int, seq<Entry>>, roots: set<int>, f: Forest, k: Pos, i: int, t: int, flags: set<Flag>)
    requires Halves(kernels, roots, f.tables) && Tree(f, 0, 0) && Rooted(roots, f.at) && t !in f.tables
    requires k in f.at && f.at[k] in f.tables && 0 <= i < |f.tables[f.at[k]]| && i < Width(k.level)
    ensures Halves(kernels, roots, Grow(f, k, i, t, flags).tables)
  {
    hide Halves, Tree, Rooted;
    HalvesSlot(kernels, roots, f, 0, 0, k, i, Present(Pte(t, flags)));
    HalvesNew(kernels, roots, SetSlot(f, k, i, Present(Pte(t, flags))), t, Empty());
  }

  lemma HalvesLeaves(kernels: map<int, seq<Entry>>, roots: set<int>, f: Forest, src: int, dst: int, v: int, pte: Pte)
    requires Halves(kernels, roots, f.tables) && Tree(f, 0, 0) && Rooted(roots, f.at) && UserPage(v) && src != dst
    requires On(src, 1, v) in f.at && f.at[On(src, 1, v)] in f.tables && |f.tables[f.at[On(src, 1, v)]]| == TABLE_LEN
    requires On(dst, 1, v) in f.at && f.at[On(dst, 1, v)] in f.tables && |f.tables[f.at[On(dst, 1, v)]]| == TABLE_LEN
    ensures Halves(kernels, roots, CloneLeaves(f, src, dst, v, pte).tables)
  {
    var g := SetLeaf(f, Loc(dst, v), Present(pte));
    SetLeafTree(f, Loc(dst, v), Present(pte), 0);
    hide Halves, Tree, Rooted;
    HalvesSlot(kernels, roots, f, 0, 0, On(dst, 1, v), v % 512, Present(pte));
    HalvesSlot(kernels, roots, g, 0, 0, On(src, 1, v), v % 512, Present(pte));
  }

  lemma HalvesRemove(kernels: map<int, seq<Entry>>, roots: set<int>, f: Forest, victim: int, cut: int, k: Pos)
    requires Halves(kernels, roots, f.tables) && Tree(f, victim, cut) && Rooted(roots, f.at) && k in f.at && k.level < 4
    ensures Halves(kernels, roots, f.tables - {f.at[k]})
  {
    hide Linked, Leaves;
    forall r | r in roots ensures Half(kernels, f.tables - {f.at[k]}, r) {
      RootTable(roots, f, r);
      assert Half(kernels, f.tables, r);
      assert f.role[f.at[k]] == k;
    }
  }

  lemma HalvesDrop(kernels: map<int, seq<Entry>>, roots: set<int>, tables: map<int, seq<Entry>>, p: int)
    requires Halves(kernels, roots, tables)
    ensures Halves(kernels - {p}, roots - {p}, tables - {p})
  {
    forall r | r in roots - {p} ensures Half(kernels - {p}, tables - {p}, r) { assert Half(kernels, tables, r); }
  }

  lemma HalvesRoot(kernels: map<int, seq<Entry>>, roots: set<int>, tables: map<int, seq<Entry>>, r: int, row: seq<Entry>)
    requires Halves(kernels, roots, tables) && |row| == TABLE_LEN
    ensures Halves(kernels[r := row[USER_END..]], roots + {r}, tables[r := row])
  {
    var kernels', tables' := kernels[r := row[USER_END..]], tables[r := row];
    forall q | q in roots + {r} ensures Half(kernels', tables', q) { if q != r { assert Half(kernels, tables, q); } }
  }

  lemma HalvesAt(kernels: map<int, seq<Entry>>, roots: set<int>, tables: map<int, seq<Entry>>, r: int)
    requires Halves(kernels, roots, tables) && r in roots
    ensures Half(kernels, tables, r)
  {
  }

  lemma HalvesKeys(kernels: map<int, seq<Entry>>, roots: set<int>, tables: map<int, seq<Entry>>)
    requires Halves(kernels, roots, tables)
    ensures kernels.Keys == roots
  {
  }

  /** The kernel half of a top-level table is no business of the tree of user tables. */
  lemma KernelTree(f: Forest, p: int, row: seq<Entry>)
    requires Tree(f, 0, 0) && Pos(p, 4, 0) in f.at && p in f.tables && |row| == |f.tables[p]| == TABLE_LEN
    requires row[..USER_END] == f.tables[p][..USER_END]
    ensures Tree(f.(tables := f.tables[p := row]), 0, 0) && f.tables[p := row].Keys == f.tables.Keys
  {
    var g := f.(tables := f.tables[p := row]);
    assert g.tables.Keys == f.tables.Keys;
    assert Placed(g);
    forall q, j | q in f.at && 0 <= j < Width(q.level) ensures Slot(g, q, j) == Slot(f, q, j) { KernelSlot(f, p, row, q, j); }
    KernelLinked(f, g);
    KernelLeaves(f, g);
  }

  lemma TreePlaced(f: Forest)
    requires Tree(f, 0, 0)
    ensures Placed(f)
  {
  }

  lemma KernelSlot(f: Forest, p: int, row: seq<Entry>, q: Pos, j: int)
    requires Placed(f) && Pos(p, 4, 0) in f.at && p in f.tables && |row| == |f.tables[p]| == TABLE_LEN
    requires row[..USER_END] == f.tables[p][..USER_END] && q in f.at && 0 <= j < Width(q.level)
    ensures Slot(f.(tables := f.tables[p := row]), q, j) == Slot(f, q, j)
  {
    if f.at[q] == p {
      assert f.role[p] == q == Pos(p, 4, 0);
      assert row[j] == row[..USER_END][j] == f.tables[p][..USER_END][j];
    }
  }

  lemma KernelLinked(f: Forest, g: Forest)
    requires Placed(f) && Placed(g) && Linked(f, 0, 0) && g.at == f.at
    requires forall q, j {:trigger Slot(g, q, j)} :: q in f.at && 0 <= j < Width(q.level) ==> Slot(g, q, j) == Slot(f, q, j)
    ensures Linked(g, 0, 0)
  {
    forall q, j | q in g.at && q.level >= 2 && 0 <= j < Width(q.level) && Slot(g, q, j).Present? && Alive(q, j, 0, 0)
      ensures Down(g, q, j)
    {
      assert Slot(f, q, j).Present? && Down(f, q, j);
    }
    forall q | q in g.at && q.level < 4 ensures Parent(q) in g.at && Down(g, Parent(q), q.idx % 512) {
      assert Parent(q) in f.at && Down(f, Parent(q), q.idx % 512);
      assert Slot(g, Parent(q), q.idx % 512) == Slot(f, Parent(q), q.idx % 512);
    }
  }

  lemma KernelLeaves(f: Forest, g: Forest)
    requires Placed(f) && Placed(g) && Leaves(f, 0, 0) && g.at == f.at && g.entries == f.entries
    requires forall q, j {:trigger Slot(g, q, j)} :: q in f.at && 0 <= j < Width(q.level) ==> Slot(g, q, j) == Slot(f, q, j)
    ensures Leaves(g, 0, 0)
  {
  }

  lemma KernelKeeps(f: Forest, g: Forest, src: int, dst: int, row: seq<Entry>)
    requires Keeps(f, g, 4, src, dst) && Placed(g) && Pos(dst, 4, 0) in g.at
    ensures Keeps(f, g.(tables := g.tables[dst := row]), 4, src, dst)
  {
    forall q | q in f.at && q.root != src && q.root != dst ensures f.at[q] != dst { assert q in g.at && g.role[g.at[q]] == q; }
  }

  /** At boot no frame is in use. */
  lemma NothingBacked(pages: seq<Page>, usable: set<int>, memory: map<int, Data>)
    requires GoodPages(pages, usable) && FreeSet(pages, usable) == usable == memory.Keys
    ensures Backed(pages, usable, memory, {}) && FramesOf(pages, usable, memory) == map[]
  {
    forall i | i in usable ensures !pages[i].alloc { assert i in FreeSet(pages, usable); }
    assert UsedSet(pages, usable, Paging) == {};
  }

  lemma NoTrees()
    ensures Tree(Forest(map[], map[], map[], map[]), 0, 0) && Rooted({}, map[]) && Halves(map[], {}, map[])
  {
  }

  lemma NoStates(pages: seq<Page>, usable: set<int>, memory: map<int, Data>)
    requires FramesOf(pages, usable, memory) == map[]
    ensures Mapped(StateOf({}, map[], pages, usable, memory)) && Counted(StateOf({}, map[], pages, usable, memory))
  {
  }

  lemma BackedAlloc(pages: seq<Page>, usable: set<int>, memory: map<int, Data>, paging: set<int>, t: int, pu: Usage)
    requires Backed(pages, usable, memory, paging) && t in FreeSet(pages, usable) && pu != Unknown
    ensures t !in paging && t in usable && t in memory && t !in FramesOf(pages, usable, memory)
    ensures var after := pages[t := Page(true, pu, 0)];
      && Backed(after, usable, memory, if pu == Paging then paging + {t} else paging)
      && FramesOf(after, usable, memory) ==
           if pu == Paging then FramesOf(pages, usable, memory)
           else FramesOf(pages, usable, memory)[t := Frame(pu, 0, memory[t])]
  {
  }

  lemma BackedFreeTable(pages: seq<Page>, usable: set<int>, memory: map<int, Data>, paging: set<int>, t: int, d: Data)
    requires Backed(pages, usable, memory, paging) && t in paging
    ensures t in usable && 0 <= t < |pages| && pages[t].alloc && pages[t].refcount == 0
    ensures var after := pages[t := Page(false, Unknown, 0)];
      && Backed(after, usable, memory[t := d], paging - {t})
      && FramesOf(after, usable, memory[t := d]) == FramesOf(pages, usable, memory)
  {
    assert FramesOf(pages[t := Page(false, Unknown, 0)], usable, memory[t := d]) == FramesOf(pages, usable, memory);
  }

  lemma BackedFreeFrame(pages: seq<Page>, usable: set<int>, memory: map<int, Data>, paging: set<int>, f: int)
    requires Backed(pages, usable, memory, paging) && f in FramesOf(pages, usable, memory)
    ensures f in usable && 0 <= f < |pages| && pages[f].alloc
    ensures var after := pages[f := Page(false, Unknown, 0)];
      Backed(after, usable, memory, paging) && FramesOf(after, usable, memory) == FramesOf(pages, usable, memory) - {f}
  {
    assert FramesOf(pages[f := Page(false, Unknown, 0)], usable, memory) == FramesOf(pages, usable, memory) - {f};
  }

  lemma BackedRef(pages: seq<Page>, usable: set<int>, memory: map<int, Data>, paging: set<int>, f: int, delta: int)
    requires Backed(pages, usable, memory, paging) && f in FramesOf(pages, usable, memory)
    ensures f in usable && 0 <= f < |pages| && pages[f].alloc && pages[f].usage == FramesOf(pages, usable, memory)[f].usage
    ensures pages[f].refcount == FramesOf(pages, usable, memory)[f].refs
    ensures var after := pages[f := pages[f].(refcount := pages[f].refcount + delta)];
      && Backed(after, usable, memory, paging)
      && FramesOf(after, usable, memory) == AddRef(FramesOf(pages, usable, memory), f, delta)
  {
    var after := pages[f := pages[f].(refcount := pages[f].refcount + delta)];
    assert UsedSet(after, usable, Paging) == UsedSet(pages, usable, Paging);
  }

  lemma BackedData(pages: seq<Page>, usable: set<int>, memory: map<int, Data>, paging: set<int>, f: int, d: Data)
    requires Backed(pages, usable, memory, paging) && f in FramesOf(pages, usable, memory)
    ensures f in memory && memory[f] == FramesOf(pages, usable, memory)[f].data
    ensures Backed(pages, usable, memory[f := d], paging)
    ensures FramesOf(pages, usable, memory[f := d]) ==
            FramesOf(pages, usable, memory)[f := FramesOf(pages, usable, memory)[f].(data := d)]
  {
  }

  /** Adding a reference with a new entry keeps every count. */
  lemma MapFrameCounts(s: State, l: Loc, pte: Pte)
    requires Mapped(s) && Counted(s) && l.root in s.roots && UserPage(l.page) && l !in s.entries && pte.frame in s.frames
    ensures Mapped(MapFrame(s, l, pte)) && Counted(MapFrame(s, l, pte))
  {
    var t := MapFrame(s, l, pte);
    forall g | g in t.frames ensures t.frames[g].refs == |Refs(t.entries, g)| { RefsAdd(s.entries, l, pte, g); }
  }

  lemma MappedAt(s: State, l: Loc)
    requires Mapped(s) && l in s.entries
    ensures l.root in s.roots && UserPage(l.page) && s.entries[l].frame in s.frames
  {
  }

  /** A frame that is allocated but not yet mapped has no references. */
  lemma FreshCounts(s: State, f: int, frame: Frame)
    requires Mapped(s) && Counted(s) && f !in s.frames && frame.refs == 0
    ensures Mapped(s.(frames := s.frames[f := frame])) && Counted(s.(frames := s.frames[f := frame]))
  {
    assert Refs(s.entries, f) == {};
  }

  lemma DataCounts(s: State, f: int, d: Data)
    requires Mapped(s) && Counted(s) && f in s.frames
    ensures var t := s.(frames := s.frames[f := s.frames[f].(data := d)]); Mapped(t) && Counted(t)
  {
  }

  // ---------------------------------------------------------------- reading tables

  lemma TableAt(f: Forest, victim: int, cut: int, k: Pos)
    requires Tree(f, victim, cut) && k in f.at
    ensures f.at[k] in f.tables && |f.tables[f.at[k]]| == TABLE_LEN
    ensures 1 <= k.level <= 4 && 0 <= k.idx < Bound(k.level) && (k.level == 4 ==> f.at[k] == k.root)
  {
  }

  lemma SlotBelow(f: Forest, k: Pos, i: int, victim: int, cut: int)
    requires Tree(f, victim, cut) && k in f.at && k.level >= 2 && 0 <= i < Width(k.level)
    requires Alive(k, i, victim, cut)
    ensures f.at[k] in f.tables && |f.tables[f.at[k]]| == TABLE_LEN
    ensures var e := f.tables[f.at[k]][i]; e.Present? ==>
      Child(k, i) in f.at && e.pte.frame == f.at[Child(k, i)] && {User, Write} <= e.pte.flags
  {
    var e := Slot(f, k, i);
    assert e.Present? ==> Down(f, k, i);
  }

  lemma AbsentChild(f: Forest, k: Pos, i: int, victim: int, cut: int)
    requires Tree(f, victim, cut) && k in f.at && k.level >= 2 && 0 <= i < Width(k.level)
    requires f.at[k] in f.tables && i < |f.tables[f.at[k]]| && f.tables[f.at[k]][i].Absent?
    ensures Child(k, i) !in f.at
  {
    ChildParent(k, i);
    assert Child(k, i) in f.at ==> Parent(Child(k, i)) in f.at;
    assert f.tables[f.at[k]][i] == Slot(f, k, i);
  }

  /** The level-1 slot of page `v` holds exactly what the flat map holds. */
  lemma LeafSlot(f: Forest, root: int, v: int)
    requires Tree(f, 0, 0) && UserPage(v) && On(root, 1, v) in f.at
    ensures f.at[On(root, 1, v)] in f.tables && |f.tables[f.at[On(root, 1, v)]]| == TABLE_LEN
    ensures var e := f.tables[f.at[On(root, 1, v)]][v % 512];
      (e.Present? <==> Loc(root, v) in f.entries) && (e.Present? ==> e.pte == f.entries[Loc(root, v)])
  {
    var k := On(root, 1, v);
    assert Loc(k.root, k.idx * 512 + v % 512) == Loc(root, v);
    assert Alive(k, v % 512, 0, 0);
    assert f.tables[f.at[k]][v % 512] == Slot(f, k, v % 512);
  }

  lemma AliveAtStart(k: Pos, i: int)
    requires 1 <= k.level <= 4 && 0 <= k.idx && 0 <= i
    ensures Alive(k, i, 0, 0)
  {
  }

  lemma PathAbove(f: Forest, root: int, v: int)
    requires Tree(f, 0, 0) && UserPage(v)
    ensures On(root, 1, v) in f.at ==> On(root, 2, v) in f.at && On(root, 3, v) in f.at
  {
    PathStep(root, 2, v);
    PathStep(root, 3, v);
    assert On(root, 1, v) in f.at ==> Parent(On(root, 1, v)) in f.at;
    assert On(root, 2, v) in f.at ==> Parent(On(root, 2, v)) in f.at;
  }

  /** An absent slot on the path to a page means the page is not mapped. */
  lemma AbsentPath(f: Forest, root: int, level: int, v: int)
    requires Tree(f, 0, 0) && UserPage(v) && 2 <= level <= 4 && On(root, level, v) in f.at
    requires f.at[On(root, level, v)] in f.tables && |f.tables[f.at[On(root, level, v)]]| == TABLE_LEN
    requires 0 <= IndexAt(level, v) < TABLE_LEN && f.tables[f.at[On(root, level, v)]][IndexAt(level, v)].Absent?
    ensures Loc(root, v) !in f.entries
  {
    if Loc(root, v) in f.entries { MappedSlot(f, 0, 0, Loc(root, v), level); }
  }

  // ---------------------------------------------------------------- what a fork may touch

  /** Tables stay where they are, those above `level` or of other spaces keep their contents,
      and new tables belong to `dst`. */
  ghost predicate Keeps(f: Forest, g: Forest, level: int, src: int, dst: int) {
    && (forall q {:trigger q in f.at} :: q in f.at ==>
          && q in g.at && g.at[q] == f.at[q]
          && (q.level > level || (q.root != src && q.root != dst) ==>
                f.at[q] in f.tables && f.at[q] in g.tables && g.tables[f.at[q]] == f.tables[f.at[q]]))
    && (forall q :: q in g.at ==> q in f.at || q.root == dst)
  }

  lemma KeepsTrans(f: Forest, g: Forest, h: Forest, inner: int, level: int, src: int, dst: int)
    requires Keeps(f, g, level, src, dst) && Keeps(g, h, inner, src, dst) && inner <= level
    ensures Keeps(f, h, level, src, dst)
  {
  }

  lemma KeepsSelf(f: Forest, level: int, src: int, dst: int)
    requires Tree(f, 0, 0)
    ensures Keeps(f, f, level, src, dst)
  {
  }

  lemma GrowKeeps(f: Forest, k: Pos, i: int, t: int, flags: set<Flag>, src: int)
    requires Tree(f, 0, 0) && k in f.at && 0 <= i < TABLE_LEN && t !in f.tables && Child(k, i) !in f.at
    requires f.at[k] in f.tables && |f.tables[f.at[k]]| == TABLE_LEN
    ensures Keeps(f, Grow(f, k, i, t, flags), k.level, src, k.root)
  {
    forall q | q in f.at && q != k ensures f.at[q] != f.at[k] {}
  }

  /** Both level-1 writes of fork's inner loop. */
  function CloneLeaves(f: Forest, src: int, dst: int, v: int, pte: Pte): Forest
    requires On(src, 1, v) in f.at && f.at[On(src, 1, v)] in f.tables && |f.tables[f.at[On(src, 1, v)]]| == TABLE_LEN
    requires On(dst, 1, v) in f.at && f.at[On(dst, 1, v)] in f.tables && |f.tables[f.at[On(dst, 1, v)]]| == TABLE_LEN
  {
    var g := SetLeaf(f, Loc(dst, v), Present(pte));
    SetLeaf(g, Loc(src, v), Present(pte))
  }

  lemma CloneLeavesTree(f: Forest, src: int, dst: int, v: int, pte: Pte)
    requires Tree(f, 0, 0) && UserPage(v) && src != dst && On(src, 1, v) in f.at && On(dst, 1, v) in f.at
    ensures f.at[On(src, 1, v)] != f.at[On(dst, 1, v)]
    ensures Tree(CloneLeaves(f, src, dst, v, pte), 0, 0)
    ensures Keeps(f, CloneLeaves(f, src, dst, v, pte), 1, src, dst)
  {
    SetLeafTree(f, Loc(dst, v), Present(pte), 0);
    SetLeafTree(SetLeaf(f, Loc(dst, v), Present(pte)), Loc(src, v), Present(pte), 0);
    forall q | q in f.at ensures f.role[f.at[q]] == q {}
  }

  lemma CloneLeavesForm(f: Forest, src: int, dst: int, v: int, pte: Pte)
    requires On(src, 1, v) in f.at && f.at[On(src, 1, v)] in f.tables && |f.tables[f.at[On(src, 1, v)]]| == TABLE_LEN
    requires On(dst, 1, v) in f.at && f.at[On(dst, 1, v)] in f.tables && |f.tables[f.at[On(dst, 1, v)]]| == TABLE_LEN
    requires src != dst && f.at[On(src, 1, v)] != f.at[On(dst, 1, v)]
    ensures CloneLeaves(f, src, dst, v, pte).tables.Keys == f.tables.Keys
    ensures CloneLeaves(f, src, dst, v, pte) ==
      var s, d := f.at[On(src, 1, v)], f.at[On(dst, 1, v)];
      f.(tables := f.tables[d := f.tables[d][v % 512 := Present(pte)]][s := f.tables[s][v % 512 := Present(pte)]],
         entries := f.entries[Loc(src, v) := pte][Loc(dst, v) := pte])
  {
    assert f.entries[Loc(src, v) := pte][Loc(dst, v) := pte] == f.entries[Loc(dst, v) := pte][Loc(src, v) := pte];
  }

  /** Fork's fold stands still over pages that are not mapped in the partly forked state. */
  lemma ForkStands(s0: State, p: int, c: int, a: nat, b: nat, t: State)
    requires Forkable(s0, p, c) && a <= b && t == ForkUpTo(s0, p, c, a)
    requires forall v :: a <= v < b ==> Loc(p, v) !in t.entries
    ensures t == ForkUpTo(s0, p, c, b)
  {
    assert forall v :: a <= v < b ==> Loc(p, v) !in s0.entries by { ForkForm(s0, p, c, a); }
    ForkSkip(s0, p, c, a, b);
  }

  lemma RangeNumbers(level: int, k: int, i: int)
    requires 1 <= level <= 4 && 0 <= k < Bound(level) && 0 <= i < Width(level)
    ensures 0 <= First(level, k * 512 + i) <= First(level, k * 512 + i + 1) <= USER_PAGES
    ensures level >= 2 ==> 0 <= k * 512 + i < Bound(level - 1)
    ensures level >= 2 ==> First(level - 1, (k * 512 + i) * 512) == First(level, k * 512 + i)
    ensures level >= 2 ==> First(level - 1, (k * 512 + i) * 512 + Width(level - 1)) == First(level, k * 512 + i + 1)
    ensures level == 1 ==> UserPage(k * 512 + i) && (k * 512 + i) / 512 == k && (k * 512 + i) % 512 == i
  {
  }

  lemma KeepsAt(f: Forest, g: Forest, level: int, src: int, dst: int, q: Pos)
    requires Keeps(f, g, level, src, dst) && q in f.at
    ensures q in g.at && g.at[q] == f.at[q]
  {
  }

  lemma KeepsTable(f: Forest, g: Forest, level: int, src: int, dst: int, q: Pos)
    requires Keeps(f, g, level, src, dst) && q in f.at && q.level > level
    ensures q in g.at && g.at[q] == f.at[q] && f.at[q] in f.tables && f.at[q] in g.tables
    ensures g.tables[f.at[q]] == f.tables[f.at[q]]
  {
  }

  lemma RootedRemove(roots: set<int>, at: map<Pos, int>, k: Pos)
    requires Rooted(roots, at) && k.level < 4
    ensures Rooted(roots, at - {k})
  {
  }

  lemma AbsentSlotAt(f: Forest, victim: int, cut: int, k: Pos, i: int)
    requires Tree(f, victim, cut) && k in f.at && 0 <= i < Width(k.level)
    requires f.at[k] in f.tables && |f.tables[f.at[k]]| == TABLE_LEN && f.tables[f.at[k]][i].Absent?
    ensures forall v :: First(k.level, k.idx * 512 + i) <= v < First(k.level, k.idx * 512 + i + 1) ==> Loc(k.root, v) !in f.entries
    ensures k.level >= 2 ==> Child(k, i) !in f.at
  {
    assert f.tables[f.at[k]][i] == Slot(f, k, i);
    AbsentSlot(f, victim, cut, k, i);
    if k.level >= 2 { AbsentChild(f, k, i, victim, cut); }
  }

  lemma FreshRoot(f: Forest, t: int)
    requires Tree(f, 0, 0) && t !in f.tables
    ensures Pos(t, 4, 0) !in f.at && forall q :: q in f.at ==> q.root != t
  {
    forall q | q in f.at ensures Pos(q.root, 4, 0) in f.at { RootPresent(f, q); }
  }

  /** Every table hangs below the top-level table of its space. */
  lemma RootPresent(f: Forest, q: Pos)
    requires Tree(f, 0, 0) && q in f.at
    ensures Pos(q.root, 4, 0) in f.at
    decreases 4 - q.level
  {
    if q.level < 4 {
      assert Parent(q) in f.at;
      RootPresent(f, Parent(q));
    }
  }

  lemma CountedRoots(s: State, t: State)
    requires Mapped(s) && Counted(s) && t.entries == s.entries && t.frames == s.frames && s.roots <= t.roots
    ensures Mapped(t) && Counted(t)
  {
  }

  lemma PutTwice(tables: map<int, seq<Entry>>, t: int, a: seq<Entry>, b: seq<Entry>)
    ensures tables[t := a][t := b] == tables[t := b]
  {
  }

  /** A space without user tables maps no page. */
  lemma EmptySpace(f: Forest, r: int)
    requires Tree(f, 0, 0) && Pos(r, 4, 0) in f.at && f.at[Pos(r, 4, 0)] == r
    requires r in f.tables && |f.tables[r]| == TABLE_LEN && forall i :: 0 <= i < USER_END ==> f.tables[r][i].Absent?
    ensures forall v :: Loc(r, v) !in f.entries
  {
    forall i | 0 <= i < USER_END ensures Slot(f, Pos(r, 4, 0), i).Absent? {}
    AnyVictim(f, 0, r);
    ReleasedTree(f, r, 0);
  }

  lemma EmptySpaceAt(f: Forest, r: int)
    requires Tree(f, 0, 0) && Pos(r, 4, 0) in f.at
    requires r in f.tables && |f.tables[r]| == TABLE_LEN && forall i :: 0 <= i < USER_END ==> f.tables[r][i].Absent?
    ensures forall l :: l in f.entries ==> l.root != r
  {
    EmptySpace(f, r);
    forall l | l in f.entries ensures l.root != r { assert l == Loc(l.root, l.page); }
  }

  /** mm_space_clone: the kernel entries are copied verbatim, the user entries stay. */
  method CloneKernelHalf(dst: seq<Entry>, src: seq<Entry>) returns (top: seq<Entry>)
    requires |dst| == |src| == TABLE_LEN
    ensures top == dst[..USER_END] + src[USER_END..]
  {
    top := dst;
    for i := USER_END to TABLE_LEN
      invariant |top| == TABLE_LEN
      invariant forall j :: 0 <= j < TABLE_LEN ==> top[j] == if USER_END <= j < i then src[j] else dst[j]
    {
      top := top[i := src[i]];
    }
  }

  /** Cutting off a single page removes just its entry. */
  lemma CutOne(f: Forest, s0: State, p: int, v: int)
    requires Tree(f, p, v) && v >= 0 && Mapped(s0) && Counted(s0) && f.entries == ReleaseUpTo(s0, p, v).entries
    ensures Tree(f.(entries := f.entries - {Loc(p, v)}), p, v + 1)
  {
    hide Tree, Mapped, Counted;
    CutTree(f, p, v, v + 1);
    assert forall l :: l in f.entries && l.root == p ==> l.page >= v by { ReleaseForm(s0, p, v); }
    assert Cut(f, p, v + 1).entries == f.entries - {Loc(p, v)};
  }

  /** Cutting off pages that are not mapped changes nothing. */
  lemma CutNone(f: Forest, s0: State, p: int, a: nat, b: nat, t: State)
    requires Tree(f, p, a) && a <= b && Mapped(s0) && Counted(s0)
    requires t == ReleaseUpTo(s0, p, a) && f.entries == t.entries
    requires forall v :: a <= v < b ==> Loc(p, v) !in f.entries
    ensures Tree(f, p, b) && t == ReleaseUpTo(s0, p, b)
  {
    hide Tree, Mapped, Counted;
    CutTree(f, p, a, b);
    ReleaseForm(s0, p, a);
    assert forall v :: a <= v < b ==> Loc(p, v) !in s0.entries;
    ReleaseSkip(s0, p, a, b);
    assert Cut(f, p, b).entries == f.entries;
  }

  lemma LeafAt(f: Forest, p: int, k: int, i: int)
    requires Tree(f, p, k * 512 + i) && Pos(p, 1, k) in f.at && 0 <= i < TABLE_LEN
    requires f.at[Pos(p, 1, k)] in f.tables && |f.tables[f.at[Pos(p, 1, k)]]| == TABLE_LEN
    requires f.tables[f.at[Pos(p, 1, k)]][i].Present?
    ensures Loc(p, k * 512 + i) in f.entries && f.entries[Loc(p, k * 512 + i)] == f.tables[f.at[Pos(p, 1, k)]][i].pte
  {
    assert f.tables[f.at[Pos(p, 1, k)]][i] == Slot(f, Pos(p, 1, k), i);
    assert Alive(Pos(p, 1, k), i, p, k * 512 + i);
  }

  lemma AliveAhead(k: Pos, i: int)
    requires 1 <= k.level <= 4
    ensures Alive(k, i, k.root, First(k.level, k.idx * 512 + i))
  {
  }

  /** Nothing but tables of `p` at or below `level` is touched, and no table is added. */
  ghost predicate Shrinks(f: Forest, g: Forest, level: int, p: int) {
    && (forall q :: q in g.at ==> q in f.at)
    && (forall q {:trigger q in f.at} :: q in f.at && (q.level > level || q.root != p) ==>
          && q in g.at && g.at[q] == f.at[q]
          && f.at[q] in f.tables && f.at[q] in g.tables && g.tables[f.at[q]] == f.tables[f.at[q]])
  }

  lemma ShrinksTrans(f: Forest, g: Forest, h: Forest, inner: int, level: int, p: int)
    requires Shrinks(f, g, level, p) && Shrinks(g, h, inner, p) && inner <= level
    ensures Shrinks(f, h, level, p)
  {
  }

  lemma ShrinksSelf(f: Forest, g: Forest, victim: int, cut: int, level: int, p: int)
    requires Tree(f, victim, cut) && g.at == f.at && g.tables == f.tables
    ensures Shrinks(f, g, level, p)
  {
  }

  lemma ShrinksAt(f: Forest, g: Forest, level: int, p: int, q: Pos)
    requires Shrinks(f, g, level, p) && q in f.at && q.level > level
    ensures q in g.at && g.at[q] == f.at[q] && f.at[q] in f.tables && f.at[q] in g.tables
    ensures g.tables[f.at[q]] == f.tables[f.at[q]]
  {
  }

  lemma ShrinksNone(f: Forest, g: Forest, level: int, p: int, q: Pos)
    requires Shrinks(f, g, level, p) && q !in f.at
    ensures q !in g.at
  {
  }

  lemma ShrinksWeaken(f: Forest, g: Forest, inner: int, level: int, p: int)
    requires Shrinks(f, g, inner, p) && inner <= level
    ensures Shrinks(f, g, level, p)
  {
  }

  lemma RootAt(roots: set<int>, at: map<Pos, int>, p: int)
    requires Rooted(roots, at) && p in roots
    ensures Pos(p, 4, 0) in at
  {
  }

  lemma ReleaseIs(s: State, p: int)
    ensures Release(s, p) == ReleaseUpTo(s, p, USER_PAGES)
  {
  }

  lemma FreedAt(f: Forest, g: Forest, p: int)
    requires Shrinks(f, g, 4, p) && OnlyRoot(g, p)
    ensures forall q :: q in g.at - {Pos(p, 4, 0)} <==> q in f.at && q.root != p
    ensures forall q :: q in g.at && q.root != p ==> g.at[q] == f.at[q]
  {
  }

  lemma DetachCounts(s: State, p: int)
    requires Mapped(s) && Counted(s) && forall l :: l in s.entries ==> l.root != p
    ensures Mapped(s.(roots := s.roots - {p})) && Counted(s.(roots := s.roots - {p}))
  {
  }

  lemma PlantIs(f: Forest, r: int, top: seq<Entry>)
    ensures Plant(f, r, top) == Forest(f.tables[r := top], f.at[Pos(r, 4, 0) := r], f.role[r := Pos(r, 4, 0)], f.entries)
  {
  }

  lemma RootedAttach(roots: set<int>, at: map<Pos, int>, p: int)
    requires Rooted(roots, at)
    ensures Rooted(roots + {p}, at[Pos(p, 4, 0) := p]) && (Pos(p, 4, 0) !in at ==> p !in roots)
  {
  }

  lemma RootedDetach(roots: set<int>, at: map<Pos, int>, p: int)
    requires Rooted(roots, at)
    ensures Rooted(roots - {p}, at - {Pos(p, 4, 0)})
  {
  }

  lemma ClearShrinks(f: Forest, p: int, i: int, cut: int)
    requires Tree(f, p, cut) && Pos(p, 4, 0) in f.at && 0 <= i < USER_END
    ensures Shrinks(f, f.(tables := SetSlot(f, Pos(p, 4, 0), i, Absent)), 4, p)
  {
    forall q | q in f.at ensures f.role[f.at[q]] == q {}
  }

  lemma RemoveShrinks(f: Forest, k: Pos, victim: int, cut: int)
    requires Tree(f, victim, cut) && k in f.at
    ensures Shrinks(f, Remove(f, k), k.level, k.root)
  {
    forall q | q in f.at ensures f.role[f.at[q]] == q {}
  }

  lemma NotAFrame(pages: seq<Page>, usable: set<int>, memory: map<int, Data>, paging: set<int>)
    requires Backed(pages, usable, memory, paging)
    ensures -1 !in FramesOf(pages, usable, memory)
  {
  }

  /** A resolved fault leaves the page mapped, writable and backed. */
  lemma Retried(s: State, l: Loc, off: int, spare: int)
    requires Mapped(s) && spare !in s.frames && Cow.Fault(s, l, off, spare).Resolved?
    ensures var t := Cow.Fault(s, l, off, spare).state; l in t.entries && t.entries[l].frame in t.frames
  {
  }

  /** The fault would be served by a copy, and there is no frame for it. */
  ghost predicate Starved(s: State, l: Loc, off: int, pages: seq<Page>, usable: set<int>) {
    && !Cow.AtNull(l, off) && l in s.entries && User in s.entries[l].flags && Write !in s.entries[l].flags
    && s.entries[l].frame in s.frames && s.frames[s.entries[l].frame].usage == Private && s.frames[s.entries[l].frame].refs >= 2
    && FreeSet(pages, usable) == {}
  }

  /** `t` is `s` with a run of i fresh frames of one usage, each mapped once. */
  ghost predicate RunOf(s: State, t: State, root: int, base: int, i: int, pu: Usage, flags: set<Flag>) {
    && t.roots == s.roots
    && (forall l :: l in t.entries <==> l in s.entries || (l.root == root && base <= l.page < base + i))
    && (forall l :: l in s.entries ==> t.entries[l] == s.entries[l])
    && (forall f :: f in s.frames ==> f in t.frames && t.frames[f] == s.frames[f])
    && (forall v :: base <= v < base + i ==> FreshAt(s, t, Loc(root, v), pu, flags))
  }

  ghost predicate FreshAt(s: State, t: State, l: Loc, pu: Usage, flags: set<Flag>) {
    && l in t.entries && t.entries[l].flags == flags && t.entries[l].frame !in s.frames
    && t.entries[l].frame in t.frames && t.frames[t.entries[l].frame].usage == pu && t.frames[t.entries[l].frame].refs == 1
  }

  lemma NoRun(s: State, root: int, base: int, pu: Usage, flags: set<Flag>)
    ensures RunOf(s, s, root, base, 0, pu, flags)
  {
  }

  lemma NextFree(s: State, t: State, root: int, base: int, i: int, pu: Usage, flags: set<Flag>)
    requires RunOf(s, t, root, base, i, pu, flags) && Loc(root, base + i) !in s.entries
    ensures Loc(root, base + i) !in t.entries
  {
  }

  lemma RunStep(s: State, t: State, root: int, base: int, i: nat, pu: Usage, flags: set<Flag>, f: int, d: Data)
    requires RunOf(s, t, root, base, i, pu, flags) && f !in t.frames && Loc(root, base + i) !in t.entries
    ensures RunOf(s, MapFresh(t, Loc(root, base + i), f, pu, flags, d), root, base, i + 1, pu, flags)
  {
    var t' := MapFresh(t, Loc(root, base + i), f, pu, flags, d);
    forall l ensures l in t'.entries <==> l in s.entries || (l.root == root && base <= l.page < base + i + 1) {
      assert l == Loc(l.root, l.page);
    }
    forall v | base <= v < base + i + 1 ensures FreshAt(s, t', Loc(root, v), pu, flags) {
      if v < base + i { assert FreshAt(s, t, Loc(root, v), pu, flags); }
    }
  }

  ghost predicate Unmapped(entries: Entries, root: int, p: int, n: int) {
    forall v :: p <= v < p + n ==> Loc(root, v) !in entries
  }

  lemma InvMeans(s: State)
    requires Inv(s)
    ensures Mapped(s) && Counted(s)
  {
  }

  lemma InvForked(s: State, p: int, c: int)
    requires Inv(s) && p in s.roots && c !in s.roots
    ensures Inv(Fork(NewSpace(s, c), p, c))
  {
    InvForkUpTo(NewSpace(s, c), p, c, USER_PAGES);
  }

  /** Creating, forking, releasing and freeing the space `c` leaves the tables of all others. */
  lemma SameAt(f0: Forest, f1: Forest, f2: Forest, f3: Forest, f4: Forest, c: int, src: int)
    requires f1.at == f0.at[Pos(c, 4, 0) := c] && Keeps(f1, f2, 4, src, c) && Shrinks(f2, f3, 4, c)
    requires forall q :: q in f0.at ==> q.root != c
    requires forall q :: q in f4.at <==> q in f3.at && q.root != c
    requires forall q :: q in f4.at ==> f4.at[q] == f3.at[q]
    ensures f4.at == f0.at
  {
    forall q ensures q in f4.at <==> q in f0.at {
      assert q in f0.at ==> q in f1.at && q in f2.at && q in f3.at;
    }
    forall q | q in f0.at ensures f4.at[q] == f0.at[q] {
      assert q in f1.at && q in f2.at && q in f3.at;
    }
  }

  lemma SameTables(f: Forest, g: Forest)
    requires Tree(f, 0, 0) && Tree(g, 0, 0) && f.at == g.at
    ensures f.tables.Keys == g.tables.Keys
  {
    forall t ensures t in f.tables <==> t in g.tables {
      if t in f.tables { assert g.at[f.role[t]] == t; }
      if t in g.tables { assert f.at[g.role[t]] == t; }
    }
  }

  /** The allocator's counters are determined by the frames in use and the table frames. */
  lemma SameCounters(pages: seq<Page>, later: seq<Page>, usable: set<int>, memory: map<int, Data>, memory': map<int, Data>,
                     free: int, free': int, counts: map<Usage, int>, counts': map<Usage, int>, paging: set<int>)
    requires Backed(pages, usable, memory, paging) && Backed(later, usable, memory', paging)
    requires GoodCounts(pages, usable, free, counts) && GoodCounts(later, usable, free', counts')
    requires FramesOf(pages, usable, memory) == FramesOf(later, usable, memory')
    ensures free == free' && counts == counts'
  {
    forall i | i in usable ensures pages[i].alloc == later[i].alloc && pages[i].usage == later[i].usage {
      var f, g := FramesOf(pages, usable, memory), FramesOf(later, usable, memory');
      assert i in f <==> pages[i].alloc && pages[i].usage != Paging;
      assert i in g <==> later[i].alloc && later[i].usage != Paging;
      assert i in paging <==> pages[i].alloc && pages[i].usage == Paging;
      assert i in paging <==> later[i].alloc && later[i].usage == Paging;
      assert i in f ==> f[i].usage == g[i].usage;
    }
    assert FreeSet(pages, usable) == FreeSet(later, usable);
    forall u ensures UsedSet(pages, usable, u) == UsedSet(later, usable, u) {}
    assert counts.Keys == counts'.Keys;
  }

  datatype FaultCode = Fixed | NotFixed | Halted

  class Mmu {
    const phys: Allocator
    var tables: map<int, seq<Entry>>
    var memory: map<int, Data>
    ghost var roots: set<int>
    ghost var kernels: map<int, seq<Entry>>
    ghost var at: map<Pos, int>
    ghost var role: map<int, Pos>
    ghost var entries: Entries

    ghost function Wood(): Forest
      reads this
    {
      Forest(tables, at, role, entries)
    }

    ghost function Abs(): State
      reads this, phys
    {
      StateOf(roots, entries, phys.pages, phys.usable, memory)
    }

    ghost predicate Frames()
      reads this, phys
    {
      phys.Valid() && Backed(phys.pages, phys.usable, memory, tables.Keys) && Mapped(Abs()) && Counted(Abs())
    }

    ghost predicate Valid()
      reads this, phys
    {
      Frames() && Tree(Wood(), 0, 0) && Rooted(roots, at) && Halves(kernels, roots, tables)
    }

    /** No address space yet, every usable frame free. */
    constructor (usable: set<int>)
      requires forall i :: i in usable ==> LOW_PAGE <= i < PHYS_MAX_PAGES
      ensures Valid() && fresh(phys) && roots == {} && kernels == map[] && entries == map[] && phys.usable == usable
    {
      hide Tree, Halves, Backed, FramesOf, GoodPages, GoodCounts, Counted, Mapped, Rooted, FreeSet;
      phys := new Allocator(usable);
      tables, at, role, entries, roots, kernels := map[], map[], map[], map[], {}, map[];
      memory := map f | f in usable :: seq(PAGE_SIZE, _ => 0);
      new;
      NothingBacked(phys.pages, usable, memory);
      NoTrees();
      NoStates(phys.pages, usable, memory);
      assert tables.Keys == {};
    }

    // -------------------------------------------------------------- table frames

    /** amd64_mm_pool_alloc: a zeroed table in a fresh frame. */
    method PoolAlloc() returns (r: Option<int>)
      requires Frames()
      modifies this`tables, phys
      ensures r.None? ==> FreeSet(phys.pages, phys.usable) == {}
      ensures r.Some? ==> Frames() && Abs() == old(Abs()) && r.value !in old(tables)
      ensures r.Some? ==> tables == old(tables)[r.value := Empty()]
    {
      hide Backed, FramesOf, GoodCounts, Mapped, Counted;
      ghost var was := phys.pages;
      r := phys.AllocPage(Paging);
      if r.Some? {
        BackedAlloc(was, phys.usable, memory, tables.Keys, r.value, Paging);
        tables := tables[r.value := Empty()];
        assert tables.Keys == old(tables.Keys) + {r.value};
      }
    }

    /** amd64_mm_pool_free: the table is overwritten with ones and its frame is freed. */
    method PoolFree(t: int)
      requires Frames() && t in tables
      modifies this`tables, this`memory, phys
      ensures Frames() && Abs() == old(Abs())
      ensures tables == old(tables) - {t}
    {
      hide Backed, FramesOf, GoodCounts, Mapped, Counted;
      BackedFreeTable(phys.pages, phys.usable, memory, tables.Keys, t, seq(PAGE_SIZE, _ => 255));
      memory := memory[t := seq(PAGE_SIZE, _ => 255)];
      tables := tables - {t};
      assert tables.Keys == old(tables.Keys) - {t};
      phys.FreePage(t);
    }

    // -------------------------------------------------------------- walks

    /** One level of a table walk: the table below page `v`'s slot, if there is one. */
    method Follow(root: int, level: int, v: int, t: int) returns (r: Option<int>)
      requires Valid() && UserPage(v) && 2 <= level <= 4
      requires On(root, level, v) in at && at[On(root, level, v)] == t
      ensures r.None? ==> Loc(root, v) !in entries
      ensures r.Some? ==> On(root, level - 1, v) in at && at[On(root, level - 1, v)] == r.value
    {
      hide Tree, Halves, Backed, FramesOf, GoodPages, GoodCounts, Mapped, Counted;
      PathStep(root, level, v);
      TableAt(Wood(), 0, 0, On(root, level, v));
      AliveAtStart(On(root, level, v), IndexAt(level, v));
      SlotBelow(Wood(), On(root, level, v), IndexAt(level, v), 0, 0);
      var e := tables[t][IndexAt(level, v)];
      if e.Absent? {
        AbsentPath(Wood(), root, level, v);
        return None;
      }
      return Some(e.pte.frame);
    }

    /** The walk to the level-1 table of page `v`. */
    method Descend(root: int, v: int) returns (r: Option<int>)
      requires Valid() && root in roots && UserPage(v)
      ensures r.None? ==> Loc(root, v) !in entries
      ensures r.Some? ==> On(root, 1, v) in at && at[On(root, 1, v)] == r.value
    {
      hide Tree, Halves, Backed, FramesOf, GoodPages, GoodCounts, Mapped, Counted;
      TableAt(Wood(), 0, 0, Pos(root, 4, 0));
      var pdpt := Follow(root, 4, v, root);
      if pdpt.None? { return None; }
      var pd := Follow(root, 3, v, pdpt.value);
      if pd.None? { return None; }
      r := Follow(root, 2, v, pd.value);
    }

    /** mm_map_get on a user page. */
    method MapGet(root: int, v: int) returns (r: Option<Pte>)
      requires Valid() && root in roots && UserPage(v)
      ensures r == if Loc(root, v) in entries then Some(entries[Loc(root, v)]) else None
    {
      hide Tree, Halves, Backed, FramesOf, GoodPages, GoodCounts, Mapped, Counted;
      var pt := Descend(root, v);
      if pt.None? { return None; }
      LeafSlot(Wood(), root, v);
      var e := tables[pt.value][v % 512];
      if e.Absent? { return None; }
      return Some(e.pte);
    }

    /** mm_umap_single on a user page. */
    method UmapSingle(root: int, v: int) returns (r: Option<int>)
      requires Valid() && root in roots && UserPage(v)
      modifies this`tables, this`entries, phys`pages
      ensures Valid()
      ensures r.None? <==> Loc(root, v) !in old(entries)
      ensures r.None? ==> Abs() == old(Abs()) && tables == old(tables)
      ensures r.Some? ==> Loc(root, v) in old(Abs()).entries && r.value == old(Abs()).entries[Loc(root, v)].frame
      ensures r.Some? ==> r.value in old(Abs()).frames && Abs() == Unmap(old(Abs()), Loc(root, v))
    {
      hide Tree, Halves, Backed, FramesOf, GoodPages, GoodCounts, Counted;
      var pt := Descend(root, v);
      if pt.None? { return None; }
      LeafSlot(Wood(), root, v);
      var e := tables[pt.value][v % 512];
      if e.Absent? { return None; }
      ghost var l := Loc(root, v);
      SetLeafTree(Wood(), l, Absent, 0);
      HalvesSlot(kernels, roots, Wood(), 0, 0, On(root, 1, v), v % 512, Absent);
      DropCounts(Abs(), l);
      RefsPositive(Abs(), l);
      BackedRef(phys.pages, phys.usable, memory, tables.Keys, e.pte.frame, -1);
      assert phys.pages[e.pte.frame].refcount > 0;
      tables := tables[pt.value := tables[pt.value][v % 512 := Absent]];
      assert tables.Keys == old(tables.Keys);
      entries := entries - {l};
      phys.AddRefcount(e.pte.frame, -1);
      return Some(e.pte.frame);
    }

    /** Allocate a table and hang it below the absent slot `i` of table `t` at position `k`. */
    method Hang(ghost k: Pos, t: int, i: int, flags: set<Flag>) returns (r: Option<int>)
      requires Valid() && k in at && at[k] == t && k.level >= 2 && 0 <= i < Width(k.level) && {User, Write} <= flags
      requires t in tables && |tables[t]| == TABLE_LEN && tables[t][i].Absent?
      modifies this`tables, this`at, this`role, phys
      ensures Child(k, i) !in old(at)
      ensures r.None? ==> FreeSet(phys.pages, phys.usable) == {}
      ensures r.Some? ==> Valid() && Abs() == old(Abs()) && r.value !in old(tables)
      ensures r.Some? ==> Wood() == Grow(old(Wood()), k, i, r.value, flags)
    {
      hide Tree, Halves, Backed, FramesOf, GoodPages, GoodCounts, Mapped, Counted;
      ghost var f := Wood();
      AbsentChild(f, k, i, 0, 0);
      TableAt(f, 0, 0, k);
      r := PoolAlloc();
      if r.None? { return; }
      label Allocated:
      GrowTree(f, k, i, r.value, flags, 0);
      HalvesGrow(kernels, roots, f, k, i, r.value, flags);
      tables := tables[t := tables[t][i := Present(Pte(r.value, flags))]];
      at, role := at[Child(k, i) := r.value], role[r.value := Child(k, i)];
      assert tables == Grow(f, k, i, r.value, flags).tables;
      assert tables.Keys == old@Allocated(tables.Keys);
      assert Rooted(roots, at);
    }

    /** The table below page `v`'s slot, allocated if the slot is absent. */
    method Ensure(root: int, level: int, v: int, t: int) returns (r: Option<int>)
      requires Valid() && UserPage(v) && 2 <= level <= 4
      requires On(root, level, v) in at && at[On(root, level, v)] == t
      modifies this`tables, this`at, this`role, phys
      ensures r.None? ==> FreeSet(phys.pages, phys.usable) == {} && On(root, level - 1, v) !in old(at)
      ensures r.Some? ==> Valid() && Abs() == old(Abs())
      ensures r.Some? ==> On(root, level - 1, v) in at && at[On(root, level - 1, v)] == r.value
      ensures r.Some? ==> forall k :: k in old(at) ==> k in at
    {
      hide Tree, Halves, Backed, FramesOf, GoodPages, GoodCounts, Mapped, Counted, Rooted;
      PathStep(root, level, v);
      ghost var k := On(root, level, v);
      var i := IndexAt(level, v);
      TableAt(Wood(), 0, 0, k);
      AliveAtStart(k, i);
      SlotBelow(Wood(), k, i, 0, 0);
      var e := tables[t][i];
      if e.Present? { return Some(e.pte.frame); }
      r := Hang(k, t, i, {User, Write});
    }

    /** mm_map_single on an unmapped user page; false means that no frame was left for a table. */
    method MapSingle(root: int, v: int, frame: int, flags: set<Flag>) returns (ok: bool)
      requires Valid() && root in roots && UserPage(v) && Loc(root, v) !in entries && frame in Abs().frames
      modifies this`tables, this`at, this`role, this`entries, phys
      ensures ok ==> Valid() && Abs() == MapFrame(old(Abs()), Loc(root, v), Pte(frame, flags))
      ensures !ok ==> FreeSet(phys.pages, phys.usable) == {} && On(root, 1, v) !in old(at)
    {
      hide Tree, Halves, Backed, FramesOf, GoodPages, GoodCounts, Mapped, Counted;
      TableAt(Wood(), 0, 0, Pos(root, 4, 0));
      PathAbove(Wood(), root, v);
      var pdpt := Ensure(root, 4, v, root);
      if pdpt.None? { return false; }
      var pd := Ensure(root, 3, v, pdpt.value);
      if pd.None? { return false; }
      var pt := Ensure(root, 2, v, pd.value);
      if pt.None? { return false; }
      Enter(root, v, pt.value, frame, flags);
      return true;
    }

    /** Writing the entry, once the three tables above it exist. */
    method Enter(root: int, v: int, pt: int, frame: int, flags: set<Flag>)
      requires Valid() && root in roots && UserPage(v) && Loc(root, v) !in entries && frame in Abs().frames
      requires On(root, 1, v) in at && at[On(root, 1, v)] == pt
      modifies this`tables, this`entries, phys`pages
      ensures Valid() && Abs() == MapFrame(old(Abs()), Loc(root, v), Pte(frame, flags))
    {
      hide Tree, Halves, Backed, FramesOf, GoodPages, GoodCounts, Mapped, Counted, Rooted;
      LeafSlot(Wood(), root, v);
      assert tables[pt][v % 512].Absent?;          // "Entry already present" cannot be reached
      ghost var l, pte := Loc(root, v), Pte(frame, flags);
      SetLeafTree(Wood(), l, Present(pte), 0);
      HalvesSlot(kernels, roots, Wood(), 0, 0, On(root, 1, v), v % 512, Present(pte));
      MapFrameCounts(Abs(), l, pte);
      BackedRef(phys.pages, phys.usable, memory, tables.Keys, frame, 1);
      phys.AddRefcount(frame, 1);
      tables := tables[pt := tables[pt][v % 512 := Present(Pte(frame, flags))]];
      assert tables.Keys == old(tables.Keys);
      entries := entries[l := pte];
    }

    // -------------------------------------------------------------- fork

    /** The body of fork's innermost loop for a present entry. */
    method CloneLeaf(src: int, dst: int, v: int, s: int, d: int)
      requires Valid() && UserPage(v) && src != dst && dst in roots
      requires On(src, 1, v) in at && at[On(src, 1, v)] == s && On(dst, 1, v) in at && at[On(dst, 1, v)] == d
      requires Loc(src, v) in entries && Loc(dst, v) !in entries
      modifies this`tables, this`entries, phys`pages
      ensures Valid() && Abs() == CloneOne(old(Abs()), src, dst, v)
      ensures Keeps(old(Wood()), Wood(), 1, src, dst)
      ensures d in tables && d in old(tables) && |tables[d]| == |old(tables)[d]|
      ensures forall j :: 0 <= j < |tables[d]| && j != v % 512 ==> tables[d][j] == old(tables)[d][j]
    {
      hide Tree, Halves, Backed, FramesOf, GoodPages, GoodCounts, Mapped, Counted, Rooted, Keeps, CloneLeaves;
      LeafSlot(Wood(), src, v);
      LeafSlot(Wood(), dst, v);
      MappedAt(Abs(), Loc(src, v));
      var pte := tables[s][v % 512].pte;
      BackedRef(phys.pages, phys.usable, memory, tables.Keys, pte.frame, 1);
      var page := phys.pages[pte.frame];
      var copy := pte;
      if Write in pte.flags && page.usage == Private {
        copy := pte.(flags := pte.flags - {Write});
      }
      assert copy == AddressSpaces.Cow(Abs().frames, entries[Loc(src, v)]);
      CloneLeavesTree(Wood(), src, dst, v, copy);
      HalvesLeaves(kernels, roots, Wood(), src, dst, v, copy);
      CloneLeavesForm(Wood(), src, dst, v, copy);
      CloneCounts(Abs(), src, dst, v);
      tables := tables[d := tables[d][v % 512 := Present(copy)]][s := tables[s][v % 512 := Present(copy)]];
      entries := entries[Loc(src, v) := copy][Loc(dst, v) := copy];
      phys.AddRefcount(pte.frame, 1);
    }

    /** One iteration of a fork loop: slot `i` of the source table `s` at position `k` of `level`. */
    method ForkSlot(level: int, src: int, dst: int, k: int, i: int, s: int, d: int, ghost s0: State) returns (ok: bool)
      requires Valid() && 1 <= level <= 4 && src != dst && dst in roots && 0 <= i < Width(level)
      requires Pos(src, level, k) in at && at[Pos(src, level, k)] == s
      requires Pos(dst, level, k) in at && at[Pos(dst, level, k)] == d
      requires d in tables && |tables[d]| == TABLE_LEN && tables[d][i].Absent?
      requires Forkable(s0, src, dst) && 0 <= First(level, k * 512 + i)
      requires Abs() == ForkUpTo(s0, src, dst, First(level, k * 512 + i))
      modifies this`tables, this`at, this`role, this`entries, phys
      ensures !ok ==> FreeSet(phys.pages, phys.usable) == {}
      ensures ok ==> 0 <= First(level, k * 512 + i + 1)
      ensures ok ==> Valid() && Abs() == ForkUpTo(s0, src, dst, First(level, k * 512 + i + 1))
      ensures ok ==> Keeps(old(Wood()), Wood(), level, src, dst)
      ensures ok ==> d in tables && |tables[d]| == TABLE_LEN
      ensures ok ==> forall j :: 0 <= j < TABLE_LEN && j != i ==> tables[d][j] == old(tables)[d][j]
      decreases level, 0
    {
      hide Tree, Halves, Backed, FramesOf, GoodPages, GoodCounts, Mapped, Counted, Keeps, Forkable, FreeSet, Rooted;
      ghost var f, ks, kd := Wood(), Pos(src, level, k), Pos(dst, level, k);
      TableAt(f, 0, 0, ks);
      RangeNumbers(level, k, i);
      KeepsSelf(f, level, src, dst);
      var e := tables[s][i];
      if e.Absent? {
        AbsentSlotAt(f, 0, 0, ks, i);
        ForkStands(s0, src, dst, First(level, k * 512 + i), First(level, k * 512 + i + 1), Abs());
        return true;
      }
      if level == 1 {
        var v := k * 512 + i;
        LeafSlot(f, src, v);
        LeafSlot(f, dst, v);
        CloneLeaf(src, dst, v, s, d);
        return true;
      }
      AliveAtStart(ks, i);
      SlotBelow(f, ks, i, 0, 0);
      var t := Hang(kd, d, i, e.pte.flags);
      if t.None? { return false; }
      GrowKeeps(f, kd, i, t.value, e.pte.flags, src);
      ghost var g := Wood();
      KeepsAt(f, g, level, src, dst, Child(ks, i));
      ok := ForkTable(level - 1, src, dst, k * 512 + i, e.pte.frame, t.value, s0);
      if ok {
        KeepsTrans(f, g, Wood(), level - 1, level, src, dst);
        KeepsTable(g, Wood(), level - 1, src, dst, kd);
      }
    }

    /** A fork loop over the slots of one table; the four nested loops are its four levels. */
    method ForkTable(level: int, src: int, dst: int, k: int, s: int, d: int, ghost s0: State) returns (ok: bool)
      requires Valid() && 1 <= level <= 4 && src != dst && dst in roots
      requires Pos(src, level, k) in at && at[Pos(src, level, k)] == s
      requires Pos(dst, level, k) in at && at[Pos(dst, level, k)] == d
      requires d in tables && |tables[d]| == TABLE_LEN && forall j :: 0 <= j < Width(level) ==> tables[d][j].Absent?
      requires Forkable(s0, src, dst) && 0 <= First(level, k * 512)
      requires Abs() == ForkUpTo(s0, src, dst, First(level, k * 512))
      modifies this`tables, this`at, this`role, this`entries, phys
      ensures !ok ==> FreeSet(phys.pages, phys.usable) == {}
      ensures ok ==> 0 <= First(level, k * 512 + Width(level))
      ensures ok ==> Valid() && Abs() == ForkUpTo(s0, src, dst, First(level, k * 512 + Width(level)))
      ensures ok ==> Keeps(old(Wood()), Wood(), level, src, dst)
      decreases level, 1
    {
      hide Tree, Halves, Backed, FramesOf, GoodPages, GoodCounts, Mapped, Counted, Keeps, Forkable, Rooted;
      var i := 0;
      ghost var f := Wood();
      KeepsSelf(f, level, src, dst);
      while i < Width(level)
        invariant 0 <= i <= Width(level) && Valid() && roots == old(roots)
        invariant 0 <= First(level, k * 512 + i)
        invariant Abs() == ForkUpTo(s0, src, dst, First(level, k * 512 + i))
        invariant Keeps(f, Wood(), level, src, dst)
        invariant Pos(src, level, k) in at && at[Pos(src, level, k)] == s
        invariant Pos(dst, level, k) in at && at[Pos(dst, level, k)] == d
        invariant d in tables && |tables[d]| == TABLE_LEN && forall j :: i <= j < Width(level) ==> tables[d][j].Absent?
      {
        ghost var g := Wood();
        ok := ForkSlot(level, src, dst, k, i, s, d, s0);
        if !ok { return false; }
        KeepsTrans(f, g, Wood(), level, level, src, dst);
        KeepsAt(g, Wood(), level, src, dst, Pos(src, level, k));
        KeepsAt(g, Wood(), level, src, dst, Pos(dst, level, k));
        i := i + 1;
      }
      return true;
    }

    /** A new user space whose kernel half is copied from `kernel` (amd64_mm_pool_alloc followed
        by mm_space_clone). */
    method SpaceCreate(kernel: seq<Entry>) returns (r: Option<int>)
      requires Valid() && |kernel| == TABLE_LEN
      modifies this`tables, this`at, this`role, this`roots, this`kernels, phys
      ensures r.None? ==> FreeSet(phys.pages, phys.usable) == {}
      ensures r.Some? ==> kernels == old(kernels)[r.value := kernel[USER_END..]]
      ensures r.Some? ==> Valid() && r.value !in old(roots) && Abs() == NewSpace(old(Abs()), r.value)
      ensures r.Some? ==> at == old(at)[Pos(r.value, 4, 0) := r.value] && forall q :: q in old(at) ==> q.root != r.value
      ensures r.Some? ==> r.value in tables && |tables[r.value]| == TABLE_LEN && tables[r.value][USER_END..] == kernel[USER_END..]
      ensures r.Some? ==> forall i :: 0 <= i < USER_END ==> tables[r.value][i].Absent?
    {
      hide Tree, Halves, Backed, FramesOf, GoodPages, GoodCounts, Counted, Mapped, FreeSet, Rooted, Plant;
      ghost var f := Wood();
      r := PoolAlloc();
      if r.None? { return; }
      var top := tables[r.value];
      top := CloneKernelHalf(top, kernel);
      FreshRoot(f, r.value);
      HalvesRoot(kernels, roots, f.tables, r.value, top);
      PlantTree(f, r.value, top, 0);
      label Allocated:
      tables := tables[r.value := top];
      at, role := at[Pos(r.value, 4, 0) := r.value], role[r.value := Pos(r.value, 4, 0)];
      roots, kernels := roots + {r.value}, kernels[r.value := top[USER_END..]];
      assert tables.Keys == old@Allocated(tables.Keys);
      PutTwice(f.tables, r.value, Empty(), top);
      PlantIs(f, r.value, top);
      RootedAttach(old(roots), f.at, r.value);
      CountedRoots(old(Abs()), Abs());
    }

    /** mm_space_fork into a space that holds no user page yet: the user pages are those of fork, and
        the kernel half is that of the parent. */
    method SpaceFork(dst: int, src: int) returns (ok: bool)
      requires Valid() && src in roots && dst in roots && src != dst
      requires dst in tables && |tables[dst]| == TABLE_LEN && forall i :: 0 <= i < USER_END ==> tables[dst][i].Absent?
      modifies this`tables, this`at, this`role, this`entries, this`kernels, phys
      ensures ok ==> Valid() && Abs() == Fork(old(Abs()), src, dst)
      ensures ok ==> Keeps(old(Wood()), Wood(), 4, src, dst)
      ensures ok ==> src in old(kernels) && kernels == old(kernels)[dst := old(kernels)[src]]
      ensures ok ==> Half(kernels, tables, src) && Half(kernels, tables, dst)
      ensures !ok ==> FreeSet(phys.pages, phys.usable) == {}
    {
      hide Tree, Halves, Backed, FramesOf, GoodPages, GoodCounts, Mapped, Counted, Keeps, Rooted, FreeSet;
      RootAt(roots, at, src);
      RootAt(roots, at, dst);
      TableAt(Wood(), 0, 0, Pos(src, 4, 0));
      TableAt(Wood(), 0, 0, Pos(dst, 4, 0));
      EmptySpace(Wood(), dst);
      ghost var f := Wood();
      ok := ForkTable(4, src, dst, 0, src, dst, Abs());
      if !ok { return; }
      ghost var g := Wood();
      HalvesAt(kernels, roots, tables, src);
      HalvesAt(kernels, roots, tables, dst);
      var top := CloneKernelHalf(tables[dst], tables[src]);
      RootAt(roots, at, dst);
      TreePlaced(g);
      KernelTree(g, dst, top);
      KernelKeeps(f, g, src, dst, top);
      HalvesRoot(kernels, roots, tables, dst, top);
      assert top[USER_END..] == tables[src][USER_END..] && roots + {dst} == roots;
      tables, kernels := tables[dst := top], kernels[dst := kernels[src]];
      HalvesAt(kernels, roots, tables, src);
      HalvesAt(kernels, roots, tables, dst);
    }

    // -------------------------------------------------------------- release

    /** While `p` is released, its pages below `cut` are gone. */
    ghost predicate Releasing(p: int, cut: int, s0: State)
      reads this, phys
    {
      && Frames() && Tree(Wood(), p, cut) && Rooted(roots, at) && Halves(kernels, roots, tables) && p in roots
      && cut >= 0 && Mapped(s0) && Counted(s0) && Abs() == ReleaseUpTo(s0, p, cut)
    }

    /** The body of release's innermost loop for a present entry. */
    method DropLeaf(p: int, v: int, pte: Pte, ghost s0: State)
      requires Releasing(p, v, s0) && UserPage(v) && Loc(p, v) in entries && entries[Loc(p, v)] == pte
      modifies this`entries, phys
      ensures Releasing(p, v + 1, s0)
    {
      hide Tree, Halves, Backed, FramesOf, GoodPages, GoodCounts, Mapped, Counted, Rooted;
      ghost var l, s := Loc(p, v), Abs();
      MappedAt(s, l);
      DropCounts(s, l);
      RefsPositive(s, l);
      BackedRef(phys.pages, phys.usable, memory, tables.Keys, pte.frame, -1);
      CutOne(Wood(), s0, p, v);
      entries := entries - {l};
      phys.AddRefcount(pte.frame, -1);
      if phys.pages[pte.frame].refcount == 0 {
        BackedFreeFrame(phys.pages, phys.usable, memory, tables.Keys, pte.frame);
        phys.FreePage(pte.frame);
      }
      assert Abs() == Drop(s, l);
    }

    /** One iteration of a release loop: slot `i` of the table `t` at position `k` of `level`. */
    method ReleaseSlot(level: int, p: int, k: int, i: int, t: int, ghost s0: State)
      requires 1 <= level <= 4 && 0 <= i < Width(level) && Releasing(p, First(level, k * 512 + i), s0)
      requires Pos(p, level, k) in at && at[Pos(p, level, k)] == t && t in tables && |tables[t]| == TABLE_LEN
      modifies this`tables, this`memory, this`at, this`role, this`entries, phys
      ensures Releasing(p, First(level, k * 512 + i + 1), s0)
      ensures Shrinks(old(Wood()), Wood(), level - 1, p)
      ensures level >= 2 ==> Child(Pos(p, level, k), i) !in at
      ensures old(tables)[t][i].Absent? ==> unchanged(phys) && tables == old(tables) && at == old(at)
      decreases level, 0
    {
      hide Tree, Halves, Backed, FramesOf, GoodPages, GoodCounts, Mapped, Counted, Rooted, Shrinks;
      ghost var f, key, cut := Wood(), Pos(p, level, k), First(level, k * 512 + i);
      TableAt(f, p, cut, key);
      RangeNumbers(level, k, i);
      AliveAhead(key, i);
      ShrinksSelf(f, f, p, cut, level - 1, p);
      var e := tables[t][i];
      if e.Absent? {
        AbsentSlotAt(f, p, cut, key, i);
        CutNone(f, s0, p, cut, First(level, k * 512 + i + 1), Abs());
      } else if level == 1 {
        LeafAt(f, p, k, i);
        DropLeaf(p, k * 512 + i, e.pte, s0);
        ShrinksSelf(f, Wood(), p, cut, 0, p);
      } else {
        SlotBelow(f, key, i, p, cut);
        ReleaseTable(level - 1, p, k * 512 + i, e.pte.frame, s0);
      }
    }

    /** A release loop over one table below the top level, followed by freeing the table. */
    method ReleaseTable(level: int, p: int, k: int, t: int, ghost s0: State)
      requires 1 <= level <= 3 && Releasing(p, First(level, k * 512), s0)
      requires Pos(p, level, k) in at && at[Pos(p, level, k)] == t
      modifies this`tables, this`memory, this`at, this`role, this`entries, phys
      ensures Releasing(p, First(level, k * 512 + TABLE_LEN), s0)
      ensures Shrinks(old(Wood()), Wood(), level, p) && Pos(p, level, k) !in at
      decreases level, 1
    {
      hide Tree, Halves, Backed, FramesOf, GoodPages, GoodCounts, Mapped, Counted, Rooted, Shrinks, ReleaseUpTo;
      ghost var f, key := Wood(), Pos(p, level, k);
      TableAt(f, p, First(level, k * 512), key);
      ShrinksSelf(f, f, p, First(level, k * 512), level, p);
      var i := 0;
      while i < TABLE_LEN
        invariant 0 <= i <= TABLE_LEN && Releasing(p, First(level, k * 512 + i), s0)
        invariant Shrinks(f, Wood(), level, p)
        invariant key in at && at[key] == t && t in tables && |tables[t]| == TABLE_LEN
        invariant level >= 2 ==> forall j :: 0 <= j < i ==> Child(key, j) !in at
      {
        ghost var g := Wood();
        ReleaseSlot(level, p, k, i, t, s0);
        ShrinksTrans(f, g, Wood(), level - 1, level, p);
        ShrinksAt(g, Wood(), level - 1, p, key);
        forall j | level >= 2 && 0 <= j < i ensures Child(key, j) !in at { ShrinksNone(g, Wood(), level - 1, p, Child(key, j)); }
        i := i + 1;
      }
      ghost var g := Wood();
      PruneTree(g, key, First(level, k * 512 + TABLE_LEN));
      HalvesRemove(kernels, roots, g, p, First(level, k * 512 + TABLE_LEN), key);
      RemoveShrinks(g, key, p, First(level, k * 512 + TABLE_LEN));
      PoolFree(t);
      at, role := at - {key}, role - {t};
      assert Wood() == Remove(g, key);
      ShrinksTrans(f, g, Wood(), level, level, p);
      assert Rooted(roots, at) by { RootedRemove(roots, g.at, key); }
    }

    /** One iteration of release's outermost loop, which also clears the top-level slot. */
    method ReleaseTop(p: int, i: int, ghost s0: State)
      requires 0 <= i < USER_END && Releasing(p, First(4, i), s0)
      requires Pos(p, 4, 0) in at && at[Pos(p, 4, 0)] == p && p in tables && |tables[p]| == TABLE_LEN
      modifies this`tables, this`memory, this`at, this`role, this`entries, phys
      ensures Releasing(p, First(4, i + 1), s0) && Shrinks(old(Wood()), Wood(), 4, p)
      ensures Pos(p, 4, 0) in at && at[Pos(p, 4, 0)] == p
      ensures p in tables && tables[p] == old(tables)[p][i := Absent]
      ensures old(tables)[p][i].Absent? ==> unchanged(phys) && tables == old(tables) && at == old(at)
    {
      hide Tree, Halves, Backed, FramesOf, GoodPages, GoodCounts, Mapped, Counted, Shrinks, Rooted;
      ghost var g, key := Wood(), Pos(p, 4, 0);
      ReleaseSlot(4, p, 0, i, p, s0);
      ghost var h := Wood();
      ShrinksAt(g, h, 3, p, key);
      ShrinksWeaken(g, h, 3, 4, p);
      if tables[p][i].Present? {
        ClearTopTree(h, p, i, First(4, i + 1));
        HalvesSlot(kernels, roots, h, p, First(4, i + 1), key, i, Absent);
        tables := tables[p := tables[p][i := Absent]];
        assert tables.Keys == h.tables.Keys;
        ClearShrinks(h, p, i, First(4, i + 1));
        ShrinksTrans(g, h, Wood(), 4, 4, p);
      }
    }

    /** mm_space_release: every user page and table of the space goes, the top table stays. */
    method SpaceRelease(p: int)
      requires Valid() && p in roots
      modifies this`tables, this`memory, this`at, this`role, this`entries, phys
      ensures Valid() && Abs() == Release(old(Abs()), p)
      ensures OnlyRoot(Wood(), p) && Shrinks(old(Wood()), Wood(), 4, p) && Half(kernels, tables, p)
      ensures p in tables && |tables[p]| == TABLE_LEN && forall i :: 0 <= i < USER_END ==> tables[p][i].Absent?
      ensures p in old(tables) && |old(tables)[p]| == TABLE_LEN
      ensures (forall i :: 0 <= i < USER_END ==> old(tables)[p][i].Absent?) ==> unchanged(phys) && tables == old(tables)
    {
      hide Tree, Halves, Backed, FramesOf, GoodPages, GoodCounts, Mapped, Counted, Shrinks, Rooted, Release;
      RootAt(roots, at, p);
      ghost var s0, f, key := Abs(), Wood(), Pos(p, 4, 0);
      TableAt(f, 0, 0, key);
      AnyVictim(f, 0, p);
      ShrinksSelf(f, f, p, 0, 4, p);
      var i := 0;
      while i < USER_END
        invariant 0 <= i <= USER_END && Releasing(p, First(4, i), s0)
        invariant Shrinks(f, Wood(), 4, p)
        invariant key in at && at[key] == p && p in tables && |tables[p]| == TABLE_LEN
        invariant forall j :: 0 <= j < i ==> tables[p][j].Absent?
        invariant forall j :: i <= j < TABLE_LEN ==> tables[p][j] == f.tables[p][j]
        invariant (forall j :: 0 <= j < USER_END ==> f.tables[p][j].Absent?) ==> unchanged(phys) && tables == f.tables && at == f.at
      {
        ghost var g := Wood();
        ReleaseTop(p, i, s0);
        ShrinksTrans(f, g, Wood(), 4, 4, p);
        i := i + 1;
      }
      forall j | 0 <= j < USER_END ensures Slot(Wood(), key, j).Absent? {}
      ReleasedTree(Wood(), p, USER_PAGES);
      AnyVictim(Wood(), p, 0);
      ReleaseIs(s0, p);
      HalvesAt(kernels, roots, tables, p);
    }

    /** mm_space_free: release once more and free the top table. */
    method SpaceFree(p: int)
      requires Valid() && p in roots
      modifies this`tables, this`memory, this`at, this`role, this`entries, this`roots, this`kernels, phys
      ensures Valid() && roots == old(roots) - {p} && kernels == old(kernels) - {p}
      ensures Abs() == var t := Release(old(Abs()), p); t.(roots := t.roots - {p})
      ensures forall q :: q in at <==> q in old(at) && q.root != p
      ensures forall q :: q in at ==> at[q] == old(at)[q]
    {
      hide Tree, Halves, Backed, FramesOf, GoodPages, GoodCounts, Mapped, Counted, Shrinks, Rooted, OnlyRoot, Release;
      RootAt(roots, at, p);
      SpaceRelease(p);
      ghost var g, s := Wood(), Abs();
      RootAt(roots, at, p);
      FreedAt(old(Wood()), g, p);
      EmptySpaceAt(g, p);
      DetachCounts(s, p);
      RootedDetach(roots, at, p);
      AnyVictim(g, 0, p);
      UprootTree(g, p);
      TableAt(g, 0, 0, Pos(p, 4, 0));
      HalvesDrop(kernels, roots, tables, p);
      PoolFree(p);
      at, role := at - {Pos(p, 4, 0)}, role - {p};
      roots, kernels := roots - {p}, kernels - {p};
      assert Wood() == Remove(g, Pos(p, 4, 0));
      AnyVictim(Wood(), p, 0);
    }

    // -------------------------------------------------------------- user pages

    /** mm_phys_alloc_page for anything but a table; the frame keeps its old contents. */
    method AllocFrame(pu: Usage) returns (r: Option<int>)
      requires Valid() && pu != Unknown && pu != Paging
      modifies phys
      ensures r.None? <==> FreeSet(old(phys.pages), phys.usable) == {}
      ensures r.None? ==> phys.pages == old(phys.pages)
      ensures r.Some? ==> Valid() && r.value in memory && r.value !in old(Abs()).frames
      ensures r.Some? ==> Abs() == old(Abs()).(frames := old(Abs()).frames[r.value := Frame(pu, 0, memory[r.value])])
    {
      hide Tree, Halves, Backed, FramesOf, GoodCounts, Mapped, Counted, Rooted;
      ghost var was, s := phys.pages, Abs();
      r := phys.AllocPage(pu);
      if r.Some? {
        BackedAlloc(was, phys.usable, memory, tables.Keys, r.value, pu);
        FreshCounts(s, r.value, Frame(pu, 0, memory[r.value]));
      }
    }

    /** Overwrite the contents of a frame. */
    method Fill(f: int, d: Data)
      requires Valid() && f in Abs().frames
      modifies this`memory
      ensures Valid() && Abs() == old(Abs()).(frames := old(Abs()).frames[f := old(Abs()).frames[f].(data := d)])
    {
      hide Tree, Halves, Backed, FramesOf, GoodPages, GoodCounts, Mapped, Counted, Rooted;
      BackedData(phys.pages, phys.usable, memory, tables.Keys, f, d);
      DataCounts(Abs(), f, d);
      memory := memory[f := d];
    }

    /** One round of sys_mmap_anon. */
    method MapAnon(root: int, v: int, pu: Usage, flags: set<Flag>) returns (f: Option<int>)
      requires Valid() && root in roots && UserPage(v) && Loc(root, v) !in entries && pu != Unknown && pu != Paging
      modifies this`tables, this`at, this`role, this`entries, phys
      ensures f.None? ==> FreeSet(phys.pages, phys.usable) == {}
      ensures f.Some? ==> Valid() && f.value !in old(Abs()).frames && f.value in memory
      ensures f.Some? ==> Abs() == MapFresh(old(Abs()), Loc(root, v), f.value, pu, flags, memory[f.value])
    {
      hide Tree, Halves, Backed, FramesOf, GoodPages, GoodCounts, Mapped, Counted, Rooted;
      f := AllocFrame(pu);
      if f.None? { return; }
      var ok := MapSingle(root, v, f.value, flags);
      if !ok { f := None; }
    }

    /** One round of sys_munmap on a page that the PG_MMAPED check lets through. */
    method Munmap(root: int, v: int)
      requires Valid() && root in roots && UserPage(v)
      modifies this`tables, this`entries, phys
      ensures Valid() && Abs() == Drop(old(Abs()), Loc(root, v))
    {
      hide Tree, Halves, Backed, FramesOf, GoodPages, GoodCounts, Mapped, Counted, Rooted;
      ghost var s, l := Abs(), Loc(root, v);
      DropCounts(s, l);
      var f := UmapSingle(root, v);
      if f.None? { return; }
      BackedRef(phys.pages, phys.usable, memory, tables.Keys, f.value, 0);
      if phys.pages[f.value].refcount == 0 {
        BackedFreeFrame(phys.pages, phys.usable, memory, tables.Keys, f.value);
        phys.FreePage(f.value);
      }
      assert Abs() == Drop(s, l);
    }

    /** The copying branch of do_pfault: a private page with other references. */
    method CopyPage(root: int, v: int, f: int) returns (r: Option<int>)
      requires Valid() && root in roots && UserPage(v) && Loc(root, v) in entries && entries[Loc(root, v)].frame == f
      requires f in Abs().frames
      modifies this`tables, this`memory, this`at, this`role, this`entries, phys
      ensures r.None? <==> FreeSet(old(phys.pages), phys.usable) == {}
      ensures r.Some? ==> Valid() && r.value !in old(Abs()).frames
      ensures r.Some? ==>
        var s := old(Abs());
        var copied := s.(frames := s.frames[r.value := Frame(Private, 0, s.frames[f].data)]);
        Abs() == MapFrame(Unmap(copied, Loc(root, v)), Loc(root, v), Pte(r.value, {User, Write}))
    {
      hide Tree, Halves, Backed, FramesOf, GoodPages, GoodCounts, Counted, Mapped, Rooted, FreeSet;
      ghost var s := Abs();
      PathPresent(Wood(), 0, 0, Loc(root, v));
      r := AllocFrame(Private);
      if r.None? { return; }
      BackedData(phys.pages, phys.usable, memory, tables.Keys, f, s.frames[f].data);
      Fill(r.value, memory[f]);
      var _ := UmapSingle(root, v);
      var ok := MapSingle(root, v, r.value, {User, Write});
    }

    /** The claiming branch: the faulting process holds the only reference.  Mapping the page again
        cannot fail, since its tables are still there. */
    method ClaimPage(root: int, v: int, f: int) returns (ok: bool)
      requires Valid() && root in roots && UserPage(v) && Loc(root, v) in entries && entries[Loc(root, v)].frame == f
      requires f in Abs().frames
      modifies this`tables, this`at, this`role, this`entries, phys
      ensures ok && Valid() && Abs() == MapFrame(Unmap(old(Abs()), Loc(root, v)), Loc(root, v), Pte(f, {User, Write}))
    {
      hide Tree, Halves, Backed, FramesOf, GoodPages, GoodCounts, Counted, Mapped, Rooted;
      PathPresent(Wood(), 0, 0, Loc(root, v));
      var _ := UmapSingle(root, v);
      ok := MapSingle(root, v, f, {User, Write});
    }

    /** do_pfault for a user address: byte `off` of page `v`. */
    method PageFault(root: int, v: int, off: int) returns (res: FaultCode, ghost spare: int)
      requires Valid() && root in roots && UserPage(v)
      modifies this`tables, this`memory, this`at, this`role, this`entries, phys
      ensures spare !in old(Abs()).frames
      ensures res == NotFixed ==> Valid() && Abs() == old(Abs()) && Cow.Fault(old(Abs()), Loc(root, v), off, spare).Unresolved?
      ensures res == Fixed ==> Valid() && Cow.Fault(old(Abs()), Loc(root, v), off, spare) == Cow.Resolved(Abs())
      ensures res == Halted <==>
                Cow.Fault(old(Abs()), Loc(root, v), off, spare).Panics? || Starved(old(Abs()), Loc(root, v), off, old(phys.pages), phys.usable)
    {
      hide Tree, Halves, Backed, FramesOf, GoodPages, GoodCounts, Counted, Mapped, Rooted, FreeSet;
      ghost var s, l := Abs(), Loc(root, v);
      spare := -1;
      NotAFrame(phys.pages, phys.usable, memory, tables.Keys);
      if v == 0 && off == 0 { return NotFixed, spare; }
      var pte := MapGet(root, v);
      if pte.None? || User !in pte.value.flags || Write in pte.value.flags { return NotFixed, spare; }
      var f := pte.value.frame;
      MappedAt(s, l);
      BackedRef(phys.pages, phys.usable, memory, tables.Keys, f, 0);
      if phys.pages[f].usage != Private { return Halted, spare; }
      if phys.pages[f].refcount >= 2 {
        var r := CopyPage(root, v, f);
        if r.None? { return Halted, spare; }
        return Fixed, r.value;
      } else if phys.pages[f].refcount == 1 {
        var ok := ClaimPage(root, v, f);
        return Fixed, spare;
      }
      return Halted, spare;
    }

    /** A user store: the processor writes through a writable user entry, otherwise it faults
        and, once the fault is resolved, tries again. */
    method UserStore(root: int, v: int, off: int, b: byte) returns (obs: Cow.Obs, ghost spare: int)
      requires Valid() && root in roots && UserPage(v) && 0 <= off < PAGE_SIZE
      modifies this`tables, this`memory, this`at, this`role, this`entries, phys
      ensures spare !in old(Abs()).frames
      ensures obs != Cow.Panic ==> Valid() && (Abs(), obs) == Cow.ExecStore(old(Abs()), Loc(root, v), off, b, spare)
      ensures obs == Cow.Panic <==>
                || Cow.ExecStore(old(Abs()), Loc(root, v), off, b, spare).1 == Cow.Panic
                || Starved(old(Abs()), Loc(root, v), off, old(phys.pages), phys.usable)
    {
      hide Tree, Halves, Backed, FramesOf, GoodPages, GoodCounts, Counted, Mapped, Rooted, Cow.Fault, FreeSet;
      ghost var l := Loc(root, v);
      var pte := MapGet(root, v);
      spare := -1;
      NotAFrame(phys.pages, phys.usable, memory, tables.Keys);
      if pte.Some? && {User, Write} <= pte.value.flags {
        MappedAt(Abs(), l);
        BackedData(phys.pages, phys.usable, memory, tables.Keys, pte.value.frame, Abs().frames[pte.value.frame].data);
        Fill(pte.value.frame, memory[pte.value.frame][off := b]);
        return Cow.Done, spare;
      }
      var code;
      code, spare := PageFault(root, v, off);
      if code == Halted { return Cow.Panic, spare; }
      if code == NotFixed { return Cow.Segv, spare; }
      Retried(old(Abs()), l, off, spare);
      pte := MapGet(root, v);
      MappedAt(Abs(), l);
      BackedData(phys.pages, phys.usable, memory, tables.Keys, pte.value.frame, Abs().frames[pte.value.frame].data);
      Fill(pte.value.frame, memory[pte.value.frame][off := b]);
      return Cow.Done, spare;
    }

    /** vmfind, in page numbers: the lowest run of `n` unmapped pages from `from` that ends at or
        before `to`. */
    method VmFind(root: int, from: int, to: int, n: int) returns (r: Option<int>)
      requires Valid() && root in roots && 0 <= from && 0 <= n && to <= USER_PAGES
      ensures r.Some? ==> from <= r.value && r.value + n <= to && Unmapped(entries, root, r.value, n)
      ensures r.Some? ==> forall p :: from <= p < r.value ==> !Unmapped(entries, root, p, n)
      ensures r.None? ==> forall p :: from <= p && p + n <= to ==> !Unmapped(entries, root, p, n)
    {
      hide Tree, Halves, Backed, FramesOf, GoodPages, GoodCounts, Counted, Mapped, Rooted;
      var p := from;
      while p + n <= to
        invariant from <= p
        invariant forall q :: from <= q < p ==> !Unmapped(entries, root, q, n)
      {
        var i := 0;
        var match_ := true;
        while i < n && match_
          invariant 0 <= i <= n
          invariant match_ ==> Unmapped(entries, root, p, i)
          invariant !match_ ==> !Unmapped(entries, root, p, n)
          decreases n - i, match_
        {
          var pte := MapGet(root, p + i);
          if pte.Some? { match_ := false; } else { i := i + 1; }
        }
        if match_ { return Some(p); }
        p := p + 1;
      }
      return None;
    }

    /** An anonymous mapping of `n` pages at the lowest run that is free: each of its pages gets a
        frame of its own, and no page of it is ever found present. */
    method MapRun(root: int, from: int, to: int, n: int, pu: Usage, flags: set<Flag>) returns (r: Option<int>)
      requires Valid() && root in roots && 0 <= from && 0 <= n && to <= USER_PAGES && pu != Unknown && pu != Paging
      modifies this`tables, this`at, this`role, this`entries, phys
      ensures r.None? ==>
        FreeSet(phys.pages, phys.usable) == {} || forall p :: from <= p && p + n <= to ==> !Unmapped(old(entries), root, p, n)
      ensures r.Some? ==> from <= r.value && r.value + n <= to && Unmapped(old(entries), root, r.value, n)
      ensures r.Some? ==> forall p :: from <= p < r.value ==> !Unmapped(old(entries), root, p, n)
      ensures r.Some? ==> Valid() && RunOf(old(Abs()), Abs(), root, r.value, n, pu, flags)
    {
      hide Tree, Halves, Backed, FramesOf, GoodPages, GoodCounts, Counted, Mapped, Rooted, RunOf;
      r := VmFind(root, from, to, n);
      if r.None? { return; }
      ghost var s := Abs();
      var base, i := r.value, 0;
      NoRun(s, root, base, pu, flags);
      while i < n
        invariant 0 <= i <= n && Valid() && roots == old(roots) && RunOf(s, Abs(), root, base, i, pu, flags)
      {
        ghost var t := Abs();
        NextFree(s, t, root, base, i, pu, flags);
        var f := MapAnon(root, base + i, pu, flags);
        if f.None? { return None; }
        RunStep(s, t, root, base, i, pu, flags, f.value, memory[f.value]);
        i := i + 1;
      }
    }

    /** sys_fork followed by the child's process_cleanup and process_free: every frame, every
        reference count, every allocator counter and the set of table frames are restored, and
        the second release finds nothing left to free. */
    method ForkThenExit(src: int, kernel: seq<Entry>) returns (ok: bool)
      requires Valid() && Inv(Abs()) && src in roots && |kernel| == TABLE_LEN
      modifies this, phys
      ensures !ok ==> FreeSet(phys.pages, phys.usable) == {}
      ensures ok ==> Valid() && roots == old(roots) && Abs().frames == old(Abs()).frames && kernels == old(kernels)
      ensures ok ==> tables.Keys == old(tables.Keys)
      ensures ok ==> phys.pagesFree == old(phys.pagesFree) && phys.allocPages == old(phys.allocPages)
    {
      hide Tree, Halves, Backed, FramesOf, GoodPages, GoodCounts, Counted, Mapped, Rooted, Inv, Release, Fork, Keeps, Shrinks, OnlyRoot;
      ghost var f0, s0 := Wood(), Abs();
      HalvesKeys(kernels, roots, tables);
      InvMeans(s0);
      var c := SpaceCreate(kernel);
      if c.None? { return false; }
      ghost var f1 := Wood();
      ok := SpaceFork(c.value, src);
      if !ok { return false; }
      ghost var f2, s2 := Wood(), Abs();
      Cow.ForkReleaseConserves(s0, src, c.value);
      InvForked(s0, src, c.value);
      SpaceRelease(c.value);
      ghost var f3, s3 := Wood(), Abs();
      label Released:
      Cow.ReleaseTwice(s2, c.value);
      SpaceFree(c.value);
      assert kernels == old(kernels);
      SameAt(f0, f1, f2, f3, Wood(), c.value, src);
      SameTables(f0, Wood());
      SameCounters(old(phys.pages), phys.pages, phys.usable, old(memory), memory, old(phys.pagesFree), phys.pagesFree,
                   old(phys.allocPages), phys.allocPages, tables.Keys);
    }
  }
}
