/** The four-level page tables of all address spaces, as tables stored in frames.

    Every table sits at one position: the root of its space, its level (4 is the top) and the
    index of the address range it covers at that level.  `at` and `role` record that
    correspondence in both directions; it is what rules out a table shared between two
    places.  `Tree` ties the tables to the flat map of entries they implement. */
module TableForest {
  import opened Sequences
  import opened AddressSpaces

  datatype Entry = Absent | Present(pte: Pte)
  datatype Pos = Pos(root: int, level: int, idx: int)
  datatype Forest = Forest(tables: map<int, seq<Entry>>, at: map<Pos, int>, role: map<int, Pos>, entries: Entries)

  const TABLE_LEN := 512
  const USER_END := 255     // top-level entries from here on belong to the kernel

  function Width(level: int): int { if level == 4 then USER_END else TABLE_LEN }

  /** Number of positions at a level. */
  function Bound(level: int): int {
    if level == 4 then 1 else if level == 3 then 255 else if level == 2 then 130560 else 66846720
  }

  /** First page covered by entry number `n`, counted across all tables of a level. */
  function First(level: int, n: int): int {
    if level == 1 then n else if level == 2 then n * 512 else if level == 3 then n * 262144 else n * 134217728
  }

  function Parent(k: Pos): Pos { Pos(k.root, k.level + 1, k.idx / 512) }
  function Child(k: Pos, i: int): Pos { Pos(k.root, k.level - 1, k.idx * 512 + i) }

  function Slot(f: Forest, k: Pos, i: int): Entry
    requires k in f.at && f.at[k] in f.tables && 0 <= i < |f.tables[f.at[k]]|
  {
    f.tables[f.at[k]][i]
  }

  /** While the space `victim` is being released, its pages below `cut` are already gone even
      though the tables still name them. */
  predicate Alive(k: Pos, i: int, victim: int, cut: int) {
    k.root != victim || First(k.level, k.idx * 512 + i + 1) > cut
  }

  ghost predicate Placed(f: Forest) {
    && (forall k :: k in f.at ==>
          && 1 <= k.level <= 4 && 0 <= k.idx < Bound(k.level) && (k.level == 4 ==> f.at[k] == k.root)
          && f.at[k] in f.tables && |f.tables[f.at[k]]| == TABLE_LEN)
    && (forall k :: k in f.at ==> f.at[k] in f.role && f.role[f.at[k]] == k)
    && (forall t :: t in f.tables <==> t in f.role)
    && (forall t :: t in f.role ==> f.role[t] in f.at && f.at[f.role[t]] == t)
  }

  ghost predicate Down(f: Forest, k: Pos, i: int)
    requires k in f.at && f.at[k] in f.tables && 0 <= i < |f.tables[f.at[k]]|
  {
    && Slot(f, k, i).Present? && Child(k, i) in f.at && Slot(f, k, i).pte.frame == f.at[Child(k, i)]
    && {User, Write} <= Slot(f, k, i).pte.flags
  }

  ghost predicate Linked(f: Forest, victim: int, cut: int)
    requires Placed(f)
  {
    && (forall k, i {:trigger Slot(f, k, i)} :: k in f.at && k.level >= 2 && 0 <= i < Width(k.level) && Slot(f, k, i).Present? && Alive(k, i, victim, cut)
          ==> Down(f, k, i))
    && (forall k {:trigger Parent(k)} :: k in f.at && k.level < 4 ==> Parent(k) in f.at && Down(f, Parent(k), k.idx % 512))
  }

  ghost predicate Leaves(f: Forest, victim: int, cut: int)
    requires Placed(f)
  {
    && (forall k, i {:trigger Slot(f, k, i)} :: k in f.at && k.level == 1 && 0 <= i < TABLE_LEN ==>
          (Loc(k.root, k.idx * 512 + i) in f.entries <==> Slot(f, k, i).Present? && Alive(k, i, victim, cut)))
    && (forall k, i {:trigger Slot(f, k, i)} :: k in f.at && k.level == 1 && 0 <= i < TABLE_LEN && Slot(f, k, i).Present? && Alive(k, i, victim, cut)
          ==> f.entries[Loc(k.root, k.idx * 512 + i)] == Slot(f, k, i).pte)
    && (forall l :: l in f.entries ==> 0 <= l.page && Pos(l.root, 1, l.page / 512) in f.at)
  }

  ghost predicate Tree(f: Forest, victim: int, cut: int) {
    Placed(f) && Linked(f, victim, cut) && Leaves(f, victim, cut)
  }

  // ---------------------------------------------------------------- index arithmetic

  const TWO39 := 549755813888
  const TWO30 := 1073741824
  const TWO21 := 2097152

  function Pml4i(vaddr: int): int { vaddr / TWO39 % 512 }
  function Pdpti(vaddr: int): int { vaddr / TWO30 % 512 }
  function Pdi(vaddr: int): int { vaddr / TWO21 % 512 }
  function Pti(vaddr: int): int { vaddr / 4096 % 512 }

  /** The page number an address selects once its sign extension is stripped. */
  function PageOf(vaddr: int): int { vaddr % 281474976710656 / 4096 }

  /** Splitting an address into table indices and reassembling them are inverse. */
  lemma IndexSplit(vaddr: int)
    requires 0 <= vaddr
    ensures PageOf(vaddr) == ((Pml4i(vaddr) * 512 + Pdpti(vaddr)) * 512 + Pdi(vaddr)) * 512 + Pti(vaddr)
    ensures Pml4i(vaddr) * TWO39 + Pdpti(vaddr) * TWO30 + Pdi(vaddr) * TWO21 + Pti(vaddr) * 4096 == PageOf(vaddr) * 4096
  {
    var a := vaddr / 4096;
    var b := a / 512;
    var c := b / 512;
    var d := c / 512;
    var o, i1, i2, i3, i4 := vaddr % 4096, a % 512, b % 512, c % 512, d % 512;
    DivIs(vaddr, b, i1 * 4096 + o, TWO21);
    DivIs(vaddr, c, i2 * TWO21 + i1 * 4096 + o, TWO30);
    DivIs(vaddr, d, i3 * TWO30 + i2 * TWO21 + i1 * 4096 + o, TWO39);
    DivIs(vaddr, d / 512, i4 * TWO39 + i3 * TWO30 + i2 * TWO21 + i1 * 4096 + o, 281474976710656);
    DivIs(vaddr % 281474976710656, ((i4 * 512 + i3) * 512 + i2) * 512 + i1, o, 4096);
  }

  lemma IndexJoin(i4: int, i3: int, i2: int, i1: int, off: int)
    requires 0 <= i4 < 512 && 0 <= i3 < 512 && 0 <= i2 < 512 && 0 <= i1 < 512 && 0 <= off < 4096
    ensures var vaddr := i4 * TWO39 + i3 * TWO30 + i2 * TWO21 + i1 * 4096 + off;
      Pml4i(vaddr) == i4 && Pdpti(vaddr) == i3 && Pdi(vaddr) == i2 && Pti(vaddr) == i1
  {
    var vaddr := i4 * TWO39 + i3 * TWO30 + i2 * TWO21 + i1 * 4096 + off;
    var a1, a2, a3 := i4 * 134217728 + i3 * 262144 + i2 * 512 + i1, i4 * 262144 + i3 * 512 + i2, i4 * 512 + i3;
    DivIs(vaddr, a1, off, 4096);
    DivIs(vaddr, a2, i1 * 4096 + off, TWO21);
    DivIs(vaddr, a3, i2 * TWO21 + i1 * 4096 + off, TWO30);
    DivIs(vaddr, i4, i3 * TWO30 + i2 * TWO21 + i1 * 4096 + off, TWO39);
    DivIs(a1, a2, i1, 512);
    DivIs(a2, a3, i2, 512);
    DivIs(a3, i4, i3, 512);
  }

  /** The position of the level-`level` table on the path to page `v`. */
  function On(root: int, level: int, v: int): Pos {
    Pos(root, level, if level == 4 then 0 else if level == 3 then v / 134217728 else if level == 2 then v / 262144 else v / 512)
  }

  function IndexAt(level: int, v: int): int {
    if level == 4 then v / 134217728 else if level == 3 then v / 262144 % 512 else if level == 2 then v / 512 % 512 else v % 512
  }

  /** The indices that a walk uses are the bits of the address it walks for. */
  lemma WalkIndices(vaddr: int)
    requires 0 <= vaddr
    ensures IndexAt(4, PageOf(vaddr)) == Pml4i(vaddr) && IndexAt(3, PageOf(vaddr)) == Pdpti(vaddr)
    ensures IndexAt(2, PageOf(vaddr)) == Pdi(vaddr) && IndexAt(1, PageOf(vaddr)) == Pti(vaddr)
  {
    IndexSplit(vaddr);
    var v, i4, i3, i2, i1 := PageOf(vaddr), Pml4i(vaddr), Pdpti(vaddr), Pdi(vaddr), Pti(vaddr);
    hide PageOf, Pml4i, Pdpti, Pdi, Pti;
    DivIs(v, (i4 * 512 + i3) * 512 + i2, i1, 512);
    DivIs((i4 * 512 + i3) * 512 + i2, i4 * 512 + i3, i2, 512);
    DivIs(v, i4 * 512 + i3, i2 * 512 + i1, 262144);
    DivIs(i4 * 512 + i3, i4, i3, 512);
    DivIs(v, i4, (i3 * 512 + i2) * 512 + i1, 134217728);
  }

  lemma PathStep(root: int, level: int, v: int)
    requires 2 <= level <= 4 && UserPage(v)
    ensures On(root, level - 1, v) == Child(On(root, level, v), IndexAt(level, v))
    ensures Parent(On(root, level - 1, v)) == On(root, level, v)
    ensures 0 <= IndexAt(level, v) < Width(level)
    ensures On(root, level - 1, v).idx % 512 == IndexAt(level, v)
  {
  }

  /** A mapped page has all its tables. */
  lemma PathPresent(f: Forest, victim: int, cut: int, l: Loc)
    requires Tree(f, victim, cut) && l in f.entries
    ensures UserPage(l.page)
    ensures On(l.root, 1, l.page) in f.at && On(l.root, 2, l.page) in f.at
    ensures On(l.root, 3, l.page) in f.at && On(l.root, 4, l.page) in f.at
  {
    var k := Pos(l.root, 1, l.page / 512);
    assert Parent(k) in f.at && Parent(Parent(k)) in f.at && Parent(Parent(Parent(k))) in f.at;
    assert k.idx < Bound(1);
  }

  // ---------------------------------------------------------------- single updates of a forest

  function Empty(): seq<Entry> { seq(TABLE_LEN, _ => Absent) }

  function SetSlot(f: Forest, k: Pos, i: int, e: Entry): map<int, seq<Entry>>
    requires k in f.at && f.at[k] in f.tables && 0 <= i < |f.tables[f.at[k]]|
  {
    f.tables[f.at[k] := f.tables[f.at[k]][i := e]]
  }

  /** A fresh table hung below slot `i` of the table at `k`. */
  function Grow(f: Forest, k: Pos, i: int, t: int, flags: set<Flag>): Forest
    requires k in f.at && f.at[k] in f.tables && 0 <= i < |f.tables[f.at[k]]|
  {
    Forest(SetSlot(f, k, i, Present(Pte(t, flags)))[t := Empty()], f.at[Child(k, i) := t], f.role[t := Child(k, i)], f.entries)
  }

  lemma ChildParent(k: Pos, i: int)
    requires 2 <= k.level && 0 <= i < 512
    ensures Parent(Child(k, i)) == k && Child(k, i).idx % 512 == i
  {
  }

  lemma ChildBound(k: Pos, i: int)
    requires 2 <= k.level <= 4 && 0 <= k.idx < Bound(k.level) && 0 <= i < Width(k.level)
    ensures 0 <= Child(k, i).idx < Bound(k.level - 1)
  {
  }

  lemma GrowTree(f: Forest, k: Pos, i: int, t: int, flags: set<Flag>, victim: int)
    requires Tree(f, victim, 0) && k in f.at && k.level >= 2 && 0 <= i < Width(k.level)
    requires Slot(f, k, i).Absent? && t !in f.tables && {User, Write} <= flags
    ensures Child(k, i) !in f.at
    ensures Tree(Grow(f, k, i, t, flags), victim, 0)
  {
    ChildParent(k, i);
    ChildBound(k, i);
    var g := Grow(f, k, i, t, flags);
    assert Child(k, i) !in f.at by {
      assert Child(k, i) in f.at ==> Parent(Child(k, i)) in f.at;
    }
    assert Placed(g);
    GrowLinked(f, k, i, t, flags, victim);
    GrowLeaves(f, k, i, t, flags, victim);
  }

  lemma GrowLinked(f: Forest, k: Pos, i: int, t: int, flags: set<Flag>, victim: int)
    requires Tree(f, victim, 0) && k in f.at && k.level >= 2 && 0 <= i < Width(k.level)
    requires Slot(f, k, i).Absent? && t !in f.tables && {User, Write} <= flags && Child(k, i) !in f.at
    requires Placed(Grow(f, k, i, t, flags))
    ensures Linked(Grow(f, k, i, t, flags), victim, 0)
  {
    var g := Grow(f, k, i, t, flags);
    forall q, j | q in g.at && q.level >= 2 && 0 <= j < Width(q.level) && Slot(g, q, j).Present? && Alive(q, j, victim, 0)
      ensures Down(g, q, j)
    {
      if q in f.at && !(q == k && j == i) {
        assert Slot(f, q, j) == Slot(g, q, j);
        assert Down(f, q, j);
      }
    }
    forall q | q in g.at && q.level < 4 ensures Parent(q) in g.at && Down(g, Parent(q), q.idx % 512) {
      if q == Child(k, i) {
        ChildParent(k, i);
      } else {
        assert Parent(q) in f.at && Down(f, Parent(q), q.idx % 512);
        assert Slot(g, Parent(q), q.idx % 512) == Slot(f, Parent(q), q.idx % 512);
      }
    }
  }

  lemma GrowLeaves(f: Forest, k: Pos, i: int, t: int, flags: set<Flag>, victim: int)
    requires Tree(f, victim, 0) && k in f.at && k.level >= 2 && 0 <= i < Width(k.level)
    requires t !in f.tables && Child(k, i) !in f.at
    requires Placed(Grow(f, k, i, t, flags))
    ensures Leaves(Grow(f, k, i, t, flags), victim, 0)
  {
    var g := Grow(f, k, i, t, flags);
    forall q, j | q in g.at && q.level == 1 && 0 <= j < TABLE_LEN
      ensures Loc(q.root, q.idx * 512 + j) in g.entries <==> Slot(g, q, j).Present? && Alive(q, j, victim, 0)
      ensures Slot(g, q, j).Present? ==> g.entries[Loc(q.root, q.idx * 512 + j)] == Slot(g, q, j).pte
    {
      if q in f.at {
        assert Slot(f, q, j) == Slot(g, q, j);
      } else {
        assert (q.idx * 512 + j) / 512 == q.idx;
      }
    }
  }

  /** Writing entry `v` of its level-1 table. */
  function SetLeaf(f: Forest, l: Loc, e: Entry): Forest
    requires On(l.root, 1, l.page) in f.at && f.at[On(l.root, 1, l.page)] in f.tables
    requires |f.tables[f.at[On(l.root, 1, l.page)]]| == TABLE_LEN
  {
    f.(tables := SetSlot(f, On(l.root, 1, l.page), l.page % 512, e),
       entries := if e.Present? then f.entries[l := e.pte] else f.entries - {l})
  }

  lemma SetLeafTree(f: Forest, l: Loc, e: Entry, victim: int)
    requires Tree(f, victim, 0) && UserPage(l.page) && On(l.root, 1, l.page) in f.at
    ensures Tree(SetLeaf(f, l, e), victim, 0)
  {
    assert Placed(SetLeaf(f, l, e));
    SetLeafLinked(f, l, e, victim);
    SetLeafLeaves(f, l, e, victim);
  }

  lemma SetLeafLinked(f: Forest, l: Loc, e: Entry, victim: int)
    requires Tree(f, victim, 0) && UserPage(l.page) && On(l.root, 1, l.page) in f.at
    requires Placed(SetLeaf(f, l, e))
    ensures Linked(SetLeaf(f, l, e), victim, 0)
  {
    var g := SetLeaf(f, l, e);
    forall q | q in f.at && q.level >= 2 ensures g.tables[f.at[q]] == f.tables[f.at[q]] {
      assert f.role[f.at[q]] == q;
    }
    LinkedSame(f, g, victim, 0, 0);
  }

  /** The links between tables live in the tables above level 1 only. */
  lemma LinkedSame(f: Forest, g: Forest, victim: int, cut: int, later: int)
    requires Placed(f) && Linked(f, victim, cut) && Placed(g) && f.at == g.at && cut <= later
    requires forall q :: q in f.at && q.level >= 2 ==> g.tables[f.at[q]] == f.tables[f.at[q]]
    ensures Linked(g, victim, later)
  {
    forall q, j | q in f.at && q.level >= 2 && 0 <= j < TABLE_LEN ensures Slot(g, q, j) == Slot(f, q, j) {}
    forall q | q in g.at && q.level < 4 ensures Parent(q) in g.at && Down(g, Parent(q), q.idx % 512) {
      assert Parent(q) in f.at && Down(f, Parent(q), q.idx % 512);
      assert Slot(g, Parent(q), q.idx % 512) == Slot(f, Parent(q), q.idx % 512);
    }
    forall q, j | q in g.at && q.level >= 2 && 0 <= j < Width(q.level) && Slot(g, q, j).Present? && Alive(q, j, victim, later)
      ensures Down(g, q, j)
    {
      assert Slot(f, q, j).Present? && Alive(q, j, victim, cut);
      assert Down(f, q, j);
    }
  }

  lemma SetLeafLeaves(f: Forest, l: Loc, e: Entry, victim: int)
    requires Tree(f, victim, 0) && UserPage(l.page) && On(l.root, 1, l.page) in f.at
    requires Placed(SetLeaf(f, l, e))
    ensures Leaves(SetLeaf(f, l, e), victim, 0)
  {
    var g := SetLeaf(f, l, e);
    forall q, j | q in g.at && q.level == 1 && 0 <= j < TABLE_LEN
      ensures Loc(q.root, q.idx * 512 + j) in g.entries <==> Slot(g, q, j).Present? && Alive(q, j, victim, 0)
      ensures Slot(g, q, j).Present? ==> g.entries[Loc(q.root, q.idx * 512 + j)] == Slot(g, q, j).pte
    {
      if q == On(l.root, 1, l.page) && j == l.page % 512 {
        assert Loc(q.root, q.idx * 512 + j) == l;
      } else {
        assert Loc(q.root, q.idx * 512 + j) != l;
        assert Slot(f, q, j) == Slot(g, q, j);
      }
    }
  }

  /** A new, empty space whose top-level table is frame `t`. */
  function Plant(f: Forest, t: int, top: seq<Entry>): Forest {
    f.(tables := f.tables[t := top], at := f.at[Pos(t, 4, 0) := t], role := f.role[t := Pos(t, 4, 0)])
  }

  lemma PlantTree(f: Forest, t: int, top: seq<Entry>, victim: int)
    requires Tree(f, victim, 0) && t !in f.tables && |top| == TABLE_LEN
    requires forall i :: 0 <= i < USER_END ==> top[i].Absent?
    ensures Tree(Plant(f, t, top), victim, 0)
  {
    var g := Plant(f, t, top);
    assert Pos(t, 4, 0) !in f.at;
    assert Placed(g);
    PlantLinked(f, t, top, victim);
    PlantLeaves(f, t, top, victim);
  }

  lemma PlantLinked(f: Forest, t: int, top: seq<Entry>, victim: int)
    requires Tree(f, victim, 0) && t !in f.tables && |top| == TABLE_LEN && Placed(Plant(f, t, top))
    requires forall i :: 0 <= i < USER_END ==> top[i].Absent?
    ensures Linked(Plant(f, t, top), victim, 0)
  {
    var g := Plant(f, t, top);
    forall q, j | q in g.at && q.level >= 2 && 0 <= j < Width(q.level) && Slot(g, q, j).Present?
      ensures Down(g, q, j)
    {
      assert Slot(f, q, j) == Slot(g, q, j) && Down(f, q, j);
    }
    forall q | q in g.at && q.level < 4 ensures Parent(q) in g.at && Down(g, Parent(q), q.idx % 512) {
      assert Parent(q) in f.at && Slot(g, Parent(q), q.idx % 512) == Slot(f, Parent(q), q.idx % 512);
    }
  }

  lemma PlantLeaves(f: Forest, t: int, top: seq<Entry>, victim: int)
    requires Tree(f, victim, 0) && t !in f.tables && |top| == TABLE_LEN && Placed(Plant(f, t, top))
    ensures Leaves(Plant(f, t, top), victim, 0)
  {
    var g := Plant(f, t, top);
    forall q, j | q in g.at && q.level == 1 && 0 <= j < TABLE_LEN
      ensures Loc(q.root, q.idx * 512 + j) in g.entries <==> Slot(g, q, j).Present? && Alive(q, j, victim, 0)
      ensures Slot(g, q, j).Present? ==> g.entries[Loc(q.root, q.idx * 512 + j)] == Slot(g, q, j).pte
    {
      assert Slot(f, q, j) == Slot(g, q, j);
    }
  }

  // ---------------------------------------------------------------- taking a space apart

  /** Before a release starts no page is cut off, whichever space is named. */
  lemma AnyVictim(f: Forest, victim: int, other: int)
    requires Tree(f, victim, 0)
    ensures Tree(f, other, 0)
  {
    forall k, i | k in f.at && 0 <= i < TABLE_LEN ensures Alive(k, i, victim, 0) && Alive(k, i, other, 0) {}
  }

  function Cut(f: Forest, p: int, later: int): Forest {
    f.(entries := map l | l in f.entries && !(l.root == p && l.page < later) :: f.entries[l])
  }

  /** Pages of `p` below `later` leave the flat map; no table changes. */
  lemma CutTree(f: Forest, p: int, cut: int, later: int)
    requires Tree(f, p, cut) && cut <= later
    ensures Tree(Cut(f, p, later), p, later)
  {
    var g := Cut(f, p, later);
    LinkedSame(f, g, p, cut, later);
    forall q, j | q in g.at && q.level == 1 && 0 <= j < TABLE_LEN
      ensures Loc(q.root, q.idx * 512 + j) in g.entries <==> Slot(g, q, j).Present? && Alive(q, j, p, later)
      ensures Slot(g, q, j).Present? && Alive(q, j, p, later) ==> g.entries[Loc(q.root, q.idx * 512 + j)] == Slot(g, q, j).pte
    {
      assert Slot(f, q, j) == Slot(g, q, j);
      assert Alive(q, j, p, later) ==> Alive(q, j, p, cut);
    }
  }

  ghost predicate Childless(f: Forest, k: Pos) {
    k.level >= 2 ==> forall j :: 0 <= j < TABLE_LEN ==> Child(k, j) !in f.at
  }

  function Remove(f: Forest, k: Pos): Forest
    requires k in f.at
  {
    Forest(f.tables - {f.at[k]}, f.at - {k}, f.role - {f.at[k]}, f.entries)
  }

  /** Freeing a table all of whose pages are cut off. */
  lemma PruneTree(f: Forest, k: Pos, cut: int)
    requires Tree(f, k.root, cut) && k in f.at && k.level < 4 && Childless(f, k)
    requires First(k.level + 1, k.idx + 1) <= cut
    ensures Tree(Remove(f, k), k.root, cut)
  {
    var g := Remove(f, k);
    assert Placed(g) by { RemovePlaced(f, k); }
    forall q, j | q in g.at && 0 <= j < TABLE_LEN ensures q in f.at && Slot(g, q, j) == Slot(f, q, j) {
      assert f.at[q] != f.at[k];
    }
    forall q, j | q in g.at && q.level >= 2 && 0 <= j < Width(q.level) && Slot(g, q, j).Present? && Alive(q, j, k.root, cut)
      ensures Down(g, q, j)
    {
      assert Slot(f, q, j).Present? && Down(f, q, j);
      assert Child(q, j) != k;
    }
    forall q | q in g.at && q.level < 4 ensures Parent(q) in g.at && Down(g, Parent(q), q.idx % 512) {
      assert Parent(q) in f.at && Down(f, Parent(q), q.idx % 512);
      var j := q.idx % 512;
      assert Parent(q) == k ==> Child(k, j) == q;
      assert Slot(g, Parent(q), q.idx % 512) == Slot(f, Parent(q), q.idx % 512);
    }
    PruneLeaves(f, k, cut);
  }

  lemma RemovePlaced(f: Forest, k: Pos)
    requires Placed(f) && k in f.at
    ensures Placed(Remove(f, k))
  {
  }

  lemma PruneLeaves(f: Forest, k: Pos, cut: int)
    requires Tree(f, k.root, cut) && k in f.at && k.level < 4 && First(k.level + 1, k.idx + 1) <= cut
    requires Placed(Remove(f, k))
    ensures Leaves(Remove(f, k), k.root, cut)
  {
    var g := Remove(f, k);
    forall q, j | q in g.at && q.level == 1 && 0 <= j < TABLE_LEN
      ensures Loc(q.root, q.idx * 512 + j) in g.entries <==> Slot(g, q, j).Present? && Alive(q, j, k.root, cut)
      ensures Slot(g, q, j).Present? && Alive(q, j, k.root, cut) ==> g.entries[Loc(q.root, q.idx * 512 + j)] == Slot(g, q, j).pte
    {
      assert f.at[q] != f.at[k];
      assert Slot(f, q, j) == Slot(g, q, j);
    }
    forall l | l in f.entries ensures Pos(l.root, 1, l.page / 512) in g.at {
      var q := Pos(l.root, 1, l.page / 512);
      assert Loc(q.root, q.idx * 512 + l.page % 512) == l;
      assert Slot(f, q, l.page % 512).Present? && Alive(q, l.page % 512, k.root, cut);
    }
  }

  /** Clearing a top-level slot whose pages are all cut off. */
  lemma ClearTopTree(f: Forest, p: int, i: int, cut: int)
    requires Tree(f, p, cut) && Pos(p, 4, 0) in f.at && 0 <= i < USER_END && Child(Pos(p, 4, 0), i) !in f.at
    ensures Tree(f.(tables := SetSlot(f, Pos(p, 4, 0), i, Absent)), p, cut)
  {
    var k := Pos(p, 4, 0);
    var g := f.(tables := SetSlot(f, k, i, Absent));
    assert Placed(g);
    forall q, j | q in g.at && 0 <= j < TABLE_LEN && !(q == k && j == i) ensures Slot(g, q, j) == Slot(f, q, j) {
      assert q != k ==> f.role[f.at[q]] == q;
    }
    ClearTopLinked(f, g, p, i, cut);
    forall q, j | q in g.at && q.level == 1 && 0 <= j < TABLE_LEN ensures Slot(g, q, j) == Slot(f, q, j) {}
  }

  lemma ClearTopLinked(f: Forest, g: Forest, p: int, i: int, cut: int)
    requires Placed(f) && Linked(f, p, cut) && Placed(g) && f.at == g.at
    requires Pos(p, 4, 0) in f.at && 0 <= i < USER_END && Child(Pos(p, 4, 0), i) !in f.at
    requires forall q, j {:trigger Slot(g, q, j)} :: q in g.at && 0 <= j < TABLE_LEN && !(q == Pos(p, 4, 0) && j == i)
               ==> Slot(g, q, j) == Slot(f, q, j)
    requires Slot(g, Pos(p, 4, 0), i).Absent?
    ensures Linked(g, p, cut)
  {
    forall q, j | q in g.at && q.level >= 2 && 0 <= j < Width(q.level) && Slot(g, q, j).Present? && Alive(q, j, p, cut)
      ensures Down(g, q, j)
    {
      assert Slot(f, q, j).Present? && Down(f, q, j);
    }
    forall q | q in g.at && q.level < 4 ensures Parent(q) in g.at && Down(g, Parent(q), q.idx % 512) {
      assert Parent(q) in f.at && Down(f, Parent(q), q.idx % 512);
      assert Child(Parent(q), q.idx % 512) == q;
      assert Slot(g, Parent(q), q.idx % 512) == Slot(f, Parent(q), q.idx % 512);
    }
  }

  ghost predicate OnlyRoot(f: Forest, p: int) {
    forall k :: k in f.at && k.root == p ==> k == Pos(p, 4, 0)
  }

  /** Once every top-level user slot is clear the space owns no other table and no page. */
  lemma ReleasedTree(f: Forest, p: int, cut: int)
    requires Tree(f, p, cut) && Pos(p, 4, 0) in f.at
    requires forall i :: 0 <= i < USER_END ==> Slot(f, Pos(p, 4, 0), i).Absent?
    ensures OnlyRoot(f, p) && Tree(f, p, 0)
    ensures forall l :: l in f.entries ==> l.root != p
  {
    forall k | k in f.at && k.root == p ensures k.level == 4 && k.idx == 0 {
      NoTable(f, p, cut, k);
    }
    forall l | l in f.entries ensures l.root != p {
      assert Pos(l.root, 1, l.page / 512) in f.at;
    }
    forall k, i | k in f.at && 0 <= i < TABLE_LEN && k.root != p ensures Alive(k, i, p, cut) && Alive(k, i, p, 0) {}
  }

  lemma NoTable(f: Forest, p: int, cut: int, k: Pos)
    requires Tree(f, p, cut) && k in f.at && k.root == p && Pos(p, 4, 0) in f.at
    requires forall i :: 0 <= i < USER_END ==> Slot(f, Pos(p, 4, 0), i).Absent?
    ensures k.level == 4 && k.idx == 0
    decreases 4 - k.level
  {
    assert k.level < 4 ==> Parent(k) in f.at && Down(f, Parent(k), k.idx % 512);
    var j := k.idx % 512;
    assert k.level == 3 ==> Parent(k) == Pos(p, 4, 0) && j == k.idx;
    if k.level < 3 { NoTable(f, p, cut, Parent(k)); }
  }

  /** Freeing the top-level table of a released space. */
  lemma UprootTree(f: Forest, p: int)
    requires Tree(f, p, 0) && Pos(p, 4, 0) in f.at && OnlyRoot(f, p)
    ensures Tree(Remove(f, Pos(p, 4, 0)), p, 0)
  {
    RemovePlaced(f, Pos(p, 4, 0));
    hide Remove, Placed, Linked, Leaves, OnlyRoot;
    UprootLinked(f, p);
    UprootLeaves(f, p);
  }

  lemma UprootSlot(f: Forest, p: int, q: Pos, j: int)
    requires Placed(f) && Pos(p, 4, 0) in f.at && OnlyRoot(f, p) && Placed(Remove(f, Pos(p, 4, 0)))
    requires q in Remove(f, Pos(p, 4, 0)).at && 0 <= j < TABLE_LEN
    ensures q in f.at && q.root != p && Slot(Remove(f, Pos(p, 4, 0)), q, j) == Slot(f, q, j)
  {
    assert f.at[q] != f.at[Pos(p, 4, 0)];
  }

  lemma UprootDown(f: Forest, p: int, q: Pos, j: int)
    requires Placed(f) && Pos(p, 4, 0) in f.at && OnlyRoot(f, p) && Placed(Remove(f, Pos(p, 4, 0)))
    requires q in Remove(f, Pos(p, 4, 0)).at && 0 <= j < TABLE_LEN && q in f.at && Down(f, q, j)
    ensures Down(Remove(f, Pos(p, 4, 0)), q, j)
  {
    UprootSlot(f, p, q, j);
  }

  lemma UprootLinked(f: Forest, p: int)
    requires Placed(f) && Linked(f, p, 0) && Pos(p, 4, 0) in f.at && OnlyRoot(f, p) && Placed(Remove(f, Pos(p, 4, 0)))
    ensures Linked(Remove(f, Pos(p, 4, 0)), p, 0)
  {
    hide Down;
    var g := Remove(f, Pos(p, 4, 0));
    forall q, j | q in g.at && q.level >= 2 && 0 <= j < Width(q.level) && Slot(g, q, j).Present? && Alive(q, j, p, 0)
      ensures Down(g, q, j)
    {
      UprootSlot(f, p, q, j);
      UprootDown(f, p, q, j);
    }
    forall q | q in g.at && q.level < 4 ensures Parent(q) in g.at && Down(g, Parent(q), q.idx % 512) {
      UprootSlot(f, p, q, 0);
      UprootDown(f, p, Parent(q), q.idx % 512);
    }
  }

  lemma UprootLeaves(f: Forest, p: int)
    requires Placed(f) && Leaves(f, p, 0) && Pos(p, 4, 0) in f.at && OnlyRoot(f, p) && Placed(Remove(f, Pos(p, 4, 0)))
    ensures Leaves(Remove(f, Pos(p, 4, 0)), p, 0)
  {
    var g := Remove(f, Pos(p, 4, 0));
    forall q, j | q in g.at && q.level == 1 && 0 <= j < TABLE_LEN ensures q in f.at && Slot(g, q, j) == Slot(f, q, j) {
      UprootSlot(f, p, q, j);
    }
  }

  /** Every slot on the path to a mapped page is present. */
  lemma MappedSlot(f: Forest, victim: int, cut: int, l: Loc, level: int)
    requires Tree(f, victim, cut) && l in f.entries && 1 <= level <= 4
    ensures UserPage(l.page) && On(l.root, level, l.page) in f.at && 0 <= IndexAt(level, l.page) < TABLE_LEN
    ensures Slot(f, On(l.root, level, l.page), IndexAt(level, l.page)).Present?
  {
    PathPresent(f, victim, cut, l);
    if level == 1 {
      var k := On(l.root, 1, l.page);
      assert Loc(k.root, k.idx * 512 + l.page % 512) == l;
      assert Slot(f, k, l.page % 512).Present?;
    } else {
      PathStep(l.root, level, l.page);
      assert Parent(On(l.root, level - 1, l.page)) == On(l.root, level, l.page);
    }
  }

  /** The pages below slot `i` of the table at `k` are those whose path goes through it. */
  lemma SlotRange(k: Pos, i: int, v: int)
    requires 1 <= k.level <= 4 && 0 <= k.idx < Bound(k.level) && 0 <= i < Width(k.level)
    requires First(k.level, k.idx * 512 + i) <= v < First(k.level, k.idx * 512 + i + 1)
    ensures On(k.root, k.level, v) == k && IndexAt(k.level, v) == i
  {
  }

  /** No page is mapped below an absent slot. */
  lemma AbsentSlot(f: Forest, victim: int, cut: int, k: Pos, i: int)
    requires Tree(f, victim, cut) && k in f.at && 0 <= i < Width(k.level) && Slot(f, k, i).Absent?
    ensures forall v :: First(k.level, k.idx * 512 + i) <= v < First(k.level, k.idx * 512 + i + 1) ==> Loc(k.root, v) !in f.entries
  {
    forall v | First(k.level, k.idx * 512 + i) <= v < First(k.level, k.idx * 512 + i + 1)
      ensures Loc(k.root, v) !in f.entries
    {
      SlotRange(k, i, v);
      if Loc(k.root, v) in f.entries { MappedSlot(f, victim, cut, Loc(k.root, v), k.level); }
    }
  }
}
