/** Copy-on-write fork is indistinguishable from copying every private page at fork time.

    `Exec` is the kernel's machine, with either branch of fork: copy-on-write, or copying.
    `Eager` is the specification: every private page is a value owned by one process, fork
    duplicates those values, and only shared frames are common. */
module CopyOnWrite {
  import opened Memory
  import opened AddressSpaces
  import opened CopyingFork

  // ---------------------------------------------------------------- the write fault

  datatype FaultResult = Resolved(state: State) | Unresolved | Panics

  function UserWrite(): set<Flag> { {User, Write} }

  /** do_pfault at byte `off` of page `l`; `spare` is the free frame the allocator would return.
      Its test of the access kind reads the exception number, which is 14 for every page
      fault and so always passes. */
  function Fault(s: State, l: Loc, off: int, spare: int): FaultResult
    requires Mapped(s)
  {
    if l.page == 0 && off == 0 then Unresolved            // null references are not resolved
    else if l !in s.entries then Unresolved
    else
      var pte := s.entries[l];
      if !(User in pte.flags && Write !in pte.flags) then Unresolved
      else if s.frames[pte.frame].usage != Private then Panics
      else if s.frames[pte.frame].refs >= 2 then
        var copied := s.(frames := s.frames[spare := Frame(Private, 0, s.frames[pte.frame].data)]);
        Resolved(MapFrame(Unmap(copied, l), l, Pte(spare, UserWrite())))
      else if s.frames[pte.frame].refs == 1 then
        Resolved(MapFrame(Unmap(s, l), l, Pte(pte.frame, UserWrite())))
      else Panics
  }

  function Poke(s: State, f: int, off: int, b: byte): State
    requires f in s.frames && 0 <= off < PAGE_SIZE
  {
    s.(frames := s.frames[f := s.frames[f].(data := s.frames[f].data[off := b])])
  }

  // ---------------------------------------------------------------- runs of the kernel machine

  datatype Step =
    | Spawn(child: int)
    | MapAnon(l: Loc, f: int, usage: Usage, flags: set<Flag>, d: Data)
    | Shmget(f: int, d: Data)
    | Shmat(l: Loc, f: int)
    | Munmap(l: Loc)
    | DoFork(parent: int, child: int, spares: map<int, int>)
    | Load(l: Loc, off: int)
    | Store(l: Loc, off: int, b: byte, spare: int)
    | Wipe(root: int)
    | Exit(root: int)

  datatype Obs = Done | Value(b: byte) | Segv | Panic

  /** The two branches of mm_space_fork. */
  datatype Branch = Lazy | Copying

  /** What the allocator and the callers guarantee about the step's arguments. */
  ghost predicate Enabled(br: Branch, s: State, step: Step)
    requires Mapped(s)
  {
    match step
    case Spawn(c) => c !in s.roots
    case MapAnon(l, f, usage, _, _) =>
      l.root in s.roots && UserPage(l.page) && l !in s.entries && f !in s.frames && (usage == Private || usage == Shared)
    case Shmget(f, _) => f !in s.frames
    case Shmat(l, f) =>
      l.root in s.roots && UserPage(l.page) && l !in s.entries && f in s.frames && s.frames[f].usage == Shared
    case Munmap(l) => true
    case DoFork(p, c, spare) => p in s.roots && c !in s.roots && (br == Copying ==> Spares(s, p, spare))
    case Load(_, off) => 0 <= off < PAGE_SIZE
    case Store(_, off, _, spare) => 0 <= off < PAGE_SIZE && spare !in s.frames
    case Wipe(p) => p in s.roots
    case Exit(p) => p in s.roots
  }

  ghost function ForkBy(br: Branch, s: State, p: int, c: int, spare: map<int, int>): State {
    if br == Lazy then Fork(NewSpace(s, c), p, c) else CopyFork(NewSpace(s, c), p, c, spare)
  }

  ghost function ExecStore(s: State, l: Loc, off: int, b: byte, spare: int): (State, Obs)
    requires Mapped(s) && 0 <= off < PAGE_SIZE
  {
    if l in s.entries && UserWrite() <= s.entries[l].flags then (Poke(s, s.entries[l].frame, off, b), Done)
    else
      match Fault(s, l, off, spare)
      case Resolved(t) => (Poke(t, t.entries[l].frame, off, b), Done)
      case Unresolved => (s, Segv)
      case Panics => (s, Panic)
  }

  ghost function Exec(br: Branch, s: State, step: Step): (State, Obs)
    requires Mapped(s) && Enabled(br, s, step)
  {
    match step
    case Spawn(c) => (NewSpace(s, c), Done)
    case MapAnon(l, f, usage, flags, d) => (MapFresh(s, l, f, usage, flags, d), Done)
    case Shmget(f, d) => (ShmGet(s, f, d), Done)
    case Shmat(l, f) => (MapFrame(s, l, Pte(f, UserWrite())), Done)
    case Munmap(l) => (Drop(s, l), Done)
    case DoFork(p, c, spare) => (ForkBy(br, s, p, c, spare), Done)
    case Load(l, off) =>
      if l in s.entries && User in s.entries[l].flags then (s, Value(s.frames[s.entries[l].frame].data[off]))
      else (s, Segv)
    case Store(l, off, b, spare) => ExecStore(s, l, off, b, spare)
    case Wipe(p) => (Release(s, p), Done)
    case Exit(p) => (var t := Release(s, p); t.(roots := t.roots - {p}), Done)
  }

  // ---------------------------------------------------------------- the eager-copy specification

  datatype Cell = Own(data: Data, user: bool, write: bool) | Common(frame: int, flags: set<Flag>)
  datatype Eager = Eager(roots: set<int>, cells: map<Loc, Cell>, common: map<int, Data>)

  ghost predicate Shares(cells: map<Loc, Cell>, f: int) {
    exists l :: l in cells && cells[l].Common? && cells[l].frame == f
  }

  /** A copy of every cell of process `p` for its child `c`. */
  ghost function Duplicate(cells: map<Loc, Cell>, p: int, c: int): (r: map<Loc, Cell>)
    requires forall l :: l in cells ==> l.root != c
    ensures forall l :: l in r <==> l in cells || (l.root == c && Loc(p, l.page) in cells)
    ensures forall l :: l in cells ==> r[l] == cells[l]
    ensures forall l :: l in r && l.root == c ==> r[l] == cells[Loc(p, l.page)]
  {
    var copy := map l | l in cells && l.root == p :: Loc(c, l.page) := cells[l];
    forall l ensures l in copy <==> l.root == c && Loc(p, l.page) in cells {
      if l.root == c && Loc(p, l.page) in cells { assert Loc(c, Loc(p, l.page).page) == l; }
    }
    cells + copy
  }

  /** Remove the cells in `gone`; a shared frame goes with the last cell naming it. */
  ghost function Forget(e: Eager, gone: set<Loc>): Eager {
    var cells := e.cells - gone;
    e.(cells := cells,
       common := map f | f in e.common && (Shares(e.cells, f) ==> Shares(cells, f)) :: e.common[f])
  }

  ghost predicate EagerValid(e: Eager) {
    (forall l :: l in e.cells ==> l.root in e.roots) &&
    (forall l :: l in e.cells && e.cells[l].Common? ==> e.cells[l].frame in e.common)
  }

  ghost predicate EagerEnabled(e: Eager, step: Step) {
    EagerValid(e) &&
    (step.Load? || step.Store? ==> 0 <= step.off < PAGE_SIZE) &&
    (step.DoFork? ==> step.child !in e.roots)
  }

  /** Null references are refused where a store faults, and nowhere else. */
  predicate AtNull(l: Loc, off: int) { l.page == 0 && off == 0 }

  /** The fault handler cannot tell a page that was mapped read-only from one that fork made
      read-only: storing to a private page grants the write permission. */
  ghost function EagerStore(e: Eager, l: Loc, off: int, b: byte): (Eager, Obs)
    requires EagerValid(e) && 0 <= off < PAGE_SIZE
  {
    if l !in e.cells then (e, Segv)
    else
      match e.cells[l]
      case Own(d, user, write) =>
        if !user || (!write && AtNull(l, off)) then (e, Segv)
        else (e.(cells := e.cells[l := Own(d[off := b], true, true)]), Done)
      case Common(f, flags) =>
        if User !in flags || (Write !in flags && AtNull(l, off)) then (e, Segv)
        else if Write !in flags then (e, Panic)
        else (e.(common := e.common[f := e.common[f][off := b]]), Done)
  }

  ghost function EagerLoad(e: Eager, l: Loc, off: int): Obs
    requires EagerValid(e) && 0 <= off < PAGE_SIZE
  {
    if l !in e.cells then Segv
    else
      match e.cells[l]
      case Own(d, user, _) => if user then Value(d[off]) else Segv
      case Common(f, flags) => if User in flags then Value(e.common[f][off]) else Segv
  }

  ghost function EagerExec(e: Eager, step: Step): (Eager, Obs)
    requires EagerEnabled(e, step)
  {
    match step
    case Spawn(c) => (e.(roots := e.roots + {c}), Done)
    case MapAnon(l, f, usage, flags, d) =>
      if usage == Private then (e.(cells := e.cells[l := Own(d, User in flags, Write in flags)]), Done)
      else (e.(cells := e.cells[l := Common(f, flags)], common := e.common[f := d]), Done)
    case Shmget(f, d) => (e.(common := e.common[f := d]), Done)
    case Shmat(l, f) => (e.(cells := e.cells[l := Common(f, UserWrite())]), Done)
    case Munmap(l) => (Forget(e, {l}), Done)
    case DoFork(p, c, _) => (e.(roots := e.roots + {c}, cells := Duplicate(e.cells, p, c)), Done)
    case Load(l, off) => (e, EagerLoad(e, l, off))
    case Store(l, off, b, _) => EagerStore(e, l, off, b)
    case Wipe(p) => (Forget(e, OfRoot(e.cells, p)), Done)
    case Exit(p) => (Forget(e, OfRoot(e.cells, p)).(roots := e.roots - {p}), Done)
  }

  ghost function OfRoot(cells: map<Loc, Cell>, p: int): set<Loc> {
    set l | l in cells && l.root == p
  }

  // ---------------------------------------------------------------- simulation relation

  /** Page `l` holds what `cell` says.  A page may have lost its write bit to fork, and never
      has one that the eager machine does not grant. */
  ghost predicate Fits(s: State, l: Loc, cell: Cell)
    requires Mapped(s) && l in s.entries
  {
    var pte := s.entries[l];
    if s.frames[pte.frame].usage == Private then
      && cell.Own? && cell.data == s.frames[pte.frame].data && cell.user == (User in pte.flags)
      && (Write in pte.flags ==> cell.write)
    else cell == Common(pte.frame, pte.flags)
  }

  /** The eager state that a kernel state stands for. */
  ghost predicate Shows(s: State, e: Eager)
    requires Mapped(s)
  {
    && e.roots == s.roots
    && (forall l :: l in e.cells <==> l in s.entries)
    && (forall l :: l in e.cells ==> Fits(s, l, e.cells[l]))
    && (forall f :: f in e.common <==> f in s.frames && s.frames[f].usage != Private)
    && (forall f :: f in e.common ==> e.common[f] == s.frames[f].data)
  }

  /** No page has lost its write bit. */
  ghost predicate Kept(s: State, e: Eager)
    requires Mapped(s)
  {
    forall l :: l in e.cells && l in s.entries && e.cells[l].Own? && e.cells[l].write ==> Write in s.entries[l].flags
  }

  /** What a state holds apart from the permission to write private pages. */
  ghost function Contents(e: Eager): Eager {
    e.(cells := map l | l in e.cells :: if e.cells[l].Own? then e.cells[l].(write := false) else e.cells[l])
  }

  ghost function CellOf(s: State, l: Loc): Cell
    requires Mapped(s) && l in s.entries
  {
    var pte := s.entries[l];
    if s.frames[pte.frame].usage == Private then Own(s.frames[pte.frame].data, User in pte.flags, Write in pte.flags)
    else Common(pte.frame, pte.flags)
  }

  /** Every kernel state stands for exactly one eager state, up to the write permissions that
      fork may have taken from the page tables, and for exactly one if it took none. */
  lemma ShowsUnique(s: State) returns (e: Eager)
    requires Mapped(s)
    ensures Shows(s, e) && Kept(s, e)
    ensures forall e' :: Shows(s, e') ==> Contents(e') == Contents(e)
    ensures forall e' :: Shows(s, e') && Kept(s, e') ==> e' == e
  {
    e := Eager(s.roots, map l | l in s.entries :: CellOf(s, l),
               map f | f in s.frames && s.frames[f].usage != Private :: s.frames[f].data);
    forall e' | Shows(s, e') ensures Contents(e') == Contents(e) {
      SameCommon(s, e, e');
      assert Contents(e').cells == Contents(e).cells;
    }
    forall e' | Shows(s, e') && Kept(s, e') ensures e' == e {
      SameCommon(s, e, e');
      assert e'.cells == e.cells;
    }
  }

  lemma SameCommon(s: State, e: Eager, e': Eager)
    requires Mapped(s) && Shows(s, e) && Shows(s, e')
    ensures e'.roots == e.roots && e'.common == e.common
  {
    forall f ensures f in e'.common <==> f in e.common {}
    forall f | f in e.common ensures e'.common[f] == e.common[f] {}
  }

  /** The one store that copy-on-write refuses and copying serves: the byte at address 0, on a
      page that fork has left without its write bit. */
  ghost predicate NullFault(s: State, e: Eager, step: Step) {
    && step.Store? && AtNull(step.l, step.off) && step.l in s.entries && Write !in s.entries[step.l].flags
    && step.l in e.cells && e.cells[step.l].Own? && e.cells[step.l].user && e.cells[step.l].write
  }

  // ---------------------------------------------------------------- the fault keeps the invariant

  function Copied(s: State, l: Loc, spare: int): State
    requires Mapped(s) && l in s.entries
  {
    var f := s.entries[l].frame;
    s.(entries := s.entries[l := Pte(spare, UserWrite())],
       frames := AddRef(s.frames, f, -1)[spare := Frame(Private, 1, s.frames[f].data)])
  }

  ghost predicate CopyFault(s: State, l: Loc, spare: int) {
    Inv(s) && spare !in s.frames && l in s.entries && s.frames[s.entries[l].frame].usage == Private &&
    User in s.entries[l].flags && Write !in s.entries[l].flags
  }

  /** The private cell at `l` with the permission to write it. */
  ghost function Granted(e: Eager, l: Loc): Eager
    requires l in e.cells && e.cells[l].Own?
  {
    e.(cells := e.cells[l := e.cells[l].(write := true)])
  }

  lemma CopiedInv(s: State, l: Loc, spare: int)
    requires CopyFault(s, l, spare)
    ensures Inv(Copied(s, l, spare))
  {
    var t := Copied(s, l, spare);
    var pte := Pte(spare, UserWrite());
    assert Refs(s.entries, spare) == {};
    assert t.entries == (s.entries - {l})[l := pte];
    forall g | g in t.frames ensures t.frames[g].refs == |Refs(t.entries, g)| {
      RefsRemove(s.entries, l, g);
      RefsAdd(s.entries - {l}, l, pte, g);
    }
    assert Mapped(t);
    forall m | m in t.entries && PrivateWritable(t, m) ensures t.frames[t.entries[m].frame].refs == 1 {
      if m != l && s.entries[m].frame == s.entries[l].frame { WritableIsOnly(s, m, l); }
    }
  }

  lemma CopiedShows(s: State, l: Loc, spare: int, e: Eager)
    requires CopyFault(s, l, spare) && Mapped(Copied(s, l, spare)) && Shows(s, e)
    ensures l in e.cells && e.cells[l].Own? && Shows(Copied(s, l, spare), Granted(e, l))
  {
    hide Counted, Exclusive;
    var t := Copied(s, l, spare);
    forall m | m in t.entries ensures Fits(t, m, Granted(e, l).cells[m]) {}
    hide Fits;
  }

  function Claimed(s: State, l: Loc): State
    requires l in s.entries
  {
    s.(entries := s.entries[l := Pte(s.entries[l].frame, UserWrite())])
  }

  lemma ClaimedInv(s: State, l: Loc)
    requires Inv(s) && l in s.entries && s.frames[s.entries[l].frame].refs == 1
    ensures Inv(Claimed(s, l))
  {
    var f := s.entries[l].frame;
    var t := Claimed(s, l);
    forall g | g in t.frames ensures t.frames[g].refs == |Refs(t.entries, g)| {
      RefsReflag(s.entries, l, Pte(f, UserWrite()), g);
    }
  }

  /** A resolved fault leaves page `l` writable and changes what no page of any process holds. */
  lemma FaultResolves(s: State, l: Loc, off: int, spare: int, e: Eager)
    requires Inv(s) && Shows(s, e) && spare !in s.frames && Fault(s, l, off, spare).Resolved?
    ensures l in e.cells && e.cells[l].Own? && e.cells[l].user
    ensures var t := Fault(s, l, off, spare).state;
      Inv(t) && Shows(t, Granted(e, l)) && l in t.entries && t.entries[l].flags == UserWrite()
  {
    FaultForm(s, l, off, spare);
    if s.frames[s.entries[l].frame].refs >= 2 {
      hide Fault, Copied, Claimed, Counted, Exclusive, Granted;
      CopiedInv(s, l, spare);
      CopiedShows(s, l, spare, e);
    } else {
      hide Fault, Copied, Claimed, Counted, Exclusive, Granted;
      ClaimedInv(s, l);
      ClaimedShows(s, l, e);
    }
  }

  lemma FaultForm(s: State, l: Loc, off: int, spare: int)
    requires Mapped(s) && spare !in s.frames && Fault(s, l, off, spare).Resolved?
    ensures l in s.entries && s.frames[s.entries[l].frame].usage == Private
    ensures User in s.entries[l].flags && Write !in s.entries[l].flags
    ensures Fault(s, l, off, spare).state ==
            if s.frames[s.entries[l].frame].refs >= 2 then Copied(s, l, spare) else Claimed(s, l)
    ensures s.frames[s.entries[l].frame].refs >= 1
    ensures var t := Fault(s, l, off, spare).state; l in t.entries && t.entries[l].flags == UserWrite()
  {
  }

  lemma ClaimedShows(s: State, l: Loc, e: Eager)
    requires Mapped(s) && Shows(s, e) && l in s.entries
    requires User in s.entries[l].flags && s.frames[s.entries[l].frame].usage == Private
    ensures l in e.cells && e.cells[l].Own? && Mapped(Claimed(s, l)) && Shows(Claimed(s, l), Granted(e, l))
  {
  }

  // ---------------------------------------------------------------- step by step refinement

  /** A store into a page that only this mapping reaches, or into a shared frame. */
  lemma PokeRefines(s: State, l: Loc, off: int, b: byte, e: Eager)
    requires Inv(s) && Shows(s, e) && l in s.entries && UserWrite() <= s.entries[l].flags && 0 <= off < PAGE_SIZE
    ensures Inv(Poke(s, s.entries[l].frame, off, b))
    ensures EagerStore(e, l, off, b).1 == Done
    ensures Shows(Poke(s, s.entries[l].frame, off, b), EagerStore(e, l, off, b).0)
  {
    var f := s.entries[l].frame;
    if s.frames[f].usage == Private {
      forall m | m in s.entries && s.entries[m].frame == f ensures m == l { WritableIsOnly(s, l, m); }
      PokeOwn(s, l, off, b, e);
    } else {
      PokeCommon(s, l, off, b, e);
    }
  }

  lemma PokeOwn(s: State, l: Loc, off: int, b: byte, e: Eager)
    requires Mapped(s) && Shows(s, e) && l in s.entries && UserWrite() <= s.entries[l].flags && 0 <= off < PAGE_SIZE
    requires s.frames[s.entries[l].frame].usage == Private
    requires forall m :: m in s.entries && s.entries[m].frame == s.entries[l].frame ==> m == l
    ensures Mapped(Poke(s, s.entries[l].frame, off, b))
    ensures EagerStore(e, l, off, b).1 == Done
    ensures Shows(Poke(s, s.entries[l].frame, off, b), EagerStore(e, l, off, b).0)
  {
  }

  lemma PokeCommon(s: State, l: Loc, off: int, b: byte, e: Eager)
    requires Mapped(s) && Shows(s, e) && l in s.entries && UserWrite() <= s.entries[l].flags && 0 <= off < PAGE_SIZE
    requires s.frames[s.entries[l].frame].usage != Private
    ensures Mapped(Poke(s, s.entries[l].frame, off, b))
    ensures EagerStore(e, l, off, b).1 == Done
    ensures Shows(Poke(s, s.entries[l].frame, off, b), EagerStore(e, l, off, b).0)
  {
  }

  /** The permission is all that granting changes for a store. */
  lemma StoreGranted(e: Eager, l: Loc, off: int, b: byte)
    requires EagerValid(e) && 0 <= off < PAGE_SIZE && l in e.cells && e.cells[l].Own? && e.cells[l].user
    requires !AtNull(l, off)
    ensures EagerStore(e, l, off, b) == EagerStore(Granted(e, l), l, off, b)
  {
    assert EagerStore(e, l, off, b).0.cells == EagerStore(Granted(e, l), l, off, b).0.cells;
  }

  /** A user store has the effect and the outcome of a store into an eagerly copied page
      exactly when it is not the store at address 0 of a page that fork left without its
      write bit. */
  lemma StoreRefines(s: State, l: Loc, off: int, b: byte, spare: int, e: Eager)
    requires Inv(s) && Shows(s, e) && 0 <= off < PAGE_SIZE && spare !in s.frames
    ensures Inv(ExecStore(s, l, off, b, spare).0)
    ensures ExecStore(s, l, off, b, spare).1 == EagerStore(e, l, off, b).1 <==> !NullFault(s, e, Store(l, off, b, spare))
    ensures !NullFault(s, e, Store(l, off, b, spare)) ==> Shows(ExecStore(s, l, off, b, spare).0, EagerStore(e, l, off, b).0)
  {
    if l in s.entries {
      if UserWrite() <= s.entries[l].flags {
        PokeRefines(s, l, off, b, e);
      } else if Fault(s, l, off, spare).Resolved? {
        ResolvedRefines(s, l, off, b, spare, e);
      } else {
        RefsPositive(s, l);
      }
    }
  }

  lemma ResolvedRefines(s: State, l: Loc, off: int, b: byte, spare: int, e: Eager)
    requires Inv(s) && Shows(s, e) && 0 <= off < PAGE_SIZE && spare !in s.frames && Fault(s, l, off, spare).Resolved?
    requires l in s.entries && !(UserWrite() <= s.entries[l].flags)
    ensures !NullFault(s, e, Store(l, off, b, spare)) && ExecStore(s, l, off, b, spare).1 == Done == EagerStore(e, l, off, b).1
    ensures Inv(ExecStore(s, l, off, b, spare).0) && Shows(ExecStore(s, l, off, b, spare).0, EagerStore(e, l, off, b).0)
  {
    assert !AtNull(l, off);
    hide Fault, Counted, Exclusive, Granted, EagerStore, Fits;
    FaultResolves(s, l, off, spare, e);
    StoreGranted(e, l, off, b);
    PokeRefines(Fault(s, l, off, spare).state, l, off, b, Granted(e, l));
  }

  /** A page that is mapped read-only is not protected: a user store to it succeeds, and leaves
      the page writable, exactly when its frame is private and the address is not 0. */
  lemma ReadOnlyStore(s: State, l: Loc, off: int, b: byte, spare: int)
    requires Inv(s) && 0 <= off < PAGE_SIZE && spare !in s.frames
    requires l in s.entries && User in s.entries[l].flags && Write !in s.entries[l].flags
    ensures ExecStore(s, l, off, b, spare).1 == Done <==> s.frames[s.entries[l].frame].usage == Private && !AtNull(l, off)
    ensures ExecStore(s, l, off, b, spare).1 == Done ==>
      var t := ExecStore(s, l, off, b, spare).0; l in t.entries && t.entries[l].flags == UserWrite()
  {
    RefsPositive(s, l);
  }

  /** Page 5 of process 1, mapped for reading only into frame 7: one store makes it writable. */
  lemma ReadOnlyBecomesWritable(d: Data)
    ensures var s := State({1}, map[Loc(1, 5) := Pte(7, {User})], map[7 := Frame(Private, 1, d)]);
      && Inv(s) && ExecStore(s, Loc(1, 5), 0, 0, 8).1 == Done
      && Loc(1, 5) in ExecStore(s, Loc(1, 5), 0, 0, 8).0.entries
      && ExecStore(s, Loc(1, 5), 0, 0, 8).0.entries[Loc(1, 5)].flags == UserWrite()
  {
    var s := State({1}, map[Loc(1, 5) := Pte(7, {User})], map[7 := Frame(Private, 1, d)]);
    OnePage(s, Loc(1, 5), 7);
    ReadOnlyStore(s, Loc(1, 5), 0, 0, 8);
  }

  lemma OnePage(s: State, l: Loc, f: int)
    requires l.root in s.roots && UserPage(l.page) && s.entries.Keys == {l} && s.frames.Keys == {f}
    requires s.entries[l].frame == f && s.frames[f].refs == 1
    ensures Inv(s)
  {
    assert Refs(s.entries, f) == {l};
  }

  /** A shared frame is freed exactly with the last entry naming it. */
  ghost predicate Frees(s: State, t: State, f: int) {
    f in t.frames <==> (Refs(s.entries, f) == {} || Refs(t.entries, f) != {})
  }

  /** Dropping mappings: a shared frame survives exactly while some cell names it. */
  lemma ForgetRefines(s: State, t: State, gone: set<Loc>, e: Eager)
    requires Mapped(s) && Mapped(t) && Shows(s, e)
    requires t.roots == s.roots && t.entries == s.entries - gone
    requires t.frames.Keys <= s.frames.Keys
    requires forall f :: f in t.frames ==> t.frames[f].usage == s.frames[f].usage && t.frames[f].data == s.frames[f].data
    requires forall f :: f in s.frames ==> Frees(s, t, f)
    ensures Shows(t, Forget(e, gone))
  {
    var cells := e.cells - gone;
    forall f | f in e.common ensures Shares(cells, f) <==> Refs(t.entries, f) != {} {
      SharesRefs(s, e.cells, s.entries, f);
      SharesRefs(s, cells, t.entries, f);
    }
    forall f | f in e.common ensures Shares(e.cells, f) <==> Refs(s.entries, f) != {} {
      SharesRefs(s, e.cells, s.entries, f);
    }
    forall f | f in e.common ensures f in t.frames <==> (Shares(e.cells, f) ==> Shares(cells, f)) {
      assert Frees(s, t, f);
    }
  }

  lemma SharesRefs(s: State, cells: map<Loc, Cell>, entries: Entries, f: int)
    requires Mapped(s) && f in s.frames && s.frames[f].usage != Private
    requires cells.Keys == entries.Keys <= s.entries.Keys
    requires forall l :: l in entries ==> entries[l] == s.entries[l] && Fits(s, l, cells[l])
    ensures Shares(cells, f) <==> Refs(entries, f) != {}
  {
    if Shares(cells, f) {
      var l :| l in cells && cells[l].Common? && cells[l].frame == f;
      assert l in Refs(entries, f);
    }
    if Refs(entries, f) != {} {
      var l :| l in Refs(entries, f);
      assert l in cells;
    }
  }

  lemma DropFrees(s: State, l: Loc, f: int)
    requires Mapped(s) && Counted(s) && f in s.frames
    ensures Frees(s, Drop(s, l), f)
  {
    DropCounts(s, l);
    var t := Drop(s, l);
    if l in s.entries && s.entries[l].frame == f {
      assert l in Refs(s.entries, f);
    } else {
      assert Refs(t.entries, f) == Refs(s.entries, f);
    }
  }

  /** After release, a frame is gone exactly when it was named before and is named no more. */
  lemma {:induction false} ReleaseFrees(s: State, p: int, k: nat, f: int)
    requires Mapped(s) && Counted(s) && f in s.frames
    ensures Frees(s, ReleaseUpTo(s, p, k), f)
  {
    if k > 0 {
      ReleaseFrees(s, p, k - 1, f);
      ReleaseCounts(s, p, k - 1);
      var t := ReleaseUpTo(s, p, k - 1);
      assert Refs(t.entries, f) <= Refs(s.entries, f) by { ReleaseForm(s, p, k - 1); }
      if f in t.frames { DropFrees(t, Loc(p, k - 1), f); }
      else { assert Refs(Drop(t, Loc(p, k - 1)).entries, f) <= Refs(t.entries, f); }
    }
  }

  lemma ReleaseRefines(s: State, p: int, e: Eager)
    requires Inv(s) && Shows(s, e)
    ensures Inv(Release(s, p)) && Shows(Release(s, p), Forget(e, OfRoot(e.cells, p)))
  {
    var t := Release(s, p);
    InvReleaseUpTo(s, p, USER_PAGES);
    ReleaseForm(s, p, USER_PAGES);
    assert t.entries == s.entries - OfRoot(e.cells, p);
    forall f | f in s.frames ensures Frees(s, t, f) { ReleaseFrees(s, p, USER_PAGES, f); }
    ForgetRefines(s, t, OfRoot(e.cells, p), e);
  }

  lemma DropParts(s: State, l: Loc)
    requires Mapped(s)
    ensures var t := Drop(s, l);
      && t.roots == s.roots && t.entries == s.entries - {l} && t.frames.Keys <= s.frames.Keys
      && forall f :: f in t.frames ==> t.frames[f].usage == s.frames[f].usage && t.frames[f].data == s.frames[f].data
  {
  }

  lemma MunmapRefines(s: State, l: Loc, e: Eager)
    requires Inv(s) && Shows(s, e)
    ensures Inv(Drop(s, l)) && Shows(Drop(s, l), Forget(e, {l}))
  {
    hide Shows, Forget, Counted, Exclusive, Frees, Drop;
    InvDrop(s, l);
    DropParts(s, l);
    forall f | f in s.frames ensures Frees(s, Drop(s, l), f) { DropFrees(s, l, f); }
    ForgetRefines(s, Drop(s, l), {l}, e);
  }

  /** The fork loop leaves both processes with what an immediate copy would give them. */
  lemma ForkRefines(s: State, p: int, c: int, spare: map<int, int>, e: Eager)
    requires Inv(s) && Shows(s, e) && p in s.roots && c !in s.roots
    ensures Inv(Fork(NewSpace(s, c), p, c))
    ensures EagerEnabled(e, DoFork(p, c, spare))
    ensures Shows(Fork(NewSpace(s, c), p, c), EagerExec(e, DoFork(p, c, spare)).0)
  {
    InvForkUpTo(NewSpace(s, c), p, c, USER_PAGES);
    ForkForm(NewSpace(s, c), p, c, USER_PAGES);
    var t := Fork(NewSpace(s, c), p, c);
    hide Fork, Fits, EagerExec, EagerEnabled, Counted, Exclusive, ForkedTo;
    forall l | l in t.entries ensures ForkedFrom(s, p, c, t, l) { ForkedCell(s, p, c, t, l); }
    ForkedCommon(s, p, c, t, e);
    DuplicateShows(s, p, c, t, spare, e);
  }

  /** Page `l` after a fork holds what its origin held, with no more permissions. */
  ghost predicate ForkedFrom(s: State, p: int, c: int, t: State, l: Loc)
    requires Mapped(s) && Mapped(t) && l in t.entries
  {
    var o := Origin(p, c, l);
    && o in s.entries
    && t.frames[t.entries[l].frame].usage == s.frames[s.entries[o].frame].usage
    && (s.frames[s.entries[o].frame].usage != Private ==> t.entries[l] == s.entries[o])
    && t.frames[t.entries[l].frame].data == s.frames[s.entries[o].frame].data
    && (User in t.entries[l].flags <==> User in s.entries[o].flags)
    && (Write in t.entries[l].flags ==> Write in s.entries[o].flags)
  }

  function Origin(p: int, c: int, l: Loc): Loc { if l.root == c then Loc(p, l.page) else l }

  lemma ForkedCell(s: State, p: int, c: int, t: State, l: Loc)
    requires Mapped(s) && p in s.roots && c !in s.roots && Mapped(t) && l in t.entries
    requires ForkedTo(NewSpace(s, c), p, c, USER_PAGES, t)
    ensures ForkedFrom(s, p, c, t, l)
  {
    assert l == Loc(l.root, l.page);
  }

  lemma ForkedCommon(s: State, p: int, c: int, t: State, e: Eager)
    requires Mapped(s) && Shows(s, e) && p in s.roots && c !in s.roots && ForkedTo(NewSpace(s, c), p, c, USER_PAGES, t)
    ensures forall l :: l in t.entries <==> l in s.entries || (l.root == c && Loc(p, l.page) in s.entries)
    ensures forall f :: f in e.common <==> f in t.frames && t.frames[f].usage != Private
    ensures forall f :: f in e.common ==> e.common[f] == t.frames[f].data
    ensures t.roots == s.roots + {c}
  {
  }

  /** A state whose pages hold what their origins held stands for the duplicated eager state. */
  lemma DuplicateShows(s: State, p: int, c: int, t: State, spare: map<int, int>, e: Eager)
    requires Mapped(s) && Shows(s, e) && p in s.roots && c !in s.roots && Mapped(t) && t.roots == s.roots + {c}
    requires forall l :: l in t.entries <==> l in s.entries || (l.root == c && Loc(p, l.page) in s.entries)
    requires forall l :: l in t.entries ==> ForkedFrom(s, p, c, t, l)
    requires forall f :: f in e.common <==> f in t.frames && t.frames[f].usage != Private
    requires forall f :: f in e.common ==> e.common[f] == t.frames[f].data
    ensures EagerEnabled(e, DoFork(p, c, spare)) && Shows(t, EagerExec(e, DoFork(p, c, spare)).0)
  {
    hide Fits, Mapped, EagerExec, EagerEnabled, ForkedFrom;
    ForkOpen(s, p, c, spare, e);
    var cells := Duplicate(e.cells, p, c);
    forall l ensures (l in cells <==> l in t.entries) && (l in cells ==> Fits(t, l, cells[l])) { DuplicateAt(s, p, c, t, e, l); }
  }

  lemma DuplicateAt(s: State, p: int, c: int, t: State, e: Eager, l: Loc)
    requires Mapped(s) && Shows(s, e) && Mapped(t) && forall m :: m in e.cells ==> m.root != c
    requires l in t.entries <==> l in s.entries || (l.root == c && Loc(p, l.page) in s.entries)
    requires l in t.entries ==> ForkedFrom(s, p, c, t, l)
    ensures var cells := Duplicate(e.cells, p, c); (l in cells <==> l in t.entries) && (l in cells ==> Fits(t, l, cells[l]))
  {
    hide Fits, ForkedFrom;
    var cells := Duplicate(e.cells, p, c);
    if l in t.entries {
      OriginIn(s, p, c, t, l);
      OriginFits(s, p, c, t, l, e.cells[Origin(p, c, l)]);
    }
  }

  lemma OriginIn(s: State, p: int, c: int, t: State, l: Loc)
    requires Mapped(s) && Mapped(t) && l in t.entries && ForkedFrom(s, p, c, t, l)
    ensures Origin(p, c, l) in s.entries
  {
  }

  lemma OriginFits(s: State, p: int, c: int, t: State, l: Loc, cell: Cell)
    requires Mapped(s) && Mapped(t) && l in t.entries && ForkedFrom(s, p, c, t, l)
    requires Origin(p, c, l) in s.entries && Fits(s, Origin(p, c, l), cell)
    ensures Fits(t, l, cell)
  {
  }

  lemma ForkOpen(s: State, p: int, c: int, spare: map<int, int>, e: Eager)
    requires Mapped(s) && Shows(s, e) && p in s.roots && c !in s.roots
    ensures forall l :: l in e.cells ==> l.root != c
    ensures EagerEnabled(e, DoFork(p, c, spare))
    ensures EagerExec(e, DoFork(p, c, spare)).0 == e.(roots := e.roots + {c}, cells := Duplicate(e.cells, p, c))
  {
  }

  /** Every step of the kernel machine keeps the invariant and matches the eager machine, in
      its effect and in what the user observes, exactly unless it is the store at address 0 of
      a page that fork left without its write bit. */
  lemma StepRefines(s: State, step: Step, e: Eager)
    requires Inv(s) && Enabled(Lazy, s, step) && Shows(s, e)
    ensures Inv(Exec(Lazy, s, step).0) && EagerEnabled(e, step)
    ensures Exec(Lazy, s, step).1 == EagerExec(e, step).1 <==> !NullFault(s, e, step)
    ensures !NullFault(s, e, step) ==> Shows(Exec(Lazy, s, step).0, EagerExec(e, step).0)
  {
    match step
    case Spawn(c) => SpawnRefines(s, c, e);
    case MapAnon(l, f, usage, flags, d) =>
      InvMapFresh(s, l, f, usage, flags, d);
      MapAnonShows(s, step, e);
    case Shmget(f, d) =>
      InvShmGet(s, f, d);
      ShmgetShows(s, f, d, e);
    case Shmat(l, f) =>
      InvMapFrame(s, l, Pte(f, UserWrite()));
      ShmatShows(s, l, f, e);
    case Munmap(l) => MunmapRefines(s, l, e);
    case DoFork(p, c, spare) => ForkRefines(s, p, c, spare, e);
    case Load(l, off) =>
    case Store(l, off, b, spare) => StoreRefines(s, l, off, b, spare, e);
    case Wipe(p) => ReleaseRefines(s, p, e);
    case Exit(p) => ExitRefines(s, p, e);
  }

  lemma SpawnRefines(s: State, c: int, e: Eager)
    requires Inv(s) && Shows(s, e)
    ensures Inv(NewSpace(s, c)) && EagerEnabled(e, Spawn(c)) && Shows(NewSpace(s, c), EagerExec(e, Spawn(c)).0)
  {
  }

  lemma MapAnonShows(s: State, step: Step, e: Eager)
    requires Mapped(s) && Enabled(Lazy, s, step) && step.MapAnon? && Shows(s, e)
    ensures Mapped(Exec(Lazy, s, step).0) && EagerEnabled(e, step) && Shows(Exec(Lazy, s, step).0, EagerExec(e, step).0)
  {
    var t := Exec(Lazy, s, step).0;
    var e' := EagerExec(e, step).0;
    forall l | l in e'.cells ensures Fits(t, l, e'.cells[l]) {}
    forall f ensures f in e'.common <==> f in t.frames && t.frames[f].usage != Private {}
  }

  lemma ShmgetShows(s: State, f: int, d: Data, e: Eager)
    requires Mapped(s) && f !in s.frames && Shows(s, e)
    ensures Mapped(ShmGet(s, f, d)) && EagerEnabled(e, Shmget(f, d)) && Shows(ShmGet(s, f, d), EagerExec(e, Shmget(f, d)).0)
  {
  }

  lemma ShmatShows(s: State, l: Loc, f: int, e: Eager)
    requires Mapped(s) && Enabled(Lazy, s, Shmat(l, f)) && Shows(s, e)
    ensures Mapped(Exec(Lazy, s, Shmat(l, f)).0)
    ensures EagerEnabled(e, Shmat(l, f)) && Shows(Exec(Lazy, s, Shmat(l, f)).0, EagerExec(e, Shmat(l, f)).0)
  {
  }

  lemma ExitRefines(s: State, p: int, e: Eager)
    requires Inv(s) && Shows(s, e) && p in s.roots
    ensures Inv(Exec(Lazy, s, Exit(p)).0)
    ensures EagerEnabled(e, Exit(p)) && Shows(Exec(Lazy, s, Exit(p)).0, EagerExec(e, Exit(p)).0)
  {
    ReleaseForm(s, p, USER_PAGES);
    hide Release, Shows, Forget, Counted, Exclusive;
    ReleaseRefines(s, p, e);
    DetachShows(Release(s, p), p, Forget(e, OfRoot(e.cells, p)));
    EagerOpen(s, e);
  }

  lemma EagerOpen(s: State, e: Eager)
    requires Mapped(s) && Shows(s, e)
    ensures EagerValid(e)
  {
  }

  lemma DetachShows(t: State, p: int, e: Eager)
    requires Inv(t) && Shows(t, e) && forall l :: l in t.entries ==> l.root != p
    ensures Inv(t.(roots := t.roots - {p})) && Shows(t.(roots := t.roots - {p}), e.(roots := e.roots - {p}))
  {
  }

  // ---------------------------------------------------------------- the copying machine

  /** The copying loop leaves both processes with what an immediate copy gives them, and takes
      no page's write bit. */
  lemma CopyForkRefines(s: State, p: int, c: int, spare: map<int, int>, e: Eager)
    requires Inv(s) && Shows(s, e) && Kept(s, e) && p in s.roots && c !in s.roots && Spares(s, p, spare)
    ensures Inv(CopyFork(NewSpace(s, c), p, c, spare)) && EagerEnabled(e, DoFork(p, c, spare))
    ensures Shows(CopyFork(NewSpace(s, c), p, c, spare), EagerExec(e, DoFork(p, c, spare)).0)
    ensures Kept(CopyFork(NewSpace(s, c), p, c, spare), EagerExec(e, DoFork(p, c, spare)).0)
  {
    CopyForkParts(s, p, c, spare, e);
    var t := CopyFork(NewSpace(s, c), p, c, spare);
    hide CopyFork, Fits, EagerExec, EagerEnabled, Counted, Exclusive, Spares, ForkedFrom, Mapped;
    DuplicateShows(s, p, c, t, spare, e);
    ForkOpen(s, p, c, spare, e);
    CopyForkKeeps(s, p, c, t, e);
  }

  lemma CopyForkParts(s: State, p: int, c: int, spare: map<int, int>, e: Eager)
    requires Inv(s) && Shows(s, e) && p in s.roots && c !in s.roots && Spares(s, p, spare)
    ensures var t := CopyFork(NewSpace(s, c), p, c, spare);
      && Inv(t) && t.roots == s.roots + {c}
      && (forall l :: l in t.entries <==> l in s.entries || (l.root == c && Loc(p, l.page) in s.entries))
      && (forall l :: l in t.entries ==> ForkedFrom(s, p, c, t, l))
      && (forall l :: l in t.entries ==> SameFlags(s, p, c, t, l))
      && (forall f :: f in e.common <==> f in t.frames && t.frames[f].usage != Private)
      && (forall f :: f in e.common ==> e.common[f] == t.frames[f].data)
  {
    SparesNew(s, p, c, spare);
    InvCopyUpTo(NewSpace(s, c), p, c, spare, USER_PAGES);
    CopyForm(NewSpace(s, c), p, c, spare, USER_PAGES);
    var t := CopyFork(NewSpace(s, c), p, c, spare);
    CopiedCommon(s, p, c, spare, t, e);
    hide CopyFork, Fits, Counted, Exclusive, CopiedTo, Spares, ForkedFrom, SameFlags;
    forall l | l in t.entries ensures ForkedFrom(s, p, c, t, l) && SameFlags(s, p, c, t, l) { CopiedCell(s, p, c, spare, t, l); }
  }

  ghost predicate SameFlags(s: State, p: int, c: int, t: State, l: Loc) {
    l in t.entries && Origin(p, c, l) in s.entries && t.entries[l].flags == s.entries[Origin(p, c, l)].flags
  }

  lemma CopyForkKeeps(s: State, p: int, c: int, t: State, e: Eager)
    requires Mapped(s) && Mapped(t) && Kept(s, e) && forall l :: l in e.cells ==> l.root != c
    requires forall l :: l in t.entries ==> SameFlags(s, p, c, t, l)
    ensures Kept(t, e.(roots := e.roots + {c}, cells := Duplicate(e.cells, p, c)))
  {
    var cells := Duplicate(e.cells, p, c);
    forall l | l in cells && l in t.entries && cells[l].Own? && cells[l].write ensures Write in t.entries[l].flags {
      assert SameFlags(s, p, c, t, l);
      if l.root != c { assert l in e.cells; }
    }
  }

  lemma SparesNew(s: State, p: int, c: int, spare: map<int, int>)
    requires Mapped(s) && c !in s.roots && p in s.roots && Spares(s, p, spare)
    ensures Forkable(NewSpace(s, c), p, c) && Spares(NewSpace(s, c), p, spare)
  {
    forall v | Copies(NewSpace(s, c), p, v) ensures Copies(s, p, v) {}
  }

  lemma CopiedCell(s: State, p: int, c: int, spare: map<int, int>, t: State, l: Loc)
    requires Mapped(s) && p in s.roots && c !in s.roots && Mapped(t) && l in t.entries
    requires Spares(NewSpace(s, c), p, spare) && CopiedTo(NewSpace(s, c), p, c, spare, USER_PAGES, t)
    ensures ForkedFrom(s, p, c, t, l) && SameFlags(s, p, c, t, l)
  {
    var n := NewSpace(s, c);
    assert l == Loc(l.root, l.page);
    if l.root == c && Copies(n, p, l.page) { assert CopiedFrame(n, p, spare, l.page, t.frames); }
  }

  lemma CopiedCommon(s: State, p: int, c: int, spare: map<int, int>, t: State, e: Eager)
    requires Mapped(s) && Shows(s, e) && p in s.roots && c !in s.roots
    requires Spares(NewSpace(s, c), p, spare) && CopiedTo(NewSpace(s, c), p, c, spare, USER_PAGES, t)
    ensures forall l :: l in t.entries <==> l in s.entries || (l.root == c && Loc(p, l.page) in s.entries)
    ensures forall f :: f in e.common <==> f in t.frames && t.frames[f].usage != Private
    ensures forall f :: f in e.common ==> e.common[f] == t.frames[f].data
    ensures t.roots == s.roots + {c}
  {
    forall f | f in t.frames && f !in s.frames ensures t.frames[f].usage == Private {
      var v :| v < USER_PAGES && Copies(NewSpace(s, c), p, v) && spare[v] == f;
      assert CopiedFrame(NewSpace(s, c), p, spare, v, t.frames);
    }
  }

  /** Every step of the copying machine matches the eager machine, without exception. */
  lemma CopyStepRefines(s: State, step: Step, e: Eager)
    requires Inv(s) && Enabled(Copying, s, step) && Shows(s, e) && Kept(s, e)
    ensures Inv(Exec(Copying, s, step).0) && EagerEnabled(e, step)
    ensures Shows(Exec(Copying, s, step).0, EagerExec(e, step).0) && Kept(Exec(Copying, s, step).0, EagerExec(e, step).0)
    ensures Exec(Copying, s, step).1 == EagerExec(e, step).1
  {
    if step.DoFork? {
      CopyForkRefines(s, step.parent, step.child, step.spares, e);
    } else {
      hide Exec, EagerExec, EagerEnabled, Enabled, Shows, Counted, Exclusive;
      StepRefines(s, step, e);
      StepKeeps(s, step, e);
    }
  }

  /** The pages outside `at` are those of before, in both machines, or gone. */
  ghost predicate SameElse(s: State, e: Eager, t: State, e': Eager, at: set<Loc>) {
    forall m :: m in e'.cells && m in t.entries && m !in at ==>
      && m in e.cells && m in s.entries
      && e'.cells[m] == e.cells[m] && t.entries[m] == s.entries[m]
  }

  lemma KeptElse(s: State, e: Eager, t: State, e': Eager, at: set<Loc>)
    requires Mapped(s) && Mapped(t) && Kept(s, e) && SameElse(s, e, t, e', at)
    requires forall l :: l in at && l in e'.cells && l in t.entries && e'.cells[l].Own? && e'.cells[l].write ==> Write in t.entries[l].flags
    ensures Kept(t, e')
  {
  }

  lemma StepKeeps(s: State, step: Step, e: Eager)
    requires Inv(s) && Enabled(Lazy, s, step) && !step.DoFork? && Shows(s, e) && Kept(s, e)
    requires Mapped(Exec(Lazy, s, step).0) && EagerEnabled(e, step) && Exec(Lazy, s, step).1 == EagerExec(e, step).1
    ensures Kept(Exec(Lazy, s, step).0, EagerExec(e, step).0)
  {
    hide Kept, Shows, Counted, Exclusive, Shares;
    var t, e' := Exec(Lazy, s, step).0, EagerExec(e, step).0;
    match step
    case Spawn(c) => KeptElse(s, e, t, e', {});
    case MapAnon(l, f, usage, flags, d) => KeptElse(s, e, t, e', {l});
    case Shmget(f, d) => KeptElse(s, e, t, e', {});
    case Shmat(l, f) => KeptElse(s, e, t, e', {l});
    case Munmap(l) =>
      DropParts(s, l);
      KeptElse(s, e, t, e', {});
    case Wipe(p) =>
      ReleasedParts(s, p);
      KeptElse(s, e, t, e', {});
    case Exit(p) =>
      ReleasedParts(s, p);
      KeptElse(s, e, t, e', {});
    case Load(l, off) =>
    case Store(l, off, b, spare) =>
      ExecStoreParts(s, l, off, b, spare);
      EagerStoreParts(e, l, off, b);
      KeptElse(s, e, t, e', if t == s && e' == e then {} else {l});
  }

  lemma ReleasedParts(s: State, p: int)
    requires Mapped(s) && Counted(s)
    ensures forall l :: l in Release(s, p).entries ==> l in s.entries && Release(s, p).entries[l] == s.entries[l]
  {
    ReleaseForm(s, p, USER_PAGES);
  }

  /** A store touches one page, and leaves it writable if it is served. */
  lemma ExecStoreParts(s: State, l: Loc, off: int, b: byte, spare: int)
    requires Mapped(s) && 0 <= off < PAGE_SIZE && spare !in s.frames
    ensures var (t, obs) := ExecStore(s, l, off, b, spare);
      if obs == Done then
        && t.entries.Keys == s.entries.Keys && l in t.entries && Write in t.entries[l].flags
        && forall m :: m in s.entries && m != l ==> t.entries[m] == s.entries[m]
      else t == s
  {
    if Fault(s, l, off, spare).Resolved? { FaultForm(s, l, off, spare); }
  }

  lemma EagerStoreParts(e: Eager, l: Loc, off: int, b: byte)
    requires EagerValid(e) && 0 <= off < PAGE_SIZE
    ensures var (e', obs) := EagerStore(e, l, off, b);
      if obs == Done then e'.cells.Keys == e.cells.Keys && forall m :: m in e.cells && m != l ==> e'.cells[m] == e.cells[m]
      else e' == e
  {
  }

  // ---------------------------------------------------------------- whole runs

  /** A run whose every step is one that the kernel can take; a panic stops the machine. */
  ghost predicate Runs(br: Branch, s: State, steps: seq<Step>)
    requires Mapped(s)
    decreases |steps|
  {
    steps == [] ||
    (Enabled(br, s, steps[0]) && Mapped(Exec(br, s, steps[0]).0) &&
     (Exec(br, s, steps[0]).1 == Panic || Runs(br, Exec(br, s, steps[0]).0, steps[1..])))
  }

  /** What users observe during a run. */
  ghost function Trace(br: Branch, s: State, steps: seq<Step>): seq<Obs>
    requires Mapped(s) && Runs(br, s, steps)
    decreases |steps|
  {
    if steps == [] then []
    else
      var (t, obs) := Exec(br, s, steps[0]);
      if obs == Panic then [Panic] else [obs] + Trace(br, t, steps[1..])
  }

  ghost function EagerTrace(e: Eager, steps: seq<Step>): seq<Obs>
    decreases |steps|
  {
    if steps == [] || !EagerEnabled(e, steps[0]) then []
    else
      var (t, obs) := EagerExec(e, steps[0]);
      if obs == Panic then [Panic] else [obs] + EagerTrace(t, steps[1..])
  }

  /** The state in which a run ends. */
  ghost function After(br: Branch, s: State, steps: seq<Step>): State
    requires Mapped(s) && Runs(br, s, steps)
    decreases |steps|
  {
    if steps == [] then s
    else
      var (t, obs) := Exec(br, s, steps[0]);
      if obs == Panic then t else After(br, t, steps[1..])
  }

  /** No step of the run is a store at address 0 of a page that fork left without its write bit. */
  ghost predicate Clear(s: State, e: Eager, steps: seq<Step>)
    requires Mapped(s) && Runs(Lazy, s, steps)
    decreases |steps|
  {
    steps == [] ||
    (!NullFault(s, e, steps[0]) && EagerEnabled(e, steps[0]) &&
     (Exec(Lazy, s, steps[0]).1 == Panic || Clear(Exec(Lazy, s, steps[0]).0, EagerExec(e, steps[0]).0, steps[1..])))
  }

  lemma ConsEqual(o: Obs, a: seq<Obs>, b: seq<Obs>)
    ensures [o] + a == [o] + b <==> a == b
  {
    assert ([o] + a)[1..] == a && ([o] + b)[1..] == b;
  }

  /** Over every run of maps, forks, loads, stores and releases, copy-on-write shows users
      exactly what copying at fork time shows them, if and only if the run is clear. */
  lemma {:induction false} RunRefinesEager(s: State, steps: seq<Step>, e: Eager)
    requires Inv(s) && Runs(Lazy, s, steps) && Shows(s, e)
    ensures Trace(Lazy, s, steps) == EagerTrace(e, steps) <==> Clear(s, e, steps)
    decreases |steps|
  {
    if steps != [] {
      hide Exec, EagerExec, Enabled, EagerEnabled, NullFault, Shows, Counted, Exclusive;
      StepRefines(s, steps[0], e);
      var (t, obs) := Exec(Lazy, s, steps[0]);
      if NullFault(s, e, steps[0]) {
        assert Trace(Lazy, s, steps)[0] == obs;
      } else if obs != Panic {
        RunRefinesEager(t, steps[1..], EagerExec(e, steps[0]).0);
        ConsEqual(obs, Trace(Lazy, t, steps[1..]), EagerTrace(EagerExec(e, steps[0]).0, steps[1..]));
      }
    }
  }

  /** The machine that copies at fork shows users exactly what the eager machine does. */
  lemma {:induction false} CopyRunIsEager(s: State, steps: seq<Step>, e: Eager)
    requires Inv(s) && Runs(Copying, s, steps) && Shows(s, e) && Kept(s, e)
    ensures Trace(Copying, s, steps) == EagerTrace(e, steps)
    decreases |steps|
  {
    if steps != [] {
      hide Exec, EagerExec, Enabled, EagerEnabled, Shows, Kept, Counted, Exclusive;
      CopyStepRefines(s, steps[0], e);
      var (t, obs) := Exec(Copying, s, steps[0]);
      if obs != Panic { CopyRunIsEager(t, steps[1..], EagerExec(e, steps[0]).0); }
    }
  }

  /** Both branches of mm_space_fork show users the same over every run that both kernels can
      take, if and only if the run is clear. */
  lemma ForkBranchesAgree(s: State, steps: seq<Step>, e: Eager)
    requires Inv(s) && Shows(s, e) && Kept(s, e) && Runs(Lazy, s, steps) && Runs(Copying, s, steps)
    ensures Trace(Lazy, s, steps) == Trace(Copying, s, steps) <==> Clear(s, e, steps)
  {
    hide Runs, Trace, EagerTrace, Clear;
    RunRefinesEager(s, steps, e);
    CopyRunIsEager(s, steps, e);
  }

  /** Before the first process there is no page and no frame. */
  ghost function Boot(): State { State({}, map[], map[]) }

  lemma {:induction false} RunKeepsInv(br: Branch, s: State, steps: seq<Step>)
    requires Inv(s) && Runs(br, s, steps)
    ensures Inv(After(br, s, steps))
    decreases |steps|
  {
    if steps != [] {
      hide Exec, EagerExec, Enabled, EagerEnabled, Shows, Kept, Counted, Exclusive;
      var e := ShowsUnique(s);
      if br == Lazy { StepRefines(s, steps[0], e); } else { CopyStepRefines(s, steps[0], e); }
      var (t, obs) := Exec(br, s, steps[0]);
      if obs != Panic { RunKeepsInv(br, t, steps[1..]); }
    }
  }

  /** In every reachable state a writable entry to a private frame is the only entry, in any
      process, that names the frame, and every frame's count is the number of its entries. */
  lemma EveryReachableState(br: Branch, steps: seq<Step>)
    requires Runs(br, Boot(), steps)
    ensures var s := After(br, Boot(), steps);
      && Inv(s)
      && forall l, m :: l in s.entries && m in s.entries && s.entries[m].frame == s.entries[l].frame && PrivateWritable(s, l) ==> l == m
  {
    RunKeepsInv(br, Boot(), steps);
    var s := After(br, Boot(), steps);
    forall l, m | l in s.entries && m in s.entries && s.entries[m].frame == s.entries[l].frame && PrivateWritable(s, l) ensures l == m {
      WritableIsOnly(s, l, m);
    }
  }

  /** Process 1 maps page 0 for writing and forks process 2: its own store at address 0 is then
      refused, which the eager machine serves. */
  lemma ForkLosesAddressZero(d: Data, b: byte)
    ensures var s := State({1}, map[Loc(1, 0) := Pte(7, UserWrite())], map[7 := Frame(Private, 1, d)]);
      var e := Eager({1}, map[Loc(1, 0) := Own(d, true, true)], map[]);
      var t := Fork(NewSpace(s, 2), 1, 2);
      && Inv(s) && Shows(s, e) && Inv(t) && EagerEnabled(e, DoFork(1, 2, map[]))
      && Shows(t, EagerExec(e, DoFork(1, 2, map[])).0)
      && NullFault(t, EagerExec(e, DoFork(1, 2, map[])).0, Store(Loc(1, 0), 0, b, 8))
  {
    var s := State({1}, map[Loc(1, 0) := Pte(7, UserWrite())], map[7 := Frame(Private, 1, d)]);
    var e := Eager({1}, map[Loc(1, 0) := Own(d, true, true)], map[]);
    OnePage(s, Loc(1, 0), 7);
    ForkRefines(s, 1, 2, map[], e);
    ForkForm(NewSpace(s, 2), 1, 2, USER_PAGES);
    var t := Fork(NewSpace(s, 2), 1, 2);
    hide Fork;
    assert Loc(1, 0) in t.entries;
  }

  // ---------------------------------------------------------------- conservation

  /** Fork followed by the release of the child restores every frame and reference count. */
  lemma ForkReleaseConserves(s: State, p: int, c: int)
    requires Inv(s) && p in s.roots && c !in s.roots
    ensures Release(Fork(NewSpace(s, c), p, c), c).frames == s.frames
  {
    var n := NewSpace(s, c);
    var t := Fork(n, p, c);
    var u := Release(t, c);
    InvForkUpTo(n, p, c, USER_PAGES);
    ForkForm(n, p, c, USER_PAGES);
    ReleaseForm(t, c, USER_PAGES);
    hide Fork, Release, Mapped, Counted, Exclusive;
    forall f | f in s.frames ensures f in u.frames && u.frames[f] == s.frames[f] { ForkReleaseFrame(s, p, c, f); }
    assert u.frames.Keys == s.frames.Keys;
  }

  lemma ForkReleaseFrame(s: State, p: int, c: int, f: int)
    requires Inv(s) && p in s.roots && c !in s.roots && f in s.frames
    ensures var u := Release(Fork(NewSpace(s, c), p, c), c); f in u.frames && u.frames[f] == s.frames[f]
  {
    var n := NewSpace(s, c);
    var t := Fork(n, p, c);
    var u := Release(t, c);
    InvForkUpTo(n, p, c, USER_PAGES);
    InvReleaseUpTo(t, c, USER_PAGES);
    ForkReleaseRefs(s, p, c, f);
    ForkForm(n, p, c, USER_PAGES);
    hide Fork, Release, Forked;
    ReleaseFrees(t, c, USER_PAGES, f);
    ReleaseForm(t, c, USER_PAGES);
    assert Frees(t, u, f);
  }

  lemma ForkReleaseRefs(s: State, p: int, c: int, f: int)
    requires Inv(s) && p in s.roots && c !in s.roots
    ensures var t := Fork(NewSpace(s, c), p, c);
      Refs(Release(t, c).entries, f) == Refs(s.entries, f) && (Refs(s.entries, f) == {} ==> Refs(t.entries, f) == {})
  {
    var n := NewSpace(s, c);
    var t := Fork(n, p, c);
    InvForkUpTo(n, p, c, USER_PAGES);
    ForkForm(n, p, c, USER_PAGES);
    ForkedRefs(s, p, c, t, f);
    ReleasedRefs(t, c, f);
    assert forall l :: l in Refs(s.entries, f) ==> l.root != c;
    assert Refs(Release(t, c).entries, f) == Refs(s.entries, f);
  }

  lemma ForkedRefs(s: State, p: int, c: int, t: State, f: int)
    requires Mapped(s) && p in s.roots && c !in s.roots && ForkedTo(NewSpace(s, c), p, c, USER_PAGES, t)
    ensures forall l :: l in Refs(t.entries, f) <==> (if l.root == c then Loc(p, l.page) else l) in Refs(s.entries, f)
  {
  }

  lemma ReleasedRefs(t: State, c: int, f: int)
    requires Mapped(t) && Counted(t)
    ensures forall l :: l in Refs(Release(t, c).entries, f) <==> l in Refs(t.entries, f) && l.root != c
  {
    ReleaseForm(t, c, USER_PAGES);
  }

  /** Releasing a space twice (process_cleanup, then mm_space_free) is releasing it once. */
  lemma ReleaseTwice(s: State, p: int)
    requires Inv(s)
    ensures Release(Release(s, p), p) == Release(s, p)
  {
    var t := Release(s, p);
    InvReleaseUpTo(s, p, USER_PAGES);
    ReleaseForm(s, p, USER_PAGES);
    ReleaseSkip(t, p, 0, USER_PAGES);
  }
}
