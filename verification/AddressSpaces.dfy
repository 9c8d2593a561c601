/** User address spaces as one flat table of page mappings, together with the frames the
    mappings name.  This is the machine that the page-table code in `PageTables` implements;
    every step below is one kernel operation.

    `ForkUpTo` and `ReleaseUpTo` are folds over the virtual pages in the order in which
    the nested table loops visit them. */
module AddressSpaces {
  import opened Memory

  // 255 user entries of the top-level table, each covering 512 * 512 * 512 pages
  const USER_PAGES := 34225520640

  datatype Usage = Unknown | Private | Shared | Device | Kernel | Paging | Cache
  datatype Flag = Write | User | WriteThrough | NoCache | Accessed | Dirty | Huge | Global | NoExec
  datatype Pte = Pte(frame: int, flags: set<Flag>)
  datatype Frame = Frame(usage: Usage, refs: int, data: Data)

  /** A virtual page of one address space, named by the frame of its top-level table. */
  datatype Loc = Loc(root: int, page: int)

  type Entries = map<Loc, Pte>
  datatype State = State(roots: set<int>, entries: Entries, frames: map<int, Frame>)

  predicate UserPage(v: int) { 0 <= v < USER_PAGES }

  /** All present entries, over all live spaces, that name frame `f`. */
  ghost function Refs(entries: Entries, f: int): set<Loc> {
    set l | l in entries && entries[l].frame == f
  }

  predicate Writable(pte: Pte) { Write in pte.flags }

  ghost predicate Mapped(s: State) {
    forall l :: l in s.entries ==> l.root in s.roots && UserPage(l.page) && s.entries[l].frame in s.frames
  }

  /** A frame's reference count is the number of present entries naming it. */
  ghost predicate Counted(s: State) {
    forall f :: f in s.frames ==> s.frames[f].refs == |Refs(s.entries, f)|
  }

  predicate PrivateWritable(s: State, l: Loc)
    requires l in s.entries && s.entries[l].frame in s.frames
  {
    Writable(s.entries[l]) && s.frames[s.entries[l].frame].usage == Private
  }

  /** A writable entry that names a private frame holds that frame's only reference. */
  ghost predicate Exclusive(s: State)
    requires Mapped(s)
  {
    forall l :: l in s.entries && PrivateWritable(s, l) ==> s.frames[s.entries[l].frame].refs == 1
  }

  ghost predicate Inv(s: State) {
    Mapped(s) && Counted(s) && Exclusive(s)
  }

  // ---------------------------------------------------------------- steps

  /** A fresh, empty space (process_init_thread, sys_fork). */
  function NewSpace(s: State, c: int): State {
    s.(roots := s.roots + {c})
  }

  /** Allocate a frame and map it at an unmapped page (one round of sys_mmap_anon). */
  function MapFresh(s: State, l: Loc, f: int, usage: Usage, flags: set<Flag>, d: Data): State {
    s.(entries := s.entries[l := Pte(f, flags)], frames := s.frames[f := Frame(usage, 1, d)])
  }

  /** Allocate a shared frame without mapping it (one round of sys_shmget). */
  function ShmGet(s: State, f: int, d: Data): State {
    s.(frames := s.frames[f := Frame(Shared, 0, d)])
  }

  function AddRef(frames: map<int, Frame>, f: int, delta: int): map<int, Frame>
    requires f in frames
  {
    frames[f := frames[f].(refs := frames[f].refs + delta)]
  }

  /** mm_map_single on an existing frame (one round of sys_shmat). */
  function MapFrame(s: State, l: Loc, pte: Pte): State
    requires pte.frame in s.frames
  {
    s.(entries := s.entries[l := pte], frames := AddRef(s.frames, pte.frame, 1))
  }

  /** mm_umap_single: remove one entry and drop its reference, keeping the frame. */
  function Unmap(s: State, l: Loc): State
    requires l in s.entries && s.entries[l].frame in s.frames
  {
    s.(entries := s.entries - {l}, frames := AddRef(s.frames, s.entries[l].frame, -1))
  }

  /** Unmap and free the frame once nothing refers to it (sys_munmap, mm_space_release);
      an unmapped page is skipped. */
  function Drop(s: State, l: Loc): State {
    if l in s.entries && s.entries[l].frame in s.frames then
      var f := s.entries[l].frame;
      var u := Unmap(s, l);
      if u.frames[f].refs == 0 then u.(frames := u.frames - {f}) else u
    else s
  }

  /** The entry that fork leaves in both spaces: a writable private page loses its write bit. */
  function Cow(frames: map<int, Frame>, pte: Pte): Pte
    requires pte.frame in frames
  {
    if Writable(pte) && frames[pte.frame].usage == Private
    then pte.(flags := pte.flags - {Write}) else pte
  }

  /** Fork's treatment of one page; an unmapped page is skipped. */
  function CloneOne(s: State, p: int, c: int, v: int): State {
    if Loc(p, v) in s.entries && s.entries[Loc(p, v)].frame in s.frames then
      var pte := Cow(s.frames, s.entries[Loc(p, v)]);
      s.(entries := s.entries[Loc(p, v) := pte][Loc(c, v) := pte], frames := AddRef(s.frames, pte.frame, 1))
    else s
  }

  /** The effect of mm_space_fork once every page below `k` has been visited. */
  ghost function ForkUpTo(s: State, p: int, c: int, k: nat): State {
    if k == 0 then s else CloneOne(ForkUpTo(s, p, c, k - 1), p, c, k - 1)
  }

  ghost function Fork(s: State, p: int, c: int): State {
    ForkUpTo(s, p, c, USER_PAGES)
  }

  /** The effect of mm_space_release once every page below `k` has been visited. */
  ghost function ReleaseUpTo(s: State, p: int, k: nat): State {
    if k == 0 then s else Drop(ReleaseUpTo(s, p, k - 1), Loc(p, k - 1))
  }

  ghost function Release(s: State, p: int): State {
    ReleaseUpTo(s, p, USER_PAGES)
  }

  // ---------------------------------------------------------------- what the folds compute

  ghost predicate Forkable(s: State, p: int, c: int) {
    p != c && p in s.roots && c in s.roots && Mapped(s) && forall v :: Loc(c, v) !in s.entries
  }

  /** What page `l` holds once fork has visited every page below `k`. */
  function Forked(s: State, p: int, c: int, k: int, l: Loc): Pte
    requires Mapped(s) && (l in s.entries || (l.root == c && Loc(p, l.page) in s.entries))
  {
    if l.root == c && Loc(p, l.page) in s.entries then Cow(s.frames, s.entries[Loc(p, l.page)])
    else if l.root == p && l.page < k then Cow(s.frames, s.entries[l])
    else s.entries[l]
  }

  ghost predicate ForkedTo(s: State, p: int, c: int, k: int, t: State)
    requires Forkable(s, p, c)
  {
    && t.roots == s.roots && t.frames.Keys == s.frames.Keys
    && (forall l :: l in t.entries <==> l in s.entries || (l.root == c && Loc(p, l.page) in s.entries && l.page < k))
    && (forall l :: l in t.entries ==> t.entries[l] == Forked(s, p, c, k, l))
    && (forall f :: f in s.frames ==> t.frames[f].usage == s.frames[f].usage && t.frames[f].data == s.frames[f].data)
  }

  lemma ForkStep(s: State, p: int, c: int, k: nat, t: State)
    requires Forkable(s, p, c) && ForkedTo(s, p, c, k, t)
    ensures ForkedTo(s, p, c, k + 1, CloneOne(t, p, c, k))
  {
    var t' := CloneOne(t, p, c, k);
    forall l ensures l in t'.entries <==> l in s.entries || (l.root == c && Loc(p, l.page) in s.entries && l.page < k + 1) {
      ForkStepAt(s, p, c, k, t, l);
    }
    forall l | l in t'.entries ensures t'.entries[l] == Forked(s, p, c, k + 1, l) { ForkStepAt(s, p, c, k, t, l); }
    hide Forked;
  }

  lemma ForkStepAt(s: State, p: int, c: int, k: nat, t: State, l: Loc)
    requires Forkable(s, p, c) && ForkedTo(s, p, c, k, t)
    ensures var t' := CloneOne(t, p, c, k);
      && (l in t'.entries <==> l in s.entries || (l.root == c && Loc(p, l.page) in s.entries && l.page < k + 1))
      && (l in t'.entries ==> t'.entries[l] == Forked(s, p, c, k + 1, l))
  {
    assert Loc(p, k) in t.entries <==> Loc(p, k) in s.entries;
  }

  lemma {:induction false} ForkForm(s: State, p: int, c: int, k: nat)
    requires Forkable(s, p, c)
    ensures ForkedTo(s, p, c, k, ForkUpTo(s, p, c, k))
  {
    if k > 0 {
      ForkForm(s, p, c, k - 1);
      ForkStep(s, p, c, k - 1, ForkUpTo(s, p, c, k - 1));
    }
  }

  ghost predicate ReleasedTo(s: State, p: int, k: int, t: State) {
    && t.roots == s.roots && t.frames.Keys <= s.frames.Keys
    && (forall l :: l in t.entries <==> l in s.entries && (l.root == p ==> l.page >= k))
    && (forall l :: l in t.entries ==> t.entries[l] == s.entries[l])
    && (forall f :: f in t.frames ==> t.frames[f].usage == s.frames[f].usage && t.frames[f].data == s.frames[f].data)
  }

  lemma {:induction false} ReleaseCounts(s: State, p: int, k: nat)
    requires Mapped(s) && Counted(s)
    ensures Mapped(ReleaseUpTo(s, p, k)) && Counted(ReleaseUpTo(s, p, k))
  {
    if k > 0 {
      ReleaseCounts(s, p, k - 1);
      DropCounts(ReleaseUpTo(s, p, k - 1), Loc(p, k - 1));
    }
  }

  lemma ReleaseStep(s: State, p: int, k: nat, t: State)
    requires Mapped(t) && ReleasedTo(s, p, k, t)
    ensures ReleasedTo(s, p, k + 1, Drop(t, Loc(p, k)))
  {
  }

  lemma {:induction false} ReleaseForm(s: State, p: int, k: nat)
    requires Mapped(s) && Counted(s)
    ensures ReleasedTo(s, p, k, ReleaseUpTo(s, p, k))
  {
    if k == 0 {
      assert forall l :: l in s.entries ==> l.page >= 0;
    } else {
      ReleaseForm(s, p, k - 1);
      ReleaseCounts(s, p, k - 1);
      ReleaseStep(s, p, k - 1, ReleaseUpTo(s, p, k - 1));
    }
  }

  // ---------------------------------------------------------------- reference sets

  lemma RefsPositive(s: State, l: Loc)
    requires Mapped(s) && Counted(s) && l in s.entries
    ensures s.frames[s.entries[l].frame].refs > 0
  {
    assert l in Refs(s.entries, s.entries[l].frame);
  }

  /** Adding an entry at an unmapped page adds one reference, to the named frame only. */
  lemma RefsAdd(entries: Entries, l: Loc, pte: Pte, f: int)
    requires l !in entries
    ensures |Refs(entries[l := pte], f)| == |Refs(entries, f)| + (if f == pte.frame then 1 else 0)
  {
    assert Refs(entries[l := pte], f) == if f == pte.frame then Refs(entries, f) + {l} else Refs(entries, f);
  }

  lemma RefsRemove(entries: Entries, l: Loc, f: int)
    requires l in entries
    ensures |Refs(entries - {l}, f)| == |Refs(entries, f)| - (if f == entries[l].frame then 1 else 0)
  {
    assert Refs(entries - {l}, f) == Refs(entries, f) - {l};
  }

  /** Changing only the flags of an entry changes no reference set. */
  lemma RefsReflag(entries: Entries, l: Loc, pte: Pte, f: int)
    requires l in entries && pte.frame == entries[l].frame
    ensures Refs(entries[l := pte], f) == Refs(entries, f)
  {
  }

  lemma OnlyRef(entries: Entries, f: int, a: Loc, b: Loc)
    requires a in Refs(entries, f) && b in Refs(entries, f) && |Refs(entries, f)| == 1
    ensures a == b
  {
    assert |Refs(entries, f) - {a}| == 0;
  }

  /** In every state that keeps the invariant, a writable entry to a private frame is the only
      entry, in any live space, that names the frame. */
  lemma WritableIsOnly(s: State, l: Loc, m: Loc)
    requires Inv(s) && l in s.entries && m in s.entries && PrivateWritable(s, l)
    requires s.entries[m].frame == s.entries[l].frame
    ensures l == m
  {
    OnlyRef(s.entries, s.entries[l].frame, l, m);
  }

  lemma DropCounts(s: State, l: Loc)
    requires Mapped(s) && Counted(s)
    ensures l in s.entries ==> Counted(Unmap(s, l)) && Mapped(Unmap(s, l))
    ensures Counted(Drop(s, l)) && Mapped(Drop(s, l))
  {
    if l !in s.entries { return; }
    var f := s.entries[l].frame;
    var u := Unmap(s, l);
    forall g | g in s.frames ensures u.frames[g].refs == |Refs(u.entries, g)| {
      RefsRemove(s.entries, l, g);
    }
    if u.frames[f].refs == 0 {
      assert Refs(u.entries, f) == {};
      forall m | m in u.entries ensures u.entries[m].frame != f {
        assert m !in Refs(u.entries, f);
      }
    }
  }

  // ---------------------------------------------------------------- every step keeps the invariant

  /** Unmapping undoes mapping. */
  lemma UnmapMapped(s: State, l: Loc, pte: Pte)
    requires l !in s.entries && pte.frame in s.frames
    ensures Unmap(MapFrame(s, l, pte), l) == s
  {
    var t := Unmap(MapFrame(s, l, pte), l);
    assert t.entries == s.entries;
    assert t.frames == s.frames;
  }

  lemma InvMapFresh(s: State, l: Loc, f: int, usage: Usage, flags: set<Flag>, d: Data)
    requires Inv(s) && l.root in s.roots && UserPage(l.page) && l !in s.entries && f !in s.frames
    ensures Inv(MapFresh(s, l, f, usage, flags, d))
  {
    assert Refs(s.entries, f) == {};
    var t := MapFresh(s, l, f, usage, flags, d);
    forall g | g in t.frames ensures t.frames[g].refs == |Refs(t.entries, g)| {
      RefsAdd(s.entries, l, Pte(f, flags), g);
    }
  }

  lemma InvShmGet(s: State, f: int, d: Data)
    requires Inv(s) && f !in s.frames
    ensures Inv(ShmGet(s, f, d))
  {
    assert Refs(s.entries, f) == {};
  }

  lemma InvMapFrame(s: State, l: Loc, pte: Pte)
    requires Inv(s) && l.root in s.roots && UserPage(l.page) && l !in s.entries
    requires pte.frame in s.frames && s.frames[pte.frame].usage != Private
    ensures Inv(MapFrame(s, l, pte))
  {
    var t := MapFrame(s, l, pte);
    forall g | g in t.frames ensures t.frames[g].refs == |Refs(t.entries, g)| {
      RefsAdd(s.entries, l, pte, g);
    }
  }

  lemma InvDrop(s: State, l: Loc)
    requires Inv(s)
    ensures Inv(Drop(s, l))
  {
    DropCounts(s, l);
    var t := Drop(s, l);
    forall m | m in t.entries && PrivateWritable(t, m) ensures t.frames[t.entries[m].frame].refs == 1 {
      if l in s.entries && s.entries[l].frame == s.entries[m].frame { WritableIsOnly(s, m, l); }
    }
  }

  lemma CloneCounts(s: State, p: int, c: int, v: int)
    requires Mapped(s) && Counted(s) && p != c && c in s.roots && Loc(c, v) !in s.entries
    ensures Mapped(CloneOne(s, p, c, v)) && Counted(CloneOne(s, p, c, v))
  {
    if Loc(p, v) !in s.entries { return; }
    var pte := Cow(s.frames, s.entries[Loc(p, v)]);
    var t := CloneOne(s, p, c, v);
    forall f | f in t.frames ensures t.frames[f].refs == |Refs(t.entries, f)| {
      RefsReflag(s.entries, Loc(p, v), pte, f);
      RefsAdd(s.entries[Loc(p, v) := pte], Loc(c, v), pte, f);
    }
  }

  lemma InvCloneOne(s: State, p: int, c: int, v: int)
    requires Inv(s) && p != c && c in s.roots && Loc(c, v) !in s.entries
    ensures Inv(CloneOne(s, p, c, v))
  {
    CloneCounts(s, p, c, v);
    if Loc(p, v) !in s.entries { return; }
    var t := CloneOne(s, p, c, v);
    forall l | l in t.entries && PrivateWritable(t, l) ensures t.frames[t.entries[l].frame].refs == 1 {
      assert l in s.entries && PrivateWritable(s, l);
      if s.entries[l].frame == s.entries[Loc(p, v)].frame { WritableIsOnly(s, l, Loc(p, v)); }
    }
  }

  /** Every intermediate state of fork keeps the invariant. */
  lemma {:induction false} InvForkUpTo(s: State, p: int, c: int, k: nat)
    requires Inv(s) && Forkable(s, p, c)
    ensures Inv(ForkUpTo(s, p, c, k))
  {
    if k > 0 {
      InvForkUpTo(s, p, c, k - 1);
      var t := ForkUpTo(s, p, c, k - 1);
      assert c in t.roots && Loc(c, k - 1) !in t.entries by { ForkForm(s, p, c, k - 1); }
      InvCloneOne(t, p, c, k - 1);
    }
  }

  lemma {:induction false} InvReleaseUpTo(s: State, p: int, k: nat)
    requires Inv(s)
    ensures Inv(ReleaseUpTo(s, p, k))
  {
    if k > 0 {
      InvReleaseUpTo(s, p, k - 1);
      InvDrop(ReleaseUpTo(s, p, k - 1), Loc(p, k - 1));
    }
  }

  /** Folds do not move over a stretch of unmapped pages: this is what lets the table loops
      skip an absent table. */
  lemma {:induction false} ForkSkip(s: State, p: int, c: int, a: nat, b: nat)
    requires Forkable(s, p, c) && a <= b
    requires forall v :: a <= v < b ==> Loc(p, v) !in s.entries
    ensures ForkUpTo(s, p, c, a) == ForkUpTo(s, p, c, b)
    decreases b
  {
    if a < b {
      ForkSkip(s, p, c, a, b - 1);
      ForkForm(s, p, c, b - 1);
    }
  }

  lemma {:induction false} ReleaseSkip(s: State, p: int, a: nat, b: nat)
    requires Mapped(s) && Counted(s) && a <= b
    requires forall v :: a <= v < b ==> Loc(p, v) !in s.entries
    ensures ReleaseUpTo(s, p, a) == ReleaseUpTo(s, p, b)
    decreases b
  {
    if a < b {
      ReleaseSkip(s, p, a, b - 1);
      ReleaseForm(s, p, b - 1);
    }
  }
}
