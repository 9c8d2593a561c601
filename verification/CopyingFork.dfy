/** The branch of mm_space_fork that copies: a writable private page gets a frame of its own in
    the child and keeps its write bit, every other page is shared.  It is compiled out in favour
    of copy-on-write, and is the reference that copy-on-write has to live up to. */
module CopyingFork {
  import opened AddressSpaces

  /** Page `v` of process `p` is one that the branch copies. */
  ghost predicate Copies(s: State, p: int, v: int)
    requires Mapped(s)
  {
    Loc(p, v) in s.entries && PrivateWritable(s, Loc(p, v))
  }

  /** What the allocator returns for each copied page: unused frames, no frame twice. */
  ghost predicate Spares(s: State, p: int, spare: map<int, int>)
    requires Mapped(s)
  {
    && (forall v :: Copies(s, p, v) ==> v in spare && spare[v] !in s.frames)
    && (forall v, w :: v in spare && w in spare && spare[v] == spare[w] ==> v == w)
  }

  /** The branch's treatment of one page; an unmapped page is skipped. */
  function CopyOne(s: State, p: int, c: int, spare: map<int, int>, v: int): State {
    if Loc(p, v) in s.entries && s.entries[Loc(p, v)].frame in s.frames then
      var pte := s.entries[Loc(p, v)];
      if !PrivateWritable(s, Loc(p, v)) then MapFrame(s, Loc(c, v), pte)
      else if v in spare then MapFresh(s, Loc(c, v), spare[v], Private, pte.flags, s.frames[pte.frame].data)
      else s
    else s
  }

  ghost function CopyUpTo(s: State, p: int, c: int, spare: map<int, int>, k: nat): State {
    if k == 0 then s else CopyOne(CopyUpTo(s, p, c, spare, k - 1), p, c, spare, k - 1)
  }

  ghost function CopyFork(s: State, p: int, c: int, spare: map<int, int>): State {
    CopyUpTo(s, p, c, spare, USER_PAGES)
  }

  // ---------------------------------------------------------------- what the fold computes

  /** The child's entry for a mapped page of its parent. */
  ghost function CopyOf(s: State, p: int, spare: map<int, int>, v: int): Pte
    requires Mapped(s) && Spares(s, p, spare) && Loc(p, v) in s.entries
  {
    if Copies(s, p, v) then s.entries[Loc(p, v)].(frame := spare[v]) else s.entries[Loc(p, v)]
  }

  /** Frame `f` was allocated for one of the pages below `k`. */
  ghost predicate Taken(s: State, p: int, spare: map<int, int>, k: int, f: int)
    requires Mapped(s) && Spares(s, p, spare)
  {
    exists v :: v < k && Copies(s, p, v) && spare[v] == f
  }

  ghost predicate CopiedEntries(s: State, p: int, c: int, spare: map<int, int>, k: int, entries: Entries)
    requires Forkable(s, p, c) && Spares(s, p, spare)
  {
    && (forall l :: l in entries <==> l in s.entries || (l.root == c && Loc(p, l.page) in s.entries && l.page < k))
    && (forall l :: l in s.entries ==> entries[l] == s.entries[l])
    && (forall v :: Loc(c, v) in entries ==> entries[Loc(c, v)] == CopyOf(s, p, spare, v))
  }

  ghost predicate CopiedFrames(s: State, p: int, spare: map<int, int>, k: int, frames: map<int, Frame>)
    requires Mapped(s) && Spares(s, p, spare)
  {
    && (forall f :: f in frames <==> f in s.frames || Taken(s, p, spare, k, f))
    && (forall f :: f in s.frames ==> frames[f].usage == s.frames[f].usage && frames[f].data == s.frames[f].data)
    && (forall v :: v < k && Copies(s, p, v) ==> CopiedFrame(s, p, spare, v, frames))
  }

  ghost predicate CopiedFrame(s: State, p: int, spare: map<int, int>, v: int, frames: map<int, Frame>)
    requires Mapped(s) && Spares(s, p, spare) && Copies(s, p, v)
  {
    && spare[v] in frames && frames[spare[v]].usage == Private
    && frames[spare[v]].data == s.frames[s.entries[Loc(p, v)].frame].data
  }

  /** What the fold leaves once every page below `k` has been visited. */
  ghost predicate CopiedTo(s: State, p: int, c: int, spare: map<int, int>, k: int, t: State)
    requires Forkable(s, p, c) && Spares(s, p, spare)
  {
    t.roots == s.roots && CopiedEntries(s, p, c, spare, k, t.entries) && CopiedFrames(s, p, spare, k, t.frames)
  }

  lemma TakenStep(s: State, p: int, spare: map<int, int>, k: int, f: int)
    requires Mapped(s) && Spares(s, p, spare)
    ensures Taken(s, p, spare, k + 1, f) <==> Taken(s, p, spare, k, f) || (Copies(s, p, k) && spare[k] == f)
  {
  }

  /** What one page's treatment does, read in the state before the fork. */
  lemma CopyOneForm(s: State, p: int, c: int, spare: map<int, int>, k: nat, t: State)
    requires Forkable(s, p, c) && Spares(s, p, spare) && CopiedTo(s, p, c, spare, k, t)
    ensures CopyOne(t, p, c, spare, k) ==
            if Loc(p, k) !in s.entries then t
            else if Copies(s, p, k)
            then MapFresh(t, Loc(c, k), spare[k], Private, s.entries[Loc(p, k)].flags, s.frames[s.entries[Loc(p, k)].frame].data)
            else MapFrame(t, Loc(c, k), s.entries[Loc(p, k)])
    ensures Copies(s, p, k) ==> spare[k] !in t.frames
  {
    assert Loc(p, k) in t.entries <==> Loc(p, k) in s.entries;
  }

  lemma EntriesStep(s: State, p: int, c: int, spare: map<int, int>, k: nat, entries: Entries)
    requires Forkable(s, p, c) && Spares(s, p, spare) && CopiedEntries(s, p, c, spare, k, entries)
    ensures CopiedEntries(s, p, c, spare, k + 1, if Loc(p, k) in s.entries then entries[Loc(c, k) := CopyOf(s, p, spare, k)] else entries)
  {
    hide CopyOf, Spares, Mapped;
  }

  lemma FramesFresh(s: State, p: int, spare: map<int, int>, k: nat, frames: map<int, Frame>)
    requires Mapped(s) && Spares(s, p, spare) && CopiedFrames(s, p, spare, k, frames) && Copies(s, p, k) && spare[k] !in frames
    ensures CopiedFrames(s, p, spare, k + 1, frames[spare[k] := Frame(Private, 1, s.frames[s.entries[Loc(p, k)].frame].data)])
  {
    var after := frames[spare[k] := Frame(Private, 1, s.frames[s.entries[Loc(p, k)].frame].data)];
    forall f ensures f in after <==> f in s.frames || Taken(s, p, spare, k + 1, f) { TakenStep(s, p, spare, k, f); }
    forall v | v < k + 1 && Copies(s, p, v) ensures CopiedFrame(s, p, spare, v, after) {}
  }

  lemma FramesShared(s: State, p: int, spare: map<int, int>, k: nat, frames: map<int, Frame>, after: map<int, Frame>)
    requires Mapped(s) && Spares(s, p, spare) && CopiedFrames(s, p, spare, k, frames) && !Copies(s, p, k)
    requires after.Keys == frames.Keys
    requires forall f :: f in frames ==> after[f].usage == frames[f].usage && after[f].data == frames[f].data
    ensures CopiedFrames(s, p, spare, k + 1, after)
  {
    forall f ensures Taken(s, p, spare, k + 1, f) <==> Taken(s, p, spare, k, f) { TakenStep(s, p, spare, k, f); }
    hide Taken;
  }

  lemma CopyStep(s: State, p: int, c: int, spare: map<int, int>, k: nat, t: State)
    requires Forkable(s, p, c) && Spares(s, p, spare) && CopiedTo(s, p, c, spare, k, t)
    ensures CopiedTo(s, p, c, spare, k + 1, CopyOne(t, p, c, spare, k))
  {
    CopyOneForm(s, p, c, spare, k, t);
    EntriesStep(s, p, c, spare, k, t.entries);
    if Copies(s, p, k) { FramesFresh(s, p, spare, k, t.frames); }
    else { FramesShared(s, p, spare, k, t.frames, CopyOne(t, p, c, spare, k).frames); }
    hide CopyOne, CopiedEntries, CopiedFrames, Spares;
  }

  lemma NothingCopied(s: State, p: int, c: int, spare: map<int, int>)
    requires Forkable(s, p, c) && Spares(s, p, spare)
    ensures CopiedTo(s, p, c, spare, 0, s)
  {
    assert forall l :: l in s.entries ==> l.page >= 0;
  }

  lemma {:induction false} CopyForm(s: State, p: int, c: int, spare: map<int, int>, k: nat)
    requires Forkable(s, p, c) && Spares(s, p, spare)
    ensures CopiedTo(s, p, c, spare, k, CopyUpTo(s, p, c, spare, k))
  {
    hide CopyOne, CopiedTo, Spares, Forkable, Mapped;
    if k == 0 {
      NothingCopied(s, p, c, spare);
    } else {
      CopyForm(s, p, c, spare, k - 1);
      CopyStep(s, p, c, spare, k - 1, CopyUpTo(s, p, c, spare, k - 1));
    }
  }

  // ---------------------------------------------------------------- the invariant

  /** Sharing an entry that is not both writable and private. */
  lemma InvShare(s: State, l: Loc, m: Loc)
    requires Inv(s) && m in s.entries && !PrivateWritable(s, m) && l.root in s.roots && UserPage(l.page) && l !in s.entries
    ensures Inv(MapFrame(s, l, s.entries[m]))
  {
    var pte := s.entries[m];
    var t := MapFrame(s, l, pte);
    forall g | g in t.frames ensures t.frames[g].refs == |Refs(t.entries, g)| { RefsAdd(s.entries, l, pte, g); }
    forall n | n in t.entries && PrivateWritable(t, n) ensures t.frames[t.entries[n].frame].refs == 1 {
      if n != l && s.entries[n].frame == pte.frame { WritableIsOnly(s, n, m); }
    }
  }

  lemma InvCopyOne(s: State, p: int, c: int, spare: map<int, int>, v: nat, t: State)
    requires Forkable(s, p, c) && Spares(s, p, spare) && CopiedTo(s, p, c, spare, v, t) && Inv(t) && v < USER_PAGES
    ensures Inv(CopyOne(t, p, c, spare, v))
  {
    CopyOneForm(s, p, c, spare, v, t);
    ChildFree(s, p, c, spare, v, t);
    hide CopyOne, CopiedTo, Spares, Counted, Exclusive;
    if Loc(p, v) in s.entries {
      var pte := s.entries[Loc(p, v)];
      if Copies(s, p, v) { InvMapFresh(t, Loc(c, v), spare[v], Private, pte.flags, s.frames[pte.frame].data); }
      else { InvShare(t, Loc(c, v), Loc(p, v)); }
    }
  }

  lemma ChildFree(s: State, p: int, c: int, spare: map<int, int>, v: nat, t: State)
    requires Forkable(s, p, c) && Spares(s, p, spare) && CopiedTo(s, p, c, spare, v, t) && Mapped(t)
    ensures c in t.roots && Loc(c, v) !in t.entries
    ensures Loc(p, v) in s.entries ==>
      && Loc(p, v) in t.entries && t.entries[Loc(p, v)] == s.entries[Loc(p, v)]
      && PrivateWritable(t, Loc(p, v)) == Copies(s, p, v)
  {
    assert Loc(c, v).page == v;
  }

  /** Every intermediate state of the copying fork keeps the invariant. */
  lemma {:induction false} InvCopyUpTo(s: State, p: int, c: int, spare: map<int, int>, k: nat)
    requires Inv(s) && Forkable(s, p, c) && Spares(s, p, spare) && k <= USER_PAGES
    ensures Inv(CopyUpTo(s, p, c, spare, k))
  {
    hide CopyOne, CopiedTo, Spares, Forkable, Counted, Exclusive;
    if k > 0 {
      InvCopyUpTo(s, p, c, spare, k - 1);
      CopyForm(s, p, c, spare, k - 1);
      InvCopyOne(s, p, c, spare, k - 1, CopyUpTo(s, p, c, spare, k - 1));
    }
  }
}
