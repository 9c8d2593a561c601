/** The block index of a ramfs file: 32 direct slots, then 24 pages of 512 slots each. */
module RamIndex {
  import opened Memory
  import opened Sequences

  const L0 := 32
  const L1 := 24
  const PER_PAGE := 512
  const MAX_SLOTS := 12320
  const RAM_BLOCK := 512

  /** A pointer word: nothing, available for use, or available and holding an allocated page. */
  datatype Slot = Zero | Avail | Held(page: int)

  /** The L1 pages that n slots need. */
  function Tables(n: int): int { if n <= L0 then 0 else (n - L0 + PER_PAGE - 1) / PER_PAGE }

  lemma TablesStep(n: int)
    requires 0 <= n < MAX_SLOTS
    ensures Tables(n + 1) == if n >= L0 && Tables(n) == (n - L0) / PER_PAGE then Tables(n) + 1 else Tables(n)
    ensures 0 <= Tables(n) <= Tables(n + 1) <= L1
    ensures n >= L0 ==> 0 <= (n - L0) / PER_PAGE < Tables(n + 1)
  {
  }

  lemma TablesCover(k: int, n: int)
    requires 0 <= k < n <= MAX_SLOTS
    ensures 0 <= Tables(n) <= L1 && (k >= L0 ==> 0 <= (k - L0) / PER_PAGE < Tables(n))
  {
  }

  lemma TablesMono(k: int, n: int)
    requires 0 <= k <= n <= MAX_SLOTS
    ensures 0 <= Tables(k) <= Tables(n) <= L1
  {
  }

  ghost function SlotAt(l0: seq<Slot>, l1: seq<Option<int>>, tables: map<int, seq<Slot>>, k: int): Slot {
    if 0 <= k < |l0| then l0[k]
    else
      var i, j := (k - L0) / PER_PAGE, (k - L0) % PER_PAGE;
      if 0 <= i < |l1| && l1[i].Some? && l1[i].value in tables && j < |tables[l1[i].value]| then tables[l1[i].value][j] else Zero
  }

  /** The L1 pages in use are these, one for each stretch of slots below `cap`. */
  ghost predicate Paged(l0: seq<Slot>, l1: seq<Option<int>>, tables: map<int, seq<Slot>>, cap: int, tabs: seq<int>) {
    && 0 <= cap <= MAX_SLOTS && |l0| == L0 && |l1| == L1 && |tabs| == Tables(cap) <= L1 && Distinct(tabs)
    && (forall i :: 0 <= i < L1 ==> l1[i] == if i < |tabs| then Some(tabs[i]) else None)
    && (forall i :: 0 <= i < |tabs| ==> tabs[i] in tables && |tables[tabs[i]]| == PER_PAGE)
  }

  /** The slots below `cap` hold these pages, then are available; direct slots beyond are clear.
      Slots beyond `cap` inside an L1 page may hold anything. */
  ghost predicate Indexed(l0: seq<Slot>, l1: seq<Option<int>>, tables: map<int, seq<Slot>>, cap: int, blocks: seq<int>, tabs: seq<int>) {
    && Paged(l0, l1, tables, cap, tabs) && |blocks| <= cap
    && (forall k :: 0 <= k < cap ==> SlotAt(l0, l1, tables, k) == if k < |blocks| then Held(blocks[k]) else Avail)
    && (forall k :: cap <= k < L0 ==> l0[k] == Zero)
  }

  /** Storing into slot k, direct or in its L1 page. */
  function PutDirect(l0: seq<Slot>, k: int, v: Slot): seq<Slot>
    requires 0 <= k < |l0|
  {
    l0[k := v]
  }

  function PutTable(tables: map<int, seq<Slot>>, t: int, k: int, v: Slot): map<int, seq<Slot>>
    requires t in tables && k >= L0 && |tables[t]| == PER_PAGE
  {
    tables[t := tables[t][(k - L0) % PER_PAGE := v]]
  }

  lemma PutTableAt(l0: seq<Slot>, l1: seq<Option<int>>, tables: map<int, seq<Slot>>, cap: int, tabs: seq<int>, k: int, v: Slot, j: int)
    requires Paged(l0, l1, tables, cap, tabs) && L0 <= k < cap && 0 <= j < cap
    ensures 0 <= (k - L0) / PER_PAGE < |tabs|
    ensures var next := PutTable(tables, tabs[(k - L0) / PER_PAGE], k, v);
      Paged(l0, l1, next, cap, tabs) && SlotAt(l0, l1, next, j) == if j == k then v else SlotAt(l0, l1, tables, j)
  {
    TablesCover(k, cap);
    TablesCover(j, cap);
    var i := (k - L0) / PER_PAGE;
    assert l1[i] == Some(tabs[i]);
    if j >= L0 {
      var i' := (j - L0) / PER_PAGE;
      assert l1[i'] == Some(tabs[i']);
      assert i' != i ==> tabs[i'] != tabs[i];
      if i' == i && j != k { assert (j - L0) % PER_PAGE != (k - L0) % PER_PAGE; }
    }
  }

  /** The next slot beyond `cap` becomes available; a fresh L1 page has been added if it needed one. */
  lemma GrowDirect(l0: seq<Slot>, l1: seq<Option<int>>, tables: map<int, seq<Slot>>, cap: int, blocks: seq<int>, tabs: seq<int>)
    requires Indexed(l0, l1, tables, cap, blocks, tabs) && cap < L0
    ensures l0[cap] == Zero && Indexed(PutDirect(l0, cap, Avail), l1, tables, cap + 1, blocks, tabs)
  {
    var n := PutDirect(l0, cap, Avail);
    forall k | 0 <= k < cap + 1 ensures SlotAt(n, l1, tables, k) == if k < |blocks| then Held(blocks[k]) else Avail {
      if k < cap { assert SlotAt(l0, l1, tables, k) == if k < |blocks| then Held(blocks[k]) else Avail; }
    }
  }

  lemma AddTable(l0: seq<Slot>, l1: seq<Option<int>>, tables: map<int, seq<Slot>>, cap: int, blocks: seq<int>, tabs: seq<int>, t: int)
    requires Indexed(l0, l1, tables, cap, blocks, tabs) && L0 <= cap < MAX_SLOTS && (cap - L0) / PER_PAGE == |tabs| < L1 && t !in tabs
    ensures var l1', tables' := l1[|tabs| := Some(t)], tables[t := seq(PER_PAGE, _ => Zero)];
      && Paged(l0, l1', tables', cap + 1, tabs + [t])
      && forall k :: 0 <= k < cap ==> SlotAt(l0, l1', tables', k) == SlotAt(l0, l1, tables, k)
  {
    TablesStep(cap);
    var l1', tables' := l1[|tabs| := Some(t)], tables[t := seq(PER_PAGE, _ => Zero)];
    forall k | 0 <= k < cap ensures SlotAt(l0, l1', tables', k) == SlotAt(l0, l1, tables, k) {
      TablesCover(k, cap);
      if k >= L0 {
        var i := (k - L0) / PER_PAGE;
        assert l1[i] == Some(tabs[i]);
      }
    }
  }

  lemma GrowTable(l0: seq<Slot>, l1: seq<Option<int>>, tables: map<int, seq<Slot>>, cap: int, blocks: seq<int>, tabs: seq<int>)
    requires L0 <= cap < MAX_SLOTS && Paged(l0, l1, tables, cap + 1, tabs) && |blocks| <= cap
    requires forall k :: 0 <= k < cap ==> SlotAt(l0, l1, tables, k) == if k < |blocks| then Held(blocks[k]) else Avail
    ensures 0 <= (cap - L0) / PER_PAGE < |tabs|
    ensures Indexed(l0, l1, PutTable(tables, tabs[(cap - L0) / PER_PAGE], cap, Avail), cap + 1, blocks, tabs)
  {
    TablesCover(cap, cap + 1);
    var next := PutTable(tables, tabs[(cap - L0) / PER_PAGE], cap, Avail);
    PutTableAt(l0, l1, tables, cap + 1, tabs, cap, Avail, cap);
    forall k | 0 <= k < cap + 1 ensures SlotAt(l0, l1, next, k) == if k < |blocks| then Held(blocks[k]) else Avail {
      PutTableAt(l0, l1, tables, cap + 1, tabs, cap, Avail, k);
    }
  }

  lemma FillDirect(l0: seq<Slot>, l1: seq<Option<int>>, tables: map<int, seq<Slot>>, cap: int, blocks: seq<int>, tabs: seq<int>, p: int)
    requires Indexed(l0, l1, tables, cap, blocks, tabs) && |blocks| < cap && |blocks| < L0
    ensures l0[|blocks|] == Avail && Indexed(PutDirect(l0, |blocks|, Held(p)), l1, tables, cap, blocks + [p], tabs)
  {
    var n, k0 := PutDirect(l0, |blocks|, Held(p)), |blocks|;
    assert SlotAt(l0, l1, tables, k0) == Avail;
    forall k | 0 <= k < cap ensures SlotAt(n, l1, tables, k) == if k < |blocks + [p]| then Held((blocks + [p])[k]) else Avail {
      assert SlotAt(l0, l1, tables, k) == if k < |blocks| then Held(blocks[k]) else Avail;
    }
  }

  lemma FillTable(l0: seq<Slot>, l1: seq<Option<int>>, tables: map<int, seq<Slot>>, cap: int, blocks: seq<int>, tabs: seq<int>, p: int)
    requires Indexed(l0, l1, tables, cap, blocks, tabs) && L0 <= |blocks| < cap
    ensures 0 <= (|blocks| - L0) / PER_PAGE < |tabs|
    ensures var t := tabs[(|blocks| - L0) / PER_PAGE];
      && l1[(|blocks| - L0) / PER_PAGE] == Some(t) && tables[t][(|blocks| - L0) % PER_PAGE] == Avail
      && Indexed(l0, l1, PutTable(tables, t, |blocks|, Held(p)), cap, blocks + [p], tabs)
  {
    var k0 := |blocks|;
    TablesCover(k0, cap);
    var t := tabs[(k0 - L0) / PER_PAGE];
    assert l1[(k0 - L0) / PER_PAGE] == Some(t) && SlotAt(l0, l1, tables, k0) == Avail;
    var next := PutTable(tables, t, k0, Held(p));
    PutTableAt(l0, l1, tables, cap, tabs, k0, Held(p), k0);
    forall k | 0 <= k < cap ensures SlotAt(l0, l1, next, k) == if k < k0 + 1 then Held((blocks + [p])[k]) else Avail {
      PutTableAt(l0, l1, tables, cap, tabs, k0, Held(p), k);
    }
  }

  /** Slots count..i have been given up. */
  ghost predicate Shrinking(l0: seq<Slot>, l1: seq<Option<int>>, tables: map<int, seq<Slot>>, cap: int, blocks: seq<int>, tabs: seq<int>, count: int, i: int) {
    && Paged(l0, l1, tables, cap, tabs) && |blocks| == cap && 0 <= count <= i <= cap
    && (forall k :: 0 <= k < cap && (k < count || i <= k) ==> SlotAt(l0, l1, tables, k) == Held(blocks[k]))
    && (forall k :: 0 <= k < L0 && (count <= k < i || cap <= k) ==> l0[k] == Zero)
  }

  lemma ShrinkStep(l0: seq<Slot>, l1: seq<Option<int>>, tables: map<int, seq<Slot>>, cap: int, blocks: seq<int>, tabs: seq<int>, count: int, i: int)
    requires Shrinking(l0, l1, tables, cap, blocks, tabs, count, i) && i < cap
    ensures SlotAt(l0, l1, tables, i) == Held(blocks[i])
    ensures Shrinking(if i < L0 then PutDirect(l0, i, Zero) else l0, l1, tables, cap, blocks, tabs, count, i + 1)
  {
    var n := if i < L0 then PutDirect(l0, i, Zero) else l0;
    forall k | 0 <= k < cap && (k < count || i + 1 <= k) ensures SlotAt(n, l1, tables, k) == Held(blocks[k]) {
      assert SlotAt(l0, l1, tables, k) == Held(blocks[k]);
    }
  }

  /** L1 pages from..to have been dropped. */
  function DropTables(l1: seq<Option<int>>, from: int, to: int): seq<Option<int>> {
    seq(|l1|, i requires 0 <= i < |l1| => if from <= i < to then None else l1[i])
  }

  lemma ShrinkDone(l0: seq<Slot>, l1: seq<Option<int>>, tables: map<int, seq<Slot>>, cap: int, blocks: seq<int>, tabs: seq<int>, count: int)
    requires Shrinking(l0, l1, tables, cap, blocks, tabs, count, cap)
    ensures 0 <= Tables(count) <= |tabs|
    ensures Indexed(l0, DropTables(l1, Tables(count), |tabs|), tables - Items(tabs[Tables(count)..]), count, blocks[..count], tabs[..Tables(count)])
  {
    TablesMono(count, cap);
    var n := Tables(count);
    var l1', tables' := DropTables(l1, n, |tabs|), tables - Items(tabs[n..]);
    forall i | 0 <= i < n ensures tabs[i] !in Items(tabs[n..]) {}
    forall k | 0 <= k < count ensures SlotAt(l0, l1', tables', k) == Held(blocks[k]) {
      assert SlotAt(l0, l1, tables, k) == Held(blocks[k]);
      TablesCover(k, count);
      if k >= L0 { assert l1[(k - L0) / PER_PAGE] == Some(tabs[(k - L0) / PER_PAGE]); }
    }
  }
}
