/** The physical page allocator: one descriptor per frame, a free counter and one counter per
    usage.  The frames in `usable` are the ones the boot memory map handed to the allocator;
    all others stay marked allocated for ever. */
module PhysicalPages {
  import opened Memory
  import opened AddressSpaces

  const PHYS_MAX_PAGES := 262144
  const LOW_PAGE := 256
  const WORD := 0x1_0000_0000_0000_0000

  datatype Page = Page(alloc: bool, usage: Usage, refcount: int)

  ghost function FreeSet(pages: seq<Page>, usable: set<int>): set<int> {
    set i | i in usable && 0 <= i < |pages| && !pages[i].alloc
  }

  ghost function UsedSet(pages: seq<Page>, usable: set<int>, u: Usage): set<int> {
    set i | i in usable && 0 <= i < |pages| && pages[i].alloc && pages[i].usage == u
  }

  ghost predicate GoodPages(pages: seq<Page>, usable: set<int>) {
    && |pages| == PHYS_MAX_PAGES
    && (forall i :: i in usable ==> LOW_PAGE <= i < PHYS_MAX_PAGES)
    && (forall i :: 0 <= i < |pages| && i !in usable ==> pages[i].alloc)
    && (forall i :: i in usable && !pages[i].alloc ==> pages[i].usage == Unknown && pages[i].refcount == 0)
    && (forall i :: i in usable && pages[i].alloc ==> pages[i].usage != Unknown)
  }

  ghost predicate GoodCounts(pages: seq<Page>, usable: set<int>, free: int, counts: map<Usage, int>) {
    && free == |FreeSet(pages, usable)|
    && (forall u :: u in counts && counts[u] == |UsedSet(pages, usable, u)|)
  }

  /** The window of `count` frames from `i` is entirely free. */
  predicate FreeRun(pages: seq<Page>, i: int, count: int)
    requires 0 <= i && 0 <= count && i + count <= |pages|
  {
    forall j :: i <= j < i + count ==> !pages[j].alloc
  }

  /** `pages` after `n` frames from `i` were handed out for usage `u`. */
  function Taken(pages: seq<Page>, i: int, n: int, u: Usage): seq<Page>
    requires 0 <= i && 0 <= n && i + n <= |pages|
  {
    seq(|pages|, j requires 0 <= j < |pages| => if i <= j < i + n then pages[j].(alloc := true, usage := u) else pages[j])
  }

  class Allocator {
    const usable: set<int>
    var pages: seq<Page>
    var pagesFree: int
    var allocPages: map<Usage, int>

    ghost predicate Valid()
      reads this
    {
      GoodPages(pages, usable) && GoodCounts(pages, usable, pagesFree, allocPages)
    }

    /** The state left by amd64_phys_memory_map. */
    constructor (usable: set<int>)
      requires forall i :: i in usable ==> LOW_PAGE <= i < PHYS_MAX_PAGES
      ensures Valid() && this.usable == usable && FreeSet(pages, usable) == usable
    {
      this.usable := usable;
      pages := seq(PHYS_MAX_PAGES, i =>
        if i in usable then Page(false, Unknown, 0) else Page(true, Unknown, 0xFFFF_FFFF_FFFF_FFFF));
      pagesFree := |usable|;
      allocPages := map[Unknown := 0, Private := 0, Shared := 0, Device := 0, Kernel := 0, Paging := 0, Cache := 0];
      new;
      assert FreeSet(pages, usable) == usable;
      forall u: Usage ensures u in allocPages && allocPages[u] == |UsedSet(pages, usable, u)| {
        assert UsedSet(pages, usable, u) == {};
        match u { case Unknown => case Private => case Shared => case Device => case Kernel => case Paging => case Cache => }
      }
    }

    /** mm_phys_alloc_page: the lowest free frame, or nothing when none is free. */
    method AllocPage(pu: Usage) returns (r: Option<int>)
      requires Valid() && pu != Unknown
      modifies this
      ensures Valid()
      ensures r.None? ==> FreeSet(old(pages), usable) == {} && unchanged(this)
      ensures r.Some? ==> r.value in FreeSet(old(pages), usable) && pages == old(pages)[r.value := Page(true, pu, 0)]
      ensures r.Some? ==> forall i :: i in FreeSet(old(pages), usable) ==> r.value <= i
    {
      for i := LOW_PAGE to PHYS_MAX_PAGES
        invariant unchanged(this)
        invariant forall j :: LOW_PAGE <= j < i ==> pages[j].alloc
      {
        if !pages[i].alloc {
          assert pages[i].usage == Unknown && pages[i].refcount == 0;
          TakeCounts(pages, usable, i, pu, pagesFree, allocPages);
          pages := pages[i := pages[i].(alloc := true, usage := pu)];
          allocPages := allocPages[pu := allocPages[pu] + 1];
          assert pagesFree > 0;
          pagesFree := pagesFree - 1;
          return Some(i);
        }
      }
      return None;
    }

    /** mm_phys_free_page. */
    method FreePage(i: int)
      requires Valid() && i in usable && pages[i].alloc && pages[i].refcount == 0
      modifies this
      ensures Valid() && pages == old(pages)[i := Page(false, Unknown, 0)]
    {
      GiveCounts(pages, usable, i, pagesFree, allocPages);
      assert allocPages[pages[i].usage] > 0;
      allocPages := allocPages[pages[i].usage := allocPages[pages[i].usage] - 1];
      pagesFree := pagesFree + 1;
      pages := pages[i := pages[i].(alloc := false, usage := Unknown)];
    }

    /** Adjust the reference count of an allocated frame. */
    method AddRefcount(i: int, delta: int)
      requires Valid() && i in usable && pages[i].alloc
      modifies this`pages
      ensures Valid() && pages == old(pages)[i := old(pages)[i].(refcount := old(pages)[i].refcount + delta)]
    {
      ghost var was := pages;
      pages := pages[i := pages[i].(refcount := pages[i].refcount + delta)];
      assert FreeSet(pages, usable) == FreeSet(was, usable);
      forall u ensures UsedSet(pages, usable, u) == UsedSet(was, usable, u) {}
    }

    /** mm_phys_alloc_contiguous: the lowest window of `count` free frames; the very last window of
        the frame array is never considered.  For more frames than there are the loop bound wraps,
        and the scan leaves the array whatever it holds. */
    method AllocContiguous(count: int, pu: Usage) returns (r: Option<int>, inside: bool)
      requires Valid() && 0 <= count < WORD && pu != Unknown
      modifies this
      ensures Valid() && (inside <==> count <= PHYS_MAX_PAGES)
      ensures r.None? ==> unchanged(this)
      ensures inside && r.None? ==> forall i :: LOW_PAGE <= i < PHYS_MAX_PAGES - count ==> !FreeRun(old(pages), i, count)
      ensures r.Some? ==> inside && LOW_PAGE <= r.value < PHYS_MAX_PAGES - count && FreeRun(old(pages), r.value, count)
      ensures r.Some? ==> forall i :: LOW_PAGE <= i < r.value ==> !FreeRun(old(pages), i, count)
      ensures r.Some? ==> pages == Taken(old(pages), r.value, count, pu)
    {
      var i, bound := LOW_PAGE, (PHYS_MAX_PAGES - count) % WORD;
      assert bound == if count <= PHYS_MAX_PAGES then PHYS_MAX_PAGES - count else WORD + PHYS_MAX_PAGES - count;
      while i < bound
        invariant unchanged(this) && LOW_PAGE <= i <= PHYS_MAX_PAGES
        invariant forall k :: LOW_PAGE <= k < i && k < PHYS_MAX_PAGES - count ==> !FreeRun(pages, k, count)
      {
        var j := 0;
        while j < count && i + j < PHYS_MAX_PAGES && !pages[i + j].alloc
          invariant 0 <= j <= count && i + j <= PHYS_MAX_PAGES && FreeRun(pages, i, j)
        {
          j := j + 1;
        }
        if j == count {
          TakeRun(i, count, pu);
          return Some(i), true;
        }
        if i + j == PHYS_MAX_PAGES { return None, false; }
        i := i + 1;
      }
      return None, true;
    }

    /** The marking loop of mm_phys_alloc_contiguous. */
    method TakeRun(i: int, count: int, pu: Usage)
      requires Valid() && pu != Unknown && LOW_PAGE <= i && 0 <= count && i + count <= PHYS_MAX_PAGES
      requires FreeRun(pages, i, count)
      modifies this
      ensures Valid() && pages == Taken(old(pages), i, count, pu)
    {
      var j := 0;
      assert pages == Taken(pages, i, 0, pu);
      while j < count
        invariant 0 <= j <= count && Valid() && pages == Taken(old(pages), i, j, pu)
      {
        TakeCounts(pages, usable, i + j, pu, pagesFree, allocPages);
        pages := pages[i + j := pages[i + j].(alloc := true, usage := pu)];
        allocPages := allocPages[pu := allocPages[pu] + 1];
        pagesFree := pagesFree - 1;
        j := j + 1;
      }
    }
  }

  predicate AtEnd(i: int, count: int) { PHYS_MAX_PAGES - count <= i }

  /** With only the last `count` frames free, the window that they are is never found. */
  method LastWindow(count: int, pu: Usage) returns (a: Allocator, r: Option<int>)
    requires 0 < count <= PHYS_MAX_PAGES - LOW_PAGE && pu != Unknown
    ensures fresh(a) && a.Valid() && FreeRun(a.pages, PHYS_MAX_PAGES - count, count) && r == None
  {
    a := new Allocator(set i | 0 <= i < PHYS_MAX_PAGES && AtEnd(i, count));
    ghost var was := a.pages;
    forall j | 0 <= j < |was| ensures was[j].alloc <==> j < PHYS_MAX_PAGES - count {
      assert j in FreeSet(was, a.usable) <==> AtEnd(j, count);
    }
    forall i | LOW_PAGE <= i < PHYS_MAX_PAGES - count ensures !FreeRun(was, i, count) { assert was[i].alloc; }
    var inside;
    r, inside := a.AllocContiguous(count, pu);
  }

  lemma TakeCounts(pages: seq<Page>, usable: set<int>, i: int, u: Usage, free: int, counts: map<Usage, int>)
    requires GoodPages(pages, usable) && GoodCounts(pages, usable, free, counts)
    requires 0 <= i < |pages| && !pages[i].alloc && u != Unknown
    ensures free > 0
    ensures var after := pages[i := pages[i].(alloc := true, usage := u)];
      GoodPages(after, usable) && GoodCounts(after, usable, free - 1, counts[u := counts[u] + 1])
  {
    TakeGood(pages, usable, i, u);
    TakeSets(pages, usable, i, u);
    hide FreeSet, UsedSet, GoodPages;
  }

  lemma TakeGood(pages: seq<Page>, usable: set<int>, i: int, u: Usage)
    requires GoodPages(pages, usable) && 0 <= i < |pages| && !pages[i].alloc && u != Unknown
    ensures GoodPages(pages[i := pages[i].(alloc := true, usage := u)], usable)
  {
  }

  lemma TakeSets(pages: seq<Page>, usable: set<int>, i: int, u: Usage)
    requires GoodPages(pages, usable) && 0 <= i < |pages| && !pages[i].alloc && u != Unknown
    ensures var after := pages[i := pages[i].(alloc := true, usage := u)];
      && i in FreeSet(pages, usable) && FreeSet(after, usable) == FreeSet(pages, usable) - {i}
      && i !in UsedSet(pages, usable, u) && UsedSet(after, usable, u) == UsedSet(pages, usable, u) + {i}
      && forall w :: w != u ==> UsedSet(after, usable, w) == UsedSet(pages, usable, w)
  {
    var after := pages[i := pages[i].(alloc := true, usage := u)];
    forall w | w != u ensures UsedSet(after, usable, w) == UsedSet(pages, usable, w) {}
  }

  lemma GiveCounts(pages: seq<Page>, usable: set<int>, i: int, free: int, counts: map<Usage, int>)
    requires GoodPages(pages, usable) && GoodCounts(pages, usable, free, counts)
    requires i in usable && pages[i].alloc && pages[i].refcount == 0
    ensures counts[pages[i].usage] > 0
    ensures var after := pages[i := pages[i].(alloc := false, usage := Unknown)];
      GoodPages(after, usable) &&
      GoodCounts(after, usable, free + 1, counts[pages[i].usage := counts[pages[i].usage] - 1])
  {
    var u := pages[i].usage;
    var after := pages[i := pages[i].(alloc := false, usage := Unknown)];
    assert i in UsedSet(pages, usable, u);
    assert FreeSet(after, usable) == FreeSet(pages, usable) + {i};
    assert UsedSet(after, usable, u) == UsedSet(pages, usable, u) - {i};
    forall w | w != u ensures |UsedSet(after, usable, w)| == |UsedSet(pages, usable, w)| {
      assert UsedSet(after, usable, w) == UsedSet(pages, usable, w);
    }
  }

  const USAGES: seq<Usage> := [Private, Shared, Device, Kernel, Paging, Cache]

  function Total(counts: map<Usage, int>, us: seq<Usage>): int
    requires forall u :: u in us ==> u in counts
  {
    if us == [] then 0 else counts[us[0]] + Total(counts, us[1..])
  }

  ghost function InUse(pages: seq<Page>, usable: set<int>, us: seq<Usage>): set<int> {
    set i | i in usable && 0 <= i < |pages| && pages[i].alloc && pages[i].usage in us
  }

  lemma {:induction false} TotalIsInUse(pages: seq<Page>, usable: set<int>, counts: map<Usage, int>, us: seq<Usage>)
    requires forall u :: u in counts && counts[u] == |UsedSet(pages, usable, u)|
    requires forall i, j :: 0 <= i < j < |us| ==> us[i] != us[j]
    ensures Total(counts, us) == |InUse(pages, usable, us)|
  {
    if us == [] {
      assert InUse(pages, usable, us) == {};
    } else {
      TotalIsInUse(pages, usable, counts, us[1..]);
      assert us[0] !in us[1..];
      assert InUse(pages, usable, us) == UsedSet(pages, usable, us[0]) + InUse(pages, usable, us[1..]);
    }
  }

  /** Conservation: in every valid state, the free pages and the allocator's counts of each usage
      add up to the number of pages found at boot. */
  lemma CountsConserved(pages: seq<Page>, usable: set<int>, free: int, counts: map<Usage, int>)
    requires GoodPages(pages, usable) && GoodCounts(pages, usable, free, counts)
    ensures free + Total(counts, USAGES) == |usable|
  {
    TotalIsInUse(pages, usable, counts, USAGES);
    forall u: Usage | u != Unknown ensures u in USAGES {
      assert u in [Private, Shared, Device, Kernel, Paging, Cache];
    }
    assert usable == FreeSet(pages, usable) + InUse(pages, usable, USAGES);
  }
}
