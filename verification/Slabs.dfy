/** The slab allocator: one page per slab with a descriptor, an array of free-list links and the
    objects, kept on a list of partly used or of full slabs. */
module Slabs {
  import opened Memory
  import opened KernelPages
  import opened Sequences
  import P = PhysicalPages

  const SLAB_HEADER := 40
  const LINK := 4
  const END := 0xFFFF_FFFF
  const WORD := 0x1_0000_0000_0000_0000

  // ---------------------------------------------------------------- layout

  /** slab_init_cache: the objects that fit behind the descriptor, less those that the links take
      the room of; the difference wraps. */
  function PerSlab(size: int): (n: int)
    requires size > 0
    ensures 0 <= n < WORD
  {
    (Whole(size) - Room(Whole(size) * LINK, size)) % WORD
  }

  function Whole(size: int): int
    requires size > 0
  {
    (PAGE_SIZE - SLAB_HEADER) / size
  }

  /** Objects whose room `bytes` bytes take. */
  function Room(bytes: int, size: int): int
    requires size > 0
  {
    (bytes + size - 1) / size
  }

  /** Where slab_create puts the first object: after the links, rounded up to 8 bytes. */
  function Base(n: int): int { (SLAB_HEADER + LINK * n + 7) / 8 * 8 }

  lemma DivBounds(a: int, d: int)
    requires d > 0
    ensures a / d * d <= a < a / d * d + d
  {
  }

  lemma RoomBounds(a: int, d: int)
    requires d > 0 && a >= 0
    ensures a <= Room(a, d) * d < a + d && Room(a, d) >= 0
  {
    DivBounds(a + d - 1, d);
  }

  lemma WholeBounds(size: int)
    requires size > 0
    ensures Whole(size) * size <= PAGE_SIZE - SLAB_HEADER < Whole(size) * size + size && 0 <= Whole(size) <= PAGE_SIZE
  {
    DivBounds(PAGE_SIZE - SLAB_HEADER, size);
    DivRange(PAGE_SIZE - SLAB_HEADER, size);
  }

  lemma DivRange(a: int, d: int)
    requires a >= 0 && d > 0
    ensures 0 <= a / d <= a
  {
    var q := a / d;
    DivBounds(a, d);
    PositiveFactor(q + 1, d);
    MulMono(1, d, q);
  }

  lemma PositiveFactor(x: int, d: int)
    requires d > 0 && x * d > 0
    ensures x > 0
  {
    if x <= 0 { MulMono(x, 0, d); }
  }

  /** From four bytes up the subtraction does not wrap. */
  lemma PerSlabIs(size: int)
    requires size >= LINK
    ensures PerSlab(size) == Whole(size) - Room(Whole(size) * LINK, size)
  {
    hide Whole, Room;
    var all := Whole(size);
    WholeBounds(size);
    RoomBounds(all * LINK, size);
    MulMono(LINK, size, all);
    if Room(all * LINK, size) > all { MulMono(all + 1, Room(all * LINK, size), size); }
  }

  /** Below it does, and the slab would have far more objects than bytes. */
  lemma PerSlabWraps(size: int)
    requires 0 < size < LINK
    ensures PerSlab(size) > PAGE_SIZE
  {
    if size == 1 {
      assert PerSlab(1) == (4056 - 16224) % WORD;
    } else if size == 2 {
      assert PerSlab(2) == (2028 - 4056) % WORD;
    } else {
      assert PerSlab(3) == (1352 - 1803) % WORD;
    }
  }

  ghost predicate Fitting(size: int)
    requires size > 0
  {
    var n := PerSlab(size);
    n >= 1 && SLAB_HEADER + LINK * n <= Base(n) && Base(n) % 8 == 0 && Base(n) + n * size <= PAGE_SIZE
  }

  /** Descriptor, links, padding and objects fit in the page for every object size that yields an
      object without wrapping. */
  lemma LayoutFits(size: int)
    requires LINK <= size && PerSlab(size) >= 1
    ensures Fitting(size)
  {
    hide PerSlab, Base, Whole, Room;
    var all, n := Whole(size), PerSlab(size);
    var q := Room(all * LINK, size);
    PerSlabIs(size);
    WholeBounds(size);
    RoomBounds(all * LINK, size);
    MulSub(all, q, size);
    assert n * size == all * size - q * size;
    assert q > 0;
    RoundUp(n);
  }

  /** The layout works for object sizes from 5 to 2028 bytes and for no others. */
  lemma LayoutFitsIff(size: int)
    requires size > 0
    ensures Fitting(size) <==> 5 <= size <= 2028
  {
    if size < LINK {
      PerSlabWraps(size);
      TooMany(size);
    } else if size == LINK {
      assert PerSlab(4) == 1014 - 1014;
    } else if size <= 2028 {
      SomeFit(size);
      LayoutFits(size);
    } else {
      NoneFit(size);
    }
  }

  lemma TooMany(size: int)
    requires size > 0 && PerSlab(size) > PAGE_SIZE
    ensures !Fitting(size)
  {
    hide PerSlab, Base;
    RoundUp(PerSlab(size));
    MulMono(1, size, PerSlab(size));
  }

  lemma SomeFit(size: int)
    requires LINK < size <= 2028
    ensures PerSlab(size) >= 1
  {
    hide Whole, Room, PerSlab;
    PerSlabIs(size);
    WholeBounds(size);
    var all := Whole(size);
    if all < 2 { MulMono(all, 1, size); }
    RoomBounds(all * LINK, size);
    LinksAreSmaller(all, size);
    if Room(all * LINK, size) >= all { MulMono(all, Room(all * LINK, size), size); }
  }

  lemma LinksAreSmaller(all: int, size: int)
    requires LINK < size && all >= 2 && all * size + size > PAGE_SIZE - SLAB_HEADER
    ensures all * size >= all * LINK + size
  {
    if size >= 8 {
      MulMono(2, all, size - LINK);
      MulSub(size, LINK, all);
    } else if size == 5 {
      assert all * 5 + 5 > PAGE_SIZE - SLAB_HEADER;
    } else if size == 6 {
      assert all * 6 + 6 > PAGE_SIZE - SLAB_HEADER;
    } else {
      assert all * 7 + 7 > PAGE_SIZE - SLAB_HEADER;
    }
  }

  lemma NoneFit(size: int)
    requires size > 2028
    ensures PerSlab(size) < 1
  {
    PerSlabIs(size);
    hide Whole, Room, PerSlab;
    WholeBounds(size);
    var all := Whole(size);
    if all >= 2 { MulMono(2, all, size); }
    RoomBounds(all * LINK, size);
    if all == 1 && Room(LINK, size) < 1 { MulMono(Room(LINK, size), 0, size); }
  }

  lemma MulSub(a: int, b: int, size: int)
    ensures (a - b) * size == a * size - b * size
  {
  }

  lemma RoundUp(n: int)
    requires n >= 0
    ensures SLAB_HEADER + LINK * n <= Base(n) <= SLAB_HEADER + LINK * n + 4 && Base(n) % 8 == 0
  {
  }

  /** Address of object j of the slab in a page. */
  function Address(page: int, size: int, n: int, j: int): int { page * PAGE_SIZE + Base(n) + j * size }

  /** slab_free_int recovers page and object number from the address, and no object starts a page. */
  lemma AddressInverse(page: int, size: int, j: int)
    requires LINK <= size && page >= 0 && 0 <= j < PerSlab(size)
    ensures var n := PerSlab(size); var a := Address(page, size, n, j);
      && a / PAGE_SIZE == page && a % PAGE_SIZE != 0 && (a % PAGE_SIZE - Base(n)) / size == j
      && a % PAGE_SIZE + size <= PAGE_SIZE
  {
    hide PerSlab, Base;
    var n := PerSlab(size);
    LayoutFits(size);
    MulMono(j + 1, n, size);
    MulMono(0, j, size);
    var o := Base(n) + j * size;
    assert (page * PAGE_SIZE + o) / PAGE_SIZE == page && (page * PAGE_SIZE + o) % PAGE_SIZE == o;
    MulDiv(j, size);
  }

  lemma MulDiv(j: int, size: int)
    requires size > 0
    ensures j * size / size == j
  {
    var q := j * size / size;
    DivBounds(j * size, size);
    if q < j { MulMono(q + 1, j, size); }
    if q > j { MulMono(j + 1, q, size); }
  }

  // ---------------------------------------------------------------- one slab

  datatype Slab = Slab(inuse: int, free: int, links: seq<int>)

  function First(chain: seq<int>): int { if chain == [] then END else chain[0] }

  /** The links enumerate exactly `chain`; the objects not on it are `used`. */
  ghost predicate Chained(s: Slab, chain: seq<int>, used: set<int>, n: int) {
    && |s.links| == n && s.free == First(chain) && s.inuse == n - |chain| == |used|
    && (forall i :: 0 <= i < |chain| ==> 0 <= chain[i] < n && s.links[chain[i]] == First(chain[i + 1..]))
    && (forall i, j :: 0 <= i < j < |chain| ==> chain[i] != chain[j])
    && (forall j :: j in used ==> 0 <= j < n && j !in chain)
    && (forall j :: 0 <= j < n ==> j in chain || j in used)
  }

  /** slab_alloc_from takes the head of the chain. */
  lemma PopChain(s: Slab, chain: seq<int>, used: set<int>, n: int)
    requires Chained(s, chain, used, n) && chain != []
    ensures 0 <= s.free < n && s.free !in used
    ensures Chained(Slab(s.inuse + 1, s.links[s.free], s.links), chain[1..], used + {s.free}, n)
  {
    var rest := chain[1..];
    assert s.links[chain[0]] == First(chain[1..]);
    PopLinks(s.links, chain, n);
    PopMembers(chain, used, n);
  }

  lemma PopLinks(links: seq<int>, chain: seq<int>, n: int)
    requires |links| == n && chain != []
    requires forall i :: 0 <= i < |chain| ==> 0 <= chain[i] < n && links[chain[i]] == First(chain[i + 1..])
    ensures var rest := chain[1..]; forall i :: 0 <= i < |rest| ==> 0 <= rest[i] < n && links[rest[i]] == First(rest[i + 1..])
  {
    var rest := chain[1..];
    forall i | 0 <= i < |rest| ensures 0 <= rest[i] < n && links[rest[i]] == First(rest[i + 1..]) {
      assert rest[i] == chain[i + 1] && rest[i + 1..] == chain[i + 2..];
    }
  }

  lemma PopMembers(chain: seq<int>, used: set<int>, n: int)
    requires chain != [] && (forall i, j :: 0 <= i < j < |chain| ==> chain[i] != chain[j])
    requires forall j :: j in used ==> 0 <= j < n && j !in chain
    requires forall j :: 0 <= j < n ==> j in chain || j in used
    ensures chain[0] !in used && |used + {chain[0]}| == |used| + 1
    ensures forall i, j :: 0 <= i < j < |chain[1..]| ==> chain[1..][i] != chain[1..][j]
    ensures forall j :: j in used + {chain[0]} ==> j !in chain[1..]
    ensures forall j :: 0 <= j < n ==> j in chain[1..] || j in used + {chain[0]}
  {
    assert chain == [chain[0]] + chain[1..];
    assert chain[0] in chain;
  }

  /** slab_free_int puts an object in use back at the head. */
  lemma PushChain(s: Slab, chain: seq<int>, used: set<int>, n: int, j: int)
    requires Chained(s, chain, used, n) && j in used
    ensures 0 <= j < n && s.inuse > 0
    ensures Chained(Slab(s.inuse - 1, j, s.links[j := s.free]), [j] + chain, used - {j}, n)
  {
    var t, more := Slab(s.inuse - 1, j, s.links[j := s.free]), [j] + chain;
    forall i | 0 <= i < |more| ensures 0 <= more[i] < n && t.links[more[i]] == First(more[i + 1..]) {
      assert more[i + 1..] == chain[i..];
      if i > 0 { assert more[i] == chain[i - 1] && chain[i - 1] in chain; }
    }
  }

  /** The slab slab_create sets up: every object is on the chain, in order. */
  method Fresh(n: int) returns (s: Slab, ghost chain: seq<int>)
    requires 1 <= n < END
    ensures Chained(s, chain, {}, n) && |chain| == n
    ensures s.inuse == 0 && s.free == 0 && |s.links| == n && forall k :: 0 <= k < n ==> s.links[k] == if k + 1 < n then k + 1 else END
  {
    var links: seq<int> := [];
    var i := 0;
    while i < n - 1
      invariant 0 <= i <= n - 1 && |links| == i && forall k :: 0 <= k < i ==> links[k] == k + 1
    {
      links := links + [i + 1];
      i := i + 1;
    }
    links := links + [END];
    s := Slab(0, 0, links);
    chain := seq(n, k => k);
    forall k | 0 <= k < n ensures k in chain { assert chain[k] == k; }
  }

  /** A slab is full exactly when its chain is empty. */
  lemma FullIff(s: Slab, chain: seq<int>, used: set<int>, n: int)
    requires Chained(s, chain, used, n) && 1 <= n < END
    ensures s.free == END <==> s.inuse == n
    ensures s.inuse < n ==> chain != []
  {
    if chain != [] { assert 0 <= chain[0] < n; }
  }

  // ---------------------------------------------------------------- the cache

  ghost function WithRoom(slabs: map<int, Slab>, n: int): set<int> { set p | p in slabs && slabs[p].inuse < n }

  ghost function Exhausted(slabs: map<int, Slab>, n: int): set<int> { set p | p in slabs && slabs[p].inuse == n }

  ghost predicate Busy(slabs: map<int, Slab>, n: int) { forall p :: p in slabs ==> 0 < slabs[p].inuse <= n }

  /** Which list a slab is on is decided by how many of its objects are in use. */
  ghost predicate Listed(slabs: map<int, Slab>, partial: seq<int>, full: seq<int>, n: int) {
    Items(partial) == WithRoom(slabs, n) && Items(full) == Exhausted(slabs, n) && Distinct(partial) && Distinct(full)
  }

  lemma Updated(slabs: map<int, Slab>, n: int, p: int, s: Slab)
    ensures WithRoom(slabs[p := s], n) == (WithRoom(slabs, n) - {p}) + if s.inuse < n then {p} else {}
    ensures Exhausted(slabs[p := s], n) == (Exhausted(slabs, n) - {p}) + if s.inuse == n then {p} else {}
  {
  }

  lemma Dropped(slabs: map<int, Slab>, n: int, p: int)
    ensures WithRoom(slabs - {p}, n) == WithRoom(slabs, n) - {p} && Exhausted(slabs - {p}, n) == Exhausted(slabs, n) - {p}
  {
  }

  lemma Consed(l: seq<int>, p: int)
    requires Distinct(l) && p !in Items(l)
    ensures Items([p] + l) == Items(l) + {p} && Distinct([p] + l)
  {
  }

  /** list_del. */
  lemma WithoutIs(s: seq<int>, x: int)
    requires Distinct(s)
    ensures Distinct(Without(s, x)) && Items(Without(s, x)) == Items(s) - {x}
  {
    WithoutMembers(s, x);
    var n := Without(s, x);
    forall i, j | 0 <= i < j < |n| ensures n[i] != n[j] {
      WithoutAt(s, x, i);
      WithoutAt(s, x, j);
    }
  }

  ghost predicate AllChained(slabs: map<int, Slab>, chains: map<int, seq<int>>, used: map<int, set<int>>, n: int) {
    && chains.Keys == slabs.Keys && used.Keys == slabs.Keys
    && forall p :: p in slabs ==> Chained(slabs[p], chains[p], used[p], n)
  }

  lemma ChainedAt(slabs: map<int, Slab>, chains: map<int, seq<int>>, used: map<int, set<int>>, n: int, p: int)
    requires AllChained(slabs, chains, used, n)
    ensures p in slabs <==> p in chains
    ensures p in slabs <==> p in used
    ensures p in slabs ==> Chained(slabs[p], chains[p], used[p], n)
  {
  }

  lemma ChainedPut(slabs: map<int, Slab>, chains: map<int, seq<int>>, used: map<int, set<int>>, n: int, p: int, s: Slab, c: seq<int>, u: set<int>)
    requires AllChained(slabs, chains, used, n) && Chained(s, c, u, n)
    ensures AllChained(slabs[p := s], chains[p := c], used[p := u], n)
  {
    hide Chained;
  }

  lemma ChainedDrop(slabs: map<int, Slab>, chains: map<int, seq<int>>, used: map<int, set<int>>, n: int, p: int)
    requires AllChained(slabs, chains, used, n)
    ensures AllChained(slabs - {p}, chains - {p}, used - {p}, n)
  {
    hide Chained;
  }

  /** The addresses handed out and not given back. */
  ghost function Live(used: map<int, set<int>>, size: int, n: int): set<int> {
    set p, j | p in used && j in used[p] :: Address(p, size, n, j)
  }

  /** The pages that hold these objects. */
  ghost function PagesOf(objects: set<int>): set<int> { set a | a in objects :: a / PAGE_SIZE }

  /** The slabs are exactly the pages that hold an object in use. */
  lemma SlabPages(slabs: map<int, Slab>, chains: map<int, seq<int>>, used: map<int, set<int>>, size: int, n: int)
    requires AllChained(slabs, chains, used, n) && Busy(slabs, n) && LINK <= size && n == PerSlab(size) && InRange(used, n)
    ensures slabs.Keys == PagesOf(Live(used, size, n))
  {
    hide PerSlab, Address, Chained;
    forall p | p in slabs ensures p in PagesOf(Live(used, size, n)) {
      ChainedAt(slabs, chains, used, n, p);
      SomeUsed(slabs[p], chains[p], used[p], n);
      var j :| j in used[p];
      AddressInverse(p, size, j);
      assert Address(p, size, n, j) in Live(used, size, n);
    }
    forall p | p in PagesOf(Live(used, size, n)) ensures p in slabs {
      var a :| a in Live(used, size, n) && a / PAGE_SIZE == p;
      LiveHas(used, size, n, a);
    }
  }

  lemma SomeUsed(s: Slab, chain: seq<int>, u: set<int>, n: int)
    requires Chained(s, chain, u, n) && s.inuse > 0
    ensures exists j :: j in u
  {
    NoneOrSome(u);
  }

  lemma NoneOrSome(u: set<int>)
    ensures u == {} || exists j :: j in u
  {
    if forall j :: j !in u { assert u == {}; }
  }

  lemma LastOf(keys: set<int>, left: set<int>, objects: set<int>, p: int)
    requires left == PagesOf(objects) && p in keys && (left == keys || left == keys - {p})
    ensures left == keys <==> exists b :: b in objects && b / PAGE_SIZE == p
  {
    if left == keys { assert p in PagesOf(objects); }
    if exists b :: b in objects && b / PAGE_SIZE == p { assert p in PagesOf(objects); }
  }

  class SlabCache {
    const phys: P.Allocator
    const size: int
    const perSlab: int
    var slabs: map<int, Slab>
    var empty: seq<int>
    var partial: seq<int>
    var full: seq<int>
    ghost var chains: map<int, seq<int>>
    ghost var used: map<int, set<int>>

    ghost predicate Valid()
      reads this, phys
    {
      && LINK <= size && perSlab == PerSlab(size) >= 1
      && phys.Valid() && slabs.Keys <= Kernel(phys.pages, phys.usable)
      && AllChained(slabs, chains, used, perSlab)
      && Listed(slabs, partial, full, perSlab) && Busy(slabs, perSlab) && empty == []
    }

    ghost function Objects(): set<int>
      reads this
    {
      Live(used, size, perSlab)
    }

    /** The free pages and the cache's own. */
    ghost function Pool(): set<int>
      reads this, phys
    {
      P.FreeSet(phys.pages, phys.usable) + slabs.Keys
    }

    /** slab_init_cache. */
    constructor (phys: P.Allocator, size: int)
      requires phys.Valid() && 5 <= size <= 2028
      ensures Valid() && this.phys == phys && this.size == size && Objects() == {} && slabs == map[]
    {
      hide PerSlab;
      SomeFit(size);
      this.phys, this.size, perSlab := phys, size, PerSlab(size);
      slabs, empty, partial, full, chains, used := map[], [], [], [], map[], map[];
    }

    /** slab_alloc_from: the head of the chain of slab `p`, which moves to the full list with its
        last object.  `p` may be the one slab with no object in use yet. */
    method AllocFrom(p: int) returns (a: int)
      requires phys.Valid() && slabs.Keys <= Kernel(phys.pages, phys.usable) && empty == []
      requires LINK <= size && perSlab == PerSlab(size) >= 1 && AllChained(slabs, chains, used, perSlab)
      requires Listed(slabs, partial, full, perSlab) && Busy(slabs - {p}, perSlab) && p in Items(partial)
      modifies this`slabs, this`partial, this`full, this`chains, this`used
      ensures Valid() && a !in old(Objects()) && Objects() == old(Objects()) + {a} && slabs.Keys == old(slabs.Keys)
    {
      hide Chained, Live, P.GoodPages, P.GoodCounts, P.FreeSet, Kernel, PerSlab, Items, Busy, AllChained, Listed, Without;
      ListIs(slabs, partial, full, perSlab, p);
      ChainedAt(slabs, chains, used, perSlab, p);
      ghost var s, chain, u := slabs[p], chains[p], used[p];
      PerSlabSmall(size);
      UsedRange(slabs, chains, used, perSlab, phys);
      var j := slabs[p].free;
      PopOk(s, chain, u, perSlab);
      LiveAdd(used, size, perSlab, p, j);
      var next := Slab(slabs[p].inuse + 1, slabs[p].links[j], slabs[p].links);
      ChainedPut(slabs, chains, used, perSlab, p, next, chain[1..], u + {j});
      ListedTake(slabs, partial, full, perSlab, p, next);
      NowBusy(slabs, perSlab, p, next);
      KeysPut(slabs, p, next);
      slabs, chains, used := slabs[p := next], chains[p := chain[1..]], used[p := u + {j}];
      if slabs[p].free == END {
        partial, full := Without(partial, p), [p] + full;
      }
      a := Address(p, size, perSlab, j);
    }

    /** slab_create, and its slab's way to the list of partly used ones. */
    method Create() returns (ok: bool)
      requires Valid() && partial == []
      modifies this`slabs, this`empty, this`partial, this`chains, this`used, phys
      ensures phys.Valid() && Pool() == old(Pool())
      ensures ok <==> old(phys.pagesFree) != 0
      ensures !ok ==> Valid() && Objects() == old(Objects()) && partial == []
      ensures ok ==> partial != [] && empty == [] && Objects() == old(Objects())
      ensures ok ==> slabs.Keys <= Kernel(phys.pages, phys.usable) && AllChained(slabs, chains, used, perSlab)
      ensures ok ==> Listed(slabs, partial, full, perSlab) && Busy(slabs - {partial[0]}, perSlab)
    {
      hide Chained, Live, P.GoodPages, P.GoodCounts, P.FreeSet, Kernel, PerSlab, Items, Busy, AllChained, Listed, P.Allocator.Valid;
      var page := TakePage(phys);
      if page.None? { return false; }
      KernelNotFree(old(phys.pages), phys.usable);
      PerSlabSmall(size);
      var s, chain := Fresh(perSlab);
      NewSlab(slabs, chains, used, partial, full, perSlab, size, page.value, s, chain);
      Carried(page.value, empty, partial);
      PoolTake(P.FreeSet(old(phys.pages), phys.usable), slabs.Keys, page.value);
      empty := [page.value] + empty;
      slabs, chains, used := slabs[page.value := s], chains[page.value := chain], used[page.value := {}];
      partial, empty := [empty[0]] + partial, empty[1..];
      return true;
    }

    /** slab_calloc_int: a new object, unless a page was needed and none was free. */
    method Calloc() returns (r: Option<int>)
      requires Valid()
      modifies this`slabs, this`empty, this`partial, this`full, this`chains, this`used, phys
      ensures Valid() && slabs.Keys == PagesOf(Objects())
      ensures r.None? <==> old(partial) == [] && old(phys.pagesFree) == 0
      ensures r.None? ==> Objects() == old(Objects())
      ensures r.Some? ==> r.value !in old(Objects()) && Objects() == old(Objects()) + {r.value}
      ensures Pool() == old(Pool())
    {
      hide Chained, Live, P.GoodPages, P.GoodCounts, P.FreeSet, Kernel, PerSlab, Items, Busy, AllChained, Listed, PagesOf;
      if partial == [] {
        var ok := Create();
        if !ok {
          HoldsUsed();
          return None;
        }
      } else {
        BusyBut(slabs, perSlab, partial[0]);
      }
      FirstItem(partial);
      var a := AllocFrom(partial[0]);
      HoldsUsed();
      r := Some(a);
    }

    /** A cache holds exactly the pages of its objects in use, and none of them is free. */
    lemma HoldsUsed()
      requires Valid()
      ensures slabs.Keys == PagesOf(Objects()) && slabs.Keys !! P.FreeSet(phys.pages, phys.usable)
      ensures Objects() == {} ==> slabs == map[]
    {
      hide Chained, Live, P.GoodPages, P.GoodCounts, P.FreeSet, Kernel, PerSlab, AllChained, Listed, Busy;
      UsedRange(slabs, chains, used, perSlab, phys);
      SlabPages(slabs, chains, used, size, perSlab);
      KernelNotFree(phys.pages, phys.usable);
    }

    /** slab_free_int of an object in use; the page goes back exactly with its last object. */
    method Free(a: int)
      requires Valid() && a in Objects()
      modifies this`slabs, this`partial, this`full, this`chains, this`used, phys
      ensures Valid() && Objects() == old(Objects()) - {a}
      ensures Pool() == old(Pool())
      ensures slabs.Keys == PagesOf(Objects())
      ensures slabs.Keys == old(slabs.Keys) <==> exists b :: b in Objects() && b / PAGE_SIZE == a / PAGE_SIZE
    {
      hide Valid, P.FreeSet, PagesOf, Live;
      GiveBack(a);
      HoldsUsed();
      LastOf(old(slabs.Keys), slabs.Keys, Objects(), a / PAGE_SIZE);
    }

    method GiveBack(a: int)
      requires Valid() && a in Objects()
      modifies this`slabs, this`partial, this`full, this`chains, this`used, phys
      ensures Valid() && Objects() == old(Objects()) - {a}
      ensures Pool() == old(Pool())
      ensures a / PAGE_SIZE in old(slabs) && (slabs.Keys == old(slabs.Keys) || slabs.Keys == old(slabs.Keys) - {a / PAGE_SIZE})
    {
      hide Chained, Live, P.GoodPages, P.GoodCounts, P.FreeSet, Kernel, PerSlab, Address, Items, Busy, AllChained, Listed, Without, InRange, PagesOf;
      PerSlabSmall(size);
      UsedRange(slabs, chains, used, perSlab, phys);
      LiveHas(used, size, perSlab, a);
      assert a % PAGE_SIZE != 0;
      var p := a / PAGE_SIZE;
      var j := (a % PAGE_SIZE - Base(perSlab)) / size;
      ChainedAt(slabs, chains, used, perSlab, p);
      ghost var s, chain, u := slabs[p], chains[p], used[p];
      PushOk(s, chain, u, perSlab, j);
      LiveRemove(used, size, perSlab, p, j);
      var inuse := slabs[p].inuse;
      var next := Slab(inuse - 1, j, slabs[p].links[j := slabs[p].free]);
      BusyBut(slabs, perSlab, p);
      ListedGive(slabs, partial, full, perSlab, p, next);
      if inuse - 1 == 0 {
        ghost var used' := used[p := u - {j}];
        LiveDrop(used', size, perSlab, p);
        ChainedDrop(slabs, chains, used, perSlab, p);
        assert used' - {p} == used - {p};
        KeysDrop(slabs, p);
        if inuse == perSlab { full := Without(full, p); } else { partial := Without(partial, p); }
        slabs, chains, used := slabs - {p}, chains - {p}, used - {p};
        GivePage(phys, p);
      } else {
        NowBusy(slabs, perSlab, p, next);
        ChainedPut(slabs, chains, used, perSlab, p, next, [j] + chain, u - {j});
        KeysPut(slabs, p, next);
        slabs, chains, used := slabs[p := next], chains[p := [j] + chain], used[p := u - {j}];
        if inuse == perSlab {
          full, partial := Without(full, p), [p] + partial;
        }
      }
    }

    /** slab_stat over this cache: its assertions hold, and it counts exactly the objects in use. */
    method Stat() returns (objects: int, pages: int)
      requires Valid()
      ensures objects == |Objects()| && pages == |slabs| && empty == []
    {
      hide Chained, Live, P.GoodPages, P.GoodCounts, P.FreeSet, Kernel, PerSlab, Listed, Total;
      objects, pages := 0, 0;
      TotalNone(slabs);
      var i := 0;
      while i < |full|
        invariant 0 <= i <= |full| && pages == i && objects == Total(slabs, full[..i])
      {
        assert full[i] in Items(full);
        ListIs(slabs, partial, full, perSlab, full[i]);
        assert slabs[full[i]].inuse == perSlab;
        TotalSnoc(slabs, full, i);
        objects, pages, i := objects + slabs[full[i]].inuse, pages + 1, i + 1;
      }
      assert full[..i] == full;
      i := 0;
      while i < |partial|
        invariant 0 <= i <= |partial| && pages == |full| + i && objects == Total(slabs, full) + Total(slabs, partial[..i])
      {
        assert partial[i] in Items(partial);
        ListIs(slabs, partial, full, perSlab, partial[i]);
        assert slabs[partial[i]].inuse != 0 && slabs[partial[i]].inuse != perSlab;
        TotalSnoc(slabs, partial, i);
        objects, pages, i := objects + slabs[partial[i]].inuse, pages + 1, i + 1;
      }
      assert partial[..i] == partial;
      ListsCount(slabs, partial, full, perSlab);
      UsedRange(slabs, chains, used, perSlab, phys);
      LiveTotal(slabs, chains, used, partial, full, size, perSlab);
    }
  }

  ghost function Total(slabs: map<int, Slab>, l: seq<int>): int {
    if l == [] then 0 else Total(slabs, l[..|l| - 1]) + if l[|l| - 1] in slabs then slabs[l[|l| - 1]].inuse else 0
  }

  lemma TotalNone(slabs: map<int, Slab>)
    ensures forall l: seq<int> :: Total(slabs, l[..0]) == 0
  {
  }

  lemma TotalSnoc(slabs: map<int, Slab>, l: seq<int>, i: int)
    requires 0 <= i < |l| && l[i] in slabs
    ensures Total(slabs, l[..i + 1]) == Total(slabs, l[..i]) + slabs[l[i]].inuse
  {
    assert l[..i + 1][..i] == l[..i];
  }

  /** The objects in use in the slabs of a list. */
  ghost function LiveOn(used: map<int, set<int>>, l: seq<int>, size: int, n: int): set<int> {
    set p, j | p in l && p in used && j in used[p] :: Address(p, size, n, j)
  }

  ghost function LiveIn(used: map<int, set<int>>, p: int, size: int, n: int): set<int>
    requires p in used
  {
    set j | j in used[p] :: Address(p, size, n, j)
  }

  lemma {:induction false} ImageSize(p: int, u: set<int>, size: int, n: int)
    requires LINK <= size && n == PerSlab(size) && p >= 0 && forall j :: j in u ==> 0 <= j < n
    ensures |set j | j in u :: Address(p, size, n, j)| == |u|
    decreases |u|
  {
    hide Address, PerSlab;
    if exists x :: x in u {
      var x :| x in u;
      var v := u - {x};
      ImageSize(p, v, size, n);
      forall j | j in v ensures Address(p, size, n, j) != Address(p, size, n, x) {
        AddressInverse(p, size, j);
        AddressInverse(p, size, x);
      }
      assert (set j | j in u :: Address(p, size, n, j)) == (set j | j in v :: Address(p, size, n, j)) + {Address(p, size, n, x)};
    } else {
      assert u == {};
      assert (set j | j in u :: Address(p, size, n, j)) == {};
    }
  }

  lemma {:induction false} LiveOnTotal(slabs: map<int, Slab>, chains: map<int, seq<int>>, used: map<int, set<int>>, l: seq<int>, size: int, n: int)
    requires AllChained(slabs, chains, used, n) && LINK <= size && n == PerSlab(size) && InRange(used, n)
    requires Distinct(l) && forall i :: 0 <= i < |l| ==> l[i] in slabs
    ensures |LiveOn(used, l, size, n)| == Total(slabs, l)
    decreases |l|
  {
    hide Address, PerSlab, Chained;
    if l == [] {
      assert LiveOn(used, l, size, n) == {};
    } else {
      var t, p := l[..|l| - 1], l[|l| - 1];
      LiveOnTotal(slabs, chains, used, t, size, n);
      assert |used[p]| == slabs[p].inuse by { UsedSize(slabs, chains, used, n, p); }
      ImageSize(p, used[p], size, n);
      assert l == t + [p];
      assert LiveOn(used, l, size, n) == LiveOn(used, t, size, n) + LiveIn(used, p, size, n);
      LiveApart(used, t, p, size, n);
    }
  }

  lemma LiveApart(used: map<int, set<int>>, t: seq<int>, p: int, size: int, n: int)
    requires LINK <= size && n == PerSlab(size) && InRange(used, n) && p in used && p !in t
    ensures LiveOn(used, t, size, n) !! LiveIn(used, p, size, n)
  {
    hide Address, PerSlab;
    forall q, i, j | q in t && q in used && i in used[q] && j in used[p] ensures Address(q, size, n, i) != Address(p, size, n, j) {
      AddressInverse(q, size, i);
      AddressInverse(p, size, j);
    }
  }

  lemma UsedSize(slabs: map<int, Slab>, chains: map<int, seq<int>>, used: map<int, set<int>>, n: int, p: int)
    requires AllChained(slabs, chains, used, n) && p in slabs
    ensures |used[p]| == slabs[p].inuse
  {
    ChainedAt(slabs, chains, used, n, p);
  }

  lemma LiveTotal(slabs: map<int, Slab>, chains: map<int, seq<int>>, used: map<int, set<int>>, partial: seq<int>, full: seq<int>, size: int, n: int)
    requires AllChained(slabs, chains, used, n) && Listed(slabs, partial, full, n) && Busy(slabs, n)
    requires LINK <= size && n == PerSlab(size) && InRange(used, n)
    ensures |Live(used, size, n)| == Total(slabs, full) + Total(slabs, partial)
  {
    hide Address, PerSlab, Chained, Total;
    forall i | 0 <= i < |full| ensures full[i] in slabs { assert full[i] in Items(full); }
    forall i | 0 <= i < |partial| ensures partial[i] in slabs { assert partial[i] in Items(partial); }
    LiveOnTotal(slabs, chains, used, full, size, n);
    LiveOnTotal(slabs, chains, used, partial, size, n);
    forall p | p in used ensures p in full || p in partial { EveryListed(slabs, partial, full, n, p); }
    assert Live(used, size, n) == LiveOn(used, full, size, n) + LiveOn(used, partial, size, n);
    forall q, i, p, j | q in full && q in used && i in used[q] && p in partial && p in used && j in used[p]
      ensures Address(q, size, n, i) != Address(p, size, n, j)
    {
      assert q in Items(full) && p in Items(partial);
      AddressInverse(q, size, i);
      AddressInverse(p, size, j);
    }
    assert LiveOn(used, full, size, n) !! LiveOn(used, partial, size, n);
  }

  lemma EveryListed(slabs: map<int, Slab>, partial: seq<int>, full: seq<int>, n: int, p: int)
    requires Listed(slabs, partial, full, n) && Busy(slabs, n) && p in slabs
    ensures p in full || p in partial
  {
    assert slabs[p].inuse <= n;
    assert p in Items(full) || p in Items(partial);
  }

  lemma ListIs(slabs: map<int, Slab>, partial: seq<int>, full: seq<int>, n: int, p: int)
    requires Listed(slabs, partial, full, n)
    ensures p in Items(partial) <==> p in slabs && slabs[p].inuse < n
    ensures p in Items(full) <==> p in slabs && slabs[p].inuse == n
  {
  }

  /** One more object of slab `p` in use. */
  lemma ListedTake(slabs: map<int, Slab>, partial: seq<int>, full: seq<int>, n: int, p: int, s: Slab)
    requires Listed(slabs, partial, full, n) && p in slabs && slabs[p].inuse < n
    ensures s.inuse < n ==> Listed(slabs[p := s], partial, full, n)
    ensures s.inuse == n ==> Listed(slabs[p := s], Without(partial, p), [p] + full, n)
  {
    hide Items, Distinct, WithRoom, Exhausted, Without;
    ListIs(slabs, partial, full, n, p);
    Updated(slabs, n, p, s);
    WithoutIs(partial, p);
    Consed(full, p);
  }

  lemma ListedNew(slabs: map<int, Slab>, partial: seq<int>, full: seq<int>, n: int, p: int, s: Slab)
    requires Listed(slabs, partial, full, n) && p !in slabs && s.inuse < n
    ensures Listed(slabs[p := s], [p] + partial, full, n)
  {
    hide Items, Distinct, WithRoom, Exhausted;
    ListIs(slabs, partial, full, n, p);
    Updated(slabs, n, p, s);
    Consed(partial, p);
  }

  /** One object less, or the slab gone. */
  lemma ListedGive(slabs: map<int, Slab>, partial: seq<int>, full: seq<int>, n: int, p: int, s: Slab)
    requires Listed(slabs, partial, full, n) && p in slabs && s.inuse < slabs[p].inuse <= n
    ensures slabs[p].inuse < n ==> Listed(slabs[p := s], partial, full, n) && Listed(slabs - {p}, Without(partial, p), full, n)
    ensures slabs[p].inuse == n ==>
      Listed(slabs[p := s], [p] + partial, Without(full, p), n) && Listed(slabs - {p}, partial, Without(full, p), n)
  {
    hide Items, Distinct, WithRoom, Exhausted, Without;
    ListIs(slabs, partial, full, n, p);
    Updated(slabs, n, p, s);
    Dropped(slabs, n, p);
    WithoutIs(partial, p);
    WithoutIs(full, p);
    if slabs[p].inuse == n { Consed(partial, p); }
  }

  lemma KeysPut(slabs: map<int, Slab>, p: int, s: Slab)
    ensures slabs[p := s].Keys == slabs.Keys + {p}
  {
  }

  /** A fresh slab on a page that is no slab yet. */
  lemma NewSlab(slabs: map<int, Slab>, chains: map<int, seq<int>>, used: map<int, set<int>>, partial: seq<int>, full: seq<int>,
                n: int, size: int, p: int, s: Slab, chain: seq<int>)
    requires AllChained(slabs, chains, used, n) && Listed(slabs, partial, full, n) && Busy(slabs, n) && p !in slabs
    requires Chained(s, chain, {}, n) && |chain| == n && n >= 1
    ensures AllChained(slabs[p := s], chains[p := chain], used[p := {}], n) && Listed(slabs[p := s], [p] + partial, full, n)
    ensures Busy(slabs[p := s] - {p}, n) && Live(used[p := {}], size, n) == Live(used, size, n)
    ensures slabs[p := s].Keys == slabs.Keys + {p}
  {
    hide Chained, Live, Busy, AllChained, Listed;
    FreshInuse(s, chain, n);
    ChainedAt(slabs, chains, used, n, p);
    ChainedPut(slabs, chains, used, n, p, s, chain, {});
    LiveNew(used, size, n, p);
    StillBusy(slabs, n, p, s);
    ListedNew(slabs, partial, full, n, p, s);
    KeysPut(slabs, p, s);
  }

  lemma PoolTake(free: set<int>, keys: set<int>, p: int)
    requires p in free
    ensures (free - {p}) + (keys + {p}) == free + keys
  {
  }

  lemma Carried(p: int, empty: seq<int>, partial: seq<int>)
    ensures [([p] + empty)[0]] + partial == [p] + partial && ([p] + empty)[1..] == empty && ([p] + partial)[0] == p
  {
  }

  lemma KeysDrop(slabs: map<int, Slab>, p: int)
    ensures (slabs - {p}).Keys == slabs.Keys - {p}
  {
  }

  lemma NowBusy(slabs: map<int, Slab>, n: int, p: int, s: Slab)
    ensures Busy(slabs - {p}, n) && 0 < s.inuse <= n ==> Busy(slabs[p := s], n)
  {
    if Busy(slabs - {p}, n) && 0 < s.inuse <= n {
      var t := slabs[p := s];
      forall q | q in t ensures 0 < t[q].inuse <= n {
        if q != p { assert q in slabs - {p}; }
      }
    }
  }

  lemma StillBusy(slabs: map<int, Slab>, n: int, p: int, s: Slab)
    requires Busy(slabs, n)
    ensures Busy(slabs[p := s] - {p}, n)
  {
  }

  lemma BusyBut(slabs: map<int, Slab>, n: int, p: int)
    ensures Busy(slabs, n) ==> Busy(slabs - {p}, n)
  {
  }

  lemma FirstItem(s: seq<int>)
    ensures s != [] ==> s[0] in Items(s)
  {
  }

  lemma PopOk(s: Slab, chain: seq<int>, used: set<int>, n: int)
    requires Chained(s, chain, used, n) && s.inuse < n < END
    ensures chain != [] && 0 <= s.free < n == |s.links| && s.free !in used && s.inuse >= 0
    ensures var t := Slab(s.inuse + 1, s.links[s.free], s.links);
      Chained(t, chain[1..], used + {s.free}, n) && (t.free == END <==> t.inuse == n)
  {
    PopChain(s, chain, used, n);
    FullIff(Slab(s.inuse + 1, s.links[s.free], s.links), chain[1..], used + {s.free}, n);
  }

  lemma PushOk(s: Slab, chain: seq<int>, used: set<int>, n: int, j: int)
    requires Chained(s, chain, used, n) && j in used
    ensures 0 <= j < n == |s.links| && 0 < s.inuse <= n
    ensures Chained(Slab(s.inuse - 1, j, s.links[j := s.free]), [j] + chain, used - {j}, n)
    ensures s.inuse == 1 ==> used - {j} == {}
  {
    PushChain(s, chain, used, n, j);
  }

  lemma PerSlabSmall(size: int)
    requires LINK <= size && PerSlab(size) >= 1
    ensures PerSlab(size) < END
  {
    LayoutFits(size);
    MulMono(1, size, PerSlab(size));
  }

  lemma FreshInuse(s: Slab, chain: seq<int>, n: int)
    requires Chained(s, chain, {}, n)
    ensures s.inuse == 0
  {
  }

  /** Pages and object numbers in use are in range. */
  ghost predicate InRange(used: map<int, set<int>>, n: int) {
    forall p :: p in used ==> p >= 0 && forall j :: j in used[p] ==> 0 <= j < n
  }

  lemma UsedRange(slabs: map<int, Slab>, chains: map<int, seq<int>>, used: map<int, set<int>>, n: int, phys: P.Allocator)
    requires AllChained(slabs, chains, used, n) && phys.Valid() && slabs.Keys <= Kernel(phys.pages, phys.usable)
    ensures InRange(used, n)
  {
    forall p | p in used ensures p >= 0 && forall j :: j in used[p] ==> 0 <= j < n {
      assert Chained(slabs[p], chains[p], used[p], n);
    }
  }

  lemma LiveAdd(used: map<int, set<int>>, size: int, n: int, p: int, j: int)
    requires LINK <= size && n == PerSlab(size) && InRange(used, n) && p in used && 0 <= j < n && j !in used[p]
    ensures Address(p, size, n, j) !in Live(used, size, n)
    ensures Live(used[p := used[p] + {j}], size, n) == Live(used, size, n) + {Address(p, size, n, j)}
  {
    hide Address, PerSlab;
    var a, next := Address(p, size, n, j), used[p := used[p] + {j}];
    if a in Live(used, size, n) {
      var q, i :| q in used && i in used[q] && Address(q, size, n, i) == a;
      AddressInverse(q, size, i);
      AddressInverse(p, size, j);
    }
    assert j in next[p];
    forall x | x in Live(next, size, n) ensures x in Live(used, size, n) + {a} {
      var q, i :| q in next && i in next[q] && Address(q, size, n, i) == x;
    }
    forall x | x in Live(used, size, n) ensures x in Live(next, size, n) {
      var q, i :| q in used && i in used[q] && Address(q, size, n, i) == x;
      assert i in next[q];
    }
  }

  lemma LiveRemove(used: map<int, set<int>>, size: int, n: int, p: int, j: int)
    requires LINK <= size && n == PerSlab(size) && InRange(used, n) && p in used && j in used[p]
    ensures Live(used[p := used[p] - {j}], size, n) == Live(used, size, n) - {Address(p, size, n, j)}
  {
    hide Address, PerSlab, Live;
    var was := used[p := used[p] - {j}];
    LiveAdd(was, size, n, p, j);
    assert was[p] + {j} == used[p];
    assert was[p := was[p] + {j}] == used;
  }

  lemma LiveNew(used: map<int, set<int>>, size: int, n: int, p: int)
    requires p !in used
    ensures Live(used[p := {}], size, n) == Live(used, size, n)
  {
  }

  lemma LiveDrop(used: map<int, set<int>>, size: int, n: int, p: int)
    requires p in used && used[p] == {}
    ensures Live(used - {p}, size, n) == Live(used, size, n)
  {
  }

  lemma LiveHas(used: map<int, set<int>>, size: int, n: int, a: int)
    requires LINK <= size && n == PerSlab(size) && InRange(used, n) && a in Live(used, size, n)
    ensures a % PAGE_SIZE != 0
    ensures var p, j := a / PAGE_SIZE, (a % PAGE_SIZE - Base(n)) / size;
      p in used && j in used[p] && a == Address(p, size, n, j)
  {
    var p, j :| p in used && j in used[p] && Address(p, size, n, j) == a;
    AddressInverse(p, size, j);
  }

  lemma ListsCount(slabs: map<int, Slab>, partial: seq<int>, full: seq<int>, n: int)
    requires Listed(slabs, partial, full, n) && Busy(slabs, n)
    ensures |full| + |partial| == |slabs|
  {
    OnceSize(full);
    OnceSize(partial);
    forall p | p in slabs ensures p in Exhausted(slabs, n) + WithRoom(slabs, n) { assert slabs[p].inuse <= n; }
    assert Exhausted(slabs, n) + WithRoom(slabs, n) == slabs.Keys && Exhausted(slabs, n) !! WithRoom(slabs, n);
  }

  lemma {:induction false} OnceSize(s: seq<int>)
    requires Distinct(s)
    ensures |Items(s)| == |s|
    decreases |s|
  {
    if s != [] {
      var t := s[..|s| - 1];
      OnceSize(t);
      assert s == t + [s[|s| - 1]];
      assert Items(s) == Items(t) + {s[|s| - 1]};
    }
  }
}
