/** The kernel heap: blocks with a 24-byte header that tile the heap, linked both ways, split on
    allocation and merged on release.  Addresses are relative to the start of the heap. */
module KernelHeap {
  const HEADER := 24
  const NULL := -1
  const WORD := 0x1_0000_0000_0000_0000
  const MAX_HEAP := 0x1_0000_0000          // block sizes are kept in 32 bits
  const HEAP_MAGIC := 0x1BAD83A0

  /** heap_block_t; the low bit of the magic says whether the block is in use, and a header whose
      magic has been wiped is not in memory. */
  datatype Block = Block(size: int, used: bool, prev: int, next: int)

  type Mem = map<int, Block>

  /** Block k ends where the next begins, the last at the end of the heap, and its links say so. */
  ghost predicate Placed(m: Mem, at: seq<int>, limit: int, k: int) {
    && 0 <= k < |at| && at[k] in m && m[at[k]].size >= 0
    && at[k] + HEADER + m[at[k]].size == (if k + 1 < |at| then at[k + 1] else limit)
    && m[at[k]].prev == (if k == 0 then NULL else at[k - 1])
    && m[at[k]].next == (if k + 1 < |at| then at[k + 1] else NULL)
  }

  /** The blocks at these addresses tile the heap, and there are no others. */
  ghost predicate Sound(m: Mem, at: seq<int>, limit: int) {
    && at != [] && at[0] == 0
    && (forall k :: 0 <= k < |at| ==> Placed(m, at, limit, k))
    && (forall a :: a in m ==> a in at)
  }

  ghost predicate Apart(m: Mem, at: seq<int>, k: int)
    requires 0 < k < |at|
  {
    at[k - 1] in m && at[k] in m && (m[at[k - 1]].used || m[at[k]].used)
  }

  /** No two neighbours are both free. */
  ghost predicate Merged(m: Mem, at: seq<int>) { forall k :: 0 < k < |at| ==> Apart(m, at, k) }

  ghost function UsedSet(m: Mem): set<int> { set a | a in m && m[a].used }

  /** Blocks in use keep their size. */
  ghost predicate Undisturbed(m: Mem, m': Mem) {
    forall a :: a in UsedSet(m) && a in UsedSet(m') ==> m'[a].size == m[a].size
  }

  lemma {:induction false} Ascending(m: Mem, at: seq<int>, limit: int, j: int, k: int)
    requires Sound(m, at, limit) && 0 <= j < k < |at|
    ensures at[j] in m && m[at[j]].size >= 0 && at[j] + HEADER + m[at[j]].size <= at[k]
    decreases k
  {
    assert Placed(m, at, limit, j) && Placed(m, at, limit, k - 1);
    if j < k - 1 { Ascending(m, at, limit, j, k - 1); }
  }

  lemma {:induction false} EndsInside(m: Mem, at: seq<int>, limit: int, k: int)
    requires Sound(m, at, limit) && 0 <= k < |at|
    ensures at[k] in m && at[k] + HEADER + m[at[k]].size <= limit
    decreases |at| - k
  {
    assert Placed(m, at, limit, k);
    if k + 1 < |at| {
      EndsInside(m, at, limit, k + 1);
      assert Placed(m, at, limit, k + 1);
    }
  }

  lemma Distinct(m: Mem, at: seq<int>, limit: int)
    requires Sound(m, at, limit)
    ensures forall i, j :: 0 <= i < j < |at| ==> at[i] < at[j]
    ensures forall x :: x in m ==> x >= 0
  {
    hide Placed;
    forall i, j | 0 <= i < j < |at| ensures at[i] < at[j] { Ascending(m, at, limit, i, j); }
    forall x | x in m ensures x >= 0 { var i :| 0 <= i < |at| && at[i] == x; }
  }

  /** Blocks never overlap and stay inside the heap. */
  lemma Disjoint(m: Mem, at: seq<int>, limit: int, a: int, b: int)
    requires Sound(m, at, limit) && a in m && b in m && a < b
    ensures 0 <= a && m[a].size >= 0 && a + HEADER + m[a].size <= b && b + HEADER + m[b].size <= limit
  {
    hide Placed;
    Distinct(m, at, limit);
    var j, k :| 0 <= j < |at| && at[j] == a && 0 <= k < |at| && at[k] == b;
    Ascending(m, at, limit, j, k);
    EndsInside(m, at, limit, k);
  }

  // ---------------------------------------------------------------- edits

  /** heap_alloc cuts the tail off a free block. */
  function Cut(m: Mem, a: int, count: int): Mem
    requires a in m
  {
    var b, next := a + HEADER + count, m[a].next;
    var m1 := if next in m then m[next := m[next].(prev := b)] else m;
    var m2 := m1[b := Block(m[a].size - HEADER - count, false, a, next)];
    m2[a := Block(count, true, m[a].prev, b)]
  }

  /** heap_free adds a block to the one before it. */
  function Join(m: Mem, a: int): Mem
    requires a in m && m[a].next in m
  {
    var b := m[a].next;
    var next := m[b].next;
    var m1 := m[a := m[a].(next := next, size := m[a].size + HEADER + m[b].size)];
    var m2 := if next in m1 then m1[next := m1[next].(prev := a)] else m1;
    m2 - {b}
  }

  lemma CutSound(m: Mem, at: seq<int>, limit: int, k: int, count: int)
    requires Sound(m, at, limit) && 0 <= k < |at| && at[k] in m && 0 <= count && m[at[k]].size >= count + HEADER
    ensures Sound(Cut(m, at[k], count), at[..k + 1] + [at[k] + HEADER + count] + at[k + 1..], limit)
  {
    hide Placed;
    var b := at[k] + HEADER + count;
    var m', at' := Cut(m, at[k], count), at[..k + 1] + [b] + at[k + 1..];
    forall i | 0 <= i < |at'| ensures Placed(m', at', limit, i) { CutPlaced(m, at, limit, k, count, i); }
    assert at'[k + 1] == b;
    forall x | x in m' ensures x in at' {
      if x != b { var i :| 0 <= i < |at| && at[i] == x; assert at'[if i <= k then i else i + 1] == x; }
    }
  }

  lemma CutPlaced(m: Mem, at: seq<int>, limit: int, k: int, count: int, i: int)
    requires Sound(m, at, limit) && 0 <= k < |at| && at[k] in m && 0 <= count && m[at[k]].size >= count + HEADER && 0 <= i <= |at|
    ensures Placed(Cut(m, at[k], count), at[..k + 1] + [at[k] + HEADER + count] + at[k + 1..], limit, i)
  {
    var b := at[k] + HEADER + count;
    var m', at' := Cut(m, at[k], count), at[..k + 1] + [b] + at[k + 1..];
    var j := if i <= k then i else i - 1;
    assert Placed(m, at, limit, k) && Placed(m, at, limit, j);
    assert NULL !in m by { Distinct(m, at, limit); }
    if j > k { Ascending(m, at, limit, k, j); }
    if j < k { Ascending(m, at, limit, j, k); }
    if k + 1 < |at| && j != k + 1 {
      assert Placed(m, at, limit, k + 1);
      if j > k + 1 { Ascending(m, at, limit, k + 1, j); }
    }
  }

  lemma JoinSound(m: Mem, at: seq<int>, limit: int, k: int)
    requires Sound(m, at, limit) && 0 <= k && k + 1 < |at|
    ensures at[k] in m && at[k + 1] in m && m[at[k]].next == at[k + 1]
    ensures Sound(Join(m, at[k]), at[..k + 1] + at[k + 2..], limit)
  {
    hide Placed;
    Step(m, at, limit, k);
    Step(m, at, limit, k + 1);
    var m', at' := Join(m, at[k]), at[..k + 1] + at[k + 2..];
    forall i | 0 <= i < |at'| ensures Placed(m', at', limit, i) { JoinPlaced(m, at, limit, k, i); }
    forall x | x in m' ensures x in at' {
      var i :| 0 <= i < |at| && at[i] == x;
      assert at'[if i <= k then i else i - 1] == x;
    }
  }

  lemma JoinPlaced(m: Mem, at: seq<int>, limit: int, k: int, i: int)
    requires Sound(m, at, limit) && 0 <= k && k + 1 < |at| && 0 <= i < |at| - 1
    requires at[k] in m && at[k + 1] in m && m[at[k]].next == at[k + 1]
    ensures Placed(Join(m, at[k]), at[..k + 1] + at[k + 2..], limit, i)
  {
    var m', at' := Join(m, at[k]), at[..k + 1] + at[k + 2..];
    var j := if i <= k then i else i + 1;
    assert Placed(m, at, limit, k) && Placed(m, at, limit, j) && Placed(m, at, limit, k + 1);
    assert NULL !in m by { Distinct(m, at, limit); }
    if j > k { Ascending(m, at, limit, k, j); Ascending(m, at, limit, k + 1, j); }
    if j < k { Ascending(m, at, limit, j, k); }
    if k + 2 < |at| && j != k + 2 {
      assert Placed(m, at, limit, k + 2);
      if j > k + 2 { Ascending(m, at, limit, k + 2, j); }
    }
  }

  function Mark(m: Mem, a: int, used: bool): Mem
    requires a in m
  {
    m[a := m[a].(used := used)]
  }

  lemma MarkSound(m: Mem, at: seq<int>, limit: int, a: int, used: bool)
    requires Sound(m, at, limit) && a in m
    ensures Sound(Mark(m, a, used), at, limit)
  {
    forall k | 0 <= k < |at| ensures Placed(Mark(m, a, used), at, limit, k) { assert Placed(m, at, limit, k); }
  }

  /** Rounding a request up to 16 bytes and adding a header, in 64-bit arithmetic. */
  function Rounded(count: int): int { (count + 15) % WORD / 16 * 16 }

  /** The arithmetic is exact, so that a granted block has the bytes asked for, exactly for requests
      that stay 32 bytes short of the address space. */
  lemma RoundedExact(count: int)
    requires 0 <= count < WORD
    ensures (Rounded(count) >= count && (Rounded(count) + HEADER) % WORD == Rounded(count) + HEADER) <==> count <= WORD - 32
    ensures count <= WORD - 32 ==> Rounded(count) % 16 == 0 && count <= Rounded(count) < count + 16
  {
  }

  /** The last requests are rounded to nothing, and the sixteen before them so far up that the
      header no longer fits. */
  lemma RoundedWraps(count: int)
    requires WORD - 32 < count < WORD
    ensures Rounded(count) == if count <= WORD - 16 then WORD - 16 else 0
  {
  }

  /** Asking for the whole address space but one byte is asking for nothing. */
  lemma LargestRequest()
    ensures Rounded(WORD - 1) == 0 < WORD - 1
  {
  }

  ghost predicate Fits(b: Block, count: int) { !b.used && (b.size == count || b.size >= count + HEADER) }

  /** A free block with the 8 bytes that a wrapped request seems to need. */
  ghost predicate Roomy(b: Block) { !b.used && b.size >= 8 }

  /** A request for which the room of the header wraps and some block seems to have it. */
  ghost predicate Collides(m: Mem, count: int) {
    WORD - 32 < count <= WORD - 16 && exists a :: a in m && Roomy(m[a])
  }

  /** What heap_alloc then writes.  The new header starts 8 bytes into the old one: its magic and size
      land in the old block's `prev`, and its `prev` is where the old block's `next` is written last. */
  function Collided(m: Mem, a: int, base: int): Mem
    requires a in m
  {
    var b, next, size := a + 8, m[a].next, m[a].size - 8;
    var m1 := if next in m then m[next := m[next].(prev := b)] else m;
    var m2 := m1[b := Block(size, false, b, next)];
    m2[a := Block((WORD - 16) % MAX_HEAP, true, HEAP_MAGIC + size * MAX_HEAP - base, b)]
  }

  /** No list of addresses makes the result a heap. */
  lemma CollidedBroken(m: Mem, a: int, base: int, limit: int, s: seq<int>)
    requires a in m && a >= 0 && limit < MAX_HEAP
    ensures !Sound(Collided(m, a, base), s, limit)
  {
    var m' := Collided(m, a, base);
    if Sound(m', s, limit) {
      var k := IndexOf(m', s, limit, a);
      EndsInside(m', s, limit, k);
    }
  }

  lemma NoHeap(m: Mem, a: int, base: int, limit: int)
    requires a in m && a >= 0 && limit < MAX_HEAP
    ensures forall s :: !Sound(Collided(m, a, base), s, limit)
  {
    forall s ensures !Sound(Collided(m, a, base), s, limit) { CollidedBroken(m, a, base, limit, s); }
  }

  /** A heap of 32 bytes is one free block of 8; asking it for 2^64 - 16 bytes is granted. */
  lemma SmallestCollision(base: int)
    ensures var m := map[0 := Block(8, false, NULL, NULL)];
      && Sound(m, [0], 32) && Merged(m, [0]) && Collides(m, WORD - 16)
      && Collided(m, 0, base)[0].size > 32 && forall s :: !Sound(Collided(m, 0, base), s, 32)
  {
    var m: Mem := map[0 := Block(8, false, NULL, NULL)];
    assert Placed(m, [0], 32, 0);
    assert Roomy(m[0]);
    NoHeap(m, 0, base, 32);
  }

  lemma FirstRoomy(m: Mem, at: seq<int>, limit: int, k: int)
    requires Sound(m, at, limit) && 0 <= k < |at| && forall i :: 0 <= i < k ==> at[i] in m && !Roomy(m[at[i]])
    ensures forall x :: x in m && x < at[k] ==> !Roomy(m[x])
  {
    hide Placed;
    Distinct(m, at, limit);
    forall x | x in m && x < at[k] ensures !Roomy(m[x]) { var i :| 0 <= i < |at| && at[i] == x; }
  }

  lemma NoneRoomy(m: Mem, at: seq<int>, limit: int)
    requires Sound(m, at, limit)
    ensures (forall i :: 0 <= i < |at| ==> at[i] in m && !Roomy(m[at[i]])) ==> forall a :: a in m ==> !Roomy(m[a])
  {
    forall a | a in m ensures exists i :: 0 <= i < |at| && at[i] == a { assert a in at; }
  }

  lemma CutMerged(m: Mem, at: seq<int>, limit: int, k: int, count: int)
    requires Sound(m, at, limit) && Merged(m, at) && 0 <= k < |at| && at[k] in m && !m[at[k]].used && 0 <= count && m[at[k]].size >= count + HEADER
    ensures Merged(Cut(m, at[k], count), at[..k + 1] + [at[k] + HEADER + count] + at[k + 1..])
    ensures UsedSet(Cut(m, at[k], count)) == UsedSet(m) + {at[k]}
    ensures Undisturbed(m, Cut(m, at[k], count)) && at[k] in Cut(m, at[k], count)
    ensures Cut(m, at[k], count)[at[k]] == Block(count, true, m[at[k]].prev, at[k] + HEADER + count)
  {
    hide Placed, Apart;
    var b := at[k] + HEADER + count;
    var m', at' := Cut(m, at[k], count), at[..k + 1] + [b] + at[k + 1..];
    CutFree(m, at, limit, k, count);
    CutUsed(m, at[k], count);
    forall i | 0 < i < |at'| ensures Apart(m', at', i) { CutApart(m, at, limit, k, count, i); }
  }

  lemma CutUsed(m: Mem, a: int, count: int)
    requires a in m && !m[a].used && a + HEADER + count !in m && 0 <= count && NULL !in m
    ensures var m' := Cut(m, a, count);
      && UsedSet(m') == UsedSet(m) + {a} && Undisturbed(m, m') && a in m'
      && m'[a] == Block(count, true, m[a].prev, a + HEADER + count)
      && a + HEADER + count in m' && !m'[a + HEADER + count].used
      && forall x :: x in m && x != a ==> x in m' && m'[x].used == m[x].used
  {
  }

  /** The new block starts where no block does. */
  lemma CutFree(m: Mem, at: seq<int>, limit: int, k: int, count: int)
    requires Sound(m, at, limit) && 0 <= k < |at| && at[k] in m && 0 <= count && m[at[k]].size >= count + HEADER
    ensures at[k] + HEADER + count !in m && NULL !in m
  {
    hide Placed;
    Distinct(m, at, limit);
    var b := at[k] + HEADER + count;
    if b in m {
      var i :| 0 <= i < |at| && at[i] == b;
      Ascending(m, at, limit, k, i);
    }
  }

  lemma CutApart(m: Mem, at: seq<int>, limit: int, k: int, count: int, i: int)
    requires Sound(m, at, limit) && Merged(m, at) && 0 <= k < |at| && at[k] in m && !m[at[k]].used && 0 <= count && m[at[k]].size >= count + HEADER
    requires 0 < i <= |at|
    ensures Apart(Cut(m, at[k], count), at[..k + 1] + [at[k] + HEADER + count] + at[k + 1..], i)
  {
    CutFree(m, at, limit, k, count);
    CutUsed(m, at[k], count);
    hide Placed, Cut;
    var b := at[k] + HEADER + count;
    var m', at' := Cut(m, at[k], count), at[..k + 1] + [b] + at[k + 1..];
    if i <= k {
      assert at'[i] == at[i] && at'[i - 1] == at[i - 1];
      assert Apart(m, at, i);
    } else if i == k + 1 {
      assert at'[i] == b && at'[i - 1] == at[k];
    } else {
      assert at'[i] == at[i - 1] && at'[i - 1] == if i == k + 2 then b else at[i - 2];
      assert Apart(m, at, i - 1);
    }
  }

  lemma JoinUsed(m: Mem, at: seq<int>, limit: int, k: int)
    requires Sound(m, at, limit) && 0 <= k && k + 1 < |at| && at[k] in m && m[at[k]].next == at[k + 1] && at[k + 1] in m
    requires !m[at[k]].used && !m[at[k + 1]].used
    ensures UsedSet(Join(m, at[k])) == UsedSet(m) && Undisturbed(m, Join(m, at[k]))
    ensures forall x :: x in m && x != at[k + 1] ==> x in Join(m, at[k]) && Join(m, at[k])[x].used == m[x].used
  {
    assert Placed(m, at, limit, k + 1) && Placed(m, at, limit, k);
    Distinct(m, at, limit);
    assert m[at[k + 1]].next != at[k];
  }

  // ---------------------------------------------------------------- how many bytes

  /** The sizes of these blocks together. */
  ghost function Bytes(m: Mem, s: set<int>): int
    decreases |s|
  {
    if exists a :: a in s then
      var a :| a in s;
      (if a in m then m[a].size else 0) + Bytes(m, s - {a})
    else 0
  }

  lemma NoBytes(m: Mem)
    ensures Bytes(m, {}) == 0
  {
  }

  /** The order in which blocks are added up does not matter. */
  lemma {:induction false} BytesOut(m: Mem, s: set<int>, b: int)
    requires b in s
    ensures Bytes(m, s) == (if b in m then m[b].size else 0) + Bytes(m, s - {b})
    decreases |s|
  {
    var c :| c in s && Bytes(m, s) == (if c in m then m[c].size else 0) + Bytes(m, s - {c});
    if c != b {
      BytesOut(m, s - {c}, b);
      BytesOut(m, s - {b}, c);
      assert s - {c} - {b} == s - {b} - {c};
    }
  }

  lemma BytesMore(m: Mem, s: set<int>, a: int)
    requires a !in s && a in m
    ensures Bytes(m, s + {a}) == Bytes(m, s) + m[a].size
  {
    assert s + {a} - {a} == s;
    BytesOut(m, s + {a}, a);
  }

  lemma {:induction false} BytesSame(m: Mem, m': Mem, s: set<int>)
    requires forall a :: a in s ==> a in m && a in m' && m'[a].size == m[a].size
    ensures Bytes(m, s) == Bytes(m', s)
    decreases |s|
  {
    if exists a :: a in s {
      var a :| a in s;
      BytesOut(m, s, a);
      BytesOut(m', s, a);
      BytesSame(m, m', s - {a});
    }
  }

  ghost function FreeBlocks(m: Mem): set<int> { m.Keys - UsedSet(m) }

  /** One block more in use: just its bytes are. */
  lemma TakenMore(m: Mem, m': Mem, a: int)
    requires UsedSet(m') == UsedSet(m) + {a} && a !in UsedSet(m) && Undisturbed(m, m') && a in m'
    ensures Bytes(m', UsedSet(m')) == Bytes(m, UsedSet(m)) + m'[a].size
  {
    BytesMore(m', UsedSet(m), a);
    BytesSame(m, m', UsedSet(m));
  }

  lemma WasFree(m: Mem, a: int)
    requires a in m
    ensures a in UsedSet(m) <==> m[a].used
  {
  }

  lemma TakenLess(m: Mem, m': Mem, a: int)
    requires a in m && UsedSet(m') == UsedSet(m) - {a} && a in UsedSet(m) && Undisturbed(m, m')
    ensures Bytes(m', UsedSet(m')) == Bytes(m, UsedSet(m)) - m[a].size
  {
    BytesOut(m, UsedSet(m), a);
    BytesSame(m, m', UsedSet(m'));
  }

  class Heap {
    const base: int           // where in memory the heap starts
    const limit: int
    var mem: Mem
    ghost var at: seq<int>

    ghost predicate Valid()
      reads this
    {
      limit < MAX_HEAP && Sound(mem, at, limit) && Merged(mem, at)
    }

    /** amd64_heap_init. */
    constructor (base: int, limit: int)
      requires HEADER <= limit < MAX_HEAP
      ensures Valid() && this.base == base && this.limit == limit && mem == map[0 := Block(limit - HEADER, false, NULL, NULL)]
    {
      this.base, this.limit, mem, at := base, limit, map[0 := Block(limit - HEADER, false, NULL, NULL)], [0];
      new;
      assert Placed(mem, at, limit, 0);
    }

    /** heap_alloc: fails exactly when no block fits, and otherwise takes the first that does.  The
        block has the bytes asked for exactly if the request stays 32 bytes short of the address
        space.  For the sixteen requests above that the room for the header wraps around: the heap
        stays in order exactly when it has no free block of 8 bytes. */
    method Alloc(count: int) returns (ptr: int)
      requires Valid() && 0 <= count < WORD
      modifies this
      ensures Valid() <==> !Collides(old(mem), count)
      ensures Collides(old(mem), count) ==>
        && var a := ptr - HEADER;
        && a in old(mem) && Roomy(old(mem)[a]) && (forall x :: x in old(mem) && x < a ==> !Roomy(old(mem)[x]))
        && mem == Collided(old(mem), a, base) && forall s :: !Sound(mem, s, limit)
      ensures Valid() ==> (ptr == NULL <==> forall a :: a in old(mem) ==> !Fits(old(mem)[a], Rounded(count)))
      ensures Valid() && ptr == NULL ==> mem == old(mem)
      ensures Valid() && ptr != NULL ==>
        && var a := ptr - HEADER;
        && a in old(mem) && Fits(old(mem)[a], Rounded(count)) && a in mem && mem[a].size == Rounded(count)
        && (mem[a].size >= count <==> count <= WORD - 32)
        && (forall x :: x in old(mem) && x < a ==> !Fits(old(mem)[x], Rounded(count)))
        && UsedSet(mem) == UsedSet(old(mem)) + {a} && Undisturbed(old(mem), mem)
        && Bytes(mem, UsedSet(mem)) == Bytes(old(mem), UsedSet(old(mem))) + Rounded(count)
    {
      hide Sound, Merged, UsedSet, Undisturbed, Rounded, Cut, Collided, Bytes;
      var need := Rounded(count);
      RoundedExact(count);
      if count > WORD - 32 { RoundedWraps(count); }
      var room := (need + HEADER) % WORD;
      Starts(mem, at, limit);
      var block := 0;
      ghost var k := 0;
      while block != NULL
        invariant 0 <= k <= |at| && block == (if k < |at| then at[k] else NULL) && mem == old(mem) && at == old(at)
        invariant forall i :: 0 <= i < k ==> at[i] in mem && !Fits(mem[at[i]], need)
        invariant room == need + HEADER || forall i :: 0 <= i < k ==> !Roomy(mem[at[i]])
        decreases |at| - k
      {
        Step(mem, at, limit, k);
        Scanned(mem, at, limit, k, need);
        EndsInside(mem, at, limit, k);
        if !mem[block].used {
          if mem[block].size == need {
            TakeWhole(mem, at, limit, k);
            WasFree(mem, block);
            TakenMore(mem, Mark(mem, block, true), block);
            mem := Mark(mem, block, true);
            return block + HEADER;
          } else if mem[block].size >= room {
            if room != need + HEADER {
              FirstRoomy(mem, at, limit, k);
              NoHeap(mem, block, base, limit);
              mem := Collided(mem, block, base);
              return block + HEADER;
            }
            CutSound(mem, at, limit, k, need);
            CutMerged(mem, at, limit, k, need);
            WasFree(mem, block);
            TakenMore(mem, Cut(mem, block, need), block);
            mem := Cut(mem, block, need);
            at := at[..k + 1] + [block + HEADER + need] + at[k + 1..];
            return block + HEADER;
          }
        }
        block := mem[block].next;
        k := k + 1;
      }
      Scanned(mem, at, limit, k, need);
      NoneRoomy(mem, at, limit);
      return NULL;
    }

    /** heap_free of a block in use, or of nothing. */
    method Free(ptr: int)
      requires Valid() && (ptr == NULL || (ptr - HEADER in mem && mem[ptr - HEADER].used))
      modifies this
      ensures Valid()
      ensures ptr == NULL ==> mem == old(mem)
      ensures ptr != NULL ==> UsedSet(mem) == UsedSet(old(mem)) - {ptr - HEADER} && Undisturbed(old(mem), mem)
      ensures ptr != NULL ==> Bytes(mem, UsedSet(mem)) == Bytes(old(mem), UsedSet(old(mem))) - old(mem)[ptr - HEADER].size
    {
      hide Sound, Merged, UsedSet, Undisturbed, Join, Bytes;
      if ptr == NULL { return; }
      var block := ptr - HEADER;
      ghost var k := IndexOf(mem, at, limit, block);
      var prev, next := mem[block].prev, mem[block].next;
      Neighbours(mem, at, limit, k);
      FreeOne(mem, at, limit, k);
      mem := Mark(mem, block, false);
      ghost var m0, at0 := mem, at;
      if prev != NULL && !mem[prev].used {
        JoinPrev(m0, at0, limit, k);
        mem, at := Join(mem, prev), at[..k] + at[k + 1..];
        block, k := prev, k - 1;
        UndisturbedTwice(old(mem), m0, mem);
      } else {
        KeepPrev(m0, at0, limit, k);
      }
      if next != NULL && !mem[next].used {
        JoinNext(mem, at, limit, k);
        UndisturbedTwice(old(mem), mem, Join(mem, block));
        mem, at := Join(mem, block), at[..k + 1] + at[k + 2..];
      } else {
        NoJoin(mem, at, limit, k);
      }
      WasFree(old(mem), ptr - HEADER);
      TakenLess(old(mem), mem, ptr - HEADER);
    }

    /** heap_stat: the bytes in use, the bytes that are free, and how many blocks are in use; with one
        header per block they make up the heap. */
    method Stat() returns (count: int, taken: int, free: int, ghost blocks: int)
      requires Valid()
      ensures count == |UsedSet(mem)|
      ensures taken == Bytes(mem, UsedSet(mem)) && free == Bytes(mem, FreeBlocks(mem))
      ensures taken + free + HEADER * blocks == limit && blocks == |at| == |mem|
    {
      hide Sound, Merged, Bytes, UsedSet, FreeBlocks, Tally;
      Starts(mem, at, limit);
      count, taken, free, blocks := 0, 0, 0, 0;
      var block := 0;
      TallyNone(mem, at, limit);
      while block != NULL
        invariant 0 <= blocks <= |at| && block == if blocks < |at| then at[blocks] else NULL
        invariant Tally(mem, at, limit, blocks, count, taken, free)
        decreases |at| - blocks
      {
        Step(mem, at, limit, blocks);
        TallyNext(mem, at, limit, blocks, count, taken, free);
        if mem[block].used {
          count, taken := count + 1, taken + mem[block].size;
        } else {
          free := free + mem[block].size;
        }
        block := mem[block].next;
        blocks := blocks + 1;
      }
      TallyAll(mem, at, limit, count, taken, free);
    }
  }

  /** When nothing is in use the heap is again the single block it started as. */
  lemma AllFree(m: Mem, at: seq<int>, limit: int)
    requires Sound(m, at, limit) && Merged(m, at) && UsedSet(m) == {}
    ensures m == map[0 := Block(limit - HEADER, false, NULL, NULL)]
  {
    assert Placed(m, at, limit, 0);
    if |at| > 1 { TwoBlocks(m, at); }
    assert at == [0];
    forall x | x in m ensures x == 0 { assert x in at; }
    assert 0 in UsedSet(m) <==> m[0].used;
    assert m.Keys == {0};
  }

  lemma TwoBlocks(m: Mem, at: seq<int>)
    requires Merged(m, at) && |at| > 1
    ensures UsedSet(m) != {}
  {
    assert Apart(m, at, 1);
    assert at[0] in UsedSet(m) || at[1] in UsedSet(m);
  }

  lemma IndexOf(m: Mem, at: seq<int>, limit: int, a: int) returns (k: int)
    requires Sound(m, at, limit) && a in m
    ensures 0 <= k < |at| && at[k] == a
  {
    k :| 0 <= k < |at| && at[k] == a;
  }

  lemma Neighbours(m: Mem, at: seq<int>, limit: int, k: int)
    requires Sound(m, at, limit) && 0 <= k < |at|
    ensures at[k] in m && at[k] >= 0
    ensures m[at[k]].prev == (if k == 0 then NULL else at[k - 1]) && (k > 0 ==> at[k - 1] in m && at[k - 1] >= 0)
    ensures m[at[k]].next == (if k + 1 < |at| then at[k + 1] else NULL) && (k + 1 < |at| ==> at[k + 1] in m && at[k + 1] >= 0)
  {
    Distinct(m, at, limit);
    assert Placed(m, at, limit, k);
    if k > 0 { assert Placed(m, at, limit, k - 1); }
    if k + 1 < |at| { assert Placed(m, at, limit, k + 1); }
  }

  /** Every two neighbours are apart, except perhaps a free block k and the one after it. */
  ghost predicate Loose(m: Mem, at: seq<int>, k: int) {
    && 0 <= k < |at| && at[k] in m && !m[at[k]].used
    && forall i :: 0 < i < |at| && i != k + 1 ==> Apart(m, at, i)
  }

  /** The same, with the block before k in doubt as well. */
  ghost predicate Looser(m: Mem, at: seq<int>, k: int) {
    && 0 <= k < |at| && at[k] in m && !m[at[k]].used
    && forall i :: 0 < i < |at| && i != k && i != k + 1 ==> Apart(m, at, i)
  }

  lemma FreeOne(m: Mem, at: seq<int>, limit: int, k: int)
    requires Sound(m, at, limit) && Merged(m, at) && 0 <= k < |at| && at[k] in m && m[at[k]].used
    ensures var m0 := Mark(m, at[k], false);
      Sound(m0, at, limit) && Looser(m0, at, k) && UsedSet(m0) == UsedSet(m) - {at[k]} && Undisturbed(m, m0)
  {
    hide Placed;
    var m0 := Mark(m, at[k], false);
    MarkSound(m, at, limit, at[k], false);
    Distinct(m, at, limit);
    forall i | 0 < i < |at| && i != k && i != k + 1 ensures Apart(m0, at, i) { assert Apart(m, at, i); }
  }

  lemma JoinPrev(m: Mem, at: seq<int>, limit: int, k: int)
    requires Sound(m, at, limit) && Looser(m, at, k) && k > 0 && at[k - 1] in m && !m[at[k - 1]].used
    ensures m[at[k - 1]].next in m
    ensures var m1, at1 := Join(m, at[k - 1]), at[..k] + at[k + 1..];
      && Sound(m1, at1, limit) && Loose(m1, at1, k - 1) && UsedSet(m1) == UsedSet(m) && Undisturbed(m, m1)
      && (k + 1 < |at| ==> at[k + 1] in m && at[k + 1] in m1 && m1[at[k + 1]].used == m[at[k + 1]].used)
  {
    hide Placed, Join, UsedSet, Undisturbed;
    JoinSound(m, at, limit, k - 1);
    JoinUsed(m, at, limit, k - 1);
    if k + 1 < |at| { Step(m, at, limit, k + 1); Ascending(m, at, limit, k, k + 1); }
    Ascending(m, at, limit, k - 1, k);
    var m1, at1 := Join(m, at[k - 1]), at[..k] + at[k + 1..];
    forall i | 0 < i < |at1| && i != k ensures Apart(m1, at1, i) {
      if i < k {
        assert Apart(m, at, i);
        Ascending(m, at, limit, i, k);
        Ascending(m, at, limit, i - 1, k);
      } else {
        assert Apart(m, at, i + 1);
        Ascending(m, at, limit, k, i);
        Ascending(m, at, limit, k, i + 1);
      }
    }
  }

  lemma KeepPrev(m: Mem, at: seq<int>, limit: int, k: int)
    requires Sound(m, at, limit) && Looser(m, at, k) && (k > 0 ==> at[k - 1] in m && m[at[k - 1]].used)
    ensures Loose(m, at, k)
  {
    if k > 0 { assert Apart(m, at, k); }
  }

  lemma JoinNext(m: Mem, at: seq<int>, limit: int, k: int)
    requires Sound(m, at, limit) && Loose(m, at, k) && k + 1 < |at| && at[k + 1] in m && !m[at[k + 1]].used
    ensures m[at[k]].next in m
    ensures var m1, at1 := Join(m, at[k]), at[..k + 1] + at[k + 2..];
      Sound(m1, at1, limit) && Merged(m1, at1) && UsedSet(m1) == UsedSet(m) && Undisturbed(m, m1)
  {
    hide Placed, Join, UsedSet, Undisturbed;
    JoinSound(m, at, limit, k);
    JoinUsed(m, at, limit, k);
    var m1, at1 := Join(m, at[k]), at[..k + 1] + at[k + 2..];
    forall i | 0 < i < |at1| ensures Apart(m1, at1, i) { JoinApart(m, at, limit, k, i); }
  }

  lemma JoinApart(m: Mem, at: seq<int>, limit: int, k: int, i: int)
    requires Sound(m, at, limit) && Loose(m, at, k) && k + 1 < |at| && at[k + 1] in m && !m[at[k + 1]].used
    requires m[at[k]].next in m && 0 < i < |at| - 1
    requires forall x :: x in m && x != at[k + 1] ==> x in Join(m, at[k]) && Join(m, at[k])[x].used == m[x].used
    ensures Apart(Join(m, at[k]), at[..k + 1] + at[k + 2..], i)
  {
    hide Placed, Join;
    Distinct(m, at, limit);
    var at1 := at[..k + 1] + at[k + 2..];
    if i <= k {
      assert at1[i] == at[i] && at1[i - 1] == at[i - 1];
      assert Apart(m, at, i);
    } else {
      assert at1[i] == at[i + 1] && at1[i - 1] == if i == k + 1 then at[k] else at[i];
      assert Apart(m, at, i + 1);
    }
  }

  lemma NoJoin(m: Mem, at: seq<int>, limit: int, k: int)
    requires Sound(m, at, limit) && Loose(m, at, k) && (k + 1 < |at| ==> at[k + 1] in m && m[at[k + 1]].used)
    ensures Merged(m, at)
  {
    if k + 1 < |at| { assert Apart(m, at, k + 1); }
  }

  lemma UndisturbedTwice(m: Mem, m1: Mem, m2: Mem)
    requires Undisturbed(m, m1) && Undisturbed(m1, m2) && UsedSet(m2) <= UsedSet(m1)
    ensures Undisturbed(m, m2)
  {
  }

  lemma Fresh(m: Mem, at: seq<int>, limit: int, k: int)
    requires Sound(m, at, limit) && 0 <= k < |at|
    ensures at[k] in m && at[k] + HEADER + m[at[k]].size == if k + 1 < |at| then at[k + 1] else limit
    ensures at[k] !in Seen(m, at, k, m[at[k]].used)
    ensures Seen(m, at, k + 1, m[at[k]].used) == Seen(m, at, k, m[at[k]].used) + {at[k]}
    ensures Seen(m, at, k + 1, !m[at[k]].used) == Seen(m, at, k, !m[at[k]].used)
  {
    Distinct(m, at, limit);
    assert Placed(m, at, limit, k);
  }

  /** The blocks in use, or the free ones, among the first k. */
  ghost function Seen(m: Mem, at: seq<int>, k: int, used: bool): set<int>
    requires k <= |at|
  {
    set i | 0 <= i < k && at[i] in m && m[at[i]].used == used :: at[i]
  }

  lemma NoneSeen(m: Mem, at: seq<int>)
    ensures Seen(m, at, 0, true) == Seen(m, at, 0, false) == {} && Bytes(m, {}) == 0
  {
    NoBytes(m);
  }

  /** What has been counted and added up over the first k blocks. */
  ghost predicate Tally(m: Mem, at: seq<int>, limit: int, k: int, count: int, taken: int, free: int) {
    && 0 <= k <= |at| && count == |Seen(m, at, k, true)| && count + |Seen(m, at, k, false)| == k
    && taken == Bytes(m, Seen(m, at, k, true)) && free == Bytes(m, Seen(m, at, k, false))
    && taken + free + HEADER * k == if k < |at| then at[k] else limit
  }

  lemma TallyNone(m: Mem, at: seq<int>, limit: int)
    requires at != [] && at[0] == 0
    ensures Tally(m, at, limit, 0, 0, 0, 0)
  {
    hide Bytes;
    NoneSeen(m, at);
  }

  lemma TallyNext(m: Mem, at: seq<int>, limit: int, k: int, count: int, taken: int, free: int)
    requires Sound(m, at, limit) && 0 <= k < |at| && at[k] in m && Tally(m, at, limit, k, count, taken, free)
    ensures if m[at[k]].used then Tally(m, at, limit, k + 1, count + 1, taken + m[at[k]].size, free)
            else Tally(m, at, limit, k + 1, count, taken, free + m[at[k]].size)
  {
    hide Sound, Bytes, Seen;
    Fresh(m, at, limit, k);
    BytesMore(m, Seen(m, at, k, m[at[k]].used), at[k]);
    OneMore(Seen(m, at, k, m[at[k]].used), at[k]);
  }

  lemma OneMore(s: set<int>, a: int)
    requires a !in s
    ensures |s + {a}| == |s| + 1
  {
  }

  lemma TallyAll(m: Mem, at: seq<int>, limit: int, count: int, taken: int, free: int)
    requires Sound(m, at, limit) && Tally(m, at, limit, |at|, count, taken, free)
    ensures count == |UsedSet(m)| && taken == Bytes(m, UsedSet(m)) && free == Bytes(m, FreeBlocks(m))
    ensures taken + free + HEADER * |at| == limit && |at| == |m|
  {
    hide Sound, Bytes, Seen, UsedSet, FreeBlocks;
    AllSeen(m, at, limit);
  }

  lemma AllSeen(m: Mem, at: seq<int>, limit: int)
    requires Sound(m, at, limit)
    ensures Seen(m, at, |at|, true) == UsedSet(m) && Seen(m, at, |at|, false) == FreeBlocks(m)
    ensures |m| == |UsedSet(m)| + |FreeBlocks(m)|
  {
    forall x | x in m ensures x in Seen(m, at, |at|, m[x].used) {
      var i := IndexOf(m, at, limit, x);
    }
    assert m.Keys == UsedSet(m) + FreeBlocks(m);
  }

  lemma Starts(m: Mem, at: seq<int>, limit: int)
    requires Sound(m, at, limit)
    ensures at != [] && at[0] == 0 && forall k :: 0 <= k < |at| ==> at[k] >= 0
  {
    Distinct(m, at, limit);
  }

  lemma Scanned(m: Mem, at: seq<int>, limit: int, k: int, need: int)
    requires Sound(m, at, limit) && 0 <= k <= |at| && forall i :: 0 <= i < k ==> at[i] in m && !Fits(m[at[i]], need)
    ensures forall x :: x in m && (k == |at| || x < at[k]) ==> !Fits(m[x], need)
  {
    hide Placed, Fits;
    Distinct(m, at, limit);
    forall x | x in m && (k == |at| || x < at[k]) ensures !Fits(m[x], need) {
      var i :| 0 <= i < |at| && at[i] == x;
    }
  }

  lemma Step(m: Mem, at: seq<int>, limit: int, k: int)
    requires Sound(m, at, limit) && 0 <= k < |at|
    ensures at[k] in m && m[at[k]].next == if k + 1 < |at| then at[k + 1] else NULL
  {
    assert Placed(m, at, limit, k);
  }

  lemma TakeWhole(m: Mem, at: seq<int>, limit: int, k: int)
    requires Sound(m, at, limit) && Merged(m, at) && 0 <= k < |at| && at[k] in m
    ensures Sound(Mark(m, at[k], true), at, limit) && Merged(Mark(m, at[k], true), at)
    ensures UsedSet(Mark(m, at[k], true)) == UsedSet(m) + {at[k]} && Undisturbed(m, Mark(m, at[k], true))
  {
    MarkSound(m, at, limit, at[k], true);
    forall i | 0 < i < |at| ensures Apart(Mark(m, at[k], true), at, i) { assert Apart(m, at, i); }
  }
}
