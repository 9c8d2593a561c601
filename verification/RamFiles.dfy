/** A ramfs file over the physical page allocator: every block lives in a page of its own. */
module RamFiles {
  import opened Memory
  import opened RamIndex
  import opened Sequences
  import opened KernelPages
  import P = PhysicalPages

  ghost function Owned(blocks: seq<int>, tabs: seq<int>): set<int> { Items(blocks) + Items(tabs) }

  /** No page serves twice. */
  ghost predicate Apart(blocks: seq<int>, tabs: seq<int>) {
    Distinct(blocks) && Distinct(tabs) && Items(blocks) !! Items(tabs)
  }

  lemma ApartBlock(blocks: seq<int>, tabs: seq<int>, p: int)
    requires Apart(blocks, tabs) && p !in Owned(blocks, tabs)
    ensures Apart(blocks + [p], tabs) && Owned(blocks + [p], tabs) == Owned(blocks, tabs) + {p}
  {
    assert forall i :: 0 <= i < |blocks| ==> blocks[i] in Items(blocks);
  }

  lemma ApartTable(blocks: seq<int>, tabs: seq<int>, p: int)
    requires Apart(blocks, tabs) && p !in Owned(blocks, tabs)
    ensures Apart(blocks, tabs + [p]) && Owned(blocks, tabs + [p]) == Owned(blocks, tabs) + {p} && p !in tabs
  {
    assert forall i :: 0 <= i < |tabs| ==> tabs[i] in Items(tabs);
  }

  /** Pages that an index of `cap` slots takes to grow to n: one for each block, and the L1 pages. */
  function Needs(cap: int, n: int): int { n - cap + Tables(n) - Tables(cap) }

  function Count(size: int): int { (size + RAM_BLOCK - 1) / RAM_BLOCK }

  class RamFile {
    const phys: P.Allocator
    var size: int
    var cap: int
    var l0: seq<Slot>
    var l1: seq<Option<int>>
    var tables: map<int, seq<Slot>>
    var data: map<int, seq<byte>>
    ghost var blocks: seq<int>
    ghost var tabs: seq<int>

    /** The index is in order, and every page it names is taken once, for this file. */
    ghost predicate Wired()
      reads this, phys
    {
      && phys.Valid() && Indexed(l0, l1, tables, cap, blocks, tabs) && Apart(blocks, tabs)
      && Owned(blocks, tabs) <= Kernel(phys.pages, phys.usable)
      && forall p :: p in phys.usable ==> p in data && |data[p]| == RAM_BLOCK
    }

    ghost predicate Valid()
      reads this, phys
    {
      Wired() && size >= 0 && cap == Count(size) == |blocks|
    }

    /** The free pages and the file's own. */
    ghost function Pool(): set<int>
      reads this, phys
    {
      P.FreeSet(phys.pages, phys.usable) + Owned(blocks, tabs)
    }

    /** ram_vnode_create: everything zero. */
    constructor (phys: P.Allocator, data: map<int, seq<byte>>)
      requires phys.Valid() && forall p :: p in phys.usable ==> p in data && |data[p]| == RAM_BLOCK
      ensures this.phys == phys && this.data == data && Valid() && size == 0 && Pool() == P.FreeSet(phys.pages, phys.usable)
    {
      this.phys, this.data := phys, data;
      size, cap, tables, blocks, tabs := 0, 0, map[], [], [];
      l0, l1 := seq(L0, _ => Zero), seq(L1, _ => None);
    }

    /** Makes sure that the L1 page of the next slot is there. */
    method NeedTable() returns (ok: bool)
      requires Wired() && L0 <= cap < MAX_SLOTS
      modifies this`l1, this`tables, this`tabs, phys
      ensures phys.Valid()
      ensures ok <==> old(phys.pagesFree) >= Tables(cap + 1) - Tables(cap)
      ensures ok ==> Paged(l0, l1, tables, cap + 1, tabs) && Apart(blocks, tabs) && Owned(blocks, tabs) <= Kernel(phys.pages, phys.usable)
      ensures ok ==> forall k :: 0 <= k < cap ==> SlotAt(l0, l1, tables, k) == if k < |blocks| then Held(blocks[k]) else Avail
      ensures ok ==> Pool() == old(Pool()) && phys.pagesFree == old(phys.pagesFree) - (Tables(cap + 1) - Tables(cap))
    {
      hide Indexed, P.GoodPages, P.GoodCounts, P.FreeSet, Apart, Owned, Kernel, Paged, Tables;
      IndexShape(l0, l1, tables, cap, blocks, tabs);
      TablesStep(cap);
      FreeNat(phys);
      TableHere(l0, l1, tables, cap, blocks, tabs);
      var i := (cap - L0) / PER_PAGE;
      if l1[i].None? {
        KernelNotFree(phys.pages, phys.usable);
        var r := TakePage(phys);
        if r.None? { return false; }
        ApartTable(blocks, tabs, r.value);
        AddTable(l0, l1, tables, cap, blocks, tabs, r.value);
        l1 := l1[i := Some(r.value)];
        tables := tables[r.value := seq(PER_PAGE, _ => Zero)];
        tabs := tabs + [r.value];
      }
      ok := true;
    }

    /** One round of the growing loop of ram_vnode_bset_resize. */
    method AddSlot() returns (ok: bool)
      requires Wired() && cap < MAX_SLOTS
      modifies this`cap, this`l0, this`l1, this`tables, this`tabs, phys
      ensures phys.Valid()
      ensures ok <==> old(phys.pagesFree) >= Tables(old(cap) + 1) - Tables(old(cap))
      ensures ok ==> Wired() && cap == old(cap) + 1 && Pool() == old(Pool())
      ensures ok ==> phys.pagesFree == old(phys.pagesFree) - (Tables(cap) - Tables(old(cap)))
    {
      hide Indexed, P.GoodPages, P.GoodCounts, P.FreeSet, Apart, Owned, Kernel, Paged, Tables;
      ok := true;
      IndexShape(l0, l1, tables, cap, blocks, tabs);
      TablesStep(cap);
      FreeNat(phys);
      if cap < L0 {
        GrowDirect(l0, l1, tables, cap, blocks, tabs);
        assert l0[cap] == Zero;
        l0 := PutDirect(l0, cap, Avail);
      } else {
        ok := NeedTable();
        if !ok { return; }
        GrowTable(l0, l1, tables, cap, blocks, tabs);
        TableIs(l0, l1, tables, cap + 1, tabs, (cap - L0) / PER_PAGE);
        tables := PutTable(tables, l1[(cap - L0) / PER_PAGE].value, cap, Avail);
      }
      cap := cap + 1;
    }

    /** ram_vnode_bset_set of an allocated page: the slot was available and empty before. */
    method SetSlot(k: int, p: int)
      requires Wired() && k == |blocks| < cap && p !in Owned(blocks, tabs) && p in Kernel(phys.pages, phys.usable)
      modifies this`l0, this`tables, this`blocks
      ensures Wired() && blocks == old(blocks) + [p] && Owned(blocks, tabs) == old(Owned(blocks, tabs)) + {p}
    {
      hide Indexed, P.GoodPages, P.GoodCounts, P.FreeSet, Apart, Owned, Kernel, Paged, Tables;
      IndexShape(l0, l1, tables, cap, blocks, tabs);
      ApartBlock(blocks, tabs, p);
      if k < L0 {
        FillDirect(l0, l1, tables, cap, blocks, tabs, p);
        assert l0[k] == Avail;
        l0 := PutDirect(l0, k, Held(p));
      } else {
        FillTable(l0, l1, tables, cap, blocks, tabs, p);
        TableIs(l0, l1, tables, cap, tabs, (k - L0) / PER_PAGE);
        var t := l1[(k - L0) / PER_PAGE].value;
        assert tables[t][(k - L0) % PER_PAGE] == Avail;
        tables := PutTable(tables, t, k, Held(p));
      }
      blocks := blocks + [p];
    }

    /** ram_vnode_bset_get. */
    method GetSlot(k: int) returns (p: int)
      requires Wired() && 0 <= k < |blocks|
      ensures p == blocks[k]
    {
      hide P.GoodPages, P.GoodCounts, P.FreeSet, Apart, Owned, Kernel;
      IndexShape(l0, l1, tables, cap, blocks, tabs);
      assert SlotAt(l0, l1, tables, k) == Held(blocks[k]);
      if k < L0 { return l0[k].page; }
      TablesCover(k, cap);
      TableIs(l0, l1, tables, cap, tabs, (k - L0) / PER_PAGE);
      return tables[l1[(k - L0) / PER_PAGE].value][(k - L0) % PER_PAGE].page;
    }

    /** Growing: the index first, then a page for every new slot.  It can go on exactly when the
        allocator has the pages. */
    method Grow(newSize: int) returns (ok: bool)
      requires Valid() && newSize >= size && Count(newSize) <= MAX_SLOTS
      modifies this`size, this`cap, this`l0, this`l1, this`tables, this`blocks, this`tabs, phys
      ensures ok <==> old(phys.pagesFree) >= Needs(old(cap), Count(newSize))
      ensures ok ==> Valid() && size == newSize && Pool() == old(Pool()) && blocks[..old(cap)] == old(blocks)
      ensures ok ==> phys.pagesFree == old(phys.pagesFree) - (cap - old(cap)) - (Tables(cap) - Tables(old(cap)))
    {
      hide Indexed, P.GoodPages, P.GoodCounts, P.FreeSet, Apart, Owned, Kernel, Tables;
      var count, i := Count(newSize), cap;
      FreeNat(phys);
      while cap < count
        invariant old(cap) <= cap <= count && Wired() && Pool() == old(Pool()) && blocks == old(blocks)
        invariant phys.pagesFree == old(phys.pagesFree) - (Tables(cap) - Tables(old(cap))) >= 0
        decreases count - cap
      {
        TablesMono(cap + 1, count);
        ok := AddSlot();
        if !ok { return; }
        FreeNat(phys);
      }
      size := newSize;
      while i < count
        invariant old(cap) <= i <= count == cap && Wired() && Pool() == old(Pool()) && |blocks| == i && blocks[..old(cap)] == old(blocks)
        invariant phys.pagesFree == old(phys.pagesFree) - (Tables(cap) - Tables(old(cap))) - (i - old(cap)) >= 0
        invariant size == newSize
      {
        KernelNotFree(phys.pages, phys.usable);
        var r := TakePage(phys);
        if r.None? { return false; }
        SetSlot(i, r.value);
        FreeNat(phys);
        i := i + 1;
      }
      ok := true;
    }

    /** The freeing loop of ram_vnode_bset_resize over the blocks count..cap. */
    method FreeBlocks(count: int)
      requires Wired() && |blocks| == cap && 0 <= count <= cap
      modifies this`l0, phys
      ensures phys.Valid() && Shrinking(l0, l1, tables, cap, blocks, tabs, count, cap)
      ensures P.FreeSet(phys.pages, phys.usable) == P.FreeSet(old(phys.pages), phys.usable) + Items(blocks[count..])
      ensures Kernel(phys.pages, phys.usable) == Kernel(old(phys.pages), phys.usable) - Items(blocks[count..])
      ensures phys.pagesFree == old(phys.pagesFree) + cap - count
    {
      hide Indexed, Shrinking, P.GoodPages, P.GoodCounts, P.FreeSet, Apart, Owned, Kernel, Items, Tables;
      var i := count;
      StartShrinking(l0, l1, tables, cap, blocks, tabs, count);
      assert blocks[count..count] == [];
      NoItems();
      while i < cap
        invariant count <= i <= cap && phys.Valid() && Shrinking(l0, l1, tables, cap, blocks, tabs, count, i)
        invariant P.FreeSet(phys.pages, phys.usable) == P.FreeSet(old(phys.pages), phys.usable) + Items(blocks[count..i])
        invariant Kernel(phys.pages, phys.usable) == Kernel(old(phys.pages), phys.usable) - Items(blocks[count..i])
        invariant phys.pagesFree == old(phys.pagesFree) + i - count
      {
        ShrinkStep(l0, l1, tables, cap, blocks, tabs, count, i);
        ShrinkReads(l0, l1, tables, cap, blocks, tabs, count, i);
        var slot;
        if i < L0 {
          slot := l0[i];
          l0 := PutDirect(l0, i, Zero);
        } else {
          slot := tables[l1[(i - L0) / PER_PAGE].value][(i - L0) % PER_PAGE];
        }
        StillTaken(blocks, tabs, count, i);
        GivePage(phys, slot.page);
        i := i + 1;
      }
      assert blocks[count..cap] == blocks[count..];
    }

    /** The loop of ram_vnode_bset_resize that drops L1 pages from..to. */
    method FreeTables(from: int, to: int)
      requires phys.Valid() && Paged(l0, l1, tables, cap, tabs) && 0 <= from <= to == |tabs|
      requires Items(tabs) <= Kernel(phys.pages, phys.usable)
      modifies this`l1, this`tables, phys
      ensures phys.Valid() && l1 == DropTables(old(l1), from, to) && tables == old(tables) - Items(tabs[from..])
      ensures P.FreeSet(phys.pages, phys.usable) == P.FreeSet(old(phys.pages), phys.usable) + Items(tabs[from..])
      ensures Kernel(phys.pages, phys.usable) == Kernel(old(phys.pages), phys.usable) - Items(tabs[from..])
      ensures phys.pagesFree == old(phys.pagesFree) + to - from
    {
      hide P.GoodPages, P.GoodCounts, P.FreeSet, Kernel, Items, Tables;
      var i := from;
      assert tabs[from..from] == [] && DropTables(l1, from, from) == l1;
      NoItems();
      assert tables - Items([]) == tables;
      while i < to
        invariant from <= i <= to && phys.Valid() && l1 == DropTables(old(l1), from, i) && tables == old(tables) - Items(tabs[from..i])
        invariant P.FreeSet(phys.pages, phys.usable) == P.FreeSet(old(phys.pages), phys.usable) + Items(tabs[from..i])
        invariant Kernel(phys.pages, phys.usable) == Kernel(old(phys.pages), phys.usable) - Items(tabs[from..i])
        invariant phys.pagesFree == old(phys.pagesFree) + i - from
      {
        assert old(l1)[i] == Some(tabs[i]);
        MoreItems(tabs, from, i);
        GivePage(phys, l1[i].value);
        tables := tables - {l1[i].value};
        l1 := l1[i := None];
        i := i + 1;
      }
      assert tabs[from..to] == tabs[from..];
    }

    /** ram_vnode_bset_resize to a smaller size: every page beyond it goes back, each once. */
    method Shrink(newSize: int)
      requires Valid() && 0 <= newSize <= size
      modifies this`size, this`cap, this`l0, this`l1, this`tables, this`blocks, this`tabs, phys
      ensures Valid() && size == newSize && blocks == old(blocks)[..Count(newSize)] && Pool() == old(Pool())
      ensures phys.pagesFree == old(phys.pagesFree) + old(cap) - cap + Tables(old(cap)) - Tables(cap)
    {
      hide Indexed, Shrinking, P.GoodPages, P.GoodCounts, P.FreeSet, Apart, Owned, Kernel, Items, DropTables, Paged, Tables;
      var count := Count(newSize);
      IndexShape(l0, l1, tables, cap, blocks, tabs);
      FreeBlocks(count);
      ShrinkDone(l0, l1, tables, cap, blocks, tabs, count);
      ShrinkPaged(l0, l1, tables, cap, blocks, tabs, count);
      SplitOwned(blocks, tabs, count, Tables(count));
      FreeTables(Tables(count), Tables(cap));
      cap, size := count, newSize;
      blocks, tabs := blocks[..count], tabs[..Tables(count)];
    }

    /** What the file holds. */
    ghost function Contents(): seq<byte>
      requires Valid()
      reads this, phys
    {
      Bytes(data, blocks, size)
    }

    /** ramfs_vnode_truncate: the common prefix stays; at size 0 the file owns no page at all. */
    method Truncate(newSize: int) returns (ok: bool)
      requires Valid() && newSize >= 0 && Count(newSize) <= MAX_SLOTS
      modifies this, phys
      ensures ok <==> newSize <= old(size) || old(phys.pagesFree) >= Needs(old(cap), Count(newSize))
      ensures ok ==> Valid() && size == newSize && Pool() == old(Pool())
      ensures ok ==> forall p :: 0 <= p < newSize && p < old(size) ==> Contents()[p] == old(Contents())[p]
      ensures ok && newSize == 0 ==> P.FreeSet(phys.pages, phys.usable) == Pool()
    {
      hide Wired, P.FreeSet, Owned, Byte;
      ok := true;
      if newSize > size {
        ok := Grow(newSize);
      } else if newSize < size {
        Shrink(newSize);
      }
      if ok {
        PrefixBytes(old(data), old(blocks), blocks, old(size), size);
        if newSize == 0 { NoneOwned(this); }
      }
    }

    /** One round of ramfs_vnode_read. */
    method ReadChunk(cur: int, n: int) returns (s: seq<byte>)
      requires Valid() && 0 <= cur < size && 0 <= n && cur + n <= size && cur % RAM_BLOCK + n <= RAM_BLOCK
      ensures s == Contents()[cur..cur + n]
    {
      hide Indexed, P.GoodPages, P.GoodCounts, P.FreeSet, Apart, Kernel, Bytes, Byte;
      InRange(cur, size);
      var p := GetSlot(cur / RAM_BLOCK);
      BlockHeld(this, cur / RAM_BLOCK);
      ChunkRead(data, blocks, size, cur, n);
      s := data[p][cur % RAM_BLOCK..cur % RAM_BLOCK + n];
    }

    /** ramfs_vnode_read. */
    method Read(pos: int, count: int) returns (out: seq<byte>)
      requires Valid() && pos >= 0 && count >= 0
      ensures out == if pos >= size then [] else Contents()[pos..if pos + count < size then pos + count else size]
    {
      hide Wired, Bytes;
      out := [];
      if pos >= size { return; }
      var rem := if count < size - pos then count else size - pos;
      var cur := pos;
      BytesLength(data, blocks, size);
      while rem > 0
        invariant pos <= cur && rem >= 0 && cur + rem == if pos + count < size then pos + count else size
        invariant out == Contents()[pos..cur]
      {
        var offset := cur % RAM_BLOCK;
        var chunk := if rem < RAM_BLOCK - offset then rem else RAM_BLOCK - offset;
        var s := ReadChunk(cur, chunk);
        SliceJoin(Contents(), pos, cur, cur + chunk);
        out := out + s;
        cur, rem := cur + chunk, rem - chunk;
      }
    }

    /** One round of ramfs_vnode_write. */
    method WriteChunk(cur: int, s: seq<byte>)
      requires Valid() && 0 <= cur && cur + |s| <= size && 0 < |s| <= RAM_BLOCK - cur % RAM_BLOCK
      modifies this`data
      ensures Valid()
      ensures forall p :: 0 <= p < size ==>
        Byte(data, blocks, p) == if cur <= p < cur + |s| then s[p - cur] else old(Byte(data, blocks, p))
    {
      hide Indexed, P.GoodPages, P.GoodCounts, P.FreeSet, Kernel, Byte;
      var offset := cur % RAM_BLOCK;
      InRange(cur, size);
      BlockHeld(this, cur / RAM_BLOCK);
      var b := GetSlot(cur / RAM_BLOCK);
      data := data[b := data[b][..offset] + s + data[b][offset + |s|..]];
      forall p | 0 <= p < size
        ensures Byte(data, blocks, p) == if cur <= p < cur + |s| then s[p - cur] else Byte(old(data), blocks, p)
      {
        ByteWritten(old(data), data, blocks, size, cur, s, p);
      }
    }

    /** ramfs_vnode_write at or before the end of the file. */
    method Write(pos: int, buf: seq<byte>) returns (n: int, ok: bool)
      requires Valid() && 0 <= pos <= size && Count(pos + |buf|) <= MAX_SLOTS
      modifies this, phys
      ensures ok <==> pos + |buf| <= old(size) || old(phys.pagesFree) >= Needs(old(cap), Count(pos + |buf|))
      ensures ok ==> n == |buf| && Valid() && Pool() == old(Pool())
      ensures ok ==>
        Contents() == old(Contents())[..pos] + buf + if pos + |buf| < old(size) then old(Contents())[pos + |buf|..] else []
    {
      hide Wired, P.FreeSet, Byte, Owned;
      ok, n := true, 0;
      if pos + |buf| > size { ok := Grow(pos + |buf|); }
      if !ok { return; }
      PrefixBytes(old(data), old(blocks), blocks, old(size), size);
      label Grown:
      while n < |buf|
        invariant 0 <= n <= |buf| && Valid() && size == old@Grown(size) && Pool() == old(Pool()) && blocks == old@Grown(blocks)
        invariant forall p :: 0 <= p < size ==>
          Byte(data, blocks, p) == if pos <= p < pos + n then buf[p - pos] else Byte(old@Grown(data), blocks, p)
      {
        var room := RAM_BLOCK - (pos + n) % RAM_BLOCK;
        var chunk := if |buf| - n < room then |buf| - n else room;
        WriteChunk(pos + n, buf[n..n + chunk]);
        n := n + chunk;
      }
      assert Contents() == old(Contents())[..pos] + buf + if pos + |buf| < old(size) then old(Contents())[pos + |buf|..] else [];
    }
  }

  ghost function Byte(data: map<int, seq<byte>>, blocks: seq<int>, p: int): byte {
    if 0 <= p < |blocks| * RAM_BLOCK && blocks[p / RAM_BLOCK] in data && |data[blocks[p / RAM_BLOCK]]| == RAM_BLOCK
    then data[blocks[p / RAM_BLOCK]][p % RAM_BLOCK] else 0
  }

  ghost function Bytes(data: map<int, seq<byte>>, blocks: seq<int>, size: int): seq<byte>
    requires size >= 0
  {
    seq(size, p => Byte(data, blocks, p))
  }

  lemma BytesLength(data: map<int, seq<byte>>, blocks: seq<int>, size: int)
    requires size >= 0
    ensures |Bytes(data, blocks, size)| == size
  {
  }

  lemma InRange(p: int, size: int)
    requires 0 <= p < size
    ensures 0 <= p / RAM_BLOCK < Count(size)
  {
  }

  lemma BlockHeld(f: RamFile, k: int)
    requires f.Wired() && 0 <= k < |f.blocks|
    ensures f.blocks[k] in f.phys.usable && f.blocks[k] in f.data && |f.data[f.blocks[k]]| == RAM_BLOCK
  {
    assert f.blocks[k] in Owned(f.blocks, f.tabs);
  }

  lemma NoneOwned(f: RamFile)
    requires f.Valid() && f.size == 0
    ensures Owned(f.blocks, f.tabs) == {}
  {
  }

  lemma PrefixBytes(data: map<int, seq<byte>>, blocks: seq<int>, blocks': seq<int>, size: int, size': int)
    requires size >= 0 && size' >= 0 && |blocks| == Count(size) && |blocks'| == Count(size')
    requires blocks <= blocks' || blocks' <= blocks
    ensures forall p :: 0 <= p < size && p < size' ==> Byte(data, blocks', p) == Byte(data, blocks, p)
  {
    forall p | 0 <= p < size && p < size' ensures Byte(data, blocks', p) == Byte(data, blocks, p) {
      InRange(p, size);
      InRange(p, size');
    }
  }

  lemma ChunkRead(data: map<int, seq<byte>>, blocks: seq<int>, size: int, cur: int, n: int)
    requires 0 <= cur && 0 <= n && cur + n <= size && |blocks| == Count(size) && cur % RAM_BLOCK + n <= RAM_BLOCK
    requires 0 <= cur / RAM_BLOCK < |blocks| && blocks[cur / RAM_BLOCK] in data && |data[blocks[cur / RAM_BLOCK]]| == RAM_BLOCK
    ensures |Bytes(data, blocks, size)| == size
    ensures Bytes(data, blocks, size)[cur..cur + n] == data[blocks[cur / RAM_BLOCK]][cur % RAM_BLOCK..cur % RAM_BLOCK + n]
  {
    var s, t := Bytes(data, blocks, size)[cur..cur + n], data[blocks[cur / RAM_BLOCK]][cur % RAM_BLOCK..cur % RAM_BLOCK + n];
    forall i | 0 <= i < n ensures s[i] == t[i] {
      assert (cur + i) / RAM_BLOCK == cur / RAM_BLOCK && (cur + i) % RAM_BLOCK == cur % RAM_BLOCK + i;
      assert Bytes(data, blocks, size)[cur + i] == Byte(data, blocks, cur + i);
    }
  }

  lemma ByteWritten(data: map<int, seq<byte>>, next: map<int, seq<byte>>, blocks: seq<int>, size: int, cur: int, s: seq<byte>, p: int)
    requires 0 <= cur && cur + |s| <= size && |blocks| == Count(size) && cur % RAM_BLOCK + |s| <= RAM_BLOCK && Distinct(blocks)
    requires 0 <= cur / RAM_BLOCK < |blocks| && blocks[cur / RAM_BLOCK] in data && |data[blocks[cur / RAM_BLOCK]]| == RAM_BLOCK
    requires var b, o := blocks[cur / RAM_BLOCK], cur % RAM_BLOCK; next == data[b := data[b][..o] + s + data[b][o + |s|..]]
    requires 0 <= p < size
    ensures Byte(next, blocks, p) == if cur <= p < cur + |s| then s[p - cur] else Byte(data, blocks, p)
  {
    InRange(p, size);
    if p / RAM_BLOCK != cur / RAM_BLOCK {
      assert blocks[p / RAM_BLOCK] != blocks[cur / RAM_BLOCK];
    } else {
      assert p - cur == p % RAM_BLOCK - cur % RAM_BLOCK;
    }
  }

  lemma StillTaken(blocks: seq<int>, tabs: seq<int>, count: int, i: int)
    requires Apart(blocks, tabs) && 0 <= count <= i < |blocks|
    ensures blocks[i] in Owned(blocks, tabs) && blocks[i] !in Items(blocks[count..i])
    ensures Items(blocks[count..i + 1]) == Items(blocks[count..i]) + {blocks[i]}
  {
    MoreItems(blocks, count, i);
  }

  lemma StartShrinking(l0: seq<Slot>, l1: seq<Option<int>>, tables: map<int, seq<Slot>>, cap: int, blocks: seq<int>, tabs: seq<int>, count: int)
    requires Indexed(l0, l1, tables, cap, blocks, tabs) && |blocks| == cap && 0 <= count <= cap
    ensures Shrinking(l0, l1, tables, cap, blocks, tabs, count, count)
  {
  }

  lemma ShrinkReads(l0: seq<Slot>, l1: seq<Option<int>>, tables: map<int, seq<Slot>>, cap: int, blocks: seq<int>, tabs: seq<int>, count: int, i: int)
    requires Shrinking(l0, l1, tables, cap, blocks, tabs, count, i) && i < cap
    ensures |l0| == L0 && i < L0 ==> l0[i] == Held(blocks[i])
    ensures |l0| == L0 && |l1| == L1
    ensures i >= L0 ==>
      && var j := (i - L0) / PER_PAGE;
      && 0 <= j < L1 && l1[j].Some? && l1[j].value in tables && |tables[l1[j].value]| == PER_PAGE
      && tables[l1[j].value][(i - L0) % PER_PAGE] == Held(blocks[i])
  {
    assert SlotAt(l0, l1, tables, i) == Held(blocks[i]);
    TablesCover(i, cap);
    if i >= L0 { TableIs(l0, l1, tables, cap, tabs, (i - L0) / PER_PAGE); }
  }

  lemma ShrinkPaged(l0: seq<Slot>, l1: seq<Option<int>>, tables: map<int, seq<Slot>>, cap: int, blocks: seq<int>, tabs: seq<int>, count: int)
    requires Shrinking(l0, l1, tables, cap, blocks, tabs, count, cap)
    ensures Paged(l0, l1, tables, cap, tabs) && |tabs| == Tables(cap)
  {
  }

  /** Cutting both page lists splits what the file owns. */
  lemma SplitOwned(blocks: seq<int>, tabs: seq<int>, count: int, n: int)
    requires Apart(blocks, tabs) && 0 <= count <= |blocks| && 0 <= n <= |tabs|
    ensures Apart(blocks[..count], tabs[..n])
    ensures Owned(blocks, tabs) == Owned(blocks[..count], tabs[..n]) + Items(blocks[count..]) + Items(tabs[n..])
    ensures Owned(blocks[..count], tabs[..n]) !! Items(blocks[count..]) + Items(tabs[n..])
    ensures Items(tabs) <= Owned(blocks, tabs) && Items(tabs) !! Items(blocks[count..])
  {
    assert blocks == blocks[..count] + blocks[count..];
    assert tabs == tabs[..n] + tabs[n..];
    assert forall x :: x in Items(blocks[..count]) || x in Items(blocks[count..]) ==> x in Items(blocks);
    assert forall x :: x in Items(tabs[..n]) || x in Items(tabs[n..]) ==> x in Items(tabs);
  }

  lemma IndexShape(l0: seq<Slot>, l1: seq<Option<int>>, tables: map<int, seq<Slot>>, cap: int, blocks: seq<int>, tabs: seq<int>)
    requires Indexed(l0, l1, tables, cap, blocks, tabs)
    ensures |l0| == L0 && |l1| == L1 && |blocks| <= cap <= MAX_SLOTS && 0 <= cap && |tabs| == Tables(cap) <= L1
    ensures Paged(l0, l1, tables, cap, tabs)
    ensures forall k :: 0 <= k < cap ==> SlotAt(l0, l1, tables, k) == if k < |blocks| then Held(blocks[k]) else Avail
  {
  }

  lemma TableIs(l0: seq<Slot>, l1: seq<Option<int>>, tables: map<int, seq<Slot>>, cap: int, tabs: seq<int>, i: int)
    requires Paged(l0, l1, tables, cap, tabs) && 0 <= i < |tabs|
    ensures |l1| == L1 && i < L1 && l1[i] == Some(tabs[i]) && tabs[i] in tables && |tables[tabs[i]]| == PER_PAGE
  {
  }

  /** Whether the L1 page of the next slot is there. */
  lemma TableHere(l0: seq<Slot>, l1: seq<Option<int>>, tables: map<int, seq<Slot>>, cap: int, blocks: seq<int>, tabs: seq<int>)
    requires Indexed(l0, l1, tables, cap, blocks, tabs) && L0 <= cap < MAX_SLOTS
    ensures var i := (cap - L0) / PER_PAGE;
      && 0 <= i < L1 && |l1| == L1 && (l1[i].None? <==> i == |tabs|) && i <= |tabs|
      && (l1[i].Some? ==> Paged(l0, l1, tables, cap + 1, tabs) && Tables(cap + 1) == Tables(cap))
      && (l1[i].None? ==> Tables(cap + 1) == Tables(cap) + 1)
  {
    TablesStep(cap);
  }
}
