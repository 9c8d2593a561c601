/** An ext2 file: twelve direct block numbers, one block of indirect ones, and the data blocks. */
module Ext2Files {
  import opened Memory
  import opened Sequences
  import opened Ext2Layout
  import G = Ext2Groups

  const DIRECT := 12
  const BLOCK_ENTRIES := 256
  const MAX_BLOCKS := 268

  /** Index k of the file names block b. */
  ghost predicate Names(disk: seq<Block>, direct: seq<int>, l1: int, k: int, b: int)
    requires |direct| == DIRECT && 0 <= k < MAX_BLOCKS
  {
    if k < DIRECT then direct[k] == b else 0 < l1 < |disk| && Word32(disk[l1], 4 * (k - DIRECT)) == b
  }

  /** The inode and its indirect block name exactly these data blocks. */
  ghost predicate Mapped(disk: seq<Block>, direct: seq<int>, l1: int, blocks: seq<int>) {
    && |direct| == DIRECT && |blocks| <= MAX_BLOCKS
    && (l1 != 0 <==> |blocks| > DIRECT) && 0 <= l1 < |disk|
    && forall k :: 0 <= k < |blocks| ==> Names(disk, direct, l1, k, blocks[k])
  }

  ghost function Owned(blocks: seq<int>, l1: int): set<int> {
    (set b | b in blocks) + if l1 == 0 then {} else {l1}
  }

  /** No block serves twice. */
  ghost predicate Separate(blocks: seq<int>, l1: int) {
    l1 !in blocks && forall i, j :: 0 <= i < j < |blocks| ==> blocks[i] != blocks[j]
  }

  function Max(a: int, b: int): int { if a < b then b else a }

  function Count(size: int): int { (size + BLOCK_SIZE - 1) / BLOCK_SIZE }

  /** Blocks needed for n data blocks, indirect block included. */
  function Blocks(n: int): int { if n > DIRECT then n + 1 else n }

  ghost function Byte(disk: seq<Block>, blocks: seq<int>, p: int): byte {
    if 0 <= p < |blocks| * BLOCK_SIZE && 0 <= blocks[p / BLOCK_SIZE] < |disk|
    then disk[blocks[p / BLOCK_SIZE]][p % BLOCK_SIZE] else 0
  }

  /** What the file holds. */
  ghost function Bytes(disk: seq<Block>, blocks: seq<int>, size: int): seq<byte>
    requires size >= 0
  {
    seq(size, p => Byte(disk, blocks, p))
  }

  // ---------------------------------------------------------------- pointers

  lemma PointerStored(b: Block, k: int, v: int, j: int)
    requires 0 <= k < BLOCK_ENTRIES && 0 <= j < BLOCK_ENTRIES && 0 <= v < 0x1_0000_0000
    ensures Word32(Copy(b, 4 * k, Bytes32(v)), 4 * j) == if j == k then v else Word32(b, 4 * j)
  {
    hide Copy;
    if j == k { Stored32(b, 4 * k, v); } else { Copied(b, 4 * k, Bytes32(v)); }
  }

  lemma NamesStored(disk: seq<Block>, direct: seq<int>, l1: int, k: int, v: int, j: int, b: int)
    requires |direct| == DIRECT && DIRECT <= k < MAX_BLOCKS && 0 <= j < MAX_BLOCKS && 0 < l1 < |disk| && 0 <= v < 0x1_0000_0000
    ensures Names(disk[l1 := Copy(disk[l1], 4 * (k - DIRECT), Bytes32(v))], direct, l1, j, b) <==>
      if j == k then v == b else Names(disk, direct, l1, j, b)
  {
    hide Copy, Word32, Bytes32;
    if j >= DIRECT { PointerStored(disk[l1], k - DIRECT, v, j - DIRECT); }
  }

  /** Writing a data block leaves the map alone. */
  lemma MappedData(disk: seq<Block>, direct: seq<int>, l1: int, blocks: seq<int>, b: int, c: Block)
    requires Mapped(disk, direct, l1, blocks) && 0 <= b < |disk| && b != l1
    ensures Mapped(disk[b := c], direct, l1, blocks)
  {
    hide Word32;
    forall k | 0 <= k < |blocks| ensures Names(disk[b := c], direct, l1, k, blocks[k]) {
      assert Names(disk, direct, l1, k, blocks[k]);
    }
  }

  lemma AppendDirect(disk: seq<Block>, direct: seq<int>, l1: int, blocks: seq<int>, b: int)
    requires Mapped(disk, direct, l1, blocks) && |blocks| < DIRECT
    ensures Mapped(disk, direct[|blocks| := b], l1, blocks + [b])
  {
    hide Word32;
    var d := direct[|blocks| := b];
    forall k | 0 <= k <= |blocks| ensures Names(disk, d, l1, k, (blocks + [b])[k]) {
      if k < |blocks| { assert Names(disk, direct, l1, k, blocks[k]); }
    }
  }

  lemma AppendIndirect(disk: seq<Block>, direct: seq<int>, l1: int, blocks: seq<int>, b: int, m: int)
    requires Mapped(disk, direct, l1, blocks) && DIRECT <= |blocks| < MAX_BLOCKS && 0 <= b < 0x1_0000_0000
    requires 0 < m < |disk| && (l1 != 0 ==> m == l1)
    ensures Mapped(disk[m := Copy(disk[m], 4 * (|blocks| - DIRECT), Bytes32(b))], direct, m, blocks + [b])
  {
    hide Word32, Copy, Bytes32;
    var d, n := disk[m := Copy(disk[m], 4 * (|blocks| - DIRECT), Bytes32(b))], |blocks|;
    forall k | 0 <= k <= n ensures Names(d, direct, m, k, (blocks + [b])[k]) {
      NamesStored(disk, direct, m, n, b, k, (blocks + [b])[k]);
      if k < n { assert Names(disk, direct, l1, k, blocks[k]); }
    }
  }

  /** A data block taken from the free ones, and an indirect block with it where one is needed. */
  lemma AppendOwned(free: set<int>, left: set<int>, blocks: seq<int>, l1: int, b: int, m: int)
    requires Separate(blocks, l1) && Owned(blocks, l1) !! free && b in free && 0 !in free
    requires (m == l1 && left == free - {b}) || (l1 == 0 && m in free - {b} && left == free - {b} - {m})
    ensures Separate(blocks + [b], m) && Owned(blocks + [b], m) !! left
    ensures left + Owned(blocks + [b], m) == free + Owned(blocks, l1)
  {
    assert forall i :: 0 <= i < |blocks| ==> blocks[i] in Owned(blocks, l1);
  }

  // ---------------------------------------------------------------- the file

  class Ext2File {
    const table: G.GroupTable
    var disk: seq<Block>
    var direct: seq<int>
    var l1: int
    var size: int
    var sectors: int
    ghost var blocks: seq<int>

    ghost function Limit(): int
      reads table
    {
      |table.bits| * table.per
    }

    /** The volume can hold every block number the table hands out. */
    ghost predicate Volume()
      reads this, table
    {
      table.Valid() && Limit() < |disk| <= 0x1_0000_0000
    }

    /** The block map is in order and every block of the file is allocated. */
    ghost predicate Wired()
      reads this, table
    {
      && Volume() && Mapped(disk, direct, l1, blocks) && Separate(blocks, l1)
      && Owned(blocks, l1) !! table.Free() && forall b :: b in Owned(blocks, l1) ==> 1 <= b <= Limit()
    }

    ghost predicate Valid()
      reads this, table
    {
      Wired() && size >= 0 && |blocks| == Count(size) && sectors == 2 * Blocks(|blocks|)
    }

    ghost function Contents(): seq<byte>
      requires Valid()
      reads this, table
    {
      Bytes(disk, blocks, size)
    }

    /** Everything this file could ever use: its own blocks and the free ones. */
    ghost function Pool(): set<int>
      requires table.Valid()
      reads this, table
    {
      table.Free() + Owned(blocks, l1)
    }

    /** A new file on a volume. */
    constructor (table: G.GroupTable, disk: seq<Block>)
      requires table.Valid() && |table.bits| * table.per < |disk| <= 0x1_0000_0000
      ensures this.table == table && this.disk == disk && Valid() && Contents() == [] && Pool() == table.Free()
    {
      this.table, this.disk := table, disk;
      direct, l1, size, sectors, blocks := seq(DIRECT, _ => 0), 0, 0, 0, [];
    }

    /** ext2_inode_get_index. */
    method GetIndex(k: int) returns (b: int)
      requires |direct| == DIRECT && 0 <= k < MAX_BLOCKS && (k >= DIRECT ==> 0 < l1 < |disk|)
      ensures Names(disk, direct, l1, k, b)
    {
      if k < DIRECT { return direct[k]; }
      return Word32(disk[l1], 4 * (k - DIRECT));
    }

    /** ext2_inode_set_index: `ok` is false where the machine would stop for want of a block. */
    method SetIndex(k: int, v: int) returns (ok: bool)
      requires Volume() && |direct| == DIRECT && 0 <= l1 < |disk| && 0 <= k < MAX_BLOCKS && 0 <= v < 0x1_0000_0000
      modifies this`disk, this`direct, this`l1, table
      ensures Volume() && Limit() == old(Limit()) && |disk| == old(|disk|)
      ensures ok <==> !(k >= DIRECT && old(l1) == 0 && old(table.total) == 0)
      ensures k < DIRECT ==> direct == old(direct)[k := v] && disk == old(disk)
      ensures k < DIRECT || old(l1) != 0 ==> l1 == old(l1) && table.Free() == old(table.Free()) && table.total == old(table.total)
      ensures k >= DIRECT && ok ==>
        && 0 < l1 < |disk| && direct == old(direct)
        && disk == old(disk)[l1 := Copy(old(disk)[l1], 4 * (k - DIRECT), Bytes32(v))]
      ensures k >= DIRECT && ok && old(l1) == 0 ==>
        l1 in old(table.Free()) && l1 <= Limit() && table.Free() == old(table.Free()) - {l1} && table.total == old(table.total) - 1
    {
      if k < DIRECT {
        direct := direct[k := v];
        return true;
      }
      if l1 == 0 {
        FreeRange(table);
        var b := table.Alloc(false);
        if b == 0 { return false; }
        l1 := b;
      }
      disk := disk[l1 := Copy(disk[l1], 4 * (k - DIRECT), Bytes32(v))];
      return true;
    }

    /** One round of the growing loop of ext2_file_resize. */
    method AppendBlock(index: int) returns (ok: bool)
      requires Wired() && index == |blocks| < MAX_BLOCKS
      modifies this`disk, this`direct, this`l1, this`blocks, table
      ensures ok <==> old(table.total) >= Blocks(old(|blocks|) + 1) - Blocks(old(|blocks|))
      ensures ok ==> Wired() && Pool() == old(Pool()) && |disk| == old(|disk|)
      ensures ok ==> |blocks| == old(|blocks|) + 1 && blocks[..old(|blocks|)] == old(blocks)
      ensures ok ==> table.total == old(table.total) - (Blocks(|blocks|) - Blocks(old(|blocks|)))
      ensures ok ==> forall b :: 0 <= b < |disk| && (b == 0 || b != l1) ==> disk[b] == old(disk)[b]
      ensures ok ==> table.Free() <= old(table.Free()) && (l1 == old(l1) || l1 in old(table.Free()))
    {
      hide Mapped, Separate, Owned, Copy, Bytes32, G.GroupTable.Valid, G.GroupTable.Free;
      FreeRange(table);
      MappedRange(disk, direct, l1, blocks);
      var b := table.Alloc(false);
      if b == 0 { return false; }
      ok := SetIndex(index, b);
      if !ok { return; }
      if index < DIRECT {
        AppendDirect(old(disk), old(direct), old(l1), blocks, b);
      } else {
        AppendIndirect(old(disk), old(direct), old(l1), blocks, b, l1);
      }
      AppendOwned(old(table.Free()), table.Free(), blocks, old(l1), b, l1);
      blocks := blocks + [b];
    }

    /** One round of the shrinking loop of ext2_file_resize. */
    method FreeBlock(index: int)
      requires Volume() && |direct| == DIRECT && 0 <= l1 < |disk| && 0 <= index < |blocks| <= MAX_BLOCKS
      requires index >= DIRECT ==> l1 != 0
      requires Names(disk, direct, l1, index, blocks[index]) && 1 <= blocks[index] <= Limit() && blocks[index] !in table.Free()
      modifies this`disk, this`direct, this`l1, table
      ensures Volume() && |direct| == DIRECT && l1 == old(l1) && |disk| == old(|disk|) && Limit() == old(Limit())
      ensures table.Free() == old(table.Free()) + {blocks[index]} && table.total == old(table.total) + 1
      ensures forall b :: 0 <= b < |disk| && (b == 0 || b != l1) ==> disk[b] == old(disk)[b]
      ensures forall j :: 0 <= j < |blocks| && j != index && old(Names(disk, direct, l1, j, blocks[j])) ==> Names(disk, direct, l1, j, blocks[j])
    {
      hide Copy, Bytes32, Word32, G.GroupTable.Valid, G.GroupTable.Free;
      var b := GetIndex(index);
      assert b == blocks[index];
      var ok := SetIndex(index, 0);
      forall j | 0 <= j < |blocks| && j != index && old(Names(disk, direct, l1, j, blocks[j])) ensures Names(disk, direct, l1, j, blocks[j]) {
        if index >= DIRECT { NamesStored(old(disk), direct, l1, index, 0, j, blocks[j]); }
      }
      table.Release(b, false);
    }

    /** The shrinking loop: data blocks count..n go, the indirect block stays for now. */
    method FreeTail(n: int, count: int)
      requires Wired() && n == |blocks| && 0 <= count <= n
      modifies this`disk, this`direct, this`l1, table
      ensures Volume() && |direct| == DIRECT && l1 == old(l1) && |disk| == old(|disk|) && Limit() == old(Limit())
      ensures table.Free() == old(table.Free()) + Items(blocks[count..]) && table.total == old(table.total) + n - count
      ensures forall b :: 0 <= b < |disk| && (b == 0 || b != l1) ==> disk[b] == old(disk)[b]
      ensures forall j :: 0 <= j < count ==> Names(disk, direct, l1, j, blocks[j])
    {
      hide Copy, Bytes32, Word32, G.GroupTable.Valid, G.GroupTable.Free, Names, Items, Separate, Owned;
      var index := count;
      assert blocks[count..count] == [];
      NoItems();
      while index < n
        invariant count <= index <= n && Volume() && |direct| == DIRECT && l1 == old(l1) && |disk| == old(|disk|)
        invariant Limit() == old(Limit())
        invariant table.Free() == old(table.Free()) + Items(blocks[count..index])
        invariant table.total == old(table.total) + index - count
        invariant forall b :: 0 <= b < |disk| && (b == 0 || b != l1) ==> disk[b] == old(disk)[b]
        invariant forall j :: 0 <= j < |blocks| && (j < count || index <= j) ==> Names(disk, direct, l1, j, blocks[j])
      {
        NotFreed(blocks, l1, old(table.Free()), count, index);
        FreeBlock(index);
        index := index + 1;
      }
      assert blocks[count..n] == blocks[count..];
    }

    /** The shrinking branch of ext2_file_resize, from n blocks to fewer.  The indirect block goes
        whenever there was one: the file stays in order exactly when it no longer needs it. */
    method Shrink(n: int, count: int)
      requires Wired() && n == |blocks| && 0 <= count < n
      modifies this`disk, this`direct, this`l1, this`blocks, table
      ensures Wired() <==> count <= DIRECT || n <= DIRECT
      ensures Volume() && Limit() == old(Limit()) && Pool() == old(Pool()) && |disk| == old(|disk|)
      ensures blocks == old(blocks)[..count]
      ensures table.total == old(table.total) + n - count + if n > DIRECT then 1 else 0
      ensures forall b :: 0 <= b < |disk| && (b == 0 || b != old(l1)) ==> disk[b] == old(disk)[b]
    {
      hide Copy, Bytes32, Word32, G.GroupTable.Valid, G.GroupTable.Free, Items, Separate, Owned;
      ShrinkOwned(table.Free(), blocks, l1, count);
      FreeTail(n, count);
      if n > DIRECT {
        table.Release(l1, false);
        l1 := 0;
      }
      blocks := blocks[..count];
    }

    /** The growing branch of ext2_file_resize. */
    method Grow(n: int, count: int) returns (ok: bool)
      requires Wired() && n == |blocks| <= count <= MAX_BLOCKS
      modifies this`disk, this`direct, this`l1, this`blocks, table
      ensures ok <==> old(table.total) >= Blocks(count) - Blocks(n)
      ensures ok ==> Wired() && Pool() == old(Pool()) && |disk| == old(|disk|)
      ensures ok ==> |blocks| == count && blocks[..n] == old(blocks)
      ensures ok ==> table.total == old(table.total) - (Blocks(count) - Blocks(n))
      ensures ok ==> forall b :: 0 <= b < |disk| && b !in old(table.Free()) && (b == 0 || b != old(l1)) ==> disk[b] == old(disk)[b]
    {
      hide Mapped, G.GroupTable.Valid, G.GroupTable.Free, Separate, Owned;
      FreeRange(table);
      var index := n;
      while index < count
        invariant n <= index <= count && Wired() && |blocks| == index && Pool() == old(Pool()) && |disk| == old(|disk|)
        invariant blocks[..n] == old(blocks) && table.Free() <= old(table.Free())
        invariant l1 == old(l1) || l1 in old(table.Free())
        invariant table.total == old(table.total) - (Blocks(index) - Blocks(n)) >= 0
        invariant forall b :: 0 <= b < |disk| && b !in old(table.Free()) && (b == 0 || b != old(l1)) ==> disk[b] == old(disk)[b]
      {
        ok := AppendBlock(index);
        if !ok { return; }
        index := index + 1;
      }
      ok := true;
    }

    /** ext2_file_resize.  It can go on exactly when the volume has the blocks; it leaves a file in
        order exactly unless it shrinks to a size that still needs the indirect block.  The file
        and the free blocks together stay the same set, and no other block is written. */
    method Resize(newSize: int) returns (ok: bool)
      requires Valid() && newSize >= 0 && Count(newSize) <= MAX_BLOCKS
      modifies this, table
      ensures ok <==> old(table.total) >= Blocks(Count(newSize)) - Blocks(old(|blocks|))
      ensures ok ==> (Valid() <==> !(DIRECT < Count(newSize) < old(|blocks|)))
      ensures ok ==> Volume() && size == newSize && |blocks| == Count(newSize) && |disk| == old(|disk|)
      ensures ok ==> Pool() == old(Pool()) && forall b :: 0 <= b < |disk| && b !in old(Pool()) ==> disk[b] == old(disk)[b]
      ensures ok ==> forall p :: 0 <= p < newSize && p < old(size) ==> Byte(disk, blocks, p) == old(Byte(disk, blocks, p))
      ensures ok && Valid() ==> table.total == old(table.total) - (Blocks(|blocks|) - Blocks(old(|blocks|)))
    {
      hide Mapped, G.GroupTable.Valid, G.GroupTable.Free, Separate, Owned, Byte;
      FreeRange(table);
      OwnedItems(blocks, l1);
      var count, n := Count(newSize), Count(size);
      if count >= n { ok := Grow(n, count); } else { ok := true; Shrink(n, count); }
      if !ok { return; }
      size := newSize;
      sectors := (Blocks(count) * BLOCK_SIZE + 511) / 512;
      forall p | 0 <= p < newSize && p < old(size) ensures Byte(disk, blocks, p) == Byte(old(disk), old(blocks), p) {
        SameByte(old(disk), old(blocks), disk, blocks, p);
      }
    }

    /** Growing an empty file and truncating it again gives every block back. */
    method GrowThenTruncate(newSize: int) returns (ok: bool)
      requires Valid() && size == 0 && newSize >= 0 && Count(newSize) <= MAX_BLOCKS
      modifies this, table
      ensures ok <==> old(table.total) >= Blocks(Count(newSize))
      ensures ok ==> Valid() && size == 0 && table.Free() == old(table.Free()) && table.total == old(table.total)
    {
      hide Mapped, G.GroupTable.Valid, G.GroupTable.Free, Byte, Owned, Separate;
      FreeRange(table);
      NoneOwned(disk, direct, l1, blocks);
      ok := Resize(newSize);
      if ok {
        FreeRange(table);
        ok := Resize(0);
        NoneOwned(disk, direct, l1, blocks);
      }
    }

    /** One round of ext2_vnode_read. */
    method ReadChunk(cur: int, n: int) returns (s: seq<byte>)
      requires Valid() && 0 <= cur < size && 0 <= n && cur + n <= size && cur % BLOCK_SIZE + n <= BLOCK_SIZE
      ensures s == Contents()[cur..cur + n]
    {
      hide Mapped, G.GroupTable.Valid, G.GroupTable.Free, Bytes, Owned, Separate, Names;
      OwnedItems(blocks, l1);
      MappedRange(disk, direct, l1, blocks);
      InRange(cur, size, |blocks|);
      var b := GetIndex(cur / BLOCK_SIZE);
      NamedBlock(disk, direct, l1, blocks, cur / BLOCK_SIZE, b);
      ChunkRead(disk, blocks, size, cur, n);
      s := disk[b][cur % BLOCK_SIZE..cur % BLOCK_SIZE + n];
    }

    /** ext2_vnode_read. */
    method Read(pos: int, count: int) returns (out: seq<byte>)
      requires Valid() && pos >= 0 && count >= 0
      ensures out == if pos >= size then [] else Contents()[pos..if pos + count < size then pos + count else size]
    {
      hide Valid, Bytes;
      out := [];
      if pos >= size { return; }
      var rem := if count < size - pos then count else size - pos;
      var cur := pos;
      BytesLength(disk, blocks, size);
      while rem > 0
        invariant pos <= cur && rem >= 0 && cur + rem == if pos + count < size then pos + count else size
        invariant out == Contents()[pos..cur]
      {
        var offset := cur % BLOCK_SIZE;
        var chunk := if rem < BLOCK_SIZE - offset then rem else BLOCK_SIZE - offset;
        var s := ReadChunk(cur, chunk);
        SliceJoin(Contents(), pos, cur, cur + chunk);
        out := out + s;
        cur, rem := cur + chunk, rem - chunk;
      }
    }

    /** One round of ext2_vnode_write: part of a block is read, changed and written back, a whole
        block is written as it is. */
    method WriteChunk(cur: int, s: seq<byte>)
      requires Valid() && 0 <= cur && cur + |s| <= size && 0 < |s| <= BLOCK_SIZE - cur % BLOCK_SIZE
      modifies this`disk
      ensures Valid() && |disk| == old(|disk|)
      ensures forall b :: 0 <= b < |disk| && b !in Owned(blocks, l1) ==> disk[b] == old(disk)[b]
      ensures forall p :: 0 <= p < size ==>
        Byte(disk, blocks, p) == if cur <= p < cur + |s| then s[p - cur] else old(Byte(disk, blocks, p))
    {
      hide Mapped, G.GroupTable.Valid, G.GroupTable.Free, Byte, Owned, Separate, Names, Copy;
      var offset := cur % BLOCK_SIZE;
      InRange(cur, size, |blocks|);
      OwnedItems(blocks, l1);
      MappedRange(disk, direct, l1, blocks);
      var b := GetIndex(cur / BLOCK_SIZE);
      NamedBlock(disk, direct, l1, blocks, cur / BLOCK_SIZE, b);
      var block := s;
      if |s| != BLOCK_SIZE { block := Copy(disk[b], offset, s); } else { CopyAll(disk[b], s); }
      MappedData(disk, direct, l1, blocks, b, block);
      disk := disk[b := block];
      forall p | 0 <= p < size
        ensures Byte(disk, blocks, p) == if cur <= p < cur + |s| then s[p - cur] else Byte(old(disk), blocks, p)
      {
        ByteWritten(old(disk), disk, blocks, l1, size, cur, s, p);
      }
    }

    /** ext2_vnode_write: a file is a byte sequence, and writing at or before its end splices. */
    method Write(pos: int, buf: seq<byte>) returns (n: int, ok: bool)
      requires Valid() && pos >= 0 && Count(pos + |buf|) <= MAX_BLOCKS
      modifies this, table
      ensures ok <==> pos > old(size) || old(table.total) >= Blocks(Count(Max(pos + |buf|, old(size)))) - Blocks(old(|blocks|))
      ensures pos > old(size) ==> n == 0 && ok && Valid() && disk == old(disk) && Contents() == old(Contents())
      ensures pos <= old(size) && ok ==> n == |buf| && Valid() && Pool() == old(Pool())
      ensures pos <= old(size) && ok ==>
        Contents() == old(Contents())[..pos] + buf + if pos + |buf| < old(size) then old(Contents())[pos + |buf|..] else []
      ensures ok ==> |disk| == old(|disk|) && forall b :: 0 <= b < |disk| && b !in old(Pool()) ==> disk[b] == old(disk)[b]
    {
      hide Mapped, G.GroupTable.Valid, G.GroupTable.Free, Byte, Owned, Separate;
      if pos > size { return 0, true; }
      MappedRange(disk, direct, l1, blocks);
      var end := Max(pos + |buf|, size);
      ok := Resize(end);
      if !ok { return 0, false; }
      label Grown:
      n := 0;
      while n < |buf|
        invariant 0 <= n <= |buf| && Valid() && Pool() == old(Pool()) && size == end && |disk| == old(|disk|)
        invariant forall b :: 0 <= b < |disk| && b !in old(Pool()) ==> disk[b] == old(disk)[b]
        invariant forall p :: 0 <= p < size ==>
          Byte(disk, blocks, p) == if pos <= p < pos + n then buf[p - pos] else old@Grown(Byte(disk, blocks, p))
      {
        var room := BLOCK_SIZE - (pos + n) % BLOCK_SIZE;
        var chunk := if |buf| - n < room then |buf| - n else room;
        WriteChunk(pos + n, buf[n..n + chunk]);
        n := n + chunk;
      }
      assert Contents() == old(Contents())[..pos] + buf + if pos + |buf| < old(size) then old(Contents())[pos + |buf|..] else [];
    }
  }

  /** A file of fourteen blocks, cut to thirteen, is out of order: it has lost the indirect block
      that names its last one. */
  method CutToThirteen(table: G.GroupTable, disk: seq<Block>) returns (file: Ext2File)
    requires table.Valid() && table.total >= 15 && |table.bits| * table.per < |disk| <= 0x1_0000_0000
    modifies table
    ensures fresh(file) && file.table == table && file.size == 13 * BLOCK_SIZE && |file.blocks| == 13
    ensures file.Volume() && !file.Valid()
  {
    hide Mapped, G.GroupTable.Valid, G.GroupTable.Free, Byte, Owned, Separate;
    file := new Ext2File(table, disk);
    var ok := file.Resize(14 * BLOCK_SIZE);
    FreeRange(table);
    ok := file.Resize(13 * BLOCK_SIZE);
  }

  lemma BytesLength(disk: seq<Block>, blocks: seq<int>, size: int)
    requires size >= 0
    ensures |Bytes(disk, blocks, size)| == size
  {
  }

  lemma InRange(p: int, size: int, n: int)
    requires 0 <= p < size && n == Count(size)
    ensures 0 <= p / BLOCK_SIZE < n
  {
  }

  lemma NamedBlock(disk: seq<Block>, direct: seq<int>, l1: int, blocks: seq<int>, k: int, b: int)
    requires Mapped(disk, direct, l1, blocks) && 0 <= k < |blocks| && Names(disk, direct, l1, k, b)
    ensures b == blocks[k]
  {
    assert Names(disk, direct, l1, k, blocks[k]);
  }

  lemma CopyAll(b: Block, s: seq<byte>)
    requires |s| == BLOCK_SIZE
    ensures Copy(b, 0, s) == s
  {
  }

  lemma BytesAt(disk: seq<Block>, blocks: seq<int>, size: int, p: int)
    requires 0 <= p < size && |blocks| == Count(size) && 0 <= blocks[p / BLOCK_SIZE] < |disk|
    ensures Bytes(disk, blocks, size)[p] == Byte(disk, blocks, p) == disk[blocks[p / BLOCK_SIZE]][p % BLOCK_SIZE]
  {
  }

  lemma ChunkRead(disk: seq<Block>, blocks: seq<int>, size: int, cur: int, n: int)
    requires 0 <= cur && 0 <= n && cur + n <= size && |blocks| == Count(size) && cur % BLOCK_SIZE + n <= BLOCK_SIZE
    requires 0 <= cur / BLOCK_SIZE < |blocks| && 0 <= blocks[cur / BLOCK_SIZE] < |disk|
    ensures |Bytes(disk, blocks, size)| == size
    ensures Bytes(disk, blocks, size)[cur..cur + n] == disk[blocks[cur / BLOCK_SIZE]][cur % BLOCK_SIZE..cur % BLOCK_SIZE + n]
  {
    var s, t := Bytes(disk, blocks, size)[cur..cur + n], disk[blocks[cur / BLOCK_SIZE]][cur % BLOCK_SIZE..cur % BLOCK_SIZE + n];
    forall i | 0 <= i < n ensures s[i] == t[i] {
      assert (cur + i) / BLOCK_SIZE == cur / BLOCK_SIZE && (cur + i) % BLOCK_SIZE == cur % BLOCK_SIZE + i;
      BytesAt(disk, blocks, size, cur + i);
    }
  }

  lemma ByteWritten(disk: seq<Block>, next: seq<Block>, blocks: seq<int>, l1: int, size: int, cur: int, s: seq<byte>, p: int)
    requires 0 <= cur && cur + |s| <= size && |blocks| == Count(size) && cur % BLOCK_SIZE + |s| <= BLOCK_SIZE
    requires 0 <= cur / BLOCK_SIZE < |blocks| && Separate(blocks, l1) && 0 <= blocks[cur / BLOCK_SIZE] < |disk|
    requires var b := blocks[cur / BLOCK_SIZE]; next == disk[b := Copy(disk[b], cur % BLOCK_SIZE, s)]
    requires 0 <= p < size
    ensures Byte(next, blocks, p) == if cur <= p < cur + |s| then s[p - cur] else Byte(disk, blocks, p)
  {
    hide Copy;
    var b := blocks[cur / BLOCK_SIZE];
    Copied(disk[b], cur % BLOCK_SIZE, s);
    if p / BLOCK_SIZE != cur / BLOCK_SIZE {
      assert blocks[p / BLOCK_SIZE] != b;
    } else {
      assert p - cur == p % BLOCK_SIZE - cur % BLOCK_SIZE;
    }
  }

  lemma NoneOwned(disk: seq<Block>, direct: seq<int>, l1: int, blocks: seq<int>)
    requires Mapped(disk, direct, l1, blocks) && blocks == []
    ensures Owned(blocks, l1) == {}
  {
  }

  lemma OwnedItems(blocks: seq<int>, l1: int)
    ensures forall i :: 0 <= i < |blocks| ==> blocks[i] in Owned(blocks, l1)
    ensures l1 != 0 ==> l1 in Owned(blocks, l1)
    ensures Separate(blocks, l1) ==> l1 !in blocks
  {
  }

  lemma SameByte(disk: seq<Block>, blocks: seq<int>, disk': seq<Block>, blocks': seq<int>, p: int)
    requires 0 <= p < |blocks| * BLOCK_SIZE && p < |blocks'| * BLOCK_SIZE && |disk'| == |disk|
    requires blocks[p / BLOCK_SIZE] == blocks'[p / BLOCK_SIZE]
    requires 0 <= blocks[p / BLOCK_SIZE] < |disk| ==> disk'[blocks[p / BLOCK_SIZE]] == disk[blocks[p / BLOCK_SIZE]]
    ensures Byte(disk', blocks', p) == Byte(disk, blocks, p)
  {
  }

  lemma NotFreed(blocks: seq<int>, l1: int, free: set<int>, count: int, index: int)
    requires Separate(blocks, l1) && Owned(blocks, l1) !! free && 0 <= count <= index < |blocks|
    ensures blocks[index] in Owned(blocks, l1) && blocks[index] !in free + Items(blocks[count..index])
    ensures Items(blocks[count..index + 1]) == Items(blocks[count..index]) + {blocks[index]}
  {
    assert blocks[count..index + 1] == blocks[count..index] + [blocks[index]];
  }

  lemma ShrinkOwned(free: set<int>, blocks: seq<int>, l1: int, count: int)
    requires Separate(blocks, l1) && Owned(blocks, l1) !! free && 0 <= count <= |blocks|
    requires forall b :: b in Owned(blocks, l1) ==> b >= 1
    ensures Separate(blocks[..count], 0) && Owned(blocks[..count], 0) <= Owned(blocks, l1)
    ensures l1 != 0 ==> l1 in Owned(blocks, l1) && l1 !in free + Items(blocks[count..])
    ensures var left := free + Items(blocks[count..]) + if l1 == 0 then {} else {l1};
      Owned(blocks[..count], 0) !! left && left + Owned(blocks[..count], 0) == free + Owned(blocks, l1)
  {
    assert blocks == blocks[..count] + blocks[count..];
    assert forall i :: 0 <= i < |blocks| ==> blocks[i] in Owned(blocks, l1);
  }

  lemma MappedRange(disk: seq<Block>, direct: seq<int>, l1: int, blocks: seq<int>)
    requires Mapped(disk, direct, l1, blocks)
    ensures |direct| == DIRECT && |blocks| <= MAX_BLOCKS && 0 <= l1 < |disk| && (l1 != 0 <==> |blocks| > DIRECT)
  {
  }

  lemma FreeRange(table: G.GroupTable)
    requires table.Valid()
    ensures forall b :: b in table.Free() ==> 1 <= b <= |table.bits| * table.per
    ensures table.total >= 0
  {
    G.TotalCounts(table.View());
  }
}
