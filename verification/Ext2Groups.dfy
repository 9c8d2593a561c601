/** Block groups: one bitmap per group, a free count per group and a free count in the superblock.
    Blocks and inodes are allocated by the same scheme; only inodes keep a count of directories. */
module Ext2Groups {
  import opened Sequences

  /** Number n >= 1 is bit (n - 1) % per of group (n - 1) / per. */
  datatype Groups = Groups(per: int, bits: seq<seq<bool>>, free: seq<int>, total: int)

  ghost predicate Shaped(g: Groups) {
    g.per > 0 && |g.bits| == |g.free| && forall i :: 0 <= i < |g.bits| ==> |g.bits[i]| >= g.per
  }

  /** Zero bits among the first n. */
  ghost function Zeros(b: seq<bool>, n: int): int
    requires 0 <= n <= |b|
  {
    if n == 0 then 0 else Zeros(b, n - 1) + if b[n - 1] then 0 else 1
  }

  ghost function Sum(xs: seq<int>, n: int): int
    requires 0 <= n <= |xs|
  {
    if n == 0 then 0 else Sum(xs, n - 1) + xs[n - 1]
  }

  /** Bitmaps and both levels of counters tell the same. */
  ghost predicate Agree(g: Groups) {
    && Shaped(g)
    && (forall i :: 0 <= i < |g.free| ==> g.free[i] == Zeros(g.bits[i], g.per))
    && g.total == Sum(g.free, |g.free|)
  }

  function Group(g: Groups, n: int): int
    requires g.per > 0
  {
    (n - 1) / g.per
  }

  function Offset(g: Groups, n: int): int
    requires g.per > 0
  {
    (n - 1) % g.per
  }

  function Number(g: Groups, i: int, j: int): int { i * g.per + j + 1 }

  /** Numbers and (group, offset) pairs are inverse. */
  lemma NumberInverse(g: Groups, i: int, j: int)
    requires g.per > 0 && 0 <= i && 0 <= j < g.per
    ensures Group(g, Number(g, i, j)) == i && Offset(g, Number(g, i, j)) == j
    ensures 1 <= Number(g, i, j) && (i < |g.bits| ==> Number(g, i, j) <= |g.bits| * g.per)
  {
    DivIs(i * g.per + j, i, j, g.per);
    if i < |g.bits| { MulMono(i + 1, |g.bits|, g.per); }
  }

  lemma PairInverse(g: Groups, n: int)
    requires g.per > 0 && 1 <= n <= |g.bits| * g.per
    ensures 0 <= Group(g, n) < |g.bits| && 0 <= Offset(g, n) < g.per && Number(g, Group(g, n), Offset(g, n)) == n
  {
    var i := Group(g, n);
    if i >= |g.bits| { MulMono(|g.bits|, i, g.per); }
  }

  /** The numbers up to m that are free. */
  ghost function FreeTo(g: Groups, m: int): set<int>
    requires Shaped(g) && 0 <= m <= |g.bits| * g.per
  {
    set n | 1 <= n <= m && IsFree(g, n)
  }

  ghost predicate IsFree(g: Groups, n: int)
    requires Shaped(g)
  {
    1 <= n <= |g.bits| * g.per && 0 <= Group(g, n) < |g.bits| && 0 <= Offset(g, n) < g.per && !g.bits[Group(g, n)][Offset(g, n)]
  }

  ghost function FreeSet(g: Groups): set<int>
    requires Shaped(g)
  {
    FreeTo(g, |g.bits| * g.per)
  }

  lemma BitIs(g: Groups, i: int, j: int)
    requires Shaped(g) && 0 <= i < |g.bits| && 0 <= j < g.per
    ensures var n := Number(g, i, j); 1 <= n <= |g.bits| * g.per && (IsFree(g, n) <==> !g.bits[i][j])
  {
    hide Number;
    NumberInverse(g, i, j);
  }

  lemma FreeToStep(g: Groups, n: int)
    requires Shaped(g) && 1 <= n <= |g.bits| * g.per
    ensures |FreeTo(g, n)| == |FreeTo(g, n - 1)| + if IsFree(g, n) then 1 else 0
  {
    hide IsFree;
    assert FreeTo(g, n) == FreeTo(g, n - 1) + if IsFree(g, n) then {n} else {};
  }

  lemma {:induction false} CountTo(g: Groups, i: int, j: int)
    requires Agree(g) && (0 <= i < |g.bits| ==> 0 <= j <= g.per) && (i == |g.bits| ==> j == 0) && 0 <= i <= |g.bits|
    ensures 0 <= i * g.per + j <= |g.bits| * g.per
    ensures |FreeTo(g, i * g.per + j)| == Sum(g.free, i) + if i < |g.bits| then Zeros(g.bits[i], j) else 0
    decreases i, j
  {
    hide FreeTo, IsFree;
    if j > 0 {
      CountTo(g, i, j - 1);
      BitIs(g, i, j - 1);
      FreeToStep(g, i * g.per + j);
    } else if i > 0 {
      CountTo(g, i - 1, g.per);
      assert (i - 1) * g.per + g.per == i * g.per;
    } else {
      FreeToZero(g);
    }
  }

  lemma FreeToZero(g: Groups)
    requires Shaped(g)
    ensures 0 <= |g.bits| * g.per && FreeTo(g, 0) == {}
  {
  }

  /** The superblock count is the number of free numbers. */
  lemma TotalCounts(g: Groups)
    requires Agree(g)
    ensures |FreeSet(g)| == g.total
  {
    CountTo(g, |g.bits|, 0);
  }

  // ---------------------------------------------------------------- one number taken or given back

  ghost function Marked(g: Groups, i: int, j: int, used: bool): Groups
    requires Shaped(g) && 0 <= i < |g.bits| && 0 <= j < g.per
  {
    var d := if used then -1 else 1;
    Groups(g.per, g.bits[i := g.bits[i][j := used]], g.free[i := g.free[i] + d], g.total + d)
  }

  lemma {:induction false} ZerosMarked(b: seq<bool>, j: int, used: bool, n: int)
    requires 0 <= j < |b| && 0 <= n <= |b| && b[j] != used
    ensures Zeros(b[j := used], n) == Zeros(b, n) + if j >= n then 0 else if used then -1 else 1
    decreases n
  {
    if n > 0 { ZerosMarked(b, j, used, n - 1); }
  }

  lemma {:induction false} SumMarked(xs: seq<int>, i: int, v: int, n: int)
    requires 0 <= i < |xs| && 0 <= n <= |xs|
    ensures Sum(xs[i := v], n) == Sum(xs, n) + if i < n then v - xs[i] else 0
    decreases n
  {
    if n > 0 { SumMarked(xs, i, v, n - 1); }
  }

  lemma MarkedFree(g: Groups, i: int, j: int, used: bool)
    requires Shaped(g) && 0 <= i < |g.bits| && 0 <= j < g.per
    ensures Shaped(Marked(g, i, j, used))
    ensures var n := Number(g, i, j);
      FreeSet(Marked(g, i, j, used)) == if used then FreeSet(g) - {n} else FreeSet(g) + {n}
  {
    var h, n := Marked(g, i, j, used), Number(g, i, j);
    hide Number;
    NumberInverse(g, i, j);
    forall m | 1 <= m <= |g.bits| * g.per
      ensures IsFree(h, m) <==> if m == n then !used else IsFree(g, m)
    {
      PairInverse(g, m);
      if Group(g, m) == i && Offset(g, m) == j { assert m == n; }
    }
    assert |h.bits| == |g.bits| && h.per == g.per;
  }

  /** Marking a number used or free keeps bitmap and counters in agreement exactly when the number
      was in the other state. */
  lemma MarkedAgrees(g: Groups, i: int, j: int, used: bool)
    requires Agree(g) && 0 <= i < |g.bits| && 0 <= j < g.per
    ensures Agree(Marked(g, i, j, used)) <==> g.bits[i][j] != used
  {
    var h := Marked(g, i, j, used);
    SumMarked(g.free, i, h.free[i], |g.free|);
    if g.bits[i][j] != used {
      ZerosMarked(g.bits[i], j, used, g.per);
    } else {
      assert h.bits[i] == g.bits[i];
    }
  }

  /** A group with a nonzero count has a zero bit. */
  lemma {:induction false} ZeroExists(b: seq<bool>, n: int)
    requires 0 <= n <= |b| && forall j :: 0 <= j < n ==> b[j]
    ensures Zeros(b, n) == 0
    decreases n
  {
    if n > 0 { ZeroExists(b, n - 1); }
  }

  lemma {:induction false} ZeroCounts(b: seq<bool>, j: int, n: int)
    requires 0 <= j < n <= |b| && !b[j]
    ensures Zeros(b, n) > 0
    decreases n
  {
    if j < n - 1 { ZeroCounts(b, j, n - 1); } else { ZerosNat(b, n - 1); }
  }

  lemma {:induction false} ZerosNat(b: seq<bool>, n: int)
    requires 0 <= n <= |b|
    ensures Zeros(b, n) >= 0
    decreases n
  {
    if n > 0 { ZerosNat(b, n - 1); }
  }

  class GroupTable {
    const per: int
    var bits: seq<seq<bool>>
    var free: seq<int>
    var dirs: seq<int>
    var total: int

    ghost function View(): Groups
      reads this
    {
      Groups(per, bits, free, total)
    }

    ghost predicate Valid()
      reads this
    {
      Agree(View()) && |dirs| == |bits|
    }

    ghost function Free(): set<int>
      requires Valid()
      reads this
    {
      FreeSet(View())
    }

    /** A volume as found on disk. */
    constructor (g: Groups, dirs: seq<int>)
      requires Agree(g) && |dirs| == |g.bits|
      ensures Valid() && View() == g && this.dirs == dirs
    {
      per, bits, free, total, this.dirs := g.per, g.bits, g.free, g.total, dirs;
    }

    /** ext2_alloc_block and ext2_alloc_inode: 0 exactly when nothing is free, else the first free
        number of the last group that has one.  The block form stops the machine on 0. */
    method Alloc(isDir: bool) returns (n: int)
      requires Valid()
      modifies this
      ensures Valid() && |bits| == old(|bits|)
      ensures n == 0 <==> old(Free()) == {}
      ensures n == 0 <==> old(total) == 0
      ensures n == 0 ==> View() == old(View()) && dirs == old(dirs)
      ensures n != 0 ==> n in old(Free()) && Free() == old(Free()) - {n} && total == old(total) - 1
      ensures n != 0 ==> forall m :: m in old(Free()) ==>
        Group(View(), m) < Group(View(), n) || (Group(View(), m) == Group(View(), n) && m >= n)
      ensures n != 0 ==> var i := Group(View(), n);
        0 <= i < |dirs| == |old(dirs)| && dirs == old(dirs)[i := old(dirs)[i] + if isDir then 1 else 0]
    {
      hide Zeros, Sum, FreeTo, IsFree;
      var buf: seq<bool>, offset, group := [], 0, 0;
      n := 0;
      var i := 0;
      while i < |bits|
        invariant 0 <= i <= |bits| && View() == old(View()) && dirs == old(dirs)
        invariant n != 0 ==> 0 <= group < i && 0 <= offset < per && n == Number(View(), group, offset)
        invariant n != 0 ==> buf == bits[group] && !buf[offset] && forall j :: 0 <= j < offset ==> buf[j]
        invariant forall k :: (if n == 0 then 0 else group + 1) <= k < i ==> free[k] == 0
      {
        if free[i] != 0 {
          buf := bits[i];
          var j := FirstZero(buf, per);
          n, group, offset := i * per + j + 1, i, j;
        }
        i := i + 1;
      }
      assert |FreeSet(View())| == total by { TotalCounts(View()); }
      if n == 0 {
        NoneFree(View());
        return;
      }
      TakeOne(View(), group, offset);
      buf := buf[offset := true];
      bits := bits[group := buf];
      free := free[group := free[group] - 1];
      if isDir { dirs := dirs[group := dirs[group] + 1]; }
      total := total - 1;
    }

    /** ext2_free_block and ext2_free_inode.  Nothing checks that the number was in use: bitmaps and
        counters agree afterwards exactly when it was. */
    method Release(n: int, isDir: bool)
      requires Valid() && 1 <= n <= |bits| * per
      modifies this
      ensures |bits| == old(|bits|) && (Valid() <==> n !in old(Free()))
      ensures Valid() ==> Free() == old(Free()) + {n} && total == old(total) + 1
      ensures var i := Group(View(), n);
        0 <= i < |dirs| == |old(dirs)| && dirs == old(dirs)[i := old(dirs)[i] - if isDir then 1 else 0]
    {
      hide Zeros, Sum;
      var offset, group := (n - 1) % per, (n - 1) / per;
      PairInverse(View(), n);
      BitIs(View(), group, offset);
      MarkedAgrees(View(), group, offset, false);
      MarkedFree(View(), group, offset, false);
      bits := bits[group := bits[group][offset := false]];
      free := free[group := free[group] + 1];
      if isDir { dirs := dirs[group := dirs[group] - 1]; }
      total := total + 1;
    }
  }

  /** The inner loop of the allocators. */
  method FirstZero(b: seq<bool>, n: int) returns (j: int)
    requires 0 <= n <= |b| && Zeros(b, n) != 0
    ensures 0 <= j < n && !b[j] && forall k :: 0 <= k < j ==> b[k]
  {
    j := 0;
    while j < n && b[j]
      invariant 0 <= j <= n && forall k :: 0 <= k < j ==> b[k]
    {
      j := j + 1;
    }
    if j == n { ZeroExists(b, n); }
  }

  lemma NoneFree(g: Groups)
    requires Agree(g) && forall k :: 0 <= k < |g.free| ==> g.free[k] == 0
    ensures FreeSet(g) == {}
  {
    if n :| n in FreeSet(g) {
      PairInverse(g, n);
      ZeroCounts(g.bits[Group(g, n)], Offset(g, n), g.per);
    }
  }

  lemma TakeOne(g: Groups, i: int, j: int)
    requires Agree(g) && 0 <= i < |g.bits| && 0 <= j < g.per && !g.bits[i][j]
    requires forall k :: i < k < |g.free| ==> g.free[k] == 0
    requires forall k :: 0 <= k < j ==> g.bits[i][k]
    ensures var n, h := Number(g, i, j), Marked(g, i, j, true);
      && Agree(h) && n in FreeSet(g) && FreeSet(h) == FreeSet(g) - {n} && n >= 1 && Group(g, n) == i
      && forall m :: m in FreeSet(g) ==> Group(g, m) < i || (Group(g, m) == i && m >= n)
  {
    var n := Number(g, i, j);
    BitIs(g, i, j);
    NumberInverse(g, i, j);
    MarkedAgrees(g, i, j, true);
    MarkedFree(g, i, j, true);
    forall m | m in FreeSet(g) ensures Group(g, m) < i || (Group(g, m) == i && m >= n) {
      PairInverse(g, m);
      ZeroCounts(g.bits[Group(g, m)], Offset(g, m), g.per);
    }
  }
}
