/** Linked directory entries (ext2 "Directory Structure", linked directory entries): records of
    variable length that tile a block. */
module Dirents {
  import opened Memory
  import opened Ext2Layout

  const HEADER := 8

  /** struct ext2_dirent.  An unused entry has inode 0; its name and kind carry no meaning and are
      empty here. */
  datatype Dirent = Dirent(ino: int, size: int, kind: byte, name: seq<byte>)

  function Round4(n: int): int { (n + 3) / 4 * 4 }

  /** The least size of an entry with this name. */
  function Needs(name: seq<byte>): int { HEADER + Round4(|name|) }

  function Used(e: Dirent): int { if e.ino == 0 then HEADER else Needs(e.name) }

  predicate Good(e: Dirent) {
    && 0 <= e.ino < 0x1_0000_0000 && |e.name| <= 255
    && e.size % 4 == 0 && Used(e) <= e.size <= BLOCK_SIZE
    && (e.ino == 0 ==> e.name == [] && e.kind == 0)
  }

  /** The bytes at `o` are the entry `e`. */
  ghost predicate At(b: Block, o: int, e: Dirent) {
    && 0 <= o && o + e.size <= BLOCK_SIZE && Good(e)
    && Word32(b, o) == e.ino && Word16(b, o + 4) == e.size
    && (e.ino != 0 ==> b[o + 6] as int == |e.name| && b[o + 7] == e.kind && b[o + 8..o + 8 + |e.name|] == e.name)
  }

  /** Where entry `k` starts. */
  ghost function Off(es: seq<Dirent>, k: int): int
    requires 0 <= k <= |es|
    decreases k
  {
    if k == 0 then 0 else Off(es, k - 1) + es[k - 1].size
  }

  /** The entries fill the block. */
  ghost predicate Tiled(b: Block, es: seq<Dirent>) {
    && Off(es, |es|) == BLOCK_SIZE
    && forall k :: 0 <= k < |es| ==> At(b, Off(es, k), es[k])
  }

  /** Only the first entry of a block can be unused. */
  ghost predicate Packed(es: seq<Dirent>) {
    forall k :: 0 < k < |es| ==> es[k].ino != 0
  }

  datatype Link = Link(name: seq<byte>, ino: int, kind: byte)

  /** The names in use, in order. */
  ghost function Live(es: seq<Dirent>): seq<Link> {
    if es == [] then []
    else if es[0].ino == 0 then Live(es[1..])
    else [Link(es[0].name, es[0].ino, es[0].kind)] + Live(es[1..])
  }

  // ---------------------------------------------------------------- bytes

  /** Moving an entry's bytes moves the entry. */
  lemma AtMoved(b: Block, o: int, e: Dirent, c: Block, p: int)
    requires At(b, o, e) && 0 <= p && p + e.size <= BLOCK_SIZE && b[o..o + Used(e)] == c[p..p + Used(e)]
    ensures At(c, p, e)
  {
    assert forall i {:trigger c[p + i]} :: 0 <= i < Used(e) ==> c[p + i] == c[p..p + Used(e)][i] == b[o..o + Used(e)][i] == b[o + i];
    assert c[p + 0] == b[o + 0] && c[p + 1] == b[o + 1] && c[p + 2] == b[o + 2] && c[p + 3] == b[o + 3];
    assert c[p + 4] == b[o + 4] && c[p + 5] == b[o + 5] && c[p + 6] == b[o + 6] && c[p + 7] == b[o + 7];
    if e.ino != 0 {
      forall i | 0 <= i < |e.name| ensures c[p + 8..p + 8 + |e.name|][i] == e.name[i] {
        assert c[p + (8 + i)] == b[o + (8 + i)];
        assert b[o + 8..o + 8 + |e.name|][i] == b[o + (8 + i)];
      }
    }
  }

  /** Rewriting the size field of an entry changes its size and nothing else. */
  lemma Resized(b: Block, o: int, e: Dirent, v: int)
    requires At(b, o, e) && Used(e) <= v && v % 4 == 0 && o + v <= BLOCK_SIZE
    ensures At(Copy(b, o + 4, Bytes16(v)), o, e.(size := v))
  {
    var c := Copy(b, o + 4, Bytes16(v));
    Stored16(b, o + 4, v);
    assert Word32(c, o) == Word32(b, o);
    assert c[o + 6] == b[o + 6] && c[o + 7] == b[o + 7];
    assert e.ino != 0 ==> c[o + 8..o + 8 + |e.name|] == b[o + 8..o + 8 + |e.name|];
  }

  /** Storing inode, size, name length, kind and name makes an entry. */
  function Store(b: Block, o: int, e: Dirent): Block
    requires 0 <= o && Good(e) && o + e.size <= BLOCK_SIZE
  {
    var b1 := Copy(b, o + 4, Bytes16(e.size));
    var b2 := Copy(b1, o, Bytes32(e.ino));
    var b3 := Copy(b2, o + 6, [|e.name| as byte, e.kind]);
    Copy(b3, o + 8, e.name)
  }

  lemma Stored(b: Block, o: int, e: Dirent)
    requires 0 <= o && Good(e) && o + e.size <= BLOCK_SIZE
    ensures At(Store(b, o, e), o, e)
    ensures forall i :: 0 <= i < o || o + Used(e) <= i < BLOCK_SIZE ==> Store(b, o, e)[i] == b[i]
  {
    hide Copy;
    var b1 := Copy(b, o + 4, Bytes16(e.size));
    var b2 := Copy(b1, o, Bytes32(e.ino));
    var b3 := Copy(b2, o + 6, [|e.name| as byte, e.kind]);
    var c := Copy(b3, o + 8, e.name);
    Stored16(b, o + 4, e.size);
    Stored32(b1, o, e.ino);
    Copied(b, o + 4, Bytes16(e.size));
    Copied(b1, o, Bytes32(e.ino));
    Copied(b2, o + 6, [|e.name| as byte, e.kind]);
    Copied(b3, o + 8, e.name);
    assert c[o + 8..o + 8 + |e.name|] == e.name;
  }

  // ---------------------------------------------------------------- tilings

  lemma {:induction false} OffCat(a: seq<Dirent>, b: seq<Dirent>, j: int)
    requires 0 <= j <= |a| + |b|
    ensures Off(a + b, j) == if j <= |a| then Off(a, j) else Off(a, |a|) + Off(b, j - |a|)
    decreases j
  {
    if j > 0 { OffCat(a, b, j - 1); }
  }

  lemma {:induction false} OffMono(es: seq<Dirent>, j: int, k: int)
    requires 0 <= j <= k <= |es| && forall i :: 0 <= i < |es| ==> es[i].size >= 0
    ensures Off(es, j) <= Off(es, k)
    decreases k
  {
    if j < k { OffMono(es, j, k - 1); }
  }

  lemma {:induction false} LiveCat(a: seq<Dirent>, b: seq<Dirent>)
    ensures Live(a + b) == Live(a) + Live(b)
    decreases |a|
  {
    if a == [] {
      assert a + b == b;
    } else {
      assert (a + b)[1..] == a[1..] + b;
      LiveCat(a[1..], b);
    }
  }

  /** Entries k..m of a tiling replaced by others of the same total size, written over the same
      bytes, give a tiling. */
  lemma Replaced(b: Block, es: seq<Dirent>, k: int, m: int, fs: seq<Dirent>, c: Block)
    requires Tiled(b, es) && 0 <= k <= m <= |es|
    requires Off(fs, |fs|) == Off(es, m) - Off(es, k)
    requires forall i :: 0 <= i < Off(es, k) || Off(es, m) <= i < BLOCK_SIZE ==> c[i] == b[i]
    requires forall j :: 0 <= j < |fs| ==> At(c, Off(es, k) + Off(fs, j), fs[j])
    ensures Tiled(c, es[..k] + fs + es[m..])
  {
    hide At, Off;
    var gs := es[..k] + fs + es[m..];
    ReplacedOff(es, k, m, fs, |gs|);
    if m == |es| { ReplacedEnd(es, k, m, fs); }
    forall j | 0 <= j < |gs| ensures At(c, Off(gs, j), gs[j]) { ReplacedAt(b, es, k, m, fs, c, j); }
  }

  lemma ReplacedEnd(es: seq<Dirent>, k: int, m: int, fs: seq<Dirent>)
    requires 0 <= k <= m == |es| && Off(fs, |fs|) == Off(es, m) - Off(es, k)
    ensures Off(es[..k] + fs + es[m..], k + |fs|) == Off(es, m)
  {
    hide Off;
    OffZero(fs);
    ReplacedOff(es, k, m, fs, k + |fs|);
  }

  lemma ReplacedAt(b: Block, es: seq<Dirent>, k: int, m: int, fs: seq<Dirent>, c: Block, j: int)
    requires Tiled(b, es) && 0 <= k <= m <= |es| && 0 <= j < k + |fs| + |es| - m
    requires Off(fs, |fs|) == Off(es, m) - Off(es, k)
    requires forall i :: 0 <= i < Off(es, k) || Off(es, m) <= i < BLOCK_SIZE ==> c[i] == b[i]
    requires forall j :: 0 <= j < |fs| ==> At(c, Off(es, k) + Off(fs, j), fs[j])
    ensures var gs := es[..k] + fs + es[m..]; At(c, Off(gs, j), gs[j])
  {
    hide At, Off, Tiled;
    var gs := es[..k] + fs + es[m..];
    ReplacedOff(es, k, m, fs, j);
    if j < k {
      Kept(b, es, j, c, k, m);
    } else if j < k + |fs| {
      assert gs[j] == fs[j - k];
      if j == k { OffZero(fs); }
    } else {
      assert gs[j] == es[j - k - |fs| + m];
      if j == k + |fs| { OffZero(fs); }
      Kept(b, es, j - k - |fs| + m, c, k, m);
    }
  }

  lemma ReplacedOff(es: seq<Dirent>, k: int, m: int, fs: seq<Dirent>, j: int)
    requires 0 <= k <= m <= |es| && Off(fs, |fs|) == Off(es, m) - Off(es, k) && 0 <= j <= k + |fs| + |es| - m
    ensures Off(es[..k] + fs + es[m..], j) ==
      if j <= k then Off(es, j) else if j <= k + |fs| then Off(es, k) + Off(fs, j - k) else Off(es, j - k - |fs| + m)
  {
    hide Off;
    var a := es[..k] + fs;
    assert es == es[..k] + es[k..] == es[..m] + es[m..];
    OffZero(fs);
    OffCat(a, es[m..], j);
    OffCat(es[..k], fs, |a|);
    if j <= |a| { OffCat(es[..k], fs, j); }
    OffCat(es[..k], es[k..], k);
    if j <= k { OffCat(es[..k], es[k..], j); }
    OffCat(es[..m], es[m..], m);
    if j > |a| { OffCat(es[..m], es[m..], j - k - |fs| + m); }
  }

  lemma OffNext(b: Block, es: seq<Dirent>, k: int)
    requires Tiled(b, es) && 0 <= k < |es|
    ensures Off(es, k + 1) == Off(es, k) + es[k].size <= BLOCK_SIZE && 0 <= Off(es, k)
    ensures Good(es[k]) && HEADER <= Used(es[k]) <= es[k].size && Used(es[k]) % 4 == 0 && es[k].size % 4 == 0
    ensures forall i :: 0 <= i < |es| ==> es[i].size >= 0
  {
    hide Off;
    assert At(b, Off(es, k), es[k]);
    assert Off(es, k + 1) == Off(es, k) + es[k].size by { OffStep(es, k); }
    forall i | 0 <= i < |es| ensures es[i].size >= 0 { assert At(b, Off(es, i), es[i]); }
  }

  lemma OffStep(es: seq<Dirent>, k: int)
    requires 0 <= k < |es|
    ensures Off(es, k + 1) == Off(es, k) + es[k].size
  {
  }

  /** An entry outside the rewritten bytes stays. */
  lemma Kept(b: Block, es: seq<Dirent>, j: int, c: Block, k: int, m: int)
    requires Tiled(b, es) && 0 <= k <= m <= |es| && 0 <= j < |es| && (j < k || m <= j)
    requires forall i :: 0 <= i < Off(es, k) || Off(es, m) <= i < BLOCK_SIZE ==> c[i] == b[i]
    ensures At(c, Off(es, j), es[j])
  {
    hide Off, At;
    var o := Off(es, j);
    OffNext(b, es, j);
    if j < k { OffMono(es, j + 1, k); } else { OffMono(es, m, j); }
    assert b[o..o + Used(es[j])] == c[o..o + Used(es[j])];
    AtMoved(b, o, es[j], c, o);
  }

  /** The bytes of a block determine its entries. */
  lemma {:induction false} OneTiling(b: Block, es: seq<Dirent>, fs: seq<Dirent>, k: int)
    requires Tiled(b, es) && Tiled(b, fs) && 0 <= k <= |es|
    ensures k <= |fs| && es[..k] == fs[..k] && Off(es, k) == Off(fs, k)
    decreases k
  {
    hide At, Off;
    if k == 0 {
      assert Off(es, 0) == 0 == Off(fs, 0) by { OffZero(es); OffZero(fs); }
    } else {
      OneTiling(b, es, fs, k - 1);
      OffNext(b, es, k - 1);
      assert At(b, Off(es, k - 1), es[k - 1]);
      if k - 1 < |fs| {
        assert At(b, Off(fs, k - 1), fs[k - 1]);
        OneEntry(b, Off(es, k - 1), es[k - 1], fs[k - 1]);
        OffNext(b, fs, k - 1);
      }
      assert es[..k] == es[..k - 1] + [es[k - 1]];
    }
  }

  lemma OffZero(es: seq<Dirent>)
    ensures Off(es, 0) == 0
  {
  }

  lemma OneEntry(b: Block, o: int, e: Dirent, f: Dirent)
    requires At(b, o, e) && At(b, o, f)
    ensures e == f
  {
  }

  // ---------------------------------------------------------------- edits

  /** Cutting the spare bytes off entry `k` and storing a new entry there. */
  lemma SplitTiled(b: Block, es: seq<Dirent>, k: int, e: Dirent)
    requires Tiled(b, es) && 0 <= k < |es| && Good(e) && e.ino != 0 && e.size == es[k].size - Used(es[k])
    ensures Off(es, k) + es[k].size <= BLOCK_SIZE && 0 <= Off(es, k)
    ensures var o, u := Off(es, k), Used(es[k]);
      Tiled(Store(Copy(b, o + 4, Bytes16(u)), o + u, e), es[..k] + [es[k].(size := u), e] + es[k + 1..])
  {
    hide At, Off, Copy, Store, Word16, Word32, Bytes16;
    OffNext(b, es, k);
    var o, u := Off(es, k), Used(es[k]);
    var b1 := Copy(b, o + 4, Bytes16(u));
    var c := Store(b1, o + u, e);
    var p := es[k].(size := u);
    assert At(c, o, p) by {
      assert At(b, o, es[k]);
      Resized(b, o, es[k], u);
      Stored(b1, o + u, e);
      assert b1[o..o + u] == c[o..o + u];
      AtMoved(b1, o, p, c, o);
    }
    Stored(b1, o + u, e);
    assert forall i :: 0 <= i < o || o + es[k].size <= i < BLOCK_SIZE ==> c[i] == b[i] by { Copied(b, o + 4, Bytes16(u)); }
    Pair(p, e);
    Replaced(b, es, k, k + 1, [p, e], c);
  }

  /** Clearing entry `k` and giving its bytes to the entry before it. */
  lemma MergeTiled(b: Block, es: seq<Dirent>, k: int)
    requires Tiled(b, es) && 0 < k < |es|
    ensures 0 <= Off(es, k - 1) && Off(es, k - 1) + es[k - 1].size == Off(es, k) && Off(es, k) + es[k].size <= BLOCK_SIZE
    ensures es[k].size >= HEADER && es[k - 1].size >= HEADER
    ensures var v := es[k - 1].size + es[k].size;
      Tiled(Copy(Copy(b, Off(es, k), Bytes32(0)), Off(es, k - 1) + 4, Bytes16(v)),
            es[..k - 1] + [es[k - 1].(size := v)] + es[k + 1..])
  {
    hide At, Off, Copy, Bytes16, Bytes32;
    OffNext(b, es, k);
    OffNext(b, es, k - 1);
    var o, v := Off(es, k - 1), es[k - 1].size + es[k].size;
    var b1 := Copy(b, Off(es, k), Bytes32(0));
    var c := Copy(b1, o + 4, Bytes16(v));
    Copied(b, Off(es, k), Bytes32(0));
    Copied(b1, o + 4, Bytes16(v));
    assert At(b, o, es[k - 1]);
    assert b[o..o + Used(es[k - 1])] == b1[o..o + Used(es[k - 1])];
    AtMoved(b, o, es[k - 1], b1, o);
    Resized(b1, o, es[k - 1], v);
    var p := es[k - 1].(size := v);
    Single(p);
    Replaced(b, es, k - 1, k + 1, [p], c);
  }

  lemma MovedOver(b: Block, n: int, v: int, u: int)
    requires 4 <= n <= v <= BLOCK_SIZE && 0 <= u <= v - n
    ensures var b1 := Copy(b, 0, Bytes32(0)); b[n..n + u] == Copy(b1, 0, b1[n..v])[0..0 + u]
  {
    hide Copy;
    var b1 := Copy(b, 0, Bytes32(0));
    var b2 := Copy(b1, 0, b1[n..v]);
    Copied(b, 0, Bytes32(0));
    Copied(b1, 0, b1[n..v]);
    var s, t := b[n..n + u], b2[0..0 + u];
    forall i | 0 <= i < u ensures s[i] == t[i] {
      assert b2[i] == b1[n..v][i] == b1[n + i] == b[n + i];
    }
  }

  /** Clearing the first of several entries and moving the second over it. */
  lemma FirstTiled(b: Block, es: seq<Dirent>)
    requires Tiled(b, es) && |es| >= 2
    ensures HEADER <= es[0].size && HEADER <= es[1].size && es[0].size + es[1].size <= BLOCK_SIZE
    ensures var n, v := es[0].size, es[0].size + es[1].size;
      var b1 := Copy(b, 0, Bytes32(0));
      Tiled(Copy(Copy(b1, 0, b1[n..v]), 4, Bytes16(v)), [es[1].(size := v)] + es[2..])
  {
    hide At, Off, Copy, Bytes16, Bytes32;
    OffZero(es);
    OffNext(b, es, 0);
    OffNext(b, es, 1);
    var n, v := es[0].size, es[0].size + es[1].size;
    var b1 := Copy(b, 0, Bytes32(0));
    var b2 := Copy(b1, 0, b1[n..v]);
    var c := Copy(b2, 4, Bytes16(v));
    var p := es[1].(size := v);
    assert At(c, 0, p) by {
      assert At(b, n, es[1]);
      MovedOver(b, n, v, Used(es[1]));
      AtMoved(b, n, es[1], b2, 0);
      Resized(b2, 0, es[1], v);
    }
    assert forall i :: v <= i < BLOCK_SIZE ==> c[i] == b[i] by {
      Copied(b, 0, Bytes32(0));
      Copied(b1, 0, b1[n..v]);
      Copied(b2, 4, Bytes16(v));
    }
    Single(p);
    Replaced(b, es, 0, 2, [p], c);
    assert es[..0] + [p] + es[2..] == [p] + es[2..];
  }

  /** Clearing the only entry. */
  lemma ClearTiled(b: Block, es: seq<Dirent>)
    requires Tiled(b, es) && |es| == 1
    ensures Tiled(Copy(b, 0, Bytes32(0)), [Dirent(0, BLOCK_SIZE, 0, [])])
  {
    hide Off, Copy;
    OffZero(es);
    OffNext(b, es, 0);
    Copied(b, 0, Bytes32(0));
    Stored32(b, 0, 0);
    assert At(b, 0, es[0]);
    Single(Dirent(0, BLOCK_SIZE, 0, []));
  }

  /** One entry that takes the whole block. */
  lemma WholeTiled(b: Block, e: Dirent)
    requires Good(e) && e.size == BLOCK_SIZE
    ensures Tiled(Store(b, 0, e), [e])
  {
    hide Off, Store;
    Stored(b, 0, e);
    Single(e);
  }

  lemma Single(e: Dirent)
    ensures Off([e], 0) == 0 && Off([e], 1) == e.size
  {
  }

  lemma Pair(d: Dirent, e: Dirent)
    ensures Off([d, e], 0) == 0 && Off([d, e], 1) == d.size && Off([d, e], 2) == d.size + e.size
  {
  }

  lemma LiveParts(es: seq<Dirent>, k: int, m: int, fs: seq<Dirent>)
    requires 0 <= k <= m <= |es|
    ensures Live(es) == Live(es[..k]) + Live(es[k..m]) + Live(es[m..])
    ensures Live(es[..k] + fs + es[m..]) == Live(es[..k]) + Live(fs) + Live(es[m..])
  {
    hide Live;
    assert es == es[..k] + es[k..m] + es[m..];
    LiveCat(es[..k] + es[k..m], es[m..]);
    LiveCat(es[..k], es[k..m]);
    LiveCat(es[..k] + fs, es[m..]);
    LiveCat(es[..k], fs);
  }

  /** `t` is `s` with `x` put in somewhere. */
  ghost predicate Inserted(s: seq<Link>, x: Link, t: seq<Link>) {
    exists i :: 0 <= i <= |s| && t == s[..i] + [x] + s[i..]
  }

  lemma InsertedAt(a: seq<Link>, x: Link, b: seq<Link>)
    ensures Inserted(a + b, x, a + [x] + b)
  {
    var s := a + b;
    assert s[..|a|] == a && s[|a|..] == b;
  }
}
