/** An ext2 directory: blocks of entries, edited in place one block at a time. */
module Ext2Directory {
  import opened Memory
  import opened Ext2Layout
  import opened Dirents

  /** A block whose entries tile it, unused at most in front, with the kind byte in use or zero. */
  ghost predicate BlockOk(b: Block, es: seq<Dirent>, typed: bool) {
    Tiled(b, es) && Packed(es) && forall k :: 0 <= k < |es| && !typed ==> es[k].kind == 0
  }

  ghost function AllLive(ess: seq<seq<Dirent>>): seq<Link> {
    if ess == [] then [] else Live(ess[0]) + AllLive(ess[1..])
  }

  lemma {:induction false} AllLiveCat(a: seq<seq<Dirent>>, b: seq<seq<Dirent>>)
    ensures AllLive(a + b) == AllLive(a) + AllLive(b)
    decreases |a|
  {
    if a == [] {
      assert a + b == b;
    } else {
      assert (a + b)[1..] == a[1..] + b;
      AllLiveCat(a[1..], b);
    }
  }

  lemma AllLiveSplit(ess: seq<seq<Dirent>>, i: int)
    requires 0 <= i < |ess|
    ensures AllLive(ess) == AllLive(ess[..i]) + Live(ess[i]) + AllLive(ess[i + 1..])
  {
    assert ess == ess[..i] + ess[i..];
    AllLiveCat(ess[..i], ess[i..]);
  }

  /** A change of one block's names is that change of the directory's. */
  lemma InsertedIn(ess: seq<seq<Dirent>>, i: int, fs: seq<Dirent>, x: Link)
    requires 0 <= i < |ess|
    ensures Inserted(Live(ess[i]), x, Live(fs)) ==> Inserted(AllLive(ess), x, AllLive(ess[i := fs]))
    ensures Inserted(Live(fs), x, Live(ess[i])) ==> Inserted(AllLive(ess[i := fs]), x, AllLive(ess))
  {
    hide Live, AllLive;
    var a, b := AllLive(ess[..i]), AllLive(ess[i + 1..]);
    AllLiveSplit(ess, i);
    AllLiveSplit(ess[i := fs], i);
    assert ess[i := fs][..i] == ess[..i] && ess[i := fs][i + 1..] == ess[i + 1..];
    if Inserted(Live(ess[i]), x, Live(fs)) { InsertedBetween(a, Live(ess[i]), b, x, Live(fs)); }
    if Inserted(Live(fs), x, Live(ess[i])) { InsertedBetween(a, Live(fs), b, x, Live(ess[i])); }
  }

  lemma InsertedBetween(a: seq<Link>, s: seq<Link>, b: seq<Link>, x: Link, t: seq<Link>)
    requires Inserted(s, x, t)
    ensures Inserted(a + s + b, x, a + t + b)
  {
    var i :| 0 <= i <= |s| && t == s[..i] + [x] + s[i..];
    var u, v, j := a + s + b, a + t + b, |a| + i;
    assert u[..j] == a + s[..i];
    assert u[j..] == s[i..] + b;
    assert v == u[..j] + [x] + u[j..];
  }

  lemma {:induction false} LiveHas(es: seq<Dirent>, k: int)
    requires 0 <= k < |es| && es[k].ino != 0
    ensures LinkOf(es[k]) in Live(es)
  {
    LiveParts(es, k, k + 1, []);
    assert es[k..k + 1] == [es[k]];
    assert Live([es[k]]) == [LinkOf(es[k])];
  }

  lemma {:induction false} LiveFrom(es: seq<Dirent>, l: Link)
    requires l in Live(es)
    ensures exists k :: 0 <= k < |es| && es[k].ino == l.ino != 0 && es[k].name == l.name
    decreases |es|
  {
    if es[0].ino == 0 || l != LinkOf(es[0]) {
      LiveFrom(es[1..], l);
      var k :| 0 <= k < |es[1..]| && es[1..][k].ino == l.ino != 0 && es[1..][k].name == l.name;
      assert es[k + 1] == es[1..][k];
    }
  }

  // ---------------------------------------------------------------- one block

  function LinkOf(e: Dirent): Link { Link(e.name, e.ino, e.kind) }

  lemma LiveOne(e: Dirent)
    ensures Live([e]) == if e.ino == 0 then [] else [LinkOf(e)]
  {
  }

  lemma LiveTwo(d: Dirent, e: Dirent)
    ensures Live([d, e]) == Live([d]) + Live([e])
  {
    assert [d, e] == [d] + [e];
    LiveCat([d], [e]);
  }

  lemma SplitOk(b: Block, es: seq<Dirent>, k: int, e: Dirent, typed: bool) returns (fs: seq<Dirent>)
    requires BlockOk(b, es, typed) && 0 <= k < |es| && Good(e) && e.ino != 0 && e.size == es[k].size - Used(es[k])
    requires !typed ==> e.kind == 0
    ensures Off(es, k) + es[k].size <= BLOCK_SIZE && 0 <= Off(es, k)
    ensures var o, u := Off(es, k), Used(es[k]); BlockOk(Store(Copy(b, o + 4, Bytes16(u)), o + u, e), fs, typed)
    ensures Inserted(Live(es), LinkOf(e), Live(fs))
  {
    hide Tiled, Live, Store, Copy, Off, Inserted;
    SplitTiled(b, es, k, e);
    var p := es[k].(size := Used(es[k]));
    fs := es[..k] + [p, e] + es[k + 1..];
    LiveParts(es, k, k + 1, [p, e]);
    assert es[k..k + 1] == [es[k]];
    LiveTwo(p, e);
    LiveOne(p);
    LiveOne(e);
    LiveOne(es[k]);
    var a, c := Live(es[..k]) + Live([p]), Live(es[k + 1..]);
    InsertedAt(a, LinkOf(e), c);
    assert Live(fs) == a + [LinkOf(e)] + c;
  }

  lemma RemovedLive(es: seq<Dirent>, k: int, m: int, p: Dirent, d: Dirent)
    requires 0 <= k && k + 2 == m <= |es| && d.ino != 0
    requires (es[k] == d && LinkOf(es[k + 1]) == LinkOf(p)) || (es[k + 1] == d && LinkOf(es[k]) == LinkOf(p))
    ensures Inserted(Live(es[..k] + [p] + es[m..]), LinkOf(d), Live(es))
  {
    hide Live, Inserted;
    LiveParts(es, k, m, [p]);
    assert es[k..m] == [es[k], es[k + 1]];
    LiveTwo(es[k], es[k + 1]);
    LiveOne(es[k]);
    LiveOne(es[k + 1]);
    LiveOne(p);
    assert Inserted(Live([p]), LinkOf(d), Live(es[k..m])) by { InsertedEnds(Live([p]), LinkOf(d)); }
    InsertedBetween(Live(es[..k]), Live([p]), Live(es[m..]), LinkOf(d), Live(es[k..m]));
  }

  lemma InsertedEnds(s: seq<Link>, x: Link)
    ensures Inserted(s, x, [x] + s) && Inserted(s, x, s + [x])
  {
    assert [x] + s == s[..0] + [x] + s[0..];
    assert s + [x] == s[..|s|] + [x] + s[|s|..];
  }

  lemma MergeOk(b: Block, es: seq<Dirent>, k: int, typed: bool) returns (fs: seq<Dirent>)
    requires BlockOk(b, es, typed) && 0 < k < |es|
    ensures 0 <= Off(es, k - 1) && Off(es, k - 1) + es[k - 1].size == Off(es, k) && Off(es, k) + es[k].size <= BLOCK_SIZE
    ensures es[k].size >= HEADER && es[k - 1].size >= HEADER
    ensures BlockOk(Copy(Copy(b, Off(es, k), Bytes32(0)), Off(es, k - 1) + 4, Bytes16(es[k - 1].size + es[k].size)), fs, typed)
    ensures Inserted(Live(fs), LinkOf(es[k]), Live(es))
  {
    hide Tiled, Live, Copy, Off, Inserted;
    MergeTiled(b, es, k);
    var p := es[k - 1].(size := es[k - 1].size + es[k].size);
    fs := es[..k - 1] + [p] + es[k + 1..];
    RemovedLive(es, k - 1, k + 1, p, es[k]);
  }

  lemma FirstOk(b: Block, es: seq<Dirent>, typed: bool) returns (fs: seq<Dirent>)
    requires BlockOk(b, es, typed) && |es| >= 2 && es[0].ino != 0
    ensures HEADER <= es[0].size && HEADER <= es[1].size && es[0].size + es[1].size <= BLOCK_SIZE
    ensures var n, v := es[0].size, es[0].size + es[1].size;
      var b1 := Copy(b, 0, Bytes32(0));
      BlockOk(Copy(Copy(b1, 0, b1[n..v]), 4, Bytes16(v)), fs, typed)
    ensures Inserted(Live(fs), LinkOf(es[0]), Live(es))
  {
    hide Tiled, Live, Copy, Off, Inserted;
    FirstTiled(b, es);
    var p := es[1].(size := es[0].size + es[1].size);
    fs := [p] + es[2..];
    RemovedLive(es, 0, 2, p, es[0]);
    assert es[..0] + [p] + es[2..] == fs;
  }

  lemma ClearOk(b: Block, es: seq<Dirent>, typed: bool) returns (fs: seq<Dirent>)
    requires BlockOk(b, es, typed) && |es| == 1 && es[0].ino != 0
    ensures BlockOk(Copy(b, 0, Bytes32(0)), fs, typed) && Inserted(Live(fs), LinkOf(es[0]), Live(es))
  {
    hide Tiled, Live, Copy, Off, Inserted;
    ClearTiled(b, es);
    fs := [Dirent(0, BLOCK_SIZE, 0, [])];
    LiveOne(fs[0]);
    LiveOne(es[0]);
    InsertedAt([], LinkOf(es[0]), []);
    assert es == [es[0]];
    assert [] + [LinkOf(es[0])] + [] == [LinkOf(es[0])] && [] + [] == Live(fs);
  }

  /** What the loops read at the start of an entry. */
  lemma Reads(b: Block, es: seq<Dirent>, k: int)
    requires Tiled(b, es) && 0 <= k <= |es| && Off(es, k) < BLOCK_SIZE
    ensures k < |es| && 0 <= Off(es, k) && Off(es, k) + es[k].size == Off(es, k + 1) <= BLOCK_SIZE
    ensures Good(es[k]) && At(b, Off(es, k), es[k]) && HEADER <= es[k].size
    ensures Off(es, k + 1) == BLOCK_SIZE <==> k + 1 == |es|
  {
    hide Off, At;
    OffNext(b, es, k);
    if k + 1 < |es| {
      OffNext(b, es, k + 1);
    }
  }

  /** The scan of ext2_dir_insert_inode over one block: the first entry with enough spare bytes is
      cut, and the new entry gets all of them. */
  method InsertInto(buf: Block, name: seq<byte>, ino: int, kind: byte, ghost es: seq<Dirent>, ghost typed: bool)
    returns (found: bool, out: Block, ghost fs: seq<Dirent>)
    requires BlockOk(buf, es, typed) && 0 < ino < 0x1_0000_0000 && |name| <= 255 && (!typed ==> kind == 0)
    ensures found <==> exists k :: 0 <= k < |es| && es[k].size - Used(es[k]) >= Needs(name)
    ensures found ==> BlockOk(out, fs, typed) && Inserted(Live(es), Link(name, ino, kind), Live(fs))
  {
    hide Tiled, Live, Store, Copy, Off, Inserted, Word16, Word32;
    var offset := 0;
    ghost var k := 0;
    OffZero(es);
    while offset < BLOCK_SIZE
      invariant 0 <= k <= |es| && offset == Off(es, k)
      invariant forall j :: 0 <= j < k ==> es[j].size - Used(es[j]) < Needs(name)
      decreases |es| - k
    {
      Reads(buf, es, k);
      var prev := HEADER;
      if Word32(buf, offset) != 0 {
        prev := prev + Round4(buf[offset + 6] as int);
      }
      assert Word16(buf, offset + 4) >= prev;
      var spare := Word16(buf, offset + 4) - prev;
      if spare >= Needs(name) {
        fs := SplitOk(buf, es, k, Dirent(ino, spare, kind, name), typed);
        out := Store(Copy(buf, offset + 4, Bytes16(prev)), offset + prev, Dirent(ino, spare, kind, name));
        return true, out, fs;
      }
      offset := offset + Word16(buf, offset + 4);
      k := k + 1;
    }
    TiledEnd(buf, es, k);
    return false, buf, es;
  }

  lemma TiledEnd(b: Block, es: seq<Dirent>, k: int)
    requires Tiled(b, es) && 0 <= k <= |es| && Off(es, k) >= BLOCK_SIZE
    ensures k == |es|
  {
    hide Off, At;
    if k < |es| { OffNext(b, es, k); }
  }

  /** The first link to an inode. */
  ghost function FirstLink(s: seq<Link>, ino: int): Option<Link> {
    if s == [] then None else if s[0].ino == ino then Some(s[0]) else FirstLink(s[1..], ino)
  }

  lemma {:induction false} FirstLinkCat(a: seq<Link>, b: seq<Link>, ino: int)
    ensures FirstLink(a + b, ino) == if FirstLink(a, ino).Some? then FirstLink(a, ino) else FirstLink(b, ino)
    decreases |a|
  {
    if a == [] {
      assert a + b == b;
    } else {
      assert (a + b)[1..] == a[1..] + b;
      FirstLinkCat(a[1..], b, ino);
    }
  }

  lemma {:induction false} FirstLinkIn(es: seq<Dirent>, ino: int, k: int)
    requires 0 <= k <= |es| && ino > 0 && (forall j :: 0 <= j < k ==> es[j].ino != ino) && (k < |es| ==> es[k].ino == ino)
    ensures FirstLink(Live(es), ino) == if k < |es| then Some(LinkOf(es[k])) else None
    decreases |es|
  {
    if es != [] && k > 0 {
      FirstLinkIn(es[1..], ino, k - 1);
      if es[0].ino != 0 { assert Live(es)[1..] == Live(es[1..]); }
    }
  }

  /** There is none exactly when no link is to the inode. */
  lemma {:induction false} FirstLinkIff(s: seq<Link>, ino: int)
    ensures FirstLink(s, ino).Some? <==> exists l :: l in s && l.ino == ino
    ensures FirstLink(s, ino).Some? ==> FirstLink(s, ino).value in s && FirstLink(s, ino).value.ino == ino
  {
    if s != [] {
      FirstLinkIff(s[1..], ino);
      assert s[0] in s;
      assert forall l :: l in s ==> l == s[0] || l in s[1..];
    }
  }

  /** strncmp of an entry's name, over its length, with a string. */
  predicate Spells(entry: seq<byte>, name: seq<byte>) {
    entry <= name || (name < entry && entry[|name|] == 0)
  }

  /** The first link is l exactly if l is the first of the links to its inode. */
  lemma {:induction false} FirstLinkIs(s: seq<Link>, l: Link)
    ensures FirstLink(s, l.ino) == Some(l) <==> exists i :: 0 <= i < |s| && s[i] == l && forall j :: 0 <= j < i ==> s[j].ino != l.ino
    decreases |s|
  {
    if s != [] && s[0].ino != l.ino {
      FirstLinkIs(s[1..], l);
      var t := s[1..];
      if i :| 0 <= i < |t| && t[i] == l && forall j :: 0 <= j < i ==> t[j].ino != l.ino {
        forall j | 0 <= j < i + 1 ensures s[j].ino != l.ino { if j > 0 { assert s[j] == t[j - 1]; } }
        assert s[i + 1] == l;
      }
      if i :| 0 <= i < |s| && s[i] == l && forall j :: 0 <= j < i ==> s[j].ino != l.ino {
        forall j | 0 <= j < i - 1 ensures t[j].ino != l.ino { assert t[j] == s[j + 1]; }
        assert t[i - 1] == l;
      }
    }
  }

  /** What is missing from a sequence is determined by what is left. */
  lemma OneMissing(s: seq<Link>, x: Link, y: Link, t: seq<Link>)
    requires Inserted(s, x, t) && Inserted(s, y, t)
    ensures x == y
  {
    InsertedItems(s, x, t);
    InsertedItems(s, y, t);
    assert multiset(t)[x] == multiset(s)[x] + 1;
  }

  lemma InsertedItems(s: seq<Link>, x: Link, t: seq<Link>)
    requires Inserted(s, x, t)
    ensures multiset(t) == multiset(s) + multiset{x}
  {
    var i :| 0 <= i <= |s| && t == s[..i] + [x] + s[i..];
    assert s == s[..i] + s[i..];
  }

  /** A link of this name to this inode has gone. */
  ghost predicate Gone(before: seq<Link>, after: seq<Link>, name: seq<byte>, ino: int) {
    exists kind :: Inserted(after, Link(name, ino, kind), before)
  }

  /** The link that goes is the one meant exactly if the first to the inode has its name. */
  lemma MeantGoes(before: seq<Link>, after: seq<Link>, name: seq<byte>, ino: int)
    requires FirstLink(before, ino).Some? && Inserted(after, FirstLink(before, ino).value, before)
    ensures Gone(before, after, name, ino) <==> FirstLink(before, ino).value.name == name
  {
    var l := FirstLink(before, ino).value;
    FirstLinkIff(before, ino);
    assert l == Link(l.name, ino, l.kind);
    if Gone(before, after, name, ino) {
      var kind :| Inserted(after, Link(name, ino, kind), before);
      OneMissing(after, Link(name, ino, kind), l, before);
    }
  }

  datatype Deletion = Removed | NoLink | Stops

  /** The scan of ext2_dir_del_inode over one block: the first link to the inode goes.  The machine
      stops if the name that was meant does not begin with that link's. */
  method DeleteFrom(buf: Block, name: seq<byte>, ino: int, ghost es: seq<Dirent>, ghost typed: bool)
    returns (res: Deletion, out: Block, ghost fs: seq<Dirent>)
    requires BlockOk(buf, es, typed) && ino > 0
    ensures res == NoLink <==> FirstLink(Live(es), ino) == None
    ensures res == Stops <==> FirstLink(Live(es), ino).Some? && !Spells(FirstLink(Live(es), ino).value.name, name)
    ensures res == Removed ==> BlockOk(out, fs, typed) && Inserted(Live(fs), FirstLink(Live(es), ino).value, Live(es))
    ensures res == Removed ==> (Gone(Live(es), Live(fs), name, ino) <==> FirstLink(Live(es), ino).value.name == name)
  {
    hide Tiled, Live, Copy, Off, Inserted, Word16, Word32, FirstLink, Gone;
    var offset, prev := 0, -1;
    ghost var k := 0;
    OffZero(es);
    while offset < BLOCK_SIZE
      invariant 0 <= k <= |es| && offset == Off(es, k)
      invariant if k == 0 then prev == -1 else prev == Off(es, k - 1) && 0 <= prev && prev + HEADER <= BLOCK_SIZE
      invariant k > 0 ==> Word16(buf, prev + 4) == es[k - 1].size && offset >= HEADER
      invariant forall j :: 0 <= j < k ==> es[j].ino != ino
      decreases |es| - k
    {
      Reads(buf, es, k);
      var size := Word16(buf, offset + 4);
      if Word32(buf, offset) == ino {
        FirstLinkIn(es, ino, k);
        if !Spells(buf[offset + 8..offset + 8 + buf[offset + 6] as int], name) { return Stops, buf, es; }
        var cleared := Copy(buf, offset, Bytes32(0));
        if size == BLOCK_SIZE {
          fs := ClearOk(buf, es, typed);
          out := cleared;
        } else if prev >= 0 {
          fs := MergeOk(buf, es, k, typed);
          KeepsWord(buf, offset, prev + 4);
          out := Copy(cleared, prev + 4, Bytes16(Word16(cleared, prev + 4) + size));
        } else {
          assert offset == 0 && size < BLOCK_SIZE;
          fs := FirstOk(buf, es, typed);
          SecondSize(buf, es);
          var len := Word16(cleared, size + 4);
          out := Copy(Copy(cleared, 0, cleared[size..size + len]), 4, Bytes16(size + len));
        }
        MeantGoes(Live(es), Live(fs), name, ino);
        return Removed, out, fs;
      }
      prev := offset;
      offset := offset + size;
      k := k + 1;
    }
    TiledEnd(buf, es, k);
    FirstLinkIn(es, ino, k);
    return NoLink, buf, es;
  }

  lemma KeepsWord(b: Block, o: int, p: int)
    requires 0 <= o && o + 4 <= BLOCK_SIZE && 0 <= p && p + 2 <= BLOCK_SIZE && (p + 2 <= o || o + 4 <= p)
    ensures Word16(Copy(b, o, Bytes32(0)), p) == Word16(b, p)
  {
    Copied(b, o, Bytes32(0));
  }

  lemma SecondSize(b: Block, es: seq<Dirent>)
    requires Tiled(b, es) && |es| >= 2
    ensures HEADER <= es[0].size && es[0].size + es[1].size <= BLOCK_SIZE && HEADER <= es[1].size
    ensures Word16(Copy(b, 0, Bytes32(0)), es[0].size + 4) == es[1].size
  {
    hide Off, Copy;
    OffZero(es);
    OffNext(b, es, 0);
    OffNext(b, es, 1);
    assert At(b, Off(es, 1), es[1]);
    KeepsWord(b, 0, es[0].size + 4);
  }

  // ---------------------------------------------------------------- the directory

  /** The first name in use that equals `name`. */
  ghost function Lookup(ls: seq<Link>, name: seq<byte>): Option<int> {
    if ls == [] then None else if ls[0].name == name then Some(ls[0].ino) else Lookup(ls[1..], name)
  }

  /** Lookup fails exactly when the name is not in use, and otherwise gives an inode linked under it. */
  lemma {:induction false} LookupIff(ls: seq<Link>, name: seq<byte>)
    ensures Lookup(ls, name).None? <==> forall l :: l in ls ==> l.name != name
    ensures Lookup(ls, name).Some? ==> exists l :: l in ls && l.name == name && l.ino == Lookup(ls, name).value
    decreases |ls|
  {
    if ls != [] { LookupIff(ls[1..], name); }
  }

  lemma {:induction false} LookupCat(a: seq<Link>, b: seq<Link>, name: seq<byte>)
    ensures Lookup(a + b, name) == if Lookup(a, name).Some? then Lookup(a, name) else Lookup(b, name)
    decreases |a|
  {
    if a == [] {
      assert a + b == b;
    } else {
      assert (a + b)[1..] == a[1..] + b;
      LookupCat(a[1..], b, name);
    }
  }

  /** A link put in under a new name is found under it, and every other name is found as before;
      read the other way, a removed link is no longer found. */
  lemma LookupInserted(s: seq<Link>, x: Link, t: seq<Link>, name: seq<byte>)
    requires Inserted(s, x, t) && Lookup(s, x.name) == None
    ensures Lookup(t, name) == if name == x.name then Some(x.ino) else Lookup(s, name)
  {
    hide Lookup;
    var i :| 0 <= i <= |s| && t == s[..i] + [x] + s[i..];
    assert s == s[..i] + s[i..];
    assert Lookup([x], name) == (if x.name == name then Some(x.ino) else None) by { LookupOne(x, name); }
    LookupCat(s[..i] + [x], s[i..], name);
    LookupCat(s[..i], [x], name);
    LookupCat(s[..i], s[i..], name);
  }

  /** With the links "a" and "ab" to inode 5, unlinking "ab" removes "a". */
  method PrefixGoes(dir: Directory)
    requires dir.Valid() && dir.Links() == [Link([97], 5, 0), Link([97, 98], 5, 0)]
    modifies dir
    ensures dir.Valid() && dir.Links() == [Link([97, 98], 5, 0)]
  {
    PrefixFirst();
    var res := dir.Delete([97, 98], 5);
    OneLeft(dir.Links(), Link([97], 5, 0), Link([97, 98], 5, 0));
  }

  lemma PrefixFirst()
    ensures FirstLink([Link([97], 5, 0), Link([97, 98], 5, 0)], 5) == Some(Link([97], 5, 0)) && Spells([97], [97, 98])
  {
  }

  lemma OneLeft(s: seq<Link>, x: Link, y: Link)
    requires Inserted(s, x, [x, y]) && x != y
    ensures s == [y]
  {
    var i :| 0 <= i <= |s| && [x, y] == s[..i] + [x] + s[i..];
    assert |[x, y]| == |s| + 1;
    assert [x, y][1] == (s[..i] + [x] + s[i..])[1] == s[0];
  }

  lemma LookupNone(name: seq<byte>)
    ensures Lookup([], name) == None
  {
  }

  lemma LookupOne(x: Link, name: seq<byte>)
    ensures Lookup([x], name) == if x.name == name then Some(x.ino) else None
  {
  }

  /** The loop of ext2_dir_find over one block. */
  method FindIn(buf: Block, name: seq<byte>, ghost es: seq<Dirent>) returns (r: Option<int>)
    requires Tiled(buf, es)
    ensures r == Lookup(Live(es), name)
  {
    hide Tiled, Live, Off, Word16, Word32, Lookup;
    var offset := 0;
    ghost var k := 0;
    OffZero(es);
    assert es[..0] == [];
    LiveNone();
    LookupNone(name);
    while offset < BLOCK_SIZE
      invariant 0 <= k <= |es| && offset == Off(es, k)
      invariant Lookup(Live(es[..k]), name) == None
      decreases |es| - k
    {
      Reads(buf, es, k);
      LiveParts(es, k, k + 1, []);
      assert es[k..k + 1] == [es[k]];
      LiveOne(es[k]);
      LookupOne(LinkOf(es[k]), name);
      var len := buf[offset + 6] as int;
      if Word32(buf, offset) != 0 && len == |name| && buf[offset + 8..offset + 8 + |name|] == name {
        LookupCat(Live(es[..k]), Live([es[k]]), name);
        LookupCat(Live(es[..k]) + Live([es[k]]), Live(es[k + 1..]), name);
        return Some(Word32(buf, offset));
      }
      assert es[..k + 1] == es[..k] + [es[k]];
      LiveCat(es[..k], [es[k]]);
      LookupCat(Live(es[..k]), Live([es[k]]), name);
      offset := offset + Word16(buf, offset + 4);
      k := k + 1;
    }
    TiledEnd(buf, es, k);
    assert es[..k] == es;
    return None;
  }

  lemma FirstLinkNone(ino: int)
    ensures FirstLink([], ino) == None
  {
  }

  lemma LiveNone()
    ensures Live([]) == [] && AllLive([]) == []
  {
  }

  class Directory {
    const typed: bool
    var blocks: seq<Block>
    ghost var entries: seq<seq<Dirent>>

    ghost predicate Valid()
      reads this
    {
      |blocks| == |entries| && forall i :: 0 <= i < |blocks| ==> BlockOk(blocks[i], entries[i], typed)
    }

    ghost function Links(): seq<Link>
      reads this
    {
      AllLive(entries)
    }

    /** An empty directory. */
    constructor (typed: bool)
      ensures Valid() && Links() == [] && this.typed == typed
    {
      this.typed, blocks, entries := typed, [], [];
    }

    ghost predicate HasRoom(need: int)
      reads this
    {
      exists i, k :: 0 <= i < |entries| && 0 <= k < |entries[i]| && entries[i][k].size - Used(entries[i][k]) >= need
    }

    /** ext2_dir_insert_inode: one link is added, in the first block with room or else in a new one. */
    method Insert(name: seq<byte>, ino: int, isDir: bool)
      requires Valid() && 0 < ino < 0x1_0000_0000 && |name| <= 255
      modifies this
      ensures Valid() && Inserted(old(Links()), Link(name, ino, if !typed then 0 else if isDir then 2 else 1), Links())
      ensures |blocks| == if old(HasRoom(Needs(name))) then old(|blocks|) else old(|blocks|) + 1
    {
      hide BlockOk, Live, AllLive, Inserted, Store;
      var kind: byte := if !typed then 0 else if isDir then 2 else 1;
      var i := 0;
      while i < |blocks|
        invariant 0 <= i <= |blocks| && Valid() && blocks == old(blocks) && entries == old(entries)
        invariant forall j, k :: 0 <= j < i && 0 <= k < |entries[j]| ==> entries[j][k].size - Used(entries[j][k]) < Needs(name)
      {
        var found, buf, fs := InsertInto(blocks[i], name, ino, kind, entries[i], typed);
        if found {
          InsertedIn(entries, i, fs, Link(name, ino, kind));
          blocks, entries := blocks[i := buf], entries[i := fs];
          return;
        }
        i := i + 1;
      }
      var e := Dirent(ino, BLOCK_SIZE, kind, name);
      ghost var es := [e];
      assert BlockOk(Store(seq(BLOCK_SIZE, _ => 0), 0, e), es, typed) by { WholeOk(seq(BLOCK_SIZE, _ => 0), e, typed); }
      assert Inserted(AllLive(entries), Link(name, ino, kind), AllLive(entries + [es])) by { AppendLive(entries, e); }
      blocks := blocks + [Store(seq(BLOCK_SIZE, _ => 0), 0, e)];
      entries := entries + [es];
    }

    /** ext2_dir_del_inode: the first link to the inode is removed, and nothing else changes.  The names
        are compared over the length of that link's: if the name that was meant begins otherwise the
        machine stops, and if it goes on another link than the one meant is gone. */
    method Delete(name: seq<byte>, ino: int) returns (res: Deletion)
      requires Valid() && ino > 0
      modifies this
      ensures Valid() && |blocks| == old(|blocks|)
      ensures res == NoLink <==> FirstLink(old(Links()), ino) == None
      ensures res == Stops <==> FirstLink(old(Links()), ino).Some? && !Spells(FirstLink(old(Links()), ino).value.name, name)
      ensures res == Removed ==> Inserted(Links(), FirstLink(old(Links()), ino).value, old(Links()))
      ensures res == Removed ==>
        (Gone(old(Links()), Links(), name, ino) <==> FirstLink(old(Links()), ino).value.name == name)
      ensures res != Removed ==> blocks == old(blocks) && entries == old(entries)
    {
      hide BlockOk, Live, AllLive, Inserted, FirstLink, Spells, Gone;
      var i := 0;
      assert entries[..0] == [];
      LiveNone();
      FirstLinkNone(ino);
      while i < |blocks|
        invariant 0 <= i <= |blocks| && Valid() && blocks == old(blocks) && entries == old(entries)
        invariant FirstLink(AllLive(entries[..i]), ino) == None
      {
        var hit, buf, fs := DeleteFrom(blocks[i], name, ino, entries[i], typed);
        AllLiveSplit(entries, i);
        FirstLinkCat(AllLive(entries[..i]), Live(entries[i]), ino);
        FirstLinkCat(AllLive(entries[..i]) + Live(entries[i]), AllLive(entries[i + 1..]), ino);
        if hit == Stops { return Stops; }
        if hit == Removed {
          InsertedIn(entries, i, fs, FirstLink(Live(entries[i]), ino).value);
          MeantGoes(Links(), AllLive(entries[i := fs]), name, ino);
          blocks, entries := blocks[i := buf], entries[i := fs];
          return Removed;
        }
        AllLiveSnoc(entries, i);
        i := i + 1;
      }
      assert entries[..i] == entries;
      return NoLink;
    }

    /** ext2_dir_find: succeeds exactly for names in use. */
    method Find(name: seq<byte>) returns (r: Option<int>)
      requires Valid() && |name| < 255
      ensures r == Lookup(Links(), name)
      ensures r.Some? <==> exists l :: l in Links() && l.name == name
    {
      hide Live, AllLive, Lookup, Tiled;
      LookupIff(Links(), name);
      r := None;
      var i := 0;
      assert entries[..0] == [];
      LiveNone();
      LookupIff([], name);
      while i < |blocks|
        invariant 0 <= i <= |blocks| && r == Lookup(AllLive(entries[..i]), name) == None
      {
        assert BlockOk(blocks[i], entries[i], typed);
        r := FindIn(blocks[i], name, entries[i]);
        AllLiveSplit(entries, i);
        LookupCat(AllLive(entries[..i]), Live(entries[i]), name);
        LookupCat(AllLive(entries[..i]) + Live(entries[i]), AllLive(entries[i + 1..]), name);
        if r.Some? { return; }
        AllLiveSnoc(entries, i);
        i := i + 1;
      }
      assert entries[..i] == entries;
    }

    /** The read position is the start of entry `k` of block `i`, or the end. */
    ghost predicate Cursor(pos: int, i: int, k: int)
      reads this
    {
      if i == |entries| then k == 0 && pos == i * BLOCK_SIZE
      else 0 <= i < |entries| && 0 <= k < |entries[i]| && pos == i * BLOCK_SIZE + Off(entries[i], k)
    }

    /** The end of ext2_vnode_readdir: copies the name of the entry in use at the cursor and moves on. */
    method Emit(pos: int, ghost i: int, ghost k: int) returns (name: seq<byte>, next: int, ghost i': int, ghost k': int)
      requires Valid() && Cursor(pos, i, k) && i < |entries| && entries[i][k].ino != 0
      ensures Cursor(next, i', k') && next > pos
      ensures Rest(entries, i, k) == [Link(name, entries[i][k].ino, entries[i][k].kind)] + Rest(entries, i', k')
    {
      hide Off, Live, AllLive, At, Rest, Tiled, BlockOk;
      CursorIn(pos, i, k);
      Fields(blocks[i], entries[i], k, typed);
      var buf, o := blocks[pos / BLOCK_SIZE], pos % BLOCK_SIZE;
      var len := buf[o + 6] as int;
      if !typed { len := len + 0x100 * buf[o + 7] as int; }
      name := buf[o + 8..o + 8 + len];
      next := pos + Word16(buf, o + 4);
      RestStep(entries, i, k);
      CursorNext(pos, i, k);
      if k + 1 < |entries[i]| { i', k' := i, k + 1; } else { i', k' := i + 1, 0; }
    }

    /** ext2_vnode_readdir: returns the next name in use and moves past it. */
    method Readdir(pos: int, ghost i: int, ghost k: int) returns (r: Option<seq<byte>>, next: int, ghost i': int, ghost k': int)
      requires Valid() && Cursor(pos, i, k)
      ensures Cursor(next, i', k') && (r.Some? ==> next > pos)
      ensures Rest(entries, i, k) == [] ==> r == None && Rest(entries, i', k') == []
      ensures Rest(entries, i, k) != [] ==>
        r == Some(Rest(entries, i, k)[0].name) && Rest(entries, i', k') == Rest(entries, i, k)[1..]
      decreases |blocks| * BLOCK_SIZE - pos
    {
      hide Off, Live, AllLive, At, Rest, Tiled, BlockOk, Valid;
      Sized(pos, i, k);
      if pos >= |blocks| * BLOCK_SIZE {
        CursorEnd(pos, i, k);
        RestStep(entries, i, k);
        return None, pos, i, k;
      }
      CursorIn(pos, i, k);
      Fields(blocks[i], entries[i], k, typed);
      RestStep(entries, i, k);
      var index, o := pos / BLOCK_SIZE, pos % BLOCK_SIZE;
      next, i', k' := pos, i, k;
      if Word32(blocks[index], o) == 0 {
        next := next + Word16(blocks[index], o + 4);
        CursorNext(pos, i, k);
        if next / BLOCK_SIZE != index {
          assert next % BLOCK_SIZE == 0;
          r, next, i', k' := Readdir(next, i + 1, 0);
          return;
        }
        k' := k + 1;
        CursorIn(next, i', k');
        Fields(blocks[i], entries[i], k', typed);
        assert Word32(blocks[index], next % BLOCK_SIZE) != 0;
      }
      var name;
      name, next, i', k' := Emit(next, i', k');
      r := Some(name);
    }

    lemma Sized(pos: int, i: int, k: int)
      requires Valid() && Cursor(pos, i, k)
      ensures |blocks| == |entries| && (i == |entries| ==> pos >= |blocks| * BLOCK_SIZE)
    {
    }

    lemma CursorEnd(pos: int, i: int, k: int)
      requires Valid() && Cursor(pos, i, k) && pos >= |blocks| * BLOCK_SIZE
      ensures i == |entries|
    {
      hide Off;
      if i < |entries| {
        assert BlockOk(blocks[i], entries[i], typed);
        OffNext(blocks[i], entries[i], k);
      }
    }

    lemma CursorIn(pos: int, i: int, k: int)
      requires Valid() && Cursor(pos, i, k) && i < |entries|
      ensures BlockOk(blocks[i], entries[i], typed) && pos / BLOCK_SIZE == i && pos % BLOCK_SIZE == Off(entries[i], k)
    {
      hide Off;
      assert BlockOk(blocks[i], entries[i], typed);
      OffNext(blocks[i], entries[i], k);
    }

    lemma CursorNext(pos: int, i: int, k: int)
      requires Valid() && Cursor(pos, i, k) && i < |entries|
      ensures pos + entries[i][k].size > pos
      ensures var q := pos + entries[i][k].size;
        if k + 1 < |entries[i]| then Cursor(q, i, k + 1) && q / BLOCK_SIZE == i
        else Cursor(q, i + 1, 0) && q / BLOCK_SIZE == i + 1 && q % BLOCK_SIZE == 0
    {
      hide Off, At;
      assert BlockOk(blocks[i], entries[i], typed);
      OffNext(blocks[i], entries[i], k);
      if k + 1 < |entries[i]| {
        OffNext(blocks[i], entries[i], k + 1);
      } else if i + 1 < |entries| {
        assert BlockOk(blocks[i + 1], entries[i + 1], typed);
        OffZero(entries[i + 1]);
        if entries[i + 1] == [] { OffZero([]); }
      }
    }

    /** Reading from the start until nothing is left lists every name in use once, in order. */
    method List() returns (names: seq<seq<byte>>)
      requires Valid()
      ensures |names| == |Links()| && forall j :: 0 <= j < |names| ==> names[j] == Links()[j].name
    {
      hide Live, AllLive, Rest, BlockOk;
      var pos, more := 0, true;
      ghost var i, k := 0, 0;
      names := [];
      CursorStart();
      RestAll(entries);
      while more
        invariant Cursor(pos, i, k) && |names| <= |Links()| && Rest(entries, i, k) == Links()[|names|..]
        invariant forall j :: 0 <= j < |names| ==> names[j] == Links()[j].name
        invariant !more ==> |names| == |Links()|
        decreases |Links()| - |names|, more
      {
        var r: Option<seq<byte>>;
        r, pos, i, k := Readdir(pos, i, k);
        if r.Some? { names := names + [r.value]; } else { more := false; }
      }
    }

    lemma CursorStart()
      requires Valid()
      ensures Cursor(0, 0, 0)
    {
      if entries != [] {
        assert BlockOk(blocks[0], entries[0], typed);
        OffZero(entries[0]);
      }
    }
  }

  /** The names in use from entry `k` of block `i` on. */
  ghost function Rest(ess: seq<seq<Dirent>>, i: int, k: int): seq<Link>
    requires 0 <= i <= |ess| && (i < |ess| ==> 0 <= k <= |ess[i]|)
  {
    if i < |ess| then Live(ess[i][k..]) + AllLive(ess[i + 1..]) else []
  }

  lemma RestAll(ess: seq<seq<Dirent>>)
    ensures Rest(ess, 0, 0) == AllLive(ess)
  {
    if ess != [] { assert ess[0][0..] == ess[0]; }
  }

  lemma AllLiveHead(ess: seq<seq<Dirent>>, i: int)
    requires 0 <= i <= |ess|
    ensures AllLive(ess[i..]) == if i < |ess| then Live(ess[i]) + AllLive(ess[i + 1..]) else []
  {
    if i < |ess| { assert ess[i..][1..] == ess[i + 1..]; }
  }

  lemma RestStep(ess: seq<seq<Dirent>>, i: int, k: int)
    requires 0 <= i <= |ess| && (i < |ess| ==> 0 <= k < |ess[i]|)
    ensures i == |ess| ==> Rest(ess, i, k) == []
    ensures i < |ess| ==>
      && var next := if k + 1 < |ess[i]| then Rest(ess, i, k + 1) else Rest(ess, i + 1, 0);
      && Rest(ess, i, k) == if ess[i][k].ino == 0 then next else [LinkOf(ess[i][k])] + next
  {
    hide Live, AllLive;
    if i < |ess| {
      var es, rest := ess[i], AllLive(ess[i + 1..]);
      assert es[k..] == [es[k]] + es[k + 1..];
      LiveCat([es[k]], es[k + 1..]);
      LiveOne(es[k]);
      assert Live(es[k..]) + rest == Live([es[k]]) + (Live(es[k + 1..]) + rest);
      if k + 1 == |es| {
        assert es[k + 1..] == [];
        LiveNone();
        AllLiveHead(ess, i + 1);
        if i + 1 < |ess| { assert ess[i + 1][0..] == ess[i + 1]; }
      }
    }
  }

  /** The fields that ext2_vnode_readdir reads at an entry. */
  lemma Fields(b: Block, es: seq<Dirent>, k: int, typed: bool)
    requires BlockOk(b, es, typed) && 0 <= k < |es|
    ensures 0 <= Off(es, k) && Off(es, k) + HEADER <= BLOCK_SIZE
    ensures Word32(b, Off(es, k)) == es[k].ino && Word16(b, Off(es, k) + 4) == es[k].size && es[k].size >= HEADER
    ensures k > 0 ==> es[k].ino != 0
    ensures es[k].ino != 0 ==>
      && var len := b[Off(es, k) + 6] as int + if typed then 0 else 0x100 * b[Off(es, k) + 7] as int;
      && Off(es, k) + 8 + len <= BLOCK_SIZE && b[Off(es, k) + 8..Off(es, k) + 8 + len] == es[k].name
  {
    hide Off;
    OffNext(b, es, k);
    assert At(b, Off(es, k), es[k]);
  }

  lemma AllLiveSnoc(ess: seq<seq<Dirent>>, i: int)
    requires 0 <= i < |ess|
    ensures AllLive(ess[..i + 1]) == AllLive(ess[..i]) + Live(ess[i])
  {
    assert ess[..i + 1] == ess[..i] + [ess[i]];
    AllLiveCat(ess[..i], [ess[i]]);
    assert AllLive([ess[i]]) == Live(ess[i]) + AllLive([]);
  }

  lemma {:induction false} AllLiveFrom(ess: seq<seq<Dirent>>, l: Link)
    requires l in AllLive(ess)
    ensures exists i, k :: 0 <= i < |ess| && 0 <= k < |ess[i]| && ess[i][k].ino == l.ino != 0 && ess[i][k].name == l.name
    decreases |ess|
  {
    if l in Live(ess[0]) {
      LiveFrom(ess[0], l);
    } else {
      AllLiveFrom(ess[1..], l);
      var i, k :| 0 <= i < |ess[1..]| && 0 <= k < |ess[1..][i]| && ess[1..][i][k].ino == l.ino != 0 && ess[1..][i][k].name == l.name;
      assert ess[i + 1] == ess[1..][i];
    }
  }

  lemma WholeOk(b: Block, e: Dirent, typed: bool)
    requires Good(e) && e.size == BLOCK_SIZE && (!typed ==> e.kind == 0)
    ensures BlockOk(Store(b, 0, e), [e], typed)
  {
    hide Tiled, Store;
    WholeTiled(b, e);
  }

  lemma AppendLive(ess: seq<seq<Dirent>>, e: Dirent)
    requires e.ino != 0
    ensures Inserted(AllLive(ess), LinkOf(e), AllLive(ess + [[e]]))
  {
    AllLiveCat(ess, [[e]]);
    assert AllLive([[e]]) == Live([e]) == [LinkOf(e)];
    InsertedAt(AllLive(ess), LinkOf(e), []);
    assert AllLive(ess) + [] == AllLive(ess);
    assert AllLive(ess) + [LinkOf(e)] + [] == AllLive(ess) + [LinkOf(e)];
  }
}
