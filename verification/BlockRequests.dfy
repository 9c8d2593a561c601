/** Byte-range requests on a cached block device, in terms of the cache value.

    The request loops advance the page index but reuse the offset inside the page, so they
    walk pages `index, index + 1, ...` always at the same offset.  `ReadExact` and `WriteExact`
    say exactly which requests this serves correctly. */
module BlockRequests {
  import opened Memory
  import opened LruCache

  function Min(a: int, b: int): int { if a < b then a else b }

  /** Number of rounds the loop makes for `rem` bytes at offset `bo` of a page. */
  function Trips(bo: int, rem: int): (n: nat)
    requires 0 <= bo < PAGE_SIZE && 0 <= rem
    ensures rem > 0 ==> n >= 1
    decreases rem
  {
    if rem == 0 then 0 else 1 + Trips(bo, rem - Min(PAGE_SIZE - bo, rem))
  }

  // ---------------------------------------------------------------- the loops on the cache

  ghost function ReadFrom(c: Cache, index: int, bo: int, rem: int): (Cache, seq<byte>)
    requires Valid(c) && 0 <= bo < PAGE_SIZE && 0 <= rem && 0 <= index && index + Trips(bo, rem) <= |c.disk|
    decreases rem
  {
    if rem == 0 then (c, [])
    else
      var can := Min(PAGE_SIZE - bo, rem);
      FetchValid(c, index);
      var d := Fetch(c, index);
      var (e, bytes) := ReadFrom(d, index + 1, bo, rem - can);
      (e, d.lines[0].data[bo..bo + can] + bytes)
  }

  lemma ReadRound(c: Cache, index: int, bo: int, rem: int)
    requires Valid(c) && 0 <= bo < PAGE_SIZE && 0 < rem && 0 <= index && index + Trips(bo, rem) <= |c.disk|
    ensures var can, d := Min(PAGE_SIZE - bo, rem), Fetch(c, index);
      && Valid(d) && d.lines != [] && |d.disk| == |c.disk|
      && index + 1 + Trips(bo, rem - can) <= |d.disk|
      && ReadFrom(c, index, bo, rem) == (ReadFrom(d, index + 1, bo, rem - can).0,
                                        d.lines[0].data[bo..bo + can] + ReadFrom(d, index + 1, bo, rem - can).1)
  {
    FetchValid(c, index);
  }

  ghost function WriteFrom(c: Cache, index: int, bo: int, buf: seq<byte>): Cache
    requires Valid(c) && 0 <= bo < PAGE_SIZE && 0 <= index && index + Trips(bo, |buf|) <= |c.disk|
    decreases |buf|
  {
    if buf == [] then c
    else
      var can := Min(PAGE_SIZE - bo, |buf|);
      FetchValid(c, index);
      var d := Fetch(c, index);
      PatchLogical(d, bo, buf[..can], index);
      WriteFrom(Patch(d, bo, buf[..can]), index + 1, bo, buf[can..])
  }

  // ---------------------------------------------------------------- the loops on a plain disk

  ghost function DiskOf(c: Cache): (l: seq<Data>)
    ensures |l| == |c.disk|
  {
    seq(|c.disk|, b requires 0 <= b < |c.disk| => Logical(c, b))
  }

  function DiskRead(l: seq<Data>, index: int, bo: int, rem: int): (r: seq<byte>)
    requires 0 <= bo < PAGE_SIZE && 0 <= rem && 0 <= index && index + Trips(bo, rem) <= |l|
    ensures |r| == rem
    decreases rem
  {
    if rem == 0 then []
    else
      var can := Min(PAGE_SIZE - bo, rem);
      l[index][bo..bo + can] + DiskRead(l, index + 1, bo, rem - can)
  }

  function DiskWrite(l: seq<Data>, index: int, bo: int, buf: seq<byte>): (r: seq<Data>)
    requires 0 <= bo < PAGE_SIZE && 0 <= index && index + Trips(bo, |buf|) <= |l|
    ensures |r| == |l|
    ensures forall j :: 0 <= j < index ==> r[j] == l[j]
    decreases |buf|
  {
    if buf == [] then l
    else
      var can := Min(PAGE_SIZE - bo, |buf|);
      DiskWrite(l[index := Splice(l[index], bo, buf[..can])], index + 1, bo, buf[can..])
  }

  lemma SameDisk(c: Cache, d: Cache)
    requires SameLogical(c, d)
    ensures DiskOf(c) == DiskOf(d)
  {
    forall b | 0 <= b < |c.disk| ensures DiskOf(c)[b] == DiskOf(d)[b] { assert Logical(c, b) == Logical(d, b); }
  }

  /** A cached read returns what the same loop reads from the logical disk, and leaves the
      logical disk alone, whatever is cached and whatever has to be evicted. */
  lemma {:induction false} ReadTransparent(c: Cache, index: int, bo: int, rem: int)
    requires Valid(c) && 0 <= bo < PAGE_SIZE && 0 <= rem && 0 <= index && index + Trips(bo, rem) <= |c.disk|
    ensures ReadFrom(c, index, bo, rem).1 == DiskRead(DiskOf(c), index, bo, rem)
    ensures Valid(ReadFrom(c, index, bo, rem).0) && DiskOf(ReadFrom(c, index, bo, rem).0) == DiskOf(c)
    decreases rem
  {
    hide Fetch, DiskOf, Valid, SameLogical, Logical;
    if rem > 0 {
      var can := Min(PAGE_SIZE - bo, rem);
      Fetchable(c);
      ReadRound(c, index, bo, rem);
      FetchValid(c, index);
      FetchTransparent(c, index);
      DiskAt(c, index);
      SameDisk(c, Fetch(c, index));
      ReadTransparent(Fetch(c, index), index + 1, bo, rem - can);
    }
  }

  lemma DiskAt(c: Cache, b: int)
    requires 0 <= b < |c.disk|
    ensures DiskOf(c)[b] == Logical(c, b)
  {
  }

  lemma Fetchable(c: Cache)
    requires Valid(c)
    ensures c.lines != [] ==> 0 <= c.lines[|c.lines| - 1].block < |c.disk|
  {
  }

  lemma FetchPatch(c: Cache, index: int, bo: int, bytes: seq<byte>)
    requires Valid(c) && 0 <= index < |c.disk| && 0 <= bo && bo + |bytes| <= PAGE_SIZE
    ensures Valid(Fetch(c, index)) && Fetch(c, index).lines != []
    ensures Valid(Patch(Fetch(c, index), bo, bytes)) && |Patch(Fetch(c, index), bo, bytes).disk| == |c.disk|
    ensures DiskOf(Patch(Fetch(c, index), bo, bytes)) == DiskOf(c)[index := Splice(DiskOf(c)[index], bo, bytes)]
  {
    FetchValid(c, index);
    FetchTransparent(c, index);
    var d := Fetch(c, index);
    forall b | 0 <= b < |c.disk|
      ensures DiskOf(Patch(d, bo, bytes))[b] == DiskOf(c)[index := Splice(DiskOf(c)[index], bo, bytes)][b]
    {
      PatchLogical(d, bo, bytes, b);
      assert Logical(c, b) == Logical(d, b);
    }
    PatchLogical(d, bo, bytes, index);
  }

  /** A cached write changes the logical disk exactly as the same loop changes a plain disk. */
  lemma {:induction false} WriteTransparent(c: Cache, index: int, bo: int, buf: seq<byte>)
    requires Valid(c) && 0 <= bo < PAGE_SIZE && 0 <= index && index + Trips(bo, |buf|) <= |c.disk|
    ensures Valid(WriteFrom(c, index, bo, buf))
    ensures DiskOf(WriteFrom(c, index, bo, buf)) == DiskWrite(DiskOf(c), index, bo, buf)
    decreases |buf|
  {
    hide Fetch, Patch, DiskOf, Splice, Valid;
    if buf != [] {
      var can := Min(PAGE_SIZE - bo, |buf|);
      Fetchable(c);
      FetchPatch(c, index, bo, buf[..can]);
      WriteTransparent(Patch(Fetch(c, index), bo, buf[..can]), index + 1, bo, buf[can..]);
    }
  }

  // ---------------------------------------------------------------- whole runs

  datatype Request = ReadReq(off: int, lim: int) | WriteReq(off: int, buf: seq<byte>) | FlushReq

  predicate InRange(r: Request, n: int) {
    match r
    case ReadReq(off, lim) => 0 <= off && 0 <= lim && off / PAGE_SIZE + Trips(off % PAGE_SIZE, lim) <= n
    case WriteReq(off, buf) => 0 <= off && off / PAGE_SIZE + Trips(off % PAGE_SIZE, |buf|) <= n
    case FlushReq => true
  }

  ghost function CacheStep(c: Cache, r: Request): (Cache, seq<byte>)
    requires Valid(c) && InRange(r, |c.disk|)
  {
    match r
    case ReadReq(off, lim) => ReadFrom(c, off / PAGE_SIZE, off % PAGE_SIZE, lim)
    case WriteReq(off, buf) => (WriteFrom(c, off / PAGE_SIZE, off % PAGE_SIZE, buf), [])
    case FlushReq => (Flush(c), [])
  }

  function DiskStep(l: seq<Data>, r: Request): (seq<Data>, seq<byte>)
    requires InRange(r, |l|)
  {
    match r
    case ReadReq(off, lim) => (l, DiskRead(l, off / PAGE_SIZE, off % PAGE_SIZE, lim))
    case WriteReq(off, buf) => (DiskWrite(l, off / PAGE_SIZE, off % PAGE_SIZE, buf), [])
    case FlushReq => (l, [])
  }

  lemma StepTransparent(c: Cache, r: Request)
    requires Valid(c) && InRange(r, |c.disk|)
    ensures Valid(CacheStep(c, r).0)
    ensures (DiskOf(CacheStep(c, r).0), CacheStep(c, r).1) == DiskStep(DiskOf(c), r)
  {
    match r
    case ReadReq(off, lim) => ReadTransparent(c, off / PAGE_SIZE, off % PAGE_SIZE, lim);
    case WriteReq(off, buf) => WriteTransparent(c, off / PAGE_SIZE, off % PAGE_SIZE, buf);
    case FlushReq =>
      FlushWritesBack(c);
      forall b | 0 <= b < |c.disk| ensures DiskOf(Flush(c))[b] == DiskOf(c)[b] {}
      assert DiskOf(Flush(c)) == DiskOf(c);
  }

  ghost function CacheRun(c: Cache, rs: seq<Request>): (Cache, seq<seq<byte>>)
    requires Valid(c) && forall i :: 0 <= i < |rs| ==> InRange(rs[i], |c.disk|)
    decreases |rs|
  {
    if rs == [] then (c, [])
    else
      StepTransparent(c, rs[0]);
      var (d, out) := CacheStep(c, rs[0]);
      assert |d.disk| == |DiskOf(d)| == |c.disk|;
      var (e, outs) := CacheRun(d, rs[1..]);
      (e, [out] + outs)
  }

  function DiskRun(l: seq<Data>, rs: seq<Request>): (seq<Data>, seq<seq<byte>>)
    requires forall i :: 0 <= i < |rs| ==> InRange(rs[i], |l|)
    decreases |rs|
  {
    if rs == [] then (l, [])
    else
      var (m, out) := DiskStep(l, rs[0]);
      var (n, outs) := DiskRun(m, rs[1..]);
      (n, [out] + outs)
  }

  /** Over any mix of reads, writes and flushes, starting from any cache contents, users of the
      cache see what users of the plain disk see, and a final flush leaves the device equal to
      that disk. */
  lemma {:induction false} RunTransparent(c: Cache, rs: seq<Request>)
    requires Valid(c) && forall i :: 0 <= i < |rs| ==> InRange(rs[i], |c.disk|)
    ensures Valid(CacheRun(c, rs).0) && CacheRun(c, rs).1 == DiskRun(DiskOf(c), rs).1
    ensures Flush(CacheRun(c, rs).0).disk == DiskRun(DiskOf(c), rs).0
    decreases |rs|
  {
    if rs == [] {
      FlushWritesBack(c);
      assert Flush(c).disk == DiskOf(c);
    } else {
      StepTransparent(c, rs[0]);
      RunTransparent(CacheStep(c, rs[0]).0, rs[1..]);
    }
  }

  // ---------------------------------------------------------------- which blocks are cached

  function Span(index: int, n: nat): seq<int> { seq(n, i => index + i) }

  /** The blocks that a run on a disk of n blocks asks for, after its last flush; `before` were
      asked for earlier. */
  function Asked(n: int, before: seq<int>, rs: seq<Request>): seq<int>
    requires forall i :: 0 <= i < |rs| ==> InRange(rs[i], n)
    decreases |rs|
  {
    if rs == [] then before
    else
      assert InRange(rs[0], n);
      var now := match rs[0]
        case ReadReq(off, lim) => before + Span(off / PAGE_SIZE, Trips(off % PAGE_SIZE, lim))
        case WriteReq(off, buf) => before + Span(off / PAGE_SIZE, Trips(off % PAGE_SIZE, |buf|))
        case FlushReq => [];
      Asked(n, now, rs[1..])
  }

  lemma SpanStep(before: seq<int>, index: int, n: nat)
    requires n > 0
    ensures before + Span(index, n) == before + [index] + Span(index + 1, n - 1)
  {
  }

  lemma {:induction false} ReadServes(c: Cache, index: int, bo: int, rem: int, before: seq<int>)
    requires Valid(c) && 0 <= bo < PAGE_SIZE && 0 <= rem && 0 <= index && index + Trips(bo, rem) <= |c.disk| && Served(c, before)
    ensures Served(ReadFrom(c, index, bo, rem).0, before + Span(index, Trips(bo, rem)))
    ensures ReadFrom(c, index, bo, rem).0.capacity == c.capacity
    decreases rem
  {
    hide Fetch, Served, Valid;
    if rem == 0 {
      assert before + Span(index, 0) == before;
    } else {
      Fetchable(c);
      ReadRound(c, index, bo, rem);
      FetchServes(c, before, index);
      ReadServes(Fetch(c, index), index + 1, bo, rem - Min(PAGE_SIZE - bo, rem), before + [index]);
      SpanStep(before, index, Trips(bo, rem));
    }
  }

  lemma {:induction false} WriteServes(c: Cache, index: int, bo: int, buf: seq<byte>, before: seq<int>)
    requires Valid(c) && 0 <= bo < PAGE_SIZE && 0 <= index && index + Trips(bo, |buf|) <= |c.disk| && Served(c, before)
    ensures Served(WriteFrom(c, index, bo, buf), before + Span(index, Trips(bo, |buf|)))
    ensures WriteFrom(c, index, bo, buf).capacity == c.capacity
    decreases |buf|
  {
    hide Fetch, Patch, Served, Valid, DiskOf, Splice;
    if buf == [] {
      assert before + Span(index, 0) == before;
    } else {
      var can := Min(PAGE_SIZE - bo, |buf|);
      Fetchable(c);
      FetchPatch(c, index, bo, buf[..can]);
      FetchServes(c, before, index);
      PatchServes(Fetch(c, index), bo, buf[..can], before + [index]);
      WriteServes(Patch(Fetch(c, index), bo, buf[..can]), index + 1, bo, buf[can..], before + [index]);
      SpanStep(before, index, Trips(bo, |buf|));
    }
  }

  lemma {:induction false} RunServes(c: Cache, rs: seq<Request>, before: seq<int>)
    requires Valid(c) && (forall i :: 0 <= i < |rs| ==> InRange(rs[i], |c.disk|)) && Served(c, before)
    ensures Served(CacheRun(c, rs).0, Asked(|c.disk|, before, rs)) && CacheRun(c, rs).0.capacity == c.capacity
    decreases |rs|
  {
    hide Served, Valid;
    if rs != [] {
      StepTransparent(c, rs[0]);
      var d := CacheStep(c, rs[0]).0;
      assert |d.disk| == |DiskOf(d)|;
      match rs[0] {
        case ReadReq(off, lim) =>
          ReadServes(c, off / PAGE_SIZE, off % PAGE_SIZE, lim, before);
          RunServes(d, rs[1..], before + Span(off / PAGE_SIZE, Trips(off % PAGE_SIZE, lim)));
        case WriteReq(off, buf) =>
          WriteServes(c, off / PAGE_SIZE, off % PAGE_SIZE, buf, before);
          RunServes(d, rs[1..], before + Span(off / PAGE_SIZE, Trips(off % PAGE_SIZE, |buf|)));
        case FlushReq =>
          FlushServes(c);
          RunServes(d, rs[1..], []);
      }
    }
  }

  /** Over any mix of reads, writes and flushes from an empty cache, the cached blocks are
      exactly the most recently requested ones since the last flush, most recent first. */
  lemma RunIsLru(c: Cache, rs: seq<Request>) returns (r: seq<int>)
    requires Valid(c) && c.lines == [] && forall i :: 0 <= i < |rs| ==> InRange(rs[i], |c.disk|)
    ensures ByRecency(Asked(|c.disk|, [], rs), r) && Blocks(CacheRun(c, rs).0.lines) == Cut(r, c.capacity)
  {
    RunServes(c, rs, []);
    r := RequestsByRecency(Asked(|c.disk|, [], rs), c.capacity);
  }

  // ---------------------------------------------------------------- when the loops are right

  function ByteAt(l: seq<Data>, x: int): byte
    requires 0 <= x < |l| * PAGE_SIZE
  {
    assert x / PAGE_SIZE < |l|;
    l[x / PAGE_SIZE][x % PAGE_SIZE]
  }

  /** Requests that start on a page boundary or stay inside one page. */
  predicate Serves(off: int, len: int) {
    off % PAGE_SIZE == 0 || off % PAGE_SIZE + len <= PAGE_SIZE
  }

  ghost predicate Reachable(off: int, len: int, n: int) {
    0 <= off && 0 <= len && off + len <= n * PAGE_SIZE && off / PAGE_SIZE + Trips(off % PAGE_SIZE, len) <= n
  }

  ghost predicate ReadsRight(l: seq<Data>, off: int, len: int)
    requires Reachable(off, len, |l|)
  {
    forall x :: 0 <= x < len ==> DiskRead(l, off / PAGE_SIZE, off % PAGE_SIZE, len)[x] == ByteAt(l, off + x)
  }

  lemma {:induction false} AlignedRead(l: seq<Data>, index: int, len: int, x: int)
    requires 0 <= x < len && 0 <= index && index + Trips(0, len) <= |l| && (index * PAGE_SIZE + x) / PAGE_SIZE < |l|
    ensures DiskRead(l, index, 0, len)[x] == l[(index * PAGE_SIZE + x) / PAGE_SIZE][(index * PAGE_SIZE + x) % PAGE_SIZE]
    decreases len
  {
    if x >= PAGE_SIZE {
      assert (index + 1) * PAGE_SIZE + (x - PAGE_SIZE) == index * PAGE_SIZE + x;
      AlignedRead(l, index + 1, len - PAGE_SIZE, x - PAGE_SIZE);
    }
  }

  lemma ServedRead(l: seq<Data>, off: int, len: int)
    requires Reachable(off, len, |l|) && Serves(off, len)
    ensures ReadsRight(l, off, len)
  {
    var index, bo := off / PAGE_SIZE, off % PAGE_SIZE;
    forall x | 0 <= x < len ensures DiskRead(l, index, bo, len)[x] == ByteAt(l, off + x) {
      if bo == 0 {
        AlignedRead(l, index, len, x);
      } else {
        assert (off + x) / PAGE_SIZE == index && (off + x) % PAGE_SIZE == bo + x;
      }
    }
  }

  /** A disk that the loop reads wrongly: one marked byte at the start of the second page. */
  lemma MissedRead(off: int, len: int, n: int) returns (l: seq<Data>)
    requires Reachable(off, len, n) && !Serves(off, len)
    ensures |l| == n && !ReadsRight(l, off, len)
  {
    var index, bo := off / PAGE_SIZE, off % PAGE_SIZE;
    var zero: Data := seq(PAGE_SIZE, _ => 0);
    var mark: Data := zero[0 := 1];
    l := seq(n, j => if j == index + 1 then mark else zero);
    var x := PAGE_SIZE - bo;
    assert (off + x) / PAGE_SIZE == index + 1 && (off + x) % PAGE_SIZE == 0;
    assert ByteAt(l, off + x) == 1;
    assert DiskRead(l, index, bo, len)[x] == DiskRead(l, index + 1, bo, len - x)[0] == 0;
  }

  /** The read loop returns the requested bytes of every disk exactly when the request is
      page-aligned or stays inside one page. */
  lemma ReadExact(off: int, len: int, n: int)
    requires Reachable(off, len, n)
    ensures (forall l: seq<Data> :: |l| == n ==> ReadsRight(l, off, len)) <==> Serves(off, len)
  {
    hide ReadsRight, Reachable;
    if Serves(off, len) {
      forall l: seq<Data> | |l| == n ensures ReadsRight(l, off, len) { ServedRead(l, off, len); }
    } else {
      var l := MissedRead(off, len, n);
    }
  }

  ghost predicate WritesRight(l: seq<Data>, off: int, buf: seq<byte>)
    requires Reachable(off, |buf|, |l|)
  {
    var r := DiskWrite(l, off / PAGE_SIZE, off % PAGE_SIZE, buf);
    forall y :: 0 <= y < |l| * PAGE_SIZE ==>
      ByteAt(r, y) == if off <= y < off + |buf| then buf[y - off] else ByteAt(l, y)
  }

  lemma {:induction false} AlignedWrite(l: seq<Data>, index: int, buf: seq<byte>, y: int)
    requires 0 <= index && index + Trips(0, |buf|) <= |l| && 0 <= y < |l| * PAGE_SIZE
    ensures ByteAt(DiskWrite(l, index, 0, buf), y) ==
            if index * PAGE_SIZE <= y < index * PAGE_SIZE + |buf| then buf[y - index * PAGE_SIZE] else ByteAt(l, y)
    decreases |buf|
  {
    if buf != [] {
      var can := Min(PAGE_SIZE, |buf|);
      AlignedWrite(l[index := Splice(l[index], 0, buf[..can])], index + 1, buf[can..], y);
    }
  }

  /** The write loop changes exactly the requested bytes, for every disk and every buffer,
      exactly when the request is page-aligned or stays inside one page. */
  lemma WriteExact(off: int, len: int, n: int)
    requires Reachable(off, len, n)
    ensures (forall l: seq<Data>, buf: seq<byte> :: |l| == n && |buf| == len ==> WritesRight(l, off, buf)) <==> Serves(off, len)
  {
    if Serves(off, len) {
      forall l: seq<Data>, buf: seq<byte> | |l| == n && |buf| == len ensures WritesRight(l, off, buf) {
        ServedWrite(l, off, buf);
      }
    } else {
      var l: seq<Data> := seq(n, _ => seq(PAGE_SIZE, _ => 0));
      var buf: seq<byte> := seq(len, _ => 1);
      MissedWrite(l, off, buf);
      assert !WritesRight(l, off, buf);
    }
  }

  lemma MissedWrite(l: seq<Data>, off: int, buf: seq<byte>)
    requires Reachable(off, |buf|, |l|) && !Serves(off, |buf|)
    requires forall j :: 0 <= j < |l| ==> l[j][0] == 0
    requires forall i :: 0 <= i < |buf| ==> buf[i] == 1
    ensures !WritesRight(l, off, buf)
  {
    var index, bo := off / PAGE_SIZE, off % PAGE_SIZE;
    var y := (index + 1) * PAGE_SIZE;
    var first := l[index := Splice(l[index], bo, buf[..PAGE_SIZE - bo])];
    OffsetWrite(first, index + 1, bo, buf[PAGE_SIZE - bo..]);
    assert y / PAGE_SIZE == index + 1 && y % PAGE_SIZE == 0;
    assert ByteAt(DiskWrite(l, index, bo, buf), y) == 0;
    assert off <= y < off + |buf|;
  }

  lemma ServedWrite(l: seq<Data>, off: int, buf: seq<byte>)
    requires Reachable(off, |buf|, |l|) && Serves(off, |buf|)
    ensures WritesRight(l, off, buf)
  {
    var index, bo := off / PAGE_SIZE, off % PAGE_SIZE;
    forall y | 0 <= y < |l| * PAGE_SIZE
      ensures ByteAt(DiskWrite(l, index, bo, buf), y) == if off <= y < off + |buf| then buf[y - off] else ByteAt(l, y)
    {
      if bo == 0 {
        AlignedWrite(l, index, buf, y);
      } else if buf != [] {
        assert DiskWrite(l, index, bo, buf) == l[index := Splice(l[index], bo, buf)] by {
          assert buf[..|buf|] == buf && buf[|buf|..] == [];
        }
      }
    }
  }

  /** Away from offset 0 the loop never writes the first byte of a page. */
  lemma {:induction false} OffsetWrite(l: seq<Data>, index: int, bo: int, buf: seq<byte>)
    requires 0 < bo < PAGE_SIZE && 0 <= index && index + Trips(bo, |buf|) <= |l|
    ensures forall j :: 0 <= j < |l| ==> DiskWrite(l, index, bo, buf)[j][0] == l[j][0]
    decreases |buf|
  {
    if buf != [] {
      var can := Min(PAGE_SIZE - bo, |buf|);
      OffsetWrite(l[index := Splice(l[index], bo, buf[..can])], index + 1, bo, buf[can..]);
    }
  }
}
