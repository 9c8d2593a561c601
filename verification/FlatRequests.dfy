/** The cached device as one flat array of bytes, for the requests that the loops serve. */
module FlatRequests {
  import opened Memory
  import opened LruCache
  import opened BlockRequests

  /** All bytes of a disk, page after page. */
  ghost function Flat(l: seq<Data>): (a: seq<byte>)
    ensures |a| == |l| * PAGE_SIZE
    ensures forall x :: 0 <= x < |a| ==> a[x] == ByteAt(l, x)
  {
    seq(|l| * PAGE_SIZE, x requires 0 <= x < |l| * PAGE_SIZE => ByteAt(l, x))
  }

  ghost predicate InBounds(r: Request, size: int) {
    match r
    case ReadReq(off, lim) => 0 <= off && 0 <= lim && off + lim <= size
    case WriteReq(off, buf) => 0 <= off && off + |buf| <= size
    case FlushReq => true
  }

  /** A request that stays on the device and starts on a page boundary or stays inside one page. */
  ghost predicate Plain(r: Request, n: int) {
    InBounds(r, n * PAGE_SIZE) && (r.ReadReq? ==> Serves(r.off, r.lim)) && (r.WriteReq? ==> Serves(r.off, |r.buf|))
  }

  /** What the request does to an array, and the bytes it returns. */
  ghost function FlatStep(a: seq<byte>, r: Request): (res: (seq<byte>, seq<byte>))
    requires InBounds(r, |a|)
    ensures |res.0| == |a|
  {
    match r
    case ReadReq(off, lim) => (a, a[off..off + lim])
    case WriteReq(off, buf) => (a[..off] + buf + a[off + |buf|..], [])
    case FlushReq => (a, [])
  }

  ghost function FlatRun(a: seq<byte>, rs: seq<Request>): (seq<byte>, seq<seq<byte>>)
    requires forall i :: 0 <= i < |rs| ==> InBounds(rs[i], |a|)
    decreases |rs|
  {
    if rs == [] then (a, [])
    else
      var (b, out) := FlatStep(a, rs[0]);
      var (c, outs) := FlatRun(b, rs[1..]);
      (c, [out] + outs)
  }

  lemma PlainFits(r: Request, n: int)
    requires Plain(r, n)
    ensures InRange(r, n) && InBounds(r, n * PAGE_SIZE)
    ensures (r.ReadReq? ==> Reachable(r.off, r.lim, n)) && (r.WriteReq? ==> Reachable(r.off, |r.buf|, n))
  {
    if r.ReadReq? { ServedFits(r.off, r.lim, n); }
    if r.WriteReq? { ServedFits(r.off, |r.buf|, n); }
  }

  /** The loop makes no round past the end of the device. */
  lemma ServedFits(off: int, len: int, n: int)
    requires 0 <= off && 0 <= len && off + len <= n * PAGE_SIZE && Serves(off, len)
    ensures off / PAGE_SIZE + Trips(off % PAGE_SIZE, len) <= n
  {
    if off % PAGE_SIZE == 0 {
      AlignedTrips(len);
    } else if len > 0 {
      assert Trips(off % PAGE_SIZE, len) == 1;
    }
  }

  lemma {:induction false} AlignedTrips(len: int)
    requires 0 <= len
    ensures Trips(0, len) * PAGE_SIZE < len + PAGE_SIZE
    decreases len
  {
    if len > 0 { AlignedTrips(len - Min(PAGE_SIZE, len)); }
  }

  lemma FlatRead(l: seq<Data>, off: int, lim: int)
    requires Reachable(off, lim, |l|) && Serves(off, lim)
    ensures DiskRead(l, off / PAGE_SIZE, off % PAGE_SIZE, lim) == Flat(l)[off..off + lim]
  {
    ServedRead(l, off, lim);
  }

  lemma FlatWrite(l: seq<Data>, off: int, buf: seq<byte>)
    requires Reachable(off, |buf|, |l|) && Serves(off, |buf|)
    ensures Flat(DiskWrite(l, off / PAGE_SIZE, off % PAGE_SIZE, buf)) == Flat(l)[..off] + buf + Flat(l)[off + |buf|..]
  {
    hide ByteAt, DiskWrite, Trips;
    ServedWrite(l, off, buf);
    SplicedBytes(Flat(l), Flat(DiskWrite(l, off / PAGE_SIZE, off % PAGE_SIZE, buf)), off, buf);
  }

  lemma SplicedBytes(a: seq<byte>, b: seq<byte>, off: int, buf: seq<byte>)
    requires 0 <= off && off + |buf| <= |a| == |b|
    requires forall y :: 0 <= y < |a| ==> b[y] == if off <= y < off + |buf| then buf[y - off] else a[y]
    ensures b == a[..off] + buf + a[off + |buf|..]
  {
  }

  /** One request on a disk is that request on the array of its bytes. */
  lemma StepIsFlat(l: seq<Data>, r: Request)
    requires Plain(r, |l|)
    ensures InRange(r, |l|) && InBounds(r, |Flat(l)|)
    ensures (Flat(DiskStep(l, r).0), DiskStep(l, r).1) == FlatStep(Flat(l), r) && |DiskStep(l, r).0| == |l|
  {
    PlainFits(r, |l|);
    match r
    case ReadReq(off, lim) => FlatRead(l, off, lim);
    case WriteReq(off, buf) => FlatWrite(l, off, buf);
    case FlushReq =>
  }

  lemma {:induction false} DiskRunIsFlat(l: seq<Data>, rs: seq<Request>)
    requires forall i :: 0 <= i < |rs| ==> Plain(rs[i], |l|)
    ensures forall i :: 0 <= i < |rs| ==> InRange(rs[i], |l|) && InBounds(rs[i], |Flat(l)|)
    ensures (Flat(DiskRun(l, rs).0), DiskRun(l, rs).1) == FlatRun(Flat(l), rs)
    decreases |rs|
  {
    hide Plain, InRange, InBounds, DiskStep, FlatStep, Flat;
    AllFit(rs, l);
    if rs != [] {
      StepIsFlat(l, rs[0]);
      DiskRunIsFlat(DiskStep(l, rs[0]).0, rs[1..]);
    }
  }

  lemma AllFit(rs: seq<Request>, l: seq<Data>)
    requires forall i :: 0 <= i < |rs| ==> Plain(rs[i], |l|)
    ensures forall i :: 0 <= i < |rs| ==> InRange(rs[i], |l|) && InBounds(rs[i], |Flat(l)|)
  {
    forall i | 0 <= i < |rs| ensures InRange(rs[i], |l|) && InBounds(rs[i], |Flat(l)|) { PlainFits(rs[i], |l|); }
  }

  /** Over every run of requests that are page-aligned or stay inside one page, whatever is cached to
      begin with, the cached device is an array of bytes: reads return slices of it, writes splice it,
      and a final flush leaves the device holding it. */
  lemma RunIsFlat(c: Cache, rs: seq<Request>)
    requires Valid(c) && forall i :: 0 <= i < |rs| ==> Plain(rs[i], |c.disk|)
    ensures forall i :: 0 <= i < |rs| ==> InRange(rs[i], |c.disk|) && InBounds(rs[i], |Flat(DiskOf(c))|)
    ensures CacheRun(c, rs).1 == FlatRun(Flat(DiskOf(c)), rs).1
    ensures Valid(CacheRun(c, rs).0) && Flat(Flush(CacheRun(c, rs).0).disk) == FlatRun(Flat(DiskOf(c)), rs).0
  {
    hide Plain, InRange, InBounds, Flat, FlatRun, DiskRun, CacheRun, Flush, Valid;
    DiskRunIsFlat(DiskOf(c), rs);
    RunTransparent(c, rs);
  }
}
