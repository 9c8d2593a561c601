/** The block cache as a value: the cached lines from most to least recently used, and the
    device behind them. */
module LruCache {
  import opened Memory
  import opened Sequences

  datatype Line = Line(block: int, dirty: bool, data: Data)
  datatype Cache = Cache(lines: seq<Line>, disk: seq<Data>, capacity: int)

  // ---------------------------------------------------------------- the queue

  /** Position of block `b` in the queue, or the queue's length. */
  function Find(lines: seq<Line>, b: int): (i: nat)
    ensures i <= |lines|
    ensures i < |lines| ==> lines[i].block == b
    ensures forall j :: 0 <= j < i ==> lines[j].block != b
  {
    if lines == [] then 0
    else if lines[0].block == b then 0
    else 1 + Find(lines[1..], b)
  }

  predicate Cached(lines: seq<Line>, b: int) { Find(lines, b) < |lines| }

  ghost predicate Valid(c: Cache) {
    && 0 < c.capacity && |c.lines| <= c.capacity
    && (forall i, j :: 0 <= i < j < |c.lines| ==> c.lines[i].block != c.lines[j].block)
    && (forall i :: 0 <= i < |c.lines| ==> 0 <= c.lines[i].block < |c.disk|)
    && (forall i :: 0 <= i < |c.lines| && !c.lines[i].dirty ==> c.lines[i].data == c.disk[c.lines[i].block])
  }

  /** What block `b` holds as far as anyone using the cache can tell. */
  function Logical(c: Cache, b: int): Data
    requires 0 <= b < |c.disk|
  {
    if Cached(c.lines, b) then c.lines[Find(c.lines, b)].data else c.disk[b]
  }

  ghost predicate SameLogical(c: Cache, d: Cache) {
    |c.disk| == |d.disk| && forall b :: 0 <= b < |c.disk| ==> Logical(c, b) == Logical(d, b)
  }

  // ---------------------------------------------------------------- operations

  /** Write the last line back if it is dirty and drop it (block_cache_page_release, pop_tail). */
  function Evict(c: Cache): Cache
    requires c.lines != [] && 0 <= c.lines[|c.lines| - 1].block < |c.disk|
  {
    var last := c.lines[|c.lines| - 1];
    c.(lines := c.lines[..|c.lines| - 1], disk := if last.dirty then c.disk[last.block := last.data] else c.disk)
  }

  /** Bring block `b` to the head, loading it from the device if it is not cached. */
  function Fetch(c: Cache, b: int): Cache
    requires 0 <= b < |c.disk| && (c.lines != [] ==> 0 <= c.lines[|c.lines| - 1].block < |c.disk|)
  {
    var i := Find(c.lines, b);
    if i < |c.lines| then c.(lines := Moved(c.lines, i))
    else
      var e := if |c.lines| == c.capacity && c.lines != [] then Evict(c) else c;
      e.(lines := [Line(b, false, e.disk[b])] + e.lines)
  }

  /** Overwrite part of the line at the head and mark it dirty. */
  function Patch(c: Cache, at: int, bytes: seq<byte>): Cache
    requires c.lines != [] && 0 <= at && at + |bytes| <= PAGE_SIZE
  {
    var h := c.lines[0];
    c.(lines := [Line(h.block, true, Splice(h.data, at, bytes))] + c.lines[1..])
  }

  function Splice(d: Data, at: int, bytes: seq<byte>): Data
    requires 0 <= at && at + |bytes| <= PAGE_SIZE
  {
    d[..at] + bytes + d[at + |bytes|..]
  }

  /** Write back and drop every line, least recently used first. */
  function Flush(c: Cache): Cache
    requires forall i :: 0 <= i < |c.lines| ==> 0 <= c.lines[i].block < |c.disk|
    decreases |c.lines|
  {
    if c.lines == [] then c else Flush(Evict(c))
  }

  // ---------------------------------------------------------------- transparency

  lemma FindUnique(lines: seq<Line>, i: int)
    requires 0 <= i < |lines| && forall j, k :: 0 <= j < k < |lines| ==> lines[j].block != lines[k].block
    ensures Find(lines, lines[i].block) == i
  {
    var f := Find(lines, lines[i].block);
    assert f <= i;
  }

  /** Eviction writes back exactly what the device was missing. */
  lemma EvictTransparent(c: Cache)
    requires Valid(c) && c.lines != []
    ensures Valid(Evict(c)) && SameLogical(c, Evict(c)) && |Evict(c).disk| == |c.disk|
  {
    EvictValid(c);
    forall b | 0 <= b < |c.disk| ensures Logical(c, b) == Logical(Evict(c), b) { EvictLogical(c, b); }
  }

  lemma EvictValid(c: Cache)
    requires Valid(c) && c.lines != []
    ensures Valid(Evict(c)) && |Evict(c).disk| == |c.disk|
  {
  }

  lemma EvictLogical(c: Cache, b: int)
    requires Valid(c) && c.lines != [] && 0 <= b < |c.disk|
    ensures |Evict(c).disk| == |c.disk| && Logical(c, b) == Logical(Evict(c), b)
  {
    var n := |c.lines| - 1;
    FindUnique(c.lines, n);
    FindPrefix(c.lines, n, b);
    var i := Find(c.lines, b);
    assert i < n ==> Evict(c).lines[i] == c.lines[i];
  }

  lemma {:induction false} FindPrefix(lines: seq<Line>, n: int, b: int)
    requires 0 <= n <= |lines|
    ensures Find(lines[..n], b) == if Find(lines, b) < n then Find(lines, b) else n
  {
    var i := Find(lines[..n], b);
    assert forall j :: 0 <= j < i ==> lines[j].block != b;
    assert i < n ==> lines[i].block == b;
  }

  lemma FetchValid(c: Cache, b: int)
    requires Valid(c) && 0 <= b < |c.disk|
    ensures Valid(Fetch(c, b)) && |Fetch(c, b).disk| == |c.disk|
    ensures Fetch(c, b).lines != [] && Fetch(c, b).lines[0].block == b
  {
    var i := Find(c.lines, b);
    if i < |c.lines| {
      MoveValid(c, i);
    } else {
      var e := if |c.lines| == c.capacity then Evict(c) else c;
      if |c.lines| == c.capacity { EvictValid(c); }
      assert forall j :: 0 <= j < |e.lines| ==> e.lines[j] == c.lines[j];
      LoadValid(e, b);
    }
  }

  /** Where the line at position k of the moved queue came from, and where that one goes. */
  function Back(i: int, k: int): int { if k == 0 then i else if k <= i then k - 1 else k }

  function Forth(i: int, j: int): int { if j < i then j + 1 else if j == i then 0 else j }

  lemma MovedAt(s: seq<Line>, i: int, k: int)
    requires 0 <= i < |s| && 0 <= k < |s|
    ensures |Moved(s, i)| == |s| && 0 <= Back(i, k) < |s| && Moved(s, i)[k] == s[Back(i, k)]
    ensures Back(i, Forth(i, k)) == k && 0 <= Forth(i, k) < |s|
  {
  }

  lemma MoveValid(c: Cache, i: int)
    requires Valid(c) && 0 <= i < |c.lines|
    ensures Valid(c.(lines := Moved(c.lines, i)))
  {
    var n := Moved(c.lines, i);
    forall k | 0 <= k < |n| ensures 0 <= Back(i, k) < |c.lines| && n[k] == c.lines[Back(i, k)] { MovedAt(c.lines, i, k); }
    hide Moved;
  }

  lemma LoadValid(c: Cache, b: int)
    requires Valid(c) && 0 <= b < |c.disk| && |c.lines| < c.capacity && forall j :: 0 <= j < |c.lines| ==> c.lines[j].block != b
    ensures Valid(c.(lines := [Line(b, false, c.disk[b])] + c.lines))
  {
  }

  /** Fetching a block changes no logical contents and puts the block's at the head. */
  lemma FetchTransparent(c: Cache, b: int)
    requires Valid(c) && 0 <= b < |c.disk|
    ensures SameLogical(c, Fetch(c, b))
    ensures Fetch(c, b).lines != [] && Fetch(c, b).lines[0].data == Logical(c, b)
  {
    FetchValid(c, b);
    var i := Find(c.lines, b);
    if i < |c.lines| {
      MoveTransparent(c, i);
    } else {
      var e := if |c.lines| == c.capacity then Evict(c) else c;
      if |c.lines| == c.capacity { EvictTransparent(c); }
      LoadTransparent(e, b);
      assert Logical(e, b) == Logical(c, b);
    }
  }

  lemma MoveTransparent(c: Cache, i: int)
    requires Valid(c) && 0 <= i < |c.lines|
    ensures SameLogical(c, c.(lines := Moved(c.lines, i)))
  {
    hide Moved, Logical;
    forall b | 0 <= b < |c.disk| ensures Logical(c, b) == Logical(c.(lines := Moved(c.lines, i)), b) { MoveLogical(c, i, b); }
  }

  lemma MoveLogical(c: Cache, i: int, b: int)
    requires Valid(c) && 0 <= i < |c.lines| && 0 <= b < |c.disk|
    ensures Logical(c, b) == Logical(c.(lines := Moved(c.lines, i)), b)
  {
    MoveValid(c, i);
    var n := Moved(c.lines, i);
    hide Moved, Find;
    var j, f := Find(c.lines, b), Find(n, b);
    MovedAt(c.lines, i, i);
    if f < |n| {
      MovedAt(c.lines, i, f);
      FindUnique(c.lines, Back(i, f));
    }
    if j < |c.lines| {
      MovedAt(c.lines, i, j);
      MovedAt(c.lines, i, Forth(i, j));
      FindUnique(n, Forth(i, j));
    }
  }

  lemma LoadTransparent(c: Cache, b: int)
    requires 0 <= b < |c.disk| && !Cached(c.lines, b)
    ensures SameLogical(c, c.(lines := [Line(b, false, c.disk[b])] + c.lines))
  {
    var d := c.(lines := [Line(b, false, c.disk[b])] + c.lines);
    assert d.lines[1..] == c.lines;
  }

  /** A patch changes the logical contents of the block at the head, in the patched bytes only. */
  lemma PatchLogical(c: Cache, at: int, bytes: seq<byte>, b: int)
    requires Valid(c) && c.lines != [] && 0 <= at && at + |bytes| <= PAGE_SIZE && 0 <= b < |c.disk|
    ensures Valid(Patch(c, at, bytes))
    ensures Logical(Patch(c, at, bytes), b) ==
            if b == c.lines[0].block then Splice(Logical(c, b), at, bytes) else Logical(c, b)
  {
    var d := Patch(c, at, bytes);
    assert d.lines[1..] == c.lines[1..];
  }

  /** Flushing empties the queue and leaves the device equal to the logical disk. */
  lemma {:induction false} FlushWritesBack(c: Cache)
    requires Valid(c)
    ensures Valid(Flush(c)) && Flush(c).lines == [] && |Flush(c).disk| == |c.disk|
    ensures forall b :: 0 <= b < |c.disk| ==> Flush(c).disk[b] == Logical(c, b)
    decreases |c.lines|
  {
    if c.lines != [] {
      EvictTransparent(c);
      FlushWritesBack(Evict(c));
    }
  }

  // ---------------------------------------------------------------- least recently used

  function Blocks(lines: seq<Line>): seq<int> {
    seq(|lines|, i requires 0 <= i < |lines| => lines[i].block)
  }

  /** The queue's block addresses after a request for `b`. */
  function Touch(q: seq<int>, b: int, capacity: int): seq<int> {
    var i := Index(q, b);
    if i < |q| then [b] + q[..i] + q[i + 1..]
    else if |q| == capacity && q != [] then [b] + q[..|q| - 1]
    else [b] + q
  }

  lemma FetchTouches(c: Cache, b: int)
    requires Valid(c) && 0 <= b < |c.disk|
    ensures Blocks(Fetch(c, b).lines) == Touch(Blocks(c.lines), b, c.capacity)
  {
    FindIsIndex(c.lines, b);
    var i, q := Find(c.lines, b), Blocks(c.lines);
    hide Find, Index;
    if i < |c.lines| {
      BlocksMoved(c.lines, i);
    } else {
      var e := if |c.lines| == c.capacity && c.lines != [] then Evict(c) else c;
      assert Blocks(e.lines) == q[..|e.lines|];
      assert Blocks([Line(b, false, e.disk[b])] + e.lines) == [b] + Blocks(e.lines);
    }
  }

  lemma FindIsIndex(lines: seq<Line>, b: int)
    ensures Index(Blocks(lines), b) == Find(lines, b)
  {
    var k := Index(Blocks(lines), b);
    forall j | 0 <= j < k ensures lines[j].block != b { assert Blocks(lines)[j] != b; }
    assert k < |lines| ==> Blocks(lines)[k] == b;
  }

  lemma BlocksMoved(lines: seq<Line>, i: int)
    requires 0 <= i < |lines|
    ensures Blocks(Moved(lines, i)) == [lines[i].block] + Blocks(lines)[..i] + Blocks(lines)[i + 1..]
  {
  }

  /** The queue after a whole sequence of requests, starting empty. */
  function Requests(trace: seq<int>, capacity: int): seq<int> {
    if trace == [] then [] else Touch(Requests(trace[..|trace| - 1], capacity), trace[|trace| - 1], capacity)
  }

  function LastUse(trace: seq<int>, b: int): int {
    if trace == [] then -1
    else if trace[|trace| - 1] == b then |trace| - 1
    else LastUse(trace[..|trace| - 1], b)
  }

  lemma {:induction false} LastUseIs(trace: seq<int>, b: int)
    ensures -1 <= LastUse(trace, b) < |trace|
    ensures LastUse(trace, b) >= 0 ==> trace[LastUse(trace, b)] == b
    ensures forall j :: LastUse(trace, b) < j < |trace| ==> trace[j] != b
  {
    if trace != [] && trace[|trace| - 1] != b {
      var init := trace[..|trace| - 1];
      LastUseIs(init, b);
      forall j | LastUse(trace, b) < j < |trace| ensures trace[j] != b {
        if j < |init| { assert init[j] == trace[j]; }
      }
    }
  }

  /** `r` lists the distinct requests of `trace`, most recently used first. */
  ghost predicate ByRecency(trace: seq<int>, r: seq<int>) {
    && (forall b :: b in r <==> b in trace)
    && (forall i, j :: 0 <= i < j < |r| ==> LastUse(trace, r[i]) > LastUse(trace, r[j]))
  }

  lemma RecencyStep(trace: seq<int>, r: seq<int>, b: int)
    requires ByRecency(trace, r)
    ensures ByRecency(trace + [b], [b] + Without(r, b))
  {
    var t, n := trace + [b], [b] + Without(r, b);
    hide LastUse;
    forall j, k | 0 <= j < k < |r| ensures r[j] != r[k] { assert LastUse(trace, r[j]) > LastUse(trace, r[k]); }
    WithoutMembers(r, b);
    hide Without;
    forall j, k | 0 <= j < k < |n| ensures LastUse(t, n[j]) > LastUse(t, n[k]) { RecencyPair(trace, r, b, j, k); }
  }

  lemma RecencyPair(trace: seq<int>, r: seq<int>, b: int, j: int, k: int)
    requires ByRecency(trace, r) && (forall i, k :: 0 <= i < k < |r| ==> r[i] != r[k]) && 0 <= j < k <= |Without(r, b)|
    ensures var n := [b] + Without(r, b); LastUse(trace + [b], n[j]) > LastUse(trace + [b], n[k])
  {
    hide LastUse, Without;
    var n := [b] + Without(r, b);
    WithoutAt(r, b, k - 1);
    LastUseSnoc(trace, b, n[k]);
    LastUseSnoc(trace, b, n[j]);
    if j == 0 { LastUseIs(trace, n[k]); } else { WithoutAt(r, b, j - 1); }
  }

  lemma LastUseSnoc(trace: seq<int>, b: int, x: int)
    ensures LastUse(trace + [b], x) == if x == b then |trace| else LastUse(trace, x)
  {
    assert (trace + [b])[..|trace|] == trace;
  }

  lemma TouchTake(r: seq<int>, b: int, capacity: int)
    requires capacity > 0
    ensures Touch(Cut(r, capacity), b, capacity) == Cut([b] + Without(r, b), capacity)
  {
    var q := Cut(r, capacity);
    assert q == r[..|q|];
    IndexPrefix(r, |q|, b);
    var i := Index(r, b);
    if i < |q| { CutHit(r, i, b, capacity); } else { CutMiss(r, i, b, capacity); }
  }

  lemma CutHit(r: seq<int>, i: nat, b: int, capacity: int)
    requires capacity > 0 && i < |Cut(r, capacity)|
    ensures Cut([b] + (r[..i] + r[i + 1..]), capacity) == [b] + Cut(r, capacity)[..i] + Cut(r, capacity)[i + 1..]
  {
  }

  lemma CutMiss(r: seq<int>, i: nat, b: int, capacity: int)
    requires capacity > 0 && |Cut(r, capacity)| <= i <= |r|
    ensures Cut([b] + (if i < |r| then r[..i] + r[i + 1..] else r), capacity) ==
            if |Cut(r, capacity)| == capacity then [b] + Cut(r, capacity)[..capacity - 1] else [b] + Cut(r, capacity)
  {
  }

  lemma IndexPrefix(r: seq<int>, n: nat, b: int)
    requires n <= |r|
    ensures Index(r[..n], b) == if Index(r, b) < n then Index(r, b) else n
  {
    var k := Index(r[..n], b);
    assert forall j :: 0 <= j < k ==> r[j] != b;
    assert k < n ==> r[k] == b;
  }

  function Cut(s: seq<int>, n: int): seq<int>
    requires n >= 0
  {
    if |s| <= n then s else s[..n]
  }

  /** After any sequence of requests the most recently requested distinct blocks, cut at the
      capacity. */
  lemma {:induction false} RequestsByRecency(trace: seq<int>, capacity: int) returns (r: seq<int>)
    requires capacity > 0
    ensures ByRecency(trace, r) && Requests(trace, capacity) == Cut(r, capacity)
  {
    if trace == [] {
      r := [];
    } else {
      var init, b := trace[..|trace| - 1], trace[|trace| - 1];
      var r0 := RequestsByRecency(init, capacity);
      assert init + [b] == trace;
      RecencyStep(init, r0, b);
      TouchTake(r0, b, capacity);
      r := [b] + Without(r0, b);
    }
  }

  /** The queue holds what a queue that served `trace` holds. */
  ghost predicate Served(c: Cache, trace: seq<int>) { Blocks(c.lines) == Requests(trace, c.capacity) }

  lemma FetchServes(c: Cache, trace: seq<int>, b: int)
    requires Valid(c) && 0 <= b < |c.disk| && Served(c, trace)
    ensures Served(Fetch(c, b), trace + [b]) && Fetch(c, b).capacity == c.capacity
  {
    FetchTouches(c, b);
    assert (trace + [b])[..|trace|] == trace;
  }

  lemma PatchServes(c: Cache, at: int, bytes: seq<byte>, trace: seq<int>)
    requires c.lines != [] && 0 <= at && at + |bytes| <= PAGE_SIZE && Served(c, trace)
    ensures Served(Patch(c, at, bytes), trace) && Patch(c, at, bytes).capacity == c.capacity
  {
    assert Blocks(Patch(c, at, bytes).lines) == Blocks(c.lines);
  }

  lemma {:induction false} FlushServes(c: Cache)
    requires Valid(c)
    ensures Served(Flush(c), []) && Flush(c).capacity == c.capacity
    decreases |c.lines|
  {
    if c.lines != [] {
      EvictValid(c);
      FlushServes(Evict(c));
    }
  }

  /** The cache after fetching the blocks of `trace` one by one. */
  ghost function Fetches(c: Cache, trace: seq<int>): (d: Cache)
    requires Valid(c) && forall i :: 0 <= i < |trace| ==> 0 <= trace[i] < |c.disk|
    ensures Valid(d) && |d.disk| == |c.disk|
  {
    if trace == [] then c
    else
      var d := Fetches(c, trace[..|trace| - 1]);
      FetchValid(d, trace[|trace| - 1]);
      Fetch(d, trace[|trace| - 1])
  }

  lemma NothingServed(c: Cache)
    requires c.lines == []
    ensures Served(c, [])
  {
  }

  lemma {:induction false} FetchesServe(c: Cache, trace: seq<int>)
    requires Valid(c) && c.lines == [] && forall i :: 0 <= i < |trace| ==> 0 <= trace[i] < |c.disk|
    ensures Served(Fetches(c, trace), trace) && Fetches(c, trace).capacity == c.capacity
  {
    hide Fetch, Served, Valid, Requests;
    if trace == [] {
      NothingServed(c);
    } else {
      var init, b := trace[..|trace| - 1], trace[|trace| - 1];
      FetchesServe(c, init);
      FetchServes(Fetches(c, init), init, b);
      assert init + [b] == trace;
    }
  }

  /** True LRU: whatever is fetched, the cache holds exactly the most recently requested distinct
      blocks, most recent first, as many as it has room for. */
  lemma TrueLru(c: Cache, trace: seq<int>) returns (r: seq<int>)
    requires Valid(c) && c.lines == [] && forall i :: 0 <= i < |trace| ==> 0 <= trace[i] < |c.disk|
    ensures ByRecency(trace, r) && Blocks(Fetches(c, trace).lines) == Cut(r, c.capacity)
  {
    FetchesServe(c, trace);
    r := RequestsByRecency(trace, c.capacity);
  }

  /** Recency order is unique, so `TrueLru` pins the queue down completely. */
  lemma {:induction false} RecencyUnique(trace: seq<int>, r: seq<int>, s: seq<int>)
    requires ByRecency(trace, r) && ByRecency(trace, s)
    ensures r == s
  {
    RecencySuffix(trace, r, s, 0);
  }

  lemma {:induction false} RecencySuffix(trace: seq<int>, r: seq<int>, s: seq<int>, i: nat)
    requires ByRecency(trace, r) && ByRecency(trace, s) && i <= |r| && i <= |s| && r[..i] == s[..i]
    ensures r == s
    decreases |r| - i
  {
    if i < |r| && i < |s| {
      var j := Seat(trace, r, s, i, i);
      var k := Seat(trace, s, r, i, i);
      assert r[i] == s[i];
      RecencySuffix(trace, r, s, i + 1);
    } else if i < |r| {
      var j := Seat(trace, r, s, i, i);
    } else if i < |s| {
      var j := Seat(trace, s, r, i, i);
    }
  }

  /** Where a listed block sits in another listing that agrees on the first `i` places. */
  lemma Seat(trace: seq<int>, r: seq<int>, s: seq<int>, i: nat, m: nat) returns (j: nat)
    requires ByRecency(trace, r) && ByRecency(trace, s) && i <= m < |r| && i <= |s| && r[..i] == s[..i]
    ensures i <= j < |s| && s[j] == r[m]
  {
    assert r[m] in r;
    assert r[m] in s;
    j :| 0 <= j < |s| && s[j] == r[m];
    forall q | 0 <= q < i ensures r[q] == s[q] { assert r[..i][q] == s[..i][q]; }
  }
}
