/** The block cache as the kernel keeps it: a doubly linked queue of pages, a hash of chained
    index nodes, dirty bits, and the request loops on top. */
module BlockCache {
  import opened Memory
  import opened LinkedNodes
  import opened Sequences
  import L = LruCache
  import R = BlockRequests

  const BUCKETS := 32

  // ---------------------------------------------------------------- the hash index

  /** Every chain holds nodes of its own bucket, `at` finds each node by its address, and
      `table` is the map the chains implement. */
  ghost predicate Indexing(chains: seq<seq<Node>>, own: set<Node>, at: map<int, Node>, table: map<int, Node>) {
    && |chains| == BUCKETS
    && (forall b, i :: 0 <= b < BUCKETS && 0 <= i < |chains[b]| ==>
          && chains[b][i] in own && chains[b][i].block % BUCKETS == b
          && chains[b][i].block in at && at[chains[b][i].block] == chains[b][i])
    && (forall a :: a in at ==> at[a].block == a && at[a] in chains[a % BUCKETS])
    && at.Keys == table.Keys
    && (forall a :: a in at ==> at[a].index == table[a])
  }

  lemma ChainsApart(chains: seq<seq<Node>>, own: set<Node>, at: map<int, Node>, table: map<int, Node>, b: int, c: int)
    requires Indexing(chains, own, at, table) && 0 <= b < BUCKETS && 0 <= c < BUCKETS && b != c
    ensures Nodes(chains[b]) !! Nodes(chains[c])
  {
    forall n | n in chains[b] ensures n.block % BUCKETS == b { var i :| 0 <= i < |chains[b]| && chains[b][i] == n; }
    forall n | n in chains[c] ensures n.block % BUCKETS == c { var i :| 0 <= i < |chains[c]| && chains[c][i] == n; }
  }

  lemma ChainOwned(chains: seq<seq<Node>>, own: set<Node>, at: map<int, Node>, table: map<int, Node>, b: int)
    requires Indexing(chains, own, at, table) && 0 <= b < BUCKETS
    ensures Nodes(chains[b]) <= own
  {
  }

  lemma IndexingInsert(chains: seq<seq<Node>>, own: set<Node>, at: map<int, Node>, table: map<int, Node>, node: Node)
    requires Indexing(chains, own, at, table) && node.block !in table && node.index != null
    ensures var b, a := node.block % BUCKETS, node.block;
      Indexing(chains[b := chains[b] + [node]], own + {node}, at[a := node], table[a := node.index])
  {
    var b, a := node.block % BUCKETS, node.block;
    var chains' := chains[b := chains[b] + [node]];
    forall x | x in at ensures at[x] in chains'[x % BUCKETS] {
      assert at[x] in chains[x % BUCKETS];
    }
  }

  lemma IndexingRemove(chains: seq<seq<Node>>, own: set<Node>, at: map<int, Node>, table: map<int, Node>, b: int, i: int)
    requires Indexing(chains, own, at, table) && 0 <= b < BUCKETS && 0 <= i < |chains[b]|
    requires forall j, k :: 0 <= j < k < |chains[b]| ==> chains[b][j] != chains[b][k]
    ensures var node := chains[b][i];
      Indexing(chains[b := chains[b][..i] + chains[b][i + 1..]], own - {node}, at - {node.block}, table - {node.block})
  {
    var node := chains[b][i];
    var q := chains[b][..i] + chains[b][i + 1..];
    var chains' := chains[b := q];
    forall j | 0 <= j < |q| ensures q[j] == chains[b][if j < i then j else j + 1] && q[j] != node {}
    forall c, j | 0 <= c < BUCKETS && 0 <= j < |chains'[c]|
      ensures chains'[c][j] != node && chains'[c][j].block != node.block && chains'[c][j] in own && chains'[c][j].block % BUCKETS == c
      ensures chains'[c][j].block in at && at[chains'[c][j].block] == chains'[c][j]
    {
      if c == b { assert q[j] == chains[b][if j < i then j else j + 1]; }
    }
    forall x | x in at && x != node.block ensures at[x] in chains'[x % BUCKETS] {
      assert at[x] in chains[x % BUCKETS] && at[x] != node;
      if x % BUCKETS == b { Kept(chains[b], i, at[x]); }
    }
  }

  lemma Kept(q: seq<Node>, i: int, n: Node)
    requires 0 <= i < |q| && n in q && n != q[i]
    ensures n in q[..i] + q[i + 1..]
  {
    var j :| 0 <= j < |q| && q[j] == n;
    var r := q[..i] + q[i + 1..];
    assert if j < i then r[j] == n else r[j - 1] == n;
  }

  lemma DllDistinct(q: seq<Node>, h: Node?, t: Node?)
    requires Dll(q, h, t)
    ensures forall j, k :: 0 <= j < k < |q| ==> q[j] != q[k]
  {
  }

  class LruHash {
    var bucketHeads: seq<Node?>
    var bucketTails: seq<Node?>
    ghost var chains: seq<seq<Node>>
    ghost var own: set<Node>
    ghost var at: map<int, Node>      // address to chain node
    ghost var table: map<int, Node>   // address to the queue node it indexes

    ghost predicate Valid()
      reads this, own
    {
      && |bucketHeads| == BUCKETS && |bucketTails| == BUCKETS && |chains| == BUCKETS
      && (forall b :: 0 <= b < BUCKETS ==> Nodes(chains[b]) <= own)
      && Indexing(chains, own, at, table)
      && (forall b :: 0 <= b < BUCKETS ==> Dll(chains[b], bucketHeads[b], bucketTails[b]))
    }

    /** lru_hash_init. */
    constructor ()
      ensures Valid() && table == map[] && own == {}
    {
      bucketHeads, bucketTails := seq(BUCKETS, _ => null), seq(BUCKETS, _ => null);
      chains := seq(BUCKETS, _ => []);
      own, at, table := {}, map[], map[];
    }

    /** lru_hash_lookup. */
    method Lookup(address: int) returns (r: Node?, ghost i: int)
      requires Valid()
      ensures r == null <==> address !in table
      ensures r != null ==> r.block == address && r.index == table[address]
      ensures r != null ==> 0 <= i < |chains[address % BUCKETS]| && chains[address % BUCKETS][i] == r
    {
      var b := address % BUCKETS;
      r, i := bucketHeads[b], 0;
      while r != null
        invariant 0 <= i <= |chains[b]| && r == (if i < |chains[b]| then chains[b][i] else null)
        invariant forall j :: 0 <= j < i ==> chains[b][j].block != address
        decreases |chains[b]| - i
      {
        assert r in chains[b];
        if r.block == address { return; }
        r := r.next;
        i := i + 1;
      }
      assert forall n :: n in chains[b] ==> n.block != address;
    }

    /** lru_hash_insert. */
    method Insert(address: int, index: Node)
      requires Valid() && address !in table
      modifies this, own
      ensures Valid() && table == old(table)[address := index] && fresh(own - old(own))
    {
      hide Indexing, Dll;
      var b := address % BUCKETS;
      var node := new Node(address, 0, index);
      ghost var q := chains[b];
      IndexingInsert(chains, own, at, table, node);
      forall c | 0 <= c < BUCKETS && c != b ensures Nodes(q) !! Nodes(chains[c]) {
        ChainsApart(chains, own, at, table, b, c);
      }
      var h, t := AppendTail(q, node, bucketHeads[b], bucketTails[b]);
      bucketHeads, bucketTails := bucketHeads[b := h], bucketTails[b := t];
      chains, own := chains[b := q + [node]], own + {node};
      at, table := at[address := node], table[address := index];
      forall c | 0 <= c < BUCKETS ensures Nodes(chains[c]) <= own { ChainOwned(chains, own, at, table, c); }
    }

    /** lru_hash_remove. */
    method Remove(address: int) returns (ok: bool)
      requires Valid()
      modifies this, own
      ensures Valid() && ok == (address in old(table)) && table == old(table) - {address} && own <= old(own)
    {
      hide Indexing, Dll;
      var b := address % BUCKETS;
      ghost var i;
      var node;
      node, i := Lookup(address);
      if node == null { return false; }
      ghost var q := chains[b];
      DllDistinct(q, bucketHeads[b], bucketTails[b]);
      IndexingRemove(chains, own, at, table, b, i);
      forall c | 0 <= c < BUCKETS && c != b ensures Nodes(q) !! Nodes(chains[c]) {
        ChainsApart(chains, own, at, table, b, c);
      }
      var h, t := Unlink(q, i, node, bucketHeads[b], bucketTails[b]);
      bucketHeads, bucketTails := bucketHeads[b := h], bucketTails[b := t];
      chains, own := chains[b := q[..i] + q[i + 1..]], own - {node};
      at, table := at - {address}, table - {address};
      forall c | 0 <= c < BUCKETS ensures Nodes(chains[c]) <= own { ChainOwned(chains, own, at, table, c); }
      return true;
    }
  }

  // ---------------------------------------------------------------- the queue

  class LruQueue {
    var head: Node?
    var tail: Node?
    var size: int
    ghost var nodes: seq<Node>
    ghost var own: set<Node>

    ghost predicate Valid()
      reads this, own
    {
      own == Nodes(nodes) && Dll(nodes, head, tail) && size == |nodes|
    }

    constructor ()
      ensures Valid() && nodes == [] && own == {}
    {
      head, tail, size, nodes, own := null, null, 0, [], {};
    }

    /** block_cache_queue_push_node. */
    method Push(node: Node)
      requires Valid() && node !in own
      modifies this, node`prev, node`next, own`prev
      ensures Valid() && nodes == [node] + old(nodes) && own == old(own) + {node}
    {
      hide Dll;
      head, tail := PushHead(nodes, node, head, tail);
      nodes, own, size := [node] + nodes, own + {node}, size + 1;
    }

    /** block_cache_queue_erase. */
    method Erase(node: Node, ghost i: int)
      requires Valid() && 0 <= i < |nodes| && nodes[i] == node
      modifies this, own`prev, own`next
      ensures Valid() && nodes == old(nodes)[..i] + old(nodes)[i + 1..] && own == old(own) - {node}
    {
      DllDistinct(nodes, head, tail);
      hide Dll;
      head, tail := Unlink(nodes, i, node, head, tail);
      ghost var q := nodes[..i] + nodes[i + 1..];
      forall n ensures n in q <==> n in nodes && n != node {
        if n in nodes && n != node { Kept(nodes, i, n); }
      }
      nodes, own, size := q, own - {node}, size - 1;
    }

    /** The queue half of block_cache_queue_pop_tail. */
    method Pop()
      requires Valid() && nodes != []
      modifies this, own`next
      ensures Valid() && nodes == old(nodes)[..|old(nodes)| - 1] && own == old(own) - {old(nodes)[|old(nodes)| - 1]}
    {
      DllDistinct(nodes, head, tail);
      hide Dll;
      head, tail := LinkedNodes.PopTail(nodes, head, tail);
      ghost var n := |nodes| - 1;
      forall x ensures x in nodes[..n] <==> x in nodes && x != nodes[n] {
        if x in nodes && x != nodes[n] { Kept(nodes, n, x); assert nodes[..n] + nodes[n + 1..] == nodes[..n]; }
      }
      nodes, own, size := nodes[..n], own - {nodes[n]}, size - 1;
    }
  }

  // ---------------------------------------------------------------- the cache

  /** Every queued block is indexed, and the index names queue nodes only. */
  ghost predicate Tabled(queue: seq<Node>, table: map<int, Node>) {
    && (forall i :: 0 <= i < |queue| ==> queue[i].block in table && table[queue[i].block] == queue[i])
    && (forall a :: a in table ==> table[a] in queue && table[a].block == a)
  }

  /** Queued pages are distinct allocated frames; the allocator's remaining frames suffice to
      fill the cache. */
  ghost predicate Paged(queue: seq<Node>, memory: map<int, Data>, pool: seq<int>, capacity: int) {
    && (forall i :: 0 <= i < |queue| ==> queue[i].page in memory && queue[i].page !in pool)
    && (forall i, j :: 0 <= i < j < |queue| ==> queue[i].page != queue[j].page)
    && (forall i :: 0 <= i < |pool| ==> pool[i] in memory)
    && (forall i, j :: 0 <= i < j < |pool| ==> pool[i] != pool[j])
    && |pool| + |queue| >= capacity
  }

  /** `lines` is the queue with its pages' contents. */
  ghost predicate Mirrors(lines: seq<L.Line>, queue: seq<Node>, memory: map<int, Data>)
    reads Nodes(queue)`dirty
  {
    && |lines| == |queue|
    && (forall i :: 0 <= i < |queue| ==> queue[i].page in memory)
    && (forall i :: 0 <= i < |queue| ==> lines[i] == L.Line(queue[i].block, queue[i].dirty, memory[queue[i].page]))
  }

  lemma FetchHit(c: L.Cache, b: int)
    requires L.Valid(c) && 0 <= b < |c.disk| && L.Cached(c.lines, b)
    ensures c.lines != [] ==> 0 <= c.lines[|c.lines| - 1].block < |c.disk|
    ensures L.Fetch(c, b) == c.(lines := Moved(c.lines, L.Find(c.lines, b)))
  {
  }

  lemma FetchMiss(c: L.Cache, b: int)
    requires L.Valid(c) && 0 <= b < |c.disk| && !L.Cached(c.lines, b)
    ensures c.lines != [] ==> 0 <= c.lines[|c.lines| - 1].block < |c.disk|
    ensures var e := if |c.lines| == c.capacity && c.lines != [] then L.Evict(c) else c;
      |e.disk| == |c.disk| && L.Fetch(c, b) == e.(lines := [L.Line(b, false, e.disk[b])] + e.lines)
  {
  }

  lemma TabledMove(queue: seq<Node>, table: map<int, Node>, i: int)
    requires Tabled(queue, table) && 0 <= i < |queue|
    ensures Tabled(Moved(queue, i), table)
  {
    forall a | a in table ensures table[a] in Moved(queue, i) {
      if table[a] != queue[i] { Kept(queue, i, table[a]); }
    }
  }

  lemma TabledPop(queue: seq<Node>, table: map<int, Node>)
    requires Tabled(queue, table) && queue != []
    requires forall j, k :: 0 <= j < k < |queue| ==> queue[j] != queue[k]
    ensures Tabled(queue[..|queue| - 1], table - {queue[|queue| - 1].block})
    ensures queue[|queue| - 1].block in table
  {
    var n := |queue| - 1;
    var rest := queue[..n];
    forall i | 0 <= i < n ensures rest[i].block != queue[n].block { assert table[queue[i].block] == queue[i]; }
    forall a | a in table && a != queue[n].block ensures table[a] in rest {
      Kept(queue, n, table[a]);
      assert queue[..n] + queue[n + 1..] == rest;
    }
  }

  lemma TabledPush(queue: seq<Node>, table: map<int, Node>, node: Node)
    requires Tabled(queue, table) && node.block !in table
    ensures Tabled([node] + queue, table[node.block := node])
  {
  }

  lemma PagedMove(queue: seq<Node>, memory: map<int, Data>, pool: seq<int>, capacity: int, i: int)
    requires Paged(queue, memory, pool, capacity) && 0 <= i < |queue|
    ensures Paged(Moved(queue, i), memory, pool, capacity)
  {
  }

  lemma PagedPop(queue: seq<Node>, memory: map<int, Data>, pool: seq<int>, capacity: int)
    requires Paged(queue, memory, pool, capacity) && queue != []
    ensures Paged(queue[..|queue| - 1], memory, [queue[|queue| - 1].page] + pool, capacity)
  {
  }

  lemma PagedPush(queue: seq<Node>, memory: map<int, Data>, pool: seq<int>, capacity: int, node: Node)
    requires Paged(queue, memory, pool, capacity) && pool != [] && node.page == pool[0]
    ensures Paged([node] + queue, memory, pool[1..], capacity)
  {
  }

  class CachedDevice {
    const capacity: int
    const hash: LruHash
    const queue: LruQueue
    var memory: map<int, Data>
    var pool: seq<int>
    var disk: seq<Data>
    ghost var lines: seq<L.Line>

    ghost function View(): L.Cache
      reads this
    {
      L.Cache(lines, disk, capacity)
    }

    /** Queue, hash and mirror agree. */
    ghost predicate Linked()
      reads this, queue, queue.own, hash, hash.own
    {
      && hash.Valid() && queue.Valid() && queue.own !! hash.own
      && Tabled(queue.nodes, hash.table) && Mirrors(lines, queue.nodes, memory)
    }

    /** Everything but the contents of a page that is still to be loaded. */
    ghost predicate Good()
      reads this, queue, queue.own, hash, hash.own
    {
      Linked() && Paged(queue.nodes, memory, pool, capacity)
    }

    ghost predicate Valid()
      reads this, queue, queue.own, hash, hash.own
    {
      Good() && L.Valid(View())
    }

    /** block_cache_init on a device with contents `disk`; `frames` are what the page allocator
        can supply. */
    constructor (capacity: int, disk: seq<Data>, memory: map<int, Data>, frames: seq<int>)
      requires 0 < capacity <= |frames|
      requires forall i :: 0 <= i < |frames| ==> frames[i] in memory
      requires forall i, j :: 0 <= i < j < |frames| ==> frames[i] != frames[j]
      ensures Valid() && fresh(hash) && fresh(hash.own) && fresh(queue) && fresh(queue.own)
      ensures View() == L.Cache([], disk, capacity)
    {
      this.capacity, this.disk, this.memory, pool := capacity, disk, memory, frames;
      hash := new LruHash();
      queue := new LruQueue();
      lines := [];
    }

    /** block_cache_queue_pop_tail. */
    method QueuePopTail()
      requires Linked() && queue.nodes != []
      modifies this`lines, queue, queue.own`next, hash, hash.own
      ensures Linked() && hash.own <= old(hash.own) && queue.own <= old(queue.own)
      ensures queue.nodes == old(queue.nodes)[..|old(queue.nodes)| - 1]
      ensures |old(lines)| == |old(queue.nodes)| && lines == old(lines)[..|old(lines)| - 1]
    {
      hide Tabled, Mirrors, LruHash.Valid, Nodes;
      ghost var q := queue.nodes;
      LastNode(q, queue.head, queue.tail);
      MirrorsPop(lines, q, memory);
      DllDistinct(q, queue.head, queue.tail);
      TabledPop(q, hash.table);
      hide Dll;
      var ok := hash.Remove(queue.tail.block);
      assert ok;
      queue.Pop();
      lines := lines[..|lines| - 1];
    }

    /** Eviction of the least recently used block: block_cache_page_release, then pop. */
    method EvictTail()
      requires Valid() && queue.nodes != []
      modifies this, queue, queue.own`next, hash, hash.own
      ensures Valid() && View() == L.Evict(old(View())) && hash.own <= old(hash.own) && queue.own <= old(queue.own)
      ensures memory == old(memory) && |queue.nodes| == |old(queue.nodes)| - 1
    {
      hide Tabled, Paged, Mirrors, LruHash.Valid, L.Valid, Nodes;
      ghost var q := queue.nodes;
      LastNode(q, queue.head, queue.tail);
      hide Dll;
      MirrorsAt(lines, q, memory, |q| - 1);
      L.EvictTransparent(View());
      LineBlock(View(), |q| - 1);
      PagedPop(q, memory, pool, capacity);
      var last := queue.tail;
      if last.dirty { disk := disk[last.block := memory[last.page]]; }
      pool := [last.page] + pool;
      QueuePopTail();
    }

    /** A hit: the node moves to the head. */
    method MoveToHead(node: Node, ghost i: int)
      requires Linked() && 0 <= i < |queue.nodes| && queue.nodes[i] == node
      modifies this`lines, queue, queue.own`prev, queue.own`next
      ensures Linked() && queue.nodes == Moved(old(queue.nodes), i) && queue.own == old(queue.own)
      ensures i < |old(lines)| && lines == Moved(old(lines), i)
    {
      hide Tabled, Mirrors, LruHash.Valid, Nodes, Dll;
      assert node in queue.own by { InNodes(queue.nodes, i); }
      MirrorsMove(lines, queue.nodes, memory, i);
      TabledMove(queue.nodes, hash.table, i);
      queue.Erase(node, i);
      queue.Push(node);
      lines := Moved(lines, i);
    }

    /** A miss: a page is allocated for the block and queued and indexed at the head
        (block_cache_page_alloc, block_cache_queue_push_head, lru_hash_insert). */
    method PushFresh(b: int) returns (node: Node)
      requires Good() && b !in hash.table && pool != []
      modifies this`lines, this`pool, queue, queue.own`prev, hash, hash.own
      ensures Good() && fresh(node) && queue.nodes == [node] + old(queue.nodes) && queue.own == old(queue.own) + {node}
      ensures fresh(hash.own - old(hash.own))
      ensures node.block == b && node.page in memory && !node.dirty
      ensures lines == [L.Line(b, false, memory[node.page])] + old(lines)
    {
      hide Tabled, Paged, Mirrors, LruHash.Valid, Nodes, Dll;
      PoolHead(queue.nodes, memory, pool, capacity);
      node := new Node(b, pool[0], null);
      PagedPush(queue.nodes, memory, pool, capacity, node);
      TabledPush(queue.nodes, hash.table, node);
      MirrorsPush(lines, queue.nodes, memory, node);
      pool := pool[1..];
      queue.Push(node);
      lines := [L.Line(b, false, memory[node.page])] + lines;
      hash.Insert(b, node);
    }

    /** block_cache_get on block `b`.  A miss leaves the page at the head to be loaded. */
    method Get(b: int) returns (hit: bool, node: Node)
      requires Valid() && 0 <= b < |disk|
      modifies this, queue, queue.own`prev, queue.own`next, hash, hash.own
      ensures Good() && queue.nodes != [] && queue.nodes[0] == node && node.block == b && node.page in memory && lines != []
      ensures fresh(hash.own - old(hash.own)) && fresh(queue.own - old(queue.own)) && memory == old(memory)
      ensures hit ==> View() == L.Fetch(old(View()), b)
      ensures !hit ==> !lines[0].dirty && lines[0].block == b && |disk| == |old(disk)|
      ensures !hit ==> View().(lines := [L.Line(b, false, disk[b])] + lines[1..]) == L.Fetch(old(View()), b)
    {
      hide Tabled, Paged, Mirrors, LruHash.Valid, L.Valid, Nodes, Dll, L.Fetch, L.Find, L.Evict, Moved;
      ghost var c := View();
      MirrorsLength(lines, queue.nodes, memory);
      LookupLine(lines, queue.nodes, memory, hash.table, c, b);
      LastInRange(c);
      var index, _ := hash.Lookup(b);
      if index == null {
        if capacity == queue.size {
          EvictTail();
          EvictKeeps(c, b);
          MirrorsLength(lines, queue.nodes, memory);
          LookupLine(lines, queue.nodes, memory, hash.table, View(), b);
        }
        PoolHead(queue.nodes, memory, pool, capacity);
        SmallerThanCapacity(c, View());
        FetchMiss(c, b);
        node := PushFresh(b);
        return false, node;
      } else {
        node := index.index;
        ghost var i := L.Find(lines, b);
        PageInMemory(lines, queue.nodes, memory, i);
        PagedMove(queue.nodes, memory, pool, capacity, i);
        FetchHit(c, b);
        MovedHead(queue.nodes, i);
        MovedHead(lines, i);
        MoveToHead(node, i);
        return true, node;
      }
    }

    /** The fetch that blk_read and blk_write begin each round with: get the page and, on a miss,
        read it from the device. */
    method FetchPage(b: int) returns (node: Node)
      requires Valid() && 0 <= b < |disk|
      modifies this, queue, queue.own`prev, queue.own`next, hash, hash.own
      ensures Valid() && View() == L.Fetch(old(View()), b) && |disk| == |old(disk)|
      ensures queue.nodes != [] && queue.nodes[0] == node && node.block == b && node.page in memory
      ensures lines != [] && lines[0].data == memory[node.page]
      ensures fresh(hash.own - old(hash.own)) && fresh(queue.own - old(queue.own))
    {
      hide Tabled, Paged, Mirrors, LruHash.Valid, L.Valid, Nodes, Dll, L.Fetch;
      ghost var c := View();
      L.FetchValid(c, b);
      var hit;
      hit, node := Get(b);
      MirrorsAt(lines, queue.nodes, memory, 0);
      if !hit {
        SetPage(node, disk[b]);
      }
    }

    /** Overwrite the page of the node at the head (memcpy into the page). */
    method SetPage(node: Node, d: Data)
      requires Good() && queue.nodes != [] && queue.nodes[0] == node && node.page in memory && lines != []
      modifies this`memory, this`lines
      ensures Good() && node.page in memory && memory[node.page] == d && lines == [L.Line(node.block, node.dirty, d)] + old(lines)[1..]
    {
      hide Tabled, LruHash.Valid, Nodes, Dll;
      memory := memory[node.page := d];
      lines := [L.Line(node.block, node.dirty, d)] + lines[1..];
    }

    /** block_cache_mark_dirty for the block at the head. */
    method MarkDirty(b: int)
      requires Good() && queue.nodes != [] && queue.nodes[0].block == b && lines != []
      modifies this`lines, queue.own`dirty
      ensures Good() && lines == [old(lines)[0].(dirty := true)] + old(lines)[1..]
    {
      hide Paged, LruHash.Valid, Dll;
      var index, _ := hash.Lookup(b);
      assert index != null && index.index == queue.nodes[0];
      DistinctQueue();
      var node := index.index;
      node.dirty := true;
      lines := [lines[0].(dirty := true)] + lines[1..];
    }

    lemma DistinctQueue()
      requires queue.Valid()
      ensures forall j, k :: 0 <= j < k < |queue.nodes| ==> queue.nodes[j] != queue.nodes[k]
    {
    }

    /** blk_read through the cache, in bytes. */
    method Read(off: int, lim: int) returns (buf: seq<byte>)
      requires Valid() && 0 <= off && 0 <= lim && off / PAGE_SIZE + R.Trips(off % PAGE_SIZE, lim) <= |disk|
      modifies this, queue, queue.own`prev, queue.own`next, hash, hash.own
      ensures Valid() && (View(), buf) == R.ReadFrom(old(View()), off / PAGE_SIZE, off % PAGE_SIZE, lim)
      ensures fresh(hash.own - old(hash.own)) && fresh(queue.own - old(queue.own))
    {
      hide Good, L.Valid, L.Fetch, R.ReadFrom, R.Trips;
      var rem, index := lim, off / PAGE_SIZE;
      ghost var bo := off % PAGE_SIZE;
      buf := [];
      ghost var all := R.ReadFrom(View(), index, bo, lim);
      while rem != 0
        invariant 0 <= rem && 0 <= index && Valid() && index + R.Trips(bo, rem) <= |disk|
        invariant fresh(hash.own - old(hash.own)) && fresh(queue.own - old(queue.own))
        invariant R.ReadFrom(View(), index, bo, rem).0 == all.0
        invariant buf + R.ReadFrom(View(), index, bo, rem).1 == all.1
        decreases rem
      {
        var blkOff := off % PAGE_SIZE;
        var can := R.Min(PAGE_SIZE - blkOff, rem);
        R.ReadRound(View(), index, bo, rem);
        var node := FetchPage(index);
        buf := buf + memory[node.page][blkOff..blkOff + can];
        rem := rem - can;
        index := index + 1;
      }
      ReadNothing(View(), index, bo);
      assert buf + [] == buf;
    }

    /** blk_write through the cache, in bytes. */
    method Write(off: int, buf: seq<byte>)
      requires Valid() && 0 <= off && off / PAGE_SIZE + R.Trips(off % PAGE_SIZE, |buf|) <= |disk|
      modifies this, queue, queue.own, hash, hash.own
      ensures Valid() && View() == R.WriteFrom(old(View()), off / PAGE_SIZE, off % PAGE_SIZE, buf)
      ensures fresh(hash.own - old(hash.own)) && fresh(queue.own - old(queue.own))
    {
      hide Good, L.Valid, L.Fetch;
      var rem, index, rest := |buf|, off / PAGE_SIZE, buf;
      ghost var bo := off % PAGE_SIZE;
      ghost var all := R.WriteFrom(View(), index, bo, buf);
      while rem != 0
        invariant 0 <= rem == |rest| && 0 <= index && Valid() && index + R.Trips(bo, rem) <= |disk|
        invariant fresh(hash.own - old(hash.own)) && fresh(queue.own - old(queue.own))
        invariant R.WriteFrom(View(), index, bo, rest) == all
        decreases rem
      {
        var blkOff := off % PAGE_SIZE;
        var can := R.Min(PAGE_SIZE - blkOff, rem);
        WriteRound(index, blkOff, rest[..can]);
        rem := rem - can;
        rest := rest[can..];
        index := index + 1;
      }
    }

    /** One round of blk_write's loop. */
    method WriteRound(index: int, blkOff: int, bytes: seq<byte>)
      requires Valid() && 0 <= index < |disk| && 0 <= blkOff && blkOff + |bytes| <= PAGE_SIZE
      modifies this, queue, queue.own, hash, hash.own
      ensures Valid() && |disk| == |old(disk)| && L.Fetch(old(View()), index).lines != []
      ensures View() == L.Patch(L.Fetch(old(View()), index), blkOff, bytes)
      ensures fresh(hash.own - old(hash.own)) && fresh(queue.own - old(queue.own))
    {
      hide Tabled, Paged, Mirrors, LruHash.Valid, L.Valid, Nodes, Dll, L.Fetch;
      R.FetchPatch(View(), index, blkOff, bytes);
      var node := FetchPage(index);
      ghost var c := View();
      MirrorsAt(lines, queue.nodes, memory, 0);
      SetPage(node, L.Splice(memory[node.page], blkOff, bytes));
      assert lines[1..] == c.lines[1..];
      MarkDirty(index);
      assert lines == L.Patch(c, blkOff, bytes).lines;
    }

    /** block_cache_flush: afterwards the queue that block_cache_release asserts empty is empty. */
    method Flush()
      requires Valid()
      modifies this, queue, queue.own`next, hash, hash.own
      ensures Valid() && View() == L.Flush(old(View())) && queue.head == null && queue.tail == null && queue.size == 0
    {
      hide Tabled, Paged, Mirrors, LruHash.Valid, L.Valid, Nodes;
      ghost var s := View();
      BlocksInRange(s);
      while queue.tail != null
        invariant Valid() && queue.own <= old(queue.own) && hash.own <= old(hash.own)
        invariant BlocksOk(s) && BlocksOk(View()) && L.Flush(View()) == L.Flush(s)
        decreases |queue.nodes|
      {
        MirrorsLength(lines, queue.nodes, memory);
        ghost var c := View();
        assert L.Flush(c) == L.Flush(L.Evict(c));
        EvictTail();
        BlocksInRange(View());
      }
      MirrorsLength(lines, queue.nodes, memory);
    }
  }

  ghost predicate BlocksOk(c: L.Cache) {
    forall i :: 0 <= i < |c.lines| ==> 0 <= c.lines[i].block < |c.disk|
  }

  lemma BlocksInRange(c: L.Cache)
    requires L.Valid(c)
    ensures BlocksOk(c)
  {
  }

  lemma MirrorsLength(lines: seq<L.Line>, queue: seq<Node>, memory: map<int, Data>)
    requires Mirrors(lines, queue, memory)
    ensures |lines| == |queue|
  {
  }

  lemma MirrorsAt(lines: seq<L.Line>, queue: seq<Node>, memory: map<int, Data>, i: int)
    requires Mirrors(lines, queue, memory) && 0 <= i < |queue|
    ensures |lines| == |queue| && queue[i].page in memory
    ensures lines[i] == L.Line(queue[i].block, queue[i].dirty, memory[queue[i].page])
  {
  }

  lemma InNodes(q: seq<Node>, i: int)
    requires 0 <= i < |q|
    ensures q[i] in Nodes(q)
  {
  }

  lemma PageInMemory(lines: seq<L.Line>, queue: seq<Node>, memory: map<int, Data>, i: int)
    requires Mirrors(lines, queue, memory) && 0 <= i < |queue|
    ensures queue[i].page in memory && i < |lines| && lines[i].block == queue[i].block
  {
  }

  /** A block is indexed exactly when it is cached, and the index names its queue node. */
  lemma LookupLine(lines: seq<L.Line>, queue: seq<Node>, memory: map<int, Data>, table: map<int, Node>, c: L.Cache, b: int)
    requires Mirrors(lines, queue, memory) && Tabled(queue, table) && c.lines == lines && |lines| == |queue|
    ensures b in table <==> L.Cached(lines, b)
    ensures b in table ==> queue[L.Find(lines, b)] == table[b]
  {
    var i := L.Find(lines, b);
    if i < |lines| { assert queue[i].block == b; }
    if b in table {
      var j :| 0 <= j < |queue| && queue[j] == table[b];
      assert lines[j].block == b;
    }
  }

  /** Evicting the tail keeps the cache valid and does not bring block `b` back. */
  lemma EvictKeeps(c: L.Cache, b: int)
    requires L.Valid(c) && c.lines != [] && !L.Cached(c.lines, b)
    ensures L.Valid(L.Evict(c)) && !L.Cached(L.Evict(c).lines, b)
  {
    L.EvictTransparent(c);
    L.FindPrefix(c.lines, |c.lines| - 1, b);
  }

  lemma ReadNothing(c: L.Cache, index: int, bo: int)
    requires L.Valid(c) && 0 <= bo < PAGE_SIZE && 0 <= index && index + R.Trips(bo, 0) <= |c.disk|
    ensures R.ReadFrom(c, index, bo, 0) == (c, [])
  {
  }

  lemma LastInRange(c: L.Cache)
    requires L.Valid(c)
    ensures c.capacity > 0
    ensures c.lines != [] ==> 0 <= c.lines[|c.lines| - 1].block < |c.disk|
  {
  }

  lemma SmallerThanCapacity(c: L.Cache, d: L.Cache)
    requires L.Valid(c) && (if |c.lines| == c.capacity then |d.lines| == |c.lines| - 1 else d.lines == c.lines)
    ensures |d.lines| < c.capacity && c.capacity > 0
  {
  }

  lemma MirrorsMove(lines: seq<L.Line>, queue: seq<Node>, memory: map<int, Data>, i: int)
    requires Mirrors(lines, queue, memory) && 0 <= i < |queue|
    ensures |lines| == |queue| && Mirrors(Moved(lines, i), Moved(queue, i), memory)
  {
  }

  lemma MirrorsPush(lines: seq<L.Line>, queue: seq<Node>, memory: map<int, Data>, node: Node)
    requires Mirrors(lines, queue, memory) && node.page in memory && !node.dirty
    ensures Mirrors([L.Line(node.block, false, memory[node.page])] + lines, [node] + queue, memory)
  {
  }

  lemma PoolHead(queue: seq<Node>, memory: map<int, Data>, pool: seq<int>, capacity: int)
    requires Paged(queue, memory, pool, capacity)
    ensures pool != [] ==> pool[0] in memory
    ensures |queue| < capacity ==> pool != []
  {
  }

  lemma MirrorsPop(lines: seq<L.Line>, queue: seq<Node>, memory: map<int, Data>)
    requires Mirrors(lines, queue, memory) && queue != []
    ensures |lines| == |queue| && Mirrors(lines[..|queue| - 1], queue[..|queue| - 1], memory)
  {
  }

  lemma LastNode(queue: seq<Node>, head: Node?, tail: Node?)
    requires Dll(queue, head, tail) && queue != []
    ensures tail == queue[|queue| - 1] && head == queue[0]
  {
  }

  lemma LineBlock(c: L.Cache, i: int)
    requires L.Valid(c) && 0 <= i < |c.lines|
    ensures 0 <= c.lines[i].block < |c.disk| && c.capacity > 0
  {
  }
}
