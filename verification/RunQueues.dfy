/** The run queues: one circular doubly linked list of threads per processor. */
module RunQueues {
  import opened Sequences

  const NULL := -1

  /** The scheduler's fields of struct thread; `cpu` is -1 while the thread is not queued. */
  datatype Thread = Thread(prev: int, next: int, cpu: int)

  type Threads = map<int, Thread>

  function Succ(q: seq<int>, i: int): int
    requires 0 <= i < |q|
  {
    if i + 1 < |q| then q[i + 1] else q[0]
  }

  function Pred(q: seq<int>, i: int): int
    requires 0 <= i < |q|
  {
    if i > 0 then q[i - 1] else q[|q| - 1]
  }

  ghost predicate LinkedAt(m: Threads, q: seq<int>, i: int)
    requires 0 <= i < |q|
  {
    q[i] in m && m[q[i]].next == Succ(q, i) && m[q[i]].prev == Pred(q, i)
  }

  /** The links of these threads close a circle in this order. */
  ghost predicate Circle(m: Threads, q: seq<int>) {
    Distinct(q) && forall i :: 0 <= i < |q| ==> LinkedAt(m, q, i)
  }

  function Rotate(q: seq<int>): seq<int> { if q == [] then [] else q[1..] + [q[0]] }

  /** A circle has no beginning. */
  lemma CircleRotate(m: Threads, q: seq<int>)
    requires Circle(m, q)
    ensures Circle(m, Rotate(q))
  {
    var r := Rotate(q);
    forall i | 0 <= i < |r| ensures LinkedAt(m, r, i) {
      assert LinkedAt(m, q, if i + 1 < |q| then i + 1 else 0);
    }
  }

  /** sched_queue_to on a queue with threads: between the tail and the head. */
  function Linked(m: Threads, t: int, head: int, cpu: int): Threads
    requires t in m && head in m && m[head].prev in m
  {
    var tail := m[head].prev;
    var m1 := m[tail := m[tail].(next := t)];
    var m2 := m1[t := m1[t].(prev := tail, cpu := cpu)];
    var m3 := m2[head := m2[head].(prev := t)];
    m3[t := m3[t].(next := head)]
  }

  lemma CircleInsert(m: Threads, q: seq<int>, h: int, t: int, cpu: int)
    requires Circle(m, q) && 0 <= h < |q| && t in m && t !in q
    ensures q[h] in m && m[q[h]].prev in m && m[q[h]].prev in q
    ensures Circle(Linked(m, t, q[h], cpu), q[..h] + [t] + q[h..])
  {
    assert LinkedAt(m, q, h);
    var k := if h > 0 then h - 1 else |q| - 1;
    assert LinkedAt(m, q, k);
    var m', r := Linked(m, t, q[h], cpu), q[..h] + [t] + q[h..];
    forall i | 0 <= i < |r| ensures LinkedAt(m', r, i) {
      if i < h { assert LinkedAt(m, q, i); } else if i > h { assert LinkedAt(m, q, i - 1); }
    }
  }

  /** sched_unqueue of one thread among several. */
  function Unlinked(m: Threads, t: int): Threads
    requires t in m && m[t].next in m && m[t].prev in m
  {
    var next, prev := m[t].next, m[t].prev;
    var m1 := m[next := m[next].(prev := prev)];
    var m2 := m1[prev := m1[prev].(next := next)];
    m2[t := Thread(NULL, NULL, NULL)]
  }

  lemma CircleRemove(m: Threads, q: seq<int>, k: int)
    requires Circle(m, q) && 0 <= k < |q| && |q| > 1
    ensures q[k] in m && m[q[k]].next in m && m[q[k]].prev in m && m[q[k]].next in q && m[q[k]].prev in q && m[q[k]].next != q[k]
    ensures Circle(Unlinked(m, q[k]), q[..k] + q[k + 1..])
  {
    assert LinkedAt(m, q, k);
    assert LinkedAt(m, q, if k > 0 then k - 1 else |q| - 1) && LinkedAt(m, q, if k + 1 < |q| then k + 1 else 0);
    var m', r := Unlinked(m, q[k]), q[..k] + q[k + 1..];
    forall i | 0 <= i < |r| ensures LinkedAt(m', r, i) { RemovedAt(m, q, k, i); }
  }

  lemma RemovedAt(m: Threads, q: seq<int>, k: int, i: int)
    requires Circle(m, q) && 0 <= k < |q| && |q| > 1 && 0 <= i < |q| - 1
    requires q[k] in m && m[q[k]].next in m && m[q[k]].prev in m
    ensures LinkedAt(Unlinked(m, q[k]), q[..k] + q[k + 1..], i)
  {
    var r, j := q[..k] + q[k + 1..], if i < k then i else i + 1;
    assert LinkedAt(m, q, k) && LinkedAt(m, q, j);
    assert r[i] == q[j] != q[k];
    assert m[q[k]].prev == q[j] <==> (j == k - 1 || (k == 0 && j == |q| - 1));
    assert m[q[k]].next == q[j] <==> (j == k + 1 || (k == |q| - 1 && j == 0));
  }

  /** Changes to other threads leave a circle alone. */
  lemma CircleSame(m: Threads, m': Threads, q: seq<int>)
    requires Circle(m, q) && forall t :: t in q ==> t in m && t in m' && m'[t].next == m[t].next && m'[t].prev == m[t].prev
    ensures Circle(m', q)
  {
    forall i | 0 <= i < |q| ensures LinkedAt(m', q, i) { assert LinkedAt(m, q, i) && q[i] in q; }
  }

  // ---------------------------------------------------------------- queues

  /** The queue of one processor, listed from the thread that runs next; the thread that runs now,
      if it is not the idle one, comes last. */
  ghost predicate QueueOk(m: Threads, q: seq<int>, head: int, size: int, cur: int, cpu: int) {
    && Circle(m, q) && size == |q|
    && (head == NULL <==> q == []) && (q != [] ==> head in q)
    && (if cur == NULL then q != [] ==> q[0] == head else q != [] && q[|q| - 1] == cur)
    && (forall t :: t in q ==> t in m && t != NULL && m[t].cpu == cpu)
  }

  /** A thread's links are null exactly when it is on no queue. */
  ghost predicate Homed(m: Threads, rings: seq<seq<int>>, t: int)
    requires t in m
  {
    && t != NULL && (m[t].next == NULL <==> m[t].prev == NULL) && (m[t].next == NULL <==> m[t].cpu == NULL)
    && (m[t].next != NULL ==> 0 <= m[t].cpu < |rings| && t in rings[m[t].cpu])
  }

  function IndexOf(q: seq<int>, t: int): (i: int)
    requires t in q
    ensures 0 <= i < |q| && q[i] == t
    decreases |q|
  {
    if q[0] == t then 0 else 1 + IndexOf(q[1..], t)
  }

  function Minus(q: seq<int>, t: int): seq<int>
    requires t in q
  {
    q[..IndexOf(q, t)] + q[IndexOf(q, t) + 1..]
  }

  /** The order after a thread is queued: just before the head, which is last when the processor idles. */
  function Entered(q: seq<int>, head: int, cur: int, t: int): seq<int> {
    if cur == NULL || head !in q then q + [t] else q[..IndexOf(q, head)] + [t] + q[IndexOf(q, head)..]
  }

  /** The order after a thread leaves; if it was running, the next one runs. */
  function Left(q: seq<int>, cur: int, t: int): seq<int>
    requires t in q
  {
    if t == cur then Rotate(Minus(q, t)) else Minus(q, t)
  }

  /** The thread after t on the circle, if there is another. */
  function Following(q: seq<int>, t: int): int
    requires t in q
  {
    if |q| == 1 then NULL else Succ(q, IndexOf(q, t))
  }

  lemma FollowingIs(m: Threads, q: seq<int>, head: int, size: int, cur: int, cpu: int, t: int)
    requires QueueOk(m, q, head, size, cur, cpu) && t in q
    ensures t in m && (if |q| == 1 then m[t].next == t && (head == t || head == NULL) else m[t].next == Following(q, t) != t)
  {
    var i := IndexOf(q, t);
    assert LinkedAt(m, q, i);
    if |q| == 1 { assert q == [t]; }
  }

  function Last(q: seq<int>): int { if q == [] then NULL else q[|q| - 1] }

  class Scheduler {
    var threads: Threads
    var heads: seq<int>
    var sizes: seq<int>
    var current: seq<int>
    ghost var rings: seq<seq<int>>

    ghost predicate Shaped()
      reads this
    {
      |heads| == |sizes| == |current| == |rings|
    }

    ghost predicate Valid()
      reads this
    {
      && Shaped()
      && (forall c :: 0 <= c < |rings| ==> QueueOk(threads, rings[c], heads[c], sizes[c], current[c], c))
      && (forall t :: t in threads ==> Homed(threads, rings, t))
    }

    /** Empty queues and idle processors. */
    constructor (ncpus: nat, ids: set<int>)
      requires NULL !in ids
      ensures Valid() && threads.Keys == ids && |rings| == ncpus && forall c :: 0 <= c < ncpus ==> rings[c] == [] && current[c] == NULL
    {
      threads := map t | t in ids :: Thread(NULL, NULL, NULL);
      heads, sizes, current := seq(ncpus, _ => NULL), seq(ncpus, _ => 0), seq(ncpus, _ => NULL);
      rings := seq(ncpus, _ => []);
    }

    /** sched_queue_to: does nothing to a thread that is queued already. */
    method QueueTo(t: int, cpu: int)
      requires Valid() && t in threads && 0 <= cpu < |rings|
      modifies this
      ensures Valid() && current == old(current) && threads.Keys == old(threads.Keys)
      ensures old(threads)[t].next != NULL ==> rings == old(rings) && heads == old(heads)
      ensures old(threads)[t].next == NULL ==> heads == old(heads)[cpu := if old(heads)[cpu] == NULL then t else old(heads)[cpu]]
      ensures old(threads)[t].next == NULL ==> rings == old(rings)[cpu := Entered(old(rings)[cpu], old(heads)[cpu], current[cpu], t)]
    {
      hide QueueOk, Homed;
      HomedAt(threads, rings, t);
      if threads[t].prev != NULL || threads[t].next != NULL { return; }
      ghost var q := rings[cpu];
      Unqueued(threads, rings, heads, sizes, current, t);
      EnterOk(threads, q, heads[cpu], sizes[cpu], current[cpu], cpu, t);
      var m, head := threads, heads[cpu];
      ghost var r := Entered(q, heads[cpu], current[cpu], t);
      if heads[cpu] != NULL {
        threads := Linked(threads, t, head, cpu);
      } else {
        threads := threads[t := Thread(t, t, cpu)];
        head := t;
      }
      assert threads == EnterMem(m, heads[cpu], cpu, t);
      ghost var was, heads0, sizes0 := rings, heads, sizes;
      heads, sizes, rings := heads[cpu := head], sizes[cpu := sizes[cpu] + 1], rings[cpu := r];
      Installed(m, threads, was, heads0, sizes0, current, cpu, t, rings, heads, sizes, current);
    }

    /** sched_unqueue of a queued thread: the next thread of its queue runs if it was running. */
    method Unqueue(t: int)
      requires Valid() && t in threads && threads[t].next != NULL
      modifies this
      ensures Valid() && threads.Keys == old(threads.Keys) && threads[t].next == NULL
      ensures var c := old(threads)[t].cpu;
        && 0 <= c < |rings| == |old(rings)| && t in old(rings)[c]
        && rings == old(rings)[c := Left(old(rings)[c], old(current)[c], t)]
        && current == old(current)[c := if old(current)[c] == t then Last(rings[c]) else old(current)[c]]
        && heads == old(heads)[c := if old(heads)[c] != t then old(heads)[c] else Following(old(rings)[c], t)]
    {
      hide QueueOk, Homed;
      HomedAt(threads, rings, t);
      var cpu := threads[t].cpu;
      var prev, next := threads[t].prev, threads[t].next;
      ghost var q := rings[cpu];
      LeaveOk(threads, q, heads[cpu], sizes[cpu], current[cpu], cpu, t);
      FollowingIs(threads, q, heads[cpu], sizes[cpu], current[cpu], cpu, t);
      assert sizes[cpu] > 0;
      var m, head, cur := threads, heads[cpu], current[cpu];
      if next == t {
        threads := threads[t := Thread(NULL, NULL, NULL)];
        head, cur := NULL, NULL;
      } else {
        if t == head { head := next; }
        threads := Unlinked(threads, t);
        if t == cur { cur := next; }
      }
      ghost var r := Left(q, current[cpu], t);
      forall c | 0 <= c < |rings| && c != cpu ensures t !in rings[c] { OneQueue(m, rings, heads, sizes, current, cpu, c, t); }
      ghost var was, heads0, sizes0, current0 := rings, heads, sizes, current;
      heads, sizes, current, rings := heads[cpu := head], sizes[cpu := sizes[cpu] - 1], current[cpu := cur], rings[cpu := r];
      Installed(m, threads, was, heads0, sizes0, current0, cpu, t, rings, heads, sizes, current);
    }

    /** yield: the next thread of the circle, or the head when the processor idles. */
    method Yield(cpu: int) returns (to: int)
      requires Valid() && 0 <= cpu < |rings|
      modifies this
      ensures Valid() && threads == old(threads) && |old(current)| == |old(rings)|
      ensures rings == old(rings)[cpu := Rotate(old(rings)[cpu])] && heads == old(heads)
      ensures current == old(current)[cpu := Last(rings[cpu])] && to == current[cpu]
    {
      hide QueueOk, Homed;
      var from := current[cpu];
      ghost var q := rings[cpu];
      YieldOk(threads, q, heads[cpu], sizes[cpu], current[cpu], cpu);
      if from != NULL && threads[from].next != NULL {
        to := threads[from].next;
      } else if heads[cpu] != NULL {
        to := heads[cpu];
      } else {
        to := NULL;
      }
      RotatedHomes(threads, rings, cpu);
      current, rings := current[cpu := to], rings[cpu := Rotate(q)];
    }
  }

  lemma HomedAt(m: Threads, rings: seq<seq<int>>, t: int)
    requires t in m && Homed(m, rings, t)
    ensures t != NULL && (m[t].next == NULL <==> m[t].prev == NULL) && (m[t].next == NULL <==> m[t].cpu == NULL)
    ensures m[t].next != NULL ==> 0 <= m[t].cpu < |rings| && t in rings[m[t].cpu]
  {
  }

  lemma RotatedHomes(m: Threads, rings: seq<seq<int>>, cpu: int)
    requires 0 <= cpu < |rings| && forall x :: x in m ==> Homed(m, rings, x)
    ensures forall x :: x in m ==> Homed(m, rings[cpu := Rotate(rings[cpu])], x)
  {
    var q := rings[cpu];
    assert forall x :: x in q <==> x in Rotate(q) by { RotateItems(q); }
  }

  lemma RotateItems(q: seq<int>)
    ensures forall x :: x in q <==> x in Rotate(q)
  {
    if q != [] { assert q == [q[0]] + q[1..]; }
  }

  lemma YieldOk(m: Threads, q: seq<int>, head: int, size: int, cur: int, cpu: int)
    requires QueueOk(m, q, head, size, cur, cpu)
    ensures cur != NULL ==> q != [] && cur in m && m[cur].next == q[0] != NULL
    ensures cur == NULL && head != NULL ==> q != [] && q[0] == head
    ensures (head == NULL <==> q == []) && Last(Rotate(q)) == if q == [] then NULL else q[0]
    ensures QueueOk(m, Rotate(q), head, size, Last(Rotate(q)), cpu)
  {
    CircleRotate(m, q);
    RotateItems(q);
    if q != [] { assert LinkedAt(m, q, |q| - 1) && q[0] in q; }
  }

  ghost function EnterMem(m: Threads, head: int, cpu: int, t: int): Threads
    requires t in m && (head != NULL ==> head in m && m[head].prev in m)
  {
    if head == NULL then m[t := Thread(t, t, cpu)] else Linked(m, t, head, cpu)
  }

  lemma EnterOk(m: Threads, q: seq<int>, head: int, size: int, cur: int, cpu: int, t: int)
    requires QueueOk(m, q, head, size, cur, cpu) && t in m && t !in q && t != NULL
    ensures head != NULL ==> head in m && m[head].prev in m
    ensures QueueOk(EnterMem(m, head, cpu, t), Entered(q, head, cur, t), if head == NULL then t else head, size + 1, cur, cpu)
    ensures EnterMem(m, head, cpu, t).Keys == m.Keys
    ensures forall x :: x in m && x !in q && x != t ==> EnterMem(m, head, cpu, t)[x] == m[x]
    ensures forall x :: x in Entered(q, head, cur, t) <==> x in q || x == t
  {
    hide Circle;
    if head == NULL {
      assert q == [] && Entered(q, head, cur, t) == [t];
      CircleOne(m, t, cpu);
    } else {
      EnterCircle(m, q, head, cur, cpu, t);
    }
  }

  lemma EnterCircle(m: Threads, q: seq<int>, head: int, cur: int, cpu: int, t: int)
    requires Circle(m, q) && head in q && (cur == NULL ==> q[0] == head) && t in m && t !in q
    ensures head in m && m[head].prev in m && m[head].prev in q
    ensures Circle(Linked(m, t, head, cpu), Entered(q, head, cur, t)) && |Entered(q, head, cur, t)| == |q| + 1
    ensures forall x :: x in Entered(q, head, cur, t) <==> x in q || x == t
    ensures if cur == NULL then Entered(q, head, cur, t)[0] == head else Entered(q, head, cur, t)[|q|] == q[|q| - 1]
  {
    hide Circle, Linked;
    var h := IndexOf(q, head);
    CircleInsert(m, q, h, t, cpu);
    InsertItems(q, h, t);
    if cur == NULL {
      HeadFirst(q, head);
      var u := q[..h] + [t] + q[h..];
      assert u == [t] + q && Rotate(u) == q + [t];
      CircleRotate(Linked(m, t, head, cpu), u);
    }
  }

  lemma HeadFirst(q: seq<int>, head: int)
    requires q != [] && q[0] == head
    ensures IndexOf(q, head) == 0
  {
  }

  lemma InsertItems(q: seq<int>, h: int, t: int)
    requires 0 <= h <= |q|
    ensures forall x :: x in q[..h] + [t] + q[h..] <==> x in q || x == t
  {
    assert q == q[..h] + q[h..];
  }

  lemma CircleOne(m: Threads, t: int, cpu: int)
    ensures Circle(m[t := Thread(t, t, cpu)], [t])
  {
    assert LinkedAt(m[t := Thread(t, t, cpu)], [t], 0);
  }

  /** A thread whose links are null is on no queue. */
  lemma Unqueued(m: Threads, rings: seq<seq<int>>, heads: seq<int>, sizes: seq<int>, current: seq<int>, t: int)
    requires |heads| == |sizes| == |current| == |rings| && t in m && m[t].cpu == NULL
    requires forall c :: 0 <= c < |rings| ==> QueueOk(m, rings[c], heads[c], sizes[c], current[c], c)
    ensures forall c :: 0 <= c < |rings| ==> t !in rings[c]
  {
    hide Circle;
    forall c | 0 <= c < |rings| ensures t !in rings[c] { assert QueueOk(m, rings[c], heads[c], sizes[c], current[c], c); }
  }

  /** Putting the new queue of one processor in place keeps every other queue and every thread's home. */
  lemma Installed(m: Threads, m': Threads, rings: seq<seq<int>>, heads: seq<int>, sizes: seq<int>, current: seq<int>, cpu: int, t: int,
                  rings': seq<seq<int>>, heads': seq<int>, sizes': seq<int>, current': seq<int>)
    requires |heads| == |sizes| == |current| == |rings| && 0 <= cpu < |rings| && t in m && m'.Keys == m.Keys
    requires |heads'| == |sizes'| == |current'| == |rings'| == |rings|
    requires forall c :: 0 <= c < |rings| && c != cpu ==>
      rings'[c] == rings[c] && heads'[c] == heads[c] && sizes'[c] == sizes[c] && current'[c] == current[c]
    requires forall c :: 0 <= c < |rings| ==> QueueOk(m, rings[c], heads[c], sizes[c], current[c], c)
    requires forall x :: x in m ==> Homed(m, rings, x)
    requires QueueOk(m', rings'[cpu], heads'[cpu], sizes'[cpu], current'[cpu], cpu)
    requires forall x :: x in m && x !in rings[cpu] && x != t ==> m'[x] == m[x]
    requires forall x :: x in rings[cpu] && x != t ==> x in rings'[cpu]
    requires forall c :: 0 <= c < |rings| && c != cpu ==> t !in rings[c]
    requires t !in rings'[cpu] ==> m'[t] == Thread(NULL, NULL, NULL)
    ensures forall c :: 0 <= c < |rings'| ==> QueueOk(m', rings'[c], heads'[c], sizes'[c], current'[c], c)
    ensures forall x :: x in m' ==> Homed(m', rings', x)
  {
    hide Homed, QueueOk;
    forall c | 0 <= c < |rings'| ensures QueueOk(m', rings'[c], heads'[c], sizes'[c], current'[c], c) {
      if c != cpu {
        forall x | x in rings[c] ensures x in m && x !in rings[cpu] { OneQueue(m, rings, heads, sizes, current, c, cpu, x); }
        SameQueue(m, m', rings[c], heads[c], sizes[c], current[c], c);
      }
    }
    forall x | x in m' ensures Homed(m', rings', x) {
      if x in rings'[cpu] {
        HomeOf(m', rings', rings'[cpu], heads'[cpu], sizes'[cpu], current'[cpu], cpu, x);
      } else {
        StayHome(m, m', rings, rings', cpu, x);
      }
    }
  }

  lemma OneQueue(m: Threads, rings: seq<seq<int>>, heads: seq<int>, sizes: seq<int>, current: seq<int>, c: int, d: int, x: int)
    requires |heads| == |sizes| == |current| == |rings| && 0 <= c < |rings| && 0 <= d < |rings| && c != d && x in rings[c]
    requires forall c :: 0 <= c < |rings| ==> QueueOk(m, rings[c], heads[c], sizes[c], current[c], c)
    ensures x in m && x !in rings[d]
  {
    hide Circle;
    assert QueueOk(m, rings[c], heads[c], sizes[c], current[c], c) && QueueOk(m, rings[d], heads[d], sizes[d], current[d], d);
  }

  lemma SameQueue(m: Threads, m': Threads, q: seq<int>, head: int, size: int, cur: int, cpu: int)
    requires QueueOk(m, q, head, size, cur, cpu) && forall x :: x in q ==> x in m && x in m' && m'[x] == m[x]
    ensures QueueOk(m', q, head, size, cur, cpu)
  {
    hide Circle;
    CircleSame(m, m', q);
  }

  lemma HomeOf(m: Threads, rings: seq<seq<int>>, q: seq<int>, head: int, size: int, cur: int, cpu: int, x: int)
    requires QueueOk(m, q, head, size, cur, cpu) && x in q && 0 <= cpu < |rings| && rings[cpu] == q
    ensures x in m && Homed(m, rings, x)
  {
    var i := IndexOf(q, x);
    assert LinkedAt(m, q, i);
    assert Succ(q, i) in q && Pred(q, i) in q;
  }

  lemma StayHome(m: Threads, m': Threads, rings: seq<seq<int>>, rings': seq<seq<int>>, cpu: int, x: int)
    requires x in m && x in m' && 0 <= cpu < |rings| == |rings'| && Homed(m, rings, x)
    requires forall c :: 0 <= c < |rings| && c != cpu ==> rings'[c] == rings[c]
    requires (m'[x] == m[x] && x !in rings[cpu]) || m'[x] == Thread(NULL, NULL, NULL)
    ensures Homed(m', rings', x)
  {
  }

  lemma LeaveOk(m: Threads, q: seq<int>, head: int, size: int, cur: int, cpu: int, t: int)
    requires QueueOk(m, q, head, size, cur, cpu) && t in q
    ensures t in m && size > 0 && (m[t].next == t <==> |q| == 1)
    ensures |q| == 1 ==>
      && Left(q, cur, t) == [] && QueueOk(m[t := Thread(NULL, NULL, NULL)], [], NULL, size - 1, NULL, cpu) && (cur == NULL || cur == t)
    ensures |q| > 1 ==> m[t].next in m && m[t].prev in m
    ensures |q| > 1 ==>
      QueueOk(Unlinked(m, t), Left(q, cur, t), if t == head then m[t].next else head, size - 1, if t == cur then m[t].next else cur, cpu)
    ensures |q| > 1 ==> Unlinked(m, t).Keys == m.Keys && Unlinked(m, t)[t] == Thread(NULL, NULL, NULL)
    ensures |q| > 1 ==> forall x :: x in m && x !in q ==> Unlinked(m, t)[x] == m[x]
    ensures forall x :: x in Left(q, cur, t) <==> x in q && x != t
    ensures |q| > 1 && t == cur ==> Last(Left(q, cur, t)) == m[t].next
  {
    hide Circle, Unlinked, Left, Last, Distinct;
    LeaveCircle(m, q, head, cur, t);
    LeaveItems(q, cur, t);
    if |q| > 1 {
      UnlinkedFrame(m, t);
      LastFirst(Left(q, cur, t));
    }
  }

  lemma LeaveItems(q: seq<int>, cur: int, t: int)
    requires Distinct(q) && t in q
    ensures forall x :: x in Left(q, cur, t) <==> x in q && x != t
  {
    MinusItems(q, t);
    RotateItems(Minus(q, t));
  }

  lemma LastFirst(q: seq<int>)
    requires q != []
    ensures Last(q) == q[|q| - 1] && Last(q) in q && q[0] in q
  {
  }

  lemma UnlinkedFrame(m: Threads, t: int)
    requires t in m && m[t].next in m && m[t].prev in m
    ensures Unlinked(m, t).Keys == m.Keys && Unlinked(m, t)[t] == Thread(NULL, NULL, NULL)
    ensures forall x :: x in m && x != t && x != m[t].next && x != m[t].prev ==> Unlinked(m, t)[x] == m[x]
    ensures forall x :: x in m && x != t ==> Unlinked(m, t)[x].cpu == m[x].cpu
  {
  }

  /** The circle after a thread has left it, and where it starts and ends. */
  lemma LeaveCircle(m: Threads, q: seq<int>, head: int, cur: int, t: int)
    requires Circle(m, q) && t in q && head in q
    requires if cur == NULL then q[0] == head else q[|q| - 1] == cur
    ensures t in m && (m[t].next == t <==> |q| == 1) && Distinct(q)
    ensures |q| == 1 ==> Left(q, cur, t) == [] && Circle(m[t := Thread(NULL, NULL, NULL)], [])
    ensures |q| > 1 ==> m[t].next in m && m[t].prev in m && m[t].next in q && m[t].prev in q && m[t].next != t && m[t].prev != t
    ensures |q| > 1 ==> Circle(Unlinked(m, t), Left(q, cur, t)) && |Left(q, cur, t)| == |q| - 1
    ensures |q| > 1 && cur == NULL && t != cur ==> Left(q, cur, t)[0] == if t == head then m[t].next else head
    ensures |q| > 1 && cur != NULL && t != cur ==> Last(Left(q, cur, t)) == cur
    ensures |q| > 1 && cur != NULL && t == cur ==> Last(Left(q, cur, t)) == m[t].next
  {
    hide Circle, Unlinked;
    var i := IndexOf(q, t);
    CircleAt(m, q, i);
    if |q| > 1 {
      CircleRemove(m, q, i);
      CircleAt(m, q, if i > 0 then i - 1 else |q| - 1);
      if t == cur { CircleRotate(Unlinked(m, t), Minus(q, t)); }
      LastIs(q, t);
      if cur == NULL { HeadFirst(q, head); }
    } else {
      CircleNone(m[t := Thread(NULL, NULL, NULL)]);
    }
  }

  lemma CircleAt(m: Threads, q: seq<int>, i: int)
    requires Circle(m, q) && 0 <= i < |q|
    ensures Distinct(q) && LinkedAt(m, q, i)
  {
  }

  lemma CircleNone(m: Threads)
    ensures Circle(m, [])
  {
  }

  lemma MinusItems(q: seq<int>, t: int)
    requires Distinct(q) && t in q
    ensures forall x :: x in Minus(q, t) <==> x in q && x != t
  {
    var i := IndexOf(q, t);
    assert q == q[..i] + [t] + q[i + 1..];
  }

  lemma LastIs(q: seq<int>, t: int)
    requires Distinct(q) && t in q
    ensures q[|q| - 1] == t <==> IndexOf(q, t) == |q| - 1
  {
  }
}
