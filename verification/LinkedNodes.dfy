/** The doubly linked nodes of the block cache.  One node type serves the queue, where it holds
    a page, and the hash chains, where it points at a queue node. */
module LinkedNodes {

  class Node {
    const block: int      // block address
    const page: int       // frame holding the block (queue nodes)
    const index: Node?    // the queue node indexed (chain nodes)
    var dirty: bool       // the low bit of the stored page address
    var prev: Node?
    var next: Node?

    constructor (block: int, page: int, index: Node?)
      ensures this.block == block && this.page == page && !dirty && this.index == index
    {
      this.block, this.page, this.index := block, page, index;
      dirty, prev, next := false, null, null;
    }
  }

  ghost function Nodes(q: seq<Node>): set<Node> { set n | n in q }

  /** The nodes of `q`, in order, are the list from `head` to `tail`, linked both ways. */
  ghost predicate Dll(q: seq<Node>, head: Node?, tail: Node?)
    reads Nodes(q)`prev, Nodes(q)`next
  {
    && (forall i, j :: 0 <= i < j < |q| ==> q[i] != q[j])
    && head == (if q == [] then null else q[0])
    && tail == (if q == [] then null else q[|q| - 1])
    && (forall i {:trigger q[i].next} :: 0 <= i < |q| ==> q[i].next == if i + 1 < |q| then q[i + 1] else null)
    && (forall i {:trigger q[i].prev} :: 0 <= i < |q| ==> q[i].prev == if i > 0 then q[i - 1] else null)
  }

  /** block_cache_queue_push_node. */
  method PushHead(ghost q: seq<Node>, node: Node, head: Node?, tail: Node?) returns (h: Node?, t: Node?)
    requires Dll(q, head, tail) && node !in q
    modifies node`prev, node`next, Nodes(q)`prev
    ensures Dll([node] + q, h, t)
  {
    node.next := head;
    t := tail;
    if head != null { head.prev := node; } else { t := node; }
    h := node;
    node.prev := null;
  }

  /** The append of lru_hash_insert. */
  method AppendTail(ghost q: seq<Node>, node: Node, head: Node?, tail: Node?) returns (h: Node?, t: Node?)
    requires Dll(q, head, tail) && node !in q
    modifies node`prev, node`next, Nodes(q)`next
    ensures Dll(q + [node], h, t)
  {
    node.prev := tail;
    h := head;
    if node.prev != null { tail.next := node; } else { h := node; }
    t := node;
    node.next := null;
  }

  /** The relinking of block_cache_queue_erase and lru_hash_remove. */
  method Unlink(ghost q: seq<Node>, ghost i: int, node: Node, head: Node?, tail: Node?) returns (h: Node?, t: Node?)
    requires Dll(q, head, tail) && 0 <= i < |q| && q[i] == node
    modifies Nodes(q)`prev, Nodes(q)`next
    ensures Dll(q[..i] + q[i + 1..], h, t)
  {
    var prev := node.prev;
    var next := node.next;
    h, t := head, tail;
    assert node in q && (prev != null ==> prev == q[i - 1]) && (next != null ==> next == q[i + 1]);
    if prev != null { prev.next := next; } else { h := next; }
    if next != null { next.prev := prev; } else { t := prev; }
    ghost var r := q[..i] + q[i + 1..];
    assert forall k :: 0 <= k < |r| ==> r[k] == if k < i then q[k] else q[k + 1];
  }

  /** The relinking of block_cache_queue_pop_tail. */
  method PopTail(ghost q: seq<Node>, head: Node?, tail: Node?) returns (h: Node?, t: Node?)
    requires Dll(q, head, tail) && q != []
    modifies Nodes(q)`next
    ensures Dll(q[..|q| - 1], h, t)
  {
    h := head;
    t := tail.prev;
    assert t != null ==> t == q[|q| - 2];
    if t != null { t.next := null; } else { h := null; }
  }
}
