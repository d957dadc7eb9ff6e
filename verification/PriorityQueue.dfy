/** PriorityQueue.h: the doubly linked list, relinked in place. */
module PriorityQueues {
  import opened Words
  import opened Packets
  import opened Queues
  import opened Buffers

  const QUEUE_FULL := -1

  ghost predicate Distinct<T>(s: seq<T>) {
    forall i, j :: 0 <= i < j < |s| ==> s[i] != s[j]
  }

  lemma DistinctInserted<T>(s: seq<T>, k: nat, x: T)
    requires Distinct(s) && x !in s && k <= |s|
    ensures Distinct(s[..k] + [x] + s[k..])
  {
    forall i, j | 0 <= i < j <= |s| ensures (s[..k] + [x] + s[k..])[i] != (s[..k] + [x] + s[k..])[j] {
      InsertedAt(s, k, x, i);
      InsertedAt(s, k, x, j);
    }
  }

  /** The scan stopped behind position `k - 1`: that is where insertion puts the new element. */
  lemma ScanStops(q: seq<Packet>, x: Packet, pol: Policy, k: nat)
    requires k <= |q| && (k > 0 ==> pol.Before(q[k - 1], x))
    requires forall j :: k <= j < |q| ==> !pol.Before(q[j], x)
    ensures Insert(q, x, pol) == q[..k] + [x] + q[k..]
    ensures k == 0 ==> Insert(q, x, pol) == [x] + q
  {
    SlotUnique(q, x, pol, k);
  }

  lemma NextSize(n: nat)
    ensures (n % 0x10000 + 1) % 0x10000 == (n + 1) % 0x10000
  {
    var q, r := n / 0x10000, n % 0x10000;
    assert n == 0x10000 * q + r;
    if r == 0xFFFF {
      assert n + 1 == 0x10000 * (q + 1);
    }
  }

  class Node {
    const element: Packet
    ghost const owner: PriorityQueue
    var next: Node?
    var prev: Node?

    constructor (element: Packet, ghost owner: PriorityQueue)
      ensures this.element == element && this.owner == owner && next == null && prev == null
    {
      this.element, this.owner, next, prev := element, owner, null, null;
    }
  }

  ghost function NextOf(nodes: seq<Node>, i: nat): Node? {
    if i + 1 < |nodes| then nodes[i + 1] else null
  }

  ghost function PrevOf(nodes: seq<Node>, i: nat): Node? {
    if 0 < i <= |nodes| then nodes[i - 1] else null
  }

  ghost predicate NodeOk(nodes: seq<Node>, elems: seq<Packet>, i: nat)
    requires i < |nodes| == |elems|
    reads nodes
  {
    nodes[i].element == elems[i] && nodes[i].next == NextOf(nodes, i) && nodes[i].prev == PrevOf(nodes, i)
  }

  /** The nodes are distinct, hold the elements, and are linked both ways. */
  ghost predicate Chain(nodes: seq<Node>, elems: seq<Packet>)
    reads nodes
  {
    |nodes| == |elems| && Distinct(nodes) && forall i :: 0 <= i < |nodes| ==> NodeOk(nodes, elems, i)
  }

  /** Node `j` of a chain after `newNode` was linked in behind position `k - 1`. */
  ghost predicate Spliced(nodes: seq<Node>, elems: seq<Packet>, newNode: Node, k: nat, j: nat)
    requires j < |nodes| == |elems|
    reads nodes
  {
    && nodes[j].element == elems[j]
    && nodes[j].next == (if j == k - 1 then newNode else NextOf(nodes, j))
    && nodes[j].prev == (if j == k then newNode else PrevOf(nodes, j))
  }

  lemma ChainSpliced(nodes: seq<Node>, elems: seq<Packet>, newNode: Node, k: nat)
    requires 0 < k <= |nodes| == |elems| && Distinct(nodes) && newNode !in nodes
    requires forall j :: 0 <= j < |nodes| ==> Spliced(nodes, elems, newNode, k, j)
    requires newNode.prev == nodes[k - 1] && newNode.next == NextOf(nodes, k - 1)
    ensures Chain(nodes[..k] + [newNode] + nodes[k..], elems[..k] + [newNode.element] + elems[k..])
  {
    var ns, es := nodes[..k] + [newNode] + nodes[k..], elems[..k] + [newNode.element] + elems[k..];
    DistinctInserted(nodes, k, newNode);
    forall i | 0 <= i < |ns| ensures NodeOk(ns, es, i) {
      if i < k {
        assert Spliced(nodes, elems, newNode, k, i);
      } else if i > k {
        assert Spliced(nodes, elems, newNode, k, i - 1);
      }
    }
  }

  class PriorityQueue {
    /** MAX_QUEUE_CAPACITY */
    const capacity: nat
    var head: Node?
    var tail: Node?
    var size: Word
    /** The nodes from head to tail, and what they hold. */
    ghost var nodes: seq<Node>
    ghost var elems: seq<Packet>
    ghost var Repr: set<Node>

    /** Head, tail and all links agree with `nodes`, whose nodes are distinct. */
    ghost predicate Linked()
      reads `head, `tail, `nodes, `elems, nodes
    {
      Chain(nodes, elems) && head == (if nodes == [] then null else nodes[0]) && tail == PrevOf(nodes, |nodes|)
    }

    ghost predicate Valid()
      reads this, Repr
    {
      && (forall n :: n in nodes ==> n in Repr) && (forall n :: n in Repr ==> n.owner == this)
      && Linked() && size == Size(elems)
    }

    constructor (capacity: nat)
      ensures Valid() && elems == [] && Repr == {} && this.capacity == capacity
    {
      this.capacity := capacity;
      head, tail, size := null, null, 0;
      nodes, elems, Repr := [], [], {};
    }

    method IsEmpty() returns (result: bool)
      requires Valid()
      ensures result == Buffers.IsEmpty(elems)
    {
      result := size == 0;
    }

    method Peek() returns (result: Packet)
      requires Valid() && !Buffers.IsEmpty(elems)
      ensures result == elems[0]
    {
      assert NodeOk(nodes, elems, 0);
      result := head.element;
    }

    method GetSize() returns (result: Word)
      requires Valid()
      ensures result == Size(elems)
    {
      result := size;
    }

    method Pop() returns (element: Packet)
      requires Valid() && !Buffers.IsEmpty(elems)
      modifies this, Repr
      ensures Valid() && Repr == old(Repr) && old(elems) == [element] + elems
    {
      var ref := head;
      assert NodeOk(nodes, elems, 0);
      if ref.next == null {
        tail := null;
        head := null;
      } else {
        assert NodeOk(nodes, elems, 1);
        head := ref.next;
        ref.next.prev := null;
      }
      element := ref.element;
      size := size - 1;
      ghost var before := nodes;
      nodes, elems := nodes[1..], elems[1..];
      forall i | 0 <= i < |nodes| ensures NodeOk(nodes, elems, i) {
        assert nodes[i] == before[i + 1];
        assert old(NodeOk(nodes, elems, i + 1));
      }
    }

    /** The new node becomes the only one. */
    method LinkOnly(newNode: Node)
      requires Linked() && nodes == [] && newNode.next == null && newNode.prev == null
      modifies `head, `tail, `nodes, `elems
      ensures Linked() && nodes == [newNode] && elems == [newNode.element]
      ensures forall n :: n in nodes ==> n in old(nodes) || n == newNode
    {
      head := newNode;
      tail := newNode;
      nodes, elems := [newNode], [newNode.element];
    }

    /** The new node goes in front of the head `ref`. */
    method LinkFirst(ref: Node, newNode: Node)
      requires Linked() && nodes != [] && ref == nodes[0]
      requires newNode !in nodes && newNode.next == null && newNode.prev == null
      modifies `head, `nodes, `elems, ref, newNode
      ensures Linked() && nodes == [newNode] + old(nodes) && elems == [newNode.element] + old(elems)
      ensures forall n :: n in nodes ==> n in old(nodes) || n == newNode
    {
      ref.prev := newNode;
      newNode.next := ref;
      head := newNode;
      nodes, elems := [newNode] + nodes, [newNode.element] + elems;
      forall i | 0 <= i < |nodes| ensures NodeOk(nodes, elems, i) {
        if i > 0 {
          assert nodes[i] == old(nodes)[i - 1];
          assert old(NodeOk(nodes, elems, i - 1));
        }
      }
    }

    /** The new node goes right behind `ref`, the node at position `k - 1`. */
    method LinkAfter(ref: Node, newNode: Node, ghost k: nat)
      requires Linked() && 0 < k <= |nodes| && ref == nodes[k - 1]
      requires newNode !in nodes && newNode.next == null && newNode.prev == null
      modifies `head, `tail, `nodes, `elems, nodes, newNode
      ensures Linked() && nodes == old(nodes)[..k] + [newNode] + old(nodes)[k..]
      ensures elems == old(elems)[..k] + [newNode.element] + old(elems)[k..]
      ensures forall n :: n in nodes ==> n in old(nodes) || n == newNode
    {
      ghost var before, n := nodes, |nodes|;
      assert NodeOk(nodes, elems, k - 1);
      var swap := ref.next;
      ref.next := newNode;
      newNode.prev := ref;
      newNode.next := swap;
      if swap != null {
        swap.prev := newNode;
      } else {
        tail := newNode;
      }
      forall j | 0 <= j < n ensures Spliced(before, elems, newNode, k, j) {
        assert old(NodeOk(nodes, elems, j));
      }
      ChainSpliced(before, elems, newNode, k);
      nodes, elems := nodes[..k] + [newNode] + nodes[k..], elems[..k] + [newNode.element] + elems[k..];
    }

    method Push(element: Packet, comparator: Policy) returns (code: int)
      requires Valid()
      modifies this, Repr
      ensures Valid() && fresh(Repr - old(Repr))
      ensures code == if Size(old(elems)) >= capacity then QUEUE_FULL else CODE_SUCCESS
      ensures elems == if code == QUEUE_FULL then old(elems) else Insert(old(elems), element, comparator)
    {
      hide Chain, Insert;
      if size >= capacity {
        return QUEUE_FULL;
      }
      var newNode := new Node(element, this);
      Link(newNode, comparator);
      Repr := Repr + {newNode};
      NextSize(|old(elems)|);
      size := (size + 1) % 0x10000;
      return CODE_SUCCESS;
    }

    /** Scans backwards from the tail for the last element that goes before the new one, and links it in there. */
    method Link(newNode: Node, comparator: Policy)
      requires Linked() && newNode !in nodes && newNode.next == null && newNode.prev == null
      modifies `head, `tail, `nodes, `elems, nodes, newNode
      ensures Linked() && elems == Insert(old(elems), newNode.element, comparator)
      ensures forall n :: n in nodes ==> n in old(nodes) || n == newNode
    {
      var element, ref := newNode.element, tail;
      ghost var k := |nodes|;
      while true
        invariant unchanged(this) && unchanged(old(nodes)) && unchanged(newNode)
        invariant if nodes == [] then ref == null && k == 0 else 0 < k <= |nodes| && ref == nodes[k - 1]
        invariant forall j :: k <= j < |elems| ==> !comparator.Before(elems[j], element)
        decreases k
      {
        if ref == null {
          ScanStops(elems, element, comparator, 0);
          LinkOnly(newNode);
          return;
        }
        assert NodeOk(nodes, elems, k - 1);
        if comparator.Compare(ref.element, element) < 0 {
          ScanStops(elems, element, comparator, k);
          LinkAfter(ref, newNode, k);
          return;
        } else if ref.prev == null {
          ScanStops(elems, element, comparator, 0);
          LinkFirst(ref, newNode);
          return;
        }
        ref := ref.prev;
        k := k - 1;
      }
    }

    method Clear()
      requires Valid()
      modifies this
      ensures Valid() && elems == [] && Repr == {}
    {
      var ref := head;
      ghost var k := 0;
      while ref != null
        invariant k <= |nodes| && Chain(nodes, elems)
        invariant ref == head == if k < |nodes| then nodes[k] else null
        decreases |nodes| - k
      {
        assert NodeOk(nodes, elems, k);
        head := ref.next;
        ref := head;
        k := k + 1;
      }
      tail := head;
      size := 0;
      nodes, elems, Repr := [], [], {};
    }
  }
}
