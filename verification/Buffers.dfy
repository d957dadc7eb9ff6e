/** `Buffer` as functions: one priority queue per port and the packet counter that indexes the non-empty ones. */
module Buffers {
  import opened Words
  import opened Packets
  import opened Queues

  /** `queues` lists the ports whose queue is not empty; `capacity` is MAX_QUEUE_CAPACITY. */
  datatype Buf = Buf(queues: map<Port, seq<Packet>>, counter: map<Port, Word>, capacity: nat) {
    function Queue(p: Port): seq<Packet> {
      if p in queues then queues[p] else []
    }
  }

  function Put(queues: map<Port, seq<Packet>>, p: Port, q: seq<Packet>): map<Port, seq<Packet>> {
    if q == [] then queues - {p} else queues[p := q]
  }

  lemma PutTwice(queues: map<Port, seq<Packet>>, p: Port, q: seq<Packet>, r: seq<Packet>)
    ensures Put(Put(queues, p, q), p, r) == Put(queues, p, r)
  {
  }

  /** The `uint16_t size` of a queue. */
  function Size(q: seq<Packet>): Word {
    |q| % 0x10000
  }

  predicate IsEmpty(q: seq<Packet>) {
    Size(q) == 0
  }

  /** `write` clears the queue first if the new packet is too far from its head. */
  predicate Clears(b: Buf, x: Packet, pol: Policy) {
    var q := b.Queue(x.port);
    !IsEmpty(q) && pol.WindowExceeded(q[0], x)
  }

  function AfterClear(b: Buf, x: Packet, pol: Policy): seq<Packet> {
    if Clears(b, x, pol) then [] else b.Queue(x.port)
  }

  /** `push` returns QUEUE_FULL and `write` drops the packet. */
  predicate Refuses(b: Buf, x: Packet, pol: Policy) {
    Size(AfterClear(b, x, pol)) >= b.capacity
  }

  function Write(b: Buf, x: Packet, pol: Policy): Buf {
    var q := AfterClear(b, x, pol);
    var counter := if Clears(b, x, pol) then b.counter - {x.port} else b.counter;
    if Refuses(b, x, pol) then
      b.(queues := Put(b.queues, x.port, q), counter := counter)
    else
      var r := Insert(q, x, pol);
      b.(queues := Put(b.queues, x.port, r), counter := counter[x.port := Size(r)])
  }

  /** The head of the queue may leave. */
  predicate Eligible(b: Buf, p: Port, pol: Policy) {
    var q := b.Queue(p);
    !IsEmpty(q) && pol.IsElementValid(q[0])
  }

  /** `popPacketInternal`. */
  function Pop(b: Buf, p: Port, pol: Policy): (Buf, Option<Packet>) {
    if !Eligible(b, p, pol) then (b, None)
    else
      var q := b.Queue(p);
      var counter := if IsEmpty(q[1..]) then b.counter - {p} else b.counter[p := Size(q[1..])];
      (b.(queues := Put(b.queues, p, q[1..]), counter := counter), Some(q[0]))
  }

  /** The first port from `from` on that the loop of `getNextAvailablePacket` gets a packet from. */
  function FirstEligible(b: Buf, pol: Policy, from: nat): Option<Port>
    requires from <= 128
    decreases 128 - from
  {
    if from == 128 then None
    else if from in b.counter && Eligible(b, from, pol) then Some(from)
    else FirstEligible(b, pol, from + 1)
  }

  /** `getNextAvailablePacket`. */
  function NextAvailable(b: Buf, pol: Policy): (Buf, Option<Packet>) {
    var p := FirstEligible(b, pol, 0);
    if p.None? then (b, None) else Pop(b, p.value, pol)
  }

  function ClearPort(b: Buf, p: Port): Buf {
    b.(queues := b.queues - {p}, counter := b.counter - {p})
  }

  /** `getActiveQueues`. */
  function Active(b: Buf): set<Port> {
    set p | p in b.counter && b.counter[p] > 0
  }

  // ----- The counter indexes the queues -----

  /** The counter has a port exactly when its queue is not empty, and holds its length. */
  ghost predicate IndexAgrees(b: Buf) {
    forall p: Port :: IndexAgreesAt(b, p)
  }

  ghost predicate IndexAgreesAt(b: Buf, p: Port) {
    if b.Queue(p) == [] then p !in b.counter else p in b.counter && b.counter[p] == |b.Queue(p)|
  }

  lemma QueueOfPut(b: Buf, p: Port, q: seq<Packet>, r: Port)
    ensures b.(queues := Put(b.queues, p, q)).Queue(r) == if r == p then q else b.Queue(r)
  {
  }

  /** With the index exact, the active queues are the ones that are not empty. */
  lemma ActiveExactly(b: Buf, p: Port)
    requires IndexAgrees(b)
    ensures p in Active(b) <==> b.Queue(p) != []
  {
    assert IndexAgreesAt(b, p);
  }

  /** `write` keeps the index exact unless it adds packet 65536 to a queue, whose 16-bit size then reads 0. */
  lemma WriteKeepsIndex(b: Buf, x: Packet, pol: Policy)
    requires IndexAgrees(b)
    ensures IndexAgrees(Write(b, x, pol)) <==> |b.Queue(x.port)| < 0xFFFF || Clears(b, x, pol) || Refuses(b, x, pol)
  {
    var p, b' := x.port, Write(b, x, pol);
    assert IndexAgreesAt(b, p);
    forall r: Port | r != p ensures IndexAgreesAt(b', r) {
      assert IndexAgreesAt(b, r);
    }
    assert IndexAgreesAt(b', p) <==> |b'.Queue(p)| < 0x10000 by {
      var q := AfterClear(b, x, pol);
      QueueOfPut(b, p, q, p);
      QueueOfPut(b, p, Insert(q, x, pol), p);
    }
  }

  /** `popPacketInternal` keeps the index; it fails only on an empty queue or a blocked head. */
  lemma PopKeepsIndex(b: Buf, p: Port, pol: Policy)
    requires IndexAgrees(b)
    ensures IndexAgrees(Pop(b, p, pol).0)
    ensures Pop(b, p, pol).1.None? <==> b.Queue(p) == [] || !pol.IsElementValid(b.Queue(p)[0])
    ensures Pop(b, p, pol).1.Some? ==>
      && b.Queue(p) == [Pop(b, p, pol).1.value] + Pop(b, p, pol).0.Queue(p)
      && forall r: Port :: r != p ==> Pop(b, p, pol).0.Queue(r) == b.Queue(r)
  {
    assert IndexAgreesAt(b, p);
    var b' := Pop(b, p, pol).0;
    forall r: Port ensures IndexAgreesAt(b', r) {
      assert IndexAgreesAt(b, r);
    }
  }

  lemma ClearKeepsIndex(b: Buf, p: Port)
    requires IndexAgrees(b)
    ensures IndexAgrees(ClearPort(b, p)) && ClearPort(b, p).Queue(p) == []
    ensures forall r: Port :: r != p ==> ClearPort(b, p).Queue(r) == b.Queue(r)
  {
    forall r: Port ensures IndexAgreesAt(ClearPort(b, p), r) {
      assert IndexAgreesAt(b, r);
    }
  }

  lemma {:induction false} FirstEligibleIsLowest(b: Buf, pol: Policy, from: nat)
    requires from <= 128
    ensures var f := FirstEligible(b, pol, from);
      && (f.Some? ==> from <= f.value && f.value in b.counter && Eligible(b, f.value, pol))
      && forall p: Port :: from <= p < (if f.Some? then f.value else 128) && p in b.counter ==> !Eligible(b, p, pol)
    decreases 128 - from
  {
    if from < 128 {
      FirstEligibleIsLowest(b, pol, from + 1);
    }
  }

  /** `getNextAvailablePacket` comes back empty exactly when the head of every non-empty queue is on a blocked
      channel; otherwise it takes the head of the lowest port whose head may go, and touches nothing else. */
  lemma NextAvailableIsLowest(b: Buf, pol: Policy)
    requires IndexAgrees(b)
    ensures var r := NextAvailable(b, pol);
      && IndexAgrees(r.0)
      && (r.1.None? <==> forall p: Port :: b.Queue(p) != [] ==> !pol.IsElementValid(b.Queue(p)[0]))
      && (r.1.None? ==> r.0 == b)
      && (r.1.Some? ==> exists p: Port ::
            && b.Queue(p) == [r.1.value] + r.0.Queue(p) && pol.IsElementValid(r.1.value)
            && (forall q: Port :: q < p && b.Queue(q) != [] ==> !pol.IsElementValid(b.Queue(q)[0]))
            && (forall q: Port :: q != p ==> r.0.Queue(q) == b.Queue(q)))
  {
    var f := FirstEligible(b, pol, 0);
    FirstEligibleIsLowest(b, pol, 0);
    forall p: Port ensures b.Queue(p) != [] ==> p in b.counter && !IsEmpty(b.Queue(p)) {
      assert IndexAgreesAt(b, p);
    }
    if f.Some? {
      PopKeepsIndex(b, f.value, pol);
      assert pol.IsElementValid(b.Queue(f.value)[0]);
    }
  }
}
