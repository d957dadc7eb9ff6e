/** Buffer.cpp: one linked queue per port and the packet counter, changed in place. The policy actor, which the
    buffer asks about its module's current state, is handed to each call as a value. */
module BufferObjects {
  import opened Words
  import opened Packets
  import opened Queues
  import opened Buffers
  import opened PriorityQueues

  class Buffer {
    const capacity: nat
    var queues: map<Port, PriorityQueue>
    var packetCounter: map<Port, Word>
    ghost var Repr: set<object>
    /** What the non-empty queues hold. */
    ghost var view: map<Port, seq<Packet>>

    ghost function Held(p: Port): seq<Packet>
      reads `view
    {
      if p in view then view[p] else []
    }

    ghost predicate QueueOk(q: PriorityQueue, held: seq<Packet>)
      reads q, q.Repr
    {
      q.capacity == capacity && q.Valid() && q.elems == held
    }

    ghost predicate PortOk(p: Port)
      requires p in queues
      reads `queues, `view, `Repr, Repr
    {
      queues[p] in Repr && queues[p].Repr <= Repr && QueueOk(queues[p], Held(p))
    }

    ghost predicate Valid()
      reads `queues, `view, `Repr, Repr
    {
      && this !in Repr
      && (forall p {:trigger PortOk(p)} :: p in queues ==> PortOk(p))
      && (forall p, r :: p in queues && r in queues && p != r ==> queues[p] != queues[r])
      && (forall p :: p in view ==> p in queues && view[p] != [])
    }

    /** The buffer as a value: a queue that exists but is empty counts as absent. */
    ghost function Abs(): Buf
      reads `view, `packetCounter
    {
      Buf(view, packetCounter, capacity)
    }

    /** While the queue of one port is worked on, the others stay as they are. */
    twostate lemma OthersKept(port: Port)
      requires old(Valid()) && port in queues && queues == old(queues) && old(Repr) <= Repr
      requires forall o: object {:trigger o in old(Repr)} :: o in old(Repr) ==>
                 o == queues[port] || o in old(queues[port].Repr) || unchanged(o)
      ensures forall r {:trigger PortOk(r)} :: r in queues && r != port ==>
        queues[r] in Repr && queues[r].Repr <= Repr && QueueOk(queues[r], old(Held(r)))
    {
      forall r | r in queues && r != port
        ensures queues[r] in Repr && queues[r].Repr <= Repr && QueueOk(queues[r], old(Held(r)))
      {
        var q, worked := queues[r], queues[port];
        assert old(PortOk(r)) && old(PortOk(port));
        assert unchanged(q);
        forall n | n in q.Repr ensures unchanged(n) {
          assert n.owner == q && n in old(Repr);
        }
      }
    }

    twostate lemma Settled(port: Port)
      requires old(Valid()) && port in queues && queues == old(queues) && old(Repr) <= Repr && this !in Repr
      requires forall o: object {:trigger o in old(Repr)} :: o in old(Repr) ==>
                 o == queues[port] || o in old(queues[port].Repr) || unchanged(o)
      requires queues[port] in Repr && queues[port].Repr <= Repr && QueueOk(queues[port], queues[port].elems)
      requires view == Put(old(view), port, queues[port].elems)
      ensures Valid()
    {
      OthersKept(port);
      assert Held(port) == queues[port].elems;
      forall r | r in queues ensures PortOk(r) {
        if r != port {
          assert Held(r) == old(Held(r));
        }
      }
    }

    constructor (capacity: nat)
      ensures Valid() && fresh(Repr) && Abs() == Buf(map[], map[], capacity)
    {
      this.capacity := capacity;
      queues, packetCounter, view := map[], map[], map[];
      Repr := {};
    }

    method PacketsAvailable() returns (result: bool)
      requires Valid()
      ensures result == (Abs().counter != map[])
    {
      result := packetCounter != map[];
    }

    /** The queue of a port, created on first use. */
    method GetQueue(port: Port) returns (queue: PriorityQueue)
      requires Valid()
      modifies this
      ensures Valid() && fresh(Repr - old(Repr)) && Abs() == old(Abs())
      ensures port in queues && queue == queues[port] && queue.Valid() && queue.elems == Held(port)
      ensures view == old(view) && packetCounter == old(packetCounter)
    {
      if port !in queues {
        queue := new PriorityQueue(capacity);
        queues := queues[port := queue];
        Repr := Repr + {queue};
      } else {
        queue := queues[port];
      }
      forall r | r in queues ensures PortOk(r) {
        if r in old(queues) {
          assert old(PortOk(r));
        }
      }
      assert PortOk(port);
    }

    method IsEmptyAt(port: Port) returns (result: bool)
      requires Valid() && port in queues
      ensures result == Buffers.IsEmpty(Held(port))
    {
      assert PortOk(port);
      result := queues[port].IsEmpty();
    }

    method PeekAt(port: Port) returns (result: Packet)
      requires Valid() && port in queues && !Buffers.IsEmpty(Held(port))
      ensures result == Held(port)[0]
    {
      assert PortOk(port);
      result := queues[port].Peek();
    }

    method SizeAt(port: Port) returns (result: Word)
      requires Valid() && port in queues
      ensures result == Size(Held(port))
    {
      assert PortOk(port);
      result := queues[port].GetSize();
    }

    method ClearAt(port: Port)
      requires Valid() && port in queues
      modifies this, Repr
      ensures Valid() && fresh(Repr - old(Repr)) && queues == old(queues) && packetCounter == old(packetCounter)
      ensures view == Put(old(view), port, [])
    {
      assert PortOk(port);
      queues[port].Clear();
      view := Put(view, port, []);
      Settled(port);
    }

    method PushAt(port: Port, packet: Packet, policyActor: Policy) returns (code: int)
      requires Valid() && port in queues
      modifies this, Repr
      ensures Valid() && fresh(Repr - old(Repr)) && queues == old(queues) && packetCounter == old(packetCounter)
      ensures code == if Size(old(Held(port))) >= capacity then QUEUE_FULL else CODE_SUCCESS
      ensures view == Put(old(view), port,
        if code == QUEUE_FULL then old(Held(port)) else Insert(old(Held(port)), packet, policyActor))
    {
      hide PriorityQueue.Valid, Insert;
      var queue := queues[port];
      assert PortOk(port);
      code := queue.Push(packet, policyActor);
      Repr := Repr + queue.Repr;
      view := Put(view, port, queue.elems);
      Settled(port);
    }

    method PopAt(port: Port) returns (packet: Packet)
      requires Valid() && port in queues && !Buffers.IsEmpty(Held(port))
      modifies this, Repr
      ensures Valid() && fresh(Repr - old(Repr)) && queues == old(queues) && packetCounter == old(packetCounter)
      ensures old(Held(port)) == [packet] + Held(port) && view == Put(old(view), port, old(Held(port))[1..])
    {
      hide PriorityQueue.Valid;
      var queue := queues[port];
      assert PortOk(port);
      packet := queue.Pop();
      view := Put(view, port, queue.elems);
      Settled(port);
    }

    method ClearQueueForPort(port: Port)
      requires Valid()
      modifies this, Repr
      ensures Valid() && fresh(Repr - old(Repr)) && Abs() == ClearPort(old(Abs()), port)
    {
      if port in queues {
        ClearAt(port);
      }
      assert view == old(view) - {port};
      packetCounter := packetCounter - {port};
    }

    /** Clears the queue if the maximum window is exceeded. */
    method MakeRoom(packet: Packet, policyActor: Policy)
      requires Valid() && packet.port in queues
      modifies this, Repr
      ensures Valid() && fresh(Repr - old(Repr)) && queues == old(queues)
      ensures Held(packet.port) == AfterClear(old(Abs()), packet, policyActor)
      ensures if Clears(old(Abs()), packet, policyActor)
        then view == Put(old(view), packet.port, []) && packetCounter == old(packetCounter) - {packet.port}
        else view == old(view) && packetCounter == old(packetCounter)
    {
      var port := packet.port;
      var empty := IsEmptyAt(port);
      if !empty {
        var head := PeekAt(port);
        if policyActor.WindowExceeded(head, packet) {
          ClearAt(port);
          packetCounter := packetCounter - {port};
        }
      }
    }

    method Write(packet: Packet, policyActor: Policy)
      requires Valid()
      modifies this, Repr
      ensures Valid() && fresh(Repr - old(Repr)) && Abs() == Buffers.Write(old(Abs()), packet, policyActor)
    {
      var port := packet.port;
      var queue := GetQueue(port);
      MakeRoom(packet, policyActor);
      ghost var q := Held(port);
      var code := PushAt(port, packet, policyActor);
      PutTwice(old(view), port, [], if code == QUEUE_FULL then q else Insert(q, packet, policyActor));
      if code != QUEUE_FULL {
        var size := SizeAt(port);
        packetCounter := packetCounter[port := size];
      }
    }

    method PopPacketInternal(port: Port, policyActor: Policy) returns (packet: Option<Packet>)
      requires Valid()
      modifies this, Repr
      ensures Valid() && fresh(Repr - old(Repr)) && (Abs(), packet) == Buffers.Pop(old(Abs()), port, policyActor)
    {
      assert port !in queues ==> port !in view;
      hide PriorityQueue.Valid, QueueOk;
      if port !in queues {
        return None;
      }
      var empty := IsEmptyAt(port);
      if empty {
        return None;
      }
      var head := PeekAt(port);
      if !policyActor.IsElementValid(head) {
        return None;
      }
      head := PopAt(port);
      empty := IsEmptyAt(port);
      if empty {
        packetCounter := packetCounter - {port};
      } else {
        var size := SizeAt(port);
        packetCounter := packetCounter[port := size];
      }
      return Some(head);
    }

    /** Tries the listed ports in ascending order. */
    method GetNextAvailablePacket(policyActor: Policy) returns (packet: Option<Packet>)
      requires Valid()
      modifies this, Repr
      ensures Valid() && fresh(Repr - old(Repr)) && (Abs(), packet) == NextAvailable(old(Abs()), policyActor)
    {
      if packetCounter == map[] {
        FirstEligibleIsLowest(Abs(), policyActor, 0);
        return None;
      }
      for port: int := 0 to 128
        invariant Valid() && fresh(Repr - old(Repr)) && Abs() == old(Abs())
        invariant FirstEligible(Abs(), policyActor, 0) == FirstEligible(Abs(), policyActor, port)
      {
        if port in packetCounter {
          packet := PopPacketInternal(port, policyActor);
          if packet.Some? {
            return;
          }
        }
      }
      return None;
    }

    method GetActiveQueues() returns (result: set<Port>)
      requires Valid()
      ensures result == Active(Abs())
    {
      result := {};
      for port: int := 0 to 128
        invariant result == set p | p in packetCounter && p < port && packetCounter[p] > 0
      {
        if port in packetCounter && packetCounter[port] > 0 {
          result := result + {port};
        }
      }
    }

    method GetSizeOfQueue(port: Port) returns (result: Word)
      requires Valid()
      ensures result == Size(Abs().Queue(port))
    {
      if port !in queues {
        return 0;
      }
      result := SizeAt(port);
    }
  }
}
