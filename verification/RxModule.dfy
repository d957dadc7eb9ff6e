/** RxModule.cpp: the receiver's fields, changed in place. Each method is proved against the functions of
    `Receiver`, from which the properties of whole runs are derived. */
module RxModules {
  import opened Words
  import opened Crc
  import opened Packets
  import opened Queues
  import opened Buffers
  import opened PriorityQueues
  import opened BufferObjects
  import R = Receiver

  const PORT_ALREADY_OPEN := -1
  const PORT_ALREADY_CLOSED := -1

  /** The scan has passed the first `k` packets without an answer. */
  ghost predicate Passed(q: seq<Packet>, cur: Byte, v: Variant, k: nat) {
    k <= |q| && forall j :: 0 <= j < k ==> q[j].seqPort == R.Expected(v, cur, j) && (q[j].more <==> q[j].sub == j % 256)
  }

  /** The scan stops at `k` with a negative answer. */
  lemma ScanFails(q: seq<Packet>, cur: Byte, v: Variant, k: nat)
    requires Passed(q, cur, v, k)
    requires k < |q| ==> q[k].seqPort != R.Expected(v, cur, k) || (q[k].more && q[k].sub != k % 256)
    ensures !R.Complete(q, cur, v)
  {
  }

  lemma ExpectedAt(v: Variant, cur: Byte, k: nat)
    ensures R.Expected(v, cur, k) == if v == Repaired then (cur + k % 256) % 256 else cur + k % 256
  {
    AddMod(k, cur);
  }

  lemma PassesNext(q: seq<Packet>, cur: Byte, v: Variant, k: nat)
    requires Passed(q, cur, v, k) && k < |q| && q[k].seqPort == R.Expected(v, cur, k)
    requires !(q[k].more && q[k].sub != k % 256) && !(!q[k].more && q[k].sub == k % 256)
    ensures Passed(q, cur, v, k + 1) && Add8(k % 256, 1) == (k + 1) % 256
  {
    AddMod(k, 1);
  }

  /** An assembly that started with `n` packets carrying `data`. */
  ghost function Prepend(n: nat, data: seq<Byte>, a: R.Assembly): R.Assembly {
    R.Assembly(a.ending, n + a.popped, data + a.data, a.cur)
  }

  /** One turn of the assembly loop. */
  lemma AssembleNext(q: seq<Packet>, cur0: Byte, n: nat, data: seq<Byte>, cur: Byte)
    requires n <= |q| && R.Assemble(q, cur0) == Prepend(n, data, R.Assemble(q[n..], cur))
    ensures var a := R.Assemble(q, cur0);
      if IsEmpty(q[n..]) then a == R.Assembly(R.NullPacket, n, data, cur)
      else if q[n].seqPort != cur then a == R.Assembly(R.Inconsistent, n + 1, data, cur)
      else if !q[n].more then a == R.Assembly(R.Whole, n + 1, data + q[n].payload, Add8(cur, 1))
      else a == Prepend(n + 1, data + q[n].payload, R.Assemble(q[n + 1..], Add8(cur, 1)))
  {
    assert data + [] == data;
    if !IsEmpty(q[n..]) {
      assert q[n..][1..] == q[n + 1..];
      if q[n].more {
        Assoc(data, q[n].payload, R.Assemble(q[n + 1..], Add8(cur, 1)).data);
      }
    }
  }

  /** One more pop. */
  lemma PopManyNext(b: Buf, p: Port, n: nat, pol: Policy)
    requires n <= |b.Queue(p)| && pol.RxPolicy?
    ensures var (b', y) := Pop(R.PopMany(b, p, n), p, pol);
      if IsEmpty(b.Queue(p)[n..]) then y == None && b' == R.PopMany(b, p, n)
      else y == Some(b.Queue(p)[n]) && b' == R.PopMany(b, p, n + 1)
  {
    var q, c := b.Queue(p), R.PopMany(b, p, n);
    QueueOfPut(b, p, q[n..], p);
    assert c.Queue(p) == q[n..] by {
      if n == 0 { assert q[0..] == q; }
    }
    if !IsEmpty(q[n..]) {
      assert q[n..][1..] == q[n + 1..];
      PutTwice(b.queues, p, q[n..], q[n + 1..]);
    }
  }

  /** The assembly loop after `n` packets. */
  ghost predicate Midway(b: Buf, p: Port, cur0: Byte, n: nat, now: Buf, cur: Byte, data: seq<Byte>, len: Word) {
    && n <= |b.Queue(p)| && now == R.PopMany(b, p, n) && len == |data| % 0x10000
    && R.Assemble(b.Queue(p), cur0) == Prepend(n, data, R.Assemble(b.Queue(p)[n..], cur))
  }

  /** The assembly loop after its last turn. */
  ghost predicate Ended(b: Buf, p: Port, cur0: Byte, now: Buf, cur: Byte, data: seq<Byte>, len: Word, ending: R.Ending) {
    var a := R.Assemble(b.Queue(p), cur0);
    && a == R.Assembly(ending, a.popped, data, cur) && now == R.PopMany(b, p, a.popped) && len == |data| % 0x10000
  }

  lemma AtTheStart(b: Buf, p: Port, cur: Byte)
    ensures Midway(b, p, cur, 0, b, cur, [], 0)
  {
    var q := b.Queue(p);
    assert q[0..] == q;
    assert [] + R.Assemble(q, cur).data == R.Assemble(q, cur).data;
  }

  lemma MidwayNext(b: Buf, p: Port, cur0: Byte, n: nat, now: Buf, cur: Byte, data: seq<Byte>, len: Word, pol: Policy,
                   next: Buf, y: Option<Packet>)
    requires Midway(b, p, cur0, n, now, cur, data, len) && pol.RxPolicy? && (next, y) == Pop(now, p, pol)
    ensures match y
      case None => Ended(b, p, cur0, next, cur, data, len, R.NullPacket)
      case Some(x) =>
        var data', len' := data + x.payload, (len + |x.payload|) % 0x10000;
        if x.seqPort != cur then Ended(b, p, cur0, next, cur, data, len, R.Inconsistent)
        else if !x.more then Ended(b, p, cur0, next, Add8(cur, 1), data', len', R.Whole)
        else n < |b.Queue(p)| && Midway(b, p, cur0, n + 1, next, Add8(cur, 1), data', len')
  {
    PopManyNext(b, p, n, pol);
    AssembleNext(b.Queue(p), cur0, n, data, cur);
    if !IsEmpty(b.Queue(p)[n..]) {
      WrapLength(|data|, |b.Queue(p)[n].payload|);
    }
  }

  lemma WrapLength(m: nat, n: nat)
    ensures (m % 0x10000 + n) % 0x10000 == (m + n) % 0x10000
  {
    var q := m / 0x10000;
    assert m + n == 0x10000 * q + (m % 0x10000 + n);
    var r := (m % 0x10000 + n) / 0x10000;
    assert m + n == 0x10000 * (q + r) + (m % 0x10000 + n) % 0x10000;
  }

  /** The buffer when the flush has dealt with the ports below `n`. */
  ghost function FlushedBelow(rx: R.Rx, n: nat): Buf {
    var stale := set p | p in R.StalePorts(rx) && p < n;
    rx.buf.(queues := rx.buf.queues - stale, counter := rx.buf.counter - stale)
  }

  lemma NothingFlushed(rx: R.Rx)
    ensures FlushedBelow(rx, 0) == rx.buf
  {
  }

  lemma AllFlushed(rx: R.Rx)
    ensures FlushedBelow(rx, 128) == R.FlushQueues(rx).buf
  {
    assert (set p | p in R.StalePorts(rx) && p < 128) == R.StalePorts(rx);
  }

  lemma FlushNext(rx: R.Rx, p: Port)
    ensures FlushedBelow(rx, p + 1) ==
      if R.Stale(rx, p) then ClearPort(FlushedBelow(rx, p), p) else FlushedBelow(rx, p)
    ensures FlushedBelow(rx, p).Queue(p) == rx.buf.Queue(p)
  {
    var below := set r | r in R.StalePorts(rx) && r < p;
    var next := set r | r in R.StalePorts(rx) && r < p + 1;
    if R.Stale(rx, p) {
      assert next == below + {p};
      assert rx.buf.queues - next == rx.buf.queues - below - {p};
      assert rx.buf.counter - next == rx.buf.counter - below - {p};
    } else {
      assert next == below;
    }
  }

  /** The expected sequence numbers after the first `n` entries of a sync. */
  ghost function SyncedBelow(cur: map<Port, Byte>, sync: seq<Byte>, n: nat): map<Port, Byte>
    requires |sync| >= R.SYNC_LENGTH
  {
    cur + map p: Port | 0 <= p < n && p < 128 && R.SyncSeq(sync, p) != 0 :: R.SyncSeq(sync, p)
  }

  lemma SyncNext(cur: map<Port, Byte>, sync: seq<Byte>, p: Port)
    requires |sync| >= R.SYNC_LENGTH
    ensures SyncedBelow(cur, sync, p + 1) ==
      if sync[2 + p] != 0 then SyncedBelow(cur, sync, p)[p := sync[2 + p]] else SyncedBelow(cur, sync, p)
  {
  }

  class RxModule {
    const inBuffer: Buffer
    const code: Variant
    var active: bool
    var openPorts: set<Port>
    var currentPortSequence: map<Port, Byte>
    var availableMessages: set<Port>
    var toConsumeGlobalSeq: Byte
    var lastReceivedGlobalSeq: Byte
    var receivingWindow: Byte

    ghost predicate Valid()
      reads inBuffer, inBuffer.Repr
    {
      inBuffer.Valid() && this !in inBuffer.Repr
    }

    /** The module as a value. */
    ghost function State(): R.Rx
      reads this, inBuffer
    {
      R.Rx(active, openPorts, currentPortSequence, inBuffer.Abs(), availableMessages,
           toConsumeGlobalSeq, lastReceivedGlobalSeq, receivingWindow, code)
    }

    function Policy(): Policy
      reads this
    {
      RxPolicy(currentPortSequence, toConsumeGlobalSeq)
    }

    constructor (capacity: nat, code: Variant)
      ensures Valid() && fresh(inBuffer) && fresh(inBuffer.Repr)
      ensures State() == R.Rx(false, {}, map[], Buf(map[], map[], capacity), {}, 0, 0, 0, code)
    {
      inBuffer := new Buffer(capacity);
      this.code := code;
      active, openPorts, currentPortSequence, availableMessages := false, {}, map[], {};
      toConsumeGlobalSeq, lastReceivedGlobalSeq, receivingWindow := 0, 0, 0;
    }

    method OpenPort(port: Port) returns (result: int)
      requires Valid()
      modifies `openPorts
      ensures Valid() && State() == old(State()).(openPorts := if active then old(openPorts) + {port} else old(openPorts))
      ensures result == if !active then -2 else if port in old(openPorts) then -1 else 0
    {
      if !active {
        return R.MODULE_INACTIVE;
      }
      if port in openPorts {
        return PORT_ALREADY_OPEN;
      }
      openPorts := openPorts + {port};
      return CODE_SUCCESS;
    }

    method ClosePort(port: Port) returns (result: int)
      requires Valid()
      modifies `openPorts
      ensures Valid() && State() == old(State()).(openPorts := if active then old(openPorts) - {port} else old(openPorts))
      ensures result == if !active then -2 else if port in old(openPorts) then 0 else -1
    {
      if !active {
        return R.MODULE_INACTIVE;
      }
      if port in openPorts {
        openPorts := openPorts - {port};
        return CODE_SUCCESS;
      }
      return PORT_ALREADY_CLOSED;
    }

    method IsCompleteMessageForPortAvailable(port: Port) returns (result: bool)
      requires Valid()
      modifies inBuffer
      ensures Valid() && fresh(inBuffer.Repr - old(inBuffer.Repr)) && State() == old(State())
      ensures result == R.Complete(inBuffer.Held(port), At(currentPortSequence, port), code)
    {
      var q := inBuffer.GetQueue(port);
      result := Scan(q, At(currentPortSequence, port));
    }

    /** Walks the list nodes of a queue from the head. */
    method Scan(q: PriorityQueue, current: Byte) returns (result: bool)
      requires q.Valid()
      ensures result == R.Complete(q.elems, current, code)
    {
      var node, fragment: Byte := q.head, 0;
      ghost var k := 0;
      while node != null
        invariant k <= |q.nodes| && node == (if k < |q.nodes| then q.nodes[k] else null)
        invariant fragment == k % 256 && Passed(q.elems, current, code, k)
        decreases |q.nodes| - k
      {
        assert NodeOk(q.nodes, q.elems, k);
        var hdr := node.element;
        var expected: int := current + fragment;
        if code == Repaired {
          expected := expected % 256;
        }
        ExpectedAt(code, current, k);
        if hdr.seqPort != expected {
          break;
        } else if hdr.more && hdr.sub != fragment {
          break;
        } else if !hdr.more && hdr.sub == fragment {
          assert R.CompleteAt(q.elems, current, code, k);
          return true;
        }
        PassesNext(q.elems, current, code, k);
        fragment, node, k := Add8(fragment, 1), node.next, k + 1;
      }
      ScanFails(q.elems, current, code, k);
      return false;
    }

    method StartModule()
      modifies `active, `receivingWindow
      ensures State() == old(State()).(active := true, window := 0)
    {
      receivingWindow := 0;
      active := true;
    }

    /** Takes the sender's non-zero sequence numbers and reports the sync's id. */
    method SynchronizeStatus(sync: seq<Byte>) returns (syncId: Byte)
      requires Valid() && |sync| >= R.SYNC_LENGTH
      modifies `currentPortSequence, `lastReceivedGlobalSeq
      ensures Valid() && State() == R.Synchronize(old(State()), sync) && syncId == sync[0]
    {
      ghost var before := currentPortSequence;
      for i: int := 0 to 128
        invariant currentPortSequence == SyncedBelow(before, sync, i)
      {
        SyncNext(before, sync, i);
        if sync[2 + i] != 0 {
          currentPortSequence := currentPortSequence[i := sync[2 + i]];
        }
      }
      assert SyncedBelow(before, sync, 128) == R.Synchronize(old(State()), sync).cur;
      lastReceivedGlobalSeq := sync[1];
      syncId := sync[0];
    }

    /** Clears every active queue whose head is outside the reordering window. */
    method FlushQueues()
      requires Valid()
      modifies `toConsumeGlobalSeq, inBuffer, inBuffer.Repr
      ensures Valid() && fresh(inBuffer.Repr - old(inBuffer.Repr)) && State() == R.FlushQueues(old(State()))
    {
      ghost var rx, b := State(), inBuffer.Abs();
      var activeQueues := inBuffer.GetActiveQueues();
      NothingFlushed(rx);
      for port: int := 0 to 128
        invariant Valid() && fresh(inBuffer.Repr - old(inBuffer.Repr))
        invariant inBuffer.Abs() == FlushedBelow(rx, port) && toConsumeGlobalSeq == rx.globalBase
      {
        if port in activeQueues {
          FlushPort(port, rx);
        } else {
          FlushNext(rx, port);
        }
      }
      AllFlushed(rx);
      toConsumeGlobalSeq := lastReceivedGlobalSeq;
    }

    method FlushPort(port: Port, ghost rx: R.Rx)
      requires Valid() && rx.globalBase == toConsumeGlobalSeq && port in Active(rx.buf)
      requires inBuffer.Abs() == FlushedBelow(rx, port)
      modifies inBuffer, inBuffer.Repr
      ensures Valid() && fresh(inBuffer.Repr - old(inBuffer.Repr))
      ensures inBuffer.Abs() == FlushedBelow(rx, port + 1)
    {
      FlushNext(rx, port);
      var queue := inBuffer.GetQueue(port);
      var empty := queue.IsEmpty();
      if !empty {
        var packet := queue.Peek();
        var pktGlobalSequence := Sub8(packet.glob, toConsumeGlobalSeq);
        if pktGlobalSequence >= MAX_REORDERING_WINDOW {
          inBuffer.ClearQueueForPort(port);
        }
      }
    }

    /** Writes the packet to the buffer and updates the availability index. */
    method StorePacket(packet: Packet)
      requires Valid()
      modifies `availableMessages, inBuffer, inBuffer.Repr
      ensures Valid() && fresh(inBuffer.Repr - old(inBuffer.Repr)) && State() == R.Stored(old(State()), packet)
    {
      inBuffer.Write(packet, Policy());
      var complete := IsCompleteMessageForPortAvailable(packet.port);
      if complete {
        availableMessages := availableMessages + {packet.port};
      }
    }

    /** The bookkeeping of global sequence numbers and of the receiving window. */
    method CountPacket(packet: Packet)
      requires Valid()
      modifies `lastReceivedGlobalSeq, `receivingWindow, `toConsumeGlobalSeq, inBuffer, inBuffer.Repr
      ensures Valid() && fresh(inBuffer.Repr - old(inBuffer.Repr)) && State() == R.CountPacket(old(State()), packet)
    {
      var relativeGlobSeq := Sub8(packet.glob, toConsumeGlobalSeq);
      if relativeGlobSeq < R.RECEIVING_WINDOW_SIZE && relativeGlobSeq > lastReceivedGlobalSeq {
        lastReceivedGlobalSeq := packet.glob;
      }
      receivingWindow := Add8(receivingWindow, 1);
      if receivingWindow >= R.RECEIVING_WINDOW_SIZE {
        FlushQueues();
        receivingWindow := 0;
      }
    }

    /** Returns the code and, for an accepted sync, the id to hand to `onSynchronization`. */
    method HandleReceivedPacket(packet: Packet) returns (code: int, syncId: Option<Byte>)
      requires Valid() && R.WellFormed(packet) && |packet.payload| < 0x4000
      modifies this, inBuffer, inBuffer.Repr
      ensures Valid() && fresh(inBuffer.Repr - old(inBuffer.Repr))
      ensures (State(), code) == R.Handle(old(State()), packet)
      ensures syncId == if code == CODE_SUCCESS && packet.kind == SYNC then Some(packet.payload[0]) else None
    {
      hide Valid;
      syncId := None;
      if !active {
        return R.MODULE_INACTIVE, None;
      }
      var ok := VerifyChecksum(packet.payload, packet.crc);
      if !ok {
        return R.CODE_ERROR_CRC_INVALID, None;
      }
      if packet.kind == SYNC {
        var id := SynchronizeStatus(packet.payload);
        return CODE_SUCCESS, Some(id);
      } else if packet.kind != DATA {
        return R.CODE_ERROR_INVALID_TYPE, None;
      }
      if packet.port !in openPorts {
        return R.CODE_ERROR_PORT_CLOSED, None;
      }
      StorePacket(packet);
      CountPacket(packet);
      return CODE_SUCCESS, None;
    }

    method GetNextCompleteMessage() returns (outcome: R.Outcome)
      requires Valid()
      modifies this, inBuffer, inBuffer.Repr
      ensures Valid() && fresh(inBuffer.Repr - old(inBuffer.Repr))
      ensures outcome == R.Consume(old(State())).1
      ensures !outcome.Crashed? ==> State() == R.Consume(old(State())).0
    {
      hide BufferObjects.Buffer.Valid;
      if !active {
        return R.Inactive;
      }
      if availableMessages == {} {
        return R.NoMessages;
      }
      var port := R.Lowest(availableMessages);
      var ending, assembledData, len := AssembleMessage(port);
      match ending
      case NullPacket => return R.Crashed(port);
      case Inconsistent => return R.Stuck(port);
      case Whole =>
        var more := IsCompleteMessageForPortAvailable(port);
        if more {
          availableMessages := availableMessages + {port};
        } else {
          availableMessages := availableMessages - {port};
        }
        return R.Delivered(port, assembledData, len);
    }

    /** The loop of getNextCompleteMessage: pops the port's packets and appends their payloads. */
    method AssembleMessage(port: Port) returns (ending: R.Ending, assembledData: seq<Byte>, len: Word)
      requires Valid()
      modifies `currentPortSequence, inBuffer, inBuffer.Repr
      ensures Valid() && fresh(inBuffer.Repr - old(inBuffer.Repr))
      ensures Ended(old(inBuffer.Abs()), port, At(old(currentPortSequence), port),
                    inBuffer.Abs(), At(currentPortSequence, port), assembledData, len, ending)
      ensures ending != R.NullPacket ==>
        currentPortSequence == old(currentPortSequence)[port := At(currentPortSequence, port)]
    {
      hide Valid, Midway;
      assembledData, len := [], 0;
      ghost var b, cur, n := inBuffer.Abs(), At(currentPortSequence, port), 0;
      AtTheStart(b, port, cur);
      while true
        invariant Valid() && fresh(inBuffer.Repr - old(inBuffer.Repr))
        invariant Midway(b, port, cur, n, inBuffer.Abs(), At(currentPortSequence, port), assembledData, len)
        invariant currentPortSequence == old(currentPortSequence)
          || currentPortSequence == old(currentPortSequence)[port := At(currentPortSequence, port)]
        decreases |b.Queue(port)| - n
      {
        var done;
        done, assembledData, len := AppendNext(port, assembledData, len, b, cur, n);
        if done.Some? {
          return done.value, assembledData, len;
        }
        n := n + 1;
      }
    }

    /** One turn of that loop. */
    method AppendNext(port: Port, data: seq<Byte>, len: Word, ghost b: Buf, ghost cur: Byte, ghost n: nat)
      returns (done: Option<R.Ending>, data': seq<Byte>, len': Word)
      requires Valid() && Midway(b, port, cur, n, inBuffer.Abs(), At(currentPortSequence, port), data, len)
      modifies `currentPortSequence, inBuffer, inBuffer.Repr
      ensures Valid() && fresh(inBuffer.Repr - old(inBuffer.Repr))
      ensures var c := At(currentPortSequence, port);
        match done
        case None => n < |b.Queue(port)| && Midway(b, port, cur, n + 1, inBuffer.Abs(), c, data', len')
        case Some(ending) => Ended(b, port, cur, inBuffer.Abs(), c, data', len', ending)
      ensures if done == Some(R.NullPacket) then currentPortSequence == old(currentPortSequence)
        else currentPortSequence == old(currentPortSequence)[port := At(currentPortSequence, port)]
    {
      data', len' := data, len;
      var current := At(currentPortSequence, port);
      ghost var now := inBuffer.Abs();
      var pkt := inBuffer.PopPacketInternal(port, Policy());
      MidwayNext(b, port, cur, n, now, current, data, len, Policy(), inBuffer.Abs(), pkt);
      if pkt.None? {
        return Some(R.NullPacket), data, len;
      }
      if pkt.value.seqPort != current {
        currentPortSequence := currentPortSequence[port := current]; // reading the map has created the entry
        return Some(R.Inconsistent), data, len;
      }
      data', len' := data + pkt.value.payload, (len + |pkt.value.payload|) % 0x10000;
      currentPortSequence := currentPortSequence[port := Add8(current, 1)];
      done := if pkt.value.more then None else Some(R.Whole);
    }
  }
}
