/** S3TP.cpp: the object that ties the modules together, cuts messages and answers syncs. */
module S3TPs {
  import opened Words
  import opened Crc
  import opened Packets
  import opened Buffers
  import opened Fragmentation
  import opened RxModules
  import opened TxModules
  import R = Receiver
  import S = SyncProtocol
  import T = Sender

  /** An inactive sender takes nothing. */
  lemma {:induction false} InactiveTakesNothing(tx: T.Tx, p: Port, channel: Byte, parts: seq<seq<Byte>>, n: nat, idx: nat)
    requires n <= |parts| && !tx.active
    ensures T.EnqueueParts(tx, p, channel, parts, n, idx) == tx
  {
    if n > 0 {
      InactiveTakesNothing(tx, p, channel, parts, n - 1, idx);
    }
  }

  lemma {:induction false} StaysActive(tx: T.Tx, p: Port, channel: Byte, parts: seq<seq<Byte>>, n: nat, idx: nat)
    requires n <= |parts|
    ensures T.EnqueueParts(tx, p, channel, parts, n, idx).active == tx.active
  {
    if n > 0 {
      StaysActive(tx, p, channel, parts, n - 1, idx);
    }
  }

  lemma EnqueueCode(tx: T.Tx, p: Port, channel: Byte, payload: seq<Byte>, frag: Byte, more: bool, idx: nat)
    ensures var (next, code) := T.Enqueue(tx, p, channel, payload, frag, more, idx);
      && next.active == tx.active && code == (if tx.active then 0 else -1)
  {
  }

  lemma InactiveThroughout(tx: T.Tx, p: Port, channel: Byte, parts: seq<seq<Byte>>, n: nat, idx: nat)
    requires n <= |parts|
    ensures !T.EnqueueParts(tx, p, channel, parts, n, idx).active ==>
      T.EnqueueParts(tx, p, channel, parts, n, idx) == T.EnqueueParts(tx, p, channel, parts, |parts|, idx)
  {
    StaysActive(tx, p, channel, parts, n, idx);
    if !tx.active {
      InactiveTakesNothing(tx, p, channel, parts, n, idx);
      InactiveTakesNothing(tx, p, channel, parts, |parts|, idx);
    }
  }

  /** Enqueueing fragment `k`. */
  lemma EnqueueTurn(before: T.Tx, now: T.Tx, p: Port, channel: Byte, parts: seq<seq<Byte>>, k: nat, idx: nat,
                    frag: Byte, more: bool)
    requires k < |parts| && frag == k && more == (k + 1 < |parts|)
    requires now == T.EnqueueParts(before, p, channel, parts, k, idx)
    ensures T.Enqueue(now, p, channel, parts[k], frag, more, idx + k).0
      == T.EnqueueParts(before, p, channel, parts, k + 1, idx)
  {
    T.PartsNext(before, now, p, channel, parts, k, idx);
    assert k % 256 == frag;
  }

  /** The local variables of `fragmentPayload` before turn `k`; the pointer is not used after the last turn. */
  ghost predicate Cutting(v: Variant, len: nat, k: nat, written: nat, dataPtr: nat, fragment: Byte, more: bool) {
    && k <= Count(len) && written == Covered(len, k) && fragment == k && more == (k < Count(len))
    && (k < Count(len) ==> dataPtr == Offset(v, k))
  }

  lemma CuttingCount(v: Variant, len: nat, k: nat, written: nat, dataPtr: nat, fragment: Byte, more: bool)
    requires Cutting(v, len, k, written, dataPtr, fragment, more)
    ensures k == fragment <= Count(len) && more == (k < Count(len))
  {
  }

  lemma NothingEnqueued(tx: T.Tx, p: Port, channel: Byte, parts: seq<seq<Byte>>, idx: nat)
    ensures T.EnqueueParts(tx, p, channel, parts, 0, idx) == tx
  {
  }

  lemma StartsCutting(v: Variant, len: nat)
    requires len > 0
    ensures Cutting(v, len, 0, 0, 0, 0, true)
  {
    CountBounds(len);
  }

  /** The length computed in turn `k` of `fragmentPayload` is that of fragment `k`. */
  lemma LengthInTurn(len: nat, k: nat)
    requires len > LEN_PDU && k < Count(len)
    ensures var done, n := Covered(len, k), PartLength(len, k);
      && done < len && n == (if done + LEN_PDU > len then len - done else LEN_PDU) <= LEN_PDU
      && Covered(len, k + 1) == done + n && (done + n < len <==> k + 1 < Count(len))
      && (k + 1 < Count(len) ==> done + n == LEN_PDU * (k + 1))
  {
    CountBounds(len);
    hide Count;
    CoveredNext(len, k);
  }

  /** Turn `k` of `fragmentPayload` cuts fragment `k`. */
  lemma CutInTurn(v: Variant, mem: seq<Byte>, len: nat, k: nat, done: nat, ptr: nat, fragment: Byte)
    requires LEN_PDU < len <= |mem| && len <= MAX_MESSAGE && Extent(v, len) <= |mem|
    requires Cutting(v, len, k, done, ptr, fragment, true)
    ensures var n := if done + LEN_PDU > len then len - done else LEN_PDU;
      && k < Count(len) && ptr + n <= |mem| && n <= LEN_PDU && mem[ptr..ptr + n] == Cut(v, mem, len)[k]
      && (done + n < len <==> k + 1 < Count(len))
      && Cutting(v, len, k + 1, done + n, ptr + (if v == AsWritten then done + n else n),
                 Add8(fragment, 1), done + n < len)
  {
    LengthInTurn(len, k);
    PayloadInTurn(v, mem, len, k);
    CountBounds(len);
    NextOffset(v, k);
    hide Count, Offset, Extent, Cut, Covered, PartLength;
  }

  lemma NextOffset(v: Variant, k: nat)
    ensures Offset(v, k + 1) == Offset(v, k) + if v == AsWritten then LEN_PDU * (k + 1) else LEN_PDU
  {
  }

  lemma PayloadInTurn(v: Variant, mem: seq<Byte>, len: nat, k: nat)
    requires len <= |mem| && Extent(v, len) <= |mem| && k < Count(len)
    ensures var ptr, n := Offset(v, k), PartLength(len, k);
      ptr + n <= |mem| && mem[ptr..ptr + n] == Cut(v, mem, len)[k]
  {
    InExtent(v, len, k);
    CutPart(v, mem, len, Count(len), k);
  }

  class S3TP {
    const tx: TxModule
    const rx: RxModule
    var active: bool
    /** The ports with a connected client. */
    var clients: set<Port>

    ghost function TxRepr(): set<object>
      reads tx.outBuffer
    {
      {tx, tx.outBuffer} + tx.outBuffer.Repr
    }

    ghost function RxRepr(): set<object>
      reads rx.inBuffer
    {
      {rx, rx.inBuffer} + rx.inBuffer.Repr
    }

    ghost predicate Valid()
      reads TxRepr(), RxRepr()
    {
      && tx.Valid() && rx.Valid()
      && TxRepr() !! RxRepr() && this !in TxRepr() && this !in RxRepr()
    }

    ghost function Node(): S.Node
      reads this, tx, tx.outBuffer, rx, rx.inBuffer
    {
      S.Node(tx.State(), rx.State(), clients != {})
    }

    constructor (capacity: nat, code: Variant)
      ensures Valid() && !active && clients == {} && fresh(TxRepr()) && fresh(RxRepr()) && rx.code == code
      ensures tx.State() == T.Tx(false, T.WAITING, Buf(map[], map[], capacity), map[], map[], 0, false, 0, {}, false, 0)
      ensures rx.State() == R.Rx(false, {}, map[], Buf(map[], map[], capacity), {}, 0, 0, 0, code)
    {
      tx := new TxModule(capacity);
      rx := new RxModule(capacity, code);
      active, clients := false, {};
    }

    /** Starts both modules. */
    method Init()
      requires Valid()
      modifies this, tx, rx
      ensures Valid() && active && clients == old(clients)
      ensures tx.State() == old(tx.State()).(active := true)
      ensures rx.State() == old(rx.State()).(active := true, window := 0)
    {
      hide BufferObjects.Buffer.Valid;
      active := true;
      rx.StartModule();
      tx.StartRoutine();
    }

    /** Asks for a sync if any client is there to profit from it. */
    method SynchronizeStatus(syncId: Byte)
      requires Valid()
      modifies tx
      ensures Valid() && rx.State() == old(rx.State())
      ensures tx.State() == if clients != {} then T.ScheduleSync(old(tx.State()), syncId) else old(tx.State())
    {
      if clients != {} {
        tx.ScheduleSync(syncId);
      }
    }

    /** An initiating sync is answered, an acknowledging one is not. */
    method OnSynchronization(syncId: Byte)
      requires Valid()
      modifies tx
      ensures Valid() && rx.State() == old(rx.State())
      ensures tx.State() == if syncId == T.SYNC_INITIATOR && clients != {}
        then T.ScheduleSync(old(tx.State()), T.SYNC_ACK) else old(tx.State())
    {
      if syncId == T.SYNC_INITIATOR {
        SynchronizeStatus(T.SYNC_ACK);
      }
    }

    /** A frame arrives at the receiver, which calls back. */
    method HandleFrame(packet: Packet) returns (code: int)
      requires Valid() && R.WellFormed(packet) && |packet.payload| < 0x4000
      modifies tx, RxRepr()
      ensures Valid() && Node() == S.Receive(old(Node()), packet) && code == R.Handle(old(rx.State()), packet).1
      ensures tx.State() ==
        if old(rx.active) && packet.kind == SYNC && packet.crc == Checksum(packet.payload) && packet.payload[0] == 0
           && clients != {}
        then old(tx.State()).(scheduled := true, syncId := 0xFF) else old(tx.State())
    {
      var syncId;
      code, syncId := rx.HandleReceivedPacket(packet);
      if syncId.Some? {
        OnSynchronization(syncId.value);
      }
    }

    method OnConnected(port: Port)
      requires Valid()
      modifies this, tx, rx
      ensures Valid() && clients == old(clients) + {port}
      ensures tx.State() == T.ScheduleSync(old(tx.State()), T.SYNC_INITIATOR)
      ensures rx.State() == old(rx.State()).(
        openPorts := if rx.active then old(rx.openPorts) + {port} else old(rx.openPorts))
    {
      clients := clients + {port};
      var _ := rx.OpenPort(port);
      SynchronizeStatus(T.SYNC_INITIATOR);
    }

    method OnLinkStatusChanged(linkUp: bool)
      requires Valid()
      modifies tx
      ensures Valid() && rx.State() == old(rx.State())
      ensures tx.State() == if linkUp && clients != {} then T.ScheduleSync(old(tx.State()), T.SYNC_INITIATOR)
                            else old(tx.State())
    {
      if linkUp {
        SynchronizeStatus(T.SYNC_INITIATOR);
      }
    }

    method CheckTransmissionAvailability(port: Port, channel: Byte, msgLen: Word) returns (code: int)
      requires Valid()
      ensures code == T.CheckAvailability(tx.State(), port, channel, msgLen)
      ensures code == CODE_SUCCESS <==>
        tx.state != T.BLOCKED && Size(tx.outBuffer.Held(port)) + (msgLen + 991) / 992 <= 0x100000
        && channel !in tx.channelBlacklist
    {
      if tx.state == T.BLOCKED {
        return T.CODE_LINK_UNAVAILABLE;
      }
      var noPackets: Byte := (msgLen / LEN_PDU) % 256;
      if msgLen % LEN_PDU > 0 {
        noPackets := Add8(noPackets, 1);
      }
      PredictedBySteps(msgLen);
      var room := tx.IsQueueAvailable(port, noPackets);
      if !room {
        return T.CODE_QUEUE_FULL;
      } else if channel in tx.channelBlacklist {
        return T.CODE_CHANNEL_BROKEN;
      }
      return CODE_SUCCESS;
    }

    lemma PredictedBySteps(len16: Word)
      ensures Predicted(len16) == if len16 % LEN_PDU > 0 then Add8((len16 / LEN_PDU) % 256, 1) else (len16 / LEN_PDU) % 256
    {
      AddMod(len16 / LEN_PDU, 1);
    }

    /** `data` of the source is the memory `mem`, of which the message takes the first `len` bytes. */
    method SendToLinkLayer(channel: Byte, port: Port, mem: seq<Byte>, len: nat, idx: nat) returns (code: int)
      requires Valid() && len <= |mem| && (len <= MAX_MESSAGE ==> Extent(rx.code, len) <= |mem|)
      modifies TxRepr()
      ensures Valid() && rx.State() == old(rx.State())
      ensures var admission := T.Admission(old(tx.State()), port, channel, len);
        if !active then code == -3 && tx.State() == old(tx.State())
        else if admission != CODE_SUCCESS then code == admission && tx.State() == old(tx.State())
        else
          && tx.State() == T.EnqueueParts(old(tx.State()), port, channel, Cut(rx.code, mem, len), Count(len), idx)
          && code == (if tx.active then CODE_SUCCESS else T.CODE_INACTIVE_ERROR)
    {
      if active {
        var availability := CheckTransmissionAvailability(port, channel, len % 0x10000);
        if availability != CODE_SUCCESS {
          return availability;
        }
        if len > MAX_MESSAGE {
          return T.CODE_ERROR_MAX_MESSAGE_SIZE;
        } else if len > LEN_PDU {
          code := FragmentPayload(channel, port, mem, len, idx);
          return code;
        } else {
          code := SendSimplePayload(channel, port, mem, len, idx);
          return code;
        }
      }
      return T.CODE_INTERNAL_ERROR;
    }

    /** `enqueuePacket` leaves the receiver alone. */
    method Enqueue(port: Port, channel: Byte, payload: seq<Byte>, fragNo: Byte, more: bool, idx: nat) returns (code: int)
      requires Valid() && |payload| < 0x4000
      modifies TxRepr()
      ensures Valid() && rx.State() == old(rx.State()) && fresh(TxRepr() - old(TxRepr()))
      ensures (tx.State(), code) == T.Enqueue(old(tx.State()), port, channel, payload, fragNo, more, idx)
    {
      code := tx.EnqueuePacket(port, channel, payload, fragNo, more, idx);
    }

    /** Enqueues fragment `k`; an inactive sender takes none. */
    method EnqueueFragment(port: Port, channel: Byte, payload: seq<Byte>, fragment: Byte, more: bool, idx: nat,
                           ghost before: T.Tx, ghost parts: seq<seq<Byte>>, ghost k: nat) returns (code: int)
      requires Valid() && |payload| < 0x4000
      requires k == fragment < |parts| && payload == parts[k] && more == (k + 1 < |parts|)
      requires tx.State() == T.EnqueueParts(before, port, channel, parts, k, idx)
      modifies TxRepr()
      ensures Valid() && rx.State() == old(rx.State()) && fresh(TxRepr() - old(TxRepr()))
      ensures tx.State() == T.EnqueueParts(before, port, channel, parts, k + 1, idx)
      ensures code == if tx.active then CODE_SUCCESS else T.CODE_INACTIVE_ERROR
    {
      ghost var now := tx.State();
      EnqueueTurn(before, now, port, channel, parts, k, idx, fragment, more);
      EnqueueCode(now, port, channel, payload, fragment, more, idx + fragment);
      code := Enqueue(port, channel, payload, fragment, more, idx + fragment);
    }

    method SendSimplePayload(channel: Byte, port: Port, mem: seq<Byte>, len: nat, idx: nat) returns (code: int)
      requires Valid() && len <= LEN_PDU && len <= |mem|
      modifies TxRepr()
      ensures Valid() && rx.State() == old(rx.State())
      ensures Extent(rx.code, len) <= |mem|
      ensures tx.State() == T.EnqueueParts(old(tx.State()), port, channel, Cut(rx.code, mem, len), Count(len), idx)
      ensures code == if tx.active then CODE_SUCCESS else T.CODE_INACTIVE_ERROR
    {
      SinglePart(rx.code, mem, len);
      code := EnqueueFragment(port, channel, mem[..len], 0, false, idx, tx.State(), [mem[..len]], 0);
    }

    method FragmentPayload(channel: Byte, port: Port, mem: seq<Byte>, len: nat, idx: nat) returns (code: int)
      requires Valid() && LEN_PDU < len <= MAX_MESSAGE && len <= |mem| && Extent(rx.code, len) <= |mem|
      modifies TxRepr()
      ensures Valid() && rx.State() == old(rx.State())
      ensures tx.State() == T.EnqueueParts(old(tx.State()), port, channel, Cut(rx.code, mem, len), Count(len), idx)
      ensures code == if tx.active then CODE_SUCCESS else T.CODE_INACTIVE_ERROR
    {
      hide BufferObjects.Buffer.Valid, Cut, Count, Extent, Cutting, T.EnqueueParts;
      var written: nat, dataPtr: nat, fragment: Byte, moreFragments := 0, 0, 0, true;
      code := CODE_SUCCESS;
      ghost var before, parts, k := tx.State(), Cut(rx.code, mem, len), 0;
      StartsCutting(rx.code, len);
      NothingEnqueued(before, port, channel, parts, idx);
      while written < len
        invariant Valid() && rx.State() == old(rx.State()) && fresh(TxRepr() - old(TxRepr()))
        invariant Cutting(rx.code, len, k, written, dataPtr, fragment, moreFragments) && moreFragments == (written < len)
        invariant k <= |parts| && tx.State() == T.EnqueueParts(before, port, channel, parts, k, idx)
        invariant code == CODE_SUCCESS && (k > 0 ==> tx.active)
        decreases Count(len) - k
      {
        var payload;
        CuttingCount(rx.code, len, k, written, dataPtr, fragment, moreFragments);
        payload, written, dataPtr, moreFragments := CutFragment(mem, len, written, dataPtr, fragment, k);
        code := EnqueueFragment(port, channel, payload, fragment, moreFragments, idx, before, parts, k);
        if code != CODE_SUCCESS {
          InactiveThroughout(before, port, channel, parts, k + 1, idx);
          return code;
        }
        fragment, k := Add8(fragment, 1), k + 1;
      }
      CuttingCount(rx.code, len, k, written, dataPtr, fragment, moreFragments);
    }

    method CutFragment(mem: seq<Byte>, len: nat, written: nat, dataPtr: nat, fragment: Byte, ghost k: nat)
      returns (payload: seq<Byte>, written': nat, dataPtr': nat, moreFragments: bool)
      requires LEN_PDU < len <= MAX_MESSAGE && len <= |mem| && Extent(rx.code, len) <= |mem|
      requires Cutting(rx.code, len, k, written, dataPtr, fragment, true)
      ensures k < Count(len) && payload == Cut(rx.code, mem, len)[k] && |payload| <= LEN_PDU
      ensures Cutting(rx.code, len, k + 1, written', dataPtr', Add8(fragment, 1), moreFragments)
      ensures moreFragments == (k + 1 < Count(len)) == (written' < len)
    {
      CutInTurn(rx.code, mem, len, k, written, dataPtr, fragment);
      var pduLen := if written + LEN_PDU > len then len - written else LEN_PDU;
      payload := mem[dataPtr..dataPtr + pduLen];
      written' := written + pduLen;
      dataPtr' := dataPtr + if rx.code == AsWritten then written' else pduLen;
      moreFragments := written' < len;
    }
  }
}
