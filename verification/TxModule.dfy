/** TxModule.cpp: the sender's fields, changed in place. Each method is proved against the functions of `Sender`. */
module TxModules {
  import opened Words
  import opened Crc
  import opened Packets
  import opened Queues
  import opened Buffers
  import opened BufferObjects
  import T = Sender

  lemma SyncPayloadIs(tx: T.Tx, portSeq: seq<Byte>)
    requires |portSeq| == 128 && forall i :: 0 <= i < 128 ==> portSeq[i] == At(tx.portSeq, i)
    ensures T.SyncPayload(tx) == [tx.syncId, tx.glob] + portSeq
  {
    assert portSeq == seq(128, i requires 0 <= i < 128 => At(tx.portSeq, i));
  }

  /** Looking in vain for a packet leaves the buffer alone. */
  lemma NothingChosen(tx: T.Tx)
    requires T.Choose(tx).1.None?
    ensures T.Choose(tx).0 == tx.buf
  {
  }

  class TxModule {
    const outBuffer: Buffer
    var active: bool
    var state: T.State
    var portSequence: map<Port, Byte>
    var toConsumePortSeq: map<Port, Byte>
    var globalSeqNum: Byte
    var sendingFragments: bool
    var currentPort: Port
    var channelBlacklist: set<Byte>
    var scheduledSync: bool
    var syncId: Byte

    ghost predicate Valid()
      reads outBuffer, outBuffer.Repr
    {
      outBuffer.Valid() && this !in outBuffer.Repr
    }

    /** The module as a value. */
    ghost function State(): T.Tx
      reads this, outBuffer
    {
      T.Tx(active, state, outBuffer.Abs(), portSequence, toConsumePortSeq, globalSeqNum, sendingFragments,
           currentPort, channelBlacklist, scheduledSync, syncId)
    }

    function Policy(): Policy
      reads this
    {
      TxPolicy(toConsumePortSeq, channelBlacklist)
    }

    constructor (capacity: nat)
      ensures Valid() && fresh(outBuffer) && fresh(outBuffer.Repr)
      ensures State() == T.Tx(false, T.WAITING, Buf(map[], map[], capacity), map[], map[], 0, false, 0, {}, false, 0)
    {
      outBuffer := new Buffer(capacity);
      active, state, portSequence, toConsumePortSeq := false, T.WAITING, map[], map[];
      globalSeqNum, sendingFragments, currentPort, channelBlacklist := 0, false, 0, {};
      scheduledSync, syncId := false, 0;
    }

    method StartRoutine()
      modifies `active
      ensures State() == old(State()).(active := true)
    {
      active := true;
    }

    method ScheduleSync(id: Byte)
      requires Valid()
      modifies `scheduledSync, `syncId
      ensures Valid() && State() == T.ScheduleSync(old(State()), id)
    {
      scheduledSync := true;
      syncId := id;
    }

    method SetChannelAvailable(channel: Byte, available: bool)
      requires Valid()
      modifies `channelBlacklist
      ensures Valid() && State() == T.SetChannelAvailable(old(State()), channel, available)
    {
      if available {
        channelBlacklist := channelBlacklist - {channel};
      } else {
        channelBlacklist := channelBlacklist + {channel};
      }
    }

    method IsQueueAvailable(port: Port, noPackets: Byte) returns (result: bool)
      requires Valid()
      ensures result == (Size(outBuffer.Held(port)) + noPackets <= T.MAX_QUEUE_SIZE)
    {
      var size := outBuffer.GetSizeOfQueue(port);
      result := size + noPackets <= T.MAX_QUEUE_SIZE;
    }

    /** Numbers the packet, computes its checksum and writes it to the buffer. */
    method EnqueuePacket(port: Port, channel: Byte, payload: seq<Byte>, fragNo: Byte, moreFragments: bool, idx: nat)
      returns (code: int)
      requires Valid() && |payload| < 0x4000
      modifies `portSequence, outBuffer, outBuffer.Repr
      ensures Valid() && fresh(outBuffer.Repr - old(outBuffer.Repr))
      ensures (State(), code) == T.Enqueue(old(State()), port, channel, payload, fragNo, moreFragments, idx)
    {
      if !active {
        return T.CODE_INACTIVE_ERROR;
      }
      var seqPort := At(portSequence, port);
      portSequence := portSequence[port := Add8(seqPort, 1)];
      var crc := CalcChecksum(payload);
      outBuffer.Write(Packet(DATA, port, moreFragments, fragNo, seqPort, 0, crc, payload, channel, idx), Policy());
      return CODE_SUCCESS;
    }

    /** Fills in the sync packet. */
    method SynchronizeStatus() returns (frame: Packet)
      requires Valid()
      ensures frame == T.SyncPacket(State())
    {
      var portSeq: seq<Byte> := seq(128, i => 0);
      for p: int := 0 to 128
        invariant |portSeq| == 128
        invariant forall i :: 0 <= i < 128 ==> portSeq[i] == if i < p then At(portSequence, i) else 0
      {
        if p in portSequence {
          portSeq := portSeq[p := portSequence[p]];
        }
      }
      var payload := [syncId, globalSeqNum] + portSeq;
      SyncPayloadIs(State(), portSeq);
      var crc := CalcChecksum(payload);
      frame := Packet(SYNC, 0, false, 0, 0, 0, crc, payload, T.DEFAULT_SYNC_CHANNEL, 0);
    }

    /** A sync goes before any other packet. */
    method SyncPhase(syncFull: bool) returns (frames: seq<Packet>)
      requires Valid()
      modifies `channelBlacklist, `scheduledSync
      ensures Valid() && (State(), frames) == T.SyncPhase(old(State()), syncFull)
    {
      frames := [];
      if scheduledSync && T.DEFAULT_SYNC_CHANNEL !in channelBlacklist {
        if syncFull {
          channelBlacklist := channelBlacklist + {T.DEFAULT_SYNC_CHANNEL};
        } else {
          var frame := SynchronizeStatus();
          frames := [frame];
          scheduledSync := false;
        }
      }
    }

    /** Takes the next packet: of the current message while it is being sent, of any port otherwise. */
    method NextPacket() returns (packet: Option<Packet>)
      requires Valid()
      modifies outBuffer, outBuffer.Repr
      ensures Valid() && fresh(outBuffer.Repr - old(outBuffer.Repr))
      ensures (outBuffer.Abs(), packet) == T.Choose(old(State()))
    {
      if sendingFragments {
        packet := outBuffer.PopPacketInternal(currentPort, Policy());
      } else {
        packet := outBuffer.GetNextAvailablePacket(Policy());
      }
    }

    /** Stamps the packet with the global sequence number and advances the counters. */
    method Emit(packet: Packet) returns (hdr: Packet)
      modifies `state, `currentPort, `sendingFragments, `globalSeqNum, `toConsumePortSeq
      ensures hdr == packet.(glob := old(globalSeqNum))
      ensures State() == old(State()).(
        state := T.RUNNING, current := packet.port, sending := packet.more,
        glob := if packet.more then old(globalSeqNum) else Add8(old(globalSeqNum), 1),
        toConsume := old(toConsumePortSeq)[packet.port := Add8(At(old(toConsumePortSeq), packet.port), 1)])
    {
      state := T.RUNNING;
      hdr := packet;
      currentPort := hdr.port;
      sendingFragments := hdr.more;
      hdr := hdr.(glob := globalSeqNum);
      if !hdr.more {
        globalSeqNum := Add8(globalSeqNum, 1);
      }
      toConsumePortSeq := toConsumePortSeq[hdr.port := Add8(At(toConsumePortSeq, hdr.port), 1)];
    }

    method DataPhase() returns (frames: seq<Packet>)
      requires Valid()
      modifies this, outBuffer, outBuffer.Repr
      ensures Valid() && fresh(outBuffer.Repr - old(outBuffer.Repr))
      ensures (State(), frames) == T.DataPhase(old(State()))
    {
      var available := outBuffer.PacketsAvailable();
      if !available {
        state := T.WAITING;
        return [];
      }
      var packet := NextPacket();
      if packet.None? {
        NothingChosen(old(State()));
        state := T.BLOCKED;
        return [];
      }
      var hdr := Emit(packet.value);
      return [hdr];
    }

    /** One turn of the loop of `txRoutine`: the frames handed to the link. */
    method TxRoutineTurn(linkUp: bool, syncFull: bool) returns (frames: seq<Packet>)
      requires Valid()
      modifies this, outBuffer, outBuffer.Repr
      ensures Valid() && fresh(outBuffer.Repr - old(outBuffer.Repr))
      ensures (State(), frames) == T.Iterate(old(State()), linkUp, syncFull)
    {
      if !linkUp || |channelBlacklist| >= T.S3TP_VIRTUAL_CHANNELS {
        state := T.BLOCKED;
        return [];
      }
      var sync := SyncPhase(syncFull);
      var data := DataPhase();
      frames := sync + data;
    }
  }
}
