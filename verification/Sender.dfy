/** `TxModule` as functions of its fields, and the checks `S3TP::sendToLinkLayer` makes before enqueueing. */
module Sender {
  import opened Words
  import opened Crc
  import opened Packets
  import opened Queues
  import opened Buffers
  import opened Fragmentation

  const CODE_INACTIVE_ERROR := -1
  const CODE_ERROR_MAX_MESSAGE_SIZE := -2
  const CODE_INTERNAL_ERROR := -3
  const CODE_QUEUE_FULL := -4
  const CODE_LINK_UNAVAILABLE := -5
  const CODE_CHANNEL_BROKEN := -6
  const S3TP_VIRTUAL_CHANNELS := 7
  const DEFAULT_SYNC_CHANNEL := 0
  /** MAX_QUEUE_SIZE, which expands to 1 * 1 << 20 */
  const MAX_QUEUE_SIZE := 0x10_0000
  const SYNC_INITIATOR: Byte := 0
  const SYNC_ACK: Byte := 0xFF

  datatype State = RUNNING | BLOCKED | WAITING

  datatype Tx = Tx(
    active: bool,
    state: State,
    buf: Buf,                     // outBuffer
    portSeq: map<Port, Byte>,     // port_sequence
    toConsume: map<Port, Byte>,   // to_consume_port_seq
    glob: Byte,                   // global_seq_num
    sending: bool,                // sendingFragments
    current: Port,                // currentPort
    blocked: set<Byte>,           // channel_blacklist
    scheduled: bool,              // scheduled_sync
    syncId: Byte)                 // the id in the one sync packet
  {
    function Policy(): Policy {
      TxPolicy(toConsume, blocked)
    }
  }

  /** The packet `enqueuePacket` writes to the buffer. The global sequence is filled in on emission. */
  function Stamp(tx: Tx, p: Port, channel: Byte, payload: seq<Byte>, frag: Byte, more: bool, idx: nat): Packet {
    Packet(DATA, p, more, frag, At(tx.portSeq, p), 0, Checksum(payload), payload, channel, idx)
  }

  function Enqueue(tx: Tx, p: Port, channel: Byte, payload: seq<Byte>, frag: Byte, more: bool, idx: nat): (Tx, int) {
    if !tx.active then (tx, CODE_INACTIVE_ERROR)
    else
      var x := Stamp(tx, p, channel, payload, frag, more, idx);
      var portSeq := tx.portSeq[p := Add8(At(tx.portSeq, p), 1)];
      (tx.(portSeq := portSeq, buf := Write(tx.buf, x, tx.Policy())), CODE_SUCCESS)
  }

  /** The first `n` fragments of a message enqueued one after the other, numbered from `idx` on. */
  function EnqueueParts(tx: Tx, p: Port, channel: Byte, parts: seq<seq<Byte>>, n: nat, idx: nat): Tx
    requires n <= |parts|
  {
    if n == 0 then tx
    else
      var k := n - 1;
      var before := EnqueueParts(tx, p, channel, parts, k, idx);
      Enqueue(before, p, channel, parts[k], k % 256, k + 1 < |parts|, idx + k).0
  }

  lemma PartsNext(tx: Tx, now: Tx, p: Port, channel: Byte, parts: seq<seq<Byte>>, k: nat, idx: nat)
    requires k < |parts| && now == EnqueueParts(tx, p, channel, parts, k, idx)
    ensures EnqueueParts(tx, p, channel, parts, k + 1, idx) ==
      Enqueue(now, p, channel, parts[k], k % 256, k + 1 < |parts|, idx + k).0
  {
  }

  /** The payload of the sync packet: id, global sequence, the next sequence number of every port. */
  function SyncPayload(tx: Tx): seq<Byte> {
    [tx.syncId, tx.glob] + seq(128, i requires 0 <= i < 128 => At(tx.portSeq, i))
  }

  function SyncPacket(tx: Tx): Packet {
    Packet(SYNC, 0, false, 0, 0, 0, Checksum(SyncPayload(tx)), SyncPayload(tx), DEFAULT_SYNC_CHANNEL, 0)
  }

  /** A scheduled sync goes first, unless its channel is blocked or turns out to be full. */
  function SyncPhase(tx: Tx, syncFull: bool): (Tx, seq<Packet>) {
    if !tx.scheduled || DEFAULT_SYNC_CHANNEL in tx.blocked then (tx, [])
    else if syncFull then (tx.(blocked := tx.blocked + {DEFAULT_SYNC_CHANNEL}), [])
    else (tx.(scheduled := false), [SyncPacket(tx)])
  }

  /** The packet the buffer gives up: the current message's next fragment, or any port's head. */
  function Choose(tx: Tx): (Buf, Option<Packet>) {
    if tx.sending then Pop(tx.buf, tx.current, tx.Policy()) else NextAvailable(tx.buf, tx.Policy())
  }

  function DataPhase(tx: Tx): (Tx, seq<Packet>) {
    if tx.buf.counter == map[] then (tx.(state := WAITING), [])
    else
      var (buf, choice) := Choose(tx);
      match choice
      case None => (tx.(state := BLOCKED), [])
      case Some(y) =>
        var x := y.(glob := tx.glob);
        (tx.(state := RUNNING, buf := buf, current := x.port, sending := x.more,
             glob := if x.more then tx.glob else Add8(tx.glob, 1),
             toConsume := tx.toConsume[x.port := Add8(At(tx.toConsume, x.port), 1)]),
         [x])
  }

  /** One turn of the loop of `txRoutine`: the new state and the frames handed to the link. */
  function Iterate(tx: Tx, linkUp: bool, syncFull: bool): (Tx, seq<Packet>) {
    if !linkUp || |tx.blocked| >= S3TP_VIRTUAL_CHANNELS then (tx.(state := BLOCKED), [])
    else
      var (tx1, sync) := SyncPhase(tx, syncFull);
      var (tx2, data) := DataPhase(tx1);
      (tx2, sync + data)
  }

  function ScheduleSync(tx: Tx, id: Byte): Tx {
    tx.(scheduled := true, syncId := id)
  }

  function SetChannelAvailable(tx: Tx, channel: Byte, available: bool): Tx {
    tx.(blocked := if available then tx.blocked - {channel} else tx.blocked + {channel})
  }

  // ----- S3TP::checkTransmissionAvailability and the size test of sendToLinkLayer -----

  function CheckAvailability(tx: Tx, p: Port, channel: Byte, len16: Word): int {
    if tx.state == BLOCKED then CODE_LINK_UNAVAILABLE
    else if Size(tx.buf.Queue(p)) + Predicted(len16) > MAX_QUEUE_SIZE then CODE_QUEUE_FULL
    else if channel in tx.blocked then CODE_CHANNEL_BROKEN
    else CODE_SUCCESS
  }

  /** The code `sendToLinkLayer` returns before any packet is enqueued; CODE_SUCCESS lets the message in. */
  function Admission(tx: Tx, p: Port, channel: Byte, len: nat): int {
    var availability := CheckAvailability(tx, p, channel, len % 0x10000);
    if availability != CODE_SUCCESS then availability
    else if len > MAX_MESSAGE then CODE_ERROR_MAX_MESSAGE_SIZE
    else CODE_SUCCESS
  }
}
