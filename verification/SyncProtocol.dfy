/** Two nodes exchanging syncs: without new connect or link-up events the exchange stops. */
module SyncProtocol {
  import opened Words
  import opened Crc
  import opened Packets
  import opened Queues
  import opened Buffers
  import R = Receiver
  import T = Sender

  /** One S3TP instance: its two modules, and whether it has a client (`clients.size() > 0`). */
  datatype Node = Node(tx: T.Tx, rx: R.Rx, hasClients: bool)

  datatype Side = Left | Right

  /** `inbox` of a side holds the frames on their way to it. */
  datatype Net = Net(left: Node, right: Node, toLeft: seq<Packet>, toRight: seq<Packet>) {
    function At(s: Side): Node {
      if s == Left then left else right
    }

    function Inbox(s: Side): seq<Packet> {
      if s == Left then toLeft else toRight
    }

    function Put(s: Side, n: Node): Net {
      if s == Left then this.(left := n) else this.(right := n)
    }

    function PutInbox(s: Side, q: seq<Packet>): Net {
      if s == Left then this.(toLeft := q) else this.(toRight := q)
    }
  }

  function Other(s: Side): Side {
    if s == Left then Right else Left
  }

  /** Everything but a client connecting and the link coming up, which alone schedule an initiating sync. */
  datatype Event =
    | Turn(s: Side, linkUp: bool, syncFull: bool)
    | Deliver(s: Side, k: nat)
    | Lose(s: Side, k: nat)
    | Enqueue(s: Side, p: Port, channel: Byte, payload: seq<Byte>, frag: Byte, more: bool, idx: nat)
    | Channel(s: Side, channel: Byte, available: bool)
    | Clients(s: Side, any: bool)                          // the last client leaves, say

  ghost predicate Possible(n: Net, e: Event) {
    match e
    case Deliver(s, k) => k < |n.Inbox(s)| && R.WellFormed(n.Inbox(s)[k])
    case Lose(s, k) => k < |n.Inbox(s)|
    case _ => true
  }

  /** `handleReceivedPacket`, and `onSynchronization` with `synchronizeStatus(S3TP_SYNC_ACK)` behind it. */
  ghost function Receive(n: Node, x: Packet): Node
    requires R.WellFormed(x)
  {
    var rx := R.Handle(n.rx, x).0;
    var synchronised := n.rx.active && Checksum(x.payload) == x.crc && x.kind == SYNC;
    if synchronised && x.payload[0] == T.SYNC_INITIATOR && n.hasClients then
      n.(rx := rx, tx := T.ScheduleSync(n.tx, T.SYNC_ACK))
    else
      n.(rx := rx)
  }

  ghost function Next(n: Net, e: Event): Net
    requires Possible(n, e)
  {
    match e
    case Turn(s, linkUp, syncFull) =>
      var (tx, out) := T.Iterate(n.At(s).tx, linkUp, syncFull);
      n.Put(s, n.At(s).(tx := tx)).PutInbox(Other(s), n.Inbox(Other(s)) + out)
    case Deliver(s, k) =>
      n.Put(s, Receive(n.At(s), n.Inbox(s)[k])).PutInbox(s, Without(n.Inbox(s), k))
    case Lose(s, k) => n.PutInbox(s, Without(n.Inbox(s), k))
    case Enqueue(s, p, channel, payload, frag, more, idx) =>
      n.Put(s, n.At(s).(tx := T.Enqueue(n.At(s).tx, p, channel, payload, frag, more, idx).0))
    case Channel(s, channel, available) =>
      n.Put(s, n.At(s).(tx := T.SetChannelAvailable(n.At(s).tx, channel, available)))
    case Clients(s, any) => n.Put(s, n.At(s).(hasClients := any))
  }

  // ----- The measure -----

  /** An initiating sync can still cause four events, an acknowledging one two: its sending and its arrival. */
  ghost function Scheduled(tx: T.Tx): nat {
    if !tx.scheduled then 0 else if tx.syncId == T.SYNC_INITIATOR then 4 else 2
  }

  ghost function InFlight(x: Packet): nat {
    if x.kind != SYNC then 0 else if x.payload != [] && x.payload[0] == T.SYNC_INITIATOR then 3 else 1
  }

  ghost function Flight(q: seq<Packet>): nat {
    if q == [] then 0 else Flight(q[..|q| - 1]) + InFlight(q[|q| - 1])
  }

  ghost function Measure(n: Net): nat {
    Scheduled(n.left.tx) + Scheduled(n.right.tx) + Flight(n.toLeft) + Flight(n.toRight)
  }

  /** The event sends, receives or loses a sync. */
  ghost predicate IsSync(n: Net, e: Event)
    requires Possible(n, e)
  {
    match e
    case Turn(s, linkUp, syncFull) =>
      exists x :: x in T.Iterate(n.At(s).tx, linkUp, syncFull).1 && x.kind == SYNC
    case Deliver(s, k) => n.Inbox(s)[k].kind == SYNC
    case Lose(s, k) => n.Inbox(s)[k].kind == SYNC
    case _ => false
  }

  /** Send buffers hold data packets only. */
  ghost predicate DataQueues(b: Buf) {
    forall p: Port, k :: 0 <= k < |b.Queue(p)| ==> b.Queue(p)[k].kind == DATA
  }

  ghost predicate Sane(n: Net) {
    DataQueues(n.left.tx.buf) && DataQueues(n.right.tx.buf)
  }

  lemma {:induction false} FlightConcat(a: seq<Packet>, b: seq<Packet>)
    ensures Flight(a + b) == Flight(a) + Flight(b)
  {
    if b == [] {
      assert a + b == a;
    } else {
      ConcatSnoc(a, b);
      FlightConcat(a, b[..|b| - 1]);
      SnocFront(a + b[..|b| - 1], b[|b| - 1]);
    }
  }

  lemma FlightOne(x: Packet)
    ensures Flight([x]) == InFlight(x)
  {
    assert [x][..0] == [] && Flight([x][..0]) == 0;
  }

  lemma FlightAround(a: seq<Packet>, x: Packet, b: seq<Packet>)
    ensures Flight(a + ([x] + b)) == Flight(a + b) + InFlight(x)
  {
    FlightConcat(a, [x] + b);
    FlightConcat([x], b);
    FlightOne(x);
    FlightConcat(a, b);
  }

  lemma FlightWithout(q: seq<Packet>, k: nat)
    requires k < |q|
    ensures Flight(q) == Flight(Without(q, k)) + InFlight(q[k])
  {
    SplitAround(q, k);
    FlightAround(q[..k], q[k], q[k + 1..]);
  }

  /** The data phase sends no sync and leaves the schedule alone. */
  lemma DataPhaseQuiet(tx: T.Tx)
    requires DataQueues(tx.buf)
    ensures var (tx', data) := T.DataPhase(tx);
      && Scheduled(tx') == Scheduled(tx) && Flight(data) == 0 && DataQueues(tx'.buf)
      && forall x :: x in data ==> x.kind == DATA
  {
    var (tx', data) := T.DataPhase(tx);
    var r := if tx.sending then tx.current else
             if FirstEligible(tx.buf, tx.Policy(), 0).Some? then FirstEligible(tx.buf, tx.Policy(), 0).value else 0;
    var (b, y) := Pop(tx.buf, r, tx.Policy());
    PopData(tx.buf, r, tx.Policy());
    if data != [] {
      FlightOne(data[0]);
    }
  }

  lemma PopData(b: Buf, r: Port, pol: Policy)
    requires DataQueues(b)
    ensures var (b', y) := Pop(b, r, pol);
      DataQueues(b') && (y.Some? ==> y.value.kind == DATA)
  {
    var (b', y) := Pop(b, r, pol);
    forall p: Port, k | 0 <= k < |b'.Queue(p)| ensures b'.Queue(p)[k].kind == DATA {
      if p == r && y.Some? {
        assert b'.Queue(p)[k] == b.Queue(p)[k + 1];
      } else {
        assert b'.Queue(p) == b.Queue(p);
      }
    }
    if y.Some? {
      assert b.Queue(r)[0].kind == DATA;
    }
  }

  /** A turn that sends a sync pays for it; any other turn costs nothing. */
  lemma TurnPays(tx: T.Tx, linkUp: bool, syncFull: bool)
    requires DataQueues(tx.buf)
    ensures var (tx', out) := T.Iterate(tx, linkUp, syncFull);
      && DataQueues(tx'.buf)
      && Scheduled(tx') + Flight(out) + (if exists x :: x in out && x.kind == SYNC then 1 else 0) == Scheduled(tx)
  {
    var (tx', out) := T.Iterate(tx, linkUp, syncFull);
    if linkUp && |tx.blocked| < T.S3TP_VIRTUAL_CHANNELS {
      var (tx1, sync) := T.SyncPhase(tx, syncFull);
      var (tx2, data) := T.DataPhase(tx1);
      DataPhaseQuiet(tx1);
      FlightConcat(sync, data);
      if sync != [] {
        FlightOne(sync[0]);
        assert sync[0] in out && sync[0].kind == SYNC;
      } else {
        assert out == data;
      }
    }
  }

  lemma ReceivePays(n: Node, x: Packet)
    requires R.WellFormed(x)
    ensures var n' := Receive(n, x);
      && n'.tx.buf == n.tx.buf
      && Scheduled(n'.tx) + (if x.kind == SYNC then 1 else 0) <= Scheduled(n.tx) + InFlight(x)
  {
  }

  lemma EnqueueQuiet(tx: T.Tx, p: Port, channel: Byte, payload: seq<Byte>, frag: Byte, more: bool, idx: nat)
    requires DataQueues(tx.buf)
    ensures var tx' := T.Enqueue(tx, p, channel, payload, frag, more, idx).0;
      Scheduled(tx') == Scheduled(tx) && DataQueues(tx'.buf)
  {
    WriteData(tx.buf, T.Stamp(tx, p, channel, payload, frag, more, idx), tx.Policy());
  }

  lemma WriteData(b: Buf, x: Packet, pol: Policy)
    requires DataQueues(b) && x.kind == DATA
    ensures DataQueues(Write(b, x, pol))
  {
    var b', q := Write(b, x, pol), AfterClear(b, x, pol);
    QueueOfPut(b, x.port, q, x.port);
    QueueOfPut(b, x.port, Insert(q, x, pol), x.port);
    forall r: Port, k | 0 <= k < |b'.Queue(r)| ensures b'.Queue(r)[k].kind == DATA {
      if r != x.port {
        assert b'.Queue(r) == b.Queue(r);
      } else if b'.Queue(r) == Insert(q, x, pol) {
        InsertIndex(q, x, pol, k);
      }
    }
  }

  ghost predicate Pays(n: Net, e: Event)
    requires Possible(n, e)
  {
    Sane(Next(n, e)) && Measure(Next(n, e)) + (if IsSync(n, e) then 1 else 0) <= Measure(n)
  }

  lemma TurnEventPays(n: Net, e: Event)
    requires Sane(n) && e.Turn?
    ensures Pays(n, e)
  {
    hide T.Iterate, DataQueues;
    TurnPays(n.At(e.s).tx, e.linkUp, e.syncFull);
    FlightConcat(n.Inbox(Other(e.s)), T.Iterate(n.At(e.s).tx, e.linkUp, e.syncFull).1);
  }

  lemma DeliverEventPays(n: Net, e: Event)
    requires Sane(n) && e.Deliver? && Possible(n, e)
    ensures Pays(n, e)
  {
    hide Receive;
    ReceivePays(n.At(e.s), n.Inbox(e.s)[e.k]);
    FlightWithout(n.Inbox(e.s), e.k);
  }

  lemma ClientEventPays(n: Net, e: Event)
    requires Sane(n) && e.Enqueue?
    ensures Pays(n, e)
  {
    hide T.Enqueue, DataQueues;
    EnqueueQuiet(n.At(e.s).tx, e.p, e.channel, e.payload, e.frag, e.more, e.idx);
  }

  /** Every event keeps the measure from growing, and every sync event makes it fall. */
  lemma EventPays(n: Net, e: Event)
    requires Sane(n) && Possible(n, e)
    ensures Sane(Next(n, e))
    ensures Measure(Next(n, e)) + (if IsSync(n, e) then 1 else 0) <= Measure(n)
  {
    hide T.Iterate, T.Enqueue, Receive;
    assert Pays(n, e) by {
      match e
      case Turn(_, _, _) => TurnEventPays(n, e);
      case Deliver(_, _) => DeliverEventPays(n, e);
      case Enqueue(_, _, _, _, _, _, _) => ClientEventPays(n, e);
      case Lose(s, k) => FlightWithout(n.Inbox(s), k);
      case _ =>
    }
  }

  // ----- Runs -----

  ghost predicate Feasible(n: Net, es: seq<Event>)
    decreases |es|
  {
    es == [] || (Possible(n, es[0]) && Feasible(Next(n, es[0]), es[1..]))
  }

  ghost function Final(n: Net, es: seq<Event>): Net
    requires Feasible(n, es)
    decreases |es|
  {
    if es == [] then n else Final(Next(n, es[0]), es[1..])
  }

  ghost function SyncEvents(n: Net, es: seq<Event>): nat
    requires Feasible(n, es)
    decreases |es|
  {
    if es == [] then 0 else (if IsSync(n, es[0]) then 1 else 0) + SyncEvents(Next(n, es[0]), es[1..])
  }

  /** The sync exchange stops: over any run without new connect or link-up events, the syncs sent, received and
      lost number at most what the initial state is good for. */
  lemma {:induction false} SyncTrafficStops(n: Net, es: seq<Event>)
    requires Sane(n) && Feasible(n, es)
    ensures SyncEvents(n, es) + Measure(Final(n, es)) <= Measure(n)
    decreases |es|
  {
    if es != [] {
      EventPays(n, es[0]);
      SyncTrafficStops(Next(n, es[0]), es[1..]);
    }
  }

  /** From silence, one initiating sync causes at most four sync events in all. */
  lemma OneInitiation(n: Net, s: Side, es: seq<Event>)
    requires Sane(n) && Measure(n) == 0
    requires Feasible(n.Put(s, n.At(s).(tx := T.ScheduleSync(n.At(s).tx, T.SYNC_INITIATOR))), es)
    ensures SyncEvents(n.Put(s, n.At(s).(tx := T.ScheduleSync(n.At(s).tx, T.SYNC_INITIATOR))), es) <= 4
  {
    var m := n.Put(s, n.At(s).(tx := T.ScheduleSync(n.At(s).tx, T.SYNC_INITIATOR)));
    SyncTrafficStops(m, es);
  }
}
