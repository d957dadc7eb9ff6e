/** The whole pipeline as a state machine: a sender, a link that loses and reorders, a receiver, and the
    history of every port. */
module Protocol {
  import opened Words
  import opened Crc
  import opened Packets
  import opened Queues
  import opened Buffers
  import opened Fragmentation
  import R = Receiver
  import T = Sender

  // ----- Messages and the packets they become -----

  /** An accepted message: the bytes given to `sendToLinkLayer` and the payloads cut for it. */
  datatype Message = Message(data: seq<Byte>, parts: seq<seq<Byte>>, channel: Byte)

  datatype Frag = Frag(sub: nat, more: bool, payload: seq<Byte>, channel: Byte)

  ghost function Frags(m: Message): (r: seq<Frag>)
    ensures |r| == |m.parts|
  {
    seq(|m.parts|, j requires 0 <= j < |m.parts| => Frag(j, j < |m.parts| - 1, m.parts[j], m.channel))
  }

  /** All packets of the messages, in the order they are to be enqueued: packet `i` has absolute index `i`. */
  ghost function Flat(ms: seq<Message>): seq<Frag> {
    if ms == [] then [] else Flat(ms[..|ms| - 1]) + Frags(ms[|ms| - 1])
  }

  /** The absolute index of the first packet of message `k`. */
  ghost function Start(ms: seq<Message>, k: nat): nat
    requires k <= |ms|
  {
    |Flat(ms[..k])|
  }

  ghost predicate WellCut(m: Message) {
    1 <= |m.parts| <= MAX_FRAGMENTS
  }

  lemma FlatSnoc(ms: seq<Message>, m: Message)
    ensures Flat(ms + [m]) == Flat(ms) + Frags(m)
  {
    assert (ms + [m])[..|ms|] == ms;
  }

  lemma StartNext(ms: seq<Message>, k: nat)
    requires k < |ms|
    ensures Start(ms, k + 1) == Start(ms, k) + |ms[k].parts|
  {
    assert ms[..k + 1] == ms[..k] + [ms[k]];
    FlatSnoc(ms[..k], ms[k]);
  }

  lemma {:induction false} FlatAt(ms: seq<Message>, k: nat, j: nat)
    requires k < |ms| && j < |ms[k].parts|
    ensures Start(ms, k) + j < |Flat(ms)| && Flat(ms)[Start(ms, k) + j] == Frags(ms[k])[j]
  {
    var n := |ms| - 1;
    if k < n {
      FlatAt(ms[..n], k, j);
      assert ms[..n][..k] == ms[..k];
    } else {
      assert ms[..k] == ms[..n];
    }
  }

  lemma StartAll(ms: seq<Message>)
    ensures Start(ms, |ms|) == |Flat(ms)|
  {
    assert ms[..|ms|] == ms;
  }

  // ----- State -----

  /** What happened on one port. */
  datatype History = History(
    sent: seq<Message>,       // accepted by sendToLinkLayer
    enq: nat,                 // packets enqueued so far
    base: nat,                // messages accepted before the last resynchronisation
    got: seq<seq<Byte>>,      // handed to the application since then
    next: nat,                // absolute index of the packet the receiver expects
    lost: multiset<nat>,      // packets dropped on the way since then
    intact: bool)             // the receiver never dropped a packet it had accepted

  datatype Sys = Sys(
    tx: T.Tx,
    rx: R.Rx,
    link: seq<Packet>,        // a bag: any packet may be delivered or lost next
    hist: map<Port, History>,
    emitted: seq<Packet>,     // data packets handed to the link, in order
    halted: bool)             // the receiver crashed or left its mutex locked
  {
    ghost function Hist(p: Port): History {
      if p in hist then hist[p] else History([], 0, 0, [], 0, multiset{}, true)
    }

    ghost function TxQueue(p: Port): seq<Packet> {
      tx.buf.Queue(p)
    }

    ghost function RxQueue(p: Port): seq<Packet> {
      rx.buf.Queue(p)
    }
  }

  ghost predicate Initial(s: Sys) {
    && s.tx.active && s.tx.buf.queues == map[] && s.tx.buf.counter == map[] && s.tx.portSeq == map[]
    && s.tx.toConsume == map[] && s.tx.glob == 0 && !s.tx.sending && !s.tx.scheduled
    && s.rx.active && s.rx.buf.queues == map[] && s.rx.buf.counter == map[] && s.rx.cur == map[]
    && s.rx.avail == {} && s.rx.globalBase == 0 && s.rx.lastGlobal == 0 && s.rx.window == 0
    && s.link == [] && s.hist == map[] && s.emitted == [] && !s.halted
  }

  // ----- Steps -----

  datatype Label =
    | Send(p: Port, channel: Byte, mem: seq<Byte>, len: nat)  // sendToLinkLayer admits a message
    | EnqueueNext(p: Port)                                    // enqueuePacket for its next fragment
    | Turn(linkUp: bool, syncFull: bool)                      // one turn of txRoutine
    | SetChannel(channel: Byte, available: bool)
    | Schedule(id: Byte)                                      // scheduleSync
    | Lose(k: nat)
    | Deliver(k: nat)                                         // handleReceivedPacket
    | Take                                                    // getNextCompleteMessage
    | Open(p: Port)
    | Close(p: Port)

  /** Nothing of port `p` is queued or in flight. */
  ghost predicate Quiescent(s: Sys, p: Port) {
    && s.Hist(p).enq == |Flat(s.Hist(p).sent)|
    && s.TxQueue(p) == [] && s.RxQueue(p) == [] && Ids(s.link, p) == multiset{}
  }

  /** What a sync says about `p` is nothing new, or it finds the port quiescent and states where the sender is. */
  ghost predicate SyncFits(s: Sys, x: Packet, p: Port)
    requires |x.payload| >= R.SYNC_LENGTH
  {
    var n := R.SyncSeq(x.payload, p);
    n == 0 || n == At(s.rx.cur, p) || (Quiescent(s, p) && n == At(s.tx.portSeq, p))
  }

  /** The assumption on the link: a data packet arrives at most 255 ahead of the one expected, a sync fits. */
  ghost predicate Timely(s: Sys, x: Packet) {
    if x.kind == SYNC then |x.payload| >= R.SYNC_LENGTH && forall p: Port :: SyncFits(s, x, p)
    else x.idx < s.Hist(x.port).next + 256
  }

  ghost predicate Enabled(s: Sys, l: Label) {
    && !s.halted
    && match l
       case Send(p, channel, mem, len) =>
         && s.Hist(p).enq == |Flat(s.Hist(p).sent)|
         && T.Admission(s.tx, p, channel, len) == CODE_SUCCESS
         && len <= |mem| && Extent(s.rx.code, len) <= |mem|
       case EnqueueNext(p) => s.Hist(p).enq < |Flat(s.Hist(p).sent)|
       case Lose(k) => k < |s.link|
       case Deliver(k) => k < |s.link| && Timely(s, s.link[k])
       case Take => s.rx.avail != {}
       case _ => true
  }

  ghost function DataOnly(xs: seq<Packet>): seq<Packet> {
    if xs == [] then [] else DataOnly(xs[..|xs| - 1]) + if xs[|xs| - 1].kind == DATA then [xs[|xs| - 1]] else []
  }

  /** The application gets as many bytes as the 16-bit length says. */
  function Truncated(data: seq<Byte>): seq<Byte> {
    data[..|data| % 0x10000]
  }

  ghost function SetHist(s: Sys, p: Port, h: History): Sys {
    s.(hist := s.hist[p := h])
  }

  /** A port's history when the receiver handles data packet `x`: what left its queue, or never got in, is lost. */
  ghost function AfterData(s: Sys, x: Packet, rx': R.Rx, p: Port): History {
    var h, q, q' := s.Hist(p), s.RxQueue(p), rx'.buf.Queue(p);
    var all := Ids(q, p) + IdOf(x, p);
    h.(lost := h.lost + (all - Ids(q', p)),
       intact := h.intact && (R.Accepts(s.rx, x) ==> Ids(q', p) == all))
  }

  /** A port's history when the receiver handles sync `x`: a quiescent port starts afresh at the sender's count. */
  ghost function AfterSync(s: Sys, x: Packet, p: Port): History
    requires |x.payload| >= R.SYNC_LENGTH
  {
    var h, n := s.Hist(p), R.SyncSeq(x.payload, p);
    if n == 0 || n == At(s.rx.cur, p) then h
    else h.(base := |h.sent|, got := [], next := h.enq, lost := multiset{})
  }

  ghost function Apply(s: Sys, l: Label): Sys
    requires Enabled(s, l)
  {
    match l
    case Send(p, channel, mem, len) =>
      var h := s.Hist(p);
      var m := Message(mem[..len], Cut(s.rx.code, mem, len), channel);
      SetHist(s, p, h.(sent := h.sent + [m]))
    case EnqueueNext(p) => ApplyEnqueue(s, p)
    case Turn(linkUp, syncFull) =>
      var (tx, out) := T.Iterate(s.tx, linkUp, syncFull);
      s.(tx := tx, link := s.link + out, emitted := s.emitted + DataOnly(out))
    case SetChannel(channel, available) => s.(tx := T.SetChannelAvailable(s.tx, channel, available))
    case Schedule(id) => s.(tx := T.ScheduleSync(s.tx, id))
    case Lose(k) =>
      var x := s.link[k];
      var s1 := s.(link := Without(s.link, k));
      if x.kind == DATA then
        SetHist(s1, x.port, s.Hist(x.port).(lost := s.Hist(x.port).lost + multiset{x.idx}))
      else s1
    case Deliver(k) => ApplyDeliver(s, k)
    case Take => ApplyTake(s)
    case Open(p) => s.(rx := s.rx.(openPorts := s.rx.openPorts + {p}))
    case Close(p) => s.(rx := s.rx.(openPorts := s.rx.openPorts - {p}))
  }

  ghost function ApplyEnqueue(s: Sys, p: Port): Sys
    requires s.Hist(p).enq < |Flat(s.Hist(p).sent)|
  {
    var h := s.Hist(p);
    var f := Flat(h.sent)[h.enq];
    var frag := f.sub % 256;
    var tx := T.Enqueue(s.tx, p, f.channel, f.payload, frag, f.more, h.enq).0;
    var x := T.Stamp(s.tx, p, f.channel, f.payload, frag, f.more, h.enq);
    var lost := if Refuses(s.tx.buf, x, s.tx.Policy()) then h.lost + multiset{h.enq} else h.lost;
    SetHist(s.(tx := tx), p, h.(enq := h.enq + 1, lost := lost))
  }

  ghost function ApplyDeliver(s: Sys, k: nat): Sys
    requires k < |s.link| && Timely(s, s.link[k])
  {
    var x := s.link[k];
    var rx := R.Handle(s.rx, x).0;
    var hist := map p: Port | 0 <= p < 128 :: if x.kind == SYNC then AfterSync(s, x, p) else AfterData(s, x, rx, p);
    s.(rx := rx, link := Without(s.link, k), hist := hist)
  }

  ghost function ApplyTake(s: Sys): Sys
    requires s.rx.avail != {}
  {
    var (rx, outcome) := R.Consume(s.rx);
    match outcome
    case Delivered(p, data, len) =>
      var h := s.Hist(p);
      var n := R.Assemble(s.RxQueue(p), At(s.rx.cur, p)).popped;
      SetHist(s.(rx := rx), p, h.(got := h.got + [data[..len]], next := h.next + n))
    case Crashed(_) => s.(halted := true)
    case Stuck(_) => s.(halted := true)
    case _ => s
  }

  // ----- Runs -----

  ghost predicate Legal(s0: Sys, ls: seq<Label>)
    decreases |ls|, 0
  {
    ls == [] || (Legal(s0, ls[..|ls| - 1]) && Enabled(After(s0, ls[..|ls| - 1]), ls[|ls| - 1]))
  }

  /** The state after a run. */
  ghost function After(s0: Sys, ls: seq<Label>): Sys
    requires Legal(s0, ls)
    decreases |ls|, 1
  {
    if ls == [] then s0 else Apply(After(s0, ls[..|ls| - 1]), ls[|ls| - 1])
  }

  lemma EmptyRun(s: Sys)
    ensures Legal(s, []) && After(s, []) == s
  {
  }

  /** A run goes on with any enabled step. */
  lemma ExtendRun(s: Sys, ls: seq<Label>, l: Label)
    requires Legal(s, ls) && Enabled(After(s, ls), l)
    ensures Legal(s, ls + [l]) && After(s, ls + [l]) == Apply(After(s, ls), l)
  {
    hide Apply, Enabled;
    assert (ls + [l])[..|ls + [l]| - 1] == ls && (ls + [l])[|ls + [l]| - 1] == l;
  }
}
