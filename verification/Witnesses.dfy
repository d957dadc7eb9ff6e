/** Three runs of the pipeline that end badly: a port blocked for good, a receiver that halts, and a packet 256
    ahead that is taken for the expected one. */
module Witnesses {
  import opened Words
  import opened Packets
  import opened Queues
  import opened Buffers
  import opened Fragmentation
  import opened Protocol
  import opened ProtocolInvariant
  import opened Availability
  import opened Completeness
  import opened Scenarios
  import opened Rounds
  import Hazards
  import R = Receiver
  import T = Sender

  /** The state after the receiver opened ports 0 and 1. */
  lemma Opened(code: Variant) returns (s: Sys)
    ensures Reaches(Fresh(code), s)
    ensures s == Fresh(code).(rx := Fresh(code).rx.(openPorts := {0, 1}))
  {
    var s0 := Fresh(code);
    hide Reaches;
    ReachesStart(s0);
    ReachesNext(s0, s0, Open(0));
    var s1 := Apply(s0, Open(0));
    ReachesNext(s0, s1, Open(1));
    s := Apply(s1, Open(1));
    assert {} + {0} + {1} == {0 as Port, 1};
  }

  // ----- A message that is never recognised -----

  /** 127 fragments. */
  const LONG := LEN_PDU * 126 + 1

  lemma LongCount()
    ensures Count(LONG) == 127 && LONG <= MAX_MESSAGE
  {
    CountBounds(LONG);
  }

  /** Everything accepted for port 0 has arrived, nothing was dropped anywhere, and one message does not fit. */
  ghost predicate Misfit(s0: Sys, s: Sys) {
    && Initial(s0) && s0.rx.code == AsWritten && Reaches(s0, s) && !s.halted
    && Undisturbed(s) && AllArrived(s, 0) && !AllFit(s.Hist(0), AsWritten)
  }

  /** Three messages of 127 fragments each: the third one crosses packet number 256. */
  lemma MisfitReached()
    ensures exists s0, s :: Misfit(s0, s)
  {
    FreshIsInitial(AsWritten);
    var s := Opened(AsWritten);
    StartsSettled(s);
    hide Misfit, Settled, Reaches, Initial, Fresh;
    var t := ThreeLong(Fresh(AsWritten), s, Blank(Extent(AsWritten, LONG) + LONG));
  }

  lemma ThreeLong(s0: Sys, s: Sys, mem: seq<Byte>) returns (t: Sys)
    requires Initial(s0) && s0.rx.code == AsWritten && Reaches(s0, s) && Settled(s, 0, 0) && s.Hist(0).next == 0
    requires LONG <= |mem| && Extent(AsWritten, LONG) <= |mem|
    ensures Misfit(s0, t)
  {
    LongCount();
    hide Misfit, Settled, Flowing, Reaches, Initial, Extent, Count;
    t := Round(s0, s, 0, 0, mem, LONG);
    t := Round(s0, t, 0, 1, mem, LONG);
    var u := GetThrough(s0, t, 0, 2, mem, LONG);
    MisfitThere(s0, t, u, mem);
    t := u;
  }

  lemma StartsSettled(s: Sys)
    requires s == Fresh(AsWritten).(rx := Fresh(AsWritten).rx.(openPorts := {0, 1}))
    ensures Settled(s, 0, 0) && s.Hist(0).next == 0
  {
    assert Flat([]) == [];
  }

  lemma MisfitThere(s0: Sys, s: Sys, t: Sys, mem: seq<Byte>)
    requires Initial(s0) && s0.rx.code == AsWritten && Settled(s, 0, 2) && s.Hist(0).next == 254
    requires Reaches(s0, t) && Flowing(t, 0, 2) && Count(LONG) == 127
    requires LONG <= |mem| && Extent(AsWritten, LONG) <= |mem|
    requires var h, h' := s.Hist(0), t.Hist(0);
      && h' == h.(sent := h.sent + [Message(mem[..LONG], Cut(AsWritten, mem, LONG), 0)], enq := h.next + Count(LONG))
      && h'.enq == |Flat(h'.sent)| && Start(h'.sent, |h.sent|) == h.next
    ensures Misfit(s0, t)
  {
    AllHere(t, 0, 2);
    hide Flat, Start, Reaches, Initial, AllArrived, ReceiverFlows, Extent, Count, Cut, AllFit;
    ThirdCrosses(t.Hist(0), Message(mem[..LONG], Cut(AsWritten, mem, LONG), 0));
  }

  lemma ThirdCrosses(h: History, m: Message)
    requires h.sent != [] && h.sent[|h.sent| - 1] == m && |m.parts| == 127 && h.base == 0
    requires Start(h.sent, |h.sent| - 1) == 254
    ensures !AllFit(h, AsWritten)
  {
    assert !MessageFits(AsWritten, h.sent, |h.sent| - 1);
  }

  /** In such a state taking messages as long as any is available leaves some of those accepted for good. */
  lemma MisfitUndelivered(s0: Sys, s: Sys)
    requires Misfit(s0, s)
    ensures Inv(s) && AvailInv(s) && !AllGot(TakeAll(s), 0)
  {
    ReachedInv(s0, s);
    hide Reaches, Initial;
    DrainedExactly(s, 0);
  }

  // ----- A receiver that halts -----

  /** A complete message waits on port 0 while those of port 1 arrive; `j` packets came after it. */
  ghost predicate Waiting(rx: R.Rx, j: nat) {
    && rx.active && rx.openPorts == {0, 1} && rx.buf.capacity == CAPACITY && 0 in rx.avail && At(rx.cur, 0) == 0
    && |rx.buf.Queue(0)| == 1 && rx.buf.Queue(0)[0].glob == 0 && rx.lastGlobal <= 1
    && if j < 127 then rx.window == 1 + j && rx.globalBase == 0 else rx.window == 0 && rx.globalBase == 1
  }

  /** Packet 128 in all fills the window; the flush finds nothing stale yet, but moves the base to 1. */
  lemma OtherPacket(rx: R.Rx, x: Packet, j: nat)
    requires Waiting(rx, j) && j < 127 && R.Accepts(rx, x) && x.port == 1 && x.glob == 1
    ensures Waiting(R.Handle(rx, x).0, j + 1)
  {
    var rx1 := R.Stored(rx, x);
    assert rx1.buf.Queue(0) == rx.buf.Queue(0);
    hide R.Complete, Write;
    var rx2 := rx1.(lastGlobal := 1, window := Add8(rx.window, 1));
    assert R.CountPacket(rx1, x) == if j == 126 then R.FlushQueues(rx2).(window := 0) else rx2;
    if j == 126 {
      assert !R.Stale(rx2, 0);
    }
  }

  /** The message waiting on port 0 is not taken, and port 1 gets a message of 127 fragments. */
  ghost predicate Held(s: Sys, j: nat) {
    && SenderIdle(s, 1) && s.tx.glob == (if j < 127 then 1 else 2) && (j == 127 ==> !s.tx.sending) && Waiting(s.rx, j)
    && s.Hist(0).enq == |Flat(s.Hist(0).sent)| == 1 && s.Hist(0).next == 0
    && |s.Hist(1).sent| == 1 && |s.Hist(1).sent[0].parts| == 127 && s.Hist(1).enq == j && s.Hist(1).next == 0
  }

  lemma OneMessage(m: Message, j: nat)
    requires j < |m.parts|
    ensures j < |Flat([m])| == |m.parts| && Flat([m])[j] == Frag(j, j < |m.parts| - 1, m.parts[j], m.channel)
  {
    assert [m][..0] == [] && Flat([]) == [];
  }

  lemma HeldNext(s0: Sys, s: Sys, j: nat) returns (t: Sys)
    requires Reaches(s0, s) && Held(s, j) && j < 127
    ensures Reaches(s0, t) && Held(t, j + 1)
  {
    var ms := s.Hist(1).sent;
    assert ms == [ms[0]];
    OneMessage(ms[0], j);
    hide Reaches, Flat;
    t := Carry(s0, s, 1);
    var x := NextOut(s, 1);
    OutAccepted(s, 1, x);
    hide R.Accepts, R.Handle, T.Stamp;
    OtherPacket(s.rx, x, j);
    hide Waiting;
    assert t.Hist(0) == AfterData(s, x, t.rx, 0) && t.Hist(1) == AfterData(s, x, t.rx, 1).(enq := j + 1);
  }

  lemma {:induction false} HeldRest(s0: Sys, s: Sys, j: nat) returns (t: Sys)
    requires Reaches(s0, s) && Held(s, j) && j <= 127
    ensures Reaches(s0, t) && Held(t, 127)
    decreases 127 - j
  {
    hide Reaches, Held;
    t := s;
    if j < 127 {
      t := HeldNext(s0, s, j);
      t := HeldRest(s0, t, j + 1);
    }
  }

  /** Port 0 has received one message, which nobody takes. */
  ghost predicate OneWaits(s: Sys) {
    && SenderIdle(s, 0) && !s.tx.sending && s.tx.glob == 1 && Waiting(s.rx, 0)
    && s.Hist(0).enq == |Flat(s.Hist(0).sent)| == 1 && s.Hist(0).next == 0
    && s.Hist(1) == History([], 0, 0, [], 0, multiset{}, true)
  }

  /** A one-byte message is accepted for port 0. */
  ghost predicate OneAccepted(s: Sys, code: Variant) {
    && s.tx == Fresh(code).tx && s.link == [] && !s.halted
    && s.rx == Fresh(code).rx.(openPorts := {0, 1})
    && (exists m: Message :: |m.parts| == 1 && s.Hist(0) == History([m], 0, 0, [], 0, multiset{}, true))
    && s.Hist(1) == History([], 0, 0, [], 0, multiset{}, true)
  }

  lemma FirstAccepted(code: Variant) returns (t: Sys)
    ensures Reaches(Fresh(code), t) && OneAccepted(t, code)
  {
    var s := Opened(code);
    SinglePart(code, Blank(1), 1);
    IdleAtFirst(code, s);
    hide Reaches, Fresh, SenderIdle, OneAccepted, Extent, Cut, Count;
    t := Submit(Fresh(code), s, 0, Blank(1), 1);
    AcceptedFirst(code, s, t, Message(Blank(1)[..1], Cut(code, Blank(1), 1), 0));
  }

  lemma IdleAtFirst(code: Variant, s: Sys)
    requires s == Fresh(code).(rx := Fresh(code).rx.(openPorts := {0, 1}))
    ensures SenderIdle(s, 0) && s.Hist(0).enq == |Flat(s.Hist(0).sent)| && s.rx.code == code
  {
    assert Flat([]) == [];
  }

  lemma AcceptedFirst(code: Variant, s: Sys, t: Sys, m: Message)
    requires s == Fresh(code).(rx := Fresh(code).rx.(openPorts := {0, 1}))
    requires Submitted(s, t, 0, m) && |m.parts| == 1
    ensures OneAccepted(t, code)
  {
    assert t.Hist(0) == History([m], 0, 0, [], 0, multiset{}, true);
  }

  lemma FirstWaits(code: Variant) returns (t: Sys)
    ensures Reaches(Fresh(code), t) && OneWaits(t)
  {
    var u := FirstAccepted(code);
    var m: Message :| |m.parts| == 1 && u.Hist(0) == History([m], 0, 0, [], 0, multiset{}, true);
    OneMessage(m, 0);
    hide Reaches, Flat;
    t := Carry(Fresh(code), u, 0);
    FirstEffect(code, u, t, m);
  }

  lemma FirstEffect(code: Variant, u: Sys, t: Sys, m: Message)
    requires OneAccepted(u, code) && u.Hist(0).sent == [m] && |m.parts| == 1 && u.Hist(0).enq < |Flat(u.Hist(0).sent)|
    requires Carried(u, t, 0)
    ensures OneWaits(t)
  {
    OneMessage(m, 0);
    var x := NextOut(u, 0);
    OutAccepted(u, 0, x);
    FirstPacket(u.rx, x);
    hide R.Accepts, R.Handle, Flat;
    assert t.Hist(0) == AfterData(u, x, t.rx, 0).(enq := 1) && t.Hist(1) == AfterData(u, x, t.rx, 1);
    NothingForOther(u, x, t.rx);
  }

  /** A packet of port 0 does not touch the account of a port without packets. */
  lemma NothingForOther(s: Sys, x: Packet, rx': R.Rx)
    requires x.port == 0 && s.RxQueue(1) == [] && rx'.buf.Queue(1) == []
    requires s.Hist(1) == History([], 0, 0, [], 0, multiset{}, true)
    ensures AfterData(s, x, rx', 1) == s.Hist(1)
  {
    assert Ids(s.RxQueue(1), 1) + IdOf(x, 1) == multiset{};
  }

  lemma FirstPacket(rx: R.Rx, x: Packet)
    requires exists code: Variant :: rx == Fresh(code).rx.(openPorts := {0, 1})
    requires R.Accepts(rx, x) && x.port == 0 && x.glob == 0 && x.seqPort == 0 && x.sub == 0 && !x.more
    ensures Waiting(R.Handle(rx, x).0, 0) && R.Handle(rx, x).0.buf.Queue(1) == []
  {
    LoneInsert(x, rx.Policy());
    Hazards.LoneComplete(x, 0, rx.code);
  }

  /** Port 1's message of 127 fragments comes next. */
  lemma BothWait(code: Variant) returns (t: Sys)
    ensures Reaches(Fresh(code), t) && Held(t, 127)
  {
    LongCount();
    var s := FirstWaits(code);
    assert Flat([]) == [];
    hide Reaches, Fresh, Extent, Count;
    FreshIsInitial(code);
    ReachedCode(Fresh(code), s);
    var mem := Blank(Extent(s.rx.code, LONG) + LONG);
    t := Submit(Fresh(code), s, 1, mem, LONG);
    HeldStarts(s, t, mem);
    hide Held, OneWaits;
    t := HeldRest(Fresh(code), t, 0);
  }

  lemma ReachedCode(s0: Sys, s: Sys)
    requires Initial(s0) && Reaches(s0, s)
    ensures s.rx.code == s0.rx.code && forall p: Port :: PortInv(s, p)
  {
    ReachedInv(s0, s);
  }

  lemma HeldStarts(s: Sys, t: Sys, mem: seq<Byte>)
    requires OneWaits(s) && Count(LONG) == 127 && LONG <= |mem| && Extent(s.rx.code, LONG) <= |mem|
    requires Submitted(s, t, 1, Message(mem[..LONG], Cut(s.rx.code, mem, LONG), 0))
    ensures Held(t, 0)
  {
    hide Waiting, Flat, Extent, Count;
  }

  ghost predicate HaltedRun(s0: Sys, s: Sys, code: Variant) {
    Initial(s0) && s0.rx.code == code && Reaches(s0, s) && s.halted
  }

  /** The next message of port 0 has two fragments. When the first arrives, it is too far from the head of the
      queue: the queue is cleared, port 0 stays listed, and taking from it leaves the receiver stuck. */
  lemma HaltReached(code: Variant)
    ensures exists s0, s :: HaltedRun(s0, s, code)
  {
    FreshIsInitial(code);
    var s := BothWait(code);
    hide Reaches, Fresh, Held, Initial, HaltedRun;
    FreshCode(code);
    var t := HaltFrom(Fresh(code), s);
  }

  lemma FreshCode(code: Variant)
    ensures Fresh(code).rx.code == code
  {
  }

  lemma HaltFrom(s0: Sys, s: Sys) returns (w: Sys)
    requires Initial(s0) && Reaches(s0, s) && Held(s, 127)
    ensures HaltedRun(s0, w, s0.rx.code)
  {
    var t := SecondAccepted(s0, s);
    hide Reaches, Initial, SenderIdle, Waiting, Flat, R.Handle, R.Consume;
    var u := Carry(s0, t, 0);
    SecondClears(t, NextOut(t, 0));
    assert u.rx == R.Handle(t.rx, NextOut(t, 0)).0 && !u.halted by { CarriedRuns(t, u); }
    ReachesTake(s0, u);
    Halts(u);
    w := ApplyTake(u);
  }

  lemma CarriedRuns(t: Sys, u: Sys)
    requires t.Hist(0).enq < |Flat(t.Hist(0).sent)| && Carried(t, u, 0)
    ensures u.rx == R.Handle(t.rx, NextOut(t, 0)).0 && !u.halted
  {
  }

  /** The second message of port 0 is about to go out. */
  ghost predicate Second(t: Sys) {
    && SenderIdle(t, 0) && Waiting(t.rx, 127) && t.tx.glob == 2 && t.Hist(0).next == 0 && At(t.tx.portSeq, 0) == 1
    && t.Hist(0).enq == 1 < |Flat(t.Hist(0).sent)| && Flat(t.Hist(0).sent)[1].more
  }

  lemma SecondAccepted(s0: Sys, s: Sys) returns (t: Sys)
    requires Initial(s0) && Reaches(s0, s) && Held(s, 127)
    ensures Reaches(s0, t) && Second(t)
  {
    var v := s0.rx.code;
    CountBounds(993);
    var mem := Blank(Extent(v, 993) + 993);
    ReachedCode(s0, s);
    HeldIdle(s);
    hide Reaches, Initial, Held, PortInv, Extent, Count, SenderIdle, Flat;
    t := Submit(s0, s, 0, mem, 993);
    assert Counters(s, 0) by { PortCounters(s, 0); }
    SecondStarts(s, t, mem);
  }

  lemma HeldIdle(s: Sys)
    requires Held(s, 127)
    ensures SenderIdle(s, 0) && s.Hist(0).enq == |Flat(s.Hist(0).sent)|
  {
  }

  lemma PortCounters(s: Sys, p: Port)
    requires PortInv(s, p)
    ensures Counters(s, p)
  {
  }

  lemma SecondStarts(s: Sys, t: Sys, mem: seq<Byte>)
    requires Held(s, 127) && Counters(s, 0) && Count(993) == 2 && 993 <= |mem| && Extent(s.rx.code, 993) <= |mem|
    requires Submitted(s, t, 0, Message(mem[..993], Cut(s.rx.code, mem, 993), 0))
    ensures Second(t)
  {
    FlatSnoc(s.Hist(0).sent, Message(mem[..993], Cut(s.rx.code, mem, 993), 0));
  }

  /** What the cleared queue leaves to the consumer. */
  lemma SecondClears(t: Sys, x: Packet)
    requires Waiting(t.rx, 127) && t.tx.glob == 2 && At(t.tx.portSeq, 0) == 1
    requires t.Hist(0).enq < |Flat(t.Hist(0).sent)| && x == NextOut(t, 0) && x.more
    ensures var rx' := R.Handle(t.rx, x).0;
      rx'.active && rx'.avail != {} && (R.Consume(rx').1.Stuck? || R.Consume(rx').1.Crashed?)
  {
    OutAccepted(t, 0, x);
    assert Clears(t.rx.buf, x, t.rx.Policy());
    Hazards.StaleIndex(t.rx, x);
  }

  lemma Halts(u: Sys)
    requires u.rx.active && u.rx.avail != {} && (R.Consume(u.rx).1.Stuck? || R.Consume(u.rx).1.Crashed?)
    ensures ApplyTake(u).halted
  {
  }

  // ----- A packet 256 ahead -----

  /** All of the `n` one-packet messages accepted for port 0 were lost on the link. */
  ghost predicate AllLost(s: Sys, code: Variant, n: nat) {
    && SenderIdle(s, 0) && !s.tx.sending && s.rx == Fresh(code).rx.(openPorts := {0, 1})
    && |s.Hist(0).sent| == n && s.Hist(0).enq == |Flat(s.Hist(0).sent)| == n
    && s.Hist(0).next == 0 && s.Hist(0).base == 0 && s.Hist(0).got == [] && (n > 0 ==> s.Hist(0).sent[0].data == [0])
  }

  /** A one-byte message is accepted for port 0. */
  ghost predicate OneMore(s: Sys, u: Sys, byte: Byte) {
    var h := s.Hist(0);
    && SenderIdle(u, 0) && !u.tx.sending && u.rx == s.rx
    && |u.Hist(0).sent| == |h.sent| + 1 && u.Hist(0) == h.(sent := u.Hist(0).sent)
    && u.Hist(0).sent[..|h.sent|] == h.sent && u.Hist(0).sent[|h.sent|].data == [byte]
    && |Flat(u.Hist(0).sent)| == |Flat(h.sent)| + 1
    && Flat(u.Hist(0).sent)[|Flat(h.sent)|] == Frag(0, false, [byte], 0)
  }

  lemma AcceptOne(s0: Sys, s: Sys, byte: Byte) returns (u: Sys)
    requires Reaches(s0, s) && SenderIdle(s, 0) && !s.tx.sending && s.Hist(0).enq == |Flat(s.Hist(0).sent)|
    ensures Reaches(s0, u) && OneMore(s, u, byte)
  {
    var mem: seq<Byte> := [byte];
    var v := s.rx.code;
    SinglePart(v, mem, 1);
    hide Reaches, Flat, Extent, Cut, Count, SenderIdle, OneMore;
    u := Submit(s0, s, 0, mem, 1);
    assert mem[..1] == [byte];
    AcceptedOne(s, u, byte, Message([byte], Cut(v, mem, 1), 0));
  }

  lemma AcceptedOne(s: Sys, u: Sys, byte: Byte, m: Message)
    requires SenderIdle(s, 0) && !s.tx.sending && Submitted(s, u, 0, m)
    requires m.data == [byte] && m.parts == [[byte]] && m.channel == 0
    ensures OneMore(s, u, byte)
  {
    var ms := s.Hist(0).sent;
    LostMessage(ms, m);
    SnocFront(ms, m);
    hide Flat;
    IdleStays(s, u);
  }

  lemma LoseOne(s0: Sys, s: Sys, code: Variant, n: nat) returns (t: Sys)
    requires Reaches(s0, s) && AllLost(s, code, n)
    ensures Reaches(s0, t) && AllLost(t, code, n + 1)
  {
    hide Reaches, Flat, SenderIdle, Fresh;
    var u := AcceptOne(s0, s, 0);
    t := Drop(s0, u, 0);
    LostToo(s, u, t, code, n);
  }

  lemma LostToo(s: Sys, u: Sys, t: Sys, code: Variant, n: nat)
    requires AllLost(s, code, n) && OneMore(s, u, 0) && u.Hist(0).enq < |Flat(u.Hist(0).sent)| && Dropped(u, t, 0)
    ensures AllLost(t, code, n + 1)
  {
    hide Fresh, Flat, SenderIdle;
    assert n > 0 ==> u.Hist(0).sent[0] == u.Hist(0).sent[..n][0];
  }

  lemma IdleStays(s: Sys, u: Sys)
    requires SenderIdle(s, 0) && u.tx == s.tx && u.link == s.link && u.halted == s.halted
    ensures SenderIdle(u, 0)
  {
  }

  lemma LostMessage(ms: seq<Message>, m: Message)
    requires |m.parts| == 1
    ensures |Flat(ms + [m])| == |Flat(ms)| + 1
    ensures Flat(ms + [m])[|Flat(ms)|] == Frag(0, false, m.parts[0], m.channel)
  {
    FlatSnoc(ms, m);
  }

  lemma {:induction false} LoseMany(s0: Sys, s: Sys, code: Variant, n: nat, k: nat) returns (t: Sys)
    requires Reaches(s0, s) && AllLost(s, code, n)
    ensures Reaches(s0, t) && AllLost(t, code, n + k)
    decreases k
  {
    hide Reaches, AllLost;
    t := s;
    if k > 0 {
      t := LoseOne(s0, s, code, n);
      t := LoseMany(s0, t, code, n + 1, k - 1);
    }
  }

  /** Message 256 is on the link, none before it has arrived, and if its packet were handled now the application
      would get it as the first message of the port. */
  ghost predicate Untimely(s0: Sys, s: Sys) {
    && Initial(s0) && Reaches(s0, s) && !s.halted && s.rx.active
    && s.Hist(0).got == [] && s.Hist(0).base == 0 && |s.Hist(0).sent| == 257 && s.Hist(0).sent[0].data == [0]
    && |s.link| == 1 && s.link[0].idx == s.Hist(0).next + 256 && R.WellFormed(s.link[0])
    && R.Consume(R.Handle(s.rx, s.link[0]).0).1 == R.Delivered(0, [1], 1)
  }

  /** Without the bound on reordering the theorem on safety would be false. */
  lemma UntimelyReached(code: Variant)
    ensures exists s0, s :: Untimely(s0, s) && s0.rx.code == code
  {
    FreshIsInitial(code);
    FreshCode(code);
    var s := Opened(code);
    NoneLost(code, s);
    hide Reaches, Fresh, AllLost, Initial, Untimely;
    s := LoseMany(Fresh(code), s, code, 0, 256);
    s := LastOut(Fresh(code), s, code);
  }

  lemma NoneLost(code: Variant, s: Sys)
    requires s == Fresh(code).(rx := Fresh(code).rx.(openPorts := {0, 1}))
    ensures AllLost(s, code, 0)
  {
    assert Flat([]) == [];
  }

  lemma LastAccepted(s0: Sys, s: Sys, code: Variant) returns (u: Sys)
    requires Initial(s0) && Reaches(s0, s) && AllLost(s, code, 256)
    ensures Reaches(s0, u) && OneMore(s, u, 1) && Counters(u, 0)
  {
    hide Flat, Fresh, SenderIdle, Initial, Reaches;
    u := AcceptOne(s0, s, 1);
    hide OneMore, Counters;
    ReachedCounters(s0, u, 0);
  }

  lemma ReachedCounters(s0: Sys, s: Sys, p: Port)
    requires Initial(s0) && Reaches(s0, s)
    ensures Counters(s, p)
  {
    ReachedInv(s0, s);
    assert PortInv(s, p);
  }

  lemma LastOut(s0: Sys, s: Sys, code: Variant) returns (t: Sys)
    requires Initial(s0) && Reaches(s0, s) && AllLost(s, code, 256)
    ensures Untimely(s0, t)
  {
    var u := LastAccepted(s0, s, code);
    hide Reaches, Flat, SenderIdle, Fresh, Initial, Counters;
    t := Emit(s0, u, 0);
    hide Emitted, T.Stamp, R.Handle, R.Consume;
    TakenForFirst(u, NextOut(u, 0), code);
    LastEffect(s, u, t, code);
  }

  lemma LastEffect(s: Sys, u: Sys, t: Sys, code: Variant)
    requires AllLost(s, code, 256) && OneMore(s, u, 1) && u.Hist(0).enq < |Flat(u.Hist(0).sent)| && Emitted(u, t, 0)
    ensures !t.halted && t.rx.active && t.rx == u.rx
    ensures t.Hist(0).got == [] && t.Hist(0).base == 0 && |t.Hist(0).sent| == 257 && t.Hist(0).sent[0].data == [0]
    ensures t.link == [NextOut(u, 0)] && t.link[0].idx == t.Hist(0).next + 256
  {
    assert u.Hist(0).sent[0] == u.Hist(0).sent[..256][0];
  }

  lemma TakenForFirst(u: Sys, x: Packet, code: Variant)
    requires u.rx == Fresh(code).rx.(openPorts := {0, 1}) && Counters(u, 0)
    requires u.Hist(0).enq == 256 < |Flat(u.Hist(0).sent)| && x == NextOut(u, 0)
    requires Flat(u.Hist(0).sent)[256] == Frag(0, false, [1], 0)
    ensures R.WellFormed(x) && R.Consume(R.Handle(u.rx, x).0).1 == R.Delivered(0, [1], 1)
  {
    OutAccepted(u, 0, x);
    assert x.seqPort == 0 && x.payload == [1] && x.sub == 0;
    hide R.Accepts;
    Hazards.LoneMessage(u.rx, x);
  }
}
