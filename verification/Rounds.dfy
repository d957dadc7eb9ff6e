/** A message on an undisturbed way: sent, carried packet by packet, and taken. */
module Rounds {
  import opened Words
  import opened Packets
  import opened Queues
  import opened Buffers
  import opened Fragmentation
  import opened Protocol
  import opened ProtocolInvariant
  import opened ProtocolSafety
  import opened Availability
  import opened Completeness
  import opened Scenarios
  import opened Staleness
  import R = Receiver
  import T = Sender

  /** Only the message with global sequence number `g` is on its way, on port `p`, and nothing was dropped. */
  ghost predicate Flowing(s: Sys, p: Port, g: nat) {
    && SenderIdle(s, p) && ReceiverFlows(s.rx, p, g)
    && s.Hist(p).lost == multiset{} && forall r: Port :: s.Hist(r).intact
  }

  ghost predicate ReceiverFlows(rx: R.Rx, p: Port, g: nat) {
    && rx.active && p in rx.openPorts && rx.buf.capacity == CAPACITY && rx.avail <= {p}
    && rx.globalBase <= g && rx.lastGlobal <= g < 128
    && (forall i :: 0 <= i < |rx.buf.Queue(p)| ==> rx.buf.Queue(p)[i].glob == g)
    && forall r: Port :: r != p ==> rx.buf.Queue(r) == []
  }

  /** The receiver keeps every packet of such a message. */
  lemma KeepsPacket(rx: R.Rx, x: Packet, p: Port, g: nat)
    requires ReceiverFlows(rx, p, g) && |rx.buf.Queue(p)| <= 256 && R.Accepts(rx, x) && x.port == p && x.glob == g
    ensures var rx' := R.Handle(rx, x).0;
      rx'.buf.Queue(p) == Insert(rx.buf.Queue(p), x, rx.Policy()) && ReceiverFlows(rx', p, g)
  {
    IsInserted(rx, x, p, g);
    hide Write, Insert, R.Handle, FlushClears;
    var rx', q, pol := R.Handle(rx, x).0, rx.buf.Queue(p), rx.Policy();
    InsertGlobals(q, x, pol, g);
    forall r: Port ensures !FlushClears(rx, x, r) && (r != p ==> rx'.buf.Queue(r) == []) {
      NotStale(rx, x, r, p, g);
      HandleQueue(rx, x, r);
      OtherQueue(rx.buf, x, pol, r);
    }
    HandleQueue(rx, x, p);
    HandleVariables(rx, x, g);
  }

  /** `write` neither clears the queue nor refuses the packet. */
  lemma IsInserted(rx: R.Rx, x: Packet, p: Port, g: nat)
    requires ReceiverFlows(rx, p, g) && |rx.buf.Queue(p)| <= 256 && x.port == p && x.glob == g
    ensures Write(rx.buf, x, rx.Policy()).Queue(p) == Insert(rx.buf.Queue(p), x, rx.Policy())
  {
    OwnQueue(rx, x);
    hide Write, Insert;
    assert !Clears(rx.buf, x, rx.Policy()) && !Refuses(rx.buf, x, rx.Policy());
  }

  lemma OtherQueue(b: Buf, x: Packet, pol: Policy, r: Port)
    ensures r != x.port ==> Write(b, x, pol).Queue(r) == b.Queue(r)
  {
  }

  lemma InsertGlobals(q: seq<Packet>, x: Packet, pol: Policy, g: nat)
    requires x.glob == g && forall i :: 0 <= i < |q| ==> q[i].glob == g
    ensures forall i :: 0 <= i < |Insert(q, x, pol)| ==> Insert(q, x, pol)[i].glob == g
  {
    forall i | 0 <= i < |Insert(q, x, pol)| ensures Insert(q, x, pol)[i].glob == g {
      InsertIndex(q, x, pol, i);
    }
  }

  lemma NotStale(rx: R.Rx, x: Packet, r: Port, p: Port, g: nat)
    requires ReceiverFlows(rx, p, g) && x.port == p && x.glob == g
    requires var q := Write(rx.buf, x, rx.Policy()).Queue(p); forall i :: 0 <= i < |q| ==> q[i].glob == g
    ensures !FlushClears(rx, x, r)
  {
    var q := R.Stored(rx, x).buf.Queue(r);
    if r != p {
      assert q == rx.buf.Queue(r) == [];
    } else if q != [] {
      assert Sub8(g, rx.globalBase) == g - rx.globalBase;
    }
  }

  lemma HandleVariables(rx: R.Rx, x: Packet, g: nat)
    requires R.Accepts(rx, x) && x.glob == g && rx.globalBase <= g && rx.lastGlobal <= g
    ensures var rx' := R.Handle(rx, x).0;
      && rx'.active && rx'.openPorts == rx.openPorts && rx'.buf.capacity == rx.buf.capacity
      && rx'.avail <= rx.avail + {x.port} && rx'.globalBase <= g && rx'.lastGlobal <= g
  {
    hide R.Complete;
  }

  /** Nothing was dropped of any port. */
  lemma NothingLost(s: Sys, x: Packet, rx': R.Rx, p: Port, r: Port, pol: Policy)
    requires x.port == p && R.Accepts(s.rx, x)
    requires rx'.buf.Queue(p) == Insert(s.RxQueue(p), x, pol) && (r != p ==> rx'.buf.Queue(r) == s.RxQueue(r))
    ensures AfterData(s, x, rx', r) == s.Hist(r)
  {
    var h := s.Hist(r);
    IdsInsert(s.RxQueue(p), x, pol, p);
    assert Ids(rx'.buf.Queue(r), r) == Ids(s.RxQueue(r), r) + IdOf(x, r);
    hide Ids, IdOf, Insert, R.Accepts;
    Nothing(Ids(rx'.buf.Queue(r), r));
    assert h.lost + multiset{} == h.lost;
  }

  lemma Nothing(m: multiset<nat>)
    ensures m - m == multiset{}
  {
  }

  /** The next packet of the message gets through. */
  lemma FlowOne(s0: Sys, s: Sys, p: Port, g: nat) returns (t: Sys)
    requires Initial(s0) && Reaches(s0, s) && Flowing(s, p, g) && s.tx.glob == g
    requires s.Hist(p).enq < |Flat(s.Hist(p).sent)| && s.Hist(p).enq < s.Hist(p).next + 256
    ensures Reaches(s0, t) && Flowing(t, p, g)
    ensures var more := Flat(s.Hist(p).sent)[s.Hist(p).enq].more;
      t.tx.sending == more && t.tx.glob == if more then g else g + 1
    ensures t.Hist(p) == s.Hist(p).(enq := s.Hist(p).enq + 1)
  {
    hide Flat, AfterData, R.Handle, Insert, SenderIdle, ReceiverFlows, Carried, Reaches;
    t := Carry(s0, s, p);
    ShortReceiveQueue(s0, s, p);
    FlowEffect(s, t, p, g, NextOut(s, p));
  }

  lemma ShortReceiveQueue(s0: Sys, s: Sys, p: Port)
    requires Initial(s0) && Reaches(s0, s)
    ensures |s.RxQueue(p)| <= 256
  {
    ReachedInv(s0, s);
    hide Reaches;
    assert PortInv(s, p);
    ShortQueue(s.RxQueue(p), p, s.Hist(p).next);
  }

  lemma FlowEffect(s: Sys, t: Sys, p: Port, g: nat, x: Packet)
    requires Flowing(s, p, g) && s.Hist(p).enq < |Flat(s.Hist(p).sent)| && x == NextOut(s, p) && s.tx.glob == g
    requires Carried(s, t, p) && |s.RxQueue(p)| <= 256
    ensures Flowing(t, p, g) && t.Hist(p) == s.Hist(p).(enq := s.Hist(p).enq + 1)
    ensures var more := Flat(s.Hist(p).sent)[s.Hist(p).enq].more;
      t.tx.sending == more && t.tx.glob == if more then g else g + 1
  {
    hide Flat, R.Handle, SenderIdle, R.Accepts, Insert, ReceiverFlows, Add8;
    NextGlobal(g);
    FlowsOpen(s.rx, p, g);
    OutAccepted(s, p, x);
    KeepsPacket(s.rx, x, p, g);
    FlowsOpen(t.rx, p, g);
    HistoryFlows(s, t, p, x);
  }

  lemma NextGlobal(g: nat)
    ensures g < 128 ==> Add8(g, 1) == g + 1
  {
  }

  lemma FlowsOpen(rx: R.Rx, p: Port, g: nat)
    requires ReceiverFlows(rx, p, g)
    ensures rx.active && p in rx.openPorts && g < 128
    ensures forall r: Port :: r != p ==> rx.buf.Queue(r) == []
  {
  }

  lemma OutAccepted(s: Sys, p: Port, x: Packet)
    requires s.rx.active && p in s.rx.openPorts && s.Hist(p).enq < |Flat(s.Hist(p).sent)| && x == NextOut(s, p)
    ensures R.Accepts(s.rx, x) && x.port == p && x.glob == s.tx.glob
    ensures x.more == Flat(s.Hist(p).sent)[s.Hist(p).enq].more
  {
  }

  lemma HistoryFlows(s: Sys, t: Sys, p: Port, x: Packet)
    requires x.port == p && R.Accepts(s.rx, x) && t.RxQueue(p) == Insert(s.RxQueue(p), x, s.rx.Policy())
    requires forall r: Port :: r != p ==> t.rx.buf.Queue(r) == s.rx.buf.Queue(r) == []
    requires forall r: Port :: t.Hist(r) == AfterData(s, x, t.rx, r).(enq := s.Hist(r).enq + if r == p then 1 else 0)
    requires s.Hist(p).lost == multiset{} && forall r: Port :: s.Hist(r).intact
    ensures t.Hist(p) == s.Hist(p).(enq := s.Hist(p).enq + 1) && t.Hist(p).lost == multiset{}
    ensures forall r: Port :: t.Hist(r).intact
  {
    hide R.Accepts, AfterData, Insert;
    forall r: Port ensures AfterData(s, x, t.rx, r) == s.Hist(r) {
      NothingLost(s, x, t.rx, p, r, s.rx.Policy());
    }
  }

  ghost function LastOf(ms: seq<Message>): Message
    requires ms != []
  {
    ms[|ms| - 1]
  }

  /** All the fragments of the last message, from the `j`-th on, get through. */
  lemma {:induction false} FlowRest(s0: Sys, s: Sys, p: Port, g: nat, j: nat) returns (t: Sys)
    requires Initial(s0) && Reaches(s0, s) && Flowing(s, p, g) && s.tx.glob == g
    requires s.Hist(p).sent != [] && j < |LastOf(s.Hist(p).sent).parts| <= MAX_FRAGMENTS
    requires s.Hist(p).next == Start(s.Hist(p).sent, |s.Hist(p).sent| - 1)
    requires s.Hist(p).enq == s.Hist(p).next + j
    ensures Reaches(s0, t) && Flowing(t, p, g) && t.tx.glob == g + 1 && !t.tx.sending
    ensures t.Hist(p) == s.Hist(p).(enq := |Flat(s.Hist(p).sent)|)
    decreases |LastOf(s.Hist(p).sent).parts| - j
  {
    var ms := s.Hist(p).sent;
    var n := |ms[|ms| - 1].parts|;
    FlatAt(ms, |ms| - 1, j);
    LastLength(ms);
    t := FlowOne(s0, s, p, g);
    hide Flowing, Reaches, Flat, Start;
    if j + 1 < n {
      t := FlowRest(s0, t, p, g, j + 1);
    }
  }

  lemma LastLength(ms: seq<Message>)
    requires ms != []
    ensures |Flat(ms)| == Start(ms, |ms| - 1) + |ms[|ms| - 1].parts|
  {
  }

  // ----- A whole round -----

  /** Everything accepted for `p` has been returned, and the next message will carry global sequence `g`. */
  ghost predicate Settled(s: Sys, p: Port, g: nat) {
    var h := s.Hist(p);
    && Flowing(s, p, g) && s.tx.glob == g && !s.tx.sending
    && h.base == 0 && |h.got| == |h.sent| && h.enq == |Flat(h.sent)| == h.next
  }

  lemma AllHere(s: Sys, p: Port, g: nat)
    requires Flowing(s, p, g) && s.Hist(p).enq == |Flat(s.Hist(p).sent)|
    ensures AllArrived(s, p)
  {
  }

  /** With everything there, a message that fits is listed alone and taken, and that empties the queue. */
  lemma TakeOne(s0: Sys, s: Sys, p: Port, g: nat) returns (t: Sys)
    requires Initial(s0) && Reaches(s0, s) && Flowing(s, p, g) && g + 1 < 128
    requires var h := s.Hist(p); h.enq == |Flat(h.sent)| && h.base == 0 && |h.got| + 1 == |h.sent|
    requires MessageFits(s0.rx.code, s.Hist(p).sent, |s.Hist(p).got|)
    ensures Reaches(s0, t) && Flowing(t, p, g + 1) && t.tx == s.tx
    ensures var h, h' := s.Hist(p), t.Hist(p);
      h'.sent == h.sent && h'.enq == h.enq == h'.next && h'.base == 0 && |h'.got| == |h'.sent|
  {
    ReachedPort(s0, s, p);
    AllHere(s, p, g);
    Listed(s, p);
    hide Reaches, PortInv, Enabled, ApplyTake, MessageFits, Flat;
    ReachesTake(s0, s);
    t := ApplyTake(s);
    ReachedPort(s0, t, p);
    Taken(s, t, p, g);
  }

  lemma ReachesTake(s0: Sys, s: Sys)
    requires Reaches(s0, s) && s.rx.avail != {} && !s.halted
    ensures Reaches(s0, ApplyTake(s))
  {
    hide Reaches;
    ReachesNext(s0, s, Take);
  }

  lemma ReachedPort(s0: Sys, s: Sys, p: Port)
    requires Initial(s0) && Reaches(s0, s)
    ensures PortInv(s, p) && (s.Hist(p).intact ==> Exact(s, p)) && s.rx.active && s.rx.code == s0.rx.code
  {
    ReachedInv(s0, s);
  }

  lemma Taken(s: Sys, t: Sys, p: Port, g: nat)
    requires Flowing(s, p, g) && g + 1 < 128 && s.rx.avail == {p} && R.Lowest(s.rx.avail) == p
    requires s.rx.active && t == ApplyTake(s) && PortInv(s, p) && Exact(s, p) && PortInv(t, p)
    requires s.Hist(p).base + |s.Hist(p).got| + 1 == |s.Hist(p).sent| && s.Hist(p).enq == |Flat(s.Hist(p).sent)|
    ensures Flowing(t, p, g + 1) && t.tx == s.tx
    ensures var h, h' := s.Hist(p), t.Hist(p);
      h'.sent == h.sent && h'.enq == h.enq == h'.next && h'.base == h.base && |h'.got| == |h.got| + 1
  {
    TakeSucceeds(s);
    TakeEffect(s);
    hide Flowing, PortInv, ApplyTake, R.Assemble, R.Complete;
    AllTaken(t, p);
    TakenFlows(s, t, p, g);
  }

  lemma Listed(s: Sys, p: Port)
    requires PortInv(s, p) && AllArrived(s, p) && Exact(s, p) && s.rx.avail <= {p}
    requires s.Hist(p).base + |s.Hist(p).got| < |s.Hist(p).sent|
    requires MessageFits(s.rx.code, s.Hist(p).sent, s.Hist(p).base + |s.Hist(p).got|)
    ensures s.rx.avail == {p} && R.Lowest(s.rx.avail) == p
  {
    QueueHoldsRest(s, p);
    hide Conserved, LinkFaithful, R.Complete, MessageFits, Ids, Flat, Range;
    CheckExactlyFits(s.RxQueue(p), p, s.Hist(p), At(s.rx.cur, p), s.rx.code);
    assert p in s.rx.avail;
  }

  lemma AllTaken(t: Sys, p: Port)
    requires PortInv(t, p) && t.Hist(p).base + |t.Hist(p).got| == |t.Hist(p).sent|
    requires t.Hist(p).enq == |Flat(t.Hist(p).sent)|
    ensures t.Hist(p).next == t.Hist(p).enq && t.RxQueue(p) == []
  {
    StartAll(t.Hist(p).sent);
    assert Live(t, p) == multiset{};
    NoIds(t.RxQueue(p), p, t.Hist(p).next);
  }

  lemma TakenFlows(s: Sys, t: Sys, p: Port, g: nat)
    requires Flowing(s, p, g) && g + 1 < 128 && s.rx.avail == {p} && R.Lowest(s.rx.avail) == p && t == ApplyTake(s)
    requires R.Assemble(s.RxQueue(p), At(s.rx.cur, p)).ending == R.Whole && t.RxQueue(p) == []
    ensures Flowing(t, p, g + 1)
  {
    TakeEffect(s);
    TakeVariables(s);
    hide R.Assemble, R.Complete, ApplyTake;
    forall r: Port ensures t.Hist(r).intact && (r != p ==> t.rx.buf.Queue(r) == []) {
      assert r != p ==> t.RxQueue(r) == s.RxQueue(r) == s.rx.buf.Queue(r);
    }
    assert t.RxQueue(p) == t.rx.buf.Queue(p);
  }

  lemma TakeVariables(s: Sys)
    requires s.rx.active && s.rx.avail != {}
    ensures var rx, rx' := s.rx, ApplyTake(s).rx;
      && rx'.globalBase == rx.globalBase && rx'.lastGlobal == rx.lastGlobal && rx'.openPorts == rx.openPorts
      && rx'.buf.capacity == rx.buf.capacity
  {
    hide R.Assemble, R.Complete;
  }

  /** From a settled state any admissible message that fits the completeness check - in the repaired code every
      one - gets through in one round of steps, and the state is settled again. */
  lemma Round(s0: Sys, s: Sys, p: Port, g: nat, mem: seq<Byte>, len: nat) returns (t: Sys)
    requires Initial(s0) && Reaches(s0, s) && Settled(s, p, g) && g + 1 < 128
    requires len <= MAX_MESSAGE && len <= |mem| && Extent(s0.rx.code, len) <= |mem|
    requires Fits(s0.rx.code, s.Hist(p).next, Count(len))
    ensures Reaches(s0, t) && Settled(t, p, g + 1)
    ensures t.Hist(p).sent == s.Hist(p).sent + [Message(mem[..len], Cut(s0.rx.code, mem, len), 0)]
    ensures t.Hist(p).next == s.Hist(p).next + Count(len)
  {
    t := GetThrough(s0, s, p, g, mem, len);
    var ms := t.Hist(p).sent;
    assert ms[..|ms| - 1] == s.Hist(p).sent;
    t := TakeOne(s0, t, p, g);
  }

  /** A message is sent and all its packets get through, whether it fits or not. */
  lemma GetThrough(s0: Sys, s: Sys, p: Port, g: nat, mem: seq<Byte>, len: nat) returns (t: Sys)
    requires Initial(s0) && Reaches(s0, s) && Settled(s, p, g)
    requires len <= MAX_MESSAGE && len <= |mem| && Extent(s0.rx.code, len) <= |mem|
    ensures Reaches(s0, t) && Flowing(t, p, g) && t.tx.glob == g + 1 && !t.tx.sending
    ensures var h, h', m := s.Hist(p), t.Hist(p), Message(mem[..len], Cut(s0.rx.code, mem, len), 0);
      && h' == h.(sent := h.sent + [m], enq := h.next + Count(len))
      && h'.enq == |Flat(h'.sent)| && Start(h'.sent, |h.sent|) == h.next
  {
    ReachedInv(s0, s);
    var m := Message(mem[..len], Cut(s0.rx.code, mem, len), 0);
    var ms := s.Hist(p).sent;
    t := Submit(s0, s, p, mem, len);
    SubmittedFlows(s, t, p, g, m);
    CountBounds(len);
    FlatSnoc(ms, m);
    assert (ms + [m])[..|ms|] == ms;
    hide Flowing, Reaches;
    t := FlowRest(s0, t, p, g, 0);
  }

  lemma SubmittedFlows(s: Sys, t: Sys, p: Port, g: nat, m: Message)
    requires Flowing(s, p, g) && Submitted(s, t, p, m)
    ensures Flowing(t, p, g)
  {
  }
}
