/** Runs that exist: how a packet gets from a client to the receiver step by step, and three runs from the initial
    state that end where the theorems say the code must not be trusted. */
module Scenarios {
  import opened Words
  import opened Packets
  import opened Queues
  import opened Buffers
  import opened Fragmentation
  import opened Protocol
  import opened ProtocolInvariant
  import opened ProtocolSafety
  import opened Availability
  import Submission
  import R = Receiver
  import T = Sender

  // ----- Reachable states -----

  ghost predicate Reaches(s0: Sys, s: Sys) {
    exists ls :: Legal(s0, ls) && After(s0, ls) == s
  }

  lemma ReachesStart(s0: Sys)
    ensures Reaches(s0, s0)
  {
    EmptyRun(s0);
  }

  lemma ReachesNext(s0: Sys, s: Sys, l: Label)
    requires Reaches(s0, s) && Enabled(s, l)
    ensures Reaches(s0, Apply(s, l))
  {
    hide Apply, Enabled;
    var ls :| Legal(s0, ls) && After(s0, ls) == s;
    ExtendRun(s0, ls, l);
  }

  lemma ReachedInv(s0: Sys, s: Sys)
    requires Initial(s0) && Reaches(s0, s)
    ensures Inv(s) && AvailInv(s) && s.rx.code == s0.rx.code
  {
    hide Apply;
    var ls :| Legal(s0, ls) && After(s0, ls) == s;
    RunKeepsInv(s0, ls);
    RunKeepsAvail(s0, ls);
  }

  const CAPACITY := 1024

  /** Both nodes started, nothing sent. */
  ghost function Fresh(code: Variant): Sys {
    var buf := Buf(map[], map[], CAPACITY);
    Sys(T.Tx(true, T.WAITING, buf, map[], map[], 0, false, 0, {}, false, 0),
        R.Rx(true, {}, map[], buf, {}, 0, 0, 0, code), [], map[], [], false)
  }

  lemma FreshIsInitial(code: Variant)
    ensures Initial(Fresh(code))
  {
  }

  // ----- One packet on its way -----

  /** Nothing queued, blocked or in flight: the next packet of `p` can go. */
  ghost predicate SenderIdle(s: Sys, p: Port) {
    && s.tx.active && s.tx.buf == Buf(map[], map[], CAPACITY) && s.tx.blocked == {} && !s.tx.scheduled
    && s.tx.state != T.BLOCKED && (s.tx.sending ==> s.tx.current == p) && s.link == [] && !s.halted
  }

  /** The packet of `p` to be enqueued next, as it will leave. */
  ghost function NextOut(s: Sys, p: Port): Packet
    requires s.Hist(p).enq < |Flat(s.Hist(p).sent)|
  {
    var h := s.Hist(p);
    var f := Flat(h.sent)[h.enq];
    T.Stamp(s.tx, p, f.channel, f.payload, f.sub % 256, f.more, h.enq).(glob := s.tx.glob)
  }

  /** A client hands over a message. */
  ghost predicate Submitted(s: Sys, t: Sys, p: Port, m: Message) {
    && t.tx == s.tx && t.rx == s.rx && t.link == s.link && t.halted == s.halted
    && t.Hist(p) == s.Hist(p).(sent := s.Hist(p).sent + [m])
    && forall r: Port :: r != p ==> t.Hist(r) == s.Hist(r)
  }

  ghost function Blank(n: nat): seq<Byte> {
    seq(n, i => 0)
  }

  lemma Submit(s0: Sys, s: Sys, p: Port, mem: seq<Byte>, len: nat) returns (t: Sys)
    requires Reaches(s0, s) && SenderIdle(s, p) && s.Hist(p).enq == |Flat(s.Hist(p).sent)|
    requires len <= MAX_MESSAGE && len <= |mem| && Extent(s.rx.code, len) <= |mem|
    ensures Reaches(s0, t) && Submitted(s, t, p, Message(mem[..len], Cut(s.rx.code, mem, len), 0))
  {
    var l := Send(p, 0, mem, len);
    assert Size(s.TxQueue(p)) == 0;
    assert Enabled(s, l);
    ReachesNext(s0, s, l);
    t := Apply(s, l);
  }

  /** The next packet of `p` is enqueued and emitted. */
  ghost predicate Emitted(s: Sys, t: Sys, p: Port)
    requires s.Hist(p).enq < |Flat(s.Hist(p).sent)|
  {
    var x := NextOut(s, p);
    && t.link == [x] && t.rx == s.rx && SenderIdle(t.(link := []), p)
    && t.tx.sending == x.more && t.tx.current == p
    && t.tx.glob == (if x.more then s.tx.glob else Add8(s.tx.glob, 1))
    && t.Hist(p) == s.Hist(p).(enq := s.Hist(p).enq + 1)
    && forall r: Port :: r != p ==> t.Hist(r) == s.Hist(r)
  }

  lemma EnqueueOne(s: Sys, p: Port)
    requires SenderIdle(s, p) && s.Hist(p).enq < |Flat(s.Hist(p).sent)|
    ensures var t := ApplyEnqueue(s, p);
      var x := NextOut(s, p).(glob := 0);
      && t.tx == s.tx.(portSeq := t.tx.portSeq, buf := Buf(map[p := [x]], map[p := 1], CAPACITY))
      && t.rx == s.rx && t.link == s.link && t.halted == s.halted
      && t.Hist(p) == s.Hist(p).(enq := s.Hist(p).enq + 1)
      && forall r: Port :: r != p ==> t.Hist(r) == s.Hist(r)
  {
    var x := NextOut(s, p).(glob := 0);
    assert Insert([], x, s.tx.Policy()) == [x];
    assert Write(s.tx.buf, x, s.tx.Policy()) == Buf(map[p := [x]], map[p := 1], CAPACITY);
  }

  lemma SoleIsFirst(b: Buf, p: Port, x: Packet, pol: Policy)
    requires b == Buf(map[p := [x]], map[p := 1], CAPACITY) && pol.IsElementValid(x)
    ensures NextAvailable(b, pol) == Pop(b, p, pol) == (Buf(map[], map[], CAPACITY), Some(x))
  {
    FirstEligibleIsLowest(b, pol, 0);
    assert Eligible(b, p, pol) && b.Queue(p) == [x];
    assert FirstEligible(b, pol, 0) == Some(p);
    assert map[p := [x]] - {p} == map[] && map[p := 1] - {p} == map[];
  }

  /** One turn with a lone packet in the send buffer. */
  lemma EmitOne(tx: T.Tx, p: Port, x: Packet)
    requires tx.buf == Buf(map[p := [x]], map[p := 1], CAPACITY) && tx.blocked == {} && !tx.scheduled
    requires x.port == p && (tx.sending ==> tx.current == p)
    ensures var (tx', out) := T.Iterate(tx, true, false);
      && out == [x.(glob := tx.glob)]
      && tx' == tx.(state := T.RUNNING, buf := Buf(map[], map[], CAPACITY), current := p, sending := x.more,
                    glob := if x.more then tx.glob else Add8(tx.glob, 1),
                    toConsume := tx'.toConsume)
  {
    SoleIsFirst(tx.buf, p, x, tx.Policy());
    hide NextAvailable, Pop;
    assert T.Choose(tx) == (Buf(map[], map[], CAPACITY), Some(x));
    assert p in tx.buf.counter;
  }

  lemma Emit(s0: Sys, s: Sys, p: Port) returns (t: Sys)
    requires Reaches(s0, s) && SenderIdle(s, p) && s.Hist(p).enq < |Flat(s.Hist(p).sent)|
    ensures Reaches(s0, t) && Emitted(s, t, p)
  {
    hide T.Iterate, T.Enqueue, Flat, R.Handle, R.Consume;
    var s1, x := ApplyEnqueue(s, p), NextOut(s, p);
    EnqueueOne(s, p);
    ReachesNext(s0, s, EnqueueNext(p));
    EmitOne(s1.tx, p, x.(glob := 0));
    ReachesNext(s0, s1, Turn(true, false));
    t := Apply(s1, Turn(true, false));
    assert s1.link + [x] == [x];
  }

  /** The next packet of `p` is enqueued, emitted and lost. */
  ghost predicate Dropped(s: Sys, t: Sys, p: Port)
    requires s.Hist(p).enq < |Flat(s.Hist(p).sent)|
  {
    var x, h := NextOut(s, p), s.Hist(p);
    && SenderIdle(t, p) && t.tx.sending == x.more && t.rx == s.rx
    && t.Hist(p) == h.(enq := h.enq + 1, lost := h.lost + multiset{h.enq})
    && forall r: Port :: r != p ==> t.Hist(r) == s.Hist(r)
  }

  lemma Drop(s0: Sys, s: Sys, p: Port) returns (t: Sys)
    requires Reaches(s0, s) && SenderIdle(s, p) && s.Hist(p).enq < |Flat(s.Hist(p).sent)|
    ensures Reaches(s0, t) && Dropped(s, t, p)
  {
    var u := Emit(s0, s, p);
    hide T.Iterate, T.Enqueue, Flat, R.Handle, R.Consume;
    ReachesNext(s0, u, Lose(0));
    t := Apply(u, Lose(0));
    assert Without(u.link, 0) == [];
  }

  /** The next packet of `p` is enqueued, emitted and handled by the receiver. */
  ghost predicate Carried(s: Sys, t: Sys, p: Port)
    requires s.Hist(p).enq < |Flat(s.Hist(p).sent)|
  {
    var x := NextOut(s, p);
    && SenderIdle(t, p) && t.tx.sending == x.more
    && t.tx.glob == (if x.more then s.tx.glob else Add8(s.tx.glob, 1))
    && t.rx == R.Handle(s.rx, x).0
    && forall r: Port :: t.Hist(r) == AfterData(s, x, t.rx, r).(enq := s.Hist(r).enq + if r == p then 1 else 0)
  }

  lemma Carry(s0: Sys, s: Sys, p: Port) returns (t: Sys)
    requires Reaches(s0, s) && SenderIdle(s, p) && s.Hist(p).enq < |Flat(s.Hist(p).sent)|
    requires s.Hist(p).enq < s.Hist(p).next + 256
    ensures Reaches(s0, t) && Carried(s, t, p)
  {
    var u := Emit(s0, s, p);
    hide T.Iterate, T.Enqueue, Flat, R.Handle, R.Consume;
    ReachesNext(s0, u, Deliver(0));
    t := Apply(u, Deliver(0));
    Delivered(s, u, p);
  }

  lemma Delivered(s: Sys, u: Sys, p: Port)
    requires s.Hist(p).enq < |Flat(s.Hist(p).sent)| && Emitted(s, u, p) && Timely(u, u.link[0])
    ensures Carried(s, ApplyDeliver(u, 0), p)
  {
    hide Flat, R.Handle, R.Accepts, AfterData;
    var t, x := ApplyDeliver(u, 0), NextOut(s, p);
    assert Without(u.link, 0) == [];
    forall r: Port
      ensures t.Hist(r) == AfterData(s, x, t.rx, r).(enq := s.Hist(r).enq + if r == p then 1 else 0)
    {
      DeliveredHistory(s, u, x, r, s.Hist(r).enq + if r == p then 1 else 0);
    }
    assert t.tx == u.tx && t.halted == u.halted && t.link == [];
  }

  lemma DeliveredHistory(s: Sys, u: Sys, x: Packet, r: Port, enq: nat)
    requires u.link == [x] && x.kind == DATA && Timely(u, x) && u.rx == s.rx && u.Hist(r) == s.Hist(r).(enq := enq)
    ensures ApplyDeliver(u, 0).Hist(r) == AfterData(s, x, R.Handle(s.rx, x).0, r).(enq := enq)
  {
    hide R.Handle, Ids, IdOf, R.Accepts;
  }
}
