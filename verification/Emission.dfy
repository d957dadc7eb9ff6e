/** The sender's side: per-port queues are first-in first-out up to exactly 256 outstanding packets, and the
    fragments of a message leave contiguously. */
module Emission {
  import opened Words
  import opened Crc
  import opened Packets
  import opened Queues
  import opened Buffers
  import opened Fragmentation
  import opened Protocol
  import opened ProtocolInvariant
  import opened ProtocolSafety
  import R = Receiver
  import T = Sender

  // ----- Neighbouring packets of a port -----

  /** After a fragment with the more-fragments bit comes the next fragment of the same message. */
  lemma {:induction false} FlatNext(ms: seq<Message>, i: nat)
    requires i < |Flat(ms)| && Flat(ms)[i].more
    ensures i + 1 < |Flat(ms)| && Flat(ms)[i + 1].sub == Flat(ms)[i].sub + 1
  {
    var front := Flat(ms[..|ms| - 1]);
    if i < |front| {
      FlatNext(ms[..|ms| - 1], i);
    } else {
      var j := i - |front|;
      assert Flat(ms)[i] == Frags(ms[|ms| - 1])[j];
      assert Flat(ms)[i + 1] == Frags(ms[|ms| - 1])[j + 1];
    }
  }

  /** Inside the last message, every fragment but the first has a predecessor with the bit set. */
  lemma FragBefore(ms: seq<Message>, i: nat)
    requires ms != [] && |Flat(ms[..|ms| - 1])| < i < |Flat(ms)|
    ensures Flat(ms)[i - 1].more
  {
    var j := i - |Flat(ms[..|ms| - 1])|;
    assert Flat(ms)[i - 1] == Frags(ms[|ms| - 1])[j - 1];
  }

  /** The first packet, and every packet after one without the bit, starts a message. */
  lemma {:induction false} FlatFirst(ms: seq<Message>, i: nat)
    requires i < |Flat(ms)| && (i == 0 || !Flat(ms)[i - 1].more)
    requires forall k :: 0 <= k < |ms| ==> WellCut(ms[k])
    ensures Flat(ms)[i].sub == 0
  {
    var front := Flat(ms[..|ms| - 1]);
    if i < |front| {
      FlatFirst(ms[..|ms| - 1], i);
    } else {
      var j := i - |front|;
      assert Flat(ms)[i] == Frags(ms[|ms| - 1])[j];
      if j > 0 {
        FragBefore(ms, i);
      }
    }
  }

  // ----- First in, first out -----

  /** The queue holds consecutive indices from `e` on. */
  ghost predicate Consecutive(q: seq<Packet>, p: Port, e: nat) {
    forall j :: 0 <= j < |q| ==> InPlace(q[j], p, e + j)
  }

  ghost predicate InPlace(x: Packet, p: Port, i: nat) {
    x.kind == DATA && x.port == p && x.idx == i && x.seqPort == i % 256
  }

  lemma ConsecutiveSpan(q: seq<Packet>, p: Port, e: nat)
    requires Consecutive(q, p, e) && |q| <= 256
    ensures InSpan(q, p, e) && Increasing(q)
  {
    forall j | 0 <= j < |q| ensures Spanned(q[j], p, e) {
      assert InPlace(q[j], p, e + j);
    }
    forall i, j | 0 <= i < j < |q| ensures q[i].idx < q[j].idx {
      assert InPlace(q[i], p, e + i) && InPlace(q[j], p, e + j);
    }
  }

  /** With at most 255 packets waiting, the next packet goes to the end of the queue. */
  lemma JoinsAtEnd(q: seq<Packet>, x: Packet, p: Port, e: nat, pol: Policy)
    requires Consecutive(q, p, e) && |q| <= 255 && InPlace(x, p, e + |q|) && At(pol.offset, p) == e % 256
    ensures Insert(q, x, pol) == q + [x]
  {
    ConsecutiveSpan(q, p, e);
    forall i | 0 <= i < |q| ensures q[i].idx < x.idx {
      assert InPlace(q[i], p, e + i);
    }
    InsertIncreasing(q, x, p, e, pol);
    if Slot(q, x, pol) < |q| {
      assert false;
    }
  }

  /** With 256 packets waiting, the next one - number 257 - goes to the head of the queue. */
  lemma JumpsAhead(q: seq<Packet>, x: Packet, p: Port, e: nat, pol: Policy)
    requires Consecutive(q, p, e) && |q| == 256 && InPlace(x, p, e + 256) && At(pol.offset, p) == e % 256
    ensures Insert(q, x, pol) == [x] + q
  {
    assert x.seqPort == e % 256 by { ModShift(e, 1); }
    assert pol.Rank(p, x) == 0;
    forall j | 0 <= j < |q| ensures !pol.Before(q[j], x) {
      assert InPlace(q[j], p, e + j);
    }
    SlotUnique(q, x, pol, 0);
  }

  /** The bound is tight: a full run of packets stays in enqueue order exactly up to 256 outstanding. */
  lemma FifoExactly(q: seq<Packet>, x: Packet, p: Port, e: nat, pol: Policy)
    requires Consecutive(q, p, e) && |q| <= 256 && InPlace(x, p, e + |q|) && At(pol.offset, p) == e % 256
    ensures Insert(q, x, pol) == q + [x] <==> |q| + 1 <= 256
  {
    if |q| <= 255 {
      JoinsAtEnd(q, x, p, e, pol);
    } else {
      JumpsAhead(q, x, p, e, pol);
      assert InPlace(q[0], p, e + 0);
      assert ([x] + q)[0] != (q + [x])[0];
    }
  }

  /** How many packets of `p` have been emitted. */
  ghost function Emitted(s: Sys, p: Port): int {
    s.Hist(p).enq - |s.TxQueue(p)|
  }

  ghost predicate Fifo(s: Sys, p: Port) {
    && |s.TxQueue(p)| <= 256 && Emitted(s, p) >= 0
    && At(s.tx.toConsume, p) == Emitted(s, p) % 256
    && Consecutive(s.TxQueue(p), p, Emitted(s, p))
  }

  // ----- Contiguity -----

  /** How emitted packet `b` must continue `a`: the next fragment of the same message, or the start of another
      message under the next global sequence number. */
  ghost predicate Follows(a: Packet, b: Packet) {
    if a.more then
      b.port == a.port && b.glob == a.glob && b.sub == a.sub + 1 && b.seqPort == Add8(a.seqPort, 1) && b.idx == a.idx + 1
    else
      b.sub == 0 && b.glob == Add8(a.glob, 1)
  }

  ghost predicate Contiguous(e: seq<Packet>) {
    (e != [] ==> e[0].sub == 0 && e[0].glob == 0) && forall i :: 0 <= i < |e| - 1 ==> Follows(e[i], e[i + 1])
  }

  /** The port's next packet starts a message. */
  ghost predicate AtBoundary(s: Sys, p: Port) {
    var n := Emitted(s, p);
    n <= 0 || (n <= |Flat(s.Hist(p).sent)| && !Flat(s.Hist(p).sent)[n - 1].more)
  }

  /** `sendingFragments`, `currentPort` and `global_seq_num` describe the last packet emitted. */
  ghost predicate Synchronous(s: Sys) {
    if s.emitted == [] then !s.tx.sending && s.tx.glob == 0
    else
      var x := s.emitted[|s.emitted| - 1];
      && Faithful(x, x.port, s.Hist(x.port))
      && s.tx.sending == x.more && s.tx.current == x.port
      && s.tx.glob == (if x.more then x.glob else Add8(x.glob, 1))
      && x.idx + 1 == Emitted(s, x.port)
  }

  ghost predicate EmissionInv(s: Sys) {
    && (forall p: Port :: Fifo(s, p))
    && (forall p: Port :: (s.tx.sending && p == s.tx.current) || AtBoundary(s, p))
    && Synchronous(s) && Contiguous(s.emitted)
  }

  /** The hypothesis: at most 256 packets of a port are outstanding. */
  ghost predicate Bounded(s: Sys, l: Label) {
    l.EnqueueNext? ==> |s.TxQueue(l.p)| + 1 <= 256
  }

  ghost predicate BoundedRun(s0: Sys, ls: seq<Label>)
    requires Legal(s0, ls)
  {
    ls == [] || (BoundedRun(s0, ls[..|ls| - 1]) && Bounded(After(s0, ls[..|ls| - 1]), ls[|ls| - 1]))
  }

  lemma InitialEmission(s: Sys)
    requires Initial(s)
    ensures EmissionInv(s)
  {
    forall p: Port ensures Fifo(s, p) && AtBoundary(s, p) {
      assert s.TxQueue(p) == [] && s.Hist(p).enq == 0;
    }
  }

  // ----- Enqueue -----

  lemma FifoEnqueue(s: Sys, p: Port, x: Packet)
    requires s.tx.active && PortInv(s, p) && Fifo(s, p) && s.tx.buf.capacity >= 256
    requires |s.TxQueue(p)| + 1 <= 256 && s.Hist(p).enq < |Flat(s.Hist(p).sent)|
    requires var f := Flat(s.Hist(p).sent)[s.Hist(p).enq];
      x == T.Stamp(s.tx, p, f.channel, f.payload, f.sub % 256, f.more, s.Hist(p).enq)
    ensures Fifo(ApplyEnqueue(s, p), p) && Emitted(ApplyEnqueue(s, p), p) == Emitted(s, p)
  {
    assert Counters(s, p);
    hide Insert, Slot, PortInv, ApplyEnqueue, Flat;
    EnqueueEffect(s, p, x);
    StampInPlace(s, p, x);
    JoinsAtEnd(s.TxQueue(p), x, p, Emitted(s, p), s.tx.Policy());
    NotRefused(s, x);
    FifoGrows(s, ApplyEnqueue(s, p), p, x);
  }

  lemma FifoGrows(s: Sys, s': Sys, p: Port, x: Packet)
    requires Fifo(s, p) && |s.TxQueue(p)| + 1 <= 256 && InPlace(x, p, s.Hist(p).enq)
    requires s'.TxQueue(p) == s.TxQueue(p) + [x] && s'.Hist(p).enq == s.Hist(p).enq + 1
    requires At(s'.tx.toConsume, p) == At(s.tx.toConsume, p)
    ensures Fifo(s', p) && Emitted(s', p) == Emitted(s, p)
  {
    ConsecutiveSnoc(s.TxQueue(p), x, p, Emitted(s, p));
  }

  lemma StampInPlace(s: Sys, p: Port, x: Packet)
    requires Counters(s, p) && s.Hist(p).enq < |Flat(s.Hist(p).sent)|
    requires var f := Flat(s.Hist(p).sent)[s.Hist(p).enq];
      x == T.Stamp(s.tx, p, f.channel, f.payload, f.sub % 256, f.more, s.Hist(p).enq)
    ensures InPlace(x, p, s.Hist(p).enq)
  {
  }

  lemma NotRefused(s: Sys, x: Packet)
    requires |s.TxQueue(x.port)| < 256 <= s.tx.buf.capacity
    ensures !Refuses(s.tx.buf, x, s.tx.Policy())
  {
    TxNeverClears(s.tx.buf, x, s.tx.Policy());
  }

  lemma ConsecutiveSnoc(q: seq<Packet>, x: Packet, p: Port, e: nat)
    requires Consecutive(q, p, e) && InPlace(x, p, e + |q|)
    ensures Consecutive(q + [x], p, e)
  {
    forall j | 0 <= j < |q| + 1 ensures InPlace((q + [x])[j], p, e + j) {
      if j < |q| {
        assert InPlace(q[j], p, e + j);
      }
    }
  }

  lemma BoundaryKept(s: Sys, s': Sys, p: Port)
    requires AtBoundary(s, p) && Emitted(s', p) == Emitted(s, p) && Extends(s.Hist(p), s'.Hist(p))
    ensures AtBoundary(s', p)
  {
    var n := Emitted(s, p);
    if n > 0 {
      assert Flat(s'.Hist(p).sent)[n - 1] == Flat(s'.Hist(p).sent)[..|Flat(s.Hist(p).sent)|][n - 1];
    }
  }

  /** A step of the sender's clients: queues keep their order, nothing is emitted, histories only grow. */
  lemma ClientStep(s: Sys, s': Sys)
    requires EmissionInv(s) && s'.emitted == s.emitted
    requires s'.tx.sending == s.tx.sending && s'.tx.current == s.tx.current && s'.tx.glob == s.tx.glob
    requires forall p: Port :: Fifo(s', p) && Emitted(s', p) == Emitted(s, p) && Extends(s.Hist(p), s'.Hist(p))
    ensures EmissionInv(s')
  {
    forall p: Port ensures (s'.tx.sending && p == s'.tx.current) || AtBoundary(s', p) {
      if AtBoundary(s, p) {
        BoundaryKept(s, s', p);
      }
    }
    if s.emitted != [] {
      var x := s.emitted[|s.emitted| - 1];
      FaithfulKept([x], x.port, s.Hist(x.port), s'.Hist(x.port));
      assert Faithful([x][0], x.port, s'.Hist(x.port));
    }
  }

  lemma SameFifo(s: Sys, s': Sys, p: Port)
    requires Fifo(s, p) && s'.TxQueue(p) == s.TxQueue(p) && s'.Hist(p).enq == s.Hist(p).enq
    requires At(s'.tx.toConsume, p) == At(s.tx.toConsume, p)
    ensures Fifo(s', p) && Emitted(s', p) == Emitted(s, p)
  {
  }

  lemma EnqueueEmission(s: Sys, p0: Port)
    requires Inv(s) && EmissionInv(s) && s.tx.buf.capacity >= 256 && !s.halted
    requires Enabled(s, EnqueueNext(p0)) && Bounded(s, EnqueueNext(p0))
    ensures EmissionInv(ApplyEnqueue(s, p0))
  {
    var s', h := ApplyEnqueue(s, p0), s.Hist(p0);
    var f := Flat(h.sent)[h.enq];
    var x := T.Stamp(s.tx, p0, f.channel, f.payload, f.sub % 256, f.more, h.enq);
    EnqueueEffect(s, p0, x);
    forall p: Port ensures Fifo(s', p) && Emitted(s', p) == Emitted(s, p) && Extends(s.Hist(p), s'.Hist(p)) {
      assert Fifo(s, p) && PortInv(s, p);
      if p == p0 {
        FifoEnqueue(s, p, x);
      } else {
        SameFifo(s, s', p);
      }
      SameExtends(s.Hist(p), s'.Hist(p));
    }
    ClientStep(s, s');
  }

  // ----- Turn -----

  lemma FifoPop(q: seq<Packet>, y: Packet, q': seq<Packet>, p: Port, e: nat)
    requires q == [y] + q' && Consecutive(q, p, e)
    ensures InPlace(y, p, e) && Consecutive(q', p, e + 1)
  {
    assert InPlace(q[0], p, e + 0);
    forall j | 0 <= j < |q'| ensures InPlace(q'[j], p, e + 1 + j) {
      assert InPlace(q[j + 1], p, e + (j + 1));
    }
  }

  lemma EmitFifo(s: Sys, s': Sys, r: Port, y: Packet, p: Port)
    requires Fifo(s, p) && s'.hist == s.hist && s.TxQueue(r) == [y] + s'.TxQueue(r)
    requires s'.tx.toConsume == s.tx.toConsume[r := Add8(At(s.tx.toConsume, r), 1)]
    requires p != r ==> s'.TxQueue(p) == s.TxQueue(p)
    ensures Fifo(s', p) && Emitted(s', p) == Emitted(s, p) + if p == r then 1 else 0
  {
    if p == r {
      FifoPop(s.TxQueue(p), y, s'.TxQueue(p), p, Emitted(s, p));
      AddMod(Emitted(s, p), 1);
    } else {
      SameFifo(s, s', p);
    }
  }

  /** The packet after the last one emitted, when it is the next fragment. */
  lemma NextFragment(x: Packet, y: Packet, p: Port, h: History)
    requires Faithful(x, p, h) && Faithful(y, p, h) && x.more && y.idx == x.idx + 1
    ensures y.sub == x.sub + 1 && y.seqPort == Add8(x.seqPort, 1)
  {
    FlatNext(h.sent, x.idx);
    AddMod(x.idx, 1);
  }

  /** A packet at a boundary starts a message. */
  lemma StartsMessage(y: Packet, p: Port, h: History)
    requires Faithful(y, p, h) && History0(h)
    requires y.idx == 0 || !Flat(h.sent)[y.idx - 1].more
    ensures y.sub == 0
  {
    FlatFirst(h.sent, y.idx);
  }

  /** The head of a port's queue is the packet after the last one emitted from it. */
  lemma HeadIsNext(s: Sys, r: Port, y: Packet, rest: seq<Packet>)
    requires Inv(s) && Fifo(s, r) && s.TxQueue(r) == [y] + rest
    ensures Faithful(y, r, s.Hist(r)) && y.idx == Emitted(s, r) && History0(s.Hist(r))
  {
    assert PortInv(s, r);
    HeadFaithful(s.TxQueue(r), y, rest, r, s.Hist(r));
    FifoPop(s.TxQueue(r), y, rest, r, Emitted(s, r));
  }

  lemma BoundaryStarts(s: Sys, r: Port, y: Packet)
    requires AtBoundary(s, r) && Faithful(y, r, s.Hist(r)) && y.idx == Emitted(s, r) && History0(s.Hist(r))
    ensures y.sub == 0
  {
    StartsMessage(y, r, s.Hist(r));
  }

  /** Emitting the head of the chosen port continues the sequence of emitted packets. */
  lemma EmitFollows(s: Sys, r: Port, y: Packet)
    requires Synchronous(s) && ((s.tx.sending && r == s.tx.current) || (!s.tx.sending && AtBoundary(s, r)))
    requires Faithful(y, r, s.Hist(r)) && y.idx == Emitted(s, r) && History0(s.Hist(r))
    ensures if s.emitted == [] then y.sub == 0 && s.tx.glob == 0
            else Follows(s.emitted[|s.emitted| - 1], y.(glob := s.tx.glob))
  {
    if s.tx.sending {
      NextFragment(s.emitted[|s.emitted| - 1], y, r, s.Hist(r));
    } else {
      BoundaryStarts(s, r, y);
    }
  }

  lemma ContiguousSnoc(e: seq<Packet>, x: Packet)
    requires Contiguous(e) && if e == [] then x.sub == 0 && x.glob == 0 else Follows(e[|e| - 1], x)
    ensures Contiguous(e + [x])
  {
    var f := e + [x];
    forall i | 0 <= i < |f| - 1 ensures Follows(f[i], f[i + 1]) {
      if i < |e| - 1 {
        assert f[i] == e[i] && f[i + 1] == e[i + 1];
      }
    }
  }

  /** What the data phase makes of the sender's own variables. */
  lemma DataVariables(tx: T.Tx) returns (r: Port, y: Packet)
    ensures var (tx', data) := T.DataPhase(tx);
      if data == [] then
        && tx'.buf == tx.buf && tx'.sending == tx.sending && tx'.current == tx.current && tx'.glob == tx.glob
        && tx'.toConsume == tx.toConsume
      else
        && Emits(tx, tx', data, r, y) && (tx.sending ==> r == tx.current)
        && (y.port == r ==> tx'.current == r && tx'.toConsume == tx.toConsume[r := Add8(At(tx.toConsume, r), 1)])
        && tx'.sending == y.more && tx'.glob == (if y.more then tx.glob else Add8(tx.glob, 1))
  {
    hide Pop, FirstEligible;
    r := ChosenPort(tx);
    ChoiceIsPop(tx);
    PopEffect(tx.buf, r, tx.Policy());
    var (b, choice) := T.Choose(tx);
    y := if choice.Some? then choice.value else T.SyncPacket(tx);
  }

  lemma EmitBoundary(s: Sys, s': Sys, r: Port, y: Packet, p: Port)
    requires EmissionInv(s) && Faithful(y, r, s.Hist(r)) && s'.hist == s.hist && y.idx == Emitted(s, r)
    requires Emitted(s', p) == Emitted(s, p) + if p == r then 1 else 0
    requires s.tx.sending ==> r == s.tx.current
    requires s'.tx.sending == y.more && s'.tx.current == r
    ensures (s'.tx.sending && p == s'.tx.current) || AtBoundary(s', p)
  {
    if p != r {
      assert AtBoundary(s, p);
    }
  }

  lemma EmitSynchronous(s: Sys, s': Sys, r: Port, x: Packet)
    requires Faithful(x, r, s'.Hist(r)) && s'.emitted == s.emitted + [x] && x.idx + 1 == Emitted(s', r)
    requires s'.tx.sending == x.more && s'.tx.current == r && s'.tx.glob == (if x.more then x.glob else Add8(x.glob, 1))
    ensures Synchronous(s')
  {
  }

  lemma EmitEmission(s: Sys, s': Sys, r: Port, y: Packet)
    requires Inv(s) && EmissionInv(s) && s'.hist == s.hist && Emits(s.tx, s'.tx, [y.(glob := s.tx.glob)], r, y)
    requires s.tx.sending ==> r == s.tx.current
    requires y.port == r ==>
      s'.tx.current == r && s'.tx.toConsume == s.tx.toConsume[r := Add8(At(s.tx.toConsume, r), 1)]
    requires s'.tx.sending == y.more && s'.tx.glob == (if y.more then s.tx.glob else Add8(s.tx.glob, 1))
    requires s'.emitted == s.emitted + [y.(glob := s.tx.glob)]
    ensures EmissionInv(s')
  {
    var x := y.(glob := s.tx.glob);
    HeadIsNext(s, r, y, s'.TxQueue(r));
    forall p: Port ensures Fifo(s', p) && ((s'.tx.sending && p == s'.tx.current) || AtBoundary(s', p)) {
      assert Fifo(s, p);
      EmitFifo(s, s', r, y, p);
      EmitBoundary(s, s', r, y, p);
    }
    EmitFollows(s, r, y);
    ContiguousSnoc(s.emitted, x);
    EmitFifo(s, s', r, y, r);
    EmitSynchronous(s, s', r, x);
  }

  // ----- Every step -----

  /** A step that leaves the sender's queues and variables and the emitted packets alone. */
  lemma SenderUntouched(s: Sys, s': Sys)
    requires EmissionInv(s) && s'.emitted == s.emitted && s'.tx.buf == s.tx.buf && s'.tx.toConsume == s.tx.toConsume
    requires s'.tx.sending == s.tx.sending && s'.tx.current == s.tx.current && s'.tx.glob == s.tx.glob
    requires forall p: Port :: s'.Hist(p).sent == s.Hist(p).sent && s'.Hist(p).enq == s.Hist(p).enq
    ensures EmissionInv(s')
  {
    forall p: Port ensures Fifo(s', p) && ((s'.tx.sending && p == s'.tx.current) || AtBoundary(s', p)) {
      assert Fifo(s, p);
      assert (s.tx.sending && p == s.tx.current) || AtBoundary(s, p);
      SameFifo(s, s', p);
    }
    if s.emitted != [] {
      var x := s.emitted[|s.emitted| - 1];
      SameFifo(s, s', x.port);
    }
  }

  lemma SendEmission(s: Sys, l: Label)
    requires Inv(s) && EmissionInv(s) && l.Send? && Enabled(s, l)
    ensures EmissionInv(Apply(s, l))
  {
    hide AllFaithful, LinkFaithful, Conserved, InSpan, Increasing;
    var s' := Apply(s, l);
    var m := Message(l.mem[..l.len], Cut(s.rx.code, l.mem, l.len), l.channel);
    CountBounds(l.len);
    forall p: Port ensures Fifo(s', p) && Emitted(s', p) == Emitted(s, p) && Extends(s.Hist(p), s'.Hist(p)) {
      assert PortInv(s, p) && Fifo(s, p);
      SameFifo(s, s', p);
      if p == l.p {
        SendExtends(s.Hist(p), m);
      } else {
        SameExtends(s.Hist(p), s'.Hist(p));
      }
    }
    ClientStep(s, s');
  }

  lemma DataOnlyOne(x: Packet)
    ensures DataOnly([x]) == if x.kind == DATA then [x] else []
  {
    assert [x][..0] == [];
    assert DataOnly([x][..0]) == [];
  }

  lemma {:induction false} DataOnlyConcat(a: seq<Packet>, b: seq<Packet>)
    ensures DataOnly(a + b) == DataOnly(a) + DataOnly(b)
  {
    if b == [] {
      assert a + b == a;
    } else {
      ConcatSnoc(a, b);
      DataOnlyConcat(a, b[..|b| - 1]);
      SnocFront(a + b[..|b| - 1], b[|b| - 1]);
    }
  }

  /** The data phase of a turn. */
  lemma DataEmission(s1: Sys, s': Sys)
    requires Inv(s1) && EmissionInv(s1)
    requires var (tx2, data) := T.DataPhase(s1.tx);
      s'.tx == tx2 && s'.hist == s1.hist && s'.emitted == s1.emitted + DataOnly(data)
    ensures EmissionInv(s')
  {
    var data := T.DataPhase(s1.tx).1;
    var r, y := DataVariables(s1.tx);
    if data == [] {
      assert s'.emitted == s1.emitted;
      SenderUntouched(s1, s');
    } else {
      HeadOfQueue(s1, r, y, s'.TxQueue(r));
      DataOnlyOne(data[0]);
      EmitEmission(s1, s', r, y);
    }
  }

  lemma HeadOfQueue(s: Sys, r: Port, y: Packet, rest: seq<Packet>)
    requires Inv(s) && s.TxQueue(r) == [y] + rest
    ensures y.port == r && y.kind == DATA
  {
    assert PortInv(s, r);
    HeadFaithful(s.TxQueue(r), y, rest, r, s.Hist(r));
  }

  /** A sync phase leaves the invariant standing. */
  lemma SyncLeavesInv(s: Sys, s1: Sys, syncFull: bool)
    requires Inv(s)
    requires var (tx1, sync) := T.SyncPhase(s.tx, syncFull); s1 == s.(tx := tx1, link := s.link + sync)
    ensures Inv(s1)
  {
    hide PortInv;
    forall q: Port ensures PortInv(s1, q) {
      SyncTurnKeeps(s, s1, syncFull, q);
    }
    assert SyncsIntact(s1) by {
      forall x | x in s1.link && x.kind == SYNC ensures x in s.link || x.crc == Checksum(x.payload) {
      }
      SyncsKept(s, s1);
    }
  }

  lemma SyncPhaseKeeps(s: Sys, syncFull: bool) returns (s1: Sys)
    requires Inv(s) && EmissionInv(s)
    ensures var (tx1, sync) := T.SyncPhase(s.tx, syncFull);
      && s1 == s.(tx := tx1, link := s.link + sync) && Inv(s1) && EmissionInv(s1) && DataOnly(sync) == []
  {
    hide PortInv;
    var (tx1, sync) := T.SyncPhase(s.tx, syncFull);
    s1 := s.(tx := tx1, link := s.link + sync);
    SyncLeavesInv(s, s1, syncFull);
    if sync != [] {
      DataOnlyOne(sync[0]);
    }
    SenderUntouched(s, s1);
  }

  /** A turn is its sync phase and its data phase. */
  lemma TurnPhases(s: Sys, linkUp: bool, syncFull: bool)
    requires !s.halted
    ensures var s' := Apply(s, Turn(linkUp, syncFull));
      var (tx1, sync) := T.SyncPhase(s.tx, syncFull);
      var (tx2, data) := T.DataPhase(tx1);
      && s'.hist == s.hist
      && if !linkUp || |s.tx.blocked| >= T.S3TP_VIRTUAL_CHANNELS
         then s'.tx == s.tx.(state := T.BLOCKED) && s'.emitted == s.emitted
         else s'.tx == tx2 && s'.emitted == s.emitted + (DataOnly(sync) + DataOnly(data))
  {
    var (tx1, sync) := T.SyncPhase(s.tx, syncFull);
    DataOnlyConcat(sync, T.DataPhase(tx1).1);
  }

  lemma TurnEmission(s: Sys, linkUp: bool, syncFull: bool)
    requires Inv(s) && EmissionInv(s) && !s.halted
    ensures EmissionInv(Apply(s, Turn(linkUp, syncFull)))
  {
    hide Apply, Inv, EmissionInv, T.SyncPhase, T.DataPhase;
    var s' := Apply(s, Turn(linkUp, syncFull));
    TurnPhases(s, linkUp, syncFull);
    if !linkUp || |s.tx.blocked| >= T.S3TP_VIRTUAL_CHANNELS {
      SenderUntouched(s, s');
    } else {
      var s1 := SyncPhaseKeeps(s, syncFull);
      DataEmission(s1, s');
    }
  }

  lemma OtherEmission(s: Sys, l: Label)
    requires Inv(s) && EmissionInv(s) && Enabled(s, l)
    requires !l.Send? && !l.EnqueueNext? && !l.Turn?
    ensures EmissionInv(Apply(s, l))
  {
    hide PortInv, EmissionInv, R.Handle, R.Consume;
    var s' := Apply(s, l);
    if l.Take? {
      TakeEffect(s);
    }
    forall p: Port ensures s'.Hist(p).sent == s.Hist(p).sent && s'.Hist(p).enq == s.Hist(p).enq {
    }
    SenderUntouched(s, s');
  }

  lemma StepEmission(s: Sys, l: Label)
    requires Inv(s) && EmissionInv(s) && Enabled(s, l) && Bounded(s, l) && s.tx.buf.capacity >= 256
    ensures EmissionInv(Apply(s, l))
  {
    hide Inv, EmissionInv;
    match l
    case Send(_, _, _, _) => SendEmission(s, l);
    case EnqueueNext(p) => EnqueueEmission(s, p);
    case Turn(linkUp, syncFull) => TurnEmission(s, linkUp, syncFull);
    case _ => OtherEmission(s, l);
  }

  lemma TurnCapacity(tx: T.Tx)
    ensures T.DataPhase(tx).0.buf.capacity == tx.buf.capacity
  {
  }

  lemma StepCapacity(s: Sys, l: Label)
    requires Enabled(s, l)
    ensures Apply(s, l).tx.buf.capacity == s.tx.buf.capacity
  {
    match l
    case Turn(linkUp, syncFull) => hide T.DataPhase; TurnCapacity(T.SyncPhase(s.tx, syncFull).0);
    case EnqueueNext(_) => hide Insert;
    case Deliver(_) => hide R.Handle;
    case Take => hide R.Consume;
    case _ =>
  }

  lemma {:induction false} RunEmission(s0: Sys, ls: seq<Label>)
    requires Initial(s0) && s0.tx.buf.capacity >= 256 && Legal(s0, ls) && BoundedRun(s0, ls)
    ensures EmissionInv(After(s0, ls)) && After(s0, ls).tx.buf.capacity == s0.tx.buf.capacity
  {
    hide Apply;
    if ls == [] {
      InitialEmission(s0);
    } else {
      var s := After(s0, ls[..|ls| - 1]);
      RunKeepsInv(s0, ls[..|ls| - 1]);
      RunEmission(s0, ls[..|ls| - 1]);
      StepEmission(s, ls[|ls| - 1]);
      StepCapacity(s, ls[|ls| - 1]);
    }
  }

  /** The queue of `p` is what was enqueued and not yet emitted, in enqueue order, numbered (modulo 256) from
      `to_consume_port_seq` up to `port_sequence`. */
  ghost predicate InEnqueueOrder(s: Sys, p: Port) {
    var q, e := s.TxQueue(p), Emitted(s, p);
    && 0 <= e && e + |q| == s.Hist(p).enq
    && At(s.tx.toConsume, p) == e % 256 && At(s.tx.portSeq, p) == (e + |q|) % 256
    && forall j :: 0 <= j < |q| ==> q[j].idx == e + j && q[j].seqPort == (e + j) % 256
  }

  /** In every run with at most 256 packets of a port outstanding, each port's queue is first in, first out: it
      holds exactly the packets enqueued and not yet emitted, in enqueue order, numbered from
      `to_consume_port_seq` to `port_sequence - 1`. */
  lemma SenderFifo(s0: Sys, ls: seq<Label>, p: Port)
    requires Initial(s0) && s0.tx.buf.capacity >= 256 && Legal(s0, ls) && BoundedRun(s0, ls)
    ensures InEnqueueOrder(After(s0, ls), p)
  {
    hide Apply;
    RunEmission(s0, ls);
    RunKeepsInv(s0, ls);
    CountersHold(After(s0, ls), p);
    assert Fifo(After(s0, ls), p);
    FifoNumbers(After(s0, ls), p);
  }

  lemma CountersHold(s: Sys, p: Port)
    requires Inv(s)
    ensures Counters(s, p)
  {
    assert PortInv(s, p);
  }

  lemma FifoNumbers(s: Sys, p: Port)
    requires Fifo(s, p) && Counters(s, p)
    ensures InEnqueueOrder(s, p)
  {
    var q, e := s.TxQueue(p), Emitted(s, p);
    forall j | 0 <= j < |q| ensures q[j].idx == e + j && q[j].seqPort == (e + j) % 256 {
      assert InPlace(q[j], p, e + j);
    }
  }

  /** Contiguous emission: whatever the interleaving of clients, blocked channels and busy ports, once a packet
      with the more-fragments bit has left, the next data packet to leave is the next fragment of that message -
      same port, same global sequence, next sub- and port sequence - and after a last fragment the next packet
      starts a message under the next global sequence number. */
  lemma ContiguousEmission(s0: Sys, ls: seq<Label>)
    requires Initial(s0) && s0.tx.buf.capacity >= 256 && Legal(s0, ls) && BoundedRun(s0, ls)
    ensures Contiguous(After(s0, ls).emitted)
  {
    hide Apply;
    RunEmission(s0, ls);
  }
}
