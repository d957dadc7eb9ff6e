/** The packet counters of both buffers over whole runs: they list exactly the non-empty queues with their lengths. */
module Indexing {
  import opened Words
  import opened Packets
  import opened Queues
  import opened Buffers
  import opened Protocol
  import opened ProtocolInvariant
  import opened ProtocolSafety
  import R = Receiver
  import T = Sender

  // ----- The receiver -----

  lemma PopManyKeepsIndex(b: Buf, p: Port, n: nat)
    requires IndexAgrees(b) && n <= |b.Queue(p)|
    ensures IndexAgrees(R.PopMany(b, p, n))
  {
    assert IndexAgreesAt(b, p);
    var b' := R.PopMany(b, p, n);
    forall r: Port ensures IndexAgreesAt(b', r) {
      assert IndexAgreesAt(b, r);
    }
  }

  lemma FlushKeepsIndex(rx: R.Rx)
    requires IndexAgrees(rx.buf)
    ensures IndexAgrees(R.FlushQueues(rx).buf)
  {
    forall r: Port ensures IndexAgreesAt(R.FlushQueues(rx).buf, r) {
      assert IndexAgreesAt(rx.buf, r);
    }
  }

  lemma ConsumeKeepsIndex(rx: R.Rx)
    requires IndexAgrees(rx.buf)
    ensures IndexAgrees(R.Consume(rx).0.buf)
  {
    if rx.active && rx.avail != {} {
      var p := R.Lowest(rx.avail);
      PopManyKeepsIndex(rx.buf, p, R.Assemble(rx.buf.Queue(p), At(rx.cur, p)).popped);
      hide R.PopMany, IndexAgrees;
    }
  }

  lemma HandleKeepsIndex(rx: R.Rx, x: Packet)
    requires R.WellFormed(x) && IndexAgrees(rx.buf) && |rx.buf.Queue(x.port)| < 0xFFFF
    ensures IndexAgrees(R.Handle(rx, x).0.buf)
  {
    hide IndexAgrees, Write;
    if R.Accepts(rx, x) {
      WriteKeepsIndex(rx.buf, x, rx.Policy());
      CountKeepsIndex(R.Stored(rx, x), x);
    }
  }

  lemma CountKeepsIndex(rx: R.Rx, x: Packet)
    requires IndexAgrees(rx.buf)
    ensures IndexAgrees(R.CountPacket(rx, x).buf)
  {
    hide IndexAgrees;
    var relative := Sub8(x.glob, rx.globalBase);
    var last := if relative < R.RECEIVING_WINDOW_SIZE && relative > rx.lastGlobal then x.glob else rx.lastGlobal;
    FlushKeepsIndex(rx.(lastGlobal := last, window := Add8(rx.window, 1)));
  }

  /** A receive queue never holds more than 256 packets. */
  lemma ShortQueue(q: seq<Packet>, p: Port, e: nat)
    requires InSpan(q, p, e) && Increasing(q)
    ensures |q| <= 256
  {
    if q != [] {
      AtLeast(q, p, e, |q| - 1);
    }
  }

  lemma StepReceiverIndex(s: Sys, l: Label)
    requires Inv(s) && Enabled(s, l) && IndexAgrees(s.rx.buf)
    ensures IndexAgrees(Apply(s, l).rx.buf)
  {
    match l
    case Deliver(k) =>
      var p := s.link[k].port;
      assert PortInv(s, p);
      ShortQueue(s.RxQueue(p), p, s.Hist(p).next);
      hide IndexAgrees, R.Handle, PortInv;
      HandleKeepsIndex(s.rx, s.link[k]);
    case Take =>
      hide IndexAgrees, R.Consume;
      ConsumeKeepsIndex(s.rx);
    case _ =>
  }

  /** In every run the receiver's counter lists exactly its non-empty queues, with their lengths. */
  lemma {:induction false} ReceiverIndexed(s0: Sys, ls: seq<Label>)
    requires Initial(s0) && Legal(s0, ls)
    ensures IndexAgrees(After(s0, ls).rx.buf)
  {
    hide Apply;
    if ls != [] {
      ReceiverIndexed(s0, ls[..|ls| - 1]);
      RunKeepsInv(s0, ls[..|ls| - 1]);
      StepReceiverIndex(After(s0, ls[..|ls| - 1]), ls[|ls| - 1]);
    }
  }

  // ----- The sender -----

  /** The step adds packet 65536 to a send queue that has room for it. */
  ghost predicate Overfills(s: Sys, l: Label) {
    l.EnqueueNext? && 0xFFFF <= |s.TxQueue(l.p)| && Size(s.TxQueue(l.p)) < s.tx.buf.capacity
  }

  lemma DataKeepsIndex(tx: T.Tx)
    requires IndexAgrees(tx.buf)
    ensures IndexAgrees(T.DataPhase(tx).0.buf)
  {
    if tx.sending {
      PopKeepsIndex(tx.buf, tx.current, tx.Policy());
    } else {
      NextAvailableIsLowest(tx.buf, tx.Policy());
    }
    hide IndexAgrees, Pop, NextAvailable;
  }

  lemma StepSenderIndex(s: Sys, l: Label)
    requires Inv(s) && Enabled(s, l) && IndexAgrees(s.tx.buf)
    ensures IndexAgrees(Apply(s, l).tx.buf) <==> !Overfills(s, l)
  {
    match l
    case EnqueueNext(p) =>
      var f := Flat(s.Hist(p).sent)[s.Hist(p).enq];
      var x := T.Stamp(s.tx, p, f.channel, f.payload, f.sub % 256, f.more, s.Hist(p).enq);
      WriteKeepsIndex(s.tx.buf, x, s.tx.Policy());
      TxNeverClears(s.tx.buf, x, s.tx.Policy());
      hide IndexAgrees, Write, Flat, Inv;
    case Turn(linkUp, syncFull) =>
      DataKeepsIndex(T.SyncPhase(s.tx, syncFull).0);
      hide IndexAgrees, T.DataPhase;
    case _ =>
      hide IndexAgrees, R.Handle, R.Consume;
  }

  ghost predicate AlwaysIndexed(s0: Sys, ls: seq<Label>)
    requires Legal(s0, ls)
  {
    IndexAgrees(After(s0, ls).tx.buf) && (ls != [] ==> AlwaysIndexed(s0, ls[..|ls| - 1]))
  }

  ghost predicate NeverOverfull(s0: Sys, ls: seq<Label>)
    requires Legal(s0, ls)
  {
    ls != [] ==> NeverOverfull(s0, ls[..|ls| - 1]) && !Overfills(After(s0, ls[..|ls| - 1]), ls[|ls| - 1])
  }

  /** Over whole runs: the sender's counter is exact throughout if and only if no packet joins a queue of 65535. */
  lemma {:induction false} SenderIndexedExactly(s0: Sys, ls: seq<Label>)
    requires Initial(s0) && Legal(s0, ls)
    ensures AlwaysIndexed(s0, ls) <==> NeverOverfull(s0, ls)
  {
    hide Apply, Overfills;
    if ls == [] {
      assert IndexAgrees(s0.tx.buf);
    } else {
      var front := ls[..|ls| - 1];
      hide IndexAgrees;
      SenderIndexedExactly(s0, front);
      RunKeepsInv(s0, front);
      if AlwaysIndexed(s0, front) {
        StepSenderIndex(After(s0, front), ls[|ls| - 1]);
      }
    }
  }

  /** A capacity of at most 65535 rules that out. */
  lemma SmallCapacity(s: Sys, l: Label)
    requires s.tx.buf.capacity <= 0xFFFF && IndexAgrees(s.tx.buf)
    ensures !Overfills(s, l)
  {
    if l.EnqueueNext? {
      assert IndexAgreesAt(s.tx.buf, l.p);
    }
  }
}
