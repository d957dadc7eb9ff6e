/** Exactly when the availability index of the receiver goes stale: a clear of the queue of a listed port, by
    `write` or by `flushQueues`, that leaves no complete message. */
module Staleness {
  import opened Words
  import opened Packets
  import opened Queues
  import opened Buffers
  import opened Protocol
  import opened ProtocolInvariant
  import opened ProtocolSafety
  import opened Availability
  import R = Receiver
  import T = Sender

  /** Handling one more packet fills the receiving window. */
  predicate FlushDue(rx: R.Rx) {
    Add8(rx.window, 1) >= R.RECEIVING_WINDOW_SIZE
  }

  /** Handling `x` ends in a flush that finds the head of the queue of `p` outside the reordering window. */
  ghost predicate FlushClears(rx: R.Rx, x: Packet, p: Port) {
    FlushDue(rx) && R.Stale(R.Stored(rx, x), p)
  }

  /** `x` is by itself the whole of the expected message, and there is room for it. */
  predicate WholeAlone(rx: R.Rx, x: Packet) {
    x.seqPort == At(rx.cur, x.port) && !x.more && x.sub == 0 && !Refuses(rx.buf, x, rx.Policy())
  }

  /** `x` completes the message at the head of its port's queue. */
  ghost predicate Completes(rx: R.Rx, x: Packet) {
    R.Complete(Write(rx.buf, x, rx.Policy()).Queue(x.port), At(rx.cur, x.port), rx.code)
  }

  /** The port is listed, or becomes so with this packet, and then its queue is cleared without a complete message
      being left: by the flush, or by `write` when the packet is not a whole message itself. */
  ghost predicate GoesStale(rx: R.Rx, x: Packet, p: Port) {
    if FlushClears(rx, x, p) then p in rx.avail || (p == x.port && Completes(rx, x))
    else p == x.port && p in rx.avail && Clears(rx.buf, x, rx.Policy()) && !WholeAlone(rx, x)
  }

  /** A queue after handling an accepted packet. */
  lemma HandleQueue(rx: R.Rx, x: Packet, p: Port)
    requires R.Accepts(rx, x)
    ensures R.Handle(rx, x).0.buf.Queue(p) ==
      if FlushClears(rx, x, p) then [] else Write(rx.buf, x, rx.Policy()).Queue(p)
  {
    hide R.Complete, Write;
    var rx1 := R.Stored(rx, x);
    var rx2 := R.CountPacket(rx1, x);
    if FlushDue(rx) {
      FlushQueue(rx1.(lastGlobal := rx2.globalBase, window := Add8(rx.window, 1)), p);
    }
  }

  lemma FlushQueue(rx: R.Rx, p: Port)
    ensures R.FlushQueues(rx).buf.Queue(p) == if R.Stale(rx, p) then [] else rx.buf.Queue(p)
  {
  }

  lemma LoneIsComplete(x: Packet, cur: Byte, v: Variant)
    ensures R.Complete([x], cur, v) <==> x.seqPort == cur && !x.more && x.sub == 0
  {
    if x.seqPort == cur && !x.more && x.sub == 0 {
      assert R.CompleteAt([x], cur, v, 0);
    }
  }

  lemma NoneComplete(cur: Byte, v: Variant)
    ensures !R.Complete([], cur, v)
  {
  }

  /** Without a flush: the own port is listed rightly unless `write` cleared what had been complete. */
  lemma WriteStale(q: seq<Packet>, x: Packet, rx: R.Rx, p: Port, e: nat)
    requires q == rx.buf.Queue(p) && p == x.port && InSpan(q, p, e) && Increasing(q) && Spanned(x, p, e)
    requires At(rx.cur, p) == e % 256 && forall i :: 0 <= i < |q| ==> q[i].idx != x.idx
    requires p in rx.avail <==> R.Complete(q, At(rx.cur, p), rx.code)
    ensures (p in rx.avail || Completes(rx, x) <==> Completes(rx, x)) <==>
      !(p in rx.avail && Clears(rx.buf, x, rx.Policy()) && !WholeAlone(rx, x))
  {
    var pol, cur := rx.Policy(), At(rx.cur, p);
    OwnQueue(rx, x);
    if Clears(rx.buf, x, pol) {
      LoneIsComplete(x, cur, rx.code);
      NoneComplete(cur, rx.code);
    } else if p in rx.avail && !Refuses(rx.buf, x, pol) {
      CompleteStays(q, x, pol, p, e, cur, rx.code);
    }
  }

  lemma OwnQueue(rx: R.Rx, x: Packet)
    ensures var q, q1, pol := rx.buf.Queue(x.port), Write(rx.buf, x, rx.Policy()).Queue(x.port), rx.Policy();
      if Clears(rx.buf, x, pol) then q1 == (if Refuses(rx.buf, x, pol) then [] else [x])
      else q1 == (if Refuses(rx.buf, x, pol) then q else Insert(q, x, pol))
  {
  }

  /** Delivering an accepted packet leaves the index exact for `p` exactly unless it goes stale there. */
  lemma DeliverExactly(s: Sys, k: nat, p: Port)
    requires k < |s.link| && Timely(s, s.link[k]) && s.link[k].kind == DATA && R.Accepts(s.rx, s.link[k])
    requires PortInv(s, p) && Exact(s, p)
    ensures Exact(ApplyDeliver(s, k), p) <==> !GoesStale(s.rx, s.link[k], p)
  {
    var rx, x, s' := s.rx, s.link[k], ApplyDeliver(s, k);
    HandleQueue(rx, x, p);
    HandleAvail(rx, x, p);
    assert s'.rx.cur == rx.cur && s'.rx.code == rx.code by { HandleEffect(rx, x, p); }
    NoneComplete(At(rx.cur, p), rx.code);
    hide ApplyDeliver, R.Handle;
    if p == x.port {
      ArrivalIsSpanned(s, p, k);
      OwnPortExactly(s, s', x, p);
    } else {
      assert Write(rx.buf, x, rx.Policy()).Queue(p) == rx.buf.Queue(p);
    }
  }

  lemma OwnPortExactly(s: Sys, s': Sys, x: Packet, p: Port)
    requires p == x.port && PortInv(s, p) && Exact(s, p) && Spanned(x, p, s.Hist(p).next)
    requires x.idx !in Ids(s.RxQueue(p), p)
    requires s'.rx.cur == s.rx.cur && s'.rx.code == s.rx.code
    requires s'.RxQueue(p) ==
      if FlushClears(s.rx, x, p) then [] else Write(s.rx.buf, x, s.rx.Policy()).Queue(p)
    requires p in s'.rx.avail <==> p in s.rx.avail || Completes(s.rx, x)
    ensures Exact(s', p) <==> !GoesStale(s.rx, x, p)
  {
    var q, e := s.RxQueue(p), s.Hist(p).next;
    forall i | 0 <= i < |q| ensures q[i].kind == DATA && q[i].port == p {
      assert Spanned(q[i], p, e);
    }
    NotQueued(q, p, x.idx);
    WriteStale(q, x, s.rx, p, e);
    NoneComplete(At(s.rx.cur, p), s.rx.code);
  }

  /** The delivery of a packet that makes the index stale for `p`. */
  ghost predicate StaleStep(s: Sys, l: Label, p: Port)
    requires Enabled(s, l)
  {
    l.Deliver? && s.link[l.k].kind == DATA && R.Accepts(s.rx, s.link[l.k]) && GoesStale(s.rx, s.link[l.k], p)
  }

  /** From an exact index every step of the pipeline leads to an exact index again, except exactly a delivery that
      clears the queue of a listed port and leaves no complete message there. */
  lemma StepStaleExactly(s: Sys, l: Label, p: Port)
    requires Inv(s) && Enabled(s, l) && Exact(s, p)
    ensures Exact(Apply(s, l), p) <==> !StaleStep(s, l, p)
  {
    assert PortInv(s, p) && s.rx.active;
    hide Inv, PortInv, ApplyDeliver, ApplyTake, R.Complete, R.Accepts, GoesStale, T.Admission, T.Iterate, Flat;
    match l
    case Deliver(k) => StaleDeliver(s, k, p);
    case Take => TakeStaysListed(s, p);
    case _ => ReceiverUnmoved(s, l);
  }

  lemma ReceiverUnmoved(s: Sys, l: Label)
    requires Enabled(s, l) && !l.Deliver? && !l.Take?
    ensures Apply(s, l).rx == s.rx.(openPorts := Apply(s, l).rx.openPorts)
  {
  }

  /** The index was exact for `p` in every state of the run. */
  ghost predicate AlwaysExact(s0: Sys, ls: seq<Label>, p: Port)
    requires Legal(s0, ls)
  {
    Exact(After(s0, ls), p) && (ls != [] ==> AlwaysExact(s0, ls[..|ls| - 1], p))
  }

  /** No step of the run was one that makes the index stale for `p`. */
  ghost predicate NeverStale(s0: Sys, ls: seq<Label>, p: Port)
    requires Legal(s0, ls)
  {
    ls != [] ==> NeverStale(s0, ls[..|ls| - 1], p) && !StaleStep(After(s0, ls[..|ls| - 1]), ls[|ls| - 1], p)
  }

  /** Over whole runs: the index is exact for `p` throughout if and only if no delivery clears the queue of `p`
      while it is listed without leaving a complete message. */
  lemma {:induction false} ExactUnlessStale(s0: Sys, ls: seq<Label>, p: Port)
    requires Initial(s0) && Legal(s0, ls)
    ensures AlwaysExact(s0, ls, p) <==> NeverStale(s0, ls, p)
  {
    hide Apply, StaleStep, Exact;
    if ls == [] {
      StartsExact(s0, p);
    } else {
      var front := ls[..|ls| - 1];
      ExactUnlessStale(s0, front, p);
      RunKeepsInv(s0, front);
      if AlwaysExact(s0, front, p) {
        StepStaleExactly(After(s0, front), ls[|ls| - 1], p);
      }
    }
  }

  lemma StartsExact(s0: Sys, p: Port)
    requires Initial(s0)
    ensures Exact(s0, p)
  {
    InitialAvail(s0);
    assert s0.Hist(p).intact;
  }

  lemma StaleDeliver(s: Sys, k: nat, p: Port)
    requires s.rx.active && Enabled(s, Deliver(k)) && PortInv(s, p) && Exact(s, p)
    ensures Exact(ApplyDeliver(s, k), p) <==> !StaleStep(s, Deliver(k), p)
  {
    var x := s.link[k];
    if x.kind == SYNC {
      SyncExact(s, k, p);
    } else if R.Accepts(s.rx, x) {
      DeliverExactly(s, k, p);
    } else {
      HandleEffect(s.rx, x, p);
      assert ApplyDeliver(s, k).rx == s.rx;
    }
  }

  lemma TakeStaysListed(s: Sys, p: Port)
    requires s.rx.active && s.rx.avail != {} && PortInv(s, p) && Exact(s, p)
    ensures Exact(ApplyTake(s), p)
  {
    TakeEffect(s);
    if p == R.Lowest(s.rx.avail) {
      TakeSucceeds(s);
    }
    hide PortInv, ApplyTake, R.Complete, R.Assemble;
  }

  /** Whatever the index says, consuming the lowest listed port returns a message exactly if a whole message stands
      at its head. If all packets queued are consecutive and announce more, the receiver dereferences a null packet;
      in every other case it returns with its mutex locked. With no port listed, or inactive, it does nothing. */
  lemma ConsumeExactly(rx: R.Rx)
    requires rx.avail != {} ==> |rx.buf.Queue(R.Lowest(rx.avail))| < 0x10000
    ensures if !rx.active then R.Consume(rx) == (rx, R.Inactive)
      else if rx.avail == {} then R.Consume(rx) == (rx, R.NoMessages)
      else
        var p := R.Lowest(rx.avail);
        var q, cur := rx.buf.Queue(p), At(rx.cur, p);
        if HeadWhole(q, cur) then R.Consume(rx).1.Delivered? && R.Consume(rx).1.port == p
        else if R.Leads(q, cur, |q|) then R.Consume(rx).1 == R.Crashed(p)
        else R.Consume(rx).1 == R.Stuck(p)
  {
    if rx.active && rx.avail != {} {
      var p := R.Lowest(rx.avail);
      var q, cur := rx.buf.Queue(p), At(rx.cur, p);
      if HeadWhole(q, cur) {
        var n: nat :| R.WholeAt(q, cur, n);
        R.AssembleFinds(q, cur, n);
      } else if R.Assemble(q, cur).ending == R.Whole {
        R.AssembleSound(q, cur);
      } else {
        R.AssembleFails(q, cur);
      }
    }
  }

  /** A flush that finds a listed port stale leaves it listed with an empty queue, and the next consumer to take it
      dereferences a null packet. */
  lemma FlushStale(rx: R.Rx, x: Packet, p: Port)
    requires R.Accepts(rx, x) && FlushClears(rx, x, p) && (p in rx.avail || (p == x.port && Completes(rx, x)))
    ensures var rx' := R.Handle(rx, x).0;
      p in rx'.avail && rx'.buf.Queue(p) == [] && (p == R.Lowest(rx'.avail) ==> R.Consume(rx').1 == R.Crashed(p))
  {
    HandleQueue(rx, x, p);
    HandleAvail(rx, x, p);
    hide R.Stored, R.CountPacket;
  }

  /** In particular a listed port whose own packets have stopped is crashed by those of another. */
  lemma FlushStaleByOther(rx: R.Rx, x: Packet, p: Port)
    requires R.Accepts(rx, x) && FlushDue(rx) && R.Stale(rx, p)
    requires p in rx.avail && p == R.Lowest(rx.avail) && p < x.port
    ensures var rx' := R.Handle(rx, x).0;
      p in rx'.avail && rx'.buf.Queue(p) == [] && R.Consume(rx').1 == R.Crashed(p)
  {
    assert R.Stale(R.Stored(rx, x), p) by {
      assert Write(rx.buf, x, rx.Policy()).Queue(p) == rx.buf.Queue(p);
      assert p in Active(R.Stored(rx, x).buf);
    }
    FlushStale(rx, x, p);
    HandleAvailOnly(rx, x);
  }

  lemma HandleAvailOnly(rx: R.Rx, x: Packet)
    requires R.Accepts(rx, x)
    ensures var avail := R.Handle(rx, x).0.avail;
      avail == rx.avail || avail == rx.avail + {x.port}
  {
  }
}
