/** End-to-end completeness: when nothing was dropped and nothing is left on the way, consuming until no
    complete message remains returns every accepted message - exactly unless, in the code as written, one of
    them crosses a multiple of 256. */
module Completeness {
  import opened Words
  import opened Packets
  import opened Queues
  import opened Buffers
  import opened Fragmentation
  import opened Protocol
  import opened ProtocolInvariant
  import opened ProtocolSafety
  import opened Availability
  import R = Receiver

  /** Every accepted message of `p` was enqueued, emitted and delivered, and nothing was dropped. */
  ghost predicate AllArrived(s: Sys, p: Port) {
    var h := s.Hist(p);
    && h.enq == |Flat(h.sent)| && s.TxQueue(p) == [] && Ids(s.link, p) == multiset{}
    && h.lost == multiset{} && h.intact
  }

  ghost predicate AllGot(s: Sys, p: Port) {
    s.Hist(p).base + |s.Hist(p).got| == |s.Hist(p).sent| && s.RxQueue(p) == []
  }

  /** The receive queue then holds exactly the packets not yet consumed. */
  lemma QueueHoldsRest(s: Sys, p: Port)
    requires PortInv(s, p) && AllArrived(s, p)
    ensures Ids(s.RxQueue(p), p) == Range(s.Hist(p).next, |Flat(s.Hist(p).sent)|)
  {
  }

  /** An increasing queue with every index from `e` to `f` starts at `e` and has no gaps. */
  lemma FullQueue(q: seq<Packet>, p: Port, e: nat, f: nat, j: nat)
    requires InSpan(q, p, e) && Increasing(q) && e <= f && Ids(q, p) == Range(e, f) && e + j < f
    ensures j < |q| && q[j].idx == e + j
  {
    RangeCount(e, f, e + j);
    IdsWitness(q, p, e + j);
    var k :| 0 <= k < |q| && q[k].kind == DATA && q[k].port == p && q[k].idx == e + j;
    AtLeast(q, p, e, k);
    NoRoom(q, p, e, f, k, j);
  }

  /** The packet with index e + j has all j earlier ones in front of it. */
  lemma {:induction false} NoRoom(q: seq<Packet>, p: Port, e: nat, f: nat, k: nat, j: nat)
    requires InSpan(q, p, e) && Increasing(q) && e <= f && Ids(q, p) == Range(e, f)
    requires k < |q| && q[k].idx == e + j && e + j < f
    ensures j <= k
  {
    if j > 0 {
      RangeCount(e, f, e + j - 1);
      IdsWitness(q, p, e + j - 1);
      var i :| 0 <= i < |q| && q[i].kind == DATA && q[i].port == p && q[i].idx == e + j - 1;
      assert i < k;
      NoRoom(q, p, e, f, i, j - 1);
    }
  }

  /** With everything there, fragment `j` of the next message is at position `j`. */
  lemma HeadParts(q: seq<Packet>, p: Port, h: History, j: nat)
    requires History0(h) && AllFaithful(q, p, h) && InSpan(q, p, h.next) && Increasing(q)
    requires Ids(q, p) == Range(h.next, |Flat(h.sent)|)
    requires h.base + |h.got| < |h.sent| && j < |h.sent[h.base + |h.got|].parts|
    ensures j < |q| && j < 256 && IsPart(q[j], h, j) && q[j].seqPort == (h.next % 256 + j) % 256
  {
    hide Ids, Range, Flat, Start, IsPart;
    FlatAt(h.sent, h.base + |h.got|, j);
    FullQueue(q, p, h.next, |Flat(h.sent)|, j);
    AtLeast(q, p, h.next, j);
    assert Faithful(q[j], p, h);
    PartAt(q[j], p, h, j);
  }

  lemma PartAt(x: Packet, p: Port, h: History, j: nat)
    requires History0(h) && Faithful(x, p, h) && x.idx == h.next + j
    requires h.base + |h.got| < |h.sent| && j < |h.sent[h.base + |h.got|].parts|
    ensures IsPart(x, h, j) && x.seqPort == (h.next % 256 + j) % 256
  {
    FaithfulIsPart(x, p, h, j);
    AddMod(h.next, j);
  }

  lemma PartPasses(q: seq<Packet>, p: Port, h: History, cur: Byte, v: Variant, j: nat)
    requires History0(h) && AllFaithful(q, p, h) && InSpan(q, p, h.next) && Increasing(q)
    requires Ids(q, p) == Range(h.next, |Flat(h.sent)|) && cur == h.next % 256
    requires MessageFits(v, h.sent, h.base + |h.got|) && j < |h.sent[h.base + |h.got|].parts|
    ensures j < |q| && Passes(q[j], cur, v, |h.sent[h.base + |h.got|].parts|, j)
  {
    hide Frags, Flat, Ids;
    HeadParts(q, p, h, j);
    assert h.next == Start(h.sent, h.base + |h.got|);
    IsPartPasses(q[j], h, cur, v, j);
  }

  /** With everything there, the completeness check succeeds exactly if the next message fits it. */
  lemma CheckExactlyFits(q: seq<Packet>, p: Port, h: History, cur: Byte, v: Variant)
    requires History0(h) && AllFaithful(q, p, h) && InSpan(q, p, h.next) && Increasing(q)
    requires Ids(q, p) == Range(h.next, |Flat(h.sent)|) && cur == h.next % 256
    requires h.base + |h.got| < |h.sent|
    ensures R.Complete(q, cur, v) <==> MessageFits(v, h.sent, h.base + |h.got|)
  {
    var k := h.base + |h.got|;
    var n := |h.sent[k].parts|;
    if MessageFits(v, h.sent, k) {
      assert WellCut(h.sent[k]);
      PartPasses(q, p, h, cur, v, n - 1);
      forall j | 0 <= j < n ensures Passes(q[j], cur, v, n, j) {
        PartPasses(q, p, h, cur, v, j);
      }
      AllPass(q, cur, v, n);
    }
    if R.Complete(q, cur, v) {
      CheckedFits(q, p, h, cur, v);
    }
  }

  /** With everything there, nothing is left exactly if all messages have been taken. */
  lemma NothingLeft(q: seq<Packet>, p: Port, h: History)
    requires History0(h) && InSpan(q, p, h.next) && h.enq == |Flat(h.sent)|
    requires Ids(q, p) == Range(h.next, |Flat(h.sent)|)
    ensures h.base + |h.got| == |h.sent| ==> q == []
  {
    StartAll(h.sent);
    NoIds(q, p, h.next);
  }

  /** When everything of `p` has arrived and its queue holds no complete message: either every accepted message
      has been taken and the queue is empty, or - in the code as written only - the next message crosses a
      multiple of 256, is never recognised, and blocks the port. */
  lemma Stalled(s: Sys, p: Port)
    requires Inv(s) && AllArrived(s, p)
    requires !R.Complete(s.RxQueue(p), At(s.rx.cur, p), s.rx.code)
    ensures var h := s.Hist(p);
      AllGot(s, p) || (h.base + |h.got| < |h.sent| && !MessageFits(s.rx.code, h.sent, h.base + |h.got|))
  {
    assert PortInv(s, p);
    hide Inv;
    PortStalled(s, p);
  }

  lemma PortStalled(s: Sys, p: Port)
    requires PortInv(s, p) && AllArrived(s, p)
    requires !R.Complete(s.RxQueue(p), At(s.rx.cur, p), s.rx.code)
    ensures var h := s.Hist(p);
      AllGot(s, p) || (h.base + |h.got| < |h.sent| && !MessageFits(s.rx.code, h.sent, h.base + |h.got|))
  {
    var h := s.Hist(p);
    QueueHoldsRest(s, p);
    hide Conserved, LinkFaithful, R.Complete, MessageFits, Ids, Flat, Range;
    NothingLeft(s.RxQueue(p), p, h);
    if h.base + |h.got| < |h.sent| {
      CheckExactlyFits(s.RxQueue(p), p, h, At(s.rx.cur, p), s.rx.code);
    }
  }

  /** Every message accepted since the last resynchronisation fits the completeness check. */
  ghost predicate AllFit(h: History, v: Variant) {
    forall k :: h.base <= k < |h.sent| ==> MessageFits(v, h.sent, k)
  }

  /** Completeness, exactly: with everything arrived and consumed as far as possible, all accepted messages have
      been returned and the queue is empty if and only if every message fits the completeness check - which in
      the repaired code every message does. */
  lemma CompleteExactly(s: Sys, p: Port)
    requires Inv(s) && AvailInv(s) && AllArrived(s, p)
    requires !R.Complete(s.RxQueue(p), At(s.rx.cur, p), s.rx.code)
    ensures AllGot(s, p) <==> AllFit(s.Hist(p), s.rx.code)
  {
    Stalled(s, p);
    var h := s.Hist(p);
    if AllGot(s, p) {
      assert TakenFit(s, p);
      forall k | h.base <= k < |h.sent| ensures MessageFits(s.rx.code, h.sent, k) {
      }
    } else {
      assert !MessageFits(s.rx.code, h.sent, h.base + |h.got|);
    }
  }

  // ----- Consuming until nothing more is available -----

  /** No port had an accepted packet dropped by the receiver. */
  ghost predicate Undisturbed(s: Sys) {
    forall p: Port :: s.Hist(p).intact
  }

  /** How many packets the receive queues of ports `from`, ..., 127 hold. */
  ghost function Queued(s: Sys, from: nat): nat
    requires from <= 128
    decreases 128 - from
  {
    if from == 128 then 0 else |s.RxQueue(from)| + Queued(s, from + 1)
  }

  lemma {:induction false} QueuedFalls(s: Sys, s': Sys, p: Port, from: nat)
    requires from <= 128 && |s'.RxQueue(p)| < |s.RxQueue(p)|
    requires forall r: Port :: r != p ==> s'.RxQueue(r) == s.RxQueue(r)
    ensures if from <= p then Queued(s', from) < Queued(s, from) else Queued(s', from) == Queued(s, from)
    decreases 128 - from
  {
    if from < 128 {
      QueuedFalls(s, s', p, from + 1);
    }
  }

  /** What taking leaves alone. */
  ghost predicate SameButTaken(s: Sys, s': Sys) {
    && s'.tx == s.tx && s'.link == s.link && s'.rx.code == s.rx.code
    && forall p: Port :: s'.Hist(p).sent == s.Hist(p).sent && s'.Hist(p).enq == s.Hist(p).enq
         && s'.Hist(p).lost == s.Hist(p).lost && s'.Hist(p).base == s.Hist(p).base
  }

  lemma TakeSame(s: Sys)
    requires s.rx.active && s.rx.avail != {}
    ensures SameButTaken(s, ApplyTake(s))
  {
    TakeEffect(s);
    forall p: Port ensures ApplyTake(s).Hist(p).sent == s.Hist(p).sent && ApplyTake(s).Hist(p).enq == s.Hist(p).enq
      && ApplyTake(s).Hist(p).lost == s.Hist(p).lost && ApplyTake(s).Hist(p).base == s.Hist(p).base
    {
    }
  }

  lemma TakeShrinks(s: Sys)
    requires s.rx.active && s.rx.avail != {}
    requires R.Assemble(s.RxQueue(R.Lowest(s.rx.avail)), At(s.rx.cur, R.Lowest(s.rx.avail))).ending == R.Whole
    ensures Queued(ApplyTake(s), 0) < Queued(s, 0)
  {
    var p := R.Lowest(s.rx.avail);
    TakeEffect(s);
    R.AssembleSound(s.RxQueue(p), At(s.rx.cur, p));
    QueuedFalls(s, ApplyTake(s), p, 0);
  }

  lemma TakeStaysExact(s: Sys)
    requires Inv(s) && AvailInv(s) && Undisturbed(s) && !s.halted && s.rx.avail != {}
    ensures AvailInv(ApplyTake(s)) && Undisturbed(ApplyTake(s)) && !ApplyTake(s).halted
  {
    var p := R.Lowest(s.rx.avail);
    assert PortInv(s, p) && s.Hist(p).intact;
    TakeOwnAvail(s, p);
    forall r: Port
      ensures ApplyTake(s).Hist(r).intact && Exact(ApplyTake(s), r) && TakenFit(ApplyTake(s), r)
    {
      assert s.Hist(r).intact;
      TakeAvail(s, r);
    }
  }

  /** One successful take: some port's next message is returned, and its packets leave the queue. */
  lemma TakeProgress(s: Sys)
    requires Inv(s) && AvailInv(s) && Undisturbed(s) && !s.halted && s.rx.avail != {}
    ensures var s' := ApplyTake(s);
      && Inv(s') && AvailInv(s') && Undisturbed(s') && !s'.halted && Queued(s', 0) < Queued(s, 0)
      && SameButTaken(s, s')
  {
    hide PortInv, ApplyTake, Exact, TakenFit, SameButTaken, R.Assemble;
    var p := R.Lowest(s.rx.avail);
    assert PortInv(s, p) && s.Hist(p).intact;
    TakeSucceeds(s);
    TakeShrinks(s);
    TakeSame(s);
    TakeStaysExact(s);
    StepKeepsInv(s, Take);
  }

  /** The receiver's application takes messages until none is available. */
  ghost function TakeAll(s: Sys): Sys
    requires Inv(s) && AvailInv(s) && Undisturbed(s) && !s.halted
    decreases Queued(s, 0)
  {
    if s.rx.avail == {} then s
    else
      TakeProgress(s);
      TakeAll(ApplyTake(s))
  }

  lemma {:induction false} TakeAllKeeps(s: Sys)
    requires Inv(s) && AvailInv(s) && Undisturbed(s) && !s.halted
    ensures var t := TakeAll(s);
      && Inv(t) && AvailInv(t) && Undisturbed(t) && !t.halted && t.rx.avail == {}
      && SameButTaken(s, t)
    decreases Queued(s, 0)
  {
    if s.rx.avail != {} {
      TakeProgress(s);
      TakeAllKeeps(ApplyTake(s));
    }
  }

  /** End-to-end completeness. After any run in which the receiver dropped nothing, once everything of `p` has
      arrived, taking messages until none is available ends, without a crash, and it has then returned every
      message accepted for `p`, in order, and emptied its queue - if and only if every message fits the check. */
  lemma EverythingDelivered(s0: Sys, ls: seq<Label>, p: Port)
    requires Initial(s0) && Legal(s0, ls)
    requires Undisturbed(After(s0, ls)) && AllArrived(After(s0, ls), p)
    ensures Inv(After(s0, ls)) && AvailInv(After(s0, ls)) && !After(s0, ls).halted
    ensures var s, t := After(s0, ls), TakeAll(After(s0, ls));
      && !t.halted && t.Hist(p).sent == s.Hist(p).sent && t.Hist(p).base == s.Hist(p).base
      && (AllGot(t, p) <==> AllFit(s.Hist(p), s0.rx.code))
      && History0(t.Hist(p))
  {
    hide Apply;
    RunKeepsInv(s0, ls);
    RunKeepsAvail(s0, ls);
    assert !After(s0, ls).halted;
    DrainedExactly(After(s0, ls), p);
  }

  lemma DrainedExactly(s: Sys, p: Port)
    requires Inv(s) && AvailInv(s) && Undisturbed(s) && !s.halted && AllArrived(s, p)
    ensures var t := TakeAll(s);
      && !t.halted && t.Hist(p).sent == s.Hist(p).sent && t.Hist(p).base == s.Hist(p).base
      && (AllGot(t, p) <==> AllFit(s.Hist(p), s.rx.code))
      && History0(t.Hist(p))
  {
    TakeAllKeeps(s);
    var t := TakeAll(s);
    assert t.Hist(p).intact && t.rx.avail == {};
    assert Exact(t, p);
    CompleteExactly(t, p);
    assert PortInv(t, p);
  }

  /** The repaired code delivers everything. */
  lemma RepairedDeliversAll(s0: Sys, ls: seq<Label>, p: Port)
    requires Initial(s0) && Legal(s0, ls) && s0.rx.code == Repaired
    requires Undisturbed(After(s0, ls)) && AllArrived(After(s0, ls), p)
    ensures Inv(After(s0, ls)) && AvailInv(After(s0, ls)) && !After(s0, ls).halted
    ensures AllGot(TakeAll(After(s0, ls)), p)
  {
    hide Apply;
    EverythingDelivered(s0, ls, p);
    var h := After(s0, ls).Hist(p);
    forall k | h.base <= k < |h.sent| ensures MessageFits(Repaired, h.sent, k) {
    }
    assert AllFit(h, Repaired);
  }
}
