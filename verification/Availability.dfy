/** The availability index of the receiver is exact while no accepted packet is dropped, so the receiver then
    never crashes and never gets stuck. */
module Availability {
  import opened Words
  import opened Packets
  import opened Queues
  import opened Buffers
  import opened Fragmentation
  import opened Protocol
  import opened ProtocolInvariant
  import opened ProtocolSafety
  import R = Receiver

  /** `available_messages` has the port exactly when a complete message stands at the head of its queue. */
  ghost predicate Exact(s: Sys, p: Port) {
    p in s.rx.avail <==> R.Complete(s.RxQueue(p), At(s.rx.cur, p), s.rx.code)
  }

  /** A message fits the completeness check: as written it must not cross a multiple of 256. */
  ghost predicate Fits(v: Variant, start: nat, n: nat) {
    v == Repaired || start % 256 + n <= 256
  }

  ghost predicate MessageFits(v: Variant, ms: seq<Message>, k: nat) {
    k < |ms| && Fits(v, Start(ms, k), |ms[k].parts|)
  }

  /** Every message taken passed the check. */
  ghost predicate TakenFit(s: Sys, p: Port) {
    forall k :: s.Hist(p).base <= k < s.Hist(p).base + |s.Hist(p).got| ==> MessageFits(s.rx.code, s.Hist(p).sent, k)
  }

  ghost predicate AvailInv(s: Sys) {
    && (forall p: Port :: s.Hist(p).intact ==> Exact(s, p) && TakenFit(s, p))
    && (s.halted ==> exists p: Port :: !s.Hist(p).intact)
  }

  // ----- The completeness check and absolute indices -----

  /** The check, where it succeeds, has seen consecutive absolute indices. */
  lemma CheckedIds(q: seq<Packet>, p: Port, e: nat, cur: Byte, v: Variant, k: nat, j: nat)
    requires InSpan(q, p, e) && Increasing(q) && cur == e % 256 && R.CompleteAt(q, cur, v, k) && j <= k
    ensures q[j].idx == e + j && j < 256 && (v == AsWritten ==> cur + j <= 255)
  {
    AtLeast(q, p, e, j);
    assert Spanned(q[j], p, e);
    assert q[j].seqPort == R.Expected(v, cur, j);
    ExpectedResidue(v, e, j);
    ResidueDetermines(q[j].idx, e + j, e);
  }

  /** A sequence number the check accepts at position `j` is that of the packet `j` ahead. */
  lemma ExpectedResidue(v: Variant, e: nat, j: nat)
    requires j < 256 && R.Expected(v, e % 256, j) < 256
    ensures R.Expected(v, e % 256, j) == (e + j) % 256
    ensures v == AsWritten ==> e % 256 + j <= 255
  {
    AddMod(e, j);
  }

  /** A complete message stays complete when another packet of the span arrives. */
  lemma CompleteStays(q: seq<Packet>, x: Packet, pol: Policy, p: Port, e: nat, cur: Byte, v: Variant)
    requires InSpan(q, p, e) && Increasing(q) && Spanned(x, p, e) && At(pol.offset, p) == cur == e % 256
    requires forall i :: 0 <= i < |q| ==> q[i].idx != x.idx
    requires R.Complete(q, cur, v)
    ensures R.Complete(Insert(q, x, pol), cur, v)
  {
    var k :| R.CompleteAt(q, cur, v, k);
    var r := Insert(q, x, pol);
    InsertIncreasing(q, x, p, e, pol);
    BeyondRun(q, x, p, e, cur, v, k);
    assert Slot(q, x, pol) > k;
    forall j | 0 <= j <= k ensures r[j] == q[j] {
      InsertIndex(q, x, pol, j);
    }
    assert R.CompleteAt(r, cur, v, k);
  }

  lemma {:induction false} BeyondRun(q: seq<Packet>, x: Packet, p: Port, e: nat, cur: Byte, v: Variant, k: nat)
    requires InSpan(q, p, e) && Increasing(q) && Spanned(x, p, e) && cur == e % 256
    requires forall i :: 0 <= i < |q| ==> q[i].idx != x.idx
    requires R.CompleteAt(q, cur, v, k)
    ensures x.idx > e + k && q[k].idx == e + k
  {
    CheckedIds(q, p, e, cur, v, k, k);
    if x.idx < e + k {
      CheckedIds(q, p, e, cur, v, k, x.idx - e);
    }
  }

  // ----- Deliver -----

  lemma NoIds(q: seq<Packet>, p: Port, e: nat)
    requires InSpan(q, p, e)
    ensures Ids(q, p) == multiset{} ==> q == []
  {
    if q != [] {
      assert Spanned(q[0], p, e);
      IdsMember(q, 0, p);
    }
  }

  lemma OneMoreId(m: multiset<nat>, x: nat)
    ensures m + multiset{x} != m && m + multiset{x} != multiset{}
  {
    assert (m + multiset{x})[x] == m[x] + 1;
  }

  /** If nothing was dropped, the packet was inserted into the port's queue. */
  lemma NothingDropped(q: seq<Packet>, q': seq<Packet>, x: Packet, pol: Policy, p: Port, e: nat)
    requires QueueAfter(q, q', x, true, pol) && InSpan(q, p, e) && IdOf(x, p) == multiset{x.idx}
    requires Ids(q', p) == Ids(q, p) + IdOf(x, p)
    ensures q' == Insert(q, x, pol)
  {
    OneMoreId(Ids(q, p), x.idx);
    if q' == Insert([], x, pol) {
      IdsInsert([], x, pol, p);
      MultisetCancel(multiset{x.idx}, Ids(q, p), multiset{});
      NoIds(q, p, e);
    }
  }

  /** What `handleReceivedPacket` leaves in the index. */
  lemma HandleAvail(rx: R.Rx, x: Packet, p: Port)
    requires x.kind != SYNC && R.Accepts(rx, x)
    ensures var rx', q1 := R.Handle(rx, x).0, Write(rx.buf, x, rx.Policy()).Queue(x.port);
      && (p != x.port ==> (p in rx'.avail <==> p in rx.avail))
      && (x.port in rx'.avail <==> x.port in rx.avail || R.Complete(q1, At(rx.cur, x.port), rx.code))
      && (rx'.buf.Queue(x.port) == q1 || rx'.buf.Queue(x.port) == [])
  {
  }

  lemma DeliverOwnExact(s: Sys, k: nat, p: Port)
    requires k < |s.link| && Timely(s, s.link[k]) && s.link[k].kind == DATA && s.link[k].port == p
    requires PortInv(s, p) && Exact(s, p) && R.Accepts(s.rx, s.link[k])
    requires var s' := ApplyDeliver(s, k);
      Ids(s'.RxQueue(p), p) == Ids(s.RxQueue(p), p) + IdOf(s.link[k], p)
    ensures Exact(ApplyDeliver(s, k), p)
  {
    var s', x, e := ApplyDeliver(s, k), s.link[k], s.Hist(p).next;
    var q, q', pol, cur := s.RxQueue(p), s'.RxQueue(p), s.rx.Policy(), At(s.rx.cur, p);
    HandleEffect(s.rx, x, p);
    HandleAvail(s.rx, x, p);
    ArrivalIsSpanned(s, p, k);
    NothingDropped(q, q', x, pol, p, e);
    if R.Complete(q, cur, s.rx.code) {
      forall i | 0 <= i < |q| ensures q[i].kind == DATA && q[i].port == p {
        assert Spanned(q[i], p, e);
      }
      NotQueued(q, p, x.idx);
      CompleteStays(q, x, pol, p, e, cur, s.rx.code);
    }
  }

  /** If nothing of the port was dropped and the packet is not its own, its queue is untouched. */
  lemma NothingTouched(q: seq<Packet>, q': seq<Packet>, p: Port, e: nat)
    requires (q' == q || q' == []) && InSpan(q, p, e) && Ids(q', p) == Ids(q, p)
    ensures q' == q
  {
    NoIds(q, p, e);
  }

  lemma DeliverOtherExact(s: Sys, k: nat, p: Port)
    requires k < |s.link| && Timely(s, s.link[k]) && s.link[k].kind == DATA && s.link[k].port != p
    requires PortInv(s, p) && Exact(s, p) && R.Accepts(s.rx, s.link[k])
    requires Ids(ApplyDeliver(s, k).RxQueue(p), p) == Ids(s.RxQueue(p), p)
    ensures Exact(ApplyDeliver(s, k), p)
  {
    HandleEffect(s.rx, s.link[k], p);
    HandleAvail(s.rx, s.link[k], p);
    NothingTouched(s.RxQueue(p), ApplyDeliver(s, k).RxQueue(p), p, s.Hist(p).next);
  }

  lemma DeliverExact(s: Sys, k: nat, p: Port)
    requires k < |s.link| && Timely(s, s.link[k]) && s.link[k].kind != SYNC && PortInv(s, p) && Exact(s, p)
    requires ApplyDeliver(s, k).Hist(p).intact
    ensures Exact(ApplyDeliver(s, k), p)
  {
    var s', x := ApplyDeliver(s, k), s.link[k];
    HandleEffect(s.rx, x, p);
    assert s'.Hist(p) == AfterData(s, x, s'.rx, p);
    if R.Accepts(s.rx, x) {
      if x.port == p {
        DeliverOwnExact(s, k, p);
      } else {
        assert IdOf(x, p) == multiset{};
        DeliverOtherExact(s, k, p);
      }
    }
  }

  lemma SyncExact(s: Sys, k: nat, p: Port)
    requires k < |s.link| && Timely(s, s.link[k]) && s.link[k].kind == SYNC && Exact(s, p)
    ensures Exact(ApplyDeliver(s, k), p)
  {
    var s', x := ApplyDeliver(s, k), s.link[k];
    SyncEffect(s.rx, x, p);
    assert SyncFits(s, x, p);
    assert s'.RxQueue(p) == s.RxQueue(p) && (s.RxQueue(p) == [] || At(s'.rx.cur, p) == At(s.rx.cur, p));
    assert s.RxQueue(p) == [] ==>
      !R.Complete(s.RxQueue(p), At(s.rx.cur, p), s.rx.code) && !R.Complete(s'.RxQueue(p), At(s'.rx.cur, p), s.rx.code);
  }

  // ----- Take -----

  /** A message the check lets through does not cross a multiple of 256 as written. */
  lemma CheckedFits(q: seq<Packet>, p: Port, h: History, cur: Byte, v: Variant)
    requires History0(h) && AllFaithful(q, p, h) && InSpan(q, p, h.next) && Increasing(q)
    requires cur == h.next % 256 && R.Complete(q, cur, v)
    ensures R.Assemble(q, cur).ending == R.Whole && MessageFits(v, h.sent, h.base + |h.got|)
  {
    var k :| R.CompleteAt(q, cur, v, k);
    ShortQueue(q, p, h.next);
    R.CompleteLicensesAssembly(q, cur, v);
    var a := R.Assemble(q, cur);
    WholeIsNextMessage(q, p, h, cur, a.popped);
    FirstLastBefore(q, cur, a.popped, k);
    CheckedIds(q, p, h.next, cur, v, k, a.popped - 1);
  }

  lemma ShortQueue(q: seq<Packet>, p: Port, e: nat)
    requires InSpan(q, p, e) && Increasing(q)
    ensures |q| <= 256
  {
    if q != [] {
      AtLeast(q, p, e, |q| - 1);
    }
  }

  lemma FirstLastBefore(q: seq<Packet>, cur: Byte, n: nat, k: nat)
    requires R.WholeAt(q, cur, n) && k < |q| && !q[k].more
    ensures n - 1 <= k
  {
  }

  /** While the index is exact for the lowest listed port, taking a message neither crashes nor sticks. */
  lemma TakeSucceeds(s: Sys)
    requires s.rx.active && s.rx.avail != {}
    requires PortInv(s, R.Lowest(s.rx.avail)) && Exact(s, R.Lowest(s.rx.avail))
    ensures var p := R.Lowest(s.rx.avail);
      && R.Assemble(s.RxQueue(p), At(s.rx.cur, p)).ending == R.Whole
      && MessageFits(s.rx.code, s.Hist(p).sent, s.Hist(p).base + |s.Hist(p).got|)
  {
    var p := R.Lowest(s.rx.avail);
    CheckedFits(s.RxQueue(p), p, s.Hist(p), At(s.rx.cur, p), s.rx.code);
  }

  lemma TakeOwnAvail(s: Sys, p: Port)
    requires s.rx.active && s.rx.avail != {} && p == R.Lowest(s.rx.avail)
    requires PortInv(s, p) && Exact(s, p) && TakenFit(s, p)
    ensures Exact(ApplyTake(s), p) && TakenFit(ApplyTake(s), p)
    ensures ApplyTake(s).halted == s.halted
  {
    TakeSucceeds(s);
    TakeEffect(s);
    TakenFits(s, ApplyTake(s), p);
  }

  lemma TakeOtherAvail(s: Sys, p: Port)
    requires s.rx.active && s.rx.avail != {} && p != R.Lowest(s.rx.avail)
    requires Exact(s, p) && TakenFit(s, p)
    ensures Exact(ApplyTake(s), p) && TakenFit(ApplyTake(s), p)
  {
    TakeEffect(s);
    assert ApplyTake(s).Hist(p) == s.Hist(p);
    AvailUnchanged(s, ApplyTake(s), p);
  }

  lemma TakeAvail(s: Sys, p: Port)
    requires s.rx.active && s.rx.avail != {} && PortInv(s, R.Lowest(s.rx.avail))
    requires s.Hist(p).intact ==> Exact(s, p) && TakenFit(s, p)
    ensures ApplyTake(s).Hist(p).intact == s.Hist(p).intact
    ensures s.Hist(p).intact ==> Exact(ApplyTake(s), p) && TakenFit(ApplyTake(s), p)
  {
    assert ApplyTake(s).Hist(p).intact == s.Hist(p).intact by { TakeEffect(s); }
    if s.Hist(p).intact {
      if p == R.Lowest(s.rx.avail) {
        TakeOwnAvail(s, p);
      } else {
        TakeOtherAvail(s, p);
      }
    }
  }

  lemma TakenFits(s: Sys, s': Sys, p: Port)
    requires TakenFit(s, p) && MessageFits(s.rx.code, s.Hist(p).sent, s.Hist(p).base + |s.Hist(p).got|)
    requires s'.rx.code == s.rx.code && s'.Hist(p).sent == s.Hist(p).sent && s'.Hist(p).base == s.Hist(p).base
    requires |s'.Hist(p).got| == |s.Hist(p).got| + 1
    ensures TakenFit(s', p)
  {
  }

  // ----- What the check means -----

  /** Packet `j` passes the check as a fragment of a message of `n` fragments. */
  ghost predicate Passes(x: Packet, cur: Byte, v: Variant, n: nat, j: nat) {
    x.seqPort == R.Expected(v, cur, j) && x.sub == j % 256 && x.more == (j < n - 1)
  }

  lemma IsPartPasses(x: Packet, h: History, cur: Byte, v: Variant, j: nat)
    requires IsPart(x, h, j) && x.seqPort == (cur + j) % 256 && j < 256 && cur == h.next % 256
    requires v == Repaired || cur + |h.sent[h.base + |h.got|].parts| <= 256
    ensures Passes(x, cur, v, |h.sent[h.base + |h.got|].parts|, j)
  {
  }

  lemma AllPass(q: seq<Packet>, cur: Byte, v: Variant, n: nat)
    requires 0 < n <= |q| && forall j :: 0 <= j < n ==> Passes(q[j], cur, v, n, j)
    ensures R.Complete(q, cur, v)
  {
    assert Passes(q[n - 1], cur, v, n, n - 1);
    assert R.CompleteAt(q, cur, v, n - 1);
  }

  /** Some whole message stands at the front of the queue. */
  ghost predicate HeadWhole(q: seq<Packet>, cur: Byte) {
    exists n: nat :: R.WholeAt(q, cur, n)
  }

  /** Whatever is in the queue, the check answers true exactly if a whole message stands at its head and that
      message fits: as written it must not cross a multiple of 256. */
  lemma CheckMeans(q: seq<Packet>, p: Port, h: History, cur: Byte, v: Variant)
    requires History0(h) && AllFaithful(q, p, h) && InSpan(q, p, h.next) && Increasing(q) && cur == h.next % 256
    ensures R.Complete(q, cur, v) <==> HeadWhole(q, cur) && MessageFits(v, h.sent, h.base + |h.got|)
  {
    if R.Complete(q, cur, v) {
      CheckedFits(q, p, h, cur, v);
      R.AssembleSound(q, cur);
      assert R.WholeAt(q, cur, R.Assemble(q, cur).popped);
    }
    if HeadWhole(q, cur) && MessageFits(v, h.sent, h.base + |h.got|) {
      var n: nat :| R.WholeAt(q, cur, n);
      WholePasses(q, p, h, cur, v, n);
    }
  }

  lemma WholePasses(q: seq<Packet>, p: Port, h: History, cur: Byte, v: Variant, n: nat)
    requires History0(h) && AllFaithful(q, p, h) && InSpan(q, p, h.next) && Increasing(q) && cur == h.next % 256
    requires R.WholeAt(q, cur, n) && MessageFits(v, h.sent, h.base + |h.got|)
    ensures R.Complete(q, cur, v)
  {
    WholeIsNextMessage(q, p, h, cur, n);
    assert WellCut(h.sent[h.base + |h.got|]);
    hide AllFaithful, InSpan, Increasing, Flat;
    forall j | 0 <= j < n ensures Passes(q[j], cur, v, n, j) {
      assert IsPart(q[j], h, j) && q[j].seqPort == (cur + j) % 256;
      IsPartPasses(q[j], h, cur, v, j);
    }
    AllPass(q, cur, v, n);
  }

  // ----- Every step -----

  lemma MessageFitsKept(v: Variant, ms: seq<Message>, m: Message, k: nat)
    requires MessageFits(v, ms, k)
    ensures MessageFits(v, ms + [m], k)
  {
    assert (ms + [m])[..k] == ms[..k];
  }

  lemma SendAvail(s: Sys, l: Label, p: Port)
    requires l.Send? && Enabled(s, l) && TakenFit(s, p)
    ensures TakenFit(Apply(s, l), p)
  {
    var s' := Apply(s, l);
    if p == l.p {
      var m := Message(l.mem[..l.len], Cut(s.rx.code, l.mem, l.len), l.channel);
      assert s'.Hist(p) == s.Hist(p).(sent := s.Hist(p).sent + [m]);
      forall k | s'.Hist(p).base <= k < s'.Hist(p).base + |s'.Hist(p).got|
        ensures MessageFits(s.rx.code, s'.Hist(p).sent, k)
      {
        assert MessageFits(s.rx.code, s.Hist(p).sent, k);
        MessageFitsKept(s.rx.code, s.Hist(p).sent, m, k);
      }
    } else {
      assert s'.Hist(p) == s.Hist(p);
    }
  }

  /** A step that changes neither the receiver nor what the port has taken. */
  lemma AvailUnchanged(s: Sys, s': Sys, p: Port)
    requires Exact(s, p) && TakenFit(s, p) && (p in s'.rx.avail <==> p in s.rx.avail) && s'.rx.code == s.rx.code
    requires s'.RxQueue(p) == s.RxQueue(p) && At(s'.rx.cur, p) == At(s.rx.cur, p)
    requires s'.Hist(p).sent == s.Hist(p).sent && s'.Hist(p).base == s.Hist(p).base && s'.Hist(p).got == s.Hist(p).got
    ensures Exact(s', p) && TakenFit(s', p)
  {
  }

  lemma DeliverTaken(s: Sys, k: nat, p: Port)
    requires k < |s.link| && Timely(s, s.link[k]) && TakenFit(s, p) && s.rx.active
    ensures TakenFit(ApplyDeliver(s, k), p)
  {
    DeliverReturnsNothing(s, k, p);
    hide ApplyDeliver, MessageFits;
  }

  /** A delivery hands nothing to the application; at most it starts the account of a port afresh. */
  lemma DeliverReturnsNothing(s: Sys, k: nat, p: Port)
    requires k < |s.link| && Timely(s, s.link[k]) && s.rx.active
    ensures var h, h' := s.Hist(p), ApplyDeliver(s, k).Hist(p);
      h'.sent == h.sent && ((h'.base == h.base && h'.got == h.got) || h'.got == [])
    ensures ApplyDeliver(s, k).rx.code == s.rx.code
  {
    hide R.Handle, Ids;
    var x := s.link[k];
    if x.kind == SYNC {
      SyncEffect(s.rx, x, p);
    } else {
      HandleEffect(s.rx, x, p);
    }
  }

  /** Every step keeps the index of an undisturbed port exact. */
  lemma StepAvail(s: Sys, l: Label, p: Port)
    requires Inv(s) && Enabled(s, l) && Apply(s, l).Hist(p).intact
    requires s.Hist(p).intact ==> Exact(s, p) && TakenFit(s, p)
    ensures s.Hist(p).intact && Exact(Apply(s, l), p) && TakenFit(Apply(s, l), p)
  {
    match l
    case Send(_, _, _, _) => SendKeepsExact(s, l, p);
    case Deliver(k) => assert PortInv(s, p); StepDeliverAvail(s, k, p);
    case Take => assert PortInv(s, R.Lowest(s.rx.avail)); TakeAvail(s, p);
    case _ => OtherStepAvail(s, l, p);
  }

  lemma SendKeepsExact(s: Sys, l: Label, p: Port)
    requires l.Send? && Enabled(s, l) && (s.Hist(p).intact ==> Exact(s, p) && TakenFit(s, p))
    ensures Apply(s, l).Hist(p).intact == s.Hist(p).intact
    ensures s.Hist(p).intact ==> Exact(Apply(s, l), p) && TakenFit(Apply(s, l), p)
  {
    if s.Hist(p).intact {
      SendAvail(s, l, p);
    }
  }

  lemma OtherStepAvail(s: Sys, l: Label, p: Port)
    requires !l.Send? && !l.Deliver? && !l.Take? && Enabled(s, l)
    requires s.Hist(p).intact ==> Exact(s, p) && TakenFit(s, p)
    ensures Apply(s, l).Hist(p).intact == s.Hist(p).intact
    ensures s.Hist(p).intact ==> Exact(Apply(s, l), p) && TakenFit(Apply(s, l), p)
  {
    if s.Hist(p).intact {
      AvailUnchanged(s, Apply(s, l), p);
    }
  }

  lemma StepDeliverAvail(s: Sys, k: nat, p: Port)
    requires k < |s.link| && Timely(s, s.link[k]) && s.rx.active && PortInv(s, p)
    requires ApplyDeliver(s, k).Hist(p).intact
    requires s.Hist(p).intact ==> Exact(s, p) && TakenFit(s, p)
    ensures s.Hist(p).intact && Exact(ApplyDeliver(s, k), p) && TakenFit(ApplyDeliver(s, k), p)
  {
    IntactOnlyFalls(s, k, p);
    DeliverTaken(s, k, p);
    if s.link[k].kind == SYNC {
      SyncExact(s, k, p);
    } else {
      DeliverExact(s, k, p);
    }
  }

  lemma IntactOnlyFalls(s: Sys, k: nat, p: Port)
    requires k < |s.link| && Timely(s, s.link[k])
    ensures ApplyDeliver(s, k).Hist(p).intact ==> s.Hist(p).intact
  {
  }

  /** The receiver halts only after some port had an accepted packet dropped. */
  lemma StepHalts(s: Sys, l: Label)
    requires Inv(s) && AvailInv(s) && Enabled(s, l) && Apply(s, l).halted
    ensures exists p: Port :: !Apply(s, l).Hist(p).intact
  {
    assert l.Take?;
    var r := R.Lowest(s.rx.avail);
    assert PortInv(s, r);
    TakeAvail(s, r);
    if s.Hist(r).intact {
      TakeOwnAvail(s, r);
    }
  }

  lemma {:induction false} RunKeepsAvail(s0: Sys, ls: seq<Label>)
    requires Initial(s0) && Legal(s0, ls)
    ensures AvailInv(After(s0, ls))
  {
    hide Apply;
    if ls == [] {
      InitialAvail(s0);
    } else {
      var s, l := After(s0, ls[..|ls| - 1]), ls[|ls| - 1];
      RunKeepsInv(s0, ls[..|ls| - 1]);
      RunKeepsAvail(s0, ls[..|ls| - 1]);
      forall p: Port | Apply(s, l).Hist(p).intact ensures Exact(Apply(s, l), p) && TakenFit(Apply(s, l), p) {
        StepAvail(s, l, p);
      }
      if Apply(s, l).halted {
        StepHalts(s, l);
      }
    }
  }

  lemma InitialAvail(s: Sys)
    requires Initial(s)
    ensures AvailInv(s)
  {
    forall p: Port ensures Exact(s, p) && TakenFit(s, p) {
      assert s.RxQueue(p) == [];
    }
  }

  /** In every run, as long as the receiver has dropped no packet of `p` that it had accepted, the index lists
      `p` exactly when a whole message stands at the head of its queue and fits the check; and the receiver
      crashes or sticks only in runs where it dropped such a packet of some port. */
  lemma AvailabilityExact(s0: Sys, ls: seq<Label>, p: Port)
    requires Initial(s0) && Legal(s0, ls)
    ensures var s := After(s0, ls);
      && (s.Hist(p).intact ==> ListedExactly(s, p))
      && (s.halted ==> exists r: Port :: !s.Hist(r).intact)
  {
    hide Apply;
    RunKeepsAvail(s0, ls);
    RunKeepsInv(s0, ls);
    assert PortInv(After(s0, ls), p);
    hide PortInv;
    ListedMeans(After(s0, ls), p);
  }

  ghost predicate ListedExactly(s: Sys, p: Port) {
    var h := s.Hist(p);
    p in s.rx.avail <==> HeadWhole(s.RxQueue(p), At(s.rx.cur, p)) && MessageFits(s.rx.code, h.sent, h.base + |h.got|)
  }

  lemma ListedMeans(s: Sys, p: Port)
    requires PortInv(s, p)
    ensures ListedExactly(s, p) <==> Exact(s, p)
  {
    hide R.Complete, HeadWhole, MessageFits, Conserved, LinkFaithful, Flat, Ids;
    CheckMeans(s.RxQueue(p), p, s.Hist(p), At(s.rx.cur, p), s.rx.code);
  }

  /** A port whose packets were all kept never gets past its first message that does not fit: whatever follows,
      nothing from that message on is returned. */
  lemma MisfitBlocks(s0: Sys, ls: seq<Label>, p: Port, k: nat)
    requires Initial(s0) && Legal(s0, ls)
    requires var h := After(s0, ls).Hist(p); h.intact && h.base <= k < |h.sent| && !MessageFits(s0.rx.code, h.sent, k)
    ensures var h := After(s0, ls).Hist(p); h.base + |h.got| <= k
  {
    hide Apply;
    RunKeepsAvail(s0, ls);
    RunKeepsInv(s0, ls);
    assert TakenFit(After(s0, ls), p);
  }
}
