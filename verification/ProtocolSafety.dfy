/** Every step of the pipeline keeps the invariant, and so does every run. */
module ProtocolSafety {
  import opened Words
  import opened Crc
  import opened Packets
  import opened Queues
  import opened Buffers
  import opened Fragmentation
  import opened Protocol
  import opened ProtocolInvariant
  import R = Receiver
  import T = Sender

  // ----- Histories grow -----

  lemma {:induction false} FlatBounded(ms: seq<Message>, i: nat)
    requires i < |Flat(ms)| && forall k :: 0 <= k < |ms| ==> WellCut(ms[k])
    ensures Flat(ms)[i].sub < MAX_FRAGMENTS
  {
    var n := |ms| - 1;
    if i < |Flat(ms[..n])| {
      FlatBounded(ms[..n], i);
    }
  }

  /** `h'` extends `h`: more messages, more packets, the same expectations. */
  ghost predicate Extends(h: History, h': History) {
    && h.enq <= h'.enq && h'.base == h.base && h'.got == h.got && h'.next == h.next
    && |h.sent| <= |h'.sent| && h'.sent[..|h.sent|] == h.sent
    && |Flat(h.sent)| <= |Flat(h'.sent)| && Flat(h'.sent)[..|Flat(h.sent)|] == Flat(h.sent)
  }

  lemma FaithfulKept(q: seq<Packet>, p: Port, h: History, h': History)
    requires AllFaithful(q, p, h) && Extends(h, h')
    ensures AllFaithful(q, p, h')
  {
    forall k | 0 <= k < |q| ensures Faithful(q[k], p, h') {
      assert Faithful(q[k], p, h);
      assert Flat(h'.sent)[q[k].idx] == Flat(h'.sent)[..|Flat(h.sent)|][q[k].idx];
    }
  }

  /** The link's packets of one port, seen as a queue. */
  lemma LinkKept(s: Sys, s': Sys, p: Port)
    requires LinkFaithful(s, p) && Extends(s.Hist(p), s'.Hist(p))
    requires forall x :: x in s'.link && x.kind == DATA && x.port == p ==> x in s.link
    ensures LinkFaithful(s', p)
  {
    forall k | 0 <= k < |s'.link| && s'.link[k].kind == DATA && s'.link[k].port == p
      ensures Faithful(s'.link[k], p, s'.Hist(p))
    {
      var x := s'.link[k];
      assert x in s.link;
      var j :| 0 <= j < |s.link| && s.link[j] == x;
      FaithfulKept([x], p, s.Hist(p), s'.Hist(p));
      assert Faithful([x][0], p, s'.Hist(p));
    }
  }

  lemma SameExtends(h: History, h': History)
    requires h'.sent == h.sent && h.enq <= h'.enq && h'.base == h.base && h'.got == h.got && h'.next == h.next
    ensures Extends(h, h')
  {
    assert h.sent[..|h.sent|] == h.sent && Flat(h.sent)[..|Flat(h.sent)|] == Flat(h.sent);
  }

  // ----- Send -----

  lemma SendExtends(h: History, m: Message)
    requires History0(h) && WellCut(m)
    ensures Extends(h, h.(sent := h.sent + [m])) && History0(h.(sent := h.sent + [m]))
  {
    var h' := h.(sent := h.sent + [m]);
    FlatSnoc(h.sent, m);
    SnocFront(h.sent, m);
    var k := h.base + |h.got|;
    assert h'.sent[..k] == h.sent[..k];
  }

  lemma SendKeeps(s: Sys, l: Label, p: Port)
    requires l.Send? && Enabled(s, l) && PortInv(s, p)
    ensures PortInv(Apply(s, l), p)
  {
    var s' := Apply(s, l);
    if p == l.p {
      CountBounds(l.len);
      SendOwn(s, s', p, Message(l.mem[..l.len], Cut(s.rx.code, l.mem, l.len), l.channel));
    } else {
      hide PortInv;
      UntouchedPort(s, s', p);
    }
  }

  lemma SendOwn(s: Sys, s': Sys, p: Port, m: Message)
    requires PortInv(s, p) && WellCut(m) && s'.tx == s.tx && s'.rx == s.rx && s'.link == s.link
    requires s'.Hist(p) == s.Hist(p).(sent := s.Hist(p).sent + [m])
    ensures PortInv(s', p)
  {
    var h, h' := s.Hist(p), s'.Hist(p);
    SendExtends(h, m);
    hide Flat, Start;
    FaithfulKept(s.TxQueue(p), p, h, h');
    FaithfulKept(s.RxQueue(p), p, h, h');
    LinkKept(s, s', p);
  }

  // ----- EnqueueNext -----

  lemma EnqueueExtends(h: History, lost: multiset<nat>)
    requires History0(h) && h.enq < |Flat(h.sent)|
    ensures var h' := h.(enq := h.enq + 1, lost := lost);
      History0(h') && Extends(h, h')
  {
    SameExtends(h, h.(enq := h.enq + 1, lost := lost));
  }

  lemma TxNeverClears(b: Buf, x: Packet, pol: Policy)
    requires pol.TxPolicy?
    ensures !Clears(b, x, pol)
    ensures Write(b, x, pol).Queue(x.port) ==
      if Refuses(b, x, pol) then b.Queue(x.port) else Insert(b.Queue(x.port), x, pol)
    ensures forall p: Port :: p != x.port ==> Write(b, x, pol).Queue(p) == b.Queue(p)
  {
  }

  lemma InsertFaithful(q: seq<Packet>, x: Packet, pol: Policy, p: Port, h: History)
    requires AllFaithful(q, p, h) && Faithful(x, p, h)
    ensures AllFaithful(Insert(q, x, pol), p, h)
  {
    forall k | 0 <= k < |Insert(q, x, pol)| ensures Faithful(Insert(q, x, pol)[k], p, h) {
      InsertIndex(q, x, pol, k);
    }
  }

  lemma StampFaithful(s: Sys, p: Port, h': History, x: Packet)
    requires PortInv(s, p) && s.Hist(p).enq < |Flat(s.Hist(p).sent)|
    requires h'.sent == s.Hist(p).sent && h'.enq == s.Hist(p).enq + 1
    requires var h := s.Hist(p);
      var f := Flat(h.sent)[h.enq];
      x == T.Stamp(s.tx, p, f.channel, f.payload, f.sub % 256, f.more, h.enq)
    ensures Faithful(x, p, h')
  {
    FlatBounded(s.Hist(p).sent, s.Hist(p).enq);
  }

  lemma OneMore(tx: multiset<nat>, tx': multiset<nat>, rest: multiset<nat>,
                lost: multiset<nat>, lost': multiset<nat>, a: nat, e: nat)
    requires a <= e && tx + rest + lost == Range(a, e)
    requires (tx' == tx + multiset{e} && lost' == lost) || (tx' == tx && lost' == lost + multiset{e})
    ensures tx' + rest + lost' == Range(a, e + 1)
  {
    RangeNext(a, e - a);
    assert tx' + rest + lost' == tx + rest + lost + multiset{e};
  }

  /** What enqueuing changes. */
  lemma EnqueueEffect(s: Sys, p: Port, x: Packet)
    requires s.tx.active && s.Hist(p).enq < |Flat(s.Hist(p).sent)|
    requires var f := Flat(s.Hist(p).sent)[s.Hist(p).enq];
      x == T.Stamp(s.tx, p, f.channel, f.payload, f.sub % 256, f.more, s.Hist(p).enq)
    ensures var s', h, refused := ApplyEnqueue(s, p), s.Hist(p), Refuses(s.tx.buf, x, s.tx.Policy());
      && s'.rx == s.rx && s'.link == s.link && s'.tx.active && s'.tx.toConsume == s.tx.toConsume
      && s'.Hist(p) == h.(enq := h.enq + 1, lost := if refused then h.lost + multiset{h.enq} else h.lost)
      && s'.TxQueue(p) == (if refused then s.TxQueue(p) else Insert(s.TxQueue(p), x, s.tx.Policy()))
      && At(s'.tx.portSeq, p) == Add8(At(s.tx.portSeq, p), 1)
      && forall r: Port :: r != p ==>
           s'.Hist(r) == s.Hist(r) && s'.TxQueue(r) == s.TxQueue(r) && At(s'.tx.portSeq, r) == At(s.tx.portSeq, r)
  {
    TxNeverClears(s.tx.buf, x, s.tx.Policy());
  }

  lemma EnqueueKeeps(s: Sys, p0: Port, p: Port)
    requires s.tx.active && s.Hist(p0).enq < |Flat(s.Hist(p0).sent)| && PortInv(s, p) && PortInv(s, p0)
    ensures PortInv(ApplyEnqueue(s, p0), p)
  {
    hide ApplyEnqueue, Insert, Conserved, InSpan, Increasing, Flat;
    var s', h := ApplyEnqueue(s, p0), s.Hist(p0);
    var f := Flat(h.sent)[h.enq];
    var x := T.Stamp(s.tx, p0, f.channel, f.payload, f.sub % 256, f.more, h.enq);
    EnqueueEffect(s, p0, x);
    if p == p0 {
      EnqueueExtends(h, s'.Hist(p).lost);
      StampFaithful(s, p, s'.Hist(p), x);
      EnqueueOwn(s, s', p, x, s.tx.Policy(), Refuses(s.tx.buf, x, s.tx.Policy()));
    } else {
      UntouchedPort(s, s', p);
    }
  }

  /** A step that leaves the port's queues, link packets, counters and history alone keeps its invariant. */
  lemma UntouchedPort(s: Sys, s': Sys, p: Port)
    requires PortInv(s, p) && s'.Hist(p) == s.Hist(p)
    requires s'.TxQueue(p) == s.TxQueue(p) && s'.RxQueue(p) == s.RxQueue(p)
    requires At(s'.tx.portSeq, p) == At(s.tx.portSeq, p) && At(s'.rx.cur, p) == At(s.rx.cur, p)
    requires Ids(s'.link, p) == Ids(s.link, p)
    requires forall x :: x in s'.link && x.kind == DATA && x.port == p ==> x in s.link
    ensures PortInv(s', p)
  {
    SameExtends(s.Hist(p), s'.Hist(p));
    LinkKept(s, s', p);
  }

  lemma EnqueueOwn(s: Sys, s': Sys, p: Port, x: Packet, pol: Policy, refused: bool)
    requires PortInv(s, p)
    requires s'.rx == s.rx && s'.link == s.link && x.idx == s.Hist(p).enq
    requires s'.Hist(p).enq == s.Hist(p).enq + 1
    requires s'.Hist(p).lost == if refused then s.Hist(p).lost + multiset{x.idx} else s.Hist(p).lost
    requires s'.TxQueue(p) == if refused then s.TxQueue(p) else Insert(s.TxQueue(p), x, pol)
    requires At(s'.tx.portSeq, p) == Add8(At(s.tx.portSeq, p), 1)
    requires Faithful(x, p, s'.Hist(p)) && Extends(s.Hist(p), s'.Hist(p)) && History0(s'.Hist(p))
    ensures PortInv(s', p)
  {
    EnqueueFaithful(s.TxQueue(p), s'.TxQueue(p), x, pol, p, s.Hist(p), s'.Hist(p));
    FaithfulKept(s.RxQueue(p), p, s.Hist(p), s'.Hist(p));
    LinkKept(s, s', p);
    EnqueueCounts(s, s', p);
    IdsInsert(s.TxQueue(p), x, pol, p);
    EnqueueConserves(s, s', p, x);
  }

  lemma EnqueueCounts(s: Sys, s': Sys, p: Port)
    requires Counters(s, p) && s'.rx == s.rx && s'.Hist(p).next == s.Hist(p).next
    requires s'.Hist(p).enq == s.Hist(p).enq + 1 && At(s'.tx.portSeq, p) == Add8(At(s.tx.portSeq, p), 1)
    ensures Counters(s', p)
  {
    AddMod(s.Hist(p).enq, 1);
  }

  lemma EnqueueFaithful(q: seq<Packet>, q': seq<Packet>, x: Packet, pol: Policy, p: Port, h: History, h': History)
    requires AllFaithful(q, p, h) && Extends(h, h') && Faithful(x, p, h')
    requires q' == q || q' == Insert(q, x, pol)
    ensures AllFaithful(q', p, h')
  {
    FaithfulKept(q, p, h, h');
    InsertFaithful(q, x, pol, p, h');
  }

  lemma EnqueueConserves(s: Sys, s': Sys, p: Port, x: Packet)
    requires Conserved(s, p) && s.Hist(p).next <= s.Hist(p).enq == x.idx && IdOf(x, p) == multiset{x.idx}
    requires s'.rx == s.rx && s'.link == s.link
    requires s'.Hist(p).next == s.Hist(p).next && s'.Hist(p).enq == s.Hist(p).enq + 1
    requires var (q, q', lost, lost') := (s.TxQueue(p), s'.TxQueue(p), s.Hist(p).lost, s'.Hist(p).lost);
      (q' == q && lost' == lost + multiset{x.idx}) || (Ids(q', p) == Ids(q, p) + IdOf(x, p) && lost' == lost)
    ensures Conserved(s', p)
  {
    var h, h' := s.Hist(p), s'.Hist(p);
    OneMore(Ids(s.TxQueue(p), p), Ids(s'.TxQueue(p), p), Ids(s.link, p) + Ids(s.RxQueue(p), p),
            h.lost, h'.lost, h.next, h.enq);
  }

  // ----- Turn -----

  /** Taking the head of one queue. */
  lemma PopEffect(b: Buf, r: Port, pol: Policy)
    ensures var (b', y) := Pop(b, r, pol);
      if y.None? then b' == b
      else b.Queue(r) == [y.value] + b'.Queue(r) && forall p: Port :: p != r ==> b'.Queue(p) == b.Queue(p)
  {
  }

  /** What the data phase of a turn does: nothing, or it takes the head of some port's queue, numbers it and
      hands it to the link. */
  ghost predicate Emits(tx: T.Tx, tx': T.Tx, data: seq<Packet>, r: Port, y: Packet) {
    && data == [y.(glob := tx.glob)] && tx.buf.Queue(r) == [y] + tx'.buf.Queue(r)
    && forall p: Port :: p != r ==> tx'.buf.Queue(p) == tx.buf.Queue(p)
  }

  /** The port the data phase tries. */
  ghost function ChosenPort(tx: T.Tx): Port {
    var first := FirstEligible(tx.buf, tx.Policy(), 0);
    if tx.sending then tx.current else if first.Some? then first.value else 0
  }

  lemma ChoiceIsPop(tx: T.Tx)
    ensures T.Choose(tx) == Pop(tx.buf, ChosenPort(tx), tx.Policy()) || T.Choose(tx) == (tx.buf, None)
    ensures tx.sending ==> ChosenPort(tx) == tx.current
  {
  }

  lemma DataEffect(tx: T.Tx) returns (r: Port, y: Packet)
    ensures var (tx', data) := T.DataPhase(tx);
      && tx'.portSeq == tx.portSeq && tx'.active == tx.active
      && if data == [] then tx'.buf == tx.buf else Emits(tx, tx', data, r, y)
  {
    hide Pop, FirstEligible;
    r := ChosenPort(tx);
    ChoiceIsPop(tx);
    PopEffect(tx.buf, r, tx.Policy());
    var (b, choice) := T.Choose(tx);
    y := if choice.Some? then choice.value else T.SyncPacket(tx);
  }

  lemma HeadIds(q: seq<Packet>, y: Packet, rest: seq<Packet>, p: Port)
    requires q == [y] + rest
    ensures Ids(q, p) == IdOf(y, p) + Ids(rest, p)
  {
    IdsConcat([y], rest, p);
    IdsOne(y, p);
  }

  lemma HeadFaithful(q: seq<Packet>, y: Packet, rest: seq<Packet>, p: Port, h: History)
    requires q == [y] + rest && AllFaithful(q, p, h)
    ensures Faithful(y, p, h) && AllFaithful(rest, p, h)
  {
    assert q[0] == y;
    forall k | 0 <= k < |rest| ensures Faithful(rest[k], p, h) {
      assert rest[k] == q[k + 1];
    }
  }

  lemma MovedAlong(a: multiset<nat>, a': multiset<nat>, b: multiset<nat>, b': multiset<nat>, c: multiset<nat>, x: multiset<nat>)
    requires a == x + a' && b' == b + x
    ensures a' + (b' + c) == a + (b + c)
  {
  }

  lemma SyncAddsNothing(link: seq<Packet>, x: Packet, p: Port)
    requires x.kind == SYNC
    ensures Ids(link + [x], p) == Ids(link, p)
  {
    IdsSnoc(link, x, p);
  }

  lemma EmitLink(s: Sys, s': Sys, p: Port, r: Port, x: Packet)
    requires LinkFaithful(s, p) && s'.hist == s.hist && s'.link == s.link + [x]
    requires Faithful(x, r, s.Hist(r))
    ensures LinkFaithful(s', p)
  {
    forall k | 0 <= k < |s'.link| && s'.link[k].kind == DATA && s'.link[k].port == p
      ensures Faithful(s'.link[k], p, s'.Hist(p))
    {
      if k < |s.link| {
        assert s'.link[k] == s.link[k];
      }
    }
  }

  lemma EmitKeeps(s: Sys, s': Sys, p: Port, r: Port, y: Packet, glob: Byte)
    requires PortInv(s, p) && AllFaithful(s.TxQueue(r), r, s.Hist(r))
    requires s'.rx == s.rx && s'.hist == s.hist && s'.tx.portSeq == s.tx.portSeq
    requires s'.link == s.link + [y.(glob := glob)] && s.TxQueue(r) == [y] + s'.TxQueue(r)
    requires forall p: Port :: p != r ==> s'.TxQueue(p) == s.TxQueue(p)
    ensures PortInv(s', p)
  {
    var x := y.(glob := glob);
    HeadFaithful(s.TxQueue(r), y, s'.TxQueue(r), r, s.Hist(r));
    assert Faithful(x, r, s.Hist(r));
    EmitLink(s, s', p, r, x);
    assert Live(s', p) == Live(s, p) by {
      IdsSnoc(s.link, x, p);
      assert IdOf(x, p) == IdOf(y, p);
      HeadIds(s.TxQueue(r), y, s'.TxQueue(r), r);
      if p == r {
        MovedAlong(Ids(s.TxQueue(p), p), Ids(s'.TxQueue(p), p), Ids(s.link, p), Ids(s'.link, p),
                   Ids(s.RxQueue(p), p), IdOf(y, p));
      } else {
        assert IdOf(x, p) == multiset{};
      }
    }
    assert AllFaithful(s'.TxQueue(p), p, s'.Hist(p));
  }

  lemma SyncKeeps(s: Sys, s': Sys, p: Port, x: Packet)
    requires PortInv(s, p) && x.kind == SYNC
    requires s'.rx == s.rx && s'.hist == s.hist && s'.tx.portSeq == s.tx.portSeq && s'.tx.buf == s.tx.buf
    requires s'.link == s.link + [x]
    ensures PortInv(s', p)
  {
    SyncAddsNothing(s.link, x, p);
    UntouchedPort(s, s', p);
  }

  lemma SyncTurnKeeps(s: Sys, s1: Sys, syncFull: bool, q: Port)
    requires PortInv(s, q)
    requires var (tx1, sync) := T.SyncPhase(s.tx, syncFull);
      s1.tx == tx1 && s1.link == s.link + sync && s1.rx == s.rx && s1.hist == s.hist
    ensures PortInv(s1, q)
  {
    var sync := T.SyncPhase(s.tx, syncFull).1;
    if sync == [] {
      assert s1.link == s.link;
      UntouchedPort(s, s1, q);
    } else {
      SyncKeeps(s, s1, q, sync[0]);
    }
  }

  lemma TurnKeeps(s: Sys, linkUp: bool, syncFull: bool, p: Port)
    requires Inv(s) && !s.halted
    ensures PortInv(Apply(s, Turn(linkUp, syncFull)), p)
  {
    hide Apply, PortInv, T.DataPhase, T.SyncPhase;
    var s' := Apply(s, Turn(linkUp, syncFull));
    TurnIs(s, linkUp, syncFull);
    if !linkUp || |s.tx.blocked| >= T.S3TP_VIRTUAL_CHANNELS {
      assert PortInv(s, p);
      UntouchedPort(s, s', p);
    } else {
      var (tx1, sync) := T.SyncPhase(s.tx, syncFull);
      var s1 := s.(tx := tx1, link := s.link + sync);
      forall q: Port ensures PortInv(s1, q) {
        assert PortInv(s, q);
        SyncTurnKeeps(s, s1, syncFull, q);
      }
      Assoc(s.link, sync, T.DataPhase(tx1).1);
      DataTurnKeeps(s1, s', p);
    }
  }

  /** A turn is a sync phase and a data phase, unless the link or all channels are down. */
  lemma TurnIs(s: Sys, linkUp: bool, syncFull: bool)
    requires !s.halted
    ensures var s' := Apply(s, Turn(linkUp, syncFull));
      var (tx1, sync) := T.SyncPhase(s.tx, syncFull);
      var (tx2, data) := T.DataPhase(tx1);
      && s'.rx == s.rx && s'.hist == s.hist
      && if !linkUp || |s.tx.blocked| >= T.S3TP_VIRTUAL_CHANNELS
         then s'.tx == s.tx.(state := T.BLOCKED) && s'.link == s.link
         else s'.tx == tx2 && s'.link == s.link + (sync + data)
  {
    assert s.link + [] == s.link;
  }

  lemma DataTurnKeeps(s1: Sys, s': Sys, p: Port)
    requires forall q: Port :: PortInv(s1, q)
    requires var (tx2, data) := T.DataPhase(s1.tx);
      s'.tx == tx2 && s'.link == s1.link + data && s'.rx == s1.rx && s'.hist == s1.hist
    ensures PortInv(s', p)
  {
    var (tx2, data) := T.DataPhase(s1.tx);
    var r, y := DataEffect(s1.tx);
    assert PortInv(s1, p);
    if data == [] {
      assert s'.link == s1.link;
      UntouchedPort(s1, s', p);
    } else {
      assert PortInv(s1, r);
      EmitKeeps(s1, s', p, r, y, s1.tx.glob);
    }
  }

  // ----- Lose -----

  lemma TakenOut(q: seq<Packet>, k: nat, x: Packet)
    requires k < |q| && x in Without(q, k)
    ensures x in q
  {
  }

  lemma LoseConserves(s: Sys, s': Sys, k: nat, p: Port)
    requires k < |s.link| && s.link[k].kind == DATA && s.link[k].port == p && Conserved(s, p)
    requires s'.tx == s.tx && s'.rx == s.rx && s'.link == Without(s.link, k)
    requires s'.Hist(p) == s.Hist(p).(lost := s.Hist(p).lost + multiset{s.link[k].idx})
    ensures Conserved(s', p)
  {
    IdsRemove(s.link, k, p);
    LostInstead(Ids(s.TxQueue(p), p), Ids(s.link, p), Ids(s'.link, p), Ids(s.RxQueue(p), p), s.Hist(p).lost,
                IdOf(s.link[k], p));
  }

  lemma LinkShrinks(s: Sys, s': Sys, k: nat, p: Port)
    requires k < |s.link| && s'.link == Without(s.link, k) && LinkFaithful(s, p) && Extends(s.Hist(p), s'.Hist(p))
    ensures LinkFaithful(s', p)
  {
    forall x | x in s'.link ensures x in s.link {
      TakenOut(s.link, k, x);
    }
    LinkKept(s, s', p);
  }

  lemma LoseKeeps(s: Sys, k: nat, p: Port)
    requires k < |s.link| && !s.halted && PortInv(s, p)
    ensures PortInv(Apply(s, Lose(k)), p)
  {
    var s', y := Apply(s, Lose(k)), s.link[k];
    if y.kind == DATA && y.port == p {
      LoseConserves(s, s', k, p);
      SameHistory(s.Hist(p), s'.Hist(p), s.TxQueue(p), s.RxQueue(p), p);
      LinkShrinks(s, s', k, p);
    } else {
      ForeignPacketLeaves(s, s', k, p);
    }
  }

  /** Taking a sync, or another port's packet, off the link. */
  lemma ForeignPacketLeaves(s: Sys, s': Sys, k: nat, p: Port)
    requires PortInv(s, p) && k < |s.link| && IdOf(s.link[k], p) == multiset{} && s'.link == Without(s.link, k)
    requires s'.Hist(p) == s.Hist(p)
    requires s'.TxQueue(p) == s.TxQueue(p) && s'.RxQueue(p) == s.RxQueue(p)
    requires At(s'.tx.portSeq, p) == At(s.tx.portSeq, p) && At(s'.rx.cur, p) == At(s.rx.cur, p)
    ensures PortInv(s', p)
  {
    IdsRemove(s.link, k, p);
    forall x | x in s'.link ensures x in s.link {
      TakenOut(s.link, k, x);
    }
    UntouchedPort(s, s', p);
  }

  lemma LostInstead(a: multiset<nat>, b: multiset<nat>, b': multiset<nat>, c: multiset<nat>, lost: multiset<nat>,
                    x: multiset<nat>)
    requires b == b' + x
    ensures a + (b' + c) + (lost + x) == a + (b + c) + lost
  {
  }

  // ----- Deliver -----

  /** What handling a data packet can do to a port's receive queue: leave it, empty it, or insert the packet,
      possibly after emptying it. */
  ghost predicate QueueAfter(q: seq<Packet>, q': seq<Packet>, x: Packet, own: bool, pol: Policy) {
    q' == q || q' == [] || (own && (q' == Insert(q, x, pol) || q' == Insert([], x, pol)))
  }

  lemma WriteEffect(b: Buf, x: Packet, pol: Policy, p: Port)
    ensures QueueAfter(b.Queue(p), Write(b, x, pol).Queue(p), x, p == x.port, pol)
  {
  }

  lemma HandleEffect(rx: R.Rx, x: Packet, p: Port)
    requires x.kind != SYNC
    ensures var rx' := R.Handle(rx, x).0;
      && rx'.cur == rx.cur && rx'.active == rx.active && rx'.code == rx.code
      && QueueAfter(rx.buf.Queue(p), rx'.buf.Queue(p), x, R.Accepts(rx, x) && p == x.port, rx.Policy())
      && (!R.Accepts(rx, x) ==> rx' == rx)
  {
    if R.Accepts(rx, x) {
      var rx1 := R.Stored(rx, x);
      WriteEffect(rx.buf, x, rx.Policy(), p);
      var rx2 := R.CountPacket(rx1, x);
      assert rx2.buf == rx1.buf || rx2.buf.Queue(p) == rx1.buf.Queue(p) || rx2.buf.Queue(p) == [];
    }
  }

  lemma QueueAfterIds(q: seq<Packet>, q': seq<Packet>, x: Packet, own: bool, pol: Policy, p: Port)
    requires QueueAfter(q, q', x, own, pol)
    ensures Ids(q', p) <= Ids(q, p) + IdOf(x, p)
  {
    if own {
      IdsInsert(q, x, pol, p);
      IdsInsert([], x, pol, p);
    }
  }

  lemma Rearranged(a: multiset<nat>, b: multiset<nat>, b': multiset<nat>, c: multiset<nat>, c': multiset<nat>,
                   lost: multiset<nat>, x: multiset<nat>)
    requires b == b' + x && c' <= c + x
    ensures a + (b' + c') + (lost + (c + x - c')) == a + (b + c) + lost
  {
  }

  /** A packet in flight is somewhere in the range still expected, and not already in the queue. */
  lemma InFlight(s: Sys, p: Port, k: nat)
    requires Conserved(s, p) && LinkFaithful(s, p) && k < |s.link| && s.link[k].kind == DATA && s.link[k].port == p
    ensures s.Hist(p).next <= s.link[k].idx && s.link[k].idx !in Ids(s.RxQueue(p), p)
  {
    var i, h := s.link[k].idx, s.Hist(p);
    IdsMember(s.link, k, p);
    RangeCount(h.next, h.enq, i);
    assert (Live(s, p) + h.lost)[i] <= 1;
  }

  lemma NotQueued(q: seq<Packet>, p: Port, i: nat)
    requires i !in Ids(q, p) && forall k :: 0 <= k < |q| ==> q[k].kind == DATA && q[k].port == p
    ensures forall k :: 0 <= k < |q| ==> q[k].idx != i
  {
    forall k | 0 <= k < |q| ensures q[k].idx != i {
      IdsMember(q, k, p);
    }
  }

  /** The receive queue stays in absolute order. */
  lemma OrderKept(q: seq<Packet>, q': seq<Packet>, x: Packet, own: bool, pol: Policy, p: Port, e: nat)
    requires QueueAfter(q, q', x, own, pol) && InSpan(q, p, e) && Increasing(q)
    requires own ==> Spanned(x, p, e) && At(pol.offset, p) == e % 256 && x.idx !in Ids(q, p)
    ensures InSpan(q', p, e) && Increasing(q')
  {
    if own {
      forall k | 0 <= k < |q| ensures q[k].kind == DATA && q[k].port == p {
        assert Spanned(q[k], p, e);
      }
      NotQueued(q, p, x.idx);
      InsertIncreasing(q, x, p, e, pol);
      InsertIncreasing([], x, p, e, pol);
    }
  }

  lemma FaithfulAfter(q: seq<Packet>, q': seq<Packet>, x: Packet, own: bool, pol: Policy, p: Port, h: History)
    requires QueueAfter(q, q', x, own, pol) && AllFaithful(q, p, h) && (own ==> Faithful(x, p, h))
    ensures AllFaithful(q', p, h)
  {
    if own {
      InsertFaithful(q, x, pol, p, h);
      InsertFaithful([], x, pol, p, h);
    }
  }

  lemma DeliverConserves(s: Sys, s': Sys, k: nat, p: Port)
    requires k < |s.link| && Conserved(s, p) && s'.tx == s.tx && s'.link == Without(s.link, k)
    requires Ids(s'.RxQueue(p), p) <= Ids(s.RxQueue(p), p) + IdOf(s.link[k], p)
    requires s'.Hist(p).next == s.Hist(p).next && s'.Hist(p).enq == s.Hist(p).enq
    requires s'.Hist(p).lost ==
      s.Hist(p).lost + (Ids(s.RxQueue(p), p) + IdOf(s.link[k], p) - Ids(s'.RxQueue(p), p))
    ensures Conserved(s', p)
  {
    IdsRemove(s.link, k, p);
    Rearranged(Ids(s.TxQueue(p), p), Ids(s.link, p), Ids(s'.link, p), Ids(s.RxQueue(p), p), Ids(s'.RxQueue(p), p),
               s.Hist(p).lost, IdOf(s.link[k], p));
  }

  /** A timely packet of the port is in the span, and new to the queue. */
  lemma ArrivalIsSpanned(s: Sys, p: Port, k: nat)
    requires PortInv(s, p) && k < |s.link| && s.link[k].kind == DATA && s.link[k].port == p && Timely(s, s.link[k])
    ensures Faithful(s.link[k], p, s.Hist(p)) && Spanned(s.link[k], p, s.Hist(p).next)
    ensures s.link[k].idx !in Ids(s.RxQueue(p), p)
  {
    InFlight(s, p, k);
    assert Faithful(s.link[k], p, s.Hist(p));
  }

  lemma DeliverQueues(s: Sys, q': seq<Packet>, x: Packet, own: bool, p: Port, h: History)
    requires AllFaithful(s.RxQueue(p), p, h) && InSpan(s.RxQueue(p), p, h.next) && Increasing(s.RxQueue(p))
    requires QueueAfter(s.RxQueue(p), q', x, own, s.rx.Policy()) && At(s.rx.cur, p) == h.next % 256
    requires own ==> Faithful(x, p, h) && Spanned(x, p, h.next) && x.idx !in Ids(s.RxQueue(p), p)
    ensures AllFaithful(q', p, h) && InSpan(q', p, h.next) && Increasing(q')
  {
    OrderKept(s.RxQueue(p), q', x, own, s.rx.Policy(), p, h.next);
    FaithfulAfter(s.RxQueue(p), q', x, own, s.rx.Policy(), p, h);
  }

  lemma DataDeliverKeeps(s: Sys, k: nat, p: Port)
    requires k < |s.link| && Timely(s, s.link[k]) && s.link[k].kind != SYNC && PortInv(s, p)
    ensures PortInv(ApplyDeliver(s, k), p)
  {
    hide R.Handle, Ids;
    var s', x, h := ApplyDeliver(s, k), s.link[k], s.Hist(p);
    var own := R.Accepts(s.rx, x) && p == x.port;
    HandleEffect(s.rx, x, p);
    assert s'.Hist(p) == AfterData(s, x, s'.rx, p);
    QueueAfterIds(s.RxQueue(p), s'.RxQueue(p), x, own, s.rx.Policy(), p);
    DeliverConserves(s, s', k, p);
    if own {
      ArrivalIsSpanned(s, p, k);
    }
    DeliverQueues(s, s'.RxQueue(p), x, own, p, h);
    SameHistory(h, s'.Hist(p), s.TxQueue(p), s'.RxQueue(p), p);
    LinkShrinks(s, s', k, p);
  }

  /** Only the account of losses changed. */
  lemma SameHistory(h: History, h': History, txq: seq<Packet>, rxq: seq<Packet>, p: Port)
    requires h'.sent == h.sent && h'.enq == h.enq && h'.base == h.base && h'.got == h.got && h'.next == h.next
    requires History0(h) && AllFaithful(txq, p, h) && AllFaithful(rxq, p, h)
    ensures Extends(h, h') && History0(h') && AllFaithful(txq, p, h') && AllFaithful(rxq, p, h')
  {
    hide Flat, Start;
    SameExtends(h, h');
    FaithfulKept(txq, p, h, h');
    FaithfulKept(rxq, p, h, h');
  }

  // ----- A sync arrives -----

  lemma SyncEffect(rx: R.Rx, x: Packet, p: Port)
    requires x.kind == SYNC && |x.payload| >= R.SYNC_LENGTH
    ensures var rx' := R.Handle(rx, x).0;
      && rx'.buf == rx.buf && rx'.active == rx.active && rx'.code == rx.code && rx'.avail == rx.avail
      && (rx.active && Checksum(x.payload) == x.crc ==>
            At(rx'.cur, p) == if R.SyncSeq(x.payload, p) != 0 then R.SyncSeq(x.payload, p) else At(rx.cur, p))
      && (!(rx.active && Checksum(x.payload) == x.crc) ==> rx' == rx)
  {
  }

  /** With everything consumed or dropped, the port can start afresh at the sender's count. */
  lemma FreshStart(h: History)
    requires History0(h) && h.enq == |Flat(h.sent)|
    ensures History0(h.(base := |h.sent|, got := [], next := h.enq, lost := multiset{}))
  {
    StartAll(h.sent);
  }

  lemma ResyncKeeps(s: Sys, s': Sys, k: nat, p: Port)
    requires PortInv(s, p) && Quiescent(s, p) && k < |s.link| && s.link[k].kind == SYNC
    requires s'.tx == s.tx && s'.rx.buf == s.rx.buf && s'.link == Without(s.link, k)
    requires At(s'.rx.cur, p) == At(s.tx.portSeq, p)
    requires var h := s.Hist(p);
      s'.Hist(p) == h.(base := |h.sent|, got := [], next := h.enq, lost := multiset{})
    ensures PortInv(s', p)
  {
    FreshStart(s.Hist(p));
    IdsRemove(s.link, k, p);
    assert Live(s', p) == multiset{};
    forall j | 0 <= j < |s'.link| && s'.link[j].kind == DATA && s'.link[j].port == p
      ensures false
    {
      IdsMember(s'.link, j, p);
    }
  }

  lemma SyncDeliverKeeps(s: Sys, k: nat, p: Port)
    requires k < |s.link| && Timely(s, s.link[k]) && s.link[k].kind == SYNC && PortInv(s, p)
    requires s.rx.active && SyncsIntact(s)
    ensures PortInv(ApplyDeliver(s, k), p)
  {
    var s', x := ApplyDeliver(s, k), s.link[k];
    var n := R.SyncSeq(x.payload, p);
    SyncEffect(s.rx, x, p);
    assert s'.Hist(p) == AfterSync(s, x, p);
    assert SyncFits(s, x, p);
    if n == 0 || n == At(s.rx.cur, p) {
      ForeignPacketLeaves(s, s', k, p);
    } else {
      ResyncKeeps(s, s', k, p);
    }
  }

  // ----- Take -----

  lemma TakeEffect(s: Sys)
    requires s.rx.avail != {} && s.rx.active
    ensures var p := R.Lowest(s.rx.avail);
      var a, s' := R.Assemble(s.RxQueue(p), At(s.rx.cur, p)), ApplyTake(s);
      if a.ending == R.Whole then
        && !s'.halted == !s.halted && s'.tx == s.tx && s'.link == s.link && s'.emitted == s.emitted
        && s'.rx.active && s'.rx.code == s.rx.code && s'.rx.openPorts == s.rx.openPorts
        && s'.rx.cur == s.rx.cur[p := a.cur] && s'.RxQueue(p) == s.RxQueue(p)[a.popped..]
        && s'.rx.avail == (if R.Complete(s'.RxQueue(p), a.cur, s.rx.code) then s.rx.avail + {p} else s.rx.avail - {p})
        && s'.Hist(p) == s.Hist(p).(got := s.Hist(p).got + [Truncated(a.data)], next := s.Hist(p).next + a.popped)
        && forall r: Port :: r != p ==> s'.Hist(r) == s.Hist(r) && s'.RxQueue(r) == s.RxQueue(r)
      else
        s' == s.(halted := true)
  {
  }

  lemma GotNext(h: History, h': History, k: nat, n: nat)
    requires History0(h) && k == h.base + |h.got| < |h.sent| && n == |h.sent[k].parts|
    requires h' == h.(got := h.got + [Seen(h.sent[k])], next := h.next + n)
    requires h.next + n == Start(h.sent, k + 1) <= h.enq
    ensures History0(h')
  {
    forall j | 0 <= j < |h'.got| ensures h'.got[j] == Seen(h'.sent[h'.base + j]) {
      if j < |h.got| {
        assert h'.got[j] == h.got[j];
      }
    }
  }

  lemma SuffixOrdered(q: seq<Packet>, p: Port, e: nat, n: nat, h: History)
    requires InSpan(q, p, e) && Increasing(q) && AllFaithful(q, p, h) && IsRun(q, p, e, n)
    ensures InSpan(q[n..], p, e + n) && Increasing(q[n..]) && AllFaithful(q[n..], p, h)
  {
    var r := q[n..];
    forall i | 0 <= i < |r| ensures Spanned(r[i], p, e + n) && Faithful(r[i], p, h) {
      assert r[i] == q[n + i];
      assert Spanned(q[n + i], p, e) && Faithful(q[n + i], p, h);
      AtLeast(q, p, e, n + i);
    }
    forall i, j | 0 <= i < j < |r| ensures r[i].idx < r[j].idx {
      assert q[n + i].idx < q[n + j].idx;
    }
  }

  lemma PullOut(a: multiset<nat>, b: multiset<nat>, r: multiset<nat>, c': multiset<nat>, lost: multiset<nat>)
    ensures a + (b + (r + c')) + lost == r + (a + (b + c') + lost)
  {
  }

  lemma CancelFront(a: multiset<nat>, b: multiset<nat>, c: multiset<nat>, c': multiset<nat>, lost: multiset<nat>,
                    front: multiset<nat>, rest: multiset<nat>, all: multiset<nat>)
    requires a + (b + c) + lost == all && all == front + rest && c == front + c'
    ensures a + (b + c') + lost == rest
  {
    PullOut(a, b, front, c', lost);
    MultisetCancel(front, a + (b + c') + lost, rest);
  }

  lemma RestConserved(tx: multiset<nat>, link: multiset<nat>, rx: multiset<nat>, rx': multiset<nat>,
                      lost: multiset<nat>, e: nat, e': nat, enq: nat)
    requires tx + (link + rx) + lost == Range(e, enq) && rx == Range(e, e') + rx' && e <= e' <= enq
    ensures tx + (link + rx') + lost == Range(e', enq)
  {
    RangeSplit(e, e', enq);
    CancelFront(tx, link, rx, rx', lost, Range(e, e'), Range(e', enq), Range(e, enq));
  }

  lemma FrontGone(q: seq<Packet>, r: seq<Packet>, p: Port, e: nat, n: nat, e': nat)
    requires IsRun(q, p, e, n) && r == q[n..] && e' == e + n
    ensures Ids(q, p) == Range(e, e') + Ids(r, p)
  {
    FrontIds(q, p, e, n);
  }

  lemma TakeConserves(s: Sys, s': Sys, p: Port)
    requires Conserved(s, p) && s.Hist(p).next <= s'.Hist(p).next <= s.Hist(p).enq == s'.Hist(p).enq
    requires Ids(s.RxQueue(p), p) == Range(s.Hist(p).next, s'.Hist(p).next) + Ids(s'.RxQueue(p), p)
    requires s'.TxQueue(p) == s.TxQueue(p) && s'.link == s.link && s'.Hist(p).lost == s.Hist(p).lost
    ensures Conserved(s', p)
  {
    RestConserved(Ids(s.TxQueue(p), p), Ids(s.link, p), Ids(s.RxQueue(p), p), Ids(s'.RxQueue(p), p), s.Hist(p).lost,
                  s.Hist(p).next, s'.Hist(p).next, s.Hist(p).enq);
  }

  lemma TakeOwn(s: Sys, s': Sys, p: Port, a: R.Assembly)
    requires PortInv(s, p) && a == R.Assemble(s.RxQueue(p), At(s.rx.cur, p)) && a.ending == R.Whole
    requires s'.tx == s.tx && s'.link == s.link && s'.RxQueue(p) == s.RxQueue(p)[a.popped..]
    requires At(s'.rx.cur, p) == a.cur
    requires s'.Hist(p) == s.Hist(p).(got := s.Hist(p).got + [Truncated(a.data)], next := s.Hist(p).next + a.popped)
    ensures PortInv(s', p)
  {
    TakeHistory(s.RxQueue(p), p, s.Hist(p), s'.Hist(p), At(s.rx.cur, p), a);
    SuffixOrdered(s.RxQueue(p), p, s.Hist(p).next, a.popped, s.Hist(p));
    FrontGone(s.RxQueue(p), s'.RxQueue(p), p, s.Hist(p).next, a.popped, s'.Hist(p).next);
    TakeConserves(s, s', p);
    TakeFaithful(s, s', p);
  }

  lemma TakeHistory(q: seq<Packet>, p: Port, h: History, h': History, cur: Byte, a: R.Assembly)
    requires History0(h) && AllFaithful(q, p, h) && InSpan(q, p, h.next) && Increasing(q)
    requires cur == h.next % 256 && a == R.Assemble(q, cur) && a.ending == R.Whole
    requires h' == h.(got := h.got + [Truncated(a.data)], next := h.next + a.popped)
    ensures History0(h') && IsRun(q, p, h.next, a.popped) && a.cur == h'.next % 256
  {
    hide AllFaithful, InSpan, Increasing, R.Assemble, Flat, Join;
    AssembledIsNext(q, p, h, cur, a);
    GotNext(h, h', h.base + |h.got|, a.popped);
  }

  lemma TakeFaithful(s: Sys, s': Sys, p: Port)
    requires LinkFaithful(s, p) && AllFaithful(s.TxQueue(p), p, s.Hist(p)) && AllFaithful(s'.RxQueue(p), p, s.Hist(p))
    requires s'.tx == s.tx && s'.link == s.link
    requires s'.Hist(p).sent == s.Hist(p).sent && s'.Hist(p).enq == s.Hist(p).enq
    ensures LinkFaithful(s', p) && AllFaithful(s'.TxQueue(p), p, s'.Hist(p))
    ensures AllFaithful(s'.RxQueue(p), p, s'.Hist(p))
  {
    forall k | 0 <= k < |s'.link| && s'.link[k].kind == DATA && s'.link[k].port == p
      ensures Faithful(s'.link[k], p, s'.Hist(p))
    {
      assert Faithful(s.link[k], p, s.Hist(p));
    }
    forall k | 0 <= k < |s'.TxQueue(p)| ensures Faithful(s'.TxQueue(p)[k], p, s'.Hist(p)) {
      assert Faithful(s.TxQueue(p)[k], p, s.Hist(p));
    }
    forall k | 0 <= k < |s'.RxQueue(p)| ensures Faithful(s'.RxQueue(p)[k], p, s'.Hist(p)) {
      assert Faithful(s'.RxQueue(p)[k], p, s.Hist(p));
    }
  }

  lemma TakeOther(s: Sys, s': Sys, p: Port)
    requires PortInv(s, p) && s'.tx == s.tx && s'.link == s.link && s'.Hist(p) == s.Hist(p)
    requires s'.RxQueue(p) == s.RxQueue(p) && At(s'.rx.cur, p) == At(s.rx.cur, p)
    ensures PortInv(s', p)
  {
    UntouchedPort(s, s', p);
  }

  lemma TakeKeeps(s: Sys, p: Port)
    requires s.rx.active && s.rx.avail != {} && PortInv(s, p)
    ensures PortInv(ApplyTake(s), p)
  {
    hide PortInv, R.Assemble, R.Complete, ApplyTake;
    var r := R.Lowest(s.rx.avail);
    var a, s' := R.Assemble(s.RxQueue(r), At(s.rx.cur, r)), ApplyTake(s);
    TakeEffect(s);
    if a.ending == R.Whole && p == r {
      TakeOwn(s, s', p, a);
    } else {
      TakeOther(s, s', p);
    }
  }

  // ----- Every step -----

  lemma SyncsKept(s: Sys, s': Sys)
    requires SyncsIntact(s)
    requires forall x :: x in s'.link && x.kind == SYNC ==> x in s.link || x.crc == Checksum(x.payload)
    ensures SyncsIntact(s')
  {
    forall k | 0 <= k < |s'.link| && s'.link[k].kind == SYNC ensures s'.link[k].crc == Checksum(s'.link[k].payload) {
      assert s'.link[k] in s'.link;
    }
  }

  lemma TurnFrames(s: Sys, linkUp: bool, syncFull: bool, x: Packet)
    requires Inv(s) && x in T.Iterate(s.tx, linkUp, syncFull).1 && x.kind == SYNC
    ensures x.crc == Checksum(x.payload)
  {
    var (tx1, sync) := T.SyncPhase(s.tx, syncFull);
    var (tx2, data) := T.DataPhase(tx1);
    var r, y := DataEffect(tx1);
    if x in data {
      assert PortInv(s, r);
      HeadFaithful(s.TxQueue(r), y, tx2.buf.Queue(r), r, s.Hist(r));
    }
  }

  lemma StepSyncs(s: Sys, l: Label)
    requires Inv(s) && Enabled(s, l)
    ensures SyncsIntact(Apply(s, l))
  {
    var s' := Apply(s, l);
    forall x | x in s'.link && x.kind == SYNC ensures x in s.link || x.crc == Checksum(x.payload) {
      match l
      case Turn(linkUp, syncFull) =>
        if x !in s.link {
          TurnFrames(s, linkUp, syncFull, x);
        }
      case Lose(k) => TakenOut(s.link, k, x);
      case Deliver(k) => TakenOut(s.link, k, x);
      case _ =>
    }
    SyncsKept(s, s');
  }

  lemma QuietStep(s: Sys, l: Label, p: Port)
    requires PortInv(s, p) && Enabled(s, l) && (l.SetChannel? || l.Schedule? || l.Open? || l.Close?)
    ensures PortInv(Apply(s, l), p)
  {
    UntouchedPort(s, Apply(s, l), p);
  }

  lemma StepPort(s: Sys, l: Label, p: Port)
    requires Inv(s) && Enabled(s, l)
    ensures PortInv(Apply(s, l), p)
  {
    hide PortInv;
    assert PortInv(s, p);
    match l
    case Send(_, _, _, _) => SendKeeps(s, l, p);
    case EnqueueNext(r) => assert PortInv(s, r); EnqueueKeeps(s, r, p);
    case Turn(linkUp, syncFull) => TurnKeeps(s, linkUp, syncFull, p);
    case Lose(k) => LoseKeeps(s, k, p);
    case Deliver(k) => if s.link[k].kind == SYNC { SyncDeliverKeeps(s, k, p); } else { DataDeliverKeeps(s, k, p); }
    case Take => TakeKeeps(s, p);
    case _ => QuietStep(s, l, p);
  }

  lemma TurnActive(tx: T.Tx, linkUp: bool, syncFull: bool)
    ensures T.Iterate(tx, linkUp, syncFull).0.active == tx.active
  {
  }

  lemma StepActive(s: Sys, l: Label)
    requires Inv(s) && Enabled(s, l)
    ensures Apply(s, l).tx.active && Apply(s, l).rx.active && Apply(s, l).rx.code == s.rx.code
  {
    hide PortInv, R.Handle, R.Consume, T.Iterate;
    match l
    case Turn(linkUp, syncFull) => TurnActive(s.tx, linkUp, syncFull);
    case Deliver(k) =>
      if s.link[k].kind == SYNC { SyncEffect(s.rx, s.link[k], 0); } else { HandleEffect(s.rx, s.link[k], 0); }
    case Take => TakeEffect(s);
    case _ =>
  }

  /** Every step of the pipeline keeps the invariant. */
  lemma StepKeepsInv(s: Sys, l: Label)
    requires Inv(s) && Enabled(s, l)
    ensures Inv(Apply(s, l)) && Apply(s, l).rx.code == s.rx.code
  {
    hide PortInv, Apply;
    StepActive(s, l);
    StepSyncs(s, l);
    forall p: Port ensures PortInv(Apply(s, l), p) {
      StepPort(s, l, p);
    }
  }

  lemma {:induction false} RunKeepsInv(s0: Sys, ls: seq<Label>)
    requires Initial(s0) && Legal(s0, ls)
    ensures Inv(After(s0, ls)) && After(s0, ls).rx.code == s0.rx.code
  {
    hide Apply;
    if ls == [] {
      InitialInv(s0);
    } else {
      RunKeepsInv(s0, ls[..|ls| - 1]);
      StepKeepsInv(After(s0, ls[..|ls| - 1]), ls[|ls| - 1]);
    }
  }
}
