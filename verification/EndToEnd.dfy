/** The end-to-end theorems about runs of the pipeline. */
module EndToEnd {
  import opened Words
  import opened Packets
  import opened Queues
  import opened Buffers
  import opened Fragmentation
  import opened Protocol
  import opened ProtocolInvariant
  import opened ProtocolSafety
  import R = Receiver
  import T = Sender

  // ----- Which messages survive byte for byte -----

  /** The longest message that arrives unaltered: two fragments as written, a 16-bit length when repaired. */
  function Limit(v: Variant): nat {
    if v == AsWritten then 1984 else 65535
  }

  /** A message is seen byte for byte, whatever lies in memory behind it, exactly up to the limit. */
  lemma SeenExactly(v: Variant, len: nat)
    requires len <= MAX_MESSAGE
    ensures (forall mem: seq<Byte> :: len <= |mem| && Extent(v, len) <= |mem| ==>
               Truncated(Join(Cut(v, mem, len))) == mem[..len]) <==> len <= Limit(v)
  {
    if len <= Limit(v) {
      forall mem: seq<Byte> | len <= |mem| && Extent(v, len) <= |mem|
        ensures Truncated(Join(Cut(v, mem, len))) == mem[..len]
      {
        SeenWhole(v, mem, len);
      }
    } else {
      SeenDamaged(v, len);
    }
  }

  lemma SeenWhole(v: Variant, mem: seq<Byte>, len: nat)
    requires len <= Limit(v) && len <= |mem| && Extent(v, len) <= |mem|
    ensures Truncated(Join(Cut(v, mem, len))) == mem[..len]
  {
    CutLossless(v, mem, len);
    var data := mem[..len];
    assert |data| % 0x10000 == len && data[..len] == data;
  }

  lemma SeenDamaged(v: Variant, len: nat)
    requires Limit(v) < len <= MAX_MESSAGE
    ensures exists mem: seq<Byte> :: len <= |mem| && Extent(v, len) <= |mem|
              && Truncated(Join(Cut(v, mem, len))) != mem[..len]
  {
    if v == AsWritten {
      CutDamages(len);
    } else {
      OffsetIs(Repaired, Count(len) - 1);
      CoveredNext(len, Count(len) - 1);
    }
    var mem := Marked(Extent(v, len));
    JoinLength(v, mem, len, Count(len));
    var sent := Join(Cut(v, mem, len));
    assert |sent| == len;
    if len <= 0xFFFF {
      assert Truncated(sent) == sent;
    } else {
      assert |Truncated(sent)| < len;
    }
    assert len <= |mem| && Extent(v, len) <= |mem| && Truncated(Join(Cut(v, mem, len))) != mem[..len];
  }

  /** The payloads of an accepted message were cut from it; up to the limit it is seen byte for byte. */
  ghost predicate FromData(m: Message, v: Variant) {
    && |m.data| <= MAX_MESSAGE && |m.parts| == Count(|m.data|)
    && (|m.data| <= Limit(v) ==> Seen(m) == m.data)
  }

  ghost predicate SentInv(s: Sys) {
    forall p: Port, k :: 0 <= k < |s.Hist(p).sent| ==> FromData(s.Hist(p).sent[k], s.rx.code)
  }

  lemma SendFromData(v: Variant, mem: seq<Byte>, len: nat, channel: Byte)
    requires len <= MAX_MESSAGE && len <= |mem| && Extent(v, len) <= |mem|
    ensures FromData(Message(mem[..len], Cut(v, mem, len), channel), v)
  {
    if len <= Limit(v) {
      SeenWhole(v, mem, len);
    }
  }

  /** Only `Send` extends the list of accepted messages. */
  lemma StepSent(s: Sys, l: Label, p: Port)
    requires Inv(s) && Enabled(s, l)
    ensures var h, h' := s.Hist(p), Apply(s, l).Hist(p);
      h'.sent == h.sent ||
      (l.Send? && h'.sent == h.sent + [Message(l.mem[..l.len], Cut(s.rx.code, l.mem, l.len), l.channel)])
  {
    hide PortInv, R.Handle, T.Iterate;
    match l
    case Take => TakeEffect(s);
    case _ =>
  }

  lemma {:induction false} RunKeepsSent(s0: Sys, ls: seq<Label>)
    requires Initial(s0) && Legal(s0, ls)
    ensures SentInv(After(s0, ls))
  {
    hide Apply;
    if ls != [] {
      var s, l := After(s0, ls[..|ls| - 1]), ls[|ls| - 1];
      RunKeepsSent(s0, ls[..|ls| - 1]);
      RunKeepsInv(s0, ls[..|ls| - 1]);
      StepKeepsInv(s, l);
      forall p: Port, k | 0 <= k < |Apply(s, l).Hist(p).sent|
        ensures FromData(Apply(s, l).Hist(p).sent[k], s.rx.code)
      {
        StepSent(s, l, p);
        if k < |s.Hist(p).sent| {
          assert FromData(s.Hist(p).sent[k], s.rx.code);
        } else {
          SendFromData(s.rx.code, l.mem, l.len, l.channel);
        }
      }
    }
  }

  // ----- Safety -----

  /** In every run, with any interleaving of sends on all ports, emissions, loss, reordering, window clears,
      port changes and syncs, what port `p`'s application received since the last resynchronisation is, message
      for message and in order, what was accepted for it from then on. */
  lemma Safety(s0: Sys, ls: seq<Label>, p: Port)
    requires Initial(s0) && Legal(s0, ls)
    ensures var h := After(s0, ls).Hist(p);
      && h.base + |h.got| <= |h.sent|
      && forall j :: 0 <= j < |h.got| ==> h.got[j] == Seen(h.sent[h.base + j])
  {
    hide Apply;
    RunKeepsInv(s0, ls);
    HistoryHolds(After(s0, ls), p);
  }

  lemma HistoryHolds(s: Sys, p: Port)
    requires Inv(s)
    ensures History0(s.Hist(p))
  {
    assert PortInv(s, p);
  }

  ghost function Datas(ms: seq<Message>): seq<seq<Byte>> {
    seq(|ms|, k requires 0 <= k < |ms| => ms[k].data)
  }

  /** Byte-exact safety: if no message exceeds the limit, the messages received are a prefix of those accepted. */
  lemma ByteExactSafety(s0: Sys, ls: seq<Label>, p: Port)
    requires Initial(s0) && Legal(s0, ls)
    requires forall m :: m in After(s0, ls).Hist(p).sent ==> |m.data| <= Limit(s0.rx.code)
    ensures var h := After(s0, ls).Hist(p);
      h.base <= |h.sent| && h.got <= Datas(h.sent[h.base..])
  {
    hide Apply;
    var s := After(s0, ls);
    var h := s.Hist(p);
    Safety(s0, ls, p);
    RunKeepsSent(s0, ls);
    RunKeepsInv(s0, ls);
    forall j | 0 <= j < |h.got| ensures h.got[j] == Datas(h.sent[h.base..])[j] {
      assert h.sent[h.base + j] in h.sent;
      assert FromData(h.sent[h.base + j], s.rx.code);
    }
  }

  /** Without `scheduleSync` there is no sync, and no resynchronisation. */
  ghost predicate NoSync(s: Sys) {
    && !s.tx.scheduled && (forall k :: 0 <= k < |s.link| ==> s.link[k].kind == DATA)
    && forall p: Port :: s.Hist(p).base == 0
  }

  lemma StepBase(s: Sys, l: Label, p: Port)
    requires Inv(s) && Enabled(s, l) && (l.Deliver? ==> s.link[l.k].kind != SYNC)
    ensures Apply(s, l).Hist(p).base == s.Hist(p).base
  {
    hide PortInv, R.Handle, T.Iterate;
    match l
    case Take => TakeEffect(s);
    case _ =>
  }

  lemma StepNoSync(s: Sys, l: Label)
    requires Inv(s) && Enabled(s, l) && NoSync(s) && !l.Schedule?
    ensures NoSync(Apply(s, l))
  {
    var s' := Apply(s, l);
    forall p: Port ensures s'.Hist(p).base == 0 {
      hide Apply;
      assert s.Hist(p).base == 0;
      StepBase(s, l, p);
    }
    StepDataLink(s, l);
  }

  lemma StepDataLink(s: Sys, l: Label)
    requires Inv(s) && Enabled(s, l) && NoSync(s) && !l.Schedule?
    ensures !Apply(s, l).tx.scheduled
    ensures forall k :: 0 <= k < |Apply(s, l).link| ==> Apply(s, l).link[k].kind == DATA
  {
    hide PortInv, R.Handle, R.Consume, T.Iterate;
    var s' := Apply(s, l);
    match l
    case Turn(linkUp, syncFull) =>
      TurnData(s, linkUp, syncFull);
      var out := T.Iterate(s.tx, linkUp, syncFull).1;
      forall k | 0 <= k < |s'.link| ensures s'.link[k].kind == DATA {
        assert s'.link[k] == if k < |s.link| then s.link[k] else out[k - |s.link|];
      }
    case Lose(k) => StillData(s, s', k);
    case Deliver(k) => StillData(s, s', k);
    case Take => TakeEffect(s);
    case _ =>
  }

  lemma TurnData(s: Sys, linkUp: bool, syncFull: bool)
    requires Inv(s) && !s.tx.scheduled
    ensures forall k :: 0 <= k < |T.Iterate(s.tx, linkUp, syncFull).1| ==>
      T.Iterate(s.tx, linkUp, syncFull).1[k].kind == DATA
    ensures !T.Iterate(s.tx, linkUp, syncFull).0.scheduled
  {
    var r, y := DataEffect(s.tx);
    var (tx2, data) := T.DataPhase(s.tx);
    if data != [] {
      assert PortInv(s, r);
      HeadFaithful(s.TxQueue(r), y, tx2.buf.Queue(r), r, s.Hist(r));
    }
  }

  lemma StillData(s: Sys, s': Sys, k: nat)
    requires k < |s.link| && s'.link == Without(s.link, k) && forall j :: 0 <= j < |s.link| ==> s.link[j].kind == DATA
    ensures forall j :: 0 <= j < |s'.link| ==> s'.link[j].kind == DATA
  {
    forall j | 0 <= j < |s'.link| ensures s'.link[j].kind == DATA {
      assert s'.link[j] == if j < k then s.link[j] else s.link[j + 1];
    }
  }

  lemma {:induction false} RunNoSync(s0: Sys, ls: seq<Label>)
    requires Initial(s0) && Legal(s0, ls) && forall l :: l in ls ==> !l.Schedule?
    ensures NoSync(After(s0, ls))
  {
    hide Apply;
    if ls != [] {
      var front, l := ls[..|ls| - 1], ls[|ls| - 1];
      forall x | x in front ensures !x.Schedule? {
        assert x in ls;
      }
      assert l in ls;
      RunNoSync(s0, front);
      RunKeepsInv(s0, front);
      StepNoSync(After(s0, front), l);
    }
  }

  /** In a run without syncs, all that was received is a byte-exact prefix of all that was accepted. */
  lemma PrefixSafety(s0: Sys, ls: seq<Label>, p: Port)
    requires Initial(s0) && Legal(s0, ls) && forall l :: l in ls ==> !l.Schedule?
    requires forall m :: m in After(s0, ls).Hist(p).sent ==> |m.data| <= Limit(s0.rx.code)
    ensures After(s0, ls).Hist(p).got <= Datas(After(s0, ls).Hist(p).sent)
  {
    hide Apply;
    RunNoSync(s0, ls);
    ByteExactSafety(s0, ls, p);
    var h := After(s0, ls).Hist(p);
    assert h.base == 0 && h.sent[0..] == h.sent;
  }
}
