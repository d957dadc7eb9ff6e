/** A sync that finds a port quiescent puts sender and receiver in step again, whatever sequence number the
    receiver had come to expect. */
module Resynchronisation {
  import opened Words
  import opened Crc
  import opened Packets
  import opened Queues
  import opened Buffers
  import opened Protocol
  import opened ProtocolInvariant
  import opened ProtocolSafety
  import R = Receiver
  import T = Sender

  /** What is known of the sender's half of a port: its history and its counter. */
  ghost predicate SenderHalf(s: Sys, p: Port) {
    && s.Hist(p).enq == |Flat(s.Hist(p).sent)| && At(s.tx.portSeq, p) == s.Hist(p).enq % 256
    && forall k :: 0 <= k < |s.Hist(p).sent| ==> WellCut(s.Hist(p).sent[k])
  }

  /** The account of a port starts afresh at the sender's count. */
  ghost function Restarted(h: History): History {
    h.(base := |h.sent|, got := [], next := h.enq, lost := multiset{})
  }

  /** The state after the receiver handled frame `k`, with the account of `p` restarted. */
  ghost function Resynced(s: Sys, k: nat, p: Port): Sys
    requires k < |s.link| && R.WellFormed(s.link[k])
  {
    s.(rx := R.Handle(s.rx, s.link[k]).0, link := Without(s.link, k), hist := s.hist[p := Restarted(s.Hist(p))])
  }

  /** What `TxModule::synchronizeStatus` sends states the next sequence number of every port, and passes the
      receiver's checks. */
  lemma SyncPacketStates(tx: T.Tx, p: Port)
    ensures var x := T.SyncPacket(tx);
      && x.kind == SYNC && R.WellFormed(x) && x.crc == Checksum(x.payload)
      && R.SyncSeq(x.payload, p) == At(tx.portSeq, p)
  {
    var entries := seq(128, i requires 0 <= i < 128 => At(tx.portSeq, i));
    assert T.SyncPayload(tx)[2 + p] == entries[p];
  }

  /** Nothing is assumed of the receiver's sequence number or of what it returned before. The sync brings a
      quiescent port back under the invariant exactly if the sender's sequence is not zero modulo 256, or the
      receiver happens to expect zero: a zero entry is read as "no information". */
  lemma SyncReestablishes(s: Sys, k: nat, p: Port, tx: T.Tx)
    requires k < |s.link| && s.rx.active && SenderHalf(s, p) && Quiescent(s, p)
    requires s.link[k] == T.SyncPacket(tx) && At(tx.portSeq, p) == At(s.tx.portSeq, p)
    ensures R.WellFormed(s.link[k])
    ensures PortInv(Resynced(s, k, p), p) <==> At(s.tx.portSeq, p) != 0 || At(s.rx.cur, p) == 0
  {
    SyncPacketStates(tx, p);
    SyncEffect(s.rx, s.link[k], p);
    var s' := Resynced(s, k, p);
    assert s'.Hist(p) == Restarted(s.Hist(p));
    NothingInFlight(s.link, k, p);
    StartAll(s.Hist(p).sent);
    RestartHolds(s', p);
  }

  /** A sync that arrives while the account of a port goes on leaves the port's invariant standing exactly if its
      entry is zero or what the receiver expects anyway: anything else cuts the receiver off. */
  lemma SyncHarmless(s: Sys, k: nat, p: Port)
    requires k < |s.link| && s.rx.active && PortInv(s, p)
    requires s.link[k].kind == SYNC && R.WellFormed(s.link[k]) && s.link[k].crc == Checksum(s.link[k].payload)
    ensures var n := R.SyncSeq(s.link[k].payload, p);
      PortInv(s.(rx := R.Handle(s.rx, s.link[k]).0, link := Without(s.link, k)), p) <==> n == 0 || n == At(s.rx.cur, p)
  {
    var n := R.SyncSeq(s.link[k].payload, p);
    var s' := s.(rx := R.Handle(s.rx, s.link[k]).0, link := Without(s.link, k));
    SyncEffect(s.rx, s.link[k], p);
    assert s'.Hist(p) == s.Hist(p);
    if n == 0 || n == At(s.rx.cur, p) {
      hide R.Handle, PortInv;
      ForeignPacketLeaves(s, s', k, p);
    } else {
      assert !Counters(s', p);
    }
  }

  lemma NothingInFlight(q: seq<Packet>, k: nat, p: Port)
    requires k < |q| && Ids(q, p) == multiset{}
    ensures Ids(Without(q, k), p) == multiset{}
    ensures forall j :: 0 <= j < |Without(q, k)| && Without(q, k)[j].kind == DATA ==> Without(q, k)[j].port != p
  {
    IdsRemove(q, k, p);
    forall j | 0 <= j < |Without(q, k)| && Without(q, k)[j].kind == DATA ensures Without(q, k)[j].port != p {
      if Without(q, k)[j].port == p {
        IdsMember(Without(q, k), j, p);
      }
    }
  }

  lemma RestartHolds(s: Sys, p: Port)
    requires s.Hist(p).enq == |Flat(s.Hist(p).sent)| == s.Hist(p).next == Start(s.Hist(p).sent, |s.Hist(p).sent|)
    requires s.Hist(p).base == |s.Hist(p).sent| && s.Hist(p).got == [] && s.Hist(p).lost == multiset{}
    requires forall k :: 0 <= k < |s.Hist(p).sent| ==> WellCut(s.Hist(p).sent[k])
    requires s.TxQueue(p) == [] && s.RxQueue(p) == [] && Ids(s.link, p) == multiset{}
    requires forall j :: 0 <= j < |s.link| && s.link[j].kind == DATA ==> s.link[j].port != p
    requires At(s.tx.portSeq, p) == s.Hist(p).enq % 256
    ensures PortInv(s, p) <==> At(s.rx.cur, p) == At(s.tx.portSeq, p)
  {
  }
}
