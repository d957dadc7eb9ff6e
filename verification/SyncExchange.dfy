/** When a sync is answered, and a whole exchange that takes place: the bound on sync events is reached. */
module SyncExchange {
  import opened Words
  import opened Crc
  import opened Packets
  import opened Queues
  import opened Buffers
  import opened SyncProtocol
  import Transmission
  import R = Receiver
  import T = Sender

  /** A frame makes the sender schedule an acknowledging sync exactly if it is an undamaged initiating sync and
      reaches an active receiver of a node with a client; any other frame leaves the sender alone. */
  lemma AnsweredExactly(n: Node, x: Packet)
    requires R.WellFormed(x)
    ensures Receive(n, x).tx ==
      if n.rx.active && x.kind == 3 && x.crc == Checksum(x.payload) && x.payload[0] == 0 && n.hasClients
      then n.tx.(scheduled := true, syncId := 0xFF) else n.tx
    ensures Receive(n, x).hasClients == n.hasClients && Receive(n, x).rx == R.Handle(n.rx, x).0
  {
  }

  // ----- An exchange -----

  /** Ready to take part: started, with a client, and the sync channel free. */
  ghost predicate Ready(n: Node) {
    n.rx.active && n.hasClients && 0 !in n.tx.blocked && |n.tx.blocked| < 7 && DataQueues(n.tx.buf)
  }

  ghost function Initiated(n: Net, s: Side): Net {
    n.Put(s, n.At(s).(tx := T.ScheduleSync(n.At(s).tx, T.SYNC_INITIATOR)))
  }

  /** The expected numbers at the receiving end are the sender's, where those are not zero. */
  ghost predicate InStep(tx: T.Tx, rx: R.Rx) {
    forall p: Port :: At(tx.portSeq, p) != 0 ==> At(rx.cur, p) == At(tx.portSeq, p)
  }

  /** A node sends its scheduled sync: it becomes the frame at the other node's inbox behind those already there. */
  ghost predicate Sends(n: Net, m: Net, s: Side) {
    var k := |n.Inbox(Other(s))|;
    && k < |m.Inbox(Other(s))| && Transmission.States(m.Inbox(Other(s))[k], n.At(s).tx)
    && m.At(Other(s)) == n.At(Other(s)) && m.Inbox(s) == n.Inbox(s)
    && m.At(s) == n.At(s).(tx := m.At(s).tx) && Ready(m.At(s)) && !m.At(s).tx.scheduled
    && m.At(s).tx.portSeq == n.At(s).tx.portSeq
  }

  lemma SendStep(n: Net, s: Side)
    requires Ready(n.At(s)) && n.At(s).tx.scheduled
    ensures IsSync(n, Turn(s, true, false)) && Sends(n, Next(n, Turn(s, true, false)), s)
  {
    var tx, e := n.At(s).tx, Turn(s, true, false);
    var (tx', out) := T.Iterate(tx, true, false);
    Transmission.TurnSync(tx, false);
    TurnPays(tx, true, false);
    TurnKeepsPorts(tx);
    hide T.Iterate, Transmission.States, DataQueues;
    assert out[0] in out && out[0].kind == SYNC by { StatesKind(out[0], tx); }
  }

  lemma StatesKind(x: Packet, tx: T.Tx)
    requires Transmission.States(x, tx)
    ensures x.kind == SYNC && R.WellFormed(x) && x.crc == Checksum(x.payload) && x.payload[0] == tx.syncId
    ensures forall p: Port :: R.SyncSeq(x.payload, p) == At(tx.portSeq, p)
  {
  }

  lemma TurnKeepsPorts(tx: T.Tx)
    ensures T.Iterate(tx, true, false).0.portSeq == tx.portSeq
  {
    Transmission.DataPhaseKeeps(T.SyncPhase(tx, false).0);
    hide T.DataPhase;
  }

  /** The other node handles it: it is in step with the sender, and answers an initiating sync. */
  lemma ReceiveStep(n: Net, s: Side, k: nat, tx: T.Tx)
    requires k < |n.Inbox(s)| && Transmission.States(n.Inbox(s)[k], tx) && Ready(n.At(s))
    requires !n.At(s).tx.scheduled
    ensures Possible(n, Deliver(s, k)) && IsSync(n, Deliver(s, k))
    ensures var m := Next(n, Deliver(s, k));
      && Ready(m.At(s)) && InStep(tx, m.At(s).rx) && m.At(Other(s)) == n.At(Other(s)) && m.Inbox(Other(s)) == n.Inbox(Other(s))
      && m.Inbox(s) == Without(n.Inbox(s), k)
      && m.At(s).tx == if tx.syncId == 0 then n.At(s).tx.(scheduled := true, syncId := 0xFF) else n.At(s).tx
  {
    var x := n.Inbox(s)[k];
    StatesKind(x, tx);
    AnsweredExactly(n.At(s), x);
    Synchronised(n.At(s).rx, x, tx);
    hide Receive, DataQueues, Transmission.States;
  }

  lemma Synchronised(rx: R.Rx, x: Packet, tx: T.Tx)
    requires rx.active && x.kind == SYNC && R.WellFormed(x) && x.crc == Checksum(x.payload)
    requires forall p: Port :: R.SyncSeq(x.payload, p) == At(tx.portSeq, p)
    ensures R.Handle(rx, x).0.active && InStep(tx, R.Handle(rx, x).0)
  {
    forall p: Port | At(tx.portSeq, p) != 0 ensures At(R.Handle(rx, x).0.cur, p) == At(tx.portSeq, p) {
      assert R.SyncSeq(x.payload, p) == At(tx.portSeq, p);
    }
  }

  lemma Prepend(n: Net, e: Event, es: seq<Event>)
    requires Possible(n, e) && Feasible(Next(n, e), es)
    ensures Feasible(n, [e] + es) && Final(n, [e] + es) == Final(Next(n, e), es)
    ensures SyncEvents(n, [e] + es) == (if IsSync(n, e) then 1 else 0) + SyncEvents(Next(n, e), es)
  {
    hide Next, Possible, IsSync;
    assert ([e] + es)[0] == e && ([e] + es)[1..] == es;
  }

  /** A scheduled sync is sent and handled. */
  lemma SyncPasses(n: Net, s: Side) returns (m: Net, k: nat)
    requires Ready(n.At(s)) && n.At(s).tx.scheduled && Ready(n.At(Other(s))) && !n.At(Other(s)).tx.scheduled
    ensures Possible(n, Turn(s, true, false)) && IsSync(n, Turn(s, true, false))
    ensures var n1, e := Next(n, Turn(s, true, false)), Deliver(Other(s), k);
      Possible(n1, e) && IsSync(n1, e) && m == Next(n1, e)
    ensures var a, b := m.At(s), m.At(Other(s));
      && Ready(a) && !a.tx.scheduled && a.rx == n.At(s).rx && a.tx.portSeq == n.At(s).tx.portSeq
      && Ready(b) && InStep(n.At(s).tx, b.rx)
      && b.tx == if n.At(s).tx.syncId == 0 then n.At(Other(s)).tx.(scheduled := true, syncId := 0xFF) else n.At(Other(s)).tx
  {
    hide Next, IsSync, Ready, Transmission.States, InStep;
    k := |n.Inbox(Other(s))|;
    var n1 := Next(n, Turn(s, true, false));
    SendStep(n, s);
    ReceiveStep(n1, Other(s), k, n.At(s).tx);
    m := Next(n1, Deliver(Other(s), k));
  }

  function Passing(s: Side, k: nat): seq<Event> {
    [Turn(s, true, false), Deliver(Other(s), k)]
  }

  lemma PrependBoth(n: Net, s: Side, k: nat, m: Net, es: seq<Event>)
    requires Possible(n, Turn(s, true, false)) && IsSync(n, Turn(s, true, false))
    requires var n1, e := Next(n, Turn(s, true, false)), Deliver(Other(s), k);
      Possible(n1, e) && IsSync(n1, e) && m == Next(n1, e)
    requires Feasible(m, es)
    ensures Feasible(n, Passing(s, k) + es) && Final(n, Passing(s, k) + es) == Final(m, es)
    ensures SyncEvents(n, Passing(s, k) + es) == 2 + SyncEvents(m, es)
  {
    hide Next, IsSync, Possible;
    var n1 := Next(n, Turn(s, true, false));
    Prepend(n1, Deliver(Other(s), k), es);
    Prepend(n, Turn(s, true, false), [Deliver(Other(s), k)] + es);
    assert Passing(s, k) + es == [Turn(s, true, false)] + ([Deliver(Other(s), k)] + es);
  }

  /** The bound of `OneInitiation` is reached: from silence, if both nodes are started, have a client and their sync
      channel free, there is a run of exactly four sync events - the initiating sync sent and received, the
      acknowledging one sent and received. After it there is silence again, and each receiver expects what the other
      node's sender will send next, wherever that is not number zero. */
  lemma FourEvents(n: Net, s: Side) returns (es: seq<Event>)
    requires Ready(n.left) && Ready(n.right) && Measure(n) == 0
    ensures Feasible(Initiated(n, s), es) && SyncEvents(Initiated(n, s), es) == 4
    ensures var m := Final(Initiated(n, s), es);
      && Measure(m) == 0
      && InStep(m.left.tx, m.right.rx) && InStep(m.right.tx, m.left.rx)
  {
    hide Next, IsSync, Possible, Measure, Feasible, Final, SyncEvents, InStep, T.ScheduleSync;
    var m0, o := Initiated(n, s), Other(s);
    StartsFresh(n, s);
    var m2, k := SyncPasses(m0, s);
    var m4, j := SyncPasses(m2, o);
    NoEvents(m4);
    PrependBoth(m2, o, j, m4, []);
    PrependBoth(m0, s, k, m2, Passing(o, j) + []);
    es := Passing(s, k) + (Passing(o, j) + []);
    SyncTrafficStops(m0, es);
    SameNumbers(m4.At(s).tx, m0.At(s).tx, m4.At(o).rx);
    SameNumbers(m4.At(o).tx, m2.At(o).tx, m4.At(s).rx);
  }

  lemma NoEvents(n: Net)
    ensures Feasible(n, []) && Final(n, []) == n && SyncEvents(n, []) == 0
  {
  }

  lemma StartsFresh(n: Net, s: Side)
    requires Ready(n.left) && Ready(n.right) && Measure(n) == 0
    ensures Sane(Initiated(n, s)) && Measure(Initiated(n, s)) == 4
    ensures var m, o := Initiated(n, s), Other(s);
      && Ready(m.At(s)) && m.At(s).tx.scheduled && m.At(s).tx.syncId == 0
      && Ready(m.At(o)) && !m.At(o).tx.scheduled
  {
  }

  lemma SameNumbers(a: T.Tx, b: T.Tx, rx: R.Rx)
    requires a.portSeq == b.portSeq && InStep(b, rx)
    ensures InStep(a, rx)
  {
    forall p: Port | At(a.portSeq, p) != 0 ensures At(rx.cur, p) == At(a.portSeq, p) {
      assert At(b.portSeq, p) != 0;
    }
  }
}
