/** What one turn of the transmission loop does and which messages are let in, said of the sender's fields before
    and after; and that no run sends a frame on a blacklisted channel. */
module Transmission {
  import opened Words
  import opened Crc
  import opened Packets
  import opened Queues
  import opened Buffers
  import opened Fragmentation
  import opened Protocol
  import opened SyncProtocol
  import R = Receiver
  import T = Sender

  // ----- A turn -----

  /** The sync frame as the receiver reads it: id, global sequence, the next sequence number of all 128 ports. */
  ghost predicate States(x: Packet, tx: T.Tx) {
    && x.kind == 3 && x.channel == 0 && x.crc == Checksum(x.payload)
    && |x.payload| == 130 && x.payload[0] == tx.syncId && x.payload[1] == tx.glob
    && forall p: Port :: x.payload[2 + p] == At(tx.portSeq, p)
  }

  /** With the link up and a channel free, a scheduled sync goes first if channel 0 is free and not full, and is
      then no longer scheduled. If channel 0 turns out to be full it is blacklisted; then, as when it was
      blacklisted before, no sync leaves and the schedule stands. */
  lemma TurnSync(tx: T.Tx, syncFull: bool)
    requires DataQueues(tx.buf) && |tx.blocked| < 7
    ensures var (tx', out) := T.Iterate(tx, true, syncFull);
      if tx.scheduled && 0 !in tx.blocked && !syncFull then
        && out != [] && States(out[0], tx) && (forall k :: 1 <= k < |out| ==> out[k].kind == 0)
        && !tx'.scheduled && tx'.blocked == tx.blocked
      else
        && (forall k :: 0 <= k < |out| ==> out[k].kind == 0)
        && tx'.scheduled == tx.scheduled
        && tx'.blocked == (if tx.scheduled && 0 !in tx.blocked then tx.blocked + {0} else tx.blocked)
  {
    var (tx1, sync) := T.SyncPhase(tx, syncFull);
    var (tx2, data) := T.DataPhase(tx1);
    DataPhaseQuiet(tx1);
    DataPhaseKeeps(tx1);
    assert T.Iterate(tx, true, syncFull) == (tx2, sync + data);
    SyncStates(tx);
    hide T.DataPhase, DataQueues, T.SyncPacket, States;
    forall k | |sync| <= k < |sync + data| ensures (sync + data)[k].kind == 0 {
      assert (sync + data)[k] in data;
    }
  }

  lemma SyncStates(tx: T.Tx)
    ensures States(T.SyncPacket(tx), tx)
  {
    var payload, entries := T.SyncPayload(tx), seq(128, i requires 0 <= i < 128 => At(tx.portSeq, i));
    forall p: Port ensures payload[2 + p] == At(tx.portSeq, p) {
      assert payload[2 + p] == entries[p];
    }
  }

  lemma DataPhaseKeeps(tx: T.Tx)
    ensures var (tx', data) := T.DataPhase(tx);
      tx'.scheduled == tx.scheduled && tx'.syncId == tx.syncId && tx'.blocked == tx.blocked && tx'.portSeq == tx.portSeq
  {
    hide T.Choose;
  }

  /** Without a link, or with seven channels blacklisted, nothing leaves and nothing but the state changes. */
  lemma TurnBlocked(tx: T.Tx, linkUp: bool, syncFull: bool)
    requires !linkUp || |tx.blocked| >= 7
    ensures T.Iterate(tx, linkUp, syncFull) == (tx.(state := T.BLOCKED), [])
  {
  }

  /** The head of the port's queue may go on its channel. */
  predicate MayGo(b: Buf, blocked: set<Byte>, p: Port) {
    b.Queue(p) != [] && b.Queue(p)[0].channel !in blocked
  }

  /** The port that transmits next: that of the message begun, or the lowest whose head may go. */
  ghost predicate Transmits(tx: T.Tx, blocked: set<Byte>, p: Port) {
    && MayGo(tx.buf, blocked, p)
    && if tx.sending then p == tx.current else forall r: Port :: r < p ==> !MayGo(tx.buf, blocked, r)
  }

  /** The head of the queue of `p` has left under the sender's global sequence number. */
  ghost predicate Left(tx: T.Tx, tx': T.Tx, x: Packet, p: Port) {
    && (exists y :: tx.buf.Queue(p) == [y] + tx'.buf.Queue(p) && x == y.(glob := tx.glob))
    && forall r: Port :: r != p ==> tx'.buf.Queue(r) == tx.buf.Queue(r)
  }

  /** The outcome when port `p` transmits, or when none does. */
  ghost predicate Outcome(tx: T.Tx, tx': T.Tx, data: seq<Packet>, blocked: set<Byte>) {
    && (forall p: Port :: Transmits(tx, blocked, p) ==>
          tx'.state == T.RUNNING && |data| == 1 && Left(tx, tx', data[0], p))
    && ((forall p: Port :: !Transmits(tx, blocked, p)) ==>
          && data == [] && tx'.buf == tx.buf
          && tx'.state == if forall p: Port :: tx.buf.Queue(p) == [] then T.WAITING else T.BLOCKED)
  }

  lemma DataPhaseOutcome(tx: T.Tx)
    requires IndexAgrees(tx.buf)
    ensures Outcome(tx, T.DataPhase(tx).0, T.DataPhase(tx).1, tx.blocked)
  {
    CounterShows(tx.buf);
    if tx.buf.counter != map[] {
      if tx.sending {
        CurrentOutcome(tx);
      } else {
        AnyOutcome(tx);
      }
    }
  }

  lemma CurrentOutcome(tx: T.Tx)
    requires IndexAgrees(tx.buf) && tx.buf.counter != map[] && tx.sending
    requires !forall p: Port :: tx.buf.Queue(p) == []
    ensures Outcome(tx, T.DataPhase(tx).0, T.DataPhase(tx).1, tx.blocked)
  {
    PopKeepsIndex(tx.buf, tx.current, tx.Policy());
    hide IndexAgrees;
    assert Transmits(tx, tx.blocked, tx.current) <==> T.Choose(tx).1.Some?;
  }

  lemma AnyOutcome(tx: T.Tx)
    requires IndexAgrees(tx.buf) && tx.buf.counter != map[] && !tx.sending
    requires !forall p: Port :: tx.buf.Queue(p) == []
    ensures Outcome(tx, T.DataPhase(tx).0, T.DataPhase(tx).1, tx.blocked)
  {
    hide NextAvailable, IndexAgrees, Outcome;
    var (b, y) := NextAvailable(tx.buf, tx.Policy());
    NextAvailableIsLowest(tx.buf, tx.Policy());
    assert T.Choose(tx) == (b, y);
    if y.Some? {
      var p: Port :| tx.buf.Queue(p) == [y.value] + b.Queue(p) && tx.Policy().IsElementValid(y.value)
        && (forall q: Port :: q < p && tx.buf.Queue(q) != [] ==> !tx.Policy().IsElementValid(tx.buf.Queue(q)[0]))
        && (forall q: Port :: q != p ==> b.Queue(q) == tx.buf.Queue(q));
      OneLeft(tx, b, y.value, p);
    } else {
      NoneLeft(tx);
    }
  }

  lemma OneLeft(tx: T.Tx, b: Buf, y: Packet, p: Port)
    requires tx.buf.counter != map[] && T.Choose(tx) == (b, Some(y))
    requires Transmits(tx, tx.blocked, p) && tx.buf.Queue(p) == [y] + b.Queue(p)
    requires forall q: Port :: q != p ==> b.Queue(q) == tx.buf.Queue(q)
    ensures Outcome(tx, T.DataPhase(tx).0, T.DataPhase(tx).1, tx.blocked)
  {
    hide T.Choose;
    forall r: Port | Transmits(tx, tx.blocked, r) ensures r == p {
    }
  }

  lemma NoneLeft(tx: T.Tx)
    requires tx.buf.counter != map[] && T.Choose(tx) == (tx.buf, None)
    requires forall p: Port :: tx.buf.Queue(p) != [] ==> !tx.Policy().IsElementValid(tx.buf.Queue(p)[0])
    requires !forall p: Port :: tx.buf.Queue(p) == []
    ensures Outcome(tx, T.DataPhase(tx).0, T.DataPhase(tx).1, tx.blocked)
  {
    hide T.Choose;
  }

  /** The packet counter is empty exactly if all queues are. */
  lemma CounterShows(b: Buf)
    requires IndexAgrees(b)
    ensures b.counter == map[] <==> forall p: Port :: b.Queue(p) == []
  {
    hide IndexAgrees, IndexAgreesAt;
    if b.counter == map[] {
      forall p: Port ensures b.Queue(p) == [] {
        Counted(b, p);
      }
    } else {
      var p: Port :| p in b.counter;
      Counted(b, p);
    }
  }

  lemma Counted(b: Buf, p: Port)
    requires IndexAgrees(b)
    ensures p in b.counter <==> b.Queue(p) != []
  {
    assert IndexAgreesAt(b, p);
  }

  /** The state after a turn with the link up is RUNNING if a data packet left, WAITING if there is none, and BLOCKED
      if there are some but the channels of all that might go next are blacklisted. At most one leaves: the head of
      the port that transmits. */
  lemma TurnData(tx: T.Tx, syncFull: bool)
    requires DataQueues(tx.buf) && IndexAgrees(tx.buf) && |tx.blocked| < 7
    ensures var (tx', out) := T.Iterate(tx, true, syncFull);
      Outcome(tx, tx', DataFrames(out), tx'.blocked)
  {
    hide T.DataPhase, IndexAgrees, DataQueues, Outcome;
    var (tx1, sync) := T.SyncPhase(tx, syncFull);
    var (tx2, data) := T.DataPhase(tx1);
    DataPhaseOutcome(tx1);
    DataPhaseKeeps(tx1);
    DataPhaseQuiet(tx1);
    FramesOf(sync, data);
    SameOutcome(tx, tx1, tx2, data);
  }

  lemma FramesOf(sync: seq<Packet>, data: seq<Packet>)
    requires |sync| <= 1 && forall x :: x in sync ==> x.kind == 3
    requires forall x :: x in data ==> x.kind == 0
    ensures DataFrames(sync + data) == data
  {
    if data != [] {
      assert data[0] in data;
    }
    if sync != [] {
      assert sync[0] in sync && (sync + data)[1..] == data;
    } else {
      assert sync + data == data;
    }
  }

  lemma SameOutcome(tx: T.Tx, tx1: T.Tx, tx2: T.Tx, data: seq<Packet>)
    requires tx1 == tx.(scheduled := tx1.scheduled, blocked := tx1.blocked)
    requires Outcome(tx1, tx2, data, tx1.blocked)
    ensures Outcome(tx, tx2, data, tx1.blocked)
  {
    forall p: Port ensures Transmits(tx, tx1.blocked, p) == Transmits(tx1, tx1.blocked, p) {
    }
  }

  /** The frames of a turn behind the sync, if there is one. */
  function DataFrames(out: seq<Packet>): seq<Packet> {
    if out != [] && out[0].kind == 3 then out[1..] else out
  }

  // ----- Channels -----

  /** No frame leaves on a channel that is blacklisted. */
  lemma TurnObeys(tx: T.Tx, linkUp: bool, syncFull: bool)
    ensures forall x :: x in T.Iterate(tx, linkUp, syncFull).1 ==> x.channel !in tx.blocked
  {
    if linkUp && |tx.blocked| < 7 {
      var (tx1, sync) := T.SyncPhase(tx, syncFull);
      DataObeys(tx1);
      hide T.DataPhase;
    }
  }

  lemma DataObeys(tx: T.Tx)
    ensures forall x :: x in T.DataPhase(tx).1 ==> x.channel !in tx.blocked
  {
    var p := FirstEligible(tx.buf, tx.Policy(), 0);
    FirstEligibleIsLowest(tx.buf, tx.Policy(), 0);
  }

  /** What the link layer last said of a channel: that it is full, or that it is available. */
  ghost function Blacklisted(s0: Sys, ls: seq<Label>, channel: Byte): bool {
    if ls == [] then channel in s0.tx.blocked
    else
      var l := ls[|ls| - 1];
      if l.SetChannel? && l.channel == channel then !l.available else Blacklisted(s0, ls[..|ls| - 1], channel)
  }

  lemma StepBlocked(s: Sys, l: Label, channel: Byte)
    requires Enabled(s, l)
    ensures var blocked := Apply(s, l).tx.blocked;
      if l.SetChannel? && l.channel == channel then channel in blocked <==> !l.available
      else channel in blocked <==>
        channel in s.tx.blocked || (channel == 0 && l.Turn? && l.linkUp && l.syncFull && |s.tx.blocked| < 7 && s.tx.scheduled)
  {
    hide R.Handle, R.Consume, T.DataPhase;
    if l.Turn? {
      DataPhaseKeeps(T.SyncPhase(s.tx, l.syncFull).0);
    }
  }

  /** In every run a channel other than that of syncs is blacklisted exactly if the link layer's last word on it was
      that it is full; channel 0 is blacklisted at least then. */
  lemma {:induction false} BlacklistIsLastWord(s0: Sys, ls: seq<Label>, channel: Byte)
    requires Legal(s0, ls)
    ensures Blacklisted(s0, ls, channel) ==> channel in After(s0, ls).tx.blocked
    ensures channel != 0 && channel in After(s0, ls).tx.blocked ==> Blacklisted(s0, ls, channel)
  {
    hide Apply, Enabled;
    if ls != [] {
      BlacklistIsLastWord(s0, ls[..|ls| - 1], channel);
      StepBlocked(After(s0, ls[..|ls| - 1]), ls[|ls| - 1], channel);
    }
  }

  /** Whatever a run did before, the next turn hands the link no frame on a channel last reported full. */
  lemma BlacklistObeyed(s0: Sys, ls: seq<Label>, linkUp: bool, syncFull: bool, x: Packet)
    requires Legal(s0, ls) && x in T.Iterate(After(s0, ls).tx, linkUp, syncFull).1
    ensures !Blacklisted(s0, ls, x.channel)
  {
    hide After, T.Iterate;
    TurnObeys(After(s0, ls).tx, linkUp, syncFull);
    BlacklistIsLastWord(s0, ls, x.channel);
  }

  // ----- Admission -----

  /** `len` bytes in packets of 992, rounded up. */
  function RoundedUp(len: nat): nat {
    (len + 991) / 992
  }

  /** Which messages are let in, and the reason each of the others is given. */
  lemma AdmittedExactly(tx: T.Tx, p: Port, channel: Byte, len: nat)
    ensures var code, size := T.Admission(tx, p, channel, len), |tx.buf.Queue(p)| % 0x10000 + RoundedUp(len % 0x10000);
      && (code == 0 <==> tx.state != T.BLOCKED && size <= 0x100000 && channel !in tx.blocked && len <= 126976)
      && (code == -5 <==> tx.state == T.BLOCKED)
      && (code == -4 <==> tx.state != T.BLOCKED && size > 0x100000)
      && (code == -6 <==> tx.state != T.BLOCKED && size <= 0x100000 && channel in tx.blocked)
      && (code == -2 <==> tx.state != T.BLOCKED && size <= 0x100000 && channel !in tx.blocked && len > 126976)
  {
    PredictedIsPackets(len % 0x10000);
  }

  lemma PredictedIsPackets(len16: Word)
    ensures Predicted(len16) == RoundedUp(len16) <= 67
  {
    var n := len16 / 992;
    assert len16 == 992 * n + len16 % 992;
  }

  /** The sizes compared are of 16 bits and at most 67, so the limit of 2^20 is never met: no message is refused
      because its queue is full. */
  lemma QueueNeverFull(tx: T.Tx, p: Port, channel: Byte, len: nat)
    ensures T.Admission(tx, p, channel, len) != T.CODE_QUEUE_FULL
    ensures T.Admission(tx, p, channel, len) == CODE_SUCCESS <==>
      tx.state != T.BLOCKED && channel !in tx.blocked && len <= 126976
  {
    PredictedIsPackets(len % 0x10000);
  }

  /** What happens instead: a message for a queue at capacity is admitted, every one of its packets is dropped, and
      the caller is told of success. */
  lemma {:induction false} FullQueueSwallows(tx: T.Tx, p: Port, channel: Byte, len: nat, parts: seq<seq<Byte>>, n: nat, idx: nat)
    requires tx.active && tx.state != T.BLOCKED && channel !in tx.blocked && len <= 126976 && n <= |parts|
    requires Size(tx.buf.Queue(p)) >= tx.buf.capacity
    ensures T.Admission(tx, p, channel, len) == CODE_SUCCESS
    ensures var tx' := T.EnqueueParts(tx, p, channel, parts, n, idx);
      && tx'.active && tx'.buf.counter == tx.buf.counter && tx'.buf.capacity == tx.buf.capacity
      && forall r: Port :: tx'.buf.Queue(r) == tx.buf.Queue(r)
  {
    QueueNeverFull(tx, p, channel, len);
    hide T.Admission, T.Enqueue;
    if n > 0 {
      FullQueueSwallows(tx, p, channel, len, parts, n - 1, idx);
      var before := T.EnqueueParts(tx, p, channel, parts, n - 1, idx);
      FullQueueDrops(before, p, channel, parts[n - 1], (n - 1) % 256, n < |parts|, idx + (n - 1));
    }
  }

  lemma FullQueueDrops(tx: T.Tx, p: Port, channel: Byte, payload: seq<Byte>, frag: Byte, more: bool, idx: nat)
    requires tx.active && Size(tx.buf.Queue(p)) >= tx.buf.capacity
    ensures var tx' := T.Enqueue(tx, p, channel, payload, frag, more, idx).0;
      && tx'.active && tx'.buf.counter == tx.buf.counter && tx'.buf.capacity == tx.buf.capacity
      && forall r: Port :: tx'.buf.Queue(r) == tx.buf.Queue(r)
  {
    hide Insert;
  }
}
