/** Whatever the number of packets outstanding: fragments of one message are never interleaved with other ports'
    packets, and the global sequence counts messages. */
module Contiguity {
  import opened Words
  import opened Packets
  import opened Buffers
  import opened Protocol
  import opened ProtocolInvariant
  import opened ProtocolSafety
  import opened Emission
  import R = Receiver
  import T = Sender

  /** After a packet with the more-fragments bit comes one of the same port under the same global sequence number;
      after one without it, the global sequence has risen by one. */
  ghost predicate Continues(a: Packet, b: Packet) {
    if a.more then b.port == a.port && b.glob == a.glob else b.glob == Add8(a.glob, 1)
  }

  ghost predicate Grouped(e: seq<Packet>) {
    (e != [] ==> e[0].glob == 0) && forall i :: 0 <= i < |e| - 1 ==> Continues(e[i], e[i + 1])
  }

  /** `sendingFragments`, `currentPort` and `global_seq_num` say how the last packet emitted goes on. */
  ghost predicate GoesOn(tx: T.Tx, e: seq<Packet>) {
    if e == [] then !tx.sending && tx.glob == 0
    else
      var x := e[|e| - 1];
      && tx.sending == x.more && (x.more ==> tx.current == x.port)
      && tx.glob == (if x.more then x.glob else Add8(x.glob, 1))
  }

  lemma GroupedSnoc(e: seq<Packet>, x: Packet)
    requires Grouped(e) && (if e == [] then x.glob == 0 else Continues(e[|e| - 1], x))
    ensures Grouped(e + [x])
  {
    var r := e + [x];
    forall i | 0 <= i < |r| - 1 ensures Continues(r[i], r[i + 1]) {
      assert r[i] == e[i];
    }
  }

  /** One data phase: at most one packet leaves, and it continues what went before. */
  lemma DataGroups(s: Sys, e: seq<Packet>)
    requires Inv(s) && GoesOn(s.tx, e) && Grouped(e)
    ensures var (tx, data) := T.DataPhase(s.tx);
      GoesOn(tx, e + DataOnly(data)) && Grouped(e + DataOnly(data))
  {
    var (tx, data) := T.DataPhase(s.tx);
    var r, y := DataVariables(s.tx);
    hide T.DataPhase, Inv;
    if data == [] {
      assert e + DataOnly(data) == e;
    } else {
      HeadOfQueue(s, r, y, tx.buf.Queue(r));
      var x := data[0];
      DataOnlyOne(x);
      assert data == [x] && x == y.(glob := s.tx.glob);
      GroupedSnoc(e, x);
    }
  }

  lemma TurnGroups(s: Sys, linkUp: bool, syncFull: bool)
    requires Inv(s) && !s.halted && GoesOn(s.tx, s.emitted) && Grouped(s.emitted)
    ensures var s' := Apply(s, Turn(linkUp, syncFull));
      GoesOn(s'.tx, s'.emitted) && Grouped(s'.emitted)
  {
    var (tx1, sync) := T.SyncPhase(s.tx, syncFull);
    TurnPhases(s, linkUp, syncFull);
    if linkUp && |s.tx.blocked| < T.S3TP_VIRTUAL_CHANNELS {
      var s1 := s.(tx := tx1, link := s.link + sync);
      SyncLeavesInv(s, s1, syncFull);
      assert DataOnly(sync) == [] by { if sync != [] { DataOnlyOne(sync[0]); } }
      hide Apply, Inv, T.DataPhase, T.SyncPhase;
      DataGroups(s1, s.emitted);
      assert DataOnly(sync) + DataOnly(T.DataPhase(tx1).1) == DataOnly(T.DataPhase(tx1).1);
    }
  }

  lemma StepGroups(s: Sys, l: Label)
    requires Inv(s) && Enabled(s, l) && GoesOn(s.tx, s.emitted) && Grouped(s.emitted)
    ensures GoesOn(Apply(s, l).tx, Apply(s, l).emitted) && Grouped(Apply(s, l).emitted)
  {
    match l
    case Turn(linkUp, syncFull) => TurnGroups(s, linkUp, syncFull);
    case Take => TakeEffect(s);
    case _ =>
  }

  lemma {:induction false} RunGroups(s0: Sys, ls: seq<Label>)
    requires Initial(s0) && Legal(s0, ls)
    ensures GoesOn(After(s0, ls).tx, After(s0, ls).emitted) && Grouped(After(s0, ls).emitted)
  {
    hide Apply;
    if ls != [] {
      RunGroups(s0, ls[..|ls| - 1]);
      RunKeepsInv(s0, ls[..|ls| - 1]);
      StepGroups(After(s0, ls[..|ls| - 1]), ls[|ls| - 1]);
    }
  }

  /** From an emitted packet on, the packets up to `j` all have the more-fragments bit. */
  ghost predicate Unfinished(e: seq<Packet>, i: nat, j: nat)
    requires i <= j < |e|
  {
    forall k :: i <= k < j ==> e[k].more
  }

  /** In every run, for any queue lengths and capacities: between the first fragment of a message and its last only
      packets of that port leave, all under one global sequence number; and the global sequence rises by exactly
      one (modulo 256) after each last fragment, from 0 on. */
  lemma {:induction false} MessagesUnbroken(s0: Sys, ls: seq<Label>, i: nat, j: nat)
    requires Initial(s0) && Legal(s0, ls) && i <= j < |After(s0, ls).emitted|
    ensures var e := After(s0, ls).emitted;
      && e[0].glob == 0
      && (Unfinished(e, i, j) ==> e[j].port == e[i].port && e[j].glob == e[i].glob)
      && e[j].glob == (e[i].glob + LastFragments(e[i..j])) % 256
  {
    hide Apply;
    RunGroups(s0, ls);
    GroupedBetween(After(s0, ls).emitted, i, j);
  }

  /** How many messages end among the packets. */
  ghost function LastFragments(e: seq<Packet>): nat {
    if e == [] then 0 else LastFragments(e[..|e| - 1]) + if e[|e| - 1].more then 0 else 1
  }

  lemma {:induction false} GroupedBetween(e: seq<Packet>, i: nat, j: nat)
    requires Grouped(e) && i <= j < |e|
    ensures Unfinished(e, i, j) ==> e[j].port == e[i].port && e[j].glob == e[i].glob
    ensures e[j].glob == (e[i].glob + LastFragments(e[i..j])) % 256
  {
    if i < j {
      GroupedBetween(e, i, j - 1);
      assert Continues(e[j - 1], e[j - 1 + 1]);
      var run := e[i..j];
      assert run[..|run| - 1] == e[i..j - 1] && run[|run| - 1] == e[j - 1];
      AddMod(e[i].glob + LastFragments(e[i..j - 1]), 1);
    } else {
      assert e[i..j] == [];
    }
  }
}
