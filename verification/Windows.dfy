/** The receiver's windows, said in numbers: which packets are refused and with what code, what the window of 128
    packets and the flush do, when a write clears a queue, and what the receiver takes for the latest global sequence
    number. */
module Windows {
  import opened Words
  import opened Crc
  import opened Packets
  import opened Queues
  import opened Buffers
  import R = Receiver

  // ----- Which packets are taken -----

  /** The code of every packet, and that a refused one changes nothing. */
  lemma HandledExactly(rx: R.Rx, x: Packet)
    requires R.WellFormed(x)
    ensures var (rx', code) := R.Handle(rx, x);
      var intact := x.crc == Checksum(x.payload);
      && (code == -2 <==> !rx.active)
      && (code == -3 <==> rx.active && !intact)
      && (code == -10 <==> rx.active && intact && x.kind != 0 && x.kind != 3)
      && (code == -5 <==> rx.active && intact && x.kind == 0 && x.port !in rx.openPorts)
      && (code == 0 <==> rx.active && intact && (x.kind == 3 || (x.kind == 0 && x.port in rx.openPorts)))
      && (code != 0 ==> rx' == rx)
      && rx'.active == rx.active && rx'.openPorts == rx.openPorts && rx'.code == rx.code
  {
  }

  /** An undamaged sync sets the expected number of every port whose entry is not zero and the latest global
      sequence number, and nothing else: queues, window and base stay. */
  lemma SyncSets(rx: R.Rx, x: Packet)
    requires rx.active && x.kind == 3 && R.WellFormed(x) && x.crc == Checksum(x.payload)
    ensures var rx' := R.Handle(rx, x).0;
      && (forall p: Port :: At(rx'.cur, p) == if x.payload[2 + p] != 0 then x.payload[2 + p] else At(rx.cur, p))
      && rx'.lastGlobal == x.payload[1]
      && rx' == rx.(cur := rx'.cur, lastGlobal := rx'.lastGlobal)
  {
    var rx' := R.Handle(rx, x).0;
    forall p: Port ensures At(rx'.cur, p) == if x.payload[2 + p] != 0 then x.payload[2 + p] else At(rx.cur, p) {
      assert R.SyncSeq(x.payload, p) == x.payload[2 + p];
    }
  }

  // ----- write -----

  /** The global sequence number `glob` is `d` ahead of the base. */
  predicate Ahead(base: Byte, glob: Byte, d: nat) {
    d < 256 && glob == (base + d) % 256
  }

  lemma Distance(base: Byte, glob: Byte, d: nat)
    requires Ahead(base, glob, d)
    ensures Sub8(glob, base) == d
  {
  }

  lemma DistanceExists(base: Byte, glob: Byte)
    ensures Ahead(base, glob, Sub8(glob, base))
  {
  }

  /** What a write does to the queue of the packet's port: if the packet and the head are more than 128 apart, as
      counted from the receiver's base, the queue is emptied first; a queue at capacity takes nothing more. Only that
      queue changes. */
  lemma WriteExactly(b: Buf, x: Packet, cur: map<Port, Byte>, base: Byte, g: nat, h: nat)
    requires b.Queue(x.port) != [] && |b.Queue(x.port)| < 0x10000
    requires Ahead(base, x.glob, g) && Ahead(base, b.Queue(x.port)[0].glob, h)
    ensures var q, q' := b.Queue(x.port), Write(b, x, RxPolicy(cur, base)).Queue(x.port);
      if g > h + 128 || h > g + 128 then q' == if b.capacity == 0 then [] else [x]
      else if |q| >= b.capacity then q' == q
      else multiset(q') == multiset(q) + multiset{x}
    ensures forall r: Port :: r != x.port ==> Write(b, x, RxPolicy(cur, base)).Queue(r) == b.Queue(r)
  {
    hide Insert, Clears, Write;
    var pol, q := RxPolicy(cur, base), b.Queue(x.port);
    Distance(base, x.glob, g);
    Distance(base, q[0].glob, h);
    ClearsExactly(b, x, pol, g, h);
    OwnQueue(b, x, pol);
    LoneInsert(x, pol);
    InsertMultiset(q, x, pol);
  }

  lemma OwnQueue(b: Buf, x: Packet, pol: Policy)
    ensures var q := AfterClear(b, x, pol);
      Write(b, x, pol).Queue(x.port) == if Size(q) >= b.capacity then q else Insert(q, x, pol)
    ensures forall r: Port :: r != x.port ==> Write(b, x, pol).Queue(r) == b.Queue(r)
  {
    hide Insert;
  }

  lemma ClearsExactly(b: Buf, x: Packet, pol: Policy, g: nat, h: nat)
    requires 0 < |b.Queue(x.port)| < 0x10000 && pol.RxPolicy?
    requires Sub8(x.glob, pol.globalBase) == g && Sub8(b.Queue(x.port)[0].glob, pol.globalBase) == h
    ensures Clears(b, x, pol) <==> g > h + 128 || h > g + 128
  {
  }

  /** A sender's write never clears a queue. */
  lemma SenderWriteExactly(b: Buf, x: Packet, offset: map<Port, Byte>, blocked: set<Byte>)
    ensures var q, b' := b.Queue(x.port), Write(b, x, TxPolicy(offset, blocked));
      && (if |q| % 0x10000 >= b.capacity then b'.Queue(x.port) == q
          else multiset(b'.Queue(x.port)) == multiset(q) + multiset{x})
      && forall r: Port :: r != x.port ==> b'.Queue(r) == b.Queue(r)
  {
    InsertMultiset(b.Queue(x.port), x, TxPolicy(offset, blocked));
  }

  // ----- flushQueues -----

  /** A flush keeps a queue if and only if its head is less than 128 ahead of the base, and empties it otherwise. The
      base moves to the latest global sequence number. */
  lemma FlushExactly(rx: R.Rx, p: Port)
    requires IndexAgrees(rx.buf) && |rx.buf.Queue(p)| < 0x10000
    ensures var q, rx' := rx.buf.Queue(p), R.FlushQueues(rx);
      && (rx'.buf.Queue(p) == q || rx'.buf.Queue(p) == [])
      && (q != [] ==> (rx'.buf.Queue(p) == q <==> exists d :: Ahead(rx.globalBase, q[0].glob, d) && d < 128))
      && rx' == rx.(buf := rx'.buf, globalBase := rx.lastGlobal) && rx'.buf.capacity == rx.buf.capacity
  {
    assert IndexAgreesAt(rx.buf, p);
    var q := rx.buf.Queue(p);
    if q != [] {
      DistanceExists(rx.globalBase, q[0].glob);
      forall d | Ahead(rx.globalBase, q[0].glob, d) ensures d == Sub8(q[0].glob, rx.globalBase) {
        Distance(rx.globalBase, q[0].glob, d);
      }
    }
  }

  /** In absolute numbers: with the base at `b`, a head at `g` of the 256 from there on stays if it is one of the
      first 128 and goes if it is one of the last. */
  lemma FlushByNumber(rx: R.Rx, p: Port, b: nat, g: nat)
    requires IndexAgrees(rx.buf) && 0 < |rx.buf.Queue(p)| < 0x10000
    requires rx.globalBase == b % 256 && rx.buf.Queue(p)[0].glob == g % 256 && b <= g < b + 256
    ensures R.FlushQueues(rx).buf.Queue(p) == if g < b + 128 then rx.buf.Queue(p) else []
  {
    FlushExactly(rx, p);
    AddMod(b, g - b);
    var glob := rx.buf.Queue(p)[0].glob;
    assert Ahead(rx.globalBase, glob, g - b);
    forall d | Ahead(rx.globalBase, glob, d) ensures d == g - b {
      Distance(rx.globalBase, glob, d);
      Distance(rx.globalBase, glob, g - b);
    }
  }

  // ----- The window of 128 packets -----

  /** An accepted packet advances the window; the one that fills it, and no other, flushes the queues and moves the
      base. Its global number, `d` ahead of the base, becomes the latest if it is within the window and `d` exceeds
      the latest so far. */
  lemma CountedExactly(rx: R.Rx, x: Packet, d: nat)
    requires R.WellFormed(x) && R.Handle(rx, x).1 == 0 && x.kind == 0 && rx.window < 128
    requires Ahead(rx.globalBase, x.glob, d)
    ensures var rx', latest := R.Handle(rx, x).0, if rx.lastGlobal < d < 128 then x.glob else rx.lastGlobal;
      && rx'.lastGlobal == latest
      && rx'.window == (rx.window + 1) % 128
      && rx'.globalBase == (if rx.window == 127 then latest else rx.globalBase)
      && (rx.window < 127 ==> rx'.buf == Write(rx.buf, x, RxPolicy(rx.cur, rx.globalBase)))
      && (rx.window == 127 ==> rx'.buf == R.FlushQueues(rx.(buf := Write(rx.buf, x, RxPolicy(rx.cur, rx.globalBase)))).buf)
  {
    Distance(rx.globalBase, x.glob, d);
    hide R.Complete, Write;
  }

  /** All of `xs` are data packets that are accepted, one after the other. */
  ghost predicate AllTaken(rx: R.Rx, xs: seq<Packet>) {
    xs != [] ==>
      && AllTaken(rx, xs[..|xs| - 1])
      && xs[|xs| - 1].kind == 0 && R.Handle(Handled(rx, xs[..|xs| - 1]), xs[|xs| - 1]).1 == 0
  }

  ghost function Handled(rx: R.Rx, xs: seq<Packet>): R.Rx {
    if xs == [] then rx
    else
      var before, x := Handled(rx, xs[..|xs| - 1]), xs[|xs| - 1];
      if R.WellFormed(x) then R.Handle(before, x).0 else before
  }

  /** The largest of the numbers below 128, or 0. */
  ghost function Largest(xs: seq<Packet>): Byte {
    if xs == [] then 0
    else
      var before, g := Largest(xs[..|xs| - 1]), xs[|xs| - 1].glob;
      if before < g < 128 then g else before
  }

  /** The latest number after a packet with number `glob`. */
  function Picked(base: Byte, last: Byte, glob: Byte): Byte {
    if last < Sub8(glob, base) < 128 then glob else last
  }

  lemma Counted(rx: R.Rx, x: Packet)
    requires R.WellFormed(x) && R.Handle(rx, x).1 == 0 && x.kind == 0 && rx.window < 128
    ensures var rx', latest := R.Handle(rx, x).0, Picked(rx.globalBase, rx.lastGlobal, x.glob);
      && rx'.lastGlobal == latest && rx'.globalBase == (if rx.window == 127 then latest else rx.globalBase)
      && rx'.window == if rx.window == 127 then 0 else rx.window + 1
  {
    DistanceExists(rx.globalBase, x.glob);
    CountedExactly(rx, x, Sub8(x.glob, rx.globalBase));
    hide R.Handle;
  }

  /** Over any run of accepted packets the window counts modulo 128, and the base stays while it does not come round. */
  lemma {:induction false} WindowCounts(rx: R.Rx, xs: seq<Packet>)
    requires rx.window < 128 && AllTaken(rx, xs)
    ensures Handled(rx, xs).window == (rx.window + |xs|) % 128
    ensures rx.window + |xs| < 128 ==> Handled(rx, xs).globalBase == rx.globalBase
  {
    hide R.Handle, Picked;
    if xs != [] {
      var n := |xs| - 1;
      WindowCounts(rx, xs[..n]);
      Counted(Handled(rx, xs[..n]), xs[n]);
      NextOnWindow(rx.window + n);
    }
  }

  lemma NextOnWindow(total: nat)
    ensures (total + 1) % 128 == if total % 128 == 127 then 0 else total % 128 + 1
    ensures total < 128 ==> total % 128 == total
  {
  }

  /** From base 0 and an empty window the latest number is the largest below 128 that came in, and packet 128 moves the
      base there. */
  lemma {:induction false} FirstWindow(rx: R.Rx, xs: seq<Packet>)
    requires rx.window == rx.globalBase == rx.lastGlobal == 0 && AllTaken(rx, xs) && |xs| <= 128
    ensures Handled(rx, xs).lastGlobal == Largest(xs)
    ensures Handled(rx, xs).globalBase == if |xs| == 128 then Largest(xs) else 0
  {
    hide R.Handle;
    if xs != [] {
      var n := |xs| - 1;
      FirstWindow(rx, xs[..n]);
      WindowCounts(rx, xs[..n]);
      Counted(Handled(rx, xs[..n]), xs[n]);
    }
  }

  /** Of two numbers the one further ahead of the base, among the 128 from there on. */
  function Furthest(base: Byte, last: Byte, glob: Byte): Byte {
    if Sub8(last, base) < Sub8(glob, base) < 128 then glob else last
  }

  /** The number of an incoming packet is compared as a distance, the latest so far as it is. For every packet that may
      come in this picks the furthest exactly if the base is 0, or 255 while the latest is not, or the latest leaves
      nothing to be picked either way. */
  lemma LatestIsFurthest(rx: R.Rx)
    requires rx.active && rx.openPorts != {} && rx.window < 128
    ensures (forall x :: R.Accepts(rx, x) ==>
               R.Handle(rx, x).0.lastGlobal == Furthest(rx.globalBase, rx.lastGlobal, x.glob))
      <==> (rx.globalBase == 0 || (rx.globalBase == 255 && rx.lastGlobal < 255)
            || (rx.lastGlobal >= 127 && Sub8(rx.lastGlobal, rx.globalBase) >= 127))
  {
    var base, last := rx.globalBase, rx.lastGlobal;
    forall x | R.Accepts(rx, x) ensures R.Handle(rx, x).0.lastGlobal == Picked(base, last, x.glob) {
      Counted(rx, x);
    }
    hide R.Handle;
    if exists glob: Byte :: Picked(base, last, glob) != Furthest(base, last, glob) {
      var glob: Byte :| Picked(base, last, glob) != Furthest(base, last, glob);
      var p :| p in rx.openPorts;
      var x := Packet(DATA, p, false, 0, 0, glob, Checksum([]), [], 0, 0);
      assert R.Accepts(rx, x);
    }
    PicksFurthest(base, last);
  }

  lemma PicksFurthest(base: Byte, last: Byte)
    ensures (forall glob: Byte :: Picked(base, last, glob) == Furthest(base, last, glob))
      <==> (base == 0 || (base == 255 && last < 255) || (last >= 127 && Sub8(last, base) >= 127))
  {
    var ahead := Sub8(last, base);
    assert base == 0 <==> last == ahead;
    assert ahead == last + 1 <==> base == 255 && last < 255;
    if last == ahead || ahead == last + 1 || (last >= 127 && ahead >= 127) {
      hide Sub8;
      forall glob: Byte ensures Picked(base, last, glob) == Furthest(base, last, glob) {
        SameDistance(base, last, glob);
      }
    } else {
      var d := if last < ahead then last + 1 else ahead + 1;
      Distance(base, Add8(base, d), d);
      assert Picked(base, last, Add8(base, d)) != Furthest(base, last, Add8(base, d));
    }
  }

  /** Numbers at the same distance are the same. */
  lemma SameDistance(base: Byte, last: Byte, glob: Byte)
    ensures Sub8(glob, base) == Sub8(last, base) <==> glob == last
  {
  }
}
