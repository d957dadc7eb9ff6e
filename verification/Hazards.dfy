/** Where the receiver's guarantees end: the bound on reordering is tight, and a window clear leaves a stale
    entry in the availability index. */
module Hazards {
  import opened Words
  import opened Crc
  import opened Packets
  import opened Queues
  import opened Buffers
  import R = Receiver

  /** A lone packet that arrives at an idle port is returned as its next message exactly if its absolute index
      is congruent modulo 256 to the expected one: at most 255 ahead only the expected packet is, 256 ahead is
      the first that is taken for it. */
  lemma SpanIsTight(rx: R.Rx, x: Packet, e: nat)
    requires R.Accepts(rx, x) && rx.avail == {} && rx.buf.Queue(x.port) == [] && rx.buf.capacity > 0
    requires rx.window < R.RECEIVING_WINDOW_SIZE - 1 && At(rx.cur, x.port) == e % 256
    requires x.seqPort == x.idx % 256 && x.idx >= e && x.sub == 0 && !x.more
    ensures R.Consume(R.Handle(rx, x).0).1 == (if (x.idx - e) % 256 == 0
      then R.Delivered(x.port, x.payload, |x.payload| % 0x10000) else R.NoMessages)
  {
    Congruent(x.idx, e);
    LoneMessage(rx, x);
  }

  /** A lone single-fragment packet at an idle port is returned exactly if it has the expected number. */
  lemma LoneMessage(rx: R.Rx, x: Packet)
    requires R.Accepts(rx, x) && rx.avail == {} && rx.buf.Queue(x.port) == [] && rx.buf.capacity > 0
    requires rx.window < R.RECEIVING_WINDOW_SIZE - 1 && x.sub == 0 && !x.more
    ensures R.Consume(R.Handle(rx, x).0).1 == (if x.seqPort == At(rx.cur, x.port)
      then R.Delivered(x.port, x.payload, |x.payload| % 0x10000) else R.NoMessages)
  {
    var p, q := x.port, [x];
    LoneInsert(x, rx.Policy());
    var rx' := R.Handle(rx, x).0;
    assert rx'.buf.Queue(p) == q && rx'.cur == rx.cur && rx'.active;
    LoneComplete(x, At(rx.cur, p), rx.code);
    if x.seqPort == At(rx.cur, p) {
      assert rx'.avail == {p} && R.Lowest(rx'.avail) == p;
      LoneAssembly(x);
    } else {
      assert rx'.avail == {};
    }
  }

  /** What becomes of a port whose sequence number a sync moved by `d`, from one that was in step to another: the
      packet due is no longer returned, and the one `d` ahead is returned in its place. */
  lemma SyncMisleads(rx: R.Rx, sync: Packet, x: Packet, next: nat)
    requires rx.active && sync.kind == SYNC && R.WellFormed(sync) && sync.crc == Checksum(sync.payload)
    requires At(rx.cur, x.port) == next % 256 && rx.avail == {} && rx.buf.Queue(x.port) == []
    requires rx.buf.capacity > 0 && rx.window < R.RECEIVING_WINDOW_SIZE - 1
    requires var n := R.SyncSeq(sync.payload, x.port); n != 0 && n != next % 256
    requires R.Accepts(rx, x) && x.seqPort == x.idx % 256 && next <= x.idx < next + 256 && x.sub == 0 && !x.more
    ensures var d := Sub8(R.SyncSeq(sync.payload, x.port), next % 256);
      && d > 0
      && R.Consume(R.Handle(R.Handle(rx, sync).0, x).0).1 == (if x.idx == next + d
           then R.Delivered(x.port, x.payload, |x.payload| % 0x10000) else R.NoMessages)
  {
    var n := R.SyncSeq(sync.payload, x.port);
    var d, rx' := Sub8(n, next % 256), R.Handle(rx, sync).0;
    assert rx'.buf == rx.buf && rx'.avail == {} && At(rx'.cur, x.port) == n;
    Moved(next, n, x.idx);
    LoneMessage(rx', x);
  }

  /** On the ring, `n` is the residue of exactly one index of the span. */
  lemma Moved(next: nat, n: Byte, i: nat)
    requires next <= i < next + 256
    ensures i % 256 == n <==> i == next + Sub8(n, next % 256)
    ensures Sub8(n, next % 256) == 0 <==> n == next % 256
  {
    var r := next % 256;
    var d := Sub8(n, r);
    assert d == if n >= r then n - r else n - r + 256;
    AddMod(next, d);
    assert (r + d) % 256 == n;
    if i % 256 == n {
      ResidueDetermines(i, next + d, next);
    }
  }

  lemma Congruent(i: nat, e: nat)
    requires i >= e
    ensures i % 256 == e % 256 <==> (i - e) % 256 == 0
  {
    ModShift(i % 256 - e % 256, i / 256 - e / 256);
    assert i - e == 256 * (i / 256 - e / 256) + (i % 256 - e % 256);
    var d := i % 256 - e % 256;
    assert -256 < d < 256;
    assert d % 256 == 0 <==> d == 0;
  }

  lemma LoneComplete(x: Packet, cur: Byte, v: Variant)
    requires x.sub == 0 && !x.more
    ensures R.Complete([x], cur, v) <==> x.seqPort == cur
  {
    if x.seqPort == cur {
      assert R.CompleteAt([x], cur, v, 0);
    }
  }

  lemma LoneAssembly(x: Packet)
    requires !x.more
    ensures R.Assemble([x], x.seqPort) == R.Assembly(R.Whole, 1, x.payload, Add8(x.seqPort, 1))
  {
  }

  /** A packet too far from the head of a listed port's queue clears the queue but not the listing. If the port
      is then consumed, the receiver dereferences a null packet or returns with its mutex locked, unless the new
      packet happens to be the whole of the expected message. */
  lemma StaleIndex(rx: R.Rx, x: Packet)
    requires R.Accepts(rx, x) && Clears(rx.buf, x, rx.Policy()) && rx.buf.capacity > 0
    requires x.port in rx.avail && x.port == R.Lowest(rx.avail)
    ensures var rx', p := R.Handle(rx, x).0, x.port;
      && p in rx'.avail
      && (rx'.buf.Queue(p) == [] || rx'.buf.Queue(p) == [x])
      && R.Consume(rx').1 == (
           if rx'.buf.Queue(p) == [] then R.Crashed(p)
           else if x.seqPort != At(rx.cur, p) then R.Stuck(p)
           else if x.more then R.Crashed(p)
           else R.Delivered(p, x.payload, |x.payload| % 0x10000))
  {
    var p, rx' := x.port, R.Handle(rx, x).0;
    LoneInsert(x, rx.Policy());
    assert Write(rx.buf, x, rx.Policy()).Queue(p) == [x];
    assert rx'.avail == rx.avail && rx'.cur == rx.cur;
    LoneEnding(x, At(rx.cur, p));
  }

  lemma LoneEnding(x: Packet, cur: Byte)
    ensures R.Assemble([], cur).ending == R.NullPacket
    ensures var a := R.Assemble([x], cur);
      if x.seqPort != cur then a.ending == R.Inconsistent
      else if x.more then a.ending == R.NullPacket
      else a.ending == R.Whole && a.data == x.payload
  {
    if x.seqPort == cur && x.more {
      assert [x][1..] == [];
    }
  }
}
