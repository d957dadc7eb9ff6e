/** The invariant of the pipeline: every enqueued packet is in exactly one place, unaltered, and the receive
    queue is in absolute order; and why the assembly loop then returns the next message. */
module ProtocolInvariant {
  import opened Words
  import opened Crc
  import opened Packets
  import opened Queues
  import opened Buffers
  import opened Fragmentation
  import opened Protocol
  import R = Receiver
  import T = Sender

  // ----- Index ranges -----

  ghost function Range(a: nat, b: nat): multiset<nat> {
    if b <= a then multiset{} else Range(a, b - 1) + multiset{b - 1}
  }

  lemma {:induction false} RangeCount(a: nat, b: nat, i: nat)
    ensures Range(a, b)[i] == if a <= i < b then 1 else 0
  {
    if b > a {
      RangeCount(a, b - 1, i);
    }
  }

  lemma RangeLast(a: nat, b: nat)
    ensures Range(a, b) == if b <= a then multiset{} else Range(a, b - 1) + multiset{b - 1}
  {
  }

  lemma {:induction false} RangeSplit(a: nat, m: nat, b: nat)
    requires a <= m <= b
    ensures Range(a, b) == Range(a, m) + Range(m, b)
  {
    RangeLast(a, b);
    RangeLast(m, b);
    hide Range;
    if m < b {
      RangeSplit(a, m, b - 1);
      MultisetAssoc(Range(a, m), Range(m, b - 1), multiset{b - 1});
    }
  }

  // ----- The invariant -----

  /** `x` is exactly the packet that the port's history has at its index. */
  ghost predicate Faithful(x: Packet, p: Port, h: History) {
    && x.kind == DATA && x.port == p && x.idx < h.enq && x.idx < |Flat(h.sent)|
    && x.seqPort == x.idx % 256 && x.crc == Checksum(x.payload)
    && Flat(h.sent)[x.idx] == Frag(x.sub, x.more, x.payload, x.channel)
  }

  ghost predicate AllFaithful(q: seq<Packet>, p: Port, h: History) {
    forall k :: 0 <= k < |q| ==> Faithful(q[k], p, h)
  }

  ghost predicate LinkFaithful(s: Sys, p: Port) {
    forall k :: 0 <= k < |s.link| && s.link[k].kind == DATA && s.link[k].port == p
                ==> Faithful(s.link[k], p, s.Hist(p))
  }

  /** Every packet of the port that was enqueued and is not yet consumed is in exactly one place. */
  ghost function Live(s: Sys, p: Port): multiset<nat> {
    Ids(s.TxQueue(p), p) + (Ids(s.link, p) + Ids(s.RxQueue(p), p))
  }

  ghost predicate Conserved(s: Sys, p: Port) {
    Live(s, p) + s.Hist(p).lost == Range(s.Hist(p).next, s.Hist(p).enq)
  }

  ghost predicate Counters(s: Sys, p: Port) {
    && At(s.tx.portSeq, p) == s.Hist(p).enq % 256
    && At(s.rx.cur, p) == s.Hist(p).next % 256
  }

  /** What the application sees of message `m`. */
  ghost function Seen(m: Message): seq<Byte> {
    Truncated(Join(m.parts))
  }

  ghost predicate History0(h: History) {
    && (forall k :: 0 <= k < |h.sent| ==> WellCut(h.sent[k]))
    && h.enq <= |Flat(h.sent)| && h.next <= h.enq
    && h.base + |h.got| <= |h.sent|
    && h.next == Start(h.sent, h.base + |h.got|)
    && forall j :: 0 <= j < |h.got| ==> h.got[j] == Seen(h.sent[h.base + j])
  }

  ghost predicate PortInv(s: Sys, p: Port) {
    && History0(s.Hist(p)) && Counters(s, p) && Conserved(s, p)
    && AllFaithful(s.TxQueue(p), p, s.Hist(p))
    && LinkFaithful(s, p)
    && AllFaithful(s.RxQueue(p), p, s.Hist(p))
    && InSpan(s.RxQueue(p), p, s.Hist(p).next) && Increasing(s.RxQueue(p))
  }

  /** Syncs in flight carry a correct checksum. */
  ghost predicate SyncsIntact(s: Sys) {
    forall k :: 0 <= k < |s.link| && s.link[k].kind == SYNC ==> s.link[k].crc == Checksum(s.link[k].payload)
  }

  ghost predicate Inv(s: Sys) {
    && s.tx.active && s.rx.active && SyncsIntact(s)
    && forall p: Port :: PortInv(s, p)
  }

  lemma InitialInv(s: Sys)
    requires Initial(s)
    ensures Inv(s)
  {
    forall p: Port ensures PortInv(s, p) {
      assert s.Hist(p) == History([], 0, 0, [], 0, multiset{}, true);
    }
  }

  // ----- Consuming -----

  /** In the receive queue, packet `j` is at least `j` ahead of the expected one. */
  lemma {:induction false} AtLeast(q: seq<Packet>, p: Port, e: nat, j: nat)
    requires InSpan(q, p, e) && Increasing(q) && j < |q|
    ensures q[j].idx >= e + j && j < 256
  {
    assert Spanned(q[j], p, e);
    if j > 0 {
      AtLeast(q, p, e, j - 1);
      assert q[j - 1].idx < q[j].idx;
    }
  }

  /** Consecutive sequence numbers at the front mean consecutive absolute indices. */
  lemma ConsecutiveIds(q: seq<Packet>, p: Port, e: nat, n: nat, j: nat)
    requires InSpan(q, p, e) && Increasing(q) && R.WholeAt(q, e % 256, n) && j < n
    ensures q[j].idx == e + j
  {
    AtLeast(q, p, e, j);
    assert Spanned(q[j], p, e);
    assert q[j].seqPort == (e % 256 + j) % 256;
    AddMod(e, j);
    ResidueDetermines(q[j].idx, e + j, e);
  }

  /** Packet `j` of the receive queue, if consecutive, is fragment `j` of the port's next message. */
  ghost predicate IsPart(x: Packet, h: History, j: nat) {
    var k := h.base + |h.got|;
    && k < |h.sent| && j < |h.sent[k].parts|
    && x.idx == h.next + j && x.payload == h.sent[k].parts[j] && x.sub == j && x.more == (j < |h.sent[k].parts| - 1)
  }

  lemma FaithfulIsPart(x: Packet, p: Port, h: History, j: nat)
    requires History0(h) && Faithful(x, p, h) && x.idx == h.next + j
    requires h.base + |h.got| < |h.sent| && j < |h.sent[h.base + |h.got|].parts|
    ensures IsPart(x, h, j)
  {
    FlatAt(h.sent, h.base + |h.got|, j);
  }

  lemma MoreToCome(h: History, i: nat)
    requires History0(h) && h.next <= i < |Flat(h.sent)|
    ensures h.base + |h.got| < |h.sent| && WellCut(h.sent[h.base + |h.got|])
  {
    StartAll(h.sent);
  }

  /** A whole message at the front of the queue is the next message of the port, whole. */
  lemma WholeIsNextMessage(q: seq<Packet>, p: Port, h: History, cur: Byte, n: nat)
    requires History0(h) && AllFaithful(q, p, h) && InSpan(q, p, h.next) && Increasing(q)
    requires cur == h.next % 256 && R.WholeAt(q, cur, n)
    ensures h.base + |h.got| < |h.sent| && n == |h.sent[h.base + |h.got|].parts|
    ensures forall j :: 0 <= j < n ==> IsPart(q[j], h, j)
  {
    ConsecutiveIds(q, p, h.next, n, 0);
    assert Faithful(q[0], p, h);
    MoreToCome(h, q[0].idx);
    var size := |h.sent[h.base + |h.got|].parts|;
    forall j | 0 <= j < n && j < size ensures IsPart(q[j], h, j) {
      ConsecutiveIds(q, p, h.next, n, j);
      assert Faithful(q[j], p, h);
      FaithfulIsPart(q[j], p, h, j);
    }
    var last := if n < size then n - 1 else size - 1;
    assert IsPart(q[last], h, last);
  }

  lemma {:induction false} PayloadsSnoc(q: seq<Packet>, x: Packet)
    ensures R.Payloads(q + [x]) == R.Payloads(q) + x.payload
  {
    var r := q + [x];
    assert R.Payloads(r) == r[0].payload + R.Payloads(r[1..]);
    if q == [] {
      assert r[0] == x && r[1..] == [];
      assert R.Payloads(r[1..]) == [] && R.Payloads(q) == [];
      assert x.payload + [] == x.payload && [] + x.payload == x.payload;
    } else {
      assert r[0] == q[0] && r[1..] == q[1..] + [x];
      PayloadsSnoc(q[1..], x);
      Assoc(q[0].payload, R.Payloads(q[1..]), x.payload);
    }
  }

  lemma {:induction false} PayloadsJoin(q: seq<Packet>, parts: seq<seq<Byte>>)
    requires |q| == |parts| && forall j :: 0 <= j < |q| ==> q[j].payload == parts[j]
    ensures R.Payloads(q) == Join(parts)
  {
    if q == [] {
      assert parts == [];
    } else {
      var n := |q| - 1;
      ConcatSnoc([], q);
      PayloadsJoin(q[..n], parts[..n]);
      PayloadsSnoc(q[..n], q[n]);
      assert q[n].payload == parts[n];
    }
  }

  lemma RangeNext(e: nat, n: nat)
    ensures Range(e, e + n + 1) == Range(e, e + n) + multiset{e + n}
  {
  }

  ghost predicate IsRun(q: seq<Packet>, p: Port, e: nat, n: nat) {
    n <= |q| && forall j :: 0 <= j < n ==> q[j].kind == DATA && q[j].port == p && q[j].idx == e + j
  }

  lemma NoRun(p: Port, e: nat)
    ensures Ids([], p) == Range(e, e)
  {
  }

  lemma RunNext(front: seq<Packet>, x: Packet, p: Port, e: nat, n: nat)
    requires Ids(front, p) == Range(e, e + n) && x.kind == DATA && x.port == p && x.idx == e + n
    ensures Ids(front + [x], p) == Range(e, e + n + 1)
  {
    IdsSnoc(front, x, p);
    RangeNext(e, n);
  }

  lemma {:induction false} IdsOfRun(q: seq<Packet>, p: Port, e: nat, n: nat)
    requires IsRun(q, p, e, n)
    ensures Ids(q[..n], p) == Range(e, e + n)
  {
    NoRun(p, e);
    hide Ids, Range;
    if n == 0 {
      assert q[..0] == [];
    } else {
      var front, x := q[..n - 1], q[n - 1];
      IdsOfRun(q, p, e, n - 1);
      RunNext(front, x, p, e, n - 1);
      TakeOne(q, n - 1);
    }
  }

  lemma FrontIds(q: seq<Packet>, p: Port, e: nat, n: nat)
    requires IsRun(q, p, e, n)
    ensures Ids(q, p) == Range(e, e + n) + Ids(q[n..], p)
  {
    IdsOfRun(q, p, e, n);
    SplitAt(q, n);
    IdsConcat(q[..n], q[n..], p);
  }

  /** The loop of getNextCompleteMessage, when it returns a message, returns the port's next one. */
  lemma AssembledIsNext(q: seq<Packet>, p: Port, h: History, cur: Byte, a: R.Assembly)
    requires History0(h) && AllFaithful(q, p, h) && InSpan(q, p, h.next) && Increasing(q)
    requires cur == h.next % 256 && a == R.Assemble(q, cur) && a.ending == R.Whole
    ensures var k := h.base + |h.got|;
      && k < |h.sent| && a.popped == |h.sent[k].parts| && a.data == Join(h.sent[k].parts)
      && a.cur == (h.next + a.popped) % 256
      && h.next + a.popped == Start(h.sent, k + 1) <= h.enq
    ensures IsRun(q, p, h.next, a.popped)
  {
    hide R.Assemble, R.WholeAt, Flat, Ids;
    var k, n := h.base + |h.got|, a.popped;
    R.AssembleSound(q, cur);
    WholeIsNextMessage(q, p, h, cur, n);
    PayloadsAreJoin(q, h, n);
    AddMod(h.next, n);
    StartNext(h.sent, k);
    forall j | 0 <= j < n ensures q[j].kind == DATA && q[j].port == p && q[j].idx == h.next + j && q[j].idx < h.enq {
      assert Faithful(q[j], p, h) && IsPart(q[j], h, j);
    }
    assert q[n - 1].idx < h.enq;
  }

  lemma PayloadsAreJoin(q: seq<Packet>, h: History, n: nat)
    requires h.base + |h.got| < |h.sent| && n == |h.sent[h.base + |h.got|].parts| <= |q|
    requires forall j :: 0 <= j < n ==> IsPart(q[j], h, j)
    ensures R.Payloads(q[..n]) == Join(h.sent[h.base + |h.got|].parts)
  {
    var parts := h.sent[h.base + |h.got|].parts;
    forall j | 0 <= j < n ensures q[..n][j].payload == parts[j] {
      assert IsPart(q[j], h, j);
    }
    PayloadsJoin(q[..n], parts);
  }
}
