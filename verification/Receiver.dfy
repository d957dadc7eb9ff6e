/** `RxModule` as functions of its fields. */
module Receiver {
  import opened Words
  import opened Crc
  import opened Packets
  import opened Queues
  import opened Buffers

  const MODULE_INACTIVE := -2
  const CODE_ERROR_CRC_INVALID := -3
  const CODE_ERROR_PORT_CLOSED := -5
  const CODE_ERROR_INVALID_TYPE := -10
  const RECEIVING_WINDOW_SIZE := 128

  datatype Rx = Rx(
    active: bool,
    openPorts: set<Port>,
    cur: map<Port, Byte>,         // current_port_sequence
    buf: Buf,                     // inBuffer
    avail: set<Port>,             // available_messages
    globalBase: Byte,             // to_consume_global_seq
    lastGlobal: Byte,             // lastReceivedGlobalSeq
    window: Byte,                 // receiving_window
    code: Variant)
  {
    function Policy(): Policy {
      RxPolicy(cur, globalBase)
    }
  }

  // ----- isCompleteMessageForPortAvailable -----

  /** What the completeness check compares the sequence number at position `j` with. */
  function Expected(v: Variant, cur: Byte, j: nat): int {
    if v == AsWritten then cur + j % 256 else (cur + j) % 256
  }

  /** The scan reaches position `k` and answers true there. */
  ghost predicate CompleteAt(q: seq<Packet>, cur: Byte, v: Variant, k: nat) {
    && k < |q|
    && (forall j :: 0 <= j <= k ==> q[j].seqPort == Expected(v, cur, j))
    && (forall j :: 0 <= j < k ==> (q[j].more <==> q[j].sub == j % 256))
    && !q[k].more && q[k].sub == k % 256
  }

  ghost predicate Complete(q: seq<Packet>, cur: Byte, v: Variant) {
    exists k :: CompleteAt(q, cur, v, k)
  }

  // ----- The loop of getNextCompleteMessage -----

  /** How the loop ends: a message, a pop from an empty queue, or the inconsistent-state exit. */
  datatype Ending = Whole | NullPacket | Inconsistent

  datatype Assembly = Assembly(ending: Ending, popped: nat, data: seq<Byte>, cur: Byte)

  function Assemble(q: seq<Packet>, cur: Byte): (a: Assembly)
    ensures a.popped <= |q|
  {
    if IsEmpty(q) then Assembly(NullPacket, 0, [], cur)
    else if q[0].seqPort != cur then Assembly(Inconsistent, 1, [], cur)
    else if !q[0].more then Assembly(Whole, 1, q[0].payload, Add8(cur, 1))
    else
      var rest := Assemble(q[1..], Add8(cur, 1));
      Assembly(rest.ending, rest.popped + 1, q[0].payload + rest.data, rest.cur)
  }

  function Payloads(q: seq<Packet>): seq<Byte> {
    if q == [] then [] else q[0].payload + Payloads(q[1..])
  }

  /** A whole message stands at the front: consecutive numbers from `cur`, only the last without more-fragments. */
  ghost predicate WholeAt(q: seq<Packet>, cur: Byte, n: nat) {
    && 0 < n <= |q| && !q[n - 1].more
    && (forall j :: 0 <= j < n ==> q[j].seqPort == (cur + j) % 256)
    && (forall j :: 0 <= j < n - 1 ==> q[j].more)
  }

  /** What the loop returns as a message stands whole at the front, and its data is the payloads in order. */
  lemma {:induction false} AssembleSound(q: seq<Packet>, cur: Byte)
    requires Assemble(q, cur).ending == Whole
    ensures var a := Assemble(q, cur);
      WholeAt(q, cur, a.popped) && a.data == Payloads(q[..a.popped]) && a.cur == (cur + a.popped) % 256
  {
    var next := Add8(cur, 1);
    if q[0].more {
      AssembleSound(q[1..], next);
      var n := Assemble(q[1..], next).popped;
      WholeGrows(q, cur, n);
      assert q[..n + 1][1..] == q[1..][..n];
      AddMod(cur + 1, n);
    } else {
      assert q[..1][1..] == [] && Payloads([]) == [];
    }
  }

  /** Whenever a whole message stands at the front, the loop returns it. */
  lemma {:induction false} AssembleFinds(q: seq<Packet>, cur: Byte, n: nat)
    requires |q| < 0x10000 && WholeAt(q, cur, n)
    ensures Assemble(q, cur).ending == Whole && Assemble(q, cur).popped == n
  {
    assert q[0].seqPort == (cur + 0) % 256 == cur;
    if q[0].more {
      WholeShrinks(q, cur, n);
      AssembleFinds(q[1..], Add8(cur, 1), n - 1);
    } else {
      assert n == 1;
    }
  }

  /** The first `n` packets are consecutive from `cur` and all announce more fragments. */
  ghost predicate Leads(q: seq<Packet>, cur: Byte, n: nat) {
    n <= |q| && forall j :: 0 <= j < n ==> q[j].seqPort == (cur + j) % 256 && q[j].more
  }

  /** How the loop ends without a message: it runs out of packets exactly if all of them announce more, and else stops
      at the first whose number is not the expected one, which it has popped. */
  ghost predicate Fails(q: seq<Packet>, cur: Byte, a: Assembly) {
    && (a.ending == NullPacket <==> Leads(q, cur, |q|))
    && var n := if a.ending == NullPacket then |q| else a.popped - 1;
    && 0 <= n <= |q| && Leads(q, cur, n) && a.cur == (cur + n) % 256 && a.data == Payloads(q[..n])
    && if a.ending == NullPacket then a.popped == |q| else n < |q| && q[n].seqPort != (cur + n) % 256
  }

  lemma {:induction false} AssembleFails(q: seq<Packet>, cur: Byte)
    requires |q| < 0x10000 && Assemble(q, cur).ending != Whole
    ensures Fails(q, cur, Assemble(q, cur))
  {
    if q == [] {
      assert q[..0] == [];
    } else if q[0].seqPort != cur {
      assert !Leads(q, cur, |q|) by { assert q[0].seqPort != (cur + 0) % 256; }
      assert q[..0] == [];
    } else {
      AssembleFails(q[1..], Add8(cur, 1));
      FailsLater(q, cur);
    }
  }

  lemma FailsLater(q: seq<Packet>, cur: Byte)
    requires 0 < |q| < 0x10000 && q[0].seqPort == cur && q[0].more
    requires Fails(q[1..], Add8(cur, 1), Assemble(q[1..], Add8(cur, 1)))
    ensures Fails(q, cur, Assemble(q, cur))
  {
    hide Leads, Assemble, Payloads;
    var a := Assemble(q[1..], Add8(cur, 1));
    AssembleMore(q, cur);
    LeadsGrows(q, cur, |q| - 1);
    if a.ending == NullPacket {
      PrefixMore(q, cur, |q| - 1);
    } else {
      PrefixMore(q, cur, a.popped - 1);
      assert q[1..][a.popped - 1] == q[a.popped];
    }
  }

  lemma PrefixMore(q: seq<Packet>, cur: Byte, n: nat)
    requires q != [] && q[0].seqPort == cur && q[0].more && n < |q|
    ensures Leads(q[1..], Add8(cur, 1), n) <==> Leads(q, cur, n + 1)
    ensures (Add8(cur, 1) + n) % 256 == (cur + (n + 1)) % 256
    ensures Payloads(q[..n + 1]) == q[0].payload + Payloads(q[1..][..n])
  {
    LeadsGrows(q, cur, n);
    AddMod(cur + 1, n);
    assert q[..n + 1][1..] == q[1..][..n];
  }

  lemma AssembleMore(q: seq<Packet>, cur: Byte)
    requires 0 < |q| < 0x10000 && q[0].seqPort == cur && q[0].more
    ensures var a, rest := Assemble(q, cur), Assemble(q[1..], Add8(cur, 1));
      a == Assembly(rest.ending, rest.popped + 1, q[0].payload + rest.data, rest.cur)
  {
  }

  lemma LeadsGrows(q: seq<Packet>, cur: Byte, n: nat)
    requires q != [] && q[0].seqPort == cur && q[0].more && n < |q|
    ensures Leads(q[1..], Add8(cur, 1), n) <==> Leads(q, cur, n + 1)
  {
    forall j | 0 <= j < n
      ensures q[1..][j] == q[j + 1] && (Add8(cur, 1) + j) % 256 == (cur + (j + 1)) % 256
    {
      AddMod(cur + 1, j);
    }
    if Leads(q[1..], Add8(cur, 1), n) {
      forall j | 0 <= j < n + 1 ensures q[j].seqPort == (cur + j) % 256 && q[j].more {
        if j > 0 {
          assert q[1..][j - 1] == q[j];
        }
      }
    }
  }

  lemma WholeGrows(q: seq<Packet>, cur: Byte, n: nat)
    requires q != [] && q[0].seqPort == cur && q[0].more && WholeAt(q[1..], Add8(cur, 1), n)
    ensures WholeAt(q, cur, n + 1)
  {
    forall j | 0 <= j < n + 1 ensures q[j].seqPort == (cur + j) % 256 {
      if j > 0 {
        assert q[1..][j - 1].seqPort == (Add8(cur, 1) + (j - 1)) % 256;
        AddMod(cur + 1, j - 1);
      }
    }
    forall j | 0 <= j < n ensures q[j].more {
      if j > 0 {
        assert q[1..][j - 1].more;
      }
    }
    assert q[n] == q[1..][n - 1];
  }

  lemma WholeShrinks(q: seq<Packet>, cur: Byte, n: nat)
    requires WholeAt(q, cur, n) && q[0].more
    ensures n > 1 && WholeAt(q[1..], Add8(cur, 1), n - 1)
  {
    forall j | 0 <= j < n - 1 ensures q[1..][j].seqPort == (Add8(cur, 1) + j) % 256 {
      AddMod(cur + 1, j);
      assert q[j + 1].seqPort == (cur + (j + 1)) % 256;
    }
    assert q[1..][n - 2] == q[n - 1];
  }

  /** A true completeness check licenses assembly: the loop ends with a message, it never pops an empty queue
      and never takes the inconsistent-state exit, in either variant and for any queue contents. */
  lemma CompleteLicensesAssembly(q: seq<Packet>, cur: Byte, v: Variant)
    requires |q| < 0x10000 && Complete(q, cur, v)
    ensures var a := Assemble(q, cur);
      a.ending == Whole && WholeAt(q, cur, a.popped) && a.data == Payloads(q[..a.popped])
  {
    var k :| CompleteAt(q, cur, v, k);
    var n := FirstLast(q, k);
    forall j | 0 <= j < n ensures q[j].seqPort == (cur + j) % 256 {
      assert q[j].seqPort == Expected(v, cur, j);
      if v == AsWritten {
        AddMod(j, cur);
      }
    }
    AssembleFinds(q, cur, n);
    AssembleSound(q, cur);
  }

  /** The first packet without more-fragments. */
  lemma FirstLast(q: seq<Packet>, k: nat) returns (n: nat)
    requires k < |q| && !q[k].more
    ensures 0 < n <= k + 1 && !q[n - 1].more && forall j :: 0 <= j < n - 1 ==> q[j].more
  {
    n := 1;
    while q[n - 1].more
      invariant 0 < n <= k + 1
      invariant forall j :: 0 <= j < n - 1 ==> q[j].more
      decreases k + 1 - n
    {
      n := n + 1;
    }
  }

  // ----- getNextCompleteMessage -----

  datatype Outcome =
    | Inactive
    | NoMessages
    | Delivered(port: Port, data: seq<Byte>, len: Word)
    | Crashed(port: Port)        // dereferences a null packet
    | Stuck(port: Port)          // returns with rx_mutex still locked

  /** `n` successive pops from the queue of `p`. */
  function PopMany(b: Buf, p: Port, n: nat): Buf
    requires n <= |b.Queue(p)|
  {
    if n == 0 then b
    else
      var rest := b.Queue(p)[n..];
      b.(queues := Put(b.queues, p, rest),
         counter := if IsEmpty(rest) then b.counter - {p} else b.counter[p := Size(rest)])
  }

  /** The smallest key of `available_messages`. */
  function Lowest(s: set<Port>): (p: Port)
    requires s != {}
    ensures p in s && forall r :: r in s ==> p <= r
  {
    LowestFrom(s, 0)
  }

  function LowestFrom(s: set<Port>, from: nat): (p: Port)
    requires s != {} && from <= 128 && forall r :: r in s ==> from <= r
    ensures p in s && forall r :: r in s ==> p <= r
    decreases 128 - from
  {
    var r0 :| r0 in s;
    if from in s then from
    else
      assert forall r :: r in s ==> from + 1 <= r;
      LowestFrom(s, from + 1)
  }

  ghost function Consume(rx: Rx): (Rx, Outcome) {
    if !rx.active then (rx, Inactive)
    else if rx.avail == {} then (rx, NoMessages)
    else
      var p := Lowest(rx.avail);
      var a := Assemble(rx.buf.Queue(p), At(rx.cur, p));
      var buf := PopMany(rx.buf, p, a.popped);
      var rx1 := rx.(buf := buf, cur := rx.cur[p := a.cur]);
      match a.ending
      case NullPacket => (rx1, Crashed(p))
      case Inconsistent => (rx1, Stuck(p))
      case Whole =>
        var avail := if Complete(buf.Queue(p), a.cur, rx.code) then rx.avail + {p} else rx.avail - {p};
        (rx1.(avail := avail), Delivered(p, a.data, |a.data| % 0x10000))
  }

  // ----- handleReceivedPacket -----

  /** Bytes of an S3TP_SYNC: id, global sequence, one sequence number per port. */
  const SYNC_LENGTH := 130

  ghost predicate WellFormed(x: Packet) {
    x.kind == SYNC ==> |x.payload| >= SYNC_LENGTH
  }

  function SyncSeq(payload: seq<Byte>, p: Port): Byte
    requires |payload| >= SYNC_LENGTH
  {
    payload[2 + p]
  }

  /** `synchronizeStatus`: non-zero entries overwrite the expected sequence numbers. */
  function Synchronize(rx: Rx, payload: seq<Byte>): Rx
    requires |payload| >= SYNC_LENGTH
  {
    rx.(cur := rx.cur + map p: Port | 0 <= p < 128 && SyncSeq(payload, p) != 0 :: SyncSeq(payload, p),
        lastGlobal := payload[1])
  }

  /** `flushQueues` clears this port: its head is outside the reordering window. */
  predicate Stale(rx: Rx, p: Port) {
    var q := rx.buf.Queue(p);
    p in Active(rx.buf) && !IsEmpty(q) && Sub8(q[0].glob, rx.globalBase) >= MAX_REORDERING_WINDOW
  }

  function StalePorts(rx: Rx): set<Port> {
    set p | p in rx.buf.counter && Stale(rx, p)
  }

  function FlushQueues(rx: Rx): Rx {
    var stale := StalePorts(rx);
    rx.(buf := rx.buf.(queues := rx.buf.queues - stale, counter := rx.buf.counter - stale),
        globalBase := rx.lastGlobal)
  }

  /** The packet is written to the receive buffer. */
  predicate Accepts(rx: Rx, x: Packet) {
    rx.active && Checksum(x.payload) == x.crc && x.kind == DATA && x.port in rx.openPorts
  }

  /** After `inBuffer->write`: the availability index. */
  ghost function Stored(rx: Rx, x: Packet): Rx {
    var buf := Write(rx.buf, x, rx.Policy());
    rx.(buf := buf,
        avail := if Complete(buf.Queue(x.port), At(rx.cur, x.port), rx.code) then rx.avail + {x.port} else rx.avail)
  }

  /** The global sequence bookkeeping and the window at the end of `handleReceivedPacket`. */
  function CountPacket(rx: Rx, x: Packet): Rx {
    var relative := Sub8(x.glob, rx.globalBase);
    var last := if relative < RECEIVING_WINDOW_SIZE && relative > rx.lastGlobal then x.glob else rx.lastGlobal;
    var rx1 := rx.(lastGlobal := last, window := Add8(rx.window, 1));
    if rx1.window >= RECEIVING_WINDOW_SIZE then FlushQueues(rx1).(window := 0) else rx1
  }

  ghost function Handle(rx: Rx, x: Packet): (Rx, int)
    requires WellFormed(x)
  {
    if !rx.active then (rx, MODULE_INACTIVE)
    else if Checksum(x.payload) != x.crc then (rx, CODE_ERROR_CRC_INVALID)
    else if x.kind == SYNC then (Synchronize(rx, x.payload), CODE_SUCCESS)
    else if x.kind != DATA then (rx, CODE_ERROR_INVALID_TYPE)
    else if x.port !in rx.openPorts then (rx, CODE_ERROR_PORT_CLOSED)
    else (CountPacket(Stored(rx, x), x), CODE_SUCCESS)
  }
}
