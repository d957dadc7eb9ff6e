/** What the framer takes in, skips and finds, said of the bytes alone. */
module Scanning {
  import opened Words
  import opened Framing

  // ----- append -----

  /** Feeding a framer adds a prefix of the data to what it has accepted: all of it, or as much as fills the buffer
      to 1024 bytes. Of what is then buffered only the bytes before the first start of message are dropped. */
  lemma FeedTakes(cb: Callbacks, ops: seq<Op>, data: seq<Byte>)
    ensures Fed(cb, RunOf(cb, ops), RunOf(cb, ops + [Feed(data)]), data)
  {
    assert (ops + [Feed(data)])[..|ops|] == ops;
    FeedStep(cb, RunOf(cb, ops), data);
    hide Apply, Fed, Sound;
  }

  ghost predicate Fed(cb: Callbacks, r: Run, r': Run, data: seq<Byte>) {
    && |r.accepted| <= |r'.accepted| && r'.returned == r.returned
    && var n := |r'.accepted| - |r.accepted|;
    && n <= |data| && r'.accepted == r.accepted + data[..n]
    && |r.buf| + n <= 1024 && (n == |data| || |r.buf| + n == 1024)
    && FromFirstStart(cb, r.buf + data[..n], r'.buf)
  }

  lemma FeedStep(cb: Callbacks, r: Run, data: seq<Byte>)
    requires |r.buf| <= BUFFER_SIZE && Ready(cb, r.buf)
    ensures Fed(cb, r, Apply(cb, r, Feed(data)), data)
  {
    var n := if data == [] then 0 else Accepted(r.buf, data);
    AppendTakes(r.buf, data);
    FeedIs(cb, r, data, n);
    TrimIsFromFirst(cb, r.buf + data[..n]);
    hide Trim, FromFirstStart, Apply, Accepted;
  }

  lemma FeedIs(cb: Callbacks, r: Run, data: seq<Byte>, n: nat)
    requires |r.buf| <= BUFFER_SIZE && Ready(cb, r.buf) && n == (if data == [] then 0 else Accepted(r.buf, data))
    ensures n <= |data|
    ensures var r' := Apply(cb, r, Feed(data));
      && r'.accepted == r.accepted + data[..n] && r'.returned == r.returned
      && r'.buf == Trim(cb, r.buf + data[..n])
  {
    if data == [] {
      assert r.buf + data[..n] == r.buf;
    }
  }

  /** `r` is `buf` from the first place on at which a start of message is seen, or empty. */
  ghost predicate FromFirstStart(cb: Callbacks, buf: seq<Byte>, r: seq<Byte>) {
    && |r| <= |buf| && r == buf[|buf| - |r|..] && (r == [] || cb.isStart(r))
    && forall i :: 0 <= i < |buf| - |r| ==> !cb.isStart(buf[i..])
  }

  lemma AppendTakes(buf: seq<Byte>, data: seq<Byte>)
    requires |buf| <= 1024
    ensures var n := Accepted(buf, data);
      n <= |data| && |buf| + n <= 1024 && (n == |data| || |buf| + n == 1024)
  {
  }

  // ----- removeTail -----

  /** `removeTail` cuts right before the first start of message: it removes no byte at which one begins. */
  lemma {:induction false} TrimStopsAtFirst(cb: Callbacks, buf: seq<Byte>, i: nat)
    requires i < |buf| - |Trim(cb, buf)|
    ensures !cb.isStart(buf[i..])
  {
    assert buf[0..] == buf;
    if i > 0 {
      TrimStopsAtFirst(cb, buf[1..], i - 1);
      assert buf[1..][i - 1..] == buf[i..];
    }
  }

  lemma TrimIsFromFirst(cb: Callbacks, buf: seq<Byte>)
    ensures FromFirstStart(cb, buf, Trim(cb, buf))
    ensures Ready(cb, buf) ==> Trim(cb, buf) == buf
  {
    forall i | 0 <= i < |buf| - |Trim(cb, buf)| ensures !cb.isStart(buf[i..]) {
      TrimStopsAtFirst(cb, buf, i);
    }
  }

  // ----- sample -----

  /** A message of the announced length, taken as a C `int`, is there in full. */
  lemma CompleteMeans(cb: Callbacks, buf: seq<Byte>)
    requires |buf| <= 1024 && -0x8000_0000 <= cb.length(buf) < 0x8000_0000
    ensures cb.Complete(buf) <==> 1 <= cb.length(buf) <= |buf|
    ensures cb.Complete(buf) ==> cb.MessageLength(buf) == cb.length(buf)
  {
  }

  /** Nothing to be returned begins at `i`: no start of message, or a complete message that is not valid. */
  ghost predicate Skipped(cb: Callbacks, buf: seq<Byte>, i: nat)
    requires i <= |buf|
  {
    var rest := buf[i..];
    cb.isStart(rest) ==> cb.Complete(rest) && !cb.isValid(rest[..cb.MessageLength(rest)])
  }

  /** The scan comes to rest at `i`: every earlier place is skipped, and at `i` the buffer ends, a start has not
      got its whole message yet, or a complete valid message begins. */
  ghost predicate RestsAt(cb: Callbacks, buf: seq<Byte>, i: nat) {
    && i <= |buf| && (forall j :: 0 <= j < i ==> Skipped(cb, buf, j)) && (i < |buf| ==> Halts(cb, buf, i))
  }

  ghost predicate Halts(cb: Callbacks, buf: seq<Byte>, i: nat)
    requires i <= |buf|
  {
    cb.isStart(buf[i..]) && !Skipped(cb, buf, i)
  }

  /** `sample` returns the first complete valid message in the buffer that has only rejected ones and bytes without
      a start in front of it; a start whose message is incomplete stops it. */
  ghost predicate Finds(cb: Callbacks, buf: seq<Byte>, capacity: Option<nat>, s: Sampled, i: nat)
    requires i <= |buf|
  {
    var rest := buf[i..];
    if rest == [] || !cb.Complete(rest) then s.result == 0 && s.rest == rest
    else
      var n := cb.MessageLength(rest);
      if capacity.Some? && n <= capacity.value then
        s.result == n && s.message == rest[..n] && s.rest == Trim(cb, rest[n..])
      else
        s.result == -4 && s.rest == rest
  }

  lemma {:induction false} SampleFinds(cb: Callbacks, buf: seq<Byte>, capacity: Option<nat>) returns (i: nat)
    requires Ready(cb, buf)
    ensures RestsAt(cb, buf, i) && Finds(cb, buf, capacity, Sample(cb, buf, capacity), i)
    decreases |buf|, 1
  {
    if buf == [] || !cb.Complete(buf) || cb.isValid(buf[..cb.MessageLength(buf)]) {
      i := 0;
      SampleCases(cb, buf, capacity);
      assert buf[0..] == buf;
      hide Sample, Trim;
    } else {
      i := SkipsRejected(cb, buf, capacity);
    }
  }

  lemma {:induction false} SkipsRejected(cb: Callbacks, buf: seq<Byte>, capacity: Option<nat>) returns (i: nat)
    requires Ready(cb, buf) && buf != [] && cb.Complete(buf) && !cb.isValid(buf[..cb.MessageLength(buf)])
    ensures RestsAt(cb, buf, i) && Finds(cb, buf, capacity, Sample(cb, buf, capacity), i)
    decreases |buf|, 0
  {
    hide Sample, Trim, RestsAt, Finds, Skipped;
    var shorter := Trim(cb, buf[1..]);
    var s, t := Sample(cb, buf, capacity), Sample(cb, shorter, capacity);
    SampleCases(cb, buf, capacity);
    TailOfTail(buf, shorter);
    RejectedIsSkipped(cb, buf);
    var k := SampleFinds(cb, shorter, capacity);
    assert k <= |shorter| by { RestsWithin(cb, shorter, k); }
    i := |buf| - |shorter| + k;
    FindsLater(cb, buf, |buf| - |shorter|, capacity, t, s, k);
    RestsLater(cb, buf, shorter, k);
  }

  lemma RejectedIsSkipped(cb: Callbacks, buf: seq<Byte>)
    requires cb.Complete(buf) && !cb.isValid(buf[..cb.MessageLength(buf)])
    ensures Skipped(cb, buf, 0)
  {
    assert buf[0..] == buf;
  }

  lemma RestsWithin(cb: Callbacks, buf: seq<Byte>, i: nat)
    requires RestsAt(cb, buf, i)
    ensures i <= |buf|
  {
  }

  lemma FindsLater(cb: Callbacks, buf: seq<Byte>, gone: nat, capacity: Option<nat>, t: Sampled, s: Sampled, k: nat)
    requires gone + k <= |buf| && Finds(cb, buf[gone..], capacity, t, k)
    requires s.result == t.result && s.message == t.message && s.rest == t.rest
    ensures Finds(cb, buf, capacity, s, gone + k)
  {
    hide Trim;
    DropDrop(buf, gone, k);
  }

  /** The scan of what is left after a rejected message, seen from that message's start. */
  lemma RestsLater(cb: Callbacks, buf: seq<Byte>, shorter: seq<Byte>, k: nat)
    requires buf != [] && Skipped(cb, buf, 0) && shorter == Trim(cb, buf[1..]) && RestsAt(cb, shorter, k)
    ensures RestsAt(cb, buf, |buf| - |shorter| + k)
  {
    hide Trim, Skipped, Halts;
    var gone := |buf| - |shorter|;
    TailOfTail(buf, shorter);
    forall j | 0 <= j < gone + k ensures Skipped(cb, buf, j) {
      if j >= gone {
        assert Skipped(cb, shorter, j - gone);
        Later(cb, buf, gone, j - gone);
      } else if j > 0 {
        TrimmedIsSkipped(cb, buf, j);
      }
    }
    Later(cb, buf, gone, k);
  }

  lemma TrimmedIsSkipped(cb: Callbacks, buf: seq<Byte>, j: nat)
    requires buf != [] && 0 < j < |buf| - |Trim(cb, buf[1..])|
    ensures Skipped(cb, buf, j)
  {
    TrimStopsAtFirst(cb, buf[1..], j - 1);
    DropDrop(buf, 1, j - 1);
  }

  lemma TailOfTail(buf: seq<Byte>, shorter: seq<Byte>)
    requires buf != [] && |shorter| < |buf| && shorter == buf[1..][|buf| - 1 - |shorter|..]
    ensures shorter == buf[|buf| - |shorter|..]
  {
    DropDrop(buf, 1, |buf| - 1 - |shorter|);
  }

  lemma Later(cb: Callbacks, buf: seq<Byte>, gone: nat, k: nat)
    requires gone + k <= |buf|
    ensures Skipped(cb, buf[gone..], k) == Skipped(cb, buf, gone + k)
    ensures Halts(cb, buf[gone..], k) == Halts(cb, buf, gone + k)
  {
    DropDrop(buf, gone, k);
  }

  /** There is only one such place, so the two predicates fix the outcome. */
  lemma RestsOnce(cb: Callbacks, buf: seq<Byte>, i: nat, j: nat)
    requires RestsAt(cb, buf, i) && RestsAt(cb, buf, j)
    ensures i == j
  {
  }
}
