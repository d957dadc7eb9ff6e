/** `sendToLinkLayer`, which enqueues all fragments of a message in one call, is a run of the pipeline's steps. */
module Submission {
  import opened Words
  import opened Packets
  import opened Fragmentation
  import opened Protocol
  import T = Sender

  /** Accepting a message and enqueueing its first `n` fragments. */
  ghost function Steps(p: Port, channel: Byte, mem: seq<Byte>, len: nat, n: nat): seq<Label> {
    if n == 0 then [Send(p, channel, mem, len)] else Steps(p, channel, mem, len, n - 1) + [EnqueueNext(p)]
  }

  ghost predicate Submitted(s: Sys, t: Sys, p: Port, channel: Byte, mem: seq<Byte>, len: nat, n: nat)
    requires len <= |mem| && Extent(s.rx.code, len) <= |mem| && n <= Count(len)
  {
    var parts := Cut(s.rx.code, mem, len);
    && t.tx == T.EnqueueParts(s.tx, p, channel, parts, n, s.Hist(p).enq)
    && t.rx == s.rx && t.link == s.link && t.halted == s.halted
    && t.Hist(p).enq == s.Hist(p).enq + n
    && t.Hist(p).sent == s.Hist(p).sent + [Message(mem[..len], parts, channel)]
  }

  /** The fragment the port enqueues next. */
  lemma NextFrag(ms: seq<Message>, m: Message, n: nat)
    requires n < |m.parts|
    ensures |Flat(ms)| + n < |Flat(ms + [m])|
    ensures Flat(ms + [m])[|Flat(ms)| + n] == Frag(n, n + 1 < |m.parts|, m.parts[n], m.channel)
  {
    FlatSnoc(ms, m);
  }

  lemma NextPart(s: Sys, t: Sys, p: Port, channel: Byte, mem: seq<Byte>, len: nat, n: nat)
    requires len <= |mem| && Extent(s.rx.code, len) <= |mem| && n < Count(len)
    requires s.Hist(p).enq == |Flat(s.Hist(p).sent)| && !s.halted && Submitted(s, t, p, channel, mem, len, n)
    ensures Enabled(t, EnqueueNext(p)) && Submitted(s, ApplyEnqueue(t, p), p, channel, mem, len, n + 1)
  {
    var parts := Cut(s.rx.code, mem, len);
    var m := Message(mem[..len], parts, channel);
    NextFrag(s.Hist(p).sent, m, n);
    NextTx(s.tx, t, p, channel, parts, n, s.Hist(p).enq);
    EnqueueElse(t, p);
  }

  lemma NextTx(before: T.Tx, t: Sys, p: Port, channel: Byte, parts: seq<seq<Byte>>, n: nat, idx: nat)
    requires n < |parts| && t.tx == T.EnqueueParts(before, p, channel, parts, n, idx)
    requires t.Hist(p).enq == idx + n < |Flat(t.Hist(p).sent)|
    requires Flat(t.Hist(p).sent)[idx + n] == Frag(n, n + 1 < |parts|, parts[n], channel)
    ensures ApplyEnqueue(t, p).tx == T.EnqueueParts(before, p, channel, parts, n + 1, idx)
  {
    EnqueueIs(t, p, n, n + 1 < |parts|, parts[n], channel, idx + n);
    T.PartsNext(before, t.tx, p, channel, parts, n, idx);
  }

  lemma EnqueueElse(t: Sys, p: Port)
    requires t.Hist(p).enq < |Flat(t.Hist(p).sent)|
    ensures var t' := ApplyEnqueue(t, p);
      && t'.rx == t.rx && t'.link == t.link && t'.halted == t.halted
      && t'.Hist(p).enq == t.Hist(p).enq + 1 && t'.Hist(p).sent == t.Hist(p).sent
  {
  }

  /** What one step enqueues, given the fragment. */
  lemma EnqueueIs(t: Sys, p: Port, sub: nat, more: bool, payload: seq<Byte>, channel: Byte, i: nat)
    requires t.Hist(p).enq == i < |Flat(t.Hist(p).sent)| && Flat(t.Hist(p).sent)[i] == Frag(sub, more, payload, channel)
    ensures ApplyEnqueue(t, p).tx == T.Enqueue(t.tx, p, channel, payload, sub % 256, more, i).0
  {
  }

  lemma Accepted(s: Sys, p: Port, channel: Byte, mem: seq<Byte>, len: nat)
    requires Enabled(s, Send(p, channel, mem, len))
    ensures Submitted(s, Apply(s, Send(p, channel, mem, len)), p, channel, mem, len, 0)
  {
  }

  /** From any state that admits a message, enqueueing its fragments is a legal run, and it leaves the sender
      exactly as `fragmentPayload` or `sendSimplePayload` do. */
  lemma {:induction false} SubmissionIsRun(s: Sys, p: Port, channel: Byte, mem: seq<Byte>, len: nat, n: nat)
    requires Enabled(s, Send(p, channel, mem, len)) && n <= Count(len)
    ensures Legal(s, Steps(p, channel, mem, len, n))
    ensures Submitted(s, After(s, Steps(p, channel, mem, len, n)), p, channel, mem, len, n)
  {
    hide After, Legal, Submitted, ApplyEnqueue;
    if n == 0 {
      EmptyRun(s);
      assert [] + [Send(p, channel, mem, len)] == [Send(p, channel, mem, len)];
      ExtendRun(s, [], Send(p, channel, mem, len));
      Accepted(s, p, channel, mem, len);
    } else {
      var before := Steps(p, channel, mem, len, n - 1);
      SubmissionIsRun(s, p, channel, mem, len, n - 1);
      NextPart(s, After(s, before), p, channel, mem, len, n - 1);
      ExtendRun(s, before, EnqueueNext(p));
    }
  }
}
