/** The stream framer of MessageSampler.c as functions of the buffered bytes, and what holds over whole
    runs of `append` and `sample`. `MessageSampler` (the class) refines these functions. */
module Framing {
  import opened Words

  /** MSG_SAMPLER_BUFFER_SIZE */
  const BUFFER_SIZE := 1024
  const ERR_INSUFFICIENT_MEMORY := -4

  /** The three callbacks. Each is handed the bytes from some position to the end of the buffered data
      (`isValid` only the bytes of the message). */
  datatype Callbacks = Callbacks(
    isStart: seq<Byte> -> bool,
    isValid: seq<Byte> -> bool,
    length: seq<Byte> -> int)
  {
    /** The `int` length converted to `unsigned int`. */
    function MessageLength(buf: seq<Byte>): nat {
      length(buf) % 0x1_0000_0000
    }

    /** A message is complete if its announced length is positive and already buffered. */
    predicate Complete(buf: seq<Byte>) {
      0 < MessageLength(buf) <= |buf|
    }
  }

  /** What became of accepted bytes, in stream order. */
  datatype Piece = Dropped(byte: Byte) | Message(bytes: seq<Byte>) {
    function Bytes(): seq<Byte> {
      if Dropped? then [byte] else bytes
    }
  }

  function Flatten(pieces: seq<Piece>): seq<Byte> {
    if pieces == [] then [] else Flatten(pieces[..|pieces| - 1]) + pieces[|pieces| - 1].Bytes()
  }

  /** The messages among the pieces, in order. */
  function Messages(pieces: seq<Piece>): seq<seq<Byte>> {
    if pieces == [] then []
    else
      var last := pieces[|pieces| - 1];
      Messages(pieces[..|pieces| - 1]) + (if last.Message? then [last.bytes] else [])
  }

  function AsDropped(bytes: seq<Byte>): seq<Piece> {
    seq(|bytes|, i requires 0 <= i < |bytes| => Dropped(bytes[i]))
  }

  /** `removeTail`: what is left after the bytes before the first start of message are removed. */
  function Trim(cb: Callbacks, buf: seq<Byte>): (r: seq<Byte>)
    ensures |r| <= |buf| && r == buf[|buf| - |r|..]
    ensures Ready(cb, r)
  {
    if buf == [] || cb.isStart(buf) then buf else Trim(cb, buf[1..])
  }

  lemma TrimStep(cb: Callbacks, buf: seq<Byte>)
    ensures Trim(cb, buf) == if buf == [] || cb.isStart(buf) then buf else Trim(cb, buf[1..])
  {
  }

  /** The buffer is empty or begins at a start of message. */
  predicate Ready(cb: Callbacks, buf: seq<Byte>) {
    buf == [] || cb.isStart(buf)
  }

  /** How many bytes `append` takes. */
  function Accepted(buf: seq<Byte>, data: seq<Byte>): nat
    requires |buf| <= BUFFER_SIZE
  {
    if |buf| + |data| < BUFFER_SIZE then |data| else BUFFER_SIZE - |buf|
  }

  function Append(cb: Callbacks, buf: seq<Byte>, data: seq<Byte>): seq<Byte>
    requires |buf| <= BUFFER_SIZE
  {
    if data == [] then buf else Trim(cb, buf + data[..Accepted(buf, data)])
  }

  /** Outcome of `sample`: its return value, the message written to the destination, the buffer left over,
      and (for the account kept here only) what became of the bytes that left the buffer. */
  datatype Sampled = Sampled(result: int, message: seq<Byte>, rest: seq<Byte>, pieces: seq<Piece>)

  /** `sample` on a ready buffer; `capacity` is None for a null destination. */
  function Sample(cb: Callbacks, buf: seq<Byte>, capacity: Option<nat>): (s: Sampled)
    requires Ready(cb, buf)
    ensures s.result > 0 ==> |s.message| == s.result && capacity.Some? && s.result <= capacity.value
    decreases |buf|
  {
    if buf == [] || !cb.Complete(buf) then Sampled(0, [], buf, [])
    else
      var n := cb.MessageLength(buf);
      var message := buf[..n];
      if cb.isValid(message) then
        if capacity.Some? && n <= capacity.value then
          var rest := Trim(cb, buf[n..]);
          Sampled(n, message, rest, [Message(message)] + AsDropped(buf[n..|buf| - |rest|]))
        else
          Sampled(ERR_INSUFFICIENT_MEMORY, [], buf, [])
      else
        var shorter := Trim(cb, buf[1..]);
        var s := Sample(cb, shorter, capacity);
        s.(pieces := AsDropped(buf[..|buf| - |shorter|]) + s.pieces)
  }

  /** The cases of `sample`. */
  lemma SampleCases(cb: Callbacks, buf: seq<Byte>, capacity: Option<nat>)
    requires Ready(cb, buf)
    ensures var s, n := Sample(cb, buf, capacity), cb.MessageLength(buf);
      if buf == [] || !cb.Complete(buf) then s.result == 0 && s.rest == buf
      else if !cb.isValid(buf[..n]) then
        var t := Sample(cb, Trim(cb, buf[1..]), capacity);
        s.result == t.result && s.message == t.message && s.rest == t.rest
      else if capacity.Some? && n <= capacity.value then
        s.result == n && s.message == buf[..n] && s.rest == Trim(cb, buf[n..])
      else s.result == ERR_INSUFFICIENT_MEMORY && s.rest == buf
  {
  }

  // ----- Runs -----

  datatype Op = Feed(data: seq<Byte>) | Take(capacity: Option<nat>)

  /** A framer with the account of its run: bytes accepted so far and what became of them. */
  datatype Run = Run(buf: seq<Byte>, accepted: seq<Byte>, trail: seq<Piece>, returned: seq<seq<Byte>>)

  ghost predicate Sound(cb: Callbacks, r: Run) {
    && |r.buf| <= BUFFER_SIZE && Ready(cb, r.buf)
    && r.accepted == Flatten(r.trail) + r.buf
    && r.returned == Messages(r.trail)
    && forall m :: m in r.returned ==> cb.isValid(m) && m != []
  }

  function Apply(cb: Callbacks, r: Run, op: Op): Run
    requires |r.buf| <= BUFFER_SIZE && Ready(cb, r.buf)
  {
    match op
    case Feed(data) =>
      var n := if data == [] then 0 else Accepted(r.buf, data);
      var buf := Append(cb, r.buf, data);
      var joined := r.buf + data[..n];
      Run(buf, r.accepted + data[..n], r.trail + AsDropped(joined[..|joined| - |buf|]), r.returned)
    case Take(capacity) =>
      var s := Sample(cb, r.buf, capacity);
      Run(s.rest, r.accepted, r.trail + s.pieces, r.returned + if s.result > 0 then [s.message] else [])
  }

  /** Conservation over any run, for arbitrary callbacks: the accepted bytes are, in order, the dropped bytes, the
      returned messages and what is still buffered; every returned message passed the validity callback, and the
      buffer is empty or begins at a start of message. */
  ghost function RunOf(cb: Callbacks, ops: seq<Op>): (r: Run)
    ensures Sound(cb, r)
  {
    if ops == [] then Run([], [], [], [])
    else
      var before := RunOf(cb, ops[..|ops| - 1]);
      ApplySound(cb, before, ops[|ops| - 1]);
      Apply(cb, before, ops[|ops| - 1])
  }

  lemma {:induction false} FlattenConcat(a: seq<Piece>, b: seq<Piece>)
    ensures Flatten(a + b) == Flatten(a) + Flatten(b) && Messages(a + b) == Messages(a) + Messages(b)
  {
    if b == [] {
      assert a + b == a;
    } else {
      var front, x := b[..|b| - 1], b[|b| - 1];
      ConcatSnoc(a, b);
      FlattenConcat(a, front);
      FlattenSnoc(a + front, x);
      Assoc(Flatten(a), Flatten(front), x.Bytes());
      Assoc(Messages(a), Messages(front), if x.Message? then [x.bytes] else []);
    }
  }

  lemma FlattenSnoc(a: seq<Piece>, x: Piece)
    ensures Flatten(a + [x]) == Flatten(a) + x.Bytes()
    ensures Messages(a + [x]) == Messages(a) + if x.Message? then [x.bytes] else []
  {
    SnocFront(a, x);
  }

  lemma {:induction false} FlattenDropped(bytes: seq<Byte>)
    ensures Flatten(AsDropped(bytes)) == bytes && Messages(AsDropped(bytes)) == []
  {
    if bytes != [] {
      var n := |bytes| - 1;
      assert AsDropped(bytes)[..n] == AsDropped(bytes[..n]);
      FlattenDropped(bytes[..n]);
      assert bytes == bytes[..n] + [bytes[n]];
    }
  }

  lemma FlattenOne(m: seq<Byte>)
    ensures Flatten([Message(m)]) == m && Messages([Message(m)]) == [m]
  {
    assert [Message(m)][..0] == [];
  }

  /** Bytes `gone` in front of `rest` are accounted for by dropping them. */
  lemma DropAccounts(gone: seq<Byte>, rest: seq<Piece>)
    ensures Flatten(AsDropped(gone) + rest) == gone + Flatten(rest)
    ensures Messages(AsDropped(gone) + rest) == Messages(rest)
  {
    FlattenConcat(AsDropped(gone), rest);
    FlattenDropped(gone);
  }

  lemma ReturnAccounts(message: seq<Byte>, gone: seq<Byte>)
    ensures Flatten([Message(message)] + AsDropped(gone)) == message + gone
    ensures Messages([Message(message)] + AsDropped(gone)) == [message]
  {
    FlattenConcat([Message(message)], AsDropped(gone));
    FlattenOne(message);
    FlattenDropped(gone);
  }

  /** `s` accounts for every byte of `buf`: its pieces in order, then the new buffer. At most one message
      left, it is valid and fits; and when none was reported, none is complete. */
  ghost predicate Accounts(cb: Callbacks, buf: seq<Byte>, capacity: Option<nat>, s: Sampled) {
    && Flatten(s.pieces) + s.rest == buf && Ready(cb, s.rest)
    && (if s.result > 0 then
          && Messages(s.pieces) == [s.message] && |s.message| == s.result && cb.isValid(s.message)
          && capacity.Some? && s.result <= capacity.value
        else
          Messages(s.pieces) == [] && (s.result == 0 || s.result == ERR_INSUFFICIENT_MEMORY))
    && (s.result == 0 ==> s.rest == [] || !cb.Complete(s.rest))
  }

  /** Skipping to the next start drops what lies before it. */
  lemma SkipAccounts(cb: Callbacks, buf: seq<Byte>, capacity: Option<nat>, shorter: seq<Byte>, s: Sampled)
    requires |shorter| <= |buf| && shorter == buf[|buf| - |shorter|..] && Accounts(cb, shorter, capacity, s)
    ensures Accounts(cb, buf, capacity, s.(pieces := AsDropped(buf[..|buf| - |shorter|]) + s.pieces))
  {
    var gone := buf[..|buf| - |shorter|];
    DropAccounts(gone, s.pieces);
    hide Flatten, Messages, AsDropped;
    SplitAt(buf, |buf| - |shorter|);
    Assoc(gone, Flatten(s.pieces), s.rest);
  }

  /** Returning the first `n` bytes, then skipping to the next start. */
  lemma DeliverAccounts(cb: Callbacks, buf: seq<Byte>, capacity: Option<nat>, n: nat, rest: seq<Byte>)
    requires 0 < n <= |buf| && cb.isValid(buf[..n]) && capacity.Some? && n <= capacity.value
    requires |rest| <= |buf| - n && rest == buf[|buf| - |rest|..] && Ready(cb, rest)
    ensures Accounts(cb, buf, capacity,
      Sampled(n, buf[..n], rest, [Message(buf[..n])] + AsDropped(buf[n..|buf| - |rest|])))
  {
    var gone := buf[n..|buf| - |rest|];
    ReturnAccounts(buf[..n], gone);
    hide Flatten, Messages, AsDropped;
    SplitTwice(buf, n, |buf| - |rest|);
    Assoc(buf[..n], gone, rest);
  }

  /** Leaving everything where it is. */
  lemma KeptAccounts(cb: Callbacks, buf: seq<Byte>, capacity: Option<nat>, result: int)
    requires Ready(cb, buf)
    requires result == ERR_INSUFFICIENT_MEMORY || (result == 0 && (buf == [] || !cb.Complete(buf)))
    ensures Accounts(cb, buf, capacity, Sampled(result, [], buf, []))
  {
    assert Flatten([]) + buf == buf;
  }

  lemma {:induction false} SampleAccounts(cb: Callbacks, buf: seq<Byte>, capacity: Option<nat>)
    requires Ready(cb, buf)
    ensures Accounts(cb, buf, capacity, Sample(cb, buf, capacity))
    decreases |buf|
  {
    hide Accounts, AsDropped;
    if buf == [] || !cb.Complete(buf) {
      KeptAccounts(cb, buf, capacity, 0);
    } else {
      var n := cb.MessageLength(buf);
      if !cb.isValid(buf[..n]) {
        var shorter := Trim(cb, buf[1..]);
        SampleAccounts(cb, shorter, capacity);
        SkipAccounts(cb, buf, capacity, shorter, Sample(cb, shorter, capacity));
      } else if capacity.Some? && n <= capacity.value {
        DeliverAccounts(cb, buf, capacity, n, Trim(cb, buf[n..]));
      } else {
        KeptAccounts(cb, buf, capacity, ERR_INSUFFICIENT_MEMORY);
      }
    }
  }

  /** Conservation, one operation. */
  lemma ApplySound(cb: Callbacks, r: Run, op: Op)
    requires Sound(cb, r)
    ensures Sound(cb, Apply(cb, r, op))
  {
    match op
    case Feed(data) => FeedSound(cb, r, data);
    case Take(capacity) => TakeSound(cb, r, capacity);
  }

  lemma FeedSound(cb: Callbacks, r: Run, data: seq<Byte>)
    requires Sound(cb, r)
    ensures Sound(cb, Apply(cb, r, Feed(data)))
  {
    var n := if data == [] then 0 else Accepted(r.buf, data);
    var joined := r.buf + data[..n];
    var buf := Append(cb, r.buf, data);
    var gone := joined[..|joined| - |buf|];
    FlattenConcat(r.trail, AsDropped(gone));
    FlattenDropped(gone);
    SplitAt(joined, |joined| - |buf|);
    Assoc(Flatten(r.trail), gone, buf);
    Assoc(Flatten(r.trail), r.buf, data[..n]);
  }

  lemma TakeSound(cb: Callbacks, r: Run, capacity: Option<nat>)
    requires Sound(cb, r)
    ensures Sound(cb, Apply(cb, r, Take(capacity)))
  {
    var s := Sample(cb, r.buf, capacity);
    SampleAccounts(cb, r.buf, capacity);
    FlattenConcat(r.trail, s.pieces);
    Assoc(Flatten(r.trail), Flatten(s.pieces), s.rest);
  }

  // ----- Chunk independence -----

  function Concat(msgs: seq<seq<Byte>>): seq<Byte> {
    if msgs == [] then [] else msgs[0] + Concat(msgs[1..])
  }

  /** The callbacks recognise `m` by its own bytes: every non-empty prefix of it, and it followed by anything,
      counts as a start; a full message gets its exact length and a partial one is never complete. */
  ghost predicate Recognised(cb: Callbacks, m: seq<Byte>) {
    && 0 < |m| <= BUFFER_SIZE && cb.isValid(m)
    && (forall s: seq<Byte> {:trigger cb.isStart(s)} :: s != [] && (s <= m || m <= s) ==> cb.isStart(s))
    && (forall s: seq<Byte> {:trigger cb.length(s)} :: m <= s ==> cb.length(s) == |m|)
    && (forall s: seq<Byte> {:trigger cb.Complete(s)} :: s < m ==> !cb.Complete(s))
  }

  /** The run is in step with the stream: it has returned the first messages and still buffers the rest. */
  ghost predicate InStep(cb: Callbacks, msgs: seq<seq<Byte>>, r: Run) {
    && |r.returned| <= |msgs| && r.returned == msgs[..|r.returned|]
    && r.accepted <= Concat(msgs)
    && Concat(r.returned) + r.buf == r.accepted
  }

  /** Nothing overflowed: `append` took all it was given, and what it was given continues the stream. */
  ghost predicate InStream(msgs: seq<seq<Byte>>, r: Run, op: Op)
    requires |r.buf| <= BUFFER_SIZE
  {
    op.Feed? ==> |r.buf| + |op.data| <= BUFFER_SIZE && r.accepted + op.data <= Concat(msgs)
  }

  ghost predicate NeverOverflows(cb: Callbacks, msgs: seq<seq<Byte>>, ops: seq<Op>) {
    forall i :: 0 <= i < |ops| ==> InStream(msgs, RunOf(cb, ops[..i]), ops[i])
  }

  lemma {:induction false} ConcatSplit(a: seq<seq<Byte>>, b: seq<seq<Byte>>)
    ensures Concat(a + b) == Concat(a) + Concat(b)
  {
    if a == [] {
      assert a + b == b;
    } else {
      assert (a + b)[1..] == a[1..] + b;
      ConcatSplit(a[1..], b);
    }
  }

  lemma ConcatOne(m: seq<Byte>)
    ensures Concat([m]) == m
  {
    var rest: seq<seq<Byte>> := [m][1..];
    assert rest == [] && Concat(rest) == [];
  }

  lemma ConcatNext(msgs: seq<seq<Byte>>, k: nat)
    requires k < |msgs|
    ensures Concat(msgs[..k + 1]) == Concat(msgs[..k]) + msgs[k]
  {
    assert msgs[..k + 1] == msgs[..k] + [msgs[k]];
    ConcatSplit(msgs[..k], [msgs[k]]);
    ConcatOne(msgs[k]);
  }

  /** In step, the buffer is a prefix of the messages still to come. */
  lemma BufferIsPrefix(cb: Callbacks, msgs: seq<seq<Byte>>, done: nat, buf: seq<Byte>)
    requires done <= |msgs| && Concat(msgs[..done]) + buf <= Concat(msgs)
    ensures buf <= Concat(msgs[done..])
    ensures done < |msgs| ==> buf <= msgs[done] || msgs[done] <= buf
    ensures done == |msgs| ==> buf == []
  {
    assert msgs == msgs[..done] + msgs[done..];
    ConcatSplit(msgs[..done], msgs[done..]);
    var head, tail := Concat(msgs[..done]), Concat(msgs[done..]);
    assert buf == (head + buf)[|head|..] && tail == (head + tail)[|head|..];
    if done < |msgs| {
      var m := msgs[done];
      assert tail == m + Concat(msgs[done + 1..]) by { assert msgs[done..][1..] == msgs[done + 1..]; }
      if |buf| <= |m| {
        assert buf == tail[..|buf|] == m[..|buf|];
      } else {
        assert m == tail[..|m|] == buf[..|m|];
      }
    }
  }

  lemma PrefixIsReady(cb: Callbacks, msgs: seq<seq<Byte>>, done: nat, buf: seq<Byte>)
    requires forall m :: m in msgs ==> Recognised(cb, m)
    requires done <= |msgs| && Concat(msgs[..done]) + buf <= Concat(msgs)
    ensures Ready(cb, buf)
  {
    BufferIsPrefix(cb, msgs, done, buf);
    if buf != [] {
      assert Recognised(cb, msgs[done]);
    }
  }

  lemma FeedInStep(cb: Callbacks, msgs: seq<seq<Byte>>, r: Run, data: seq<Byte>)
    requires forall m :: m in msgs ==> Recognised(cb, m)
    requires Sound(cb, r) && InStep(cb, msgs, r) && InStream(msgs, r, Feed(data))
    ensures InStep(cb, msgs, Apply(cb, r, Feed(data)))
  {
    if data != [] {
      assert data[..Accepted(r.buf, data)] == data;
      assert Concat(r.returned) + (r.buf + data) == r.accepted + data;
      PrefixIsReady(cb, msgs, |r.returned|, r.buf + data);
      assert Append(cb, r.buf, data) == r.buf + data;
    } else {
      assert r.accepted + [] == r.accepted;
    }
  }

  /** `sample` on a buffer that begins with a recognised message returns that message, given room for it. */
  lemma SampleRecognised(cb: Callbacks, m: seq<Byte>, buf: seq<Byte>, capacity: Option<nat>)
    requires Recognised(cb, m) && m <= buf && Ready(cb, buf)
    ensures cb.Complete(buf)
    ensures var s := Sample(cb, buf, capacity);
      if capacity.Some? && |m| <= capacity.value then
        s.result == |m| && s.message == m && s.rest == Trim(cb, buf[|m|..])
      else
        s.result == ERR_INSUFFICIENT_MEMORY && s.rest == buf
  {
    assert cb.length(buf) == |m|;
    assert cb.MessageLength(buf) == |m| && buf[..|m|] == m;
  }

  /** In step, a complete message in the buffer is the next message of the stream, and taking it stays in step. */
  lemma NextMessage(cb: Callbacks, msgs: seq<seq<Byte>>, done: nat, buf: seq<Byte>)
    requires forall m :: m in msgs ==> Recognised(cb, m)
    requires done <= |msgs| && Concat(msgs[..done]) + buf <= Concat(msgs)
    requires buf != [] && cb.Complete(buf)
    ensures done < |msgs| && msgs[done] <= buf
    ensures var rest := buf[|msgs[done]|..];
      Concat(msgs[..done + 1]) + rest == Concat(msgs[..done]) + buf && Ready(cb, rest)
  {
    BufferIsPrefix(cb, msgs, done, buf);
    var m := msgs[done];
    assert Recognised(cb, m);
    assert m <= buf;
    var rest := buf[|m|..];
    SplitAt(buf, |m|);
    ConcatNext(msgs, done);
    Assoc(Concat(msgs[..done]), m, rest);
    PrefixIsReady(cb, msgs, done + 1, rest);
  }

  lemma StillInStep(cb: Callbacks, msgs: seq<seq<Byte>>, r: Run, r': Run)
    requires InStep(cb, msgs, r) && |r.returned| < |msgs| && r'.accepted == r.accepted
    requires r'.returned == r.returned + [msgs[|r.returned|]]
    requires Concat(msgs[..|r.returned| + 1]) + r'.buf == Concat(msgs[..|r.returned|]) + r.buf
    ensures InStep(cb, msgs, r')
  {
    SplitAt(msgs[..|r'.returned|], |r.returned|);
    assert r'.returned == msgs[..|r'.returned|];
  }

  lemma TakeInStep(cb: Callbacks, msgs: seq<seq<Byte>>, r: Run, capacity: Option<nat>)
    requires forall m :: m in msgs ==> Recognised(cb, m)
    requires Sound(cb, r) && InStep(cb, msgs, r)
    ensures InStep(cb, msgs, Apply(cb, r, Take(capacity)))
  {
    var done, r' := |r.returned|, Apply(cb, r, Take(capacity));
    if r.buf != [] && cb.Complete(r.buf) {
      NextMessage(cb, msgs, done, r.buf);
      assert Recognised(cb, msgs[done]);
      SampleRecognised(cb, msgs[done], r.buf, capacity);
      if capacity.Some? && |msgs[done]| <= capacity.value {
        StillInStep(cb, msgs, r, r');
      }
    }
  }

  /** However the stream is cut into chunks and sampled, the messages come out in order, none damaged or lost;
      when the whole stream is in and `sample` (with room for a message) reports nothing, all have come out. */
  lemma {:induction false} ChunkIndependence(cb: Callbacks, msgs: seq<seq<Byte>>, ops: seq<Op>)
    requires forall m :: m in msgs ==> Recognised(cb, m)
    requires NeverOverflows(cb, msgs, ops)
    ensures InStep(cb, msgs, RunOf(cb, ops))
    ensures var r := RunOf(cb, ops);
      r.accepted == Concat(msgs) ==>
        (Sample(cb, r.buf, Some(BUFFER_SIZE)).result == 0 <==> r.returned == msgs && r.buf == [])
  {
    if ops != [] {
      var n := |ops| - 1;
      forall i | 0 <= i < n ensures InStream(msgs, RunOf(cb, ops[..n][..i]), ops[i]) {
        assert ops[..n][..i] == ops[..i];
        assert InStream(msgs, RunOf(cb, ops[..i]), ops[i]);
      }
      ChunkIndependence(cb, msgs, ops[..n]);
      assert InStream(msgs, RunOf(cb, ops[..n]), ops[n]);
      match ops[n]
      case Feed(data) => FeedInStep(cb, msgs, RunOf(cb, ops[..n]), data);
      case Take(capacity) => TakeInStep(cb, msgs, RunOf(cb, ops[..n]), capacity);
    }
    var r := RunOf(cb, ops);
    if r.accepted == Concat(msgs) {
      Exhausted(cb, msgs, r);
    }
  }

  lemma Exhausted(cb: Callbacks, msgs: seq<seq<Byte>>, r: Run)
    requires forall m :: m in msgs ==> Recognised(cb, m)
    requires Sound(cb, r) && InStep(cb, msgs, r) && r.accepted == Concat(msgs)
    ensures Sample(cb, r.buf, Some(BUFFER_SIZE)).result == 0 <==> r.returned == msgs && r.buf == []
  {
    var done := |r.returned|;
    if done == |msgs| {
      BufferIsPrefix(cb, msgs, done, r.buf);
      assert r.returned == msgs;
    }
    if done < |msgs| {
      WholeMessageLeft(msgs, done, r.buf);
      SampleRecognised(cb, msgs[done], r.buf, Some(BUFFER_SIZE));
    }
  }

  lemma WholeMessageLeft(msgs: seq<seq<Byte>>, done: nat, buf: seq<Byte>)
    requires done < |msgs| && Concat(msgs[..done]) + buf == Concat(msgs)
    ensures msgs[done] <= buf
  {
    assert msgs == msgs[..done] + msgs[done..];
    ConcatSplit(msgs[..done], msgs[done..]);
    var head := Concat(msgs[..done]);
    assert buf == (head + buf)[|head|..] == (head + Concat(msgs[done..]))[|head|..] == Concat(msgs[done..]);
  }
}
