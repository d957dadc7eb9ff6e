/** MessageSampler.c: the framer over a byte buffer that is compacted in place. Every method is proved
    against the functions of `Framing`, where the properties of whole runs are stated. */
module MessageSamplers {
  import opened Words
  import opened Framing

  lemma RestAfter(store: array<Byte>, pos: nat, end: nat)
    requires pos < end <= store.Length
    ensures store[pos..end][1..] == store[pos + 1..end]
  {
  }

  class MessageSampler {
    const cb: Callbacks
    /** pBufStart */
    const store: array<Byte>
    var lenBuf: nat

    ghost predicate InBounds()
      reads this
    {
      lenBuf <= BUFFER_SIZE <= store.Length
    }

    /** The buffered bytes. */
    ghost function Contents(): seq<Byte>
      requires InBounds()
      reads this, store
    {
      store[..lenBuf]
    }

    /** Between calls the buffer is empty or begins at a start of message. */
    ghost predicate Valid()
      reads this, store
    {
      InBounds() && Ready(cb, Contents())
    }

    /** `init_msg_sampler` with the non-null arguments it insists on. */
    constructor (store: array<Byte>, cb: Callbacks)
      requires store.Length >= BUFFER_SIZE
      ensures Valid() && Contents() == [] && this.store == store && this.cb == cb
    {
      this.store, this.cb, lenBuf := store, cb, 0;
    }

    /** The scan for a start of message that `sample` and `removeTail` share. */
    method FirstStart() returns (pos: nat)
      requires InBounds()
      ensures pos <= lenBuf && store[pos..lenBuf] == Trim(cb, Contents())
    {
      hide Trim;
      pos := 0;
      ghost var rest := store[pos..lenBuf];
      while pos < lenBuf
        invariant pos <= lenBuf && rest == store[pos..lenBuf]
        invariant Trim(cb, rest) == Trim(cb, Contents())
      {
        TrimStep(cb, rest);
        if cb.isStart(store[pos..lenBuf]) {
          return;
        }
        RestAfter(store, pos, lenBuf);
        pos, rest := pos + 1, rest[1..];
      }
      TrimStep(cb, rest);
    }

    /** The `memcpy` compactions: `count` bytes from `from` on move to the front. */
    method MoveToFront(from: nat, count: nat)
      requires from + count <= store.Length
      modifies store
      ensures store[..count] == old(store[from..from + count])
    {
      forall i | 0 <= i < count {
        store[i] := store[from + i];
      }
    }

    method RemoveTail()
      requires InBounds()
      modifies this`lenBuf, store
      ensures Valid() && Contents() == Trim(cb, old(Contents()))
    {
      hide Trim;
      var trashBytes := FirstStart();
      if trashBytes > 0 {
        MoveToFront(trashBytes, lenBuf - trashBytes);
        lenBuf := lenBuf - trashBytes;
      }
    }

    /** Takes as much of `data` as there is room for. */
    method Append(data: seq<Byte>) returns (bytesToCopy: nat)
      requires Valid() && |data| + BUFFER_SIZE < 0x1_0000_0000
      modifies this`lenBuf, store
      ensures Valid() && Contents() == Framing.Append(cb, old(Contents()), data)
      ensures bytesToCopy == if data == [] then 0 else Accepted(old(Contents()), data)
      ensures bytesToCopy <= |data| && |old(Contents())| + bytesToCopy <= 1024
      ensures bytesToCopy == |data| || |old(Contents())| + bytesToCopy == 1024
    {
      hide Trim;
      bytesToCopy := 0;
      if |data| > 0 {
        bytesToCopy := if lenBuf + |data| < BUFFER_SIZE then |data| else BUFFER_SIZE - lenBuf;
        forall i | 0 <= i < bytesToCopy {
          store[lenBuf + i] := data[i];
        }
        lenBuf := lenBuf + bytesToCopy;
        assert Contents() == old(Contents()) + data[..bytesToCopy];
        RemoveTail();
      }
    }

    method CopyOut(dest: array<Byte>, msgLen: nat)
      requires InBounds() && msgLen <= lenBuf && msgLen <= dest.Length && dest != store
      modifies dest
      ensures dest[..] == Contents()[..msgLen] + old(dest[msgLen..])
    {
      forall i | 0 <= i < msgLen {
        dest[i] := store[i];
      }
    }

    /** Removes the message at the front: compact, then skip to the next start. */
    method RemoveFront(msgLen: nat)
      requires InBounds() && msgLen <= lenBuf
      modifies this`lenBuf, store
      ensures Valid() && Contents() == Trim(cb, old(Contents())[msgLen..])
    {
      hide Trim;
      MoveToFront(msgLen, lenBuf - msgLen);
      lenBuf := lenBuf - msgLen;
      assert Contents() == old(Contents())[msgLen..];
      RemoveTail();
    }

    /** Hands the message at the front over and removes it. */
    method TakeFront(dest: array<Byte>, msgLen: nat)
      requires InBounds() && msgLen <= lenBuf && msgLen <= dest.Length && dest != store
      modifies this`lenBuf, store, dest
      ensures Valid() && Contents() == Trim(cb, old(Contents())[msgLen..])
      ensures dest[..] == old(Contents()[..msgLen]) + old(dest[msgLen..])
    {
      hide Trim;
      CopyOut(dest, msgLen);
      RemoveFront(msgLen);
    }

    static ghost function Capacity(dest: array?<Byte>, length: nat): Option<nat> {
      if dest == null then None else Some(length)
    }

    static ghost function Bytes(dest: array?<Byte>): seq<Byte>
      reads dest
    {
      if dest == null then [] else dest[..]
    }

    /** What `sample` returns, leaves in the buffer and writes to a destination that held `was`. */
    static ghost predicate Reports(s: Sampled, result: int, rest: seq<Byte>, was: seq<Byte>, now: seq<Byte>) {
      && result == s.result && rest == s.rest
      && if result > 0 then result <= |was| && now == s.message + was[result..] else now == was
    }

    static lemma NothingReports(s: Sampled, result: int, rest: seq<Byte>, was: seq<Byte>)
      requires s.result == result <= 0 && s.rest == rest
      ensures Reports(s, result, rest, was, was)
    {
    }

    static lemma MessageReports(s: Sampled, result: int, rest: seq<Byte>, was: seq<Byte>, now: seq<Byte>)
      requires s.result == result && 0 < result <= |was| && s.rest == rest && now == s.message + was[result..]
      ensures Reports(s, result, rest, was, now)
    {
    }

    static lemma AlsoReports(s: Sampled, t: Sampled, result: int, rest: seq<Byte>, was: seq<Byte>, now: seq<Byte>)
      requires s.result == t.result && s.message == t.message && s.rest == t.rest && Reports(t, result, rest, was, now)
      ensures Reports(s, result, rest, was, now)
    {
    }

    /** Copies the next valid message to `dest` and removes it, skipping invalid ones. The scan stops at the
        first byte because the buffer is ready, which is why compacting from there is right. */
    method Sample(dest: array?<Byte>, length: nat) returns (result: int)
      requires Valid()
      requires dest != null ==> dest != store && length <= dest.Length
      modifies this`lenBuf, store, if dest == null then {} else {dest}
      ensures Valid()
      ensures Reports(Framing.Sample(cb, old(Contents()), Capacity(dest, length)),
                      result, Contents(), old(Bytes(dest)), Bytes(dest))
      decreases lenBuf
    {
      result := 0;
      ghost var before, was, capacity := Contents(), Bytes(dest), Capacity(dest, length);
      ghost var s := Framing.Sample(cb, before, capacity);
      SampleCases(cb, before, capacity);
      hide Framing.Sample, Trim, Reports;
      var msgLen := CompleteLength();
      if msgLen > 0 {
        assert store[..msgLen] == before[..msgLen];
        if !cb.isValid(store[..msgLen]) {
          RemoveFront(1);
          ghost var t := Framing.Sample(cb, Contents(), capacity);
          result := Sample(dest, length);
          AlsoReports(s, t, result, Contents(), was, Bytes(dest));
        } else if dest != null && msgLen <= length {
          TakeFront(dest, msgLen);
          result := msgLen;
          MessageReports(s, msgLen, Contents(), was, Bytes(dest));
        } else {
          result := ERR_INSUFFICIENT_MEMORY;
          NothingReports(s, result, Contents(), was);
        }
      } else {
        NothingReports(s, result, Contents(), was);
      }
    }

    /** The length of the message at the first start in the buffer, or 0 if there is no complete one. */
    method CompleteLength() returns (msgLen: nat)
      requires Valid()
      ensures msgLen == if Contents() != [] && cb.Complete(Contents()) then cb.MessageLength(Contents()) else 0
    {
      var pBuffer := FirstStart();
      assert pBuffer == 0 by { assert store[pBuffer..lenBuf] == Contents(); }
      assert store[0..lenBuf] == Contents();
      msgLen := 0;
      if pBuffer < lenBuf {
        var msgMaxLen, length := lenBuf - pBuffer, cb.MessageLength(store[pBuffer..lenBuf]);
        if 0 < length <= msgMaxLen {
          msgLen := length;
        }
      }
    }
  }
}
