/** Cutting a message into packet payloads: `fragmentPayload` and `sendSimplePayload` of S3TP.cpp, and the
    packet count that `checkTransmissionAvailability` predicts. */
module Fragmentation {
  import opened Words
  import opened Packets

  /** How many payloads a message of `len` bytes becomes. */
  function Count(len: nat): nat {
    if len <= LEN_PDU then 1 else 1 + Count(len - LEN_PDU)
  }

  /** Where `dataPtr` stands before fragment `k`. As written it advances by the running total `written`
      (992 * (k+1) after fragment k), so from the third fragment on it has run ahead of the data. */
  function Offset(v: Variant, k: nat): nat {
    if k == 0 then 0 else Offset(v, k - 1) + if v == AsWritten then LEN_PDU * k else LEN_PDU
  }

  function PartLength(len: nat, k: nat): nat
    requires k < Count(len)
  {
    CountBounds(len);
    if k + 1 < Count(len) then LEN_PDU else len - LEN_PDU * k
  }

  /** How much memory from the start of the message is read. */
  function Extent(v: Variant, len: nat): nat {
    Offset(v, Count(len) - 1) + PartLength(len, Count(len) - 1)
  }

  /** The payloads cut for a message that occupies the first `len` bytes of `mem`. */
  function Cut(v: Variant, mem: seq<Byte>, len: nat): (parts: seq<seq<Byte>>)
    requires len <= |mem| && Extent(v, len) <= |mem|
    ensures |parts| == Count(len)
  {
    CutUpTo(v, mem, len, Count(len))
  }

  function CutUpTo(v: Variant, mem: seq<Byte>, len: nat, n: nat): (parts: seq<seq<Byte>>)
    requires n <= Count(len) && Extent(v, len) <= |mem|
    ensures |parts| == n
  {
    if n == 0 then [] else CutUpTo(v, mem, len, n - 1) + [Part(v, mem, len, n - 1)]
  }

  function Part(v: Variant, mem: seq<Byte>, len: nat, k: nat): seq<Byte>
    requires k < Count(len) && Extent(v, len) <= |mem|
  {
    InExtent(v, len, k);
    mem[Offset(v, k)..Offset(v, k) + PartLength(len, k)]
  }

  lemma {:induction false} CutPart(v: Variant, mem: seq<Byte>, len: nat, n: nat, k: nat)
    requires k < n <= Count(len) && Extent(v, len) <= |mem|
    ensures CutUpTo(v, mem, len, n)[k] == Part(v, mem, len, k)
  {
    if k < n - 1 {
      CutPart(v, mem, len, n - 1, k);
    }
  }

  lemma {:induction false} OffsetGrows(v: Variant, j: nat, k: nat)
    requires j <= k
    ensures Offset(v, j) + LEN_PDU * (k - j) <= Offset(v, k)
  {
    if j < k {
      OffsetGrows(v, j, k - 1);
    }
  }

  lemma InExtent(v: Variant, len: nat, k: nat)
    requires k < Count(len)
    ensures Offset(v, k) + PartLength(len, k) <= Extent(v, len)
  {
    OffsetGrows(v, k, Count(len) - 1);
  }

  function Join(parts: seq<seq<Byte>>): seq<Byte> {
    if parts == [] then [] else Join(parts[..|parts| - 1]) + parts[|parts| - 1]
  }

  /** The last fragment carries between 1 and 992 bytes (or the whole of a short message), all others 992. */
  lemma {:induction false} CountBounds(len: nat)
    ensures var n := Count(len);
      && n >= 1 && LEN_PDU * (n - 1) <= len <= LEN_PDU * n && (len > 0 ==> LEN_PDU * (n - 1) < len)
      && (len <= MAX_MESSAGE ==> n <= MAX_FRAGMENTS)
  {
    if len > LEN_PDU {
      CountBounds(len - LEN_PDU);
    }
  }

  /** Where payload `k` is cut: every 992 bytes when repaired, ever further apart as written. */
  function Place(v: Variant, k: nat): nat {
    if v == AsWritten then 496 * (k * (k + 1)) else 992 * k
  }

  lemma {:induction false} OffsetIs(v: Variant, k: nat)
    ensures Offset(v, k) == Place(v, k)
  {
    if k > 0 {
      OffsetIs(v, k - 1);
      assert k * (k + 1) == (k - 1) * k + 2 * k;
    }
  }

  /** Payload `k` is 992 bytes of memory from its place on, or what is left of the message. */
  lemma PayloadIs(v: Variant, mem: seq<Byte>, len: nat, k: nat)
    requires len <= |mem| && Extent(v, len) <= |mem| && k < Count(len)
    ensures var lo := Place(v, k);
      var hi := lo + if k + 1 < Count(len) then 992 else len - 992 * k;
      lo <= hi <= |mem| && Cut(v, mem, len)[k] == mem[lo..hi]
  {
    hide Offset, Extent, Count, CutUpTo, Place;
    CountBounds(len);
    CutPart(v, mem, len, Count(len), k);
    InExtent(v, len, k);
    OffsetIs(v, k);
  }

  /** One payload per 992 bytes or part of them, and one for the empty message; 128 at most. */
  lemma CountIs(len: nat)
    ensures Count(len) == if len == 0 then 1 else (len + 991) / 992
    ensures len <= MAX_MESSAGE <==> len <= 126976
    ensures Count(len) <= 128 <==> len <= 126976
  {
    CountBounds(len);
    hide Count;
  }

  lemma JoinSnoc(parts: seq<seq<Byte>>, part: seq<Byte>)
    ensures Join(parts + [part]) == Join(parts) + part
  {
    assert (parts + [part])[..|parts|] == parts;
  }

  /** How much of the message the first `n` fragments hold. */
  function Covered(len: nat, n: nat): nat
    requires n <= Count(len)
  {
    if n < Count(len) then LEN_PDU * n else len
  }

  lemma CoveredNext(len: nat, n: nat)
    requires n < Count(len)
    ensures Covered(len, n) == LEN_PDU * n && Covered(len, n + 1) == LEN_PDU * n + PartLength(len, n) <= len
  {
    CountBounds(len);
  }

  /** With offset 992 k for every fragment so far, the payloads so far are the data so far. */
  lemma {:induction false} JoinPrefix(v: Variant, mem: seq<Byte>, len: nat, n: nat)
    requires len <= |mem| && Extent(v, len) <= |mem| && n <= Count(len)
    requires forall k :: 0 <= k < n ==> Offset(v, k) == LEN_PDU * k
    ensures Covered(len, n) <= |mem| && Join(CutUpTo(v, mem, len, n)) == mem[..Covered(len, n)]
  {
    hide Count, Extent, Part;
    if n == 0 {
      CountBounds(len);
      assert Join([]) == [];
      assert CutUpTo(v, mem, len, 0) == [];
    } else {
      JoinPrefix(v, mem, len, n - 1);
      PartIs(v, mem, len, n - 1);
      JoinStep(v, mem, len, n - 1, Covered(len, n - 1), Covered(len, n));
    }
  }

  lemma JoinStep(v: Variant, mem: seq<Byte>, len: nat, k: nat, lo: nat, hi: nat)
    requires k < Count(len) && Extent(v, len) <= |mem| && lo <= hi <= |mem|
    requires Part(v, mem, len, k) == mem[lo..hi] && Join(CutUpTo(v, mem, len, k)) == mem[..lo]
    ensures Join(CutUpTo(v, mem, len, k + 1)) == mem[..hi]
  {
    hide Count, Extent, Join, Part;
    JoinSnoc(CutUpTo(v, mem, len, k), Part(v, mem, len, k));
    TakeMore(mem, lo, hi);
  }

  /** At its right place, fragment `k` holds the bytes of the message that come next. */
  lemma PartIs(v: Variant, mem: seq<Byte>, len: nat, k: nat)
    requires len <= |mem| && Extent(v, len) <= |mem| && k < Count(len) && Offset(v, k) == LEN_PDU * k
    ensures var lo, hi := Covered(len, k), Covered(len, k + 1);
      lo <= hi <= |mem| && Part(v, mem, len, k) == mem[lo..hi]
  {
    CoveredNext(len, k);
  }

  /** Fragmentation is lossless for every length with the pointer repaired, and up to two fragments as written. */
  lemma CutLossless(v: Variant, mem: seq<Byte>, len: nat)
    requires len <= |mem| && Extent(v, len) <= |mem|
    requires v == Repaired || len <= 2 * LEN_PDU
    ensures Join(Cut(v, mem, len)) == mem[..len]
  {
    CountBounds(len);
    forall k | 0 <= k < Count(len) ensures Offset(v, k) == LEN_PDU * k {
      OffsetIs(Repaired, k);
      if v == AsWritten {
        assert Offset(v, 0) == 0 && Offset(v, 1) == LEN_PDU;
        assert k < 2;
      }
    }
    JoinPrefix(v, mem, len, Count(len));
  }

  lemma PartSize(v: Variant, mem: seq<Byte>, len: nat, k: nat)
    requires k < Count(len) && Extent(v, len) <= |mem|
    ensures |Part(v, mem, len, k)| == PartLength(len, k)
  {
    InExtent(v, len, k);
    hide Offset, Extent, Count;
  }

  /** The payloads always add up to the length of the message, whatever they contain. */
  lemma {:induction false} JoinLength(v: Variant, mem: seq<Byte>, len: nat, n: nat)
    requires n <= Count(len) && Extent(v, len) <= |mem|
    ensures |Join(CutUpTo(v, mem, len, n))| == Covered(len, n)
  {
    CountBounds(len);
    assert Join([]) == [];
    hide Count, Offset, Extent, Join, PartLength, Part;
    if n > 0 {
      JoinLength(v, mem, len, n - 1);
      CoveredNext(len, n - 1);
      PartSize(v, mem, len, n - 1);
      JoinSnoc(CutUpTo(v, mem, len, n - 1), Part(v, mem, len, n - 1));
    } else {
      assert CutUpTo(v, mem, len, n) == [];
    }
  }

  /** Memory in which only byte 1984, the first of the third fragment, is not zero. */
  function Marked(n: nat): seq<Byte> {
    seq(n, i => if i == 2 * LEN_PDU then 1 else 0)
  }

  /** As written, a message of more than 1984 bytes is read outside itself, and there is memory for which what
      is sent differs from it. */
  lemma CutDamages(len: nat)
    requires 2 * LEN_PDU < len
    ensures Extent(AsWritten, len) > len
    ensures var mem := Marked(Extent(AsWritten, len));
      len <= |mem| && Join(Cut(AsWritten, mem, len)) != mem[..len]
  {
    var n := Count(len);
    CountBounds(len);
    assert n >= 3;
    OffsetAhead(n - 1);
    assert Extent(AsWritten, len) > len;
    var mem := Marked(Extent(AsWritten, len));
    var parts := Cut(AsWritten, mem, len);
    forall k | 0 <= k < n ensures AllZero(parts[k]) {
      CutPart(AsWritten, mem, len, n, k);
      MarkMissed(len, mem, k);
    }
    JoinZero(parts);
    assert mem[..len][2 * LEN_PDU] == 1;
  }

  /** No fragment reads byte 1984: the first two end before it, the others start beyond it. */
  lemma MarkMissed(len: nat, mem: seq<Byte>, k: nat)
    requires k < Count(len) && Count(len) >= 3 && Extent(AsWritten, len) <= |mem|
    requires forall i :: 0 <= i < |mem| ==> mem[i] == if i == 2 * LEN_PDU then 1 else 0
    ensures AllZero(Part(AsWritten, mem, len, k))
  {
    var lo, n := Offset(AsWritten, k), PartLength(len, k);
    assert lo + n <= 2 * LEN_PDU || 2 * LEN_PDU < lo by {
      if k >= 2 {
        OffsetAhead(k);
      } else {
        assert Offset(AsWritten, 0) == 0 && Offset(AsWritten, 1) == LEN_PDU;
      }
    }
    InExtent(AsWritten, len, k);
    forall i | 0 <= i < n ensures Part(AsWritten, mem, len, k)[i] == 0 {
      assert Part(AsWritten, mem, len, k)[i] == mem[lo + i];
    }
  }

  ghost predicate AllZero(s: seq<Byte>) {
    forall i :: 0 <= i < |s| ==> s[i] == 0
  }

  lemma {:induction false} JoinZero(parts: seq<seq<Byte>>)
    requires forall k :: 0 <= k < |parts| ==> AllZero(parts[k])
    ensures AllZero(Join(parts))
  {
    if parts != [] {
      JoinZero(parts[..|parts| - 1]);
    }
  }

  lemma {:induction false} OffsetAhead(k: nat)
    requires k >= 2
    ensures Offset(AsWritten, k) >= LEN_PDU * (k + 1)
  {
    if k == 2 {
      assert Offset(AsWritten, 0) == 0 && Offset(AsWritten, 1) == LEN_PDU;
    } else {
      OffsetAhead(k - 1);
    }
  }

  /** Exactly when fragmentation is lossless: whatever lies in memory, the payloads concatenate to the message
      if and only if the pointer is repaired or the message fits in two fragments. */
  lemma LosslessExactly(v: Variant, len: nat)
    ensures (forall mem: seq<Byte> :: len <= |mem| && Extent(v, len) <= |mem| ==> Join(Cut(v, mem, len)) == mem[..len])
            <==> v == Repaired || len <= 1984
  {
    if v == Repaired || len <= 2 * LEN_PDU {
      forall mem: seq<Byte> | len <= |mem| && Extent(v, len) <= |mem|
        ensures Join(Cut(v, mem, len)) == mem[..len]
      {
        CutLossless(v, mem, len);
      }
    } else {
      CutDamages(len);
    }
  }

  /** A message of at most one payload is its own only part. */
  lemma SinglePart(v: Variant, mem: seq<Byte>, len: nat)
    requires len <= LEN_PDU && len <= |mem|
    ensures Count(len) == 1 && Extent(v, len) == len && Cut(v, mem, len) == [mem[..len]]
  {
    assert CutUpTo(v, mem, len, 0) == [];
    assert Part(v, mem, len, 0) == mem[0..len];
  }

  // ----- checkTransmissionAvailability -----

  /** `no_packets` for a length already truncated to 16 bits. */
  function Predicted(len16: Word): Byte {
    var n := len16 / LEN_PDU;
    (if len16 % LEN_PDU > 0 then n + 1 else n) % 256
  }

  /** The prediction is the number of packets enqueued exactly for messages of 1 to 65535 bytes: the empty
      message takes a packet that is not counted, and a longer one is counted after truncation. */
  lemma PredictionExact(len: nat)
    requires len <= MAX_MESSAGE
    ensures Predicted(len % 0x10000) == Count(len) <==> 1 <= len <= 0xFFFF
  {
    CountBounds(len);
    PredictedBounds(len % 0x10000);
    hide Predicted, Count;
    assert len > 0xFFFF ==> len % 0x10000 < len - LEN_PDU;
  }

  /** The prediction is the number of payloads, rounded up. */
  lemma PredictedBounds(len16: Word)
    ensures LEN_PDU * (Predicted(len16) - 1) < len16 <= LEN_PDU * Predicted(len16) || len16 == Predicted(len16) == 0
  {
    var n := len16 / LEN_PDU;
    assert LEN_PDU * n <= len16 < LEN_PDU * (n + 1);
    assert n <= 66;
  }
}
