/** Payload bytes and the bits the checksum reads: the two determine each other, and what the detection theorems
    mean for a payload in memory. */
module CrcBytes {
  import opened Words
  import opened Crc
  import opened CrcDetection
  import CrcOrder

  // ----- Bytes and bits -----

  function Weigh(bit: bool, weight: nat): nat {
    if bit then weight else 0
  }

  /** Eight bits, the first of weight 1. */
  function ByteOf(b: seq<bool>): Byte
    requires |b| == 8
  {
    Weigh(b[0], 1) + Weigh(b[1], 2) + Weigh(b[2], 4) + Weigh(b[3], 8)
      + Weigh(b[4], 16) + Weigh(b[5], 32) + Weigh(b[6], 64) + Weigh(b[7], 128)
  }

  /** Byte `i` of a payload is the sum of its eight bits, which enter the register least significant first. */
  lemma BitsOfByte(data: seq<Byte>, i: nat)
    requires i < |data|
    ensures data[i] == ByteOf(Bits(data)[8 * i..8 * i + 8])
  {
    var b, bits := data[i], Bits(data)[8 * i..8 * i + 8];
    var rest := seq(9, k requires 0 <= k < 9 => b / WEIGHTS[k]);
    forall k | 0 <= k < 8 ensures rest[k] == Weigh(bits[k], 1) + 2 * rest[k + 1] {
      BitsAt(data, i, k);
      HalfStep(b, k);
    }
    HalfStep(b, 0);
    Telescope(bits, rest);
  }

  /** Halving a number eight times, with the bits as remainders. */
  lemma Telescope(bits: seq<bool>, rest: seq<nat>)
    requires |bits| == 8 && |rest| == 9 && rest[8] == 0
    requires forall k :: 0 <= k < 8 ==> rest[k] == Weigh(bits[k], 1) + 2 * rest[k + 1]
    ensures rest[0] == ByteOf(bits)
  {
    hide ByteOf, Weigh;
    Nested(bits);
    assert rest[0] == Weigh(bits[0], 1) + 2 * rest[1];
    assert rest[1] == Weigh(bits[1], 1) + 2 * rest[2];
    assert rest[2] == Weigh(bits[2], 1) + 2 * rest[3];
    assert rest[3] == Weigh(bits[3], 1) + 2 * rest[4];
    assert rest[4] == Weigh(bits[4], 1) + 2 * rest[5];
    assert rest[5] == Weigh(bits[5], 1) + 2 * rest[6];
    assert rest[6] == Weigh(bits[6], 1) + 2 * rest[7];
    assert rest[7] == Weigh(bits[7], 1) + 2 * rest[8];
  }

  lemma Nested(b: seq<bool>)
    requires |b| == 8
    ensures ByteOf(b) == Weigh(b[0], 1) + 2 * (Weigh(b[1], 1) + 2 * (Weigh(b[2], 1) + 2 * (Weigh(b[3], 1)
      + 2 * (Weigh(b[4], 1) + 2 * (Weigh(b[5], 1) + 2 * (Weigh(b[6], 1) + 2 * Weigh(b[7], 1)))))))
  {
    WeighScales(b[1], 2);
    WeighScales(b[2], 4);
    WeighScales(b[3], 8);
    WeighScales(b[4], 16);
    WeighScales(b[5], 32);
    WeighScales(b[6], 64);
    WeighScales(b[7], 128);
    hide Weigh;
  }

  lemma WeighScales(bit: bool, weight: nat)
    ensures Weigh(bit, weight) == weight * Weigh(bit, 1)
  {
  }

  /** The weights, and one beyond the last. */
  const WEIGHTS := [1, 2, 4, 8, 16, 32, 64, 128, 256]

  lemma HalfStep(b: Byte, k: nat)
    requires k < 8
    ensures b / WEIGHTS[k] == Weigh(BitOf(b, k), 1) + 2 * (b / WEIGHTS[k + 1])
    ensures b / WEIGHTS[0] == b && b / WEIGHTS[8] == 0
  {
    var w := WEIGHTS[k];
    assert WEIGHTS[k + 1] == 2 * w;
    HalveQuotient(b, w);
  }

  lemma HalveQuotient(x: nat, w: nat)
    requires w > 0
    ensures x / w / 2 == x / (2 * w) && x % (2 * w) == w * (x / w % 2) + x % w
  {
    var q, h, c := x / w, x / w / 2, x / w % 2;
    var r := w * c + x % w;
    assert x == w * q + x % w;
    Products(w, h, c);
    assert x == (2 * w) * h + r;
    assert w * c == Weigh(c == 1, w);
    QuotientIs(x, 2 * w, h, r);
  }

  lemma Products(w: nat, h: nat, c: nat)
    ensures w * (2 * h + c) == (2 * w) * h + w * c
  {
  }

  lemma QuotientIs(x: nat, d: nat, q: nat, r: nat)
    requires r < d && x == d * q + r
    ensures x / d == q
  {
    var k := x / d;
    assert x == d * k + x % d;
    if k < q {
      Multiple(d, q - k);
    } else if q < k {
      Multiple(d, k - q);
    }
  }

  lemma {:induction false} Multiple(d: nat, t: nat)
    requires t > 0
    ensures d * t >= d
  {
    if t > 1 {
      Multiple(d, t - 1);
      assert d * t == d * (t - 1) + d;
    }
  }

  /** A payload is determined by its bits. */
  lemma BitsInjective(data: seq<Byte>, data': seq<Byte>)
    ensures Bits(data) == Bits(data') <==> data == data'
  {
    if Bits(data) == Bits(data') {
      assert |data| == |data'|;
      forall i | 0 <= i < |data| ensures data[i] == data'[i] {
        BitsOfByte(data, i);
        BitsOfByte(data', i);
      }
    }
  }

  /** The bits of a sum of weights are the bits that were summed. */
  lemma BitOfByteOf(b: seq<bool>, k: nat)
    requires |b| == 8 && k < 8
    ensures BitOf(ByteOf(b), k) == b[k]
  {
    QuotientOf(b, k);
  }

  /** What is left of the sum from bit `k` on. */
  function Above(b: seq<bool>, k: nat): nat
    requires k <= |b|
    decreases |b| - k
  {
    if k == |b| then 0 else Weigh(b[k], 1) + 2 * Above(b, k + 1)
  }

  lemma AboveAll(b: seq<bool>)
    requires |b| == 8
    ensures Above(b, 0) == ByteOf(b)
  {
    Telescope(b, seq(9, k requires 0 <= k < 9 => Above(b, k)));
  }

  lemma {:induction false} QuotientOf(b: seq<bool>, k: nat)
    requires |b| == 8 && k <= 8
    ensures ByteOf(b) / WEIGHTS[k] == Above(b, k)
  {
    if k == 0 {
      AboveAll(b);
    } else {
      QuotientOf(b, k - 1);
      HalveQuotient(ByteOf(b), WEIGHTS[k - 1]);
      assert WEIGHTS[k] == 2 * WEIGHTS[k - 1];
    }
  }

  /** Every string of whole bytes is read from some payload. */
  lemma Realised(bits: seq<bool>) returns (data: seq<Byte>)
    requires |bits| % 8 == 0
    ensures 8 * |data| == |bits| && Bits(data) == bits
  {
    hide BitOf, ByteOf;
    data := seq(|bits| / 8, i requires 0 <= i < |bits| / 8 => ByteOf(bits[8 * i..8 * i + 8]));
    forall j | 0 <= j < |bits| ensures Bits(data)[j] == bits[j] {
      RealisedAt(bits, data, j);
    }
  }

  lemma RealisedAt(bits: seq<bool>, data: seq<Byte>, j: nat)
    requires 8 * |data| == |bits| && j < |bits|
    requires forall i :: 0 <= i < |data| ==> data[i] == ByteOf(bits[8 * i..8 * i + 8])
    ensures Bits(data)[j] == bits[j]
  {
    hide BitOf, ByteOf;
    var i, k := j / 8, j % 8;
    BitsAt(data, i, k);
    BitOfByteOf(bits[8 * i..8 * i + 8], k);
  }

  /** Every error pattern of a payload's length turns it into exactly one other payload. */
  lemma ErrorRealised(data: seq<Byte>, e: seq<bool>) returns (data': seq<Byte>)
    requires |e| == 8 * |data|
    ensures |data'| == |data| && Bits(data') == Xor(Bits(data), e)
    ensures forall other: seq<Byte> :: Bits(other) == Xor(Bits(data), e) ==> other == data'
  {
    data' := Realised(Xor(Bits(data), e));
    forall other: seq<Byte> | Bits(other) == Xor(Bits(data), e) ensures other == data' {
      BitsInjective(other, data');
    }
  }

  // ----- Single flips -----

  /** Inverting bit `k` of a byte: its weight is taken away if the byte holds it, added otherwise. */
  function Flip(b: Byte, k: nat): Byte
    requires k < 8
  {
    FlipChanges(b, k);
    var w := WEIGHTS[k];
    if b % (2 * w) >= w then b - w else b + w
  }

  /** The eight bits of a byte. */
  function BitsOf(b: Byte): (r: seq<bool>)
    ensures |r| == 8
  {
    seq(8, k requires 0 <= k < 8 => BitOf(b, k))
  }

  lemma FlipChanges(b: Byte, k: nat)
    requires k < 8
    ensures var w, s := WEIGHTS[k], BitsOf(b);
      (if b % (2 * w) >= w then b - w else b + w) == ByteOf(s[k := !s[k]])
  {
    hide ByteOf;
    var w, s := WEIGHTS[k], BitsOf(b);
    SumOfBits(b);
    Remainder(b, k);
    FlipSum(s, k);
  }

  lemma Remainder(b: Byte, k: nat)
    requires k < 8
    ensures BitOf(b, k) <==> b % (2 * WEIGHTS[k]) >= WEIGHTS[k]
  {
    HalveQuotient(b, WEIGHTS[k]);
  }

  lemma SumOfBits(b: Byte)
    ensures ByteOf(BitsOf(b)) == b
  {
    assert Bits([b])[0..8] == BitsOf(b) by {
      forall k | 0 <= k < 8 ensures Bits([b])[k] == BitOf(b, k) {
        BitsAt([b], 0, k);
      }
    }
    BitsOfByte([b], 0);
  }

  lemma FlipSum(s: seq<bool>, k: nat)
    requires |s| == 8 && k < 8
    ensures ByteOf(s[k := !s[k]]) == if s[k] then ByteOf(s) - WEIGHTS[k] else ByteOf(s) + WEIGHTS[k]
  {
    var t, w := s[k := !s[k]], WEIGHTS[k];
    var x := Weigh(s[k], w);
    assert Weigh(t[k], w) == w - x;
    forall j | 0 <= j < 8 && j != k ensures Weigh(t[j], WEIGHTS[j]) == Weigh(s[j], WEIGHTS[j]) {
    }
  }

  lemma BitOfFlip(b: Byte, k: nat, j: nat)
    requires k < 8 && j < 8
    ensures BitOf(Flip(b, k), j) == (BitOf(b, j) != (j == k))
  {
    FlipChanges(b, k);
    BitOfByteOf(BitsOf(b)[k := !BitsOf(b)[k]], j);
    hide BitOf;
  }

  /** The payload with one bit inverted; bit `pos` is bit `pos % 8` of byte `pos / 8`. */
  function FlipAt(data: seq<Byte>, pos: nat): (r: seq<Byte>)
    requires pos < 8 * |data|
    ensures |r| == |data|
  {
    data[pos / 8 := Flip(data[pos / 8], pos % 8)]
  }

  lemma BitsOfFlip(data: seq<Byte>, pos: nat, j: nat)
    requires pos < 8 * |data| && j < 8 * |data|
    ensures Bits(FlipAt(data, pos))[j] == (Bits(data)[j] != (j == pos))
  {
    var i, k := j / 8, j % 8;
    BitsAt(data, i, k);
    BitsAt(FlipAt(data, pos), i, k);
    if i == pos / 8 {
      BitOfFlip(data[i], pos % 8, k);
    }
    hide BitOf, Flip;
  }

  // ----- What is detected, on payloads -----

  /** Bits inverted one after the other; a position that comes twice is restored. */
  function FlipAll(data: seq<Byte>, flips: seq<nat>): (r: seq<Byte>)
    requires forall k :: 0 <= k < |flips| ==> flips[k] < 8 * |data|
    ensures |r| == |data|
  {
    if flips == [] then data
    else
      var n := |flips| - 1;
      FlipAt(FlipAll(data, flips[..n]), flips[n])
  }

  lemma FlipChangesParity(data: seq<Byte>, pos: nat)
    requires pos < 8 * |data|
    ensures Odd(Bits(FlipAt(data, pos))) != Odd(Bits(data))
  {
    var b, b' := Bits(data), Bits(FlipAt(data, pos));
    forall j | 0 <= j < |b| ensures b'[j] == (b[j] != (j == pos)) {
      BitsOfFlip(data, pos, j);
    }
    OddDiffers(b, b', pos);
  }

  lemma OddDiffers(b: seq<bool>, b': seq<bool>, pos: nat)
    requires pos < |b| == |b'| && forall j :: 0 <= j < |b| ==> b'[j] == (b[j] != (j == pos))
    ensures Odd(b') != Odd(b)
  {
    hide Odd;
    assert b'[..pos] == b[..pos] && b'[pos + 1..] == b[pos + 1..];
    SplitAround(b, pos);
    SplitAround(b', pos);
    OddAround(b[..pos], b[pos], b[pos + 1..]);
    OddAround(b[..pos], b'[pos], b[pos + 1..]);
  }

  lemma OddAround(a: seq<bool>, bit: bool, c: seq<bool>)
    ensures Odd(a + ([bit] + c)) == ((Odd(a) != Odd(c)) != bit)
  {
    OddConcat(a, [bit] + c);
    OddConcat([bit], c);
    assert Odd([bit]) == bit;
  }

  lemma {:induction false} FlipsChangeParity(data: seq<Byte>, flips: seq<nat>)
    requires forall k :: 0 <= k < |flips| ==> flips[k] < 8 * |data|
    ensures Odd(Bits(FlipAll(data, flips))) == (Odd(Bits(data)) != (|flips| % 2 == 1))
  {
    hide FlipAt, Bits, Odd;
    if flips != [] {
      var n := |flips| - 1;
      FlipsChangeParity(data, flips[..n]);
      FlipChangesParity(FlipAll(data, flips[..n]), flips[n]);
    }
  }

  /** Any odd number of inverted bits is seen, in a payload of any length. */
  lemma OddFlipsDetected(data: seq<Byte>, flips: seq<nat>)
    requires forall k :: 0 <= k < |flips| ==> flips[k] < 8 * |data|
    requires |flips| % 2 == 1
    ensures Checksum(FlipAll(data, flips)) != Checksum(data)
  {
    FlipsChangeParity(data, flips);
    ChecksumParity(data);
    ChecksumParity(FlipAll(data, flips));
  }

  /** One inverted bit in particular. */
  lemma SingleFlipDetected(data: seq<Byte>, pos: nat)
    requires pos < 8 * |data|
    ensures Checksum(FlipAt(data, pos)) != Checksum(data)
  {
    FlipChangesParity(data, pos);
    ChecksumParity(data);
    ChecksumParity(FlipAt(data, pos));
  }

  /** Two inverted bits are seen if and only if their distance is no multiple of 32767. */
  lemma DoubleFlipDetected(data: seq<Byte>, i: nat, j: nat)
    requires i < j < 8 * |data|
    ensures Checksum(FlipAt(FlipAt(data, i), j)) != Checksum(data) <==> (j - i) % 32767 != 0
  {
    var data' := FlipAt(FlipAt(data, i), j);
    var after: nat := 8 * |data| - j - 1;
    var e := CrcOrder.TwoBits(i, j - i, after);
    forall k | 0 <= k < 8 * |data| ensures Bits(data')[k] == (Bits(data)[k] != e[k]) {
      BitsOfFlip(data, i, k);
      BitsOfFlip(FlipAt(data, i), j, k);
      TwoBitsAt(i, j, after, k);
    }
    assert Bits(data') == Xor(Bits(data), e);
    CrcOrder.DoubleErrorDetected(data, data', i, j - i, after);
  }

  lemma TwoFlips(data: seq<Byte>, flips: seq<nat>)
    requires |flips| == 2 && flips[0] < flips[1] < 8 * |data| && |data| <= 992
    ensures Checksum(FlipAll(data, flips)) != Checksum(data)
  {
    hide Checksum, FlipAt;
    var one := flips[..1];
    assert one[..0] == [] && one[0] == flips[0];
    assert FlipAll(data, []) == data;
    assert FlipAll(data, one) == FlipAt(data, flips[0]);
    DoubleFlipDetected(data, flips[0], flips[1]);
  }

  lemma TwoBitsAt(i: nat, j: nat, after: nat, k: nat)
    requires i < j && k <= j + after
    ensures var e := CrcOrder.TwoBits(i, j - i, after);
      |e| == j + 1 + after && e[k] == (k == i || k == j)
  {
  }

  /** Whatever happens to two neighbouring bytes is seen. */
  lemma NeighboursDetected(data: seq<Byte>, data': seq<Byte>, i: nat)
    requires |data| == |data'| && i + 2 <= |data| && data != data'
    requires forall k :: 0 <= k < |data| && k != i && k != i + 1 ==> data'[k] == data[k]
    ensures Checksum(data') != Checksum(data)
  {
    var b, b' := Bits(data), Bits(data');
    var e := Xor(b, b');
    BitsInjective(data, data');
    forall k | 0 <= k < |e| && !(8 * i <= k < 8 * i + 16) ensures !e[k] {
      BitsAt(data, k / 8, k % 8);
      BitsAt(data', k / 8, k % 8);
    }
    var burst, after: nat := e[8 * i..8 * i + 16], |e| - 8 * i - 16;
    assert e == Zeros(8 * i) + burst + Zeros(after);
    assert true in burst by {
      var k :| 0 <= k < |e| && b[k] != b'[k];
      assert e[k] && burst[k - 8 * i];
    }
    assert b' == Xor(b, e);
    BurstDetected(data, data', 8 * i, burst, after);
  }
}
