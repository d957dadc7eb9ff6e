/** What the checksum of `Crc` is, and exactly which of the common transmission errors it misses. */
module CrcDetection {
  import opened Words
  import opened Crc

  // ----- The checksum is the remainder of M(x) x^16 -----

  /** Coefficient `i` of a bit string, highest power first; zero outside it. */
  ghost predicate Coef(q: seq<bool>, i: int) {
    0 <= i < |q| && q[i]
  }

  /** Coefficient `i` of q(x) (x^16 + x^15 + x^2 + 1), in |q| + 16 places. */
  ghost predicate TimesGenerator(q: seq<bool>, i: int) {
    ((Coef(q, i) != Coef(q, i - 1)) != Coef(q, i - 14)) != Coef(q, i - 16)
  }

  /** `b` is `q` times the generator plus `r`, coefficient by coefficient. */
  ghost predicate Divides(b: seq<bool>, q: seq<bool>, r: Word16) {
    && |b| == |q| + 16
    && forall i :: 0 <= i < |b| ==> b[i] == (TimesGenerator(q, i) != Coef(r, i - |q|))
  }

  /** `r` is the remainder of m(x) x^16 by the generator. */
  ghost predicate IsRemainder(m: seq<bool>, r: Word16) {
    exists q :: Divides(m + Zeros(16), q, r)
  }

  /** One register turn: every coefficient moves up, and the generator is taken away if x^15 was set. */
  lemma StepBit(v: Word16, bit: bool, t: nat)
    requires t < 16
    ensures Step(v, bit)[t] == ((if t < 15 then v[t + 1] else bit) != (v[0] && (t == 0 || t == 13 || t == 15)))
  {
  }

  /** The first sixteen bits only fill the register. */
  lemma {:induction false} FillRegister(b: seq<bool>)
    requires |b| <= 16
    ensures Feed(Zeros(16), b) == Zeros(16 - |b|) + b
  {
    if b != [] {
      var n := |b| - 1;
      FillRegister(b[..n]);
      assert b == b[..n] + [b[n]];
    }
  }

  /** Invariant of long division: what has been read is quotient times generator plus register. */
  lemma {:induction false} LongDivision(b: seq<bool>) returns (q: seq<bool>)
    requires |b| >= 16
    ensures Divides(b, q, Feed(Zeros(16), b))
  {
    if |b| == 16 {
      q := [];
      FillRegister(b);
    } else {
      var n := |b| - 1;
      var p := LongDivision(b[..n]);
      var r := Feed(Zeros(16), b[..n]);
      q := p + [r[0]];
      forall i | 0 <= i < |b| ensures b[i] == (TimesGenerator(q, i) != Coef(Step(r, b[n]), i - |q|)) {
        DivisionDigit(b[..n], p, r, b[n], i);
      }
    }
  }

  lemma DivisionDigit(b: seq<bool>, p: seq<bool>, r: Word16, bit: bool, i: nat)
    requires Divides(b, p, r) && i <= |b|
    ensures (b + [bit])[i] == (TimesGenerator(p + [r[0]], i) != Coef(Step(r, bit), i - |p| - 1))
  {
    QuotientGrows(p, r[0], i);
    var t := i - |p| - 1;
    if t >= 0 {
      StepBit(r, bit, t);
    }
    if i < |b| {
      assert b[i] == (TimesGenerator(p, i) != Coef(r, i - |p|));
    }
  }

  /** Appending a quotient digit at place k = |p| adds the generator's four terms there. */
  lemma QuotientGrows(p: seq<bool>, f: bool, i: int)
    ensures TimesGenerator(p + [f], i) ==
      (TimesGenerator(p, i) != (f && (i == |p| || i == |p| + 1 || i == |p| + 14 || i == |p| + 16)))
  {
  }

  /** Quotient and remainder are unique. */
  lemma {:induction false} QuotientUnique(b: seq<bool>, q: seq<bool>, q': seq<bool>, r: Word16, r': Word16, n: nat)
    requires Divides(b, q, r) && Divides(b, q', r') && n <= |q|
    ensures q[..n] == q'[..n]
  {
    if n > 0 {
      QuotientUnique(b, q, q', r, r', n - 1);
      var i := n - 1;
      assert b[i] == (TimesGenerator(q, i) != Coef(r, i - |q|));
      assert b[i] == (TimesGenerator(q', i) != Coef(r', i - |q|));
      forall j | j < i ensures Coef(q, j) == Coef(q', j) {
        if j >= 0 {
          assert q[..i][j] == q'[..i][j];
        }
      }
      assert Coef(q, i) == Coef(q', i);
      assert q[..n] == q[..i] + [q[i]] && q'[..n] == q'[..i] + [q'[i]];
    }
  }

  lemma RemainderUnique(m: seq<bool>, r: Word16, r': Word16)
    requires IsRemainder(m, r) && IsRemainder(m, r')
    ensures r == r'
  {
    var b := m + Zeros(16);
    var q :| Divides(b, q, r);
    var q' :| Divides(b, q', r');
    QuotientUnique(b, q, q', r, r', |q|);
    assert q == q[..|q|] == q'[..|q'|] == q';
    forall t | 0 <= t < 16 ensures r[t] == r'[t] {
      var i := |q| + t;
      assert b[i] == (TimesGenerator(q, i) != Coef(r, i - |q|));
      assert b[i] == (TimesGenerator(q', i) != Coef(r', i - |q|));
    }
  }

  lemma {:induction false} FeedConcat(v: Word16, a: seq<bool>, b: seq<bool>)
    ensures Feed(v, a + b) == Feed(Feed(v, a), b)
  {
    if b == [] {
      assert a + b == a;
    } else {
      var n := |b| - 1;
      assert (a + b)[..|a| + n] == a + b[..n];
      FeedConcat(v, a, b[..n]);
    }
  }

  /** Read with its least significant bit as the coefficient of x^15 and its most significant as that of x^0, the
      checksum is the remainder of M(x) x^16 by x^16 + x^15 + x^2 + 1, and no other word is. */
  lemma ChecksumIsRemainder(data: seq<Byte>, c: Word16, r: Word16)
    requires forall t :: 0 <= t < 16 ==> r[t] == c[15 - t]
    ensures c == Checksum(data) <==> IsRemainder(Bits(data), r)
  {
    var m := Bits(data);
    FeedConcat(Zeros(16), m, Zeros(16));
    var q := LongDivision(m + Zeros(16));
    var r0 := Feed(Zeros(16), m + Zeros(16));
    assert IsRemainder(m, r0) && Reflect(r0) == Checksum(data);
    if IsRemainder(m, r) {
      RemainderUnique(m, r, r0);
      assert c == Reflect(r);
    }
    if c == Checksum(data) {
      forall t | 0 <= t < 16 ensures r[t] == r0[t] {
        assert c[15 - t] == r0[15 - (15 - t)];
      }
      assert r == r0;
    }
  }

  // ----- Errors: the checksum is linear, so an error is missed exactly if its own register ends at zero -----

  lemma StepLinear(v: Word16, w: Word16, a: bool, b: bool)
    ensures Step(Xor(v, w), a != b) == Xor(Step(v, a), Step(w, b))
  {
    forall t | 0 <= t < 16 ensures Step(Xor(v, w), a != b)[t] == Xor(Step(v, a), Step(w, b))[t] {
      StepBit(Xor(v, w), a != b, t);
      StepBit(v, a, t);
      StepBit(w, b, t);
    }
  }

  lemma {:induction false} FeedLinear(v: Word16, w: Word16, a: seq<bool>, b: seq<bool>)
    requires |a| == |b|
    ensures Feed(Xor(v, w), Xor(a, b)) == Xor(Feed(v, a), Feed(w, b))
  {
    if a != [] {
      var n := |a| - 1;
      assert Xor(a, b)[..n] == Xor(a[..n], b[..n]);
      FeedLinear(v, w, a[..n], b[..n]);
      StepLinear(Feed(v, a[..n]), Feed(w, b[..n]), a[n], b[n]);
    }
  }

  /** Linearity under XOR of equal-length bit strings. */
  lemma ChecksumLinear(a: seq<bool>, b: seq<bool>)
    requires |a| == |b|
    ensures BitChecksum(Xor(a, b)) == Xor(BitChecksum(a), BitChecksum(b))
  {
    assert Xor(Zeros(16), Zeros(16)) == Zeros(16);
    FeedLinear(Zeros(16), Zeros(16), a, b);
    FeedLinear(Feed(Zeros(16), a), Feed(Zeros(16), b), Zeros(16), Zeros(16));
    var x, y := Feed(Feed(Zeros(16), a), Zeros(16)), Feed(Feed(Zeros(16), b), Zeros(16));
    assert Reflect(Xor(x, y)) == Xor(Reflect(x), Reflect(y));
  }

  /** Shifting zeros in is injective: a register that is not zero never becomes zero. */
  lemma {:induction false} ZerosKeepNonzero(v: Word16, n: nat)
    ensures Feed(v, Zeros(n)) == Zeros(16) <==> v == Zeros(16)
  {
    if n > 0 {
      assert Zeros(n)[..n - 1] == Zeros(n - 1);
      ZerosKeepNonzero(v, n - 1);
      var w := Feed(v, Zeros(n - 1));
      assert Feed(v, Zeros(n)) == Step(w, false);
      StepZero(w);
    }
  }

  lemma StepZero(w: Word16)
    ensures Step(w, false) == Zeros(16) <==> w == Zeros(16)
  {
    if w != Zeros(16) {
      StepBit(w, false, 15);
      if !w[0] {
        var t :| 0 <= t < 16 && w[t];
        StepBit(w, false, t - 1);
      }
    }
  }

  /** Two payloads of one length differ by `e`; the checksum misses it exactly if `e` leaves the register at zero. */
  lemma MissedError(data: seq<Byte>, data': seq<Byte>, e: seq<bool>)
    requires |e| == 8 * |data| == 8 * |data'| && Bits(data') == Xor(Bits(data), e)
    ensures Checksum(data') == Checksum(data) <==> Feed(Zeros(16), e) == Zeros(16)
  {
    ChecksumLinear(Bits(data), e);
    ZerosKeepNonzero(Feed(Zeros(16), e), 16);
    var c, d := Checksum(data), BitChecksum(e);
    var w := Feed(Feed(Zeros(16), e), Zeros(16));
    assert Reflect(d) == w;
    if w == Zeros(16) {
      assert Xor(c, d) == c;
    } else {
      var t :| 0 <= t < 16 && w[t];
      assert d[15 - t];
      assert Xor(c, d)[15 - t] != c[15 - t];
    }
  }

  // ----- Bursts -----

  /** Every error confined to sixteen consecutive bits is seen, whatever the payload length. */
  lemma BurstDetected(data: seq<Byte>, data': seq<Byte>, before: nat, burst: seq<bool>, after: nat)
    requires |burst| <= 16 && true in burst
    requires |data| == |data'| && before + |burst| + after == 8 * |data|
    requires Bits(data') == Xor(Bits(data), Zeros(before) + burst + Zeros(after))
    ensures Checksum(data') != Checksum(data)
  {
    hide Bits, Checksum, Step;
    var e := Zeros(before) + burst + Zeros(after);
    FeedConcat(Zeros(16), Zeros(before) + burst, Zeros(after));
    FeedConcat(Zeros(16), Zeros(before), burst);
    ZerosKeepNonzero(Zeros(16), before);
    FillRegister(burst);
    var k :| 0 <= k < |burst| && burst[k];
    assert Feed(Zeros(16), burst)[16 - |burst| + k];
    ZerosKeepNonzero(Feed(Zeros(16), burst), after);
    MissedError(data, data', e);
  }

  // ----- Parity -----

  /** The parity of a bit string: true if it holds an odd number of ones. */
  function Odd(bits: seq<bool>): bool {
    if bits == [] then false else Odd(bits[1..]) != bits[0]
  }

  lemma {:induction false} OddConcat(a: seq<bool>, b: seq<bool>)
    ensures Odd(a + b) == (Odd(a) != Odd(b))
  {
    if a == [] {
      assert a + b == b;
    } else {
      assert (a + b)[1..] == a[1..] + b;
      OddConcat(a[1..], b);
    }
  }

  lemma {:induction false} OddXor(a: seq<bool>, b: seq<bool>)
    requires |a| == |b|
    ensures Odd(Xor(a, b)) == (Odd(a) != Odd(b))
  {
    if a != [] {
      assert Xor(a, b)[1..] == Xor(a[1..], b[1..]);
      OddXor(a[1..], b[1..]);
    }
  }

  /** The generator has an even number of terms, so a register turn keeps parity. */
  lemma StepParity(v: Word16, bit: bool)
    ensures Odd(Step(v, bit)) == (Odd(v) != bit)
  {
    assert v == [v[0]] + v[1..];
    OddConcat(v[1..], [bit]);
    assert Odd([bit]) == bit;
    OddGenerator();
    OddXor(v[1..] + [bit], CRC16);
  }

  lemma OddGenerator()
    ensures Odd(CRC16)
  {
    var tail := [true, false, true];
    assert CRC16 == [true] + (Zeros(12) + tail);
    OddTail();
    hide Odd;
    OddConcat([true], Zeros(12) + tail);
    OddConcat(Zeros(12), tail);
    OddZeros(12);
  }

  lemma OddTail()
    ensures Odd([true]) && !Odd([true, false, true])
  {
    var two := [false, true];
    assert two[1..] == [true] && [true, false, true][1..] == two && [true][1..] == [];
    assert Odd([true]) && Odd(two);
  }

  lemma {:induction false} OddZeros(n: nat)
    ensures !Odd(Zeros(n))
  {
    if n > 0 {
      assert Zeros(n)[1..] == Zeros(n - 1);
      OddZeros(n - 1);
    }
  }

  lemma {:induction false} FeedParity(v: Word16, bits: seq<bool>)
    ensures Odd(Feed(v, bits)) == (Odd(v) != Odd(bits))
  {
    if bits != [] {
      var n := |bits| - 1;
      FeedParity(v, bits[..n]);
      StepParity(Feed(v, bits[..n]), bits[n]);
      assert bits == bits[..n] + [bits[n]];
      OddConcat(bits[..n], [bits[n]]);
      assert Odd([bits[n]]) == bits[n];
    }
  }

  lemma {:induction false} OddReversed(v: seq<bool>, r: seq<bool>)
    requires |v| == |r| && forall i :: 0 <= i < |v| ==> r[i] == v[|v| - 1 - i]
    ensures Odd(r) == Odd(v)
  {
    if v != [] {
      var n := |v| - 1;
      assert v == v[..n] + [v[n]];
      OddReversed(v[..n], r[1..]);
      OddConcat(v[..n], [v[n]]);
      assert Odd([v[n]]) == v[n];
    }
  }

  /** The parity of the checksum is the parity of the payload bits. */
  lemma ChecksumParity(data: seq<Byte>)
    ensures Odd(Checksum(data)) == Odd(Bits(data))
  {
    var w := Feed(Zeros(16), Bits(data));
    OddZeros(16);
    FeedParity(Zeros(16), Bits(data));
    FeedParity(w, Zeros(16));
    OddReversed(Feed(w, Zeros(16)), Checksum(data));
  }

  /** Any odd number of flipped bits is seen. */
  lemma OddErrorDetected(data: seq<Byte>, data': seq<Byte>, e: seq<bool>)
    requires |e| == 8 * |data| == 8 * |data'| && Bits(data') == Xor(Bits(data), e)
    requires Odd(e)
    ensures Checksum(data') != Checksum(data)
  {
    ChecksumParity(data);
    ChecksumParity(data');
    OddXor(Bits(data), e);
  }
}
