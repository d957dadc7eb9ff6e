/** Double-bit errors: x has order 32767 modulo the generator (x + 1)(x^15 + x + 1), so two flipped
    bits go unseen exactly when they lie a multiple of 32767 bits apart. */
module CrcOrder {
  import opened Words
  import opened Crc
  import opened CrcDetection

  const One: Word16 := Zeros(15) + [true]

  /** x^n modulo the generator: a one followed by n zeros through the register. */
  ghost function Power(n: nat): Word16 {
    Feed(One, Zeros(n))
  }

  lemma PowerNext(n: nat)
    ensures Power(0) == One && Power(n + 1) == Step(Power(n), false)
  {
    assert Zeros(n + 1)[..n] == Zeros(n);
  }

  // ----- Multiplication modulo the generator -----

  /** `a` times the polynomial `bits`, by Horner's rule. */
  ghost function Mul(a: Word16, bits: seq<bool>): Word16 {
    if bits == [] then Zeros(16)
    else
      var r := Step(Mul(a, bits[..|bits| - 1]), false);
      if bits[|bits| - 1] then Xor(r, a) else r
  }

  lemma {:induction false} MulShift(a: Word16, bits: seq<bool>)
    ensures Mul(Step(a, false), bits) == Step(Mul(a, bits), false)
  {
    StepZero(Zeros(16));
    if bits != [] {
      var n := |bits| - 1;
      MulShift(a, bits[..n]);
      var r := Step(Mul(a, bits[..n]), false);
      StepLinear(r, a, false, false);
    }
  }

  lemma {:induction false} MulOne(bits: seq<bool>)
    ensures Mul(One, bits) == Feed(Zeros(16), bits)
  {
    if bits != [] {
      var n := |bits| - 1;
      MulOne(bits[..n]);
      var r := Mul(One, bits[..n]);
      forall t | 0 <= t < 16 ensures Mul(One, bits)[t] == Step(r, bits[n])[t] {
        StepBit(r, false, t);
        StepBit(r, bits[n], t);
      }
    }
  }

  lemma {:induction false} PowerAdd(m: nat, n: nat)
    ensures Power(m + n) == Mul(Power(m), Power(n))
  {
    if m == 0 {
      PowerNext(0);
      MulOne(Power(n));
      FillRegister(Power(n));
      assert Zeros(0) + Power(n) == Power(n);
    } else {
      PowerAdd(m - 1, n);
      PowerNext(m - 1);
      PowerNext(m - 1 + n);
      MulShift(Power(m - 1), Power(n));
    }
  }

  // ----- The same arithmetic on sixteen named coefficients, which the verifier can evaluate -----

  datatype Bit = O | I

  ghost function Add(x: Bit, y: Bit): Bit {
    if x == O then y else if y == O then I else O
  }

  datatype Reg = Reg(a15: Bit, a14: Bit, a13: Bit, a12: Bit, a11: Bit, a10: Bit, a9: Bit, a8: Bit, a7: Bit, a6: Bit, a5: Bit, a4: Bit, a3: Bit, a2: Bit, a1: Bit, a0: Bit) {
    /** Coefficient of x^(15-t). */
    ghost function At(t: int): Bit {
      if t == 0 then a15 else if t == 1 then a14 else if t == 2 then a13 else if t == 3 then a12 else if t == 4 then a11
      else if t == 5 then a10 else if t == 6 then a9 else if t == 7 then a8 else if t == 8 then a7 else if t == 9 then a6
      else if t == 10 then a5 else if t == 11 then a4 else if t == 12 then a3 else if t == 13 then a2 else if t == 14 then a1
      else a0
    }

    ghost function Word(): Word16 {
      seq(16, t => At(t) == I)
    }

    /** Multiplication by x. */
    ghost function Shift(): Reg {
      Reg(Add(a14, a15), a13, a12, a11, a10, a9, a8, a7, a6, a5, a4, a3, a2, Add(a1, a15), a0, a15)
    }

    ghost function Plus(s: Reg): Reg {
      Reg(Add(a15, s.a15), Add(a14, s.a14), Add(a13, s.a13), Add(a12, s.a12), Add(a11, s.a11), Add(a10, s.a10), Add(a9, s.a9), Add(a8, s.a8), Add(a7, s.a7), Add(a6, s.a6), Add(a5, s.a5), Add(a4, s.a4), Add(a3, s.a3), Add(a2, s.a2), Add(a1, s.a1), Add(a0, s.a0))
    }

    ghost function Horner(s: Reg, bit: Bit): Reg {
      if bit == I then Shift().Plus(s) else Shift()
    }

    ghost function Times(s: Reg): Reg {
      Reg(O, O, O, O, O, O, O, O, O, O, O, O, O, O, O, O)
      .Horner(this, s.a15).Horner(this, s.a14).Horner(this, s.a13).Horner(this, s.a12)
      .Horner(this, s.a11).Horner(this, s.a10).Horner(this, s.a9).Horner(this, s.a8)
      .Horner(this, s.a7).Horner(this, s.a6).Horner(this, s.a5).Horner(this, s.a4)
      .Horner(this, s.a3).Horner(this, s.a2).Horner(this, s.a1).Horner(this, s.a0)
    }
  }

  lemma ShiftIsStep(r: Reg)
    ensures r.Shift().Word() == Step(r.Word(), false)
  {
    forall t | 0 <= t < 16 ensures (r.Shift().At(t) == I) == Step(r.Word(), false)[t] {
      StepBit(r.Word(), false, t);
    }
  }

  lemma PlusAt(r: Reg, s: Reg, t: nat)
    requires t < 16
    ensures r.Plus(s).At(t) == Add(r.At(t), s.At(t))
  {
  }

  lemma PlusIsXor(r: Reg, s: Reg)
    ensures r.Plus(s).Word() == Xor(r.Word(), s.Word())
  {
    forall t | 0 <= t < 16 ensures (r.Plus(s).At(t) == I) == ((r.At(t) == I) != (s.At(t) == I)) {
      PlusAt(r, s, t);
    }
  }

  /** The product after the first `k` coefficients of `s`. */
  ghost function Partial(r: Reg, s: Reg, k: nat): Reg {
    if k == 0 then Reg(O, O, O, O, O, O, O, O, O, O, O, O, O, O, O, O)
    else Partial(r, s, k - 1).Horner(r, s.At(k - 1))
  }

  lemma {:induction false} PartialIsMul(r: Reg, s: Reg, k: nat)
    requires k <= 16
    ensures Partial(r, s, k).Word() == Mul(r.Word(), s.Word()[..k])
  {
    if k == 0 {
      assert Partial(r, s, 0).Word() == Zeros(16);
    } else {
      PartialIsMul(r, s, k - 1);
      assert s.Word()[..k][..k - 1] == s.Word()[..k - 1];
      var acc := Partial(r, s, k - 1);
      ShiftIsStep(acc);
      PlusIsXor(acc.Shift(), r);
    }
  }

  lemma FourTurns(r: Reg, s: Reg, k: nat)
    ensures Partial(r, s, k + 4) ==
      Partial(r, s, k).Horner(r, s.At(k)).Horner(r, s.At(k + 1)).Horner(r, s.At(k + 2)).Horner(r, s.At(k + 3))
  {
    assert Partial(r, s, k + 2) == Partial(r, s, k).Horner(r, s.At(k)).Horner(r, s.At(k + 1));
  }

  lemma TimesIsMul(r: Reg, s: Reg)
    ensures r.Times(s).Word() == Mul(r.Word(), s.Word())
  {
    assert Partial(r, s, 16) == r.Times(s) by {
      FourTurns(r, s, 0);
      FourTurns(r, s, 4);
      FourTurns(r, s, 8);
      FourTurns(r, s, 12);
    }
    PartialIsMul(r, s, 16);
    assert s.Word()[..16] == s.Word();
  }

  /** x^n modulo the generator is `r`. */
  ghost predicate PowerIs(n: nat, r: Reg) {
    Power(n) == r.Word()
  }

  lemma PowerTimes(m: nat, r: Reg, n: nat, s: Reg)
    requires PowerIs(m, r) && PowerIs(n, s)
    ensures PowerIs(m + n, r.Times(s))
  {
    PowerAdd(m, n);
    TimesIsMul(r, s);
  }

  // x^(2^k) for k = 0, ..., 14
  const X0 := Reg(O, O, O, O, O, O, O, O, O, O, O, O, O, O, I, O)
  const X1 := Reg(O, O, O, O, O, O, O, O, O, O, O, O, O, I, O, O)
  const X2 := Reg(O, O, O, O, O, O, O, O, O, O, O, I, O, O, O, O)
  const X3 := Reg(O, O, O, O, O, O, O, I, O, O, O, O, O, O, O, O)
  const X4 := Reg(I, O, O, O, O, O, O, O, O, O, O, O, O, I, O, I)
  const X5 := Reg(I, O, O, O, O, O, O, O, O, O, O, I, O, I, I, I)
  const X6 := Reg(I, O, O, O, O, O, O, I, O, O, O, I, O, O, I, I)
  const X7 := Reg(O, O, O, O, O, O, O, I, O, O, O, O, O, I, I, O)
  const X8 := Reg(I, O, O, O, O, O, O, O, O, O, O, I, O, O, O, I)
  const X9 := Reg(I, O, O, O, O, O, O, I, O, O, O, O, O, I, I, I)
  const X10 := Reg(O, O, O, O, O, O, O, O, O, O, O, I, O, I, I, O)
  const X11 := Reg(O, O, O, O, O, O, O, I, O, O, O, I, O, I, O, O)
  const X12 := Reg(I, O, O, O, O, O, O, I, O, O, O, I, O, I, O, I)
  const X13 := Reg(O, O, O, O, O, O, O, I, O, O, O, I, O, O, I, O)
  const X14 := Reg(I, O, O, O, O, O, O, I, O, O, O, O, O, O, O, I)

  lemma Squares()
    ensures X0.Times(X0) == X1
    ensures X1.Times(X1) == X2
    ensures X2.Times(X2) == X3
    ensures X3.Times(X3) == X4
    ensures X4.Times(X4) == X5
    ensures X5.Times(X5) == X6
    ensures X6.Times(X6) == X7
  {
  }

  lemma MoreSquares()
    ensures X7.Times(X7) == X8
    ensures X8.Times(X8) == X9
    ensures X9.Times(X9) == X10
    ensures X10.Times(X10) == X11
    ensures X11.Times(X11) == X12
    ensures X12.Times(X12) == X13
    ensures X13.Times(X13) == X14
  {
  }

  lemma PowerOne()
    ensures PowerIs(1, X0)
  {
    PowerNext(0);
    forall t | 0 <= t < 16 ensures Power(1)[t] == X0.Word()[t] {
      StepBit(One, false, t);
    }
  }

  lemma PowerTable()
    ensures PowerIs(1, X0) && PowerIs(8, X3) && PowerIs(16, X4) && PowerIs(32, X5) && PowerIs(64, X6)
    ensures PowerIs(128, X7) && PowerIs(512, X9) && PowerIs(1024, X10) && PowerIs(4096, X12) && PowerIs(16384, X14)
  {
    PowerOne();
    Squares();
    MoreSquares();
    hide Reg.Times, Power, PowerIs;
    PowerTimes(1, X0, 1, X0);
    PowerTimes(2, X1, 2, X1);
    PowerTimes(4, X2, 4, X2);
    PowerTimes(8, X3, 8, X3);
    PowerTimes(16, X4, 16, X4);
    PowerTimes(32, X5, 32, X5);
    PowerTimes(64, X6, 64, X6);
    PowerTimes(128, X7, 128, X7);
    PowerTimes(256, X8, 256, X8);
    PowerTimes(512, X9, 512, X9);
    PowerTimes(1024, X10, 1024, X10);
    PowerTimes(2048, X11, 2048, X11);
    PowerTimes(4096, X12, 4096, X12);
    PowerTimes(8192, X13, 8192, X13);
  }

  lemma StepInjective(v: Word16, w: Word16)
    requires Step(v, false) == Step(w, false)
    ensures v == w
  {
    StepLinear(v, w, false, false);
    assert Xor(Step(v, false), Step(w, false)) == Zeros(16);
    StepZero(Xor(v, w));
    forall t | 0 <= t < 16 ensures v[t] == w[t] {
      assert Xor(v, w)[t] == Zeros(16)[t];
    }
  }

  /** x^32768 = x, so x^32767 = 1. */
  lemma FullCycle()
    ensures Power(32767) == One
  {
    PowerTable();
    PowerTimes(16384, X14, 16384, X14);
    assert X14.Times(X14) == X0;
    PowerNext(32767);
    PowerNext(0);
    StepInjective(Power(32767), One);
  }

  /** A power whose x^15 coefficient is one is not 1. */
  lemma NotOne(n: nat, r: Reg)
    requires PowerIs(n, r) && r.a15 == I
    ensures Power(n) != One
  {
    assert r.Word()[0] && !One[0];
  }

  lemma NotPeriod4681()
    ensures Power(4681) != One
  {
    PowerTable();
    PowerTimes(4096, X12, 512, X9);
    var r := X12.Times(X9);
    PowerTimes(4608, r, 64, X6);
    var s := r.Times(X6);
    PowerTimes(4672, s, 8, X3);
    var t := s.Times(X3);
    PowerTimes(4680, t, 1, X0);
    NotOne(4681, t.Times(X0));
  }

  lemma NotPeriod1057()
    ensures Power(1057) != One
  {
    PowerTable();
    PowerTimes(1024, X10, 32, X5);
    PowerTimes(1056, X10.Times(X5), 1, X0);
    NotOne(1057, X10.Times(X5).Times(X0));
  }

  lemma NotPeriod217()
    ensures Power(217) != One
  {
    PowerTable();
    PowerTimes(128, X7, 64, X6);
    var r := X7.Times(X6);
    PowerTimes(192, r, 16, X4);
    var s := r.Times(X4);
    PowerTimes(208, s, 8, X3);
    var t := s.Times(X3);
    PowerTimes(216, t, 1, X0);
    NotOne(217, t.Times(X0));
  }

  // ----- The order of x -----

  lemma PowerShift(a: nat, b: nat)
    requires Power(a) == One
    ensures Power(a + b) == Power(b)
  {
    PowerAdd(a, b);
    MulOne(Power(b));
    FillRegister(Power(b));
    assert Zeros(0) + Power(b) == Power(b);
  }

  lemma {:induction false} PowerPeriodic(a: nat, n: nat)
    requires a > 0 && Power(a) == One
    ensures Power(n) == Power(n % a)
  {
    hide Power;
    if n >= a {
      PowerShift(a, n - a);
      PowerPeriodic(a, n - a);
      assert n % a == (n - a) % a by { ModDown(n, a); }
    }
  }

  lemma ModDown(n: nat, a: nat)
    requires 0 < a <= n
    ensures n % a == (n - a) % a
  {
    var q := (n - a) / a;
    assert n - a == q * a + (n - a) % a;
    assert n == (q + 1) * a + (n - a) % a by { assert (q + 1) * a == q * a + a; }
    Unique(n, a, q + 1, (n - a) % a);
  }

  lemma Unique(n: nat, a: nat, q: nat, r: nat)
    requires 0 < a && r < a && n == q * a + r
    ensures n % a == r
  {
    var d := n / a - q;
    assert d * a == n / a * a - q * a;
    assert d * a == r - n % a;
    MulSign(d, a);
  }

  lemma MulSign(d: int, a: nat)
    requires a > 0
    ensures d >= 1 ==> d * a >= a
    ensures d <= -1 ==> d * a + a <= 0
  {
  }

  /** The least positive period. */
  lemma LeastPeriod() returns (r: nat)
    ensures 0 < r <= 32767 && Power(r) == One
    ensures forall k :: 0 < k < r ==> Power(k) != One
  {
    FullCycle();
    r := 1;
    while Power(r) != One
      invariant 0 < r <= 32767
      invariant forall k :: 0 < k < r ==> Power(k) != One
      decreases 32767 - r
    {
      r := r + 1;
    }
  }

  /** x^n = 1 exactly for the multiples of the least period. */
  lemma PeriodDivides(r: nat, n: nat)
    requires 0 < r && Power(r) == One
    requires forall k :: 0 < k < r ==> Power(k) != One
    ensures Power(n) == One <==> n % r == 0
  {
    PowerPeriodic(r, n);
    PowerNext(0);
  }

  ghost predicate IsPrime(p: nat) {
    p > 1 && forall m :: 1 < m < p ==> p % m != 0
  }

  lemma NoSmallFactor(p: nat, c: nat)
    requires p == 7 || p == 31 || p == 151
    requires 1 < c < 13 && c < p
    ensures p % c != 0
  {
    if c == 2 {} else if c == 3 {} else if c == 4 {} else if c == 5 {} else if c == 6 {} else if c == 7 {}
    else if c == 8 {} else if c == 9 {} else if c == 10 {} else if c == 11 {} else {}
  }

  lemma Product169(c: nat, d: nat)
    ensures c >= 13 && d >= 13 ==> c * d >= 169
  {
    if c >= 13 && d >= 13 {
      assert c * d >= 13 * d;
    }
  }

  lemma Primes(p: nat)
    requires p == 7 || p == 31 || p == 151
    ensures IsPrime(p)
  {
    forall m | 1 < m < p ensures p % m != 0 {
      var d := p / m;
      assert m * d + p % m == p;
      Product169(m, d);
      if m < 13 {
        NoSmallFactor(p, m);
      } else if d > 1 {
        NoSmallFactor(p, d);
        if p % m == 0 {
          Unique(p, d, m, 0);
        }
      }
    }
  }

  /** Euclid's lemma, by the least multiplier of `b` that `p` divides. */
  lemma PrimeDivides(p: nat, a: nat, b: nat)
    requires IsPrime(p) && (a * b) % p == 0 && a % p != 0
    ensures b % p == 0
  {
    var m := 1;
    Unique(p * b, p, b, 0);
    while (m * b) % p != 0
      invariant 1 <= m <= p
      invariant forall k :: 1 <= k < m ==> (k * b) % p != 0
      decreases p - m
    {
      m := m + 1;
    }
    LeastMultiplier(p, b, m, a);
    LeastMultiplier(p, b, m, p);
    assert m == 1 || m == p;
    assert m == 1;
  }

  lemma Remainder(a: nat, b: nat, m: nat, p: nat, q: nat, r: nat, u: nat, v: nat)
    requires m * b == u * p && a * b == v * p && a == q * m + r
    ensures r * b == (v - q * u) * p
  {
    assert (q * m + r) * b == q * (m * b) + r * b;
    assert q * (u * p) == (q * u) * p;
    assert (v - q * u) * p == v * p - (q * u) * p;
  }

  lemma LeastMultiplier(p: nat, b: nat, m: nat, a: nat)
    requires p > 0 && m > 0 && (m * b) % p == 0 && (a * b) % p == 0
    requires forall k :: 1 <= k < m ==> (k * b) % p != 0
    ensures a % m == 0
  {
    var q, r := a / m, a % m;
    var u, v := m * b / p, a * b / p;
    assert m * b == u * p && a * b == v * p;
    Remainder(a, b, m, p, q, r, u, v);
    MulSign(v - q * u, p);
    assert v - q * u >= 0;
    Unique(r * b, p, v - q * u, 0);
    assert r == 0;
  }

  lemma Cancel(p: nat, x: nat, y: nat)
    requires p > 0 && p * x == p * y
    ensures x == y
  {
  }

  lemma NotMultiple(p: nat, r: nat, k: nat, rest: nat)
    requires p > 0 && r > 0 && r * k == p * rest && rest % r != 0
    ensures k % p != 0
  {
    var j := k / p;
    if k == p * j {
      assert r * k == p * (r * j);
      Cancel(p, r * j, rest);
      Unique(j * r, r, j, 0);
    }
  }

  /** If `r` misses none of `p`'s contribution, `p` divides `a`'s side of `a * k == p * n`. */
  lemma Peel(p: nat, r: nat, a: nat, k: nat, n: nat, rest: nat) returns (a': nat)
    requires IsPrime(p) && r > 0
    requires a * k == p * n && r * k == p * rest && rest % r != 0
    ensures a == p * a' && a' * k == n
  {
    NotMultiple(p, r, k, rest);
    Unique(k * a, p, n, 0);
    PrimeDivides(p, k, a);
    a' := a / p;
    assert a * k == p * (a' * k) by { assert a == p * a'; }
    Cancel(p, a' * k, n);
  }

  lemma UnitFactor(c: nat, k: nat)
    requires c * k == 1
    ensures k == 1
  {
    if c > 0 && k > 0 {
      MulSign(c, k);
    }
  }

  /** A divisor of 7 * 31 * 151 that divides no product of two of the primes is the whole product. */
  lemma OnlyFullDivisor(r: nat, k: nat)
    requires r > 0 && r * k == 32767
    requires 4681 % r != 0 && 1057 % r != 0 && 217 % r != 0
    ensures r == 32767
  {
    Primes(7);
    Primes(31);
    Primes(151);
    var a := Peel(7, r, r, k, 4681, 4681);
    var b := Peel(31, r, a, k, 151, 1057);
    var c := Peel(151, r, b, k, 1, 217);
    assert c * k == 1;
    UnitFactor(c, k);
  }

  /** x has order exactly 32767. */
  lemma OrderOfX(n: nat)
    ensures Power(n) == One <==> n % 32767 == 0
  {
    var r := LeastPeriod();
    FullCycle();
    NotPeriod4681();
    NotPeriod1057();
    NotPeriod217();
    PeriodDivides(r, 32767);
    PeriodDivides(r, 4681);
    PeriodDivides(r, 1057);
    PeriodDivides(r, 217);
    var k := 32767 / r;
    assert r * k == 32767;
    OnlyFullDivisor(r, k);
    PeriodDivides(r, n);
  }

  /** Two flipped bits, `distance` apart. */
  ghost function TwoBits(before: nat, distance: nat, after: nat): seq<bool>
    requires distance > 0
  {
    Zeros(before) + [true] + Zeros(distance - 1) + [true] + Zeros(after)
  }

  lemma TwoBitRegister(before: nat, distance: nat, after: nat)
    requires distance > 0
    ensures Feed(Zeros(16), TwoBits(before, distance, after)) == Zeros(16) <==> Power(distance) == One
  {
    var a, b, c := Zeros(before), Zeros(distance - 1), Zeros(after);
    FeedConcat(Zeros(16), a + [true] + b + [true], c);
    FeedConcat(Zeros(16), a + [true] + b, [true]);
    FeedConcat(Zeros(16), a + [true], b);
    FeedConcat(Zeros(16), a, [true]);
    ZerosKeepNonzero(Zeros(16), before);
    assert Feed(Zeros(16), [true]) == One by {
      FillRegister([true]);
    }
    var p := Power(distance - 1);
    PowerNext(distance - 1);
    var w := Step(p, true);
    assert Feed(p, [true]) == w by { assert [true][..0] == []; }
    ZerosKeepNonzero(w, after);
    assert w == Xor(Power(distance), One) by {
      forall t | 0 <= t < 16 ensures w[t] == Xor(Power(distance), One)[t] {
        StepBit(p, true, t);
        StepBit(p, false, t);
      }
    }
    if w == Zeros(16) {
      forall t | 0 <= t < 16 ensures Power(distance)[t] == One[t] {
        assert Xor(Power(distance), One)[t] == Zeros(16)[t];
      }
    }
  }

  /** Two flipped bits change the checksum exactly when their distance is not a multiple of 32767. */
  lemma DoubleErrorDetected(data: seq<Byte>, data': seq<Byte>, before: nat, distance: nat, after: nat)
    requires distance > 0 && |data| == |data'| && before + distance + 1 + after == 8 * |data|
    requires Bits(data') == Xor(Bits(data), TwoBits(before, distance, after))
    ensures Checksum(data') != Checksum(data) <==> distance % 32767 != 0
  {
    MissedError(data, data', TwoBits(before, distance, after));
    TwoBitRegister(before, distance, after);
    OrderOfX(distance);
  }

  /** In particular every double error in a full-sized packet payload of 992 bytes is seen. */
  lemma DoubleErrorInPacket(data: seq<Byte>, data': seq<Byte>, before: nat, distance: nat, after: nat)
    requires distance > 0 && |data| == |data'| <= 992 && before + distance + 1 + after == 8 * |data|
    requires Bits(data') == Xor(Bits(data), TwoBits(before, distance, after))
    ensures Checksum(data') != Checksum(data)
  {
    DoubleErrorDetected(data, data', before, distance, after);
  }
}
