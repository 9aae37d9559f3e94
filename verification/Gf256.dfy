module Gf256 {
  import opened Bytes

  /** Multiplication by the polynomial x modulo 0x11d. */
  function Xtime(a: Byte): Byte {
    seq(8, i requires 0 <= i < 8 =>
      if i == 0 then a[7] else if 2 <= i <= 4 then a[i - 1] != a[7] else a[i - 1])
  }

  function Iter(i: nat, a: Byte): Byte
    decreases i, a
  {
    if i == 0 then a else Xtime(Iter(i - 1, a))
  }

  /** The powers of the generator 2. */
  function Pow(i: nat): Byte { Iter(i, ONE) }

  lemma XtimeInjective(a: Byte, b: Byte)
    requires Xtime(a) == Xtime(b)
    ensures a == b
  {
    assert Xtime(a)[0] == Xtime(b)[0];
    forall i | 0 <= i < 7 ensures a[i] == b[i] {
      assert Xtime(a)[i + 1] == Xtime(b)[i + 1];
    }
  }

  lemma {:induction false} IterAdd(i: nat, j: nat, a: Byte)
    ensures Iter(i + j, a) == Iter(i, Iter(j, a))
  {
    if i > 0 { IterAdd(i - 1, j, a); }
  }

  lemma {:induction false} IterLinear(i: nat, a: Byte, b: Byte)
    ensures Iter(i, Xor(a, b)) == Xor(Iter(i, a), Iter(i, b))
  {
    if i > 0 {
      IterLinear(i - 1, a, b);
    }
  }

  lemma {:induction false} IterZero(i: nat)
    ensures Iter(i, ZERO) == ZERO
  {
    if i > 0 { IterZero(i - 1); }
  }

  lemma {:induction false} IterInjective(i: nat, a: Byte, b: Byte)
    requires Iter(i, a) == Iter(i, b)
    ensures a == b
  {
    if i > 0 {
      XtimeInjective(Iter(i - 1, a), Iter(i - 1, b));
      IterInjective(i - 1, a, b);
    }
  }

  // ---- The order of the generator is 255

  /** The eight bits by name, most significant first: the form in which powers are evaluated. */
  datatype Oct = Oct(b7: bool, b6: bool, b5: bool, b4: bool, b3: bool, b2: bool, b1: bool, b0: bool) {
    function Double(): Oct { Oct(b6, b5, b4, b3 != b7, b2 != b7, b1 != b7, b0, b7) }
    function Plus(o: Oct): Oct {
      Oct(b7 != o.b7, b6 != o.b6, b5 != o.b5, b4 != o.b4, b3 != o.b3, b2 != o.b2, b1 != o.b1, b0 != o.b0)
    }
    function Double8(): Oct { Double().Double().Double().Double().Double().Double().Double().Double() }
    /** Multiplication by x^3 + x. */
    function TimesPow51(): Oct { Double().Double().Double().Plus(Double()) }
  }

  function OctOf(a: Byte): Oct { Oct(a[7], a[6], a[5], a[4], a[3], a[2], a[1], a[0]) }

  ghost predicate At(i: nat, o: Oct) { OctOf(Pow(i)) == o }

  lemma OctInjective(a: Byte, b: Byte)
    requires OctOf(a) == OctOf(b)
    ensures a == b
  {
    assert a[0] == b[0] && a[1] == b[1] && a[2] == b[2] && a[3] == b[3];
    assert a[4] == b[4] && a[5] == b[5] && a[6] == b[6] && a[7] == b[7];
  }

  lemma DoubleBits(a: Byte)
    ensures OctOf(Xtime(a)) == OctOf(a).Double()
  {}

  lemma PlusBits(a: Byte, b: Byte)
    ensures OctOf(Xor(a, b)) == OctOf(a).Plus(OctOf(b))
  {}

  lemma Next(i: nat, o: Oct)
    requires At(i, o)
    ensures At(i + 1, o.Double())
  {
    DoubleBits(Pow(i));
  }

  lemma Next8(i: nat, o: Oct)
    requires At(i, o)
    ensures At(i + 8, o.Double8())
  {
    Next(i, o);
    Next(i + 1, o.Double());
    Next(i + 2, o.Double().Double());
    Next(i + 3, o.Double().Double().Double());
    Next(i + 4, o.Double().Double().Double().Double());
    Next(i + 5, o.Double().Double().Double().Double().Double());
    Next(i + 6, o.Double().Double().Double().Double().Double().Double());
    Next(i + 7, o.Double().Double().Double().Double().Double().Double().Double());
  }

  lemma At16()
    ensures At(16, Oct(false, true, false, false, true, true, false, false))
  {
    Next8(0, Oct(false, false, false, false, false, false, false, true));
    Next8(8, Oct(false, false, false, true, true, true, false, true));
  }

  lemma At32()
    ensures At(32, Oct(true, false, false, true, true, true, false, true))
  {
    At16();
    Next8(16, Oct(false, true, false, false, true, true, false, false));
    Next8(24, Oct(true, false, false, false, true, true, true, true));
  }

  lemma At48()
    ensures At(48, Oct(false, true, false, false, false, true, true, false))
  {
    At32();
    Next8(32, Oct(true, false, false, true, true, true, false, true));
    Next8(40, Oct(false, true, true, false, true, false, true, false));
  }

  lemma At51()
    ensures At(51, Oct(false, false, false, false, true, false, true, false))
  {
    At48();
    Next(48, Oct(false, true, false, false, false, true, true, false));
    Next(49, Oct(true, false, false, false, true, true, false, false));
    Next(50, Oct(false, false, false, false, false, true, false, true));
  }

  /** Pow(51) is x^3 + x. */
  lemma Pow51()
    ensures Pow(51) == Xor(Pow(3), Pow(1))
  {
    At51();
    Next(0, Oct(false, false, false, false, false, false, false, true));
    Next(1, Oct(false, false, false, false, false, false, true, false));
    Next(2, Oct(false, false, false, false, false, true, false, false));
    PlusBits(Pow(3), Pow(1));
    OctInjective(Pow(51), Xor(Pow(3), Pow(1)));
  }

  lemma Recurrence(i: nat)
    ensures Pow(i + 51) == Xor(Pow(i + 3), Pow(i + 1))
  {
    Pow51();
    IterAdd(i, 51, ONE);
    IterLinear(i, Pow(3), Pow(1));
    IterAdd(i, 3, ONE);
    IterAdd(i, 1, ONE);
  }

  /** So fifty-one doublings are three shifts, one shift and one sum. */
  lemma Next51(i: nat, o: Oct)
    requires At(i, o)
    ensures At(i + 51, o.TimesPow51())
  {
    Recurrence(i);
    Next(i, o);
    Next(i + 1, o.Double());
    Next(i + 2, o.Double().Double());
    PlusBits(Pow(i + 3), Pow(i + 1));
  }

  lemma At85()
    ensures At(85, Oct(true, true, false, true, false, true, true, false))
  {
    At32();
    Next(32, Oct(true, false, false, true, true, true, false, true));
    Next(33, Oct(false, false, true, false, false, true, true, true));
    Next51(34, Oct(false, true, false, false, true, true, true, false));
  }

  lemma At153()
    ensures At(153, Oct(true, false, false, true, false, false, true, false))
  {
    At51();
    Next51(51, Oct(false, false, false, false, true, false, true, false));
    Next51(102, Oct(false, true, false, false, false, true, false, false));
  }

  lemma At255()
    ensures At(255, Oct(false, false, false, false, false, false, false, true))
  {
    At153();
    Next51(153, Oct(true, false, false, true, false, false, true, false));
    Next51(204, Oct(true, true, false, true, true, true, false, true));
  }

  lemma Landmarks()
    ensures !Period(15) && !Period(51) && !Period(85) && Period(255)
  {
    if Period(15) { At16(); Next(15, Oct(false, false, false, false, false, false, false, true)); }
    At51();
    At85();
    At255();
    OctInjective(Pow(255), ONE);
  }

  ghost predicate Period(d: nat) { Pow(d) == ONE }

  lemma PeriodRest(d: nat, m: nat)
    requires Period(d) && Period(m) && d <= m
    ensures Period(m - d)
  {
    IterAdd(m - d, d, ONE);
  }

  lemma {:induction false} PeriodMultiple(d: nat, k: nat)
    requires Period(d)
    ensures Period(k * d)
  {
    if k > 0 {
      PeriodMultiple(d, k - 1);
      assert k * d == (k - 1) * d + d;
      IterAdd((k - 1) * d, d, ONE);
    }
  }

  lemma PeriodRemainder(d: nat, m: nat)
    requires 0 < d && Period(d) && Period(m)
    ensures Period(m % d)
  {
    PeriodMultiple(d, m / d);
    assert m == (m / d) * d + m % d;
    PeriodRest((m / d) * d, m);
  }

  lemma {:induction false} Multiple(d: nat, n: nat)
    requires 0 < d && n % d == 0 && Period(d)
    ensures Period(n)
  {
    PeriodMultiple(d, n / d);
  }

  lemma SmallFactor(d: nat, q: nat)
    requires d <= 15 && q * d == 255
    ensures d == 1 || d == 3 || d == 5 || d == 15
  {
    assert d <= 3 || d == 4 || d == 5 || d == 6 || d == 7 || d == 8 || d == 9 || d == 10 || d >= 11;
  }

  /** A proper divisor of 255 divides 15, 51 or 85. */
  lemma ProperDivisors(d: nat)
    requires 0 < d < 255 && 255 % d == 0
    ensures 15 % d == 0 || 51 % d == 0 || 85 % d == 0
  {
    var q := 255 / d;
    assert q * d == 255;
    if d <= 15 { SmallFactor(d, q); } else { SmallFactor(q, d); }
  }

  lemma ProperDivisor(d: nat)
    requires 0 < d < 255 && 255 % d == 0
    ensures !Period(d)
  {
    ProperDivisors(d);
    Landmarks();
    if Period(d) {
      if 15 % d == 0 { Multiple(d, 15); }
      else if 51 % d == 0 { Multiple(d, 51); }
      else { Multiple(d, 85); }
    }
  }

  /** No positive power below 255 is one: a shorter period would leave a divisor of 255 as a period. */
  lemma {:induction false} NoShortPeriod(d: nat)
    requires 0 < d < 255
    ensures !Period(d)
  {
    if 255 % d == 0 {
      ProperDivisor(d);
    } else {
      NoShortPeriod(255 % d);
      Landmarks();
      if Period(d) { PeriodRemainder(d, 255); }
    }
  }

  // ---- Discrete logarithms

  lemma {:induction false} PowInjective(i: nat, j: nat)
    requires i < j < 255
    ensures Pow(i) != Pow(j)
  {
    if Pow(i) == Pow(j) {
      IterAdd(i, j - i, ONE);
      IterInjective(i, ONE, Pow(j - i));
      NoShortPeriod(j - i);
    }
  }

  lemma {:induction false} PowNonzero(i: nat)
    ensures Pow(i) != ZERO
  {
    if Pow(i) == ZERO {
      IterZero(i);
      IterInjective(i, ONE, ZERO);
    }
  }

  function Below(n: nat): (s: set<nat>)
    ensures forall x: nat :: x in s <==> x < n
    ensures |s| == n
  {
    if n == 0 then {} else Below(n - 1) + {n - 1}
  }

  function Elements(f: seq<nat>): (s: set<nat>)
    requires forall i, j :: 0 <= i < j < |f| ==> f[i] != f[j]
    ensures forall x: nat :: x in s <==> x in f
    ensures |s| == |f|
  {
    if f == [] then {}
    else
      var rest := f[1..];
      assert f[0] !in rest;
      assert f == [f[0]] + rest;
      Elements(rest) + {f[0]}
  }

  /** n distinct numbers from 1 to n are all of them. */
  lemma Pigeonhole(f: seq<nat>, x: nat)
    requires forall i, j :: 0 <= i < j < |f| ==> f[i] != f[j]
    requires forall i :: 0 <= i < |f| ==> 0 < f[i] <= |f|
    requires 0 < x <= |f|
    ensures x in f
  {
    var have, all := Elements(f), Below(|f| + 1) - {0};
    assert have <= all && |all - have| == |all| - |have|;
    assert all <= have;
  }

  function PowValue(i: nat): (v: nat)
    ensures 0 < v <= 255
  {
    PowNonzero(i);
    ValBound(Pow(i));
    ValZero(Pow(i));
    Val(Pow(i))
  }

  lemma PowValueInjective(i: nat, j: nat)
    requires i < j < 255
    ensures PowValue(i) != PowValue(j)
  {
    PowInjective(i, j);
    if PowValue(i) == PowValue(j) { ValInjective(Pow(i), Pow(j)); }
  }

  /** Every nonzero byte is a power of the generator: 255 distinct powers fill 255 places. */
  lemma LogExists(a: Byte)
    requires a != ZERO
    ensures exists i: nat :: i < 255 && Pow(i) == a
  {
    var f := seq(255, i requires 0 <= i => PowValue(i));
    forall i, j | 0 <= i < j < 255 ensures f[i] != f[j] { PowValueInjective(i, j); }
    ValBound(a);
    ValZero(a);
    Pigeonhole(f, Val(a));
    var i :| 0 <= i < 255 && f[i] == Val(a);
    ValInjective(Pow(i), a);
  }

  /** The exponent of a nonzero byte. */
  ghost function Dlog(a: Byte): (i: nat)
    requires a != ZERO
    ensures i < 255 && Pow(i) == a
  {
    LogExists(a);
    var i: nat :| i < 255 && Pow(i) == a;
    i
  }

  // ---- Multiplication

  function MulBits(a: Byte, bits: seq<bool>): Byte
    decreases bits
  {
    if bits == [] then ZERO
    else Xor(if bits[0] then a else ZERO, Xtime(MulBits(a, bits[1..])))
  }

  /** Product of two polynomials over GF(2) modulo 0x11d, one bit of `b` at a time. */
  function Mul(a: Byte, b: Byte): Byte { MulBits(a, b) }

  lemma {:induction false} MulBitsXtime(a: Byte, bits: seq<bool>)
    ensures MulBits(Xtime(a), bits) == Xtime(MulBits(a, bits))
    decreases bits
  {
    if bits != [] {
      MulBitsXtime(a, bits[1..]);
    }
  }

  lemma {:induction false} MulBitsIter(i: nat, a: Byte, bits: seq<bool>)
    ensures MulBits(Iter(i, a), bits) == Iter(i, MulBits(a, bits))
  {
    if i > 0 {
      MulBitsIter(i - 1, a, bits);
      MulBitsXtime(Iter(i - 1, a), bits);
    }
  }

  function Pad(bits: seq<bool>): Byte
    requires |bits| <= 8
  {
    bits + seq(8 - |bits|, _ => false)
  }

  lemma {:induction false} MulBitsOne(bits: seq<bool>)
    requires |bits| <= 8
    ensures MulBits(ONE, bits) == Pad(bits)
  {
    if bits != [] {
      MulBitsOne(bits[1..]);
    }
  }

  lemma MulOne(b: Byte)
    ensures Mul(ONE, b) == b
  {
    MulBitsOne(b);
    assert Pad(b) == b;
  }

  /** Multiplying by a power of the generator is repeated doubling. */
  lemma MulPow(i: nat, b: Byte)
    ensures Mul(Pow(i), b) == Iter(i, b)
  {
    MulBitsIter(i, ONE, b);
    MulOne(b);
  }

  lemma {:induction false} MulBitsZero(bits: seq<bool>)
    ensures MulBits(ZERO, bits) == ZERO
  {
    if bits != [] { MulBitsZero(bits[1..]); }
  }

  lemma MulZero(b: Byte)
    ensures Mul(ZERO, b) == ZERO && Mul(b, ZERO) == ZERO
  {
    MulBitsZero(b);
    if b != ZERO {
      MulPow(Dlog(b), ZERO);
      IterZero(Dlog(b));
    }
  }

  lemma MulComm(a: Byte, b: Byte)
    ensures Mul(a, b) == Mul(b, a)
  {
    MulZero(a);
    MulZero(b);
    if a != ZERO && b != ZERO {
      var i, j := Dlog(a), Dlog(b);
      MulPow(i, b);
      MulPow(j, a);
      IterAdd(i, j, ONE);
      IterAdd(j, i, ONE);
    }
  }

  lemma MulPowPow(i: nat, j: nat)
    ensures Mul(Pow(i), Pow(j)) == Pow(i + j)
  {
    MulPow(i, Pow(j));
    IterAdd(i, j, ONE);
  }

  lemma MulAssocPow(i: nat, j: nat, c: Byte)
    ensures Mul(Mul(Pow(i), Pow(j)), c) == Mul(Pow(i), Mul(Pow(j), c))
  {
    MulPowPow(i, j);
    MulPow(i + j, c);
    MulPow(j, c);
    MulPow(i, Iter(j, c));
    IterAdd(i, j, c);
  }

  lemma MulAssoc(a: Byte, b: Byte, c: Byte)
    ensures Mul(Mul(a, b), c) == Mul(a, Mul(b, c))
  {
    if a == ZERO {
      MulZero(b); MulZero(c); MulZero(Mul(b, c));
    } else if b == ZERO {
      MulZero(a); MulZero(c);
    } else {
      MulAssocPow(Dlog(a), Dlog(b), c);
    }
  }

  lemma MulXor(a: Byte, b: Byte, c: Byte)
    ensures Mul(a, Xor(b, c)) == Xor(Mul(a, b), Mul(a, c))
  {
    if a == ZERO {
      MulZero(b); MulZero(c); MulZero(Xor(b, c)); XorZero(ZERO);
    } else {
      var i := Dlog(a);
      MulPow(i, b); MulPow(i, c); MulPow(i, Xor(b, c));
      IterLinear(i, b, c);
    }
  }

  lemma MulOneRight(a: Byte)
    ensures Mul(a, ONE) == a
  {
    MulOne(a);
    MulComm(a, ONE);
  }

  // ---- Division

  ghost function Inverse(b: Byte): (r: Byte)
    requires b != ZERO
    ensures Mul(r, b) == ONE
  {
    var i := Dlog(b);
    MulPowPow(255 - i, i);
    Landmarks();
    Pow(255 - i)
  }

  ghost function Div(a: Byte, b: Byte): (q: Byte)
    requires b != ZERO
    ensures Mul(q, b) == a
  {
    MulAssoc(a, Inverse(b), b);
    MulOneRight(a);
    Mul(a, Inverse(b))
  }
}
