/** js_dtoa_max_len: for which numbers the announced length suffices. */
module Lengths {
  import opened Limbs
  import opened Rounding
  import opened Bignum
  import opened Scaling
  import opened Ratios
  import opened Doubles
  import opened Atod
  import opened Numerals
  import opened Dtoa
  import opened Logs
  import opened Layout
  import opened Printing
  import opened Formats
  import opened Writer

  /** x * 2^-1074, rounded to `n` digits, is not below 10^-k. */
  predicate NotBelow(x: nat, n: nat, k: nat) {
    2 * (x * Power(10, n + k)) + Pow2(1074) >= 2 * Power(10, n) * Pow2(1074)
  }

  /** The announced length suffices: not for a zero in fractional format with an exponent and several digits, and
      not for small subnormal numbers in fixed format without an exponent. */
  predicate Announced(a: nat, n: nat, fmt: Format, mode: ExpMode, minusZero: bool) {
    var neg, x := a >= SIGN_BIT, a % SIGN_BIT;
    match fmt
    case Free => true
    case Frac => x == 0 && mode.Enabled? ==> n + |SignText(neg && minusZero)| <= 4
    case Fixed => 0 < x < Pow2(52) && mode.Disabled? ==> NotBelow(x, n, 318 - |SignText(neg)|)
  }

  // ----- the decimal exponent of a subnormal number

  lemma AwayAtLeast(n: nat, d: nat, t: nat)
    requires d > 0
    ensures RoundDiv(n, d, NearestAway) >= t <==> 2 * n + d >= 2 * t * d
  {
    hide RoundDiv;
    DivMod(n, d);
    RoundBy(n, d, n / d, n % d, NearestAway);
    AwayParts(n, d, t, n / d, n % d);
  }

  lemma AwayParts(n: nat, d: nat, t: nat, q: nat, r: nat)
    requires d > 0 && n == q * d + r && r < d
    ensures RoundParts(q, r, d, NearestAway) >= t <==> 2 * n + d >= 2 * t * d
  {
    assert 2 * t * d == 2 * (t * d);
    Distribute(q, 1, d);
    if t <= q {
      MulMono(t, q, d);
    } else if t > q + 1 {
      MulMono(q + 2, t, d);
      Distribute(q, 2, d);
    }
  }

  /** 10^b <= 2^(e-1), with both powers below 1. */
  lemma LogBelow(e: int, k: nat)
    requires e <= 1
    ensures TenBelow(e - 1, 0 - k) <==> Pow2(1 - e) <= Power(10, k)
  {
    ZeroShift();
    PowerOne(10);
    hide Pow2, Power;
  }

  /** The ratio that is rounded, for an exponent `k` places behind the point. */
  lemma SubnormalRatio(m: nat, e: int, x: nat, n: nat, k: nat)
    requires e < E_MIN && m == x * Pow2(E_MIN - e)
    ensures Num(m, e - MANT_BITS, 10, n + k) == m * Power(10, n + k) && Den(e - MANT_BITS, 10, n + k) == Pow2(53 - e)
    ensures Num(m, e - MANT_BITS, 10, n + k) == x * Power(10, n + k) * Pow2(E_MIN - e)
    ensures Den(e - MANT_BITS, 10, n + k) == Pow2(1074) * Pow2(E_MIN - e)
  {
    ZeroShift();
    PowerOne(10);
    Pow2Add(1074, E_MIN - e);
    hide Pow2, Power;
    var z, t := Pow2(E_MIN - e), Power(10, n + k);
    assert x * z * t == x * t * z by { MulAssoc(x, z, t); MulAssoc(x, t, z); }
  }

  /** At the exponent before, the rounded number has a digit too many. */
  lemma OverflowsIf(m: nat, e: int, x: nat, n: nat, k: nat)
    requires e < E_MIN && m == x * Pow2(E_MIN - e)
    ensures Mant(m, e, n, 0 - k, NearestAway) >= Power(10, n) <==> NotBelow(x, n, k)
  {
    hide Power, Pow2, RoundDiv, Num, Den;
    SubnormalRatio(m, e, x, n, k);
    DenPositive(e - MANT_BITS, 10, n + k);
    AwayAtLeast(Num(m, e - MANT_BITS, 10, n + k), Den(e - MANT_BITS, 10, n + k), Power(10, n));
    ZeroShift();
    Cancelled(x * Power(10, n + k), Power(10, n), Pow2(1074), Pow2(E_MIN - e));
  }

  lemma Cancelled(v: nat, t: nat, d: nat, z: nat)
    requires z > 0
    ensures 2 * (v * z) + d * z >= 2 * t * (d * z) <==> 2 * v + d >= 2 * t * d
  {
    Distribute(2 * v, d, z);
    MulAssoc(2, v, z);
    MulAssoc(2 * t, d, z);
    ScaleOrder(2 * t * d, 2 * v + d, z);
  }

  lemma Above(m: nat, e: int, x: nat, n: nat, k: nat)
    requires Pow2(52) <= m && e < E_MIN && m == x * Pow2(E_MIN - e) && Pow2(1 - e) <= Power(10, k)
    ensures Mant(m, e, n, 0 - k, NearestAway) >= Power(10, n)
  {
    hide Power, Pow2, RoundDiv, Num, Den;
    SubnormalRatio(m, e, x, n, k);
    DenPositive(e - MANT_BITS, 10, n + k);
    var d := Den(e - MANT_BITS, 10, n + k);
    RoundBounds(Num(m, e - MANT_BITS, 10, n + k), d, Power(10, n), NearestAway);
    PowerAdd(10, n, k);
    Pow2Add(52, 1 - e);
    AboveParts(m, Pow2(52), Power(10, n), Power(10, k), Pow2(1 - e));
  }

  lemma AboveParts(m: nat, c: nat, t: nat, p: nat, q: nat)
    requires c <= m && q <= p
    ensures t * (c * q) <= m * (t * p)
  {
    MulMono(q, p, t);
    MulMono(c, m, t * q);
    MulMono(t * q, t * p, m);
    assert t * (c * q) == c * (t * q);
  }

  lemma Below(m: nat, e: int, x: nat, n: nat, k: nat)
    requires m < Pow2(53) && n >= 1 && e < E_MIN && m == x * Pow2(E_MIN - e) && Pow2(1 - e) > Power(10, k + 1)
    ensures Mant(m, e, n, 0 - k, NearestAway) < Power(10, n)
  {
    HalfPower(53);
    PowerOne(10);
    hide Power, Pow2, RoundDiv, Num, Den;
    SubnormalRatio(m, e, x, n, k);
    DenPositive(e - MANT_BITS, 10, n + k);
    var d := Den(e - MANT_BITS, 10, n + k);
    AwayAtLeast(Num(m, e - MANT_BITS, 10, n + k), d, Power(10, n));
    PowerAdd(10, n - 1, k + 1);
    PowerAdd(10, n - 1, 1);
    PowerPositive(10, n - 1);
    Pow2Add(52, 1 - e);
    BelowParts(m, Pow2(52), Power(10, n - 1), Power(10, k + 1), Pow2(1 - e));
  }

  lemma BelowParts(m: nat, c: nat, t: nat, p: nat, q: nat)
    requires m < 2 * c && p < q && t > 0
    ensures 2 * (m * (t * p)) + c * q < 2 * (10 * t) * (c * q)
  {
    var d, tp, tq := c * q, t * p, t * q;
    MulMono(p, q, t);
    MulMono(m, 2 * c, tp);
    MulMono(tp, tq, 2 * c);
    TwiceParts(c, t, q);
    TenTwice(t, d);
    MulMono(1, t, d);
    MulPositive(c, q);
    TwiceBelow(m * tp, d, t * d);
  }

  lemma TwiceParts(c: nat, t: nat, q: nat)
    ensures (2 * c) * (t * q) == 2 * (t * (c * q))
  {
    FourFactors(2, c, t, q);
    MulAssoc(2, t, c * q);
  }

  lemma TenTwice(t: nat, d: nat)
    ensures 2 * (10 * t) * d == 20 * (t * d)
  {
    MulAssoc(20, t, d);
  }

  lemma TwiceBelow(x: nat, d: nat, y: nat)
    requires x <= 2 * y && d <= y && d > 0
    ensures 2 * x + d < 20 * y
  {
  }

  /** The decimal exponent of a subnormal number that is rounded to `n` digits is above -k exactly if the rounded
      number is not below 10^-k. */
  lemma FixedExpFrom(m: nat, e: int, x: nat, n: nat, k: nat)
    requires Double(m, e) && e < E_MIN && m == x * Pow2(E_MIN - e) && n >= 1
    ensures FixedExp(m, e, n) > 0 - k <==> NotBelow(x, n, k)
  {
    hide Power, Pow2, Exp0, Mant, FloorLog, NotBelow, Double;
    DoubleExponent(m, e);
    Exp0Is(e);
    Exp0Subnormal(e);
    OverflowsIf(m, e, x, n, k);
    var b := -Exp0(e);
    FirstEstimate(e, b);
    if b < k {
      PowerMonotone(10, b + 1, k);
      Above(m, e, x, n, k);
    } else if b > k {
      PowerMonotone(10, k + 1, b);
      Below(m, e, x, n, k);
    }
  }

  lemma FirstEstimate(e: int, b: nat)
    requires e < E_MIN && FloorLog(e - 1, 0 - b - 1)
    ensures Power(10, b) < Pow2(1 - e) <= Power(10, b + 1)
  {
    LogBelow(e, b);
    LogBelow(e, b + 1);
    hide TenBelow;
  }

  // ----- the bound

  /** A subnormal pattern counts quanta. */
  lemma SubnormalQuanta(x: nat)
    requires 0 < x < Pow2(52)
    ensures x < INFINITY
    ensures var (m, e) := Unpack(x); Double(m, e) && e < E_MIN && m == x * Pow2(E_MIN - e)
  {
    Pow52();
    SubnormalUnpacked(x);
    UnpackIs(x);
    DivideIs(x, Pow2(52), 0, x);
    hide Pow2;
    ZeroShift();
    if Clz64(x) - 11 == 0 { Top(x); }
  }

  lemma Top(x: nat)
    requires 0 < x < Pow2(52)
    ensures x < TWO64 && Clz64(x) > 11
  {
    SubnormalExponent(x);
  }

  /** What is missing of the announced length is nothing exactly if it suffices. */
  lemma MissingNone(a: nat, n: nat, fmt: Format, mode: ExpMode, minusZero: bool)
    requires a < TWO64 && a % SIGN_BIT < INFINITY && DigitsAsked(fmt, n)
    ensures Missing(a, n, fmt, mode, minusZero) == 0 <==> Announced(a, n, fmt, mode, minusZero)
  {
    hide Pow2, Unpack, FixedExp, NotBelow, Double;
    var neg, x := a >= SIGN_BIT, a % SIGN_BIT;
    if 0 < x {
      MissingIs(a, n, fmt, mode, minusZero);
      if x < Pow2(52) {
        SubnormalQuanta(x);
        if fmt.Fixed? { FixedExpFrom(Unpack(x).0, Unpack(x).1, x, n, 318 - |SignText(neg)|); }
      } else {
        UnpackExponent(x);
        NormalField(x);
      }
    }
  }

  lemma NormalField(x: nat)
    requires x >= Pow2(52)
    ensures Field(x) > 0
  {
    Pow52();
    hide Pow2;
    DivMod(x, Pow2(52));
  }

  /** js_dtoa_max_len is a bound of the length of the text exactly for these arguments. */
  lemma MaxLenIsBound(a: nat, n: nat, fmt: Format, mode: ExpMode, minusZero: bool, t: string, mant: nat, p: nat, exp: int)
    requires a < TWO64 && DigitsAsked(fmt, n) && Output(a, n, fmt, mode, minusZero, t, mant, p, exp)
    ensures |t| <= MaxLen(a, n, fmt, mode) <==> a % SIGN_BIT >= INFINITY || Announced(a, n, fmt, mode, minusZero)
    ensures a % SIGN_BIT < INFINITY && !Announced(a, n, fmt, mode, minusZero) ==> |t| == MaxLen(a, n, fmt, mode) + Missing(a, n, fmt, mode, minusZero)
  {
    hide Pow2, Unpack, MaxLen, Missing, Announced, Body, BodyRoom, ZeroText, SignText;
    var neg, x := a >= SIGN_BIT, a % SIGN_BIT;
    if x >= INFINITY {
      SignLength(neg);
      AtLeastNine(a, n, fmt, mode);
    } else {
      MissingNone(a, n, fmt, mode, minusZero);
      if x == 0 {
        RoomForZero(a, n, fmt, mode, minusZero);
      } else {
        RoomForBody(a, n, fmt, mode, minusZero);
        var (m, e) := Unpack(x);
        BodyLength(m, e, n, fmt, mode, t[|SignText(neg)|..], mant, p, exp);
      }
    }
  }

  lemma BodyLength(m: nat, e: int, n: nat, fmt: Format, mode: ExpMode, t: string, mant: nat, p: nat, exp: int)
    requires Double(m, e) && DigitsAsked(fmt, n) && Body(m, e, n, fmt, mode, t, mant, p, exp)
    ensures |t| <= BodyRoom(m, e, n, fmt, mode) && (fmt.Fixed? ==> |t| == BodyRoom(m, e, n, fmt, mode))
  {
    hide Double, FixedText, FracText, FreeSpace, Mant, Exp0;
    if fmt.Frac? { FractionLength(m, e, n); }
  }

  lemma FractionLength(m: nat, e: int, n: nat)
    requires Double(m, e)
    ensures |FracText(Mant(m, e, n, 0, NearestAway), n)| <= MaxNat(Exp0(e) + 1, 1) + n + 1
  {
    DoubleFits(m, e);
    Exp0Is(e);
    hide Double, FracText, Mant, Exp0, FloorLog, Power, Written, WithDot, Trim;
    var before := MaxNat(Exp0(e) + 1, 1);
    var v := Mant(m, e, n, 0, NearestAway);
    FracRange(m, e, Exp0(e), n);
    FracDigits(v, before, n);
    WithDotLength(Written(v, before + n), before);
  }

  /** -0 with four digits behind the point and an exponent: ten characters, where nine are announced. */
  lemma ZeroTooLong()
    ensures MaxLen(SIGN_BIT, 4, Frac, Enabled) == 9
    ensures |ZeroText(true, 4, Frac, Enabled, true)| == 10
  {
    Pow52();
    hide Pow2, NumberText;
    DivideIs(0, Pow2(52), 0, 0);
    ZeroLength(4, Frac, Enabled);
  }

  /** The smallest subnormal number with 101 digits and without an exponent is longer than announced. */
  lemma SubnormalTooLong()
    ensures |FixedText(Unpack(1).0, Unpack(1).1, 101, Disabled)| > MaxLen(1, 101, Fixed, Disabled)
  {
    SmallestExponent();
    Pow52();
    hide Pow2, Unpack, FixedText, Double;
    DivideIs(1, Pow2(52), 0, 1);
    UnpackIs(1);
    FixedLength(Unpack(1).0, Unpack(1).1, 101, Disabled);
    assert FixedExp(Unpack(1).0, -1073, 101) <= Exp0(-1073) + 1 == -322;
  }

  lemma SmallestExponent()
    ensures Unpack(1).1 == -1073
  {
    Pow52();
    hide Pow2;
    DivideIs(1, Pow2(52), 0, 1);
    assert Log2(1) == 0;
  }
}
