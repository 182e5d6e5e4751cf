/** The fast path of js_dtoa for small integers writes what the search for the shortest digits would find. */
module FastPath {
  import opened Limbs
  import opened Rounding
  import opened Bignum
  import opened Scaling
  import opened Ratios
  import opened Doubles
  import opened Atod
  import opened Numerals
  import opened Dtoa
  import opened Printing
  import opened Layout

  // ----- integers below 2^53 are doubles

  /** An integer is read as itself. */
  lemma IntegerReads(v: nat, m: nat, e: int)
    requires Double(m, e) && 1 <= e <= 53 && m == v * Pow2(53 - e)
    ensures ReadsBack(v, 0, m, e)
  {
    ZeroShift();
    hide Pow2, Rounded, Double;
    var s := Pow2(53 - e);
    NumDenZero(v, 10, 0);
    PowerOne(10);
    NearReads(m, s, m, e, 1);
    RoundedRatio(m, s, Num(v, 0, 10, 0), Den(0, 10, 0), m, e);
  }

  /** An integer that is read as a double below 2^53 is that double. */
  lemma IntegerRead(v: nat, m: nat, e: int)
    requires Double(m, e) && 1 <= e <= 53 && v > 0 && ReadsBack(v, 0, m, e)
    ensures m == v * Pow2(53 - e)
  {
    DoubleExponent(m, e);
    hide Pow2, Rounded, Double, ReadsBack;
    ReadInteger(v, m, e);
    SmallerThan53(v, m, e);
    var k := Log2(v);
    LogBelow53(v, k);
    IsAligned(v, k);
    IntegerReads(v, v * Pow2(52 - k), k + 1);
    ReadInteger(v, v * Pow2(52 - k), k + 1);
    RoundedUnique(v, 1, m, e, v * Pow2(52 - k), k + 1);
  }

  lemma LogBelow53(v: nat, k: nat)
    requires Pow2(k) <= v < Pow2(53)
    ensures k <= 52
  {
    hide Pow2;
    if k >= 53 { Pow2Monotone(53, k); }
  }

  lemma ReadInteger(v: nat, m: nat, e: int)
    ensures ReadsBack(v, 0, m, e) <==> Rounded(v, 1, m, e)
  {
    PowerOne(10);
    NumDenZero(v, 10, 0);
    hide Rounded;
  }

  lemma IsAligned(v: nat, k: nat)
    requires Pow2(k) <= v < Pow2(k + 1) && k <= 52
    ensures Double(v * Pow2(52 - k), k + 1)
  {
    hide Pow2;
    Pow2Add(k, 52 - k);
    Pow2Add(k + 1, 52 - k);
    MulMono(Pow2(k), v, Pow2(52 - k));
    ScaleOrder(v, Pow2(k + 1), Pow2(52 - k));
  }

  lemma SmallerThan53(v: nat, m: nat, e: int)
    requires m > 0 && e <= 53 && Rounded(v, 1, m, e)
    ensures v < Pow2(53)
  {
    ZeroShift();
    hide Pow2, SameNumber, InUnits;
    var b :| Binade(v, 1, b) && RoundedIn(v, 1, b, m, e);
    BinadeAbove(v, 1, b, 53);
  }

  // ----- trailing zeros

  lemma {:induction false} Strip(v: nat) returns (mant: nat, z: nat)
    requires v > 0
    ensures v == mant * Power(10, z) && mant % 10 != 0
    decreases v
  {
    PowerOne(10);
    if v % 10 != 0 {
      return v, 0;
    }
    mant, z := Strip(v / 10);
    TimesTen(v, mant, Power(10, z));
    z := z + 1;
  }

  lemma TimesTen(v: nat, mant: nat, t: nat)
    requires v % 10 == 0 && v / 10 == mant * t
    ensures v == mant * (10 * t)
  {
    assert mant * (10 * t) == 10 * (mant * t);
  }

  lemma StripLength(v: nat, mant: nat, z: nat)
    requires v > 0 && v == mant * Power(10, z)
    ensures mant > 0 && Len(v) == Len(mant) + z && Power(10, Len(mant) - 1) <= mant < Power(10, Len(mant))
  {
    hide Power;
    Times0(Power(10, z));
    var p := Len(mant);
    LenBounds(mant);
    PowerPositive(10, z);
    PowerAdd(10, p, z);
    PowerAdd(10, p - 1, z);
    MulMono(Power(10, p - 1), mant, Power(10, z));
    ScaleOrder(mant, Power(10, p), Power(10, z));
    LenIs(v, p + z);
  }

  /** Of two ways of writing a number the one with the larger mantissa ends in a zero. */
  lemma SameIntegers(a: nat, x: nat, b: nat, y: nat)
    requires a * Power(10, x) == b * Power(10, y) && a < b
    ensures b % 10 == 0
  {
    hide Power;
    if x <= y {
      NotSmaller(a, x, b, y - x);
    } else {
      EndsInZero(a, x - y, b, y);
    }
  }

  lemma NotSmaller(a: nat, x: nat, b: nat, k: nat)
    requires a * Power(10, x) == b * Power(10, x + k)
    ensures a >= b
  {
    hide Power;
    PowerPositive(10, x);
    PowerPositive(10, k);
    PowerAdd(10, k, x);
    NotSmallerParts(a, b, Power(10, x), Power(10, k));
  }

  lemma NotSmallerParts(a: nat, b: nat, t: nat, u: nat)
    requires t > 0 && u > 0 && a * t == b * (u * t)
    ensures a >= b
  {
    MulAssoc(b, u, t);
    ScaleOrder(a, b * u, t);
    MulMono(1, u, b);
  }

  lemma EndsInZero(a: nat, k: nat, b: nat, y: nat)
    requires k > 0 && a * Power(10, k + y) == b * Power(10, y)
    ensures b % 10 == 0
  {
    hide Power;
    PowerPositive(10, y);
    PowerAdd(10, k, y);
    PowerAdd(10, 1, k - 1);
    PowerOne(10);
    EndsInZeroParts(a, b, Power(10, k - 1), Power(10, y));
  }

  lemma EndsInZeroParts(a: nat, b: nat, u: nat, t: nat)
    requires t > 0 && a * ((10 * u) * t) == b * t
    ensures b % 10 == 0
  {
    MulAssoc(a, 10 * u, t);
    ScaleOrder(a * (10 * u), b, t);
    MulAssoc(a, 10, u);
    TenDivides(a, u, b);
  }

  lemma TenDivides(a: nat, t: nat, b: nat)
    requires b == (a * 10) * t
    ensures b % 10 == 0
  {
    assert (a * 10) * t == 10 * (a * t);
  }

  // ----- the digits of the integer are the shortest ones

  /** 2^(e-1) <= v < 2^e, in decimal. */
  lemma LenOfInteger(v: nat, e: nat, exp0: int)
    requires e >= 1 && Pow2(e - 1) <= v < Pow2(e) && FloorLog(e - 1, exp0 - 1)
    ensures exp0 >= 1 && (Len(v) == exp0 || Len(v) == exp0 + 1)
  {
    PowerOne(10);
    ZeroShift();
    FloorLogRange(e - 1, exp0 - 1);
    hide Power, Pow2;
    TenBelowAt(e - 1, exp0 - 1, e - 1, 0, exp0 - 1, 0);
    TenBelowAt(e - 1, exp0, e - 1, 0, exp0, 0);
    HalfPower(e);
    LenBounds(v);
    var k := Len(v);
    PowerAdd(10, exp0, 1);
    if k < exp0 { PowerMonotone(10, k, exp0 - 1); }
    if k > exp0 + 1 { PowerMonotone(10, exp0 + 1, k - 1); }
  }

  /** The digits of a small integer, without trailing zeros, meet the contract of the search. */
  lemma IntegerShortest(m: nat, e: int, exp0: int, v: nat) returns (mant: nat, p: nat)
    requires Double(m, e) && 1 <= e <= 53 && m == v * Pow2(53 - e) && FloorLog(e - 1, exp0 - 1)
    ensures Shortest(m, e, exp0, mant, p, Len(v)) && p <= Len(v) <= 16 && v == mant * Power(10, Len(v) - p)
  {
    IntegerRange(m, e, v);
    LenOfInteger(v, e, exp0);
    SmallInteger(v, e);
    hide *;
    var z;
    mant, z := Strip(v);
    StripLength(v, mant, z);
    p := Len(mant);
    StrippedShortest(m, e, exp0, v, mant, p);
  }

  lemma StrippedShortest(m: nat, e: int, exp0: int, v: nat, mant: nat, p: nat)
    requires Double(m, e) && 1 <= e <= 53 && m == v * Pow2(53 - e) && FloorLog(e - 1, exp0 - 1) && v > 0
    requires 1 <= p <= Len(v) <= 16 && v == mant * Power(10, Len(v) - p) && (Len(v) == exp0 || Len(v) == exp0 + 1)
    requires Power(10, p - 1) <= mant < Power(10, p) && mant % 10 != 0
    ensures Shortest(m, e, exp0, mant, p, Len(v))
  {
    hide Power, Pow2, Double, FloorLog, ReadsBack, Mant, Settled, Len, Suffices;
    IntegerReads(v, m, e);
    ReadsBackTens(mant, 0, m, e, Len(v) - p);
    PowerOne(10);
    IntegerSettles(m, e, exp0, v, mant, p, Len(v));
    forall q: nat | p <= q <= DTOA_MAX_DIGITS ensures Suffices(m, e, exp0, q) {
      IntegerSuffices(m, e, exp0, v, mant, p, q, Len(v));
    }
    if p > 1 {
      SettledRange(m, e, p - 1, exp0);
      TrialFailsIf(m, e, p - 1, exp0);
      FewerNotRead(m, e, exp0, mant, p, v, Settled(m, e, p - 1, exp0, NearestEven));
    }
  }

  /** An integer is its own rounded value, in units of 10^k that divide it. */
  lemma IntegerMant(m: nat, e: int, v: nat, mant: nat, p: nat, k: int)
    requires 1 <= e <= 53 && m == v * Pow2(53 - e) && v * Power(10, Up(-k)) == mant * Power(10, Up(k))
    ensures Mant(m, e, p, p + k, NearestEven) == mant
  {
    ZeroShift();
    hide Power, Pow2, RoundDiv;
    DenPositive(e - MANT_BITS, 10, -k);
    var n, d := Num(m, e - MANT_BITS, 10, -k), Den(e - MANT_BITS, 10, -k);
    assert n == m * Power(10, Up(-k)) && d == Pow2(53 - e) * Power(10, Up(k));
    IntegerParts(v, Pow2(53 - e), Power(10, Up(-k)), mant, Power(10, Up(k)));
    RoundNear(n, d, mant);
  }

  lemma IntegerParts(v: nat, b: nat, x: nat, mant: nat, y: nat)
    requires v * x == mant * y
    ensures (v * b) * x == mant * (b * y)
  {
    FourFactors(v, b, x, 1);
    FourFactors(mant, 1, y, b);
  }

  /** The digits of an integer, with zeros behind them. */
  lemma IntegerSettles(m: nat, e: int, exp0: int, v: nat, mant: nat, q: nat, len: nat)
    requires 1 <= e <= 53 && m == v * Pow2(53 - e) && v * Power(10, Up(q - len)) == mant * Power(10, Up(len - q)) && (len == exp0 || len == exp0 + 1)
    requires q >= 1 && Power(10, q - 1) <= mant < Power(10, q)
    ensures len == Settled(m, e, q, exp0, NearestEven) && mant == Mant(m, e, q, len, NearestEven)
  {
    hide Mant, Power, Pow2;
    PowerOne(10);
    PowerAdd(10, 1, q - 1);
    IntegerMant(m, e, v, mant, q, len - q);
    OneTenMore(v, mant, len - q);
    IntegerMant(m, e, v, 10 * mant, q, len - q - 1);
  }

  lemma OneTenMore(v: nat, mant: nat, k: int)
    requires v * Power(10, Up(-k)) == mant * Power(10, Up(k))
    ensures v * Power(10, Up(1 - k)) == (10 * mant) * Power(10, Up(k - 1))
  {
    PowerOne(10);
    hide Power;
    if k >= 1 {
      PowerAdd(10, 1, k - 1);
      FourFactors(mant, 10, Power(10, k - 1), 1);
      MulAssoc(mant, 10, Power(10, k - 1));
      assert mant * 10 == 10 * mant;
    } else {
      PowerAdd(10, 1, -k);
      MulAssoc(v, 10, Power(10, -k));
      assert v * (10 * Power(10, -k)) == 10 * (v * Power(10, -k));
    }
  }

  /** With zeros behind them the digits are read back as well. */
  lemma IntegerSuffices(m: nat, e: int, exp0: int, v: nat, mant: nat, p: nat, q: nat, len: nat)
    requires 1 <= e <= 53 && m == v * Pow2(53 - e) && 1 <= p <= len && p <= q && v == mant * Power(10, len - p) && (len == exp0 || len == exp0 + 1)
    requires Power(10, p - 1) <= mant < Power(10, p) && ReadsBack(mant, len - p, m, e)
    ensures Suffices(m, e, exp0, q)
  {
    hide Mant, Power, Pow2, ReadsBack, Settled;
    var mant' := mant * Power(10, q - p);
    PowerPositive(10, q - p);
    PowerAdd(10, p, q - p);
    PowerAdd(10, p - 1, q - p);
    ScaleOrder(mant, Power(10, p), Power(10, q - p));
    MulMono(Power(10, p - 1), mant, Power(10, q - p));
    PowerAdd(10, len - p, Up(q - len));
    PowerAdd(10, q - p, Up(len - q));
    MulAssoc(mant, Power(10, len - p), Power(10, Up(q - len)));
    MulAssoc(mant, Power(10, q - p), Power(10, Up(len - q)));
    IntegerSettles(m, e, exp0, v, mant', q, len);
    ReadsBackTens(mant, len - q, m, e, q - p);
  }

  lemma TrialFailsIf(m: nat, e: int, q: nat, exp0: int)
    ensures var exp := Settled(m, e, q, exp0, NearestEven);
            Suffices(m, e, exp0, q) <==> ReadsBack(Mant(m, e, q, exp, NearestEven), exp - q, m, e)
  {
    hide Mant, Settled, ReadsBack;
  }

  lemma SettledRange(m: nat, e: int, p: nat, exp0: int)
    ensures var exp1 := Settled(m, e, p, exp0, NearestEven); exp1 == exp0 || exp1 == exp0 + 1
  {
    hide Mant, Power;
  }

  lemma FewerNotRead(m: nat, e: int, exp0: int, mant: nat, p: nat, v: nat, exp1: int)
    requires Double(m, e) && 1 <= e <= 53 && m == v * Pow2(53 - e) && FloorLog(e - 1, exp0 - 1) && v > 0
    requires p > 1 && exp1 == Settled(m, e, p - 1, exp0, NearestEven) && exp1 >= p - 1
    requires Power(10, p - 1) <= mant && mant % 10 != 0 && p <= Len(v) && v == mant * Power(10, Len(v) - p)
    ensures !ReadsBack(Mant(m, e, p - 1, exp1, NearestEven), exp1 - (p - 1), m, e)
  {
    hide Power, Pow2, Double, FloorLog, ReadsBack, Mant, Settled;
    var mant1, k := Mant(m, e, p - 1, exp1, NearestEven), exp1 - (p - 1);
    MantSettles(m, e, p - 1, exp0, NearestEven);
    if ReadsBack(mant1, k, m, e) {
      ReadsBackTens(mant1, 0, m, e, k);
      PowerPositive(10, p - 2);
      PowerPositive(10, k);
      MulPositive(mant1, Power(10, k));
      IntegerRead(mant1 * Power(10, k), m, e);
      Pow2Positive(53 - e);
      ScaleOrder(v, mant1 * Power(10, k), Pow2(53 - e));
      SameIntegers(mant1, k, mant, Len(v) - p);
    }
  }

  lemma Pow2Positive(n: nat)
    ensures Pow2(n) > 0
  {
    ZeroShift();
    Pow2Monotone(0, n);
  }

  lemma IntegerRange(m: nat, e: int, v: nat)
    requires Double(m, e) && 1 <= e <= 53 && m == v * Pow2(53 - e)
    ensures Pow2(e - 1) <= v < Pow2(e) && v > 0
  {
    DoubleExponent(m, e);
    hide Pow2, Double;
    Pow2Positive(53 - e);
    Pow2Positive(e - 1);
    Pow2Add(e - 1, 53 - e);
    Pow2Add(e, 53 - e);
    ScaleOrder(v, Pow2(e), Pow2(53 - e));
    ScaleOrder(v, Pow2(e - 1), Pow2(53 - e));
  }

  lemma SmallInteger(v: nat, e: int)
    requires 1 <= e <= 53 && v < Pow2(e)
    ensures Len(v) <= 16
  {
    SixteenDigits();
    hide Pow2, Power;
    Pow2Monotone(e, 53);
    LenSmall(v, 16);
  }

  /** And they are written the same. */
  lemma IntegerText(v: nat, mant: nat, p: nat, mode: ExpMode)
    requires v > 0 && 1 <= p <= Len(v) <= 16 && v == mant * Power(10, Len(v) - p) && !mode.Enabled?
    ensures NumberText(mant, p, Len(v), mode, 21) == DecimalText(v)
  {
    hide Power, Written;
    var z := Len(v) - p;
    WrittenSplit(v, Len(v), z);
    DivideIs(v, Power(10, z), mant, 0);
    WrittenZero(z);
    WithDotWhole(Written(mant, p));
  }

  lemma {:induction false} WrittenZero(n: nat)
    ensures Written(0, n) == Zeros(n)
  {
    if n > 0 {
      WrittenZero(n - 1);
      WrittenNext(0, n - 1);
      hide Written;
      assert Zeros(n) == Zeros(n - 1) + "0";
    } else {
      assert Written(0, 0) == Zeros(0);
    }
  }
}
