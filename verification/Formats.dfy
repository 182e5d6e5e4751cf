/** js_dtoa with a given number of digits: P significant ones (toPrecision) or n behind the point (toFixed). */
module Formats {
  import opened Limbs
  import opened Rounding
  import opened Bignum
  import opened Scaling
  import opened Ratios
  import opened Doubles
  import opened Atod
  import opened Numerals
  import opened Dtoa

  const MANT_LEN_MAX := 18
  const JS_DTOA_MAX_DIGITS := 101

  // ----- mpb_cmp

  /** A number without a leading zero limb has that many limbs. */
  lemma NormalLow(s: seq<limb>)
    requires |s| > 1 && s[|s| - 1] != 0
    ensures Value(s) >= Power(BASE, |s| - 1)
  {
    hide Value, Power;
    assert s[..|s| - 1] + [s[|s| - 1]] == s;
    ValueAppend(s[..|s| - 1], s[|s| - 1]);
    MulMono(1, s[|s| - 1], Power(BASE, |s| - 1));
  }

  lemma FewerLimbs(s: seq<limb>, t: seq<limb>)
    requires |s| < |t| && |t| > 1 && t[|t| - 1] != 0
    ensures Value(s) < Value(t)
  {
    hide Value, Power;
    ValueBound(s);
    PowerMonotone(BASE, |s|, |t| - 1);
    NormalLow(t);
  }

  /** The highest limb that differs decides. */
  lemma FirstDifference(s: seq<limb>, t: seq<limb>, i: nat)
    requires |s| == |t| && i < |s| && s[i] < t[i] && s[i + 1..] == t[i + 1..]
    ensures Value(s) < Value(t)
  {
    hide Value, Power;
    ValueSplit(s, i + 1);
    ValueSplit(t, i + 1);
    ValuePrefix(s, i);
    ValuePrefix(t, i);
    ValueBound(s[..i]);
    MulMono(s[i] + 1, t[i], Power(BASE, i));
    Distribute(s[i], 1, Power(BASE, i));
  }

  function Order(x: nat, y: nat): int {
    if x < y then -1 else if x == y then 0 else 1
  }

  /** mpb_cmp: -1, 0 or 1 */
  method Compare(a: Mpb, b: Mpb) returns (c: int)
    requires a.Valid() && b.Valid() && a.Normal() && b.Normal()
    ensures c == Order(a.Val(), b.Val())
  {
    hide Value, Power;
    ghost var s, t := a.tab[..a.len], b.tab[..b.len];
    if a.len < b.len {
      FewerLimbs(s, t);
      return -1;
    } else if a.len > b.len {
      FewerLimbs(t, s);
      return 1;
    }
    c := CompareLimbs(a.tab, b.tab, a.len);
  }

  /** The highest index at which the limbs differ, or -1. */
  method HighestDifference(a: array<limb>, b: array<limb>, n: nat) returns (i: int)
    requires n <= a.Length && n <= b.Length
    ensures -1 <= i < n && (forall k :: i < k < n ==> a[k] == b[k]) && (i >= 0 ==> a[i] != b[i])
  {
    i := n - 1;
    while i >= 0 && a[i] == b[i]
      invariant -1 <= i < n && forall k :: i < k < n ==> a[k] == b[k]
    {
      i := i - 1;
    }
  }

  lemma DifferenceDecides(s: seq<limb>, t: seq<limb>, i: int)
    requires |s| == |t| && -1 <= i < |s| && (forall k :: i < k < |s| ==> s[k] == t[k]) && (i >= 0 ==> s[i] != t[i])
    ensures Order(Value(s), Value(t)) == if i < 0 then 0 else if s[i] < t[i] then -1 else 1
  {
    hide Value;
    if i < 0 {
      assert s == t;
    } else {
      assert s[i + 1..] == t[i + 1..];
      if s[i] < t[i] { FirstDifference(s, t, i); } else { FirstDifference(t, s, i); }
    }
  }

  method CompareLimbs(a: array<limb>, b: array<limb>, n: nat) returns (c: int)
    requires n <= a.Length && n <= b.Length
    ensures c == Order(Value(a[..n]), Value(b[..n]))
  {
    hide Value, Order;
    var i := HighestDifference(a, b, n);
    DifferenceDecides(a[..n], b[..n], i);
    c := if i < 0 then 0 else if a[i] < b[i] then -1 else 1;
  }

  // ----- a given number of significant digits

  /** mant_max = 10^p */
  method PowerOfTen(mantMax: Mpb, p: nat)
    requires 1 <= p <= JS_DTOA_MAX_DIGITS && mantMax.tab.Length == MANT_LEN_MAX
    modifies mantMax, mantMax.tab
    ensures mantMax.Valid() && mantMax.Normal() && mantMax.tab == old(mantMax.tab) && mantMax.Val() == Power(10, p)
  {
    DigitsLow();
    hide Value, Power, Pow2, DigitsPerLimb, RoundDiv;
    mantMax.SetU64(1);
    var powShift: int;
    ghost var s: nat;
    powShift, s := MulPow(mantMax, 5, 1, p, false, 0);
    mantMax.ShrRound(powShift, TowardZero);
    PowerMul(5, 2, p);
    Pow2Is(p);
  }

  lemma FixedRoom(e: int, p: nat, exp: int, exp0: int)
    requires -1073 <= e <= 1024 && 1 <= p <= JS_DTOA_MAX_DIGITS && FloorLog(e - 1, exp0 - 1) && (exp == exp0 || exp == exp0 + 1)
    ensures RoundRoom(e - 53, 5, 1, p - exp) <= DBIGNUM_LEN_MAX
  {
    hide FloorLog;
    FloorLogRange(e - 1, exp0 - 1);
    DigitsLow();
    hide DigitsPerLimb;
  }

  /** js_dtoa, fixed format: `p` digits of the number, rounded half away from zero, and its decimal exponent.
      The loop goes round at most once more. */
  method FixedFormat(tmp1: Mpb, mantMax: Mpb, m: nat, e: int, exp0: int, p: nat) returns (exp: int)
    requires Double(m, e) && 1 <= p <= JS_DTOA_MAX_DIGITS && FloorLog(e - 1, exp0 - 1)
    requires tmp1 != mantMax && tmp1.tab != mantMax.tab && tmp1.tab.Length == DBIGNUM_LEN_MAX && mantMax.tab.Length == MANT_LEN_MAX
    modifies tmp1, tmp1.tab, mantMax, mantMax.tab
    ensures tmp1.Valid() && tmp1.Normal() && tmp1.tab == old(tmp1.tab)
    ensures exp == Settled(m, e, p, exp0, NearestAway) && tmp1.Val() == Mant(m, e, p, exp, NearestAway)
    ensures Power(10, p - 1) <= tmp1.Val() < Power(10, p) && (exp == exp0 || exp == exp0 + 1)
  {
    hide Power, Pow2, Value, FloorLog, Double, Num, Den, RoundDiv, RoundRoom;
    DoubleFits(m, e);
    MantSettles(m, e, p, exp0, NearestAway);
    TwiceFive();
    PowerOfTen(mantMax, p);
    exp := exp0;
    while true
      invariant exp == exp0 || (exp == exp0 + 1 && Mant(m, e, p, exp0, NearestAway) >= Power(10, p))
      invariant tmp1.tab == old(tmp1.tab) && mantMax.tab == old(mantMax.tab)
      invariant mantMax.Valid() && mantMax.Normal() && mantMax.Val() == Power(10, p)
      decreases exp0 + 1 - exp
    {
      FixedRoom(e, p, exp, exp0);
      MulPowRound(tmp1, m, e - 53, 5, 1, p - exp, NearestAway);
      assert mantMax.Val() == Power(10, p);
      var c := Compare(tmp1, mantMax);
      if c < 0 {
        return;
      }
      exp := exp + 1;
    }
  }

  // ----- a given number of digits behind the point

  function MaxNat(a: int, b: nat): nat {
    if a > b then a else b
  }

  /** The number in units of its last digit: it has at most exp0 + 1 digits before the point, and if exp0 is
      positive at least exp0. */
  lemma FracRange(m: nat, e: int, exp0: int, n: nat)
    requires Double(m, e) && FloorLog(e - 1, exp0 - 1)
    ensures var f := Mant(m, e, n, 0, NearestAway);
            && f < Power(10, MaxNat(exp0 + 1, 1) + n)
            && (exp0 >= 1 ==> f >= Power(10, exp0 - 1 + n))
  {
    hide Power, Pow2, RoundDiv, Num, Den, FloorLog;
    var num, den := Num(m, e - MANT_BITS, 10, n), Den(e - MANT_BITS, 10, n);
    DenPositive(e - MANT_BITS, 10, n);
    PowerOne(10);
    if exp0 + n >= 1 {
      var p := exp0 + n;
      MantRange(m, e, p, exp0);
      RoundBounds(num, den, Power(10, p - 1), NearestAway);
      RoundBounds(num, den, 2 * Power(10, p), NearestAway);
      PowerAdd(10, 1, p);
      PowerPositive(10, p);
      PowerMonotone(10, p + 1, MaxNat(exp0 + 1, 1) + n);
    } else {
      FracTiny(m, e, exp0, n);
    }
  }

  /** A number so small that it is rounded to 0 or to 1 in the last digit. */
  lemma FracTiny(m: nat, e: int, exp0: int, n: nat)
    requires Double(m, e) && FloorLog(e - 1, exp0 - 1) && exp0 + n <= 0
    ensures Mant(m, e, n, 0, NearestAway) < Power(10, 1 + n)
  {
    hide Power, Pow2, RoundDiv, Num, Den, FloorLog;
    var num, den := Num(m, e - MANT_BITS, 10, n), Den(e - MANT_BITS, 10, n);
    DenPositive(e - MANT_BITS, 10, n);
    PowerOne(10);
    MantRange(m, e, 1, exp0);
    NumGrows(m, e - MANT_BITS, n, 1 - exp0);
    RoundBounds(num, den, 2, NearestAway);
    PowerMonotone(10, 1, 1 + n);
  }

  /** A larger exponent multiplies by ten at least. */
  lemma NumGrows(m: nat, e: int, n: nat, n': nat)
    requires n < n'
    ensures Num(m, e, 10, n') >= 10 * Num(m, e, 10, n) && Den(e, 10, n') == Den(e, 10, n)
  {
    hide Power, Pow2;
    PowerOne(10);
    PowerAdd(10, 1, n);
    PowerMonotone(10, n + 1, n');
    var a := m * Pow2(Up(e));
    MulMono(10 * Power(10, n), Power(10, n'), a);
    assert a * (10 * Power(10, n)) == 10 * (a * Power(10, n));
  }

  /** js_dtoa, fractional format, up to the digits. */
  method FracFormat(tmp1: Mpb, m: nat, e: int, n: nat)
    requires Double(m, e) && n <= JS_DTOA_MAX_DIGITS && tmp1.tab.Length == DBIGNUM_LEN_MAX
    modifies tmp1, tmp1.tab
    ensures tmp1.Valid() && tmp1.Normal() && tmp1.tab == old(tmp1.tab) && tmp1.Val() == Mant(m, e, n, 0, NearestAway)
  {
    DoubleFits(m, e);
    TwiceFive();
    DigitsLow();
    hide Power, Pow2, Value, Double, Num, Den, RoundDiv, DigitsPerLimb;
    MulPowRound(tmp1, m, e - 53, 5, 1, n, NearestAway);
  }

  /** The digits of both formats: no integer is nearer to the number in units of the last digit, and of two
      that are equally near it is the larger one. */
  lemma MantIsNearest(m: nat, e: int, p: int, exp: int, k: nat)
    ensures var n, d, mant := Num(m, e - MANT_BITS, 10, p - exp), Den(e - MANT_BITS, 10, p - exp), Mant(m, e, p, exp, NearestAway);
            && d > 0 && Distance(mant * d, n) <= Distance(k * d, n)
            && (Distance(mant * d, n) == Distance(k * d, n) && k != mant ==> mant > k)
  {
    hide Num, Den, RoundDiv;
    DenPositive(e - MANT_BITS, 10, p - exp);
    RoundIsNearest(Num(m, e - MANT_BITS, 10, p - exp), Den(e - MANT_BITS, 10, p - exp), NearestAway, k);
  }
}
