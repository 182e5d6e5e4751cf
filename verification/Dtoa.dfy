/** js_dtoa, radix 10: the shortest digits that are read back, and correctly rounded digits. */
module Dtoa {
  import opened Limbs
  import opened Rounding
  import opened Bignum
  import opened Scaling
  import opened Ratios
  import opened Doubles
  import opened Atod
  import opened Numerals

  const DTOA_MAX_DIGITS := 17

  /** A finite double other than zero, m * 2^(e - 53), its mantissa aligned to 53 bits. */
  predicate Double(m: nat, e: int) {
    && Pow2(52) <= m < Pow2(53)
    && -1073 <= e <= 1024
    && (e < E_MIN ==> m % Pow2(E_MIN - e) == 0)
  }

  // ----- 2^a against 10^b

  predicate TenBelow(a: int, b: int) {
    Power(10, Up(b)) * Pow2(Up(-a)) <= Pow2(Up(a)) * Power(10, Up(-b))
  }

  /** b == floor(a * log10(2)), the value of mul_log2_radix. */
  predicate FloorLog(a: int, b: int) {
    TenBelow(a, b) && !TenBelow(a, b + 1)
  }

  /** The same comparison with other exponents of the same difference. */
  lemma TenBelowAt(a: int, b: int, a1: nat, a2: nat, b1: nat, b2: nat)
    requires a1 - a2 == a && b1 - b2 == b
    ensures TenBelow(a, b) <==> Power(10, b1) * Pow2(a2) <= Pow2(a1) * Power(10, b2)
  {
    hide Power, Pow2;
    var x, y := a2 - Up(-a), b2 - Up(-b);
    Pow2Add(Up(-a), x);
    Pow2Add(Up(a), x);
    PowerAdd(10, Up(-b), y);
    PowerAdd(10, Up(b), y);
    PowerPositive(10, y);
    var k := Pow2(x) * Power(10, y);
    MulPositive(Pow2(x), Power(10, y));
    TimesBoth(Power(10, Up(b)), Pow2(Up(-a)), Power(10, y), Pow2(x));
    TimesBoth(Pow2(Up(a)), Power(10, Up(-b)), Pow2(x), Power(10, y));
    assert Power(10, y) * Pow2(x) == k;
    ScaleOrder(Power(10, Up(b)) * Pow2(Up(-a)), Pow2(Up(a)) * Power(10, Up(-b)), k);
  }

  lemma TimesBoth(a: nat, b: nat, x: nat, y: nat)
    ensures (a * x) * (b * y) == (a * b) * (x * y)
  {
    FourFactors(a, b, x, y);
    FourFactors(a, x, b, y);
  }

  /** 8 < 10 < 16 */
  lemma {:induction false} TenBetween(n: nat)
    ensures Pow2(3 * n) <= Power(10, n) <= Pow2(4 * n)
  {
    SmallPow2();
    hide Power, Pow2;
    PowerOne(10);
    if n > 0 {
      TenBetween(n - 1);
      PowerAdd(10, 1, n - 1);
      Pow2Add(3, 3 * (n - 1));
      Pow2Add(4, 4 * (n - 1));
      assert 3 * n == 3 + 3 * (n - 1) && 4 * n == 4 + 4 * (n - 1);
    }
  }

  lemma Pow2Order(x: nat, y: nat)
    ensures Pow2(x) <= Pow2(y) <==> x <= y
  {
    if x <= y {
      Pow2Monotone(x, y);
    } else {
      Pow2Monotone(y, x - 1);
      HalfPower(x);
    }
  }

  /** The exponents of a double and of its digits are about in the ratio of 1 to log10(2). */
  lemma FloorLogRange(a: int, b: int)
    requires FloorLog(a, b)
    ensures b >= 0 ==> 3 * b <= a
    ensures b + 1 >= 0 ==> a < 4 * (b + 1)
    ensures b + 1 <= 0 ==> a < 3 * (b + 1)
    ensures b <= 0 ==> a >= 4 * b
  {
    hide TenBelow;
    if b >= 0 { RangeLow(a, b); }
    if b + 1 >= 0 { RangeHigh(a, b + 1); }
    if b + 1 <= 0 { RangeHighNegative(a, -b - 1); }
    if b <= 0 { RangeLowNegative(a, -b); }
  }

  lemma RangeLow(a: int, b: nat)
    requires TenBelow(a, b)
    ensures 3 * b <= a
  {
    hide Power, Pow2;
    PowerOne(10);
    TenBetween(b);
    MulMono(Pow2(3 * b), Power(10, b), Pow2(Up(-a)));
    Pow2Add(3 * b, Up(-a));
    Pow2Order(3 * b + Up(-a), Up(a));
  }

  lemma RangeHigh(a: int, b: nat)
    requires !TenBelow(a, b)
    ensures a < 4 * b
  {
    hide Power, Pow2;
    PowerOne(10);
    TenBetween(b);
    MulMono(Power(10, b), Pow2(4 * b), Pow2(Up(-a)));
    Pow2Add(4 * b, Up(-a));
    Pow2Order(4 * b + Up(-a), Up(a));
  }

  lemma RangeHighNegative(a: int, b: nat)
    requires !TenBelow(a, -(b as int))
    ensures a < -3 * (b as int)
  {
    hide Power, Pow2;
    PowerOne(10);
    TenBetween(b);
    MulMono(Pow2(3 * b), Power(10, b), Pow2(Up(a)));
    Pow2Add(3 * b, Up(a));
    Pow2Order(Up(-a), 3 * b + Up(a));
  }

  lemma RangeLowNegative(a: int, b: nat)
    requires TenBelow(a, -(b as int))
    ensures a >= -4 * (b as int)
  {
    hide Power, Pow2;
    PowerOne(10);
    TenBetween(b);
    MulMono(Power(10, b), Pow2(4 * b), Pow2(Up(a)));
    Pow2Add(4 * b, Up(a));
    Pow2Order(Up(-a), 4 * b + Up(a));
  }

  // ----- the digits of a given number

  /** m * 2^(e-53) * 10^(p-exp), rounded to an integer: p digits, if `exp` is the decimal exponent. */
  function Mant(m: nat, e: int, p: int, exp: int, mode: Mode): nat {
    DenPositive(e - MANT_BITS, 10, p - exp);
    RoundDiv(Num(m, e - MANT_BITS, 10, p - exp), Den(e - MANT_BITS, 10, p - exp), mode)
  }

  /** The decimal exponent that the inner loop settles on. */
  function Settled(m: nat, e: int, p: int, exp0: int, mode: Mode): int
    requires p >= 0
  {
    if Mant(m, e, p, exp0, mode) < Power(10, p) then exp0 else exp0 + 1
  }

  /** 10^(p-1) <= x * 10^(p-exp) < 2 * 10^p */
  lemma MantRange(m: nat, e: int, p: nat, exp: int)
    requires Double(m, e) && p >= 1 && FloorLog(e - 1, exp - 1)
    ensures var n, d := Num(m, e - MANT_BITS, 10, p - exp), Den(e - MANT_BITS, 10, p - exp);
            d > 0 && Power(10, p - 1) * d <= n < 2 * Power(10, p) * d
  {
    hide Power, Pow2;
    DenPositive(e - MANT_BITS, 10, p - exp);
    var up, down := Up(e - 53), Up(53 - e);
    var ten, one := Up(p - exp), Up(exp - p);
    Pow2Add(52, up);
    PowerAdd(10, p - 1, one);
    PowerAdd(10, p, one);
    TenBelowAt(e - 1, exp - 1, 52 + up, down, p - 1 + one, ten);
    TenBelowAt(e - 1, exp, 52 + up, down, p + one, ten);
    HalfPower(53);
    var t, q := Power(10, ten), Power(10, one);
    MantLow(m, Pow2(52), Pow2(up), t, Power(10, p - 1), q, Pow2(down));
    MantHigh(m, Pow2(52), Pow2(up), t, Power(10, p), q, Pow2(down));
  }

  lemma MantLow(m: nat, c: nat, up: nat, t: nat, p: nat, q: nat, down: nat)
    requires c <= m && (p * q) * down <= (c * up) * t
    ensures p * (down * q) <= m * up * t
  {
    MulMono(c, m, up * t);
    MulAssoc(c, up, t);
    MulAssoc(m, up, t);
    assert p * (down * q) == (p * q) * down;
  }

  lemma MantHigh(m: nat, c: nat, up: nat, t: nat, p: nat, q: nat, down: nat)
    requires m < 2 * c && (p * q) * down > (c * up) * t
    ensures m * up * t < 2 * p * (down * q)
  {
    MulMono(m, 2 * c, up * t);
    MulAssoc(m, up, t);
    MulAssoc(2 * c, up, t);
    assert (2 * c * up) * t == 2 * ((c * up) * t);
    assert 2 * p * (down * q) == 2 * ((p * q) * down);
  }

  /** The rounded ratio, from bounds on the ratio. */
  lemma RoundBounds(n: nat, d: nat, t: nat, mode: Mode)
    requires d > 0 && mode != TowardZero
    ensures t * d <= n ==> t <= RoundDiv(n, d, mode)
    ensures n < t * d ==> RoundDiv(n, d, mode) <= t
    ensures 2 * n + d > 2 * t * d ==> t <= RoundDiv(n, d, mode)
    ensures RoundDiv(n, d, mode) >= t ==> 2 * n + d >= 2 * t * d
  {
    DivMod(n, d);
    RoundBoundsParts(n, d, t, mode, n / d, n % d);
  }

  lemma RoundBoundsParts(n: nat, d: nat, t: nat, mode: Mode, q: nat, r: nat)
    requires d > 0 && mode != TowardZero && n == q * d + r && r < d
    ensures var x := RoundParts(q, r, d, mode);
            && (t * d <= n ==> t <= x) && (n < t * d ==> x <= t)
            && (2 * n + d > 2 * t * d ==> t <= x) && (x >= t ==> 2 * n + d >= 2 * t * d)
  {
    Distribute(q, 1, d);
    assert 2 * t * d == 2 * (t * d);
    if t <= q {
      MulMono(t, q, d);
    } else if t >= q + 2 {
      MulMono(q + 2, t, d);
      Distribute(q, 2, d);
    }
  }

  /** The inner loop goes round at most once more, and it finds exactly `p` digits. */
  lemma MantSettles(m: nat, e: int, p: nat, exp0: int, mode: Mode)
    requires Double(m, e) && p >= 1 && FloorLog(e - 1, exp0 - 1) && mode != TowardZero
    ensures Mant(m, e, p, exp0, mode) <= 2 * Power(10, p)
    ensures var exp := Settled(m, e, p, exp0, mode); Power(10, p - 1) <= Mant(m, e, p, exp, mode) < Power(10, p)
  {
    hide Power, Pow2, RoundDiv, Num, Den, FloorLog;
    var n, d := Num(m, e - MANT_BITS, 10, p - exp0), Den(e - MANT_BITS, 10, p - exp0);
    MantRange(m, e, p, exp0);
    RoundBounds(n, d, Power(10, p - 1), mode);
    RoundBounds(n, d, 2 * Power(10, p), mode);
    RoundBounds(n, d, Power(10, p), mode);
    PowerOne(10);
    PowerAdd(10, p - 1, 1);
    PowerPositive(10, p - 1);
    if Mant(m, e, p, exp0, mode) >= Power(10, p) {
      TenFewer(m, e, p, exp0, mode);
      var d10 := 10 * d;
      RoundBounds(n, d10, Power(10, p - 1), mode);
      RoundBounds(n, d10, 2 * Power(10, p - 1), mode);
      TenTimes(n, d, Power(10, p - 1));
    }
  }

  lemma TenTimes(n: nat, d: nat, t: nat)
    requires 2 * n + d >= 2 * (10 * t) * d && n < 2 * (10 * t) * d && d > 0
    ensures 2 * n + 10 * d > 2 * t * (10 * d) && n < 2 * t * (10 * d)
  {
    assert 2 * (10 * t) * d == 20 * (t * d) && 2 * t * (10 * d) == 20 * (t * d);
  }

  /** One decimal exponent more is a tenth of the ratio. */
  lemma TenFewer(m: nat, e: int, p: int, exp: int, mode: Mode)
    ensures var n, d := Num(m, e - MANT_BITS, 10, p - exp), Den(e - MANT_BITS, 10, p - exp);
            d > 0 && Mant(m, e, p, exp + 1, mode) == RoundDiv(n, 10 * d, mode)
  {
    hide Power, Pow2, RoundDiv;
    var f := p - exp;
    DenPositive(e - MANT_BITS, 10, f);
    DenPositive(e - MANT_BITS, 10, f - 1);
    var n, d := Num(m, e - MANT_BITS, 10, f), Den(e - MANT_BITS, 10, f);
    var n1, d1 := Num(m, e - MANT_BITS, 10, f - 1), Den(e - MANT_BITS, 10, f - 1);
    PowerOne(10);
    PowerAdd(10, 1, Up(f - 1));
    PowerAdd(10, 1, Up(-f));
    TenFewerParts(m, Pow2(Up(e - 53)), Pow2(Up(53 - e)), Power(10, Up(f)), Power(10, Up(-f)), Power(10, Up(f - 1)), Power(10, Up(1 - f)));
    RoundRatio(n1, d1, n, 10 * d, mode);
  }

  lemma TenFewerParts(m: nat, a: nat, b: nat, u: nat, v: nat, u1: nat, v1: nat)
    requires (u == 10 * u1 && v == v1) || (u == u1 && v1 == 10 * v)
    ensures (m * a * u1) * (10 * (b * v)) == (m * a * u) * (b * v1)
  {
    var x := m * a;
    if u == 10 * u1 && v == v1 {
      assert x * (10 * u1) == 10 * (x * u1);
      assert (x * u1) * (10 * (b * v)) == (10 * (x * u1)) * (b * v);
    } else {
      assert b * (10 * v) == 10 * (b * v);
    }
  }

  // ----- reading back

  /** mant * 10^k is read as the double m * 2^(e-53). */
  ghost predicate ReadsBack(mant: nat, k: int, m: nat, e: int) {
    DenPositive(0, 10, k);
    Rounded(Num(mant, 0, 10, k), Den(0, 10, k), m, e)
  }

  lemma BinadeUnique(n: nat, d: nat, b: int, c: int)
    requires d > 0 && Binade(n, d, b) && Binade(n, d, c)
    ensures b == c
  {
    hide AtLeast;
    BinadeAbove(n, d, b, c);
    BinadeAbove(n, d, c, b);
    BinadeAbove(n, d, b, b);
    BinadeAbove(n, d, c, c);
  }

  /** A mantissa of 53 bits fixes the exponent. */
  lemma NormalUnique(m: nat, e: int, m': nat, e': int, t: nat, q: int)
    requires Pow2(52) <= m < Pow2(53) && Pow2(52) <= m' < Pow2(53)
    requires SameNumber(m, e, t, q) && SameNumber(m', e', t, q)
    ensures m == m' && e == e'
  {
    HalfPower(53);
    ZeroShift();
    hide Pow2, SameNumber;
    var z := if e < e' then (if e < q then e else q) else (if e' < q then e' else q);
    SameAt(m, e, t, q, z);
    SameAt(m', e', t, q, z);
    if e < e' {
      NormalLess(m, m', e, e', z);
    } else if e' < e {
      NormalLess(m', m, e', e, z);
    } else {
      ScaleOrder(m, m', Pow2(e - z));
    }
  }

  lemma NormalLess(m: nat, m': nat, e: int, e': int, z: int)
    requires m < Pow2(53) && Pow2(52) <= m' && z <= e < e'
    ensures m * Pow2(e - z) < m' * Pow2(e' - z)
  {
    HalfPower(53);
    HalfPower(e' - z);
    hide Pow2;
    Pow2Monotone(e - z, e' - z - 1);
    MulMono(Pow2(52), m', Pow2(e' - z));
    MulMono(Pow2(e - z), Pow2(e' - z - 1), 2 * Pow2(52));
    ScaleOrder(m, Pow2(53), Pow2(e - z));
  }

  lemma RoundedUnique(n: nat, d: nat, m: nat, e: int, m': nat, e': int)
    requires d > 0 && Rounded(n, d, m, e) && Rounded(n, d, m', e')
    ensures m == m' && (m > 0 ==> e == e')
  {
    hide Binade, AtLeast, InUnits, SameNumber, Pow2;
    var b :| Binade(n, d, b) && RoundedIn(n, d, b, m, e);
    var c :| Binade(n, d, c) && RoundedIn(n, d, c, m', e');
    BinadeUnique(n, d, b, c);
    if m > 0 {
      NormalUnique(m, e - MANT_BITS, m', e' - MANT_BITS, InUnits(n, d, Quantum(b)), Quantum(b));
    }
  }

  /** The double in units of 1/s: u is the weight of the lowest bit of its mantissa. */
  predicate Unit(u: nat, s: nat, e: int) {
    u * Pow2(Up(53 - e)) == s * Pow2(Up(e - 53))
  }

  lemma RoundNear(y: nat, v: nat, t: nat)
    requires v > 0 && 2 * Distance(y, t * v) < v
    ensures RoundDiv(y, v, NearestEven) == t
  {
    hide RoundDiv;
    var q := RoundDiv(y, v, NearestEven);
    RoundIsNearest(y, v, NearestEven, t);
    Distribute(q, 1, v);
    Distribute(t, 1, v);
    if q < t {
      MulMono(q + 1, t, v);
    } else if t < q {
      MulMono(t + 1, q, v);
    }
  }

  /** The ratio y/s seen in units, in the form that round_to_d's lemmas are about. */
  lemma UnitRatio(y: nat, s: nat, e: int, u: nat, k: nat)
    requires s > 0 && u > 0 && Unit(u, s, e)
    ensures ScaledDen(u, 53 - e) > 0 && ScaledNum(y, 53 - e) * s == y * ScaledDen(u, 53 - e)
    ensures AtLeast(ScaledNum(y, 53 - e), ScaledDen(u, 53 - e), e - 53 + k) <==> y >= u * Pow2(k)
  {
    hide Pow2, AtLeast;
    MulPositive(u, Pow2(Up(53 - e)));
    AtLeastScaled(y, u, 53 - e, k);
    assert (y * Pow2(Up(e - 53))) * s == y * (s * Pow2(Up(e - 53))) by {
      MulAssoc(y, Pow2(Up(e - 53)), s);
      assert Pow2(Up(e - 53)) * s == s * Pow2(Up(e - 53));
    }
  }

  /** Rounding y/u in units of 2^q, whatever q is. */
  lemma UnitRounds(y: nat, u: nat, e: int, q: int)
    requires u > 0
    ensures var shift := q - (e - 53);
            && ScaledDen(u, 53 - e) > 0 && u * Pow2(Up(shift)) > 0
            && InUnits(ScaledNum(y, 53 - e), ScaledDen(u, 53 - e), q) == RoundDiv(y * Pow2(Up(-shift)), u * Pow2(Up(shift)), NearestEven)
  {
    hide Pow2, RoundDiv;
    var shift := q - (e - 53);
    MulPositive(u, Pow2(Up(53 - e)));
    MulPositive(u, Pow2(Up(shift)));
    MulPositive(ScaledDen(u, 53 - e), Pow2(Up(q)));
    SameRatio(y, u, 53 - e, q, shift);
    RoundRatio(y * Pow2(Up(-shift)), u * Pow2(Up(shift)), ScaledNum(y, 53 - e) * Pow2(Up(-q)), ScaledDen(u, 53 - e) * Pow2(Up(q)), NearestEven);
  }

  /** A ratio y/s nearer to the double than half a unit, or than a quarter below a power of two, is read as
      that double. */
  lemma NearReads(y: nat, s: nat, m: nat, e: int, u: nat)
    requires Double(m, e) && s > 0 && u > 0 && Unit(u, s, e)
    requires 2 * Distance(y, m * u) < u && (m == Pow2(52) ==> 4 * Distance(y, m * u) < u)
    ensures Rounded(y, s, m, e)
  {
    hide Pow2, Unit, InUnits, ScaledNum, ScaledDen, Double, Rounded, AtLeast;
    UnitRatio(y, s, e, u, 51);
    UnitRatio(y, s, e, u, 52);
    UnitRatio(y, s, e, u, 53);
    UnitBounds(y, m, e, u);
    var n, d := ScaledNum(y, 53 - e), ScaledDen(u, 53 - e);
    if m == Pow2(52) && y < m * u {
      NearBelow(y, e, u);
    } else {
      NearInside(y, m, e, u);
    }
    RoundedRatio(n, d, y, s, m, e);
  }

  lemma UnitBounds(y: nat, m: nat, e: int, u: nat)
    requires Double(m, e) && u > 0 && 2 * Distance(y, m * u) < u
    ensures y < u * Pow2(53)
    ensures m == Pow2(52) && y < m * u ==> u * Pow2(51) <= y < u * Pow2(52)
    ensures !(m == Pow2(52) && y < m * u) ==> u * Pow2(52) <= y
  {
    HalfPower(53);
    HalfPower(52);
    Pow2Monotone(0, 51);
    ZeroShift();
    hide Pow2;
    MulMono(m + 1, Pow2(53), u);
    Distribute(m, 1, u);
    MulMono(1, Pow2(51), u);
    assert u * Pow2(52) == 2 * (u * Pow2(51));
    if m > Pow2(52) {
      MulMono(Pow2(52) + 1, m, u);
      Distribute(Pow2(52), 1, u);
    }
  }

  /** In the binade of the double itself. */
  lemma NearInside(y: nat, m: nat, e: int, u: nat)
    requires Double(m, e) && u > 0 && 2 * Distance(y, m * u) < u
    requires ScaledDen(u, 53 - e) > 0 && Binade(ScaledNum(y, 53 - e), ScaledDen(u, 53 - e), e)
    ensures Rounded(ScaledNum(y, 53 - e), ScaledDen(u, 53 - e), m, e)
  {
    ZeroShift();
    hide Pow2, InUnits, ScaledNum, ScaledDen, AtLeast, RoundDiv;
    var n, d, q := ScaledNum(y, 53 - e), ScaledDen(u, 53 - e), Quantum(e);
    UnitRounds(y, u, e, q);
    var t := RoundsTo(y, m, e, u);
    assert RoundedIn(n, d, e, m, e);
  }

  /** A double, subnormal or not, is a whole number of quanta. */
  lemma RoundsTo(y: nat, m: nat, e: int, u: nat) returns (t: nat)
    requires Double(m, e) && u > 0 && 2 * Distance(y, m * u) < u
    ensures var k := Up(E_MIN - e);
            && u * Pow2(k) > 0 && t > 0 && m == t * Pow2(k) && RoundDiv(y, u * Pow2(k), NearestEven) == t
            && SameNumber(m, e - 53, t, if e < E_MIN then -1074 else e - 53)
  {
    ZeroShift();
    var k := Up(E_MIN - e);
    hide Pow2, RoundDiv;
    t := m / Pow2(k);
    DivMod(m, Pow2(k));
    DivideIs(m, 1, m, 0);
    MulPositive(u, Pow2(k));
    MulMono(1, Pow2(k), u);
    assert t * (u * Pow2(k)) == m * u by {
      assert t * (u * Pow2(k)) == (t * Pow2(k)) * u;
    }
    assert t > 0 by { Times0(Pow2(k)); }
    RoundNear(y, u * Pow2(k), t);
  }

  /** Below a power of two the quantum is smaller, unless it is already the smallest. */
  lemma NearBelow(y: nat, e: int, u: nat)
    requires Double(Pow2(52), e) && u > 0 && 4 * Distance(y, Pow2(52) * u) < u
    requires ScaledDen(u, 53 - e) > 0 && Binade(ScaledNum(y, 53 - e), ScaledDen(u, 53 - e), e - 1)
    ensures Rounded(ScaledNum(y, 53 - e), ScaledDen(u, 53 - e), Pow2(52), e)
  {
    hide Pow2, InUnits, ScaledNum, ScaledDen, AtLeast, RoundDiv, SameNumber, Double;
    var n, d, q := ScaledNum(y, 53 - e), ScaledDen(u, 53 - e), Quantum(e - 1);
    UnitRounds(y, u, e, q);
    DoubleExponent(Pow2(52), e);
    Pow52();
    if e - 1 < E_MIN {
      var t := RoundsTo(y, Pow2(52), e, u);
      ZeroShift();
      assert RoundedIn(n, d, e - 1, Pow2(52), e);
    } else {
      CarryDown(y, e, u);
      assert RoundedIn(n, d, e - 1, Pow2(52), e);
    }
  }

  lemma DoubleExponent(m: nat, e: int)
    requires Double(m, e)
    ensures e >= -1073 && Pow2(52) <= m < Pow2(53)
  {
    hide Pow2;
  }

  lemma CarryDown(y: nat, e: int, u: nat)
    requires u > 0 && 4 * Distance(y, Pow2(52) * u) < u
    ensures u * Pow2(0) > 0 && RoundDiv(y * Pow2(1), u * Pow2(0), NearestEven) == Pow2(53)
    ensures SameNumber(Pow2(52), e - 53, Pow2(53), e - 54)
  {
    ZeroShift();
    HalfPower(1);
    HalfPower(53);
    hide Pow2, RoundDiv;
    assert Pow2(53) * u == 2 * (Pow2(52) * u);
    RoundNear(2 * y, u, Pow2(53));
  }

  // ----- 17 digits are enough

  lemma RoundError(n: nat, d: nat, mode: Mode)
    requires d > 0 && mode != TowardZero
    ensures 2 * Distance(RoundDiv(n, d, mode) * d, n) <= d
  {
    DivMod(n, d);
    RoundErrorParts(n, d, mode, n / d, n % d);
  }

  lemma RoundErrorParts(n: nat, d: nat, mode: Mode, q: nat, r: nat)
    requires d > 0 && mode != TowardZero && n == q * d + r && r < d
    ensures 2 * Distance(RoundParts(q, r, d, mode) * d, n) <= d
  {
    Distribute(q, 1, d);
  }

  /** 10^16 > 2^53 */
  lemma SixteenDigits()
    ensures Power(10, 16) == 10000000000000000 && Pow2(53) == 9007199254740992 && Pow2(52) == 4503599627370496
  {
    Pow5TableCorrect(16);
    PowerMul(5, 2, 16);
    Pow2Is(16);
    SmallPow2();
    Pow2Add(32, 20);
    Pow2Add(32, 21);
  }

  /** An error of half a digit in the 17th place is less than half a unit of the mantissa. */
  lemma DigitsBeatUnits(y: nat, m: nat, u: nat, d: nat, mant: nat)
    requires y == mant * d && mant >= 10000000000000000 && d > 0 && u > 0
    requires m < 9007199254740992 && 2 * Distance(y, m * u) <= d
    ensures 2 * Distance(y, m * u) < u && (m == 4503599627370496 ==> 4 * Distance(y, m * u) < u)
  {
    MulMono(10000000000000000, mant, d);
    MulMono(m, 9007199254740991, u);
    var mu := m * u;
    if m == 4503599627370496 {
      assert mu == 4503599627370496 * u;
    }
  }

  lemma EnoughForReading(m: nat, e: int, exp: int)
    requires Double(m, e) && Mant(m, e, DTOA_MAX_DIGITS, exp, NearestEven) >= Power(10, 16)
    ensures ReadsBack(Mant(m, e, DTOA_MAX_DIGITS, exp, NearestEven), exp - DTOA_MAX_DIGITS, m, e)
  {
    hide Power, Pow2, RoundDiv, Rounded, Num, Den, Unit;
    var f := DTOA_MAX_DIGITS - exp;
    var n, d := Num(m, e - 53, 10, f), Den(e - 53, 10, f);
    DenPositive(e - 53, 10, f);
    DenPositive(0, 10, -f);
    var mant := Mant(m, e, DTOA_MAX_DIGITS, exp, NearestEven);
    var u, s := Pow2(Up(e - 53)) * Power(10, Up(f)), Power(10, Up(f)) * Pow2(Up(53 - e));
    PowerPositive(10, Up(f));
    MulPositive(Pow2(Up(e - 53)), Power(10, Up(f)));
    MulPositive(Power(10, Up(f)), Pow2(Up(53 - e)));
    RoundError(n, d, NearestEven);
    SixteenDigits();
    ReadingParts(m, e, f, u, s, mant);
    DigitsBeatUnits(mant * d, m, u, d, mant);
    NearReads(mant * d, s, m, e, u);
    RoundedRatio(mant * d, s, Num(mant, 0, 10, -f), Den(0, 10, -f), m, e);
  }

  lemma ReadingParts(m: nat, e: int, f: int, u: nat, s: nat, mant: nat)
    requires u == Pow2(Up(e - 53)) * Power(10, Up(f)) && s == Power(10, Up(f)) * Pow2(Up(53 - e))
    ensures Num(m, e - 53, 10, f) == m * u && Unit(u, s, e)
    ensures (mant * Den(e - 53, 10, f)) * Den(0, 10, -f) == Num(mant, 0, 10, -f) * s
  {
    hide Power, Pow2;
    NumDenZero(mant, 10, -f);
    var a, b, t, v := Pow2(Up(e - 53)), Pow2(Up(53 - e)), Power(10, Up(f)), Power(10, Up(-f));
    MulAssoc(m, a, t);
    assert (a * t) * b == (t * b) * a;
    assert (mant * (b * v)) * t == (mant * v) * (t * b);
  }

  // ----- the loops

  /** More digits than there need be, with zeros at the end. */
  lemma ReadsBackTens(mant: nat, k: int, m: nat, e: int, z: nat)
    ensures ReadsBack(mant * Power(10, z), k, m, e) <==> ReadsBack(mant, k + z, m, e)
  {
    hide Power, Pow2, Rounded;
    DenPositive(0, 10, k);
    DenPositive(0, 10, k + z);
    DecimalSame(mant * Power(10, z), mant, z, k + z, k);
    if ReadsBack(mant * Power(10, z), k, m, e) {
      RoundedRatio(Num(mant * Power(10, z), 0, 10, k), Den(0, 10, k), Num(mant, 0, 10, k + z), Den(0, 10, k + z), m, e);
    }
    if ReadsBack(mant, k + z, m, e) {
      RoundedRatio(Num(mant, 0, 10, k + z), Den(0, 10, k + z), Num(mant * Power(10, z), 0, 10, k), Den(0, 10, k), m, e);
    }
  }

  /** Remove useless trailing zero digits. */
  method StripZeros(mant0: nat, p0: nat) returns (mant: nat, p: nat)
    requires p0 >= 1 && Power(10, p0 - 1) <= mant0 < Power(10, p0)
    ensures 1 <= p <= p0 && Power(10, p - 1) <= mant < Power(10, p) && mant % 10 != 0
    ensures mant0 == mant * Power(10, p0 - p)
  {
    hide Power;
    PowerOne(10);
    mant, p := mant0, p0;
    while mant % 10 == 0
      invariant 1 <= p <= p0 && Power(10, p - 1) <= mant < Power(10, p) && mant0 == mant * Power(10, p0 - p)
      decreases p
    {
      PowerAdd(10, 1, p0 - p);
      PowerAdd(10, 1, p - 1);
      PowerPositive(10, p - 1);
      assert p >= 2;
      PowerAdd(10, 1, p - 2);
      StripStep(mant, Power(10, p0 - p));
      mant := mant / 10;
      p := p - 1;
    }
  }

  lemma StripStep(mant: nat, t: nat)
    requires mant % 10 == 0
    ensures mant * t == (mant / 10) * (10 * t)
  {
    assert mant == 10 * (mant / 10);
    MulAssoc(mant / 10, 10, t);
  }

  /** 52 limbs are enough for every trial. */
  lemma TrialRoom(e: int, p: nat, exp: int, exp0: int)
    requires -1073 <= e <= 1024 && 1 <= p <= 17 && FloorLog(e - 1, exp0 - 1) && (exp == exp0 || exp == exp0 + 1)
    ensures RoundRoom(e - 53, 5, 1, p - exp) <= DBIGNUM_LEN_MAX
    ensures ConvertRoom(2, 5, exp - p) <= DBIGNUM_LEN_MAX
  {
    hide FloorLog;
    FloorLogRange(e - 1, exp0 - 1);
    DigitsLow();
    hide DigitsPerLimb;
  }

  lemma DoubleFits(m: nat, e: int)
    requires Double(m, e)
    ensures 0 < m < TWO64 && -1073 <= e <= 1024
  {
    SixteenDigits();
    hide Pow2;
  }

  /** The inner loop: `p` digits and their decimal exponent. */
  method Trial(tmp1: Mpb, m: nat, e: int, exp0: int, p: nat, mode: Mode) returns (exp: int)
    requires Double(m, e) && 1 <= p <= DTOA_MAX_DIGITS && FloorLog(e - 1, exp0 - 1) && mode != TowardZero
    requires tmp1.tab.Length == DBIGNUM_LEN_MAX
    modifies tmp1, tmp1.tab
    ensures tmp1.Valid() && tmp1.Normal() && tmp1.tab == old(tmp1.tab)
    ensures exp == Settled(m, e, p, exp0, mode) && tmp1.Val() == Mant(m, e, p, exp, mode)
    ensures Power(10, p - 1) <= tmp1.Val() < Power(10, p) && (exp == exp0 || exp == exp0 + 1)
  {
    hide Power, Pow2, Value, FloorLog, Double, Num, Den, RoundDiv, RoundRoom, ConvertRoom;
    DoubleFits(m, e);
    MantSettles(m, e, p, exp0, mode);
    MantFits(p);
    TwiceFive();
    var mantMax1 := PowUi(10, p);
    exp := exp0;
    while true
      invariant exp == exp0 || (exp == exp0 + 1 && Mant(m, e, p, exp0, mode) >= Power(10, p))
      invariant tmp1.tab == old(tmp1.tab)
      decreases exp0 + 1 - exp
    {
      TrialRoom(e, p, exp, exp0);
      MulPowRound(tmp1, m, e - 53, 5, 1, p - exp, mode);
      if tmp1.Val() >= mantMax1 { assert exp == exp0; }
      var mant := tmp1.GetU64();
      if mant < mantMax1 {
        return;
      }
      exp := exp + 1;
    }
  }

  lemma TwiceFive()
    ensures 5 * Pow2(1) == 10
  {
    HalfPower(1);
    ZeroShift();
  }

  lemma MantFits(p: nat)
    requires p <= DTOA_MAX_DIGITS
    ensures 2 * Power(10, p) < TWO64
  {
    SixteenDigits();
    PowerAdd(10, 1, 16);
    PowerOne(10);
    hide Power;
    PowerMonotone(10, p, 17);
  }

  /** The double, correctly rounded to `q` digits, is read back. */
  ghost predicate Suffices(m: nat, e: int, exp0: int, q: nat) {
    var exp := Settled(m, e, q, exp0, NearestEven);
    ReadsBack(Mant(m, e, q, exp, NearestEven), exp - q, m, e)
  }

  /** The outcome of a search: the correctly rounded digits, without a trailing zero, are read back, and so are
      those that are more, while those that are one digit fewer are not. */
  ghost predicate Shortest(m: nat, e: int, exp0: int, mant: nat, p: nat, exp: int) {
    && 1 <= p <= DTOA_MAX_DIGITS && (exp == exp0 || exp == exp0 + 1)
    && exp == Settled(m, e, p, exp0, NearestEven) && mant == Mant(m, e, p, exp, NearestEven)
    && Power(10, p - 1) <= mant < Power(10, p) && mant % 10 != 0
    && (forall q: nat :: p <= q <= DTOA_MAX_DIGITS ==> Suffices(m, e, exp0, q))
    && (p > 1 ==> !Suffices(m, e, exp0, p - 1))
  }

  lemma ShortestReads(m: nat, e: int, exp0: int, mant: nat, p: nat, exp: int)
    requires Shortest(m, e, exp0, mant, p, exp)
    ensures ReadsBack(mant, exp - p, m, e)
  {
    hide Mant, Settled, Power, ReadsBack;
    assert Suffices(m, e, exp0, p);
  }

  /** js_dtoa, free format: find the minimum number of digits by successive tries. */
  method FreeFormat(tmp1: Mpb, m: nat, e: int, exp0: int) returns (mant: nat, p: nat, exp: int)
    requires Double(m, e) && FloorLog(e - 1, exp0 - 1) && tmp1.tab.Length == DBIGNUM_LEN_MAX
    modifies tmp1, tmp1.tab
    ensures Shortest(m, e, exp0, mant, p, exp) && tmp1.tab == old(tmp1.tab)
  {
    hide Power, Pow2, Value, FloorLog, Double, Num, Den, RoundDiv, ReadsBack, Settled, Mant, Suffices;
    MantFits(17);
    DoubleFits(m, e);
    var expFound, pFound, mantFound := 0, 0, 0;
    var trial := DTOA_MAX_DIGITS;
    while true
      invariant 1 <= trial <= DTOA_MAX_DIGITS && tmp1.tab == old(tmp1.tab)
      invariant pFound == 0 ==> trial == DTOA_MAX_DIGITS
      invariant pFound > 0 ==> trial == pFound - 1 && Found(m, e, exp0, mantFound, pFound, expFound)
      decreases trial
    {
      exp := Trial(tmp1, m, e, exp0, trial, NearestEven);
      ghost var whole := tmp1.Val();
      PowerMonotone(10, trial, 17);
      mant := tmp1.GetU64();
      mant, p := StripZeros(mant, trial);
      PowerMonotone(10, p, 17);
      ReadsBackTens(mant, exp - trial, m, e, trial - p);
      StrippedRounds(m, e, trial, exp0, p, mant);
      if pFound == 0 {
        EnoughForReading(m, e, exp);
      } else {
        var m1, e1 := ReadDouble(tmp1, mant, exp - p, m, e, exp, exp0, p, trial);
        if m1 != m || e1 != e {
          NotRead(mant, exp - p, m, e, m1, e1);
          TrialFails(m, e, trial, exp0);
          break;
        }
      }
      StrippedSuffice(m, e, trial, exp0, p, mant, exp);
      expFound, pFound, mantFound := exp, p, mant;
      if p == 1 {
        break;
      }
      trial := p - 1;
    }
    mant, p, exp := mantFound, pFound, expFound;
  }

  lemma TrialFails(m: nat, e: int, trial: nat, exp0: int)
    requires var exp := Settled(m, e, trial, exp0, NearestEven); !ReadsBack(Mant(m, e, trial, exp, NearestEven), exp - trial, m, e)
    ensures !Suffices(m, e, exp0, trial)
  {
    hide Settled, Mant, ReadsBack;
  }

  /** All the numbers of digits between that of the trial and that without the zeros at the end. */
  lemma StrippedSuffice(m: nat, e: int, trial: nat, exp0: int, p: nat, mant: nat, exp: int)
    requires p <= trial && mant < Power(10, p) && exp == Settled(m, e, trial, exp0, NearestEven)
    requires Mant(m, e, trial, exp, NearestEven) == mant * Power(10, trial - p) && ReadsBack(mant, exp - p, m, e)
    ensures forall q: nat :: p <= q <= trial ==> Suffices(m, e, exp0, q)
  {
    hide Settled, Mant, ReadsBack, Power;
    forall q: nat | p <= q <= trial ensures Suffices(m, e, exp0, q) {
      PowerAdd(10, q - p, trial - q);
      PowerAdd(10, p, q - p);
      MulAssoc(mant, Power(10, q - p), Power(10, trial - q));
      PowerPositive(10, q - p);
      ScaleOrder(mant, Power(10, p), Power(10, q - p));
      StrippedRounds(m, e, trial, exp0, q, mant * Power(10, q - p));
      ReadsBackTens(mant, exp - q, m, e, q - p);
    }
  }

  ghost predicate Found(m: nat, e: int, exp0: int, mant: nat, p: nat, exp: int) {
    && 1 <= p <= DTOA_MAX_DIGITS && (exp == exp0 || exp == exp0 + 1) && Power(10, p - 1) <= mant < Power(10, p) && mant % 10 != 0
    && exp == Settled(m, e, p, exp0, NearestEven) && mant == Mant(m, e, p, exp, NearestEven)
    && (forall q: nat :: p <= q <= DTOA_MAX_DIGITS ==> Suffices(m, e, exp0, q))
  }

  /** The ratio for `z` digits more. */
  lemma MoreDigits(m: nat, e: int, f: int, z: nat)
    ensures Power(10, z) > 0 && Den(e, 10, f) > 0 && Den(e, 10, f + z) > 0
    ensures Num(m, e, 10, f + z) * Den(e, 10, f) == (Power(10, z) * Num(m, e, 10, f)) * Den(e, 10, f + z)
  {
    hide Power, Pow2;
    DenPositive(e, 10, f);
    DenPositive(e, 10, f + z);
    PowerPositive(10, z);
    MorePowers(f, z);
    MoreParts(m * Pow2(Up(e)), Pow2(Up(-e)), Power(10, Up(f + z)), Power(10, Up(-f)), Power(10, z), Power(10, Up(f)), Power(10, Up(-(f + z))));
  }

  lemma MorePowers(f: int, z: nat)
    ensures Power(10, Up(f + z)) * Power(10, Up(-f)) == (Power(10, z) * Power(10, Up(f))) * Power(10, Up(-(f + z)))
  {
    hide Power;
    PowerAdd(10, Up(f + z), Up(-f));
    PowerAdd(10, z, Up(f));
    PowerAdd(10, z + Up(f), Up(-(f + z)));
    assert Up(f + z) + Up(-f) == z + Up(f) + Up(-(f + z));
  }

  lemma MoreParts(a: nat, b: nat, t: nat, v: nat, z: nat, t0: nat, v0: nat)
    requires t * v == (z * t0) * v0
    ensures (a * t) * (b * v) == (z * (a * t0)) * (b * v0)
  {
    FourFactors(a, b, t, v);
    FourFactors(a, b, z * t0, v0);
    MulAssoc(a, z, t0);
    MulAssoc(z, a, t0);
    Swapped(a, z);
  }

  lemma Swapped(a: nat, b: nat)
    ensures a * b == b * a
  {
  }

  /** Digits that end in zeros are the correctly rounded ones without them as well. */
  lemma WithoutZeros(m: nat, e: int, p: int, exp: int, z: nat, mant: nat)
    requires Mant(m, e, p + z, exp, NearestEven) == mant * Power(10, z)
    ensures Mant(m, e, p, exp, NearestEven) == mant
  {
    hide RoundDiv, Num, Den, Power;
    PowerOne(10);
    if z > 0 {
      var f := p - exp;
      MoreDigits(m, e - MANT_BITS, f, z);
      var n, d := Num(m, e - MANT_BITS, 10, f), Den(e - MANT_BITS, 10, f);
      var n1, d1 := Num(m, e - MANT_BITS, 10, f + z), Den(e - MANT_BITS, 10, f + z);
      RoundError(n1, d1, NearestEven);
      PowerMonotone(10, 1, z);
      SmallerError(n, d, n1, d1, Power(10, z), mant);
      RoundNear(n, d, mant);
    }
  }

  lemma SmallerError(n: nat, d: nat, n1: nat, d1: nat, z: nat, mant: nat)
    requires z >= 10 && d > 0 && d1 > 0 && n1 * d == (z * n) * d1 && 2 * Distance((mant * z) * d1, n1) <= d1
    ensures 2 * Distance(n, mant * d) < d
  {
    hide Distance;
    var y, k := (mant * z) * d1, Distance(mant * d, n);
    Rearranged(mant, z, d1, d);
    Rearranged(n, z, d1, 1);
    DistanceTimes(y, n1, d);
    DistanceTimes(mant * d, n, z * d1);
    MulMono(2 * Distance(y, n1), d1, d);
    MulAssoc(2, Distance(y, n1), d);
    MulAssoc(2, k, z * d1);
    LessIf(2 * k, d, z, d1);
    DistanceSwap(n, mant * d);
  }

  lemma Rearranged(x: nat, z: nat, a: nat, b: nat)
    ensures ((x * z) * a) * b == (x * b) * (z * a) && (z * x) * a == x * (z * a)
  {
    MulAssoc(x, z, a);
    FourFactors(x, 1, z * a, b);
    assert z * x == x * z;
  }

  lemma DistanceSwap(a: int, b: int)
    ensures Distance(a, b) == Distance(b, a)
  {
  }

  lemma LessIf(x: nat, d: nat, z: nat, d1: nat)
    requires x * (z * d1) <= d1 * d && z >= 10 && d > 0 && d1 > 0
    ensures x < d
  {
    if x >= d {
      MulMono(d, x, z * d1);
      MulMono(10, z, d1);
      MulMono(10 * d1, z * d1, d);
      MulPositive(d, d1);
    }
  }

  lemma StrippedRounds(m: nat, e: int, trial: nat, exp0: int, p: nat, mant: nat)
    requires p <= trial && Power(10, p) > mant
    requires Mant(m, e, trial, Settled(m, e, trial, exp0, NearestEven), NearestEven) == mant * Power(10, trial - p)
    ensures Settled(m, e, p, exp0, NearestEven) == Settled(m, e, trial, exp0, NearestEven)
    ensures Mant(m, e, p, Settled(m, e, p, exp0, NearestEven), NearestEven) == mant
  {
    hide Mant, Power;
    var z := trial - p;
    WithoutZeros(m, e, p, Settled(m, e, trial, exp0, NearestEven), z, mant);
    PowerAdd(10, p, z);
    if Settled(m, e, trial, exp0, NearestEven) == exp0 + 1 {
      StillTooMany(m, e, p, exp0, z);
    }
  }

  /** A digit too many stays one too many with fewer digits. */
  lemma StillTooMany(m: nat, e: int, p: int, exp: int, z: nat)
    requires p >= 0 && Mant(m, e, p + z, exp, NearestEven) >= Power(10, p + z)
    ensures Mant(m, e, p, exp, NearestEven) >= Power(10, p)
  {
    hide RoundDiv, Num, Den, Power;
    var f := p - exp;
    MoreDigits(m, e - MANT_BITS, f, z);
    PowerAdd(10, p, z);
    var n, d := Num(m, e - MANT_BITS, 10, f), Den(e - MANT_BITS, 10, f);
    var n1, d1 := Num(m, e - MANT_BITS, 10, f + z), Den(e - MANT_BITS, 10, f + z);
    RoundBounds(n1, d1, Power(10, p + z), NearestEven);
    RoundBounds(n, d, Power(10, p), NearestEven);
    if z > 0 {
      PowerOne(10);
      PowerMonotone(10, 1, z);
      TooManyParts(n, d, n1, d1, Power(10, z), Power(10, p));
    }
  }

  lemma TooManyParts(n: nat, d: nat, n1: nat, d1: nat, z: nat, t: nat)
    requires z >= 10 && d > 0 && d1 > 0 && n1 * d == (z * n) * d1 && 2 * n1 + d1 >= 2 * (t * z) * d1
    ensures 2 * n + d > 2 * t * d
  {
    var zd, td := z * d1, t * d;
    Rearranged(n, z, d1, 1);
    Rearranged(t, z, d1, d);
    MulMono(2 * (t * z) * d1, 2 * n1 + d1, d);
    Distribute(2 * n1, d1, d);
    MulAssoc(2, n1, d);
    MulAssoc(2, t * z, d1);
    MulAssoc(2, (t * z) * d1, d);
    MulAssoc(2, t, d);
    MulMono(10, z, d1);
    if 2 * n + d <= 2 * td {
      MulMono(2 * n + d, 2 * td, zd);
      Distribute(2 * n, d, zd);
      MulAssoc(2, n, zd);
      MulAssoc(2, td, zd);
      MulMono(10 * d1, zd, d);
      MulPositive(d, d1);
    }
  }

  lemma NotRead(mant: nat, k: int, m: nat, e: int, m1: nat, e1: int)
    requires ReadsBack(mant, k, m1, e1) && (m1 != m || e1 != e) && m > 0
    ensures !ReadsBack(mant, k, m, e)
  {
    hide Rounded;
    DenPositive(0, 10, k);
    if ReadsBack(mant, k, m, e) {
      RoundedUnique(Num(mant, 0, 10, k), Den(0, 10, k), m, e, m1, e1);
    }
  }

  /** Convert back to base 2. */
  method ReadDouble(tmp1: Mpb, mant: nat, k: int, ghost m: nat, ghost e: int, ghost exp: int, ghost exp0: int, ghost p: nat, ghost trial: nat)
    returns (m1: nat, e1: int)
    requires 0 < mant < TWO64 && tmp1.tab.Length == DBIGNUM_LEN_MAX
    requires Double(m, e) && FloorLog(e - 1, exp0 - 1) && 1 <= p <= trial <= DTOA_MAX_DIGITS && k == exp - p && (exp == exp0 || exp == exp0 + 1)
    requires mant >= Power(10, p - 1)
    modifies tmp1, tmp1.tab
    ensures tmp1.tab == old(tmp1.tab) && ReadsBack(mant, k, m1, e1)
  {
    hide Power, Pow2, Value, FloorLog, Double, Num, Den, RoundRoom, ConvertRoom, AtLeast, Rounded;
    DoubleFits(m, e);
    tmp1.SetU64(mant);
    TrialRoom(e, p, exp, exp0);
    RoomGrows(tmp1.len, 2, k);
    TwiceFive();
    FloorLogAbove(e - 1, exp0 - 1);
    NotTooSmall(mant, k, e, exp0, p, exp);
    DenPositive(0, 10, k);
    m1, e1 := MulPowRoundToD(tmp1, 5, 1, k);
  }

  lemma FloorLogAbove(a: int, b: int)
    requires FloorLog(a, b)
    ensures !TenBelow(a, b + 1)
  {
    hide TenBelow;
  }

  lemma RoomGrows(len: nat, len': nat, f: int)
    requires len <= len'
    ensures ConvertRoom(len, 5, f) <= ConvertRoom(len', 5, f)
  {
    hide DigitsPerLimb;
  }

  lemma AtLeastAny(n: nat, d: nat, a: nat, b: nat)
    ensures AtLeast(n, d, b - a) <==> n * Pow2(a) >= d * Pow2(b)
  {
    hide Pow2;
    var x := a - Up(a - b);
    Pow2Add(Up(a - b), x);
    Pow2Add(Up(b - a), x);
    MulAssoc(n, Pow2(Up(a - b)), Pow2(x));
    MulAssoc(d, Pow2(Up(b - a)), Pow2(x));
    ScaleOrder(n * Pow2(Up(a - b)), d * Pow2(Up(b - a)), Pow2(x));
  }

  /** The digits of a double denote a number that is not much smaller. */
  lemma NotTooSmall(mant: nat, k: int, e: int, exp0: int, p: nat, exp: int)
    requires -1073 <= e && p >= 1 && mant >= Power(10, p - 1) && k == exp - p && exp >= exp0 && !TenBelow(e - 1, exp0)
    ensures AtLeast(Num(mant, 0, 10, k), Den(0, 10, k), SMALLEST)
  {
    SmallPow2();
    hide Power, Pow2, Num, Den, TenBelow, AtLeast;
    var b, c := Up(exp0 - 1), Up(1 - exp0);
    DecimalLow(mant, 10, k, p, b, c);
    TenBelowAt(e - 1, exp0, Up(e - 1), Up(1 - e), b + 1, c);
    PowerAdd(10, b, 1);
    PowerOne(10);
    PowerPositive(10, c);
    var n, d := Num(mant, 0, 10, k), Den(0, 10, k);
    SmallParts(n, d, Power(10, b), Power(10, c), Pow2(Up(1 - e)), Pow2(Up(e - 1)));
    Pow2Add(4, Up(1 - e));
    AtLeastAny(n, d, 4 + Up(1 - e), Up(e - 1));
    AtLeastDown(n, d, e - 5, SMALLEST);
  }

  lemma SmallParts(n: nat, d: nat, tb: nat, tc: nat, x: nat, y: nat)
    requires n * tc >= tb * d && (tb * 10) * x > y * tc && tc > 0 && d >= 0
    ensures n * (16 * x) >= d * y
  {
    MulMono(tb * d, n * tc, 10 * x);
    MulMono(y * tc, (tb * 10) * x, d);
    assert (tb * d) * (10 * x) == ((tb * 10) * x) * d;
    assert (n * tc) * (10 * x) == (n * (10 * x)) * tc;
    assert (y * tc) * d == (d * y) * tc;
    if n * (10 * x) < d * y {
      ScaleOrder(n * (10 * x), d * y, tc);
    }
    assert n * (16 * x) == n * (10 * x) + 6 * (n * x);
    NonNegative(n, x);
  }
}
