/** js_dtoa, free format: the digits are the nearest ones, and when there are no fewer that would do. */
module Minimal {
  import opened Limbs
  import opened Rounding
  import opened Bignum
  import opened Scaling
  import opened Ratios
  import opened Doubles
  import opened Atod
  import opened Numerals
  import opened Dtoa
  import opened Subnormals

  // ----- the digits are the nearest

  /** No integer is nearer to m * 2^(e-53) * 10^(p-exp) than the digits, and on a tie they are even. */
  lemma ShortestIsNearest(m: nat, e: int, exp0: int, mant: nat, p: nat, exp: int, w: nat)
    requires Shortest(m, e, exp0, mant, p, exp)
    ensures var n, d := m * Pow2(Up(e - 53)) * Power(10, Up(p - exp)), Pow2(Up(53 - e)) * Power(10, Up(exp - p));
            && Distance(mant * d, n) <= Distance(w * d, n)
            && (Distance(mant * d, n) == Distance(w * d, n) && w != mant ==> mant % 2 == 0)
  {
    hide RoundDiv, Power, Pow2, ReadsBack, Settled;
    var f := p - exp;
    DenPositive(e - 53, 10, f);
    RoundIsNearest(Num(m, e - 53, 10, f), Den(e - 53, 10, f), NearestEven, w);
  }

  // ----- what is read as a double

  /** The doubles on both sides are equally far away: not for powers of two, except the smallest ones. */
  predicate Even(m: nat, e: int) {
    m != Pow2(52) || e <= E_MIN
  }

  /** The double in units of its quantum. */
  function Quanta(m: nat, e: int): nat {
    ZeroShift();
    PositivePower(Up(E_MIN - e));
    m / Pow2(Up(E_MIN - e))
  }

  lemma PositivePower(k: nat)
    ensures Pow2(k) > 0
  {
    ZeroShift();
    Pow2Monotone(0, k);
  }

  lemma QuantaIs(m: nat, e: int)
    requires Double(m, e)
    ensures m == Quanta(m, e) * Pow2(Up(E_MIN - e)) && Quanta(m, e) > 0
  {
    ZeroShift();
    if e < E_MIN {
      var t := QuantaOf(m, e);
      hide Pow2;
      PositivePower(E_MIN - e);
      DivideIs(m, Pow2(E_MIN - e), t, 0);
    } else {
      Pow52();
      hide Pow2;
      DivideIs(m, 1, m, 0);
    }
  }

  /** A tie goes to the even number of quanta. */
  lemma RoundTie(y: nat, v: nat, t: nat)
    requires v > 0 && 2 * Distance(y, t * v) == v && t % 2 == 0
    ensures RoundDiv(y, v, NearestEven) == t
  {
    hide RoundDiv;
    DivMod(y, v);
    RoundBy(y, v, y / v, y % v, NearestEven);
    TieParts(y, v, t, y / v, y % v);
  }

  lemma TieParts(y: nat, v: nat, t: nat, q: nat, r: nat)
    requires v > 0 && 2 * Distance(y, t * v) == v && t % 2 == 0 && y == q * v + r && r < v
    ensures RoundParts(q, r, v, NearestEven) == t
  {
    Distribute(q, 1, v);
    if t < q {
      MulMono(t + 1, q, v);
      Distribute(t, 1, v);
    } else if t > q + 1 {
      MulMono(q + 2, t, v);
      Distribute(q, 2, v);
    }
  }

  lemma RoundsToTie(y: nat, v: nat, t: nat)
    requires v > 0 && RoundDiv(y, v, NearestEven) == t && 2 * Distance(y, t * v) == v
    ensures t % 2 == 0
  {
    hide RoundDiv;
    var k := if y > t * v then t + 1 else if t > 0 then t - 1 else 0;
    Distribute(t, 1, v);
    Distribute(t - 1, 1, v);
    RoundIsNearest(y, v, NearestEven, k);
    Times0(v);
  }

  /** What is not further away is rounded in the same way. */
  lemma RoundCloser(y: nat, y': nat, v: nat, t: nat)
    requires v > 0 && RoundDiv(y, v, NearestEven) == t && Distance(y', t * v) <= Distance(y, t * v)
    ensures RoundDiv(y', v, NearestEven) == t
  {
    hide RoundDiv;
    RoundError(y, v, NearestEven);
    if 2 * Distance(y', t * v) < v {
      RoundNear(y', v, t);
    } else {
      RoundsToTie(y, v, t);
      RoundTie(y', v, t);
    }
  }

  /** A ratio y/s that rounds to the double's number of quanta is read as the double. */
  lemma QuantaRead(y: nat, s: nat, m: nat, e: int, u: nat)
    requires Double(m, e) && Even(m, e) && s > 0 && u > 0 && Unit(u, s, e)
    requires u * Pow2(Up(E_MIN - e)) > 0 && RoundDiv(y, u * Pow2(Up(E_MIN - e)), NearestEven) == Quanta(m, e)
    ensures Rounded(y, s, m, e)
  {
    hide Pow2, Unit, InUnits, ScaledNum, ScaledDen, Rounded, AtLeast, Double, RoundDiv, Even, Quanta;
    UnitRatio(y, s, e, u, 51);
    UnitRatio(y, s, e, u, 52);
    UnitRatio(y, s, e, u, 53);
    DoubleExponent(m, e);
    QuantaIs(m, e);
    var z, t := Up(E_MIN - e), Quanta(m, e);
    RoundError(y, u * Pow2(z), NearestEven);
    if 2 * Distance(y, t * (u * Pow2(z))) == u * Pow2(z) { RoundsToTie(y, u * Pow2(z), t); }
    BinadeKept(y, m, u, z, t, e);
    var n, d := ScaledNum(y, 53 - e), ScaledDen(u, 53 - e);
    var b := if y >= u * Pow2(52) then e else e - 1;
    var q := Quantum(e);
    UnitRounds(y, u, e, q);
    QuantumShift(u, y, e);
    IsRounded(n, d, b, m, e, t);
    RoundedRatio(n, d, y, s, m, e);
  }

  lemma QuantumShift(u: nat, y: nat, e: int)
    ensures var shift := Quantum(e) - (e - 53); u * Pow2(Up(shift)) == u * Pow2(Up(E_MIN - e)) && y * Pow2(Up(-shift)) == y
  {
    ZeroShift();
    hide Pow2;
  }

  lemma IsRounded(n: nat, d: nat, b: int, m: nat, e: int, t: nat)
    requires d > 0 && Binade(n, d, b) && (b == e || (b == e - 1 && e <= E_MIN)) && -1073 <= e && t > 0
    requires Pow2(52) <= m < Pow2(53) && InUnits(n, d, Quantum(e)) == t && m == t * Pow2(Up(E_MIN - e))
    ensures Rounded(n, d, m, e)
  {
    ZeroShift();
    Pow52();
    hide Pow2, InUnits, AtLeast;
    assert SameNumber(m, e - MANT_BITS, t, Quantum(b));
    assert RoundedIn(n, d, b, m, e);
  }

  /** Half a quantum does not lead out of the binade, except downwards among the smallest numbers. */
  lemma BinadeKept(y: nat, m: nat, u: nat, z: nat, t: nat, e: int)
    requires z == Up(E_MIN - e) && -1073 <= e && Even(m, e) && Pow2(52) <= m < Pow2(53) && m == t * Pow2(z) && u > 0
    requires var v := u * Pow2(z); 2 * Distance(y, t * v) <= v && (2 * Distance(y, t * v) == v ==> t % 2 == 0)
    ensures u * Pow2(51) <= y < u * Pow2(53)
    ensures e > E_MIN ==> y >= u * Pow2(52)
  {
    ZeroShift();
    HalfPower(53);
    HalfPower(52);
    Pow2Add(z, 53 - z);
    Pow2Monotone(z, 52);
    PositivePower(z);
    PositivePower(51);
    hide Pow2;
    KeptBounds(y, m, u, Pow2(z), t, Pow2(53 - z), Pow2(51));
    if e > E_MIN {
      MulMono(2 * Pow2(51) + 1, m, u);
      Distribute(2 * Pow2(51), 1, u);
    }
  }

  lemma KeptBounds(y: nat, m: nat, u: nat, q: nat, t: nat, high: nat, low: nat)
    requires m == t * q && u > 0 && q > 0 && 2 * Distance(y, t * (u * q)) <= u * q && q <= 2 * low <= m < q * high
    ensures t * (u * q) == m * u && u * low <= y < u * (q * high)
  {
    assert t * (u * q) == m * u by { MulAssoc(t, q, u); }
    assert high * (u * q) == u * (q * high) by { MulAssoc(high, u, q); MulAssoc(u, high, q); }
    MulPositive(u, q);
    if t >= high { MulMono(high, t, q); }
    MulMono(t + 1, high, u * q);
    MulMono(2 * low, m, u);
    MulMono(q, 2 * low, u);
    MulAssoc(u, 2, low);
    HalfBounds(y, t, u * q, u * low);
  }

  lemma HalfBounds(y: nat, t: nat, v: nat, w: nat)
    requires v > 0 && 2 * Distance(y, t * v) <= v <= 2 * w <= t * v
    ensures w <= y < (t + 1) * v
  {
    Distribute(t, 1, v);
  }

  /** And conversely. */
  lemma ReadQuanta(y: nat, s: nat, m: nat, e: int, u: nat)
    requires Double(m, e) && Even(m, e) && s > 0 && u > 0 && Unit(u, s, e) && Rounded(y, s, m, e)
    ensures u * Pow2(Up(E_MIN - e)) > 0 && RoundDiv(y, u * Pow2(Up(E_MIN - e)), NearestEven) == Quanta(m, e)
  {
    hide Pow2, Unit, InUnits, ScaledNum, ScaledDen, Rounded, AtLeast, Double, RoundDiv, Even, Quanta;
    PositivePower(Up(E_MIN - e));
    MulPositive(u, Pow2(Up(E_MIN - e)));
    DoubleExponent(m, e);
    QuantaIs(m, e);
    UnitRatio(y, s, e, u, 51);
    var n, d := ScaledNum(y, 53 - e), ScaledDen(u, 53 - e);
    SwapRatio(y, s, n, d);
    RoundedRatio(y, s, n, d, m, e);
    UnitRounds(y, u, e, Quantum(e));
    QuantumShift(u, y, e);
    RoundedQuanta(n, d, m, e, Quanta(m, e));
  }

  lemma SwapRatio(y: nat, s: nat, n: nat, d: nat)
    requires n * s == y * d
    ensures y * d == n * s
  {
  }

  lemma RoundedQuanta(n: nat, d: nat, m: nat, e: int, t: nat)
    requires d > 0 && Rounded(n, d, m, e) && Pow2(52) <= m < Pow2(53) && Even(m, e) && m == t * Pow2(Up(E_MIN - e))
    ensures InUnits(n, d, Quantum(e)) == t
  {
    ZeroShift();
    PositivePower(Up(E_MIN - e));
    Pow52();
    hide Pow2, InUnits, AtLeast;
    var b :| Binade(n, d, b) && RoundedIn(n, d, b, m, e);
    var t' := InUnits(n, d, Quantum(b));
    if Quantum(b) == Quantum(e) {
      SameQuantum(m, e, t, t');
    } else {
      BelowBinade(n, d, b, m, e, t');
    }
  }

  lemma SameQuantum(m: nat, e: int, t: nat, t': nat)
    requires m == t * Pow2(Up(E_MIN - e)) && SameNumber(m, e - MANT_BITS, t', Quantum(e))
    ensures t' == t
  {
    ZeroShift();
    PositivePower(Up(E_MIN - e));
    hide Pow2;
    ScaleOrder(t, t', Pow2(Up(E_MIN - e)));
  }

  /** From a lower binade only a power of two is reached. */
  lemma BelowBinade(n: nat, d: nat, b: int, m: nat, e: int, t: nat)
    requires d > 0 && Binade(n, d, b) && b == e - 1 && e > E_MIN && t == InUnits(n, d, Quantum(b))
    requires Pow2(52) <= m < Pow2(53) && SameNumber(m, e - MANT_BITS, t, Quantum(b))
    ensures m == Pow2(52)
  {
    ZeroShift();
    HalfPower(1);
    HalfPower(53);
    hide Pow2, AtLeast, RoundDiv;
    InUnitsBelow(n, d, Quantum(b), b);
    assert m * Pow2(1) == t * Pow2(0);
  }

  lemma NotAtLeastShift(n: nat, d: nat, e: int, x: int)
    requires !AtLeast(n, d, e) && x <= e
    ensures n * Pow2(Up(-x)) < Pow2(e - x) * (d * Pow2(Up(x)))
  {
    hide Pow2;
    var k := Up(-x) - Up(-e);
    Pow2Add(Up(-e), k);
    MulAssoc(n, Pow2(Up(-e)), Pow2(k));
    assert e - x + Up(x) == Up(e) + k;
    Pow2Balance(e - x, Up(x), Up(e), k);
    PositivePower(k);
    ScaleOrder(n * Pow2(Up(-e)), d * Pow2(Up(e)), Pow2(k));
    FourFactors(1, d, Pow2(e - x), Pow2(Up(x)));
    FourFactors(1, d, Pow2(Up(e)), Pow2(k));
    Shifted(d, Pow2(e - x), Pow2(Up(x)), Pow2(Up(e)), Pow2(k));
  }

  lemma Shifted(d: nat, a: nat, b: nat, c: nat, k: nat)
    requires a * b == c * k
    ensures a * (d * b) == (d * c) * k
  {
    assert a * (d * b) == d * (a * b) by { MulAssoc(a, d, b); MulAssoc(d, a, b); }
    MulAssoc(d, c, k);
  }

  lemma InUnitsBelow(n: nat, d: nat, q: int, b: int)
    requires d > 0 && !AtLeast(n, d, b) && q <= b
    ensures InUnits(n, d, q) <= Pow2(b - q)
  {
    hide Pow2, RoundDiv;
    InUnitsPositive(d, q);
    NotAtLeastShift(n, d, b, q);
    RoundBounds(n * Pow2(Up(-q)), d * Pow2(Up(q)), Pow2(b - q), NearestEven);
  }

  // ----- decimals on a common scale

  /** The distance of m * 2^(e-53) and the ratio that is rounded, in units of 10^-c / 2^Up(53-e). */
  function Scaled(w: nat, j: int, c: nat, e: int): nat
    requires j + c >= 0
  {
    w * (Power(10, j + c) * Pow2(Up(53 - e)))
  }

  function UnitOf(c: nat, e: int): nat {
    Pow2(Up(e - 53)) * Power(10, c)
  }

  function ScaleOf(c: nat, e: int): nat {
    Pow2(Up(53 - e)) * Power(10, c)
  }

  lemma ScalePositive(c: nat, e: int)
    ensures UnitOf(c, e) > 0 && ScaleOf(c, e) > 0 && Unit(UnitOf(c, e), ScaleOf(c, e), e)
  {
    PositivePower(Up(e - 53));
    PositivePower(Up(53 - e));
    PowerPositive(10, c);
    hide Power, Pow2;
    MulPositive(Pow2(Up(e - 53)), Power(10, c));
    MulPositive(Pow2(Up(53 - e)), Power(10, c));
    FourFactors(Pow2(Up(e - 53)), Power(10, c), Pow2(Up(53 - e)), 1);
    FourFactors(Pow2(Up(53 - e)), Power(10, c), Pow2(Up(e - 53)), 1);
  }

  /** A decimal on that scale. */
  lemma ScaledRatio(w: nat, j: int, c: nat, e: int)
    requires j + c >= 0
    ensures Den(0, 10, j) > 0 && Scaled(w, j, c, e) * Den(0, 10, j) == Num(w, 0, 10, j) * ScaleOf(c, e)
  {
    hide Power, Pow2;
    DenPositive(0, 10, j);
    NumDenZero(w, 10, j);
    PowerAdd(10, j + c, Up(-j));
    PowerAdd(10, Up(j), c);
    assert j + c + Up(-j) == Up(j) + c;
    ScaledParts(w, Power(10, j + c), Power(10, Up(-j)), Power(10, Up(j)), Power(10, c), Pow2(Up(53 - e)));
  }

  lemma ScaledParts(w: nat, a: nat, b: nat, x: nat, y: nat, s: nat)
    requires a * b == x * y
    ensures (w * (a * s)) * b == (w * x) * (s * y)
  {
    assert (w * (a * s)) * b == w * (s * (a * b)) by { MulAssoc(w, a * s, b); assert (a * s) * b == s * (a * b) by { MulAssoc(s, a, b); } }
    assert (w * x) * (s * y) == w * (s * (x * y)) by { MulAssoc(w, x, s * y); assert x * (s * y) == s * (x * y) by { MulAssoc(x, s, y); MulAssoc(s, x, y); } }
  }

  /** It is read as the double exactly if it rounds to as many quanta. */
  lemma ReadsBackScaled(w: nat, j: int, c: nat, m: nat, e: int)
    requires Double(m, e) && Even(m, e) && j + c >= 0
    ensures var v := UnitOf(c, e) * Pow2(Up(E_MIN - e));
            v > 0 && (ReadsBack(w, j, m, e) <==> RoundDiv(Scaled(w, j, c, e), v, NearestEven) == Quanta(m, e))
  {
    hide Double, Even, Rounded, Num, Den, Scaled, UnitOf, ScaleOf, Quanta, RoundDiv, Pow2, Unit;
    ScalePositive(c, e);
    PositivePower(Up(E_MIN - e));
    MulPositive(UnitOf(c, e), Pow2(Up(E_MIN - e)));
    ScaledRatio(w, j, c, e);
    var y, s := Scaled(w, j, c, e), ScaleOf(c, e);
    var n, d := Num(w, 0, 10, j), Den(0, 10, j);
    if ReadsBack(w, j, m, e) {
      RoundedRatio(n, d, y, s, m, e);
      ReadQuanta(y, s, m, e, UnitOf(c, e));
    }
    if RoundDiv(y, UnitOf(c, e) * Pow2(Up(E_MIN - e)), NearestEven) == Quanta(m, e) {
      QuantaRead(y, s, m, e, UnitOf(c, e));
      RoundedRatio(y, s, n, d, m, e);
    }
  }

  /** The digits are the double on that scale, rounded to their unit. */
  lemma MantScaled(m: nat, e: int, q: nat, exp: int, c: nat)
    requires exp - q + c >= 0
    ensures var x, d := m * UnitOf(c, e), Scaled(1, exp - q, c, e);
            d > 0 && Mant(m, e, q, exp, NearestEven) == RoundDiv(x, d, NearestEven)
    ensures Den(e - MANT_BITS, 10, q - exp) > 0
    ensures (m * UnitOf(c, e)) * Den(e - MANT_BITS, 10, q - exp) == Num(m, e - MANT_BITS, 10, q - exp) * Scaled(1, exp - q, c, e)
  {
    hide Power, Pow2, RoundDiv;
    var f := q - exp;
    DenPositive(e - MANT_BITS, 10, f);
    PositivePower(Up(53 - e));
    PowerPositive(10, c - f);
    MulPositive(Power(10, c - f), Pow2(Up(53 - e)));
    PowerAdd(10, c, Up(-f));
    PowerAdd(10, Up(f), c - f);
    assert c + Up(-f) == Up(f) + (c - f);
    MantParts(m, Pow2(Up(e - 53)), Power(10, c), Pow2(Up(53 - e)), Power(10, Up(-f)), Power(10, Up(f)), Power(10, c - f));
    RoundRatio(m * UnitOf(c, e), Scaled(1, -f, c, e), Num(m, e - MANT_BITS, 10, f), Den(e - MANT_BITS, 10, f), NearestEven);
  }

  lemma MantParts(m: nat, a: nat, t: nat, b: nat, v: nat, t1: nat, v1: nat)
    requires t * v == t1 * v1
    ensures (m * (a * t)) * (b * v) == (m * a * t1) * (v1 * b)
  {
    MulAssoc(m, a, t);
    FourFactors(m * a, t, b, v);
    FourFactors(m * a, t1, b, v1);
    assert v1 * b == b * v1;
  }

  // ----- no decimal with so few digits is nearer

  /** `d` and ten times `d` are the units of the two attempts, `x` the number, and w * 10^a the other decimal. */
  lemma NoneNearer(x: nat, b: nat, q: nat, k: nat, w: nat, a: nat)
    requires q >= 1 && b > 0 && w < Power(10, q) && Power(10, q - 1) * (Power(10, k) * b) <= x
    ensures var d0, d1 := Power(10, k) * b, Power(10, k + 1) * b;
            && d0 > 0 && d1 > 0
            && var c0 := RoundDiv(x, d0, NearestEven);
            var c := if c0 < Power(10, q) then c0 * d0 else RoundDiv(x, d1, NearestEven) * d1;
            Distance(c, x) <= Distance(w * (Power(10, a) * b), x)
  {
    hide Power, RoundDiv, Distance;
    PowerPositive(10, k);
    PowerPositive(10, k + 1);
    MulPositive(Power(10, k), b);
    MulPositive(Power(10, k + 1), b);
    if RoundDiv(x, Power(10, k) * b, NearestEven) < Power(10, q) {
      NoneNearerFirst(x, b, q, k, w, a);
    } else {
      NoneNearerSecond(x, b, q, k, w, a);
    }
  }

  lemma NoneNearerFirst(x: nat, b: nat, q: nat, k: nat, w: nat, a: nat)
    requires q >= 1 && w < Power(10, q) && Power(10, k) * b > 0 && Power(10, q - 1) * (Power(10, k) * b) <= x
    ensures var d := Power(10, k) * b; Distance(RoundDiv(x, d, NearestEven) * d, x) <= Distance(w * (Power(10, a) * b), x)
  {
    hide Power, RoundDiv;
    if a >= k {
      Multiple(w, a, k, b);
      RoundIsNearest(x, Power(10, k) * b, NearestEven, w * Power(10, a - k));
    } else {
      BelowUnit(w, q, a, k, b);
      RoundIsNearest(x, Power(10, k) * b, NearestEven, Power(10, q - 1));
      FurtherBelow(x, Power(10, q - 1) * (Power(10, k) * b), w * (Power(10, a) * b));
    }
  }

  lemma FurtherBelow(x: nat, t: nat, y: nat)
    requires y <= t <= x
    ensures Distance(t, x) <= Distance(y, x)
  {
  }

  lemma NoneNearerSecond(x: nat, b: nat, q: nat, k: nat, w: nat, a: nat)
    requires q >= 1 && w < Power(10, q) && Power(10, k) * b > 0 && Power(10, k + 1) * b > 0
    requires RoundDiv(x, Power(10, k) * b, NearestEven) >= Power(10, q)
    ensures var d := Power(10, k + 1) * b; Distance(RoundDiv(x, d, NearestEven) * d, x) <= Distance(w * (Power(10, a) * b), x)
  {
    hide Power, RoundDiv, Distance;
    var d0, d1 := Power(10, k) * b, Power(10, k + 1) * b;
    if a >= k + 1 {
      Multiple(w, a, k + 1, b);
      RoundIsNearest(x, d1, NearestEven, w * Power(10, a - (k + 1)));
    } else {
      RoundBounds(x, d0, Power(10, q), NearestEven);
      MulAssoc(2, Power(10, q), d0);
      OneUnitBelow(w, q, a, k, b);
      RoundIsNearest(x, d1, NearestEven, Power(10, q - 1));
      CarriedNearest(x, Power(10, q) * d0, d0, w * (Power(10, a) * b));
    }
  }

  lemma CarriedNearest(x: nat, t: nat, d: nat, y: nat)
    requires 2 * x + d >= 2 * t && y + d <= t
    ensures Distance(t, x) <= Distance(y, x)
  {
  }

  lemma Multiple(w: nat, a: nat, k: nat, b: nat)
    requires a >= k
    ensures w * (Power(10, a) * b) == (w * Power(10, a - k)) * (Power(10, k) * b)
  {
    hide Power;
    PowerAdd(10, a - k, k);
    MulAssoc(w, Power(10, a - k), Power(10, k) * b);
    MulAssoc(Power(10, a - k), Power(10, k), b);
  }

  lemma BelowUnit(w: nat, q: nat, a: nat, k: nat, b: nat)
    requires q >= 1 && w < Power(10, q) && a < k
    ensures w * (Power(10, a) * b) <= Power(10, q - 1) * (Power(10, k) * b)
  {
    hide Power;
    PowerAdd(10, q, a);
    PowerAdd(10, q - 1, k);
    PowerMonotone(10, q + a, q - 1 + k);
    MulMono(w, Power(10, q), Power(10, a) * b);
    MulAssoc(Power(10, q), Power(10, a), b);
    MulAssoc(Power(10, q - 1), Power(10, k), b);
    MulMono(Power(10, q + a), Power(10, q - 1 + k), b);
  }

  lemma OneUnitBelow(w: nat, q: nat, a: nat, k: nat, b: nat)
    requires q >= 1 && w < Power(10, q) && a <= k
    ensures w * (Power(10, a) * b) + Power(10, k) * b <= Power(10, q) * (Power(10, k) * b) == Power(10, q - 1) * (Power(10, k + 1) * b)
  {
    hide Power;
    PowerMonotone(10, a, k);
    MulMono(Power(10, a), Power(10, k), b);
    MulMono(Power(10, a) * b, Power(10, k) * b, w);
    MulMono(w + 1, Power(10, q), Power(10, k) * b);
    Distribute(w, 1, Power(10, k) * b);
    PowerAdd(10, q, k);
    PowerAdd(10, q - 1, k + 1);
    MulAssoc(Power(10, q), Power(10, k), b);
    MulAssoc(Power(10, q - 1), Power(10, k + 1), b);
  }

  /** Any decimal of at most `q` digits is at least as far from the double as its correctly rounded `q` digits, so
      that these are read back if it is. */
  lemma FewDigits(m: nat, e: int, exp0: int, q: nat, w: nat, j: int)
    requires Double(m, e) && Even(m, e) && FloorLog(e - 1, exp0 - 1) && q >= 1 && w < Power(10, q) && ReadsBack(w, j, m, e)
    ensures var exp := Settled(m, e, q, exp0, NearestEven); ReadsBack(Mant(m, e, q, exp, NearestEven), exp - q, m, e)
  {
    hide Double, Even, ReadsBack, Mant, RoundDiv, Power, Pow2, Num, Den, Scaled, UnitOf, Quanta, FloorLog;
    var exp := Settled(m, e, q, exp0, NearestEven);
    var c := Up(-j) + Up(q - exp0);
    DigitsNearer(m, e, exp0, q, w, j, c);
    ReadsBackScaled(w, j, c, m, e);
    var mant := Mant(m, e, q, exp, NearestEven);
    ReadsBackScaled(mant, exp - q, c, m, e);
    QuantaUnits(m, e, c);
    RoundCloser(Scaled(w, j, c, e), Scaled(mant, exp - q, c, e), UnitOf(c, e) * Pow2(Up(E_MIN - e)), Quanta(m, e));
  }

  lemma QuantaUnits(m: nat, e: int, c: nat)
    requires Double(m, e)
    ensures Quanta(m, e) * (UnitOf(c, e) * Pow2(Up(E_MIN - e))) == m * UnitOf(c, e)
  {
    hide Double, Quanta, UnitOf, Pow2;
    QuantaIs(m, e);
    FourFactors(Quanta(m, e), 1, UnitOf(c, e), Pow2(Up(E_MIN - e)));
    MulAssoc(Quanta(m, e), Pow2(Up(E_MIN - e)), UnitOf(c, e));
  }

  lemma DigitsNearer(m: nat, e: int, exp0: int, q: nat, w: nat, j: int, c: nat)
    requires Double(m, e) && FloorLog(e - 1, exp0 - 1) && q >= 1 && w < Power(10, q) && c == Up(-j) + Up(q - exp0)
    ensures var exp := Settled(m, e, q, exp0, NearestEven);
            && exp - q + c >= 0
            && Distance(Scaled(Mant(m, e, q, exp, NearestEven), exp - q, c, e), m * UnitOf(c, e)) <= Distance(Scaled(w, j, c, e), m * UnitOf(c, e))
  {
    hide Double, Mant, RoundDiv, Power, Pow2, Num, Den, UnitOf, FloorLog;
    var x, b, k := m * UnitOf(c, e), Pow2(Up(53 - e)), exp0 - q + c;
    PositivePower(Up(53 - e));
    MantScaled(m, e, q, exp0, c);
    MantScaled(m, e, q, exp0 + 1, c);
    MantRange(m, e, q, exp0);
    LowerEnd10(Num(m, e - MANT_BITS, 10, q - exp0), Den(e - MANT_BITS, 10, q - exp0), x, Power(10, k) * b, Power(10, q - 1));
    NoneNearer(x, b, q, k, w, j + c);
  }

  lemma LowerEnd10(n: nat, d: nat, x: nat, u: nat, t: nat)
    requires d > 0 && x * d == n * u && t * d <= n
    ensures t * u <= x
  {
    MulMono(t * d, n, u);
    assert (t * d) * u == (t * u) * d by { MulAssoc(t, d, u); MulAssoc(t, u, d); }
    ScaleOrder(t * u, x, d);
  }

  // ----- powers of two

  /** What is read as a power of two: half a unit above, but only a quarter below. */
  predicate ReadAsPower(y: nat, u: nat) {
    if y >= Pow2(52) * u then 2 * (y - Pow2(52) * u) <= u else 4 * (Pow2(52) * u - y) <= u
  }

  lemma PowerBinade(y: nat, s: nat, e: int, u: nat)
    requires s > 0 && u > 0 && Unit(u, s, e) && u * Pow2(51) <= y < u * Pow2(53)
    ensures ScaledDen(u, 53 - e) > 0 && ScaledNum(y, 53 - e) * s == y * ScaledDen(u, 53 - e)
    ensures Binade(ScaledNum(y, 53 - e), ScaledDen(u, 53 - e), if y >= u * Pow2(52) then e else e - 1)
  {
    hide Pow2, Unit, ScaledNum, ScaledDen, AtLeast;
    UnitRatio(y, s, e, u, 51);
    UnitRatio(y, s, e, u, 52);
    UnitRatio(y, s, e, u, 53);
  }

  lemma PowerIsRead(y: nat, s: nat, e: int, u: nat)
    requires Double(Pow2(52), e) && e > E_MIN && s > 0 && u > 0 && Unit(u, s, e) && ReadAsPower(y, u)
    ensures Rounded(y, s, Pow2(52), e)
  {
    hide Pow2, Unit, InUnits, ScaledNum, ScaledDen, Rounded, AtLeast, RoundDiv, ReadAsPower;
    PowerBounds(y, u);
    PowerBinade(y, s, e, u);
    PowerUnits(y, e, u);
    PowerRounds(y, u);
    var n, d := ScaledNum(y, 53 - e), ScaledDen(u, 53 - e);
    if y >= u * Pow2(52) {
      PowerRounded(n, d, e, e, Pow2(52));
    } else {
      PowerRounded(n, d, e - 1, e, Pow2(53));
    }
    RoundedRatio(n, d, y, s, Pow2(52), e);
  }

  lemma PowerBounds(y: nat, u: nat)
    requires u > 0 && ReadAsPower(y, u)
    ensures u * Pow2(51) <= y < u * Pow2(53)
  {
    HalfPower(53);
    HalfPower(52);
    HalfPower(51);
    PositivePower(50);
    hide Pow2;
    MulMono(2, Pow2(51), u);
    FourPowers(u, Pow2(51));
    FourParts(y, u, u * Pow2(51));
  }

  lemma FourPowers(u: nat, a: nat)
    ensures u * (2 * a) == 2 * (u * a) && u * (2 * (2 * a)) == 4 * (u * a) && (2 * a) * u == 2 * (u * a)
  {
    MulAssoc(u, 2, a);
    MulAssoc(u, 4, a);
  }

  lemma FourParts(y: nat, u: nat, a: nat)
    requires 0 < u && 2 * u <= a && if y >= 2 * a then 2 * (y - 2 * a) <= u else 4 * (2 * a - y) <= u
    ensures a <= y < 4 * a
  {
  }

  lemma PowerRounds(y: nat, u: nat)
    requires u > 0 && ReadAsPower(y, u)
    ensures if y >= u * Pow2(52) then RoundDiv(y, u, NearestEven) == Pow2(52) else RoundDiv(2 * y, u, NearestEven) == Pow2(53)
  {
    EvenPower();
    HalfPower(53);
    hide Pow2, RoundDiv;
    MulAssoc(2, Pow2(52), u);
    if y >= u * Pow2(52) {
      if 2 * Distance(y, Pow2(52) * u) == u { RoundTie(y, u, Pow2(52)); } else { RoundNear(y, u, Pow2(52)); }
    } else {
      if 2 * Distance(2 * y, Pow2(53) * u) == u { RoundTie(2 * y, u, Pow2(53)); } else { RoundNear(2 * y, u, Pow2(53)); }
    }
  }

  lemma EvenPower()
    ensures Pow2(52) % 2 == 0 && Pow2(53) % 2 == 0
  {
    Pow52();
    hide Pow2;
  }

  lemma PowerUnits(y: nat, e: int, u: nat)
    requires u > 0 && e > E_MIN
    ensures ScaledDen(u, 53 - e) > 0
    ensures InUnits(ScaledNum(y, 53 - e), ScaledDen(u, 53 - e), Quantum(e)) == RoundDiv(y, u, NearestEven)
    ensures InUnits(ScaledNum(y, 53 - e), ScaledDen(u, 53 - e), Quantum(e - 1)) == RoundDiv(2 * y, u, NearestEven)
  {
    ZeroShift();
    HalfPower(1);
    hide Pow2, InUnits, RoundDiv, ScaledNum, ScaledDen;
    UnitRounds(y, u, e, e - 53);
    UnitRounds(y, u, e, e - 54);
  }

  lemma PowerRounded(n: nat, d: nat, b: int, e: int, t: nat)
    requires d > 0 && Binade(n, d, b) && e > E_MIN && ((b == e && t == Pow2(52)) || (b == e - 1 && t == Pow2(53))) && InUnits(n, d, Quantum(b)) == t
    ensures Rounded(n, d, Pow2(52), e)
  {
    ZeroShift();
    HalfPower(1);
    HalfPower(53);
    Pow52();
    hide Pow2, InUnits, AtLeast;
    assert SameNumber(Pow2(52), e - MANT_BITS, t, Quantum(b));
    assert RoundedIn(n, d, b, Pow2(52), e);
  }

  lemma PowerReads(y: nat, s: nat, e: int, u: nat)
    requires Double(Pow2(52), e) && e > E_MIN && s > 0 && u > 0 && Unit(u, s, e) && Rounded(y, s, Pow2(52), e)
    ensures ReadAsPower(y, u)
  {
    hide Pow2, Unit, InUnits, ScaledNum, ScaledDen, Rounded, AtLeast, RoundDiv, Double;
    UnitRatio(y, s, e, u, 52);
    var n, d := ScaledNum(y, 53 - e), ScaledDen(u, 53 - e);
    SwapRatio(y, s, n, d);
    RoundedRatio(y, s, n, d, Pow2(52), e);
    PowerUnits(y, e, u);
    var b := PowerQuanta(n, d, e);
    PowerSide(n, d, e, b);
    HalfPower(53);
    assert Pow2(53) * u == 2 * (Pow2(52) * u) && Pow2(52) * u == u * Pow2(52);
    if b == e { RoundError(y, u, NearestEven); } else { RoundError(2 * y, u, NearestEven); }
  }

  lemma PowerSide(n: nat, d: nat, e: int, b: int)
    requires d > 0 && Binade(n, d, b) && (b == e || b == e - 1)
    ensures b == e <==> AtLeast(n, d, e - 1)
  {
    hide AtLeast;
  }

  lemma PowerQuanta(n: nat, d: nat, e: int) returns (b: int)
    requires d > 0 && e > E_MIN && Rounded(n, d, Pow2(52), e)
    ensures Binade(n, d, b) && (b == e || b == e - 1) && InUnits(n, d, Quantum(b)) == if b == e then Pow2(52) else Pow2(53)
  {
    ZeroShift();
    HalfPower(1);
    HalfPower(53);
    Pow52();
    hide Pow2, InUnits, AtLeast;
    b :| Binade(n, d, b) && RoundedIn(n, d, b, Pow2(52), e);
  }

  lemma ReadsBackPower(w: nat, j: int, c: nat, e: int)
    requires Double(Pow2(52), e) && e > E_MIN && j + c >= 0
    ensures ReadsBack(w, j, Pow2(52), e) <==> ReadAsPower(Scaled(w, j, c, e), UnitOf(c, e))
  {
    hide Double, Rounded, Num, Den, Scaled, UnitOf, ScaleOf, Pow2, Unit, ReadAsPower;
    ScalePositive(c, e);
    ScaledRatio(w, j, c, e);
    var y, s := Scaled(w, j, c, e), ScaleOf(c, e);
    var n, d := Num(w, 0, 10, j), Den(0, 10, j);
    if ReadsBack(w, j, Pow2(52), e) {
      RoundedRatio(n, d, y, s, Pow2(52), e);
      PowerReads(y, s, e, UnitOf(c, e));
    }
    if ReadAsPower(y, UnitOf(c, e)) {
      PowerIsRead(y, s, e, UnitOf(c, e));
      RoundedRatio(y, s, n, d, Pow2(52), e);
    }
  }

  /** A decimal of at most `q` digits above the number is a multiple of the unit. */
  lemma AboveIsMultiple(x: nat, b: nat, q: nat, k: nat, w: nat, a: nat) returns (i: nat)
    requires q >= 1 && b > 0 && w < Power(10, q) && Power(10, q - 1) * (Power(10, k) * b) <= x
    requires w * (Power(10, a) * b) > x
    ensures Power(10, k) * b > 0
    ensures w * (Power(10, a) * b) == i * (Power(10, if RoundDiv(x, Power(10, k) * b, NearestEven) < Power(10, q) then k else k + 1) * b)
  {
    hide Power, RoundDiv;
    PowerPositive(10, k);
    MulPositive(Power(10, k), b);
    var first := RoundDiv(x, Power(10, k) * b, NearestEven) < Power(10, q);
    var k1 := if first then k else k + 1;
    if a >= k1 {
      Multiple(w, a, k1, b);
      i := w * Power(10, a - k1);
    } else if first {
      BelowUnit(w, q, a, k, b);
      assert false;
    } else {
      RoundBounds(x, Power(10, k) * b, Power(10, q), NearestEven);
      MulAssoc(2, Power(10, q), Power(10, k) * b);
      OneUnitBelow(w, q, a, k, b);
      assert false;
    }
  }

  /** If `c` units, the nearest ones, are not read as the power of two, and something not nearer is that is at
      least the next multiple or is below, then c + 1 units are. */
  lemma NextIsRead(x: nat, u: nat, d: nat, c: nat, y: nat)
    requires d > 0 && x == Pow2(52) * u && ReadAsPower(y, u) && !ReadAsPower(c * d, u)
    requires Distance(c * d, x) <= Distance(y, x) && Distance(c * d, x) <= Distance((c + 1) * d, x)
    requires y > x ==> exists i: nat :: y == i * d
    ensures y > x && ReadAsPower((c + 1) * d, u)
  {
    hide Pow2;
    Distribute(c, 1, d);
    assert y > x && c * d < x;
    var i: nat :| y == i * d;
    if i <= c { MulMono(i, c, d); }
    MulMono(c + 1, i, d);
  }

  /** If fewer digits would do for a power of two, then the next larger ones of those that have been tried. */
  lemma FewerForPower(e: int, exp0: int, q: nat, w: nat, j: int)
    requires Double(Pow2(52), e) && e > E_MIN && FloorLog(e - 1, exp0 - 1) && q >= 1 && w < Power(10, q) && ReadsBack(w, j, Pow2(52), e)
    requires var exp := Settled(Pow2(52), e, q, exp0, NearestEven); !ReadsBack(Mant(Pow2(52), e, q, exp, NearestEven), exp - q, Pow2(52), e)
    ensures var exp := Settled(Pow2(52), e, q, exp0, NearestEven); ReadsBack(Mant(Pow2(52), e, q, exp, NearestEven) + 1, exp - q, Pow2(52), e)
  {
    hide Double, ReadsBack, Mant, RoundDiv, Power, Pow2, Scaled, UnitOf, FloorLog, ReadAsPower, Distance, Settled;
    var m := Pow2(52);
    var exp := Settled(m, e, q, exp0, NearestEven);
    var c := Up(-j) + Up(q - exp0);
    DigitsNearer(m, e, exp0, q, w, j, c);
    var mant := Mant(m, e, q, exp, NearestEven);
    ReadsBackPower(w, j, c, e);
    ReadsBackPower(mant, exp - q, c, e);
    ReadsBackPower(mant + 1, exp - q, c, e);
    var y, x := Scaled(w, j, c, e), m * UnitOf(c, e);
    ScaledIs(mant, exp - q, c, e);
    NextFurther(m, e, exp0, q, c);
    if y > x { var i := MultipleAbove(m, e, exp0, q, w, j, c); }
    NextIsRead(x, UnitOf(c, e), Scaled(1, exp - q, c, e), mant, y);
  }

  lemma ScaledIs(w: nat, j: int, c: nat, e: int)
    requires j + c >= 0
    ensures Scaled(1, j, c, e) > 0 && Scaled(w, j, c, e) == w * Scaled(1, j, c, e) && Scaled(w + 1, j, c, e) == (w + 1) * Scaled(1, j, c, e)
  {
    PowerPositive(10, j + c);
    PositivePower(Up(53 - e));
    hide Power, Pow2;
    MulPositive(Power(10, j + c), Pow2(Up(53 - e)));
  }

  lemma NextFurther(m: nat, e: int, exp0: int, q: nat, c: nat)
    requires exp0 - q + c >= 0
    ensures var exp := Settled(m, e, q, exp0, NearestEven);
            var mant, d := Mant(m, e, q, exp, NearestEven), Scaled(1, exp - q, c, e);
            Distance(mant * d, m * UnitOf(c, e)) <= Distance((mant + 1) * d, m * UnitOf(c, e))
  {
    hide Mant, RoundDiv, Power, Pow2, Scaled, UnitOf, Num, Den, Distance;
    var exp := Settled(m, e, q, exp0, NearestEven);
    MantScaled(m, e, q, exp, c);
    RoundIsNearest(m * UnitOf(c, e), Scaled(1, exp - q, c, e), NearestEven, Mant(m, e, q, exp, NearestEven) + 1);
  }

  lemma MultipleAbove(m: nat, e: int, exp0: int, q: nat, w: nat, j: int, c: nat) returns (i: nat)
    requires Double(m, e) && FloorLog(e - 1, exp0 - 1) && q >= 1 && w < Power(10, q) && c == Up(-j) + Up(q - exp0)
    requires Scaled(w, j, c, e) > m * UnitOf(c, e)
    ensures var exp := Settled(m, e, q, exp0, NearestEven); Scaled(w, j, c, e) == i * Scaled(1, exp - q, c, e)
  {
    hide Double, Mant, RoundDiv, Power, Pow2, Num, Den, UnitOf, FloorLog;
    var x, b, k := m * UnitOf(c, e), Pow2(Up(53 - e)), exp0 - q + c;
    PositivePower(Up(53 - e));
    MantScaled(m, e, q, exp0, c);
    MantRange(m, e, q, exp0);
    LowerEnd10(Num(m, e - MANT_BITS, 10, q - exp0), Den(e - MANT_BITS, 10, q - exp0), x, Power(10, k) * b, Power(10, q - 1));
    i := AboveIsMultiple(x, b, q, k, w, j + c);
  }

  // ----- when there are the fewest digits

  /** Some decimal with fewer digits is read as the double. */
  ghost predicate FewerDo(m: nat, e: int, p: nat)
    requires p >= 1
  {
    exists w: nat, j: int :: w < Power(10, p - 1) && ReadsBack(w, j, m, e)
  }

  /** The digits are the fewest that are read back, except for those powers of two for which the correctly rounded
      digits that are one fewer are too far below, while the next larger ones are near enough. */
  lemma FewestDigits(m: nat, e: int, exp0: int, mant: nat, p: nat, exp: int)
    requires Double(m, e) && FloorLog(e - 1, exp0 - 1) && Shortest(m, e, exp0, mant, p, exp)
    ensures FewerDo(m, e, p) <==>
              m == Pow2(52) && e > E_MIN && p > 1
              && var exp1 := Settled(m, e, p - 1, exp0, NearestEven); ReadsBack(Mant(m, e, p - 1, exp1, NearestEven) + 1, exp1 - (p - 1), m, e)
  {
    hide Double, ReadsBack, Mant, FloorLog, Settled, Power, Pow2;
    if FewerDo(m, e, p) {
      var w: nat, j: int :| w < Power(10, p - 1) && ReadsBack(w, j, m, e);
      if p == 1 {
        PowerOne(10);
        ZeroNotRead(j, m, e);
      } else if m != Pow2(52) || e <= E_MIN {
        FewDigits(m, e, exp0, p - 1, w, j);
      } else {
        FewerForPower(e, exp0, p - 1, w, j);
      }
    }
    if p > 1 {
      var exp1 := Settled(m, e, p - 1, exp0, NearestEven);
      MantSettles(m, e, p - 1, exp0, NearestEven);
      if ReadsBack(Mant(m, e, p - 1, exp1, NearestEven) + 1, exp1 - (p - 1), m, e) {
        FewerIs(Mant(m, e, p - 1, exp1, NearestEven) + 1, exp1 - (p - 1), m, e, p);
      }
    }
  }

  lemma ZeroNotRead(j: int, m: nat, e: int)
    requires Double(m, e)
    ensures !ReadsBack(0, j, m, e)
  {
    hide Double, RoundedIn, Pow2, Power;
    DenPositive(0, 10, j);
    NumDenZero(0, 10, j);
    Times0(Power(10, Up(j)));
    var n, d := Num(0, 0, 10, j), Den(0, 10, j);
    forall b ensures !AtLeast(n, d, b) {
      PositivePower(Up(b));
      MulPositive(d, Pow2(Up(b)));
      Times0(Pow2(Up(-b)));
    }
  }

  lemma FewerIs(w: nat, j: int, m: nat, e: int, p: nat)
    requires p > 1 && w <= Power(10, p - 1) && ReadsBack(w, j, m, e)
    ensures FewerDo(m, e, p)
  {
    hide ReadsBack, Power;
    if w == Power(10, p - 1) {
      PowerOne(10);
      PowerMonotone(10, 1, p - 1);
      ReadsBackTens(1, j, m, e, p - 1);
      assert 1 < Power(10, p - 1) && ReadsBack(1, j + (p - 1), m, e);
    }
  }

  /** 2^-44 is written with 17 digits, and 16 would do: 5684341886080802 * 10^-29 is read as this number. */
  lemma OneDigitTooMany(mant: nat, p: nat, exp: int)
    requires Shortest(Pow2(52), -43, -13, mant, p, exp)
    ensures Double(Pow2(52), -43) && FloorLog(-44, -14)
    ensures ReadsBack(5684341886080802, -29, Pow2(52), -43) && p == 17
  {
    hide ReadsBack, Mant, Power, Pow2, Double, FloorLog, Settled, Scaled, UnitOf, ReadAsPower;
    SmallLog();
    OnScale(5684341886080802);
    ReadsBackPower(5684341886080802, -29, 29, -43);
    if p <= 16 {
      ShortestReads(Pow2(52), -43, -13, mant, p, exp);
      var k := exp - p + 29;
      OnScale(mant * Power(10, k));
      ReadsBackPower(mant, exp - p, 29, -43);
      ScaledTens(mant, exp - p, 29, -43);
      NotTens(mant, k);
      NearestBelow();
    }
  }

  lemma SmallLog()
    ensures Double(Pow2(52), -43) && FloorLog(-44, -14)
  {
    Literals();
    ZeroShift();
    PowerOne(10);
    HalfPower(53);
    hide Pow2, Power;
  }

  lemma Literals()
    ensures Pow2(44) == 17592186044416 && Pow2(52) == 4503599627370496 && Pow2(96) == 79228162514264337593543950336
    ensures Power(10, 13) == 10000000000000 && Power(10, 14) == 100000000000000 && Power(10, 29) == 100000000000000000000000000000
  {
    SixteenDigits();
    SmallPow2();
    Pow2Add(32, 12);
    Pow2Add(44, 52);
    Pow5TableCorrect(13);
    PowerMul(5, 2, 13);
    Pow2Is(13);
    PowerOne(10);
    PowerAdd(10, 13, 1);
    PowerAdd(10, 16, 13);
    assert Pow2(12) == 4096 && Pow2(13) == 8192;
    hide Power, Pow2;
  }

  lemma OnScale(w: nat)
    ensures UnitOf(29, -43) == 100000000000000000000000000000 && Scaled(w, -29, 29, -43) == w * 79228162514264337593543950336
    ensures ReadAsPower(Scaled(w, -29, 29, -43), UnitOf(29, -43)) <==> w == 5684341886080802
  {
    Literals();
    ZeroShift();
    PowerOne(10);
    hide Power, Pow2;
  }

  lemma ScaledTens(w: nat, j: int, c: nat, e: int)
    requires j + c >= 0
    ensures Scaled(w, j, c, e) == Scaled(w * Power(10, j + c), -(c as int), c, e)
  {
    PowerOne(10);
    hide Power, Pow2;
    MulAssoc(w, Power(10, j + c), Pow2(Up(53 - e)));
  }

  lemma NotTens(w: nat, k: nat)
    requires w * Power(10, k) == 5684341886080802
    ensures k == 0 && w == 5684341886080802
  {
    PowerOne(10);
    hide Power;
    if k > 0 { TensEnd(w, k); }
  }

  lemma TensEnd(w: nat, k: nat)
    requires k > 0
    ensures (w * Power(10, k)) % 10 == 0
  {
    hide Power;
    PowerOne(10);
    PowerAdd(10, 1, k - 1);
    MulAssoc(w, 10, Power(10, k - 1));
    MulAssoc(10, w, Power(10, k - 1));
    EndsWithZero(w * Power(10, k - 1));
  }

  lemma EndsWithZero(y: nat)
    ensures (10 * y) % 10 == 0
  {
  }

  lemma NearestBelow()
    ensures Mant(Pow2(52), -43, 16, -13, NearestEven) == 5684341886080801
  {
    Literals();
    OnScale(1);
    hide Power, Pow2, RoundDiv, Num, Den, UnitOf, Scaled;
    MantScaled(Pow2(52), -43, 16, -13, 29);
    RoundNear(450359962737049600000000000000000000000000000, 79228162514264337593543950336, 5684341886080801);
  }

  /** There is only one outcome of the search. */
  lemma ShortestUnique(m: nat, e: int, exp0: int, mant: nat, p: nat, exp: int, mant': nat, p': nat, exp': int)
    requires Shortest(m, e, exp0, mant, p, exp) && Shortest(m, e, exp0, mant', p', exp')
    ensures mant == mant' && p == p' && exp == exp'
  {
    hide Mant, Settled, Power, Suffices, ReadsBack;
  }
}
