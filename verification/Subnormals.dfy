/** Subnormal numbers in radix 10: how many digits they need, and where their decimal exponent is. */
module Subnormals {
  import opened Limbs
  import opened Rounding
  import opened Bignum
  import opened Scaling
  import opened Ratios
  import opened Doubles
  import opened Atod
  import opened Numerals
  import opened Dtoa
  import opened Logs

  // ----- reading back

  /** Between the numbers around a subnormal number lies the smallest one, so it is read back from all that is
      nearer than half of that. */
  lemma NearQuantum(y: nat, s: nat, m: nat, e: int, u: nat)
    requires Double(m, e) && e < E_MIN && s > 0 && u > 0 && Unit(u, s, e)
    requires 2 * Distance(y, m * u) < u * Pow2(E_MIN - e)
    ensures Rounded(y, s, m, e)
  {
    hide Pow2, Unit, InUnits, ScaledNum, ScaledDen, Rounded, AtLeast, Double;
    UnitRatio(y, s, e, u, 51);
    UnitRatio(y, s, e, u, 52);
    UnitRatio(y, s, e, u, 53);
    var t := QuantaOf(m, e);
    WholeQuanta(y, m, u, Pow2(E_MIN - e), E_MIN - e, t);
    var n, d := ScaledNum(y, 53 - e), ScaledDen(u, 53 - e);
    QuantaRounded(y, u, e, t);
    var b := if y >= u * Pow2(52) then e else e - 1;
    SubnormalRounded(n, d, b, m, e, t);
    RoundedRatio(n, d, y, s, m, e);
  }

  lemma SubnormalRounded(n: nat, d: nat, b: int, m: nat, e: int, t: nat)
    requires d > 0 && -1073 <= e < E_MIN && b <= e <= b + 1 && Binade(n, d, b) && t > 0 && Pow2(52) <= m < Pow2(53)
    requires InUnits(n, d, -1074) == t && m == t * Pow2(E_MIN - e)
    ensures Rounded(n, d, m, e)
  {
    ZeroShift();
    Pow52();
    hide Pow2, InUnits, AtLeast;
    assert SameNumber(m, e - MANT_BITS, t, -1074);
    assert RoundedIn(n, d, b, m, e);
  }

  /** A subnormal number is a whole number of quanta. */
  lemma QuantaOf(m: nat, e: int) returns (t: nat)
    requires Double(m, e) && e < E_MIN
    ensures m == t * Pow2(E_MIN - e) && t > 0 && -1073 <= e && Pow2(52) <= m < Pow2(53)
  {
    Pow52();
    hide Pow2;
    ZeroShift();
    DivMod(m, Pow2(E_MIN - e));
    t := m / Pow2(E_MIN - e);
    Times0(Pow2(E_MIN - e));
  }

  lemma QuantaRounded(y: nat, u: nat, e: int, t: nat)
    requires e < E_MIN && u > 0 && 2 * Distance(y, t * (u * Pow2(E_MIN - e))) < u * Pow2(E_MIN - e)
    ensures ScaledDen(u, 53 - e) > 0 && InUnits(ScaledNum(y, 53 - e), ScaledDen(u, 53 - e), -1074) == t
  {
    ZeroShift();
    hide Pow2, InUnits, ScaledNum, ScaledDen, RoundDiv;
    MulPositive(u, Pow2(E_MIN - e));
    UnitRounds(y, u, e, -1074);
    RoundNear(y, u * Pow2(E_MIN - e), t);
  }

  /** Being nearer than half a quantum keeps the magnitude. */
  lemma WholeQuanta(y: nat, m: nat, u: nat, q: nat, z: nat, t: nat)
    requires 1 <= z <= 52 && q == Pow2(z) && m == t * q && Pow2(52) <= m < Pow2(53) && 2 * Distance(y, m * u) < u * q
    ensures 2 * Distance(y, t * (u * q)) < u * q
    ensures u * Pow2(51) <= y < u * Pow2(53)
  {
    HalfPower(52);
    Pow2Add(z, 53 - z);
    Pow2Monotone(z, 52);
    hide Pow2;
    QuantaBounds(y, m, u, q, t, Pow2(53 - z), Pow2(51));
  }

  lemma QuantaBounds(y: nat, m: nat, u: nat, q: nat, t: nat, high: nat, low: nat)
    requires m == t * q && 2 * Distance(y, m * u) < u * q && q <= 2 * low <= m < q * high
    ensures 2 * Distance(y, t * (u * q)) < u * q && u * low <= y < u * (q * high)
  {
    assert t * (u * q) == m * u by { MulAssoc(t, q, u); }
    assert high * (u * q) == u * (q * high) by { MulAssoc(high, u, q); MulAssoc(u, high, q); }
    if t >= high { MulMono(high, t, q); }
    MulMono(t + 1, high, u * q);
    Distribute(t, 1, u * q);
    MulMono(2 * low, m, u);
    MulMono(q, 2 * low, u);
    assert u * (2 * low) == 2 * (u * low);
  }

  /** 324 digits behind the point are enough. */
  lemma FineEnough(m: nat, e: int, p: int, exp: int)
    requires Double(m, e) && e < E_MIN && p - exp >= 324
    ensures ReadsBack(Mant(m, e, p, exp, NearestEven), exp - p, m, e)
  {
    hide Power, Pow2, RoundDiv, Rounded, Num, Den, Unit;
    var f := p - exp;
    var n, d := Num(m, e - 53, 10, f), Den(e - 53, 10, f);
    DenPositive(e - 53, 10, f);
    DenPositive(0, 10, -f);
    var mant := Mant(m, e, p, exp, NearestEven);
    var u, s := Pow2(Up(e - 53)) * Power(10, Up(f)), Power(10, Up(f)) * Pow2(Up(53 - e));
    PowerPositive(10, Up(f));
    MulPositive(Pow2(Up(e - 53)), Power(10, Up(f)));
    MulPositive(Power(10, Up(f)), Pow2(Up(53 - e)));
    RoundError(n, d, NearestEven);
    ReadingParts(m, e, f, u, s, mant);
    BelowQuantum(e, f);
    NearQuantum(mant * d, s, m, e, u);
    RoundedRatio(mant * d, s, Num(mant, 0, 10, -f), Den(0, 10, -f), m, e);
  }

  /** 10^-324 < 2^-1074 */
  lemma BelowQuantum(e: int, f: int)
    requires -1073 <= e < E_MIN && f >= 324
    ensures Den(e - 53, 10, f) < (Pow2(Up(e - 53)) * Power(10, Up(f))) * Pow2(E_MIN - e)
  {
    ZeroShift();
    PowerOne(10);
    QuantumLog();
    hide Power, Pow2;
    PowerMonotone(10, 324, f);
    Pow2Add(1074, E_MIN - e);
    ScaleOrder(Power(10, f), Pow2(1074), Pow2(E_MIN - e));
  }

  lemma QuantumLog()
    ensures Pow2(1074) < Power(10, 324)
  {
    ZeroShift();
    PowerOne(10);
    assert MulLog2Ten(1074) == 323;
    MulLog2TenIsFloor(1074);
    hide Power, Pow2;
  }

  lemma FineSuffices(m: nat, e: int, p: nat, exp0: int)
    requires Double(m, e) && e < E_MIN && p - exp0 >= 325
    ensures Suffices(m, e, exp0, p)
  {
    hide Double, ReadsBack, Mant, Power;
    FineEnough(m, e, p, Settled(m, e, p, exp0, NearestEven));
  }

  /** The shortest digits end there. */
  lemma ShortestEnds(m: nat, e: int, exp0: int, mant: nat, p: nat, exp: int)
    requires Double(m, e) && e < E_MIN && FloorLog(e - 1, exp0 - 1) && exp0 >= -323 && Shortest(m, e, exp0, mant, p, exp)
    ensures p - exp <= 325
  {
    hide Double, ReadsBack, Mant, FloorLog, Power;
    if p > 1 && p - exp > 325 {
      FineSuffices(m, e, p - 1, exp0);
    }
  }
}
