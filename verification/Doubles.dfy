/** IEEE 754 binary64: rounding a positive ratio, and the bit patterns. */
module Doubles {
  import opened Limbs
  import opened Rounding
  import opened Bignum
  import opened Scaling
  import opened Ratios

  const MANT_BITS := 53
  const E_MIN := -1021

  /** n/d >= 2^e */
  predicate AtLeast(n: nat, d: nat, e: int) {
    n * Pow2(Up(-e)) >= d * Pow2(Up(e))
  }

  /** 2^(e-1) <= n/d < 2^e */
  predicate Binade(n: nat, d: nat, e: int) {
    AtLeast(n, d, e - 1) && !AtLeast(n, d, e)
  }

  /** The distance of doubles around n/d is 2^Quantum(e), where e is the binade of n/d. */
  function Quantum(e: int): int {
    if e < E_MIN then -1074 else e - MANT_BITS
  }

  /** n/d, in units of 2^q, rounded to the nearest integer, ties to even. */
  function InUnits(n: nat, d: nat, q: int): nat
    requires d > 0
  {
    MulPositive(d, Pow2(Up(q)));
    RoundDiv(n * Pow2(Up(-q)), d * Pow2(Up(q)), NearestEven)
  }

  /** m * 2^x == t * 2^y */
  predicate SameNumber(m: nat, x: int, t: nat, y: int) {
    m * Pow2(Up(x - y)) == t * Pow2(Up(y - x))
  }

  /** The correctly rounded n/d as a mantissa of 53 bits and an exponent, or zero. */
  ghost predicate Rounded(n: nat, d: nat, m: nat, e: int)
    requires d > 0
  {
    exists b :: Binade(n, d, b) && RoundedIn(n, d, b, m, e)
  }

  predicate RoundedIn(n: nat, d: nat, b: int, m: nat, e: int)
    requires d > 0
  {
    var t := InUnits(n, d, Quantum(b));
    && (m == 0 || Pow2(52) <= m < Pow2(53))
    && (m == 0 <==> t == 0)
    && (m > 0 ==> SameNumber(m, e - MANT_BITS, t, Quantum(b)))
    && (m > 0 ==> e >= -1073 && b <= e <= b + 1)
  }

  // ----- the nearest double

  /** A finite double, as an integer times a power of two. */
  predicate IsDouble(m: nat, x: int) {
    m < Pow2(53) && x >= -1074
  }

  lemma InUnitsPositive(d: nat, q: int)
    requires d > 0
    ensures d * Pow2(Up(q)) > 0
  {
    MulPositive(d, Pow2(Up(q)));
  }

  /** Among all doubles, none is nearer to n/d than the rounded value: the distances are compared in units
      of 2^min(q, x) / d. */
  lemma NearestDouble(n: nat, d: nat, b: int, m: nat, x: int)
    requires d > 0 && Binade(n, d, b) && IsDouble(m, x)
    ensures var q := Quantum(b);
            var low := if q < x then q else x;
            var t := InUnits(n, d, q);
            Distance(t * Pow2(q - low) * (d * Pow2(Up(low))), n * Pow2(Up(-low)))
            <= Distance(m * Pow2(x - low) * (d * Pow2(Up(low))), n * Pow2(Up(-low)))
  {
    hide Pow2, RoundDiv;
    var q := Quantum(b);
    if q <= x {
      InUnitsPositive(d, q);
      ZeroShift();
      RoundIsNearest(n * Pow2(Up(-q)), d * Pow2(Up(q)), NearestEven, m * Pow2(x - q));
    } else {
      FinerDouble(n, d, b, m, x);
    }
  }

  /** A double of a finer quantum is below the binade, and so further away than the binade's lower end. */
  lemma FinerDouble(n: nat, d: nat, b: int, m: nat, x: int)
    requires d > 0 && Binade(n, d, b) && IsDouble(m, x) && x < Quantum(b)
    ensures var q := Quantum(b);
            var t := InUnits(n, d, q);
            Distance(t * Pow2(q - x) * (d * Pow2(Up(x))), n * Pow2(Up(-x)))
            <= Distance(m * Pow2(0) * (d * Pow2(Up(x))), n * Pow2(Up(-x)))
  {
    hide Pow2, RoundDiv;
    var q := Quantum(b);
    assert q == b - 53;
    ZeroShift();
    InUnitsPositive(d, q);
    var t := InUnits(n, d, q);
    RoundIsNearest(n * Pow2(Up(-q)), d * Pow2(Up(q)), NearestEven, Pow2(52));
    LowerEnd(n, d, q, x);
    Rescale(t, n, d, q, x);
    Rescale(Pow2(52), n, d, q, x);
    DoubleBelow(m, d, q, x);
    ScaleDistance(t * (d * Pow2(Up(q))), n * Pow2(Up(-q)), Pow2(52) * (d * Pow2(Up(q))), Pow2(ScaleFactor(q, x)));
  }

  /** From units of 2^q / d to the finer ones of 2^x / d. */
  function ScaleFactor(q: int, x: int): nat
    requires x < q
  {
    Up(-x) - Up(-q)
  }

  lemma Rescale(t: nat, n: nat, d: nat, q: int, x: int)
    requires x < q
    ensures Up(-x) >= Up(-q)
    ensures t * Pow2(q - x) * (d * Pow2(Up(x))) == (t * (d * Pow2(Up(q)))) * Pow2(Up(-x) - Up(-q))
    ensures n * Pow2(Up(-x)) == (n * Pow2(Up(-q))) * Pow2(Up(-x) - Up(-q))
  {
    hide Pow2;
    var k := Up(-x) - Up(-q);
    Pow2Add(Up(-q), k);
    MulAssoc(n, Pow2(Up(-q)), Pow2(k));
    assert q - x + Up(x) == Up(q) + k;
    Pow2Balance(q - x, Up(x), Up(q), k);
    FourFactors(t, d, Pow2(q - x), Pow2(Up(x)));
    FourFactors(t, d, Pow2(Up(q)), Pow2(k));
    RescaleParts(t, d, Pow2(q - x), Pow2(Up(x)), Pow2(Up(q)), Pow2(k));
  }

  lemma RescaleParts(t: nat, d: nat, a: nat, b: nat, c: nat, k: nat)
    requires a * b == c * k
    ensures t * a * (d * b) == (t * (d * c)) * k
  {
    FourFactors(t, a, d, b);
    assert (t * a) * (d * b) == (t * d) * (a * b);
    MulAssoc(t * d, c, k);
    MulAssoc(t, d, c);
  }

  lemma ScaleDistance(a: nat, y: nat, c: nat, k: nat)
    requires Distance(a, y) <= Distance(c, y)
    ensures Distance(a * k, y * k) <= Distance(c * k, y * k)
  {
    DistanceTimes(a, y, k);
    DistanceTimes(c, y, k);
    MulMono(Distance(a, y), Distance(c, y), k);
  }

  lemma DistanceTimes(a: nat, b: nat, k: nat)
    ensures Distance(a * k, b * k) == Distance(a, b) * k
  {
    if a < b {
      MulMono(a, b, k);
      Distribute(b - a, a, k);
    } else {
      MulMono(b, a, k);
      Distribute(a - b, b, k);
    }
  }

  /** 2^52 units are the lower end of the binade. */
  lemma LowerEnd(n: nat, d: nat, q: int, x: int)
    requires AtLeast(n, d, q + 52) && x < q
    ensures Pow2(52) * Pow2(q - x) * (d * Pow2(Up(x))) <= n * Pow2(Up(-x))
  {
    hide Pow2;
    var e := q + 52;
    var k := 52 + (q - x) + Up(x);
    assert e - x == 52 + (q - x);
    Pow2Add(52, q - x);
    FourFactors(1, d, Pow2(e - x), Pow2(Up(x)));
    Pow2Add(e - x, Up(x));
    AtLeastShift(n, d, e, x);
  }

  lemma AtLeastShift(n: nat, d: nat, e: int, x: int)
    requires AtLeast(n, d, e) && x <= e
    ensures Pow2(e - x) * (d * Pow2(Up(x))) <= n * Pow2(Up(-x))
  {
    hide Pow2;
    var k := Up(-x) - Up(-e);
    Pow2Add(Up(-e), k);
    MulAssoc(n, Pow2(Up(-e)), Pow2(k));
    assert e - x + Up(x) == Up(e) + k;
    Pow2Balance(e - x, Up(x), Up(e), k);
    MulMono(d * Pow2(Up(e)), n * Pow2(Up(-e)), Pow2(k));
    RescaleParts(1, d, Pow2(e - x), Pow2(Up(x)), Pow2(Up(e)), Pow2(k));
  }

  /** A mantissa of 53 bits in a finer unit stays below 2^52 coarser units. */
  lemma DoubleBelow(m: nat, d: nat, q: int, x: int)
    requires m < Pow2(53) && x < q
    ensures m * Pow2(0) * (d * Pow2(Up(x))) <= Pow2(52) * Pow2(q - x) * (d * Pow2(Up(x)))
  {
    ZeroShift();
    HalfPower(53);
    HalfPower(q - x);
    hide Pow2;
    Pow2Monotone(0, q - x - 1);
    MulMono(2, Pow2(q - x), Pow2(52));
    MulMono(m * Pow2(0), Pow2(52) * Pow2(q - x), d * Pow2(Up(x)));
  }

  // ----- round_to_d

  /** The ratio (n / d) * 2^-eOffset. */
  function ScaledNum(n: nat, eOffset: int): nat {
    n * Pow2(Up(-eOffset))
  }

  function ScaledDen(d: nat, eOffset: int): nat {
    d * Pow2(Up(eOffset))
  }

  /** Multiplying both sides by powers of two with the same total exponents. */
  lemma CompareScaled(n: nat, d: nat, a: nat, b: nat, k: nat)
    requires a + k == b
    ensures n * Pow2(a) >= d * Pow2(b) <==> n >= d * Pow2(k)
  {
    hide Pow2;
    Pow2Add(a, k);
    assert d * Pow2(b) == (d * Pow2(k)) * Pow2(a) by {
      MulAssoc(d, Pow2(k), Pow2(a));
      assert Pow2(k) * Pow2(a) == Pow2(a) * Pow2(k);
    }
    ScaleOrder(n, d * Pow2(k), Pow2(a));
  }

  lemma AtLeastScaled(n: nat, d: nat, eOffset: int, k: nat)
    ensures AtLeast(ScaledNum(n, eOffset), ScaledDen(d, eOffset), k - eOffset) <==> n >= d * Pow2(k)
  {
    hide Pow2;
    var e := k - eOffset;
    Pow2Add(Up(-eOffset), Up(-e));
    Pow2Add(Up(eOffset), Up(e));
    MulAssoc(n, Pow2(Up(-eOffset)), Pow2(Up(-e)));
    MulAssoc(d, Pow2(Up(eOffset)), Pow2(Up(e)));
    CompareScaled(n, d, Up(-eOffset) + Up(-e), Up(eOffset) + Up(e), k);
  }

  /** The quotient with its sticky bit has as many bits as the exact ratio. */
  lemma StickyBits(n: nat, d: nat, k: nat)
    requires d > 0 && Pow2(k) <= Sticky(n, d) < Pow2(k + 1) && (n % d != 0 ==> k >= 1)
    ensures d * Pow2(k) <= n < d * Pow2(k + 1)
  {
    HalfPower(k + 1);
    hide Pow2;
    DivMod(n, d);
    StickyIs(n, d, n / d, n % d);
    EvenPower(k);
    StickyBitsParts(n, d, n / d, n % d, Pow2(k), Sticky(n, d));
  }

  lemma EvenPower(k: nat)
    ensures k > 0 ==> Pow2(k) % 2 == 0
  {
    if k > 0 { HalfPower(k); }
  }

  lemma StickyBitsParts(n: nat, d: nat, q: nat, r: nat, p: nat, v: nat)
    requires n == q * d + r && r < d && v == (if r == 0 then q else OrOne(q)) && p <= v < 2 * p && (r == 0 || p % 2 == 0)
    ensures d * p <= n < d * (2 * p)
  {
    if q >= p {
      MulMono(p, q, d);
      assert q + 1 <= 2 * p;
      MulMono(q + 1, 2 * p, d);
      Distribute(q, 1, d);
    }
  }

  /** The shift of round_to_d rounds the exact ratio to its quantum. */
  lemma ShiftRounds(n: nat, d: nat, v: nat, eOffset: int, q: int, shift: int)
    requires d > 0 && v == Sticky(n, d) && shift == q + eOffset && (n % d != 0 ==> shift >= 2)
    ensures ScaledDen(d, eOffset) > 0
    ensures (if shift >= 0 then RoundDiv(v, Pow2(shift), NearestEven) else v * Pow2(-shift))
            == InUnits(ScaledNum(n, eOffset), ScaledDen(d, eOffset), q)
  {
    MulPositive(d, Pow2(Up(eOffset)));
    MulPositive(ScaledDen(d, eOffset), Pow2(Up(q)));
    StickyIs(n, d, n / d, n % d);
    hide Pow2, RoundDiv, Sticky;
    var n1, d1 := n * Pow2(Up(-shift)), d * Pow2(Up(shift));
    MulPositive(d, Pow2(Up(shift)));
    ZeroShift();
    if n % d == 0 {
      ExactShift(n, d, v, Up(-shift), Up(shift));
      RoundExact(v * Pow2(Up(-shift)), NearestEven);
    } else {
      HalfPower(shift);
      HalfPower(shift - 1);
      StickyRounds(n, d, Pow2(shift - 2), NearestEven);
      assert Pow2(shift) == 4 * Pow2(shift - 2);
    }
    assert (if shift >= 0 then RoundDiv(v, Pow2(shift), NearestEven) else v * Pow2(-shift)) == RoundDiv(n1, d1, NearestEven);
    SameRatio(n, d, eOffset, q, shift);
    RoundRatio(n1, d1, ScaledNum(n, eOffset) * Pow2(Up(-q)), ScaledDen(d, eOffset) * Pow2(Up(q)), NearestEven);
  }

  lemma ExactShift(n: nat, d: nat, v: nat, down: nat, up: nat)
    requires d > 0 && n == v * d && (down == 0 || up == 0)
    ensures d * Pow2(up) > 0
    ensures RoundDiv(n * Pow2(down), d * Pow2(up), NearestEven) == RoundDiv(v * Pow2(down), Pow2(up), NearestEven)
  {
    hide Pow2, RoundDiv;
    MulPositive(d, Pow2(up));
    assert (n * Pow2(down)) * Pow2(up) == (v * Pow2(down)) * (d * Pow2(up)) by {
      FourFactors(v, d, Pow2(down), Pow2(up));
      assert (v * d) * (Pow2(down) * Pow2(up)) == ((v * d) * Pow2(down)) * Pow2(up);
    }
    RoundRatio(n * Pow2(down), d * Pow2(up), v * Pow2(down), Pow2(up), NearestEven);
  }

  lemma SameRatio(n: nat, d: nat, eOffset: int, q: int, shift: int)
    requires shift == q + eOffset
    ensures (n * Pow2(Up(-shift))) * (ScaledDen(d, eOffset) * Pow2(Up(q))) == (ScaledNum(n, eOffset) * Pow2(Up(-q))) * (d * Pow2(Up(shift)))
  {
    hide Pow2;
    Pow2Add(Up(eOffset), Up(q));
    Pow2Add(Up(-eOffset), Up(-q));
    MulAssoc(d, Pow2(Up(eOffset)), Pow2(Up(q)));
    MulAssoc(n, Pow2(Up(-eOffset)), Pow2(Up(-q)));
    Pow2Balance(Up(-shift), Up(eOffset) + Up(q), Up(-eOffset) + Up(-q), Up(shift));
    FourFactors(n, d, Pow2(Up(-shift)), Pow2(Up(eOffset) + Up(q)));
    FourFactors(n, d, Pow2(Up(-eOffset) + Up(-q)), Pow2(Up(shift)));
    CrossSame(n, d, Pow2(Up(-shift)), Pow2(Up(eOffset) + Up(q)), Pow2(Up(-eOffset) + Up(-q)), Pow2(Up(shift)));
  }

  lemma CrossSame(n: nat, d: nat, a: nat, b: nat, c: nat, e: nat)
    requires a * b == c * e
    ensures (n * a) * (d * b) == (n * c) * (d * e)
  {
    FourFactors(n, a, d, b);
    FourFactors(n, c, d, e);
    assert (n * a) * (d * b) == (n * d) * (a * b);
    assert (n * c) * (d * e) == (n * d) * (c * e);
  }

  /** Rounding a ratio in [2^k, 2^(k+1)) in units of 2^shift. */
  lemma RoundedRange(n: nat, d: nat, k: nat, shift: nat)
    requires d > 0 && d * Pow2(k) <= n < d * Pow2(k + 1)
    ensures d * Pow2(shift) > 0
    ensures var t := RoundDiv(n, d * Pow2(shift), NearestEven);
            && (shift <= k ==> Pow2(k - shift) <= t <= Pow2(k + 1 - shift))
            && (shift == k + 1 ==> t <= 1)
            && (shift > k + 1 ==> t == 0)
  {
    hide Pow2;
    MulPositive(d, Pow2(shift));
    var x := d * Pow2(shift);
    if shift <= k {
      Pow2Add(k - shift, shift);
      Pow2Add(k + 1 - shift, shift);
      RangeInside(n, x, Pow2(k - shift), Pow2(k + 1 - shift));
      RangeScale(d, Pow2(shift), Pow2(k - shift), Pow2(k));
      RangeScale(d, Pow2(shift), Pow2(k + 1 - shift), Pow2(k + 1));
      RangeInside(n, x, Pow2(k - shift), Pow2(k + 1 - shift));
    } else if shift == k + 1 {
      DivideIs(n, x, 0, n);
    } else {
      Pow2Monotone(k + 2, shift);
      HalfPower(k + 2);
      MulMono(Pow2(k + 2), Pow2(shift), d);
      assert d * Pow2(k + 2) == 2 * (d * Pow2(k + 1));
      DivideIs(n, x, 0, n);
    }
  }

  lemma RangeScale(d: nat, s: nat, a: nat, b: nat)
    requires a * s == b
    ensures a * (d * s) == d * b
  {
    assert a * (d * s) == d * (a * s);
  }

  lemma RangeInside(n: nat, x: nat, a: nat, b: nat)
    requires x > 0
    ensures a * x <= n ==> a <= RoundDiv(n, x, NearestEven)
    ensures n < b * x ==> RoundDiv(n, x, NearestEven) <= b
  {
    DivMod(n, x);
    var q := n / x;
    if a * x <= n && a > q {
      MulMono(q + 1, a, x);
      Distribute(q, 1, x);
    }
    if n < b * x && b <= q {
      MulMono(b, q, x);
    }
  }

  /** What round_to_d does with the rounded integer: align the mantissa to 53 bits. */
  function Aligned(t: nat, prec: int, b: int): (nat, int)
    requires prec <= MANT_BITS
  {
    var m := (t * Pow2(MANT_BITS - prec)) % TWO64;
    if m >= Pow2(53) then (m / 2, b + 1) else (m, b)
  }

  lemma AlignedIs(t: nat, prec: int, b: int)
    requires prec <= MANT_BITS && prec == b - Quantum(b)
    requires (prec >= 1 ==> Pow2(prec - 1) <= t <= Pow2(prec)) && (prec == 0 ==> t <= 1) && (prec < 0 ==> t == 0)
    ensures var (m, e) := Aligned(t, prec, b);
            && (m == 0 || Pow2(52) <= m < Pow2(53)) && (m == 0 <==> t == 0)
            && (m > 0 ==> SameNumber(m, e - MANT_BITS, t, Quantum(b)) && e >= -1073)
  {
    hide Pow2, SameNumber, Aligned;
    HalfPower(53);
    Pow2Monotone(52, 53);
    if prec < 0 {
      AlignedValue(t, prec, b, 0);
    } else {
      AlignedRange(t, prec);
      AlignedValue(t, prec, b, t * Pow2(MANT_BITS - prec));
      if t * Pow2(MANT_BITS - prec) == Pow2(53) {
        AlignedFull(t, prec);
        AlignedCarry(t, prec, b);
      } else {
        AlignedPlain(t, prec, b);
      }
    }
  }

  lemma AlignedValue(t: nat, prec: int, b: int, x: nat)
    requires prec <= MANT_BITS && x == t * Pow2(MANT_BITS - prec) && x <= Pow2(53)
    ensures Aligned(t, prec, b) == if x >= Pow2(53) then (x / 2, b + 1) else (x, b)
  {
    hide Pow2;
    WordIsLarger();
    DivideIs(x, TWO64, 0, x);
  }

  lemma WordIsLarger()
    ensures Pow2(53) < TWO64
  {
    Pow2Add(32, 21);
    SmallPow2();
  }

  lemma AlignedPlain(t: nat, prec: nat, b: int)
    requires prec <= MANT_BITS && prec == b - Quantum(b)
    ensures SameNumber(t * Pow2(MANT_BITS - prec), b - MANT_BITS, t, Quantum(b))
  {
    ZeroShift();
    hide Pow2;
  }

  lemma AlignedCarry(t: nat, prec: nat, b: int)
    requires prec <= MANT_BITS && prec == b - Quantum(b)
    requires if prec <= 52 then Pow2(52) == t * Pow2(52 - prec) else t == Pow2(53)
    ensures SameNumber(Pow2(52), b + 1 - MANT_BITS, t, Quantum(b))
  {
    ZeroShift();
    HalfPower(53);
    HalfPower(1);
    hide Pow2;
  }

  lemma AlignedRange(t: nat, prec: nat)
    requires prec <= MANT_BITS
    requires (prec >= 1 ==> Pow2(prec - 1) <= t <= Pow2(prec)) && (prec == 0 ==> t <= 1)
    ensures t * Pow2(MANT_BITS - prec) <= Pow2(53)
    ensures t > 0 ==> t * Pow2(MANT_BITS - prec) >= Pow2(52)
    ensures t == 0 ==> t * Pow2(MANT_BITS - prec) == 0
  {
    ZeroShift();
    hide Pow2;
    Pow2Add(prec, MANT_BITS - prec);
    MulMono(t, Pow2(prec), Pow2(MANT_BITS - prec));
    if prec >= 1 {
      Pow2Add(prec - 1, MANT_BITS - prec);
      MulMono(Pow2(prec - 1), t, Pow2(MANT_BITS - prec));
    } else {
      Pow2Monotone(52, 53);
    }
  }

  /** A mantissa that was rounded up to the next binade. */
  lemma AlignedFull(t: nat, prec: nat)
    requires prec <= MANT_BITS && t * Pow2(MANT_BITS - prec) == Pow2(53)
    ensures prec <= 52 ==> Pow2(52) == t * Pow2(52 - prec)
    ensures prec == 53 ==> t == Pow2(53)
  {
    HalfPower(53);
    ZeroShift();
    if prec <= 52 { HalfPower(MANT_BITS - prec); }
    hide Pow2;
  }

  /** The shift counts of round_to_d are those of a 64-bit word down to this exponent. */
  const SMALLEST := -1085

  lemma ShiftCount(n: nat, d: nat, b: int)
    requires d > 0 && AtLeast(n, d, SMALLEST) && Binade(n, d, b)
    ensures b > SMALLEST
  {
    if b <= SMALLEST {
      AtLeastDown(n, d, SMALLEST, b);
    }
  }

  lemma AtLeastDown(n: nat, d: nat, e: int, b: int)
    requires AtLeast(n, d, e) && b <= e
    ensures AtLeast(n, d, b)
  {
    hide Pow2;
    AtLeastShift(n, d, e, b);
    Pow2Monotone(0, e - b);
    ZeroShift();
    MulMono(1, Pow2(e - b), d * Pow2(Up(b)));
  }

  /** round_to_d: the number in `a`, n / d with a sticky bit, times 2^-eOffset, as the nearest double. */
  method RoundToD(a: Mpb, eOffset: int, ghost n: nat, ghost d: nat) returns (m: nat, e: int)
    requires a.Valid() && a.Normal() && a.Val() > 0 && a.len + 3 <= a.tab.Length
    requires d > 0 && a.Val() == Sticky(n, d) && (n % d != 0 ==> a.Val() >= Pow2(55))
    requires AtLeast(ScaledNum(n, eOffset), ScaledDen(d, eOffset), SMALLEST)
    modifies a, a.tab
    ensures a.tab == old(a.tab)
    ensures ScaledDen(d, eOffset) > 0 && Rounded(ScaledNum(n, eOffset), ScaledDen(d, eOffset), m, e)
  {
    hide Pow2, Value, RoundDiv, Sticky, ScaledNum, ScaledDen, InUnits, AtLeast, SameNumber, Aligned;
    ghost var v := a.Val();
    var log2 := a.FloorLog2();
    e := log2 + 1 - eOffset;
    var prec := MANT_BITS;
    if e < E_MIN {
      prec := MANT_BITS - (E_MIN - e);
    }
    var shift := e + eOffset - prec;
    ghost var b := e;
    if n % d != 0 { BitsAbove(v, log2, 55); }
    StickyBits(n, d, log2);
    AtLeastScaled(n, d, eOffset, log2);
    AtLeastScaled(n, d, eOffset, log2 + 1);
    ShiftRounds(n, d, v, eOffset, Quantum(b), shift);
    ShiftCount(ScaledNum(n, eOffset), ScaledDen(d, eOffset), b);
    assert MANT_BITS - prec <= 63;
    TRange(v, log2, shift);
    a.ShrRound(shift, NearestEven);
    FitsWord(a.Val(), prec);
    var t := a.GetU64();
    AlignedIs(t, prec, b);
    m := (t * Pow2(MANT_BITS - prec)) % TWO64;
    AlignedParts(t, prec, b);
    if m >= Pow2(53) {
      m := m / 2;
      e := e + 1;
    }
    RoundedBy(ScaledNum(n, eOffset), ScaledDen(d, eOffset), b, m, e, t);
  }

  lemma AlignedParts(t: nat, prec: int, b: int)
    requires prec <= MANT_BITS
    ensures var m := (t * Pow2(MANT_BITS - prec)) % TWO64; Aligned(t, prec, b) == if m >= Pow2(53) then (m / 2, b + 1) else (m, b)
  {
  }

  lemma RoundedBy(n: nat, d: nat, b: int, m: nat, e: int, t: nat)
    requires d > 0 && Binade(n, d, b) && t == InUnits(n, d, Quantum(b))
    requires (m == 0 || Pow2(52) <= m < Pow2(53)) && (m == 0 <==> t == 0)
    requires m > 0 ==> SameNumber(m, e - MANT_BITS, t, Quantum(b)) && e >= -1073 && b <= e <= b + 1
    ensures Rounded(n, d, m, e)
  {
    hide InUnits, SameNumber, AtLeast, Pow2;
  }

  lemma BitsAbove(v: nat, log2: nat, k: nat)
    requires Pow2(k) <= v < Pow2(log2 + 1)
    ensures log2 >= k
  {
    hide Pow2;
    if log2 < k { Pow2Monotone(log2 + 1, k); }
  }

  /** The range of the rounded integer. */
  lemma TRange(v: nat, log2: nat, shift: int)
    requires Pow2(log2) <= v < Pow2(log2 + 1)
    ensures var t := if shift >= 0 then RoundDiv(v, Pow2(shift), NearestEven) else v * Pow2(-shift);
            var prec := log2 + 1 - shift;
            (prec >= 1 ==> Pow2(prec - 1) <= t <= Pow2(prec)) && (prec == 0 ==> t <= 1) && (prec < 0 ==> t == 0)
  {
    hide Pow2, RoundDiv;
    if shift >= 0 {
      RoundedRange(v, 1, log2, shift);
      assert 1 * Pow2(shift) == Pow2(shift);
    } else {
      Pow2Add(log2, -shift);
      Pow2Add(log2 + 1, -shift);
      MulMono(Pow2(log2), v, Pow2(-shift));
      MulMono(v, Pow2(log2 + 1), Pow2(-shift));
    }
  }

  lemma FitsWord(t: nat, prec: int)
    requires prec <= MANT_BITS
    requires (prec >= 1 ==> t <= Pow2(prec)) && (prec == 0 ==> t <= 1) && (prec < 0 ==> t == 0)
    ensures t < TWO64
  {
    if prec >= 1 {
      Pow2Monotone(prec, 53);
      Pow2Add(32, 21);
      SmallPow2();
    }
  }
}
