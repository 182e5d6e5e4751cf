/** mul_log2_radix for radix 10: a product with a fixed-point constant is the floor of a * log10(2). */
module Logs {
  import opened Limbs
  import opened Rounding
  import opened Bignum
  import opened Scaling
  import opened Ratios
  import opened Dtoa

  const MUL_LOG2_RADIX_BASE := 0x100_0000

  /** round(2^24 * log10(2)), the table's entry of radix 10 */
  const MUL_LOG2_TEN := 0x4d104d

  /** mul_log2_radix(a, 10); the shift right of a negative number rounds down. */
  function MulLog2Ten(a: int): int {
    a * MUL_LOG2_TEN / MUL_LOG2_RADIX_BASE
  }

  // ----- two good fractions on both sides of log10(2): 643/2136 and 146/485

  lemma SquareBelow(n: nat, m: nat, s: nat, m2: nat, k: nat)
    requires Power(5, n) <= m * Pow2(s) && m * m <= m2 * Pow2(k)
    ensures Power(5, 2 * n) <= m2 * Pow2(k + 2 * s)
  {
    hide Power, Pow2;
    PowerAdd(5, n, n);
    Pow2Add(s, s);
    Pow2Add(k, 2 * s);
    var p, z := Power(5, n), m * Pow2(s);
    MulMono(p, z, p);
    MulMono(p, z, z);
    FourFactors(m, m, Pow2(s), Pow2(s));
    MulMono(m * m, m2 * Pow2(k), Pow2(2 * s));
    MulAssoc(m2, Pow2(k), Pow2(2 * s));
  }

  lemma SquareAbove(n: nat, m: nat, s: nat, m2: nat, k: nat)
    requires Power(5, n) >= m * Pow2(s) && m * m >= m2 * Pow2(k)
    ensures Power(5, 2 * n) >= m2 * Pow2(k + 2 * s)
  {
    hide Power, Pow2;
    PowerAdd(5, n, n);
    Pow2Add(s, s);
    Pow2Add(k, 2 * s);
    var p, z := Power(5, n), m * Pow2(s);
    MulMono(z, p, p);
    MulMono(z, p, z);
    FourFactors(m, m, Pow2(s), Pow2(s));
    MulMono(m2 * Pow2(k), m * m, Pow2(2 * s));
    MulAssoc(m2, Pow2(k), Pow2(2 * s));
  }

  /** 10^643 <= 2^2136 */
  lemma TenBelowTwo()
    ensures Power(10, 643) <= Pow2(2136)
  {
    SmallPow2();
    Pow5TableCorrect(10);
    Pow5TableCorrect(3);
    hide Power, Pow2, Pow5Entry;
    SquareBelow(10, 9765625, 0, 2910383046, 15);
    SquareBelow(20, 2910383046, 15, 3944304527, 31);
    SquareBelow(40, 3944304527, 61, 3622271634, 32);
    SquareBelow(80, 3622271634, 154, 3054936368, 32);
    SquareBelow(160, 3054936368, 340, 2172923697, 32);
    SquareBelow(320, 2172923697, 712, 2198665121, 31);
    PowerAdd(5, 640, 3);
    Pow2Add(6, 1455);
    Pow2Add(32, 1461);
    TenIs(643);
    Pow2Add(1493, 643);
    MulMono(Power(5, 643), Pow2(1493), Pow2(643));
  }

  /** 2^485 < 10^146 */
  lemma TwoBelowTen()
    ensures Pow2(485) < Power(10, 146)
  {
    SmallPow2();
    Pow5TableCorrect(9);
    Pow5TableCorrect(2);
    hide Power, Pow2, Pow5Entry;
    SquareAbove(9, 1953125, 0, 3725290298, 10);
    SquareAbove(18, 3725290298, 10, 3231174266, 32);
    SquareAbove(36, 3231174266, 52, 2430865340, 32);
    SquareAbove(72, 2430865340, 136, 2751642047, 31);
    PowerAdd(5, 144, 2);
    Pow2Add(5, 303);
    Pow2Add(31, 308);
    TenIs(146);
    Pow2Add(339, 146);
    ScaleOrder(Pow2(339), Power(5, 146), Pow2(146));
  }

  lemma TenIs(n: nat)
    ensures Power(10, n) == Power(5, n) * Pow2(n)
  {
    PowerMul(5, 2, n);
    Pow2Is(n);
  }

  // ----- from the fractions to all exponents

  lemma {:induction false} PowerBaseOrder(a: nat, b: nat, n: nat)
    requires a <= b
    ensures Power(a, n) <= Power(b, n)
    ensures a < b && n > 0 ==> Power(a, n) < Power(b, n)
  {
    if n > 0 {
      PowerBaseOrder(a, b, n - 1);
      MulMono(Power(a, n - 1), Power(b, n - 1), a);
      if a < b {
        PowerPositive(b, n - 1);
        ScaleOrder(a, b, Power(b, n - 1));
      }
    }
  }

  lemma {:induction false} PowerPower(b: nat, m: nat, n: nat)
    ensures Power(Power(b, m), n) == Power(b, m * n)
  {
    if n == 0 {
      assert m * 0 == 0;
    } else {
      PowerPower(b, m, n - 1);
      PowerAdd(b, m, m * (n - 1));
      assert m * n == m + m * (n - 1);
    }
  }

  /** Powers with exponents in a proportion k : l, of which p^k and q^l are in order. */
  lemma Proportion(p: nat, k: nat, q: nat, l: nat, x: nat, y: nat)
    requires p > 1 && q > 1 && k > 0 && l > 0 && Power(p, k) <= Power(q, l) && l * x <= k * y
    ensures Power(p, x) <= Power(q, y)
    ensures l * x < k * y || (Power(p, k) < Power(q, l) && y > 0) ==> Power(p, x) < Power(q, y)
  {
    hide Power;
    ProportionParts(p, k, q, l, x, y, l * x, k * y, l * y);
  }

  lemma ProportionParts(p: nat, k: nat, q: nat, l: nat, x: nat, y: nat, lx: nat, ky: nat, ly: nat)
    requires p > 1 && q > 1 && k > 0 && l > 0 && Power(p, k) <= Power(q, l)
    requires lx == l * x && ky == k * y && ly == l * y && lx <= ky
    ensures Power(p, x) <= Power(q, y)
    ensures lx < ky || (Power(p, k) < Power(q, l) && y > 0) ==> Power(p, x) < Power(q, y)
  {
    hide Power;
    PowerPower(p, x, l);
    PowerPower(q, y, l);
    PowerPower(p, k, y);
    PowerPower(q, l, y);
    PowerStrict(p, lx, ky);
    PowerBaseOrder(Power(p, k), Power(q, l), y);
    RootOrder(Power(p, x), Power(q, y), l);
  }

  lemma RootOrder(a: nat, b: nat, l: nat)
    requires l > 0 && Power(a, l) <= Power(b, l)
    ensures a <= b && (Power(a, l) < Power(b, l) ==> a < b)
  {
    hide Power;
    if b <= a {
      PowerBaseOrder(b, a, l);
    }
  }

  lemma PowerStrict(a: nat, m: nat, n: nat)
    requires a > 1 && m <= n
    ensures Power(a, m) <= Power(a, n) && (m < n ==> Power(a, m) < Power(a, n))
  {
    PowerMonotone(a, m, n);
    if m < n {
      PowerMonotone(a, m, n - 1);
      ScaleOrder(1, a, Power(a, n - 1));
    }
  }

  lemma TenNotAbove(x: nat, y: nat)
    requires 2136 * x <= 643 * y
    ensures Power(10, x) <= Pow2(y) && (2136 * x < 643 * y ==> Power(10, x) < Pow2(y))
  {
    hide Power, Pow2;
    TenBelowTwo();
    Pow2Is(2136);
    Pow2Is(y);
    Proportion(10, 643, 2, 2136, x, y);
  }

  lemma TenAbove(x: nat, y: nat)
    requires 146 * y <= 485 * x
    ensures Pow2(y) <= Power(10, x) && (x > 0 ==> Pow2(y) < Power(10, x))
  {
    hide Power, Pow2;
    TwoBelowTen();
    Pow2Is(485);
    Pow2Is(y);
    Proportion(2, 485, 10, 146, y, x);
  }

  /** No fraction with a small denominator lies between 643/2136 and 146/485. */
  lemma NeighbouringFractions(x: nat, y: nat)
    requires 2136 * x > 643 * y && y < 2621
    ensures 485 * x >= 146 * y
  {
    var u, v := 2136 * x - 643 * y, 485 * x - 146 * y;
    assert y == 485 * u - 2136 * v;
  }

  /** mul_log2_radix is exact over the exponents of doubles, and beyond. */
  lemma MulLog2TenIsFloor(a: int)
    requires -2048 <= a <= 2047
    ensures FloorLog(a, MulLog2Ten(a))
  {
    hide Power, Pow2;
    PowerOne(10);
    ZeroShift();
    var b := MulLog2Ten(a);
    if a >= 0 {
      TenNotAbove(b, a);
      NeighbouringFractions(b + 1, a);
      TenAbove(b + 1, a);
    } else {
      NeighbouringFractions(-b, -a);
      TenAbove(-b, -a);
      TenNotAbove(-(b + 1), -a);
    }
  }
}
