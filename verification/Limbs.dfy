/** Limbs of 32 bits and the numbers they represent, least significant limb first. */
module Limbs {

  const LIMB_BITS := 32
  const BASE := 0x1_0000_0000

  type limb = x: nat | x < 0x1_0000_0000

  /** The number that the limbs represent. */
  function Value(s: seq<limb>): nat {
    if s == [] then 0 else s[0] + BASE * Value(s[1..])
  }

  function Power(b: nat, n: nat): nat {
    if n == 0 then 1 else b * Power(b, n - 1)
  }

  lemma {:induction false} PowerPositive(b: nat, n: nat)
    requires b > 0
    ensures Power(b, n) > 0
  {
    if n > 0 {
      PowerPositive(b, n - 1);
      MulPositive(b, Power(b, n - 1));
    }
  }

  lemma MulPositive(a: nat, b: nat)
    requires a > 0 && b > 0
    ensures a * b > 0
  {
  }

  lemma {:induction false} PowerAdd(b: nat, m: nat, n: nat)
    ensures Power(b, m + n) == Power(b, m) * Power(b, n)
    decreases m
  {
    if m > 0 {
      PowerAdd(b, m - 1, n);
      MulAssoc(b, Power(b, m - 1), Power(b, n));
    }
  }

  lemma MulAssoc(a: int, b: int, c: int)
    ensures a * (b * c) == (a * b) * c
  {
  }

  // ----- division of two limbs by one

  /** udiv1norm_init: the part of BASE^2 / d that lies above BASE. `-d - 1` wraps around. */
  function UDiv1NormInit(d: limb): (v: limb)
    requires d >= 0x8000_0000
    ensures (BASE + v) * d < BASE * BASE <= (BASE + v + 1) * d
  {
    var a1 := (-(d as int) - 1) % BASE;
    assert a1 == BASE - 1 - d;
    var n := a1 * BASE + (BASE - 1);
    InverseBound(n, d);
    n / d
  }

  lemma InverseBound(n: nat, d: nat)
    requires 0x8000_0000 <= d < BASE && n == (BASE - 1 - d) * BASE + (BASE - 1)
    ensures 0 <= n / d < BASE
    ensures (BASE + n / d) * d < BASE * BASE <= (BASE + n / d + 1) * d
  {
    var v := n / d;
    assert v * d <= n < v * d + d;
    assert (BASE + v) * d == BASE * d + v * d;
    assert (BASE + v + 1) * d == BASE * d + v * d + d;
    if v >= BASE {
      assert v * d >= BASE * d by { MulMono(BASE, v, d); }
    }
  }

  lemma MulMono(a: nat, b: nat, c: nat)
    requires a <= b
    ensures a * c <= b * c && c * a <= c * b
  {
  }

  function High(a: nat): nat { a / BASE }

  function Low(a: nat): limb { a % BASE }

  /** The bits of `x` if the mask is all ones, nothing if it is zero. */
  function Masked(mask: limb, x: limb): limb
    requires mask == 0 || mask == BASE - 1
  {
    if mask == 0 then 0 else x
  }

  /** The first half of udiv1norm: an estimate of the quotient that is right or one too small. */
  function UDiv1NormEstimate(a1: limb, a0: limb, d: limb, dInv: limb): (q: limb)
    requires d >= 0x8000_0000 && a1 < d && dInv == UDiv1NormInit(d)
    ensures 0 <= a1 * BASE + a0 - q * d < 2 * d
  {
    var n1m: limb := if a0 >= 0x8000_0000 then BASE - 1 else 0;
    var nAdj := Low(a0 + Masked(n1m, d));
    var a := (dInv * Low(a1 - n1m + BASE) + nAdj) % (BASE * BASE);
    UDiv1NormEstimateFits(a1, a0, d, dInv, nAdj, Low(a1 - n1m + BASE));
    Low(High(a) + a1)
  }

  /** Neither the product nor the sum wraps around. */
  lemma UDiv1NormEstimateFits(a1: limb, a0: limb, d: limb, dInv: limb, nAdj: limb, c: limb)
    requires d >= 0x8000_0000 && a1 < d && dInv == UDiv1NormInit(d)
    requires nAdj == Low(a0 + Masked(if a0 >= 0x8000_0000 then BASE - 1 else 0, d))
    requires c == Low(a1 - (if a0 >= 0x8000_0000 then BASE - 1 else 0) + BASE)
    ensures 0 <= a1 * BASE + a0 - Low(High((dInv * c + nAdj) % (BASE * BASE)) + a1) * d < 2 * d
  {
    var s := if a0 >= 0x8000_0000 then 1 else 0;
    assert nAdj == a0 + s * (d - BASE) && c == a1 + s;
    hide *;
    EstimateNowrap(a1, a0, d, dInv, s, nAdj, c, dInv * c + nAdj);
  }

  lemma EstimateNowrap(a1: limb, a0: limb, d: limb, v: limb, s: nat, nAdj: limb, c: limb, x: nat)
    requires d >= 0x8000_0000 && a1 < d && v == UDiv1NormInit(d)
    requires s == if a0 >= 0x8000_0000 then 1 else 0
    requires c == a1 + s && nAdj == a0 + s * (d - BASE) && x == v * c + nAdj
    ensures 0 <= a1 * BASE + a0 - Low(High(x % (BASE * BASE)) + a1) * d < 2 * d
  {
    hide *;
    ProductFits(v, c, nAdj);
    SmallMod(x);
    Estimate(a1, a0, d, v, s, x);
    EstimateFits(a1, a0, d, x);
  }

  lemma SmallMod(x: nat)
    requires x < BASE * BASE
    ensures x % (BASE * BASE) == x
  {
  }

  lemma EstimateFits(a1: limb, a0: limb, d: limb, x: nat)
    requires a1 < d && 0 <= a1 * BASE + a0 - (x / BASE + a1) * d
    ensures Low(High(x) + a1) == x / BASE + a1
  {
    QuotientFits(a1, a0, d, x / BASE + a1);
  }

  /** The second half: one more, unless that makes the remainder negative. */
  function Corrected(n: nat, q: limb, d: limb): (r: (limb, limb))
    requires 0 <= n - q * d < 2 * d && n < d * BASE
    ensures r.0 == n / d && r.1 == n % d
  {
    var a := (n - q * d - d) % (BASE * BASE);
    var ah := Low(High(a));
    Correct(n, q, d, q * d);
    (Low(q + 1 + ah), Low(Low(a) + Masked(ah, d)))
  }

  /** udiv1norm: the quotient and the remainder of a1 * BASE + a0 divided by d. Every operation wraps
      around as in C, at one limb or at two. */
  function UDiv1Norm(a1: limb, a0: limb, d: limb, dInv: limb): (r: (limb, limb))
    requires d >= 0x8000_0000 && a1 < d && dInv == UDiv1NormInit(d)
    ensures r.0 == (a1 * BASE + a0) / d && r.1 == (a1 * BASE + a0) % d
  {
    MulMono(a1 + 1, d, BASE);
    Corrected(a1 * BASE + a0, UDiv1NormEstimate(a1, a0, d, dInv), d)
  }

  lemma ProductFits(v: limb, c: limb, n: limb)
    ensures v * c + n < BASE * BASE
  {
    MulMono(v, BASE - 1, c);
    MulMono(c, BASE - 1, BASE - 1);
  }

  lemma QuotientFits(a1: limb, a0: limb, d: limb, q: nat)
    requires a1 < d && 0 <= a1 * BASE + a0 - q * d
    ensures q < BASE
  {
    MulMono(a1 + 1, d, BASE);
    if q >= BASE {
      MulMono(BASE, q, d);
    }
  }

  /** With k = BASE^2 - d * (BASE + v), the error of the estimate is a1 * k plus small terms. */
  lemma Estimate(a1: limb, a0: limb, d: limb, v: limb, s: nat, x: nat)
    requires d >= 0x8000_0000 && a1 < d && (BASE + v) * d < BASE * BASE <= (BASE + v + 1) * d
    requires s == if a0 >= 0x8000_0000 then 1 else 0
    requires x == v * (a1 + s) + a0 + s * (d - BASE)
    ensures 0 <= a1 * BASE + a0 - (x / BASE + a1) * d < 2 * d
  {
    var k := BASE * BASE - (BASE + v) * d;
    var c := BASE - d;
    var t := a1 * k + a0 * c - s * (c * c - k);
    EstimateIdentity(a1, a0, d, v, s, x, k, c, t);
    EstimateBound(a1, a0, d, s, k, c, t);
    var n, q, m := a1 * BASE + a0, x / BASE + a1, x % BASE;
    assert BASE * n - BASE * (q * d) == t + d * m;
    MulMono(m, BASE - 1, d);
    Descale(n - q * d, d, t + d * m);
  }

  lemma Descale(y: int, d: nat, z: int)
    requires BASE * y == z && 0 <= z < 2 * d * BASE
    ensures 0 <= y < 2 * d
  {
  }

  lemma EstimateIdentity(a1: int, a0: int, d: int, v: int, s: int, x: nat, k: int, c: int, t: int)
    requires k == BASE * BASE - (BASE + v) * d && c == BASE - d
    requires t == a1 * k + a0 * c - s * (c * c - k)
    requires x == v * (a1 + s) + a0 + s * (d - BASE)
    ensures BASE * (a1 * BASE + a0) - BASE * ((x / BASE + a1) * d) == t + d * (x % BASE)
  {
    var q, m := x / BASE, x % BASE;
    assert x == BASE * q + m;
    assert BASE * ((q + a1) * d) == d * (BASE * q) + d * (BASE * a1);
    assert d * (BASE * q) == d * x - d * m;
    assert d * x == d * (v * (a1 + s)) + d * a0 + d * (s * (d - BASE));
    EstimateAlgebra(a1, a0, d, v, s, k, c);
  }

  lemma EstimateAlgebra(a1: int, a0: int, d: int, v: int, s: int, k: int, c: int)
    requires k == BASE * BASE - (BASE + v) * d && c == BASE - d
    ensures BASE * (a1 * BASE + a0) - d * (BASE * a1) - (d * (v * (a1 + s)) + d * a0 + d * (s * (d - BASE)))
            == a1 * k + a0 * c - s * (c * c - k)
  {
    var vd := v * d;
    assert (BASE + v) * d == BASE * d + vd;
    assert d * (v * (a1 + s)) == vd * a1 + vd * s;
    assert a1 * k == a1 * (BASE * BASE) - a1 * (BASE * d) - a1 * vd by { assert k == BASE * BASE - BASE * d - vd; }
    assert c * c - k == d * d - BASE * d + vd by {
      assert c * c == BASE * BASE - 2 * (BASE * d) + d * d;
    }
    assert s * (c * c - k) == s * (d * d) - s * (BASE * d) + s * vd;
    assert d * (s * (d - BASE)) == s * (d * d) - s * (BASE * d);
  }

  lemma EstimateBound(a1: limb, a0: limb, d: limb, s: nat, k: int, c: int, t: int)
    requires d >= 0x8000_0000 && a1 < d && 1 <= k <= d && c == BASE - d
    requires s == if a0 >= 0x8000_0000 then 1 else 0
    requires t == a1 * k + a0 * c - s * (c * c - k)
    ensures 0 <= t <= d * BASE
  {
    if s == 0 { LowBound(a1, a0, d, k, c, t); } else { HighBound(a1, a0, d, k, c, t); }
  }

  lemma LowBound(a1: nat, a0: nat, d: nat, k: nat, c: nat, t: int)
    requires a1 + 1 <= d && k <= d && c == BASE - d && a0 <= d && t == a1 * k + a0 * c
    ensures 0 <= t <= d * BASE
  {
    MulMono(k, d, a1);
    MulMono(a1, d, d);
    MulMono(a0, d, c);
    SplitBase(d, c);
    SumBound(a1 * k, a0 * c, d * d, d * c, t);
  }

  lemma HighBound(a1: nat, a0: nat, d: nat, k: nat, c: nat, t: int)
    requires a1 + 1 <= d && k <= d && c == BASE - d && c <= a0 < BASE && t == a1 * k + a0 * c - (c * c - k)
    ensures 0 <= t <= d * BASE
  {
    MulMono(a1 + 1, d, k);
    MulMono(k, d, d);
    MulMono(a0 - c, d, c);
    SplitBase(d, c);
    Distribute(a1, 1, k);
    Distribute(a0 - c, c, c);
    SumBound((a1 + 1) * k, (a0 - c) * c, d * d, d * c, t);
  }

  lemma Distribute(a: int, b: int, c: int)
    ensures (a + b) * c == a * c + b * c
  {
  }

  lemma SplitBase(d: nat, c: nat)
    requires c == BASE - d
    ensures d * d + d * c == d * BASE
  {
  }

  lemma SumBound(a: nat, b: nat, c: nat, d: nat, t: int)
    requires a <= c && b <= d && t == a + b
    ensures 0 <= t <= c + d
  {
  }

  /** The high half of the wrapped-around difference is all ones exactly if the difference is negative. */
  lemma Correct(n: nat, q: limb, d: limb, p: nat)
    requires p == q * d && 0 <= n - p < 2 * d && n < d * BASE
    ensures var a := (n - p - d) % (BASE * BASE);
            var ah := Low(High(a));
            && (ah == 0 || ah == BASE - 1)
            && Low(Low(a) + Masked(ah, d)) == n % d
            && Low(q + 1 + ah) == n / d
  {
    var r := n - p - d;
    if r >= 0 {
      DivideIs(n, d, q + 1, r);
      hide *;
      WrapPositive(r, d, q);
    } else {
      DivideIs(n, d, q, r + d);
      hide *;
      WrapNegative(r, d, q);
    }
    QuotientSmall(n, d);
  }

  lemma QuotientSmall(n: nat, d: nat)
    requires d > 0 && n < d * BASE
    ensures n / d < BASE
  {
    var q := n / d;
    assert q * d <= n;
    assert q >= BASE ==> BASE * d <= q * d;
  }

  lemma WrapPositive(r: nat, d: limb, q: limb)
    requires r < d
    ensures Low(High(r % (BASE * BASE))) == 0 && Low(Low(r % (BASE * BASE))) == r && Low(q + 1 + 0) == (q + 1) % BASE
    ensures Masked(0, d) == 0 && Low(Low(r % (BASE * BASE)) + 0) == r
  {
  }

  lemma WrapNegative(r: int, d: limb, q: limb)
    requires -(d as int) <= r < 0
    ensures Low(High(r % (BASE * BASE))) == BASE - 1 && Low(q + 1 + (BASE - 1)) == q
    ensures Masked(BASE - 1, d) == d && Low(Low(r % (BASE * BASE)) + d) == r + d
  {
    assert r % (BASE * BASE) == r + BASE * BASE;
    assert High(r + BASE * BASE) == BASE - 1 && Low(r + BASE * BASE) == r + BASE;
  }

  lemma DivMod(n: nat, d: nat)
    requires d > 0
    ensures n == (n / d) * d + n % d && n % d < d
  {
  }

  lemma DivideIs(n: nat, d: nat, q: nat, r: nat)
    requires d > 0 && n == q * d + r && r < d
    ensures n / d == q && n % d == r
  {
    var q1, r1 := n / d, n % d;
    assert n == q1 * d + r1;
    if q1 < q {
      MulMono(q1 + 1, q, d);
    } else if q1 > q {
      MulMono(q + 1, q1, d);
    }
  }
}
