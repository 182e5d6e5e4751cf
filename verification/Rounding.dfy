/** Division of naturals with rounding, and the sticky bit. */
module Rounding {
  import opened Limbs

  /** JS_RNDN, JS_RNDNA, JS_RNDZ */
  datatype Mode = NearestEven | NearestAway | TowardZero

  /** n / d rounded to an integer. */
  function RoundDiv(n: nat, d: nat, mode: Mode): nat
    requires d > 0
  {
    RoundParts(n / d, n % d, d, mode)
  }

  /** The same for n = q * d + r. */
  function RoundParts(q: nat, r: nat, d: nat, mode: Mode): nat {
    match mode
    case TowardZero => q
    case NearestAway => if 2 * r >= d then q + 1 else q
    case NearestEven => if 2 * r > d || (2 * r == d && q % 2 == 1) then q + 1 else q
  }

  lemma RoundBy(n: nat, d: nat, q: nat, r: nat, mode: Mode)
    requires d > 0 && n == q * d + r && r < d
    ensures RoundDiv(n, d, mode) == RoundParts(q, r, d, mode)
  {
    DivideIs(n, d, q, r);
  }

  /** Only the side of one half matters. */
  lemma RoundSame(q: nat, r: nat, d: nat, r': nat, d': nat, mode: Mode)
    requires (2 * r > d <==> 2 * r' > d') && (2 * r == d <==> 2 * r' == d')
    ensures RoundParts(q, r, d, mode) == RoundParts(q, r', d', mode)
  {
  }

  function Distance(a: int, b: int): nat {
    if a < b then b - a else a - b
  }

  /** The nearest modes find the integer that is nearest to n / d; of two, the even one or the larger one. */
  lemma RoundIsNearest(n: nat, d: nat, mode: Mode, k: nat)
    requires d > 0 && mode != TowardZero
    ensures var q := RoundDiv(n, d, mode);
            && Distance(q * d, n) <= Distance(k * d, n)
            && (Distance(q * d, n) == Distance(k * d, n) && k != q ==> if mode == NearestEven then q % 2 == 0 else q > k)
  {
    hide RoundParts;
    DivMod(n, d);
    NearestParts(n, d, mode, k, n / d, n % d);
  }

  lemma NearestParts(n: nat, d: nat, mode: Mode, k: nat, f: nat, r: nat)
    requires d > 0 && mode != TowardZero && n == f * d + r && r < d
    ensures var q := RoundParts(f, r, d, mode);
            && Distance(q * d, n) <= Distance(k * d, n)
            && (Distance(q * d, n) == Distance(k * d, n) && k != q ==> if mode == NearestEven then q % 2 == 0 else q > k)
  {
    Distribute(f, 1, d);
    if k < f {
      MulMono(k + 1, f, d);
      Distribute(k, 1, d);
    } else if k > f + 1 {
      MulMono(f + 2, k, d);
      Distribute(f, 2, d);
    }
  }

  /** Scaling both sides changes nothing. */
  lemma RoundScale(n: nat, d: nat, k: nat, mode: Mode)
    requires d > 0 && k > 0
    ensures d * k > 0 && RoundDiv(n * k, d * k, mode) == RoundDiv(n, d, mode)
  {
    hide *;
    MulPositive(d, k);
    DivMod(n, d);
    RoundScaleParts(n, d, k, n / d, n % d, mode);
  }

  lemma RoundScaleParts(n: nat, d: nat, k: nat, q: nat, r: nat, mode: Mode)
    requires d > 0 && k > 0 && d * k > 0 && n == q * d + r && r < d
    ensures RoundDiv(n * k, d * k, mode) == RoundDiv(n, d, mode)
  {
    hide *;
    ScaleParts(n, d, k, q, r);
    RoundBy(n, d, q, r, mode);
    RoundBy(n * k, d * k, q, r * k, mode);
    ScaleOrder(2 * r, d, k);
    Twice(r, k);
    RoundSame(q, r, d, r * k, d * k, mode);
  }

  lemma Twice(r: nat, k: nat)
    ensures (2 * r) * k == 2 * (r * k)
  {
  }

  lemma ScaleParts(n: nat, d: nat, k: nat, q: nat, r: nat)
    requires n == q * d + r && r < d && k > 0
    ensures n * k == q * (d * k) + r * k && r * k < d * k
  {
    assert n * k == (q * d) * k + r * k;
    assert (q * d) * k == q * (d * k);
    ScaleOrder(r, d, k);
  }

  lemma ScaleOrder(a: nat, b: nat, k: nat)
    requires k > 0
    ensures a < b <==> a * k < b * k
    ensures a == b <==> a * k == b * k
  {
    if a < b {
      MulMono(a + 1, b, k);
      assert (a + 1) * k == a * k + k;
    } else if b < a {
      MulMono(b + 1, a, k);
      assert (b + 1) * k == b * k + k;
    }
  }

  /** Equal ratios are rounded alike. */
  lemma RoundRatio(n: nat, d: nat, n': nat, d': nat, mode: Mode)
    requires d > 0 && d' > 0 && n * d' == n' * d
    ensures RoundDiv(n, d, mode) == RoundDiv(n', d', mode)
  {
    hide RoundDiv;
    RoundScale(n, d, d', mode);
    RoundScale(n', d', d, mode);
    assert d * d' == d' * d;
  }

  lemma RoundExact(n: nat, mode: Mode)
    ensures RoundDiv(n, 1, mode) == n
  {
  }

  /** The quotient with a bit that tells whether the division was exact. */
  function Sticky(n: nat, d: nat): nat
    requires d > 0
  {
    if n % d == 0 then n / d else OrOne(n / d)
  }

  function OrOne(x: nat): nat {
    if x % 2 == 0 then x + 1 else x
  }

  /** Rounding the quotient with its sticky bit is rounding the exact ratio, as long as the sticky bit lies
      below the bit that decides about rounding. */
  lemma StickyRounds(n: nat, d: nat, p: nat, mode: Mode)
    requires d > 0 && p > 0 && mode != TowardZero
    ensures d * (4 * p) > 0
    ensures RoundDiv(Sticky(n, d), 4 * p, mode) == RoundDiv(n, d * (4 * p), mode)
  {
    hide *;
    MulPositive(d, 4 * p);
    StickyIs(n, d, n / d, n % d);
    StickyRoundsMore(n, d, p, n / d, n % d, mode);
  }

  lemma StickyIs(n: nat, d: nat, y: nat, r: nat)
    requires d > 0 && y == n / d && r == n % d
    ensures Sticky(n, d) == (if r == 0 then y else OrOne(y)) && n == y * d + r && r < d
  {
  }

  lemma StickyRoundsMore(n: nat, d: nat, p: nat, y: nat, r: nat, mode: Mode)
    requires d > 0 && p > 0 && mode != TowardZero && d * (4 * p) > 0 && n == y * d + r && r < d
    ensures RoundDiv(if r == 0 then y else OrOne(y), 4 * p, mode) == RoundDiv(n, d * (4 * p), mode)
  {
    hide *;
    DivMod(y, 4 * p);
    StickyRoundsParts(n, d, p, y, r, y / (4 * p), y % (4 * p), mode);
  }

  lemma StickyRoundsParts(n: nat, d: nat, p: nat, y: nat, r: nat, q: nat, z: nat, mode: Mode)
    requires d > 0 && p > 0 && mode != TowardZero && d * (4 * p) > 0
    requires n == y * d + r && r < d && y == q * (4 * p) + z && z < 4 * p
    ensures RoundDiv(if r == 0 then y else OrOne(y), 4 * p, mode) == RoundDiv(n, d * (4 * p), mode)
  {
    hide *;
    var s := if r == 0 then z else OrOne(z);
    StickyParts(n, d, 4 * p, y, r, q, z);
    RoundBy(n, d * (4 * p), q, z * d + r, mode);
    StickyQuotient(y, p, q, z);
    RoundBy(if r == 0 then y else OrOne(y), 4 * p, q, s, mode);
    StickyHalf(d, p, z, r);
    RoundSame(q, s, 4 * p, z * d + r, d * (4 * p), mode);
  }

  lemma StickyParts(n: nat, d: nat, m: nat, y: nat, r: nat, q: nat, z: nat)
    requires d > 0 && m > 0 && n == y * d + r && y == q * m + z && r < d && z < m
    ensures n == q * (d * m) + (z * d + r) && z * d + r < d * m
  {
    assert y * d == (q * m) * d + z * d;
    assert (q * m) * d == q * (d * m);
    MulMono(z + 1, m, d);
    assert (z + 1) * d == z * d + d;
  }

  /** The sticky bit does not reach the quotient. */
  lemma StickyQuotient(y: nat, p: nat, q: nat, z: nat)
    requires p > 0 && y == q * (4 * p) + z && z < 4 * p
    ensures OrOne(y) == q * (4 * p) + OrOne(z) && OrOne(z) < 4 * p
  {
    assert q * (4 * p) == 2 * (q * (2 * p));
    assert y % 2 == z % 2;
  }

  /** Neither does it change on which side of one half the remainder lies. */
  lemma StickyHalf(d: nat, p: nat, z: nat, r: nat)
    requires d > 0 && p > 0 && r < d && z < 4 * p
    ensures var s := if r == 0 then z else OrOne(z);
            && (2 * s > 4 * p <==> 2 * (z * d + r) > d * (4 * p))
            && (2 * s == 4 * p <==> 2 * (z * d + r) == d * (4 * p))
  {
    assert d * (4 * p) == 2 * (d * (2 * p));
    if z < 2 * p {
      MulMono(z + 1, 2 * p, d);
      assert (z + 1) * d == z * d + d;
    } else {
      MulMono(2 * p, z, d);
      if z > 2 * p {
        MulMono(2 * p + 1, z, d);
        assert (2 * p + 1) * d == (2 * p) * d + d;
      }
    }
  }
}
