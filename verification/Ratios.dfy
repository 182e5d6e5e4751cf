/** Numbers of the form m * 2^e * radix^f with exponents of either sign, as ratios of naturals. */
module Ratios {
  import opened Limbs
  import opened Rounding
  import opened Bignum
  import opened Scaling

  function Up(x: int): nat {
    if x > 0 then x else 0
  }

  function Num(m: nat, e: int, radix: nat, f: int): nat {
    m * Pow2(Up(e)) * Power(radix, Up(f))
  }

  function Den(e: int, radix: nat, f: int): nat {
    Pow2(Up(-e)) * Power(radix, Up(-f))
  }

  lemma DenPositive(e: int, radix: nat, f: int)
    requires radix > 0
    ensures Den(e, radix, f) > 0
  {
    PowerPositive(radix, Up(-f));
    MulPositive(Pow2(Up(-e)), Power(radix, Up(-f)));
  }

  lemma {:induction false} PowerOfPow2(k: nat, n: nat)
    ensures Power(Pow2(k), n) == Pow2(k * n)
  {
    hide Pow2;
    ZeroShift();
    if n > 0 {
      PowerOfPow2(k, n - 1);
      Pow2Add(k, k * (n - 1));
      assert k * n == k + k * (n - 1);
    } else {
      assert k * 0 == 0;
    }
  }

  /** radix = radix1 * 2^radixShift */
  lemma RadixPower(radix1: nat, radixShift: nat, n: nat)
    ensures Power(radix1 * Pow2(radixShift), n) == Power(radix1, n) * Pow2(radixShift * n)
  {
    hide Pow2, Power;
    PowerMul(radix1, Pow2(radixShift), n);
    PowerOfPow2(radixShift, n);
  }

  lemma Pow2Balance(a: nat, b: nat, c: nat, d: nat)
    requires a + b == c + d
    ensures Pow2(a) * Pow2(b) == Pow2(c) * Pow2(d)
  {
    hide Pow2;
    Pow2Add(a, b);
    Pow2Add(c, d);
  }

  /** The exact cases: nothing is divided but by powers of two. */
  lemma CrossUp(m: nat, p: nat, a: nat, b: nat, c: nat, d: nat, k: nat)
    requires a + b == c + d + k
    ensures (m * p * Pow2(a)) * Pow2(b) == (m * Pow2(c) * (p * Pow2(d))) * Pow2(k)
  {
    hide Pow2;
    Pow2Add(c + d, k);
    Pow2Add(c, d);
    Pow2Add(a, b);
    var mp := m * p;
    MulAssoc(mp, Pow2(a), Pow2(b));
    Rearrange(m, p, Pow2(c), Pow2(d), Pow2(k));
  }

  lemma Rearrange(m: nat, p: nat, c: nat, d: nat, k: nat)
    ensures (m * c * (p * d)) * k == (m * p) * ((c * d) * k)
  {
    assert m * c * (p * d) == (m * p) * (c * d) by {
      FourFactors(m, p, c, d);
      assert (m * p) * (c * d) == (m * c) * (p * d);
    }
    MulAssoc(m * p, c * d, k);
  }

  lemma CrossDown(m: nat, p: nat, a: nat, b: nat, c: nat, d: nat, k: nat)
    requires a + b + c == d + k
    ensures (m * Pow2(a)) * (Pow2(b) * (p * Pow2(c))) == (m * Pow2(d)) * (p * Pow2(k))
  {
    hide Pow2;
    Pow2Add(b, c);
    Pow2Add(a, b + c);
    Pow2Add(d, k);
    Rearrange2(m, p, Pow2(a), Pow2(b), Pow2(c));
    FourFactors(m, p, Pow2(d), Pow2(k));
    assert (m * p) * (Pow2(d) * Pow2(k)) == (m * Pow2(d)) * (p * Pow2(k));
  }

  lemma Rearrange2(m: nat, p: nat, a: nat, b: nat, c: nat)
    ensures (m * a) * (b * (p * c)) == (m * p) * (a * (b * c))
  {
    assert b * (p * c) == p * (b * c) by {
      MulAssoc(b, p, c);
      MulAssoc(p, b, c);
    }
    FourFactors(m, p, a, b * c);
  }

  /** After an exact multiplication only the powers of two are left to apply. */
  lemma ExactRounds(m: nat, e: int, radix1: nat, radixShift: nat, f: int, k: int, x: nat, mode: Mode)
    requires radix1 > 0 && (radix1 == 1 || f >= 0) && k == -e - f * radixShift && x == m * Power(radix1, Up(f))
    ensures var radix := radix1 * Pow2(radixShift);
            && Den(e, radix, f) > 0
            && (if k >= 0 then RoundDiv(x, Pow2(k), mode) else x * Pow2(-k)) == RoundDiv(Num(m, e, radix, f), Den(e, radix, f), mode)
  {
    hide Power, Pow2, RoundDiv;
    var radix := radix1 * Pow2(radixShift);
    MulPositive(radix1, Pow2(radixShift));
    DenPositive(e, radix, f);
    RadixPower(radix1, radixShift, Up(f));
    RadixPower(radix1, radixShift, Up(-f));
    PowerOne(radix1);
    ZeroShift();
    assert radixShift * 0 == 0;
    var p := Power(radix1, Up(f));
    var up, down := Up(k), Up(-k);
    RoundExact(x * Pow2(down), mode);
    assert (if k >= 0 then RoundDiv(x, Pow2(k), mode) else x * Pow2(-k)) == RoundDiv(x * Pow2(down), Pow2(up), mode);
    if f >= 0 {
      assert radixShift * f == f * radixShift;
      CrossUp(m, p, down, Up(-e), Up(e), radixShift * f, up);
      assert Den(e, radix, f) == Pow2(Up(-e)) && Num(m, e, radix, f) == m * Pow2(Up(e)) * (p * Pow2(radixShift * f));
    } else {
      PowerOfOne(-f);
      assert radixShift * -f == -(f * radixShift);
      CrossDown(m, 1, down, Up(-e), radixShift * -f, Up(e), up);
      assert Den(e, radix, f) == Pow2(Up(-e)) * (1 * Pow2(radixShift * -f)) && Num(m, e, radix, f) == m * Pow2(Up(e));
    }
    RoundRatio(x * Pow2(down), Pow2(up), Num(m, e, radix, f), Den(e, radix, f), mode);
  }

  /** After a division the sticky bit stands for what was lost. */
  lemma StickyShift(m: nat, e: int, radix1: nat, radixShift: nat, f: int, s: nat, k: int, mode: Mode)
    requires radix1 > 0 && f < 0 && mode != TowardZero && k >= 2 && k == -e - f * radixShift + s
    ensures var radix := radix1 * Pow2(radixShift);
            && Power(radix1, -f) > 0 && Den(e, radix, f) > 0
            && RoundDiv(Sticky(m * Pow2(s), Power(radix1, -f)), Pow2(k), mode) == RoundDiv(Num(m, e, radix, f), Den(e, radix, f), mode)
  {
    hide Power, Pow2, RoundDiv, Sticky;
    var radix := radix1 * Pow2(radixShift);
    var p := Power(radix1, -f);
    MulPositive(radix1, Pow2(radixShift));
    PowerPositive(radix1, -f);
    DenPositive(e, radix, f);
    RadixPower(radix1, radixShift, -f);
    PowerOne(radix);
    HalfPower(k);
    HalfPower(k - 1);
    assert Pow2(k) == 4 * Pow2(k - 2);
    StickyRounds(m * Pow2(s), p, Pow2(k - 2), mode);
    assert radixShift * -f == -(f * radixShift);
    CrossDown(m, p, s, Up(-e), radixShift * -f, Up(e), k);
    assert Den(e, radix, f) == Pow2(Up(-e)) * (p * Pow2(radixShift * -f)) && Num(m, e, radix, f) == m * Pow2(Up(e));
    RoundRatio(m * Pow2(s), p * Pow2(k), Num(m, e, radix, f), Den(e, radix, f), mode);
  }

  /** A bound on the number of limbs that mul_pow_round needs. */
  function RoundRoom(e: int, radix1: nat, radixShift: nat, f: int): nat
    requires OddPart(radix1)
  {
    if radix1 != 1 && f < 0 then Room(2, Chunks(-f, DigitsPerLimb(radix1)), -f * radixShift, true, e) + 1
    else 2 + (if radix1 == 1 then 0 else Chunks(f, DigitsPerLimb(radix1))) + Up(e + f * radixShift) / LIMB_BITS + 2
  }

  /** mul_pow_round: m * 2^e * radix^f, correctly rounded to an integer, whatever the signs of the exponents. */
  method MulPowRound(tmp1: Mpb, m: nat, e: int, radix1: nat, radixShift: nat, f: int, mode: Mode)
    requires tmp1.tab.Length >= 2 && 0 < m < TWO64 && OddPart(radix1) && mode != TowardZero
    requires RoundRoom(e, radix1, radixShift, f) <= tmp1.tab.Length
    modifies tmp1, tmp1.tab
    ensures tmp1.Valid() && tmp1.Normal() && tmp1.tab == old(tmp1.tab)
    ensures var radix := radix1 * Pow2(radixShift);
            Den(e, radix, f) > 0 && tmp1.Val() == RoundDiv(Num(m, e, radix, f), Den(e, radix, f), mode)
  {
    hide Value, Power, Pow2, Sticky, RoundDiv, Num, Den, Chunks, DigitsPerLimb;
    tmp1.SetU64(m);
    hide Room;
    assert Up(e + f * radixShift) / LIMB_BITS >= 0;
    DenPositive(e, radix1 * Pow2(radixShift), f);
    ghost var s: nat;
    var eOffset: int;
    eOffset, s := MulPow(tmp1, radix1, radixShift, f, true, e);
    ghost var x := tmp1.Val();
    if radix1 == 1 || f >= 0 {
      ExactRounds(m, e, radix1, radixShift, f, -e + eOffset, x, mode);
    } else {
      StickyShift(m, e, radix1, radixShift, f, s, -e + eOffset, mode);
    }
    tmp1.ShrRound(-e + eOffset, mode);
  }
}
