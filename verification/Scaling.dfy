/** Powers of the radix, and multiplying a number by one: mul_pow and mul_pow_round. */
module Scaling {
  import opened Limbs
  import opened Rounding
  import opened Bignum

  const JS_RADIX_MAX := 36

  const POW5_TABLE: seq<nat> := [
    0x00000005, 0x00000019, 0x0000007d, 0x00000271,
    0x00000c35, 0x00003d09, 0x0001312d, 0x0005f5e1,
    0x001dcd65, 0x009502f9, 0x02e90edd, 0x0e8d4a51,
    0x48c27395, 0x6bcc41e9, 0x1afd498d, 0x86f26fc1,
    0xa2bc2ec5]

  const POW5H_TABLE: seq<nat> := [0x00000001, 0x00000007, 0x00000023, 0x000000b1]

  const POW5_INV_TABLE: seq<limb> := [
    0x99999999, 0x47ae147a, 0x0624dd2f, 0xa36e2eb1,
    0x4f8b588e, 0x0c6f7a0b, 0xad7f29ab, 0x5798ee23,
    0x12e0be82, 0xb7cdfd9d, 0x5fd7fe17, 0x19799812,
    0xc25c2684]

  const DIGITS_PER_LIMB_TABLE: seq<nat> := [
    32, 20, 16, 13, 12, 11, 10, 10, 9, 9, 8, 8, 8, 8, 8, 7, 7, 7, 7, 7, 7, 7, 6, 6, 6, 6, 6, 6, 6, 6, 6, 6, 6, 6, 6]

  function Pow5Entry(b: nat): nat
    requires 1 <= b <= 17
  {
    POW5_TABLE[b - 1] + if b >= 14 then POW5H_TABLE[b - 14] * BASE else 0
  }

  /** The table holds the powers of five. */
  lemma Pow5TableCorrect(b: nat)
    requires 1 <= b <= 17
    ensures Pow5Entry(b) == Power(5, b)
  {
    assert Power(5, 1) == 5;
    assert Power(5, 4) == 625;
    assert Power(5, 8) == 390625;
    assert Power(5, 12) == 244140625;
    assert Power(5, 16) == 152587890625;
    if b <= 4 {
    } else if b <= 8 {
      PowerAdd(5, 4, b - 4);
    } else if b <= 12 {
      PowerAdd(5, 8, b - 8);
    } else if b <= 16 {
      PowerAdd(5, 12, b - 12);
    }
  }

  /** The reciprocal of a normalized divisor is the only one in its bounds. */
  lemma InverseUnique(d: limb, v: limb)
    requires d >= 0x8000_0000 && (BASE + v) * d < BASE * BASE <= (BASE + v + 1) * d
    ensures v == UDiv1NormInit(d)
  {
    var w := UDiv1NormInit(d);
    if v < w { MulMono(BASE + v + 1, BASE + w, d); }
    if w < v { MulMono(BASE + w + 1, BASE + v, d); }
  }

  lemma ClzIs(v: limb, z: nat)
    requires v > 0 && z <= 31 && Pow2(31 - z) <= v < Pow2(32 - z)
    ensures Clz32(v) == z
  {
    hide Pow2;
    if Clz32(v) < z { Pow2Monotone(32 - z, 31 - Clz32(v)); }
    if z < Clz32(v) { Pow2Monotone(32 - Clz32(v), 31 - z); }
  }

  lemma Pow5Normalized(b: nat, p: limb, z: nat, d: limb, v: limb)
    requires z <= 31 && p > 0 && Pow2(31 - z) <= p < Pow2(32 - z) && d == p * Pow2(z) && d >= 0x8000_0000
    requires (BASE + v) * d < BASE * BASE <= (BASE + v + 1) * d
    ensures Clz32(p) == z && d < BASE && v == UDiv1NormInit(d)
  {
    ClzIs(p, z);
    InverseUnique(d, v);
  }

  /** The normalized powers of five, and by how much they are shifted. */
  const POW5_NORMALIZED: seq<limb> := [2684354560, 3355443200, 4194304000, 2621440000, 3276800000, 4096000000, 2560000000, 3200000000, 4000000000, 2500000000, 3125000000, 3906250000, 2441406250]

  const POW5_SHIFT: seq<nat> := [29, 27, 25, 22, 20, 18, 15, 13, 11, 8, 6, 4, 1]

  /** The bounds of the reciprocals, by computation. */
  lemma Pow5InvBounds(b: nat)
    requires 1 <= b <= 13
    ensures var d, v := POW5_NORMALIZED[b - 1], POW5_INV_TABLE[b - 1];
            d >= 0x8000_0000 && (BASE + v) * d < BASE * BASE <= (BASE + v + 1) * d
  {
  }

  lemma Pow5Shifts(b: nat)
    requires 1 <= b <= 13
    ensures var z, p := POW5_SHIFT[b - 1], POW5_TABLE[b - 1];
            && 0 <= z <= 31 && 0 < p < BASE && Pow2(31 - z) <= p < Pow2(32 - z) && POW5_NORMALIZED[b - 1] == p * Pow2(z)
  {
    hide Pow2;
    SmallPow2();
  }

  /** The table holds the reciprocals of the powers of five, normalized. */
  lemma Pow5InvTableCorrect(b: nat)
    requires 1 <= b <= 13
    ensures 0 < Power(5, b) < BASE
    ensures var z := Clz32(Power(5, b)); var d := Power(5, b) * Pow2(z);
            0x8000_0000 <= d < BASE && POW5_INV_TABLE[b - 1] == UDiv1NormInit(d)
  {
    Pow5TableCorrect(b);
    Pow5InvBounds(b);
    Pow5Shifts(b);
    hide Power, Pow2, UDiv1NormInit, Clz32, POW5_INV_TABLE, POW5_NORMALIZED;
    Pow5Normalized(b, Power(5, b), POW5_SHIFT[b - 1], POW5_NORMALIZED[b - 1], POW5_INV_TABLE[b - 1]);
  }

  lemma SmallPow2()
    ensures Pow2(0) == 1 && Pow2(1) == 2 && Pow2(2) == 4 && Pow2(3) == 8 && Pow2(4) == 16 && Pow2(5) == 32 && Pow2(6) == 64 && Pow2(7) == 128
    ensures Pow2(8) == 0x100 && Pow2(9) == 0x200 && Pow2(10) == 0x400 && Pow2(11) == 0x800 && Pow2(12) == 0x1000 && Pow2(13) == 0x2000
    ensures Pow2(14) == 0x4000 && Pow2(15) == 0x8000 && Pow2(16) == 0x1_0000 && Pow2(17) == 0x2_0000 && Pow2(18) == 0x4_0000 && Pow2(19) == 0x8_0000
    ensures Pow2(20) == 0x10_0000 && Pow2(21) == 0x20_0000 && Pow2(22) == 0x40_0000 && Pow2(23) == 0x80_0000 && Pow2(24) == 0x100_0000
    ensures Pow2(25) == 0x200_0000 && Pow2(26) == 0x400_0000 && Pow2(27) == 0x800_0000 && Pow2(28) == 0x1000_0000 && Pow2(29) == 0x2000_0000
    ensures Pow2(30) == 0x4000_0000 && Pow2(31) == 0x8000_0000 && Pow2(32) == BASE
  {
  }

  const TWO64 := BASE * BASE

  // ----- pow_ui

  lemma {:induction false} PowerMonotone(a: nat, m: nat, n: nat)
    requires a > 0 && m <= n
    ensures 0 < Power(a, m) <= Power(a, n)
    decreases n
  {
    if m < n {
      PowerMonotone(a, m, n - 1);
      MulMono(1, a, Power(a, n - 1));
    } else {
      PowerPositive(a, m);
    }
  }

  lemma {:induction false} PowerMul(a: nat, b: nat, n: nat)
    ensures Power(a * b, n) == Power(a, n) * Power(b, n)
  {
    if n > 0 {
      PowerMul(a, b, n - 1);
      FourFactors(a, b, Power(a, n - 1), Power(b, n - 1));
    }
  }

  lemma FourFactors(a: nat, b: nat, x: nat, y: nat)
    ensures (a * b) * (x * y) == (a * x) * (b * y)
  {
    MulAssoc(a * b, x, y);
    assert (a * b) * x == (a * x) * b;
    MulAssoc(a * x, b, y);
  }

  lemma Pow2Is(n: nat)
    ensures Pow2(n) == Power(2, n)
  {
  }

  lemma PowerOne(a: nat)
    ensures Power(a, 0) == 1 && Power(a, 1) == a
  {
    assert Power(a, 1) == a * Power(a, 0);
  }

  /** A power, by the table for 5 and 10, otherwise from the top bit of the exponent down. */
  method PowUi(a: nat, b: nat) returns (r: nat)
    requires 0 < a < BASE && b < BASE && Power(a, b) < TWO64
    ensures r == Power(a, b)
  {
    hide Power;
    PowerOne(a);
    if b == 0 { return 1; }
    if b == 1 { return a; }
    if (a == 5 || a == 10) && b <= 17 {
      r := PowUiTable(a, b);
    } else {
      r := PowUiLoop(a, b);
    }
  }

  method PowUiTable(a: nat, b: nat) returns (r: nat)
    requires (a == 5 || a == 10) && 1 <= b <= 17 && Power(a, b) < TWO64
    ensures r == Power(a, b)
  {
    hide Power, Pow2;
    Pow5TableCorrect(b);
    PowerMul(5, 2, b);
    Pow2Is(b);
    r := POW5_TABLE[b - 1];
    if b >= 14 {
      r := r + POW5H_TABLE[b - 14] * BASE;
    }
    if a == 10 {
      r := (r * Pow2(b)) % TWO64;
    }
  }

  method PowUiLoop(a: nat, b: limb) returns (r: nat)
    requires 0 < a && b > 0 && Power(a, b) < TWO64
    ensures r == Power(a, b)
  {
    hide Power, TopBits;
    PowerOne(a);
    r := a;
    var i := 31 - Clz32(b);
    TopBitIsOne(b, i);
    while i > 0
      invariant 0 <= i && r == Power(a, TopBits(b, i))
    {
      i := i - 1;
      BitStep(a, b, i);
      r := (r * r) % TWO64;
      if TopBits(b, i) % 2 == 1 {
        r := (r * a) % TWO64;
      }
    }
    TopBitsAll(b);
  }

  /** `b >> i` */
  function TopBits(b: nat, i: nat): nat {
    b / Pow2(i)
  }

  lemma TopBitIsOne(b: limb, i: nat)
    requires b > 0 && i == 31 - Clz32(b)
    ensures TopBits(b, i) == 1
  {
    assert Pow2(i + 1) == 2 * Pow2(i);
    hide Pow2;
    DivideIs(b, Pow2(i), 1, b - Pow2(i));
  }

  lemma TopBitsAll(b: nat)
    ensures TopBits(b, 0) == b
  {
    ZeroShift();
    DivideIs(b, 1, b, 0);
  }

  lemma TopBitsHalf(b: nat, i: nat)
    ensures TopBits(b, i + 1) == TopBits(b, i) / 2 && TopBits(b, i) <= b
  {
    hide Pow2;
    HalfPower(i + 1);
    QuotientHalves(b, Pow2(i));
  }

  lemma QuotientHalves(b: nat, h: nat)
    requires h > 0
    ensures b / (2 * h) == (b / h) / 2 && b / h <= b
  {
    DivMod(b, h);
    HalfQuotient(b, h, b / h, b % h);
    QuotientLess(b, h);
  }

  /** Squaring, and multiplying if the next bit is set; nothing exceeds the result. */
  lemma BitStep(a: nat, b: nat, i: nat)
    requires a > 0 && Power(a, b) < TWO64
    ensures var x, y := TopBits(b, i + 1), TopBits(b, i);
            && (Power(a, x) * Power(a, x)) % TWO64 == Power(a, x) * Power(a, x)
            && (y % 2 == 0 ==> Power(a, y) == Power(a, x) * Power(a, x))
            && (y % 2 == 1 ==> Power(a, y) == ((Power(a, x) * Power(a, x)) * a) % TWO64)
  {
    hide Power, TopBits;
    TopBitsHalf(b, i);
    BitParts(a, b, TopBits(b, i + 1), TopBits(b, i));
  }

  lemma BitParts(a: nat, b: nat, x: nat, y: nat)
    requires a > 0 && Power(a, b) < TWO64 && x == y / 2 && y <= b
    ensures Power(a, x) * Power(a, x) < TWO64
    ensures y % 2 == 0 ==> Power(a, y) == Power(a, x) * Power(a, x)
    ensures y % 2 == 1 ==> Power(a, y) == (Power(a, x) * Power(a, x)) * a && Power(a, y) < TWO64
  {
    hide Power;
    PowerAdd(a, x, x);
    PowerMonotone(a, x + x, b);
    PowerMonotone(a, y, b);
    PowerAdd(a, x + x, 1);
    PowerOne(a);
    assert y == x + x + y % 2;
  }

  lemma HalfQuotient(b: nat, h: nat, y: nat, r: nat)
    requires h > 0 && b == y * h + r && r < h
    ensures b / (2 * h) == y / 2
  {
    var q, z := y / 2, y % 2;
    assert y == 2 * q + z;
    HalfQuotientParts(b, h, q, z, r);
  }

  lemma HalfQuotientParts(b: nat, h: nat, q: nat, z: nat, r: nat)
    requires h > 0 && b == (2 * q + z) * h + r && r < h && z < 2
    ensures b / (2 * h) == q
  {
    Distribute(2 * q, z, h);
    var low := if z == 0 then r else h + r;
    assert (2 * q) * h == q * (2 * h) && z * h + r == low;
    DivideIs(b, 2 * h, q, low);
  }

  lemma QuotientLess(b: nat, h: nat)
    requires h > 0
    ensures b / h <= b
  {
    DivMod(b, h);
    var q := b / h;
    assert q * h >= q by { MulMono(1, h, q); }
  }

  /** pow_ui_inv: a power, normalized, with its shift and its reciprocal. */
  method PowUiInv(a: nat, b: nat) returns (r: limb, rInv: limb, shift: nat)
    requires 0 < a < BASE && b < BASE && Power(a, b) < BASE
    ensures shift < LIMB_BITS && r == Power(a, b) * Pow2(shift) && r >= 0x8000_0000 && rInv == UDiv1NormInit(r)
  {
    hide Power, Pow2, UDiv1NormInit;
    PowerPositive(a, b);
    Normalizes(Power(a, b));
    if a == 5 && 1 <= b <= 13 {
      Pow5TableCorrect(b);
      Pow5InvTableCorrect(b);
      r := POW5_TABLE[b - 1];
      shift := Clz32(r);
      r := r * Pow2(shift);
      rInv := POW5_INV_TABLE[b - 1];
    } else {
      var p := PowUi(a, b);
      shift := Clz32(p);
      r := p * Pow2(shift);
      rInv := UDiv1NormInit(r);
    }
  }

  /** Shifting by the number of leading zeros sets the top bit and loses nothing. */
  lemma Normalizes(v: limb)
    requires v > 0
    ensures var z := Clz32(v); 0x8000_0000 <= v * Pow2(z) < BASE
  {
    var z := Clz32(v);
    Pow2Add(31 - z, z);
    Pow2Add(32 - z, z);
    SmallPow2();
    hide Pow2;
    MulMono(Pow2(31 - z), v, Pow2(z));
    MulMono(v + 1, Pow2(32 - z), Pow2(z));
    Distribute(v, 1, Pow2(z));
  }

  // ----- mul_pow

  /** The odd part of a radix; numbers are multiplied or divided by it in chunks that fit a limb. */
  predicate OddPart(radix1: nat) {
    radix1 == 1 || (3 <= radix1 <= 35 && radix1 % 2 == 1)
  }

  function DigitsPerLimb(radix: nat): (d: nat)
    requires 2 <= radix <= JS_RADIX_MAX
    ensures 0 < d <= 32
  {
    DIGITS_PER_LIMB_TABLE[radix - 2]
  }

  lemma ChunkFits(radix1: nat, n: nat)
    requires OddPart(radix1) && radix1 != 1 && n <= DigitsPerLimb(radix1)
    ensures 0 < Power(radix1, n) < BASE
  {
    LargestChunk(radix1);
    hide Power;
    PowerMonotone(radix1, n, DigitsPerLimb(radix1));
  }

  lemma SmallPowers()
    ensures Power(3, 5) == 243 && Power(7, 5) == 16807 && Power(7, 6) == 117649 && Power(9, 5) == 59049 && Power(11, 4) == 14641
    ensures Power(11, 5) == 161051 && Power(13, 4) == 28561 && Power(15, 4) == 50625 && Power(17, 3) == 4913 && Power(17, 4) == 83521
    ensures Power(19, 3) == 6859 && Power(19, 4) == 130321 && Power(21, 3) == 9261 && Power(21, 4) == 194481 && Power(23, 3) == 12167
    ensures Power(23, 4) == 279841 && Power(25, 3) == 15625 && Power(27, 3) == 19683 && Power(29, 3) == 24389 && Power(31, 3) == 29791
    ensures Power(33, 3) == 35937 && Power(35, 3) == 42875
  {
  }

  lemma DigitsLow()
    ensures DigitsPerLimb(3) == 20 && DigitsPerLimb(5) == 13 && DigitsPerLimb(7) == 11 && DigitsPerLimb(9) == 10 && DigitsPerLimb(11) == 9
  {
  }

  lemma DigitsMiddle()
    ensures DigitsPerLimb(13) == 8 && DigitsPerLimb(15) == 8 && DigitsPerLimb(17) == 7 && DigitsPerLimb(19) == 7 && DigitsPerLimb(21) == 7 && DigitsPerLimb(23) == 7
  {
  }

  lemma DigitsHigh()
    ensures DigitsPerLimb(25) == 6 && DigitsPerLimb(27) == 6 && DigitsPerLimb(29) == 6 && DigitsPerLimb(31) == 6 && DigitsPerLimb(33) == 6 && DigitsPerLimb(35) == 6
  {
  }

  lemma Pow5Thirteen()
    ensures Power(5, 13) == 1220703125
  {
    Pow5TableCorrect(13);
  }

  lemma PowerProduct(r: nat, m: nat, n: nat, x: nat, y: nat)
    requires Power(r, m) == x && Power(r, n) == y
    ensures Power(r, m + n) == x * y
  {
    PowerAdd(r, m, n);
  }

  lemma LargestChunk(radix1: nat)
    requires OddPart(radix1) && radix1 != 1
    ensures Power(radix1, DigitsPerLimb(radix1)) < BASE
  {
    hide Power, DigitsPerLimb;
    Pow5Thirteen();
    DigitsLow();
    DigitsMiddle();
    DigitsHigh();
    SmallPowers();
    match radix1
    case 3 => PowerProduct(3, 5, 5, 243, 243); PowerProduct(3, 10, 10, 59049, 59049);
    case 5 =>
    case 7 => PowerProduct(7, 5, 6, 16807, 117649);
    case 9 => PowerProduct(9, 5, 5, 59049, 59049);
    case 11 => PowerProduct(11, 4, 5, 14641, 161051);
    case 13 => PowerProduct(13, 4, 4, 28561, 28561);
    case 15 => PowerProduct(15, 4, 4, 50625, 50625);
    case 17 => PowerProduct(17, 3, 4, 4913, 83521);
    case 19 => PowerProduct(19, 3, 4, 6859, 130321);
    case 21 => PowerProduct(21, 3, 4, 9261, 194481);
    case 23 => PowerProduct(23, 3, 4, 12167, 279841);
    case 25 => PowerProduct(25, 3, 3, 15625, 15625);
    case 27 => PowerProduct(27, 3, 3, 19683, 19683);
    case 29 => PowerProduct(29, 3, 3, 24389, 24389);
    case 31 => PowerProduct(31, 3, 3, 29791, 29791);
    case 33 => PowerProduct(33, 3, 3, 35937, 35937);
    case 35 => PowerProduct(35, 3, 3, 42875, 42875);
  }

  /** The number of chunks. */
  function Chunks(f: nat, d: nat): nat
    requires d > 0
  {
    (f + d - 1) / d
  }

  lemma ChunksStep(f: nat, d: nat)
    requires d > 0 && f > 0
    ensures Chunks(f, d) == 1 + Chunks(if f < d then 0 else f - d, d)
  {
    if f < d {
      DivideIs(f + d - 1, d, 1, f - 1);
      DivideIs(d - 1, d, 0, d - 1);
    } else {
      DivMod(f - 1, d);
      var q, r := (f - 1) / d, (f - 1) % d;
      Distribute(q, 1, d);
      DivideIs(f + d - 1, d, q + 1, r);
    }
  }

  function MinInt(a: nat, b: nat): nat {
    if a < b then a else b
  }

  /** mul_pow upwards: a multiplication by radix1^f. */
  method MulPowUp(a: Mpb, radix1: nat, f0: nat)
    requires a.Valid() && OddPart(radix1) && radix1 != 1
    requires a.len + Chunks(f0, DigitsPerLimb(radix1)) <= a.tab.Length
    modifies a, a.tab
    ensures a.Valid() && a.tab == old(a.tab) && a.Val() == old(a.Val()) * Power(radix1, f0)
    ensures a.len <= old(a.len) + Chunks(f0, DigitsPerLimb(radix1))
    ensures old(a.Normal()) && old(a.Val()) > 0 ==> a.Normal() && a.Val() > 0
  {
    hide Value, Power, Chunks, DigitsPerLimb;
    var d := DigitsPerLimb(radix1);
    var f, b, n0 := f0, 0, 0;
    PowerOne(radix1);
    ghost var v := a.Val();
    ChunksNone(d);
    while f != 0
      invariant 0 <= f <= f0 && a.Valid() && a.tab == old(a.tab) && a.len + Chunks(f, d) <= old(a.len) + Chunks(f0, d)
      invariant a.Val() == v * Power(radix1, f0 - f)
      invariant 0 <= n0 <= d && (n0 > 0 ==> b == Power(radix1, n0))
      invariant old(a.Normal()) && v > 0 ==> a.Normal() && a.Val() > 0
      decreases f
    {
      var n := MinInt(f, d);
      ChunkFits(radix1, n);
      if n != n0 {
        b := PowUi(radix1, n);
        n0 := n;
      }
      ChunksStep(f, d);
      PowerAdd(radix1, f0 - f, n);
      MulAssoc(v, Power(radix1, f0 - f), Power(radix1, n));
      MulPositiveIf(a.Val(), b);
      a.MulSmall(b);
      f := f - n;
    }
  }

  lemma ChunksNone(d: nat)
    requires d > 0
    ensures Chunks(0, d) == 0
  {
    DivideIs(d - 1, d, 0, d - 1);
  }

  /** Floor divisions in sequence are one floor division, exact if all of them are. */
  lemma ChainDiv(x: nat, p: nat, b: nat, v: nat, q: nat, r: nat)
    requires p > 0 && b > 0 && v == x / p && v == q * b + r && r < b
    ensures p * b > 0 && x / (p * b) == q && (x % (p * b) == 0 <==> x % p == 0 && r == 0)
  {
    DivMod(x, p);
    ChainParts(x, p, b, q, r, x % p);
  }

  lemma ChainParts(x: nat, p: nat, b: nat, q: nat, r: nat, s: nat)
    requires p > 0 && b > 0 && x == (q * b + r) * p + s && s < p && r < b
    ensures p * b > 0 && x / (p * b) == q && (x % (p * b) == 0 <==> s == 0 && r == 0)
  {
    MulPositive(p, b);
    assert (q * b + r) * p == q * (p * b) + r * p;
    MulMono(r + 1, b, p);
    Distribute(r, 1, p);
    DivideIs(x, p * b, q, r * p + s);
    NonzeroProduct(p, r);
  }

  /** The division loop of mul_pow: by radix1^f in chunks, collecting whether anything was lost. */
  method DivPow(a: Mpb, radix1: nat, f0: nat) returns (rem: bool)
    requires a.Valid() && OddPart(radix1) && radix1 != 1 && a.Normal()
    modifies a, a.tab
    ensures a.Valid() && a.tab == old(a.tab) && a.len <= old(a.len) && a.Normal()
    ensures Power(radix1, f0) > 0 && a.Val() == old(a.Val()) / Power(radix1, f0)
    ensures rem <==> old(a.Val()) % Power(radix1, f0) != 0
  {
    hide Value, Power, Pow2, DigitsPerLimb, UDiv1NormInit;
    var d := DigitsPerLimb(radix1);
    var f, n0 := f0, 0;
    var b: limb, bInv: limb, shift: nat := 0, 0, 0;
    rem := false;
    PowerOne(radix1);
    ghost var x := a.Val();
    DivideIs(x, 1, x, 0);
    while f != 0
      invariant 0 <= f <= f0 && a.Valid() && a.tab == old(a.tab) && a.len <= old(a.len) && a.Normal()
      invariant Power(radix1, f0 - f) > 0 && a.Val() == x / Power(radix1, f0 - f)
      invariant rem <==> x % Power(radix1, f0 - f) != 0
      invariant 0 <= n0 <= d
      invariant n0 > 0 ==> shift < LIMB_BITS && b == Power(radix1, n0) * Pow2(shift) && b >= 0x8000_0000 && bInv == UDiv1NormInit(b)
      decreases f
    {
      var n := MinInt(f, d);
      ChunkFits(radix1, n);
      if n != n0 {
        b, bInv, shift := PowUiInv(radix1, n);
        n0 := n;
      }
      ghost var v := a.Val();
      DivChunk(x, Power(radix1, f0 - f), radix1, f0 - f, n, v);
      var r := a.DivNorm(b, 0, bInv, shift, Power(radix1, n));
      rem := rem || r != 0;
      ChainDiv(x, Power(radix1, f0 - f), Power(radix1, n), v, Value(a.tab[..a.len]), r);
      a.Renorm();
      f := f - n;
    }
  }

  lemma DivChunk(x: nat, p: nat, radix1: nat, done: nat, n: nat, v: nat)
    requires p == Power(radix1, done)
    ensures Power(radix1, done + n) == p * Power(radix1, n)
  {
    PowerAdd(radix1, done, n);
  }

  /** `a->tab[0] |= 1` */
  method SetSticky(a: Mpb)
    requires a.Valid() && a.Normal()
    modifies a.tab
    ensures a.Valid() && a.Val() == OrOne(old(a.Val())) && a.Normal()
  {
    ghost var s := a.tab[..a.len];
    LowestBit(s);
    if a.tab[0] % 2 == 0 {
      a.tab[0] := a.tab[0] + 1;
    }
    assert a.tab[..a.len] == s[0 := OrOne(s[0])];
  }

  lemma LowestBit(s: seq<limb>)
    requires s != []
    ensures OrOne(s[0]) < BASE && Value(s[0 := OrOne(s[0])]) == OrOne(Value(s))
  {
    assert s[0 := OrOne(s[0])][1..] == s[1..];
    assert Value(s) % 2 == s[0] % 2;
  }

  function MaxInt(a: int, b: int): int {
    if a > b then a else b
  }

  /** mul_pow: on return the number that was in `a`, times radix^f, is what is in `a` now, times
      2^-eOffset: exactly, or if `f` is negative with a sticky bit. `s` is the shift before the division. */
  method MulPow(a: Mpb, radix1: nat, radixShift: nat, f: int, isInt: bool, e: int) returns (eOffset: int, ghost s: nat)
    requires a.Valid() && a.Normal() && a.Val() > 0 && OddPart(radix1)
    requires radix1 != 1 && f >= 0 ==> a.len + Chunks(f, DigitsPerLimb(radix1)) <= a.tab.Length
    requires radix1 != 1 && f < 0 ==> Room(a.len, Chunks(-f, DigitsPerLimb(radix1)), -f * radixShift, isInt, e) <= a.tab.Length
    modifies a, a.tab
    ensures a.Valid() && a.Normal() && a.Val() > 0 && a.tab == old(a.tab)
    ensures radix1 == 1 || f >= 0 ==> eOffset == -f * radixShift && a.Val() == old(a.Val()) * Power(radix1, MaxInt(f, 0))
    ensures radix1 == 1 || f >= 0 ==> a.len <= old(a.len) + (if radix1 == 1 then 0 else Chunks(f, DigitsPerLimb(radix1)))
    ensures radix1 != 1 && f < 0 ==>
              && eOffset == -f * radixShift + s && Power(radix1, -f) > 0
              && a.Val() == Sticky(old(a.Val()) * Pow2(s), Power(radix1, -f))
              && (isInt ==> eOffset - e >= 2)
              && (!isInt && e >= 0 ==> a.Val() >= Pow2(e))
              && a.len <= Room(old(a.len), Chunks(-f, DigitsPerLimb(radix1)), -f * radixShift, isInt, e)
  {
    hide Value, Power, Pow2, Chunks, DigitsPerLimb, Sticky;
    s := 0;
    eOffset := -f * radixShift;
    PowerOfOne(MaxInt(f, 0));
    if radix1 != 1 {
      if f >= 0 {
        MulPowUp(a, radix1, f);
      } else {
        var d := DigitsPerLimb(radix1);
        var l := Chunks(-f, d);
        eOffset := eOffset + l * LIMB_BITS;
        var log2 := a.FloorLog2();
        var extraBits := if !isInt then MaxInt(e - log2, 0) else MaxInt(2 + e - eOffset, 0);
        eOffset := eOffset + extraBits;
        s := l * LIMB_BITS + extraBits;
        ghost var v := a.Val();
        RoomIs(a.len, l, -f * radixShift, isInt, e, extraBits, s);
        a.ShiftUp(l * LIMB_BITS + extraBits);
        var rem := DivPow(a, radix1, -f);
        StickyIs(v * Pow2(s), Power(radix1, -f), a.Val(), v * Pow2(s) % Power(radix1, -f));
        if !isInt && e >= 0 { EnoughBits(v, log2, e, extraBits, l, radix1, -f, s); }
        QuotientPositive(v, s, l, extraBits, radix1, -f);
        if rem {
          SetSticky(a);
        }
      }
    }
  }

  lemma {:induction false} PowerOfOne(n: nat)
    ensures Power(1, n) == 1
  {
    if n > 0 { PowerOfOne(n - 1); }
  }

  /** A bound on the number of limbs that a division needs. */
  function Room(len: nat, l: nat, shift: nat, isInt: bool, e: int): nat {
    len + l + 1 + (if !isInt then MaxInt(e + 1, 0) else MaxInt(2 + e - (shift + l * LIMB_BITS), 0)) / LIMB_BITS + 1
  }

  lemma RoomIs(len: nat, l: nat, shift: nat, isInt: bool, e: int, extra: nat, s: nat)
    requires s == l * LIMB_BITS + extra
    requires extra <= if !isInt then MaxInt(e + 1, 0) else MaxInt(2 + e - (shift + l * LIMB_BITS), 0)
    ensures len + s / LIMB_BITS + 1 <= Room(len, l, shift, isInt, e)
  {
  }

  /** The divisor is at most BASE^l. */
  lemma {:induction false} ChunksBound(radix1: nat, f: nat)
    requires OddPart(radix1) && radix1 != 1
    ensures 0 < Power(radix1, f) <= Pow2(LIMB_BITS * Chunks(f, DigitsPerLimb(radix1)))
    decreases f
  {
    hide Power, Pow2, Chunks, DigitsPerLimb;
    var d := DigitsPerLimb(radix1);
    PowerOne(radix1);
    ZeroShift();
    if f == 0 {
      ChunksNone(d);
    } else {
      var n := MinInt(f, d);
      ChunksBound(radix1, f - n);
      ChunksStep(f, d);
      ChunkFits(radix1, n);
      PowerAdd(radix1, n, f - n);
      var k := Chunks(f - n, d);
      assert LIMB_BITS * Chunks(f, d) == LIMB_BITS + LIMB_BITS * k;
      Pow2Add(LIMB_BITS, LIMB_BITS * k);
      Pow2Base();
      MulMono(Power(radix1, n), BASE, Power(radix1, f - n));
      MulMono(Power(radix1, f - n), Pow2(LIMB_BITS * k), BASE);
      MulPositive(Power(radix1, n), Power(radix1, f - n));
    }
  }

  /** The quotient keeps as many bits as were asked for. */
  lemma EnoughBits(v: nat, log2: nat, e: nat, extra: nat, l: nat, radix1: nat, f: nat, s: nat)
    requires OddPart(radix1) && radix1 != 1 && l == Chunks(f, DigitsPerLimb(radix1)) && s == l * LIMB_BITS + extra
    requires Pow2(log2) <= v && log2 + extra >= e
    ensures Power(radix1, f) > 0 && v * Pow2(s) / Power(radix1, f) >= Pow2(e)
  {
    hide Power, Pow2, Chunks, DigitsPerLimb;
    ChunksBound(radix1, f);
    Pow2Add(LIMB_BITS * l, extra);
    Pow2Add(log2, extra);
    Pow2Monotone(e, log2 + extra);
    MulMono(Pow2(log2), v, Pow2(extra));
    QuotientAtLeast(v * Pow2(extra), Pow2(LIMB_BITS * l), Power(radix1, f), v, Pow2(extra));
  }

  lemma QuotientAtLeast(x: nat, b: nat, p: nat, v: nat, c: nat)
    requires 0 < p <= b && x == v * c
    ensures v * (b * c) / p >= x
  {
    assert v * (b * c) == x * b;
    MulMono(p, b, x);
    DivMod(x * b, p);
    var q := x * b / p;
    if q < x {
      MulMono(q + 1, x, p);
      Distribute(q, 1, p);
    }
  }

  lemma QuotientPositive(v: nat, s: nat, l: nat, extra: nat, radix1: nat, f: nat)
    requires OddPart(radix1) && radix1 != 1 && l == Chunks(f, DigitsPerLimb(radix1)) && s == l * LIMB_BITS + extra && v > 0
    ensures Power(radix1, f) > 0 && v * Pow2(s) / Power(radix1, f) > 0
  {
    hide Power, Pow2, Chunks, DigitsPerLimb;
    ChunksBound(radix1, f);
    Pow2Add(LIMB_BITS * l, extra);
    QuotientAtLeast(v * Pow2(extra), Pow2(LIMB_BITS * l), Power(radix1, f), v, Pow2(extra));
    MulPositive(v, Pow2(extra));
  }
}
