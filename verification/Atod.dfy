/** js_atod behind the scanning of characters: digits, a point and an exponent become a double. */
module Atod {
  import opened Limbs
  import opened Rounding
  import opened Bignum
  import opened Scaling
  import opened Ratios
  import opened Doubles

  // ----- bit patterns

  const INFINITY: nat := 0x7ff * 0x10_0000_0000_0000

  /** The magnitude of a finite bit pattern without its sign. */
  function Decode(a: nat): (nat, int) {
    var f, ef := a % Pow2(52), a / Pow2(52);
    if ef == 0 then (f, -1074) else (Pow2(52) + f, ef - 1075)
  }

  /** `a` is the double nearest to n/d: the rounded value, or infinity if that reaches 2^1024. */
  ghost predicate Nearest(n: nat, d: nat, a: nat)
    requires d > 0
  {
    exists b :: Binade(n, d, b) && NearestIn(n, d, b, a)
  }

  predicate NearestIn(n: nat, d: nat, b: int, a: nat)
    requires d > 0
  {
    var t, q := InUnits(n, d, Quantum(b)), Quantum(b);
    if TooLarge(t, q) then a == INFINITY
    else a < INFINITY && SameNumber(Decode(a).0, Decode(a).1, t, q)
  }

  /** t * 2^q >= 2^1024 */
  predicate TooLarge(t: nat, q: int) {
    t * Pow2(Up(q - 1024)) >= Pow2(Up(1024 - q))
  }

  // ----- equal ratios

  lemma AtLeastRatio(n: nat, d: nat, n': nat, d': nat, e: int)
    requires d > 0 && d' > 0 && n * d' == n' * d
    ensures AtLeast(n, d, e) <==> AtLeast(n', d', e)
  {
    hide Pow2;
    var a, b := Pow2(Up(-e)), Pow2(Up(e));
    ScaleOrder(n * a, d * b, d');
    ScaleOrder(n' * a, d' * b, d);
    assert (n * a) * d' == (n * d') * a && (n' * a) * d == (n' * d) * a;
    assert (d * b) * d' == (d' * b) * d;
  }

  lemma InUnitsRatio(n: nat, d: nat, n': nat, d': nat, q: int)
    requires d > 0 && d' > 0 && n * d' == n' * d
    ensures InUnits(n, d, q) == InUnits(n', d', q)
  {
    hide Pow2, RoundDiv;
    var a, b := Pow2(Up(-q)), Pow2(Up(q));
    MulPositive(d, b);
    MulPositive(d', b);
    CrossSame(n, d', a, b, a, b);
    assert (n * a) * (d' * b) == (n' * a) * (d * b) by {
      FourFactors(n, d', a, b);
      FourFactors(n', d, a, b);
    }
    RoundRatio(n * a, d * b, n' * a, d' * b, NearestEven);
  }

  lemma RoundedRatio(n: nat, d: nat, n': nat, d': nat, m: nat, e: int)
    requires d > 0 && d' > 0 && n * d' == n' * d && Rounded(n, d, m, e)
    ensures Rounded(n', d', m, e)
  {
    hide AtLeast, InUnits, SameNumber, Pow2;
    var b :| Binade(n, d, b) && RoundedIn(n, d, b, m, e);
    AtLeastRatio(n, d, n', d', b);
    AtLeastRatio(n, d, n', d', b - 1);
    InUnitsRatio(n, d, n', d', Quantum(b));
    assert Binade(n', d', b) && RoundedIn(n', d', b, m, e);
  }

  // ----- the bit pattern of a rounded number

  /** The last step of js_atod. */
  method Assemble(m: nat, e: int, ghost n: nat, ghost d: nat) returns (a: nat)
    requires d > 0 && Rounded(n, d, m, e)
    ensures Nearest(n, d, a)
  {
    hide Pow2, AtLeast, InUnits, SameNumber, Decode, TooLarge;
    ghost var b :| Binade(n, d, b) && RoundedIn(n, d, b, m, e);
    ghost var t, q := InUnits(n, d, Quantum(b)), Quantum(b);
    Pow52();
    a := 0;
    if m == 0 {
      ZeroPattern(t, q);
    } else {
      LargeIs(m, e, t, q);
      if e > 1024 {
        a := INFINITY;
      } else if e < -1073 {
        assert false;
      } else if e < -1021 {
        SubnormalPattern(m, e, t);
        a := m / Pow2(-e - 1021);
      } else {
        NormalPattern(m, e);
        a := (e + 1022) * Pow2(52) + m % Pow2(52);
      }
    }
    assert NearestIn(n, d, b, a);
  }

  lemma Pow52()
    ensures Pow2(52) == 0x10_0000_0000_0000 && Pow2(53) == 2 * Pow2(52)
  {
    Pow2Add(32, 20);
    SmallPow2();
    HalfPower(53);
  }

  lemma ZeroPattern(t: nat, q: int)
    requires t == 0
    ensures !TooLarge(t, q) && SameNumber(Decode(0).0, Decode(0).1, t, q) && 0 < INFINITY
  {
    Pow52();
    hide Pow2;
    DivideIs(0, Pow2(52), 0, 0);
    assert 0 * Pow2(Up(q - 1024)) == 0 && 0 * Pow2(Up(q + 1074)) == 0 && 0 * Pow2(Up(-1074 - q)) == 0;
  }

  /** Equality and size of numbers, seen from a common lower exponent `z`. */
  lemma SameAt(m: nat, x: int, t: nat, y: int, z: int)
    requires z <= x && z <= y
    ensures SameNumber(m, x, t, y) <==> m * Pow2(x - z) == t * Pow2(y - z)
  {
    hide Pow2;
    var c := (if x < y then x else y) - z;
    Pow2Add(Up(x - y), c);
    Pow2Add(Up(y - x), c);
    MulAssoc(m, Pow2(Up(x - y)), Pow2(c));
    MulAssoc(t, Pow2(Up(y - x)), Pow2(c));
    ScaleOrder(m * Pow2(Up(x - y)), t * Pow2(Up(y - x)), Pow2(c));
  }

  lemma LargeAt(t: nat, q: int, z: int)
    requires z <= q && z <= 1024
    ensures TooLarge(t, q) <==> t * Pow2(q - z) >= Pow2(1024 - z)
  {
    hide Pow2;
    var c := (if q < 1024 then q else 1024) - z;
    Pow2Add(Up(q - 1024), c);
    Pow2Add(Up(1024 - q), c);
    MulAssoc(t, Pow2(Up(q - 1024)), Pow2(c));
    ScaleOrder(t * Pow2(Up(q - 1024)), Pow2(Up(1024 - q)), Pow2(c));
  }

  /** With a mantissa of 53 bits, only the exponent decides about overflow. */
  lemma LargeIs(m: nat, e: int, t: nat, q: int)
    requires Pow2(52) <= m < Pow2(53) && SameNumber(m, e - 53, t, q)
    ensures TooLarge(t, q) <==> e > 1024
  {
    hide Pow2, SameNumber, TooLarge;
    var x := e - 53;
    var z := if x < q then (if x < 1024 then x else 1024) else (if q < 1024 then q else 1024);
    SameAt(m, x, t, q, z);
    LargeAt(m, x, z);
    LargeAt(t, q, z);
    if e > 1024 { LargeMantissa(m, e); } else { SmallMantissa(m, e); }
  }

  lemma LargeMantissa(m: nat, e: int)
    requires Pow2(52) <= m && e > 1024
    ensures TooLarge(m, e - 53)
  {
    ZeroShift();
    hide Pow2;
    var x := e - 53;
    if x < 1024 {
      Pow2Monotone(1024 - x, 52);
    } else {
      Pow2Monotone(0, 52);
      Pow2Monotone(0, x - 1024);
      MulMono(1, m, Pow2(x - 1024));
    }
  }

  lemma SmallMantissa(m: nat, e: int)
    requires m < Pow2(53) && e <= 1024
    ensures !TooLarge(m, e - 53)
  {
    ZeroShift();
    hide Pow2;
    Pow2Monotone(53, 1024 - (e - 53));
  }

  lemma SubnormalPattern(m: nat, e: int, t: nat)
    requires Pow2(52) <= m < Pow2(53) && -1073 <= e < -1021 && SameNumber(m, e - 53, t, -1074)
    ensures m / Pow2(-e - 1021) == t && t < INFINITY && SameNumber(Decode(t).0, Decode(t).1, t, -1074)
  {
    Pow52();
    ZeroShift();
    hide Pow2;
    var k := -e - 1021;
    assert m == t * Pow2(k);
    DivideIs(m, Pow2(k), t, 0);
    Pow2Monotone(1, k);
    HalfPower(1);
    MulMono(2, Pow2(k), t);
    DivideIs(t, Pow2(52), 0, t);
  }

  lemma NormalPattern(m: nat, e: int)
    requires Pow2(52) <= m < Pow2(53) && -1021 <= e <= 1024
    ensures var a := (e + 1022) * Pow2(52) + m % Pow2(52); a < INFINITY && Decode(a) == (m, e - 53)
  {
    Pow52();
    hide Pow2;
    DivideIs(m, Pow2(52), 1, m - Pow2(52));
    DivideIs((e + 1022) * Pow2(52) + m % Pow2(52), Pow2(52), e + 1022, m - Pow2(52));
  }

  // ----- overflow and underflow by size alone

  /** A ratio of at least 2^1024 becomes infinity. */
  lemma OverflowNearest(n: nat, d: nat, b: int)
    requires d > 0 && Binade(n, d, b) && AtLeast(n, d, 1024)
    ensures Nearest(n, d, INFINITY)
  {
    hide Pow2, TooLarge, SameNumber;
    var q := Quantum(b);
    BinadeAbove(n, d, b, 1024);
    var t := InUnits(n, d, q);
    InUnitsAtLeast(n, d, q, b - 1);
    assert t >= Pow2(b - 1 - q);
    LargeAt(t, q, 0);
    ZeroShift();
    Pow2Add(b - 1 - q, q);
    Pow2Monotone(1024, b - 1);
    MulMono(Pow2(b - 1 - q), t, Pow2(q));
    assert NearestIn(n, d, b, INFINITY);
  }

  lemma BinadeAbove(n: nat, d: nat, b: int, e: int)
    requires d > 0 && Binade(n, d, b)
    ensures AtLeast(n, d, e) <==> b > e
  {
    hide AtLeast;
    if AtLeast(n, d, e) && b <= e { AtLeastDown(n, d, e, b); }
    if b > e { AtLeastDown(n, d, b - 1, e); }
  }

  lemma InUnitsAtLeast(n: nat, d: nat, q: int, e: int)
    requires d > 0 && AtLeast(n, d, e) && q <= e
    ensures InUnits(n, d, q) >= Pow2(e - q)
  {
    hide Pow2, RoundDiv;
    MulPositive(d, Pow2(Up(q)));
    AtLeastShift(n, d, e, q);
    RangeInside(n * Pow2(Up(-q)), d * Pow2(Up(q)), Pow2(e - q), 0);
  }

  /** A ratio below 2^-1075 becomes zero. */
  lemma UnderflowNearest(n: nat, d: nat, b: int)
    requires d > 0 && Binade(n, d, b) && !AtLeast(n, d, -1075)
    ensures Nearest(n, d, 0)
  {
    BinadeAbove(n, d, b, -1075);
    hide AtLeast, TooLarge, SameNumber, Decode;
    UnderflowUnits(n, d);
    ZeroPattern(0, -1074);
    assert NearestIn(n, d, b, 0);
  }

  lemma UnderflowUnits(n: nat, d: nat)
    requires d > 0 && !AtLeast(n, d, -1075)
    ensures InUnits(n, d, -1074) == 0
  {
    HalfPower(1075);
    ZeroShift();
    hide Pow2;
    assert n * Pow2(1075) < d * Pow2(0);
    assert n * Pow2(1075) == 2 * (n * Pow2(1074));
    DivideIs(n * Pow2(1074), d * Pow2(0), 0, n * Pow2(1074));
  }

  /** Every positive ratio has a binade. */
  lemma SomeBinade(n: nat, d: nat) returns (b: int)
    requires n > 0 && d > 0
    ensures Binade(n, d, b)
  {
    hide Pow2, AtLeast;
    var k := 0;
    Pow2Grows(n);
    Pow2Grows(d);
    var low: int, high: int := -(d as int), n + 1;
    BinadeEnds(n, d);
    while high > low + 1
      invariant low < high && AtLeast(n, d, low) && !AtLeast(n, d, high)
    {
      if AtLeast(n, d, low + 1) {
        low := low + 1;
      } else {
        high := low + 1;
      }
    }
    b := high;
  }

  lemma {:induction false} Pow2Grows(n: nat)
    ensures Pow2(n) > n
  {
    if n > 0 { Pow2Grows(n - 1); }
  }

  lemma BinadeEnds(n: nat, d: nat)
    requires n > 0 && d > 0
    ensures AtLeast(n, d, -(d as int)) && !AtLeast(n, d, n + 1)
  {
    ZeroShift();
    hide Pow2;
    Pow2Grows(d);
    Pow2Grows(n + 1);
    MulMono(1, n, Pow2(d));
    MulMono(1, d, Pow2(n + 1));
  }

  // ----- tables

  const MAX_EXPONENT: seq<int> := [
    1024, 647, 512, 442, 397, 365, 342, 324,
    309, 297, 286, 277, 269, 263, 256, 251,
    246, 242, 237, 234, 230, 227, 224, 221,
    218, 216, 214, 211, 209, 207, 205, 203,
    202, 200, 199]

  const MIN_EXPONENT: seq<int> := [
    -1075, -679, -538, -463, -416, -383, -359, -340,
    -324, -311, -300, -291, -283, -276, -269, -263,
    -258, -254, -249, -245, -242, -238, -235, -232,
    -229, -227, -224, -222, -220, -217, -215, -214,
    -212, -210, -208]

  function MaxExponent(radix: nat): (r: int)
    requires 2 <= radix <= JS_RADIX_MAX
    ensures 0 < r <= 1024
  {
    MAX_EXPONENT[radix - 2]
  }

  function MinExponent(radix: nat): (r: int)
    requires 2 <= radix <= JS_RADIX_MAX
    ensures -1075 <= r < 0
  {
    MIN_EXPONENT[radix - 2]
  }

  /** What the tables promise of a radix: radix^max >= 2^1024, and 2^-1085 <= radix^min <= 2^-1075. */
  predicate TablesBound(radix: nat)
    requires 2 <= radix <= JS_RADIX_MAX
  {
    && Power(radix, MaxExponent(radix)) >= Pow2(1024)
    && Pow2(1075) <= Power(radix, -MinExponent(radix)) <= Pow2(1085)
  }

  /** They keep it for radix 10: 5^28 > 2^65. */
  lemma TablesBoundTen()
    ensures TablesBound(10)
  {
    TableEntriesTen();
    hide Power, Pow2, MaxExponent, MinExponent;
    FivesBeatTwos(11);
    FiveSmall();
    TenPower(308, 1, 715, 2);
    TenPower(308, 16, 715, 37);
    Pow2Monotone(1024, 309 + 717);
    Pow2Monotone(1075, 324 + 752);
    FivesBelowTwos(108);
    PowerMul(5, 2, 324);
    Pow2Is(324);
    Pow2Add(324, 756);
    MulMono(Power(5, 324), Pow2(756), Pow2(324));
    Pow2Monotone(324 + 756, 1085);
  }

  /** 5^3 < 2^7 */
  lemma {:induction false} FivesBelowTwos(k: nat)
    ensures Power(5, 3 * k) <= Pow2(7 * k)
  {
    Pow5TableCorrect(3);
    SmallPow2();
    hide Power, Pow2;
    ZeroShift();
    PowerOne(5);
    if k > 0 {
      FivesBelowTwos(k - 1);
      PowerAdd(5, 3, 3 * (k - 1));
      Pow2Add(7, 7 * (k - 1));
      assert 3 * k == 3 + 3 * (k - 1) && 7 * k == 7 + 7 * (k - 1);
      MulMono(Power(5, 3), Pow2(7), Power(5, 3 * (k - 1)));
      MulMono(Power(5, 3 * (k - 1)), Pow2(7 * (k - 1)), Pow2(7));
    }
  }

  lemma TableEntriesTen()
    ensures MaxExponent(10) == 309 && MinExponent(10) == -324
  {
  }

  lemma FiveSmall()
    ensures Power(5, 14) * Power(5, 14) >= Pow2(65) && Power(5, 1) >= Pow2(2) && Power(5, 16) >= Pow2(37)
  {
    Pow5TableCorrect(14);
    Pow5TableCorrect(16);
    Pow5TableCorrect(1);
    SmallPow2();
    Pow2Add(32, 5);
    Pow2Add(32, 32);
    Pow2Add(64, 1);
  }

  lemma {:induction false} FivesBeatTwos(k: nat)
    ensures Power(5, 28 * k) >= Pow2(65 * k)
  {
    hide Power, Pow2;
    ZeroShift();
    PowerOne(5);
    if k > 0 {
      FivesBeatTwos(k - 1);
      FiveSmall();
      PowerAdd(5, 14, 14);
      PowerAdd(5, 28, 28 * (k - 1));
      Pow2Add(65, 65 * (k - 1));
      assert 28 * k == 28 + 28 * (k - 1) && 65 * k == 65 + 65 * (k - 1);
      MulMono(Pow2(65), Power(5, 28), Pow2(65 * (k - 1)));
      MulMono(Pow2(65 * (k - 1)), Power(5, 28 * (k - 1)), Power(5, 28));
    }
  }

  lemma TenPower(m: nat, n: nat, x: nat, y: nat)
    requires Power(5, m) >= Pow2(x) && Power(5, n) >= Pow2(y)
    ensures Power(10, m + n) >= Pow2(m + n + (x + y))
  {
    hide Power, Pow2;
    PowerAdd(5, m, n);
    Pow2Add(x, y);
    MulMono(Pow2(x), Power(5, m), Pow2(y));
    MulMono(Pow2(y), Power(5, n), Power(5, m));
    PowerMul(5, 2, m + n);
    Pow2Is(m + n);
    Pow2Add(m + n, x + y);
    MulMono(Pow2(x + y), Power(5, m + n), Pow2(m + n));
  }

  // ----- the two kinds of radix

  /** A signed sum of 32 bits; what does not fit wraps around. */
  function Int32(x: int): (r: int)
    ensures -0x8000_0000 <= r < 0x8000_0000 && (-0x8000_0000 <= x < 0x8000_0000 ==> r == x)
  {
    (x + 0x8000_0000) % 0x1_0000_0000 - 0x8000_0000
  }

  predicate InInt32(x: int) {
    -0x8000_0000 <= x < 0x8000_0000
  }

  lemma Int32Sum(x: int, y: int)
    ensures Int32(Int32(x) + y) == Int32(x + y)
  {
    Int32Turns(x + y, Int32(x) + y, (x + 0x8000_0000) / 0x1_0000_0000);
  }

  lemma Int32Difference(x: int, y: int)
    ensures Int32(y - Int32(x)) == Int32(y - x)
  {
    Int32Turns(y - x, y - Int32(x), -((x + 0x8000_0000) / 0x1_0000_0000));
  }

  lemma Int32Turns(x: int, y: int, turns: int)
    requires x == y + turns * 0x1_0000_0000
    ensures Int32(x) == Int32(y)
  {
  }

  /** Far from the ends of the range nothing wraps around. */
  lemma Int32Small(x: int, y: int)
    requires InInt32(x) && 0 <= y <= 128
    ensures -2000 < Int32(x + y) < 2000 ==> Int32(x + y) == x + y
    ensures -2000 < x + y < 2000 ==> Int32(x + y) == x + y
  {
  }

  /** js_atod for a radix 2^bits: the digits, with what was dropped as a sticky bit, times 2^expn, where the
      exponent is the one that expn1 has been computed from. */
  method ConvertBinary(a: Mpb, bits: nat, expn: int, digitCount: nat, ghost n: nat, ghost d: nat) returns (r: nat)
    requires a.Valid() && a.Normal() && a.Val() > 0 && a.len + 3 <= a.tab.Length && 1 <= bits <= 5 && digitCount > 0
    requires InInt32(expn) && digitCount * bits <= 64
    requires d > 0 && a.Val() == Sticky(n, d) && (n % d != 0 ==> a.Val() >= Pow2(55))
    requires d * Pow2(bits * (digitCount - 1)) <= n < d * Pow2(bits * digitCount)
    modifies a, a.tab
    ensures var e := Int32(expn + digitCount * bits) - digitCount * bits;
            ScaledDen(d, -e) > 0 && Nearest(ScaledNum(n, -e), ScaledDen(d, -e), r)
  {
    hide Pow2, Sticky, Value, ScaledNum, ScaledDen, AtLeast, Nearest, Rounded;
    var expn1 := Int32(expn + digitCount * bits);
    ghost var expn0 := expn1 - digitCount * bits;
    assert bits * digitCount == digitCount * bits && bits * (digitCount - 1) == digitCount * bits - bits;
    BinarySize(n, d, expn0, digitCount * bits, bits);
    ghost var x, y := ScaledNum(n, -expn0), ScaledDen(d, -expn0);
    ghost var b := SomeBinade(x, y);
    if expn1 >= 1024 + bits {
      AtLeastDown(x, y, expn1 - bits, 1024);
      OverflowNearest(x, y, b);
      r := INFINITY;
    } else if expn1 <= -1075 {
      if AtLeast(x, y, -1075) { AtLeastDown(x, y, -1075, expn1); }
      UnderflowNearest(x, y, b);
      r := 0;
    } else {
      AtLeastDown(x, y, expn1 - bits, SMALLEST);
      var m, e := RoundToD(a, -expn, n, d);
      r := Assemble(m, e, x, y);
    }
  }

  lemma BinarySize(n: nat, d: nat, expn: int, k: nat, bits: nat)
    requires d > 0 && 0 < bits <= k && d * Pow2(k - bits) <= n < d * Pow2(k)
    ensures ScaledNum(n, -expn) > 0 && ScaledDen(d, -expn) > 0
    ensures AtLeast(ScaledNum(n, -expn), ScaledDen(d, -expn), expn + k - bits)
    ensures !AtLeast(ScaledNum(n, -expn), ScaledDen(d, -expn), expn + k)
  {
    hide Pow2, AtLeast;
    MulPositive(d, Pow2(k - bits));
    MulPositive(d, Pow2(Up(-expn)));
    MulPositive(n, Pow2(Up(expn)));
    AtLeastScaled(n, d, -expn, k - bits);
    AtLeastScaled(n, d, -expn, k);
  }

  /** mul_pow_round_to_d: the number in `a` times radix^f, as the nearest double. */
  method MulPowRoundToD(a: Mpb, radix1: nat, radixShift: nat, f: int) returns (m: nat, e: int)
    requires a.Valid() && a.Normal() && a.Val() > 0 && OddPart(radix1) && radix1 != 1
    requires ConvertRoom(a.len, radix1, f) <= a.tab.Length
    requires AtLeast(Num(a.Val(), 0, radix1 * Pow2(radixShift), f), Den(0, radix1 * Pow2(radixShift), f), SMALLEST)
    modifies a, a.tab
    ensures a.tab == old(a.tab)
    ensures var radix := radix1 * Pow2(radixShift);
            Den(0, radix, f) > 0 && Rounded(Num(old(a.Val()), 0, radix, f), Den(0, radix, f), m, e)
  {
    hide Pow2, Power, Sticky, Value, ScaledNum, ScaledDen, AtLeast, Rounded, Num, Den, Chunks, DigitsPerLimb;
    ghost var v, radix := a.Val(), radix1 * Pow2(radixShift);
    MulPositive(radix1, Pow2(radixShift));
    DenPositive(0, radix, f);
    ghost var s: nat;
    var eOffset: int;
    eOffset, s := MulPow(a, radix1, radixShift, f, false, 55);
    ghost var n, d := if f >= 0 then a.Val() else v * Pow2(s), if f >= 0 then 1 else Power(radix1, -f);
    ExactSticky(a.Val());
    ScaledSame(v, radix1, radixShift, f, s, n, d, eOffset);
    AtLeastRatio(Num(v, 0, radix, f), Den(0, radix, f), ScaledNum(n, eOffset), ScaledDen(d, eOffset), SMALLEST);
    m, e := RoundToD(a, eOffset, n, d);
    RoundedRatio(ScaledNum(n, eOffset), ScaledDen(d, eOffset), Num(v, 0, radix, f), Den(0, radix, f), m, e);
  }

  lemma ExactSticky(v: nat)
    ensures Sticky(v, 1) == v && v % 1 == 0
  {
  }

  function ConvertRoom(len: nat, radix1: nat, f: int): nat
    requires OddPart(radix1) && radix1 != 1
  {
    3 + if f >= 0 then len + Chunks(f, DigitsPerLimb(radix1)) else len + Chunks(-f, DigitsPerLimb(radix1)) + 3
  }

  /** What mul_pow leaves is the number that was asked for. */
  lemma ScaledSame(v: nat, radix1: nat, radixShift: nat, f: int, s: nat, n: nat, d: nat, eOffset: int)
    requires radix1 > 0
    requires f >= 0 ==> n == v * Power(radix1, f) && d == 1 && eOffset == -f * radixShift
    requires f < 0 ==> n == v * Pow2(s) && d == Power(radix1, -f) && eOffset == -f * radixShift + s
    ensures var radix := radix1 * Pow2(radixShift);
            ScaledNum(n, eOffset) * Den(0, radix, f) == Num(v, 0, radix, f) * ScaledDen(d, eOffset)
    ensures ScaledDen(d, eOffset) > 0
  {
    hide Pow2, Power;
    ZeroShift();
    PowerOne(radix1);
    var radix := radix1 * Pow2(radixShift);
    PowerOne(radix);
    MulPositive(radix1, Pow2(radixShift));
    if f >= 0 {
      RadixPower(radix1, radixShift, f);
      assert radixShift * f == f * radixShift && Up(f * radixShift) == f * radixShift && Up(-(f * radixShift)) == 0 by { NonNegative(f, radixShift); }
      MulAssoc(v, Power(radix1, f), Pow2(radixShift * f));
      assert Num(v, 0, radix, f) == v * Power(radix, f) && Den(0, radix, f) == 1;
      assert ScaledNum(n, eOffset) == n * Pow2(f * radixShift) && ScaledDen(d, eOffset) == 1;
    } else {
      RadixPower(radix1, radixShift, -f);
      PowerPositive(radix1, -f);
      MulPositive(d, Pow2(Up(eOffset)));
      assert radixShift * -f == -f * radixShift;
      NonNegative(-f, radixShift);
      Pow2Add(radixShift * -f, s);
      assert Num(v, 0, radix, f) == v && Den(0, radix, f) == d * Pow2(radixShift * -f);
      assert ScaledNum(n, eOffset) == v * Pow2(s) && ScaledDen(d, eOffset) == d * Pow2(eOffset);
      NegativeSame(v, d, Pow2(s), Pow2(radixShift * -f));
    }
  }

  lemma NegativeSame(v: nat, d: nat, s: nat, r: nat)
    ensures (v * s) * (d * r) == v * (d * (r * s))
  {
    MulAssoc(v, s, d * r);
    MulAssoc(s, d, r);
    MulAssoc(d, r, s);
    assert (s * d) * r == (d * r) * s;
  }

  /** `a` is the double nearest to v * radix^f. */
  ghost predicate NearestScaled(v: nat, radix: nat, f: int, a: nat) {
    Den(0, radix, f) > 0 && Nearest(Num(v, 0, radix, f), Den(0, radix, f), a)
  }

  lemma TooManyDigits(v: nat, radix: nat, f: int, k: nat)
    requires 2 <= radix <= JS_RADIX_MAX && TablesBound(radix) && k > 0 && v >= Power(radix, k - 1) && v > 0
    requires f + k >= MaxExponent(radix) + 1
    ensures NearestScaled(v, radix, f, INFINITY)
  {
    hide Power, Pow2, Num, Den, AtLeast, Nearest, Binade, TablesBound, MaxExponent;
    DecimalOverflow(v, radix, f, k);
    DenPositive(0, radix, f);
    NumPositive(v, radix, f);
    var b := SomeBinade(Num(v, 0, radix, f), Den(0, radix, f));
    OverflowNearest(Num(v, 0, radix, f), Den(0, radix, f), b);
  }

  lemma TooFewDigits(v: nat, radix: nat, f: int, k: nat)
    requires 2 <= radix <= JS_RADIX_MAX && TablesBound(radix) && v < Power(radix, k) && v > 0
    requires f + k <= MinExponent(radix)
    ensures NearestScaled(v, radix, f, 0)
  {
    hide Power, Pow2, Num, Den, AtLeast, Nearest, Binade, TablesBound, MinExponent;
    DecimalUnderflow(v, radix, f, k);
    DenPositive(0, radix, f);
    NumPositive(v, radix, f);
    var b := SomeBinade(Num(v, 0, radix, f), Den(0, radix, f));
    UnderflowNearest(Num(v, 0, radix, f), Den(0, radix, f), b);
  }

  /** `k` digits that have been collected, and room for what they will be multiplied or divided by. */
  predicate DecimalInput(v: nat, len: nat, room: nat, radix: nat, radix1: nat, radixShift: nat, expn: int, k: nat) {
    && v > 0 && OddPart(radix1) && radix1 != 1 && 0 < k <= 128 && InInt32(expn)
    && 2 <= radix <= JS_RADIX_MAX && radix == radix1 * Pow2(radixShift) && TablesBound(radix)
    && Power(radix, k - 1) <= v < Power(radix, k)
    && (MinExponent(radix) < expn + k <= MaxExponent(radix) ==> ConvertRoom(len, radix1, expn) <= room)
  }

  /** Which way js_atod goes, by the exponent of the first digit. */
  lemma DecimalWays(v: nat, len: nat, room: nat, radix: nat, radix1: nat, radixShift: nat, expn: int, k: nat)
    requires 2 <= radix <= JS_RADIX_MAX && DecimalInput(v, len, room, radix, radix1, radixShift, expn, k)
    ensures var expn1 := Int32(expn + k);
            && (expn1 >= MaxExponent(radix) + 1 ==> NearestScaled(v, radix, expn1 - k, INFINITY))
            && (expn1 <= MinExponent(radix) ==> NearestScaled(v, radix, expn1 - k, 0))
            && (MinExponent(radix) < expn1 <= MaxExponent(radix) ==>
                  && expn1 == expn + k && OddPart(radix1) && radix1 != 1 && radix == radix1 * Pow2(radixShift)
                  && ConvertRoom(len, radix1, expn) <= room && AtLeast(Num(v, 0, radix, expn), Den(0, radix, expn), SMALLEST))
  {
    hide *;
    var expn1 := Int32(expn + k);
    WayUp(v, len, room, radix, radix1, radixShift, expn, k, expn1 - k);
    WayDown(v, len, room, radix, radix1, radixShift, expn, k, expn1 - k);
    if MinExponent(radix) < expn1 <= MaxExponent(radix) {
      WayInside(v, len, room, radix, radix1, radixShift, expn, k);
    }
  }

  lemma WayUp(v: nat, len: nat, room: nat, radix: nat, radix1: nat, radixShift: nat, expn: int, k: nat, f: int)
    requires 2 <= radix <= JS_RADIX_MAX && DecimalInput(v, len, room, radix, radix1, radixShift, expn, k)
    ensures f + k >= MaxExponent(radix) + 1 ==> NearestScaled(v, radix, f, INFINITY)
  {
    hide Pow2, Power, MaxExponent, MinExponent, ConvertRoom, TablesBound, NearestScaled, OddPart;
    if f + k >= MaxExponent(radix) + 1 { TooManyDigits(v, radix, f, k); }
  }

  lemma WayDown(v: nat, len: nat, room: nat, radix: nat, radix1: nat, radixShift: nat, expn: int, k: nat, f: int)
    requires 2 <= radix <= JS_RADIX_MAX && DecimalInput(v, len, room, radix, radix1, radixShift, expn, k)
    ensures f + k <= MinExponent(radix) ==> NearestScaled(v, radix, f, 0)
  {
    hide Pow2, Power, MaxExponent, MinExponent, ConvertRoom, TablesBound, NearestScaled, OddPart;
    if f + k <= MinExponent(radix) { TooFewDigits(v, radix, f, k); }
  }

  lemma WayInside(v: nat, len: nat, room: nat, radix: nat, radix1: nat, radixShift: nat, expn: int, k: nat)
    requires 2 <= radix <= JS_RADIX_MAX && DecimalInput(v, len, room, radix, radix1, radixShift, expn, k)
    requires MinExponent(radix) < Int32(expn + k) <= MaxExponent(radix)
    ensures Int32(expn + k) == expn + k && OddPart(radix1) && radix1 != 1 && radix == radix1 * Pow2(radixShift)
    ensures ConvertRoom(len, radix1, expn) <= room && AtLeast(Num(v, 0, radix, expn), Den(0, radix, expn), SMALLEST)
  {
    hide Pow2, Power, MaxExponent, MinExponent, ConvertRoom, TablesBound, OddPart, Int32, AtLeast, Num, Den;
    Int32Small(expn, k);
    DecimalSmallest(v, radix, expn, k);
  }

  /** js_atod for a radix that is not a power of two. */
  method ConvertDecimal(a: Mpb, radix: nat, radix1: nat, radixShift: nat, expn: int, digitCount: nat) returns (r: nat)
    requires a.Valid() && a.Normal() && 2 <= radix <= JS_RADIX_MAX
    requires DecimalInput(a.Val(), a.len, a.tab.Length, radix, radix1, radixShift, expn, digitCount)
    modifies a, a.tab
    ensures NearestScaled(old(a.Val()), radix, Int32(expn + digitCount) - digitCount, r)
  {
    hide DecimalInput, NearestScaled, Int32, MaxExponent, MinExponent, Num, Den, AtLeast, ConvertRoom, Value, OddPart, Pow2;
    DecimalWays(a.Val(), a.len, a.tab.Length, radix, radix1, radixShift, expn, digitCount);
    var expn1 := Int32(expn + digitCount);
    if expn1 >= MaxExponent(radix) + 1 {
      r := INFINITY;
    } else if expn1 <= MinExponent(radix) {
      r := 0;
    } else {
      r := ConvertInside(a, radix, radix1, radixShift, expn, digitCount);
    }
  }

  /** Neither too large nor too small. */
  method ConvertInside(a: Mpb, radix: nat, radix1: nat, radixShift: nat, expn: int, ghost k: nat) returns (r: nat)
    requires a.Valid() && a.Normal() && DecimalInput(a.Val(), a.len, a.tab.Length, radix, radix1, radixShift, expn, k) && OddPart(radix1) && radix1 != 1 && radix == radix1 * Pow2(radixShift)
    requires ConvertRoom(a.len, radix1, expn) <= a.tab.Length && AtLeast(Num(a.Val(), 0, radix, expn), Den(0, radix, expn), SMALLEST)
    modifies a, a.tab
    ensures NearestScaled(old(a.Val()), radix, expn, r)
  {
    DecimalPositive(a.Val(), a.len, a.tab.Length, radix, radix1, radixShift, expn, k);
    hide Pow2, Power, Value, AtLeast, Nearest, Rounded, Num, Den, ConvertRoom, NearestScaled, DecimalInput;
    ghost var v := a.Val();
    var m, e := MulPowRoundToD(a, radix1, radixShift, expn);
    r := Assemble(m, e, Num(v, 0, radix, expn), Den(0, radix, expn));
    NearestScaledIs(v, radix, expn, r);
  }

  lemma DecimalPositive(v: nat, len: nat, room: nat, radix: nat, radix1: nat, radixShift: nat, expn: int, k: nat)
    requires DecimalInput(v, len, room, radix, radix1, radixShift, expn, k)
    ensures v > 0
  {
  }

  lemma NearestScaledIs(v: nat, radix: nat, f: int, a: nat)
    requires Den(0, radix, f) > 0 && Nearest(Num(v, 0, radix, f), Den(0, radix, f), a)
    ensures NearestScaled(v, radix, f, a)
  {
  }

  lemma NumPositive(v: nat, radix: nat, f: int)
    requires v > 0 && radix > 0
    ensures Num(v, 0, radix, f) > 0
  {
    ZeroShift();
    PowerPositive(radix, Up(f));
    MulPositive(v, Power(radix, Up(f)));
  }

  lemma NumDenZero(v: nat, radix: nat, f: int)
    ensures Num(v, 0, radix, f) == v * Power(radix, Up(f)) && Den(0, radix, f) == Power(radix, Up(-f))
  {
    ZeroShift();
    hide Power, Pow2;
  }

  /** The number is at least radix^(expn + k - 1). */
  lemma DecimalLow(v: nat, radix: nat, expn: int, k: nat, e: nat, shift: nat)
    requires radix > 0 && k > 0 && v >= Power(radix, k - 1) && e + Up(-expn) <= k - 1 + Up(expn) + shift
    ensures Num(v, 0, radix, expn) * Power(radix, shift) >= Power(radix, e) * Den(0, radix, expn)
  {
    hide Power, Pow2;
    NumDenZero(v, radix, expn);
    var u := Power(radix, Up(expn));
    MulMono(Power(radix, k - 1), v, u);
    MulMono(Power(radix, k - 1) * u, v * u, Power(radix, shift));
    PowerAdd(radix, k - 1, Up(expn));
    PowerAdd(radix, k - 1 + Up(expn), shift);
    PowerAdd(radix, e, Up(-expn));
    PowerMonotone(radix, e + Up(-expn), k - 1 + Up(expn) + shift);
  }

  lemma DecimalOverflow(v: nat, radix: nat, expn: int, k: nat)
    requires 2 <= radix <= JS_RADIX_MAX && TablesBound(radix) && k > 0 && v >= Power(radix, k - 1)
    requires expn + k >= MaxExponent(radix) + 1
    ensures AtLeast(Num(v, 0, radix, expn), Den(0, radix, expn), 1024)
  {
    hide Power, Pow2, MaxExponent, MinExponent, Num, Den;
    ZeroShift();
    PowerOne(radix);
    DecimalLow(v, radix, expn, k, MaxExponent(radix), 0);
    MulMono(Pow2(1024), Power(radix, MaxExponent(radix)), Den(0, radix, expn));
  }

  lemma DecimalSmallest(v: nat, radix: nat, expn: int, k: nat)
    requires 2 <= radix <= JS_RADIX_MAX && TablesBound(radix) && k > 0 && v >= Power(radix, k - 1)
    requires expn + k > MinExponent(radix)
    ensures AtLeast(Num(v, 0, radix, expn), Den(0, radix, expn), SMALLEST)
  {
    hide Power, Pow2, MaxExponent, MinExponent, Num, Den;
    ZeroShift();
    PowerOne(radix);
    DecimalLow(v, radix, expn, k, 0, -MinExponent(radix));
    MulMono(Power(radix, -MinExponent(radix)), Pow2(1085), Num(v, 0, radix, expn));
  }

  lemma DecimalUnderflow(v: nat, radix: nat, expn: int, k: nat)
    requires 2 <= radix <= JS_RADIX_MAX && TablesBound(radix) && v < Power(radix, k)
    requires expn + k <= MinExponent(radix)
    ensures !AtLeast(Num(v, 0, radix, expn), Den(0, radix, expn), -1075)
  {
    var s := -MinExponent(radix);
    hide *;
    UnderflowBound(radix);
    ProductBelow(radix, k, s, -expn);
    NumDenSmall(v, radix, expn);
    DecimalUnderflowParts(v, Power(radix, k), Power(radix, s), Power(radix, -expn));
  }

  lemma UnderflowBound(radix: nat)
    requires 2 <= radix <= JS_RADIX_MAX && TablesBound(radix)
    ensures Pow2(1075) <= Power(radix, -MinExponent(radix))
  {
    hide Power, Pow2, MinExponent;
  }

  lemma ProductBelow(radix: nat, k: nat, s: nat, n: nat)
    requires radix > 0 && k + s <= n
    ensures Power(radix, k) * Power(radix, s) <= Power(radix, n)
  {
    hide Power;
    PowerAdd(radix, k, s);
    PowerMonotone(radix, k + s, n);
  }

  lemma NumDenSmall(v: nat, radix: nat, f: int)
    requires f <= 0
    ensures Num(v, 0, radix, f) == v && Den(0, radix, f) == Power(radix, -f)
  {
    hide Power;
    NumDenZero(v, radix, f);
    PowerOne(radix);
  }

  lemma DecimalUnderflowParts(v: nat, p: nat, q: nat, d: nat)
    requires v < p && Pow2(1075) <= q && p * q <= d
    ensures !AtLeast(v, d, -1075)
  {
    ZeroShift();
    hide Pow2;
    Smaller(v, p, q, Pow2(1075), d);
  }

  lemma Smaller(v: nat, p: nat, q: nat, c: nat, d: nat)
    requires v < p && 0 < c <= q && p * q <= d
    ensures v * c < d
  {
    MulMono(c, q, v);
    MulMono(v + 1, p, q);
    Distribute(v, 1, q);
  }

  lemma NearestRatio(n: nat, d: nat, n': nat, d': nat, a: nat)
    requires d > 0 && d' > 0 && n * d' == n' * d && Nearest(n, d, a)
    ensures Nearest(n', d', a)
  {
    hide AtLeast, InUnits, SameNumber, Pow2, TooLarge, Decode;
    var b :| Binade(n, d, b) && NearestIn(n, d, b, a);
    AtLeastRatio(n, d, n', d', b);
    AtLeastRatio(n, d, n', d', b - 1);
    InUnitsRatio(n, d, n', d', Quantum(b));
    assert Binade(n', d', b) && NearestIn(n', d', b, a);
  }
}
