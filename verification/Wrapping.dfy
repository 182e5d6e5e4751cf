/** Where js_atod leaves the range of int: for which numerals of radix 10 the result is the right one. */
module Wrapping {
  import opened Limbs
  import opened Rounding
  import opened Bignum
  import opened Scaling
  import opened Ratios
  import opened Doubles
  import opened Atod
  import opened Numerals
  import opened Dtoa
  import opened Printing

  // ----- the nearest double is a function

  lemma NearestUnique(n: nat, d: nat, a: nat, a': nat)
    requires d > 0 && Nearest(n, d, a) && Nearest(n, d, a')
    ensures a == a'
  {
    hide AtLeast, InUnits, SameNumber, TooLarge, Decode;
    var b :| Binade(n, d, b) && NearestIn(n, d, b, a);
    var c :| Binade(n, d, c) && NearestIn(n, d, c, a');
    BinadeUnique(n, d, b, c);
    var t, q := InUnits(n, d, Quantum(b)), Quantum(b);
    if !TooLarge(t, q) {
      DecodeUnique(a, a', t, q);
    }
  }

  lemma AtLeastUnits(n: nat, d: nat, q: int)
    requires d > 0 && AtLeast(n, d, q)
    ensures InUnits(n, d, q) >= 1
  {
    hide Pow2, RoundDiv;
    InUnitsPositive(d, q);
    RoundBounds(n * Pow2(Up(-q)), d * Pow2(Up(q)), 1, NearestEven);
  }

  lemma ZeroOnlyZero(t: nat, q: int)
    requires SameNumber(Decode(0).0, Decode(0).1, t, q)
    ensures t == 0
  {
    Pow52();
    hide Pow2;
    DivideIs(0, Pow2(52), 0, 0);
    MulPositiveIf(t, Pow2(Up(q + 1074)));
  }

  // ----- the numbers that are read as zero and as infinity

  /** Up to half the smallest double. */
  predicate ReadAsZero(n: nat, d: nat) {
    n * Pow2(1075) <= d
  }

  /** From the middle between the largest double and 2^1024. */
  predicate ReadAsInfinity(n: nat, d: nat) {
    n >= (Pow2(54) - 1) * Pow2(970) * d
  }

  lemma ZeroExactly(n: nat, d: nat, a: nat)
    requires d > 0 && Nearest(n, d, a)
    ensures a == 0 <==> ReadAsZero(n, d)
  {
    hide Decode, Pow2, SameNumber, AtLeast, TooLarge, InUnits, ReadAsZero;
    var b :| Binade(n, d, b) && NearestIn(n, d, b, a);
    var q := Quantum(b);
    var t := InUnits(n, d, q);
    NoUnits(n, d, b);
    if a == 0 && !TooLarge(t, q) {
      ZeroOnlyZero(t, q);
    } else if t == 0 {
      ZeroPattern(t, q);
      DecodeUnique(a, 0, t, q);
    }
  }

  lemma NoUnits(n: nat, d: nat, b: int)
    requires d > 0 && Binade(n, d, b)
    ensures InUnits(n, d, Quantum(b)) == 0 <==> ReadAsZero(n, d)
  {
    ZeroShift();
    HalfPower(1075);
    hide Pow2, RoundDiv, AtLeast;
    if b < E_MIN {
      assert n * Pow2(1075) == 2 * (n * Pow2(1074));
      HalfRounds(n * Pow2(1074), d);
    } else {
      AtLeastDown(n, d, b - 1, Quantum(b));
      AtLeastUnits(n, d, Quantum(b));
      AtLeastDown(n, d, b - 1, -1022);
      NotHalf(n, d);
    }
  }

  lemma HalfRounds(n: nat, d: nat)
    requires d > 0
    ensures RoundDiv(n, d, NearestEven) == 0 <==> 2 * n <= d
  {
    hide RoundDiv;
    DivMod(n, d);
    RoundBy(n, d, n / d, n % d, NearestEven);
    var q, r := n / d, n % d;
    if q >= 1 { MulMono(1, q, d); } else { Times0(d); }
  }

  lemma NotHalf(n: nat, d: nat)
    requires d > 0 && AtLeast(n, d, -1022)
    ensures !ReadAsZero(n, d)
  {
    ZeroShift();
    HalfPower(1);
    Pow2Monotone(1, 53);
    Pow2Add(1022, 53);
    hide Pow2;
    MulAssoc(n, Pow2(1022), Pow2(53));
    MulMono(2, Pow2(53), n * Pow2(1022));
  }

  lemma InfinityExactly(n: nat, d: nat, a: nat)
    requires d > 0 && Nearest(n, d, a)
    ensures a == INFINITY <==> ReadAsInfinity(n, d)
  {
    hide Decode, Pow2, SameNumber, AtLeast, TooLarge, InUnits, ReadAsInfinity;
    var b :| Binade(n, d, b) && NearestIn(n, d, b, a);
    if b > 1024 {
      AtLeastDown(n, d, b - 1, 1024);
      OverflowNearest(n, d, b);
      NearestUnique(n, d, a, INFINITY);
      FarAbove(n, d);
    } else if b == 1024 {
      LastBinade(n, d);
    } else {
      if AtLeast(n, d, 1023) { AtLeastDown(n, d, 1023, b); }
      FarBelow(n, d, Quantum(b));
    }
  }

  lemma FarAbove(n: nat, d: nat)
    requires AtLeast(n, d, 1024)
    ensures ReadAsInfinity(n, d)
  {
    ZeroShift();
    Pow2Add(54, 970);
    hide Pow2;
    MulMono((Pow2(54) - 1) * Pow2(970), Pow2(1024), d);
    MulMono(Pow2(54) - 1, Pow2(54), Pow2(970));
  }

  lemma FarBelow(n: nat, d: nat, q: int)
    requires d > 0 && !AtLeast(n, d, 1023) && q <= 970
    ensures !TooLarge(InUnits(n, d, q), q) && !ReadAsInfinity(n, d)
  {
    ZeroShift();
    hide Pow2, RoundDiv, TooLarge;
    UnitsBelow(n, d, q);
    LargeAt(InUnits(n, d, q), q, q);
    HalfPower(1024 - q);
    Pow2Monotone(0, 1023 - q);
    HalfPower(54);
    Pow2Monotone(0, 53);
    Pow2Add(53, 970);
    MulMono(Pow2(53), Pow2(54) - 1, Pow2(970));
    MulMono(Pow2(1023), (Pow2(54) - 1) * Pow2(970), d);
  }

  lemma UnitsBelow(n: nat, d: nat, q: int)
    requires d > 0 && !AtLeast(n, d, 1023) && q <= 970
    ensures InUnits(n, d, q) <= Pow2(1023 - q)
  {
    ZeroShift();
    hide Pow2, RoundDiv;
    InUnitsPositive(d, q);
    Pow2Add(1023 - q, Up(q));
    Pow2Add(1023, Up(-q));
    MulAssoc(d, Pow2(1023), Pow2(Up(-q)));
    MulAssoc(Pow2(1023 - q), d, Pow2(Up(q)));
    assert Pow2(1023 - q) * (d * Pow2(Up(q))) == d * (Pow2(1023 - q) * Pow2(Up(q))) by { MulAssoc(d, Pow2(1023 - q), Pow2(Up(q))); }
    ScaleOrder(n, d * Pow2(1023), Pow2(Up(-q)));
    RoundBounds(n * Pow2(Up(-q)), d * Pow2(Up(q)), Pow2(1023 - q), NearestEven);
  }

  /** In the last binade the tie is rounded up, to an even number of units. */
  lemma LastBinade(n: nat, d: nat)
    requires d > 0
    ensures TooLarge(InUnits(n, d, 971), 971) <==> ReadAsInfinity(n, d)
  {
    ZeroShift();
    HalfPower(971);
    HalfPower(54);
    HalfPower(53);
    Pow2Monotone(0, 53);
    hide Pow2, RoundDiv, TooLarge;
    InUnitsPositive(d, 971);
    var u := d * Pow2(971);
    LargeAt(InUnits(n, d, 971), 971, 971);
    EvenAtLeast(n, u, Pow2(52));
    assert u == 2 * (d * Pow2(970));
    assert (Pow2(54) - 1) * Pow2(970) * d == (Pow2(54) - 1) * (d * Pow2(970)) by { MulAssoc(Pow2(54) - 1, Pow2(970), d); }
    Distribute(Pow2(54), -1, d * Pow2(970));
    assert 2 * Pow2(53) * u == 2 * (Pow2(54) * (d * Pow2(970))) by { MulAssoc(Pow2(54), 2, d * Pow2(970)); }
  }

  lemma EvenAtLeast(n: nat, d: nat, t: nat)
    requires d > 0
    ensures RoundDiv(n, d, NearestEven) >= 2 * t <==> 2 * n + d >= 2 * (2 * t) * d
  {
    hide RoundDiv;
    DivMod(n, d);
    RoundBy(n, d, n / d, n % d, NearestEven);
    EvenParts(n, d, t, n / d, n % d);
  }

  lemma EvenParts(n: nat, d: nat, t: nat, q: nat, r: nat)
    requires d > 0 && n == q * d + r && r < d
    ensures RoundParts(q, r, d, NearestEven) >= 2 * t <==> 2 * n + d >= 2 * (2 * t) * d
  {
    assert 2 * (2 * t) * d == 2 * (2 * t * d);
    Distribute(q, 1, d);
    if 2 * t <= q {
      MulMono(2 * t, q, d);
    } else if 2 * t > q + 1 {
      MulMono(q + 2, 2 * t, d);
      Distribute(q, 2, d);
    }
  }

  /** A number below 1 is not read as infinity, and one that is not below 1 not as zero. */
  lemma AroundOne(n: nat, d: nat, a: nat)
    requires d > 0 && Nearest(n, d, a)
    ensures n < d ==> a != INFINITY
    ensures n >= d ==> a != 0
  {
    HalfPower(54);
    HalfPower(1075);
    Pow2Monotone(0, 53);
    Pow2Monotone(0, 970);
    Pow2Monotone(0, 1074);
    ZeroShift();
    hide Pow2, Nearest;
    ZeroExactly(n, d, a);
    InfinityExactly(n, d, a);
    MulMono(1, Pow2(54) - 1, Pow2(970));
    MulMono(1, (Pow2(54) - 1) * Pow2(970), d);
    MulMono(2, Pow2(1075), n);
  }

  // ----- numerals of radix 10

  /** v * 10^f with the first of k digits at 10^(f + k - 1). */
  lemma LeadingBelowOne(v: nat, f: int, k: nat, a: nat)
    requires v < Power(10, k) && f + k <= 0 && NearestScaled(v, 10, f, a)
    ensures a != INFINITY
  {
    hide Power, Num, Den, Nearest;
    NumDenSmall(v, 10, f);
    PowerMonotone(10, k, -f);
    AroundOne(Num(v, 0, 10, f), Den(0, 10, f), a);
  }

  lemma LeadingFromOne(v: nat, f: int, k: nat, a: nat)
    requires k > 0 && v >= Power(10, k - 1) && f + k >= 1 && NearestScaled(v, 10, f, a)
    ensures a != 0
  {
    PowerOne(10);
    hide Power, Num, Den, Nearest;
    DecimalLow(v, 10, f, k, 0, 0);
    AroundOne(Num(v, 0, 10, f), Den(0, 10, f), a);
  }

  lemma ScaledUnique(v: nat, f: int, a: nat, a': nat)
    requires NearestScaled(v, 10, f, a) && NearestScaled(v, 10, f, a')
    ensures a == a'
  {
    hide Num, Den, Nearest;
    NearestUnique(Num(v, 0, 10, f), Den(0, 10, f), a, a');
  }

  /** An exponent that has wrapped around once leads to another double. */
  lemma WrappedIsWrong(v: nat, f: int, f': int, k: nat, a: nat)
    requires k > 0 && Power(10, k - 1) <= v < Power(10, k) && v > 0 && NearestScaled(v, 10, f', a)
    requires (f + k >= 310 && f' + k <= 0) || (f + k <= -324 && f' + k >= 1)
    ensures !NearestScaled(v, 10, f, a)
    ensures f + k >= 310 ==> NearestScaled(v, 10, f, INFINITY)
    ensures f + k <= -324 ==> NearestScaled(v, 10, f, 0)
  {
    TablesBoundTen();
    TableEntriesTen();
    hide Power, NearestScaled, TablesBound, MaxExponent, MinExponent;
    if f + k >= 310 {
      TooManyDigits(v, 10, f, k);
      LeadingBelowOne(v, f', k, a);
      if NearestScaled(v, 10, f, a) { ScaledUnique(v, f, a, INFINITY); }
    } else {
      TooFewDigits(v, 10, f, k);
      LeadingFromOne(v, f', k, a);
      if NearestScaled(v, 10, f, a) { ScaledUnique(v, f, a, 0); }
    }
  }

  lemma {:induction false} LeadingZerosAre(digits: seq<nat>)
    ensures var n := LeadingZeros(digits); (forall k :: 0 <= k < n ==> digits[k] == 0) && (n < |digits| ==> digits[n] != 0)
  {
    if digits != [] && digits[0] == 0 {
      LeadingZerosAre(digits[1..]);
      var n := LeadingZeros(digits[1..]);
      forall k | 0 <= k < n + 1 ensures digits[k] == 0 { if k > 0 { assert digits[1..][k - 1] == 0; } }
    }
  }

  lemma NumeralScaled(digits: seq<nat>, fraction: nat, expn: int, shift: int, a: nat)
    ensures NearestNumeral(digits, 10, fraction, expn, false, shift, a) <==> NearestScaled(DigitsValue(digits, 10), 10, expn - fraction + shift, a)
  {
    hide Num, Den, Nearest, DigitsValue;
    DenPositive(0, 10, expn - fraction + shift);
    NumeralIs(digits, 10, fraction, expn, false, shift, 0, expn - fraction + shift, a);
  }

  /** What js_atod returns is right exactly if the exponent of the first significant digit fits an int. */
  lemma RightIfFits(digits: seq<nat>, fraction: nat, expn: int, a: nat)
    requires Digits(digits, 10) && DigitsValue(digits, 10) > 0 && fraction <= |digits| < 0x8000_0000 && InInt32(expn)
    requires var before := |digits| - LeadingZeros(digits) - fraction; NearestNumeral(digits, 10, fraction, expn, false, Shift(10, before, expn, false), a)
    ensures var before := |digits| - LeadingZeros(digits) - fraction;
            NearestNumeral(digits, 10, fraction, expn, false, 0, a) <==> InInt32(Lead(10, before, expn, false))
  {
    hide Power, NearestNumeral, NearestScaled, DigitsValue, LeadingZeros, Digits;
    var k := |digits| - LeadingZeros(digits);
    var lead := Lead(10, k - fraction, expn, false);
    var shift := Shift(10, k - fraction, expn, false);
    SignificantPart(digits, 10);
    NumeralScaled(digits, fraction, expn, 0, a);
    NumeralScaled(digits, fraction, expn, shift, a);
    WrapOutside(lead);
    assert lead == (expn - fraction) + k;
    if !InInt32(lead) {
      WrappedIsWrong(DigitsValue(digits, 10), expn - fraction, expn - fraction + shift, k, a);
    }
  }

  lemma WrapOutside(x: int)
    requires -0x1_0000_0000 < x < 0x1_0000_0000
    ensures InInt32(x) ==> Int32(x) == x
    ensures x >= 0x8000_0000 ==> Int32(x) <= 0
    ensures x < -0x8000_0000 ==> Int32(x) >= 1
  {
  }

  /** 0.0000000000000000000001e-2147483639 is read as infinity. */
  lemma TinyReadAsInfinity(a: nat)
    requires var digits := seq(22, _ => 0) + [1];
             NearestNumeral(digits, 10, 22, -2147483639, false, Shift(10, |digits| - LeadingZeros(digits) - 22, -2147483639, false), a)
    ensures a == INFINITY && NearestNumeral(seq(22, _ => 0) + [1], 10, 22, -2147483639, false, 0, 0)
  {
    hide *;
    var digits: seq<nat> := seq(22, _ => 0) + [1];
    OneAfterZeros(22);
    ShiftOfOne();
    NumeralScaled(digits, 22, -2147483639, 0, 0);
    NumeralScaled(digits, 22, -2147483639, 0x1_0000_0000, a);
    OneShifted(-2147483661, 2147483635, a);
  }

  lemma OneShifted(f: int, f': int, a: nat)
    requires f + 1 <= -324 && f' + 1 >= 310 && NearestScaled(1, 10, f', a)
    ensures a == INFINITY && NearestScaled(1, 10, f, 0)
  {
    TablesBoundTen();
    TableEntriesTen();
    PowerOne(10);
    hide Power, NearestScaled, TablesBound, MaxExponent, MinExponent;
    TooFewDigits(1, 10, f, 1);
    TooManyDigits(1, 10, f', 1);
    ScaledUnique(1, f', a, INFINITY);
  }

  lemma ShiftOfOne()
    ensures Shift(10, -21, -2147483639, false) == 0x1_0000_0000
  {
  }

  lemma OneAfterZeros(n: nat)
    ensures var digits: seq<nat> := seq(n, _ => 0) + [1]; |digits| == n + 1 && LeadingZeros(digits) == n && DigitsValue(digits, 10) == 1
  {
    hide DigitsValue, LeadingZeros;
    var digits: seq<nat> := seq(n, _ => 0) + [1];
    LeadingZerosIs(digits, n);
    SignificantValue(digits, n, 10);
    assert digits[n..] == [1];
    OneDigit();
  }

  lemma OneDigit()
    ensures DigitsValue([1], 10) == 1
  {
    assert [1][..0] == [];
  }

  // ----- radices that are powers of two

  /** The size of a numeral, by the exponent of its first digit. */
  lemma BinaryLead(v: nat, radix: nat, k: nat, e2: int, x: int)
    requires Supported(radix) && radix != 10 && k > 0 && Power(radix, k - 1) <= v < Power(radix, k)
    ensures var bits, lead := RadixBits(radix), e2 + RadixBits(radix) * (x + k);
            && Den(e2, radix, x) > 0 && Num(v, e2, radix, x) > 0 && 0 < bits <= 5
            && AtLeast(Num(v, e2, radix, x), Den(e2, radix, x), lead - bits) && !AtLeast(Num(v, e2, radix, x), Den(e2, radix, x), lead)
  {
    TablesSupported(radix);
    hide Power, Pow2, Num, Den, AtLeast, ScaledNum, ScaledDen, RadixBits, Supported, MaxDigits, DigitsPerLimb, RadixBase;
    var bits := RadixBits(radix);
    var e := e2 + bits * x;
    var n, d, n1, d1 := Num(v, e2, radix, x), Den(e2, radix, x), ScaledNum(v, -e), ScaledDen(1, -e);
    PowerOne(radix);
    DenPositive(e2, radix, x);
    BinaryRange(radix, bits, k, v, 1, v, 0);
    assert bits * (k - 1) == bits * k - bits && bits * (x + k) == bits * x + bits * k;
    MulMono(1, k, bits);
    BinarySize(v, 1, e, bits * k, bits);
    BinarySame(v, radix, bits, 0, e, e2, x);
    AtLeastRatio(n1, d1, n, d, e + bits * k);
    AtLeastRatio(n1, d1, n, d, e + bits * k - bits);
    RatioPositive(n1, d1, n, d);
  }

  lemma RatioPositive(n: nat, d: nat, n': nat, d': nat)
    requires n > 0 && d' > 0 && n * d' == n' * d
    ensures n' > 0
  {
    MulPositive(n, d');
  }

  /** Whether the numeral with its exponent shifted is read as infinity, or as zero. */
  predicate ShiftedOut(digits: seq<nat>, radix: nat, fraction: int, expn: int, isBinExp: bool, shift: int, infinite: bool) {
    var e2, x := (if isBinExp then expn else 0) + shift, (if isBinExp then 0 else expn) - fraction;
    var n, d := Num(DigitsValue(digits, radix), e2, radix, x), Den(e2, radix, x);
    if infinite then ReadAsInfinity(n, d) else ReadAsZero(n, d)
  }

  /** For these radices too the result is right if the exponent of the first digit fits an int; if not, it is
      right exactly if the number with the wrapped exponent is out of the range of doubles on the same side. */
  lemma BinaryRight(digits: seq<nat>, radix: nat, fraction: int, expn: int, isBinExp: bool, a: nat)
    requires Supported(radix) && radix != 10 && Digits(digits, radix) && DigitsValue(digits, radix) > 0 && fraction <= |digits|
    requires var before := |digits| - LeadingZeros(digits) - fraction;
             NearestNumeral(digits, radix, fraction, expn, isBinExp, Shift(radix, before, expn, isBinExp), a)
    ensures var before := |digits| - LeadingZeros(digits) - fraction;
            var lead := Lead(radix, before, expn, isBinExp);
            NearestNumeral(digits, radix, fraction, expn, isBinExp, 0, a)
            <==> InInt32(lead) || ShiftedOut(digits, radix, fraction, expn, isBinExp, Shift(radix, before, expn, isBinExp), lead > 0)
  {
    hide Power, DigitsValue, LeadingZeros, RadixBits, Supported, NearestNumeral, Num, Den, AtLeast, Nearest, Int32, ReadAsZero, ReadAsInfinity;
    var k := |digits| - LeadingZeros(digits);
    var bits := RadixBits(radix);
    RadixIsPower(radix);
    SignificantPart(digits, radix);
    var lead, shift := Lead(radix, k - fraction, expn, isBinExp), Shift(radix, k - fraction, expn, isBinExp);
    var e2, x := if isBinExp then expn else 0, (if isBinExp then 0 else expn) - fraction;
    LeadSplit(bits, k, fraction, expn, isBinExp);
    BinaryLead(DigitsValue(digits, radix), radix, k, e2, x);
    NumeralIs(digits, radix, fraction, expn, isBinExp, 0, e2, x, a);
    FarAway(Num(DigitsValue(digits, radix), e2, radix, x), Den(e2, radix, x), lead, bits, a);
    Int32Same(lead);
    LimitExactly(digits, radix, fraction, expn, isBinExp, shift, a);
  }

  lemma LimitExactly(digits: seq<nat>, radix: nat, fraction: int, expn: int, isBinExp: bool, shift: int, a: nat)
    requires radix > 0 && radix != 10 && NearestNumeral(digits, radix, fraction, expn, isBinExp, shift, a)
    ensures a == INFINITY <==> ShiftedOut(digits, radix, fraction, expn, isBinExp, shift, true)
    ensures a == 0 <==> ShiftedOut(digits, radix, fraction, expn, isBinExp, shift, false)
  {
    hide DigitsValue, NearestNumeral, Num, Den, Nearest, ReadAsZero, ReadAsInfinity;
    var e2, x := (if isBinExp then expn else 0) + shift, (if isBinExp then 0 else expn) - fraction;
    DenPositive(e2, radix, x);
    NumeralIs(digits, radix, fraction, expn, isBinExp, shift, e2, x, a);
    ZeroExactly(Num(DigitsValue(digits, radix), e2, radix, x), Den(e2, radix, x), a);
    InfinityExactly(Num(DigitsValue(digits, radix), e2, radix, x), Den(e2, radix, x), a);
  }

  lemma Int32Same(x: int)
    ensures InInt32(x) ==> Int32(x) == x
  {
  }

  lemma LeadSplit(bits: nat, k: nat, fraction: int, expn: int, isBinExp: bool)
    ensures var e2, x := if isBinExp then expn else 0, (if isBinExp then 0 else expn) - fraction;
            (if isBinExp then expn else expn * bits) + (k - fraction) * bits == e2 + bits * (x + k)
  {
  }

  lemma SignificantPart(digits: seq<nat>, radix: nat)
    requires Digits(digits, radix) && DigitsValue(digits, radix) > 0 && radix > 0
    ensures var k := |digits| - LeadingZeros(digits); k > 0 && Power(radix, k - 1) <= DigitsValue(digits, radix) < Power(radix, k)
  {
    hide Power, DigitsValue;
    var n := LeadingZeros(digits);
    LeadingZerosAre(digits);
    SignificantValue(digits, n, radix);
    DigitsZero(digits, radix);
    DigitsBound(digits[n..], radix);
    DigitsLeading(digits[n..], radix);
  }

  lemma FarAway(n: nat, d: nat, lead: int, bits: nat, a: nat)
    requires n > 0 && d > 0 && bits <= 5 && AtLeast(n, d, lead - bits) && !AtLeast(n, d, lead)
    ensures lead >= 1029 ==> (Nearest(n, d, a) <==> a == INFINITY)
    ensures lead <= -1075 ==> (Nearest(n, d, a) <==> a == 0)
  {
    hide AtLeast, Nearest;
    var b := SomeBinade(n, d);
    if lead >= 1029 {
      AtLeastDown(n, d, lead - bits, 1024);
      OverflowNearest(n, d, b);
      if Nearest(n, d, a) { NearestUnique(n, d, a, INFINITY); }
    } else if lead <= -1075 {
      if AtLeast(n, d, -1075) { AtLeastDown(n, d, -1075, lead); }
      UnderflowNearest(n, d, b);
      if Nearest(n, d, a) { NearestUnique(n, d, a, 0); }
    }
  }
}
