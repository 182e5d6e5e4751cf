/** js_dtoa and js_atod together: what is written in free format is read as the same double. */
module RoundTrip {
  import opened Limbs
  import opened Rounding
  import opened Bignum
  import opened Scaling
  import opened Ratios
  import opened Doubles
  import opened Atod
  import opened Numerals
  import opened Dtoa
  import opened Printing
  import opened Wrapping
  import opened Layout
  import opened Writer
  import opened Grammar
  import Scanner

  // ----- texts of digits

  lemma WrittenVals(v: nat, n: nat)
    ensures DigitText(Written(v, n)) && DigitSeq(Written(v, n)) == DigitsOf(v, n)
  {
    hide DigitsOf;
    var s, d := Written(v, n), DigitsOf(v, n);
    assert forall k :: 0 <= k < n ==> s[k] == '0' + d[k] as char;
  }

  lemma ZerosVals(n: nat)
    ensures DigitText(Zeros(n)) && DigitsValue(DigitSeq(Zeros(n)), 10) == 0
  {
    DigitsZero(DigitSeq(Zeros(n)), 10);
  }

  lemma ValsPart(a: string, i: nat, j: nat)
    requires DigitText(a) && i <= j <= |a|
    ensures DigitText(a[i..j]) && DigitSeq(a[i..j]) == DigitSeq(a)[i..j]
  {
  }

  lemma EmptyVals()
    ensures DigitText("") && DigitSeq("") == [] && ValueOf("") == 0
  {
  }

  lemma DecimalVals(x: nat)
    ensures DigitText(DecimalText(x)) && |DecimalText(x)| >= 1 && ValueOf(DecimalText(x)) == x
  {
    LenBounds(x);
    hide Power, Written, DigitsOf, ValueOf, DigitSeq;
    WrittenVals(x, Len(x));
    DigitsOfValue(x, Len(x));
    ValueIs(Written(x, Len(x)));
  }

  // ----- the numeral that is written

  /** The numeral denotes v * 10^k, and none of its digits is dropped. */
  ghost predicate Means(n: Numeral, v: nat, k: int) {
    && WellFormed(n)
    && (exists z: nat :: DigitsValue(AllDigitsOf(n), 10) == v * Power(10, z) && Exponent(n) - |n.fp| + z == k)
    && Exact(AllDigitsOf(n), 10, LeadingZeros(AllDigitsOf(n)))
    && |AllDigitsOf(n)| <= 10000 && -10000 <= Exponent(n) <= 10000
  }

  lemma MeansIs(n: Numeral, v: nat, k: int, z: nat)
    requires WellFormed(n) && DigitsValue(AllDigitsOf(n), 10) == v * Power(10, z) && Exponent(n) - |n.fp| + z == k
    requires Exact(AllDigitsOf(n), 10, LeadingZeros(AllDigitsOf(n))) && |AllDigitsOf(n)| <= 10000 && -10000 <= Exponent(n) <= 10000
    ensures Means(n, v, k)
  {
    hide DigitsValue, AllDigitsOf, Exact, LeadingZeros, Power, WellFormed, Exponent;
  }

  /** Up to 38 digits, or more if the others are zero. */
  lemma ShortExact(d: seq<nat>, n: nat)
    requires n + 38 >= |d| && n <= LeadingZeros(d)
    ensures Exact(d, 10, LeadingZeros(d))
  {
    MaxDigitsEntries();
    hide MaxDigits, LeadingZeros;
  }

  lemma PlainValue(v: nat, p: nat)
    requires v < Power(10, p)
    ensures DigitText(Written(v, p)) && |Written(v, p)| == p && DigitsValue(DigitSeq(Written(v, p)), 10) == v
  {
    hide Power, Written, DigitsOf;
    WrittenVals(v, p);
    DigitsOfValue(v, p);
  }

  /** Digits with a point among them. */
  lemma SplitNumeral(v: nat, p: nat, dot: nat, mark: string, sign: string, xs: string) returns (n: Numeral)
    requires 0 < dot <= p <= 38 && v < Power(10, p) && DigitText(xs) && ValueOf(xs) <= 10000
    requires if mark == "" then sign == "" && xs == "" else mark == "e" && IsSign(sign) && xs != ""
    ensures n.mark == mark && n.sign == sign && n.xs == xs && Mantissa(n) == WithDot(Written(v, p), dot)
    ensures Means(n, v, (if sign == "-" then 0 - ValueOf(xs) else ValueOf(xs)) - (p - dot))
  {
    hide Power, Written, DigitSeq, DigitText, DigitsValue, LeadingZeros, Exact, ValueOf;
    PlainValue(v, p);
    var t := Written(v, p);
    ValsPart(t, 0, dot);
    ValsPart(t, dot, p);
    assert t[0..dot] == t[..dot] && t[dot..p] == t[dot..];
    n := Numeral(t[..dot], dot < p, t[dot..], mark, sign, xs);
    PointBetween(t, dot);
    var d := DigitSeq(t);
    assert d[0..dot] + d[dot..p] == d;
    ShortExact(d, 0);
    PowerOne(10);
    MeansIs(n, v, Exponent(n) - (p - dot), 0);
  }

  lemma PointBetween(t: string, dot: nat)
    requires dot <= |t|
    ensures t[..dot] + (if dot < |t| then "." + t[dot..] else "") == WithDot(t, dot)
  {
    if dot == |t| { assert t[..dot] + "" == t; } else { assert t[..dot] + ("." + t[dot..]) == t[..dot] + "." + t[dot..]; }
  }

  /** 0.000ddd */
  lemma SmallNumeral(v: nat, p: nat, zeros: nat) returns (n: Numeral)
    requires 0 < p <= 38 && v < Power(10, p) && zeros <= 9000
    ensures Text(n) == "0." + Zeros(zeros) + Written(v, p) && Means(n, v, -(zeros as int) - p)
  {
    hide Power, Written, DigitSeq, DigitText, DigitsValue, LeadingZeros, Exact, Zeros;
    PlainValue(v, p);
    ZerosVals(zeros);
    ZerosVals(1);
    var t, z := Written(v, p), Zeros(zeros);
    DigitsJoin(z, t);
    OneZero();
    EmptyVals();
    n := Numeral("0", true, z + t, "", "", "");
    assert Text(n) == "0." + z + t;
    var d0, dz, dt := DigitSeq("0"), DigitSeq(z), DigitSeq(t);
    assert AllDigitsOf(n) == (d0 + dz) + dt;
    DigitsConcat(d0, dz, 10);
    DigitsConcat(d0 + dz, dt, 10);
    Times0(Power(10, |dz|));
    Times0(Power(10, |dt|));
    ZerosInFront(d0 + dz, dt);
    ShortExact((d0 + dz) + dt, 1 + zeros);
    PowerOne(10);
    MeansIs(n, v, -(zeros as int) - p, 0);
  }

  lemma OneZero()
    ensures Zeros(1) == "0"
  {
  }

  lemma ZerosInFront(z: seq<nat>, d: seq<nat>)
    requires Digits(z, 10) && DigitsValue(z, 10) == 0
    ensures LeadingZeros(z + d) >= |z|
  {
    hide DigitsValue;
    DigitsZero(z, 10);
    LeadingAtLeast(z + d, |z|);
  }

  lemma {:induction false} LeadingAtLeast(d: seq<nat>, n: nat)
    requires n <= |d| && forall k :: 0 <= k < n ==> d[k] == 0
    ensures LeadingZeros(d) >= n
    decreases n
  {
    if n > 0 { LeadingAtLeast(d[1..], n - 1); }
  }

  /** ddd000 */
  lemma LargeNumeral(v: nat, p: nat, zeros: nat) returns (n: Numeral)
    requires 0 < p <= 38 && v < Power(10, p) && zeros <= 9000
    ensures Text(n) == Written(v, p) + Zeros(zeros) && Means(n, v, zeros)
  {
    hide Power, Written, DigitSeq, DigitText, DigitsValue, LeadingZeros, Exact, Zeros;
    PlainValue(v, p);
    ZerosVals(zeros);
    var t, z := Written(v, p), Zeros(zeros);
    DigitsJoin(t, z);
    EmptyVals();
    n := Numeral(t + z, false, "", "", "", "");
    assert Text(n) == t + z;
    var dt, dz := DigitSeq(t), DigitSeq(z);
    assert AllDigitsOf(n) == dt + dz;
    DigitsConcat(dt, dz, 10);
    ZerosExact(dt, dz);
    MeansIs(n, v, zeros, zeros);
  }

  lemma ZerosExact(d: seq<nat>, z: seq<nat>)
    requires |d| <= 38 && Digits(z, 10) && DigitsValue(z, 10) == 0
    ensures Exact(d + z, 10, LeadingZeros(d + z))
  {
    MaxDigitsEntries();
    hide DigitsValue, MaxDigits, LeadingZeros;
    DigitsZero(z, 10);
  }

  /** What js_dtoa writes is a numeral of the number it is asked to write. */
  lemma NumberMeans(v: nat, p: nat, exp: int, mode: ExpMode, expMax: int) returns (n: Numeral)
    requires 0 < p <= 38 && v < Power(10, p) && -999 <= exp <= 999
    ensures Text(n) == NumberText(v, p, exp, mode, expMax) && Means(n, v, exp - p)
  {
    hide Power, Scientific, Positional, Means, Text;
    if UsesExponent(mode, exp, expMax) {
      n := ScientificMeans(v, p, exp);
    } else {
      n := PositionalMeans(v, p, exp);
    }
  }

  lemma ScientificMeans(v: nat, p: nat, exp: int) returns (n: Numeral)
    requires 0 < p <= 38 && v < Power(10, p) && -999 <= exp <= 999
    ensures Text(n) == Scientific(v, p, exp) && Means(n, v, exp - p)
  {
    hide Power, Written, WithDot, Means, DecimalText;
    var x: nat, sign := if exp - 1 < 0 then 1 - exp else exp - 1, if exp - 1 < 0 then "-" else "+";
    DecimalVals(x);
    n := SplitNumeral(v, p, 1, "e", sign, DecimalText(x));
    Joined2(WithDot(Written(v, p), 1) + "e", sign, DecimalText(x));
    Joined2(WithDot(Written(v, p), 1), "e", sign + DecimalText(x));
  }

  lemma PositionalMeans(v: nat, p: nat, exp: int) returns (n: Numeral)
    requires 0 < p <= 38 && v < Power(10, p) && -999 <= exp <= 999
    ensures Text(n) == Positional(v, p, exp) && Means(n, v, exp - p)
  {
    hide Power, Written, Zeros, WithDot, Means, DecimalText;
    if exp <= 0 {
      n := SmallNumeral(v, p, -exp);
    } else if p <= exp {
      n := LargeNumeral(v, p, exp - p);
      WithDotWhole(Written(v, p));
    } else {
      EmptyVals();
      n := SplitNumeral(v, p, exp, "", "", "");
      NoZeros();
    }
  }

  lemma NoZeros()
    ensures Zeros(0) == ""
  {
  }

  // ----- reading it

  lemma ScaledTens(v: nat, z: nat, f: int, a: nat)
    ensures NearestScaled(v * Power(10, z), 10, f, a) <==> NearestScaled(v, 10, f + z, a)
  {
    hide Power, Num, Den, Nearest;
    var w := v * Power(10, z);
    DenPositive(0, 10, f);
    DenPositive(0, 10, f + z);
    DecimalSame(w, v, z, f + z, f);
    if NearestScaled(w, 10, f, a) { NearestRatio(Num(w, 0, 10, f), Den(0, 10, f), Num(v, 0, 10, f + z), Den(0, 10, f + z), a); }
    if NearestScaled(v, 10, f + z, a) { NearestRatio(Num(v, 0, 10, f + z), Den(0, 10, f + z), Num(w, 0, 10, f), Den(0, 10, f), a); }
  }

  /** What a numeral is read as is the double nearest to what it means. */
  lemma MeaningRead(neg: bool, n: Numeral, v: nat, k: int, r: Scanner.Double) returns (a: nat)
    requires Means(n, v, k) && Grammar.ReadAs(n, neg, r)
    ensures r == Scanner.Bits(Signed(neg, a)) && (v == 0 ==> a == 0) && (v > 0 ==> NearestScaled(v, 10, k, a))
  {
    hide *;
    MeansWellFormed(n, v, k);
    var z := MeansParts(n, v, k);
    a := DigitsRead(neg, n, r);
    ValuePositive(v, z);
    ScaledTens(v, z, Exponent(n) - |n.fp|, a);
  }

  lemma MeansParts(n: Numeral, v: nat, k: int) returns (z: nat)
    requires Means(n, v, k)
    ensures var d := AllDigitsOf(n);
            && DigitsValue(d, 10) == v * Power(10, z) && Exponent(n) - |n.fp| + z == k
            && |d| <= 10000 && -10000 <= Exponent(n) <= 10000 && JS_RADIX_MAX == 36 && Exact(d, 10, LeadingZeros(d))
  {
    hide Power, DigitsValue, AllDigitsOf, LeadingZeros, Exact, WellFormed;
    z :| DigitsValue(AllDigitsOf(n), 10) == v * Power(10, z) && Exponent(n) - |n.fp| + z == k;
  }

  lemma ValuePositive(v: nat, z: nat)
    ensures v == 0 ==> v * Power(10, z) == 0
    ensures v > 0 ==> v * Power(10, z) > 0
  {
    hide Power;
    PowerPositive(10, z);
    if v > 0 { MulPositive(v, Power(10, z)); }
  }

  lemma DigitsRead(neg: bool, n: Numeral, r: Scanner.Double) returns (a: nat)
    requires WellFormed(n) && |AllDigitsOf(n)| <= 10000 && -10000 <= Exponent(n) <= 10000 && Exact(AllDigitsOf(n), 10, LeadingZeros(AllDigitsOf(n)))
    requires Grammar.ReadAs(n, neg, r)
    ensures r == Scanner.Bits(Signed(neg, a)) && (DigitsValue(AllDigitsOf(n), 10) == 0 ==> a == 0)
    ensures DigitsValue(AllDigitsOf(n), 10) > 0 ==> NearestScaled(DigitsValue(AllDigitsOf(n), 10), 10, Exponent(n) - |n.fp|, a)
  {
    hide DigitsValue, LeadingZeros, Exact, NearestNumeral, NearestScaled, ValueOf, Exponent, WellFormed, Shift;
    var d := AllDigitsOf(n);
    ValueOfDigits(n);
    if DigitsValue(d, 10) == 0 { return 0; }
    a :| r.pattern == Signed(neg, a) && NearestNumeral(Kept(d, 10, LeadingZeros(d)), 10, |n.fp|, Exponent(n), false, Shift(10, FirstPlace(n), Exponent(n), false), a);
    NoShift(FirstPlace(n), Exponent(n));
    NumeralScaled(d, |n.fp|, Exponent(n), 0, a);
  }

  /** Reading a numeral, when the text has been read. */
  lemma ReadMeans(s: string, neg: bool, n: Numeral, v: nat, k: int, r: Scanner.Double, next: nat) returns (a: nat)
    requires s == SignText(neg) + Text(n) && Means(n, v, k) && forall c :: Fits(s, c) ==> Reads(c, r, next)
    ensures r == Scanner.Bits(Signed(neg, a)) && (v == 0 ==> a == 0) && (v > 0 ==> NearestScaled(v, 10, k, a)) && next == |s|
  {
    hide Text, Means, NearestScaled, Grammar.ReadAs, Stops, Reads, Fits;
    MeansWellFormed(n, v, k);
    NothingBehind(s, neg, n);
    ReadsNumber(SignText(neg), n, r, next);
    a := MeaningRead(neg, n, v, k, r);
  }

  lemma NothingBehind(s: string, neg: bool, n: Numeral)
    requires s == SignText(neg) + Text(n) && WellFormed(n)
    ensures Fits(s, Number(SignText(neg), n, "")) && (SignText(neg) == "-" <==> neg)
  {
    hide Text;
    assert s == SignText(neg) + Text(n) + "";
  }

  lemma ReadsNumber(sign: string, n: Numeral, r: Scanner.Double, next: nat)
    requires Reads(Number(sign, n, ""), r, next)
    ensures WellFormed(n) && Grammar.ReadAs(n, sign == "-", r) && next == |sign| + |Text(n)|
  {
    hide Grammar.ReadAs;
  }

  lemma MeansWellFormed(n: Numeral, v: nat, k: int)
    requires Means(n, v, k)
    ensures WellFormed(n) && |n.fp| <= |AllDigitsOf(n)| == |n.ip| + |n.fp|
  {
    hide DigitsValue, Exact, LeadingZeros, Power;
  }

  // ----- the round trip

  /** The text of a positive double, with a sign. */
  lemma FreeNumeral(m: nat, e: int, mant: nat, p: nat, exp: int, mode: ExpMode, t: string) returns (n: Numeral)
    requires Double(m, e) && FreeResult(m, e, mant, p, exp, mode, t)
    ensures t == Text(n) && Means(n, mant, exp - p) && mant > 0
  {
    DoubleFits(m, e);
    Exp0Is(e);
    hide Double, Power, ReadsBack, Settled, Mant, Exp0, FloorLog, NumberText, Text, Means, TextRoom;
    PowerPositive(10, p - 1);
    n := NumberMeans(mant, p, exp, mode, DTOA_MAX_DIGITS + 4);
  }

  /** Reading the shortest digits is reading the double. */
  lemma FreeRead(x: nat, mant: nat, p: nat, exp: int, mode: ExpMode, t: string, a: nat)
    requires 0 < x < INFINITY
    requires var (m, e) := Unpack(x); FreeResult(m, e, mant, p, exp, mode, t)
    requires NearestScaled(mant, 10, exp - p, a)
    ensures a == x
  {
    hide Double, Power, Settled, Mant, Exp0, FloorLog, NumberText, TextRoom, Bits, Nearest, Num, Den, Unpack;
    var (m, e) := Unpack(x);
    ShortestReads(m, e, Exp0(e), mant, p, exp);
    ReadsBackBits(mant, exp - p, m, e, a);
  }

  /** `t` is read as `r`, up to `next`. */
  ghost predicate IsReading(t: string, r: Scanner.Double, next: nat) {
    forall c :: Fits(t, c) ==> Reads(c, r, next)
  }

  lemma ReadZero(t: string, neg: bool, mode: ExpMode, r: Scanner.Double, next: nat)
    requires t == SignText(neg) + NumberText(0, 1, 1, mode, DTOA_MAX_DIGITS + 4) && IsReading(t, r, next)
    ensures r == Scanner.Bits(Signed(neg, 0)) && next == |t|
  {
    PowerOne(10);
    hide NumberText, Text, Means, NearestScaled, Reads, Fits, Power;
    var n := NumberMeans(0, 1, 1, mode, DTOA_MAX_DIGITS + 4);
    var a := ReadMeans(t, neg, n, 0, 0, r, next);
  }

  lemma ReadFinite(t: string, neg: bool, y: nat, mode: ExpMode, mant: nat, pp: nat, exp: int, r: Scanner.Double, next: nat)
    requires 0 < y < INFINITY && SignText(neg) <= t && IsReading(t, r, next)
    requires var (m, e) := Unpack(y); FreeResult(m, e, mant, pp, exp, mode, t[|SignText(neg)|..])
    ensures r == Scanner.Bits(Signed(neg, y)) && next == |t|
  {
    hide *;
    var body := t[|SignText(neg)|..];
    var (m, e) := Unpack(y);
    var n := FreeNumeral(m, e, mant, pp, exp, mode, body);
    assert t == SignText(neg) + body;
    IsReadingIs(t, r, next);
    var a := ReadMeans(t, neg, n, mant, exp - pp, r, next);
    FreeRead(y, mant, pp, exp, mode, body, a);
  }

  lemma IsReadingIs(t: string, r: Scanner.Double, next: nat)
    requires IsReading(t, r, next)
    ensures forall c :: Fits(t, c) ==> Reads(c, r, next)
  {
    hide Fits, Reads;
  }

  lemma ReadInfinity(t: string, neg: bool, r: Scanner.Double, next: nat)
    requires t == SignText(neg) + "Infinity" && IsReading(t, r, next)
    ensures r == Scanner.Bits(Signed(neg, INFINITE)) && next == |t|
  {
    var c := Infinite(SignText(neg), "");
    assert t == SignText(neg) + "Infinity" + "";
    assert Fits(t, c);
    assert Reads(c, r, next);
  }

  lemma ReadNaN(r: Scanner.Double, next: nat)
    requires IsReading("NaN", r, next)
    ensures r.NaN?
  {
    var c := Nothing("", "NaN");
    assert "" + "NaN" == "NaN";
    assert Fits("NaN", c);
    assert Reads(c, r, next);
  }

  lemma ReadOutput(t: string, bits: nat, mode: ExpMode, mant: nat, pp: nat, exp: int, r: Scanner.Double, next: nat)
    requires bits < TWO64 && Output(bits, 0, Free, mode, true, t, mant, pp, exp) && IsReading(t, r, next)
    ensures bits % SIGN_BIT > INFINITY ==> r.NaN?
    ensures bits % SIGN_BIT <= INFINITY ==> r == Scanner.Bits(bits) && next == |t|
  {
    hide IsReading, NumberText, FreeResult, Unpack;
    var neg, y := bits >= SIGN_BIT, bits % SIGN_BIT;
    assert bits == Signed(neg, y);
    if y > INFINITY {
      ReadNaN(r, next);
    } else if y == INFINITY {
      ReadInfinity(t, neg, r, next);
    } else if y == 0 {
      ReadZero(t, neg, mode, r, next);
    } else {
      ReadFinite(t, neg, y, mode, mant, pp, exp, r, next);
    }
  }

  /** Every double that is written in free format, with the sign of -0, is read as itself; NaN is read as NaN. */
  method PrintAndRead(bits: nat, mode: ExpMode) returns (r: Scanner.Double, next: nat, len: nat)
    requires bits < 0x1_0000_0000_0000_0000
    ensures bits % 0x8000_0000_0000_0000 > 0x7ff0_0000_0000_0000 ==> r.NaN?
    ensures bits % 0x8000_0000_0000_0000 <= 0x7ff0_0000_0000_0000 ==> r == Scanner.Bits(bits) && next == len
  {
    hide Output, MaxLen, Missing, Pow2, Fits, Reads, IsReading;
    BufferSize(bits, mode);
    var buf := new char[MaxLen(bits, 0, Free, mode) + 1];
    ghost var mant: nat, pp: nat, exp: int;
    len, mant, pp, exp := JsDtoa(buf, bits, 0, Free, mode, true);
    r, next := ReadText(buf[..len]);
    Reading(buf[..len], r, next);
    ReadOutput(buf[..len], bits, mode, mant, pp, exp, r, next);
  }

  lemma Reading(t: string, r: Scanner.Double, next: nat)
    requires forall c :: Fits(t, c) ==> Reads(c, r, next)
    ensures IsReading(t, r, next)
  {
    hide Fits, Reads;
  }

  lemma BufferSize(bits: nat, mode: ExpMode)
    requires bits < TWO64
    ensures MaxLen(bits, 0, Free, mode) < 10000 && Missing(bits, 0, Free, mode, true) == 0
  {
    Pow52();
    hide Pow2;
    DivMod(bits % SIGN_BIT, Pow2(52));
  }
}
