/** js_dtoa in radix 10: a bit pattern becomes a text in a buffer. */
module Writer {
  import opened Limbs
  import opened Rounding
  import opened Bignum
  import opened Scaling
  import opened Ratios
  import opened Doubles
  import opened Atod
  import opened Numerals
  import opened Dtoa
  import opened Printing
  import opened Logs
  import opened Formats
  import opened Layout
  import opened FastPath
  import opened Subnormals

  datatype Format = Free | Fixed | Frac

  // ----- taking a pattern apart

  function Clz64(v: nat): int
    requires 0 < v < TWO64
  {
    63 - Log2(v)
  }

  /** The aligned mantissa and the exponent of a finite pattern other than zero; a subnormal number is
      converted to a normal one. */
  function Unpack(a: nat): (r: (nat, int))
    requires 0 < a < INFINITY
    ensures Double(r.0, r.1) && Bits(r.0, r.1) == a
  {
    UnpackIs(a);
    var f, ef := a % Pow2(52), a / Pow2(52);
    if ef == 0 then
      var l := Clz64(f) - 11;
      (f * Pow2(l), 0 - (l - 1) - 1022)
    else (Pow2(52) + f, ef - 1022)
  }

  lemma UnpackIs(a: nat)
    requires 0 < a < INFINITY
    ensures a / Pow2(52) == 0 ==> 0 < a % Pow2(52) < TWO64 && 0 <= Clz64(a % Pow2(52)) - 11
    ensures var f, ef := a % Pow2(52), a / Pow2(52);
            var l := if ef == 0 then Clz64(f) - 11 else 0;
            var m, e := if ef == 0 then f * Pow2(l) else Pow2(52) + f, if ef == 0 then 0 - (l - 1) - 1022 else ef - 1022;
            Double(m, e) && Bits(m, e) == a
  {
    Pow52();
    SixteenDigits();
    DivMod(a, Pow2(52));
    var f, ef := a % Pow2(52), a / Pow2(52);
    hide Pow2;
    if ef == 0 {
      SubnormalUnpacked(f);
    } else {
      NormalUnpacked(a, f, ef);
    }
  }

  lemma SubnormalUnpacked(f: nat)
    requires 0 < f < Pow2(52)
    ensures f < TWO64 && Clz64(f) - 11 >= 0
    ensures var l := Clz64(f) - 11; Double(f * Pow2(l), -1021 - l) && Bits(f * Pow2(l), -1021 - l) == f
  {
    SixteenDigits();
    hide Pow2;
    var k := Log2(f);
    Pow2Order(k, 52);
    if k >= 52 { Pow2Monotone(52, k); }
    var l := 52 - k;
    Pow2Add(k, l);
    Pow2Add(k + 1, l);
    MulMono(Pow2(k), f, Pow2(l));
    Pow2Monotone(0, l);
    ZeroShift();
    ScaleOrder(f, Pow2(k + 1), Pow2(l));
    DivideIs(f * Pow2(l), Pow2(l), f, 0);
  }

  lemma NormalUnpacked(a: nat, f: nat, ef: nat)
    requires f < Pow2(52) && ef > 0 && a == ef * Pow2(52) + f && a < INFINITY
    ensures Double(Pow2(52) + f, ef - 1022) && Bits(Pow2(52) + f, ef - 1022) == a
  {
    Pow52();
    HalfPower(53);
    hide Pow2;
    DivideIs(Pow2(52) + f, Pow2(52), 1, f);
  }

  // ----- small integers

  /** More digits in front of nine. */
  lemma NineMore(n: nat)
    requires n >= 1000000000
    ensures DecimalText(n) == DecimalText(n / 1000000000) + Written(n % 1000000000, 9)
  {
    TenNine();
    hide Written, Power;
    var h := n / 1000000000;
    var k := Len(h);
    LenBounds(h);
    PowerAdd(10, 9, k);
    PowerAdd(10, 9, k - 1);
    DivMod(n, 1000000000);
    NineLength(n, h, n % 1000000000, Power(10, k), Power(10, k - 1));
    LenIs(n, k + 9);
    WrittenSplit(n, k + 9, 9);
  }

  lemma NineLength(n: nat, h: nat, r: nat, p: nat, p0: nat)
    requires n == h * 1000000000 + r && r < 1000000000 && p0 <= h < p
    ensures 1000000000 * p0 <= n < 1000000000 * p
  {
  }

  /** u64toa: at most 20 digits. */
  method U64ToA(buf: array<char>, q: nat, n0: nat) returns (q': nat)
    requires n0 < TWO64 && q + Len(n0) <= buf.Length
    modifies buf
    ensures q' == q + Len(n0) && buf[..q'] == old(buf[..q]) + DecimalText(n0)
  {
    hide DecimalText, Len;
    WrittenLength(n0);
    if n0 < BASE {
      q' := U32ToA(buf, q, n0);
    } else {
      var n1 := n0 / 1000000000;
      NineMore(n0);
      WrittenLength(n1);
      if n1 >= BASE {
        q' := PutHigh(buf, q, n1);
      } else {
        q' := U32ToA(buf, q, n1);
      }
      q' := PutNine(buf, q', n0 % 1000000000, DecimalText(n1));
    }
  }

  /** The case of more than two parts. */
  method PutHigh(buf: array<char>, q: nat, n1: nat) returns (q': nat)
    requires 1000000000 <= n1 < 100000000000 && q + Len(n1) <= buf.Length
    modifies buf
    ensures q' == q + Len(n1) && buf[..q'] == old(buf[..q]) + DecimalText(n1)
  {
    hide DecimalText, Len;
    WrittenLength(n1);
    var n2 := n1 / 1000000000;
    NineMore(n1);
    WrittenLength(n2);
    TwoDigits(n2);
    if n2 >= 10 {
      q' := PutText(buf, q, [DigitChar(n2 / 10)]);
      q' := PutText(buf, q', [DigitChar(n2 % 10)]);
      assert [DigitChar(n2 / 10), DigitChar(n2 % 10)] == [DigitChar(n2 / 10)] + [DigitChar(n2 % 10)];
    } else {
      q' := PutText(buf, q, [DigitChar(n2)]);
    }
    q' := PutNine(buf, q', n1 % 1000000000, DecimalText(n2));
  }

  lemma WrittenLength(n: nat)
    ensures |DecimalText(n)| == Len(n)
  {
  }

  lemma TwoDigits(n: nat)
    requires 0 < n < 100
    ensures DecimalText(n) == if n >= 10 then [DigitChar(n / 10), DigitChar(n % 10)] else [DigitChar(n)]
  {
    WrittenNext(n, 0);
    WrittenNext(n, 1);
    WrittenNext(n / 10, 0);
    WrittenNone(n / 10);
    WrittenNone(n / 10 / 10);
    hide Written;
    if n < 10 {
      assert Written(n, 1) == [DigitChar(n)];
    } else {
      assert Len(n) == 2 && n / 10 % 10 == n / 10;
      assert Written(n / 10, 1) == [DigitChar(n / 10)];
    }
  }

  /** Nine digits behind what has been written. */
  method PutNine(buf: array<char>, q: nat, n: nat, ghost t: string) returns (q': nat)
    requires q + 9 <= buf.Length && |t| <= q
    modifies buf
    ensures q' == q + 9 && buf[..q'] == old(buf[..q]) + Written(n, 9)
    ensures forall front :: old(buf[..q]) == front + t ==> buf[..q'] == front + (t + Written(n, 9))
  {
    hide Written, Patched;
    U32ToALen(buf, q, n, 9);
    PatchedParts(old(buf[..]), q, Written(n, 9));
    q' := q + 9;
    forall front | old(buf[..q]) == front + t ensures buf[..q'] == front + (t + Written(n, 9)) {
      Joined2(front, t, Written(n, 9));
    }
  }

  // ----- digits behind the point

  /** `v` in units of its n-th digit behind the point, without useless zeros in front. */
  function FracText(v: nat, n: nat): string {
    PowerPositive(10, n);
    DecimalText(v / Power(10, n)) + if n == 0 then "" else "." + Written(v % Power(10, n), n)
  }

  /** A zero in front of another digit is removed. */
  function Trim(t: string): (r: string)
    requires t != ""
    ensures |r| <= |t|
  {
    if t[0] == '0' && |t| >= 2 && t[1] != '.' then t[1..] else t
  }

  /** With a digit to spare in front of the point there is at most one zero to remove. */
  lemma FracDigits(v: nat, before: nat, n: nat)
    requires before >= 1 && v < Power(10, before + n) && (before >= 2 ==> v >= Power(10, before - 2 + n))
    ensures var t := WithDot(Written(v, before + n), before);
            |t| >= 1 && FracText(v, n) == Trim(t)
  {
    hide Power, Written, Trim, WithDot;
    PowerPositive(10, n);
    WrittenSplit(v, before + n, n);
    PowerAdd(10, before, n);
    if before >= 2 { PowerAdd(10, before - 2, n); }
    var i, f := v / Power(10, n), v % Power(10, n);
    QuotientRange(v, Power(10, n), Power(10, before), if before >= 2 then Power(10, before - 2) else 0);
    LeadingDigit(i, before);
    WrittenNone(f);
    TrimFront(Written(i, before), Written(f, n), DecimalText(i));
  }

  /** What is removed is removed from the part in front of the point. */
  lemma TrimFront(t: string, fs: string, d: string)
    requires |t| >= 1 && (|t| == 1 || t[0] != '0' ==> d == t) && (|t| >= 2 && t[0] == '0' ==> d == t[1..] && t[1] != '.')
    ensures WithDot(t + fs, |t|) != "" && Trim(WithDot(t + fs, |t|)) == d + if fs == "" then "" else "." + fs
  {
    assert (t + fs)[..|t|] == t && (t + fs)[|t|..] == fs;
    if fs == "" { assert t + fs == t; }
  }

  lemma QuotientRange(v: nat, p: nat, high: nat, low: nat)
    requires p > 0 && v < high * p && low * p <= v
    ensures low <= v / p < high
  {
    DivMod(v, p);
    var q := v / p;
    if q >= high { MulMono(high, q, p); }
    if q < low { MulMono(q + 1, low, p); Distribute(q, 1, p); }
  }

  /** The digits in front of the point, as they are and without a zero. */
  lemma LeadingDigit(i: nat, before: nat)
    requires before >= 1 && i < Power(10, before) && (before >= 2 ==> i >= Power(10, before - 2))
    ensures |Written(i, before)| == before
    ensures before == 1 || Written(i, before)[0] != '0' ==> DecimalText(i) == Written(i, before)
    ensures before >= 2 && Written(i, before)[0] == '0' ==> DecimalText(i) == Written(i, before)[1..] && Written(i, before)[1] != '.'
  {
    PowerOne(10);
    hide Power, Written;
    FirstDigit(i, before - 1);
    if before == 1 {
      LenIs(i, 1);
    } else if i >= Power(10, before - 1) {
      LenIs(i, before);
    } else {
      if before == 2 { LenIs(i, 1); } else { LenIs(i, before - 1); }
      DigitsNoPoint(i, before - 1);
    }
  }

  lemma DigitsNoPoint(v: nat, n: nat)
    ensures forall k :: 0 <= k < n ==> '0' <= Written(v, n)[k] <= '9'
  {
  }

  /** memmove by one to the left. */
  method MoveLeft(buf: array<char>, q: nat, len: nat)
    requires q + len + 1 <= buf.Length
    modifies buf
    ensures buf[..q + len] == old(buf[..q]) + old(buf[q + 1..q + 1 + len])
  {
    var i := 0;
    while i < len
      invariant 0 <= i <= len && buf[..q + i] == old(buf[..q]) + old(buf[q + 1..q + 1 + i])
      invariant buf[q + i + 1..] == old(buf[q + i + 1..])
    {
      assert buf[q + i + 1] == buf[q + i + 1..][0] == old(buf[q + i + 1]);
      ghost var rest := buf[q + i + 1..];
      buf[q + i] := buf[q + i + 1];
      i := i + 1;
      assert buf[q + i + 1..] == rest[1..];
      assert buf[..q + i] == buf[..q + i - 1] + [buf[q + i - 1]];
    }
  }

  lemma Slices(s: string, q: nat, n: nat)
    requires n >= 1 && q + n <= |s|
    ensures s[..q + n] == s[..q] + s[q..q + n] && s[q..q + n][1..] == s[q + 1..q + n]
    ensures s[q..q + n][0] == s[q] && (n >= 2 ==> s[q..q + n][1] == s[q + 1])
  {
  }

  method DropZero(buf: array<char>, q: nat, len0: nat) returns (len: nat)
    requires len0 >= 1 && q + len0 <= buf.Length
    modifies buf
    ensures len == |Trim(old(buf[q..q + len0]))| && buf[..q + len] == old(buf[..q]) + Trim(old(buf[q..q + len0]))
  {
    Slices(buf[..], q, len0);
    ghost var s := buf[..];
    assert buf[q..q + len0] == s[q..q + len0] && buf[..q] == s[..q] && buf[..q + len0] == s[..q + len0];
    len := len0;
    if buf[q] == '0' && len >= 2 && buf[q + 1] != '.' {
      len := len - 1;
      MoveLeft(buf, q, len);
    }
  }

  /** js_dtoa, fractional format, from the digits on. */
  method PutFrac(buf: array<char>, q: nat, tmp1: Mpb, before: nat, n: nat) returns (q': nat)
    requires before >= 1 && tmp1.Valid() && q + before + n + 1 <= buf.Length
    requires tmp1.Val() < Power(10, before + n) && (before >= 2 ==> tmp1.Val() >= Power(10, before - 2 + n))
    modifies buf, tmp1, tmp1.tab
    ensures q' == q + |FracText(old(tmp1.Val()), n)| && q' <= q + before + n + 1
    ensures buf[..q'] == old(buf[..q]) + FracText(old(tmp1.Val()), n)
  {
    hide Value, Written, Power, WithDot, FracText, Trim;
    ghost var v, front := tmp1.Val(), buf[..q];
    ghost var t := WithDot(Written(v, before + n), before);
    FracDigits(v, before, n);
    WithDotLength(Written(v, before + n), before);
    var len := OutputDigits(buf, q, tmp1, before + n, before);
    TailOf(buf[..q + len], front, t);
    assert buf[q..q + len] == t && buf[..q] == front;
    len := DropZero(buf, q, len);
    q' := q + len;
  }

  lemma TailOf(s: string, a: string, t: string)
    requires s == a + t
    ensures s[..|a|] == a && s[|a|..] == t
  {
  }

  // ----- the three formats

  function ExpMax(fmt: Format, nDigits: nat): int {
    if fmt.Fixed? then nDigits else DTOA_MAX_DIGITS + 4
  }

  function Abs(x: int): nat {
    if x < 0 then -x else x
  }

  /** The first estimate of the decimal exponent. */
  function Exp0(e: int): int {
    1 + MulLog2Ten(e - 1)
  }

  lemma Exp0Is(e: int)
    requires -1073 <= e <= 1024
    ensures FloorLog(e - 1, Exp0(e) - 1) && -323 <= Exp0(e) <= 308
  {
    MulLog2TenIsFloor(e - 1);
    hide FloorLog;
  }

  /** The length of up to `n` digits in a notation; without exponents it depends on the number. */
  function TextRoom(n: nat, mode: ExpMode, e: int): nat {
    if mode.Disabled? then n + 1 + Abs(MulLog2Ten(e - 1)) else n + 7
  }

  lemma RoomSuffices(v: nat, p: nat, exp: int, n: nat, mode: ExpMode, expMax: int, e: int)
    requires 1 <= p <= n && -1073 <= e <= 1024 && (exp == Exp0(e) || exp == Exp0(e) + 1) && (expMax == 21 || expMax == n) && (expMax == 21 ==> n >= 17)
    ensures |NumberText(v, p, exp, mode, expMax)| <= TextRoom(n, mode, e) && -BASE < exp - 1 < BASE
  {
    Exp0Is(e);
    hide FloorLog, NumberText;
    NumberLength(v, p, exp, mode, expMax);
  }

  /** The same for the digits found in free format: those of a subnormal number end early. */
  function FreeSpace(mode: ExpMode, e: int): nat {
    if mode.Disabled? && e < E_MIN then 327 else TextRoom(DTOA_MAX_DIGITS, mode, e)
  }

  lemma Exp0Subnormal(e: int)
    requires -1073 <= e < E_MIN
    ensures Exp0(e) <= -307
  {
  }

  function FreeText(mant: nat, p: nat, exp: int, mode: ExpMode): string
    requires p >= 1
  {
    NumberText(mant, p, exp, mode, DTOA_MAX_DIGITS + 4)
  }

  /** The digits and the text of a double in free format. */
  ghost predicate FreeResult(m: nat, e: int, mant: nat, p: nat, exp: int, mode: ExpMode, t: string) {
    Shortest(m, e, Exp0(e), mant, p, exp) && p >= 1 && t == FreeText(mant, p, exp, mode) && |t| <= FreeSpace(mode, e)
  }

  lemma FreeResultIs(m: nat, e: int, mant: nat, p: nat, exp: int, mode: ExpMode)
    requires Double(m, e) && Shortest(m, e, Exp0(e), mant, p, exp)
    ensures 1 <= p <= DTOA_MAX_DIGITS && 0 < mant < TWO64 && -BASE < exp - 1 < BASE
    ensures FreeResult(m, e, mant, p, exp, mode, FreeText(mant, p, exp, mode))
  {
    DoubleFits(m, e);
    Exp0Is(e);
    hide Double, Shortest, NumberText, Exp0, TextRoom, FloorLog;
    ShortestParts(m, e, Exp0(e), mant, p, exp);
    RoomSuffices(mant, p, exp, DTOA_MAX_DIGITS, mode, 21, e);
    if mode.Disabled? && e < E_MIN {
      ShortestEnds(m, e, Exp0(e), mant, p, exp);
      Exp0Subnormal(e);
      NumberLength(mant, p, exp, mode, 21);
    }
  }

  /** The fast path for small integers. */
  method PutInteger(buf: array<char>, q: nat, m: nat, e: int, mode: ExpMode) returns (q': nat, ghost mant: nat, ghost p: nat, ghost exp: int)
    requires Double(m, e) && q + FreeSpace(mode, e) <= buf.Length
    requires 1 <= e <= 53 && m % Pow2(53 - e) == 0 && !mode.Enabled?
    modifies buf
    ensures q <= q' <= buf.Length && buf[..q] == old(buf[..q]) && FreeResult(m, e, mant, p, exp, mode, buf[q..q'])
  {
    hide *;
    var v := m / Pow2(53 - e);
    DivMod(m, Pow2(53 - e));
    mant, p := IntegerReady(m, e, mode, v);
    exp := Len(v);
    q' := U64ToA(buf, q, v);
    TailOf(buf[..q'], old(buf[..q]), DecimalText(v));
    assert buf[..q'][..q] == buf[..q] && buf[..q'][q..] == buf[q..q'];
  }

  lemma IntegerReady(m: nat, e: int, mode: ExpMode, v: nat) returns (mant: nat, p: nat)
    requires Double(m, e) && 1 <= e <= 53 && m == v * Pow2(53 - e) && !mode.Enabled?
    ensures v < TWO64 && Len(v) == |DecimalText(v)| <= FreeSpace(mode, e)
    ensures FreeResult(m, e, mant, p, Len(v), mode, DecimalText(v))
  {
    Exp0Is(e);
    hide Double, Shortest, FreeText, FloorLog, Exp0, DecimalText, Len, Pow2, FreeSpace, FreeResult;
    mant, p := IntegerShortest(m, e, Exp0(e), v);
    FreeResultIs(m, e, mant, p, Len(v), mode);
    IntegerRange(m, e, v);
    FreeInteger(v, mant, p, mode);
    FreeRoom(m, e, mant, p, Len(v), mode, DecimalText(v));
    WrittenLength(v);
    SmallEnough(v, e);
  }

  lemma FreeInteger(v: nat, mant: nat, p: nat, mode: ExpMode)
    requires v > 0 && 1 <= p <= Len(v) <= 16 && v == mant * Power(10, Len(v) - p) && !mode.Enabled?
    ensures FreeText(mant, p, Len(v), mode) == DecimalText(v)
  {
    hide NumberText, DecimalText;
    IntegerText(v, mant, p, mode);
  }

  lemma FreeRoom(m: nat, e: int, mant: nat, p: nat, exp: int, mode: ExpMode, t: string)
    requires FreeResult(m, e, mant, p, exp, mode, t)
    ensures |t| <= FreeSpace(mode, e)
  {
  }

  /** The digits that have been found. */
  method PutFound(buf: array<char>, q: nat, tmp1: Mpb, mant: nat, p: nat, exp: int, mode: ExpMode) returns (q': nat)
    requires mant < TWO64 && tmp1.tab.Length == DBIGNUM_LEN_MAX && p >= 1 && -BASE < exp - 1 < BASE
    requires q + |FreeText(mant, p, exp, mode)| <= buf.Length
    modifies buf, tmp1, tmp1.tab
    ensures q <= q' <= buf.Length && buf[..q] == old(buf[..q]) && buf[q..q'] == FreeText(mant, p, exp, mode)
  {
    hide NumberText, Value;
    tmp1.SetU64(mant);
    q' := PutNumber(buf, q, tmp1, p, exp, mode, DTOA_MAX_DIGITS + 4);
    TailOf(buf[..q'], old(buf[..q]), FreeText(mant, p, exp, mode));
    assert buf[..q'][..q] == buf[..q] && buf[..q'][q..] == buf[q..q'];
  }

  method PutShortest(buf: array<char>, q: nat, tmp1: Mpb, m: nat, e: int, mode: ExpMode) returns (q': nat, ghost mant: nat, ghost p: nat, ghost exp: int)
    requires Double(m, e) && tmp1.tab.Length == DBIGNUM_LEN_MAX && q + FreeSpace(mode, e) <= buf.Length
    modifies buf, tmp1, tmp1.tab
    ensures q <= q' <= buf.Length && buf[..q] == old(buf[..q]) && FreeResult(m, e, mant, p, exp, mode, buf[q..q'])
  {
    DoubleFits(m, e);
    Exp0Is(e);
    hide Double, Shortest, FreeText, FloorLog, Exp0, FreeSpace, FreeResult;
    var mant1, p1, exp1 := FreeFormat(tmp1, m, e, Exp0(e));
    mant, p, exp := mant1, p1, exp1;
    FreeResultIs(m, e, mant, p, exp, mode);
    FreeRoom(m, e, mant, p, exp, mode, FreeText(mant, p, exp, mode));
    q' := PutFound(buf, q, tmp1, mant1, p1, exp1, mode);
  }

  /** js_dtoa, free format, of a number other than zero. */
  method PutFree(buf: array<char>, q: nat, tmp1: Mpb, m: nat, e: int, mode: ExpMode) returns (q': nat, ghost mant: nat, ghost p: nat, ghost exp: int)
    requires Double(m, e) && tmp1.tab.Length == DBIGNUM_LEN_MAX && q + FreeSpace(mode, e) <= buf.Length
    modifies buf, tmp1, tmp1.tab
    ensures q <= q' <= buf.Length && buf[..q] == old(buf[..q]) && FreeResult(m, e, mant, p, exp, mode, buf[q..q'])
  {
    hide Double, FreeSpace, FreeResult, Pow2;
    if 1 <= e <= 53 {
      ZeroShift();
      Pow2Monotone(0, 53 - e);
      if m % Pow2(53 - e) == 0 && !mode.Enabled? {
        q', mant, p, exp := PutInteger(buf, q, m, e, mode);
        return;
      }
    }
    q', mant, p, exp := PutShortest(buf, q, tmp1, m, e, mode);
  }

  lemma SmallEnough(v: nat, e: int)
    requires 0 <= e <= 53 && v < Pow2(e)
    ensures v < TWO64
  {
    SixteenDigits();
    hide Pow2;
    Pow2Monotone(e, 53);
  }

  lemma ShortestParts(m: nat, e: int, exp0: int, mant: nat, p: nat, exp: int)
    requires Shortest(m, e, exp0, mant, p, exp)
    ensures 1 <= p <= DTOA_MAX_DIGITS && (exp == exp0 || exp == exp0 + 1) && 0 < mant < TWO64
  {
    hide ReadsBack, Settled, Mant, Power;
    PowerPositive(10, p - 1);
    MantFits(p);
  }

  /** The decimal exponent of a double that is rounded to `n` digits. */
  function FixedExp(m: nat, e: int, n: nat): int {
    Settled(m, e, n, Exp0(e), NearestAway)
  }

  /** The text of a double in fixed format. */
  function FixedText(m: nat, e: int, n: nat, mode: ExpMode): string
    requires n >= 1
  {
    NumberText(Mant(m, e, n, FixedExp(m, e, n), NearestAway), n, FixedExp(m, e, n), mode, n)
  }

  lemma FixedLength(m: nat, e: int, n: nat, mode: ExpMode)
    requires Double(m, e) && n >= 1
    ensures |FixedText(m, e, n, mode)| <= TextRoom(n, mode, e) && -BASE < FixedExp(m, e, n) - 1 < BASE
    ensures mode.Disabled? && e < E_MIN ==> |FixedText(m, e, n, mode)| == n + 2 - FixedExp(m, e, n)
  {
    DoubleFits(m, e);
    hide Double, NumberText, Exp0, TextRoom, Mant, Power;
    RoomSuffices(Mant(m, e, n, FixedExp(m, e, n), NearestAway), n, FixedExp(m, e, n), n, mode, n, e);
    if mode.Disabled? && e < E_MIN {
      Exp0Subnormal(e);
      PositionalLength(Mant(m, e, n, FixedExp(m, e, n), NearestAway), n, FixedExp(m, e, n), n);
    }
  }

  lemma PositionalLength(v: nat, p: nat, exp: int, expMax: int)
    requires p >= 1 && exp <= 0
    ensures |NumberText(v, p, exp, Disabled, expMax)| == p + 2 - exp
  {
  }

  /** js_dtoa, fixed format. */
  method PutFixed(buf: array<char>, q: nat, tmp1: Mpb, mantMax: Mpb, m: nat, e: int, n: nat, mode: ExpMode) returns (q': nat)
    requires Double(m, e) && 1 <= n <= JS_DTOA_MAX_DIGITS && q + |FixedText(m, e, n, mode)| <= buf.Length
    requires tmp1 != mantMax && tmp1.tab != mantMax.tab && tmp1.tab.Length == DBIGNUM_LEN_MAX && mantMax.tab.Length == MANT_LEN_MAX
    modifies buf, tmp1, tmp1.tab, mantMax, mantMax.tab
    ensures q <= q' <= buf.Length && buf[..q] == old(buf[..q]) && buf[q..q'] == FixedText(m, e, n, mode)
  {
    DoubleFits(m, e);
    Exp0Is(e);
    FixedLength(m, e, n, mode);
    hide Double, NumberText, FloorLog, Exp0, TextRoom, Mant, Settled, Power, Value;
    var exp := FixedFormat(tmp1, mantMax, m, e, Exp0(e), n);
    ghost var t := NumberText(tmp1.Val(), n, exp, mode, n);
    q' := PutNumber(buf, q, tmp1, n, exp, mode, n);
    TailOf(buf[..q'], old(buf[..q]), t);
    assert buf[..q'][..q] == buf[..q] && buf[..q'][q..] == buf[q..q'];
  }

  /** js_dtoa, fractional format. */
  method PutFraction(buf: array<char>, q: nat, tmp1: Mpb, m: nat, e: int, n: nat) returns (q': nat)
    requires Double(m, e) && n <= JS_DTOA_MAX_DIGITS && tmp1.tab.Length == DBIGNUM_LEN_MAX
    requires q + MaxNat(Exp0(e) + 1, 1) + n + 1 <= buf.Length
    modifies buf, tmp1, tmp1.tab
    ensures q <= q' <= q + MaxNat(Exp0(e) + 1, 1) + n + 1 && buf[..q] == old(buf[..q]) && buf[q..q'] == FracText(Mant(m, e, n, 0, NearestAway), n)
  {
    hide Double, FracText, FloorLog, Mant, Power, Value, Exp0, MulLog2Ten, Pow2;
    DoubleFits(m, e);
    Exp0Is(e);
    FracFormat(tmp1, m, e, n);
    ghost var t := FracText(tmp1.Val(), n);
    FracRange(m, e, Exp0(e), n);
    q' := PutFrac(buf, q, tmp1, MaxNat(Exp0(e) + 1, 1), n);
    TailOf(buf[..q'], old(buf[..q]), t);
    assert buf[..q'][..q] == buf[..q] && buf[..q'][q..] == buf[q..q'];
  }

  // ----- js_dtoa

  predicate DigitsAsked(fmt: Format, n: nat) {
    match fmt
    case Free => true
    case Fixed => 1 <= n <= JS_DTOA_MAX_DIGITS
    case Frac => n <= JS_DTOA_MAX_DIGITS
  }

  /** js_dtoa_max_len, in radix 10 */
  function MaxLen(a: nat, n: nat, fmt: Format, mode: ExpMode): nat {
    LenFor(Field(a % SIGN_BIT), n, fmt, mode)
  }

  /** The exponent field. */
  function Field(x: nat): nat {
    x / Pow2(52)
  }

  function LenFor(ef: nat, n: nat, fmt: Format, mode: ExpMode): nat {
    var len :=
      if !fmt.Frac? then
        var digits := if fmt.Free? then DTOA_MAX_DIGITS else n;
        if !mode.Disabled? then digits + 1 + 1 + 6
        else if ef == 0x7ff then 0
        else digits + 10 + Abs(MulLog2Ten(ef - 1023 - 1))
      else if ef == 0x7ff then 0
      else (if ef - 1023 < 0 then 1 else 2 + MulLog2Ten(ef - 1023 - 1)) + 1 + 1 + 1 + n;
    if len > 9 then len else 9
  }

  function SignText(neg: bool): string {
    if neg then "-" else ""
  }

  function ZeroDigits(fmt: Format, n: nat): nat {
    if fmt.Free? then 1 else if fmt.Frac? then n + 1 else n
  }

  /** What that bound lacks: it does not count the exponent of a zero in fractional format, and the exponent of a
      subnormal number is smaller than the one it is computed from. */
  ghost function Missing(a: nat, n: nat, fmt: Format, mode: ExpMode, minusZero: bool): nat {
    var neg, x := a >= SIGN_BIT, a % SIGN_BIT;
    if x == 0 then
      if fmt.Frac? && mode.Enabled? then MissingZero(n, |SignText(neg && minusZero)|) else 0
    else if x < INFINITY then MissingBody(Unpack(x).0, Unpack(x).1, n, fmt, mode, |SignText(neg)|)
    else 0
  }

  function MissingBody(m: nat, e: int, n: nat, fmt: Format, mode: ExpMode, sign: nat): nat {
    if e < E_MIN && fmt.Fixed? && mode.Disabled? then Up(sign - 317 - FixedExp(m, e, n)) else 0
  }

  function MissingZero(n: nat, sign: nat): nat {
    if n + sign <= 4 then 0 else if n >= 5 then 1 + sign else n + sign - 4
  }

  /** The text of a positive number; `mant`, `p` and `exp` are the digits found in free format. */
  ghost predicate Body(m: nat, e: int, n: nat, fmt: Format, mode: ExpMode, t: string, mant: nat, p: nat, exp: int)
    requires DigitsAsked(fmt, n)
  {
    match fmt
    case Free => FreeResult(m, e, mant, p, exp, mode, t)
    case Fixed => t == FixedText(m, e, n, mode)
    case Frac => t == FracText(Mant(m, e, n, 0, NearestAway), n)
  }

  ghost predicate Output(a: nat, n: nat, fmt: Format, mode: ExpMode, minusZero: bool, t: string, mant: nat, p: nat, exp: int)
    requires DigitsAsked(fmt, n)
  {
    var neg, x := a >= SIGN_BIT, a % SIGN_BIT;
    if x > INFINITY then t == "NaN"
    else if x == INFINITY then t == SignText(neg) + "Infinity"
    else if x == 0 then t == ZeroText(neg, n, fmt, mode, minusZero)
    else
      var (m, e) := Unpack(x);
      SignText(neg) <= t && Body(m, e, n, fmt, mode, t[|SignText(neg)|..], mant, p, exp)
  }

  /** What is announced, with what is missing, has room for the sign and the text. */
  lemma RoomForBody(a: nat, n: nat, fmt: Format, mode: ExpMode, minusZero: bool)
    requires a < TWO64 && 0 < a % SIGN_BIT < INFINITY && DigitsAsked(fmt, n)
    ensures var (m, e) := Unpack(a % SIGN_BIT);
            |SignText(a >= SIGN_BIT)| + BodyRoom(m, e, n, fmt, mode) <= MaxLen(a, n, fmt, mode) + Missing(a, n, fmt, mode, minusZero)
    ensures var (m, e) := Unpack(a % SIGN_BIT);
            Missing(a, n, fmt, mode, minusZero) > 0 ==>
              fmt.Fixed? && |SignText(a >= SIGN_BIT)| + BodyRoom(m, e, n, fmt, mode) == MaxLen(a, n, fmt, mode) + Missing(a, n, fmt, mode, minusZero)
  {
    hide Double, Bits, Unpack, MaxLen, LenFor, Missing, MissingBody, BodyRoom, FieldOf, Pow2, SignText;
    var x := a % SIGN_BIT;
    MissingIs(a, n, fmt, mode, minusZero);
    UnpackExponent(x);
    SignLength(a >= SIGN_BIT);
    RoomForFormat(Unpack(x).0, Unpack(x).1, Field(x), n, fmt, mode, |SignText(a >= SIGN_BIT)|);
  }

  lemma SignLength(neg: bool)
    ensures |SignText(neg)| <= 1
  {
  }

  lemma MissingIs(a: nat, n: nat, fmt: Format, mode: ExpMode, minusZero: bool)
    requires a < TWO64 && 0 < a % SIGN_BIT < INFINITY
    ensures MaxLen(a, n, fmt, mode) == LenFor(Field(a % SIGN_BIT), n, fmt, mode)
    ensures var (m, e) := Unpack(a % SIGN_BIT);
            Double(m, e) && Missing(a, n, fmt, mode, minusZero) == MissingBody(m, e, n, fmt, mode, |SignText(a >= SIGN_BIT)|)
  {
    Pow52();
    hide LenFor, MissingBody, Pow2, Double, Bits;
  }

  lemma RoomForFormat(m: nat, e: int, ef: nat, n: nat, fmt: Format, mode: ExpMode, sign: nat)
    requires Double(m, e) && FieldOf(e, ef) && DigitsAsked(fmt, n) && sign <= 1
    ensures var missing := MissingBody(m, e, n, fmt, mode, sign);
            && sign + BodyRoom(m, e, n, fmt, mode) <= LenFor(ef, n, fmt, mode) + missing
            && (missing > 0 ==> fmt.Fixed? && sign + BodyRoom(m, e, n, fmt, mode) == LenFor(ef, n, fmt, mode) + missing)
  {
    hide Double, FixedText, FixedExp, LenFor, FreeSpace;
    match fmt
    case Free => RoomForFree(e, ef, n, mode);
    case Fixed => RoomForFixed(m, e, ef, n, mode, sign);
    case Frac => RoomForFrac(e, ef, n, mode);
  }

  /** The exponent and the field it is stored in. */
  predicate FieldOf(e: int, ef: nat) {
    ef < 0x7ff && if ef > 0 then e == ef - 1022 else -1073 <= e <= -1022
  }

  lemma RoomForFree(e: int, ef: nat, n: nat, mode: ExpMode)
    requires FieldOf(e, ef)
    ensures 1 + FreeSpace(mode, e) <= LenFor(ef, n, Free, mode)
  {
    LogStep(e - 1);
    LogSubnormal(e);
    hide MulLog2Ten;
  }

  lemma RoomForFixed(m: nat, e: int, ef: nat, n: nat, mode: ExpMode, sign: nat)
    requires Double(m, e) && FieldOf(e, ef) && n >= 1 && sign <= 1
    ensures var missing := if ef == 0 && mode.Disabled? then Up(sign - 317 - FixedExp(m, e, n)) else 0;
            && sign + |FixedText(m, e, n, mode)| <= LenFor(ef, n, Fixed, mode) + missing
            && (missing > 0 ==> sign + |FixedText(m, e, n, mode)| == LenFor(ef, n, Fixed, mode) + missing)
  {
    FixedLength(m, e, n, mode);
    LogStep(e - 1);
    LogSubnormal(e);
    hide Double, MulLog2Ten, FixedText, FixedExp;
  }

  lemma RoomForFrac(e: int, ef: nat, n: nat, mode: ExpMode)
    requires FieldOf(e, ef)
    ensures 1 + MaxNat(Exp0(e) + 1, 1) + n + 1 <= LenFor(ef, n, Frac, mode)
  {
    LogStep(e - 1);
    LogSubnormal(e);
    hide MulLog2Ten, Abs;
  }

  lemma LogStep(a: int)
    ensures MulLog2Ten(a - 1) <= MulLog2Ten(a) <= MulLog2Ten(a - 1) + 1
    ensures a < 0 ==> MulLog2Ten(a) < 0
  {
  }

  lemma LogSubnormal(e: int)
    ensures MulLog2Ten(-1024) == -309
    ensures -1073 <= e <= -1022 ==> -324 <= MulLog2Ten(e - 1) <= -308
    ensures e - 1 >= 0 ==> MulLog2Ten(e - 1) >= 0
  {
  }

  lemma UnpackExponent(x: nat)
    requires 0 < x < INFINITY
    ensures FieldOf(Unpack(x).1, Field(x))
    ensures if Field(x) > 0 then x >= Pow2(52) else x < Pow2(52)
  {
    hide Pow2, Double, Bits;
    UnpackIs(x);
    Pow52();
    DivMod(x, Pow2(52));
    if x / Pow2(52) == 0 { SubnormalExponent(x); }
  }

  lemma SubnormalExponent(x: nat)
    requires 0 < x < Pow2(52)
    ensures x < TWO64 && 12 <= Clz64(x) <= 63
  {
    SixteenDigits();
    hide Pow2;
    Pow2Order(Log2(x), 52);
    if Log2(x) >= 52 { Pow2Monotone(52, Log2(x)); }
  }

  lemma ZeroLength(n: nat, fmt: Format, mode: ExpMode)
    requires DigitsAsked(fmt, n)
    ensures var p := ZeroDigits(fmt, n);
            && p >= 1 && |NumberText(0, p, 1, mode, ExpMax(fmt, n))| == p + (if p == 1 then 0 else 1) + (if mode.Enabled? then 3 else 0)
  {
    hide Written, WithDot;
    var p := ZeroDigits(fmt, n);
    WithDotLength(Written(0, p), 1);
    ZeroTextLength();
  }

  lemma ZeroTextLength()
    ensures |DecimalText(0)| == 1
  {
  }

  /** The text of a zero. */
  function ZeroText(neg: bool, n: nat, fmt: Format, mode: ExpMode, minusZero: bool): string
    requires DigitsAsked(fmt, n)
  {
    SignText(neg && minusZero) + NumberText(0, ZeroDigits(fmt, n), 1, mode, ExpMax(fmt, n))
  }

  lemma RoomForZero(a: nat, n: nat, fmt: Format, mode: ExpMode, minusZero: bool)
    requires a < TWO64 && a % SIGN_BIT == 0 && DigitsAsked(fmt, n)
    ensures |ZeroText(a >= SIGN_BIT, n, fmt, mode, minusZero)| <= MaxLen(a, n, fmt, mode) + Missing(a, n, fmt, mode, minusZero)
    ensures Missing(a, n, fmt, mode, minusZero) > 0 ==> |ZeroText(a >= SIGN_BIT, n, fmt, mode, minusZero)| == MaxLen(a, n, fmt, mode) + Missing(a, n, fmt, mode, minusZero)
  {
    Pow52();
    hide Pow2, NumberText, Abs;
    ZeroLength(n, fmt, mode);
    DivideIs(0, Pow2(52), 0, 0);
  }

  method PutSign(buf: array<char>, neg: bool) returns (q: nat)
    requires buf.Length >= 1
    modifies buf
    ensures q == |SignText(neg)| && buf[..q] == SignText(neg)
  {
    q := 0;
    if neg {
      buf[0] := '-';
      q := 1;
    }
  }

  method PutZero(buf: array<char>, q: nat, n: nat, fmt: Format, mode: ExpMode) returns (q': nat)
    requires DigitsAsked(fmt, n) && q + |NumberText(0, ZeroDigits(fmt, n), 1, mode, ExpMax(fmt, n))| <= buf.Length
    modifies buf
    ensures q' <= buf.Length && q' == q + |NumberText(0, ZeroDigits(fmt, n), 1, mode, ExpMax(fmt, n))|
    ensures buf[..q'] == old(buf[..q]) + NumberText(0, ZeroDigits(fmt, n), 1, mode, ExpMax(fmt, n))
  {
    hide NumberText, Value;
    var tmp1 := new Mpb(DBIGNUM_LEN_MAX);
    q' := PutNumber(buf, q, tmp1, ZeroDigits(fmt, n), 1, mode, ExpMax(fmt, n));
  }

  /** The room that the text of a positive number needs. */
  function BodyRoom(m: nat, e: int, n: nat, fmt: Format, mode: ExpMode): nat
    requires DigitsAsked(fmt, n)
  {
    match fmt
    case Free => FreeSpace(mode, e)
    case Fixed => |FixedText(m, e, n, mode)|
    case Frac => MaxNat(Exp0(e) + 1, 1) + n + 1
  }

  method PutBody(buf: array<char>, q: nat, m: nat, e: int, n: nat, fmt: Format, mode: ExpMode)
    returns (q': nat, ghost mant: nat, ghost p: nat, ghost exp: int)
    requires Double(m, e) && DigitsAsked(fmt, n) && q + BodyRoom(m, e, n, fmt, mode) <= buf.Length
    modifies buf
    ensures q <= q' <= q + BodyRoom(m, e, n, fmt, mode) && buf[..q] == old(buf[..q]) && Body(m, e, n, fmt, mode, buf[q..q'], mant, p, exp)
  {
    hide Double, FreeResult, FixedText, FracText, FreeSpace, Mant, Exp0, Value;
    var tmp1 := new Mpb(DBIGNUM_LEN_MAX);
    var mantMax := new Mpb(MANT_LEN_MAX);
    mant, p, exp := 0, 0, 0;
    match fmt
    case Free =>
      q', mant, p, exp := PutFree(buf, q, tmp1, m, e, mode);
      FreeRoom(m, e, mant, p, exp, mode, buf[q..q']);
    case Fixed =>
      q' := PutFixed(buf, q, tmp1, mantMax, m, e, n, mode);
    case Frac =>
      q' := PutFraction(buf, q, tmp1, m, e, n);
  }

  /** NaN and the infinities fit in any case. */
  lemma AtLeastNine(a: nat, n: nat, fmt: Format, mode: ExpMode)
    ensures MaxLen(a, n, fmt, mode) >= 9
  {
    hide Abs, MulLog2Ten;
  }

  method JsDtoa(buf: array<char>, a: nat, n: nat, fmt: Format, mode: ExpMode, minusZero: bool)
    returns (len: nat, ghost mant: nat, ghost p: nat, ghost exp: int)
    requires a < TWO64 && DigitsAsked(fmt, n) && buf.Length > MaxLen(a, n, fmt, mode) + Missing(a, n, fmt, mode, minusZero)
    modifies buf
    ensures len < buf.Length && buf[len] == '\0' && Output(a, n, fmt, mode, minusZero, buf[..len], mant, p, exp)
  {
    hide Double, FreeResult, FixedText, FracText, Body, BodyRoom, NumberText, Unpack, MaxLen, Missing, Pow2;
    mant, p, exp := 0, 0, 0;
    var neg, x := a >= SIGN_BIT, a % SIGN_BIT;
    AtLeastNine(a, n, fmt, mode);
    var q: nat;
    if x >= INFINITY {
      if x > INFINITY {
        q := PutText(buf, 0, "NaN");
      } else {
        q := PutSign(buf, neg);
        q := PutText(buf, q, "Infinity");
      }
    } else if x == 0 {
      RoomForZero(a, n, fmt, mode, minusZero);
      q := PutSign(buf, neg && minusZero);
      q := PutZero(buf, q, n, fmt, mode);
    } else {
      RoomForBody(a, n, fmt, mode, minusZero);
      var (m, e) := Unpack(x);
      q := PutSign(buf, neg);
      ghost var q0 := q;
      q, mant, p, exp := PutBody(buf, q, m, e, n, fmt, mode);
      assert buf[..q][..q0] == buf[..q0] && buf[..q][q0..] == buf[q0..q];
    }
    buf[q] := '\0';
    len := q;
  }
}
