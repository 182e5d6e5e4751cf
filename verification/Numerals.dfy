/** js_atod on the parts of a numeral: the digits, where the point is, and the exponent. */
module Numerals {
  import opened Limbs
  import opened Rounding
  import opened Bignum
  import opened Scaling
  import opened Ratios
  import opened Doubles
  import opened Atod

  const RADIX_BASE_TABLE: seq<limb> := [
    0x00000000, 0xcfd41b91, 0x00000000, 0x48c27395,
    0x81bf1000, 0x75db9c97, 0x40000000, 0xcfd41b91,
    0x3b9aca00, 0x8c8b6d2b, 0x19a10000, 0x309f1021,
    0x57f6c100, 0x98c29b81, 0x00000000, 0x18754571,
    0x247dbc80, 0x3547667b, 0x4c4b4000, 0x6b5a6e1d,
    0x94ace180, 0xcaf18367, 0x0b640000, 0x0e8d4a51,
    0x1269ae40, 0x17179149, 0x1cb91000, 0x23744899,
    0x2b73a840, 0x34e63b41, 0x40000000, 0x4cfa3cc1,
    0x5c13d840, 0x6d91b519, 0x81bf1000]

  const ATOD_MAX_DIGITS_TABLE: seq<nat> := [
    64, 80, 32, 55, 49, 45, 21, 40, 38, 37, 35, 34, 33, 32, 16, 31, 30, 30, 29, 29, 28, 28, 27, 27, 27, 26, 26, 26, 26, 25, 12, 25, 25, 24, 24]

  const DBIGNUM_LEN_MAX := 52

  /** The value of a sequence of digits, most significant first. */
  function DigitsValue(s: seq<nat>, radix: nat): nat {
    if s == [] then 0 else DigitsValue(s[..|s| - 1], radix) * radix + s[|s| - 1]
  }

  predicate Digits(s: seq<nat>, radix: nat) {
    forall k :: 0 <= k < |s| ==> s[k] < radix
  }

  lemma DigitsNext(s: seq<nat>, k: nat, radix: nat)
    requires k < |s|
    ensures DigitsValue(s[..k + 1], radix) == DigitsValue(s[..k], radix) * radix + s[k]
  {
    assert s[..k + 1][..k] == s[..k];
  }

  lemma {:induction false} DigitsBound(s: seq<nat>, radix: nat)
    requires Digits(s, radix) && radix > 0
    ensures DigitsValue(s, radix) < Power(radix, |s|)
    decreases |s|
  {
    hide Power;
    PowerOne(radix);
    if s != [] {
      var n := |s| - 1;
      DigitsBound(s[..n], radix);
      PowerAdd(radix, n, 1);
      MulMono(DigitsValue(s[..n], radix) + 1, Power(radix, n), radix);
      Distribute(DigitsValue(s[..n], radix), 1, radix);
    }
  }

  /** A number with a leading digit has that many digits. */
  lemma {:induction false} DigitsLeading(s: seq<nat>, radix: nat)
    requires s != [] && s[0] > 0 && radix > 0
    ensures DigitsValue(s, radix) >= Power(radix, |s| - 1)
    decreases |s|
  {
    hide Power;
    PowerOne(radix);
    var n := |s| - 1;
    if n == 0 {
      assert s[..0] == [];
      assert 0 * radix == 0;
    } else {
      DigitsLeading(s[..n], radix);
      PowerAdd(radix, n - 1, 1);
      MulMono(Power(radix, n - 1), DigitsValue(s[..n], radix), radix);
    }
  }

  lemma {:induction false} DigitsConcat(s: seq<nat>, t: seq<nat>, radix: nat)
    ensures DigitsValue(s + t, radix) == DigitsValue(s, radix) * Power(radix, |t|) + DigitsValue(t, radix)
    decreases |t|
  {
    hide Power;
    PowerOne(radix);
    if t == [] {
      assert s + t == s;
    } else {
      var n := |t| - 1;
      assert (s + t)[..|s| + n] == s + t[..n];
      DigitsConcat(s, t[..n], radix);
      PowerAdd(radix, n, 1);
      var x, y, p := DigitsValue(s, radix), DigitsValue(t[..n], radix), Power(radix, n);
      assert (x * p + y) * radix == x * (p * radix) + y * radix;
    }
  }

  lemma {:induction false} DigitsZero(s: seq<nat>, radix: nat)
    requires radix > 0
    ensures DigitsValue(s, radix) == 0 <==> forall k :: 0 <= k < |s| ==> s[k] == 0
    decreases |s|
  {
    if s != [] {
      var n := |s| - 1;
      DigitsZero(s[..n], radix);
      NonzeroProduct(radix, DigitsValue(s[..n], radix));
      assert DigitsValue(s[..n], radix) * radix == radix * DigitsValue(s[..n], radix);
      if forall k :: 0 <= k < |s[..n]| ==> s[..n][k] == 0 {
        assert forall k :: 0 <= k < n ==> s[k] == s[..n][k];
      }
    }
  }

  // ----- the radices

  function MaxDigits(radix: nat): nat
    requires 2 <= radix <= JS_RADIX_MAX
  {
    ATOD_MAX_DIGITS_TABLE[radix - 2]
  }

  function RadixBase(radix: nat): limb
    requires 2 <= radix <= JS_RADIX_MAX
  {
    RADIX_BASE_TABLE[radix - 2]
  }

  /** Radix 10, and the powers of two; for these the code promises correct rounding. */
  predicate Supported(radix: nat) {
    radix == 10 || radix == 2 || radix == 4 || radix == 8 || radix == 16 || radix == 32
  }

  /** log2 of a power of two, otherwise 0. */
  function RadixBits(radix: nat): nat {
    match radix
    case 2 => 1
    case 4 => 2
    case 8 => 3
    case 16 => 4
    case 32 => 5
    case _ => 0
  }

  lemma TablesSupported(radix: nat)
    requires Supported(radix)
    ensures var d, m, b := DigitsPerLimb(radix), MaxDigits(radix), RadixBase(radix);
            && Power(radix, d) == (if b == 0 then BASE else b)
            && (radix == 10 ==> d == 9 && m == 38)
            && (radix != 10 ==> radix == Pow2(RadixBits(radix)) && 1 <= RadixBits(radix) <= 5 && RadixBits(radix) * (m - 1) >= 55 && m <= 64 && m <= 2 * d + 1)
  {
    SmallPow2();
    BaseEntries();
    MaxDigitsEntries();
    DigitsEntries();
    hide Pow2, Power, DigitsPerLimb, RadixBase, MaxDigits;
    match radix
    case 10 => PowerTen();
    case 2 => PowerOfPow2(1, 32);
    case 4 => PowerOfPow2(2, 16);
    case 8 => PowerOfPow2(3, 10);
    case 16 => PowerOfPow2(4, 8);
    case 32 => PowerOfPow2(5, 6);
  }

  lemma BaseEntries()
    ensures RadixBase(2) == 0 && RadixBase(4) == 0 && RadixBase(8) == 0x40000000
    ensures RadixBase(10) == 1000000000 && RadixBase(16) == 0 && RadixBase(32) == 0x40000000
  {
  }

  lemma MaxDigitsEntries()
    ensures MaxDigits(2) == 64 && MaxDigits(4) == 32 && MaxDigits(8) == 21 && MaxDigits(10) == 38 && MaxDigits(16) == 16 && MaxDigits(32) == 12
  {
  }

  lemma DigitsEntries()
    ensures DigitsPerLimb(2) == 32 && DigitsPerLimb(4) == 16 && DigitsPerLimb(8) == 10
    ensures DigitsPerLimb(10) == 9 && DigitsPerLimb(16) == 8 && DigitsPerLimb(32) == 6
  {
  }

  lemma BaseOf(radix: nat)
    requires Supported(radix)
    ensures Power(radix, DigitsPerLimb(radix)) == if RadixBase(radix) == 0 then BASE else RadixBase(radix)
  {
    hide Power, DigitsPerLimb, RadixBase, MaxDigits;
    TablesSupported(radix);
  }

  lemma PowerTen()
    ensures Power(10, 9) == 1000000000
  {
    PowerAdd(10, 4, 5);
    assert Power(10, 4) == 10000 && Power(10, 5) == 100000;
  }

  // ----- reading digits

  lemma Times0(b: nat)
    ensures 0 * b == 0
  {
  }

  method MoveUp(t: array<limb>, n: nat)
    requires n < t.Length
    modifies t
    ensures t[1..n + 1] == old(t[0..n])
  {
    var i := n;
    while i > 0
      invariant 0 <= i <= n && t[..i] == old(t[..i]) && t[i + 1..n + 1] == old(t[i..n])
    {
      t[i] := t[i - 1];
      i := i - 1;
    }
  }

  /** The loop that moves the limbs up by one; it copies one limb beyond the number as well. */
  method RaiseByOne(r: Mpb)
    requires r.Valid() && r.len + 2 <= r.tab.Length
    modifies r.tab
    ensures r.tab[1..r.len + 1] == old(r.tab[..r.len])
  {
    MoveUp(r.tab, r.len + 1);
    assert old(r.tab[0..r.len + 1]) == old(r.tab[..r.len + 1]);
    Cut(r.tab[..], old(r.tab[..]), r.len);
  }

  lemma Cut(t: seq<limb>, s: seq<limb>, n: nat)
    requires n + 2 <= |t| == |s| && t[1..n + 2] == s[..n + 1]
    ensures t[1..n + 1] == s[..n]
  {
    assert t[1..n + 2][..n] == t[1..n + 1] && s[..n + 1][..n] == s[..n];
  }

  /** A new lowest limb. */
  method PushLow(r: Mpb, a: limb)
    requires r.Valid() && r.len + 2 <= r.tab.Length
    modifies r, r.tab
    ensures r.Valid() && r.tab == old(r.tab) && r.len == old(r.len) + 1 && r.Val() == old(r.Val()) * BASE + a
  {
    RaiseByOne(r);
    r.tab[0] := a;
    assert r.tab[..r.len + 1] == [a] + r.tab[1..r.len + 1];
    ValueCons(a, r.tab[1..r.len + 1]);
    r.len := r.len + 1;
  }

  /** mpb_mul1_base: times the base, plus `a`. A base of 0 stands for 2^32. */
  method Mul1Base(r: Mpb, radixBase: limb, a: limb, ghost b: nat)
    requires r.Valid() && r.Normal() && r.len + 2 <= r.tab.Length && b == if radixBase == 0 then BASE else radixBase
    modifies r, r.tab
    ensures r.Valid() && r.Normal() && r.tab == old(r.tab) && r.Val() == old(r.Val()) * b + a
    ensures r.len <= old(r.len) + 1 && (old(r.Val()) == 0 && old(r.len) == 1 ==> r.len == 1)
  {
    hide Value, Power;
    SingleZero(r.tab[..r.len]);
    if r.tab[0] == 0 && r.len == 1 {
      r.tab[0] := a;
      assert r.tab[..1] == [a];
      ValueOne(a);
      Times0(b);
    } else {
      if radixBase == 0 {
        PushLow(r, a);
      } else {
        var h := r.Mul1(radixBase, a);
        ValueAppend(r.tab[..r.len], h);
        r.Push(h);
      }
      r.Renorm();
    }
  }

  lemma SingleZero(s: seq<limb>)
    ensures |s| == 1 ==> Value(s) == s[0]
  {
    if |s| == 1 { assert s == [s[0]]; ValueOne(s[0]); }
  }

  /** A number of limbs has been collected, the digits of the next one are being collected. */
  ghost predicate Collecting(a: Mpb, radix: nat, curLimb: nat, limbDigitCount: nat, flushes: nat, w: nat)
    requires Supported(radix)
    reads a, a.tab
  {
    && a.Valid() && a.Normal() && a.tab.Length == DBIGNUM_LEN_MAX
    && (flushes == 0 ==> a.Val() == 0 && a.len == 1) && (flushes > 0 ==> a.len <= flushes)
    && limbDigitCount < DigitsPerLimb(radix) && curLimb < Power(radix, limbDigitCount)
    && a.Val() * Power(radix, limbDigitCount) + curLimb == w
  }

  /** One digit goes to the current limb; a full limb goes to the number. */
  method AddDigit(a: Mpb, radix: nat, curLimb0: limb, limbDigitCount0: nat, c: nat, ghost flushes0: nat, ghost w: nat)
    returns (curLimb: limb, limbDigitCount: nat, ghost flushes: nat)
    requires Supported(radix) && c < radix && Collecting(a, radix, curLimb0, limbDigitCount0, flushes0, w)
    requires flushes0 * DigitsPerLimb(radix) + limbDigitCount0 < MaxDigits(radix)
    modifies a, a.tab
    ensures a.tab == old(a.tab) && Collecting(a, radix, curLimb, limbDigitCount, flushes, w * radix + c)
    ensures flushes * DigitsPerLimb(radix) + limbDigitCount == flushes0 * DigitsPerLimb(radix) + limbDigitCount0 + 1
  {
    hide Power, Value, RadixBase, MaxDigits, DigitsPerLimb;
    BaseOf(radix);
    var digitsPerLimb := DigitsPerLimb(radix);
    flushes := flushes0;
    DigitFits(radix, limbDigitCount0, curLimb0, c);
    DigitStep(a.Val(), Power(radix, limbDigitCount0), curLimb0, radix, c, w);
    curLimb := curLimb0 * radix + c;
    limbDigitCount := limbDigitCount0 + 1;
    if limbDigitCount == digitsPerLimb {
      FlushBound(flushes, digitsPerLimb, limbDigitCount, MaxDigits(radix), radix);
      Mul1Base(a, RadixBase(radix), curLimb, Power(radix, digitsPerLimb));
      PowerOne(radix);
      curLimb := 0;
      limbDigitCount := 0;
      flushes := flushes + 1;
      Distribute(flushes0, 1, digitsPerLimb);
    }
  }

  /** The last, incomplete limb. */
  method FlushRest(a: Mpb, radix: nat, curLimb: limb, limbDigitCount: nat, ghost flushes: nat, ghost w: nat)
    requires Supported(radix) && Collecting(a, radix, curLimb, limbDigitCount, flushes, w)
    requires flushes * DigitsPerLimb(radix) + limbDigitCount <= MaxDigits(radix)
    modifies a, a.tab
    ensures a.Valid() && a.Normal() && a.tab == old(a.tab) && a.len <= 6 && a.Val() == w
  {
    hide Power, Value, RadixBase, MaxDigits, DigitsPerLimb;
    PowerOne(radix);
    if limbDigitCount != 0 {
      LeftoverFits(radix, limbDigitCount);
      var b := PowUi(radix, limbDigitCount);
      FlushBound(flushes, DigitsPerLimb(radix), limbDigitCount, MaxDigits(radix), radix);
      Mul1Base(a, b, curLimb, b);
    } else {
      FlushBound0(flushes, DigitsPerLimb(radix), MaxDigits(radix), radix);
    }
  }

  /** The loop over the significant digits: those that fit are collected in limbs, of the others it is only
      kept whether one is not zero. */
  method ReadDigits(a: Mpb, digits: seq<nat>, radix: nat) returns (digitCount: nat, extra: bool)
    requires Supported(radix) && Digits(digits, radix)
    requires a.Valid() && a.Normal() && a.Val() == 0 && a.len == 1 && a.tab.Length == DBIGNUM_LEN_MAX
    modifies a, a.tab
    ensures a.Valid() && a.Normal() && a.tab == old(a.tab) && a.len <= 6
    ensures digitCount == MinInt(|digits|, MaxDigits(radix))
    ensures a.Val() == DigitsValue(digits[..digitCount], radix)
    ensures extra <==> exists k :: digitCount <= k < |digits| && digits[k] != 0
  {
    NoDigits(radix);
    assert digits[..0] == [];
    var maxDigits := MaxDigits(radix);
    var curLimb: limb, limbDigitCount: nat := 0, 0;
    ghost var flushes: nat := 0;
    digitCount, extra := 0, false;
    var p := 0;
    assert Collecting(a, radix, 0, 0, 0, 0);
    hide Power, Value, DigitsValue, RadixBase, MaxDigits, DigitsPerLimb, Collecting;
    while p < |digits|
      invariant 0 <= p <= |digits| && a.tab == old(a.tab)
      invariant digitCount == MinInt(p, maxDigits) && digitCount == flushes * DigitsPerLimb(radix) + limbDigitCount
      invariant Collecting(a, radix, curLimb, limbDigitCount, flushes, DigitsValue(digits[..digitCount], radix))
      invariant extra <==> exists k :: digitCount <= k < p && digits[k] != 0
    {
      var c := digits[p];
      p := p + 1;
      if digitCount < maxDigits {
        DigitsNext(digits, digitCount, radix);
        curLimb, limbDigitCount, flushes := AddDigit(a, radix, curLimb, limbDigitCount, c, flushes, DigitsValue(digits[..digitCount], radix));
        digitCount := digitCount + 1;
      } else {
        extra := extra || c != 0;
      }
    }
    FlushRest(a, radix, curLimb, limbDigitCount, flushes, DigitsValue(digits[..digitCount], radix));
  }

  lemma NoDigits(radix: nat)
    ensures DigitsValue([], radix) == 0 && Power(radix, 0) == 1
  {
  }

  /** One more digit fits the limb. */
  lemma DigitFits(radix: nat, l: nat, cur: nat, c: nat)
    requires Supported(radix) && l < DigitsPerLimb(radix) && cur < Power(radix, l) && c < radix
    ensures cur * radix + c < Power(radix, l + 1) <= BASE
    ensures Power(radix, l + 1) == Power(radix, l) * radix
  {
    hide Power, DigitsPerLimb, RadixBase, MaxDigits;
    TablesSupported(radix);
    PowerAdd(radix, l, 1);
    PowerOne(radix);
    MulMono(cur + 1, Power(radix, l), radix);
    Distribute(cur, 1, radix);
    PowerMonotone(radix, l + 1, DigitsPerLimb(radix));
  }

  lemma DigitStep(v: nat, p: nat, cur: nat, radix: nat, c: nat, w: nat)
    requires v * p + cur == w
    ensures v * (p * radix) + (cur * radix + c) == w * radix + c
  {
    Distribute(v * p, cur, radix);
    MulAssoc(v, p, radix);
  }

  lemma FlushBound(flushes: nat, d: nat, l: nat, m: nat, radix: nat)
    requires Supported(radix) && d == DigitsPerLimb(radix) && m == MaxDigits(radix)
    requires flushes * d + l <= m && l > 0
    ensures flushes <= 4
  {
    hide Power, DigitsPerLimb, MaxDigits, RadixBase;
    TablesSupported(radix);
    if flushes >= 5 { MulMono(5, flushes, d); }
  }

  lemma FlushBound0(flushes: nat, d: nat, m: nat, radix: nat)
    requires Supported(radix) && d == DigitsPerLimb(radix) && m == MaxDigits(radix)
    requires flushes * d <= m
    ensures flushes <= 5
  {
    hide Power, DigitsPerLimb, MaxDigits, RadixBase;
    TablesSupported(radix);
    if flushes >= 6 { MulMono(6, flushes, d); }
  }

  lemma LeftoverFits(radix: nat, l: nat)
    requires Supported(radix) && 0 < l < DigitsPerLimb(radix)
    ensures 0 < Power(radix, l) < BASE && l < 32
  {
    hide Power, DigitsPerLimb, RadixBase, MaxDigits;
    TablesSupported(radix);
    PowerAdd(radix, l, 1);
    PowerOne(radix);
    PowerMonotone(radix, l + 1, DigitsPerLimb(radix));
    PowerPositive(radix, l);
    MulMono(2, radix, Power(radix, l));
  }

  // ----- the whole conversion

  /** How many steps of the binary, or for radix 10 of the decimal exponent one digit is. */
  function Weight(radix: nat): nat {
    if radix == 10 then 1 else RadixBits(radix)
  }

  /** The exponent of the first significant digit, when `before` digits from there on stand before the point. */
  function Lead(radix: nat, before: int, expn: int, isBinExp: bool): int {
    (if isBinExp then expn else expn * Weight(radix)) + before * Weight(radix)
  }

  /** By how much that exponent changes in an int of 32 bits. */
  function Shift(radix: nat, before: int, expn: int, isBinExp: bool): int {
    Int32(Lead(radix, before, expn, isBinExp)) - Lead(radix, before, expn, isBinExp)
  }

  /** The number that a numeral denotes: all its digits as an integer, times powers of 2 and of the radix, and
      shifted in the exponent. */
  function NumeralNum(digits: seq<nat>, radix: nat, fraction: int, expn: int, isBinExp: bool, shift: int): nat {
    Num(DigitsValue(digits, radix), (if isBinExp then expn else 0) + (if radix == 10 then 0 else shift),
        radix, (if isBinExp then 0 else expn) - fraction + (if radix == 10 then shift else 0))
  }

  function NumeralDen(radix: nat, fraction: int, expn: int, isBinExp: bool, shift: int): nat {
    Den((if isBinExp then expn else 0) + (if radix == 10 then 0 else shift),
        radix, (if isBinExp then 0 else expn) - fraction + (if radix == 10 then shift else 0))
  }

  /** `a` is the double nearest to that number. */
  ghost predicate NearestNumeral(digits: seq<nat>, radix: nat, fraction: int, expn: int, isBinExp: bool, shift: int, a: nat) {
    && NumeralDen(radix, fraction, expn, isBinExp, shift) > 0
    && Nearest(NumeralNum(digits, radix, fraction, expn, isBinExp, shift), NumeralDen(radix, fraction, expn, isBinExp, shift), a)
  }

  /** No digit is lost: a power of two keeps a sticky bit, radix 10 has room for 38 digits. */
  predicate Exact(digits: seq<nat>, radix: nat, sig: nat)
    requires 2 <= radix <= JS_RADIX_MAX && sig <= |digits|
  {
    radix == 10 ==> forall k :: sig + MaxDigits(radix) <= k < |digits| ==> digits[k] == 0
  }

  /** The digits that count: in radix 10 those from the 39th significant one on are taken for zeros. */
  function Kept(digits: seq<nat>, radix: nat, sig: nat): (r: seq<nat>)
    requires 2 <= radix <= JS_RADIX_MAX
    ensures |r| == |digits| && (Digits(digits, radix) ==> Digits(r, radix))
    ensures sig <= |digits| && Exact(digits, radix, sig) ==> r == digits
  {
    if radix == 10 then seq(|digits|, i requires 0 <= i < |digits| => if i < sig + MaxDigits(radix) then digits[i] else 0) else digits
  }

  // ----- radix 2, 4, 8, 16, 32

  /** The digits that were kept and the ones that were not. */
  lemma SplitDigits(sig: seq<nat>, k: nat, radix: nat)
    requires k <= |sig| && Digits(sig, radix) && radix > 1 && (k > 0 ==> sig[0] > 0)
    ensures var n, d := DigitsValue(sig, radix), Power(radix, |sig| - k);
            var a, r := DigitsValue(sig[..k], radix), DigitsValue(sig[k..], radix);
            && d > 0 && n == a * d + r && r < d && n / d == a && n % d == r
            && a < Power(radix, k) && (k > 0 ==> a >= Power(radix, k - 1) > 0)
            && (r != 0 <==> exists j :: k <= j < |sig| && sig[j] != 0)
  {
    hide Power, DigitsValue;
    assert sig == sig[..k] + sig[k..];
    DigitsConcat(sig[..k], sig[k..], radix);
    DigitsBound(sig[k..], radix);
    DigitsBound(sig[..k], radix);
    PowerPositive(radix, |sig| - k);
    DivideIs(DigitsValue(sig, radix), Power(radix, |sig| - k), DigitsValue(sig[..k], radix), DigitsValue(sig[k..], radix));
    DigitsZero(sig[k..], radix);
    TailNonzero(sig, k);
    if k > 0 {
      DigitsLeading(sig[..k], radix);
      PowerPositive(radix, k - 1);
    }
  }

  lemma TailNonzero(s: seq<nat>, k: nat)
    requires k <= |s|
    ensures (forall j :: 0 <= j < |s[k..]| ==> s[k..][j] == 0) <==> !exists j :: k <= j < |s| && s[j] != 0
  {
    if forall j :: 0 <= j < |s[k..]| ==> s[k..][j] == 0 {
      forall j | k <= j < |s| ensures s[j] == 0 { assert s[k..][j - k] == s[j]; }
    }
  }

  /** The binary exponent of the last digit that was kept. */
  function BinaryExponent(bits: nat, expnOffset: int, expn: int, isBinExp: bool, k: nat): int {
    Int32((if isBinExp then expn else expn * bits) - expnOffset * bits + k * bits) - k * bits
  }

  method AtodBinary(tmp0: Mpb, radix: nat, ghost sig: seq<nat>, digitCount: nat, extra: bool, expnOffset: int, expn0: int, isBinExp: bool)
    returns (a: nat)
    requires Supported(radix) && radix != 10 && Digits(sig, radix) && sig != [] && sig[0] > 0
    requires digitCount == MinInt(|sig|, MaxDigits(radix)) > 0
    requires tmp0.Valid() && tmp0.Normal() && tmp0.len + 3 <= tmp0.tab.Length && tmp0.Val() == DigitsValue(sig[..digitCount], radix)
    requires extra <==> exists k :: digitCount <= k < |sig| && sig[k] != 0
    requires InInt32(expn0)
    modifies tmp0, tmp0.tab
    ensures var bits := RadixBits(radix);
            var e := BinaryExponent(bits, expnOffset, expn0, isBinExp, digitCount);
            var d := Power(radix, |sig| - digitCount);
            d > 0 && ScaledDen(d, -e) > 0 && Nearest(ScaledNum(DigitsValue(sig, radix), -e), ScaledDen(d, -e), a)
  {
    hide Power, Pow2, Value, DigitsValue, Nearest, MaxDigits, Sticky, ScaledNum, ScaledDen, RadixBits, Int32;
    TablesSupported(radix);
    var bits := RadixBits(radix);
    SplitDigits(sig, digitCount, radix);
    ghost var n, d := DigitsValue(sig, radix), Power(radix, |sig| - digitCount);
    StickyIs(n, d, n / d, n % d);
    BinaryRange(radix, bits, digitCount, n, d, tmp0.Val(), n % d);
    if extra {
      EnoughDigits(radix, bits, digitCount, tmp0.Val());
      SetSticky(tmp0);
      OrOneGrows(DigitsValue(sig[..digitCount], radix));
    }
    var expn := expn0;
    if !isBinExp {
      expn := Int32(expn * bits);
    }
    expn := Int32(expn - Int32(expnOffset * bits));
    WrapOnce(if isBinExp then expn0 else expn0 * bits, expnOffset * bits, digitCount * bits, if isBinExp then expn0 else Int32(expn0 * bits));
    FewBits(radix, bits, digitCount);
    a := ConvertBinary(tmp0, bits, expn, digitCount, n, d);
  }

  /** It is the same to wrap around at every step or in the end. */
  lemma WrapOnce(x: int, y: int, z: int, x': int)
    requires x' == x || x' == Int32(x)
    ensures Int32(Int32(x' - Int32(y)) + z) == Int32(x - y + z)
  {
    hide Int32;
    Int32Difference(y, x');
    Int32Sum(x' - y, z);
    if x' != x { Int32Sum(x, z - y); }
    Int32Sum(x - y, z);
    assert Int32(x' - y + z) == Int32(x - y + z) by { if x' != x { assert Int32(Int32(x) + (z - y)) == Int32(x + (z - y)); } }
  }

  lemma FewBits(radix: nat, bits: nat, k: nat)
    requires Supported(radix) && radix != 10 && bits == RadixBits(radix) && k <= MaxDigits(radix)
    ensures k * bits <= 64
  {
    MaxDigitsEntries();
    hide MaxDigits;
  }

  lemma OrOneGrows(x: nat)
    ensures OrOne(x) >= x
  {
  }

  lemma BinaryRange(radix: nat, bits: nat, k: nat, n: nat, d: nat, a: nat, r: nat)
    requires radix == Pow2(bits) && k > 0 && d > 0 && n == a * d + r && r < d && Power(radix, k - 1) <= a < Power(radix, k)
    ensures d * Pow2(bits * (k - 1)) <= n < d * Pow2(bits * k)
  {
    hide Power, Pow2;
    PowerOfPow2(bits, k);
    PowerOfPow2(bits, k - 1);
    MulMono(Power(radix, k - 1), a, d);
    MulMono(a + 1, Power(radix, k), d);
    Distribute(a, 1, d);
  }

  lemma EnoughDigits(radix: nat, bits: nat, k: nat, a: nat)
    requires radix == Pow2(bits) && k > 0 && bits * (k - 1) >= 55 && a >= Power(radix, k - 1)
    ensures a >= Pow2(55)
  {
    hide Power, Pow2;
    PowerOfPow2(bits, k - 1);
    Pow2Monotone(55, bits * (k - 1));
  }

  /** The scaled number is the one that the numeral denotes. */
  lemma BinarySame(n: nat, radix: nat, bits: nat, dropped: nat, e: int, e2: int, x: int)
    requires radix == Pow2(bits) && e == e2 + bits * (x + dropped)
    ensures var d := Power(radix, dropped);
            ScaledNum(n, -e) * Den(e2, radix, x) == Num(n, e2, radix, x) * ScaledDen(d, -e)
  {
    hide Power, Pow2;
    PowerOfPow2(bits, dropped);
    PowerOfPow2(bits, Up(x));
    PowerOfPow2(bits, Up(-x));
    var up, down := bits * Up(x), bits * Up(-x);
    assert up - down == bits * x by { assert bits * Up(x) - bits * Up(-x) == bits * (Up(x) - Up(-x)); }
    assert bits * (x + dropped) == bits * x + bits * dropped;
    Pow2Add(Up(-e2), down);
    Pow2Add(Up(e2), up);
    Pow2Add(bits * dropped, Up(-e));
    MulAssoc(n, Pow2(Up(e2)), Pow2(up));
    Pow2Balance(Up(e), Up(-e2) + down, Up(e2) + up, bits * dropped + Up(-e));
    MulAssoc(n, Pow2(Up(e)), Pow2(Up(-e2) + down));
    MulAssoc(n, Pow2(Up(e2) + up), Pow2(bits * dropped + Up(-e)));
  }

  // ----- radix 10

  method AtodDecimal(tmp0: Mpb, ghost sig: seq<nat>, digitCount: nat, expnOffset: int, expn0: int) returns (a: nat)
    requires Digits(sig, 10) && sig != [] && sig[0] > 0
    requires digitCount == MinInt(|sig|, MaxDigits(10)) > 0
    requires tmp0.Valid() && tmp0.Normal() && tmp0.len <= 6 && tmp0.tab.Length == DBIGNUM_LEN_MAX
    requires tmp0.Val() == DigitsValue(sig[..digitCount], 10)
    requires InInt32(expn0)
    modifies tmp0, tmp0.tab
    ensures var e := Int32(expn0 - expnOffset + digitCount) - digitCount;
            NearestScaled(DigitsValue(sig[..digitCount], 10), 10, e, a)
  {
    hide *;
    TenDigits(|sig|, digitCount);
    Int32Fits(expn0 - expnOffset);
    Int32Sum(expn0 - expnOffset, digitCount);
    var expn := Int32(expn0 - expnOffset);
    DecimalReady(sig, digitCount, tmp0.len, expn);
    a := ConvertDecimal(tmp0, 10, 5, 1, expn, digitCount);
  }

  /** What the conversion from radix 10 relies on. */
  lemma DecimalReady(sig: seq<nat>, k: nat, len: nat, expn: int)
    requires Digits(sig, 10) && 0 < k <= |sig| && k <= 38 && sig[0] > 0 && len <= 6 && InInt32(expn)
    ensures JS_RADIX_MAX == 36 && DecimalInput(DigitsValue(sig[..k], 10), len, DBIGNUM_LEN_MAX, 10, 5, 1, expn, k)
  {
    HalfPower(1);
    ZeroShift();
    hide Power, Pow2, DigitsValue, MaxExponent, MinExponent, TablesBound, ConvertRoom;
    SplitDigits(sig, k, 10);
    TablesBoundTen();
    TableEntriesTen();
    RoomTen(len, expn, k);
  }

  lemma Int32Fits(x: int)
    ensures InInt32(Int32(x))
  {
  }

  lemma TenDigits(len: nat, k: nat)
    requires k == MinInt(len, MaxDigits(10))
    ensures k <= len && k <= 38
  {
    MaxDigitsEntries();
  }

  /** 52 limbs are enough. */
  lemma RoomTen(len: nat, expn: int, k: nat)
    requires len <= 6 && 0 < k <= 38
    ensures -324 < expn + k <= 309 ==> ConvertRoom(len, 5, expn) <= DBIGNUM_LEN_MAX
  {
    DigitsLow();
    hide DigitsPerLimb;
  }

  lemma DecimalSame(n: nat, a: nat, dropped: nat, e: int, x: int)
    requires n == a * Power(10, dropped) && e == x + dropped
    ensures Num(a, 0, 10, e) * Den(0, 10, x) == Num(n, 0, 10, x) * Den(0, 10, e)
  {
    hide Power, Pow2;
    NumDenZero(a, 10, e);
    NumDenZero(n, 10, x);
    PowerAdd(10, Up(e), Up(-x));
    PowerAdd(10, dropped, Up(x));
    PowerAdd(10, dropped + Up(x), Up(-e));
    assert Up(e) + Up(-x) == dropped + Up(x) + Up(-e);
    MulAssoc(a, Power(10, Up(e)), Power(10, Up(-x)));
    MulAssoc(a, Power(10, dropped), Power(10, Up(x)));
    MulAssoc(a, Power(10, dropped + Up(x)), Power(10, Up(-e)));
  }

  // ----- js_atod

  const SIGN_BIT: nat := 0x8000_0000_0000_0000

  /** The number of zeros in front of the first significant digit. */
  function LeadingZeros(digits: seq<nat>): (n: nat)
    ensures n <= |digits|
  {
    if digits != [] && digits[0] == 0 then 1 + LeadingZeros(digits[1..]) else 0
  }

  lemma {:induction false} LeadingZerosIs(digits: seq<nat>, n: nat)
    requires n <= |digits| && (forall k :: 0 <= k < n ==> digits[k] == 0) && (n < |digits| ==> digits[n] != 0)
    ensures LeadingZeros(digits) == n
    decreases n
  {
    if n > 0 { LeadingZerosIs(digits[1..], n - 1); }
  }

  lemma SignificantValue(digits: seq<nat>, n: nat, radix: nat)
    requires n <= |digits| && (forall k :: 0 <= k < n ==> digits[k] == 0) && radix > 0
    ensures DigitsValue(digits[n..], radix) == DigitsValue(digits, radix)
  {
    hide Power, DigitsValue;
    assert digits == digits[..n] + digits[n..];
    DigitsConcat(digits[..n], digits[n..], radix);
    DigitsZero(digits[..n], radix);
    Times0(Power(radix, |digits| - n));
  }

  lemma NothingDropped(sig: seq<nat>, k: nat)
    requires k <= |sig| && Digits(sig, 10) && (forall j :: k <= j < |sig| ==> sig[j] == 0)
    ensures DigitsValue(sig, 10) == DigitsValue(sig[..k], 10) * Power(10, |sig| - k)
  {
    hide Power, DigitsValue;
    assert sig == sig[..k] + sig[k..];
    DigitsConcat(sig[..k], sig[k..], 10);
    DigitsZero(sig[k..], 10);
  }

  /** A significant digit and everything behind it. */
  method AtodSignificant(radix: nat, sig: seq<nat>, fraction: int, expn: int, isBinExp: bool) returns (a: nat)
    requires Supported(radix) && Digits(sig, radix) && sig != [] && sig[0] > 0 && (isBinExp ==> radix != 10) && InInt32(expn)
    ensures var shift := Shift(radix, |sig| - fraction, expn, isBinExp);
            NearestNumeral(Kept(sig, radix, 0), radix, fraction, expn, isBinExp, shift, a)
  {
    hide Power, Pow2, Value, DigitsValue, Nearest, MaxDigits, NearestNumeral, Sticky, ScaledNum, ScaledDen, RadixBits, Int32, Shift, BinaryExponent;
    TablesSupported(radix);
    var tmp0 := new Mpb(DBIGNUM_LEN_MAX);
    SingleZero(tmp0.tab[..tmp0.len]);
    var digitCount, extra := ReadDigits(tmp0, sig, radix);
    var expnOffset := digitCount - (|sig| - fraction);
    if radix != 10 {
      a := AtodBinary(tmp0, radix, sig, digitCount, extra, expnOffset, expn, isBinExp);
      BinaryAnswer(sig, radix, fraction, expn, isBinExp, digitCount, a);
    } else {
      a := AtodDecimal(tmp0, sig, digitCount, expnOffset, expn);
      DecimalAnswer(sig, fraction, expn, digitCount, a);
    }
  }

  lemma BinaryAnswer(sig: seq<nat>, radix: nat, fraction: int, expn: int, isBinExp: bool, k: nat, a: nat)
    requires Supported(radix) && radix != 10 && k <= |sig|
    requires var bits := RadixBits(radix);
             var e := BinaryExponent(bits, k - (|sig| - fraction), expn, isBinExp, k);
             var d := Power(radix, |sig| - k);
             d > 0 && ScaledDen(d, -e) > 0 && Nearest(ScaledNum(DigitsValue(sig, radix), -e), ScaledDen(d, -e), a)
    ensures NearestNumeral(sig, radix, fraction, expn, isBinExp, Shift(radix, |sig| - fraction, expn, isBinExp), a)
  {
    hide *;
    RadixIsPower(radix);
    var shift := Shift(radix, |sig| - fraction, expn, isBinExp);
    var e2, x := if isBinExp then expn else 0, (if isBinExp then 0 else expn) - fraction;
    var e := ShiftedExponent(radix, RadixBits(radix), |sig| - fraction, expn, isBinExp, k, |sig| - k, e2, x);
    BinaryNearest(sig, radix, |sig| - k, e, e2 + shift, x, a);
    NumeralIs(sig, radix, fraction, expn, isBinExp, shift, e2 + shift, x, a);
  }

  lemma RadixIsPower(radix: nat)
    requires Supported(radix) && radix != 10
    ensures radix == Pow2(RadixBits(radix)) && radix > 0
  {
    TablesSupported(radix);
  }

  lemma BinaryNearest(sig: seq<nat>, radix: nat, dropped: nat, e: int, e2: int, x: int, a: nat)
    requires radix == Pow2(RadixBits(radix)) && e == e2 + RadixBits(radix) * (x + dropped) && radix > 0
    requires var d := Power(radix, dropped); d > 0 && ScaledDen(d, -e) > 0 && Nearest(ScaledNum(DigitsValue(sig, radix), -e), ScaledDen(d, -e), a)
    ensures Den(e2, radix, x) > 0 && Nearest(Num(DigitsValue(sig, radix), e2, radix, x), Den(e2, radix, x), a)
  {
    hide Power, Pow2, DigitsValue, Nearest, Num, Den, ScaledNum, ScaledDen, RadixBits;
    var n := DigitsValue(sig, radix);
    DenPositive(e2, radix, x);
    BinarySame(n, radix, RadixBits(radix), dropped, e, e2, x);
    NearestRatio(ScaledNum(n, -e), ScaledDen(Power(radix, dropped), -e), Num(n, e2, radix, x), Den(e2, radix, x), a);
  }

  lemma NumeralIs(digits: seq<nat>, radix: nat, fraction: int, expn: int, isBinExp: bool, shift: int, e2: int, x: int, a: nat)
    requires e2 == (if isBinExp then expn else 0) + (if radix == 10 then 0 else shift)
    requires x == (if isBinExp then 0 else expn) - fraction + (if radix == 10 then shift else 0)
    requires Den(e2, radix, x) > 0
    ensures NearestNumeral(digits, radix, fraction, expn, isBinExp, shift, a) <==> Nearest(Num(DigitsValue(digits, radix), e2, radix, x), Den(e2, radix, x), a)
  {
    hide Num, Den, Nearest, DigitsValue;
  }

  lemma ShiftedExponent(radix: nat, bits: nat, before: int, expn: int, isBinExp: bool, k: nat, dropped: nat, e2: int, x: int) returns (e: int)
    requires radix != 10 && bits == RadixBits(radix)
    requires e2 == (if isBinExp then expn else 0) && x + dropped == (if isBinExp then 0 else expn) - (k - before)
    ensures e == BinaryExponent(bits, k - before, expn, isBinExp, k)
    ensures e == e2 + Shift(radix, before, expn, isBinExp) + bits * (x + dropped)
  {
    hide RadixBits, Int32;
    OffsetBits(bits, expn, k - before, e2, x, dropped, isBinExp);
    LeadBits(bits, k, before, k - before);
    e := BinaryExponent(bits, k - before, expn, isBinExp, k);
  }

  lemma DecimalAnswer(sig: seq<nat>, fraction: int, expn: int, k: nat, a: nat)
    requires k <= |sig| && Digits(sig, 10) && k == MinInt(|sig|, MaxDigits(10))
    requires var e := Int32(expn - (k - (|sig| - fraction)) + k) - k;
             NearestScaled(DigitsValue(sig[..k], 10), 10, e, a)
    ensures NearestNumeral(Kept(sig, 10, 0), 10, fraction, expn, false, Shift(10, |sig| - fraction, expn, false), a)
  {
    var kept := Kept(sig, 10, 0);
    assert kept[..k] == sig[..k] && forall j :: k <= j < |kept| ==> kept[j] == 0;
    hide Power, Pow2, DigitsValue, Nearest, MaxDigits, Num, Den, Int32, NearestNumeral, Kept;
    var shift := Shift(10, |sig| - fraction, expn, false);
    var n, v, x := DigitsValue(kept, 10), DigitsValue(sig[..k], 10), expn - fraction + shift;
    var e := x + (|sig| - k);
    DenPositive(0, 10, x);
    NothingDropped(kept, k);
    DecimalSame(n, v, |sig| - k, e, x);
    NearestRatio(Num(v, 0, 10, e), Den(0, 10, e), Num(n, 0, 10, x), Den(0, 10, x), a);
    NumeralIs(kept, 10, fraction, expn, false, shift, 0, x, a);
  }

  lemma OffsetBits(bits: nat, expn: int, expnOffset: int, e2: int, x: int, dropped: nat, isBinExp: bool)
    requires e2 == (if isBinExp then expn else 0) && x + dropped == (if isBinExp then 0 else expn) - expnOffset
    ensures (if isBinExp then expn else expn * bits) - expnOffset * bits == e2 + bits * (x + dropped)
  {
    if isBinExp {
      assert bits * (x + dropped) == bits * (-expnOffset);
    } else {
      assert bits * (x + dropped) == bits * (expn - expnOffset);
    }
  }

  lemma LeadBits(bits: nat, k: nat, before: int, expnOffset: int)
    requires expnOffset == k - before
    ensures before * bits == k * bits - expnOffset * bits
  {
  }

  lemma KeptBehind(digits: seq<nat>, radix: nat, n: nat)
    requires 2 <= radix <= JS_RADIX_MAX && n <= |digits| && (forall k :: 0 <= k < n ==> digits[k] == 0)
    ensures DigitsValue(Kept(digits[n..], radix, 0), radix) == DigitsValue(Kept(digits, radix, n), radix)
  {
    hide DigitsValue, MaxDigits;
    assert Kept(digits, radix, n)[n..] == Kept(digits[n..], radix, 0);
    SignificantValue(Kept(digits, radix, n), n, radix);
  }

  /** js_atod: `fraction` of the digits stand behind the point. The result is the pattern of the double that is
      nearest to what the digits that count denote, provided that the exponent of the first significant digit
      fits an int. If not, it is nearest to the number with the exponent that the int holds instead. */
  method JsAtod(neg: bool, radix: nat, digits: seq<nat>, fraction: nat, expn: int, isBinExp: bool) returns (r: nat)
    requires Supported(radix) && Digits(digits, radix) && fraction <= |digits| && (isBinExp ==> radix != 10) && InInt32(expn)
    ensures var a := if neg then r - SIGN_BIT else r;
            var lead := Lead(radix, |digits| - LeadingZeros(digits) - fraction, expn, isBinExp);
            var shift := Shift(radix, |digits| - LeadingZeros(digits) - fraction, expn, isBinExp);
            && a >= 0 && (InInt32(lead) ==> shift == 0)
            && (DigitsValue(digits, radix) == 0 ==> a == 0)
            && (DigitsValue(digits, radix) > 0 ==>
                  NearestNumeral(Kept(digits, radix, LeadingZeros(digits)), radix, fraction, expn, isBinExp, shift, a))
  {
    hide Power, Pow2, DigitsValue, Nearest, MaxDigits, Num, Den;
    var sigPos := 0;
    while sigPos < |digits| && digits[sigPos] == 0
      invariant 0 <= sigPos <= |digits| && forall k :: 0 <= k < sigPos ==> digits[k] == 0
    {
      sigPos := sigPos + 1;
    }
    LeadingZerosIs(digits, sigPos);
    SignificantValue(digits, sigPos, radix);
    DigitsZero(digits, radix);
    var a: nat := 0;
    if sigPos < |digits| {
      var sig := digits[sigPos..];
      a := AtodSignificant(radix, sig, fraction, expn, isBinExp);
      KeptBehind(digits, radix, sigPos);
    }
    r := a + if neg then SIGN_BIT else 0;
  }
}
