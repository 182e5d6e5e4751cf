/** How js_dtoa writes digits and an exponent: numbers without leading zeros, the two notations, the sign. */
module Layout {
  import opened Limbs
  import opened Rounding
  import opened Bignum
  import opened Scaling
  import opened Ratios
  import opened Numerals
  import opened Printing

  // ----- integers in decimal

  function Len(v: nat): (n: nat)
    ensures n >= 1
  {
    if v < 10 then 1 else 1 + Len(v / 10)
  }

  /** A number without leading zeros. */
  function DecimalText(v: nat): string {
    Written(v, Len(v))
  }

  lemma {:induction false} LenBounds(v: nat)
    ensures v < Power(10, Len(v)) && (v > 0 ==> Power(10, Len(v) - 1) <= v)
  {
    PowerOne(10);
    if v >= 10 {
      LenBounds(v / 10);
      var n := Len(v / 10);
      PowerAdd(10, 1, n);
      PowerAdd(10, 1, n - 1);
    }
  }

  lemma LenIs(v: nat, n: nat)
    requires n >= 1 && v < Power(10, n) && (n > 1 ==> Power(10, n - 1) <= v)
    ensures Len(v) == n
  {
    hide Power;
    LenBounds(v);
    PowerOne(10);
    var k := Len(v);
    if k < n {
      PowerMonotone(10, k, n - 1);
    } else if n < k {
      PowerMonotone(10, n, k - 1);
    }
  }

  lemma LenSmall(v: nat, n: nat)
    requires n >= 1 && v < Power(10, n)
    ensures Len(v) <= n
  {
    hide Power;
    LenBounds(v);
    if Len(v) > n && v > 0 { PowerMonotone(10, n, Len(v) - 1); }
  }

  /** The digits in front. */
  lemma WrittenSplit(v: nat, len: nat, n: nat)
    requires n <= len
    ensures Power(10, n) > 0 && Written(v, len) == Written(v / Power(10, n), len - n) + Written(v % Power(10, n), n)
  {
    hide DigitsOf, Power;
    DigitsOfSplit(v, len, n);
  }

  /** One digit more than needed is a zero in front; otherwise the first digit is none. */
  lemma FirstDigit(v: nat, n: nat)
    requires v < Power(10, n + 1)
    ensures v < Power(10, n) ==> Written(v, n + 1) == "0" + Written(v, n)
    ensures v >= Power(10, n) ==> Written(v, n + 1)[0] != '0'
  {
    WrittenOne(v, n);
    hide Power, Written;
    DivMod(v, Power(10, n));
    PowerAdd(10, 1, n);
    PowerOne(10);
    QuotientDigit(v, Power(10, n), v / Power(10, n), v % Power(10, n));
  }

  lemma WrittenOne(v: nat, n: nat)
    requires v < Power(10, n + 1)
    ensures Power(10, n) > 0 && v / Power(10, n) < 10
    ensures Written(v, n + 1) == [DigitChar(v / Power(10, n))] + Written(v % Power(10, n), n)
  {
    hide Power, Written;
    PowerPositive(10, n);
    PowerAdd(10, 1, n);
    PowerOne(10);
    WrittenSplit(v, n + 1, n);
    TopDigit(v, Power(10, n));
    WrittenNext(v / Power(10, n), 0);
    WrittenNone(v / Power(10, n) / 10);
  }

  lemma TopDigit(v: nat, p: nat)
    requires p > 0 && v < 10 * p
    ensures v / p < 10 && (v / p) % 10 == v / p
  {
    DivMod(v, p);
    var w := v / p;
    if w >= 10 { MulMono(10, w, p); }
  }

  lemma QuotientDigit(v: nat, p: nat, q: nat, r: nat)
    requires p > 0 && v == q * p + r && r < p
    ensures v < p ==> q == 0 && r == v
    ensures v >= p ==> q > 0
  {
    if q > 0 { MulMono(1, q, p); }
  }

  // ----- copying

  /** memcpy of a text, or of the part that was filled in. */
  method PutText(buf: array<char>, q: nat, t: string) returns (q': nat)
    requires q + |t| <= buf.Length
    modifies buf
    ensures q' == q + |t| && buf[..q'] == old(buf[..q]) + t
  {
    var i := 0;
    while i < |t|
      invariant 0 <= i <= |t| && buf[..q + i] == old(buf[..q]) + t[..i]
    {
      buf[q + i] := t[i];
      i := i + 1;
      assert buf[..q + i] == buf[..q + i - 1] + [t[i - 1]];
    }
    assert t[..|t|] == t;
    q' := q + |t|;
  }

  function Zeros(n: nat): (t: string)
    ensures |t| == n
  {
    seq(n, _ => '0')
  }

  method PutZeros(buf: array<char>, q: nat, n: nat) returns (q': nat)
    requires q + n <= buf.Length
    modifies buf
    ensures q' == q + n && buf[..q'] == old(buf[..q]) + Zeros(n)
  {
    var i := 0;
    while i < n
      invariant 0 <= i <= n && buf[..q + i] == old(buf[..q]) + Zeros(i)
    {
      buf[q + i] := '0';
      i := i + 1;
      assert buf[..q + i] == buf[..q + i - 1] + "0";
      assert Zeros(i) == Zeros(i - 1) + "0";
    }
    q' := q + n;
  }

  /** u32toa: from the right into a small buffer, then copied. */
  method U32ToA(buf: array<char>, q: nat, n0: nat) returns (q': nat)
    requires n0 < BASE && q + Len(n0) <= buf.Length
    modifies buf
    ensures q' == q + |DecimalText(n0)| && buf[..q'] == old(buf[..q]) + DecimalText(n0)
  {
    hide Written, Power;
    TenLimb(n0);
    var buf1 := new char[10];
    var n, i := n0, 9;
    ghost var len := 1;
    WrittenNext(n, 0);
    WrittenNone(n / 10);
    buf1[i] := DigitChar(n % 10);
    n := n / 10;
    assert buf1[9..] == [DigitChar(n0 % 10)];
    while n != 0
      invariant 0 <= i <= 9 && 1 <= len && i == 10 - len && Len(n0) == len + (if n == 0 then 0 else Len(n))
      invariant buf[..] == old(buf[..]) && buf1[i..] == Written(n0, len) && Power(10, len) > 0 && n == n0 / Power(10, len)
      decreases n
    {
      i := i - 1;
      PutFront(n0, len, n);
      ghost var was := buf1[i + 1..];
      buf1[i] := DigitChar(n % 10);
      assert buf1[i..] == [DigitChar(n % 10)] + was;
      n := n / 10;
      len := len + 1;
    }
    q' := PutText(buf, q, buf1[i..]);
  }

  lemma TenLimb(n: nat)
    requires n < BASE
    ensures Len(n) <= 10 && Power(10, 1) > 0 && n / 10 == n / Power(10, 1)
  {
    TenNine();
    PowerOne(10);
    PowerAdd(10, 9, 1);
    LenSmall(n, 10);
  }

  /** One more digit in front of the lowest `len`. */
  lemma PutFront(n0: nat, len: nat, n: nat)
    requires Power(10, len) > 0 ==> n == n0 / Power(10, len)
    ensures Power(10, len) > 0 && Power(10, len + 1) > 0 && n / 10 == n0 / Power(10, len + 1)
    ensures Written(n0, len + 1) == [DigitChar(n % 10)] + Written(n0, len)
  {
    hide Power, Written;
    PowerPositive(10, len);
    PowerPositive(10, len + 1);
    WrittenSplit(n0, len + 1, len);
    WrittenSplit(n0, len, len);
    WrittenNext(n, 0);
    WrittenNone(n / 10);
    WrittenNone(n);
    DivMod(n0, Power(10, len));
    PowerAdd(10, 1, len);
    PowerOne(10);
    TenMore(n0, Power(10, len), n, n0 % Power(10, len));
  }

  lemma TenMore(v: nat, p: nat, q: nat, r: nat)
    requires p > 0 && v == q * p + r && r < p
    ensures v / (10 * p) == q / 10
  {
    var x, z := q / 10, q % 10;
    assert q == 10 * x + z;
    assert (10 * x + z) * p == x * (10 * p) + z * p;
    MulMono(z, 9, p);
    DivideIs(v, 10 * p, x, z * p + r);
  }

  // ----- the two notations

  function ExponentText(exp: int): string {
    if exp < 0 then "-" + DecimalText(-exp) else "+" + DecimalText(exp)
  }

  /** d.ddde+x */
  function Scientific(v: nat, p: nat, exp: int): string
    requires p >= 1
  {
    WithDot(Written(v, p), 1) + "e" + ExponentText(exp - 1)
  }

  /** 0.000ddd, dd.dd or ddd000 */
  function Positional(v: nat, p: nat, exp: int): string {
    if exp <= 0 then "0." + Zeros(-exp) + Written(v, p)
    else WithDot(Written(v, p), MinInt(p, exp)) + Zeros(Up(exp - p))
  }

  datatype ExpMode = Auto | Enabled | Disabled

  predicate UsesExponent(mode: ExpMode, exp: int, expMax: int) {
    mode.Enabled? || (mode.Auto? && (exp <= -6 || exp > expMax))
  }

  /** `p` digits of `v` with the point `exp` digits from the left. */
  function NumberText(v: nat, p: nat, exp: int, mode: ExpMode, expMax: int): string
    requires p >= 1
  {
    if UsesExponent(mode, exp, expMax) then Scientific(v, p, exp) else Positional(v, p, exp)
  }

  /** js_dtoa from `output` on, in radix 10. */
  method PutNumber(buf: array<char>, q: nat, tmp1: Mpb, p: nat, exp: int, mode: ExpMode, expMax: int) returns (q': nat)
    requires p >= 1 && tmp1.Valid() && -BASE < exp - 1 < BASE
    requires q + |NumberText(tmp1.Val(), p, exp, mode, expMax)| <= buf.Length
    modifies buf, tmp1, tmp1.tab
    ensures q' == q + |NumberText(old(tmp1.Val()), p, exp, mode, expMax)|
    ensures buf[..q'] == old(buf[..q]) + NumberText(old(tmp1.Val()), p, exp, mode, expMax)
  {
    hide Value, Written, WithDot;
    if UsesExponent(mode, exp, expMax) {
      q' := PutScientific(buf, q, tmp1, p, exp);
    } else {
      q' := PutPositional(buf, q, tmp1, p, exp);
    }
  }

  lemma WithDotLength(t: string, dot: nat)
    requires dot <= |t|
    ensures |WithDot(t, dot)| == |t| + if dot == |t| then 0 else 1
  {
  }

  method PutScientific(buf: array<char>, q: nat, tmp1: Mpb, p: nat, exp: int) returns (q': nat)
    requires p >= 1 && tmp1.Valid() && -BASE < exp - 1 < BASE && q + |Scientific(tmp1.Val(), p, exp)| <= buf.Length
    modifies buf, tmp1, tmp1.tab
    ensures q' == q + |Scientific(old(tmp1.Val()), p, exp)| && buf[..q'] == old(buf[..q]) + Scientific(old(tmp1.Val()), p, exp)
  {
    hide Value, Written, WithDot;
    ghost var front, t := buf[..q], WithDot(Written(tmp1.Val(), p), 1);
    WithDotLength(Written(tmp1.Val(), p), 1);
    var len := OutputDigits(buf, q, tmp1, p, 1);
    q' := PutText(buf, q + len, "e");
    var e := exp - 1;
    if e < 0 {
      q' := PutText(buf, q', "-");
      e := -e;
    } else {
      q' := PutText(buf, q', "+");
    }
    q' := U32ToA(buf, q', e);
    Joined(front, t, "e", if exp - 1 < 0 then "-" else "+", DecimalText(e));
  }

  lemma Joined(a: string, b: string, c: string, d: string, e: string)
    ensures a + b + c + d + e == a + (b + c + (d + e))
  {
  }

  method PutPositional(buf: array<char>, q: nat, tmp1: Mpb, p: nat, exp: int) returns (q': nat)
    requires tmp1.Valid() && q + |Positional(tmp1.Val(), p, exp)| <= buf.Length
    modifies buf, tmp1, tmp1.tab
    ensures q' == q + |Positional(old(tmp1.Val()), p, exp)| && buf[..q'] == old(buf[..q]) + Positional(old(tmp1.Val()), p, exp)
  {
    hide Value, Written, WithDot;
    ghost var front, t := buf[..q], Written(tmp1.Val(), p);
    if exp <= 0 {
      q' := PutText(buf, q, "0.");
      q' := PutZeros(buf, q', -exp);
      WithDotLength(t, p);
      var len := OutputDigits(buf, q', tmp1, p, p);
      q' := q' + len;
      WithDotWhole(t);
      Joined3(front, "0.", Zeros(-exp), t);
    } else {
      WithDotLength(t, MinInt(p, exp));
      var len := OutputDigits(buf, q, tmp1, p, MinInt(p, exp));
      q' := PutZeros(buf, q + len, if exp > p then exp - p else 0);
      Joined2(front, WithDot(t, MinInt(p, exp)), Zeros(Up(exp - p)));
    }
  }

  lemma WithDotWhole(t: string)
    ensures WithDot(t, |t|) == t
  {
  }

  lemma Joined2(a: string, b: string, c: string)
    ensures a + b + c == a + (b + c)
  {
  }

  lemma Joined3(a: string, b: string, c: string, d: string)
    ensures a + b + c + d == a + (b + c + d)
  {
  }

  /** How long the texts are. */
  lemma NumberLength(v: nat, p: nat, exp: int, mode: ExpMode, expMax: int)
    requires p >= 1 && -999 <= exp - 1 <= 999
    ensures UsesExponent(mode, exp, expMax) ==> |NumberText(v, p, exp, mode, expMax)| <= p + 6
    ensures !UsesExponent(mode, exp, expMax) ==> |NumberText(v, p, exp, mode, expMax)| <= if exp <= 0 then 2 - exp + p else if p > exp then p + 1 else exp
  {
    assert Power(10, 3) == 1000;
    LenSmall(if exp - 1 < 0 then 1 - exp else exp - 1, 3);
    hide Written, Power, WithDot;
    WithDotLength(Written(v, p), 1);
    if exp > 0 { WithDotLength(Written(v, p), MinInt(p, exp)); }
  }
}
