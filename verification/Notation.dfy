/** Which notation js_dtoa chooses, in terms of the number that is written. */
module Notation {
  import opened Limbs
  import opened Bignum
  import opened Scaling
  import opened Ratios
  import opened Doubles
  import opened Rounding
  import opened Numerals
  import opened Dtoa
  import opened Printing
  import opened Logs
  import opened Layout
  import opened FastPath
  import opened Writer

  /** v * 10^f < 10^k */
  predicate BelowTen(v: nat, f: int, k: int) {
    v * Power(10, if f > k then f - k else 0) < Power(10, if k > f then k - f else 0)
  }

  /** Numbers below 10^-6 and from 10^k on are written with an exponent, unless that is required or forbidden. */
  predicate WithExponent(mode: ExpMode, v: nat, f: int, k: int) {
    match mode
    case Enabled => true
    case Disabled => false
    case Auto => BelowTen(v, f, -6) || !BelowTen(v, f, k)
  }

  lemma BelowIs(v: nat, p: nat, exp: int, k: int)
    requires p >= 1 && Power(10, p - 1) <= v < Power(10, p)
    ensures BelowTen(v, exp - p, k) <==> exp <= k
  {
    PowerOne(10);
    hide Power;
    var f := exp - p;
    PowerPositive(10, p - 1);
    if f > k {
      PowerPositive(10, f - k);
      MulPositive(v, Power(10, f - k));
    } else if exp <= k {
      PowerMonotone(10, p, k - f);
    } else {
      PowerMonotone(10, k - f, p - 1);
    }
  }

  predicate NoE(t: string) {
    forall k :: 0 <= k < |t| ==> t[k] != 'e'
  }

  lemma WrittenNoE(v: nat, n: nat)
    ensures NoE(Written(v, n))
  {
  }

  lemma PositionalNoE(v: nat, p: nat, exp: int)
    ensures NoE(Positional(v, p, exp))
  {
    WrittenNoE(v, p);
    hide Written;
    var t := Written(v, p);
    if exp > 0 {
      var dot := MinInt(p, exp);
      assert NoE(WithDot(t, dot));
    }
  }

  lemma ScientificE(v: nat, p: nat, exp: int)
    requires p >= 1
    ensures !NoE(Scientific(v, p, exp))
  {
    hide Written, WithDot, ExponentText;
    var t := WithDot(Written(v, p), 1);
    assert Scientific(v, p, exp)[|t|] == 'e';
  }

  lemma NotationIs(v: nat, p: nat, exp: int, mode: ExpMode, expMax: int)
    requires p >= 1 && Power(10, p - 1) <= v < Power(10, p)
    ensures !NoE(NumberText(v, p, exp, mode, expMax)) <==> WithExponent(mode, v, exp - p, expMax)
  {
    hide Power, Scientific, Positional, NoE;
    BelowIs(v, p, exp, -6);
    BelowIs(v, p, exp, expMax);
    ScientificE(v, p, exp);
    PositionalNoE(v, p, exp);
  }

  /** Free format: 10^21. */
  lemma FreeNotation(m: nat, e: int, mant: nat, p: nat, exp: int, mode: ExpMode, t: string)
    requires FreeResult(m, e, mant, p, exp, mode, t)
    ensures !NoE(t) <==> WithExponent(mode, mant, exp - p, 21)
  {
    hide Power, Mant, Settled, Suffices, NumberText, NoE;
    NotationIs(mant, p, exp, mode, 21);
  }

  /** Fixed format: the number of digits. */
  lemma FixedNotation(m: nat, e: int, n: nat, mode: ExpMode)
    requires Double(m, e) && n >= 1
    ensures !NoE(FixedText(m, e, n, mode)) <==> WithExponent(mode, Mant(m, e, n, FixedExp(m, e, n), NearestAway), FixedExp(m, e, n) - n, n)
  {
    hide Power, Mant, NumberText, NoE, Exp0, FloorLog, Double, Pow2, WithExponent;
    DoubleFits(m, e);
    Exp0Is(e);
    MantSettles(m, e, n, Exp0(e), NearestAway);
    NotationIs(Mant(m, e, n, FixedExp(m, e, n), NearestAway), n, FixedExp(m, e, n), mode, n);
  }

  /** The texts of a zero. */
  lemma ZeroTexts(neg: bool, n: nat, mode: ExpMode, minusZero: bool)
    ensures var sign, suffix := if neg && minusZero then "-" else "", if mode.Enabled? then "e+0" else "";
            && ZeroText(neg, 0, Free, mode, minusZero) == sign + "0" + suffix
            && (1 <= n <= 101 ==> ZeroText(neg, n, Fixed, mode, minusZero) == sign + "0" + (if n == 1 then "" else "." + Zeros(n - 1)) + suffix)
            && (n <= 101 ==> ZeroText(neg, n, Frac, mode, minusZero) == sign + "0" + (if n == 0 then "" else "." + Zeros(n)) + suffix)
  {
    var sign := if neg && minusZero then "-" else "";
    ZeroNumber(sign, 1, mode, 21);
    if 1 <= n <= 101 { ZeroNumber(sign, n, mode, n); }
    ZeroNumber(sign, n + 1, mode, 21);
    hide NumberText;
  }

  lemma ZeroNumber(sign: string, p: nat, mode: ExpMode, expMax: int)
    requires p >= 1 && expMax >= 1
    ensures sign + NumberText(0, p, 1, mode, expMax)
            == sign + "0" + (if p == 1 then "" else "." + Zeros(p - 1)) + if mode.Enabled? then "e+0" else ""
  {
    WrittenZero(p);
    DecimalZero();
    hide Written, DecimalText;
    var t := WithDot(Zeros(p), 1);
    assert t == "0" + if p == 1 then "" else "." + Zeros(p - 1);
    if mode.Enabled? {
      assert ExponentText(0) == "+" + "0";
      assert "e" + ("+" + "0") == "e+0";
      assert NumberText(0, p, 1, mode, expMax) == t + "e+0";
      assert sign + (t + "e+0") == sign + t + "e+0";
    } else {
      NoZeroBehind(p);
      assert NumberText(0, p, 1, mode, expMax) == t;
    }
  }

  lemma NoZeroBehind(p: nat)
    requires p >= 1
    ensures Zeros(Up(1 - p)) == "" && MinInt(p, 1) == 1
  {
  }

  lemma DecimalZero()
    ensures DecimalText(0) == "0"
  {
    WrittenZero(1);
    assert Zeros(1) == "0";
  }
}
