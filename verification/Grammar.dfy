/** What js_atod makes of every text in radix 10, in terms of the text. */
module Grammar {
  import opened Limbs
  import opened Bignum
  import opened Scaling
  import opened Ratios
  import opened Doubles
  import opened Atod
  import opened Numerals
  import opened Wrapping
  import opened Scanner

  predicate DecimalDigit(c: char) {
    '0' <= c <= '9'
  }

  predicate DigitText(t: string) {
    forall k :: 0 <= k < |t| ==> DecimalDigit(t[k])
  }

  function DigitSeq(t: string): (d: seq<nat>)
    requires DigitText(t)
    ensures |d| == |t| && Digits(d, 10)
  {
    seq(|t|, i requires 0 <= i < |t| => (t[i] - '0') as nat)
  }

  function ValueOf(t: string): nat
    requires DigitText(t)
  {
    if t == "" then 0 else 10 * ValueOf(t[..|t| - 1]) + (t[|t| - 1] - '0') as nat
  }

  predicate IsSign(t: string) {
    t == "" || t == "+" || t == "-"
  }

  predicate IsMark(t: string) {
    t == "e" || t == "E"
  }

  /** Digits, a point, more digits, an exponent. */
  datatype Numeral = Numeral(ip: string, point: bool, fp: string, mark: string, sign: string, xs: string)

  predicate WellFormed(n: Numeral) {
    && DigitText(n.ip) && DigitText(n.fp) && DigitText(n.xs) && IsSign(n.sign)
    && (n.ip != "" || n.fp != "") && (!n.point ==> n.fp == "")
    && if n.mark == "" then n.sign == "" && n.xs == "" else IsMark(n.mark) && n.xs != ""
  }

  function Mantissa(n: Numeral): string {
    n.ip + if n.point then "." + n.fp else ""
  }

  function Text(n: Numeral): string {
    Mantissa(n) + n.mark + n.sign + n.xs
  }

  /** The numeral does not go on. */
  predicate Stops(n: Numeral, rest: string) {
    rest != "" ==>
      && !DecimalDigit(rest[0])
      && (n.mark == "" ==> rest[0] != 'e' && rest[0] != 'E' && (rest[0] == '.' ==> n.point))
  }

  /** There is no numeral, and no infinity. */
  predicate NoNumeral(sign: string, rest: string) {
    && !("Infinity" <= rest)
    && (rest != "" ==> !DecimalDigit(rest[0]) && !(rest[0] == '.' && |rest| >= 2 && DecimalDigit(rest[1])))
    && (sign == "" ==> NoSign(rest))
  }

  predicate NoSign(rest: string) {
    rest != "" ==> rest[0] != '+' && rest[0] != '-'
  }

  /** An exponent without digits. */
  predicate NoExponent(sign: string, rest: string) {
    && (rest != "" ==> !DecimalDigit(rest[0]))
    && (sign == "" ==> NoSign(rest))
  }

  datatype Parts =
    | Infinite(sign: string, rest: string)
    | Nothing(sign: string, rest: string)
    | Broken(sign: string, n: Numeral, mark: string, expSign: string, rest: string)
    | Number(sign: string, n: Numeral, rest: string)

  predicate Fits(s: string, c: Parts) {
    && IsSign(c.sign)
    && match c
       case Infinite(sign, rest) => s == sign + "Infinity" + rest
       case Nothing(sign, rest) => s == sign + rest && NoNumeral(sign, rest)
       case Broken(sign, n, mark, expSign, rest) =>
         && WellFormed(n) && n.mark == "" && IsMark(mark) && IsSign(expSign) && NoExponent(expSign, rest)
         && s == sign + Text(n) + mark + expSign + rest
       case Number(sign, n, rest) => WellFormed(n) && Stops(n, rest) && s == sign + Text(n) + rest
  }

  // ----- values

  const MINUS: nat := 0x8000_0000_0000_0000
  const INFINITE: nat := 0x7ff0_0000_0000_0000

  function Signed(neg: bool, a: nat): nat {
    if neg then MINUS + a else a
  }

  function Exponent(n: Numeral): int
    requires WellFormed(n)
  {
    if n.sign == "-" then 0 - ValueOf(n.xs) else ValueOf(n.xs)
  }

  /** The digits, and the place of the first significant one. */
  function AllDigitsOf(n: Numeral): seq<nat>
    requires WellFormed(n)
  {
    DigitSeq(n.ip) + DigitSeq(n.fp)
  }

  function FirstPlace(n: Numeral): int
    requires WellFormed(n)
  {
    |n.ip| - LeadingZeros(AllDigitsOf(n))
  }

  /** The pattern that a numeral is read as. */
  ghost predicate ReadAs(n: Numeral, neg: bool, r: Double)
    requires WellFormed(n)
  {
    var d, x := ValueOf(n.ip + n.fp), Exponent(n);
    && r.Bits?
    && (d == 0 ==> r.pattern == Signed(neg, 0))
    && (d > 0 && x > 2147483639 ==> r.pattern == Signed(neg, INFINITE))
    && (d > 0 && x < -2147483639 ==> r.pattern == Signed(neg, 0))
    && (d > 0 && -2147483639 <= x <= 2147483639 ==>
          exists a: nat ::
            && r.pattern == Signed(neg, a)
            && NearestNumeral(Kept(AllDigitsOf(n), 10, LeadingZeros(AllDigitsOf(n))), 10, |n.fp|, x, false, Shift(10, FirstPlace(n), x, false), a))
  }

  ghost predicate Reads(c: Parts, r: Double, next: nat) {
    match c
    case Infinite(sign, _) => r == Bits(Signed(sign == "-", INFINITE)) && next == |sign| + 8
    case Nothing(sign, _) => r == NaN && next == |sign|
    case Broken(sign, n, mark, expSign, _) => r == NaN && next == |sign| + |Text(n)| + 1 + |expSign|
    case Number(sign, n, _) => WellFormed(n) && ReadAs(n, sign == "-", r) && next == |sign| + |Text(n)|
  }

  // ----- one definition of digits and the other

  lemma DigitsAre(t: string)
    requires DigitText(t)
    ensures AllDigits(t) && Vals(t) == DigitSeq(t) && Digits(DigitSeq(t), 10)
  {
  }

  lemma {:induction false} ValueIs(t: string)
    requires DigitText(t)
    ensures DigitsValue(DigitSeq(t), 10) == ValueOf(t)
    decreases |t|
  {
    if t != "" {
      var n := |t| - 1;
      ValueIs(t[..n]);
      assert DigitSeq(t)[..n] == DigitSeq(t[..n]);
    }
  }

  lemma DigitsJoin(a: string, b: string)
    requires DigitText(a) && DigitText(b)
    ensures DigitText(a + b) && DigitSeq(a + b) == DigitSeq(a) + DigitSeq(b)
  {
  }

  // ----- the scan of a numeral

  lemma ScannedVals(s: string, start: nat, p: nat, digits: seq<nat>, dot: int)
    requires Scanned(s, start, p, digits, dot)
    ensures dot < 0 ==> start <= p <= |s| && AllDigits(s[start..p]) && digits == Vals(s[start..p])
    ensures dot >= 0 ==> start <= dot < p <= |s| && AllDigits(s[start..dot]) && AllDigits(s[dot + 1..p]) && digits == Vals(s[start..dot]) + Vals(s[dot + 1..p])
  {
    hide Vals, AllDigits;
  }

  /** A run of digits does not reach beyond the first character that is none. */
  lemma RunEnds(s: string, from: nat, p: nat, i: nat)
    requires from <= p <= |s| && AllDigits(s[from..p]) && from <= i && !DecimalDigit(At(s, i))
    ensures p <= i
  {
    forall k | from <= k < p ensures DecimalDigit(s[k]) {
      assert s[k] == s[from..p][k - from];
    }
  }

  predicate Run(s: string, from: nat, to: nat) {
    from <= to <= |s| && forall k :: from <= k < to ==> DecimalDigit(s[k])
  }

  lemma PointFound(s: string, start: nat, p: nat, digits: seq<nat>, dot: int, i: nat, q: nat)
    requires Run(s, start, i) && i < q && Run(s, i + 1, q) && s[i] == '.' && (start < i || i + 1 < q)
    requires !DecimalDigit(At(s, q)) && Scanned(s, start, p, digits, dot)
    ensures dot == i && p == q
  {
    hide Vals, AllDigits;
    if dot < 0 {
      RunEnds(s, start, p, i);
    } else {
      RunEnds(s, start, dot, i);
      RunEnds(s, dot + 1, p, q);
    }
  }

  lemma NoPointFound(s: string, start: nat, p: nat, digits: seq<nat>, dot: int, i: nat)
    requires Run(s, start, i) && !DecimalDigit(At(s, i)) && Scanned(s, start, p, digits, dot)
    requires At(s, i) == '.' ==> start == i && !DecimalDigit(At(s, i + 1))
    ensures dot == -1 && p == i
  {
    hide Vals, AllDigits;
    if dot < 0 {
      RunEnds(s, start, p, i);
    } else {
      RunEnds(s, start, dot, i);
    }
  }

  /** Where the mantissa of a numeral ends, and what is behind it. */
  lemma MantissaPlaces(s: string, start: nat, n: Numeral, tail: string)
    requires start <= |s| && s[start..] == Mantissa(n) + tail && WellFormed(n)
    ensures var i, q := start + |n.ip|, start + |Mantissa(n)|;
            && i <= q <= |s| && Run(s, start, i) && s[start..i] == n.ip && s[q..] == tail
            && (n.point ==> i < q && s[i] == '.' && Run(s, i + 1, q) && s[i + 1..q] == n.fp) && (!n.point ==> q == i)
  {
    var i := start + |n.ip|;
    if n.point {
      var back := n.fp + tail;
      MantissaText(n, tail);
      SplitAt(s, start, n.ip, "." + back);
      SplitAt(s, i, ".", back);
      SplitAt(s, i + 1, n.fp, tail);
      RunIs(s, i + 1, n.fp);
    } else {
      MantissaText(n, tail);
      SplitAt(s, start, n.ip, tail);
    }
    RunIs(s, start, n.ip);
  }

  lemma MantissaText(n: Numeral, tail: string)
    requires WellFormed(n)
    ensures n.point ==> Mantissa(n) + tail == n.ip + ("." + (n.fp + tail)) && |Mantissa(n)| == |n.ip| + 1 + |n.fp|
    ensures !n.point ==> Mantissa(n) == n.ip
  {
    if n.point {
      assert Mantissa(n) == n.ip + ("." + n.fp);
      Assoc3(n.ip, "." + n.fp, tail);
      Assoc3(".", n.fp, tail);
    } else {
      assert Mantissa(n) == n.ip + "";
    }
  }

  lemma Assoc3(a: string, b: string, c: string)
    ensures (a + b) + c == a + (b + c)
  {
  }

  lemma SplitAt(s: string, p: nat, a: string, b: string)
    requires p <= |s| && s[p..] == a + b
    ensures p + |a| <= |s| && s[p..p + |a|] == a && s[p + |a|..] == b && (a != "" ==> s[p] == a[0])
  {
    assert s[p..p + |a|] == s[p..][..|a|];
    assert s[p + |a|..] == s[p..][|a|..];
    if a != "" { assert s[p] == s[p..][0]; }
  }

  lemma RunIs(s: string, p: nat, t: string)
    requires p + |t| <= |s| && s[p..p + |t|] == t && DigitText(t)
    ensures Run(s, p, p + |t|)
  {
    forall k | p <= k < p + |t| ensures DecimalDigit(s[k]) { assert s[k] == s[p..p + |t|][k - p]; }
  }

  /** What a tail must not be for the mantissa to end there. */
  predicate EndsMantissa(n: Numeral, tail: string) {
    tail != "" ==> !DecimalDigit(tail[0]) && (tail[0] == '.' ==> n.point)
  }

  lemma FirstOf(s: string, p: nat, t: string)
    requires p <= |s| && s[p..] == t
    ensures At(s, p) == if t == "" then '\0' else t[0]
    ensures At(s, p + 1) == if |t| <= 1 then '\0' else t[1]
  {
    if t != "" { assert s[p..][0] == s[p]; }
    if |t| > 1 { assert s[p..][1] == s[p + 1]; }
  }

  lemma MantissaScanned(s: string, start: nat, n: Numeral, tail: string, p: nat, digits: seq<nat>, dot: int)
    requires start <= |s| && s[start..] == Mantissa(n) + tail && WellFormed(n) && EndsMantissa(n, tail) && Scanned(s, start, p, digits, dot)
    ensures p == start + |Mantissa(n)| && digits == AllDigitsOf(n) && dot == if n.point then start + |n.ip| else -1
  {
    var i, q := start + |n.ip|, start + |Mantissa(n)|;
    MantissaPlaces(s, start, n, tail);
    FirstOf(s, q, tail);
    MantissaNotEmpty(n);
    hide Scanned, Mantissa, WellFormed, At;
    if n.point {
      PointFound(s, start, p, digits, dot, i, q);
    } else {
      NoPointFound(s, start, p, digits, dot, i);
    }
    ScannedVals(s, start, p, digits, dot);
    DigitsAre(n.ip);
    DigitsAre(n.fp);
  }

  lemma MantissaNotEmpty(n: Numeral)
    requires WellFormed(n)
    ensures |Mantissa(n)| > 0 && DigitText(n.ip) && DigitText(n.fp) && DigitText(n.xs) && (n.point ==> |n.ip| > 0 || |n.fp| > 0) && (!n.point ==> n.fp == "" && |n.ip| > 0)
    ensures n.point ==> |Mantissa(n)| == |n.ip| + 1 + |n.fp|
  {
  }

  lemma ExponentPlaces(s: string, p: nat, mark: string, sign: string, xs: string, rest: string)
    requires p <= |s| && s[p..] == mark + sign + xs + rest && |mark| == 1
    ensures var from, to := p + 1 + |sign|, p + 1 + |sign| + |xs|;
            && to <= |s| && s[p] == mark[0] && s[p + 1..] == sign + xs + rest && s[from..] == xs + rest && s[to..] == rest && s[from..to] == xs
  {
    Assoc3(mark + sign, xs, rest);
    Assoc3(mark, sign, xs + rest);
    Assoc3(sign, xs, rest);
    SplitAt(s, p, mark, sign + (xs + rest));
    SplitAt(s, p + 1, sign, xs + rest);
    SplitAt(s, p + 1 + |sign|, xs, rest);
  }

  /** The character behind the mark. */
  lemma AfterMark(s: string, p: nat, sign: string, xs: string, rest: string)
    requires p <= |s| && s[p..] == sign + xs + rest && IsSign(sign) && DigitText(xs) && (xs == "" && sign == "" ==> NoSign(rest))
    ensures (At(s, p) == '+' <==> sign == "+") && (At(s, p) == '-' <==> sign == "-")
  {
    FirstOf(s, p, sign + xs + rest);
  }

  /** The exponent. */
  lemma ExponentScanned(s: string, start: nat, p: nat, mark: string, sign: string, xs: string, rest: string)
    requires start < p <= |s| && s[p..] == mark + sign + xs + rest && IsMark(mark) && IsSign(sign) && DigitText(xs)
    requires (rest != "" ==> !DecimalDigit(rest[0])) && (xs == "" && sign == "" ==> NoSign(rest))
    ensures ExponentAt(s, p, start) && ExponentStart(s, p) == p + 1 + |sign| && (IsDigit(At(s, p + 1 + |sign|)) <==> xs != "")
    ensures forall expNeg, x, q :: ExponentRead(s, p, expNeg, x, q) ==> (expNeg <==> sign == "-") && x == ValueOf(xs) && q == p + 1 + |sign| + |xs|
  {
    hide ExponentRead, Vals, DigitsValue, AllDigits, ValueOf, DigitSeq, NoSign;
    ExponentPlaces(s, p, mark, sign, xs, rest);
    AfterMark(s, p + 1, sign, xs, rest);
    FirstOf(s, p + 1 + |sign|, xs + rest);
    forall expNeg, x, q | ExponentRead(s, p, expNeg, x, q) ensures (expNeg <==> sign == "-") && x == ValueOf(xs) && q == p + 1 + |sign| + |xs| {
      ExponentValue(s, p, sign, xs, rest, expNeg, x, q);
    }
  }

  lemma NoDigitAt(s: string, p: nat, rest: string)
    requires p <= |s| && s[p..] == rest && (rest != "" ==> !DecimalDigit(rest[0]))
    ensures !DecimalDigit(At(s, p))
  {
    FirstOf(s, p, rest);
  }

  lemma ExponentValue(s: string, p: nat, sign: string, xs: string, rest: string, expNeg: bool, x: nat, q: nat)
    requires ExponentRead(s, p, expNeg, x, q) && ExponentStart(s, p) == p + 1 + |sign| && DigitText(xs) && (rest != "" ==> !DecimalDigit(rest[0]))
    requires p + 1 + |sign| + |xs| <= |s| && s[p + 1 + |sign|..p + 1 + |sign| + |xs|] == xs && s[p + 1 + |sign| + |xs|..] == rest
    requires At(s, p + 1) == '-' <==> sign == "-"
    ensures (expNeg <==> sign == "-") && x == ValueOf(xs) && q == p + 1 + |sign| + |xs|
  {
    hide *;
    NoDigitAt(s, p + 1 + |sign| + |xs|, rest);
    DigitsAre(xs);
    ValueIs(xs);
    ExponentEnds(s, p, expNeg, x, q, p + 1 + |sign|, p + 1 + |sign| + |xs|);
  }

  lemma ExponentEnds(s: string, p: nat, expNeg: bool, x: nat, q: nat, from: nat, to: nat)
    requires ExponentRead(s, p, expNeg, x, q) && ExponentStart(s, p) == from <= to <= |s| && AllDigits(s[from..to]) && !DecimalDigit(At(s, to))
    ensures q == to && x == DigitsValue(Vals(s[from..to]), 10) && (expNeg <==> At(s, p + 1) == '-')
  {
    hide DigitsValue;
    RunEnds(s, from, q, to);
    RunEnds(s, from, to, q);
  }

  // ----- the four kinds of text

  lemma StartOf(s: string, sign: string, body: string)
    requires IsSign(sign) && s == sign + body && (sign == "" ==> NoSign(body))
    ensures SignLength(s) == |sign| <= |s| && s[|sign|..] == body && (At(s, 0) == '-' <==> sign == "-")
    ensures At(s, |sign|) == if body == "" then '\0' else body[0]
  {
    assert s[|sign|..] == body;
    FirstOf(s, |sign|, body);
    if sign == "" { assert s == body; }
  }

  lemma MantissaStart(n: Numeral, tail: string)
    requires WellFormed(n)
    ensures var body := Mantissa(n) + tail; NoSign(body) && body != "" && !("Infinity" <= body)
  {
    var body := Mantissa(n) + tail;
    assert body[0] == if n.ip != "" then n.ip[0] else '.';
  }

  lemma InfiniteRead(s: string, sign: string, rest: string, r: Double, next: nat, p: nat, digits: seq<nat>, dot: int, expNeg: bool, x: nat)
    requires IsSign(sign) && s == sign + "Infinity" + rest && Read(s, r, next, p, digits, dot, expNeg, x)
    ensures r == Bits(Signed(sign == "-", INFINITE)) && next == |sign| + 8
  {
    hide Scanned, ExponentRead, Converted;
    var body := "Infinity" + rest;
    assert s == sign + body;
    StartOf(s, sign, body);
    assert "Infinity" <= body;
  }

  lemma NothingRead(s: string, sign: string, rest: string, r: Double, next: nat, p: nat, digits: seq<nat>, dot: int, expNeg: bool, x: nat)
    requires IsSign(sign) && s == sign + rest && NoNumeral(sign, rest) && Read(s, r, next, p, digits, dot, expNeg, x)
    ensures r == NaN && next == |sign|
  {
    StartOf(s, sign, rest);
    FirstOf(s, |sign|, rest);
    hide ExponentRead, Converted;
    NoPointFound(s, |sign|, p, digits, dot, |sign|);
  }

  /** What is said of the text behind the digits. */
  ghost predicate ReadBehind(s: string, start: nat, neg: bool, r: Double, next: nat, p: nat, digits: seq<nat>, fraction: nat, expNeg: bool, x: nat) {
    && (!ExponentAt(s, p, start) ==> x == 0 && !expNeg && next == p)
    && (ExponentAt(s, p, start) && IsDigit(At(s, ExponentStart(s, p))) ==> ExponentRead(s, p, expNeg, x, next))
    && (ExponentAt(s, p, start) && !IsDigit(At(s, ExponentStart(s, p))) ==> next == ExponentStart(s, p))
    && (r.NaN? <==> p == start || (ExponentAt(s, p, start) && !IsDigit(At(s, ExponentStart(s, p)))))
    && (r.Bits? && x <= 2147483639 ==> fraction <= |digits| && Converted(neg, digits, fraction, if expNeg then -(x as int) else x, r.pattern))
    && (r.Bits? && x > 2147483639 ==>
          r.pattern == SignedBits(neg, if !expNeg && exists k :: 0 <= k < |digits| && digits[k] != 0 then INFINITY else 0))
  }

  lemma ReadSplit(s: string, start: nat, r: Double, next: nat, p: nat, digits: seq<nat>, dot: int, expNeg: bool, x: nat)
    requires Read(s, r, next, p, digits, dot, expNeg, x) && start == SignLength(s) <= |s| && !("Infinity" <= s[start..])
    ensures Scanned(s, start, p, digits, dot)
    ensures ReadBehind(s, start, At(s, 0) == '-', r, next, p, digits, if dot < 0 then 0 else Up(p - dot - 1), expNeg, x)
  {
    hide ExponentRead, Converted, ExponentAt, ExponentStart, IsDigit, SignLength, Vals, AllDigits;
  }

  lemma ReadMantissa(s: string, sign: string, n: Numeral, tail: string, r: Double, next: nat, p: nat, digits: seq<nat>, dot: int, expNeg: bool, x: nat)
    requires IsSign(sign) && WellFormed(n) && EndsMantissa(n, tail) && s == sign + (Mantissa(n) + tail) && Read(s, r, next, p, digits, dot, expNeg, x)
    ensures |sign| < p == |sign| + |Mantissa(n)| <= |s| && s[p..] == tail && digits == AllDigitsOf(n)
    ensures ReadBehind(s, |sign|, sign == "-", r, next, p, digits, |n.fp|, expNeg, x)
  {
    hide Read, Scanned, ReadBehind, Mantissa, WellFormed, EndsMantissa, SignLength, AllDigitsOf;
    MantissaStart(n, tail);
    StartOf(s, sign, Mantissa(n) + tail);
    MantissaPlaces(s, |sign|, n, tail);
    MantissaNotEmpty(n);
    ReadSplit(s, |sign|, r, next, p, digits, dot, expNeg, x);
    MantissaScanned(s, |sign|, n, tail, p, digits, dot);
  }

  lemma BrokenRead(s: string, sign: string, n: Numeral, mark: string, expSign: string, rest: string, r: Double, next: nat, p: nat, digits: seq<nat>, dot: int, expNeg: bool, x: nat)
    requires IsSign(sign) && WellFormed(n) && n.mark == "" && IsMark(mark) && IsSign(expSign) && NoExponent(expSign, rest)
    requires s == sign + Text(n) + mark + expSign + rest && Read(s, r, next, p, digits, dot, expNeg, x)
    ensures r == NaN && next == |sign| + |Text(n)| + 1 + |expSign|
  {
    var tail := mark + expSign + "" + rest;
    BrokenText(n, sign, mark, expSign, rest);
    hide Read, Scanned, ExponentRead, Converted, Text, Mantissa, WellFormed, ExponentAt, ExponentStart, IsDigit;
    ReadMantissa(s, sign, n, tail, r, next, p, digits, dot, expNeg, x);
    ExponentScanned(s, |sign|, p, mark, expSign, "", rest);
  }

  lemma BrokenText(n: Numeral, sign: string, mark: string, expSign: string, rest: string)
    requires WellFormed(n) && n.mark == "" && IsMark(mark)
    ensures var tail := mark + expSign + "" + rest;
            Text(n) == Mantissa(n) && EndsMantissa(n, tail) && sign + Text(n) + mark + expSign + rest == sign + (Mantissa(n) + tail)
  {
    assert Text(n) == Mantissa(n);
    assert mark + expSign + "" + rest == mark + (expSign + rest);
  }

  /** The parts of a numeral are found. */
  lemma NumberParts(s: string, sign: string, n: Numeral, rest: string, r: Double, next: nat, p: nat, digits: seq<nat>, dot: int, expNeg: bool, x: nat)
    requires IsSign(sign) && WellFormed(n) && Stops(n, rest) && s == sign + Text(n) + rest && Read(s, r, next, p, digits, dot, expNeg, x)
    ensures r.Bits? && next == |sign| + |Text(n)| && digits == AllDigitsOf(n) && x == ValueOf(n.xs) && (expNeg <==> n.sign == "-")
    ensures |n.fp| <= |digits| && (x <= 2147483639 ==> Converted(sign == "-", digits, |n.fp|, Exponent(n), r.pattern))
    ensures x > 2147483639 ==> r.pattern == SignedBits(sign == "-", if !expNeg && exists k :: 0 <= k < |digits| && digits[k] != 0 then INFINITY else 0)
  {
    hide *;
    var tail := n.mark + n.sign + n.xs + rest;
    TextIs(sign, n, rest);
    TailStops(n, rest);
    MarkOf(n);
    ReadMantissa(s, sign, n, tail, r, next, p, digits, dot, expNeg, x);
    if n.mark != "" {
      StopsDigit(n, rest);
      ExponentScanned(s, |sign|, p, n.mark, n.sign, n.xs, rest);
      BehindMark(s, |sign|, sign == "-", r, next, p, digits, |n.fp|, expNeg, x);
    } else {
      NoMark(s, |sign|, p, n, rest);
      BehindNothing(s, |sign|, sign == "-", r, next, p, digits, |n.fp|, expNeg, x);
    }
    ExponentOf(n, x, expNeg);
  }

  lemma ExponentOf(n: Numeral, x: nat, expNeg: bool)
    requires WellFormed(n) && x == ValueOf(n.xs) && (expNeg <==> n.sign == "-")
    ensures Exponent(n) == if expNeg then -(x as int) else x
  {
  }

  lemma BehindMark(s: string, start: nat, neg: bool, r: Double, next: nat, p: nat, digits: seq<nat>, fraction: nat, expNeg: bool, x: nat)
    requires ReadBehind(s, start, neg, r, next, p, digits, fraction, expNeg, x) && p > start && ExponentAt(s, p, start)
    requires IsDigit(At(s, ExponentStart(s, p)))
    ensures r.Bits? && ExponentRead(s, p, expNeg, x, next)
    ensures x <= 2147483639 ==> fraction <= |digits| && Converted(neg, digits, fraction, if expNeg then -(x as int) else x, r.pattern)
    ensures x > 2147483639 ==> r.pattern == SignedBits(neg, if !expNeg && exists k :: 0 <= k < |digits| && digits[k] != 0 then INFINITY else 0)
  {
    hide ExponentRead, Converted, ExponentAt, ExponentStart, IsDigit;
  }

  lemma BehindNothing(s: string, start: nat, neg: bool, r: Double, next: nat, p: nat, digits: seq<nat>, fraction: nat, expNeg: bool, x: nat)
    requires ReadBehind(s, start, neg, r, next, p, digits, fraction, expNeg, x) && p > start && !ExponentAt(s, p, start)
    ensures r.Bits? && x == 0 && !expNeg && next == p && fraction <= |digits| && Converted(neg, digits, fraction, 0, r.pattern)
  {
    hide ExponentRead, Converted, ExponentAt, ExponentStart, IsDigit;
  }

  lemma MarkOf(n: Numeral)
    requires WellFormed(n)
    ensures IsSign(n.sign) && DigitText(n.xs) && (n.mark != "" ==> IsMark(n.mark) && n.xs != "") && (n.mark == "" ==> n.sign == "" && n.xs == "" && ValueOf(n.xs) == 0 && Exponent(n) == 0)
    ensures |n.mark| <= 1 && (n.mark != "" ==> |n.mark| == 1)
    ensures |n.fp| <= |AllDigitsOf(n)|
  {
  }

  lemma StopsDigit(n: Numeral, rest: string)
    requires Stops(n, rest)
    ensures rest != "" ==> !DecimalDigit(rest[0])
  {
  }

  lemma NoMark(s: string, start: nat, p: nat, n: Numeral, rest: string)
    requires p <= |s| && s[p..] == rest && n.mark == "" && Stops(n, rest)
    ensures !ExponentAt(s, p, start)
  {
    FirstOf(s, p, rest);
  }

  lemma TextIs(sign: string, n: Numeral, rest: string)
    ensures sign + Text(n) + rest == sign + (Mantissa(n) + (n.mark + n.sign + n.xs + rest))
    ensures |Text(n)| == |Mantissa(n)| + |n.mark| + |n.sign| + |n.xs|
  {
    assert Text(n) + rest == Mantissa(n) + (n.mark + n.sign + n.xs + rest);
  }

  lemma TailStops(n: Numeral, rest: string)
    requires WellFormed(n) && Stops(n, rest)
    ensures EndsMantissa(n, n.mark + n.sign + n.xs + rest) && (n.mark == "" ==> n.mark + n.sign + n.xs + rest == rest)
  {
  }

  lemma NumberRead(s: string, sign: string, n: Numeral, rest: string, r: Double, next: nat, p: nat, digits: seq<nat>, dot: int, expNeg: bool, x: nat)
    requires IsSign(sign) && WellFormed(n) && Stops(n, rest) && s == sign + Text(n) + rest && Read(s, r, next, p, digits, dot, expNeg, x)
    ensures ReadAs(n, sign == "-", r) && next == |sign| + |Text(n)|
  {
    hide Read, Converted, Text, Stops, NearestNumeral, Kept, Shift, LeadingZeros, DigitsValue;
    NumberParts(s, sign, n, rest, r, next, p, digits, dot, expNeg, x);
    ValueOfDigits(n);
    NonzeroDigit(digits);
    if x <= 2147483639 { ConvertedRead(sign == "-", digits, |n.fp|, Exponent(n), r.pattern); }
  }

  lemma ValueOfDigits(n: Numeral)
    requires WellFormed(n)
    ensures DigitText(n.ip + n.fp) && DigitsValue(AllDigitsOf(n), 10) == ValueOf(n.ip + n.fp) && Digits(AllDigitsOf(n), 10)
  {
    hide DigitsValue;
    DigitsJoin(n.ip, n.fp);
    ValueIs(n.ip + n.fp);
    DigitsAre(n.ip + n.fp);
  }

  lemma NonzeroDigit(digits: seq<nat>)
    requires Digits(digits, 10)
    ensures DigitsValue(digits, 10) > 0 <==> exists k :: 0 <= k < |digits| && digits[k] != 0
  {
    hide DigitsValue;
    DigitsZero(digits, 10);
  }

  lemma ConvertedRead(neg: bool, digits: seq<nat>, fraction: nat, expn: int, r: nat)
    requires fraction <= |digits| && Converted(neg, digits, fraction, expn, r)
    ensures DigitsValue(digits, 10) == 0 ==> r == Signed(neg, 0)
    ensures DigitsValue(digits, 10) > 0 ==>
              exists a: nat ::
                && r == Signed(neg, a)
                && NearestNumeral(Kept(digits, 10, LeadingZeros(digits)), 10, fraction, expn, false, Shift(10, |digits| - LeadingZeros(digits) - fraction, expn, false), a)
  {
    hide NearestNumeral, Kept, Shift, LeadingZeros, DigitsValue;
    var shift := Shift(10, |digits| - LeadingZeros(digits) - fraction, expn, false);
    var a: nat :|
      && r == SignedBits(neg, a)
      && (DigitsValue(digits, 10) == 0 ==> a == 0)
      && (DigitsValue(digits, 10) > 0 ==>
            NearestNumeral(Kept(digits, 10, LeadingZeros(digits)), 10, fraction, expn, false, shift, a));
    assert r == Signed(neg, a);
  }

  // ----- every text is one of them

  function RunLength(t: string): (n: nat)
    ensures n <= |t| && DigitText(t[..n]) && (n < |t| ==> !DecimalDigit(t[n]))
  {
    if t == "" || !DecimalDigit(t[0]) then 0 else
      var n := 1 + RunLength(t[1..]);
      assert forall k :: 0 < k < n ==> t[k] == t[1..][..n - 1][k - 1];
      n
  }

  function SignOf(t: string): (r: string)
    ensures IsSign(r) && r <= t && (r == "" ==> NoSign(t))
  {
    if t != "" && (t[0] == '+' || t[0] == '-') then t[..1] else ""
  }

  /** The parts of a text that starts with a mantissa. */
  lemma MantissaOf(t: string) returns (n: Numeral, tail: string)
    requires t != "" && (DecimalDigit(t[0]) || (t[0] == '.' && |t| >= 2 && DecimalDigit(t[1])))
    ensures WellFormed(n) && n.mark == "" && t == Mantissa(n) + tail && EndsMantissa(n, tail)
  {
    var a := RunLength(t);
    var ip, after := t[..a], t[a..];
    assert t == ip + after;
    AfterRun(t, a);
    if after != "" && after[0] == '.' {
      var b := RunLength(after[1..]);
      AfterRun(after[1..], b);
      var fp := after[1..][..b];
      n, tail := Numeral(ip, true, fp, "", "", ""), after[1..][b..];
      assert after[1..] == fp + tail;
      assert after == "." + after[1..];
      PointSomewhere(t, a, b);
      MantissaText(n, tail);
    } else {
      n, tail := Numeral(ip, false, "", "", "", ""), after;
      MantissaText(n, tail);
    }
  }

  lemma AfterRun(t: string, a: nat)
    requires a == RunLength(t)
    ensures (t[a..] != "" ==> !DecimalDigit(t[a..][0])) && (a == 0 ==> t[a..] == t) && (t != "" && DecimalDigit(t[0]) ==> a > 0)
  {
  }

  lemma PointSomewhere(t: string, a: nat, b: nat)
    requires a == RunLength(t) && a < |t| && b == RunLength(t[a..][1..])
    requires DecimalDigit(t[0]) || (|t| >= 2 && DecimalDigit(t[1]))
    ensures t[..a] != "" || t[a..][1..][..b] != ""
  {
    if a == 0 {
      assert t[a..][1..] == t[1..];
    }
  }

  lemma EveryText(s: string) returns (c: Parts)
    ensures Fits(s, c)
  {
    hide Fits, Mantissa, EndsMantissa, WellFormed, DecimalDigit, SignOf, NoNumeral;
    var sign := SignOf(s);
    var body := s[|sign|..];
    SignFirst(s, sign);
    if "Infinity" <= body {
      c := Infinite(sign, body[8..]);
      InfiniteFits(s, sign, body);
    } else if body == "" || !(DecimalDigit(body[0]) || (body[0] == '.' && |body| >= 2 && DecimalDigit(body[1]))) {
      c := Nothing(sign, body);
      NothingFits(s, sign, body);
    } else {
      var n, tail := MantissaOf(body);
      c := TailOf(s, sign, n, tail);
    }
  }

  lemma SignFirst(s: string, sign: string)
    requires sign == SignOf(s)
    ensures IsSign(sign) && |sign| <= |s| && s == sign + s[|sign|..] && (sign == "" ==> NoSign(s[|sign|..]))
  {
    if sign == "" { assert s[0..] == s; }
  }

  lemma InfiniteFits(s: string, sign: string, body: string)
    requires IsSign(sign) && s == sign + body && "Infinity" <= body
    ensures Fits(s, Infinite(sign, body[8..]))
  {
    assert body == "Infinity" + body[8..];
    Assoc3(sign, "Infinity", body[8..]);
  }

  lemma NothingFits(s: string, sign: string, body: string)
    requires IsSign(sign) && s == sign + body && (sign == "" ==> NoSign(body)) && !("Infinity" <= body)
    requires body == "" || !(DecimalDigit(body[0]) || (body[0] == '.' && |body| >= 2 && DecimalDigit(body[1])))
    ensures Fits(s, Nothing(sign, body))
  {
  }

  lemma TailOf(s: string, sign: string, n: Numeral, tail: string) returns (c: Parts)
    requires IsSign(sign) && WellFormed(n) && n.mark == "" && s == sign + (Mantissa(n) + tail) && EndsMantissa(n, tail)
    ensures Fits(s, c)
  {
    hide Mantissa, WellFormed, Fits, EndsMantissa, NoExponent, DigitText, IsMark, IsSign, Text;
    if tail == "" || (tail[0] != 'e' && tail[0] != 'E') {
      c := Number(sign, n, tail);
      TailNone(s, sign, n, tail);
    } else {
      var mark, expSign, xs, rest := SplitTail(tail);
      if xs == "" {
        c := Broken(sign, n, mark, expSign, rest);
        TailBroken(s, sign, n, mark, expSign, rest);
      } else {
        c := Number(sign, n.(mark := mark, sign := expSign, xs := xs), rest);
        TailExponent(s, sign, n, mark, expSign, xs, rest);
      }
    }
  }

  lemma SplitTail(tail: string) returns (mark: string, expSign: string, xs: string, rest: string)
    requires tail != "" && (tail[0] == 'e' || tail[0] == 'E')
    ensures IsMark(mark) && IsSign(expSign) && DigitText(xs) && (rest != "" ==> !DecimalDigit(rest[0])) && (xs == "" ==> NoExponent(expSign, rest))
    ensures tail == mark + (expSign + (xs + rest)) && (xs == "" ==> tail == mark + (expSign + rest))
  {
    mark, expSign := tail[..1], SignOf(tail[1..]);
    var digits := tail[1..][|expSign|..];
    var k := RunLength(digits);
    xs, rest := digits[..k], digits[k..];
    assert digits == xs + rest;
    assert tail[1..] == expSign + digits;
    assert tail == mark + tail[1..];
    assert mark == [tail[0]];
    if k == 0 { assert rest == digits; }
  }

  lemma TailNone(s: string, sign: string, n: Numeral, tail: string)
    requires IsSign(sign) && WellFormed(n) && n.mark == "" && s == sign + (Mantissa(n) + tail) && EndsMantissa(n, tail)
    requires tail == "" || (tail[0] != 'e' && tail[0] != 'E')
    ensures Fits(s, Number(sign, n, tail))
  {
    hide Mantissa;
    assert Text(n) == Mantissa(n);
    assert s == sign + Mantissa(n) + tail;
  }

  lemma TailBroken(s: string, sign: string, n: Numeral, mark: string, expSign: string, rest: string)
    requires IsSign(sign) && WellFormed(n) && n.mark == "" && s == sign + (Mantissa(n) + (mark + (expSign + rest)))
    requires IsMark(mark) && IsSign(expSign) && NoExponent(expSign, rest)
    ensures Fits(s, Broken(sign, n, mark, expSign, rest))
  {
    hide Mantissa;
    var m := Mantissa(n);
    assert Text(n) == m + "" + "" + "" == m;
    Assoc3(sign + m + mark, expSign, rest);
    Assoc3(sign + m, mark, expSign + rest);
    Assoc3(sign, m, mark + (expSign + rest));
  }

  lemma TailExponent(s: string, sign: string, n: Numeral, mark: string, expSign: string, xs: string, rest: string)
    requires IsSign(sign) && WellFormed(n) && n.mark == "" && s == sign + (Mantissa(n) + (mark + (expSign + (xs + rest))))
    requires IsMark(mark) && IsSign(expSign) && DigitText(xs) && xs != "" && (rest != "" ==> !DecimalDigit(rest[0]))
    ensures Fits(s, Number(sign, n.(mark := mark, sign := expSign, xs := xs), rest))
  {
    var n' := n.(mark := mark, sign := expSign, xs := xs);
    assert Mantissa(n') == Mantissa(n);
    hide Mantissa;
    var m := Mantissa(n);
    Assoc3(m + mark + expSign, xs, rest);
    Assoc3(m + mark, expSign, xs + rest);
    Assoc3(m, mark, expSign + (xs + rest));
    Assoc3(sign, m + mark + expSign + xs, rest);
    assert Text(n') == m + mark + expSign + xs;
  }

  // ----- js_atod

  lemma ReadsFit(s: string, c: Parts, r: Double, next: nat)
    requires IsRead(s, r, next) && Fits(s, c)
    ensures Reads(c, r, next)
  {
    hide Read, Text, WellFormed, Stops, NoNumeral, NoExponent, ReadAs;
    var p: nat, digits: seq<nat>, dot: int, expNeg: bool, x: nat :| Read(s, r, next, p, digits, dot, expNeg, x);
    match c
    case Infinite(sign, rest) => InfiniteRead(s, sign, rest, r, next, p, digits, dot, expNeg, x);
    case Nothing(sign, rest) => NothingRead(s, sign, rest, r, next, p, digits, dot, expNeg, x);
    case Broken(sign, n, mark, expSign, rest) => BrokenRead(s, sign, n, mark, expSign, rest, r, next, p, digits, dot, expNeg, x);
    case Number(sign, n, rest) => NumberRead(s, sign, n, rest, r, next, p, digits, dot, expNeg, x);
  }

  /** js_atod of a text in radix 10, whichever way the text is taken apart; it can be taken apart. */
  method ReadText(s: string) returns (r: Double, next: nat)
    requires |s| < 0x8000_0000
    ensures forall c :: Fits(s, c) ==> Reads(c, r, next)
    ensures exists c :: Fits(s, c)
  {
    hide Reads, Fits, IsRead;
    r, next := AtodText(s);
    forall c | Fits(s, c) ensures Reads(c, r, next) {
      ReadsFit(s, c, r, next);
    }
    ghost var c := EveryText(s);
  }

  /** A numeral of up to 38 significant digits whose first one is at a place that fits an int: the double that is
      nearest to what it denotes. */
  lemma PlainNumeral(n: Numeral, neg: bool, r: Double) returns (a: nat)
    requires WellFormed(n) && ReadAs(n, neg, r) && ValueOf(n.ip + n.fp) > 0
    requires |n.ip| + |n.fp| - LeadingZeros(AllDigitsOf(n)) <= 38
    requires -0x8000_0000 <= Exponent(n) + FirstPlace(n) < 0x8000_0000 && -2147483639 <= Exponent(n) <= 2147483639
    ensures r == Bits(Signed(neg, a)) && NearestScaled(ValueOf(n.ip + n.fp), 10, Exponent(n) - |n.fp|, a)
  {
    hide NearestNumeral, NearestScaled, Kept, LeadingZeros, DigitsValue, ValueOf, MaxDigits, Exponent, WellFormed;
    var d := AllDigitsOf(n);
    ValueOfDigits(n);
    MaxDigitsEntries();
    KeptAll(d);
    a :| r.pattern == Signed(neg, a) && NearestNumeral(Kept(d, 10, LeadingZeros(d)), 10, |n.fp|, Exponent(n), false, Shift(10, FirstPlace(n), Exponent(n), false), a);
    NoShift(FirstPlace(n), Exponent(n));
    NumeralScaled(d, |n.fp|, Exponent(n), 0, a);
  }

  lemma KeptAll(d: seq<nat>)
    requires |d| - LeadingZeros(d) <= 38
    ensures Kept(d, 10, LeadingZeros(d)) == d
  {
    MaxDigitsEntries();
    hide MaxDigits, LeadingZeros;
  }

  lemma NoShift(place: int, x: int)
    requires -0x8000_0000 <= x + place < 0x8000_0000
    ensures Shift(10, place, x, false) == 0
  {
  }
}
