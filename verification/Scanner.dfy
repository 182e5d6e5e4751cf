/** js_atod on a text in radix 10, without flags: sign, digits, point and exponent. */
module Scanner {
  import opened Limbs
  import opened Atod
  import opened Numerals

  /** The terminating null character stands for everything behind the text. */
  function At(s: string, i: nat): char {
    if i < |s| then s[i] else '\0'
  }

  function ToDigit(c: char): nat {
    if '0' <= c <= '9' then (c - '0') as nat
    else if 'A' <= c <= 'Z' then (c - 'A') as nat + 10
    else if 'a' <= c <= 'z' then (c - 'a') as nat + 10
    else 36
  }

  predicate IsDigit(c: char) {
    '0' <= c <= '9'
  }

  predicate AllDigits(t: string) {
    forall k :: 0 <= k < |t| ==> IsDigit(t[k])
  }

  function Vals(t: string): (d: seq<nat>)
    requires AllDigits(t)
    ensures |d| == |t| && Digits(d, 10)
  {
    seq(|t|, i requires 0 <= i < |t| => (t[i] - '0') as nat)
  }

  /** A point counts behind a digit, or in front of one. */
  predicate PointAt(s: string, p: nat, start: nat) {
    At(s, p) == '.' && (p > start || ToDigit(At(s, p + 1)) < 10)
  }

  /** What has been read from `start` to `p`: digits, with the point at `dot` or none yet. */
  ghost predicate Scanning(s: string, start: nat, p: nat, digits: seq<nat>, dot: int) {
    if dot < 0 then
      dot == -1 && start <= p <= |s| && AllDigits(s[start..p]) && digits == Vals(s[start..p])
    else
      && start <= dot < p <= |s| && PointAt(s, dot, start)
      && AllDigits(s[start..dot]) && AllDigits(s[dot + 1..p]) && digits == Vals(s[start..dot]) + Vals(s[dot + 1..p])
  }

  /** The same, and there is no more to read. */
  ghost predicate Scanned(s: string, start: nat, p: nat, digits: seq<nat>, dot: int) {
    Scanning(s, start, p, digits, dot) && !IsDigit(At(s, p)) && (dot < 0 ==> !PointAt(s, p, start))
  }

  lemma ScanPoint(s: string, start: nat, p: nat, digits: seq<nat>)
    requires Scanning(s, start, p, digits, -1) && PointAt(s, p, start)
    ensures Scanning(s, start, p + 1, digits, p) && |digits| == p - start && p < |s|
  {
    assert Vals(s[start..p]) + Vals(s[p + 1..p + 1]) == Vals(s[start..p]);
  }

  lemma ScanDigit(s: string, start: nat, p: nat, digits: seq<nat>, dot: int)
    requires Scanning(s, start, p, digits, dot) && ToDigit(At(s, p)) < 10
    ensures p < |s| && Scanning(s, start, p + 1, digits + [ToDigit(At(s, p))], dot)
  {
    var from := if dot < 0 then start else dot + 1;
    assert s[from..p + 1] == s[from..p] + [s[p]];
    assert Vals(s[from..p + 1]) == Vals(s[from..p]) + [ToDigit(s[p])];
  }

  lemma ScanStart(s: string, start: nat)
    requires start <= |s|
    ensures Scanning(s, start, start, [], -1)
  {
  }

  lemma ScanEnds(s: string, start: nat, p: nat, digits: seq<nat>, dot: int)
    requires Scanning(s, start, p, digits, dot)
    requires (PointAt(s, p, start) && dot >= 0) || (!PointAt(s, p, start) && ToDigit(At(s, p)) >= 10) || (dot >= 0 && ToDigit(At(s, p)) >= 10)
    ensures Scanned(s, start, p, digits, dot)
  {
    hide Scanning;
  }

  /** What the loops know of the point. */
  predicate DotIs(dotPos: int, dot: int, start: nat) {
    dotPos == (if dot < 0 then -1 else dot - start) && dot >= -1 && (dot >= 0 ==> dotPos >= 0)
  }

  /** js_atod skips leading zeros. */
  method SkipZeros(s: string, start: nat) returns (p: nat, digits: seq<nat>, dotPos: int, ghost dot: int)
    requires start <= |s|
    ensures start <= p <= |s| && Scanning(s, start, p, digits, dot) && DotIs(dotPos, dot, start)
  {
    hide Scanning, PointAt, At;
    ScanStart(s, start);
    p, digits, dotPos, dot := start, [], -1, -1;
    while true
      invariant start <= p <= |s| && Scanning(s, start, p, digits, dot) && DotIs(dotPos, dot, start)
      decreases |s| - p
    {
      if PointAt(s, p, start) {
        if dotPos >= 0 {
          break;
        }
        ScanPoint(s, start, p, digits);
        dotPos, dot := |digits|, p;
        p := p + 1;
      }
      if At(s, p) != '0' {
        break;
      }
      ScanDigit(s, start, p, digits, dot);
      p, digits := p + 1, digits + [0];
    }
  }

  /** And reads the significant digits; the point may still come. */
  method ScanDigits(s: string, start: nat) returns (p: nat, digits: seq<nat>, dotPos: int, ghost dot: int)
    requires start <= |s|
    ensures Scanned(s, start, p, digits, dot) && start <= p <= |s|
    ensures dotPos == if dot < 0 then -1 else dot - start
  {
    hide Scanning, PointAt, At, Scanned, ToDigit;
    p, digits, dotPos, dot := SkipZeros(s, start);
    while true
      invariant start <= p <= |s| && Scanning(s, start, p, digits, dot) && DotIs(dotPos, dot, start)
      decreases |s| - p
    {
      if PointAt(s, p, start) {
        if dotPos >= 0 {
          ScanEnds(s, start, p, digits, dot);
          break;
        }
        ScanPoint(s, start, p, digits);
        dotPos, dot := |digits|, p;
        p := p + 1;
      }
      var c := ToDigit(At(s, p));
      if c >= 10 {
        ScanEnds(s, start, p, digits, dot);
        break;
      }
      ScanDigit(s, start, p, digits, dot);
      p, digits := p + 1, digits + [c];
    }
  }

  // ----- the exponent

  const EXPN_LIMIT := 214748363

  /** The digits of the exponent; from a certain size on it is only noted that it is too large. */
  method ScanExponent(s: string, p0: nat) returns (p: nat, expn: nat, overflow: bool)
    requires p0 < |s| && IsDigit(At(s, p0))
    ensures p0 < p <= |s| && AllDigits(s[p0..p]) && !IsDigit(At(s, p))
    ensures expn <= 2147483639 && (overflow <==> DigitsValue(Vals(s[p0..p]), 10) > 2147483639)
    ensures !overflow ==> expn == DigitsValue(Vals(s[p0..p]), 10)
  {
    p, expn, overflow := p0 + 1, ToDigit(At(s, p0)), false;
    FirstValue(s, p0);
    while IsDigit(At(s, p))
      invariant p0 < p <= |s| && AllDigits(s[p0..p])
      invariant expn <= 2147483639 && (overflow <==> DigitsValue(Vals(s[p0..p]), 10) > 2147483639)
      invariant !overflow ==> expn == DigitsValue(Vals(s[p0..p]), 10)
      decreases |s| - p
    {
      NextValue(s, p0, p);
      if !overflow {
        if expn > EXPN_LIMIT {
          overflow := true;
        } else {
          expn := expn * 10 + ToDigit(At(s, p));
        }
      }
      p := p + 1;
    }
  }

  lemma FirstValue(s: string, p: nat)
    requires p < |s| && IsDigit(s[p])
    ensures AllDigits(s[p..p + 1]) && DigitsValue(Vals(s[p..p + 1]), 10) == ToDigit(s[p])
  {
    assert Vals(s[p..p + 1])[..0] == [];
  }

  lemma NextValue(s: string, p0: nat, p: nat)
    requires p0 <= p < |s| && AllDigits(s[p0..p]) && IsDigit(s[p])
    ensures AllDigits(s[p0..p + 1]) && DigitsValue(Vals(s[p0..p + 1]), 10) == DigitsValue(Vals(s[p0..p]), 10) * 10 + ToDigit(s[p])
  {
    assert s[p0..p + 1] == s[p0..p] + [s[p]];
    var d := Vals(s[p0..p + 1]);
    assert d[..|d| - 1] == Vals(s[p0..p]);
  }

  // ----- js_atod

  datatype Double = NaN | Bits(pattern: nat)

  /** The exponent part that starts at `p`, if it does. */
  predicate ExponentAt(s: string, p: nat, start: nat) {
    (At(s, p) == 'e' || At(s, p) == 'E') && p > start
  }

  /** Where the digits of the exponent start. */
  function ExponentStart(s: string, p: nat): nat {
    if At(s, p + 1) == '+' || At(s, p + 1) == '-' then p + 2 else p + 1
  }

  /** What has been read of an exponent part. */
  ghost predicate ExponentRead(s: string, p: nat, expNeg: bool, x: nat, q: nat) {
    var from := ExponentStart(s, p);
    from <= q <= |s| && AllDigits(s[from..q]) && !IsDigit(At(s, q)) && x == DigitsValue(Vals(s[from..q]), 10) && (expNeg <==> At(s, p + 1) == '-')
  }

  function SignedBits(neg: bool, a: nat): nat {
    a + if neg then SIGN_BIT else 0
  }

  function SignLength(s: string): nat {
    if At(s, 0) == '+' || At(s, 0) == '-' then 1 else 0
  }

  /** What js_atod makes of a text in radix 10, and where it stops. `p` is where the digits end, `x` the exponent
      without its sign. */
  ghost predicate Read(s: string, r: Double, next: nat, p: nat, digits: seq<nat>, dot: int, expNeg: bool, x: nat) {
    var start, neg := SignLength(s), At(s, 0) == '-';
    if At(s, start) != '0' && start <= |s| && "Infinity" <= s[start..] then r == Bits(SignedBits(neg, INFINITY)) && next == start + 8
    else
      && Scanned(s, start, p, digits, dot)
      && (!ExponentAt(s, p, start) ==> x == 0 && !expNeg && next == p)
      && (ExponentAt(s, p, start) && IsDigit(At(s, ExponentStart(s, p))) ==> ExponentRead(s, p, expNeg, x, next))
      && (ExponentAt(s, p, start) && !IsDigit(At(s, ExponentStart(s, p))) ==> next == ExponentStart(s, p))
      && (r.NaN? <==> p == start || (ExponentAt(s, p, start) && !IsDigit(At(s, ExponentStart(s, p)))))
      && (r.Bits? && x <= 2147483639 ==>
            var fraction := if dot < 0 then 0 else p - dot - 1;
            fraction <= |digits| && Converted(neg, digits, fraction, if expNeg then -(x as int) else x, r.pattern))
      && (r.Bits? && x > 2147483639 ==>
            r.pattern == SignedBits(neg, if !expNeg && exists k :: 0 <= k < |digits| && digits[k] != 0 then INFINITY else 0))
  }

  ghost predicate IsRead(s: string, r: Double, next: nat) {
    exists p: nat, digits: seq<nat>, dot: int, expNeg: bool, x: nat :: Read(s, r, next, p, digits, dot, expNeg, x)
  }

  /** js_atod of a text in radix 10. */
  method AtodText(s: string) returns (r: Double, next: nat)
    requires |s| < 0x8000_0000
    ensures IsRead(s, r, next)
  {
    hide Read;
    ghost var p, digits, dot, expNeg, x;
    r, next, p, digits, dot, expNeg, x := AtodParts(s);
  }

  method AtodParts(s: string) returns (r: Double, next: nat, ghost p: nat, ghost digits: seq<nat>, ghost dot: int, ghost expNeg: bool, ghost x: nat)
    requires |s| < 0x8000_0000
    ensures Read(s, r, next, p, digits, dot, expNeg, x)
  {
    hide Scanned, ExponentRead, Converted, NearestNumeral, DigitsValue, LeadingZeros, Kept, Shift, Lead;
    p, digits, dot, expNeg, x := 0, [], -1, false, 0;
    var neg, start := false, 0;
    if At(s, 0) == '+' {
      start := 1;
    } else if At(s, 0) == '-' {
      neg, start := true, 1;
    }
    if At(s, start) != '0' && "Infinity" <= s[start..] {
      r, next := Bits(SignedBits(neg, INFINITY)), start + 8;
      return;
    }
    var p1, digits1, dotPos;
    p1, digits1, dotPos, dot := ScanDigits(s, start);
    p, digits, next := p1, digits1, p1;
    ScannedShape(s, start, p, digits, dot);
    var fraction := if dotPos < 0 then 0 else |digits1| - dotPos;
    var expn: int := 0;
    if ExponentAt(s, p1, start) {
      var p2 := ExponentStart(s, p1);
      if !IsDigit(At(s, p2)) {
        r, next := NaN, p2;
        return;
      }
      var p3, e, overflow := ScanExponent(s, p2);
      var negative := At(s, p1 + 1) == '-';
      next := p3;
      expNeg, x := negative, DigitsValue(Vals(s[p2..p3]), 10);
      ExponentIs(s, p, expNeg, x, p3);
      expn := if negative then -(e as int) else e;
      if overflow { AllZeros(digits); }
      if overflow && exists k :: 0 <= k < |digits1| && digits1[k] != 0 {
        r := Bits(SignedBits(neg, if negative then 0 else INFINITY));
        return;
      }
    }
    if p1 == start {
      r := NaN;
      return;
    }
    var a := JsAtod(neg, 10, digits1, fraction, expn, false);
    ConvertedIs(neg, digits, fraction, expn, a, if neg then a - SIGN_BIT else a);
    r := Bits(a);
  }

  lemma AllZeros(digits: seq<nat>)
    requires Digits(digits, 10)
    ensures (exists k :: 0 <= k < |digits| && digits[k] != 0) || DigitsValue(digits, 10) == 0
  {
    hide DigitsValue;
    DigitsZero(digits, 10);
  }

  lemma ConvertedIs(neg: bool, digits: seq<nat>, fraction: nat, expn: int, r: nat, a: nat)
    requires fraction <= |digits| && r == SignedBits(neg, a)
    requires DigitsValue(digits, 10) == 0 ==> a == 0
    requires var shift := Shift(10, |digits| - LeadingZeros(digits) - fraction, expn, false);
             DigitsValue(digits, 10) > 0 ==> NearestNumeral(Kept(digits, 10, LeadingZeros(digits)), 10, fraction, expn, false, shift, a)
    ensures Converted(neg, digits, fraction, expn, r)
    ensures DigitsValue(digits, 10) == 0 ==> r == SignedBits(neg, 0)
  {
    hide NearestNumeral, DigitsValue, LeadingZeros, Kept, Shift;
  }

  /** js_atod's answer for the parts of a numeral. */
  ghost predicate Converted(neg: bool, digits: seq<nat>, fraction: nat, expn: int, r: nat)
    requires fraction <= |digits|
  {
    var shift := Shift(10, |digits| - LeadingZeros(digits) - fraction, expn, false);
    exists a: nat ::
      && r == SignedBits(neg, a)
      && (DigitsValue(digits, 10) == 0 ==> a == 0)
      && (DigitsValue(digits, 10) > 0 ==>
            NearestNumeral(Kept(digits, 10, LeadingZeros(digits)), 10, fraction, expn, false, shift, a))
  }

  lemma ExponentIs(s: string, p: nat, expNeg: bool, x: nat, q: nat)
    requires var from := ExponentStart(s, p); from <= q <= |s| && AllDigits(s[from..q]) && !IsDigit(At(s, q)) && x == DigitsValue(Vals(s[from..q]), 10)
    requires expNeg <==> At(s, p + 1) == '-'
    ensures ExponentRead(s, p, expNeg, x, q)
  {
  }

  lemma ScannedShape(s: string, start: nat, p: nat, digits: seq<nat>, dot: int)
    requires Scanned(s, start, p, digits, dot)
    ensures Digits(digits, 10) && |digits| <= |s| && start <= p <= |s|
    ensures if dot < 0 then true else |digits| - (dot - start) == p - dot - 1 && start <= dot < p
  {
  }
}
