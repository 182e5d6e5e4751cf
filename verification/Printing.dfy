/** js_dtoa and js_atod together, digits in a buffer, and the formats with a given number of digits. */
module Printing {
  import opened Limbs
  import opened Rounding
  import opened Bignum
  import opened Scaling
  import opened Ratios
  import opened Doubles
  import opened Atod
  import opened Numerals
  import opened Dtoa

  // ----- the bit pattern of a double

  /** The pattern that js_dtoa takes apart, without its sign. */
  function Bits(m: nat, e: int): nat
    requires Double(m, e)
  {
    if e < E_MIN then m / Pow2(E_MIN - e) else (e + 1022) * Pow2(52) + m % Pow2(52)
  }

  lemma BitsDecoded(m: nat, e: int)
    requires Double(m, e)
    ensures Bits(m, e) < INFINITY && SameNumber(Decode(Bits(m, e)).0, Decode(Bits(m, e)).1, m, e - 53)
  {
    Pow52();
    ZeroShift();
    if e < E_MIN {
      hide Pow2;
      var k := E_MIN - e;
      var t := m / Pow2(k);
      DivMod(m, Pow2(k));
      Pow2Monotone(1, k);
      HalfPower(1);
      MulMono(2, Pow2(k), t);
      DivideIs(t, Pow2(52), 0, t);
    } else {
      NormalPattern(m, e);
      hide Pow2;
    }
  }

  /** Patterns of the same number are the same. */
  lemma DecodeUnique(a: nat, a': nat, t: nat, q: int)
    requires a < INFINITY && a' < INFINITY
    requires SameNumber(Decode(a).0, Decode(a).1, t, q) && SameNumber(Decode(a').0, Decode(a').1, t, q)
    ensures a == a'
  {
    Pow52();
    hide Pow2, SameNumber, Decode;
    DecodeParts(a);
    DecodeParts(a');
    var (f, x) := Decode(a);
    var (f', x') := Decode(a');
    if f >= Pow2(52) && f' >= Pow2(52) {
      NormalUnique(f, x, f', x', t, q);
    } else if f >= Pow2(52) {
      SubnormalLess(f', f, x, t, q);
    } else if f' >= Pow2(52) {
      SubnormalLess(f, f', x', t, q);
    } else {
      var z := if q < -1074 then q else -1074;
      SameAt(f, -1074, t, q, z);
      SameAt(f', -1074, t, q, z);
      ScaleOrder(f, f', Pow2(-1074 - z));
    }
  }

  lemma DecodeParts(a: nat)
    ensures var (f, x) := Decode(a);
            && f < Pow2(53) && x >= -1074
            && (f < Pow2(52) ==> x == -1074 && a == f)
            && (f >= Pow2(52) ==> a == (x + 1075) * Pow2(52) + (f - Pow2(52)))
  {
    Pow52();
    hide Pow2;
    DivMod(a, Pow2(52));
  }

  lemma SubnormalLess(f: nat, g: nat, x: int, t: nat, q: int)
    requires f < Pow2(52) <= g && x >= -1074 && SameNumber(f, -1074, t, q)
    ensures !SameNumber(g, x, t, q)
  {
    hide Pow2, SameNumber;
    var z := if q < -1074 then q else -1074;
    SameAt(f, -1074, t, q, z);
    SameAt(g, x, t, q, z);
    Pow2Monotone(-1074 - z, x - z);
    MulMono(Pow2(-1074 - z), Pow2(x - z), g);
    ScaleOrder(f, g, Pow2(-1074 - z));
  }

  /** A number that is read as a double, and of which a pattern is the nearest: it is the pattern of that
      double. */
  lemma ReadsBackBits(mant: nat, k: int, m: nat, e: int, a: nat)
    requires Double(m, e) && ReadsBack(mant, k, m, e) && Den(0, 10, k) > 0 && Nearest(Num(mant, 0, 10, k), Den(0, 10, k), a)
    ensures a == Bits(m, e)
  {
    DoubleExponent(m, e);
    BitsDecoded(m, e);
    hide Pow2, Num, Den, SameNumber, Decode, AtLeast, InUnits, TooLarge, Bits;
    var n, d := Num(mant, 0, 10, k), Den(0, 10, k);
    var b :| Binade(n, d, b) && RoundedIn(n, d, b, m, e);
    var c :| Binade(n, d, c) && NearestIn(n, d, c, a);
    BinadeUnique(n, d, b, c);
    var t, q := InUnits(n, d, Quantum(b)), Quantum(b);
    Pow2Monotone(0, 52);
    ZeroShift();
    LargeIs(m, e, t, q);
    SameVia(Decode(Bits(m, e)).0, Decode(Bits(m, e)).1, m, e - 53, t, q);
    DecodeUnique(a, Bits(m, e), t, q);
  }

  lemma SameVia(f: nat, x: int, m: nat, y: int, t: nat, q: int)
    requires SameNumber(f, x, m, y) && SameNumber(m, y, t, q)
    ensures SameNumber(f, x, t, q)
  {
    hide Pow2, SameNumber;
    var z := if x < y then (if x < q then x else q) else (if y < q then y else q);
    SameAt(f, x, m, y, z);
    SameAt(m, y, t, q, z);
    SameAt(f, x, t, q, z);
  }

  // ----- digits in a buffer

  /** The `len` lowest decimal digits, most significant first. */
  function DigitsOf(v: nat, len: nat): (s: seq<nat>)
    ensures |s| == len && Digits(s, 10)
  {
    if len == 0 then [] else DigitsOf(v / 10, len - 1) + [v % 10]
  }

  lemma {:induction false} DigitsOfValue(v: nat, len: nat)
    requires v < Power(10, len)
    ensures DigitsValue(DigitsOf(v, len), 10) == v
    decreases len
  {
    if len > 0 {
      var s := DigitsOf(v / 10, len - 1);
      DigitsOfValue(v / 10, len - 1);
      assert (s + [v % 10])[..len - 1] == s;
    }
  }

  /** Digits of a quotient and of a remainder. */
  lemma {:induction false} DigitsOfSplit(v: nat, len: nat, n: nat)
    requires n <= len
    ensures Power(10, n) > 0 && DigitsOf(v, len) == DigitsOf(v / Power(10, n), len - n) + DigitsOf(v % Power(10, n), n)
    decreases n
  {
    PowerPositive(10, n);
    if n == 0 {
      DivideIs(v, 1, v, 0);
      assert DigitsOf(v, len) + [] == DigitsOf(v, len);
    } else {
      DigitsOfSplit(v / 10, len - 1, n - 1);
      PowerPositive(10, n - 1);
      SplitTen(v, Power(10, n - 1));
      assert DigitsOf(v % Power(10, n), n) == DigitsOf((v % Power(10, n)) / 10, n - 1) + [(v % Power(10, n)) % 10];
    }
  }

  lemma SplitTen(v: nat, p: nat)
    requires p > 0
    ensures v / 10 / p == v / (10 * p) && (v % (10 * p)) / 10 == (v / 10) % p && (v % (10 * p)) % 10 == v % 10
  {
    DivMod(v / 10, p);
    SplitTenParts(v, p, v / 10 / p, (v / 10) % p);
  }

  lemma SplitTenParts(v: nat, p: nat, q: nat, r: nat)
    requires p > 0 && v / 10 == q * p + r && r < p
    ensures v / (10 * p) == q && (v % (10 * p)) / 10 == r && (v % (10 * p)) % 10 == v % 10
  {
    var z := v % 10;
    assert v == 10 * (q * p + r) + z;
    assert q * (10 * p) == 10 * (q * p);
    DivideIs(v, 10 * p, q, 10 * r + z);
  }

  /** Taking `k` digits off on the right; the quotient by 10^9 serves while no more digits are wanted after. */
  lemma Chunk(v: nat, len: nat, k: nat)
    requires k <= len && k <= 9 && (k == 9 || k == len)
    ensures DigitsOf(v, len) == DigitsOf(v / 1000000000, len - k) + DigitsOf(v % 1000000000, k)
  {
    hide DigitsOf;
    TenNine();
    if k == 9 {
      DigitsOfSplit(v, len, 9);
    } else {
      LowDigits(v, len, 9);
      DigitsOfNone(v / 1000000000);
      assert [] + DigitsOf(v, len) == DigitsOf(v, len);
    }
  }

  lemma TenNine()
    ensures Power(10, 9) == 1000000000
  {
    assert Power(10, 3) == 1000;
    PowerAdd(10, 3, 3);
    PowerAdd(10, 6, 3);
  }

  /** The lowest digits depend on the lowest digits only. */
  lemma {:induction false} LowDigits(v: nat, len: nat, n: nat)
    requires len <= n
    ensures Power(10, n) > 0 && DigitsOf(v, len) == DigitsOf(v % Power(10, n), len)
    decreases len
  {
    PowerPositive(10, n);
    if len > 0 {
      LowDigits(v / 10, len - 1, n - 1);
      SplitTen(v, Power(10, n - 1));
    }
  }

  lemma DigitsOfNone(v: nat)
    ensures DigitsOf(v, 0) == []
  {
  }

  // ----- characters in a buffer

  function DigitChar(d: nat): char
    requires d < 10
  {
    '0' + d as char
  }

  function Chars(s: seq<nat>): (t: string)
    requires Digits(s, 10)
    ensures |t| == |s|
  {
    seq(|s|, i requires 0 <= i < |s| => DigitChar(s[i]))
  }

  /** The `len` lowest decimal digits in characters. */
  function Written(v: nat, len: nat): (t: string)
    ensures |t| == len
  {
    Chars(DigitsOf(v, len))
  }

  lemma WrittenNext(v: nat, len: nat)
    ensures Written(v, len + 1) == Written(v / 10, len) + [DigitChar(v % 10)]
  {
  }

  lemma WrittenNone(v: nat)
    ensures Written(v, 0) == ""
  {
  }

  lemma WrittenChunk(v: nat, len: nat, k: nat)
    requires k <= len && k <= 9 && (k == 9 || k == len)
    ensures Written(v, len) == Written(v / 1000000000, len - k) + Written(v % 1000000000, k)
  {
    hide DigitsOf;
    Chunk(v, len, k);
  }

  /** The point goes in front of the last |t| - dot characters; without any there is no point. */
  function WithDot(t: string, dot: nat): string
    requires dot <= |t|
  {
    if dot == |t| then t else t[..dot] + "." + t[dot..]
  }

  /** u32toa_len: the `len` lowest digits of `n0`, from `start` on. */
  method U32ToALen(buf: array<char>, start: nat, n0: nat, len: nat)
    requires start + len <= buf.Length
    modifies buf
    ensures buf[..] == Patched(old(buf[..]), start, Written(n0, len))
  {
    hide Written, Patched;
    var n, i := n0, len;
    ghost var was := buf[..];
    ghost var done := "";
    WrittenNone(n);
    assert Written(n0, len) + "" == Written(n0, len);
    PatchNothing(was, start + len);
    while i > 0
      invariant 0 <= i <= len && |done| == len - i && Written(n, i) + done == Written(n0, len)
      invariant buf[..] == Patched(was, start + i, done)
    {
      i := i - 1;
      var digit := n % 10;
      WrittenNext(n, i);
      n := n / 10;
      ghost var c := DigitChar(digit);
      assert Written(n, i) + ([c] + done) == (Written(n, i) + [c]) + done;
      PatchOne(was, start + i, c, done);
      SetChar(buf, start + i, DigitChar(digit));
      done := [c] + done;
    }
    WrittenNone(n);
    assert "" + done == done;
  }

  method SetChar(buf: array<char>, i: nat, c: char)
    requires i < buf.Length
    modifies buf
    ensures buf[..] == old(buf[..])[i := c]
  {
    buf[i] := c;
  }

  /** `t` with `r` written over it, from `at` on. */
  function Patched(t: string, at: nat, r: string): (u: string)
    requires at + |r| <= |t|
    ensures |u| == |t|
  {
    t[..at] + r + t[at + |r|..]
  }

  lemma PatchNothing(t: string, at: nat)
    requires at <= |t|
    ensures Patched(t, at, "") == t
  {
  }

  lemma PatchOne(t: string, at: nat, c: char, r: string)
    requires at + 1 + |r| <= |t|
    ensures Patched(t, at + 1, r)[at := c] == Patched(t, at, [c] + r)
  {
  }

  lemma PatchBefore(t: string, at: nat, r0: string, r: string)
    requires at + |r0| + |r| <= |t|
    ensures Patched(Patched(t, at + |r0|, r), at, r0) == Patched(t, at, r0 + r)
  {
  }

  /** memmove by one to the right. */
  method MoveRight(buf: array<char>, at: nat, end: nat)
    requires at <= end < buf.Length
    modifies buf
    ensures buf[..at] == old(buf[..at]) && buf[at + 1..end + 1] == old(buf[at..end])
  {
    var i := end;
    while i > at
      invariant at <= i <= end
      invariant buf[..i] == old(buf[..i]) && buf[i + 1..end + 1] == old(buf[i..end])
    {
      buf[i] := buf[i - 1];
      i := i - 1;
    }
  }

  /** output_digits in radix 10: nine digits at a time from the right, then the point. */
  method OutputDigits(buf: array<char>, q: nat, a: Mpb, nDigits1: nat, dotPos: nat) returns (len: nat)
    requires dotPos <= nDigits1 && q + nDigits1 + (if dotPos == nDigits1 then 0 else 1) <= buf.Length && a.Valid()
    modifies buf, a, a.tab
    ensures a.tab == old(a.tab) && len == |WithDot(Written(old(a.Val()), nDigits1), dotPos)|
    ensures buf[..q + len] == old(buf[..q]) + WithDot(Written(old(a.Val()), nDigits1), dotPos)
  {
    hide Value, Written, Patched;
    ghost var t, was := Written(a.Val(), nDigits1), buf[..];
    PutDigits(buf, q, a, nDigits1);
    PatchedParts(was, q, t);
    len := nDigits1;
    if dotPos != nDigits1 {
      ghost var put := buf[..];
      MoveRight(buf, q + dotPos, q + nDigits1);
      ghost var moved := buf[..];
      SetChar(buf, q + dotPos, '.');
      len := len + 1;
      Dotted(put, moved, was[..q], t, dotPos);
    }
  }

  lemma PatchedParts(t: string, at: nat, r: string)
    requires at + |r| <= |t|
    ensures Patched(t, at, r)[..at + |r|] == t[..at] + r
  {
  }

  method PutDigits(buf: array<char>, q: nat, a: Mpb, nDigits1: nat)
    requires q + nDigits1 <= buf.Length && a.Valid()
    modifies buf, a, a.tab
    ensures a.tab == old(a.tab) && buf[..] == Patched(old(buf[..]), q, Written(old(a.Val()), nDigits1))
  {
    hide Value, Written, Patched;
    ghost var v, was := a.Val(), buf[..];
    var n := nDigits1;
    ghost var done := "";
    WrittenNone(v);
    assert Written(v, n) + "" == Written(v, n);
    PatchNothing(was, q + n);
    while n != 0
      invariant 0 <= n <= nDigits1 && a.Valid() && a.tab == old(a.tab) && |done| == nDigits1 - n
      invariant Written(a.Val(), n) + done == Written(v, nDigits1)
      invariant buf[..] == Patched(was, q + n, done)
      decreases n
    {
      var k := MinInt(n, 9);
      ghost var w := a.Val();
      n := n - k;
      var r := DivBillion(a);
      WrittenChunk(w, n + k, k);
      ghost var r0 := Written(r, k);
      assert Written(a.Val(), n) + (r0 + done) == (Written(a.Val(), n) + r0) + done;
      PatchBefore(was, q + n, r0, done);
      U32ToALen(buf, q + n, r, k);
      done := r0 + done;
    }
    WrittenNone(a.Val());
    assert "" + done == done;
  }

  /** mp_div1 by the base of radix 10, and mpb_renorm. */
  method DivBillion(a: Mpb) returns (r: limb)
    requires a.Valid()
    modifies a, a.tab
    ensures a.Valid() && a.tab == old(a.tab) && a.Val() == old(a.Val()) / 1000000000 && r == old(a.Val()) % 1000000000
  {
    hide Value;
    ghost var w := a.Val();
    r := a.Div1(1000000000, 0);
    DivideIs(w, 1000000000, Value(a.tab[..a.len]), r);
    a.Renorm();
  }

  lemma Dotted(put: string, moved: string, front: string, t: string, dot: nat)
    requires dot < |t| && |put| == |moved| > |front| + |t| && put[..|front| + |t|] == front + t
    requires var at, end := |front| + dot, |front| + |t|; moved[..at] == put[..at] && moved[at + 1..end + 1] == put[at..end]
    ensures moved[|front| + dot := '.'][..|front| + |t| + 1] == front + WithDot(t, dot)
  {
    var at, end := |front| + dot, |front| + |t|;
    assert put[..at] == (front + t)[..at] == front + t[..dot];
    assert put[at..end] == (front + t)[at..end] == t[dot..];
    assert moved[at := '.'][..end + 1] == moved[..at] + "." + moved[at + 1..end + 1];
    assert front + t[..dot] + "." + t[dot..] == front + (t[..dot] + "." + t[dot..]);
  }
}
