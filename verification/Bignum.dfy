/** mpb_t: natural numbers in an array of limbs, changed in place. */
module Bignum {
  import opened Limbs
  import opened Rounding

  function Pow2(n: nat): (p: nat)
    ensures p > 0
  {
    PowerPositive(2, n);
    Power(2, n)
  }

  // ----- values of sequences of limbs

  lemma {:induction false} ValueConcat(s: seq<limb>, t: seq<limb>)
    ensures Value(s + t) == Value(s) + Power(BASE, |s|) * Value(t)
    decreases |s|
  {
    if s == [] {
      assert s + t == t;
    } else {
      ValueConcat(s[1..], t);
      assert (s + t)[1..] == s[1..] + t;
      MulAssoc(BASE, Power(BASE, |s| - 1), Value(t));
    }
  }

  lemma ValueOne(x: limb)
    ensures Value([x]) == x
  {
    assert [x][1..] == [];
  }

  lemma ValueAppend(s: seq<limb>, x: limb)
    ensures Value(s + [x]) == Value(s) + Power(BASE, |s|) * x
  {
    ValueConcat(s, [x]);
    ValueOne(x);
  }

  lemma {:induction false} ValueBound(s: seq<limb>)
    ensures Value(s) < Power(BASE, |s|)
    decreases |s|
  {
    if s != [] {
      ValueBound(s[1..]);
    }
  }

  lemma {:induction false} ValueZeros(s: seq<limb>)
    requires forall k :: 0 <= k < |s| ==> s[k] == 0
    ensures Value(s) == 0
    decreases |s|
  {
    if s != [] { ValueZeros(s[1..]); }
  }

  /** One more limb at the upper end of a prefix, and at the lower end of a suffix. */
  lemma ValuePrefix(s: seq<limb>, i: nat)
    requires i < |s|
    ensures Value(s[..i + 1]) == Value(s[..i]) + Power(BASE, i) * s[i]
  {
    assert s[..i + 1] == s[..i] + [s[i]];
    ValueAppend(s[..i], s[i]);
  }

  lemma ValueSuffix(s: seq<limb>, i: nat)
    requires i < |s|
    ensures Value(s[i..]) == s[i] + BASE * Value(s[i + 1..])
  {
    assert s[i..][1..] == s[i + 1..];
  }

  lemma ValueSplit(s: seq<limb>, i: nat)
    requires i <= |s|
    ensures Value(s) == Value(s[..i]) + Power(BASE, i) * Value(s[i..])
  {
    assert s == s[..i] + s[i..];
    ValueConcat(s[..i], s[i..]);
  }

  // ----- one step of each loop, over the integers

  /** `v` and `w` are the limbs done, `p` their weight, `l` the carry. */
  lemma MulStep(v: nat, w: nat, p: nat, l: nat, l0: nat, a: nat, b: nat, t: nat)
    requires v + l * p == w * b + l0 && t == a * b + l
    ensures (v + p * (t % BASE)) + (t / BASE) * (BASE * p) == (w + p * a) * b + l0
  {
    var lo, hi := t % BASE, t / BASE;
    assert t == lo + BASE * hi;
    assert hi * (BASE * p) == p * (BASE * hi);
    assert p * lo + p * (BASE * hi) == p * (a * b + l) by { Distribute(lo, BASE * hi, p); }
    assert p * (a * b + l) == p * (a * b) + p * l;
    assert (w + p * a) * b == w * b + (p * a) * b;
    assert p * (a * b) == (p * a) * b;
  }

  /** Division from the top: `v` and `w` are the limbs done, `h` the weight of the incoming remainder. */
  lemma DivStep(v: nat, w: nat, r: nat, x: nat, b: nat, a: nat, q: nat, r': nat)
    requires v * b + r == x + w && BASE * r + a == q * b + r'
    ensures (q + BASE * v) * b + r' == BASE * x + (a + BASE * w)
  {
    assert (q + BASE * v) * b == q * b + BASE * (v * b);
  }

  lemma EmptyValue()
    ensures Value([]) == 0 && Power(BASE, 0) == 1
  {
  }

  lemma PowerNext(i: nat)
    ensures Power(BASE, i + 1) == BASE * Power(BASE, i)
  {
  }

  lemma CarryFits(a: limb, b: limb, l: limb)
    ensures 0 <= (a * b + l) / BASE < BASE
  {
    ProductFits(a, b, l);
    HalfFits(a * b + l);
  }

  lemma HalfFits(t: nat)
    requires t < BASE * BASE
    ensures t / BASE < BASE
  {
  }

  // ----- shifts inside a limb: c = 2^shift, d = 2^(LIMB_BITS - shift)

  lemma {:induction false} Pow2Bounds(n: nat)
    requires n <= LIMB_BITS
    ensures 1 <= Pow2(n) <= BASE && Pow2(n) * Pow2(LIMB_BITS - n) == BASE
  {
    PowerPositive(2, n);
    PowerPositive(2, LIMB_BITS - n);
    PowerAdd(2, n, LIMB_BITS - n);
    Pow2Base();
    MulMono(1, Pow2(LIMB_BITS - n), Pow2(n));
  }

  lemma Pow2Base()
    ensures Pow2(LIMB_BITS) == BASE
  {
    assert Pow2(8) == 256;
    PowerAdd(2, 8, 8);
    PowerAdd(2, 16, 16);
  }

  /** `(a << shift) | l`, truncated to a limb, and `a >> (LIMB_BITS - shift)`; the operands of `|` have no
      bit in common. */
  lemma ShlBits(a: limb, l: nat, c: nat, d: nat)
    requires l < c && c * d == BASE
    ensures d > 0 && (a * c) % BASE + l == (a * c + l) % BASE && a / d == (a * c + l) / BASE && a / d < c
  {
    var q, r := a / d, a % d;
    ShlParts(a, l, c, d, q, r);
  }

  lemma ShlParts(a: limb, l: nat, c: nat, d: nat, q: nat, r: nat)
    requires l < c && c * d == BASE && d > 0 && a == q * d + r && r < d
    ensures (a * c) % BASE == r * c && (a * c + l) % BASE == r * c + l && (a * c + l) / BASE == q && q < c
  {
    assert a * c == (q * d) * c + r * c;
    assert (q * d) * c == q * (c * d);
    MulMono(r + 1, d, c);
    Distribute(r, 1, c);
    DivideIs(a * c, BASE, q, r * c);
    DivideIs(a * c + l, BASE, q, r * c + l);
    if q >= c { MulMono(c, q, d); }
  }

  /** `(a >> shift) | (l << (LIMB_BITS - shift))`, the second operand truncated to a limb. */
  lemma ShrBits(a: limb, l: limb, c: nat, d: nat)
    requires c * d == BASE
    ensures c > 0 && (l * d) % BASE == (l % c) * d && a / c + (l * d) % BASE < BASE
    ensures BASE * (l % c) + a == (a / c + (l * d) % BASE) * c + a % c
  {
    DivMod(l, c);
    DivMod(a, c);
    ShrParts(a, l, c, d, l / c, l % c, a / c, a % c);
  }

  lemma ShrParts(a: limb, l: limb, c: nat, d: nat, lq: nat, lr: nat, q: nat, r: nat)
    requires c * d == BASE && c > 0 && d > 0 && l == lq * c + lr && lr < c && a == q * c + r && r < c
    ensures (l * d) % BASE == lr * d && q + lr * d < BASE && BASE * lr + a == (q + lr * d) * c + r
  {
    assert l * d == (lq * c) * d + lr * d;
    assert (lq * c) * d == lq * (c * d);
    MulMono(lr + 1, c, d);
    Distribute(lr, 1, d);
    DivideIs(l * d, BASE, lq, lr * d);
    if q >= d { MulMono(d, q, c); }
    assert (lr * d) * c == lr * (c * d);
    Distribute(q, lr * d, c);
  }

  // ----- mpb_t

  class Mpb {
    var tab: array<limb>
    var len: nat

    ghost predicate Valid()
      reads this
    {
      1 <= len <= tab.Length
    }

    ghost function Val(): nat
      reads this, tab
      requires Valid()
    {
      Value(tab[..len])
    }

    /** No leading zero limb. */
    ghost predicate Normal()
      reads this, tab
      requires Valid()
    {
      len > 1 ==> tab[len - 1] != 0
    }

    constructor (capacity: nat)
      requires capacity >= 2
      ensures Valid() && Val() == 0 && len == 1 && tab.Length == capacity && fresh(tab)
    {
      tab := new limb[capacity](_ => 0);
      len := 1;
      new;
      assert tab[..1] == [0];
      ValueOne(0);
    }

    /** mp_mul1 in place: multiplies by `b`, adds `l0`, and returns the carry. */
    method Mul1(b: limb, l0: limb) returns (l: limb)
      requires Valid()
      modifies tab
      ensures Value(tab[..len]) + l * Power(BASE, len) == old(Val()) * b + l0
      ensures forall k :: len <= k < tab.Length ==> tab[k] == old(tab[k])
    {
      hide Value, Power;
      l := l0;
      var i := 0;
      ghost var s := tab[..len];
      assert tab[..0] == [] && s[..0] == [];
      EmptyValue();
      while i < len
        invariant 0 <= i <= len
        invariant Value(tab[..i]) + l * Power(BASE, i) == Value(s[..i]) * b + l0
        invariant forall k :: i <= k < tab.Length ==> tab[k] == old(tab[k])
      {
        var t := tab[i] * b + l;
        CarryFits(tab[i], b, l);
        PrefixStep(tab[..i], s, i, l, l0, b, t);
        ghost var before := tab[..i];
        tab[i] := t % BASE;
        assert tab[..i + 1] == before + [tab[i]];
        l := t / BASE;
        i := i + 1;
      }
      assert s[..len] == s;
    }

    /** mp_shl in place: shifts by `shift` bits, adds `low`, and returns the carry. */
    method Shl(shift: nat, low: limb) returns (l: limb)
      requires Valid() && 1 <= shift < LIMB_BITS && low < Pow2(shift)
      modifies tab
      ensures Value(tab[..len]) + l * Power(BASE, len) == old(Val()) * Pow2(shift) + low && l < Pow2(shift)
      ensures forall k :: len <= k < tab.Length ==> tab[k] == old(tab[k])
    {
      hide Value, Power, Pow2;
      Pow2Bounds(shift);
      var c, d := Pow2(shift), Pow2(LIMB_BITS - shift);
      l := low;
      var i := 0;
      ghost var s := tab[..len];
      assert tab[..0] == [] && s[..0] == [];
      EmptyValue();
      while i < len
        invariant 0 <= i <= len && l < c
        invariant Value(tab[..i]) + l * Power(BASE, i) == Value(s[..i]) * c + low
        invariant forall k :: i <= k < tab.Length ==> tab[k] == old(tab[k])
      {
        var a := tab[i];
        ShlBits(a, l, c, d);
        var x: limb, carry: limb := (a * c) % BASE + l, a / d;
        ghost var before := tab[..i];
        PrefixStep(before, s, i, l, low, c, a * c + l);
        tab[i] := x;
        assert tab[..i + 1] == before + [x];
        l := carry;
        i := i + 1;
      }
      assert s[..len] == s;
    }

    /** mp_shr in place: shifts down by `shift` bits, `high` coming in at the top, and returns the bits that
        were shifted out. */
    method Shr(shift: nat, high: limb) returns (r: limb)
      requires Valid() && 1 <= shift < LIMB_BITS && high < Pow2(shift)
      modifies tab
      ensures Value(tab[..len]) * Pow2(shift) + r == high * Power(BASE, len) + old(Val()) && r < Pow2(shift)
      ensures forall k :: len <= k < tab.Length ==> tab[k] == old(tab[k])
    {
      hide Value, Power, Pow2;
      Pow2Bounds(shift);
      var c, d := Pow2(shift), Pow2(LIMB_BITS - shift);
      var l: limb := high;
      var i := len;
      ghost var s := tab[..len];
      assert tab[len..len] == [] && s[len..] == [];
      EmptyValue();
      SmallRemainder(high, c);
      ghost var rem: nat := high;
      while i > 0
        invariant 0 <= i <= len && rem == l % c
        invariant Value(tab[i..len]) * c + rem == high * Power(BASE, len - i) + Value(s[i..])
        invariant forall k :: 0 <= k < i || len <= k < tab.Length ==> tab[k] == old(tab[k])
      {
        i := i - 1;
        var a := tab[i];
        ShrBits(a, l, c, d);
        var x: limb := a / c + (l * d) % BASE;
        SuffixStep(tab[i + 1..len], s, i, high, rem, c, x, a % c, len - i - 1);
        ghost var before := tab[i + 1..len];
        tab[i] := x;
        assert tab[i..len] == [tab[i]] + before;
        l := a;
        rem := a % c;
      }
      assert s[0..] == s && tab[0..len] == tab[..len];
      r := l % c;
    }

    /** mp_div1 in place: divides r0 * BASE^len plus the number by `b`. */
    method Div1(b: limb, r0: limb) returns (r: limb)
      requires Valid() && r0 < b
      modifies tab
      ensures Value(tab[..len]) * b + r == r0 * Power(BASE, len) + old(Val()) && r < b
      ensures forall k :: len <= k < tab.Length ==> tab[k] == old(tab[k])
    {
      hide Value, Power;
      r := r0;
      var i := len;
      ghost var s := tab[..len];
      assert tab[len..len] == [] && s[len..] == [];
      EmptyValue();
      while i > 0
        invariant 0 <= i <= len && r < b
        invariant Value(tab[i..len]) * b + r == r0 * Power(BASE, len - i) + Value(s[i..])
        invariant forall k :: 0 <= k < i || len <= k < tab.Length ==> tab[k] == old(tab[k])
      {
        i := i - 1;
        var a1 := r * BASE + tab[i];
        QuotientLimb(r, tab[i], b);
        SuffixStep(tab[i + 1..len], s, i, r0, r, b, a1 / b, a1 % b, len - i - 1);
        ghost var before := tab[i + 1..len];
        tab[i] := a1 / b;
        assert tab[i..len] == [tab[i]] + before;
        r := a1 % b;
      }
      assert s[0..] == s && tab[0..len] == tab[..len];
    }

    /** The loop of mp_div1norm, by a divisor with its top bit set. */
    method DivNormLoop(b: limb, bInv: limb, r0: limb) returns (r: limb)
      requires Valid() && b >= 0x8000_0000 && bInv == UDiv1NormInit(b) && r0 < b
      modifies tab
      ensures Value(tab[..len]) * b + r == r0 * Power(BASE, len) + old(Val()) && r < b
      ensures forall k :: len <= k < tab.Length ==> tab[k] == old(tab[k])
    {
      hide Value, Power, UDiv1NormInit, UDiv1Norm;
      r := r0;
      var i := len;
      ghost var s := tab[..len];
      assert tab[len..len] == [] && s[len..] == [];
      EmptyValue();
      while i > 0
        invariant 0 <= i <= len && r < b
        invariant Value(tab[i..len]) * b + r == r0 * Power(BASE, len - i) + Value(s[i..])
        invariant forall k :: 0 <= k < i || len <= k < tab.Length ==> tab[k] == old(tab[k])
      {
        i := i - 1;
        QuotientLimb(r, tab[i], b);
        var qr := UDiv1Norm(r, tab[i], b, bInv);
        SuffixStep(tab[i + 1..len], s, i, r0, r, b, qr.0, qr.1, len - i - 1);
        ghost var before := tab[i + 1..len];
        tab[i] := qr.0;
        assert tab[i..len] == [tab[i]] + before;
        r := qr.1;
      }
      assert s[0..] == s && tab[0..len] == tab[..len];
    }

    /** The first step of mp_div1norm: remainder and number are shifted like the divisor. */
    method ShlRemainder(shift: nat, r0: limb, ghost b: limb, ghost b0: nat) returns (r: limb)
      requires Valid() && shift < LIMB_BITS && b == b0 * Pow2(shift) && r0 < b0
      modifies tab
      ensures r < b && r * Power(BASE, len) + Value(tab[..len]) == Pow2(shift) * (r0 * Power(BASE, len) + old(Val()))
      ensures forall k :: len <= k < tab.Length ==> tab[k] == old(tab[k])
    {
      hide Value, Power, Pow2;
      ZeroShift();
      Pow2Bounds(shift);
      r := r0;
      if shift != 0 {
        ghost var v := Val();
        var l := Shl(shift, 0);
        NormRemainder(r0, l, b0, Pow2(shift), b);
        NormShifted(r0, l, Pow2(shift), Power(BASE, len), Value(tab[..len]), v);
        r := r0 * Pow2(shift) + l;
      }
    }

    /** mp_div1norm in place: divides by b / 2^shift, whose multiple `b` has its top bit set. */
    method DivNorm(b: limb, r0: limb, bInv: limb, shift: nat, ghost b0: nat) returns (r: limb)
      requires Valid() && b >= 0x8000_0000 && bInv == UDiv1NormInit(b)
      requires shift < LIMB_BITS && b == b0 * Pow2(shift) && r0 < b0
      modifies tab
      ensures Value(tab[..len]) * b0 + r == r0 * Power(BASE, len) + old(Val()) && r < b0
      ensures forall k :: len <= k < tab.Length ==> tab[k] == old(tab[k])
    {
      hide Value, Power, Pow2, UDiv1NormInit;
      ghost var x := r0 * Power(BASE, len) + Val();
      Pow2Bounds(shift);
      NonNegative(r0, Power(BASE, len));
      r := ShlRemainder(shift, r0, b, b0);
      r := DivNormLoop(b, bInv, r);
      NormDone(Value(tab[..len]), b0, Pow2(shift), b, r, x);
      r := r / Pow2(shift);
    }

    /** mp_add_ui in place: adds `b` and returns the carry. */
    method AddUi(b: limb) returns (k: limb)
      requires Valid()
      modifies tab
      ensures Value(tab[..len]) + k * Power(BASE, len) == old(Val()) + b && k <= 1 + b
      ensures forall j :: len <= j < tab.Length ==> tab[j] == old(tab[j])
    {
      hide Value, Power;
      k := b;
      var i := 0;
      ghost var s := tab[..len];
      assert tab[..0] == [] && s[..0] == [];
      EmptyValue();
      while i < len
        invariant 0 <= i <= len && k <= 1 + b
        invariant Value(tab[..i]) + k * Power(BASE, i) == Value(s[..i]) * 1 + b
        invariant forall j :: i <= j < tab.Length ==> tab[j] == old(tab[j])
      {
        if k == 0 {
          assert tab[..len][..i] == tab[..i];
          AddRest(tab[..len], s, i, b);
          return;
        }
        var a := (tab[i] + k) % BASE;
        ghost var before, t := tab[..i], tab[i] * 1 + k;
        AddBits(tab[i], k);
        PrefixStep(before, s, i, k, b, 1, t);
        k := if a < k then 1 else 0;
        tab[i] := a;
        assert tab[..i + 1] == before + [tab[i]];
        i := i + 1;
      }
      assert s[..len] == s;
    }

    /** mpb_renorm */
    method Renorm()
      requires Valid()
      modifies `len
      ensures Valid() && Val() == old(Val()) && Normal() && len <= old(len)
    {
      while len > 1 && tab[len - 1] == 0
        invariant Valid() && Val() == old(Val()) && len <= old(len)
      {
        assert tab[..len] == tab[..len - 1] + [tab[len - 1]];
        ValueAppend(tab[..len - 1], 0);
        len := len - 1;
      }
    }

    /** mpb_set_u64 */
    method SetU64(m: nat)
      requires tab.Length >= 2 && m < BASE * BASE
      modifies this`len, tab
      ensures Valid() && Val() == m && Normal() && len <= 2
    {
      tab[0] := m % BASE;
      tab[1] := m / BASE;
      assert tab[..1] == [tab[0]] && tab[..2] == [tab[0], tab[1]];
      ValueOne(tab[0]);
      ValueOne(tab[1]);
      assert [tab[0], tab[1]][1..] == [tab[1]];
      if tab[1] == 0 {
        len := 1;
      } else {
        len := 2;
      }
    }

    /** mpb_get_u64, of a number that fits. */
    method GetU64() returns (m: nat)
      requires Valid() && Normal() && Val() < BASE * BASE
      ensures m == Val()
    {
      if len == 1 {
        assert tab[..1] == [tab[0]];
        ValueOne(tab[0]);
        return tab[0];
      } else {
        TwoLimbs(tab[..len]);
        assert tab[..len] == [tab[0], tab[1]];
        return tab[0] + tab[1] * BASE;
      }
    }

    /** mpb_get_bit */
    method GetBit(k: nat) returns (bit: nat)
      requires Valid()
      ensures bit == Val() / Pow2(k) % 2
    {
      hide Value, Pow2;
      var l, k' := k / LIMB_BITS, k % LIMB_BITS;
      if l >= len {
        NoBit(tab[..len], k);
        return 0;
      } else {
        BitAt(tab[..len], k);
        Pow2Bounds(k');
        return tab[l] / Pow2(k') % 2;
      }
    }

    /** mpb_floor_log2 */
    method FloorLog2() returns (e: int)
      requires Valid() && Normal()
      ensures if Val() == 0 then e == -1 else e >= 0 && Pow2(e) <= Val() < Pow2(e + 1) && e < LIMB_BITS * len
    {
      var v := tab[len - 1];
      if v == 0 {
        assert tab[..1] == [0];
        ValueOne(0);
        return -1;
      } else {
        TopLimb(tab[..len]);
        return len * LIMB_BITS - 1 - Clz32(v);
      }
    }

    /** Whether one of the lowest `k` bits is set. */
    method LowBitsSet(k: nat) returns (any: bool)
      requires Valid()
      ensures any <==> Val() % Pow2(k) != 0
    {
      hide Value, Pow2;
      var l, k' := k / LIMB_BITS, k % LIMB_BITS;
      any := false;
      var i := 0;
      while i < l && i < len
        invariant 0 <= i <= len && i <= l
        invariant any <==> exists j :: 0 <= j < i && tab[j] != 0
      {
        any := any || tab[i] != 0;
        i := i + 1;
      }
      LowBits(tab[..len], k, any);
      if l < len {
        Pow2Bounds(k');
        any := any || tab[l] % Pow2(k') != 0;
      }
    }

    /** The decision of mpb_shr_round whether to add one, for a shift down. */
    method AddOne(shift: nat, mode: Mode) returns (one: nat)
      requires Valid() && shift > 0
      ensures RoundDiv(Val(), Pow2(shift), mode) == Val() / Pow2(shift) + one && one <= 1
    {
      hide Value, Pow2, RoundDiv;
      RoundBits(Val(), shift, mode);
      one := 0;
      if mode != TowardZero {
        var bit1 := GetBit(shift - 1);
        if bit1 != 0 {
          var bit2 := true;
          if mode == NearestEven {
            bit2 := LowBitsSet(shift - 1);
          }
          if bit2 {
            one := 1;
          } else {
            one := GetBit(shift);
          }
        }
      }
    }

    /** `tab[i] = tab[i + l]` */
    method DropLimbs(l: nat)
      requires Valid() && l < len
      modifies this`len, tab
      ensures Valid() && len == old(len) - l
      ensures tab[..len] == old(tab[l..len])
    {
      len := len - l;
      var i := 0;
      while i < len
        invariant 0 <= i <= len && len == old(len) - l && tab == old(tab)
        invariant forall k :: 0 <= k < i ==> tab[k] == old(tab[k + l])
        invariant forall k :: i <= k < tab.Length ==> tab[k] == old(tab[k])
      {
        tab[i] := tab[i + l];
        i := i + 1;
      }
    }

    /** `tab[i + l] = tab[i]`, from the top, and zeros below. */
    method RaiseLimbs(l: nat)
      requires Valid() && len + l <= tab.Length
      modifies this`len, tab
      ensures Valid() && len == old(len) + l && tab == old(tab)
      ensures tab[..len] == seq(l, _ => 0) + old(tab[..len])
    {
      ghost var s := tab[..len];
      MoveUp(l);
      ZeroLow(l, s);
      len := len + l;
      assert tab[..len] == tab[..l] + s;
    }

    method ZeroLow(l: nat, ghost s: seq<limb>)
      requires Valid() && len + l <= tab.Length && |s| == len && tab[l..l + len] == s
      modifies tab
      ensures tab[..l] == seq(l, _ => 0) && tab[l..l + len] == s
    {
      var i := 0;
      while i < l
        invariant 0 <= i <= l && tab[..i] == seq(i, _ => 0) && tab[l..l + len] == s
      {
        tab[i] := 0;
        assert tab[..i + 1] == tab[..i] + [0];
        i := i + 1;
      }
    }

    method MoveUp(l: nat)
      requires Valid() && len + l <= tab.Length
      modifies tab
      ensures tab[l..l + len] == old(tab[..len])
    {
      var i := len;
      while i > 0
        invariant 0 <= i <= len
        invariant tab[i + l..len + l] == old(tab[i..len]) && tab[..i] == old(tab[..i])
      {
        i := i - 1;
        ghost var rest := tab[i + 1 + l..len + l];
        tab[i + l] := tab[i];
        assert tab[i + l..len + l] == [tab[i + l]] + rest;
        assert old(tab[i..len]) == [old(tab[i])] + old(tab[i + 1..len]);
      }
    }

    /** `tab[len++] = h` */
    method Push(h: limb)
      requires Valid() && len < tab.Length
      modifies this`len, tab
      ensures Valid() && tab == old(tab) && len == old(len) + 1
      ensures tab[..len] == old(tab[..len]) + [h]
    {
      tab[len] := h;
      len := len + 1;
    }

    /** Multiplies by `b`; a carry becomes a new limb. */
    method MulSmall(b: limb)
      requires Valid() && len < tab.Length && b > 0
      modifies this`len, tab
      ensures Valid() && tab == old(tab) && Val() == old(Val()) * b && old(len) <= len <= old(len) + 1
      ensures old(Normal()) && old(Val()) > 0 ==> Normal()
    {
      hide Value, Power;
      ghost var v, s := Val(), tab[..len];
      var h := Mul1(b, 0);
      if h != 0 {
        ValueAppend(tab[..len], h);
        Push(h);
      } else {
        Grows(v, b);
        TopStays(s, tab[..len]);
      }
    }

    /** mpb_shr_round, upwards, by less than a limb. */
    method ShiftUpBits(k: nat)
      requires Valid() && len < tab.Length && k < LIMB_BITS
      modifies this`len, tab
      ensures Valid() && tab == old(tab) && Val() == old(Val()) * Pow2(k) && len <= old(len) + 1
      ensures old(Normal()) ==> Normal()
    {
      hide Value, Power, Pow2;
      ZeroShift();
      if k != 0 {
        Pow2Bounds(k);
        ghost var v := Val();
        var h := Shl(k, 0);
        ValueAppend(tab[..len], h);
        Push(h);
        assert Val() == v * Pow2(k);
        Renorm();
      }
    }

    /** mpb_shr_round, upwards, by whole limbs. */
    method ShiftUpLimbs(l: nat)
      requires Valid() && len + l <= tab.Length
      modifies this`len, tab
      ensures Valid() && tab == old(tab) && Val() == old(Val()) * Power(BASE, l) && len == old(len) + l
      ensures old(Normal()) && old(Val()) > 0 ==> Normal()
    {
      hide Power;
      EmptyValue();
      ValueRaised(tab[..len], l);
      ghost var n, s := len, tab[..len];
      if l > 0 {
        RaiseLimbs(l);
        assert tab[len - 1] == tab[..len][len - 1] == s[n - 1];
        if n == 1 { ValueOne(s[0]); assert s == [s[0]]; }
      }
    }

    /** mpb_shr_round, upwards: an exact multiplication by 2^shift. */
    method ShiftUp(shift: nat)
      requires Valid() && len + shift / LIMB_BITS + 1 <= tab.Length
      modifies this`len, tab
      ensures Valid() && tab == old(tab) && Val() == old(Val()) * Pow2(shift)
      ensures len <= old(len) + shift / LIMB_BITS + 1
      ensures old(Normal()) && old(Val()) > 0 ==> Normal()
    {
      hide Value, Power, Pow2;
      ghost var v := Val();
      var l, k := shift / LIMB_BITS, shift % LIMB_BITS;
      ShiftUpBits(k);
      MulPositiveIf(v, Pow2(k));
      ShiftUpLimbs(l);
      PowerBase(l);
      Pow2Add(k, LIMB_BITS * l);
      MulAssoc(v, Pow2(k), Pow2(LIMB_BITS * l));
    }

    /** mpb_shr_round: a rounded division by 2^shift, or a multiplication if `shift` is negative. */
    method ShrRound(shift: int, mode: Mode)
      requires Valid() && (shift < 0 ==> len + (-shift) / LIMB_BITS + 1 <= tab.Length) && (shift > 0 ==> len < tab.Length)
      modifies this`len, tab
      ensures Valid() && tab == old(tab)
      ensures Val() == if shift >= 0 then RoundDiv(old(Val()), Pow2(shift), mode) else old(Val()) * Pow2(-shift)
      ensures shift >= 0 ==> len <= old(len) + 1
      ensures shift < 0 ==> len <= old(len) + (-shift) / LIMB_BITS + 1
      ensures old(Normal()) && (old(Val()) > 0 || shift >= 0) ==> Normal()
    {
      hide Value, Power, Pow2, RoundDiv;
      ZeroShift();
      RoundExact(Val(), mode);
      if shift < 0 {
        ShiftUp(-shift);
      } else if shift > 0 {
        var one := AddOne(shift, mode);
        ShiftDown(shift);
        ghost var q := Val();
        if one != 0 {
          ghost var s := tab[..len];
          var a := AddUi(one);
          if a != 0 {
            ValueAppend(tab[..len], a);
            Push(a);
          } else {
            TopStays(s, tab[..len]);
          }
        }
      }
    }

    /** mpb_shr_round, downwards, before rounding. */
    method ShiftDown(shift: nat)
      requires Valid()
      modifies this`len, tab
      ensures Valid() && tab == old(tab) && Val() == old(Val()) / Pow2(shift) && len <= old(len)
      ensures old(Normal()) ==> Normal()
    {
      hide Value, Power, Pow2;
      var l, k := shift / LIMB_BITS, shift % LIMB_BITS;
      if l >= len {
        NoBit(tab[..len], shift);
        len := 1;
        tab[0] := 0;
        assert tab[..1] == [0];
        ValueOne(0);
      } else {
        ghost var s := tab[..len];
        LimbsDropped(s, l, k, shift);
        ZeroShift();
        if l > 0 {
          DropLimbs(l);
        }
        assert tab[..len] == s[l..];
        DivideIs(Value(s[l..]), 1, Value(s[l..]), 0);
        if k != 0 {
          Pow2Bounds(k);
          var r := Shr(k, 0);
          DivideIs(Value(s[l..]), Pow2(k), Val(), r);
          Renorm();
        }
      }
    }
  }

  /** Dropping limbs, then shifting the rest. */
  lemma LimbsDropped(s: seq<limb>, l: nat, k: nat, shift: nat)
    requires l < |s| && shift == LIMB_BITS * l + k
    ensures Value(s) / Pow2(shift) == Value(s[l..]) / Pow2(k)
  {
    hide Value, Power, Pow2;
    ValueSplit(s, l);
    ValueBound(s[..l]);
    PowerBase(l);
    Pow2Add(LIMB_BITS * l, k);
    DivMod(Value(s[l..]), Pow2(k));
    DropParts(Value(s), Value(s[..l]), Power(BASE, l), Value(s[l..]), Pow2(k), Value(s[l..]) / Pow2(k), Value(s[l..]) % Pow2(k));
  }

  lemma DropParts(v: nat, lo: nat, p: nat, h: nat, c: nat, q: nat, r: nat)
    requires v == lo + p * h && lo < p && c > 0 && h == q * c + r && r < c && p * c > 0
    ensures v / (p * c) == q
  {
    assert p * h == q * (p * c) + p * r;
    MulMono(r + 1, c, p);
    Distribute(r, 1, p);
    DivideIs(v, p * c, q, lo + p * r);
  }

  /** An exact product without a new limb does not get shorter. */
  lemma TopStays(s: seq<limb>, t: seq<limb>)
    requires |s| == |t| >= 1 && Value(t) >= Value(s)
    ensures s[|s| - 1] != 0 ==> t[|t| - 1] != 0
  {
    hide Value, Power;
    var n := |s| - 1;
    assert s == s[..n] + [s[n]] && t == t[..n] + [t[n]];
    ValueAppend(s[..n], s[n]);
    ValueAppend(t[..n], t[n]);
    ValueBound(t[..n]);
    TopParts(Value(s[..n]), Value(t[..n]), Power(BASE, n), s[n], t[n]);
  }

  lemma TopParts(a: nat, b: nat, p: nat, x: nat, y: nat)
    requires b + p * y >= a + p * x && b < p
    ensures x != 0 ==> y != 0
  {
    if x != 0 { MulMono(1, x, p); }
  }

  lemma Grows(v: nat, b: nat)
    requires b > 0
    ensures v * b >= v
  {
  }

  lemma MulPositiveIf(a: nat, b: nat)
    requires b > 0
    ensures a > 0 ==> a * b > 0
  {
  }

  lemma ValueRaised(s: seq<limb>, l: nat)
    ensures Value(seq(l, _ => 0) + s) == Value(s) * Power(BASE, l)
  {
    var z: seq<limb> := seq(l, _ => 0);
    ValueConcat(z, s);
    ValueZeros(z);
  }

  // ----- rounding, bit by bit

  /** Of n / 2^k: bit k - 1 and the bits below decide, bit k breaks ties. */
  lemma RoundBits(n: nat, k: nat, mode: Mode)
    requires k > 0
    ensures var q := n / Pow2(k);
            var bit1, low := n / Pow2(k - 1) % 2, n % Pow2(k - 1);
            RoundDiv(n, Pow2(k), mode)
            == if mode == TowardZero || bit1 == 0 then q
               else if mode == NearestAway || low != 0 then q + 1
               else q + n / Pow2(k) % 2
    ensures n / Pow2(k - 1) % 2 <= 1 && n / Pow2(k) % 2 <= 1
  {
    hide Pow2;
    HalfPower(k);
    var h := Pow2(k - 1);
    DivMod(n, h);
    RoundHalf(n, h, n / h, n % h, (n / h) / 2, (n / h) % 2, mode);
  }

  lemma HalfPower(k: nat)
    requires k > 0
    ensures Pow2(k) == 2 * Pow2(k - 1)
  {
  }

  lemma RoundHalf(n: nat, h: nat, a: nat, low: nat, q: nat, b: nat, mode: Mode)
    requires h > 0 && n == a * h + low && low < h && a == 2 * q + b && b < 2
    ensures n / (2 * h) == q
    ensures RoundDiv(n, 2 * h, mode)
            == if mode == TowardZero || b == 0 then q
               else if mode == NearestAway || low != 0 then q + 1
               else q + q % 2
  {
    assert a * h == q * (2 * h) + b * h;
    var r := if b == 0 then low else h + low;
    assert b * h + low == r;
    DivideIs(n, 2 * h, q, r);
    hide RoundDiv, RoundParts;
    RoundBy(n, 2 * h, q, r, mode);
    HalfCases(h, low, q, b, mode);
  }

  lemma HalfCases(h: nat, low: nat, q: nat, b: nat, mode: Mode)
    requires low < h && b < 2
    ensures RoundParts(q, if b == 0 then low else h + low, 2 * h, mode)
            == if mode == TowardZero || b == 0 then q
               else if mode == NearestAway || low != 0 then q + 1
               else q + q % 2
  {
  }

  lemma LowBits(s: seq<limb>, k: nat, any: bool)
    requires any <==> exists j :: 0 <= j < k / LIMB_BITS && j < |s| && s[j] != 0
    ensures Value(s) % Pow2(k) != 0 <==> any || (k / LIMB_BITS < |s| && s[k / LIMB_BITS] % Pow2(k % LIMB_BITS) != 0)
  {
    hide Value, Power, Pow2;
    var l := k / LIMB_BITS;
    if l >= |s| {
      NoBit(s, k);
      ValueNonzero(s);
    } else {
      var q, r := SplitBits(s, k);
      DivideIs(Value(s), Pow2(k), q, r);
      ValueNonzero(s[..l]);
      assert any <==> exists j :: 0 <= j < |s[..l]| && s[..l][j] != 0;
      PowerPositive(BASE, l);
      NonzeroProduct(Power(BASE, l), s[l] % Pow2(k % LIMB_BITS));
    }
  }

  lemma NonzeroProduct(a: nat, b: nat)
    requires a > 0
    ensures a * b == 0 <==> b == 0
    ensures a * b >= 0
  {
  }

  lemma {:induction false} ValueNonzero(s: seq<limb>)
    ensures Value(s) != 0 <==> exists j :: 0 <= j < |s| && s[j] != 0
    decreases |s|
  {
    if s != [] {
      ValueNonzero(s[1..]);
      if j :| 0 <= j < |s| && s[j] != 0 {
        if j > 0 { assert s[1..][j - 1] == s[j]; }
      }
    }
  }

  // ----- leading zeros

  function Log2(v: nat): (e: nat)
    requires v > 0
    ensures Pow2(e) <= v < Pow2(e + 1)
  {
    if v < 2 then Log2One(); 0
    else
      var e := Log2(v / 2);
      Log2Step(v, e);
      e + 1
  }

  lemma Log2One()
    ensures Pow2(0) == 1 && Pow2(1) == 2
  {
    assert Power(2, 0) == 1;
  }

  lemma Log2Step(v: nat, e: nat)
    requires Pow2(e) <= v / 2 < Pow2(e + 1)
    ensures Pow2(e + 1) <= v < Pow2(e + 2)
  {
  }

  function Clz32(v: limb): (z: nat)
    requires v > 0
    ensures z < LIMB_BITS && Pow2(31 - z) <= v < Pow2(32 - z)
  {
    Log2Fits(v);
    31 - Log2(v)
  }

  lemma Log2Fits(v: limb)
    requires v > 0
    ensures Log2(v) <= 31
  {
    if Log2(v) >= LIMB_BITS {
      Pow2Monotone(LIMB_BITS, Log2(v));
      Pow2Base();
    }
  }

  lemma {:induction false} Pow2Monotone(m: nat, n: nat)
    requires m <= n
    ensures Pow2(m) <= Pow2(n)
    decreases n
  {
    if m < n {
      Pow2Monotone(m, n - 1);
      PowerPositive(2, n - 1);
    }
  }

  /** The top limb decides about the size of the number. */
  lemma TopLimb(s: seq<limb>)
    requires s != [] && s[|s| - 1] > 0
    ensures var e := |s| * LIMB_BITS - 1 - Clz32(s[|s| - 1]); 0 <= e < LIMB_BITS * |s| && Pow2(e) <= Value(s) < Pow2(e + 1) && Value(s) > 0
  {
    hide Pow2, Value;
    var n := |s| - 1;
    var v, z := s[n], Clz32(s[n]);
    assert s == s[..n] + [v];
    ValueAppend(s[..n], v);
    ValueBound(s[..n]);
    PowerBase(n);
    Pow2Add(LIMB_BITS * n, 31 - z);
    Pow2Add(LIMB_BITS * n, 32 - z);
    TopBounds(Value(s[..n]), Power(BASE, n), v, Pow2(31 - z), Pow2(32 - z));
  }

  lemma TopBounds(lo: nat, p: nat, v: nat, a: nat, b: nat)
    requires lo < p && a <= v < b && v > 0
    ensures p * a <= lo + p * v < p * b && lo + p * v > 0
  {
    MulMono(a, v, p);
    MulMono(v + 1, b, p);
    Distribute(v, 1, p);
    MulPositive(p, v);
  }

  lemma Pow2Add(m: nat, n: nat)
    ensures Pow2(m + n) == Pow2(m) * Pow2(n)
  {
    PowerAdd(2, m, n);
  }

  lemma {:induction false} PowerBase(n: nat)
    ensures Power(BASE, n) == Pow2(LIMB_BITS * n)
  {
    if n > 0 {
      PowerBase(n - 1);
      Pow2Add(LIMB_BITS, LIMB_BITS * (n - 1));
      Pow2Base();
    }
  }

  // ----- bits of a number

  /** The number around bit k: a quotient and a remainder for 2^k. */
  lemma SplitBits(s: seq<limb>, k: nat) returns (q: nat, r: nat)
    requires k / LIMB_BITS < |s|
    ensures Value(s) == q * Pow2(k) + r && r < Pow2(k)
    ensures var l, c := k / LIMB_BITS, Pow2(k % LIMB_BITS);
            q % 2 == s[l] / c % 2 && r == Value(s[..l]) + Power(BASE, l) * (s[l] % c)
  {
    hide Value, Power, Pow2;
    var l := k / LIMB_BITS;
    var c, d := Pow2(k % LIMB_BITS), Pow2(LIMB_BITS - k % LIMB_BITS);
    var h := Value(s[l + 1..]);
    ValueSplit(s, l);
    ValueSuffix(s, l);
    ValueBound(s[..l]);
    PowerBase(l);
    Pow2Add(LIMB_BITS * l, k % LIMB_BITS);
    assert k == LIMB_BITS * l + k % LIMB_BITS;
    Pow2Bounds(k % LIMB_BITS);
    Pow2Even(LIMB_BITS - k % LIMB_BITS);
    DivMod(s[l], c);
    EvenPart(s[l] / c, d, h);
    SplitParts(Value(s[..l]), Power(BASE, l), s[l], c, d, h, s[l] / c, s[l] % c);
    q, r := s[l] / c + d * h, Value(s[..l]) + Power(BASE, l) * (s[l] % c);
  }

  lemma SplitParts(lo: nat, p: nat, x: limb, c: nat, d: nat, h: nat, q: nat, r: nat)
    requires lo < p && c * d == BASE && x == q * c + r && r < c
    ensures lo + p * (x + BASE * h) == (q + d * h) * (p * c) + (lo + p * r) && lo + p * r < p * c
  {
    assert (q + d * h) * (p * c) == p * (q * c) + p * ((c * d) * h);
    assert p * (x + BASE * h) == p * (q * c) + p * r + p * (BASE * h);
    MulMono(r + 1, c, p);
    Distribute(r, 1, p);
  }

  lemma BitAt(s: seq<limb>, k: nat)
    requires k / LIMB_BITS < |s|
    ensures Value(s) / Pow2(k) % 2 == s[k / LIMB_BITS] / Pow2(k % LIMB_BITS) % 2
  {
    hide Value, Power, Pow2;
    var q, r := SplitBits(s, k);
    DivideIs(Value(s), Pow2(k), q, r);
  }

  lemma Pow2Even(n: nat)
    requires n > 0
    ensures Pow2(n) % 2 == 0 && Pow2(n) > 0
  {
    PowerPositive(2, n);
  }

  lemma EvenPart(a: nat, d: nat, h: nat)
    requires d % 2 == 0
    ensures (a + d * h) % 2 == a % 2
  {
    assert d == 2 * (d / 2);
    assert d * h == 2 * ((d / 2) * h);
  }

  lemma NoBit(s: seq<limb>, k: nat)
    requires k / LIMB_BITS >= |s|
    ensures Pow2(k) > 0 && Value(s) < Pow2(k) && Value(s) / Pow2(k) == 0 && Value(s) % Pow2(k) == Value(s)
  {
    hide Value, Power, Pow2;
    ValueBound(s);
    PowerBase(|s|);
    Pow2Monotone(LIMB_BITS * |s|, k);
    DivideIs(Value(s), Pow2(k), 0, Value(s));
  }

  lemma TwoLimbs(s: seq<limb>)
    requires |s| >= 2 && s[|s| - 1] != 0 && Value(s) < BASE * BASE
    ensures |s| == 2 && Value(s) == s[0] + s[1] * BASE
  {
    var n := |s| - 1;
    assert s == s[..n] + [s[n]];
    ValueAppend(s[..n], s[n]);
    PowerPositive(BASE, n);
    MulMono(1, s[n], Power(BASE, n));
    PowerSquare(n);
    assert n == 1;
    assert s[1..] == [s[1]];
    ValueOne(s[1]);
  }

  lemma PowerSquare(n: nat)
    ensures n >= 2 ==> Power(BASE, n) >= BASE * BASE
  {
    if n >= 2 {
      PowerNext(n - 1);
      PowerNext(n - 2);
      PowerPositive(BASE, n - 2);
    }
  }

  lemma AddBits(a: limb, k: limb)
    ensures var t := (a + k) % BASE; t == (a * 1 + k) % BASE && (a * 1 + k) / BASE == if t < k then 1 else 0
  {
  }

  /** No carry is left: the limbs above stay as they are. */
  lemma AddRest(t: seq<limb>, s: seq<limb>, i: nat, b: nat)
    requires |t| == |s| && i <= |s| && forall j :: i <= j < |s| ==> t[j] == s[j]
    requires Value(t[..i]) + 0 * Power(BASE, i) == Value(s[..i]) * 1 + b
    ensures Value(t) + 0 * Power(BASE, |s|) == Value(s) + b
  {
    ValueSplit(t, i);
    ValueSplit(s, i);
    assert t[i..] == s[i..];
  }

  lemma ZeroShift()
    ensures Pow2(0) == 1
  {
  }

  lemma NormRemainder(r: nat, l: nat, b0: nat, c: nat, b: limb)
    requires r < b0 && l < c && b == b0 * c
    ensures r * c + l < b
  {
    MulMono(r + 1, b0, c);
    Distribute(r, 1, c);
  }

  lemma NormShifted(r: nat, l: nat, c: nat, p: nat, w: nat, v: nat)
    requires w + l * p == v * c
    ensures (r * c + l) * p + w == c * (r * p + v)
  {
    assert (r * c + l) * p == (r * c) * p + l * p;
    assert (r * c) * p == c * (r * p);
    assert c * (r * p + v) == c * (r * p) + v * c;
  }

  /** The remainder of a division of multiples of `c` is a multiple of `c`. */
  lemma NormDone(q: nat, b0: nat, c: nat, b: nat, r: nat, x: nat)
    requires b == b0 * c && q * b + r == c * x && r < b && c > 0
    ensures q * b0 + r / c == x && r / c < b0
  {
    assert q * b == (q * b0) * c;
    assert r == (x - q * b0) * c;
    if x < q * b0 { MulMono(x + 1, q * b0, c); }
    DivideIs(r, c, x - q * b0, 0);
    if x - q * b0 >= b0 { MulMono(b0, x - q * b0, c); }
  }

  lemma SmallRemainder(x: nat, c: nat)
    requires x < c
    ensures x % c == x
  {
    DivideIs(x, c, 0, x);
  }

  lemma QuotientLimb(r: limb, a: limb, b: limb)
    requires r < b
    ensures 0 <= (r * BASE + a) / b < BASE && 0 <= (r * BASE + a) % b < b
    ensures BASE * r + a == ((r * BASE + a) / b) * b + (r * BASE + a) % b
  {
    DivMod(r * BASE + a, b);
    QuotientFits(r, a, b, (r * BASE + a) / b);
  }

  /** One more limb at the upper end of what has been multiplied. */
  lemma PrefixStep(done: seq<limb>, s: seq<limb>, i: nat, l: nat, l0: nat, b: nat, t: nat)
    requires i < |s| && |done| == i && t == s[i] * b + l
    requires Value(done) + l * Power(BASE, i) == Value(s[..i]) * b + l0
    ensures Value(done + [t % BASE]) + (t / BASE) * Power(BASE, i + 1) == Value(s[..i + 1]) * b + l0
  {
    hide Value, Power;
    MulStep(Value(done), Value(s[..i]), Power(BASE, i), l, l0, s[i], b, t);
    ValueAppend(done, t % BASE);
    ValuePrefix(s, i);
    PowerNext(i);
  }

  /** One more limb at the lower end of what has been divided. */
  lemma SuffixStep(done: seq<limb>, s: seq<limb>, i: nat, h: nat, r: nat, b: nat, q: limb, r': nat, k: nat)
    requires i < |s|
    requires Value(done) * b + r == h * Power(BASE, k) + Value(s[i + 1..]) && BASE * r + s[i] == q * b + r'
    ensures Value([q] + done) * b + r' == h * Power(BASE, k + 1) + Value(s[i..])
  {
    hide Value, Power;
    NonNegative(h, Power(BASE, k));
    DivStep(Value(done), Value(s[i + 1..]), r, h * Power(BASE, k), b, s[i], q, r');
    ValueSuffix(s, i);
    ValueCons(q, done);
    PowerNext(k);
    assert h * (BASE * Power(BASE, k)) == BASE * (h * Power(BASE, k));
  }

  lemma NonNegative(a: nat, b: nat)
    ensures a * b >= 0
  {
  }

  lemma ValueCons(q: limb, s: seq<limb>)
    ensures Value([q] + s) == q + BASE * Value(s)
  {
    assert ([q] + s)[1..] == s;
  }
}
