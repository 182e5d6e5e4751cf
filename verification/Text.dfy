/** The subject string: 8- or 16-bit units, read one unit at a time or, in Unicode mode, as UTF-16. */
module Text {

  /** `wide` is `cbuf_type == 2`. */
  datatype Text = Text(units: seq<nat>, wide: bool)

  predicate IsHi(c: nat) { 0xd800 <= c < 0xdc00 }

  predicate IsLo(c: nat) { 0xdc00 <= c < 0xe000 }

  function FromSurrogate(hi: nat, lo: nat): nat
    requires IsHi(hi) && IsLo(lo)
  {
    0x10000 + 0x400 * (hi - 0xd800) + (lo - 0xdc00)
  }

  /** A surrogate pair at `p`, both halves in front of `end`. */
  predicate PairAt(s: Text, p: nat, end: nat)
    requires end <= |s.units|
  {
    s.wide && p + 1 < end && IsHi(s.units[p]) && IsLo(s.units[p + 1])
  }

  /** GET_CHAR: the character at `p` of a buffer that ends at `end`, and the position behind it. */
  function CharBefore(s: Text, p: nat, end: nat): nat
    requires p < end <= |s.units|
  {
    if PairAt(s, p, end) then FromSurrogate(s.units[p], s.units[p + 1]) else s.units[p]
  }

  function NextBefore(s: Text, p: nat, end: nat): (q: nat)
    requires p < end <= |s.units|
    ensures p < q <= end
  {
    if PairAt(s, p, end) then p + 2 else p + 1
  }

  /** GET_PREV_CHAR and PREV_CHAR: the character in front of `p` in a buffer that starts at `start`. */
  function PrevAfter(s: Text, p: nat, start: nat): (q: nat)
    requires start < p <= |s.units|
    ensures start <= q < p
  {
    if p >= start + 2 && PairAt(s, p - 2, |s.units|) then p - 2 else p - 1
  }

  function CharAfter(s: Text, p: nat, start: nat): nat
    requires start < p <= |s.units|
  {
    if p >= start + 2 && PairAt(s, p - 2, |s.units|) then FromSurrogate(s.units[p - 2], s.units[p - 1]) else s.units[p - 1]
  }

  function NextPos(s: Text, p: nat): (q: nat)
    requires p < |s.units|
    ensures p < q <= |s.units|
  {
    NextBefore(s, p, |s.units|)
  }

  function CharAt(s: Text, p: nat): nat
    requires p < |s.units|
  {
    CharBefore(s, p, |s.units|)
  }

  function PrevPos(s: Text, p: nat): (q: nat)
    requires 0 < p <= |s.units|
    ensures q < p
  {
    PrevAfter(s, p, 0)
  }

  /** The characters of the subject from position `p` on. */
  function CharsFrom(s: Text, p: nat): seq<nat>
    requires p <= |s.units|
    decreases |s.units| - p
  {
    if p == |s.units| then [] else [CharAt(s, p)] + CharsFrom(s, NextPos(s, p))
  }

  /** The positions that separate them, both ends included. */
  function BoundsFrom(s: Text, p: nat): (b: seq<nat>)
    requires p <= |s.units|
    ensures |b| == |CharsFrom(s, p)| + 1 && b[0] == p
    decreases |s.units| - p
  {
    if p == |s.units| then [p] else [p] + BoundsFrom(s, NextPos(s, p))
  }

  function Chars(s: Text): seq<nat> { CharsFrom(s, 0) }

  /** The position of character `e`, and the end of the subject for `e == |Chars(s)|`. */
  function Pos(s: Text, e: nat): nat
    requires e <= |Chars(s)|
  {
    BoundsFrom(s, 0)[e]
  }

  lemma {:induction false} BoundsFromStep(s: Text, p: nat, e: nat)
    requires p <= |s.units| && e < |CharsFrom(s, p)|
    ensures var b := BoundsFrom(s, p);
            && b[e] < |s.units|
            && CharAt(s, b[e]) == CharsFrom(s, p)[e]
            && NextPos(s, b[e]) == b[e + 1] <= |s.units|
    decreases |s.units| - p
  {
    if p < |s.units| && e > 0 {
      BoundsFromStep(s, NextPos(s, p), e - 1);
    } else if p < |s.units| {
      assert BoundsFrom(s, p)[1] == BoundsFrom(s, NextPos(s, p))[0];
    }
  }

  lemma {:induction false} BoundsFromLast(s: Text, p: nat)
    requires p <= |s.units|
    ensures BoundsFrom(s, p)[|CharsFrom(s, p)|] == |s.units|
    decreases |s.units| - p
  {
    if p < |s.units| {
      BoundsFromLast(s, NextPos(s, p));
    }
  }

  /** Reading forward from a boundary yields the character there and stops at the next boundary;
      reading backward from that one leads back, pairs and lone surrogates included. */
  lemma PosStep(s: Text, e: nat)
    requires e < |Chars(s)|
    ensures Pos(s, e) < |s.units|
    ensures CharAt(s, Pos(s, e)) == Chars(s)[e]
    ensures NextPos(s, Pos(s, e)) == Pos(s, e + 1) <= |s.units|
    ensures PrevPos(s, Pos(s, e + 1)) == Pos(s, e)
    decreases e
  {
    BoundsFromStep(s, 0, e);
    var p := Pos(s, e);
    if e > 0 && Pos(s, e + 1) == p + 1 && p >= 1 && PairAt(s, p - 1, |s.units|) {
      // A high surrogate right before p would have been read together with p.
      PosStep(s, e - 1);
      assert false;
    }
  }

  lemma {:induction false} PosMonotone(s: Text, d: nat, e: nat)
    requires d <= e <= |Chars(s)|
    ensures Pos(s, d) <= Pos(s, e) <= |s.units|
    ensures d < e ==> Pos(s, d) < Pos(s, e)
    decreases e - d
  {
    if d < e {
      PosStep(s, e - 1);
      PosMonotone(s, d, e - 1);
    } else {
      PosEnds(s);
      if e < |Chars(s)| {
        PosStep(s, e);
      }
    }
  }

  lemma PosEnds(s: Text)
    ensures Pos(s, 0) == 0 && Pos(s, |Chars(s)|) == |s.units|
  {
    BoundsFromLast(s, 0);
  }

  /** Positions name boundaries uniquely, so comparing them compares the boundaries. */
  lemma PosInjective(s: Text, d: nat, e: nat)
    requires d <= |Chars(s)| && e <= |Chars(s)|
    ensures Pos(s, d) == Pos(s, e) <==> d == e
    ensures Pos(s, d) < Pos(s, e) <==> d < e
  {
    if d <= e { PosMonotone(s, d, e); } else { PosMonotone(s, e, d); }
  }

  /** Reading forward inside a capture that ends at a boundary, and backward inside one that starts at a
      boundary, yields the characters of the subject. */
  lemma PosInside(s: Text, d: nat, e: nat)
    requires d < e <= |Chars(s)|
    ensures Pos(s, d) < Pos(s, e) <= |s.units|
    ensures CharBefore(s, Pos(s, d), Pos(s, e)) == Chars(s)[d]
    ensures NextBefore(s, Pos(s, d), Pos(s, e)) == Pos(s, d + 1)
    ensures CharAfter(s, Pos(s, e), Pos(s, d)) == Chars(s)[e - 1]
    ensures PrevAfter(s, Pos(s, e), Pos(s, d)) == Pos(s, e - 1)
  {
    PosStep(s, d);
    PosStep(s, e - 1);
    PosMonotone(s, d + 1, e);
    PosMonotone(s, d, e - 1);
  }

  /** Without Unicode mode a character is a unit. */
  lemma {:induction false} NarrowChars(s: Text, p: nat)
    requires !s.wide && p <= |s.units|
    ensures CharsFrom(s, p) == s.units[p..]
    ensures BoundsFrom(s, p) == seq(|s.units| - p + 1, k => p + k)
    decreases |s.units| - p
  {
    if p < |s.units| {
      NarrowChars(s, p + 1);
      assert BoundsFrom(s, p) == [p] + seq(|s.units| - p, k => p + 1 + k);
    }
  }

  // ----- UTF-16, in numbers

  /** The UTF-16 form of a code point, or a lone unit. */
  function Units(c: nat): seq<nat> {
    if c < 0x10000 then [c] else [0xd800 + (c - 0x10000) / 0x400, 0xdc00 + (c - 0x10000) % 0x400]
  }

  function AllUnits(cs: seq<nat>): seq<nat> {
    if cs == [] then [] else Units(cs[0]) + AllUnits(cs[1..])
  }

  /** No code point above 0x10ffff, and no half of a pair in front of the other half. */
  predicate Paired(cs: seq<nat>) {
    && (forall k :: 0 <= k < |cs| ==> cs[k] < 0x110000)
    && (forall k :: 0 <= k < |cs| - 1 ==> !(0xd800 <= cs[k] <= 0xdbff && 0xdc00 <= cs[k + 1] <= 0xdfff))
  }

  /** In Unicode mode the characters are those that the units are the UTF-16 form of. */
  lemma {:induction false} WideCharsFrom(s: Text, p: nat)
    requires s.wide && p <= |s.units| && forall k :: 0 <= k < |s.units| ==> s.units[k] < 0x10000
    ensures AllUnits(CharsFrom(s, p)) == s.units[p..] && Paired(CharsFrom(s, p))
    decreases |s.units| - p
  {
    hide PairAt, CharAt, NextPos, Units;
    if p < |s.units| {
      var q := NextPos(s, p);
      WideCharsFrom(s, q);
      OneChar(s, p);
      assert s.units[p..] == s.units[p..q] + s.units[q..];
      if q < |s.units| { NoHalves(s, p, q); }
    }
  }

  lemma NoHalves(s: Text, p: nat, q: nat)
    requires s.wide && p < |s.units| && q == NextPos(s, p) < |s.units|
    ensures CharsFrom(s, q)[0] == CharAt(s, q) && !(0xd800 <= CharAt(s, p) <= 0xdbff && 0xdc00 <= CharAt(s, q) <= 0xdfff)
  {
  }

  lemma OneChar(s: Text, p: nat)
    requires s.wide && p < |s.units| && forall k :: 0 <= k < |s.units| ==> s.units[k] < 0x10000
    ensures Units(CharAt(s, p)) == s.units[p..NextPos(s, p)] && CharAt(s, p) < 0x110000
  {
    if PairAt(s, p, |s.units|) {
      var h, l := s.units[p] - 0xd800, s.units[p + 1] - 0xdc00;
      assert (0x400 * h + l) / 0x400 == h && (0x400 * h + l) % 0x400 == l;
    }
  }

  lemma WideChars(s: Text)
    requires s.wide && forall k :: 0 <= k < |s.units| ==> s.units[k] < 0x10000
    ensures AllUnits(Chars(s)) == s.units && Paired(Chars(s))
  {
    WideCharsFrom(s, 0);
  }

  /** There is only one such reading. */
  lemma {:induction false} ReadingUnique(a: seq<nat>, b: seq<nat>)
    requires Paired(a) && Paired(b) && AllUnits(a) == AllUnits(b)
    ensures a == b
    decreases |a|
  {
    if a == [] || b == [] {
      assert a == [] && b == [];
    } else {
      FirstUnit(a);
      FirstUnit(b);
      var u := AllUnits(a);
      assert a[0] == b[0] by {
        if a[0] < 0x10000 && b[0] >= 0x10000 { SecondUnit(a); }
        if b[0] < 0x10000 && a[0] >= 0x10000 { SecondUnit(b); }
      }
      assert AllUnits(a[1..]) == u[|Units(a[0])|..] == AllUnits(b[1..]);
      assert Paired(a[1..]) && Paired(b[1..]);
      ReadingUnique(a[1..], b[1..]);
      assert a == [a[0]] + a[1..] && b == [b[0]] + b[1..];
    }
  }

  lemma FirstUnit(a: seq<nat>)
    requires Paired(a) && a != []
    ensures var u := AllUnits(a);
            && u != []
            && (a[0] < 0x10000 ==> u[0] == a[0])
            && (a[0] >= 0x10000 ==>
                  |u| >= 2 && 0xd800 <= u[0] <= 0xdbff && 0xdc00 <= u[1] <= 0xdfff && a[0] == 0x10000 + 0x400 * (u[0] - 0xd800) + (u[1] - 0xdc00))
  {
  }

  lemma SecondUnit(a: seq<nat>)
    requires Paired(a) && a != [] && a[0] < 0x10000 && |AllUnits(a)| >= 2 && 0xd800 <= a[0] <= 0xdbff
    ensures !(0xdc00 <= AllUnits(a)[1] <= 0xdfff)
  {
    assert AllUnits(a) == [a[0]] + AllUnits(a[1..]);
    assert a[1..] != [];
    FirstUnit(a[1..]);
    assert a[1..][0] == a[1];
  }

  /** The position of a character is behind the units of those before it. */
  lemma {:induction false} UnitsBefore(s: Text, e: nat)
    requires s.wide && e <= |Chars(s)| && forall k :: 0 <= k < |s.units| ==> s.units[k] < 0x10000
    ensures Pos(s, e) <= |s.units| && AllUnits(Chars(s)[..e]) == s.units[..Pos(s, e)]
    decreases e
  {
    PosEnds(s);
    if e > 0 {
      UnitsBefore(s, e - 1);
      PosStep(s, e - 1);
      OneChar(s, Pos(s, e - 1));
      assert Chars(s)[..e] == Chars(s)[..e - 1] + [Chars(s)[e - 1]];
      UnitsAppend(Chars(s)[..e - 1], Chars(s)[e - 1]);
      assert s.units[..Pos(s, e)] == s.units[..Pos(s, e - 1)] + s.units[Pos(s, e - 1)..Pos(s, e)];
    }
  }

  lemma {:induction false} UnitsAppend(a: seq<nat>, c: nat)
    ensures AllUnits(a + [c]) == AllUnits(a) + Units(c)
  {
    if a == [] {
      assert a + [c] == [c] && [c][1..] == [];
    } else {
      assert (a + [c])[1..] == a[1..] + [c];
      UnitsAppend(a[1..], c);
    }
  }
}
