/** unicode_normalize over any consistent tables of decompositions, compositions and combining classes. */
module Normalization {
  import opened Canonical

  /** For one kind of decomposition, canonical or compatibility. An empty decomposition, and the composition 0,
      stand for none. `rank` shows that decompositions come to an end. */
  datatype Tables = Tables(cc: nat -> nat, decomp: nat -> seq<nat>, comp: (nat, nat) -> nat, rank: nat -> nat)

  // ----- Hangul

  const S_BASE := 0xac00
  const L_BASE := 0x1100
  const V_BASE := 0x1161
  const T_BASE := 0x11a7

  predicate Syllable(c: nat) {
    S_BASE <= c < S_BASE + 11172
  }

  predicate Leading(c: nat) {
    L_BASE <= c < L_BASE + 19
  }

  predicate Vowel(c: nat) {
    V_BASE <= c < V_BASE + 21
  }

  /** The test of compose_pair also takes T_BASE itself for a trailing consonant. */
  predicate Trailing(c: nat) {
    T_BASE <= c < T_BASE + 28
  }

  predicate OpenSyllable(c: nat) {
    Syllable(c) && (c - S_BASE) % 28 == 0
  }

  function HangulDecomp(c: nat): seq<nat>
    requires Syllable(c)
  {
    var s := c - S_BASE;
    [L_BASE + s / 588, V_BASE + s % 588 / 28] + if s % 28 != 0 then [T_BASE + s % 28] else []
  }

  /** What the tables must satisfy. Nothing in them concerns Hangul. */
  ghost predicate Consistent(t: Tables) {
    && (forall c, k :: 0 <= k < |t.decomp(c)| ==> t.rank(t.decomp(c)[k]) < t.rank(c))
    && (forall c :: Leading(c) || Vowel(c) || Trailing(c) ==> t.decomp(c) == [] && t.cc(c) == 0)
    && (forall c :: Syllable(c) ==> t.cc(c) == 0)
    && (forall c :: t.cc(c) < 256)
    && (forall a, b :: t.comp(a, b) != 0 ==> ComposesOk(t, a, b, t.comp(a, b)))
  }

  /** A composition undoes a decomposition into two characters, and a starter stays a starter. */
  predicate ComposesOk(t: Tables, a: nat, b: nat, p: nat) {
    && !Syllable(p) && t.decomp(p) == [a, b] && (t.cc(a) == 0 ==> t.cc(p) == 0)
    && !Syllable(a) && !Leading(a) && !Leading(b) && !Vowel(b) && !Trailing(b)
  }

  // ----- full decomposition

  ghost predicate Ends(t: Tables) {
    forall x, k :: 0 <= k < |t.decomp(x)| ==> t.rank(t.decomp(x)[k]) < t.rank(x)
  }

  ghost function FullChar(t: Tables, c: nat): seq<nat>
    requires Ends(t)
    decreases t.rank(c), 1, 0
  {
    if Syllable(c) then HangulDecomp(c) else if t.decomp(c) == [] then [c] else FullBelow(t, t.decomp(c), t.rank(c))
  }

  ghost function FullBelow(t: Tables, s: seq<nat>, bound: nat): seq<nat>
    requires Ends(t) && forall k :: 0 <= k < |s| ==> t.rank(s[k]) < bound
    decreases bound, 0, |s|
  {
    if s == [] then [] else FullChar(t, s[0]) + FullBelow(t, s[1..], bound)
  }

  /** The full decomposition of a string, before any reordering. */
  ghost function Full(t: Tables, s: seq<nat>): seq<nat>
    requires Ends(t)
  {
    if s == [] then [] else FullChar(t, s[0]) + Full(t, s[1..])
  }

  lemma {:induction false} FullBelowIs(t: Tables, s: seq<nat>, bound: nat)
    requires Ends(t) && forall k :: 0 <= k < |s| ==> t.rank(s[k]) < bound
    ensures FullBelow(t, s, bound) == Full(t, s)
    decreases |s|
  {
    if s != [] { FullBelowIs(t, s[1..], bound); }
  }

  lemma {:induction false} FullConcat(t: Tables, a: seq<nat>, b: seq<nat>)
    requires Ends(t)
    ensures Full(t, a + b) == Full(t, a) + Full(t, b)
    decreases |a|
  {
    if a == [] {
      assert a + b == b;
    } else {
      assert (a + b)[1..] == a[1..] + b;
      FullConcat(t, a[1..], b);
    }
  }

  lemma FullOne(t: Tables, c: nat)
    requires Ends(t)
    ensures Full(t, [c]) == FullChar(t, c)
  {
    assert Full(t, []) == [];
    assert [c][1..] == [];
  }

  predicate Irreducible(t: Tables, c: nat) {
    !Syllable(c) && t.decomp(c) == []
  }

  lemma {:induction false} FullIrreducible(t: Tables, s: seq<nat>)
    requires Ends(t) && forall k :: 0 <= k < |s| ==> Irreducible(t, s[k])
    ensures Full(t, s) == s
  {
    if s != [] {
      FullIrreducible(t, s[1..]);
      assert s == [s[0]] + s[1..];
    }
  }

  lemma HangulIrreducible(t: Tables, c: nat)
    requires Consistent(t) && Syllable(c)
    ensures forall x :: x in HangulDecomp(c) ==> Irreducible(t, x)
  {
    var s := c - S_BASE;
    assert s / 588 < 19 && s % 588 / 28 < 21;
    forall x | x in HangulDecomp(c) ensures Irreducible(t, x) {
      assert Leading(x) || Vowel(x) || Trailing(x);
    }
  }

  lemma {:induction false} FullCharDone(t: Tables, c: nat)
    requires Consistent(t)
    ensures Ends(t) && forall x :: x in FullChar(t, c) ==> Irreducible(t, x)
    decreases t.rank(c), 1, 0
  {
    if Syllable(c) {
      HangulIrreducible(t, c);
    } else if t.decomp(c) != [] {
      FullBelowDone(t, t.decomp(c), t.rank(c));
    }
  }

  lemma {:induction false} FullBelowDone(t: Tables, s: seq<nat>, bound: nat)
    requires Consistent(t) && forall k :: 0 <= k < |s| ==> t.rank(s[k]) < bound
    ensures Ends(t) && forall x :: x in FullBelow(t, s, bound) ==> Irreducible(t, x)
    decreases bound, 0, |s|
  {
    if s != [] {
      FullCharDone(t, s[0]);
      FullBelowDone(t, s[1..], bound);
    }
  }

  /** Nothing in a full decomposition can be decomposed. */
  lemma {:induction false} FullDone(t: Tables, s: seq<nat>)
    requires Consistent(t)
    ensures Ends(t) && forall x :: x in Full(t, s) ==> Irreducible(t, x)
  {
    if s != [] {
      FullCharDone(t, s[0]);
      FullDone(t, s[1..]);
    }
  }

  class DynBuf {
    var data: seq<nat>

    constructor ()
      ensures data == []
    {
      data := [];
    }

    /** dbuf_put_u32 */
    method Put(c: nat)
      modifies this
      ensures data == old(data) + [c]
    {
      data := data + [c];
    }
  }

  /** to_nfd_rec: the full decomposition is appended to the buffer. */
  method ToNfdRec(t: Tables, dbuf: DynBuf, src: seq<nat>, ghost bound: nat)
    requires Consistent(t) && Ends(t) && forall k :: 0 <= k < |src| ==> t.rank(src[k]) < bound
    modifies dbuf
    ensures dbuf.data == old(dbuf.data) + Full(t, src)
    decreases bound
  {
    hide FullChar, Consistent;
    var i := 0;
    assert src[..0] == [];
    while i < |src|
      invariant 0 <= i <= |src| && dbuf.data == old(dbuf.data) + Full(t, src[..i])
    {
      var c := src[i];
      ghost var before := dbuf.data;
      FullStep(t, src, i);
      CharCases(t, c);
      if Syllable(c) {
        var s := c - S_BASE;
        dbuf.Put(L_BASE + s / 588);
        dbuf.Put(V_BASE + s % 588 / 28);
        var v := s % 28;
        if v != 0 {
          dbuf.Put(T_BASE + v);
        }
      } else {
        var res := t.decomp(c);
        if res != [] {
          ToNfdRec(t, dbuf, res, t.rank(c));
        } else {
          dbuf.Put(c);
        }
      }
      assert dbuf.data == before + FullChar(t, c);
      i := i + 1;
    }
    assert src[..i] == src;
  }

  lemma FullStep(t: Tables, s: seq<nat>, i: nat)
    requires Ends(t) && i < |s|
    ensures Full(t, s[..i + 1]) == Full(t, s[..i]) + FullChar(t, s[i])
  {
    assert s[..i + 1] == s[..i] + [s[i]];
    FullConcat(t, s[..i], [s[i]]);
    FullOne(t, s[i]);
  }

  lemma CharCases(t: Tables, c: nat)
    requires Ends(t)
    ensures Syllable(c) ==> FullChar(t, c) == HangulDecomp(c)
    ensures !Syllable(c) ==> FullChar(t, c) == if t.decomp(c) == [] then [c] else Full(t, t.decomp(c))
  {
    if !Syllable(c) && t.decomp(c) != [] { FullBelowIs(t, t.decomp(c), t.rank(c)); }
  }

  // ----- what the decomposed normal form is

  /** `r` is the canonical ordering of the full decomposition of `s`. */
  ghost predicate IsNfd(t: Tables, s: seq<nat>, r: seq<nat>)
    requires Ends(t)
  {
    Ordered(t.cc, r) && Similar(t.cc, r, Full(t, s))
  }

  lemma NfdUnique(t: Tables, s: seq<nat>, r: seq<nat>, r': seq<nat>)
    requires Ends(t) && IsNfd(t, s, r) && IsNfd(t, s, r')
    ensures r == r'
  {
    SimilarBack(t.cc, r', Full(t, s));
    SimilarTrans(t.cc, r, Full(t, s), r');
    OrderedUnique(t.cc, r, r');
  }

  lemma SimilarBack(cc: Classes, s: seq<nat>, t: seq<nat>)
    requires Similar(cc, s, t)
    ensures Similar(cc, t, s)
  {
  }

  /** Similar strings have the same characters. */
  lemma SimilarElements(cc: Classes, s: seq<nat>, t: seq<nat>)
    requires Similar(cc, s, t)
    ensures forall x :: x in t ==> x in s
  {
    forall x | x in t ensures x in s {
      KeptIn(cc, t, cc(x), x);
      assert Keep(cc, s, cc(x)) == Keep(cc, t, cc(x));
      KeptIn(cc, s, cc(x), x);
    }
  }

  lemma {:induction false} KeptIn(cc: Classes, s: seq<nat>, v: nat, x: nat)
    ensures x in Keep(cc, s, v) ==> x in s
    ensures x in s && cc(x) == v ==> x in Keep(cc, s, v)
  {
    if s != [] { KeptIn(cc, s[1..], v, x); }
  }

  /** The characters of a decomposed normal form cannot be decomposed. */
  lemma NfdIrreducible(t: Tables, s: seq<nat>, r: seq<nat>)
    requires Consistent(t) && Ends(t) && IsNfd(t, s, r)
    ensures forall x :: x in r ==> Irreducible(t, x)
  {
    FullDone(t, s);
    SimilarBack(t.cc, r, Full(t, s));
    SimilarElements(t.cc, Full(t, s), r);
  }

  /** NFD of NFD is NFD. */
  lemma NfdIdempotent(t: Tables, s: seq<nat>, r: seq<nat>)
    requires Consistent(t) && Ends(t) && IsNfd(t, s, r)
    ensures IsNfd(t, r, r)
  {
    NfdIrreducible(t, s, r);
    FullIrreducible(t, r);
  }

  // ----- composition

  /** compose_pair: 0 if there is none. */
  function ComposePair(t: Tables, c0: nat, c1: nat): nat {
    if Leading(c0) && Vowel(c1) then S_BASE + (c0 - L_BASE) * 588 + (c1 - V_BASE) * 28
    else if OpenSyllable(c0) && Trailing(c1) then c0 + c1 - T_BASE
    else t.comp(c0, c1)
  }

  /** The composition that loses its second character. */
  predicate Drops(c0: nat, c1: nat) {
    OpenSyllable(c0) && c1 == T_BASE
  }

  /** A composition is decomposed into what it was made of, unless it loses a character. */
  lemma ComposedFull(t: Tables, a: nat, b: nat)
    requires Consistent(t) && Ends(t) && ComposePair(t, a, b) != 0 && Irreducible(t, b)
    ensures !Drops(a, b) ==> FullChar(t, ComposePair(t, a, b)) == FullChar(t, a) + [b]
    ensures Drops(a, b) ==> ComposePair(t, a, b) == a && t.cc(b) == 0
    ensures t.cc(a) == 0 ==> t.cc(ComposePair(t, a, b)) == 0
  {
    var p := ComposePair(t, a, b);
    if Leading(a) && Vowel(b) {
      LeadingVowel(a - L_BASE, b - V_BASE);
      assert t.decomp(a) == [];
      assert HangulDecomp(p) == [a, b];
      assert FullChar(t, a) == [a];
    } else if OpenSyllable(a) && Trailing(b) {
      OpenTrailing(a - S_BASE, b - T_BASE);
      if b != T_BASE { assert HangulDecomp(p) == HangulDecomp(a) + [b]; }
    } else {
      assert ComposesOk(t, a, b, p);
      CharCases(t, p);
      assert [a, b] == [a] + [b];
      FullConcat(t, [a], [b]);
      FullOne(t, a);
      FullOne(t, b);
      assert FullChar(t, b) == [b];
    }
  }

  lemma LeadingVowel(l: nat, v: nat)
    requires l < 19 && v < 21
    ensures var s := l * 588 + v * 28; s < 11172 && s / 588 == l && s % 588 / 28 == v && s % 28 == 0
  {
  }

  lemma OpenTrailing(s: nat, x: nat)
    requires s < 11172 && s % 28 == 0 && x < 28
    ensures s + x < 11172 && (s + x) / 588 == s / 588 && (s + x) % 588 / 28 == s % 588 / 28 && (s + x) % 28 == x
  {
  }

  /** A triple that is composed and then loses its last character. */
  predicate TripleAt(s: seq<nat>, i: nat) {
    2 <= i < |s| && Leading(s[i - 2]) && Vowel(s[i - 1]) && s[i] == T_BASE
  }

  predicate NoTriple(s: seq<nat>, n: nat) {
    forall i :: 0 <= i < n ==> !TripleAt(s, i)
  }

  /** The last starter, or -1. */
  function LastStarter(cc: Classes, s: seq<nat>): (p: int)
    ensures -1 <= p < |s| && (p >= 0 ==> cc(s[p]) == 0) && forall k :: p < k < |s| ==> cc(s[k]) != 0
  {
    if s == [] then -1 else if cc(s[|s| - 1]) == 0 then |s| - 1 else LastStarter(cc, s[..|s| - 1])
  }

  /** The starter at `sp` is not blocked from the character `b` behind the string. */
  predicate Unblocked(cc: Classes, out: seq<nat>, sp: int, b: nat) {
    0 <= sp < |out| && (sp == |out| - 1 || cc(out[|out| - 1]) < cc(b))
  }

  /** `b` is composed with the starter before it, or stays. */
  function Joined(t: Tables, out: seq<nat>, b: nat): seq<nat> {
    var sp := LastStarter(t.cc, out);
    if Unblocked(t.cc, out, sp, b) && ComposePair(t, out[sp], b) != 0 then out[sp := ComposePair(t, out[sp], b)] else out + [b]
  }

  /** The composition of a string: its characters are joined one by one. */
  function Compose(t: Tables, w: seq<nat>): seq<nat> {
    if w == [] then [] else Joined(t, Compose(t, w[..|w| - 1]), w[|w| - 1])
  }

  lemma ComposeNext(t: Tables, w: seq<nat>, b: nat)
    ensures Compose(t, w + [b]) == Joined(t, Compose(t, w), b)
  {
    assert (w + [b])[..|w|] == w;
  }

  /** The state of the composition: `w` has been decomposed and ordered, `out` is the composition of the characters
      before `i`, `sp` is its last starter; `kept` are the characters that have not been dropped, and `out` is
      their composition as well. */
  ghost predicate Composing(t: Tables, w: seq<nat>, out: seq<nat>, i: nat, sp: int, kept: seq<nat>)
    requires Ends(t)
  {
    && Run(t, w, out, i, sp) && out == Compose(t, w[..i]) == Compose(t, kept)
    && Similar(t.cc, Full(t, out), kept) && Ordered(t.cc, kept)
    && 1 <= |kept| <= i && t.cc(kept[|kept| - 1]) <= t.cc(w[i - 1])
    && (|kept| == i ==> kept == w[..i] && HangulState(w, out, i))
    && (|kept| == i <==> NoTriple(w, i))
  }

  /** Behind the last starter there are combining characters of `w` in order. */
  ghost predicate Run(t: Tables, w: seq<nat>, out: seq<nat>, i: nat, sp: int) {
    && 1 <= |out| <= i <= |w| && Ordered(t.cc, w) && (forall k :: 0 <= k < |w| ==> Irreducible(t, w[k]))
    && -1 <= sp < |out| && (sp >= 0 ==> t.cc(out[sp]) == 0)
    && (forall k :: sp < k < |out| ==> Irreducible(t, out[k]) && 0 < t.cc(out[k]) <= t.cc(w[i - 1]))
    && (forall k, l :: sp < k < l < |out| ==> t.cc(out[k]) <= t.cc(out[l]))
  }

  predicate HangulState(w: seq<nat>, out: seq<nat>, i: nat)
    requires |out| >= 1 && 1 <= i <= |w|
  {
    var last := out[|out| - 1];
    && (Leading(last) <==> Leading(w[i - 1])) && (Leading(last) ==> last == w[i - 1])
    && (OpenSyllable(last) <==> i >= 2 && Leading(w[i - 2]) && Vowel(w[i - 1]))
  }

  lemma ComposeStart(t: Tables, w: seq<nat>)
    requires Consistent(t) && Ends(t) && |w| >= 1 && Ordered(t.cc, w) && (forall k :: 0 <= k < |w| ==> Irreducible(t, w[k]))
    ensures Composing(t, w, w[..1], 1, if t.cc(w[0]) == 0 then 0 else -1, w[..1])
  {
    assert w[..1] == [] + [w[0]] == [w[0]];
    FullIrreducible(t, w[..1]);
    ComposeNext(t, [], w[0]);
    SimilarSelf(t.cc, w[..1]);
  }

  lemma RunStarter(t: Tables, w: seq<nat>, out: seq<nat>, i: nat, sp: int)
    requires Run(t, w, out, i, sp)
    ensures LastStarter(t.cc, out) == sp
  {
  }

  /** One character more, which is not dropped. */
  lemma OneKept(t: Tables, w: seq<nat>, out: seq<nat>, i: nat, sp: int, kept: seq<nat>, out': seq<nat>, sp': int)
    requires Ends(t) && Composing(t, w, out, i, sp, kept) && i < |w| && out' == Joined(t, out, w[i])
    requires Similar(t.cc, Full(t, out'), kept + [w[i]]) && Run(t, w, out', i + 1, sp')
    requires |kept| == i ==> HangulState(w, out', i + 1) && !TripleAt(w, i)
    ensures Composing(t, w, out', i + 1, sp', kept + [w[i]])
  {
    hide Similar, Joined, Run, HangulState, TripleAt, NoTriple, Compose, Full, Ordered;
    ComposeNext(t, w[..i], w[i]);
    ComposeNext(t, kept, w[i]);
    assert w[..i + 1] == w[..i] + [w[i]];
    RunOrdered(t, w, out, i, sp);
    OrderedOne(t.cc, kept, w[i]);
    NextTriple(w, i);
  }

  lemma NextTriple(w: seq<nat>, i: nat)
    ensures NoTriple(w, i + 1) <==> NoTriple(w, i) && !TripleAt(w, i)
  {
    hide TripleAt;
  }

  lemma OrderedOne(cc: Classes, s: seq<nat>, b: nat)
    requires Ordered(cc, s) && (s != [] ==> cc(b) == 0 || cc(s[|s| - 1]) <= cc(b))
    ensures Ordered(cc, s + [b])
  {
  }

  lemma RunOrdered(t: Tables, w: seq<nat>, out: seq<nat>, i: nat, sp: int)
    requires Run(t, w, out, i, sp) && i < |w|
    ensures t.cc(w[i]) == 0 || t.cc(w[i - 1]) <= t.cc(w[i])
  {
  }

  lemma SimilarOne(cc: Classes, a: seq<nat>, k: seq<nat>, b: nat)
    requires Similar(cc, a, k)
    ensures Similar(cc, a + [b], k + [b])
  {
    forall v ensures Keep(cc, a + [b], v) == Keep(cc, k + [b], v) {
      KeepConcat(cc, a, [b], v);
      KeepConcat(cc, k, [b], v);
    }
  }

  /** A character that stays. */
  lemma Appended(t: Tables, w: seq<nat>, out: seq<nat>, i: nat, sp: int, kept: seq<nat>)
    requires Consistent(t) && Ends(t) && Composing(t, w, out, i, sp, kept) && i < |w|
    requires Unblocked(t.cc, out, sp, w[i]) ==> ComposePair(t, out[sp], w[i]) == 0
    ensures Composing(t, w, out + [w[i]], i + 1, if t.cc(w[i]) == 0 then |out| else sp, kept + [w[i]])
  {
    hide Similar, Run, HangulState, TripleAt, ComposePair, Full, NoTriple, Ordered, Unblocked, Compose, Consistent;
    var b, sp' := w[i], if t.cc(w[i]) == 0 then |out| else sp;
    RunStarter(t, w, out, i, sp);
    AppendedText(t, w, out, i, sp);
    AppendedRun(t, w, out, i, sp);
    SimilarOne(t.cc, Full(t, out), kept, b);
    if |kept| == i { AppendedHangul(t, w, out, i, sp); }
    OneKept(t, w, out, i, sp, kept, out + [b], sp');
  }

  lemma AppendedText(t: Tables, w: seq<nat>, out: seq<nat>, i: nat, sp: int)
    requires Ends(t) && Run(t, w, out, i, sp) && i < |w|
    ensures Full(t, out + [w[i]]) == Full(t, out) + [w[i]]
  {
    assert Irreducible(t, w[i]);
    FullConcat(t, out, [w[i]]);
    FullOne(t, w[i]);
  }

  lemma AppendedRun(t: Tables, w: seq<nat>, out: seq<nat>, i: nat, sp: int)
    requires Run(t, w, out, i, sp) && i < |w|
    ensures Run(t, w, out + [w[i]], i + 1, if t.cc(w[i]) == 0 then |out| else sp)
  {
    assert t.cc(w[i]) == 0 || t.cc(w[i - 1]) <= t.cc(w[i]);
  }

  lemma AppendedHangul(t: Tables, w: seq<nat>, out: seq<nat>, i: nat, sp: int)
    requires Consistent(t) && Run(t, w, out, i, sp) && i < |w| && HangulState(w, out, i)
    requires Unblocked(t.cc, out, sp, w[i]) ==> ComposePair(t, out[sp], w[i]) == 0
    ensures HangulState(w, out + [w[i]], i + 1) && !TripleAt(w, i)
  {
    var last := out[|out| - 1];
    if Leading(last) || OpenSyllable(last) {
      assert t.cc(last) == 0 && sp == |out| - 1;
    }
  }

  /** A combining character moves to the front of those of smaller classes. */
  lemma {:induction false} MoveBack(cc: Classes, x: seq<nat>, mids: seq<nat>, b: nat, rest: seq<nat>)
    requires forall k :: 0 <= k < |mids| ==> 0 < cc(mids[k]) < cc(b)
    ensures Similar(cc, x + [b] + mids + rest, x + mids + [b] + rest)
    decreases |mids|
  {
    if mids == [] {
      assert x + [b] + mids + rest == x + mids + [b] + rest;
      SimilarSelf(cc, x + [b] + rest);
    } else {
      var m, ms := mids[0], mids[1..];
      MoveBack(cc, x + [m], ms, b, rest);
      SwapSimilar(cc, x, b, m, ms + rest);
      assert x + [b] + mids + rest == x + [b] + [m] + (ms + rest);
      assert x + [m] + [b] + ms + rest == x + [m] + [b] + (ms + rest);
      assert x + [m] + ms + [b] + rest == x + mids + [b] + rest;
      SimilarTrans(cc, x + [b] + mids + rest, x + [m] + [b] + ms + rest, x + mids + [b] + rest);
    }
  }

  /** The decomposition before and after a composition. */
  lemma ComposedText(t: Tables, w: seq<nat>, out: seq<nat>, i: nat, sp: int)
    requires Consistent(t) && Ends(t) && Run(t, w, out, i, sp) && i < |w| && Unblocked(t.cc, out, sp, w[i]) && ComposePair(t, out[sp], w[i]) != 0
    ensures var x, mids := Full(t, out[..sp]) + FullChar(t, out[sp]), out[sp + 1..];
            && (forall k :: 0 <= k < |mids| ==> 0 < t.cc(mids[k]) < t.cc(w[i]))
            && Full(t, out) == x + mids
            && (!Drops(out[sp], w[i]) ==> Full(t, out[sp := ComposePair(t, out[sp], w[i])]) == x + [w[i]] + mids)
            && (Drops(out[sp], w[i]) ==> out[sp := ComposePair(t, out[sp], w[i])] == out && mids == [] && t.cc(w[i]) == 0)
  {
    var a, b, mids := out[sp], w[i], out[sp + 1..];
    var p := ComposePair(t, a, b);
    MidsBelow(t, w, out, i, sp);
    ComposedFull(t, a, b);
    FullIrreducible(t, mids);
    hide *;
    FullThree(t, out, sp, a);
    FullThree(t, out[sp := p], sp, p);
    OnlyOneSet(out, sp, p);
    Regroup(Full(t, out[..sp]), FullChar(t, a), mids, b);
  }

  lemma OnlyOneSet(out: seq<nat>, sp: nat, p: nat)
    requires sp < |out|
    ensures out[sp := p][..sp] == out[..sp] && out[sp := p][sp + 1..] == out[sp + 1..] && (p == out[sp] ==> out[sp := p] == out)
  {
  }

  lemma Regroup(x: seq<nat>, y: seq<nat>, mids: seq<nat>, b: nat)
    ensures x + (y + [b]) + mids == x + y + [b] + mids
  {
  }

  /** The characters between are of smaller classes. */
  lemma MidsBelow(t: Tables, w: seq<nat>, out: seq<nat>, i: nat, sp: int)
    requires Run(t, w, out, i, sp) && i < |w| && Unblocked(t.cc, out, sp, w[i])
    ensures var mids := out[sp + 1..]; forall k :: 0 <= k < |mids| ==> 0 < t.cc(mids[k]) < t.cc(w[i]) && Irreducible(t, mids[k])
    ensures t.cc(w[i]) == 0 ==> out[sp + 1..] == []
    ensures Irreducible(t, w[i])
  {
    var mids := out[sp + 1..];
    forall k | 0 <= k < |mids| ensures 0 < t.cc(mids[k]) < t.cc(w[i]) && Irreducible(t, mids[k]) {
      assert mids[k] == out[sp + 1 + k];
    }
  }

  lemma FullThree(t: Tables, s: seq<nat>, k: nat, c: nat)
    requires Ends(t) && k < |s| && s[k] == c
    ensures Full(t, s) == Full(t, s[..k]) + FullChar(t, c) + Full(t, s[k + 1..])
  {
    assert s == s[..k] + [c] + s[k + 1..];
    FullConcat(t, s[..k] + [c], s[k + 1..]);
    FullConcat(t, s[..k], [c]);
    FullOne(t, c);
  }

  /** A character that is composed with the starter before it. */
  lemma Composed(t: Tables, w: seq<nat>, out: seq<nat>, i: nat, sp: int, kept: seq<nat>)
    requires Consistent(t) && Ends(t) && Composing(t, w, out, i, sp, kept) && i < |w|
    requires Unblocked(t.cc, out, sp, w[i]) && ComposePair(t, out[sp], w[i]) != 0
    ensures Composing(t, w, out[sp := ComposePair(t, out[sp], w[i])], i + 1, sp, if Drops(out[sp], w[i]) then kept else kept + [w[i]])
  {
    hide Similar, Run, HangulState, TripleAt, ComposePair, Full, NoTriple, Ordered, Drops, Compose, Consistent, Unblocked;
    var b := w[i];
    UnblockedRange(t.cc, out, sp, b);
    var out' := out[sp := ComposePair(t, out[sp], b)];
    RunStarter(t, w, out, i, sp);
    ComposedRun(t, w, out, i, sp);
    if |kept| == i { ComposedHangul(t, w, out, i, sp); }
    if Drops(out[sp], b) {
      Dropped(t, w, out, i, sp, kept);
    } else {
      ComposedSimilar(t, w, out, i, sp, kept);
      OneKept(t, w, out, i, sp, kept, out', sp);
    }
  }

  lemma UnblockedRange(cc: Classes, out: seq<nat>, sp: int, b: nat)
    requires Unblocked(cc, out, sp, b)
    ensures 0 <= sp < |out|
  {
  }

  lemma ComposedSimilar(t: Tables, w: seq<nat>, out: seq<nat>, i: nat, sp: int, kept: seq<nat>)
    requires Consistent(t) && Ends(t) && Run(t, w, out, i, sp) && i < |w| && Similar(t.cc, Full(t, out), kept)
    requires Unblocked(t.cc, out, sp, w[i]) && ComposePair(t, out[sp], w[i]) != 0 && !Drops(out[sp], w[i])
    ensures Similar(t.cc, Full(t, out[sp := ComposePair(t, out[sp], w[i])]), kept + [w[i]])
  {
    var b := w[i];
    var x, mids := Full(t, out[..sp]) + FullChar(t, out[sp]), out[sp + 1..];
    ComposedText(t, w, out, i, sp);
    hide *;
    MoveBack(t.cc, x, mids, b, []);
    assert x + [b] + mids + [] == x + [b] + mids && x + mids + [b] + [] == x + mids + [b];
    SimilarOne(t.cc, x + mids, kept, b);
    SimilarTrans(t.cc, x + [b] + mids, x + mids + [b], kept + [b]);
  }

  /** U+11A7 behind an open syllable is dropped. */
  lemma Dropped(t: Tables, w: seq<nat>, out: seq<nat>, i: nat, sp: int, kept: seq<nat>)
    requires Consistent(t) && Ends(t) && Composing(t, w, out, i, sp, kept) && i < |w|
    requires Unblocked(t.cc, out, sp, w[i]) && ComposePair(t, out[sp], w[i]) != 0 && Drops(out[sp], w[i])
    requires |kept| == i ==> TripleAt(w, i)
    ensures out[sp := ComposePair(t, out[sp], w[i])] == out && Composing(t, w, out, i + 1, sp, kept)
  {
    hide Similar, Run, HangulState, Full, FullChar, Ordered, Consistent, Compose, ComposePair, NoTriple, TripleAt, Unblocked;
    var b := w[i];
    UnblockedRange(t.cc, out, sp, b);
    DroppedSame(t, w, out, i, sp);
    ComposedRun(t, w, out, i, sp);
    RunStarter(t, w, out, i, sp);
    OpenEnd(t, out, sp, kept);
    ComposeNext(t, w[..i], b);
    assert w[..i + 1] == w[..i] + [b];
    NextTriple(w, i);
  }

  lemma DroppedSame(t: Tables, w: seq<nat>, out: seq<nat>, i: nat, sp: int)
    requires Consistent(t) && Ends(t) && Run(t, w, out, i, sp) && i < |w|
    requires Unblocked(t.cc, out, sp, w[i]) && ComposePair(t, out[sp], w[i]) != 0 && Drops(out[sp], w[i])
    ensures out[sp := ComposePair(t, out[sp], w[i])] == out && sp == |out| - 1 && t.cc(w[i]) == 0 && OpenSyllable(out[sp])
  {
    ComposedText(t, w, out, i, sp);
    hide Consistent, Run, ComposePair, Full, FullChar;
  }

  /** What is decomposed to a string that ends with a starter ends with this starter. */
  lemma OpenEnd(t: Tables, out: seq<nat>, sp: int, kept: seq<nat>)
    requires Consistent(t) && Ends(t) && Similar(t.cc, Full(t, out), kept) && kept != []
    requires 0 <= sp == |out| - 1 && OpenSyllable(out[sp])
    ensures t.cc(kept[|kept| - 1]) == 0
  {
    var d, l := HangulDecomp(out[sp]), kept[|kept| - 1];
    FullThree(t, out, sp, out[sp]);
    assert out[sp + 1..] == [] && d == [d[0]] + [d[1]];
    var front, v := Full(t, out[..sp]) + [d[0]], d[1];
    assert Full(t, out) == front + [v];
    HangulIrreducible(t, out[sp]);
    VowelIn(out[sp]);
    assert t.cc(v) == 0;
    EndKept(t.cc, front, v, t.cc(l));
    EndKept(t.cc, kept[..|kept| - 1], l, t.cc(l));
    assert kept == kept[..|kept| - 1] + [l];
    assert Keep(t.cc, front + [v], t.cc(l)) == Keep(t.cc, kept, t.cc(l));
  }

  lemma VowelIn(c: nat)
    requires OpenSyllable(c)
    ensures Vowel(HangulDecomp(c)[1])
  {
  }

  lemma EndKept(cc: Classes, s: seq<nat>, x: nat, v: nat)
    requires cc(x) == 0 || cc(x) == v
    ensures var k := Keep(cc, s + [x], v); k != [] && k[|k| - 1] == x
  {
    KeepConcat(cc, s, [x], v);
    KeepOne(cc, x, v);
  }

  lemma ComposedRun(t: Tables, w: seq<nat>, out: seq<nat>, i: nat, sp: int)
    requires Consistent(t) && Ends(t) && Run(t, w, out, i, sp) && i < |w| && Unblocked(t.cc, out, sp, w[i]) && ComposePair(t, out[sp], w[i]) != 0
    ensures Run(t, w, out[sp := ComposePair(t, out[sp], w[i])], i + 1, sp)
  {
    ComposedFull(t, out[sp], w[i]);
    hide ComposePair, FullChar;
  }

  lemma ComposedHangul(t: Tables, w: seq<nat>, out: seq<nat>, i: nat, sp: int)
    requires Consistent(t) && Ends(t) && Run(t, w, out, i, sp) && i < |w| && HangulState(w, out, i)
    requires Unblocked(t.cc, out, sp, w[i]) && ComposePair(t, out[sp], w[i]) != 0
    ensures Drops(out[sp], w[i]) <==> TripleAt(w, i)
    ensures !Drops(out[sp], w[i]) ==> HangulState(w, out[sp := ComposePair(t, out[sp], w[i])], i + 1)
  {
    var a, b, last := out[sp], w[i], out[|out| - 1];
    var p := ComposePair(t, a, b);
    if sp < |out| - 1 {
      assert 0 < t.cc(last) < t.cc(b);
    } else if Leading(a) && Vowel(b) {
      LeadingVowel(a - L_BASE, b - V_BASE);
    } else if OpenSyllable(a) && Trailing(b) {
      OpenTrailing(a - S_BASE, b - T_BASE);
    } else {
      assert ComposesOk(t, a, b, p);
    }
  }

  /** Looks for the starter before the characters of the buffer that end at `outLen`; a character of the same
      or a larger class just before blocks the way. */
  method FindStarter(t: Tables, buf: array<nat>, outLen: nat, lastCc0: nat) returns (pos: int, blocked: bool)
    requires 1 <= outLen <= buf.Length && lastCc0 < 256 && forall c :: t.cc(c) < 256
    ensures -1 <= pos < outLen
    ensures !blocked ==> (pos >= 0 ==> t.cc(buf[pos]) == 0) && forall k :: pos < k < outLen ==> t.cc(buf[k]) != 0
    ensures blocked <==> t.cc(buf[outLen - 1]) != 0 && t.cc(buf[outLen - 1]) >= lastCc0
  {
    var lastCc := lastCc0;
    pos, blocked := outLen - 1, false;
    while pos >= 0
      invariant -1 <= pos < outLen && (pos == outLen - 1 ==> lastCc == lastCc0) && (pos < outLen - 1 ==> lastCc == 256)
      invariant (forall k :: pos < k < outLen ==> t.cc(buf[k]) != 0) && (pos < outLen - 1 ==> t.cc(buf[outLen - 1]) < lastCc0)
      decreases pos
    {
      var cc := t.cc(buf[pos]);
      if cc == 0 {
        return;
      }
      if cc >= lastCc {
        return pos, true;
      }
      lastCc := 256;
      pos := pos - 1;
    }
  }

  lemma SameStarter(t: Tables, w: seq<nat>, out: seq<nat>, i: nat, sp: int, pos: int)
    requires Run(t, w, out, i, sp) && -1 <= pos < |out|
    requires (pos >= 0 ==> t.cc(out[pos]) == 0) && forall k :: pos < k < |out| ==> t.cc(out[k]) != 0
    ensures pos == sp
  {
  }

  /** The composition loop of unicode_normalize, in place; `kept` are the characters that it does not drop. */
  method ComposeMarks(t: Tables, buf: array<nat>) returns (outLen: nat, ghost kept: seq<nat>)
    requires Consistent(t) && Ends(t) && buf.Length >= 1 && Ordered(t.cc, buf[..]) && forall k :: 0 <= k < buf.Length ==> Irreducible(t, buf[k])
    modifies buf
    ensures outLen <= buf.Length && buf[..outLen] == Compose(t, old(buf[..])) == Compose(t, kept)
    ensures IsNfd(t, buf[..outLen], kept)
    ensures kept == old(buf[..]) <==> NoTriple(old(buf[..]), buf.Length)
  {
    hide Composing, Run, Similar, Ordered, Consistent, NoTriple, Irreducible, ComposePair, Compose, IsNfd;
    ghost var w := buf[..];
    ComposeStart(t, w);
    SmallClasses(t);
    assert buf[..1] == w[..1];
    var i := 1;
    outLen := 1;
    kept := w[..1];
    ghost var sp: int := if t.cc(w[0]) == 0 then 0 else -1;
    while i < buf.Length
      invariant 1 <= outLen <= i <= buf.Length == |w| && buf[i..] == w[i..] && Composing(t, w, buf[..outLen], i, sp, kept)
    {
      ghost var out := buf[..outLen];
      assert buf[i] == buf[i..][0] == w[i];
      var starterPos, blocked := FindStarter(t, buf, outLen, t.cc(buf[i]));
      StarterFound(t, w, out, i, sp, kept, starterPos, blocked);
      var p := 0;
      if !blocked && starterPos >= 0 {
        assert buf[starterPos] == out[starterPos];
        p := ComposePair(t, buf[starterPos], buf[i]);
      }
      if p != 0 {
        Composed(t, w, out, i, sp, kept);
        if !Drops(buf[starterPos], buf[i]) { kept := kept + [w[i]]; }
        buf[starterPos] := p;
        assert buf[..outLen] == out[starterPos := p];
      } else {
        Appended(t, w, out, i, sp, kept);
        kept := kept + [w[i]];
        if t.cc(buf[i]) == 0 { sp := outLen; }
        buf[outLen] := buf[i];
        outLen := outLen + 1;
        assert buf[..outLen] == out + [w[i]];
      }
      i := i + 1;
      assert buf[i..] == w[i..];
    }
    ComposeEnd(t, w, buf[..outLen], i, sp, kept);
  }

  lemma SmallClasses(t: Tables)
    requires Consistent(t)
    ensures forall c :: t.cc(c) < 256
  {
  }

  lemma StarterFound(t: Tables, w: seq<nat>, out: seq<nat>, i: nat, sp: int, kept: seq<nat>, pos: int, blocked: bool)
    requires Ends(t) && Composing(t, w, out, i, sp, kept) && i < |w| && -1 <= pos < |out|
    requires !blocked ==> (pos >= 0 ==> t.cc(out[pos]) == 0) && forall k :: pos < k < |out| ==> t.cc(out[k]) != 0
    requires blocked <==> t.cc(out[|out| - 1]) != 0 && t.cc(out[|out| - 1]) >= t.cc(w[i])
    ensures !blocked ==> pos == sp
    ensures Unblocked(t.cc, out, sp, w[i]) <==> !blocked && sp >= 0
  {
    hide Similar, HangulState, NoTriple, Irreducible, Compose;
    if !blocked { SameStarter(t, w, out, i, sp, pos); }
  }

  lemma ComposeEnd(t: Tables, w: seq<nat>, out: seq<nat>, i: nat, sp: int, kept: seq<nat>)
    requires Ends(t) && Composing(t, w, out, i, sp, kept) && i == |w|
    ensures out == Compose(t, w) == Compose(t, kept) && IsNfd(t, out, kept)
    ensures kept == w <==> NoTriple(w, |w|)
  {
    assert w[..i] == w;
    SimilarBack(t.cc, Full(t, out), kept);
    hide Similar, Run, HangulState, NoTriple, Compose, Ordered;
  }

  // ----- unicode_normalize

  datatype Form = NFC | NFD | NFKC | NFKD

  ghost function MaxRank(t: Tables, s: seq<nat>): (r: nat)
    ensures forall k :: 0 <= k < |s| ==> t.rank(s[k]) < r
  {
    if s == [] then 0 else
      var r := MaxRank(t, s[..|s| - 1]);
      assert forall k :: 0 <= k < |s| - 1 ==> s[k] == s[..|s| - 1][k];
      if t.rank(s[|s| - 1]) < r then r else t.rank(s[|s| - 1]) + 1
  }

  lemma ConsistentEnds(t: Tables)
    requires Consistent(t)
    ensures Ends(t)
  {
  }

  /** Both strings have the same decomposed normal form. */
  ghost predicate SameNfd(t: Tables, a: seq<nat>, b: seq<nat>)
    requires Ends(t)
  {
    forall r :: IsNfd(t, a, r) <==> IsNfd(t, b, r)
  }

  /** "common case: latin1 is unaffected by NFC" */
  method IsLatin1(src: seq<nat>) returns (r: bool)
    ensures r <==> forall k :: 0 <= k < |src| ==> src[k] < 0x100
  {
    var i := 0;
    while i < |src|
      invariant 0 <= i <= |src| && forall k :: 0 <= k < i ==> src[k] < 0x100
    {
      if src[i] >= 0x100 {
        return false;
      }
      i := i + 1;
    }
    return true;
  }

  /** unicode_normalize with the tables of the kind of decomposition that `form` asks for. Latin-1 text is returned
      as it is for NFC. Otherwise `nfd` is the decomposed normal form of the argument: it is the result for NFD
      and NFKD, and for NFC and NFKC the result is its composition. `kept` is the decomposed normal form of that
      result: the same as that of the argument exactly if there is no <L, V, U+11A7> in it. */
  method Normalize(t: Tables, src: seq<nat>, form: Form) returns (dst: seq<nat>, ghost nfd: seq<nat>, ghost kept: seq<nat>, ghost fast: bool)
    requires Consistent(t)
    ensures Ends(t) && (fast <==> form == NFC && forall k :: 0 <= k < |src| ==> src[k] < 0x100)
    ensures fast ==> dst == src
    ensures !fast ==> IsNfd(t, src, nfd) && dst == if form == NFD || form == NFKD then nfd else Compose(t, nfd)
    ensures !fast ==> IsNfd(t, dst, kept) && (form == NFC || form == NFKC ==> dst == Compose(t, kept))
    ensures form == NFC || form == NFKC ==> (SameNfd(t, dst, src) <==> fast || NoTriple(nfd, |nfd|))
  {
    hide Consistent, Similar, Ordered, NoTriple, Full, IsNfd, Compose;
    ConsistentEnds(t);
    nfd, kept, fast := [], [], false;
    if form == NFC {
      var latin1 := IsLatin1(src);
      if latin1 {
        fast := true;
        return src, nfd, kept, fast;
      }
    }
    var dbuf := new DynBuf();
    ToNfdRec(t, dbuf, src, MaxRank(t, src));
    assert [] + Full(t, src) == Full(t, src);
    var data := dbuf.data;
    var buf := new nat[|data|](i requires 0 <= i < |data| => data[i]);
    assert buf[..] == data;
    SortCc(t.cc, buf);
    nfd := buf[..];
    SortedNfd(t, src, nfd);
    if buf.Length <= 1 || form == NFD || form == NFKD {
      dst, kept := buf[..], nfd;
      ShortNfd(t, src, nfd);
      return;
    }
    forall k | 0 <= k < buf.Length ensures Irreducible(t, buf[k]) { assert buf[k] in nfd; }
    var outLen: nat;
    outLen, kept := ComposeMarks(t, buf);
    dst := buf[..outLen];
    ComposedNfd(t, src, dst, nfd, kept);
  }

  lemma SortedNfd(t: Tables, src: seq<nat>, nfd: seq<nat>)
    requires Consistent(t) && Ends(t) && Ordered(t.cc, nfd) && Similar(t.cc, nfd, Full(t, src))
    ensures IsNfd(t, src, nfd) && forall x :: x in nfd ==> Irreducible(t, x)
  {
    NfdIrreducible(t, src, nfd);
  }

  lemma SameNfdIs(t: Tables, a: seq<nat>, b: seq<nat>, nfd: seq<nat>)
    requires Ends(t) && IsNfd(t, b, nfd)
    ensures SameNfd(t, a, b) <==> IsNfd(t, a, nfd)
  {
    hide IsNfd;
    if IsNfd(t, a, nfd) {
      forall r ensures IsNfd(t, a, r) <==> IsNfd(t, b, r) {
        if IsNfd(t, a, r) { NfdUnique(t, a, r, nfd); }
        if IsNfd(t, b, r) { NfdUnique(t, b, r, nfd); }
      }
    }
  }

  lemma ShortNfd(t: Tables, src: seq<nat>, nfd: seq<nat>)
    requires Consistent(t) && Ends(t) && IsNfd(t, src, nfd)
    ensures IsNfd(t, nfd, nfd)
    ensures |nfd| <= 1 ==> SameNfd(t, nfd, src) && NoTriple(nfd, |nfd|) && Compose(t, nfd) == nfd
  {
    NfdIdempotent(t, src, nfd);
    SameNfdIs(t, nfd, src, nfd);
    if |nfd| == 1 {
      ComposeNext(t, [], nfd[0]);
      assert nfd == [] + [nfd[0]];
    }
  }

  lemma ComposedNfd(t: Tables, src: seq<nat>, dst: seq<nat>, nfd: seq<nat>, kept: seq<nat>)
    requires Ends(t) && IsNfd(t, src, nfd) && IsNfd(t, dst, kept)
    ensures SameNfd(t, dst, src) <==> kept == nfd
  {
    hide IsNfd;
    SameNfdIs(t, dst, src, nfd);
    if IsNfd(t, dst, nfd) { NfdUnique(t, dst, nfd, kept); }
  }

  // ----- text without U+11A7

  lemma {:induction false} FullCharWithout(t: Tables, c: nat)
    requires Ends(t) && c != T_BASE && forall x :: T_BASE !in t.decomp(x)
    ensures T_BASE !in FullChar(t, c)
    decreases t.rank(c), 1, 0
  {
    if !Syllable(c) && t.decomp(c) != [] { FullBelowWithout(t, t.decomp(c), t.rank(c)); }
  }

  lemma {:induction false} FullBelowWithout(t: Tables, s: seq<nat>, bound: nat)
    requires Ends(t) && T_BASE !in s && (forall x :: T_BASE !in t.decomp(x)) && forall k :: 0 <= k < |s| ==> t.rank(s[k]) < bound
    ensures T_BASE !in FullBelow(t, s, bound)
    decreases bound, 0, |s|
  {
    if s != [] {
      FullCharWithout(t, s[0]);
      FullBelowWithout(t, s[1..], bound);
    }
  }

  /** Such a text has no character to lose. */
  lemma WithoutTBase(t: Tables, s: seq<nat>, nfd: seq<nat>)
    requires Consistent(t) && Ends(t) && IsNfd(t, s, nfd) && T_BASE !in s && forall x :: T_BASE !in t.decomp(x)
    ensures NoTriple(nfd, |nfd|)
  {
    FullBelowWithout(t, s, MaxRank(t, s));
    FullBelowIs(t, s, MaxRank(t, s));
    SimilarBack(t.cc, nfd, Full(t, s));
    SimilarElements(t.cc, Full(t, s), nfd);
    assert T_BASE !in nfd;
  }

  /** <U+1100, U+1161, U+11A7> is its own decomposed normal form, and loses its last character. */
  lemma TripleIsNfd(t: Tables)
    requires Consistent(t) && Ends(t)
    ensures IsNfd(t, [0x1100, 0x1161, 0x11a7], [0x1100, 0x1161, 0x11a7]) && !NoTriple([0x1100, 0x1161, 0x11a7], 3)
  {
    var s: seq<nat> := [0x1100, 0x1161, 0x11a7];
    assert Leading(s[0]) && Vowel(s[1]) && Trailing(s[2]);
    FullIrreducible(t, s);
    assert TripleAt(s, 2);
  }
}
