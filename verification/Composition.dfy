/** What NFC and NFKC produce: a normal form, with nothing left to compose; and Latin-1 text is one already. */
module Composition {
  import opened Canonical
  import opened Normalization

  // ----- normalizing twice

  /** The run of the composition over the first `i` characters. */
  lemma {:induction false} ComposeRuns(t: Tables, w: seq<nat>, i: nat) returns (sp: int, kept: seq<nat>)
    requires Consistent(t) && Ends(t) && 1 <= i <= |w| && Ordered(t.cc, w) && forall k :: 0 <= k < |w| ==> Irreducible(t, w[k])
    ensures Composing(t, w, Compose(t, w[..i]), i, sp, kept)
    decreases i
  {
    hide Consistent, Composing, Ordered, Compose, ComposePair, Irreducible, Unblocked;
    if i == 1 {
      sp, kept := if t.cc(w[0]) == 0 then 0 else -1, w[..1];
      ComposeStart(t, w);
      ComposingIs(t, w, w[..1], 1, sp, kept);
    } else {
      sp, kept := ComposeRuns(t, w, i - 1);
      var out, b := Compose(t, w[..i - 1]), w[i - 1];
      if Unblocked(t.cc, out, sp, b) { UnblockedRange(t.cc, out, sp, b); }
      if Unblocked(t.cc, out, sp, b) && ComposePair(t, out[sp], b) != 0 {
        var kept' := if Drops(out[sp], b) then kept else kept + [b];
        Composed(t, w, out, i - 1, sp, kept);
        kept := kept';
        ComposingIs(t, w, out[sp := ComposePair(t, out[sp], b)], i, sp, kept);
      } else {
        Appended(t, w, out, i - 1, sp, kept);
        sp, kept := if t.cc(b) == 0 then |out| else sp, kept + [b];
        ComposingIs(t, w, out + [b], i, sp, kept);
      }
    }
  }

  lemma ComposingIs(t: Tables, w: seq<nat>, out: seq<nat>, i: nat, sp: int, kept: seq<nat>)
    requires Ends(t) && Composing(t, w, out, i, sp, kept)
    ensures i <= |w| && out == Compose(t, w[..i]) && Run(t, w, out, i, sp)
  {
    hide Run, Compose, Similar, HangulState, NoTriple, Ordered;
    RunBounds(t, w, out, i, sp);
  }

  lemma RunBounds(t: Tables, w: seq<nat>, out: seq<nat>, i: nat, sp: int)
    requires Run(t, w, out, i, sp)
    ensures 1 <= |out| <= i <= |w|
  {
  }

  /** The composition of the decomposed normal form of a composition is this composition. */
  lemma NfcIdempotent(t: Tables, s: seq<nat>, w: seq<nat>, w': seq<nat>)
    requires Consistent(t) && Ends(t) && IsNfd(t, s, w) && IsNfd(t, Compose(t, w), w')
    ensures Compose(t, w') == Compose(t, w)
  {
    if w == [] {
      NfdIdempotent(t, s, w);
      NfdUnique(t, [], w, w');
    } else {
      NfdIrreducible(t, s, w);
      var sp, kept := ComposeRuns(t, w, |w|);
      assert w[..|w|] == w;
      ComposeEnd(t, w, Compose(t, w), |w|, sp, kept);
      hide *;
      NfdUnique(t, Compose(t, w), kept, w');
    }
  }

  /** Normalizing a normal form changes nothing, whatever the form. */
  method NormalizeTwice(t: Tables, src: seq<nat>, form: Form) returns (once: seq<nat>, twice: seq<nat>)
    requires Consistent(t)
    ensures twice == once
  {
    hide Consistent, IsNfd, Compose, NoTriple;
    ghost var w, w', kept, kept', fast, fast';
    once, w, kept, fast := Normalize(t, src, form);
    twice, w', kept', fast' := Normalize(t, once, form);
    if !fast && !fast' {
      if form == NFD || form == NFKD {
        NfdIdempotent(t, src, w);
        NfdUnique(t, once, w, w');
      } else {
        NfcIdempotent(t, src, w, w');
      }
    }
  }

  // ----- nothing is left to compose

  /** `b` is not composed with the starter before it. */
  predicate Stays(t: Tables, out: seq<nat>, b: nat) {
    Joined(t, out, b) == out + [b]
  }

  predicate FullyComposed(t: Tables, s: seq<nat>) {
    forall k :: 0 <= k < |s| ==> Stays(t, s[..k], s[k])
  }

  /** Full decompositions are in canonical order, and the second character of a composition cannot be decomposed. */
  ghost predicate Stable(t: Tables)
    requires Ends(t)
  {
    && (forall c :: Ordered(t.cc, FullChar(t, c)))
    && (forall a, b :: t.comp(a, b) != 0 ==> Irreducible(t, b))
  }

  lemma StaysIs(t: Tables, out: seq<nat>, b: nat)
    ensures var sp := LastStarter(t.cc, out); Stays(t, out, b) <==> !Unblocked(t.cc, out, sp, b) || ComposePair(t, out[sp], b) == 0
  {
    var sp := LastStarter(t.cc, out);
    if Unblocked(t.cc, out, sp, b) && ComposePair(t, out[sp], b) != 0 {
      assert |Joined(t, out, b)| == |out| != |out + [b]|;
    }
  }

  /** A composition is not the second character of another one. */
  lemma NotSecond(t: Tables, a: nat, b: nat, x: nat)
    requires Consistent(t) && Ends(t) && Stable(t) && Irreducible(t, b) && ComposePair(t, a, b) != 0 && !Drops(a, b)
    ensures ComposePair(t, x, ComposePair(t, a, b)) == 0
  {
    var p := ComposePair(t, a, b);
    if Leading(a) && Vowel(b) {
      LeadingVowel(a - L_BASE, b - V_BASE);
    } else if OpenSyllable(a) && Trailing(b) {
      OpenTrailing(a - S_BASE, b - T_BASE);
    } else {
      assert ComposesOk(t, a, b, p);
    }
    assert Syllable(p) || t.decomp(p) != [];
    assert !Irreducible(t, p);
  }

  /** Nor is it composed with a combining character of a smaller class than that of its last one. */
  lemma NotSmaller(t: Tables, a: nat, b: nat, m: nat)
    requires Consistent(t) && Ends(t) && Stable(t) && Irreducible(t, b) && ComposePair(t, a, b) != 0 && !Drops(a, b)
    requires Irreducible(t, m) && 0 < t.cc(m) < t.cc(b)
    ensures ComposePair(t, ComposePair(t, a, b), m) == 0
  {
    var p := ComposePair(t, a, b);
    var q := ComposePair(t, p, m);
    ComposedFull(t, a, b);
    if q != 0 {
      NotDropped(t, p, m);
      ComposedFull(t, p, m);
      LastTwo(t, q, FullChar(t, a), b, m);
    }
  }

  lemma NotDropped(t: Tables, p: nat, m: nat)
    requires Consistent(t) && t.cc(m) > 0
    ensures !Drops(p, m)
  {
  }

  lemma LastTwo(t: Tables, q: nat, f: seq<nat>, b: nat, m: nat)
    requires Ends(t) && Stable(t) && FullChar(t, q) == f + [b] + [m] && t.cc(m) > 0
    ensures t.cc(b) <= t.cc(m)
  {
    var s := FullChar(t, q);
    assert Ordered(t.cc, s);
    assert s[|f|] == b && s[|f| + 1] == m;
  }

  lemma FullyAppended(t: Tables, out: seq<nat>, b: nat)
    requires FullyComposed(t, out) && Stays(t, out, b)
    ensures FullyComposed(t, out + [b])
  {
    hide Stays;
    forall k | 0 <= k < |out| + 1 ensures Stays(t, (out + [b])[..k], (out + [b])[k]) {
      assert (out + [b])[..k] == out[..k];
    }
  }

  lemma FullyReplaced(t: Tables, w: seq<nat>, out: seq<nat>, i: nat, sp: int)
    requires Consistent(t) && Ends(t) && Stable(t) && Run(t, w, out, i, sp) && i < |w| && FullyComposed(t, out)
    requires Unblocked(t.cc, out, sp, w[i]) && ComposePair(t, out[sp], w[i]) != 0 && !Drops(out[sp], w[i])
    ensures FullyComposed(t, out[sp := ComposePair(t, out[sp], w[i])])
  {
    var a, b := out[sp], w[i];
    var p := ComposePair(t, a, b);
    var out' := out[sp := p];
    MidsBelow(t, w, out, i, sp);
    ComposedRun(t, w, out, i, sp);
    StarterStays(t, w, out, i, sp);
    hide Consistent, Stable, ComposePair, Irreducible, Stays, Run, Drops;
    forall k | 0 <= k < |out'| ensures Stays(t, out'[..k], out'[k]) {
      StaysIs(t, out'[..k], out'[k]);
      if k < sp {
        assert out'[..k] == out[..k];
      } else if k == sp {
        if LastStarter(t.cc, out'[..k]) >= 0 { NotSecond(t, a, b, out'[..k][LastStarter(t.cc, out'[..k])]); }
      } else {
        assert out[k] == out[sp + 1..][k - sp - 1];
        PrefixStarter(t.cc, out', sp, k);
        NotSmaller(t, a, b, out[k]);
      }
    }
  }

  lemma StarterStays(t: Tables, w: seq<nat>, out: seq<nat>, i: nat, sp: int)
    requires Consistent(t) && Ends(t) && Run(t, w, out, i, sp) && i < |w| && Unblocked(t.cc, out, sp, w[i]) && ComposePair(t, out[sp], w[i]) != 0
    ensures var out' := out[sp := ComposePair(t, out[sp], w[i])]; t.cc(out'[sp]) == 0 && forall k :: sp < k < |out'| ==> t.cc(out'[k]) != 0
  {
    ComposedRun(t, w, out, i, sp);
    hide ComposePair, Consistent;
  }

  lemma PrefixStarter(cc: Classes, s: seq<nat>, sp: nat, k: nat)
    requires sp < k <= |s| && cc(s[sp]) == 0 && forall j :: sp < j < |s| ==> cc(s[j]) != 0
    ensures LastStarter(cc, s[..k]) == sp && s[..k][sp] == s[sp]
  {
    assert forall j :: 0 <= j < k ==> s[..k][j] == s[j];
  }

  lemma {:induction false} NothingLeftTo(t: Tables, s: seq<nat>, w: seq<nat>, i: nat)
    requires Consistent(t) && Ends(t) && Stable(t) && IsNfd(t, s, w) && i <= |w|
    ensures FullyComposed(t, Compose(t, w[..i]))
    decreases i
  {
    hide Consistent, Stable, Compose, ComposePair, FullyComposed, Unblocked, Joined, Stays;
    NfdIrreducible(t, s, w);
    if i <= 1 {
      FewComposed(t, w[..i]);
    } else {
      NothingLeftTo(t, s, w, i - 1);
      var out, b := Compose(t, w[..i - 1]), w[i - 1];
      var sp, kept := ComposeRuns(t, w, i - 1);
      ComposingIs(t, w, out, i - 1, sp, kept);
      assert w[..i] == w[..i - 1] + [b];
      ComposeNext(t, w[..i - 1], b);
      OneMore(t, w, out, i - 1, sp);
    }
  }

  lemma ComposedFully(t: Tables, s: seq<nat>, w: seq<nat>)
    requires Consistent(t) && Ends(t) && Stable(t) && IsNfd(t, s, w)
    ensures FullyComposed(t, Compose(t, w))
  {
    hide *;
    NothingLeftTo(t, s, w, |w|);
    assert w[..|w|] == w;
  }

  /** The characters between `i` and `k` do not block the starter at `i` from the character at `k`. */
  predicate Meet(cc: Classes, s: seq<nat>, i: nat, k: nat) {
    i < k < |s| && cc(s[i]) == 0 && forall j :: i < j < k ==> 0 < cc(s[j]) < cc(s[k])
  }

  /** Neither the table nor the Hangul rule composes the two characters. */
  predicate Uncomposable(t: Tables, a: nat, b: nat) {
    && t.comp(a, b) == 0
    && !(0x1100 <= a <= 0x1112 && 0x1161 <= b <= 0x1175)
    && !(0xac00 <= a <= 0xd7a3 && (a - 0xac00) % 28 == 0 && 0x11a8 <= b <= 0x11c2)
  }

  /** In the result of a composition nothing could be composed any more. */
  lemma NothingLeft(t: Tables, s: seq<nat>, w: seq<nat>, i: nat, k: nat)
    requires Consistent(t) && Ends(t) && Stable(t) && IsNfd(t, s, w) && Meet(t.cc, Compose(t, w), i, k)
    ensures Uncomposable(t, Compose(t, w)[i], Compose(t, w)[k])
  {
    ComposedFully(t, s, w);
    hide Consistent, Stable, Compose, Stays, ComposePair;
    var out := Compose(t, w);
    assert Stays(t, out[..k], out[k]);
    StaysIs(t, out[..k], out[k]);
    PrefixBefore(t.cc, out, i, k);
    NotComposed(t, out[i], out[k]);
  }

  lemma PrefixBefore(cc: Classes, s: seq<nat>, i: nat, k: nat)
    requires Meet(cc, s, i, k)
    ensures LastStarter(cc, s[..k]) == i && s[..k][i] == s[i] && Unblocked(cc, s[..k], i, s[k])
  {
    assert forall j :: 0 <= j < k ==> s[..k][j] == s[j];
  }

  lemma NotComposed(t: Tables, a: nat, b: nat)
    requires ComposePair(t, a, b) == 0
    ensures Uncomposable(t, a, b)
  {
  }

  // ----- Hangul, in numbers

  /** The decomposition of syllables, and of everything else. */
  lemma FullCharacter(t: Tables, c: nat)
    requires Consistent(t) && Ends(t)
    ensures 0xac00 <= c <= 0xd7a3 ==>
              FullChar(t, c) == [0x1100 + (c - 0xac00) / 588, 0x1161 + (c - 0xac00) % 588 / 28]
                                + if (c - 0xac00) % 28 == 0 then [] else [0x11a7 + (c - 0xac00) % 28]
    ensures !(0xac00 <= c <= 0xd7a3) ==> FullChar(t, c) == if t.decomp(c) == [] then [c] else Full(t, t.decomp(c))
  {
    CharCases(t, c);
  }

  lemma FewComposed(t: Tables, w: seq<nat>)
    requires |w| <= 1
    ensures FullyComposed(t, Compose(t, w))
  {
    if |w| == 1 {
      assert w == [] + [w[0]];
      ComposeNext(t, [], w[0]);
      assert Compose(t, w) == [w[0]] && [w[0]][..0] == [];
    }
  }

  lemma OneMore(t: Tables, w: seq<nat>, out: seq<nat>, i: nat, sp: int)
    requires Consistent(t) && Ends(t) && Stable(t) && Run(t, w, out, i, sp) && i < |w| && FullyComposed(t, out)
    ensures FullyComposed(t, Joined(t, out, w[i]))
  {
    var b := w[i];
    RunStarter(t, w, out, i, sp);
    if Unblocked(t.cc, out, sp, b) && ComposePair(t, out[sp], b) != 0 {
      if Drops(out[sp], b) {
        DroppedSame(t, w, out, i, sp);
      } else {
        FullyReplaced(t, w, out, i, sp);
      }
    } else {
      FullyAppended(t, out, b);
    }
    hide Consistent, Stable, ComposePair, FullyComposed, Stays, Run, Drops;
  }

  // ----- "latin1 is unaffected by NFC"

  /** What the canonical tables say about Latin-1: all are starters, none are composed with each other, and what is
      decomposed at all is a letter of Latin-1 with a combining character. */
  predicate Latin1Tables(t: Tables) {
    && (forall c :: 0 <= c < 0x100 ==> t.cc(c) == 0 && Latin1Char(t, c))
    && (forall a, b :: 0 <= a < 0x100 && 0 <= b < 0x100 ==> t.comp(a, b) == 0)
  }

  predicate Latin1Char(t: Tables, c: nat) {
    var d := t.decomp(c);
    d == [] || (c != 0 && |d| == 2 && d[0] < 0x100 && Irreducible(t, d[0]) && Irreducible(t, d[1]) && t.cc(d[1]) > 0 && t.comp(d[0], d[1]) == c)
  }

  lemma Latin1Full(t: Tables, c: nat)
    requires Ends(t) && Latin1Tables(t) && c < 0x100
    ensures FullChar(t, c) == if t.decomp(c) == [] then [c] else t.decomp(c)
  {
    CharCases(t, c);
    assert Latin1Char(t, c);
    if t.decomp(c) != [] { FullIrreducible(t, t.decomp(c)); }
  }

  lemma Latin1Stays(t: Tables, s: seq<nat>, b: nat)
    requires Latin1Tables(t) && b < 0x100 && forall k :: 0 <= k < |s| ==> s[k] < 0x100
    ensures Joined(t, s, b) == s + [b]
  {
    if s != [] {
      assert t.cc(s[|s| - 1]) == 0;
      assert t.comp(s[|s| - 1], b) == 0;
    }
  }

  lemma Latin1Joins(t: Tables, s: seq<nat>, c: nat)
    requires Latin1Tables(t) && c < 0x100 && t.decomp(c) != []
    ensures |t.decomp(c)| == 2 && Joined(t, s + [t.decomp(c)[0]], t.decomp(c)[1]) == s + [c]
  {
    assert Latin1Char(t, c);
    var d := t.decomp(c);
    var out := s + [d[0]];
    assert t.cc(out[|out| - 1]) == 0;
    assert LastStarter(t.cc, out) == |s|;
    assert out[|s| := c] == s + [c];
  }

  /** Character by character: the decomposition is in order, and its composition is the text. */
  lemma {:induction false} Latin1Prefix(t: Tables, s: seq<nat>, i: nat)
    requires Consistent(t) && Ends(t) && Latin1Tables(t) && i <= |s| && forall k :: 0 <= k < |s| ==> s[k] < 0x100
    ensures Ordered(t.cc, Full(t, s[..i])) && Compose(t, Full(t, s[..i])) == s[..i]
    decreases i
  {
    hide Consistent, Latin1Tables, Ordered, Compose, FullChar;
    if i == 0 {
      assert s[..i] == [];
      NothingComposed(t);
    } else {
      var c, f := s[i - 1], Full(t, s[..i - 1]);
      Latin1Prefix(t, s, i - 1);
      FullStep(t, s, i - 1);
      Latin1Full(t, c);
      Latin1Step(t, s[..i - 1], c, f);
      assert s[..i] == s[..i - 1] + [c];
    }
  }

  lemma NothingComposed(t: Tables)
    requires Ends(t)
    ensures Ordered(t.cc, Full(t, [])) && Compose(t, Full(t, [])) == []
  {
  }

  lemma Latin1Step(t: Tables, s: seq<nat>, c: nat, f: seq<nat>)
    requires Latin1Tables(t) && c < 0x100 && (forall k :: 0 <= k < |s| ==> s[k] < 0x100) && Ordered(t.cc, f) && Compose(t, f) == s
    ensures var g := f + if t.decomp(c) == [] then [c] else t.decomp(c); Ordered(t.cc, g) && Compose(t, g) == s + [c]
  {
    assert Latin1Char(t, c) && t.cc(c) == 0;
    var d := t.decomp(c);
    hide Joined, Compose, Ordered;
    if d == [] {
      Latin1Stays(t, s, c);
      ComposeNext(t, f, c);
      OrderedOne(t.cc, f, c);
    } else {
      assert t.cc(d[0]) == 0;
      Latin1Stays(t, s, d[0]);
      ComposeNext(t, f, d[0]);
      OrderedOne(t.cc, f, d[0]);
      ComposeNext(t, f + [d[0]], d[1]);
      OrderedOne(t.cc, f + [d[0]], d[1]);
      Latin1Joins(t, s, c);
      assert f + d == f + [d[0]] + [d[1]];
    }
  }

  /** The fast case of NFC returns what the general one would. */
  lemma Latin1Unaffected(t: Tables, s: seq<nat>, w: seq<nat>)
    requires Consistent(t) && Ends(t) && Latin1Tables(t) && IsNfd(t, s, w) && forall k :: 0 <= k < |s| ==> s[k] < 0x100
    ensures Compose(t, w) == s
  {
    Latin1Prefix(t, s, |s|);
    assert s[..|s|] == s;
    SimilarSelf(t.cc, Full(t, s));
    NfdUnique(t, s, w, Full(t, s));
  }
}
