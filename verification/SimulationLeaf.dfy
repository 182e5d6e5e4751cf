/** The emitted code of one-character matchers, assertions and back references does what their matchers say. */
module SimulationLeaf {
  import opened Words
  import opened Bytecode
  import opened Syntax
  import opened Text
  import opened Ecma
  import opened Codegen
  import opened Machine
  import opened Classes
  import opened Relation

  /** Every character is a code point. */
  ghost predicate CodePoints(input: seq<nat>) {
    forall e :: 0 <= e < |input| ==> input[e] <= 0x10ffff
  }

  lemma EmitSetAccepts(node: Node, ncap: nat, c: nat)
    requires IsSetNode(node) && Parsed(node, ncap) && c <= 0x10ffff
    ensures IsCharOp(EmitSet(node)) && Fits(EmitSet(node))
    ensures OpAccepts(EmitSet(node), c) <==> InSet(node, c)
  {
    hide InClass, InRange16, InRange32, EmitRange, Canonical;
    if node.Class? {
      assert Canonical(node.points);
      EmitRangeMatches(node.points, c);
    }
  }

  lemma CharEffect(p: Prog, i: Instr, next: int, t: Thread)
    requires IsCharOp(i) && Fits(i) && Fit(p, t)
    ensures Effects(p, i, next, t)
            == if t.pos == |p.text.units| then NoMatch else Read(p, next, t, OpAccepts(i, CharAt(p.text, t.pos)))
  {
  }

  /** The character instruction itself, run forward from a boundary. */
  lemma SimulateChar(p: Prog, g: Goal, node: Node, pc: nat, x: State, t: Thread, r: Result)
    requires IsSetNode(node) && Parsed(node, p.ncap) && CodePoints(Input(p))
    requires CodeAt(p.code, pc, [EmitSet(node)])
    requires Fit(p, t) && x.end <= |Input(p)| && t.pos == Pos(p.text, x.end)
    requires x.end == |Input(p)| || !InSet(node, Input(p)[x.end]) ==> r == Failure
    requires x.end < |Input(p)| && InSet(node, Input(p)[x.end]) ==>
               Yields(p, pc + Size([EmitSet(node)]), Thread(Pos(p.text, x.end + 1), t.mem), g, r)
    ensures Yields(p, pc, t, g, r)
  {
    hide Effects, Yields, Parsed, InSet, EmitSet, OpAccepts, Pos, Chars, Fits, Encode, Asm, CharAt, NextPos, IsSetNode;
    var i := EmitSet(node);
    PosEnds(p.text);
    if x.end == |Input(p)| {
      EmitSetAccepts(node, p.ncap, 0);
      CharEffect(p, i, pc + Len(i), t);
      YieldsNoMatch(p, pc, i, t, g);
    } else {
      PosStep(p.text, x.end);
      EmitSetAccepts(node, p.ncap, Input(p)[x.end]);
      CharEffect(p, i, pc + Len(i), t);
      if InSet(node, Input(p)[x.end]) {
        AsmOne(i);
        YieldsGo(p, pc, i, t, g, r, pc + Len(i), Pos(p.text, x.end + 1), []);
      } else {
        YieldsNoMatch(p, pc, i, t, g);
      }
    }
  }

  lemma SimulatePrev(p: Prog, g: Goal, pc: nat, e: nat, t: Thread, r: Result)
    requires CodeAt(p.code, pc, [OpPrev])
    requires Fit(p, t) && e <= |Input(p)| && t.pos == Pos(p.text, e)
    requires e == 0 ==> r == Failure
    requires e > 0 ==> Yields(p, pc + 1, Thread(Pos(p.text, e - 1), t.mem), g, r)
    ensures Yields(p, pc, t, g, r)
  {
    hide Yields, Pos;
    PosEnds(p.text);
    if e == 0 {
      YieldsNoMatch(p, pc, OpPrev, t, g);
    } else {
      PosStep(p.text, e - 1);
      PosInjective(p.text, 0, e);
      YieldsGo(p, pc, OpPrev, t, g, r, pc + 1, Pos(p.text, e - 1), []);
    }
  }

  lemma PrevSize()
    ensures Size([OpPrev]) == 1
  {
    AsmOne(OpPrev);
  }

  /** What the matcher of a character set says. */
  ghost function SetResult(input: seq<nat>, node: Node, back: bool, x: State, c: Cont): Result
    requires Accepts(input, back, x, c) && IsSetNode(node)
  {
    if Remaining(input, back, x) == 0 then Failure else MatchChar(input, back, x, c, InSet(node, Adjacent(input, back, x)))
  }

  lemma MSet(input: seq<nat>, node: Node, back: bool, cc: nat, x: State, c: Cont)
    requires Accepts(input, back, x, c) && IsSetNode(node)
    requires cc <= |x.caps| && Parsed(node, |x.caps|)
    ensures M(input, node, back, cc, x, c) == SetResult(input, node, back, x, c)
  {
    hide MatchChar, InSet, Adjacent, Remaining;
  }

  lemma SimulateSet(p: Prog, g: Goal, node: Node, back: bool, pc: nat, ctx: Context, x: State, t: Thread, c: Cont)
    requires IsSetNode(node) && Parsed(node, p.ncap) && CodePoints(Input(p))
    requires CodeAt(p.code, pc, CompSet(node, back))
    requires Rel(p, ctx, x, t) && Accepts(Input(p), back, x, c)
    requires Continues(p, pc + Size(CompSet(node, back)), g, ctx, back, x, {}, true, c)
    ensures Yields(p, pc, t, g, SetResult(Input(p), node, back, x, c))
  {
    hide Yields, Rel, InSet, EmitSet, Pos, Parsed, Chars, Fits, Encode, Asm, IsSetNode, CodeAt;
    var i := EmitSet(node);
    RelFit(p, ctx, x, t);
    RelEnd(p, ctx, x, t);
    var r := SetResult(Input(p), node, back, x, c);
    if back {
      assert CompSet(node, back) == [OpPrev] + ([i] + [OpPrev]);
      CodeSplit(p.code, pc, [OpPrev], [i] + [OpPrev]);
      PrevSize();
      CodeSplit(p.code, pc + 1, [i], [OpPrev]);
      if x.end > 0 && InSet(node, Input(p)[x.end - 1]) {
        var y := State(x.end - 1, x.caps);
        RelMove(p, ctx, x, t, x.end - 1);
        assert Reaches(Input(p), back, x, {}, true, y);
        SimulatePrev(p, g, pc + 1 + Size([i]), x.end, t, r);
      }
      if x.end > 0 {
        var t1 := Thread(Pos(p.text, x.end - 1), t.mem);
        RelMove(p, ctx, x, t, x.end - 1);
        RelFit(p, ctx, State(x.end - 1, x.caps), t1);
        SimulateChar(p, g, node, pc + 1, State(x.end - 1, x.caps), t1, r);
      }
      SimulatePrev(p, g, pc, x.end, t, r);
    } else {
      assert CompSet(node, back) == [i];
      if x.end < |Input(p)| && InSet(node, Input(p)[x.end]) {
        var y := State(x.end + 1, x.caps);
        RelMove(p, ctx, x, t, x.end + 1);
        assert Reaches(Input(p), back, x, {}, true, y);
      }
      SimulateChar(p, g, node, pc, x, t, r);
    }
  }

  lemma RelEnd(p: Prog, ctx: Context, x: State, t: Thread)
    requires Rel(p, ctx, x, t)
    ensures x.end <= |Input(p)| && |x.caps| == p.ncap && t.pos == Pos(p.text, x.end)
  {
  }

  // ----- assertions

  function EmitAssertion(node: Node): Instr
    requires IsAssertion(node)
  {
    match node
    case LineStart(multi) => OpLineStart(multi)
    case LineEnd(multi) => OpLineEnd(multi)
    case WordBoundary(neg) => OpWordBoundary(neg)
  }

  lemma CharBehind(p: Prog, e: nat)
    requires 0 < e <= |Input(p)|
    ensures 0 < Pos(p.text, e) <= |p.text.units| && CharAfter(p.text, Pos(p.text, e), 0) == Input(p)[e - 1]
  {
    hide Pos, CharAfter;
    PosEnds(p.text);
    PosInside(p.text, 0, e);
  }

  lemma SameCharacters()
    ensures forall c: nat :: LineTerminator(c) <==> EndsLine(c)
    ensures forall c: nat :: WordChar(c) <==> WordCharacter(c)
  {
  }

  lemma AssertionEffect(p: Prog, node: Node, next: int, e: nat, t: Thread)
    requires IsAssertion(node) && Fit(p, t) && e <= |Input(p)| && t.pos == Pos(p.text, e)
    ensures Effects(p, EmitAssertion(node), next, t) == if Holds(node, Input(p), e) then Go(next, t.pos, []) else NoMatch
  {
    hide Pos, CharAfter, CharAt, LineTerminator, WordChar, EndsLine, WordCharacter;
    SameCharacters();
    PosEnds(p.text);
    PosInjective(p.text, 0, e);
    PosInjective(p.text, e, |Input(p)|);
    if e > 0 { CharBehind(p, e); }
    if e < |Input(p)| { PosStep(p.text, e); }
  }

  lemma MAssertion(input: seq<nat>, node: Node, back: bool, cc: nat, x: State, c: Cont)
    requires Accepts(input, back, x, c) && IsAssertion(node)
    requires cc <= |x.caps|
    ensures M(input, node, back, cc, x, c) == if Holds(node, input, x.end) then c(x) else Failure
  {
    hide Holds;
  }

  lemma SimulateAssertion(p: Prog, g: Goal, node: Node, back: bool, pc: nat, ctx: Context, x: State, t: Thread, c: Cont)
    requires IsAssertion(node)
    requires CodeAt(p.code, pc, [EmitAssertion(node)])
    requires Rel(p, ctx, x, t) && Accepts(Input(p), back, x, c)
    requires Continues(p, pc + Size([EmitAssertion(node)]), g, ctx, back, x, {}, false, c)
    ensures Yields(p, pc, t, g, if Holds(node, Input(p), x.end) then c(x) else Failure)
  {
    hide Yields, Rel, Holds, Effects, Pos;
    RelFit(p, ctx, x, t);
    RelEnd(p, ctx, x, t);
    var i := EmitAssertion(node);
    AsmOne(i);
    AssertionEffect(p, node, pc + Len(i), x.end, t);
    if Holds(node, Input(p), x.end) {
      assert Reaches(Input(p), back, x, {}, false, x);
      YieldsGo(p, pc, i, t, g, c(x), pc + Len(i), t.pos, []);
    } else {
      YieldsNoMatch(p, pc, i, t, g);
    }
  }

  // ----- back references

  lemma {:induction false} CompareForwardMatches(p: Prog, rs: nat, re: nat, e: nat)
    requires rs <= re <= |Input(p)| && e <= |Input(p)|
    ensures Pos(p.text, re) <= |p.text.units| && Pos(p.text, e) <= |p.text.units|
    ensures var len := re - rs;
            CompareForward(p.text, Pos(p.text, rs), Pos(p.text, re), Pos(p.text, e))
            == if e + len <= |Input(p)| && Input(p)[rs..re] == Input(p)[e..e + len] then Same(Pos(p.text, e + len)) else Differs
    decreases re - rs
  {
    hide Pos, CharBefore, NextBefore;
    var s := p.text;
    var input := Input(p);
    PosMonotone(s, rs, re);
    PosMonotone(s, e, |input|);
    PosEnds(s);
    if rs == re {
      assert input[rs..re] == input[e..e];
    } else {
      PosInside(s, rs, re);
      PosInjective(s, e, |input|);
      if e < |input| {
        PosStep(s, e);
        CompareForwardMatches(p, rs + 1, re, e + 1);
        SliceHead(input, rs, re, e);
      }
    }
  }

  lemma SliceHead(s: seq<nat>, a: nat, b: nat, e: nat)
    requires a < b <= |s| && e < |s|
    ensures e + (b - a) <= |s| ==>
              (s[a..b] == s[e..e + (b - a)] <==> s[a] == s[e] && s[a + 1..b] == s[e + 1..e + (b - a)])
  {
    if e + (b - a) <= |s| {
      assert s[a..b] == [s[a]] + s[a + 1..b];
      assert s[e..e + (b - a)] == [s[e]] + s[e + 1..e + (b - a)];
    }
  }

  lemma SliceTail(s: seq<nat>, a: nat, b: nat, e: nat)
    requires a < b <= |s| && b - a <= e <= |s|
    ensures s[a..b] == s[e - (b - a)..e] <==> s[b - 1] == s[e - 1] && s[a..b - 1] == s[e - (b - a)..e - 1]
  {
    assert s[a..b] == s[a..b - 1] + [s[b - 1]];
    assert s[e - (b - a)..e] == s[e - (b - a)..e - 1] + [s[e - 1]];
    if s[a..b] == s[e - (b - a)..e] {
      assert s[a..b][b - a - 1] == s[b - 1];
      assert s[a..b - 1] == s[a..b][..b - a - 1];
    }
  }

  lemma {:induction false} CompareBackwardMatches(p: Prog, rs: nat, re: nat, e: nat)
    requires rs <= re <= |Input(p)| && e <= |Input(p)|
    ensures Pos(p.text, re) <= |p.text.units| && Pos(p.text, e) <= |p.text.units|
    ensures var len := re - rs;
            CompareBackward(p.text, Pos(p.text, rs), Pos(p.text, re), Pos(p.text, e))
            == if e >= len && Input(p)[rs..re] == Input(p)[e - len..e] then Same(Pos(p.text, e - len)) else Differs
    decreases re - rs
  {
    hide Pos, CharAfter, PrevAfter;
    var s := p.text;
    var input := Input(p);
    PosMonotone(s, rs, re);
    PosMonotone(s, e, |input|);
    PosEnds(s);
    if rs == re {
      assert input[rs..re] == input[e..e];
    } else {
      PosInside(s, rs, re);
      PosInjective(s, 0, e);
      if e > 0 {
        PosInside(s, 0, e);
        CompareBackwardMatches(p, rs, re - 1, e - 1);
        if e >= re - rs { SliceTail(input, rs, re, e); }
      }
    }
  }

  /** A set capture decides; an unset or open one lets the reference match the empty string. */
  lemma BackRefEffects(p: Prog, back: bool, n: nat, next: int, ctx: Context, x: State, t: Thread)
    requires Rel(p, ctx, x, t) && n < p.ncap && ctx.dirty == {} && Fit(p, t)
    ensures var e := BackRefEffect(p, next, back, [n], t);
            match x.caps[n]
            case Undefined => e == Go(next, t.pos, [])
            case Range(rs, re) =>
              && rs <= re <= |Input(p)|
              && var len := re - rs;
                 var f := if back then x.end - len else x.end + len;
                 var g := if back then f else x.end;
                 e == if 0 <= f <= |Input(p)| && Input(p)[rs..re] == Input(p)[g..g + len]
                      then Go(next, Pos(p.text, f), []) else NoMatch
  {
    hide Pos, Chars, CompareForward, CompareBackward;
    assert CellsMatch(p, ctx, x.caps[n], n, (t.mem[2 * n], t.mem[2 * n + 1]));
    assert BackRefEffect(p, next, back, [n][1..], t) == Go(next, t.pos, []);
    match x.caps[n]
    case Undefined =>
    case Range(rs, re) =>
      CompareForwardMatches(p, rs, re, x.end);
      CompareBackwardMatches(p, rs, re, x.end);
      PosMonotone(p.text, rs, re);
  }

  lemma MBackRef(input: seq<nat>, n: nat, back: bool, cc: nat, x: State, c: Cont)
    requires Accepts(input, back, x, c) && cc <= |x.caps| && Parsed(BackRef(n), |x.caps|)
    ensures M(input, BackRef(n), back, cc, x, c) == MatchBackRef(input, back, n, x, c)
  {
    hide MatchBackRef;
  }

  lemma SimulateBackRef(p: Prog, g: Goal, n: nat, back: bool, pc: nat, ctx: Context, x: State, t: Thread, c: Cont)
    requires CodeAt(p.code, pc, [OpBackRef(back, [n])]) && n < p.ncap <= 256
    requires Rel(p, ctx, x, t) && ctx.dirty == {} && Accepts(Input(p), back, x, c)
    requires Continues(p, pc + Size([OpBackRef(back, [n])]), g, ctx, back, x, {}, false, c)
    ensures |x.caps| == p.ncap && Yields(p, pc, t, g, MatchBackRef(Input(p), back, n, x, c))
  {
    hide Yields, Rel, Pos, BackRefEffect, Chars;
    RelFit(p, ctx, x, t);
    RelEnd(p, ctx, x, t);
    var i := OpBackRef(back, [n]);
    AsmOne(i);
    BackRefEffects(p, back, n, pc + Len(i), ctx, x, t);
    var r := MatchBackRef(Input(p), back, n, x, c);
    var e := BackRefEffect(p, pc + Len(i), back, [n], t);
    if e.Go? {
      var f := if x.caps[n].Undefined? then x.end
               else if back then x.end - (x.caps[n].end - x.caps[n].start) else x.end + (x.caps[n].end - x.caps[n].start);
      var y := State(f, x.caps);
      RelMove(p, ctx, x, t, f);
      assert Reaches(Input(p), back, x, {}, false, y);
      assert y == if x.caps[n].Undefined? then x else y;
      YieldsGo(p, pc, i, t, g, r, pc + Len(i), e.pos, []);
    } else {
      YieldsNoMatch(p, pc, i, t, g);
    }
  }
}
