/** The emitted code of a pattern does what the pattern's matcher says, backtracking included. */
module Simulation {
  import opened Words
  import opened Bytecode
  import opened Syntax
  import opened Text
  import opened Ecma
  import opened Codegen
  import opened Machine
  import opened Relation
  import opened SimulationLeaf
  import opened SimulationBase

  /** Code that stands at `pc`, entered in a state it is ready for, yields the matcher's result for every
      continuation that the code behind it implements. */
  lemma {:induction false} Simulate(p: Prog, g: Goal, node: Node, back: bool, cc: nat, pc: nat, ctx: Context, x: State, t: Thread, c: Cont)
    requires Ready(p, node, back, cc, pc, ctx, x, t) && |x.caps| == p.ncap && Accepts(Input(p), back, x, c)
    requires Continues(p, pc + Size(Comp(node, back, cc, |ctx.regs|)), g, After(ctx, node, back, cc), back, x,
                       SetBy(node, cc), MustAdvance(node), c)
    ensures Yields(p, pc, t, g, M(Input(p), node, back, cc, x, c))
    decreases node, 9
  {
    hide Yields, Comp, Size, Continues, After, SetBy, MustAdvance, M, Ready, Accepts;
    if node.Cat? {
      SimulateCat(p, g, node.left, node.right, back, cc, pc, ctx, x, t, c);
    } else if node.Alt? {
      SimulateAlt(p, g, node.left, node.right, back, cc, pc, ctx, x, t, c);
    } else if node.Group? {
      SimulateGroup(p, g, node.body, back, cc, pc, ctx, x, t, c);
    } else if node.Quant? {
      SimulateQuant(p, g, node.atom, node.min, node.max, node.greedy, back, cc, pc, ctx, x, t, c);
    } else if node.Look? {
      SimulateLook(p, g, node.behind, node.neg, node.body, back, cc, pc, ctx, x, t, c);
    } else {
      SimulateLeafNode(p, g, node, back, cc, pc, ctx, x, t, c);
    }
  }

  lemma SimulateLeafNode(p: Prog, g: Goal, node: Node, back: bool, cc: nat, pc: nat, ctx: Context, x: State, t: Thread, c: Cont)
    requires IsLeaf(node)
    requires Ready(p, node, back, cc, pc, ctx, x, t) && |x.caps| == p.ncap && Accepts(Input(p), back, x, c)
    requires Continues(p, pc + Size(Comp(node, back, cc, |ctx.regs|)), g, After(ctx, node, back, cc), back, x,
                       SetBy(node, cc), MustAdvance(node), c)
    ensures Yields(p, pc, t, g, M(Input(p), node, back, cc, x, c))
  {
    hide Yields, Continues, Rel, CompSet, Asm, Encode, M, CodeAt, CodePoints, Clear;
    assert After(ctx, node, back, cc) == ctx;
    if IsSetNode(node) {
      MSet(Input(p), node, back, cc, x, c);
      SimulateSet(p, g, node, back, pc, ctx, x, t, c);
    } else if IsAssertion(node) {
      MAssertion(Input(p), node, back, cc, x, c);
      SimulateAssertion(p, g, node, back, pc, ctx, x, t, c);
    } else if node.BackRef? {
      MBackRef(Input(p), node.n, back, cc, x, c);
      SimulateBackRef(p, g, node.n, back, pc, ctx, x, t, c);
    } else {
      EmptySize();
      SimulateEmpty(p, g, back, cc, pc, ctx, x, t, c);
    }
  }

  lemma EmptySize()
    ensures Size([]) == 0
  {
  }

  lemma SimulateEmpty(p: Prog, g: Goal, back: bool, cc: nat, pc: nat, ctx: Context, x: State, t: Thread, c: Cont)
    requires Rel(p, ctx, x, t) && Accepts(Input(p), back, x, c) && cc <= |x.caps|
    requires Continues(p, pc, g, ctx, back, x, {}, false, c)
    ensures Yields(p, pc, t, g, M(Input(p), Empty, back, cc, x, c))
  {
    hide Yields, Rel;
    assert Reaches(Input(p), back, x, {}, false, x);
  }

  // ----- sequence

  lemma {:induction false} SimulateCat(p: Prog, g: Goal, a: Node, b: Node, back: bool, cc: nat, pc: nat, ctx: Context, x: State, t: Thread, c: Cont)
    requires Ready(p, Cat(a, b), back, cc, pc, ctx, x, t) && |x.caps| == p.ncap && Accepts(Input(p), back, x, c)
    requires Continues(p, pc + Size(Comp(Cat(a, b), back, cc, |ctx.regs|)), g, After(ctx, Cat(a, b), back, cc), back, x,
                       SetBy(Cat(a, b), cc), MustAdvance(Cat(a, b)), c)
    ensures Yields(p, pc, t, g, M(Input(p), Cat(a, b), back, cc, x, c))
    decreases Cat(a, b), 8
  {
    hide Yields, Comp, M, Asm, Size, Continues, Rel, Encode, Clear, Accepts, DirtyOK, CatCont, CatCode, CodeAt, CodePoints, Ready, After, SetBy, MustAdvance,
         Groups, Parsed, Counters, Depth, Sane;
    var d := |ctx.regs|;
    var cb := cc + Groups(a);
    CompCat(a, b, back, cc, d);
    CatReady(p, a, b, back, cc, pc, ctx, x, t);
    MCat(Input(p), a, b, back, cc, x, c);
    if back {
      SimulateSequence(p, g, Cat(a, b), b, cb, a, cc, back, pc, ctx, x, t, c);
    } else {
      SimulateSequence(p, g, Cat(a, b), a, cc, b, cb, back, pc, ctx, x, t, c);
    }
  }

  lemma CatReady(p: Prog, a: Node, b: Node, back: bool, cc: nat, pc: nat, ctx: Context, x: State, t: Thread)
    requires Ready(p, Cat(a, b), back, cc, pc, ctx, x, t)
    ensures var cb := cc + Groups(a);
            var ca, cd := Comp(a, back, cc, |ctx.regs|), Comp(b, back, cb, |ctx.regs|);
            && Parsed(Cat(a, b), p.ncap) && cc + Groups(Cat(a, b)) <= p.ncap && Groups(Cat(a, b)) == Groups(a) + Groups(b)
            && Parsed(a, p.ncap) && Counters(a, |Input(p)|) && Parsed(b, p.ncap) && Counters(b, |Input(p)|)
            && 2 * p.ncap + |ctx.regs| + Depth(a, back, cc) <= p.nmem && 2 * p.ncap + |ctx.regs| + Depth(b, back, cb) <= p.nmem
            && DirtyOK(ctx, a, back, cc) && DirtyOK(ctx, b, back, cb)
            && Clear(ctx, x, cc, cb) && Clear(ctx, x, cb, cb + Groups(b))
            && Size(CatCode(back, ca, cd)) == Size(ca) + Size(cd)
            && (if back then Ready(p, b, back, cb, pc, ctx, x, t) && CodeAt(p.code, pc + Size(cd), ca)
                else Ready(p, a, back, cc, pc, ctx, x, t) && CodeAt(p.code, pc + Size(ca), cd))
            && After(ctx, Cat(a, b), back, cc) == After(After(ctx, a, back, cc), b, back, cb) == After(After(ctx, b, back, cb), a, back, cc)
            && SetBy(Cat(a, b), cc) == SetBy(a, cc) + SetBy(b, cb) == SetBy(b, cb) + SetBy(a, cc)
            && MustAdvance(Cat(a, b)) == (MustAdvance(a) || MustAdvance(b))
  {
    hide Comp, Asm, Size, Rel, Encode, Clear, DirtyOK, CatCode, CodeAt, CodePoints, After, SetBy, Groups, Parsed, Counters, Depth, Sane;
    var d := |ctx.regs|;
    var cb := cc + Groups(a);
    CompCat(a, b, back, cc, d);
    CatParts(p, a, b, back, cc);
    CatLayout(p, pc, back, Comp(a, back, cc, d), Comp(b, back, cb, d));
    CatDirty(ctx, a, b, back, cc);
    CatSetBy(a, b, cc);
    CatClear(ctx, x, cc, cb, cb + Groups(b));
  }

  lemma CatParts(p: Prog, a: Node, b: Node, back: bool, cc: nat)
    ensures Groups(Cat(a, b)) == Groups(a) + Groups(b)
    ensures Parsed(Cat(a, b), p.ncap) ==> Parsed(a, p.ncap) && Parsed(b, p.ncap)
    ensures Counters(Cat(a, b), |Input(p)|) ==> Counters(a, |Input(p)|) && Counters(b, |Input(p)|)
    ensures Depth(Cat(a, b), back, cc) >= Depth(a, back, cc) && Depth(Cat(a, b), back, cc) >= Depth(b, back, cc + Groups(a))
  {
    hide NeedAdvance, LayoutOf, OwnRegisters, Canonical;
  }

  lemma CatLayout(p: Prog, pc: nat, back: bool, left: seq<Instr>, right: seq<Instr>)
    requires CodeAt(p.code, pc, CatCode(back, left, right))
    ensures Size(CatCode(back, left, right)) == Size(left) + Size(right)
    ensures if back then CodeAt(p.code, pc, right) && CodeAt(p.code, pc + Size(right), left)
            else CodeAt(p.code, pc, left) && CodeAt(p.code, pc + Size(left), right)
  {
    hide CodeAt, Size;
    if back { CodeSplit(p.code, pc, right, left); } else { CodeSplit(p.code, pc, left, right); }
  }

  lemma CatDirty(ctx: Context, a: Node, b: Node, back: bool, cc: nat)
    requires DirtyOK(ctx, Cat(a, b), back, cc)
    ensures DirtyOK(ctx, a, back, cc) && DirtyOK(ctx, b, back, cc + Groups(a))
    ensures After(ctx, Cat(a, b), back, cc) == After(After(ctx, a, back, cc), b, back, cc + Groups(a))
    ensures After(ctx, Cat(a, b), back, cc) == After(After(ctx, b, back, cc + Groups(a)), a, back, cc)
  {
    hide Written, StraightLine, Groups, Span, NeedInit;
    var wa, wb := Written(a, back, cc), Written(b, back, cc + Groups(a));
    var sa, sb := Span(cc, cc + Groups(a)), Span(cc + Groups(a), cc + Groups(a) + Groups(b));
    WrittenInRange(a, back, cc);
    WrittenInRange(b, back, cc + Groups(a));
    CatWritten(a, b, back, cc);
    SpanSplit(cc, cc + Groups(a), cc + Groups(a) + Groups(b));
    HalvesOfSet(ctx.dirty, wa, wb, sa, sb, Span(cc, cc + Groups(Cat(a, b))));
  }

  lemma CatWritten(a: Node, b: Node, back: bool, cc: nat)
    ensures Written(Cat(a, b), back, cc) == Written(a, back, cc) + Written(b, back, cc + Groups(a))
    ensures Groups(Cat(a, b)) == Groups(a) + Groups(b)
    ensures StraightLine(Cat(a, b)) == (StraightLine(a) && StraightLine(b))
  {
    hide Span, NeedInit;
  }

  lemma SpanSplit(lo: nat, mid: nat, hi: nat)
    requires lo <= mid <= hi
    ensures Span(lo, hi) == Span(lo, mid) + Span(mid, hi) && Span(lo, mid) !! Span(mid, hi)
  {
  }

  lemma HalvesOfSet(d: set<nat>, wa: set<nat>, wb: set<nat>, sa: set<nat>, sb: set<nat>, s: set<nat>)
    requires wa <= sa && wb <= sb && sa !! sb && s == sa + sb && d * s <= wa + wb
    ensures d * sa <= wa && d * sb <= wb
    ensures d - (wa + wb) == (d - wa) - wb && d - (wa + wb) == (d - wb) - wa
  {
  }

  lemma CatSetBy(a: Node, b: Node, cc: nat)
    ensures SetBy(Cat(a, b), cc) == SetBy(a, cc) + SetBy(b, cc + Groups(a))
    ensures SetBy(Cat(a, b), cc) == SetBy(b, cc + Groups(a)) + SetBy(a, cc)
  {
  }

  lemma CatClear(ctx: Context, x: State, lo: nat, mid: nat, hi: nat)
    requires Clear(ctx, x, lo, hi) && lo <= mid <= hi
    ensures Clear(ctx, x, lo, mid) && Clear(ctx, x, mid, hi)
  {
  }

  /** The two halves in evaluation order: `first` stands at `pc`, `second` behind it. */
  lemma {:induction false} SimulateSequence(p: Prog, g: Goal, whole: Node, first: Node, cf: nat, second: Node, cs: nat, back: bool, pc: nat,
                           ctx: Context, x: State, t: Thread, c: Cont)
    requires whole.Cat? && ((first == whole.left && second == whole.right) || (second == whole.left && first == whole.right))
    requires Ready(p, first, back, cf, pc, ctx, x, t) && |x.caps| == p.ncap && Accepts(Input(p), back, x, c)
    requires Parsed(second, p.ncap) && cs + Groups(second) <= p.ncap && Counters(second, |Input(p)|)
    requires cs >= cf + Groups(first) || cf >= cs + Groups(second)
    requires CodeAt(p.code, pc + Size(Comp(first, back, cf, |ctx.regs|)), Comp(second, back, cs, |ctx.regs|))
    requires 2 * p.ncap + |ctx.regs| + Depth(second, back, cs) <= p.nmem
    requires Clear(ctx, x, cs, cs + Groups(second)) && DirtyOK(ctx, second, back, cs)
    requires Continues(p, pc + Size(Comp(first, back, cf, |ctx.regs|)) + Size(Comp(second, back, cs, |ctx.regs|)), g,
                       After(After(ctx, first, back, cf), second, back, cs), back, x,
                       SetBy(first, cf) + SetBy(second, cs), MustAdvance(first) || MustAdvance(second), c)
    ensures Yields(p, pc, t, g, M(Input(p), first, back, cf, x, CatCont(Input(p), second, back, cs, x, c)))
    decreases whole, 7
  {
    hide Yields, Comp, M, Asm, Size, Rel, Counters, DirtyOK, Clear, Depth, Parsed, Reaches, CodeAt;
    var pcs := pc + Size(Comp(first, back, cf, |ctx.regs|));
    var ctx1 := After(ctx, first, back, cf);
    var d := CatCont(Input(p), second, back, cs, x, c);
    forall y, t' | Reaches(Input(p), back, x, SetBy(first, cf), MustAdvance(first), y) && Rel(p, ctx1, y, t')
      ensures d.requires(y) && Yields(p, pcs, t', g, d(y))
    {
      SequenceReady(p, first, cf, second, cs, back, pcs, ctx, x, y, t');
      CatApplied(Input(p), second, back, cs, x, c, y);
      ContinuesFrom(p, pcs + Size(Comp(second, back, cs, |ctx.regs|)), g, After(ctx1, second, back, cs), back, x,
                    SetBy(first, cf) + SetBy(second, cs), MustAdvance(first) || MustAdvance(second), c,
                    SetBy(first, cf), MustAdvance(first), y, SetBy(second, cs), MustAdvance(second));
      Simulate(p, g, second, back, cs, pcs, ctx1, y, t', c);
    }
    Simulate(p, g, first, back, cf, pc, ctx, x, t, d);
  }

  lemma SequenceReady(p: Prog, first: Node, cf: nat, second: Node, cs: nat, back: bool, pcs: nat, ctx: Context, x: State, y: State, t: Thread)
    requires Sane(p) && |x.caps| == p.ncap
    requires Parsed(second, p.ncap) && cs + Groups(second) <= p.ncap && Counters(second, |Input(p)|)
    requires cs >= cf + Groups(first) || cf >= cs + Groups(second)
    requires CodeAt(p.code, pcs, Comp(second, back, cs, |ctx.regs|))
    requires 2 * p.ncap + |ctx.regs| + Depth(second, back, cs) <= p.nmem
    requires Clear(ctx, x, cs, cs + Groups(second)) && DirtyOK(ctx, second, back, cs)
    requires Reaches(Input(p), back, x, SetBy(first, cf), MustAdvance(first), y) && Rel(p, After(ctx, first, back, cf), y, t)
    ensures Ready(p, second, back, cs, pcs, After(ctx, first, back, cf), y, t) && |y.caps| == p.ncap
    ensures Ahead(Input(p), back, x, y)
  {
    hide Comp, Rel, CodeAt, Parsed, Counters, Depth, Sane;
    SetByInRange(first, cf);
    WrittenInRange(first, back, cf);
    WrittenInRange(second, back, cs);
  }

  // ----- alternatives

  lemma {:induction false} SimulateAlt(p: Prog, g: Goal, a: Node, b: Node, back: bool, cc: nat, pc: nat, ctx: Context, x: State, t: Thread, c: Cont)
    requires Ready(p, Alt(a, b), back, cc, pc, ctx, x, t) && |x.caps| == p.ncap && Accepts(Input(p), back, x, c)
    requires Continues(p, pc + Size(Comp(Alt(a, b), back, cc, |ctx.regs|)), g, After(ctx, Alt(a, b), back, cc), back, x,
                       SetBy(Alt(a, b), cc), MustAdvance(Alt(a, b)), c)
    ensures Yields(p, pc, t, g, M(Input(p), Alt(a, b), back, cc, x, c))
    decreases Alt(a, b), 8
  {
    hide *;
    var d := |ctx.regs|;
    var cb := cc + Groups(a);
    var input := Input(p);
    var touched, strict := SetBy(Alt(a, b), cc), MustAdvance(Alt(a, b));
    AltCodeAt(p, a, b, back, cc, pc, ctx, x, t);
    var ca, cd := Comp(a, back, cc, d), Comp(b, back, cb, d);
    var pcA, pcG, pcB, pcE := AltLayout(p, pc, ca, cd);
    AltReady(p, a, b, back, cc, pc, pcA, pcB, ctx, x, t);
    MAlt(input, a, b, back, cc, x, c);
    RelFit(p, ctx, x, t);
    RelEnd(p, ctx, x, t);
    ReachesSelf(input, back, x);
    ContinuesFrom(p, pcE, g, ctx, back, x, touched, strict, c, {}, false, x, SetBy(b, cb), MustAdvance(b));
    Simulate(p, g, b, back, cb, pcB, ctx, x, t, c);
    ContinuesFrom(p, pcE, g, ctx, back, x, touched, strict, c, {}, false, x, SetBy(a, cc), MustAdvance(a));
    ContinuesGoto(p, pcG, Size(cd), pcE, g, ctx, back, x, SetBy(a, cc), MustAdvance(a), c);
    Simulate(p, g, a, back, cc, pcA, ctx, x, t, c);
    SplitEffect(p, true, Size(ca) + 5, pc, t);
    YieldsFork(p, pc, OpSplit(true, Size(ca) + 5), t, g, pcA, pcB, [], M(input, a, back, cc, x, c), M(input, b, back, cb, x, c));
    OrIs(M(input, a, back, cc, x, c), M(input, b, back, cb, x, c));
  }

  lemma OrIs(r1: Result, r2: Result)
    ensures Or(r1, r2) == if r1 != Failure then r1 else r2
  {
  }

  lemma AltCodeAt(p: Prog, a: Node, b: Node, back: bool, cc: nat, pc: nat, ctx: Context, x: State, t: Thread)
    requires Ready(p, Alt(a, b), back, cc, pc, ctx, x, t)
    ensures var ca, cd := Comp(a, back, cc, |ctx.regs|), Comp(b, back, cc + Groups(a), |ctx.regs|);
            && Comp(Alt(a, b), back, cc, |ctx.regs|) == AltCode(ca, cd)
            && CodeAt(p.code, pc, AltCode(ca, cd)) && |p.code| <= INT32_MAX / 2
    ensures Rel(p, ctx, x, t) && Fit(p, t)
  {
    hide Rel, CodeAt, Comp, Clear, Groups, Parsed, Counters, Depth, DirtyOK, AltCode, CodePoints;
    CompAlt(a, b, back, cc, |ctx.regs|);
    RelFit(p, ctx, x, t);
  }

  lemma AltReady(p: Prog, a: Node, b: Node, back: bool, cc: nat, pc: nat, pcA: nat, pcB: nat, ctx: Context, x: State, t: Thread)
    requires Ready(p, Alt(a, b), back, cc, pc, ctx, x, t)
    requires CodeAt(p.code, pcA, Comp(a, back, cc, |ctx.regs|)) && CodeAt(p.code, pcB, Comp(b, back, cc + Groups(a), |ctx.regs|))
    ensures Ready(p, a, back, cc, pcA, ctx, x, t) && Ready(p, b, back, cc + Groups(a), pcB, ctx, x, t)
    ensures After(ctx, Alt(a, b), back, cc) == ctx == After(ctx, a, back, cc) == After(ctx, b, back, cc + Groups(a))
    ensures Parsed(Alt(a, b), p.ncap) && cc + Groups(Alt(a, b)) <= p.ncap
    ensures Parsed(a, p.ncap) && Parsed(b, p.ncap) && cc + Groups(a) <= p.ncap && cc + Groups(a) + Groups(b) <= p.ncap
    ensures {} + SetBy(a, cc) <= SetBy(Alt(a, b), cc) && {} + SetBy(b, cc + Groups(a)) <= SetBy(Alt(a, b), cc)
    ensures MustAdvance(Alt(a, b)) ==> MustAdvance(a) && MustAdvance(b)
  {
    hide Rel, CodeAt, Comp, Sane, Clear, Groups, Parsed, Counters, Depth, StraightLine, Span, Written, NeedInit;
    AltParts(p, a, b, back, cc);
    CatClear(ctx, x, cc, cc + Groups(a), cc + Groups(a) + Groups(b));
    assert ctx.dirty == {};
  }

  lemma AltParts(p: Prog, a: Node, b: Node, back: bool, cc: nat)
    ensures Groups(Alt(a, b)) == Groups(a) + Groups(b) && !StraightLine(Alt(a, b))
    ensures Parsed(Alt(a, b), p.ncap) ==> Parsed(a, p.ncap) && Parsed(b, p.ncap)
    ensures Counters(Alt(a, b), |Input(p)|) ==> Counters(a, |Input(p)|) && Counters(b, |Input(p)|)
    ensures Depth(Alt(a, b), back, cc) >= Depth(a, back, cc) && Depth(Alt(a, b), back, cc) >= Depth(b, back, cc + Groups(a))
  {
    hide NeedAdvance, LayoutOf, OwnRegisters, Canonical;
  }

  lemma ReachesSelf(input: seq<nat>, back: bool, x: State)
    requires x.end <= |input|
    ensures Reaches(input, back, x, {}, false, x)
  {
  }

  lemma SplitEffect(p: Prog, nextFirst: bool, off: int, pc: nat, t: Thread)
    requires Fit(p, t)
    ensures var i := OpSplit(nextFirst, off);
            Len(i) == 5
            && Effects(p, i, pc + 5, t) == if nextFirst then Fork(pc + 5, pc + 5 + off, []) else Fork(pc + 5 + off, pc + 5, [])
    ensures Apply(t.mem, []) == t.mem
  {
    Lengths(OpSplit(nextFirst, off));
  }

  /** A goto in front of the continuation's code. */
  lemma ContinuesGoto(p: Prog, pc: nat, off: int, target: nat, g: Goal, ctx: Context, back: bool, x: State, touched: set<nat>, strict: bool, c: Cont)
    requires CodeAt(p.code, pc, [OpGoto(off)]) && Fits(OpGoto(off)) && target == pc + 5 + off
    requires Continues(p, target, g, ctx, back, x, touched, strict, c)
    ensures Continues(p, pc, g, ctx, back, x, touched, strict, c)
  {
    hide Yields, Rel, Reaches, CodeAt;
    Lengths(OpGoto(off));
    forall y, t | Reaches(Input(p), back, x, touched, strict, y) && Rel(p, ctx, y, t)
      ensures c.requires(y) && Yields(p, pc, t, g, c(y))
    {
      RelFit(p, ctx, y, t);
      YieldsGo(p, pc, OpGoto(off), t, g, c(y), target, t.pos, []);
    }
  }

  lemma AltLayout(p: Prog, pc: nat, first: seq<Instr>, second: seq<Instr>) returns (pcA: nat, pcG: nat, pcB: nat, pcE: nat)
    requires CodeAt(p.code, pc, AltCode(first, second)) && |p.code| <= INT32_MAX / 2
    ensures pcA == pc + 5 && pcG == pcA + Size(first) && pcB == pcG + 5 && pcE == pcB + Size(second)
    ensures pcE == pc + Size(AltCode(first, second))
    ensures Fits(OpSplit(true, Size(first) + 5)) && Fits(OpGoto(Size(second)))
    ensures Len(OpSplit(true, Size(first) + 5)) == 5 && Len(OpGoto(Size(second))) == 5
    ensures CodeAt(p.code, pc, [OpSplit(true, Size(first) + 5)]) && CodeAt(p.code, pcA, first)
    ensures CodeAt(p.code, pcG, [OpGoto(Size(second))]) && CodeAt(p.code, pcB, second)
  {
    hide Encode, CodeAt, Size;
    var split, go := OpSplit(true, Size(first) + 5), OpGoto(Size(second));
    Lengths(split);
    Lengths(go);
    CodeHead(p.code, pc, split, first + ([go] + second));
    pcA := pc + 5;
    CodeSplit(p.code, pcA, first, [go] + second);
    pcG := pcA + Size(first);
    CodeHead(p.code, pcG, go, second);
    pcB := pcG + 5;
    CodeFits(p.code, pcB, second);
    pcE := pcB + Size(second);
  }

  // ----- capturing groups

  lemma {:induction false} SimulateGroup(p: Prog, g: Goal, a: Node, back: bool, cc: nat, pc: nat, ctx: Context, x: State, t: Thread, c: Cont)
    requires Ready(p, Group(a), back, cc, pc, ctx, x, t) && |x.caps| == p.ncap && Accepts(Input(p), back, x, c)
    requires Continues(p, pc + Size(Comp(Group(a), back, cc, |ctx.regs|)), g, After(ctx, Group(a), back, cc), back, x,
                       SetBy(Group(a), cc), MustAdvance(Group(a)), c)
    ensures Yields(p, pc, t, g, M(Input(p), Group(a), back, cc, x, c))
    decreases Group(a), 8
  {
    hide Yields, Comp, M, Asm, Size, Rel, Encode, CodeAt, GroupCode, CodePoints, Effects, Fits, Execute, Continues, Pos, Chars,
         Reaches, DirtyOK, Counters, SetBy, Written, MustAdvance, Apply;
    var input := Input(p);
    var body := Comp(a, back, cc + 1, |ctx.regs|);
    CompGroup(a, back, cc, |ctx.regs|);
    MGroup(input, a, back, cc, x, c);
    var pcB, pcS, pcE := GroupLayout(p, pc, back, cc, body);
    var ctx1, t1 := OpenGroup(p, back, cc, ctx, x, t);
    RelFit(p, ctx, x, t);
    RelFit(p, ctx1, x, t1);
    var d := GroupCont(input, back, cc, x, c);
    GroupContinues(p, g, a, back, cc, pcS, pcE, ctx, ctx1, x, c);
    GroupReady(p, a, back, cc, pc, pcB, ctx, x, t, ctx1, t1);
    Simulate(p, g, a, back, cc + 1, pcB, ctx1, x, t1, d);
    SaveEffect(p, back, cc, pc, t);
    YieldsGo(p, pc, OpSave(back, cc), t, g, M(input, a, back, cc + 1, x, d), pcB, t.pos, [Write(2 * cc + Bit(back), t.pos, false)]);
  }

  lemma GroupReady(p: Prog, a: Node, back: bool, cc: nat, pc: nat, pcB: nat, ctx: Context, x: State, t: Thread, ctx1: Context, t1: Thread)
    requires Ready(p, Group(a), back, cc, pc, ctx, x, t) && |x.caps| == p.ncap
    requires CodeAt(p.code, pcB, Comp(a, back, cc + 1, |ctx.regs|))
    requires ctx1.dirty == ctx.dirty && ctx1.regs == ctx.regs && ctx1.env.Keys == ctx.env.Keys + {cc}
    requires Rel(p, ctx1, x, t1)
    ensures Ready(p, a, back, cc + 1, pcB, ctx1, x, t1)
  {
    hide Rel, CodeAt, Sane, Comp;
    assert Written(Group(a), back, cc) == {cc} + Written(a, back, cc + 1);
    assert DirtyOK(ctx1, a, back, cc + 1) by {
      assert ctx1.dirty * Span(cc + 1, cc + 1 + Groups(a)) <= ctx.dirty * Span(cc, cc + Groups(Group(a)));
    }
    assert Clear(ctx1, x, cc + 1, cc + 1 + Groups(a));
  }

  lemma GroupLayout(p: Prog, pc: nat, back: bool, cc: nat, body: seq<Instr>) returns (pcB: nat, pcS: nat, pcE: nat)
    requires CodeAt(p.code, pc, GroupCode(back, cc, body)) && cc < 256
    ensures pcB == pc + 2 && pcS == pcB + Size(body) && pcE == pcS + 2 && pcE == pc + Size(GroupCode(back, cc, body))
    ensures Fits(OpSave(back, cc)) && Fits(OpSave(!back, cc))
    ensures CodeAt(p.code, pc, [OpSave(back, cc)]) && CodeAt(p.code, pcB, body) && CodeAt(p.code, pcS, [OpSave(!back, cc)])
  {
    hide Encode, CodeAt, Size;
    Lengths(OpSave(back, cc));
    Lengths(OpSave(!back, cc));
    CodeHead(p.code, pc, OpSave(back, cc), body + [OpSave(!back, cc)]);
    pcB := pc + 2;
    CodeSplit(p.code, pcB, body, [OpSave(!back, cc)]);
    pcS := pcB + Size(body);
    AsmOne(OpSave(!back, cc));
    SizeIsAsm([OpSave(!back, cc)]);
    pcE := pcS + 2;
  }

  lemma SizeIsAsm(s: seq<Instr>)
    ensures Size(s) == |Asm(s)|
  {
  }

  lemma SaveEffect(p: Prog, isEnd: bool, n: nat, pc: nat, t: Thread)
    requires Fit(p, t) && n < p.ncap && 2 * p.ncap <= p.nmem
    ensures Len(OpSave(isEnd, n)) == 2
    ensures var w := Write(2 * n + Bit(isEnd), t.pos, false);
            Effects(p, OpSave(isEnd, n), pc + 2, t) == Go(pc + 2, t.pos, [w])
            && WritesFit([w], p.nmem) && Apply(t.mem, [w]) == t.mem[2 * n + Bit(isEnd) := t.pos]
  {
    Lengths(OpSave(isEnd, n));
    var w := Write(2 * n + Bit(isEnd), t.pos, false);
    assert Apply(t.mem[w.idx := w.val], [w][1..]) == t.mem[w.idx := w.val];
  }

  /** The first save of a group: its cells are kept as they now are until the group is closed. */
  lemma OpenGroup(p: Prog, back: bool, cc: nat, ctx: Context, x: State, t: Thread) returns (ctx1: Context, t1: Thread)
    requires Rel(p, ctx, x, t) && cc < p.ncap && Clear(ctx, x, cc, cc + 1) && 2 * p.ncap <= p.nmem
    ensures t1 == Thread(t.pos, t.mem[2 * cc + Bit(back) := t.pos])
    ensures ctx1.dirty == ctx.dirty && ctx1.regs == ctx.regs && ctx1.env.Keys == ctx.env.Keys + {cc}
    ensures ctx1.env - {cc} == ctx.env - {cc}
    ensures (if back then ctx1.env[cc].1 else ctx1.env[cc].0) == Pos(p.text, x.end)
    ensures Rel(p, ctx1, x, t1)
  {
    hide Pos, Chars;
    t1 := Thread(t.pos, t.mem[2 * cc + Bit(back) := t.pos]);
    ctx1 := Context(ctx.env[cc := (t1.mem[2 * cc], t1.mem[2 * cc + 1])], ctx.dirty, ctx.regs);
    assert CellsMatch(p, ctx, x.caps[cc], cc, (t.mem[2 * cc], t.mem[2 * cc + 1]));
    assert CellsMatch(p, ctx1, x.caps[cc], cc, (t1.mem[2 * cc], t1.mem[2 * cc + 1]));
    assert ctx1.env - {cc} == ctx.env - {cc};
    RelCells(p, ctx, x, t, ctx1, x.caps, t1.mem, cc);
  }

  /** The second save of a group: both cells are now those of the range that the matcher records. */
  lemma CloseGroup(p: Prog, back: bool, cc: nat, ctx1: Context, ctx': Context, x: State, y: State, t: Thread)
    requires Rel(p, ctx1, y, t) && cc < p.ncap && 2 * p.ncap <= p.nmem && Ahead(Input(p), back, x, y) && x.end <= |Input(p)|
    requires cc in ctx1.env && (if back then ctx1.env[cc].1 else ctx1.env[cc].0) == Pos(p.text, x.end)
    requires cc !in ctx'.env && cc !in ctx'.dirty && ctx'.regs == ctx1.regs
    requires ctx'.dirty - {cc} == ctx1.dirty - {cc} && ctx'.env - {cc} == ctx1.env - {cc}
    ensures Rel(p, ctx', State(y.end, y.caps[cc := if back then Capture.Range(y.end, x.end) else Capture.Range(x.end, y.end)]),
                Thread(t.pos, t.mem[2 * cc + Bit(!back) := t.pos]))
  {
    hide Pos, Chars;
    var mem := t.mem[2 * cc + Bit(!back) := t.pos];
    var cap := if back then Capture.Range(y.end, x.end) else Capture.Range(x.end, y.end);
    assert CellsMatch(p, ctx1, y.caps[cc], cc, (t.mem[2 * cc], t.mem[2 * cc + 1]));
    assert CellsMatch(p, ctx', cap, cc, (mem[2 * cc], mem[2 * cc + 1]));
    RelCells(p, ctx1, y, t, ctx', y.caps[cc := cap], mem, cc);
  }

  lemma SimulateClose(p: Prog, g: Goal, a: Node, back: bool, cc: nat, pcS: nat, pcE: nat, ctx: Context, ctx1: Context, x: State, c: Cont,
                      y: State, t: Thread)
    requires CodeAt(p.code, pcS, [OpSave(!back, cc)]) && Fits(OpSave(!back, cc)) && pcE == pcS + 2
    requires cc < p.ncap && 2 * p.ncap <= p.nmem && |x.caps| == p.ncap && Accepts(Input(p), back, x, c)
    requires cc !in ctx.env && ctx1.dirty == ctx.dirty && ctx1.regs == ctx.regs && cc in ctx1.env
    requires ctx1.env - {cc} == ctx.env - {cc}
    requires (if back then ctx1.env[cc].1 else ctx1.env[cc].0) == Pos(p.text, x.end)
    requires Reaches(Input(p), back, x, SetBy(a, cc + 1), MustAdvance(a), y) && Rel(p, After(ctx1, a, back, cc + 1), y, t)
    requires Continues(p, pcE, g, After(ctx, Group(a), back, cc), back, x, SetBy(Group(a), cc), MustAdvance(Group(a)), c)
    ensures GroupCont(Input(p), back, cc, x, c).requires(y)
    ensures Yields(p, pcS, t, g, GroupCont(Input(p), back, cc, x, c)(y))
  {
    hide Yields, Rel, CodeAt, Effects, Fits, Execute, Pos, Chars;
    var ctx' := After(ctx, Group(a), back, cc);
    var z := State(y.end, y.caps[cc := if back then Capture.Range(y.end, x.end) else Capture.Range(x.end, y.end)]);
    RelFit(p, After(ctx1, a, back, cc + 1), y, t);
    var t' := Thread(t.pos, t.mem[2 * cc + Bit(!back) := t.pos]);
    CloseGroup(p, back, cc, After(ctx1, a, back, cc + 1), ctx', x, y, t);
    assert Reaches(Input(p), back, x, SetBy(Group(a), cc), MustAdvance(Group(a)), z);
    SaveEffect(p, !back, cc, pcS, t);
    YieldsGo(p, pcS, OpSave(!back, cc), t, g, c(z), pcE, t.pos, [Write(2 * cc + Bit(!back), t.pos, false)]);
  }

  lemma GroupContinues(p: Prog, g: Goal, a: Node, back: bool, cc: nat, pcS: nat, pcE: nat, ctx: Context, ctx1: Context, x: State, c: Cont)
    requires CodeAt(p.code, pcS, [OpSave(!back, cc)]) && Fits(OpSave(!back, cc)) && pcE == pcS + 2
    requires cc < p.ncap && 2 * p.ncap <= p.nmem && |x.caps| == p.ncap && Accepts(Input(p), back, x, c)
    requires cc !in ctx.env && ctx1.dirty == ctx.dirty && ctx1.regs == ctx.regs && cc in ctx1.env
    requires ctx1.env - {cc} == ctx.env - {cc}
    requires (if back then ctx1.env[cc].1 else ctx1.env[cc].0) == Pos(p.text, x.end)
    requires Continues(p, pcE, g, After(ctx, Group(a), back, cc), back, x, SetBy(Group(a), cc), MustAdvance(Group(a)), c)
    ensures Continues(p, pcS, g, After(ctx1, a, back, cc + 1), back, x, SetBy(a, cc + 1), MustAdvance(a), GroupCont(Input(p), back, cc, x, c))
  {
    hide Yields, Rel, CodeAt, Fits, Pos, Chars, GroupCont;
    var d := GroupCont(Input(p), back, cc, x, c);
    forall y, t | Reaches(Input(p), back, x, SetBy(a, cc + 1), MustAdvance(a), y) && Rel(p, After(ctx1, a, back, cc + 1), y, t)
      ensures d.requires(y) && Yields(p, pcS, t, g, d(y))
    {
      SimulateClose(p, g, a, back, cc, pcS, pcE, ctx, ctx1, x, c, y, t);
    }
  }

  // ----- lookaround

  lemma {:induction false} SimulateLook(p: Prog, g: Goal, behind: bool, neg: bool, a: Node, back: bool, cc: nat, pc: nat,
                                        ctx: Context, x: State, t: Thread, c: Cont)
    requires Ready(p, Look(behind, neg, a), back, cc, pc, ctx, x, t) && |x.caps| == p.ncap && Accepts(Input(p), back, x, c)
    requires Continues(p, pc + Size(Comp(Look(behind, neg, a), back, cc, |ctx.regs|)), g, After(ctx, Look(behind, neg, a), back, cc), back, x,
                       SetBy(Look(behind, neg, a), cc), MustAdvance(Look(behind, neg, a)), c)
    ensures Yields(p, pc, t, g, M(Input(p), Look(behind, neg, a), back, cc, x, c))
    decreases Look(behind, neg, a), 8
  {
    hide Yields, Comp, M, Asm, Size, Rel, Encode, CodeAt, LookCode, CodePoints, Effects, Fits, Execute, Pos, Chars, Continues, SetBy, MustAdvance;
    var input := Input(p);
    var body := Comp(a, behind, cc, |ctx.regs|);
    CompLook(behind, neg, a, back, cc, |ctx.regs|);
    LookTouches(behind, neg, a, cc);
    MLook(input, behind, neg, a, back, cc, x, c);
    var pcB, pcM, pcE := LookLayout(p, pc, neg, body);
    RelFit(p, ctx, x, t);
    RelEnd(p, ctx, x, t);
    assert ctx.dirty == {};
    assert After(ctx, Look(behind, neg, a), back, cc) == ctx == After(ctx, a, behind, cc);
    var gb := Goal(if neg then EndNegLook else EndLook, ctx, x.caps, SetBy(a, cc));
    var d := LookCont(input, behind, x);
    LookEnds(p, pcM, neg, gb, ctx, behind, x, SetBy(a, cc), MustAdvance(a));
    assert Ready(p, a, behind, cc, pcB, ctx, x, t);
    Simulate(p, gb, a, behind, cc, pcB, ctx, x, t, d);
    var rb := M(input, a, behind, cc, x, d);
    var i := OpLook(neg, Size(body) + 1);
    LookEffect(p, neg, Size(body) + 1, pc, t);
    LookAfter(p, pcE, g, ctx, back, x, t, SetBy(a, cc), c, gb, rb, neg);
    if neg {
      YieldsNegLook(p, pc, i, t, g, pcB, pcE, gb, rb, if rb != Failure then Failure else c(x));
    } else {
      var r := if rb == Failure || |rb.state.caps| != |x.caps| then Failure else c(State(x.end, rb.state.caps));
      YieldsLook(p, pc, i, t, g, pcB, pcE, gb, rb, r);
    }
  }

  lemma LookTouches(behind: bool, neg: bool, a: Node, cc: nat)
    ensures SetBy(Look(behind, neg, a), cc) == SetBy(a, cc) && !MustAdvance(Look(behind, neg, a))
  {
  }

  lemma LookLayout(p: Prog, pc: nat, neg: bool, body: seq<Instr>) returns (pcB: nat, pcM: nat, pcE: nat)
    requires CodeAt(p.code, pc, LookCode(neg, body)) && |p.code| <= INT32_MAX / 2
    ensures pcB == pc + 5 && pcM == pcB + Size(body) && pcE == pcM + 1 && pcE == pc + Size(LookCode(neg, body))
    ensures Fits(OpLook(neg, Size(body) + 1)) && Fits(OpLookMatch(neg))
    ensures CodeAt(p.code, pc, [OpLook(neg, Size(body) + 1)]) && CodeAt(p.code, pcB, body) && CodeAt(p.code, pcM, [OpLookMatch(neg)])
  {
    hide Encode, CodeAt, Size;
    var look := OpLook(neg, Size(body) + 1);
    Lengths(look);
    Lengths(OpLookMatch(neg));
    CodeHead(p.code, pc, look, body + [OpLookMatch(neg)]);
    pcB := pc + 5;
    CodeSplit(p.code, pcB, body, [OpLookMatch(neg)]);
    CodeFits(p.code, pcB, body);
    pcM := pcB + Size(body);
    AsmOne(OpLookMatch(neg));
    SizeIsAsm([OpLookMatch(neg)]);
    pcE := pcM + 1;
  }

  lemma LookEffect(p: Prog, neg: bool, off: int, pc: nat, t: Thread)
    requires Fit(p, t)
    ensures var i := OpLook(neg, off); Len(i) == 5 && Effects(p, i, pc + 5, t) == Enter(neg, pc + 5, pc + 5 + off)
  {
    Lengths(OpLook(neg, off));
  }

  /** The end of a lookaround's body implements the continuation that returns the state. */
  lemma LookEnds(p: Prog, pcM: nat, neg: bool, gb: Goal, ctx: Context, behind: bool, x: State, touched: set<nat>, strict: bool)
    requires CodeAt(p.code, pcM, [OpLookMatch(neg)]) && Fits(OpLookMatch(neg)) && x.end <= |Input(p)|
    requires gb == Goal(if neg then EndNegLook else EndLook, ctx, x.caps, touched)
    ensures Continues(p, pcM, gb, ctx, behind, x, touched, strict, LookCont(Input(p), behind, x))
  {
    hide Rel, Yields, CodeAt, Execute;
    forall y, t | Reaches(Input(p), behind, x, touched, strict, y) && Rel(p, ctx, y, t)
      ensures LookCont(Input(p), behind, x).requires(y) && Yields(p, pcM, t, gb, LookCont(Input(p), behind, x)(y))
    {
      RelFit(p, ctx, y, t);
      YieldsEnd(p, pcM, OpLookMatch(neg), t, gb, y);
    }
  }

  /** Behind a lookaround, the position is the one in front of it. */
  lemma LookAfter(p: Prog, pcE: nat, g: Goal, ctx: Context, back: bool, x: State, t: Thread, touched: set<nat>, c: Cont,
                  gb: Goal, rb: Result, neg: bool)
    requires Rel(p, ctx, x, t) && x.end <= |Input(p)| && t.pos == Pos(p.text, x.end) && Accepts(Input(p), back, x, c)
    requires Continues(p, pcE, g, ctx, back, x, touched, false, c)
    requires gb.ctx == ctx && gb.caps == x.caps && gb.touched == touched
    ensures c.requires(x) && Yields(p, pcE, t, g, c(x))
    ensures rb.Success? ==> forall t' :: Rel(p, gb.ctx, rb.state, t') && SameOutside(gb.caps, rb.state.caps, gb.touched) ==>
        && c.requires(State(x.end, rb.state.caps))
        && Yields(p, pcE, Thread(t.pos, t'.mem), g, c(State(x.end, rb.state.caps)))
  {
    hide Rel, Yields, Pos;
    assert Reaches(Input(p), back, x, touched, false, x);
    if rb.Success? {
      var z := State(x.end, rb.state.caps);
      forall t' | Rel(p, gb.ctx, rb.state, t') && SameOutside(gb.caps, rb.state.caps, gb.touched)
        ensures c.requires(z) && Yields(p, pcE, Thread(t.pos, t'.mem), g, c(z))
      {
        RelMove(p, ctx, rb.state, t', x.end);
        assert Reaches(Input(p), back, x, touched, false, z);
      }
    }
  }

  // ----- one iteration of a quantifier

  function CellAfterReset(mem: seq<int>, lo: nat, hi: nat, k: nat): int
    requires k < |mem|
  {
    if 2 * lo <= k < 2 * hi then NULL else mem[k]
  }

  lemma {:induction false} ResetApplied(mem: seq<int>, lo: nat, hi: nat)
    requires lo <= hi && 2 * hi <= |mem|
    ensures WritesFit(ResetWrites(lo, hi - 1), |mem|)
    ensures forall k :: 0 <= k < |mem| ==> Apply(mem, ResetWrites(lo, hi - 1))[k] == CellAfterReset(mem, lo, hi, k)
    decreases hi - lo
  {
    if lo < hi {
      ResetWritesFit(lo, hi - 1, |mem|);
      var ws := ResetWrites(lo + 1, hi - 1);
      var all := ResetWrites(lo, hi - 1);
      var mem1 := mem[2 * lo := NULL];
      var mem2 := mem1[2 * lo + 1 := NULL];
      ResetApplied(mem2, lo + 1, hi);
      assert all[1..] == [Write(2 * lo + 1, NULL, false)] + ws;
      assert all[1..][1..] == ws;
      assert Apply(mem, all) == Apply(mem1, all[1..]) == Apply(mem2, ws);
      forall k | 0 <= k < |mem| ensures CellAfterReset(mem2, lo + 1, hi, k) == CellAfterReset(mem, lo, hi, k) {
      }
    }
  }

  function AfterReset(mem: seq<int>, lo: nat, hi: nat): (r: seq<int>)
    requires lo <= hi && 2 * hi <= |mem|
    ensures |r| == |mem| && forall k :: 0 <= k < |mem| ==> r[k] == CellAfterReset(mem, lo, hi, k)
  {
    ResetApplied(mem, lo, hi);
    Apply(mem, ResetWrites(lo, hi - 1))
  }

  /** A reset makes the cells of its groups those of unset captures. */
  lemma RelReset(p: Prog, ctx: Context, x: State, t: Thread, lo: nat, hi: nat)
    requires Rel(p, ctx, x, t) && lo <= hi <= p.ncap && 2 * p.ncap <= p.nmem
    requires forall n :: lo <= n < hi ==> n !in ctx.env
    ensures |x.caps| == p.ncap && |t.mem| == p.nmem
    ensures Rel(p, ctx.(dirty := ctx.dirty - Span(lo, hi)), State(x.end, Reset(x.caps, lo, hi)), Thread(t.pos, AfterReset(t.mem, lo, hi)))
  {
    hide Pos, Chars, AfterReset;
    var mem := AfterReset(t.mem, lo, hi);
    var ctx' := ctx.(dirty := ctx.dirty - Span(lo, hi));
    var caps := Reset(x.caps, lo, hi);
    forall n | 0 <= n < p.ncap ensures CellsMatch(p, ctx', caps[n], n, (mem[2 * n], mem[2 * n + 1])) {
      assert CellsMatch(p, ctx, x.caps[n], n, (t.mem[2 * n], t.mem[2 * n + 1]));
      if lo <= n < hi {
        assert caps[n] == Undefined;
      } else {
        assert caps[n] == x.caps[n];
      }
    }
    assert mem[2 * p.ncap..2 * p.ncap + |ctx.regs|] == t.mem[2 * p.ncap..2 * p.ncap + |ctx.regs|];
  }

  lemma SimulateReset(p: Prog, g: Goal, pc: nat, t: Thread, lo: nat, hi: nat, r: Result)
    requires CodeAt(p.code, pc, [OpSaveReset(lo, hi - 1)]) && lo < hi <= p.ncap <= 255 && 2 * p.ncap <= p.nmem && Fit(p, t)
    requires Yields(p, pc + 3, Thread(t.pos, AfterReset(t.mem, lo, hi)), g, r)
    ensures Yields(p, pc, t, g, r)
  {
    hide Yields, CodeAt, Execute;
    var i := OpSaveReset(lo, hi - 1);
    Lengths(i);
    ResetWritesFit(lo, hi - 1, p.nmem);
    hide Apply, ResetWrites;
    YieldsGo(p, pc, i, t, g, r, pc + 3, t.pos, ResetWrites(lo, hi - 1));
  }

  /** What stays the same from one iteration to the next; `k` registers are in use when the atom runs. */
  ghost predicate AtomReady(p: Prog, a: Node, back: bool, cc: nat, pcBody: nat, ctx: Context, k: nat) {
    && Sane(p)
    && Parsed(a, p.ncap) && cc + Groups(a) <= p.ncap && Counters(a, |Input(p)|)
    && CodeAt(p.code, pcBody, Body(a, back, cc, k))
    && 2 * p.ncap + k + Depth(a, back, cc) <= p.nmem
    && ctx.dirty == {}
    && (forall n :: cc <= n < cc + Groups(a) ==> n !in ctx.env)
  }

  /** The groups that the atom never sets are unset. */
  ghost predicate Loopable(x: State, a: Node, cc: nat) {
    forall n :: cc <= n < cc + Groups(a) && n < |x.caps| && n !in SetBy(a, cc) ==> x.caps[n] == Undefined
  }

  /** Leaving the stale captures of a straight-line atom alone instead of resetting them. */
  lemma RelStale(p: Prog, a: Node, back: bool, cc: nat, ctx: Context, x: State, t: Thread)
    requires Rel(p, ctx, x, t) && ctx.dirty == {} && cc + Groups(a) <= p.ncap && |x.caps| == p.ncap
    requires forall n :: cc <= n < cc + Groups(a) ==> n !in ctx.env
    requires Loopable(x, a, cc) && StraightLine(a)
    ensures Rel(p, ctx.(dirty := Written(a, back, cc)), Fresh(x, cc, a), t)
  {
    hide Pos, Chars, Written, SetBy, Span, Groups, CellsOf, CapOK;
    SetByWritten(a, back, cc);
    WrittenInRange(a, back, cc);
    var ctx' := ctx.(dirty := Written(a, back, cc));
    var y := Fresh(x, cc, a);
    forall n | 0 <= n < p.ncap ensures CellsMatch(p, ctx', y.caps[n], n, (t.mem[2 * n], t.mem[2 * n + 1])) {
      assert CellsMatch(p, ctx, x.caps[n], n, (t.mem[2 * n], t.mem[2 * n + 1]));
      if cc <= n < cc + Groups(a) {
        assert y.caps[n] == Undefined;
        StaleCell(p, ctx, ctx', x.caps[n], n, (t.mem[2 * n], t.mem[2 * n + 1]));
      } else {
        assert y.caps[n] == x.caps[n];
        assert n !in Span(cc, cc + Groups(a));
      }
    }
  }

  lemma StaleCell(p: Prog, ctx: Context, ctx': Context, c: Capture, n: nat, cells: (int, int))
    requires CellsMatch(p, ctx, c, n, cells) && ctx.dirty == {} && ctx'.env == ctx.env && n !in ctx.env
    requires n !in ctx'.dirty ==> c == Undefined
    ensures CellsMatch(p, ctx', Undefined, n, cells)
  {
  }

  lemma FreshClear(ctx: Context, x: State, a: Node, cc: nat)
    requires cc + Groups(a) <= |x.caps| && forall n :: cc <= n < cc + Groups(a) ==> n !in ctx.env
    ensures Clear(ctx, Fresh(x, cc, a), cc, cc + Groups(a))
  {
  }

  /** The body of a quantifier, with whatever reset it contains, runs the atom on freshly reset captures. */
  lemma {:induction false} RunAtom(p: Prog, g: Goal, a: Node, back: bool, cc: nat, pcBody: nat, ctx: Context, x: State, t: Thread, d: Cont)
    requires AtomReady(p, a, back, cc, pcBody, ctx, |ctx.regs|) && Rel(p, ctx, x, t) && |x.caps| == p.ncap && Loopable(x, a, cc)
    requires Accepts(Input(p), back, Fresh(x, cc, a), d)
    requires Continues(p, pcBody + Size(Body(a, back, cc, |ctx.regs|)), g, ctx, back, Fresh(x, cc, a), SetBy(a, cc), MustAdvance(a), d)
    ensures Yields(p, pcBody, t, g, M(Input(p), a, back, cc, Fresh(x, cc, a), d))
    decreases a, 10, 1
  {
    hide Yields, Comp, M, Asm, Size, Rel, Encode, CodeAt, Counters, Accepts, Continues, SetBy, Written, MustAdvance, AfterReset, AtomReady, Fresh, Loopable, Body;
    if NeedInit(a, back, cc) && Groups(a) > 0 {
      RunResetting(p, g, a, back, cc, pcBody, ctx, x, t, d);
    } else {
      RunKeeping(p, g, a, back, cc, pcBody, ctx, x, t, d);
    }
  }

  lemma {:induction false} RunResetting(p: Prog, g: Goal, a: Node, back: bool, cc: nat, pcBody: nat, ctx: Context, x: State, t: Thread, d: Cont)
    requires AtomReady(p, a, back, cc, pcBody, ctx, |ctx.regs|) && Rel(p, ctx, x, t) && |x.caps| == p.ncap
    requires NeedInit(a, back, cc) && Groups(a) > 0
    requires Accepts(Input(p), back, Fresh(x, cc, a), d)
    requires Continues(p, pcBody + Size(Body(a, back, cc, |ctx.regs|)), g, ctx, back, Fresh(x, cc, a), SetBy(a, cc), MustAdvance(a), d)
    ensures Yields(p, pcBody, t, g, M(Input(p), a, back, cc, Fresh(x, cc, a), d))
    decreases a, 10, 0
  {
    hide Yields, Comp, M, Asm, Size, Rel, Encode, CodeAt, Counters, Accepts, Continues, SetBy, Written, MustAdvance, AfterReset, Parsed, Depth, ScanCode, Reset, CodePoints, Fits, Execute, Pos, Chars, Clear;
    var code := Comp(a, back, cc, |ctx.regs|);
    var y := Fresh(x, cc, a);
    RelFit(p, ctx, x, t);
    FreshClear(ctx, x, a, cc);
    var hi := cc + Groups(a);
    var i := OpSaveReset(cc, hi - 1);
    Lengths(i);
    CodeHead(p.code, pcBody, i, code);
    RelReset(p, ctx, x, t, cc, hi);
    var t' := Thread(t.pos, AfterReset(t.mem, cc, hi));
    assert ctx.(dirty := ctx.dirty - Span(cc, hi)) == ctx == After(ctx, a, back, cc);
    assert Ready(p, a, back, cc, pcBody + 3, ctx, y, t');
    Simulate(p, g, a, back, cc, pcBody + 3, ctx, y, t', d);
    SimulateReset(p, g, pcBody, t, cc, hi, M(Input(p), a, back, cc, y, d));
  }

  lemma {:induction false} RunKeeping(p: Prog, g: Goal, a: Node, back: bool, cc: nat, pcBody: nat, ctx: Context, x: State, t: Thread, d: Cont)
    requires AtomReady(p, a, back, cc, pcBody, ctx, |ctx.regs|) && Rel(p, ctx, x, t) && |x.caps| == p.ncap && Loopable(x, a, cc)
    requires !(NeedInit(a, back, cc) && Groups(a) > 0)
    requires Accepts(Input(p), back, Fresh(x, cc, a), d)
    requires Continues(p, pcBody + Size(Body(a, back, cc, |ctx.regs|)), g, ctx, back, Fresh(x, cc, a), SetBy(a, cc), MustAdvance(a), d)
    ensures Yields(p, pcBody, t, g, M(Input(p), a, back, cc, Fresh(x, cc, a), d))
    decreases a, 10, 0
  {
    hide Yields, Comp, M, Asm, Size, Rel, Encode, CodeAt, Counters, Accepts, Continues, SetBy, MustAdvance, Parsed, Depth, ScanCode, Reset, CodePoints;
    var code := Comp(a, back, cc, |ctx.regs|);
    var y := Fresh(x, cc, a);
    FreshClear(ctx, x, a, cc);
    assert Body(a, back, cc, |ctx.regs|) == code;
    WrittenInRange(a, back, cc);
    var ctxD := ctx.(dirty := Written(a, back, cc));
    hide Written;
    assert After(ctxD, a, back, cc) == ctx;
    if Groups(a) == 0 {
      ResetNothing(x.caps, cc);
      assert y == x && ctxD == ctx;
    } else {
      AtomScan(a, back, cc);
      RelStale(p, a, back, cc, ctx, x, t);
    }
    assert Ready(p, a, back, cc, pcBody, ctxD, y, t) by {
      FreshClear(ctxD, x, a, cc);
    }
    Simulate(p, g, a, back, cc, pcBody, ctxD, y, t, d);
  }

  lemma ResetNothing(caps: seq<Capture>, cc: nat)
    requires cc <= |caps|
    ensures Reset(caps, cc, cc) == caps
  {
  }

  lemma IterationReaches(input: seq<nat>, back: bool, x: State, a: Node, cc: nat, strict: bool, y: State)
    requires cc + Groups(a) <= |x.caps| && Loopable(x, a, cc)
    requires Reaches(input, back, Fresh(x, cc, a), SetBy(a, cc), strict, y)
    ensures Reaches(input, back, x, SetBy(a, cc), strict, y) && Loopable(y, a, cc) && |y.caps| == |x.caps|
  {
    var xr := Fresh(x, cc, a);
    forall n | 0 <= n < |x.caps| && n !in SetBy(a, cc) ensures y.caps[n] == x.caps[n] {
      assert y.caps[n] == xr.caps[n];
    }
  }

  // ----- instructions that work on registers

  lemma SimulateStore(p: Prog, g: Goal, pc: nat, i: Instr, t: Thread, k: nat, v: int, r: Result)
    requires CodeAt(p.code, pc, [i]) && Fit(p, t) && 2 * p.ncap + k < p.nmem && k < 256
    requires (i == OpSetI32(k, v) && 0 <= v <= INT32_MAX) || (i == OpSetCharPos(k) && v == t.pos)
    requires Yields(p, pc + Len(i), Thread(t.pos, t.mem[2 * p.ncap + k := v]), g, r)
    ensures Yields(p, pc, t, g, r)
  {
    hide Yields, CodeAt, Execute;
    Lengths(i);
    var ws := [Write(2 * p.ncap + k, v, true)];
    WriteOne(t.mem, ws[0]);
    YieldsGo(p, pc, i, t, g, r, pc + Len(i), t.pos, ws);
  }

  lemma WriteOne(mem: seq<int>, w: Write)
    requires w.idx < |mem|
    ensures WritesFit([w], |mem|) && Apply(mem, [w]) == mem[w.idx := w.val]
  {
    assert Apply(mem[w.idx := w.val], [w][1..]) == mem[w.idx := w.val];
  }

  /** check_advance fails exactly in the states in which the iteration was empty. */
  lemma SimulateCheck(p: Prog, g: Goal, pc: nat, k: nat, ctx: Context, x: State, y: State, t: Thread, r: Result)
    requires CodeAt(p.code, pc, [OpCheckAdvance(k)]) && k < 256
    requires Rel(p, ctx, y, t) && k < |ctx.regs| && x.end <= |Input(p)| && ctx.regs[k] == Pos(p.text, x.end)
    requires y.end == x.end ==> r == Failure
    requires y.end != x.end ==> Yields(p, pc + 2, t, g, r)
    ensures Yields(p, pc, t, g, r)
  {
    hide Yields, CodeAt, Execute, Pos, Chars, Rel;
    var i := OpCheckAdvance(k);
    Lengths(i);
    RelFit(p, ctx, y, t);
    RelEnd(p, ctx, y, t);
    RelRegister(p, ctx, y, t, k);
    PosInjective(p.text, x.end, y.end);
    if y.end == x.end {
      YieldsNoMatch(p, pc, i, t, g);
    } else {
      YieldsGo(p, pc, i, t, g, r, pc + 2, t.pos, []);
    }
  }

  // ----- an atom between storechar_pos and check_advance

  /** With the check or without the need for it, only the iterations that moved go on. */
  /** A match that has not moved is not continued. */
  ghost predicate NoEmpty(input: seq<nat>, back: bool, x: State, d: Cont)
    requires Accepts(input, back, x, d)
  {
    forall y :: Ahead(input, back, x, y) && y.end == x.end ==> d(y) == Failure
  }

  lemma {:induction false} GuardedBody(p: Prog, g: Goal, a: Node, back: bool, cc: nat, adv: bool, pc: nat, pcNext: nat,
                                       ctx: Context, x: State, t: Thread, d: Cont)
    requires Parsed(a, p.ncap) && cc + Groups(a) <= p.ncap == |x.caps|
    requires var k := |ctx.regs|;
             var s := Size(Body(a, back, cc, k + Bit(adv)));
             && CodeAt(p.code, pc, If(adv, OpSetCharPos(k)))
             && AtomReady(p, a, back, cc, pc + 2 * Bit(adv), ctx, k + Bit(adv))
             && CodeAt(p.code, pc + 2 * Bit(adv) + s, If(adv, OpCheckAdvance(k)))
             && pcNext == pc + 4 * Bit(adv) + s
    requires Rel(p, ctx, x, t) && Loopable(x, a, cc)
    requires adv || MustAdvance(a)
    requires Accepts(Input(p), back, Fresh(x, cc, a), d)
    requires NoEmpty(Input(p), back, Fresh(x, cc, a), d)
    requires Continues(p, pcNext, g, ctx, back, Fresh(x, cc, a), SetBy(a, cc), true, d)
    ensures Yields(p, pc, t, g, M(Input(p), a, back, cc, Fresh(x, cc, a), d))
    decreases a, 11
  {
    hide Yields, M, Comp, Rel, CodeAt, SetBy, MustAdvance, Loopable, Body, Asm, Size, Continues, Encode, Pos, Chars, Accepts, Fresh, Ahead, AtomReady,
         Parsed, Sane, Groups, Fits, CodePoints;
    var k := |ctx.regs|;
    RelEnd(p, ctx, x, t);
    RelFit(p, ctx, x, t);
    AtomReadyWith(p, a, back, cc, pc + 2 * Bit(adv), ctx, k + Bit(adv), ctx);
    SaneLimits(p);
    if adv {
      var ctx1 := ctx.(regs := ctx.regs + [t.pos]);
      var t1 := Thread(t.pos, t.mem[2 * p.ncap + k := t.pos]);
      AtomReadyWith(p, a, back, cc, pc + 2, ctx, k + 1, ctx1);
      RelPush(p, ctx, x, t, t.pos);
      CheckContinues(p, g, a, back, cc, pcNext - 2, ctx, ctx1, x, d);
      RunAtom(p, g, a, back, cc, pc + 2, ctx1, x, t1, d);
      Lengths(OpSetCharPos(k));
      SimulateStore(p, g, pc, OpSetCharPos(k), t, k, t.pos, M(Input(p), a, back, cc, Fresh(x, cc, a), d));
    } else {
      RunAtom(p, g, a, back, cc, pc, ctx, x, t, d);
    }
  }

  lemma AtomReadyWith(p: Prog, a: Node, back: bool, cc: nat, pcBody: nat, ctx: Context, k: nat, ctx1: Context)
    requires AtomReady(p, a, back, cc, pcBody, ctx, k) && ctx1.env == ctx.env && ctx1.dirty == ctx.dirty
    ensures AtomReady(p, a, back, cc, pcBody, ctx1, k) && Sane(p) && cc + Groups(a) <= p.ncap && Parsed(a, p.ncap)
    ensures 2 * p.ncap + k <= p.nmem
  {
    hide CodeAt, Body, Parsed, Counters, Depth, Sane;
  }

  lemma CheckContinues(p: Prog, g: Goal, a: Node, back: bool, cc: nat, pc: nat, ctx: Context, ctx1: Context, x: State, d: Cont)
    requires CodeAt(p.code, pc, [OpCheckAdvance(|ctx.regs|)]) && |ctx.regs| < 256 && cc + Groups(a) <= |x.caps|
    requires x.end <= |Input(p)| && ctx1 == ctx.(regs := ctx.regs + [Pos(p.text, x.end)])
    requires Accepts(Input(p), back, Fresh(x, cc, a), d)
    requires NoEmpty(Input(p), back, Fresh(x, cc, a), d)
    requires Continues(p, pc + 2, g, ctx, back, Fresh(x, cc, a), SetBy(a, cc), true, d)
    ensures Continues(p, pc, g, ctx1, back, Fresh(x, cc, a), SetBy(a, cc), MustAdvance(a), d)
  {
    hide Yields, Rel, CodeAt, SetBy, MustAdvance, Pos, Chars;
    var xr := Fresh(x, cc, a);
    var k := |ctx.regs|;
    forall y, t | Reaches(Input(p), back, xr, SetBy(a, cc), MustAdvance(a), y) && Rel(p, ctx1, y, t)
      ensures d.requires(y) && Yields(p, pc, t, g, d(y))
    {
      RelPop(p, ctx1, y, t, k);
      assert ctx1.(regs := ctx1.regs[..k]) == ctx;
      assert y.end != x.end ==> Reaches(Input(p), back, xr, SetBy(a, cc), true, y);
      SimulateCheck(p, g, pc, k, ctx1, x, y, t, d(y));
    }
  }

  // ----- the layouts that test before the atom

  /** The split in front of an optional atom. */
  lemma SkipOrEnter(p: Prog, g: Goal, pc: nat, greedy: bool, off: int, t: Thread, enter: Result, skip: Result)
    requires CodeAt(p.code, pc, [OpSplit(greedy, off)]) && Fits(OpSplit(greedy, off)) && Fit(p, t)
    requires Yields(p, pc + 5, t, g, enter) && Yields(p, pc + 5 + off, t, g, skip)
    ensures Yields(p, pc, t, g, if greedy then Or(enter, skip) else Or(skip, enter))
  {
    hide Yields, CodeAt, Execute, Effects;
    SplitEffect(p, greedy, off, pc, t);
    if greedy {
      YieldsFork(p, pc, OpSplit(greedy, off), t, g, pc + 5, pc + 5 + off, [], enter, skip);
    } else {
      YieldsFork(p, pc, OpSplit(greedy, off), t, g, pc + 5 + off, pc + 5, [], skip, enter);
    }
  }

  /** The code of a guarded atom behind its split, and where it stands. */
  ghost predicate GuardedAt(p: Prog, a: Node, back: bool, cc: nat, adv: bool, pc: nat, pcNext: nat, ctx: Context) {
    var k := |ctx.regs|;
    var s := Size(Body(a, back, cc, k + Bit(adv)));
    && CodeAt(p.code, pc, If(adv, OpSetCharPos(k)))
    && AtomReady(p, a, back, cc, pc + 2 * Bit(adv), ctx, k + Bit(adv))
    && CodeAt(p.code, pc + 2 * Bit(adv) + s, If(adv, OpCheckAdvance(k)))
    && pcNext == pc + 4 * Bit(adv) + s
  }

  lemma {:induction false} SimulateOptional(p: Prog, g: Goal, a: Node, back: bool, cc: nat, adv: bool, greedy: bool, off: int, pc: nat, pcE: nat,
                                            ctx: Context, x: State, t: Thread, c: Cont)
    requires CodeAt(p.code, pc, [OpSplit(greedy, off)]) && Fits(OpSplit(greedy, off)) && pcE == pc + 5 + off
    requires GuardedAt(p, a, back, cc, adv, pc + 5, pcE, ctx) && (adv || MustAdvance(a))
    requires Rel(p, ctx, x, t) && |x.caps| == p.ncap && Loopable(x, a, cc) && Accepts(Input(p), back, x, c)
    requires Continues(p, pcE, g, ctx, back, x, SetBy(a, cc), false, c)
    ensures Parsed(a, |x.caps|) && cc + Groups(a) <= |x.caps|
    ensures Yields(p, pc, t, g, Repeat(Input(p), a, back, cc, 0, Fin(1), greedy, x, c))
    decreases a, 12
  {
    hide Yields, M, Comp, Rel, CodeAt, SetBy, MustAdvance, Loopable, Body, Asm, Size, Encode, Pos, Chars, Counters, Depth, CodePoints, Reset, Repeat, RepeatCont, Fits;
    var input := Input(p);
    RelFit(p, ctx, x, t);
    RelEnd(p, ctx, x, t);
    var d := RepeatCont(input, a, back, cc, 0, Fin(1), greedy, x, c);
    var xr := Fresh(x, cc, a);
    RepeatUnfold(input, a, back, cc, 0, Fin(1), greedy, x, c);
    forall y | Ahead(input, back, xr, y)
      ensures d.requires(y) && d(y) == if y.end == x.end then Failure else c(y)
    {
      RepeatApplied(input, a, back, cc, 0, Fin(1), greedy, x, c, y);
      RepeatNone(input, a, back, cc, 0, greedy, y, c);
    }
    forall y, t' | Reaches(input, back, xr, SetBy(a, cc), true, y) && Rel(p, ctx, y, t')
      ensures d.requires(y) && Yields(p, pcE, t', g, d(y))
    {
      IterationReaches(input, back, x, a, cc, true, y);
      assert Reaches(input, back, x, SetBy(a, cc), false, y);
    }
    ReachesSelf(input, back, x);
    assert Reaches(input, back, x, SetBy(a, cc), false, x);
    GuardedBody(p, g, a, back, cc, adv, pc + 5, pcE, ctx, x, t, d);
    SkipOrEnter(p, g, pc, greedy, off, t, M(input, a, back, cc, xr, d), c(x));
  }

  lemma {:induction false} SimulateStar(p: Prog, g: Goal, a: Node, back: bool, cc: nat, adv: bool, greedy: bool, off: int, pc: nat, pcG: nat,
                                        ctx: Context, x: State, t: Thread, c: Cont)
    requires CodeAt(p.code, pc, [OpSplit(greedy, off)]) && Fits(OpSplit(greedy, off)) && pcG + 5 == pc + 5 + off
    requires GuardedAt(p, a, back, cc, adv, pc + 5, pcG, ctx) && (adv || MustAdvance(a))
    requires CodeAt(p.code, pcG, [OpGoto(-off - 5)]) && Fits(OpGoto(-off - 5))
    requires Rel(p, ctx, x, t) && |x.caps| == p.ncap && Loopable(x, a, cc) && Accepts(Input(p), back, x, c)
    requires Continues(p, pcG + 5, g, ctx, back, x, SetBy(a, cc), false, c)
    ensures Parsed(a, |x.caps|) && cc + Groups(a) <= |x.caps|
    ensures Yields(p, pc, t, g, Repeat(Input(p), a, back, cc, 0, Inf, greedy, x, c))
    decreases a, 12, Remaining(Input(p), back, x)
  {
    hide Yields, M, Comp, Rel, CodeAt, SetBy, MustAdvance, Loopable, Body, Asm, Size, Encode, Pos, Chars, Counters, Depth, CodePoints, Reset, Repeat, RepeatCont, Fits;
    var input := Input(p);
    RelFit(p, ctx, x, t);
    RelEnd(p, ctx, x, t);
    var d := RepeatCont(input, a, back, cc, 0, Inf, greedy, x, c);
    var xr := Fresh(x, cc, a);
    RepeatUnfold(input, a, back, cc, 0, Inf, greedy, x, c);
    forall y | Ahead(input, back, xr, y)
      ensures d.requires(y) && d(y) == if y.end == x.end then Failure else Repeat(input, a, back, cc, 0, Inf, greedy, y, c)
    {
      RepeatApplied(input, a, back, cc, 0, Inf, greedy, x, c, y);
    }
    forall y, t' | Reaches(input, back, xr, SetBy(a, cc), true, y) && Rel(p, ctx, y, t')
      ensures d.requires(y) && Yields(p, pc, t', g, d(y))
    {
      IterationReaches(input, back, x, a, cc, true, y);
      ContinuesFrom(p, pcG + 5, g, ctx, back, x, SetBy(a, cc), false, c, SetBy(a, cc), true, y, SetBy(a, cc), false);
      SimulateStar(p, g, a, back, cc, adv, greedy, off, pc, pcG, ctx, y, t', c);
    }
    ContinuesGoto(p, pcG, -off - 5, pc, g, ctx, back, xr, SetBy(a, cc), true, d);
    ReachesSelf(input, back, x);
    assert Reaches(input, back, x, SetBy(a, cc), false, x);
    GuardedBody(p, g, a, back, cc, adv, pc + 5, pcG, ctx, x, t, d);
    SkipOrEnter(p, g, pc, greedy, off, t, M(input, a, back, cc, xr, d), c(x));
  }

  // ----- the layout that tests behind the atom and keeps no counter

  lemma {:induction false} SimulatePlus(p: Prog, g: Goal, a: Node, back: bool, cc: nat, greedy: bool, min: nat, pc: nat, pcS: nat,
                                        ctx: Context, x: State, t: Thread, c: Cont)
    requires AtomReady(p, a, back, cc, pc, ctx, |ctx.regs|) && pcS == pc + Size(Body(a, back, cc, |ctx.regs|))
    requires CodeAt(p.code, pcS, [OpSplit(!greedy, pc - pcS - 5)]) && Fits(OpSplit(!greedy, pc - pcS - 5)) && MustAdvance(a) && min <= 1
    requires Rel(p, ctx, x, t) && |x.caps| == p.ncap && Loopable(x, a, cc) && Accepts(Input(p), back, x, c)
    requires Continues(p, pcS + 5, g, ctx, back, x, SetBy(a, cc), true, c)
    ensures Parsed(a, |x.caps|) && cc + Groups(a) <= |x.caps|
    ensures var d := RepeatCont(Input(p), a, back, cc, min, Inf, greedy, x, c);
            Accepts(Input(p), back, Fresh(x, cc, a), d) && Yields(p, pc, t, g, M(Input(p), a, back, cc, Fresh(x, cc, a), d))
    decreases a, 12, Remaining(Input(p), back, x)
  {
    hide Yields, M, Comp, Rel, CodeAt, SetBy, Loopable, Body, Asm, Size, Encode, Pos, Chars, Counters, Depth, CodePoints, Reset, Repeat, RepeatCont, Fits;
    var input := Input(p);
    RelEnd(p, ctx, x, t);
    var d := RepeatCont(input, a, back, cc, min, Inf, greedy, x, c);
    var xr := Fresh(x, cc, a);
    RepeatUnfold(input, a, back, cc, min, Inf, greedy, x, c);
    forall y, t' | Reaches(input, back, xr, SetBy(a, cc), true, y) && Rel(p, ctx, y, t')
      ensures d.requires(y) && Yields(p, pcS, t', g, d(y))
    {
      RepeatApplied(input, a, back, cc, min, Inf, greedy, x, c, y);
      IterationReaches(input, back, x, a, cc, true, y);
      RelFit(p, ctx, y, t');
      ContinuesFrom(p, pcS + 5, g, ctx, back, x, SetBy(a, cc), true, c, SetBy(a, cc), true, y, SetBy(a, cc), true);
      ContinuesFrom(p, pcS + 5, g, ctx, back, x, SetBy(a, cc), true, c, SetBy(a, cc), true, y, SetBy(a, cc), false);
      SimulatePlus(p, g, a, back, cc, greedy, 0, pc, pcS, ctx, y, t', c);
      RepeatUnfold(input, a, back, cc, 0, Inf, greedy, y, c);
      var z := M(input, a, back, cc, Fresh(y, cc, a), RepeatCont(input, a, back, cc, 0, Inf, greedy, y, c));
      ReachesSelf(input, back, y);
      assert Reaches(input, back, y, SetBy(a, cc), false, y);
      SkipOrEnter(p, g, pcS, !greedy, pc - pcS - 5, t', c(y), z);
    }
    RunAtom(p, g, a, back, cc, pc, ctx, x, t, d);
  }

  // ----- the layouts that count

  /** The counter `v` in front of an iteration, against the bounds that RepeatMatcher still has: exact loops
      count what is required, the others stop requiring at `limit`. */
  predicate CounterOK(strict: bool, exact: bool, min: nat, max: Max, v: int, limit: int, rem: nat) {
    && 1 <= v <= INT32_MAX && 0 <= limit
    && (max.Fin? ==> max.n == v)
    && (if exact then min == v && max.Fin?
        else (min > 0 ==> v - min == limit) && (min == 0 ==> v <= limit))
    && (max.Inf? ==> v > rem && (strict || v > min + rem))
  }

  /** The code of a counted atom: `pc` is the target of the loop instruction at `pcL`. */
  ghost predicate CountedAt(p: Prog, a: Node, back: bool, cc: nat, adv: bool, exact: bool, greedy: bool, limit: int, pc: nat, pcL: nat, ctx: Context) {
    var k := |ctx.regs|;
    && (exact ==> !adv)
    && CodeAt(p.code, pc, If(adv, OpSetCharPos(k + 1)))
    && AtomReady(p, a, back, cc, pc + 2 * Bit(adv), ctx, k + 1 + Bit(adv))
    && pcL == pc + 2 * Bit(adv) + Size(Body(a, back, cc, k + 1 + Bit(adv)))
    && CodeAt(p.code, pcL, [LoopInstr(adv, exact, greedy, k, limit, pc, pcL)])
    && Fits(LoopInstr(adv, exact, greedy, k, limit, pc, pcL))
  }

  function LoopInstr(adv: bool, exact: bool, greedy: bool, k: nat, limit: int, pc: nat, pcL: nat): Instr {
    if exact then OpLoop(k, pc - pcL - 6) else OpLoopSplit(adv, !greedy, k, limit, pc - pcL - 10)
  }

  function LoopEnd(exact: bool, pcL: nat): nat {
    pcL + if exact then 6 else 10
  }

  /** The store of the decremented counter. */
  lemma RelCount(p: Prog, ctx: Context, y: State, t: Thread, rest: seq<int>, v: int)
    requires Rel(p, ctx.(regs := ctx.regs + [v] + rest), y, t) && 1 <= v <= INT32_MAX
    ensures var k := 2 * p.ncap + |ctx.regs|;
            && k < p.nmem && |t.mem| == p.nmem && t.mem[k] == v && (t.mem[k] - 1) % 0x1_0000_0000 == v - 1
            && WritesFit([Write(k, v - 1, true)], p.nmem)
            && Apply(t.mem, [Write(k, v - 1, true)]) == t.mem[k := v - 1]
            && Rel(p, ctx, y, t)
            && Rel(p, ctx, y, Thread(t.pos, t.mem[k := v - 1]))
            && Rel(p, ctx.(regs := ctx.regs + [v - 1]), y, Thread(t.pos, t.mem[k := v - 1]))
  {
    hide CellsMatch, Pos, Chars;
    var n := |ctx.regs|;
    var ctx1 := ctx.(regs := ctx.regs + [v] + rest);
    RelRegister(p, ctx1, y, t, n);
    RelPop(p, ctx1, y, t, n);
    assert ctx1.regs[..n] == ctx.regs;
    assert ctx1.(regs := ctx1.regs[..n]) == ctx;
    hide Rel;
    RelSize(p, ctx, y, t);
    RelPush(p, ctx, y, t, v - 1);
    var ctx2 := ctx.(regs := ctx.regs + [v - 1]);
    var t2 := Thread(t.pos, t.mem[2 * p.ncap + n := v - 1]);
    RelPop(p, ctx2, y, t2, n);
    assert ctx2.regs[..n] == ctx.regs;
    assert ctx2.(regs := ctx2.regs[..n]) == ctx;
    WriteOne(t.mem, Write(2 * p.ncap + n, v - 1, true));
  }

  lemma RelSize(p: Prog, ctx: Context, y: State, t: Thread)
    requires Rel(p, ctx, y, t)
    ensures |t.mem| == p.nmem && 2 * p.ncap + |ctx.regs| <= p.nmem
  {
  }

  /** The registers that the atom of a counted loop leaves untouched. */
  function Counting(p: Prog, adv: bool, ctx: Context, x: State, v: int): Context
    requires x.end <= |Input(p)|
  {
    ctx.(regs := ctx.regs + [v] + if adv then [Pos(p.text, x.end)] else [])
  }

  lemma {:induction false} SimulateCounter(p: Prog, g: Goal, a: Node, back: bool, cc: nat, adv: bool, exact: bool, greedy: bool, limit: int,
                                           min: nat, max: Max, v: int, pc: nat, pcL: nat, ctx: Context, x: State, t: Thread, c: Cont)
    requires CountedAt(p, a, back, cc, adv, exact, greedy, limit, pc, pcL, ctx) && (adv || exact || MustAdvance(a))
    requires Rel(p, ctx.(regs := ctx.regs + [v]), x, t) && |x.caps| == p.ncap && Loopable(x, a, cc) && Accepts(Input(p), back, x, c)
    requires CounterOK(MustAdvance(a), exact, min, max, v, limit, Remaining(Input(p), back, x))
    requires Continues(p, LoopEnd(exact, pcL), g, ctx, back, x, SetBy(a, cc), MustAdvance(a), c)
    ensures Parsed(a, |x.caps|) && cc + Groups(a) <= |x.caps|
    ensures var d := RepeatCont(Input(p), a, back, cc, min, max, greedy, x, c);
            Accepts(Input(p), back, Fresh(x, cc, a), d) && Yields(p, pc, t, g, M(Input(p), a, back, cc, Fresh(x, cc, a), d))
    decreases a, 12, min, Remaining(Input(p), back, x), 1
  {
    hide Yields, M, Comp, Rel, CodeAt, SetBy, Loopable, Body, Asm, Size, Encode, Pos, Chars, Counters, Depth, CodePoints, Reset, Repeat, RepeatCont, Fits, LoopInstr, Continues, MustAdvance, LoopEnd;
    var input := Input(p);
    var k := |ctx.regs|;
    var ctx1 := ctx.(regs := ctx.regs + [v]);
    RelEnd(p, ctx1, x, t);
    RelFit(p, ctx1, x, t);
    RepeatUnfold(input, a, back, cc, min, max, greedy, x, c);
    var d := RepeatCont(input, a, back, cc, min, max, greedy, x, c);
    var xr := Fresh(x, cc, a);
    var ctx2 := Counting(p, adv, ctx, x, v);
    CounterContinues(p, g, a, back, cc, adv, exact, greedy, limit, min, max, v, pc, pcL, ctx, x, c);
    hide Continues, CounterOK, MustAdvance, Accepts, Fresh, Parsed, LoopEnd;
    if adv {
      RelPush(p, ctx1, x, t, t.pos);
      assert ctx1.regs + [t.pos] == ctx2.regs;
      var t1 := Thread(t.pos, t.mem[2 * p.ncap + k + 1 := t.pos]);
      RunAtom(p, g, a, back, cc, pc + 2, ctx2, x, t1, d);
      Lengths(OpSetCharPos(k + 1));
      SimulateStore(p, g, pc, OpSetCharPos(k + 1), t, k + 1, t.pos, M(input, a, back, cc, xr, d));
    } else {
      assert ctx1.regs + [] == ctx1.regs;
      RunAtom(p, g, a, back, cc, pc, ctx2, x, t, d);
    }
  }

  lemma {:induction false} CounterContinues(p: Prog, g: Goal, a: Node, back: bool, cc: nat, adv: bool, exact: bool, greedy: bool, limit: int,
                                            min: nat, max: Max, v: int, pc: nat, pcL: nat, ctx: Context, x: State, c: Cont)
    requires CountedAt(p, a, back, cc, adv, exact, greedy, limit, pc, pcL, ctx) && (adv || exact || MustAdvance(a))
    requires x.end <= |Input(p)| && |x.caps| == p.ncap && Loopable(x, a, cc) && Accepts(Input(p), back, x, c)
    requires CounterOK(MustAdvance(a), exact, min, max, v, limit, Remaining(Input(p), back, x))
    requires Continues(p, LoopEnd(exact, pcL), g, ctx, back, x, SetBy(a, cc), MustAdvance(a), c)
    ensures Parsed(a, |x.caps|) && cc + Groups(a) <= |x.caps|
    ensures Continues(p, pcL, g, Counting(p, adv, ctx, x, v), back, Fresh(x, cc, a), SetBy(a, cc), MustAdvance(a),
                      RepeatCont(Input(p), a, back, cc, min, max, greedy, x, c))
    decreases a, 12, min, Remaining(Input(p), back, x), 0, 1
  {
    hide Yields, M, Comp, Rel, CodeAt, SetBy, Loopable, Body, Asm, Size, Encode, Pos, Chars, Reset, Repeat, RepeatCont, Fits, LoopInstr, MustAdvance,
         Counting, CounterOK, LoopEnd, Reaches, Fresh, Accepts, CountedAt;
    CountedParsed(p, a, back, cc, adv, exact, greedy, limit, pc, pcL, ctx);
    var d := RepeatCont(Input(p), a, back, cc, min, max, greedy, x, c);
    var xr := Fresh(x, cc, a);
    forall y, t | Reaches(Input(p), back, xr, SetBy(a, cc), MustAdvance(a), y) && Rel(p, Counting(p, adv, ctx, x, v), y, t)
      ensures d.requires(y) && Yields(p, pcL, t, g, d(y))
    {
      CounterNext(p, g, a, back, cc, adv, exact, greedy, limit, min, max, v, pc, pcL, ctx, x, c, y, t);
    }
  }

  lemma CountedParsed(p: Prog, a: Node, back: bool, cc: nat, adv: bool, exact: bool, greedy: bool, limit: int, pc: nat, pcL: nat, ctx: Context)
    requires CountedAt(p, a, back, cc, adv, exact, greedy, limit, pc, pcL, ctx)
    ensures Parsed(a, p.ncap) && cc + Groups(a) <= p.ncap
  {
  }

  lemma {:induction false} CounterNext(p: Prog, g: Goal, a: Node, back: bool, cc: nat, adv: bool, exact: bool, greedy: bool, limit: int,
                                       min: nat, max: Max, v: int, pc: nat, pcL: nat, ctx: Context, x: State, c: Cont, y: State, t: Thread)
    requires CountedAt(p, a, back, cc, adv, exact, greedy, limit, pc, pcL, ctx) && (adv || exact || MustAdvance(a))
    requires x.end <= |Input(p)| && |x.caps| == p.ncap && Loopable(x, a, cc) && Accepts(Input(p), back, x, c)
    requires CounterOK(MustAdvance(a), exact, min, max, v, limit, Remaining(Input(p), back, x))
    requires Continues(p, LoopEnd(exact, pcL), g, ctx, back, x, SetBy(a, cc), MustAdvance(a), c)
    requires cc + Groups(a) <= |x.caps|
    requires Reaches(Input(p), back, Fresh(x, cc, a), SetBy(a, cc), MustAdvance(a), y) && Rel(p, Counting(p, adv, ctx, x, v), y, t)
    ensures Parsed(a, |x.caps|)
    ensures var d := RepeatCont(Input(p), a, back, cc, min, max, greedy, x, c);
            d.requires(y) && Yields(p, pcL, t, g, d(y))
    decreases a, 12, min, Remaining(Input(p), back, x), 0, 0, 1
  {
    hide Yields, M, Comp, Rel, CodeAt, SetBy, Loopable, Body, Asm, Size, Encode, Pos, Chars, Reset, Repeat, RepeatCont, Fits, LoopInstr, MustAdvance,
         Counting, CounterOK, LoopEnd, Accepts, Continues, AtomReady;
    var input := Input(p);
    CountedParsed(p, a, back, cc, adv, exact, greedy, limit, pc, pcL, ctx);
    IterationReaches(input, back, x, a, cc, MustAdvance(a), y);
    RepeatApplied(input, a, back, cc, min, max, greedy, x, c, y);
    if exact {
      ExactMin(MustAdvance(a), min, max, v, limit, Remaining(input, back, x));
      CountExact(p, g, a, back, cc, greedy, limit, min, max, v, pc, pcL, ctx, x, c, y, t);
    } else {
      CountSplit(p, g, a, back, cc, adv, greedy, limit, min, max, v, pc, pcL, ctx, x, c, y, t);
    }
  }

  lemma ExactMin(strict: bool, min: nat, max: Max, v: int, limit: int, rem: nat)
    requires CounterOK(strict, true, min, max, v, limit, rem)
    ensures min >= 1
  {
  }

  /** Behind an iteration of an exact loop. */
  lemma {:induction false} CountExact(p: Prog, g: Goal, a: Node, back: bool, cc: nat, greedy: bool, limit: int,
                                      min: nat, max: Max, v: int, pc: nat, pcL: nat, ctx: Context, x: State, c: Cont, y: State, t: Thread)
    requires CountedAt(p, a, back, cc, false, true, greedy, limit, pc, pcL, ctx)
    requires x.end <= |Input(p)| && Rel(p, Counting(p, false, ctx, x, v), y, t) && |x.caps| == p.ncap && Accepts(Input(p), back, x, c)
    requires Reaches(Input(p), back, x, SetBy(a, cc), MustAdvance(a), y) && Loopable(y, a, cc) && |y.caps| == p.ncap
    requires CounterOK(MustAdvance(a), true, min, max, v, limit, Remaining(Input(p), back, x))
    requires Continues(p, LoopEnd(true, pcL), g, ctx, back, x, SetBy(a, cc), MustAdvance(a), c)
    ensures Parsed(a, |x.caps|) && cc + Groups(a) <= |x.caps| && Accepts(Input(p), back, y, c)
    ensures Yields(p, pcL, t, g, Repeat(Input(p), a, back, cc, min - 1, Decrement(max), greedy, y, c))
    decreases a, 12, min, Remaining(Input(p), back, x), 0, 0, 0
  {
    hide Yields, M, Comp, Rel, CodeAt, SetBy, Loopable, Body, Asm, Size, Encode, Pos, Chars, Counters, Depth, CodePoints, Reset, Repeat, RepeatCont, Apply;
    var input := Input(p);
    var k := 2 * p.ncap + |ctx.regs|;
    var i := OpLoop(|ctx.regs|, pc - pcL - 6);
    Lengths(i);
    RelFit(p, Counting(p, false, ctx, x, v), y, t);
    RelCount(p, ctx, y, t, [], v);
    var t' := Thread(t.pos, t.mem[k := v - 1]);
    var ws := [Write(k, v - 1, true)];
    if v - 1 != 0 {
      ContinuesFrom(p, LoopEnd(true, pcL), g, ctx, back, x, SetBy(a, cc), MustAdvance(a), c, SetBy(a, cc), MustAdvance(a), y, SetBy(a, cc), MustAdvance(a));
      SimulateCounter(p, g, a, back, cc, false, true, greedy, limit, min - 1, Fin(v - 1), v - 1, pc, pcL, ctx, y, t', c);
      RepeatUnfold(input, a, back, cc, min - 1, Fin(v - 1), greedy, y, c);
      YieldsGo(p, pcL, i, t, g, Repeat(input, a, back, cc, min - 1, Decrement(max), greedy, y, c), pc, t.pos, ws);
    } else {
      RepeatNone(input, a, back, cc, min - 1, greedy, y, c);
      YieldsGo(p, pcL, i, t, g, c(y), pcL + 6, t.pos, ws);
    }
  }

  /** Behind an iteration of a loop whose remaining iterations may be optional. */
  lemma {:induction false} CountSplit(p: Prog, g: Goal, a: Node, back: bool, cc: nat, adv: bool, greedy: bool, limit: int,
                                      min: nat, max: Max, v: int, pc: nat, pcL: nat, ctx: Context, x: State, c: Cont, y: State, t: Thread)
    requires CountedAt(p, a, back, cc, adv, false, greedy, limit, pc, pcL, ctx) && (adv || MustAdvance(a))
    requires x.end <= |Input(p)| && Rel(p, Counting(p, adv, ctx, x, v), y, t) && |x.caps| == p.ncap && Accepts(Input(p), back, x, c)
    requires Reaches(Input(p), back, x, SetBy(a, cc), MustAdvance(a), y) && Loopable(y, a, cc) && |y.caps| == p.ncap
    requires CounterOK(MustAdvance(a), false, min, max, v, limit, Remaining(Input(p), back, x))
    requires Continues(p, LoopEnd(false, pcL), g, ctx, back, x, SetBy(a, cc), MustAdvance(a), c)
    ensures Parsed(a, |x.caps|) && cc + Groups(a) <= |x.caps| && Accepts(Input(p), back, y, c)
    ensures Yields(p, pcL, t, g,
                   if min == 0 && y.end == x.end then Failure
                   else Repeat(Input(p), a, back, cc, if min == 0 then 0 else min - 1, Decrement(max), greedy, y, c))
    decreases a, 12, min, Remaining(Input(p), back, x), 0, 0, 0
  {
    hide *;
    var input := Input(p);
    var i := OpLoopSplit(adv, !greedy, |ctx.regs|, limit, pc - pcL - 10);
    var k := 2 * p.ncap + |ctx.regs|;
    SplitFacts(p, a, back, cc, adv, greedy, limit, min, max, v, pc, pcL, ctx, x, c, y, t);
    CounterSteps(input, back, adv, min, max, v, limit, x, y, a, cc);
    var t' := Thread(t.pos, t.mem[k := v - 1]);
    var ws := [Write(k, v - 1, true)];
    var m := if min == 0 then 0 else min - 1;
    var e := LoopEnd(false, pcL);
    if min == 0 && y.end == x.end {
      YieldsNoMatch(p, pcL, i, t, g);
    } else {
      ContinuesFrom(p, e, g, ctx, back, x, SetBy(a, cc), MustAdvance(a), c, SetBy(a, cc), MustAdvance(a), y, SetBy(a, cc), MustAdvance(a));
      ContinuesFrom(p, e, g, ctx, back, x, SetBy(a, cc), MustAdvance(a), c, SetBy(a, cc), MustAdvance(a), y, SetBy(a, cc), false);
      ContinuesHere(p, e, g, ctx, back, y, t', SetBy(a, cc), c);
      if v - 1 == 0 {
        RepeatNone(input, a, back, cc, m, greedy, y, c);
        YieldsGo(p, pcL, i, t, g, c(y), e, t.pos, ws);
      } else {
        SimulateCounter(p, g, a, back, cc, adv, false, greedy, limit, m, Decrement(max), v - 1, pc, pcL, ctx, y, t', c);
        RepeatUnfold(input, a, back, cc, m, Decrement(max), greedy, y, c);
        var z := M(input, a, back, cc, Fresh(y, cc, a), RepeatCont(input, a, back, cc, m, Decrement(max), greedy, y, c));
        AgainOrOn(p, g, pcL, i, t, t', v, limit, greedy, pc, e, ws, z, c(y));
      }
    }
  }

  lemma SplitFacts(p: Prog, a: Node, back: bool, cc: nat, adv: bool, greedy: bool, limit: int,
                   min: nat, max: Max, v: int, pc: nat, pcL: nat, ctx: Context, x: State, c: Cont, y: State, t: Thread)
    requires CountedAt(p, a, back, cc, adv, false, greedy, limit, pc, pcL, ctx)
    requires x.end <= |Input(p)| && Rel(p, Counting(p, adv, ctx, x, v), y, t) && |x.caps| == p.ncap && Accepts(Input(p), back, x, c)
    requires Reaches(Input(p), back, x, SetBy(a, cc), MustAdvance(a), y) && CounterOK(MustAdvance(a), false, min, max, v, limit, Remaining(Input(p), back, x))
    ensures var i := OpLoopSplit(adv, !greedy, |ctx.regs|, limit, pc - pcL - 10);
            var ws := [Write(2 * p.ncap + |ctx.regs|, v - 1, true)];
            && LoopEnd(false, pcL) == pcL + 10 && WritesFit(ws, p.nmem) && 0 <= limit
            && SetBy(a, cc) + SetBy(a, cc) <= SetBy(a, cc)
            && CodeAt(p.code, pcL, [i]) && Fits(i) && Parsed(a, |x.caps|) && cc + Groups(a) <= |x.caps|
            && Accepts(Input(p), back, y, c)
            && Fit(p, t) && 1 <= v <= INT32_MAX && 2 * p.ncap + |ctx.regs| < |t.mem|
            && Apply(t.mem, ws) == t.mem[2 * p.ncap + |ctx.regs| := v - 1]
            && Rel(p, ctx, y, Thread(t.pos, Apply(t.mem, ws)))
            && Rel(p, ctx.(regs := ctx.regs + [v - 1]), y, Thread(t.pos, Apply(t.mem, ws)))
            && y.end <= |Input(p)|
            && Len(i) == 10
            && Effects(p, i, pcL + 10, t)
               == if v - 1 > limit then Go(pc, t.pos, ws)
                  else if adv && y.end == x.end && v - 1 != limit then NoMatch
                  else if v - 1 == 0 then Go(pcL + 10, t.pos, ws)
                  else if greedy then Fork(pc, pcL + 10, ws) else Fork(pcL + 10, pc, ws)
  {
    hide Rel, CodeAt, Pos, Chars, Fits, AtomReady, Effects, Len, Encode;
    RelFit(p, Counting(p, adv, ctx, x, v), y, t);
    CountedParsed(p, a, back, cc, adv, false, greedy, limit, pc, pcL, ctx);
    LoopSplitEffect(p, adv, greedy, limit, v, pc, pcL, ctx, x, y, t);
    RelCount(p, ctx, y, t, if adv then [Pos(p.text, x.end)] else [], v);
  }

  /** A loop instruction whose counter has not run out. */
  lemma AgainOrOn(p: Prog, g: Goal, pcL: nat, i: Instr, t: Thread, t': Thread, v: int, limit: int, greedy: bool, pc: nat, e: nat,
                  ws: seq<Write>, z: Result, on: Result)
    requires CodeAt(p.code, pcL, [i]) && Fits(i) && i != OpInvalid && Fit(p, t)
    requires Effects(p, i, pcL + Len(i), t)
             == if v - 1 > limit then Go(pc, t.pos, ws) else if greedy then Fork(pc, e, ws) else Fork(e, pc, ws)
    requires WritesFit(ws, p.nmem) && t' == Thread(t.pos, Apply(t.mem, ws))
    requires Yields(p, pc, t', g, z) && Yields(p, e, t', g, on)
    ensures Yields(p, pcL, t, g, if v - 1 > limit then z else if greedy then Or(z, on) else Or(on, z))
  {
    hide Yields, CodeAt, Effects, Execute, Fits, Apply;
    if v - 1 > limit {
      YieldsGo(p, pcL, i, t, g, z, pc, t.pos, ws);
    } else if greedy {
      YieldsFork(p, pcL, i, t, g, pc, e, ws, z, on);
    } else {
      YieldsFork(p, pcL, i, t, g, e, pc, ws, on, z);
    }
  }

  /** The loop instruction tells required iterations from optional ones as RepeatMatcher does. */
  lemma CounterSteps(input: seq<nat>, back: bool, adv: bool, min: nat, max: Max, v: int, limit: int, x: State, y: State, a: Node, cc: nat)
    requires x.end <= |input| && Reaches(input, back, x, SetBy(a, cc), MustAdvance(a), y) && (adv || MustAdvance(a))
    requires CounterOK(MustAdvance(a), false, min, max, v, limit, Remaining(input, back, x))
    ensures min == 0 && y.end == x.end ==> adv
    ensures if min == 0 then v - 1 < limit else if min == 1 then v - 1 == limit else v - 1 > limit
    ensures v - 1 == 0 ==> Decrement(max) == Fin(0) || (min == 0 && y.end == x.end)
    ensures v - 1 != 0 ==> Decrement(max) != Fin(0)
    ensures v - 1 != 0 && !(min == 0 && y.end == x.end) ==>
              CounterOK(MustAdvance(a), false, if min == 0 then 0 else min - 1, Decrement(max), v - 1, limit, Remaining(input, back, y))
    ensures min == 0 && y.end != x.end ==> Remaining(input, back, y) < Remaining(input, back, x)
  {
    hide SetBy, MustAdvance;
  }

  lemma LoopSplitEffect(p: Prog, adv: bool, greedy: bool, limit: int, v: int, pc: nat, pcL: nat, ctx: Context, x: State, y: State, t: Thread)
    requires x.end <= |Input(p)| && Rel(p, Counting(p, adv, ctx, x, v), y, t) && Fit(p, t) && 1 <= v <= INT32_MAX
    ensures var i := OpLoopSplit(adv, !greedy, |ctx.regs|, limit, pc - pcL - 10);
            var ws := [Write(2 * p.ncap + |ctx.regs|, v - 1, true)];
            && Len(i) == 10
            && Effects(p, i, pcL + 10, t)
               == if v - 1 > limit then Go(pc, t.pos, ws)
                  else if adv && y.end == x.end && v - 1 != limit then NoMatch
                  else if v - 1 == 0 then Go(pcL + 10, t.pos, ws)
                  else if greedy then Fork(pc, pcL + 10, ws) else Fork(pcL + 10, pc, ws)
  {
    hide Rel, Pos, Chars;
    Lengths(OpLoopSplit(adv, !greedy, |ctx.regs|, limit, pc - pcL - 10));
    RelCount(p, ctx, y, t, if adv then [Pos(p.text, x.end)] else [], v);
    PositionRegister(p, adv, ctx, x, v, y, t);
  }

  lemma PositionRegister(p: Prog, adv: bool, ctx: Context, x: State, v: int, y: State, t: Thread)
    requires x.end <= |Input(p)| && Rel(p, Counting(p, adv, ctx, x, v), y, t)
    ensures y.end <= |Input(p)|
    ensures adv ==> 2 * p.ncap + |ctx.regs| + 1 < p.nmem && |t.mem| == p.nmem
                    && (t.mem[2 * p.ncap + |ctx.regs| + 1] == t.pos <==> y.end == x.end)
  {
    hide Pos, Chars, CellsMatch;
    if adv {
      RelRegister(p, Counting(p, adv, ctx, x, v), y, t, |ctx.regs| + 1);
      PosInjective(p.text, x.end, y.end);
    }
  }

  // ----- where the pieces of a layout stand

  lemma IfSize(b: bool, i: Instr)
    requires Len(i) == 2
    ensures Size(If(b, i)) == 2 * Bit(b)
  {
    hide Encode;
    if b { AsmOne(i); }
  }

  lemma Pieces(p: Prog, pc: nat, b: bool, i: Instr, body: seq<Instr>, tail: seq<Instr>)
    requires CodeAt(p.code, pc, If(b, i) + (body + tail)) && Len(i) == 2
    ensures CodeAt(p.code, pc, If(b, i)) && CodeAt(p.code, pc + 2 * Bit(b), body)
    ensures CodeAt(p.code, pc + 2 * Bit(b) + Size(body), tail)
    ensures Size(If(b, i) + (body + tail)) == 2 * Bit(b) + Size(body) + Size(tail)
  {
    hide CodeAt, Encode, Size, Len;
    IfSize(b, i);
    CodeSplit(p.code, pc, If(b, i), body + tail);
    CodeSplit(p.code, pc + 2 * Bit(b), body, tail);
  }

  lemma OptionalLayout(p: Prog, pc: nat, adv: bool, greedy: bool, k: nat, body: seq<Instr>, code: seq<Instr>) returns (off: int)
    requires |p.code| <= INT32_MAX / 2
    requires code == Quantified(Optional, adv, body, 0, 1, greedy, k) && CodeAt(p.code, pc, code)
    ensures Size(code) == 5 + off && off == Size(body) + 4 * Bit(adv)
    ensures CodeAt(p.code, pc, [OpSplit(greedy, off)]) && Fits(OpSplit(greedy, off))
    ensures CodeAt(p.code, pc + 5, If(adv, OpSetCharPos(k))) && CodeAt(p.code, pc + 5 + 2 * Bit(adv), body)
    ensures CodeAt(p.code, pc + 5 + 2 * Bit(adv) + Size(body), If(adv, OpCheckAdvance(k)))
  {
    hide CodeAt, Encode, Size, Len;
    off := Size(body) + 4 * Bit(adv);
    var tail := If(adv, OpCheckAdvance(k));
    Lengths(OpSplit(greedy, off));
    Lengths(OpSetCharPos(k));
    Lengths(OpCheckAdvance(k));
    CodeFits(p.code, pc, code);
    CodeHead(p.code, pc, OpSplit(greedy, off), If(adv, OpSetCharPos(k)) + (body + tail));
    Pieces(p, pc + 5, adv, OpSetCharPos(k), body, tail);
    IfSize(adv, OpCheckAdvance(k));
  }

  lemma StarLayout(p: Prog, pc: nat, adv: bool, greedy: bool, k: nat, body: seq<Instr>, code: seq<Instr>, max: nat) returns (off: int)
    requires |p.code| <= INT32_MAX / 2
    requires code == Quantified(Star, adv, body, 0, max, greedy, k) && CodeAt(p.code, pc, code)
    ensures Size(code) == 5 + off && off == Size(body) + 5 + 4 * Bit(adv)
    ensures CodeAt(p.code, pc, [OpSplit(greedy, off)]) && Fits(OpSplit(greedy, off))
    ensures CodeAt(p.code, pc + 5, If(adv, OpSetCharPos(k))) && CodeAt(p.code, pc + 5 + 2 * Bit(adv), body)
    ensures CodeAt(p.code, pc + 5 + 2 * Bit(adv) + Size(body), If(adv, OpCheckAdvance(k)))
    ensures CodeAt(p.code, pc + off, [OpGoto(-off - 5)]) && Fits(OpGoto(-off - 5))
  {
    hide CodeAt, Encode, Size, Len;
    off := Size(body) + 5 + 4 * Bit(adv);
    var goto := OpGoto(-off - 5);
    var tail := If(adv, OpCheckAdvance(k)) + [goto];
    Lengths(OpSplit(greedy, off));
    Lengths(OpSetCharPos(k));
    Lengths(OpCheckAdvance(k));
    Lengths(goto);
    CodeFits(p.code, pc, code);
    CodeHead(p.code, pc, OpSplit(greedy, off), If(adv, OpSetCharPos(k)) + (body + tail));
    Pieces(p, pc + 5, adv, OpSetCharPos(k), body, tail);
    IfSize(adv, OpCheckAdvance(k));
    CodeSplit(p.code, pc + 5 + 2 * Bit(adv) + Size(body), If(adv, OpCheckAdvance(k)), [goto]);
    OneSize(goto);
  }

  lemma OneSize(i: Instr)
    ensures Size([i]) == Len(i)
  {
    AsmOne(i);
  }

  /** From the target of the loop instruction on, the counting layouts agree. */
  lemma CountedLayout(p: Prog, pc: nat, adv: bool, exact: bool, greedy: bool, limit: int, k: nat, body: seq<Instr>, code: seq<Instr>)
    returns (pcL: nat)
    requires |p.code| <= INT32_MAX / 2 && (exact ==> !adv) && k < 256 && 0 <= limit <= INT32_MAX
    requires code == If(adv, OpSetCharPos(k + 1)) + (body + [LoopInstr(adv, exact, greedy, k, limit, 0, Size(body) + 2 * Bit(adv))])
    requires CodeAt(p.code, pc, code)
    ensures pcL == pc + 2 * Bit(adv) + Size(body) && pc + Size(code) == LoopEnd(exact, pcL)
    ensures CodeAt(p.code, pc, If(adv, OpSetCharPos(k + 1))) && CodeAt(p.code, pc + 2 * Bit(adv), body)
    ensures CodeAt(p.code, pcL, [LoopInstr(adv, exact, greedy, k, limit, pc, pcL)])
    ensures Fits(LoopInstr(adv, exact, greedy, k, limit, pc, pcL))
  {
    hide CodeAt, Encode, Size, Len;
    pcL := pc + 2 * Bit(adv) + Size(body);
    var loop := LoopInstr(adv, exact, greedy, k, limit, pc, pcL);
    Lengths(OpSetCharPos(k + 1));
    Lengths(loop);
    CodeFits(p.code, pc, code);
    Pieces(p, pc, adv, OpSetCharPos(k + 1), body, [loop]);
    OneSize(loop);
  }

  // ----- quantifiers

  /** The reset in front of a quantifier that may skip its atom changes nothing: the groups are unset. */
  lemma SimulatePrefix(p: Prog, g: Goal, a: Node, back: bool, cc: nat, min: nat, pc: nat, ctx: Context, ctx': Context, x: State, t: Thread, r: Result)
    requires ctx' == ctx.(dirty := ctx.dirty - if Prefix(a, back, cc, min) == [] then {} else Span(cc, cc + Groups(a)))
    requires CodeAt(p.code, pc, Prefix(a, back, cc, min)) && cc + Groups(a) <= p.ncap <= 255 && 2 * p.ncap <= p.nmem
    requires Rel(p, ctx, x, t) && |x.caps| == p.ncap && Clear(ctx, x, cc, cc + Groups(a))
    requires forall t' :: Rel(p, ctx', x, t') ==>
               Yields(p, pc + Size(Prefix(a, back, cc, min)), t', g, r)
    ensures Yields(p, pc, t, g, r)
  {
    hide Yields, Rel, CodeAt, NeedInit, Asm, Size, AfterReset;
    var pre := Prefix(a, back, cc, min);
    var hi := cc + Groups(a);
    if pre == [] {
      assert ctx.(dirty := ctx.dirty - {}) == ctx;
      EmptySize();
      assert pc + Size(pre) == pc;
    } else {
      var i := OpSaveReset(cc, hi - 1);
      Lengths(i);
      OneSize(i);
      RelFit(p, ctx, x, t);
      RelReset(p, ctx, x, t, cc, hi);
      ResetUnset(x, cc, hi, ctx);
      SimulateReset(p, g, pc, t, cc, hi, r);
    }
  }

  lemma ResetUnset(x: State, lo: nat, hi: nat, ctx: Context)
    requires lo <= hi <= |x.caps| && Clear(ctx, x, lo, hi)
    ensures State(x.end, Reset(x.caps, lo, hi)) == x
  {
    var caps := Reset(x.caps, lo, hi);
    forall n | 0 <= n < |caps| ensures caps[n] == x.caps[n] {
      if lo <= n < hi { assert x.caps[n] == Undefined; }
    }
    assert caps == x.caps;
  }

  lemma {:induction false} SimulateQuant(p: Prog, g: Goal, a: Node, min: nat, max: Max, greedy: bool, back: bool, cc: nat, pc: nat,
                                         ctx: Context, x: State, t: Thread, c: Cont)
    requires Ready(p, Quant(a, min, max, greedy), back, cc, pc, ctx, x, t) && |x.caps| == p.ncap && Accepts(Input(p), back, x, c)
    requires Continues(p, pc + Size(Comp(Quant(a, min, max, greedy), back, cc, |ctx.regs|)), g, After(ctx, Quant(a, min, max, greedy), back, cc),
                       back, x, SetBy(Quant(a, min, max, greedy), cc), MustAdvance(Quant(a, min, max, greedy)), c)
    ensures Yields(p, pc, t, g, M(Input(p), Quant(a, min, max, greedy), back, cc, x, c))
    decreases Quant(a, min, max, greedy), 8
  {
    hide Yields, Comp, M, Asm, Size, Rel, Encode, CodeAt, CodePoints, Effects, Fits, Execute, Continues, Quantified, Body, NeedAdvance, NeedInit, Repeat, Reaches, Clear, Accepts,
         Parsed, Counters, Depth, Groups, StraightLine, Span, SetBy, MustAdvance, Written, Prefix, Sane;
    QuantParts(p, a, min, max, greedy, back, cc);
    SaneLimits(p);
    var input := Input(p);
    var adv := NeedAdvance(a, back, cc);
    var l := LayoutOf(adv, min, max);
    var k := |ctx.regs|;
    var body := Body(a, back, cc, k + OwnRegisters(l, adv));
    var pre := Prefix(a, back, cc, min);
    var q := Quantified(l, adv, body, min, QuantMax(max), greedy, k);
    CompQuant(a, min, max, greedy, back, cc, k);
    CodeSplit(p.code, pc, pre, q);
    MQuant(input, a, min, max, greedy, back, cc, x, c);
    var r := Repeat(input, a, back, cc, min, max, greedy, x, c);
    var ctx' := ctx.(dirty := ctx.dirty - if pre == [] then {} else Span(cc, cc + Groups(a)));
    var pcQ := pc + Size(pre);
    if l.Dropped? {
      assert max == Fin(0);
      RepeatNone(input, a, back, cc, min, greedy, x, c);
      assert q == [] by { DroppedCode(adv, body, min, QuantMax(max), greedy, k); }
      QuantDropped(p, g, a, back, cc, min, greedy, pcQ, ctx, ctx', x, c, q);
      SimulatePrefix(p, g, a, back, cc, min, pc, ctx, ctx', x, t, r);
    } else {
      assert ctx.dirty == {};
      assert ctx' == ctx == After(ctx, Quant(a, min, max, greedy), back, cc);
      forall t' | Rel(p, ctx, x, t') ensures Yields(p, pcQ, t', g, r) {
        SimulateLayout(p, g, a, min, max, greedy, l, adv, back, cc, pcQ, ctx, x, t', c);
      }
      SimulatePrefix(p, g, a, back, cc, min, pc, ctx, ctx', x, t, r);
    }
  }

  lemma QuantParts(p: Prog, a: Node, min: nat, max: Max, greedy: bool, back: bool, cc: nat)
    ensures var q := Quant(a, min, max, greedy);
            var adv := NeedAdvance(a, back, cc);
            var l := LayoutOf(adv, min, max);
            && Groups(q) == Groups(a)
            && (Parsed(q, p.ncap) ==> Parsed(a, p.ncap) && min <= INT32_MAX && (max.Fin? ==> min <= max.n <= INT32_MAX))
            && StraightLine(q) == (max == Fin(0))
            && SetBy(q, cc) == (if max == Fin(0) then {} else SetBy(a, cc))
            && MustAdvance(q) == (min >= 1 && MustAdvance(a))
            && (!l.Dropped? ==> Depth(q, back, cc) == OwnRegisters(l, adv) + Depth(a, back, cc))
            && (max != Fin(0) ==> Written(q, back, cc) == {})
  {
    hide NeedAdvance, NeedInit, Canonical, Span;
  }

  lemma DroppedCode(adv: bool, body: seq<Instr>, min: nat, max: nat, greedy: bool, d: int)
    ensures Quantified(Dropped, adv, body, min, max, greedy, d) == []
  {
  }

  lemma QuantDropped(p: Prog, g: Goal, a: Node, back: bool, cc: nat, min: nat, greedy: bool, pcQ: nat, ctx: Context, ctx': Context,
                     x: State, c: Cont, q: seq<Instr>)
    requires min == 0 && Accepts(Input(p), back, x, c) && q == []
    requires ctx' == ctx.(dirty := ctx.dirty - if Prefix(a, back, cc, min) == [] then {} else Span(cc, cc + Groups(a)))
    requires Continues(p, pcQ + Size(q), g, After(ctx, Quant(a, min, Fin(0), greedy), back, cc), back, x, {}, false, c)
    ensures forall t :: Rel(p, ctx', x, t) ==> Yields(p, pcQ, t, g, c(x))
  {
    hide Yields, Rel, NeedInit;
    EmptySize();
    assert ctx' == After(ctx, Quant(a, min, Fin(0), greedy), back, cc);
    assert Reaches(Input(p), back, x, {}, false, x);
  }

  /** The quantifier's code behind the prefix, layout by layout. */
  lemma {:induction false} SimulateLayout(p: Prog, g: Goal, a: Node, min: nat, max: Max, greedy: bool, l: Layout, adv: bool, back: bool, cc: nat, pc: nat,
                                          ctx: Context, x: State, t: Thread, c: Cont)
    requires Sane(p) && Parsed(Quant(a, min, max, greedy), p.ncap) && cc + Groups(a) <= p.ncap
    requires Counters(Quant(a, min, max, greedy), |Input(p)|)
    requires adv == NeedAdvance(a, back, cc) && l == LayoutOf(adv, min, max) && !l.Dropped?
    requires 2 * p.ncap + |ctx.regs| + OwnRegisters(l, adv) + Depth(a, back, cc) <= p.nmem
    requires var k := |ctx.regs|;
             var q := Quantified(l, adv, Body(a, back, cc, k + OwnRegisters(l, adv)), min, QuantMax(max), greedy, k);
             CodeAt(p.code, pc, q)
             && Continues(p, pc + Size(q), g, ctx, back, x, SetBy(a, cc), min >= 1 && MustAdvance(a), c)
    requires Rel(p, ctx, x, t) && |x.caps| == p.ncap && Accepts(Input(p), back, x, c)
    requires Clear(ctx, x, cc, cc + Groups(a)) && ctx.dirty == {}
    ensures Yields(p, pc, t, g, Repeat(Input(p), a, back, cc, min, max, greedy, x, c))
    decreases a, 13
  {
    hide Yields, Comp, M, Asm, Size, Rel, Encode, CodeAt, CodePoints, Effects, Fits, Execute, Quantified, Body, Repeat, Reaches, Clear, Accepts, SetBy, MustAdvance, Continues, Depth, Parsed, Counters, Loopable, Sane;
    assert Loopable(x, a, cc) by { ClearLoopable(ctx, x, a, cc); }
    LayoutReady(p, a, min, max, greedy, l, adv, back, cc, ctx, x, t);
    AtomScan(a, back, cc);
    match l
    case Optional => LayoutOptional(p, g, a, greedy, adv, back, cc, pc, ctx, x, t, c);
    case Star => LayoutStar(p, g, a, greedy, adv, back, cc, pc, ctx, x, t, c);
    case Bounded => LayoutBounded(p, g, a, max.n, greedy, adv, back, cc, pc, ctx, x, t, c);
    case Plus => LayoutPlus(p, g, a, greedy, back, cc, pc, ctx, x, t, c);
    case Exact => LayoutExact(p, g, a, min, greedy, adv, back, cc, pc, ctx, x, t, c);
    case Counted => LayoutCounted(p, g, a, min, max, greedy, adv, back, cc, pc, ctx, x, t, c);
  }

  lemma ClearLoopable(ctx: Context, x: State, a: Node, cc: nat)
    requires Clear(ctx, x, cc, cc + Groups(a))
    ensures Loopable(x, a, cc)
  {
  }

  /** Everything that the layouts need of their atom but the place of its code. */
  ghost predicate Loop(p: Prog, a: Node, back: bool, cc: nat, own: nat, ctx: Context, x: State, t: Thread) {
    && Sane(p)
    && Parsed(a, p.ncap) && cc + Groups(a) <= p.ncap && Counters(a, |Input(p)|)
    && 2 * p.ncap + |ctx.regs| + own + Depth(a, back, cc) <= p.nmem
    && ctx.dirty == {}
    && (forall n :: cc <= n < cc + Groups(a) ==> n !in ctx.env)
    && Rel(p, ctx, x, t) && |x.caps| == p.ncap && Loopable(x, a, cc)
  }

  lemma LayoutReady(p: Prog, a: Node, min: nat, max: Max, greedy: bool, l: Layout, adv: bool, back: bool, cc: nat, ctx: Context, x: State, t: Thread)
    requires Sane(p) && Parsed(Quant(a, min, max, greedy), p.ncap) && cc + Groups(a) <= p.ncap
    requires Counters(Quant(a, min, max, greedy), |Input(p)|)
    requires 2 * p.ncap + |ctx.regs| + OwnRegisters(l, adv) + Depth(a, back, cc) <= p.nmem
    requires Rel(p, ctx, x, t) && |x.caps| == p.ncap && Loopable(x, a, cc)
    requires Clear(ctx, x, cc, cc + Groups(a)) && ctx.dirty == {}
    ensures Loop(p, a, back, cc, OwnRegisters(l, adv), ctx, x, t)
    ensures min <= INT32_MAX && (max.Fin? ==> min <= max.n <= INT32_MAX)
    ensures max == Fin(INT32_MAX) ==> min >= 2 || (min == 1 && !MustAdvance(a))
    ensures max.Inf? ==> |Input(p)| < INT32_MAX && ((min < INT32_MAX && MustAdvance(a)) || min + |Input(p)| < INT32_MAX)
  {
    hide Rel, Loopable, Depth, Sane, Counters, Parsed, MustAdvance;
    SaneLimits(p);
    QuantLimits(p, a, min, max, greedy);
  }

  lemma QuantLimits(p: Prog, a: Node, min: nat, max: Max, greedy: bool)
    requires Parsed(Quant(a, min, max, greedy), p.ncap) && Counters(Quant(a, min, max, greedy), |Input(p)|)
    ensures Parsed(a, p.ncap) && Counters(a, |Input(p)|)
    ensures min <= INT32_MAX && (max.Fin? ==> min <= max.n <= INT32_MAX)
    ensures max == Fin(INT32_MAX) ==> min >= 2 || (min == 1 && !MustAdvance(a))
    ensures max.Inf? ==> (min < INT32_MAX && MustAdvance(a)) || min + |Input(p)| < INT32_MAX
  {
    hide MustAdvance;
  }

  lemma AtomAt(p: Prog, a: Node, back: bool, cc: nat, own: nat, ctx: Context, x: State, t: Thread, pc: nat)
    requires Loop(p, a, back, cc, own, ctx, x, t) && CodeAt(p.code, pc, Body(a, back, cc, |ctx.regs| + own))
    ensures AtomReady(p, a, back, cc, pc, ctx, |ctx.regs| + own)
  {
    hide Rel, Loopable, Depth, Sane, CodeAt, Body;
  }

  lemma SaneLimits(p: Prog)
    requires Sane(p)
    ensures |p.code| <= INT32_MAX / 2 && p.ncap <= 255 && p.nmem <= 2 * p.ncap + 255 && |Input(p)| < INT32_MAX
  {
  }

  lemma {:induction false} LayoutOptional(p: Prog, g: Goal, a: Node, greedy: bool, adv: bool, back: bool, cc: nat, pc: nat, ctx: Context, x: State, t: Thread, c: Cont)
    requires Loop(p, a, back, cc, Bit(adv), ctx, x, t) && (adv || MustAdvance(a)) && Accepts(Input(p), back, x, c)
    requires var q := Quantified(Optional, adv, Body(a, back, cc, |ctx.regs| + Bit(adv)), 0, 1, greedy, |ctx.regs|);
             CodeAt(p.code, pc, q) && Continues(p, pc + Size(q), g, ctx, back, x, SetBy(a, cc), false, c)
    ensures Parsed(a, |x.caps|) && cc + Groups(a) <= |x.caps|
    ensures Yields(p, pc, t, g, Repeat(Input(p), a, back, cc, 0, Fin(1), greedy, x, c))
    decreases a, 13, 0
  {
    hide Yields, Comp, Asm, Size, Rel, Encode, CodeAt, Fits, Quantified, Body, Repeat, Reaches, Accepts, SetBy, MustAdvance, Continues, Depth, Parsed, Counters, Loopable, Sane;
    SaneLimits(p);
    var body := Body(a, back, cc, |ctx.regs| + Bit(adv));
    var q := Quantified(Optional, adv, body, 0, 1, greedy, |ctx.regs|);
    var off := OptionalLayout(p, pc, adv, greedy, |ctx.regs|, body, q);
    AtomAt(p, a, back, cc, Bit(adv), ctx, x, t, pc + 5 + 2 * Bit(adv));
    SimulateOptional(p, g, a, back, cc, adv, greedy, off, pc, pc + 5 + off, ctx, x, t, c);
  }

  lemma {:induction false} LayoutStar(p: Prog, g: Goal, a: Node, greedy: bool, adv: bool, back: bool, cc: nat, pc: nat, ctx: Context, x: State, t: Thread, c: Cont)
    requires Loop(p, a, back, cc, Bit(adv), ctx, x, t) && (adv || MustAdvance(a)) && Accepts(Input(p), back, x, c)
    requires var q := Quantified(Star, adv, Body(a, back, cc, |ctx.regs| + Bit(adv)), 0, INT32_MAX, greedy, |ctx.regs|);
             CodeAt(p.code, pc, q) && Continues(p, pc + Size(q), g, ctx, back, x, SetBy(a, cc), false, c)
    ensures Parsed(a, |x.caps|) && cc + Groups(a) <= |x.caps|
    ensures Yields(p, pc, t, g, Repeat(Input(p), a, back, cc, 0, Inf, greedy, x, c))
    decreases a, 13, 0
  {
    hide Yields, Comp, Asm, Size, Rel, Encode, CodeAt, Fits, Quantified, Body, Repeat, Reaches, Accepts, SetBy, MustAdvance, Continues, Depth, Parsed, Counters, Loopable, Sane;
    SaneLimits(p);
    var body := Body(a, back, cc, |ctx.regs| + Bit(adv));
    var q := Quantified(Star, adv, body, 0, INT32_MAX, greedy, |ctx.regs|);
    var off := StarLayout(p, pc, adv, greedy, |ctx.regs|, body, q, INT32_MAX);
    AtomAt(p, a, back, cc, Bit(adv), ctx, x, t, pc + 5 + 2 * Bit(adv));
    SimulateStar(p, g, a, back, cc, adv, greedy, off, pc, pc + off, ctx, x, t, c);
  }

  lemma {:induction false} LayoutPlus(p: Prog, g: Goal, a: Node, greedy: bool, back: bool, cc: nat, pc: nat, ctx: Context, x: State, t: Thread, c: Cont)
    requires Loop(p, a, back, cc, 0, ctx, x, t) && MustAdvance(a) && Accepts(Input(p), back, x, c)
    requires var q := Quantified(Plus, false, Body(a, back, cc, |ctx.regs|), 1, INT32_MAX, greedy, |ctx.regs|);
             CodeAt(p.code, pc, q) && Continues(p, pc + Size(q), g, ctx, back, x, SetBy(a, cc), true, c)
    ensures Parsed(a, |x.caps|) && cc + Groups(a) <= |x.caps|
    ensures Yields(p, pc, t, g, Repeat(Input(p), a, back, cc, 1, Inf, greedy, x, c))
    decreases a, 13, 0
  {
    hide Yields, Comp, Asm, Size, Rel, Encode, CodeAt, Body, Repeat, RepeatCont, M, Reaches, Accepts, SetBy, MustAdvance, Continues, Depth, Parsed, Counters, Loopable, Sane;
    SaneLimits(p);
    var body := Body(a, back, cc, |ctx.regs|);
    var split := OpSplit(!greedy, -(Size(body) + 5));
    Lengths(split);
    OneSize(split);
    CodeFits(p.code, pc, body + [split]);
    CodeSplit(p.code, pc, body, [split]);
    AtomAt(p, a, back, cc, 0, ctx, x, t, pc);
    RepeatUnfold(Input(p), a, back, cc, 1, Inf, greedy, x, c);
    SimulatePlus(p, g, a, back, cc, greedy, 1, pc, pc + Size(body), ctx, x, t, c);
  }

  /** The store of the initial count and the loop behind it. */
  lemma {:induction false} EnterCounter(p: Prog, g: Goal, a: Node, min: nat, max: Max, count: nat, exact: bool, limit: int, greedy: bool, adv: bool,
                                        back: bool, cc: nat, pc: nat, ctx: Context, x: State, t: Thread, c: Cont, code: seq<Instr>)
    requires Loop(p, a, back, cc, 1 + Bit(adv), ctx, x, t) && (adv || exact || MustAdvance(a)) && (exact ==> !adv) && Accepts(Input(p), back, x, c)
    requires CounterOK(MustAdvance(a), exact, min, max, count, limit, Remaining(Input(p), back, x)) && limit <= INT32_MAX
    requires var body := Body(a, back, cc, |ctx.regs| + 1 + Bit(adv));
             code == [OpSetI32(|ctx.regs|, count)]
                     + (If(adv, OpSetCharPos(|ctx.regs| + 1))
                        + (body + [LoopInstr(adv, exact, greedy, |ctx.regs|, limit, 0, Size(body) + 2 * Bit(adv))]))
    requires CodeAt(p.code, pc, code) && Continues(p, pc + Size(code), g, ctx, back, x, SetBy(a, cc), MustAdvance(a), c)
    ensures Parsed(a, |x.caps|) && cc + Groups(a) <= |x.caps|
    ensures var d := RepeatCont(Input(p), a, back, cc, min, max, greedy, x, c);
            Accepts(Input(p), back, Fresh(x, cc, a), d) && Yields(p, pc, t, g, M(Input(p), a, back, cc, Fresh(x, cc, a), d))
    decreases a, 13, 0
  {
    hide Yields, Comp, Asm, Size, Rel, Encode, CodeAt, Body, Repeat, RepeatCont, M, Reaches, Accepts, SetBy, MustAdvance, Continues, Depth, Parsed, Counters, Loopable, Sane, CounterOK, LoopInstr, Fresh;
    SaneLimits(p);
    RelSize(p, ctx, x, t);
    RelEnd(p, ctx, x, t);
    var k := |ctx.regs|;
    var body := Body(a, back, cc, k + 1 + Bit(adv));
    CounterCount(MustAdvance(a), exact, min, max, count, limit, Remaining(Input(p), back, x));
    var rest := code[1..];
    assert code == [OpSetI32(k, count)] + rest;
    CodeHead(p.code, pc, OpSetI32(k, count), rest);
    Lengths(OpSetI32(k, count));
    var pcL := CountedLayout(p, pc + 6, adv, exact, greedy, limit, k, body, rest);
    AtomAt(p, a, back, cc, 1 + Bit(adv), ctx, x, t, pc + 6 + 2 * Bit(adv));
    RelFit(p, ctx, x, t);
    RelPush(p, ctx, x, t, count);
    var t1 := Thread(t.pos, t.mem[2 * p.ncap + k := count]);
    SimulateCounter(p, g, a, back, cc, adv, exact, greedy, limit, min, max, count, pc + 6, pcL, ctx, x, t1, c);
    SimulateStore(p, g, pc, OpSetI32(k, count), t, k, count, M(Input(p), a, back, cc, Fresh(x, cc, a), RepeatCont(Input(p), a, back, cc, min, max, greedy, x, c)));
  }

  lemma CounterCount(strict: bool, exact: bool, min: nat, max: Max, v: int, limit: int, rem: nat)
    requires CounterOK(strict, exact, min, max, v, limit, rem)
    ensures 1 <= v <= INT32_MAX && 0 <= limit
  {
  }

  lemma {:induction false} LayoutExact(p: Prog, g: Goal, a: Node, min: nat, greedy: bool, adv: bool, back: bool, cc: nat, pc: nat, ctx: Context, x: State, t: Thread, c: Cont)
    requires Loop(p, a, back, cc, 1, ctx, x, t) && Accepts(Input(p), back, x, c) && 1 <= min <= INT32_MAX
    requires var q := Quantified(Exact, adv, Body(a, back, cc, |ctx.regs| + 1), min, min, greedy, |ctx.regs|);
             CodeAt(p.code, pc, q) && Continues(p, pc + Size(q), g, ctx, back, x, SetBy(a, cc), MustAdvance(a), c)
    ensures Parsed(a, |x.caps|) && cc + Groups(a) <= |x.caps|
    ensures Yields(p, pc, t, g, Repeat(Input(p), a, back, cc, min, Fin(min), greedy, x, c))
    decreases a, 13, 1
  {
    hide Yields, Comp, Asm, Size, Rel, Encode, CodeAt, Body, Repeat, RepeatCont, M, Reaches, Accepts, SetBy, MustAdvance, Continues, Depth, Parsed, Counters, Loopable, Sane;
    var q := Quantified(Exact, adv, Body(a, back, cc, |ctx.regs| + 1), min, min, greedy, |ctx.regs|);
    var body := Body(a, back, cc, |ctx.regs| + 1);
    assert [] + (body + [OpLoop(|ctx.regs|, -(Size(body) + 6))]) == body + [OpLoop(|ctx.regs|, -(Size(body) + 6))];
    LoopPlaces(p, a, back, cc, 1, ctx, x, t);
    EnterCounter(p, g, a, min, Fin(min), min, true, 0, greedy, false, back, cc, pc, ctx, x, t, c, q);
    RepeatUnfold(Input(p), a, back, cc, min, Fin(min), greedy, x, c);
  }

  lemma LoopPlaces(p: Prog, a: Node, back: bool, cc: nat, own: nat, ctx: Context, x: State, t: Thread)
    requires Loop(p, a, back, cc, own, ctx, x, t)
    ensures x.end <= |Input(p)| && |x.caps| == p.ncap && Parsed(a, p.ncap) && cc + Groups(a) <= p.ncap
  {
    RelEnd(p, ctx, x, t);
  }

  lemma {:induction false} LayoutCounted(p: Prog, g: Goal, a: Node, min: nat, max: Max, greedy: bool, adv: bool, back: bool, cc: nat, pc: nat, ctx: Context, x: State, t: Thread, c: Cont)
    requires Loop(p, a, back, cc, 1 + Bit(adv), ctx, x, t) && Accepts(Input(p), back, x, c) && (adv || MustAdvance(a))
    requires 1 <= min <= INT32_MAX && (max.Fin? ==> min <= max.n <= INT32_MAX)
    requires max.Inf? ==> |Input(p)| < INT32_MAX && ((min < INT32_MAX && MustAdvance(a)) || min + |Input(p)| < INT32_MAX)
    requires var q := Quantified(Counted, adv, Body(a, back, cc, |ctx.regs| + 1 + Bit(adv)), min, QuantMax(max), greedy, |ctx.regs|);
             CodeAt(p.code, pc, q) && Continues(p, pc + Size(q), g, ctx, back, x, SetBy(a, cc), MustAdvance(a), c)
    ensures Parsed(a, |x.caps|) && cc + Groups(a) <= |x.caps|
    ensures Yields(p, pc, t, g, Repeat(Input(p), a, back, cc, min, max, greedy, x, c))
    decreases a, 13, 1
  {
    hide Yields, Comp, Asm, Size, Rel, Encode, CodeAt, Body, Repeat, RepeatCont, M, Reaches, Accepts, SetBy, MustAdvance, Continues, Depth, Parsed, Counters, Loopable, Sane;
    LoopPlaces(p, a, back, cc, 1 + Bit(adv), ctx, x, t);
    RemainingBound(Input(p), back, x);
    var q := Quantified(Counted, adv, Body(a, back, cc, |ctx.regs| + 1 + Bit(adv)), min, QuantMax(max), greedy, |ctx.regs|);
    EnterCounter(p, g, a, min, max, QuantMax(max), false, QuantMax(max) - min, greedy, adv, back, cc, pc, ctx, x, t, c, q);
    RepeatUnfold(Input(p), a, back, cc, min, max, greedy, x, c);
  }

  lemma RemainingBound(input: seq<nat>, back: bool, x: State)
    requires x.end <= |input|
    ensures Remaining(input, back, x) <= |input|
  {
  }

  lemma {:induction false} LayoutBounded(p: Prog, g: Goal, a: Node, max: nat, greedy: bool, adv: bool, back: bool, cc: nat, pc: nat, ctx: Context, x: State, t: Thread, c: Cont)
    requires Loop(p, a, back, cc, 1 + Bit(adv), ctx, x, t) && Accepts(Input(p), back, x, c) && (adv || MustAdvance(a))
    requires 1 <= max < INT32_MAX
    requires var q := Quantified(Bounded, adv, Body(a, back, cc, |ctx.regs| + 1 + Bit(adv)), 0, max, greedy, |ctx.regs|);
             CodeAt(p.code, pc, q) && Continues(p, pc + Size(q), g, ctx, back, x, SetBy(a, cc), false, c)
    ensures Parsed(a, |x.caps|) && cc + Groups(a) <= |x.caps|
    ensures Yields(p, pc, t, g, Repeat(Input(p), a, back, cc, 0, Fin(max), greedy, x, c))
    decreases a, 13, 1
  {
    hide Yields, Comp, Asm, Size, Rel, Encode, CodeAt, Body, Repeat, RepeatCont, M, Accepts, SetBy, MustAdvance, Continues, Depth, Parsed, Counters, Loopable, Sane, Fits, Reaches, Fresh;
    LoopPlaces(p, a, back, cc, 1 + Bit(adv), ctx, x, t);
    SaneLimits(p);
    var k := |ctx.regs|;
    var body := Body(a, back, cc, k + 1 + Bit(adv));
    var q := Quantified(Bounded, adv, body, 0, max, greedy, k);
    var off := 6 + 2 * Bit(adv) + Size(body) + 10;
    var rest := q[1..];
    assert q == [OpSplit(greedy, off)] + rest;
    BoundedLayout(p, pc, adv, greedy, max, k, body, q, off, rest);
    ReachesSelf(Input(p), back, x);
    ContinuesFrom(p, pc + Size(q), g, ctx, back, x, SetBy(a, cc), false, c, {}, false, x, SetBy(a, cc), MustAdvance(a));
    EnterCounter(p, g, a, 0, Fin(max), max, false, max, greedy, adv, back, cc, pc + 5, ctx, x, t, c, rest);
    RepeatUnfold(Input(p), a, back, cc, 0, Fin(max), greedy, x, c);
    RelFit(p, ctx, x, t);
    ContinuesHere(p, pc + Size(q), g, ctx, back, x, t, SetBy(a, cc), c);
    SkipOrEnter(p, g, pc, greedy, off, t, M(Input(p), a, back, cc, Fresh(x, cc, a), RepeatCont(Input(p), a, back, cc, 0, Fin(max), greedy, x, c)), c(x));
  }

  lemma ContinuesHere(p: Prog, pc: nat, g: Goal, ctx: Context, back: bool, x: State, t: Thread, touched: set<nat>, c: Cont)
    requires Continues(p, pc, g, ctx, back, x, touched, false, c) && Rel(p, ctx, x, t) && x.end <= |Input(p)|
    ensures c.requires(x) && Yields(p, pc, t, g, c(x))
  {
    hide Rel, Yields;
    assert Reaches(Input(p), back, x, touched, false, x);
  }

  lemma BoundedLayout(p: Prog, pc: nat, adv: bool, greedy: bool, max: nat, k: nat, body: seq<Instr>, q: seq<Instr>, off: int, rest: seq<Instr>)
    requires |p.code| <= INT32_MAX / 2 && CodeAt(p.code, pc, q)
    requires q == Quantified(Bounded, adv, body, 0, max, greedy, k) && q == [OpSplit(greedy, off)] + rest
    requires off == 6 + 2 * Bit(adv) + Size(body) + 10
    ensures Fits(OpSplit(greedy, off)) && CodeAt(p.code, pc, [OpSplit(greedy, off)]) && CodeAt(p.code, pc + 5, rest)
    ensures Size(q) == 5 + Size(rest) && Size(rest) == off
  {
    hide CodeAt, Encode, Size, Len;
    CodeFits(p.code, pc, q);
    Lengths(OpSplit(greedy, off));
    CodeHead(p.code, pc, OpSplit(greedy, off), rest);
    var store := OpSetI32(k, max);
    var loop := OpLoopSplit(adv, !greedy, k, max, -(Size(body) + 10 + 2 * Bit(adv)));
    assert rest == q[1..] == [store] + (If(adv, OpSetCharPos(k + 1)) + (body + [loop]));
    Lengths(store);
    Lengths(loop);
    Lengths(OpSetCharPos(k + 1));
    CodeHead(p.code, pc + 5, store, If(adv, OpSetCharPos(k + 1)) + (body + [loop]));
    Pieces(p, pc + 11, adv, OpSetCharPos(k + 1), body, [loop]);
    OneSize(loop);
    CodeFits(p.code, pc + 5, rest);
  }
}
