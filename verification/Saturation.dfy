/** Counters start at INT32_MAX: what the code of an unbounded quantifier means on every subject. */
module Saturation {
  import opened Words
  import opened Bytecode
  import opened Syntax
  import opened Codegen
  import opened SimulationBase
  import opened Ecma

  /** Unbounded quantifiers whose loops may count down become bounded by INT32_MAX. */
  function Saturated(node: Node): Node {
    match node
    case Cat(a, b) => Cat(Saturated(a), Saturated(b))
    case Alt(a, b) => Alt(Saturated(a), Saturated(b))
    case Group(a) => Group(Saturated(a))
    case Quant(a, min, max, greedy) => Quant(Saturated(a), min, SaturatedMax(a, min, max), greedy)
    case Look(behind, neg, a) => Look(behind, neg, Saturated(a))
    case _ => node
  }

  function SaturatedMax(a: Node, min: nat, max: Max): Max {
    if max.Inf? && min > 0 && !(MustAdvance(a) && min < INT32_MAX) then Fin(INT32_MAX) else max
  }

  lemma {:induction false} SaturatedShape(node: Node)
    ensures Groups(Saturated(node)) == Groups(node) && MustAdvance(Saturated(node)) == MustAdvance(node)
    ensures RangesFit(Saturated(node)) == RangesFit(node)
  {
    match node
    case Cat(a, b) => SaturatedShape(a); SaturatedShape(b);
    case Alt(a, b) => SaturatedShape(a); SaturatedShape(b);
    case Group(a) => SaturatedShape(a);
    case Quant(a, min, max, greedy) => SaturatedShape(a);
    case Look(behind, neg, a) => SaturatedShape(a);
    case _ =>
  }

  /** The compiler does not tell the two patterns apart. */
  lemma {:induction false} SaturatedCode(node: Node, back: bool, cc: nat, d: int)
    ensures Comp(Saturated(node), back, cc, d) == Comp(node, back, cc, d)
    decreases node
  {
    hide Comp, CatCode, AltCode, GroupCode, LookCode, QuantCode, SaturatedMax;
    SaturatedShape(node);
    match node
    case Cat(a, b) =>
      SaturatedShape(a);
      SaturatedCode(a, back, cc, d);
      SaturatedCode(b, back, cc + Groups(a), d);
      CompCat(a, b, back, cc, d);
      CompCat(Saturated(a), Saturated(b), back, cc, d);
    case Alt(a, b) =>
      SaturatedShape(a);
      SaturatedCode(a, back, cc, d);
      SaturatedCode(b, back, cc + Groups(a), d);
      CompAlt(a, b, back, cc, d);
      CompAlt(Saturated(a), Saturated(b), back, cc, d);
    case Group(a) =>
      SaturatedCode(a, back, cc + 1, d);
      CompGroup(a, back, cc, d);
      CompGroup(Saturated(a), back, cc, d);
    case Quant(a, min, max, greedy) =>
      SaturatedShape(a);
      CompQuant(a, min, max, greedy, back, cc, d);
      CompQuant(Saturated(a), min, SaturatedMax(a, min, max), greedy, back, cc, d);
      forall e ensures Comp(Saturated(a), back, cc, e) == Comp(a, back, cc, e) {
        SaturatedCode(a, back, cc, e);
      }
      SameQuant(a, Saturated(a), min, max, SaturatedMax(a, min, max), greedy, back, cc, d);
    case Look(behind, neg, a) =>
      SaturatedCode(a, behind, cc, d);
      CompLook(behind, neg, a, back, cc, d);
      CompLook(behind, neg, Saturated(a), back, cc, d);
    case _ =>
  }

  lemma SameQuant(a: Node, b: Node, min: nat, max: Max, max': Max, greedy: bool, back: bool, cc: nat, d: int)
    requires forall e :: Comp(b, back, cc, e) == Comp(a, back, cc, e)
    requires Groups(a) == Groups(b) && max' == SaturatedMax(a, min, max)
    ensures QuantCode(b, back, cc, min, max', greedy, d) == QuantCode(a, back, cc, min, max, greedy, d)
  {
    hide Comp, Quantified, Groups, MustAdvance, LayoutOf, OwnRegisters, SaturatedMax, Body, Prefix, NeedAdvance, NeedInit;
    var adv := NeedAdvance(a, back, cc);
    var l := LayoutOf(adv, min, max);
    var e := Deeper(d, OwnRegisters(l, adv));
    assert Comp(b, back, cc, -1) == Comp(a, back, cc, -1) && Comp(b, back, cc, e) == Comp(a, back, cc, e);
    SameAtom(a, b, back, cc, e, min);
    SameLayout(adv, a, min, max);
  }

  lemma SameAtom(a: Node, b: Node, back: bool, cc: nat, e: int, min: nat)
    requires Comp(b, back, cc, -1) == Comp(a, back, cc, -1) && Comp(b, back, cc, e) == Comp(a, back, cc, e) && Groups(a) == Groups(b)
    ensures NeedAdvance(b, back, cc) == NeedAdvance(a, back, cc) && NeedInit(b, back, cc) == NeedInit(a, back, cc)
    ensures Body(b, back, cc, e) == Body(a, back, cc, e) && Prefix(b, back, cc, min) == Prefix(a, back, cc, min)
  {
    hide *;
    SameScan(a, b, back, cc);
    BodyIs(a, back, cc, e, min);
    BodyIs(b, back, cc, e, min);
  }

  lemma SameScan(a: Node, b: Node, back: bool, cc: nat)
    requires Comp(b, back, cc, -1) == Comp(a, back, cc, -1)
    ensures NeedAdvance(b, back, cc) == NeedAdvance(a, back, cc) && NeedInit(b, back, cc) == NeedInit(a, back, cc)
  {
    hide Comp, ScanCode;
  }

  lemma BodyIs(a: Node, back: bool, cc: nat, e: int, min: nat)
    ensures Body(a, back, cc, e) == If(NeedInit(a, back, cc) && Groups(a) > 0, OpSaveReset(cc, cc + Groups(a) - 1)) + Comp(a, back, cc, e)
    ensures Prefix(a, back, cc, min) == If(min == 0 && !NeedInit(a, back, cc) && Groups(a) > 0, OpSaveReset(cc, cc + Groups(a) - 1))
  {
    hide Comp, NeedInit, Groups;
  }

  lemma {:induction false} SaturatedDepth(node: Node, back: bool, cc: nat)
    ensures Depth(Saturated(node), back, cc) == Depth(node, back, cc)
    decreases node
  {
    hide Comp, LayoutOf, OwnRegisters;
    match node
    case Cat(a, b) => SaturatedShape(a); SaturatedDepth(a, back, cc); SaturatedDepth(b, back, cc + Groups(a));
    case Alt(a, b) => SaturatedShape(a); SaturatedDepth(a, back, cc); SaturatedDepth(b, back, cc + Groups(a));
    case Group(a) => SaturatedDepth(a, back, cc + 1);
    case Quant(a, min, max, greedy) =>
      SaturatedDepth(a, back, cc);
      SaturatedCode(a, back, cc, -1);
      SameLayout(NeedAdvance(a, back, cc), a, min, max);
    case Look(behind, neg, a) => SaturatedDepth(a, behind, cc);
    case _ =>
  }

  lemma SameLayout(adv: bool, a: Node, min: nat, max: Max)
    ensures LayoutOf(adv, min, SaturatedMax(a, min, max)) == LayoutOf(adv, min, max)
    ensures QuantMax(SaturatedMax(a, min, max)) == QuantMax(max)
  {
  }

  lemma SaturatedProgram(node: Node, sticky: bool, d: int)
    ensures Program(Saturated(node), sticky, d) == Program(node, sticky, d)
  {
    hide Comp;
    SaturatedCode(node, false, 1, d);
  }

  /** Nothing is left that a counter could run out of. */
  lemma {:induction false} SaturatedCounts(node: Node, ncap: nat, len: nat)
    requires Readable(node, ncap) && RangesFit(node) && len < INT32_MAX
    ensures Parsed(Saturated(node), ncap) && Counters(Saturated(node), len)
  {
    match node
    case Cat(a, b) => SaturatedCounts(a, ncap, len); SaturatedCounts(b, ncap, len);
    case Alt(a, b) => SaturatedCounts(a, ncap, len); SaturatedCounts(b, ncap, len);
    case Group(a) => SaturatedCounts(a, ncap, len);
    case Quant(a, min, max, greedy) => SaturatedShape(a); SaturatedCounts(a, ncap, len);
    case Look(behind, neg, a) => SaturatedCounts(a, ncap, len);
    case _ =>
  }

  // ----- a pattern that the engine does not match as ECMA-262 says

  const LETTER := 97
  const EMPTY_OR_LETTER := Alt(Empty, Char(LETTER))

  /** `(?:|a){2147483647,}` */
  const TOO_OFTEN := Quant(EMPTY_OR_LETTER, INT32_MAX, Inf, true)

  function Whole(e: nat): Result {
    Success(State(e, [Range(0, e)]))
  }

  /** The end of an attempt on the subject "a". */
  function Finish(): (c: Cont)
    ensures Accepts([LETTER], false, State(0, [Undefined]), c)
  {
    var x := State(0, [Undefined]);
    GroupCont([LETTER], false, 0, x, LookCont([LETTER], false, x))
  }

  lemma FinishAt(e: nat)
    requires e <= 1
    ensures Accepts([LETTER], false, State(e, [Undefined]), Finish())
    ensures Finish().requires(State(e, [Undefined])) && Finish()(State(e, [Undefined])) == Whole(e)
  {
    assert [Undefined][0 := Range(0, e)] == [Range(0, e)];
  }

  /** One iteration: the empty alternative, then the letter. */
  lemma Iteration(e: nat, d: Cont)
    requires e <= 1 && Accepts([LETTER], false, State(e, [Undefined]), d)
    ensures M([LETTER], EMPTY_OR_LETTER, false, 1, State(e, [Undefined]), d)
            == if d(State(e, [Undefined])) != Failure then d(State(e, [Undefined]))
               else if e == 0 then d(State(1, [Undefined])) else Failure
  {
    var x := State(e, [Undefined]);
    MAlt([LETTER], Empty, Char(LETTER), false, 1, x, d);
  }

  lemma FreshIs(e: nat)
    ensures Fresh(State(e, [Undefined]), 1, EMPTY_OR_LETTER) == State(e, [Undefined])
  {
    assert Groups(EMPTY_OR_LETTER) == 0;
    assert Reset([Undefined], 1, 1) == [Undefined];
  }

  lemma AtTheEnd()
    ensures Accepts([LETTER], false, State(1, [Undefined]), Finish())
    ensures Repeat([LETTER], EMPTY_OR_LETTER, false, 1, 0, Inf, true, State(1, [Undefined]), Finish()) == Whole(1)
  {
    hide Repeat, RepeatCont, M, Fresh, Finish;
    FinishAt(1);
    var x := State(1, [Undefined]);
    FreshIs(1);
    RepeatUnfold([LETTER], EMPTY_OR_LETTER, false, 1, 0, Inf, true, x, Finish());
    var d := RepeatCont([LETTER], EMPTY_OR_LETTER, false, 1, 0, Inf, true, x, Finish());
    RepeatApplied([LETTER], EMPTY_OR_LETTER, false, 1, 0, Inf, true, x, Finish(), x);
    Iteration(1, d);
  }

  /** RepeatMatcher takes the letter in an iteration that is not required. */
  lemma {:induction false} Unbounded(min: nat)
    ensures Repeat([LETTER], EMPTY_OR_LETTER, false, 1, min, Inf, true, State(0, [Undefined]), Finish()) == Whole(1)
  {
    hide Repeat, RepeatCont, M, Fresh, Finish;
    var x := State(0, [Undefined]);
    FinishAt(0);
    FreshIs(0);
    RepeatUnfold([LETTER], EMPTY_OR_LETTER, false, 1, min, Inf, true, x, Finish());
    var d := RepeatCont([LETTER], EMPTY_OR_LETTER, false, 1, min, Inf, true, x, Finish());
    RepeatApplied([LETTER], EMPTY_OR_LETTER, false, 1, min, Inf, true, x, Finish(), x);
    RepeatApplied([LETTER], EMPTY_OR_LETTER, false, 1, min, Inf, true, x, Finish(), State(1, [Undefined]));
    Iteration(0, d);
    if min == 0 {
      AtTheEnd();
    } else {
      Unbounded(min - 1);
    }
  }

  /** With as many iterations as are required, all of them are empty. */
  lemma {:induction false} Exactly(n: nat)
    ensures Repeat([LETTER], EMPTY_OR_LETTER, false, 1, n, Fin(n), true, State(0, [Undefined]), Finish()) == Whole(0)
  {
    hide Repeat, RepeatCont, M, Fresh, Finish;
    var x := State(0, [Undefined]);
    FinishAt(0);
    if n == 0 {
      RepeatNone([LETTER], EMPTY_OR_LETTER, false, 1, 0, true, x, Finish());
    } else {
      FreshIs(0);
      RepeatUnfold([LETTER], EMPTY_OR_LETTER, false, 1, n, Fin(n), true, x, Finish());
      var d := RepeatCont([LETTER], EMPTY_OR_LETTER, false, 1, n, Fin(n), true, x, Finish());
      RepeatApplied([LETTER], EMPTY_OR_LETTER, false, 1, n, Fin(n), true, x, Finish(), x);
      Iteration(0, d);
      Exactly(n - 1);
    }
  }

  /** `/(?:|a){2147483647,}/` on "a": ECMA-262 matches the letter, the emitted code matches the empty string. */
  lemma CounterRunsOut()
    ensures Readable(TOO_OFTEN, 1) && RangesFit(TOO_OFTEN) && !Counters(TOO_OFTEN, 1)
    ensures Search([LETTER], TOO_OFTEN, 1, false, 0) == Whole(1)
    ensures Parsed(Saturated(TOO_OFTEN), 1) && Groups(Saturated(TOO_OFTEN)) == 0
    ensures Search([LETTER], Saturated(TOO_OFTEN), 1, false, 0) == Whole(0)
  {
    hide Repeat, M, Finish;
    var x := State(0, [Undefined]);
    assert Saturated(TOO_OFTEN) == Quant(EMPTY_OR_LETTER, INT32_MAX, Fin(INT32_MAX), true);
    Unbounded(INT32_MAX);
    Exactly(INT32_MAX);
    FinishIs();
    assert seq(1, _ => Undefined) == [Undefined];
    MQuant([LETTER], EMPTY_OR_LETTER, INT32_MAX, Inf, true, false, 1, x, Finish());
    MQuant([LETTER], EMPTY_OR_LETTER, INT32_MAX, Fin(INT32_MAX), true, false, 1, x, Finish());
  }

  lemma FinishIs()
    ensures Finish() == GroupCont([LETTER], false, 0, State(0, [Undefined]), LookCont([LETTER], false, State(0, [Undefined])))
  {
  }
}
