/** What the code of compound nodes needs of its surroundings, and the unfoldings of their matchers. */
module SimulationBase {
  import opened Words
  import opened Bytecode
  import opened Syntax
  import opened Text
  import opened Ecma
  import opened Codegen
  import opened Machine
  import opened Relation
  import opened SimulationLeaf

  /** The groups lo..hi-1. */
  function Span(lo: nat, hi: nat): (r: set<nat>)
    ensures forall n :: n in r <==> lo <= n < hi
    decreases hi - lo
  {
    if lo >= hi then {} else {lo} + Span(lo + 1, hi)
  }

  /** The captures that the matcher of a node may set. */
  function SetBy(node: Node, cc: nat): set<nat> {
    match node
    case Cat(a, b) => SetBy(a, cc) + SetBy(b, cc + Groups(a))
    case Alt(a, b) => SetBy(a, cc) + SetBy(b, cc + Groups(a))
    case Group(a) => {cc} + SetBy(a, cc + 1)
    case Quant(a, _, max, _) => if max == Fin(0) then {} else SetBy(a, cc)
    case Look(_, _, a) => SetBy(a, cc)
    case _ => {}
  }

  /** The captures whose two cells the code of a straight-line node overwrites. */
  function Written(node: Node, back: bool, cc: nat): set<nat> {
    match node
    case Cat(a, b) => Written(a, back, cc) + Written(b, back, cc + Groups(a))
    case Group(a) => {cc} + Written(a, back, cc + 1)
    case Quant(a, _, max, _) => if max == Fin(0) && !NeedInit(a, back, cc) then Span(cc, cc + Groups(a)) else {}
    case _ => {}
  }

  lemma {:induction false} SetByInRange(node: Node, cc: nat)
    ensures SetBy(node, cc) <= Span(cc, cc + Groups(node))
  {
    match node
    case Cat(a, b) => SetByInRange(a, cc); SetByInRange(b, cc + Groups(a));
    case Alt(a, b) => SetByInRange(a, cc); SetByInRange(b, cc + Groups(a));
    case Group(a) => SetByInRange(a, cc + 1);
    case Quant(a, _, max, _) => SetByInRange(a, cc);
    case Look(_, _, a) => SetByInRange(a, cc);
    case _ =>
  }

  lemma {:induction false} WrittenInRange(node: Node, back: bool, cc: nat)
    ensures Written(node, back, cc) <= Span(cc, cc + Groups(node))
  {
    match node
    case Cat(a, b) => WrittenInRange(a, back, cc); WrittenInRange(b, back, cc + Groups(a));
    case Group(a) => WrittenInRange(a, back, cc + 1);
    case _ =>
  }

  lemma {:induction false} SetByWritten(node: Node, back: bool, cc: nat)
    requires StraightLine(node)
    ensures SetBy(node, cc) <= Written(node, back, cc)
  {
    match node
    case Cat(a, b) => SetByWritten(a, back, cc); SetByWritten(b, back, cc + Groups(a));
    case Group(a) => SetByWritten(a, back, cc + 1);
    case _ =>
  }

  /** The registers that the code of a node uses. */
  function Depth(node: Node, back: bool, cc: nat): nat {
    match node
    case Cat(a, b) => Larger(Depth(a, back, cc), Depth(b, back, cc + Groups(a)))
    case Alt(a, b) => Larger(Depth(a, back, cc), Depth(b, back, cc + Groups(a)))
    case Group(a) => Depth(a, back, cc + 1)
    case Quant(a, min, max, _) =>
      var adv := NeedAdvance(a, back, cc);
      var l := LayoutOf(adv, min, max);
      if l.Dropped? then 0 else OwnRegisters(l, adv) + Depth(a, back, cc)
    case Look(behind, _, a) => Depth(a, behind, cc)
    case _ => 0
  }

  function Larger(a: nat, b: nat): nat {
    if a < b then b else a
  }

  /** An unbounded quantifier may count down from INT32_MAX. It has no bound, then, if the counter outlasts
      the iterations: every one advances, or there are not too many required ones. */
  predicate Counters(node: Node, len: nat) {
    match node
    case Cat(a, b) => Counters(a, len) && Counters(b, len)
    case Alt(a, b) => Counters(a, len) && Counters(b, len)
    case Group(a) => Counters(a, len)
    case Quant(a, min, max, _) =>
      && Counters(a, len)
      && (max.Inf? ==> (min < INT32_MAX && MustAdvance(a)) || min + len < INT32_MAX)
      && (max == Fin(INT32_MAX) ==> min >= 2 || (min == 1 && !MustAdvance(a)))
    case Look(_, _, a) => Counters(a, len)
    case _ => true
  }

  /** The limits that hold of every program that lre_compile returns and every subject it is run on. */
  ghost predicate Sane(p: Prog) {
    && |p.code| <= INT32_MAX / 2
    && p.ncap <= 255
    && 2 * p.ncap <= p.nmem <= 2 * p.ncap + 255
    && CodePoints(Input(p))
    && |Input(p)| < INT32_MAX
  }

  /** The groups of a node are unset and closed when it is entered. */
  ghost predicate Clear(ctx: Context, x: State, lo: nat, hi: nat) {
    forall n :: lo <= n < hi && n < |x.caps| ==> n !in ctx.env && x.caps[n] == Undefined
  }

  ghost predicate DirtyOK(ctx: Context, node: Node, back: bool, cc: nat) {
    && (ctx.dirty != {} ==> StraightLine(node))
    && ctx.dirty * Span(cc, cc + Groups(node)) <= Written(node, back, cc)
  }

  ghost predicate Ready(p: Prog, node: Node, back: bool, cc: nat, pc: nat, ctx: Context, x: State, t: Thread) {
    && Sane(p)
    && Parsed(node, p.ncap) && cc + Groups(node) <= p.ncap && Counters(node, |Input(p)|)
    && CodeAt(p.code, pc, Comp(node, back, cc, |ctx.regs|))
    && 2 * p.ncap + |ctx.regs| + Depth(node, back, cc) <= p.nmem
    && Rel(p, ctx, x, t)
    && Clear(ctx, x, cc, cc + Groups(node))
    && DirtyOK(ctx, node, back, cc)
  }

  function After(ctx: Context, node: Node, back: bool, cc: nat): Context {
    ctx.(dirty := ctx.dirty - Written(node, back, cc))
  }

  function Or(r1: Result, r2: Result): Result {
    if r1 != Failure then r1 else r2
  }

  // ----- unfoldings of the matchers, for proofs that hide their definitions

  lemma MCat(input: seq<nat>, a: Node, b: Node, back: bool, cc: nat, x: State, c: Cont)
    requires Accepts(input, back, x, c)
    requires cc + Groups(Cat(a, b)) <= |x.caps| && Parsed(Cat(a, b), |x.caps|)
    ensures M(input, Cat(a, b), back, cc, x, c)
            == if back then M(input, b, back, cc + Groups(a), x, CatCont(input, a, back, cc, x, c))
               else M(input, a, back, cc, x, CatCont(input, b, back, cc + Groups(a), x, c))
  {
    hide CatCont, GroupCont, LookCont, Repeat, MatchChar, MatchBackRef, InSet, Holds;
  }

  lemma MAlt(input: seq<nat>, a: Node, b: Node, back: bool, cc: nat, x: State, c: Cont)
    requires Accepts(input, back, x, c)
    requires cc + Groups(Alt(a, b)) <= |x.caps| && Parsed(Alt(a, b), |x.caps|)
    ensures M(input, Alt(a, b), back, cc, x, c)
            == Or(M(input, a, back, cc, x, c), M(input, b, back, cc + Groups(a), x, c))
  {
    hide CatCont, GroupCont, LookCont, Repeat, MatchChar, MatchBackRef, InSet, Holds;
  }

  lemma MGroup(input: seq<nat>, a: Node, back: bool, cc: nat, x: State, c: Cont)
    requires Accepts(input, back, x, c)
    requires cc + Groups(Group(a)) <= |x.caps| && Parsed(Group(a), |x.caps|)
    ensures M(input, Group(a), back, cc, x, c) == M(input, a, back, cc + 1, x, GroupCont(input, back, cc, x, c))
  {
    hide CatCont, GroupCont, LookCont, Repeat, MatchChar, MatchBackRef, InSet, Holds;
  }

  lemma MQuant(input: seq<nat>, a: Node, min: nat, max: Max, greedy: bool, back: bool, cc: nat, x: State, c: Cont)
    requires Accepts(input, back, x, c)
    requires cc + Groups(a) <= |x.caps| && Parsed(Quant(a, min, max, greedy), |x.caps|)
    ensures M(input, Quant(a, min, max, greedy), back, cc, x, c) == Repeat(input, a, back, cc, min, max, greedy, x, c)
  {
    hide CatCont, GroupCont, LookCont, Repeat, MatchChar, MatchBackRef, InSet, Holds;
  }

  lemma MLook(input: seq<nat>, behind: bool, neg: bool, a: Node, back: bool, cc: nat, x: State, c: Cont)
    requires Accepts(input, back, x, c)
    requires cc + Groups(a) <= |x.caps| && Parsed(Look(behind, neg, a), |x.caps|)
    ensures var r := M(input, a, behind, cc, x, LookCont(input, behind, x));
            M(input, Look(behind, neg, a), back, cc, x, c)
            == if neg then if r != Failure then Failure else c(x)
               else if r == Failure || |r.state.caps| != |x.caps| then Failure else c(State(x.end, r.state.caps))
  {
    hide CatCont, GroupCont, LookCont, Repeat, MatchChar, MatchBackRef, InSet, Holds;
  }

  lemma CatApplied(input: seq<nat>, second: Node, back: bool, cc: nat, x: State, c: Cont, y: State)
    requires Accepts(input, back, x, c) && Ahead(input, back, x, y)
    requires cc + Groups(second) <= |x.caps| && Parsed(second, |x.caps|)
    ensures CatCont(input, second, back, cc, x, c).requires(y)
    ensures Accepts(input, back, y, c)
    ensures CatCont(input, second, back, cc, x, c)(y) == M(input, second, back, cc, y, c)
  {
    hide M;
  }

  /** The state in which an iteration starts. */
  function Fresh(x: State, cc: nat, a: Node): (y: State)
    requires cc + Groups(a) <= |x.caps|
    ensures y.end == x.end && |y.caps| == |x.caps|
  {
    State(x.end, Reset(x.caps, cc, cc + Groups(a)))
  }

  lemma RepeatUnfold(input: seq<nat>, a: Node, back: bool, cc: nat, min: nat, max: Max, greedy: bool, x: State, c: Cont)
    requires Accepts(input, back, x, c) && max != Fin(0)
    requires cc + Groups(a) <= |x.caps| && Parsed(a, |x.caps|)
    ensures Accepts(input, back, Fresh(x, cc, a), RepeatCont(input, a, back, cc, min, max, greedy, x, c))
    ensures var d := RepeatCont(input, a, back, cc, min, max, greedy, x, c);
            var z := M(input, a, back, cc, Fresh(x, cc, a), d);
            Repeat(input, a, back, cc, min, max, greedy, x, c)
            == if min != 0 then z else if greedy then Or(z, c(x)) else Or(c(x), z)
  {
    hide M, Reset;
  }

  lemma RepeatApplied(input: seq<nat>, a: Node, back: bool, cc: nat, min: nat, max: Max, greedy: bool, x: State, c: Cont, y: State)
    requires Accepts(input, back, x, c) && Ahead(input, back, x, y)
    requires cc + Groups(a) <= |x.caps| && Parsed(a, |x.caps|)
    ensures RepeatCont(input, a, back, cc, min, max, greedy, x, c).requires(y)
    ensures Accepts(input, back, y, c)
    ensures RepeatCont(input, a, back, cc, min, max, greedy, x, c)(y)
            == if min == 0 && y.end == x.end then Failure
               else Repeat(input, a, back, cc, if min == 0 then 0 else min - 1, Decrement(max), greedy, y, c)
  {
    hide M, Repeat;
  }

  lemma RepeatNone(input: seq<nat>, a: Node, back: bool, cc: nat, min: nat, greedy: bool, x: State, c: Cont)
    requires Accepts(input, back, x, c)
    requires cc + Groups(a) <= |x.caps| && Parsed(a, |x.caps|)
    ensures Repeat(input, a, back, cc, min, Fin(0), greedy, x, c) == c(x)
  {
    hide M;
  }
}
