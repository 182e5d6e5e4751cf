/** A whole program: the search for the leftmost match around the code of the pattern. */
module Programs {
  import opened Words
  import opened Bytecode
  import opened Syntax
  import opened Text
  import opened Ecma
  import opened Codegen
  import opened Machine
  import opened Relation
  import opened SimulationLeaf
  import opened SimulationBase
  import opened Simulation

  const EMPTY := Context(map[], {}, [])

  function MatchGoal(ncap: nat): Goal {
    Goal(EndMatch, EMPTY, seq(ncap, _ => Undefined), Span(0, ncap))
  }

  /** The program of a pattern, on a subject and with memory that it fits. */
  ghost predicate Compiled(p: Prog, node: Node, sticky: bool) {
    && Sane(p)
    && p.code == Asm(Program(node, sticky, 0))
    && p.ncap == 1 + Groups(node)
    && Parsed(node, p.ncap) && Counters(node, |Input(p)|)
    && 2 * p.ncap + Depth(node, false, 1) <= p.nmem
  }

  /** The thread that lre_exec starts: every capture cell is NULL, the registers hold anything. */
  ghost predicate Initial(p: Prog, start: nat, t: Thread) {
    && start <= |Input(p)|
    && t.pos == Pos(p.text, start)
    && |t.mem| == p.nmem && 2 * p.ncap <= p.nmem
    && (forall k :: 0 <= k < 2 * p.ncap ==> t.mem[k] == NULL)
  }

  function Start(ncap: nat, start: nat): State {
    State(start, seq(ncap, _ => Undefined))
  }

  lemma InitialRel(p: Prog, start: nat, t: Thread)
    requires Initial(p, start, t)
    ensures Rel(p, EMPTY, Start(p.ncap, start), t)
  {
    hide Pos, Chars;
    var x := Start(p.ncap, start);
    forall n | 0 <= n < p.ncap ensures CellsMatch(p, EMPTY, x.caps[n], n, (t.mem[2 * n], t.mem[2 * n + 1])) {
      assert x.caps[n] == Undefined;
    }
    assert t.mem[2 * p.ncap..2 * p.ncap + 0] == [];
  }

  lemma MatchAtIsGroup(input: seq<nat>, node: Node, ncap: nat, start: nat)
    requires start <= |input| && 1 + Groups(node) <= ncap && Parsed(node, ncap)
    ensures MatchAt(input, node, ncap, start)
            == M(input, Group(node), false, 0, Start(ncap, start), LookCont(input, false, Start(ncap, start)))
  {
    MGroup(input, node, false, 0, Start(ncap, start), LookCont(input, false, Start(ncap, start)));
  }

  lemma ProgramShape(node: Node, sticky: bool)
    ensures Program(node, sticky, 0)
            == (if sticky then [] else [OpSplit(false, 6), OpAny, OpGoto(-11)]) + (Comp(Group(node), false, 0, 0) + [OpMatch])
  {
    CompGroup(node, false, 0, 0);
    hide Comp;
    var body := Comp(node, false, 1, 0);
    assert [OpSave(false, 0)] + (body + [OpSave(true, 0), OpMatch]) == GroupCode(false, 0, body) + [OpMatch];
  }

  /** The pattern at one start position, from the save of group 0 to the match instruction. */
  lemma AttemptYields(p: Prog, node: Node, pc: nat, start: nat, t: Thread)
    requires Sane(p) && p.ncap == 1 + Groups(node) && Parsed(node, p.ncap) && Counters(node, |Input(p)|)
    requires 2 * p.ncap + Depth(node, false, 1) <= p.nmem && Initial(p, start, t)
    requires CodeAt(p.code, pc, Comp(Group(node), false, 0, 0) + [OpMatch])
    ensures Yields(p, pc, t, MatchGoal(p.ncap), MatchAt(Input(p), node, p.ncap, start))
  {
    hide *;
    AttemptReady(p, node, pc, start, t);
    var x := Start(p.ncap, start);
    var g := MatchGoal(p.ncap);
    var c := LookCont(Input(p), false, x);
    var pcM := pc + Size(Comp(Group(node), false, 0, 0));
    MatchEnds(p, pcM, x, SetBy(Group(node), 0), MustAdvance(Group(node)));
    Simulate(p, g, Group(node), false, 0, pc, EMPTY, x, t, c);
    MatchAtIsGroup(Input(p), node, p.ncap, start);
  }

  lemma AttemptReady(p: Prog, node: Node, pc: nat, start: nat, t: Thread)
    requires Sane(p) && p.ncap == 1 + Groups(node) && Parsed(node, p.ncap) && Counters(node, |Input(p)|)
    requires 2 * p.ncap + Depth(node, false, 1) <= p.nmem && Initial(p, start, t)
    requires CodeAt(p.code, pc, Comp(Group(node), false, 0, 0) + [OpMatch])
    ensures var x := Start(p.ncap, start);
            && start <= |Input(p)| && |x.caps| == p.ncap && x.end == start
            && After(EMPTY, Group(node), false, 0) == EMPTY && |EMPTY.regs| == 0
            && Ready(p, Group(node), false, 0, pc, EMPTY, x, t)
            && Accepts(Input(p), false, x, LookCont(Input(p), false, x))
            && CodeAt(p.code, pc + Size(Comp(Group(node), false, 0, 0)), [OpMatch])
            && Groups(Group(node)) == p.ncap && Parsed(Group(node), p.ncap) && 1 + Groups(node) <= p.ncap
  {
    hide Comp, Rel, CodeAt, Size, Asm, Encode, Sane, Pos, Chars, Span, Written, Depth, Counters, Parsed, Groups, Initial;
    CodeSplit(p.code, pc, Comp(Group(node), false, 0, 0), [OpMatch]);
    InitialRel(p, start, t);
    InitialPos(p, start, t);
    GroupParts(p, node);
    assert DirtyOK(EMPTY, Group(node), false, 0);
  }

  lemma GroupParts(p: Prog, node: Node)
    ensures Groups(Group(node)) == 1 + Groups(node) && Parsed(Group(node), p.ncap) == Parsed(node, p.ncap)
    ensures Counters(Group(node), |Input(p)|) == Counters(node, |Input(p)|)
    ensures Depth(Group(node), false, 0) == Depth(node, false, 1)
  {
    hide NeedAdvance, LayoutOf, OwnRegisters, Canonical;
  }

  lemma MatchEnds(p: Prog, pcM: nat, x: State, touched: set<nat>, strict: bool)
    requires CodeAt(p.code, pcM, [OpMatch]) && x.end <= |Input(p)|
    ensures Continues(p, pcM, MatchGoal(p.ncap), EMPTY, false, x, touched, strict, LookCont(Input(p), false, x))
  {
    hide Rel, Yields, CodeAt, Execute;
    forall y, t | Reaches(Input(p), false, x, touched, strict, y) && Rel(p, EMPTY, y, t)
      ensures LookCont(Input(p), false, x).requires(y) && Yields(p, pcM, t, MatchGoal(p.ncap), LookCont(Input(p), false, x)(y))
    {
      RelFit(p, EMPTY, y, t);
      RelEnd(p, EMPTY, y, t);
      YieldsEnd(p, pcM, OpMatch, t, MatchGoal(p.ncap), y);
    }
  }

  lemma SearchLayout(p: Prog, rest: seq<Instr>)
    requires CodeAt(p.code, 0, [OpSplit(false, 6), OpAny, OpGoto(-11)] + rest)
    ensures CodeAt(p.code, 0, [OpSplit(false, 6)]) && CodeAt(p.code, 5, [OpAny]) && CodeAt(p.code, 6, [OpGoto(-11)]) && CodeAt(p.code, 11, rest)
  {
    hide CodeAt, Encode, Asm, Size;
    Lengths(OpSplit(false, 6));
    Lengths(OpAny);
    Lengths(OpGoto(-11));
    assert [OpSplit(false, 6), OpAny, OpGoto(-11)] + rest == [OpSplit(false, 6)] + ([OpAny] + ([OpGoto(-11)] + rest));
    CodeHead(p.code, 0, OpSplit(false, 6), [OpAny] + ([OpGoto(-11)] + rest));
    CodeHead(p.code, 5, OpAny, [OpGoto(-11)] + rest);
    CodeHead(p.code, 6, OpGoto(-11), rest);
  }

  /** The whole program implements RegExpBuiltinExec's search from `start` on. */
  lemma {:induction false} SearchYields(p: Prog, node: Node, start: nat, t: Thread)
    requires Compiled(p, node, false) && Initial(p, start, t)
    ensures Yields(p, 0, t, MatchGoal(p.ncap), Search(Input(p), node, p.ncap, false, start))
    decreases |Input(p)| - start
  {
    hide Yields, Comp, Rel, CodeAt, Size, Asm, Encode, Sane, Pos, Chars, MatchAt, Execute, Effects, Depth, Counters, Initial, Parsed;
    var g := MatchGoal(p.ncap);
    var input := Input(p);
    ProgramShape(node, false);
    WholeAt(p.code, Program(node, false, 0));
    SearchLayout(p, Comp(Group(node), false, 0, 0) + [OpMatch]);
    AttemptYields(p, node, 11, start, t);
    InitialPos(p, start, t);
    var r := MatchAt(input, node, p.ncap, start);
    InitialRel(p, start, t);
    RelFit(p, EMPTY, Start(p.ncap, start), t);
    if start < |input| {
      var t' := Thread(Pos(p.text, start + 1), t.mem);
      InitialNext(p, start, t);
      InitialRel(p, start + 1, t');
      RelFit(p, EMPTY, Start(p.ncap, start + 1), t');
      SearchYields(p, node, start + 1, t');
      StepOver(p, g, start, t, Search(input, node, p.ncap, false, start + 1));
      SearchSplit(p, g, t, r, Search(input, node, p.ncap, false, start + 1));
    } else {
      AtEnd(p, g, t);
      SearchSplit(p, g, t, r, Failure);
    }
  }

  lemma SearchSplit(p: Prog, g: Goal, t: Thread, r1: Result, r2: Result)
    requires CodeAt(p.code, 0, [OpSplit(false, 6)]) && Fit(p, t)
    requires Yields(p, 11, t, g, r1) && Yields(p, 5, t, g, r2)
    ensures Yields(p, 0, t, g, if r1 != Failure then r1 else r2)
  {
    hide Yields, CodeAt, Execute, Effects;
    SplitEffect(p, false, 6, 0, t);
    YieldsFork(p, 0, OpSplit(false, 6), t, g, 11, 5, [], r1, r2);
  }

  lemma WholeAt(b: seq<u8>, s: seq<Instr>)
    requires b == Asm(s)
    ensures CodeAt(b, 0, s)
  {
  }

  lemma InitialPos(p: Prog, start: nat, t: Thread)
    requires Initial(p, start, t)
    ensures start <= |Input(p)| && t.pos == Pos(p.text, start)
  {
  }

  lemma InitialNext(p: Prog, start: nat, t: Thread)
    requires Initial(p, start, t) && start < |Input(p)|
    ensures Initial(p, start + 1, Thread(Pos(p.text, start + 1), t.mem))
  {
  }

  lemma StepOver(p: Prog, g: Goal, start: nat, t: Thread, r: Result)
    requires CodeAt(p.code, 5, [OpAny]) && CodeAt(p.code, 6, [OpGoto(-11)]) && Fit(p, t)
    requires start < |Input(p)| && t.pos == Pos(p.text, start)
    requires Fit(p, Thread(Pos(p.text, start + 1), t.mem)) && Yields(p, 0, Thread(Pos(p.text, start + 1), t.mem), g, r)
    ensures Yields(p, 5, t, g, r)
  {
    hide Yields, CodeAt, Execute, Pos, Chars;
    PosStep(p.text, start);
    var t' := Thread(Pos(p.text, start + 1), t.mem);
    Lengths(OpGoto(-11));
    Lengths(OpAny);
    YieldsGo(p, 6, OpGoto(-11), t', g, r, 0, t'.pos, []);
    YieldsGo(p, 5, OpAny, t, g, r, 6, t'.pos, []);
  }

  lemma AtEnd(p: Prog, g: Goal, t: Thread)
    requires CodeAt(p.code, 5, [OpAny]) && Fit(p, t) && t.pos == Pos(p.text, |Input(p)|)
    ensures Yields(p, 5, t, g, Failure)
  {
    hide Yields, CodeAt, Execute, Pos;
    PosEnds(p.text);
    YieldsNoMatch(p, 5, OpAny, t, g);
  }

  /** Both kinds of program. */
  lemma ProgramYields(p: Prog, node: Node, sticky: bool, start: nat, t: Thread)
    requires Compiled(p, node, sticky) && Initial(p, start, t)
    ensures Yields(p, 0, t, MatchGoal(p.ncap), Search(Input(p), node, p.ncap, sticky, start))
  {
    hide Yields, Comp, Rel, CodeAt, Size, Asm, Encode, Sane, Pos, Chars, MatchAt, Depth, Counters, Initial, Parsed;
    if sticky {
      ProgramShape(node, true);
      var rest := Comp(Group(node), false, 0, 0) + [OpMatch];
      assert [] + rest == rest;
      WholeAt(p.code, rest);
      AttemptYields(p, node, 0, start, t);
    } else {
      SearchYields(p, node, start, t);
    }
  }
}
