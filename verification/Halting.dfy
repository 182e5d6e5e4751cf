/** The machine with the undo log, run from the start of a compiled program: it stops, and with the result of
    the reference search. */
module Halting {
  import opened Bytecode
  import opened Syntax
  import opened Text
  import Ecma
  import opened Machine
  import opened Relation
  import opened SimulationBase
  import opened Programs
  import opened Snapshot
  import opened UndoLog

  lemma {:induction false} FramesFit(p: Prog, stack: seq<Elem>, bp: nat, mem: seq<int>)
    requires |mem| == p.nmem && WellFormed(stack, bp, p.nmem, |p.text.units|)
    ensures forall k :: 0 <= k < |Frames(stack, bp, mem, |p.text.units|)| ==> Fit(p, Frames(stack, bp, mem, |p.text.units|)[k].t)
    decreases |stack|
  {
    hide Log, Frames, Undo;
    var len := |p.text.units|;
    FramesIs(stack, bp, mem, len);
    if bp != 0 {
      FramesFit(p, stack[..bp - 3], stack[bp - 1].bp, Undo(mem, stack[bp..]));
    }
  }

  lemma AbstractFit(p: Prog, f: Flat)
    requires FlatFit(p, f)
    ensures SnapFit(p, Abstract(p, f))
  {
    FramesFit(p, f.stack, f.bp, f.mem);
  }

  lemma FlatStepFits(p: Prog, f: Flat)
    requires FlatFit(p, f)
    ensures var r := FlatStep(p, f); r.On? ==> FlatFit(p, r.f)
  {
    hide FlatStep, FlatFit, Abstract, SnapStep;
    AbstractFit(p, f);
    FlatStepRefines(p, f);
  }

  /** At most n turns of the loop. */
  ghost function Turns(p: Prog, f: Flat, n: nat): Result
    requires FlatFit(p, f)
    decreases n
  {
    if n == 0 then On(f) else
    FlatStepFits(p, f);
    var r := FlatStep(p, f);
    if r.On? then Turns(p, r.f, n - 1) else r
  }

  /** A run that stops stops in one way. */
  lemma {:induction false} TurnsSame(p: Prog, f: Flat, n: nat, m: nat)
    requires FlatFit(p, f) && !Turns(p, f, n).On? && !Turns(p, f, m).On?
    ensures Turns(p, f, n) == Turns(p, f, m)
    decreases n
  {
    hide FlatStep, FlatFit;
    FlatStepFits(p, f);
    var r := FlatStep(p, f);
    if r.On? { TurnsSame(p, r.f, n - 1, m - 1); }
  }

  lemma {:induction false} StepsStopped(p: Prog, s: Snap, n: nat)
    requires !s.Running? && SnapFit(p, s)
    ensures Steps(p, s, n) == s
    decreases n
  {
    if n > 0 {
      StepFit(p, s);
      StepsStopped(p, s, n - 1);
    }
  }

  /** Runs of the two machines correspond, turn by turn. */
  lemma {:induction false} TurnsRefine(p: Prog, f: Flat, n: nat)
    requires FlatFit(p, f) && SnapFit(p, Abstract(p, f))
    ensures Implements(p, Turns(p, f, n), Steps(p, Abstract(p, f), n))
    decreases n
  {
    hide FlatStep, FlatFit, SnapStep, Frames;
    if n > 0 {
      var s := Abstract(p, f);
      StepFit(p, s);
      FlatStepRefines(p, f);
      FlatStepFits(p, f);
      var r := FlatStep(p, f);
      if r.On? {
        TurnsRefine(p, r.f, n - 1);
      } else {
        StepsStopped(p, SnapStep(p, s), n - 1);
      }
    }
  }

  /** Before the first instruction. */
  function Begin(t: Thread): Flat {
    Flat(0, t.pos, t.mem, [], 0)
  }

  lemma BeginFits(p: Prog, start: nat, t: Thread)
    requires Initial(p, start, t)
    ensures FlatFit(p, Begin(t)) && Abstract(p, Begin(t)) == Running(0, t, [])
  {
    hide Pos, Chars;
    InitialRel(p, start, t);
    RelFit(p, EMPTY, Start(p.ncap, start), t);
  }

  /** The final contents of `capture[]` are the captures of the reference result. */
  ghost predicate Reports(p: Prog, r: Ecma.Result, o: Result) {
    match r
    case Failure => o == Fail
    case Success(y) =>
      && o.Match? && |y.caps| == p.ncap && |o.mem| == p.nmem && 2 * p.ncap <= p.nmem
      && (forall n :: 0 <= n < p.ncap ==> CapOK(p, y.caps[n]) && (o.mem[2 * n], o.mem[2 * n + 1]) == CellsOf(p, y.caps[n]))
  }

  lemma RelReports(p: Prog, y: Ecma.State, t: Thread)
    requires Rel(p, EMPTY, y, t)
    ensures Reports(p, Ecma.Success(y), Match(t.mem, t.pos))
  {
    forall n | 0 <= n < p.ncap ensures CapOK(p, y.caps[n]) && (t.mem[2 * n], t.mem[2 * n + 1]) == CellsOf(p, y.caps[n]) {
      assert CellsMatch(p, EMPTY, y.caps[n], n, (t.mem[2 * n], t.mem[2 * n + 1]));
    }
  }

  /** Every run of a compiled program stops, having found what the search of ECMA-262 finds. */
  lemma ProgramHalts(p: Prog, node: Node, sticky: bool, start: nat, t: Thread) returns (n: nat)
    requires Compiled(p, node, sticky) && Initial(p, start, t)
    ensures FlatFit(p, Begin(t)) && start <= |Input(p)| && 1 + Groups(node) <= p.ncap && Parsed(node, p.ncap)
    ensures Reports(p, Ecma.Search(Input(p), node, p.ncap, sticky, start), Turns(p, Begin(t), n))
  {
    hide Rel, Yields, Sane, CapOK, CellsOf, Depth, Counters, Pos, Chars, Turns, Steps, FlatFit, Frames, Reports;
    ProgramYields(p, node, sticky, start, t);
    var r := Ecma.Search(Input(p), node, p.ncap, sticky, start);
    n := YieldsHalts(p, t, MatchGoal(p.ncap), r);
    BeginFits(p, start, t);
    TurnsRefine(p, Begin(t), n);
    FailReports(p, r, Turns(p, Begin(t), n));
    if r.Success? {
      var s := Steps(p, Running(0, t, []), n);
      RelReports(p, r.state, s.t);
    }
  }

  lemma FailReports(p: Prog, r: Ecma.Result, o: Result)
    ensures r == Ecma.Failure && o == Fail ==> Reports(p, r, o)
  {
  }
}
