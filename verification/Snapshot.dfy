/** The interpreter loop with a stack of choice points, each of which holds a full copy of `capture[]`. */
module Snapshot {
  import opened Bytecode
  import opened Text
  import opened Ecma
  import opened Machine
  import opened Relation

  datatype FrameKind = AtSplit | AtLook | AtNegLook

  datatype Frame = Frame(kind: FrameKind, pc: int, t: Thread)

  datatype Snap =
    | Running(pc: int, t: Thread, stack: seq<Frame>)
    | Matched(t: Thread)
    | Rejected
    | Crashed

  function Top(stack: seq<Frame>): Frame
    requires stack != []
  {
    stack[|stack| - 1]
  }

  function Below(stack: seq<Frame>): (r: seq<Frame>)
    requires stack != []
    ensures |r| == |stack| - 1
  {
    stack[..|stack| - 1]
  }

  /** no_match: resume the last choice point; the frame of a lookahead is not one. */
  function Backtrack(stack: seq<Frame>): Snap
    decreases |stack|
  {
    if stack == [] then Rejected
    else if Top(stack).kind == AtLook then Backtrack(Below(stack))
    else Running(Top(stack).pc, Top(stack).t, Below(stack))
  }

  /** lookahead_match: drop the choice points of the body, keep what it stored. */
  function LeaveLook(stack: seq<Frame>, mem: seq<int>): Snap
    decreases |stack|
  {
    if stack == [] then Crashed
    else if Top(stack).kind == AtLook then Running(Top(stack).pc, Thread(Top(stack).t.pos, mem), Below(stack))
    else LeaveLook(Below(stack), mem)
  }

  /** negative_lookahead_match: drop everything since the lookahead, then fail. */
  function LeaveNegLook(stack: seq<Frame>): Snap
    decreases |stack|
  {
    if stack == [] then Crashed
    else if Top(stack).kind == AtNegLook then Backtrack(Below(stack))
    else LeaveNegLook(Below(stack))
  }

  ghost predicate SnapFit(p: Prog, s: Snap) {
    match s
    case Running(_, t, stack) => Fit(p, t) && forall k :: 0 <= k < |stack| ==> Fit(p, stack[k].t)
    case Matched(t) => Fit(p, t)
    case _ => true
  }

  function SnapStep(p: Prog, s: Snap): Snap
    requires SnapFit(p, s)
  {
    match s
    case Running(pc, t, stack) =>
      (match Execute(p, pc, t)
       case Go(pc', pos, ws) => Running(pc', Thread(pos, Apply(t.mem, ws)), stack)
       case Fork(first, second, ws) =>
         var t' := Thread(t.pos, Apply(t.mem, ws));
         Running(first, t', stack + [Frame(AtSplit, second, t')])
       case NoMatch => Backtrack(stack)
       case Enter(neg, body, after) => Running(body, t, stack + [Frame(if neg then AtNegLook else AtLook, after, t)])
       case End(EndMatch) => Matched(t)
       case End(EndLook) => LeaveLook(stack, t.mem)
       case End(EndNegLook) => LeaveNegLook(stack)
       case Stuck => Crashed)
    case _ => s
  }

  lemma {:induction false} BacktrackFit(p: Prog, stack: seq<Frame>)
    requires forall k :: 0 <= k < |stack| ==> Fit(p, stack[k].t)
    ensures SnapFit(p, Backtrack(stack))
    decreases |stack|
  {
    if stack != [] && Top(stack).kind == AtLook { BacktrackFit(p, Below(stack)); }
  }

  lemma {:induction false} LeaveFit(p: Prog, stack: seq<Frame>, mem: seq<int>)
    requires |mem| == p.nmem && forall k :: 0 <= k < |stack| ==> Fit(p, stack[k].t)
    ensures SnapFit(p, LeaveLook(stack, mem)) && SnapFit(p, LeaveNegLook(stack))
    decreases |stack|
  {
    if stack != [] {
      LeaveFit(p, Below(stack), mem);
      BacktrackFit(p, Below(stack));
    }
  }

  lemma StepFit(p: Prog, s: Snap)
    requires SnapFit(p, s)
    ensures SnapFit(p, SnapStep(p, s))
  {
    hide Execute;
    if s.Running? {
      BacktrackFit(p, s.stack);
      LeaveFit(p, s.stack, s.t.mem);
      hide Backtrack, LeaveLook, LeaveNegLook;
    }
  }

  ghost function Steps(p: Prog, s: Snap, n: nat): (r: Snap)
    requires SnapFit(p, s)
    ensures SnapFit(p, r)
    decreases n
  {
    if n == 0 then s else
    StepFit(p, s);
    Steps(p, SnapStep(p, s), n - 1)
  }

  lemma {:induction false} StepsAdd(p: Prog, s: Snap, m: nat, n: nat)
    requires SnapFit(p, s)
    ensures Steps(p, s, m + n) == Steps(p, Steps(p, s, m), n)
    decreases m
  {
    hide SnapStep;
    if m > 0 {
      StepFit(p, s);
      StepsAdd(p, SnapStep(p, s), m - 1, n);
    }
  }

  // ----- the recursive reading of a program against the machine

  ghost predicate AllSplits(more: seq<Frame>) {
    forall k :: 0 <= k < |more| ==> more[k].kind == AtSplit
  }

  /** The choice points of a finished lookaround body are dropped with it. */
  lemma {:induction false} LeaveThrough(stack: seq<Frame>, f: Frame, more: seq<Frame>, mem: seq<int>)
    requires AllSplits(more)
    ensures f.kind == AtLook ==> LeaveLook(stack + [f] + more, mem) == Running(f.pc, Thread(f.t.pos, mem), stack)
    ensures f.kind == AtNegLook ==> LeaveNegLook(stack + [f] + more) == Backtrack(stack)
    decreases |more|
  {
    var s := stack + [f] + more;
    if more == [] {
      assert s == stack + [f];
      assert Below(s) == stack;
    } else {
      assert Below(s) == stack + [f] + more[..|more| - 1];
      LeaveThrough(stack, f, more[..|more| - 1], mem);
    }
  }

  /** Where the machine is when the recursive reading has come to the outcome `o`. */
  ghost predicate Arrives(p: Prog, o: Outcome, stack: seq<Frame>, s: Snap, more: seq<Frame>) {
    match o
    case Fails => s == Backtrack(stack)
    case Ends(kind, t) => s.Running? && s.t == t && s.stack == stack + more && AllSplits(more)
                          && Fit(p, t) && Execute(p, s.pc, t) == End(kind)
    case _ => true
  }

  lemma StepOf(p: Prog, pc: int, t: Thread, stack: seq<Frame>)
    requires SnapFit(p, Running(pc, t, stack))
    ensures Steps(p, Running(pc, t, stack), 1) == SnapStep(p, Running(pc, t, stack))
  {
    hide SnapStep;
    StepFit(p, Running(pc, t, stack));
    assert Steps(p, SnapStep(p, Running(pc, t, stack)), 0) == SnapStep(p, Running(pc, t, stack));
  }

  lemma {:induction false} EvalSteps(p: Prog, pc: int, t: Thread, fuel: nat, stack: seq<Frame>) returns (n: nat, more: seq<Frame>)
    requires SnapFit(p, Running(pc, t, stack))
    requires var o := Eval(p, pc, t, fuel); !o.OutOfFuel? && !o.GetsStuck?
    ensures Arrives(p, Eval(p, pc, t, fuel), stack, Steps(p, Running(pc, t, stack), n), more)
    decreases fuel
  {
    hide Execute, Backtrack, LeaveLook, LeaveNegLook;
    var s := Running(pc, t, stack);
    more := [];
    StepOf(p, pc, t, stack);
    match Execute(p, pc, t)
    case Go(pc', pos, ws) =>
      var k, more' := EvalSteps(p, pc', Thread(pos, Apply(t.mem, ws)), fuel - 1, stack);
      StepsAdd(p, s, 1, k);
      n, more := 1 + k, more';
    case Fork(first, second, ws) =>
      n, more := EvalFork(p, pc, t, fuel, stack, first, second, ws);
    case NoMatch =>
      n := 1;
    case Enter(neg, body, after) =>
      n, more := EvalEnter(p, pc, t, fuel, stack, neg, body, after);
    case End(kind) =>
      n := 0;
      assert stack + [] == stack;
    case Stuck =>
      n := 0;
  }

  lemma {:induction false} EvalFork(p: Prog, pc: int, t: Thread, fuel: nat, stack: seq<Frame>, first: int, second: int, ws: seq<Write>)
    returns (n: nat, more: seq<Frame>)
    requires SnapFit(p, Running(pc, t, stack)) && fuel > 0 && Execute(p, pc, t) == Fork(first, second, ws)
    requires var o := Eval(p, pc, t, fuel); !o.OutOfFuel? && !o.GetsStuck?
    ensures Arrives(p, Eval(p, pc, t, fuel), stack, Steps(p, Running(pc, t, stack), n), more)
    decreases fuel, 0
  {
    hide Execute, LeaveLook, LeaveNegLook;
    var s := Running(pc, t, stack);
    StepOf(p, pc, t, stack);
    var t' := Thread(t.pos, Apply(t.mem, ws));
    var f := Frame(AtSplit, second, t');
    var k, more1 := EvalSteps(p, first, t', fuel - 1, stack + [f]);
    StepsAdd(p, s, 1, k);
    if Eval(p, first, t', fuel - 1).Fails? {
      assert Below(stack + [f]) == stack;
      var k2, more2 := EvalSteps(p, second, t', fuel - 1, stack);
      StepsAdd(p, s, 1 + k, k2);
      n, more := 1 + k + k2, more2;
    } else {
      assert stack + [f] + more1 == stack + ([f] + more1);
      n, more := 1 + k, [f] + more1;
    }
  }

  lemma {:induction false} EvalEnter(p: Prog, pc: int, t: Thread, fuel: nat, stack: seq<Frame>, neg: bool, body: int, after: int)
    returns (n: nat, more: seq<Frame>)
    requires SnapFit(p, Running(pc, t, stack)) && fuel > 0 && Execute(p, pc, t) == Enter(neg, body, after)
    requires var o := Eval(p, pc, t, fuel); !o.OutOfFuel? && !o.GetsStuck?
    ensures Arrives(p, Eval(p, pc, t, fuel), stack, Steps(p, Running(pc, t, stack), n), more)
    decreases fuel, 0
  {
    hide Execute, LeaveLook, LeaveNegLook;
    var s := Running(pc, t, stack);
    StepOf(p, pc, t, stack);
    var f := Frame(if neg then AtNegLook else AtLook, after, t);
    var k, more1 := EvalSteps(p, body, t, fuel - 1, stack + [f]);
    StepsAdd(p, s, 1, k);
    var s1 := Steps(p, s, 1 + k);
    var o := Eval(p, body, t, fuel - 1);
    assert Below(stack + [f]) == stack;
    if o.Fails? {
      if neg {
        assert s1 == Running(after, t, stack);
        var k2, more2 := EvalSteps(p, after, t, fuel - 1, stack);
        StepsAdd(p, s, 1 + k, k2);
        n, more := 1 + k + k2, more2;
      } else {
        n, more := 1 + k, [];
      }
    } else {
      LeaveThrough(stack, f, more1, o.t.mem);
      StepOf(p, s1.pc, s1.t, s1.stack);
      StepsAdd(p, s, 1 + k, 1);
      if neg {
        n, more := 1 + k + 1, [];
      } else {
        var k2, more2 := EvalSteps(p, after, Thread(t.pos, o.t.mem), fuel - 1, stack);
        StepsAdd(p, s, 1 + k + 1, k2);
        n, more := 1 + k + 1 + k2, more2;
      }
    }
  }

  /** The machine, started on an empty stack, stops with the result that the recursive reading yields. */
  lemma YieldsHalts(p: Prog, t: Thread, g: Goal, r: Result) returns (n: nat)
    requires Yields(p, 0, t, g, r) && g.kind == EndMatch
    ensures SnapFit(p, Running(0, t, []))
    ensures var s := Steps(p, Running(0, t, []), n);
            match r
            case Failure => s == Rejected
            case Success(y) => s.Matched? && Rel(p, g.ctx, y, s.t)
  {
    hide Execute, Rel, SameOutside, Eval;
    var fuel: nat :| Shows(p, Eval(p, 0, t, fuel), g, r);
    var k, more := EvalSteps(p, 0, t, fuel, []);
    if r == Failure {
      n := k;
    } else {
      var s := Steps(p, Running(0, t, []), k);
      StepOf(p, s.pc, s.t, s.stack);
      StepsAdd(p, Running(0, t, []), k, 1);
      n := k + 1;
    }
  }
}
