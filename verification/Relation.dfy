/** How a machine thread represents a state of the reference matcher, and what a thread yields. */
module Relation {
  import opened Words
  import opened Bytecode
  import opened Syntax
  import opened Text
  import opened Ecma
  import opened Machine

  function Input(p: Prog): seq<nat> { Chars(p.text) }

  /** What the machine knows besides the matcher's state: the cells of the groups that are open, the groups
      whose cells are stale because a straight-line atom is about to overwrite them, and the values of the
      registers in use. */
  datatype Context = Context(env: map<nat, (int, int)>, dirty: set<nat>, regs: seq<int>)

  predicate CapOK(p: Prog, c: Capture) {
    c.Range? ==> c.start <= c.end <= |Input(p)|
  }

  function CellsOf(p: Prog, c: Capture): (int, int)
    requires CapOK(p, c)
  {
    if c.Undefined? then (NULL, NULL) else (Pos(p.text, c.start), Pos(p.text, c.end))
  }

  ghost predicate CellsMatch(p: Prog, ctx: Context, c: Capture, n: nat, cells: (int, int)) {
    && CapOK(p, c)
    && (n in ctx.env ==> c.Undefined? && cells == ctx.env[n] && (n in ctx.dirty || cells.0 == NULL || cells.1 == NULL))
    && (n !in ctx.env && n !in ctx.dirty ==> cells == CellsOf(p, c))
  }

  ghost predicate Rel(p: Prog, ctx: Context, y: State, t: Thread) {
    && y.end <= |Input(p)| && |y.caps| == p.ncap && |t.mem| == p.nmem
    && 2 * p.ncap + |ctx.regs| <= p.nmem
    && t.pos == Pos(p.text, y.end)
    && (forall n :: 0 <= n < p.ncap ==> CellsMatch(p, ctx, y.caps[n], n, (t.mem[2 * n], t.mem[2 * n + 1])))
    && t.mem[2 * p.ncap..2 * p.ncap + |ctx.regs|] == ctx.regs
  }

  ghost predicate SameOutside(caps: seq<Capture>, caps': seq<Capture>, touched: set<nat>) {
    |caps'| == |caps| && forall n :: 0 <= n < |caps| && n !in touched ==> caps'[n] == caps[n]
  }

  /** How the run has to end: with which instruction, in which context, and which captures may differ. */
  datatype Goal = Goal(kind: Kind, ctx: Context, caps: seq<Capture>, touched: set<nat>)

  ghost predicate Shows(p: Prog, o: Outcome, g: Goal, r: Result) {
    match r
    case Failure => o.Fails?
    case Success(y) => o.Ends? && o.kind == g.kind && Rel(p, g.ctx, y, o.t) && SameOutside(g.caps, y.caps, g.touched)
  }

  /** The thread at `pc` runs, with backtracking into what it leaves behind, to the result `r`. */
  ghost predicate Yields(p: Prog, pc: int, t: Thread, g: Goal, r: Result) {
    Fit(p, t) && exists fuel: nat :: Shows(p, Eval(p, pc, t, fuel), g, r)
  }

  /** `y` is a state that a matcher started in `x` may pass on. */
  ghost predicate Reaches(input: seq<nat>, back: bool, x: State, touched: set<nat>, strict: bool, y: State) {
    && Ahead(input, back, x, y)
    && SameOutside(x.caps, y.caps, touched)
    && (strict ==> y.end != x.end)
  }

  /** From every such state, however a thread represents it, running on at `pc` does what `c` says. */
  ghost predicate Continues(p: Prog, pc: int, g: Goal, ctx: Context, back: bool, x: State, touched: set<nat>, strict: bool, c: Cont) {
    forall y, t :: Reaches(Input(p), back, x, touched, strict, y) && Rel(p, ctx, y, t) ==>
      c.requires(y) && Yields(p, pc, t, g, c(y))
  }

  // ----- one instruction

  lemma RelFit(p: Prog, ctx: Context, y: State, t: Thread)
    requires Rel(p, ctx, y, t)
    ensures Fit(p, t)
  {
    PosMonotone(p.text, y.end, y.end);
  }

  lemma ExecuteAt(p: Prog, pc: nat, i: Instr, t: Thread)
    requires CodeAt(p.code, pc, [i]) && Fits(i) && i != OpInvalid && Fit(p, t)
    ensures Execute(p, pc, t) == Effects(p, i, pc + Len(i), t)
    ensures Size([i]) == Len(i)
  {
    hide Effects, Fits, Decode, LengthAt;
    CodeOne(p.code, pc, i);
    AsmOne(i);
    DecodeEncode(p.code, pc, i);
  }

  lemma YieldsGo(p: Prog, pc: nat, i: Instr, t: Thread, g: Goal, r: Result, pc': int, pos: nat, ws: seq<Write>)
    requires CodeAt(p.code, pc, [i]) && Fits(i) && i != OpInvalid && Fit(p, t)
    requires Effects(p, i, pc + Len(i), t) == Go(pc', pos, ws)
    requires WritesFit(ws, p.nmem) && Yields(p, pc', Thread(pos, Apply(t.mem, ws)), g, r)
    ensures Yields(p, pc, t, g, r)
  {
    hide Effects, Fits, Rel, Execute;
    ExecuteAt(p, pc, i, t);
    var t' := Thread(pos, Apply(t.mem, ws));
    var fuel: nat :| Shows(p, Eval(p, pc', t', fuel), g, r);
    assert Eval(p, pc, t, fuel + 1) == Eval(p, pc', t', fuel);
  }

  lemma YieldsNoMatch(p: Prog, pc: nat, i: Instr, t: Thread, g: Goal)
    requires CodeAt(p.code, pc, [i]) && Fits(i) && i != OpInvalid && Fit(p, t)
    requires Effects(p, i, pc + Len(i), t) == NoMatch
    ensures Yields(p, pc, t, g, Failure)
  {
    hide Effects, Fits, Rel, Execute;
    ExecuteAt(p, pc, i, t);
    assert Shows(p, Eval(p, pc, t, 1), g, Failure);
  }

  lemma YieldsEnd(p: Prog, pc: nat, i: Instr, t: Thread, g: Goal, y: State)
    requires CodeAt(p.code, pc, [i]) && Fits(i) && i != OpInvalid && Fit(p, t)
    requires Effects(p, i, pc + Len(i), t) == End(g.kind)
    requires Rel(p, g.ctx, y, t) && SameOutside(g.caps, y.caps, g.touched)
    ensures Yields(p, pc, t, g, Success(y))
  {
    hide Effects, Fits, Rel, Execute, SameOutside;
    ExecuteAt(p, pc, i, t);
    assert Shows(p, Eval(p, pc, t, 1), g, Success(y));
  }

  /** Enough fuel for a run is enough for every run that needs less. */
  lemma YieldsWith(p: Prog, pc: int, t: Thread, g: Goal, r: Result, fuel: nat) returns (more: nat)
    requires Yields(p, pc, t, g, r)
    ensures more >= fuel && Shows(p, Eval(p, pc, t, more), g, r)
  {
    hide Rel, SameOutside, Eval;
    var f: nat :| Shows(p, Eval(p, pc, t, f), g, r);
    more := f + fuel;
    MoreFuel(p, pc, t, f, more);
  }

  lemma YieldsFork(p: Prog, pc: nat, i: Instr, t: Thread, g: Goal, first: int, second: int, ws: seq<Write>, r1: Result, r2: Result)
    requires CodeAt(p.code, pc, [i]) && Fits(i) && i != OpInvalid && Fit(p, t)
    requires Effects(p, i, pc + Len(i), t) == Fork(first, second, ws) && WritesFit(ws, p.nmem)
    requires var t' := Thread(t.pos, Apply(t.mem, ws)); Yields(p, first, t', g, r1) && Yields(p, second, t', g, r2)
    ensures Yields(p, pc, t, g, if r1 != Failure then r1 else r2)
  {
    hide Effects, Fits, Rel, Execute, SameOutside;
    ExecuteAt(p, pc, i, t);
    var t' := Thread(t.pos, Apply(t.mem, ws));
    var f1 := YieldsWith(p, first, t', g, r1, 0);
    var f2 := YieldsWith(p, second, t', g, r2, f1);
    MoreFuel(p, first, t', f1, f2);
    assert Shows(p, Eval(p, pc, t, f2 + 1), g, if r1 != Failure then r1 else r2);
  }

  /** A positive lookaround continues behind it with the captures of its body and its own position. */
  lemma YieldsLook(p: Prog, pc: nat, i: Instr, t: Thread, g: Goal, body: int, after: int, gb: Goal, rb: Result, r: Result)
    requires CodeAt(p.code, pc, [i]) && Fits(i) && i != OpInvalid && Fit(p, t)
    requires Effects(p, i, pc + Len(i), t) == Enter(false, body, after)
    requires gb.kind == EndLook && Yields(p, body, t, gb, rb)
    requires rb == Failure ==> r == Failure
    requires rb.Success? ==> forall t' :: Rel(p, gb.ctx, rb.state, t') && SameOutside(gb.caps, rb.state.caps, gb.touched) ==>
        Yields(p, after, Thread(t.pos, t'.mem), g, r)
    ensures Yields(p, pc, t, g, r)
  {
    hide Effects, Fits, Rel, Execute, SameOutside;
    ExecuteAt(p, pc, i, t);
    var f1 := YieldsWith(p, body, t, gb, rb, 0);
    var o := Eval(p, body, t, f1);
    if rb == Failure {
      assert Shows(p, Eval(p, pc, t, f1 + 1), g, r);
    } else {
      var t' := Thread(t.pos, o.t.mem);
      assert Yields(p, after, t', g, r);
      var f2 := YieldsWith(p, after, t', g, r, f1);
      MoreFuel(p, body, t, f1, f2);
      assert Shows(p, Eval(p, pc, t, f2 + 1), g, r);
    }
  }

  lemma YieldsNegLook(p: Prog, pc: nat, i: Instr, t: Thread, g: Goal, body: int, after: int, gb: Goal, rb: Result, r: Result)
    requires CodeAt(p.code, pc, [i]) && Fits(i) && i != OpInvalid && Fit(p, t)
    requires Effects(p, i, pc + Len(i), t) == Enter(true, body, after)
    requires gb.kind == EndNegLook && Yields(p, body, t, gb, rb)
    requires rb == Failure ==> Yields(p, after, t, g, r)
    requires rb.Success? ==> r == Failure
    ensures Yields(p, pc, t, g, r)
  {
    hide Effects, Fits, Rel, Execute, SameOutside;
    ExecuteAt(p, pc, i, t);
    var f1 := YieldsWith(p, body, t, gb, rb, 0);
    if rb == Failure {
      var f2 := YieldsWith(p, after, t, g, r, f1);
      MoreFuel(p, body, t, f1, f2);
      assert Shows(p, Eval(p, pc, t, f2 + 1), g, r);
    } else {
      assert Shows(p, Eval(p, pc, t, f1 + 1), g, r);
    }
  }

  // ----- how stores change what a thread represents

  lemma RelMove(p: Prog, ctx: Context, y: State, t: Thread, e: nat)
    requires Rel(p, ctx, y, t) && e <= |Input(p)|
    ensures Rel(p, ctx, State(e, y.caps), Thread(Pos(p.text, e), t.mem))
  {
    hide CellsMatch, Chars, Pos;
  }

  /** Storing to the first free register makes it one in use. */
  lemma RelPush(p: Prog, ctx: Context, y: State, t: Thread, v: int)
    requires Rel(p, ctx, y, t) && 2 * p.ncap + |ctx.regs| < p.nmem
    ensures Rel(p, ctx.(regs := ctx.regs + [v]), y, Thread(t.pos, t.mem[2 * p.ncap + |ctx.regs| := v]))
  {
    hide CellsMatch, Chars, Pos;
    var d := 2 * p.ncap + |ctx.regs|;
    var mem := t.mem[d := v];
    assert mem[2 * p.ncap..d + 1] == mem[2 * p.ncap..d] + [v];
    assert mem[2 * p.ncap..d] == t.mem[2 * p.ncap..d];
    var ctx' := ctx.(regs := ctx.regs + [v]);
    forall n | 0 <= n < p.ncap ensures CellsMatch(p, ctx', y.caps[n], n, (mem[2 * n], mem[2 * n + 1])) {
      assert mem[2 * n] == t.mem[2 * n] && mem[2 * n + 1] == t.mem[2 * n + 1];
      CellsRegs(p, ctx, ctx', y.caps[n], n, (t.mem[2 * n], t.mem[2 * n + 1]));
    }
  }

  lemma CellsRegs(p: Prog, ctx: Context, ctx': Context, c: Capture, n: nat, cells: (int, int))
    requires CellsMatch(p, ctx, c, n, cells) && ctx'.env == ctx.env && ctx'.dirty == ctx.dirty
    ensures CellsMatch(p, ctx', c, n, cells)
  {
  }

  /** Registers beyond a prefix may be forgotten. */
  lemma RelPop(p: Prog, ctx: Context, y: State, t: Thread, k: nat)
    requires Rel(p, ctx, y, t) && k <= |ctx.regs|
    ensures Rel(p, ctx.(regs := ctx.regs[..k]), y, t)
  {
    hide CellsMatch, Chars, Pos;
    var ctx' := ctx.(regs := ctx.regs[..k]);
    assert t.mem[2 * p.ncap..2 * p.ncap + k] == t.mem[2 * p.ncap..2 * p.ncap + |ctx.regs|][..k];
    forall n | 0 <= n < p.ncap ensures CellsMatch(p, ctx', y.caps[n], n, (t.mem[2 * n], t.mem[2 * n + 1])) {
      CellsRegs(p, ctx, ctx', y.caps[n], n, (t.mem[2 * n], t.mem[2 * n + 1]));
    }
  }

  lemma RelRegister(p: Prog, ctx: Context, y: State, t: Thread, k: nat)
    requires Rel(p, ctx, y, t) && k < |ctx.regs|
    ensures 2 * p.ncap + k < p.nmem && t.mem[2 * p.ncap + k] == ctx.regs[k]
  {
    hide CellsMatch, Chars, Pos;
    assert t.mem[2 * p.ncap..2 * p.ncap + |ctx.regs|][k] == t.mem[2 * p.ncap + k];
  }

  /** A store to the cells of capture n, everything else being equal. */
  lemma RelCells(p: Prog, ctx: Context, y: State, t: Thread, ctx': Context, caps: seq<Capture>, mem: seq<int>, n: nat)
    requires Rel(p, ctx, y, t) && n < p.ncap
    requires |caps| == p.ncap && |mem| == p.nmem && ctx'.regs == ctx.regs
    requires forall k :: 0 <= k < p.nmem && k != 2 * n && k != 2 * n + 1 ==> mem[k] == t.mem[k]
    requires forall k :: 0 <= k < p.ncap && k != n ==> caps[k] == y.caps[k]
    requires ctx'.dirty - {n} == ctx.dirty - {n} && ctx'.env - {n} == ctx.env - {n}
    requires CellsMatch(p, ctx', caps[n], n, (mem[2 * n], mem[2 * n + 1]))
    ensures Rel(p, ctx', State(y.end, caps), Thread(t.pos, mem))
  {
    hide CapOK, CellsOf, Chars, Pos;
    forall k | 0 <= k < p.ncap ensures CellsMatch(p, ctx', caps[k], k, (mem[2 * k], mem[2 * k + 1])) {
      if k != n {
        assert CellsMatch(p, ctx, y.caps[k], k, (t.mem[2 * k], t.mem[2 * k + 1]));
        assert k in ctx'.env <==> k in ctx'.env - {n};
        assert k in ctx.env <==> k in ctx.env - {n};
        assert k in ctx'.env ==> (ctx'.env - {n})[k] == (ctx.env - {n})[k];
        assert k in ctx'.dirty <==> k in ctx'.dirty - {n};
        assert k in ctx.dirty <==> k in ctx.dirty - {n};
      }
    }
    assert mem[2 * p.ncap..2 * p.ncap + |ctx.regs|] == t.mem[2 * p.ncap..2 * p.ncap + |ctx.regs|];
  }

  // ----- reachable states

  lemma ReachesTrans(input: seq<nat>, back: bool, x: State, tx: set<nat>, sx: bool, y: State, ty: set<nat>, sy: bool, z: State)
    requires Reaches(input, back, x, tx, sx, y) && Reaches(input, back, y, ty, sy, z)
    ensures Reaches(input, back, x, tx + ty, sx || sy, z)
  {
  }

  /** What holds of all states reachable from x holds of those reachable from a state reachable from x. */
  lemma ContinuesFrom(p: Prog, pc: int, g: Goal, ctx: Context, back: bool, x: State, touched: set<nat>, strict: bool, c: Cont,
                      tx: set<nat>, sx: bool, y: State, ty: set<nat>, sy: bool)
    requires Continues(p, pc, g, ctx, back, x, touched, strict, c)
    requires Reaches(Input(p), back, x, tx, sx, y)
    requires tx + ty <= touched && (strict ==> sx || sy)
    ensures Continues(p, pc, g, ctx, back, y, ty, sy, c)
  {
    hide Rel, Yields;
    forall z, t | Reaches(Input(p), back, y, ty, sy, z) && Rel(p, ctx, z, t)
      ensures c.requires(z) && Yields(p, pc, t, g, c(z))
    {
      ReachesTrans(Input(p), back, x, tx, sx, y, ty, sy, z);
      assert Reaches(Input(p), back, x, touched, strict, z);
    }
  }
}
