/** lre_compile and lre_exec together: the theorem about the regular expression engine. */
module Regexp {
  import opened Words
  import opened Bytecode
  import opened Syntax
  import opened Text
  import opened Codegen
  import opened Machine
  import opened Relation
  import opened SimulationLeaf
  import opened SimulationBase
  import opened Programs
  import opened Registers
  import opened Compiler
  import opened Executor
  import opened Halting
  import opened Saturation
  import UndoLog
  import Ecma

  /** What lre_exec and lre_get_alloc_count read from the header of an image. */
  function Load(image: seq<u8>, text: Text): Prog
    requires |image| >= RE_HEADER_LEN
  {
    Prog(image[RE_HEADER_LEN..], text, image[RE_HEADER_CAPTURE_COUNT] as nat,
         image[RE_HEADER_CAPTURE_COUNT] as nat * 2 + image[RE_HEADER_REGISTER_COUNT] as nat)
  }

  lemma LoadImage(node: Node, flags: nat, text: Text)
    requires WithinLimits(node)
    ensures |Image(node, flags)| >= RE_HEADER_LEN
    ensures Load(Image(node, flags), text)
            == Prog(Asm(Program(node, IsSticky(flags), 0)), text, 1 + Groups(node), 2 * (1 + Groups(node)) + Depth(node, false, 1))
  {
    hide Program, Asm, Groups, Depth, RangesFit, U16, U32;
    var code := Asm(Program(node, IsSticky(flags), 0));
    var f := U16(flags);
    assert |f| == 2 by { HeaderPatched(flags, 0, 0, []); }
    var image := (f + Byte(1 + Groups(node)) + Byte(Depth(node, false, 1)) + U32(Size(Program(node, IsSticky(flags), 0)))) + code;
    assert image[2] == 1 + Groups(node) && image[3] == Depth(node, false, 1);
    assert image[8..] == code;
  }

  /** The subjects and code sizes that the engine is written for. */
  ghost predicate InRange(node: Node, flags: nat, text: Text) {
    && Size(Program(node, IsSticky(flags), 0)) <= INT32_MAX / 2
    && CodePoints(Chars(text))
    && |Chars(text)| < INT32_MAX
  }

  /** The image of a pattern is a program of every pattern that is as good for the compiler. */
  lemma LoadedIsCompiled(node: Node, meant: Node, flags: nat, text: Text)
    requires Readable(node, 1 + Groups(node)) && WithinLimits(node) && InRange(node, flags, text)
    requires meant == Saturated(node) || (meant == node && Counters(node, |Chars(text)|))
    ensures |Image(node, flags)| >= RE_HEADER_LEN
    ensures Compiled(Load(Image(node, flags), text), meant, IsSticky(flags))
  {
    hide Program, Asm, Groups, Depth, Image, Chars, Counters, Parsed, Readable, RangesFit, Saturated;
    LoadImage(node, flags, text);
    ReadableFits(node, 1 + Groups(node));
    SaturatedShape(node);
    SaturatedDepth(node, false, 1);
    SaturatedProgram(node, IsSticky(flags), 0);
    SaturatedCounts(node, 1 + Groups(node), |Chars(text)|);
  }

  /** What lre_exec reports is the result `r` of the reference semantics. */
  ghost predicate Outcome(text: Text, r: Ecma.Result, matched: bool, captures: seq<int>) {
    && (matched <==> r.Success?)
    && (matched ==> |captures| == 2 * |r.state.caps|
                    && forall n :: 0 <= n < |r.state.caps| ==> CaptureIs(text, r.state.caps[n], captures[2 * n], captures[2 * n + 1]))
  }

  ghost predicate CaptureIs(text: Text, c: Ecma.Capture, start: int, end: int) {
    match c
    case Undefined => start == NULL && end == NULL
    case Range(a, b) => a <= b <= |Chars(text)| && start == Pos(text, a) && end == Pos(text, b)
  }

  /** Two patterns with the same program have the same results. */
  lemma SameReports(p: Prog, node: Node, meant: Node, sticky: bool, e: nat, t: Thread) returns (o: UndoLog.Result)
    requires Compiled(p, node, sticky) && Compiled(p, meant, sticky) && Initial(p, e, t)
    ensures e <= |Input(p)| && 1 + Groups(node) <= p.ncap && Parsed(node, p.ncap) && 1 + Groups(meant) <= p.ncap && Parsed(meant, p.ncap)
    ensures Reports(p, Ecma.Search(Input(p), node, p.ncap, sticky, e), o) && Reports(p, Ecma.Search(Input(p), meant, p.ncap, sticky, e), o)
  {
    hide Compiled, Initial, UndoLog.FlatFit, Chars, Pos, Parsed, Turns;
    var n := ProgramHalts(p, node, sticky, e, t);
    var m := ProgramHalts(p, meant, sticky, e, t);
    ReportsStop(p, Ecma.Search(Input(p), node, p.ncap, sticky, e), Turns(p, Begin(t), n));
    ReportsStop(p, Ecma.Search(Input(p), meant, p.ncap, sticky, e), Turns(p, Begin(t), m));
    TurnsSame(p, Begin(t), n, m);
    o := Turns(p, Begin(t), n);
  }

  lemma OutcomeMoves(p: Prog, r1: Ecma.Result, r2: Ecma.Result, o: UndoLog.Result, matched: bool, captures: seq<int>)
    requires Reports(p, r1, o) && Reports(p, r2, o) && Outcome(p.text, r1, matched, captures)
    ensures Outcome(p.text, r2, matched, captures)
  {
    hide Chars, Pos;
    if matched {
      forall n | 0 <= n < |r2.state.caps| ensures CaptureIs(p.text, r2.state.caps[n], captures[2 * n], captures[2 * n + 1]) {
        assert CaptureIs(p.text, r1.state.caps[n], captures[2 * n], captures[2 * n + 1]);
      }
    }
  }

  /** A pattern is compiled and run on a subject. The pattern is refused exactly if it exceeds a limit of the
      engine. Otherwise the search finds a match exactly if RegExpBuiltinExec of ECMA-262 does, and reports
      the same captures: for every subject if the pattern is read as Saturated says, and as the pattern
      stands if its counters cannot run out. `e` is the character that the unit at `cindex` belongs to. */
  method CompileAndExec(node: Node, flags: nat, text: Text, cindex: nat, ghost e: nat)
    returns (ok: bool, matched: bool, captures: seq<int>)
    requires Readable(node, 1 + Groups(node)) && InRange(node, flags, text)
    requires cindex <= |text.units| && e <= |Chars(text)|
    requires Pos(text, e) <= cindex && (e < |Chars(text)| ==> cindex < Pos(text, e + 1))
    ensures ok <==> WithinLimits(node)
    ensures ok ==> 1 + Groups(Saturated(node)) == 1 + Groups(node) && Parsed(Saturated(node), 1 + Groups(node)) && Parsed(node, 1 + Groups(node))
    ensures ok ==> Outcome(text, Ecma.Search(Chars(text), Saturated(node), 1 + Groups(node), flags / 0x20 % 2 == 1, e), matched, captures)
    ensures ok && Counters(node, |Chars(text)|) ==>
              Outcome(text, Ecma.Search(Chars(text), node, 1 + Groups(node), flags / 0x20 % 2 == 1, e), matched, captures)
  {
    hide Program, Asm, Groups, Depth, Image, Chars, Counters, Parsed, Readable, RangesFit, Pos, Compiled, Saturated, Outcome, Initial;
    var image: seq<u8>;
    ok, image := Compile(node, flags);
    matched, captures := false, [];
    if ok {
      SaturatedShape(node);
      LoadedIsCompiled(node, Saturated(node), flags, text);
      LoadImage(node, flags, text);
      ReadableFits(node, 1 + Groups(node));
      SaturatedCounts(node, 1 + Groups(node), |Chars(text)|);
      var p := Load(image, text);
      matched, captures := Exec(p, Saturated(node), IsSticky(flags), cindex, e);
      ExecOutcome(p, Ecma.Search(Chars(text), Saturated(node), 1 + Groups(node), IsSticky(flags), e), matched, captures);
      if Counters(node, |Chars(text)|) {
        LoadedIsCompiled(node, node, flags, text);
        ghost var t := AnyStart(p, e);
        ghost var o := SameReports(p, Saturated(node), node, IsSticky(flags), e, t);
        OutcomeMoves(p, Ecma.Search(Chars(text), Saturated(node), 1 + Groups(node), IsSticky(flags), e),
                     Ecma.Search(Chars(text), node, 1 + Groups(node), IsSticky(flags), e), o, matched, captures);
      }
    }
  }

  lemma ExecOutcome(p: Prog, r: Ecma.Result, matched: bool, captures: seq<int>)
    requires matched <==> r.Success?
    requires matched ==> |captures| == 2 * p.ncap == 2 * |r.state.caps|
    requires matched ==> forall n :: 0 <= n < p.ncap ==>
               CapOK(p, r.state.caps[n]) && (captures[2 * n], captures[2 * n + 1]) == CellsOf(p, r.state.caps[n])
    ensures Outcome(p.text, r, matched, captures)
  {
    hide Chars, Pos;
  }

  lemma AnyStart(p: Prog, e: nat) returns (t: Thread)
    requires 2 * p.ncap <= p.nmem && e <= |Input(p)|
    ensures Initial(p, e, t)
  {
    hide Chars, Pos;
    t := Thread(Pos(p.text, e), seq(p.nmem, _ => NULL));
  }
}
