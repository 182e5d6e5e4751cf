/** The stack of lre_exec_backtrack: three-word frames between which the old values of the cells that were
    stored to are logged. Unwinding to a frame rebuilds the contents of `capture[]` at its creation. */
module UndoLog {
  import opened Bytecode
  import opened Text
  import opened Machine
  import opened Relation
  import opened Snapshot

  /** StackElem: a pointer or integer, or the packed bp and type of a frame. */
  datatype Elem = Word(v: int) | Link(bp: nat, kind: FrameKind)

  /** The state of the loop: `stack` is what lies below `sp`. */
  datatype Flat = Flat(pc: int, pos: nat, mem: seq<int>, stack: seq<Elem>, bp: nat)

  datatype Result = On(f: Flat) | Match(mem: seq<int>, pos: nat) | Fail | Crash

  // ----- the operations

  /** A segment of the log: pairs of a cell number and the value to restore. */
  predicate Log(seg: seq<Elem>, n: nat)
    decreases |seg|
  {
    if seg == [] then true
    else |seg| >= 2 && seg[|seg| - 2].Word? && 0 <= seg[|seg| - 2].v < n && seg[|seg| - 1].Word? && Log(seg[..|seg| - 2], n)
  }

  function Undo(mem: seq<int>, seg: seq<Elem>): (r: seq<int>)
    requires Log(seg, |mem|)
    ensures |r| == |mem|
    decreases |seg|
  {
    if seg == [] then mem
    else Undo(mem[seg[|seg| - 2].v := seg[|seg| - 1].v], seg[..|seg| - 2])
  }

  lemma UndoStep(mem: seq<int>, seg: seq<Elem>)
    requires Log(seg, |mem|)
    ensures seg == [] ==> Undo(mem, seg) == mem
    ensures seg != [] ==>
              && |seg| >= 2 && seg[|seg| - 2].Word? && 0 <= seg[|seg| - 2].v < |mem| && seg[|seg| - 1].Word? && Log(seg[..|seg| - 2], |mem|)
              && Undo(mem, seg) == Undo(mem[seg[|seg| - 2].v := seg[|seg| - 1].v], seg[..|seg| - 2])
  {
  }

  /** SAVE_CAPTURE_CHECK looks for the cell in the log since the last frame. */
  predicate Logged(seg: seq<Elem>, idx: nat, n: nat)
    requires Log(seg, n)
    decreases |seg|
  {
    if seg == [] then false
    else seg[|seg| - 2].v == idx || Logged(seg[..|seg| - 2], idx, n)
  }

  /** Frames and log segments, from the top down. */
  ghost predicate WellFormed(stack: seq<Elem>, bp: nat, n: nat, len: nat)
    decreases |stack|
  {
    && bp <= |stack|
    && Log(stack[bp..], n)
    && (bp != 0 ==>
          && bp >= 3
          && stack[bp - 3].Word? && stack[bp - 2].Word? && stack[bp - 1].Link?
          && 0 <= stack[bp - 2].v <= len
          && WellFormed(stack[..bp - 3], stack[bp - 1].bp, n, len))
  }

  /** The snapshots that the frames stand for. */
  ghost function Frames(stack: seq<Elem>, bp: nat, mem: seq<int>, len: nat): seq<Frame>
    requires WellFormed(stack, bp, |mem|, len)
    decreases |stack|
  {
    if bp == 0 then []
    else
      var mem' := Undo(mem, stack[bp..]);
      Frames(stack[..bp - 3], stack[bp - 1].bp, mem', len)
      + [Frame(stack[bp - 1].kind, stack[bp - 3].v, Thread(stack[bp - 2].v, mem'))]
  }

  ghost predicate FlatFit(p: Prog, f: Flat) {
    f.pos <= |p.text.units| && |f.mem| == p.nmem && WellFormed(f.stack, f.bp, |f.mem|, |p.text.units|)
  }

  /** The machine with snapshots that a state of the machine with the log implements. */
  ghost function Abstract(p: Prog, f: Flat): Snap
    requires FlatFit(p, f)
  {
    Running(f.pc, Thread(f.pos, f.mem), Frames(f.stack, f.bp, f.mem, |p.text.units|))
  }

  function Push(f: Flat, pc: int, kind: FrameKind): Flat {
    f.(stack := f.stack + [Word(pc), Word(f.pos), Link(f.bp, kind)], bp := |f.stack| + 3)
  }

  /** SAVE_CAPTURE, or SAVE_CAPTURE_CHECK for a `once` store. */
  function Store(f: Flat, w: Write): Flat
    requires w.idx < |f.mem| && f.bp <= |f.stack| && Log(f.stack[f.bp..], |f.mem|)
  {
    var stack := if w.once && Logged(f.stack[f.bp..], w.idx, |f.mem|) then f.stack else f.stack + [Word(w.idx), Word(f.mem[w.idx])];
    f.(stack := stack, mem := f.mem[w.idx := w.val])
  }

  function StoreAll(f: Flat, ws: seq<Write>): Flat
    requires WritesFit(ws, |f.mem|) && f.bp <= |f.stack| && Log(f.stack[f.bp..], |f.mem|)
    decreases |ws|
  {
    if ws == [] then f
    else
      StoreLogs(f, ws[0]);
      StoreAll(Store(f, ws[0]), ws[1..])
  }

  /** no_match. */
  function Backtracked(f: Flat, n: nat, len: nat): Result
    requires |f.mem| == n && WellFormed(f.stack, f.bp, n, len)
    decreases |f.stack|
  {
    if f.bp == 0 then Fail
    else
      var g := Popped(f, n, len);
      if f.stack[f.bp - 1].kind == AtLook then Backtracked(g, n, len) else On(g)
  }

  /** Undo the log down to the last frame, then resume what the frame says. */
  function Popped(f: Flat, n: nat, len: nat): (g: Flat)
    requires |f.mem| == n && WellFormed(f.stack, f.bp, n, len) && f.bp != 0
    ensures |g.mem| == n && WellFormed(g.stack, g.bp, n, len) && |g.stack| < |f.stack|
  {
    var link := f.stack[f.bp - 1];
    Flat(f.stack[f.bp - 3].v, f.stack[f.bp - 2].v, Undo(f.mem, f.stack[f.bp..]), f.stack[..f.bp - 3], link.bp)
  }

  lemma BacktrackedIs(f: Flat, n: nat, len: nat)
    requires |f.mem| == n && WellFormed(f.stack, f.bp, n, len)
    ensures f.bp == 0 ==> Backtracked(f, n, len) == Fail
    ensures f.bp != 0 ==>
              && 0 < f.bp <= |f.stack| && f.stack[f.bp - 1].Link?
              && |Popped(f, n, len).stack| < |f.stack|
              && Backtracked(f, n, len)
                 == if f.stack[f.bp - 1].kind == AtLook then Backtracked(Popped(f, n, len), n, len) else On(Popped(f, n, len))
  {
  }

  /** negative_lookahead_match. */
  function NegLookLeft(f: Flat, n: nat, len: nat): Result
    requires |f.mem| == n && WellFormed(f.stack, f.bp, n, len)
    decreases |f.stack|
  {
    if f.bp == 0 then Crash
    else
      var g := Popped(f, n, len);
      if f.stack[f.bp - 1].kind == AtNegLook then Backtracked(g, n, len) else NegLookLeft(g, n, len)
  }

  lemma NegLookLeftIs(f: Flat, n: nat, len: nat)
    requires |f.mem| == n && WellFormed(f.stack, f.bp, n, len)
    ensures f.bp == 0 ==> NegLookLeft(f, n, len) == Crash
    ensures f.bp != 0 ==>
              && 0 < f.bp <= |f.stack| && f.stack[f.bp - 1].Link?
              && |Popped(f, n, len).stack| < |f.stack|
              && NegLookLeft(f, n, len)
                 == if f.stack[f.bp - 1].kind == AtNegLook then Backtracked(Popped(f, n, len), n, len) else NegLookLeft(Popped(f, n, len), n, len)
  {
    hide Backtracked;
  }

  /** What lookahead_match keeps of the stack: everything below the frame of the lookahead, and the log
      segments above it with the frames between them squeezed out. */
  datatype Kept = NoLook | Kept(base: seq<Elem>, log: seq<Elem>, pc: int, pos: nat, bp: nat)

  function Squeeze(stack: seq<Elem>, bp: nat, n: nat, len: nat): Kept
    requires WellFormed(stack, bp, n, len)
    decreases |stack|
  {
    if bp == 0 then NoLook
    else
      var link := stack[bp - 1];
      if link.kind == AtLook then Kept(stack[..bp - 3], stack[bp..], stack[bp - 3].v, stack[bp - 2].v, link.bp)
      else
        var k := Squeeze(stack[..bp - 3], link.bp, n, len);
        if k.NoLook? then k else k.(log := k.log + stack[bp..])
  }

  function LookLeft(f: Flat, n: nat, len: nat): Result
    requires |f.mem| == n && WellFormed(f.stack, f.bp, n, len)
  {
    var k := Squeeze(f.stack, f.bp, n, len);
    if k.NoLook? then Crash
    else On(Flat(k.pc, k.pos, f.mem, if k.base == [] then [] else k.base + k.log, k.bp))
  }

  /** What an effect does to the state. */
  function Carry(p: Prog, f: Flat, e: Effect): Result
    requires FlatFit(p, f)
    requires e.Go? || e.Fork? ==> WritesFit(e.writes, p.nmem)
  {
    match e
    case Go(pc, pos, ws) => On(StoreAll(f, ws).(pc := pc, pos := pos))
    case Fork(first, second, ws) => On(Push(StoreAll(f, ws), second, AtSplit).(pc := first))
    case NoMatch => Backtracked(f, p.nmem, |p.text.units|)
    case Enter(neg, body, after) => On(Push(f, after, if neg then AtNegLook else AtLook).(pc := body))
    case End(EndMatch) => Match(f.mem, f.pos)
    case End(EndLook) => LookLeft(f, p.nmem, |p.text.units|)
    case End(EndNegLook) => NegLookLeft(f, p.nmem, |p.text.units|)
    case Stuck => Crash
  }

  /** One turn of the loop. */
  function FlatStep(p: Prog, f: Flat): Result
    requires FlatFit(p, f)
  {
    Carry(p, f, Execute(p, f.pc, Thread(f.pos, f.mem)))
  }

  // ----- undoing

  lemma {:induction false} LogConcat(a: seq<Elem>, b: seq<Elem>, n: nat)
    requires Log(a, n) && Log(b, n)
    ensures Log(a + b, n)
    decreases |b|
  {
    if b == [] {
      assert a + b == a;
    } else {
      LogConcat(a, b[..|b| - 2], n);
      assert (a + b)[..|a + b| - 2] == a + b[..|b| - 2];
    }
  }

  lemma {:induction false} UndoConcat(mem: seq<int>, a: seq<Elem>, b: seq<Elem>)
    requires Log(a, |mem|) && Log(b, |mem|)
    ensures Log(a + b, |mem|) && Undo(mem, a + b) == Undo(Undo(mem, b), a)
    decreases |b|
  {
    LogConcat(a, b, |mem|);
    if b == [] {
      assert a + b == a;
    } else {
      var mem' := mem[b[|b| - 2].v := b[|b| - 1].v];
      UndoConcat(mem', a, b[..|b| - 2]);
      assert (a + b)[..|a + b| - 2] == a + b[..|b| - 2];
    }
  }

  lemma UndoPair(mem: seq<int>, idx: nat, was: int)
    requires idx < |mem|
    ensures Log([Word(idx), Word(was)], |mem|) && Undo(mem, [Word(idx), Word(was)]) == mem[idx := was]
  {
    assert [Word(idx), Word(was)][..0] == [];
  }

  /** A cell that is already logged may be overwritten freely: undoing restores its oldest value. */
  lemma {:induction false} UndoForgets(mem: seq<int>, seg: seq<Elem>, idx: nat, v: int)
    requires Log(seg, |mem|) && idx < |mem| && Logged(seg, idx, |mem|)
    ensures Undo(mem[idx := v], seg) == Undo(mem, seg)
    decreases |seg|
  {
    var j, w := seg[|seg| - 2].v, seg[|seg| - 1].v;
    if j == idx {
      assert mem[idx := v][j := w] == mem[j := w];
    } else {
      assert mem[idx := v][j := w] == mem[j := w][idx := v];
      UndoForgets(mem[j := w], seg[..|seg| - 2], idx, v);
    }
  }

  lemma StoreLogs(f: Flat, w: Write)
    requires w.idx < |f.mem| && f.bp <= |f.stack| && Log(f.stack[f.bp..], |f.mem|)
    ensures var g := Store(f, w);
            && g.bp == f.bp <= |g.stack| && |g.mem| == |f.mem| && g.stack[..f.bp] == f.stack[..f.bp]
            && Log(g.stack[g.bp..], |g.mem|)
            && Undo(g.mem, g.stack[g.bp..]) == Undo(f.mem, f.stack[f.bp..])
  {
    var g := Store(f, w);
    var seg := f.stack[f.bp..];
    if w.once && Logged(seg, w.idx, |f.mem|) {
      UndoForgets(f.mem, seg, w.idx, w.val);
    } else {
      var pair := [Word(w.idx), Word(f.mem[w.idx])];
      assert g.stack[g.bp..] == seg + pair;
      UndoPair(g.mem, w.idx, f.mem[w.idx]);
      UndoConcat(g.mem, seg, pair);
      assert g.mem[w.idx := f.mem[w.idx]] == f.mem;
    }
  }

  lemma WellFormedIs(stack: seq<Elem>, bp: nat, n: nat, len: nat)
    ensures WellFormed(stack, bp, n, len)
            <==> && bp <= |stack| && Log(stack[bp..], n)
                 && (bp != 0 ==>
                     && bp >= 3 && stack[bp - 3].Word? && stack[bp - 2].Word? && stack[bp - 1].Link? && 0 <= stack[bp - 2].v <= len
                     && WellFormed(stack[..bp - 3], stack[bp - 1].bp, n, len))
  {
    hide Log;
  }

  lemma FramesIs(stack: seq<Elem>, bp: nat, mem: seq<int>, len: nat)
    requires WellFormed(stack, bp, |mem|, len)
    ensures bp <= |stack| && Log(stack[bp..], |mem|)
    ensures bp == 0 ==> Frames(stack, bp, mem, len) == []
    ensures bp != 0 ==>
              && bp >= 3 && stack[bp - 3].Word? && stack[bp - 2].Word? && stack[bp - 1].Link? && 0 <= stack[bp - 2].v <= len
              && WellFormed(stack[..bp - 3], stack[bp - 1].bp, |mem|, len)
              && var mem' := Undo(mem, stack[bp..]);
                 Frames(stack, bp, mem, len)
                 == Frames(stack[..bp - 3], stack[bp - 1].bp, mem', len)
                    + [Frame(stack[bp - 1].kind, stack[bp - 3].v, Thread(stack[bp - 2].v, mem'))]
  {
    hide Log, Undo;
  }

  /** Only the part of the stack below the last frame, and what its log undoes to, matter for the frames. */
  lemma FramesSame(stack: seq<Elem>, stack': seq<Elem>, bp: nat, mem: seq<int>, mem': seq<int>, len: nat)
    requires WellFormed(stack, bp, |mem|, len) && |mem'| == |mem|
    requires bp <= |stack'| && bp <= |stack| && stack'[..bp] == stack[..bp]
    requires Log(stack'[bp..], |mem|) && Log(stack[bp..], |mem|) && Undo(mem', stack'[bp..]) == Undo(mem, stack[bp..])
    ensures WellFormed(stack', bp, |mem'|, len)
    ensures Frames(stack', bp, mem', len) == Frames(stack, bp, mem, len)
  {
    hide *;
    FramesIs(stack, bp, mem, len);
    if bp != 0 {
      assert stack'[..bp - 3] == stack'[..bp][..bp - 3] == stack[..bp - 3];
      assert stack'[bp - 3] == stack'[..bp][bp - 3] && stack'[bp - 2] == stack'[..bp][bp - 2] && stack'[bp - 1] == stack'[..bp][bp - 1];
    }
    WellFormedIs(stack', bp, |mem'|, len);
    FramesIs(stack', bp, mem', len);
  }

  lemma StoreAbstract(p: Prog, f: Flat, w: Write)
    requires FlatFit(p, f) && w.idx < p.nmem
    ensures var g := Store(f, w);
            && FlatFit(p, g) && g.pc == f.pc && g.pos == f.pos && g.mem == f.mem[w.idx := w.val]
            && Frames(g.stack, g.bp, g.mem, |p.text.units|) == Frames(f.stack, f.bp, f.mem, |p.text.units|)
  {
    hide Undo, Log, Logged, Frames;
    var g := Store(f, w);
    StoreLogs(f, w);
    FlatLog(p, f);
    FramesSame(f.stack, g.stack, f.bp, f.mem, g.mem, |p.text.units|);
  }

  lemma {:induction false} StoreAllAbstract(p: Prog, f: Flat, ws: seq<Write>)
    requires FlatFit(p, f) && WritesFit(ws, p.nmem)
    ensures var g := StoreAll(f, ws);
            && FlatFit(p, g) && g.pc == f.pc && g.pos == f.pos && g.mem == Apply(f.mem, ws)
            && Frames(g.stack, g.bp, g.mem, |p.text.units|) == Frames(f.stack, f.bp, f.mem, |p.text.units|)
    decreases |ws|
  {
    hide Store, Frames, Undo, Log, Logged;
    if ws != [] {
      StoreAbstract(p, f, ws[0]);
      StoreAllAbstract(p, Store(f, ws[0]), ws[1..]);
    }
  }

  lemma PushAbstract(p: Prog, f: Flat, pc: int, kind: FrameKind)
    requires FlatFit(p, f)
    ensures var g := Push(f, pc, kind);
            && FlatFit(p, g)
            && Frames(g.stack, g.bp, g.mem, |p.text.units|)
               == Frames(f.stack, f.bp, f.mem, |p.text.units|) + [Frame(kind, pc, Thread(f.pos, f.mem))]
  {
    var g := Push(f, pc, kind);
    assert g.stack[g.bp..] == [];
    assert g.stack[..g.bp - 3] == f.stack;
    assert Undo(g.mem, []) == g.mem;
  }

  // ----- unwinding

  lemma PoppedAbstract(f: Flat, n: nat, len: nat)
    requires |f.mem| == n && WellFormed(f.stack, f.bp, n, len) && f.bp != 0
    ensures var g := Popped(f, n, len);
            var frames := Frames(f.stack, f.bp, f.mem, len);
            && |frames| > 0 && g.pos <= len
            && Top(frames) == Frame(f.stack[f.bp - 1].kind, g.pc, Thread(g.pos, g.mem))
            && Below(frames) == Frames(g.stack, g.bp, g.mem, len)
  {
  }

  ghost predicate Implements(p: Prog, r: Result, s: Snap) {
    match r
    case On(f) => FlatFit(p, f) && s == Abstract(p, f)
    case Match(mem, pos) => s == Matched(Thread(pos, mem))
    case Fail => s == Rejected
    case Crash => s == Crashed
  }

  lemma {:induction false} BacktrackedAbstract(p: Prog, f: Flat)
    requires FlatFit(p, f)
    ensures Implements(p, Backtracked(f, p.nmem, |p.text.units|), Backtrack(Frames(f.stack, f.bp, f.mem, |p.text.units|)))
    decreases |f.stack|
  {
    hide Frames, Undo, Log;
    if f.bp == 0 {
      NoFrames(f.stack, f.mem, |p.text.units|);
    } else {
      PoppedAbstract(f, p.nmem, |p.text.units|);
      var g := Popped(f, p.nmem, |p.text.units|);
      if f.stack[f.bp - 1].kind == AtLook {
        BacktrackedAbstract(p, g);
      }
    }
  }

  lemma NoFrames(stack: seq<Elem>, mem: seq<int>, len: nat)
    requires WellFormed(stack, 0, |mem|, len)
    ensures Frames(stack, 0, mem, len) == []
  {
  }

  lemma {:induction false} NegLookLeftAbstract(p: Prog, f: Flat)
    requires FlatFit(p, f)
    ensures Implements(p, NegLookLeft(f, p.nmem, |p.text.units|), LeaveNegLook(Frames(f.stack, f.bp, f.mem, |p.text.units|)))
    decreases |f.stack|
  {
    hide Frames, Undo, Log;
    if f.bp == 0 {
      NoFrames(f.stack, f.mem, |p.text.units|);
    } else {
      PoppedAbstract(f, p.nmem, |p.text.units|);
      var g := Popped(f, p.nmem, |p.text.units|);
      if f.stack[f.bp - 1].kind == AtNegLook {
        BacktrackedAbstract(p, g);
      } else {
        NegLookLeftAbstract(p, g);
      }
    }
  }

  /** The squeezed stack undoes to the same snapshots below the lookahead, whatever cells its body stored to. */
  lemma {:induction false} SqueezeAbstract(stack: seq<Elem>, bp: nat, mem: seq<int>, keep: seq<int>, len: nat)
    requires WellFormed(stack, bp, |mem|, len) && |keep| == |mem|
    ensures var k := Squeeze(stack, bp, |mem|, len);
            var s := LeaveLook(Frames(stack, bp, mem, len), keep);
            if k.NoLook? then s == Crashed
            else
              && Log(k.log, |mem|) && 0 <= k.pos <= len
              && WellFormed(k.base, k.bp, |mem|, len)
              && s == Running(k.pc, Thread(k.pos, keep), Frames(k.base, k.bp, Undo(mem, k.log), len))
    decreases |stack|
  {
    if bp == 0 {
      NoFrames(stack, mem, len);
    } else {
      var f := Flat(0, 0, mem, stack, bp);
      PoppedAbstract(f, |mem|, len);
      var g := Popped(f, |mem|, len);
      hide Frames;
      if stack[bp - 1].kind != AtLook {
        SqueezeAbstract(g.stack, g.bp, g.mem, keep, len);
        var k := Squeeze(g.stack, g.bp, |mem|, len);
        if !k.NoLook? {
          UndoConcat(mem, k.log, stack[bp..]);
        }
      }
    }
  }

  lemma LookLeftAbstract(p: Prog, f: Flat)
    requires FlatFit(p, f)
    ensures Implements(p, LookLeft(f, p.nmem, |p.text.units|), LeaveLook(Frames(f.stack, f.bp, f.mem, |p.text.units|), f.mem))
  {
    hide Frames, Undo, Log, Squeeze;
    var len := |p.text.units|;
    var k := Squeeze(f.stack, f.bp, p.nmem, len);
    SqueezeAbstract(f.stack, f.bp, f.mem, f.mem, len);
    if !k.NoLook? {
      if k.base == [] {
        NoFrames(k.base, Undo(f.mem, k.log), len);
        EmptyStack(f.mem, len);
      } else {
        AppendLog(k.base, k.log, k.bp, f.mem, len);
      }
    }
  }

  lemma EmptyStack(mem: seq<int>, len: nat)
    ensures WellFormed([], 0, |mem|, len) && Frames([], 0, mem, len) == []
  {
  }

  lemma AppendLog(base: seq<Elem>, log: seq<Elem>, bp: nat, mem: seq<int>, len: nat)
    requires WellFormed(base, bp, |mem|, len) && Log(log, |mem|)
    ensures WellFormed(base + log, bp, |mem|, len)
    ensures Frames(base + log, bp, mem, len) == Frames(base, bp, Undo(mem, log), len)
  {
    assert (base + log)[bp..] == base[bp..] + log;
    assert (base + log)[..bp] == base[..bp];
    FramesIs(base, bp, Undo(mem, log), len);
    UndoConcat(mem, base[bp..], log);
    FramesSame(base, base + log, bp, Undo(mem, log), mem, len);
  }

  lemma FlatLog(p: Prog, f: Flat)
    requires FlatFit(p, f)
    ensures f.bp <= |f.stack| && Log(f.stack[f.bp..], |f.mem|) && |f.mem| == p.nmem && f.pos <= |p.text.units|
  {
  }

  lemma FlatWellFormed(p: Prog, f: Flat)
    requires FlatFit(p, f)
    ensures WellFormed(f.stack, f.bp, p.nmem, |p.text.units|) && |f.mem| == p.nmem
  {
  }

  /** Every turn of the loop with the undo log is a turn of the loop with snapshots. */
  lemma FlatStepRefines(p: Prog, f: Flat)
    requires FlatFit(p, f) && SnapFit(p, Abstract(p, f))
    ensures Implements(p, FlatStep(p, f), SnapStep(p, Abstract(p, f)))
  {
    hide Execute, Frames, Undo, Log, Logged, WellFormed, Backtrack, LeaveLook, LeaveNegLook, Backtracked, NegLookLeft, LookLeft, Apply, StoreAll, Store;
    match Execute(p, f.pc, Thread(f.pos, f.mem))
    case Go(pc, pos, ws) =>
      StoreAllAbstract(p, f, ws);
    case Fork(first, second, ws) =>
      FlatLog(p, f);
      StoreAllAbstract(p, f, ws);
      PushAbstract(p, StoreAll(f, ws), second, AtSplit);
    case NoMatch => BacktrackedAbstract(p, f);
    case Enter(neg, body, after) => PushAbstract(p, f, after, if neg then AtNegLook else AtLook);
    case End(EndMatch) =>
    case End(EndLook) => LookLeftAbstract(p, f);
    case End(EndNegLook) => NegLookLeftAbstract(p, f);
    case Stuck =>
  }

  lemma FlatStepIs(p: Prog, f: Flat)
    requires FlatFit(p, f) && f.pc >= 0 && Decode(p.code, f.pc) != OpInvalid
    ensures Fit(p, Thread(f.pos, f.mem))
    ensures FlatStep(p, f) == Carry(p, f, Effects(p, Decode(p.code, f.pc), f.pc + LengthAt(p.code, f.pc), Thread(f.pos, f.mem)))
  {
    hide Effects, Decode, LengthAt, Carry;
  }

  lemma CarryPlain(p: Prog, f: Flat, pc: int, pos: nat)
    requires FlatFit(p, f) && pos <= |p.text.units|
    ensures Carry(p, f, Go(pc, pos, [])) == On(f.(pc := pc, pos := pos)) && FlatFit(p, f.(pc := pc, pos := pos))
  {
    hide WellFormed;
  }

  lemma CarryStore(p: Prog, f: Flat, pc: int, w: Write)
    requires FlatFit(p, f) && w.idx < p.nmem && f.bp <= |f.stack| && Log(f.stack[f.bp..], |f.mem|)
    ensures Carry(p, f, Go(pc, f.pos, [w])) == On(Store(f, w).(pc := pc))
    ensures FlatFit(p, Store(f, w).(pc := pc))
  {
    hide WellFormed, Store, Log, Undo;
    StoreOne(f, w);
    StoreAbstract(p, f, w);
  }

  lemma StoreOne(f: Flat, w: Write)
    requires w.idx < |f.mem| && f.bp <= |f.stack| && Log(f.stack[f.bp..], |f.mem|)
    ensures WritesFit([w], |f.mem|) && StoreAll(f, [w]) == Store(f, w)
    ensures Store(f, w).bp == f.bp && Store(f, w).pos == f.pos && Store(f, w).pc == f.pc
  {
    hide Log, Logged, Undo;
    StoreLogs(f, w);
    assert [w][1..] == [];
    assert StoreAll(Store(f, w), []) == Store(f, w);
  }

  /** A store before a failure is undone by it. */
  lemma BacktrackedStored(p: Prog, f: Flat, w: Write)
    requires FlatFit(p, f) && w.idx < p.nmem && f.bp <= |f.stack| && Log(f.stack[f.bp..], |f.mem|)
    ensures FlatFit(p, Store(f, w))
    ensures Backtracked(Store(f, w), p.nmem, |p.text.units|) == Backtracked(f, p.nmem, |p.text.units|)
  {
    hide Undo, Log, Logged, Frames, Store, WellFormed, Backtracked;
    var g := Store(f, w);
    StoreLogs(f, w);
    StoreAbstract(p, f, w);
    BacktrackedSame(f, g, p.nmem, |p.text.units|);
  }

  lemma BacktrackedSame(f: Flat, g: Flat, n: nat, len: nat)
    requires |f.mem| == n && WellFormed(f.stack, f.bp, n, len) && |g.mem| == n && WellFormed(g.stack, g.bp, n, len)
    requires f.bp == g.bp <= |f.stack| && g.bp <= |g.stack| && f.stack[..f.bp] == g.stack[..g.bp]
    requires Log(f.stack[f.bp..], n) && Log(g.stack[g.bp..], n) && Undo(f.mem, f.stack[f.bp..]) == Undo(g.mem, g.stack[g.bp..])
    ensures Backtracked(f, n, len) == Backtracked(g, n, len)
  {
    hide Undo, Log, WellFormed;
    WellFormedIs(f.stack, f.bp, n, len);
    WellFormedIs(g.stack, g.bp, n, len);
    var bp := f.bp;
    if bp != 0 {
      assert g.stack[..bp - 3] == g.stack[..bp][..bp - 3] == f.stack[..bp - 3];
      assert g.stack[bp - 3] == g.stack[..bp][bp - 3] && g.stack[bp - 2] == g.stack[..bp][bp - 2] && g.stack[bp - 1] == g.stack[..bp][bp - 1];
      assert f.stack[bp - 3] == f.stack[..bp][bp - 3] && f.stack[bp - 2] == f.stack[..bp][bp - 2] && f.stack[bp - 1] == f.stack[..bp][bp - 1];
      assert Popped(g, n, len) == Popped(f, n, len);
    }
  }
}
