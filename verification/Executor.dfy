/** lre_exec and lre_exec_backtrack: the interpreter loop over its registers, `capture[]` and its stack. */
module Executor {
  import opened Words
  import opened Bytecode
  import opened Syntax
  import opened Text
  import Ecma
  import opened Machine
  import opened Relation
  import opened SimulationBase
  import opened Programs
  import opened Snapshot
  import opened UndoLog
  import opened Halting
  import Classes

  /** The states of the loop's `switch`: go on, or return 1 or 0. */
  datatype Status = Going | Returns1 | Returns0

  // ----- the intermediate form of the stack in lookahead_match

  /** The third word of each popped frame has been overwritten with the end of the segment above it. */
  ghost predicate Chained(a: seq<Elem>, pos: nat, top: nat)
    requires top <= |a|
    decreases top - pos
  {
    pos == top || (pos + 3 <= top && a[pos + 2].Word? && pos + 3 <= a[pos + 2].v <= top && Chained(a, a[pos + 2].v, top))
  }

  /** The segments, without the frames. */
  ghost function Segments(a: seq<Elem>, pos: nat, top: nat): seq<Elem>
    requires top <= |a| && Chained(a, pos, top)
    decreases top - pos
  {
    if pos == top then [] else a[pos + 3..a[pos + 2].v] + Segments(a, a[pos + 2].v, top)
  }

  lemma {:induction false} ChainedSame(a: seq<Elem>, b: seq<Elem>, pos: nat, top: nat)
    requires top <= |a| && top <= |b| && Chained(a, pos, top) && forall k :: pos <= k < top ==> a[k] == b[k]
    ensures Chained(b, pos, top) && Segments(b, pos, top) == Segments(a, pos, top)
    decreases top - pos
  {
    if pos != top {
      ChainedSame(a, b, a[pos + 2].v, top);
      assert a[pos + 3..a[pos + 2].v] == b[pos + 3..b[pos + 2].v];
    }
  }

  /** What lookahead_match still has to find, given the segments it has passed. */
  ghost predicate Passed(all: Kept, orig: seq<Elem>, sp: nat, bp: nat, n: nat, len: nat, log: seq<Elem>)
    requires sp <= |orig|
  {
    && WellFormed(orig[..sp], bp, n, len)
    && var k := Squeeze(orig[..sp], bp, n, len);
       k.Kept? && all == k.(log := k.log + log)
  }

  lemma PassedNone(all: Kept, orig: seq<Elem>, bp: nat, n: nat, len: nat)
    requires WellFormed(orig, bp, n, len) && all == Squeeze(orig, bp, n, len) && all.Kept?
    ensures Chained(orig, |orig|, |orig|) && Segments(orig, |orig|, |orig|) == []
    ensures Passed(all, orig, |orig|, bp, n, len, [])
  {
    hide WellFormed, Squeeze;
    assert orig[..|orig|] == orig;
    assert all.log + [] == all.log;
  }

  lemma PassFrame(all: Kept, orig: seq<Elem>, sp: nat, bp: nat, n: nat, len: nat, log: seq<Elem>)
    requires sp <= |orig| && Passed(all, orig, sp, bp, n, len, log)
    ensures 3 <= bp <= sp && orig[bp - 3].Word? && 0 <= orig[bp - 2].v <= len && orig[bp - 2].Word? && orig[bp - 1].Link?
    ensures if orig[bp - 1].kind == AtLook
            then all == Kept(orig[..bp - 3], orig[bp..sp] + log, orig[bp - 3].v, orig[bp - 2].v, orig[bp - 1].bp)
            else Passed(all, orig, bp - 3, orig[bp - 1].bp, n, len, orig[bp..sp] + log)
  {
    hide Log;
    var s := orig[..sp];
    WellFormedIs(s, bp, n, len);
    assert s[bp..] == orig[bp..sp] && s[..bp - 3] == orig[..bp - 3];
    assert s[bp - 3] == orig[bp - 3] && s[bp - 2] == orig[bp - 2] && s[bp - 1] == orig[bp - 1];
    if orig[bp - 1].kind != AtLook {
      var k := Squeeze(orig[..bp - 3], orig[bp - 1].bp, n, len);
      assert k.log + (orig[bp..sp] + log) == (k.log + orig[bp..sp]) + log;
    }
  }

  /** One frame popped: its third word now links to the segments passed so far. */
  lemma PassStep(all: Kept, orig: seq<Elem>, a: seq<Elem>, sp: nat, bp: nat, top: nat, n: nat, len: nat)
    requires |a| == |orig| == top && sp <= top && a[..sp] == orig[..sp] && Chained(a, sp, top)
    requires Passed(all, orig, sp, bp, n, len, Segments(a, sp, top))
    ensures 3 <= bp <= sp && a[bp - 3].Word? && 0 <= a[bp - 2].v <= len && a[bp - 2].Word? && a[bp - 1].Link?
    ensures var b := a[bp - 1 := Word(sp)];
            && b[..bp - 3] == orig[..bp - 3]
            && Chained(b, bp - 3, top)
            && if a[bp - 1].kind == AtLook
               then all == Kept(orig[..bp - 3], Segments(b, bp - 3, top), a[bp - 3].v, a[bp - 2].v, a[bp - 1].bp)
               else Passed(all, orig, bp - 3, a[bp - 1].bp, n, len, Segments(b, bp - 3, top))
  {
    hide Passed;
    PassFrame(all, orig, sp, bp, n, len, Segments(a, sp, top));
    assert forall k :: 0 <= k < sp ==> a[k] == a[..sp][k] == orig[k];
    var b := a[bp - 1 := Word(sp)];
    ChainedSame(a, b, sp, top);
    assert b[bp..sp] == orig[bp..sp];
  }

  /** The next frame of the chain is stepped over and its segment taken off. */
  lemma ChainStep(a: seq<Elem>, pos: nat, top: nat)
    requires top <= |a| && pos < top && Chained(a, pos, top)
    ensures pos + 3 <= top && a[pos + 2].Word? && pos + 3 <= a[pos + 2].v <= top && Chained(a, a[pos + 2].v, top)
    ensures Segments(a, pos, top) == a[pos + 3..a[pos + 2].v] + Segments(a, a[pos + 2].v, top)
  {
  }

  lemma ChainEnd(a: seq<Elem>, top: nat)
    requires top <= |a|
    ensures Chained(a, top, top) && Segments(a, top, top) == []
  {
  }

  // ----- the loops inside single instructions

  lemma BisectStep(vs: seq<int>, c: nat, lo: nat, hi: int)
    requires -1 <= hi < |vs| / 2 && |vs| >= 2 && vs[0] <= c
    ensures lo > hi && hi >= 0 ==> !Bisect(vs, c, lo, hi)
    ensures 0 <= lo <= hi ==> var mid := (lo + hi) / 2;
              && 0 <= 2 * mid && 2 * mid + 1 < |vs| && lo <= mid <= hi
              && (c < vs[2 * mid] ==> mid > 0 && Bisect(vs, c, lo, hi) == Bisect(vs, c, lo, mid - 1))
              && (c > vs[2 * mid + 1] && c >= vs[2 * mid] ==> Bisect(vs, c, lo, hi) == Bisect(vs, c, mid + 1, hi))
              && (vs[2 * mid] <= c <= vs[2 * mid + 1] ==> Bisect(vs, c, lo, hi))
  {
  }

  /** One of the pairs contains the character, or the last one has no end. */
  ghost predicate Member(vs: seq<int>, c: nat, short: bool)
    requires |vs| >= 2 && |vs| % 2 == 0
  {
    (exists i :: Classes.Hit(vs, c, i)) || (short && c >= 0xffff && vs[|vs| - 1] == 0xffff)
  }

  lemma RangeIsMember(vs: seq<int>, c: nat, short: bool)
    requires |vs| >= 2 && |vs| % 2 == 0
    ensures Classes.Ordered(vs) ==> ((if short then InRange16(vs, c) else InRange32(vs, c)) <==> Member(vs, c, short))
  {
    hide Bisect, Classes.Hit;
    if Classes.Ordered(vs) {
      Classes.RangeFinds(vs, c);
      assert vs[0] <= vs[|vs| - 1];
    }
  }

  /** The binary search of the range opcodes. */
  method SearchRange(vs: seq<int>, c: nat, short: bool) returns (hit: bool)
    requires |vs| >= 2 && |vs| % 2 == 0
    ensures hit == if short then InRange16(vs, c) else InRange32(vs, c)
    ensures Classes.Ordered(vs) ==> (hit <==> Member(vs, c, short))
  {
    hide Bisect, Member, Classes.Ordered;
    RangeIsMember(vs, c, short);
    var idxMin: nat, idxMax: nat := 0, |vs| / 2 - 1;
    if c < vs[0] { return false; }
    var high := vs[2 * idxMax + 1];
    if short && c >= 0xffff && high == 0xffff { return true; }
    if c > high { return false; }
    ghost var goal := Bisect(vs, c, 0, |vs| / 2 - 1);
    assert (if short then InRange16(vs, c) else InRange32(vs, c)) == goal;
    while idxMin <= idxMax
      invariant idxMax < |vs| / 2 && Bisect(vs, c, idxMin, idxMax) == goal
      decreases idxMax + 1 - idxMin
    {
      BisectStep(vs, c, idxMin, idxMax);
      var idx := (idxMin + idxMax) / 2;
      if c < vs[2 * idx] {
        idxMax := idx - 1;
      } else if c > vs[2 * idx + 1] {
        idxMin := idx + 1;
      } else {
        return true;
      }
    }
    BisectStep(vs, c, idxMin, idxMax);
    return false;
  }

  /** The comparison loop of a forward reference. */
  method CompareForwards(s: Text, start: nat, end: nat, pos: nat) returns (r: Compared)
    requires end <= |s.units| && pos <= |s.units|
    ensures r == CompareForward(s, start, end, pos)
  {
    var cptr1: nat, cptr: nat := start, pos;
    while cptr1 < end
      invariant cptr <= |s.units|
      invariant CompareForward(s, cptr1, end, cptr) == CompareForward(s, start, end, pos)
      decreases |s.units| - cptr
    {
      if cptr >= |s.units| { return Differs; }
      var c1, c2 := CharBefore(s, cptr1, end), CharAt(s, cptr);
      if c1 != c2 { return Differs; }
      cptr1, cptr := NextBefore(s, cptr1, end), NextPos(s, cptr);
    }
    return Same(cptr);
  }

  method CompareBackwards(s: Text, start: nat, end: nat, pos: nat) returns (r: Compared)
    requires end <= |s.units| && pos <= |s.units|
    ensures r == CompareBackward(s, start, end, pos)
  {
    var cptr1: nat, cptr: nat := end, pos;
    while cptr1 > start
      invariant cptr <= |s.units| && cptr1 <= |s.units|
      invariant CompareBackward(s, start, cptr1, cptr) == CompareBackward(s, start, end, pos)
      decreases cptr
    {
      if cptr == 0 { return Differs; }
      var c1, c2 := CharAfter(s, cptr1, start), CharAfter(s, cptr, 0);
      if c1 != c2 { return Differs; }
      cptr1, cptr := PrevAfter(s, cptr1, start), PrevPos(s, cptr);
    }
    return Same(cptr);
  }

  class ExecContext {
    const p: Prog
    var capture: array<int>
    var stackBuf: array<Elem>
    var sp: nat
    var bp: nat
    var pc: int
    var cptr: nat

    ghost function State(): Flat
      requires sp <= stackBuf.Length
      reads this, capture, stackBuf
    {
      Flat(pc, cptr, capture[..], stackBuf[..sp], bp)
    }

    ghost predicate Valid()
      reads this, capture, stackBuf
    {
      sp <= stackBuf.Length && FlatFit(p, State())
    }

    lemma StateIs()
      requires Valid()
      ensures sp <= stackBuf.Length && FlatFit(p, State()) && capture.Length == p.nmem
      ensures State().mem == capture[..] && State().pos == cptr <= |p.text.units| && State().pc == pc && State().bp == bp
    {
      FlatLog(p, State());
    }

    /** lre_exec: every capture cell is NULL; the registers are not initialised. */
    constructor (prog: Prog, start: nat)
      requires 2 * prog.ncap <= prog.nmem && start <= |prog.text.units|
      ensures Valid() && p == prog && fresh(capture) && fresh(stackBuf)
      ensures State() == Flat(0, start, capture[..], [], 0)
      ensures capture.Length == p.nmem && forall k :: 0 <= k < 2 * p.ncap ==> capture[k] == NULL
    {
      p := prog;
      capture := new int[prog.nmem];
      stackBuf := new Elem[32](_ => Word(0));
      sp, bp, pc, cptr := 0, 0, 0, start;
      new;
      for i := 0 to 2 * p.ncap
        invariant capture.Length == p.nmem && fresh(capture) && fresh(stackBuf) && sp == bp == 0 && pc == 0 && cptr == start
        invariant forall k :: 0 <= k < i ==> capture[k] == NULL
        modifies capture
      {
        capture[i] := NULL;
      }
    }

    /** CHECK_STACK_SPACE and stack_realloc: the contents move, the indices stay. */
    method CheckStackSpace(n: nat)
      requires sp <= stackBuf.Length
      modifies this`stackBuf
      ensures stackBuf == old(stackBuf) || fresh(stackBuf)
      ensures sp + n <= stackBuf.Length && stackBuf[..sp] == old(stackBuf[..sp])
    {
      if stackBuf.Length - sp < n {
        var newSize := stackBuf.Length * 3 / 2;
        if newSize < sp + n { newSize := sp + n; }
        var newStack := new Elem[newSize](_ => Word(0));
        for i := 0 to sp
          invariant stackBuf == old(stackBuf)
          invariant forall k :: 0 <= k < i ==> newStack[k] == stackBuf[k]
        {
          newStack[i] := stackBuf[i];
        }
        stackBuf := newStack;
      }
    }

    /** The log entry of a store. */
    method LogEntry(idx: nat)
      requires sp <= stackBuf.Length && idx < capture.Length
      modifies this`sp, this`stackBuf, stackBuf
      ensures stackBuf == old(stackBuf) || fresh(stackBuf)
      ensures sp == old(sp) + 2 <= stackBuf.Length
      ensures stackBuf[..sp] == old(stackBuf[..sp]) + [Word(idx), Word(capture[idx])]
    {
      CheckStackSpace(2);
      stackBuf[sp], stackBuf[sp + 1] := Word(idx), Word(capture[idx]);
      sp := sp + 2;
    }

    /** SAVE_CAPTURE, and SAVE_CAPTURE_CHECK when `once` is set. */
    method SaveCapture(idx: nat, value: int, once: bool)
      requires Valid() && idx < p.nmem
      modifies this, capture, stackBuf
      ensures Valid() && capture == old(capture) && (stackBuf == old(stackBuf) || fresh(stackBuf))
      ensures State() == Store(old(State()), Write(idx, value, once))
    {
      hide FlatFit, WellFormed, Frames, Log, Logged, Undo;
      ghost var f := State();
      FlatLog(p, f);
      StoreAbstract(p, f, Write(idx, value, once));
      assert f.stack[f.bp..] == stackBuf[bp..sp];
      var found := false;
      if once {
        found := FindSaved(idx);
      }
      if !found {
        LogEntry(idx);
      }
      capture[idx] := value;
      assert capture[..] == f.mem[idx := value];
      assert State() == Store(f, Write(idx, value, once));
    }

    /** The scan of SAVE_CAPTURE_CHECK down to the last frame. */
    method FindSaved(idx: nat) returns (found: bool)
      requires Valid()
      ensures Log(stackBuf[bp..sp], p.nmem)
      ensures found == Logged(stackBuf[bp..sp], idx, p.nmem)
    {
      FlatLog(p, State());
      assert State().stack[bp..] == stackBuf[bp..sp];
      var sp1 := sp;
      while sp1 > bp
        invariant bp <= sp1 <= sp && Log(stackBuf[bp..sp1], p.nmem)
        invariant Logged(stackBuf[bp..sp], idx, p.nmem) == Logged(stackBuf[bp..sp1], idx, p.nmem)
      {
        assert stackBuf[bp..sp1][..sp1 - bp - 2] == stackBuf[bp..sp1 - 2];
        if stackBuf[sp1 - 2].v == idx { return true; }
        sp1 := sp1 - 2;
      }
      return false;
    }

    /** A new choice point. */
    method PushState(pc1: int, kind: FrameKind)
      requires Valid()
      modifies this, stackBuf
      ensures Valid() && capture == old(capture) && (stackBuf == old(stackBuf) || fresh(stackBuf))
      ensures State() == Push(old(State()), pc1, kind)
    {
      ghost var f := State();
      PushAbstract(p, f, pc1, kind);
      CheckStackSpace(3);
      stackBuf[sp], stackBuf[sp + 1], stackBuf[sp + 2] := Word(pc1), Word(cptr), Link(bp, kind);
      sp := sp + 3;
      bp := sp;
      assert stackBuf[..sp] == f.stack + [Word(pc1), Word(f.pos), Link(f.bp, kind)];
    }

    /** Undo the modifications to `capture[]` since the last frame. */
    method UndoEntries()
      requires bp <= sp <= stackBuf.Length && Log(stackBuf[bp..sp], capture.Length)
      modifies this`sp, capture
      ensures sp == bp && capture[..] == Undo(old(capture[..]), old(stackBuf[bp..sp]))
    {
      hide Log, Undo;
      ghost var seg := stackBuf[bp..sp];
      UndoStep(old(capture[..]), seg);
      while sp > bp
        invariant bp <= sp <= stackBuf.Length && Log(stackBuf[bp..sp], capture.Length)
        invariant Undo(capture[..], stackBuf[bp..sp]) == Undo(old(capture[..]), seg)
      {
        ghost var s, before := stackBuf[bp..sp], capture[..];
        assert |s| == sp - bp;
        UndoStep(before, s);
        assert s[..|s| - 2] == stackBuf[bp..sp - 2];
        assert stackBuf[sp - 2] == s[|s| - 2] && stackBuf[sp - 1] == s[|s| - 1];
        capture[stackBuf[sp - 2].v] := stackBuf[sp - 1].v;
        assert capture[..] == before[s[|s| - 2].v := s[|s| - 1].v];
        sp := sp - 2;
      }
      UndoStep(capture[..], stackBuf[bp..sp]);
    }

    /** The common part of the three ways to leave a choice point: undo, then pop the frame. */
    method PopFrame() returns (kind: FrameKind)
      requires Valid() && bp != 0
      modifies this, capture
      ensures Valid() && capture == old(capture) && stackBuf == old(stackBuf)
      ensures State() == Popped(old(State()), p.nmem, |p.text.units|)
      ensures kind == old(State()).stack[old(bp) - 1].kind
    {
      hide WellFormed, Frames, Log, Logged, Undo;
      ghost var f := State();
      WellFormedIs(f.stack, f.bp, p.nmem, |p.text.units|);
      ghost var g := Popped(f, p.nmem, |p.text.units|);
      assert f.stack[bp..] == stackBuf[bp..sp];
      UndoEntries();
      assert forall k :: 0 <= k < sp ==> stackBuf[k] == f.stack[k];
      pc := stackBuf[sp - 3].v;
      cptr := stackBuf[sp - 2].v;
      kind := stackBuf[sp - 1].kind;
      bp := stackBuf[sp - 1].bp;
      sp := sp - 3;
      assert stackBuf[..sp] == g.stack;
    }

    /** no_match. */
    method NoMatch() returns (resumed: bool)
      requires Valid()
      modifies this, capture
      ensures Valid() && capture == old(capture) && stackBuf == old(stackBuf)
      ensures var r := Backtracked(old(State()), p.nmem, |p.text.units|);
              if resumed then r == On(State()) else r == Fail
    {
      hide WellFormed, Frames, Log, Logged, Undo, Backtracked, Popped;
      ghost var r := Backtracked(State(), p.nmem, |p.text.units|);
      while bp != 0
        invariant Valid() && capture == old(capture) && stackBuf == old(stackBuf)
        invariant Backtracked(State(), p.nmem, |p.text.units|) == r
        decreases sp
      {
        BacktrackedIs(State(), p.nmem, |p.text.units|);
        var kind := PopFrame();
        if kind != AtLook { return true; }
      }
      BacktrackedIs(State(), p.nmem, |p.text.units|);
      return false;
    }

    /** negative_lookahead_match; the program guarantees that the frame it looks for exists. */
    method NegativeLookaheadMatch() returns (resumed: bool)
      requires Valid() && NegLookLeft(State(), p.nmem, |p.text.units|) != Crash
      modifies this, capture
      ensures Valid() && capture == old(capture) && stackBuf == old(stackBuf)
      ensures var r := NegLookLeft(old(State()), p.nmem, |p.text.units|);
              if resumed then r == On(State()) else r == Fail
    {
      hide WellFormed, Frames, Log, Logged, Undo, Backtracked, Popped, NegLookLeft;
      ghost var r := NegLookLeft(State(), p.nmem, |p.text.units|);
      NegLookLeftIs(State(), p.nmem, |p.text.units|);
      var kind := PopFrame();
      while kind != AtNegLook
        invariant Valid() && capture == old(capture) && stackBuf == old(stackBuf)
        invariant r == if kind == AtNegLook then Backtracked(State(), p.nmem, |p.text.units|) else NegLookLeft(State(), p.nmem, |p.text.units|)
        decreases sp
      {
        NegLookLeftIs(State(), p.nmem, |p.text.units|);
        kind := PopFrame();
      }
      resumed := NoMatch();
    }

    /** lookahead_match, first loop: pop the frames of the body, leaving in each the end of its segment. */
    method PopLookahead(ghost all: Kept) returns (top: nat)
      requires Valid() && all == Squeeze(State().stack, bp, p.nmem, |p.text.units|) && all.Kept?
      modifies this, stackBuf
      ensures stackBuf == old(stackBuf) && capture == old(capture) && capture[..] == old(capture[..])
      ensures top == old(sp) && sp <= top <= stackBuf.Length
      ensures pc == all.pc && cptr == all.pos && bp == all.bp && stackBuf[..sp] == all.base
      ensures Chained(stackBuf[..top], sp, top) && Segments(stackBuf[..top], sp, top) == all.log
    {
      hide FlatFit, Squeeze, WellFormed, Log, Logged, Undo, Frames;
      top := sp;
      ghost var orig := State().stack;
      ghost var n, len := p.nmem, |p.text.units|;
      FlatLog(p, State());
      FlatWellFormed(p, State());
      PassedNone(all, orig, bp, n, len);
      hide Passed, Chained, Segments;
      var kind := AtSplit;
      while kind != AtLook
        invariant stackBuf == old(stackBuf) && capture == old(capture) && capture[..] == old(capture[..])
        invariant sp <= top == |orig| <= stackBuf.Length && stackBuf[..sp] == orig[..sp]
        invariant Chained(stackBuf[..top], sp, top)
        invariant if kind == AtLook
                  then all == Kept(orig[..sp], Segments(stackBuf[..top], sp, top), pc, cptr, bp)
                  else Passed(all, orig, sp, bp, n, len, Segments(stackBuf[..top], sp, top))
        decreases kind != AtLook, sp
      {
        ghost var a := stackBuf[..top];
        assert a[..sp] == orig[..sp];
        PassStep(all, orig, a, sp, bp, top, n, len);
        kind := PopLink(top);
        assert stackBuf[..sp] == stackBuf[..top][..sp];
      }
    }

    /** One frame: its words are read, and the third one becomes the end of the segment above it. */
    method PopLink(ghost top: nat) returns (kind: FrameKind)
      requires 3 <= bp <= sp <= top <= stackBuf.Length
      requires stackBuf[bp - 3].Word? && stackBuf[bp - 2].Word? && 0 <= stackBuf[bp - 2].v && stackBuf[bp - 1].Link?
      modifies this, stackBuf
      ensures stackBuf == old(stackBuf) && capture == old(capture) && capture[..] == old(capture[..])
      ensures stackBuf[..top] == old(stackBuf[..top])[old(bp) - 1 := Word(old(sp))]
      ensures sp == old(bp) - 3 && (pc, cptr) == old((stackBuf[bp - 3].v, stackBuf[bp - 2].v))
      ensures (kind, bp) == old((stackBuf[bp - 1].kind, stackBuf[bp - 1].bp))
    {
      var sp1 := sp;
      sp := bp;
      pc := stackBuf[sp - 3].v;
      cptr := stackBuf[sp - 2].v;
      kind := stackBuf[sp - 1].kind;
      bp := stackBuf[sp - 1].bp;
      stackBuf[sp - 1] := Word(sp1);
      sp := sp - 3;
    }

    /** `while (sp1 < next_sp) *sp++ = *sp1++` */
    method CopyDown(from: nat, next: nat)
      requires sp <= from <= next <= stackBuf.Length
      modifies this`sp, stackBuf
      ensures sp == old(sp) + next - from
      ensures stackBuf[..sp] == old(stackBuf[..sp]) + old(stackBuf[from..next])
      ensures forall k :: next <= k < stackBuf.Length ==> stackBuf[k] == old(stackBuf[k])
    {
      var sp1 := from;
      while sp1 < next
        invariant from <= sp1 <= next && sp == old(sp) + sp1 - from
        invariant stackBuf[..sp] == old(stackBuf[..sp]) + old(stackBuf[from..sp1])
        invariant forall k :: sp1 <= k < stackBuf.Length ==> stackBuf[k] == old(stackBuf[k])
      {
        ghost var low := stackBuf[..sp];
        stackBuf[sp] := stackBuf[sp1];
        sp, sp1 := sp + 1, sp1 + 1;
        assert stackBuf[..sp] == low + [old(stackBuf[sp1 - 1])];
        assert old(stackBuf[from..sp1]) == old(stackBuf[from..sp1 - 1]) + [old(stackBuf[sp1 - 1])];
      }
    }

    /** lookahead_match, second loop: move the segments down over the frames. */
    method SqueezeSegments(top: nat, ghost base: seq<Elem>, ghost log: seq<Elem>)
      requires sp <= top <= stackBuf.Length && stackBuf[..sp] == base
      requires Chained(stackBuf[..top], sp, top) && Segments(stackBuf[..top], sp, top) == log
      modifies this`sp, stackBuf
      ensures sp <= stackBuf.Length && stackBuf[..sp] == base + log
    {
      hide Chained, Segments;
      var sp1 := sp;
      while sp1 < top
        invariant sp <= sp1 <= top <= stackBuf.Length
        invariant Chained(stackBuf[..top], sp1, top)
        invariant stackBuf[..sp] + Segments(stackBuf[..top], sp1, top) == base + log
        decreases top - sp1
      {
        ghost var a := stackBuf[..top];
        ghost var low := stackBuf[..sp];
        ChainStep(a, sp1, top);
        var next := stackBuf[sp1 + 2].v;
        ghost var seg, rest := a[sp1 + 3..next], Segments(a, next, top);
        assert stackBuf[sp1 + 3..next] == seg;
        CopyDown(sp1 + 3, next);
        ChainedSame(a, stackBuf[..top], next, top);
        assert (low + seg) + rest == low + (seg + rest);
        sp1 := next;
      }
      ChainEnd(stackBuf[..top], top);
      assert stackBuf[..sp] + [] == stackBuf[..sp];
    }

    method LookaheadMatch()
      requires Valid() && LookLeft(State(), p.nmem, |p.text.units|) != Crash
      modifies this, stackBuf
      ensures Valid() && capture == old(capture) && stackBuf == old(stackBuf)
      ensures LookLeft(old(State()), p.nmem, |p.text.units|) == On(State())
    {
      ghost var f := State();
      LookLeftAbstract(p, f);
      FlatWellFormed(p, f);
      hide FlatFit, Squeeze, WellFormed, Log;
      ghost var all := Squeeze(f.stack, f.bp, p.nmem, |p.text.units|);
      var top := PopLookahead(all);
      if sp != 0 {
        // keep the undo info if there is a saved state
        SqueezeSegments(top, all.base, all.log);
      }
      assert State() == LookLeft(f, p.nmem, |p.text.units|).f;
    }

    // ----- the interpreter loop

    /** The status and the state that a turn of the loop leaves behind. */
    ghost predicate Shows(status: Status, r: Result)
      reads this, capture, stackBuf
    {
      && Valid()
      && match status
         case Going => r == On(State())
         case Returns1 => r.Match? && r.mem == capture[..]
         case Returns0 => r == Fail
    }

    /** `break` out of the switch: the next instruction. */
    method Next(pc1: int, pos: nat) returns (status: Status)
      requires Valid() && pos <= |p.text.units|
      modifies this`pc, this`cptr
      ensures Shows(status, Carry(p, old(State()), Go(pc1, pos, [])))
    {
      CarryPlain(p, State(), pc1, pos);
      hide FlatFit;
      pc, cptr := pc1, pos;
      status := Going;
    }

    /** `pc = pc1`, then `break`. */
    method Jump(pc1: int) returns (status: Status)
      requires Valid()
      modifies this`pc
      ensures Shows(status, On(old(State()).(pc := pc1)))
    {
      hide FlatFit;
      PcOnly(p, State(), pc1);
      pc := pc1;
      status := Going;
    }

    /** `goto no_match`. */
    method GotoNoMatch() returns (status: Status)
      requires Valid()
      modifies this, capture
      ensures capture == old(capture) && stackBuf == old(stackBuf)
      ensures Shows(status, Carry(p, old(State()), Effect.NoMatch))
    {
      FlatLog(p, State());
      hide FlatFit;
      var resumed := NoMatch();
      status := if resumed then Going else Returns0;
    }

    /** A store to a register or capture, then the next instruction. */
    method StoreNext(idx: nat, value: int, once: bool, pc1: int) returns (status: Status)
      requires Valid() && idx < p.nmem
      modifies this, capture, stackBuf
      ensures capture == old(capture) && (stackBuf == old(stackBuf) || fresh(stackBuf))
      ensures Shows(status, Carry(p, old(State()), Go(pc1, old(cptr), [Write(idx, value, once)])))
    {
      FlatLog(p, State());
      CarryStore(p, State(), pc1, Write(idx, value, once));
      hide FlatFit, Store, Carry, Log;
      SaveCapture(idx, value, once);
      pc := pc1;
      status := Going;
    }

    method StepRead(next: int, accepted: bool) returns (status: Status)
      requires Valid() && cptr < |p.text.units|
      modifies this, capture
      ensures capture == old(capture) && stackBuf == old(stackBuf)
      ensures Fit(p, Thread(old(cptr), old(capture[..])))
      ensures Shows(status, Carry(p, old(State()), Read(p, next, Thread(old(cptr), old(capture[..])), accepted)))
    {
      FlatLog(p, State());
      hide FlatFit, Carry;
      if accepted {
        status := Next(next, NextPos(p.text, cptr));
      } else {
        status := GotoNoMatch();
      }
    }

    /** The opcodes that read one character. */
    method StepChar(i: Instr, next: int) returns (status: Status)
      requires Valid() && (i.OpChar16? || i.OpChar32? || i.OpDot? || i.OpAny? || i.OpRange16? || i.OpRange32?)
      requires i.OpRange16? || i.OpRange32? ==> |i.vs| >= 2 && |i.vs| % 2 == 0
      modifies this, capture
      ensures capture == old(capture) && stackBuf == old(stackBuf)
      ensures Fit(p, Thread(old(cptr), old(capture[..])))
      ensures Shows(status, Carry(p, old(State()), Effects(p, i, next, Thread(old(cptr), old(capture[..])))))
    {
      FlatLog(p, State());
      hide FlatFit, Carry, InRange16, InRange32;
      if cptr >= |p.text.units| {
        status := GotoNoMatch();
      } else {
        var c := CharAt(p.text, cptr);
        var accepted := true;
        match i {
          case OpChar16(val) => accepted := val == c;
          case OpChar32(val) => accepted := val == c;
          case OpDot => accepted := !LineTerminator(c);
          case OpAny =>
          case OpRange16(vs) => accepted := SearchRange(vs, c, true);
          case OpRange32(vs) => accepted := SearchRange(vs, c, false);
        }
        status := StepRead(next, accepted);
      }
    }

    /** The opcodes that look at the characters around the position. */
    method StepAssertion(i: Instr, next: int) returns (status: Status)
      requires Valid() && (i.OpLineStart? || i.OpLineEnd? || i.OpWordBoundary? || i.OpPrev?)
      modifies this, capture
      ensures capture == old(capture) && stackBuf == old(stackBuf)
      ensures Fit(p, Thread(old(cptr), old(capture[..])))
      ensures Shows(status, Carry(p, old(State()), Effects(p, i, next, Thread(old(cptr), old(capture[..])))))
    {
      FlatLog(p, State());
      hide FlatFit, Carry, CharAfter, CharAt, LineTerminator, WordChar;
      var ok, q := false, cptr;
      match i {
        case OpLineStart(multi) =>
          ok := cptr == 0 || (multi && LineTerminator(CharAfter(p.text, cptr, 0)));
        case OpLineEnd(multi) =>
          ok := cptr == |p.text.units| || (multi && LineTerminator(CharAt(p.text, cptr)));
        case OpWordBoundary(neg) =>
          var v1 := cptr != 0 && WordChar(CharAfter(p.text, cptr, 0));
          var v2 := cptr < |p.text.units| && WordChar(CharAt(p.text, cptr));
          ok := (v1 != v2) != neg;
        case OpPrev =>
          ok := cptr != 0;
          if ok { q := PrevPos(p.text, cptr); }
      }
      if ok {
        status := Next(next, q);
      } else {
        status := GotoNoMatch();
      }
    }

    method StepBackRef(backward: bool, groups: seq<int>, next: int) returns (status: Status)
      requires Valid()
      requires Fit(p, Thread(cptr, capture[..])) && BackRefEffect(p, next, backward, groups, Thread(cptr, capture[..])) != Stuck
      modifies this, capture
      ensures capture == old(capture) && stackBuf == old(stackBuf)
      ensures Shows(status, Carry(p, old(State()), BackRefEffect(p, next, backward, groups, Thread(old(cptr), old(capture[..])))))
    {
      hide FlatFit, Carry;
      ghost var t := Thread(cptr, capture[..]);
      ghost var e := BackRefEffect(p, next, backward, groups, t);
      var i := 0;
      while i < |groups|
        invariant 0 <= i <= |groups| && State() == old(State()) && Valid() && capture == old(capture) && stackBuf == old(stackBuf)
        invariant BackRefEffect(p, next, backward, groups[i..], t) == e
      {
        var val := groups[i];
        if val < 0 || val >= p.ncap {
          status := GotoNoMatch();
          return;
        }
        var start, end := capture[2 * val], capture[2 * val + 1];
        assert groups[i..][1..] == groups[i + 1..];
        if start != NULL && end != NULL {
          var r;
          if backward {
            r := CompareBackwards(p.text, start, end, cptr);
          } else {
            r := CompareForwards(p.text, start, end, cptr);
          }
          if r.Differs? {
            status := GotoNoMatch();
          } else {
            status := Next(next, r.pos);
          }
          return;
        }
        i := i + 1;
      }
      status := Next(next, cptr);
    }

    method StepRegister(i: Instr, next: int) returns (status: Status)
      requires Valid() && (i.OpSetI32? || i.OpSetCharPos? || i.OpCheckAdvance? || i.OpLoop? || i.OpSave?)
      requires Fit(p, Thread(cptr, capture[..])) && Effects(p, i, next, Thread(cptr, capture[..])) != Stuck
      modifies this, capture, stackBuf
      ensures capture == old(capture) && (stackBuf == old(stackBuf) || fresh(stackBuf))
      ensures Shows(status, Carry(p, old(State()), Effects(p, i, next, Thread(old(cptr), old(capture[..])))))
    {
      hide FlatFit, Carry;
      match i {
        case OpSave(isEnd, n) =>
          status := StoreNext(2 * n + Bit(isEnd), cptr, false, next);
        case OpSetI32(r, v) =>
          status := StoreNext(2 * p.ncap + r, v, true, next);
        case OpSetCharPos(r) =>
          status := StoreNext(2 * p.ncap + r, cptr, true, next);
        case OpCheckAdvance(r) =>
          if capture[2 * p.ncap + r] == cptr {
            status := GotoNoMatch();
          } else {
            status := Next(next, cptr);
          }
        case OpLoop(r, off) =>
          var idx := 2 * p.ncap + r;
          var val2 := (capture[idx] - 1) % 0x1_0000_0000;
          status := StoreNext(idx, val2, true, if val2 != 0 then next + off else next);
      }
    }

    method StepSaveReset(first: nat, last: int, next: int) returns (status: Status)
      requires Valid() && last < p.ncap && 2 * last + 1 < p.nmem && WritesFit(ResetWrites(first, last), p.nmem)
      modifies this, capture, stackBuf
      ensures capture == old(capture) && (stackBuf == old(stackBuf) || fresh(stackBuf))
      ensures Shows(status, Carry(p, old(State()), Go(next, old(cptr), ResetWrites(first, last))))
    {
      hide *;
      StateIs();
      ghost var f := State();
      FlatLog(p, f);
      CarryGo(p, f, next, ResetWrites(first, last));
      var val := first;
      while val <= last
        invariant first <= val && Valid() && capture == old(capture) && (stackBuf == old(stackBuf) || fresh(stackBuf))
        invariant sp <= stackBuf.Length && |State().mem| == p.nmem && WritesFit(ResetWrites(val, last), p.nmem)
        invariant State().bp <= |State().stack| && Log(State().stack[State().bp..], |State().mem|)
        invariant StoreAll(State(), ResetWrites(val, last)) == StoreAll(f, ResetWrites(first, last))
        decreases last - val
      {
        SaveGroup(val, last);
        val := val + 1;
      }
      ResetNone(State(), val, last);
      status := Jump(next);
    }

    method SaveGroup(val: nat, ghost last: int)
      requires Valid() && val <= last && 2 * last + 1 < p.nmem && WritesFit(ResetWrites(val, last), p.nmem)
      requires sp <= stackBuf.Length && |State().mem| == p.nmem
      requires State().bp <= |State().stack| && Log(State().stack[State().bp..], |State().mem|)
      modifies this, capture, stackBuf
      ensures Valid() && capture == old(capture) && (stackBuf == old(stackBuf) || fresh(stackBuf))
      ensures sp <= stackBuf.Length && |State().mem| == p.nmem && WritesFit(ResetWrites(val + 1, last), p.nmem)
      ensures State().bp <= |State().stack| && Log(State().stack[State().bp..], |State().mem|)
      ensures StoreAll(State(), ResetWrites(val + 1, last)) == StoreAll(old(State()), ResetWrites(val, last))
    {
      hide *;
      StateIs();
      ghost var g := State();
      ResetOne(p, g, val, last);
      SaveCapture(2 * val, NULL, false);
      StateIs();
      SaveCapture(2 * val + 1, NULL, false);
      StateIs();
      PairIs(g, val);
    }

    method StepLoopSplit(checkAdv: bool, nextFirst: bool, r: int, limit: int, off: int, next: int) returns (status: Status)
      requires Valid() && Fit(p, Thread(cptr, capture[..]))
      requires Effects(p, OpLoopSplit(checkAdv, nextFirst, r, limit, off), next, Thread(cptr, capture[..])) != Stuck
      modifies this, capture, stackBuf
      ensures capture == old(capture) && (stackBuf == old(stackBuf) || fresh(stackBuf))
      ensures Shows(status, Carry(p, old(State()), Effects(p, OpLoopSplit(checkAdv, nextFirst, r, limit, off), next, Thread(old(cptr), old(capture[..])))))
    {
      hide *;
      StateIs();
      ghost var f := State();
      FlatLog(p, f);
      LoopSplitCarry(p, f, checkAdv, nextFirst, r, limit, off, next);
      var idx := 2 * p.ncap + r;
      var val2 := (capture[idx] - 1) % 0x1_0000_0000;
      StoreElsewhere(f, idx, val2);
      // decrement the counter
      SaveCapture(idx, val2, true);
      StateIs();
      ghost var g := State();
      CarryNoMatch(p, g);
      var forward := if nextFirst then next else next + off;
      var later := if nextFirst then next + off else next;
      if val2 > limit {
        // normal loop if counter > limit
        status := Jump(next + off);
      } else if checkAdv && capture[idx + 1] == cptr && val2 != limit {
        status := GotoNoMatch();
      } else if val2 != 0 {
        // otherwise conditional split
        PushState(later, AtSplit);
        status := Jump(forward);
      } else {
        status := Jump(next);
      }
    }

    /** The opcodes that only work on the control state. */
    method StepControl(i: Instr, next: int) returns (status: Status)
      requires Valid() && (i.OpGoto? || i.OpSplit? || i.OpLook? || i.OpMatch? || i.OpLookMatch?)
      requires Fit(p, Thread(cptr, capture[..])) && Carry(p, State(), Effects(p, i, next, Thread(cptr, capture[..]))) != Crash
      modifies this, capture, stackBuf
      ensures capture == old(capture) && (stackBuf == old(stackBuf) || fresh(stackBuf))
      ensures Shows(status, Carry(p, old(State()), Effects(p, i, next, Thread(old(cptr), old(capture[..])))))
    {
      hide FlatFit, Frames, Backtracked, NegLookLeft, LookLeft;
      match i {
        case OpGoto(off) =>
          FlatLog(p, State());
          status := Next(next + off, cptr);
        case OpSplit(nextFirst, off) =>
          var pc1 := if nextFirst then next + off else next;
          PushState(pc1, AtSplit);
          PcOnly(p, State(), if nextFirst then next else next + off);
          pc := if nextFirst then next else next + off;
          status := Going;
        case OpLook(neg, off) =>
          PushState(next + off, if neg then AtNegLook else AtLook);
          PcOnly(p, State(), next);
          pc := next;
          status := Going;
        case OpMatch =>
          status := Returns1;
        case OpLookMatch(neg) =>
          FlatLog(p, State());
          if neg {
            FlatWellFormed(p, State());
            var resumed := NegativeLookaheadMatch();
            status := if resumed then Going else Returns0;
          } else {
            LookaheadMatch();
            status := Going;
          }
      }
    }

    /** One turn of the interpreter loop. */
    method Step() returns (status: Status)
      requires Valid() && FlatStep(p, State()) != Crash
      modifies this, capture, stackBuf
      ensures capture == old(capture) && (stackBuf == old(stackBuf) || fresh(stackBuf))
      ensures Shows(status, FlatStep(p, old(State())))
    {
      hide *;
      StateIs();
      ghost var f := State();
      ghost var t := Thread(cptr, capture[..]);
      NotCrashed(p, f);
      var i := Decode(p.code, pc);
      var next := pc + LengthAt(p.code, pc);
      FlatStepIs(p, f);
      EffectsOf(p, i, next, t);
      if i.OpChar16? || i.OpChar32? || i.OpDot? || i.OpAny? || i.OpRange16? || i.OpRange32? {
        status := StepChar(i, next);
      } else if i.OpLineStart? || i.OpLineEnd? || i.OpWordBoundary? || i.OpPrev? {
        status := StepAssertion(i, next);
      } else if i.OpBackRef? {
        status := StepBackRef(i.backward, i.groups, next);
      } else if i.OpSaveReset? {
        status := StepSaveReset(i.first, i.last, next);
      } else if i.OpLoopSplit? {
        status := StepLoopSplit(i.checkAdv, i.nextFirst, i.r, i.limit, i.off, next);
      } else if i.OpGoto? || i.OpSplit? || i.OpLook? || i.OpMatch? || i.OpLookMatch? {
        status := StepControl(i, next);
      } else {
        status := StepRegister(i, next);
      }
    }

    /** lre_exec_backtrack: 1 with the captures of the match, or 0; `n` bounds the turns of the loop. */
    method Run(ghost n: nat) returns (ret: bool)
      requires Valid() && (Turns(p, State(), n).Match? || Turns(p, State(), n).Fail?)
      modifies this, capture, stackBuf
      ensures capture == old(capture)
      ensures var r := Turns(p, old(State()), n); if ret then r.Match? && r.mem == capture[..] else r == Fail
    {
      hide FlatFit, FlatStep;
      ghost var left := n;
      ghost var goal := Turns(p, State(), n);
      while true
        invariant Valid() && capture == old(capture) && (stackBuf == old(stackBuf) || fresh(stackBuf))
        invariant Turns(p, State(), left) == goal
        decreases left
      {
        var status := Step();
        if status == Returns1 { return true; }
        if status == Returns0 { return false; }
        left := left - 1;
      }
    }
  }

  /** The two stores of one group of a reset. */
  function StorePair(g: Flat, val: nat): Flat
    requires 2 * val + 1 < |g.mem| && g.bp <= |g.stack| && Log(g.stack[g.bp..], |g.mem|)
  {
    StoreLogs(g, Write(2 * val, NULL, false));
    Store(Store(g, Write(2 * val, NULL, false)), Write(2 * val + 1, NULL, false))
  }

  lemma PairIs(g: Flat, val: nat)
    requires 2 * val + 1 < |g.mem| && g.bp <= |g.stack| && Log(g.stack[g.bp..], |g.mem|)
    ensures var g1 := Store(g, Write(2 * val, NULL, false));
            g1.bp <= |g1.stack| && |g1.mem| == |g.mem| && Log(g1.stack[g1.bp..], |g1.mem|)
            && StorePair(g, val) == Store(g1, Write(2 * val + 1, NULL, false))
  {
    hide Store, Log;
    StoreLogs(g, Write(2 * val, NULL, false));
  }

  lemma CarryGo(p: Prog, f: Flat, pc: int, ws: seq<Write>)
    requires FlatFit(p, f) && WritesFit(ws, p.nmem) && f.bp <= |f.stack| && Log(f.stack[f.bp..], |f.mem|)
    ensures Carry(p, f, Go(pc, f.pos, ws)) == On(StoreAll(f, ws).(pc := pc))
  {
    hide StoreAll, WellFormed, Log, WritesFit, Frames;
    FlatLog(p, f);
    StoreAllAbstract(p, f, ws);
  }

  lemma ResetOne(p: Prog, g: Flat, val: nat, last: int)
    requires FlatFit(p, g) && val <= last && 2 * last + 1 < p.nmem
    requires WritesFit(ResetWrites(val, last), p.nmem) && g.bp <= |g.stack| && Log(g.stack[g.bp..], |g.mem|) && |g.mem| == p.nmem
    ensures var g2 := StorePair(g, val);
            && FlatFit(p, g2) && |g2.mem| == p.nmem && g2.bp <= |g2.stack| && Log(g2.stack[g2.bp..], |g2.mem|) && g2.pos == g.pos
            && WritesFit(ResetWrites(val + 1, last), p.nmem)
            && StoreAll(g, ResetWrites(val, last)) == StoreAll(g2, ResetWrites(val + 1, last))
  {
    hide Store, Log, Frames, WellFormed, Undo, FlatFit;
    var w1, w2 := Write(2 * val, NULL, false), Write(2 * val + 1, NULL, false);
    var all, rest := ResetWrites(val, last), ResetWrites(val + 1, last);
    assert all == [w1, w2] + rest && all[1..] == [w2] + rest && all[1..][1..] == rest;
    ResetWritesFit(val + 1, last, p.nmem);
    StoreLogs(g, w1);
    StoreLogs(Store(g, w1), w2);
    StoreAbstract(p, g, w1);
    StoreAbstract(p, Store(g, w1), w2);
  }

  lemma CarryNoMatch(p: Prog, f: Flat)
    requires FlatFit(p, f)
    ensures WellFormed(f.stack, f.bp, p.nmem, |p.text.units|) && |f.mem| == p.nmem
    ensures Carry(p, f, Effect.NoMatch) == Backtracked(f, p.nmem, |p.text.units|)
  {
  }

  lemma StoreElsewhere(f: Flat, idx: nat, v: int)
    requires idx < |f.mem| && f.bp <= |f.stack| && Log(f.stack[f.bp..], |f.mem|)
    ensures var g := Store(f, Write(idx, v, true));
            |g.mem| == |f.mem| && g.pos == f.pos && forall k :: 0 <= k < |f.mem| && k != idx ==> g.mem[k] == f.mem[k]
  {
    hide Log, Logged;
  }

  lemma ResetNone(g: Flat, val: nat, last: int)
    requires val > last && WritesFit(ResetWrites(val, last), |g.mem|) && g.bp <= |g.stack| && Log(g.stack[g.bp..], |g.mem|)
    ensures StoreAll(g, ResetWrites(val, last)) == g
  {
  }

  /** The loop_split opcodes, in terms of the state after the counter has been stored. */
  lemma LoopSplitCarry(p: Prog, f: Flat, checkAdv: bool, nextFirst: bool, r: int, limit: int, off: int, next: int)
    requires FlatFit(p, f) && Fit(p, Thread(f.pos, f.mem)) && f.bp <= |f.stack| && Log(f.stack[f.bp..], |f.mem|)
    requires Effects(p, OpLoopSplit(checkAdv, nextFirst, r, limit, off), next, Thread(f.pos, f.mem)) != Stuck
    ensures var idx := 2 * p.ncap + r;
            var e := Effects(p, OpLoopSplit(checkAdv, nextFirst, r, limit, off), next, Thread(f.pos, f.mem));
            && 0 <= idx < p.nmem == |f.mem| && (checkAdv ==> idx + 1 < p.nmem)
            && var v := (f.mem[idx] - 1) % 0x1_0000_0000;
               var g := Store(f, Write(idx, v, true));
               FlatFit(p, g)
               && Carry(p, f, e)
                  == if v > limit then On(g.(pc := next + off))
                     else if checkAdv && f.mem[idx + 1] == f.pos && v != limit then Backtracked(g, p.nmem, |p.text.units|)
                     else if v == 0 then On(g.(pc := next))
                     else if nextFirst then On(Push(g, next + off, AtSplit).(pc := next))
                     else On(Push(g, next, AtSplit).(pc := next + off))
  {
    hide Store, Log, Frames, WellFormed, Undo, Backtracked, Push;
    var idx := 2 * p.ncap + r;
    var w := Write(idx, (f.mem[idx] - 1) % 0x1_0000_0000, true);
    StoreOne(f, w);
    StoreAbstract(p, f, w);
    BacktrackedStored(p, f, w);
  }

  /** Changing the program counter only. */
  lemma PcOnly(p: Prog, f: Flat, pc: int)
    requires FlatFit(p, f)
    ensures FlatFit(p, f.(pc := pc))
  {
  }

  /** An instruction that does not crash is one, and its operands are in range. */
  lemma NotCrashed(p: Prog, f: Flat)
    requires FlatFit(p, f) && FlatStep(p, f) != Crash
    ensures Fit(p, Thread(f.pos, f.mem)) && f.pc >= 0 && f.pc < |p.code| && Decode(p.code, f.pc) != OpInvalid
    ensures Effects(p, Decode(p.code, f.pc), f.pc + LengthAt(p.code, f.pc), Thread(f.pos, f.mem)) != Stuck
  {
    FlatLog(p, f);
    hide Effects, LengthAt, Decode, Backtracked, NegLookLeft, LookLeft, WellFormed, Frames, Log, Push, StoreAll;
  }

  lemma EffectsOf(p: Prog, i: Instr, next: int, t: Thread)
    requires Fit(p, t) && i != OpInvalid && Effects(p, i, next, t) != Stuck
    ensures i.OpRange16? || i.OpRange32? ==> |i.vs| >= 2 && |i.vs| % 2 == 0
    ensures i.OpBackRef? ==> Effects(p, i, next, t) == BackRefEffect(p, next, i.backward, i.groups, t)
    ensures i.OpSaveReset? ==> i.first >= 0 && i.last < p.ncap && 2 * i.last + 1 < p.nmem
                               && WritesFit(ResetWrites(i.first, i.last), p.nmem)
                               && Effects(p, i, next, t) == Go(next, t.pos, ResetWrites(i.first, i.last))
  {
    hide BackRefEffect;
    if i.OpSaveReset? { ResetWritesFit(i.first, i.last, p.nmem); }
  }

  /** The start position of a search: one that splits a surrogate pair is moved in front of it. */
  function StartPos(s: Text, cindex: nat): (r: nat)
    requires cindex <= |s.units|
    ensures r <= cindex
  {
    if 0 < cindex < |s.units| && PairAt(s, cindex - 1, |s.units|) then cindex - 1 else cindex
  }

  /** That is the position of the character that contains the unit at `cindex`. */
  lemma {:induction false} StartPosIsBoundary(s: Text, cindex: nat, e: nat)
    requires cindex <= |s.units| && e <= |Chars(s)|
    requires Pos(s, e) <= cindex && (e < |Chars(s)| ==> cindex < Pos(s, e + 1))
    ensures StartPos(s, cindex) == Pos(s, e)
  {
    hide Pos, Chars;
    PosEnds(s);
    if e < |Chars(s)| {
      PosStep(s, e);
      if cindex == Pos(s, e) && e > 0 {
        PosStep(s, e - 1);
      }
    }
  }

  /** lre_exec: run the program of a pattern on a subject. What it reports is what RegExpBuiltinExec finds
      from the character at `cindex` on. */
  method Exec(p: Prog, ghost node: Node, ghost sticky: bool, cindex: nat, ghost e: nat) returns (ret: bool, captures: seq<int>)
    requires Compiled(p, node, sticky)
    requires cindex <= |p.text.units| && e <= |Input(p)|
    requires Pos(p.text, e) <= cindex && (e < |Input(p)| ==> cindex < Pos(p.text, e + 1))
    ensures 1 + Groups(node) <= p.ncap && Parsed(node, p.ncap)
    ensures var r := Ecma.Search(Input(p), node, p.ncap, sticky, e);
            && (ret <==> r.Success?)
            && (ret ==> |captures| == 2 * p.ncap == 2 * |r.state.caps|
                        && forall n :: 0 <= n < p.ncap ==>
                             CapOK(p, r.state.caps[n]) && (captures[2 * n], captures[2 * n + 1]) == CellsOf(p, r.state.caps[n]))
  {
    StartPosIsBoundary(p.text, cindex, e);
    CompiledSane(p, node, sticky);
    var s := new ExecContext(p, StartPos(p.text, cindex));
    ghost var t := Thread(s.cptr, s.capture[..]);
    assert Initial(p, e, t) by { InitialIs(p, e, t); }
    hide Compiled, Initial, FlatFit, Pos, Chars, Turns, Parsed, CapOK, CellsOf;
    ghost var n := ProgramHalts(p, node, sticky, e, t);
    ReportsStop(p, Ecma.Search(Input(p), node, p.ncap, sticky, e), Turns(p, Begin(t), n));
    assert s.State() == Begin(t);
    ret := s.Run(n);
    captures := s.capture[..2 * p.ncap];
  }

  lemma CompiledSane(p: Prog, node: Node, sticky: bool)
    requires Compiled(p, node, sticky)
    ensures 2 * p.ncap <= p.nmem
  {
    hide Asm, Depth, Parsed, Counters;
  }

  lemma InitialIs(p: Prog, e: nat, t: Thread)
    requires e <= |Input(p)| && t.pos == Pos(p.text, e) && |t.mem| == p.nmem && 2 * p.ncap <= p.nmem
    requires forall k :: 0 <= k < 2 * p.ncap ==> t.mem[k] == NULL
    ensures Initial(p, e, t)
  {
  }

  lemma ReportsStop(p: Prog, r: Ecma.Result, o: UndoLog.Result)
    requires Reports(p, r, o)
    ensures o.Match? || o.Fail?
    ensures r.Failure? <==> o == Fail
  {
  }
}
