/** What one instruction does, independently of how the machine remembers where to backtrack to. */
module Machine {
  import opened Words
  import opened Bytecode
  import opened Text
  import opened Syntax

  const NULL := -1

  /** The bytecode behind its header, the subject, the number of captures and the number of memory cells:
      two per capture, then the registers. */
  datatype Prog = Prog(code: seq<u8>, text: Text, ncap: nat, nmem: nat)

  /** The position in the subject and the contents of `capture[]`. */
  datatype Thread = Thread(pos: nat, mem: seq<int>)

  /** A store to `capture[idx]`; `once` stores log the old value only the first time after a choice point. */
  datatype Write = Write(idx: nat, val: int, once: bool)

  datatype Kind = EndMatch | EndLook | EndNegLook

  datatype Effect =
    | Go(pc: int, pos: nat, writes: seq<Write>)
    | Fork(first: int, second: int, writes: seq<Write>)
    | NoMatch
    | Enter(neg: bool, body: int, after: int)
    | End(kind: Kind)
    | Stuck

  predicate Fit(p: Prog, t: Thread) {
    t.pos <= |p.text.units| && |t.mem| == p.nmem
  }

  predicate WritesFit(ws: seq<Write>, n: nat) {
    forall k :: 0 <= k < |ws| ==> ws[k].idx < n
  }

  function Apply(mem: seq<int>, ws: seq<Write>): (r: seq<int>)
    requires WritesFit(ws, |mem|)
    ensures |r| == |mem|
    decreases |ws|
  {
    if ws == [] then mem else Apply(mem[ws[0].idx := ws[0].val], ws[1..])
  }

  /** One character is read and tested. */
  function Read(p: Prog, pc: int, t: Thread, accepted: bool): Effect
    requires t.pos < |p.text.units|
  {
    if accepted then Go(pc, NextPos(p.text, t.pos), []) else NoMatch
  }

  /** The binary search of the range opcodes over pairs of inclusive bounds. Its indices are unsigned:
      that `mid - 1` is a nat is the proof that they do not wrap around. */
  function Bisect(vs: seq<int>, c: nat, lo: nat, hi: nat): bool
    requires hi < |vs| / 2 && vs[0] <= c
    decreases hi + 1 - lo
  {
    if lo > hi then false
    else
      var mid := (lo + hi) / 2;
      if c < vs[2 * mid] then Bisect(vs, c, lo, mid - 1)
      else if c > vs[2 * mid + 1] then Bisect(vs, c, mid + 1, hi)
      else true
  }

  function InRange16(vs: seq<int>, c: nat): bool
    requires |vs| >= 2 && |vs| % 2 == 0
  {
    if c < vs[0] then false
    else if c >= 0xffff && vs[|vs| - 1] == 0xffff then true
    else if c > vs[|vs| - 1] then false
    else Bisect(vs, c, 0, |vs| / 2 - 1)
  }

  function InRange32(vs: seq<int>, c: nat): bool
    requires |vs| >= 2 && |vs| % 2 == 0
  {
    if c < vs[0] || c > vs[|vs| - 1] then false else Bisect(vs, c, 0, |vs| / 2 - 1)
  }

  datatype Compared = Differs | Same(pos: nat)

  /** The comparison loops of the back reference opcodes. */
  function CompareForward(s: Text, q: nat, end: nat, pos: nat): (r: Compared)
    requires end <= |s.units| && pos <= |s.units|
    ensures r.Same? ==> r.pos <= |s.units|
    decreases |s.units| - pos
  {
    if q >= end then Same(pos)
    else if pos >= |s.units| || CharBefore(s, q, end) != CharAt(s, pos) then Differs
    else CompareForward(s, NextBefore(s, q, end), end, NextPos(s, pos))
  }

  function CompareBackward(s: Text, start: nat, q: nat, pos: nat): (r: Compared)
    requires q <= |s.units| && pos <= |s.units|
    ensures r.Same? ==> r.pos <= |s.units|
    decreases pos
  {
    if q <= start then Same(pos)
    else if pos == 0 || CharAfter(s, q, start) != CharAfter(s, pos, 0) then Differs
    else CompareBackward(s, start, PrevAfter(s, q, start), PrevPos(s, pos))
  }

  /** The first of the listed captures that is set decides; if none is, the reference matches nothing. */
  function BackRefEffect(p: Prog, pc: int, backward: bool, groups: seq<int>, t: Thread): (e: Effect)
    requires Fit(p, t)
    ensures e.NoMatch? || e.Stuck? || (e.Go? && e.pos <= |p.text.units| && e.writes == [])
    decreases |groups|
  {
    if groups == [] then Go(pc, t.pos, [])
    else if groups[0] < 0 || groups[0] >= p.ncap then NoMatch
    else if 2 * groups[0] + 1 >= p.nmem then Stuck
    else
      var start, end := t.mem[2 * groups[0]], t.mem[2 * groups[0] + 1];
      if start == NULL || end == NULL then BackRefEffect(p, pc, backward, groups[1..], t)
      else if start < 0 || end < 0 || start > |p.text.units| || end > |p.text.units| then Stuck
      else
        var r := if backward then CompareBackward(p.text, start, end, t.pos) else CompareForward(p.text, start, end, t.pos);
        if r.Differs? then NoMatch else Go(pc, r.pos, [])
  }

  function ResetWrites(first: nat, last: int): seq<Write>
    decreases last - first + 1
  {
    if first > last then []
    else [Write(2 * first, NULL, false), Write(2 * first + 1, NULL, false)] + ResetWrites(first + 1, last)
  }

  lemma ResetWritesFit(first: nat, last: int, n: nat)
    requires 2 * last + 1 < n
    ensures WritesFit(ResetWrites(first, last), n)
    decreases last - first + 1
  {
    if first <= last { ResetWritesFit(first + 1, last, n); }
  }

  predicate WordBefore(s: Text, pos: nat)
    requires pos <= |s.units|
  {
    pos > 0 && WordChar(CharAfter(s, pos, 0))
  }

  predicate WordBehind(s: Text, pos: nat)
    requires pos <= |s.units|
  {
    pos < |s.units| && WordChar(CharAt(s, pos))
  }

  /** One turn of the interpreter loop, up to the handling of a failed match. `next` is the address behind
      the instruction. */
  function Effects(p: Prog, i: Instr, next: int, t: Thread): (e: Effect)
    requires Fit(p, t)
    ensures e.Go? ==> e.pos <= |p.text.units| && WritesFit(e.writes, p.nmem)
    ensures e.Fork? ==> WritesFit(e.writes, p.nmem)
  {
    match i
    case OpChar16(c) => if t.pos == |p.text.units| then NoMatch else Read(p, next, t, CharAt(p.text, t.pos) == c)
    case OpChar32(c) => if t.pos == |p.text.units| then NoMatch else Read(p, next, t, CharAt(p.text, t.pos) == c)
    case OpDot => if t.pos == |p.text.units| then NoMatch else Read(p, next, t, !LineTerminator(CharAt(p.text, t.pos)))
    case OpAny => if t.pos == |p.text.units| then NoMatch else Read(p, next, t, true)
    case OpLineStart(multi) =>
      if t.pos == 0 || (multi && LineTerminator(CharAfter(p.text, t.pos, 0))) then Go(next, t.pos, []) else NoMatch
    case OpLineEnd(multi) =>
      if t.pos == |p.text.units| || (multi && LineTerminator(CharAt(p.text, t.pos))) then Go(next, t.pos, []) else NoMatch
    case OpWordBoundary(neg) =>
      if (WordBefore(p.text, t.pos) != WordBehind(p.text, t.pos)) != neg then Go(next, t.pos, []) else NoMatch
    case OpGoto(off) => Go(next + off, t.pos, [])
    case OpSplit(nextFirst, off) =>
      if nextFirst then Fork(next, next + off, []) else Fork(next + off, next, [])
    case OpMatch => End(EndMatch)
    case OpLookMatch(neg) => End(if neg then EndNegLook else EndLook)
    case OpLook(neg, off) => Enter(neg, next, next + off)
    case OpSave(isEnd, n) =>
      if n < 0 || n >= p.ncap || 2 * n + 1 >= p.nmem then Stuck
      else Go(next, t.pos, [Write(2 * n + Bit(isEnd), t.pos, false)])
    case OpSaveReset(first, last) =>
      if first < 0 || last >= p.ncap || 2 * last + 1 >= p.nmem then Stuck
      else
        ResetWritesFit(first, last, p.nmem);
        Go(next, t.pos, ResetWrites(first, last))
    case OpSetI32(r, v) =>
      var idx := 2 * p.ncap + r;
      if r < 0 || idx >= p.nmem then Stuck else Go(next, t.pos, [Write(idx, v, true)])
    case OpSetCharPos(r) =>
      var idx := 2 * p.ncap + r;
      if r < 0 || idx >= p.nmem then Stuck else Go(next, t.pos, [Write(idx, t.pos, true)])
    case OpCheckAdvance(r) =>
      var idx := 2 * p.ncap + r;
      if r < 0 || idx >= p.nmem then Stuck else if t.mem[idx] == t.pos then NoMatch else Go(next, t.pos, [])
    case OpLoop(r, off) =>
      var idx := 2 * p.ncap + r;
      if r < 0 || idx >= p.nmem then Stuck
      else
        var v := (t.mem[idx] - 1) % 0x1_0000_0000;
        Go(if v != 0 then next + off else next, t.pos, [Write(idx, v, true)])
    case OpLoopSplit(checkAdv, nextFirst, r, limit, off) =>
      var idx := 2 * p.ncap + r;
      if r < 0 || idx >= p.nmem || (checkAdv && idx + 1 >= p.nmem) then Stuck
      else
        var v := (t.mem[idx] - 1) % 0x1_0000_0000;
        var ws := [Write(idx, v, true)];
        if v > limit then Go(next + off, t.pos, ws)
        else if checkAdv && t.mem[idx + 1] == t.pos && v != limit then NoMatch
        else if v == 0 then Go(next, t.pos, ws)
        else if nextFirst then Fork(next, next + off, ws)
        else Fork(next + off, next, ws)
    case OpBackRef(backward, groups) => BackRefEffect(p, next, backward, groups, t)
    case OpRange16(vs) =>
      if |vs| < 2 || |vs| % 2 == 1 then Stuck
      else if t.pos == |p.text.units| then NoMatch
      else Read(p, next, t, InRange16(vs, CharAt(p.text, t.pos)))
    case OpRange32(vs) =>
      if |vs| < 2 || |vs| % 2 == 1 then Stuck
      else if t.pos == |p.text.units| then NoMatch
      else Read(p, next, t, InRange32(vs, CharAt(p.text, t.pos)))
    case OpPrev => if t.pos == 0 then NoMatch else Go(next, PrevPos(p.text, t.pos), [])
    case OpInvalid => Stuck
  }

  function Execute(p: Prog, pc: int, t: Thread): (e: Effect)
    requires Fit(p, t)
    ensures e.Go? ==> e.pos <= |p.text.units| && WritesFit(e.writes, p.nmem)
    ensures e.Fork? ==> WritesFit(e.writes, p.nmem)
  {
    if pc < 0 || Decode(p.code, pc) == OpInvalid then Stuck
    else
      Effects(p, Decode(p.code, pc), pc + LengthAt(p.code, pc), t)
  }

  // ----- the recursive reading of a program

  datatype Outcome = Fails | Ends(kind: Kind, t: Thread) | GetsStuck | OutOfFuel

  /** Follow one thread and, when it fails, the alternatives it left behind. */
  function Eval(p: Prog, pc: int, t: Thread, fuel: nat): Outcome
    requires Fit(p, t)
    ensures var o := Eval(p, pc, t, fuel); o.Ends? ==> Fit(p, o.t)
    decreases fuel
  {
    if fuel == 0 then OutOfFuel else
    match Execute(p, pc, t)
    case Go(pc', pos, ws) => Eval(p, pc', Thread(pos, Apply(t.mem, ws)), fuel - 1)
    case Fork(first, second, ws) =>
      var t' := Thread(t.pos, Apply(t.mem, ws));
      var o := Eval(p, first, t', fuel - 1);
      if o.Fails? then Eval(p, second, t', fuel - 1) else o
    case NoMatch => Fails
    case Enter(neg, body, after) =>
      var o := Eval(p, body, t, fuel - 1);
      if neg then
        if o.Fails? then Eval(p, after, t, fuel - 1)
        else if o.Ends? then (if o.kind == EndNegLook then Fails else GetsStuck)
        else o
      else
        if o.Ends? then
          if o.kind == EndLook then Eval(p, after, Thread(t.pos, o.t.mem), fuel - 1) else GetsStuck
        else o
    case End(kind) => Ends(kind, t)
    case Stuck => GetsStuck
  }

  lemma {:induction false} MoreFuel(p: Prog, pc: int, t: Thread, fuel: nat, more: nat)
    requires Fit(p, t) && fuel <= more && !Eval(p, pc, t, fuel).OutOfFuel?
    ensures Eval(p, pc, t, more) == Eval(p, pc, t, fuel)
    decreases fuel
  {
    hide Execute;
    match Execute(p, pc, t)
    case Go(pc', pos, ws) => MoreFuel(p, pc', Thread(pos, Apply(t.mem, ws)), fuel - 1, more - 1);
    case Fork(first, second, ws) =>
      var t' := Thread(t.pos, Apply(t.mem, ws));
      MoreFuel(p, first, t', fuel - 1, more - 1);
      if Eval(p, first, t', fuel - 1).Fails? { MoreFuel(p, second, t', fuel - 1, more - 1); }
    case Enter(neg, body, after) =>
      MoreFuel(p, body, t, fuel - 1, more - 1);
      var o := Eval(p, body, t, fuel - 1);
      if neg && o.Fails? {
        MoreFuel(p, after, t, fuel - 1, more - 1);
      } else if !neg && o.Ends? && o.kind == EndLook {
        MoreFuel(p, after, Thread(t.pos, o.t.mem), fuel - 1, more - 1);
      }
    case NoMatch =>
    case End(_) =>
    case Stuck =>
  }
}
