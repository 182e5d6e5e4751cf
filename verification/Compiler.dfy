/** REParseState: the compiler, which grows and shifts its byte code in place. */
module Compiler {
  import opened Words
  import opened Bytecode
  import opened Syntax
  import opened Codegen
  import opened Ecma
  import opened Registers
  import opened SimulationBase

  const CAPTURE_COUNT_MAX := 255

  // ----- overwriting and inserting

  /** `f` written over the bytes at `p`. */
  function Patch(b: seq<u8>, p: nat, f: seq<u8>): (r: seq<u8>)
    requires p + |f| <= |b|
    ensures |r| == |b|
  {
    b[..p] + f + b[p + |f|..]
  }

  lemma PatchJoin(b: seq<u8>, p: nat, f: seq<u8>, g: seq<u8>)
    requires p + |f| + |g| <= |b|
    ensures Patch(Patch(b, p, f), p + |f|, g) == Patch(b, p, f + g)
  {
  }

  lemma PatchGap(b: seq<u8>, pre: seq<u8>, gap: seq<u8>, post: seq<u8>, f: seq<u8>)
    requires b == pre + gap + post && |f| == |gap|
    ensures Patch(b, |pre|, f) == pre + f + post
  {
  }

  // ----- the scans over byte code find the instructions again

  /** The counts of a variable-length instruction fit their fields. */
  predicate CountFits(i: Instr) {
    match i
    case OpBackRef(_, gs) => |gs| < 256
    case OpRange16(vs) => |vs| % 2 == 0 && |vs| < 0x2_0000
    case OpRange32(vs) => |vs| % 2 == 0 && |vs| < 0x2_0000
    case OpInvalid => false
    case _ => true
  }

  predicate AllCountsFit(s: seq<Instr>) {
    forall i :: i in s ==> CountFits(i)
  }

  lemma LengthEncode(b: seq<u8>, p: nat, i: Instr)
    requires At(b, p, Encode(i)) && CountFits(i)
    ensures p < |b| && b[p] == Encode(i)[0] && LengthAt(b, p) == Len(i) && p + Len(i) <= |b|
  {
    if i.OpRange16? || i.OpRange32? {
      LengthRange(b, p, i);
    } else if i.OpBackRef? {
      LengthBackRef(b, p, i.backward, i.groups);
    } else {
      LengthFixed(b, p, i);
    }
  }

  lemma LengthFixed(b: seq<u8>, p: nat, i: Instr)
    requires At(b, p, Encode(i)) && CountFits(i) && !i.OpRange16? && !i.OpRange32? && !i.OpBackRef?
    ensures p < |b| && b[p] == Encode(i)[0] && LengthAt(b, p) == Len(i)
  {
    AtIndex(b, p, Encode(i), 0);
    OpSizeOf(i);
    hide Encode, OpSize;
  }

  lemma OpSizeOf(i: Instr)
    requires CountFits(i) && !i.OpRange16? && !i.OpRange32? && !i.OpBackRef?
    ensures var op := Encode(i)[0]; OpSize(op) == Len(i) && !(32 <= op <= 39)
  {
  }

  lemma LengthRange(b: seq<u8>, p: nat, i: Instr)
    requires At(b, p, Encode(i)) && CountFits(i) && (i.OpRange16? || i.OpRange32?)
    ensures p < |b| && b[p] == Encode(i)[0] && LengthAt(b, p) == Len(i)
  {
    hide U16s, U32s, U16;
    AtIndex(b, p, Encode(i), 0);
    var rest := if i.OpRange16? then U16s(i.vs) else U32s(i.vs);
    AtSplit(b, p, [Encode(i)[0]], U16(|i.vs| / 2) + rest);
    AtSplit(b, p + 1, U16(|i.vs| / 2), rest);
    assert |U16(|i.vs| / 2)| == 2 by { WordSize(|i.vs| / 2); }
    Get16At(b, p + 1, |i.vs| / 2);
  }

  lemma WordSize(v: int)
    ensures |U16(v)| == 2
  {
  }

  lemma LengthBackRef(b: seq<u8>, p: nat, back: bool, gs: seq<int>)
    requires At(b, p, Encode(OpBackRef(back, gs))) && |gs| < 256
    ensures p < |b| && b[p] == 32 + 2 * Bit(back) && LengthAt(b, p) == 2 + |gs| == Len(OpBackRef(back, gs))
  {
    AtIndex(b, p, Encode(OpBackRef(back, gs)), 0);
    AtSplit(b, p, [32 + 2 * Bit(back)], Byte(|gs|) + Bytes(gs));
    ByteAt(b, p + 1, |gs|, Bytes(gs));
  }

  lemma {:induction false} CompCountsFit(node: Node, back: bool, cc: nat, d: int, ncap: nat)
    requires Parsed(node, ncap)
    ensures AllCountsFit(Comp(node, back, cc, d))
    decreases node, 1
  {
    hide Comp, Size, Asm;
    match node
    case Cat(a, b) =>
      CompCat(a, b, back, cc, d);
      CompCountsFit(a, back, cc, d, ncap);
      CompCountsFit(b, back, cc + Groups(a), d, ncap);
    case Alt(a, b) =>
      CompAlt(a, b, back, cc, d);
      CompCountsFit(a, back, cc, d, ncap);
      CompCountsFit(b, back, cc + Groups(a), d, ncap);
    case Group(a) =>
      CompGroup(a, back, cc, d);
      CompCountsFit(a, back, cc + 1, d, ncap);
    case Look(behind, neg, a) =>
      CompLook(behind, neg, a, back, cc, d);
      CompCountsFit(a, behind, cc, d, ncap);
    case Quant(a, min, max, greedy) =>
      QuantCountsFit(a, min, max, greedy, back, cc, d, ncap);
    case _ =>
      LeafCountsFit(node, back, cc, d, ncap);
  }

  lemma LeafCountsFit(node: Node, back: bool, cc: nat, d: int, ncap: nat)
    requires IsLeaf(node) && Parsed(node, ncap)
    ensures AllCountsFit(Comp(node, back, cc, d))
  {
  }

  lemma {:induction false} QuantCountsFit(a: Node, min: nat, max: Max, greedy: bool, back: bool, cc: nat, d: int, ncap: nat)
    requires Parsed(a, ncap)
    ensures AllCountsFit(Comp(Quant(a, min, max, greedy), back, cc, d))
    decreases a, 3
  {
    hide Comp, Size, Asm, Parsed, LayoutOf, NeedAdvance, NeedInit, OwnRegisters, Deeper;
    CompQuant(a, min, max, greedy, back, cc, d);
    var adv := NeedAdvance(a, back, cc);
    var l := LayoutOf(adv, min, max);
    var d1 := Deeper(d, OwnRegisters(l, adv));
    CompCountsFit(a, back, cc, d1, ncap);
    LayoutCountsFit(l, adv, Body(a, back, cc, d1), min, QuantMax(max), greedy, d);
  }

  lemma LayoutCountsFit(l: Layout, adv: bool, body: seq<Instr>, min: nat, max: nat, greedy: bool, d: int)
    requires AllCountsFit(body)
    ensures AllCountsFit(Quantified(l, adv, body, min, max, greedy, d))
  {
    hide Size, Asm, Reg, Deeper;
  }

  /** The switch of re_need_check_adv_and_capture_init. */
  function ScanOp(op: u8, st: Scan): Scan {
    if 36 <= op <= 39 || 1 <= op <= 8 then st.(adv := false)
    else if 9 <= op <= 12 || op == 27 || op == 42 || 28 <= op <= 31 || op == 44 then st
    else if 19 <= op <= 21 then st
    else if 32 <= op <= 35 then st.(init := true)
    else st.(init := true, stopped := true)
  }

  lemma ScanOpcode(i: Instr, st: Scan)
    requires CountFits(i) && !st.stopped
    ensures ScanStep(st, i) == ScanOp(Encode(i)[0], st)
  {
  }

  /** re_need_check_adv_and_capture_init: the loop over the bytes of an atom finds what the scan of its
      instructions finds. */
  method NeedCheckAdvAndCaptureInit(code: seq<u8>, ghost s: seq<Instr>) returns (adv: bool, init: bool)
    requires code == Asm(s) && AllCountsFit(s)
    ensures adv == ScanCode(s, SCAN_START).adv && init == ScanCode(s, SCAN_START).init
  {
    hide Asm, Encode, AllCountsFit, LengthAt;
    var pos := 0;
    ghost var rest := s;
    adv, init := true, false;
    assert code[0..] == code;
    while pos < |code|
      invariant 0 <= pos <= |code| && code[pos..] == Asm(rest) && AllCountsFit(rest)
      invariant ScanCode(s, SCAN_START) == ScanCode(rest, Scan(adv, init, false))
    {
      AsmHead(code, pos, rest);
      var op, len := code[pos], LengthAt(code, pos);
      ghost var st := Scan(adv, init, false);
      ScanOpcode(rest[0], st);
      rest := rest[1..];
      if 36 <= op <= 39 || 1 <= op <= 8 {
        adv := false;
      } else if 9 <= op <= 12 || op == 27 || op == 42 || 28 <= op <= 31 || op == 44 {
      } else if 19 <= op <= 21 {
      } else if 32 <= op <= 35 {
        init := true;
      } else {
        init := true;
        ScanStopped(rest, Scan(adv, true, true));
        return;
      }
      pos := pos + len;
    }
    AsmNone(rest);
  }

  /** The instruction at `pos`, where the rest of the code begins. */
  lemma AsmHead(code: seq<u8>, pos: nat, rest: seq<Instr>)
    requires pos < |code| && code[pos..] == Asm(rest) && AllCountsFit(rest)
    ensures rest != [] && CountFits(rest[0]) && AllCountsFit(rest[1..])
    ensures code[pos] == Encode(rest[0])[0] && LengthAt(code, pos) == Len(rest[0]) && pos + Len(rest[0]) <= |code|
    ensures code[pos + Len(rest[0])..] == Asm(rest[1..])
  {
    hide Encode, LengthAt, CountFits;
    var i, t := rest[0], Asm(rest[1..]);
    assert code[pos..] == Encode(i) + t;
    assert code[pos..pos + |Encode(i)|] == code[pos..][..|Encode(i)|] == Encode(i);
    LengthEncode(code, pos, i);
    assert code[pos + Len(i)..] == code[pos..][Len(i)..] == t;
  }

  lemma AsmNone(s: seq<Instr>)
    ensures s != [] ==> Asm(s) != []
  {
    hide Encode;
    if s != [] { assert |Encode(s[0])| == Len(s[0]); }
  }

  lemma {:induction false} U16sMore(vs: seq<int>, a: int, b: int)
    ensures U16s(vs + [a, b]) == U16s(vs) + U16(a) + U16(b)
    decreases |vs|
  {
    if vs == [] {
      assert [a, b][1..] == [b] && [b][1..] == [] && vs + [a, b] == [a, b];
    } else {
      U16sMore(vs[1..], a, b);
      assert (vs + [a, b])[1..] == vs[1..] + [a, b];
    }
  }

  lemma {:induction false} U32sMore(vs: seq<int>, a: int, b: int)
    ensures U32s(vs + [a, b]) == U32s(vs) + U32(a) + U32(b)
    decreases |vs|
  {
    if vs == [] {
      assert [a, b][1..] == [b] && [b][1..] == [] && vs + [a, b] == [a, b];
    } else {
      U32sMore(vs[1..], a, b);
      assert (vs + [a, b])[1..] == vs[1..] + [a, b];
    }
  }

  lemma Rejoin(a: seq<u8>, b: seq<u8>, c: seq<u8>, d: seq<u8>)
    ensures a + (b + c) + d == a + (b + (c + d))
  {
  }

  lemma Rejoin4(a: seq<u8>, b: seq<u8>, c: seq<u8>, d: seq<u8>, e: seq<u8>)
    ensures a + (b + c) + d + e == a + (b + (c + (d + e)))
  {
  }

  lemma Rejoin6(a: seq<u8>, b: seq<u8>, c: seq<u8>, d: seq<u8>, e: seq<u8>, f: seq<u8>)
    ensures a + (b + (c + (d + e))) + f == a + (b + (c + (d + (e + f))))
  {
  }

  lemma Rejoin5(a: seq<u8>, b: seq<u8>, c: seq<u8>, d: seq<u8>, e: seq<u8>, f: seq<u8>)
    ensures a + (b + c + d) + e + f == a + (b + (c + (d + (e + f))))
  {
  }

  // ----- the bytes of the layouts

  lemma AsmCons(i: Instr, rest: seq<Instr>)
    ensures Asm([i] + rest) == Encode(i) + Asm(rest)
  {
    hide Encode;
    AsmConcat([i], rest);
    AsmOne(i);
  }

  function Guarded(adv: bool, f: seq<u8>): seq<u8> {
    if adv then f else []
  }

  lemma AsmGuard(adv: bool, i: Instr, rest: seq<Instr>)
    ensures Asm(If(adv, i) + rest) == Guarded(adv, Encode(i)) + Asm(rest)
  {
    hide Encode, Asm;
    if adv {
      AsmCons(i, rest);
    } else {
      assert [] + rest == rest;
    }
  }

  lemma AsmTail(body: seq<Instr>, i: Instr)
    ensures Asm(body + [i]) == Asm(body) + Encode(i)
  {
    hide Encode, Asm;
    AsmConcat(body, [i]);
    AsmOne(i);
  }

  lemma Encoded(i: Instr)
    ensures i.OpSplit? ==> Encode(i) == [14 + Bit(i.nextFirst)] + U32(i.off)
    ensures i.OpGoto? ==> Encode(i) == [13] + U32(i.off)
    ensures i.OpSetI32? ==> Encode(i) == [27] + (Byte(i.r) + U32(i.v))
    ensures i.OpSetCharPos? ==> Encode(i) == [42] + Byte(i.r)
    ensures i.OpCheckAdvance? ==> Encode(i) == [43] + Byte(i.r)
    ensures i.OpLoop? ==> Encode(i) == [22] + (Byte(i.r) + U32(i.off))
    ensures i.OpLoopSplit? ==> Encode(i) == [23 + 2 * Bit(i.checkAdv) + Bit(i.nextFirst)] + (Byte(i.r) + (U32(i.limit) + U32(i.off)))
  {
  }

  lemma OptionalBytes(adv: bool, body: seq<Instr>, min: nat, max: nat, greedy: bool)
    ensures Asm(Quantified(Optional, adv, body, min, max, greedy, -1))
            == Encode(OpSplit(greedy, Size(body) + 4 * Bit(adv)))
               + (Guarded(adv, Encode(OpSetCharPos(0))) + (Asm(body) + Guarded(adv, Encode(OpCheckAdvance(0)))))
  {
    hide Encode, Asm, Size;
    var set0, check := OpSetCharPos(0), OpCheckAdvance(0);
    AsmCons(OpSplit(greedy, Size(body) + 4 * Bit(adv)), If(adv, set0) + (body + If(adv, check)));
    AsmGuard(adv, set0, body + If(adv, check));
    AsmConcat(body, If(adv, check));
    AsmGuard(adv, check, []);
    assert If(adv, check) + [] == If(adv, check) && Guarded(adv, Encode(check)) + Asm([]) == Guarded(adv, Encode(check)) by { NoAsm(); }
  }

  lemma NoAsm()
    ensures Asm([]) == []
  {
  }

  lemma StarBytes(adv: bool, body: seq<Instr>, min: nat, max: nat, greedy: bool)
    ensures Asm(Quantified(Star, adv, body, min, max, greedy, -1))
            == Encode(OpSplit(greedy, Size(body) + 5 + 4 * Bit(adv)))
               + (Guarded(adv, Encode(OpSetCharPos(0))) + (Asm(body) + (Guarded(adv, Encode(OpCheckAdvance(0)))
               + Encode(OpGoto(-(Size(body) + 10 + 4 * Bit(adv)))))))
  {
    hide Encode, Asm, Size;
    var set0, check := OpSetCharPos(0), OpCheckAdvance(0);
    var go := OpGoto(-(Size(body) + 10 + 4 * Bit(adv)));
    AsmCons(OpSplit(greedy, Size(body) + 5 + 4 * Bit(adv)), If(adv, set0) + (body + (If(adv, check) + [go])));
    AsmGuard(adv, set0, body + (If(adv, check) + [go]));
    AsmConcat(body, If(adv, check) + [go]);
    AsmGuard(adv, check, [go]);
    AsmOne(go);
  }

  /** A counter, an optional position, the body and a loop instruction. */
  lemma CountedBytes(adv: bool, body: seq<Instr>, v: int, loop: Instr)
    ensures Asm([OpSetI32(0, v)] + (If(adv, OpSetCharPos(0)) + (body + [loop])))
            == Encode(OpSetI32(0, v)) + (Guarded(adv, Encode(OpSetCharPos(0))) + (Asm(body) + Encode(loop)))
  {
    hide Encode, Asm;
    AsmCons(OpSetI32(0, v), If(adv, OpSetCharPos(0)) + (body + [loop]));
    AsmGuard(adv, OpSetCharPos(0), body + [loop]);
    AsmTail(body, loop);
  }

  lemma OptionalJoin(pre: seq<u8>, adv: bool, body: seq<Instr>, min: nat, max: nat, greedy: bool)
    ensures pre + (([14 + Bit(greedy)] + U32(Size(body) + 4 * Bit(adv))) + Guarded(adv, [42] + Byte(0))) + Asm(body) + Guarded(adv, [43] + Byte(0))
            == pre + Asm(Quantified(Optional, adv, body, min, max, greedy, -1))
  {
    hide U32, Asm, Quantified, Byte, Encode, Guarded;
    OptionalBytes(adv, body, min, max, greedy);
    Encoded(OpSplit(greedy, Size(body) + 4 * Bit(adv)));
    Encoded(OpSetCharPos(0));
    Encoded(OpCheckAdvance(0));
    Rejoin4(pre, [14 + Bit(greedy)] + U32(Size(body) + 4 * Bit(adv)), Guarded(adv, [42] + Byte(0)), Asm(body), Guarded(adv, [43] + Byte(0)));
  }

  lemma StarJoin(pre: seq<u8>, adv: bool, body: seq<Instr>, min: nat, max: nat, greedy: bool)
    ensures pre + (([14 + Bit(greedy)] + U32(Size(body) + 5 + 4 * Bit(adv))) + Guarded(adv, [42] + Byte(0))) + Asm(body)
            + Guarded(adv, [43] + Byte(0)) + ([13] + U32(-(Size(body) + 10 + 4 * Bit(adv))))
            == pre + Asm(Quantified(Star, adv, body, min, max, greedy, -1))
  {
    hide U32, Asm, Quantified, Byte, Encode, Guarded;
    StarBytes(adv, body, min, max, greedy);
    var split, go := OpSplit(greedy, Size(body) + 5 + 4 * Bit(adv)), OpGoto(-(Size(body) + 10 + 4 * Bit(adv)));
    Encoded(split);
    Encoded(go);
    Encoded(OpSetCharPos(0));
    Encoded(OpCheckAdvance(0));
    Rejoin4(pre, Encode(split), Guarded(adv, [42] + Byte(0)), Asm(body), Guarded(adv, [43] + Byte(0)));
    Rejoin6(pre, Encode(split), Guarded(adv, [42] + Byte(0)), Asm(body), Guarded(adv, [43] + Byte(0)), Encode(go));
  }

  lemma BoundedJoin(pre: seq<u8>, adv: bool, body: seq<Instr>, min: nat, max: nat, greedy: bool)
    ensures pre + (([14 + Bit(greedy)] + U32(6 + Bit(adv) * 2 + Size(body) + 10)) + ([27] + (Byte(0) + U32(max))) + Guarded(adv, [42] + Byte(0))) + Asm(body)
            + ([if adv then 26 - Bit(greedy) else 24 - Bit(greedy)] + (Byte(0) + (U32(max) + U32(-(Size(body) + 10 + 2 * Bit(adv))))))
            == pre + Asm(Quantified(Bounded, adv, body, min, max, greedy, -1))
  {
    hide U32, Asm, Byte, Encode, Guarded;
    var split := OpSplit(greedy, 6 + 2 * Bit(adv) + Size(body) + 10);
    var loop := OpLoopSplit(adv, !greedy, 0, max, -(Size(body) + 10 + 2 * Bit(adv)));
    CountedBytes(adv, body, max, loop);
    AsmCons(split, [OpSetI32(0, max)] + (If(adv, OpSetCharPos(0)) + (body + [loop])));
    Encoded(split);
    Encoded(OpSetI32(0, max));
    Encoded(OpSetCharPos(0));
    Encoded(loop);
    Rejoin5(pre, Encode(split), Encode(OpSetI32(0, max)), Guarded(adv, [42] + Byte(0)), Asm(body), Encode(loop));
  }

  lemma ExactJoin(pre: seq<u8>, adv: bool, body: seq<Instr>, min: nat, max: nat, greedy: bool)
    ensures pre + (([27] + (Byte(0) + U32(max))) + Guarded(false, [42] + Byte(0))) + Asm(body)
            + ([22] + (Byte(0) + U32(-(Size(body) + 6))))
            == pre + Asm(Quantified(Exact, adv, body, min, max, greedy, -1))
  {
    hide U32, Asm, Byte, Encode;
    var loop := OpLoop(0, -(Size(body) + 6));
    CountedBytes(false, body, max, loop);
    assert [] + (body + [loop]) == body + [loop];
    Encoded(OpSetI32(0, max));
    Encoded(loop);
    Rejoin4(pre, Encode(OpSetI32(0, max)), [], Asm(body), Encode(loop));
  }

  lemma CountedJoin(pre: seq<u8>, adv: bool, body: seq<Instr>, min: nat, max: nat, greedy: bool)
    requires min <= max
    ensures pre + (([27] + (Byte(0) + U32(max))) + Guarded(adv, [42] + Byte(0))) + Asm(body)
            + ([if adv then 26 - Bit(greedy) else 24 - Bit(greedy)] + (Byte(0) + (U32(max - min) + U32(-(Size(body) + 10 + 2 * Bit(adv))))))
            == pre + Asm(Quantified(Counted, adv, body, min, max, greedy, -1))
  {
    hide U32, Asm, Byte, Encode, Guarded;
    var loop := OpLoopSplit(adv, !greedy, 0, max - min, -(Size(body) + 10 + 2 * Bit(adv)));
    CountedBytes(adv, body, max, loop);
    Encoded(OpSetI32(0, max));
    Encoded(OpSetCharPos(0));
    Encoded(loop);
    Rejoin4(pre, Encode(OpSetI32(0, max)), Guarded(adv, [42] + Byte(0)), Asm(body), Encode(loop));
  }

  /** The unfoldings of the predicates on patterns. */
  lemma ReadableParts(node: Node, ncap: nat)
    requires Readable(node, ncap)
    ensures node.Cat? || node.Alt? ==> Readable(node.left, ncap) && Readable(node.right, ncap)
    ensures node.Group? || node.Look? ==> Readable(node.body, ncap)
    ensures node.Quant? ==> Readable(node.atom, ncap) && node.min <= QuantMax(node.max)
    ensures node.Class? ==> Increasing(node.points)
  {
  }

  lemma RangesParts(node: Node)
    ensures node.Cat? || node.Alt? ==> (RangesFit(node) <==> RangesFit(node.left) && RangesFit(node.right))
    ensures node.Group? || node.Look? ==> RangesFit(node) == RangesFit(node.body)
    ensures node.Quant? ==> RangesFit(node) == RangesFit(node.atom)
  {
  }

  lemma GroupsParts(node: Node)
    ensures node.Cat? || node.Alt? ==> Groups(node) == Groups(node.left) + Groups(node.right)
    ensures node.Group? ==> Groups(node) == 1 + Groups(node.body)
    ensures node.Look? ==> Groups(node) == Groups(node.body)
    ensures node.Quant? ==> Groups(node) == Groups(node.atom)
    ensures IsLeaf(node) ==> Groups(node) == 0
  {
  }

  lemma BackRefBytes(back: bool, n: nat)
    ensures Encode(OpBackRef(back, [n])) == [32 + 2 * Bit(back)] + Byte(1) + Byte(n)
  {
    assert [n as int][1..] == [];
  }

  lemma SetBytes(node: Node, back: bool)
    requires IsSetNode(node)
    ensures Guarded(back, [44]) + Encode(EmitSet(node)) + Guarded(back, [44]) == Asm(CompSet(node, back))
  {
    hide EmitSet, Asm;
    var i := EmitSet(node);
    if back {
      assert [OpPrev, i, OpPrev] == [OpPrev] + ([i] + [OpPrev]);
      AsmCons(OpPrev, [i] + [OpPrev]);
      AsmCons(i, [OpPrev]);
      AsmOne(OpPrev);
    } else {
      AsmOne(i);
      assert [] + Encode(i) + [] == Encode(i);
    }
  }

  lemma SetJoin(a: seq<u8>, b: seq<u8>, c: seq<u8>, d: seq<u8>)
    ensures a + b + c + d == a + (b + c + d)
    ensures b == [] ==> a + c + d == a + (b + c + d)
    ensures d == [] ==> a + b + c == a + (b + c + d)
    ensures b == [] && d == [] ==> a + c == a + (b + c + d)
  {
  }

  lemma LeafBytes(node: Node, back: bool, cc: nat)
    requires IsLeaf(node)
    ensures IsSetNode(node) ==> Comp(node, back, cc, -1) == CompSet(node, back)
    ensures node.Empty? ==> Asm(Comp(node, back, cc, -1)) == []
    ensures node.LineStart? ==> Asm(Comp(node, back, cc, -1)) == [9 + Bit(node.multi)]
    ensures node.LineEnd? ==> Asm(Comp(node, back, cc, -1)) == [11 + Bit(node.multi)]
    ensures node.WordBoundary? ==> Asm(Comp(node, back, cc, -1)) == [28 + 2 * Bit(node.neg)]
    ensures node.BackRef? ==> Asm(Comp(node, back, cc, -1)) == [32 + 2 * Bit(back)] + Byte(1) + Byte(node.n)
  {
    hide CompSet, Asm, Byte;
    NoAsm();
    if node.BackRef? {
      AsmOne(OpBackRef(back, [node.n]));
      BackRefBytes(back, node.n);
    } else if node.LineStart? {
      AsmOne(OpLineStart(node.multi));
    } else if node.LineEnd? {
      AsmOne(OpLineEnd(node.multi));
    } else if node.WordBoundary? {
      AsmOne(OpWordBoundary(node.neg));
    }
  }

  lemma AtomScanIs(atom: Node, back: bool, cc: nat)
    ensures var r := ScanCode(Comp(atom, back, cc, -1), SCAN_START); r.adv == NeedAdvance(atom, back, cc) && r.init == NeedInit(atom, back, cc)
  {
    hide Comp, ScanCode;
  }

  lemma BodyBytes(atom: Node, back: bool, cc: nat)
    ensures Asm(Body(atom, back, cc, -1))
            == Guarded(NeedInit(atom, back, cc) && Groups(atom) > 0, Encode(OpSaveReset(cc, cc + Groups(atom) - 1))) + Asm(Comp(atom, back, cc, -1))
  {
    hide Asm, Encode, Comp, NeedInit;
    AsmGuard(NeedInit(atom, back, cc) && Groups(atom) > 0, OpSaveReset(cc, cc + Groups(atom) - 1), Comp(atom, back, cc, -1));
  }

  lemma PrefixBytes(atom: Node, back: bool, cc: nat, min: nat)
    ensures Asm(Prefix(atom, back, cc, min))
            == Guarded(min == 0 && !NeedInit(atom, back, cc) && Groups(atom) > 0, Encode(OpSaveReset(cc, cc + Groups(atom) - 1)))
    ensures |Encode(OpSaveReset(cc, cc + Groups(atom) - 1))| == 3
  {
    hide Comp, NeedInit;
    AsmGuard(min == 0 && !NeedInit(atom, back, cc) && Groups(atom) > 0, OpSaveReset(cc, cc + Groups(atom) - 1), []);
  }

  lemma QuantBytes(pre: seq<u8>, atom: Node, back: bool, cc: nat, min: nat, max: Max, greedy: bool)
    ensures var adv := NeedAdvance(atom, back, cc);
            pre + Asm(QuantCode(atom, back, cc, min, max, greedy, -1))
            == (pre + Asm(Prefix(atom, back, cc, min)))
               + Asm(Quantified(LayoutOf(adv, min, max), adv, Body(atom, back, cc, -1), min, QuantMax(max), greedy, -1))
  {
    hide Asm, Comp, NeedInit, NeedAdvance, LayoutOf, Body, Prefix, Quantified;
    var adv := NeedAdvance(atom, back, cc);
    AsmConcat(Prefix(atom, back, cc, min), Quantified(LayoutOf(adv, min, max), adv, Body(atom, back, cc, -1), min, QuantMax(max), greedy, -1));
  }

  lemma DroppedBytes(front: seq<u8>, adv: bool, body: seq<Instr>, min: nat, max: nat, greedy: bool)
    ensures (front + Asm(body))[..|front|] == front + Asm(Quantified(Dropped, adv, body, min, max, greedy, -1))
  {
    NoAsm();
  }

  lemma PlusBytes(front: seq<u8>, adv: bool, body: seq<Instr>, min: nat, max: nat, greedy: bool)
    ensures front + Asm(body) + ([15 - Bit(greedy)] + U32(-(Size(body) + 5))) == front + Asm(Quantified(Plus, adv, body, min, max, greedy, -1))
  {
    hide Asm, U32;
    AsmTail(body, OpSplit(!greedy, -(Size(body) + 5)));
  }

  /** The operand of an emitted instruction is filled in after the code behind it. */
  lemma PatchOperand(pre: seq<u8>, op: u8, v: int, w: int, post: seq<u8>)
    ensures Patch(pre + ([op] + U32(v)) + post, |pre| + 1, U32(w)) == pre + ([op] + U32(w)) + post
  {
    hide U32;
    PatchGap(pre + ([op] + U32(v)) + post, pre + [op], U32(v), post, U32(w));
    assert pre + ([op] + U32(v)) + post == (pre + [op]) + U32(v) + post;
    assert pre + ([op] + U32(w)) + post == (pre + [op]) + U32(w) + post;
  }

  lemma AltBytes(pre: seq<u8>, ca: seq<Instr>, cb: seq<Instr>)
    ensures pre + ([15] + U32(Size(ca) + 5)) + Asm(ca) + ([13] + U32(Size(cb))) + Asm(cb) == pre + Asm(AltCode(ca, cb))
  {
    hide Asm, U32;
    var split, go := OpSplit(true, Size(ca) + 5), OpGoto(Size(cb));
    AsmCons(split, ca + ([go] + cb));
    AsmConcat(ca, [go] + cb);
    AsmCons(go, cb);
    AltJoin(pre, Encode(split), Asm(ca), Encode(go), Asm(cb));
  }

  lemma AltJoin(a: seq<u8>, b: seq<u8>, c: seq<u8>, d: seq<u8>, e: seq<u8>)
    ensures a + b + c + d + e == a + (b + (c + (d + e)))
  {
  }

  lemma LookBytes(pre: seq<u8>, neg: bool, ca: seq<Instr>)
    ensures pre + ([40 + Bit(neg)] + U32(Size(ca) + 1)) + (Asm(ca) + [17 + Bit(neg)]) == pre + Asm(LookCode(neg, ca))
  {
    hide Asm, U32;
    var look := OpLook(neg, Size(ca) + 1);
    AsmCons(look, ca + [OpLookMatch(neg)]);
    AsmTail(ca, OpLookMatch(neg));
  }

  // ----- the register scan over bytes

  function PrependAll(code: seq<Instr>, a: Allocation): Allocation {
    if a.Allocated? then a.(code := code + a.code) else a
  }

  lemma AllocationStart(a: Allocation)
    ensures PrependAll([], a) == a
  {
    if a.Allocated? { assert [] + a.code == a.code; }
  }

  lemma AllocationEnd(done: seq<Instr>, rest: seq<Instr>, size: nat, max: nat)
    requires rest == []
    ensures PrependAll(done, Allocate(rest, size, max)) == Allocated(done, size, max)
    ensures Asm(done) + Asm(rest) == Asm(done)
  {
  }

  lemma AllocateStep(rest: seq<Instr>, size: nat, max: nat)
    requires rest != []
    ensures var i := rest[0];
            Allocate(rest, size, max)
            == if IsPush(i) then
                 if size + 1 > max && size + 1 > REGISTER_COUNT_MAX then TooMany
                 else PrependAll([WithRegister(i, size)], Allocate(rest[1..], size + 1, Larger(max, size + 1)))
               else if size < Pops(i) then Underflow
               else PrependAll([if Pops(i) > 0 then WithRegister(i, size - Pops(i)) else i], Allocate(rest[1..], size - Pops(i), max))
  {
    hide WithRegister;
  }

  lemma StepNeverUnderflows(done: seq<Instr>, a: Allocation)
    ensures PrependAll(done, a) != Underflow ==> a != Underflow
    ensures a == TooMany ==> PrependAll(done, a) == TooMany
  {
  }

  lemma PrependTwice(done: seq<Instr>, i: Instr, a: Allocation)
    ensures PrependAll(done, PrependAll([i], a)) == PrependAll(done + [i], a)
  {
    if a.Allocated? { assert done + ([i] + a.code) == (done + [i]) + a.code; }
  }

  lemma OpcodeRegisters(i: Instr)
    requires CountFits(i)
    ensures var op := Encode(i)[0];
            && (IsPush(i) <==> op == 27 || op == 42)
            && Pops(i) == if op == 43 || 22 <= op <= 24 then 1 else if op == 25 || op == 26 then 2 else 0
  {
  }

  /** The register of an instruction is its second byte. */
  lemma RegisterEncoded(i: Instr, r: nat)
    requires IsPush(i) || Pops(i) > 0
    ensures Len(i) >= 2 && Encode(WithRegister(i, r)) == Patch(Encode(i), 1, Byte(r))
  {
  }

  lemma RegisterByte(header: seq<u8>, done: seq<Instr>, i: Instr, rest: seq<Instr>, r: nat)
    requires IsPush(i) || Pops(i) > 0
    ensures Len(i) >= 2
    ensures Patch(header + Asm(done) + Asm([i] + rest), |header| + Size(done) + 1, Byte(r))
            == header + Asm(done + [WithRegister(i, r)]) + Asm(rest)
    ensures Size(done + [WithRegister(i, r)]) == Size(done) + Len(i)
  {
    hide Asm, Encode, WithRegister, Byte;
    RegisterEncoded(i, r);
    AsmCons(i, rest);
    AsmTail(done, WithRegister(i, r));
    var pre := header + Asm(done);
    assert header + Asm(done) + (Encode(i) + Asm(rest)) == pre + Encode(i) + Asm(rest);
    PatchInside(pre, Encode(i), Asm(rest), 1, Byte(r));
  }

  lemma PatchInside(pre: seq<u8>, mid: seq<u8>, post: seq<u8>, k: nat, f: seq<u8>)
    requires k + |f| <= |mid|
    ensures Patch(pre + mid + post, |pre| + k, f) == pre + Patch(mid, k, f) + post
  {
  }

  lemma KeepBytes(header: seq<u8>, done: seq<Instr>, i: Instr, rest: seq<Instr>)
    ensures header + Asm(done) + Asm([i] + rest) == header + Asm(done + [i]) + Asm(rest)
    ensures Size(done + [i]) == Size(done) + Len(i)
  {
    hide Asm, Encode;
    AsmCons(i, rest);
    AsmTail(done, i);
  }

  class Compiler {
    var byteCode: seq<u8>
    var captureCount: nat

    constructor ()
      ensures byteCode == [] && captureCount == 1
    {
      byteCode, captureCount := [], 1;
    }

    // ----- dbuf_putc, dbuf_put_u16, dbuf_put_u32, dbuf_insert, put_u32

    method Put(v: int)
      modifies `byteCode
      ensures byteCode == old(byteCode) + Byte(v)
    {
      byteCode := byteCode + [v % 256];
    }

    method PutU16(v: int)
      modifies `byteCode
      ensures byteCode == old(byteCode) + U16(v)
    {
      byteCode := byteCode + U16(v);
    }

    method PutU32(v: int)
      modifies `byteCode
      ensures byteCode == old(byteCode) + U32(v)
    {
      byteCode := byteCode + U32(v);
    }

    /** The bytes that open up hold leftovers. */
    method Insert(pos: nat, len: nat) returns (ghost gap: seq<u8>)
      requires pos <= |byteCode|
      modifies `byteCode
      ensures |gap| == len && byteCode == old(byteCode)[..pos] + gap + old(byteCode)[pos..]
    {
      var left := seq(len, _ => 0);
      gap := left;
      byteCode := byteCode[..pos] + left + byteCode[pos..];
    }

    method SetByte(pos: nat, v: int)
      requires pos < |byteCode|
      modifies `byteCode
      ensures byteCode == Patch(old(byteCode), pos, Byte(v))
    {
      byteCode := byteCode[pos := v % 256];
    }

    method SetU32(pos: nat, v: int)
      requires pos + 4 <= |byteCode|
      modifies `byteCode
      ensures byteCode == Patch(old(byteCode), pos, U32(v))
    {
      byteCode := byteCode[..pos] + U32(v) + byteCode[pos + 4..];
    }

    // ----- re_emit_op and its relatives

    method EmitOp(op: u8)
      modifies `byteCode
      ensures byteCode == old(byteCode) + [op]
    {
      Put(op);
    }

    method EmitOpU8(op: u8, v: int)
      modifies `byteCode
      ensures byteCode == old(byteCode) + ([op] + Byte(v))
    {
      Put(op);
      Put(v);
    }

    method EmitOpU16(op: u8, v: int)
      modifies `byteCode
      ensures byteCode == old(byteCode) + ([op] + U16(v))
    {
      Put(op);
      PutU16(v);
    }

    /** Returns the position of the operand. */
    method EmitOpU32(op: u8, v: int) returns (pos: nat)
      modifies `byteCode
      ensures byteCode == old(byteCode) + ([op] + U32(v)) && pos == |old(byteCode)| + 1
    {
      Put(op);
      pos := |byteCode|;
      PutU32(v);
    }

    method EmitGoto(op: u8, target: nat)
      modifies `byteCode
      ensures byteCode == old(byteCode) + ([op] + U32(target - (|old(byteCode)| + 5)))
    {
      Put(op);
      var pos := |byteCode|;
      PutU32(target - (pos + 4));
    }

    method EmitGotoU8(op: u8, arg: int, target: nat)
      modifies `byteCode
      ensures byteCode == old(byteCode) + ([op] + (Byte(arg) + U32(target - (|old(byteCode)| + 6))))
    {
      Put(op);
      Put(arg);
      var pos := |byteCode|;
      PutU32(target - (pos + 4));
    }

    method EmitGotoU8U32(op: u8, arg0: int, arg1: int, target: nat)
      modifies `byteCode
      ensures byteCode == old(byteCode) + ([op] + (Byte(arg0) + (U32(arg1) + U32(target - (|old(byteCode)| + 10)))))
    {
      Put(op);
      Put(arg0);
      PutU32(arg1);
      var pos := |byteCode|;
      PutU32(target - (pos + 4));
    }

    /** re_emit_char */
    method EmitCharacter(c: nat)
      modifies `byteCode
      ensures byteCode == old(byteCode) + Encode(EmitChar(c))
    {
      if c <= 0xffff {
        EmitOpU16(1, c);
      } else {
        var _ := EmitOpU32(3, c);
      }
    }

    method PutShortRanges(points: seq<nat>)
      requires Increasing(points)
      modifies `byteCode
      ensures byteCode == old(byteCode) + U16s(ShortBounds(points))
    {
      ghost var vs := ShortBounds(points);
      var i := 0;
      while i < |points|
        invariant 0 <= i <= |points| && i % 2 == 0
        invariant byteCode == old(byteCode) + U16s(vs[..i])
      {
        var high := (points[i + 1] - 1) % 0x1_0000_0000;
        if high == UINT32_MAX - 1 {
          high := 0xffff;
        }
        assert vs[i] == points[i] && vs[i + 1] == high by { assert points[i] < points[i + 1]; }
        U16sMore(vs[..i], points[i], high);
        assert vs[..i + 2] == vs[..i] + [points[i] as int, high];
        PutU16(points[i]);
        PutU16(high);
        i := i + 2;
      }
      assert vs[..i] == vs;
    }

    method PutLongRanges(points: seq<nat>)
      requires Increasing(points)
      modifies `byteCode
      ensures byteCode == old(byteCode) + U32s(LongBounds(points))
    {
      hide U32;
      ghost var vs := LongBounds(points);
      var i := 0;
      while i < |points|
        invariant 0 <= i <= |points| && i % 2 == 0
        invariant byteCode == old(byteCode) + U32s(vs[..i])
      {
        U32sMore(vs[..i], points[i], points[i + 1] - 1);
        assert vs[..i + 2] == vs[..i] + [points[i] as int, points[i + 1] - 1];
        PutU32(points[i]);
        PutU32(points[i + 1] - 1);
        i := i + 2;
      }
      assert vs[..i] == vs;
    }

    /** re_emit_range: fails on a class of 65535 ranges or more. */
    method EmitClass(points: seq<nat>) returns (ok: bool)
      requires Increasing(points)
      modifies `byteCode
      ensures ok <==> |points| / 2 < 65535
      ensures byteCode == old(byteCode) + if ok then Encode(EmitRange(points)) else []
    {
      hide U16, U32, U16s, U32s, ShortBounds, LongBounds;
      var len := |points| / 2;
      if len >= 65535 {
        return false;
      }
      ok := true;
      if len == 0 {
        var _ := EmitOpU32(3, UINT32_MAX);
        return;
      }
      var high := points[|points| - 1];
      if high == UINT32_MAX {
        high := points[|points| - 2];
      }
      ghost var start := byteCode;
      if high <= 0xffff {
        EmitOpU16(36, len);
        PutShortRanges(points);
        Rejoin(start, [36], U16(len), U16s(ShortBounds(points)));
      } else {
        EmitOpU16(38, len);
        PutLongRanges(points);
        Rejoin(start, [38], U16(len), U32s(LongBounds(points)));
      }
    }

    /** re_parse_alternative, backward: the term that was just emitted is moved in front of the ones before it. */
    method MoveToFront(start: nat, termStart: nat)
      requires start <= termStart <= |byteCode|
      modifies `byteCode
      ensures byteCode == old(byteCode)[..start] + (old(byteCode)[termStart..] + old(byteCode)[start..termStart])
    {
      var end := |byteCode|;
      var termSize := end - termStart;
      var buf := byteCode[..start + termSize] + byteCode[start..];
      assert buf[end..] == byteCode[termStart..];
      assert buf[start + termSize..end] == byteCode[start..termStart];
      byteCode := buf[..start] + buf[end..end + termSize] + buf[start + termSize..end];
    }

    // ----- the layouts of a quantifier around the code of its atom, which starts at `start`

    /** An opcode and a word over five bytes that Insert has opened up. */
    method SetOpU32(pos: nat, op: u8, v: int)
      requires pos + 5 <= |byteCode|
      modifies `byteCode
      ensures byteCode == Patch(old(byteCode), pos, [op] + U32(v))
    {
      SetByte(pos, op);
      SetU32(pos + 1, v);
      PatchJoin(old(byteCode), pos, [op], U32(v));
    }

    method SetOpU8(pos: nat, op: u8, v: int)
      requires pos + 2 <= |byteCode|
      modifies `byteCode
      ensures byteCode == Patch(old(byteCode), pos, [op] + Byte(v))
    {
      SetByte(pos, op);
      SetByte(pos + 1, v);
      PatchJoin(old(byteCode), pos, [op], Byte(v));
    }

    method SetOpU8U32(pos: nat, op: u8, r: int, v: int)
      requires pos + 6 <= |byteCode|
      modifies `byteCode
      ensures byteCode == Patch(old(byteCode), pos, [op] + (Byte(r) + U32(v)))
    {
      SetOpU8(pos, op, r);
      SetU32(pos + 2, v);
      PatchJoin(old(byteCode), pos, [op] + Byte(r), U32(v));
      assert ([op] + Byte(r)) + U32(v) == [op] + (Byte(r) + U32(v));
    }

    /** save_reset in front of the bytes at `pos`. */
    method InsertReset(pos: nat, first: nat, last: nat, ghost pre: seq<u8>, ghost post: seq<u8>)
      requires byteCode == pre + post && |pre| == pos
      modifies `byteCode
      ensures byteCode == pre + Encode(OpSaveReset(first, last)) + post
    {
      ghost var gap := Insert(pos, 3);
      assert byteCode == pre + gap + post;
      ghost var b := byteCode;
      SetOpU8(pos, 21, first);
      SetByte(pos + 2, last);
      PatchJoin(b, pos, [21] + Byte(first), Byte(last));
      PatchGap(b, pre, gap, post, Encode(OpSaveReset(first, last)));
      assert ([21] + Byte(first)) + Byte(last) == Encode(OpSaveReset(first, last));
    }

    /** A split, and set_char_pos if the atom needs an advance check, in front of the bytes at `start`. */
    method InsertSplit(start: nat, greedy: bool, off: int, adv: bool, ghost pre: seq<u8>, ghost post: seq<u8>)
      requires byteCode == pre + post && |pre| == start
      modifies `byteCode
      ensures byteCode == pre + (([14 + Bit(greedy)] + U32(off)) + Guarded(adv, [42] + Byte(0))) + post
    {
      hide U32, Patch, Byte;
      var gap := Insert(start, 5 + Bit(adv) * 2);
      ghost var b := byteCode;
      assert b == pre + gap + post;
      ghost var split := [14 + Bit(greedy)] + U32(off);
      SetOpU32(start, 14 + Bit(greedy), off);
      if adv {
        SetOpU8(start + 1 + 4, 42, 0);
        PatchJoin(b, start, split, [42] + Byte(0));
        PatchGap(b, pre, gap, post, split + ([42] + Byte(0)));
      } else {
        PatchGap(b, pre, gap, post, split);
        assert split + [] == split;
      }
    }

    /** The same with a counter in between. */
    method InsertSplitCounter(start: nat, greedy: bool, off: int, v: int, adv: bool, ghost pre: seq<u8>, ghost post: seq<u8>)
      requires byteCode == pre + post && |pre| == start
      modifies `byteCode
      ensures byteCode == pre + (([14 + Bit(greedy)] + U32(off)) + ([27] + (Byte(0) + U32(v))) + Guarded(adv, [42] + Byte(0))) + post
    {
      hide U32, Patch, Byte;
      var gap := Insert(start, 11 + Bit(adv) * 2);
      ghost var b := byteCode;
      assert b == pre + gap + post;
      ghost var split, store := [14 + Bit(greedy)] + U32(off), [27] + (Byte(0) + U32(v));
      SetOpU32(start, 14 + Bit(greedy), off);
      SetOpU8U32(start + 5, 27, 0, v);
      PatchJoin(b, start, split, store);
      if adv {
        SetOpU8(start + 11, 42, 0);
        PatchJoin(b, start, split + store, [42] + Byte(0));
        PatchGap(b, pre, gap, post, split + store + ([42] + Byte(0)));
      } else {
        PatchGap(b, pre, gap, post, split + store);
        assert split + store + [] == split + store;
      }
    }

    /** A counter without a split. */
    method InsertCounter(start: nat, v: int, adv: bool, ghost pre: seq<u8>, ghost post: seq<u8>)
      requires byteCode == pre + post && |pre| == start
      modifies `byteCode
      ensures byteCode == pre + (([27] + (Byte(0) + U32(v))) + Guarded(adv, [42] + Byte(0))) + post
    {
      hide U32, Patch, Byte;
      var gap := Insert(start, 6 + Bit(adv) * 2);
      ghost var b := byteCode;
      assert b == pre + gap + post;
      ghost var store := [27] + (Byte(0) + U32(v));
      SetOpU8U32(start, 27, 0, v);
      if adv {
        SetOpU8(start + 6, 42, 0);
        PatchJoin(b, start, store, [42] + Byte(0));
        PatchGap(b, pre, gap, post, store + ([42] + Byte(0)));
      } else {
        PatchGap(b, pre, gap, post, store);
        assert store + [] == store;
      }
    }

    /** `?` and `*`: the code between the split and the end, or the jump back to the split. */
    method QuantifyOptional(start: nat, hasGoto: bool, adv: bool, min: nat, max: nat, greedy: bool, ghost pre: seq<u8>, ghost body: seq<Instr>)
      requires byteCode == pre + Asm(body) && |pre| == start
      modifies `byteCode
      ensures byteCode == pre + Asm(Quantified(if hasGoto then Star else Optional, adv, body, min, max, greedy, -1))
    {
      hide U32, Asm, Quantified, Byte, Encode, Patch;
      var len := |byteCode| - start;
      InsertSplit(start, greedy, len + 5 * Bit(hasGoto) + Bit(adv) * 2 * 2, adv, pre, Asm(body));
      if adv {
        EmitOpU8(43, 0);
      }
      if hasGoto {
        EmitGoto(13, start);
        StarJoin(pre, adv, body, min, max, greedy);
      } else {
        OptionalJoin(pre, adv, body, min, max, greedy);
      }
    }

    /** `{0,max}` */
    method QuantifyBounded(start: nat, adv: bool, min: nat, max: nat, greedy: bool, ghost pre: seq<u8>, ghost body: seq<Instr>)
      requires byteCode == pre + Asm(body) && |pre| == start
      modifies `byteCode
      ensures byteCode == pre + Asm(Quantified(Bounded, adv, body, min, max, greedy, -1))
    {
      hide U32, Asm, Quantified, Byte, Encode, Patch;
      var len := |byteCode| - start;
      InsertSplitCounter(start, greedy, 6 + Bit(adv) * 2 + len + 10, max, adv, pre, Asm(body));
      EmitGotoU8U32(if adv then 26 - Bit(greedy) else 24 - Bit(greedy), 0, max, start + 11);
      BoundedJoin(pre, adv, body, min, max, greedy);
    }

    /** `{min,max}` with min > 0 */
    method QuantifyCounted(start: nat, adv: bool, min: nat, max: nat, greedy: bool, ghost pre: seq<u8>, ghost body: seq<Instr>)
      requires byteCode == pre + Asm(body) && |pre| == start && min <= max
      modifies `byteCode
      ensures byteCode == pre + Asm(Quantified(if min == max then Exact else Counted, adv, body, min, max, greedy, -1))
    {
      hide U32, Asm, Quantified, Byte, Encode, Patch;
      var check := adv;
      if min == max {
        check := false;
      }
      InsertCounter(start, max, check, pre, Asm(body));
      if min == max {
        EmitGotoU8(22, 0, start + 6);
        ExactJoin(pre, adv, body, min, max, greedy);
      } else {
        EmitGotoU8U32(if check then 26 - Bit(greedy) else 24 - Bit(greedy), 0, max - min, start + 6);
        CountedJoin(pre, adv, body, min, max, greedy);
      }
    }

    /** The resets of the atom's captures. `first` is where the atom now starts, behind the reset for the case
        that it is skipped. */
    method InsertResets(start: nat, cc: nat, min: nat, ghost atom: Node, ghost back: bool, ghost pre: seq<u8>) returns (first: nat, adv: bool)
      requires byteCode == pre + Asm(Comp(atom, back, cc, -1)) && |pre| == start
      requires captureCount == cc + Groups(atom) && AllCountsFit(Comp(atom, back, cc, -1))
      modifies `byteCode
      ensures adv == NeedAdvance(atom, back, cc)
      ensures byteCode == (pre + Asm(Prefix(atom, back, cc, min))) + Asm(Body(atom, back, cc, -1))
      ensures first == |pre + Asm(Prefix(atom, back, cc, min))|
    {
      hide U32, Asm, Byte, Encode, Patch, Comp, AllCountsFit, ScanCode, Body, Prefix, Groups;
      ghost var code := Comp(atom, back, cc, -1);
      var init: bool;
      assert byteCode[start..] == Asm(code);
      adv, init := NeedCheckAdvAndCaptureInit(byteCode[start..], code);
      AtomScanIs(atom, back, cc);
      hide NeedAdvance, NeedInit;
      ghost var body := Body(atom, back, cc, -1);
      ghost var reset := Encode(OpSaveReset(cc, cc + Groups(atom) - 1));
      BodyBytes(atom, back, cc);
      PrefixBytes(atom, back, cc, min);
      if init && cc != captureCount {
        InsertReset(start, cc, captureCount - 1, pre, Asm(code));
        assert pre + reset + Asm(code) == pre + (reset + Asm(code));
      }
      assert byteCode == pre + Asm(body);
      first := start;
      if min == 0 && !init && cc != captureCount {
        InsertReset(start, cc, captureCount - 1, pre, Asm(body));
        first := start + 3;
      }
    }

    /** The quantifier part of re_parse_term: `start` is last_atom_start, `cc` is last_capture_count. */
    method Quantify(start: nat, cc: nat, min: nat, max: Max, greedy: bool, ghost atom: Node, ghost back: bool, ghost pre: seq<u8>)
      requires byteCode == pre + Asm(Comp(atom, back, cc, -1)) && |pre| == start
      requires captureCount == cc + Groups(atom) && AllCountsFit(Comp(atom, back, cc, -1))
      requires min <= QuantMax(max)
      modifies `byteCode
      ensures byteCode == pre + Asm(QuantCode(atom, back, cc, min, max, greedy, -1))
    {
      hide U32, Asm, Quantified, Byte, Encode, Patch, Comp, AllCountsFit, NeedAdvance, NeedInit, Body, Prefix, QuantCode, Groups;
      var first, adv := InsertResets(start, cc, min, atom, back, pre);
      ghost var front, body := pre + Asm(Prefix(atom, back, cc, min)), Body(atom, back, cc, -1);
      var m := QuantMax(max);
      QuantBytes(pre, atom, back, cc, min, max, greedy);
      if min == 0 {
        if m == 0 {
          byteCode := byteCode[..first];
          DroppedBytes(front, adv, body, min, m, greedy);
        } else if m == 1 || m == INT32_MAX {
          QuantifyOptional(first, m == INT32_MAX, adv, min, m, greedy, front, body);
        } else {
          QuantifyBounded(first, adv, min, m, greedy, front, body);
        }
      } else if min == 1 && m == INT32_MAX && !adv {
        EmitGoto(15 - Bit(greedy), first);
        PlusBytes(front, adv, body, min, m, greedy);
      } else {
        QuantifyCounted(first, adv, min, m, greedy, front, body);
      }
    }

    /** re_parse_term, re_parse_alternative and re_parse_disjunction, with the pattern already read: appends
        the code of `node`. Fails if a class has too many ranges or if there are more than 254 groups. */
    method CompileNode(node: Node, back: bool, ghost ncap: nat) returns (ok: bool)
      requires Readable(node, ncap) && captureCount <= CAPTURE_COUNT_MAX
      modifies this
      ensures ok <==> RangesFit(node) && old(captureCount) + Groups(node) <= CAPTURE_COUNT_MAX
      ensures ok ==> captureCount == old(captureCount) + Groups(node)
      ensures ok ==> byteCode == old(byteCode) + Asm(Comp(node, back, old(captureCount), -1))
      decreases node, 1
    {
      hide Comp, Asm, Encode, Readable, RangesFit, Groups;
      ghost var pre, cc := byteCode, captureCount;
      ReadableParts(node, ncap);
      RangesParts(node);
      GroupsParts(node);
      match node
      case Cat(a, b) =>
        var start := |byteCode|;
        ok := CompileNode(a, back, ncap);
        if !ok { return; }
        var termStart := |byteCode|;
        ok := CompileNode(b, back, ncap);
        if !ok { return; }
        ghost var ca, cb := Comp(a, back, cc, -1), Comp(b, back, cc + Groups(a), -1);
        CompCat(a, b, back, cc, -1);
        if back {
          MoveToFront(start, termStart);
          AsmConcat(cb, ca);
          assert byteCode == pre + (Asm(cb) + Asm(ca));
        } else {
          AsmConcat(ca, cb);
          assert byteCode == pre + (Asm(ca) + Asm(cb));
        }
      case Alt(a, b) =>
        ok := CompileAlt(a, b, back, ncap);
      case Group(a) =>
        ok := CompileGroup(a, back, ncap);
      case Look(behind, neg, a) =>
        ok := CompileLook(behind, neg, a, back, ncap);
      case Quant(a, min, max, greedy) =>
        var start, last := |byteCode|, captureCount;
        ok := CompileNode(a, back, ncap);
        if !ok { return; }
        ReadableFits(a, ncap);
        CompCountsFit(a, back, cc, -1, ncap);
        Quantify(start, last, min, max, greedy, a, back, pre);
        CompQuant(a, min, max, greedy, back, cc, -1);
      case _ =>
        ok := CompileLeaf(node, back, ncap);
    }

    method CompileAlt(a: Node, b: Node, back: bool, ghost ncap: nat) returns (ok: bool)
      requires Readable(Alt(a, b), ncap) && captureCount <= CAPTURE_COUNT_MAX
      modifies this
      ensures ok <==> RangesFit(Alt(a, b)) && old(captureCount) + Groups(Alt(a, b)) <= CAPTURE_COUNT_MAX
      ensures ok ==> captureCount == old(captureCount) + Groups(Alt(a, b))
      ensures ok ==> byteCode == old(byteCode) + Asm(Comp(Alt(a, b), back, old(captureCount), -1))
      decreases Alt(a, b), 0
    {
      hide Comp, Asm, Encode, Readable, RangesFit, Groups, Patch, U32;
      ghost var pre, cc := byteCode, captureCount;
      ReadableParts(Alt(a, b), ncap);
      RangesParts(Alt(a, b));
      GroupsParts(Alt(a, b));
      var start := |byteCode|;
      ok := CompileNode(a, back, ncap);
      if !ok { return; }
      var len := |byteCode| - start;
      ghost var ca := Comp(a, back, cc, -1);
      ghost var gap := Insert(start, 5);
      assert byteCode == pre + gap + Asm(ca);
      PatchGap(byteCode, pre, gap, Asm(ca), [15] + U32(len + 5));
      SetOpU32(start, 15, len + 5);
      ghost var before := byteCode;
      var pos := EmitOpU32(13, 0);
      ghost var middle := byteCode;
      ok := CompileNode(b, back, ncap);
      if !ok { return; }
      len := |byteCode| - (pos + 4);
      ghost var cb := Comp(b, back, cc + Groups(a), -1);
      SetU32(pos, len);
      PatchOperand(before, 13, 0, len, Asm(cb));
      CompAlt(a, b, back, cc, -1);
      AltBytes(pre, ca, cb);
    }

    method CompileGroup(a: Node, back: bool, ghost ncap: nat) returns (ok: bool)
      requires Readable(Group(a), ncap) && captureCount <= CAPTURE_COUNT_MAX
      modifies this
      ensures ok <==> RangesFit(Group(a)) && old(captureCount) + Groups(Group(a)) <= CAPTURE_COUNT_MAX
      ensures ok ==> captureCount == old(captureCount) + Groups(Group(a))
      ensures ok ==> byteCode == old(byteCode) + Asm(Comp(Group(a), back, old(captureCount), -1))
      decreases Group(a), 0
    {
      hide Comp, Asm, Readable, RangesFit, Groups;
      ghost var pre, cc := byteCode, captureCount;
      ReadableParts(Group(a), ncap);
      RangesParts(Group(a));
      GroupsParts(Group(a));
      if captureCount >= CAPTURE_COUNT_MAX {
        return false;
      }
      var captureIndex := captureCount;
      captureCount := captureCount + 1;
      EmitOpU8(19 + Bit(back), captureIndex);
      ok := CompileNode(a, back, ncap);
      if !ok { return; }
      EmitOpU8(19 + 1 - Bit(back), captureIndex);
      CompGroup(a, back, cc, -1);
      ghost var ca := Comp(a, back, cc + 1, -1);
      AsmCons(OpSave(back, cc), ca + [OpSave(!back, cc)]);
      AsmTail(ca, OpSave(!back, cc));
      assert byteCode == pre + (Encode(OpSave(back, cc)) + (Asm(ca) + Encode(OpSave(!back, cc))));
    }

    method CompileLook(behind: bool, neg: bool, a: Node, ghost back: bool, ghost ncap: nat) returns (ok: bool)
      requires Readable(Look(behind, neg, a), ncap) && captureCount <= CAPTURE_COUNT_MAX
      modifies this
      ensures ok <==> RangesFit(Look(behind, neg, a)) && old(captureCount) + Groups(Look(behind, neg, a)) <= CAPTURE_COUNT_MAX
      ensures ok ==> captureCount == old(captureCount) + Groups(Look(behind, neg, a))
      ensures ok ==> byteCode == old(byteCode) + Asm(Comp(Look(behind, neg, a), back, old(captureCount), -1))
      decreases Look(behind, neg, a), 0
    {
      hide Comp, Asm, Encode, Readable, RangesFit, Groups, Patch, U32;
      ghost var pre, cc := byteCode, captureCount;
      ReadableParts(Look(behind, neg, a), ncap);
      RangesParts(Look(behind, neg, a));
      GroupsParts(Look(behind, neg, a));
      var pos := EmitOpU32(40 + Bit(neg), 0);
      ok := CompileNode(a, behind, ncap);
      if !ok { return; }
      EmitOp(17 + Bit(neg));
      var len := |byteCode| - (pos + 4);
      SetU32(pos, len);
      ghost var ca := Comp(a, behind, cc, -1);
      assert pre + ([40 + Bit(neg)] + U32(0)) + Asm(ca) + [17 + Bit(neg)] == pre + ([40 + Bit(neg)] + U32(0)) + (Asm(ca) + [17 + Bit(neg)]);
      PatchOperand(pre, 40 + Bit(neg), 0, len, Asm(ca) + [17 + Bit(neg)]);
      CompLook(behind, neg, a, back, cc, -1);
      LookBytes(pre, neg, ca);
    }

    method CompileLeaf(node: Node, back: bool, ghost ncap: nat) returns (ok: bool)
      requires IsLeaf(node) && Readable(node, ncap)
      modifies `byteCode
      ensures ok <==> RangesFit(node)
      ensures ok ==> byteCode == old(byteCode) + Asm(Comp(node, back, captureCount, -1))
    {
      hide Asm, U32, Readable, Comp, Encode;
      LeafBytes(node, back, captureCount);
      RangesParts(node);
      if IsSetNode(node) {
        ok := CompileSet(node, back, ncap);
        return;
      }
      ok := true;
      match node
      case Empty =>
      case LineStart(multi) => EmitOp(9 + Bit(multi));
      case LineEnd(multi) => EmitOp(11 + Bit(multi));
      case WordBoundary(neg) => EmitOp(28 + 2 * Bit(neg));
      case BackRef(n) =>
        EmitOpU8(32 + 2 * Bit(back), 1);
        Put(n);
      case _ =>
    }

    method CompileSet(node: Node, back: bool, ghost ncap: nat) returns (ok: bool)
      requires IsSetNode(node) && Readable(node, ncap)
      modifies `byteCode
      ensures ok <==> RangesFit(node)
      ensures ok ==> byteCode == old(byteCode) + Asm(CompSet(node, back))
    {
      hide EmitRange, EmitChar, Asm, U32, Readable, CompSet;
      ghost var pre := byteCode;
      ReadableParts(node, ncap);
      ok := true;
      if back { EmitOp(44); }
      match node {
        case Char(c) => EmitCharacter(c);
        case Dot => EmitOp(5);
        case Any => EmitOp(6);
        case Class(points) => ok := EmitClass(points);
      }
      if back { EmitOp(44); }
      SetBytes(node, back);
      if ok { SetJoin(pre, Guarded(back, [44]), Encode(EmitSet(node)), Guarded(back, [44])); }
    }

    // ----- lre_compile

    /** compute_register_count: the scan over the bytes behind the header numbers the register operands in
        place as Allocate does, and returns how many registers there are. */
    method ComputeRegisterCount(start: nat, ghost s: seq<Instr>) returns (ok: bool, count: nat)
      requires start <= |byteCode| && byteCode[start..] == Asm(s) && AllCountsFit(s)
      requires Allocate(s, 0, 0) != Underflow
      modifies `byteCode
      ensures ok <==> Allocate(s, 0, 0) != TooMany
      ensures ok ==> var a := Allocate(s, 0, 0); byteCode == old(byteCode)[..start] + Asm(a.code) && count == a.max
    {
      hide Asm, Encode, Allocate, AllCountsFit, LengthAt, WithRegister, Patch, Byte, CountFits;
      var header := byteCode[..start];
      var pos: nat, size: nat, max: nat := 0, 0, 0;
      ghost var done: seq<Instr>, rest := [], s;
      NoAsm();
      AllocationStart(Allocate(s, 0, 0));
      assert byteCode == header + Asm(done) + Asm(rest);
      while start + pos < |byteCode|
        invariant pos == |Asm(done)| && byteCode == header + Asm(done) + Asm(rest) && AllCountsFit(rest)
        invariant Allocate(s, 0, 0) == PrependAll(done, Allocate(rest, size, max))
        decreases |rest|
      {
        var code := byteCode[start..];
        assert code == Asm(done) + Asm(rest) && code[pos..] == Asm(rest);
        AsmHead(code, pos, rest);
        ghost var instr := rest[0];
        assert rest == [instr] + rest[1..];
        var op, len := code[pos], LengthAt(code, pos);
        OpcodeRegisters(instr);
        AllocateStep(rest, size, max);
        StepNeverUnderflows(done, Allocate(rest, size, max));
        if op == 27 || op == 42 {
          RegisterByte(header, done, instr, rest[1..], size);
          SetByte(start + pos + 1, size);
          PrependTwice(done, WithRegister(instr, size), Allocate(rest[1..], size + 1, Larger(max, size + 1)));
          done := done + [WithRegister(instr, size)];
          size := size + 1;
          if size > max {
            if size > REGISTER_COUNT_MAX {
              return false, 0;
            }
            max := size;
          }
        } else if op == 43 || 22 <= op <= 24 {
          size := size - 1;
          RegisterByte(header, done, instr, rest[1..], size);
          SetByte(start + pos + 1, size);
          PrependTwice(done, WithRegister(instr, size), Allocate(rest[1..], size, max));
          done := done + [WithRegister(instr, size)];
        } else if op == 25 || op == 26 {
          size := size - 2;
          RegisterByte(header, done, instr, rest[1..], size);
          SetByte(start + pos + 1, size);
          PrependTwice(done, WithRegister(instr, size), Allocate(rest[1..], size, max));
          done := done + [WithRegister(instr, size)];
        } else {
          KeepBytes(header, done, instr, rest[1..]);
          PrependTwice(done, instr, Allocate(rest[1..], size, max));
          done := done + [instr];
        }
        rest := rest[1..];
        pos := pos + len;
      }
      AsmNone(rest);
      AllocationEnd(done, rest, size, max);
      return true, max;
    }
  }

  const LRE_FLAG_STICKY := 32
  const RE_HEADER_CAPTURE_COUNT := 2
  const RE_HEADER_REGISTER_COUNT := 3
  const RE_HEADER_LEN := 8

  predicate IsSticky(flags: nat) {
    flags / LRE_FLAG_STICKY % 2 == 1
  }

  /** The patterns that lre_compile accepts. */
  predicate WithinLimits(node: Node) {
    && RangesFit(node)
    && 1 + Groups(node) <= 255
    && Depth(node, false, 1) <= 255
  }

  /** Flags, number of captures, number of registers and length of the code, then the code. */
  function Image(node: Node, flags: nat): seq<u8> {
    var code := Program(node, IsSticky(flags), 0);
    (U16(flags) + Byte(1 + Groups(node)) + Byte(Depth(node, false, 1)) + U32(Size(code))) + Asm(code)
  }

  /** Everything between the header and the register pass. */
  method EmitProgram(s: Compiler, node: Node, isSticky: bool, ghost header: seq<u8>) returns (ok: bool)
    requires s.byteCode == header && s.captureCount == 1 && Readable(node, 1 + Groups(node))
    modifies s
    ensures ok <==> RangesFit(node) && 1 + Groups(node) <= CAPTURE_COUNT_MAX
    ensures ok ==> s.captureCount == 1 + Groups(node) && s.byteCode == header + Asm(Program(node, isSticky, -1))
  {
    hide Comp, Asm, Encode, Readable, RangesFit, Groups, U32, Byte;
    if !isSticky {
      var _ := s.EmitOpU32(14, 1 + 5);
      s.EmitOp(6);
      var _ := s.EmitOpU32(13, -(5 + 1 + 5));
    }
    s.EmitOpU8(19, 0);
    ok := s.CompileNode(node, false, 1 + Groups(node));
    if !ok { return; }
    s.EmitOpU8(20, 0);
    s.EmitOp(16);
    if isSticky { StickyBytes(header, node); } else { SearchingBytes(header, node); }
  }

  /** lre_compile, with the pattern already read. */
  method Compile(node: Node, flags: nat) returns (ok: bool, image: seq<u8>)
    requires Readable(node, 1 + Groups(node))
    ensures ok <==> WithinLimits(node)
    ensures ok ==> image == Image(node, flags)
  {
    hide Program, Comp, Asm, Encode, Readable, RangesFit, Groups, Depth, Patch, U32, U16, Byte, Allocate;
    var s := new Compiler();
    s.PutU16(flags);
    s.Put(0);
    s.Put(0);
    s.PutU32(0);
    ghost var header := U16(flags) + Byte(0) + Byte(0) + U32(0);
    assert s.byteCode == header by { assert [] + U16(flags) == U16(flags); }
    HeaderSize(flags);
    var isSticky := flags / LRE_FLAG_STICKY % 2 == 1;
    ok := EmitProgram(s, node, isSticky, header);
    if !ok { return false, []; }
    ghost var code := Program(node, isSticky, -1);
    assert s.byteCode[RE_HEADER_LEN..] == Asm(code) && s.byteCode[..RE_HEADER_LEN] == header;
    ProgramCountsFit(node, isSticky, 1 + Groups(node));
    AllocateProgram(node, isSticky);
    var registerCount: nat;
    ok, registerCount := s.ComputeRegisterCount(RE_HEADER_LEN, code);
    if !ok { return false, []; }
    s.SetByte(RE_HEADER_CAPTURE_COUNT, s.captureCount);
    s.SetByte(RE_HEADER_REGISTER_COUNT, registerCount);
    s.SetU32(4, |s.byteCode| - RE_HEADER_LEN);
    HeaderPatched(flags, 1 + Groups(node), registerCount, Asm(Program(node, isSticky, 0)));
    image := s.byteCode;
  }

  lemma HeaderSize(flags: nat)
    ensures |U16(flags) + Byte(0) + Byte(0) + U32(0)| == RE_HEADER_LEN
  {
  }

  lemma HeaderPatched(flags: nat, n: int, r: int, code: seq<u8>)
    ensures |U16(flags)| == 2
    ensures Patch(Patch(Patch(U16(flags) + Byte(0) + Byte(0) + U32(0) + code, 2, Byte(n)), 3, Byte(r)), 4, U32(|code|))
            == U16(flags) + Byte(n) + Byte(r) + U32(|code|) + code
  {
    hide U32, Byte;
    var f := U16(flags);
    var b0 := f + Byte(0) + Byte(0) + U32(0) + code;
    var b1 := f + Byte(n) + Byte(0) + U32(0) + code;
    var b2 := f + Byte(n) + Byte(r) + U32(0) + code;
    assert Patch(b0, 2, Byte(n)) == b1;
    assert Patch(b1, 3, Byte(r)) == b2;
    assert Patch(b2, 4, U32(|code|)) == f + Byte(n) + Byte(r) + U32(|code|) + code;
  }

  lemma PatternBytes(node: Node)
    ensures Asm(Program(node, true, -1)) == ([19] + Byte(0)) + (Asm(Comp(node, false, 1, -1)) + (([20] + Byte(0)) + [16]))
  {
    hide Comp, Asm;
    var body := Comp(node, false, 1, -1);
    var tail := [OpSave(true, 0), OpMatch];
    assert Program(node, true, -1) == [OpSave(false, 0)] + (body + tail);
    assert tail == [OpSave(true, 0)] + [OpMatch];
    AsmTail([OpSave(true, 0)], OpMatch);
    AsmOne(OpSave(true, 0));
    AsmConcat(body, tail);
    AsmCons(OpSave(false, 0), body + tail);
  }

  lemma LoopBytes(node: Node)
    ensures Asm(Program(node, false, -1)) == ([14] + U32(6)) + ([6] + (([13] + U32(-11)) + Asm(Program(node, true, -1))))
  {
    hide Comp, Asm, U32;
    var rest := Program(node, true, -1);
    assert Program(node, false, -1) == [OpSplit(false, 6)] + ([OpAny] + ([OpGoto(-11)] + rest));
    AsmCons(OpSplit(false, 6), [OpAny] + ([OpGoto(-11)] + rest));
    AsmCons(OpAny, [OpGoto(-11)] + rest);
    AsmCons(OpGoto(-11), rest);
  }

  lemma StickyBytes(header: seq<u8>, node: Node)
    ensures header + ([19] + Byte(0)) + Asm(Comp(node, false, 1, -1)) + ([20] + Byte(0)) + [16] == header + Asm(Program(node, true, -1))
  {
    hide Comp, Asm, Program, Byte;
    PatternBytes(node);
    AltJoin(header, [19] + Byte(0), Asm(Comp(node, false, 1, -1)), [20] + Byte(0), [16]);
  }

  lemma SearchingBytes(header: seq<u8>, node: Node)
    ensures header + ([14] + U32(6)) + [6] + ([13] + U32(-11)) + ([19] + Byte(0)) + Asm(Comp(node, false, 1, -1)) + ([20] + Byte(0)) + [16]
            == header + Asm(Program(node, false, -1))
  {
    hide Comp, Asm, Program, U32, Byte;
    LoopBytes(node);
    StickyBytes(header + ([14] + U32(6)) + [6] + ([13] + U32(-11)), node);
    AltJoin(header, [14] + U32(6), [6], [13] + U32(-11), Asm(Program(node, true, -1)));
  }

  lemma ProgramCountsFit(node: Node, sticky: bool, ncap: nat)
    requires Readable(node, ncap) && RangesFit(node)
    ensures AllCountsFit(Program(node, sticky, -1))
  {
    hide Comp;
    ReadableFits(node, ncap);
    CompCountsFit(node, false, 1, -1, ncap);
  }
}
