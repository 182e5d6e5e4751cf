/** The opcodes of the regular expression machine, their byte encoding and its inverse. */
module Bytecode {
  import opened Words

  datatype Instr =
    | OpChar16(c: int)
    | OpChar32(c: int)
    | OpDot
    | OpAny
    | OpLineStart(multi: bool)
    | OpLineEnd(multi: bool)
    | OpGoto(off: int)
    | OpSplit(nextFirst: bool, off: int)
    | OpMatch
    | OpLookMatch(neg: bool)
    | OpSave(isEnd: bool, n: int)
    | OpSaveReset(first: int, last: int)
    | OpLoop(r: int, off: int)
    | OpLoopSplit(checkAdv: bool, nextFirst: bool, r: int, limit: int, off: int)
    | OpSetI32(r: int, v: int)
    | OpWordBoundary(neg: bool)
    | OpBackRef(backward: bool, groups: seq<int>)
    | OpRange16(vs: seq<int>)
    | OpRange32(vs: seq<int>)
    | OpLook(neg: bool, off: int)
    | OpSetCharPos(r: int)
    | OpCheckAdvance(r: int)
    | OpPrev
    | OpInvalid

  function Bit(b: bool): int {
    if b then 1 else 0
  }

  function Byte(v: int): (b: seq<u8>)
    ensures |b| == 1
  {
    [v % 256]
  }

  function Bytes(vs: seq<int>): (b: seq<u8>)
    ensures |b| == |vs|
  {
    if vs == [] then [] else Byte(vs[0]) + Bytes(vs[1..])
  }

  function Encode(i: Instr): seq<u8> {
    match i
    case OpChar16(c) => [1] + U16(c)
    case OpChar32(c) => [3] + U32(c)
    case OpDot => [5]
    case OpAny => [6]
    case OpLineStart(m) => [9 + Bit(m)]
    case OpLineEnd(m) => [11 + Bit(m)]
    case OpGoto(off) => [13] + U32(off)
    case OpSplit(nf, off) => [14 + Bit(nf)] + U32(off)
    case OpMatch => [16]
    case OpLookMatch(neg) => [17 + Bit(neg)]
    case OpSave(e, n) => [19 + Bit(e)] + Byte(n)
    case OpSaveReset(a, b) => [21] + (Byte(a) + Byte(b))
    case OpLoop(r, off) => [22] + (Byte(r) + U32(off))
    case OpLoopSplit(adv, nf, r, limit, off) =>
      [23 + 2 * Bit(adv) + Bit(nf)] + (Byte(r) + (U32(limit) + U32(off)))
    case OpSetI32(r, v) => [27] + (Byte(r) + U32(v))
    case OpWordBoundary(neg) => [28 + 2 * Bit(neg)]
    case OpBackRef(back, gs) => [32 + 2 * Bit(back)] + (Byte(|gs|) + Bytes(gs))
    case OpRange16(vs) => [36] + (U16(|vs| / 2) + U16s(vs))
    case OpRange32(vs) => [38] + (U16(|vs| / 2) + U32s(vs))
    case OpLook(neg, off) => [40 + Bit(neg)] + U32(off)
    case OpSetCharPos(r) => [42] + Byte(r)
    case OpCheckAdvance(r) => [43] + Byte(r)
    case OpPrev => [44]
    case OpInvalid => [0]
  }

  /** The operands fit the fields that hold them. */
  predicate Fits(i: Instr) {
    match i
    case OpChar16(c) => 0 <= c < 0x1_0000
    case OpChar32(c) => 0 <= c <= UINT32_MAX
    case OpGoto(off) => OffsetFits(off)
    case OpSplit(_, off) => OffsetFits(off)
    case OpSave(_, n) => ByteFits(n)
    case OpSaveReset(a, b) => ByteFits(a) && ByteFits(b)
    case OpLoop(r, off) => ByteFits(r) && OffsetFits(off)
    case OpLoopSplit(_, _, r, limit, off) => ByteFits(r) && 0 <= limit <= UINT32_MAX && OffsetFits(off)
    case OpSetI32(r, v) => ByteFits(r) && 0 <= v <= UINT32_MAX
    case OpBackRef(_, gs) => ByteFits(|gs|) && forall k :: 0 <= k < |gs| ==> ByteFits(gs[k])
    case OpRange16(vs) => |vs| % 2 == 0 && 2 <= |vs| < 0x2_0000 && forall k :: 0 <= k < |vs| ==> 0 <= vs[k] < 0x1_0000
    case OpRange32(vs) => |vs| % 2 == 0 && 2 <= |vs| < 0x2_0000 && forall k :: 0 <= k < |vs| ==> 0 <= vs[k] < 0x1_0000_0000
    case OpLook(_, off) => OffsetFits(off)
    case OpSetCharPos(r) => ByteFits(r)
    case OpCheckAdvance(r) => ByteFits(r)
    case _ => true
  }

  predicate ByteFits(v: int) { 0 <= v < 256 }

  predicate OffsetFits(off: int) { -0x8000_0000 <= off <= INT32_MAX }

  function GetBytes(b: seq<u8>, p: nat, n: nat): (vs: seq<int>)
    requires p + n <= |b|
    ensures |vs| == n
    decreases n
  {
    if n == 0 then [] else [b[p] as int] + GetBytes(b, p + 1, n - 1)
  }

  /** The fixed part of each opcode, the second column of `libregexp-opcode.h`. */
  function OpSize(op: int): nat {
    if op == 1 then 3
    else if op == 3 || 13 <= op <= 15 || op == 40 || op == 41 then 5
    else if op == 19 || op == 20 || 32 <= op <= 35 || op == 42 || op == 43 then 2
    else if op == 21 || 36 <= op <= 39 then 3
    else if op == 22 || op == 27 then 6
    else if 23 <= op <= 26 then 10
    else if op == 2 then 3
    else if op == 4 then 5
    else 1
  }

  /** The length of the instruction at `p`, variable part included. */
  function LengthAt(b: seq<u8>, p: nat): (n: nat)
    requires p < |b|
    ensures n >= 1
  {
    var op := b[p] as int;
    if p + OpSize(op) > |b| then OpSize(op)
    else if op == 36 || op == 37 then 3 + 4 * Get16(b, p + 1)
    else if op == 38 || op == 39 then 3 + 8 * Get16(b, p + 1)
    else if 32 <= op <= 35 then 2 + b[p + 1] as int
    else OpSize(op)
  }

  /** What the machine reads at `p`. */
  function Decode(b: seq<u8>, p: nat): Instr {
    if p >= |b| || p + LengthAt(b, p) > |b| then OpInvalid else
    var op := b[p] as int;
    if op == 1 then OpChar16(Get16(b, p + 1))
    else if op == 3 then OpChar32(Get32(b, p + 1))
    else if op == 5 then OpDot
    else if op == 6 then OpAny
    else if op == 9 || op == 10 then OpLineStart(op == 10)
    else if op == 11 || op == 12 then OpLineEnd(op == 12)
    else if op == 13 then OpGoto(ToSigned(Get32(b, p + 1)))
    else if op == 14 || op == 15 then OpSplit(op == 15, ToSigned(Get32(b, p + 1)))
    else if op == 16 then OpMatch
    else if op == 17 || op == 18 then OpLookMatch(op == 18)
    else if op == 19 || op == 20 then OpSave(op == 20, b[p + 1] as int)
    else if op == 21 then OpSaveReset(b[p + 1] as int, b[p + 2] as int)
    else if op == 22 then OpLoop(b[p + 1] as int, ToSigned(Get32(b, p + 2)))
    else if 23 <= op <= 26 then
      OpLoopSplit(op >= 25, op == 24 || op == 26, b[p + 1] as int, Get32(b, p + 2), ToSigned(Get32(b, p + 6)))
    else if op == 27 then OpSetI32(b[p + 1] as int, Get32(b, p + 2))
    else if op == 28 || op == 30 then OpWordBoundary(op == 30)
    else if op == 32 || op == 34 then OpBackRef(op == 34, GetBytes(b, p + 2, b[p + 1] as int))
    else if op == 36 then OpRange16(Get16s(b, p + 3, 2 * Get16(b, p + 1)))
    else if op == 38 then OpRange32(Get32s(b, p + 3, 2 * Get16(b, p + 1)))
    else if op == 40 || op == 41 then OpLook(op == 41, ToSigned(Get32(b, p + 1)))
    else if op == 42 then OpSetCharPos(b[p + 1] as int)
    else if op == 43 then OpCheckAdvance(b[p + 1] as int)
    else if op == 44 then OpPrev
    else OpInvalid
  }

  function Len(i: Instr): (n: nat)
    ensures n == |Encode(i)| && n >= 1
  {
    |Encode(i)|
  }

  lemma {:induction false} GetBytesAt(b: seq<u8>, p: nat, vs: seq<int>)
    requires At(b, p, Bytes(vs)) && forall k :: 0 <= k < |vs| ==> ByteFits(vs[k])
    ensures GetBytes(b, p, |vs|) == vs
    decreases |vs|
  {
    if vs != [] {
      AtSplit(b, p, Byte(vs[0]), Bytes(vs[1..]));
      AtIndex(b, p, Byte(vs[0]), 0);
      GetBytesAt(b, p + 1, vs[1..]);
      assert vs == [vs[0]] + vs[1..];
    }
  }

  lemma ByteAt(b: seq<u8>, p: nat, v: int, rest: seq<u8>)
    requires At(b, p, Byte(v) + rest)
    ensures ByteFits(v) ==> b[p] as int == v
    ensures At(b, p + 1, rest)
  {
    AtSplit(b, p, Byte(v), rest);
    AtIndex(b, p, Byte(v), 0);
  }

  lemma DecodeChar16(b: seq<u8>, p: nat, c: int)
    requires At(b, p, Encode(OpChar16(c))) && Fits(OpChar16(c))
    ensures p < |b| && LengthAt(b, p) == 3
    ensures Decode(b, p) == OpChar16(c)
  {
    AtIndex(b, p, Encode(OpChar16(c)), 0);
    AtSplit(b, p, [1], U16(c));
    Get16At(b, p + 1, c);
  }

  lemma DecodeChar32(b: seq<u8>, p: nat, c: int)
    requires At(b, p, Encode(OpChar32(c))) && Fits(OpChar32(c))
    ensures p < |b| && LengthAt(b, p) == 5
    ensures Decode(b, p) == OpChar32(c)
  {
    AtIndex(b, p, Encode(OpChar32(c)), 0);
    AtSplit(b, p, [3], U32(c));
    Get32AtSmall(b, p + 1, c);
  }

  lemma DecodeGoto(b: seq<u8>, p: nat, off: int)
    requires At(b, p, Encode(OpGoto(off))) && Fits(OpGoto(off))
    ensures p < |b| && LengthAt(b, p) == 5
    ensures Decode(b, p) == OpGoto(off)
  {
    AtIndex(b, p, Encode(OpGoto(off)), 0);
    AtSplit(b, p, [13], U32(off));
    GetSignedAt(b, p + 1, off);
  }

  lemma DecodeSplit(b: seq<u8>, p: nat, nf: bool, off: int)
    requires At(b, p, Encode(OpSplit(nf, off))) && Fits(OpSplit(nf, off))
    ensures p < |b| && LengthAt(b, p) == 5
    ensures Decode(b, p) == OpSplit(nf, off)
  {
    AtIndex(b, p, Encode(OpSplit(nf, off)), 0);
    AtSplit(b, p, [14 + Bit(nf)], U32(off));
    GetSignedAt(b, p + 1, off);
  }

  lemma DecodeLook(b: seq<u8>, p: nat, neg: bool, off: int)
    requires At(b, p, Encode(OpLook(neg, off))) && Fits(OpLook(neg, off))
    ensures p < |b| && LengthAt(b, p) == 5
    ensures Decode(b, p) == OpLook(neg, off)
  {
    AtIndex(b, p, Encode(OpLook(neg, off)), 0);
    AtSplit(b, p, [40 + Bit(neg)], U32(off));
    GetSignedAt(b, p + 1, off);
  }

  /** An instruction whose operands are single bytes. */
  lemma DecodeBytes(b: seq<u8>, p: nat, i: Instr)
    requires At(b, p, Encode(i)) && Fits(i)
    requires i.OpSave? || i.OpSaveReset? || i.OpSetCharPos? || i.OpCheckAdvance?
    ensures p < |b| && LengthAt(b, p) == Len(i)
    ensures Decode(b, p) == i
  {
    AtIndex(b, p, Encode(i), 0);
    AtIndex(b, p, Encode(i), 1);
    if i.OpSaveReset? {
      AtIndex(b, p, Encode(i), 2);
    }
  }

  lemma DecodeLoop(b: seq<u8>, p: nat, r: int, off: int)
    requires At(b, p, Encode(OpLoop(r, off))) && Fits(OpLoop(r, off))
    ensures p < |b| && LengthAt(b, p) == 6
    ensures Decode(b, p) == OpLoop(r, off)
  {
    AtIndex(b, p, Encode(OpLoop(r, off)), 0);
    AtSplit(b, p, [22], Byte(r) + U32(off));
    ByteAt(b, p + 1, r, U32(off));
    GetSignedAt(b, p + 2, off);
  }

  lemma DecodeSetI32(b: seq<u8>, p: nat, r: int, v: int)
    requires At(b, p, Encode(OpSetI32(r, v))) && Fits(OpSetI32(r, v))
    ensures p < |b| && LengthAt(b, p) == 6
    ensures Decode(b, p) == OpSetI32(r, v)
  {
    AtIndex(b, p, Encode(OpSetI32(r, v)), 0);
    AtSplit(b, p, [27], Byte(r) + U32(v));
    ByteAt(b, p + 1, r, U32(v));
    Get32AtSmall(b, p + 2, v);
  }

  lemma DecodeLoopSplit(b: seq<u8>, p: nat, adv: bool, nf: bool, r: int, limit: int, off: int)
    requires At(b, p, Encode(OpLoopSplit(adv, nf, r, limit, off))) && Fits(OpLoopSplit(adv, nf, r, limit, off))
    ensures p < |b| && LengthAt(b, p) == 10
    ensures Decode(b, p) == OpLoopSplit(adv, nf, r, limit, off)
  {
    AtIndex(b, p, Encode(OpLoopSplit(adv, nf, r, limit, off)), 0);
    AtSplit(b, p, [23 + 2 * Bit(adv) + Bit(nf)], Byte(r) + (U32(limit) + U32(off)));
    ByteAt(b, p + 1, r, U32(limit) + U32(off));
    AtSplit(b, p + 2, U32(limit), U32(off));
    Get32AtSmall(b, p + 2, limit);
    GetSignedAt(b, p + 6, off);
  }

  lemma DecodeBackRef(b: seq<u8>, p: nat, back: bool, gs: seq<int>)
    requires At(b, p, Encode(OpBackRef(back, gs))) && Fits(OpBackRef(back, gs))
    ensures p < |b| && LengthAt(b, p) == 2 + |gs|
    ensures Decode(b, p) == OpBackRef(back, gs)
  {
    AtIndex(b, p, Encode(OpBackRef(back, gs)), 0);
    AtSplit(b, p, [32 + 2 * Bit(back)], Byte(|gs|) + Bytes(gs));
    ByteAt(b, p + 1, |gs|, Bytes(gs));
    GetBytesAt(b, p + 2, gs);
  }

  lemma DecodeRange16(b: seq<u8>, p: nat, vs: seq<int>)
    requires At(b, p, Encode(OpRange16(vs))) && Fits(OpRange16(vs))
    ensures p < |b| && LengthAt(b, p) == Len(OpRange16(vs))
    ensures Decode(b, p) == OpRange16(vs)
  {
    AtIndex(b, p, Encode(OpRange16(vs)), 0);
    AtSplit(b, p, [36], U16(|vs| / 2) + U16s(vs));
    AtSplit(b, p + 1, U16(|vs| / 2), U16s(vs));
    Get16At(b, p + 1, |vs| / 2);
    Get16sAt(b, p + 3, vs);
  }

  lemma DecodeRange32(b: seq<u8>, p: nat, vs: seq<int>)
    requires At(b, p, Encode(OpRange32(vs))) && Fits(OpRange32(vs))
    ensures p < |b| && LengthAt(b, p) == Len(OpRange32(vs))
    ensures Decode(b, p) == OpRange32(vs)
  {
    AtIndex(b, p, Encode(OpRange32(vs)), 0);
    AtSplit(b, p, [38], U16(|vs| / 2) + U32s(vs));
    AtSplit(b, p + 1, U16(|vs| / 2), U32s(vs));
    Get16At(b, p + 1, |vs| / 2);
    Get32sAt(b, p + 3, vs);
  }

  lemma DecodePlain(b: seq<u8>, p: nat, i: Instr)
    requires At(b, p, Encode(i)) && |Encode(i)| == 1 && i != OpInvalid
    ensures p < |b| && LengthAt(b, p) == 1
    ensures Decode(b, p) == i
  {
    AtIndex(b, p, Encode(i), 0);
  }

  /** Decoding undoes encoding, wherever the instruction stands in the program. */
  lemma DecodeEncode(b: seq<u8>, p: nat, i: Instr)
    requires At(b, p, Encode(i)) && Fits(i) && i != OpInvalid
    ensures p < |b| && LengthAt(b, p) == Len(i)
    ensures Decode(b, p) == i
  {
    if i.OpChar16? {
      DecodeChar16(b, p, i.c);
    } else if i.OpChar32? {
      DecodeChar32(b, p, i.c);
    } else if i.OpGoto? {
      DecodeGoto(b, p, i.off);
    } else if i.OpSplit? {
      DecodeSplit(b, p, i.nextFirst, i.off);
    } else if i.OpLook? {
      DecodeLook(b, p, i.neg, i.off);
    } else if i.OpSave? || i.OpSaveReset? || i.OpSetCharPos? || i.OpCheckAdvance? {
      DecodeBytes(b, p, i);
    } else if i.OpLoop? {
      DecodeLoop(b, p, i.r, i.off);
    } else if i.OpLoopSplit? {
      DecodeLoopSplit(b, p, i.checkAdv, i.nextFirst, i.r, i.limit, i.off);
    } else if i.OpSetI32? {
      DecodeSetI32(b, p, i.r, i.v);
    } else if i.OpBackRef? {
      DecodeBackRef(b, p, i.backward, i.groups);
    } else if i.OpRange16? {
      DecodeRange16(b, p, i.vs);
    } else if i.OpRange32? {
      DecodeRange32(b, p, i.vs);
    } else {
      DecodePlain(b, p, i);
    }
  }

  /** A program fragment: the bytes of a list of instructions. */
  function Asm(s: seq<Instr>): seq<u8> {
    if s == [] then [] else Encode(s[0]) + Asm(s[1..])
  }

  function Size(s: seq<Instr>): nat {
    |Asm(s)|
  }

  lemma {:induction false} AsmConcat(s: seq<Instr>, t: seq<Instr>)
    ensures Asm(s + t) == Asm(s) + Asm(t)
    ensures Size(s + t) == Size(s) + Size(t)
    decreases |s|
  {
    hide Encode;
    if s == [] {
      assert s + t == t;
    } else {
      AsmConcat(s[1..], t);
      assert (s + t)[1..] == s[1..] + t;
      assert Encode(s[0]) + (Asm(s[1..]) + Asm(t)) == (Encode(s[0]) + Asm(s[1..])) + Asm(t);
    }
  }

  lemma AsmOne(i: Instr)
    ensures Asm([i]) == Encode(i) && Size([i]) == Len(i)
  {
    assert Asm([i]) == Encode(i) + Asm([]);
  }

  /** The list of instructions `s` stands at byte `p` of the program. */
  ghost predicate CodeAt(b: seq<u8>, p: nat, s: seq<Instr>) {
    At(b, p, Asm(s))
  }

  lemma CodeSplit(b: seq<u8>, p: nat, s: seq<Instr>, t: seq<Instr>)
    requires CodeAt(b, p, s + t)
    ensures CodeAt(b, p, s) && CodeAt(b, p + Size(s), t)
    ensures Size(s + t) == Size(s) + Size(t)
  {
    AsmConcat(s, t);
    AtSplit(b, p, Asm(s), Asm(t));
  }

  lemma CodeOne(b: seq<u8>, p: nat, i: Instr)
    requires CodeAt(b, p, [i]) && Fits(i) && i != OpInvalid
    ensures Size([i]) == Len(i) && p + Len(i) <= |b|
    ensures Decode(b, p) == i
  {
    AsmOne(i);
    DecodeEncode(b, p, i);
  }

  /** Peel the first instruction off a fragment. */
  lemma CodeHead(b: seq<u8>, p: nat, i: Instr, rest: seq<Instr>)
    requires CodeAt(b, p, [i] + rest)
    ensures CodeAt(b, p, [i]) && CodeAt(b, p + Len(i), rest)
    ensures Size([i] + rest) == Len(i) + Size(rest)
  {
    hide Encode;
    CodeSplit(b, p, [i], rest);
    AsmOne(i);
  }

  lemma CodeFits(b: seq<u8>, p: nat, s: seq<Instr>)
    requires CodeAt(b, p, s)
    ensures p + Size(s) <= |b|
  {
  }

  /** The lengths of the instructions that the layouts of compound nodes are made of. */
  lemma Lengths(i: Instr)
    ensures i.OpGoto? || i.OpSplit? || i.OpLook? ==> Len(i) == 5
    ensures i.OpSave? || i.OpSetCharPos? || i.OpCheckAdvance? ==> Len(i) == 2
    ensures i.OpSaveReset? ==> Len(i) == 3
    ensures i.OpLoop? || i.OpSetI32? ==> Len(i) == 6
    ensures i.OpLoopSplit? ==> Len(i) == 10
    ensures i.OpLookMatch? || i.OpMatch? || i.OpAny? ==> Len(i) == 1
  {
  }
}
