/** compute_register_count: one linear scan gives every quantifier registers of its own. */
module Registers {
  import opened Words
  import opened Bytecode
  import opened Syntax
  import opened Codegen
  import opened SimulationBase

  const REGISTER_COUNT_MAX := 255

  /** Underflow is the failure of one of the assertions in the scan. */
  datatype Allocation = Underflow | TooMany | Allocated(code: seq<Instr>, size: nat, max: nat)

  function Prepend(i: Instr, a: Allocation): Allocation {
    if a.Allocated? then a.(code := [i] + a.code) else a
  }

  /** The registers that the instruction takes off the stack. */
  function Pops(i: Instr): nat {
    match i
    case OpCheckAdvance(_) => 1
    case OpLoop(_, _) => 1
    case OpLoopSplit(adv, _, _, _, _) => if adv then 2 else 1
    case _ => 0
  }

  predicate IsPush(i: Instr) {
    i.OpSetI32? || i.OpSetCharPos?
  }

  /** The byte behind the opcode. */
  function WithRegister(i: Instr, r: int): Instr {
    match i
    case OpSetI32(_, v) => OpSetI32(r, v)
    case OpSetCharPos(_) => OpSetCharPos(r)
    case OpCheckAdvance(_) => OpCheckAdvance(r)
    case OpLoop(_, off) => OpLoop(r, off)
    case OpLoopSplit(adv, nf, _, limit, off) => OpLoopSplit(adv, nf, r, limit, off)
    case _ => i
  }

  function Allocate(s: seq<Instr>, size: nat, max: nat): Allocation
    decreases |s|
  {
    if s == [] then Allocated([], size, max)
    else
      var i := s[0];
      if IsPush(i) then
        if size + 1 > max && size + 1 > REGISTER_COUNT_MAX then TooMany
        else Prepend(WithRegister(i, size), Allocate(s[1..], size + 1, Larger(max, size + 1)))
      else if size < Pops(i) then Underflow
      else if Pops(i) > 0 then Prepend(WithRegister(i, size - Pops(i)), Allocate(s[1..], size - Pops(i), max))
      else Prepend(i, Allocate(s[1..], size, max))
  }

  /** The scan goes on with `t` where it stopped on `a`. */
  function Onto(a: Allocation, t: seq<Instr>): Allocation {
    if a.Allocated? then
      var b := Allocate(t, a.size, a.max);
      if b.Allocated? then b.(code := a.code + b.code) else b
    else a
  }

  lemma {:induction false} AllocateConcat(s: seq<Instr>, t: seq<Instr>, size: nat, max: nat)
    ensures Allocate(s + t, size, max) == Onto(Allocate(s, size, max), t)
    decreases |s|
  {
    hide WithRegister;
    if s == [] {
      assert s + t == t;
      var b := Allocate(t, size, max);
      if b.Allocated? { assert [] + b.code == b.code; }
    } else {
      var i := s[0];
      assert (s + t)[1..] == s[1..] + t;
      if IsPush(i) {
        if !(size + 1 > max && size + 1 > REGISTER_COUNT_MAX) {
          AllocateConcat(s[1..], t, size + 1, Larger(max, size + 1));
          OntoPrepend(WithRegister(i, size), Allocate(s[1..], size + 1, Larger(max, size + 1)), t);
        }
      } else if size >= Pops(i) {
        AllocateConcat(s[1..], t, size - Pops(i), max);
        OntoPrepend(if Pops(i) > 0 then WithRegister(i, size - Pops(i)) else i, Allocate(s[1..], size - Pops(i), max), t);
      }
    }
  }

  lemma OntoPrepend(i: Instr, a: Allocation, t: seq<Instr>)
    ensures Prepend(i, Onto(a, t)) == Onto(Prepend(i, a), t)
  {
    hide Allocate;
    if a.Allocated? {
      var b := Allocate(t, a.size, a.max);
      if b.Allocated? { assert [i] + (a.code + b.code) == ([i] + a.code) + b.code; }
    }
  }

  // ----- the code of a node does not depend on its registers but for the register bytes

  lemma {:induction false} SizeFixed(node: Node, back: bool, cc: nat, d: int, e: int)
    ensures Size(Comp(node, back, cc, d)) == Size(Comp(node, back, cc, e))
    decreases node, 1
  {
    hide Comp, Asm, Encode, AltCode, CatCode, GroupCode, LookCode, QuantCode, Size;
    match node
    case Cat(a, b) =>
      CompCat(a, b, back, cc, d);
      CompCat(a, b, back, cc, e);
      SizeFixed(a, back, cc, d, e);
      SizeFixed(b, back, cc + Groups(a), d, e);
      CatSize(back, Comp(a, back, cc, d), Comp(b, back, cc + Groups(a), d));
      CatSize(back, Comp(a, back, cc, e), Comp(b, back, cc + Groups(a), e));
    case Alt(a, b) =>
      CompAlt(a, b, back, cc, d);
      CompAlt(a, b, back, cc, e);
      SizeFixed(a, back, cc, d, e);
      SizeFixed(b, back, cc + Groups(a), d, e);
      AltSize(Comp(a, back, cc, d), Comp(b, back, cc + Groups(a), d));
      AltSize(Comp(a, back, cc, e), Comp(b, back, cc + Groups(a), e));
    case Group(a) =>
      CompGroup(a, back, cc, d);
      CompGroup(a, back, cc, e);
      SizeFixed(a, back, cc + 1, d, e);
      GroupSize(back, cc, Comp(a, back, cc + 1, d));
      GroupSize(back, cc, Comp(a, back, cc + 1, e));
    case Look(behind, neg, a) =>
      CompLook(behind, neg, a, back, cc, d);
      CompLook(behind, neg, a, back, cc, e);
      SizeFixed(a, behind, cc, d, e);
      LookSize(neg, Comp(a, behind, cc, d));
      LookSize(neg, Comp(a, behind, cc, e));
    case Quant(a, min, max, greedy) =>
      QuantSizeFixed(a, min, max, greedy, back, cc, d, e);
    case _ =>
      LeafFixed(node, back, cc, d, e);
  }

  lemma LeafFixed(node: Node, back: bool, cc: nat, d: int, e: int)
    requires IsLeaf(node)
    ensures Comp(node, back, cc, d) == Comp(node, back, cc, e)
  {
    hide CompSet;
  }

  lemma CatSize(back: bool, a: seq<Instr>, b: seq<Instr>)
    ensures Size(CatCode(back, a, b)) == Size(a) + Size(b)
  {
    hide Encode, Asm;
    AsmConcat(a, b);
    AsmConcat(b, a);
  }

  lemma HeadSize(i: Instr, s: seq<Instr>)
    ensures Size([i] + s) == Len(i) + Size(s)
  {
    hide Encode;
    AsmConcat([i], s);
    AsmOne(i);
  }

  lemma TailSize(s: seq<Instr>, i: Instr)
    ensures Size(s + [i]) == Size(s) + Len(i)
  {
    hide Encode;
    AsmConcat(s, [i]);
    AsmOne(i);
  }

  lemma AltSize(a: seq<Instr>, b: seq<Instr>)
    ensures Size(AltCode(a, b)) == Size(a) + Size(b) + 10
  {
    hide Encode, Asm, Size;
    var split, go := OpSplit(true, Size(a) + 5), OpGoto(Size(b));
    Lengths(split);
    Lengths(go);
    HeadSize(split, a + ([go] + b));
    AsmConcat(a, [go] + b);
    HeadSize(go, b);
  }

  lemma GroupSize(back: bool, cc: nat, a: seq<Instr>)
    ensures Size(GroupCode(back, cc, a)) == Size(a) + 4
  {
    hide Encode, Asm, Size;
    Lengths(OpSave(back, cc));
    Lengths(OpSave(!back, cc));
    HeadSize(OpSave(back, cc), a + [OpSave(!back, cc)]);
    TailSize(a, OpSave(!back, cc));
  }

  lemma LookSize(neg: bool, a: seq<Instr>)
    ensures Size(LookCode(neg, a)) == Size(a) + 6
  {
    hide Encode, Asm, Size;
    var look := OpLook(neg, Size(a) + 1);
    Lengths(look);
    Lengths(OpLookMatch(neg));
    HeadSize(look, a + [OpLookMatch(neg)]);
    TailSize(a, OpLookMatch(neg));
  }

  lemma {:induction false} BodySizeFixed(a: Node, back: bool, cc: nat, d: int, e: int)
    ensures Size(Body(a, back, cc, d)) == Size(Body(a, back, cc, e))
    decreases a, 2
  {
    hide Comp, Asm, Encode, Size, NeedInit;
    SizeFixed(a, back, cc, d, e);
    if NeedInit(a, back, cc) && Groups(a) > 0 {
      var i := OpSaveReset(cc, cc + Groups(a) - 1);
      HeadSize(i, Comp(a, back, cc, d));
      HeadSize(i, Comp(a, back, cc, e));
    } else {
      assert Body(a, back, cc, d) == Comp(a, back, cc, d) && Body(a, back, cc, e) == Comp(a, back, cc, e);
    }
  }

  lemma {:induction false} QuantSizeFixed(a: Node, min: nat, max: Max, greedy: bool, back: bool, cc: nat, d: int, e: int)
    ensures Size(Comp(Quant(a, min, max, greedy), back, cc, d)) == Size(Comp(Quant(a, min, max, greedy), back, cc, e))
    decreases a, 3
  {
    hide Comp, Asm, Encode, Size, NeedInit, NeedAdvance, Quantified, Body, Prefix;
    var adv := NeedAdvance(a, back, cc);
    var l := LayoutOf(adv, min, max);
    var bd, be := Body(a, back, cc, Deeper(d, OwnRegisters(l, adv))), Body(a, back, cc, Deeper(e, OwnRegisters(l, adv)));
    BodySizeFixed(a, back, cc, Deeper(d, OwnRegisters(l, adv)), Deeper(e, OwnRegisters(l, adv)));
    CompQuant(a, min, max, greedy, back, cc, d);
    CompQuant(a, min, max, greedy, back, cc, e);
    QuantifiedSize(l, adv, bd, be, min, QuantMax(max), greedy, d, e);
    AsmConcat(Prefix(a, back, cc, min), Quantified(l, adv, bd, min, QuantMax(max), greedy, d));
    AsmConcat(Prefix(a, back, cc, min), Quantified(l, adv, be, min, QuantMax(max), greedy, e));
  }

  /** The size of a layout, from the size of the body alone. */
  function LayoutSize(l: Layout, adv: bool, s: nat): nat {
    match l
    case Dropped => 0
    case Optional => s + 5 + 4 * Bit(adv)
    case Star => s + 10 + 4 * Bit(adv)
    case Bounded => s + 21 + 2 * Bit(adv)
    case Plus => s + 5
    case Exact => s + 12
    case Counted => s + 16 + 2 * Bit(adv)
  }

  lemma QuantifiedSize(l: Layout, adv: bool, b1: seq<Instr>, b2: seq<Instr>, min: nat, max: nat, greedy: bool, d: int, e: int)
    requires Size(b1) == Size(b2)
    ensures Size(Quantified(l, adv, b1, min, max, greedy, d)) == Size(Quantified(l, adv, b2, min, max, greedy, e))
  {
    hide Asm, Encode, Size, Quantified;
    QuantifiedLength(l, adv, b1, min, max, greedy, d);
    QuantifiedLength(l, adv, b2, min, max, greedy, e);
  }

  lemma GuardSize(adv: bool, i: Instr, rest: seq<Instr>)
    requires Len(i) == 2
    ensures Size(If(adv, i) + rest) == 2 * Bit(adv) + Size(rest)
  {
    hide Asm, Encode, Size, Len;
    if adv { HeadSize(i, rest); } else { assert [] + rest == rest; }
  }

  lemma QuantifiedLength(l: Layout, adv: bool, body: seq<Instr>, min: nat, max: nat, greedy: bool, d: int)
    ensures Size(Quantified(l, adv, body, min, max, greedy, d)) == LayoutSize(l, adv, Size(body))
  {
    hide Asm, Encode, Size, Len;
    var setPos, check, store := OpSetCharPos(Reg(d)), OpCheckAdvance(Reg(d)), OpSetI32(Reg(d), max);
    var setPos1 := OpSetCharPos(Reg(Deeper(d, 1)));
    Lengths(setPos);
    Lengths(check);
    Lengths(store);
    Lengths(setPos1);
    match l
    case Dropped => NoSize();
    case Optional =>
      var split := OpSplit(greedy, Size(body) + 4 * Bit(adv));
      Lengths(split);
      HeadSize(split, If(adv, setPos) + (body + If(adv, check)));
      GuardSize(adv, setPos, body + If(adv, check));
      AsmConcat(body, If(adv, check));
      GuardSize(adv, check, []);
      assert If(adv, check) + [] == If(adv, check);
      NoSize();
    case Star =>
      var split, go := OpSplit(greedy, Size(body) + 5 + 4 * Bit(adv)), OpGoto(-(Size(body) + 10 + 4 * Bit(adv)));
      Lengths(split);
      Lengths(go);
      HeadSize(split, If(adv, setPos) + (body + (If(adv, check) + [go])));
      GuardSize(adv, setPos, body + (If(adv, check) + [go]));
      AsmConcat(body, If(adv, check) + [go]);
      GuardSize(adv, check, [go]);
      AsmOne(go);
      SizeIs([go]);
    case Bounded =>
      var split := OpSplit(greedy, 6 + 2 * Bit(adv) + Size(body) + 10);
      var loop := OpLoopSplit(adv, !greedy, Reg(d), max, -(Size(body) + 10 + 2 * Bit(adv)));
      Lengths(split);
      Lengths(loop);
      HeadSize(split, [store] + (If(adv, setPos1) + (body + [loop])));
      HeadSize(store, If(adv, setPos1) + (body + [loop]));
      GuardSize(adv, setPos1, body + [loop]);
      TailSize(body, loop);
    case Plus =>
      Lengths(OpSplit(!greedy, -(Size(body) + 5)));
      TailSize(body, OpSplit(!greedy, -(Size(body) + 5)));
    case Exact =>
      var loop := OpLoop(Reg(d), -(Size(body) + 6));
      Lengths(loop);
      HeadSize(store, body + [loop]);
      TailSize(body, loop);
    case Counted =>
      var loop := OpLoopSplit(adv, !greedy, Reg(d), max - min, -(Size(body) + 10 + 2 * Bit(adv)));
      Lengths(loop);
      HeadSize(store, If(adv, setPos1) + (body + [loop]));
      GuardSize(adv, setPos1, body + [loop]);
      TailSize(body, loop);
  }

  lemma NoSize()
    ensures Size([]) == 0
  {
  }

  lemma SizeIs(s: seq<Instr>)
    ensures Size(s) == |Asm(s)|
  {
  }

  // ----- the scan against the registers that the code was meant to have

  /** What the scan makes of the code of a node: the code at depth `size`, or a failure exactly if that
      needs more registers than there are. Assertions never fail, and the stack is left as it was. */
  function Expected(node: Node, back: bool, cc: nat, size: nat, max: nat): Allocation {
    if size + Depth(node, back, cc) > REGISTER_COUNT_MAX then TooMany
    else Allocated(Comp(node, back, cc, size), size, Larger(max, size + Depth(node, back, cc)))
  }

  lemma OntoGives(s: seq<Instr>, t: seq<Instr>, size: nat, max: nat, a: Allocation, b: Allocation)
    requires Allocate(s, size, max) == a
    requires a.Allocated? ==> Allocate(t, a.size, a.max) == b
    ensures Allocate(s + t, size, max)
            == if !a.Allocated? then a else if !b.Allocated? then b else Allocated(a.code + b.code, b.size, b.max)
  {
    AllocateConcat(s, t, size, max);
    hide Allocate;
  }

  /** An instruction without a register. */
  lemma PlainGives(i: Instr, size: nat, max: nat)
    requires !IsPush(i) && Pops(i) == 0
    ensures Allocate([i], size, max) == Allocated([i], size, max)
  {
    assert Allocate([], size, max) == Allocated([], size, max);
  }

  lemma PushGives(i: Instr, size: nat, max: nat)
    requires IsPush(i) && max <= REGISTER_COUNT_MAX
    ensures Allocate([i], size, max)
            == if size + 1 > REGISTER_COUNT_MAX then TooMany else Allocated([WithRegister(i, size)], size + 1, Larger(max, size + 1))
  {
    assert [i][1..] == [];
  }

  lemma PopGives(i: Instr, size: nat, max: nat)
    requires Pops(i) > 0 && size >= Pops(i)
    ensures Allocate([i], size, max) == Allocated([WithRegister(i, size - Pops(i))], size - Pops(i), max)
  {
    assert [i][1..] == [];
  }

  lemma HeadGives(i: Instr, t: seq<Instr>, size: nat, max: nat, b: Allocation)
    requires !IsPush(i) && Pops(i) == 0 && Allocate(t, size, max) == b
    ensures Allocate([i] + t, size, max) == Prepend(i, b)
  {
    PlainGives(i, size, max);
    OntoGives([i], t, size, max, Allocated([i], size, max), b);
    hide Allocate;
  }

  lemma NothingGives(size: nat, max: nat)
    ensures Allocate([], size, max) == Allocated([], size, max)
  {
  }

  lemma LeafGives(node: Node, back: bool, cc: nat, size: nat, max: nat)
    requires IsLeaf(node) && size <= max <= REGISTER_COUNT_MAX
    ensures Allocate(Comp(node, back, cc, -1), size, max) == Expected(node, back, cc, size, max)
  {
    LeafFixed(node, back, cc, -1, size);
    assert Depth(node, back, cc) == 0;
    NothingGives(size, max);
    if IsSetNodeOf(node) {
      var i := EmitSet(node);
      EmitSetIsCharOp(node);
      PlainGives(i, size, max);
      hide Allocate, EmitSet, Depth;
      assert Comp(node, back, cc, -1) == CompSet(node, back);
      if back {
        assert CompSet(node, back) == [OpPrev] + ([i] + [OpPrev]);
        PlainGives(OpPrev, size, max);
        HeadGives(i, [OpPrev], size, max, Allocated([OpPrev], size, max));
        HeadGives(OpPrev, [i] + [OpPrev], size, max, Allocated([i] + [OpPrev], size, max));
      }
    } else if node != Empty {
      var i := Comp(node, back, cc, -1)[0];
      assert Comp(node, back, cc, -1) == [i];
      PlainGives(i, size, max);
    }
  }

  predicate IsSetNodeOf(node: Node) {
    node.Char? || node.Dot? || node.Any? || node.Class?
  }

  lemma {:induction false} AllocateComp(node: Node, back: bool, cc: nat, size: nat, max: nat)
    requires size <= max <= REGISTER_COUNT_MAX
    ensures Allocate(Comp(node, back, cc, -1), size, max) == Expected(node, back, cc, size, max)
    decreases node, 1
  {
    hide Comp, Allocate, Depth, Size, Asm;
    match node
    case Cat(a, b) => CatGives(a, b, back, cc, size, max);
    case Alt(a, b) => AltGives(a, b, back, cc, size, max);
    case Group(a) => GroupGives(a, back, cc, size, max);
    case Look(behind, neg, a) => LookGives(behind, neg, a, back, cc, size, max);
    case Quant(a, min, qmax, greedy) => QuantGives(a, min, qmax, greedy, back, cc, size, max);
    case _ => LeafGives(node, back, cc, size, max);
  }

  lemma DepthOf(a: Node, b: Node, back: bool, cc: nat)
    ensures Depth(Cat(a, b), back, cc) == Larger(Depth(a, back, cc), Depth(b, back, cc + Groups(a)))
    ensures Depth(Alt(a, b), back, cc) == Larger(Depth(a, back, cc), Depth(b, back, cc + Groups(a)))
    ensures Depth(Group(a), back, cc) == Depth(a, back, cc + 1)
  {
    hide NeedAdvance, LayoutOf, OwnRegisters;
  }

  lemma {:induction false} CatGives(a: Node, b: Node, back: bool, cc: nat, size: nat, max: nat)
    requires size <= max <= REGISTER_COUNT_MAX
    ensures Allocate(Comp(Cat(a, b), back, cc, -1), size, max) == Expected(Cat(a, b), back, cc, size, max)
    decreases Cat(a, b), 0
  {
    hide Comp, Allocate, Depth, Size, Asm;
    var cb := cc + Groups(a);
    CompCat(a, b, back, cc, -1);
    CompCat(a, b, back, cc, size);
    DepthOf(a, b, back, cc);
    AllocateComp(a, back, cc, size, max);
    AllocateComp(b, back, cb, size, max);
    var ea, eb := Expected(a, back, cc, size, max), Expected(b, back, cb, size, max);
    if back {
      if eb.Allocated? { AllocateComp(a, back, cc, size, eb.max); }
      OntoGives(Comp(b, back, cb, -1), Comp(a, back, cc, -1), size, max, eb, Expected(a, back, cc, size, if eb.Allocated? then eb.max else max));
    } else {
      if ea.Allocated? { AllocateComp(b, back, cb, size, ea.max); }
      OntoGives(Comp(a, back, cc, -1), Comp(b, back, cb, -1), size, max, ea, Expected(b, back, cb, size, if ea.Allocated? then ea.max else max));
    }
  }

  lemma {:induction false} AltGives(a: Node, b: Node, back: bool, cc: nat, size: nat, max: nat)
    requires size <= max <= REGISTER_COUNT_MAX
    ensures Allocate(Comp(Alt(a, b), back, cc, -1), size, max) == Expected(Alt(a, b), back, cc, size, max)
    decreases Alt(a, b), 0
  {
    hide Comp, Allocate, Depth, Size, Asm;
    var cb := cc + Groups(a);
    CompAlt(a, b, back, cc, -1);
    CompAlt(a, b, back, cc, size);
    DepthOf(a, b, back, cc);
    SizeFixed(a, back, cc, -1, size);
    SizeFixed(b, back, cb, -1, size);
    var first, second := Comp(a, back, cc, -1), Comp(b, back, cb, -1);
    var split, go := OpSplit(true, Size(first) + 5), OpGoto(Size(second));
    AllocateComp(a, back, cc, size, max);
    var ea := Expected(a, back, cc, size, max);
    var m := if ea.Allocated? then ea.max else max;
    AllocateComp(b, back, cb, size, m);
    var eb := Expected(b, back, cb, size, m);
    HeadGives(go, second, size, m, eb);
    OntoGives(first, [go] + second, size, max, ea, Prepend(go, eb));
    HeadGives(split, first + ([go] + second), size, max, Allocate(first + ([go] + second), size, max));
  }

  lemma {:induction false} GroupGives(a: Node, back: bool, cc: nat, size: nat, max: nat)
    requires size <= max <= REGISTER_COUNT_MAX
    ensures Allocate(Comp(Group(a), back, cc, -1), size, max) == Expected(Group(a), back, cc, size, max)
    decreases Group(a), 0
  {
    hide Comp, Allocate, Depth, Size, Asm;
    CompGroup(a, back, cc, -1);
    CompGroup(a, back, cc, size);
    DepthOf(a, a, back, cc);
    var body := Comp(a, back, cc + 1, -1);
    AllocateComp(a, back, cc + 1, size, max);
    var ea := Expected(a, back, cc + 1, size, max);
    var m := if ea.Allocated? then ea.max else max;
    PlainGives(OpSave(!back, cc), size, m);
    OntoGives(body, [OpSave(!back, cc)], size, max, ea, Allocated([OpSave(!back, cc)], size, m));
    HeadGives(OpSave(back, cc), body + [OpSave(!back, cc)], size, max, Allocate(body + [OpSave(!back, cc)], size, max));
  }

  lemma {:induction false} LookGives(behind: bool, neg: bool, a: Node, back: bool, cc: nat, size: nat, max: nat)
    requires size <= max <= REGISTER_COUNT_MAX
    ensures Allocate(Comp(Look(behind, neg, a), back, cc, -1), size, max) == Expected(Look(behind, neg, a), back, cc, size, max)
    decreases Look(behind, neg, a), 0
  {
    hide Comp, Allocate, Size, Asm;
    CompLook(behind, neg, a, back, cc, -1);
    CompLook(behind, neg, a, back, cc, size);
    SizeFixed(a, behind, cc, -1, size);
    var body := Comp(a, behind, cc, -1);
    var look := OpLook(neg, Size(body) + 1);
    AllocateComp(a, behind, cc, size, max);
    var ea := Expected(a, behind, cc, size, max);
    var m := if ea.Allocated? then ea.max else max;
    PlainGives(OpLookMatch(neg), size, m);
    OntoGives(body, [OpLookMatch(neg)], size, max, ea, Allocated([OpLookMatch(neg)], size, m));
    HeadGives(look, body + [OpLookMatch(neg)], size, max, Allocate(body + [OpLookMatch(neg)], size, max));
  }

  // ----- quantifiers

  /** The body of a quantifier at depth `size`. */
  function ExpectedBody(a: Node, back: bool, cc: nat, size: nat, max: nat): Allocation {
    if size + Depth(a, back, cc) > REGISTER_COUNT_MAX then TooMany
    else Allocated(Body(a, back, cc, size), size, Larger(max, size + Depth(a, back, cc)))
  }

  lemma {:induction false} BodyGives(a: Node, back: bool, cc: nat, size: nat, max: nat)
    requires size <= max <= REGISTER_COUNT_MAX
    ensures Allocate(Body(a, back, cc, -1), size, max) == ExpectedBody(a, back, cc, size, max)
    decreases a, 2
  {
    hide Comp, Allocate, Depth, NeedInit;
    AllocateComp(a, back, cc, size, max);
    if NeedInit(a, back, cc) && Groups(a) > 0 {
      HeadGives(OpSaveReset(cc, cc + Groups(a) - 1), Comp(a, back, cc, -1), size, max, Expected(a, back, cc, size, max));
    } else {
      assert Body(a, back, cc, -1) == Comp(a, back, cc, -1) && Body(a, back, cc, size) == Comp(a, back, cc, size);
    }
  }

  /** An optional push in front of a fragment. */
  lemma GuardGives(adv: bool, r: int, rest: seq<Instr>, size: nat, max: nat, b: Allocation)
    requires max <= REGISTER_COUNT_MAX && size <= max
    requires adv && size + 1 <= REGISTER_COUNT_MAX ==> Allocate(rest, size + 1, Larger(max, size + 1)) == b
    requires !adv ==> Allocate(rest, size, max) == b
    ensures Allocate(If(adv, OpSetCharPos(r)) + rest, size, max)
            == if !adv then b else if size + 1 > REGISTER_COUNT_MAX then TooMany else Prepend(OpSetCharPos(size), b)
  {
    hide Allocate;
    if adv {
      PushGives(OpSetCharPos(r), size, max);
      OntoGives([OpSetCharPos(r)], rest, size, max,
                if size + 1 > REGISTER_COUNT_MAX then TooMany else Allocated([OpSetCharPos(size)], size + 1, Larger(max, size + 1)), b);
    } else {
      assert [] + rest == rest;
    }
  }

  /** A counter store in front of a fragment. */
  lemma StoreGives(v: int, rest: seq<Instr>, size: nat, max: nat, b: Allocation)
    requires max <= REGISTER_COUNT_MAX && size <= max
    requires size + 1 <= REGISTER_COUNT_MAX ==> Allocate(rest, size + 1, Larger(max, size + 1)) == b
    ensures Allocate([OpSetI32(0, v)] + rest, size, max)
            == if size + 1 > REGISTER_COUNT_MAX then TooMany else Prepend(OpSetI32(size, v), b)
  {
    hide Allocate;
    PushGives(OpSetI32(0, v), size, max);
    OntoGives([OpSetI32(0, v)], rest, size, max,
              if size + 1 > REGISTER_COUNT_MAX then TooMany else Allocated([OpSetI32(size, v)], size + 1, Larger(max, size + 1)), b);
  }

  /** The body followed by an instruction that gives the quantifier's registers back. */
  lemma {:induction false} TailGives(a: Node, back: bool, cc: nat, i: Instr, size: nat, max: nat)
    requires Pops(i) > 0 && Pops(i) <= size <= max <= REGISTER_COUNT_MAX
    ensures Allocate(Body(a, back, cc, -1) + [i], size, max)
            == if size + Depth(a, back, cc) > REGISTER_COUNT_MAX then TooMany
               else Allocated(Body(a, back, cc, size) + [WithRegister(i, size - Pops(i))], size - Pops(i), Larger(max, size + Depth(a, back, cc)))
    decreases a, 3
  {
    hide Allocate, Depth, Body;
    BodyGives(a, back, cc, size, max);
    var m := Larger(max, size + Depth(a, back, cc));
    PopGives(i, size, m);
    OntoGives(Body(a, back, cc, -1), [i], size, max, ExpectedBody(a, back, cc, size, max), Allocated([WithRegister(i, size - Pops(i))], size - Pops(i), m));
  }

  /** The body of a quantifier in its layout: the registers below the body are the layout's own. */
  function ExpectedLayout(l: Layout, adv: bool, a: Node, back: bool, cc: nat, min: nat, qmax: nat, greedy: bool, size: nat, max: nat): Allocation {
    var own := OwnRegisters(l, adv);
    if l.Dropped? then Allocated([], size, max)
    else if size + own + Depth(a, back, cc) > REGISTER_COUNT_MAX then TooMany
    else Allocated(Quantified(l, adv, Body(a, back, cc, size + own), min, qmax, greedy, size), size,
                   Larger(max, size + own + Depth(a, back, cc)))
  }

  lemma Larger3(max: nat, a: nat, b: nat)
    requires a <= b
    ensures Larger(Larger(max, a), b) == Larger(max, b)
  {
  }

  lemma {:induction false} OptionalGives(adv: bool, a: Node, back: bool, cc: nat, min: nat, qmax: nat, greedy: bool, size: nat, max: nat)
    requires size <= max <= REGISTER_COUNT_MAX
    ensures Allocate(Quantified(Optional, adv, Body(a, back, cc, -1), min, qmax, greedy, -1), size, max)
            == ExpectedLayout(Optional, adv, a, back, cc, min, qmax, greedy, size, max)
    decreases a, 4
  {
    hide Allocate, Depth, Body, Comp, Size, Asm, Quantified;
    var own := Bit(adv);
    BodySizeFixed(a, back, cc, -1, size + own);
    var b := Body(a, back, cc, -1);
    OptionalIs(adv, b, min, qmax, greedy, -1);
    OptionalIs(adv, Body(a, back, cc, size + own), min, qmax, greedy, size);
    var rest := b + If(adv, OpCheckAdvance(0));
    var split := OpSplit(greedy, Size(b) + 4 * Bit(adv));
    if adv {
      if size + 1 <= REGISTER_COUNT_MAX {
        TailGives(a, back, cc, OpCheckAdvance(0), size + 1, Larger(max, size + 1));
        Larger3(max, size + 1, size + 1 + Depth(a, back, cc));
      }
    } else {
      BodyGives(a, back, cc, size, max);
      assert b + [] == b;
      assert Body(a, back, cc, size) + [] == Body(a, back, cc, size);
    }
    var e := Allocate(rest, size + own, Larger(max, size + own));
    GuardGives(adv, 0, rest, size, max, e);
    HeadGives(split, If(adv, OpSetCharPos(0)) + rest, size, max, Allocate(If(adv, OpSetCharPos(0)) + rest, size, max));
  }

  lemma OptionalIs(adv: bool, body: seq<Instr>, min: nat, qmax: nat, greedy: bool, d: int)
    ensures Quantified(Optional, adv, body, min, qmax, greedy, d)
            == [OpSplit(greedy, Size(body) + 4 * Bit(adv))] + (If(adv, OpSetCharPos(Reg(d))) + (body + If(adv, OpCheckAdvance(Reg(d)))))
  {
  }

  lemma BoundedIs(adv: bool, body: seq<Instr>, min: nat, qmax: nat, greedy: bool, d: int)
    ensures Quantified(Bounded, adv, body, min, qmax, greedy, d)
            == [OpSplit(greedy, 6 + 2 * Bit(adv) + Size(body) + 10)] + ([OpSetI32(Reg(d), qmax)]
               + (If(adv, OpSetCharPos(Reg(Deeper(d, 1)))) + (body
               + [OpLoopSplit(adv, !greedy, Reg(d), qmax, -(Size(body) + 10 + 2 * Bit(adv)))])))
  {
  }

  lemma ExactIs(adv: bool, body: seq<Instr>, min: nat, qmax: nat, greedy: bool, d: int)
    ensures Quantified(Exact, adv, body, min, qmax, greedy, d)
            == [OpSetI32(Reg(d), qmax)] + (If(false, OpSetCharPos(Reg(Deeper(d, 1)))) + (body + [OpLoop(Reg(d), -(Size(body) + 6))]))
  {
    var rest := body + [OpLoop(Reg(d), -(Size(body) + 6))];
    assert [] + rest == rest;
  }

  lemma CountedIs(adv: bool, body: seq<Instr>, min: nat, qmax: nat, greedy: bool, d: int)
    ensures Quantified(Counted, adv, body, min, qmax, greedy, d)
            == [OpSetI32(Reg(d), qmax)] + (If(adv, OpSetCharPos(Reg(Deeper(d, 1)))) + (body
               + [OpLoopSplit(adv, !greedy, Reg(d), qmax - min, -(Size(body) + 10 + 2 * Bit(adv)))]))
  {
  }

  lemma StarIs(adv: bool, body: seq<Instr>, min: nat, qmax: nat, greedy: bool, d: int)
    ensures Quantified(Star, adv, body, min, qmax, greedy, d)
            == [OpSplit(greedy, Size(body) + 5 + 4 * Bit(adv))] + (If(adv, OpSetCharPos(Reg(d)))
               + (body + (If(adv, OpCheckAdvance(Reg(d))) + [OpGoto(-(Size(body) + 10 + 4 * Bit(adv)))])))
  {
  }

  lemma {:induction false} StarGives(adv: bool, a: Node, back: bool, cc: nat, min: nat, qmax: nat, greedy: bool, size: nat, max: nat)
    requires size <= max <= REGISTER_COUNT_MAX
    ensures Allocate(Quantified(Star, adv, Body(a, back, cc, -1), min, qmax, greedy, -1), size, max)
            == ExpectedLayout(Star, adv, a, back, cc, min, qmax, greedy, size, max)
    decreases a, 4
  {
    hide Allocate, Depth, Body, Comp, Size, Asm, Quantified, If;
    var own := Bit(adv);
    BodySizeFixed(a, back, cc, -1, size + own);
    var b := Body(a, back, cc, -1);
    StarIs(adv, b, min, qmax, greedy, -1);
    StarIs(adv, Body(a, back, cc, size + own), min, qmax, greedy, size);
    var go := OpGoto(-(Size(b) + 10 + 4 * Bit(adv)));
    var rest := b + (If(adv, OpCheckAdvance(0)) + [go]);
    var split := OpSplit(greedy, Size(b) + 5 + 4 * Bit(adv));
    if size + own <= REGISTER_COUNT_MAX {
      StarRest(adv, a, back, cc, go, size, max);
    }
    var e := Allocate(rest, size + own, Larger(max, size + own));
    GuardGives(adv, 0, rest, size, max, e);
    var rest1 := Body(a, back, cc, size + own) + (If(adv, OpCheckAdvance(size)) + [go]);
    IfFront(adv, OpSetCharPos(size), rest1);
    HeadGives(split, If(adv, OpSetCharPos(0)) + rest, size, max, Allocate(If(adv, OpSetCharPos(0)) + rest, size, max));
  }

  lemma IfFront(adv: bool, i: Instr, rest: seq<Instr>)
    ensures If(adv, i) + rest == if adv then [i] + rest else rest
  {
  }

  lemma {:induction false} StarRest(adv: bool, a: Node, back: bool, cc: nat, go: Instr, size: nat, max: nat)
    requires size <= max <= REGISTER_COUNT_MAX && size + Bit(adv) <= REGISTER_COUNT_MAX && go.OpGoto?
    ensures Allocate(Body(a, back, cc, -1) + (If(adv, OpCheckAdvance(0)) + [go]), size + Bit(adv), Larger(max, size + Bit(adv)))
            == if size + Bit(adv) + Depth(a, back, cc) > REGISTER_COUNT_MAX then TooMany
               else Allocated(Body(a, back, cc, size + Bit(adv)) + (If(adv, OpCheckAdvance(size)) + [go]), size,
                              Larger(max, size + Bit(adv) + Depth(a, back, cc)))
    decreases a, 3
  {
    hide Allocate, Depth, Body, Comp, Size, Asm;
    var n, m := size + Bit(adv), Larger(max, size + Bit(adv));
    var end := Larger(max, n + Depth(a, back, cc));
    BodyGives(a, back, cc, n, m);
    Larger3(max, n, n + Depth(a, back, cc));
    PlainGives(go, size, end);
    if adv {
      PopGives(OpCheckAdvance(0), n, end);
      OntoGives([OpCheckAdvance(0)], [go], n, end, Allocated([OpCheckAdvance(size)], size, end), Allocated([go], size, end));
    } else {
      assert [] + [go] == [go];
    }
    OntoGives(Body(a, back, cc, -1), If(adv, OpCheckAdvance(0)) + [go], n, m, ExpectedBody(a, back, cc, n, m),
              Allocated(If(adv, OpCheckAdvance(size)) + [go], size, end));
  }

  /** A counter, an optional position, the body and the loop instruction that gives both back. */
  lemma {:induction false} CountedGives(adv: bool, a: Node, back: bool, cc: nat, v: int, loop: Instr, size: nat, max: nat)
    requires size <= max <= REGISTER_COUNT_MAX
    requires Pops(loop) == 1 + Bit(adv)
    ensures Allocate([OpSetI32(0, v)] + (If(adv, OpSetCharPos(0)) + (Body(a, back, cc, -1) + [loop])), size, max)
            == if size + 1 + Bit(adv) + Depth(a, back, cc) > REGISTER_COUNT_MAX then TooMany
               else Allocated([OpSetI32(size, v)] + (If(adv, OpSetCharPos(size + 1)) + (Body(a, back, cc, size + 1 + Bit(adv)) + [WithRegister(loop, size)])),
                              size, Larger(max, size + 1 + Bit(adv) + Depth(a, back, cc)))
    decreases a, 4
  {
    hide Allocate, Depth, Body, Comp, Size, Asm, WithRegister;
    var n := size + 1 + Bit(adv);
    var m := Larger(max, size + 1);
    var rest := Body(a, back, cc, -1) + [loop];
    if n <= REGISTER_COUNT_MAX {
      Larger3(max, size + 1, n);
      Larger3(max, n, n + Depth(a, back, cc));
      TailGives(a, back, cc, loop, n, Larger(max, n));
    }
    if size + 1 <= REGISTER_COUNT_MAX {
      Larger3(max, size + 1, n);
      GuardGives(adv, 0, rest, size + 1, m, Allocate(rest, n, Larger(max, n)));
    }
    StoreGives(v, If(adv, OpSetCharPos(0)) + rest, size, max, Allocate(If(adv, OpSetCharPos(0)) + rest, size + 1, m));
  }

  lemma {:induction false} BoundedGives(adv: bool, a: Node, back: bool, cc: nat, min: nat, qmax: nat, greedy: bool, size: nat, max: nat)
    requires size <= max <= REGISTER_COUNT_MAX
    ensures Allocate(Quantified(Bounded, adv, Body(a, back, cc, -1), min, qmax, greedy, -1), size, max)
            == ExpectedLayout(Bounded, adv, a, back, cc, min, qmax, greedy, size, max)
    decreases a, 5
  {
    hide Allocate, Depth, Body, Comp, Size, Asm, Quantified, If;
    BodySizeFixed(a, back, cc, -1, size + 1 + Bit(adv));
    var b := Body(a, back, cc, -1);
    BoundedIs(adv, b, min, qmax, greedy, -1);
    BoundedIs(adv, Body(a, back, cc, size + 1 + Bit(adv)), min, qmax, greedy, size);
    var loop := OpLoopSplit(adv, !greedy, 0, qmax, -(Size(b) + 10 + 2 * Bit(adv)));
    var split := OpSplit(greedy, 6 + 2 * Bit(adv) + Size(b) + 10);
    CountedGives(adv, a, back, cc, qmax, loop, size, max);
    var rest := [OpSetI32(0, qmax)] + (If(adv, OpSetCharPos(0)) + (b + [loop]));
    HeadGives(split, rest, size, max, Allocate(rest, size, max));
  }

  lemma {:induction false} CountGives(l: Layout, adv: bool, a: Node, back: bool, cc: nat, min: nat, qmax: nat, greedy: bool, size: nat, max: nat)
    requires size <= max <= REGISTER_COUNT_MAX && (l == Exact || l == Counted)
    ensures Allocate(Quantified(l, adv, Body(a, back, cc, -1), min, qmax, greedy, -1), size, max)
            == ExpectedLayout(l, adv, a, back, cc, min, qmax, greedy, size, max)
    decreases a, 5
  {
    hide Allocate, Depth, Body, Comp, Size, Asm, Quantified, If;
    var b := Body(a, back, cc, -1);
    var own := OwnRegisters(l, adv);
    BodySizeFixed(a, back, cc, -1, size + own);
    var b1 := Body(a, back, cc, size + own);
    if l == Counted {
      CountedIs(adv, b, min, qmax, greedy, -1);
      CountedIs(adv, b1, min, qmax, greedy, size);
      CountedGives(adv, a, back, cc, qmax, OpLoopSplit(adv, !greedy, 0, qmax - min, -(Size(b) + 10 + 2 * Bit(adv))), size, max);
    } else {
      ExactIs(adv, b, min, qmax, greedy, -1);
      ExactIs(adv, b1, min, qmax, greedy, size);
      CountedGives(false, a, back, cc, qmax, OpLoop(0, -(Size(b) + 6)), size, max);
    }
  }

  lemma {:induction false} PlusGives(adv: bool, a: Node, back: bool, cc: nat, min: nat, qmax: nat, greedy: bool, size: nat, max: nat)
    requires size <= max <= REGISTER_COUNT_MAX
    ensures Allocate(Quantified(Plus, adv, Body(a, back, cc, -1), min, qmax, greedy, -1), size, max)
            == ExpectedLayout(Plus, adv, a, back, cc, min, qmax, greedy, size, max)
    decreases a, 5
  {
    hide Allocate, Depth, Body, Comp, Size, Asm;
    BodySizeFixed(a, back, cc, -1, size);
    var b := Body(a, back, cc, -1);
    var split := OpSplit(!greedy, -(Size(b) + 5));
    BodyGives(a, back, cc, size, max);
    var end := Larger(max, size + Depth(a, back, cc));
    PlainGives(split, size, end);
    OntoGives(b, [split], size, max, ExpectedBody(a, back, cc, size, max), Allocated([split], size, end));
  }

  lemma {:induction false} LayoutGives(l: Layout, adv: bool, a: Node, back: bool, cc: nat, min: nat, qmax: nat, greedy: bool, size: nat, max: nat)
    requires size <= max <= REGISTER_COUNT_MAX
    ensures Allocate(Quantified(l, adv, Body(a, back, cc, -1), min, qmax, greedy, -1), size, max)
            == ExpectedLayout(l, adv, a, back, cc, min, qmax, greedy, size, max)
    decreases a, 6
  {
    hide Allocate, Depth, Body, Comp, Size, Asm, ExpectedLayout;
    match l
    case Dropped => NothingGives(size, max); DroppedIs(adv, a, back, cc, min, qmax, greedy, size, max);
    case Optional => OptionalGives(adv, a, back, cc, min, qmax, greedy, size, max);
    case Star => StarGives(adv, a, back, cc, min, qmax, greedy, size, max);
    case Bounded => BoundedGives(adv, a, back, cc, min, qmax, greedy, size, max);
    case Plus => PlusGives(adv, a, back, cc, min, qmax, greedy, size, max);
    case _ => CountGives(l, adv, a, back, cc, min, qmax, greedy, size, max);
  }

  lemma DroppedIs(adv: bool, a: Node, back: bool, cc: nat, min: nat, qmax: nat, greedy: bool, size: nat, max: nat)
    ensures ExpectedLayout(Dropped, adv, a, back, cc, min, qmax, greedy, size, max) == Allocated([], size, max)
  {
  }

  lemma DepthQuant(a: Node, min: nat, qmax: Max, greedy: bool, back: bool, cc: nat)
    ensures var adv := NeedAdvance(a, back, cc); var l := LayoutOf(adv, min, qmax);
            Depth(Quant(a, min, qmax, greedy), back, cc) == if l.Dropped? then 0 else OwnRegisters(l, adv) + Depth(a, back, cc)
  {
    hide NeedAdvance, LayoutOf, OwnRegisters;
  }

  lemma {:induction false} QuantGives(a: Node, min: nat, qmax: Max, greedy: bool, back: bool, cc: nat, size: nat, max: nat)
    requires size <= max <= REGISTER_COUNT_MAX
    ensures Allocate(Comp(Quant(a, min, qmax, greedy), back, cc, -1), size, max)
            == Expected(Quant(a, min, qmax, greedy), back, cc, size, max)
    decreases a, 7
  {
    hide Allocate, Depth, Body, Comp, Size, Asm, Quantified, NeedAdvance, NeedInit, LayoutOf, OwnRegisters;
    var adv := NeedAdvance(a, back, cc);
    var l := LayoutOf(adv, min, qmax);
    CompQuant(a, min, qmax, greedy, back, cc, -1);
    CompQuant(a, min, qmax, greedy, back, cc, size);
    DepthQuant(a, min, qmax, greedy, back, cc);
    LayoutGives(l, adv, a, back, cc, min, QuantMax(qmax), greedy, size, max);
    var q := Quantified(l, adv, Body(a, back, cc, -1), min, QuantMax(qmax), greedy, -1);
    var q1 := Quantified(l, adv, Body(a, back, cc, size + OwnRegisters(l, adv)), min, QuantMax(qmax), greedy, size);
    assert l.Dropped? ==> q1 == [] by { QuantifiedDropped(adv, Body(a, back, cc, size + OwnRegisters(l, adv)), min, QuantMax(qmax), greedy, size); }
    if min == 0 && !NeedInit(a, back, cc) && Groups(a) > 0 {
      HeadGives(OpSaveReset(cc, cc + Groups(a) - 1), q, size, max, Allocate(q, size, max));
    } else {
      assert [] + q == q && [] + q1 == q1;
    }
  }

  lemma QuantifiedDropped(adv: bool, body: seq<Instr>, min: nat, qmax: nat, greedy: bool, d: int)
    ensures Quantified(Dropped, adv, body, min, qmax, greedy, d) == []
  {
  }

  // ----- the whole program

  /** The scan of an emitted program never underflows and ends with an empty stack. It numbers every
      register operand as the compiler's nesting structure demands, or reports exactly the programs that
      would need more than 255 registers. */
  lemma AllocateProgram(node: Node, sticky: bool)
    ensures Allocate(Program(node, sticky, -1), 0, 0)
            == if Depth(node, false, 1) > REGISTER_COUNT_MAX then TooMany
               else Allocated(Program(node, sticky, 0), 0, Depth(node, false, 1))
  {
    hide Allocate, Depth, Comp, Size, Asm;
    AllocateComp(node, false, 1, 0, 0);
    var body, m := Comp(node, false, 1, -1), Depth(node, false, 1);
    var tail := [OpSave(true, 0), OpMatch];
    if m <= REGISTER_COUNT_MAX {
      PlainGives(OpMatch, 0, m);
      HeadGives(OpSave(true, 0), [OpMatch], 0, m, Allocated([OpMatch], 0, m));
      assert [OpSave(true, 0)] + [OpMatch] == tail;
    }
    OntoGives(body, tail, 0, 0, Expected(node, false, 1, 0, 0), Allocated(tail, 0, m));
    HeadGives(OpSave(false, 0), body + tail, 0, 0, Allocate(body + tail, 0, 0));
    if !sticky {
      var whole := [OpSave(false, 0)] + (body + tail);
      var e := Allocate(whole, 0, 0);
      HeadGives(OpGoto(-11), whole, 0, 0, e);
      HeadGives(OpAny, [OpGoto(-11)] + whole, 0, 0, Prepend(OpGoto(-11), e));
      HeadGives(OpSplit(false, 6), [OpAny] + ([OpGoto(-11)] + whole), 0, 0, Prepend(OpAny, Prepend(OpGoto(-11), e)));
      assert [OpSplit(false, 6), OpAny, OpGoto(-11)] + whole == [OpSplit(false, 6)] + ([OpAny] + ([OpGoto(-11)] + whole));
      if e.Allocated? {
        assert [OpSplit(false, 6), OpAny, OpGoto(-11)] + e.code == [OpSplit(false, 6)] + ([OpAny] + ([OpGoto(-11)] + e.code));
      }
    } else {
      var whole := [OpSave(false, 0)] + (body + tail);
      assert [] + whole == whole;
      var whole0 := [OpSave(false, 0)] + (Comp(node, false, 1, 0) + tail);
      assert [] + whole0 == whole0;
    }
  }
}
