/** The code that is emitted for a pattern. */
module Codegen {
  import opened Words
  import opened Bytecode
  import opened Syntax
  import opened Ecma

  function Last<T>(s: seq<T>): T
    requires s != []
  {
    s[|s| - 1]
  }

  /** re_emit_char */
  function EmitChar(c: nat): Instr {
    if c <= 0xffff then OpChar16(c) else OpChar32(c)
  }

  /** The pairs of inclusive bounds that follow a range opcode; 0xffff stands for infinity in the short form. */
  function Short(v: nat, isHigh: bool): int {
    if !isHigh then v else if v == UINT32_MAX then 0xffff else v - 1
  }

  function ShortBounds(points: seq<nat>): (vs: seq<int>)
    ensures |vs| == |points|
  {
    seq(|points|, i requires 0 <= i < |points| => Short(points[i], i % 2 == 1))
  }

  function LongBounds(points: seq<nat>): (vs: seq<int>)
    ensures |vs| == |points|
  {
    seq(|points|, i requires 0 <= i < |points| => points[i] as int - i % 2)
  }

  /** re_emit_range */
  function EmitRange(points: seq<nat>): Instr {
    if |points| / 2 == 0 then OpChar32(UINT32_MAX)
    else
      var high := if Last(points) == UINT32_MAX then points[|points| - 2] else Last(points);
      if high <= 0xffff then OpRange16(ShortBounds(points)) else OpRange32(LongBounds(points))
  }

  function EmitSet(node: Node): Instr
    requires IsSetNode(node)
  {
    match node
    case Char(c) => EmitChar(c)
    case Dot => OpDot
    case Any => OpAny
    case Class(points) => EmitRange(points)
  }

  /** The state of re_need_check_adv_and_capture_init while it walks over the code of an atom. */
  datatype Scan = Scan(adv: bool, init: bool, stopped: bool)

  function ScanStep(st: Scan, i: Instr): Scan {
    if st.stopped then st else
    match i
    case OpRange16(_) => st.(adv := false)
    case OpRange32(_) => st.(adv := false)
    case OpChar16(_) => st.(adv := false)
    case OpChar32(_) => st.(adv := false)
    case OpDot => st.(adv := false)
    case OpAny => st.(adv := false)
    case OpLineStart(_) => st
    case OpLineEnd(_) => st
    case OpSetI32(_, _) => st
    case OpSetCharPos(_) => st
    case OpWordBoundary(_) => st
    case OpPrev => st
    case OpSave(_, _) => st
    case OpSaveReset(_, _) => st
    case OpBackRef(_, _) => st.(init := true)
    case _ => st.(init := true, stopped := true)
  }

  function ScanCode(s: seq<Instr>, st: Scan): Scan {
    if s == [] then st else ScanCode(s[1..], ScanStep(st, s[0]))
  }

  const SCAN_START := Scan(true, false, false)

  /** Registers are numbered by a later pass; until then, at depth -1, every register operand is 0. */
  function Reg(d: int): int {
    if d < 0 then 0 else d
  }

  function Deeper(d: int, k: nat): int {
    if d < 0 then d else d + k
  }

  function QuantMax(max: Max): nat {
    if max.Inf? then INT32_MAX else max.n
  }

  /** The code shapes that re_parse_term chooses from for a quantifier. */
  datatype Layout = Dropped | Optional | Star | Bounded | Plus | Exact | Counted

  function LayoutOf(adv: bool, min: nat, max: Max): Layout {
    var m := QuantMax(max);
    if min == 0 then
      if m == 0 then Dropped else if m == 1 then Optional else if m == INT32_MAX then Star else Bounded
    else if min == 1 && m == INT32_MAX && !adv then Plus
    else if min == m then Exact
    else Counted
  }

  /** The registers that a layout keeps for itself while its atom runs. */
  function OwnRegisters(l: Layout, adv: bool): nat {
    match l
    case Dropped => 0
    case Optional => Bit(adv)
    case Star => Bit(adv)
    case Bounded => 1 + Bit(adv)
    case Plus => 0
    case Exact => 1
    case Counted => 1 + Bit(adv)
  }

  function If(b: bool, i: Instr): seq<Instr> {
    if b then [i] else []
  }

  /** The code of a quantifier around the code `body` of its atom. */
  function Quantified(l: Layout, adv: bool, body: seq<Instr>, min: nat, max: nat, greedy: bool, d: int): seq<Instr> {
    match l
    case Dropped => []
    case Optional =>
      [OpSplit(greedy, Size(body) + 4 * Bit(adv))]
      + (If(adv, OpSetCharPos(Reg(d))) + (body + If(adv, OpCheckAdvance(Reg(d)))))
    case Star =>
      [OpSplit(greedy, Size(body) + 5 + 4 * Bit(adv))]
      + (If(adv, OpSetCharPos(Reg(d))) + (body + (If(adv, OpCheckAdvance(Reg(d)))
      + [OpGoto(-(Size(body) + 10 + 4 * Bit(adv)))])))
    case Bounded =>
      [OpSplit(greedy, 6 + 2 * Bit(adv) + Size(body) + 10)] + ([OpSetI32(Reg(d), max)]
      + (If(adv, OpSetCharPos(Reg(Deeper(d, 1)))) + (body
      + [OpLoopSplit(adv, !greedy, Reg(d), max, -(Size(body) + 10 + 2 * Bit(adv)))])))
    case Plus =>
      body + [OpSplit(!greedy, -(Size(body) + 5))]
    case Exact =>
      [OpSetI32(Reg(d), max)] + (body + [OpLoop(Reg(d), -(Size(body) + 6))])
    case Counted =>
      [OpSetI32(Reg(d), max)] + (If(adv, OpSetCharPos(Reg(Deeper(d, 1)))) + (body
      + [OpLoopSplit(adv, !greedy, Reg(d), max - min, -(Size(body) + 10 + 2 * Bit(adv)))]))
  }

  /** The code of `node`, its first group being number `cc`, its registers starting at `d`. */
  function Comp(node: Node, back: bool, cc: nat, d: int): seq<Instr>
    decreases node, 0
  {
    match node
    case Empty => []
    case Char(_) => CompSet(node, back)
    case Dot => CompSet(node, back)
    case Any => CompSet(node, back)
    case Class(_) => CompSet(node, back)
    case LineStart(multi) => [OpLineStart(multi)]
    case LineEnd(multi) => [OpLineEnd(multi)]
    case WordBoundary(neg) => [OpWordBoundary(neg)]
    case BackRef(n) => [OpBackRef(back, [n])]
    case Cat(a, b) =>
      CatCode(back, Comp(a, back, cc, d), Comp(b, back, cc + Groups(a), d))
    case Alt(a, b) =>
      AltCode(Comp(a, back, cc, d), Comp(b, back, cc + Groups(a), d))
    case Group(a) =>
      GroupCode(back, cc, Comp(a, back, cc + 1, d))
    case Quant(a, min, max, greedy) =>
      QuantCode(a, back, cc, min, max, greedy, d)
    case Look(behind, neg, a) =>
      LookCode(neg, Comp(a, behind, cc, d))
  }

  /** The terms of a lookbehind are laid out in reverse order. */
  function CatCode(back: bool, left: seq<Instr>, right: seq<Instr>): seq<Instr> {
    if back then right + left else left + right
  }

  function AltCode(first: seq<Instr>, second: seq<Instr>): seq<Instr> {
    [OpSplit(true, Size(first) + 5)] + (first + ([OpGoto(Size(second))] + second))
  }

  function GroupCode(back: bool, cc: nat, body: seq<Instr>): seq<Instr> {
    [OpSave(back, cc)] + (body + [OpSave(!back, cc)])
  }

  function LookCode(neg: bool, body: seq<Instr>): seq<Instr> {
    [OpLook(neg, Size(body) + 1)] + (body + [OpLookMatch(neg)])
  }

  function QuantCode(a: Node, back: bool, cc: nat, min: nat, max: Max, greedy: bool, d: int): seq<Instr>
    decreases a, 3
  {
    var adv := NeedAdvance(a, back, cc);
    var l := LayoutOf(adv, min, max);
    Prefix(a, back, cc, min)
    + Quantified(l, adv, Body(a, back, cc, Deeper(d, OwnRegisters(l, adv))), min, QuantMax(max), greedy, d)
  }

  function CompSet(node: Node, back: bool): seq<Instr>
    requires IsSetNode(node)
  {
    if back then [OpPrev, EmitSet(node), OpPrev] else [EmitSet(node)]
  }

  /** need_check_adv and need_capture_init for an atom. */
  function NeedAdvance(atom: Node, back: bool, cc: nat): bool
    decreases atom, 1
  {
    ScanCode(Comp(atom, back, cc, -1), SCAN_START).adv
  }

  function NeedInit(atom: Node, back: bool, cc: nat): bool
    decreases atom, 1
  {
    ScanCode(Comp(atom, back, cc, -1), SCAN_START).init
  }

  /** The reset in front of each iteration, or else the one in front of an atom that may be skipped. */
  function Body(atom: Node, back: bool, cc: nat, d: int): seq<Instr>
    decreases atom, 2
  {
    If(NeedInit(atom, back, cc) && Groups(atom) > 0, OpSaveReset(cc, cc + Groups(atom) - 1)) + Comp(atom, back, cc, d)
  }

  function Prefix(atom: Node, back: bool, cc: nat, min: nat): seq<Instr>
    decreases atom, 2
  {
    If(min == 0 && !NeedInit(atom, back, cc) && Groups(atom) > 0, OpSaveReset(cc, cc + Groups(atom) - 1))
  }

  /** The program of lre_compile behind its header. */
  function Program(node: Node, sticky: bool, d: int): seq<Instr> {
    (if sticky then [] else [OpSplit(false, 6), OpAny, OpGoto(-11)])
    + ([OpSave(false, 0)] + (Comp(node, false, 1, d) + [OpSave(true, 0), OpMatch]))
  }

  // The unfoldings of Comp, for proofs that hide its definition.

  lemma CompCat(a: Node, b: Node, back: bool, cc: nat, d: int)
    ensures Comp(Cat(a, b), back, cc, d) == CatCode(back, Comp(a, back, cc, d), Comp(b, back, cc + Groups(a), d))
  {
    hide CatCode, AltCode, GroupCode, LookCode, QuantCode, CompSet;
  }

  lemma CompAlt(a: Node, b: Node, back: bool, cc: nat, d: int)
    ensures Comp(Alt(a, b), back, cc, d) == AltCode(Comp(a, back, cc, d), Comp(b, back, cc + Groups(a), d))
  {
    hide CatCode, AltCode, GroupCode, LookCode, QuantCode, CompSet;
  }

  lemma CompGroup(a: Node, back: bool, cc: nat, d: int)
    ensures Comp(Group(a), back, cc, d) == GroupCode(back, cc, Comp(a, back, cc + 1, d))
  {
    hide CatCode, AltCode, GroupCode, LookCode, QuantCode, CompSet;
  }

  lemma CompQuant(a: Node, min: nat, max: Max, greedy: bool, back: bool, cc: nat, d: int)
    ensures Comp(Quant(a, min, max, greedy), back, cc, d) == QuantCode(a, back, cc, min, max, greedy, d)
  {
    hide CatCode, AltCode, GroupCode, LookCode, QuantCode, CompSet;
  }

  lemma CompLook(behind: bool, neg: bool, a: Node, back: bool, cc: nat, d: int)
    ensures Comp(Look(behind, neg, a), back, cc, d) == LookCode(neg, Comp(a, behind, cc, d))
  {
    hide CatCode, AltCode, GroupCode, LookCode, QuantCode, CompSet;
  }

  // ----- what the scan of an atom tells about it

  /** Every match of the node moves the position. */
  predicate MustAdvance(node: Node) {
    match node
    case Char(_) => true
    case Dot => true
    case Any => true
    case Class(_) => true
    case Cat(a, b) => MustAdvance(a) || MustAdvance(b)
    case Alt(a, b) => MustAdvance(a) && MustAdvance(b)
    case Group(a) => MustAdvance(a)
    case Quant(a, min, max, _) => min >= 1 && MustAdvance(a)
    case _ => false
  }

  /** The node is compiled to code without jumps and back references. */
  predicate StraightLine(node: Node) {
    match node
    case BackRef(_) => false
    case Cat(a, b) => StraightLine(a) && StraightLine(b)
    case Alt(_, _) => false
    case Group(a) => StraightLine(a)
    case Quant(_, _, max, _) => max == Fin(0)
    case Look(_, _, _) => false
    case _ => true
  }

  lemma {:induction false} ScanConcat(s: seq<Instr>, t: seq<Instr>, st: Scan)
    ensures ScanCode(s + t, st) == ScanCode(t, ScanCode(s, st))
    decreases |s|
  {
    if s == [] {
      assert s + t == t;
    } else {
      ScanConcat(s[1..], t, ScanStep(st, s[0]));
      assert (s + t)[1..] == s[1..] + t;
    }
  }

  lemma {:induction false} ScanStopped(s: seq<Instr>, st: Scan)
    requires st.stopped
    ensures ScanCode(s, st) == st
    decreases |s|
  {
    if s != [] { ScanStopped(s[1..], st); }
  }

  lemma ScanOne(i: Instr, st: Scan)
    ensures ScanCode([i], st) == ScanStep(st, i)
  {
  }

  /** What a scan that started in `st` and ended in `r` proves of the node whose code it walked over. */
  ghost predicate Sound(node: Node, st: Scan, r: Scan) {
    && (r.adv ==> st.adv)
    && (st.adv && !r.adv ==> MustAdvance(node))
    && (st.init ==> r.init)
    && (r.stopped ==> r.init)
    && (!r.init ==> StraightLine(node))
  }

  lemma ScanHead(i: Instr, t: seq<Instr>, st: Scan)
    ensures ScanCode([i] + t, st) == ScanCode(t, ScanStep(st, i))
  {
    ScanConcat([i], t, st);
    ScanOne(i, st);
  }

  lemma ScanTail(s: seq<Instr>, i: Instr, st: Scan)
    ensures ScanCode(s + [i], st) == ScanStep(ScanCode(s, st), i)
  {
    ScanConcat(s, [i], st);
    ScanOne(i, ScanCode(s, st));
  }

  predicate Stops(i: Instr) {
    i.OpSplit? || i.OpLook? || i.OpLoop? || i.OpLoopSplit? || i.OpGoto?
  }

  lemma ScanStops(i: Instr, t: seq<Instr>, st: Scan)
    requires Stops(i) && !st.stopped
    ensures ScanCode([i] + t, st) == st.(init := true, stopped := true)
  {
    ScanHead(i, t, st);
    ScanStopped(t, ScanStep(st, i));
  }

  predicate IsLeaf(node: Node) {
    !node.Cat? && !node.Alt? && !node.Group? && !node.Quant? && !node.Look?
  }

  predicate IsCharOp(i: Instr) {
    i.OpChar16? || i.OpChar32? || i.OpDot? || i.OpAny? || i.OpRange16? || i.OpRange32?
  }

  lemma EmitSetIsCharOp(node: Node)
    requires IsSetNode(node)
    ensures IsCharOp(EmitSet(node))
  {
  }

  lemma ScanSet(node: Node, back: bool, st: Scan)
    requires !st.stopped && IsSetNode(node)
    ensures ScanCode(CompSet(node, back), st) == st.(adv := false)
  {
    EmitSetIsCharOp(node);
    var i := EmitSet(node);
    if back {
      assert [OpPrev, i, OpPrev] == [OpPrev] + ([i] + [OpPrev]);
      ScanHead(OpPrev, [i] + [OpPrev], st);
      ScanHead(i, [OpPrev], st);
      ScanOne(OpPrev, st.(adv := false));
    } else {
      ScanOne(i, st);
    }
  }

  lemma ScanLeaf(node: Node, back: bool, cc: nat, d: int, st: Scan)
    requires !st.stopped && IsLeaf(node)
    ensures Sound(node, st, ScanCode(Comp(node, back, cc, d), st))
  {
    if IsSetNode(node) {
      ScanSet(node, back, st);
      assert Comp(node, back, cc, d) == CompSet(node, back);
    } else if node != Empty {
      var i := Comp(node, back, cc, d)[0];
      assert Comp(node, back, cc, d) == [i];
      ScanOne(i, st);
    }
  }

  lemma ScanAlt(first: seq<Instr>, second: seq<Instr>, st: Scan)
    requires !st.stopped
    ensures ScanCode(AltCode(first, second), st) == st.(init := true, stopped := true)
  {
    ScanStops(OpSplit(true, Size(first) + 5), first + ([OpGoto(Size(second))] + second), st);
  }

  lemma ScanLook(neg: bool, body: seq<Instr>, st: Scan)
    requires !st.stopped
    ensures ScanCode(LookCode(neg, body), st) == st.(init := true, stopped := true)
  {
    ScanStops(OpLook(neg, Size(body) + 1), body + [OpLookMatch(neg)], st);
  }

  lemma {:induction false} ScanSound(node: Node, back: bool, cc: nat, d: int, st: Scan)
    requires st.stopped ==> st.init
    ensures Sound(node, st, ScanCode(Comp(node, back, cc, d), st))
    decreases node, 0, 1
  {
    hide Comp;
    if st.stopped {
      ScanStopped(Comp(node, back, cc, d), st);
    } else if node.Cat? {
      ScanCat(node.left, node.right, back, cc, d, st);
    } else if node.Alt? {
      CompAlt(node.left, node.right, back, cc, d);
      ScanAlt(Comp(node.left, back, cc, d), Comp(node.right, back, cc + Groups(node.left), d), st);
    } else if node.Look? {
      CompLook(node.behind, node.neg, node.body, back, cc, d);
      ScanLook(node.neg, Comp(node.body, node.behind, cc, d), st);
    } else if node.Group? {
      CompGroup(node.body, back, cc, d);
      var body := Comp(node.body, back, cc + 1, d);
      ScanHead(OpSave(back, cc), body + [OpSave(!back, cc)], st);
      ScanTail(body, OpSave(!back, cc), st);
      ScanSound(node.body, back, cc + 1, d, st);
    } else if node.Quant? {
      ScanQuant(node.atom, node.min, node.max, node.greedy, back, cc, d, st);
    } else {
      ScanLeaf(node, back, cc, d, st);
    }
  }

  lemma {:induction false} ScanCat(a: Node, b: Node, back: bool, cc: nat, d: int, st: Scan)
    requires !st.stopped
    ensures Sound(Cat(a, b), st, ScanCode(Comp(Cat(a, b), back, cc, d), st))
    decreases Cat(a, b), 0, 0
  {
    hide Comp;
    CompCat(a, b, back, cc, d);
    var ca := Comp(a, back, cc, d);
    var cb := Comp(b, back, cc + Groups(a), d);
    if back {
      ScanConcat(cb, ca, st);
      ScanSound(b, back, cc + Groups(a), d, st);
      ScanSound(a, back, cc, d, ScanCode(cb, st));
    } else {
      ScanConcat(ca, cb, st);
      ScanSound(a, back, cc, d, st);
      ScanSound(b, back, cc + Groups(a), d, ScanCode(ca, st));
    }
  }

  lemma {:induction false} ScanQuant(a: Node, min: nat, max: Max, greedy: bool, back: bool, cc: nat, d: int, st: Scan)
    requires !st.stopped
    ensures Sound(Quant(a, min, max, greedy), st, ScanCode(Comp(Quant(a, min, max, greedy), back, cc, d), st))
    decreases a, 2
  {
    hide Comp;
    CompQuant(a, min, max, greedy, back, cc, d);
    var adv := NeedAdvance(a, back, cc);
    var l := LayoutOf(adv, min, max);
    var body := Body(a, back, cc, Deeper(d, OwnRegisters(l, adv)));
    var pre := Prefix(a, back, cc, min);
    var q := Quantified(l, adv, body, min, QuantMax(max), greedy, d);
    ScanConcat(pre, q, st);
    assert ScanCode(pre, st) == st by {
      if pre != [] { ScanOne(pre[0], st); }
    }
    if l.Optional? || l.Star? || l.Bounded? {
      ScanFrontEdge(l, adv, body, min, QuantMax(max), greedy, d, st);
    } else if !l.Dropped? {
      ScanBody(a, back, cc, Deeper(d, OwnRegisters(l, adv)), st);
      ScanBackEdge(l, adv, body, min, QuantMax(max), greedy, d, st);
    }
  }

  /** The layouts that may skip the atom stop at their first instruction. */
  lemma ScanFrontEdge(l: Layout, adv: bool, body: seq<Instr>, min: nat, max: nat, greedy: bool, d: int, st: Scan)
    requires !st.stopped && (l.Optional? || l.Star? || l.Bounded?)
    ensures ScanCode(Quantified(l, adv, body, min, max, greedy, d), st) == st.(init := true, stopped := true)
  {
    var q := Quantified(l, adv, body, min, max, greedy, d);
    assert q == [q[0]] + q[1..];
    ScanStops(q[0], q[1..], st);
  }

  function ThenStop(r: Scan): Scan {
    if r.stopped then r else r.(init := true, stopped := true)
  }

  lemma ScanThenStop(body: seq<Instr>, i: Instr, st: Scan)
    requires Stops(i)
    ensures ScanCode(body + [i], st) == ThenStop(ScanCode(body, st))
  {
    ScanTail(body, i, st);
  }

  lemma ScanHeader(i: Instr, rest: seq<Instr>, st: Scan)
    requires i.OpSetI32? || i.OpSetCharPos? || i.OpSaveReset?
    ensures ScanCode([i] + rest, st) == ScanCode(rest, st)
  {
    ScanHead(i, rest, st);
  }

  lemma ScanCounted(i: Instr, adv: bool, j: Instr, body: seq<Instr>, loop: Instr, st: Scan)
    requires i.OpSetI32? && j.OpSetCharPos? && Stops(loop)
    ensures ScanCode([i] + (If(adv, j) + (body + [loop])), st) == ThenStop(ScanCode(body, st))
  {
    var rest := body + [loop];
    ScanHeader(i, If(adv, j) + rest, st);
    if adv {
      ScanHeader(j, rest, st);
    } else {
      assert [] + rest == rest;
    }
    ScanThenStop(body, loop, st);
  }

  /** The layouts that run the atom before they test anything scan like their atom, then stop. */
  lemma ScanBackEdge(l: Layout, adv: bool, body: seq<Instr>, min: nat, max: nat, greedy: bool, d: int, st: Scan)
    requires l.Plus? || l.Exact? || l.Counted?
    ensures ScanCode(Quantified(l, adv, body, min, max, greedy, d), st) == ThenStop(ScanCode(body, st))
  {
    match l
    case Plus =>
      ScanThenStop(body, OpSplit(!greedy, -(Size(body) + 5)), st);
    case Exact =>
      var loop := OpLoop(Reg(d), -(Size(body) + 6));
      ScanHeader(OpSetI32(Reg(d), max), body + [loop], st);
      ScanThenStop(body, loop, st);
    case Counted =>
      var loop := OpLoopSplit(adv, !greedy, Reg(d), max - min, -(Size(body) + 10 + 2 * Bit(adv)));
      ScanCounted(OpSetI32(Reg(d), max), adv, OpSetCharPos(Reg(Deeper(d, 1))), body, loop, st);
  }

  lemma {:induction false} ScanBody(a: Node, back: bool, cc: nat, d: int, st: Scan)
    requires !st.stopped
    ensures Sound(a, st, ScanCode(Body(a, back, cc, d), st))
    decreases a, 1
  {
    hide Comp;
    var reset := If(NeedInit(a, back, cc) && Groups(a) > 0, OpSaveReset(cc, cc + Groups(a) - 1));
    ScanConcat(reset, Comp(a, back, cc, d), st);
    assert ScanCode(reset, st) == st by {
      if reset != [] { ScanOne(reset[0], st); }
    }
    ScanSound(a, back, cc, d, st);
  }

  /** need_check_adv and need_capture_init, as used for a quantifier: no advance check means that the
      atom always advances, no reset per iteration means straight-line code. */
  lemma AtomScan(atom: Node, back: bool, cc: nat)
    ensures !NeedAdvance(atom, back, cc) ==> MustAdvance(atom)
    ensures !NeedInit(atom, back, cc) ==> StraightLine(atom)
  {
    hide Comp;
    ScanSound(atom, back, cc, -1, SCAN_START);
  }
}
