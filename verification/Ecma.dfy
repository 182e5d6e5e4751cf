/** The reference semantics: the matchers of section 22.2.2 of ECMA-262, in continuation-passing style. */
module Ecma {
  import opened Syntax

  datatype Capture = Undefined | Range(start: nat, end: nat)

  /** A MatchState without its Input, which is a parameter of every matcher. */
  datatype State = State(end: nat, caps: seq<Capture>)

  datatype Result = Failure | Success(state: State)

  /** A MatcherContinuation is defined on the states its matcher can reach. */
  type Cont = State --> Result

  /** Matchers of one direction move their position in that direction only. */
  predicate Ahead(input: seq<nat>, back: bool, x: State, y: State) {
    && |y.caps| == |x.caps|
    && y.end <= |input|
    && if back then y.end <= x.end else x.end <= y.end
  }

  ghost predicate Accepts(input: seq<nat>, back: bool, x: State, c: Cont) {
    && x.end <= |input|
    && forall y :: Ahead(input, back, x, y) ==> c.requires(y)
  }

  /** How far the matcher can still move. */
  function Remaining(input: seq<nat>, back: bool, x: State): nat
    requires x.end <= |input|
  {
    if back then x.end else |input| - x.end
  }

  /** RepeatMatcher sets the captures of its atom, groups lo..hi-1, back to undefined. */
  function Reset(caps: seq<Capture>, lo: nat, hi: nat): (r: seq<Capture>)
    requires lo <= hi <= |caps|
    ensures |r| == |caps|
  {
    caps[..lo] + seq(hi - lo, _ => Undefined) + caps[hi..]
  }

  /** CharacterSetMatcher: one character, to the left or to the right of the current position. */
  ghost function MatchChar(input: seq<nat>, back: bool, x: State, c: Cont, accepted: bool): Result
    requires Accepts(input, back, x, c)
    requires Remaining(input, back, x) > 0
  {
    if accepted then c(State(if back then x.end - 1 else x.end + 1, x.caps)) else Failure
  }

  function Adjacent(input: seq<nat>, back: bool, x: State): nat
    requires x.end <= |input| && Remaining(input, back, x) > 0
  {
    if back then input[x.end - 1] else input[x.end]
  }

  /** LineTerminator of section 12.3: LF, CR, LS and PS. */
  predicate EndsLine(c: nat) {
    c == 10 || c == 13 || c == 8232 || c == 8233
  }

  /** WordCharacters without case folding: letters, digits and the low line. */
  predicate WordCharacter(c: nat) {
    ('a' as nat <= c <= 'z' as nat) || ('A' as nat <= c <= 'Z' as nat) || ('0' as nat <= c <= '9' as nat) || c == '_' as nat
  }

  predicate IsSetNode(node: Node) {
    node.Char? || node.Dot? || node.Any? || node.Class?
  }

  ghost predicate InSet(node: Node, ch: nat)
    requires IsSetNode(node)
  {
    match node
    case Char(c) => ch == c
    case Dot => !EndsLine(ch)
    case Any => true
    case Class(points) => InClass(points, ch)
  }

  predicate IsAssertion(node: Node) {
    node.LineStart? || node.LineEnd? || node.WordBoundary?
  }

  predicate WordAt(input: seq<nat>, e: int) {
    0 <= e < |input| && WordCharacter(input[e])
  }

  predicate Holds(node: Node, input: seq<nat>, e: nat)
    requires IsAssertion(node) && e <= |input|
  {
    match node
    case LineStart(multi) => e == 0 || (multi && EndsLine(input[e - 1]))
    case LineEnd(multi) => e == |input| || (multi && EndsLine(input[e]))
    case WordBoundary(neg) => (WordAt(input, e - 1) != WordAt(input, e)) != neg
  }

  /** BackreferenceMatcher. A capture always is a range of the input; the two tests that say so
      only make the function total. */
  function MatchBackRef(input: seq<nat>, back: bool, n: nat, x: State, c: Cont): Result
    requires Accepts(input, back, x, c) && n < |x.caps|
  {
    match x.caps[n]
    case Undefined => c(x)
    case Range(rs, re) =>
      var len := re - rs;
      var f := if back then x.end - len else x.end + len;
      if f < 0 || f > |input| || len < 0 || re > |input| then Failure
      else
        var g := if back then f else x.end;
        if input[rs..re] == input[g..g + len] then c(State(f, x.caps)) else Failure
  }

  /** The matcher of `node`, whose first group has number `cc`, started in state `x`. */
  ghost function M(input: seq<nat>, node: Node, back: bool, cc: nat, x: State, c: Cont): Result
    requires Accepts(input, back, x, c)
    requires cc + Groups(node) <= |x.caps| && Parsed(node, |x.caps|)
    decreases node, 0, 0, 0
  {
    match node
    case Empty => c(x)
    case Char(_) => if Remaining(input, back, x) == 0 then Failure else MatchChar(input, back, x, c, InSet(node, Adjacent(input, back, x)))
    case Dot => if Remaining(input, back, x) == 0 then Failure else MatchChar(input, back, x, c, InSet(node, Adjacent(input, back, x)))
    case Any => if Remaining(input, back, x) == 0 then Failure else MatchChar(input, back, x, c, InSet(node, Adjacent(input, back, x)))
    case Class(_) => if Remaining(input, back, x) == 0 then Failure else MatchChar(input, back, x, c, InSet(node, Adjacent(input, back, x)))
    case LineStart(_) => if Holds(node, input, x.end) then c(x) else Failure
    case LineEnd(_) => if Holds(node, input, x.end) then c(x) else Failure
    case WordBoundary(_) => if Holds(node, input, x.end) then c(x) else Failure
    case BackRef(n) => MatchBackRef(input, back, n, x, c)
    case Cat(a, b) =>
      if back then M(input, b, back, cc + Groups(a), x, CatCont(input, a, back, cc, x, c))
      else M(input, a, back, cc, x, CatCont(input, b, back, cc + Groups(a), x, c))
    case Alt(a, b) =>
      var r := M(input, a, back, cc, x, c);
      if r != Failure then r else M(input, b, back, cc + Groups(a), x, c)
    case Group(a) => M(input, a, back, cc + 1, x, GroupCont(input, back, cc, x, c))
    case Quant(a, min, max, greedy) => Repeat(input, a, back, cc, min, max, greedy, x, c)
    case Look(behind, neg, a) =>
      var r := M(input, a, behind, cc, x, LookCont(input, behind, x));
      if neg then
        if r != Failure then Failure else c(x)
      else
        if r == Failure || |r.state.caps| != |x.caps| then Failure else c(State(x.end, r.state.caps))
  }

  /** The second half of a sequence, in evaluation order. */
  ghost function CatCont(input: seq<nat>, second: Node, back: bool, cc: nat, x: State, c: Cont): (d: Cont)
    requires Accepts(input, back, x, c)
    requires cc + Groups(second) <= |x.caps| && Parsed(second, |x.caps|)
    ensures Accepts(input, back, x, d)
    decreases second, 0, 0, 1
  {
    (y: State) requires Ahead(input, back, x, y) => M(input, second, back, cc, y, c)
  }

  function GroupCont(input: seq<nat>, back: bool, cc: nat, x: State, c: Cont): (d: Cont)
    requires Accepts(input, back, x, c) && cc < |x.caps|
    ensures Accepts(input, back, x, d)
  {
    (y: State) requires Ahead(input, back, x, y) =>
      c(State(y.end, y.caps[cc := if back then Range(y.end, x.end) else Range(x.end, y.end)]))
  }

  /** The continuation of a lookaround: success, with the state reached. */
  function LookCont(input: seq<nat>, behind: bool, x: State): (d: Cont)
    requires x.end <= |input|
    ensures Accepts(input, behind, x, d)
  {
    (y: State) requires Ahead(input, behind, x, y) => Success(y)
  }

  function Decrement(max: Max): Max {
    if max.Fin? && max.n > 0 then Fin(max.n - 1) else max
  }

  /** RepeatMatcher. */
  ghost function Repeat(input: seq<nat>, atom: Node, back: bool, cc: nat, min: nat, max: Max, greedy: bool,
                        x: State, c: Cont): Result
    requires Accepts(input, back, x, c)
    requires cc + Groups(atom) <= |x.caps| && Parsed(atom, |x.caps|)
    decreases atom, 1, min, 2 * Remaining(input, back, x) + 1
  {
    if max == Fin(0) then c(x) else
    var d := RepeatCont(input, atom, back, cc, min, max, greedy, x, c);
    var xr := State(x.end, Reset(x.caps, cc, cc + Groups(atom)));
    if min != 0 then M(input, atom, back, cc, xr, d)
    else if greedy then
      var z := M(input, atom, back, cc, xr, d);
      if z != Failure then z else c(x)
    else
      var z := c(x);
      if z != Failure then z else M(input, atom, back, cc, xr, d)
  }

  /** The continuation of one iteration: once the required ones are done, an empty iteration fails. */
  ghost function RepeatCont(input: seq<nat>, atom: Node, back: bool, cc: nat, min: nat, max: Max, greedy: bool,
                            x: State, c: Cont): (d: Cont)
    requires Accepts(input, back, x, c)
    requires cc + Groups(atom) <= |x.caps| && Parsed(atom, |x.caps|)
    ensures Accepts(input, back, x, d)
    decreases atom, 1, min, 2 * Remaining(input, back, x)
  {
    (y: State) requires Ahead(input, back, x, y) =>
      if min == 0 && y.end == x.end then Failure
      else Repeat(input, atom, back, cc, if min == 0 then 0 else min - 1, Decrement(max), greedy, y, c)
  }

  /** RegExpBuiltinExec: try every start position from `start` on, or that one only if sticky. */
  ghost function Search(input: seq<nat>, node: Node, ncap: nat, sticky: bool, start: nat): Result
    requires start <= |input| && 1 + Groups(node) <= ncap && Parsed(node, ncap)
    decreases |input| - start
  {
    var r := MatchAt(input, node, ncap, start);
    if r != Failure || sticky || start == |input| then r
    else Search(input, node, ncap, sticky, start + 1)
  }

  /** One attempt: capture 0 is the whole match. */
  ghost function MatchAt(input: seq<nat>, node: Node, ncap: nat, start: nat): Result
    requires start <= |input| && 1 + Groups(node) <= ncap && Parsed(node, ncap)
  {
    var x := State(start, seq(ncap, _ => Undefined));
    M(input, node, false, 1, x, GroupCont(input, false, 0, x, LookCont(input, false, x)))
  }
}
