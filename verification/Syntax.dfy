/** The abstract syntax of patterns: what `re_parse_disjunction` has read when it emits code. */
module Syntax {
  import opened Words

  datatype Max = Inf | Fin(n: nat)

  datatype Node =
    | Empty
    | Char(c: nat)
    | Dot                       // any character but a line terminator
    | Any                       // the same with the `s` flag
    | Class(points: seq<nat>)   // the code points of a CharRange
    | LineStart(multi: bool)
    | LineEnd(multi: bool)
    | WordBoundary(neg: bool)
    | BackRef(n: nat)
    | Cat(left: Node, right: Node)
    | Alt(left: Node, right: Node)
    | Group(body: Node)
    | Quant(atom: Node, min: nat, max: Max, greedy: bool)
    | Look(behind: bool, neg: bool, body: Node)

  /** The number of capturing groups. */
  function Groups(node: Node): nat {
    match node
    case Cat(a, b) => Groups(a) + Groups(b)
    case Alt(a, b) => Groups(a) + Groups(b)
    case Group(a) => 1 + Groups(a)
    case Quant(a, _, _, _) => Groups(a)
    case Look(_, _, a) => Groups(a)
    case _ => 0
  }

  /** The points of a CharRange: an even number of strictly increasing code points, the last of which
      may be UINT32_MAX, standing for "no upper limit". */
  predicate Increasing(points: seq<nat>) {
    && |points| % 2 == 0
    && (forall i :: 0 <= i < |points| ==> points[i] <= UINT32_MAX)
    && (forall i, j :: 0 <= i < j < |points| ==> points[i] < points[j])
  }

  /** The length of a range opcode is stored in 16 bits. */
  predicate Canonical(points: seq<nat>) {
    Increasing(points) && |points| / 2 < 65535
  }

  /** Membership in the half-open intervals that the points delimit. */
  ghost predicate InClass(points: seq<nat>, c: nat) {
    exists i :: 0 <= i < |points| / 2 && points[2 * i] <= c < points[2 * i + 1]
  }

  /** What the parser guarantees of a pattern with `ncap` groups, group 0 (the whole match) included. */
  predicate Parsed(node: Node, ncap: nat) {
    match node
    case Char(c) => c <= 0x10ffff
    case Class(points) => Canonical(points)
    case BackRef(n) => 1 <= n < ncap
    case Cat(a, b) => Parsed(a, ncap) && Parsed(b, ncap)
    case Alt(a, b) => Parsed(a, ncap) && Parsed(b, ncap)
    case Group(a) => Parsed(a, ncap)
    case Quant(a, min, max, _) =>
      && Parsed(a, ncap)
      && min <= INT32_MAX
      && (max.Fin? ==> min <= max.n <= INT32_MAX)
    case Look(_, _, a) => Parsed(a, ncap)
    case _ => true
  }

  /** The same as it is read: a bound of INT32_MAX or more is no bound, and the limit that re_emit_range
      puts on the length of a class is not checked yet. */
  predicate Readable(node: Node, ncap: nat) {
    match node
    case Char(c) => c <= 0x10ffff
    case Class(points) => Increasing(points)
    case BackRef(n) => 1 <= n < ncap
    case Cat(a, b) => Readable(a, ncap) && Readable(b, ncap)
    case Alt(a, b) => Readable(a, ncap) && Readable(b, ncap)
    case Group(a) => Readable(a, ncap)
    case Quant(a, min, max, _) =>
      && Readable(a, ncap)
      && min <= INT32_MAX
      && (max.Fin? ==> min <= max.n < INT32_MAX)
    case Look(_, _, a) => Readable(a, ncap)
    case _ => true
  }

  predicate RangesFit(node: Node) {
    match node
    case Class(points) => |points| / 2 < 65535
    case Cat(a, b) => RangesFit(a) && RangesFit(b)
    case Alt(a, b) => RangesFit(a) && RangesFit(b)
    case Group(a) => RangesFit(a)
    case Quant(a, _, _, _) => RangesFit(a)
    case Look(_, _, a) => RangesFit(a)
    case _ => true
  }

  lemma {:induction false} ReadableFits(node: Node, ncap: nat)
    requires Readable(node, ncap) && RangesFit(node)
    ensures Parsed(node, ncap)
  {
    match node
    case Cat(a, b) => ReadableFits(a, ncap); ReadableFits(b, ncap);
    case Alt(a, b) => ReadableFits(a, ncap); ReadableFits(b, ncap);
    case Group(a) => ReadableFits(a, ncap);
    case Quant(a, _, _, _) => ReadableFits(a, ncap);
    case Look(_, _, a) => ReadableFits(a, ncap);
    case _ =>
  }

  predicate LineTerminator(c: nat) {
    c == 0x0a || c == 0x0d || c == 0x2028 || c == 0x2029
  }

  predicate WordChar(c: nat) {
    0x30 <= c <= 0x39 || 0x41 <= c <= 0x5a || c == 0x5f || 0x61 <= c <= 0x7a
  }
}
