/** The tests that only make the reference matcher total never decide anything. */
module Totality {
  import opened Syntax
  import opened Ecma

  /** Captures are ranges of the input. */
  predicate InInput(input: seq<nat>, cap: Capture) {
    cap.Range? ==> cap.start <= cap.end <= |input|
  }

  predicate Good(input: seq<nat>, x: State) {
    x.end <= |input| && forall k :: 0 <= k < |x.caps| ==> InInput(input, x.caps[k])
  }

  /** In such a state the tests of a back reference are about the position only. */
  lemma BackRefInRange(input: seq<nat>, back: bool, n: nat, x: State, c: Cont)
    requires Accepts(input, back, x, c) && n < |x.caps| && Good(input, x)
    ensures x.caps[n].Range? ==>
              var len := x.caps[n].end - x.caps[n].start;
              var f := if back then x.end - len else x.end + len;
              && len >= 0 && x.caps[n].end <= |input|
              && (f < 0 || f > |input| ==> MatchBackRef(input, back, n, x, c) == Failure)
  {
    assert InInput(input, x.caps[n]);
  }

  /** What a matcher returns is what its continuation returned for a state that lies ahead. */
  ghost predicate From(input: seq<nat>, back: bool, x: State, c: Cont, r: Result)
    requires Accepts(input, back, x, c)
  {
    r == Failure || exists y :: Ahead(input, back, x, y) && Good(input, y) && r == c(y)
  }

  lemma FromAhead(input: seq<nat>, back: bool, x: State, y: State, c: Cont, r: Result)
    requires Accepts(input, back, x, c) && Ahead(input, back, x, y) && Accepts(input, back, y, c) && From(input, back, y, c, r)
    ensures From(input, back, x, c, r)
  {
    if r != Failure {
      var z :| Ahead(input, back, y, z) && Good(input, z) && r == c(z);
      assert Ahead(input, back, x, z);
    }
  }

  lemma FromSelf(input: seq<nat>, back: bool, x: State, y: State, c: Cont)
    requires Accepts(input, back, x, c) && Ahead(input, back, x, y) && Good(input, y)
    ensures From(input, back, x, c, c(y))
  {
  }

  lemma AcceptsAhead(input: seq<nat>, back: bool, x: State, y: State, c: Cont)
    requires Accepts(input, back, x, c) && Ahead(input, back, x, y)
    ensures Accepts(input, back, y, c)
  {
    forall z | Ahead(input, back, y, z) ensures c.requires(z) { assert Ahead(input, back, x, z); }
  }

  lemma ResetGood(input: seq<nat>, x: State, lo: nat, hi: nat)
    requires Good(input, x) && lo <= hi <= |x.caps|
    ensures Good(input, State(x.end, Reset(x.caps, lo, hi)))
  {
  }

  lemma {:induction false} Reaches(input: seq<nat>, node: Node, back: bool, cc: nat, x: State, c: Cont)
    requires Accepts(input, back, x, c) && Good(input, x) && cc + Groups(node) <= |x.caps| && Parsed(node, |x.caps|)
    ensures From(input, back, x, c, M(input, node, back, cc, x, c))
    decreases node, 1, 0, 0
  {
    hide From, Good, Repeat, RepeatCont, Reset;
    match node
    case Cat(a, b) =>
      if back { CatReaches(input, node, b, a, true, cc + Groups(a), cc, x, c); } else { CatReaches(input, node, a, b, false, cc, cc + Groups(a), x, c); }
    case Alt(a, b) =>
      Reaches(input, a, back, cc, x, c);
      Reaches(input, b, back, cc + Groups(a), x, c);
    case Group(a) => GroupReaches(input, a, back, cc, x, c);
    case Quant(a, min, max, greedy) => RepeatReaches(input, a, back, cc, min, max, greedy, x, c);
    case Look(behind, neg, a) =>
      LookReaches(input, behind, a, cc, x);
      FromSelf(input, back, x, x, c);
      FromFailure(input, back, x, c);
      var r := M(input, a, behind, cc, x, LookCont(input, behind, x));
      if !neg && r != Failure { FromSelf(input, back, x, State(x.end, r.state.caps), c); }
    case BackRef(n) => BackRefReaches(input, back, n, x, c);
    case Char(_) => LeafReaches(input, node, back, cc, x, c);
    case Dot => LeafReaches(input, node, back, cc, x, c);
    case Any => LeafReaches(input, node, back, cc, x, c);
    case Class(_) => LeafReaches(input, node, back, cc, x, c);
    case Empty => FromSelf(input, back, x, x, c);
    case LineStart(_) => FromSelf(input, back, x, x, c); FromFailure(input, back, x, c);
    case LineEnd(_) => FromSelf(input, back, x, x, c); FromFailure(input, back, x, c);
    case WordBoundary(_) => FromSelf(input, back, x, x, c); FromFailure(input, back, x, c);
  }

  lemma FromFailure(input: seq<nat>, back: bool, x: State, c: Cont)
    requires Accepts(input, back, x, c)
    ensures From(input, back, x, c, Failure)
  {
  }

  lemma CatReaches(input: seq<nat>, node: Node, first: Node, second: Node, back: bool, cc1: nat, cc2: nat, x: State, c: Cont)
    requires Accepts(input, back, x, c) && Good(input, x) && node.Cat? && (first == node.left || first == node.right) && (second == node.left || second == node.right)
    requires cc1 + Groups(first) <= |x.caps| && Parsed(first, |x.caps|) && cc2 + Groups(second) <= |x.caps| && Parsed(second, |x.caps|)
    ensures From(input, back, x, c, M(input, first, back, cc1, x, CatCont(input, second, back, cc2, x, c)))
    decreases node, 0, 0, 0
  {
    var d := CatCont(input, second, back, cc2, x, c);
    Reaches(input, first, back, cc1, x, d);
    if M(input, first, back, cc1, x, d) != Failure {
      var y :| Ahead(input, back, x, y) && Good(input, y) && M(input, first, back, cc1, x, d) == d(y);
      AcceptsAhead(input, back, x, y, c);
      Reaches(input, second, back, cc2, y, c);
      FromAhead(input, back, x, y, c, d(y));
    }
  }

  lemma GroupReaches(input: seq<nat>, a: Node, back: bool, cc: nat, x: State, c: Cont)
    requires Accepts(input, back, x, c) && Good(input, x) && cc + 1 + Groups(a) <= |x.caps| && Parsed(a, |x.caps|)
    ensures From(input, back, x, c, M(input, a, back, cc + 1, x, GroupCont(input, back, cc, x, c)))
    decreases a, 2, 0, 0
  {
    var d := GroupCont(input, back, cc, x, c);
    Reaches(input, a, back, cc + 1, x, d);
    if M(input, a, back, cc + 1, x, d) != Failure {
      var y :| Ahead(input, back, x, y) && Good(input, y) && M(input, a, back, cc + 1, x, d) == d(y);
      FromSelf(input, back, x, State(y.end, y.caps[cc := if back then Range(y.end, x.end) else Range(x.end, y.end)]), c);
    }
  }

  lemma LeafReaches(input: seq<nat>, node: Node, back: bool, cc: nat, x: State, c: Cont)
    requires Accepts(input, back, x, c) && Good(input, x) && IsSetNode(node) && cc + Groups(node) <= |x.caps| && Parsed(node, |x.caps|)
    ensures From(input, back, x, c, M(input, node, back, cc, x, c))
  {
    if Remaining(input, back, x) > 0 {
      FromSelf(input, back, x, State(if back then x.end - 1 else x.end + 1, x.caps), c);
    }
  }

  lemma BackRefReaches(input: seq<nat>, back: bool, n: nat, x: State, c: Cont)
    requires Accepts(input, back, x, c) && Good(input, x) && n < |x.caps|
    ensures From(input, back, x, c, MatchBackRef(input, back, n, x, c))
  {
    FromSelf(input, back, x, x, c);
    if x.caps[n].Range? {
      BackRefInRange(input, back, n, x, c);
      var len := x.caps[n].end - x.caps[n].start;
      var f := if back then x.end - len else x.end + len;
      if 0 <= f <= |input| { FromSelf(input, back, x, State(f, x.caps), c); }
    }
  }

  /** The test in a lookaround never fails: the state that was reached has all the captures. */
  lemma LookReaches(input: seq<nat>, behind: bool, a: Node, cc: nat, x: State)
    requires Good(input, x) && cc + Groups(a) <= |x.caps| && Parsed(a, |x.caps|)
    ensures var r := M(input, a, behind, cc, x, LookCont(input, behind, x));
            r != Failure ==> |r.state.caps| == |x.caps| && Good(input, State(x.end, r.state.caps))
    decreases a, 2, 0, 0
  {
    Reaches(input, a, behind, cc, x, LookCont(input, behind, x));
  }

  function Choice(min: nat, greedy: bool, z: Result, skipped: Result): Result {
    if min != 0 then z else if greedy then (if z != Failure then z else skipped) else if skipped != Failure then skipped else z
  }

  lemma RepeatIs(input: seq<nat>, atom: Node, back: bool, cc: nat, min: nat, max: Max, greedy: bool, x: State, c: Cont)
    requires Accepts(input, back, x, c) && cc + Groups(atom) <= |x.caps| && Parsed(atom, |x.caps|)
    ensures var xr := State(x.end, Reset(x.caps, cc, cc + Groups(atom)));
            && Accepts(input, back, xr, RepeatCont(input, atom, back, cc, min, max, greedy, x, c))
            && Repeat(input, atom, back, cc, min, max, greedy, x, c) ==
               if max == Fin(0) then c(x) else Choice(min, greedy, M(input, atom, back, cc, xr, RepeatCont(input, atom, back, cc, min, max, greedy, x, c)), c(x))
  {
    hide M, RepeatCont, Reset;
    AheadReset(input, back, x, State(x.end, Reset(x.caps, cc, cc + Groups(atom))), RepeatCont(input, atom, back, cc, min, max, greedy, x, c));
  }

  lemma {:induction false} RepeatReaches(input: seq<nat>, atom: Node, back: bool, cc: nat, min: nat, max: Max, greedy: bool, x: State, c: Cont)
    requires Accepts(input, back, x, c) && Good(input, x) && cc + Groups(atom) <= |x.caps| && Parsed(atom, |x.caps|)
    ensures From(input, back, x, c, Repeat(input, atom, back, cc, min, max, greedy, x, c))
    decreases atom, 2, min, 2 * Remaining(input, back, x) + 1
  {
    hide M, Repeat, RepeatCont, Reset, From, Good;
    RepeatIs(input, atom, back, cc, min, max, greedy, x, c);
    FromSelf(input, back, x, x, c);
    if max != Fin(0) {
      IterationReaches(input, atom, back, cc, min, max, greedy, x, c);
    }
  }

  lemma IterationReaches(input: seq<nat>, atom: Node, back: bool, cc: nat, min: nat, max: Max, greedy: bool, x: State, c: Cont)
    requires Accepts(input, back, x, c) && Good(input, x) && cc + Groups(atom) <= |x.caps| && Parsed(atom, |x.caps|)
    ensures var xr := State(x.end, Reset(x.caps, cc, cc + Groups(atom)));
            From(input, back, x, c, M(input, atom, back, cc, xr, RepeatCont(input, atom, back, cc, min, max, greedy, x, c)))
    decreases atom, 2, min, 2 * Remaining(input, back, x)
  {
    hide M, Repeat, Reset;
    var d := RepeatCont(input, atom, back, cc, min, max, greedy, x, c);
    var xr := State(x.end, Reset(x.caps, cc, cc + Groups(atom)));
    ResetGood(input, x, cc, cc + Groups(atom));
    AheadReset(input, back, x, xr, d);
    Reaches(input, atom, back, cc, xr, d);
    var z := M(input, atom, back, cc, xr, d);
    if z != Failure {
      var y :| Ahead(input, back, xr, y) && Good(input, y) && z == d(y);
      AcceptsAhead(input, back, x, y, c);
      if min != 0 || y.end != x.end {
        RepeatReaches(input, atom, back, cc, if min == 0 then 0 else min - 1, Decrement(max), greedy, y, c);
        FromAhead(input, back, x, y, c, z);
      }
    }
  }

  lemma AheadReset(input: seq<nat>, back: bool, x: State, xr: State, d: Cont)
    requires Accepts(input, back, x, d) && xr.end == x.end && |xr.caps| == |x.caps|
    ensures Accepts(input, back, xr, d)
  {
    forall y | Ahead(input, back, xr, y) ensures d.requires(y) { assert Ahead(input, back, x, y); }
  }

  // ----- no other states are ever passed on

  /** The continuations agree wherever captures are ranges of the input. */
  ghost predicate Agree(input: seq<nat>, back: bool, x: State, c: Cont, d: Cont) {
    Accepts(input, back, x, c) && Accepts(input, back, x, d) && forall y :: Ahead(input, back, x, y) && Good(input, y) ==> c(y) == d(y)
  }

  lemma AgreeAhead(input: seq<nat>, back: bool, x: State, y: State, c: Cont, d: Cont)
    requires Agree(input, back, x, c, d) && Ahead(input, back, x, y)
    ensures Agree(input, back, y, c, d)
  {
    AcceptsAhead(input, back, x, y, c);
    AcceptsAhead(input, back, x, y, d);
    forall z | Ahead(input, back, y, z) && Good(input, z) ensures c(z) == d(z) { assert Ahead(input, back, x, z); }
  }

  lemma AgreeAt(input: seq<nat>, back: bool, x: State, y: State, c: Cont, d: Cont)
    requires Agree(input, back, x, c, d) && Ahead(input, back, x, y) && Good(input, y)
    ensures c.requires(y) && d.requires(y) && c(y) == d(y)
  {
  }

  lemma AgreeAccepts(input: seq<nat>, back: bool, x: State, c: Cont, d: Cont)
    requires Agree(input, back, x, c, d)
    ensures Accepts(input, back, x, c) && Accepts(input, back, x, d)
  {
  }

  /** What a continuation does with other states makes no difference: started with captures that are ranges
      of the input, a matcher meets no others. So the tests that are there for totality decide nothing. */
  lemma {:induction false} OnlyGoodStates(input: seq<nat>, node: Node, back: bool, cc: nat, x: State, c: Cont, d: Cont)
    requires Agree(input, back, x, c, d) && Good(input, x) && cc + Groups(node) <= |x.caps| && Parsed(node, |x.caps|)
    ensures Accepts(input, back, x, c) && Accepts(input, back, x, d)
    ensures M(input, node, back, cc, x, c) == M(input, node, back, cc, x, d)
    decreases node, 1, 0, 0
  {
    AgreeAccepts(input, back, x, c, d);
    hide Agree, Good, Repeat, RepeatCont, Reset;
    match node
    case Cat(a, b) =>
      if back { CatGood(input, node, b, a, true, cc + Groups(a), cc, x, c, d); } else { CatGood(input, node, a, b, false, cc, cc + Groups(a), x, c, d); }
    case Alt(a, b) =>
      OnlyGoodStates(input, a, back, cc, x, c, d);
      OnlyGoodStates(input, b, back, cc + Groups(a), x, c, d);
    case Group(a) => GroupGood(input, a, back, cc, x, c, d);
    case Quant(a, min, max, greedy) => RepeatGood(input, a, back, cc, min, max, greedy, x, c, d);
    case Look(behind, neg, a) => LookGood(input, node, back, cc, x, c, d);
    case BackRef(n) => BackRefGood(input, back, n, x, c, d);
    case Char(_) => LeafGood(input, node, back, cc, x, c, d);
    case Dot => LeafGood(input, node, back, cc, x, c, d);
    case Any => LeafGood(input, node, back, cc, x, c, d);
    case Class(_) => LeafGood(input, node, back, cc, x, c, d);
    case Empty => AgreeAt(input, back, x, x, c, d);
    case LineStart(_) => AgreeAt(input, back, x, x, c, d);
    case LineEnd(_) => AgreeAt(input, back, x, x, c, d);
    case WordBoundary(_) => AgreeAt(input, back, x, x, c, d);
  }

  lemma LeafGood(input: seq<nat>, node: Node, back: bool, cc: nat, x: State, c: Cont, d: Cont)
    requires Agree(input, back, x, c, d) && Good(input, x) && IsSetNode(node) && cc + Groups(node) <= |x.caps| && Parsed(node, |x.caps|)
    ensures M(input, node, back, cc, x, c) == M(input, node, back, cc, x, d)
  {
    if Remaining(input, back, x) > 0 {
      AgreeAt(input, back, x, State(if back then x.end - 1 else x.end + 1, x.caps), c, d);
    }
  }

  lemma LookGood(input: seq<nat>, node: Node, back: bool, cc: nat, x: State, c: Cont, d: Cont)
    requires Agree(input, back, x, c, d) && Good(input, x) && node.Look? && cc + Groups(node) <= |x.caps| && Parsed(node, |x.caps|)
    ensures Accepts(input, back, x, c) && Accepts(input, back, x, d)
    ensures M(input, node, back, cc, x, c) == M(input, node, back, cc, x, d)
    decreases node, 0, 0, 0
  {
    AgreeAccepts(input, back, x, c, d);
    hide Agree, Good, LookCont;
    var Look(behind, neg, a) := node;
    LookReaches(input, behind, a, cc, x);
    AgreeAt(input, back, x, x, c, d);
    var r := M(input, a, behind, cc, x, LookCont(input, behind, x));
    if !neg && r != Failure { AgreeAt(input, back, x, State(x.end, r.state.caps), c, d); }
  }

  lemma BackRefGood(input: seq<nat>, back: bool, n: nat, x: State, c: Cont, d: Cont)
    requires Agree(input, back, x, c, d) && Good(input, x) && n < |x.caps|
    ensures MatchBackRef(input, back, n, x, c) == MatchBackRef(input, back, n, x, d)
  {
    AgreeAt(input, back, x, x, c, d);
    if x.caps[n].Range? {
      BackRefInRange(input, back, n, x, c);
      var len := x.caps[n].end - x.caps[n].start;
      var f := if back then x.end - len else x.end + len;
      if 0 <= f <= |input| { AgreeAt(input, back, x, State(f, x.caps), c, d); }
    }
  }

  lemma CatGood(input: seq<nat>, node: Node, first: Node, second: Node, back: bool, cc1: nat, cc2: nat, x: State, c: Cont, d: Cont)
    requires Agree(input, back, x, c, d) && Good(input, x) && node.Cat? && (first == node.left || first == node.right) && (second == node.left || second == node.right)
    requires cc1 + Groups(first) <= |x.caps| && Parsed(first, |x.caps|) && cc2 + Groups(second) <= |x.caps| && Parsed(second, |x.caps|)
    ensures M(input, first, back, cc1, x, CatCont(input, second, back, cc2, x, c)) == M(input, first, back, cc1, x, CatCont(input, second, back, cc2, x, d))
    decreases node, 0, 0, 0
  {
    var c1, d1 := CatCont(input, second, back, cc2, x, c), CatCont(input, second, back, cc2, x, d);
    forall y | Ahead(input, back, x, y) && Good(input, y) ensures c1(y) == d1(y) {
      AgreeAhead(input, back, x, y, c, d);
      OnlyGoodStates(input, second, back, cc2, y, c, d);
    }
    OnlyGoodStates(input, first, back, cc1, x, c1, d1);
  }

  lemma GroupGood(input: seq<nat>, a: Node, back: bool, cc: nat, x: State, c: Cont, d: Cont)
    requires Agree(input, back, x, c, d) && Good(input, x) && cc + 1 + Groups(a) <= |x.caps| && Parsed(a, |x.caps|)
    ensures M(input, a, back, cc + 1, x, GroupCont(input, back, cc, x, c)) == M(input, a, back, cc + 1, x, GroupCont(input, back, cc, x, d))
    decreases a, 2, 0, 0
  {
    var c1, d1 := GroupCont(input, back, cc, x, c), GroupCont(input, back, cc, x, d);
    forall y | Ahead(input, back, x, y) && Good(input, y) ensures c1(y) == d1(y) {
      AgreeAt(input, back, x, State(y.end, y.caps[cc := if back then Range(y.end, x.end) else Range(x.end, y.end)]), c, d);
    }
    OnlyGoodStates(input, a, back, cc + 1, x, c1, d1);
  }

  lemma {:induction false} RepeatGood(input: seq<nat>, atom: Node, back: bool, cc: nat, min: nat, max: Max, greedy: bool, x: State, c: Cont, d: Cont)
    requires Agree(input, back, x, c, d) && Good(input, x) && cc + Groups(atom) <= |x.caps| && Parsed(atom, |x.caps|)
    ensures Repeat(input, atom, back, cc, min, max, greedy, x, c) == Repeat(input, atom, back, cc, min, max, greedy, x, d)
    decreases atom, 2, min, 2 * Remaining(input, back, x) + 1
  {
    AgreeAccepts(input, back, x, c, d);
    hide M, Repeat, RepeatCont, Reset, Agree, Good;
    RepeatIs(input, atom, back, cc, min, max, greedy, x, c);
    RepeatIs(input, atom, back, cc, min, max, greedy, x, d);
    AgreeAt(input, back, x, x, c, d);
    if max != Fin(0) {
      IterationGood(input, atom, back, cc, min, max, greedy, x, c, d);
    }
  }

  lemma IterationGood(input: seq<nat>, atom: Node, back: bool, cc: nat, min: nat, max: Max, greedy: bool, x: State, c: Cont, d: Cont)
    requires Agree(input, back, x, c, d) && Good(input, x) && cc + Groups(atom) <= |x.caps| && Parsed(atom, |x.caps|)
    ensures var xr := State(x.end, Reset(x.caps, cc, cc + Groups(atom)));
            M(input, atom, back, cc, xr, RepeatCont(input, atom, back, cc, min, max, greedy, x, c))
            == M(input, atom, back, cc, xr, RepeatCont(input, atom, back, cc, min, max, greedy, x, d))
    decreases atom, 2, min, 2 * Remaining(input, back, x)
  {
    hide M, Repeat, Reset;
    var c1, d1 := RepeatCont(input, atom, back, cc, min, max, greedy, x, c), RepeatCont(input, atom, back, cc, min, max, greedy, x, d);
    var xr := State(x.end, Reset(x.caps, cc, cc + Groups(atom)));
    ResetGood(input, x, cc, cc + Groups(atom));
    AheadReset(input, back, x, xr, c1);
    AheadReset(input, back, x, xr, d1);
    forall y | Ahead(input, back, xr, y) && Good(input, y) ensures c1(y) == d1(y) {
      AgreeAhead(input, back, x, y, c, d);
      if min != 0 || y.end != x.end {
        RepeatGood(input, atom, back, cc, if min == 0 then 0 else min - 1, Decrement(max), greedy, y, c, d);
      }
    }
    OnlyGoodStates(input, atom, back, cc, xr, c1, d1);
  }
}
