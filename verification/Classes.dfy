/** A range opcode accepts exactly the code points of the CharRange it was emitted for. */
module Classes {
  import opened Words
  import opened Bytecode
  import opened Syntax
  import opened Codegen
  import opened Machine

  /** The bounds are inclusive, in increasing order, and the pairs are disjoint. */
  ghost predicate Ordered(vs: seq<int>) {
    && |vs| >= 2 && |vs| % 2 == 0
    && (forall i, j :: 0 <= i < j < |vs| ==> vs[i] <= vs[j])
    && (forall i, j :: 0 <= i < j < |vs| && i % 2 == 1 ==> vs[i] < vs[j])
  }

  ghost predicate Hit(vs: seq<int>, c: int, i: int)
    requires |vs| % 2 == 0
  {
    0 <= i < |vs| / 2 && vs[2 * i] <= c <= vs[2 * i + 1]
  }

  lemma HitPair(vs: seq<int>, c: int, i: int, m: int)
    requires Ordered(vs) && Hit(vs, c, i) && 0 <= m < |vs| / 2
    ensures c < vs[2 * m] ==> i < m
    ensures c > vs[2 * m + 1] ==> m < i
  {
    assert m < i ==> vs[2 * m + 1] < vs[2 * i];
    assert i < m ==> vs[2 * i + 1] < vs[2 * m];
  }

  lemma {:induction false} BisectFinds(vs: seq<int>, c: nat, lo: nat, hi: nat)
    requires Ordered(vs) && |vs| % 2 == 0 && hi < |vs| / 2 && vs[0] <= c
    requires forall i :: Hit(vs, c, i) ==> lo <= i <= hi
    ensures Bisect(vs, c, lo, hi) <==> exists i :: Hit(vs, c, i)
    decreases hi + 1 - lo
  {
    hide Ordered;
    if lo <= hi {
      var mid := (lo + hi) / 2;
      if c < vs[2 * mid] {
        assert mid > 0;
        forall i | Hit(vs, c, i) ensures i < mid {
          HitPair(vs, c, i, mid);
        }
        BisectFinds(vs, c, lo, mid - 1);
      } else if c > vs[2 * mid + 1] {
        forall i | Hit(vs, c, i) ensures mid < i {
          HitPair(vs, c, i, mid);
        }
        BisectFinds(vs, c, mid + 1, hi);
      } else {
        assert Hit(vs, c, mid);
      }
    }
  }

  /** The whole test, outer bounds included, finds the pair that holds the character if there is one. */
  lemma RangeFinds(vs: seq<int>, c: nat)
    requires Ordered(vs)
    ensures InRange32(vs, c) <==> exists i :: Hit(vs, c, i)
  {
    forall i | Hit(vs, c, i) ensures vs[0] <= c <= vs[|vs| - 1] && 0 <= i <= |vs| / 2 - 1 {
      assert vs[0] <= vs[2 * i] && vs[2 * i + 1] <= vs[|vs| - 1];
    }
    if vs[0] <= c {
      BisectFinds(vs, c, 0, |vs| / 2 - 1);
    }
  }

  predicate Within(points: seq<nat>, c: nat, i: int)
    requires |points| % 2 == 0
  {
    0 <= i < |points| / 2 && points[2 * i] <= c < points[2 * i + 1]
  }

  lemma InClassWithin(points: seq<nat>, c: nat)
    requires |points| % 2 == 0
    ensures InClass(points, c) <==> exists i :: Within(points, c, i)
  {
    if InClass(points, c) {
      var i :| 0 <= i < |points| / 2 && points[2 * i] <= c < points[2 * i + 1];
      assert Within(points, c, i);
    }
  }

  lemma LongOrdered(points: seq<nat>)
    requires Canonical(points) && points != []
    ensures Ordered(LongBounds(points)) && Fits(OpRange32(LongBounds(points)))
  {
    var vs := LongBounds(points);
    forall i | 0 <= i < |vs| ensures vs[i] == points[i] as int - i % 2 && 0 <= vs[i] < 0x1_0000_0000 {
      if i % 2 == 1 { assert points[i - 1] < points[i]; }
    }
    forall i, j | 0 <= i < j < |vs| ensures vs[i] <= vs[j] && (i % 2 == 1 ==> vs[i] < vs[j]) {
      assert points[i] < points[j];
    }
  }

  lemma LongMatches(points: seq<nat>, c: nat)
    requires Canonical(points) && points != []
    ensures Fits(OpRange32(LongBounds(points)))
    ensures InRange32(LongBounds(points), c) <==> InClass(points, c)
  {
    hide Bisect, Ordered, Fits;
    var vs := LongBounds(points);
    LongOrdered(points);
    hide Canonical;
    RangeFinds(vs, c);
    InClassWithin(points, c);
    forall i ensures Hit(vs, c, i) <==> Within(points, c, i) {
      if 0 <= i < |points| / 2 {
        assert vs[2 * i] == points[2 * i] && vs[2 * i + 1] == points[2 * i + 1] - 1;
      }
    }
  }

  /** The condition under which the short form is chosen. */
  predicate UsesShort(points: seq<nat>)
    requires |points| % 2 == 0 && points != []
  {
    (if Last(points) == UINT32_MAX then points[|points| - 2] else Last(points)) <= 0xffff
  }

  lemma ShortOrdered(points: seq<nat>)
    requires Canonical(points) && points != [] && UsesShort(points)
    ensures Ordered(ShortBounds(points)) && Fits(OpRange16(ShortBounds(points)))
    ensures forall i :: 0 <= i < |points| - 1 ==> ShortBounds(points)[i] == points[i] as int - i % 2 && points[i] <= 0xffff
    ensures ShortBounds(points)[0] <= ShortBounds(points)[|points| - 1]
    ensures var v := ShortBounds(points)[|points| - 1]; v == if Last(points) == UINT32_MAX then 0xffff else Last(points) - 1
  {
    var vs := ShortBounds(points);
    var n := |points|;
    assert points[n - 2] <= 0xffff;
    forall i | 0 <= i < n - 1 ensures vs[i] == points[i] as int - i % 2 && points[i] <= 0xffff && 0 <= vs[i] {
      assert points[i] <= points[n - 2];
      if i % 2 == 1 { assert points[i - 1] < points[i]; }
    }
    assert vs[n - 1] == Short(points[n - 1], true) && points[n - 2] < points[n - 1];
    forall i, j | 0 <= i < j < n ensures vs[i] <= vs[j] && (i % 2 == 1 ==> vs[i] < vs[j]) {
      assert points[i] < points[j];
    }
  }

  lemma ShortHits(points: seq<nat>, c: nat, i: int)
    requires Canonical(points) && points != [] && c < UINT32_MAX && UsesShort(points)
    requires Last(points) != UINT32_MAX || c < 0xffff || i != |points| / 2 - 1
    ensures Hit(ShortBounds(points), c, i) <==> Within(points, c, i)
  {
    var vs := ShortBounds(points);
    ShortOrdered(points);
    hide Canonical, Ordered, UsesShort, ShortBounds, Fits;
    if 0 <= i < |points| / 2 {
      assert vs[2 * i] == points[2 * i];
      if i < |points| / 2 - 1 {
        assert vs[2 * i + 1] == points[2 * i + 1] - 1;
      }
    }
  }

  lemma ShortMatches(points: seq<nat>, c: nat)
    requires Canonical(points) && points != [] && c < UINT32_MAX && UsesShort(points)
    ensures Fits(OpRange16(ShortBounds(points)))
    ensures InRange16(ShortBounds(points), c) <==> InClass(points, c)
  {
    var vs := ShortBounds(points);
    var k := |points| / 2 - 1;
    ShortOrdered(points);
    InClassWithin(points, c);
    RangeFinds(vs, c);
    forall i | Last(points) != UINT32_MAX || c < 0xffff || i != k ensures Hit(vs, c, i) <==> Within(points, c, i) {
      ShortHits(points, c, i);
    }
    assert Last(points) == UINT32_MAX && c >= 0xffff ==> Within(points, c, k);
    hide Bisect, Fits, Ordered, Canonical, InClass, ShortBounds, Hit, Within;
  }

  predicate OpAccepts(i: Instr, c: nat)
    requires IsCharOp(i) && Fits(i)
  {
    match i
    case OpChar16(d) => c == d
    case OpChar32(d) => c == d
    case OpDot => !LineTerminator(c)
    case OpAny => true
    case OpRange16(vs) => InRange16(vs, c)
    case OpRange32(vs) => InRange32(vs, c)
  }

  /** re_emit_range, against membership in the set it is given; all three forms, the empty one included. */
  lemma EmitRangeMatches(points: seq<nat>, c: nat)
    requires Canonical(points) && c < UINT32_MAX
    ensures IsCharOp(EmitRange(points)) && Fits(EmitRange(points))
    ensures OpAccepts(EmitRange(points), c) <==> InClass(points, c)
  {
    if points != [] {
      if UsesShort(points) {
        ShortMatches(points, c);
      } else {
        LongMatches(points, c);
      }
    }
  }
}
