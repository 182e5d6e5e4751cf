/** Sets of code points as sorted lists of the points where membership changes. */
module CharRanges {
  import opened Words
  import opened Syntax

  // ----- membership by parity

  /** The number of points that are at most `c`. */
  function Below(points: seq<nat>, c: nat): (n: nat)
    ensures n <= |points|
  {
    if points == [] then 0 else Below(points[..|points| - 1], c) + if points[|points| - 1] <= c then 1 else 0
  }

  predicate Odd(points: seq<nat>, c: nat) {
    Below(points, c) % 2 == 1
  }

  lemma BelowAppend(s: seq<nat>, v: nat, c: nat)
    ensures Below(s + [v], c) == Below(s, c) + if v <= c then 1 else 0
  {
    assert (s + [v])[..|s|] == s;
  }

  lemma {:induction false} BelowConcat(s: seq<nat>, t: seq<nat>, c: nat)
    ensures Below(s + t, c) == Below(s, c) + Below(t, c)
    decreases |t|
  {
    if t == [] {
      assert s + t == s;
    } else {
      var n := |t| - 1;
      assert s + t == (s + t[..n]) + [t[n]] && t == t[..n] + [t[n]];
      BelowConcat(s, t[..n], c);
      BelowAppend(s + t[..n], t[n], c);
    }
  }

  lemma {:induction false} BelowAll(s: seq<nat>, c: nat)
    requires forall k :: 0 <= k < |s| ==> s[k] <= c
    ensures Below(s, c) == |s|
  {
    if s != [] { BelowAll(s[..|s| - 1], c); }
  }

  lemma {:induction false} BelowNone(s: seq<nat>, c: nat)
    requires forall k :: 0 <= k < |s| ==> s[k] > c
    ensures Below(s, c) == 0
  {
    if s != [] { BelowNone(s[..|s| - 1], c); }
  }

  /** Points in order, possibly with empty or adjacent intervals. */
  predicate Weak(points: seq<nat>) {
    && |points| % 2 == 0
    && (forall i :: 0 <= i < |points| ==> points[i] <= UINT32_MAX)
    && (forall i, j :: 0 <= i < j < |points| ==> points[i] <= points[j])
  }

  /** The parity of the points below is membership in one of the intervals. */
  lemma {:induction false} OddIsMember(points: seq<nat>, c: nat)
    requires Weak(points)
    ensures Odd(points, c) <==> InClass(points, c)
    decreases |points|
  {
    if points != [] {
      var n := |points| - 2;
      var front := points[..n];
      assert points == front + points[n..];
      BelowConcat(front, points[n..], c);
      OddIsMember(front, c);
      PairBelow(points[n..], c);
      MemberLast(points, c);
      if points[n] <= c { BelowAll(front, c); }
    }
  }

  lemma PairBelow(s: seq<nat>, c: nat)
    requires |s| == 2
    ensures Below(s, c) == (if s[0] <= c then 1 else 0) + if s[1] <= c then 1 else 0
  {
    assert s == ([] + [s[0]]) + [s[1]];
    BelowAppend([], s[0], c);
    BelowAppend([s[0]], s[1], c);
  }

  lemma MemberLast(points: seq<nat>, c: nat)
    requires |points| % 2 == 0 && |points| >= 2
    ensures var n := |points| - 2; InClass(points, c) <==> InClass(points[..n], c) || points[n] <= c < points[n + 1]
  {
    var n := |points| - 2;
    if InClass(points, c) {
      var i :| 0 <= i < |points| / 2 && points[2 * i] <= c < points[2 * i + 1];
      if 2 * i < n { assert points[..n][2 * i] <= c < points[..n][2 * i + 1]; }
    }
    if InClass(points[..n], c) {
      var i :| 0 <= i < |points[..n]| / 2 && points[..n][2 * i] <= c < points[..n][2 * i + 1];
      assert points[2 * i] <= c < points[2 * i + 1];
    }
    if points[n] <= c < points[n + 1] { assert n == 2 * (n / 2); }
  }

  // ----- canonical lists

  predicate Strict(points: seq<nat>) {
    forall i, j :: 0 <= i < j < |points| ==> points[i] < points[j]
  }

  lemma FirstBelow(s: seq<nat>, c: nat)
    requires s != []
    ensures Below(s, c) == (if s[0] <= c then 1 else 0) + Below(s[1..], c)
  {
    assert s == [s[0]] + s[1..];
    BelowConcat([s[0]], s[1..], c);
    assert [s[0]] == [] + [s[0]];
    BelowAppend([], s[0], c);
  }

  /** Up to its first point a list is even, at the first point it is odd. */
  lemma FirstOdd(s: seq<nat>, c: nat)
    requires Strict(s) && s != []
    ensures c < s[0] ==> !Odd(s, c)
    ensures Odd(s, s[0])
  {
    FirstBelow(s, s[0]);
    BelowNone(s[1..], s[0]);
    if c < s[0] { BelowNone(s, c); }
  }

  lemma AtFirst(s: seq<nat>, t: seq<nat>)
    requires Strict(s) && forall c: nat :: Odd(s, c) == Odd(t, c)
    ensures s != [] ==> Odd(t, s[0]) && t != []
  {
    if s != [] {
      FirstOdd(s, s[0]);
      assert Odd(s, s[0]) == Odd(t, s[0]);
    }
  }

  /** A strictly increasing list is determined by its members. */
  lemma {:induction false} CanonicalUnique(s: seq<nat>, t: seq<nat>)
    requires Strict(s) && Strict(t) && forall c: nat :: Odd(s, c) == Odd(t, c)
    ensures s == t
    decreases |s|
  {
    AtFirst(s, t);
    AtFirst(t, s);
    if s != [] && t != [] {
      FirstOdd(s, t[0]);
      FirstOdd(t, s[0]);
      forall c: nat ensures Odd(s[1..], c) == Odd(t[1..], c) {
        FirstBelow(s, c);
        FirstBelow(t, c);
        assert Odd(s, c) == Odd(t, c);
      }
      CanonicalUnique(s[1..], t[1..]);
      assert s == [s[0]] + s[1..] && t == [t[0]] + t[1..];
    }
  }

  // ----- the operations

  datatype Op = Union | Inter | Xor | Sub

  predicate Combine(op: Op, a: bool, b: bool) {
    match op
    case Union => a || b
    case Inter => a && b
    case Xor => a != b
    case Sub => a && !b
  }

  /** The two lists have the same members. */
  ghost predicate Same(s: seq<nat>, t: seq<nat>) {
    forall c: nat :: Odd(s, c) == Odd(t, c)
  }

  /** A point twice changes nothing. */
  lemma DropTwice(a: seq<nat>, x: nat, b: seq<nat>)
    ensures Same(a + [x] + [x] + b, a + b)
  {
    forall c: nat ensures Odd(a + [x] + [x] + b, c) == Odd(a + b, c) {
      BelowConcat(a + [x] + [x], b, c);
      BelowAppend(a + [x], x, c);
      BelowAppend(a, x, c);
      BelowConcat(a, b, c);
    }
  }

  class CharRange {
    var points: seq<nat>

    constructor ()
      ensures points == []
    {
      points := [];
    }

    method AddPoint(v: nat)
      modifies this
      ensures points == old(points) + [v]
    {
      points := points + [v];
    }

    method AddInterval(c1: nat, c2: nat)
      modifies this
      ensures points == old(points) + [c1, c2]
    {
      points := points + [c1] + [c2];
    }

    /** cr_compress: merges adjacent intervals and removes empty ones, in place. */
    method Compress()
      requires Weak(points)
      modifies this
      ensures Increasing(points) && Same(points, old(points))
    {
      hide Same, Done, Weak;
      ghost var was := points;
      var len := |points|;
      var i, k := 0, 0;
      CompressStart(was);
      while i + 1 < len
        invariant 0 <= k <= i <= len == |points| == |was| && i % 2 == 0 && k % 2 == 0
        invariant points[i..] == was[i..] && Same(points[..k] + was[i..], was) && Done(points[..k], was, i)
      {
        SameTail(points, was, i);
        ghost var r := points[..k];
        if points[i] == points[i + 1] {
          DropEmpty(r, was, i);
          i := i + 2;
        } else {
          var j := i;
          SplitTwo(r, was, i);
          ghost var before := points;
          while j + 3 < len && points[j + 1] == points[j + 2]
            invariant points == before && i <= j && j + 1 < len && j % 2 == 0 && Same(r + [was[i]] + [was[j + 1]] + was[j + 2..], was)
            decreases len - j
          {
            MergeNext(r + [was[i]], was, j);
            j := j + 2;
          }
          DoneNext(r, was, i, j);
          points := points[k := points[i]];
          points := points[k + 1 := points[j + 1]];
          TwoWritten(before, points, was, k, was[i], was[j + 1], j + 2);
          k := k + 2;
          i := j + 2;
        }
      }
      CompressEnd(points[..k], was, i);
      points := points[..k];
    }

    /** cr_op: the points of both lists in order; one is kept where membership changes. */
    method CrOp(a: seq<nat>, b: seq<nat>, op: Op)
      requires points == [] && Weak(a) && Weak(b)
      modifies this
      ensures Increasing(points) && Combined(points, op, a, b)
    {
      hide Combined, Weak, Merging, Same;
      var ai, bi := 0, 0;
      MergeStart(op, a, b);
      while ai < |a| || bi < |b|
        invariant 0 <= ai <= |a| && 0 <= bi <= |b| && Merging(points, op, a, ai, b, bi)
        decreases |a| - ai + |b| - bi
      {
        var v;
        ghost var ai0, bi0 := ai, bi;
        if ai < |a| && (bi >= |b| || a[ai] < b[bi]) {
          v, ai := a[ai], ai + 1;
        } else if ai < |a| && a[ai] == b[bi] {
          v, ai, bi := a[ai], ai + 1, bi + 1;
        } else {
          v, bi := b[bi], bi + 1;
        }
        MergeStep(points, op, a, ai0, ai, b, bi0, bi, v);
        if Combine(op, ai % 2 == 1, bi % 2 == 1) != (|points| % 2 == 1) {
          AddPoint(v);
        }
      }
      MergeEnd(points, op, a, ai, b, bi);
      ghost var merged := points;
      Compress();
      CombinedSame(points, merged, op, a, b);
    }

    /** cr_invert: a point at each end, and the empty intervals go. */
    method Invert()
      requires Weak(points)
      modifies this
      ensures Increasing(points) && Complement(points, old(points))
    {
      hide Same, Complement;
      ghost var was := points;
      points := [0] + points + [UINT32_MAX];
      EndsAdded(was);
      ghost var ends := points;
      Compress();
      ComplementSame(points, ends, was);
    }
  }

  /** Membership in `r` is the combination of the memberships in both lists. */
  ghost predicate Combined(r: seq<nat>, op: Op, a: seq<nat>, b: seq<nat>) {
    forall c: nat :: Odd(r, c) == Combine(op, Odd(a, c), Odd(b, c))
  }

  /** `r` is the combination of what has been read, and nothing that follows is before its points. */
  ghost predicate Merging(r: seq<nat>, op: Op, a: seq<nat>, ai: nat, b: seq<nat>, bi: nat) {
    && ai <= |a| && bi <= |b| && Weak(a) && Weak(b)
    && Combined(r, op, a[..ai], b[..bi]) && ((|r| % 2 == 1) == Combine(op, ai % 2 == 1, bi % 2 == 1))
    && Sorted(r) && (forall k :: 0 <= k < |r| ==> r[k] <= UINT32_MAX)
    && Before(r, a, ai) && Before(r, b, bi) && Before(a[..ai], b, bi) && Before(b[..bi], a, ai)
  }

  predicate Sorted(r: seq<nat>) {
    forall i, j :: 0 <= i < j < |r| ==> r[i] <= r[j]
  }

  predicate Before(r: seq<nat>, a: seq<nat>, ai: nat) {
    forall k, l :: 0 <= k < |r| && ai <= l < |a| ==> r[k] <= a[l]
  }

  lemma MergeStart(op: Op, a: seq<nat>, b: seq<nat>)
    requires Weak(a) && Weak(b)
    ensures Merging([], op, a, 0, b, 0)
  {
  }

  /** One point, or the same one of both lists, has been read. */
  predicate Next(a: seq<nat>, ai0: nat, ai: nat, b: seq<nat>, bi0: nat, bi: nat, v: nat) {
    && ai0 <= ai <= |a| && bi0 <= bi <= |b| && ai <= ai0 + 1 && bi <= bi0 + 1 && (ai > ai0 || bi > bi0)
    && (ai > ai0 ==> a[ai0] == v) && (bi > bi0 ==> b[bi0] == v)
    && (ai0 < |a| ==> v <= a[ai0]) && (bi0 < |b| ==> v <= b[bi0])
  }

  lemma MergeStep(r: seq<nat>, op: Op, a: seq<nat>, ai0: nat, ai: nat, b: seq<nat>, bi0: nat, bi: nat, v: nat)
    requires Merging(r, op, a, ai0, b, bi0) && Next(a, ai0, ai, b, bi0, bi, v)
    ensures Combine(op, ai % 2 == 1, bi % 2 == 1) == (|r| % 2 == 1) ==> Merging(r, op, a, ai, b, bi)
    ensures Combine(op, ai % 2 == 1, bi % 2 == 1) != (|r| % 2 == 1) ==> Merging(r + [v], op, a, ai, b, bi)
  {
    var r' := if Combine(op, ai % 2 == 1, bi % 2 == 1) == (|r| % 2 == 1) then r else r + [v];
    forall c: nat ensures Odd(r', c) == Combine(op, Odd(a[..ai], c), Odd(b[..bi], c)) {
      StepMember(r, r', op, a, ai0, ai, b, bi0, bi, v, c);
    }
    StepBefore(r, r', op, a, ai0, ai, b, bi0, bi, v);
  }


  lemma Prefixes(a: seq<nat>, ai0: nat, ai: nat, v: nat, c: nat)
    requires ai0 <= ai <= |a| && ai <= ai0 + 1 && (ai > ai0 ==> a[ai0] == v)
    ensures c < v ==> Odd(a[..ai], c) == Odd(a[..ai0], c)
    ensures c >= v && (forall k :: 0 <= k < ai0 ==> a[k] <= v) ==> Odd(a[..ai], c) == (ai % 2 == 1)
  {
    if ai > ai0 {
      assert a[..ai] == a[..ai0] + [v];
      BelowAppend(a[..ai0], v, c);
    }
    if c >= v && (forall k :: 0 <= k < ai0 ==> a[k] <= v) { BelowAll(a[..ai], c); }
  }

  lemma StepMember(r: seq<nat>, r': seq<nat>, op: Op, a: seq<nat>, ai0: nat, ai: nat, b: seq<nat>, bi0: nat, bi: nat, v: nat, c: nat)
    requires Merging(r, op, a, ai0, b, bi0) && Next(a, ai0, ai, b, bi0, bi, v)
    requires r' == if Combine(op, ai % 2 == 1, bi % 2 == 1) == (|r| % 2 == 1) then r else r + [v]
    ensures Odd(r', c) == Combine(op, Odd(a[..ai], c), Odd(b[..bi], c))
  {
    hide Below, Before;
    Prefixes(a, ai0, ai, v, c);
    Prefixes(b, bi0, bi, v, c);
    BelowAppend(r, v, c);
    AllBefore(r, a, ai0, ai, b, bi0, bi, v);
    AllBefore(a[..ai0], a, ai0, ai, b, bi0, bi, v);
    AllBefore(b[..bi0], a, ai0, ai, b, bi0, bi, v);
    if c >= v {
      BelowAll(r, c);
    } else {
      assert Odd(r, c) == Combine(op, Odd(a[..ai0], c), Odd(b[..bi0], c));
    }
  }

  lemma AllBefore(r: seq<nat>, a: seq<nat>, ai0: nat, ai: nat, b: seq<nat>, bi0: nat, bi: nat, v: nat)
    requires Next(a, ai0, ai, b, bi0, bi, v) && Before(r, a, ai0) && Before(r, b, bi0)
    ensures forall k :: 0 <= k < |r| ==> r[k] <= v
  {
  }

  lemma StepBefore(r: seq<nat>, r': seq<nat>, op: Op, a: seq<nat>, ai0: nat, ai: nat, b: seq<nat>, bi0: nat, bi: nat, v: nat)
    requires Merging(r, op, a, ai0, b, bi0) && Next(a, ai0, ai, b, bi0, bi, v) && (r' == r || r' == r + [v])
    ensures Sorted(r') && (forall k :: 0 <= k < |r'| ==> r'[k] <= UINT32_MAX)
    ensures Before(r', a, ai) && Before(r', b, bi) && Before(a[..ai], b, bi) && Before(b[..bi], a, ai)
  {
    hide Combined;
    AllBefore(r, a, ai0, ai, b, bi0, bi, v);
    BeforeStep(a[..ai0], a[..ai], v, b, bi0, bi);
    BeforeStep(b[..bi0], b[..bi], v, a, ai0, ai);
    BeforeStep(r, r', v, a, ai0, ai);
    BeforeStep(r, r', v, b, bi0, bi);
  }

  lemma BeforeStep(r: seq<nat>, r': seq<nat>, v: nat, a: seq<nat>, ai0: nat, ai: nat)
    requires Before(r, a, ai0) && ai0 <= ai && (r' == r || r' == r + [v]) && (ai0 < |a| ==> v <= a[ai0]) && Sorted(a)
    ensures Before(r', a, ai)
  {
  }

  lemma MergeEnd(r: seq<nat>, op: Op, a: seq<nat>, ai: nat, b: seq<nat>, bi: nat)
    requires Merging(r, op, a, ai, b, bi) && ai == |a| && bi == |b|
    ensures Weak(r) && Combined(r, op, a, b)
  {
    assert a[..ai] == a && b[..bi] == b;
  }

  lemma CombinedSame(r: seq<nat>, t: seq<nat>, op: Op, a: seq<nat>, b: seq<nat>)
    requires Same(r, t) && Combined(t, op, a, b)
    ensures Combined(r, op, a, b)
  {
    hide Odd;
    forall c: nat ensures Odd(r, c) == Combine(op, Odd(a, c), Odd(b, c)) {
      assert Odd(r, c) == Odd(t, c);
    }
  }

  /** The complement among the code points below UINT32_MAX. */
  ghost predicate Complement(r: seq<nat>, s: seq<nat>) {
    && (forall c: nat :: c < UINT32_MAX ==> Odd(r, c) == !Odd(s, c))
    && (forall c: nat :: c >= UINT32_MAX ==> !Odd(r, c))
  }

  lemma EndsAdded(s: seq<nat>)
    requires Weak(s)
    ensures Weak([0] + s + [UINT32_MAX]) && Complement([0] + s + [UINT32_MAX], s)
  {
    var t := [0] + s + [UINT32_MAX];
    forall c: nat ensures Below(t, c) == 1 + Below(s, c) + if c >= UINT32_MAX then 1 else 0 {
      BelowAppend([0] + s, UINT32_MAX, c);
      BelowConcat([0], s, c);
      assert [0] == [] + [0];
      BelowAppend([], 0, c);
    }
    forall c: nat | c >= UINT32_MAX ensures Below(s, c) == |s| { BelowAll(s, c); }
  }

  lemma ComplementSame(r: seq<nat>, t: seq<nat>, s: seq<nat>)
    requires Same(r, t) && Complement(t, s)
    ensures Complement(r, s)
  {
    hide Odd;
    forall c: nat ensures Odd(r, c) == Odd(t, c) { }
  }

  /** Two complements give the list back. */
  lemma InvertTwice(s: seq<nat>, r: seq<nat>, t: seq<nat>)
    requires Increasing(s) && Increasing(r) && Increasing(t) && Complement(r, s) && Complement(t, r)
    ensures t == s
  {
    forall c: nat ensures Odd(t, c) == Odd(s, c) {
      if c >= UINT32_MAX { BelowAll(s, c); }
    }
    CanonicalUnique(t, s);
  }

  /** What the results mean for the intervals. */
  lemma CombinedMembers(r: seq<nat>, op: Op, a: seq<nat>, b: seq<nat>, c: nat)
    requires Increasing(r) && Weak(a) && Weak(b) && Combined(r, op, a, b)
    ensures op == Union ==> (InClass(r, c) <==> InClass(a, c) || InClass(b, c))
    ensures op == Inter ==> (InClass(r, c) <==> InClass(a, c) && InClass(b, c))
    ensures op == Xor ==> (InClass(r, c) <==> (InClass(a, c) && !InClass(b, c)) || (InClass(b, c) && !InClass(a, c)))
    ensures op == Sub ==> (InClass(r, c) <==> InClass(a, c) && !InClass(b, c))
  {
    hide InClass, Odd;
    IncreasingWeak(r);
    OddIsMember(r, c);
    OddIsMember(a, c);
    OddIsMember(b, c);
  }

  lemma IncreasingWeak(r: seq<nat>)
    requires Increasing(r)
    ensures Weak(r)
  {
  }

  lemma ComplementMembers(r: seq<nat>, s: seq<nat>, c: nat)
    requires Increasing(r) && Weak(s) && Complement(r, s)
    ensures InClass(r, c) <==> c < UINT32_MAX && !InClass(s, c)
  {
    hide InClass, Odd;
    IncreasingWeak(r);
    OddIsMember(r, c);
    OddIsMember(s, c);
  }

  lemma CompressStart(was: seq<nat>)
    requires Weak(was)
    ensures was[0..] == was && Same(was[..0] + was[0..], was) && Done(was[..0], was, 0)
  {
    assert was[..0] + was[0..] == was;
  }

  lemma SameTail(s: seq<nat>, was: seq<nat>, i: nat)
    requires i <= |s| == |was| && s[i..] == was[i..]
    ensures forall x :: i <= x < |s| ==> s[x] == was[x]
  {
    forall x | i <= x < |s| ensures s[x] == was[x] {
      assert s[i..][x - i] == was[i..][x - i];
    }
  }

  /** What has been written is strictly increasing, and below all that is still to come. */
  ghost predicate Done(r: seq<nat>, was: seq<nat>, i: nat) {
    && i <= |was| && |r| % 2 == 0 && Strict(r) && Weak(was)
    && (forall k :: 0 <= k < |r| ==> r[k] <= UINT32_MAX)
    && (forall k, l :: 0 <= k < |r| && i <= l < |was| ==> r[k] < was[l])
  }

  lemma SameVia(s: seq<nat>, t: seq<nat>, u: seq<nat>)
    requires Same(s, t) && Same(t, u)
    ensures Same(s, u)
  {
  }

  lemma SameBack(s: seq<nat>, t: seq<nat>)
    requires Same(s, t)
    ensures Same(t, s)
  {
  }

  lemma DropEmpty(r: seq<nat>, was: seq<nat>, i: nat)
    requires i + 1 < |was| && was[i] == was[i + 1] && Same(r + was[i..], was) && Done(r, was, i)
    ensures Same(r + was[i + 2..], was) && Done(r, was, i + 2)
  {
    hide Same;
    assert r + was[i..] == r + [was[i]] + [was[i]] + was[i + 2..];
    DropTwice(r, was[i], was[i + 2..]);
    SameBack(r + was[i..], r + was[i + 2..]);
    SameVia(r + was[i + 2..], r + was[i..], was);
  }

  lemma SplitTwo(r: seq<nat>, was: seq<nat>, i: nat)
    requires i + 1 < |was| && Same(r + was[i..], was)
    ensures Same(r + [was[i]] + [was[i + 1]] + was[i + 2..], was)
  {
    assert r + was[i..] == r + [was[i]] + [was[i + 1]] + was[i + 2..];
  }

  lemma MergeNext(r: seq<nat>, was: seq<nat>, j: nat)
    requires j + 3 < |was| && was[j + 1] == was[j + 2] && Same(r + [was[j + 1]] + was[j + 2..], was)
    ensures Same(r + [was[j + 3]] + was[j + 4..], was)
  {
    hide Same;
    var t := [was[j + 3]] + was[j + 4..];
    assert r + [was[j + 1]] + was[j + 2..] == r + [was[j + 1]] + [was[j + 1]] + t;
    DropTwice(r, was[j + 1], t);
    assert r + t == r + [was[j + 3]] + was[j + 4..];
    SameBack(r + [was[j + 1]] + was[j + 2..], r + t);
    SameVia(r + t, r + [was[j + 1]] + was[j + 2..], was);
  }

  lemma DoneNext(r: seq<nat>, was: seq<nat>, i: nat, j: nat)
    requires Done(r, was, i) && i <= j && j + 1 < |was| && i % 2 == 0 && j % 2 == 0 && was[i] != was[i + 1]
    requires !(j + 3 < |was| && was[j + 1] == was[j + 2])
    ensures Done(r + [was[i]] + [was[j + 1]], was, j + 2)
  {
    assert was[i] < was[i + 1] <= was[j + 1];
    assert forall l :: j + 2 <= l < |was| ==> was[j + 1] < was[j + 2] <= was[l];
  }

  lemma TwoWritten(before: seq<nat>, after: seq<nat>, was: seq<nat>, k: nat, a: nat, b: nat, i: nat)
    requires k + 2 <= i <= |before| == |was| && after == before[k := a][k + 1 := b] && before[i..] == was[i..]
    ensures after[..k + 2] == before[..k] + [a] + [b] && after[i..] == was[i..]
  {
  }

  lemma CompressEnd(r: seq<nat>, was: seq<nat>, i: nat)
    requires i <= |was| && i + 1 >= |was| && i % 2 == 0 && Same(r + was[i..], was) && Done(r, was, i)
    ensures Increasing(r) && Same(r, was)
  {
    assert was[i..] == [];
    assert r + [] == r;
  }
}
