/** The canonical ordering of combining marks (section 3.11 of the Unicode Standard) and the in-place sort. */
module Canonical {

  /** The combining class of a character. */
  type Classes = nat -> nat

  // ----- what the order must keep

  /** The starters and the characters of class `v`, in their order. */
  function Keep(cc: Classes, s: seq<nat>, v: nat): seq<nat> {
    if s == [] then []
    else if cc(s[0]) == 0 || cc(s[0]) == v then [s[0]] + Keep(cc, s[1..], v) else Keep(cc, s[1..], v)
  }

  /** Both strings have the same starters and, between them, the same characters of each class in the same order. */
  ghost predicate Similar(cc: Classes, s: seq<nat>, t: seq<nat>) {
    forall v :: Keep(cc, s, v) == Keep(cc, t, v)
  }

  /** No character is followed by a combining one of a smaller class. */
  predicate Ordered(cc: Classes, s: seq<nat>) {
    forall k :: 0 <= k < |s| - 1 ==> cc(s[k + 1]) == 0 || cc(s[k]) <= cc(s[k + 1])
  }

  lemma {:induction false} KeepConcat(cc: Classes, s: seq<nat>, t: seq<nat>, v: nat)
    ensures Keep(cc, s + t, v) == Keep(cc, s, v) + Keep(cc, t, v)
    decreases |s|
  {
    if s == [] {
      assert s + t == t;
    } else {
      assert (s + t)[1..] == s[1..] + t;
      KeepConcat(cc, s[1..], t, v);
    }
  }

  lemma KeepOne(cc: Classes, x: nat, v: nat)
    ensures Keep(cc, [x], v) == if cc(x) == 0 || cc(x) == v then [x] else []
  {
    assert [x][1..] == [];
  }

  /** Two neighbours of different classes may change places. */
  lemma SwapSimilar(cc: Classes, a: seq<nat>, x: nat, y: nat, b: seq<nat>)
    requires cc(x) != cc(y) && cc(x) != 0 && cc(y) != 0
    ensures Similar(cc, a + [x] + [y] + b, a + [y] + [x] + b)
  {
    forall v ensures Keep(cc, a + [x] + [y] + b, v) == Keep(cc, a + [y] + [x] + b, v) {
      KeepFour(cc, a, x, y, b, v);
      KeepFour(cc, a, y, x, b, v);
    }
  }

  lemma KeepFour(cc: Classes, a: seq<nat>, x: nat, y: nat, b: seq<nat>, v: nat)
    ensures Keep(cc, a + [x] + [y] + b, v) == Keep(cc, a, v) + Keep(cc, [x], v) + Keep(cc, [y], v) + Keep(cc, b, v)
    ensures Keep(cc, [x], v) == if cc(x) == 0 || cc(x) == v then [x] else []
    ensures Keep(cc, [y], v) == if cc(y) == 0 || cc(y) == v then [y] else []
  {
    KeepConcat(cc, a + [x] + [y], b, v);
    KeepConcat(cc, a + [x], [y], v);
    KeepConcat(cc, a, [x], v);
    KeepOne(cc, x, v);
    KeepOne(cc, y, v);
  }

  lemma SimilarTrans(cc: Classes, s: seq<nat>, t: seq<nat>, u: seq<nat>)
    requires Similar(cc, s, t) && Similar(cc, t, u)
    ensures Similar(cc, s, u)
  {
  }

  lemma SimilarSelf(cc: Classes, s: seq<nat>)
    ensures Similar(cc, s, s)
  {
  }

  // ----- the ordered string is unique

  /** In an ordered string the first character of class `u` is not behind a larger one, unless a starter is. */
  lemma {:induction false} FirstKept(cc: Classes, s: seq<nat>, u: nat)
    requires s != [] && Ordered(cc, s)
    ensures cc(s[0]) > u > 0 && Keep(cc, s, u) != [] ==> cc(Keep(cc, s, u)[0]) == 0
    decreases |s|
  {
    var t := s[1..];
    if t != [] {
      assert cc(s[1]) == 0 || cc(s[0]) <= cc(s[1]);
      assert Ordered(cc, t);
      if cc(t[0]) != 0 { FirstKept(cc, t, u); }
    }
  }

  lemma SameFirst(cc: Classes, s: seq<nat>, t: seq<nat>)
    requires Ordered(cc, s) && Ordered(cc, t) && Similar(cc, s, t) && s != []
    ensures t != [] && t[0] == s[0]
  {
    var u := cc(s[0]);
    assert Keep(cc, s, u) == Keep(cc, t, u) && Keep(cc, s, u)[0] == s[0];
    assert t != [];
    var w := cc(t[0]);
    assert Keep(cc, s, w) == Keep(cc, t, w) && Keep(cc, t, w)[0] == t[0];
    FirstKept(cc, t, u);
    FirstKept(cc, s, w);
  }

  lemma {:induction false} OrderedUnique(cc: Classes, s: seq<nat>, t: seq<nat>)
    requires Ordered(cc, s) && Ordered(cc, t) && Similar(cc, s, t)
    ensures s == t
    decreases |s|
  {
    if s == [] {
      if t != [] { SameFirst(cc, t, s); }
    } else {
      SameFirst(cc, s, t);
      forall v ensures Keep(cc, s[1..], v) == Keep(cc, t[1..], v) {
        assert Keep(cc, s, v) == Keep(cc, t, v);
        TailKept(cc, s, v);
        TailKept(cc, t, v);
      }
      OrderedUnique(cc, s[1..], t[1..]);
      assert s == [s[0]] + s[1..] && t == [t[0]] + t[1..];
    }
  }

  lemma TailKept(cc: Classes, s: seq<nat>, v: nat)
    requires s != []
    ensures Keep(cc, s[1..], v) == if cc(s[0]) == 0 || cc(s[0]) == v then Keep(cc, s, v)[1..] else Keep(cc, s, v)
  {
  }

  // ----- sort_cc

  /** Everything up to `j` is in order, and the characters are those of the beginning. */
  ghost predicate SortedTo(cc: Classes, s: seq<nat>, was: seq<nat>, j: nat) {
    j <= |s| == |was| && Ordered(cc, s[..j]) && Similar(cc, s, was) && s[j..] == was[j..]
  }

  /** sort_cc: each run of combining characters is sorted by insertion, in place. */
  method SortCc(cc: Classes, buf: array<nat>)
    modifies buf
    ensures Ordered(cc, buf[..]) && Similar(cc, buf[..], old(buf[..]))
  {
    hide SortedTo;
    ghost var was := buf[..];
    var i, len := 0, buf.Length;
    SortedStart(cc, was);
    while i < len
      invariant 0 <= i <= len && SortedTo(cc, buf[..], was, i) && (0 < i < len ==> cc(buf[i]) == 0 || cc(buf[i - 1]) == 0)
    {
      if cc(buf[i]) != 0 {
        var start, j := i, i + 1;
        SortedOne(cc, buf[..], was, i);
        while j < len && cc(buf[j]) != 0
          invariant start < j <= len && SortedTo(cc, buf[..], was, j)
          invariant start > 0 ==> cc(buf[start - 1]) == 0
        {
          InsertMark(cc, buf, start, j, was);
          j := j + 1;
        }
        i := j;
      } else {
        SortedOne(cc, buf[..], was, i);
        i := i + 1;
      }
    }
    SortedEnd(cc, buf[..], was, i);
  }

  lemma SortedEnd(cc: Classes, s: seq<nat>, was: seq<nat>, j: nat)
    requires SortedTo(cc, s, was, j) && j == |s|
    ensures Ordered(cc, s) && Similar(cc, s, was)
  {
    assert s[..j] == s;
  }

  lemma SortedStart(cc: Classes, was: seq<nat>)
    ensures SortedTo(cc, was, was, 0)
  {
  }

  /** A starter, or a character behind one, is in its place. */
  lemma SortedOne(cc: Classes, s: seq<nat>, was: seq<nat>, i: nat)
    requires SortedTo(cc, s, was, i) && i < |s| && (i > 0 ==> cc(s[i]) == 0 || cc(s[i - 1]) == 0)
    ensures SortedTo(cc, s, was, i + 1)
  {
    assert s[i + 1..] == s[i..][1..] && was[i + 1..] == was[i..][1..];
  }

  /** `o` with the character at `j` moved in front of those from `k` on. */
  function Moved(o: seq<nat>, k: nat, j: nat): seq<nat>
    requires k <= j < |o|
  {
    o[..k] + [o[j]] + o[k..j] + o[j + 1..]
  }

  lemma MoveOne(cc: Classes, o: seq<nat>, k: nat, j: nat, was: seq<nat>)
    requires 0 < k <= j < |o| && cc(o[k - 1]) > cc(o[j]) > 0 && Similar(cc, Moved(o, k, j), was)
    ensures Similar(cc, Moved(o, k - 1, j), was)
  {
    var b := o[k..j] + o[j + 1..];
    assert Moved(o, k, j) == o[..k - 1] + [o[k - 1]] + [o[j]] + b;
    assert Moved(o, k - 1, j) == o[..k - 1] + [o[j]] + [o[k - 1]] + b;
    SwapSimilar(cc, o[..k - 1], o[j], o[k - 1], b);
    SimilarTrans(cc, Moved(o, k - 1, j), Moved(o, k, j), was);
  }

  /** The characters behind `k` have been moved up by one; the one at k + 1 is still there twice. */
  function Shifted(o: seq<nat>, k: int, j: nat): (s: seq<nat>)
    requires -1 <= k < j < |o|
    ensures |s| == |o|
  {
    o[..k + 2] + o[k + 1..j] + o[j + 1..]
  }

  lemma ShiftStep(o: seq<nat>, k: nat, j: nat)
    requires k < j < |o|
    ensures Shifted(o, k, j)[k] == o[k] && Shifted(o, k, j)[k + 1 := o[k]] == Shifted(o, k - 1, j)
  {
    assert o[k..j] == [o[k]] + o[k + 1..j];
  }

  lemma ShiftEnd(o: seq<nat>, k: int, j: nat)
    requires -1 <= k < j < |o|
    ensures Shifted(o, k, j)[k + 1 := o[j]] == Moved(o, k + 1, j)
  {
  }

  lemma ShiftStart(o: seq<nat>, j: nat)
    requires 0 < j < |o|
    ensures Shifted(o, j - 1, j) == o
  {
  }

  /** A character is inserted among the combining ones before it. */
  method InsertMark(cc: Classes, buf: array<nat>, start: nat, j: nat, ghost was: seq<nat>)
    requires start < j < buf.Length && cc(buf[j]) != 0 && SortedTo(cc, buf[..], was, j) && (start > 0 ==> cc(buf[start - 1]) == 0)
    modifies buf
    ensures SortedTo(cc, buf[..], was, j + 1) && (start > 0 ==> cc(buf[start - 1]) == 0)
  {
    hide SortedTo, Moved, Similar, Shifted;
    ghost var o := buf[..];
    var ch1 := buf[j];
    var k := j - 1;
    MovedStart(cc, o, j, was);
    ShiftStart(o, j);
    ShiftStep(o, k, j);
    while k >= start && cc(buf[k]) > cc(ch1)
      invariant start - 1 <= k < j && buf[..] == Shifted(o, k, j) && (k >= 0 ==> buf[k] == o[k])
      invariant Similar(cc, Moved(o, k + 1, j), was) && forall m :: k < m < j ==> cc(o[m]) > cc(ch1)
    {
      MoveOne(cc, o, k + 1, j, was);
      ShiftStep(o, k, j);
      if k > 0 { ShiftStep(o, k - 1, j); }
      buf[k + 1] := buf[k];
      assert buf[..] == Shifted(o, k, j)[k + 1 := o[k]];
      k := k - 1;
    }
    ShiftEnd(o, k, j);
    buf[k + 1] := ch1;
    assert buf[..] == Moved(o, k + 1, j);
    MovedSorted(cc, o, k + 1, start, j, was);
  }

  lemma MovedStart(cc: Classes, o: seq<nat>, j: nat, was: seq<nat>)
    requires SortedTo(cc, o, was, j) && j < |o|
    ensures Moved(o, j, j) == o && Similar(cc, o, was)
  {
  }

  lemma MovedSorted(cc: Classes, o: seq<nat>, k: nat, start: nat, j: nat, was: seq<nat>)
    requires SortedTo(cc, o, was, j) && start <= k <= j < |o| && cc(o[j]) != 0 && (start > 0 ==> cc(o[start - 1]) == 0)
    requires Similar(cc, Moved(o, k, j), was) && (forall m :: k <= m < j ==> cc(o[m]) > cc(o[j])) && (k > start ==> cc(o[k - 1]) <= cc(o[j]))
    ensures SortedTo(cc, Moved(o, k, j), was, j + 1) && (start > 0 ==> cc(Moved(o, k, j)[start - 1]) == 0)
  {
    hide Similar;
    var t := Moved(o, k, j);
    assert t[j + 1..] == o[j + 1..] == o[j..][1..] && was[j + 1..] == was[j..][1..];
    forall m | 0 <= m < j ensures cc(t[m + 1]) == 0 || cc(t[m]) <= cc(t[m + 1]) {
      assert t[m] == if m < k then o[m] else if m == k then o[j] else o[m - 1];
      assert t[m + 1] == if m + 1 < k then o[m + 1] else if m + 1 == k then o[j] else o[m];
      if m + 1 < k { assert o[..j][m + 1] == o[m + 1] && o[..j][m] == o[m]; }
      if m > k { assert o[..j][m - 1] == o[m - 1] && o[..j][m] == o[m]; }
    }
  }
}
