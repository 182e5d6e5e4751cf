/** cr_sort_and_remove_overlap and cr_regexp_canonicalize: the image of a set of characters under case folding. */
module CaseFold {
  import opened Words
  import opened Syntax
  import opened CharRanges
  import Sorting

  type Interval = (nat, nat)

  // ----- lists of intervals in any order

  function Pairs(points: seq<nat>): (s: seq<Interval>)
    ensures |s| == |points| / 2
  {
    seq(|points| / 2, i requires 0 <= i < |points| / 2 => (points[2 * i], points[2 * i + 1]))
  }

  function Flat(s: seq<Interval>): (points: seq<nat>)
    ensures |points| == 2 * |s|
  {
    if s == [] then [] else Flat(s[..|s| - 1]) + [s[|s| - 1].0, s[|s| - 1].1]
  }

  lemma {:induction false} FlatAt(s: seq<Interval>, k: nat)
    requires k < |s|
    ensures Flat(s)[2 * k] == s[k].0 && Flat(s)[2 * k + 1] == s[k].1
  {
    if k < |s| - 1 { FlatAt(s[..|s| - 1], k); }
  }

  ghost predicate Covered(s: seq<Interval>, c: nat) {
    exists p :: p in s && p.0 <= c < p.1
  }

  lemma CoveredAppend(s: seq<Interval>, p: Interval, c: nat)
    ensures Covered(s + [p], c) <==> Covered(s, c) || p.0 <= c < p.1
  {
    if Covered(s, c) {
      var q :| q in s && q.0 <= c < q.1;
      assert q in s + [p];
    }
    assert p in s + [p];
  }

  lemma CoveredConcat(s: seq<Interval>, t: seq<Interval>, c: nat)
    ensures Covered(s + t, c) <==> Covered(s, c) || Covered(t, c)
  {
    if Covered(s, c) { var q :| q in s && q.0 <= c < q.1; assert q in s + t; }
    if Covered(t, c) { var q :| q in t && q.0 <= c < q.1; assert q in s + t; }
  }

  lemma CoveredFlat(s: seq<Interval>, c: nat)
    ensures InClass(Flat(s), c) <==> Covered(s, c)
  {
    if InClass(Flat(s), c) {
      var i :| 0 <= i < |Flat(s)| / 2 && Flat(s)[2 * i] <= c < Flat(s)[2 * i + 1];
      FlatAt(s, i);
      assert s[i] in s;
    }
    if Covered(s, c) {
      var p :| p in s && p.0 <= c < p.1;
      var i :| 0 <= i < |s| && s[i] == p;
      FlatAt(s, i);
    }
  }

  lemma CoveredShuffled(s: seq<Interval>, t: seq<Interval>, c: nat)
    requires multiset(s) == multiset(t)
    ensures Covered(s, c) <==> Covered(t, c)
  {
    assert forall p :: p in s <==> p in multiset(s);
    assert forall p :: p in t <==> p in multiset(t);
  }

  // ----- merging

  predicate NonEmpty(s: seq<Interval>) {
    forall k :: 0 <= k < |s| ==> s[k].0 < s[k].1 <= UINT32_MAX
  }

  /** Disjoint intervals in order, with gaps between them. */
  predicate Apart(s: seq<Interval>) {
    NonEmpty(s) && forall i, j :: 0 <= i < j < |s| ==> s[i].1 < s[j].0
  }

  lemma ApartIncreasing(s: seq<Interval>)
    requires Apart(s)
    ensures Increasing(Flat(s))
  {
    var t := Flat(s);
    forall i | 0 <= i < |t| ensures t[i] <= UINT32_MAX {
      FlatAt(s, i / 2);
      assert s[i / 2].0 < s[i / 2].1;
    }
    forall i, j | 0 <= i < j < |t| ensures t[i] < t[j] {
      FlatAt(s, i / 2);
      FlatAt(s, j / 2);
      assert s[i / 2].0 < s[i / 2].1 && s[j / 2].0 < s[j / 2].1;
      assert i / 2 < j / 2 ==> s[i / 2].1 < s[j / 2].0;
      assert i == 2 * (i / 2) || i == 2 * (i / 2) + 1;
      assert j == 2 * (j / 2) || j == 2 * (j / 2) + 1;
    }
  }

  /** point_cmp */
  function PointCmp(p: Interval, q: Interval): int {
    (if p.0 > q.0 then 1 else 0) - (if p.0 < q.0 then 1 else 0)
  }

  predicate Starts(s: seq<Interval>) {
    forall i, j :: 0 <= i < j < |s| ==> s[i].0 <= s[j].0
  }

  ghost predicate SameCover(s: seq<Interval>, t: seq<Interval>) {
    forall c: nat :: Covered(s, c) <==> Covered(t, c)
  }

  /** The intervals that have been written, the one that grows, and the rest. */
  ghost predicate Growing(out: seq<Interval>, p: Interval, s: seq<Interval>, i: nat) {
    && i <= |s| && Apart(out) && NonEmpty(s) && Starts(s) && p.0 < p.1 <= UINT32_MAX
    && (forall k :: 0 <= k < |out| ==> out[k].1 < p.0) && (forall l :: i <= l < |s| ==> p.0 <= s[l].0)
    && SameCover(out + [p] + s[i..], s)
  }

  ghost predicate Merged(out: seq<Interval>, s: seq<Interval>, i: nat) {
    && i <= |s| && Apart(out) && NonEmpty(s) && Starts(s)
    && (forall k, l :: 0 <= k < |out| && i <= l < |s| ==> out[k].1 < s[l].0)
    && SameCover(out + s[i..], s)
  }

  /** cr_sort_and_remove_overlap */
  method SortAndRemoveOverlap(cr: CharRange)
    requires |cr.points| % 2 == 0 && NonEmpty(Pairs(cr.points))
    modifies cr
    ensures Increasing(cr.points) && forall c: nat :: InClass(cr.points, c) <==> Covered(Pairs(old(cr.points)), c)
  {
    hide Covered, NonEmpty, InClass, Starts, Merged, Increasing;
    var n, points := |cr.points| / 2, cr.points;
    var a := new Interval[n](i requires 0 <= i < n => (points[2 * i], points[2 * i + 1]));
    assert a[..] == Pairs(points);
    Sorting.Rqsort(a, PointCmp);
    ghost var s := a[..];
    SortedStarts(s, Pairs(points));
    var j := MergeOverlaps(a);
    MergedEnd(a[..j], s, n, Pairs(points));
    cr.points := Flat(a[..j]);
  }

  /** The loop over the sorted intervals: what has been merged is written over what has been read. */
  method MergeOverlaps(a: array<Interval>) returns (j: nat)
    requires Starts(a[..]) && NonEmpty(a[..])
    modifies a
    ensures j <= a.Length && Merged(a[..j], old(a[..]), a.Length)
  {
    hide Merged, Growing, Starts, NonEmpty;
    ghost var s := a[..];
    var i := 0;
    j := 0;
    assert a[..0] == [];
    MergedStart(s);
    while i < a.Length
      invariant 0 <= j <= i <= a.Length == |s| && a[i..] == s[i..] && Merged(a[..j], s, i)
    {
      var start, end;
      ghost var out, i0 := a[..j], i;
      start, end, i := Grow(a, i, s, out);
      TailLater(a[..], s, i0, i);
      a[j] := (start, end);
      j := j + 1;
      assert a[..j] == out + [(start, end)];
    }
  }

  /** One interval takes in all those that overlap or touch it. */
  method Grow(a: array<Interval>, i0: nat, ghost s: seq<Interval>, ghost out: seq<Interval>) returns (start: nat, end: nat, i: nat)
    requires i0 < a.Length == |s| && a[i0..] == s[i0..] && Merged(out, s, i0)
    ensures i0 < i <= a.Length && Merged(out + [(start, end)], s, i)
  {
    hide Merged, Growing;
    SameAt(a[..], s, i0);
    start, end := a[i0].0, a[i0].1;
    GrowStart(out, s, i0);
    i := i0 + 1;
    while i < a.Length && a[i].0 <= end
      invariant i0 < i <= a.Length && Growing(out, (start, end), s, i)
    {
      GrowStep(out, start, end, s, i);
      if a[i].1 > end {
        end := a[i].1;
      }
      i := i + 1;
    }
    GrowEnd(out, start, end, s, i);
  }

  lemma SameAt(t: seq<Interval>, s: seq<Interval>, i: nat)
    requires i <= |t| == |s| && t[i..] == s[i..]
    ensures forall k :: i <= k < |s| ==> t[k] == s[k]
  {
    forall k | i <= k < |s| ensures t[k] == s[k] {
      assert t[i..][k - i] == s[i..][k - i];
    }
  }

  lemma TailLater(t: seq<Interval>, s: seq<Interval>, i: nat, k: nat)
    requires i <= k <= |t| == |s| && t[i..] == s[i..]
    ensures t[k..] == s[k..]
  {
    SameAt(t, s, i);
  }

  lemma SortedStarts(s: seq<Interval>, t: seq<Interval>)
    requires multiset(s) == multiset(t) && (Sorting.TotalPreorder(PointCmp) ==> Sorting.Sorted(s, PointCmp)) && NonEmpty(t)
    ensures Starts(s) && NonEmpty(s)
  {
    assert Sorting.TotalPreorder(PointCmp);
    forall k | 0 <= k < |s| ensures s[k].0 < s[k].1 <= UINT32_MAX {
      assert s[k] in multiset(t);
    }
    forall i, j | 0 <= i < j < |s| ensures s[i].0 <= s[j].0 {
      assert PointCmp(s[i], s[j]) <= 0;
    }
  }

  lemma MergedStart(s: seq<Interval>)
    requires Starts(s) && NonEmpty(s)
    ensures Merged([], s, 0)
  {
    assert [] + s[0..] == s;
  }

  lemma GrowStart(out: seq<Interval>, s: seq<Interval>, i: nat)
    requires Merged(out, s, i) && i < |s|
    ensures Growing(out, s[i], s, i + 1)
  {
    assert out + s[i..] == out + [s[i]] + s[i + 1..];
  }

  lemma GrowStep(out: seq<Interval>, start: nat, end: nat, s: seq<Interval>, i: nat)
    requires Growing(out, (start, end), s, i) && i < |s| && s[i].0 <= end
    ensures Growing(out, (start, if s[i].1 > end then s[i].1 else end), s, i + 1)
  {
    var p, q := (start, end), (start, if s[i].1 > end then s[i].1 else end);
    forall c: nat ensures Covered(out + [q] + s[i + 1..], c) <==> Covered(s, c) {
      assert s[i..] == [s[i]] + s[i + 1..];
      CoveredConcat(out + [p], s[i..], c);
      CoveredConcat(out + [q], s[i + 1..], c);
      CoveredConcat([s[i]], s[i + 1..], c);
      CoveredAppend(out, p, c);
      CoveredAppend(out, q, c);
      CoveredAppend([], s[i], c);
      assert [] + [s[i]] == [s[i]];
      assert Covered(out + [p] + s[i..], c) <==> Covered(s, c);
    }
  }

  lemma GrowEnd(out: seq<Interval>, start: nat, end: nat, s: seq<Interval>, i: nat)
    requires Growing(out, (start, end), s, i) && (i < |s| ==> s[i].0 > end)
    ensures Merged(out + [(start, end)], s, i)
  {
  }

  lemma MergedEnd(out: seq<Interval>, s: seq<Interval>, i: nat, t: seq<Interval>)
    requires Merged(out, s, i) && i == |s| && multiset(s) == multiset(t)
    ensures Increasing(Flat(out)) && forall c: nat :: InClass(Flat(out), c) <==> Covered(t, c)
  {
    ApartIncreasing(out);
    assert s[i..] == [] && out + [] == out;
    forall c: nat ensures InClass(Flat(out), c) <==> Covered(t, c) {
      CoveredFlat(out, c);
      CoveredShuffled(s, t, c);
      assert Covered(out, c) <==> Covered(s, c);
    }
  }

  // ----- case conversion

  /** Runs of characters (first code, length) and the conversion of a character of a run. */
  datatype CaseTable = CaseTable(runs: seq<(nat, nat)>, entry: (nat, nat) -> nat)

  predicate InRun(t: CaseTable, c: nat, idx: int) {
    0 <= idx < |t.runs| && t.runs[idx].0 <= c < t.runs[idx].0 + t.runs[idx].1
  }

  predicate TableOrdered(t: CaseTable) {
    forall i, j :: 0 <= i < j < |t.runs| ==> t.runs[i].0 + t.runs[i].1 <= t.runs[j].0
  }

  ghost function RunOf(t: CaseTable, c: nat): (idx: nat)
    requires exists idx :: InRun(t, c, idx)
    ensures InRun(t, c, idx)
  {
    var idx :| InRun(t, c, idx);
    idx
  }

  /** The conversion of any character; those that are in no run stay as they are. */
  ghost function Fold(t: CaseTable, c: nat): nat {
    if exists idx :: InRun(t, c, idx) then t.entry(c, RunOf(t, c)) else c
  }

  lemma FoldIs(t: CaseTable, c: nat, idx: nat)
    requires TableOrdered(t) && InRun(t, c, idx)
    ensures Fold(t, c) == t.entry(c, idx)
  {
    var k := RunOf(t, c);
    assert k == idx;
  }

  /** The fast case of lre_canonicalize. */
  function AsciiFold(c: nat, isUnicode: bool): nat {
    if isUnicode then (if 'A' as nat <= c <= 'Z' as nat then c + 32 else c)
    else if 'a' as nat <= c <= 'z' as nat then c - 32 else c
  }

  /** lre_canonicalize: a binary search for the run. */
  method Canonicalize(t: CaseTable, c: nat, isUnicode: bool) returns (r: nat)
    requires TableOrdered(t)
    requires c < 128 && isUnicode ==> Fold(t, c) == if 0x41 <= c <= 0x5a then c + 0x20 else c
    requires c < 128 && !isUnicode ==> Fold(t, c) == if 0x61 <= c <= 0x7a then c - 0x20 else c
    ensures r == Fold(t, c)
  {
    hide Fold;
    if c < 128 {
      return AsciiFold(c, isUnicode);
    }
    var idxMin, idxMax := 0, |t.runs| - 1;
    while idxMin <= idxMax
      invariant 0 <= idxMin <= |t.runs| && -1 <= idxMax < |t.runs|
      invariant forall k :: 0 <= k < |t.runs| && (k < idxMin || k > idxMax) ==> !InRun(t, c, k)
      decreases idxMax - idxMin + 1
    {
      var idx := (idxMax + idxMin) / 2;
      var (code, len) := t.runs[idx];
      if c < code {
        forall k | idx <= k < |t.runs| ensures !InRun(t, c, k) { if k > idx { assert t.runs[idx].0 + t.runs[idx].1 <= t.runs[k].0; } }
        idxMax := idx - 1;
      } else if c >= code + len {
        forall k | 0 <= k <= idx ensures !InRun(t, c, k) { if k < idx { assert t.runs[k].0 + t.runs[k].1 <= t.runs[idx].0; } }
        idxMin := idx + 1;
      } else {
        FoldIs(t, c, idx);
        return t.entry(c, idx);
      }
    }
    NoRun(t, c);
    return c;
  }

  lemma NoRun(t: CaseTable, c: nat)
    requires forall k :: 0 <= k < |t.runs| ==> !InRun(t, c, k)
    ensures Fold(t, c) == c
  {
  }

  // ----- cr_regexp_canonicalize

  /** What is assumed of the table and of the mask computed from it: every masked character is in a run, no
      other character is changed, and characters are converted to characters. */
  ghost predicate CaseData(t: CaseTable, mask: seq<nat>) {
    && TableOrdered(t) && Weak(mask)
    && (forall c: nat :: InClass(mask, c) ==> exists idx :: InRun(t, c, idx))
    && (forall c: nat :: Fold(t, c) != c ==> InClass(mask, c))
    && (forall c: nat :: InClass(mask, c) ==> Fold(t, c) < UINT32_MAX)
  }

  /** `d` is the conversion of a member below `upto`. */
  ghost predicate Image(points: seq<nat>, t: CaseTable, upto: nat, d: nat) {
    exists c: nat :: InClass(points, c) && c < upto && Fold(t, c) == d
  }

  lemma ImageNext(points: seq<nat>, t: CaseTable, c: nat, d: nat)
    requires InClass(points, c)
    ensures Image(points, t, c + 1, d) <==> Image(points, t, c, d) || Fold(t, c) == d
  {
    hide InClass, Fold;
    if Image(points, t, c, d) { var x: nat :| InClass(points, x) && x < c && Fold(t, x) == d; assert x < c + 1; }
    if Image(points, t, c + 1, d) { var x: nat :| InClass(points, x) && x < c + 1 && Fold(t, x) == d; assert x == c || x < c; }
  }

  /** Nothing lies between two intervals. */
  lemma ImageGap(points: seq<nat>, t: CaseTable, lo: nat, hi: nat, d: nat)
    requires lo <= hi && forall c: nat :: lo <= c < hi ==> !InClass(points, c)
    ensures Image(points, t, lo, d) <==> Image(points, t, hi, d)
  {
    hide InClass, Fold;
    if Image(points, t, hi, d) { var x: nat :| InClass(points, x) && x < hi && Fold(t, x) == d; assert x < lo; }
    if Image(points, t, lo, d) { var x: nat :| InClass(points, x) && x < lo && Fold(t, x) == d; assert x < hi; }
  }

  /** Covered by the intervals found so far, or by the one that grows, if there is one. */
  ghost predicate Found(r: seq<nat>, dStart: nat, dEnd: nat, d: nat) {
    Covered(Pairs(r), d) || (dStart != UINT32_MAX && dStart <= d < dEnd)
  }

  ghost predicate Folded(r: seq<nat>, dStart: nat, dEnd: nat, points: seq<nat>, t: CaseTable, upto: nat) {
    && |r| % 2 == 0 && NonEmpty(Pairs(r)) && (dStart != UINT32_MAX ==> dStart < dEnd <= UINT32_MAX)
    && forall d: nat :: Found(r, dStart, dEnd, d) <==> Image(points, t, upto, d)
  }

  lemma PairsAppend(r: seq<nat>, a: nat, b: nat)
    requires |r| % 2 == 0
    ensures Pairs(r + [a, b]) == Pairs(r) + [(a, b)]
  {
  }

  /** One more character: its conversion continues the interval or starts another one. */
  lemma FoldedNext(r: seq<nat>, dStart: nat, dEnd: nat, points: seq<nat>, t: CaseTable, c: nat, d: nat)
    requires Folded(r, dStart, dEnd, points, t, c) && InClass(points, c) && Fold(t, c) == d < UINT32_MAX
    ensures dStart == UINT32_MAX ==> Folded(r, d, d + 1, points, t, c + 1)
    ensures dStart != UINT32_MAX && dEnd == d ==> Folded(r, dStart, dEnd + 1, points, t, c + 1)
    ensures dStart != UINT32_MAX && dEnd != d ==> Folded(r + [dStart, dEnd], d, d + 1, points, t, c + 1)
  {
    PairsAppend(r, dStart, dEnd);
    var grows := dStart != UINT32_MAX && dEnd == d;
    var r' := if dStart != UINT32_MAX && dEnd != d then r + [dStart, dEnd] else r;
    var ds, de := if grows then dStart else d, d + 1;
    hide InClass, Fold, Covered, Image, Pairs;
    forall x: nat ensures Found(r', ds, de, x) <==> Image(points, t, c + 1, x) {
      ImageNext(points, t, c, x);
      CoveredAppend(Pairs(r), (dStart, dEnd), x);
      assert Found(r, dStart, dEnd, x) <==> Image(points, t, c, x);
    }
  }

  lemma FoldedGap(r: seq<nat>, dStart: nat, dEnd: nat, points: seq<nat>, t: CaseTable, lo: nat, hi: nat)
    requires Folded(r, dStart, dEnd, points, t, lo) && lo <= hi && forall c: nat :: lo <= c < hi ==> !InClass(points, c)
    ensures Folded(r, dStart, dEnd, points, t, hi)
  {
    hide InClass, Fold, Found, Image, Pairs;
    forall d: nat ensures Found(r, dStart, dEnd, d) <==> Image(points, t, hi, d) {
      ImageGap(points, t, lo, hi, d);
      assert Found(r, dStart, dEnd, d) <==> Image(points, t, lo, d);
    }
  }

  /** The end of the interval before, or 0. */
  function EndBefore(points: seq<nat>, i: nat): nat
    requires i <= |points|
  {
    if i == 0 then 0 else points[i - 1]
  }

  lemma GapBefore(points: seq<nat>, i: nat)
    requires Increasing(points) && i % 2 == 0 && i <= |points|
    ensures i < |points| ==> EndBefore(points, i) <= points[i] && forall c: nat :: EndBefore(points, i) <= c < points[i] ==> !InClass(points, c)
    ensures i == |points| ==> forall c: nat :: EndBefore(points, i) <= c ==> !InClass(points, c)
    ensures i < |points| ==> forall c: nat :: points[i] <= c < points[i + 1] ==> InClass(points, c)
  {
    if i < |points| {
      forall c: nat | points[i] <= c < points[i + 1] ensures InClass(points, c) { assert points[2 * (i / 2)] <= c < points[2 * (i / 2) + 1]; }
    }
  }

  /** The run of `c`, searched from the run of a smaller character on. */
  method NextRun(t: CaseTable, idx0: nat, c: nat) returns (idx: nat)
    requires TableOrdered(t) && idx0 < |t.runs| && (exists k :: InRun(t, c, k)) && forall k :: 0 <= k < idx0 ==> !InRun(t, c, k)
    ensures InRun(t, c, idx) && idx0 <= idx
  {
    ghost var z :| InRun(t, c, z);
    idx := idx0;
    while !InRun(t, c, idx)
      invariant idx0 <= idx <= z
      decreases z - idx
    {
      idx := idx + 1;
    }
  }

  lemma RunsPassed(t: CaseTable, idx: nat, c: nat, c': nat)
    requires TableOrdered(t) && InRun(t, c, idx) && c <= c'
    ensures forall k :: 0 <= k < idx ==> !InRun(t, c', k)
  {
    forall k | 0 <= k < idx ensures !InRun(t, c', k) {
      assert t.runs[k].0 + t.runs[k].1 <= t.runs[idx].0;
    }
  }

  ghost predicate Foldable(points: seq<nat>, t: CaseTable, start: nat, end: nat) {
    forall c: nat :: start <= c < end ==> FoldsAt(points, t, c)
  }

  ghost predicate FoldsAt(points: seq<nat>, t: CaseTable, c: nat) {
    InClass(points, c) && Fold(t, c) < UINT32_MAX && exists k :: InRun(t, c, k)
  }

  /** The conversions of the characters of one interval. */
  method FoldInterval(cr: CharRange, points: seq<nat>, t: CaseTable, start: nat, end: nat, dStart0: nat, dEnd0: nat, idx0: nat)
    returns (dStart: nat, dEnd: nat, idx: nat)
    requires TableOrdered(t) && idx0 < |t.runs| && start < end && forall c: nat, k :: c >= start && 0 <= k < idx0 ==> !InRun(t, c, k)
    requires Foldable(points, t, start, end)
    requires Folded(cr.points, dStart0, dEnd0, points, t, start)
    modifies cr
    ensures Folded(cr.points, dStart, dEnd, points, t, end)
    ensures idx < |t.runs| && forall c: nat, k :: c >= end && 0 <= k < idx ==> !InRun(t, c, k)
  {
    hide Folded, InClass, Fold, TableOrdered, InRun;
    dStart, dEnd, idx := dStart0, dEnd0, idx0;
    var c := start;
    while c < end
      invariant start <= c <= end && Folded(cr.points, dStart, dEnd, points, t, c)
      invariant idx < |t.runs| && forall x: nat, k :: x >= c && 0 <= k < idx ==> !InRun(t, x, k)
    {
      assert FoldsAt(points, t, c);
      idx := NextRun(t, idx, c);
      RunInTable(t, c, idx);
      FoldIs(t, c, idx);
      var d := t.entry(c, idx);
      FoldedNext(cr.points, dStart, dEnd, points, t, c, d);
      if dStart == UINT32_MAX {
        dStart, dEnd := d, d + 1;
      } else if dEnd == d {
        dEnd := dEnd + 1;
      } else {
        cr.AddInterval(dStart, dEnd);
        dStart, dEnd := d, d + 1;
      }
      forall x: nat, k | x >= c + 1 && 0 <= k < idx ensures !InRun(t, x, k) { RunsPassed(t, idx, c, x); }
      c := c + 1;
    }
  }

  lemma RunInTable(t: CaseTable, c: nat, idx: nat)
    requires InRun(t, c, idx)
    ensures idx < |t.runs|
  {
  }

  /** The loops over the part of the set that folding can change; the intervals found are in any order. */
  method FoldAll(points: seq<nat>, t: CaseTable, ghost mask: seq<nat>) returns (cr: CharRange)
    requires Increasing(points) && CaseData(t, mask) && forall c: nat :: InClass(points, c) ==> InClass(mask, c)
    ensures fresh(cr) && |cr.points| % 2 == 0 && NonEmpty(Pairs(cr.points))
    ensures forall d: nat :: Covered(Pairs(cr.points), d) <==> exists c: nat :: InClass(points, c) && Fold(t, c) == d
  {
    hide Folded, InClass, Fold, Pairs, NonEmpty, Covered, Image;
    cr := new CharRange();
    var dStart: nat, dEnd: nat, idx: nat, i: nat := UINT32_MAX, UINT32_MAX, 0, 0;
    FoldedStart(points, t);
    while i < |points|
      invariant 0 <= i <= |points| && i % 2 == 0 && fresh(cr) && Folded(cr.points, dStart, dEnd, points, t, EndBefore(points, i))
      invariant i < |points| ==> (idx < |t.runs| || idx == 0) && forall c: nat, k :: c >= EndBefore(points, i) && 0 <= k < idx ==> !InRun(t, c, k)
    {
      var start, end := points[i], points[i + 1];
      GapBefore(points, i);
      FoldedGap(cr.points, dStart, dEnd, points, t, EndBefore(points, i), start);
      FoldableInterval(points, t, mask, start, end);
      dStart, dEnd, idx := FoldInterval(cr, points, t, start, end, dStart, dEnd, idx);
      i := i + 2;
    }
    GapBefore(points, i);
    ghost var r := cr.points;
    if dStart != UINT32_MAX {
      cr.AddInterval(dStart, dEnd);
    }
    FoldedEnd(r, dStart, dEnd, points, t, EndBefore(points, i));
  }

  lemma FoldedStart(points: seq<nat>, t: CaseTable)
    ensures Folded([], UINT32_MAX, UINT32_MAX, points, t, 0)
  {
    assert Pairs([]) == [];
  }

  lemma FoldableInterval(points: seq<nat>, t: CaseTable, mask: seq<nat>, start: nat, end: nat)
    requires CaseData(t, mask) && (forall c: nat :: InClass(points, c) ==> InClass(mask, c)) && start < end
    requires forall c: nat :: start <= c < end ==> InClass(points, c)
    ensures |t.runs| > 0
    ensures Foldable(points, t, start, end)
  {
    hide InClass, Fold, CaseData, InRun;
    forall c: nat | start <= c < end ensures FoldsAt(points, t, c) {
      assert InClass(points, c) && InClass(mask, c);
      MaskedChar(t, mask, c);
    }
    assert InClass(points, start);
    MaskedChar(t, mask, start);
  }

  lemma MaskedChar(t: CaseTable, mask: seq<nat>, c: nat)
    requires CaseData(t, mask) && InClass(mask, c)
    ensures |t.runs| > 0 && Fold(t, c) < UINT32_MAX && exists k :: InRun(t, c, k)
  {
    hide InClass, Fold, TableOrdered, Weak;
  }

  lemma FoldedEnd(r: seq<nat>, dStart: nat, dEnd: nat, points: seq<nat>, t: CaseTable, upto: nat)
    requires Folded(r, dStart, dEnd, points, t, upto) && forall c: nat :: upto <= c ==> !InClass(points, c)
    ensures var r' := if dStart != UINT32_MAX then r + [dStart, dEnd] else r;
            && |r'| % 2 == 0 && NonEmpty(Pairs(r'))
            && forall d: nat :: Covered(Pairs(r'), d) <==> exists c: nat :: InClass(points, c) && Fold(t, c) == d
  {
    hide InClass, Fold, Covered;
    PairsAppend(r, dStart, dEnd);
    var r' := if dStart != UINT32_MAX then r + [dStart, dEnd] else r;
    forall d: nat ensures Covered(Pairs(r'), d) <==> exists c: nat :: InClass(points, c) && Fold(t, c) == d {
      CoveredAppend(Pairs(r), (dStart, dEnd), d);
      ImageAll(points, t, upto, d);
      assert Found(r, dStart, dEnd, d) <==> Image(points, t, upto, d);
    }
  }

  lemma ImageAll(points: seq<nat>, t: CaseTable, upto: nat, d: nat)
    requires forall c: nat :: upto <= c ==> !InClass(points, c)
    ensures Image(points, t, upto, d) <==> exists c: nat :: InClass(points, c) && Fold(t, c) == d
  {
    hide InClass, Fold;
    if c: nat :| InClass(points, c) && Fold(t, c) == d { assert c < upto; }
  }

  /** `r` is the image of `s` under folding, both as sets of code points. */
  ghost predicate IsImage(r: seq<nat>, s: seq<nat>, t: CaseTable) {
    forall d: nat :: InClass(r, d) <==> exists c: nat :: InClass(s, c) && Fold(t, c) == d
  }

  /** cr_regexp_canonicalize: the set becomes the set of the conversions of its members, in canonical form. */
  method RegexpCanonicalize(cr: CharRange, t: CaseTable, mask: seq<nat>)
    requires Increasing(cr.points) && CaseData(t, mask)
    modifies cr
    ensures Increasing(cr.points) && IsImage(cr.points, old(cr.points), t)
  {
    hide InClass, Fold, Pairs, NonEmpty, Covered, Combined, Complement, Increasing, Weak, CaseData, IsImage;
    var crInter := new CharRange();
    var crMask := new CharRange();
    var crSub := new CharRange();
    MaskWeak(t, mask);
    IncreasingWeak(cr.points);
    ghost var s := cr.points;
    crMask.points := mask;
    crInter.CrOp(mask, cr.points, Inter);
    crMask.Invert();
    ghost var outside := crMask.points;
    IncreasingWeak(crMask.points);
    crSub.CrOp(crMask.points, cr.points, Inter);
    ghost var inside, sub := crInter.points, crSub.points;
    InsideMask(inside, mask, s);
    var crResult := FoldAll(crInter.points, t, mask);
    ghost var pairs := Pairs(crResult.points);
    SortAndRemoveOverlap(crResult);
    IncreasingWeak(crResult.points);
    IncreasingWeak(crSub.points);
    cr.points := [];
    cr.CrOp(crResult.points, crSub.points, Union);
    AllTogether(cr.points, crResult.points, inside, sub, outside, s, mask, t, pairs);
  }

  lemma MaskWeak(t: CaseTable, mask: seq<nat>)
    requires CaseData(t, mask)
    ensures Weak(mask)
  {
  }

  lemma InsideMask(inside: seq<nat>, mask: seq<nat>, s: seq<nat>)
    requires Increasing(inside) && Weak(mask) && Weak(s) && Combined(inside, Inter, mask, s)
    ensures forall c: nat :: InClass(inside, c) <==> InClass(mask, c) && InClass(s, c)
  {
    hide InClass, Combined, Weak, Increasing;
    forall c: nat ensures InClass(inside, c) <==> InClass(mask, c) && InClass(s, c) {
      CombinedMembers(inside, Inter, mask, s, c);
    }
  }

  lemma OutsideMask(sub: seq<nat>, outside: seq<nat>, mask: seq<nat>, s: seq<nat>)
    requires Increasing(sub) && Increasing(outside) && Weak(mask) && Increasing(s) && Complement(outside, mask) && Combined(sub, Inter, outside, s)
    ensures forall c: nat :: InClass(sub, c) <==> !InClass(mask, c) && InClass(s, c)
  {
    hide Combined, Weak, Complement;
    IncreasingWeak(outside);
    IncreasingWeak(s);
    forall c: nat ensures InClass(sub, c) <==> !InClass(mask, c) && InClass(s, c) {
      CombinedMembers(sub, Inter, outside, s, c);
      ComplementMembers(outside, mask, c);
      if InClass(s, c) { assert c < UINT32_MAX; }
    }
  }

  lemma AllTogether(r: seq<nat>, result: seq<nat>, inside: seq<nat>, sub: seq<nat>, outside: seq<nat>, s: seq<nat>, mask: seq<nat>, t: CaseTable, pairs: seq<Interval>)
    requires Increasing(r) && Increasing(result) && Increasing(inside) && Increasing(sub) && Increasing(outside) && Increasing(s) && CaseData(t, mask)
    requires Combined(inside, Inter, mask, s) && Complement(outside, mask) && Combined(sub, Inter, outside, s) && Combined(r, Union, result, sub)
    requires forall d: nat :: Covered(pairs, d) <==> exists c: nat :: InClass(inside, c) && Fold(t, c) == d
    requires forall d: nat :: InClass(result, d) <==> Covered(pairs, d)
    ensures IsImage(r, s, t)
  {
    MaskWeak(t, mask);
    IncreasingWeak(s);
    IncreasingWeak(result);
    IncreasingWeak(sub);
    InsideMask(inside, mask, s);
    OutsideMask(sub, outside, mask, s);
    hide InClass, Fold, Covered, Combined, Complement, Increasing, Weak;
    forall d: nat ensures InClass(r, d) <==> exists c: nat :: InClass(s, c) && Fold(t, c) == d {
      CombinedMembers(r, Union, result, sub, d);
      OneImage(inside, sub, s, mask, t, d);
      assert InClass(result, d) <==> Covered(pairs, d);
    }
  }

  /** A member is converted inside the mask, and stays as it is outside. */
  lemma OneImage(inside: seq<nat>, sub: seq<nat>, s: seq<nat>, mask: seq<nat>, t: CaseTable, d: nat)
    requires CaseData(t, mask)
    requires forall c: nat :: InClass(inside, c) <==> InClass(mask, c) && InClass(s, c)
    requires forall c: nat :: InClass(sub, c) <==> !InClass(mask, c) && InClass(s, c)
    ensures ((exists c: nat :: InClass(inside, c) && Fold(t, c) == d) || InClass(sub, d)) <==> exists c: nat :: InClass(s, c) && Fold(t, c) == d
  {
    hide InClass, Fold;
    if c: nat :| InClass(inside, c) && Fold(t, c) == d { assert InClass(s, c); }
    if InClass(sub, d) { assert InClass(s, d) && Fold(t, d) == d; }
    if c: nat :| InClass(s, c) && Fold(t, c) == d {
      if InClass(mask, c) { assert InClass(inside, c); } else { assert Fold(t, c) == c; }
    }
  }
}
