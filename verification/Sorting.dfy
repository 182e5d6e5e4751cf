/** rqsort: three-way quicksort with an explicit stack, heapsort when it degenerates, insertion sort at the end. */
module Sorting {

  /** A comparison function; like in C only its sign matters. */
  type Cmp<!T(!new)> = (T, T) -> int

  ghost predicate TotalPreorder<T(!new)>(cmp: Cmp<T>) {
    && (forall a, b :: cmp(a, b) < 0 <==> cmp(b, a) > 0)
    && (forall a, b, c :: cmp(a, b) <= 0 && cmp(b, c) <= 0 ==> cmp(a, c) <= 0)
  }

  ghost predicate Sorted<T(!new)>(s: seq<T>, cmp: Cmp<T>) {
    forall i, j :: 0 <= i < j < |s| ==> cmp(s[i], s[j]) <= 0
  }

  // ----- rearrangements of a stretch of a sequence

  /** `t` is `s` with the elements lo..hi-1 rearranged. */
  ghost predicate Shuffled<T>(s: seq<T>, t: seq<T>, lo: nat, hi: nat) {
    && |s| == |t| && lo <= hi <= |s|
    && multiset(s[lo..hi]) == multiset(t[lo..hi])
    && (forall k :: 0 <= k < lo || hi <= k < |s| ==> s[k] == t[k])
  }

  function Swapped<T>(s: seq<T>, i: nat, j: nat): (t: seq<T>)
    requires i < |s| && j < |s|
    ensures |t| == |s|
  {
    s[i := s[j]][j := s[i]]
  }

  lemma ShuffledSelf<T>(s: seq<T>, lo: nat, hi: nat)
    requires lo <= hi <= |s|
    ensures Shuffled(s, s, lo, hi)
  {
  }

  lemma ShuffledTrans<T>(s: seq<T>, t: seq<T>, u: seq<T>, lo: nat, hi: nat)
    requires Shuffled(s, t, lo, hi) && Shuffled(t, u, lo, hi)
    ensures Shuffled(s, u, lo, hi)
  {
  }

  lemma ShuffledSwap<T>(s: seq<T>, i: nat, j: nat, lo: nat, hi: nat)
    requires lo <= i < hi <= |s| && lo <= j < hi
    ensures Shuffled(s, Swapped(s, i, j), lo, hi)
  {
    var m := s[lo..hi];
    assert Swapped(s, i, j)[lo..hi] == m[i - lo := m[j - lo]][j - lo := m[i - lo]];
  }

  /** A rearrangement of a part is one of the whole. */
  lemma ShuffledWider<T>(s: seq<T>, t: seq<T>, lo: nat, hi: nat, lo': nat, hi': nat)
    requires Shuffled(s, t, lo, hi) && lo' <= lo && hi <= hi' <= |s|
    ensures Shuffled(s, t, lo', hi')
  {
    ThreeParts(s, lo', lo, hi, hi');
    ThreeParts(t, lo', lo, hi, hi');
    assert s[lo'..lo] == t[lo'..lo] && s[hi..hi'] == t[hi..hi'];
  }

  lemma ThreeParts<T>(s: seq<T>, a: nat, b: nat, c: nat, d: nat)
    requires a <= b <= c <= d <= |s|
    ensures s[a..d] == s[a..b] + s[b..c] + s[c..d]
  {
  }

  /** An element of a rearranged stretch was in it before. */
  lemma ShuffledFrom<T>(s: seq<T>, t: seq<T>, lo: nat, hi: nat, k: nat) returns (j: nat)
    requires Shuffled(s, t, lo, hi) && lo <= k < hi
    ensures lo <= j < hi && s[j] == t[k]
  {
    assert t[lo..hi][k - lo] in multiset(t[lo..hi]);
    assert t[k] in s[lo..hi];
    var i :| 0 <= i < |s[lo..hi]| && s[lo..hi][i] == t[k];
    j := lo + i;
  }

  // ----- exchanges

  method Exchange<T>(a: array<T>, i: nat, j: nat)
    requires i < a.Length && j < a.Length
    modifies a
    ensures a[..] == Swapped(old(a[..]), i, j)
  {
    a[i], a[j] := a[j], a[i];
  }

  /** The same inside a stretch of which `orig` is the original order. */
  method ExchangeIn<T>(a: array<T>, i: nat, j: nat, ghost lo: nat, ghost hi: nat, ghost orig: seq<T>)
    requires lo <= i < hi <= a.Length && lo <= j < hi && Shuffled(orig, a[..], lo, hi)
    modifies a
    ensures a[..] == Swapped(old(a[..]), i, j) && Shuffled(orig, a[..], lo, hi)
  {
    hide Shuffled;
    ShuffledSwap(a[..], i, j, lo, hi);
    Exchange(a, i, j);
    ShuffledTrans(orig, old(a[..]), a[..], lo, hi);
  }

  /** The first `m` elements of the blocks at `i` and `j` have changed places. */
  ghost predicate Crossed<T>(s: seq<T>, t: seq<T>, i: nat, j: nat, m: nat) {
    && |s| == |t| && i + m <= j && j + m <= |s|
    && (forall k :: i <= k < i + m ==> t[k] == s[k + (j - i)])
    && (forall k :: j <= k < j + m ==> t[k] == s[k - (j - i)])
    && (forall k :: 0 <= k < |s| && !(i <= k < i + m) && !(j <= k < j + m) ==> t[k] == s[k])
  }

  lemma CrossedStep<T>(s: seq<T>, t: seq<T>, i: nat, j: nat, m: nat)
    requires Crossed(s, t, i, j, m) && i + m < j && j + m < |s|
    ensures Crossed(s, Swapped(t, i + m, j + m), i, j, m + 1)
  {
  }

  lemma CrossedNone<T>(s: seq<T>, i: nat, j: nat)
    requires i <= j <= |s|
    ensures Crossed(s, s, i, j, 0)
  {
  }

  /** The exchange of two blocks of `n` elements that do not overlap. */
  method ExchangeBlocks<T>(a: array<T>, i: nat, j: nat, n: nat, ghost lo: nat, ghost hi: nat)
    requires lo <= i && i + n <= j && j + n <= hi <= a.Length
    modifies a
    ensures Shuffled(old(a[..]), a[..], lo, hi) && Crossed(old(a[..]), a[..], i, j, n)
  {
    hide Shuffled, Crossed, Swapped;
    ShuffledSelf(a[..], lo, hi);
    CrossedNone(a[..], i, j);
    var m := 0;
    while m < n
      invariant 0 <= m <= n && Shuffled(old(a[..]), a[..], lo, hi) && Crossed(old(a[..]), a[..], i, j, m)
    {
      ghost var s := a[..];
      CrossedStep(old(a[..]), s, i, j, m);
      ExchangeIn(a, i + m, j + m, lo, hi, old(a[..]));
      m := m + 1;
    }
  }

  // ----- med3

  function Med3<T(!new)>(s: seq<T>, a: nat, b: nat, c: nat, cmp: Cmp<T>): (m: nat)
    requires a < |s| && b < |s| && c < |s|
    ensures m == a || m == b || m == c
  {
    if cmp(s[a], s[b]) < 0 then
      if cmp(s[b], s[c]) < 0 then b else if cmp(s[a], s[c]) < 0 then c else a
    else
      if cmp(s[b], s[c]) > 0 then b else if cmp(s[a], s[c]) < 0 then a else c
  }

  function One(b: bool): nat {
    if b then 1 else 0
  }

  /** At most one of the three elements is below the chosen one, at most one above. */
  lemma Med3IsMedian<T(!new)>(s: seq<T>, a: nat, b: nat, c: nat, cmp: Cmp<T>)
    requires a < |s| && b < |s| && c < |s| && TotalPreorder(cmp)
    ensures var m := s[Med3(s, a, b, c, cmp)];
            && One(cmp(s[a], m) < 0) + One(cmp(s[b], m) < 0) + One(cmp(s[c], m) < 0) <= 1
            && One(cmp(s[a], m) > 0) + One(cmp(s[b], m) > 0) + One(cmp(s[c], m) > 0) <= 1
  {
    var x, y, z := s[a], s[b], s[c];
    assert cmp(x, x) == 0 && cmp(y, y) == 0 && cmp(z, z) == 0;
    assert cmp(x, y) < 0 <==> cmp(y, x) > 0;
    assert cmp(y, z) < 0 <==> cmp(z, y) > 0;
    assert cmp(x, z) < 0 <==> cmp(z, x) > 0;
  }

  // ----- heapsortx, on the elements base..base+n-1

  ghost predicate Below<T(!new)>(s: seq<T>, base: nat, k: nat, p: nat, cmp: Cmp<T>)
    requires base + k < |s| && base + p < |s|
  {
    cmp(s[base + k], s[base + p]) <= 0
  }

  /** No element whose parent is number `from` or later, and not number `r`, is above its parent. */
  ghost predicate HeapBut<T(!new)>(s: seq<T>, base: nat, from: nat, n: nat, r: int, cmp: Cmp<T>)
    requires base + n <= |s|
  {
    forall k: nat, p: nat :: 1 <= k < n && p == (k - 1) / 2 && p >= from && p != r ==> Below(s, base, k, p, cmp)
  }

  /** The children of `r` are not above the parent of `r`. */
  ghost predicate Bypass<T(!new)>(s: seq<T>, base: nat, from: nat, n: nat, r: nat, cmp: Cmp<T>)
    requires base + n <= |s|
  {
    forall k: nat, p: nat :: 1 <= k < n && r == (k - 1) / 2 && r >= 1 && p == (r - 1) / 2 && p >= from ==> Below(s, base, k, p, cmp)
  }

  lemma SiftSwap<T(!new)>(s: seq<T>, base: nat, from: nat, n: nat, r: nat, c: nat, cmp: Cmp<T>)
    requires base + n <= |s|
    requires HeapBut(s, base, from, n, r, cmp) && Bypass(s, base, from, n, r, cmp)
    requires r < n && c < n && (c == 2 * r + 1 || c == 2 * r + 2) && from <= r
    requires forall k :: 1 <= k < n && (k - 1) / 2 == r ==> Below(s, base, k, c, cmp)
    requires Below(s, base, r, c, cmp)
    ensures HeapBut(Swapped(s, base + r, base + c), base, from, n, c, cmp)
  {
    var t := Swapped(s, base + r, base + c);
    forall k: nat, p: nat | 1 <= k < n && p == (k - 1) / 2 && p >= from && p != c ensures Below(t, base, k, p, cmp) {
      if p == r {
        assert Below(s, base, k, c, cmp);
      } else if k == r {
        assert Below(s, base, c, p, cmp);
      } else {
        assert Below(s, base, k, p, cmp);
      }
    }
  }

  lemma SiftBypass<T(!new)>(s: seq<T>, base: nat, from: nat, n: nat, r: nat, c: nat, cmp: Cmp<T>)
    requires base + n <= |s| && HeapBut(s, base, from, n, r, cmp)
    requires r < n && c < n && (c == 2 * r + 1 || c == 2 * r + 2) && from <= r
    ensures Bypass(Swapped(s, base + r, base + c), base, from, n, c, cmp)
  {
    var t := Swapped(s, base + r, base + c);
    forall k: nat, p: nat | 1 <= k < n && c == (k - 1) / 2 && p == (c - 1) / 2 && p >= from ensures Below(t, base, k, p, cmp) {
      assert p == r && Below(s, base, k, c, cmp);
    }
  }

  lemma SiftStop<T(!new)>(s: seq<T>, base: nat, from: nat, n: nat, r: nat, cmp: Cmp<T>)
    requires base + n <= |s| && HeapBut(s, base, from, n, r, cmp) && r < n
    requires forall k :: 1 <= k < n && (k - 1) / 2 == r ==> Below(s, base, k, r, cmp)
    ensures HeapBut(s, base, from, n, -1, cmp)
  {
  }

  /** The larger child, and with it the other one, against their parent. */
  lemma Children<T(!new)>(s: seq<T>, base: nat, n: nat, r: nat, c: nat, cmp: Cmp<T>)
    requires base + n <= |s| && TotalPreorder(cmp) && 2 * r + 1 < n
    requires c == if 2 * r + 1 < n - 1 && cmp(s[base + 2 * r + 1], s[base + 2 * r + 2]) <= 0 then 2 * r + 2 else 2 * r + 1
    ensures c < n && forall k :: 1 <= k < n && (k - 1) / 2 == r ==> Below(s, base, k, c, cmp)
    ensures cmp(s[base + r], s[base + c]) > 0 ==> forall k :: 1 <= k < n && (k - 1) / 2 == r ==> Below(s, base, k, r, cmp)
  {
    assert cmp(s[base + c], s[base + c]) == 0;
    forall k | 1 <= k < n && (k - 1) / 2 == r
      ensures Below(s, base, k, c, cmp)
      ensures cmp(s[base + r], s[base + c]) > 0 ==> Below(s, base, k, r, cmp)
    {
      assert k == 2 * r + 1 || k == 2 * r + 2;
      assert cmp(s[base + k], s[base + c]) <= 0;
    }
  }

  function LargerChild<T(!new)>(s: seq<T>, base: nat, n: nat, r: nat, cmp: Cmp<T>): (c: nat)
    requires base + n <= |s| && 2 * r + 1 < n
    ensures r < c < n
  {
    if 2 * r + 1 < n - 1 && cmp(s[base + 2 * r + 1], s[base + 2 * r + 2]) <= 0 then 2 * r + 2 else 2 * r + 1
  }

  lemma SiftStep<T(!new)>(s: seq<T>, base: nat, from: nat, n: nat, r: nat, cmp: Cmp<T>)
    requires base + n <= |s| && TotalPreorder(cmp) && from <= r < n && 2 * r + 1 < n
    requires HeapBut(s, base, from, n, r, cmp) && Bypass(s, base, from, n, r, cmp)
    ensures var c := LargerChild(s, base, n, r, cmp);
            var t := Swapped(s, base + r, base + c);
            if cmp(s[base + r], s[base + c]) > 0 then HeapBut(s, base, from, n, -1, cmp)
            else HeapBut(t, base, from, n, c, cmp) && Bypass(t, base, from, n, c, cmp)
  {
    hide HeapBut, Bypass, TotalPreorder, Swapped;
    var c := LargerChild(s, base, n, r, cmp);
    Children(s, base, n, r, c, cmp);
    if cmp(s[base + r], s[base + c]) > 0 {
      SiftStop(s, base, from, n, r, cmp);
    } else {
      SiftSwap(s, base, from, n, r, c, cmp);
      SiftBypass(s, base, from, n, r, c, cmp);
    }
  }

  /** The same, for a comparison that may be no order at all. */
  lemma SiftStepIf<T(!new)>(ok: bool, s: seq<T>, base: nat, from: nat, n: nat, r: nat, cmp: Cmp<T>)
    requires base + n <= |s| && from <= r < n && 2 * r + 1 < n
    requires ok ==> TotalPreorder(cmp) && HeapBut(s, base, from, n, r, cmp) && Bypass(s, base, from, n, r, cmp)
    ensures var c := LargerChild(s, base, n, r, cmp);
            var t := Swapped(s, base + r, base + c);
            ok ==> if cmp(s[base + r], s[base + c]) > 0 then HeapBut(s, base, from, n, -1, cmp)
                   else HeapBut(t, base, from, n, c, cmp) && Bypass(t, base, from, n, c, cmp)
  {
    hide HeapBut, Bypass, TotalPreorder, Swapped;
    if ok { SiftStep(s, base, from, n, r, cmp); }
  }

  lemma SiftLeaf<T(!new)>(s: seq<T>, base: nat, from: nat, n: nat, r: nat, cmp: Cmp<T>)
    requires base + n <= |s| && r < n <= 2 * r + 1
    ensures HeapBut(s, base, from, n, r, cmp) ==> HeapBut(s, base, from, n, -1, cmp)
  {
  }

  lemma SiftStart<T(!new)>(s: seq<T>, base: nat, start: nat, n: nat, cmp: Cmp<T>)
    requires base + n <= |s|
    ensures Bypass(s, base, start, n, start, cmp)
  {
  }

  /** Let the element at `start` sink to its place. */
  method Sift<T(!new)>(a: array<T>, base: nat, start: nat, n: nat, cmp: Cmp<T>)
    requires base + n <= a.Length && start < n
    modifies a
    ensures Shuffled(old(a[..]), a[..], base, base + n)
    ensures TotalPreorder(cmp) && HeapBut(old(a[..]), base, start, n, start, cmp) ==> HeapBut(a[..], base, start, n, -1, cmp)
  {
    hide Shuffled, TotalPreorder, HeapBut, Bypass, Swapped;
    ghost var ok := TotalPreorder(cmp) && HeapBut(a[..], base, start, n, start, cmp);
    ShuffledSelf(a[..], base, base + n);
    SiftStart(a[..], base, start, n, cmp);
    var r := start;
    var c := 2 * r + 1;
    while c < n
      invariant start <= r < n && c == 2 * r + 1
      invariant Shuffled(old(a[..]), a[..], base, base + n)
      invariant ok ==> HeapBut(a[..], base, start, n, r, cmp) && Bypass(a[..], base, start, n, r, cmp)
      decreases n - r
    {
      ghost var s := a[..];
      if c < n - 1 && cmp(a[base + c], a[base + c + 1]) <= 0 {
        c := c + 1;
      }
      assert c == LargerChild(s, base, n, r, cmp);
      SiftStepIf(ok, s, base, start, n, r, cmp);
      if cmp(a[base + r], a[base + c]) > 0 {
        return;
      }
      ExchangeIn(a, base + r, base + c, base, base + n, old(a[..]));
      r := c;
      c := 2 * r + 1;
    }
    SiftLeaf(a[..], base, start, n, r, cmp);
  }

  lemma {:induction false} HeapMax<T(!new)>(s: seq<T>, base: nat, n: nat, k: nat, cmp: Cmp<T>)
    requires base + n <= |s| && TotalPreorder(cmp) && HeapBut(s, base, 0, n, -1, cmp) && k < n
    ensures cmp(s[base + k], s[base]) <= 0
  {
    if k == 0 {
      assert cmp(s[base], s[base]) == 0;
    } else {
      assert Below(s, base, k, (k - 1) / 2, cmp);
      HeapMax(s, base, n, (k - 1) / 2, cmp);
    }
  }

  /** From number `i` on, every element is in its place. */
  ghost predicate PlacedFrom<T(!new)>(s: seq<T>, base: nat, i: nat, n: nat, cmp: Cmp<T>)
    requires base + n <= |s|
  {
    forall j, k :: base <= j < k < base + n && base + i <= k ==> cmp(s[j], s[k]) <= 0
  }

  lemma PlacedKept<T(!new)>(s: seq<T>, t: seq<T>, base: nat, i: nat, n: nat, cmp: Cmp<T>)
    requires base + n <= |s| && i <= n && PlacedFrom(s, base, i, n, cmp) && Shuffled(s, t, base, base + i)
    ensures |t| == |s| && PlacedFrom(t, base, i, n, cmp)
  {
    forall j, k | base <= j < k < base + n && base + i <= k ensures cmp(t[j], t[k]) <= 0 {
      if j < base + i {
        var j' := ShuffledFrom(s, t, base, base + i, j);
        assert cmp(s[j'], s[k]) <= 0;
      } else {
        assert cmp(s[j], s[k]) <= 0;
      }
    }
  }

  /** The root of the heap goes behind the rest of the heap. */
  lemma RootPlaced<T(!new)>(s: seq<T>, base: nat, i: nat, n: nat, cmp: Cmp<T>)
    requires base + n <= |s| && 1 <= i < n && TotalPreorder(cmp)
    requires HeapBut(s, base, 0, i + 1, -1, cmp) && PlacedFrom(s, base, i + 1, n, cmp)
    ensures PlacedFrom(Swapped(s, base, base + i), base, i, n, cmp)
  {
    var t := Swapped(s, base, base + i);
    forall j, k | base <= j < k < base + n && base + i <= k ensures cmp(t[j], t[k]) <= 0 {
      var j' := if j == base then base + i else if j == base + i then base else j;
      if k == base + i {
        hide HeapBut, TotalPreorder;
        HeapMax(s, base, i + 1, j' - base, cmp);
      } else {
        assert cmp(s[j'], s[k]) <= 0;
      }
    }
  }

  lemma RootGone<T(!new)>(s: seq<T>, base: nat, i: nat, cmp: Cmp<T>)
    requires base + i < |s| && 1 <= i && HeapBut(s, base, 0, i + 1, -1, cmp)
    ensures HeapBut(Swapped(s, base, base + i), base, 0, i, 0, cmp)
  {
    var t := Swapped(s, base, base + i);
    forall k: nat, p: nat | 1 <= k < i && p == (k - 1) / 2 && p != 0 ensures Below(t, base, k, p, cmp) {
      assert Below(s, base, k, p, cmp);
    }
  }

  /** The first loop of heapsortx. */
  method BuildHeap<T(!new)>(a: array<T>, base: nat, n: nat, cmp: Cmp<T>)
    requires base + n <= a.Length
    modifies a
    ensures Shuffled(old(a[..]), a[..], base, base + n)
    ensures TotalPreorder(cmp) ==> HeapBut(a[..], base, 0, n, -1, cmp)
  {
    hide Shuffled, TotalPreorder, HeapBut;
    ShuffledSelf(a[..], base, base + n);
    var i := n / 2;
    HeapNone(a[..], base, i, n, cmp);
    while i > 0
      invariant 0 <= i <= n / 2 && Shuffled(old(a[..]), a[..], base, base + n)
      invariant TotalPreorder(cmp) ==> HeapBut(a[..], base, i, n, -1, cmp)
    {
      i := i - 1;
      ghost var s := a[..];
      HeapMore(s, base, i, n, cmp);
      Sift(a, base, i, n, cmp);
      ShuffledTrans(old(a[..]), s, a[..], base, base + n);
    }
  }

  lemma HeapNone<T(!new)>(s: seq<T>, base: nat, i: nat, n: nat, cmp: Cmp<T>)
    requires base + n <= |s| && i == n / 2
    ensures HeapBut(s, base, i, n, -1, cmp)
  {
  }

  lemma HeapMore<T(!new)>(s: seq<T>, base: nat, i: nat, n: nat, cmp: Cmp<T>)
    requires base + n <= |s|
    ensures HeapBut(s, base, i + 1, n, -1, cmp) ==> HeapBut(s, base, i, n, i, cmp)
  {
  }

  method HeapSort<T(!new)>(a: array<T>, base: nat, n: nat, cmp: Cmp<T>)
    requires base + n <= a.Length
    modifies a
    ensures Shuffled(old(a[..]), a[..], base, base + n)
    ensures TotalPreorder(cmp) ==> PlacedFrom(a[..], base, 0, n, cmp)
  {
    hide Shuffled, TotalPreorder, HeapBut, PlacedFrom, Swapped;
    ShuffledSelf(a[..], base, base + n);
    AllPlaced(a[..], base, n, cmp);
    if n > 1 {
      BuildHeap(a, base, n, cmp);
      var i := n - 1;
      NonePlaced(a[..], base, n, cmp);
      while i > 0
        invariant 0 <= i < n && Shuffled(old(a[..]), a[..], base, base + n)
        invariant TotalPreorder(cmp) ==> HeapBut(a[..], base, 0, i + 1, -1, cmp) && PlacedFrom(a[..], base, i + 1, n, cmp)
      {
        HeapStep(a, base, i, n, cmp, old(a[..]));
        i := i - 1;
      }
      AllPlaced(a[..], base, n, cmp);
    }
  }

  lemma RootPlacedIf<T(!new)>(ok: bool, s: seq<T>, base: nat, i: nat, n: nat, cmp: Cmp<T>)
    requires base + n <= |s| && 1 <= i < n
    requires ok ==> TotalPreorder(cmp) && HeapBut(s, base, 0, i + 1, -1, cmp) && PlacedFrom(s, base, i + 1, n, cmp)
    ensures var t := Swapped(s, base, base + i); ok ==> PlacedFrom(t, base, i, n, cmp) && HeapBut(t, base, 0, i, 0, cmp)
  {
    hide HeapBut, PlacedFrom, TotalPreorder, Swapped;
    if ok {
      RootPlaced(s, base, i, n, cmp);
      RootGone(s, base, i, cmp);
    }
  }

  lemma PlacedKeptIf<T(!new)>(ok: bool, s: seq<T>, t: seq<T>, base: nat, i: nat, n: nat, cmp: Cmp<T>)
    requires base + n <= |s| && i <= n && (ok ==> PlacedFrom(s, base, i, n, cmp)) && Shuffled(s, t, base, base + i)
    ensures |t| == |s| && (ok ==> PlacedFrom(t, base, i, n, cmp))
  {
    if ok { PlacedKept(s, t, base, i, n, cmp); }
  }

  /** The largest element leaves the heap. */
  method HeapStep<T(!new)>(a: array<T>, base: nat, i: nat, n: nat, cmp: Cmp<T>, ghost orig: seq<T>)
    requires base + n <= a.Length && 1 <= i < n && Shuffled(orig, a[..], base, base + n)
    requires TotalPreorder(cmp) ==> HeapBut(a[..], base, 0, i + 1, -1, cmp) && PlacedFrom(a[..], base, i + 1, n, cmp)
    modifies a
    ensures Shuffled(orig, a[..], base, base + n)
    ensures TotalPreorder(cmp) ==> HeapBut(a[..], base, 0, i, -1, cmp) && PlacedFrom(a[..], base, i, n, cmp)
  {
    hide Shuffled, TotalPreorder, HeapBut, PlacedFrom, Swapped;
    ghost var s := a[..];
    RootPlacedIf(TotalPreorder(cmp), s, base, i, n, cmp);
    ExchangeIn(a, base, base + i, base, base + n, orig);
    SiftRoot(a, base, i, n, cmp, orig);
  }

  method SiftRoot<T(!new)>(a: array<T>, base: nat, i: nat, n: nat, cmp: Cmp<T>, ghost orig: seq<T>)
    requires base + n <= a.Length && 1 <= i < n && Shuffled(orig, a[..], base, base + n)
    requires TotalPreorder(cmp) ==> HeapBut(a[..], base, 0, i, 0, cmp) && PlacedFrom(a[..], base, i, n, cmp)
    modifies a
    ensures Shuffled(orig, a[..], base, base + n)
    ensures TotalPreorder(cmp) ==> HeapBut(a[..], base, 0, i, -1, cmp) && PlacedFrom(a[..], base, i, n, cmp)
  {
    hide Shuffled, TotalPreorder, HeapBut, PlacedFrom, Swapped;
    ghost var t := a[..];
    Sift(a, base, 0, i, cmp);
    ShuffledWider(t, a[..], base, base + i, base, base + n);
    ShuffledTrans(orig, t, a[..], base, base + n);
    PlacedKeptIf(TotalPreorder(cmp), t, a[..], base, i, n, cmp);
  }

  lemma NonePlaced<T(!new)>(s: seq<T>, base: nat, n: nat, cmp: Cmp<T>)
    requires base + n <= |s|
    ensures PlacedFrom(s, base, n, n, cmp)
  {
  }

  lemma AllPlaced<T(!new)>(s: seq<T>, base: nat, n: nat, cmp: Cmp<T>)
    requires base + n <= |s|
    ensures PlacedFrom(s, base, 1, n, cmp) || n <= 1 ==> PlacedFrom(s, base, 0, n, cmp)
  {
  }

  // ----- insertion sort, on the elements base..base+n-1

  /** The elements base..end-1 are in order, but for what stands in front of `hole`. */
  ghost predicate InOrderBut<T(!new)>(s: seq<T>, base: nat, end: nat, hole: int, cmp: Cmp<T>) {
    end <= |s| && forall j, k :: base <= j < k < end && k != hole ==> cmp(s[j], s[k]) <= 0
  }

  lemma InsertStep<T(!new)>(ok: bool, s: seq<T>, base: nat, pi: nat, pj: nat, cmp: Cmp<T>)
    requires base < pj <= pi < |s| && cmp(s[pj - 1], s[pj]) > 0
    requires ok ==> TotalPreorder(cmp) && InOrderBut(s, base, pi + 1, pj, cmp)
    ensures ok ==> InOrderBut(Swapped(s, pj, pj - 1), base, pi + 1, pj - 1, cmp)
  {
    var t := Swapped(s, pj, pj - 1);
    if ok {
      forall j, k | base <= j < k < pi + 1 && k != pj - 1 ensures cmp(t[j], t[k]) <= 0 {
        if k != pj {
          assert cmp(s[if j == pj then pj - 1 else if j == pj - 1 then pj else j], s[k]) <= 0;
        } else if j < pj - 1 {
          assert cmp(s[j], s[pj - 1]) <= 0;
        }
      }
    }
  }

  lemma InsertDone<T(!new)>(ok: bool, s: seq<T>, base: nat, pi: nat, pj: nat, cmp: Cmp<T>)
    requires base <= pj <= pi < |s| && (pj > base ==> cmp(s[pj - 1], s[pj]) <= 0)
    requires ok ==> TotalPreorder(cmp) && InOrderBut(s, base, pi + 1, pj, cmp)
    ensures ok ==> InOrderBut(s, base, pi + 1, -1, cmp)
  {
    if ok {
      forall j, k | base <= j < k < pi + 1 ensures cmp(s[j], s[k]) <= 0 {
        if k == pj && j < pj - 1 {
          assert cmp(s[j], s[pj - 1]) <= 0;
        }
      }
    }
  }

  lemma InsertStart<T(!new)>(s: seq<T>, base: nat, pi: nat, cmp: Cmp<T>)
    requires pi < |s|
    ensures InOrderBut(s, base, pi, -1, cmp) ==> InOrderBut(s, base, pi + 1, pi, cmp)
    ensures pi == base + 1 ==> InOrderBut(s, base, pi, -1, cmp)
  {
  }

  lemma InOrderPlaced<T(!new)>(s: seq<T>, base: nat, n: nat, cmp: Cmp<T>)
    requires base + n <= |s|
    ensures n <= 1 || InOrderBut(s, base, base + n, -1, cmp) ==> PlacedFrom(s, base, 0, n, cmp)
  {
  }

  method InsertionSort<T(!new)>(a: array<T>, base: nat, n: nat, cmp: Cmp<T>)
    requires base + n <= a.Length
    modifies a
    ensures Shuffled(old(a[..]), a[..], base, base + n)
    ensures TotalPreorder(cmp) ==> PlacedFrom(a[..], base, 0, n, cmp)
  {
    hide Shuffled, TotalPreorder, InOrderBut, PlacedFrom, Swapped;
    ShuffledSelf(a[..], base, base + n);
    var pi := base + 1;
    if pi < base + n { InsertStart(a[..], base, pi, cmp); }
    while pi < base + n
      invariant base < pi && Shuffled(old(a[..]), a[..], base, base + n)
      invariant if pi < base + n then TotalPreorder(cmp) ==> InOrderBut(a[..], base, pi, -1, cmp)
                else n <= 1 || (TotalPreorder(cmp) ==> InOrderBut(a[..], base, base + n, -1, cmp))
    {
      Insert(a, base, pi, n, cmp, old(a[..]));
      pi := pi + 1;
    }
    InOrderPlaced(a[..], base, n, cmp);
  }

  /** One element moves down to its place among the ones in front of it. */
  method Insert<T(!new)>(a: array<T>, base: nat, pi: nat, n: nat, cmp: Cmp<T>, ghost orig: seq<T>)
    requires base < pi < base + n <= a.Length && Shuffled(orig, a[..], base, base + n)
    requires TotalPreorder(cmp) ==> InOrderBut(a[..], base, pi, -1, cmp)
    modifies a
    ensures Shuffled(orig, a[..], base, base + n)
    ensures TotalPreorder(cmp) ==> InOrderBut(a[..], base, pi + 1, -1, cmp)
  {
    hide Shuffled, TotalPreorder, InOrderBut, Swapped;
    InsertStart(a[..], base, pi, cmp);
    var pj := pi;
    while pj > base && cmp(a[pj - 1], a[pj]) > 0
      invariant base <= pj <= pi && Shuffled(orig, a[..], base, base + n)
      invariant TotalPreorder(cmp) ==> InOrderBut(a[..], base, pi + 1, pj, cmp)
    {
      ghost var s := a[..];
      InsertStep(TotalPreorder(cmp), s, base, pi, pj, cmp);
      ExchangeIn(a, pj, pj - 1, base, base + n, orig);
      pj := pj - 1;
    }
    InsertDone(TotalPreorder(cmp), a[..], base, pi, pj, cmp);
  }

  // ----- the partition of base..base+n-1 around a pivot

  /** From the left: the pivot and elements equal to it, smaller ones, unseen ones, greater ones, equal ones. */
  ghost predicate Four<T(!new)>(s: seq<T>, base: nat, plt: nat, pi: nat, pj: nat, pgt: nat, top: nat, v: T, cmp: Cmp<T>) {
    && base < plt <= pi <= pj <= pgt <= top <= |s|
    && s[base] == v
    && (forall k :: base < k < plt ==> cmp(v, s[k]) == 0)
    && (forall k :: plt <= k < pi ==> cmp(v, s[k]) > 0)
    && (forall k :: pj <= k < pgt ==> cmp(v, s[k]) < 0)
    && (forall k :: pgt <= k < top ==> cmp(v, s[k]) == 0)
  }

  lemma FourStart<T(!new)>(s: seq<T>, base: nat, top: nat, cmp: Cmp<T>)
    requires base < top <= |s|
    ensures Four(s, base, base + 1, base + 1, top, top, top, s[base], cmp)
  {
  }

  lemma FourLeft<T(!new)>(s: seq<T>, base: nat, plt: nat, pi: nat, pj: nat, pgt: nat, top: nat, v: T, cmp: Cmp<T>)
    requires Four(s, base, plt, pi, pj, pgt, top, v, cmp) && pi < pj && cmp(v, s[pi]) >= 0
    ensures cmp(v, s[pi]) > 0 ==> Four(s, base, plt, pi + 1, pj, pgt, top, v, cmp)
    ensures cmp(v, s[pi]) == 0 ==> Four(Swapped(s, plt, pi), base, plt + 1, pi + 1, pj, pgt, top, v, cmp)
  {
  }

  lemma FourRight<T(!new)>(s: seq<T>, base: nat, plt: nat, pi: nat, pj: nat, pgt: nat, top: nat, v: T, cmp: Cmp<T>)
    requires Four(s, base, plt, pi, pj + 1, pgt, top, v, cmp) && pi <= pj && cmp(v, s[pj]) <= 0
    ensures cmp(v, s[pj]) < 0 ==> Four(s, base, plt, pi, pj, pgt, top, v, cmp)
    ensures cmp(v, s[pj]) == 0 ==> Four(Swapped(s, pgt - 1, pj), base, plt, pi, pj, pgt - 1, top, v, cmp)
  {
  }

  lemma FourCross<T(!new)>(s: seq<T>, base: nat, plt: nat, pi: nat, pj: nat, pgt: nat, top: nat, v: T, cmp: Cmp<T>)
    requires Four(s, base, plt, pi, pj + 1, pgt, top, v, cmp) && pi < pj && cmp(v, s[pi]) < 0 && cmp(v, s[pj]) > 0
    ensures Four(Swapped(s, pi, pj), base, plt, pi + 1, pj, pgt, top, v, cmp)
  {
  }

  lemma FourBounds<T(!new)>(s: seq<T>, base: nat, plt: nat, pi: nat, pj: nat, pgt: nat, top: nat, v: T, cmp: Cmp<T>)
    requires Four(s, base, plt, pi, pj, pgt, top, v, cmp)
    ensures base < plt <= pi <= pj <= pgt <= top <= |s| && s[base] == v
  {
  }

  /** The first scan: up to an element greater than the pivot. */
  method ScanUp<T(!new)>(a: array<T>, base: nat, plt0: nat, pi0: nat, pj: nat, ghost pgt: nat, top: nat, cmp: Cmp<T>, ghost v: T, ghost orig: seq<T>)
    returns (plt: nat, pi: nat)
    requires Four(a[..], base, plt0, pi0, pj, pgt, top, v, cmp) && Shuffled(orig, a[..], base, top)
    modifies a
    ensures Four(a[..], base, plt, pi, pj, pgt, top, v, cmp) && Shuffled(orig, a[..], base, top)
    ensures pi0 <= pi && (pi < pj ==> cmp(v, a[pi]) < 0)
  {
    hide Four, Shuffled, Swapped;
    FourBounds(a[..], base, plt0, pi0, pj, pgt, top, v, cmp);
    plt, pi := plt0, pi0;
    while pi < pj && cmp(a[base], a[pi]) >= 0
      invariant pi0 <= pi && base < plt <= pi <= pj <= top <= a.Length && a[base] == v
      invariant Four(a[..], base, plt, pi, pj, pgt, top, v, cmp) && Shuffled(orig, a[..], base, top)
    {
      ghost var s := a[..];
      FourLeft(s, base, plt, pi, pj, pgt, top, v, cmp);
      if cmp(a[base], a[pi]) == 0 {
        ExchangeIn(a, plt, pi, base, top, orig);
        plt := plt + 1;
      }
      pi := pi + 1;
      FourBounds(a[..], base, plt, pi, pj, pgt, top, v, cmp);
    }
  }

  /** The second scan: down to an element smaller than the pivot, or until the scans meet. */
  method ScanDown<T(!new)>(a: array<T>, base: nat, ghost plt: nat, pi: nat, pj0: nat, pgt0: nat, top: nat, cmp: Cmp<T>, ghost v: T, ghost orig: seq<T>)
    returns (pj: nat, pgt: nat)
    requires Four(a[..], base, plt, pi, pj0, pgt0, top, v, cmp) && Shuffled(orig, a[..], base, top)
    requires pi < pj0 ==> cmp(v, a[pi]) < 0
    modifies a
    ensures pj < pj0 && Shuffled(orig, a[..], base, top)
    ensures if pi < pj then Four(a[..], base, plt, pi, pj + 1, pgt, top, v, cmp) && cmp(v, a[pi]) < 0 && cmp(v, a[pj]) > 0
            else Four(a[..], base, plt, pi, pi, pgt, top, v, cmp)
  {
    hide Four, Shuffled, Swapped;
    FourBounds(a[..], base, plt, pi, pj0, pgt0, top, v, cmp);
    pj, pgt := pj0 - 1, pgt0;
    while pi < pj && cmp(a[base], a[pj]) <= 0
      invariant base < pi <= pj + 1 <= pgt <= top <= a.Length && a[base] == v && pj < pj0
      invariant pi <= pj ==> cmp(v, a[pi]) < 0
      invariant Four(a[..], base, plt, pi, pj + 1, pgt, top, v, cmp) && Shuffled(orig, a[..], base, top)
      decreases pj
    {
      ghost var s := a[..];
      FourRight(s, base, plt, pi, pj, pgt, top, v, cmp);
      if cmp(a[base], a[pj]) == 0 {
        pgt := pgt - 1;
        ExchangeIn(a, pgt, pj, base, top, orig);
        SwappedElsewhere(s, pgt, pj);
      }
      pj := pj - 1;
      FourBounds(a[..], base, plt, pi, pj + 1, pgt, top, v, cmp);
    }
    if pi == pj {
      FourRight(a[..], base, plt, pi, pj, pgt, top, v, cmp);
    }
  }

  lemma SwappedElsewhere<T>(s: seq<T>, i: nat, j: nat)
    requires i < |s| && j < |s|
    ensures forall k :: 0 <= k < |s| && k != i && k != j ==> Swapped(s, i, j)[k] == s[k]
  {
  }

  /** Both scans, until they meet. The pivot is at `base`. */
  method Scan<T(!new)>(a: array<T>, base: nat, n: nat, cmp: Cmp<T>, ghost orig: seq<T>) returns (plt: nat, pi: nat, pgt: nat)
    requires n >= 2 && base + n <= a.Length && Shuffled(orig, a[..], base, base + n)
    modifies a
    ensures Four(a[..], base, plt, pi, pi, pgt, base + n, old(a[base]), cmp) && Shuffled(orig, a[..], base, base + n)
  {
    hide Four, Shuffled, Swapped;
    ghost var v := a[base];
    var top := base + n;
    plt, pi, pgt := base + 1, base + 1, top;
    var pj := top;
    FourStart(a[..], base, top, cmp);
    while true
      invariant Four(a[..], base, plt, pi, pj, pgt, top, v, cmp) && Shuffled(orig, a[..], base, top)
      decreases pj
    {
      plt, pi := ScanUp(a, base, plt, pi, pj, pgt, top, cmp, v, orig);
      pj, pgt := ScanDown(a, base, plt, pi, pj, pgt, top, cmp, v, orig);
      if pi >= pj {
        break;
      }
      ghost var s := a[..];
      FourBounds(s, base, plt, pi, pj + 1, pgt, top, v, cmp);
      FourCross(s, base, plt, pi, pj, pgt, top, v, cmp);
      ExchangeIn(a, pi, pj, base, top, orig);
      pi := pi + 1;
    }
  }

  /** Smaller elements, elements equal to the pivot, greater ones. */
  ghost predicate Three<T(!new)>(s: seq<T>, base: nat, lt: nat, gt: nat, n: nat, v: T, cmp: Cmp<T>) {
    && lt < gt <= n && base + n <= |s|
    && (forall k :: base <= k < base + lt ==> cmp(v, s[k]) > 0)
    && (forall k :: base + lt <= k < base + gt ==> s[k] == v || cmp(v, s[k]) == 0)
    && (forall k :: base + gt <= k < base + n ==> cmp(v, s[k]) < 0)
  }

  function Min(a: nat, b: nat): nat {
    if a > b then b else a
  }

  lemma FourThree<T(!new)>(s: seq<T>, t: seq<T>, u: seq<T>, base: nat, plt: nat, pi: nat, pgt: nat, top: nat, v: T, cmp: Cmp<T>)
    requires Four(s, base, plt, pi, pi, pgt, top, v, cmp)
    requires var span := Min(plt - base, pi - plt); Crossed(s, t, base, pi - span, span)
    requires var span := Min(top - pgt, pgt - pi); Crossed(t, u, pi, top - span, span)
    ensures Three(u, base, pi - plt, top - base - (pgt - pi), top - base, v, cmp)
  {
    var span := Min(plt - base, pi - plt);
    forall k | base <= k < base + (pi - plt) ensures cmp(v, t[k]) > 0 {
      if k < base + span { assert t[k] == s[k + (pi - span - base)]; } else { assert t[k] == s[k]; }
    }
    forall k | base + (pi - plt) <= k < pi ensures t[k] == v || cmp(v, t[k]) == 0 {
      if k >= pi - span { assert t[k] == s[k - (pi - span - base)]; } else { assert t[k] == s[k]; }
    }
    FourThreeRight(s, t, u, base, plt, pi, pgt, top, v, cmp);
  }

  lemma FourThreeRight<T(!new)>(s: seq<T>, t: seq<T>, u: seq<T>, base: nat, plt: nat, pi: nat, pgt: nat, top: nat, v: T, cmp: Cmp<T>)
    requires Four(s, base, plt, pi, pi, pgt, top, v, cmp)
    requires var span := Min(plt - base, pi - plt); Crossed(s, t, base, pi - span, span)
    requires var span := Min(top - pgt, pgt - pi); Crossed(t, u, pi, top - span, span)
    ensures forall k :: base <= k < pi ==> u[k] == t[k]
    ensures forall k :: pi <= k < top - (pgt - pi) ==> cmp(v, u[k]) == 0
    ensures forall k :: top - (pgt - pi) <= k < top ==> cmp(v, u[k]) < 0
  {
    var span := Min(top - pgt, pgt - pi);
    forall k | pi <= k < top - (pgt - pi) ensures cmp(v, u[k]) == 0 {
      if k < pi + span { assert u[k] == t[k + (top - span - pi)]; } else { assert u[k] == t[k]; }
    }
    forall k | top - (pgt - pi) <= k < top ensures cmp(v, u[k]) < 0 {
      if k >= top - span { assert u[k] == t[k - (top - span - pi)]; } else { assert u[k] == t[k]; }
    }
  }

  /** The elements equal to the pivot move from both ends to the middle. */
  method Gather<T(!new)>(a: array<T>, base: nat, plt: nat, pi: nat, pgt: nat, top: nat, cmp: Cmp<T>, ghost v: T, ghost orig: seq<T>)
    requires Four(a[..], base, plt, pi, pi, pgt, top, v, cmp) && Shuffled(orig, a[..], base, top)
    modifies a
    ensures Shuffled(orig, a[..], base, top)
    ensures base < plt <= pi <= pgt <= top && Three(a[..], base, pi - plt, top - base - (pgt - pi), top - base, v, cmp)
  {
    hide Four, Three, Shuffled, Crossed;
    ghost var s := a[..];
    FourBounds(s, base, plt, pi, pi, pgt, top, v, cmp);
    var span, span2 := plt - base, pi - plt;
    if span > span2 {
      span := span2;
    }
    ExchangeBlocks(a, base, pi - span, span, base, top);
    ghost var t := a[..];
    ShuffledTrans(orig, s, t, base, top);
    span, span2 := top - pgt, pgt - pi;
    if span > span2 {
      span := span2;
    }
    ExchangeBlocks(a, pi, top - span, span, base, top);
    ShuffledTrans(orig, t, a[..], base, top);
    FourThree(s, t, a[..], base, plt, pi, pgt, top, v, cmp);
  }

  method Partition<T(!new)>(a: array<T>, base: nat, n: nat, cmp: Cmp<T>) returns (lt: nat, gt: nat, ghost v: T)
    requires n >= 4 && base + n <= a.Length
    modifies a
    ensures Shuffled(old(a[..]), a[..], base, base + n) && Three(a[..], base, lt, gt, n, v, cmp)
  {
    hide Four, Three, Shuffled, Swapped;
    ghost var orig := a[..];
    ShuffledSelf(orig, base, base + n);
    var m4 := n / 4;
    var m := Med3(a[..], base + m4, base + 2 * m4, base + 3 * m4, cmp);
    ShuffledSwap(orig, base, m, base, base + n);
    Exchange(a, base, m);
    v := a[base];
    var plt, pi, pgt := Scan(a, base, n, cmp, orig);
    FourBounds(a[..], base, plt, pi, pi, pgt, base + n, v, cmp);
    lt, gt := pi - plt, n - (pgt - pi);
    Gather(a, base, plt, pi, pgt, base + n, cmp, v, orig);
  }

  // ----- rqsort

  /** An entry of the explicit stack. */
  datatype Frame = Frame(base: nat, count: nat, depth: nat)

  ghost predicate Together(segs: seq<Frame>, i: nat, j: nat) {
    exists f :: f in segs && f.base <= i && j < f.base + f.count
  }

  /** Elements that do not share a pending segment are in order. */
  ghost predicate InOrder<T(!new)>(s: seq<T>, segs: seq<Frame>, cmp: Cmp<T>) {
    forall i, j :: 0 <= i < j < |s| && !Together(segs, i, j) ==> cmp(s[i], s[j]) <= 0
  }

  ghost predicate Apart(f: Frame, g: Frame) {
    f.base + f.count <= g.base || g.base + g.count <= f.base
  }

  /** The pending segments lie in the array and do not overlap. */
  ghost predicate Pending(segs: seq<Frame>, n: nat) {
    && (forall x :: 0 <= x < |segs| ==> segs[x].base + segs[x].count <= n)
    && (forall x, y :: 0 <= x < y < |segs| ==> Apart(segs[x], segs[y]))
  }

  lemma PendingLast(segs: seq<Frame>, f: Frame, n: nat)
    requires Pending(segs + [f], n)
    ensures f.base + f.count <= n && forall g :: g in segs ==> Apart(g, f)
  {
    var all := segs + [f];
    assert all[|segs|] == f;
    forall g | g in segs ensures Apart(g, f) {
      var x :| 0 <= x < |segs| && segs[x] == g;
      assert all[x] == g;
    }
  }

  /** Rearranging the current segment does not disturb the rest. */
  lemma InOrderShuffled<T(!new)>(ok: bool, s: seq<T>, t: seq<T>, rest: seq<Frame>, f: Frame, cmp: Cmp<T>)
    requires Pending(rest + [f], |s|) && Shuffled(s, t, f.base, f.base + f.count)
    requires ok ==> InOrder(s, rest + [f], cmp)
    ensures ok ==> InOrder(t, rest + [f], cmp)
  {
    if ok {
      PendingLast(rest, f, |s|);
      forall i, j | 0 <= i < j < |t| && !Together(rest + [f], i, j) ensures cmp(t[i], t[j]) <= 0 {
        assert f in rest + [f];
        var i', j' := i, j;
        if f.base <= i < f.base + f.count { i' := ShuffledFrom(s, t, f.base, f.base + f.count, i); }
        if f.base <= j < f.base + f.count { j' := ShuffledFrom(s, t, f.base, f.base + f.count, j); }
        NotTogether(rest, f, i, j, i', j', |s|);
        assert cmp(s[i'], s[j']) <= 0;
      }
    }
  }

  lemma NotTogether(rest: seq<Frame>, f: Frame, i: nat, j: nat, i': nat, j': nat, n: nat)
    requires Pending(rest + [f], n) && i < j < n && !Together(rest + [f], i, j)
    requires if f.base <= i < f.base + f.count then f.base <= i' < f.base + f.count else i' == i
    requires if f.base <= j < f.base + f.count then f.base <= j' < f.base + f.count else j' == j
    ensures i' < j' && !Together(rest + [f], i', j')
  {
    PendingLast(rest, f, n);
    assert f in rest + [f];
    forall g | g in rest + [f] ensures !(g.base <= i' && j' < g.base + g.count) {
      if g in rest { assert Apart(g, f); }
    }
  }

  /** A sorted segment is done. */
  lemma InOrderSorted<T(!new)>(ok: bool, s: seq<T>, rest: seq<Frame>, f: Frame, cmp: Cmp<T>)
    requires Pending(rest + [f], |s|) && f.base + f.count <= |s|
    requires ok ==> InOrder(s, rest + [f], cmp) && PlacedFrom(s, f.base, 0, f.count, cmp)
    ensures ok ==> InOrder(s, rest, cmp)
  {
    if ok {
      forall i, j | 0 <= i < j < |s| && !Together(rest, i, j) ensures cmp(s[i], s[j]) <= 0 {
        if Together(rest + [f], i, j) {
          var g :| g in rest + [f] && g.base <= i && j < g.base + g.count;
          assert g == f;
        }
      }
    }
  }

  /** A partitioned segment falls apart in two; the elements equal to the pivot are in place. */
  lemma InOrderSplit<T(!new)>(ok: bool, s: seq<T>, rest: seq<Frame>, f: Frame, lt: nat, gt: nat, v: T, g: Frame, h: Frame, cmp: Cmp<T>)
    requires Pending(rest + [f], |s|) && Three(s, f.base, lt, gt, f.count, v, cmp)
    requires ok ==> TotalPreorder(cmp) && InOrder(s, rest + [f], cmp)
    requires (g.base, g.count, h.base, h.count) == (f.base, lt, f.base + gt, f.count - gt)
             || (h.base, h.count, g.base, g.count) == (f.base, lt, f.base + gt, f.count - gt)
    ensures Pending(rest + [g] + [h], |s|)
    ensures ok ==> InOrder(s, rest + [g] + [h], cmp)
  {
    PendingLast(rest, f, |s|);
    PendingSplit(rest, f, g, h, |s|);
    if ok {
      var segs := rest + [g] + [h];
      assert g in segs && h in segs;
      forall i, j | 0 <= i < j < |s| && !Together(segs, i, j) ensures cmp(s[i], s[j]) <= 0 {
        if Together(rest + [f], i, j) {
          var x :| x in rest + [f] && x.base <= i && j < x.base + x.count;
          assert x in rest ==> x in segs;
          assert x == f;
          ThreeOrdered(s, f.base, lt, gt, f.count, v, i, j, cmp);
        }
      }
    }
  }

  lemma PendingSplit(rest: seq<Frame>, f: Frame, g: Frame, h: Frame, n: nat)
    requires Pending(rest + [f], n) && Apart(g, h)
    requires f.base <= g.base && g.base + g.count <= f.base + f.count
    requires f.base <= h.base && h.base + h.count <= f.base + f.count
    ensures Pending(rest + [g] + [h], n)
  {
    var all, segs := rest + [f], rest + [g] + [h];
    assert all[|rest|] == f;
    forall x | 0 <= x < |segs| ensures segs[x].base + segs[x].count <= n {
      if x < |rest| { assert segs[x] == all[x]; }
    }
    forall x, y | 0 <= x < y < |segs| ensures Apart(segs[x], segs[y]) {
      if y < |rest| {
        assert segs[x] == all[x] && segs[y] == all[y];
      } else if x < |rest| {
        assert segs[x] == all[x] && Apart(all[x], all[|rest|]);
      }
    }
  }

  lemma ThreeOrdered<T(!new)>(s: seq<T>, base: nat, lt: nat, gt: nat, n: nat, v: T, i: nat, j: nat, cmp: Cmp<T>)
    requires Three(s, base, lt, gt, n, v, cmp) && TotalPreorder(cmp)
    requires base <= i < j < base + n && !(j < base + lt) && !(i >= base + gt)
    ensures cmp(s[i], s[j]) <= 0
  {
    assert cmp(v, v) == 0;
    assert cmp(s[i], v) <= 0;
    assert cmp(v, s[j]) <= 0;
  }

  /** What is still to be done bounds the number of turns of the outer loop. */
  function Weight(segs: seq<Frame>): nat {
    if segs == [] then 0 else Weight(segs[..|segs| - 1]) + segs[|segs| - 1].count + 1
  }

  lemma WeightPush(segs: seq<Frame>, f: Frame)
    ensures Weight(segs + [f]) == Weight(segs) + f.count + 1
  {
    assert (segs + [f])[..|segs|] == segs;
  }

  const STACK_SIZE := 50
  const DEPTH_MAX := 50

  /** The state between two steps: the array, what is on the stack, and the current segment. */
  ghost predicate Running<T(!new)>(a: seq<T>, orig: seq<T>, rest: seq<Frame>, f: Frame, cmp: Cmp<T>) {
    && Shuffled(orig, a, 0, |a|)
    && Pending(rest + [f], |a|)
    && (TotalPreorder(cmp) ==> InOrder(a, rest + [f], cmp))
  }

  lemma RunningShuffled<T(!new)>(a: seq<T>, b: seq<T>, orig: seq<T>, rest: seq<Frame>, f: Frame, cmp: Cmp<T>)
    requires Running(a, orig, rest, f, cmp) && Shuffled(a, b, f.base, f.base + f.count)
    ensures Running(b, orig, rest, f, cmp)
  {
    hide InOrder, TotalPreorder, Pending, Shuffled;
    ShuffledLength(a, b, f.base, f.base + f.count);
    InOrderShuffled(TotalPreorder(cmp), a, b, rest, f, cmp);
    ShuffledWider(a, b, f.base, f.base + f.count, 0, |a|);
    ShuffledTrans(orig, a, b, 0, |a|);
  }

  lemma ShuffledLength<T>(s: seq<T>, t: seq<T>, lo: nat, hi: nat)
    requires Shuffled(s, t, lo, hi)
    ensures |s| == |t| && lo <= hi <= |s|
  {
  }

  lemma RunningSplit<T(!new)>(a: seq<T>, orig: seq<T>, rest: seq<Frame>, f: Frame, lt: nat, gt: nat, v: T, g: Frame, h: Frame, cmp: Cmp<T>)
    requires Running(a, orig, rest, f, cmp) && Three(a, f.base, lt, gt, f.count, v, cmp)
    requires (g.base, g.count, h.base, h.count) == (f.base, lt, f.base + gt, f.count - gt)
             || (h.base, h.count, g.base, g.count) == (f.base, lt, f.base + gt, f.count - gt)
    ensures Running(a, orig, rest + [g], h, cmp)
  {
    hide InOrder, TotalPreorder, Pending, Shuffled, Three;
    InOrderSplit(TotalPreorder(cmp), a, rest, f, lt, gt, v, g, h, cmp);
  }

  lemma RunningInside<T(!new)>(a: seq<T>, orig: seq<T>, rest: seq<Frame>, f: Frame, cmp: Cmp<T>)
    requires Running(a, orig, rest, f, cmp)
    ensures f.base + f.count <= |a|
  {
    PendingLast(rest, f, |a|);
  }

  /** The frames on the stack: the entry at `k` has been pushed at depth k or more. */
  ghost predicate DepthsOk(stack: seq<Frame>) {
    forall k :: 0 <= k < |stack| ==> k <= stack[k].depth <= DEPTH_MAX
  }

  /** Sorting with any comparison terminates, rearranges the array and needs no more than 50 stack entries;
      if the comparison is a total preorder, the result is sorted. */
  method Rqsort<T(!new)>(a: array<T>, cmp: Cmp<T>)
    modifies a
    ensures multiset(a[..]) == multiset(old(a[..]))
    ensures TotalPreorder(cmp) ==> Sorted(a[..], cmp)
  {
    if a.Length < 2 { return; }
    ghost var orig := a[..];
    var stack := new Frame[STACK_SIZE];
    stack[0] := Frame(0, a.Length, 0);
    var sp := 1;
    StartRunning(a[..], cmp);
    assert stack[..1] == [Frame(0, a.Length, 0)] && stack[..0] == [];
    ghost var done := false;
    hide InOrder, TotalPreorder, Pending, Shuffled, Running, Three, Sorted;
    while sp > 0
      invariant 0 <= sp <= STACK_SIZE && fresh(stack) && DepthsOk(stack[..sp]) && |a[..]| == |orig|
      invariant Unfinished(a[..], orig, stack[..sp], cmp)
      decreases Weight(stack[..sp])
    {
      sp := sp - 1;
      ghost var was := stack[..sp + 1];
      assert was == stack[..sp] + [stack[sp]];
      PopRunning(a[..], orig, stack[..sp], stack[sp], cmp);
      WeightPush(stack[..sp], stack[sp]);
      var f := stack[sp];
      f, sp := SortSegment(a, stack, sp, f, cmp, orig);
      RunningInside(a[..], orig, stack[..sp], f, cmp);
      ghost var s := a[..];
      InsertionSort(a, f.base, f.count, cmp);
      RunningShuffled(s, a[..], orig, stack[..sp], f, cmp);
      FinishSegment(a[..], orig, stack[..sp], f, cmp);
    }
    assert stack[..0] == [];
    UnfinishedNone(a[..], orig, cmp);
  }

  /** The inner loop: the larger part of a segment goes on the stack, the smaller one is partitioned on. */
  method SortSegment<T(!new)>(a: array<T>, stack: array<Frame>, sp0: nat, f0: Frame, cmp: Cmp<T>, ghost orig: seq<T>)
    returns (f: Frame, sp: nat)
    requires (a as object) != (stack as object) && stack.Length == STACK_SIZE && sp0 < STACK_SIZE && DepthsOk(stack[..sp0]) && sp0 <= f0.depth <= DEPTH_MAX
    requires Running(a[..], orig, stack[..sp0], f0, cmp)
    modifies a, stack
    ensures sp0 <= sp <= STACK_SIZE && DepthsOk(stack[..sp])
    ensures Running(a[..], orig, stack[..sp], f, cmp)
    ensures Weight(stack[..sp]) + f.count <= Weight(old(stack[..sp0])) + f0.count
  {
    hide InOrder, TotalPreorder, Pending, Shuffled, Running, Three, DepthsOk;
    var depth := f0.depth;
    f, sp := f0, sp0;
    while f.count > 6
      invariant sp0 <= sp <= STACK_SIZE && sp <= depth <= DEPTH_MAX && DepthsOk(stack[..sp])
      invariant Running(a[..], orig, stack[..sp], f, cmp)
      invariant Weight(stack[..sp]) + f.count <= Weight(old(stack[..sp0])) + f0.count
      decreases f.count
    {
      ghost var s := a[..];
      RunningInside(s, orig, stack[..sp], f, cmp);
      depth := depth + 1;
      if depth > DEPTH_MAX {
        HeapSort(a, f.base, f.count, cmp);
        RunningShuffled(s, a[..], orig, stack[..sp], f, cmp);
        RunningEmptied(a[..], orig, stack[..sp], f, cmp);
        f := f.(count := 0);
        return;
      }
      var lt, gt, v := Partition(a, f.base, f.count, cmp);
      RunningShuffled(s, a[..], orig, stack[..sp], f, cmp);
      ThreeCounts(a[..], f.base, lt, gt, f.count, v, cmp);
      var low, high := Frame(f.base, lt, depth), Frame(f.base + gt, f.count - gt, depth);
      var push, next := if lt > f.count - gt then low else high, if lt > f.count - gt then high else low;
      RunningSplit(a[..], orig, stack[..sp], f, lt, gt, v, push, next, cmp);
      WeightPush(stack[..sp], push);
      DepthsPush(stack[..sp], push);
      ghost var was := stack[..sp];
      stack[sp] := push;
      sp := sp + 1;
      assert stack[..sp] == was + [push];
      f := next;
    }
  }

  lemma ThreeCounts<T(!new)>(s: seq<T>, base: nat, lt: nat, gt: nat, n: nat, v: T, cmp: Cmp<T>)
    requires Three(s, base, lt, gt, n, v, cmp)
    ensures lt < gt <= n
  {
  }

  lemma DepthsPush(stack: seq<Frame>, f: Frame)
    requires DepthsOk(stack) && |stack| <= f.depth <= DEPTH_MAX
    ensures DepthsOk(stack + [f])
  {
  }

  /** Between two turns of the outer loop there is no current segment. */
  ghost predicate Unfinished<T(!new)>(a: seq<T>, orig: seq<T>, segs: seq<Frame>, cmp: Cmp<T>) {
    && Shuffled(orig, a, 0, |a|)
    && Pending(segs, |a|)
    && (TotalPreorder(cmp) ==> InOrder(a, segs, cmp))
  }

  lemma StartRunning<T(!new)>(a: seq<T>, cmp: Cmp<T>)
    ensures Unfinished(a, a, [Frame(0, |a|, 0)], cmp)
  {
    var f := Frame(0, |a|, 0);
    assert f in [f];
    forall i, j | 0 <= i < j < |a| ensures Together([f], i, j) { }
  }

  lemma PopRunning<T(!new)>(a: seq<T>, orig: seq<T>, rest: seq<Frame>, f: Frame, cmp: Cmp<T>)
    requires Unfinished(a, orig, rest + [f], cmp)
    ensures Running(a, orig, rest, f, cmp)
  {
    hide InOrder, TotalPreorder, Pending, Shuffled;
  }

  lemma FinishSegment<T(!new)>(a: seq<T>, orig: seq<T>, rest: seq<Frame>, f: Frame, cmp: Cmp<T>)
    requires Running(a, orig, rest, f, cmp)
    requires f.base + f.count <= |a| && (TotalPreorder(cmp) ==> PlacedFrom(a, f.base, 0, f.count, cmp))
    ensures Unfinished(a, orig, rest, cmp)
  {
    hide InOrder, TotalPreorder, Shuffled, PlacedFrom;
    InOrderSorted(TotalPreorder(cmp), a, rest, f, cmp);
    forall x | 0 <= x < |rest| ensures rest[x].base + rest[x].count <= |a| { assert (rest + [f])[x] == rest[x]; }
    forall x, y | 0 <= x < y < |rest| ensures Apart(rest[x], rest[y]) { assert (rest + [f])[x] == rest[x] && (rest + [f])[y] == rest[y]; }
  }

  /** Behind heapsort nothing of the segment is left to do. */
  lemma RunningEmptied<T(!new)>(a: seq<T>, orig: seq<T>, rest: seq<Frame>, f: Frame, cmp: Cmp<T>)
    requires Running(a, orig, rest, f, cmp)
    requires f.base + f.count <= |a| && (TotalPreorder(cmp) ==> PlacedFrom(a, f.base, 0, f.count, cmp))
    ensures Running(a, orig, rest, f.(count := 0), cmp)
  {
    FinishSegment(a, orig, rest, f, cmp);
    hide TotalPreorder, Shuffled, PlacedFrom;
    PendingEmpty(rest, f, |a|);
    if TotalPreorder(cmp) {
      forall i, j | 0 <= i < j < |a| && !Together(rest + [f.(count := 0)], i, j) ensures !Together(rest, i, j) {
        forall g | g in rest ensures !(g.base <= i && j < g.base + g.count) { assert g in rest + [f.(count := 0)]; }
      }
    }
  }

  lemma PendingEmpty(rest: seq<Frame>, f: Frame, n: nat)
    requires Pending(rest + [f], n)
    ensures Pending(rest + [f.(count := 0)], n)
  {
    var all, segs := rest + [f], rest + [f.(count := 0)];
    assert all[|rest|] == f;
    forall x | 0 <= x < |segs| ensures segs[x].base + segs[x].count <= n {
      if x < |rest| { assert segs[x] == all[x]; }
    }
    forall x, y | 0 <= x < y < |segs| ensures Apart(segs[x], segs[y]) {
      assert segs[x] == all[x] && Apart(all[x], all[y]);
    }
  }

  lemma UnfinishedNone<T(!new)>(a: seq<T>, orig: seq<T>, cmp: Cmp<T>)
    requires Unfinished(a, orig, [], cmp)
    ensures multiset(a) == multiset(orig)
    ensures TotalPreorder(cmp) ==> Sorted(a, cmp)
  {
    hide TotalPreorder;
    assert a[0..|a|] == a && orig[0..|a|] == orig;
  }
}
