/** dump: a guest heap with cycles and sharing is copied through a map keyed by address. */
module GraphDump {

  datatype Prim = Undefined | Null | Bool(b: bool) | Number(bits: nat) | SmallBigInt(n: int)

  /** A guest value: a primitive, a reference to something on the guest heap, or a kind that cannot be dumped. */
  datatype GuestValue = GuestPrim(p: Prim) | GuestRef(id: nat) | Unsupported

  /** A boxed string, bigint or error, or an array (no keys) or object with its entries. */
  datatype GuestCell = Boxed(text: string) | Node(isArray: bool, keys: seq<string>, entries: seq<GuestValue>)

  type Heap = map<nat, GuestCell>

  datatype HostValue = HostPrim(p: Prim) | HostText(text: string) | HostRef(at: nat)

  datatype HostCell = HostCell(isArray: bool, keys: seq<string>, entries: seq<HostValue>)

  datatype Outcome = Done(value: HostValue) | DepthExceeded | NodesExceeded | CannotDump

  /** Where a guest cell is, while the handles in the list are held. Cells that nobody holds may move, and
      their place may be given to others. */
  type Addresses = (seq<nat>, nat) -> nat

  predicate Held(kept: seq<nat>, root: GuestValue, id: nat) {
    id in kept || root == GuestRef(id)
  }

  /** Cells that are held stay where they are, and no two of them are at the same place. */
  ghost predicate Allocator(addr: Addresses, root: GuestValue) {
    && (forall kept, a, b :: Held(kept, root, a) && Held(kept, root, b) && a != b ==> addr(kept, a) != addr(kept, b))
    && (forall kept, id, a :: Held(kept, root, a) ==> addr(kept + [id], a) == addr(kept, a))
  }

  /** All references lead somewhere, and objects have a key for every entry. */
  ghost predicate Closed(g: Heap, root: GuestValue) {
    && (root.GuestRef? ==> root.id in g)
    && (forall id, k :: id in g && g[id].Node? && 0 <= k < |g[id].entries| && g[id].entries[k].GuestRef? ==> g[id].entries[k].id in g)
    && (forall id :: id in g && g[id].Node? ==> |g[id].keys| == if g[id].isArray then 0 else |g[id].entries|)
  }

  /** The copy of a value, when the cells in `m` have been copied. */
  predicate Matches(m: map<nat, HostValue>, v: GuestValue, h: HostValue) {
    match v
    case GuestPrim(p) => h == HostPrim(p)
    case GuestRef(id) => id in m && h == m[id]
    case Unsupported => false
  }

  /** The first `n` entries of a node have been copied. */
  predicate CopiedTo(g: Heap, m: map<nat, HostValue>, cell: GuestCell, h: HostCell, n: nat) {
    && cell.Node? && n <= |cell.entries| && h.isArray == cell.isArray && |h.entries| == n
    && (if cell.isArray then h.keys == [] && cell.keys == [] else |cell.keys| == |cell.entries| && h.keys == cell.keys[..n])
    && (forall k :: 0 <= k < n ==> Matches(m, cell.entries[k], h.entries[k]))
  }

  /** Every cell in `m` has one copy, and the copies are all of the host's cells; the nodes in `open` are
      being copied, the others have been copied completely. */
  ghost predicate Copying(g: Heap, m: map<nat, HostValue>, host: seq<HostCell>, open: map<nat, nat>) {
    && (forall id :: id in m ==> id in g) && (forall id :: id in open ==> id in m)
    && (forall id :: id in m && g[id].Boxed? ==> m[id] == HostText(g[id].text))
    && (forall id :: id in m && g[id].Node? ==> m[id].HostRef? && m[id].at < |host|)
    && (forall a, b :: a in m && b in m && g[a].Node? && g[b].Node? && m[a] == m[b] ==> a == b)
    && (forall at :: 0 <= at < |host| ==> CopyOf(g, m, at))
    && (forall id :: id in m && g[id].Node? ==>
          CopiedTo(g, m, g[id], host[m[id].at], if id in open then open[id] else |g[id].entries|))
  }

  ghost predicate CopyOf(g: Heap, m: map<nat, HostValue>, at: nat) {
    exists id :: id in m && id in g && g[id].Node? && m[id] == HostRef(at)
  }

  /** The map by address holds what the map by identity does. */
  ghost predicate SameMap(addr: Addresses, root: GuestValue, kept: seq<nat>, seen: map<nat, HostValue>, m: map<nat, HostValue>) {
    && (forall id :: id in m ==> Held(kept, root, id) && addr(kept, id) in seen && seen[addr(kept, id)] == m[id])
    && (forall a :: a in seen ==> exists id :: id in m && addr(kept, id) == a)
  }

  /** A lookup by address finds a held cell exactly if it has been seen. */
  lemma LookupIsIdentity(addr: Addresses, root: GuestValue, kept: seq<nat>, seen: map<nat, HostValue>, m: map<nat, HostValue>, id: nat)
    requires Allocator(addr, root) && SameMap(addr, root, kept, seen, m) && Held(kept, root, id)
    ensures addr(kept, id) in seen <==> id in m
    ensures id in m ==> seen[addr(kept, id)] == m[id]
  {
    if addr(kept, id) in seen {
      var other :| other in m && addr(kept, other) == addr(kept, id);
      assert Held(kept, root, other);
    }
  }

  lemma KeepOne(addr: Addresses, root: GuestValue, kept: seq<nat>, seen: map<nat, HostValue>, m: map<nat, HostValue>, id: nat)
    requires Allocator(addr, root) && SameMap(addr, root, kept, seen, m)
    ensures SameMap(addr, root, kept + [id], seen, m) && Held(kept + [id], root, id)
  {
    forall a | a in seen ensures exists x :: x in m && addr(kept + [id], x) == a {
      var x :| x in m && addr(kept, x) == a;
      assert Held(kept, root, x) && addr(kept + [id], x) == a;
    }
    forall x | x in m ensures Held(kept + [id], root, x) && addr(kept + [id], x) in seen && seen[addr(kept + [id], x)] == m[x] {
      assert Held(kept, root, x);
    }
  }

  lemma SeenOne(addr: Addresses, root: GuestValue, kept: seq<nat>, seen: map<nat, HostValue>, m: map<nat, HostValue>, id: nat, h: HostValue)
    requires Allocator(addr, root) && SameMap(addr, root, kept, seen, m) && Held(kept, root, id) && id !in m
    ensures SameMap(addr, root, kept, seen[addr(kept, id) := h], m[id := h])
  {
    var seen', m' := seen[addr(kept, id) := h], m[id := h];
    forall a | a in seen' ensures exists x :: x in m' && addr(kept, x) == a {
      if a == addr(kept, id) { assert id in m'; } else { var x :| x in m && addr(kept, x) == a; assert x in m'; }
    }
  }

  /** A boxed value has been converted. */
  lemma BoxedCopied(g: Heap, m: map<nat, HostValue>, host: seq<HostCell>, open: map<nat, nat>, id: nat)
    requires Copying(g, m, host, open) && id in g && g[id].Boxed? && id !in m
    ensures Copying(g, m[id := HostText(g[id].text)], host, open)
  {
    var m' := m[id := HostText(g[id].text)];
    forall x | x in m' && g[x].Node? ensures CopiedTo(g, m', g[x], host[m'[x].at], if x in open then open[x] else |g[x].entries|) {
      StillCopied(g, m, m', g[x], host[m[x].at], if x in open then open[x] else |g[x].entries|);
    }
    forall at | 0 <= at < |host| ensures CopyOf(g, m', at) { StillCopyOf(g, m, m', at); }
  }

  predicate Extends(m: map<nat, HostValue>, m': map<nat, HostValue>) {
    forall id :: id in m ==> id in m' && m'[id] == m[id]
  }

  lemma StillCopied(g: Heap, m: map<nat, HostValue>, m': map<nat, HostValue>, cell: GuestCell, h: HostCell, n: nat)
    requires CopiedTo(g, m, cell, h, n) && Extends(m, m')
    ensures CopiedTo(g, m', cell, h, n)
  {
    forall k | 0 <= k < n ensures Matches(m', cell.entries[k], h.entries[k]) { assert Matches(m, cell.entries[k], h.entries[k]); }
  }

  lemma StillCopyOf(g: Heap, m: map<nat, HostValue>, m': map<nat, HostValue>, at: nat)
    requires CopyOf(g, m, at) && Extends(m, m')
    ensures CopyOf(g, m', at)
  {
    var id :| id in m && id in g && g[id].Node? && m[id] == HostRef(at);
    assert id in m' && m'[id] == HostRef(at);
  }

  /** An empty array or object has been made for a node. */
  lemma NodeOpened(g: Heap, m: map<nat, HostValue>, host: seq<HostCell>, open: map<nat, nat>, id: nat, cell: HostCell)
    requires Copying(g, m, host, open) && id in g && g[id].Node? && id !in m && cell == HostCell(g[id].isArray, [], [])
    requires |g[id].keys| == if g[id].isArray then 0 else |g[id].entries|
    ensures Copying(g, m[id := HostRef(|host|)], host + [cell], open[id := 0])
  {
    var m', host', open' := m[id := HostRef(|host|)], host + [cell], open[id := 0];
    forall x | x in m' && g[x].Node? ensures CopiedTo(g, m', g[x], host'[m'[x].at], if x in open' then open'[x] else |g[x].entries|) {
      if x != id { StillCopied(g, m, m', g[x], host[m[x].at], if x in open then open[x] else |g[x].entries|); }
    }
    forall at | 0 <= at < |host'| ensures CopyOf(g, m', at) {
      if at < |host| { StillCopyOf(g, m, m', at); } else { assert id in m' && m'[id] == HostRef(at); }
    }
  }

  /** The node's cell with one more entry. */
  function WithEntry(cell: GuestCell, h: HostCell, n: nat, v: HostValue): HostCell
    requires cell.Node? && n < |cell.entries| && (!cell.isArray ==> n < |cell.keys|)
  {
    HostCell(h.isArray, if cell.isArray then h.keys else h.keys + [cell.keys[n]], h.entries + [v])
  }

  lemma EntryCopied(g: Heap, m: map<nat, HostValue>, host: seq<HostCell>, open: map<nat, nat>, id: nat, n: nat, v: HostValue)
    requires Copying(g, m, host, open) && id in m && id in g && g[id].Node? && id in open && open[id] == n < |g[id].entries|
    requires |g[id].keys| == (if g[id].isArray then 0 else |g[id].entries|) && Matches(m, g[id].entries[n], v)
    ensures m[id].HostRef? && m[id].at < |host| && Copying(g, m, host[m[id].at := WithEntry(g[id], host[m[id].at], n, v)], open[id := n + 1])
  {
    var at := m[id].at;
    var host', open' := host[at := WithEntry(g[id], host[at], n, v)], open[id := n + 1];
    forall x | x in m && g[x].Node? ensures CopiedTo(g, m, g[x], host'[m[x].at], if x in open' then open'[x] else |g[x].entries|) {
      assert CopiedTo(g, m, g[x], host[m[x].at], if x in open then open[x] else |g[x].entries|);
      if x == id {
        if !g[id].isArray { assert g[id].keys[..n + 1] == g[id].keys[..n] + [g[id].keys[n]]; }
      } else {
        assert m[x].at != at;
      }
    }
  }

  lemma NodeClosed(g: Heap, m: map<nat, HostValue>, host: seq<HostCell>, open: map<nat, nat>, id: nat, n: nat)
    requires Copying(g, m, host, open[id := n]) && id in m && id in g && g[id].Node? && n == |g[id].entries| && id !in open
    ensures Copying(g, m, host, open)
  {
  }

  lemma ClosedNode(g: Heap, root: GuestValue, id: nat)
    requires Closed(g, root) && id in g && g[id].Node?
    ensures |g[id].keys| == if g[id].isArray then 0 else |g[id].entries|
    ensures forall k :: 0 <= k < |g[id].entries| && g[id].entries[k].GuestRef? ==> g[id].entries[k].id in g
  {
  }

  lemma {:induction false} KeysBound(a: set<nat>, b: set<nat>)
    requires a <= b
    ensures |a| <= |b|
    decreases a
  {
    if a != {} {
      var x :| x in a;
      KeysBound(a - {x}, b - {x});
    }
  }

  lemma ExtendsSelf(m: map<nat, HostValue>)
    ensures Extends(m, m)
  {
  }

  lemma ExtendsOne(m: map<nat, HostValue>, id: nat, h: HostValue)
    requires id !in m
    ensures Extends(m, m[id := h])
  {
  }

  lemma ExtendsTrans(a: map<nat, HostValue>, b: map<nat, HostValue>, c: map<nat, HostValue>)
    requires Extends(a, b) && Extends(b, c)
    ensures Extends(a, c)
  {
  }

  // ----- what can be reached

  /** A walk from the root along references. */
  predicate Path(g: Heap, root: GuestValue, p: seq<nat>) {
    && p != [] && root == GuestRef(p[0])
    && forall k :: 0 <= k < |p| - 1 ==> p[k] in g && g[p[k]].Node? && GuestRef(p[k + 1]) in g[p[k]].entries
  }

  ghost predicate Reached(g: Heap, root: GuestValue, id: nat) {
    exists p :: Path(g, root, p) && p[|p| - 1] == id
  }

  /** The cells that can be reached from the root. */
  ghost function Reach(g: Heap, root: GuestValue): set<nat> {
    set id | id in g && Reached(g, root, id)
  }

  /** A path of at most `n` references. */
  ghost predicate Near(g: Heap, root: GuestValue, id: nat, n: nat) {
    exists p :: Path(g, root, p) && p[|p| - 1] == id && |p| <= n + 1
  }

  /** A path of more than `n` cells, all different, and something in the last one. */
  ghost predicate LongPath(g: Heap, root: GuestValue, n: nat) {
    exists p :: Path(g, root, p) && NoRepeat(p) && |p| > n && HasEntry(g, p[|p| - 1])
  }

  predicate HasEntry(g: Heap, id: nat) {
    id in g && g[id].Node? && g[id].entries != []
  }

  predicate NoRepeat(p: seq<nat>) {
    forall i, j :: 0 <= i < j < |p| ==> p[i] != p[j]
  }

  /** A path of `n` different cells needs as many. */
  lemma LongPathNeedsCells(g: Heap, root: GuestValue, n: nat)
    requires Closed(g, root) && LongPath(g, root, n)
    ensures n < |Reach(g, root)|
  {
    var p :| Path(g, root, p) && NoRepeat(p) && |p| > n;
    forall k | 0 <= k < |p| ensures p[k] in Reach(g, root) {
      PrefixPath(g, root, p, k);
    }
    DistinctBound(p, Reach(g, root));
  }

  lemma PrefixPath(g: Heap, root: GuestValue, p: seq<nat>, k: nat)
    requires Closed(g, root) && Path(g, root, p) && k < |p|
    ensures p[k] in Reach(g, root)
  {
    var q := p[..k + 1];
    assert forall j :: 0 <= j <= k ==> q[j] == p[j];
    assert Path(g, root, q) && q[|q| - 1] == p[k];
    if k > 0 {
      var j :| 0 <= j < |g[p[k - 1]].entries| && g[p[k - 1]].entries[j] == GuestRef(p[k]);
    }
  }

  lemma {:induction false} DistinctBound(p: seq<nat>, s: set<nat>)
    requires NoRepeat(p) && forall k :: 0 <= k < |p| ==> p[k] in s
    ensures |p| <= |s|
    decreases |p|
  {
    if p != [] {
      var n := |p| - 1;
      DistinctBound(p[..n], s - {p[n]});
    }
  }

  /** The cells that are being copied, from the root to the one that holds `value`. */
  ghost predicate OnTrail(g: Heap, root: GuestValue, open: map<nat, nat>, trail: seq<nat>, value: GuestValue) {
    && |trail| == |open| && (forall k :: 0 <= k < |trail| ==> trail[k] in open) && NoRepeat(trail)
    && if trail == [] then value == root
       else Path(g, root, trail) && trail[|trail| - 1] in g && g[trail[|trail| - 1]].Node? && value in g[trail[|trail| - 1]].entries
  }

  lemma TrailPath(g: Heap, root: GuestValue, open: map<nat, nat>, trail: seq<nat>, id: nat)
    requires OnTrail(g, root, open, trail, GuestRef(id))
    ensures Path(g, root, trail + [id])
  {
    var q := trail + [id];
    assert forall j :: 0 <= j < |trail| ==> q[j] == trail[j];
  }

  lemma TrailNear(g: Heap, root: GuestValue, open: map<nat, nat>, trail: seq<nat>, id: nat, n: nat)
    requires OnTrail(g, root, open, trail, GuestRef(id)) && |open| <= n
    ensures Near(g, root, id, n)
  {
    TrailPath(g, root, open, trail, id);
    var q := trail + [id];
    assert q[|q| - 1] == id && |q| <= n + 1;
  }

  lemma TrailLong(g: Heap, root: GuestValue, open: map<nat, nat>, trail: seq<nat>, value: GuestValue, n: nat)
    requires OnTrail(g, root, open, trail, value) && |open| > n
    ensures LongPath(g, root, n)
  {
  }

  lemma TrailEntry(g: Heap, root: GuestValue, open: map<nat, nat>, trail: seq<nat>, id: nat, i: nat)
    requires OnTrail(g, root, open, trail, GuestRef(id)) && id !in open && id in g && g[id].Node? && i < |g[id].entries|
    ensures OnTrail(g, root, open[id := i], trail + [id], g[id].entries[i])
  {
    TrailPath(g, root, open, trail, id);
    SizeOne(open, id, i);
    hide Path;
    forall k | 0 <= k < |trail| + 1 ensures (trail + [id])[k] in open[id := i] { }
  }

  lemma NearIsReached(g: Heap, root: GuestValue, id: nat, n: nat)
    requires Near(g, root, id, n)
    ensures Reached(g, root, id)
  {
  }

  // ----- counting entries

  /** The entries of a cell; of an open node those that have been copied. */
  function Part(g: Heap, open: map<nat, nat>, id: nat): nat {
    if id in g && g[id].Node? then (if id in open then open[id] else |g[id].entries|) else 0
  }

  ghost function Progress(g: Heap, open: map<nat, nat>, s: set<nat>): nat {
    if s == {} then 0 else
      var x :| x in s;
      Part(g, open, x) + Progress(g, open, s - {x})
  }

  /** The number of entries of the given cells. */
  ghost function Entries(g: Heap, s: set<nat>): nat {
    Progress(g, map[], s)
  }

  lemma {:induction false} ProgressSplit(g: Heap, open: map<nat, nat>, s: set<nat>, x: nat)
    requires x in s
    ensures Progress(g, open, s) == Part(g, open, x) + Progress(g, open, s - {x})
    decreases s
  {
    var y :| y in s && Progress(g, open, s) == Part(g, open, y) + Progress(g, open, s - {y});
    if x != y {
      ProgressSplit(g, open, s - {y}, x);
      ProgressSplit(g, open, s - {x}, y);
      assert s - {y} - {x} == s - {x} - {y};
    }
  }

  lemma {:induction false} ProgressSame(g: Heap, open: map<nat, nat>, open': map<nat, nat>, s: set<nat>)
    requires forall x :: x in s ==> Part(g, open, x) == Part(g, open', x)
    ensures Progress(g, open, s) == Progress(g, open', s)
    decreases s
  {
    if s != {} {
      var x :| x in s;
      ProgressSplit(g, open, s, x);
      ProgressSplit(g, open', s, x);
      ProgressSame(g, open, open', s - {x});
    }
  }

  lemma {:induction false} ProgressMonotone(g: Heap, open: map<nat, nat>, s: set<nat>, t: set<nat>)
    requires s <= t
    ensures Progress(g, open, s) <= Progress(g, open, t)
    decreases s
  {
    if s != {} {
      var x :| x in s;
      ProgressSplit(g, open, s, x);
      ProgressSplit(g, open, t, x);
      ProgressMonotone(g, open, s - {x}, t - {x});
    }
  }

  /** Every open node has an entry that is not yet counted. */
  predicate Busy(g: Heap, open: map<nat, nat>) {
    forall id :: id in open ==> id in g && g[id].Node? && open[id] < |g[id].entries|
  }

  lemma BusyOne(g: Heap, open: map<nat, nat>, id: nat, i: nat)
    requires Busy(g, open) && id in g && g[id].Node? && i < |g[id].entries|
    ensures Busy(g, open[id := i])
  {
  }

  lemma {:induction false} BusyRoom(g: Heap, open: map<nat, nat>, s: set<nat>)
    requires Busy(g, open) && open.Keys <= s
    ensures Progress(g, open, s) + |open| <= Entries(g, s)
    decreases |open|
  {
    if open != map[] {
      var x :| x in open;
      var rest := open - {x};
      assert open.Keys == rest.Keys + {x};
      assert rest.Keys == open.Keys - {x};
      BusyRoom(g, rest, s);
      ProgressSplit(g, open, s, x);
      ProgressSplit(g, rest, s, x);
      ProgressSame(g, open, rest, s - {x});
    }
  }

  lemma NewCell(g: Heap, open: map<nat, nat>, s: set<nat>, id: nat)
    requires id !in s && open.Keys <= s && id in g
    ensures g[id].Boxed? ==> Progress(g, open, s + {id}) == Progress(g, open, s)
    ensures g[id].Node? ==> Progress(g, open[id := 0], s + {id}) == Progress(g, open, s) && |open[id := 0]| == |open| + 1
  {
    assert s + {id} - {id} == s;
    ProgressSplit(g, open, s + {id}, id);
    ProgressSplit(g, open[id := 0], s + {id}, id);
    ProgressSame(g, open, open[id := 0], s);
    assert open[id := 0].Keys == open.Keys + {id};
    SizeOne(open, id, 0);
  }

  lemma SizeOne(open: map<nat, nat>, id: nat, i: nat)
    requires id !in open
    ensures |open[id := i]| == |open| + 1
  {
    assert open[id := i].Keys == open.Keys + {id};
  }

  lemma NextEntry(g: Heap, open: map<nat, nat>, s: set<nat>, id: nat, i: nat)
    requires id in s && id in g && g[id].Node?
    ensures Progress(g, open[id := i + 1], s) == Progress(g, open[id := i], s) + 1
  {
    ProgressSplit(g, open[id := i], s, id);
    ProgressSplit(g, open[id := i + 1], s, id);
    ProgressSame(g, open[id := i], open[id := i + 1], s - {id});
  }

  lemma LastEntry(g: Heap, open: map<nat, nat>, s: set<nat>, id: nat, n: nat)
    requires id !in open && id in g && g[id].Node? && n == |g[id].entries|
    ensures Progress(g, open[id := n], s) == Progress(g, open, s)
  {
    ProgressSame(g, open[id := n], open, s);
  }

  lemma OpenKeys(g: Heap, m: map<nat, HostValue>, host: seq<HostCell>, open: map<nat, nat>)
    requires Copying(g, m, host, open)
    ensures open.Keys <= m.Keys && forall id :: id in m ==> id in g
  {
  }

  /** Nodes that are being copied can be reached, and so can the entries that have been counted. */
  lemma OpenBound(g: Heap, root: GuestValue, m: map<nat, HostValue>, host: seq<HostCell>, open: map<nat, nat>)
    requires Copying(g, m, host, open) && Busy(g, open) && forall id :: id in m ==> Reached(g, root, id)
    ensures |open| <= |Reach(g, root)| && Progress(g, open, m.Keys) + |open| <= Entries(g, Reach(g, root))
  {
    OpenKeys(g, m, host, open);
    hide Copying, Busy, Reached, Progress;
    KeysBound(open.Keys, Reach(g, root));
    BusyRoom(g, open, m.Keys);
    ProgressMonotone(g, map[], m.Keys, Reach(g, root));
  }

  // ----- the order of the walk

  datatype Kind = Through | TooDeep | TooMany | Unfit

  /** How a walk ends, the cells that have been seen and the number of visits. */
  datatype Walked = Walked(kind: Kind, seen: set<nat>, nodes: nat)

  /** The walk without copies: depth first, each cell entered when it is met for the first time. */
  ghost function Walk(g: Heap, v: GuestValue, depth: nat, seen: set<nat>, nodes: nat, maxDepth: nat, maxNodes: nat): (w: Walked)
    ensures w.kind.Through? ==> nodes < w.nodes <= maxNodes
    decreases if maxNodes >= nodes then maxNodes - nodes else 0, 0, 0
  {
    if depth > maxDepth then Walked(TooDeep, seen, nodes)
    else if nodes >= maxNodes then Walked(TooMany, seen, nodes)
    else
      match v
      case GuestPrim(_) => Walked(Through, seen, nodes + 1)
      case Unsupported => Walked(Unfit, seen, nodes + 1)
      case GuestRef(id) =>
        WalkRef(g, id, depth, seen, nodes + 1, maxDepth, maxNodes)
  }

  ghost function WalkRef(g: Heap, id: nat, depth: nat, seen: set<nat>, nodes: nat, maxDepth: nat, maxNodes: nat): (w: Walked)
    requires nodes <= maxNodes
    ensures w.kind.Through? ==> nodes <= w.nodes <= maxNodes
    decreases maxNodes - nodes, 2, 0
  {
    if id in seen || id !in g then Walked(Through, seen, nodes)
    else if g[id].Boxed? then Walked(Through, seen + {id}, nodes)
    else WalkEntries(g, g[id].entries, depth, seen + {id}, nodes, maxDepth, maxNodes)
  }

  lemma WalkStep(g: Heap, v: GuestValue, depth: nat, seen: set<nat>, nodes: nat, maxDepth: nat, maxNodes: nat)
    ensures Walk(g, v, depth, seen, nodes, maxDepth, maxNodes)
            == if depth > maxDepth then Walked(TooDeep, seen, nodes)
               else if nodes >= maxNodes then Walked(TooMany, seen, nodes)
               else match v
                    case GuestPrim(_) => Walked(Through, seen, nodes + 1)
                    case Unsupported => Walked(Unfit, seen, nodes + 1)
                    case GuestRef(id) => WalkRef(g, id, depth, seen, nodes + 1, maxDepth, maxNodes)
  {
    hide WalkRef;
  }

  ghost function WalkEntries(g: Heap, vs: seq<GuestValue>, depth: nat, seen: set<nat>, nodes: nat, maxDepth: nat, maxNodes: nat): (w: Walked)
    requires nodes <= maxNodes
    ensures w.kind.Through? ==> nodes <= w.nodes <= maxNodes
    decreases maxNodes - nodes, 1, |vs|
  {
    if vs == [] then Walked(Through, seen, nodes)
    else
      var w := Walk(g, vs[0], depth + 1, seen, nodes, maxDepth, maxNodes);
      if w.kind.Through? then WalkEntries(g, vs[1..], depth, w.seen, w.nodes, maxDepth, maxNodes) else w
  }

  predicate Ends(r: Outcome, k: Kind) {
    (r.Done? <==> k.Through?) && (r.DepthExceeded? <==> k.TooDeep?) && (r.NodesExceeded? <==> k.TooMany?)
  }

  // ----- the walk

  class Dumper {
    const g: Heap
    const addr: Addresses
    const root: GuestValue
    const maxDepth: nat
    const maxNodes: nat
    var seen: map<nat, HostValue>
    var kept: seq<nat>
    var nodes: nat
    var host: seq<HostCell>
    ghost var m: map<nat, HostValue>

    ghost predicate Valid(open: map<nat, nat>)
      reads this
    {
      && Allocator(addr, root) && Closed(g, root) && SameMap(addr, root, kept, seen, m) && Copying(g, m, host, open)
      && nodes <= maxNodes && (forall id :: id in m ==> Near(g, root, id, maxDepth))
    }

    /** Each visit counts once: the entries that have been copied, those that are being copied, and `more`. */
    ghost predicate Counted(open: map<nat, nat>, more: nat)
      reads this
    {
      nodes == Progress(g, open, m.Keys) + |open| + more
    }

    /** What is true of the heap when a walk ends early. */
    ghost predicate Excuse(r: Outcome) {
      && (r == DepthExceeded ==> LongPath(g, root, maxDepth))
      && (r == NodesExceeded ==> maxNodes < 1 + Entries(g, Reach(g, root)))
      && (r == CannotDump ==> MeetsUnsupported(g, root))
    }

    /** The walk has gone as the order says. */
    ghost predicate Follows(r: Outcome, w: Walked)
      reads this
    {
      Ends(r, w.kind) && (r.Done? ==> m.Keys == w.seen && nodes == w.nodes)
    }

    constructor (g: Heap, addr: Addresses, root: GuestValue, maxDepth: nat, maxNodes: nat)
      requires Allocator(addr, root) && Closed(g, root)
      ensures Valid(map[]) && m == map[] && nodes == 0 && Counted(map[], 0)
      ensures this.g == g && this.addr == addr && this.root == root && this.maxDepth == maxDepth && this.maxNodes == maxNodes
    {
      this.g, this.addr, this.root, this.maxDepth, this.maxNodes := g, addr, root, maxDepth, maxNodes;
      seen, kept, nodes, host, m := map[], [], 0, [], map[];
    }

    /** visit: `value` is a primitive, or a reference to a cell that is held. Only new cells of the host change. */
    method Visit(value: GuestValue, depth: nat, ghost open: map<nat, nat>, ghost trail: seq<nat>) returns (r: Outcome)
      requires Valid(open) && (value.GuestRef? ==> Held(kept, root, value.id) && value.id in g)
      requires Counted(open, 0) && Busy(g, open) && depth == |open| && OnTrail(g, root, open, trail, value)
      modifies this
      ensures r.Done? ==> Valid(open) && Matches(m, value, r.value) && nodes > old(nodes) && Extends(old(m), m) && old(host) <= host
      ensures r.Done? ==> Counted(open, 1)
      ensures Excuse(r) || (r == CannotDump && value == Unsupported)
      ensures Follows(r, Walk(g, value, depth, old(m.Keys), old(nodes), maxDepth, maxNodes))
      decreases maxNodes - nodes, 0
    {
      hide Copying, SameMap, Allocator, Closed, Extends, MeetsUnsupported, Busy, Progress, Reach, Reached, Entries, Near, OnTrail, LongPath, WalkEntries, Walk, Matches;
      WalkStep(g, value, depth, m.Keys, nodes, maxDepth, maxNodes);
      forall id | id in m ensures Reached(g, root, id) { NearIsReached(g, root, id, maxDepth); }
      OpenBound(g, root, m, host, open);
      if depth > maxDepth {
        TrailLong(g, root, open, trail, value, maxDepth);
        return DepthExceeded;
      }
      if nodes + 1 > maxNodes {
        nodes := nodes + 1;
        return NodesExceeded;
      }
      nodes := nodes + 1;
      ExtendsSelf(m);
      match value
      case GuestPrim(p) =>
        MatchesPrim(m, p);
        r := Done(HostPrim(p));
      case Unsupported =>
        r := CannotDump;
      case GuestRef(id) =>
        TrailNear(g, root, open, trail, id, maxDepth);
        r := VisitRef(id, depth, open, trail);
    }

    /** A reference is looked up by the address of its cell. */
    method VisitRef(id: nat, depth: nat, ghost open: map<nat, nat>, ghost trail: seq<nat>) returns (r: Outcome)
      requires Valid(open) && Held(kept, root, id) && id in g && Near(g, root, id, maxDepth)
      requires Counted(open, 1) && Busy(g, open) && depth == |open| && OnTrail(g, root, open, trail, GuestRef(id))
      modifies this
      ensures r.Done? ==> Valid(open) && Matches(m, GuestRef(id), r.value) && nodes >= old(nodes) && Extends(old(m), m) && old(host) <= host
      ensures r.Done? ==> Counted(open, 1)
      ensures Excuse(r)
      ensures Follows(r, WalkRef(g, id, depth, old(m.Keys), old(nodes), maxDepth, maxNodes))
      decreases maxNodes - nodes, 3
    {
      hide Copying, SameMap, Allocator, Closed, Extends, MeetsUnsupported, Busy, Progress, Reach, Reached, Entries, Near, OnTrail, LongPath, WalkEntries;
      LookupIsIdentity(addr, root, kept, seen, m, id);
      ExtendsSelf(m);
      var pointer := addr(kept, id);
      if pointer in seen {
        r := Done(seen[pointer]);
      } else if g[id].Boxed? {
        r := CopyBoxed(id, open);
      } else {
        r := VisitNode(id, depth, open, trail);
      }
    }

    /** A string, bigint or error that has not been seen. */
    method CopyBoxed(id: nat, ghost open: map<nat, nat>) returns (r: Outcome)
      requires Valid(open) && Held(kept, root, id) && id in g && g[id].Boxed? && id !in m && Near(g, root, id, maxDepth) && Counted(open, 1)
      modifies this`seen, this`m
      ensures r.Done? && Valid(open) && Matches(m, GuestRef(id), r.value) && Extends(old(m), m) && Counted(open, 1)
      ensures m.Keys == old(m.Keys) + {id}
    {
      hide Copying, SameMap, Allocator, Closed, Extends, Progress, Near;
      var converted := HostText(g[id].text);
      BoxedCopied(g, m, host, open, id);
      OpenKeys(g, m, host, open);
      NewCell(g, open, m.Keys, id);
      assert m[id := converted].Keys == m.Keys + {id};
      SeenOne(addr, root, kept, seen, m, id, converted);
      ExtendsOne(m, id, converted);
      seen := seen[addr(kept, id) := converted];
      m := m[id := converted];
      r := Done(converted);
    }

    /** An array or object that has not been seen: its entries are fetched, held and visited one by one. */
    method VisitNode(id: nat, depth: nat, ghost open: map<nat, nat>, ghost trail: seq<nat>) returns (r: Outcome)
      requires Valid(open) && Held(kept, root, id) && id in g && g[id].Node? && id !in m && Near(g, root, id, maxDepth)
      requires Counted(open, 1) && Busy(g, open) && depth == |open| && OnTrail(g, root, open, trail, GuestRef(id))
      modifies this
      ensures r.Done? ==> Valid(open) && Matches(m, GuestRef(id), r.value) && nodes >= old(nodes) && Extends(old(m), m) && old(host) <= host
      ensures r.Done? ==> Counted(open, 1)
      ensures Excuse(r)
      ensures Follows(r, WalkEntries(g, g[id].entries, depth, old(m.Keys) + {id}, old(nodes), maxDepth, maxNodes))
      decreases maxNodes - nodes, 2, 1
    {
      hide Copying, SameMap, Allocator, Closed, Extends, MeetsUnsupported, Matches, Busy, Progress, Reach, Reached, Entries, Near, OnTrail, LongPath, WalkEntries, Follows;
      OpenKeys(g, m, host, open);
      var at := |host|;
      OpenNode(id, open);
      ghost var m0 := m;
      r := VisitEntries(id, at, depth, open, trail);
      if r.Done? {
        ExtendsTrans(old(m), m0, m);
        MatchesRef(m, id);
      }
    }

    /** The entries of a node for which an empty copy has been made. */
    method VisitEntries(id: nat, at: nat, depth: nat, ghost open: map<nat, nat>, ghost trail: seq<nat>) returns (r: Outcome)
      requires id in g && g[id].Node? && Valid(open[id := 0]) && id !in open && depth == |open|
      requires Counted(open[id := 0], 0) && Busy(g, open) && OnTrail(g, root, open, trail, GuestRef(id))
      requires id in m && m[id] == HostRef(at) && |host| == at + 1
      modifies this
      ensures r.Done? ==> r.value == HostRef(at) && Valid(open) && nodes >= old(nodes) && Extends(old(m), m) && id in m && m[id] == HostRef(at)
      ensures r.Done? ==> Counted(open, 1) && |host| > at && host[..at] == old(host[..at])
      ensures Excuse(r)
      ensures Follows(r, WalkEntries(g, g[id].entries, depth, old(m.Keys), old(nodes), maxDepth, maxNodes))
      decreases maxNodes - nodes, 2, 0
    {
      hide Copying, SameMap, Allocator, Closed, Extends, MeetsUnsupported, Matches, Busy, Progress, Reach, Reached, Entries, Near, OnTrail, LongPath, Walk, WalkEntries;
      var cell := g[id];
      ghost var whole := WalkEntries(g, cell.entries, depth, m.Keys, nodes, maxDepth, maxNodes);
      assert cell.entries[0..] == cell.entries;
      ExtendsSelf(m);
      var i := 0;
      while i < |cell.entries|
        invariant 0 <= i <= |cell.entries| && Valid(open[id := i]) && id in m && m[id] == HostRef(at)
        invariant Extends(old(m), m) && at < |host| && host[..at] == old(host[..at]) && nodes >= old(nodes)
        invariant Counted(open[id := i], 0) && whole == WalkEntries(g, cell.entries[i..], depth, m.Keys, nodes, maxDepth, maxNodes)
      {
        ghost var m0, nodes0 := m, nodes;
        var v := VisitEntry(id, at, i, depth, open, trail);
        WalkNext(g, cell.entries, i, depth, m0.Keys, nodes0, maxDepth, maxNodes);
        if !v.Done? {
          return v;
        }
        ExtendsTrans(old(m), m0, m);
        i := i + 1;
      }
      WalkEnd(g, cell.entries[i..], depth, m.Keys, nodes, maxDepth, maxNodes);
      NodeClosed(g, m, host, open, id, i);
      LastEntry(g, open, m.Keys, id, i);
      SizeOne(open, id, i);
      r := Done(HostRef(at));
    }

    /** An empty array or object is made and remembered. */
    method OpenNode(id: nat, ghost open: map<nat, nat>)
      requires Valid(open) && Held(kept, root, id) && id in g && g[id].Node? && id !in m && Near(g, root, id, maxDepth) && Counted(open, 1)
      modifies this
      ensures Counted(open[id := 0], 0) && m.Keys == old(m.Keys) + {id}
      ensures Valid(open[id := 0]) && m == old(m)[id := HostRef(|old(host)|)] && Extends(old(m), m)
      ensures old(host) <= host && |host| == |old(host)| + 1 && nodes == old(nodes)
    {
      hide Copying, SameMap, Allocator, Closed, Extends, Near, Progress;
      var cell, at := g[id], |host|;
      OpenKeys(g, m, host, open);
      NewCell(g, open, m.Keys, id);
      assert m[id := HostRef(at)].Keys == m.Keys + {id};
      ClosedNode(g, root, id);
      NodeOpened(g, m, host, open, id, HostCell(cell.isArray, [], []));
      SeenOne(addr, root, kept, seen, m, id, HostRef(at));
      ExtendsOne(m, id, HostRef(at));
      seen := seen[addr(kept, id) := HostRef(at)];
      m := m[id := HostRef(at)];
      host := host + [HostCell(cell.isArray, [], [])];
    }

    /** One entry is fetched, held, visited and added to the copy. */
    method VisitEntry(id: nat, at: nat, i: nat, depth: nat, ghost open: map<nat, nat>, ghost trail: seq<nat>) returns (v: Outcome)
      requires id in g && g[id].Node? && i < |g[id].entries| && Valid(open[id := i]) && id !in open && depth == |open|
      requires Counted(open[id := i], 0) && Busy(g, open) && OnTrail(g, root, open, trail, GuestRef(id))
      requires id in m && m[id] == HostRef(at) && at < |host|
      modifies this
      ensures v.Done? ==> Valid(open[id := i + 1]) && nodes >= old(nodes) && Extends(old(m), m) && id in m && m[id] == old(m)[id]
      ensures v.Done? ==> |old(host)| <= |host| && host[..at] == old(host[..at]) && Counted(open[id := i + 1], 0)
      ensures Excuse(v)
      ensures Follows(v, Walk(g, g[id].entries[i], depth + 1, old(m.Keys), old(nodes), maxDepth, maxNodes))
      decreases maxNodes - nodes, 1
    {
      hide Copying, SameMap, Allocator, Closed, Extends, MeetsUnsupported, Matches, Progress, Reach, Reached, Entries, Busy, Near, OnTrail, LongPath, Walk, WalkEntries;
      BusyOne(g, open, id, i);
      var cell := g[id];
      ClosedNode(g, root, id);
      SizeOne(open, id, i);
      TrailEntry(g, root, open, trail, id, i);
      NearIsReached(g, root, id, maxDepth);
      var entry := cell.entries[i];
      Hold(entry);
      ghost var m0, h0 := m, host;
      v := Visit(entry, depth + 1, open[id := i], trail + [id]);
      UnsupportedEntry(g, root, id, i);
      if v.Done? {
        ExtendsAt(m0, m, id);
        AddEntry(id, at, i, v.value, open);
      }
    }

    /** The copy of an entry is added to the copy of its node. */
    method AddEntry(id: nat, at: nat, i: nat, value: HostValue, ghost open: map<nat, nat>)
      requires id in g && g[id].Node? && i < |g[id].entries| && Valid(open[id := i]) && id !in open && Counted(open[id := i], 1)
      requires id in m && m[id] == HostRef(at) && at < |host| && Matches(m, g[id].entries[i], value)
      modifies this`host
      ensures Valid(open[id := i + 1]) && Counted(open[id := i + 1], 0) && |host| == |old(host)| && host[..at] == old(host[..at])
    {
      hide Copying, SameMap, Allocator, Closed, Matches, Progress, Near;
      ClosedNode(g, root, id);
      SizeOne(open, id, i);
      SizeOne(open, id, i + 1);
      EntryCopied(g, m, host, open[id := i], id, i, value);
      assert open[id := i][id := i + 1] == open[id := i + 1];
      NextEntry(g, open, m.Keys, id, i);
      host := host[at := WithEntry(g[id], host[at], i, value)];
    }

    /** The handle of an entry is kept until the walk is over. */
    method Hold(entry: GuestValue)
      requires Allocator(addr, root) && SameMap(addr, root, kept, seen, m)
      modifies this`kept
      ensures SameMap(addr, root, kept, seen, m) && (entry.GuestRef? ==> Held(kept, root, entry.id))
    {
      if entry.GuestRef? {
        KeepOne(addr, root, kept, seen, m, entry.id);
        kept := kept + [entry.id];
      }
    }
  }

  lemma WalkNext(g: Heap, vs: seq<GuestValue>, i: nat, depth: nat, seen: set<nat>, nodes: nat, maxDepth: nat, maxNodes: nat)
    requires i < |vs| && nodes <= maxNodes
    ensures var w := Walk(g, vs[i], depth + 1, seen, nodes, maxDepth, maxNodes);
            WalkEntries(g, vs[i..], depth, seen, nodes, maxDepth, maxNodes)
            == if w.kind.Through? then WalkEntries(g, vs[i + 1..], depth, w.seen, w.nodes, maxDepth, maxNodes) else w
  {
    hide Walk;
    assert vs[i..][0] == vs[i] && vs[i..][1..] == vs[i + 1..];
  }

  lemma WalkEnd(g: Heap, vs: seq<GuestValue>, depth: nat, seen: set<nat>, nodes: nat, maxDepth: nat, maxNodes: nat)
    requires vs == [] && nodes <= maxNodes
    ensures WalkEntries(g, vs, depth, seen, nodes, maxDepth, maxNodes) == Walked(Through, seen, nodes)
  {
  }

  /** Something that cannot be dumped can be reached. */
  ghost predicate MeetsUnsupported(g: Heap, root: GuestValue) {
    root == Unsupported || exists id :: id in Reach(g, root) && g[id].Node? && Unsupported in g[id].entries
  }

  lemma UnsupportedEntry(g: Heap, root: GuestValue, id: nat, i: nat)
    requires Reached(g, root, id) && id in g && g[id].Node? && i < |g[id].entries|
    ensures g[id].entries[i] == Unsupported ==> MeetsUnsupported(g, root)
  {
    hide Reached;
    assert id in Reach(g, root);
  }

  lemma ExtendsAt(m: map<nat, HostValue>, m': map<nat, HostValue>, id: nat)
    requires Extends(m, m') && id in m
    ensures id in m' && m'[id] == m[id]
  {
  }

  lemma MatchesPrim(m: map<nat, HostValue>, p: Prim)
    ensures Matches(m, GuestPrim(p), HostPrim(p))
  {
  }

  lemma MatchesRef(m: map<nat, HostValue>, id: nat)
    requires id in m
    ensures Matches(m, GuestRef(id), m[id])
  {
  }

  // ----- dump

  /** `m` maps the guest's cells to their copies, one to one for arrays and objects: every cell that can be
      reached has a copy, every cell of the host is a copy, and references lead to the same places. */
  ghost predicate Isomorphic(g: Heap, root: GuestValue, value: HostValue, host: seq<HostCell>, m: map<nat, HostValue>) {
    && Matches(m, root, value) && Copying(g, m, host, map[])
    && (forall p :: Path(g, root, p) ==> p[|p| - 1] in m)
  }

  lemma {:induction false} ReachedCopied(g: Heap, root: GuestValue, value: HostValue, host: seq<HostCell>, m: map<nat, HostValue>, p: seq<nat>)
    requires Matches(m, root, value) && Copying(g, m, host, map[]) && Path(g, root, p)
    ensures p[|p| - 1] in m
    decreases |p|
  {
    var n := |p| - 1;
    if n > 0 {
      var q := p[..n];
      assert forall k :: 0 <= k < n ==> q[k] == p[k];
      ReachedCopied(g, root, value, host, m, q);
      var id := p[n - 1];
      var k :| 0 <= k < |g[id].entries| && g[id].entries[k] == GuestRef(p[n]);
      assert CopiedTo(g, m, g[id], host[m[id].at], |g[id].entries|);
      assert Matches(m, g[id].entries[k], host[m[id].at].entries[k]);
    }
  }

  /** dump: the copy of everything that can be reached from the root. Unless there is a path of more than maxDepth
      different cells, there is a result exactly if one value, and one for every entry that can be reached, are
      at most maxNodes, and nothing of another kind can be reached. With a result every cell is within maxDepth
      references; what lies between the two conditions on the depth depends on the order of the walk. */
  method Dump(g: Heap, addr: Addresses, root: GuestValue, maxDepth: nat, maxNodes: nat) returns (r: Outcome, host: seq<HostCell>, ghost m: map<nat, HostValue>)
    requires Allocator(addr, root) && Closed(g, root)
    ensures r.Done? ==> Isomorphic(g, root, r.value, host, m) && m.Keys == Reach(g, root)
    ensures r.Done? ==> 1 + Entries(g, Reach(g, root)) <= maxNodes && !MeetsUnsupported(g, root)
    ensures r.Done? ==> forall id :: id in Reach(g, root) ==> Near(g, root, id, maxDepth)
    ensures r == DepthExceeded ==> LongPath(g, root, maxDepth) && maxDepth < |Reach(g, root)|
    ensures r == NodesExceeded ==> maxNodes < 1 + Entries(g, Reach(g, root))
    ensures r == CannotDump ==> MeetsUnsupported(g, root)
    ensures Ends(r, Walk(g, root, 0, {}, 0, maxDepth, maxNodes).kind)
  {
    hide Copying, SameMap, Allocator, Matches, Reach, Reached, Progress, MeetsUnsupported, Entries, Near, OnTrail, LongPath, Walk;
    var d := new Dumper(g, addr, root, maxDepth, maxNodes);
    TrailStart(g, root);
    r := d.Visit(root, 0, map[], []);
    host, m := d.host, d.m;
    if r.Done? {
      forall id | id in m ensures Reached(g, root, id) { NearIsReached(g, root, id, maxDepth); }
      forall p | Path(g, root, p) ensures p[|p| - 1] in m {
        ReachedCopied(g, root, r.value, host, m, p);
      }
      AllReached(g, root, r.value, host, m);
      EntriesAre(g, m.Keys);
    } else if root == Unsupported {
      RootUnsupported(g, root);
    }
    if r == DepthExceeded { LongPathNeedsCells(g, root, maxDepth); }
  }

  lemma TrailStart(g: Heap, root: GuestValue)
    ensures OnTrail(g, root, map[], [], root) && Busy(g, map[])
  {
  }

  lemma RootUnsupported(g: Heap, root: GuestValue)
    requires root == Unsupported
    ensures MeetsUnsupported(g, root)
  {
  }

  lemma EntriesAre(g: Heap, s: set<nat>)
    ensures Entries(g, s) == Progress(g, map[], s)
  {
  }

  lemma AllReached(g: Heap, root: GuestValue, value: HostValue, host: seq<HostCell>, m: map<nat, HostValue>)
    requires Isomorphic(g, root, value, host, m) && forall id :: id in m ==> Reached(g, root, id)
    ensures m.Keys == Reach(g, root) && !MeetsUnsupported(g, root)
  {
    OpenKeys(g, m, host, map[]);
    forall id | id in Reach(g, root) ensures id in m {
      var p :| Path(g, root, p) && p[|p| - 1] == id;
    }
    forall id | id in Reach(g, root) && g[id].Node? ensures Unsupported !in g[id].entries {
      CopiedIsSupported(g, m, host, id);
    }
  }

  lemma CopiedIsSupported(g: Heap, m: map<nat, HostValue>, host: seq<HostCell>, id: nat)
    requires Copying(g, m, host, map[]) && id in m && g[id].Node?
    ensures Unsupported !in g[id].entries
  {
    var h := host[m[id].at];
    assert CopiedTo(g, m, g[id], h, |g[id].entries|);
    forall k | 0 <= k < |g[id].entries| ensures g[id].entries[k] != Unsupported {
      assert Matches(m, g[id].entries[k], h.entries[k]);
    }
  }
}
