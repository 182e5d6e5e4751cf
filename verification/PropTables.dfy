/** Properties of characters as run lengths: the search through the index agrees with decoding the whole table. */
module PropTables {
  import opened Words
  import opened Syntax
  import opened CharRanges

  type byte = x: nat | x < 256

  function At(s: seq<byte>, i: nat): nat
    requires i < |s|
  {
    s[i]
  }

  // ----- run lengths

  /** The number of bytes of the entry that starts with `b`. */
  function EntryBytes(b: byte): nat {
    if b < 64 || b >= 0x80 then 1 else if b < 0x60 then 2 else 3
  }

  predicate WholeEntry(table: seq<byte>, p: nat) {
    p < |table| && p + EntryBytes(table[p]) <= |table|
  }

  /** The length of the entry's first run of the two, or of its only run. */
  function FirstRun(table: seq<byte>, p: nat): (n: nat)
    requires WholeEntry(table, p)
    ensures n > 0
  {
    var b := At(table, p);
    if b < 64 then b / 8 + 1
    else if b >= 0x80 then b - 0x80 + 1
    else if b < 0x60 then (b - 0x40) * 0x100 + At(table, p + 1) + 1
    else (b - 0x60) * 0x10000 + At(table, p + 1) * 0x100 + At(table, p + 2) + 1
  }

  /** The length of the second run, if there are two. */
  function SecondRun(table: seq<byte>, p: nat): nat
    requires WholeEntry(table, p)
  {
    if table[p] < 64 then At(table, p) % 8 + 1 else 0
  }

  function NextEntry(table: seq<byte>, p: nat): nat
    requires WholeEntry(table, p)
  {
    p + EntryBytes(table[p])
  }

  function NextCode(table: seq<byte>, p: nat, code: nat): (n: nat)
    requires WholeEntry(table, p)
    ensures n > code
  {
    code + FirstRun(table, p) + SecondRun(table, p)
  }

  /** An entry with two runs leaves the bit as it was. */
  function NextBit(table: seq<byte>, p: nat, bit: bool): bool
    requires WholeEntry(table, p)
  {
    if table[p] < 64 then bit else !bit
  }

  /** Entries are complete from `p` on. */
  predicate Complete(table: seq<byte>, p: nat)
    decreases |table| - p
  {
    p == |table| || (WholeEntry(table, p) && Complete(table, NextEntry(table, p)))
  }

  /** The bit of character `c`, decoding from `p` on, where `code` and `bit` are reached. */
  function BitOf(table: seq<byte>, p: nat, code: nat, bit: bool, c: nat): bool
    requires Complete(table, p)
    decreases |table| - p
  {
    if p == |table| || c < code then false
    else if c < code + FirstRun(table, p) then bit
    else if c < NextCode(table, p, code) then !bit
    else BitOf(table, NextEntry(table, p), NextCode(table, p, code), NextBit(table, p, bit), c)
  }

  // ----- the whole table: unicode_prop1

  ghost predicate Built(points: seq<nat>, table: seq<byte>, p: nat, code: nat, bit: bool) {
    && Complete(table, p) && Complete(table, 0) && Increasing(points)
    && (forall k :: 0 <= k < |points| ==> points[k] <= code) && (bit && points != [] ==> points[|points| - 1] < code)
    && (!bit || points == [] || points[|points| - 1] < code)
    && forall c: nat :: BitOf(table, 0, 0, false, c) == if c < code then InClass(points, c) else BitOf(table, p, code, bit, c)
  }

  lemma BuiltStart(table: seq<byte>)
    requires Complete(table, 0)
    ensures Built([], table, 0, 0, false)
  {
  }

  /** Adding an interval behind the others. */
  lemma AddedInterval(points: seq<nat>, c0: nat, c1: nat)
    requires Increasing(points) && (points != [] ==> points[|points| - 1] < c0) && c0 < c1 <= UINT32_MAX
    ensures Increasing(points + [c0, c1])
    ensures forall c: nat :: InClass(points + [c0, c1], c) <==> InClass(points, c) || c0 <= c < c1
  {
    var t := points + [c0, c1];
    forall c: nat ensures InClass(t, c) <==> InClass(points, c) || c0 <= c < c1 {
      MemberLast(t, c);
      assert t[..|t| - 2] == points;
    }
  }

  lemma NotBeyond(points: seq<nat>, c: nat)
    requires |points| % 2 == 0 && forall k :: 0 <= k < |points| ==> points[k] <= c
    ensures !InClass(points, c)
  {
  }

  /** unicode_prop1 */
  method UnicodeProp1(cr: CharRange, table: seq<byte>)
    requires cr.points == [] && Complete(table, 0) && End(table, 0, 0) <= UINT32_MAX
    modifies cr
    ensures Increasing(cr.points) && forall c: nat :: InClass(cr.points, c) <==> BitOf(table, 0, 0, false, c)
  {
    var p: nat, code: nat, bit := 0, 0, false;
    BuiltStart(table);
    hide Built, Complete, BitOf, End, InClass, Increasing, FirstRun, SecondRun, NextEntry, NextCode, NextBit, EntryPoints, WholeEntry;
    while p < |table|
      invariant p <= |table| && Built(cr.points, table, p, code, bit) && End(table, p, code) == End(table, 0, 0) && Complete(table, p)
      decreases |table| - p
    {
      EntryWhole(table, p, code);
      BuiltEntry(cr.points, table, p, code, bit);
      code, bit := AddRuns(cr, table, p, code, bit);
      p := NextEntry(table, p);
    }
    BuiltEnd(cr.points, table, p, code, bit);
  }

  /** One entry: its runs inside the set are added. */
  method AddRuns(cr: CharRange, table: seq<byte>, p: nat, code0: nat, bit0: bool) returns (code: nat, bit: bool)
    requires WholeEntry(table, p)
    modifies cr
    ensures cr.points == old(cr.points) + EntryPoints(table, p, code0, bit0)
    ensures code == NextCode(table, p, code0) && bit == NextBit(table, p, bit0)
  {
    hide FirstRun;
    var c0 := code0;
    code, bit := code0 + FirstRun(table, p), bit0;
    if bit {
      cr.AddInterval(c0, code);
    }
    if table[p] < 64 {
      c0 := code;
      code := code + SecondRun(table, p);
      if !bit {
        cr.AddInterval(c0, code);
      }
    } else {
      bit := !bit;
    }
  }

  /** The code behind the last run. */
  function End(table: seq<byte>, p: nat, code: nat): (n: nat)
    requires Complete(table, p)
    ensures n >= code
    decreases |table| - p
  {
    if p == |table| then code else End(table, NextEntry(table, p), NextCode(table, p, code))
  }

  lemma EntryWhole(table: seq<byte>, p: nat, code: nat)
    requires p < |table| && Complete(table, p)
    ensures WholeEntry(table, p) && Complete(table, NextEntry(table, p)) && p < NextEntry(table, p) <= |table|
    ensures End(table, p, code) == End(table, NextEntry(table, p), NextCode(table, p, code)) && NextCode(table, p, code) <= End(table, p, code)
  {
  }

  /** What the entry adds: its first run if the bit is set, its second run if not. */
  function EntryPoints(table: seq<byte>, p: nat, code: nat, bit: bool): seq<nat>
    requires WholeEntry(table, p)
  {
    if bit then [code, code + FirstRun(table, p)]
    else if table[p] < 64 then [code + FirstRun(table, p), NextCode(table, p, code)]
    else []
  }

  lemma BuiltEntry(points: seq<nat>, table: seq<byte>, p: nat, code: nat, bit: bool)
    requires Built(points, table, p, code, bit) && p < |table| && WholeEntry(table, p) && NextCode(table, p, code) <= UINT32_MAX
    ensures Built(points + EntryPoints(table, p, code, bit), table, NextEntry(table, p), NextCode(table, p, code), NextBit(table, p, bit))
  {
    var e, code', bit' := EntryPoints(table, p, code, bit), NextCode(table, p, code), NextBit(table, p, bit);
    if e != [] { AddedInterval(points, e[0], e[1]); } else { assert points + e == points; }
    hide InClass;
    forall c: nat ensures BitOf(table, 0, 0, false, c) == if c < code' then InClass(points + e, c) else BitOf(table, NextEntry(table, p), code', bit', c) {
      assert BitOf(table, 0, 0, false, c) == if c < code then InClass(points, c) else BitOf(table, p, code, bit, c);
      if c >= code { NotBeyond(points, c); }
    }
  }

  lemma BuiltEnd(points: seq<nat>, table: seq<byte>, p: nat, code: nat, bit: bool)
    requires Built(points, table, p, code, bit) && p == |table|
    ensures Increasing(points) && forall c: nat :: InClass(points, c) <==> BitOf(table, 0, 0, false, c)
  {
    hide InClass;
    forall c: nat ensures InClass(points, c) <==> BitOf(table, 0, 0, false, c) {
      assert BitOf(table, 0, 0, false, c) == if c < code then InClass(points, c) else BitOf(table, p, code, bit, c);
      if c >= code { NotBeyond(points, c); }
    }
  }

  // ----- the index

  const UNICODE_INDEX_BLOCK_LEN := 32
  const CODE_RANGE := 0x20_0000

  /** get_le24 */
  function GetLe24(s: seq<byte>, i: nat): nat
    requires i + 2 < |s|
  {
    At(s, i) + At(s, i + 1) * 0x100 + At(s, i + 2) * 0x1_0000
  }

  function IndexWord(index: seq<byte>, i: nat): nat
    requires 3 * i + 2 < |index|
  {
    GetLe24(index, 3 * i)
  }

  function IndexCode(index: seq<byte>, i: nat): nat
    requires 3 * i + 2 < |index|
  {
    IndexWord(index, i) % CODE_RANGE
  }

  function IndexPos(index: seq<byte>, i: nat): nat
    requires 3 * i + 2 < |index|
  {
    (i + 1) * UNICODE_INDEX_BLOCK_LEN + IndexWord(index, i) / CODE_RANGE
  }

  /** Decoding from `p` on comes to byte `q` with these values. */
  predicate Reaches(table: seq<byte>, p: nat, code: nat, bit: bool, q: nat, code': nat, bit': bool)
    requires Complete(table, p)
    decreases |table| - p
  {
    if p == q then code == code' && bit == bit'
    else p < q && p < |table| && Reaches(table, NextEntry(table, p), NextCode(table, p, code), NextBit(table, p, bit), q, code', bit')
  }

  /** Every entry of the index but the last gives the code of a byte where an entry starts and the bit is 0;
      the last one gives the end of the table. */
  ghost predicate IndexOk(index: seq<byte>, n: nat, table: seq<byte>) {
    && n >= 1 && |index| == 3 * n && Complete(table, 0)
    && (forall i, j :: 0 <= i < j < n ==> Entry(index, i) % 0x200000 <= Entry(index, j) % 0x200000)
    && (forall i :: 0 <= i < n - 1 ==>
          Reaches(table, 0, 0, false, 32 * (i + 1) + Entry(index, i) / 0x200000, Entry(index, i) % 0x200000, false))
    && Entry(index, n - 1) < 0x200000 && Entry(index, n - 1) == End(table, 0, 0)
  }

  /** Three bytes, the lowest first. */
  ghost function Entry(index: seq<byte>, i: nat): nat
    requires 3 * i + 2 < |index|
  {
    (index[3 * i] as nat) + 0x100 * (index[3 * i + 1] as nat) + 0x1_0000 * (index[3 * i + 2] as nat)
  }

  lemma EntryIs(index: seq<byte>, i: nat)
    requires 3 * i + 2 < |index|
    ensures IndexWord(index, i) == Entry(index, i) && IndexCode(index, i) == Entry(index, i) % 0x200000
    ensures IndexPos(index, i) == 32 * (i + 1) + Entry(index, i) / 0x200000
  {
  }

  lemma {:induction false} ReachedBit(table: seq<byte>, p: nat, code: nat, bit: bool, q: nat, code': nat, bit': bool, c: nat)
    requires Complete(table, p) && Reaches(table, p, code, bit, q, code', bit') && c >= code'
    ensures code' >= code && p <= q <= |table| && Complete(table, q) && BitOf(table, p, code, bit, c) == BitOf(table, q, code', bit', c)
    ensures End(table, p, code) == End(table, q, code')
    decreases |table| - p
  {
    if p != q {
      ReachedBit(table, NextEntry(table, p), NextCode(table, p, code), NextBit(table, p, bit), q, code', bit', c);
    }
  }

  /** get_index_pos: -1 behind the table, otherwise where to start decoding and the code there. */
  method GetIndexPos(c: nat, index: seq<byte>, n: nat, ghost table: seq<byte>) returns (pos: int, code: nat)
    requires IndexOk(index, n, table)
    ensures Complete(table, 0) && (pos < 0 ==> c >= End(table, 0, 0))
    ensures pos >= 0 ==> c < End(table, 0, 0) && code <= c && Reaches(table, 0, 0, false, pos, code, false)
  {
    forall i | 0 <= i < n
      ensures IndexWord(index, i) == Entry(index, i) && IndexCode(index, i) == Entry(index, i) % 0x200000
      ensures IndexPos(index, i) == 32 * (i + 1) + Entry(index, i) / 0x200000
    {
      EntryIs(index, i);
    }
    hide IndexWord, IndexCode, IndexPos, Entry;
    var idxMin := 0;
    assert n > 1 ==> IndexCode(index, 0) <= IndexCode(index, n - 1);
    if c < IndexCode(index, 0) {
      return 0, 0;
    }
    var idxMax := n - 1;
    if c >= IndexWord(index, idxMax) {
      return -1, 0;
    }
    while idxMax - idxMin > 1
      invariant 0 <= idxMin < idxMax < n && IndexCode(index, idxMin) <= c < IndexCode(index, idxMax)
      decreases idxMax - idxMin
    {
      var idx := (idxMax + idxMin) / 2;
      if c < IndexCode(index, idx) {
        idxMax := idx;
      } else {
        idxMin := idx;
      }
    }
    return IndexPos(index, idxMin), IndexCode(index, idxMin);
  }

  /** lre_is_in_table: starts decoding where the index says. */
  method IsInTable(c: nat, table: seq<byte>, index: seq<byte>, n: nat) returns (r: bool)
    requires IndexOk(index, n, table)
    ensures r == BitOf(table, 0, 0, false, c)
  {
    hide BitOf, End, Complete, Reaches;
    TableComplete(index, n, table);
    var pos: int, code: nat;
    pos, code := GetIndexPos(c, index, n, table);
    if pos < 0 {
      BehindTable(table, 0, 0, false, c);
      return false;
    }
    ReachedBit(table, 0, 0, false, pos, code, false, c);
    var p: nat, bit := pos, false;
    while true
      invariant 0 <= p <= |table| && Complete(table, p) && code <= c < End(table, p, code)
      invariant BitOf(table, p, code, bit, c) == BitOf(table, 0, 0, false, c)
      decreases |table| - p
    {
      InsideTable(table, p, code, bit, c);
      if c < code + FirstRun(table, p) {
        return bit;
      }
      if table[p] < 64 && c < NextCode(table, p, code) {
        return !bit;
      }
      var p0 := p;
      bit, code, p := NextBit(table, p0, bit), NextCode(table, p0, code), NextEntry(table, p0);
    }
  }

  lemma TableComplete(index: seq<byte>, n: nat, table: seq<byte>)
    requires IndexOk(index, n, table)
    ensures Complete(table, 0)
  {
  }

  lemma InsideTable(table: seq<byte>, p: nat, code: nat, bit: bool, c: nat)
    requires Complete(table, p) && code <= c < End(table, p, code)
    ensures p < |table| && WholeEntry(table, p) && Complete(table, NextEntry(table, p)) && p < NextEntry(table, p) <= |table|
    ensures End(table, NextEntry(table, p), NextCode(table, p, code)) == End(table, p, code)
    ensures BitOf(table, p, code, bit, c) ==
              if c < code + FirstRun(table, p) then bit else if c < NextCode(table, p, code) then !bit
              else BitOf(table, NextEntry(table, p), NextCode(table, p, code), NextBit(table, p, bit), c)
    ensures table[p] >= 64 ==> NextCode(table, p, code) == code + FirstRun(table, p)
  {
  }

  lemma {:induction false} BehindTable(table: seq<byte>, p: nat, code: nat, bit: bool, c: nat)
    requires Complete(table, p) && c >= End(table, p, code)
    ensures !BitOf(table, p, code, bit, c)
    decreases |table| - p
  {
    if p != |table| {
      BehindTable(table, NextEntry(table, p), NextCode(table, p, code), NextBit(table, p, bit), c);
    }
  }

  /** The two ways of asking agree for every code point. */
  method BothAgree(table: seq<byte>, index: seq<byte>, n: nat, c: nat) returns (inTable: bool, cr: CharRange)
    requires IndexOk(index, n, table) && End(table, 0, 0) <= UINT32_MAX
    ensures fresh(cr) && Increasing(cr.points) && (inTable <==> InClass(cr.points, c))
  {
    hide BitOf, End, InClass, Increasing;
    TableComplete(index, n, table);
    cr := new CharRange();
    UnicodeProp1(cr, table);
    inTable := IsInTable(c, table, index, n);
  }

  // ----- the encoding, from run lengths

  /** The four forms of an entry. */
  datatype Run = Two(a: nat, b: nat) | Short(n: nat) | Middle(n: nat) | Long(n: nat)

  predicate Encodable(r: Run) {
    match r
    case Two(a, b) => 1 <= a <= 8 && 1 <= b <= 8
    case Short(n) => 1 <= n <= 0x80
    case Middle(n) => 1 <= n <= 0x2000
    case Long(n) => 1 <= n <= 0x200000
  }

  /** Lengths are stored minus one: 00..3f, 80..ff, 40..5f and 60..7f. */
  function Encoded(r: Run): seq<byte>
    requires Encodable(r)
  {
    match r
    case Two(a, b) => [8 * (a - 1) + (b - 1)]
    case Short(n) => [0x80 + (n - 1)]
    case Middle(n) => [0x40 + (n - 1) / 0x100, (n - 1) % 0x100]
    case Long(n) => [0x60 + (n - 1) / 0x1_0000, (n - 1) / 0x100 % 0x100, (n - 1) % 0x100]
  }

  function Lengths(r: Run): seq<nat> {
    match r
    case Two(a, b) => [a, b]
    case Short(n) => [n]
    case Middle(n) => [n]
    case Long(n) => [n]
  }

  function AllEncoded(rs: seq<Run>): seq<byte>
    requires forall k :: 0 <= k < |rs| ==> Encodable(rs[k])
  {
    if rs == [] then [] else Encoded(rs[0]) + AllEncoded(rs[1..])
  }

  function AllLengths(rs: seq<Run>): seq<nat> {
    if rs == [] then [] else Lengths(rs[0]) + AllLengths(rs[1..])
  }

  /** The runs are alternately outside and inside of the set; behind them nothing is inside. */
  function Alternating(lengths: seq<nat>, inside: bool, c: nat): bool {
    if lengths == [] then false
    else if c < lengths[0] then inside
    else Alternating(lengths[1..], !inside, c - lengths[0])
  }

  lemma EntryDecoded(table: seq<byte>, p: nat, r: Run)
    requires Encodable(r) && p + |Encoded(r)| <= |table| && table[p..p + |Encoded(r)|] == Encoded(r)
    ensures WholeEntry(table, p) && NextEntry(table, p) == p + |Encoded(r)|
    ensures FirstRun(table, p) == Lengths(r)[0] && SecondRun(table, p) == (if r.Two? then r.b else 0)
    ensures forall bit :: NextBit(table, p, bit) == if r.Two? then bit else !bit
  {
    var e := Encoded(r);
    assert table[p] == table[p..p + |e|][0] == e[0];
    match r
    case Two(a, b) => TwoDecoded(table, p, a, b);
    case Short(n) =>
    case Middle(n) =>
      assert table[p + 1] == table[p..p + |e|][1] == e[1];
      MiddleDecoded(table, p, n - 1);
    case Long(n) =>
      assert table[p + 1] == table[p..p + |e|][1] == e[1];
      assert table[p + 2] == table[p..p + |e|][2] == e[2];
      LongDecoded(table, p, n - 1);
  }

  lemma TwoDecoded(table: seq<byte>, p: nat, a: nat, b: nat)
    requires p < |table| && 1 <= a <= 8 && 1 <= b <= 8 && table[p] == 8 * (a - 1) + (b - 1)
    ensures WholeEntry(table, p) && FirstRun(table, p) == a && SecondRun(table, p) == b
  {
  }

  lemma MiddleDecoded(table: seq<byte>, p: nat, n: nat)
    requires p + 1 < |table| && n < 0x2000 && table[p] == 0x40 + n / 0x100 && table[p + 1] == n % 0x100
    ensures 0x40 <= table[p] < 0x60 && FirstRun(table, p) == n + 1
  {
    assert (table[p] - 0x40) * 0x100 + At(table, p + 1) == n;
  }

  lemma LongDecoded(table: seq<byte>, p: nat, n: nat)
    requires p + 2 < |table| && n < 0x20_0000 && table[p] == 0x60 + n / 0x1_0000 && table[p + 1] == n / 0x100 % 0x100 && table[p + 2] == n % 0x100
    ensures 0x60 <= table[p] < 0x80 && FirstRun(table, p) == n + 1
  {
    assert n / 0x100 == n / 0x1_0000 * 0x100 + n / 0x100 % 0x100;
    assert (table[p] - 0x60) * 0x10000 + At(table, p + 1) * 0x100 + At(table, p + 2) == n;
  }

  /** Decoding what has been encoded gives the set of the runs. */
  lemma {:induction false} EncodedBits(table: seq<byte>, p: nat, rs: seq<Run>, code: nat, bit: bool, c: nat)
    requires (forall k :: 0 <= k < |rs| ==> Encodable(rs[k])) && p <= |table| && table[p..] == AllEncoded(rs)
    ensures Complete(table, p)
    ensures BitOf(table, p, code, bit, c) == (c >= code && Alternating(AllLengths(rs), bit, c - code))
    decreases |rs|
  {
    hide Encoded, FirstRun, SecondRun, WholeEntry, NextEntry, NextBit, Alternating, Lengths;
    if rs == [] {
      NoBits(table, p, code, bit, c);
    } else {
      var r, e := rs[0], Encoded(rs[0]);
      assert table[p..p + |e|] == table[p..][..|e|] == e;
      assert table[p + |e|..] == table[p..][|e|..] == AllEncoded(rs[1..]);
      EntryDecoded(table, p, r);
      EncodedBits(table, p + |e|, rs[1..], NextCode(table, p, code), NextBit(table, p, bit), c);
      OneRun(r, AllLengths(rs[1..]), bit, c - code);
    }
  }

  lemma NoBits(table: seq<byte>, p: nat, code: nat, bit: bool, c: nat)
    requires p == |table|
    ensures Complete(table, p) && !BitOf(table, p, code, bit, c) && forall x: nat :: !Alternating([], bit, x)
  {
  }

  lemma OneRun(r: Run, rest: seq<nat>, bit: bool, x: int)
    requires Encodable(r)
    ensures var n := Lengths(r)[0] + if r.Two? then r.b else 0;
            x >= 0 ==>
              Alternating(Lengths(r) + rest, bit, x)
              == if x < Lengths(r)[0] then bit
                 else if x < n then !bit
                 else Alternating(rest, if r.Two? then bit else !bit, x - n)
  {
    if r.Two? {
      assert (Lengths(r) + rest)[1..] == [r.b] + rest && ([r.b] + rest)[1..] == rest;
    } else {
      assert (Lengths(r) + rest)[1..] == rest;
    }
  }

  /** The members of an encoded table are those of its runs. */
  lemma TableMembers(rs: seq<Run>, c: nat)
    requires forall k :: 0 <= k < |rs| ==> Encodable(rs[k])
    ensures Complete(AllEncoded(rs), 0) && BitOf(AllEncoded(rs), 0, 0, false, c) == Alternating(AllLengths(rs), false, c)
  {
    var table := AllEncoded(rs);
    assert table[0..] == table;
    EncodedBits(table, 0, rs, 0, false, c);
  }
}
