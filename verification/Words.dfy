/** Little-endian machine words, as `dbuf_put_u16`, `dbuf_put_u32`, `get_u16` and `get_u32` lay them out. */
module Words {

  type u8 = x: int | 0 <= x < 0x100

  const INT32_MAX := 0x7fff_ffff
  const UINT32_MAX := 0xffff_ffff

  function U16(v: int): seq<u8> {
    [v % 256, v / 256 % 256]
  }

  /** Two's complement: a negative value is stored modulo 2^32. */
  function U32(v: int): (b: seq<u8>)
    ensures |b| == 4
  {
    [v % 256, v / 256 % 256, v / 65536 % 256, v / 16777216 % 256]
  }

  function Get16(b: seq<u8>, p: nat): int
    requires p + 2 <= |b|
  {
    b[p] as int + 256 * (b[p + 1] as int)
  }

  function Get32(b: seq<u8>, p: nat): int
    requires p + 4 <= |b|
  {
    b[p] as int + 256 * (b[p + 1] as int) + 65536 * (b[p + 2] as int) + 16777216 * (b[p + 3] as int)
  }

  /** The C cast `(int)` of a `uint32_t`. */
  function ToSigned(v: int): int {
    if v > INT32_MAX then v - 0x1_0000_0000 else v
  }

  /** `f` occupies the bytes of `b` that start at `p`. */
  ghost predicate At(b: seq<u8>, p: nat, f: seq<u8>) {
    p + |f| <= |b| && b[p..p + |f|] == f
  }

  lemma AtSplit(b: seq<u8>, p: nat, f: seq<u8>, g: seq<u8>)
    requires At(b, p, f + g)
    ensures At(b, p, f) && At(b, p + |f|, g)
  {
    var s := b[p..p + |f + g|];
    assert s == f + g;
    assert b[p..p + |f|] == s[..|f|] == f;
    assert b[p + |f|..p + |f| + |g|] == s[|f|..] == g;
  }

  lemma AtIndex(b: seq<u8>, p: nat, f: seq<u8>, k: nat)
    requires At(b, p, f) && k < |f|
    ensures b[p + k] == f[k]
  {
    assert b[p..p + |f|][k] == f[k];
  }

  lemma Get16At(b: seq<u8>, p: nat, v: int)
    requires At(b, p, U16(v)) && 0 <= v < 0x1_0000
    ensures Get16(b, p) == v
  {
    AtIndex(b, p, U16(v), 0);
    AtIndex(b, p, U16(v), 1);
  }

  lemma Get32At(b: seq<u8>, p: nat, v: int)
    requires At(b, p, U32(v))
    ensures Get32(b, p) == v % 0x1_0000_0000
  {
    AtIndex(b, p, U32(v), 0);
    AtIndex(b, p, U32(v), 1);
    AtIndex(b, p, U32(v), 2);
    AtIndex(b, p, U32(v), 3);
    FourBytes(v);
  }

  lemma FourBytes(v: int)
    ensures v % 256 + 256 * (v / 256 % 256) + 65536 * (v / 65536 % 256) + 16777216 * (v / 16777216 % 256)
            == v % 0x1_0000_0000
  {
    var a := v / 256;
    var b := a / 256;
    var c := b / 256;
    assert b == v / 65536 && c == v / 16777216;
    assert v == 256 * a + v % 256 && a == 256 * b + a % 256 && b == 256 * c + b % 256 && c == 256 * (c / 256) + c % 256;
  }

  lemma Get32AtSmall(b: seq<u8>, p: nat, v: int)
    requires At(b, p, U32(v)) && 0 <= v < 0x1_0000_0000
    ensures Get32(b, p) == v
  {
    Get32At(b, p, v);
  }

  lemma GetSignedAt(b: seq<u8>, p: nat, v: int)
    requires At(b, p, U32(v)) && -0x8000_0000 <= v <= INT32_MAX
    ensures ToSigned(Get32(b, p)) == v
  {
    Get32At(b, p, v);
    if v < 0 {
      assert (v + 0x1_0000_0000) % 0x1_0000_0000 == v + 0x1_0000_0000;
    }
  }

  /** The concatenation of 16-bit words, and of 32-bit words. */
  function U16s(vs: seq<int>): (b: seq<u8>)
    ensures |b| == 2 * |vs|
  {
    if vs == [] then [] else U16(vs[0]) + U16s(vs[1..])
  }

  function U32s(vs: seq<int>): (b: seq<u8>)
    ensures |b| == 4 * |vs|
  {
    if vs == [] then [] else U32(vs[0]) + U32s(vs[1..])
  }

  function Get16s(b: seq<u8>, p: nat, n: nat): (vs: seq<int>)
    requires p + 2 * n <= |b|
    ensures |vs| == n
    decreases n
  {
    if n == 0 then [] else [Get16(b, p)] + Get16s(b, p + 2, n - 1)
  }

  function Get32s(b: seq<u8>, p: nat, n: nat): (vs: seq<int>)
    requires p + 4 * n <= |b|
    ensures |vs| == n
    decreases n
  {
    if n == 0 then [] else [Get32(b, p)] + Get32s(b, p + 4, n - 1)
  }

  lemma {:induction false} Get16sAt(b: seq<u8>, p: nat, vs: seq<int>)
    requires At(b, p, U16s(vs)) && forall k :: 0 <= k < |vs| ==> 0 <= vs[k] < 0x1_0000
    ensures Get16s(b, p, |vs|) == vs
    decreases |vs|
  {
    if vs != [] {
      AtSplit(b, p, U16(vs[0]), U16s(vs[1..]));
      Get16At(b, p, vs[0]);
      Get16sAt(b, p + 2, vs[1..]);
      assert vs == [vs[0]] + vs[1..];
    }
  }

  lemma {:induction false} Get32sAt(b: seq<u8>, p: nat, vs: seq<int>)
    requires At(b, p, U32s(vs)) && forall k :: 0 <= k < |vs| ==> 0 <= vs[k] < 0x1_0000_0000
    ensures Get32s(b, p, |vs|) == vs
    decreases |vs|
  {
    if vs != [] {
      AtSplit(b, p, U32(vs[0]), U32s(vs[1..]));
      Get32AtSmall(b, p, vs[0]);
      Get32sAt(b, p + 4, vs[1..]);
      assert vs == [vs[0]] + vs[1..];
    }
  }
}
