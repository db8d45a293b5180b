/**
 * Bytes, little-endian integers as written by `struct.pack("<...")`, and the
 * two foreign primitives the archive writer calls (SHA-1 and zlib).
 */
module Bytes {

  type byte = b: int | 0 <= b < 256

  /** A 160-bit SHA-1 digest. */
  type Digest = d: seq<byte> | |d| == 20 witness Zeros(20)

  /**
   * The foreign library calls: `hashlib.sha1(...).digest()` and
   * `zlib.compress(...)`. Both are opaque to the model; a streaming hasher fed
   * with several `update` calls is the hash of their concatenation.
   */
  datatype Primitives = Primitives(sha1: seq<byte> -> Digest, compress: seq<byte> -> seq<byte>)

  /** `hashlib.sha1(b).digest()` */
  function Sha1(prim: Primitives, b: seq<byte>): Digest
  {
    prim.sha1(b)
  }

  /** `zlib.compress(b)` */
  function Compress(prim: Primitives, b: seq<byte>): seq<byte>
  {
    prim.compress(b)
  }

  const U32_LIMIT: nat := 0x1_0000_0000
  const U64_LIMIT: nat := 0x1_0000_0000_0000_0000

  function Zeros(n: nat): (r: seq<byte>)
    ensures |r| == n
    ensures forall i :: 0 <= i < n ==> r[i] == 0
  {
    seq(n, _ => 0)
  }

  function Pow256(w: nat): (r: nat)
    ensures r > 0
  {
    if w == 0 then 1 else 256 * Pow256(w - 1)
  }

  lemma Pow256Widths()
    ensures Pow256(4) == U32_LIMIT
    ensures Pow256(8) == U64_LIMIT
  {
    assert Pow256(2) == 0x1_0000;
    assert Pow256(4) == 0x1_0000_0000;
    assert Pow256(6) == 0x1_0000_0000_0000;
  }

  /** The `w` low-order bytes of `x`, least significant first. */
  function LE(x: nat, w: nat): (r: seq<byte>)
    ensures |r| == w
  {
    if w == 0 then []
    else
      var lo: byte := x % 256;
      [lo] + LE(x / 256, w - 1)
  }

  /** The unsigned integer whose little-endian bytes are `b`. */
  function FromLE(b: seq<byte>): nat
  {
    if b == [] then 0 else b[0] + 256 * FromLE(b[1..])
  }

  lemma {:induction false} FromLEOfLE(x: nat, w: nat)
    requires x < Pow256(w)
    ensures FromLE(LE(x, w)) == x
  {
    if w > 0 {
      FromLEOfLE(x / 256, w - 1);
      assert LE(x, w)[1..] == LE(x / 256, w - 1);
    }
  }

  lemma {:induction false} FromLEBound(b: seq<byte>)
    ensures FromLE(b) < Pow256(|b|)
  {
    if b != [] {
      FromLEBound(b[1..]);
    }
  }

  lemma {:induction false} LEOfFromLE(b: seq<byte>)
    ensures LE(FromLE(b), |b|) == b
  {
    if b != [] {
      LEOfFromLE(b[1..]);
      assert FromLE(b) % 256 == b[0];
      assert FromLE(b) / 256 == FromLE(b[1..]);
    }
  }

  /** `pack("<I", x)` */
  function U32(x: nat): (r: seq<byte>)
    ensures |r| == 4
  {
    LE(x, 4)
  }

  /** A count below 256 packs to itself and three zero bytes. */
  lemma U32Small(x: nat)
    requires x < 256
    ensures U32(x) == [x, 0, 0, 0]
  {
    assert LE(x / 256, 3) == LE(0, 3) == [0, 0, 0];
  }

  /** `pack("<Q", x)` */
  function U64(x: nat): (r: seq<byte>)
    ensures |r| == 8
  {
    LE(x, 8)
  }

  lemma U32RoundTrip(x: nat)
    requires x < U32_LIMIT
    ensures FromLE(U32(x)) == x
  {
    Pow256Widths();
    FromLEOfLE(x, 4);
  }

  lemma U64RoundTrip(x: nat)
    requires x < U64_LIMIT
    ensures FromLE(U64(x)) == x
  {
    Pow256Widths();
    FromLEOfLE(x, 8);
  }

  /** `unpack_from("<I", b, off)` */
  function ReadU32(b: seq<byte>, off: nat): nat
    requires off + 4 <= |b|
  {
    FromLE(b[off..off + 4])
  }

  /** `unpack_from("<Q", b, off)` */
  function ReadU64(b: seq<byte>, off: nat): nat
    requires off + 8 <= |b|
  {
    FromLE(b[off..off + 8])
  }

  /** Reading back a u32 written at `off` gives the value written. */
  lemma ReadU32At(b: seq<byte>, off: nat, x: nat)
    requires off + 4 <= |b| && b[off..off + 4] == U32(x) && x < U32_LIMIT
    ensures ReadU32(b, off) == x
  {
    U32RoundTrip(x);
  }

  /** Reading back a u64 written at `off` gives the value written. */
  lemma ReadU64At(b: seq<byte>, off: nat, x: nat)
    requires off + 8 <= |b| && b[off..off + 8] == U64(x) && x < U64_LIMIT
    ensures ReadU64(b, off) == x
  {
    U64RoundTrip(x);
  }

  /** `pack("<%dQ" % len(xs), *xs)` */
  function U64s(xs: seq<nat>): (r: seq<byte>)
    ensures |r| == 8 * |xs|
  {
    seq(8 * |xs|, i requires 0 <= i < 8 * |xs| => U64(xs[i / 8])[i % 8])
  }

  lemma U64sAt(xs: seq<nat>, i: nat)
    requires i < |xs|
    ensures U64s(xs)[8 * i..8 * i + 8] == U64(xs[i])
  {
    forall j | 0 <= j < 8
      ensures U64s(xs)[8 * i..8 * i + 8][j] == U64(xs[i])[j]
    {
      assert (8 * i + j) / 8 == i && (8 * i + j) % 8 == j;
    }
  }

  /** The bytes of `ss` joined in order (repeated `write` or `hasher.update`). */
  function Concat(ss: seq<seq<byte>>): (r: seq<byte>)
  {
    if ss == [] then [] else Concat(ss[..|ss| - 1]) + ss[|ss| - 1]
  }

  lemma ConcatAppend(ss: seq<seq<byte>>, s: seq<byte>)
    ensures Concat(ss + [s]) == Concat(ss) + s
  {
    assert (ss + [s])[..|ss|] == ss;
  }

  lemma {:induction false} ConcatSplit(a: seq<seq<byte>>, b: seq<seq<byte>>)
    ensures Concat(a + b) == Concat(a) + Concat(b)
  {
    if b == [] {
      assert a + b == a;
    } else {
      var b' := b[..|b| - 1];
      ConcatSplit(a, b');
      assert (a + b)[..|a + b| - 1] == a + b';
    }
  }

  /** Where piece `i` of `ss` lies inside `Concat(ss)`. */
  lemma ConcatAt(ss: seq<seq<byte>>, i: nat)
    requires i < |ss|
    ensures |Concat(ss[..i])| + |ss[i]| <= |Concat(ss)|
    ensures Concat(ss[..i + 1]) == Concat(ss[..i]) + ss[i]
    ensures Concat(ss)[|Concat(ss[..i])|..|Concat(ss[..i])| + |ss[i]|] == ss[i]
  {
    assert ss[..i + 1] == ss[..i] + [ss[i]];
    ConcatAppend(ss[..i], ss[i]);
    assert ss == ss[..i + 1] + ss[i + 1..];
    ConcatSplit(ss[..i + 1], ss[i + 1..]);
  }
}
