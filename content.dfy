/**
 * The content writer: a payload stored raw (`_write_data`) or split into
 * 65536-byte blocks compressed one by one (`_write_data_zlib`), preceded by a
 * table of absolute (start, end) offsets that is written as a placeholder
 * and filled in once the compressed sizes are known.
 */
module Content {
  import opened Bytes
  import opened Streams

  const BLOCK_SIZE: nat := 65536

  /** `pack("<BI", 0, 65536)`: no inner compression, the uncompressed block size. */
  const TRAILER: seq<byte> := [0, 0x00, 0x00, 0x01, 0x00]

  lemma TrailerBytes()
    ensures TRAILER == [0] + U32(BLOCK_SIZE)
  {
  }

  function Min(a: int, b: int): int
  {
    if a < b then a else b
  }

  /** `(size + buf_size - 1) // buf_size`: the number of blocks. */
  function BlockCount(size: nat): nat
  {
    (size + BLOCK_SIZE - 1) / BLOCK_SIZE
  }

  /** `data[i * buf_size:(i + 1) * buf_size]`: block `i`, the last one possibly short. */
  function Chunk(data: seq<byte>, i: nat): (r: seq<byte>)
    requires i < BlockCount(|data|)
    ensures 0 < |r| <= BLOCK_SIZE
  {
    data[i * BLOCK_SIZE..Min((i + 1) * BLOCK_SIZE, |data|)]
  }

  function Chunks(data: seq<byte>): (r: seq<seq<byte>>)
    ensures |r| == BlockCount(|data|)
    ensures forall i :: 0 <= i < |r| ==> r[i] == Chunk(data, i)
  {
    seq(BlockCount(|data|), i requires 0 <= i < BlockCount(|data|) => Chunk(data, i))
  }

  /** `zlib.compress(chunk)` for every block, in order. */
  function CompressedChunks(prim: Primitives, data: seq<byte>): (r: seq<seq<byte>>)
    ensures |r| == BlockCount(|data|)
    ensures forall i :: 0 <= i < |r| ==> r[i] == Compress(prim, Chunk(data, i))
  {
    seq(BlockCount(|data|), i requires 0 <= i < BlockCount(|data|) => Compress(prim, Chunk(data, i)))
  }

  /** Where the first compressed block begins when the content starts at `base`. */
  function FirstBlockStart(base: nat, n: nat): nat
  {
    base + 4 + n * 8 * 2 + 5
  }

  /** The total length of the first `k` compressed blocks. */
  function Offset(cs: seq<seq<byte>>, k: nat): nat
    requires k <= |cs|
  {
    if k == 0 then 0 else Offset(cs, k - 1) + |cs[k - 1]|
  }

  /** The (start, end) offsets of each block, laid end to end from `start`. */
  function BlockPairs(start: nat, cs: seq<seq<byte>>): (ps: seq<(nat, nat)>)
    ensures |ps| == |cs|
  {
    seq(|cs|, k requires 0 <= k < |cs| => (start + Offset(cs, k), start + Offset(cs, k + 1)))
  }

  /** Pairs flattened in order into alternating starts and ends. */
  function Flat(ps: seq<(nat, nat)>): (r: seq<nat>)
    ensures |r| == 2 * |ps|
  {
    if ps == [] then [] else Flat(ps[..|ps| - 1]) + [ps[|ps| - 1].0, ps[|ps| - 1].1]
  }

  /**
   * `compress_blocks`: the flat list of (start, end) pairs; the pair of block
   * `k` sits at indices `2k` and `2k + 1`.
   */
  function BlockTable(start: nat, cs: seq<seq<byte>>): (t: seq<nat>)
    ensures |t| == 2 * |cs|
  {
    Flat(BlockPairs(start, cs))
  }

  function BlockStart(t: seq<nat>, k: nat): nat
    requires 2 * k + 1 < |t|
  {
    t[2 * k]
  }

  function BlockEnd(t: seq<nat>, k: nat): nat
    requires 2 * k + 1 < |t|
  {
    t[2 * k + 1]
  }

  /**
   * The bytes `_write_data_zlib` leaves from `base` on, for compressed blocks
   * `cs`: block count, offset table, trailer, then the blocks themselves.
   */
  function ZlibLayout(base: nat, cs: seq<seq<byte>>): (r: seq<byte>)
    ensures |r| == FirstBlockStart(base, |cs|) - base + |Concat(cs)|
  {
    U32(|cs|) + U64s(BlockTable(FirstBlockStart(base, |cs|), cs)) + TRAILER + Concat(cs)
  }

  function ZlibBody(prim: Primitives, data: seq<byte>, base: nat): seq<byte>
  {
    ZlibLayout(base, CompressedChunks(prim, data))
  }

  /**
   * Every value `_write_data_zlib` packs fits its field (else `struct.pack`
   * raises): the block count is a u32 and every offset, up to the end of the
   * last block, a u64.
   */
  predicate ZlibFits(prim: Primitives, data: seq<byte>, base: nat)
  {
    BlockCount(|data|) < U32_LIMIT
    && FirstBlockStart(base, BlockCount(|data|)) + |Concat(CompressedChunks(prim, data))| < U64_LIMIT
  }

  lemma {:induction false} ChunksPrefix(data: seq<byte>, k: nat)
    requires k <= BlockCount(|data|)
    ensures Concat(Chunks(data)[..k]) == data[..Min(k * BLOCK_SIZE, |data|)]
  {
    if k > 0 {
      var cs := Chunks(data);
      ChunksPrefix(data, k - 1);
      assert cs[..k] == cs[..k - 1] + [cs[k - 1]];
      ConcatAppend(cs[..k - 1], cs[k - 1]);
      assert (k - 1) * BLOCK_SIZE < |data|;
    }
  }

  /** The blocks, joined in order, are exactly the payload. */
  lemma ChunksPartition(data: seq<byte>)
    ensures Concat(Chunks(data)) == data
  {
    var n := BlockCount(|data|);
    ChunksPrefix(data, n);
    assert Chunks(data)[..n] == Chunks(data);
  }

  /** Every block but the last is full; the last holds what remains. */
  lemma ChunkSizes(data: seq<byte>, i: nat)
    requires i < BlockCount(|data|)
    ensures i + 1 < BlockCount(|data|) ==> |Chunk(data, i)| == BLOCK_SIZE
    ensures i + 1 == BlockCount(|data|) ==> |Chunk(data, i)| == |data| - i * BLOCK_SIZE
  {
  }

  /** An 80000-byte payload makes two blocks, of 65536 and 14464 bytes. */
  lemma EightyThousandBytes(data: seq<byte>)
    requires |data| == 80000
    ensures BlockCount(|data|) == 2
    ensures |Chunk(data, 0)| == 65536 && |Chunk(data, 1)| == 14464
  {
  }

  /** The first `k` blocks, joined, are `Offset(cs, k)` bytes long. */
  lemma {:induction false} OffsetIsConcatLength(cs: seq<seq<byte>>, k: nat)
    requires k <= |cs|
    ensures Offset(cs, k) == |Concat(cs[..k])|
  {
    if k > 0 {
      OffsetIsConcatLength(cs, k - 1);
      ConcatAt(cs, k - 1);
    }
  }

  lemma OffsetStep(cs: seq<seq<byte>>, i: nat)
    requires i < |cs|
    ensures Offset(cs, i + 1) == Offset(cs, i) + |cs[i]|
  {
  }

  /** Block `i` lies between offsets `Offset(cs, i)` and `Offset(cs, i + 1)` of the joined blocks. */
  lemma BlockInConcat(cs: seq<seq<byte>>, i: nat)
    requires i < |cs|
    ensures Offset(cs, i) <= Offset(cs, i + 1) <= |Concat(cs)|
    ensures Concat(cs)[Offset(cs, i)..Offset(cs, i + 1)] == cs[i]
  {
    OffsetIsConcatLength(cs, i);
    OffsetStep(cs, i);
    ConcatAt(cs, i);
  }

  lemma {:induction false} FlatAt(ps: seq<(nat, nat)>, k: nat)
    requires k < |ps|
    ensures Flat(ps)[2 * k] == ps[k].0 && Flat(ps)[2 * k + 1] == ps[k].1
  {
    var init := ps[..|ps| - 1];
    if k < |ps| - 1 {
      FlatAt(init, k);
      assert Flat(ps)[..2 * |init|] == Flat(init);
    }
  }

  /** A flat list whose every pair is given is the flattening of those pairs. */
  lemma {:induction false} FlatOfPairs(blocks: seq<nat>, ps: seq<(nat, nat)>)
    requires |blocks| == 2 * |ps|
    requires forall k :: 0 <= k < |ps| ==> blocks[2 * k] == ps[k].0 && blocks[2 * k + 1] == ps[k].1
    ensures blocks == Flat(ps)
  {
    if ps != [] {
      var n := |ps| - 1;
      var init := ps[..n];
      var b := blocks[..2 * n];
      forall k | 0 <= k < n
        ensures b[2 * k] == init[k].0 && b[2 * k + 1] == init[k].1
      {
      }
      FlatOfPairs(b, init);
      assert blocks == b + [blocks[2 * n], blocks[2 * n + 1]];
    }
  }

  lemma BlockTableAt(start: nat, cs: seq<seq<byte>>, i: nat)
    requires i < |cs|
    ensures var t := BlockTable(start, cs);
            BlockStart(t, i) == start + Offset(cs, i) && BlockEnd(t, i) == start + Offset(cs, i + 1)
  {
    FlatAt(BlockPairs(start, cs), i);
  }

  /**
   * The table describes blocks laid end to end: the first starts at `start`,
   * each block's end is its start plus its compressed length, each next block
   * starts where the previous ended, and the last ends `|Concat(cs)|` (the
   * compressed size) after the first start.
   */
  lemma BlockTableShape(start: nat, cs: seq<seq<byte>>)
    ensures var t := BlockTable(start, cs);
            (forall i :: 0 <= i < |cs| ==> BlockEnd(t, i) == BlockStart(t, i) + |cs[i]|)
            && (forall i :: 0 <= i < |cs| - 1 ==> BlockStart(t, i + 1) == BlockEnd(t, i))
            && (|cs| > 0 ==> BlockStart(t, 0) == start
                             && BlockEnd(t, |cs| - 1) - BlockStart(t, 0) == |Concat(cs)|)
  {
    var t := BlockTable(start, cs);
    forall i | 0 <= i < |cs|
      ensures BlockEnd(t, i) == BlockStart(t, i) + |cs[i]|
    {
      BlockTableAt(start, cs, i);
      OffsetStep(cs, i);
    }
    forall i | 0 <= i < |cs| - 1
      ensures BlockStart(t, i + 1) == BlockEnd(t, i)
    {
      BlockTableAt(start, cs, i);
      BlockTableAt(start, cs, i + 1);
    }
    if |cs| > 0 {
      BlockTableAt(start, cs, 0);
      BlockTableAt(start, cs, |cs| - 1);
      OffsetIsConcatLength(cs, |cs|);
      assert cs[..|cs|] == cs;
    }
  }

  /** The `hi - lo` bytes at offset `lo` of `b`, seen inside `a + b + c`. */
  lemma SliceMiddle(a: seq<byte>, b: seq<byte>, c: seq<byte>, lo: nat, hi: nat, off: nat)
    requires lo <= hi <= |b| && off == |a| + lo
    ensures (a + b + c)[off..off + (hi - lo)] == b[lo..hi]
  {
  }

  /** Bytes `[lo, hi)` of `c`, seen after `a`. */
  lemma SliceAfter(a: seq<byte>, c: seq<byte>, lo: nat, hi: nat, from: nat, to: nat)
    requires lo <= hi <= |c| && from == |a| + lo && to == |a| + hi
    ensures (a + c)[from..to] == c[lo..hi]
  {
    assert forall k :: 0 <= k < hi - lo ==> (a + c)[from..to][k] == c[lo..hi][k];
  }

  /** Slot `k` of a packed u64 array between `pre` and `mid + post`. */
  lemma U64sSlot(pre: seq<byte>, xs: seq<nat>, mid: seq<byte>, post: seq<byte>, k: nat, off: nat)
    requires k < |xs| && off == |pre| + 8 * k
    ensures (pre + U64s(xs) + mid + post)[off..off + 8] == U64(xs[k])
  {
    U64sAt(xs, k);
    assert pre + U64s(xs) + mid + post == pre + U64s(xs) + (mid + post);
    SliceMiddle(pre, U64s(xs), mid + post, 8 * k, 8 * k + 8, off);
  }

  /** The front four bytes and table slot `i` of any count + table + trailer + blocks layout. */
  lemma SlotGeneric(n: nat, t: seq<nat>, c: seq<byte>, i: nat)
    requires i < n && |t| == 2 * n
    ensures (U32(n) + U64s(t) + TRAILER + c)[..4] == U32(n)
    ensures (U32(n) + U64s(t) + TRAILER + c)[4 + 16 * i..4 + 16 * i + 8] == U64(t[2 * i])
    ensures (U32(n) + U64s(t) + TRAILER + c)[4 + 16 * i + 8..4 + 16 * i + 8 + 8] == U64(t[2 * i + 1])
  {
    var r := U32(n) + U64s(t) + TRAILER + c;
    assert forall k :: 0 <= k < 4 ==> r[k] == U32(n)[k];
    U64sSlot(U32(n), t, TRAILER, c, 2 * i, 4 + 16 * i);
    U64sSlot(U32(n), t, TRAILER, c, 2 * i + 1, 4 + 16 * i + 8);
  }

  /** Bytes `[lo, hi)` of the blocks, seen through a whole layout at `base`. */
  lemma BlockGeneric(n: nat, t: seq<nat>, c: seq<byte>, base: nat, lo: nat, hi: nat, x: seq<byte>, from: nat, to: nat)
    requires |t| == 2 * n && lo <= hi <= |c| && c[lo..hi] == x
    requires from == FirstBlockStart(base, n) - base + lo && to == from + (hi - lo)
    ensures (U32(n) + U64s(t) + TRAILER + c)[from..to] == x
  {
    var head := U32(n) + U64s(t) + TRAILER;
    assert |head| == 4 + 16 * n + 5;
    SliceAfter(head, c, lo, hi, from, to);
  }

  /** A layout starts with its block count as a u32. */
  lemma LayoutCount(base: nat, cs: seq<seq<byte>>)
    ensures |ZlibLayout(base, cs)| >= 4 + 16 * |cs| && ZlibLayout(base, cs)[..4] == U32(|cs|)
  {
    var r := ZlibLayout(base, cs);
    assert forall k :: 0 <= k < 4 ==> r[k] == U32(|cs|)[k];
  }

  /** Table slot `i` of a layout holds block `i`'s (start, end) pair. */
  lemma LayoutSlot(base: nat, cs: seq<seq<byte>>, i: nat)
    requires i < |cs|
    ensures var body := ZlibLayout(base, cs);
            var t := BlockTable(FirstBlockStart(base, |cs|), cs);
            body[4 + 16 * i..4 + 16 * i + 8] == U64(BlockStart(t, i))
            && body[4 + 16 * i + 8..4 + 16 * i + 8 + 8] == U64(BlockEnd(t, i))
  {
    var t := BlockTable(FirstBlockStart(base, |cs|), cs);
    SlotGeneric(|cs|, t, Concat(cs), i);
  }

  /** In a layout, the bytes between block `i`'s start and end offsets are block `i`. */
  lemma LayoutBlock(base: nat, cs: seq<seq<byte>>, i: nat)
    requires i < |cs|
    ensures var body := ZlibLayout(base, cs);
            var t := BlockTable(FirstBlockStart(base, |cs|), cs);
            base <= BlockStart(t, i) <= BlockEnd(t, i) <= base + |body|
            && body[BlockStart(t, i) - base..BlockEnd(t, i) - base] == cs[i]
  {
    var start := FirstBlockStart(base, |cs|);
    var t := BlockTable(start, cs);
    BlockTableAt(start, cs, i);
    BlockInConcat(cs, i);
    BlockGeneric(|cs|, t, Concat(cs), base, Offset(cs, i), Offset(cs, i + 1), cs[i],
                 BlockStart(t, i) - base, BlockEnd(t, i) - base);
  }

  /** The first `i` (start, end) pairs of `blocks` are those of `BlockTable(start, cs)`. */
  ghost predicate PairsAgree(blocks: seq<nat>, start: nat, cs: seq<seq<byte>>, i: nat)
    requires i <= |cs| && |blocks| == 2 * |cs|
  {
    forall k :: 0 <= k < i ==>
      BlockStart(blocks, k) == start + Offset(cs, k) && BlockEnd(blocks, k) == start + Offset(cs, k + 1)
  }

  lemma PairsAgreeAll(blocks: seq<nat>, start: nat, cs: seq<seq<byte>>)
    requires |blocks| == 2 * |cs| && PairsAgree(blocks, start, cs, |cs|)
    ensures blocks == BlockTable(start, cs)
  {
    var ps := BlockPairs(start, cs);
    forall k | 0 <= k < |ps|
      ensures blocks[2 * k] == ps[k].0 && blocks[2 * k + 1] == ps[k].1
    {
      assert BlockStart(blocks, k) == start + Offset(cs, k);
      assert BlockEnd(blocks, k) == start + Offset(cs, k + 1);
    }
    FlatOfPairs(blocks, ps);
  }

  /**
   * One round of the block loop: with block `i` written at `cur`, its pair
   * recorded and its bytes hashed, the loop invariant holds for `i + 1`.
   */
  lemma ZlibLoopStep(s1: seq<byte>, start: nat, cs: seq<seq<byte>>, i: nat,
                     hashed0: seq<byte>, blocks0: seq<nat>, cur0: nat, file0: seq<byte>,
                     hashed: seq<byte>, blocks: seq<nat>, cur: nat, file: seq<byte>)
    requires i < |cs| && |blocks0| == 2 * |cs|
    requires PairsAgree(blocks0, start, cs, i)
    requires hashed0 == Concat(cs[..i]) && cur0 == start + Offset(cs, i)
    requires file0 == Overwrite(s1, start, hashed0) && cur0 == start + |hashed0|
    requires cur == cur0 + |cs[i]| && blocks == blocks0[2 * i := cur0][2 * i + 1 := cur]
    requires hashed == hashed0 + cs[i] && file == Overwrite(file0, cur0, cs[i])
    ensures |blocks| == 2 * |cs| && PairsAgree(blocks, start, cs, i + 1)
    ensures hashed == Concat(cs[..i + 1]) && cur == start + Offset(cs, i + 1) && |hashed| == Offset(cs, i + 1)
    ensures file == Overwrite(s1, start, hashed)
  {
    OffsetStep(cs, i);
    forall k | 0 <= k < i + 1
      ensures BlockStart(blocks, k) == start + Offset(cs, k) && BlockEnd(blocks, k) == start + Offset(cs, k + 1)
    {
      if k < i {
        assert BlockStart(blocks, k) == BlockStart(blocks0, k) && BlockEnd(blocks, k) == BlockEnd(blocks0, k);
      }
    }
    ConcatAt(cs, i);
    OffsetIsConcatLength(cs, i + 1);
    OverwriteAdjacent(s1, start, hashed0, cur0, cs[i]);
  }

  /** The layout of `cs` spelled out with its block count `n` and table `t`. */
  lemma LayoutIs(base: nat, cs: seq<seq<byte>>, n: nat, t: seq<nat>)
    requires n == |cs| && t == BlockTable(FirstBlockStart(base, n), cs)
    ensures ZlibLayout(base, cs) == U32(n) + U64s(t) + TRAILER + Concat(cs)
  {
  }

  /**
   * The writes of `_write_data_zlib` at `base`: the count, the trailer past
   * the skipped table, the blocks, and the table patched in last, leave the
   * content `ZlibBody` there.
   */
  lemma ZlibWritten(prim: Primitives, data: seq<byte>, s0: seq<byte>, base: nat, n: nat, blocks: seq<nat>,
                    gap: nat, q: nat, file: seq<byte>)
    requires n == BlockCount(|data|) && gap == base + 4 + n * 8 * 2 && q == gap + |TRAILER|
    requires blocks == BlockTable(q, CompressedChunks(prim, data))
    requires file == Overwrite(Overwrite(Overwrite(Overwrite(s0, base, U32(n)), gap, TRAILER), q,
                                         Concat(CompressedChunks(prim, data))), base + 4, U64s(blocks))
    ensures file == Overwrite(s0, base, ZlibBody(prim, data, base))
    ensures |ZlibBody(prim, data, base)| == q - base + |Concat(CompressedChunks(prim, data))|
  {
    var cs := CompressedChunks(prim, data);
    OverwriteTableFill(s0, base, U32(n), base + 4, U64s(blocks), gap, TRAILER, q, Concat(cs));
    LayoutIs(base, cs, n, blocks);
  }

  /** `_write_data`: the payload verbatim; its size and SHA-1. */
  method WriteData(s: Stream, data: seq<byte>, prim: Primitives) returns (size: nat, digest: Digest)
    modifies s
    ensures s.data == Overwrite(old(s.data), old(s.pos), data)
    ensures s.pos == old(s.pos) + |data|
    ensures size == |data| && digest == Sha1(prim, data)
  {
    var hashed := data;
    s.Write(data);
    return |data|, Sha1(prim, hashed);
  }

  /**
   * The block loop of `_write_data_zlib`: from the current position, compress
   * and write each block (`cs` names the compressed blocks), hash it, and
   * record its absolute (start, end) pair.
   */
  method WriteBlocks(s: Stream, data: seq<byte>, prim: Primitives, blockCount: nat, ghost cs: seq<seq<byte>>)
      returns (compressedSize: nat, blocks: seq<nat>, hashed: seq<byte>)
    requires blockCount == BlockCount(|data|) && s.pos <= |s.data|
    requires |cs| == blockCount
    requires forall k :: 0 <= k < blockCount ==> cs[k] == Compress(prim, Chunk(data, k))
    modifies s
    ensures s.data == Overwrite(old(s.data), old(s.pos), Concat(cs))
    ensures s.pos == old(s.pos) + |Concat(cs)|
    ensures blocks == BlockTable(old(s.pos), cs)
    ensures hashed == Concat(cs) && compressedSize == |hashed|
  {
    ghost var s1 := s.data;
    var curOffset := s.pos;
    ghost var start := curOffset;
    blocks := seq(blockCount * 2, _ => 0);
    compressedSize := 0;
    hashed := [];
    OverwriteEmpty(s1, start);

    var i := 0;
    while i < blockCount
      invariant 0 <= i <= blockCount
      invariant |blocks| == 2 * blockCount
      invariant PairsAgree(blocks, start, cs, i)
      invariant hashed == Concat(cs[..i])
      invariant compressedSize == |hashed| == Offset(cs, i) && curOffset == start + compressedSize
      invariant s.data == Overwrite(s1, start, hashed) && s.pos == curOffset
    {
      ghost var hashed0, blocks0, cur0, file0 := hashed, blocks, curOffset, s.data;
      var chunk := Chunk(data, i);
      var compressedChunk := Compress(prim, chunk);
      assert compressedChunk == cs[i];

      compressedSize := compressedSize + |compressedChunk|;
      blocks := blocks[2 * i := curOffset];
      curOffset := curOffset + |compressedChunk|;
      blocks := blocks[2 * i + 1 := curOffset];

      hashed := hashed + compressedChunk;
      s.Write(compressedChunk);
      ZlibLoopStep(s1, start, cs, i, hashed0, blocks0, cur0, file0, hashed, blocks, curOffset, s.data);
      i := i + 1;
    }
    assert cs[..blockCount] == cs;
    PairsAgreeAll(blocks, start, cs);
  }

  /** The block count, room for the block table, and the trailer (flags 0, block size), from the current position. */
  method WriteBlockHead(s: Stream, blockCount: nat, ghost s0: seq<byte>, ghost base: nat, ghost gap: nat, ghost q: nat)
    requires s.data == s0 && s.pos == base && gap == base + 4 + blockCount * 8 * 2 && q == gap + |TRAILER|
    modifies s
    ensures s.data == Overwrite(Overwrite(s0, base, U32(blockCount)), gap, TRAILER) && s.pos == q
  {
    s.Write(U32(blockCount));
    s.SeekCurrent(blockCount * 8 * 2);
    s.Write(TRAILER);
  }

  /** Fills the block table at `base + 4`, then returns to where writing had got to. */
  method PatchBlockTable(s: Stream, base: nat, blocks: seq<nat>, ghost s2: seq<byte>)
    requires s.data == s2
    modifies s
    ensures s.data == Overwrite(s2, base + 4, U64s(blocks)) && s.pos == old(s.pos)
  {
    var curOffset := s.pos;
    s.Seek(base + 4);
    s.Write(U64s(blocks));
    s.Seek(curOffset);
  }

  /**
   * `_write_data_zlib`: block count, placeholder table, trailer, then each
   * compressed block; finally the table is patched and the position restored
   * to the end of the content. Returns the compressed size, the SHA-1 of the
   * compressed blocks alone, the block count and the table.
   */
  method WriteDataZlib(s: Stream, data: seq<byte>, prim: Primitives)
      returns (compressedSize: nat, digest: Digest, blockCount: nat, blocks: seq<nat>)
    requires ZlibFits(prim, data, s.pos)
    modifies s
    ensures s.data == Overwrite(old(s.data), old(s.pos), ZlibBody(prim, data, old(s.pos)))
    ensures s.pos == old(s.pos) + |ZlibBody(prim, data, old(s.pos))|
    ensures blockCount == BlockCount(|data|)
    ensures blocks == BlockTable(FirstBlockStart(old(s.pos), blockCount), CompressedChunks(prim, data))
    ensures compressedSize == |Concat(CompressedChunks(prim, data))|
    ensures digest == Sha1(prim, Concat(CompressedChunks(prim, data)))
  {
    var size := |data|;
    blockCount := (size + BLOCK_SIZE - 1) / BLOCK_SIZE;
    var base := s.pos;
    ghost var s0 := s.data;
    ghost var cs := CompressedChunks(prim, data);

    ghost var gap := base + 4 + blockCount * 8 * 2;
    ghost var q := gap + |TRAILER|;
    WriteBlockHead(s, blockCount, s0, base, gap, q);
    assert q == FirstBlockStart(base, blockCount);

    var hashed;
    compressedSize, blocks, hashed := WriteBlocks(s, data, prim, blockCount, cs);

    ghost var s2 := s.data;
    PatchBlockTable(s, base, blocks, s2);
    digest := Sha1(prim, hashed);

    ZlibWritten(prim, data, s0, base, blockCount, blocks, gap, q, s.data);
  }
}
