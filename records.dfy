/**
 * The record writer (`_write_record`): a 48-byte header written with
 * placeholder size and hash fields, the content (raw or block-compressed),
 * then the two fields patched in place; it returns the record's index entry.
 */
module Records {
  import opened Bytes
  import opened Streams
  import opened Content

  /** `pack("<BI", 0, 0)`: the marker a raw record puts before its payload. */
  const RAW_TRAILER: seq<byte> := [0, 0, 0, 0, 0]

  lemma RawTrailerBytes()
    ensures RAW_TRAILER == [0] + U32(0)
  {
  }

  const HEADER_SIZE: nat := 48

  /** `int(compress)` */
  function Flag(compress: bool): nat
  {
    if compress then 1 else 0
  }

  /** `pack("<16xQI20x", size, int(compress))`: the header as first written. */
  function PlaceholderHeader(size: nat, compress: bool): (h: seq<byte>)
    ensures |h| == HEADER_SIZE
  {
    Zeros(16) + U64(size) + U32(Flag(compress)) + Zeros(20)
  }

  /** The header once patched: 8 zero bytes, stored size, size, flag, digest. */
  function Header(storedSize: nat, size: nat, compress: bool, digest: Digest): (h: seq<byte>)
    ensures |h| == HEADER_SIZE
  {
    Zeros(8) + U64(storedSize) + U64(size) + U32(Flag(compress)) + digest
  }

  /** The bytes written after the header, for a record whose header sits at `r`. */
  function RecordContent(prim: Primitives, data: seq<byte>, compress: bool, r: nat): seq<byte>
  {
    if compress then ZlibBody(prim, data, r + HEADER_SIZE) else RAW_TRAILER + data
  }

  /** `compressed_size`: the stored byte count (the payload's own size when raw). */
  function StoredSize(prim: Primitives, data: seq<byte>, compress: bool): nat
  {
    if compress then |Concat(CompressedChunks(prim, data))| else |data|
  }

  /** The hash the record carries: of the compressed blocks, or of the raw payload. */
  function StoredHash(prim: Primitives, data: seq<byte>, compress: bool): Digest
  {
    if compress then Sha1(prim, Concat(CompressedChunks(prim, data))) else Sha1(prim, data)
  }

  /** What the entry repeats of the content: the count, table and trailer, or the raw marker. */
  function EntryTail(prim: Primitives, data: seq<byte>, compress: bool, r: nat): seq<byte>
  {
    if compress then
      var n := BlockCount(|data|);
      U32(n) + U64s(BlockTable(FirstBlockStart(r + HEADER_SIZE, n), CompressedChunks(prim, data))) + TRAILER
    else RAW_TRAILER
  }

  /** The whole record `_write_record` leaves at `r`. */
  function RecordBytes(prim: Primitives, data: seq<byte>, compress: bool, r: nat): seq<byte>
  {
    Header(StoredSize(prim, data, compress), |data|, compress, StoredHash(prim, data, compress))
      + RecordContent(prim, data, compress, r)
  }

  /** The index entry `_write_record` returns for a record at `r`. */
  function EntryBytes(prim: Primitives, data: seq<byte>, compress: bool, r: nat): seq<byte>
  {
    U64(r) + U64(StoredSize(prim, data, compress)) + U64(|data|) + U32(Flag(compress))
      + StoredHash(prim, data, compress) + EntryTail(prim, data, compress, r)
  }

  /** Every value the record packs fits its field (else `struct.pack` raises). */
  predicate RecordFits(prim: Primitives, data: seq<byte>, compress: bool, r: nat)
  {
    r < U64_LIMIT && |data| < U64_LIMIT
    && (compress ==> ZlibFits(prim, data, r + HEADER_SIZE))
  }

  /**
   * The back-patch touches only the stored-size field `[8, 16)` and the hash
   * field `[28, 48)`: everywhere else the placeholder already holds the final
   * bytes.
   */
  lemma HeaderPatchOnly(storedSize: nat, size: nat, compress: bool, digest: Digest)
    ensures forall i :: 0 <= i < HEADER_SIZE && !(8 <= i < 16) && !(28 <= i < HEADER_SIZE) ==>
              PlaceholderHeader(size, compress)[i] == Header(storedSize, size, compress, digest)[i]
  {
    var p := PlaceholderHeader(size, compress);
    var h := Header(storedSize, size, compress, digest);
    forall i | 16 <= i < 24
      ensures p[i] == h[i]
    {
      assert p[i] == U64(size)[i - 16] && h[i] == U64(size)[i - 16];
    }
    forall i | 24 <= i < 28
      ensures p[i] == h[i]
    {
      assert p[i] == U32(Flag(compress))[i - 24] && h[i] == U32(Flag(compress))[i - 24];
    }
  }

  /** The fields of a header, seen through the record that starts with it. */
  lemma HeaderFields(storedSize: nat, size: nat, compress: bool, digest: Digest, c: seq<byte>)
    ensures var b := Header(storedSize, size, compress, digest) + c;
            b[..8] == Zeros(8) && b[8..16] == U64(storedSize) && b[16..24] == U64(size)
            && b[24..28] == U32(Flag(compress)) && b[28..48] == digest && b[48..] == c
  {
    var b := Header(storedSize, size, compress, digest) + c;
    assert b[..8] == Zeros(8);
    assert b[8..16] == U64(storedSize);
    assert b[16..24] == U64(size);
    assert b[24..28] == U32(Flag(compress));
    assert b[28..48] == digest;
    assert b[48..] == c;
  }

  /**
   * A record's header decodes to its stored size, payload size, mode flag and
   * hash; the stored size and the hash describe exactly the bytes after the
   * entry's tail (the raw payload, or the compressed blocks), so re-hashing
   * the stored bytes reproduces the header's hash.
   */
  lemma RecordLayout(prim: Primitives, data: seq<byte>, compress: bool, r: nat)
    ensures var rec := RecordBytes(prim, data, compress, r);
            var tl := |EntryTail(prim, data, compress, r)|;
            |rec| == HEADER_SIZE + tl + StoredSize(prim, data, compress)
            && rec[8..16] == U64(StoredSize(prim, data, compress))
            && rec[16..24] == U64(|data|)
            && rec[24..28] == U32(Flag(compress))
            && rec[28..48] == StoredHash(prim, data, compress)
            && rec[28..48] == Sha1(prim, rec[HEADER_SIZE + tl..])
  {
    var c := RecordContent(prim, data, compress, r);
    var tail := EntryTail(prim, data, compress, r);
    var stored := if compress then Concat(CompressedChunks(prim, data)) else data;
    ContentSplits(prim, data, compress, r);
    assert c == tail + stored;
    HeaderFields(StoredSize(prim, data, compress), |data|, compress, StoredHash(prim, data, compress), c);
    var rec := RecordBytes(prim, data, compress, r);
    assert rec[HEADER_SIZE + |tail|..] == c[|tail|..];
  }

  /** The content is the entry's tail followed by the stored bytes. */
  lemma ContentSplits(prim: Primitives, data: seq<byte>, compress: bool, r: nat)
    ensures RecordContent(prim, data, compress, r) == EntryTail(prim, data, compress, r)
              + (if compress then Concat(CompressedChunks(prim, data)) else data)
  {
    if compress {
      var cs := CompressedChunks(prim, data);
      LayoutIs(r + HEADER_SIZE, cs, BlockCount(|data|), BlockTable(FirstBlockStart(r + HEADER_SIZE, |cs|), cs));
    }
  }

  /**
   * The returned entry is the record's own offset followed by the patched
   * header fields and the content's tail: 53 bytes when raw,
   * `48 + 4 + 16n + 5` when compressed.
   */
  lemma EntryMatchesRecord(prim: Primitives, data: seq<byte>, compress: bool, r: nat)
    ensures var tl := |EntryTail(prim, data, compress, r)|;
            tl == (if compress then 4 + 16 * BlockCount(|data|) + 5 else 5)
            && EntryBytes(prim, data, compress, r)
               == U64(r) + RecordBytes(prim, data, compress, r)[8..HEADER_SIZE + tl]
  {
    var tail := EntryTail(prim, data, compress, r);
    var stored := if compress then Concat(CompressedChunks(prim, data)) else data;
    ContentSplits(prim, data, compress, r);
    EntryShape(r, StoredSize(prim, data, compress), |data|, compress, StoredHash(prim, data, compress), tail, stored);
  }

  /** The entry fields are the header's after its first 8 bytes, then the tail. */
  lemma EntryShape(r: nat, storedSize: nat, size: nat, compress: bool, digest: Digest, tail: seq<byte>, stored: seq<byte>)
    ensures U64(r) + U64(storedSize) + U64(size) + U32(Flag(compress)) + digest + tail
         == U64(r) + (Header(storedSize, size, compress, digest) + (tail + stored))[8..HEADER_SIZE + |tail|]
  {
    var h := Header(storedSize, size, compress, digest);
    assert (h + (tail + stored))[8..HEADER_SIZE + |tail|] == h[8..] + tail;
    assert h[8..] == U64(storedSize) + U64(size) + U32(Flag(compress)) + digest;
  }

  /** The two patch writes turn the placeholder header into the final one. */
  lemma HeaderPatch(s: seq<byte>, r: nat, size: nat, compress: bool, storedSize: nat, digest: Digest, c: seq<byte>)
    ensures Overwrite(Overwrite(Overwrite(s, r, PlaceholderHeader(size, compress) + c), r + 8, U64(storedSize)),
                      r + 28, digest)
         == Overwrite(s, r, Header(storedSize, size, compress, digest) + c)
  {
    var a := PlaceholderHeader(size, compress) + c;
    OverwritePatch(s, r, a, 8, U64(storedSize));
    var a1 := a[..8] + U64(storedSize) + a[16..];
    OverwritePatch(s, r, a1, 28, digest);
    var f := U32(Flag(compress));
    assert a[..8] == Zeros(8);
    assert a[16..] == U64(size) + f + Zeros(20) + c;
    assert a1[..28] == Zeros(8) + U64(storedSize) + U64(size) + f;
    assert a1[48..] == c;
  }

  /**
   * The content half of `_write_record`, at `r + 48`: either the block
   * compressed content, or the raw marker then the payload. Returns the stored
   * size, the hash and the content's tail as the entry repeats it.
   */
  method WriteContent(s: Stream, data: seq<byte>, compress: bool, prim: Primitives, ghost r: nat)
      returns (compressedSize: nat, sha1: Digest, tail: seq<byte>)
    requires s.pos == r + HEADER_SIZE && RecordFits(prim, data, compress, r)
    modifies s
    ensures s.data == Overwrite(old(s.data), old(s.pos), RecordContent(prim, data, compress, r))
    ensures s.pos == old(s.pos) + |RecordContent(prim, data, compress, r)|
    ensures compressedSize == StoredSize(prim, data, compress) && sha1 == StoredHash(prim, data, compress)
    ensures tail == EntryTail(prim, data, compress, r)
  {
    if compress {
      var blockCount, blocks;
      compressedSize, sha1, blockCount, blocks := WriteDataZlib(s, data, prim);
      tail := U32(blockCount) + U64s(blocks) + TRAILER;
    } else {
      ghost var s0 := s.data;
      s.Write(RAW_TRAILER);
      compressedSize, sha1 := WriteData(s, data, prim);
      OverwriteAdjacent(s0, r + HEADER_SIZE, RAW_TRAILER, r + HEADER_SIZE + 5, data);
      tail := RAW_TRAILER;
    }
  }

  /** Writes the stored size at `r + 8` and the hash at `r + 28`, then returns to `dataEnd`. */
  method PatchHeader(s: Stream, r: nat, compressedSize: nat, sha1: Digest, dataEnd: nat)
    modifies s
    ensures s.data == Overwrite(Overwrite(old(s.data), r + 8, U64(compressedSize)), r + 28, sha1)
    ensures s.pos == dataEnd
  {
    s.Seek(r + 8);
    s.Write(U64(compressedSize));
    s.Seek(r + 28);
    s.Write(sha1);
    s.Seek(dataEnd);
  }

  /**
   * `_write_record`: placeholder header, content, then the stored size and
   * hash patched into the header and the position restored to the end of the
   * record. Bytes before the record are left as they were.
   */
  method WriteRecord(s: Stream, data: seq<byte>, compress: bool, prim: Primitives) returns (entry: seq<byte>)
    requires RecordFits(prim, data, compress, s.pos)
    modifies s
    ensures s.data == Overwrite(old(s.data), old(s.pos), RecordBytes(prim, data, compress, old(s.pos)))
    ensures s.pos == old(s.pos) + |RecordBytes(prim, data, compress, old(s.pos))|
    ensures entry == EntryBytes(prim, data, compress, old(s.pos))
  {
    var recordOffset := s.pos;
    ghost var s0 := s.data;
    var size := |data|;
    var placeholder := PlaceholderHeader(size, compress);
    s.Write(placeholder);

    ghost var c := RecordContent(prim, data, compress, recordOffset);
    var compressedSize, sha1, tail := WriteContent(s, data, compress, prim, recordOffset);
    OverwriteAdjacent(s0, recordOffset, placeholder, recordOffset + HEADER_SIZE, c);

    var dataEnd := s.pos;
    PatchHeader(s, recordOffset, compressedSize, sha1, dataEnd);
    HeaderPatch(s0, recordOffset, size, compress, compressedSize, sha1, c);

    entry := U64(recordOffset) + U64(compressedSize) + U64(size) + U32(Flag(compress)) + sha1 + tail;
  }
}
