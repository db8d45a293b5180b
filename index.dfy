/**
 * The index writer (`_write_index`): a root marker and the entry count, one
 * (packed path, entry) pair per record in list order, all hashed as they are
 * written, then a 44-byte footer locating and authenticating the index.
 */
module Index {
  import opened Bytes
  import opened Streams
  import opened PathEncoding
  import opened Wrappers

  /** The mount-point marker `..\..\..\` that opens every index. */
  const ROOT: string := "..\\..\\..\\"

  const MAGIC: nat := 0x5A6F12E1
  const VERSION: nat := 3
  const FOOTER_SIZE: nat := 44

  /**
   * `_pack_path(ROOT)` written out byte by byte (`RootPacked` proves it): the
   * length 10, then `ROOT` with `sep` turned into `/` and a NUL.
   */
  function PackedRoot(sep: char): seq<byte>
  {
    var dot: byte := if sep == '.' then 0x2F else 0x2E;
    var back: byte := if sep == '\\' then 0x2F else 0x5C;
    [10, 0, 0, 0, dot, dot, back, dot, dot, back, dot, dot, back, 0]
  }

  lemma RootPacked(sep: char)
    ensures PackPath(sep, ROOT) == PackedRoot(sep)
  {
    var p := PackedRoot(sep);
    var b := p[4..13];
    forall i | 0 <= i < |ROOT|
      ensures (if ROOT[i] == sep then '/' else ROOT[i]) as int == b[i] < 0x80
    {
      assert ROOT[i] == if i % 3 == 2 then '\\' else '.';
    }
    PackAscii(sep, ROOT, b);
    U32Small(10);
    assert p == U32(10) + b + [0];
  }

  /** `_pack_path(ROOT) + pack("<I", len(records))` */
  function IndexHeader(sep: char, count: nat): seq<byte>
  {
    PackedRoot(sep) + U32(count)
  }

  /** One index pair: the packed path, then the record's entry bytes. */
  function PairBytes(sep: char, record: (string, seq<byte>)): seq<byte>
  {
    PackPath(sep, record.0) + record.1
  }

  function PairsBytes(sep: char, records: seq<(string, seq<byte>)>): (r: seq<seq<byte>>)
    ensures |r| == |records|
    ensures forall k :: 0 <= k < |records| ==> r[k] == PairBytes(sep, records[k])
  {
    seq(|records|, k requires 0 <= k < |records| => PairBytes(sep, records[k]))
  }

  /** Everything `_write_index` hashes and counts in `index_size`. */
  function IndexBody(sep: char, records: seq<(string, seq<byte>)>): seq<byte>
  {
    IndexHeader(sep, |records|) + Concat(PairsBytes(sep, records))
  }

  /** The footer's first two fields, the magic and the version, as bytes. */
  const FOOTER_HEAD: seq<byte> := [0xE1, 0x12, 0x6F, 0x5A, 3, 0, 0, 0]

  /** `FOOTER_HEAD` is `pack("<II", 0x5A6F12E1, 3)`. */
  lemma FooterHead()
    ensures FOOTER_HEAD == U32(MAGIC) + U32(VERSION)
  {
  }

  /** `pack("<IIQQ20s", 0x5A6F12E1, 3, index_offset, index_size, index_sha1)` */
  function Footer(offset: nat, size: nat, digest: Digest): (f: seq<byte>)
    ensures |f| == FOOTER_SIZE
  {
    FOOTER_HEAD + U64(offset) + U64(size) + digest
  }

  /** The bytes `_write_index` leaves from `offset` on. */
  function IndexBytes(prim: Primitives, sep: char, records: seq<(string, seq<byte>)>, offset: nat): seq<byte>
  {
    var body := IndexBody(sep, records);
    body + Footer(offset, |body|, Sha1(prim, body))
  }

  /** The index bytes spelled out with their body `body`. */
  lemma IndexBytesIs(prim: Primitives, sep: char, records: seq<(string, seq<byte>)>, offset: nat, body: seq<byte>)
    requires body == PackedRoot(sep) + U32(|records|) + Concat(PairsBytes(sep, records))
    ensures IndexBytes(prim, sep, records, offset) == body + Footer(offset, |body|, Sha1(prim, body))
  {
  }

  /** The body written over `s0` at `offset`, then the footer after it, leave `IndexBytes` there. */
  lemma IndexWritten(prim: Primitives, sep: char, records: seq<(string, seq<byte>)>, s0: seq<byte>, offset: nat,
                     head: seq<byte>, body: seq<byte>, s1: seq<byte>, s2: seq<byte>)
    requires head == IndexHeader(sep, |records|) && body == head + Concat(PairsBytes(sep, records))
    requires s1 == Overwrite(s0, offset, body)
    requires s2 == Overwrite(s1, offset + |body|, Footer(offset, |body|, Sha1(prim, body)))
    ensures s2 == Overwrite(s0, offset, IndexBytes(prim, sep, records, offset))
    ensures |IndexBytes(prim, sep, records, offset)| == |body| + FOOTER_SIZE
  {
    IndexBytesIs(prim, sep, records, offset, body);
    OverwriteAdjacent(s0, offset, body, offset + |body|, Footer(offset, |body|, Sha1(prim, body)));
  }

  /** Every value the index packs fits its field (else `struct.pack` raises). */
  predicate IndexFits(sep: char, records: seq<(string, seq<byte>)>, offset: nat)
  {
    offset < U64_LIMIT && |IndexBody(sep, records)| < U64_LIMIT && |records| < U32_LIMIT
    && forall k :: 0 <= k < |records| ==> |EncodedPath(sep, records[k].0)| < U32_LIMIT
  }

  /** The footer's fields read back as the magic, the version, the offset, the size and the hash. */
  lemma FooterFields(offset: nat, size: nat, digest: Digest)
    requires offset < U64_LIMIT && size < U64_LIMIT
    ensures var f := Footer(offset, size, digest);
            ReadU32(f, 0) == MAGIC && ReadU32(f, 4) == VERSION
            && ReadU64(f, 8) == offset && ReadU64(f, 16) == size && f[24..] == digest
  {
    var f := Footer(offset, size, digest);
    FooterHead();
    assert f[0..4] == U32(MAGIC);
    assert f[4..8] == U32(VERSION);
    assert f[8..16] == U64(offset);
    assert f[16..24] == U64(size);
    assert f[24..] == digest;
    U32RoundTrip(MAGIC);
    U32RoundTrip(VERSION);
    U64RoundTrip(offset);
    U64RoundTrip(size);
  }

  /**
   * The index vouches for itself: its last 44 bytes are the footer, whose
   * size field counts exactly the bytes before it and whose hash is the
   * SHA-1 of exactly those bytes.
   */
  lemma IndexSelfConsistent(prim: Primitives, sep: char, records: seq<(string, seq<byte>)>, offset: nat)
    ensures var ib := IndexBytes(prim, sep, records, offset);
            var size := |ib| - FOOTER_SIZE;
            |ib| >= FOOTER_SIZE && size == |IndexBody(sep, records)|
            && ib[size..] == Footer(offset, size, Sha1(prim, ib[..size]))
  {
    var body := IndexBody(sep, records);
    var ib := IndexBytes(prim, sep, records, offset);
    assert ib[..|body|] == body;
    assert ib[|body|..] == Footer(offset, |body|, Sha1(prim, body));
  }

  /** An empty record list gives just the marker, the count 0 and the footer. */
  lemma EmptyIndex(prim: Primitives, sep: char, offset: nat)
    ensures var h := PackPath(sep, ROOT) + U32(0);
            IndexBytes(prim, sep, [], offset) == h + Footer(offset, |h|, Sha1(prim, h))
  {
    RootPacked(sep);
    var h := PackPath(sep, ROOT) + U32(0);
    assert PairsBytes(sep, []) == [];
    assert IndexBody(sep, []) == h;
  }

  /**
   * The pair `(name, entry)` sits at `o` in `body`: the packed path there
   * unpacks to the name with the separator normalised, and the entry bytes
   * follow the path.
   */
  predicate PairAt(sep: char, body: seq<byte>, o: nat, name: string, entry: seq<byte>)
  {
    var p := PackPath(sep, name);
    o + |p| + |entry| <= |body|
    && UnpackPath(body[o..]) == Some((ReplaceSep(name, sep), |p|))
    && body[o + |p|..o + |p| + |entry|] == entry
  }

  /** Pair `k` of the index sits right after the header and the `k` pairs before it. */
  lemma IndexPairAt(sep: char, records: seq<(string, seq<byte>)>, k: nat)
    requires k < |records| && |EncodedPath(sep, records[k].0)| < U32_LIMIT
    ensures PairAt(sep, IndexBody(sep, records),
                   |IndexHeader(sep, |records|)| + |Concat(PairsBytes(sep, records)[..k])|, records[k].0, records[k].1)
  {
    PairAfter(sep, IndexBody(sep, records), IndexHeader(sep, |records|), PairsBytes(sep, records), k,
              records[k].0, records[k].1);
  }

  /** `IndexPairAt` for any `body` made of a header `h` and pieces `ps` whose piece `k` is a pair. */
  lemma PairAfter(sep: char, body: seq<byte>, h: seq<byte>, ps: seq<seq<byte>>, k: nat, name: string, entry: seq<byte>)
    requires body == h + Concat(ps)
    requires k < |ps| && ps[k] == PairBytes(sep, (name, entry)) && |EncodedPath(sep, name)| < U32_LIMIT
    ensures PairAt(sep, body, |h| + |Concat(ps[..k])|, name, entry)
  {
    var rest := PieceAfter(h, ps, k);
    var o := |h| + |Concat(ps[..k])|;
    var b := PairBytes(sep, (name, entry)) + rest;
    UnpackPair(sep, name, entry, rest);
    var p := PackPath(sep, name);
    SliceShift(body, o, b, |p|, |p| + |entry|);
  }

  /** A slice of the tail `body[o..]` is the same slice of `body`, shifted by `o`. */
  lemma SliceShift(body: seq<byte>, o: nat, b: seq<byte>, i: nat, j: nat)
    requires o <= |body| && body[o..] == b && i <= j <= |b|
    ensures o + j <= |body| && body[o + i..o + j] == b[i..j]
  {
    forall x | 0 <= x < j - i
      ensures body[o + i..o + j][x] == b[i..j][x]
    {
      assert b[i + x] == body[o + i + x];
    }
  }

  /** Piece `k` of `ps`, joined after `h`, starts at `|h|` plus the pieces before it. */
  lemma PieceAfter(h: seq<byte>, ps: seq<seq<byte>>, k: nat) returns (rest: seq<byte>)
    requires k < |ps|
    ensures var o := |h| + |Concat(ps[..k])|;
            o <= |h + Concat(ps)| && (h + Concat(ps))[o..] == ps[k] + rest
  {
    var c := Concat(ps);
    var lo := |Concat(ps[..k])|;
    ConcatAt(ps, k);
    SliceSplit(c, lo, ps[k]);
    rest := c[lo + |ps[k]|..];
    assert (h + c)[|h| + lo..] == c[lo..];
  }

  /** The bytes of `c` from `lo` on, when `x` occurs at `lo`. */
  lemma SliceSplit(c: seq<byte>, lo: nat, x: seq<byte>)
    requires lo + |x| <= |c| && c[lo..lo + |x|] == x
    ensures c[lo..] == x + c[lo + |x|..]
  {
  }

  /** A pair followed by anything unpacks to its normalised name, and its entry follows the path. */
  lemma UnpackPair(sep: char, name: string, entry: seq<byte>, rest: seq<byte>)
    requires |EncodedPath(sep, name)| < U32_LIMIT
    ensures var p := PackPath(sep, name);
            var b := PairBytes(sep, (name, entry)) + rest;
            UnpackPath(b) == Some((ReplaceSep(name, sep), |p|))
            && |p| + |entry| <= |b| && b[|p|..|p| + |entry|] == entry
  {
    var p := PackPath(sep, name);
    assert PairBytes(sep, (name, entry)) + rest == p + (entry + rest);
    UnpackPackPath(sep, name, entry + rest);
  }

  /**
   * One round of the pair loop: with `hashed0` written at `start` over `s0`,
   * appending pair `i` (`name` then `entry`) to the hashed bytes and writing
   * it at the end keeps the loop's invariant for `i + 1`.
   */
  lemma IndexLoopStep(s0: seq<byte>, start: nat, ps: seq<seq<byte>>, i: nat, head: seq<byte>,
                      hashed0: seq<byte>, file0: seq<byte>, name: seq<byte>, entry: seq<byte>,
                      hashed: seq<byte>, file: seq<byte>)
    requires i < |ps| && ps[i] == name + entry
    requires hashed0 == head + Concat(ps[..i]) && file0 == Overwrite(s0, start, hashed0)
    requires hashed == hashed0 + name + entry
    requires file == Overwrite(Overwrite(file0, start + |hashed0|, name), start + |hashed0| + |name|, entry)
    ensures hashed == head + Concat(ps[..i + 1]) && file == Overwrite(s0, start, hashed)
  {
    ConcatAt(ps, i);
    OverwriteAdjacent(s0, start, hashed0, start + |hashed0|, name);
    OverwriteAdjacent(s0, start, hashed0 + name, start + |hashed0| + |name|, entry);
  }

  /**
   * One pass of the pair loop: the packed path, then the entry bytes, each
   * written at the position `at` reached so far, appended to the hashed bytes
   * and counted.
   */
  method WritePair(s: Stream, sep: char, filename: string, record: seq<byte>, hashed0: seq<byte>, indexSize0: nat,
                   ghost file0: seq<byte>, ghost at: nat)
      returns (encodedFilename: seq<byte>, hashed: seq<byte>, indexSize: nat)
    requires s.data == file0 && s.pos == at
    modifies s
    ensures encodedFilename == PackPath(sep, filename)
    ensures hashed == hashed0 + encodedFilename + record
    ensures indexSize == indexSize0 + |encodedFilename| + |record|
    ensures s.data == Overwrite(Overwrite(file0, at, encodedFilename), at + |encodedFilename|, record)
    ensures s.pos == at + |encodedFilename| + |record|
  {
    encodedFilename := PackPath(sep, filename);
    hashed := hashed0 + encodedFilename;
    s.Write(encodedFilename);
    indexSize := indexSize0 + |encodedFilename|;

    hashed := hashed + record;
    s.Write(record);
    indexSize := indexSize + |record|;
  }

  /**
   * The pair loop of `_write_index`: `head` has already been written at
   * `start` over `s0` and hashed; each record's packed path and entry bytes
   * follow, and are hashed and counted.
   */
  method WritePairs(s: Stream, records: seq<(string, seq<byte>)>, sep: char, ghost s0: seq<byte>, ghost start: nat,
                    head: seq<byte>)
      returns (hashed: seq<byte>, indexSize: nat)
    requires s.data == Overwrite(s0, start, head) && s.pos == start + |head|
    modifies s
    ensures hashed == head + Concat(PairsBytes(sep, records)) && indexSize == |hashed|
    ensures s.data == Overwrite(s0, start, hashed) && s.pos == start + |hashed|
  {
    ghost var ps := PairsBytes(sep, records);
    hashed := head;
    indexSize := |head|;
    var i := 0;
    while i < |records|
      invariant 0 <= i <= |records|
      invariant hashed == head + Concat(ps[..i]) && indexSize == |hashed|
      invariant s.data == Overwrite(s0, start, hashed) && s.pos == start + |hashed|
    {
      ghost var hashed0, file0 := hashed, s.data;
      var (filename, record) := records[i];
      var encodedFilename;
      encodedFilename, hashed, indexSize := WritePair(s, sep, filename, record, hashed, indexSize, file0, start + |hashed|);
      IndexLoopStep(s0, start, ps, i, head, hashed0, file0, encodedFilename, record, hashed, s.data);
      i := i + 1;
    }
    assert ps[..|records|] == ps;
  }

  /**
   * The end of `_write_index`: the footer, written at the current position,
   * holding where the hashed bytes `hashed` start, how many there are and
   * their SHA-1.
   */
  method WriteFooter(s: Stream, prim: Primitives, indexOffset: nat, hashed: seq<byte>, indexSize: nat,
                     ghost s1: seq<byte>, ghost end: nat)
    requires indexSize == |hashed| && s.data == s1 && s.pos == end
    modifies s
    ensures s.data == Overwrite(s1, end, Footer(indexOffset, |hashed|, Sha1(prim, hashed)))
    ensures s.pos == end + FOOTER_SIZE
  {
    var indexSha1 := Sha1(prim, hashed);
    var footer := Footer(indexOffset, indexSize, indexSha1);
    s.Write(footer);
  }

  /**
   * `_write_index`: the header, the pairs and the footer, written from the
   * current position; `index_size` and the hash cover exactly the header and
   * the pairs.
   */
  method WriteIndex(s: Stream, records: seq<(string, seq<byte>)>, prim: Primitives, sep: char)
    requires IndexFits(sep, records, s.pos)
    modifies s
    ensures s.data == Overwrite(old(s.data), old(s.pos), IndexBytes(prim, sep, records, old(s.pos)))
    ensures s.pos == old(s.pos) + |IndexBytes(prim, sep, records, old(s.pos))|
  {
    ghost var s0 := s.data;
    var indexOffset := s.pos;
    var indexHeader := IndexHeader(sep, |records|);
    s.Write(indexHeader);
    var hashed, indexSize := WritePairs(s, records, sep, s0, indexOffset, indexHeader);
    ghost var s1 := s.data;
    WriteFooter(s, prim, indexOffset, hashed, indexSize, s1, indexOffset + |hashed|);
    IndexWritten(prim, sep, records, s0, indexOffset, indexHeader, hashed, s1, s.data);
  }
}
