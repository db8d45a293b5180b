/**
 * `pak`: the files sorted by path, one record each from offset 0 on, then the
 * index over the returned entries; and the name of the output file.
 */
module Archive {
  import opened Bytes
  import opened Streams
  import opened Records
  import opened Index

  /** A `{path: bytes}` dict, as its items in insertion order. */
  type Files = seq<(string, seq<byte>)>

  /** The keys of a dict are pairwise distinct. */
  predicate DistinctKeys(fs: Files)
  {
    forall i, j :: 0 <= i < j < |fs| ==> fs[i].0 != fs[j].0
  }

  // ---------------------------------------------------------------------------
  // Python's ordering of `str`: lexicographic by code point
  // ---------------------------------------------------------------------------

  predicate StrLess(a: string, b: string)
  {
    if a == [] then b != []
    else if b == [] then false
    else if a[0] != b[0] then a[0] < b[0]
    else StrLess(a[1..], b[1..])
  }

  lemma {:induction false} StrLessIrreflexive(a: string)
    ensures !StrLess(a, a)
  {
    if a != [] {
      StrLessIrreflexive(a[1..]);
    }
  }

  lemma {:induction false} StrLessAsymmetric(a: string, b: string)
    ensures !(StrLess(a, b) && StrLess(b, a))
  {
    if a != [] && b != [] && a[0] == b[0] {
      StrLessAsymmetric(a[1..], b[1..]);
    }
  }

  lemma {:induction false} StrLessTransitive(a: string, b: string, c: string)
    requires StrLess(a, b) && StrLess(b, c)
    ensures StrLess(a, c)
  {
    if a != [] && a[0] == b[0] && b[0] == c[0] {
      StrLessTransitive(a[1..], b[1..], c[1..]);
    }
  }

  lemma {:induction false} StrLessTotal(a: string, b: string)
    requires a != b
    ensures StrLess(a, b) || StrLess(b, a)
  {
    if a != [] && b != [] && a[0] == b[0] {
      assert a == [a[0]] + a[1..] && b == [b[0]] + b[1..];
      StrLessTotal(a[1..], b[1..]);
    }
  }

  // ---------------------------------------------------------------------------
  // `sorted(files.items())`
  // ---------------------------------------------------------------------------

  /** Strictly increasing paths. */
  predicate SortedByKey(fs: Files)
  {
    forall i, j :: 0 <= i < j < |fs| ==> StrLess(fs[i].0, fs[j].0)
  }

  /** `x` inserted before the first item whose path is not below its own. */
  function Insert(x: (string, seq<byte>), fs: Files): (r: Files)
    ensures |r| == |fs| + 1
    ensures multiset(r) == multiset(fs) + multiset{x}
  {
    if fs == [] then [x]
    else if StrLess(fs[0].0, x.0) then
      assert fs == [fs[0]] + fs[1..];
      [fs[0]] + Insert(x, fs[1..])
    else [x] + fs
  }

  /**
   * `sorted(files.items())`: the items of a dict have distinct paths, so the
   * tuple comparison only ever looks at the paths.
   */
  function SortByKey(fs: Files): (r: Files)
    ensures |r| == |fs|
    ensures multiset(r) == multiset(fs)
  {
    if fs == [] then []
    else
      assert fs == [fs[0]] + fs[1..];
      Insert(fs[0], SortByKey(fs[1..]))
  }

  lemma SortedTail(fs: Files)
    requires SortedByKey(fs) && fs != []
    ensures SortedByKey(fs[1..])
  {
    forall i, j | 0 <= i < j < |fs[1..]|
      ensures StrLess(fs[1..][i].0, fs[1..][j].0)
    {
      assert fs[1..][i] == fs[i + 1] && fs[1..][j] == fs[j + 1];
    }
  }

  lemma DistinctTail(fs: Files)
    requires DistinctKeys(fs) && fs != []
    ensures DistinctKeys(fs[1..])
  {
    forall i, j | 0 <= i < j < |fs[1..]|
      ensures fs[1..][i].0 != fs[1..][j].0
    {
      assert fs[1..][i] == fs[i + 1] && fs[1..][j] == fs[j + 1];
    }
  }

  /** An item of a tail is an item of the list. */
  lemma InTail(fs: Files, y: (string, seq<byte>))
    requires fs != [] && y in multiset(fs[1..])
    ensures exists j :: 1 <= j < |fs| && fs[j] == y
  {
    var j :| 0 <= j < |fs[1..]| && fs[1..][j] == y;
    assert fs[j + 1] == y;
  }

  /** A first item below every item of a sorted tail gives a sorted list. */
  lemma ConsSorted(x: (string, seq<byte>), fs: Files)
    requires SortedByKey(fs) && forall y | y in fs :: StrLess(x.0, y.0)
    ensures SortedByKey([x] + fs)
  {
    var r := [x] + fs;
    forall i, j | 0 <= i < j < |r|
      ensures StrLess(r[i].0, r[j].0)
    {
      if i > 0 {
        assert r[i] == fs[i - 1] && r[j] == fs[j - 1];
      } else {
        assert r[j] in fs;
      }
    }
  }

  lemma {:induction false} InsertSorted(x: (string, seq<byte>), fs: Files)
    requires SortedByKey(fs) && forall y | y in fs :: y.0 != x.0
    ensures SortedByKey(Insert(x, fs))
  {
    if fs == [] {
    } else if StrLess(fs[0].0, x.0) {
      var t := Insert(x, fs[1..]);
      SortedTail(fs);
      forall y | y in fs[1..]
        ensures y.0 != x.0
      {
        assert y in fs;
      }
      InsertSorted(x, fs[1..]);
      forall y | y in t
        ensures StrLess(fs[0].0, y.0)
      {
        assert y in multiset(t);
        if y != x {
          InTail(fs, y);
        }
      }
      ConsSorted(fs[0], t);
    } else {
      assert fs[0] in fs;
      StrLessTotal(x.0, fs[0].0);
      forall y | y in fs
        ensures StrLess(x.0, y.0)
      {
        var j :| 0 <= j < |fs| && fs[j] == y;
        if j > 0 {
          StrLessTransitive(x.0, fs[0].0, y.0);
        }
      }
      ConsSorted(x, fs);
    }
  }

  /** `sorted` of a dict's items is in strictly increasing path order. */
  lemma {:induction false} SortSorted(fs: Files)
    requires DistinctKeys(fs)
    ensures SortedByKey(SortByKey(fs))
  {
    if fs != [] {
      var t := SortByKey(fs[1..]);
      DistinctTail(fs);
      SortSorted(fs[1..]);
      forall y | y in t
        ensures y.0 != fs[0].0
      {
        assert y in multiset(t);
        InTail(fs, y);
      }
      InsertSorted(fs[0], t);
    }
  }

  /** Two sorted lists with the same items are the same list. */
  lemma {:induction false} SortedUnique(a: Files, b: Files)
    requires SortedByKey(a) && SortedByKey(b) && multiset(a) == multiset(b)
    ensures a == b
  {
    if a == [] {
      assert |b| == |multiset(b)| == 0;
    } else {
      assert |b| == |multiset(b)| == |a|;
      SameHead(a, b);
      assert a == [a[0]] + a[1..] && b == [b[0]] + b[1..];
      assert multiset(a) == multiset{a[0]} + multiset(a[1..]);
      assert multiset(b) == multiset{b[0]} + multiset(b[1..]);
      assert multiset(a[1..]) == multiset(a) - multiset{a[0]};
      assert multiset(b[1..]) == multiset(b) - multiset{b[0]};
      SortedTail(a);
      SortedTail(b);
      SortedUnique(a[1..], b[1..]);
    }
  }

  /** Two sorted lists with the same items start with the same item. */
  lemma SameHead(a: Files, b: Files)
    requires SortedByKey(a) && SortedByKey(b) && multiset(a) == multiset(b) && a != [] && b != []
    ensures a[0] == b[0]
  {
    assert a[0] in multiset(b) && b[0] in multiset(a);
    var i :| 0 <= i < |a| && a[i] == b[0];
    var j :| 0 <= j < |b| && b[j] == a[0];
    if i > 0 && j > 0 {
      StrLessAsymmetric(a[0].0, a[i].0);
    } else if i > 0 {
      StrLessIrreflexive(a[0].0);
    }
  }

  /** The order in which a dict was filled does not change what `sorted` gives. */
  lemma SortIndependent(a: Files, b: Files)
    requires DistinctKeys(a) && DistinctKeys(b) && multiset(a) == multiset(b)
    ensures SortByKey(a) == SortByKey(b)
  {
    SortSorted(a);
    SortSorted(b);
    SortedUnique(SortByKey(a), SortByKey(b));
  }

  // ---------------------------------------------------------------------------
  // The output file name
  // ---------------------------------------------------------------------------

  const PAK_PREFIX: string := "War-WindowsNoEditor_"
  const PAK_SUFFIX: string := ".pak"

  predicate EndsWithPak(s: string)
  {
    |s| >= |PAK_SUFFIX| && s[|s| - |PAK_SUFFIX|..] == PAK_SUFFIX
  }

  /** One trailing `.pak` is dropped from `output`, then prefix and extension are added. */
  function OutputName(output: string): (name: string)
    ensures |name| >= |PAK_PREFIX| + |PAK_SUFFIX|
    ensures name[..|PAK_PREFIX|] == PAK_PREFIX && EndsWithPak(name)
  {
    var base := if EndsWithPak(output) then output[..|output| - |PAK_SUFFIX|] else output;
    PAK_PREFIX + base + PAK_SUFFIX
  }

  /** A name without the extension is kept whole. */
  lemma OutputNamePlain(output: string)
    requires !EndsWithPak(output)
    ensures OutputName(output) == PAK_PREFIX + output + PAK_SUFFIX
  {
  }

  /** Exactly one trailing `.pak` is stripped: `x.pak` and `x` name the same file. */
  lemma OutputNameStripsOne(x: string)
    ensures OutputName(x + PAK_SUFFIX) == PAK_PREFIX + x + PAK_SUFFIX
  {
    var o := x + PAK_SUFFIX;
    assert o[|o| - |PAK_SUFFIX|..] == PAK_SUFFIX;
    assert o[..|o| - |PAK_SUFFIX|] == x;
  }

  // ---------------------------------------------------------------------------
  // The archive `pak` writes
  // ---------------------------------------------------------------------------

  /** `b` holds `x` at offset `r`. */
  predicate Occurs<T(==)>(x: seq<T>, b: seq<T>, r: nat)
  {
    r + |x| <= |b| && b[r..r + |x|] == x
  }

  /** A record writer: the bytes it writes for `data` at offset `r`, or the entry it returns. */
  type Placer = (seq<byte>, nat) -> seq<byte>

  /**
   * The run of records `rec` writes for the items `fs`, in order, from offset
   * 0 (each at the end of the ones before it), with the pairs `(path, entry)`
   * that `ent` gives for them.
   */
  function Lay(rec: Placer, ent: Placer, fs: Files): (l: (seq<byte>, Files))
    ensures |l.1| == |fs|
  {
    if fs == [] then ([], [])
    else
      var prefix := Lay(rec, ent, fs[..|fs| - 1]);
      var f := fs[|fs| - 1];
      var r := |prefix.0|;
      (prefix.0 + rec(f.1, r), prefix.1 + [(f.0, ent(f.1, r))])
  }

  lemma LayStep(rec: Placer, ent: Placer, fs: Files, i: nat)
    requires i < |fs|
    ensures var l := Lay(rec, ent, fs[..i]);
            Lay(rec, ent, fs[..i + 1]) == (l.0 + rec(fs[i].1, |l.0|), l.1 + [(fs[i].0, ent(fs[i].1, |l.0|))])
  {
    assert fs[..i + 1][..i] == fs[..i];
    assert fs[..i + 1][i] == fs[i];
  }

  lemma {:induction false} LayPrefix(rec: Placer, ent: Placer, fs: Files, k: nat)
    requires k <= |fs|
    ensures Lay(rec, ent, fs[..k]).0 <= Lay(rec, ent, fs).0
  {
    var n := |fs|;
    if k < n {
      var fs' := fs[..n - 1];
      LayPrefix(rec, ent, fs', k);
      assert fs'[..k] == fs[..k];
      var l := Lay(rec, ent, fs');
      PrefixExtend(Lay(rec, ent, fs[..k]).0, l.0, rec(fs[n - 1].1, |l.0|));
    } else {
      assert fs[..k] == fs;
    }
  }

  lemma {:induction false} LayEntryAt(rec: Placer, ent: Placer, fs: Files, i: nat)
    requires i < |fs|
    ensures Lay(rec, ent, fs).1[i] == (fs[i].0, ent(fs[i].1, |Lay(rec, ent, fs[..i]).0|))
  {
    var n := |fs|;
    if i < n - 1 {
      var fs' := fs[..n - 1];
      LayEntryAt(rec, ent, fs', i);
      assert fs'[..i] == fs[..i] && fs'[i] == fs[i];
    } else {
      LayStep(rec, ent, fs, i);
      assert fs[..n] == fs;
    }
  }

  lemma LayRecordAt(rec: Placer, ent: Placer, fs: Files, i: nat, x: seq<byte>, e: seq<byte>)
    requires i < |fs|
    requires x == rec(fs[i].1, |Lay(rec, ent, fs[..i]).0|) && e == ent(fs[i].1, |Lay(rec, ent, fs[..i]).0|)
    ensures var b := Lay(rec, ent, fs);
            var r := |Lay(rec, ent, fs[..i]).0|;
            Occurs(x, b.0, r)
            && |Lay(rec, ent, fs[..i + 1]).0| == r + |x|
            && b.1[i] == (fs[i].0, e)
  {
    var l := Lay(rec, ent, fs[..i]);
    LayStep(rec, ent, fs, i);
    LayPrefix(rec, ent, fs, i + 1);
    PrefixSlice(Lay(rec, ent, fs).0, l.0, x);
    assert Occurs(x, Lay(rec, ent, fs).0, |l.0|);
    LayEntryAt(rec, ent, fs, i);
  }

  /** `_write_record` for the given compression mode, as a record writer. */
  function RecordAt(prim: Primitives, compress: bool): (p: Placer)
    ensures forall data, r :: p(data, r) == RecordBytes(prim, data, compress, r)
  {
    (data: seq<byte>, r: nat) => RecordBytes(prim, data, compress, r)
  }

  /** The entries `_write_record` returns, for the given compression mode. */
  function EntryAt(prim: Primitives, compress: bool): (p: Placer)
    ensures forall data, r :: p(data, r) == EntryBytes(prim, data, compress, r)
  {
    (data: seq<byte>, r: nat) => EntryBytes(prim, data, compress, r)
  }

  /** The records `pak` writes for the items `fs`, with the index pairs they return. */
  function Layout(prim: Primitives, fs: Files, compress: bool): (l: (seq<byte>, Files))
    ensures |l.1| == |fs|
  {
    Lay(RecordAt(prim, compress), EntryAt(prim, compress), fs)
  }

  /** Where record `i` of the archive starts. */
  function RecordOffset(prim: Primitives, fs: Files, compress: bool, i: nat): nat
    requires i <= |fs|
  {
    |Layout(prim, fs[..i], compress).0|
  }

  /** The whole file: the records, then the index written where they end. */
  function ArchiveBytes(prim: Primitives, sep: char, fs: Files, compress: bool): seq<byte>
  {
    var l := Layout(prim, fs, compress);
    l.0 + IndexBytes(prim, sep, l.1, |l.0|)
  }

  /** Every value `pak` packs for `fs` fits its field (else `struct.pack` raises). */
  predicate ArchiveFits(prim: Primitives, sep: char, fs: Files, compress: bool)
  {
    (forall i :: 0 <= i < |fs| ==> RecordFits(prim, fs[i].1, compress, RecordOffset(prim, fs, compress, i)))
    && IndexFits(sep, Layout(prim, fs, compress).1, |Layout(prim, fs, compress).0|)
  }

  /** One more file: its record goes at the end, its pair at the end of the index list. */
  lemma LayoutStep(prim: Primitives, fs: Files, compress: bool, i: nat)
    requires i < |fs|
    ensures var l := Layout(prim, fs[..i], compress);
            var r := |l.0|;
            Layout(prim, fs[..i + 1], compress)
              == (l.0 + RecordBytes(prim, fs[i].1, compress, r), l.1 + [(fs[i].0, EntryBytes(prim, fs[i].1, compress, r))])
  {
    LayStep(RecordAt(prim, compress), EntryAt(prim, compress), fs, i);
  }

  lemma PrefixExtend<T>(p: seq<T>, a: seq<T>, x: seq<T>)
    requires p <= a
    ensures p <= a + x
  {
    assert (a + x)[..|p|] == a[..|p|];
  }

  /** What follows a prefix `p` inside `b`, when `p + x` begins `b`. */
  lemma PrefixSlice<T>(b: seq<T>, p: seq<T>, x: seq<T>)
    requires p + x <= b
    ensures |p| + |x| <= |b| && b[|p|..|p| + |x|] == x
  {
    assert b[|p|..|p| + |x|] == (p + x)[|p|..];
  }

  /**
   * Record `i` lies whole in the archive at `RecordOffset(i)`, right after
   * record `i - 1`, and index pair `i` is the file's path with the entry
   * `_write_record` returned for that offset.
   */
  lemma LayoutRecordAt(prim: Primitives, fs: Files, compress: bool, i: nat)
    requires i < |fs|
    ensures var r := RecordOffset(prim, fs, compress, i);
            Occurs(RecordBytes(prim, fs[i].1, compress, r), Layout(prim, fs, compress).0, r)
    ensures var r := RecordOffset(prim, fs, compress, i);
            RecordOffset(prim, fs, compress, i + 1) == r + |RecordBytes(prim, fs[i].1, compress, r)|
    ensures Layout(prim, fs, compress).1[i]
              == (fs[i].0, EntryBytes(prim, fs[i].1, compress, RecordOffset(prim, fs, compress, i)))
  {
    var r := RecordOffset(prim, fs, compress, i);
    LayRecordAt(RecordAt(prim, compress), EntryAt(prim, compress), fs, i,
                RecordBytes(prim, fs[i].1, compress, r), EntryBytes(prim, fs[i].1, compress, r));
  }

  /**
   * The loop of `pak`: each file's record written at the end of the ones
   * before it, and its `(path, entry)` pair appended to `records`.
   */
  method WriteRecords(s: Stream, fs: Files, compress: bool, prim: Primitives) returns (records: Files)
    requires s.data == [] && s.pos == 0
    requires forall i :: 0 <= i < |fs| ==> RecordFits(prim, fs[i].1, compress, RecordOffset(prim, fs, compress, i))
    modifies s
    ensures s.data == Layout(prim, fs, compress).0 && s.pos == |s.data|
    ensures records == Layout(prim, fs, compress).1
  {
    records := [];
    for i := 0 to |fs|
      invariant s.data == Layout(prim, fs[..i], compress).0 && s.pos == |s.data|
      invariant records == Layout(prim, fs[..i], compress).1
    {
      var (p, b) := fs[i];
      LayoutStep(prim, fs, compress, i);
      ghost var before := s.data;
      var record := WriteRecord(s, b, compress, prim);
      OverwriteAtEnd(before, RecordBytes(prim, b, compress, |before|));
      records := records + [(p, record)];
    }
    assert fs[..|fs|] == fs;
  }

  /**
   * `pak`: the output name, and the file written from scratch with the items
   * in sorted order, then the index.
   */
  method Pak(output: string, files: Files, compress: bool, prim: Primitives, sep: char)
      returns (name: string, s: Stream)
    requires ArchiveFits(prim, sep, SortByKey(files), compress)
    ensures name == OutputName(output)
    ensures s.data == ArchiveBytes(prim, sep, SortByKey(files), compress)
  {
    var sortedFiles := SortByKey(files);
    name := OutputName(output);
    s := new Stream();
    var records := WriteRecords(s, sortedFiles, compress, prim);
    ghost var before := s.data;
    WriteIndex(s, records, prim, sep);
    OverwriteAtEnd(before, IndexBytes(prim, sep, records, |before|));
  }

  /**
   * The archive does not depend on the order in which the dict was filled:
   * two dicts with the same items give the same bytes.
   */
  lemma PakIndependent(prim: Primitives, sep: char, a: Files, b: Files, compress: bool)
    requires DistinctKeys(a) && DistinctKeys(b) && multiset(a) == multiset(b)
    ensures ArchiveBytes(prim, sep, SortByKey(a), compress) == ArchiveBytes(prim, sep, SortByKey(b), compress)
  {
    SortIndependent(a, b);
  }

  /**
   * In the archive of a dict, record `i` is the record for the `i`-th path in
   * ascending order, and the index lists the paths in ascending order too.
   */
  lemma PakOrder(prim: Primitives, sep: char, files: Files, compress: bool, i: nat, j: nat)
    requires DistinctKeys(files) && i < j < |files|
    ensures var fs := SortByKey(files);
            var es := Layout(prim, fs, compress).1;
            es[i].0 == fs[i].0 && es[j].0 == fs[j].0 && StrLess(es[i].0, es[j].0)
  {
    var fs := SortByKey(files);
    assert |fs| == |multiset(fs)| == |files|;
    SortSorted(files);
    LayoutRecordAt(prim, fs, compress, i);
    LayoutRecordAt(prim, fs, compress, j);
  }

  /**
   * Reading the archive back: record `i` sits at the offset its index entry
   * starts with, and the index itself starts right after the last record.
   */
  lemma ArchiveRecordAt(prim: Primitives, sep: char, fs: Files, compress: bool, i: nat)
    requires ArchiveFits(prim, sep, fs, compress) && i < |fs|
    ensures var a := ArchiveBytes(prim, sep, fs, compress);
            var l := Layout(prim, fs, compress);
            var r := RecordOffset(prim, fs, compress, i);
            var rec := RecordBytes(prim, fs[i].1, compress, r);
            |l.1[i].1| >= 8 && ReadU64(l.1[i].1, 0) == r
            && Occurs(rec, a, r) && Occurs(IndexBytes(prim, sep, l.1, |l.0|), a, |l.0|)
  {
    var l := Layout(prim, fs, compress);
    var r := RecordOffset(prim, fs, compress, i);
    var rec := RecordBytes(prim, fs[i].1, compress, r);
    LayoutRecordAt(prim, fs, compress, i);
    EntryStartsWithOffset(prim, fs[i].1, compress, r);
    OccursAppend(rec, l.0, IndexBytes(prim, sep, l.1, |l.0|), r);
  }

  /** What `b` holds stays where it is when `y` is appended, and `y` sits at `|b|`. */
  lemma OccursAppend(x: seq<byte>, b: seq<byte>, y: seq<byte>, r: nat)
    requires Occurs(x, b, r)
    ensures Occurs(x, b + y, r) && Occurs(y, b + y, |b|)
  {
    assert (b + y)[r..r + |x|] == b[r..r + |x|];
    assert (b + y)[|b|..|b| + |y|] == y;
  }

  /** An entry starts with the offset of its record. */
  lemma EntryStartsWithOffset(prim: Primitives, data: seq<byte>, compress: bool, r: nat)
    requires r < U64_LIMIT
    ensures var e := EntryBytes(prim, data, compress, r);
            |e| >= 8 && ReadU64(e, 0) == r
  {
    FirstField(U64(r), U64(StoredSize(prim, data, compress)), U64(|data|), U32(Flag(compress)),
               StoredHash(prim, data, compress), EntryTail(prim, data, compress, r));
    ReadU64At(EntryBytes(prim, data, compress, r), 0, r);
  }

  lemma FirstField(x: seq<byte>, a: seq<byte>, b: seq<byte>, c: seq<byte>, d: seq<byte>, e: seq<byte>)
    ensures |x + a + b + c + d + e| >= |x| && (x + a + b + c + d + e)[..|x|] == x
  {
    assert x + a + b + c + d + e == x + (a + b + c + d + e);
  }

  /** An empty dict gives an archive that is just the index over no records. */
  lemma EmptyPak(prim: Primitives, sep: char, compress: bool)
    ensures ArchiveBytes(prim, sep, SortByKey([]), compress) == IndexBytes(prim, sep, [], 0)
  {
  }
}
