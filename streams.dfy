/**
 * The seekable binary output stream the writer works on (a file opened "wb").
 * `write` overwrites from the current position and extends the file when it
 * runs past the end; a position beyond the end is filled with zero bytes by
 * the next write. `seek` only moves the position.
 */
module Streams {
  import opened Bytes

  function Max(a: int, b: int): int
  {
    if a < b then b else a
  }

  /** The file contents after writing `b` at position `p` of contents `s`. */
  function Overwrite(s: seq<byte>, p: nat, b: seq<byte>): (r: seq<byte>)
    ensures |r| == Max(|s|, p + |b|)
  {
    seq(Max(|s|, p + |b|),
        i requires 0 <= i < Max(|s|, p + |b|) =>
          if p <= i < p + |b| then b[i - p] else if i < |s| then s[i] else 0)
  }

  /** Bytes outside the written range keep their old value. */
  lemma OverwriteFrame(s: seq<byte>, p: nat, b: seq<byte>, i: nat)
    requires i < |s| && (i < p || p + |b| <= i)
    ensures i < |Overwrite(s, p, b)| && Overwrite(s, p, b)[i] == s[i]
  {
  }

  /** Writing at the end of the file appends. */
  lemma OverwriteAtEnd(s: seq<byte>, b: seq<byte>)
    ensures Overwrite(s, |s|, b) == s + b
  {
    assert forall i :: 0 <= i < |s + b| ==> Overwrite(s, |s|, b)[i] == (s + b)[i];
  }

  /** A write after seeking `gap` bytes past the end zero-fills the gap. */
  lemma SeekPastEndZeroFills(s: seq<byte>, gap: nat, b: seq<byte>)
    ensures Overwrite(s, |s| + gap, b) == s + Zeros(gap) + b
  {
    var r := s + Zeros(gap) + b;
    assert forall i :: 0 <= i < |r| ==> Overwrite(s, |s| + gap, b)[i] == r[i];
  }

  /** Two writes, the second starting where the first ended (`q`), are one write. */
  lemma OverwriteAdjacent(s: seq<byte>, p: nat, a: seq<byte>, q: nat, b: seq<byte>)
    requires q == p + |a|
    ensures Overwrite(Overwrite(s, p, a), q, b) == Overwrite(s, p, a + b)
  {
    var l := Overwrite(Overwrite(s, p, a), q, b);
    var r := Overwrite(s, p, a + b);
    assert forall i :: 0 <= i < |r| ==> l[i] == r[i];
  }

  /**
   * Writing `a` at `p`, skipping to `g` (past `|t|` bytes), writing `b`, then
   * seeking back to `q` and filling the skipped bytes with `t` is the same as
   * writing `a + t + b` at `p`.
   */
  lemma OverwriteFillGap(s: seq<byte>, p: nat, a: seq<byte>, q: nat, t: seq<byte>, g: nat, b: seq<byte>)
    requires q == p + |a| && g == q + |t|
    ensures Overwrite(Overwrite(Overwrite(s, p, a), g, b), q, t) == Overwrite(s, p, a + t + b)
  {
    var l := Overwrite(Overwrite(Overwrite(s, p, a), g, b), q, t);
    var r := Overwrite(s, p, a + t + b);
    assert forall i :: 0 <= i < |r| ==> l[i] == r[i];
  }

  /** Rewriting `x` at offset `k` inside a block written at `p` edits that block. */
  lemma OverwritePatch(s: seq<byte>, p: nat, a: seq<byte>, k: nat, x: seq<byte>)
    requires k + |x| <= |a|
    ensures Overwrite(Overwrite(s, p, a), p + k, x) == Overwrite(s, p, a[..k] + x + a[k + |x|..])
  {
    var l := Overwrite(Overwrite(s, p, a), p + k, x);
    var r := Overwrite(s, p, a[..k] + x + a[k + |x|..]);
    assert forall i :: 0 <= i < |r| ==> l[i] == r[i];
  }

  /**
   * Writing `a` at `p`, skipping `|t|` bytes to `g`, writing `x` and then `c`
   * right after it, and finally filling the skipped bytes with `t`, is the
   * same as writing `a + t + x + c` at `p`.
   */
  lemma OverwriteTableFill(s: seq<byte>, p: nat, a: seq<byte>, q: nat, t: seq<byte>,
                           g: nat, x: seq<byte>, r: nat, c: seq<byte>)
    requires q == p + |a| && g == q + |t| && r == g + |x|
    ensures Overwrite(Overwrite(Overwrite(Overwrite(s, p, a), g, x), r, c), q, t)
         == Overwrite(s, p, a + t + x + c)
  {
    OverwriteAdjacent(Overwrite(s, p, a), g, x, r, c);
    OverwriteFillGap(s, p, a, q, t, g, x + c);
    assert a + t + (x + c) == a + t + x + c;
  }

  /** Writing nothing where the file already reaches leaves it unchanged. */
  lemma OverwriteEmpty(s: seq<byte>, p: nat)
    requires p <= |s|
    ensures Overwrite(s, p, []) == s
  {
  }

  class Stream {
    var data: seq<byte>
    var pos: nat

    /** `open(name, "wb")`: an empty file positioned at 0. */
    constructor ()
      ensures data == [] && pos == 0
    {
      data := [];
      pos := 0;
    }

    /** `stream.write(b)` */
    method Write(b: seq<byte>)
      modifies this
      ensures data == Overwrite(old(data), old(pos), b)
      ensures pos == old(pos) + |b|
    {
      data := Overwrite(data, pos, b);
      pos := pos + |b|;
    }

    /** `stream.seek(offset, 0)` */
    method Seek(offset: nat)
      modifies this
      ensures data == old(data) && pos == offset
    {
      pos := offset;
    }

    /** `stream.seek(delta, 1)` with a non-negative `delta` */
    method SeekCurrent(delta: nat)
      modifies this
      ensures data == old(data) && pos == old(pos) + delta
    {
      pos := pos + delta;
    }
  }
}
