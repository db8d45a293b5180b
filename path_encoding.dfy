/**
 * How a path is stored in the archive (`_pack_path`): the OS separator becomes
 * `/`, the text is UTF-8 encoded and NUL-terminated, and the result is
 * prefixed with its byte count as a little-endian u32.
 */
module PathEncoding {
  import opened Bytes
  import opened Wrappers

  /** `path.replace(sep, "/")` for a one-character separator. */
  function ReplaceSep(path: string, sep: char): (r: string)
    ensures |r| == |path|
    ensures forall i :: 0 <= i < |path| ==> r[i] == if path[i] == sep then '/' else path[i]
  {
    seq(|path|, i requires 0 <= i < |path| => if path[i] == sep then '/' else path[i])
  }

  /**
   * The UTF-8 encoding of one scalar value: its base-64 digits `d0` (lowest),
   * `d1`, `d2` and the remaining high part, with the lead byte marking the
   * length.
   */
  function Utf8Char(c: char): (r: seq<byte>)
    ensures 1 <= |r| <= 4
  {
    var cp := c as int;
    var d0, r1 := cp % 64, cp / 64;
    var d1, r2 := r1 % 64, r1 / 64;
    var d2, r3 := r2 % 64, r2 / 64;
    if cp < 0x80 then [cp]
    else if cp < 0x800 then [0xC0 + r1, 0x80 + d0]
    else if cp < 0x1_0000 then [0xE0 + r2, 0x80 + d1, 0x80 + d0]
    else [0xF0 + r3, 0x80 + d2, 0x80 + d1, 0x80 + d0]
  }

  /** `s.encode("utf-8")` */
  function Utf8(s: string): seq<byte>
  {
    if s == [] then [] else Utf8Char(s[0]) + Utf8(s[1..])
  }

  predicate IsContinuation(b: byte)
  {
    0x80 <= b < 0xC0
  }

  /** The scalar value `cp` and the byte count `n` it was decoded from. */
  function Scalar(cp: int, n: nat): Option<(char, nat)>
  {
    if 0 <= cp < 0xD800 || 0xE000 <= cp < 0x11_0000 then Some((cp as char, n)) else None
  }

  /** Decodes the first scalar value of `b`, with the number of bytes it used. */
  function DecodeChar(b: seq<byte>): (r: Option<(char, nat)>)
    requires b != []
    ensures r.Some? ==> 1 <= r.value.1 <= |b|
  {
    var lead: int := b[0];
    if lead < 0x80 then Scalar(lead, 1)
    else if 0xC0 <= lead < 0xE0 && |b| >= 2 && IsContinuation(b[1]) then
      Scalar((lead - 0xC0) * 64 + (b[1] as int - 0x80), 2)
    else if 0xE0 <= lead < 0xF0 && |b| >= 3 && IsContinuation(b[1]) && IsContinuation(b[2]) then
      Scalar((lead - 0xE0) * 4096 + (b[1] as int - 0x80) * 64 + (b[2] as int - 0x80), 3)
    else if 0xF0 <= lead < 0xF8 && |b| >= 4 && IsContinuation(b[1]) && IsContinuation(b[2])
            && IsContinuation(b[3]) then
      Scalar((lead - 0xF0) * 262144 + (b[1] as int - 0x80) * 4096 + (b[2] as int - 0x80) * 64
             + (b[3] as int - 0x80), 4)
    else None
  }

  /** `b.decode("utf-8")`, `None` where Python would raise. */
  function DecodeUtf8(b: seq<byte>): Option<string>
    decreases |b|
  {
    if b == [] then Some("")
    else match DecodeChar(b)
      case None => None
      case Some((c, n)) =>
        match DecodeUtf8(b[n..])
        case None => None
        case Some(rest) => Some([c] + rest)
  }

  /** Decoding the UTF-8 of a scalar value, whatever follows it, gives it back. */
  lemma DecodeCharOfUtf8Char(c: char, rest: seq<byte>)
    ensures DecodeChar(Utf8Char(c) + rest) == Some((c, |Utf8Char(c)|))
  {
    var cp := c as int;
    var d0, r1 := cp % 64, cp / 64;
    var d1, r2 := r1 % 64, r1 / 64;
    var d2, r3 := r2 % 64, r2 / 64;
    assert cp == r1 * 64 + d0 && r1 == r2 * 64 + d1 && r2 == r3 * 64 + d2;
    var b := Utf8Char(c) + rest;
    if cp < 0x80 {
    } else if cp < 0x800 {
      assert b[0] == 0xC0 + r1 && b[1] == 0x80 + d0;
    } else if cp < 0x1_0000 {
      assert b[0] == 0xE0 + r2 && b[1] == 0x80 + d1 && b[2] == 0x80 + d0;
    } else {
      assert b[0] == 0xF0 + r3 && b[1] == 0x80 + d2 && b[2] == 0x80 + d1 && b[3] == 0x80 + d0;
    }
  }

  lemma {:induction false} DecodeUtf8OfUtf8(s: string)
    ensures DecodeUtf8(Utf8(s)) == Some(s)
  {
    if s != [] {
      var e := Utf8Char(s[0]);
      DecodeCharOfUtf8Char(s[0], Utf8(s[1..]));
      assert (e + Utf8(s[1..]))[|e|..] == Utf8(s[1..]);
      DecodeUtf8OfUtf8(s[1..]);
      assert [s[0]] + s[1..] == s;
    }
  }

  /** UTF-8 never produces a zero byte except for the NUL character. */
  lemma {:induction false} Utf8HasNoNul(s: string)
    requires forall i :: 0 <= i < |s| ==> s[i] as int != 0
    ensures forall i :: 0 <= i < |Utf8(s)| ==> Utf8(s)[i] != 0
  {
    if s != [] {
      Utf8HasNoNul(s[1..]);
      var e := Utf8Char(s[0]);
      assert forall i :: 0 <= i < |e| ==> e[i] != 0;
    }
  }

  /** ASCII text encodes to its own code points, one byte each. */
  lemma {:induction false} Utf8OfAscii(s: string)
    requires forall i :: 0 <= i < |s| ==> s[i] as int < 0x80
    ensures |Utf8(s)| == |s|
    ensures forall i :: 0 <= i < |s| ==> Utf8(s)[i] == s[i] as int
  {
    if s != [] {
      Utf8OfAscii(s[1..]);
      assert Utf8Char(s[0]) == [s[0] as int];
    }
  }

  /** The stored bytes of `path` after its length prefix. */
  function EncodedPath(sep: char, path: string): (r: seq<byte>)
    ensures |r| >= 1
  {
    Utf8(ReplaceSep(path, sep)) + [0]
  }

  /** `_pack_path(path)` with `os.path.sep == sep` */
  function PackPath(sep: char, path: string): (r: seq<byte>)
    ensures |r| == 4 + |EncodedPath(sep, path)|
  {
    var e := EncodedPath(sep, path);
    U32(|e|) + e
  }

  /** A path whose normalised characters are the ASCII bytes `b` packs to them, NUL-terminated and length-prefixed. */
  lemma PackAscii(sep: char, path: string, b: seq<byte>)
    requires |b| == |path|
    requires forall i :: 0 <= i < |path| ==> (if path[i] == sep then '/' else path[i]) as int == b[i] < 0x80
    ensures PackPath(sep, path) == U32(|b| + 1) + b + [0]
  {
    var r := ReplaceSep(path, sep);
    Utf8OfAscii(r);
    assert Utf8(r) == b;
  }

  /** Reads one packed path from the front of `b`: the path and the bytes it used. */
  function UnpackPath(b: seq<byte>): (r: Option<(string, nat)>)
    ensures r.Some? ==> r.value.1 <= |b|
  {
    if |b| < 4 then None
    else
      var n := FromLE(b[..4]);
      if n == 0 || |b| < 4 + n || b[4 + n - 1] != 0 then None
      else match DecodeUtf8(b[4..4 + n - 1])
        case None => None
        case Some(s) => Some((s, 4 + n))
  }

  /**
   * A packed path is a u32 length L followed by exactly L bytes: the UTF-8 of
   * the path with `sep` replaced by `/`, then one NUL byte.
   */
  lemma PackPathLayout(sep: char, path: string)
    requires |EncodedPath(sep, path)| < U32_LIMIT
    ensures var r := PackPath(sep, path);
            FromLE(r[..4]) == |r| - 4
            && r[4..|r| - 1] == Utf8(ReplaceSep(path, sep))
            && r[|r| - 1] == 0
  {
    var e := EncodedPath(sep, path);
    U32RoundTrip(|e|);
    assert PackPath(sep, path)[..4] == U32(|e|);
  }

  /** Unpacking a packed path, whatever follows it, gives back the normalised path. */
  lemma UnpackPackPath(sep: char, path: string, rest: seq<byte>)
    requires |EncodedPath(sep, path)| < U32_LIMIT
    ensures UnpackPath(PackPath(sep, path) + rest)
         == Some((ReplaceSep(path, sep), |PackPath(sep, path)|))
  {
    var r := PackPath(sep, path);
    var b := r + rest;
    PackPathLayout(sep, path);
    assert b[..4] == r[..4];
    assert b[4..|r| - 1] == r[4..|r| - 1];
    DecodeUtf8OfUtf8(ReplaceSep(path, sep));
  }
}
