/**
 * The texture side of the writer: resolving a texture's name against the
 * table of known headers (`_fix_key`, `_get_header`), building its `.uasset`
 * (`_gen_uasset`), and the files dict `pak_textures_bc7` hands to `pak`.
 */
module Textures {
  import opened Wrappers
  import opened Bytes
  import opened Streams
  import opened Archive

  /** The `ValueError`s raised on the texture path. */
  datatype Error = UnknownTextureName(name: string) | InvalidTextureSize

  // ---------------------------------------------------------------------------
  // `str.lower()`
  // ---------------------------------------------------------------------------

  function LowerChar(c: char): char
  {
    if 'A' <= c <= 'Z' then (c as int + 32) as char else c
  }

  /** `s.lower()`, on ASCII letters; every other character is kept. */
  function Lower(s: string): (r: string)
    ensures |r| == |s|
    ensures forall i :: 0 <= i < |s| ==> r[i] == LowerChar(s[i])
  {
    seq(|s|, i requires 0 <= i < |s| => LowerChar(s[i]))
  }

  lemma LowerAppend(a: string, b: string)
    ensures Lower(a + b) == Lower(a) + Lower(b)
  {
    assert forall i :: 0 <= i < |a + b| ==> Lower(a + b)[i] == (Lower(a) + Lower(b))[i];
  }

  // ---------------------------------------------------------------------------
  // `_HEADERS_LOWER`
  // ---------------------------------------------------------------------------

  /** `_HEADERS_LOWER`: lower-cased texture name to (canonical name, header bytes). */
  type HeaderTable = map<string, (string, seq<byte>)>

  /** Each key is the lower-cased form of the canonical name stored under it. */
  predicate WellFormed(t: HeaderTable)
  {
    forall k | k in t :: Lower(t[k].0) == k
  }

  /** The table after the module-load loop has seen the headers `hs`, in order. */
  function TableOf(hs: seq<(string, seq<byte>)>): HeaderTable
  {
    if hs == [] then map[]
    else
      var h := hs[|hs| - 1];
      TableOf(hs[..|hs| - 1])[Lower(h.0) := h]
  }

  /**
   * The module-load loop over the header names: each `(name, data)` is stored
   * under `name.lower()`. The bytes of each header file are a parameter.
   */
  method LoadHeaders(hs: seq<(string, seq<byte>)>) returns (t: HeaderTable)
    ensures t == TableOf(hs)
  {
    t := map[];
    for i := 0 to |hs|
      invariant t == TableOf(hs[..i])
    {
      var (name, data) := hs[i];
      assert hs[..i + 1][..i] == hs[..i];
      t := t[Lower(name) := (name, data)];
    }
    assert hs[..|hs|] == hs;
  }

  /** The loaded table is well formed, and its keys are the lower-cased header names. */
  lemma {:induction false} TableOfKeys(hs: seq<(string, seq<byte>)>)
    ensures WellFormed(TableOf(hs))
    ensures forall k :: k in TableOf(hs) <==> exists i :: 0 <= i < |hs| && Lower(hs[i].0) == k
  {
    if hs != [] {
      var p := hs[..|hs| - 1];
      TableOfKeys(p);
      forall k
        ensures k in TableOf(hs) <==> exists i :: 0 <= i < |hs| && Lower(hs[i].0) == k
      {
        if k in TableOf(p) {
          var i :| 0 <= i < |p| && Lower(p[i].0) == k;
          assert hs[i] == p[i];
        }
        if exists i :: 0 <= i < |hs| && Lower(hs[i].0) == k {
          var i :| 0 <= i < |hs| && Lower(hs[i].0) == k;
          if i < |hs| - 1 {
            assert p[i] == hs[i];
          }
        }
      }
    }
  }

  /** Of several names that lower-case alike, the last one read wins. */
  lemma {:induction false} TableOfLastWins(hs: seq<(string, seq<byte>)>, i: nat)
    requires i < |hs|
    requires forall j :: i < j < |hs| ==> Lower(hs[j].0) != Lower(hs[i].0)
    ensures Lower(hs[i].0) in TableOf(hs) && TableOf(hs)[Lower(hs[i].0)] == hs[i]
  {
    var p := hs[..|hs| - 1];
    if i < |hs| - 1 {
      forall j | i < j < |p|
        ensures Lower(p[j].0) != Lower(p[i].0)
      {
        assert p[j] == hs[j];
      }
      TableOfLastWins(p, i);
      assert p[i] == hs[i];
    }
  }

  // ---------------------------------------------------------------------------
  // `_fix_key`
  // ---------------------------------------------------------------------------

  /**
   * `canonical, _ = _HEADERS_LOWER.get(s.lower(), (None, None))` followed by
   * `if canonical:`: the key is present and its canonical name is not empty.
   */
  predicate Hit(t: HeaderTable, s: string)
  {
    Lower(s) in t && t[Lower(s)].0 != ""
  }

  function Canonical(t: HeaderTable, s: string): string
    requires Lower(s) in t
  {
    t[Lower(s)].0
  }

  /** The spellings `_fix_key` tries, in order. */
  function Candidates(name: string): (cs: seq<string>)
    ensures |cs| == 4
  {
    [name, "Map" + name, name + "Hex", "Map" + name + "Hex"]
  }

  /** `_fix_key`: the canonical name of the first spelling the table knows. */
  function FixKey(t: HeaderTable, name: string): (r: Result<string, Error>)
    ensures r.Failure? ==> r.error == UnknownTextureName(name)
    ensures r.Success? ==> r.value != "" && exists k :: k in t && t[k].0 == r.value
  {
    if Hit(t, name) then Success(Canonical(t, name))
    else if Hit(t, "Map" + name) then Success(Canonical(t, "Map" + name))
    else if Hit(t, name + "Hex") then Success(Canonical(t, name + "Hex"))
    else if Hit(t, "Map" + name + "Hex") then Success(Canonical(t, "Map" + name + "Hex"))
    else Failure(UnknownTextureName(name))
  }

  /** Reference: the canonical name of the first of `cs` that hits, if any. */
  function FirstHit(t: HeaderTable, cs: seq<string>): Option<string>
  {
    if cs == [] then None
    else if Hit(t, cs[0]) then Some(Canonical(t, cs[0]))
    else FirstHit(t, cs[1..])
  }

  /** No hit at all exactly when no spelling hits. */
  lemma {:induction false} FirstHitNone(t: HeaderTable, cs: seq<string>)
    ensures FirstHit(t, cs).None? <==> forall k :: 0 <= k < |cs| ==> !Hit(t, cs[k])
  {
    if cs != [] {
      FirstHitNone(t, cs[1..]);
      assert forall k :: 1 <= k < |cs| ==> cs[k] == cs[1..][k - 1];
    }
  }

  /** The hit is the canonical name of the first spelling that hits. */
  lemma {:induction false} FirstHitAt(t: HeaderTable, cs: seq<string>, k: nat)
    requires k < |cs| && Hit(t, cs[k])
    requires forall j :: 0 <= j < k ==> !Hit(t, cs[j])
    ensures FirstHit(t, cs) == Some(Canonical(t, cs[k]))
  {
    if k > 0 {
      assert forall j :: 0 <= j < k - 1 ==> cs[1..][j] == cs[j + 1];
      FirstHitAt(t, cs[1..], k - 1);
    }
  }

  /** `_fix_key` is the first hit among its four spellings, and raises when there is none. */
  lemma FixKeyIsFirstHit(t: HeaderTable, name: string)
    ensures FixKey(t, name) == match FirstHit(t, Candidates(name))
                                 case Some(c) => Success(c)
                                 case None => Failure(UnknownTextureName(name))
  {
    var cs := Candidates(name);
    FirstHitNone(t, cs);
    if Hit(t, cs[0]) {
      FirstHitAt(t, cs, 0);
    } else if Hit(t, cs[1]) {
      FirstHitAt(t, cs, 1);
    } else if Hit(t, cs[2]) {
      FirstHitAt(t, cs, 2);
    } else if Hit(t, cs[3]) {
      FirstHitAt(t, cs, 3);
    }
  }

  /** Names that differ only in letter case resolve alike. */
  lemma FixKeyCaseInsensitive(t: HeaderTable, a: string, b: string)
    requires Lower(a) == Lower(b)
    ensures FixKey(t, a).Success? <==> FixKey(t, b).Success?
    ensures FixKey(t, a).Success? ==> FixKey(t, a).value == FixKey(t, b).value
  {
    LowerAppend("Map", a);
    LowerAppend("Map", b);
    LowerAppend(a, "Hex");
    LowerAppend(b, "Hex");
    LowerAppend("Map" + a, "Hex");
    LowerAppend("Map" + b, "Hex");
  }

  /** In a well-formed table a resolved name resolves to itself. */
  lemma FixKeyFixed(t: HeaderTable, name: string)
    requires WellFormed(t) && FixKey(t, name).Success?
    ensures FixKey(t, FixKey(t, name).value) == FixKey(t, name)
  {
    var c := FixKey(t, name).value;
    var k :| k in t && t[k].0 == c;
    assert Lower(c) == k;
  }

  // ---------------------------------------------------------------------------
  // `_get_header`, `_gen_uasset`
  // ---------------------------------------------------------------------------

  /** `_get_header`: the table entry for `name`, case-insensitively. */
  function GetHeader(t: HeaderTable, name: string): (r: Result<(string, seq<byte>), Error>)
    ensures r.Success? <==> Lower(name) in t
    ensures r.Failure? ==> r.error == UnknownTextureName(name)
    ensures r.Success? && WellFormed(t) ==> Lower(r.value.0) == Lower(name)
  {
    if Lower(name) in t then Success(t[Lower(name)]) else Failure(UnknownTextureName(name))
  }

  const UASSET_DIR: string := "War\\Content\\Textures\\UI\\HexMaps\\Processed\\"
  const UASSET_EXT: string := ".uasset"

  /** The 28 bytes `_gen_uasset` puts after every texture. */
  const UASSET_FOOTER: seq<byte> :=
    [0x00, 0x08, 0x00, 0x00, 0xf0, 0x06, 0x00, 0x00, 0x01, 0x00, 0x00, 0x00, 0x00, 0x00,
     0x00, 0x00, 0x0f, 0x00, 0x00, 0x00, 0x00, 0x00, 0x00, 0x00, 0xc1, 0x83, 0x2a, 0x9e]

  /** Where the `.uasset` of the texture `canonical` goes in the archive. */
  function UassetPath(canonical: string): string
  {
    UASSET_DIR + canonical + UASSET_EXT
  }

  /** `_gen_uasset`: the archive path and the bytes (header, texture, footer) of a texture. */
  function GenUasset(t: HeaderTable, name: string, texture: seq<byte>): (r: Result<(string, seq<byte>), Error>)
    ensures r.Success? <==> Lower(name) in t
    ensures r.Failure? ==> r.error == UnknownTextureName(name)
  {
    match GetHeader(t, name)
    case Failure(e) => Failure(e)
    case Success((canonical, header)) => Success((UassetPath(canonical), header + texture + UASSET_FOOTER))
  }

  /**
   * Reading a `.uasset` back: the path gives the canonical name between the
   * directory and the extension, and the bytes give the header, the texture
   * and the fixed footer in turn.
   */
  lemma GenUassetLayout(t: HeaderTable, name: string, texture: seq<byte>)
    requires Lower(name) in t
    ensures var (canonical, header) := t[Lower(name)];
            var (p, b) := GenUasset(t, name, texture).value;
            |p| == |UASSET_DIR| + |canonical| + |UASSET_EXT|
            && p[..|UASSET_DIR|] == UASSET_DIR
            && p[|UASSET_DIR|..|p| - |UASSET_EXT|] == canonical
            && p[|p| - |UASSET_EXT|..] == UASSET_EXT
            && |b| == |header| + |texture| + 28
            && b[..|header|] == header
            && b[|header|..|header| + |texture|] == texture
            && b[|b| - 28..] == UASSET_FOOTER
  {
    var (canonical, header) := t[Lower(name)];
    var (p, b) := GenUasset(t, name, texture).value;
    assert p == UASSET_DIR + canonical + UASSET_EXT;
    assert b == header + texture + UASSET_FOOTER;
  }

  /** Different textures go to different paths. */
  lemma UassetPathInjective(a: string, b: string)
    requires UassetPath(a) == UassetPath(b)
    ensures a == b
  {
    var p := UassetPath(a);
    assert a == p[|UASSET_DIR|..|p| - |UASSET_EXT|];
    assert b == UassetPath(b)[|UASSET_DIR|..|p| - |UASSET_EXT|];
  }

  /** In a well-formed table, `_gen_uasset` succeeds on every name `_fix_key` returns. */
  lemma GenUassetAfterFixKey(t: HeaderTable, name: string, texture: seq<byte>)
    requires WellFormed(t) && FixKey(t, name).Success?
    ensures var c := FixKey(t, name).value;
            GenUasset(t, c, texture).Success? && GenUasset(t, c, texture).value.0 == UassetPath(c)
  {
    var c := FixKey(t, name).value;
    var k :| k in t && t[k].0 == c;
    assert Lower(c) == k;
  }

  // ---------------------------------------------------------------------------
  // Dicts built item by item
  // ---------------------------------------------------------------------------

  predicate HasKey(d: Files, k: string)
  {
    exists i :: 0 <= i < |d| && d[i].0 == k
  }

  /**
   * `d[k] = v` on a dict: a key already present keeps its place and takes the
   * new value; a new key goes last.
   */
  function Put(d: Files, k: string, v: seq<byte>): (r: Files)
    ensures |r| >= 1
  {
    if d == [] then [(k, v)]
    else if d[0].0 == k then [(k, v)] + d[1..]
    else [d[0]] + Put(d[1..], k, v)
  }

  lemma HasKeyTail(d: Files, k: string)
    requires d != [] && d[0].0 != k
    ensures HasKey(d, k) <==> HasKey(d[1..], k)
  {
    if HasKey(d, k) {
      var i :| 0 <= i < |d| && d[i].0 == k;
      assert d[1..][i - 1] == d[i];
    }
    if HasKey(d[1..], k) {
      var i :| 0 <= i < |d[1..]| && d[1..][i].0 == k;
      assert d[i + 1] == d[1..][i];
    }
  }

  /** A new key is appended. */
  lemma {:induction false} PutNew(d: Files, k: string, v: seq<byte>)
    requires !HasKey(d, k)
    ensures Put(d, k, v) == d + [(k, v)]
  {
    if d != [] {
      assert d[0].0 != k;
      HasKeyTail(d, k);
      PutNew(d[1..], k, v);
      assert d == [d[0]] + d[1..];
    }
  }

  /** A present key takes the new value in its place; nothing else changes. */
  lemma {:induction false} PutReplaces(d: Files, k: string, v: seq<byte>)
    requires DistinctKeys(d) && HasKey(d, k)
    ensures |Put(d, k, v)| == |d|
    ensures forall i :: 0 <= i < |d| ==> Put(d, k, v)[i] == if d[i].0 == k then (k, v) else d[i]
  {
    if d[0].0 != k {
      HasKeyTail(d, k);
      DistinctTail(d);
      PutReplaces(d[1..], k, v);
      assert forall i :: 1 <= i < |d| ==> d[1..][i - 1] == d[i];
    }
  }

  /** Every key after `d[k] = v` is `k` or a key of `d`. */
  lemma {:induction false} PutKeys(d: Files, k: string, v: seq<byte>)
    ensures forall j :: 0 <= j < |Put(d, k, v)| ==> Put(d, k, v)[j].0 == k || HasKey(d, Put(d, k, v)[j].0)
  {
    var r := Put(d, k, v);
    if d != [] && d[0].0 != k {
      PutKeys(d[1..], k, v);
      forall j | 0 <= j < |r| && r[j].0 != k
        ensures HasKey(d, r[j].0)
      {
        if j > 0 {
          var x := r[j].0;
          assert x == Put(d[1..], k, v)[j - 1].0;
          var i :| 0 <= i < |d[1..]| && d[1..][i].0 == x;
          assert d[i + 1].0 == x;
        } else {
          assert d[0].0 == r[j].0;
        }
      }
    } else if d != [] {
      forall j | 0 <= j < |r| && r[j].0 != k
        ensures HasKey(d, r[j].0)
      {
        assert d[j].0 == r[j].0;
      }
    }
  }

  /** `d[k] = v` keeps the keys of a dict distinct, and `k` is then a key. */
  lemma PutDistinct(d: Files, k: string, v: seq<byte>)
    requires DistinctKeys(d)
    ensures DistinctKeys(Put(d, k, v)) && HasKey(Put(d, k, v), k)
  {
    var r := Put(d, k, v);
    if HasKey(d, k) {
      PutReplaces(d, k, v);
      var i :| 0 <= i < |d| && d[i].0 == k;
      assert r[i].0 == k;
      assert forall i :: 0 <= i < |d| ==> r[i].0 == d[i].0;
    } else {
      PutNew(d, k, v);
      assert r[|d|].0 == k;
    }
  }

  // ---------------------------------------------------------------------------
  // Filling a dict item by item until the first error
  // ---------------------------------------------------------------------------

  /** One item's effect on the dict being built, or the error it raises. */
  type Step = (Files, (string, seq<byte>)) -> Result<Files, Error>

  /** The items `ms` applied in order; the first error stops the build. */
  function Fold(step: Step, ms: Files): Result<Files, Error>
  {
    if ms == [] then Success([])
    else
      match Fold(step, ms[..|ms| - 1])
      case Failure(e) => Failure(e)
      case Success(d) => step(d, ms[|ms| - 1])
  }

  lemma FoldStep(step: Step, ms: Files, i: nat)
    requires i < |ms|
    ensures Fold(step, ms[..i + 1]) == match Fold(step, ms[..i])
                                       case Failure(e) => Failure(e)
                                       case Success(d) => step(d, ms[i])
  {
    assert ms[..i + 1][..i] == ms[..i];
  }

  /** Once an error is raised, later items change nothing. */
  lemma {:induction false} FoldFailurePersists(step: Step, ms: Files, i: nat)
    requires i <= |ms| && Fold(step, ms[..i]).Failure?
    ensures Fold(step, ms) == Fold(step, ms[..i])
  {
    if i < |ms| {
      var p := ms[..|ms| - 1];
      assert p[..i] == ms[..i];
      FoldFailurePersists(step, p, i);
    } else {
      assert ms[..i] == ms;
    }
  }

  /** When whether an item raises does not depend on the dict, the build succeeds exactly when no item raises. */
  lemma {:induction false} FoldSucceeds(step: Step, ms: Files)
    requires forall d, m :: step(d, m).Success? == step([], m).Success?
    ensures Fold(step, ms).Success? <==> forall i :: 0 <= i < |ms| ==> step([], ms[i]).Success?
  {
    if ms != [] {
      var p := ms[..|ms| - 1];
      FoldSucceeds(step, p);
      assert forall i :: 0 <= i < |p| ==> p[i] == ms[i];
    }
  }

  /** The error raised is the one of the first item that raises. */
  lemma FoldFirstFailure(step: Step, ms: Files, i: nat)
    requires forall d, m :: step(d, m).Success? == step([], m).Success?
    requires forall d, m :: step(d, m).Failure? ==> step(d, m) == step([], m)
    requires i < |ms| && step([], ms[i]).Failure?
    requires forall j :: 0 <= j < i ==> step([], ms[j]).Success?
    ensures Fold(step, ms) == step([], ms[i])
  {
    FoldSucceeds(step, ms[..i]);
    FoldStep(step, ms, i);
    FoldFailurePersists(step, ms, i + 1);
  }

  /** A step that keeps the keys distinct keeps them distinct over the whole build. */
  lemma {:induction false} FoldDistinct(step: Step, ms: Files)
    requires forall d, m :: DistinctKeys(d) && step(d, m).Success? ==> DistinctKeys(step(d, m).value)
    ensures Fold(step, ms).Success? ==> DistinctKeys(Fold(step, ms).value)
  {
    if ms != [] {
      FoldDistinct(step, ms[..|ms| - 1]);
    }
  }

  // ---------------------------------------------------------------------------
  // `pak_textures_bc7`
  // ---------------------------------------------------------------------------

  /** The only length a BC7 texture may have. */
  const TEXTURE_SIZE: nat := 3637248

  /** The world-map background, added after the textures. */
  const BG_PATH: string := "War\\Content\\Textures\\UI\\WorldMap\\WorldMapBG.uasset"

  /** `{_fix_key(k): v ...}`, one item at a time. */
  function FixStep(t: HeaderTable): (step: Step)
    ensures forall d, m :: step(d, m) == if FixKey(t, m.0).Failure? then Failure(FixKey(t, m.0).error)
                                         else Success(Put(d, FixKey(t, m.0).value, m.1))
  {
    (d: Files, m: (string, seq<byte>)) =>
      if FixKey(t, m.0).Failure? then Failure(FixKey(t, m.0).error)
      else Success(Put(d, FixKey(t, m.0).value, m.1))
  }

  /**
   * One item of `{_fix_key(k): v ...}`: it raises exactly when the name does
   * not resolve, with that name's error; otherwise the texture is stored
   * under the canonical name, the keys stay distinct and no other key appears.
   */
  lemma FixStepItem(t: HeaderTable, d: Files, m: (string, seq<byte>))
    ensures FixStep(t)(d, m).Success? <==> FixKey(t, m.0).Success?
    ensures FixStep(t)(d, m).Failure? ==> FixStep(t)(d, m).error == UnknownTextureName(m.0)
    ensures FixStep(t)(d, m).Success? && DistinctKeys(d) ==>
              DistinctKeys(FixStep(t)(d, m).value) && HasKey(FixStep(t)(d, m).value, FixKey(t, m.0).value)
    ensures FixStep(t)(d, m).Success? ==>
              forall j :: 0 <= j < |FixStep(t)(d, m).value| ==>
                FixStep(t)(d, m).value[j].0 == FixKey(t, m.0).value || HasKey(d, FixStep(t)(d, m).value[j].0)
  {
    if FixKey(t, m.0).Success? {
      var k := FixKey(t, m.0).value;
      PutKeys(d, k, m.1);
      if DistinctKeys(d) {
        PutDistinct(d, k, m.1);
      }
    }
  }

  /** `fixed_mappings`: the textures under their canonical names. */
  function FixKeys(t: HeaderTable, mappings: Files): Result<Files, Error>
  {
    Fold(FixStep(t), mappings)
  }

  /**
   * `fixed_mappings` is built exactly when every name resolves, has distinct
   * keys, and otherwise raises for the first name that does not resolve.
   */
  lemma FixKeysResult(t: HeaderTable, mappings: Files)
    ensures FixKeys(t, mappings).Success? <==> forall i :: 0 <= i < |mappings| ==> FixKey(t, mappings[i].0).Success?
    ensures FixKeys(t, mappings).Success? ==> DistinctKeys(FixKeys(t, mappings).value)
  {
    FoldSucceeds(FixStep(t), mappings);
    forall d, m | DistinctKeys(d) && FixStep(t)(d, m).Success?
      ensures DistinctKeys(FixStep(t)(d, m).value)
    {
      FixStepItem(t, d, m);
    }
    FoldDistinct(FixStep(t), mappings);
  }

  /** In a well-formed table, every name `fixed_mappings` holds is a key of the table, lower-cased. */
  lemma {:induction false} FixKeysKnown(t: HeaderTable, mappings: Files)
    requires WellFormed(t) && FixKeys(t, mappings).Success?
    ensures forall i :: 0 <= i < |FixKeys(t, mappings).value| ==> Lower(FixKeys(t, mappings).value[i].0) in t
  {
    if mappings != [] {
      var p := mappings[..|mappings| - 1];
      var m := mappings[|mappings| - 1];
      FixKeysKnown(t, p);
      var d := FixKeys(t, p).value;
      var c := FixKey(t, m.0).value;
      var k :| k in t && t[k].0 == c;
      assert Lower(c) in t;
      PutKeys(d, c, m.1);
      forall j | 0 <= j < |Put(d, c, m.1)|
        ensures Lower(Put(d, c, m.1)[j].0) in t
      {
        var x := Put(d, c, m.1)[j].0;
        if x != c {
          var i :| 0 <= i < |d| && d[i].0 == x;
        }
      }
    }
  }

  lemma FixKeysFirstFailure(t: HeaderTable, mappings: Files, i: nat)
    requires i < |mappings| && FixKey(t, mappings[i].0).Failure?
    requires forall j :: 0 <= j < i ==> FixKey(t, mappings[j].0).Success?
    ensures FixKeys(t, mappings) == Failure(UnknownTextureName(mappings[i].0))
  {
    FoldFirstFailure(FixStep(t), mappings, i);
  }

  /** The body of the texture loop: size check, `_gen_uasset`, `files[p] = b`. */
  function UassetStep(t: HeaderTable): (step: Step)
    ensures forall d, m :: step(d, m) == if |m.1| != TEXTURE_SIZE then Failure(InvalidTextureSize)
                                         else if GenUasset(t, m.0, m.1).Failure? then Failure(GenUasset(t, m.0, m.1).error)
                                         else Success(Put(d, GenUasset(t, m.0, m.1).value.0, GenUasset(t, m.0, m.1).value.1))
  {
    (d: Files, m: (string, seq<byte>)) =>
      if |m.1| != TEXTURE_SIZE then Failure(InvalidTextureSize)
      else if GenUasset(t, m.0, m.1).Failure? then Failure(GenUasset(t, m.0, m.1).error)
      else Success(Put(d, GenUasset(t, m.0, m.1).value.0, GenUasset(t, m.0, m.1).value.1))
  }

  /**
   * One round of the texture loop: a texture of the wrong size raises
   * `InvalidTextureSize` before its name is looked at, an unknown name raises
   * its error, and otherwise the `.uasset` is stored under the canonical
   * name's path, the keys staying distinct and no other key appearing.
   */
  lemma UassetStepItem(t: HeaderTable, d: Files, m: (string, seq<byte>))
    ensures UassetStep(t)(d, m).Success? <==> |m.1| == TEXTURE_SIZE && Lower(m.0) in t
    ensures |m.1| != TEXTURE_SIZE ==> UassetStep(t)(d, m) == Failure(InvalidTextureSize)
    ensures |m.1| == TEXTURE_SIZE && Lower(m.0) !in t ==> UassetStep(t)(d, m) == Failure(UnknownTextureName(m.0))
    ensures UassetStep(t)(d, m).Success? && DistinctKeys(d) ==>
              DistinctKeys(UassetStep(t)(d, m).value) && HasKey(UassetStep(t)(d, m).value, UassetPath(t[Lower(m.0)].0))
    ensures UassetStep(t)(d, m).Success? ==>
              forall j :: 0 <= j < |UassetStep(t)(d, m).value| ==>
                UassetStep(t)(d, m).value[j].0 == UassetPath(t[Lower(m.0)].0) || HasKey(d, UassetStep(t)(d, m).value[j].0)
  {
    if |m.1| == TEXTURE_SIZE && Lower(m.0) in t {
      var u := GenUasset(t, m.0, m.1).value;
      assert u.0 == UassetPath(t[Lower(m.0)].0);
      PutKeys(d, u.0, u.1);
      if DistinctKeys(d) {
        PutDistinct(d, u.0, u.1);
      }
    }
  }

  /**
   * The texture loop of `pak_textures_bc7`: each texture is checked for its
   * size and stored as a `.uasset`; the first error is raised.
   */
  method UassetFiles(t: HeaderTable, fixed: Files) returns (r: Result<Files, Error>)
    ensures r == Fold(UassetStep(t), fixed)
  {
    var files: Files := [];
    for i := 0 to |fixed|
      invariant Fold(UassetStep(t), fixed[..i]) == Success(files)
    {
      FoldStep(UassetStep(t), fixed, i);
      var (name, texture) := fixed[i];
      if |texture| != TEXTURE_SIZE {
        FoldFailurePersists(UassetStep(t), fixed, i + 1);
        return Failure(InvalidTextureSize);
      }
      var u := GenUasset(t, name, texture);
      if u.Failure? {
        FoldFailurePersists(UassetStep(t), fixed, i + 1);
        return Failure(u.error);
      }
      var (p, b) := u.value;
      files := Put(files, p, b);
    }
    assert fixed[..|fixed|] == fixed;
    return Success(files);
  }

  /**
   * The texture loop succeeds exactly when every texture has the BC7 size and
   * a known name; the paths it stores are distinct.
   */
  lemma UassetFilesResult(t: HeaderTable, fixed: Files)
    ensures Fold(UassetStep(t), fixed).Success? <==>
              forall i :: 0 <= i < |fixed| ==> |fixed[i].1| == TEXTURE_SIZE && Lower(fixed[i].0) in t
    ensures Fold(UassetStep(t), fixed).Success? ==> DistinctKeys(Fold(UassetStep(t), fixed).value)
  {
    FoldSucceeds(UassetStep(t), fixed);
    forall d, m | DistinctKeys(d) && UassetStep(t)(d, m).Success?
      ensures DistinctKeys(UassetStep(t)(d, m).value)
    {
      UassetStepItem(t, d, m);
    }
    FoldDistinct(UassetStep(t), fixed);
  }

  /** A texture of the wrong size, with every texture before it fine, raises `InvalidTextureSize`. */
  lemma UassetFilesFirstFailure(t: HeaderTable, fixed: Files, i: nat)
    requires i < |fixed| && |fixed[i].1| != TEXTURE_SIZE
    requires forall j :: 0 <= j < i ==> |fixed[j].1| == TEXTURE_SIZE && Lower(fixed[j].0) in t
    ensures Fold(UassetStep(t), fixed) == Failure(InvalidTextureSize)
  {
    FoldFirstFailure(UassetStep(t), fixed, i);
  }

  /** The files dict of `pak_textures_bc7`: the textures' `.uasset`s, then the background. */
  function TextureFiles(t: HeaderTable, mappings: Files, bg: seq<byte>): Result<Files, Error>
  {
    match FixKeys(t, mappings)
    case Failure(e) => Failure(e)
    case Success(fixed) =>
      match Fold(UassetStep(t), fixed)
      case Failure(e) => Failure(e)
      case Success(files) => Success(Put(files, BG_PATH, bg))
  }

  /** The background is not one of the textures' paths. */
  lemma BgPathNotUasset(c: string)
    ensures BG_PATH != UassetPath(c)
  {
    assert BG_PATH[24] == 'W';
    assert UassetPath(c)[24] == 'H';
  }

  /**
   * In a well-formed table the build of the files dict fails only on a name
   * that does not resolve or on a texture of the wrong size.
   */
  lemma TextureFilesSucceeds(t: HeaderTable, mappings: Files, bg: seq<byte>)
    requires WellFormed(t)
    ensures TextureFiles(t, mappings, bg).Success? <==>
              FixKeys(t, mappings).Success?
              && forall i :: 0 <= i < |FixKeys(t, mappings).value| ==> |FixKeys(t, mappings).value[i].1| == TEXTURE_SIZE
  {
    if FixKeys(t, mappings).Success? {
      FixKeysKnown(t, mappings);
      UassetFilesResult(t, FixKeys(t, mappings).value);
    }
  }

  /** `d[k] = v` adds no key other than `k`. */
  lemma {:induction false} PutKeeps(d: Files, k: string, v: seq<byte>, x: string)
    requires !HasKey(d, x) && x != k
    ensures !HasKey(Put(d, k, v), x)
  {
    if d != [] && d[0].0 != k {
      HasKeyTail(d, x);
      PutKeeps(d[1..], k, v, x);
      HasKeyTail(Put(d, k, v), x);
    } else if d != [] {
      HasKeyTail(d, x);
      HasKeyTail(Put(d, k, v), x);
    }
  }

  /** The texture loop never stores anything at the background's path. */
  lemma {:induction false} UassetFilesNoBg(t: HeaderTable, fixed: Files)
    requires Fold(UassetStep(t), fixed).Success?
    ensures !HasKey(Fold(UassetStep(t), fixed).value, BG_PATH)
  {
    if fixed != [] {
      var p := fixed[..|fixed| - 1];
      var m := fixed[|fixed| - 1];
      UassetFilesNoBg(t, p);
      var u := GenUasset(t, m.0, m.1).value;
      BgPathNotUasset(t[Lower(m.0)].0);
      PutKeeps(Fold(UassetStep(t), p).value, u.0, u.1, BG_PATH);
    }
  }

  /**
   * The dict handed to `pak` has distinct paths: the textures' `.uasset`s,
   * then the background, appended after them and replacing none of them.
   */
  lemma TextureFilesShape(t: HeaderTable, mappings: Files, bg: seq<byte>)
    requires TextureFiles(t, mappings, bg).Success?
    ensures var uassets := Fold(UassetStep(t), FixKeys(t, mappings).value);
            uassets.Success? && TextureFiles(t, mappings, bg).value == uassets.value + [(BG_PATH, bg)]
    ensures DistinctKeys(TextureFiles(t, mappings, bg).value)
  {
    var fixed := FixKeys(t, mappings).value;
    var uassets := Fold(UassetStep(t), fixed).value;
    UassetFilesResult(t, fixed);
    UassetFilesNoBg(t, fixed);
    PutNew(uassets, BG_PATH, bg);
    PutDistinct(uassets, BG_PATH, bg);
  }

  /**
   * `pak_textures_bc7`: the textures resolved by name, checked and turned into
   * `.uasset`s, the background added, and the lot packed by `pak`.
   */
  method PakTexturesBc7(output: string, compress: bool, mappings: Files, t: HeaderTable, bg: seq<byte>,
                        prim: Primitives, sep: char) returns (r: Result<(string, Stream), Error>)
    requires TextureFiles(t, mappings, bg).Success? ==>
               ArchiveFits(prim, sep, SortByKey(TextureFiles(t, mappings, bg).value), compress)
    ensures TextureFiles(t, mappings, bg).Failure? ==> r == Failure(TextureFiles(t, mappings, bg).error)
    ensures TextureFiles(t, mappings, bg).Success? ==>
              r.Success? && r.value.0 == OutputName(output)
              && r.value.1.data == ArchiveBytes(prim, sep, SortByKey(TextureFiles(t, mappings, bg).value), compress)
  {
    var fixed := FixKeys(t, mappings);
    if fixed.Failure? {
      return Failure(fixed.error);
    }
    var uassets := UassetFiles(t, fixed.value);
    if uassets.Failure? {
      return Failure(uassets.error);
    }
    var files := Put(uassets.value, BG_PATH, bg);
    var name, s := Pak(output, files, compress, prim, sep);
    return Success((name, s));
  }
}
