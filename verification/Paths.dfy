/** File names, relative paths and temporary paths (src/fs.c, src/http.c), on POSIX. */
module Paths {
  import opened Bytes

  const DOT: byte := 0x2E
  const PERCENT: byte := 0x25
  /** ".tmp." */
  const TEMP_INFIX: Text := [0x2E, 0x74, 0x6D, 0x70, 0x2E]
  /** The `char[4096]` path buffers, one byte of which is the terminator. */
  const PATH_CAP: nat := 4096
  /** `HF_HTTP_PATH_MAX`, the size of the buffers for relative paths. */
  const HTTP_PATH_MAX: nat := 1024

  // ---------------------------------------------------------------- validation

  /** Two dots in a row, anywhere. */
  predicate HasDotDot(s: Text) {
    exists k | 0 <= k < |s| - 1 :: s[k] == DOT && s[k + 1] == DOT
  }

  /** `fs_validate_file_name`. */
  predicate ValidFileName(name: Text) {
    name != [] && SLASH !in name && BACKSLASH !in name && !HasDotDot(name)
  }

  /** `fs_basename_from_path`: what follows the last slash. */
  function Basename(path: Text): (r: Text)
    ensures SLASH !in r && |r| <= |path| && path[|path| - |r|..] == r
    ensures |r| < |path| ==> path[|path| - |r| - 1] == SLASH
    decreases |path|
  {
    var n := IndexOf(path, SLASH);
    if n == |path| then path else Basename(path[n + 1..])
  }

  /** The parts of a path between its slashes; a text with n slashes has n + 1 segments. */
  function Segments(path: Text): (r: seq<Text>)
    ensures r != []
    decreases |path|
  {
    var n := IndexOf(path, SLASH);
    if n == |path| then [path] else [path[..n]] + Segments(path[n + 1..])
  }

  predicate GoodSegment(s: Text) {
    s != [] && s != [DOT] && s != [DOT, DOT]
  }

  /** All segments are good, except that one trailing slash is let through. */
  predicate GoodSegments(ss: seq<Text>)
    requires ss != []
  {
    && (forall k | 0 <= k < |ss| - 1 :: GoodSegment(ss[k]))
    && (ss[|ss| - 1] == [] || GoodSegment(ss[|ss| - 1]))
  }

  /** What `fs_validate_relative_path` accepts. */
  predicate ValidRelativePath(path: Text) {
    path != [] && BACKSLASH !in path && GoodSegments(Segments(path))
  }

  lemma {:induction false} GoodSegmentsCons(first: Text, rest: seq<Text>)
    requires rest != []
    ensures GoodSegments([first] + rest) <==> GoodSegment(first) && GoodSegments(rest)
  {
    var ss := [first] + rest;
    assert ss[1..] == rest;
    if GoodSegments(ss) {
      assert GoodSegment(ss[0]);
      assert forall k | 0 <= k < |rest| - 1 :: rest[k] == ss[k + 1] && GoodSegment(ss[k + 1]);
    }
  }

  lemma {:induction false} FirstSegment(path: Text)
    requires path != []
    ensures var n := IndexOf(path, SLASH);
      GoodSegments(Segments(path)) <==>
        GoodSegment(path[..n]) && (n == |path| || GoodSegments(Segments(path[n + 1..])))
  {
    var n := IndexOf(path, SLASH);
    if n < |path| {
      GoodSegmentsCons(path[..n], Segments(path[n + 1..]));
    } else {
      assert path[..n] == path;
    }
  }

  /** `fs_validate_relative_path`: the segment loop. */
  method ValidateRelativePath(path: Text) returns (ok: bool)
    ensures ok <==> ValidRelativePath(path)
  {
    hide GoodSegments, Segments, GoodSegment, IndexOf;
    if path == [] {
      return false;
    }
    if path[0] == SLASH {
      LeadingSlash(path);
      return false;
    }
    if BACKSLASH in path {
      return false;
    }
    var segment := 0;
    assert path[segment..] == path;
    while segment < |path|
      invariant segment <= |path|
      invariant GoodSegments(Segments(path)) <==> GoodSegments(Segments(path[segment..]))
      decreases |path| - segment
    {
      var rest := path[segment..];
      var len := IndexOf(rest, SLASH);
      FirstSegment(rest);
      GoodSegmentIs(rest, len);
      if len == 0 || (len == 1 && rest[0] == DOT) || (len == 2 && rest[0] == DOT && rest[1] == DOT) {
        return false;
      }
      if len == |rest| {
        return true;
      }
      assert rest[len + 1..] == path[segment + len + 1..];
      segment := segment + len + 1;
    }
    assert path[segment..] == [];
    EmptyPathSegments();
    ok := true;
  }

  lemma {:induction false} LeadingSlash(path: Text)
    requires path != [] && path[0] == SLASH
    ensures !ValidRelativePath(path)
  {
    hide GoodSegments, Segments;
    FirstSegment(path);
  }

  lemma {:induction false} GoodSegmentIs(rest: Text, len: nat)
    requires len <= |rest|
    ensures GoodSegment(rest[..len]) <==>
      !(len == 0 || (len == 1 && rest[0] == DOT) || (len == 2 && rest[0] == DOT && rest[1] == DOT))
  {
    if len == 1 && rest[0] == DOT {
      assert rest[..len] == [DOT];
    }
    if len == 2 && rest[0] == DOT && rest[1] == DOT {
      assert rest[..len] == [DOT, DOT];
    }
  }

  lemma {:induction false} EmptyPathSegments()
    ensures GoodSegments(Segments([]))
  {
  }

  /** The two checks of an upload agree on every name but ".", which only the first one accepts. */
  lemma {:induction false} FileNameIsRelativePath(name: Text)
    requires ValidFileName(name)
    ensures ValidRelativePath(name) <==> name != [DOT]
  {
    assert IndexOf(name, SLASH) == |name|;
    FirstSegment(name);
    assert name[..|name|] == name;
    assert |name| >= 2 ==> !(name[0] == DOT && name[1] == DOT);
  }

  // ---------------------------------------------------------------- joining

  /** `fs_join_path` with room for cap bytes. */
  function JoinPath(cap: nat, dir: Text, file: Text): (r: Option<Text>)
    ensures r.Some? ==> |r.value| < cap
  {
    var out := if dir != [] && dir[|dir| - 1] == SLASH then dir + file else dir + [SLASH] + file;
    if |out| >= cap then None else Some(out)
  }

  /** `fs_join_relative_path`: an empty relative path names the base itself. */
  function JoinRelativePath(cap: nat, base: Text, path: Text): (r: Option<Text>)
    ensures r.Some? ==> |r.value| < cap
  {
    if path == [] then (if |base| >= cap then None else Some(base))
    else if !ValidRelativePath(path) then None
    else JoinPath(cap, base, path)
  }

  /** `http_build_relative_child_path`: the path the listing shows for an entry. */
  function ChildPath(cap: nat, dir: Text, name: Text): Option<Text> {
    var out := if dir == [] then name else dir + [SLASH] + name;
    if |out| >= cap then None else Some(out)
  }

  /** A directory entry other than "." and "..". A backslash is a letter like any other in it. */
  predicate EntryName(name: Text) {
    GoodSegment(name) && SLASH !in name && NUL !in name
  }

  lemma {:induction false} SegmentsOfChild(dir: Text, name: Text)
    requires SLASH !in name
    ensures Segments(dir + [SLASH] + name) == Segments(dir) + [name]
    decreases |dir|
  {
    hide IndexOf, Segments;
    var path := dir + [SLASH] + name;
    var n := IndexOf(dir, SLASH);
    assert path[..n] == dir[..n];
    FirstSlash(path, n);
    if n == |dir| {
      assert dir[..n] == dir && path[n + 1..] == name;
      OneSegment(name);
      OneSegment(dir);
    } else {
      var rest := dir[n + 1..];
      assert path[n + 1..] == rest + [SLASH] + name;
      FirstSlash(dir, n);
      SegmentsOfChild(rest, name);
      assert [dir[..n]] + (Segments(rest) + [name]) == [dir[..n]] + Segments(rest) + [name];
    }
  }

  lemma {:induction false} FirstSlash(path: Text, n: nat)
    requires n < |path| && path[n] == SLASH && SLASH !in path[..n]
    ensures Segments(path) == [path[..n]] + Segments(path[n + 1..])
  {
    hide IndexOf;
    assert forall k | 0 <= k < n :: path[k] == path[..n][k];
    IndexOfIs(path, SLASH, n);
  }

  lemma {:induction false} OneSegment(s: Text)
    requires SLASH !in s
    ensures Segments(s) == [s]
  {
    hide IndexOf;
  }

  /** A path ends in a slash exactly when its last segment is empty. */
  lemma {:induction false} TrailingSlash(path: Text)
    requires path != []
    ensures path[|path| - 1] == SLASH <==> Segments(path)[|Segments(path)| - 1] == []
    decreases |path|
  {
    var n := IndexOf(path, SLASH);
    if n < |path| {
      var rest := path[n + 1..];
      assert Segments(path) == [path[..n]] + Segments(rest);
      if rest != [] {
        TrailingSlash(rest);
      }
    }
  }

  lemma {:induction false} ChildIsValid(dir: Text, name: Text)
    requires ValidRelativePath(dir) && EntryName(name)
    ensures ValidRelativePath(dir + [SLASH] + name) <==> BACKSLASH !in name && dir[|dir| - 1] != SLASH
  {
    hide Segments;
    SegmentsOfChild(dir, name);
    TrailingSlash(dir);
    var ss := Segments(dir);
    var all := ss + [name];
    if dir[|dir| - 1] == SLASH {
      assert !GoodSegment(all[|ss| - 1]);
    } else {
      assert forall k | 0 <= k < |ss| :: all[k] == ss[k];
    }
  }

  /** Where walking the segments from some directory leads; None when ".." climbs above it. */
  function Walk(ss: seq<Text>, at: seq<Text>): Option<seq<Text>> {
    if ss == [] then Some(at)
    else if ss[0] == [] || ss[0] == [DOT] then Walk(ss[1..], at)
    else if ss[0] == [DOT, DOT] then (if at == [] then None else Walk(ss[1..], at[..|at| - 1]))
    else Walk(ss[1..], at + [ss[0]])
  }

  /** An accepted path never climbs: each of its segments leads one level further down. */
  lemma {:induction false} ValidPathStaysBelow(path: Text)
    requires ValidRelativePath(path)
    ensures var ss := Segments(path);
      Walk(ss, []) == Some(if ss[|ss| - 1] == [] then ss[..|ss| - 1] else ss)
  {
    hide Segments, Walk, GoodSegments;
    var ss := Segments(path);
    WalkGoodSegments(ss, []);
    var below := if ss[|ss| - 1] == [] then ss[..|ss| - 1] else ss;
    assert [] + below == below;
  }

  lemma {:induction false} WalkGoodSegments(ss: seq<Text>, at: seq<Text>)
    requires ss != [] && GoodSegments(ss)
    ensures Walk(ss, at) == Some(at + if ss[|ss| - 1] == [] then ss[..|ss| - 1] else ss)
  {
    if |ss| == 1 {
      assert ss == [ss[0]] && ss[..0] == [];
      assert at + [] == at;
      assert forall x: seq<Text> :: Walk([], x) == Some(x);
    } else {
      assert GoodSegment(ss[0]);
      assert forall k | 0 <= k < |ss[1..]| - 1 :: ss[1..][k] == ss[k + 1];
      WalkGoodSegments(ss[1..], at + [ss[0]]);
      var rest := ss[1..];
      assert at + [ss[0]] + rest == at + ss;
      assert at + [ss[0]] + rest[..|rest| - 1] == at + ss[..|ss| - 1];
    }
  }

  // ---------------------------------------------------------------- percent-encoding

  /** RFC 3986 section 2.1: the bytes t stands for, or None when a "%" lacks its two hex digits. */
  function PercentDecode(t: Text): Option<Text> {
    if t == [] then
      Some([])
    else if t[0] != PERCENT then
      match PercentDecode(t[1..])
      case None => None
      case Some(rest) => Some([t[0]] + rest)
    else if |t| < 3 || !IsHex(t[1]) || !IsHex(t[2]) then
      None
    else
      match PercentDecode(t[3..])
      case None => None
      case Some(rest) => Some([(0x10 * HexValue(t[1]) + HexValue(t[2])) as byte] + rest)
  }

  /** How one byte is written: as it is, or as "%XX" with each digit in either case. */
  datatype Coding = Plain | Percent(upperHigh: bool, upperLow: bool)

  /** A percent-encoding of name: any choice of bytes may be escaped, "%" must be. */
  function PercentEncode(name: Text, how: seq<Coding>): Text
    requires |name| == |how|
    requires forall k | 0 <= k < |name| :: name[k] == PERCENT ==> how[k].Percent?
  {
    if name == [] then [] else EncodeByte(name[0], how[0]) + PercentEncode(name[1..], how[1..])
  }

  function EncodeByte(b: byte, how: Coding): Text {
    match how
    case Plain => [b]
    case Percent(h, l) => [PERCENT, HexDigit(b / 16, h), HexDigit(b % 16, l)]
  }

  /** `http_decode_name`: decodes into a buffer of cap bytes. */
  method DecodeName(encoded: Text, cap: nat) returns (ok: bool, out: Text)
    requires cap > 0
    ensures ok <==> PercentDecode(encoded).Some? && |PercentDecode(encoded).value| < cap
    ensures ok ==> PercentDecode(encoded) == Some(out)
  {
    out := [];
    var p := 0;
    assert encoded[p..] == encoded;
    assert forall t: Text :: [] + t == t;
    while p < |encoded|
      invariant p <= |encoded| && |out| < cap
      invariant PercentDecode(encoded) ==
        match PercentDecode(encoded[p..]) { case None => None case Some(rest) => Some(out + rest) }
      decreases |encoded| - p
    {
      ghost var rest, before := encoded[p..], out;
      var ch := encoded[p];
      p := p + 1;
      assert rest[1..] == encoded[p..];
      if |out| + 1 >= cap {
        return false, out;
      }
      if ch == PERCENT {
        if !IsHex(At(encoded, p)) || !IsHex(At(encoded, p + 1)) {
          return false, out;
        }
        assert rest[3..] == encoded[p + 2..];
        out := out + [(0x10 * HexValue(encoded[p]) + HexValue(encoded[p + 1])) as byte];
        p := p + 2;
      } else {
        out := out + [ch];
      }
      assert forall tail: Text :: before + ([out[|out| - 1]] + tail) == out + tail;
    }
    assert encoded[p..] == [];
    assert out + [] == out;
    ok := true;
  }

  /** Decoding undoes every percent-encoding. */
  lemma {:induction false} DecodeEncode(name: Text, how: seq<Coding>)
    requires |name| == |how|
    requires forall k | 0 <= k < |name| :: name[k] == PERCENT ==> how[k].Percent?
    ensures PercentDecode(PercentEncode(name, how)) == Some(name)
  {
    if name != [] {
      DecodeEncode(name[1..], how[1..]);
      var t := PercentEncode(name, how);
      var rest := PercentEncode(name[1..], how[1..]);
      match how[0]
      case Plain =>
        assert t == [name[0]] + rest && t[1..] == rest;
        assert [name[0]] + name[1..] == name;
      case Percent(h, l) =>
        assert t[3..] == rest;
        assert [name[0]] + name[1..] == name;
    }
  }

  // ---------------------------------------------------------------- temporary paths

  /** "%d" of a non-negative number. */
  function Decimal(n: nat): (r: Text)
    ensures r != [] && forall b <- r :: 0x30 <= b <= 0x39
  {
    if n < 10 then [0x30 + n] else Decimal(n / 10) + [0x30 + n % 10]
  }

  /** The name `fs_build_temp_path` gives the file being written for finalPath. */
  function TempName(finalPath: Text, pid: nat, attempt: nat): Text {
    finalPath + TEMP_INFIX + Decimal(pid) + [DOT] + Decimal(attempt)
  }

  function BuildTempPath(cap: nat, finalPath: Text, pid: nat, attempt: nat): Option<Text> {
    var out := TempName(finalPath, pid, attempt);
    if |out| >= cap then None else Some(out)
  }

  /** Within one process, a temporary path belongs to one target and one attempt. */
  lemma {:induction false} TempNameInjective(a: Text, i: nat, b: Text, j: nat, pid: nat)
    requires i < 10 && j < 10
    requires TempName(a, pid, i) == TempName(b, pid, j)
    ensures a == b && i == j
  {
    var s, t := TempName(a, pid, i), TempName(b, pid, j);
    var m := TEMP_INFIX + Decimal(pid) + [DOT];
    assert s == a + m + Decimal(i) && t == b + m + Decimal(j);
    assert s[|s| - 1] == Decimal(i)[0] && t[|t| - 1] == Decimal(j)[0];
    assert |a| == |b|;
    assert a == s[..|a|] == t[..|b|] == b;
  }
}
