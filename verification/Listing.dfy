/**
 * From a directory listing to the download of a file it shows: the targets of
 * the two requests, as src/http.c takes them apart, and the paths they lead to.
 */
module Listing {
  import opened Bytes
  import opened Paths
  import opened PathLaws

  const QUESTION: byte := 0x3F
  const AMPERSAND: byte := 0x26
  const EQUALS: byte := 0x3D
  /** "/api/files" */
  const LIST_ROUTE: Text := [0x2F, 0x61, 0x70, 0x69, 0x2F, 0x66, 0x69, 0x6C, 0x65, 0x73]
  /** "/api/files/" */
  const FILE_ROUTE: Text := [0x2F, 0x61, 0x70, 0x69, 0x2F, 0x66, 0x69, 0x6C, 0x65, 0x73, 0x2F]
  /** "path" */
  const PATH_KEY: Text := [0x70, 0x61, 0x74, 0x68]

  // ---------------------------------------------------------------- requests

  /** A byte of a request's target: no space, no control character (picohttpparser's ADVANCE_TOKEN). */
  predicate TargetByte(b: byte) {
    b > SPACE && b != 0x7F
  }

  /** A target that a request can have and that `http_parse_request` has room for. */
  predicate Received(target: Text) {
    0 < |target| < HTTP_PATH_MAX && forall b <- target :: TargetByte(b)
  }

  function PathOf(target: Text): Text {
    target[..IndexOf(target, QUESTION)]
  }

  function QueryOf(target: Text): Text {
    var n := IndexOf(target, QUESTION);
    if n == |target| then [] else target[n + 1..]
  }

  /** `http_query_get_value`: the value of the first entry with this key. */
  function QueryValue(query: Text, key: Text): (r: Option<Text>)
    ensures r.Some? ==> |r.value| <= |query|
    decreases |query|
  {
    if query == [] then None
    else
      var n := IndexOf(query, AMPERSAND);
      var entry := query[..n];
      var e := IndexOf(entry, EQUALS);
      if entry[..e] == key then Some(if e < n then entry[e + 1..] else [])
      else if n == |query| then None
      else QueryValue(query[n + 1..], key)
  }

  /** What `http_decode_name` leaves, as the C string that is then used. */
  function Decoded(encoded: Text): Option<Text> {
    match PercentDecode(encoded)
    case None => None
    case Some(path) => if |path| < HTTP_PATH_MAX then Some(CString(path)) else None
  }

  /** The directory that a GET with this target lists, relative to the base; None when it is refused. */
  function DirAsked(target: Text): Option<Text> {
    if !Received(target) || PathOf(target) != LIST_ROUTE then None
    else
      match QueryValue(QueryOf(target), PATH_KEY)
      case None => Some([])
      case Some(encoded) =>
        match Decoded(encoded)
        case None => None
        case Some(dir) => if dir == [] || ValidRelativePath(dir) then Some(dir) else None
  }

  /** The path that a GET with this target opens; None when it is refused, or when no request has this target. */
  function FileAsked(base: Text, target: Text): Option<Text> {
    if !Received(target) || !(FILE_ROUTE <= PathOf(target)) then None
    else
      match Decoded(PathOf(target)[|FILE_ROUTE|..])
      case None => None
      case Some(path) => if ValidRelativePath(path) then JoinRelativePath(PATH_CAP, base, path) else None
  }

  /** A listing, asked for by this target, shows the entry `name`. */
  predicate Lists(base: Text, listing: Text, name: Text) {
    EntryName(name) && DirAsked(listing).Some? && Shows(base, DirAsked(listing).value, name)
  }

  predicate Shows(base: Text, dir: Text, name: Text) {
    && JoinRelativePath(PATH_CAP, base, dir).Some?
    && JoinPath(PATH_CAP, JoinRelativePath(PATH_CAP, base, dir).value, name).Some?
    && ChildPath(HTTP_PATH_MAX, dir, name).Some?
  }

  /** The path that is shown. */
  function Shown(base: Text, listing: Text, name: Text): Text
    requires Lists(base, listing, name)
  {
    ChildPath(HTTP_PATH_MAX, DirAsked(listing).value, name).value
  }

  /** The path that the listing examined for it. */
  function Examined(base: Text, listing: Text, name: Text): Text
    requires Lists(base, listing, name)
  {
    JoinPath(PATH_CAP, JoinRelativePath(PATH_CAP, base, DirAsked(listing).value).value, name).value
  }

  // ---------------------------------------------------------------- in bytes

  /** "/api/files", or it with a query, asks for a listing; "/api/files/" and more asks for a file. */
  lemma {:induction false} RoutesAre(base: Text, target: Text)
    ensures DirAsked(target).Some? ==>
      [0x2F, 0x61, 0x70, 0x69, 0x2F, 0x66, 0x69, 0x6C, 0x65, 0x73] <= target
      && (|target| == 10 || target[10] == 0x3F)
    ensures FileAsked(base, target).Some? ==>
      [0x2F, 0x61, 0x70, 0x69, 0x2F, 0x66, 0x69, 0x6C, 0x65, 0x73, 0x2F] <= target
  {
    hide IndexOf, QueryValue, Decoded, ValidRelativePath, JoinRelativePath;
    var n := IndexOf(target, QUESTION);
    assert target[..n] <= target;
  }

  /** Where no "path" is asked for, the base itself is listed. */
  lemma {:induction false} BaseIsListed(query: Text)
    requires !Contains(query, [0x70, 0x61, 0x74, 0x68])
    requires |query| < 1013 && forall b <- query :: 0x20 < b && b != 0x7F
    ensures var route := [0x2F, 0x61, 0x70, 0x69, 0x2F, 0x66, 0x69, 0x6C, 0x65, 0x73];
      DirAsked(route) == Some([]) && DirAsked(route + [0x3F] + query) == Some([])
  {
    hide Contains, IndexOf, QueryValue, Decoded;
    var t: Text := LIST_ROUTE + [QUESTION] + query;
    IndexOfIs(t, QUESTION, |LIST_ROUTE|);
    IndexOfIs(LIST_ROUTE, QUESTION, |LIST_ROUTE|);
    assert t[..|LIST_ROUTE|] == LIST_ROUTE && t[|LIST_ROUTE| + 1..] == query;
    assert LIST_ROUTE[..|LIST_ROUTE|] == LIST_ROUTE;
    KeyIsNeeded(query);
    NoQueryNoValue();
  }

  lemma {:induction false} NoQueryNoValue()
    ensures QueryValue([], PATH_KEY) == None
  {
  }

  lemma {:induction false} KeyIsNeeded(query: Text)
    ensures QueryValue(query, PATH_KEY).Some? ==> Contains(query, [0x70, 0x61, 0x74, 0x68])
    decreases |query|
  {
    hide Contains, IndexOf;
    if query != [] {
      var n := IndexOf(query, AMPERSAND);
      var entry := query[..n];
      var e := IndexOf(entry, EQUALS);
      if entry[..e] == PATH_KEY {
        FoundIn(query, 0, PATH_KEY);
      } else if n < |query| {
        KeyIsNeeded(query[n + 1..]);
        if Contains(query[n + 1..], PATH_KEY) {
          FoundLater(query, n + 1, PATH_KEY);
        }
      }
    }
  }

  lemma {:induction false} FoundIn(t: Text, k: nat, part: Text)
    requires k <= |t| && part <= t[k..]
    ensures Contains(t, part)
  {
    assert OccursAt(t, part, k);
  }

  lemma {:induction false} FoundLater(t: Text, n: nat, part: Text)
    requires n <= |t| && Contains(t[n..], part)
    ensures Contains(t, part)
  {
    var k: nat :| k <= |t[n..]| && OccursAt(t[n..], part, k);
    assert t[n..][k..] == t[n + k..];
    assert OccursAt(t, part, n + k);
  }

  /** What a listing shows for an entry, and what it examined. */
  lemma {:induction false} ShownAndExamined(base: Text, listing: Text, name: Text)
    requires Lists(base, listing, name)
    ensures var dir := DirAsked(listing).value;
      && Shown(base, listing, name) == (if dir == [] then name else dir + [0x2F] + name)
      && Examined(base, listing, name) == Extended(if dir == [] then base else Extended(base, dir), name)
  {
    hide DirAsked, ValidRelativePath;
    if DirAsked(listing).value != [] {
      JoinedIsBelow(base, DirAsked(listing).value);
    }
  }

  // ---------------------------------------------------------------- encodings

  predicate Encodes(how: seq<Coding>, name: Text) {
    |how| == |name| && forall k | 0 <= k < |name| :: name[k] == PERCENT ==> how[k].Percent?
  }

  function Target(path: Text, how: seq<Coding>): Text
    requires Encodes(how, path)
  {
    FILE_ROUTE + PercentEncode(path, how)
  }

  /** A byte that a target cannot hold as it is. */
  predicate MustEscape(b: byte) {
    b == PERCENT || b == QUESTION || !TargetByte(b)
  }

  /** How many bytes of an encoding are escaped. */
  function Percents(how: seq<Coding>): nat {
    if how == [] then 0 else (if how[0].Percent? then 1 else 0) + Percents(how[1..])
  }

  lemma {:induction false} EncodedLength(name: Text, how: seq<Coding>)
    requires Encodes(how, name)
    ensures |PercentEncode(name, how)| == |name| + 2 * Percents(how)
  {
    if name != [] {
      EncodedLength(name[1..], how[1..]);
    }
  }

  /** A text that can stand in a target as it is, and is no query. */
  predicate Sendable(t: Text) {
    forall b <- t :: TargetByte(b) && b != QUESTION
  }

  /** Every byte that must be escaped is. */
  predicate Careful(how: seq<Coding>, name: Text)
    requires |how| == |name|
  {
    forall k | 0 <= k < |name| :: MustEscape(name[k]) ==> how[k].Percent?
  }

  lemma {:induction false} SendableByte(b: byte, how: Coding)
    requires b == PERCENT ==> how.Percent?
    ensures Sendable(EncodeByte(b, how)) <==> (MustEscape(b) ==> how.Percent?)
  {
    if how.Plain? {
      assert EncodeByte(b, how)[0] == b;
    }
  }

  lemma {:induction false} CarefulCons(how: seq<Coding>, name: Text)
    requires |how| == |name| > 0
    ensures Careful(how, name) <==> (MustEscape(name[0]) ==> how[0].Percent?) && Careful(how[1..], name[1..])
  {
    if Careful(how[1..], name[1..]) && (MustEscape(name[0]) ==> how[0].Percent?) {
      forall k | 0 <= k < |name| ensures MustEscape(name[k]) ==> how[k].Percent? {
        assert k > 0 ==> name[k] == name[1..][k - 1] && how[k] == how[1..][k - 1];
      }
    }
  }

  lemma {:induction false} SendableConcat(a: Text, b: Text)
    ensures Sendable(a + b) <==> Sendable(a) && Sendable(b)
  {
    if Sendable(a + b) {
      assert forall x :: x in a || x in b ==> x in a + b;
    }
  }

  /** An encoding can stand in a target exactly when every byte that must be escaped is. */
  lemma {:induction false} EncodedBytes(name: Text, how: seq<Coding>)
    requires Encodes(how, name)
    ensures Sendable(PercentEncode(name, how)) <==> Careful(how, name)
  {
    hide Sendable, Careful, MustEscape, EncodeByte;
    if name == [] {
      NothingToSend();
    } else {
      EncodedBytes(name[1..], how[1..]);
      SendableByte(name[0], how[0]);
      SendableConcat(EncodeByte(name[0], how[0]), PercentEncode(name[1..], how[1..]));
      CarefulCons(how, name);
    }
  }

  lemma {:induction false} NothingToSend()
    ensures Sendable([]) && Careful([], [])
  {
  }

  /** An encoding cut before a raw question mark is an encoding of a shorter name. */
  lemma {:induction false} CutEncoding(name: Text, how: seq<Coding>, n: nat) returns (m: nat)
    requires Encodes(how, name)
    requires n < |PercentEncode(name, how)| && PercentEncode(name, how)[n] == QUESTION
    ensures m < |name| && PercentEncode(name, how)[..n] == PercentEncode(name[..m], how[..m])
  {
    var t, first, rest := PercentEncode(name, how), EncodeByte(name[0], how[0]), PercentEncode(name[1..], how[1..]);
    if n < |first| {
      assert n == 0;
      m := 0;
    } else {
      assert rest[n - |first|] == QUESTION;
      var k := CutEncoding(name[1..], how[1..], n - |first|);
      m := k + 1;
      assert name[..m][1..] == name[1..][..k] && how[..m][1..] == how[1..][..k];
      assert t[..n] == first + rest[..n - |first|];
    }
  }

  // ---------------------------------------------------------------- paths

  /** What no encoding can mend: a backslash in the entry's name, or a slash at the end of the directory's. */
  predicate Reachable(dir: Text, name: Text) {
    BACKSLASH !in name && (dir == [] || dir[|dir| - 1] != SLASH)
  }

  lemma {:induction false} ShownPathIsExamined(base: Text, dir: Text, name: Text)
    requires (dir == [] || ValidRelativePath(dir)) && EntryName(name) && Shows(base, dir, name)
    ensures var child := ChildPath(HTTP_PATH_MAX, dir, name).value;
      (if ValidRelativePath(child) then JoinRelativePath(PATH_CAP, base, child) else None) ==
      if Reachable(dir, name) then JoinPath(PATH_CAP, JoinRelativePath(PATH_CAP, base, dir).value, name) else None
  {
    hide Segments, GoodSegments;
    if dir == [] {
      assert IndexOf(name, SLASH) == |name|;
      FirstSegment(name);
      assert name[..|name|] == name;
    } else {
      ChildIsValid(dir, name);
      var sep := if base != [] && base[|base| - 1] == SLASH then [] else [SLASH];
      assert base + sep + dir + [SLASH] + name == base + sep + (dir + [SLASH] + name);
      assert base + [] == base;
      assert JoinRelativePath(PATH_CAP, base, dir) == Some(base + sep + dir);
    }
  }

  /** A shorter part of the shown path leads elsewhere. */
  lemma {:induction false} PartIsAnotherPath(base: Text, dir: Text, name: Text, m: nat)
    requires (dir == [] || ValidRelativePath(dir)) && EntryName(name) && Shows(base, dir, name)
    requires m < |ChildPath(HTTP_PATH_MAX, dir, name).value|
    requires ValidRelativePath(ChildPath(HTTP_PATH_MAX, dir, name).value[..m])
    ensures JoinRelativePath(PATH_CAP, base, ChildPath(HTTP_PATH_MAX, dir, name).value[..m])
         != JoinPath(PATH_CAP, JoinRelativePath(PATH_CAP, base, dir).value, name)
  {
    hide Segments, GoodSegments;
    var child := ChildPath(HTTP_PATH_MAX, dir, name).value;
    var sep := if base != [] && base[|base| - 1] == SLASH then [] else [SLASH];
    var asked := base + sep + child[..m];
    var top := base + sep + dir;
    assert base + [] == base;
    assert dir != [] ==> JoinRelativePath(PATH_CAP, base, dir) == Some(top);
    assert JoinRelativePath(PATH_CAP, base, child[..m]).Some? ==>
      JoinRelativePath(PATH_CAP, base, child[..m]).value == asked;
    if dir != [] && dir[|dir| - 1] == SLASH && m > |dir| {
      assert asked[|top|] == child[|dir|] == SLASH;
      assert (top + name)[|top|] == name[0] != SLASH;
    }
  }

  lemma {:induction false} DecodedBack(path: Text, how: seq<Coding>)
    requires Encodes(how, path) && NUL !in path && |path| < HTTP_PATH_MAX
    ensures Decoded(PercentEncode(path, how)) == Some(path)
  {
    hide PercentDecode, PercentEncode, CString;
    DecodeEncode(path, how);
    WholeString(path);
  }

  lemma {:induction false} DirIsPlain(listing: Text)
    requires DirAsked(listing).Some?
    ensures var dir := DirAsked(listing).value; NUL !in dir && (dir == [] || ValidRelativePath(dir))
  {
    hide Received, QueryValue, PercentDecode, ValidRelativePath;
  }

  // ---------------------------------------------------------------- the two requests

  /**
   * However the path that a listing shows for an entry is percent-encoded, a
   * download of it opens the very file the listing examined, if and only if the
   * entry has no backslash in its name and the directory no slash at its end,
   * and the encoding is short enough for a request, escapes what cannot stand
   * in one, and has no raw question mark. But for the last, which makes it ask for
   * another path, a failure is a refusal.
   */
  lemma {:induction false} ListingAndDownloadAgree(base: Text, listing: Text, name: Text, how: seq<Coding>)
    requires Lists(base, listing, name) && Encodes(how, Shown(base, listing, name))
    ensures var target := Target(Shown(base, listing, name), how);
      FileAsked(base, target) == Some(Examined(base, listing, name))
      <==> Reachable(DirAsked(listing).value, name) && Received(target) && QUESTION !in target
    ensures var target := Target(Shown(base, listing, name), how);
      !(Reachable(DirAsked(listing).value, name) && Received(target)) && QUESTION !in target
      ==> FileAsked(base, target) == None
  {
    hide DirAsked, PercentEncode, Decoded, ValidRelativePath, Reachable;
    var dir, path := DirAsked(listing).value, Shown(base, listing, name);
    var encoded, target := PercentEncode(path, how), Target(path, how);
    DirIsPlain(listing);
    if Received(target) {
      if QUESTION !in target {
        WholePath(encoded);
        DecodedBack(path, how);
        ShownPathIsExamined(base, dir, name);
      } else {
        QueryBegins(encoded);
        var n := IndexOf(encoded, QUESTION);
        var m := CutEncoding(path, how, n);
        DecodedBack(path[..m], how[..m]);
        if ValidRelativePath(path[..m]) {
          PartIsAnotherPath(base, dir, name, m);
        }
      }
    }
  }

  lemma {:induction false} WholePath(encoded: Text)
    requires QUESTION !in FILE_ROUTE + encoded
    ensures PathOf(FILE_ROUTE + encoded) == FILE_ROUTE + encoded && (FILE_ROUTE + encoded)[|FILE_ROUTE|..] == encoded
  {
    var t := FILE_ROUTE + encoded;
    assert t[..|t|] == t;
    assert IndexOf(t, QUESTION) == |t|;
  }

  lemma {:induction false} QueryBegins(encoded: Text)
    requires QUESTION in FILE_ROUTE + encoded
    ensures var n := IndexOf(encoded, QUESTION);
      n < |encoded| && encoded[n] == QUESTION && PathOf(FILE_ROUTE + encoded) == FILE_ROUTE + encoded[..n]
  {
    hide IndexOf;
    var n, t := IndexOf(encoded, QUESTION), FILE_ROUTE + encoded;
    assert QUESTION !in FILE_ROUTE;
    IndexOfIs(t, QUESTION, |FILE_ROUTE| + n);
  }

  // ---------------------------------------------------------------- which paths can be fetched

  function Count(s: Text, p: byte -> bool): nat {
    if s == [] then 0 else (if p(s[0]) then 1 else 0) + Count(s[1..], p)
  }

  /** The encoding that escapes the bytes with this property, in upper-case digits. */
  function Escaping(s: Text, p: byte -> bool): (how: seq<Coding>)
    ensures |how| == |s|
  {
    seq(|s|, k requires 0 <= k < |s| => if p(s[k]) then Percent(true, true) else Plain)
  }

  lemma {:induction false} EscapingCounts(s: Text, p: byte -> bool)
    ensures Percents(Escaping(s, p)) == Count(s, p)
  {
    if s != [] {
      assert Escaping(s, p)[1..] == Escaping(s[1..], p);
      EscapingCounts(s[1..], p);
    }
  }

  lemma {:induction false} CarefulCounts(s: Text, how: seq<Coding>)
    requires |how| == |s| && Careful(how, s)
    ensures Percents(how) >= Count(s, MustEscape)
  {
    hide Careful, MustEscape;
    if s != [] {
      CarefulCons(how, s);
      CarefulCounts(s[1..], how[1..]);
    }
  }

  /** Room for the route, the path, and two bytes more for each that is escaped. */
  predicate HasRoom(path: Text, p: byte -> bool) {
    |FILE_ROUTE| + |path| + 2 * Count(path, p) < HTTP_PATH_MAX
  }

  lemma {:induction false} EscapingIsCareful(s: Text, p: byte -> bool)
    requires forall b <- s :: MustEscape(b) ==> p(b)
    ensures Encodes(Escaping(s, p), s) && Careful(Escaping(s, p), s)
  {
    forall k | 0 <= k < |s| ensures MustEscape(s[k]) ==> Escaping(s, p)[k].Percent? {
      assert s[k] in s;
    }
  }

  /** When a target made from an encoding is received whole. */
  lemma {:induction false} TargetReceived(path: Text, how: seq<Coding>)
    requires Encodes(how, path)
    ensures Received(Target(path, how)) && QUESTION !in Target(path, how)
      <==> Careful(how, path) && |FILE_ROUTE| + |path| + 2 * Percents(how) < HTTP_PATH_MAX
  {
    hide PercentEncode, Careful, TargetByte;
    EncodedBytes(path, how);
    EncodedLength(path, how);
    SendableConcat(FILE_ROUTE, PercentEncode(path, how));
    assert Sendable(FILE_ROUTE) by {
      RouteIsSendable();
    }
    var t := Target(path, how);
    assert Sendable(t) <==> QUESTION !in t && forall b <- t :: TargetByte(b);
  }

  lemma {:induction false} RouteIsSendable()
    ensures Sendable(FILE_ROUTE)
  {
  }

  /** A listed path can be fetched, by some encoding of it, if and only if it is reachable and leaves room. */
  lemma {:induction false} SomeEncodingReaches(base: Text, listing: Text, name: Text)
    requires Lists(base, listing, name)
    ensures var path := Shown(base, listing, name);
      (exists how | Encodes(how, path) :: FileAsked(base, Target(path, how)) == Some(Examined(base, listing, name)))
      <==> Reachable(DirAsked(listing).value, name) && HasRoom(path, MustEscape)
  {
    hide FileAsked, Shown, Examined, Received, Reachable, DirAsked, MustEscape, Count;
    var path := Shown(base, listing, name);
    var best := Escaping(path, MustEscape);
    assert Encodes(best, path) && Careful(best, path) by {
      EscapingIsCareful(path, MustEscape);
    }
    EscapingCounts(path, MustEscape);
    TargetReceived(path, best);
    ListingAndDownloadAgree(base, listing, name, best);
    forall how | Encodes(how, path) && FileAsked(base, Target(path, how)) == Some(Examined(base, listing, name))
      ensures Reachable(DirAsked(listing).value, name) && HasRoom(path, MustEscape)
    {
      ListingAndDownloadAgree(base, listing, name, how);
      TargetReceived(path, how);
      CarefulCounts(path, how);
    }
  }

  /** What `encodeURIComponent` escapes: everything but letters, digits and - _ . ! ~ * ' ( ). */
  predicate PageEscapes(b: byte) {
    !(0x30 <= b <= 0x39 || 0x41 <= b <= 0x5A || 0x61 <= b <= 0x7A
      || b in {0x2D, 0x5F, 0x2E, 0x21, 0x7E, 0x2A, 0x27, 0x28, 0x29})
  }

  /**
   * The link that the page makes, for a path that is UTF-8, works if and only if
   * the path is reachable and leaves room for the link; otherwise it is refused.
   */
  lemma {:induction false} PageLinkWorks(base: Text, listing: Text, name: Text)
    requires Lists(base, listing, name)
    ensures Encodes(Escaping(Shown(base, listing, name), PageEscapes), Shown(base, listing, name))
    ensures var path := Shown(base, listing, name);
      FileAsked(base, Target(path, Escaping(path, PageEscapes))) ==
        if Reachable(DirAsked(listing).value, name) && HasRoom(path, PageEscapes)
        then Some(Examined(base, listing, name)) else None
  {
    hide FileAsked, Shown, Examined, Received, Reachable, DirAsked, Count, Careful;
    var path := Shown(base, listing, name);
    var how := Escaping(path, PageEscapes);
    assert Encodes(how, path) && Careful(how, path) by {
      EscapingIsCareful(path, PageEscapes);
    }
    EscapingCounts(path, PageEscapes);
    TargetReceived(path, how);
    ListingAndDownloadAgree(base, listing, name, how);
    NoQuestion(path, how);
  }

  lemma {:induction false} NoQuestion(path: Text, how: seq<Coding>)
    requires Encodes(how, path) && Careful(how, path)
    ensures QUESTION !in Target(path, how)
  {
    hide PercentEncode, Careful;
    EncodedBytes(path, how);
  }

  // ---------------------------------------------------------------- a path that is listed and cannot be fetched

  /** "?path=" */
  const PATH_QUERY: Text := [0x3F, 0x70, 0x61, 0x74, 0x68, 0x3D]

  /** A directory that needs no escaping is listed when its name is asked for as it is. */
  lemma {:induction false} PlainListing(dir: Text)
    requires ValidRelativePath(dir) && |LIST_ROUTE| + |PATH_QUERY| + |dir| < HTTP_PATH_MAX
    requires forall b <- dir :: !MustEscape(b) && b != AMPERSAND
    ensures DirAsked(LIST_ROUTE + PATH_QUERY + dir) == Some(dir)
  {
    hide ValidRelativePath, QueryValue, Decoded, IndexOf;
    var t, query := LIST_ROUTE + PATH_QUERY + dir, PATH_KEY + [EQUALS] + dir;
    assert t == LIST_ROUTE + [QUESTION] + query;
    IndexOfIs(t, QUESTION, |LIST_ROUTE|);
    assert t[|LIST_ROUTE| + 1..] == query;
    PlainQuery(dir);
    PlainDecodes(dir);
  }

  lemma {:induction false} PlainQuery(dir: Text)
    requires AMPERSAND !in dir
    ensures QueryValue(PATH_KEY + [EQUALS] + dir, PATH_KEY) == Some(dir)
  {
    hide IndexOf;
    var query := PATH_KEY + [EQUALS] + dir;
    assert AMPERSAND !in query;
    IndexOfIs(query, AMPERSAND, |query|);
    assert query[..|query|] == query;
    IndexOfIs(query, EQUALS, |PATH_KEY|);
    assert query[|PATH_KEY| + 1..] == dir && query[..|PATH_KEY|] == PATH_KEY;
  }

  lemma {:induction false} PlainDecodes(s: Text)
    requires PERCENT !in s && NUL !in s && |s| < HTTP_PATH_MAX
    ensures Decoded(s) == Some(s)
  {
    var how := seq(|s|, _ => Plain);
    PlainEncodes(s, how);
    DecodedBack(s, how);
  }

  lemma {:induction false} PlainEncodes(s: Text, how: seq<Coding>)
    requires PERCENT !in s && |how| == |s| && forall c <- how :: c.Plain?
    ensures PercentEncode(s, how) == s
  {
    if s != [] {
      PlainEncodes(s[1..], how[1..]);
      assert [s[0]] + s[1..] == s;
    }
  }

  /** n times the letter "a". */
  function Letters(n: nat): (r: Text)
    ensures |r| == n && forall b <- r :: b == 0x61
  {
    seq(n, _ => 0x61)
  }

  /** Four directories inside one another, each with a name of 249 letters. */
  function DeepDir(): Text {
    Letters(249) + [SLASH] + Letters(249) + [SLASH] + Letters(249) + [SLASH] + Letters(249)
  }

  lemma {:induction false} DeepDirIs()
    ensures ValidRelativePath(DeepDir()) && |DeepDir()| == 999 && forall b <- DeepDir() :: b == 0x61 || b == SLASH
    ensures EntryName(Letters(20)) && DeepDir()[998] == 0x61
  {
    hide ValidRelativePath;
    var s := Letters(249);
    assert EntryName(s) && ValidRelativePath(s) by {
      LettersAreAName(249);
    }
    LettersAreAName(20);
    assert s[248] == 0x61;
    ChildIsValid(s, s);
    ChildIsValid(s + [SLASH] + s, s);
    ChildIsValid(s + [SLASH] + s + [SLASH] + s, s);
  }

  lemma {:induction false} LettersAreAName(n: nat)
    requires n > 0
    ensures EntryName(Letters(n)) && ValidRelativePath(Letters(n))
  {
    var s := Letters(n);
    assert s[0] == 0x61;
    OneSegment(s);
  }

  /**
   * A server lists a file of twenty letters in that directory to anyone who asks
   * for it, and no request at all can name the path that it shows.
   */
  lemma {:induction false} ListedAndOutOfReach(base: Text)
    requires |base| + 1024 < PATH_CAP
    ensures var listing, name := LIST_ROUTE + PATH_QUERY + DeepDir(), Letters(20);
      && Lists(base, listing, name) && Reachable(DirAsked(listing).value, name)
      && forall how | Encodes(how, Shown(base, listing, name)) ::
           FileAsked(base, Target(Shown(base, listing, name), how)) == None
  {
    hide ValidRelativePath, DirAsked, PercentEncode, DeepDir, Letters, EntryName;
    var dir, name := DeepDir(), Letters(20);
    DeepDirIs();
    PlainListing(dir);
    var path := dir + [SLASH] + name;
    forall how | Encodes(how, path) ensures !Received(Target(path, how)) {
      EncodedLength(path, how);
    }
  }
}
