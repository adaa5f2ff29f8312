/** The JSON reader and writer and the event stream in terms of the bytes they read and write. */
module TextLaws {
  import opened Bytes
  import opened Paths
  import opened Utf8
  import opened Utf8Stream
  import opened JsonString
  import opened MessagePipeline
  import opened EventStream

  // ---------------------------------------------------------------- hex digits and spaces

  /** "0123456789abcdef", and the same in capitals. */
  const LOWER_DIGITS: Text :=
    [0x30, 0x31, 0x32, 0x33, 0x34, 0x35, 0x36, 0x37, 0x38, 0x39, 0x61, 0x62, 0x63, 0x64, 0x65, 0x66]
  const UPPER_DIGITS: Text :=
    [0x30, 0x31, 0x32, 0x33, 0x34, 0x35, 0x36, 0x37, 0x38, 0x39, 0x41, 0x42, 0x43, 0x44, 0x45, 0x46]

  lemma {:induction false} HexDigitsInOrder(v: nat)
    requires v < 16
    ensures IsHex(LOWER_DIGITS[v]) && HexValue(LOWER_DIGITS[v]) == v && HexDigit(v, false) == LOWER_DIGITS[v]
    ensures IsHex(UPPER_DIGITS[v]) && HexValue(UPPER_DIGITS[v]) == v && HexDigit(v, true) == UPPER_DIGITS[v]
  {
  }

  lemma {:induction false} HexDigitsAreAll(b: byte)
    ensures IsHex(b) <==> b in LOWER_DIGITS || b in UPPER_DIGITS
  {
    if IsHex(b) {
      HexDigitsInOrder(HexValue(b));
    }
  }

  /** White space between tokens: tab, line feed, vertical tab, form feed, carriage return, space. */
  lemma {:induction false} SpacesAre(t: Text)
    ensures Spaces(t) <==> forall b <- t :: b in {0x09, 0x0A, 0x0B, 0x0C, 0x0D, 0x20}
  {
    assert forall k | 0 <= k < |t| :: t[k] in t;
    if Spaces(t) {
      forall b <- t ensures b in {0x09, 0x0A, 0x0B, 0x0C, 0x0D, 0x20} {
        var k :| 0 <= k < |t| && t[k] == b;
      }
    }
  }

  /** A percent sign stands for nothing without two digits after it. */
  lemma {:induction false} PercentNeedsDigits(rest: Text)
    ensures PercentDecode([0x25] + rest).Some? <==>
      |rest| >= 2 && IsHex(rest[0]) && IsHex(rest[1]) && PercentDecode(rest[2..]).Some?
    ensures PercentDecode([0x25] + rest).Some? ==>
      PercentDecode([0x25] + rest).value
        == [0x10 * HexValue(rest[0]) + HexValue(rest[1])] + PercentDecode(rest[2..]).value
  {
    if |rest| >= 2 {
      assert ([0x25] + rest)[3..] == rest[2..];
    }
  }

  // ---------------------------------------------------------------- reading strings

  /** Escapes of one character: what they stand for; no others are read. */
  lemma {:induction false} ShortEscapesAre(c: byte, rest: Text)
    requires c != 0x75
    ensures ParseBody([0x5C, c] + rest) ==
      if c in {0x22, 0x5C, 0x2F} then Prepend([c], ParseBody(rest))
      else if c == 0x62 then Prepend([0x08], ParseBody(rest))
      else if c == 0x66 then Prepend([0x0C], ParseBody(rest))
      else if c == 0x6E then Prepend([0x0A], ParseBody(rest))
      else if c == 0x72 then Prepend([0x0D], ParseBody(rest))
      else if c == 0x74 then Prepend([0x09], ParseBody(rest))
      else Bad
  {
    hide ParseBody;
    var t := [0x5C, c] + rest;
    assert t[1..][1..] == rest;
    EscapeStep(t);
  }

  /** A quote ends a string, a NUL or the end of the text spoils it, and any other byte stands for itself. */
  lemma {:induction false} PlainBytesAre(b: byte, rest: Text)
    ensures ParseBody([]) == Bad && ParseBody([0x00] + rest) == Bad
    ensures ParseBody([0x22] + rest) == Good([], rest)
    ensures b !in {0x00, 0x22, 0x5C} ==> ParseBody([b] + rest) == Prepend([b], ParseBody(rest))
  {
    assert ([b] + rest)[1..] == rest && ([0x22] + rest)[1..] == rest;
  }

  /** The number that four digits stand for. */
  function Unit(a: nat, b: nat, c: nat, d: nat): nat { 0x1000 * a + 0x100 * b + 0x10 * c + d }

  lemma {:induction false} FourDigits(d: Text, rest: Text)
    requires |d| == 4
    ensures Hex4(d + rest).Some? <==> forall b <- d :: b in LOWER_DIGITS || b in UPPER_DIGITS
    ensures Hex4(d + rest).Some? ==>
      Hex4(d + rest).value == Unit(HexValue(d[0]), HexValue(d[1]), HexValue(d[2]), HexValue(d[3]))
  {
    HexDigitsAreAll(d[0]);
    HexDigitsAreAll(d[1]);
    HexDigitsAreAll(d[2]);
    HexDigitsAreAll(d[3]);
    assert d == [d[0], d[1], d[2], d[3]];
  }

  /** A backslash and a u without four digits after it is no escape. */
  lemma {:induction false} DigitsAreNeeded(d: Text, rest: Text)
    requires |d| == 4 && exists b <- d :: b !in LOWER_DIGITS && b !in UPPER_DIGITS
    ensures ParseBody([0x5C, 0x75] + d + rest) == Bad
  {
    hide Hex4, ParseBody;
    var t := [0x5C, 0x75] + d + rest;
    assert t[1..][1..] == d + rest;
    FourDigits(d, rest);
    EscapeStep(t);
  }

  /** A string that is never closed is not read. */
  lemma {:induction false} QuoteIsNeeded(t: Text)
    ensures ParseBody(t).Good? ==> 0x22 in t
    decreases |t|
  {
    hide ParseOne;
    if t != [] && t[0] != 0x00 && t[0] != 0x22 && ParseOne(t).Good? {
      OneLeavesSuffix(t);
      QuoteIsNeeded(ParseOne(t).rest);
    }
  }

  lemma {:induction false} OneLeavesSuffix(t: Text)
    requires t != [] && ParseOne(t).Good?
    ensures |ParseOne(t).rest| < |t| && ParseOne(t).rest == t[|t| - |ParseOne(t).rest|..]
  {
    hide Hex4, LowSurrogate, Encode;
  }

  // ---------------------------------------------------------------- writing strings

  /** How the writer writes each byte. */
  lemma {:induction false} EscapedBytesAre(b: byte)
    ensures EscapeByte(b) ==
      if b == 0x22 then [0x5C, 0x22]
      else if b == 0x5C then [0x5C, 0x5C]
      else if b == 0x08 then [0x5C, 0x62]
      else if b == 0x0C then [0x5C, 0x66]
      else if b == 0x0A then [0x5C, 0x6E]
      else if b == 0x0D then [0x5C, 0x72]
      else if b == 0x09 then [0x5C, 0x74]
      else if b < 0x20 then [0x5C, 0x75, 0x30, 0x30, LOWER_DIGITS[b / 0x10], LOWER_DIGITS[b % 0x10]]
      else [b]
  {
    if b < 0x20 {
      HexDigitsInOrder(b / 0x10);
      HexDigitsInOrder(b % 0x10);
      HexDigitsInOrder(0);
      assert b / 0x1000 == 0 && b / 0x100 % 0x10 == 0 && b / 0x10 % 0x10 == b / 0x10;
    }
  }

  /** The answer to a GET: {"has_message":true,"message":"..."}, and the same with false and nothing. */
  lemma {:induction false} LatestIs(m: Text)
    ensures Latest(Some(m)) ==
      [0x7B, 0x22, 0x68, 0x61, 0x73, 0x5F, 0x6D, 0x65, 0x73, 0x73, 0x61, 0x67, 0x65, 0x22, 0x3A,
       0x74, 0x72, 0x75, 0x65,
       0x2C, 0x22, 0x6D, 0x65, 0x73, 0x73, 0x61, 0x67, 0x65, 0x22, 0x3A, 0x22] + Escape(m) + [0x22, 0x7D]
    ensures Latest(None) ==
      [0x7B, 0x22, 0x68, 0x61, 0x73, 0x5F, 0x6D, 0x65, 0x73, 0x73, 0x61, 0x67, 0x65, 0x22, 0x3A,
       0x66, 0x61, 0x6C, 0x73, 0x65,
       0x2C, 0x22, 0x6D, 0x65, 0x73, 0x73, 0x61, 0x67, 0x65, 0x22, 0x3A, 0x22, 0x22, 0x7D]
  {
    hide Escape;
  }

  // ---------------------------------------------------------------- requests

  /** {"message":"..."} with a text that needs no escape is read as that text. */
  lemma {:induction false} PlainRequestIsRead(m: Text)
    requires 0x00 !in m && 0x22 !in m && 0x5C !in m
    ensures ParseMessage(
      [0x7B, 0x22, 0x6D, 0x65, 0x73, 0x73, 0x61, 0x67, 0x65, 0x22, 0x3A, 0x22] + m + [0x22, 0x7D]) == Some(m)
  {
    hide Expect, StringIn, ValueIn, ParseString;
    var key: Text := [0x6D, 0x65, 0x73, 0x73, 0x61, 0x67, 0x65];
    var value := [0x22] + m + [0x22] + [0x7D];
    var members := [0x22] + key + [0x22] + ([0x3A] + value);
    var body := [0x7B, 0x22, 0x6D, 0x65, 0x73, 0x73, 0x61, 0x67, 0x65, 0x22, 0x3A, 0x22] + m + [0x22, 0x7D];
    assert body == [0x7B] + members;
    CharacterIsRead(0x7B, members);
    StringIsRead(key, [0x3A] + value);
    CharacterIsRead(0x3A, value);
    WholeString(key);
    PlainValueIsRead(m);
  }

  lemma {:induction false} PlainValueIsRead(m: Text)
    requires 0x00 !in m && 0x22 !in m && 0x5C !in m
    ensures ValueIn([0x22] + m + [0x22] + [0x7D]) == Some(m)
  {
    hide Expect, StringIn;
    StringIsRead(m, [0x7D]);
    assert [0x7D] == [0x7D] + [];
    CharacterIsRead(0x7D, []);
  }

  lemma {:induction false} CharacterIsRead(c: byte, rest: Text)
    requires !IsSpace(c)
    ensures Expect([c] + rest, c) == Some(rest)
  {
    hide SkipSpaces;
    NoSpace([c] + rest);
    assert ([c] + rest)[1..] == rest;
  }

  lemma {:induction false} StringIsRead(m: Text, rest: Text)
    requires 0x00 !in m && 0x22 !in m && 0x5C !in m
    ensures StringIn([0x22] + m + [0x22] + rest) == Good(m, rest)
  {
    hide SkipSpaces, ParseString;
    NoSpace([0x22] + m + [0x22] + rest);
    PlainStringIsRead(m, rest);
  }

  lemma {:induction false} NoSpace(t: Text)
    requires t != [] && !IsSpace(t[0])
    ensures SkipSpaces(t) == t
  {
  }

  lemma {:induction false} PlainStringIsRead(m: Text, rest: Text)
    requires 0x00 !in m && 0x22 !in m && 0x5C !in m
    ensures ParseString([0x22] + m + [0x22] + rest) == Good(m, rest)
  {
    hide ParseBody;
    var t := [0x22] + m + [0x22] + rest;
    assert t[1..] == m + ([0x22] + rest);
    PlainRun(m, [0x22] + rest);
    PlainBytesAre(0x22, rest);
    assert m + [] == m;
  }

  // ---------------------------------------------------------------- events

  /** "event: message", "data: " with the message, an empty line; and a comment for a keep-alive. */
  lemma {:induction false} ChunksAre(m: Text)
    requires 0x0A !in m
    ensures BytesSent([Message(m)]) ==
      [0x65, 0x76, 0x65, 0x6E, 0x74, 0x3A, 0x20, 0x6D, 0x65, 0x73, 0x73, 0x61, 0x67, 0x65, 0x0A,
       0x64, 0x61, 0x74, 0x61, 0x3A, 0x20] + m + [0x0A, 0x0A]
    ensures BytesSent([KeepAlive]) ==
      [0x3A, 0x20, 0x6B, 0x65, 0x65, 0x70, 0x2D, 0x61, 0x6C, 0x69, 0x76, 0x65, 0x0A, 0x0A]
  {
    hide EventBytes;
    OneChunk(Message(m));
    OneChunk(KeepAlive);
    OneLineEvent(m);
  }

  lemma {:induction false} OneChunk(c: Chunk<byte>)
    ensures BytesSent([c]) == match c case Message(text) => EventBytes(text) case KeepAlive => KeepAliveLine()
  {
    hide EventBytes, KeepAliveLine;
    var chunks := AsChars([c]);
    assert [c][1..] == [];
    assert AsChars([]) == [];
    assert chunks[1..] == [] && StreamOf([]) == [];
    assert StreamOf(chunks) == BytesSent([c]);
  }

  lemma {:induction false} OneLineEvent(m: Text)
    requires 0x0A !in m
    ensures EventBytes(m) ==
      [0x65, 0x76, 0x65, 0x6E, 0x74, 0x3A, 0x20, 0x6D, 0x65, 0x73, 0x73, 0x61, 0x67, 0x65, 0x0A,
       0x64, 0x61, 0x74, 0x61, 0x3A, 0x20] + m + [0x0A, 0x0A]
  {
    assert IndexOf(m, 0x0A) == |m|;
    assert DataBody(m) == m + [0x0A];
  }

  /** Every further line of a message begins with "data: ". */
  lemma {:induction false} FurtherLines(first: Text, more: Text)
    requires 0x0A !in first
    ensures DataBody(first + [0x0A] + more) == first + [0x0A, 0x64, 0x61, 0x74, 0x61, 0x3A, 0x20] + DataBody(more)
  {
    hide IndexOf;
    var m: Text := first + [0x0A] + more;
    IndexOfIs(m, 0x0A, |first|);
    assert m[..|first|] == first && m[|first| + 1..] == more;
  }

  // ---------------------------------------------------------------- only requests are read

  /** What the parser has read of a body, it reads by itself. */
  lemma {:induction false} BodyReadAlone(t: Text)
    requires ParseBody(t).Good?
    ensures var r := ParseBody(t);
      |r.rest| < |t| && r.rest == t[|t| - |r.rest|..] && ParseBody(t[..|t| - |r.rest|]) == Good(r.text, [])
    decreases |t|
  {
    hide ParseEscape;
    var r := ParseBody(t);
    var p := t[..|t| - |r.rest|];
    if t[0] == QUOTE {
      assert p == [QUOTE];
    } else {
      OneLeavesSuffix(t);
      var one := ParseOne(t);
      var k := |t| - |one.rest|;
      BodyReadAlone(one.rest);
      assert t == p + r.rest;
      assert p[k..] == one.rest[..|one.rest| - |r.rest|];
      OneReadAlone(p, r.rest);
    }
  }

  /** A character that ends before e is read the same without e. */
  lemma {:induction false} OneReadAlone(p: Text, e: Text)
    requires p != [] && ParseOne(p + e).Good? && |ParseOne(p + e).rest| >= |e|
    ensures var k, one := |p + e| - |ParseOne(p + e).rest|, ParseOne(p + e);
      k <= |p| && ParseOne(p) == Good(one.text, p[k..])
  {
    hide ParseEscape;
    assert (p + e)[1..] == p[1..] + e;
    if p[0] == BACKSLASH {
      EscapeIsLocal(p[1..], e, []);
      assert p[1..] + [] == p[1..];
      var k := |p + e| - |ParseOne(p + e).rest|;
      assert p[1..][k - 1..] + [] == p[k..];
    } else {
      assert (p + e)[1..] == p[1..] + e;
    }
  }

  /** White space, a string, and what follows it. */
  ghost predicate StartsWithString(t: Text, spaces: Text, quoted: Text, value: Text, rest: Text) {
    t == spaces + quoted + rest && Spaces(spaces) && ParseString(quoted) == Good(value, [])
  }

  lemma {:induction false} StringFound(t: Text) returns (spaces: Text, quoted: Text)
    requires StringIn(t).Good?
    ensures StartsWithString(t, spaces, quoted, StringIn(t).text, StringIn(t).rest)
  {
    hide ParseString, SkipSpaces, Spaces;
    spaces := SpacesFound(t);
    quoted := StringReadAlone(SkipSpaces(t));
  }

  lemma {:induction false} StringReadAlone(s: Text) returns (quoted: Text)
    requires ParseString(s).Good?
    ensures s == quoted + ParseString(s).rest && ParseString(quoted) == Good(ParseString(s).text, [])
  {
    hide ParseBody;
    BodyReadAlone(s[1..]);
    var rest := ParseString(s).rest;
    quoted := s[..|s| - |rest|];
    assert quoted[1..] == s[1..][..|s[1..]| - |rest|];
  }

  lemma {:induction false} SpacesFound(t: Text) returns (spaces: Text)
    ensures t == spaces + SkipSpaces(t) && Spaces(spaces)
  {
    spaces := t[..|t| - |SkipSpaces(t)|];
    SkippedAreSpaces(t);
  }

  lemma {:induction false} SkippedAreSpaces(t: Text)
    ensures Spaces(t[..|t| - |SkipSpaces(t)|])
  {
    if t != [] && IsSpace(t[0]) {
      SkippedAreSpaces(t[1..]);
      var n := |t| - |SkipSpaces(t)|;
      assert forall k | 0 < k < n :: t[..n][k] == t[1..][..n - 1][k - 1];
    }
  }

  lemma {:induction false} CharacterFound(t: Text, c: byte) returns (spaces: Text)
    requires Expect(t, c).Some?
    ensures t == spaces + [c] + Expect(t, c).value && Spaces(spaces)
  {
    hide SkipSpaces;
    spaces := SpacesFound(t);
  }

  /** An object of one member, with gaps of white space around its parts, and the end or a NUL after it. */
  ghost predicate IsRequest(body: Text, gaps: seq<Text>, key: Text, quoted: Text, end: Text) {
    && |gaps| == 6 && (forall g <- gaps :: Spaces(g)) && (end == [] || end[0] == 0x00)
    && body == gaps[0] + [0x7B] + (gaps[1] + key + (gaps[2] + [0x3A]
               + (gaps[3] + quoted + (gaps[4] + [0x7D] + (gaps[5] + end)))))
  }

  /**
   * The other half of reading requests: whatever is read as a message is an object
   * of one member, its key "message" up to a NUL, with nothing but white space
   * around its parts, up to the end or a NUL.
   */
  lemma {:induction false} OnlyRequestsAreRead(body: Text)
    returns (gaps: seq<Text>, key: Text, name: Text, quoted: Text, end: Text)
    requires ParseMessage(body).Some?
    ensures IsRequest(body, gaps, key, quoted, end)
    ensures ParseString(key) == Good(name, []) && CString(name) == [0x6D, 0x65, 0x73, 0x73, 0x61, 0x67, 0x65]
    ensures ParseString(quoted) == Good(ParseMessage(body).value, [])
  {
    hide Expect, StringIn, SkipSpaces, ParseString, Spaces, ValueIn, StartsWithString;
    var g0 := CharacterFound(body, 0x7B);
    var members := Expect(body, 0x7B).value;
    var g1, g2, value;
    g1, key, name, g2, value := KeyFound(members);
    var g3, g4, g5;
    g3, quoted, g4, g5, end := ValueFound(value);
    gaps := [g0, g1, g2, g3, g4, g5];
  }

  lemma {:induction false} KeyFound(t: Text)
    returns (before: Text, key: Text, name: Text, after: Text, value: Text)
    requires StringIn(t).Good? && Expect(StringIn(t).rest, 0x3A).Some?
    ensures Spaces(before) && Spaces(after) && ParseString(key) == Good(name, [])
    ensures name == StringIn(t).text && value == Expect(StringIn(t).rest, 0x3A).value
    ensures t == before + key + (after + [0x3A] + value)
  {
    hide Expect, StringIn, SkipSpaces, ParseString, Spaces;
    before, key := StringFound(t);
    name := StringIn(t).text;
    after := CharacterFound(StringIn(t).rest, 0x3A);
    value := Expect(StringIn(t).rest, 0x3A).value;
  }

  lemma {:induction false} ValueFound(t: Text) returns (before: Text, quoted: Text, after: Text, more: Text, end: Text)
    requires ValueIn(t).Some?
    ensures Spaces(before) && Spaces(after) && Spaces(more) && (end == [] || end[0] == 0x00)
    ensures ParseString(quoted) == Good(ValueIn(t).value, [])
    ensures t == before + quoted + (after + [0x7D] + (more + end))
  {
    hide Expect, StringIn, SkipSpaces, ParseString, Spaces;
    before, quoted := StringFound(t);
    var rest := StringIn(t).rest;
    after := CharacterFound(rest, 0x7D);
    more := SpacesFound(Expect(rest, 0x7D).value);
    end := SkipSpaces(Expect(rest, 0x7D).value);
  }

  // ---------------------------------------------------------------- a byte that is no text

  /** The page gets the replacement character for a message of the byte FF. */
  lemma {:induction false} StrayByteIsReplaced()
    ensures EventStream.Received(BytesSent([Message([0xFF])])) ==
      [EventStream.Event([0x6D, 0x65, 0x73, 0x73, 0x61, 0x67, 0x65], [0xFFFD])]
  {
    hide EventStream.Dispatched, DecodeBody, EventBytes, BytesSent;
    var message: Chars := [0xFFFD];
    OneChunk(Message([0xFF]));
    StrayByteDecoded();
    assert EventBytes(message) + [] == EventBytes(message);
    EventInterpreted(message, []);
    EmptyBody();
  }

  lemma {:induction false} StrayByteDecoded()
    ensures BytesSent([Message([0xFF])]) == EventBytes([0xFF])
    ensures DecodeBody(BytesSent([Message([0xFF])])) == EventBytes([0xFFFD])
  {
    hide DecodePieces, DecodeBody, EncodeAll, EventBytes, StreamOf, EventLine, DataPrefix;
    var lead: Text := EventLine() + DataPrefix();
    var sent: Text := lead + ([0xFF] + [0x0A, 0x0A]);
    OneChunk(Message([0xFF]));
    OddEvent(0xFF);
    OddEvent(0xFFFD);
    NoMark([Message([0xFF])], sent);
    LeadIsAscii();
    EncodeAscii(lead);
    EncodeAscii([0x0A, 0x0A]);
    DecodesEncodedText(lead, [0xFF] + [0x0A, 0x0A]);
    StrayPiece([0x0A, 0x0A]);
    DecodesEncodedText([0x0A, 0x0A], []);
    NothingDecodes();
    assert EncodeAll([0x0A, 0x0A]) + [] == [0x0A, 0x0A];
  }

  lemma {:induction false} OddEvent(c: Scalar)
    requires c > 0x7F
    ensures EventBytes([c]) == EventLine() + DataPrefix() + ([c] + [0x0A, 0x0A])
  {
    hide EventLine, DataPrefix;
    assert IndexOf([c], 0x0A) == 1;
    LastData([c]);
  }

  lemma {:induction false} LeadIsAscii()
    ensures forall k | 0 <= k < |EventLine() + DataPrefix()| :: (EventLine() + DataPrefix())[k] < 0x80
  {
  }

  lemma {:induction false} LastData(message: Chars)
    requires IndexOf(message, 0x0A) == |message|
    ensures DataBody(message) == message + [0x0A]
  {
  }

  lemma {:induction false} StrayPiece(rest: Text)
    ensures DecodePieces([0xFF] + rest) == [0xFFFD] + DecodePieces(rest)
  {
    assert ([0xFF] + rest)[1..] == rest;
  }
}
