/**
 * A message from the body of a POST to the body of the next GET: the JSON
 * reader, the store, and the JSON writer of src/http.c put together.
 */
module MessagePipeline {
  import opened Bytes
  import opened HttpBuffer
  import opened Utf8
  import opened JsonString
  import opened MessageTrim
  import Messages = MessageStore
  import opened Wire
  import opened Server

  const OPEN_BRACE: byte := 0x7B
  const CLOSE_BRACE: byte := 0x7D

  /** "message" */
  function MessageKey(): Text { [0x6D, 0x65, 0x73, 0x73, 0x61, 0x67, 0x65] }

  // ---------------------------------------------------------------- reading

  /** The text after the character c, if t starts with it once spaces are skipped. */
  function Expect(t: Text, c: byte): (r: Option<Text>)
    ensures r.Some? ==> |r.value| < |t|
  {
    var s := SkipSpaces(t);
    if s == [] || s[0] != c then None else Some(s[1..])
  }

  /** A string, once spaces are skipped. */
  function StringIn(t: Text): (r: Parsed)
    ensures r.Good? ==> |r.text| + |r.rest| < |t|
  {
    ParseString(SkipSpaces(t))
  }

  /** From the value on: the value, a closing brace, and nothing more that a C string function sees. */
  function ValueIn(t: Text): (r: Option<Text>)
    ensures r.Some? ==> |r.value| < |t|
  {
    match StringIn(t)
    case Bad => None
    case Good(value, rest) =>
      match Expect(rest, CLOSE_BRACE)
      case None => None
      case Some(end) => if At(SkipSpaces(end), 0) != NUL then None else Some(value)
  }

  /** `http_parse_message_json`: an object whose one member is "message". The value is shorter than the body. */
  function ParseMessage(body: Text): (r: Option<Text>)
    ensures r.Some? ==> |r.value| < |body|
  {
    match Expect(body, OPEN_BRACE)
    case None => None
    case Some(members) =>
      match StringIn(members)
      case Bad => None
      case Good(key, rest) =>
        match Expect(rest, COLON)
        case None => None
        case Some(value) => if CString(key) != MessageKey() then None else ValueIn(value)
  }

  lemma {:induction false} SpaceStep(s: Text, p: nat)
    requires p <= |s|
    ensures SkipSpaces(s[p..]) == if p < |s| && IsSpace(s[p]) then SkipSpaces(s[p + 1..]) else s[p..]
  {
    if p < |s| {
      assert s[p..][1..] == s[p + 1..];
    }
  }

  /** `http_json_skip_ws`. */
  method SkipWhitespace(s: Text, p0: nat) returns (p: nat)
    requires p0 <= |s|
    ensures p0 <= p <= |s| && s[p..] == SkipSpaces(s[p0..])
  {
    hide SkipSpaces;
    p := p0;
    while At(s, p) != NUL && IsSpace(At(s, p))
      invariant p0 <= p <= |s| && SkipSpaces(s[p..]) == SkipSpaces(s[p0..])
      decreases |s| - p
    {
      SpaceStep(s, p);
      p := p + 1;
    }
    SpaceStep(s, p);
  }

  /** One `skip_ws` and the test of one character. */
  method ReadCharacter(s: Text, p0: nat, c: byte) returns (ok: bool, p: nat)
    requires p0 <= |s| && c != NUL
    ensures p <= |s|
    ensures if ok then Expect(s[p0..], c) == Some(s[p..]) else Expect(s[p0..], c) == None
  {
    hide SkipSpaces;
    p := SkipWhitespace(s, p0);
    ok := At(s, p) == c;
    if ok {
      assert s[p..][1..] == s[p + 1..];
      p := p + 1;
    }
  }

  method ReadSpacedString(s: Text, p0: nat, heap: Heap) returns (ok: bool, text: Text, p: nat)
    requires p0 <= |s| <= OBJECT_MAX
    modifies heap
    ensures ok ==> p <= |s| && StringIn(s[p0..]) == Good(text, s[p..])
    ensures !ok ==> StringIn(s[p0..]).Bad? || heap.failed
    ensures old(heap.failed) ==> heap.failed
  {
    hide SkipSpaces, ParseString;
    p := SkipWhitespace(s, p0);
    ok, text, p := ReadString(s, p, heap);
  }

  /** `http_parse_message_json` from the value on. */
  method ReadValue(s: Text, p0: nat, heap: Heap) returns (ok: bool, value: Text)
    requires p0 <= |s| <= OBJECT_MAX
    modifies heap
    ensures ok ==> ValueIn(s[p0..]) == Some(value)
    ensures !ok ==> ValueIn(s[p0..]).None? || heap.failed
    ensures old(heap.failed) ==> heap.failed
  {
    hide SkipSpaces, ParseString, Expect, StringIn;
    var p;
    ok, value, p := ReadSpacedString(s, p0, heap);
    if !ok {
      return;
    }
    ok, p := ReadCharacter(s, p, CLOSE_BRACE);
    if !ok {
      return;
    }
    p := SkipWhitespace(s, p);
    ok := At(s, p) == NUL;
  }

  /** `http_parse_message_json`: it fails only on a body without a message, or for want of memory. */
  method ReadMessage(body: Text, heap: Heap) returns (ok: bool, message: Text)
    requires |body| <= OBJECT_MAX
    modifies heap
    ensures ok ==> ParseMessage(body) == Some(message)
    ensures !ok ==> ParseMessage(body).None? || heap.failed
  {
    hide SkipSpaces, ParseString, Expect, StringIn, ValueIn;
    message := [];
    ok := heap.Request();
    if !ok {
      return;
    }
    var p;
    assert body[0..] == body;
    ok, p := ReadCharacter(body, 0, OPEN_BRACE);
    if !ok {
      return;
    }
    var key;
    ok, key, p := ReadSpacedString(body, p, heap);
    if !ok {
      return;
    }
    ok, p := ReadCharacter(body, p, COLON);
    if !ok {
      return;
    }
    ok, message := ReadValue(body, p, heap);
    if ok && CString(key) != MessageKey() {
      return false, message;
    }
  }

  // ---------------------------------------------------------------- what a client may write

  predicate Spaces(t: Text) {
    forall k | 0 <= k < |t| :: IsSpace(t[k])
  }

  lemma {:induction false} SpacesSkipped(spaces: Text, rest: Text)
    requires Spaces(spaces) && (rest == [] || !IsSpace(rest[0]))
    ensures SkipSpaces(spaces + rest) == rest
  {
    if spaces == [] {
      assert spaces + rest == rest;
    } else {
      assert (spaces + rest)[1..] == spaces[1..] + rest;
      SpacesSkipped(spaces[1..], rest);
    }
  }

  lemma {:induction false} Expected(spaces: Text, c: byte, rest: Text)
    requires Spaces(spaces) && !IsSpace(c)
    ensures Expect(spaces + [c] + rest, c) == Some(rest)
  {
    hide SkipSpaces;
    assert spaces + [c] + rest == spaces + ([c] + rest);
    SpacesSkipped(spaces, [c] + rest);
    assert ([c] + rest)[1..] == rest;
  }

  function Quoted(ws: seq<Written>): Text
    requires forall w <- ws :: Legal(w)
  {
    [QUOTE] + RenderAll(ws) + [QUOTE]
  }

  lemma {:induction false} StringExpected(spaces: Text, ws: seq<Written>, rest: Text)
    requires Spaces(spaces) && forall w <- ws :: Legal(w)
    ensures StringIn(spaces + Quoted(ws) + rest) == Good(EncodeAll(Meaning(ws)), rest)
  {
    hide SkipSpaces, ParseString, RenderAll;
    var t := [QUOTE] + RenderAll(ws) + [QUOTE] + rest;
    assert spaces + Quoted(ws) + rest == spaces + t;
    SpacesSkipped(spaces, t);
    ParseInvertsEveryWriting(ws, rest);
  }

  /** A request body: spaces anywhere between the tokens, and any legal writing of both strings. */
  function Request(gaps: seq<Text>, key: seq<Written>, value: seq<Written>): Text
    requires |gaps| == 6 && (forall w <- key :: Legal(w)) && (forall w <- value :: Legal(w))
  {
    gaps[0] + [OPEN_BRACE] + (gaps[1] + Quoted(key)
      + (gaps[2] + [COLON] + (gaps[3] + Quoted(value) + (gaps[4] + [CLOSE_BRACE] + gaps[5]))))
  }

  /** Every legal writing of a request is read as the UTF-8 of its characters. */
  lemma {:induction false} EveryRequestIsRead(gaps: seq<Text>, key: seq<Written>, value: seq<Written>)
    requires |gaps| == 6 && (forall k | 0 <= k < 6 :: Spaces(gaps[k]))
    requires (forall w <- key :: Legal(w)) && (forall w <- value :: Legal(w))
    requires EncodeAll(Meaning(key)) == MessageKey()
    ensures ParseMessage(Request(gaps, key, value)) == Some(EncodeAll(Meaning(value)))
  {
    hide SkipSpaces, Expect, StringIn, Quoted, Spaces, EncodeAll, Meaning, ValueIn;
    var rest := gaps[3] + Quoted(value) + (gaps[4] + [CLOSE_BRACE] + gaps[5]);
    var colon := gaps[2] + [COLON] + rest;
    Expected(gaps[0], OPEN_BRACE, gaps[1] + Quoted(key) + colon);
    StringExpected(gaps[1], key, colon);
    Expected(gaps[2], COLON, rest);
    ValueIsRead(gaps[3], value, gaps[4], gaps[5]);
    WholeString(MessageKey());
  }

  lemma {:induction false} ValueIsRead(before: Text, value: seq<Written>, after: Text, end: Text)
    requires Spaces(before) && Spaces(after) && Spaces(end) && forall w <- value :: Legal(w)
    ensures ValueIn(before + Quoted(value) + (after + [CLOSE_BRACE] + end)) == Some(EncodeAll(Meaning(value)))
  {
    hide SkipSpaces, Expect, StringIn, Quoted, Spaces, EncodeAll, Meaning;
    StringExpected(before, value, after + [CLOSE_BRACE] + end);
    Expected(after, CLOSE_BRACE, end);
    assert end + [] == end;
    SpacesSkipped(end, []);
  }

  // ---------------------------------------------------------------- answering

  /** {"has_message": */
  function HasMessage(): Text {
    [0x7B, 0x22, 0x68, 0x61, 0x73, 0x5F, 0x6D, 0x65, 0x73, 0x73, 0x61, 0x67, 0x65, 0x22, 0x3A]
  }

  function Truth(b: bool): Text {
    if b then [0x74, 0x72, 0x75, 0x65] else [0x66, 0x61, 0x6C, 0x73, 0x65]
  }

  /** ,"message": */
  function MessageMember(): Text {
    [0x2C, 0x22, 0x6D, 0x65, 0x73, 0x73, 0x61, 0x67, 0x65, 0x22, 0x3A]
  }

  /** What comes before the message's opening quote. */
  function LatestLead(has: bool): Text {
    HasMessage() + Truth(has) + MessageMember()
  }

  /** The body of the answer to GET. */
  function Latest(message: Option<Text>): Text {
    var escaped := match message case None => [] case Some(m) => Escape(m);
    LatestLead(message.Some?) + [QUOTE] + escaped + [QUOTE, CLOSE_BRACE]
  }

  /** Everything up to the message itself. */
  method AppendLead(buf: Buffer, has: bool, heap: Heap) returns (ok: bool)
    requires buf.Valid() && buf.Contents() == []
    modifies buf, buf.data, heap
    ensures buf.Valid() && (buf.data == old(buf.data) || fresh(buf.data))
    ensures ok ==> buf.Contents() == LatestLead(has) + [QUOTE]
    ensures !ok ==> heap.failed
  {
    hide IsCapacity, Tight, HasMessage, Truth, MessageMember;
    LeadLengths();
    ok := buf.Append(HasMessage(), heap);
    if !ok {
      return;
    }
    ok := buf.Append(Truth(has), heap);
    if !ok {
      return;
    }
    assert buf.Contents() == HasMessage() + Truth(has);
    ok := buf.Append(MessageMember() + [QUOTE], heap);
  }

  /** `http_handle_messages_latest_get` up to the send. */
  method BuildLatest(store: Messages.Store, heap: Heap) returns (ok: bool, body: Text)
    requires Messages.Sound(store.View())
    requires store.message.Some? ==> 6 * |store.message.value| + 0x100 <= OBJECT_MAX
    modifies heap
    ensures ok ==> store.initialized && body == Latest(store.message)
    ensures !ok ==> !store.initialized || heap.failed
  {
    hide Escape, IsCapacity, Tight, LatestLead;
    body := [];
    var message, version;
    ok, message, version := store.GetSnapshot(heap);
    if !ok {
      return;
    }
    var buf := new Buffer();
    LeadLengths();
    ok := AppendLead(buf, message.Some?, heap);
    if !ok {
      return;
    }
    if message.Some? {
      WholeString(message.value);
      ok := AppendEscaped(buf, message.value, heap);
      if !ok {
        return;
      }
    }
    ok := buf.Append([QUOTE, CLOSE_BRACE], heap);
    body := buf.data[..buf.len];
  }

  lemma {:induction false} LeadLengths()
    ensures |HasMessage()| == 15 && |MessageMember()| == 11 && |Truth(true)| == 4 && |Truth(false)| == 5
    ensures |LatestLead(true)| == 30 && |LatestLead(false)| == 31
  {
  }

  datatype Status = Created | BadRequest | ServerError

  /**
   * `http_handle_messages_post` once the body is in: what is stored is the
   * decoded value, trimmed. A body that passed the length check is never
   * refused for its length afterwards.
   */
  method PostMessage(body: Text, store: Messages.Store, heap: Heap) returns (status: Status)
    requires |body| <= MAX_TEXT_MESSAGE_SIZE && Messages.Sound(store.View())
    modifies store, heap
    ensures Messages.Sound(store.View())
    ensures status.Created? ==> ParseMessage(body).Some?
    ensures status.Created? ==>
      store.message.Some? && Trimmed(CString(ParseMessage(body).value), store.message.value)
    ensures store.View() == if status.Created?
      then Messages.AfterSet(old(store.View()), ParseMessage(body).value) else old(store.View())
    ensures status.BadRequest? ==> ParseMessage(body).None? || heap.failed
    ensures status.ServerError? ==> !old(store.initialized) || heap.failed
  {
    hide ParseMessage, Messages.AfterSet;
    var ok, message := ReadMessage(body, heap);
    if !ok {
      return BadRequest;
    }
    Shorter(body);
    var r := SubmitMessage(message, store, heap);
    status := if r.ProtocolOk? then Created else ServerError;
  }

  lemma {:induction false} Shorter(body: Text)
    requires ParseMessage(body).Some?
    ensures |CString(ParseMessage(body).value)| < |body|
  {
  }

  // ---------------------------------------------------------------- end to end

  /**
   * Post, then get: any legal request for the characters cs leads to an answer
   * whose message is read back as cs without its trailing white space. The body
   * of a native message whose text up to the first NUL is the UTF-8 of cs leaves
   * the store, and with it the answer, as the request does.
   */
  lemma {:induction false} MessageIdentity(
    s: Messages.State, gaps: seq<Text>, key: seq<Written>, value: seq<Written>, native: Text)
    requires |gaps| == 6 && (forall k | 0 <= k < 6 :: Spaces(gaps[k]))
    requires (forall w <- key :: Legal(w)) && (forall w <- value :: Legal(w))
    requires EncodeAll(Meaning(key)) == MessageKey() && 0 !in Meaning(value)
    requires CString(native) == EncodeAll(Meaning(value))
    ensures var text := EncodeAll(Meaning(value));
      var trimmed := EncodeAll(DropTrailingWhitespace(Meaning(value)));
      && ParseMessage(Request(gaps, key, value)) == Some(text)
      && Messages.AfterSet(s, text) == AfterStoring(s, [CString(native)])
      && Messages.AfterSet(s, text).message == Some(trimmed)
      && ParseString(Latest(Some(trimmed))[|LatestLead(true)|..]) == Good(trimmed, [CLOSE_BRACE])
  {
    hide Request, ParseMessage, EncodeAll, Escape, ParseString, LatestLead, Trim, DropTrailingWhitespace, Meaning;
    hide AfterStoring, CString;
    EveryRequestIsRead(gaps, key, value);
    StoredOne(s, EncodeAll(Meaning(value)));
    TextIsTrimmed(Meaning(value));
    AnswerReadsBack(EncodeAll(DropTrailingWhitespace(Meaning(value))));
  }

  lemma {:induction false} TextIsTrimmed(cs: seq<Scalar>)
    requires 0 !in cs
    ensures CString(EncodeAll(cs)) == EncodeAll(cs)
    ensures Trim(CString(EncodeAll(cs))) == EncodeAll(DropTrailingWhitespace(cs))
    ensures NUL !in EncodeAll(DropTrailingWhitespace(cs))
  {
    hide EncodeAll, DropTrailingWhitespace, Trim;
    EncodeAllNulFree(cs);
    WholeString(EncodeAll(cs));
    TrimIsCharacterTrim(cs);
    TrimIsPrefix(EncodeAll(cs));
  }

  lemma {:induction false} TrimIsPrefix(s: Text)
    ensures Trim(s) <= s
  {
  }

  lemma {:induction false} AnswerReadsBack(m: Text)
    requires NUL !in m
    ensures ParseString(Latest(Some(m))[|LatestLead(true)|..]) == Good(m, [CLOSE_BRACE])
  {
    hide ParseString, Escape, LatestLead;
    var lead := LatestLead(true);
    assert Latest(Some(m)) == lead + ([QUOTE] + Escape(m) + [QUOTE] + [CLOSE_BRACE]);
    assert Latest(Some(m))[|lead|..] == [QUOTE] + Escape(m) + [QUOTE] + [CLOSE_BRACE];
    ParseInvertsEscape(m, [CLOSE_BRACE]);
  }
}
