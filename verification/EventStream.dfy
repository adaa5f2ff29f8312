/**
 * Server-sent events: the framing of src/http.c against the interpreter of the
 * WHATWG HTML standard, sections 9.2.5 (lines and fields) and 9.2.6 (decoding
 * and dispatch). The fields `id` and `retry` do not influence what is
 * dispatched and are ignored like unknown fields.
 */
module EventStream {
  import opened Bytes
  import opened HttpBuffer
  import opened Utf8
  import opened Utf8Stream

  /** A text as its reader sees it. A sequence of bytes may stand for one: each byte is then a character. */
  type Chars = seq<Scalar>

  /** "event: message\n" */
  function EventLine(): Text {
    [0x65, 0x76, 0x65, 0x6E, 0x74, 0x3A, 0x20, 0x6D, 0x65, 0x73, 0x73, 0x61, 0x67, 0x65, 0x0A]
  }
  /** "data: " */
  function DataPrefix(): Text { [0x64, 0x61, 0x74, 0x61, 0x3A, 0x20] }
  /** ": keep-alive\n\n" */
  function KeepAliveLine(): Text {
    [0x3A, 0x20, 0x6B, 0x65, 0x65, 0x70, 0x2D, 0x61, 0x6C, 0x69, 0x76, 0x65, 0x0A, 0x0A]
  }
  /** "event" */
  const EVENT_FIELD: Text := [0x65, 0x76, 0x65, 0x6E, 0x74]
  /** "data" */
  const DATA_FIELD: Text := [0x64, 0x61, 0x74, 0x61]
  /** "message" */
  const MESSAGE_TYPE: Text := [0x6D, 0x65, 0x73, 0x73, 0x61, 0x67, 0x65]

  // ---------------------------------------------------------------- the standard's interpreter

  /** The complete lines of s; CR, LF and CRLF all end a line, an unfinished last line is dropped. */
  function Lines(s: Chars): seq<Chars>
    decreases |s|
  {
    var n := LineEnd(s);
    if n == |s| then []
    else if s[n] == CR && n + 1 < |s| && s[n + 1] == LF then [s[..n]] + Lines(s[n + 2..])
    else [s[..n]] + Lines(s[n + 1..])
  }

  datatype Event = Event(kind: Chars, data: Chars)

  /** A field value loses one leading space. */
  function FieldValue(s: Chars): Chars {
    if s != [] && s[0] == SPACE then s[1..] else s
  }

  /** The effect of one non-empty line on the data buffer and the event type buffer. */
  function FieldEffect(line: Chars, data: Chars, kind: Chars): (Chars, Chars)
    requires line != []
  {
    var colon := IndexOf(line, COLON);
    var field := line[..colon];
    var value := if colon < |line| then FieldValue(line[colon + 1..]) else [];
    if colon == 0 && line[0] == COLON then (data, kind)
    else if field == EVENT_FIELD then (data, value)
    else if field == DATA_FIELD then (data + value + [LF], kind)
    else (data, kind)
  }

  /** The events dispatched for `lines`, starting with the given buffers. */
  function Interpret(lines: seq<Chars>, data: Chars, kind: Chars): seq<Event> {
    if lines == [] then
      []
    else if lines[0] != [] then
      var (d, k) := FieldEffect(lines[0], data, kind);
      Interpret(lines[1..], d, k)
    else if data == [] then
      Interpret(lines[1..], [], [])
    else
      [Event(if kind == [] then MESSAGE_TYPE else kind,
             if data[|data| - 1] == LF then data[..|data| - 1] else data)]
      + Interpret(lines[1..], [], [])
  }

  /** The events of a decoded stream. */
  function Dispatched(text: Chars): seq<Event> {
    Interpret(Lines(text), [], [])
  }

  /** What a browser hands to the page for a response body. */
  function Received(body: Text): seq<Event> {
    Dispatched(DecodeBody(body))
  }

  // ---------------------------------------------------------------- what the server writes

  /** A message after its first "data: ": every further line gets a prefix of its own. */
  function DataBody(message: Chars): Chars
    decreases |message|
  {
    var n := IndexOf(message, LF);
    if n == |message| then message + [LF]
    else message[..n] + [LF] + DataPrefix() + DataBody(message[n + 1..])
  }

  function EventBytes(message: Chars): Chars {
    EventLine() + DataPrefix() + DataBody(message) + [LF]
  }

  lemma {:induction false} LastLine(before: Chars, rest: Chars)
    requires IndexOf(rest, LF) == |rest|
    ensures before + DataBody(rest) == (before + rest) + [LF]
  {
  }

  lemma {:induction false} NextLine(before: Chars, rest: Chars)
    requires IndexOf(rest, LF) < |rest|
    ensures var n := IndexOf(rest, LF);
      before + DataBody(rest) == (before + (rest[..n] + ([LF] + DataPrefix()))) + DataBody(rest[n + 1..])
  {
    hide DataPrefix;
  }

  lemma {:induction false} PrefixLengths()
    ensures |EventLine()| == 15 && |DataPrefix()| == 6
    ensures CR !in EventLine() && CR !in DataPrefix() && LF !in DataPrefix()
  {
  }

  lemma {:induction false} DataBodyLength(message: Chars)
    ensures |DataBody(message)| <= 7 * |message| + 1
    decreases |message|
  {
    var n := IndexOf(message, LF);
    if n < |message| {
      DataBodyLength(message[n + 1..]);
    }
  }

  /** Two appends in a row, of which the second may fail on its own. */
  method AppendTwo(buf: Buffer, a: Text, b: Text, heap: Heap) returns (ok: bool)
    requires buf.Valid() && buf.len + |a| + |b| + 1 <= OBJECT_MAX
    modifies buf, buf.data, heap
    ensures buf.Valid() && (buf.data == old(buf.data) || fresh(buf.data))
    ensures ok ==> buf.Contents() == old(buf.Contents()) + (a + b)
    ensures !ok ==> heap.failed
    ensures old(heap.failed) ==> heap.failed
  {
    hide IsCapacity, Tight;
    ok := buf.Append(a, heap);
    if ok {
      ok := buf.Append(b, heap);
    }
  }

  /** The loop of `http_send_sse_message_event`, up to and including the last line's feed. */
  method AppendDataBody(buf: Buffer, message: Text, heap: Heap) returns (ok: bool)
    requires buf.Valid() && buf.len + 8 * |message| + 1 <= OBJECT_MAX
    modifies buf, buf.data, heap
    ensures buf.Valid() && (buf.data == old(buf.data) || fresh(buf.data))
    ensures ok ==> buf.Contents() + [LF] == old(buf.Contents()) + DataBody(message)
    ensures !ok ==> heap.failed
    ensures old(heap.failed) ==> heap.failed
  {
    hide DataBody, IsCapacity, Tight, EventLine, DataPrefix;
    PrefixLengths();
    var line := 0;
    assert message[line..] == message;
    while true
      invariant line <= |message| && buf.Valid() && (buf.data == old(buf.data) || fresh(buf.data))
      invariant buf.len <= old(buf.len) + 7 * line
      invariant buf.Contents() + DataBody(message[line..]) == old(buf.Contents()) + DataBody(message)
      invariant old(heap.failed) ==> heap.failed
      decreases |message| - line
    {
      ghost var before := buf.Contents();
      var rest := message[line..];
      var n := IndexOf(rest, LF);
      if n == |rest| {
        LastLine(before, rest);
        ok := buf.Append(rest, heap);
        return;
      }
      NextLine(before, rest);
      ok := AppendTwo(buf, rest[..n], [LF] + DataPrefix(), heap);
      if !ok {
        return;
      }
      assert rest[n + 1..] == message[line + n + 1..];
      line := line + n + 1;
    }
  }

  /** `http_send_sse_message_event` up to the send. */
  method BuildMessageEvent(message: Text, heap: Heap) returns (ok: bool, event: Text)
    requires 8 * |message| + 64 <= OBJECT_MAX
    modifies heap
    ensures ok ==> event == EventBytes(CString(message))
    ensures !ok ==> heap.failed
    ensures old(heap.failed) ==> heap.failed
  {
    hide DataBody, IsCapacity, Tight, EventLine, DataPrefix;
    event := [];
    var buf := new Buffer();
    PrefixLengths();
    ok := AppendTwo(buf, EventLine(), DataPrefix(), heap);
    if !ok {
      return;
    }
    assert buf.Contents() == EventLine() + DataPrefix();
    var text := CString(message);
    ok := AppendDataBody(buf, text, heap);
    if !ok {
      return;
    }
    ghost var body := buf.Contents();
    DataBodyLength(text);
    assert |body + [LF]| == |EventLine() + DataPrefix()| + |DataBody(text)|;
    ok := buf.Append([LF, LF], heap);
    assert body + [LF, LF] == body + [LF] + [LF];
    if ok {
      event := buf.data[..buf.len];
    }
  }

  // ---------------------------------------------------------------- round trip

  lemma {:induction false} LinesCons(line: Chars, rest: Chars)
    requires CR !in line && LF !in line
    ensures Lines(line + [LF] + rest) == [line] + Lines(rest)
  {
    var s := line + [LF] + rest;
    LineEndIs(s, |line|);
    assert s[..|line|] == line && s[|line| + 1..] == rest;
  }

  lemma {:induction false} DataLineEffect(line: Chars, data: Chars, kind: Chars)
    ensures FieldEffect(DataPrefix() + line, data, kind) == (data + line + [LF], kind)
  {
    var s := DataPrefix() + line;
    IndexOfIs(s, COLON, 4);
    assert s[..4] == DATA_FIELD;
    assert s[5..] == [SPACE] + line;
    assert FieldValue(s[5..]) == line;
  }

  lemma {:induction false} EventLineParts()
    ensures EventLine()[..14] == EVENT_FIELD + [COLON] + ([SPACE] + MESSAGE_TYPE)
  {
  }

  lemma {:induction false} EventLineEffect(data: Chars, kind: Chars)
    ensures FieldEffect(EventLine()[..14], data, kind) == (data, MESSAGE_TYPE)
  {
    EventLineParts();
    var value: Chars := [SPACE] + MESSAGE_TYPE;
    var s: Chars := EVENT_FIELD + [COLON] + value;
    assert COLON !in EVENT_FIELD;
    IndexOfIs(s, COLON, 5);
    assert s[..5] == EVENT_FIELD;
    assert s[6..] == value;
    assert FieldValue(value) == MESSAGE_TYPE;
  }

  lemma {:induction false} InterpretCons(line: Chars, next: Chars, data: Chars, kind: Chars)
    requires CR !in line && LF !in line && line != []
    ensures Interpret(Lines(line + [LF] + next), data, kind)
         == Interpret(Lines(next), FieldEffect(line, data, kind).0, FieldEffect(line, data, kind).1)
  {
    hide FieldEffect, Lines;
    LinesCons(line, next);
    assert ([line] + Lines(next))[1..] == Lines(next);
  }

  /** A blank line dispatches what is buffered. */
  lemma {:induction false} BlankLine(rest: Chars, message: Chars)
    ensures Interpret(Lines([LF] + rest), message + [LF], MESSAGE_TYPE)
         == [Event(MESSAGE_TYPE, message)] + Dispatched(rest)
    ensures Interpret(Lines([LF] + rest), [], []) == Dispatched(rest)
  {
    hide FieldEffect, Lines;
    assert [] + [LF] + rest == [LF] + rest;
    LinesCons([], rest);
    assert ([[]] + Lines(rest))[1..] == Lines(rest);
    var buffered := message + [LF];
    assert buffered[..|buffered| - 1] == message;
  }

  /** The data lines of one message, with some data already buffered. */
  lemma {:induction false} MessageInterpreted(message: Chars, data: Chars, rest: Chars)
    requires CR !in message
    ensures Interpret(Lines(DataPrefix() + DataBody(message) + [LF] + rest), data, MESSAGE_TYPE)
         == [Event(MESSAGE_TYPE, data + message)] + Dispatched(rest)
    decreases |message|
  {
    hide FieldEffect, Lines, Interpret, Dispatched, DataBody, EventLine, DataPrefix;
    PrefixLengths();
    var n := IndexOf(message, LF);
    var line := DataPrefix() + message[..n];
    DataLineEffect(message[..n], data, MESSAGE_TYPE);
    if n == |message| {
      assert message[..n] == message;
      LastLine(DataPrefix(), message);
      assert (line + [LF]) + [LF] + rest == line + [LF] + ([LF] + rest);
      InterpretCons(line, [LF] + rest, data, MESSAGE_TYPE);
      BlankLine(rest, data + message);
    } else {
      var tail := message[n + 1..];
      var next := DataPrefix() + DataBody(tail) + [LF] + rest;
      NextLine(DataPrefix(), message);
      assert ((DataPrefix() + (message[..n] + ([LF] + DataPrefix()))) + DataBody(tail)) + [LF] + rest
          == line + [LF] + next;
      InterpretCons(line, next, data, MESSAGE_TYPE);
      MessageInterpreted(tail, data + message[..n] + [LF], rest);
      assert data + message[..n] + [LF] + tail == data + message;
    }
  }

  lemma {:induction false} EventInterpreted(message: Chars, rest: Chars)
    requires CR !in message
    ensures Dispatched(EventBytes(message) + rest) == [Event(MESSAGE_TYPE, message)] + Dispatched(rest)
  {
    hide FieldEffect, Lines, DataBody, Interpret;
    var line := EventLine()[..14];
    var next := DataPrefix() + DataBody(message) + [LF] + rest;
    assert EventBytes(message) + rest == line + [LF] + next;
    InterpretCons(line, next, [], []);
    EventLineEffect([], []);
    MessageInterpreted(message, [], rest);
    assert [] + message == message;
  }

  lemma {:induction false} KeepAliveIgnored(rest: Chars)
    ensures Dispatched(KeepAliveLine() + rest) == Dispatched(rest)
  {
    hide Lines, Interpret;
    var line := KeepAliveLine()[..12];
    assert KeepAliveLine() + rest == line + [LF] + ([LF] + rest);
    InterpretCons(line, [LF] + rest, [], []);
    BlankLine(rest, []);
  }

  /** What one stream sends: messages, as bytes or as characters, with keep-alives anywhere between them. */
  datatype Chunk<+T> = Message(text: seq<T>) | KeepAlive

  function StreamOf(chunks: seq<Chunk<Scalar>>): Chars {
    if chunks == [] then []
    else (if chunks[0].Message? then EventBytes(chunks[0].text) else KeepAliveLine()) + StreamOf(chunks[1..])
  }

  function Messages(chunks: seq<Chunk<Scalar>>): seq<Event> {
    if chunks == [] then []
    else (if chunks[0].Message? then [Event(MESSAGE_TYPE, chunks[0].text)] else []) + Messages(chunks[1..])
  }

  predicate CrFreeText(chunks: seq<Chunk<Scalar>>) {
    forall c <- chunks :: c.Message? ==> CR !in c.text
  }

  lemma {:induction false} CrFreeRoundTrip(chunks: seq<Chunk<Scalar>>)
    requires CrFreeText(chunks)
    ensures Dispatched(StreamOf(chunks)) == Messages(chunks)
  {
    hide Dispatched, EventBytes;
    if chunks == [] {
      EmptyBody();
    } else {
      CrFreeRoundTrip(chunks[1..]);
      match chunks[0]
      case Message(text) => EventInterpreted(text, StreamOf(chunks[1..]));
      case KeepAlive => KeepAliveIgnored(StreamOf(chunks[1..]));
    }
  }

  lemma {:induction false} EmptyBody()
    ensures Dispatched([]) == []
  {
  }

  lemma {:induction false} LinesHaveNoCr(s: Chars)
    ensures forall line <- Lines(s) :: CR !in line
    decreases |s|
  {
    var n := LineEnd(s);
    if n < |s| {
      LinesHaveNoCr(s[n + 1..]);
      if n + 1 < |s| {
        LinesHaveNoCr(s[n + 2..]);
      }
    }
  }

  /** The interpreter never dispatches a carriage return: each one ended a line. */
  lemma {:induction false} NoCrDispatched(lines: seq<Chars>, data: Chars, kind: Chars)
    requires CR !in data && forall line <- lines :: CR !in line
    ensures forall e <- Interpret(lines, data, kind) :: CR !in e.data
  {
    if lines != [] {
      if lines[0] != [] {
        var (d, k) := FieldEffect(lines[0], data, kind);
        assert CR !in lines[0];
        assert CR !in d;
        NoCrDispatched(lines[1..], d, k);
      } else {
        NoCrDispatched(lines[1..], [], []);
      }
    }
  }

  lemma {:induction false} LinesStep(s: Chars)
    requires LineEnd(s) < |s| && s[LineEnd(s)] == LF
    ensures Lines(s) == [s[..LineEnd(s)]] + Lines(s[LineEnd(s) + 1..])
  {
  }

  lemma {:induction false} NoLines(s: Chars)
    requires LineEnd(s) == |s|
    ensures Lines(s) == []
  {
  }

  /** When a text is cut anywhere, the lines already complete stay as they are. */
  lemma {:induction false} CutLines(s: Chars, t: Chars)
    requires s <= t && CR !in t
    ensures Lines(s) <= Lines(t)
    decreases |s|
  {
    hide Lines;
    if LineEnd(s) == |s| {
      NoLines(s);
    }
    var n := LineEnd(s);
    if n < |s| {
      LineEndIs(t, n);
      assert s[n] in t;
      assert s[..n] == t[..n] && LineEnd(t) == n;
      LinesStep(s);
      LinesStep(t);
      CutLines(s[n + 1..], t[n + 1..]);
    }
  }

  lemma {:induction false} CutInterpreted(a: seq<Chars>, b: seq<Chars>, data: Chars, kind: Chars)
    requires a <= b
    ensures Interpret(a, data, kind) <= Interpret(b, data, kind)
  {
    hide FieldEffect;
    if a != [] {
      if a[0] != [] {
        var (d, k) := FieldEffect(a[0], data, kind);
        CutInterpreted(a[1..], b[1..], d, k);
      } else {
        CutInterpreted(a[1..], b[1..], [], []);
      }
    }
  }

  lemma {:induction false} DataBodyHasNoCr(message: Chars)
    requires CR !in message
    ensures CR !in DataBody(message)
    decreases |message|
  {
    hide DataPrefix, IndexOf;
    PrefixLengths();
    var n := IndexOf(message, LF);
    if n < |message| {
      var rest := message[n + 1..];
      assert CR !in message[..n] && CR !in rest;
      DataBodyHasNoCr(rest);
    }
  }

  lemma {:induction false} StreamHasNoCr(chunks: seq<Chunk<Scalar>>)
    requires CrFreeText(chunks)
    ensures CR !in StreamOf(chunks)
  {
    hide EventLine, DataPrefix, DataBody;
    if chunks != [] {
      PrefixLengths();
      StreamHasNoCr(chunks[1..]);
      if chunks[0].Message? {
        DataBodyHasNoCr(chunks[0].text);
      }
    }
  }

  // ---------------------------------------------------------------- bytes and characters

  lemma {:induction false} DataBodyIsBytes(message: Text)
    ensures forall c <- DataBody(message) :: c < 0x100
    decreases |message|
  {
    hide DataPrefix;
    var n := IndexOf(message, LF);
    if n < |message| {
      DataBodyIsBytes(message[n + 1..]);
    }
  }

  /** Each byte as a character of its own. */
  function AsChars(chunks: seq<Chunk<byte>>): (r: seq<Chunk<Scalar>>)
    ensures |r| == |chunks|
  {
    if chunks == [] then []
    else
      (match chunks[0]
       case Message(text) => [Message(text)]
       case KeepAlive => [KeepAlive])
      + AsChars(chunks[1..])
  }

  lemma {:induction false} StreamIsBytes(chunks: seq<Chunk<byte>>)
    ensures forall c <- StreamOf(AsChars(chunks)) :: c < 0x100
  {
    hide DataBody, EventLine, DataPrefix, KeepAliveLine;
    if chunks != [] {
      StreamIsBytes(chunks[1..]);
      if chunks[0].Message? {
        DataBodyIsBytes(chunks[0].text);
      }
    }
  }

  function ToBytes(s: Chars): (r: Text)
    requires forall c <- s :: c < 0x100
    ensures r == s
  {
    if s == [] then []
    else
      assert forall k | 0 <= k < |s| :: s[k] in s;
      [s[0]] + ToBytes(s[1..])
  }

  /** The bytes of a stream. */
  function BytesSent(chunks: seq<Chunk<byte>>): (r: Text)
    ensures r == StreamOf(AsChars(chunks))
  {
    StreamIsBytes(chunks);
    ToBytes(StreamOf(AsChars(chunks)))
  }

  predicate CrFree(chunks: seq<Chunk<byte>>) {
    forall c <- chunks :: c.Message? ==> CR !in c.text
  }

  /** The characters that the bytes of the messages spell. */
  ghost predicate Spells(ds: seq<Chunk<Scalar>>, chunks: seq<Chunk<byte>>) {
    && |ds| == |chunks|
    && forall k | 0 <= k < |chunks| ::
         (ds[k].KeepAlive? <==> chunks[k].KeepAlive?)
         && (chunks[k].Message? ==> EncodeAll(ds[k].text) == chunks[k].text)
  }

  ghost predicate IsUtf8(t: Text) {
    exists cs: Chars :: EncodeAll(cs) == t
  }

  ghost predicate WellFormed(chunks: seq<Chunk<byte>>) {
    forall c <- chunks :: c.Message? ==> IsUtf8(c.text)
  }

  lemma {:induction false} EncodeAscii(t: Text)
    requires forall k | 0 <= k < |t| :: t[k] < 0x80
    ensures EncodeAll(t) == t
  {
    if t != [] {
      EncodeShort(t[0]);
      EncodeAscii(t[1..]);
      assert t == [t[0]] + t[1..];
    }
  }

  /** The prefixes are put between the same lines, whether the message is taken as characters or as bytes. */
  lemma {:induction false} DataBodyEncoded(cs: Chars)
    ensures DataBody(EncodeAll(cs)) == EncodeAll(DataBody(cs))
    decreases |cs|
  {
    hide EncodeAll, DataPrefix;
    var n := IndexOf(cs, LF);
    EncodedIndex(cs, LF);
    EncodeOne(LF);
    if n == |cs| {
      EncodeAllConcat(cs, [LF]);
    } else {
      var first, rest := cs[..n], cs[n + 1..];
      var m := |EncodeAll(first)|;
      assert EncodeAll(cs)[m + 1..] == EncodeAll(rest);
      DataBodyEncoded(rest);
      PrefixIsAscii();
      EncodeAllConcat(first + [LF] + DataPrefix(), DataBody(rest));
      EncodeAllConcat(first + [LF], DataPrefix());
      EncodeAllConcat(first, [LF]);
    }
  }

  lemma {:induction false} PrefixIsAscii()
    ensures EncodeAll(DataPrefix()) == DataPrefix() && EncodeAll(EventLine()) == EventLine()
    ensures EncodeAll(KeepAliveLine()) == KeepAliveLine()
  {
    hide EncodeAll;
    EncodeAscii(DataPrefix());
    EncodeAscii(EventLine());
    EncodeAscii(KeepAliveLine());
  }

  lemma {:induction false} EventEncoded(cs: Chars)
    ensures EventBytes(EncodeAll(cs)) == EncodeAll(EventBytes(cs))
  {
    hide EncodeAll, DataPrefix, EventLine, DataBody;
    PrefixIsAscii();
    EncodeOne(LF);
    DataBodyEncoded(cs);
    EncodeAllConcat(EventLine() + DataPrefix() + DataBody(cs), [LF]);
    EncodeAllConcat(EventLine() + DataPrefix(), DataBody(cs));
    EncodeAllConcat(EventLine(), DataPrefix());
  }

  lemma {:induction false} StreamEncoded(ds: seq<Chunk<Scalar>>, chunks: seq<Chunk<byte>>)
    requires Spells(ds, chunks)
    ensures StreamOf(AsChars(chunks)) == EncodeAll(StreamOf(ds))
  {
    hide EventBytes, KeepAliveLine;
    if chunks == [] {
      assert EncodeAll([]) == [];
    } else {
      StreamEncoded(ds[1..], chunks[1..]);
      PrefixIsAscii();
      if chunks[0].Message? {
        EventEncoded(ds[0].text);
        EncodeAllConcat(EventBytes(ds[0].text), StreamOf(ds[1..]));
      } else {
        EncodeAllConcat(KeepAliveLine(), StreamOf(ds[1..]));
      }
    }
  }

  lemma {:induction false} SpellingExists(chunks: seq<Chunk<byte>>) returns (ds: seq<Chunk<Scalar>>)
    requires WellFormed(chunks)
    ensures Spells(ds, chunks)
  {
    hide EncodeAll;
    if chunks == [] {
      ds := [];
    } else {
      ds := SpellingExists(chunks[1..]);
      if chunks[0].Message? {
        assert IsUtf8(chunks[0].text);
        var cs: Chars :| EncodeAll(cs) == chunks[0].text;
        ds := [Message(cs)] + ds;
      } else {
        ds := [KeepAlive] + ds;
      }
    }
  }

  lemma {:induction false} SpelledCr(ds: seq<Chunk<Scalar>>, chunks: seq<Chunk<byte>>)
    requires Spells(ds, chunks)
    ensures CrFreeText(ds) <==> CrFree(chunks)
  {
    hide EncodeAll;
    forall k | 0 <= k < |chunks| && chunks[k].Message? ensures CR in chunks[k].text <==> CR in ds[k].text {
      AsciiIsItself(ds[k].text, CR);
    }
    assert forall k | 0 <= k < |chunks| :: chunks[k] in chunks && ds[k] in ds;
  }

  lemma {:induction false} NoMark(chunks: seq<Chunk<byte>>, sent: Text)
    requires sent <= BytesSent(chunks)
    ensures DecodeBody(sent) == DecodePieces(sent)
  {
    if sent != [] {
      assert sent[0] == 0x65 || sent[0] == 0x3A;
    }
  }

  /** A well-formed stream is decoded to the stream of its characters. */
  lemma {:induction false} StreamDecoded(ds: seq<Chunk<Scalar>>, chunks: seq<Chunk<byte>>)
    requires Spells(ds, chunks)
    ensures DecodeBody(BytesSent(chunks)) == StreamOf(ds)
  {
    hide EncodeAll, StreamOf, DecodePieces, DecodeBody;
    NoMark(chunks, BytesSent(chunks));
    StreamEncoded(ds, chunks);
    DecodesEncodedText(StreamOf(ds), []);
    NothingDecodes();
    assert EncodeAll(StreamOf(ds)) + [] == EncodeAll(StreamOf(ds)) && StreamOf(ds) + [] == StreamOf(ds);
  }

  /** The messages among the chunks. */
  function Texts(chunks: seq<Chunk<byte>>): seq<Text> {
    if chunks == [] then []
    else (if chunks[0].Message? then [chunks[0].text] else []) + Texts(chunks[1..])
  }

  /** The page gets one event for each message, in order, and the UTF-8 of its characters is that message. */
  predicate Delivered(chunks: seq<Chunk<byte>>) {
    var events, texts := Received(BytesSent(chunks)), Texts(chunks);
    && |events| == |texts|
    && forall k | 0 <= k < |texts| :: events[k].kind == MESSAGE_TYPE && EncodeAll(events[k].data) == texts[k]
  }

  /**
   * Every message reaches the page, whatever keep-alives stand between them, if
   * and only if every message is UTF-8 and none has a carriage return in it.
   * Line feeds and empty messages are no exception.
   */
  lemma {:induction false} RoundTripExactly(chunks: seq<Chunk<byte>>)
    ensures Delivered(chunks) <==> WellFormed(chunks) && CrFree(chunks)
  {
    hide EncodeAll, StreamOf, DecodeBody, Dispatched, Texts;
    if WellFormed(chunks) && CrFree(chunks) {
      var ds := SpellingExists(chunks);
      SpelledCr(ds, chunks);
      StreamDecoded(ds, chunks);
      CrFreeRoundTrip(ds);
      MessagesSpelled(ds, chunks);
    }
    if Delivered(chunks) {
      var events := Received(BytesSent(chunks));
      NoCrReceived(BytesSent(chunks));
      forall c <- chunks | c.Message? ensures IsUtf8(c.text) && CR !in c.text {
        var k := TextListed(chunks, c);
        assert EncodeAll(events[k].data) == c.text;
        AsciiIsItself(events[k].data, CR);
      }
    }
  }

  lemma {:induction false} MessagesSpelled(ds: seq<Chunk<Scalar>>, chunks: seq<Chunk<byte>>)
    requires Spells(ds, chunks)
    ensures |Messages(ds)| == |Texts(chunks)|
    ensures forall k | 0 <= k < |Texts(chunks)| ::
      Messages(ds)[k].kind == MESSAGE_TYPE && EncodeAll(Messages(ds)[k].data) == Texts(chunks)[k]
  {
    hide EncodeAll;
    if chunks != [] {
      MessagesSpelled(ds[1..], chunks[1..]);
    }
  }

  lemma {:induction false} TextListed(chunks: seq<Chunk<byte>>, c: Chunk<byte>) returns (k: nat)
    requires c in chunks && c.Message?
    ensures k < |Texts(chunks)| && Texts(chunks)[k] == c.text
  {
    if chunks[0] == c {
      k := 0;
    } else {
      k := TextListed(chunks[1..], c);
      k := k + if chunks[0].Message? then 1 else 0;
    }
  }

  /** No body at all makes a page receive a carriage return. */
  lemma {:induction false} NoCrReceived(body: Text)
    ensures forall e <- Received(body) :: CR !in e.data
  {
    hide Interpret, Lines, DecodeBody;
    LinesHaveNoCr(DecodeBody(body));
    NoCrDispatched(Lines(DecodeBody(body)), [], []);
  }

  /** A message that the native protocol lets through, and that no page receives as it is. */
  lemma {:induction false} ByteThatIsNoText()
    ensures !IsUtf8([0xFF]) && CrFree([Message([0xFF])]) && !WellFormed([Message([0xFF])])
  {
    forall cs: Chars ensures EncodeAll(cs) != [0xFF] {
      if cs != [] {
        assert Encode(cs[0])[0] != 0xFF;
      }
    }
    assert Message([0xFF]) in [Message([0xFF])];
  }

  /** What is replaced at the end of a cut stream is in a line that was never finished. */
  lemma {:induction false} UnfinishedLineIsIgnored(s: Chars, junk: Chars)
    requires CR !in s && CR !in junk && LF !in junk
    ensures Lines(s + junk) == Lines(s)
    decreases |s|
  {
    hide Lines;
    var n := LineEnd(s);
    if n == |s| {
      LineEndIs(s + junk, |s + junk|);
      NoLines(s);
      NoLines(s + junk);
    } else {
      assert s[n] in s;
      LineEndIs(s + junk, n);
      LinesStep(s);
      LinesStep(s + junk);
      assert (s + junk)[..n] == s[..n] && (s + junk)[n + 1..] == s[n + 1..] + junk;
      UnfinishedLineIsIgnored(s[n + 1..], junk);
    }
  }

  /**
   * A stream cut off after any byte, in the middle of a character or not,
   * delivers a prefix of the messages, never a damaged one.
   */
  lemma {:induction false} CutStreamDeliversPrefix(ds: seq<Chunk<Scalar>>, chunks: seq<Chunk<byte>>, sent: Text)
    requires Spells(ds, chunks) && CrFree(chunks) && sent <= BytesSent(chunks)
    ensures Received(sent) <= Messages(ds)
  {
    hide EncodeAll, StreamOf, DecodePieces, DecodeBody, Lines, Interpret;
    var all := StreamOf(ds);
    SpelledCr(ds, chunks);
    StreamEncoded(ds, chunks);
    NoMark(chunks, sent);
    var k, junk := CutText(all, sent);
    StreamHasNoCr(ds);
    UnfinishedLineIsIgnored(all[..k], junk);
    CutLines(all[..k], all);
    CutInterpreted(Lines(all[..k]), Lines(all), [], []);
    CrFreeRoundTrip(ds);
  }
}
