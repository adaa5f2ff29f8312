/**
 * JSON strings (RFC 8259 section 7) as src/http.c reads and writes them. The
 * grammar is a function of the text still to be read; the methods walk an
 * index over a NUL-terminated buffer, where `At(s, |s|)` is the terminator and
 * every read is at an index of at most `|s|`.
 */
module JsonString {
  import opened Bytes
  import opened HttpBuffer
  import opened Utf8

  const LETTER_B: byte := 0x62
  const LETTER_F: byte := 0x66
  const LETTER_N: byte := 0x6E
  const LETTER_R: byte := 0x72
  const LETTER_T: byte := 0x74
  const LETTER_U: byte := 0x75

  // ---------------------------------------------------------------- hex

  /** The value of the four hex digits t starts with, if there are four. */
  function Hex4(t: Text): (r: Option<nat>)
    ensures r.Some? ==> |t| >= 4 && r.value <= 0xFFFF
  {
    if |t| >= 4 && IsHex(t[0]) && IsHex(t[1]) && IsHex(t[2]) && IsHex(t[3]) then
      Some(0x1000 * HexValue(t[0]) + 0x100 * HexValue(t[1]) + 0x10 * HexValue(t[2]) + HexValue(t[3]))
    else
      None
  }

  /** v as four hex digits, each in the case asked for. */
  function HexDigits(v: nat, upper: seq<bool>): (r: Text)
    requires v <= 0xFFFF && |upper| == 4
    ensures |r| == 4
  {
    [HexDigit(v / 0x1000, upper[0]), HexDigit(v / 0x100 % 0x10, upper[1]),
     HexDigit(v / 0x10 % 0x10, upper[2]), HexDigit(v % 0x10, upper[3])]
  }

  lemma {:induction false} Hex4Digits(v: nat, upper: seq<bool>, rest: Text)
    requires v <= 0xFFFF && |upper| == 4
    ensures Hex4(HexDigits(v, upper) + rest) == Some(v)
  {
    HexSplit(v);
    hide HexDigit, HexValue;
  }

  lemma {:induction false} HexSplit(v: nat)
    ensures v == 0x1000 * (v / 0x1000) + 0x100 * (v / 0x100 % 0x10) + 0x10 * (v / 0x10 % 0x10) + v % 0x10
  {
    var a := v / 0x10;
    var b := a / 0x10;
    assert b == v / 0x100 && b / 0x10 == v / 0x1000;
  }

  // ---------------------------------------------------------------- reading

  /** What was read, and the text left to read. */
  datatype Parsed = Bad | Good(text: Text, rest: Text)

  function Prepend(t: Text, p: Parsed): Parsed {
    match p
    case Bad => Bad
    case Good(text, rest) => Good(t + text, rest)
  }

  predicate IsHighSurrogate(u: nat) { 0xD800 <= u <= 0xDBFF }

  predicate IsLowSurrogate(u: nat) { 0xDC00 <= u <= 0xDFFF }

  /** The low surrogate escape t starts with, if there is one. */
  function LowSurrogate(t: Text): (r: Option<nat>)
    ensures r.Some? ==> |t| >= 6 && IsLowSurrogate(r.value)
  {
    if |t| < 2 || t[0] != BACKSLASH || t[1] != LETTER_U then None else
    match Hex4(t[2..])
    case Some(u) => if IsLowSurrogate(u) then Some(u) else None
    case None => None
  }

  /** The character after the backslash, for the two-character escapes. */
  function ShortEscape(c: byte): Option<byte> {
    if c == QUOTE || c == BACKSLASH || c == SLASH then Some(c)
    else if c == LETTER_B then Some(BACKSPACE)
    else if c == LETTER_F then Some(FORM_FEED)
    else if c == LETTER_N then Some(LF)
    else if c == LETTER_R then Some(CR)
    else if c == LETTER_T then Some(TAB)
    else None
  }

  /** One escape, after its backslash. */
  function ParseEscape(t: Text): (r: Parsed)
    ensures r.Good? ==> |r.rest| < |t|
    ensures r.Good? ==> |r.text| + |r.rest| <= |t|
  {
    if t == [] then
      Bad
    else if ShortEscape(t[0]).Some? then
      Good([ShortEscape(t[0]).value], t[1..])
    else if t[0] != LETTER_U then
      Bad
    else
      match Hex4(t[1..])
      case None => Bad
      case Some(u) =>
        if IsHighSurrogate(u) then
          match LowSurrogate(t[5..])
          case None => Bad
          case Some(low) => Good(Encode(0x10000 + (0x400 * (u - 0xD800) + (low - 0xDC00))), t[11..])
        else if IsLowSurrogate(u) then
          Bad
        else
          EncodeUnitLength(u);
          Good(Encode(u), t[5..])
  }

  lemma {:induction false} EncodeUnitLength(u: nat)
    requires u <= 0xFFFF
    ensures |Encode(u)| <= 3
  {
  }

  /** One character of a string: an escape, or a byte that stands for itself. */
  function ParseOne(t: Text): (r: Parsed)
    requires t != []
    ensures r.Good? ==> |r.rest| < |t|
    ensures r.Good? ==> |r.text| + |r.rest| <= |t|
  {
    if t[0] == BACKSLASH then ParseEscape(t[1..]) else Good([t[0]], t[1..])
  }

  /** A string after its opening quote. The value is never longer than the text it was written as. */
  function ParseBody(t: Text): (r: Parsed)
    ensures r.Good? ==> |r.rest| < |t|
    ensures r.Good? ==> |r.text| + |r.rest| < |t|
    decreases |t|
  {
    if t == [] || t[0] == NUL then
      Bad
    else if t[0] == QUOTE then
      Good([], t[1..])
    else
      match ParseOne(t)
      case Bad => Bad
      case Good(text, rest) => Prepend(text, ParseBody(rest))
  }

  function ParseString(t: Text): Parsed {
    if t == [] || t[0] != QUOTE then Bad else ParseBody(t[1..])
  }

  lemma {:induction false} PrependTwice(a: Text, b: Text, p: Parsed)
    ensures Prepend(a, Prepend(b, p)) == Prepend(a + b, p)
    ensures Prepend(a, Bad) == Bad
  {
    if p.Good? {
      assert a + (b + p.text) == (a + b) + p.text;
    }
  }

  /** `http_json_parse_hex4`. */
  method ReadHex4(s: Text, p: nat) returns (ok: bool, value: nat)
    requires p <= |s|
    ensures ok <==> Hex4(s[p..]).Some?
    ensures ok ==> Hex4(s[p..]) == Some(value)
  {
    value := 0;
    var i := 0;
    while i < 4
      invariant 0 <= i <= 4 && p + i <= |s|
      invariant forall k | p <= k < p + i :: IsHex(s[k])
      invariant i == 0 ==> value == 0
      invariant i == 1 ==> value == HexValue(s[p])
      invariant i == 2 ==> value == 0x10 * HexValue(s[p]) + HexValue(s[p + 1])
      invariant i == 3 ==> value == 0x100 * HexValue(s[p]) + 0x10 * HexValue(s[p + 1]) + HexValue(s[p + 2])
      invariant i == 4 ==> Hex4(s[p..]) == Some(value)
    {
      var ch := At(s, p + i);
      if !IsHex(ch) {
        return false, 0;
      }
      // The source computes in 16 bits; four digits never overflow them.
      value := value * 16 + HexValue(ch);
      i := i + 1;
    }
    ok := true;
  }

  /** The part of `http_json_parse_string` that follows a backslash. */
  method ReadEscape(s: Text, p0: nat, buf: Buffer, heap: Heap) returns (ok: bool, p: nat)
    requires p0 <= |s| <= OBJECT_MAX
    requires buf.Valid() && buf.len <= p0
    modifies buf, buf.data, heap
    ensures buf.Valid() && (buf.data == old(buf.data) || fresh(buf.data))
    ensures ok ==> ParseEscape(s[p0..]).Good? && p <= |s| && s[p..] == ParseEscape(s[p0..]).rest
    ensures ok ==> buf.Contents() == old(buf.Contents()) + ParseEscape(s[p0..]).text
    ensures !ok ==> ParseEscape(s[p0..]).Bad? || heap.failed
    ensures ok ==> heap.failed == old(heap.failed)
    ensures old(heap.failed) ==> heap.failed
  {
    hide Encode, Hex4, IsCapacity, Tight;
    p := p0;
    var ch := At(s, p);
    p := p + 1;
    if ShortEscape(ch).Some? {
      ok := buf.Append([ShortEscape(ch).value], heap);
    } else if ch == LETTER_U {
      var read, codeUnit := ReadHex4(s, p);
      if !read {
        return false, p;
      }
      p := p + 4;
      var codePoint: nat := codeUnit;
      if IsHighSurrogate(codeUnit) {
        if At(s, p) != BACKSLASH || At(s, p + 1) != LETTER_U {
          return false, p;
        }
        var readLow, low := ReadHex4(s, p + 2);
        if !readLow || !IsLowSurrogate(low) {
          return false, p;
        }
        codePoint := 0x10000 + (0x400 * (codeUnit - 0xD800) + (low - 0xDC00));
        p := p + 6;
      } else if IsLowSurrogate(codeUnit) {
        return false, p;
      }
      ok := AppendUtf8(buf, codePoint, heap);
    } else {
      ok := false;
    }
  }

  /** The body of the loop of `http_json_parse_string`. */
  method ReadOne(s: Text, p0: nat, buf: Buffer, heap: Heap) returns (ok: bool, p: nat)
    requires p0 < |s| <= OBJECT_MAX
    requires buf.Valid() && buf.len <= p0
    modifies buf, buf.data, heap
    ensures buf.Valid() && (buf.data == old(buf.data) || fresh(buf.data))
    ensures ok ==> ParseOne(s[p0..]).Good? && p0 < p <= |s| && s[p..] == ParseOne(s[p0..]).rest
    ensures ok ==> buf.Contents() == old(buf.Contents()) + ParseOne(s[p0..]).text
    ensures ok ==> buf.len - old(buf.len) <= p - p0
    ensures !ok ==> ParseOne(s[p0..]).Bad? || heap.failed
    ensures ok ==> heap.failed == old(heap.failed)
    ensures old(heap.failed) ==> heap.failed
  {
    hide ParseEscape;
    assert s[p0..][1..] == s[p0 + 1..];
    var ch := s[p0];
    if ch == BACKSLASH {
      ok, p := ReadEscape(s, p0 + 1, buf, heap);
    } else {
      ok := buf.Append([ch], heap);
      p := p0 + 1;
    }
  }

  /** One step of the grammar at index p of the buffer. */
  lemma {:induction false} ParseStep(s: Text, p: nat)
    requires p <= |s|
    ensures At(s, p) == NUL ==> forall before :: Prepend(before, ParseBody(s[p..])) == Bad
    ensures At(s, p) == QUOTE ==>
      forall before :: Prepend(before, ParseBody(s[p..])) == Good(before, s[p + 1..])
    ensures At(s, p) != NUL && At(s, p) != QUOTE ==>
      ParseBody(s[p..]) ==
      match ParseOne(s[p..]) { case Bad => Bad case Good(x, r) => Prepend(x, ParseBody(r)) }
  {
    hide ParseOne;
    if p < |s| {
      assert s[p..][1..] == s[p + 1..];
    }
    forall before: Text ensures before + [] == before {
    }
  }

  /** `http_json_parse_string`: on success `text` is the buffer before its terminating NUL. */
  method ReadString(s: Text, p0: nat, heap: Heap) returns (ok: bool, text: Text, next: nat)
    requires p0 <= |s| <= OBJECT_MAX
    modifies heap
    ensures ok ==> next <= |s| && ParseString(s[p0..]) == Good(text, s[next..])
    ensures !ok ==> ParseString(s[p0..]).Bad? || heap.failed
    ensures ok ==> heap.failed == old(heap.failed)
    ensures old(heap.failed) ==> heap.failed
  {
    hide ParseOne, ParseBody, Prepend;
    text, next := [], p0;
    if At(s, p0) != QUOTE {
      return false, text, next;
    }
    var buf := new Buffer();
    var p := p0 + 1;
    assert s[p0..][1..] == s[p0 + 1..];
    PrependNothing(ParseBody(s[p..]));
    while At(s, p) != NUL && At(s, p) != QUOTE
      invariant p0 < p <= |s| && buf.Valid() && fresh(buf) && fresh(buf.data)
      invariant ParseBody(s[p0 + 1..]) == Prepend(buf.Contents(), ParseBody(s[p..]))
      invariant buf.len <= p
      invariant heap.failed == old(heap.failed)
      decreases |s| - p
    {
      ParseStep(s, p);
      ghost var before, one := buf.Contents(), ParseOne(s[p..]);
      ok, p := ReadOne(s, p, buf, heap);
      if !ok {
        PrependTwice(before, [], Bad);
        return;
      }
      PrependTwice(before, one.text, ParseBody(s[p..]));
    }
    ParseStep(s, p);
    if At(s, p) != QUOTE {
      return false, text, next;
    }
    text := buf.data[..buf.len];
    ok := buf.Append([NUL], heap);
    next := p + 1;
  }

  // ---------------------------------------------------------------- every legal way of writing

  /** The four ways a character can stand in a JSON string, hex digits in either case. */
  datatype Form =
    | Raw
    | Short
    | Unit(upper: seq<bool>)
    | Pair(high: seq<bool>, low: seq<bool>)

  datatype Written = Written(cp: Scalar, form: Form)

  /** The letter of the two-character escape of cp, if it has one. */
  function ShortLetter(cp: Scalar): (r: Option<byte>)
    ensures r.Some? ==> ShortEscape(r.value) == Some(cp)
  {
    if cp == QUOTE || cp == BACKSLASH || cp == SLASH then Some(cp)
    else if cp == BACKSPACE then Some(LETTER_B)
    else if cp == FORM_FEED then Some(LETTER_F)
    else if cp == LF then Some(LETTER_N)
    else if cp == CR then Some(LETTER_R)
    else if cp == TAB then Some(LETTER_T)
    else None
  }

  /** The grammar of RFC 8259 section 7; raw control characters, which it excludes, are let in. */
  predicate Legal(w: Written) {
    match w.form
    case Raw => w.cp != 0 && w.cp != QUOTE && w.cp != BACKSLASH
    case Short => ShortLetter(w.cp).Some?
    case Unit(upper) => w.cp <= 0xFFFF && |upper| == 4
    case Pair(high, low) => w.cp >= 0x10000 && |high| == 4 && |low| == 4
  }

  function UnitEscape(u: nat, upper: seq<bool>): (r: Text)
    requires u <= 0xFFFF && |upper| == 4
    ensures |r| == 6
  {
    [BACKSLASH, LETTER_U] + HexDigits(u, upper)
  }

  function Render(w: Written): (r: Text)
    requires Legal(w)
  {
    match w.form
    case Raw => Encode(w.cp)
    case Short => [BACKSLASH, ShortLetter(w.cp).value]
    case Unit(upper) => UnitEscape(w.cp, upper)
    case Pair(high, low) =>
      UnitEscape(0xD800 + (w.cp - 0x10000) / 0x400, high) + UnitEscape(0xDC00 + (w.cp - 0x10000) % 0x400, low)
  }

  function RenderAll(ws: seq<Written>): Text
    requires forall w <- ws :: Legal(w)
  {
    if ws == [] then [] else Render(ws[0]) + RenderAll(ws[1..])
  }

  function Meaning(ws: seq<Written>): seq<Scalar> {
    if ws == [] then [] else [ws[0].cp] + Meaning(ws[1..])
  }

  lemma {:induction false} PlainStep(b: byte, rest: Text)
    requires b != NUL && b != QUOTE && b != BACKSLASH
    ensures ParseBody([b] + rest) == Prepend([b], ParseBody(rest))
  {
    assert ([b] + rest)[1..] == rest;
  }

  /** A run of bytes that are neither NUL, quote nor backslash stands for itself. */
  lemma {:induction false} PlainRun(run: Text, rest: Text)
    requires NUL !in run && QUOTE !in run && BACKSLASH !in run
    ensures ParseBody(run + rest) == Prepend(run, ParseBody(rest))
  {
    hide ParseBody;
    if run == [] {
      assert run + rest == rest;
      PrependNothing(ParseBody(rest));
    } else {
      assert run + rest == [run[0]] + (run[1..] + rest);
      PlainStep(run[0], run[1..] + rest);
      PlainRun(run[1..], rest);
      PrependTwice([run[0]], run[1..], ParseBody(rest));
    }
  }

  lemma {:induction false} UnitEscapeReads(u: nat, upper: seq<bool>, rest: Text)
    requires u <= 0xFFFF && |upper| == 4
    ensures var t := UnitEscape(u, upper) + rest;
      t[0] == BACKSLASH && t[1] == LETTER_U && Hex4(t[2..]) == Hex4(t[1..][1..]) == Some(u)
      && t[6..] == t[1..][5..] == rest
  {
    var t := UnitEscape(u, upper) + rest;
    assert t[2..] == t[1..][1..] == HexDigits(u, upper) + rest;
    Hex4Digits(u, upper, rest);
  }

  lemma {:induction false} LowSurrogateLength(t: Text)
    requires LowSurrogate(t).Some?
    ensures |t| >= 6
  {
  }

  /** What a \u escape in front of any text means. */
  lemma {:induction false} UnitEscapeMeans(u: nat, upper: seq<bool>, rest: Text)
    requires u <= 0xFFFF && |upper| == 4
    ensures ParseBody(UnitEscape(u, upper) + rest) ==
      if IsHighSurrogate(u) then
        match LowSurrogate(rest)
        case None => Bad
        case Some(low) => Prepend(Encode(0x10000 + (0x400 * (u - 0xD800) + (low - 0xDC00))), ParseBody(rest[6..]))
      else if IsLowSurrogate(u) then Bad
      else Prepend(Encode(u), ParseBody(rest))
  {
    hide Encode, Hex4, HexDigits, LowSurrogate;
    UnitEscapeReads(u, upper, rest);
    var t := UnitEscape(u, upper) + rest;
    if LowSurrogate(rest).Some? {
      LowSurrogateLength(rest);
      assert t[1..][11..] == t[1..][5..][6..];
    }
    assert ShortEscape(LETTER_U).None?;
    EscapeStep(t);
  }

  lemma {:induction false} EscapeStep(t: Text)
    requires t != [] && t[0] == BACKSLASH
    ensures ParseBody(t) == match ParseEscape(t[1..]) { case Bad => Bad case Good(x, r) => Prepend(x, ParseBody(r)) }
  {
  }

  lemma {:induction false} EncodeIsPlain(cp: Scalar)
    requires cp != 0 && cp != QUOTE && cp != BACKSLASH
    ensures NUL !in Encode(cp) && QUOTE !in Encode(cp) && BACKSLASH !in Encode(cp)
  {
    assert cp > 0x7F ==> Encode(cp)[0] >= 0xC0;
  }

  lemma {:induction false} EncodeSmall(cp: Scalar)
    requires cp <= 0x7F
    ensures Encode(cp) == [cp]
  {
  }

  lemma {:induction false} ShortReads(c: byte, rest: Text)
    requires ShortEscape(c).Some?
    ensures ParseBody([BACKSLASH, c] + rest) == Prepend([ShortEscape(c).value], ParseBody(rest))
  {
    var t := [BACKSLASH, c] + rest;
    assert t[1..][1..] == rest;
    EscapeStep(t);
  }

  lemma {:induction false} LowSurrogateReads(low: nat, upper: seq<bool>, rest: Text)
    requires IsLowSurrogate(low) && |upper| == 4
    ensures LowSurrogate(UnitEscape(low, upper) + rest) == Some(low)
    ensures (UnitEscape(low, upper) + rest)[6..] == rest
  {
    UnitEscapeReads(low, upper, rest);
  }

  lemma {:induction false} PairReadsBack(cp: Scalar, high: seq<bool>, low: seq<bool>, rest: Text)
    requires cp >= 0x10000 && |high| == |low| == 4
    ensures var v := cp - 0x10000;
      ParseBody(UnitEscape(0xD800 + v / 0x400, high) + UnitEscape(0xDC00 + v % 0x400, low) + rest)
      == Prepend(Encode(cp), ParseBody(rest))
  {
    hide Encode, ParseBody, UnitEscape, LowSurrogate, Prepend;
    var v := cp - 0x10000;
    var h, l := UnitEscape(0xD800 + v / 0x400, high), UnitEscape(0xDC00 + v % 0x400, low);
    UnitEscapeMeans(0xD800 + v / 0x400, high, l + rest);
    LowSurrogateReads(0xDC00 + v % 0x400, low, rest);
    assert h + l + rest == h + (l + rest);
    assert cp == 0x10000 + (0x400 * (v / 0x400) + v % 0x400);
  }

  /** One written character is read back as its encoding, whatever follows. */
  lemma {:induction false} ReadsOneBack(w: Written, rest: Text)
    requires Legal(w)
    ensures ParseBody(Render(w) + rest) == Prepend(Encode(w.cp), ParseBody(rest))
  {
    hide Encode, HexDigits, ParseBody, UnitEscape, Prepend;
    match w.form
    case Raw =>
      EncodeIsPlain(w.cp);
      PlainRun(Encode(w.cp), rest);
    case Short =>
      ShortReads(ShortLetter(w.cp).value, rest);
      EncodeSmall(w.cp);
    case Unit(upper) =>
      UnitEscapeMeans(w.cp, upper, rest);
    case Pair(high, low) =>
      PairReadsBack(w.cp, high, low, rest);
  }

  lemma {:induction false} ReadsBack(ws: seq<Written>, rest: Text)
    requires forall w <- ws :: Legal(w)
    ensures ParseBody(RenderAll(ws) + rest) == Prepend(EncodeAll(Meaning(ws)), ParseBody(rest))
    decreases |ws|
  {
    hide Encode, Render, ParseBody;
    if ws == [] {
      assert RenderAll(ws) + rest == rest;
      PrependNothing(ParseBody(rest));
    } else {
      var tail := RenderAll(ws[1..]) + rest;
      assert RenderAll(ws) + rest == Render(ws[0]) + tail;
      ReadsOneBack(ws[0], tail);
      ReadsBack(ws[1..], rest);
      PrependTwice(Encode(ws[0].cp), EncodeAll(Meaning(ws[1..])), ParseBody(rest));
      assert Meaning(ws)[1..] == Meaning(ws[1..]);
    }
  }

  lemma {:induction false} PrependNothing(p: Parsed)
    ensures Prepend([], p) == p
  {
  }

  /**
   * The parser inverts every legal way of writing a string, not only the one
   * the printer uses: it yields the exact UTF-8 of the characters and stops
   * just past the closing quote.
   */
  lemma {:induction false} ParseInvertsEveryWriting(ws: seq<Written>, rest: Text)
    requires forall w <- ws :: Legal(w)
    ensures ParseString([QUOTE] + RenderAll(ws) + [QUOTE] + rest) == Good(EncodeAll(Meaning(ws)), rest)
  {
    hide RenderAll, EncodeAll, Meaning, ParseOne;
    var t := [QUOTE] + RenderAll(ws) + [QUOTE] + rest;
    assert t[1..] == RenderAll(ws) + ([QUOTE] + rest);
    ReadsBack(ws, [QUOTE] + rest);
    assert ([QUOTE] + rest)[1..] == rest;
  }

  /** What an escape means is decided by the bytes it takes, whatever follows them. */
  lemma {:induction false} EscapeIsLocal(p: Text, e: Text, f: Text)
    requires ParseEscape(p + e).Good? && |ParseEscape(p + e).rest| >= |e|
    ensures var k, r := |p + e| - |ParseEscape(p + e).rest|, ParseEscape(p + e);
      k <= |p| && r == Good(r.text, p[k..] + e) && ParseEscape(p + f) == Good(r.text, p[k..] + f)
  {
    hide Hex4, LowSurrogate, Encode;
    var t, u := p + e, p + f;
    var k := |t| - |ParseEscape(t).rest|;
    assert t[k..] == p[k..] + e && u[k..] == p[k..] + f;
    assert t[..k] == p[..k] == u[..k];
    if k > 1 {
      assert t[0] == u[0];
      Hex4IsLocal(t[1..], u[1..]);
    }
    if k > 5 {
      LowSurrogateIsLocal(t[5..], u[5..]);
    }
  }

  lemma {:induction false} Hex4IsLocal(t: Text, u: Text)
    requires |t| >= 4 && |u| >= 4 && t[..4] == u[..4]
    ensures Hex4(t) == Hex4(u)
  {
    assert t[0] == t[..4][0] && t[1] == t[..4][1] && t[2] == t[..4][2] && t[3] == t[..4][3];
    assert u[0] == u[..4][0] && u[1] == u[..4][1] && u[2] == u[..4][2] && u[3] == u[..4][3];
  }

  lemma {:induction false} LowSurrogateIsLocal(t: Text, u: Text)
    requires |t| >= 6 && |u| >= 6 && t[..6] == u[..6]
    ensures LowSurrogate(t) == LowSurrogate(u)
  {
    hide Hex4;
    assert t[0] == t[..6][0] && t[1] == t[..6][1] && u[0] == u[..6][0] && u[1] == u[..6][1];
    assert t[2..][..4] == t[..6][2..] && u[2..][..4] == u[..6][2..];
    Hex4IsLocal(t[2..], u[2..]);
  }

  /** A whole body p, that the parser reads as v, is read as v in front of any text e. */
  lemma {:induction false} BodyIsLocal(p: Text, v: Text, e: Text)
    requires ParseBody(p + [QUOTE]) == Good(v, [])
    ensures ParseBody(p + e) == Prepend(v, ParseBody(e))
    decreases |p|
  {
    hide ParseEscape;
    var t, u := p + [QUOTE], p + e;
    if p == [] {
      assert u == e;
      PrependNothing(ParseBody(e));
    } else {
      assert p[0] != QUOTE && t[1..] == p[1..] + [QUOTE] && u[1..] == p[1..] + e;
      var one := ParseOne(t);
      var k := |t| - |one.rest|;
      assert one.rest != [];
      if p[0] == BACKSLASH {
        EscapeIsLocal(p[1..], [QUOTE], e);
        assert p[1..][k - 1..] == p[k..];
      }
      assert one.rest == p[k..] + [QUOTE] && ParseOne(u) == Good(one.text, p[k..] + e);
      var w := ParseBody(one.rest).text;
      BodyIsLocal(p[k..], w, e);
      PrependTwice(one.text, w, ParseBody(e));
    }
  }

  /**
   * A surrogate escape is accepted only as the high half of a pair: an unpaired
   * one is rejected wherever it stands. What precedes is any body that the parser
   * reads by itself, UTF-8 or not; what follows is any text.
   */
  lemma {:induction false} UnpairedSurrogateRejected(before: Text, u: nat, upper: seq<bool>, rest: Text)
    requires exists v :: ParseBody(before + [QUOTE]) == Good(v, [])
    requires |upper| == 4 && (IsHighSurrogate(u) || IsLowSurrogate(u))
    requires IsLowSurrogate(u) || LowSurrogate(rest).None?
    ensures ParseString([QUOTE] + before + UnitEscape(u, upper) + rest) == Bad
  {
    hide Encode, UnitEscape, LowSurrogate, ParseBody;
    var v :| ParseBody(before + [QUOTE]) == Good(v, []);
    var e := UnitEscape(u, upper) + rest;
    var t := [QUOTE] + before + UnitEscape(u, upper) + rest;
    assert t[1..] == before + e;
    BodyIsLocal(before, v, e);
    UnitEscapeMeans(u, upper, rest);
  }

  // ---------------------------------------------------------------- writing

  /** The canonical writing of one byte: `http_json_escape` works on bytes. */
  function EscapeByte(b: byte): (r: Text)
    ensures 1 <= |r| <= 6
  {
    if b == QUOTE || b == BACKSLASH then [BACKSLASH, b]
    else if b == BACKSPACE then [BACKSLASH, LETTER_B]
    else if b == FORM_FEED then [BACKSLASH, LETTER_F]
    else if b == LF then [BACKSLASH, LETTER_N]
    else if b == CR then [BACKSLASH, LETTER_R]
    else if b == TAB then [BACKSLASH, LETTER_T]
    else if b < 0x20 then UnitEscape(b, [false, false, false, false])
    else [b]
  }

  function Escape(text: Text): (r: Text)
    ensures |text| <= |r| <= 6 * |text|
  {
    if text == [] then [] else Escape(text[..|text| - 1]) + EscapeByte(text[|text| - 1])
  }

  /** `http_json_escape`: appends the escaped form of a C string. */
  method AppendEscaped(buf: Buffer, text: Text, heap: Heap) returns (ok: bool)
    requires buf.Valid() && buf.len + 6 * |text| <= OBJECT_MAX
    modifies buf, buf.data, heap
    ensures buf.Valid() && (buf.data == old(buf.data) || fresh(buf.data))
    ensures ok ==> buf.Contents() == old(buf.Contents()) + Escape(CString(text))
    ensures ok ==> heap.failed == old(heap.failed)
    ensures !ok ==> heap.failed
    ensures old(heap.failed) ==> heap.failed
  {
    hide EscapeByte;
    var p := 0;
    while At(text, p) != NUL
      invariant p <= |text| && buf.Valid() && (buf.data == old(buf.data) || fresh(buf.data))
      invariant NUL !in text[..p]
      invariant buf.Contents() == old(buf.Contents()) + Escape(text[..p])
      invariant heap.failed == old(heap.failed)
      decreases |text| - p
    {
      ok := buf.Append(EscapeByte(text[p]), heap);
      if !ok {
        return;
      }
      assert text[..p + 1][..p] == text[..p];
      assert old(buf.Contents()) + Escape(text[..p]) + EscapeByte(text[p])
          == old(buf.Contents()) + Escape(text[..p + 1]);
      p := p + 1;
    }
    CStringOfPrefix(text, p);
    ok := true;
  }

  lemma {:induction false} EscapedByteReadsBack(b: byte, rest: Text)
    requires b != NUL
    ensures ParseBody(EscapeByte(b) + rest) == Prepend([b], ParseBody(rest))
  {
    hide HexDigits, Encode, ParseBody, UnitEscape;
    var e := EscapeByte(b);
    if |e| == 2 {
      ShortReads(e[1], rest);
    } else if |e| == 6 {
      UnitEscapeMeans(b, [false, false, false, false], rest);
      EncodeSmall(b);
    } else {
      PlainRun([b], rest);
    }
  }

  lemma {:induction false} EscapeReadsBack(text: Text, rest: Text)
    requires NUL !in text
    ensures ParseBody(Escape(text) + rest) == Prepend(text, ParseBody(rest))
    decreases |text|
  {
    hide EscapeByte, ParseBody;
    if text == [] {
      assert Escape(text) + rest == rest;
      PrependNothing(ParseBody(rest));
    } else {
      var n := |text| - 1;
      var last := EscapeByte(text[n]);
      assert Escape(text) + rest == Escape(text[..n]) + (last + rest);
      EscapeReadsBack(text[..n], last + rest);
      EscapedByteReadsBack(text[n], rest);
      PrependTwice(text[..n], [text[n]], ParseBody(rest));
      assert text[..n] + [text[n]] == text;
    }
  }

  /** What the printer writes for any NUL-free bytes, UTF-8 or not, the parser reads back unchanged. */
  lemma {:induction false} ParseInvertsEscape(text: Text, rest: Text)
    requires NUL !in text
    ensures ParseString([QUOTE] + Escape(text) + [QUOTE] + rest) == Good(text, rest)
  {
    var t := [QUOTE] + Escape(text) + [QUOTE] + rest;
    assert t[1..] == Escape(text) + ([QUOTE] + rest);
    EscapeReadsBack(text, [QUOTE] + rest);
    assert ([QUOTE] + rest)[1..] == rest;
  }
}
