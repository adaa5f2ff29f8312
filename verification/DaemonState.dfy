/** The daemon's state file: its printer and its parser (src/daemon_state.c). */
module DaemonState {
  import opened Bytes
  import opened Paths
  import opened PathLaws

  const EQUALS: byte := 0x3D
  const MINUS: byte := 0x2D
  const PLUS: byte := 0x2B
  const LONG_MAX: int := 0x7FFF_FFFF_FFFF_FFFF
  const INT_MAX: int := 0x7FFF_FFFF
  /** The arrays `text`, `line`, `receive_dir` and `log_path`, and `web_url`. */
  const TEXT_CAP: nat := 12288
  const LINE_CAP: nat := 4608
  const DIR_CAP: nat := 4096
  const URL_CAP: nat := 256

  function PidKey(): Text { [0x70, 0x69, 0x64] }

  function DirKey(): Text { [0x72, 0x65, 0x63, 0x65, 0x69, 0x76, 0x65, 0x5F, 0x64, 0x69, 0x72] }

  function PortKey(): Text { [0x70, 0x6F, 0x72, 0x74] }

  function UrlKey(): Text { [0x77, 0x65, 0x62, 0x5F, 0x75, 0x72, 0x6C] }

  function LogKey(): Text { [0x6C, 0x6F, 0x67, 0x5F, 0x70, 0x61, 0x74, 0x68] }

  function ModeKey(): Text { [0x64, 0x61, 0x65, 0x6D, 0x6F, 0x6E, 0x5F, 0x6D, 0x6F, 0x64, 0x65] }

  datatype State = State(pid: int, receiveDir: Text, webUrl: Text, logPath: Text, port: nat, daemonMode: int)

  const BLANK: State := State(0, [], [], [], 0, 0)

  // ---------------------------------------------------------------- printing

  /** `%ld` and `%d`. */
  function Signed(n: int): (r: Text)
    ensures r != []
  {
    if n < 0 then [MINUS] + Decimal(-n) else Decimal(n)
  }

  function Field(key: Text, value: Text): Text {
    key + [EQUALS] + value + [LF]
  }

  function StateText(s: State): Text {
    Field(PidKey(), Signed(s.pid)) + (Field(DirKey(), s.receiveDir) + (Field(PortKey(), Signed(s.port))
      + (Field(UrlKey(), s.webUrl) + (Field(LogKey(), s.logPath) + Field(ModeKey(), Signed(s.daemonMode))))))
  }

  /** `daemon_state_write` up to the file. */
  function WriteState(s: State): Option<Text> {
    if s.pid <= 0 || s.receiveDir == [] || s.port == 0 || |StateText(s)| >= TEXT_CAP then None
    else Some(StateText(s))
  }

  // ---------------------------------------------------------------- numbers

  predicate IsDigit(b: byte) {
    0x30 <= b <= 0x39
  }

  function DigitsValue(t: Text): Option<nat> {
    if t == [] || !IsDigit(t[|t| - 1]) then None
    else if |t| == 1 then Some(t[0] as int - 0x30)
    else
      match DigitsValue(t[..|t| - 1])
      case None => None
      case Some(v) => Some(10 * v + (t[|t| - 1] as int - 0x30))
  }

  /** What `strtol` and `strtoul` read a whole text as: a sign and a number. */
  function ReadNumber(t: Text): Option<(bool, nat)> {
    var s := SkipSpaces(t);
    var signed := s != [] && (s[0] == MINUS || s[0] == PLUS);
    match DigitsValue(if signed then s[1..] else s)
    case None => None
    case Some(v) => Some((signed && s[0] == MINUS, v))
  }

  /** `daemon_state_parse_long`. */
  function ParseLong(t: Text): Option<int> {
    match ReadNumber(t)
    case None => None
    case Some((minus, v)) =>
      var n: int := if minus then -(v as int) else v;
      if -LONG_MAX - 1 <= n <= LONG_MAX then Some(n) else None
  }

  /** `daemon_state_parse_u16`: `strtoul` negates modulo 2^64. */
  function ParseU16(t: Text): Option<nat> {
    match ReadNumber(t)
    case None => None
    case Some((minus, v)) =>
      if v > SIZE_MAX then None
      else
        var n := if minus then (SIZE_MAX + 1 - v) % (SIZE_MAX + 1) else v;
        if n > 65535 then None else Some(n)
  }

  lemma {:induction false} DecimalReads(n: nat)
    ensures DigitsValue(Decimal(n)) == Some(n)
  {
    if n >= 10 {
      DecimalReads(n / 10);
      var t := Decimal(n);
      assert t[..|t| - 1] == Decimal(n / 10);
    }
  }

  lemma {:induction false} SignedReads(n: int)
    ensures ReadNumber(Signed(n)) == Some((n < 0, if n < 0 then -n else n))
  {
    var d := Decimal(if n < 0 then -n else n);
    DecimalReads(if n < 0 then -n else n);
    assert d[0] in d;
    if n < 0 {
      assert ([MINUS] + d)[1..] == d;
    }
  }

  lemma {:induction false} DecimalLength(n: nat, k: nat, bound: nat)
    requires k > 0 && n < bound && bound == Pow10(k)
    ensures |Decimal(n)| <= k
  {
    TenToOne();
    if n >= 10 {
      assert bound == 10 * Pow10(k - 1);
      DecimalLength(n / 10, k - 1, Pow10(k - 1));
    }
  }

  lemma {:induction false} TenToOne()
    ensures Pow10(1) == 10
  {
    assert Pow10(0) == 1;
  }

  function Pow10(k: nat): nat {
    if k == 0 then 1 else 10 * Pow10(k - 1)
  }

  // ---------------------------------------------------------------- reading

  /** How much `fgets` takes: up to and with a line feed, or what fits. */
  function LineLength(t: Text): (n: nat)
    requires t != []
    ensures 0 < n <= |t| && n < LINE_CAP
  {
    var n := IndexOf(t, LF);
    var whole := if n < |t| then n + 1 else n;
    if whole < LINE_CAP then whole else LINE_CAP - 1
  }

  /** The value up to a line end: `strcspn(value, "\r\n")`. */
  function UpToLineEnd(s: Text): (r: Text)
    ensures CR !in r && LF !in r && r <= s
  {
    s[..LineEnd(s)]
  }

  /** What `snprintf` leaves in an array. */
  function Fit(value: Text, cap: nat): (r: Text)
    requires cap > 0
    ensures r <= value
  {
    if |value| < cap then value else value[..cap - 1]
  }

  datatype Reading = Reading(state: State, havePid: bool, haveDir: bool, havePort: bool)

  const START: Reading := Reading(BLANK, false, false, false)

  /** What one key with its value does. */
  function AfterField(r: Reading, key: Text, value: Text): Reading {
    if key == PidKey() then
      match ParseLong(value)
      case None => r.(havePid := false)
      case Some(n) => r.(state := r.state.(pid := n), havePid := n > 0)
    else if key == DirKey() then
      if value == [] then r.(haveDir := false)
      else r.(state := r.state.(receiveDir := Fit(value, DIR_CAP)), haveDir := |value| < DIR_CAP)
    else if key == PortKey() then
      match ParseU16(value)
      case None => r.(havePort := false)
      case Some(n) => r.(state := r.state.(port := n), havePort := n != 0)
    else if key == UrlKey() then r.(state := r.state.(webUrl := Fit(value, URL_CAP)))
    else if key == LogKey() then r.(state := r.state.(logPath := Fit(value, DIR_CAP)))
    else if key == ModeKey() then
      match ParseLong(value)
      case None => r
      case Some(n) => r.(state := r.state.(daemonMode := if n != 0 then 1 else 0))
    else r
  }

  function AfterLine(r: Reading, line: Text): Reading {
    var s := CString(line);
    var eq := IndexOf(s, EQUALS);
    if eq == |s| then r else AfterField(r, s[..eq], UpToLineEnd(s[eq + 1..]))
  }

  function AfterText(r: Reading, t: Text): Reading
    decreases |t|
  {
    if t == [] then r else AfterText(AfterLine(r, t[..LineLength(t)]), t[LineLength(t)..])
  }

  /** `daemon_state_read` of a file with this text. */
  function ReadState(t: Text): Option<State> {
    var r := AfterText(START, t);
    if r.havePid && r.haveDir && r.havePort then Some(r.state) else None
  }

  // ---------------------------------------------------------------- round trip

  /** The fields fit their C types and arrays, and are C strings. */
  predicate Fits(s: State) {
    && 0 < s.pid <= LONG_MAX && 0 < s.port <= 65535 && -INT_MAX - 1 <= s.daemonMode <= INT_MAX
    && s.receiveDir != [] && |s.receiveDir| < DIR_CAP && |s.logPath| < DIR_CAP && |s.webUrl| < URL_CAP
    && NUL !in s.receiveDir && NUL !in s.logPath && NUL !in s.webUrl
  }

  predicate OneLine(t: Text) {
    CR !in t && LF !in t
  }

  predicate OneLiners(s: State) {
    OneLine(s.receiveDir) && OneLine(s.webUrl) && OneLine(s.logPath)
  }

  function Normalised(s: State): State {
    s.(daemonMode := if s.daemonMode != 0 then 1 else 0)
  }

  /** `fgets` takes exactly one field. */
  lemma {:induction false} FieldTaken(key: Text, value: Text, rest: Text)
    requires OneLine(value) && OneLine(key) && |key| + |value| + 2 < LINE_CAP
    ensures var line := Field(key, value);
      LineLength(line + rest) == |line| && (line + rest)[..|line|] == line && (line + rest)[|line|..] == rest
  {
    hide IndexOf;
    var line := Field(key, value);
    IndexOfIs(line + rest, LF, |line| - 1);
  }

  lemma {:induction false} FieldParsed(r: Reading, key: Text, value: Text)
    requires OneLine(value) && NUL !in value && NUL !in key && EQUALS !in key
    ensures AfterLine(r, Field(key, value)) == AfterField(r, key, value)
  {
    hide AfterField, IndexOf, LineEnd, CString;
    var line := Field(key, value);
    assert line[..|line|] == line;
    CStringOfPrefix(line, |line|);
    IndexOfIs(line, EQUALS, |key|);
    LineEndIs(value + [LF], |value|);
    assert line[..|key|] == key && line[|key| + 1..] == value + [LF];
  }

  /** Any value that is one line is read back from its field, "=" or not. */
  lemma {:induction false} FieldReads(r: Reading, key: Text, value: Text, rest: Text)
    requires OneLine(value) && NUL !in value && OneLine(key) && NUL !in key && EQUALS !in key
    requires |key| + |value| + 2 < LINE_CAP
    ensures AfterText(r, Field(key, value) + rest) == AfterText(AfterField(r, key, value), rest)
  {
    hide AfterField, AfterLine, LineLength;
    FieldTaken(key, value, rest);
    FieldParsed(r, key, value);
  }

  lemma {:induction false} SignedIsPlain(n: int)
    ensures OneLine(Signed(n)) && NUL !in Signed(n)
    ensures -LONG_MAX - 1 <= n <= LONG_MAX ==> |Signed(n)| <= 20
  {
    var m := if n < 0 then -n else n;
    if m <= LONG_MAX + 1 {
      NineteenDigits();
      DecimalLength(m, 19, Pow10(19));
    }
  }

  lemma {:induction false} NineteenDigits()
    ensures Pow10(19) == 10_000_000_000_000_000_000
  {
    assert Pow10(4) == 10_000;
    assert Pow10(8) == 100_000_000;
    assert Pow10(12) == 1_000_000_000_000;
    assert Pow10(16) == 10_000_000_000_000_000;
  }

  /** What six fields, each read back, amount to. */
  lemma {:induction false} FieldsAmountTo(s: State)
    requires Fits(s)
    ensures var r1 := AfterField(START, PidKey(), Signed(s.pid));
      var r2 := AfterField(r1, DirKey(), s.receiveDir);
      var r3 := AfterField(r2, PortKey(), Signed(s.port));
      var r4 := AfterField(r3, UrlKey(), s.webUrl);
      var r5 := AfterField(r4, LogKey(), s.logPath);
      AfterField(r5, ModeKey(), Signed(s.daemonMode)) == Reading(Normalised(s), true, true, true)
  {
    hide ReadNumber, Signed;
    SignedReads(s.pid);
    SignedReads(s.port);
    SignedReads(s.daemonMode);
  }

  lemma {:induction false} KeysArePlain()
    ensures forall key | key in {PidKey(), DirKey(), PortKey(), UrlKey(), LogKey(), ModeKey()} ::
      OneLine(key) && NUL !in key && EQUALS !in key && |key| <= 11
  {
  }

  lemma {:induction false} TextReads(s: State)
    requires Fits(s) && OneLiners(s)
    ensures AfterText(START, StateText(s)) == Reading(Normalised(s), true, true, true)
  {
    hide AfterField, AfterText, Field, Signed, PidKey, DirKey, PortKey, UrlKey, LogKey, ModeKey;
    KeysArePlain();
    SignedIsPlain(s.pid);
    SignedIsPlain(s.port);
    SignedIsPlain(s.daemonMode);
    var t6 := Field(ModeKey(), Signed(s.daemonMode));
    var t5 := Field(LogKey(), s.logPath) + t6;
    var t4 := Field(UrlKey(), s.webUrl) + t5;
    var t3 := Field(PortKey(), Signed(s.port)) + t4;
    var t2 := Field(DirKey(), s.receiveDir) + t3;
    var r1 := AfterField(START, PidKey(), Signed(s.pid));
    FieldReads(START, PidKey(), Signed(s.pid), t2);
    var r2 := AfterField(r1, DirKey(), s.receiveDir);
    FieldReads(r1, DirKey(), s.receiveDir, t3);
    var r3 := AfterField(r2, PortKey(), Signed(s.port));
    FieldReads(r2, PortKey(), Signed(s.port), t4);
    var r4 := AfterField(r3, UrlKey(), s.webUrl);
    FieldReads(r3, UrlKey(), s.webUrl, t5);
    var r5 := AfterField(r4, LogKey(), s.logPath);
    FieldReads(r4, LogKey(), s.logPath, t6);
    assert t6 + [] == t6;
    FieldReads(r5, ModeKey(), Signed(s.daemonMode), []);
    NothingMore(AfterField(r5, ModeKey(), Signed(s.daemonMode)));
    FieldsAmountTo(s);
  }

  lemma {:induction false} NothingMore(r: Reading)
    ensures AfterText(r, []) == r
  {
  }

  /** Within the arrays' bounds the text never overflows its buffer. */
  lemma {:induction false} TextFits(s: State)
    requires Fits(s)
    ensures WriteState(s) == Some(StateText(s))
  {
    hide Signed;
    SignedIsPlain(s.pid);
    SignedIsPlain(s.port);
    SignedIsPlain(s.daemonMode);
  }

  /** No value that is read has a line end in it. */
  lemma {:induction false} ReadValuesAreOneLine(r: Reading, t: Text)
    requires OneLiners(r.state)
    ensures OneLiners(AfterText(r, t).state)
    decreases |t|
  {
    hide LineLength;
    if t != [] {
      OneLinerStays(r, t[..LineLength(t)]);
      ReadValuesAreOneLine(AfterLine(r, t[..LineLength(t)]), t[LineLength(t)..]);
    }
  }

  lemma {:induction false} OneLinerStays(r: Reading, line: Text)
    requires OneLiners(r.state)
    ensures OneLiners(AfterLine(r, line).state)
  {
    hide PidKey, DirKey, PortKey, UrlKey, LogKey, ModeKey, ParseLong, ParseU16, CString, IndexOf;
  }

  /**
   * The state file round trip: a state that fits its arrays is written and read
   * back, the mode normalised, if and only if its texts hold no line end; a "="
   * in them does no harm.
   */
  lemma {:induction false} RoundTripExactly(s: State)
    requires Fits(s)
    ensures WriteState(s).Some?
    ensures ReadState(WriteState(s).value) == Some(Normalised(s)) <==> OneLiners(s)
  {
    hide AfterText, StateText;
    TextFits(s);
    ReadValuesAreOneLine(START, StateText(s));
    if OneLiners(s) {
      TextReads(s);
    }
  }

  // ---------------------------------------------------------------- in bytes

  /** pid=, receive_dir=, port=, web_url=, log_path= and daemon_mode=, each with its value on a line. */
  lemma {:induction false} StateTextIs(s: State)
    ensures StateText(s) ==
      [0x70, 0x69, 0x64, 0x3D] + Signed(s.pid) + [0x0A]
      + ([0x72, 0x65, 0x63, 0x65, 0x69, 0x76, 0x65, 0x5F, 0x64, 0x69, 0x72, 0x3D] + s.receiveDir + [0x0A]
      + ([0x70, 0x6F, 0x72, 0x74, 0x3D] + Signed(s.port) + [0x0A]
      + ([0x77, 0x65, 0x62, 0x5F, 0x75, 0x72, 0x6C, 0x3D] + s.webUrl + [0x0A]
      + ([0x6C, 0x6F, 0x67, 0x5F, 0x70, 0x61, 0x74, 0x68, 0x3D] + s.logPath + [0x0A]
      + ([0x64, 0x61, 0x65, 0x6D, 0x6F, 0x6E, 0x5F, 0x6D, 0x6F, 0x64, 0x65, 0x3D] + Signed(s.daemonMode) + [0x0A])))))
  {
    hide Signed;
    FieldIs(PidKey(), Signed(s.pid));
    FieldIs(DirKey(), s.receiveDir);
    FieldIs(PortKey(), Signed(s.port));
    FieldIs(UrlKey(), s.webUrl);
    FieldIs(LogKey(), s.logPath);
    FieldIs(ModeKey(), Signed(s.daemonMode));
  }

  lemma {:induction false} FieldIs(key: Text, value: Text)
    ensures Field(key, value) == (key + [0x3D]) + value + [0x0A]
  {
  }

  /** A minus for negative numbers, and the digits. */
  lemma {:induction false} SignedIs(n: int)
    ensures n >= 0 ==> Number(Signed(n), 0) == n
    ensures n < 0 ==> Signed(n)[0] == 0x2D && Number(Signed(n)[1..], 0) == -n
  {
    DecimalIs(if n < 0 then -n else n);
    if n < 0 {
      assert ([MINUS] + Decimal(-n))[1..] == Decimal(-n);
    }
  }

  /** Numbers that fit are read, and others are not. */
  lemma {:induction false} NumbersRead(n: int)
    ensures ParseLong(Signed(n)) ==
      if -0x8000_0000_0000_0000 <= n <= 0x7FFF_FFFF_FFFF_FFFF then Some(n) else None
    ensures n >= 0 ==> ParseU16(Signed(n)) == if n <= 65535 then Some(n) else None
  {
    hide Signed, ReadNumber;
    SignedReads(n);
  }

  /** Only digits are read, with one sign and white space before them. */
  lemma {:induction false} OnlyNumbersAreRead(t: Text)
    requires ReadNumber(t).Some?
    ensures var s := SkipSpaces(t);
      s != [] && var d := if s[0] == 0x2D || s[0] == 0x2B then s[1..] else s;
      d != [] && (forall b <- d :: 0x30 <= b <= 0x39) && Number(d, 0) == ReadNumber(t).value.1
    ensures ReadNumber(t).value.0 <==> SkipSpaces(t)[0] == 0x2D
  {
    hide SkipSpaces;
    var s := SkipSpaces(t);
    DigitsAre(if s != [] && (s[0] == 0x2D || s[0] == 0x2B) then s[1..] else s);
  }

  lemma {:induction false} DigitsAre(d: Text)
    ensures DigitsValue(d).Some? ==>
      d != [] && (forall b <- d :: 0x30 <= b <= 0x39) && Number(d, 0) == DigitsValue(d).value
  {
    if |d| == 1 {
      assert d == [d[0]] && d[1..] == [];
    } else if d != [] && IsDigit(d[|d| - 1]) && DigitsValue(d[..|d| - 1]).Some? {
      DigitsAre(d[..|d| - 1]);
      NumberSnoc(d[..|d| - 1], 0, d[|d| - 1]);
      assert d == d[..|d| - 1] + [d[|d| - 1]];
    }
  }

  /** What has been read fits, and what is marked as read is there. */
  predicate Kept(r: Reading) {
    && (r.havePid ==> r.state.pid > 0) && r.state.pid <= 0x7FFF_FFFF_FFFF_FFFF
    && (r.haveDir ==> r.state.receiveDir != []) && |r.state.receiveDir| < 4096
    && (r.havePort ==> r.state.port > 0) && r.state.port <= 65535
    && |r.state.webUrl| < 256 && |r.state.logPath| < 4096 && r.state.daemonMode in {0, 1}
  }

  lemma {:induction false} LineKeeps(r: Reading, line: Text)
    requires Kept(r)
    ensures Kept(AfterLine(r, line))
  {
    hide PidKey, DirKey, PortKey, UrlKey, LogKey, ModeKey, CString, IndexOf, ReadNumber;
  }

  lemma {:induction false} TextKeeps(r: Reading, t: Text)
    requires Kept(r)
    ensures Kept(AfterText(r, t))
    decreases |t|
  {
    hide LineLength, AfterLine, Kept;
    if t != [] {
      LineKeeps(r, t[..LineLength(t)]);
      TextKeeps(AfterLine(r, t[..LineLength(t)]), t[LineLength(t)..]);
    }
  }

  /** A line marks a field as read only when it begins with the field's key and "=". */
  lemma {:induction false} LineMarks(r: Reading, line: Text)
    ensures AfterLine(r, line).havePid ==> r.havePid || PidKey() + [0x3D] <= line
    ensures AfterLine(r, line).haveDir ==> r.haveDir || DirKey() + [0x3D] <= line
    ensures AfterLine(r, line).havePort ==> r.havePort || PortKey() + [0x3D] <= line
  {
    hide PidKey, DirKey, PortKey, UrlKey, LogKey, ModeKey, CString, IndexOf, ParseLong, ParseU16;
    var s := CString(line);
    var eq := IndexOf(s, EQUALS);
    if eq < |s| {
      assert s[..eq + 1] == s[..eq] + [0x3D] && s[..eq + 1] <= line;
    }
  }

  lemma {:induction false} TextMarks(r: Reading, t: Text)
    ensures AfterText(r, t).havePid ==> r.havePid || Contains(t, PidKey() + [0x3D])
    ensures AfterText(r, t).haveDir ==> r.haveDir || Contains(t, DirKey() + [0x3D])
    ensures AfterText(r, t).havePort ==> r.havePort || Contains(t, PortKey() + [0x3D])
    decreases |t|
  {
    hide LineLength, AfterLine, PidKey, DirKey, PortKey, Contains;
    if t != [] {
      var n := LineLength(t);
      LineMarks(r, t[..n]);
      TextMarks(AfterLine(r, t[..n]), t[n..]);
      LineInText(t, n, PidKey() + [0x3D]);
      LineInText(t, n, DirKey() + [0x3D]);
      LineInText(t, n, PortKey() + [0x3D]);
    }
  }

  lemma {:induction false} LineInText(t: Text, n: nat, part: Text)
    requires n <= |t|
    ensures part <= t[..n] || Contains(t[n..], part) ==> Contains(t, part)
  {
    if part <= t[..n] {
      assert t[0..] == t[..n] + t[n..];
      assert OccursAt(t, part, 0);
    }
    if k: nat :| k <= |t[n..]| && OccursAt(t[n..], part, k) {
      assert t[n..][k..] == t[n + k..];
      assert OccursAt(t, part, n + k);
    }
  }

  /**
   * Only complete files are accepted: pid=, receive_dir= and port= stand in them,
   * and what is read is a process number, a directory and a port that fit.
   */
  lemma {:induction false} ReadIsComplete(t: Text)
    requires ReadState(t).Some?
    ensures Contains(t, [0x70, 0x69, 0x64, 0x3D]) && Contains(t, [0x70, 0x6F, 0x72, 0x74, 0x3D])
    ensures Contains(t, [0x72, 0x65, 0x63, 0x65, 0x69, 0x76, 0x65, 0x5F, 0x64, 0x69, 0x72, 0x3D])
    ensures var s := ReadState(t).value;
      && 0 < s.pid <= 0x7FFF_FFFF_FFFF_FFFF && 0 < s.port <= 65535
      && s.receiveDir != [] && |s.receiveDir| < 4096 && |s.webUrl| < 256 && |s.logPath| < 4096
      && s.daemonMode in {0, 1}
  {
    hide AfterText, Contains;
    TextKeeps(START, t);
    TextMarks(START, t);
    assert PidKey() + [0x3D] == [0x70, 0x69, 0x64, 0x3D];
    assert PortKey() + [0x3D] == [0x70, 0x6F, 0x72, 0x74, 0x3D];
    assert DirKey() + [0x3D] == [0x72, 0x65, 0x63, 0x65, 0x69, 0x76, 0x65, 0x5F, 0x64, 0x69, 0x72, 0x3D];
  }

  // ---------------------------------------------------------------- the reader

  /** One turn of the loop, on the line as `fgets` left it. */
  method ReadLine(line: Text, r0: Reading) returns (r: Reading)
    ensures r == AfterLine(r0, line)
  {
    hide CString, PidKey, DirKey, PortKey, UrlKey, LogKey, ModeKey, ParseLong, ParseU16;
    r := r0;
    var s := CString(line);
    var eq := IndexOf(s, EQUALS);
    if eq == |s| {
      return;
    }
    var key, value := s[..eq], UpToLineEnd(s[eq + 1..]);
    if key == PidKey() {
      var n := ParseLong(value);
      if n.Some? {
        r := r.(state := r.state.(pid := n.value));
      }
      r := r.(havePid := n.Some? && r.state.pid > 0);
    } else if key == DirKey() {
      if value != [] {
        r := r.(state := r.state.(receiveDir := Fit(value, DIR_CAP)));
      }
      r := r.(haveDir := value != [] && |value| < DIR_CAP);
    } else if key == PortKey() {
      var n := ParseU16(value);
      if n.Some? {
        r := r.(state := r.state.(port := n.value));
      }
      r := r.(havePort := n.Some? && r.state.port != 0);
    } else if key == UrlKey() {
      r := r.(state := r.state.(webUrl := Fit(value, URL_CAP)));
    } else if key == LogKey() {
      r := r.(state := r.state.(logPath := Fit(value, DIR_CAP)));
    } else if key == ModeKey() {
      var n := ParseLong(value);
      if n.Some? {
        r := r.(state := r.state.(daemonMode := if n.value != 0 then 1 else 0));
      }
    }
  }

  /** `daemon_state_read`. */
  method Read(text: Text) returns (ok: bool, state: State)
    ensures ok <==> ReadState(text).Some?
    ensures ok ==> ReadState(text) == Some(state)
  {
    hide AfterLine, LineLength;
    var r, rest := START, text;
    while rest != []
      invariant AfterText(r, rest) == AfterText(START, text)
      decreases |rest|
    {
      var n := LineLength(rest);
      r := ReadLine(rest[..n], r);
      rest := rest[n..];
    }
    ok, state := r.havePid && r.haveDir && r.havePort, r.state;
  }
}
