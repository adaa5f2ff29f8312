/** What the client guarantees at every moment of its run, and what its exit code 0 reports. */
module ClientContract {
  import opened Bytes
  import opened Paths
  import opened Os
  import opened Wire
  import opened TransferIo
  import opened ServerContract

  function HeaderFor(msgType: nat, payloadSize: nat): Header {
    Header(MAGIC, VERSION, msgType, FLAG_NONE, payloadSize)
  }

  /** `client_send_header_payload`, as bytes. */
  function Preamble(msgType: nat, payloadSize: nat, payload: Text): Text
    requires msgType < 0x100 && payloadSize <= SIZE_MAX
  {
    EncodeHeader(HeaderFor(msgType, payloadSize)) + payload
  }

  // ---------------------------------------------------------------- sending a file

  function UploadLead(name: Text, size: nat): Text
    requires NameFits(name) && size <= MAX_FILE_SIZE
  {
    Preamble(SEND_FILE, PrefixSize(|name|) + size, EncodePrefix(name, size))
  }

  /** Nothing of the body goes out before READY OK has come in. */
  ghost predicate UploadClient(name: Text, path: Text, h: History) {
    && NoEffect(h)
    && match h.source
       case None => h.sent == [] && h.recvd == []
       case Some(source) =>
         && source.path == path && NameFits(name)
         && if source.size > MAX_FILE_SIZE then h.sent == []
            else
              var lead := UploadLead(name, source.size);
              || h.sent <= lead
              || (lead <= h.sent && ReadyOk() <= h.recvd
                  && |h.sent| <= |lead| + source.size && h.sent[|lead|..] <= source.content)
  }

  /** Exit code 0: the whole file was sent, between the two frames that say so. */
  ghost predicate UploadReported(name: Text, h: History) {
    && h.source.Some? && NameFits(name)
    && var source := h.source.value;
    && source.size <= MAX_FILE_SIZE && source.size <= |source.content|
    && h.sent == UploadLead(name, source.size) + source.content[..source.size]
    && h.recvd == ReadyOk() + FinalOk()
  }

  /** Without faults an upload is given up only for one of these causes. */
  ghost predicate UploadGivenUp(name: Text, h: History) {
    if !NameFits(name) then h == START
    else
      match h.source
      case None => h == START                                   // not a regular file
      case Some(source) =>
        if source.size > MAX_FILE_SIZE then h.sent == [] && h.recvd == []
        else
          var lead := UploadLead(name, source.size);
          || (h.sent == lead && |h.recvd| == FRAME_SIZE && h.recvd != ReadyOk())
          || (|source.content| < source.size && h.sent == lead + source.content && h.recvd == ReadyOk())
          || (source.size <= |source.content| && h.sent == lead + source.content[..source.size]
              && |h.recvd| == 2 * FRAME_SIZE && ReadyOk() <= h.recvd && h.recvd[FRAME_SIZE..] != FinalOk())
  }

  // ---------------------------------------------------------------- sending a message

  function MessageLead(message: Text): Text
    requires |message| <= MAX_TEXT_MESSAGE_SIZE
  {
    Preamble(TEXT_MESSAGE, |message|, message)
  }

  ghost predicate MessageClient(message: Text, h: History) {
    && NoEffect(h) && h.source.None?
    && if |message| > MAX_TEXT_MESSAGE_SIZE then h.sent == [] else h.sent <= MessageLead(message)
  }

  ghost predicate MessageReported(message: Text, h: History) {
    |message| <= MAX_TEXT_MESSAGE_SIZE && h.sent == MessageLead(message) && h.recvd == FinalOk()
  }

  ghost predicate MessageGivenUp(message: Text, h: History) {
    if |message| > MAX_TEXT_MESSAGE_SIZE then h == START
    else h.sent == MessageLead(message) && |h.recvd| == FRAME_SIZE && h.recvd != FinalOk()
  }

  // ---------------------------------------------------------------- fetching a file

  function RequestLead(remote: Text): Text
    requires NameFits(remote)
  {
    Preamble(GET_FILE, NameOnlySize(|remote|), EncodeName(remote))
  }

  /** What the client reads after READY OK: name, size, and the rest. */
  ghost function Offered(recvd: Text): (r: Option<(Text, nat, Text)>)
    ensures r.Some? ==> NameFits(r.value.0) && r.value.1 <= SIZE_MAX
    ensures r.Some? ==> recvd == ReadyOk() + EncodePrefix(r.value.0, r.value.1) + r.value.2
  {
    if ReadyOk() <= recvd then
      assert recvd == ReadyOk() + recvd[FRAME_SIZE..];
      match PrefixIn(recvd[FRAME_SIZE..])
      case None => None
      case Some((raw, size, rest)) =>
        assert recvd == ReadyOk() + EncodePrefix(raw, size) + rest;
        Some((raw, size, rest))
    else None
  }

  /** Where the file goes: where the user says, or else under the offered name. */
  function Target(output: Option<Text>, raw: Text): Text {
    match output
    case Some(path) => path
    case None => CString(raw)
  }

  /** What `snprintf` leaves of a temporary name in the client's buffer. */
  function TempBuffer(target: Text, pid: nat, attempt: nat): Text {
    var name := TempName(target, pid, attempt);
    if |name| < PATH_CAP then name else name[..PATH_CAP - 1]
  }

  /** The offer is taken up: the file is not too large, and its name will do. */
  predicate Acceptable(output: Option<Text>, raw: Text, size: nat) {
    size <= MAX_FILE_SIZE && (output.Some? || ValidFileName(CString(raw)))
  }

  /** The path that is in the client's buffer after these attempts: the last one tried, or the first one cut off. */
  function LastCandidate(target: Text, pid: nat, tried: seq<Attempt>): Text {
    if tried == [] then TempBuffer(target, pid, 0) else tried[|tried| - 1].path
  }

  /** No temporary file could be made: there is no room for its name, or all attempts have failed. */
  predicate Exhausted(target: Text, pid: nat, tried: seq<Attempt>) {
    GivesUp(tried) || (tried == [] && BuildTempPath(PATH_CAP, target, pid, 0).None?)
  }

  /**
   * Before the whole body and FINAL OK are in, nothing is published. A path the
   * client did not make is unlinked only after no file could be made, only the
   * last candidate, and once.
   */
  ghost predicate Fetching(target: Text, pid: nat, size: nat, rest: Text, h: History) {
    && InOrder(target, pid, h.tried)
    && (h.temp.Some? ==>
          && Succeeds(h.tried) && h.temp.value.path == LastCandidate(target, pid, h.tried)
          && h.temp.value.content <= rest && |h.temp.value.content| <= size && h.published == [])
    && (h.published != [] ==>
          && Succeeds(h.tried) && |rest| == size + FRAME_SIZE && rest[size..] == FinalOk()
          && h.published == [File(target, rest[..size])])
    && (h.strays != [] ==>
          Exhausted(target, pid, h.tried) && h.strays == [LastCandidate(target, pid, h.tried)])
  }

  ghost predicate FetchClient(remote: Text, output: Option<Text>, pid: nat, h: History) {
    && h.source.None? && h.stored == []
    && (if NameFits(remote) then h.sent <= RequestLead(remote) else h.sent == [])
    && match Offered(h.recvd)
       case None => NoEffect(h)
       case Some((raw, size, rest)) =>
         if Acceptable(output, raw, size) then Fetching(Target(output, raw), pid, size, rest, h) else NoEffect(h)
  }

  /** A client that has, or has published, a file of its own has unlinked no other. */
  lemma {:induction false} NoStraysBesideOwnFile(remote: Text, output: Option<Text>, pid: nat, h: History)
    requires FetchClient(remote, output, pid, h)
    ensures h.temp.Some? || h.published != [] ==> h.strays == []
    ensures |h.strays| <= 1
  {
    hide InOrder, Offered, Acceptable, LastCandidate;
  }

  /**
   * At the end of a download: a path the client did not make has been unlinked
   * if and only if the offer was taken up, none of its attempts made a file, and
   * the unlink of the last candidate did not fail.
   */
  ghost predicate StraysExactly(output: Option<Text>, pid: nat, h: History) {
    match Offered(h.recvd)
    case None => h.strays == []
    case Some((raw, size, _)) =>
      if Acceptable(output, raw, size) && !Succeeds(h.tried) && h.stuck == [] then
        h.strays == [LastCandidate(Target(output, raw), pid, h.tried)]
      else h.strays == []
  }

  /** Without faults a download is given up only for one of these causes, and no temporary file is left. */
  ghost predicate FetchGivenUp(remote: Text, output: Option<Text>, pid: nat, h: History) {
    if !ValidFileName(remote) || !NameFits(remote) then h == START
    else
      && h.sent == RequestLead(remote) && h.published == [] && h.temp.None?
      && (|| (|h.recvd| == FRAME_SIZE && h.recvd != ReadyOk())
          || (ReadyOk() <= h.recvd && BadLength(h.recvd[FRAME_SIZE..]))
          || (match Offered(h.recvd)
              case None => false
              case Some((raw, size, rest)) => OfferDeclined(output, pid, raw, size, rest)))
  }

  /** Too large, badly named, no room for a temporary name; or, after the whole body, not FINAL OK. */
  ghost predicate OfferDeclined(output: Option<Text>, pid: nat, raw: Text, size: nat, rest: Text) {
    || (rest == [] && !Acceptable(output, raw, size))
    || (rest == [] && BuildTempPath(PATH_CAP, Target(output, raw), pid, 0).None?)
    || (|rest| == size + FRAME_SIZE && rest[size..] != FinalOk())
  }
}
