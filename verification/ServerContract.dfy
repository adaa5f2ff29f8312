/**
 * What a server connection guarantees at every moment of its run, whatever it
 * is sent and whatever fails: each reply frame is tied to what the connection
 * has received and to what it has put on disk or in the store by then.
 */
module ServerContract {
  import opened Bytes
  import opened Paths
  import opened Os
  import opened Wire
  import opened TransferIo

  // The four frames `server_send_response` is called for.

  function ReadyFrame(): (f: Frame)
    ensures FrameValid(f)
  {
    Frame(READY, STATUS_OK, Code(ProtocolOk))
  }

  function RejectFrame(reason: ProtocolResult): (f: Frame)
    requires !reason.ProtocolOk?
    ensures FrameValid(f)
  {
    Frame(READY, REJECTED, Code(reason))
  }

  function FinalFrame(r: ProtocolResult): (f: Frame)
    ensures FrameValid(f)
  {
    Frame(FINAL, if r.ProtocolOk? then STATUS_OK else FAILED, Code(r))
  }

  function ReadyOk(): Text { FrameBytes(ReadyFrame()) }

  function FinalOk(): Text { FrameBytes(FinalFrame(ProtocolOk)) }

  function Rejection(reason: ProtocolResult): Text
    requires !reason.ProtocolOk?
  {
    FrameBytes(RejectFrame(reason))
  }

  function Failure(reason: ProtocolResult): Text
    requires !reason.ProtocolOk?
  {
    FrameBytes(FinalFrame(reason))
  }

  /** A rejection, or the part of one that could be sent. */
  predicate Rejecting(sent: Text) {
    exists reason: ProtocolResult | !reason.ProtocolOk? :: sent <= Rejection(reason)
  }

  predicate Failing(sent: Text) {
    exists reason: ProtocolResult | !reason.ProtocolOk? :: sent <= Failure(reason)
  }

  /** A connection that has received its header and `body`, and done nothing yet. */
  ghost function Heard(head: Text, body: Text): History {
    START.(recvd := head + body)
  }

  /** Nothing on disk and nothing in the store has been touched. */
  predicate NoEffect(h: History) {
    h.tried == [] && h.temp.None? && h.published == [] && h.strays == [] && h.stored == []
  }

  // ---------------------------------------------------------------- uploads

  /** Why an upload with this prefix is refused. The sum of the sizes wraps at 64 bits. */
  function UploadRefusal(header: Header, name: Text, size: nat): Option<ProtocolResult> {
    if !ValidFileName(name) then Some(InvalidFileName)
    else if header.payloadSize != (PrefixSize(|name|) + size) % (SIZE_MAX + 1) then Some(PayloadSizeMismatch)
    else None
  }

  /** An accepted upload: READY OK, then the body, then one final frame that tells whether it was published. */
  ghost predicate Uploading(base: Text, name: Text, pid: nat, size: nat, content: Text, h: History) {
    if ReadyOk() <= h.sent then
      && (match JoinRelativePath(PATH_CAP, base, name)
          case None => h.tried == [] && h.temp.None? && h.published == []
          case Some(target) => FileState(target, pid, size, content, START, h))
      && (if h.published == [] then Failing(h.sent[FRAME_SIZE..]) else h.sent[FRAME_SIZE..] <= FinalOk())
    else h.sent <= ReadyOk() && h.tried == [] && h.temp.None? && h.published == []
  }

  ghost predicate UploadGuarantee(base: Text, pid: nat, header: Header, body: Text, h: History) {
    && h.source.None? && h.strays == [] && h.stored == []
    && if header.payloadSize < PrefixSize(1) then NoEffect(h) && h.sent <= Rejection(InvalidArgument)
       else
         match PrefixIn(body)
         case None => NoEffect(h) && h.sent == []
         case Some((raw, size, content)) =>
           match UploadRefusal(header, CString(raw), size)
           case Some(reason) => NoEffect(h) && !reason.ProtocolOk? && h.sent <= Rejection(reason)
           case None => Uploading(base, CString(raw), pid, size, content, h)
  }

  // ---------------------------------------------------------------- downloads

  function DownloadRefusal(header: Header, name: Text): Option<ProtocolResult> {
    if !ValidFileName(name) then Some(InvalidFileName)
    else if header.payloadSize != NameOnlySize(|name|) then Some(PayloadSizeMismatch)
    else None
  }

  /** READY OK and the prefix. */
  function DownloadLead(name: Text, size: nat): Text
    requires NameFits(name) && size <= SIZE_MAX
  {
    ReadyOk() + EncodePrefix(name, size)
  }

  /** The first k bytes of the file, and FINAL OK only after all `size` of them. */
  predicate DownloadBody(source: Source, reply: Text, k: nat) {
    && k <= source.size && k <= |source.content| && k <= |reply| && reply[..k] == source.content[..k]
    && (reply[k..] == []
        || if k == source.size then reply[k..] <= FinalOk() else reply[k..] <= Failure(Io))
  }

  ghost predicate Downloading(name: Text, source: Source, sent: Text)
    requires NameFits(name) && source.size <= SIZE_MAX
  {
    var lead := DownloadLead(name, source.size);
    sent <= lead || (lead <= sent && exists k: nat :: DownloadBody(source, sent[|lead|..], k))
  }

  ghost predicate DownloadGuarantee(base: Text, header: Header, body: Text, h: History) {
    && NoEffect(h)
    && if header.payloadSize < NameOnlySize(1) then h.source.None? && h.sent <= Rejection(InvalidArgument)
       else
         match NameIn(body)
         case None => h.source.None? && Rejecting(h.sent)
         case Some((raw, _)) =>
           var name := CString(raw);
           match DownloadRefusal(header, name)
           case Some(reason) => h.source.None? && !reason.ProtocolOk? && h.sent <= Rejection(reason)
           case None =>
             match h.source
             case None => h.sent <= Rejection(InvalidArgument)
             case Some(source) =>
               && JoinRelativePath(PATH_CAP, base, name) == Some(source.path)
               && source.size <= SIZE_MAX && NameFits(name)
               && Downloading(name, source, h.sent)
  }

  // ---------------------------------------------------------------- text messages

  /** A single final frame, OK only when the message is in the store. */
  ghost predicate MessageGuarantee(header: Header, body: Text, h: History) {
    && h.source.None? && h.tried == [] && h.temp.None? && h.published == [] && h.strays == []
    && if h.stored == [] then Failing(h.sent)
       else
         && header.payloadSize <= MAX_TEXT_MESSAGE_SIZE && |body| == header.payloadSize
         && h.stored == [CString(body)] && h.sent <= FinalOk()
  }

  // ---------------------------------------------------------------- any connection

  /** Before a header has been accepted the server is silent. */
  ghost predicate ServerGuarantee(base: Text, pid: nat, h: History) {
    if |h.recvd| < HEADER_SIZE || DecodeHeader(h.recvd[..HEADER_SIZE]).Err? then
      h.sent == [] && h.source.None? && NoEffect(h)
    else
      var header := DecodeHeader(h.recvd[..HEADER_SIZE]).value;
      var body := h.recvd[HEADER_SIZE..];
      if header.msgType == SEND_FILE then UploadGuarantee(base, pid, header, body, h)
      else if header.msgType == GET_FILE then DownloadGuarantee(base, header, body, h)
      else MessageGuarantee(header, body, h)
  }
}
