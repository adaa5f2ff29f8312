/** The download handler (src/server.c) and `app_prepare_download` (src/app_service.c). */
module ServerDownload {
  import opened Bytes
  import opened Paths
  import opened Os
  import opened NetIo
  import opened Wire
  import opened ProtocolIo
  import opened ServerContract

  /** The thread may get into every state a download on this header allows. */
  ghost predicate MayDownload(t: Thread, base: Text, header: Header, head: Text) {
    forall h: History, body: Text | h.recvd == head + body && DownloadGuarantee(base, header, body, h) :: t.inv(h)
  }

  lemma {:induction false} MayHear(t: Thread, base: Text, header: Header, head: Text)
    requires MayDownload(t, base, header, head) && t.H() == START.(recvd := head)
    requires header.payloadSize >= NameOnlySize(1)
    ensures t.MayReceive(NameOnlySize(MAX_FILE_NAME_LEN))
  {
    hide CString, ValidFileName, NameIn;
    assert Rejecting([]) by {
      assert [] <= Rejection(Io);
    }
    forall body: Text ensures t.inv(AfterReceiving(t.H(), body)) {
      assert AfterReceiving(t.H(), body) == Heard(head, body);
      assert DownloadGuarantee(base, header, body, Heard(head, body));
    }
  }

  /** The reason the handler has for refusing what it has heard, before it has opened the file. */
  ghost predicate Refused(header: Header, body: Text, reason: ProtocolResult) {
    if header.payloadSize < NameOnlySize(1) then reason == InvalidArgument
    else
      match NameIn(body)
      case None => true
      case Some((raw, _)) =>
        match DownloadRefusal(header, CString(raw))
        case Some(why) => reason == why
        case None => reason == InvalidArgument
  }

  lemma {:induction false} MayRefuse(
    t: Thread, base: Text, header: Header, head: Text, body: Text, reason: ProtocolResult)
    requires MayDownload(t, base, header, head) && t.H() == Heard(head, body)
    requires !reason.ProtocolOk? && Refused(header, body, reason)
    ensures t.MaySend(FrameBytes(RejectFrame(reason)))
  {
    hide CString, ValidFileName, NameIn;
    var data := Rejection(reason);
    forall j | 0 <= j <= |data| ensures t.inv(AfterSending(t.H(), data[..j])) {
      assert AfterSending(t.H(), data[..j]).sent == data[..j];
      assert DownloadGuarantee(base, header, body, AfterSending(t.H(), data[..j]));
    }
  }

  /** The refusal after `SEND_READY_REJECT`. */
  method Refuse(
    t: Thread, ghost base: Text, ghost header: Header, ghost head: Text, ghost body: Text, reason: ProtocolResult)
    requires t.Valid() && t.H() == Heard(head, body) && MayDownload(t, base, header, head)
    requires !reason.ProtocolOk? && Refused(header, body, reason)
    modifies t`script, t`faulted, t`trace
    ensures t.Valid() && t.H().stored == old(t.H()).stored
    ensures t.H().recvd == head + body && t.H().source.None? && t.H().temp.None? && (old(t.faulted) ==> t.faulted)
    ensures !t.faulted ==> t.H().sent == Rejection(reason)
  {
    hide Always, Replay, Step, Enabled, MayDownload;
    MayRefuse(t, base, header, head, body, reason);
    var _, k := SendFrame(t, RejectFrame(reason));
    assert k == FRAME_SIZE ==> [] + FrameBytes(RejectFrame(reason))[..k] == Rejection(reason);
  }

  /** What an accepted request has been read as. */
  ghost predicate Accepted(base: Text, header: Header, raw: Text, source: Source) {
    && header.payloadSize >= NameOnlySize(1) && DownloadRefusal(header, CString(raw)) == None
    && JoinRelativePath(PATH_CAP, base, CString(raw)) == Some(source.path)
  }

  ghost function Serving(head: Text, raw: Text, source: Source, sent: Text): History
    requires NameFits(raw)
  {
    START.(recvd := head + EncodeName(raw), source := Some(source), sent := sent)
  }

  lemma {:induction false} MayServe(
    t: Thread, base: Text, header: Header, head: Text, raw: Text, source: Source, sent: Text)
    requires MayDownload(t, base, header, head) && Accepted(base, header, raw, source)
    requires NameFits(raw) && source.size <= SIZE_MAX && NameFits(CString(raw))
    requires Downloading(CString(raw), source, sent)
    ensures t.inv(Serving(head, raw, source, sent))
  {
    hide CString, ValidFileName, NameIn, Downloading, JoinRelativePath;
    NameReads(raw, []);
    assert EncodeName(raw) + [] == EncodeName(raw);
    assert DownloadGuarantee(base, header, EncodeName(raw), Serving(head, raw, source, sent));
  }

  lemma {:induction false} LeadPart(name: Text, source: Source, j: nat)
    requires NameFits(name) && source.size <= SIZE_MAX && j <= |DownloadLead(name, source.size)|
    ensures Downloading(name, source, DownloadLead(name, source.size)[..j])
  {
  }

  lemma {:induction false} BodyPart(name: Text, source: Source, k: nat, end: Text)
    requires NameFits(name) && source.size <= SIZE_MAX && k <= source.size && k <= |source.content|
    requires end == [] || if k == source.size then end <= FinalOk() else end <= Failure(Io)
    ensures Downloading(name, source, DownloadLead(name, source.size) + source.content[..k] + end)
  {
    var lead := DownloadLead(name, source.size);
    var sent := lead + source.content[..k] + end;
    assert sent[|lead|..] == source.content[..k] + end;
    assert (source.content[..k] + end)[k..] == end && (source.content[..k] + end)[..k] == source.content[..k];
    assert DownloadBody(source, sent[|lead|..], k);
    assert lead <= sent;
  }

  lemma {:induction false} MaySendLead(
    t: Thread, base: Text, header: Header, head: Text, raw: Text, source: Source)
    requires MayDownload(t, base, header, head) && Accepted(base, header, raw, source)
    requires NameFits(raw) && source.size <= SIZE_MAX && NameFits(CString(raw))
    requires t.H() == Serving(head, raw, source, [])
    ensures t.MaySend(DownloadLead(CString(raw), source.size))
  {
    hide CString, Accepted, MayDownload, Downloading, DownloadLead;
    var data := DownloadLead(CString(raw), source.size);
    forall j | 0 <= j <= |data| ensures t.inv(AfterSending(t.H(), data[..j])) {
      LeadPart(CString(raw), source, j);
      MayServe(t, base, header, head, raw, source, data[..j]);
      assert [] + data[..j] == data[..j];
      assert AfterSending(t.H(), data[..j]) == Serving(head, raw, source, data[..j]);
    }
  }

  lemma {:induction false} MaySendBody(
    t: Thread, base: Text, header: Header, head: Text, raw: Text, source: Source)
    requires MayDownload(t, base, header, head) && Accepted(base, header, raw, source)
    requires NameFits(raw) && source.size <= SIZE_MAX && NameFits(CString(raw))
    requires t.H() == Serving(head, raw, source, DownloadLead(CString(raw), source.size))
    ensures t.MaySend(source.content[..Min(source.size, |source.content|)])
  {
    hide CString, Accepted, MayDownload, Downloading, DownloadLead;
    var lead, data := t.H().sent, source.content[..Min(source.size, |source.content|)];
    forall j | 0 <= j <= |data| ensures t.inv(AfterSending(t.H(), data[..j])) {
      assert data[..j] == source.content[..j];
      BodyPart(CString(raw), source, j, []);
      assert lead + data[..j] + [] == lead + data[..j];
      MayServe(t, base, header, head, raw, source, lead + data[..j]);
      assert AfterSending(t.H(), data[..j]) == Serving(head, raw, source, lead + data[..j]);
    }
  }

  lemma {:induction false} MayConclude(
    t: Thread, base: Text, header: Header, head: Text, raw: Text, source: Source, k: nat, r: ProtocolResult)
    requires MayDownload(t, base, header, head) && Accepted(base, header, raw, source)
    requires NameFits(raw) && source.size <= SIZE_MAX && NameFits(CString(raw))
    requires k <= source.size && k <= |source.content|
    requires t.H() == Serving(head, raw, source, DownloadLead(CString(raw), source.size) + source.content[..k])
    requires r == if k == source.size then ProtocolOk else Io
    ensures t.MaySend(FrameBytes(FinalFrame(r)))
  {
    hide CString, Accepted, MayDownload, Downloading, DownloadLead, FrameBytes;
    var sent, data := t.H().sent, FrameBytes(FinalFrame(r));
    forall j | 0 <= j <= |data| ensures t.inv(AfterSending(t.H(), data[..j])) {
      BodyPart(CString(raw), source, k, data[..j]);
      MayServe(t, base, header, head, raw, source, sent + data[..j]);
      assert AfterSending(t.H(), data[..j]) == Serving(head, raw, source, sent + data[..j]);
    }
  }

  datatype Download = Download(content: Text, size: nat)

  lemma {:induction false} MayOpen(t: Thread, base: Text, header: Header, head: Text, raw: Text, path: Text)
    requires MayDownload(t, base, header, head) && NameFits(raw) && NameFits(CString(raw))
    requires t.H() == Heard(head, EncodeName(raw))
    requires header.payloadSize >= NameOnlySize(1) && DownloadRefusal(header, CString(raw)) == None
    requires JoinRelativePath(PATH_CAP, base, CString(raw)) == Some(path)
    ensures forall source: Source | source.path == path && source.size <= SIZE_MAX ::
      t.inv(Step(t.H(), Opened(source))) && Step(t.H(), Opened(source)) == Serving(head, raw, source, [])
  {
    hide CString, MayDownload, Downloading, DownloadRefusal, JoinRelativePath;
    forall source: Source | source.path == path && source.size <= SIZE_MAX
      ensures t.inv(Step(t.H(), Opened(source))) && Step(t.H(), Opened(source)) == Serving(head, raw, source, [])
    {
      LeadPart(CString(raw), source, 0);
      MayServe(t, base, header, head, raw, source, []);
    }
  }

  /** `app_prepare_download`: only a regular file under the base is opened. */
  method PrepareDownload(t: Thread, base: Text, name: Text)
    returns (r: ProtocolResult, download: Download, ghost path: Text)
    requires t.Valid()
    requires JoinRelativePath(PATH_CAP, base, name).Some? ==>
      forall source: Source | source.path == JoinRelativePath(PATH_CAP, base, name).value && source.size <= SIZE_MAX ::
        t.inv(Step(t.H(), Opened(source)))
    modifies t`script, t`faulted, t`trace
    ensures t.Valid() && download.size <= SIZE_MAX
    ensures r.ProtocolOk? || r.Io? || r.InvalidArgument?
    ensures (old(t.faulted) ==> t.faulted) && (r.Io? ==> t.faulted)
    ensures if r.ProtocolOk?
      then JoinRelativePath(PATH_CAP, base, name) == Some(path)
        && t.H() == Step(old(t.H()), Opened(Source(path, download.content, download.size)))
      else t.H() == old(t.H())
    ensures match JoinRelativePath(PATH_CAP, base, name)
      case None => r.InvalidArgument?
      case Some(_) =>
        match Head(old(t.script))
        case Fails(_) => r.Io?
        case Done(n, bytes) =>
          if FindsRegular(Head(old(t.script))) then r.ProtocolOk? && download == Download(bytes, n)
          else r.InvalidArgument?
  {
    hide Always, Replay, Step, Enabled, JoinRelativePath;
    download, path := Download([], 0), [];
    var joined := JoinRelativePath(PATH_CAP, base, name);
    if joined.None? {
      return InvalidArgument, download, path;
    }
    path := joined.value;
    var file, regular, content, size := t.OpenSource(joined.value);
    if file.Error? {
      return Io, download, path;
    }
    if !regular {
      return InvalidArgument, download, path;
    }
    r, download := ProtocolOk, Download(content, size);
  }

  /**
   * How an accepted download ends when nothing goes wrong: all there is of the
   * file is sent, and the truth about it.
   */
  ghost predicate Delivered(name: Text, h: History, result: ProtocolResult) {
    match h.source
    case None => h.sent == Rejection(InvalidArgument) && result.InvalidArgument?
    case Some(source) =>
      && NameFits(name) && source.size <= SIZE_MAX
      && if source.size <= |source.content| then result.ProtocolOk? && Served(name, h)
         else result.Io? && h.sent == DownloadLead(name, source.size) + source.content + Failure(Io)
  }

  /** How any download ends when nothing goes wrong. */
  ghost predicate DownloadSettled(header: Header, body: Text, h: History, result: ProtocolResult) {
    if header.payloadSize < NameOnlySize(1) then
      body == [] && h.sent == Rejection(InvalidArgument) && result.InvalidArgument?
    else
      match NameIn(body)
      case None => BadLength(body) && h.sent == Rejection(FileNameLen) && result.FileNameLen?
      case Some((raw, rest)) =>
        && rest == []
        && match DownloadRefusal(header, CString(raw))
           case Some(reason) => !reason.ProtocolOk? && h.sent == Rejection(reason) && result == reason
           case None => Delivered(CString(raw), h, result)
  }

  /** All of the file that was opened is sent, and said to be. */
  ghost predicate Served(name: Text, h: History) {
    && NameFits(name) && h.source.Some?
    && var source := h.source.value;
    && source.size <= SIZE_MAX && source.size <= |source.content|
    && h.sent == DownloadLead(name, source.size) + source.content[..source.size] + FinalOk()
  }

  /** From the opened file on. */
  method SendDownload(
    t: Thread, ghost base: Text, ghost header: Header, ghost head: Text, ghost raw: Text, name: Text,
    download: Download, ghost path: Text)
    returns (result: ProtocolResult)
    requires NameFits(raw) && name == CString(raw) && NameFits(name) && download.size <= SIZE_MAX
    requires t.Valid() && MayDownload(t, base, header, head)
    requires t.H() == Serving(head, raw, Source(path, download.content, download.size), [])
    requires Accepted(base, header, raw, Source(path, download.content, download.size))
    modifies t`script, t`faulted, t`trace
    ensures t.Valid() && t.H().stored == old(t.H()).stored
    ensures t.H().recvd == old(t.H()).recvd && t.H().temp.None? && (old(t.faulted) ==> t.faulted)
    ensures result.ProtocolOk? ==> Served(name, t.H())
    ensures !t.faulted ==> Delivered(name, t.H(), result)
  {
    hide Always, Replay, Step, Enabled, MayDownload, Accepted, CString, DownloadLead, FrameBytes;
    ghost var source := Source(path, download.content, download.size);
    MaySendLead(t, base, header, head, raw, source);
    ghost var k;
    result, k := SendPayload(t, DownloadLead(name, download.size));
    if !result.ProtocolOk? {
      return;
    }
    ghost var lead := DownloadLead(name, download.size);
    assert [] + lead[..k] == lead;
    assert t.H() == Serving(head, raw, source, lead);
    MaySendBody(t, base, header, head, raw, source);
    var sendRes;
    sendRes, k := SendFileBestEffort(t, download.content, download.size);
    assert t.H() == Serving(head, raw, source, lead + source.content[..k]);
    result := if sendRes.SendOk? then ProtocolOk else Io;
    MayConclude(t, base, header, head, raw, source, k, result);
    if !result.ProtocolOk? {
      assert !t.faulted ==> source.content[..k] == source.content;
      var _, m := SendFrame(t, FinalFrame(result));
      assert m == FRAME_SIZE ==> FrameBytes(FinalFrame(result))[..m] == Failure(Io);
      return;
    }
    ghost var j;
    result, j := SendFrame(t, FinalFrame(ProtocolOk));
    assert result.ProtocolOk? ==> FrameBytes(FinalFrame(ProtocolOk))[..j] == FinalOk();
  }

  /**
   * `server_handle_get_file`: success means every byte of the file and FINAL OK
   * were sent; and a run without faults ends as `DownloadSettled` says.
   */
  method HandleGetFile(t: Thread, base: Text, header: Header, ghost head: Text) returns (result: ProtocolResult)
    requires t.Valid() && t.H() == START.(recvd := head)
    requires MayDownload(t, base, header, head)
    modifies t`script, t`faulted, t`trace
    ensures t.Valid() && t.H().stored == old(t.H()).stored
    ensures result.ProtocolOk? ==>
      exists raw: Text :: NameFits(raw) && t.H().recvd == head + EncodeName(raw) && Served(CString(raw), t.H())
    ensures head <= t.H().recvd && t.H().temp.None? && (old(t.faulted) ==> t.faulted)
    ensures !t.faulted ==> DownloadSettled(header, t.H().recvd[|head|..], t.H(), result)
  {
    hide Always, Replay, Step, Enabled, MayDownload, ValidFileName, CString, NameIn, FrameBytes, JoinRelativePath;
    hide EncodeName, Delivered;
    assert forall body: Text :: (head + body)[|head|..] == body;
    if header.payloadSize < NameOnlySize(1) {
      assert t.H() == Heard(head, []);
      Refuse(t, base, header, head, [], InvalidArgument);
      return InvalidArgument;
    }
    MayHear(t, base, header, head);
    var raw;
    ghost var got;
    result, raw, got := RecvName(t);
    assert t.H() == Heard(head, got);
    if !result.ProtocolOk? {
      Refuse(t, base, header, head, got, result);
      return;
    }
    NameReads(raw, []);
    assert got + [] == got;
    var name := CString(raw);
    if !ValidFileName(name) {
      Refuse(t, base, header, head, got, InvalidFileName);
      return InvalidFileName;
    }
    if header.payloadSize != NameOnlySize(|name|) {
      Refuse(t, base, header, head, got, PayloadSizeMismatch);
      return PayloadSizeMismatch;
    }
    result := ServeNamed(t, base, header, head, raw, name);
  }

  /** From the accepted request on. */
  method ServeNamed(t: Thread, base: Text, ghost header: Header, ghost head: Text, ghost raw: Text, name: Text)
    returns (result: ProtocolResult)
    requires t.Valid() && NameFits(raw) && name == CString(raw) && NameFits(name)
    requires t.H() == Heard(head, EncodeName(raw)) && MayDownload(t, base, header, head)
    requires header.payloadSize >= NameOnlySize(1) && DownloadRefusal(header, name) == None
    modifies t`script, t`faulted, t`trace
    ensures t.Valid() && t.H().stored == old(t.H()).stored
    ensures t.H().recvd == head + EncodeName(raw) && t.H().temp.None? && (old(t.faulted) ==> t.faulted)
    ensures result.ProtocolOk? ==> Served(name, t.H())
    ensures !t.faulted ==> Delivered(name, t.H(), result)
  {
    hide Always, Replay, Step, Enabled, MayDownload, CString, FrameBytes, JoinRelativePath, EncodeName, DownloadRefusal;
    NameReads(raw, []);
    assert EncodeName(raw) + [] == EncodeName(raw);
    var download;
    ghost var path;
    if JoinRelativePath(PATH_CAP, base, name).Some? {
      MayOpen(t, base, header, head, raw, JoinRelativePath(PATH_CAP, base, name).value);
    }
    result, download, path := PrepareDownload(t, base, name);
    if !result.ProtocolOk? {
      if result.Io? {
        result := InvalidArgument;
      }
      Refuse(t, base, header, head, EncodeName(raw), result);
      return;
    }
    result := SendDownload(t, base, header, head, raw, name, download, path);
  }
}
