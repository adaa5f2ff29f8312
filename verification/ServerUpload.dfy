/** The upload handler (src/server.c). */
module ServerUpload {
  import opened Bytes
  import opened Paths
  import opened Os
  import opened Wire
  import opened ProtocolIo
  import opened TransferIo
  import opened ServerContract

  /** The thread may get into every state an upload on this header allows. */
  ghost predicate MayUpload(t: Thread, base: Text, pid: nat, header: Header, head: Text) {
    forall h: History, body: Text | h.recvd == head + body && UploadGuarantee(base, pid, header, body, h) :: t.inv(h)
  }

  lemma {:induction false} MayHear(t: Thread, base: Text, pid: nat, header: Header, head: Text)
    requires MayUpload(t, base, pid, header, head) && t.H() == START.(recvd := head)
    requires header.payloadSize >= PrefixSize(1)
    ensures t.MayReceive(PrefixSize(MAX_FILE_NAME_LEN))
  {
    hide CString, ValidFileName, PrefixIn;
    forall body: Text ensures t.inv(AfterReceiving(t.H(), body)) {
      assert AfterReceiving(t.H(), body) == Heard(head, body);
      assert UploadGuarantee(base, pid, header, body, Heard(head, body));
    }
  }

  /** The reason the handler has for refusing what it has heard. */
  ghost predicate Refused(header: Header, body: Text, reason: ProtocolResult) {
    if header.payloadSize < PrefixSize(1) then reason == InvalidArgument
    else
      match PrefixIn(body)
      case None => false
      case Some((raw, size, _)) => UploadRefusal(header, CString(raw), size) == Some(reason)
  }

  lemma {:induction false} MayRefuse(
    t: Thread, base: Text, pid: nat, header: Header, head: Text, body: Text, reason: ProtocolResult)
    requires MayUpload(t, base, pid, header, head) && t.H() == Heard(head, body)
    requires !reason.ProtocolOk? && Refused(header, body, reason)
    ensures t.MaySend(FrameBytes(RejectFrame(reason)))
  {
    hide CString, ValidFileName, PrefixIn;
    var data := Rejection(reason);
    forall j | 0 <= j <= |data| ensures t.inv(AfterSending(t.H(), data[..j])) {
      assert AfterSending(t.H(), data[..j]).sent == data[..j];
      assert UploadGuarantee(base, pid, header, body, AfterSending(t.H(), data[..j]));
    }
  }

  /** What an accepted upload has received: the prefix, then `content`. */
  ghost predicate Accepted(header: Header, raw: Text, size: nat) {
    header.payloadSize >= PrefixSize(1) && UploadRefusal(header, CString(raw), size) == None
  }

  lemma {:induction false} AcceptedGuarantee(
    base: Text, pid: nat, header: Header, raw: Text, size: nat, content: Text, h: History)
    requires NameFits(raw) && size <= SIZE_MAX && Accepted(header, raw, size)
    requires h.source.None? && h.strays == [] && h.stored == []
    requires Uploading(base, CString(raw), pid, size, content, h)
    ensures UploadGuarantee(base, pid, header, EncodePrefix(raw, size) + content, h)
  {
    hide CString, ValidFileName, PrefixIn, Uploading;
    PrefixReads(raw, size, content);
  }

  /** A state the handler is in after READY OK, and every further state its guarantee allows. */
  lemma {:induction false} MayGoOn(
    t: Thread, base: Text, pid: nat, header: Header, head: Text, raw: Text, size: nat, content: Text, h: History)
    requires MayUpload(t, base, pid, header, head) && Accepted(header, raw, size)
    requires NameFits(raw) && size <= SIZE_MAX
    requires h.recvd == head + EncodePrefix(raw, size) + content
    requires h.source.None? && h.strays == [] && h.stored == []
    requires Uploading(base, CString(raw), pid, size, content, h)
    ensures t.inv(h)
  {
    hide UploadGuarantee, Accepted, Uploading, CString;
    AcceptedGuarantee(base, pid, header, raw, size, content, h);
    assert h.recvd == head + (EncodePrefix(raw, size) + content);
  }

  lemma {:induction false} MayBeReady(
    t: Thread, base: Text, pid: nat, header: Header, head: Text, raw: Text, size: nat)
    requires MayUpload(t, base, pid, header, head) && Accepted(header, raw, size)
    requires NameFits(raw) && size <= SIZE_MAX
    requires t.H() == Heard(head, EncodePrefix(raw, size))
    ensures t.MaySend(FrameBytes(ReadyFrame()))
  {
    hide MayUpload, Accepted, CString, JoinRelativePath;
    var data := ReadyOk();
    forall j | 0 <= j <= |data| ensures t.inv(AfterSending(t.H(), data[..j])) {
      var h := AfterSending(t.H(), data[..j]);
      assert h.sent == data[..j];
      assert h.recvd == head + EncodePrefix(raw, size) + [];
      assert Uploading(base, CString(raw), pid, size, [], h) by {
        ReadyOnly(h.sent, j);
      }
      MayGoOn(t, base, pid, header, head, raw, size, [], h);
    }
  }

  lemma {:induction false} ReadyOnly(sent: Text, j: nat)
    requires j <= FRAME_SIZE && sent == ReadyOk()[..j]
    ensures sent <= ReadyOk() && (ReadyOk() <= sent ==> Failing(sent[FRAME_SIZE..]))
  {
    if ReadyOk() <= sent {
      assert sent[FRAME_SIZE..] == [];
      assert [] <= Failure(Io);
    }
  }

  /** The state after READY OK. */
  ghost function Ready(head: Text, raw: Text, size: nat): History
    requires NameFits(raw) && size <= SIZE_MAX
  {
    START.(recvd := head + EncodePrefix(raw, size), sent := ReadyOk())
  }

  lemma {:induction false} ReceivingIsUploading(
    base: Text, name: Text, pid: nat, size: nat, h0: History, h: History)
    requires Receiving(base, name, pid, size, h0, h)
    requires h0.tried == [] && h0.temp.None? && h0.published == [] && h0.sent == ReadyOk()
    ensures Uploading(base, name, pid, size, h.recvd[|h0.recvd|..], h)
  {
    hide InOrder, JoinRelativePath, FrameBytes;
    assert START.tried == h0.tried && START.published == h0.published;
    assert h.sent[FRAME_SIZE..] == [];
    assert [] <= Failure(Io);
  }

  lemma {:induction false} MayReceiveFile(
    t: Thread, base: Text, pid: nat, header: Header, head: Text, raw: Text, size: nat)
    requires MayUpload(t, base, pid, header, head) && Accepted(header, raw, size)
    requires NameFits(raw) && size <= SIZE_MAX
    requires t.H() == Ready(head, raw, size)
    ensures forall h | Receiving(base, CString(raw), pid, size, t.H(), h) :: t.inv(h)
  {
    hide MayUpload, Accepted, CString, Uploading;
    forall h | Receiving(base, CString(raw), pid, size, t.H(), h) ensures t.inv(h) {
      ReceivingIsUploading(base, CString(raw), pid, size, t.H(), h);
      var content := h.recvd[|t.H().recvd|..];
      assert h.recvd == head + EncodePrefix(raw, size) + content;
      MayGoOn(t, base, pid, header, head, raw, size, content, h);
    }
  }

  lemma {:induction false} FinalIsUploading(
    base: Text, name: Text, pid: nat, size: nat, content: Text, h: History, r: ProtocolResult, j: nat)
    requires Uploading(base, name, pid, size, content, h) && h.sent == ReadyOk() && j <= FRAME_SIZE
    requires r.ProtocolOk? <==> h.published != []
    ensures Uploading(base, name, pid, size, content, AfterSending(h, FrameBytes(FinalFrame(r))[..j]))
  {
    var sent := AfterSending(h, FrameBytes(FinalFrame(r))[..j]).sent;
    assert sent[FRAME_SIZE..] == FrameBytes(FinalFrame(r))[..j];
    assert !r.ProtocolOk? ==> sent[FRAME_SIZE..] <= Failure(r);
  }

  lemma {:induction false} MayConclude(
    t: Thread, base: Text, pid: nat, header: Header, head: Text, raw: Text, size: nat, r: ProtocolResult)
    requires MayUpload(t, base, pid, header, head) && Accepted(header, raw, size)
    requires NameFits(raw) && size <= SIZE_MAX
    requires Receiving(base, CString(raw), pid, size, Ready(head, raw, size), t.H())
    requires r.ProtocolOk? <==> t.H().published != []
    ensures t.MaySend(FrameBytes(FinalFrame(r)))
  {
    hide MayUpload, Accepted, CString, Uploading;
    var h0, data := Ready(head, raw, size), FrameBytes(FinalFrame(r));
    ReceivingIsUploading(base, CString(raw), pid, size, h0, t.H());
    var content := t.H().recvd[|h0.recvd|..];
    forall j | 0 <= j <= |data| ensures t.inv(AfterSending(t.H(), data[..j])) {
      FinalIsUploading(base, CString(raw), pid, size, content, t.H(), r, j);
      assert t.H().recvd == head + EncodePrefix(raw, size) + content;
      MayGoOn(t, base, pid, header, head, raw, size, content, AfterSending(t.H(), data[..j]));
    }
  }

  /** The refusal after `SEND_READY_REJECT`. */
  method Refuse(
    t: Thread, ghost base: Text, ghost pid: nat, ghost header: Header, ghost head: Text, ghost body: Text,
    reason: ProtocolResult)
    requires t.Valid() && t.H() == Heard(head, body) && MayUpload(t, base, pid, header, head)
    requires !reason.ProtocolOk? && Refused(header, body, reason)
    modifies t`script, t`faulted, t`trace
    ensures t.Valid() && t.H().stored == old(t.H()).stored
    ensures t.H().recvd == head + body && t.H().temp.None? && (old(t.faulted) ==> t.faulted)
    ensures !t.faulted ==> t.H().sent == Rejection(reason)
  {
    hide Always, Replay, Step, Enabled, MayUpload;
    MayRefuse(t, base, pid, header, head, body, reason);
    var _, k := SendFrame(t, RejectFrame(reason));
    assert k == FRAME_SIZE ==> [] + FrameBytes(RejectFrame(reason))[..k] == Rejection(reason);
  }

  /** How an accepted upload ends when nothing goes wrong. */
  ghost predicate Delivered(
    base: Text, pid: nat, name: Text, size: nat, content: Text, h: History, result: ProtocolResult)
  {
    if HasPlace(base, name, pid) then
      && result.ProtocolOk? && |content| == size && h.sent == ReadyOk() + FinalOk()
      && h.published == [File(JoinRelativePath(PATH_CAP, base, name).value, content)]
    else
      result.InvalidArgument? && content == [] && h.published == [] && h.sent == ReadyOk() + Failure(InvalidArgument)
  }

  /** How any upload ends when nothing goes wrong: what was received decides everything. */
  ghost predicate UploadSettled(
    base: Text, pid: nat, header: Header, body: Text, h: History, result: ProtocolResult)
  {
    if header.payloadSize < PrefixSize(1) then
      body == [] && h.sent == Rejection(InvalidArgument) && result.InvalidArgument?
    else
      match PrefixIn(body)
      case None => BadLength(body) && h.sent == [] && result.FileNameLen?
      case Some((raw, size, content)) =>
        match UploadRefusal(header, CString(raw), size)
        case Some(reason) => content == [] && !reason.ProtocolOk? && h.sent == Rejection(reason) && result == reason
        case None => Delivered(base, pid, CString(raw), size, content, h, result)
  }

  lemma {:induction false} UploadSettledIs(
    base: Text, pid: nat, header: Header, raw: Text, size: nat, content: Text, h: History, result: ProtocolResult)
    requires NameFits(raw) && size <= SIZE_MAX && Accepted(header, raw, size)
    requires Delivered(base, pid, CString(raw), size, content, h, result)
    ensures UploadSettled(base, pid, header, EncodePrefix(raw, size) + content, h, result)
  {
    hide Delivered, PrefixIn, CString, ValidFileName;
    PrefixReads(raw, size, content);
  }

  lemma {:induction false} PublishedIs(base: Text, name: Text, pid: nat, size: nat, h0: History, h: History)
    requires Receiving(base, name, pid, size, h0, h) && h0.published == []
    ensures h.published != [] ==>
      JoinRelativePath(PATH_CAP, base, name).Some? && |h.recvd[|h0.recvd|..]| == size
      && h.published == [File(JoinRelativePath(PATH_CAP, base, name).value, h.recvd[|h0.recvd|..])]
  {
  }

  /** From READY OK on. */
  method ReceiveAccepted(
    t: Thread, base: Text, pid: nat, ghost header: Header, ghost head: Text, ghost raw: Text, name: Text, size: nat)
    returns (result: ProtocolResult, ghost content: Text)
    requires NameFits(raw) && size <= SIZE_MAX
    requires t.Valid() && t.H() == Heard(head, EncodePrefix(raw, size)) && t.pipe == None
    requires MayUpload(t, base, pid, header, head) && Accepted(header, raw, size) && name == CString(raw)
    modifies t`script, t`faulted, t`trace, t`pipe
    ensures t.Valid() && t.H().stored == old(t.H()).stored && t.pipe == None
    ensures result.ProtocolOk? ==> t.H().sent == ReadyOk() + FinalOk() && t.H().published != []
    ensures t.H().recvd == head + EncodePrefix(raw, size) + content && (old(t.faulted) ==> t.faulted)
    ensures !t.faulted ==> Delivered(base, pid, name, size, content, t.H(), result)
    ensures NothingLeft(t.H())
  {
    hide Always, Replay, Step, Enabled, Receiving, MayUpload, Accepted, CString, FrameValid, HasPlace, JoinRelativePath;
    content := [];
    assert head + EncodePrefix(raw, size) + content == head + EncodePrefix(raw, size);
    MayBeReady(t, base, pid, header, head, raw, size);
    ghost var k;
    result, k := SendFrame(t, ReadyFrame());
    if !result.ProtocolOk? {
      return;
    }
    assert t.H() == Ready(head, raw, size);
    MayReceiveFile(t, base, pid, header, head, raw, size);
    result := ReceiveFile(t, base, name, size, ProtocolUpload, pid, PATH_CAP);
    SentUnchanged(base, name, pid, size, Ready(head, raw, size), t.H());
    PublishedIs(base, name, pid, size, Ready(head, raw, size), t.H());
    content := t.H().recvd[|head + EncodePrefix(raw, size)|..];
    MayConclude(t, base, pid, header, head, raw, size, result);
    if !result.ProtocolOk? {
      var _, _ := SendFrame(t, FinalFrame(result));
      return;
    }
    result, k := SendFrame(t, FinalFrame(ProtocolOk));
  }

  lemma {:induction false} SentUnchanged(base: Text, name: Text, pid: nat, size: nat, h0: History, h: History)
    requires Receiving(base, name, pid, size, h0, h)
    ensures h.sent == h0.sent && h.stored == h0.stored && h0.recvd <= h.recvd
  {
  }

  lemma {:induction false} Tail(head: Text, body: Text)
    ensures head <= head + body && (head + body)[|head|..] == body
  {
  }

  /**
   * `server_handle_file_transfer`: success means published, and announced as
   * such; and a run without faults ends as `UploadSettled` says.
   */
  method HandleFileTransfer(t: Thread, base: Text, pid: nat, header: Header, ghost head: Text)
    returns (result: ProtocolResult)
    requires t.Valid() && t.H() == START.(recvd := head) && t.pipe == None
    requires MayUpload(t, base, pid, header, head)
    modifies t`script, t`faulted, t`trace, t`pipe
    ensures t.Valid() && t.H().stored == old(t.H()).stored && t.pipe == None
    ensures result.ProtocolOk? ==> t.H().sent == ReadyOk() + FinalOk() && t.H().published != []
    ensures head <= t.H().recvd && (old(t.faulted) ==> t.faulted)
    ensures !t.faulted ==> UploadSettled(base, pid, header, t.H().recvd[|head|..], t.H(), result)
    ensures NothingLeft(t.H())
  {
    hide Always, Replay, Step, Enabled, MayUpload, ValidFileName, CString, PrefixIn, FrameBytes;
    hide EncodePrefix, Delivered;
    if header.payloadSize < PrefixSize(1) {
      Tail(head, []);
      assert t.H() == Heard(head, []);
      Refuse(t, base, pid, header, head, [], InvalidArgument);
      return InvalidArgument;
    }
    MayHear(t, base, pid, header, head);
    var raw, size;
    ghost var got;
    result, raw, size, got := RecvPrefix(t);
    assert t.H() == Heard(head, got);
    Tail(head, got);
    if !result.ProtocolOk? {
      return;
    }
    PrefixReads(raw, size, []);
    assert got + [] == got;
    var name := CString(raw);
    if !ValidFileName(name) {
      Refuse(t, base, pid, header, head, got, InvalidFileName);
      return InvalidFileName;
    }
    if header.payloadSize != (PrefixSize(|name|) + size) % (SIZE_MAX + 1) {
      Refuse(t, base, pid, header, head, got, PayloadSizeMismatch);
      return PayloadSizeMismatch;
    }
    ghost var content;
    result, content := ReceiveAccepted(t, base, pid, header, head, raw, name, size);
    assert t.H().recvd == head + (EncodePrefix(raw, size) + content);
    Tail(head, EncodePrefix(raw, size) + content);
    if !t.faulted {
      UploadSettledIs(base, pid, header, raw, size, content, t.H(), result);
    }
  }
}
