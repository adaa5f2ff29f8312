/** The three commands of the client (src/client.c). */
module Client {
  import opened Bytes
  import opened Paths
  import opened Os
  import opened NetIo
  import opened Wire
  import opened ProtocolIo
  import opened TransferIo
  import opened ServerContract
  import opened ClientContract

  /** The room for a payload behind the header in the preamble buffer. */
  const PREAMBLE_ROOM: nat := PrefixSize(MAX_FILE_NAME_LEN)

  /** `client_send_header_payload`: one send for a short payload, two for a long one. */
  method SendHeaderPayload(t: Thread, msgType: nat, payloadSize: nat, payload: Text) returns (ok: bool, ghost k: nat)
    requires msgType < 0x100 && payloadSize <= SIZE_MAX
    requires t.Valid() && t.MaySend(Preamble(msgType, payloadSize, payload))
    modifies t`script, t`faulted, t`trace
    ensures t.Valid() && k <= |Preamble(msgType, payloadSize, payload)|
    ensures t.H() == AfterSending(old(t.H()), Preamble(msgType, payloadSize, payload)[..k])
    ensures ok <==> k == |Preamble(msgType, payloadSize, payload)|
    ensures (old(t.faulted) ==> t.faulted) && (!ok ==> t.faulted)
  {
    hide Always, Replay, Step, Enabled, EncodeHeader;
    ghost var h, all := t.H(), Preamble(msgType, payloadSize, payload);
    var header := EncodeHeader(HeaderFor(msgType, payloadSize));
    assert h.sent + all[..0] == h.sent;
    var r;
    if |payload| <= PREAMBLE_ROOM {
      r, k := SendPayload(t, header + payload);
      return r.ProtocolOk?, k;
    }
    SendRest(t, h, all, 0, HEADER_SIZE);
    assert all[0..HEADER_SIZE] == header && forall j | 0 <= j <= HEADER_SIZE :: header[..j] == all[..j];
    r, k := SendPayload(t, header);
    if !r.ProtocolOk? {
      return false, k;
    }
    SendRest(t, h, all, HEADER_SIZE, |payload|);
    assert all[HEADER_SIZE..HEADER_SIZE + |payload|] == payload;
    ghost var j;
    r, j := SendPayload(t, payload);
    assert payload[..j] == all[HEADER_SIZE..HEADER_SIZE + j];
    SentMore(h, all, HEADER_SIZE, j);
    ok, k := r.ProtocolOk?, HEADER_SIZE + j;
  }

  // ---------------------------------------------------------------- sending a file

  /** The thread may get into every state an upload allows. */
  ghost predicate MaySendFile(t: Thread, name: Text, path: Text) {
    forall h | UploadClient(name, path, h) :: t.inv(h)
  }

  lemma {:induction false} MayOpenSource(t: Thread, name: Text, path: Text)
    requires MaySendFile(t, name, path) && NameFits(name) && t.H() == START
    ensures forall source: Source | source.path == path && source.size <= SIZE_MAX :: t.inv(Step(START, Opened(source)))
  {
    forall source: Source | source.path == path && source.size <= SIZE_MAX
      ensures t.inv(Step(START, Opened(source)))
    {
      assert source.size <= MAX_FILE_SIZE ==> [] <= UploadLead(name, source.size);
      assert UploadClient(name, path, Step(START, Opened(source)));
    }
  }

  /** The states of an upload, by what has been sent and received. */
  ghost function Uploaded(source: Source, sent: Text, recvd: Text): History {
    START.(source := Some(source), sent := sent, recvd := recvd)
  }

  lemma {:induction false} MaySendLead(t: Thread, name: Text, source: Source)
    requires MaySendFile(t, name, source.path) && NameFits(name) && source.size <= MAX_FILE_SIZE
    requires t.H() == Uploaded(source, [], [])
    ensures t.MaySend(UploadLead(name, source.size))
  {
    hide UploadLead;
    var lead := UploadLead(name, source.size);
    forall j | 0 <= j <= |lead| ensures t.inv(AfterSending(t.H(), lead[..j])) {
      assert AfterSending(t.H(), lead[..j]).sent == lead[..j];
      assert UploadClient(name, source.path, AfterSending(t.H(), lead[..j]));
    }
  }

  lemma {:induction false} MayHearReady(t: Thread, name: Text, source: Source)
    requires MaySendFile(t, name, source.path) && NameFits(name) && source.size <= MAX_FILE_SIZE
    requires t.H() == Uploaded(source, UploadLead(name, source.size), [])
    ensures t.MayReceive(FRAME_SIZE)
  {
    hide UploadLead;
    forall bs: Text | |bs| <= FRAME_SIZE ensures t.inv(AfterReceiving(t.H(), bs)) {
      assert UploadClient(name, source.path, AfterReceiving(t.H(), bs));
    }
  }

  lemma {:induction false} BodyState(t: Thread, name: Text, source: Source, k: nat, recvd: Text)
    requires MaySendFile(t, name, source.path) && NameFits(name) && source.size <= MAX_FILE_SIZE
    requires k <= source.size && k <= |source.content| && ReadyOk() <= recvd
    ensures t.inv(Uploaded(source, UploadLead(name, source.size) + source.content[..k], recvd))
  {
    hide UploadLead, ReadyOk;
    var lead := UploadLead(name, source.size);
    var h := Uploaded(source, lead + source.content[..k], recvd);
    assert h.sent[|lead|..] == source.content[..k] && lead <= h.sent;
    assert UploadClient(name, source.path, h);
  }

  lemma {:induction false} MaySendBody(t: Thread, name: Text, source: Source)
    requires MaySendFile(t, name, source.path) && NameFits(name) && source.size <= MAX_FILE_SIZE
    requires t.H() == Uploaded(source, UploadLead(name, source.size), ReadyOk())
    ensures t.MaySend(source.content[..Min(source.size, |source.content|)])
  {
    hide UploadLead, MaySendFile, ReadyOk;
    var data := source.content[..Min(source.size, |source.content|)];
    forall j | 0 <= j <= |data| ensures t.inv(AfterSending(t.H(), data[..j])) {
      assert data[..j] == source.content[..j];
      BodyState(t, name, source, j, ReadyOk());
      assert AfterSending(t.H(), data[..j])
          == Uploaded(source, UploadLead(name, source.size) + source.content[..j], ReadyOk());
    }
  }

  lemma {:induction false} MayHearFinal(t: Thread, name: Text, source: Source)
    requires MaySendFile(t, name, source.path) && NameFits(name)
    requires source.size <= MAX_FILE_SIZE && source.size <= |source.content|
    requires t.H() == Uploaded(source, UploadLead(name, source.size) + source.content[..source.size], ReadyOk())
    ensures t.MayReceive(FRAME_SIZE)
  {
    hide UploadLead, MaySendFile, ReadyOk;
    forall bs: Text | |bs| <= FRAME_SIZE ensures t.inv(AfterReceiving(t.H(), bs)) {
      BodyState(t, name, source, source.size, ReadyOk() + bs);
    }
  }

  /** `client_send_file_raw`: exit code 0 is given only on what `UploadReported` says. */
  method SendFileRaw(t: Thread, path: Text) returns (exitCode: nat)
    requires t.Valid() && t.H() == START
    requires t.inv == (h => UploadClient(Basename(path), path, h))
    modifies t`script, t`faulted, t`trace
    ensures Always(t.trace, h => UploadClient(Basename(path), path, h))
    ensures exitCode == 0 ==> UploadReported(Basename(path), t.H())
    ensures exitCode != 0 && !t.faulted ==> UploadGivenUp(Basename(path), t.H())
  {
    hide Always, Replay, Step, Enabled, UploadClient, Basename, UploadReported;
    var name := Basename(path);
    if !NameFits(name) {
      return 1;
    }
    MayOpenSource(t, name, path);
    var file, regular, content, size := t.OpenSource(path);
    if file.Error? || !regular {
      return 1;
    }
    ghost var source := Source(path, content, size);
    assert t.H() == Uploaded(source, [], []) by {
      OpenedOne(source);
    }
    if size > MAX_FILE_SIZE {
      return 1;
    }
    var connected := t.Try();
    if !connected {
      return 1;
    }
    exitCode := SendOpened(t, name, source, content, size);
  }

  lemma {:induction false} OpenedOne(source: Source)
    ensures Step(START, Opened(source)) == Uploaded(source, [], [])
  {
  }

  /** From the connection on. */
  method SendOpened(t: Thread, name: Text, ghost source: Source, content: Text, size: nat) returns (exitCode: nat)
    requires t.Valid() && t.H() == Uploaded(source, [], []) && NameFits(name) && size <= MAX_FILE_SIZE
    requires source.content == content && source.size == size && MaySendFile(t, name, source.path)
    modifies t`script, t`faulted, t`trace
    ensures t.Valid()
    ensures exitCode == 0 ==> UploadReported(name, t.H())
    ensures (old(t.faulted) ==> t.faulted) && (exitCode != 0 && !t.faulted ==> UploadGivenUp(name, t.H()))
  {
    hide Always, Replay, Step, Enabled, MaySendFile, EncodePrefix, EncodeHeader, FrameBytes;
    ghost var lead := UploadLead(name, size);
    MaySendLead(t, name, source);
    var ok;
    ghost var k;
    ok, k := SendHeaderPayload(t, SEND_FILE, PrefixSize(|name|) + size, EncodePrefix(name, size));
    if !ok {
      return 1;
    }
    assert [] + lead[..k] == lead;
    assert t.H() == Uploaded(source, lead, []);
    MayHearReady(t, name, source);
    ghost var got;
    ok, got := RecvCheckedResponse(t, READY);
    assert [] + got == got;
    if !ok {
      return 1;
    }
    exitCode := SendAccepted(t, name, source, content, size);
  }

  /** From READY OK on. */
  method SendAccepted(t: Thread, ghost name: Text, ghost source: Source, content: Text, size: nat)
    returns (exitCode: nat)
    requires NameFits(name) && size <= MAX_FILE_SIZE && source.content == content && source.size == size
    requires t.Valid() && t.H() == Uploaded(source, UploadLead(name, size), ReadyOk())
    requires MaySendFile(t, name, source.path)
    modifies t`script, t`faulted, t`trace
    ensures t.Valid()
    ensures exitCode == 0 ==> UploadReported(name, t.H())
    ensures (old(t.faulted) ==> t.faulted) && (exitCode != 0 && !t.faulted ==> UploadGivenUp(name, t.H()))
  {
    hide Always, Replay, Step, Enabled, MaySendFile, UploadLead, FrameBytes;
    ghost var lead := UploadLead(name, size);
    MaySendBody(t, name, source);
    ghost var k;
    var sent;
    sent, k := SendFileBestEffort(t, content, size);
    if !sent.SendOk? {
      assert !t.faulted ==> content[..k] == content;
      return 1;
    }
    assert t.H() == Uploaded(source, lead + content[..size], ReadyOk());
    MayHearFinal(t, name, source);
    var ok;
    ghost var got;
    ok, got := RecvCheckedResponse(t, FINAL);
    assert (ReadyOk() + got)[FRAME_SIZE..] == got;
    exitCode := if ok then 0 else 1;
  }

  // ---------------------------------------------------------------- sending a message

  lemma {:induction false} MaySendMessage(t: Thread, message: Text)
    requires (forall h | MessageClient(message, h) :: t.inv(h)) && |message| <= MAX_TEXT_MESSAGE_SIZE
    requires t.H() == START
    ensures t.MaySend(MessageLead(message))
  {
    hide MessageLead;
    var lead := MessageLead(message);
    forall j | 0 <= j <= |lead| ensures t.inv(AfterSending(START, lead[..j])) {
      assert AfterSending(START, lead[..j]).sent == lead[..j];
      assert MessageClient(message, AfterSending(START, lead[..j]));
    }
  }

  lemma {:induction false} MayHearAnswer(t: Thread, message: Text)
    requires (forall h | MessageClient(message, h) :: t.inv(h)) && |message| <= MAX_TEXT_MESSAGE_SIZE
    requires t.H() == START.(sent := MessageLead(message))
    ensures t.MayReceive(FRAME_SIZE)
  {
    hide MessageLead;
    forall bs: Text | |bs| <= FRAME_SIZE ensures t.inv(AfterReceiving(t.H(), bs)) {
      assert MessageClient(message, AfterReceiving(t.H(), bs));
    }
  }

  /** `client_send_message`. */
  method SendMessage(t: Thread, message: Text) returns (exitCode: nat)
    requires t.Valid() && t.H() == START
    requires t.inv == (h => MessageClient(message, h))
    modifies t`script, t`faulted, t`trace
    ensures Always(t.trace, h => MessageClient(message, h))
    ensures exitCode == 0 ==> MessageReported(message, t.H())
    ensures exitCode != 0 && !t.faulted ==> MessageGivenUp(message, t.H())
  {
    hide Always, Replay, Step, Enabled, MessageClient, EncodeHeader, FrameBytes;
    if |message| > MAX_TEXT_MESSAGE_SIZE {
      return 1;
    }
    var ok := t.Try();
    if !ok {
      return 1;
    }
    ghost var k, got;
    MaySendMessage(t, message);
    ok, k := SendHeaderPayload(t, TEXT_MESSAGE, |message|, message);
    if !ok {
      return 1;
    }
    assert [] + MessageLead(message)[..k] == MessageLead(message);
    MayHearAnswer(t, message);
    ok, got := RecvCheckedResponse(t, FINAL);
    assert [] + got == got;
    if !ok {
      return 1;
    }
    exitCode := 0;
  }
}
