/** Text messages and the dispatch on the header (src/server.c, src/app_service.c). */
module Server {
  import opened Bytes
  import opened Os
  import opened Wire
  import opened ProtocolIo
  import opened TransferIo
  import opened ServerContract
  import opened ServerUpload
  import opened ServerDownload
  import opened MessageTrim
  import Messages = MessageStore

  /** `app_submit_message`. */
  method SubmitMessage(message: Text, store: Messages.Store, heap: Heap) returns (r: ProtocolResult)
    requires Messages.Sound(store.View())
    modifies store, heap
    ensures Messages.Sound(store.View())
    ensures r.MsgTooLarge? <==> |CString(message)| > 262_144
    ensures r.ProtocolOk? ==> store.message.Some? && Trimmed(CString(message), store.message.value)
    ensures store.View() ==
      if r.ProtocolOk? then Messages.AfterSet(old(store.View()), message) else old(store.View())
    ensures r.ProtocolOk? || r.Io? || r.MsgTooLarge?
    ensures r.Io? ==> !old(store.initialized) || heap.failed
    ensures old(heap.failed) ==> heap.failed
  {
    if |CString(message)| > MAX_TEXT_MESSAGE_SIZE {
      return MsgTooLarge;
    }
    var stored := store.Set(message, heap);
    r := if stored then ProtocolOk else Io;
  }

  /** The store after the messages a connection has put into it. */
  ghost function AfterStoring(s: Messages.State, stored: seq<Text>): Messages.State {
    if stored == [] then s
    else Messages.AfterSet(AfterStoring(s, stored[..|stored| - 1]), stored[|stored| - 1])
  }

  lemma {:induction false} NothingStored(s: Messages.State)
    ensures AfterStoring(s, []) == s && NothingLeft(START)
    ensures forall recvd :: NothingLeft(START.(recvd := recvd))
  {
  }

  lemma {:induction false} StoredOne(s: Messages.State, body: Text)
    ensures AfterStoring(s, [CString(body)]) == Messages.AfterSet(s, body)
  {
    hide CString, Messages.AfterSet;
    WholeString(CString(body));
    SameCString(s, CString(body), body);
    assert [CString(body)][..0] == [];
  }

  lemma {:induction false} SameCString(s: Messages.State, a: Text, b: Text)
    requires CString(a) == CString(b)
    ensures Messages.AfterSet(s, a) == Messages.AfterSet(s, b)
  {
  }

  ghost predicate MayStore(t: Thread, header: Header, head: Text) {
    forall h: History, body: Text | h.recvd == head + body && MessageGuarantee(header, body, h) :: t.inv(h)
  }

  lemma {:induction false} MayHearMessage(t: Thread, header: Header, head: Text)
    requires MayStore(t, header, head) && t.H() == START.(recvd := head)
    ensures forall n: nat :: t.MayReceive(n)
  {
    assert Failing([]) by {
      assert [] <= Failure(Io);
    }
    forall body: Text ensures t.inv(AfterReceiving(t.H(), body)) {
      assert AfterReceiving(t.H(), body) == START.(recvd := head + body);
      assert MessageGuarantee(header, body, START.(recvd := head + body));
    }
  }

  /** The message has been received as `body`; `stored` says what was done with it. */
  ghost function Read(head: Text, body: Text, stored: seq<Text>): History {
    START.(recvd := head + body, stored := stored)
  }

  lemma {:induction false} MayAnswer(t: Thread, header: Header, head: Text, body: Text, r: ProtocolResult)
    requires MayStore(t, header, head)
    requires t.H() == Read(head, body, if r.ProtocolOk? then [CString(body)] else [])
    requires r.ProtocolOk? ==> header.payloadSize <= MAX_TEXT_MESSAGE_SIZE && |body| == header.payloadSize
    ensures t.MaySend(FrameBytes(FinalFrame(r)))
  {
    hide CString;
    var data := FrameBytes(FinalFrame(r));
    forall j | 0 <= j <= |data| ensures t.inv(AfterSending(t.H(), data[..j])) {
      var h := AfterSending(t.H(), data[..j]);
      assert h.sent == data[..j];
      if !r.ProtocolOk? {
        assert h.sent <= Failure(r);
      }
      assert MessageGuarantee(header, body, h);
    }
  }

  lemma {:induction false} MayRecord(t: Thread, header: Header, head: Text, body: Text)
    requires MayStore(t, header, head) && t.H() == Read(head, body, [])
    requires header.payloadSize <= MAX_TEXT_MESSAGE_SIZE && |body| == header.payloadSize
    ensures Step(t.H(), Stored(CString(body))) == Read(head, body, [CString(body)])
    ensures t.inv(Read(head, body, [CString(body)]))
  {
    hide CString;
    assert MessageGuarantee(header, body, Read(head, body, [CString(body)]));
  }

  /** From `malloc` to `SEND_RESPONSE`: the message is received whole and submitted, or nothing is. */
  method ReceiveMessage(t: Thread, header: Header, ghost head: Text, store: Messages.Store, heap: Heap)
    returns (result: ProtocolResult, ghost body: Text)
    requires t.Valid() && t.H() == START.(recvd := head) && MayStore(t, header, head)
    requires header.payloadSize <= MAX_TEXT_MESSAGE_SIZE && Messages.Sound(store.View())
    modifies t`script, t`faulted, t`trace, store, heap
    ensures t.Valid() && Messages.Sound(store.View())
    ensures t.H() == Read(head, body, if result.ProtocolOk? then [CString(body)] else [])
    ensures store.View() ==
      if result.ProtocolOk? then Messages.AfterSet(old(store.View()), body) else old(store.View())
    ensures result.ProtocolOk? ==> |body| == header.payloadSize
    ensures (old(t.faulted) ==> t.faulted) && (old(heap.failed) ==> heap.failed)
    ensures !result.ProtocolOk? ==> t.faulted || heap.failed || !old(store.initialized)
  {
    hide Always, Replay, Step, Enabled, CString, MayStore, Messages.AfterSet;
    body := [];
    assert head + body == head;
    var granted := heap.Request();
    if !granted {
      return Alloc, body;
    }
    MayHearMessage(t, header, head);
    var message;
    result, message := RecvExactly(t, header.payloadSize);
    body := message;
    if !result.ProtocolOk? {
      return;
    }
    result := SubmitMessage(message, store, heap);
    if result.ProtocolOk? {
      MayRecord(t, header, head, body);
      t.Record(Stored(CString(body)));
    }
  }

  /** How a message ends when nothing goes wrong: refused for its size, or stored and acknowledged. */
  ghost predicate MessageSettled(header: Header, body: Text, h: History) {
    if header.payloadSize > MAX_TEXT_MESSAGE_SIZE then
      body == [] && h.stored == [] && h.sent == Failure(MsgTooLarge)
    else
      |body| == header.payloadSize && h.stored == [CString(body)] && h.sent == FinalOk()
  }

  /** `server_handle_text_message`: a run without faults ends as `MessageSettled` says. */
  method HandleTextMessage(t: Thread, header: Header, ghost head: Text, store: Messages.Store, heap: Heap)
    returns (ok: bool)
    requires t.Valid() && t.H() == START.(recvd := head) && MayStore(t, header, head)
    requires Messages.Sound(store.View())
    modifies t`script, t`faulted, t`trace, store, heap
    ensures t.Valid() && Messages.Sound(store.View())
    ensures ok <==> t.H().stored != []
    ensures store.View() == AfterStoring(old(store.View()), t.H().stored)
    ensures head <= t.H().recvd && t.H().temp.None?
    ensures (old(t.faulted) ==> t.faulted) && (old(heap.failed) ==> heap.failed)
    ensures !t.faulted && !heap.failed && old(store.initialized) ==>
      MessageSettled(header, t.H().recvd[|head|..], t.H())
  {
    hide Always, Replay, Step, Enabled, CString, MayStore, Messages.AfterSet, FrameBytes;
    var result;
    ghost var body := [];
    if header.payloadSize > MAX_TEXT_MESSAGE_SIZE {
      assert head + body == head;
      result := MsgTooLarge;
    } else {
      result, body := ReceiveMessage(t, header, head, store, heap);
    }
    MayAnswer(t, header, head, body, result);
    var _, k := SendFrame(t, FinalFrame(result));
    assert k == FRAME_SIZE ==> [] + FrameBytes(FinalFrame(result))[..k] == FrameBytes(FinalFrame(result));
    assert (head + body)[|head|..] == body;
    StoredOne(old(store.View()), body);
    ok := result.ProtocolOk?;
  }

  // ---------------------------------------------------------------- dispatch

  lemma {:induction false} MayBegin(t: Thread, base: Text, pid: nat)
    requires forall h | ServerGuarantee(base, pid, h) :: t.inv(h)
    requires t.H() == START
    ensures t.MayReceive(HEADER_SIZE)
  {
    assert Failing([]) && Rejecting([]) by {
      assert [] <= Failure(Io) && [] <= Rejection(Io);
    }
    forall bs: Text | |bs| <= HEADER_SIZE ensures t.inv(AfterReceiving(START, bs)) {
      assert [] + bs == bs;
      if |bs| == HEADER_SIZE {
        assert bs[..HEADER_SIZE] == bs && bs[HEADER_SIZE..] == [];
        assert NameIn([]) == None && PrefixIn([]) == None;
      }
      assert ServerGuarantee(base, pid, AfterReceiving(START, bs));
    }
  }

  /** Once the header is in, the connection's guarantee is that of its kind. */
  lemma {:induction false} MayHandle(t: Thread, base: Text, pid: nat, head: Text)
    requires forall h | ServerGuarantee(base, pid, h) :: t.inv(h)
    requires |head| == HEADER_SIZE && DecodeHeader(head).Ok?
    ensures var header := DecodeHeader(head).value;
      if header.msgType == SEND_FILE then MayUpload(t, base, pid, header, head)
      else if header.msgType == GET_FILE then MayDownload(t, base, header, head)
      else MayStore(t, header, head)
  {
    hide UploadGuarantee, DownloadGuarantee, MessageGuarantee, DecodeHeader;
    var header := DecodeHeader(head).value;
    forall h: History, body: Text
      | h.recvd == head + body
        && (if header.msgType == SEND_FILE then UploadGuarantee(base, pid, header, body, h)
            else if header.msgType == GET_FILE then DownloadGuarantee(base, header, body, h)
            else MessageGuarantee(header, body, h))
      ensures t.inv(h)
    {
      assert h.recvd[..HEADER_SIZE] == head && h.recvd[HEADER_SIZE..] == body;
      assert ServerGuarantee(base, pid, h);
    }
  }

  /** How a request with this header ends when nothing goes wrong. */
  ghost predicate Answered(base: Text, pid: nat, header: Header, body: Text, h: History, ok: bool) {
    if header.msgType == TEXT_MESSAGE then MessageSettled(header, body, h) && (ok <==> h.stored != [])
    else if header.msgType == SEND_FILE then
      exists result :: UploadSettled(base, pid, header, body, h, result) && ok == result.ProtocolOk?
    else
      exists result :: DownloadSettled(header, body, h, result) && ok == result.ProtocolOk?
  }

  /** How a connection ends when nothing goes wrong: an answer to everything that has a header. */
  ghost predicate Finished(base: Text, pid: nat, h: History, ok: bool) {
    && |h.recvd| >= HEADER_SIZE
    && match DecodeHeader(h.recvd[..HEADER_SIZE])
       case Err(_) => |h.recvd| == HEADER_SIZE && h.sent == [] && !ok
       case Ok(header) => Answered(base, pid, header, h.recvd[HEADER_SIZE..], h, ok)
  }

  /** The switch on the kind of message. */
  method Dispatch(
    t: Thread, base: Text, pid: nat, header: Header, ghost head: Text, store: Messages.Store, heap: Heap)
    returns (ok: bool)
    requires t.Valid() && t.H() == START.(recvd := head) && t.pipe == None && Messages.Sound(store.View())
    requires header.msgType in {SEND_FILE, TEXT_MESSAGE, GET_FILE}
    requires header.msgType == TEXT_MESSAGE ==> MayStore(t, header, head)
    requires header.msgType == SEND_FILE ==> MayUpload(t, base, pid, header, head)
    requires header.msgType == GET_FILE ==> MayDownload(t, base, header, head)
    modifies t`script, t`faulted, t`trace, t`pipe, store, heap
    ensures t.Valid() && t.pipe == None && Messages.Sound(store.View())
    ensures store.View() == AfterStoring(old(store.View()), t.H().stored)
    ensures head <= t.H().recvd && NothingLeft(t.H())
    ensures (old(t.faulted) ==> t.faulted) && (old(heap.failed) ==> heap.failed)
    ensures !t.faulted && !heap.failed && old(store.initialized) ==>
      Answered(base, pid, header, t.H().recvd[|head|..], t.H(), ok)
  {
    hide Always, Replay, Step, Enabled, MayUpload, MayDownload, MayStore, Messages.AfterSet;
    hide UploadSettled, DownloadSettled, MessageSettled;
    if header.msgType == TEXT_MESSAGE {
      ok := HandleTextMessage(t, header, head, store, heap);
    } else if header.msgType == SEND_FILE {
      var result := HandleFileTransfer(t, base, pid, header, head);
      ok := result.ProtocolOk?;
    } else {
      var result := HandleGetFile(t, base, header, head);
      ok := result.ProtocolOk?;
    }
  }

  /**
   * `handle_protocol_connection`, after src/server.c has told the protocol from
   * HTTP by peeking. A thread that promises `ServerGuarantee` keeps it at every
   * event of every run, whatever the peer and the operating system do; and a run
   * without faults ends as `Finished` says.
   */
  method HandleProtocolConnection(t: Thread, base: Text, pid: nat, store: Messages.Store, heap: Heap) returns (ok: bool)
    requires t.Valid() && t.H() == START && t.pipe == None
    requires t.inv == (h => ServerGuarantee(base, pid, h))
    requires Messages.Sound(store.View())
    modifies t`script, t`faulted, t`trace, t`pipe, store, heap
    ensures Always(t.trace, h => ServerGuarantee(base, pid, h))
    ensures t.pipe == None && NothingLeft(t.H()) && Messages.Sound(store.View())
    ensures store.View() == AfterStoring(old(store.View()), t.H().stored)
    ensures !t.faulted && !heap.failed && old(store.initialized) ==> Finished(base, pid, t.H(), ok)
  {
    hide Always, Replay, Step, Enabled, ServerGuarantee, MayUpload, MayDownload, MayStore, Answered, DecodeHeader;
    hide AfterStoring, NothingLeft, Messages.Sound;
    NothingStored(store.View());
    MayBegin(t, base, pid);
    var decoded;
    ghost var got;
    decoded, got := RecvHeader(t);
    assert [] + got == got;
    if decoded.Err? {
      assert |got| == HEADER_SIZE ==> got[..HEADER_SIZE] == got;
      return false;
    }
    MayHandle(t, base, pid, got);
    ok := Dispatch(t, base, pid, decoded.value, got, store, heap);
    assert t.H().recvd[..HEADER_SIZE] == got;
  }
}
