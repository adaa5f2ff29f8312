/** The guarantees are not empty promises: an upload, a download or a message that meets no fault succeeds. */
module FaultFree {
  import opened Bytes
  import opened Paths
  import opened Os
  import opened Wire
  import opened TransferIo
  import opened ServerContract
  import opened ClientContract
  import opened Session
  import opened EndToEnd
  import ClientFetch
  import ServerUpload
  import ServerDownload
  import ServerCode = Server

  /** A run that has come to these two histories. */
  ghost predicate Reached(
    turns: seq<Turn>, c: History, s: History, clientInv: History -> bool, serverInv: History -> bool)
  {
    Runs(turns, clientInv, serverInv) && Client(turns, |turns|) == c && Server(turns, |turns|) == s
  }

  lemma {:induction false} ClientActs(
    turns: seq<Turn>, e: Event, c: History, s: History, c': History,
    clientInv: History -> bool, serverInv: History -> bool)
    returns (more: seq<Turn>)
    requires Reached(turns, c, s, clientInv, serverInv) && Enabled(c, e) && c' == Step(c, e) && clientInv(c')
    requires c'.recvd <= s.sent && s.recvd <= c'.sent
    ensures Reached(more, c', s, clientInv, serverInv)
  {
    hide Runs, Client, Server, Enabled, Step;
    GoOn(turns, ByClient(e), c, s, clientInv, serverInv);
    more := turns + [ByClient(e)];
  }

  lemma {:induction false} ServerActs(
    turns: seq<Turn>, e: Event, c: History, s: History, s': History,
    clientInv: History -> bool, serverInv: History -> bool)
    returns (more: seq<Turn>)
    requires Reached(turns, c, s, clientInv, serverInv) && Enabled(s, e) && s' == Step(s, e) && serverInv(s')
    requires s'.recvd <= c.sent && c.recvd <= s'.sent
    ensures Reached(more, c, s', clientInv, serverInv)
  {
    hide Runs, Client, Server, Enabled, Step;
    GoOn(turns, ByServer(e), c, s, clientInv, serverInv);
    more := turns + [ByServer(e)];
  }

  lemma {:induction false} NothingYet(clientInv: History -> bool, serverInv: History -> bool)
    requires clientInv(START) && serverInv(START)
    ensures Reached([], START, START, clientInv, serverInv)
  {
  }

  // ---------------------------------------------------------------- the states of an upload

  ghost function ClientAt(source: Source, sent: Text, recvd: Text): History {
    START.(source := Some(source), sent := sent, recvd := recvd)
  }

  ghost function ServerAt(
    recvd: Text, sent: Text, tried: seq<Attempt>, temp: Option<File>, published: seq<File>): History
  {
    START.(recvd := recvd, sent := sent, tried := tried, temp := temp, published := published)
  }

  lemma {:induction false} ClientMay(name: Text, source: Source, recvd: Text)
    requires NameFits(name) && source.size == |source.content| <= MAX_FILE_SIZE
    ensures UploadClient(name, source.path, START)
    ensures UploadClient(name, source.path, ClientAt(source, [], []))
    ensures UploadClient(name, source.path, ClientAt(source, UploadLead(name, source.size), recvd))
    ensures ReadyOk() <= recvd ==>
      UploadClient(name, source.path, ClientAt(source, UploadLead(name, source.size) + source.content, recvd))
  {
    hide UploadLead, FrameBytes;
    var lead := UploadLead(name, source.size);
    assert (lead + source.content)[|lead|..] == source.content;
  }

  /** A whole preamble is read as it was written. */
  lemma {:induction false} HeaderIsSeen(msgType: nat, payloadSize: nat, payload: Text)
    requires msgType in {SEND_FILE, TEXT_MESSAGE, GET_FILE} && payloadSize <= SIZE_MAX
    ensures var recvd := Preamble(msgType, payloadSize, payload);
      && |recvd| >= HEADER_SIZE && DecodeHeader(recvd[..HEADER_SIZE]) == Ok(HeaderFor(msgType, payloadSize))
      && recvd[HEADER_SIZE..] == payload
  {
    hide DecodeHeader, EncodeHeader;
    HeaderSeen(msgType, payloadSize, payload, Preamble(msgType, payloadSize, payload));
  }

  /** The guarantee of an upload that sends this name and size is that of its kind. */
  lemma {:induction false} ServerMay(base: Text, pid: nat, name: Text, size: nat, content: Text, h: History)
    requires ValidFileName(name) && NUL !in name && NameFits(name) && size <= MAX_FILE_SIZE
    requires h.recvd == UploadLead(name, size) + content && Uploading(base, name, pid, size, content, h)
    requires h.source.None? && h.strays == [] && h.stored == []
    ensures ServerGuarantee(base, pid, h)
  {
    hide Uploading, DecodeHeader, PrefixIn, EncodeHeader, EncodePrefix, ValidFileName, CString;
    var payloadSize := PrefixSize(|name|) + size;
    assert h.recvd == Preamble(SEND_FILE, payloadSize, EncodePrefix(name, size) + content);
    HeaderSeen(SEND_FILE, payloadSize, EncodePrefix(name, size) + content, h.recvd);
    assert h.recvd[HEADER_SIZE..] == EncodePrefix(name, size) + content;
    PrefixReads(name, size, content);
    WholeString(name);
    assert payloadSize % (SIZE_MAX + 1) == payloadSize;
  }

  lemma {:induction false} Unaccepted(base: Text, name: Text, pid: nat, size: nat, recvd: Text)
    ensures Uploading(base, name, pid, size, [], ServerAt(recvd, [], [], None, []))
  {
  }

  /** Everything after READY OK: the attempts, the body, the publication and the final frame. */
  lemma {:induction false} Accepted(
    base: Text, name: Text, target: Text, pid: nat, content: Text, recvd: Text,
    tried: seq<Attempt>, got: Text, put: Text, reply: Text)
    requires JoinRelativePath(PATH_CAP, base, name) == Some(target) && InOrder(target, pid, tried)
    requires put <= got && |got| <= |content| && (reply == [] || reply == FinalOk())
    ensures var sent := ReadyOk() + reply;
      && (reply == [] ==> Uploading(base, name, pid, |content|, got, ServerAt(recvd, sent, tried, None, [])))
      && (reply == [] && Succeeds(tried) ==>
            Uploading(base, name, pid, |content|, got,
              ServerAt(recvd, sent, tried, Some(File(tried[|tried| - 1].path, put)), [])))
      && (got == content ==>
            Uploading(base, name, pid, |content|, got, ServerAt(recvd, sent, tried, None, [File(target, content)])))
  {
    hide FrameBytes, InOrder, JoinRelativePath;
    var sent := ReadyOk() + reply;
    assert sent[FRAME_SIZE..] == reply;
    assert [] <= Failure(Io);
    assert tried[0..] == tried;
  }

  /** The first attempt makes the file. */
  function FirstTry(target: Text, pid: nat): (r: seq<Attempt>)
    ensures InOrder(target, pid, r) && Succeeds(r)
  {
    [Made(TempName(target, pid, 0))]
  }

  ghost predicate Promises(path: Text, base: Text, pid: nat, clientInv: History -> bool, serverInv: History -> bool) {
    (forall h :: clientInv(h) == UploadClient(Basename(path), path, h))
    && (forall h :: serverInv(h) == ServerGuarantee(base, pid, h))
  }

  /** Opening, asking and being accepted. */
  lemma {:induction false} GetsReady(
    path: Text, base: Text, pid: nat, source: Source, clientInv: History -> bool, serverInv: History -> bool)
    returns (turns: seq<Turn>)
    requires Promises(path, base, pid, clientInv, serverInv)
    requires NUL !in path && ValidFileName(Basename(path)) && NameFits(Basename(path))
    requires source.path == path && source.size == |source.content| <= MAX_FILE_SIZE
    ensures var lead := UploadLead(Basename(path), source.size);
      Reached(turns, ClientAt(source, lead, ReadyOk()), ServerAt(lead, ReadyOk(), [], None, []), clientInv, serverInv)
  {
    hide Reached, UploadLead, FrameBytes, JoinRelativePath, ValidFileName, UploadClient, ServerGuarantee;
    hide Uploading, Basename;
    var name := Basename(path);
    assert NUL !in name;
    var lead, ready := UploadLead(name, source.size), ReadyOk();
    var c2, s1, s2 := ClientAt(source, lead, []), ServerAt(lead, [], [], None, []), ServerAt(lead, ready, [], None, []);
    ClientMay(name, source, []);
    ClientMay(name, source, ready);
    assert lead + [] == lead && [] + lead == lead && [] + ready == ready;
    Silent(base, pid);
    Unaccepted(base, name, pid, source.size, lead);
    ServerMay(base, pid, name, source.size, [], s1);
    ReadySent(base, name, pid, source.size, lead);
    ServerMay(base, pid, name, source.size, [], s2);
    NothingYet(clientInv, serverInv);
    turns := ClientActs([], Opened(source), START, START, ClientAt(source, [], []), clientInv, serverInv);
    turns := ClientActs(turns, Sent(lead), ClientAt(source, [], []), START, c2, clientInv, serverInv);
    turns := ServerActs(turns, Os.Event.Received(lead), c2, START, s1, clientInv, serverInv);
    turns := ServerActs(turns, Sent(ready), c2, s1, s2, clientInv, serverInv);
    turns := ClientActs(turns, Os.Event.Received(ready), c2, s2, ClientAt(source, lead, ready), clientInv, serverInv);
  }

  lemma {:induction false} Silent(base: Text, pid: nat)
    ensures ServerGuarantee(base, pid, START)
  {
  }

  lemma {:induction false} ReadySent(base: Text, name: Text, pid: nat, size: nat, recvd: Text)
    ensures Uploading(base, name, pid, size, [], ServerAt(recvd, ReadyOk(), [], None, []))
  {
    assert ReadyOk()[FRAME_SIZE..] == [];
    assert [] <= Failure(Io);
  }

  /** The server may be behind its new file, have the body, and have it on disk. */
  lemma {:induction false} BodyStates(base: Text, pid: nat, name: Text, content: Text, target: Text)
    requires NUL !in name && ValidFileName(name) && NameFits(name) && |content| <= MAX_FILE_SIZE
    requires JoinRelativePath(PATH_CAP, base, name) == Some(target)
    ensures var lead, ready, tried := UploadLead(name, |content|), ReadyOk(), FirstTry(target, pid);
      var temp := TempName(target, pid, 0);
      && ServerGuarantee(base, pid, ServerAt(lead, ready, tried, Some(File(temp, [])), []))
      && ServerGuarantee(base, pid, ServerAt(lead + content, ready, tried, Some(File(temp, [])), []))
      && ServerGuarantee(base, pid, ServerAt(lead + content, ready, tried, Some(File(temp, content)), []))
  {
    hide UploadLead, FrameBytes, JoinRelativePath, ValidFileName, ServerGuarantee, Uploading, TempName;
    var n, lead, ready, tried := |content|, UploadLead(name, |content|), ReadyOk(), FirstTry(target, pid);
    var temp := TempName(target, pid, 0);
    assert lead + [] == lead && ready + [] == ready && [] + content == content;
    Accepted(base, name, target, pid, content, lead, tried, [], [], []);
    ServerMay(base, pid, name, n, [], ServerAt(lead, ready, tried, Some(File(temp, [])), []));
    Accepted(base, name, target, pid, content, lead + content, tried, content, [], []);
    ServerMay(base, pid, name, n, content, ServerAt(lead + content, ready, tried, Some(File(temp, [])), []));
    Accepted(base, name, target, pid, content, lead + content, tried, content, content, []);
    ServerMay(base, pid, name, n, content, ServerAt(lead + content, ready, tried, Some(File(temp, content)), []));
  }

  /** The body, the publication and the final frame. */
  lemma {:induction false} SendsBody(
    path: Text, base: Text, pid: nat, source: Source, target: Text, turns0: seq<Turn>,
    clientInv: History -> bool, serverInv: History -> bool)
    returns (turns: seq<Turn>)
    requires Promises(path, base, pid, clientInv, serverInv)
    requires NUL !in path && ValidFileName(Basename(path)) && NameFits(Basename(path))
    requires source.path == path && source.size == |source.content| <= MAX_FILE_SIZE
    requires JoinRelativePath(PATH_CAP, base, Basename(path)) == Some(target)
    requires var lead := UploadLead(Basename(path), source.size);
      Reached(turns0, ClientAt(source, lead, ReadyOk()), ServerAt(lead, ReadyOk(), [], None, []), clientInv, serverInv)
    ensures var all := UploadLead(Basename(path), source.size) + source.content;
      Reached(
        turns, ClientAt(source, all, ReadyOk()),
        ServerAt(all, ReadyOk(), FirstTry(target, pid), Some(File(TempName(target, pid, 0), source.content)), []),
        clientInv, serverInv)
  {
    hide Reached, UploadLead, FrameBytes, JoinRelativePath, ValidFileName, UploadClient, ServerGuarantee;
    hide Uploading, Basename, TempName;
    var name, content := Basename(path), source.content;
    assert NUL !in name;
    var lead, ready, temp := UploadLead(name, source.size), ReadyOk(), TempName(target, pid, 0);
    var c4 := ClientAt(source, lead + content, ready);
    var tried, s2 := FirstTry(target, pid), ServerAt(lead, ready, [], None, []);
    var s3 := ServerAt(lead, ready, tried, Some(File(temp, [])), []);
    var s4 := ServerAt(lead + content, ready, tried, Some(File(temp, [])), []);
    var s5 := ServerAt(lead + content, ready, tried, Some(File(temp, content)), []);
    assert lead + [] == lead && ready + [] == ready && [] + content == content && [] + tried == tried;
    ClientMay(name, source, ready);
    BodyStates(base, pid, name, content, target);
    turns := ClientActs(turns0, Sent(content), ClientAt(source, lead, ready), s2, c4, clientInv, serverInv);
    turns := ServerActs(turns, Created(temp), c4, s2, s3, clientInv, serverInv);
    turns := ServerActs(turns, Os.Event.Received(content), c4, s3, s4, clientInv, serverInv);
    turns := ServerActs(turns, Wrote(content), c4, s4, s5, clientInv, serverInv);
  }

  lemma {:induction false} Publishes(
    path: Text, base: Text, pid: nat, source: Source, target: Text, turns0: seq<Turn>,
    clientInv: History -> bool, serverInv: History -> bool)
    returns (turns: seq<Turn>)
    requires Promises(path, base, pid, clientInv, serverInv)
    requires NUL !in path && ValidFileName(Basename(path)) && NameFits(Basename(path))
    requires source.path == path && source.size == |source.content| <= MAX_FILE_SIZE
    requires JoinRelativePath(PATH_CAP, base, Basename(path)) == Some(target)
    requires var all := UploadLead(Basename(path), source.size) + source.content;
      Reached(
        turns0, ClientAt(source, all, ReadyOk()),
        ServerAt(all, ReadyOk(), FirstTry(target, pid), Some(File(TempName(target, pid, 0), source.content)), []),
        clientInv, serverInv)
    ensures var all := UploadLead(Basename(path), source.size) + source.content;
      Reached(
        turns, ClientAt(source, all, ReadyOk() + FinalOk()),
        ServerAt(all, ReadyOk() + FinalOk(), FirstTry(target, pid), None, [File(target, source.content)]),
        clientInv, serverInv)
  {
    hide Reached, UploadLead, FrameBytes, JoinRelativePath, ValidFileName, UploadClient, ServerGuarantee;
    hide Uploading, Basename, TempName;
    var name, content := Basename(path), source.content;
    assert NUL !in name;
    var ready, temp, all := ReadyOk(), TempName(target, pid, 0), UploadLead(name, source.size) + content;
    var c4, c5 := ClientAt(source, all, ready), ClientAt(source, all, ready + FinalOk());
    var tried := FirstTry(target, pid);
    var s5 := ServerAt(all, ready, tried, Some(File(temp, content)), []);
    var s6 := ServerAt(all, ready, tried, None, [File(target, content)]);
    var s7 := ServerAt(all, ready + FinalOk(), tried, None, [File(target, content)]);
    assert ready + [] == ready && [] + [File(target, content)] == [File(target, content)];
    ClientMay(name, source, ready + FinalOk());
    Accepted(base, name, target, pid, content, all, tried, content, content, []);
    ServerMay(base, pid, name, source.size, content, s6);
    Accepted(base, name, target, pid, content, all, tried, content, content, FinalOk());
    ServerMay(base, pid, name, source.size, content, s7);
    turns := ServerActs(turns0, Renamed(target), c4, s5, s6, clientInv, serverInv);
    turns := ServerActs(turns, Sent(FinalOk()), c4, s6, s7, clientInv, serverInv);
    turns := ClientActs(turns, Os.Event.Received(FinalOk()), c4, s7, c5, clientInv, serverInv);
  }

  lemma {:induction false} WholeRun(
    path: Text, base: Text, pid: nat, source: Source, target: Text,
    clientInv: History -> bool, serverInv: History -> bool)
    returns (turns: seq<Turn>)
    requires Promises(path, base, pid, clientInv, serverInv)
    requires NUL !in path && ValidFileName(Basename(path)) && NameFits(Basename(path))
    requires source.path == path && source.size == |source.content| <= MAX_FILE_SIZE
    requires JoinRelativePath(PATH_CAP, base, Basename(path)) == Some(target)
    ensures var all := UploadLead(Basename(path), source.size) + source.content;
      Reached(
        turns, ClientAt(source, all, ReadyOk() + FinalOk()),
        ServerAt(all, ReadyOk() + FinalOk(), FirstTry(target, pid), None, [File(target, source.content)]),
        clientInv, serverInv)
  {
    hide Promises, Reached, UploadLead, FrameBytes, TempName, JoinRelativePath, ValidFileName, Basename;
    turns := GetsReady(path, base, pid, source, clientInv, serverInv);
    turns := SendsBody(path, base, pid, source, target, turns, clientInv, serverInv);
    turns := Publishes(path, base, pid, source, target, turns, clientInv, serverInv);
  }

  /**
   * For every file name a server accepts and every content within the limit
   * there is a run at whose end the client reports success and the server has
   * published the file.
   */
  lemma {:induction false} UploadSucceeds(path: Text, base: Text, pid: nat, content: Text, target: Text)
    returns (turns: seq<Turn>)
    requires NUL !in path && ValidFileName(Basename(path)) && NameFits(Basename(path)) && |content| <= MAX_FILE_SIZE
    requires JoinRelativePath(PATH_CAP, base, Basename(path)) == Some(target)
    ensures Runs(turns, h => UploadClient(Basename(path), path, h), h => ServerGuarantee(base, pid, h))
    ensures UploadReported(Basename(path), Client(turns, |turns|))
    ensures Client(turns, |turns|).source == Some(Source(path, content, |content|))
    ensures Server(turns, |turns|).published == [File(target, content)]
  {
    hide Runs, Client, Server, UploadLead, FrameBytes, JoinRelativePath, ValidFileName, UploadClient;
    hide ServerGuarantee, Basename;
    assert content[..|content|] == content;
    turns := WholeRun(
      path, base, pid, Source(path, content, |content|), target,
      h => UploadClient(Basename(path), path, h), h => ServerGuarantee(base, pid, h));
  }

  // ---------------------------------------------------------------- every run without faults

  /** A part of a prefix is no prefix of illegal length. */
  lemma {:induction false} GoodLengthSeen(name: Text, size: nat, content: Text, body: Text)
    requires NameFits(name) && size <= SIZE_MAX && body <= EncodePrefix(name, size) + content
    ensures !BadLength(body)
  {
    hide BigEndian, FromBigEndian;
    if |body| == 2 {
      Widths();
      DecodesEncoded(|name|, 2);
      assert body == BigEndian(|name|, 2);
    }
  }

  /** What the server has made of a client's upload when nothing went wrong on its side. */
  lemma {:induction false} ServerDelivers(
    base: Text, pid: nat, name: Text, source: Source, s: History, ok: bool)
    requires ValidFileName(name) && NUL !in name && NameFits(name) && HasPlace(base, name, pid)
    requires source.size <= MAX_FILE_SIZE && source.size <= |source.content|
    requires s.recvd <= WholeUpload(name, source) && ServerCode.Finished(base, pid, s, ok)
    ensures ok && s.sent == ReadyOk() + FinalOk()
    ensures s.published == [File(JoinRelativePath(PATH_CAP, base, name).value, source.content[..source.size])]
  {
    hide DecodeHeader, PrefixIn, EncodePrefix, EncodeHeader, FrameBytes, ValidFileName, CString, HasPlace, BadLength;
    hide JoinRelativePath, ServerCode.MessageSettled;
    var payloadSize := PrefixSize(|name|) + source.size;
    var part := source.content[..source.size];
    assert WholeUpload(name, source) == Preamble(SEND_FILE, payloadSize, EncodePrefix(name, source.size) + part);
    HeaderSeen(SEND_FILE, payloadSize, EncodePrefix(name, source.size) + part, s.recvd);
    var body := s.recvd[HEADER_SIZE..];
    PrefixSeen(name, source.size, part, body);
    GoodLengthSeen(name, source.size, part, body);
    WholeString(name);
    hide ServerUpload.UploadSettled;
    var result :| ServerUpload.UploadSettled(base, pid, HeaderFor(SEND_FILE, payloadSize), body, s, result)
      && ok == result.ProtocolOk?;
    DeliveredWhole(base, pid, name, source.size, part, body, s, result, payloadSize);
  }

  lemma {:induction false} DeliveredWhole(
    base: Text, pid: nat, name: Text, size: nat, part: Text, body: Text, s: History, result: ProtocolResult,
    payloadSize: nat)
    requires ValidFileName(name) && NameFits(name) && CString(name) == name && HasPlace(base, name, pid)
    requires size <= MAX_FILE_SIZE && payloadSize == PrefixSize(|name|) + size && |part| == size
    requires PrefixIn(body).Some? ==>
      PrefixIn(body).value.0 == name && PrefixIn(body).value.1 == size && PrefixIn(body).value.2 <= part
    requires !BadLength(body)
    requires ServerUpload.UploadSettled(base, pid, HeaderFor(SEND_FILE, payloadSize), body, s, result)
    ensures result.ProtocolOk? && s.sent == ReadyOk() + FinalOk()
    ensures s.published == [File(JoinRelativePath(PATH_CAP, base, name).value, part)]
  {
    hide PrefixIn, FrameBytes, ValidFileName, CString, HasPlace, BadLength, JoinRelativePath;
    assert payloadSize % (SIZE_MAX + 1) == payloadSize;
    var (raw, n, content) := PrefixIn(body).value;
    assert content == part;
  }

  /** A client that has read a part of these two frames has no cause to give up. */
  lemma {:induction false} NoCauseToGiveUp(name: Text, c: History)
    requires c.source.Some? && c.source.value.size <= MAX_FILE_SIZE
    requires c.source.value.size <= |c.source.value.content|
    requires c.recvd <= ReadyOk() + FinalOk()
    ensures !UploadGivenUp(name, c)
  {
    hide FrameBytes, UploadLead;
    var all := ReadyOk() + FinalOk();
    assert all[..FRAME_SIZE] == ReadyOk() && all[FRAME_SIZE..] == FinalOk();
    if |c.recvd| == FRAME_SIZE {
      assert c.recvd == all[..FRAME_SIZE];
    }
    if |c.recvd| == 2 * FRAME_SIZE {
      assert c.recvd == all;
    }
  }

  /**
   * In every run in which both sides come to an end as they do without faults,
   * an acceptable name, room for the file and a source of the announced length
   * are enough: the upload succeeds, and the file is published.
   */
  lemma {:induction false} FaultFreeUploadsSucceed(turns: seq<Turn>, path: Text, base: Text, pid: nat, ok: bool)
    requires Runs(turns, h => UploadClient(Basename(path), path, h), h => ServerGuarantee(base, pid, h))
    requires NUL !in path && ValidFileName(Basename(path)) && HasPlace(base, Basename(path), pid)
    requires var c := Client(turns, |turns|);
      && (UploadReported(Basename(path), c) || UploadGivenUp(Basename(path), c))
      && c.source.Some? && c.source.value.size <= MAX_FILE_SIZE && c.source.value.size <= |c.source.value.content|
    requires ServerCode.Finished(base, pid, Server(turns, |turns|), ok)
    ensures UploadReported(Basename(path), Client(turns, |turns|)) && ok
    ensures var source := Client(turns, |turns|).source.value;
      Server(turns, |turns|).published ==
        [File(JoinRelativePath(PATH_CAP, base, Basename(path)).value, source.content[..source.size])]
  {
    hide Runs, Client, Server, UploadClient, ServerGuarantee, ServerCode.Finished, HasPlace, JoinRelativePath;
    hide ValidFileName, UploadLead, FrameBytes, Basename;
    Moment(turns, h => UploadClient(Basename(path), path, h), h => ServerGuarantee(base, pid, h), |turns|);
    var name, c, s := Basename(path), Client(turns, |turns|), Server(turns, |turns|);
    var source := c.source.value;
    assert NUL !in name;
    assert NameFits(name) by {
      assert c != START;
    }
    if c.sent != [] {
      SentOfWhole(name, path, c);
    }
    assert s.recvd <= WholeUpload(name, source);
    ServerDelivers(base, pid, name, source, s, ok);
    NoCauseToGiveUp(name, c);
  }

  // ---------------------------------------------------------------- messages and downloads

  /**
   * The same for messages: one that is not too large is acknowledged, and is what
   * this connection has handed to the store.
   */
  lemma {:induction false} FaultFreeMessagesSucceed(turns: seq<Turn>, message: Text, base: Text, pid: nat, ok: bool)
    requires Runs(turns, h => MessageClient(message, h), h => ServerGuarantee(base, pid, h))
    requires NUL !in message && |message| <= MAX_TEXT_MESSAGE_SIZE
    requires var c := Client(turns, |turns|);
      MessageReported(message, c) || MessageGivenUp(message, c)
    requires ServerCode.Finished(base, pid, Server(turns, |turns|), ok)
    ensures MessageReported(message, Client(turns, |turns|)) && ok
    ensures Server(turns, |turns|).stored == [message]
  {
    hide Runs, Client, Server, FrameBytes, DecodeHeader, EncodeHeader, CString, ServerGuarantee;
    hide ServerUpload.UploadSettled, ServerDownload.DownloadSettled;
    Moment(turns, h => MessageClient(message, h), h => ServerGuarantee(base, pid, h), |turns|);
    var c, s := Client(turns, |turns|), Server(turns, |turns|);
    HeaderSeen(TEXT_MESSAGE, |message|, message, s.recvd);
    WholeString(message);
    assert s.recvd[HEADER_SIZE..] == message;
  }

  /** A download whose file the server has opened, and found to be as long as announced, is served whole. */
  lemma {:induction false} ServerServes(base: Text, pid: nat, remote: Text, s: History, ok: bool)
    requires NUL !in remote && NameFits(remote) && s.recvd <= RequestLead(remote)
    requires ServerGuarantee(base, pid, s) && ServerCode.Finished(base, pid, s, ok)
    requires s.source.Some? && s.source.value.size <= |s.source.value.content|
    ensures ok && ServerDownload.Served(remote, s)
  {
    hide DecodeHeader, NameIn, EncodeName, EncodeHeader, FrameBytes, ValidFileName, CString, Downloading;
    hide ServerCode.MessageSettled, ServerUpload.UploadSettled, BadLength, JoinRelativePath;
    HeaderSeen(GET_FILE, NameOnlySize(|remote|), EncodeName(remote), s.recvd);
    NameSeen(remote, s.recvd[HEADER_SIZE..]);
    WholeString(remote);
  }

  /** A client that has read a part of such a reply, and has room for the file, has no cause to give up. */
  lemma {:induction false} NoCauseToDecline(
    remote: Text, output: Option<Text>, pid: nat, source: Source, c: History)
    requires ValidFileName(remote) && NUL !in remote && NameFits(remote) && source.size <= MAX_FILE_SIZE
    requires source.size <= |source.content| && BuildTempPath(PATH_CAP, Target(output, remote), pid, 0).Some?
    requires c.recvd <= DownloadLead(remote, source.size) + source.content[..source.size] + FinalOk()
    ensures !FetchGivenUp(remote, output, pid, c)
  {
    hide FrameBytes, EncodePrefix, PrefixIn, BuildTempPath, ValidFileName, BadLength, RequestLead, CString, Target;
    var tail := source.content[..source.size] + FinalOk();
    var all := ReadyOk() + (EncodePrefix(remote, source.size) + tail);
    assert DownloadLead(remote, source.size) + source.content[..source.size] + FinalOk() == all;
    assert all[..FRAME_SIZE] == ReadyOk();
    assert |c.recvd| >= FRAME_SIZE ==> c.recvd[..FRAME_SIZE] == all[..FRAME_SIZE];
    WholeString(remote);
    if ReadyOk() <= c.recvd {
      var body := c.recvd[FRAME_SIZE..];
      assert body <= EncodePrefix(remote, source.size) + tail;
      GoodLengthSeen(remote, source.size, tail, body);
      PrefixSeen(remote, source.size, tail, body);
      if PrefixIn(body).Some? {
        var (raw, size, rest) := PrefixIn(body).value;
        assert |rest| == size + FRAME_SIZE ==> rest == tail && rest[size..] == FinalOk();
      }
    }
  }

  /**
   * The same for downloads: where the server has opened a file of the announced
   * length within the limit, and the client has room for the temporary name, the
   * client reports success and publishes exactly that file.
   */
  lemma {:induction false} FaultFreeDownloadsSucceed(
    turns: seq<Turn>, remote: Text, output: Option<Text>, base: Text, pid: nat, clientPid: nat, ok: bool)
    requires Runs(turns, h => FetchClient(remote, output, clientPid, h), h => ServerGuarantee(base, pid, h))
    requires ValidFileName(remote) && NUL !in remote && NameFits(remote)
    requires BuildTempPath(PATH_CAP, Target(output, remote), clientPid, 0).Some?
    requires var c := Client(turns, |turns|);
      ClientFetch.FetchReported(remote, output, c) || FetchGivenUp(remote, output, clientPid, c)
    requires ServerCode.Finished(base, pid, Server(turns, |turns|), ok)
    requires Server(turns, |turns|).source.Some?
    requires var source := Server(turns, |turns|).source.value;
      source.size <= MAX_FILE_SIZE && source.size <= |source.content|
    ensures ClientFetch.FetchReported(remote, output, Client(turns, |turns|)) && ok
    ensures var source := Server(turns, |turns|).source.value;
      && JoinRelativePath(PATH_CAP, base, remote) == Some(source.path)
      && Client(turns, |turns|).published ==
           [File(match output case Some(path) => path case None => remote, source.content[..source.size])]
  {
    hide Runs, Client, Server, ServerGuarantee, ServerCode.Finished, JoinRelativePath, BuildTempPath, Target;
    hide ValidFileName, FrameBytes, EncodePrefix, RequestLead, FetchGivenUp, IsPlace, Offered, Fetching, DownloadLead;
    Moment(turns, h => FetchClient(remote, output, clientPid, h), h => ServerGuarantee(base, pid, h), |turns|);
    var c, s := Client(turns, |turns|), Server(turns, |turns|);
    ServerServes(base, pid, remote, s, ok);
    NoCauseToDecline(remote, output, clientPid, s.source.value, c);
    assert c.published != [];
    DownloadIsTheServersFile(turns, remote, output, base, pid, clientPid, |turns|);
  }
}
