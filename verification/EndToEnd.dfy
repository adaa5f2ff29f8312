/**
 * Client and server together: what a finished command of the client says about
 * the other side. Both sides are arbitrary runs of the code, cut off anywhere.
 */
module EndToEnd {
  import opened Bytes
  import opened Paths
  import opened PathLaws
  import opened Os
  import opened Wire
  import opened TransferIo
  import opened ServerContract
  import opened ClientContract
  import opened Session

  // ---------------------------------------------------------------- what the server reads

  /** The server reads the header the client wrote. */
  lemma {:induction false} HeaderSeen(msgType: nat, payloadSize: nat, payload: Text, recvd: Text)
    requires msgType in {SEND_FILE, TEXT_MESSAGE, GET_FILE} && payloadSize <= SIZE_MAX
    requires recvd <= Preamble(msgType, payloadSize, payload) && |recvd| >= HEADER_SIZE
    ensures DecodeHeader(recvd[..HEADER_SIZE]) == Ok(HeaderFor(msgType, payloadSize))
    ensures recvd[HEADER_SIZE..] <= payload
  {
    hide EncodeHeader, DecodeHeader;
    HeaderRoundTrip(HeaderFor(msgType, payloadSize));
    assert recvd[..HEADER_SIZE] == EncodeHeader(HeaderFor(msgType, payloadSize));
  }

  /** The server reads the name and the size the client wrote. */
  lemma {:induction false} PrefixSeen(name: Text, size: nat, content: Text, body: Text)
    requires NameFits(name) && size <= SIZE_MAX
    requires body <= EncodePrefix(name, size) + content
    ensures PrefixIn(body).Some? ==>
      PrefixIn(body).value.0 == name && PrefixIn(body).value.1 == size && PrefixIn(body).value.2 <= content
  {
    hide PrefixIn, EncodePrefix;
    if PrefixIn(body).Some? {
      var (raw, size', rest) := PrefixIn(body).value;
      var all := EncodePrefix(name, size) + content;
      var more := all[|body|..];
      assert all == EncodePrefix(raw, size') + (rest + more);
      PrefixReads(raw, size', rest + more);
      PrefixReads(name, size, content);
    }
  }

  lemma {:induction false} NameSeen(name: Text, body: Text)
    requires NameFits(name) && body <= EncodeName(name)
    ensures NameIn(body).Some? ==> NameIn(body).value.0 == name
  {
    hide NameIn, EncodeName;
    if NameIn(body).Some? {
      var (raw, rest) := NameIn(body).value;
      var more := EncodeName(name)[|body|..];
      assert EncodeName(name) == EncodeName(raw) + (rest + more);
      NameReads(raw, rest + more);
      assert EncodeName(name) + [] == EncodeName(name);
      NameReads(name, []);
    }
  }

  // ---------------------------------------------------------------- frames

  /** What starts with FINAL OK is no part of any failure frame. */
  lemma {:induction false} FinalOkIsNoFailure(sent: Text)
    requires FinalOk() <= sent
    ensures !Failing(sent)
  {
    forall reason: ProtocolResult | !reason.ProtocolOk? ensures !(sent <= Failure(reason)) {
      assert sent[1] == FinalOk()[1] != Failure(reason)[1];
    }
  }

  // ---------------------------------------------------------------- uploads

  /** Everything the client sends in an upload, from the first byte to the last. */
  ghost function WholeUpload(name: Text, source: Source): Text
    requires NameFits(name) && source.size <= MAX_FILE_SIZE
  {
    UploadLead(name, source.size)
    + source.content[..if source.size < |source.content| then source.size else |source.content|]
  }

  lemma {:induction false} SentOfWhole(name: Text, path: Text, c: History)
    requires UploadClient(name, path, c) && c.sent != []
    ensures c.source.Some? && NameFits(name) && c.source.value.size <= MAX_FILE_SIZE
    ensures c.sent <= WholeUpload(name, c.source.value)
  {
    hide UploadLead, ReadyOk;
    var source := c.source.value;
    var lead := UploadLead(name, source.size);
    if lead <= c.sent {
      assert c.sent == lead + c.sent[|lead|..];
    }
  }

  /** What the server has read, in an upload by this client. */
  lemma {:induction false} UploadSeen(base: Text, pid: nat, name: Text, source: Source, s: History)
    requires NameFits(name) && NUL !in name && source.size <= MAX_FILE_SIZE
    requires ServerGuarantee(base, pid, s) && s.recvd <= WholeUpload(name, source)
    requires |s.sent| > FRAME_SIZE || s.published != []
    ensures exists content: Text :: content <= source.content && Uploading(base, name, pid, source.size, content, s)
  {
    hide DecodeHeader, PrefixIn, EncodePrefix, FrameBytes, ValidFileName, CString, Uploading, EncodeHeader;
    var payloadSize := PrefixSize(|name|) + source.size;
    var part := source.content[..if source.size < |source.content| then source.size else |source.content|];
    assert WholeUpload(name, source) == Preamble(SEND_FILE, payloadSize, EncodePrefix(name, source.size) + part);
    assert |s.recvd| >= HEADER_SIZE;
    HeaderSeen(SEND_FILE, payloadSize, EncodePrefix(name, source.size) + part, s.recvd);
    var body := s.recvd[HEADER_SIZE..];
    PrefixSeen(name, source.size, part, body);
    WholeString(name);
  }

  /** FINAL OK is sent only after the rename; a published file is the whole upload. */
  lemma {:induction false} UploadOutcome(base: Text, pid: nat, name: Text, size: nat, content: Text, s: History)
    requires Uploading(base, name, pid, size, content, s)
    requires ReadyOk() + FinalOk() <= s.sent || s.published != []
    ensures JoinRelativePath(PATH_CAP, base, name).Some? && |content| == size
    ensures s.published == [File(JoinRelativePath(PATH_CAP, base, name).value, content)]
  {
    hide FrameBytes, JoinRelativePath;
    if s.published == [] {
      assert s.sent[..FRAME_SIZE] == ReadyOk();
      FinalOkIsNoFailure(s.sent[FRAME_SIZE..]);
    }
  }

  /**
   * Exit code 0 of an upload: at that moment the server has already renamed
   * into place, under the base directory and the name the client sent, a file
   * that holds exactly the bytes the client read from its source. That path
   * continues the base directory's, and leads one step down from there.
   */
  lemma {:induction false} UploadReachesTheDisk(turns: seq<Turn>, path: Text, base: Text, pid: nat, k: nat)
    requires Runs(turns, h => UploadClient(Basename(path), path, h), h => ServerGuarantee(base, pid, h))
    requires NUL !in path && k <= |turns| && UploadReported(Basename(path), Client(turns, k))
    ensures JoinRelativePath(PATH_CAP, base, Basename(path)).Some?
    ensures var source := Client(turns, k).source.value;
      Server(turns, k).published ==
        [File(JoinRelativePath(PATH_CAP, base, Basename(path)).value, source.content[..source.size])]
    ensures IsPlace(base, Basename(path), Server(turns, k).published[0].path)
  {
    hide Runs, UploadClient, ServerGuarantee, Client, Server, JoinRelativePath, Uploading, UploadLead, FrameBytes;
    Moment(turns, h => UploadClient(Basename(path), path, h), h => ServerGuarantee(base, pid, h), k);
    var name, c, s := Basename(path), Client(turns, k), Server(turns, k);
    var source := c.source.value;
    assert NUL !in name;
    assert s.recvd <= WholeUpload(name, source);
    assert ReadyOk() + FinalOk() <= s.sent;
    UploadSeen(base, pid, name, source, s);
    var content: Text :| content <= source.content && Uploading(base, name, pid, source.size, content, s);
    UploadOutcome(base, pid, name, source.size, content, s);
    assert content == source.content[..source.size];
    JoinedIsPlace(base, name);
  }

  /** The path of a file with this name in the base directory. */
  ghost predicate IsPlace(base: Text, name: Text, path: Text) {
    && Below(base, name, path)
    && forall at, dir: seq<Text> :: Walk(Segments(base), at) == Some(dir) ==>
         Walk(Segments(path), at) == Some(dir + [name])
  }

  lemma {:induction false} JoinedIsPlace(base: Text, name: Text)
    requires JoinRelativePath(PATH_CAP, base, name).Some? && name != [] && SLASH !in name
    ensures IsPlace(base, name, JoinRelativePath(PATH_CAP, base, name).value)
  {
    hide ValidRelativePath, Segments, Walk;
    JoinedIsBelow(base, name);
    var path := JoinRelativePath(PATH_CAP, base, name).value;
    forall at, dir: seq<Text> | Walk(Segments(base), at) == Some(dir)
      ensures Walk(Segments(path), at) == Some(dir + [name])
    {
      NameLeadsDown(name, dir);
    }
  }

  /**
   * Whether or not the client learns of it, whatever the server publishes is
   * the whole file the client set out to send: a broken upload leaves nothing.
   */
  lemma {:induction false} OnlyWholeUploadsArePublished(turns: seq<Turn>, path: Text, base: Text, pid: nat, k: nat)
    requires Runs(turns, h => UploadClient(Basename(path), path, h), h => ServerGuarantee(base, pid, h))
    requires NUL !in path && k <= |turns| && Server(turns, k).published != []
    ensures Client(turns, k).source.Some? && JoinRelativePath(PATH_CAP, base, Basename(path)).Some?
    ensures var source := Client(turns, k).source.value;
      && source.size <= |source.content|
      && Server(turns, k).published ==
        [File(JoinRelativePath(PATH_CAP, base, Basename(path)).value, source.content[..source.size])]
    ensures IsPlace(base, Basename(path), Server(turns, k).published[0].path)
  {
    hide Runs, UploadClient, Client, Server, JoinRelativePath, Uploading, UploadLead, FrameBytes, ServerGuarantee;
    Moment(turns, h => UploadClient(Basename(path), path, h), h => ServerGuarantee(base, pid, h), k);
    var name, c, s := Basename(path), Client(turns, k), Server(turns, k);
    assert s.recvd != [] by {
      SilentAtFirst(base, pid, s);
    }
    SentOfWhole(name, path, c);
    var source := c.source.value;
    assert NUL !in name;
    UploadSeen(base, pid, name, source, s);
    var content: Text :| content <= source.content && Uploading(base, name, pid, source.size, content, s);
    UploadOutcome(base, pid, name, source.size, content, s);
    assert content == source.content[..source.size];
    JoinedIsPlace(base, name);
  }

  lemma {:induction false} SilentAtFirst(base: Text, pid: nat, s: History)
    requires ServerGuarantee(base, pid, s)
    ensures |s.recvd| < HEADER_SIZE ==> s.sent == [] && NoEffect(s) && s.source.None?
  {
  }

  /** No byte of the body is on its way before the server has accepted the upload. */
  lemma {:induction false} NoBodyBeforeReady(turns: seq<Turn>, path: Text, base: Text, pid: nat, k: nat)
    requires Runs(turns, h => UploadClient(Basename(path), path, h), h => ServerGuarantee(base, pid, h))
    requires k <= |turns| && Client(turns, k).source.Some? && NameFits(Basename(path))
    requires Client(turns, k).source.value.size <= MAX_FILE_SIZE
    requires |Client(turns, k).sent| > |UploadLead(Basename(path), Client(turns, k).source.value.size)|
    ensures ReadyOk() <= Server(turns, k).sent
  {
    hide Runs, ServerGuarantee, Client, Server, UploadLead, FrameBytes;
    Moment(turns, h => UploadClient(Basename(path), path, h), h => ServerGuarantee(base, pid, h), k);
  }

  // ---------------------------------------------------------------- downloads

  lemma {:induction false} NamesHaveNoSlash(name: Text)
    ensures ValidFileName(name) ==> SLASH !in name
  {
  }

  /** What the server has read and opened, when this client asked for `remote`. */
  lemma {:induction false} DownloadSeen(base: Text, pid: nat, remote: Text, s: History)
    requires NameFits(remote) && NUL !in remote
    requires ServerGuarantee(base, pid, s) && s.recvd <= RequestLead(remote) && |s.sent| > FRAME_SIZE
    ensures s.source.Some? && s.source.value.size <= SIZE_MAX
    ensures JoinRelativePath(PATH_CAP, base, remote) == Some(s.source.value.path)
    ensures Downloading(remote, s.source.value, s.sent) && SLASH !in remote
  {
    hide DecodeHeader, NameIn, EncodeName, FrameBytes, ValidFileName, CString, Downloading, JoinRelativePath;
    SilentAtFirst(base, pid, s);
    HeaderSeen(GET_FILE, NameOnlySize(|remote|), EncodeName(remote), s.recvd);
    var body := s.recvd[HEADER_SIZE..];
    NameSeen(remote, body);
    WholeString(remote);
    NamesHaveNoSlash(remote);
    assert DownloadGuarantee(base, HeaderFor(GET_FILE, NameOnlySize(|remote|)), body, s);
  }

  /** The server has gone as far as the client has read: lead, body and FINAL OK. */
  lemma {:induction false} DownloadOutcome(remote: Text, source: Source, sent: Text, raw: Text, size: nat, rest: Text)
    requires NameFits(remote) && source.size <= SIZE_MAX && Downloading(remote, source, sent)
    requires NameFits(raw) && size <= SIZE_MAX && |rest| == size + FRAME_SIZE
    requires ReadyOk() + EncodePrefix(raw, size) + rest <= sent && rest[size..] == FinalOk()
    ensures raw == remote && size == source.size <= |source.content|
    ensures rest[..size] == source.content[..size] && sent == ReadyOk() + EncodePrefix(raw, size) + rest
  {
    hide FrameBytes, EncodePrefix;
    var lead := DownloadLead(remote, source.size);
    SameLead(remote, source.size, raw, size, rest, sent);
    var reply := sent[|lead|..];
    var k: nat :| DownloadBody(source, reply, k);
    assert rest <= reply;
    BodyIsWhole(source, reply, k, rest);
  }

  /** Counting: what follows a body cut short is too short to fill the body up and be a frame after it. */
  lemma {:induction false} BodyIsWhole(source: Source, reply: Text, k: nat, rest: Text)
    requires DownloadBody(source, reply, k)
    requires |rest| == source.size + FRAME_SIZE && rest <= reply
    ensures k == source.size && reply == rest && rest[..k] == source.content[..k]
  {
    hide FrameBytes;
    assert |reply| <= k + FRAME_SIZE;
    assert k == source.size;
    assert reply == reply[..k] + reply[k..];
  }

  /** The prefix the client has read is the one the server wrote. */
  lemma {:induction false} SameLead(remote: Text, full: nat, raw: Text, size: nat, rest: Text, sent: Text)
    requires NameFits(remote) && full <= SIZE_MAX && NameFits(raw) && size <= SIZE_MAX && |rest| >= FRAME_SIZE
    requires ReadyOk() + EncodePrefix(raw, size) + rest <= sent
    requires sent <= DownloadLead(remote, full) || DownloadLead(remote, full) <= sent
    ensures raw == remote && size == full
    ensures DownloadLead(remote, full) == ReadyOk() + EncodePrefix(raw, size)
  {
    hide FrameBytes, EncodePrefix, PrefixIn;
    var theirs, lead := sent[FRAME_SIZE..], DownloadLead(remote, full);
    assert lead[FRAME_SIZE..] == EncodePrefix(remote, full);
    assert EncodePrefix(raw, size) <= theirs;
    SamePrefix(raw, size, theirs);
    if sent <= lead {
      assert theirs <= EncodePrefix(remote, full);
      PrefixExtends(remote, full, theirs);
    } else {
      assert EncodePrefix(remote, full) <= theirs;
      SamePrefix(remote, full, theirs);
    }
  }

  lemma {:induction false} SamePrefix(raw: Text, size: nat, t: Text)
    requires NameFits(raw) && size <= SIZE_MAX && EncodePrefix(raw, size) <= t
    ensures PrefixIn(t) == Some((raw, size, t[|EncodePrefix(raw, size)|..]))
  {
    hide EncodePrefix, PrefixIn;
    var prefix := EncodePrefix(raw, size);
    PrefixReads(raw, size, t[|prefix|..]);
    assert t == prefix + t[|prefix|..];
  }

  /** A text that is itself only a part of a prefix, but has a prefix in it, is that prefix. */
  lemma {:induction false} PrefixExtends(remote: Text, full: nat, part: Text)
    requires NameFits(remote) && full <= SIZE_MAX && part <= EncodePrefix(remote, full) && PrefixIn(part).Some?
    ensures PrefixIn(part) == Some((remote, full, []))
  {
    hide EncodePrefix, PrefixIn;
    assert EncodePrefix(remote, full) + [] == EncodePrefix(remote, full);
    PrefixSeen(remote, full, [], part);
    var (raw, size, rest) := PrefixIn(part).value;
  }

  /**
   * A download is published only as the whole file: whatever happens, if the
   * client has renamed its temporary file into place, the server had opened the
   * file of that name under its base directory, and the published content is
   * exactly the content_size bytes of it, all of them sent, with FINAL OK.
   */
  lemma {:induction false} DownloadIsTheServersFile(
    turns: seq<Turn>, remote: Text, output: Option<Text>, base: Text, pid: nat, clientPid: nat, k: nat)
    requires Runs(turns, h => FetchClient(remote, output, clientPid, h), h => ServerGuarantee(base, pid, h))
    requires NUL !in remote && k <= |turns| && Client(turns, k).published != []
    ensures NameFits(remote) && Server(turns, k).source.Some?
    ensures var source := Server(turns, k).source.value;
      && JoinRelativePath(PATH_CAP, base, remote) == Some(source.path)
      && source.size <= |source.content| && source.size <= SIZE_MAX
      && IsPlace(base, remote, source.path)
      && Client(turns, k).published ==
           [File(match output case Some(path) => path case None => remote, source.content[..source.size])]
      && Server(turns, k).sent == DownloadLead(remote, source.size) + source.content[..source.size] + FinalOk()
  {
    hide Runs, ServerGuarantee, Client, Server, JoinRelativePath, Downloading, RequestLead, FrameBytes;
    hide Target, EncodePrefix, IsPlace, FetchClient, Offered, DownloadLead;
    Moment(turns, h => FetchClient(remote, output, clientPid, h), h => ServerGuarantee(base, pid, h), k);
    var c, s := Client(turns, k), Server(turns, k);
    PublishedMeans(remote, output, clientPid, c);
    var (raw, size, rest) := Offered(c.recvd).value;
    assert |s.sent| > FRAME_SIZE;
    assert NameFits(remote) by {
      if !NameFits(remote) {
        SilentAtFirst(base, pid, s);
      }
    }
    DownloadSeen(base, pid, remote, s);
    DownloadOutcome(remote, s.source.value, s.sent, raw, size, rest);
    assert rest == rest[..size] + rest[size..];
    assert DownloadLead(remote, size) == ReadyOk() + EncodePrefix(remote, size) by {
      LeadIs(remote, size);
    }
    JoinedIsPlace(base, remote);
    TargetIs(output, remote);
  }

  lemma {:induction false} LeadIs(name: Text, size: nat)
    requires NameFits(name) && size <= SIZE_MAX
    ensures DownloadLead(name, size) == ReadyOk() + EncodePrefix(name, size)
  {
  }

  /** What a client that has published a file has sent and received. */
  lemma {:induction false} PublishedMeans(remote: Text, output: Option<Text>, pid: nat, c: History)
    requires FetchClient(remote, output, pid, c) && c.published != []
    ensures if NameFits(remote) then c.sent <= RequestLead(remote) else c.sent == []
    ensures Offered(c.recvd).Some?
    ensures var (raw, size, rest) := Offered(c.recvd).value;
      && |rest| == size + FRAME_SIZE && rest[size..] == FinalOk()
      && c.published == [File(Target(output, raw), rest[..size])]
  {
    hide Target, EncodePrefix, RequestLead, FrameBytes, InOrder;
  }

  /** The file goes where the user says, or else under the name that was offered. */
  lemma {:induction false} TargetIs(output: Option<Text>, raw: Text)
    ensures output.Some? ==> Target(output, raw) == output.value
    ensures output.None? && NUL !in raw ==> Target(output, raw) == raw
  {
    hide CString;
    if NUL !in raw {
      WholeString(raw);
    }
  }

  /**
   * A server that stops short: when its source runs out after k of the promised
   * bytes, FINAL FAILED lands inside the body the client expects. The client
   * may take its bytes for content, but it never publishes.
   */
  lemma {:induction false} CutDownloadIsNeverPublished(
    turns: seq<Turn>, remote: Text, output: Option<Text>, base: Text, pid: nat, clientPid: nat, k: nat)
    requires Runs(turns, h => FetchClient(remote, output, clientPid, h), h => ServerGuarantee(base, pid, h))
    requires NUL !in remote && k <= |turns|
    requires Server(turns, k).source.Some?
    requires |Server(turns, k).source.value.content| < Server(turns, k).source.value.size
    ensures Client(turns, k).published == []
  {
    hide Runs, Client, Server;
    if Client(turns, k).published != [] {
      DownloadIsTheServersFile(turns, remote, output, base, pid, clientPid, k);
    }
  }

  // ---------------------------------------------------------------- messages

  /** Exit code 0 of a message: it is in the server's store, once. */
  lemma {:induction false} MessageIsStored(turns: seq<Turn>, message: Text, base: Text, pid: nat, k: nat)
    requires Runs(turns, h => MessageClient(message, h), h => ServerGuarantee(base, pid, h))
    requires NUL !in message && k <= |turns| && MessageReported(message, Client(turns, k))
    ensures Server(turns, k).stored == [message]
  {
    hide Runs, Client, Server, DecodeHeader, CString, FrameBytes, EncodeHeader;
    Moment(turns, h => MessageClient(message, h), h => ServerGuarantee(base, pid, h), k);
    var c, s := Client(turns, k), Server(turns, k);
    SilentAtFirst(base, pid, s);
    assert FinalOk() <= s.sent;
    HeaderSeen(TEXT_MESSAGE, |message|, message, s.recvd);
    var body := s.recvd[HEADER_SIZE..];
    assert MessageGuarantee(HeaderFor(TEXT_MESSAGE, |message|), body, s);
    FinalOkIsNoFailure(s.sent);
    assert body == message;
    WholeString(message);
  }
}
