/**
 * The transfer protocol byte by byte: what the two sides write, and which answer
 * the server gives to which bytes.
 */
module WireBytes {
  import opened Bytes
  import opened Paths
  import opened PathLaws
  import opened Os
  import opened Wire
  import opened TransferIo
  import opened ServerContract
  import opened ClientContract
  import ServerUpload
  import ServerDownload
  import ServerCode = Server

  // ---------------------------------------------------------------- numbers and frames

  /** Most significant byte first. */
  lemma {:induction false} Numbers(v: nat)
    ensures v < 0x1_0000 ==> BigEndian(v, 2) == [v / 0x100, v % 0x100]
    ensures v <= 0xFFFF_FFFF_FFFF_FFFF ==>
      var b := BigEndian(v, 8);
      v == 0x100_0000_0000_0000 * (b[0] as int) + 0x1_0000_0000_0000 * (b[1] as int) + 0x100_0000_0000 * (b[2] as int)
         + 0x1_0000_0000 * (b[3] as int) + 0x100_0000 * (b[4] as int) + 0x1_0000 * (b[5] as int)
         + 0x100 * (b[6] as int) + (b[7] as int)
  {
    assert BigEndian(v / 0x100, 1) == BigEndian(v / 0x100 / 0x100, 0) + [v / 0x100 % 0x100];
    if v <= SIZE_MAX {
      Widths();
      DecodesEncoded(v, 8);
      FromEightBytes(BigEndian(v, 8));
    }
  }

  lemma {:induction false} AcceptingFrames()
    ensures ReadyOk() == [0, 0, 0, 0] && FinalOk() == [1, 0, 0, 0]
  {
    Numbers(0);
  }

  /** The reasons as they stand on the wire. */
  lemma {:induction false} ReasonBytes(reason: ProtocolResult)
    requires !reason.ProtocolOk?
    ensures var code: byte := match reason
      case HeaderMagic => 1
      case HeaderVersion => 2
      case HeaderMsgType => 3
      case HeaderMsgFlag => 4
      case InvalidArgument => 5
      case FileNameLen => 6
      case InvalidFileName => 7
      case PayloadSizeMismatch => 8
      case Io => 9
      case ShortWrite => 10
      case Alloc => 11
      case Eof => 12
      case MsgTooLarge => 13
      case ProtocolOk => 0;
      Rejection(reason) == [0, 1, 0, code] && Failure(reason) == [1, 2, 0, code]
  {
    Numbers(Code(reason));
  }

  /** The frames that are taken for frames, and what they are taken for. */
  lemma {:induction false} FramesAccepted(bs: Text)
    requires |bs| == 4
    ensures DecodeFrame(bs).Ok? <==>
      bs == [0, 0, 0, 0] || bs == [1, 0, 0, 0]
      || ((bs[..3] == [0, 1, 0] || bs[..3] == [1, 2, 0]) && 1 <= bs[3] <= 13)
    ensures DecodeFrame(bs).Ok? ==> DecodeFrame(bs).value == Frame(bs[0], bs[1], bs[3])
  {
    assert bs[2..][..1] == [bs[2]] && FromBigEndian([bs[2]]) == bs[2] by {
      assert [bs[2]][..0] == [];
    }
    assert FromBigEndian(bs[2..]) == 0x100 * (bs[2] as int) + (bs[3] as int);
    assert bs[..3] == [bs[0], bs[1], bs[2]] && bs == [bs[0], bs[1], bs[2], bs[3]];
  }

  // ---------------------------------------------------------------- what the client writes

  lemma {:induction false} HeaderIs(msgType: nat, payloadSize: nat)
    requires msgType < 0x100 && payloadSize <= SIZE_MAX
    ensures EncodeHeader(HeaderFor(msgType, payloadSize))
         == [0x04, 0x29, 0x03, msgType, 0x00] + BigEndian(payloadSize, 8)
  {
    Numbers(0x0429);
  }

  /** The header and prefix of an upload. */
  lemma {:induction false} UploadLeadIs(name: Text, size: nat)
    requires 1 <= |name| <= 255 && size <= 107_374_182_400
    ensures UploadLead(name, size) ==
      [0x04, 0x29, 0x03, 0x01, 0x00] + BigEndian(10 + |name| + size, 8) + [0, |name|] + name + BigEndian(size, 8)
  {
    hide BigEndian;
    HeaderIs(SEND_FILE, PrefixSize(|name|) + size);
    Numbers(|name|);
  }

  /** The request for a download. */
  lemma {:induction false} RequestLeadIs(name: Text)
    requires 1 <= |name| <= 255
    ensures RequestLead(name) == [0x04, 0x29, 0x03, 0x03, 0x00] + BigEndian(2 + |name|, 8) + [0, |name|] + name
  {
    hide BigEndian;
    HeaderIs(GET_FILE, NameOnlySize(|name|));
    Numbers(|name|);
  }

  /** A message. */
  lemma {:induction false} MessageLeadIs(message: Text)
    requires |message| <= 262_144
    ensures MessageLead(message) == [0x04, 0x29, 0x03, 0x02, 0x00] + BigEndian(|message|, 8) + message
  {
    hide BigEndian;
    HeaderIs(TEXT_MESSAGE, |message|);
  }

  /** READY OK and the prefix of a download. */
  lemma {:induction false} DownloadLeadIs(name: Text, size: nat)
    requires 1 <= |name| <= 255 && size <= SIZE_MAX
    ensures DownloadLead(name, size) == [0, 0, 0, 0] + [0, |name|] + name + BigEndian(size, 8)
  {
    hide BigEndian;
    AcceptingFrames();
    Numbers(|name|);
  }

  // ---------------------------------------------------------------- what the server answers

  /** Thirteen bytes are a header exactly when the first five are magic, version, one of three kinds, and no flags. */
  lemma {:induction false} HeadersAccepted(bs: Text)
    requires |bs| == 13
    ensures DecodeHeader(bs).Ok? <==>
      bs[0] == 0x04 && bs[1] == 0x29 && bs[2] == 0x03 && bs[3] in {0x01, 0x02, 0x03} && bs[4] == 0x00
    ensures DecodeHeader(bs).Ok? ==>
      DecodeHeader(bs).value.msgType == bs[3] && DecodeHeader(bs).value.payloadSize == FromBigEndian(bs[5..])
  {
    assert bs[..2] == [bs[0], bs[1]] && [bs[0], bs[1]][..1] == [bs[0]] && [bs[0]][..0] == [];
    assert FromBigEndian([bs[0]]) == bs[0];
    assert FromBigEndian(bs[..2]) == 0x100 * (bs[0] as int) + (bs[1] as int);
  }

  /** A first part of a conversation: a header of this kind and payload size, and what follows it. */
  function Request(msgType: byte, payloadSize: nat, body: Text): Text {
    [0x04, 0x29, 0x03, msgType, 0x00] + BigEndian(payloadSize, 8) + body
  }

  lemma {:induction false} RequestIsRead(msgType: byte, payloadSize: nat, body: Text)
    requires msgType in {0x01, 0x02, 0x03} && payloadSize <= SIZE_MAX
    ensures var recvd := Request(msgType, payloadSize, body);
      && |recvd| >= HEADER_SIZE && recvd[HEADER_SIZE..] == body
      && DecodeHeader(recvd[..HEADER_SIZE]) == Ok(HeaderFor(msgType, payloadSize))
  {
    hide EncodeHeader, DecodeHeader, BigEndian;
    HeaderIs(msgType, payloadSize);
    HeaderRoundTrip(HeaderFor(msgType, payloadSize));
    var recvd := Request(msgType, payloadSize, body);
    assert recvd[..HEADER_SIZE] == EncodeHeader(HeaderFor(msgType, payloadSize));
  }

  /** A name that the server takes, in terms of its bytes. */
  predicate TakesName(name: Text) {
    name != [] && !Contains(name, [0x2F]) && !Contains(name, [0x5C]) && !Contains(name, [0x2E, 0x2E])
  }

  /** There is room for the path and for its temporary names; and "." is no file. */
  predicate HasRoom(base: Text, name: Text, pid: nat) {
    name != [0x2E] && |Extended(base, name)| + 7 + |Decimal(pid)| < 4096
  }

  lemma {:induction false} PlaceIsRoom(base: Text, name: Text, pid: nat)
    requires ValidFileName(name)
    ensures HasPlace(base, name, pid) <==> HasRoom(base, name, pid)
    ensures HasPlace(base, name, pid) ==> JoinRelativePath(PATH_CAP, base, name) == Some(Extended(base, name))
  {
    hide ValidRelativePath, Decimal;
    FileNameIsRelativePath(name);
    JoinedIsBelow(base, name);
    TempNameIs(Extended(base, name), pid, 0);
  }

  /**
   * A fault-free connection that has received an upload request: the answer, and
   * what is on disk then, for every name, size and payload size.
   */
  lemma {:induction false} UploadAnswered(
    base: Text, pid: nat, payloadSize: nat, raw: Text, size: nat, content: Text, h: History, ok: bool)
    requires ServerGuarantee(base, pid, h) && ServerCode.Finished(base, pid, h, ok)
    requires 1 <= |raw| <= 255 && size <= SIZE_MAX && payloadSize <= SIZE_MAX
    requires h.recvd == Request(0x01, payloadSize, [0, |raw|] + raw + BigEndian(size, 8) + content)
    ensures var name := CString(raw);
      && payloadSize >= 11
      && if !TakesName(name) then content == [] && h.sent == [0, 1, 0, 7] && NoEffect(h) && !ok
         else if payloadSize != (10 + |name| + size) % 0x1_0000_0000_0000_0000 then
           content == [] && h.sent == [0, 1, 0, 8] && NoEffect(h) && !ok
         else if !HasRoom(base, name, pid) then
           content == [] && h.sent == [0, 0, 0, 0, 1, 2, 0, 5] && h.published == [] && !ok
         else
           && |content| == size && h.sent == [0, 0, 0, 0, 1, 0, 0, 0] && ok
           && h.published == [File(Extended(base, name), content)]
  {
    hide DecodeHeader, PrefixIn, ValidFileName, CString, BigEndian, FrameBytes, HasPlace, HasRoom, TakesName, Request;
    hide JoinRelativePath, Extended, EncodePrefix, Uploading, ServerCode.MessageSettled, BadLength;
    hide ServerDownload.DownloadSettled;
    var name, body := CString(raw), [0, |raw|] + raw + BigEndian(size, 8) + content;
    Numbers(|raw|);
    assert body == EncodePrefix(raw, size) + content by {
      PrefixIs(raw, size);
    }
    RequestIsRead(0x01, payloadSize, body);
    PrefixReads(raw, size, content);
    NamesAccepted(name);
    assert TakesName(name) <==> ValidFileName(name) by {
      TakesNameIs(name);
    }
    if ValidFileName(name) {
      PlaceIsRoom(base, name, pid);
    }
    AcceptingFrames();
    ReasonBytes(InvalidArgument);
    ReasonBytes(InvalidFileName);
    ReasonBytes(PayloadSizeMismatch);
  }

  lemma {:induction false} TakesNameIs(name: Text)
    ensures TakesName(name) <==> ValidFileName(name)
  {
    hide ValidFileName, Contains;
    NamesAccepted(name);
  }

  lemma {:induction false} PrefixIs(raw: Text, size: nat)
    requires 1 <= |raw| <= 255 && size <= SIZE_MAX
    ensures EncodePrefix(raw, size) == [0, |raw|] + raw + BigEndian(size, 8)
  {
    hide BigEndian;
    Numbers(|raw|);
  }

  /** An upload too short for any prefix is refused before anything more is read. */
  lemma {:induction false} ShortUploadAnswered(
    base: Text, pid: nat, payloadSize: nat, body: Text, h: History, ok: bool)
    requires ServerGuarantee(base, pid, h) && ServerCode.Finished(base, pid, h, ok)
    requires payloadSize < 11 && h.recvd == Request(0x01, payloadSize, body)
    ensures body == [] && h.sent == [0, 1, 0, 5] && NoEffect(h) && !ok
  {
    hide DecodeHeader, PrefixIn, ValidFileName, CString, BigEndian, FrameBytes, Request, Uploading;
    hide ServerCode.MessageSettled, ServerDownload.DownloadSettled;
    RequestIsRead(0x01, payloadSize, body);
    ReasonBytes(InvalidArgument);
  }

  /**
   * A fault-free connection that has received a message: stored and acknowledged
   * up to 256 KiB, and else refused unread.
   */
  lemma {:induction false} MessageAnswered(
    base: Text, pid: nat, payloadSize: nat, body: Text, h: History, ok: bool)
    requires ServerGuarantee(base, pid, h) && ServerCode.Finished(base, pid, h, ok)
    requires payloadSize <= SIZE_MAX && h.recvd == Request(0x02, payloadSize, body)
    ensures if payloadSize > 262_144 then body == [] && h.sent == [1, 2, 0, 13] && NoEffect(h) && !ok
      else |body| == payloadSize && h.sent == [1, 0, 0, 0] && h.stored == [CString(body)] && ok
  {
    hide DecodeHeader, PrefixIn, ValidFileName, CString, BigEndian, FrameBytes, Request, Uploading;
    hide ServerUpload.UploadSettled, ServerDownload.DownloadSettled;
    RequestIsRead(0x02, payloadSize, body);
    ReasonBytes(MsgTooLarge);
    AcceptingFrames();
  }

  /**
   * A fault-free connection that has received a download request: refused, or the
   * file below the base, all there is of it, and the truth about that.
   */
  lemma {:induction false} DownloadAnswered(
    base: Text, pid: nat, payloadSize: nat, raw: Text, rest: Text, h: History, ok: bool)
    requires ServerGuarantee(base, pid, h) && ServerCode.Finished(base, pid, h, ok)
    requires 1 <= |raw| <= 255 && payloadSize <= SIZE_MAX
    requires h.recvd == Request(0x03, payloadSize, [0, |raw|] + raw + rest)
    ensures var name := CString(raw);
      && payloadSize >= 3 && rest == [] && NoEffect(h)
      && if !TakesName(name) then h.sent == [0, 1, 0, 7] && h.source.None? && !ok
         else if payloadSize != 2 + |name| then h.sent == [0, 1, 0, 8] && h.source.None? && !ok
         else
           match h.source
           case None => h.sent == [0, 1, 0, 5] && !ok
           case Some(source) =>
             && source.path == Extended(base, name) && Below(base, name, source.path)
             && source.size <= SIZE_MAX && (ok <==> source.size <= |source.content|)
             && var lead := [0, 0, 0, 0] + [0, |name|] + name + BigEndian(source.size, 8);
                h.sent == if ok then lead + source.content[..source.size] + [1, 0, 0, 0]
                          else lead + source.content + [1, 2, 0, 9]
  {
    hide DecodeHeader, NameIn, ValidFileName, CString, BigEndian, FrameBytes, TakesName, Request, Below;
    hide JoinRelativePath, Extended, EncodeName, Downloading, ServerCode.MessageSettled, BadLength, DownloadLead;
    hide ServerUpload.UploadSettled;
    var name, body := CString(raw), [0, |raw|] + raw + rest;
    assert body == EncodeName(raw) + rest by {
      NameIs(raw);
    }
    RequestIsRead(0x03, payloadSize, body);
    NameReads(raw, rest);
    TakesNameIs(name);
    AcceptingFrames();
    ReasonBytes(InvalidArgument);
    ReasonBytes(InvalidFileName);
    ReasonBytes(PayloadSizeMismatch);
    ReasonBytes(Io);
    if h.source.Some? {
      assert name != [] by {
        NotEmpty(name);
      }
      JoinedIsBelow(base, name);
      DownloadLeadIs(name, h.source.value.size);
    }
  }

  lemma {:induction false} NotEmpty(name: Text)
    ensures ValidFileName(name) ==> name != []
  {
  }

  lemma {:induction false} NameIs(raw: Text)
    requires 1 <= |raw| <= 255
    ensures EncodeName(raw) == [0, |raw|] + raw
  {
    hide BigEndian;
    Numbers(|raw|);
  }

  /**
   * A name announced with no length, or with one over 255, is the end of it: an
   * upload gets no answer, a download is refused for that reason.
   */
  lemma {:induction false} BadLengthAnswered(
    base: Text, pid: nat, msgType: byte, payloadSize: nat, body: Text, h: History, ok: bool)
    requires ServerGuarantee(base, pid, h) && ServerCode.Finished(base, pid, h, ok)
    requires (msgType == 0x01 && payloadSize >= 11) || (msgType == 0x03 && payloadSize >= 3)
    requires payloadSize <= SIZE_MAX && h.recvd == Request(msgType, payloadSize, body)
    requires |body| >= 2 && !(body[0] == 0 && 1 <= body[1])
    ensures |body| == 2 && NoEffect(h) && !ok
    ensures h.sent == if msgType == 0x01 then [] else [0, 1, 0, 6]
  {
    hide DecodeHeader, ValidFileName, CString, BigEndian, FrameBytes, Request, Uploading, DecodeU64;
    hide ServerCode.MessageSettled, JoinRelativePath;
    RequestIsRead(msgType, payloadSize, body);
    ReasonBytes(FileNameLen);
    assert body[..2] == [body[0], body[1]] && [body[0], body[1]][..1] == [body[0]] && [body[0]][..0] == [];
    assert FromBigEndian([body[0]]) == body[0];
    assert FromBigEndian(body[..2]) == 0x100 * (body[0] as int) + (body[1] as int);
    assert NameIn(body) == None;
  }

  /** Anything else in place of a header gets no answer at all. */
  lemma {:induction false} NoHeaderNoAnswer(base: Text, pid: nat, h: History, ok: bool)
    requires ServerGuarantee(base, pid, h) && ServerCode.Finished(base, pid, h, ok)
    ensures |h.recvd| >= 13
    ensures h.recvd[..3] != [0x04, 0x29, 0x03] || h.recvd[3] !in {0x01, 0x02, 0x03} || h.recvd[4] != 0x00 ==>
      |h.recvd| == 13 && h.sent == [] && NoEffect(h) && !ok
  {
    hide DecodeHeader, ServerUpload.UploadSettled, ServerDownload.DownloadSettled, ServerCode.MessageSettled;
    HeadersAccepted(h.recvd[..13]);
  }

  // ---------------------------------------------------------------- limits of the client

  /** Nothing is sent of a name, a file or a message past the limits, and no download past them is begun. */
  lemma {:induction false} ClientLimits(h: History)
    ensures forall name, path: Text | UploadClient(name, path, h) && h.sent != [] ::
      1 <= |name| <= 255 && h.source.Some? && h.source.value.path == path && h.source.value.size <= 107_374_182_400
    ensures forall message: Text | MessageClient(message, h) && h.sent != [] :: |message| <= 262_144
    ensures forall remote, output, pid | FetchClient(remote, output, pid, h) ::
      && (h.sent != [] ==> 1 <= |remote| <= 255)
      && (!NoEffect(h) ==> Offered(h.recvd).Some? && Offered(h.recvd).value.1 <= 107_374_182_400)
      && (!NoEffect(h) && output.None? ==> TakesName(CString(Offered(h.recvd).value.0)))
  {
    hide UploadLead, MessageLead, RequestLead, Fetching, Offered, FrameBytes, TakesName, ValidFileName, CString;
    forall name: Text ensures TakesName(name) <==> ValidFileName(name) {
      TakesNameIs(name);
    }
  }

  /** The candidate a download leaves in its buffer: the last name tried, or the first name cut to the buffer. */
  lemma {:induction false} CandidateIs(target: Text, pid: nat, tried: seq<Attempt>)
    requires InOrder(target, pid, tried)
    ensures |tried| <= 3
    ensures tried != [] ==> LastCandidate(target, pid, tried) == TempName(target, pid, |tried| - 1)
    ensures tried == [] ==>
      && LastCandidate(target, pid, tried) <= TempName(target, pid, 0)
      && (|LastCandidate(target, pid, tried)| == 4095 || LastCandidate(target, pid, tried) == TempName(target, pid, 0))
  {
    hide TempName;
  }
}
