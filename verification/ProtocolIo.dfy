/** Sending and receiving the pieces of the protocol over a socket (src/protocol.c). */
module ProtocolIo {
  import opened Bytes
  import opened Os
  import opened NetIo
  import opened Wire

  /** `proto_send_payload`: all of it, or a prefix and an error. */
  method SendPayload(t: Thread, data: Text) returns (r: ProtocolResult, ghost k: nat)
    requires t.Valid() && t.MaySend(data)
    modifies t`script, t`faulted, t`trace
    ensures t.Valid()
    ensures k <= |data| && t.H() == AfterSending(old(t.H()), data[..k])
    ensures r.ProtocolOk? <==> k == |data|
    ensures (old(t.faulted) ==> t.faulted) && (!r.ProtocolOk? ==> t.faulted)
  {
    hide Always, Replay, Step, Enabled;
    var n;
    n, k := SendAll(t, data);
    r := if n.Error? then Io else if n.n < |data| then ShortWrite else ProtocolOk;
  }

  /** `send_res_frame`: an ill-formed frame is refused, and nothing of it is sent. */
  method SendFrame(t: Thread, f: Frame) returns (r: ProtocolResult, ghost k: nat)
    requires t.Valid() && (FrameValid(f) ==> t.MaySend(FrameBytes(f)))
    modifies t`script, t`faulted, t`trace
    ensures t.Valid() && k <= FRAME_SIZE
    ensures if FrameValid(f) then t.H() == AfterSending(old(t.H()), FrameBytes(f)[..k]) else t.H() == old(t.H())
    ensures r.ProtocolOk? <==> FrameValid(f) && k == FRAME_SIZE
    ensures (old(t.faulted) ==> t.faulted) && (FrameValid(f) && !r.ProtocolOk? ==> t.faulted)
  {
    hide Always, Replay, Step, Enabled, FrameValid;
    var encoded := EncodeFrame(f);
    match encoded
    case Err(reason) => r, k := InvalidArgument, 0;
    case Ok(bytes) => r, k := SendPayload(t, bytes);
  }

  /** `recv_all` of exactly n bytes, with the error its callers report otherwise. */
  method RecvExactly(t: Thread, n: nat) returns (r: ProtocolResult, bytes: Text)
    requires t.Valid() && t.MayReceive(n)
    modifies t`script, t`faulted, t`trace
    ensures t.Valid()
    ensures |bytes| <= n && t.H() == AfterReceiving(old(t.H()), bytes)
    ensures r.ProtocolOk? <==> |bytes| == n
    ensures r.ProtocolOk? || r.Io? || r.Eof?
    ensures (old(t.faulted) ==> t.faulted) && (!r.ProtocolOk? ==> t.faulted)
  {
    hide Always, Replay, Step, Enabled;
    var c;
    c, bytes := RecvAll(t, n);
    r := if c.Error? then Io else if c.n < n then Eof else ProtocolOk;
  }

  /** `recv_res_frame`. */
  method RecvFrame(t: Thread) returns (d: Decoded<Frame>, ghost got: Text)
    requires t.Valid() && t.MayReceive(FRAME_SIZE)
    modifies t`script, t`faulted, t`trace
    ensures t.Valid()
    ensures |got| <= FRAME_SIZE && t.H() == AfterReceiving(old(t.H()), got)
    ensures d.Ok? ==> FrameValid(d.value) && got == FrameBytes(d.value)
    ensures d.Err? ==> |got| < FRAME_SIZE || DecodeFrame(got).Err?
    ensures (old(t.faulted) ==> t.faulted) && (|got| < FRAME_SIZE ==> t.faulted)
  {
    hide Always, Replay, Step, Enabled;
    var r, bytes := RecvExactly(t, FRAME_SIZE);
    got := bytes;
    if !r.ProtocolOk? {
      return Err(r), got;
    }
    d := DecodeFrame(bytes);
    if d.Ok? {
      FrameDecoded(bytes);
    }
  }

  /** `client_recv_checked_response`: the one frame that lets the client go on. */
  method RecvCheckedResponse(t: Thread, phase: nat) returns (ok: bool, ghost got: Text)
    requires t.Valid() && t.MayReceive(FRAME_SIZE)
    requires phase == READY || phase == FINAL
    modifies t`script, t`faulted, t`trace
    ensures t.Valid()
    ensures |got| <= FRAME_SIZE && t.H() == AfterReceiving(old(t.H()), got)
    ensures ok <==> got == FrameBytes(Frame(phase, STATUS_OK, 0))
    ensures (old(t.faulted) ==> t.faulted) && (|got| < FRAME_SIZE ==> t.faulted)
  {
    hide Always, Replay, Step, Enabled;
    var d;
    d, got := RecvFrame(t);
    FrameRoundTrip(Frame(phase, STATUS_OK, 0));
    if d.Err? {
      return false, got;
    }
    FrameRoundTrip(d.value);
    if d.value.phase != phase {
      return false, got;
    }
    ok := d.value.status == STATUS_OK;
  }

  // ---------------------------------------------------------------- names and prefixes

  lemma {:induction false} ReceivedMore(h: History, a: Text, b: Text)
    ensures AfterReceiving(AfterReceiving(h, a), b) == AfterReceiving(h, a + b)
  {
    assert h.recvd + a + b == h.recvd + (a + b);
  }

  lemma {:induction false} MayReceiveRest(t: Thread, h: History, n: nat, got: Text)
    requires |got| <= n && t.H() == AfterReceiving(h, got)
    requires forall bs: Text | |bs| <= n :: t.inv(AfterReceiving(h, bs))
    ensures forall m: nat | m <= n - |got| :: t.MayReceive(m)
  {
    ReceiveRest(t, h, n, got);
  }

  /** A name cut short is no name. */
  lemma {:induction false} ShortName(got: Text, n: nat)
    requires |got| < NameOnlySize(n)
    requires |got| >= 2 ==> FromBigEndian(got[..2]) == n
    ensures NameIn(got).None?
  {
  }

  /** `proto_recv_file_name_only`. */
  method RecvName(t: Thread) returns (r: ProtocolResult, raw: Text, ghost got: Text)
    requires t.Valid() && t.MayReceive(NameOnlySize(MAX_FILE_NAME_LEN))
    modifies t`script, t`faulted, t`trace
    ensures t.Valid()
    ensures t.H() == AfterReceiving(old(t.H()), got) && |got| <= NameOnlySize(MAX_FILE_NAME_LEN)
    ensures if r.ProtocolOk? then NameFits(raw) && got == EncodeName(raw) else NameIn(got).None?
    ensures (old(t.faulted) ==> t.faulted) && (!r.ProtocolOk? && !(r.FileNameLen? && BadLength(got)) ==> t.faulted)
  {
    hide Always, Replay, Step, Enabled, BigEndian, FromBigEndian;
    ghost var h := t.H();
    raw := [];
    var bytes;
    r, bytes := RecvExactly(t, 2);
    got := bytes;
    if !r.ProtocolOk? {
      return;
    }
    assert got[..2] == got;
    var n := FromBigEndian(bytes);
    if n == 0 || n > MAX_FILE_NAME_LEN {
      return FileNameLen, raw, got;
    }
    var granted := t.Try();
    if !granted {
      return Alloc, raw, got;
    }
    MayReceiveRest(t, h, NameOnlySize(MAX_FILE_NAME_LEN), got);
    var name;
    r, name := RecvExactly(t, n);
    ReceivedMore(h, got, name);
    got := got + name;
    assert got[..2] == bytes;
    if !r.ProtocolOk? {
      ShortName(got, n);
      return;
    }
    EncodesDecoded(bytes);
    raw := name;
  }

  /** `proto_recv_file_transfer_prefix`. */
  method RecvPrefix(t: Thread) returns (r: ProtocolResult, raw: Text, size: nat, ghost got: Text)
    requires t.Valid() && t.MayReceive(PrefixSize(MAX_FILE_NAME_LEN))
    modifies t`script, t`faulted, t`trace
    ensures t.Valid() && size <= SIZE_MAX
    ensures t.H() == AfterReceiving(old(t.H()), got) && |got| <= PrefixSize(MAX_FILE_NAME_LEN)
    ensures if r.ProtocolOk? then NameFits(raw) && got == EncodePrefix(raw, size) else PrefixIn(got).None?
    ensures (old(t.faulted) ==> t.faulted) && (!r.ProtocolOk? && !(r.FileNameLen? && BadLength(got)) ==> t.faulted)
  {
    hide Always, Replay, Step, Enabled, BigEndian, FromBigEndian, NameIn;
    ghost var h := t.H();
    size := 0;
    assert t.MayReceive(NameOnlySize(MAX_FILE_NAME_LEN));
    r, raw, got := RecvName(t);
    if !r.ProtocolOk? {
      return;
    }
    MayReceiveRest(t, h, PrefixSize(MAX_FILE_NAME_LEN), got);
    var bytes;
    r, bytes := RecvExactly(t, 8);
    ReceivedMore(h, got, bytes);
    NameReads(raw, bytes);
    got := got + bytes;
    if !r.ProtocolOk? {
      return;
    }
    EncodesDecoded(bytes);
    size := DecodeU64(bytes);
  }

  /** `recv_header` and `decode_header`. */
  method RecvHeader(t: Thread) returns (d: Decoded<Header>, ghost got: Text)
    requires t.Valid() && t.MayReceive(HEADER_SIZE)
    modifies t`script, t`faulted, t`trace
    ensures t.Valid()
    ensures t.H() == AfterReceiving(old(t.H()), got) && |got| <= HEADER_SIZE
    ensures d.Ok? <==> |got| == HEADER_SIZE && DecodeHeader(got).Ok?
    ensures d.Ok? ==> d == DecodeHeader(got) && Fits(d.value)
    ensures (old(t.faulted) ==> t.faulted) && (|got| < HEADER_SIZE ==> t.faulted)
  {
    hide Always, Replay, Step, Enabled;
    var r, bytes := RecvExactly(t, HEADER_SIZE);
    got := bytes;
    if !r.ProtocolOk? {
      return Err(r), got;
    }
    d := DecodeHeader(bytes);
    if d.Ok? {
      HeaderBytes(bytes);
    }
  }
}
