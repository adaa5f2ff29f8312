/** The frames of the transfer protocol (src/protocol.c) and their byte order (src/net.c). */
module Wire {
  import opened Bytes

  // ---------------------------------------------------------------- integers

  /** 256 to the n. */
  function Pow256(n: nat): (r: nat)
    ensures r > 0
  {
    if n == 0 then 1 else 0x100 * Pow256(n - 1)
  }

  /** The low n bytes of v, most significant first. */
  function BigEndian(v: nat, n: nat): (r: Text)
    ensures |r| == n
  {
    if n == 0 then [] else BigEndian(v / 0x100, n - 1) + [v % 0x100]
  }

  function FromBigEndian(bs: Text): nat {
    if bs == [] then 0 else 0x100 * FromBigEndian(bs[..|bs| - 1]) + bs[|bs| - 1]
  }

  lemma {:induction false} DecodesEncoded(v: nat, n: nat)
    requires v < Pow256(n)
    ensures FromBigEndian(BigEndian(v, n)) == v
  {
    if n > 0 {
      DecodesEncoded(v / 0x100, n - 1);
      assert BigEndian(v, n)[..n - 1] == BigEndian(v / 0x100, n - 1);
    }
  }

  lemma {:induction false} EncodesDecoded(bs: Text)
    ensures FromBigEndian(bs) < Pow256(|bs|)
    ensures BigEndian(FromBigEndian(bs), |bs|) == bs
  {
    if bs != [] {
      var n := |bs| - 1;
      EncodesDecoded(bs[..n]);
      var q := FromBigEndian(bs[..n]);
      assert (0x100 * q + bs[n]) / 0x100 == q && (0x100 * q + bs[n]) % 0x100 == bs[n];
      assert bs[..n] + [bs[n]] == bs;
    }
  }

  lemma {:induction false} Widths()
    ensures Pow256(1) == 0x100 && Pow256(2) == 0x1_0000 && Pow256(8) == SIZE_MAX + 1
  {
    assert Pow256(4) == 0x1_0000_0000;
    assert Pow256(6) == 0x1_0000_0000_0000;
  }

  /** `encode_u64_be`: eight shifted bytes into a buffer. */
  method EncodeU64(v: nat, out: array<byte>)
    requires v <= SIZE_MAX && out.Length == 8
    modifies out
    ensures out[..] == BigEndian(v, 8)
  {
    out[0] := v / 0x100_0000_0000_0000 % 0x100;
    out[1] := v / 0x1_0000_0000_0000 % 0x100;
    out[2] := v / 0x100_0000_0000 % 0x100;
    out[3] := v / 0x1_0000_0000 % 0x100;
    out[4] := v / 0x100_0000 % 0x100;
    out[5] := v / 0x1_0000 % 0x100;
    out[6] := v / 0x100 % 0x100;
    out[7] := v % 0x100;
    ghost var q1 := v / 0x100;
    ghost var q2 := q1 / 0x100;
    ghost var q3 := q2 / 0x100;
    ghost var q4 := q3 / 0x100;
    ghost var q5 := q4 / 0x100;
    ghost var q6 := q5 / 0x100;
    ghost var q7 := q6 / 0x100;
    assert q2 == v / 0x1_0000 && q3 == v / 0x100_0000 && q4 == v / 0x1_0000_0000;
    assert q5 == v / 0x100_0000_0000 && q6 == v / 0x1_0000_0000_0000 && q7 == v / 0x100_0000_0000_0000;
    EightBytes(v, q1, q2, q3, q4, q5, q6, q7);
  }

  lemma {:induction false} EightBytes(v: nat, q1: nat, q2: nat, q3: nat, q4: nat, q5: nat, q6: nat, q7: nat)
    requires q1 == v / 0x100 && q2 == q1 / 0x100 && q3 == q2 / 0x100 && q4 == q3 / 0x100
    requires q5 == q4 / 0x100 && q6 == q5 / 0x100 && q7 == q6 / 0x100
    ensures BigEndian(v, 8) ==
      [q7 % 0x100, q6 % 0x100, q5 % 0x100, q4 % 0x100, q3 % 0x100, q2 % 0x100, q1 % 0x100, v % 0x100]
  {
    assert BigEndian(q7, 1) == BigEndian(q7 / 0x100, 0) + [q7 % 0x100] == [q7 % 0x100];
    assert BigEndian(q6, 2) == [q7 % 0x100, q6 % 0x100];
    assert BigEndian(q5, 3) == [q7 % 0x100, q6 % 0x100, q5 % 0x100];
    assert BigEndian(q4, 4) == [q7 % 0x100, q6 % 0x100, q5 % 0x100, q4 % 0x100];
    assert BigEndian(q3, 5) == [q7 % 0x100, q6 % 0x100, q5 % 0x100, q4 % 0x100, q3 % 0x100];
    assert BigEndian(q2, 6) == [q7 % 0x100, q6 % 0x100, q5 % 0x100, q4 % 0x100, q3 % 0x100, q2 % 0x100];
    assert BigEndian(q1, 7) ==
      [q7 % 0x100, q6 % 0x100, q5 % 0x100, q4 % 0x100, q3 % 0x100, q2 % 0x100, q1 % 0x100];
  }

  /** `decode_u64_be`. */
  function DecodeU64(bs: Text): (v: nat)
    requires |bs| == 8
    ensures v == FromBigEndian(bs) && v <= SIZE_MAX
  {
    FromEightBytes(bs);
    0x100_0000_0000_0000 * (bs[0] as int) + 0x1_0000_0000_0000 * (bs[1] as int)
    + 0x100_0000_0000 * (bs[2] as int) + 0x1_0000_0000 * (bs[3] as int)
    + 0x100_0000 * (bs[4] as int) + 0x1_0000 * (bs[5] as int) + 0x100 * (bs[6] as int) + (bs[7] as int)
  }

  lemma {:induction false} FromEightBytes(bs: Text)
    requires |bs| == 8
    ensures FromBigEndian(bs) ==
      0x100_0000_0000_0000 * (bs[0] as int) + 0x1_0000_0000_0000 * (bs[1] as int)
      + 0x100_0000_0000 * (bs[2] as int) + 0x1_0000_0000 * (bs[3] as int)
      + 0x100_0000 * (bs[4] as int) + 0x1_0000 * (bs[5] as int) + 0x100 * (bs[6] as int) + (bs[7] as int)
  {
    assert bs[..7] == bs[..8][..7] && bs[..8] == bs;
    assert FromBigEndian(bs[..1]) == bs[0];
    assert bs[..2][..1] == bs[..1] && FromBigEndian(bs[..2]) == 0x100 * FromBigEndian(bs[..1]) + bs[1];
    assert bs[..3][..2] == bs[..2] && FromBigEndian(bs[..3]) == 0x100 * FromBigEndian(bs[..2]) + bs[2];
    assert bs[..4][..3] == bs[..3] && FromBigEndian(bs[..4]) == 0x100 * FromBigEndian(bs[..3]) + bs[3];
    assert bs[..5][..4] == bs[..4] && FromBigEndian(bs[..5]) == 0x100 * FromBigEndian(bs[..4]) + bs[4];
    assert bs[..6][..5] == bs[..5] && FromBigEndian(bs[..6]) == 0x100 * FromBigEndian(bs[..5]) + bs[5];
    assert bs[..7][..6] == bs[..6] && FromBigEndian(bs[..7]) == 0x100 * FromBigEndian(bs[..6]) + bs[6];
  }

  // ---------------------------------------------------------------- results

  /** `protocol_result_t`, in the order of its values. */
  datatype ProtocolResult =
    | ProtocolOk
    | HeaderMagic
    | HeaderVersion
    | HeaderMsgType
    | HeaderMsgFlag
    | InvalidArgument
    | FileNameLen
    | InvalidFileName
    | PayloadSizeMismatch
    | Io
    | ShortWrite
    | Alloc
    | Eof
    | MsgTooLarge

  function Code(r: ProtocolResult): (c: nat)
    ensures c <= 13 && (c == 0 <==> r.ProtocolOk?)
  {
    match r
    case ProtocolOk => 0
    case HeaderMagic => 1
    case HeaderVersion => 2
    case HeaderMsgType => 3
    case HeaderMsgFlag => 4
    case InvalidArgument => 5
    case FileNameLen => 6
    case InvalidFileName => 7
    case PayloadSizeMismatch => 8
    case Io => 9
    case ShortWrite => 10
    case Alloc => 11
    case Eof => 12
    case MsgTooLarge => 13
  }

  datatype Decoded<+T> = Ok(value: T) | Err(reason: ProtocolResult)

  // ---------------------------------------------------------------- header

  const MAGIC: nat := 0x0429
  const VERSION: nat := 0x03
  const SEND_FILE: nat := 0x01
  const TEXT_MESSAGE: nat := 0x02
  const GET_FILE: nat := 0x03
  const FLAG_NONE: nat := 0x00
  const HEADER_SIZE: nat := 13
  const MAX_TEXT_MESSAGE_SIZE: nat := 256 * 1024
  const MAX_FILE_NAME_LEN: nat := 255
  const MAX_FILE_SIZE: nat := 100 * 1024 * 1024 * 1024

  datatype Header = Header(magic: nat, version: nat, msgType: nat, flags: nat, payloadSize: nat)

  /** The fields fit their C types. */
  predicate Fits(h: Header) {
    h.magic < 0x1_0000 && h.version < 0x100 && h.msgType < 0x100 && h.flags < 0x100 && h.payloadSize <= SIZE_MAX
  }

  function EncodeHeader(h: Header): (r: Text)
    requires Fits(h)
    ensures |r| == HEADER_SIZE
  {
    BigEndian(h.magic, 2) + [h.version, h.msgType, h.flags] + BigEndian(h.payloadSize, 8)
  }

  /** `decode_header`: the first field that is wrong decides the error. */
  function DecodeHeader(bs: Text): (r: Decoded<Header>)
    requires |bs| == HEADER_SIZE
    ensures r.Ok? ==> r.value.msgType in {SEND_FILE, TEXT_MESSAGE, GET_FILE}
  {
    var magic := FromBigEndian(bs[..2]);
    if magic != MAGIC then Err(HeaderMagic)
    else if bs[2] != VERSION then Err(HeaderVersion)
    else if bs[3] != TEXT_MESSAGE && bs[3] != SEND_FILE && bs[3] != GET_FILE then Err(HeaderMsgType)
    else if bs[4] != FLAG_NONE then Err(HeaderMsgFlag)
    else Ok(Header(magic, bs[2], bs[3], bs[4], DecodeU64(bs[5..])))
  }

  /** A header is read back exactly when all its fixed fields are the ones this version speaks. */
  lemma {:induction false} HeaderRoundTrip(h: Header)
    requires Fits(h)
    ensures DecodeHeader(EncodeHeader(h)) ==
      if h.magic != MAGIC then Err(HeaderMagic)
      else if h.version != VERSION then Err(HeaderVersion)
      else if h.msgType !in {SEND_FILE, TEXT_MESSAGE, GET_FILE} then Err(HeaderMsgType)
      else if h.flags != FLAG_NONE then Err(HeaderMsgFlag)
      else Ok(h)
  {
    Widths();
    var bs := EncodeHeader(h);
    assert bs[..2] == BigEndian(h.magic, 2) && bs[5..] == BigEndian(h.payloadSize, 8);
    DecodesEncoded(h.magic, 2);
    DecodesEncoded(h.payloadSize, 8);
  }

  /** An accepted header says all there is in its bytes. */
  lemma {:induction false} HeaderBytes(bs: Text)
    requires |bs| == HEADER_SIZE && DecodeHeader(bs).Ok?
    ensures Fits(DecodeHeader(bs).value) && EncodeHeader(DecodeHeader(bs).value) == bs
  {
    Widths();
    EncodesDecoded(bs[..2]);
    EncodesDecoded(bs[5..]);
    assert bs == bs[..2] + [bs[2], bs[3], bs[4]] + bs[5..];
  }

  // ---------------------------------------------------------------- response frames

  const READY: nat := 0
  const FINAL: nat := 1
  const STATUS_OK: nat := 0
  const REJECTED: nat := 1
  const FAILED: nat := 2
  const FRAME_SIZE: nat := 4

  datatype Frame = Frame(phase: nat, status: nat, errorCode: nat)

  /** `proto_res_frame_valid`: a reason is given exactly for failures, and each phase fails its own way. */
  predicate FrameValid(f: Frame) {
    && (f.phase == READY || f.phase == FINAL)
    && (f.status == STATUS_OK || f.status == REJECTED || f.status == FAILED)
    && f.errorCode <= Code(MsgTooLarge)
    && (if f.status == STATUS_OK then f.errorCode == Code(ProtocolOk) else f.errorCode != Code(ProtocolOk))
    && (if f.phase == READY then f.status == STATUS_OK || f.status == REJECTED
        else f.status == STATUS_OK || f.status == FAILED)
  }

  function FrameBytes(f: Frame): (r: Text)
    requires FrameValid(f)
    ensures |r| == FRAME_SIZE
  {
    [f.phase, f.status] + BigEndian(f.errorCode, 2)
  }

  /** `encode_res_frame`. */
  function EncodeFrame(f: Frame): Decoded<Text> {
    if !FrameValid(f) then Err(InvalidArgument) else Ok(FrameBytes(f))
  }

  /** `decode_res_frame`. */
  function DecodeFrame(bs: Text): Decoded<Frame>
    requires |bs| == FRAME_SIZE
  {
    var f := Frame(bs[0], bs[1], FromBigEndian(bs[2..]));
    if !FrameValid(f) then Err(InvalidArgument) else Ok(f)
  }

  /** Encoder and decoder accept the same frames and undo each other. */
  lemma {:induction false} FrameRoundTrip(f: Frame)
    requires FrameValid(f)
    ensures DecodeFrame(FrameBytes(f)) == Ok(f)
  {
    Widths();
    DecodesEncoded(f.errorCode, 2);
    assert FrameBytes(f)[2..] == BigEndian(f.errorCode, 2);
  }

  lemma {:induction false} FrameDecoded(bs: Text)
    requires |bs| == FRAME_SIZE && DecodeFrame(bs).Ok?
    ensures EncodeFrame(DecodeFrame(bs).value) == Ok(bs)
  {
    EncodesDecoded(bs[2..]);
    assert bs == [bs[0], bs[1]] + bs[2..];
  }

  // ---------------------------------------------------------------- names and prefixes

  /** `proto_get_file_name_len` accepts the name. */
  predicate NameFits(name: Text) {
    1 <= |name| <= MAX_FILE_NAME_LEN
  }

  function NameOnlySize(n: nat): nat { 2 + n }

  function PrefixSize(n: nat): nat { NameOnlySize(n) + 8 }

  /** `encode_file_name_only`. */
  function EncodeName(name: Text): (r: Text)
    requires NameFits(name)
    ensures |r| == NameOnlySize(|name|)
  {
    BigEndian(|name|, 2) + name
  }

  /** `encode_file_prefix`. */
  function EncodePrefix(name: Text, size: nat): (r: Text)
    requires NameFits(name) && size <= SIZE_MAX
    ensures |r| == PrefixSize(|name|)
  {
    EncodeName(name) + BigEndian(size, 8)
  }

  /** The name a text starts with, and what follows it. */
  function NameIn(t: Text): (r: Option<(Text, Text)>)
    ensures r.Some? ==> NameFits(r.value.0) && EncodeName(r.value.0) + r.value.1 == t
  {
    if |t| < 2 then None else
    var n := FromBigEndian(t[..2]);
    if n == 0 || n > MAX_FILE_NAME_LEN || |t| < 2 + n then None
    else
      EncodesDecoded(t[..2]);
      Some((t[2..2 + n], t[2 + n..]))
  }

  /** The prefix a text starts with: name, content size, and what follows. */
  function PrefixIn(t: Text): (r: Option<(Text, nat, Text)>)
    ensures r.Some? ==>
      NameFits(r.value.0) && r.value.1 <= SIZE_MAX && EncodePrefix(r.value.0, r.value.1) + r.value.2 == t
  {
    match NameIn(t)
    case None => None
    case Some((name, rest)) =>
      if |rest| < 8 then None
      else
        EncodesDecoded(rest[..8]);
        assert t == EncodeName(name) + rest[..8] + rest[8..];
        Some((name, DecodeU64(rest[..8]), rest[8..]))
  }

  /** Two bytes that announce no name, and nothing after them. */
  predicate BadLength(got: Text) {
    |got| == 2 && (FromBigEndian(got) == 0 || FromBigEndian(got) > MAX_FILE_NAME_LEN)
  }

  lemma {:induction false} NameReads(name: Text, rest: Text)
    requires NameFits(name)
    ensures NameIn(EncodeName(name) + rest) == Some((name, rest))
  {
    Widths();
    var t := EncodeName(name) + rest;
    assert t[..2] == BigEndian(|name|, 2);
    DecodesEncoded(|name|, 2);
    assert t[2..2 + |name|] == name && t[2 + |name|..] == rest;
  }

  lemma {:induction false} PrefixReads(name: Text, size: nat, rest: Text)
    requires NameFits(name) && size <= SIZE_MAX
    ensures PrefixIn(EncodePrefix(name, size) + rest) == Some((name, size, rest))
  {
    Widths();
    var t := BigEndian(size, 8) + rest;
    assert EncodePrefix(name, size) + rest == EncodeName(name) + t;
    NameReads(name, t);
    DecodesEncoded(size, 8);
    assert t[..8] == BigEndian(size, 8) && t[8..] == rest;
  }
}
