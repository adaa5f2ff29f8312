/**
 * The transfer loops of src/net.c and `fs_write_all`: partial transfers, EINTR,
 * and the zero-copy paths with their fallbacks. Descriptors are valid, so the
 * argument checks of the source never fire; the platform is Linux.
 */
module NetIo {
  import opened Bytes
  import opened Os

  const CHUNK_SIZE: nat := 1024 * 1024

  lemma {:induction false} SendRest(t: Thread, h: History, data: Text, k: nat, m: nat)
    requires k + m <= |data| && t.H() == AfterSending(h, data[..k])
    requires forall j | 0 <= j <= |data| :: t.inv(AfterSending(h, data[..j]))
    ensures t.MaySend(data[k..k + m])
  {
    var rest := data[k..k + m];
    forall j | 0 <= j <= |rest| ensures t.inv(AfterSending(t.H(), rest[..j])) {
      assert h.sent + data[..k] + rest[..j] == h.sent + data[..k + j];
      assert AfterSending(t.H(), rest[..j]) == AfterSending(h, data[..k + j]);
    }
  }

  lemma {:induction false} SentMore(h: History, data: Text, k: nat, n: nat)
    requires k + n <= |data|
    ensures AfterSending(AfterSending(h, data[..k]), data[k..k + n]) == AfterSending(h, data[..k + n])
  {
    assert h.sent + data[..k] + data[k..k + n] == h.sent + data[..k + n];
  }

  /** `send_all`: every byte once and in order, or a count of those that went out. */
  method SendAll(t: Thread, data: Text) returns (r: Return, ghost k: nat)
    requires t.Valid() && t.MaySend(data)
    modifies t`script, t`faulted, t`trace
    ensures t.Valid()
    ensures k <= |data| && t.H() == AfterSending(old(t.H()), data[..k])
    ensures r == Count(|data|) <==> k == |data|
    ensures r.Count? ==> r.n == k
    ensures |t.script| <= old(|t.script|)
    ensures (old(t.faulted) ==> t.faulted) && (k < |data| ==> t.faulted)
  {
    hide Always, Replay, Step, Enabled;
    ghost var h := t.H();
    var total: nat := 0;
    assert h.sent + data[..0] == h.sent;
    while total < |data|
      invariant t.Valid() && total <= |data| && t.H() == AfterSending(h, data[..total])
      invariant |t.script| <= old(|t.script|)
      invariant old(t.faulted) ==> t.faulted
      decreases |t.script|
    {
      SendRest(t, h, data, total, |data| - total);
      assert data[total..] == data[total..total + (|data| - total)];
      var n := t.Send(data[total..]);
      if n.Error? {
        if n.errno == EINTR {
          continue;
        }
        return n, total;
      }
      if n.n == 0 {
        return Count(total), total;
      }
      assert data[total..][..n.n] == data[total..total + n.n];
      SentMore(h, data, total, n.n);
      total := total + n.n;
    }
    r, k := Count(total), total;
  }

  lemma {:induction false} ReceiveRest(t: Thread, h: History, len: nat, got: Text)
    requires |got| <= len && t.H() == AfterReceiving(h, got)
    requires forall bs: Text | |bs| <= len :: t.inv(AfterReceiving(h, bs))
    ensures t.MayReceive(len - |got|)
  {
    forall bs: Text | |bs| <= len - |got| ensures t.inv(AfterReceiving(t.H(), bs)) {
      assert h.recvd + got + bs == h.recvd + (got + bs);
      assert AfterReceiving(t.H(), bs) == AfterReceiving(h, got + bs);
    }
  }

  /** `recv_all`: `bytes` is what arrived, all `len` of them or fewer. */
  method RecvAll(t: Thread, len: nat) returns (r: Return, bytes: Text)
    requires t.Valid() && t.MayReceive(len)
    modifies t`script, t`faulted, t`trace
    ensures t.Valid()
    ensures |bytes| <= len && t.H() == AfterReceiving(old(t.H()), bytes)
    ensures r == Count(len) <==> |bytes| == len
    ensures r.Count? ==> r.n == |bytes|
    ensures |t.script| <= old(|t.script|)
    ensures (old(t.faulted) ==> t.faulted) && (|bytes| < len ==> t.faulted)
  {
    hide Always, Replay, Step, Enabled;
    ghost var h := t.H();
    bytes := [];
    assert h.recvd + [] == h.recvd;
    assert forall bs: Text | |bs| <= len :: t.inv(AfterReceiving(h, bs));
    while |bytes| < len
      invariant t.Valid() && |bytes| <= len && t.H() == AfterReceiving(h, bytes)
      invariant |t.script| <= old(|t.script|)
      invariant old(t.faulted) ==> t.faulted
      decreases |t.script|
    {
      ReceiveRest(t, h, len, bytes);
      var n, arrived := t.Recv(len - |bytes|);
      if n.Error? {
        if n.errno == EINTR {
          continue;
        }
        return n, bytes;
      }
      assert h.recvd + bytes + arrived == h.recvd + (bytes + arrived);
      bytes := bytes + arrived;
      if n.n == 0 {
        return Count(|bytes|), bytes;
      }
    }
    r := Count(|bytes|);
  }

  // ---------------------------------------------------------------- sending a file

  lemma {:induction false} PrefixSlice(s: Text, m: nat, i: nat, j: nat)
    requires i <= j <= m <= |s|
    ensures s[..m][..i] == s[..i] && s[..m][i..j] == s[i..j]
  {
  }

  datatype SendResult = SendOk | SendUnsupported | SourceChanged | SendIo

  /**
   * `net_send_file_all`: the kernel copies from an explicit offset. "Unsupported"
   * is reported only while nothing has been sent.
   */
  method SendFileAll(t: Thread, content: Text, size: nat) returns (res: SendResult, ghost k: nat)
    requires t.Valid() && t.MaySend(content[..Min(size, |content|)])
    modifies t`script, t`faulted, t`trace
    ensures t.Valid()
    ensures k <= size && k <= |content| && t.H() == AfterSending(old(t.H()), content[..k])
    ensures res == SendOk <==> k == size
    ensures res == SendUnsupported ==> k == 0
    ensures (old(t.faulted) ==> t.faulted) && (res != SendUnsupported && k < Min(size, |content|) ==> t.faulted)
  {
    hide Always, Replay, Step, Enabled;
    ghost var h, all := t.H(), content[..Min(size, |content|)];
    var offset: nat, remaining: nat := 0, size;
    assert h.sent + content[..0] == h.sent;
    while remaining > 0
      invariant t.Valid() && offset + remaining == size && offset <= |content|
      invariant t.H() == AfterSending(h, content[..offset])
      invariant old(t.faulted) ==> t.faulted
      decreases |t.script|
    {
      ghost var m := Min(remaining, |content| - offset);
      PrefixSlice(content, |all|, offset, offset + m);
      SendRest(t, h, all, offset, m);
      var n := t.SendFile(content, offset, remaining);
      if n.Error? {
        if IsUnsupported(n.errno) && offset == 0 {
          return SendUnsupported, offset;
        }
        if n.errno == EINTR {
          continue;
        }
        return SendIo, offset;
      }
      if n.n == 0 {
        return SourceChanged, offset;
      }
      SentMore(h, content, offset, n.n);
      remaining := remaining - n.n;
      offset := offset + n.n;
    }
    return SendOk, offset;
  }

  /** `net_send_file_buffered`: read a chunk, send all of it, until `size` bytes are out. */
  method SendFileBuffered(t: Thread, content: Text, size: nat) returns (res: SendResult, ghost k: nat)
    requires t.Valid() && t.MaySend(content[..Min(size, |content|)])
    modifies t`script, t`faulted, t`trace
    ensures t.Valid()
    ensures k <= size && k <= |content| && t.H() == AfterSending(old(t.H()), content[..k])
    ensures res == SendOk <==> k == size
    ensures res != SendUnsupported
    ensures (old(t.faulted) ==> t.faulted) && (k < Min(size, |content|) ==> t.faulted)
  {
    hide Always, Replay, Step, Enabled;
    ghost var h, all := t.H(), content[..Min(size, |content|)];
    assert h.sent + content[..0] == h.sent;
    if size == 0 {
      return SendOk, 0;
    }
    var granted := t.Try();
    if !granted {
      return SendIo, 0;
    }
    var position: nat, remaining: nat := 0, size;
    while remaining > 0
      invariant t.Valid() && position + remaining == size && position <= |content|
      invariant t.H() == AfterSending(h, content[..position])
      invariant old(t.faulted) ==> t.faulted
      decreases |t.script|
    {
      var want := Min(CHUNK_SIZE, remaining);
      var nr := t.Read(content, position, want);
      if nr.Error? {
        return SendIo, position;
      }
      if nr.n == 0 {
        return SourceChanged, position;
      }
      var chunk := content[position..position + nr.n];
      PrefixSlice(content, |all|, position, position + nr.n);
      SendRest(t, h, all, position, nr.n);
      var sent, j := SendAll(t, chunk);
      assert chunk[..j] == content[position..position + j];
      SentMore(h, content, position, j);
      if sent != Count(nr.n) {
        return SendIo, position + j;
      }
      assert chunk[..nr.n] == chunk;
      remaining := remaining - nr.n;
      position := position + nr.n;
    }
    return SendOk, position;
  }

  /**
   * `net_send_file_best_effort`: the first `k` bytes of the file go out, each
   * once and in order, whichever path carries them, and success means exactly
   * `size` of them.
   */
  method SendFileBestEffort(t: Thread, content: Text, size: nat) returns (res: SendResult, ghost k: nat)
    requires t.Valid() && t.MaySend(content[..Min(size, |content|)])
    modifies t`script, t`faulted, t`trace
    ensures t.Valid()
    ensures k <= size && k <= |content| && t.H() == AfterSending(old(t.H()), content[..k])
    ensures res == SendOk <==> k == size
    ensures res != SendUnsupported
    ensures (old(t.faulted) ==> t.faulted) && (k < Min(size, |content|) ==> t.faulted)
  {
    hide Always, Replay, Step, Enabled;
    ghost var h := t.H();
    res, k := SendFileAll(t, content, size);
    if res != SendUnsupported {
      return;
    }
    assert h.sent + content[..0] == h.sent;
    assert AfterSending(h, content[..0]) == h;
    res, k := SendFileBuffered(t, content, size);
  }

  // ---------------------------------------------------------------- receiving a file

  datatype RecvResult = RecvOk | RecvUnsupported | RecvEof | RecvIo

  lemma {:induction false} TransferRest(t: Thread, h: History, size: nat, got: Text, put: Text)
    requires h.temp.Some? && |got| <= size && put <= got && t.H() == AfterTransfer(h, got, put)
    requires forall g: Text, p: Text | |g| <= size && p <= g :: t.inv(AfterTransfer(h, g, p))
    ensures t.MayReceive(size - |got|)
    ensures forall j | 0 <= j <= |got| - |put| :: t.inv(AfterTransfer(t.H(), [], got[|put|..][..j]))
    ensures put == got ==> t.MayTransfer(size - |got|)
  {
    forall bs: Text | |bs| <= size - |got| ensures t.inv(AfterReceiving(t.H(), bs)) {
      assert h.recvd + got + bs == h.recvd + (got + bs);
      assert AfterReceiving(t.H(), bs) == AfterTransfer(h, got + bs, put);
    }
    forall j | 0 <= j <= |got| - |put| ensures t.inv(AfterTransfer(t.H(), [], got[|put|..][..j])) {
      var p := put + got[|put|..][..j];
      assert p == got[..|put| + j];
      assert h.recvd + got + [] == h.recvd + got;
      assert h.temp.value.content + put + got[|put|..][..j] == h.temp.value.content + p;
      assert AfterTransfer(t.H(), [], got[|put|..][..j]) == AfterTransfer(h, got, p);
    }
    if put == got {
      forall g: Text, p: Text | |g| <= size - |got| && p <= g ensures t.inv(AfterTransfer(t.H(), g, p)) {
        assert h.recvd + got + g == h.recvd + (got + g);
        assert h.temp.value.content + put + p == h.temp.value.content + (put + p);
        assert put + p <= got + g;
        assert AfterTransfer(t.H(), g, p) == AfterTransfer(h, got + g, put + p);
      }
    }
  }

  lemma {:induction false} TransferredMore(h: History, got: Text, put: Text, more: Text, j: nat)
    requires h.temp.Some? && put <= got && |put| + j <= |got|
    ensures AfterReceiving(AfterTransfer(h, got, put), more) == AfterTransfer(h, got + more, put)
    ensures AfterTransfer(AfterTransfer(h, got, put), [], got[|put|..][..j]) == AfterTransfer(h, got, got[..|put| + j])
  {
    assert h.recvd + got + more == h.recvd + (got + more);
    assert h.recvd + got + [] == h.recvd + got;
    assert put + got[|put|..][..j] == got[..|put| + j];
    assert h.temp.value.content + put + got[|put|..][..j] == h.temp.value.content + got[..|put| + j];
  }

  /** `fs_write_all` to the temporary file, of the bytes received but not yet written. */
  method WriteAll(t: Thread, ghost h: History, ghost size: nat, ghost got: Text, ghost put0: Text, data: Text)
    returns (all: bool, ghost put: Text)
    requires t.Valid() && h.temp.Some? && t.H() == AfterTransfer(h, got, put0)
    requires |got| <= size && got == put0 + data
    requires forall g: Text, p: Text | |g| <= size && p <= g :: t.inv(AfterTransfer(h, g, p))
    modifies t`script, t`faulted, t`trace
    ensures t.Valid() && put0 <= put <= got && t.H() == AfterTransfer(h, got, put)
    ensures all <==> put == got
    ensures |t.script| <= old(|t.script|)
    ensures (old(t.faulted) ==> t.faulted) && (!all ==> t.faulted)
  {
    hide Always, Replay, Step, Enabled;
    put := put0;
    var total: nat := 0;
    assert got[..|put0|] == put0;
    while total < |data|
      invariant t.Valid() && total <= |data| && put == got[..|put0| + total]
      invariant t.H() == AfterTransfer(h, got, put)
      invariant |t.script| <= old(|t.script|)
      invariant old(t.faulted) ==> t.faulted
      decreases |t.script|
    {
      TransferRest(t, h, size, got, put);
      assert data[total..] == got[|put|..];
      var n := t.Write(data[total..]);
      if n.Error? {
        if n.errno == EINTR {
          continue;
        }
        return false, put;
      }
      TransferredMore(h, got, put, [], n.n);
      total := total + n.n;
      put := got[..|put0| + total];
      if n.n == 0 {
        return false, put;
      }
    }
    assert put == got;
    all := true;
  }

  /** The inner loop of `net_recv_file_all`: everything in the pipe goes to the file. */
  method DrainPipe(t: Thread, ghost h: History, ghost size: nat, ghost got: Text, ghost put0: Text, n: nat)
    returns (ok: bool, ghost put: Text)
    requires t.Valid() && h.temp.Some? && t.H() == AfterTransfer(h, got, put0)
    requires |got| <= size && put0 <= got && t.pipe == Some(got[|put0|..]) && n == |got| - |put0|
    requires forall g: Text, p: Text | |g| <= size && p <= g :: t.inv(AfterTransfer(h, g, p))
    modifies t`script, t`faulted, t`trace, t`pipe
    ensures t.Valid() && t.pipe.Some? && put0 <= put <= got && t.H() == AfterTransfer(h, got, put)
    ensures ok <==> put == got
    ensures ok ==> t.pipe == Some([])
    ensures |t.script| <= old(|t.script|)
    ensures (old(t.faulted) ==> t.faulted) && (!ok ==> t.faulted)
  {
    hide Always, Replay, Step, Enabled;
    put := put0;
    var pipeRemaining: nat := n;
    while pipeRemaining > 0
      invariant t.Valid() && put0 <= put <= got && pipeRemaining == |got| - |put|
      invariant t.H() == AfterTransfer(h, got, put) && t.pipe == Some(got[|put|..])
      invariant |t.script| <= old(|t.script|)
      invariant old(t.faulted) ==> t.faulted
      decreases |t.script|
    {
      TransferRest(t, h, size, got, put);
      var written := t.SpliceOut(pipeRemaining);
      if written.Error? {
        if written.errno == EINTR {
          continue;
        }
        return false, put;
      }
      TransferredMore(h, got, put, [], written.n);
      pipeRemaining := pipeRemaining - written.n;
      put := got[..|put| + written.n];
      if written.n == 0 {
        return false, put;
      }
    }
    assert put == got;
    assert got[|put|..] == [];
    ok := true;
  }

  /**
   * `net_recv_file_all` on Linux: splice through a pipe once the direct splice
   * has been refused. "Unsupported" is reported only while nothing has been
   * taken from the socket, and no exit leaves the pipe open.
   */
  method RecvFileAll(t: Thread, size: nat) returns (res: RecvResult, ghost got: Text, ghost put: Text)
    requires t.Valid() && t.MayTransfer(size) && t.pipe == None
    modifies t`script, t`faulted, t`trace, t`pipe
    ensures t.Valid() && t.pipe == None
    ensures |got| <= size && put <= got && t.H() == AfterTransfer(old(t.H()), got, put)
    ensures res == RecvOk <==> |put| == size
    ensures res == RecvUnsupported ==> got == []
    ensures res == RecvEof ==> put == got
    ensures (old(t.faulted) ==> t.faulted) && (res != RecvOk && res != RecvUnsupported ==> t.faulted)
  {
    hide Always, Replay, Step, Enabled;
    ghost var h := t.H();
    got, put := [], [];
    assert AfterTransfer(h, [], []) == h by {
      assert h.recvd + [] == h.recvd && h.temp.value.content + [] == h.temp.value.content;
    }
    if size == 0 {
      return RecvOk, got, put;
    }
    var remaining: nat, moved: nat, usePipe := size, 0, false;
    while remaining > 0
      invariant t.Valid() && t.H() == AfterTransfer(h, got, got) && put == got
      invariant moved == |got| && moved + remaining == size
      invariant if usePipe then t.pipe == Some([]) else t.pipe == None && moved == 0
      invariant old(t.faulted) ==> t.faulted
      decreases |t.script|
    {
      if !usePipe {
        var e := t.SpliceDirect();
        if IsUnsupported(e) && moved == 0 {
          var made := t.OpenPipe();
          if made.Error? {
            return (if made.errno == EMFILE || made.errno == ENFILE then RecvIo else RecvUnsupported), got, put;
          }
          usePipe := true;
          continue;
        }
        if e == EINTR {
          continue;
        }
        return RecvIo, got, put;
      }
      TransferRest(t, h, size, got, got);
      var n, bytes := t.SpliceIn(Min(CHUNK_SIZE, remaining), moved == 0);
      if n.Error? {
        if IsUnsupported(n.errno) && moved == 0 {
          t.ClosePipe();
          return RecvUnsupported, got, put;
        }
        if n.errno == EINTR {
          continue;
        }
        t.ClosePipe();
        return RecvIo, got, put;
      }
      TransferredMore(h, got, got, bytes, 0);
      if n.n == 0 {
        assert got + bytes == got;
        t.ClosePipe();
        return RecvEof, got, put;
      }
      got := got + bytes;
      assert got[|put|..] == [] + bytes;
      var ok;
      ok, put := DrainPipe(t, h, size, got, put, n.n);
      if !ok {
        t.ClosePipe();
        return RecvIo, got, put;
      }
      remaining := remaining - n.n;
      moved := moved + n.n;
    }
    if usePipe {
      t.ClosePipe();
    }
    return RecvOk, got, put;
  }

  /** `net_recv_file_buffered`: receive a chunk, write all of it, until `size` bytes are in. */
  method RecvFileBuffered(t: Thread, size: nat) returns (res: RecvResult, ghost got: Text, ghost put: Text)
    requires t.Valid() && t.MayTransfer(size)
    modifies t`script, t`faulted, t`trace
    ensures t.Valid()
    ensures |got| <= size && put <= got && t.H() == AfterTransfer(old(t.H()), got, put)
    ensures res == RecvOk <==> |put| == size
    ensures res == RecvEof ==> put == got
    ensures res != RecvUnsupported
    ensures (old(t.faulted) ==> t.faulted) && (res != RecvOk ==> t.faulted)
  {
    hide Always, Replay, Step, Enabled;
    ghost var h := t.H();
    got, put := [], [];
    assert AfterTransfer(h, [], []) == h by {
      assert h.recvd + [] == h.recvd && h.temp.value.content + [] == h.temp.value.content;
    }
    if size == 0 {
      return RecvOk, got, put;
    }
    var bufCap := 8192;
    if size > 1024 * 1024 {
      bufCap := 256 * 1024;
      var granted := t.Try();
      if !granted {
        return RecvIo, got, put;
      }
    }
    var remaining: nat := size;
    while remaining > 0
      invariant t.Valid() && t.H() == AfterTransfer(h, got, got) && put == got
      invariant |got| + remaining == size
      invariant old(t.faulted) ==> t.faulted
      decreases |t.script|
    {
      TransferRest(t, h, size, got, got);
      var n, bytes := t.Recv(Min(bufCap, remaining));
      if n.Error? {
        if n.errno == EINTR {
          continue;
        }
        return RecvIo, got, put;
      }
      TransferredMore(h, got, got, bytes, 0);
      if n.n == 0 {
        assert got + bytes == got;
        return RecvEof, got, put;
      }
      got := got + bytes;
      var all;
      all, put := WriteAll(t, h, size, got, put, bytes);
      if !all {
        return RecvIo, got, put;
      }
      remaining := remaining - n.n;
    }
    return RecvOk, got, put;
  }

  /**
   * `net_recv_file_best_effort`: what reaches the file is a prefix of what was
   * received, each byte once and in order, whichever path carries it, and
   * success means exactly `size` bytes received and written.
   */
  method RecvFileBestEffort(t: Thread, size: nat) returns (res: RecvResult, ghost got: Text, ghost put: Text)
    requires t.Valid() && t.MayTransfer(size) && t.pipe == None
    modifies t`script, t`faulted, t`trace, t`pipe
    ensures t.Valid() && t.pipe == None
    ensures |got| <= size && put <= got && t.H() == AfterTransfer(old(t.H()), got, put)
    ensures res == RecvOk <==> |put| == size
    ensures res == RecvEof ==> put == got
    ensures res != RecvUnsupported
    ensures (old(t.faulted) ==> t.faulted) && (res != RecvOk ==> t.faulted)
  {
    hide Always, Replay, Step, Enabled;
    ghost var h := t.H();
    res, got, put := RecvFileAll(t, size);
    if res != RecvUnsupported {
      return;
    }
    assert AfterTransfer(h, [], []) == h by {
      assert h.recvd + [] == h.recvd && h.temp.value.content + [] == h.temp.value.content;
    }
    res, got, put := RecvFileBuffered(t, size);
  }
}
