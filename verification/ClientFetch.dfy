/** The download command of the client (src/client.c). */
module ClientFetch {
  import opened Bytes
  import opened Paths
  import opened Os
  import opened NetIo
  import opened Wire
  import opened ProtocolIo
  import opened TransferIo
  import opened ServerContract
  import opened ClientContract
  import opened Client
  import Session

  /** The thread may get into every state a download allows. */
  ghost predicate MayFetch(t: Thread, remote: Text, output: Option<Text>, pid: nat) {
    forall h | FetchClient(remote, output, pid, h) :: t.inv(h)
  }

  ghost function Asked(remote: Text, recvd: Text): History
    requires NameFits(remote)
  {
    START.(sent := RequestLead(remote), recvd := recvd)
  }

  lemma {:induction false} MayAsk(t: Thread, remote: Text, output: Option<Text>, pid: nat)
    requires MayFetch(t, remote, output, pid) && NameFits(remote) && t.H() == START
    ensures t.MaySend(RequestLead(remote))
  {
    hide RequestLead;
    var lead := RequestLead(remote);
    forall j | 0 <= j <= |lead| ensures t.inv(AfterSending(START, lead[..j])) {
      assert AfterSending(START, lead[..j]).sent == lead[..j];
      assert FetchClient(remote, output, pid, AfterSending(START, lead[..j]));
    }
  }

  lemma {:induction false} MayHear(t: Thread, remote: Text, output: Option<Text>, pid: nat)
    requires MayFetch(t, remote, output, pid) && NameFits(remote)
    requires exists recvd :: t.H() == Asked(remote, recvd)
    ensures forall n: nat :: t.MayReceive(n)
  {
    hide RequestLead, Offered;
    forall bs: Text ensures t.inv(AfterReceiving(t.H(), bs)) {
      assert FetchClient(remote, output, pid, AfterReceiving(t.H(), bs));
    }
  }

  /** The bytes before the body. */
  function Lead(raw: Text, size: nat): Text
    requires NameFits(raw) && size <= SIZE_MAX
  {
    ReadyOk() + EncodePrefix(raw, size)
  }

  lemma {:induction false} OfferedIs(raw: Text, size: nat, rest: Text)
    requires NameFits(raw) && size <= SIZE_MAX
    ensures Offered(Lead(raw, size) + rest) == Some((raw, size, rest))
  {
    hide PrefixIn, FrameBytes;
    PrefixReads(raw, size, rest);
    var recvd := Lead(raw, size) + rest;
    assert recvd[FRAME_SIZE..] == EncodePrefix(raw, size) + rest;
    assert ReadyOk() <= recvd;
  }

  /** The states from the accepted offer on. */
  ghost function Fetched(remote: Text, raw: Text, size: nat, rest: Text): History
    requires NameFits(remote) && NameFits(raw) && size <= SIZE_MAX
  {
    START.(sent := RequestLead(remote), recvd := Lead(raw, size) + rest)
  }

  /** The same with a temporary file that the last attempt made. */
  ghost function Filling(
    remote: Text, raw: Text, size: nat, rest: Text, tried: seq<Attempt>, put: Text): History
    requires NameFits(remote) && NameFits(raw) && size <= SIZE_MAX && Succeeds(tried)
  {
    Fetched(remote, raw, size, rest).(tried := tried, temp := Some(File(tried[|tried| - 1].path, put)))
  }

  /** What the rest of a download is about: the offer that was taken up. */
  ghost predicate Taken(t: Thread, target: Text, pid: nat, remote: Text, output: Option<Text>, raw: Text, size: nat) {
    && NameFits(remote) && NameFits(raw) && size <= SIZE_MAX && MayFetch(t, remote, output, pid)
    && target == Target(output, raw) && Acceptable(output, raw, size)
  }

  lemma {:induction false} MayBe(
    t: Thread, target: Text, pid: nat, remote: Text, output: Option<Text>, raw: Text, size: nat, rest: Text, h: History)
    requires Taken(t, target, pid, remote, output, raw, size)
    requires h.sent == RequestLead(remote) && h.recvd == Lead(raw, size) + rest && h.source.None? && h.stored == []
    requires Fetching(target, pid, size, rest, h)
    ensures t.inv(h)
  {
    hide RequestLead, Offered, Lead, Fetching, Acceptable;
    OfferedIs(raw, size, rest);
    assert FetchClient(remote, output, pid, h);
  }

  lemma {:induction false} MayTryAll(
    t: Thread, target: Text, pid: nat, remote: Text, output: Option<Text>, raw: Text, size: nat)
    requires Taken(t, target, pid, remote, output, raw, size)
    ensures MayTry(t, target, pid, Fetched(remote, raw, size, []))
  {
    hide MayFetch, Acceptable, Target, RequestLead, Lead, InOrder;
    var h0 := Fetched(remote, raw, size, []);
    forall tried | InOrder(target, pid, tried) ensures t.inv(AfterAttempts(h0, tried)) {
      assert h0.tried + tried == tried;
      MayBe(t, target, pid, remote, output, raw, size, [], AfterAttempts(h0, tried));
    }
  }

  /** What the loop of `client_open_temp_download` has done, while it still has names to try. */
  ghost predicate Looping(
    target: Text, pid: nat, script0: seq<Outcome>, script: seq<Outcome>, tried: seq<Attempt>, tmpPath: Text)
  {
    && |tried| <= ATTEMPTS && AllTaken(tried) && script == After(script0, |tried|)
    && tried + Attempts(target, pid, script, |tried|) == Attempts(target, pid, script0, 0)
    && (tried != [] ==> BuildTempPath(PATH_CAP, target, pid, 0).Some? && tmpPath == tried[|tried| - 1].path != [])
  }

  /** What it leaves: the attempts the script allows, and the last candidate in the buffer. */
  ghost predicate Opened(
    target: Text, pid: nat, script0: seq<Outcome>, script: seq<Outcome>, tried: seq<Attempt>, tmpPath: Text)
  {
    && tried == Attempts(target, pid, script0, 0) && script == After(script0, |tried|)
    && (Succeeds(tried) || Exhausted(target, pid, tried))
    && tmpPath == LastCandidate(target, pid, tried) && tmpPath != []
  }

  /** `client_open_temp_download`. */
  method OpenTempDownload(t: Thread, target: Text, pid: nat)
    returns (ok: bool, tmpPath: Text, ghost tried: seq<Attempt>)
    requires t.Valid() && t.H().temp.None? && MayTry(t, target, pid, t.H())
    modifies t`script, t`faulted, t`trace
    ensures t.Valid() && t.H() == AfterAttempts(old(t.H()), tried)
    ensures Opened(target, pid, old(t.script), t.script, tried, tmpPath)
    ensures ok <==> Succeeds(tried)
    ensures t.faulted == (old(t.faulted) || GivesUp(tried))
  {
    hide Always, Replay, Step, Enabled, BuildTempPath, Attempts, InOrder, MayTry, AfterAttempts, TempBuffer;
    hide Looping, Opened, AllTaken, GivesUp, Succeeds;
    ghost var h0, script0 := t.H(), t.script;
    tmpPath, tried := [], [];
    NothingTried(h0);
    AttemptsAre(target, pid, t.script);
    LoopStarts(target, pid, t.script);
    var attempt: nat := 0;
    while attempt < ATTEMPTS
      invariant t.Valid() && attempt == |tried| <= ATTEMPTS && t.H() == AfterAttempts(h0, tried) && t.H().temp.None?
      invariant Looping(target, pid, script0, t.script, tried, tmpPath)
      invariant attempt < ATTEMPTS ==> t.faulted == old(t.faulted) && !GivesUp(tried)
      invariant attempt == ATTEMPTS ==> t.faulted && GivesUp(tried)
    {
      var built := BuildTempPath(PATH_CAP, target, pid, attempt);
      LoopEnds(target, pid, script0, t.script, tried, tmpPath);
      tmpPath := TempBuffer(target, pid, attempt);
      if built.None? {
        return false, tmpPath, tried;
      }
      LoopNext(target, pid, script0, t.script, tried, tmpPath);
      NextAttempt(t, target, pid, h0, tried, tmpPath);
      var created := t.CreateExclusive(tmpPath, attempt == ATTEMPTS - 1);
      if created.Count? {
        tried := tried + [Made(tmpPath)];
        return true, tmpPath, tried;
      }
      tried := tried + [Missed(tmpPath, created.errno)];
      if created.errno != EEXIST {
        return false, tmpPath, tried;
      }
      attempt := attempt + 1;
    }
    LoopOver(target, pid, script0, t.script, tried, tmpPath);
    ok := false;
  }

  lemma {:induction false} LoopStarts(target: Text, pid: nat, script: seq<Outcome>)
    ensures Looping(target, pid, script, script, [], []) && !GivesUp([]) && !Succeeds([])
  {
    hide Attempts;
    assert [] + Attempts(target, pid, script, 0) == Attempts(target, pid, script, 0);
  }

  lemma {:induction false} BufferIsUsed(target: Text, pid: nat, attempt: nat)
    ensures TempBuffer(target, pid, attempt) != []
  {
  }

  /** The name does not fit: the loop ends. Otherwise the buffer holds the next name. */
  lemma {:induction false} LoopEnds(
    target: Text, pid: nat, script0: seq<Outcome>, script: seq<Outcome>, tried: seq<Attempt>, tmpPath: Text)
    requires Looping(target, pid, script0, script, tried, tmpPath) && |tried| < ATTEMPTS
    requires InOrder(target, pid, Attempts(target, pid, script0, 0))
    ensures var path := TempBuffer(target, pid, |tried|);
      && path != [] && !Succeeds(tried) && AllTaken(tried)
      && InOrder(target, pid, tried + Attempts(target, pid, script, |tried|))
      && match BuildTempPath(PATH_CAP, target, pid, |tried|)
         case None => Opened(target, pid, script0, script, tried, path)
         case Some(name) => name == path
  {
    hide TempName;
    RoomForAll(target, pid, |tried|);
    BufferIsUsed(target, pid, |tried|);
    if BuildTempPath(PATH_CAP, target, pid, |tried|).None? {
      NoMoreAttempts(target, pid, script, |tried|);
    }
  }

  /** One attempt more. */
  lemma {:induction false} LoopNext(
    target: Text, pid: nat, script0: seq<Outcome>, script: seq<Outcome>, tried: seq<Attempt>, path: Text)
    requires |tried| < ATTEMPTS && BuildTempPath(PATH_CAP, target, pid, |tried|) == Some(path) && path != []
    requires exists before :: Looping(target, pid, script0, script, tried, before)
    ensures match Head(script)
      case Done(_, _) =>
        var more := tried + [Made(path)];
        Opened(target, pid, script0, Rest(script), more, path) && Succeeds(more) && !GivesUp(more)
      case Fails(e) =>
        var more := tried + [Missed(path, e)];
        && !Succeeds(more) && (GivesUp(more) <==> e != EEXIST || |more| == ATTEMPTS)
        && if e == EEXIST then Looping(target, pid, script0, Rest(script), more, path)
           else Opened(target, pid, script0, Rest(script), more, path)
  {
    hide TempName, Attempts, BuildTempPath;
    RoomForAll(target, pid, |tried|);
    UnfoldAttempts(target, pid, script, tried, path);
    assert forall a: Attempt :: (tried + [a]) + [] == tried + [a];
    assert After(script0, |tried| + 1) == Rest(script);
  }

  lemma {:induction false} LoopOver(
    target: Text, pid: nat, script0: seq<Outcome>, script: seq<Outcome>, tried: seq<Attempt>, tmpPath: Text)
    requires Looping(target, pid, script0, script, tried, tmpPath) && |tried| == ATTEMPTS && GivesUp(tried)
    ensures Opened(target, pid, script0, script, tried, tmpPath) && !Succeeds(tried)
  {
    NoMoreAttempts(target, pid, script, ATTEMPTS);
  }

  lemma {:induction false} StillFetching(
    target: Text, pid: nat, size: nat, got: Text, tried: seq<Attempt>, put: Text, h: History)
    requires InOrder(target, pid, tried) && Succeeds(tried) && put <= got && |put| <= size
    requires h.tried == tried && h.temp == Some(File(tried[|tried| - 1].path, put))
    requires h.published == [] && h.strays == []
    ensures Fetching(target, pid, size, got, h)
  {
    hide InOrder, TempName;
  }

  lemma {:induction false} MayMove(
    t: Thread, target: Text, pid: nat, remote: Text, output: Option<Text>, raw: Text, size: nat, tried: seq<Attempt>)
    requires Taken(t, target, pid, remote, output, raw, size) && InOrder(target, pid, tried) && Succeeds(tried)
    requires t.H() == Filling(remote, raw, size, [], tried, [])
    ensures t.MayTransfer(size)
    ensures forall got: Text, put: Text | put <= got && |put| <= size ::
      AfterTransfer(t.H(), got, put) == Filling(remote, raw, size, got, tried, put)
      && t.inv(AfterTransfer(t.H(), got, put))
  {
    hide MayFetch, Acceptable, Target, RequestLead, InOrder, Lead, LastCandidate, Exhausted, TempName;
    forall got: Text, put: Text | put <= got && |put| <= size
      ensures AfterTransfer(t.H(), got, put) == Filling(remote, raw, size, got, tried, put)
      ensures t.inv(AfterTransfer(t.H(), got, put))
    {
      assert Lead(raw, size) + [] + got == Lead(raw, size) + got && [] + put == put;
      assert Fetching(target, pid, size, got, Filling(remote, raw, size, got, tried, put)) by {
        StillFetching(target, pid, size, got, tried, put, Filling(remote, raw, size, got, tried, put));
      }
      MayBe(t, target, pid, remote, output, raw, size, got, AfterTransfer(t.H(), got, put));
    }
  }

  /** `client_recv_file_body` and `fs_close`. */
  method ReceiveBody(
    t: Thread, size: nat, ghost target: Text, ghost pid: nat, ghost tried: seq<Attempt>,
    ghost remote: Text, ghost output: Option<Text>, ghost raw: Text)
    returns (ok: bool, ghost got: Text, ghost put: Text)
    requires t.Valid() && Taken(t, target, pid, remote, output, raw, size) && t.pipe == None
    requires InOrder(target, pid, tried) && Succeeds(tried)
    requires t.H() == Filling(remote, raw, size, [], tried, [])
    modifies t`script, t`faulted, t`trace, t`pipe
    ensures t.Valid() && t.pipe == None
    ensures t.H() == Filling(remote, raw, size, got, tried, put)
    ensures put <= got && |put| <= size
    ensures ok ==> put == got && |got| == size
    ensures (old(t.faulted) ==> t.faulted) && (!ok ==> t.faulted)
  {
    hide Always, Replay, Step, Enabled, MayFetch, RequestLead, Lead, Acceptable, InOrder, Filling;
    MayMove(t, target, pid, remote, output, raw, size, tried);
    var received;
    received, got, put := RecvFileBestEffort(t, size);
    if !received.RecvOk? {
      return false, got, put;
    }
    assert put == got;
    ok := t.Try();
  }

  lemma {:induction false} MayHearFinal(
    t: Thread, target: Text, pid: nat, remote: Text, output: Option<Text>, raw: Text, size: nat,
    tried: seq<Attempt>, body: Text)
    requires Taken(t, target, pid, remote, output, raw, size) && InOrder(target, pid, tried) && Succeeds(tried)
    requires |body| == size && t.H() == Filling(remote, raw, size, body, tried, body)
    ensures t.MayReceive(FRAME_SIZE)
    ensures forall bs: Text :: AfterReceiving(t.H(), bs) == Filling(remote, raw, size, body + bs, tried, body)
  {
    hide MayFetch, Acceptable, Target, RequestLead, InOrder;
    forall bs: Text
      ensures AfterReceiving(t.H(), bs) == Filling(remote, raw, size, body + bs, tried, body)
      ensures t.inv(AfterReceiving(t.H(), bs))
    {
      assert Lead(raw, size) + body + bs == Lead(raw, size) + (body + bs);
      MayBe(t, target, pid, remote, output, raw, size, body + bs, AfterReceiving(t.H(), bs));
    }
  }

  /** The final response and the rename. */
  method Commit(
    t: Thread, target: Text, ghost pid: nat, ghost size: nat, ghost tried: seq<Attempt>,
    ghost remote: Text, ghost output: Option<Text>, ghost raw: Text, ghost body: Text)
    returns (ok: bool, ghost frame: Text)
    requires t.Valid() && Taken(t, target, pid, remote, output, raw, size)
    requires InOrder(target, pid, tried) && Succeeds(tried)
    requires |body| == size && t.H() == Filling(remote, raw, size, body, tried, body)
    modifies t`script, t`faulted, t`trace
    ensures t.Valid() && (ok ==> frame == FinalOk())
    ensures (old(t.faulted) ==> t.faulted) && (!ok && !t.faulted ==> |frame| == FRAME_SIZE && frame != FinalOk())
    ensures t.H() ==
      if ok then Fetched(remote, raw, size, body + frame).(tried := tried, published := [File(target, body)])
      else Filling(remote, raw, size, body + frame, tried, body)
  {
    hide Always, Replay, Step, Enabled, MayFetch, RequestLead, Lead, Acceptable, InOrder, FrameBytes, Filling, Fetched;
    MayHearFinal(t, target, pid, remote, output, raw, size, tried, body);
    ok, frame := RecvCheckedResponse(t, FINAL);
    if !ok {
      return;
    }
    MayPublish(t, target, pid, remote, output, raw, size, tried, body);
    ok := t.Rename(target);
  }

  lemma {:induction false} MayPublish(
    t: Thread, target: Text, pid: nat, remote: Text, output: Option<Text>, raw: Text, size: nat,
    tried: seq<Attempt>, body: Text)
    requires Taken(t, target, pid, remote, output, raw, size) && InOrder(target, pid, tried) && Succeeds(tried)
    requires |body| == size
    ensures var h := Filling(remote, raw, size, body + FinalOk(), tried, body);
      && h.temp.Some? && t.inv(Step(h, Renamed(target)))
      && Step(h, Renamed(target)) ==
           Fetched(remote, raw, size, body + FinalOk()).(tried := tried, published := [File(target, body)])
  {
    hide MayFetch, Acceptable, Target, RequestLead, Lead, InOrder, FrameBytes;
    var rest := body + FinalOk();
    assert rest[..size] == body && rest[size..] == FinalOk() && [] + [File(target, body)] == [File(target, body)];
    MayBe(
      t, target, pid, remote, output, raw, size, rest,
      Fetched(remote, raw, size, rest).(tried := tried, published := [File(target, body)]));
  }

  /** The clean-up: the last candidate is unlinked, be it the client's own file or not. */
  lemma {:induction false} MayRemove(
    t: Thread, target: Text, pid: nat, remote: Text, output: Option<Text>, raw: Text, size: nat, rest: Text)
    requires Taken(t, target, pid, remote, output, raw, size)
    requires t.H() == Fetched(remote, raw, size, rest).(tried := t.H().tried, temp := t.H().temp)
    requires Fetching(target, pid, size, rest, t.H())
    requires t.H().temp.Some? <==> Succeeds(t.H().tried)
    requires Succeeds(t.H().tried) || Exhausted(target, pid, t.H().tried)
    ensures var path, h := LastCandidate(target, pid, t.H().tried), t.H();
      && t.inv(Step(h, Unlinked(path))) && t.inv(Step(h, Stuck(path)))
      && Step(h, Stuck(path)) == h.(stuck := [path])
      && Step(h, Unlinked(path)) == (if Succeeds(h.tried) then h.(temp := None) else h.(strays := [path]))
  {
    hide MayFetch, Acceptable, Target, RequestLead, Lead, InOrder;
    var path := LastCandidate(target, pid, t.H().tried);
    MayBe(t, target, pid, remote, output, raw, size, rest, Step(t.H(), Stuck(path)));
    MayBe(t, target, pid, remote, output, raw, size, rest, Step(t.H(), Unlinked(path)));
  }

  /** What exit code 0 of a download reports. */
  ghost predicate FetchReported(remote: Text, output: Option<Text>, h: History) {
    exists raw: Text, body: Text ::
      NameFits(raw) && |body| <= MAX_FILE_SIZE
      && h.recvd == Lead(raw, |body|) + body + FinalOk() && h.published == [File(Target(output, raw), body)]
  }

  /** One file was published: where the user says, or else under the C string of the name that came after READY OK. */
  ghost predicate PublishedAsAsked(output: Option<Text>, h: History) {
    && |h.published| == 1
    && match output
       case Some(path) => h.published[0].path == path
       case None =>
         exists raw: Text, rest: Text ::
           && NameFits(raw) && h.recvd == ReadyOk() + EncodeName(raw) + rest
           && h.published[0].path == CString(raw)
  }

  lemma {:induction false} ReportedAsAsked(remote: Text, output: Option<Text>, h: History)
    requires FetchReported(remote, output, h)
    ensures PublishedAsAsked(output, h)
  {
    hide CString, EncodeName, FrameBytes, BigEndian;
    var raw: Text, body: Text :|
      && NameFits(raw) && |body| <= MAX_FILE_SIZE
      && h.recvd == Lead(raw, |body|) + body + FinalOk() && h.published == [File(Target(output, raw), body)];
    if output.None? {
      var rest := BigEndian(|body|, 8) + body + FinalOk();
      assert h.recvd == ReadyOk() + EncodeName(raw) + rest;
    }
  }

  /** How the last candidate fared in the clean-up. */
  ghost predicate CleanedUp(target: Text, pid: nat, o: Outcome, h: History) {
    var path := LastCandidate(target, pid, h.tried);
    if o.Done? then h.stuck == [] && h.strays == [path] else h.stuck == [path] && h.strays == []
  }

  /** The clean-up, when the buffer is not empty. */
  method CleanUp(
    t: Thread, tmpPath: Text, ghost target: Text, ghost pid: nat, ghost size: nat,
    ghost remote: Text, ghost output: Option<Text>, ghost raw: Text, ghost rest: Text)
    requires t.Valid() && Taken(t, target, pid, remote, output, raw, size)
    requires t.H() == Fetched(remote, raw, size, rest).(tried := t.H().tried, temp := t.H().temp)
    requires Fetching(target, pid, size, rest, t.H())
    requires t.H().temp.Some? <==> Succeeds(t.H().tried)
    requires Succeeds(t.H().tried) || Exhausted(target, pid, t.H().tried)
    requires tmpPath == LastCandidate(target, pid, t.H().tried)
    modifies t`script, t`faulted, t`trace
    ensures t.Valid() && t.H().tried == old(t.H()).tried && t.H().published == [] && NothingLeft(t.H())
    ensures t.H().sent == old(t.H()).sent && t.H().recvd == old(t.H()).recvd
    ensures (old(t.faulted) ==> t.faulted) && (!t.faulted ==> t.H().temp.None?)
    ensures if Succeeds(t.H().tried) then t.H().strays == []
      else CleanedUp(target, pid, Head(old(t.script)), t.H())
  {
    hide Always, Replay, Step, Enabled, MayFetch, RequestLead, Lead, Acceptable, InOrder, Exhausted, Target;
    MayRemove(t, target, pid, remote, output, raw, size, rest);
    t.Remove(tmpPath);
  }

  /** The body and what follows it, into the file the last attempt made. */
  method ReceiveAndCommit(
    t: Thread, target: Text, size: nat, ghost pid: nat, ghost tried: seq<Attempt>,
    ghost remote: Text, ghost output: Option<Text>, ghost raw: Text)
    returns (ok: bool, ghost rest: Text)
    requires t.Valid() && Taken(t, target, pid, remote, output, raw, size) && t.pipe == None
    requires InOrder(target, pid, tried) && Succeeds(tried)
    requires t.H() == Filling(remote, raw, size, [], tried, [])
    modifies t`script, t`faulted, t`trace, t`pipe
    ensures t.Valid() && t.pipe == None
    ensures old(t.faulted) ==> t.faulted
    ensures ok ==> |rest| == size + FRAME_SIZE && rest[size..] == FinalOk()
    ensures ok ==> t.H() == Fetched(remote, raw, size, rest).(tried := tried, published := [File(target, rest[..size])])
    ensures !ok ==> t.H().temp.Some? && t.H().temp.value.content <= rest && |t.H().temp.value.content| <= size
    ensures !ok ==> t.H() == Filling(remote, raw, size, rest, tried, t.H().temp.value.content)
    ensures !ok && !t.faulted ==> |rest| == size + FRAME_SIZE && rest[size..] != FinalOk()
  {
    hide Always, Replay, Step, Enabled, MayFetch, RequestLead, Lead, Acceptable, InOrder, FrameBytes;
    ghost var body, put, frame;
    ok, body, put := ReceiveBody(t, size, target, pid, tried, remote, output, raw);
    rest := body;
    if ok {
      ok, frame := Commit(t, target, pid, size, tried, remote, output, raw, body);
      rest := body + frame;
      assert rest[..size] == body && rest[size..] == frame;
    }
  }

  /**
   * From the accepted offer to the end. When no attempt made a file, the last
   * candidate is unlinked, whoever made it; otherwise nothing but the client's
   * own temporary file is.
   */
  method FetchOffered(
    t: Thread, target: Text, pid: nat, size: nat, ghost remote: Text, ghost output: Option<Text>, ghost raw: Text)
    returns (exitCode: nat, ghost rest: Text)
    requires t.Valid() && Taken(t, target, pid, remote, output, raw, size) && t.pipe == None
    requires t.H() == Fetched(remote, raw, size, [])
    modifies t`script, t`faulted, t`trace, t`pipe
    ensures t.Valid() && t.pipe == None
    ensures exitCode == 0 <==> t.H().published != []
    ensures exitCode == 0 ==> FetchReported(remote, output, t.H())
    ensures t.H().tried == Attempts(target, pid, old(t.script), 0)
    ensures if Succeeds(t.H().tried) then t.H().strays == []
      else exitCode != 0 && CleanedUp(target, pid, Head(After(old(t.script), |t.H().tried|)), t.H())
    ensures (old(t.faulted) ==> t.faulted) && NothingLeft(t.H())
    ensures t.H().sent == RequestLead(remote) && t.H().recvd == Lead(raw, size) + rest
    ensures exitCode != 0 && !t.faulted ==> t.H().temp.None? && OfferDeclined(output, pid, raw, size, rest)
  {
    hide Always, Replay, Step, Enabled, MayFetch, RequestLead, Lead, InOrder, FrameBytes, Attempts, Target;
    hide BuildTempPath, CleanedUp, LastCandidate, MayTry, ValidFileName, CString;
    rest := [];
    MayTryAll(t, target, pid, remote, output, raw, size);
    AttemptsAre(target, pid, t.script);
    var ok, tmpPath;
    ghost var tried;
    ok, tmpPath, tried := OpenTempDownload(t, target, pid);
    assert [] + tried == tried;
    if ok {
      assert t.H() == Filling(remote, raw, size, [], tried, []) by {
        FilledIs(remote, raw, size, tried);
      }
      ok, rest := ReceiveAndCommit(t, target, size, pid, tried, remote, output, raw);
      if ok {
        tmpPath := [];
        FetchedIsReported(remote, output, raw, size, rest, tried);
      }
    }
    exitCode := if ok then 0 else 1;
    if tmpPath != [] {
      CandidateIsOwn(target, pid, tried);
      CleanUp(t, tmpPath, target, pid, size, remote, output, raw, rest);
    }
  }

  lemma {:induction false} CandidateIsOwn(target: Text, pid: nat, tried: seq<Attempt>)
    ensures Succeeds(tried) ==> LastCandidate(target, pid, tried) == tried[|tried| - 1].path
  {
  }

  lemma {:induction false} FilledIs(remote: Text, raw: Text, size: nat, tried: seq<Attempt>)
    requires NameFits(remote) && NameFits(raw) && size <= SIZE_MAX && Succeeds(tried)
    ensures AfterAttempts(Fetched(remote, raw, size, []), tried) == Filling(remote, raw, size, [], tried, [])
  {
    assert [] + tried == tried;
  }

  lemma {:induction false} FetchedIsReported(
    remote: Text, output: Option<Text>, raw: Text, size: nat, rest: Text, tried: seq<Attempt>)
    requires NameFits(remote) && NameFits(raw) && size <= MAX_FILE_SIZE
    requires |rest| == size + FRAME_SIZE && rest[size..] == FinalOk()
    ensures FetchReported(remote, output,
      Fetched(remote, raw, size, rest).(tried := tried, published := [File(Target(output, raw), rest[..size])]))
  {
    hide FrameBytes, Lead, Target;
    var body := rest[..size];
    assert Lead(raw, size) + rest == Lead(raw, size) + body + FinalOk() by {
      assert rest == body + FinalOk();
    }
  }

  /** The request and READY OK. */
  method Ask(t: Thread, remote: Text, ghost output: Option<Text>, ghost pid: nat) returns (ok: bool)
    requires t.Valid() && t.H() == START && NameFits(remote) && ValidFileName(remote)
    requires MayFetch(t, remote, output, pid)
    modifies t`script, t`faulted, t`trace
    ensures t.Valid() && NoEffect(t.H()) && t.H().stuck == [] && Offered(t.H().recvd).None?
    ensures ok ==> t.H() == Asked(remote, ReadyOk())
    ensures (old(t.faulted) ==> t.faulted) && (!ok && !t.faulted ==> FetchGivenUp(remote, output, pid, t.H()))
  {
    hide Always, Replay, Step, Enabled, MayFetch, EncodeHeader, EncodeName, FrameBytes, ValidFileName, OfferDeclined;
    ghost var k, got;
    MayAsk(t, remote, output, pid);
    ok, k := SendHeaderPayload(t, GET_FILE, NameOnlySize(|remote|), EncodeName(remote));
    NotOffered(t.H().recvd);
    if !ok {
      return;
    }
    assert [] + RequestLead(remote)[..k] == RequestLead(remote);
    assert t.H() == Asked(remote, []);
    MayHear(t, remote, output, pid);
    ok, got := RecvCheckedResponse(t, READY);
    assert [] + got == got;
    NotOffered(t.H().recvd);
  }

  lemma {:induction false} NotOffered(recvd: Text)
    ensures |recvd| <= FRAME_SIZE ==> Offered(recvd).None?
  {
    if |recvd| <= FRAME_SIZE && ReadyOk() <= recvd {
      assert recvd[FRAME_SIZE..] == [];
    }
  }

  /** The offer, and what the client makes of it. */
  method TakeOffer(t: Thread, remote: Text, output: Option<Text>, pid: nat) returns (exitCode: nat)
    requires t.Valid() && NameFits(remote) && ValidFileName(remote)
    requires t.H() == Asked(remote, ReadyOk()) && t.pipe == None
    requires MayFetch(t, remote, output, pid)
    modifies t`script, t`faulted, t`trace, t`pipe
    ensures t.Valid() && t.pipe == None && (old(t.faulted) ==> t.faulted) && NothingLeft(t.H())
    ensures exitCode == 0 <==> t.H().published != []
    ensures exitCode == 0 ==> FetchReported(remote, output, t.H())
    ensures exitCode != 0 && !t.faulted ==> FetchGivenUp(remote, output, pid, t.H())
    ensures StraysExactly(output, pid, t.H())
    ensures match Offered(t.H().recvd)
      case None => NoEffect(t.H())
      case Some((raw, size, _)) => !Acceptable(output, raw, size) ==> NoEffect(t.H())
  {
    hide Always, Replay, Step, Enabled, MayFetch, FrameBytes, CString, ValidFileName, EncodePrefix, RequestLead;
    hide OfferDeclined, Offered, LastCandidate, BuildTempPath, Attempts;
    MayHear(t, remote, output, pid);
    var r, raw, size;
    ghost var got;
    r, raw, size, got := RecvPrefix(t);
    if !r.ProtocolOk? {
      NoOffer(got);
      return 1;
    }
    Declining(output, pid, raw, size);
    assert Lead(raw, size) + [] == Lead(raw, size);
    OfferedIs(raw, size, []);
    if size > MAX_FILE_SIZE {
      return 1;
    }
    if output.None? && !ValidFileName(CString(raw)) {
      return 1;
    }
    ghost var rest;
    exitCode, rest := FetchOffered(t, Target(output, raw), pid, size, remote, output, raw);
    OfferedIs(raw, size, rest);
  }

  lemma {:induction false} NoOffer(got: Text)
    requires PrefixIn(got).None?
    ensures Offered(ReadyOk() + got).None? && (ReadyOk() + got)[FRAME_SIZE..] == got
  {
    hide FrameBytes, PrefixIn;
    assert (ReadyOk() + got)[FRAME_SIZE..] == got;
  }

  lemma {:induction false} Declining(output: Option<Text>, pid: nat, raw: Text, size: nat)
    ensures !Acceptable(output, raw, size) ==> OfferDeclined(output, pid, raw, size, [])
  {
  }

  /**
   * `client_get_file`: exit code 0 exactly when the file has been put in its
   * place; without faults it is given up only for a cause; and `StraysExactly`
   * says when a file that is not the client's own is unlinked, and which.
   */
  method GetFile(t: Thread, remote: Text, output: Option<Text>, pid: nat) returns (exitCode: nat)
    requires t.Valid() && t.H() == START && t.pipe == None
    requires t.inv == (h => FetchClient(remote, output, pid, h))
    modifies t`script, t`faulted, t`trace, t`pipe
    ensures Always(t.trace, h => FetchClient(remote, output, pid, h)) && t.pipe == None
    ensures NothingLeft(t.H())
    ensures exitCode == 0 <==> t.H().published != []
    ensures exitCode == 0 ==> FetchReported(remote, output, t.H())
    ensures exitCode == 0 ==> PublishedAsAsked(output, t.H())
    ensures exitCode != 0 && !t.faulted ==> FetchGivenUp(remote, output, pid, t.H())
    ensures StraysExactly(output, pid, t.H())
  {
    hide Always, Replay, Step, Enabled, FetchClient, ValidFileName, FetchReported, Offered, LastCandidate, Acceptable;
    NotOffered([]);
    if !ValidFileName(remote) || !NameFits(remote) {
      return 1;
    }
    var ok := t.Try();
    if !ok {
      return 1;
    }
    ok := Ask(t, remote, output, pid);
    if !ok {
      return 1;
    }
    exitCode := TakeOffer(t, remote, output, pid);
    if exitCode == 0 {
      ReportedAsAsked(remote, output, t.H());
    }
  }

  // ---------------------------------------------------------------- the file of someone else

  /** Three names that are taken, and then an unlink that succeeds. */
  const COLLISIONS: seq<Outcome> := [Fails(EEXIST), Fails(EEXIST), Fails(EEXIST), Done(0, [])]

  lemma {:induction false} ThreeCollisions(target: Text, pid: nat, script: seq<Outcome>)
    requires COLLISIONS <= script && BuildTempPath(PATH_CAP, target, pid, 0).Some?
    ensures Attempts(target, pid, script, 0) ==
      [Missed(TempName(target, pid, 0), EEXIST), Missed(TempName(target, pid, 1), EEXIST),
       Missed(TempName(target, pid, 2), EEXIST)]
    ensures Head(After(script, 3)) == Done(0, [])
  {
    hide TempName;
    RoomForAll(target, pid, 1);
    RoomForAll(target, pid, 2);
    assert script[1..][1..] == script[2..] && script[2..][1..] == script[3..];
    assert Attempts(target, pid, script[3..], 3) == [];
    assert After(script, 1) == script[1..];
    assert After(script, 2) == After(script[1..], 1) == script[2..];
    assert After(script, 3) == After(script[2..], 1) == script[3..];
  }

  /** The run in which the client unlinks a file that it found and did not make. */
  method UnlinkTheFileOfAnother(
    t: Thread, target: Text, pid: nat, size: nat, ghost remote: Text, ghost output: Option<Text>, ghost raw: Text)
    requires t.Valid() && Taken(t, target, pid, remote, output, raw, size) && t.pipe == None
    requires t.H() == Fetched(remote, raw, size, [])
    requires COLLISIONS <= t.script && BuildTempPath(PATH_CAP, target, pid, 0).Some?
    modifies t`script, t`faulted, t`trace, t`pipe
    ensures t.Valid() && t.H().strays == [TempName(target, pid, 2)]
    ensures forall a <- t.H().tried :: a.Missed? && a.errno == EEXIST
  {
    hide Always, Replay, Step, Enabled, MayFetch, RequestLead, Lead, FrameBytes, TempName, BuildTempPath, Attempts;
    ThreeCollisions(target, pid, t.script);
    var _, _ := FetchOffered(t, target, pid, size, remote, output, raw);
  }

  /** The same as a whole run of the client, from its start. */
  lemma {:induction false} WholeRunToAStray(
    remote: Text, output: Option<Text>, pid: nat, raw: Text, size: nat, target: Text) returns (trace: seq<Event>)
    requires NameFits(remote) && NameFits(raw) && size <= MAX_FILE_SIZE && Acceptable(output, raw, size)
    requires target == Target(output, raw) && BuildTempPath(PATH_CAP, target, pid, 0).Some?
    ensures Always(trace, h => FetchClient(remote, output, pid, h))
    ensures StraysExactly(output, pid, Replay(trace)) && !(exists e <- trace :: e.Created?)
    ensures Replay(trace).strays == [TempName(target, pid, 2)]
  {
    hide Always, Replay, Step, Enabled, FetchClient, RequestLead, Lead, TempName, Acceptable, Target, BuildTempPath;
    hide Fetching, Offered;
    var inv: History -> bool := h => FetchClient(remote, output, pid, h);
    var paths := [TempName(target, pid, 0), TempName(target, pid, 1), TempName(target, pid, 2)];
    var tried := [Missed(paths[0], EEXIST), Missed(paths[1], EEXIST), Missed(paths[2], EEXIST)];
    var h2 := Fetched(remote, raw, size, []);
    StrayStates(remote, output, pid, raw, size, target, tried);
    StraySteps(remote, raw, size, tried, paths[2]);
    trace := [];
    NothingDone(inv);
    Session.AlwaysSnoc(trace, Sent(RequestLead(remote)), inv);
    trace := trace + [Sent(RequestLead(remote))];
    Session.AlwaysSnoc(trace, Event.Received(Lead(raw, size) + []), inv);
    trace := trace + [Event.Received(Lead(raw, size) + [])];
    Session.AlwaysSnoc(trace, NotCreated(paths[0], EEXIST), inv);
    trace := trace + [NotCreated(paths[0], EEXIST)];
    Session.AlwaysSnoc(trace, NotCreated(paths[1], EEXIST), inv);
    trace := trace + [NotCreated(paths[1], EEXIST)];
    Session.AlwaysSnoc(trace, NotCreated(paths[2], EEXIST), inv);
    trace := trace + [NotCreated(paths[2], EEXIST)];
    Session.AlwaysSnoc(trace, Unlinked(paths[2]), inv);
    trace := trace + [Unlinked(paths[2])];
    OfferedIs(raw, size, []);
  }

  lemma {:induction false} NothingDone(inv: History -> bool)
    requires inv(START)
    ensures Always([], inv) && Replay([]) == START
  {
  }

  /** The steps of that run. */
  lemma {:induction false} StraySteps(remote: Text, raw: Text, size: nat, tried: seq<Attempt>, path: Text)
    requires NameFits(remote) && NameFits(raw) && size <= SIZE_MAX && |tried| == 3 && tried[2] == Missed(path, EEXIST)
    requires forall k | 0 <= k < 3 :: tried[k].Missed?
    ensures var h1, h2 := START.(sent := RequestLead(remote)), Fetched(remote, raw, size, []);
      && Step(START, Sent(RequestLead(remote))) == h1 && Step(h1, Event.Received(Lead(raw, size) + [])) == h2
      && (forall k | 0 <= k < 3 ::
            Step(h2.(tried := tried[..k]), NotCreated(tried[k].path, tried[k].errno)) == h2.(tried := tried[..k + 1]))
      && Step(h2.(tried := tried), Unlinked(path)) == h2.(tried := tried, strays := [path])
      && tried[..0] == [] && tried[..3] == tried && h2.(tried := []) == h2
    ensures forall h, e: Event | e.Sent? || e.Received? || e.NotCreated? || e.Unlinked? :: Enabled(h, e)
  {
    hide RequestLead, Lead;
    assert forall k | 0 <= k < 3 :: tried[..k] + [tried[k]] == tried[..k + 1];
    assert [] + (Lead(raw, size) + []) == Lead(raw, size) + [];
  }

  /** Its states keep the client's guarantee. */
  lemma {:induction false} StrayStates(
    remote: Text, output: Option<Text>, pid: nat, raw: Text, size: nat, target: Text, tried: seq<Attempt>)
    requires NameFits(remote) && NameFits(raw) && size <= MAX_FILE_SIZE && Acceptable(output, raw, size)
    requires target == Target(output, raw) && |tried| == 3
    requires forall k | 0 <= k < 3 :: tried[k] == Missed(TempName(target, pid, k), EEXIST)
    ensures FetchClient(remote, output, pid, START)
    ensures FetchClient(remote, output, pid, START.(sent := RequestLead(remote)))
    ensures forall k | 0 <= k <= 3 ::
      FetchClient(remote, output, pid, Fetched(remote, raw, size, []).(tried := tried[..k]))
    ensures FetchClient(remote, output, pid,
      Fetched(remote, raw, size, []).(tried := tried, strays := [TempName(target, pid, 2)]))
  {
    hide RequestLead, Lead, TempName, Acceptable, Target, Offered;
    NotOffered([]);
    OfferedIs(raw, size, []);
    forall k | 0 <= k <= 3
      ensures FetchClient(remote, output, pid, Fetched(remote, raw, size, []).(tried := tried[..k]))
    {
      assert InOrder(target, pid, tried[..k]);
    }
    assert InOrder(target, pid, tried) && Exhausted(target, pid, tried);
  }
}
