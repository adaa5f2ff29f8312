/**
 * Receiving a file into place (src/transfer_io.c): an exclusively created
 * temporary file next to the target, renamed over it once it is complete.
 */
module TransferIo {
  import opened Bytes
  import opened Paths
  import opened Os
  import opened NetIo
  import opened Wire

  const ATTEMPTS: nat := 3

  predicate IsTemp(target: Text, pid: nat, path: Text) {
    exists attempt | 0 <= attempt < ATTEMPTS :: path == TempName(target, pid, attempt)
  }

  /**
   * Attempts to make a temporary file for the target: its temporary names in
   * order, and a next one only after a name that was already taken.
   */
  predicate InOrder(target: Text, pid: nat, tried: seq<Attempt>) {
    && |tried| <= ATTEMPTS
    && (forall k | 0 <= k < |tried| :: tried[k].path == TempName(target, pid, k))
    && (forall k | 0 <= k < |tried| - 1 :: tried[k] == Missed(TempName(target, pid, k), EEXIST))
  }

  /** The last attempt made a file. */
  predicate Succeeds(tried: seq<Attempt>) {
    tried != [] && tried[|tried| - 1].Made?
  }

  /** All there was to try has failed: every name is taken, or the last failure was of another kind. */
  predicate GivesUp(tried: seq<Attempt>) {
    tried != [] && tried[|tried| - 1].Missed? && (|tried| == ATTEMPTS || tried[|tried| - 1].errno != EEXIST)
  }

  /** The attempts of `transfer_prepare_output` and `client_open_temp_download`, from the k-th on. */
  function Attempts(target: Text, pid: nat, script: seq<Outcome>, k: nat): (r: seq<Attempt>)
    requires k <= ATTEMPTS
    ensures |r| <= ATTEMPTS - k
    decreases ATTEMPTS - k
  {
    if k == ATTEMPTS || BuildTempPath(PATH_CAP, target, pid, k).None? then []
    else
      var path := TempName(target, pid, k);
      match Head(script)
      case Done(_, _) => [Made(path)]
      case Fails(e) => [Missed(path, e)] + if e == EEXIST then Attempts(target, pid, Rest(script), k + 1) else []
  }

  /** All temporary names of a target have the same length. */
  lemma {:induction false} SameRoom(target: Text, pid: nat, j: nat, k: nat)
    requires j < 10 && k < 10
    ensures |TempName(target, pid, j)| == |TempName(target, pid, k)|
    ensures BuildTempPath(PATH_CAP, target, pid, j).Some? <==> BuildTempPath(PATH_CAP, target, pid, k).Some?
  {
  }

  /** Where there is room, the attempts go on until one succeeds or all there was to try has failed. */
  lemma {:induction false} AttemptsGoOn(target: Text, pid: nat, script: seq<Outcome>, k: nat)
    requires k < ATTEMPTS && BuildTempPath(PATH_CAP, target, pid, k).Some?
    ensures var r := Attempts(target, pid, script, k);
      && r != [] && (Succeeds(r) || (r[|r| - 1].Missed? && (|r| == ATTEMPTS - k || r[|r| - 1].errno != EEXIST)))
      && (forall i | 0 <= i < |r| :: r[i].path == TempName(target, pid, k + i))
      && (forall i | 0 <= i < |r| - 1 :: r[i] == Missed(TempName(target, pid, k + i), EEXIST))
    decreases ATTEMPTS - k
  {
    hide TempName;
    if Head(script) == Fails(EEXIST) && k + 1 < ATTEMPTS {
      SameRoom(target, pid, k, k + 1);
      AttemptsGoOn(target, pid, Rest(script), k + 1);
    }
  }

  /** All attempts of one call, for a target with room. */
  lemma {:induction false} AttemptsAre(target: Text, pid: nat, script: seq<Outcome>)
    ensures var r := Attempts(target, pid, script, 0);
      && InOrder(target, pid, r)
      && (BuildTempPath(PATH_CAP, target, pid, 0).Some? ==> Succeeds(r) || GivesUp(r))
      && (BuildTempPath(PATH_CAP, target, pid, 0).None? ==> r == [])
  {
    hide TempName;
    if BuildTempPath(PATH_CAP, target, pid, 0).Some? {
      AttemptsGoOn(target, pid, script, 0);
    }
  }

  /**
   * How far the file has come since h0, `got` being what was received for it:
   * the temporary file is the one the last attempt made, holds a prefix of
   * `got`, and is published only as the whole of it.
   */
  ghost predicate FileState(target: Text, pid: nat, size: nat, got: Text, h0: History, h: History) {
    && |got| <= size
    && h0.tried <= h.tried && InOrder(target, pid, h.tried[|h0.tried|..])
    && (h.temp.Some? ==>
          && Succeeds(h.tried[|h0.tried|..]) && h.tried[|h.tried| - 1].path == h.temp.value.path
          && h.temp.value.content <= got && h.published == h0.published)
    && (h.published != h0.published ==> |got| == size && h.published == h0.published + [File(target, got)])
  }

  /** What may be observed, at any moment, of a receive that began in h0. */
  ghost predicate Receiving(base: Text, name: Text, pid: nat, size: nat, h0: History, h: History) {
    && h.sent == h0.sent && h.source == h0.source && h.strays == h0.strays && h.stored == h0.stored
    && h0.recvd <= h.recvd
    && match JoinRelativePath(PATH_CAP, base, name)
       case None => h == h0
       case Some(target) => FileState(target, pid, size, h.recvd[|h0.recvd|..], h0, h)
  }

  /** The temporary file that is there is one of the target's own. */
  lemma {:induction false} OwnTemp(target: Text, pid: nat, size: nat, got: Text, h0: History, h: History)
    requires FileState(target, pid, size, got, h0, h) && h.temp.Some?
    ensures IsTemp(target, pid, h.temp.value.path)
  {
    var k := |h.tried| - 1 - |h0.tried|;
    assert h.tried[|h0.tried|..][k].path == TempName(target, pid, k);
  }

  lemma {:induction false} NotYet(base: Text, name: Text, pid: nat, size: nat, h0: History)
    requires h0.temp.None?
    ensures Receiving(base, name, pid, size, h0, h0)
  {
    assert h0.recvd[|h0.recvd|..] == [] && h0.tried[|h0.tried|..] == [];
  }

  /** h0 after some attempts. */
  ghost function AfterAttempts(h0: History, tried: seq<Attempt>): History {
    h0.(tried := h0.tried + tried,
        temp := if Succeeds(tried) then Some(File(tried[|tried| - 1].path, [])) else h0.temp)
  }

  lemma {:induction false} Trying(
    base: Text, name: Text, pid: nat, size: nat, h0: History, target: Text, tried: seq<Attempt>)
    requires h0.temp.None? && JoinRelativePath(PATH_CAP, base, name) == Some(target) && InOrder(target, pid, tried)
    ensures Receiving(base, name, pid, size, h0, AfterAttempts(h0, tried))
  {
    hide TempName;
    assert h0.recvd[|h0.recvd|..] == [] && (h0.tried + tried)[|h0.tried|..] == tried;
  }

  /** One attempt more, however it turns out. */
  lemma {:induction false} OneMoreAttempt(h0: History, tried: seq<Attempt>, path: Text)
    requires h0.temp.None? && !Succeeds(tried)
    ensures Step(AfterAttempts(h0, tried), Created(path)) == AfterAttempts(h0, tried + [Made(path)])
    ensures forall e: Errno ::
      Step(AfterAttempts(h0, tried), NotCreated(path, e)) == AfterAttempts(h0, tried + [Missed(path, e)])
  {
    assert forall a: Attempt :: h0.tried + tried + [a] == h0.tried + (tried + [a]);
  }

  /** The body comes in, behind a newly made file. */
  lemma {:induction false} Moving(
    base: Text, name: Text, pid: nat, size: nat, h0: History, target: Text, tried: seq<Attempt>)
    requires h0.temp.None? && JoinRelativePath(PATH_CAP, base, name) == Some(target)
    requires InOrder(target, pid, tried) && Succeeds(tried)
    ensures forall got: Text, put: Text | |got| <= size && put <= got ::
      Receiving(base, name, pid, size, h0, AfterTransfer(AfterAttempts(h0, tried), got, put))
  {
    hide TempName;
    assert (h0.tried + tried)[|h0.tried|..] == tried;
    forall got: Text, put: Text | |got| <= size && put <= got
      ensures Receiving(base, name, pid, size, h0, AfterTransfer(AfterAttempts(h0, tried), got, put))
    {
      assert (h0.recvd + got)[|h0.recvd|..] == got && [] + put == put;
    }
  }

  lemma {:induction false} AfterPublishing(
    base: Text, name: Text, pid: nat, size: nat, h0: History, target: Text, tried: seq<Attempt>, got: Text)
    requires h0.temp.None? && JoinRelativePath(PATH_CAP, base, name) == Some(target)
    requires InOrder(target, pid, tried) && Succeeds(tried) && |got| == size
    ensures var h := AfterTransfer(AfterAttempts(h0, tried), got, got);
      && Step(h, Renamed(target)) ==
           h0.(recvd := h0.recvd + got, tried := h0.tried + tried, published := h0.published + [File(target, got)])
      && Receiving(base, name, pid, size, h0, Step(h, Renamed(target)))
      && Step(h, Renamed(target)).published != h0.published
  {
    hide TempName;
    assert |h0.published + [File(target, got)]| == |h0.published| + 1;
    assert (h0.tried + tried)[|h0.tried|..] == tried;
    assert (h0.recvd + got)[|h0.recvd|..] == got && [] + got == got;
  }

  lemma {:induction false} AfterRemoving(base: Text, name: Text, pid: nat, size: nat, h0: History, h: History)
    requires Receiving(base, name, pid, size, h0, h) && h.temp.Some? && h0.temp.None?
    ensures Receiving(base, name, pid, size, h0, Step(h, Unlinked(h.temp.value.path)))
    ensures Receiving(base, name, pid, size, h0, Step(h, Stuck(h.temp.value.path)))
  {
    hide InOrder;
  }

  /** A temporary file is left over only when unlinking it has failed. */
  predicate NothingLeft(h: History) {
    h.temp.Some? ==> h.temp.value.path in h.stuck
  }

  lemma {:induction false} PublishedLeavesNothing(base: Text, name: Text, pid: nat, size: nat, h0: History, h: History)
    requires Receiving(base, name, pid, size, h0, h) && h.published != h0.published
    ensures NothingLeft(h)
  {
  }

  /** The joined path and its first temporary name fit their buffers. */
  predicate HasPlace(base: Text, name: Text, pid: nat) {
    match JoinRelativePath(PATH_CAP, base, name)
    case None => false
    case Some(target) => BuildTempPath(PATH_CAP, target, pid, 0).Some?
  }

  /** The thread may get into every state that attempts for this target lead to. */
  ghost predicate MayTry(t: Thread, target: Text, pid: nat, h0: History) {
    forall tried | InOrder(target, pid, tried) :: t.inv(AfterAttempts(h0, tried))
  }

  /** The attempt loop of `transfer_prepare_output`: the attempts the script allows, in order. */
  method MakeTemp(t: Thread, target: Text, pid: nat)
    returns (r: ProtocolResult, tmpPath: Text, ghost tried: seq<Attempt>)
    requires t.Valid() && t.H().temp.None? && MayTry(t, target, pid, t.H())
    modifies t`script, t`faulted, t`trace
    ensures t.Valid() && t.H() == AfterAttempts(old(t.H()), tried)
    ensures tried == Attempts(target, pid, old(t.script), 0)
    ensures r.ProtocolOk? <==> Succeeds(tried)
    ensures r.ProtocolOk? ==> tmpPath == tried[|tried| - 1].path
    ensures if BuildTempPath(PATH_CAP, target, pid, 0).Some? then r.ProtocolOk? || (GivesUp(tried) && r.Io?)
      else r.InvalidArgument? && tried == []
    ensures t.faulted == (old(t.faulted) || GivesUp(tried))
  {
    hide Always, Replay, Step, Enabled, BuildTempPath, TempName, Attempts, InOrder, MayTry, AfterAttempts;
    hide AllTaken, Succeeds, GivesUp;
    ghost var h0 := t.H();
    tmpPath, tried := [], [];
    NothingTried(h0);
    TakenSoFar(tried);
    AttemptsAre(target, pid, t.script);
    var attempt: nat := 0;
    while attempt < ATTEMPTS
      invariant t.Valid() && attempt == |tried| <= ATTEMPTS && t.H() == AfterAttempts(h0, tried) && t.H().temp.None?
      invariant tried + Attempts(target, pid, t.script, attempt) == Attempts(target, pid, old(t.script), 0)
      invariant AllTaken(tried) && (attempt > 0 ==> BuildTempPath(PATH_CAP, target, pid, 0).Some?)
      invariant t.faulted == (old(t.faulted) || attempt == ATTEMPTS)
    {
      var built := BuildTempPath(PATH_CAP, target, pid, attempt);
      RoomForAll(target, pid, attempt);
      if built.None? {
        NoMoreAttempts(target, pid, t.script, attempt);
        return InvalidArgument, tmpPath, tried;
      }
      tmpPath := built.value;
      TakenSoFar(tried);
      NextAttempt(t, target, pid, h0, tried, tmpPath);
      ghost var before := tried;
      var opened_ := t.CreateExclusive(tmpPath, attempt == ATTEMPTS - 1);
      if opened_.Count? {
        tried := tried + [Made(tmpPath)];
        OneMoreEnds(before, Made(tmpPath));
        return ProtocolOk, tmpPath, tried;
      }
      tried := tried + [Missed(tmpPath, opened_.errno)];
      OneMoreEnds(before, Missed(tmpPath, opened_.errno));
      if opened_.errno != EEXIST {
        return Io, tmpPath, tried;
      }
      attempt := attempt + 1;
    }
    NoMoreAttempts(target, pid, t.script, attempt);
    TakenSoFar(tried);
    r := Io;
  }

  /** Every attempt so far has met a name that was already taken. */
  predicate AllTaken(tried: seq<Attempt>) {
    forall k | 0 <= k < |tried| :: tried[k].Missed? && tried[k].errno == EEXIST
  }

  lemma {:induction false} TakenSoFar(tried: seq<Attempt>)
    ensures tried == [] ==> AllTaken(tried)
    ensures AllTaken(tried) ==> !Succeeds(tried) && (tried != [] && |tried| < ATTEMPTS ==> !GivesUp(tried))
    ensures tried == [] ==> !GivesUp(tried)
    ensures AllTaken(tried) && |tried| == ATTEMPTS ==> GivesUp(tried)
  {
  }

  /** What one attempt more makes of them. */
  lemma {:induction false} OneMoreEnds(tried: seq<Attempt>, a: Attempt)
    requires AllTaken(tried)
    ensures Succeeds(tried + [a]) <==> a.Made?
    ensures GivesUp(tried + [a]) <==> a.Missed? && (|tried| + 1 == ATTEMPTS || a.errno != EEXIST)
    ensures AllTaken(tried + [a]) <==> a.Missed? && a.errno == EEXIST
  {
    assert (tried + [a])[|tried|] == a;
  }

  lemma {:induction false} NothingTried(h0: History)
    requires h0.temp.None?
    ensures AfterAttempts(h0, []) == h0
  {
    assert h0.tried + [] == h0.tried;
  }

  lemma {:induction false} RoomForAll(target: Text, pid: nat, k: nat)
    requires k < ATTEMPTS
    ensures BuildTempPath(PATH_CAP, target, pid, k).Some? <==> BuildTempPath(PATH_CAP, target, pid, 0).Some?
  {
    SameRoom(target, pid, k, 0);
  }

  lemma {:induction false} NoMoreAttempts(target: Text, pid: nat, script: seq<Outcome>, k: nat)
    requires k <= ATTEMPTS && (k == ATTEMPTS || BuildTempPath(PATH_CAP, target, pid, k).None?)
    ensures forall tried: seq<Attempt> :: tried + Attempts(target, pid, script, k) == tried
  {
  }

  /** One attempt more: where it leads, and what it leaves to try. */
  lemma {:induction false} NextAttempt(
    t: Thread, target: Text, pid: nat, h0: History, tried: seq<Attempt>, path: Text)
    requires |tried| < ATTEMPTS && BuildTempPath(PATH_CAP, target, pid, |tried|) == Some(path)
    requires AllTaken(tried) && InOrder(target, pid, tried + Attempts(target, pid, t.script, |tried|))
    requires h0.temp.None? && t.H() == AfterAttempts(h0, tried) && MayTry(t, target, pid, h0) && !Succeeds(tried)
    ensures Step(t.H(), Created(path)) == AfterAttempts(h0, tried + [Made(path)]) && t.inv(Step(t.H(), Created(path)))
    ensures forall e: Errno ::
      && Step(t.H(), NotCreated(path, e)) == AfterAttempts(h0, tried + [Missed(path, e)])
      && t.inv(Step(t.H(), NotCreated(path, e))) && Step(t.H(), NotCreated(path, e)).temp.None?
    ensures match Head(t.script)
      case Done(_, _) => tried + Attempts(target, pid, t.script, |tried|) == tried + [Made(path)]
      case Fails(e) =>
        tried + Attempts(target, pid, t.script, |tried|) == (tried + [Missed(path, e)])
          + (if e == EEXIST then Attempts(target, pid, Rest(t.script), |tried| + 1) else [])
  {
    hide TempName, Step, InOrder, Attempts, AfterAttempts;
    OneMoreAttempt(h0, tried, path);
    UnfoldAttempts(target, pid, t.script, tried, path);
    NextInOrder(target, pid, tried, Attempts(target, pid, t.script, |tried|), path);
    forall e: Errno ensures AfterAttempts(h0, tried + [Missed(path, e)]).temp.None? {
      StillNone(h0, tried + [Missed(path, e)]);
    }
  }

  lemma {:induction false} StillNone(h0: History, tried: seq<Attempt>)
    requires h0.temp.None? && !Succeeds(tried)
    ensures AfterAttempts(h0, tried).temp.None?
  {
  }

  lemma {:induction false} UnfoldAttempts(
    target: Text, pid: nat, script: seq<Outcome>, tried: seq<Attempt>, path: Text)
    requires |tried| < ATTEMPTS && BuildTempPath(PATH_CAP, target, pid, |tried|) == Some(path)
    ensures match Head(script)
      case Done(_, _) => tried + Attempts(target, pid, script, |tried|) == tried + [Made(path)]
      case Fails(e) =>
        tried + Attempts(target, pid, script, |tried|) == (tried + [Missed(path, e)])
          + (if e == EEXIST then Attempts(target, pid, Rest(script), |tried| + 1) else [])
  {
    hide TempName;
  }

  lemma {:induction false} NextInOrder(target: Text, pid: nat, tried: seq<Attempt>, rest: seq<Attempt>, path: Text)
    requires |tried| < ATTEMPTS && BuildTempPath(PATH_CAP, target, pid, |tried|) == Some(path)
    requires AllTaken(tried) && InOrder(target, pid, tried + rest)
    ensures InOrder(target, pid, tried + [Made(path)])
    ensures forall e: Errno :: InOrder(target, pid, tried + [Missed(path, e)])
  {
    hide TempName;
    forall k | 0 <= k < |tried| ensures tried[k].path == TempName(target, pid, k) {
      assert (tried + rest)[k] == tried[k];
    }
  }

  /**
   * `transfer_prepare_output`: where there is room, all names are tried until
   * one can be made; on failure nothing is.
   */
  method PrepareOutput(t: Thread, base: Text, name: Text, pid: nat, ghost size: nat)
    returns (r: ProtocolResult, fullPath: Text, tmpPath: Text, ghost tried: seq<Attempt>)
    requires t.Valid() && t.H().temp.None?
    requires forall h | Receiving(base, name, pid, size, t.H(), h) :: t.inv(h)
    modifies t`script, t`faulted, t`trace
    ensures t.Valid() && t.H() == AfterAttempts(old(t.H()), tried)
    ensures match JoinRelativePath(PATH_CAP, base, name)
      case None => tried == [] && r.InvalidArgument?
      case Some(target) =>
        && tried == Attempts(target, pid, old(t.script), 0) && InOrder(target, pid, tried)
        && (r.ProtocolOk? ==> fullPath == target && |target| < PATH_CAP)
    ensures r.ProtocolOk? <==> Succeeds(tried)
    ensures r.ProtocolOk? ==> tmpPath == tried[|tried| - 1].path
    ensures if HasPlace(base, name, pid) then r.ProtocolOk? || (GivesUp(tried) && r.Io?)
      else r.InvalidArgument? && tried == []
    ensures t.faulted == (old(t.faulted) || GivesUp(tried))
  {
    hide Always, Replay, Step, Enabled, Receiving, JoinRelativePath, BuildTempPath, Attempts, InOrder, AfterAttempts;
    ghost var h0 := t.H();
    fullPath, tmpPath, tried := [], [], [];
    NothingTried(h0);
    var joined := JoinRelativePath(PATH_CAP, base, name);
    if joined.None? {
      return InvalidArgument, fullPath, tmpPath, tried;
    }
    fullPath := joined.value;
    forall attempts | InOrder(fullPath, pid, attempts) ensures t.inv(AfterAttempts(h0, attempts)) {
      Trying(base, name, pid, size, h0, fullPath, attempts);
    }
    AttemptsAre(fullPath, pid, t.script);
    r, tmpPath, tried := MakeTemp(t, fullPath, pid);
  }

  /** `transfer_finalize_output`. */
  method FinalizeOutput(t: Thread, fullPath: Text, fullPathCap: nat) returns (r: ProtocolResult)
    requires t.Valid() && t.H().temp.Some? && t.inv(Step(t.H(), Renamed(fullPath)))
    modifies t`script, t`faulted, t`trace
    ensures t.Valid()
    ensures t.H() == if r.ProtocolOk? then Step(old(t.H()), Renamed(fullPath)) else old(t.H())
    ensures (old(t.faulted) ==> t.faulted) && (|fullPath| < fullPathCap && !r.ProtocolOk? ==> t.faulted)
  {
    hide Always, Replay, Step, Enabled;
    if |fullPath| + 1 > fullPathCap {
      return InvalidArgument;
    }
    var closed := t.Try();
    if !closed {
      return Io;
    }
    var renamed := t.Rename(fullPath);
    r := if renamed then ProtocolOk else Io;
  }

  datatype UploadKind = ProtocolUpload | HttpUpload

  /**
   * `app_receive_file`, that is `transfer_recv_socket_file` or its HTTP twin,
   * which differ in how they move the body: success means that exactly `size`
   * bytes were received and that exactly they were published under the target,
   * in one rename; failure means that nothing was published.
   */
  method ReceiveFile(
    t: Thread, base: Text, name: Text, size: nat, kind: UploadKind, pid: nat, fullPathCap: nat)
    returns (r: ProtocolResult)
    requires t.Valid() && t.H().temp.None? && t.pipe == None
    requires forall h | Receiving(base, name, pid, size, t.H(), h) :: t.inv(h)
    modifies t`script, t`faulted, t`trace, t`pipe
    ensures t.Valid() && t.pipe == None
    ensures Receiving(base, name, pid, size, old(t.H()), t.H())
    ensures r.ProtocolOk? <==> t.H().published != old(t.H()).published
    ensures r.ProtocolOk? ==> HasPlace(base, name, pid)
    ensures NothingLeft(t.H())
    ensures !r.ProtocolOk? && !t.faulted && fullPathCap == PATH_CAP ==> r.InvalidArgument? && t.H() == old(t.H())
    ensures old(t.faulted) ==> t.faulted
    ensures HasPlace(base, name, pid) && fullPathCap == PATH_CAP && !r.ProtocolOk? ==> t.faulted
  {
    hide Always, Replay, Step, Enabled, Receiving, JoinRelativePath, InOrder, HasPlace, GivesUp, Attempts;
    ghost var h0 := t.H();
    var fullPath, tmpPath;
    ghost var tried;
    r, fullPath, tmpPath, tried := PrepareOutput(t, base, name, pid, size);
    if !r.ProtocolOk? {
      NotYet(base, name, pid, size, h0);
      NothingTried(h0);
      if JoinRelativePath(PATH_CAP, base, name).Some? {
        Trying(base, name, pid, size, h0, JoinRelativePath(PATH_CAP, base, name).value, tried);
      }
      return;
    }
    Moving(base, name, pid, size, h0, fullPath, tried);
    var recvRes;
    ghost var got, put;
    if kind.ProtocolUpload? {
      recvRes, got, put := RecvFileBestEffort(t, size);
    } else {
      recvRes, got, put := RecvFileBuffered(t, size);
    }
    r := if recvRes.RecvOk? then ProtocolOk else if recvRes.RecvEof? then Eof else Io;
    if r.ProtocolOk? {
      assert put == got;
      AfterPublishing(base, name, pid, size, h0, fullPath, tried, got);
      r := FinalizeOutput(t, fullPath, fullPathCap);
      if r.ProtocolOk? {
        PublishedLeavesNothing(base, name, pid, size, h0, t.H());
      }
    }
    if !r.ProtocolOk? {
      AfterRemoving(base, name, pid, size, h0, t.H());
      UnlinkedTemp(t.H());
      t.Remove(tmpPath);
    }
  }

  lemma {:induction false} UnlinkedTemp(h: History)
    requires h.temp.Some?
    ensures Step(h, Unlinked(h.temp.value.path)) == h.(temp := None)
    ensures Step(h, Stuck(h.temp.value.path)) == h.(stuck := h.stuck + [h.temp.value.path])
  {
  }
}
