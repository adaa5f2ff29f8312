/**
 * Two server connections whose uploads disturb each other, from the first byte
 * they receive to the last they send; and with it the exact condition under
 * which uploads to a server are atomic.
 */
module ServerConflict {
  import opened Bytes
  import opened Paths
  import opened Os
  import opened Wire
  import opened TransferIo
  import opened ServerContract
  import opened ClientContract
  import opened Publication
  import FaultFree
  import Session

  // ---------------------------------------------------------------- runs of the server

  /** A name that an upload may have, and that the server has room for. */
  predicate Uploadable(base: Text, pid: nat, name: Text) {
    ValidFileName(name) && NUL !in name && NameFits(name) && HasPlace(base, name, pid)
  }

  function TargetFor(base: Text, pid: nat, name: Text): Text
    requires Uploadable(base, pid, name)
  {
    JoinRelativePath(PATH_CAP, base, name).value
  }

  /** Where uploads with these names go. */
  function Targets(base: Text, pid: nat, names: set<Text>): set<Text>
    requires forall n <- names :: Uploadable(base, pid, n)
  {
    set n <- names :: TargetFor(base, pid, n)
  }

  ghost predicate AsksFor(base: Text, targets: set<Text>, recvd: Text) {
    TargetOf(base, recvd).Some? ==> TargetOf(base, recvd).value in targets
  }

  /** Connections that keep their guarantee, and are asked for these targets only. */
  ghost predicate ServerRun(turns: seq<Turn>, base: Text, pid: nat, targets: set<Text>) {
    && (forall who: nat :: Always(Side(turns, who), h => ServerGuarantee(base, pid, h)))
    && (forall k, who: nat | 0 <= k <= |turns| :: AsksFor(base, targets, Replay(Side(turns[..k], who)).recvd))
  }

  /** In every run of the server, from every disk, uploads are atomic. */
  ghost predicate AlwaysAtomic(base: Text, pid: nat, targets: set<Text>) {
    forall d: Disk, turns: seq<Turn> | SoundDisk(d) && ServerRun(turns, base, pid, targets) && Play(d, turns).Some? ::
      SoundDisk(Play(d, turns).value.disk) && Play(d, turns).value.atomic == Settled(Play(d, turns).value)
  }

  // ---------------------------------------------------------------- building a run

  /** A run of two connections that has come to this world and these histories. */
  ghost predicate At(
    d: Disk, turns: seq<Turn>, w: World, h0: History, h1: History, base: Text, pid: nat, targets: set<Text>)
  {
    && SoundDisk(d) && ServerRun(turns, base, pid, targets) && Play(d, turns) == Some(w)
    && HistoryOf(w, 0) == h0 && HistoryOf(w, 1) == h1 && w.threads.Keys <= {0, 1}
  }

  ghost function FdOf(w: World, who: nat): Option<nat> {
    if who in w.fds then Some(w.fds[who]) else None
  }

  /** One event more. */
  lemma {:induction false} Act(
    d: Disk, turns: seq<Turn>, w: World, h0: History, h1: History, base: Text, pid: nat, targets: set<Text>,
    who: nat, e: Event)
    returns (more: seq<Turn>, w': World)
    requires At(d, turns, w, h0, h1, base, pid, targets) && who < 2
    requires var h := if who == 0 then h0 else h1;
      && Enabled(h, e) && ServerGuarantee(base, pid, Step(h, e)) && AsksFor(base, targets, Step(h, e).recvd)
      && AfterCall(w.disk, FdOf(w, who), h, e).Some?
    ensures var h := if who == 0 then h0 else h1;
      && At(d, more, w', if who == 0 then Step(h0, e) else h0, if who == 1 then Step(h1, e) else h1, base, pid, targets)
      && w'.disk == AfterCall(w.disk, FdOf(w, who), h, e).value && w'.atomic == AtomicStep(w.atomic, h, e)
      && w'.fds == (if e.Created? then w.fds[who := w.disk.next] else w.fds)
  {
    hide Step, Enabled, ServerGuarantee, AsksFor, AfterCall, AtomicStep, ServerRun, Next, HistoryOf;
    var t := Turn(who, e);
    more := turns + [t];
    NextIs(w, who, e);
    w' := Next(w, t).value;
    assert more[..|turns|] == turns;
    assert Play(d, more) == Some(w');
    ServerRunGoesOn(d, turns, t, w, w', base, pid, targets);
  }

  lemma {:induction false} NextIs(w: World, who: nat, e: Event)
    requires AfterCall(w.disk, FdOf(w, who), HistoryOf(w, who), e).Some?
    ensures Next(w, Turn(who, e)).Some?
    ensures var h, w' := HistoryOf(w, who), Next(w, Turn(who, e)).value;
      && w'.disk == AfterCall(w.disk, FdOf(w, who), h, e).value && w'.atomic == AtomicStep(w.atomic, h, e)
      && w'.fds == (if e.Created? then w.fds[who := w.disk.next] else w.fds)
      && w'.threads.Keys == w.threads.Keys + {who} && HistoryOf(w', who) == Step(h, e)
      && forall other: nat | other != who :: HistoryOf(w', other) == HistoryOf(w, other)
  {
    hide Step, AfterCall, AtomicStep;
  }

  lemma {:induction false} ServerRunGoesOn(
    d: Disk, turns: seq<Turn>, t: Turn, w: World, w': World, base: Text, pid: nat, targets: set<Text>)
    requires SoundDisk(d) && ServerRun(turns, base, pid, targets) && Play(d, turns) == Some(w)
    requires Play(d, turns + [t]) == Some(w') && HistoryOf(w', t.who) == Step(HistoryOf(w, t.who), t.e)
    requires Enabled(HistoryOf(w, t.who), t.e) && ServerGuarantee(base, pid, HistoryOf(w', t.who))
    requires AsksFor(base, targets, HistoryOf(w', t.who).recvd)
    ensures ServerRun(turns + [t], base, pid, targets)
  {
    hide Replay, Enabled, ServerGuarantee, AsksFor, Always, Step, Play, HistoryOf;
    var all, n := turns + [t], |turns|;
    var inv: History -> bool := h => ServerGuarantee(base, pid, h);
    assert all[..n] == turns && all[..n + 1] == all;
    ThreadsReplay(d, turns, t.who);
    ThreadsReplay(d, all, t.who);
    forall who: nat ensures Always(Side(all, who), h => ServerGuarantee(base, pid, h)) {
      var side := Side(turns, who);
      assert Always(side, h => ServerGuarantee(base, pid, h));
      if who == t.who {
        Session.AlwaysSnoc(side, t.e, inv);
        assert Side(all, who) == side + [t.e];
      } else {
        assert Side(all, who) == side + [] == side;
      }
    }
    forall k, who: nat | 0 <= k <= n + 1 ensures AsksFor(base, targets, Replay(Side(all[..k], who)).recvd) {
      if k <= n {
        assert all[..k] == turns[..k];
      } else if who != t.who {
        assert Side(all, who) == Side(turns, who) + [] == Side(turns, who);
        assert turns[..n] == turns;
      }
    }
  }

  lemma {:induction false} NothingYet(d: Disk, base: Text, pid: nat, targets: set<Text>)
    requires SoundDisk(d)
    ensures At(d, [], Initial(d), START, START, base, pid, targets)
  {
    FaultFree.Silent(base, pid);
    assert forall who: nat :: Side([], who) == [];
    assert Replay([]) == START;
  }

  // ---------------------------------------------------------------- the states of the two connections

  /** An upload of `content` under `name`: what has been received, tried, written and published. */
  datatype Upload = Upload(base: Text, pid: nat, name: Text, content: Text)

  predicate Fine(u: Upload) {
    Uploadable(u.base, u.pid, u.name) && |u.content| <= MAX_FILE_SIZE
  }

  ghost function Lead(u: Upload): Text
    requires Fine(u)
  {
    UploadLead(u.name, |u.content|)
  }

  ghost function Target(u: Upload): Text
    requires Fine(u)
  {
    TargetFor(u.base, u.pid, u.name)
  }

  /** After READY OK: the attempts, the file with what of the body has come, the reply. */
  ghost function Working(
    u: Upload, tried: seq<Attempt>, got: Text, temp: Option<File>, published: seq<File>, reply: Text): History
    requires Fine(u)
  {
    FaultFree.ServerAt(Lead(u) + got, ReadyOk() + reply, tried, temp, published)
  }

  lemma {:induction false} FirstStates(u: Upload, targets: set<Text>)
    requires Fine(u) && Target(u) in targets
    ensures Step(START, Event.Received(Lead(u))) == FaultFree.ServerAt(Lead(u), [], [], None, [])
    ensures Step(FaultFree.ServerAt(Lead(u), [], [], None, []), Sent(ReadyOk())) == Working(u, [], [], None, [], [])
    ensures ServerGuarantee(u.base, u.pid, FaultFree.ServerAt(Lead(u), [], [], None, []))
    ensures AsksFor(u.base, targets, Lead(u))
  {
    hide UploadLead, FrameBytes, Uploading, ServerGuarantee, ValidFileName, JoinRelativePath, TargetOf;
    assert Lead(u) + [] == Lead(u) && [] + Lead(u) == Lead(u);
    assert ReadyOk() + [] == ReadyOk() && [] + ReadyOk() == ReadyOk();
    FaultFree.Unaccepted(u.base, u.name, u.pid, |u.content|, Lead(u));
    FaultFree.ServerMay(
      u.base, u.pid, u.name, |u.content|, [], FaultFree.ServerAt(Lead(u), [], [], None, []));
    AskedFor(u, []);
  }

  /** What the connection is asked for, however much of the body has come. */
  lemma {:induction false} AskedFor(u: Upload, got: Text)
    requires Fine(u)
    ensures TargetOf(u.base, Lead(u) + got) == Some(Target(u))
  {
    hide DecodeHeader, PrefixIn, EncodeHeader, EncodePrefix, ValidFileName, CString, JoinRelativePath;
    var payloadSize, recvd := PrefixSize(|u.name|) + |u.content|, Lead(u) + got;
    var prefix := EncodePrefix(u.name, |u.content|);
    assert recvd == Preamble(SEND_FILE, payloadSize, prefix + got);
    FaultFree.HeaderIsSeen(SEND_FILE, payloadSize, prefix + got);
    assert recvd[HEADER_SIZE..] == prefix + got;
    PrefixReads(u.name, |u.content|, got);
    WholeString(u.name);
  }

  /** Every state after READY OK that the attempts and the body lead to keeps the guarantee. */
  lemma {:induction false} LaterStates(u: Upload, targets: set<Text>, tried: seq<Attempt>, got: Text, put: Text)
    requires Fine(u) && Target(u) in targets && InOrder(Target(u), u.pid, tried)
    requires put <= got <= u.content
    ensures AsksFor(u.base, targets, Lead(u) + got)
    ensures ServerGuarantee(u.base, u.pid, Working(u, tried, got, None, [], []))
    ensures Succeeds(tried) ==>
      ServerGuarantee(u.base, u.pid, Working(u, tried, got, Some(File(tried[|tried| - 1].path, put)), [], []))
    ensures got == u.content ==>
      && ServerGuarantee(u.base, u.pid, Working(u, tried, got, None, [File(Target(u), got)], []))
      && ServerGuarantee(u.base, u.pid, Working(u, tried, got, None, [File(Target(u), got)], FinalOk()))
  {
    hide UploadLead, FrameBytes, Uploading, ServerGuarantee, ValidFileName, JoinRelativePath, InOrder, TargetOf;
    AskedFor(u, got);
    var n, recvd := |u.content|, Lead(u) + got;
    FaultFree.Accepted(u.base, u.name, Target(u), u.pid, u.content, recvd, tried, got, put, []);
    FaultFree.ServerMay(u.base, u.pid, u.name, n, got, Working(u, tried, got, None, [], []));
    if Succeeds(tried) {
      FaultFree.ServerMay(
        u.base, u.pid, u.name, n, got, Working(u, tried, got, Some(File(tried[|tried| - 1].path, put)), [], []));
    }
    if got == u.content {
      FaultFree.Accepted(u.base, u.name, Target(u), u.pid, u.content, recvd, tried, got, put, FinalOk());
      FaultFree.ServerMay(u.base, u.pid, u.name, n, got, Working(u, tried, got, None, [File(Target(u), got)], []));
      FaultFree.ServerMay(
        u.base, u.pid, u.name, n, got, Working(u, tried, got, None, [File(Target(u), got)], FinalOk()));
    }
  }

  /** Where the events lead. */
  lemma {:induction false} WorkingSteps(u: Upload, tried: seq<Attempt>, path: Text)
    requires Fine(u)
    ensures Step(Working(u, tried, [], None, [], []), NotCreated(path, EEXIST))
         == Working(u, tried + [Missed(path, EEXIST)], [], None, [], [])
    ensures Step(Working(u, tried, [], None, [], []), Created(path))
         == Working(u, tried + [Made(path)], [], Some(File(path, [])), [], [])
    ensures Step(Working(u, tried, [], Some(File(path, [])), [], []), Event.Received(u.content))
         == Working(u, tried, u.content, Some(File(path, [])), [], [])
    ensures Step(Working(u, tried, u.content, Some(File(path, [])), [], []), Wrote(u.content))
         == Working(u, tried, u.content, Some(File(path, u.content)), [], [])
    ensures Step(Working(u, tried, u.content, Some(File(path, u.content)), [], []), Renamed(Target(u)))
         == Working(u, tried, u.content, None, [File(Target(u), u.content)], [])
    ensures Step(Working(u, tried, u.content, None, [File(Target(u), u.content)], []), Sent(FinalOk()))
         == Working(u, tried, u.content, None, [File(Target(u), u.content)], FinalOk())
  {
    hide UploadLead, FrameBytes, JoinRelativePath, ValidFileName;
    assert Lead(u) + [] + u.content == Lead(u) + u.content && [] + u.content == u.content;
    assert [] + [File(Target(u), u.content)] == [File(Target(u), u.content)];
    assert ReadyOk() + [] + FinalOk() == ReadyOk() + FinalOk();
  }

  // ---------------------------------------------------------------- the parts of the run

  /** A connection is asked for the upload and accepts it. */
  lemma {:induction false} BecomesReady(
    d: Disk, turns: seq<Turn>, w: World, other: History, u: Upload, targets: set<Text>, who: nat)
    returns (more: seq<Turn>, w': World)
    requires Fine(u) && Target(u) in targets && who < 2
    requires At(d, turns, w, if who == 0 then START else other, if who == 1 then START else other,
      u.base, u.pid, targets)
    ensures var h := Working(u, [], [], None, [], []);
      At(d, more, w', if who == 0 then h else other, if who == 1 then h else other, u.base, u.pid, targets)
    ensures w'.disk == w.disk && w'.atomic == w.atomic && w'.fds == w.fds
  {
    hide At, Step, ServerGuarantee, AsksFor, Working, Lead, Target, Fine, FrameBytes, FaultFree.ServerAt;
    FirstStates(u, targets);
    var h1 := FaultFree.ServerAt(Lead(u), [], [], None, []);
    RecvdIs(u);
    if who == 0 {
      more, w' := Act(d, turns, w, START, other, u.base, u.pid, targets, 0, Event.Received(Lead(u)));
      more, w' := Act(d, more, w', h1, other, u.base, u.pid, targets, 0, Sent(ReadyOk()));
    } else {
      more, w' := Act(d, turns, w, other, START, u.base, u.pid, targets, 1, Event.Received(Lead(u)));
      more, w' := Act(d, more, w', other, h1, u.base, u.pid, targets, 1, Sent(ReadyOk()));
    }
  }

  lemma {:induction false} RecvdIs(u: Upload)
    requires Fine(u)
    ensures FaultFree.ServerAt(Lead(u), [], [], None, []).recvd == Lead(u)
    ensures forall tried, got, temp, published, reply ::
      Working(u, tried, got, temp, published, reply).recvd == Lead(u) + got
    ensures Lead(u) + [] == Lead(u) && Working(u, [], [], None, [], []).recvd == Lead(u)
    ensures ServerGuarantee(u.base, u.pid, Working(u, [], [], None, [], []))
  {
    hide UploadLead, FrameBytes, ServerGuarantee, ValidFileName, InOrder, Uploading, TargetOf;
    assert Lead(u) + [] == Lead(u);
    NoneIsInOrder(Target(u), u.pid);
    LaterStates(u, {Target(u)}, [], [], []);
  }

  lemma {:induction false} NoneIsInOrder(target: Text, pid: nat)
    ensures InOrder(target, pid, [])
  {
  }

  /** n attempts that met a name already taken. */
  function Misses(target: Text, pid: nat, n: nat): (r: seq<Attempt>)
    ensures |r| == n
  {
    if n == 0 then [] else Misses(target, pid, n - 1) + [Missed(TempName(target, pid, n - 1), EEXIST)]
  }

  lemma {:induction false} MissesInOrder(target: Text, pid: nat, n: nat)
    requires n <= ATTEMPTS
    ensures InOrder(target, pid, Misses(target, pid, n)) && !Succeeds(Misses(target, pid, n))
    ensures forall k | 0 <= k < n :: Misses(target, pid, n)[k] == Missed(TempName(target, pid, k), EEXIST)
    ensures n < ATTEMPTS ==>
      var made := Misses(target, pid, n) + [Made(TempName(target, pid, n))];
      InOrder(target, pid, made) && Succeeds(made)
  {
    hide TempName;
    if n > 0 {
      MissesInOrder(target, pid, n - 1);
    }
  }

  /** Connection 0 finds the first n of its temporary names taken. */
  lemma {:induction false} Collides(
    d: Disk, turns: seq<Turn>, w: World, other: History, u: Upload, targets: set<Text>, n: nat)
    returns (more: seq<Turn>, w': World)
    requires Fine(u) && Target(u) in targets && n < ATTEMPTS
    requires At(d, turns, w, Working(u, [], [], None, [], []), other, u.base, u.pid, targets)
    requires forall k | 0 <= k < n :: TempName(Target(u), u.pid, k) in w.disk.names
    ensures At(d, more, w', Working(u, Misses(Target(u), u.pid, n), [], None, [], []), other, u.base, u.pid, targets)
    ensures w'.disk == w.disk && w'.atomic == w.atomic && w'.fds == w.fds
  {
    hide At, Step, ServerGuarantee, AsksFor, Working, Lead, Target, Fine, FrameBytes, TempName, InOrder;
    more, w' := turns, w;
    if n > 0 {
      var tried, path := Misses(Target(u), u.pid, n - 1), TempName(Target(u), u.pid, n - 1);
      more, w' := Collides(d, turns, w, other, u, targets, n - 1);
      RecvdIs(u);
      WorkingSteps(u, tried, path);
      MissesInOrder(Target(u), u.pid, n);
      LaterStates(u, targets, Misses(Target(u), u.pid, n), [], []);
      var h := Working(u, tried, [], None, [], []);
      more, w' := Act(d, more, w', h, other, u.base, u.pid, targets, 0, NotCreated(path, EEXIST));
    }
  }

  /** Connection 0 makes its temporary file. */
  lemma {:induction false} FirstCreates(
    d: Disk, turns: seq<Turn>, w: World, other: History, u: Upload, targets: set<Text>, n: nat, path: Text)
    returns (more: seq<Turn>, w': World)
    requires Fine(u) && Target(u) in targets && n < ATTEMPTS && path == TempName(Target(u), u.pid, n)
    requires At(d, turns, w, Working(u, Misses(Target(u), u.pid, n), [], None, [], []), other, u.base, u.pid, targets)
    requires path !in w.disk.names
    ensures var tried := Misses(Target(u), u.pid, n) + [Made(path)];
      At(d, more, w', Working(u, tried, [], Some(File(path, [])), [], []), other, u.base, u.pid, targets)
    ensures w'.disk == Disk(w.disk.names[path := w.disk.next], w.disk.inodes[w.disk.next := []], w.disk.next + 1)
    ensures w'.atomic == w.atomic && w'.fds == w.fds[0 := w.disk.next]
  {
    hide At, Step, ServerGuarantee, AsksFor, Lead, Target, Fine, FrameBytes, TempName, InOrder;
    var tried := Misses(Target(u), u.pid, n);
    RecvdIs(u);
    WorkingSteps(u, tried, path);
    MissesInOrder(Target(u), u.pid, n);
    LaterStates(u, targets, tried + [Made(path)], [], []);
    var h := Working(u, tried, [], None, [], []);
    more, w' := Act(d, turns, w, h, other, u.base, u.pid, targets, 0, Created(path));
  }

  /** Connection 1 makes its temporary file and receives the body into it; no name of its own is taken. */
  lemma {:induction false} SecondReceives(
    d: Disk, turns: seq<Turn>, w: World, other: History, u: Upload, targets: set<Text>)
    returns (more: seq<Turn>, w': World)
    requires Fine(u) && Target(u) in targets && TempName(Target(u), u.pid, 0) !in w.disk.names
    requires At(d, turns, w, other, Working(u, [], [], None, [], []), u.base, u.pid, targets)
    ensures var path, tried, i := TempName(Target(u), u.pid, 0), FaultFree.FirstTry(Target(u), u.pid), w.disk.next;
      && At(d, more, w', other, Working(u, tried, u.content, Some(File(path, u.content)), [], []),
            u.base, u.pid, targets)
      && w'.disk == Disk(w.disk.names[path := i], w.disk.inodes[i := []][i := u.content], i + 1)
    ensures w'.atomic == w.atomic && w'.fds == w.fds[1 := w.disk.next]
  {
    hide At, Step, ServerGuarantee, AsksFor, Lead, Target, Fine, FrameBytes, TempName, InOrder;
    var path, tried := TempName(Target(u), u.pid, 0), FaultFree.FirstTry(Target(u), u.pid);
    var content := u.content;
    RecvdIs(u);
    WorkingSteps(u, [], path);
    WorkingSteps(u, tried, path);
    assert [] + [Made(path)] == tried && [] + content == content;
    LaterStates(u, targets, tried, [], []);
    LaterStates(u, targets, tried, content, []);
    LaterStates(u, targets, tried, content, content);
    var h0, h1 := Working(u, [], [], None, [], []), Working(u, tried, [], Some(File(path, [])), [], []);
    var h2 := Working(u, tried, content, Some(File(path, [])), [], []);
    more, w' := Act(d, turns, w, other, h0, u.base, u.pid, targets, 1, Created(path));
    more, w' := Act(d, more, w', other, h1, u.base, u.pid, targets, 1, Event.Received(content));
    more, w' := Act(d, more, w', other, h2, u.base, u.pid, targets, 1, Wrote(content));
  }

  /** It renames it into place, and says so. */
  lemma {:induction false} SecondRenames(
    d: Disk, turns: seq<Turn>, w: World, other: History, u: Upload, targets: set<Text>)
    returns (more: seq<Turn>, w': World)
    requires Fine(u) && Target(u) in targets && TempName(Target(u), u.pid, 0) in w.disk.names
    requires var path, tried := TempName(Target(u), u.pid, 0), FaultFree.FirstTry(Target(u), u.pid);
      At(d, turns, w, other, Working(u, tried, u.content, Some(File(path, u.content)), [], []), u.base, u.pid, targets)
    ensures var tried := FaultFree.FirstTry(Target(u), u.pid);
      At(d, more, w', other, Working(u, tried, u.content, None, [File(Target(u), u.content)], FinalOk()),
         u.base, u.pid, targets)
    ensures var path := TempName(Target(u), u.pid, 0);
      w'.disk == w.disk.(names := (w.disk.names - {path})[Target(u) := w.disk.names[path]])
    ensures w'.atomic == w.atomic[Target(u) := u.content] && w'.fds == w.fds
  {
    hide At, Step, ServerGuarantee, AsksFor, Lead, Target, Fine, FrameBytes, TempName, InOrder;
    var path, tried := TempName(Target(u), u.pid, 0), FaultFree.FirstTry(Target(u), u.pid);
    var content := u.content;
    RecvdIs(u);
    WorkingSteps(u, tried, path);
    LaterStates(u, targets, tried, content, content);
    var h3 := Working(u, tried, content, Some(File(path, content)), [], []);
    var h4 := Working(u, tried, content, None, [File(Target(u), content)], []);
    more, w' := Act(d, turns, w, other, h3, u.base, u.pid, targets, 1, Renamed(Target(u)));
    more, w' := Act(d, more, w', other, h4, u.base, u.pid, targets, 1, Sent(FinalOk()));
  }

  /** Connection 0, whose body is empty, renames what is now under the name of its temporary file. */
  lemma {:induction false} FirstRenames(
    d: Disk, turns: seq<Turn>, w: World, other: History, u: Upload, targets: set<Text>, tried: seq<Attempt>, path: Text)
    returns (more: seq<Turn>, w': World)
    requires Fine(u) && u.content == [] && Target(u) in targets
    requires InOrder(Target(u), u.pid, tried) && Succeeds(tried) && tried[|tried| - 1].path == path
    requires At(d, turns, w, Working(u, tried, [], Some(File(path, [])), [], []), other, u.base, u.pid, targets)
    requires path in w.disk.names
    ensures At(d, more, w', Working(u, tried, [], None, [File(Target(u), [])], FinalOk()), other,
      u.base, u.pid, targets)
    ensures w'.disk == w.disk.(names := (w.disk.names - {path})[Target(u) := w.disk.names[path]])
    ensures w'.atomic == w.atomic[Target(u) := []] && w'.fds == w.fds
  {
    hide At, Step, ServerGuarantee, AsksFor, Lead, Target, Fine, FrameBytes, TempName, InOrder;
    RecvdIs(u);
    WorkingSteps(u, tried, path);
    LaterStates(u, targets, tried, [], []);
    var h0 := Working(u, tried, [], Some(File(path, [])), [], []);
    var h1 := Working(u, tried, [], None, [File(Target(u), [])], []);
    more, w' := Act(d, turns, w, h0, other, u.base, u.pid, targets, 0, Renamed(Target(u)));
    more, w' := Act(d, more, w', h1, other, u.base, u.pid, targets, 0, Sent(FinalOk()));
  }

  // ---------------------------------------------------------------- the run

  /** A disk on which the first n temporary names of a target are taken by other files. */
  function Stale(target: Text, pid: nat, n: nat): (d: Disk)
    ensures d.next == n
  {
    if n == 0 then Disk(map[], map[], 0)
    else
      var d := Stale(target, pid, n - 1);
      Disk(d.names[TempName(target, pid, n - 1) := n - 1], d.inodes[n - 1 := []], n)
  }

  lemma {:induction false} StaleIs(target: Text, pid: nat, n: nat)
    ensures SoundDisk(Stale(target, pid, n))
    ensures forall p :: p in Stale(target, pid, n).names <==> exists k | 0 <= k < n :: p == TempName(target, pid, k)
  {
    hide TempName;
    if n > 0 {
      StaleIs(target, pid, n - 1);
    }
  }

  /** The names of the run are different where they have to be. */
  lemma {:induction false} ConflictNames(a: Text, b: Text, pid: nat, n: nat)
    requires n < ATTEMPTS && b == TempName(a, pid, n)
    ensures a != b && b !in Stale(a, pid, n).names && a !in Stale(a, pid, n).names
    ensures TempName(b, pid, 0) !in Stale(a, pid, n).names && TempName(b, pid, 0) != b && TempName(b, pid, 0) != a
  {
    hide TempName;
    StaleIs(a, pid, n);
    Longer(a, pid, n);
    Longer(b, pid, 0);
    forall k | 0 <= k < n
      ensures b != TempName(a, pid, k) && a != TempName(a, pid, k) && TempName(b, pid, 0) != TempName(a, pid, k)
    {
      Longer(a, pid, k);
      SameRoom(a, pid, k, n);
      if b == TempName(a, pid, k) {
        TempNameInjective(a, n, a, k, pid);
      }
    }
  }

  lemma {:induction false} Longer(target: Text, pid: nat, k: nat)
    ensures |TempName(target, pid, k)| > |target|
  {
  }

  /** The first half: both are asked and accept, and the first makes its temporary file, under the second's target. */
  lemma {:induction false} FirstWaits(u0: Upload, u1: Upload, targets: set<Text>, n: nat)
    returns (turns: seq<Turn>, w: World)
    requires Fine(u0) && Fine(u1) && u0.base == u1.base && u0.pid == u1.pid && n < ATTEMPTS
    requires Target(u0) in targets && Target(u1) in targets && Target(u1) == TempName(Target(u0), u0.pid, n)
    ensures var a, b, d := Target(u0), Target(u1), Stale(Target(u0), u0.pid, n);
      && At(d, turns, w, Working(u0, Misses(a, u0.pid, n) + [Made(b)], [], Some(File(b, [])), [], []),
            Working(u1, [], [], None, [], []), u0.base, u0.pid, targets)
      && w.disk == Disk(d.names[b := n], d.inodes[n := []], n + 1)
  {
    hide At, Step, ServerGuarantee, AsksFor, Lead, Target, Fine, FrameBytes, TempName, InOrder, Working;
    var a, b, d := Target(u0), Target(u1), Stale(Target(u0), u0.pid, n);
    ConflictNames(a, b, u0.pid, n);
    StaleIs(a, u0.pid, n);
    NothingYet(d, u0.base, u0.pid, targets);
    turns, w := BecomesReady(d, [], Initial(d), START, u0, targets, 0);
    turns, w := BecomesReady(d, turns, w, Working(u0, [], [], None, [], []), u1, targets, 1);
    turns, w := Collides(d, turns, w, Working(u1, [], [], None, [], []), u0, targets, n);
    turns, w := FirstCreates(d, turns, w, Working(u1, [], [], None, [], []), u0, targets, n, b);
  }

  /** The second half: the second upload goes through, and then the first. */
  lemma {:induction false} BothPublish(u0: Upload, u1: Upload, targets: set<Text>, n: nat)
    returns (turns: seq<Turn>, w: World)
    requires Fine(u0) && Fine(u1) && u0.base == u1.base && u0.pid == u1.pid && n < ATTEMPTS && u0.content == []
    requires Target(u0) in targets && Target(u1) in targets && Target(u1) == TempName(Target(u0), u0.pid, n)
    ensures var a, b, d := Target(u0), Target(u1), Stale(Target(u0), u0.pid, n);
      && At(d, turns, w, Working(u0, Misses(a, u0.pid, n) + [Made(b)], [], None, [File(a, [])], FinalOk()),
            Working(u1, FaultFree.FirstTry(b, u1.pid), u1.content, None, [File(b, u1.content)], FinalOk()),
            u0.base, u0.pid, targets)
      && a in w.disk.names && w.disk.names[a] == n + 1 && n + 1 in w.disk.inodes && w.disk.inodes[n + 1] == u1.content
      && SoundDisk(w.disk) && a in w.atomic && w.atomic[a] == []
  {
    hide At, Step, ServerGuarantee, AsksFor, Lead, Target, Fine, FrameBytes, TempName, InOrder, Working;
    var a, b, d := Target(u0), Target(u1), Stale(Target(u0), u0.pid, n);
    var tried := Misses(a, u0.pid, n) + [Made(b)];
    MissesInOrder(a, u0.pid, n);
    ConflictNames(a, b, u0.pid, n);
    StaleIs(a, u0.pid, n);
    turns, w := FirstWaits(u0, u1, targets, n);
    var h0 := Working(u0, tried, [], Some(File(b, [])), [], []);
    turns, w := SecondReceives(d, turns, w, h0, u1, targets);
    turns, w := SecondRenames(d, turns, w, h0, u1, targets);
    var h1 := Working(u1, FaultFree.FirstTry(b, u1.pid), u1.content, None, [File(b, u1.content)], FinalOk());
    turns, w := FirstRenames(d, turns, w, h1, u0, targets, tried, b);
  }

  /**
   * Two uploads, the second to a temporary name of the first: it is renamed over
   * the temporary file of the first, which then publishes the other's bytes as
   * its own. Both clients are told FINAL OK.
   */
  lemma {:induction false} ConflictPublishesTheWrongBytes(
    base: Text, pid: nat, first: Text, second: Text, targets: set<Text>)
    returns (d: Disk, turns: seq<Turn>)
    requires Uploadable(base, pid, first) && Uploadable(base, pid, second)
    requires TargetFor(base, pid, first) in targets && TargetFor(base, pid, second) in targets
    requires IsTemp(TargetFor(base, pid, first), pid, TargetFor(base, pid, second))
    ensures SoundDisk(d) && ServerRun(turns, base, pid, targets) && Play(d, turns).Some?
    ensures var w, a := Play(d, turns).value, TargetFor(base, pid, first);
      && SoundDisk(w.disk) && w.atomic != Settled(w)
      && HistoryOf(w, 0).sent == HistoryOf(w, 1).sent == ReadyOk() + FinalOk()
      && HistoryOf(w, 0).published == [File(a, [])]
      && a in w.disk.names && Contents(w.disk)[a] == [1]
  {
    hide ServerGuarantee, AsksFor, FrameBytes, TempName, InOrder, ServerRun, Play, Uploadable, TargetFor;
    hide Temps, Settled;
    hide UploadLead;
    var u0, u1 := Upload(base, pid, first, []), Upload(base, pid, second, [1]);
    var n :| 0 <= n < ATTEMPTS && Target(u1) == TempName(Target(u0), pid, n);
    StaleIs(Target(u0), pid, n);
    d := Stale(Target(u0), pid, n);
    var w;
    turns, w := BothPublish(u0, u1, targets, n);
    WrongBytes(d, turns, w, HistoryOf(w, 0), HistoryOf(w, 1), base, pid, targets, Target(u0));
  }

  lemma {:induction false} WrongBytes(
    d: Disk, turns: seq<Turn>, w: World, h0: History, h1: History, base: Text, pid: nat, targets: set<Text>, a: Text)
    requires At(d, turns, w, h0, h1, base, pid, targets) && h0.temp.None? && h1.temp.None?
    requires SoundDisk(w.disk) && a in w.disk.names && w.disk.inodes[w.disk.names[a]] == [1]
    requires a in w.atomic && w.atomic[a] == []
    ensures w.atomic != Settled(w)
  {
    hide ServerRun, Play;
    assert a !in Temps(w);
    assert Settled(w)[a] == [1];
  }

  /**
   * Uploads with these names are atomic in every run of the server if and only
   * if none of their targets is a temporary name of one of them.
   */
  lemma {:induction false} AtomicExactlyWhenSeparate(base: Text, pid: nat, names: set<Text>)
    requires forall n <- names :: Uploadable(base, pid, n)
    ensures AlwaysAtomic(base, pid, Targets(base, pid, names)) <==> Separate(Targets(base, pid, names), pid)
  {
    hide Settled, Obey, IsTemp, ServerRun, Uploadable, TargetFor;
    var targets := Targets(base, pid, names);
    if Separate(targets, pid) {
      forall d: Disk, turns: seq<Turn> | SoundDisk(d) && ServerRun(turns, base, pid, targets) && Play(d, turns).Some?
        ensures SoundDisk(Play(d, turns).value.disk)
        ensures Play(d, turns).value.atomic == Settled(Play(d, turns).value)
      {
        RunsObey(turns, base, pid, targets);
        UploadsAreAtomic(d, turns, targets, pid);
      }
    } else {
      var a, b :| a in targets && b in targets && IsTemp(a, pid, b);
      var first :| first in names && a == TargetFor(base, pid, first);
      var second :| second in names && b == TargetFor(base, pid, second);
      var d, turns := ConflictPublishesTheWrongBytes(base, pid, first, second, targets);
    }
  }

  lemma {:induction false} RunsObey(turns: seq<Turn>, base: Text, pid: nat, targets: set<Text>)
    requires ServerRun(turns, base, pid, targets)
    ensures Obey(turns, targets, pid)
  {
    hide Replay, Side, TargetOf, Obey;
    assert forall k, who: nat | 0 <= k <= |turns| :: AsksFor(base, targets, Replay(Side(turns[..k], who)).recvd);
    ServersObey(turns, base, targets, pid);
  }

  // ---------------------------------------------------------------- such names exist

  lemma {:induction false} DecimalIsNoPath(n: nat)
    ensures SLASH !in Decimal(n) && BACKSLASH !in Decimal(n) && DOT !in Decimal(n) && NUL !in Decimal(n)
  {
  }

  /** The name "a", and the name that the first temporary file for it has. */
  const SHORT_NAME: Text := [0x61]

  function Rival(pid: nat): Text {
    TempName(SHORT_NAME, pid, 0)
  }

  lemma {:induction false} RivalIsAName(pid: nat)
    ensures ValidFileName(Rival(pid)) && NUL !in Rival(pid) && Rival(pid) != [DOT]
    ensures |Rival(pid)| == 8 + |Decimal(pid)|
  {
    hide Decimal;
    DecimalIsNoPath(pid);
    var s, d := Rival(pid), Decimal(pid);
    assert Decimal(0) == [0x30] by {
      DecimalZero();
    }
    assert s == [0x61, 0x2E, 0x74, 0x6D, 0x70, 0x2E] + d + [DOT, 0x30];
    forall k | 0 <= k < |s| - 1 ensures !(s[k] == DOT && s[k + 1] == DOT) {
      if 6 <= k < 6 + |d| {
        assert s[k] == d[k - 6];
      } else if k == 5 {
        assert s[6] == d[0];
      }
    }
  }

  lemma {:induction false} DecimalZero()
    ensures Decimal(0) == [0x30]
  {
  }

  /**
   * The condition is no idle one: to any server whose base path leaves some room
   * both names may be uploaded, and uploads with them are not atomic.
   */
  lemma {:induction false} ConflictingNamesExist(base: Text, pid: nat)
    requires |base| + 2 * |Decimal(pid)| + 20 < PATH_CAP && |Decimal(pid)| + 8 <= MAX_FILE_NAME_LEN
    ensures Uploadable(base, pid, SHORT_NAME) && Uploadable(base, pid, Rival(pid))
    ensures !AlwaysAtomic(base, pid, Targets(base, pid, {SHORT_NAME, Rival(pid)}))
  {
    hide Decimal, AlwaysAtomic, ValidFileName, ValidRelativePath;
    RivalIsAName(pid);
    DecimalZero();
    assert ValidFileName(SHORT_NAME) && SHORT_NAME != [DOT] by {
      ShortNameIsAName();
    }
    FileNameIsRelativePath(SHORT_NAME);
    FileNameIsRelativePath(Rival(pid));
    var names := {SHORT_NAME, Rival(pid)};
    var a, b := TargetFor(base, pid, SHORT_NAME), TargetFor(base, pid, Rival(pid));
    var sep := if base != [] && base[|base| - 1] == SLASH then [] else [SLASH];
    assert a == base + sep + SHORT_NAME && b == base + sep + Rival(pid) == TempName(a, pid, 0);
    assert a in Targets(base, pid, names) && b in Targets(base, pid, names) && IsTemp(a, pid, b);
    AtomicExactlyWhenSeparate(base, pid, names);
  }

  lemma {:induction false} ShortNameIsAName()
    ensures ValidFileName(SHORT_NAME) && SHORT_NAME != [DOT]
  {
  }
}
