/**
 * Any number of uploads at once, in every interleaving, on one disk: names that
 * refer to inodes, exclusive creation, rename by name, writing by descriptor.
 */
module Publication {
  import opened Bytes
  import opened Paths
  import opened Os
  import opened Wire
  import opened TransferIo
  import opened ServerContract

  /** `next` is an inode number that has not been used. */
  datatype Disk = Disk(names: map<Text, nat>, inodes: map<nat, Text>, next: nat)

  /** The disk, each thread's history and open descriptor, and the disk as it would be if uploads were atomic. */
  datatype World = World(disk: Disk, threads: map<nat, History>, fds: map<nat, nat>, atomic: map<Text, Text>)

  datatype Turn = Turn(who: nat, e: Event)

  ghost predicate SoundDisk(d: Disk) {
    && (forall p <- d.names :: d.names[p] in d.inodes)
    && (forall i <- d.inodes :: i < d.next)
  }

  /** What can be read under each name. */
  function Contents(d: Disk): map<Text, Text>
    requires forall p <- d.names :: d.names[p] in d.inodes
  {
    map p | p in d.names :: d.inodes[d.names[p]]
  }

  function Initial(d: Disk): World
    requires forall p <- d.names :: d.names[p] in d.inodes
  {
    World(d, map[], map[], Contents(d))
  }

  function HistoryOf(w: World, who: nat): History {
    if who in w.threads then w.threads[who] else START
  }

  /** The disk after one system call; None when the call would not have succeeded. */
  function AfterCall(d: Disk, fd: Option<nat>, h: History, e: Event): Option<Disk> {
    match e
    case Created(path) =>
      if path in d.names then None
      else Some(Disk(d.names[path := d.next], d.inodes[d.next := []], d.next + 1))
    case NotCreated(path, errno) =>
      if errno == EEXIST && path !in d.names then None else Some(d)
    case Wrote(bytes) =>
      if fd.None? || fd.value !in d.inodes then None
      else Some(d.(inodes := d.inodes[fd.value := d.inodes[fd.value] + bytes]))
    case Renamed(target) =>
      if h.temp.None? || h.temp.value.path !in d.names then None
      else
        var path := h.temp.value.path;
        Some(d.(names := (d.names - {path})[target := d.names[path]]))
    case Unlinked(path) =>
      if path !in d.names then None else Some(d.(names := d.names - {path}))
    case _ => Some(d)
  }

  /** In the atomic world an upload is one step: nothing happens before the rename, which puts all of it there. */
  function AtomicStep(m: map<Text, Text>, h: History, e: Event): map<Text, Text> {
    if e.Renamed? && h.temp.Some? then m[e.target := h.temp.value.content] else m
  }

  function Next(w: World, t: Turn): Option<World> {
    var h := HistoryOf(w, t.who);
    var fd := if t.who in w.fds then Some(w.fds[t.who]) else None;
    match AfterCall(w.disk, fd, h, t.e)
    case None => None
    case Some(d) =>
      Some(World(
        d,
        w.threads[t.who := Step(h, t.e)],
        if t.e.Created? then w.fds[t.who := w.disk.next] else w.fds,
        AtomicStep(w.atomic, h, t.e)))
  }

  function Play(d: Disk, turns: seq<Turn>): Option<World>
    requires forall p <- d.names :: d.names[p] in d.inodes
  {
    if turns == [] then Some(Initial(d))
    else
      match Play(d, turns[..|turns| - 1])
      case None => None
      case Some(w) => Next(w, turns[|turns| - 1])
  }

  /** The events of one thread. */
  function Side(turns: seq<Turn>, who: nat): seq<Event> {
    if turns == [] then []
    else
      var last := turns[|turns| - 1];
      Side(turns[..|turns| - 1], who) + if last.who == who then [last.e] else []
  }

  lemma {:induction false} ThreadsReplay(d: Disk, turns: seq<Turn>, who: nat)
    requires SoundDisk(d) && Play(d, turns).Some?
    ensures HistoryOf(Play(d, turns).value, who) == Replay(Side(turns, who))
  {
    hide Step, AfterCall;
    if turns != [] {
      var n := |turns| - 1;
      ThreadsReplay(d, turns[..n], who);
      var side := Side(turns[..n], who);
      if turns[n].who == who {
        assert (side + [turns[n].e])[..|side|] == side;
      } else {
        assert side + [] == side;
      }
    }
  }

  // ---------------------------------------------------------------- what threads do

  /** What a thread touches: only temporary names of the targets, and the targets by renaming. */
  ghost predicate Disciplined(targets: set<Text>, pid: nat, h: History) {
    && (h.temp.Some? ==> exists target <- targets :: IsTemp(target, pid, h.temp.value.path))
    && (forall f <- h.published :: f.path in targets)
    && h.strays == []
  }

  /** No target is a temporary name of a target. */
  ghost predicate Separate(targets: set<Text>, pid: nat) {
    forall a <- targets, b <- targets :: !IsTemp(a, pid, b)
  }

  /** Where a connection that has received `recvd` would put its upload. */
  ghost function TargetOf(base: Text, recvd: Text): Option<Text> {
    if |recvd| < HEADER_SIZE || DecodeHeader(recvd[..HEADER_SIZE]).Err?
       || DecodeHeader(recvd[..HEADER_SIZE]).value.msgType != SEND_FILE then None
    else
      match PrefixIn(recvd[HEADER_SIZE..])
      case None => None
      case Some((raw, _, _)) => JoinRelativePath(PATH_CAP, base, CString(raw))
  }

  /** A server connection touches only the temporary names of its own target, and its target. */
  lemma {:induction false} ServersAreDisciplined(base: Text, pid: nat, targets: set<Text>, h: History)
    requires ServerGuarantee(base, pid, h)
    requires TargetOf(base, h.recvd).Some? ==> TargetOf(base, h.recvd).value in targets
    ensures Disciplined(targets, pid, h)
  {
    hide DecodeHeader, PrefixIn, CString, ValidFileName, JoinRelativePath, IsTemp, FrameBytes, InOrder;
    if h.temp.Some? {
      var target := TargetOf(base, h.recvd).value;
      var (raw, size, content) := PrefixIn(h.recvd[HEADER_SIZE..]).value;
      OwnTemp(target, pid, size, content, START, h);
    }
  }

  /** So does anything else that receives a file, an HTTP upload among them. */
  lemma {:induction false} ReceiversAreDisciplined(
    base: Text, name: Text, pid: nat, size: nat, targets: set<Text>, h0: History, h: History)
    requires Receiving(base, name, pid, size, h0, h)
    requires h0.temp.None? && h0.published == [] && h0.strays == []
    requires JoinRelativePath(PATH_CAP, base, name).Some? ==> JoinRelativePath(PATH_CAP, base, name).value in targets
    ensures Disciplined(targets, pid, h)
  {
    hide JoinRelativePath, IsTemp, InOrder;
    if h.temp.Some? {
      OwnTemp(JoinRelativePath(PATH_CAP, base, name).value, pid, size, h.recvd[|h0.recvd|..], h0, h);
    }
  }

  // ---------------------------------------------------------------- the invariant

  /** The names of uploads in flight. */
  function Temps(w: World): set<Text> {
    set who <- w.threads | w.threads[who].temp.Some? :: w.threads[who].temp.value.path
  }

  /** The temporary file of a thread is under its name, in the inode its descriptor refers to, and nowhere else. */
  ghost predicate Owns(w: World, who: nat)
    requires who in w.threads
  {
    w.threads[who].temp.Some? ==>
      var temp := w.threads[who].temp.value;
      && who in w.fds && w.fds[who] in w.disk.inodes
      && temp.path in w.disk.names && w.disk.names[temp.path] == w.fds[who]
      && w.disk.inodes[w.fds[who]] == temp.content
      && (forall p <- w.disk.names :: w.disk.names[p] == w.fds[who] ==> p == temp.path)
  }

  ghost predicate Apart(w: World) {
    forall a <- w.threads, b <- w.threads | a != b && w.threads[a].temp.Some? && w.threads[b].temp.Some? ::
      w.threads[a].temp.value.path != w.threads[b].temp.value.path
  }

  /** What can be read, but for the uploads in flight. */
  function Settled(w: World): map<Text, Text>
    requires forall p <- w.disk.names :: w.disk.names[p] in w.disk.inodes
  {
    map p | p in w.disk.names && p !in Temps(w) :: w.disk.inodes[w.disk.names[p]]
  }

  ghost predicate Invariant(w: World, targets: set<Text>, pid: nat) {
    && SoundDisk(w.disk)
    && (forall who <- w.threads :: Owns(w, who) && Disciplined(targets, pid, w.threads[who]))
    && Apart(w)
    && w.atomic == Settled(w)
  }

  /** The descriptors of two uploads in flight refer to different inodes. */
  lemma {:induction false} OwnInodes(w: World, targets: set<Text>, pid: nat, a: nat, b: nat)
    requires Invariant(w, targets, pid) && a in w.threads && b in w.threads && a != b
    requires w.threads[a].temp.Some? && w.threads[b].temp.Some?
    ensures a in w.fds && b in w.fds && w.fds[a] != w.fds[b]
    ensures w.threads[a].temp.value.path != w.threads[b].temp.value.path
  {
    hide Disciplined, Settled;
    assert Owns(w, a) && Owns(w, b);
  }

  /** No target is in use as a temporary name. */
  lemma {:induction false} TargetsAreNoTemps(w: World, targets: set<Text>, pid: nat, target: Text)
    requires Invariant(w, targets, pid) && Separate(targets, pid) && target in targets
    ensures target !in Temps(w)
  {
    hide Owns, Apart, Settled, IsTemp;
    forall who <- w.threads | w.threads[who].temp.Some? ensures w.threads[who].temp.value.path != target {
      assert Disciplined(targets, pid, w.threads[who]);
    }
  }

  function TempOf(h: History): set<Text> {
    if h.temp.Some? then {h.temp.value.path} else {}
  }

  /** One thread's step changes only its own part of the names in flight. */
  lemma {:induction false} TempsAfter(w: World, w': World, who: nat, h': History)
    requires Apart(w) && w'.threads == w.threads[who := h']
    ensures Temps(w') == Temps(w) - TempOf(HistoryOf(w, who)) + TempOf(h')
  {
    forall p | p in Temps(w') ensures p in Temps(w) - TempOf(HistoryOf(w, who)) + TempOf(h') {
      var b :| b in w'.threads && w'.threads[b].temp.Some? && w'.threads[b].temp.value.path == p;
      assert b != who ==> w.threads[b] == w'.threads[b];
    }
    forall p | p in Temps(w) - TempOf(HistoryOf(w, who)) + TempOf(h') ensures p in Temps(w') {
      if p in TempOf(h') {
        assert w'.threads[who] == h';
      } else {
        var b :| b in w.threads && w.threads[b].temp.Some? && w.threads[b].temp.value.path == p;
        assert w'.threads[b] == w.threads[b];
      }
    }
  }

  lemma {:induction false} CreatedKeeps(w: World, who: nat, path: Text, targets: set<Text>, pid: nat)
    requires Invariant(w, targets, pid) && HistoryOf(w, who).temp.None?
    requires Next(w, Turn(who, Created(path))).Some?
    requires Disciplined(targets, pid, Step(HistoryOf(w, who), Created(path)))
    ensures Invariant(Next(w, Turn(who, Created(path))).value, targets, pid)
  {
    hide Disciplined, Temps;
    var w' := Next(w, Turn(who, Created(path))).value;
    TempsAfter(w, w', who, w'.threads[who]);
    CreatedOwns(w, w', who, path);
    assert w'.atomic == Settled(w');
  }

  lemma {:induction false} CreatedOwns(w: World, w': World, who: nat, path: Text)
    requires SoundDisk(w.disk) && Apart(w) && (forall b <- w.threads :: Owns(w, b))
    requires HistoryOf(w, who).temp.None? && Next(w, Turn(who, Created(path))) == Some(w')
    ensures SoundDisk(w'.disk) && Apart(w') && forall b <- w'.threads :: Owns(w', b)
  {
    forall b <- w'.threads ensures Owns(w', b) {
      if b != who {
        assert Owns(w, b);
      }
    }
    forall b <- w.threads | b != who && w.threads[b].temp.Some?
      ensures w.threads[b].temp.value.path != path
    {
      assert Owns(w, b);
    }
  }

  lemma {:induction false} WroteOwns(w: World, w': World, who: nat, bytes: Text)
    requires SoundDisk(w.disk) && Apart(w) && (forall b <- w.threads :: Owns(w, b))
    requires HistoryOf(w, who).temp.Some? && Next(w, Turn(who, Wrote(bytes))) == Some(w')
    ensures SoundDisk(w'.disk) && Apart(w') && forall b <- w'.threads :: Owns(w', b)
    ensures who in w.threads && forall p <- w.disk.names | p != HistoryOf(w, who).temp.value.path ::
      w'.disk.inodes[w.disk.names[p]] == w.disk.inodes[w.disk.names[p]]
  {
    assert Owns(w, who);
    forall b <- w'.threads ensures Owns(w', b) {
      if b != who {
        assert Owns(w, b);
      }
    }
  }

  lemma {:induction false} WroteKeeps(w: World, who: nat, bytes: Text, targets: set<Text>, pid: nat)
    requires Invariant(w, targets, pid) && HistoryOf(w, who).temp.Some?
    requires Next(w, Turn(who, Wrote(bytes))).Some?
    requires Disciplined(targets, pid, Step(HistoryOf(w, who), Wrote(bytes)))
    ensures Invariant(Next(w, Turn(who, Wrote(bytes))).value, targets, pid)
  {
    hide Disciplined, Temps, Owns, Apart;
    var w' := Next(w, Turn(who, Wrote(bytes))).value;
    var h' := Step(HistoryOf(w, who), Wrote(bytes));
    TempsAfter(w, w', who, h');
    WroteOwns(w, w', who, bytes);
    Flying(w, who);
    assert Temps(w') == Temps(w);
    assert w'.atomic == Settled(w');
  }

  lemma {:induction false} Flying(w: World, who: nat)
    requires who in w.threads && w.threads[who].temp.Some?
    ensures w.threads[who].temp.value.path in Temps(w)
  {
  }

  lemma {:induction false} RenamedOwns(w: World, w': World, who: nat, target: Text)
    requires SoundDisk(w.disk) && Apart(w) && (forall b <- w.threads :: Owns(w, b))
    requires HistoryOf(w, who).temp.Some? && Next(w, Turn(who, Renamed(target))) == Some(w')
    requires target !in Temps(w)
    ensures SoundDisk(w'.disk) && Apart(w') && forall b <- w'.threads :: Owns(w', b)
    ensures who in w.threads
    ensures w.disk.inodes[w.disk.names[HistoryOf(w, who).temp.value.path]] == HistoryOf(w, who).temp.value.content
  {
    assert Owns(w, who);
    forall b <- w'.threads ensures Owns(w', b) {
      if b != who {
        assert Owns(w, b);
        if w.threads[b].temp.Some? {
          Flying(w, b);
        }
      }
    }
  }

  lemma {:induction false} RenamedKeeps(w: World, who: nat, target: Text, targets: set<Text>, pid: nat)
    requires Invariant(w, targets, pid) && Separate(targets, pid) && HistoryOf(w, who).temp.Some?
    requires Next(w, Turn(who, Renamed(target))).Some?
    requires Disciplined(targets, pid, Step(HistoryOf(w, who), Renamed(target)))
    ensures Invariant(Next(w, Turn(who, Renamed(target))).value, targets, pid)
  {
    hide Temps, Owns, Apart, Separate;
    var h, h' := HistoryOf(w, who), Step(HistoryOf(w, who), Renamed(target));
    var w' := Next(w, Turn(who, Renamed(target))).value;
    assert h'.published[|h.published|] in h'.published;
    TargetsAreNoTemps(w, targets, pid, target);
    TempsAfter(w, w', who, h');
    RenamedOwns(w, w', who, target);
    Flying(w, who);
    hide Disciplined;
    assert Temps(w') == Temps(w) - {h.temp.value.path};
    assert w'.atomic == Settled(w');
  }

  lemma {:induction false} UnlinkedOwns(w: World, w': World, who: nat)
    requires SoundDisk(w.disk) && Apart(w) && (forall b <- w.threads :: Owns(w, b))
    requires HistoryOf(w, who).temp.Some?
    requires Next(w, Turn(who, Unlinked(HistoryOf(w, who).temp.value.path))) == Some(w')
    ensures SoundDisk(w'.disk) && Apart(w') && forall b <- w'.threads :: Owns(w', b)
  {
    assert Owns(w, who);
    forall b <- w'.threads ensures Owns(w', b) {
      if b != who {
        assert Owns(w, b);
      }
    }
  }

  lemma {:induction false} UnlinkedKeeps(w: World, who: nat, path: Text, targets: set<Text>, pid: nat)
    requires Invariant(w, targets, pid) && Next(w, Turn(who, Unlinked(path))).Some?
    requires Disciplined(targets, pid, Step(HistoryOf(w, who), Unlinked(path)))
    ensures Invariant(Next(w, Turn(who, Unlinked(path))).value, targets, pid)
  {
    hide Temps, Owns, Apart;
    var h, h' := HistoryOf(w, who), Step(HistoryOf(w, who), Unlinked(path));
    var w' := Next(w, Turn(who, Unlinked(path))).value;
    OwnPath(h, path);
    hide Disciplined;
    TempsAfter(w, w', who, h');
    UnlinkedOwns(w, w', who);
    Flying(w, who);
    assert Temps(w') == Temps(w) - {path};
    assert w'.atomic == Settled(w');
  }

  lemma {:induction false} OwnPath(h: History, path: Text)
    requires Step(h, Unlinked(path)).strays == []
    ensures h.temp.Some? && h.temp.value.path == path
  {
  }

  predicate OffDisk(e: Event) {
    e.Sent? || e.Received? || e.Opened? || e.NotCreated? || e.Stuck? || e.Stored?
  }

  lemma {:induction false} OffDiskKeeps(w: World, t: Turn, targets: set<Text>, pid: nat)
    requires Invariant(w, targets, pid) && OffDisk(t.e) && Next(w, t).Some?
    requires Disciplined(targets, pid, Step(HistoryOf(w, t.who), t.e))
    ensures Invariant(Next(w, t).value, targets, pid)
  {
    hide Disciplined, Temps;
    var h' := Step(HistoryOf(w, t.who), t.e);
    var w' := Next(w, t).value;
    TempsAfter(w, w', t.who, h');
    assert h'.temp == HistoryOf(w, t.who).temp;
    forall b <- w'.threads ensures Owns(w', b) {
      if b in w.threads {
        assert Owns(w, b);
      }
    }
    if t.who in w.threads && h'.temp.Some? {
      Flying(w, t.who);
    }
    assert Temps(w') == Temps(w);
    assert w'.atomic == Settled(w');
  }

  lemma {:induction false} NextKeeps(w: World, t: Turn, targets: set<Text>, pid: nat)
    requires Invariant(w, targets, pid) && Separate(targets, pid) && Next(w, t).Some?
    requires Enabled(HistoryOf(w, t.who), t.e) && Disciplined(targets, pid, Step(HistoryOf(w, t.who), t.e))
    ensures Invariant(Next(w, t).value, targets, pid)
  {
    hide Invariant, Disciplined, Separate, Next, Step;
    match t.e
    case Created(path) => CreatedKeeps(w, t.who, path, targets, pid);
    case Wrote(bytes) => WroteKeeps(w, t.who, bytes, targets, pid);
    case Renamed(target) => RenamedKeeps(w, t.who, target, targets, pid);
    case Unlinked(path) => UnlinkedKeeps(w, t.who, path, targets, pid);
    case _ => OffDiskKeeps(w, t, targets, pid);
  }

  // ---------------------------------------------------------------- runs

  /** Every thread does, at every moment, only what a disciplined thread does. */
  ghost predicate Obey(turns: seq<Turn>, targets: set<Text>, pid: nat) {
    && (forall k | 0 <= k < |turns| ::
          Enabled(Replay(Side(turns[..k], turns[k].who)), turns[k].e))
    && (forall k, who: nat | 0 <= k <= |turns| :: Disciplined(targets, pid, Replay(Side(turns[..k], who))))
  }

  lemma {:induction false} SideGrows(turns: seq<Turn>, k: nat, who: nat)
    requires k <= |turns|
    ensures Side(turns[..k], who) <= Side(turns, who)
    ensures k < |turns| && turns[k].who == who ==>
      Side(turns[..k], who) + [turns[k].e] <= Side(turns, who)
  {
    if k < |turns| {
      var n := |turns| - 1;
      if k < n {
        SideGrows(turns[..n], k, who);
        assert turns[..n][..k] == turns[..k] && turns[..n][k] == turns[k];
      }
    } else {
      assert turns[..k] == turns;
    }
  }

  /**
   * Connections that keep their guarantee, as the handler is proved to, are
   * disciplined in every interleaving, whatever targets they are asked for.
   */
  lemma {:induction false} ServersObey(turns: seq<Turn>, base: Text, targets: set<Text>, pid: nat)
    requires forall who: nat :: Always(Side(turns, who), h => ServerGuarantee(base, pid, h))
    requires forall k, who: nat | 0 <= k <= |turns| ::
      var target := TargetOf(base, Replay(Side(turns[..k], who)).recvd);
      target.Some? ==> target.value in targets
    ensures Obey(turns, targets, pid)
  {
    hide Replay, Enabled, ServerGuarantee, TargetOf, Disciplined, Side;
    forall k, who: nat | 0 <= k <= |turns| ensures Disciplined(targets, pid, Replay(Side(turns[..k], who))) {
      SideGrows(turns, k, who);
      var side, part := Side(turns, who), Side(turns[..k], who);
      assert side[..|part|] == part;
      assert Always(side, h => ServerGuarantee(base, pid, h));
      ServersAreDisciplined(base, pid, targets, Replay(part));
    }
    forall k | 0 <= k < |turns| ensures Enabled(Replay(Side(turns[..k], turns[k].who)), turns[k].e) {
      SideGrows(turns, k, turns[k].who);
      var side, part := Side(turns, turns[k].who), Side(turns[..k], turns[k].who);
      assert side[..|part|] == part && side[|part|] == turns[k].e;
      assert Always(side, h => ServerGuarantee(base, pid, h));
    }
  }

  lemma {:induction false} OneMoreTurn(turns: seq<Turn>)
    requires turns != []
    ensures var n := |turns| - 1;
      Replay(Side(turns, turns[n].who)) == Step(Replay(Side(turns[..n], turns[n].who)), turns[n].e)
  {
    hide Step;
    var n := |turns| - 1;
    var side := Side(turns[..n], turns[n].who);
    assert (side + [turns[n].e])[..|side|] == side;
  }

  lemma {:induction false} ObeyedBefore(turns: seq<Turn>, targets: set<Text>, pid: nat)
    requires turns != [] && Obey(turns, targets, pid)
    ensures var n := |turns| - 1;
      Obey(turns[..n], targets, pid)
      && Enabled(Replay(Side(turns[..n], turns[n].who)), turns[n].e)
      && Disciplined(targets, pid, Replay(Side(turns, turns[n].who)))
  {
    hide Replay, Disciplined, Side, Enabled;
    var n := |turns| - 1;
    assert forall k | 0 <= k <= n :: turns[..n][..k] == turns[..k];
    assert turns[..|turns|] == turns;
  }

  lemma {:induction false} RunKeeps(d: Disk, turns: seq<Turn>, targets: set<Text>, pid: nat)
    requires SoundDisk(d) && Separate(targets, pid) && Obey(turns, targets, pid) && Play(d, turns).Some?
    ensures Invariant(Play(d, turns).value, targets, pid)
  {
    hide Separate, Disciplined, Step, Enabled, Next, Invariant, Obey;
    if turns == [] {
      InitialWorld(d, targets, pid);
    } else {
      var n := |turns| - 1;
      ObeyedBefore(turns, targets, pid);
      RunKeeps(d, turns[..n], targets, pid);
      ThreadsReplay(d, turns[..n], turns[n].who);
      OneMoreTurn(turns);
      NextKeeps(Play(d, turns[..n]).value, turns[n], targets, pid);
    }
  }

  lemma {:induction false} InitialWorld(d: Disk, targets: set<Text>, pid: nat)
    requires SoundDisk(d)
    ensures Invariant(Initial(d), targets, pid)
  {
  }

  // ---------------------------------------------------------------- what it means

  /**
   * In every interleaving of uploads, from any disk, if no target is a
   * temporary name of a target: what can be read, but for the uploads in
   * flight, is what a disk would hold on which each upload happens in one step;
   * and the uploads in flight have distinct files of their own.
   */
  lemma {:induction false} UploadsAreAtomic(d: Disk, turns: seq<Turn>, targets: set<Text>, pid: nat)
    requires SoundDisk(d) && Separate(targets, pid) && Obey(turns, targets, pid) && Play(d, turns).Some?
    ensures var w := Play(d, turns).value;
      && SoundDisk(w.disk) && w.atomic == Settled(w) && Apart(w)
      && (forall who <- w.threads :: Owns(w, who))
      && forall a <- w.threads, b <- w.threads
           | a != b && w.threads[a].temp.Some? && w.threads[b].temp.Some? :: w.fds[a] != w.fds[b]
  {
    hide Settled, Apart, Owns, Disciplined;
    RunKeeps(d, turns, targets, pid);
    var w := Play(d, turns).value;
    forall a <- w.threads, b <- w.threads | a != b && w.threads[a].temp.Some? && w.threads[b].temp.Some?
      ensures a in w.fds && b in w.fds && w.fds[a] != w.fds[b]
    {
      OwnInodes(w, targets, pid, a, b);
    }
  }

  /** When no upload is in flight nothing is left but the first contents and whole uploads. */
  lemma {:induction false} NothingIsLeftBehind(d: Disk, turns: seq<Turn>, targets: set<Text>, pid: nat)
    requires SoundDisk(d) && Separate(targets, pid) && Obey(turns, targets, pid) && Play(d, turns).Some?
    requires forall who: nat :: Replay(Side(turns, who)).temp.None?
    ensures var w := Play(d, turns).value;
      SoundDisk(w.disk) && Contents(w.disk) == w.atomic
  {
    hide Apart, Owns, Step, Play, Side, Replay;
    var w := Play(d, turns).value;
    RunKeeps(d, turns, targets, pid);
    forall who <- w.threads ensures w.threads[who].temp.None? {
      ThreadsReplay(d, turns, who);
    }
    assert Temps(w) == {};
  }

  /** In the atomic world a name holds what it held at first, or all of one upload that some thread has published. */
  lemma {:induction false} WholeOrUntouched(d: Disk, turns: seq<Turn>, path: Text)
    requires SoundDisk(d) && Play(d, turns).Some? && path in Play(d, turns).value.atomic
    ensures var content := Play(d, turns).value.atomic[path];
      || (path in Contents(d) && content == Contents(d)[path])
      || exists who: nat :: File(path, content) in Replay(Side(turns, who)).published
  {
    hide AfterCall;
    if turns != [] {
      var n := |turns| - 1;
      var t := turns[n];
      var w := Play(d, turns[..n]).value;
      ThreadsReplay(d, turns[..n], t.who);
      OneMoreTurn(turns);
      var h := HistoryOf(w, t.who);
      var content := Play(d, turns).value.atomic[path];
      if t.e.Renamed? && h.temp.Some? && t.e.target == path {
        assert Step(h, t.e).published[|h.published|] == File(path, content);
        assert File(path, content) in Replay(Side(turns, t.who)).published;
      } else {
        WholeOrUntouched(d, turns[..n], path);
        if !(path in Contents(d) && content == Contents(d)[path]) {
          var who: nat :| File(path, content) in Replay(Side(turns[..n], who)).published;
          PublishedStays(turns, who, File(path, content));
        }
      }
    }
  }

  /** From the moment it is published a name always holds all of some upload published there. */
  lemma {:induction false} PublishedIsReadable(d: Disk, turns: seq<Turn>, who: nat, f: File)
    requires SoundDisk(d) && Play(d, turns).Some? && f in Replay(Side(turns, who)).published
    ensures f.path in Play(d, turns).value.atomic
    ensures exists other: nat ::
      File(f.path, Play(d, turns).value.atomic[f.path]) in Replay(Side(turns, other)).published
  {
    hide AfterCall;
    var n := |turns| - 1;
    var t := turns[n];
    var w := Play(d, turns[..n]).value;
    ThreadsReplay(d, turns[..n], t.who);
    OneMoreTurn(turns);
    var h := HistoryOf(w, t.who);
    if t.e.Renamed? && h.temp.Some? && t.e.target == f.path {
      assert Step(h, t.e).published[|h.published|] == File(f.path, h.temp.value.content);
      assert File(f.path, h.temp.value.content) in Replay(Side(turns, t.who)).published;
    } else {
      PublishedBefore(turns, who, f);
      PublishedIsReadable(d, turns[..n], who, f);
      var other: nat :| File(f.path, w.atomic[f.path]) in Replay(Side(turns[..n], other)).published;
      PublishedStays(turns, other, File(f.path, w.atomic[f.path]));
    }
  }

  /**
   * On the disk itself: what is read under a name that is not in use by an
   * upload is what was there at first, or all of one upload published there.
   */
  lemma {:induction false} ReadersSeeWholeUploads(
    d: Disk, turns: seq<Turn>, targets: set<Text>, pid: nat, path: Text)
    requires SoundDisk(d) && Separate(targets, pid) && Obey(turns, targets, pid) && Play(d, turns).Some?
    requires path in Play(d, turns).value.disk.names && path !in Temps(Play(d, turns).value)
    ensures SoundDisk(Play(d, turns).value.disk)
    ensures var content := Contents(Play(d, turns).value.disk)[path];
      || (path in Contents(d) && content == Contents(d)[path])
      || exists who: nat :: File(path, content) in Replay(Side(turns, who)).published
  {
    hide Apart, Owns, Step, Play, Side, Replay, Obey, Separate, Temps;
    UploadsAreAtomic(d, turns, targets, pid);
    WholeOrUntouched(d, turns, path);
  }

  /** And from the moment a file is published, all of some upload published there can be read under its name. */
  lemma {:induction false} ReadersFindPublishedFiles(
    d: Disk, turns: seq<Turn>, targets: set<Text>, pid: nat, who: nat, f: File)
    requires SoundDisk(d) && Separate(targets, pid) && Obey(turns, targets, pid) && Play(d, turns).Some?
    requires f in Replay(Side(turns, who)).published
    ensures SoundDisk(Play(d, turns).value.disk) && f.path in Play(d, turns).value.disk.names
    ensures exists other: nat ::
      File(f.path, Contents(Play(d, turns).value.disk)[f.path]) in Replay(Side(turns, other)).published
  {
    hide Apart, Owns, Step, Play, Side, Replay, Obey, Separate, Temps;
    UploadsAreAtomic(d, turns, targets, pid);
    PublishedIsReadable(d, turns, who, f);
  }

  /** What is published now and not by the last turn was published before it. */
  lemma {:induction false} PublishedBefore(turns: seq<Turn>, who: nat, f: File)
    requires turns != [] && f in Replay(Side(turns, who)).published
    ensures var t := turns[|turns| - 1];
      var h := Replay(Side(turns[..|turns| - 1], t.who));
      !(t.e.Renamed? && h.temp.Some? && t.e.target == f.path) ==>
        f in Replay(Side(turns[..|turns| - 1], who)).published
  {
    var n := |turns| - 1;
    var side := Side(turns[..n], who);
    if turns[n].who == who {
      OneMoreTurn(turns);
    } else {
      assert side + [] == side;
    }
  }

  lemma {:induction false} PublishedStays(turns: seq<Turn>, who: nat, f: File)
    requires turns != [] && f in Replay(Side(turns[..|turns| - 1], who)).published
    ensures f in Replay(Side(turns, who)).published
  {
    var n := |turns| - 1;
    var side := Side(turns[..n], who);
    if turns[n].who == who {
      OneMoreTurn(turns);
    } else {
      assert side + [] == side;
    }
  }
}
