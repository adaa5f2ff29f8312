/**
 * The server's main thread, from `server_run_process`, with any number of
 * connection threads, in every interleaving. Each move is one lock section of
 * the tracker or the store, or a step between two of them.
 */
module ShutdownDrain {
  import opened Bytes
  import Store = MessageStore
  import opened ConnTracker

  /** How far the main thread is. */
  datatype Main =
    | Starting                  // before message_store_init
    | StoreReady                // before server_conn_tracker_init
    | TrackerReady              // before the listener is open
    | Listening                 // before its test for a shutdown
    | Polling                   // between the test and accept
    | Entered(id: nat)          // a connection has its entry, not yet its thread
    | NotCreated(id: nat)       // the thread could not be created
    | Closing                   // before message_store_shutdown
    | StoreDown                 // before server_conn_tracker_shutdown_all
    | TrackerDown               // takes the lock in server_conn_tracker_wait_idle
    | Asleep(notified: bool)    // in its condition wait
    | CleanUp                   // before message_store_cleanup
    | StoreGone                 // before server_conn_tracker_cleanup
    | Finished

  /** A connection thread: serving, its socket closed, or past its tracker end. */
  datatype Conn = Handling | SocketClosed | Ended

  datatype System = System(
    main: Main,
    requested: bool,
    store: Store.State,
    tracker: State,
    conns: map<nat, Conn>)

  datatype Move =
    | InitStore(ok: bool)
    | InitTracker(ok: bool)
    | Listen(ok: bool)
    | Signal
    | Poll
    | Accept(id: nat, granted: bool)
    | Idle
    | Create(ok: bool)
    | Abandon
    | Leave
    | ShutStore
    | ShutTracker
    | Wait
    | Wake
    | CleanStore
    | CleanTracker
    | Publish(id: nat, text: Text)
    | CloseSocket(id: nat)
    | End(id: nat)

  const INITIAL: System := System(Starting, false, Store.State(None, 0, false, false), UNUSED, map[])

  /** `server_conn_tracker_end`, with the broadcast that wakes the main thread. */
  function AfterEnding(s: System, id: nat): System {
    var tracker := AfterEnd(s.tracker, id);
    s.(tracker := tracker, main := if s.main.Asleep? && WakesWaiter(tracker) then Asleep(true) else s.main)
  }

  /** A step of start-up. */
  function StartUp(s: System, m: Move): Option<System> {
    match m
    case InitStore(ok) =>
      if s.main != Starting then None
      else if ok then Some(s.(main := StoreReady, store := Store.FRESH))
      else Some(s.(main := CleanUp))
    case InitTracker(ok) =>
      if s.main != StoreReady then None
      else if ok then Some(s.(main := TrackerReady, tracker := FRESH))
      else Some(s.(main := CleanUp))
    case Listen(ok) =>
      if s.main != TrackerReady then None
      else if ok then Some(s.(main := Listening))
      else Some(s.(main := Closing, requested := true))
    case _ => None
  }

  /**
   * A step of the listener: it tests for a shutdown, polls, and accepts. Idle is
   * a poll that times out or fails, or an accept that fails.
   */
  function Serve(s: System, m: Move): Option<System> {
    match m
    case Poll =>
      if s.main != Listening || s.requested then None else Some(s.(main := Polling))
    case Accept(id, granted) =>
      if s.main != Polling || id in s.conns then None
      else if !granted || s.tracker.shuttingDown then Some(s.(main := Listening))
      else Some(s.(main := Entered(id), tracker := AfterBegin(s.tracker, id)))
    case Create(ok) =>
      if !s.main.Entered? then None
      else if ok then Some(s.(main := Listening, conns := s.conns[s.main.id := Handling]))
      else Some(s.(main := NotCreated(s.main.id)))
    case Abandon =>
      if !s.main.NotCreated? then None
      else Some(AfterEnding(s.(main := Listening), s.main.id))
    case Idle =>
      if s.main != Polling then None else Some(s.(main := Listening))
    case Leave =>
      if !(s.main.Listening? || s.main.Polling?) || !s.requested then None else Some(s.(main := Closing))
    case _ => None
  }

  /** A step of shutdown. */
  function ShutDown(s: System, m: Move): Option<System> {
    match m
    case ShutStore =>
      if s.main != Closing then None else Some(s.(main := StoreDown, store := Store.AfterShutdown(s.store)))
    case ShutTracker =>
      if s.main != StoreDown then None else Some(s.(main := TrackerDown, tracker := AfterShutdownAll(s.tracker)))
    case Wait =>
      if s.main != TrackerDown then None
      else Some(s.(main := if s.tracker.count > 0 then Asleep(false) else CleanUp))
    case Wake =>
      if !s.main.Asleep? then None else Some(s.(main := TrackerDown))
    case CleanStore =>
      if s.main != CleanUp then None
      else Some(s.(main := StoreGone, store := if s.store.initialized then Store.AfterCleanup(s.store) else s.store))
    case CleanTracker =>
      if s.main != StoreGone then None
      else Some(s.(main := Finished, tracker := if s.tracker.initialized then UNUSED else s.tracker))
    case _ => None
  }

  /** A step of a connection thread. */
  function ConnStep(s: System, m: Move): Option<System> {
    match m
    case Publish(id, text) =>
      if id !in s.conns || s.conns[id] != Handling || !s.store.initialized then None
      else Some(s.(store := Store.AfterReplace(s.store, text)))
    case CloseSocket(id) =>
      if id !in s.conns || s.conns[id] != Handling then None
      else Some(s.(conns := s.conns[id := SocketClosed]))
    case End(id) =>
      if id !in s.conns || s.conns[id] != SocketClosed then None
      else Some(AfterEnding(s.(conns := s.conns[id := Ended]), id))
    case _ => None
  }

  /** The system after a move; None when the move is not possible. Wake may also be spurious. */
  function Next(s: System, m: Move): Option<System> {
    match m
    case Signal => Some(s.(requested := true))
    case InitStore(_) => StartUp(s, m)
    case InitTracker(_) => StartUp(s, m)
    case Listen(_) => StartUp(s, m)
    case Poll => Serve(s, m)
    case Accept(_, _) => Serve(s, m)
    case Idle => Serve(s, m)
    case Create(_) => Serve(s, m)
    case Abandon => Serve(s, m)
    case Leave => Serve(s, m)
    case Publish(_, _) => ConnStep(s, m)
    case CloseSocket(_) => ConnStep(s, m)
    case End(_) => ConnStep(s, m)
    case _ => ShutDown(s, m)
  }

  function Run(s: System, moves: seq<Move>): Option<System> {
    if moves == [] then Some(s)
    else
      match Run(s, moves[..|moves| - 1])
      case None => None
      case Some(t) => Next(t, moves[|moves| - 1])
  }

  // ---------------------------------------------------------------- the invariant

  /** Connections that hold an entry: their thread has not ended it, or is still to be made. */
  function Live(s: System): set<nat> {
    (set id <- s.conns | s.conns[id] != Ended)
    + if s.main.Entered? || s.main.NotCreated? then {s.main.id} else {}
  }

  predicate AfterTrackerDown(m: Main) {
    m.TrackerDown? || m.Asleep? || m.CleanUp? || m.StoreGone? || m.Finished?
  }

  /** The main thread is where nothing of the store or the tracker may be in use. */
  predicate Drained(m: Main) {
    m.Starting? || m.StoreReady? || m.TrackerReady? || m.CleanUp? || m.StoreGone? || m.Finished?
  }

  predicate Invariant(s: System) {
    && Sound(s.tracker)
    && Ids(s.tracker.items) == Live(s)
    && (Drained(s.main) ==> Live(s) == {})
    && (s.main.Entered? || s.main.NotCreated? ==> s.main.id !in s.conns)
    && (s.main.StoreReady? ==> s.store.initialized)
    && (!Drained(s.main) || s.main.TrackerReady? ==> s.store.initialized && s.tracker.initialized)
    && (s.tracker.shuttingDown ==> AfterTrackerDown(s.main))
    && (AfterTrackerDown(s.main) && !Drained(s.main) ==> s.tracker.shuttingDown)
    && (s.tracker.shuttingDown ==> forall i <- s.tracker.items :: i.closing)
    && (s.main == Asleep(false) ==> s.tracker.count > 0)
  }

  lemma {:induction false} IdsAllClosing(items: seq<Item>)
    ensures Ids(AllClosing(items)) == Ids(items)
    ensures Distinct(items) ==> Distinct(AllClosing(items))
    ensures forall i <- AllClosing(items) :: i.closing
  {
    var closed := AllClosing(items);
    forall id | id in Ids(items) ensures id in Ids(closed) {
      var k :| 0 <= k < |items| && items[k].id == id;
      assert closed[k] in closed && closed[k].id == id;
    }
    forall id | id in Ids(closed) ensures id in Ids(items) {
      var k :| 0 <= k < |closed| && closed[k].id == id;
      assert items[k] in items;
    }
  }

  lemma {:induction false} CountIds(items: seq<Item>)
    requires Distinct(items)
    ensures |Ids(items)| == |items|
  {
    if items == [] {
      NoIds();
    } else {
      assert items == [items[0]] + items[1..];
      IdsCons(items[0], items[1..]);
      DistinctCons(items[0], items[1..]);
      CountIds(items[1..]);
    }
  }

  /** Ending one live connection leaves the tracker sound, with the others in it. */
  lemma {:induction false} EndKeeps(s: System, id: nat)
    requires Sound(s.tracker) && id in Ids(s.tracker.items)
    ensures var t := AfterEnding(s, id).tracker;
      Sound(t) && Ids(t.items) == Ids(s.tracker.items) - {id} && t.count == s.tracker.count - 1
      && t.shuttingDown == s.tracker.shuttingDown && t.initialized == s.tracker.initialized
      && ((forall i <- s.tracker.items :: i.closing) ==> forall i <- t.items :: i.closing)
  {
    hide Ids, Distinct;
    WithoutOne(s.tracker.items, id);
  }

  lemma {:induction false} ServeKeeps(s: System, m: Move)
    requires Invariant(s) && Serve(s, m).Some?
    ensures Invariant(Serve(s, m).value)
  {
    hide Ids, Distinct;
    var t := Serve(s, m).value;
    match m
    case Accept(id, granted) =>
      if !granted || s.tracker.shuttingDown {
        assert Live(t) == Live(s);
      } else {
        DistinctCons(Item(id, false), s.tracker.items);
        IdsCons(Item(id, false), s.tracker.items);
        assert Live(t) == {id} + Live(s);
      }
    case Create(ok) =>
      assert Live(t) == Live(s);
    case Abandon =>
      EndKeeps(s.(main := Listening), s.main.id);
      assert Live(t) == Live(s) - {s.main.id};
    case Poll =>
      assert Live(t) == Live(s);
    case Idle =>
      assert Live(t) == Live(s);
    case Leave =>
      assert Live(t) == Live(s);
  }

  lemma {:induction false} ConnStepKeeps(s: System, m: Move)
    requires Invariant(s) && ConnStep(s, m).Some?
    ensures Invariant(ConnStep(s, m).value)
  {
    hide Ids, Distinct;
    var t := ConnStep(s, m).value;
    assert m.id in Live(s);
    match m
    case Publish(_, _) =>
      assert Live(t) == Live(s);
    case CloseSocket(_) =>
      assert Live(t) == Live(s);
    case End(id) =>
      EndKeeps(s.(conns := s.conns[id := Ended]), id);
      assert Live(t) == Live(s) - {id};
  }

  lemma {:induction false} ShutDownKeeps(s: System, m: Move)
    requires Invariant(s) && ShutDown(s, m).Some?
    ensures Invariant(ShutDown(s, m).value)
  {
    hide Ids, Distinct;
    var t := ShutDown(s, m).value;
    assert Live(t) == Live(s);
    NoIds();
    hide Live;
    CountIds(s.tracker.items);
    if m.ShutTracker? {
      IdsAllClosing(s.tracker.items);
    }
  }

  lemma {:induction false} NextKeeps(s: System, m: Move)
    requires Invariant(s) && Next(s, m).Some?
    ensures Invariant(Next(s, m).value)
  {
    hide Ids, Distinct;
    if Serve(s, m).Some? {
      ServeKeeps(s, m);
    } else if ConnStep(s, m).Some? {
      ConnStepKeeps(s, m);
    } else if ShutDown(s, m).Some? {
      ShutDownKeeps(s, m);
    } else {
      NoIds();
      assert Live(Next(s, m).value) == Live(s);
    }
  }

  lemma {:induction false} RunKeeps(s: System, moves: seq<Move>)
    requires Invariant(s) && Run(s, moves).Some?
    ensures Invariant(Run(s, moves).value)
  {
    hide Invariant;
    if moves != [] {
      RunKeeps(s, moves[..|moves| - 1]);
      NextKeeps(Run(s, moves[..|moves| - 1]).value, moves[|moves| - 1]);
    }
  }

  lemma {:induction false} Reachable(moves: seq<Move>)
    requires Run(INITIAL, moves).Some?
    ensures Invariant(Run(INITIAL, moves).value)
  {
    NoIds();
    assert Invariant(INITIAL);
    RunKeeps(INITIAL, moves);
  }

  // ---------------------------------------------------------------- what it means

  /**
   * In every run the tracker's count is the number of connections that hold an
   * entry, the list holds an entry for each of them and for nothing else, and
   * none twice.
   */
  lemma {:induction false} CountIsLiveConnections(moves: seq<Move>)
    requires Run(INITIAL, moves).Some?
    ensures var s := Run(INITIAL, moves).value;
      s.tracker.count == |Live(s)| && Ids(s.tracker.items) == Live(s) && Distinct(s.tracker.items)
  {
    Reachable(moves);
    CountIds(Run(INITIAL, moves).value.tracker.items);
  }

  /** The broadcast cannot be missed: the main thread asleep and not notified has something to wait for. */
  lemma {:induction false} NeverLeftAsleep(moves: seq<Move>)
    requires Run(INITIAL, moves).Some? && Run(INITIAL, moves).value.main == Asleep(false)
    ensures exists id <- Run(INITIAL, moves).value.conns :: Run(INITIAL, moves).value.conns[id] != Ended
  {
    CountIsLiveConnections(moves);
    Reachable(moves);
    var s := Run(INITIAL, moves).value;
    var id :| id in Live(s);
    assert id in s.conns;
  }

  /**
   * The store and the tracker are taken down only when no connection is before
   * its tracker end: a thread still serving, or about to end its entry, finds
   * both of them in place.
   */
  lemma {:induction false} CleanupWaitsForEveryThread(moves: seq<Move>, id: nat)
    requires Run(INITIAL, moves).Some? && id in Run(INITIAL, moves).value.conns
    requires Run(INITIAL, moves).value.conns[id] != Ended
    ensures var s := Run(INITIAL, moves).value;
      s.store.initialized && s.tracker.initialized && Next(s, CleanStore).None? && Next(s, CleanTracker).None?
  {
    Reachable(moves);
    assert id in Live(Run(INITIAL, moves).value);
  }

  lemma {:induction false} ShutStepShrinks(s: System, m: Move)
    requires Invariant(s) && s.tracker.shuttingDown && Next(s, m).Some?
    ensures var t := Next(s, m).value;
      && Ids(t.tracker.items) <= Ids(s.tracker.items) && t.conns.Keys == s.conns.Keys
      && (t.tracker.shuttingDown || t.main == Finished)
      && Live(t) <= Live(s)
  {
    hide Distinct, Ids;
    NextKeeps(s, m);
    assert Live(Next(s, m).value) <= Live(s);
  }

  /**
   * Once the tracker is shutting down every listed entry is closing, and no run
   * from there adds an entry or a thread.
   */
  lemma {:induction false} NothingBeginsAfterShutdown(moves: seq<Move>, more: seq<Move>)
    requires Run(INITIAL, moves).Some? && Run(INITIAL, moves).value.tracker.shuttingDown
    requires Run(Run(INITIAL, moves).value, more).Some?
    ensures var s, t := Run(INITIAL, moves).value, Run(Run(INITIAL, moves).value, more).value;
      && (forall i <- s.tracker.items :: i.closing)
      && Ids(t.tracker.items) <= Ids(s.tracker.items) && t.conns.Keys == s.conns.Keys
      && (t.tracker.shuttingDown || t.main == Finished)
  {
    hide Ids, Invariant, Next;
    Reachable(moves);
    var s := Run(INITIAL, moves).value;
    assert forall i <- s.tracker.items :: i.closing by {
      Unfold(s);
    }
    if more != [] {
      var n := |more| - 1;
      NothingBeginsAfterShutdown(moves, more[..n]);
      var u := Run(s, more[..n]).value;
      RunKeeps(s, more[..n]);
      if u.main == Finished {
        FinishedStays(u, more[n]);
      } else {
        ShutStepShrinks(u, more[n]);
      }
    }
  }

  lemma {:induction false} Unfold(s: System)
    requires Invariant(s) && s.tracker.shuttingDown
    ensures forall i <- s.tracker.items :: i.closing
  {
  }

  lemma {:induction false} FinishedStays(s: System, m: Move)
    requires Invariant(s) && s.main == Finished && Next(s, m).Some?
    ensures var t := Next(s, m).value;
      t.main == Finished && t.tracker == s.tracker && t.conns == s.conns
  {
    forall id <- s.conns ensures s.conns[id] == Ended {
      assert id !in Live(s);
    }
  }

  /** What is not in use holds nothing. */
  predicate UnusedIsEmpty(s: System) {
    && (!s.store.initialized ==> s.store.message.None?)
    && (!s.tracker.initialized ==> s.tracker == UNUSED)
    && (s.main.StoreGone? || s.main.Finished? ==> !s.store.initialized)
    && (s.main.Finished? ==> !s.tracker.initialized)
  }

  lemma {:induction false} StaysEmpty(s: System, m: Move)
    requires Invariant(s) && UnusedIsEmpty(s) && Next(s, m).Some?
    ensures UnusedIsEmpty(Next(s, m).value)
  {
    hide Ids, Distinct;
    if m.End? || m.CloseSocket? || m.Publish? {
      assert m.id in Live(s);
    }
  }

  /** In every run: when the main thread has come to its end no message is left, and nothing of the tracker. */
  lemma {:induction false} FinishedIsClean(moves: seq<Move>)
    requires Run(INITIAL, moves).Some?
    ensures UnusedIsEmpty(Run(INITIAL, moves).value)
    ensures var s := Run(INITIAL, moves).value;
      s.main.Finished? ==> !s.store.initialized && s.store.message.None? && s.tracker == UNUSED
  {
    hide Invariant, Next;
    if moves != [] {
      var n := |moves| - 1;
      Reachable(moves[..n]);
      FinishedIsClean(moves[..n]);
      StaysEmpty(Run(INITIAL, moves[..n]).value, moves[n]);
    }
  }

  /** A start-up without failures leads to the listener, with store and tracker in place. */
  lemma {:induction false} StartsUp()
    ensures var s := Run(INITIAL, [InitStore(true), InitTracker(true), Listen(true)]);
      s == Some(System(Listening, false, Store.FRESH, FRESH, map[]))
  {
    var m1, m2, m3 := [InitStore(true)], [InitStore(true), InitTracker(true)],
      [InitStore(true), InitTracker(true), Listen(true)];
    assert m1[..0] == [] && m2[..1] == m1 && m3[..2] == m2;
    assert Run(INITIAL, []) == Some(INITIAL);
    assert Run(INITIAL, m1) == Next(INITIAL, InitStore(true));
    assert Run(INITIAL, m2) == Next(Run(INITIAL, m1).value, InitTracker(true));
    assert Run(INITIAL, m3) == Next(Run(INITIAL, m2).value, Listen(true));
  }

  /** A signal at any moment requests the shutdown, and changes nothing else. */
  lemma {:induction false} SignalsAreSeen(s: System)
    ensures Next(s, Signal) == Some(s.(requested := true))
  {
  }

  /**
   * Until a shutdown is requested the listener goes on: a connection that comes in
   * gets its entry and its thread, and can be served from then on.
   */
  lemma {:induction false} ConnectionsAreTakenOn(moves: seq<Move>, id: nat)
    requires Run(INITIAL, moves).Some? && Run(INITIAL, moves).value.main == Listening
    requires !Run(INITIAL, moves).value.requested && id !in Run(INITIAL, moves).value.conns
    ensures var more := moves + [Poll, Accept(id, true), Create(true)];
      Run(INITIAL, more).Some?
      && Run(INITIAL, more).value.main == Listening
      && Run(INITIAL, more).value.conns == Run(INITIAL, moves).value.conns[id := Handling]
      && id in Ids(Run(INITIAL, more).value.tracker.items)
      && Run(INITIAL, more).value.tracker.count == Run(INITIAL, moves).value.tracker.count + 1
  {
    hide Ids, Distinct;
    Reachable(moves);
    var s := Run(INITIAL, moves).value;
    var m1, m2, m3 := moves + [Poll], moves + [Poll, Accept(id, true)], moves + [Poll, Accept(id, true), Create(true)];
    assert m1[..|moves|] == moves && m2[..|m1|] == m1 && m3[..|m2|] == m2;
    var s1 := Next(s, Poll).value;
    var s2 := Next(s1, Accept(id, true)).value;
    assert Run(INITIAL, m1) == Some(s1);
    assert Run(INITIAL, m2) == Some(s2);
    assert Run(INITIAL, m3) == Next(s2, Create(true));
    IdsCons(Item(id, false), s.tracker.items);
  }

  // ---------------------------------------------------------------- shutdown completes

  function Rank(m: Main): nat {
    match m
    case Starting => 17
    case StoreReady => 16
    case TrackerReady => 15
    case Polling => 14
    case Entered(_) => 13
    case NotCreated(_) => 9
    case Listening => 8
    case Closing => 7
    case StoreDown => 6
    case Asleep(notified) => if notified then 5 else 3
    case TrackerDown => 4
    case CleanUp => 2
    case StoreGone => 1
    case Finished => 0
  }

  function Serving(s: System): set<nat> {
    set id <- s.conns | s.conns[id] == Handling
  }

  function Unended(s: System): set<nat> {
    set id <- s.conns | s.conns[id] != Ended
  }

  /** An upper bound on the moves that a shutdown still takes. */
  function MovesLeft(s: System): nat {
    3 * |Unended(s)| + |Serving(s)| + Rank(s.main)
  }

  /** A move that takes no step towards the end: another signal or message, or a spurious wakeup. */
  predicate Idles(s: System, m: Move) {
    m.Signal? || m.Publish? || (m.Wake? && s.main == Asleep(false))
  }

  /** The main thread's own next move, with every call that may fail failing. */
  function Forward(s: System): Move {
    match s.main
    case Starting => InitStore(false)
    case StoreReady => InitTracker(false)
    case TrackerReady => Listen(false)
    case Listening => Leave
    case Polling => Idle
    case Entered(_) => Create(false)
    case NotCreated(_) => Abandon
    case Closing => ShutStore
    case StoreDown => ShutTracker
    case TrackerDown => Wait
    case Asleep(_) => Wake
    case CleanUp => CleanStore
    case StoreGone => CleanTracker
    case Finished => Signal
  }

  /**
   * Once shutdown is requested the main thread waits for nothing but the end of
   * a connection: unless it sleeps un-notified, its own next move is possible.
   */
  lemma {:induction false} MainWaitsForConnectionsOnly(s: System)
    requires Invariant(s) && s.requested && s.main != Finished
    ensures s.main != Asleep(false) ==> Next(s, Forward(s)).Some? && !Idles(s, Forward(s))
    ensures s.main == Asleep(false) ==> Unended(s) != {}
  {
    if s.main == Asleep(false) {
      assert Live(s) == Unended(s);
      if Unended(s) == {} {
        CountIds(s.tracker.items);
      }
    }
  }

  lemma {:induction false} Members(s: System)
    ensures forall id :: id in Serving(s) <==> id in s.conns && s.conns[id] == Handling
    ensures forall id :: id in Unended(s) <==> id in s.conns && s.conns[id] != Ended
  {
  }

  lemma {:induction false} OneMore(a: set<nat>, b: set<nat>, x: nat)
    requires x !in a && forall y :: y in b <==> y == x || y in a
    ensures |b| == |a| + 1
  {
    assert b == a + {x};
  }

  lemma {:induction false} CloseSteps(s: System, id: nat)
    requires id in Serving(s)
    ensures var t := s.(conns := s.conns[id := SocketClosed]);
      |Serving(t)| == |Serving(s)| - 1 && Unended(t) == Unended(s)
  {
    var t := s.(conns := s.conns[id := SocketClosed]);
    assert Serving(t) == Serving(s) - {id};
    assert Unended(t) == Unended(s);
  }

  lemma {:induction false} EndSteps(s: System, id: nat)
    requires id in s.conns && s.conns[id] == SocketClosed
    ensures var t := s.(conns := s.conns[id := Ended]);
      |Unended(t)| == |Unended(s)| - 1 && Serving(t) == Serving(s)
  {
    var t := s.(conns := s.conns[id := Ended]);
    assert Unended(t) == Unended(s) - {id};
    assert Serving(t) == Serving(s);
  }

  lemma {:induction false} CreateSteps(s: System, id: nat)
    requires id !in s.conns
    ensures var t := s.(conns := s.conns[id := Handling]);
      |Unended(t)| == |Unended(s)| + 1 && |Serving(t)| == |Serving(s)| + 1
  {
    hide Serving, Unended;
    var t := s.(conns := s.conns[id := Handling]);
    Members(s);
    Members(t);
    OneMore(Unended(s), Unended(t), id);
    OneMore(Serving(s), Serving(t), id);
  }

  /** The connections count the same when only the rest of the system changes. */
  lemma {:induction false} SameConns(s: System, t: System)
    requires s.conns == t.conns
    ensures Unended(s) == Unended(t) && Serving(s) == Serving(t)
  {
  }

  /**
   * Once shutdown is requested every move comes closer to the end, but for
   * signals and messages, which leave the bound, and a spurious wakeup, which
   * costs the one move of going back to sleep.
   */
  lemma {:induction false} EveryMoveCounts(s: System, m: Move)
    requires Invariant(s) && s.requested && Next(s, m).Some?
    ensures Next(s, m).value.requested
    ensures !Idles(s, m) ==> MovesLeft(Next(s, m).value) < MovesLeft(s)
    ensures Idles(s, m) ==> MovesLeft(Next(s, m).value) == MovesLeft(s) + if m.Wake? then 1 else 0
  {
    hide Invariant, Ids, Distinct, AfterEnd, AfterBegin, Serving, Unended, Sound;
    var t := Next(s, m).value;
    if m.CloseSocket? {
      Members(s);
      CloseSteps(s, m.id);
    } else if m.End? {
      EndSteps(s, m.id);
      SameConns(t, s.(conns := t.conns));
    } else if m.Create? {
      CreateCounts(s, m);
    } else {
      OthersCount(s, m);
      SameConns(s, t);
    }
  }

  lemma {:induction false} CreateCounts(s: System, m: Move)
    requires Invariant(s) && m.Create? && Next(s, m).Some?
    ensures MovesLeft(Next(s, m).value) < MovesLeft(s)
  {
    hide Ids, Distinct, Sound, Serving, Unended, AfterEnd, AfterBegin;
    var t := Next(s, m).value;
    if m.ok {
      CreateSteps(s, s.main.id);
      SameConns(t, s.(conns := t.conns));
    } else {
      SameConns(s, t);
    }
  }

  lemma {:induction false} OthersCount(s: System, m: Move)
    requires s.requested && Next(s, m).Some? && !m.CloseSocket? && !m.End? && !m.Create?
    ensures var t := Next(s, m).value;
      && t.conns == s.conns
      && (!Idles(s, m) ==> Rank(t.main) < Rank(s.main))
      && (Idles(s, m) ==> Rank(t.main) == Rank(s.main) + if m.Wake? then 1 else 0)
  {
    hide AfterEnd, AfterBegin;
  }

  /** How many moves of a run are steps towards the end, and how many are spurious wakeups. */
  function Steps(s: System, moves: seq<Move>): nat
    requires Run(s, moves).Some?
  {
    if moves == [] then 0
    else
      var n := |moves| - 1;
      Steps(s, moves[..n]) + if Idles(Run(s, moves[..n]).value, moves[n]) then 0 else 1
  }

  function Wakeups(s: System, moves: seq<Move>): nat
    requires Run(s, moves).Some?
  {
    if moves == [] then 0
    else
      var n := |moves| - 1;
      Wakeups(s, moves[..n]) + if Run(s, moves[..n]).value.main == Asleep(false) && moves[n].Wake? then 1 else 0
  }

  lemma {:induction false} StepsAreBounded(s: System, more: seq<Move>)
    requires Invariant(s) && s.requested && Run(s, more).Some?
    ensures var t := Run(s, more).value;
      Invariant(t) && t.requested && Steps(s, more) + MovesLeft(t) <= MovesLeft(s) + Wakeups(s, more)
  {
    hide Invariant, Next, MovesLeft;
    if more != [] {
      var n := |more| - 1;
      StepsAreBounded(s, more[..n]);
      var u := Run(s, more[..n]).value;
      NextKeeps(u, more[n]);
      EveryMoveCounts(u, more[n]);
    }
  }

  /** Before the end some step is always possible. */
  lemma {:induction false} SomeStep(s: System) returns (m: Move)
    requires Invariant(s) && s.requested && s.main != Finished
    ensures Next(s, m).Some? && !Idles(s, m)
    ensures m.CloseSocket? ==> s.main == Asleep(false)
  {
    hide Invariant;
    MainWaitsForConnectionsOnly(s);
    if s.main != Asleep(false) {
      m := Forward(s);
    } else {
      var id :| id in Unended(s);
      m := if s.conns[id] == Handling then CloseSocket(id) else End(id);
    }
  }

  /**
   * Shutdown must complete. However a run that has requested it goes on, it makes
   * at most MovesLeft steps, and one more for every spurious wakeup; and where
   * no step is possible any more, the server has come to its end.
   */
  lemma {:induction false} ShutdownMustComplete(moves: seq<Move>, more: seq<Move>)
    requires Run(INITIAL, moves).Some? && Run(INITIAL, moves).value.requested
    requires Run(Run(INITIAL, moves).value, more).Some?
    ensures var s := Run(INITIAL, moves).value;
      Steps(s, more) <= MovesLeft(s) + Wakeups(s, more)
    ensures var t := Run(Run(INITIAL, moves).value, more).value;
      (forall m :: Next(t, m).Some? ==> Idles(t, m)) ==> t.main == Finished
  {
    hide Invariant, Next, MovesLeft;
    Reachable(moves);
    var s := Run(INITIAL, moves).value;
    StepsAreBounded(s, more);
    var t := Run(s, more).value;
    if t.main != Finished {
      var m := SomeStep(t);
    }
  }

  function Accepts(moves: seq<Move>): nat {
    if moves == [] then 0 else Accepts(moves[..|moves| - 1]) + if moves[|moves| - 1].Accept? then 1 else 0
  }

  /**
   * After the request the listener takes at most the one connection for which it
   * was already past its test, and none when it was anywhere else.
   */
  lemma {:induction false} OneMoreConnection(s: System, more: seq<Move>)
    requires s.requested && Run(s, more).Some?
    ensures Accepts(more) <= if s.main.Polling? then 1 else 0
    ensures var t := Run(s, more).value;
      t.requested && (t.main.Polling? ==> s.main.Polling? && Accepts(more) == 0)
  {
    hide AfterBegin, AfterEnd;
    if more != [] {
      OneMoreConnection(s, more[..|more| - 1]);
    }
  }

  lemma {:induction false} RunCons(s: System, m: Move, more: seq<Move>)
    requires Next(s, m).Some?
    ensures Run(s, [m] + more) == Run(Next(s, m).value, more)
  {
    hide Next;
    if more == [] {
      assert ([m] + more)[..0] == [] && Run(s, []) == Some(s);
    } else {
      var n := |more| - 1;
      RunCons(s, m, more[..n]);
      assert ([m] + more)[..|more|] == [m] + more[..n];
    }
  }

  /**
   * From every state of every run in which shutdown has been requested, the
   * server can still come to its end: no order of events leaves it stuck.
   */
  lemma {:induction false} ShutdownCanComplete(s: System) returns (more: seq<Move>)
    requires Invariant(s) && s.requested
    ensures Run(s, more).Some? && Run(s, more).value.main == Finished
    decreases MovesLeft(s)
  {
    hide Invariant, Next, MovesLeft;
    more := [];
    if s.main != Finished {
      var m := SomeStep(s);
      NextKeeps(s, m);
      EveryMoveCounts(s, m);
      var rest := ShutdownCanComplete(Next(s, m).value);
      RunCons(s, m, rest);
      more := [m] + rest;
    }
  }
}
