/**
 * Any number of event streams, publishers, timeouts and one shutdown, in every
 * interleaving. A move is what one thread does under one acquisition of the
 * store's lock, or between two of them (src/message_store.c, the stream loop
 * of src/http.c).
 */
module StreamSystem {
  import opened Bytes
  import opened MessageStore

  /** A message together with the version it was stored at. */
  datatype Delivery = Delivery(version: nat, text: Text)

  /** Where a stream's thread is. */
  datatype Pc =
    | Starting                             // before its first snapshot
    | Sending(event: Delivery)             // holds a copy, has released the lock
    | Waiting                              // about to take the lock in wait_for_update
    | Asleep(notified: bool)               // in the condition wait
    | Returned(update: Option<Delivery>)   // wait_for_update has returned
    | KeepingAlive                         // about to send a keep-alive
    | Ended

  /** One stream: its thread, the version it knows, and the events its peer has got. */
  datatype Stream = Stream(pc: Pc, known: nat, events: seq<Delivery>)

  /** texts[v - 1] is the text that became version v. */
  datatype System = System(store: State, texts: seq<Text>, requested: bool, streams: map<nat, Stream>)

  datatype Move =
    | Publish(copy: Text)                  // the lock section of message_store_set
    | RequestShutdown
    | StoreShutdown
    | StoreCleanup
    | Connect(id: nat)
    | Snapshot(id: nat, copied: bool)
    | Check(id: nat, copied: bool)
    | Wake(id: nat)
    | Timeout(id: nat, copied: bool)
    | WaitFails(id: nat)
    | TestShutdown(id: nat)
    | SendEvent(id: nat, ok: bool)
    | SendKeepAlive(id: nat, ok: bool)

  const INITIAL: System := System(FRESH, [], false, map[])

  /** A broadcast marks every sleeper. */
  function Notified(streams: map<nat, Stream>): map<nat, Stream> {
    map id | id in streams ::
      if streams[id].pc.Asleep? then streams[id].(pc := Asleep(true)) else streams[id]
  }

  /**
   * The end of `message_store_wait_for_update`, with the lock held. When to sleep
   * and what to take are those of `Store.WaitForUpdate`.
   */
  function TakeUpdate(s: State, st: Stream, copied: bool): Stream {
    var newer := Newer(s, st.known);
    if s.version <= st.known then st.(pc := Returned(None))
    else if newer.None? || !copied then st.(pc := Ended)
    else st.(pc := Returned(Some(Delivery(s.version, newer.value))), known := s.version)
  }

  /** The move of one stream; None when its thread is not there. */
  function StreamMove(s: System, st: Stream, m: Move): Option<Stream> {
    match m
    case Snapshot(_, copied) =>
      if !st.pc.Starting? || !s.store.initialized then None
      else if s.store.message.None? then Some(st.(pc := Waiting, known := s.store.version))
      else if !copied then Some(st.(pc := Ended))
      else Some(st.(pc := Sending(Delivery(s.store.version, s.store.message.value)), known := s.store.version))
    case Check(_, copied) =>
      if !st.pc.Waiting? || !s.store.initialized then None
      else if MustSleep(s.store, st.known) then Some(st.(pc := Asleep(false)))
      else Some(TakeUpdate(s.store, st, copied))
    case Wake(_) => if !st.pc.Asleep? then None else Some(st.(pc := Waiting))
    case Timeout(_, copied) =>
      if !st.pc.Asleep? || !s.store.initialized then None else Some(TakeUpdate(s.store, st, copied))
    case WaitFails(_) => if !st.pc.Asleep? then None else Some(st.(pc := Ended))
    case TestShutdown(_) =>
      if !st.pc.Returned? then None
      else if s.requested then Some(st.(pc := Ended))
      else if st.pc.update.None? then Some(st.(pc := KeepingAlive))
      else Some(st.(pc := Sending(st.pc.update.value)))
    case SendEvent(_, ok) =>
      if !st.pc.Sending? then None
      else if !ok then Some(st.(pc := Ended))
      else Some(st.(pc := Waiting, events := st.events + [st.pc.event]))
    case SendKeepAlive(_, ok) =>
      if !st.pc.KeepingAlive? then None else Some(st.(pc := if ok then Waiting else Ended))
    case _ => None
  }

  predicate OfStream(m: Move) {
    !m.Publish? && !m.RequestShutdown? && !m.StoreShutdown? && !m.StoreCleanup? && !m.Connect?
  }

  /** The system after a move; None when the move is not possible. */
  function Next(s: System, m: Move): Option<System> {
    match m
    case Publish(copy) =>
      if !s.store.initialized then None
      else
        Some(s.(store := AfterReplace(s.store, copy),
                texts := s.texts + [copy],
                streams := Notified(s.streams)))
    case RequestShutdown => Some(s.(requested := true))
    case StoreShutdown =>
      // src/server.c:1059-1062: shutdown is requested before the store is told.
      if !s.requested || !s.store.initialized then None
      else Some(s.(store := AfterShutdown(s.store), streams := Notified(s.streams)))
    case StoreCleanup =>
      // Reached only after the tracker has drained; see ServerStreams.
      if !s.store.initialized || exists id <- s.streams :: !s.streams[id].pc.Ended? then None
      else Some(s.(store := AfterCleanup(s.store)))
    case Connect(id) =>
      if id in s.streams || !s.store.initialized then None
      else Some(s.(streams := s.streams[id := Stream(Starting, 0, [])]))
    case _ =>
      if m.id !in s.streams then None
      else
        match StreamMove(s, s.streams[m.id], m)
        case None => None
        case Some(st) => Some(s.(streams := s.streams[m.id := st]))
  }

  /** The system after a run; None when some move in it was not possible. */
  function Run(moves: seq<Move>): Option<System> {
    if moves == [] then Some(INITIAL)
    else
      match Run(moves[..|moves| - 1])
      case None => None
      case Some(s) => Next(s, moves[|moves| - 1])
  }

  // ---------------------------------------------------------------- the invariant

  /** The delivery carries the text that was stored at its version. */
  predicate Genuine(texts: seq<Text>, d: Delivery) {
    1 <= d.version <= |texts| && d.text == texts[d.version - 1]
  }

  /** Versions strictly increase, all texts are genuine, and nothing is newer than `limit`. */
  predicate Increasing(texts: seq<Text>, events: seq<Delivery>, limit: nat) {
    && (forall k | 0 <= k < |events| :: Genuine(texts, events[k]) && events[k].version <= limit)
    && (forall j, k | 0 <= j < k < |events| :: events[j].version < events[k].version)
  }

  /** The event a stream has read but not sent. */
  function Pending(st: Stream): Option<Delivery> {
    match st.pc
    case Sending(event) => Some(event)
    case Returned(update) => update
    case _ => None
  }

  /** What the stream knows is what its peer has been sent. */
  predicate UpToKnown(st: Stream) {
    if st.events == [] then st.known == 0 else st.known == st.events[|st.events| - 1].version
  }

  predicate StreamSound(s: System, st: Stream) {
    && st.known <= |s.texts|
    && Increasing(s.texts, st.events, st.known)
    && (Pending(st).Some? ==>
          Genuine(s.texts, Pending(st).value) && Pending(st).value.version == st.known
          && forall k | 0 <= k < |st.events| :: st.events[k].version < st.known)
    && (st.pc.Starting? ==> st.known == 0 && st.events == [])
    && (st.pc.Waiting? || st.pc.Asleep? || st.pc.KeepingAlive? || st.pc == Returned(None) ==> UpToKnown(st))
    && (st.pc == Asleep(false) ==> |s.texts| <= st.known && !s.store.shuttingDown)
    && (!s.store.initialized ==> st.pc.Ended?)
  }

  predicate Invariant(s: System) {
    && s.store.version == |s.texts|
    && (s.store.initialized ==>
          s.store.message == if s.texts == [] then None else Some(s.texts[|s.texts| - 1]))
    && (s.store.shuttingDown && s.store.initialized ==> s.requested)
    && forall id <- s.streams :: StreamSound(s, s.streams[id])
  }

  lemma {:induction false} MoreTexts(s: System, s': System, st: Stream)
    requires StreamSound(s, st) && s.texts <= s'.texts && s'.store.initialized
    requires st.pc != Asleep(false)
    ensures StreamSound(s', st)
  {
  }

  lemma {:induction false} BroadcastKeeps(s: System, s': System)
    requires Invariant(s) && s.texts <= s'.texts && s'.streams == Notified(s.streams) && s'.store.initialized
    ensures forall id <- s'.streams :: StreamSound(s', s'.streams[id])
  {
    forall id <- s'.streams ensures StreamSound(s', s'.streams[id]) {
      var st := s.streams[id];
      assert StreamSound(s, st);
      if st.pc.Asleep? {
        assert StreamSound(s, st.(pc := Asleep(true)));
        MoreTexts(s, s', st.(pc := Asleep(true)));
      } else {
        MoreTexts(s, s', st);
      }
    }
  }

  lemma {:induction false} DeliveredOneMore(texts: seq<Text>, events: seq<Delivery>, e: Delivery)
    requires Increasing(texts, events, e.version) && Genuine(texts, e)
    requires forall k | 0 <= k < |events| :: events[k].version < e.version
    ensures Increasing(texts, events + [e], e.version)
  {
  }

  lemma {:induction false} TakeUpdateKeeps(s: System, st: Stream, copied: bool)
    requires Invariant(s) && StreamSound(s, st) && s.store.initialized && (st.pc.Waiting? || st.pc.Asleep?)
    ensures StreamSound(s, TakeUpdate(s.store, st, copied))
  {
  }

  lemma {:induction false} StreamMoveKeeps(s: System, st: Stream, m: Move)
    requires Invariant(s) && StreamSound(s, st) && s.store.initialized
    requires StreamMove(s, st, m).Some?
    ensures StreamSound(s, StreamMove(s, st, m).value)
  {
    hide TakeUpdate, Increasing, Genuine;
    match m
    case Snapshot(_, copied) => SnapshotKeeps(s, st, m);
    case Check(_, copied) => TakeUpdateKeeps(s, st, copied);
    case Timeout(_, copied) => TakeUpdateKeeps(s, st, copied);
    case SendEvent(_, ok) => SendEventKeeps(s, st, m);
    case Wake(_) =>
    case WaitFails(_) =>
    case TestShutdown(_) =>
    case SendKeepAlive(_, _) =>
  }

  lemma {:induction false} SendEventKeeps(s: System, st: Stream, m: Move)
    requires Invariant(s) && StreamSound(s, st) && m.SendEvent? && StreamMove(s, st, m).Some?
    ensures StreamSound(s, StreamMove(s, st, m).value)
  {
    DeliveredOneMore(s.texts, st.events, st.pc.event);
  }

  lemma {:induction false} SnapshotKeeps(s: System, st: Stream, m: Move)
    requires Invariant(s) && StreamSound(s, st) && m.Snapshot? && StreamMove(s, st, m).Some?
    ensures StreamSound(s, StreamMove(s, st, m).value)
  {
  }

  lemma {:induction false} NewStream(s: System, id: nat)
    requires Invariant(s) && s.store.initialized
    ensures Invariant(s.(streams := s.streams[id := Stream(Starting, 0, [])]))
  {
    assert StreamSound(s, Stream(Starting, 0, []));
    OneStreamChanges(s, id, Stream(Starting, 0, []));
  }

  lemma {:induction false} OneStreamChanges(s: System, id: nat, st: Stream)
    requires Invariant(s) && StreamSound(s, st)
    ensures Invariant(s.(streams := s.streams[id := st]))
  {
    hide Increasing;
    var s' := s.(streams := s.streams[id := st]);
    forall other <- s'.streams ensures StreamSound(s', s'.streams[other]) {
      assert other != id ==> StreamSound(s, s.streams[other]);
    }
  }

  /** Every move keeps the invariant. */
  lemma {:induction false} NextKeeps(s: System, m: Move)
    requires Invariant(s) && Next(s, m).Some?
    ensures Invariant(Next(s, m).value)
  {
    hide StreamMove, Increasing;
    var s' := Next(s, m).value;
    match m
    case Publish(_) => BroadcastKeeps(s, s');
    case StoreShutdown => BroadcastKeeps(s, s');
    case RequestShutdown => SameStreams(s, s');
    case StoreCleanup => SameStreams(s, s');
    case Connect(id) => NewStream(s, id);
    case _ =>
      var st := s.streams[m.id];
      assert StreamSound(s, st);
      EndedDoesNotMove(s, st, m);
      StreamMoveKeeps(s, st, m);
      OneStreamChanges(s, m.id, StreamMove(s, st, m).value);
  }

  lemma {:induction false} EndedDoesNotMove(s: System, st: Stream, m: Move)
    requires StreamMove(s, st, m).Some?
    ensures !st.pc.Ended?
  {
  }

  lemma {:induction false} SameStreams(s: System, s': System)
    requires Invariant(s) && s'.streams == s.streams && s'.texts == s.texts
    requires s'.store.(message := s.store.message) == s.store || forall id <- s.streams :: s.streams[id].pc.Ended?
    ensures forall id <- s'.streams :: StreamSound(s', s'.streams[id])
  {
    hide Increasing;
    forall id <- s'.streams ensures StreamSound(s', s'.streams[id]) {
      assert StreamSound(s, s.streams[id]);
    }
  }

  lemma {:induction false} RunInvariant(moves: seq<Move>)
    requires Run(moves).Some?
    ensures Invariant(Run(moves).value)
  {
    if moves != [] {
      RunInvariant(moves[..|moves| - 1]);
      NextKeeps(Run(moves[..|moves| - 1]).value, moves[|moves| - 1]);
    }
  }

  // ---------------------------------------------------------------- what it means

  /**
   * In every run, on every stream: the versions delivered strictly increase,
   * and each event carries the text that was stored at its version.
   */
  lemma {:induction false} EventsIncreaseAndAreGenuine(moves: seq<Move>, id: nat)
    requires Run(moves).Some? && id in Run(moves).value.streams
    ensures var s := Run(moves).value;
      var events := s.streams[id].events;
      (forall j, k | 0 <= j < k < |events| :: events[j].version < events[k].version)
      && (forall k | 0 <= k < |events| :: Genuine(s.texts, events[k]))
  {
    RunInvariant(moves);
    assert StreamSound(Run(moves).value, Run(moves).value.streams[id]);
  }

  /** In every run the store has a version exactly when it has a message, until it is cleaned up. */
  lemma {:induction false} VersionMeansMessage(moves: seq<Move>)
    requires Run(moves).Some? && Run(moves).value.store.initialized
    ensures Run(moves).value.store.version > 0 <==> Run(moves).value.store.message.Some?
  {
    RunInvariant(moves);
  }

  /**
   * Nothing is dropped: a stream that neither holds an update nor has ended has
   * sent its peer the message of the version it knows, or knows of none.
   */
  lemma {:induction false} WhatIsKnownIsSent(moves: seq<Move>, id: nat)
    requires Run(moves).Some? && id in Run(moves).value.streams
    requires var pc := Run(moves).value.streams[id].pc;
      pc.Waiting? || pc.Asleep? || pc.KeepingAlive?
    ensures var s, st := Run(moves).value, Run(moves).value.streams[id];
      if st.known == 0 then st.events == []
      else
        && st.known <= |s.texts| && st.events != []
        && st.events[|st.events| - 1] == Delivery(st.known, s.texts[st.known - 1])
  {
    hide Invariant, StreamSound;
    RunInvariant(moves);
    SoundStream(Run(moves).value, id);
    KnownIsSent(Run(moves).value, Run(moves).value.streams[id]);
  }

  lemma {:induction false} SoundStream(s: System, id: nat)
    requires Invariant(s) && id in s.streams
    ensures StreamSound(s, s.streams[id])
  {
  }

  lemma {:induction false} KnownIsSent(s: System, st: Stream)
    requires StreamSound(s, st) && (st.pc.Waiting? || st.pc.Asleep? || st.pc.KeepingAlive? || st.pc == Returned(None))
    ensures if st.known == 0 then st.events == []
      else
        && st.known <= |s.texts| && st.events != []
        && st.events[|st.events| - 1] == Delivery(st.known, s.texts[st.known - 1])
  {
    if st.events != [] {
      assert Genuine(s.texts, st.events[|st.events| - 1]);
    }
  }

  /**
   * No lost wakeup: a stream asleep and not notified has sent its peer the latest
   * message, if there is one, and no shutdown is under way.
   */
  lemma {:induction false} NoLostWakeup(moves: seq<Move>, id: nat)
    requires Run(moves).Some? && id in Run(moves).value.streams
    requires Run(moves).value.streams[id].pc == Asleep(false)
    ensures Run(moves).value.store.version <= Run(moves).value.streams[id].known
    ensures !Run(moves).value.store.shuttingDown
    ensures var s, events := Run(moves).value, Run(moves).value.streams[id].events;
      if s.texts == [] then events == []
      else events != [] && events[|events| - 1] == Delivery(|s.texts|, s.texts[|s.texts| - 1])
  {
    WhatIsKnownIsSent(moves, id);
    RunInvariant(moves);
    assert StreamSound(Run(moves).value, Run(moves).value.streams[id]);
  }

  /** How many moves of its own a stream can still make once the store is shutting down. */
  function MovesLeft(pc: Pc): nat {
    match pc
    case Starting => 5
    case Sending(_) => 4
    case KeepingAlive => 4
    case Asleep(_) => 4
    case Waiting => 3
    case Returned(_) => 2
    case Ended => 0
  }

  /**
   * Shutdown reaches every stream, first half: once the store is shutting down,
   * a stream that has not ended can move on its own; none is stuck in its wait.
   */
  lemma {:induction false} ShutdownLeavesNoStreamStuck(moves: seq<Move>, id: nat)
    requires Run(moves).Some? && id in Run(moves).value.streams
    requires Run(moves).value.store.shuttingDown && !Run(moves).value.streams[id].pc.Ended?
    ensures Run(moves).value.streams[id].pc != Asleep(false)
    ensures exists m: Move :: OfStream(m) && m.id == id && Next(Run(moves).value, m).Some?
  {
    hide Increasing, Run;
    RunInvariant(moves);
    var s := Run(moves).value;
    var st := s.streams[id];
    assert StreamSound(s, st);
    var m :=
      match st.pc
      case Starting => Snapshot(id, true)
      case Sending(_) => SendEvent(id, true)
      case KeepingAlive => SendKeepAlive(id, true)
      case Asleep(_) => Wake(id)
      case Returned(_) => TestShutdown(id)
      case _ => Check(id, true);
    assert StreamMove(s, st, m).Some?;
    assert Next(s, m).Some?;
  }

  lemma {:induction false} OwnMoveShrinks(s: System, st: Stream, m: Move)
    requires s.requested && s.store.shuttingDown && StreamMove(s, st, m).Some?
    ensures MovesLeft(StreamMove(s, st, m).value.pc) < MovesLeft(st.pc)
  {
  }

  /**
   * Second half: each move of its own brings it closer to its end, and no move
   * of anyone else sets it back, so it makes at most five more moves.
   */
  lemma {:induction false} ShutdownEndsStreams(moves: seq<Move>, id: nat, m: Move)
    requires Run(moves).Some? && id in Run(moves).value.streams && Run(moves).value.store.shuttingDown
    requires Next(Run(moves).value, m).Some?
    ensures var s, s' := Run(moves).value, Next(Run(moves).value, m).value;
      s'.store.shuttingDown && id in s'.streams
      && if OfStream(m) && m.id == id then MovesLeft(s'.streams[id].pc) < MovesLeft(s.streams[id].pc)
         else MovesLeft(s'.streams[id].pc) == MovesLeft(s.streams[id].pc)
  {
    hide Run, StreamMove;
    RunInvariant(moves);
    var s := Run(moves).value;
    if OfStream(m) && m.id == id {
      EndedDoesNotMove(s, s.streams[id], m);
      assert StreamSound(s, s.streams[id]);
      OwnMoveShrinks(s, s.streams[id], m);
    }
  }

  /**
   * A stream that looks at the store gets the latest text, not just some newer
   * one, and once it has taken it nothing is outstanding.
   */
  lemma {:induction false} CheckTakesTheLatest(moves: seq<Move>, id: nat)
    requires Run(moves).Some? && id in Run(moves).value.streams
    requires Run(moves).value.streams[id].pc.Waiting? && Run(moves).value.store.initialized
    requires Run(moves).value.streams[id].known < |Run(moves).value.texts|
    ensures var s := Run(moves).value;
      var s' := Next(s, Check(id, true));
      s'.Some? && s'.value.streams[id].known == |s.texts|
      && s'.value.streams[id].pc == Returned(Some(Delivery(|s.texts|, s.texts[|s.texts| - 1])))
  {
    hide Increasing, StreamSound;
    RunInvariant(moves);
  }

  /** The peer has been sent the latest message. */
  predicate HasLatest(s: System, id: nat)
    requires id in s.streams
  {
    var events := s.streams[id].events;
    s.texts != [] && events != [] && events[|events| - 1] == Delivery(|s.texts|, s.texts[|s.texts| - 1])
  }

  function StepsBehind(pc: Pc): nat {
    match pc
    case Starting => 7
    case Returned(update) => if update.None? then 6 else 4
    case KeepingAlive => 5
    case Sending(_) => 3
    case Asleep(_) => 2
    case Waiting => 1
    case Ended => 0
  }

  /** The next move of a stream when nothing fails. */
  function OwnMove(id: nat, pc: Pc): Move {
    match pc
    case Starting => Snapshot(id, true)
    case Returned(_) => TestShutdown(id)
    case KeepingAlive => SendKeepAlive(id, true)
    case Sending(_) => SendEvent(id, true)
    case Asleep(_) => Wake(id)
    case _ => Check(id, true)
  }

  lemma {:induction false} OwnMoveCatchesUp(s: System, id: nat)
    requires Invariant(s) && id in s.streams && !s.streams[id].pc.Ended? && !HasLatest(s, id)
    requires !s.requested && s.store.initialized && s.texts != []
    ensures var s' := Next(s, OwnMove(id, s.streams[id].pc));
      && s'.Some? && s'.value == s.(streams := s'.value.streams)
      && id in s'.value.streams && !s'.value.streams[id].pc.Ended?
      && var st, st' := s.streams[id], s'.value.streams[id];
         st'.known > st.known || (st'.known == st.known && StepsBehind(st'.pc) < StepsBehind(st.pc))
  {
    hide Increasing, Genuine;
    var st := s.streams[id];
    assert StreamSound(s, st);
    if st.pc.Waiting? {
      KnownIsSent(s, st);
    }
  }

  /**
   * From every state of every run, as long as no shutdown is requested and its
   * connection holds, a stream that is behind sends its peer the latest message
   * by moves of its own, none of them a failure.
   */
  lemma {:induction false} CatchesUp(moves: seq<Move>, id: nat) returns (more: seq<Move>)
    requires Run(moves).Some? && id in Run(moves).value.streams && !Run(moves).value.streams[id].pc.Ended?
    requires !Run(moves).value.requested && Run(moves).value.store.initialized && Run(moves).value.texts != []
    ensures forall m <- more :: OfStream(m) && m.id == id
    ensures Run(moves + more).Some? && id in Run(moves + more).value.streams
    ensures Run(moves + more).value.texts == Run(moves).value.texts && HasLatest(Run(moves + more).value, id)
    decreases |Run(moves).value.texts| - Run(moves).value.streams[id].known,
      StepsBehind(Run(moves).value.streams[id].pc)
  {
    hide Invariant, Next, HasLatest;
    RunInvariant(moves);
    var s := Run(moves).value;
    if HasLatest(s, id) {
      more := [];
      assert moves + more == moves;
    } else {
      OwnMoveCatchesUp(s, id);
      var m := OwnMove(id, s.streams[id].pc);
      assert (moves + [m])[..|moves|] == moves;
      KnownIsBounded(moves, id);
      KnownIsBounded(moves + [m], id);
      var rest := CatchesUp(moves + [m], id);
      more := [m] + rest;
      assert moves + more == moves + [m] + rest;
    }
  }

  lemma {:induction false} KnownIsBounded(moves: seq<Move>, id: nat)
    requires Run(moves).Some? && id in Run(moves).value.streams
    ensures Run(moves).value.streams[id].known <= |Run(moves).value.texts|
  {
    RunInvariant(moves);
    assert StreamSound(Run(moves).value, Run(moves).value.streams[id]);
  }

  /** A wait that ends without news leads to a keep-alive, unless the server is shutting down. */
  lemma {:induction false} QuietStreamKeepsAlive(s: System, id: nat)
    requires id in s.streams && s.streams[id].pc == Returned(None) && !s.requested
    ensures var s' := Next(s, TestShutdown(id));
      s'.Some? && s'.value.streams[id] == s.streams[id].(pc := KeepingAlive)
    ensures forall m | OfStream(m) && m.id == id && Next(s, m).Some? :: m == TestShutdown(id)
  {
  }

  /** A new stream starts without having seen anything, and others stay as they are. */
  lemma {:induction false} StreamsAreTakenOn(s: System, id: nat)
    requires s.store.initialized && id !in s.streams
    ensures Next(s, Connect(id)) == Some(s.(streams := s.streams[id := Stream(Starting, 0, [])]))
  {
  }
}
