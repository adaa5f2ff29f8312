/**
 * The main thread, the connections and the event streams that some of them
 * serve, over one store. A stream lives inside the thread of its connection,
 * which closes its socket only once the stream has ended.
 */
module ServerStreams {
  import opened Bytes
  import Store = MessageStore
  import Server = ShutdownDrain
  import Streams = StreamSystem

  /** The streams are None until the store is initialised. */
  datatype System = System(server: Server.System, streams: Option<Streams.System>)

  datatype Move = Serve(serverMove: Server.Move) | Stream(streamMove: Streams.Move)

  const INITIAL: System := System(Server.INITIAL, None)

  /** The streams of a server that has moved: they see its store, and its broadcasts wake them. */
  function Seen(t: Streams.System, m: Server.Move, server: Server.System): Streams.System {
    Streams.System(
      server.store,
      if m.Publish? then t.texts + [m.text] else t.texts,
      server.requested,
      if m.Publish? || m.ShutStore? then Streams.Notified(t.streams) else t.streams)
  }

  /** The connection serves a stream that has not ended. */
  predicate Streaming(s: System, id: nat) {
    s.streams.Some? && id in s.streams.value.streams && !s.streams.value.streams[id].pc.Ended?
  }

  /** A move of the server; the clean-up of the store asks nothing of the streams. */
  function AfterServe(s: System, m: Server.Move): Option<System> {
    match Server.Next(s.server, m)
    case None => None
    case Some(server) =>
      if m.CloseSocket? && Streaming(s, m.id) then None
      else if m.InitStore? && m.ok then
        Some(System(server, Some(Streams.INITIAL.(requested := server.requested))))
      else
        match s.streams
        case None => Some(System(server, None))
        case Some(t) => Some(System(server, Some(Seen(t, m, server))))
  }

  /** A move of a stream, or a new stream on a connection that is being served. */
  function AfterStream(s: System, m: Streams.Move): Option<System> {
    if s.streams.None? then None
    else if m.Connect? && !(m.id in s.server.conns && s.server.conns[m.id] == Server.Handling) then None
    else if !m.Connect? && !Streams.OfStream(m) then None
    else
      match Streams.Next(s.streams.value, m)
      case None => None
      case Some(t) => Some(s.(streams := Some(t)))
  }

  function Next(s: System, m: Move): Option<System> {
    match m
    case Serve(m) => AfterServe(s, m)
    case Stream(m) => AfterStream(s, m)
  }

  function Run(moves: seq<Move>): Option<System> {
    if moves == [] then Some(INITIAL)
    else
      match Run(moves[..|moves| - 1])
      case None => None
      case Some(s) => Next(s, moves[|moves| - 1])
  }

  // ---------------------------------------------------------------- the invariant

  predicate StreamsFit(s: System, t: Streams.System) {
    && t.store == s.server.store && t.requested == s.server.requested
    && forall id <- t.streams | !t.streams[id].pc.Ended? ::
         id in s.server.conns && s.server.conns[id] == Server.Handling
  }

  /** The main thread is past `message_store_shutdown` and has not begun to clean up. */
  predicate StoreIsDown(m: Server.Main) {
    m.StoreDown? || m.TrackerDown? || m.Asleep?
  }

  predicate Invariant(s: System) {
    && Server.Invariant(s.server)
    && (s.server.main.Closing? ==> s.server.requested)
    && (StoreIsDown(s.server.main) ==> s.server.store.shuttingDown)
    && (s.server.main.Starting? ==> s.streams.None?)
    && (s.streams.Some? ==> StreamsFit(s, s.streams.value))
  }

  /** The move of the streams' own system that a move of the server is, if it is one. */
  function AsStreamMove(s: Server.System, m: Server.Move): Option<Streams.Move> {
    match m
    case Signal => Some(Streams.RequestShutdown)
    case Listen(ok) => if ok then None else Some(Streams.RequestShutdown)
    case ShutStore => Some(Streams.StoreShutdown)
    case CleanStore => if s.store.initialized then Some(Streams.StoreCleanup) else None
    case Publish(_, text) => Some(Streams.Publish(text))
    case _ => None
  }

  /** Where the store is cleaned up, no connection is left, and so no stream. */
  lemma {:induction false} NoStreamWhenDrained(s: System)
    requires Invariant(s) && s.streams.Some? && Server.Drained(s.server.main)
    ensures forall id <- s.streams.value.streams :: s.streams.value.streams[id].pc.Ended?
  {
    var t := s.streams.value;
    forall id <- t.streams ensures t.streams[id].pc.Ended? {
      assert id !in Server.Live(s.server);
    }
  }

  /** What a move of the server does to the streams is a move of theirs, or nothing. */
  lemma {:induction false} ServeIsAStreamMove(s: System, m: Server.Move)
    requires Invariant(s) && AfterServe(s, m).Some? && s.streams.Some? && !m.InitStore?
    ensures AfterServe(s, m).value.streams.Some?
    ensures match AsStreamMove(s.server, m)
      case None => AfterServe(s, m).value.streams == s.streams
      case Some(e) => Streams.Next(s.streams.value, e) == AfterServe(s, m).value.streams
  {
    hide Server.Live, Streams.Notified;
    if m.CleanStore? {
      NoStreamWhenDrained(s);
    }
  }

  lemma {:induction false} ServeKeeps(s: System, m: Server.Move)
    requires Invariant(s) && AfterServe(s, m).Some?
    ensures Invariant(AfterServe(s, m).value)
  {
    hide Server.Invariant, StreamsFit;
    Server.NextKeeps(s.server, m);
    MainKnows(s.server, m);
    if AfterServe(s, m).value.streams.Some? {
      StillHandled(s, m);
    }
  }

  lemma {:induction false} MainKnows(s: Server.System, m: Server.Move)
    requires Server.Next(s, m).Some? && Server.Invariant(s) && (s.main.Closing? ==> s.requested)
    requires StoreIsDown(s.main) ==> s.store.shuttingDown
    ensures var s' := Server.Next(s, m).value;
      && (s'.main.Closing? ==> s'.requested) && (StoreIsDown(s'.main) ==> s'.store.shuttingDown)
      && (s'.main.Starting? ==> s.main.Starting? && !m.InitStore?)
  {
  }

  /** Only the end of its handler takes a connection from being served. */
  lemma {:induction false} ServedUntilClosed(s: Server.System, m: Server.Move, id: nat)
    requires Server.Next(s, m).Some? && Server.Invariant(s) && id in s.conns && s.conns[id] == Server.Handling
    requires m != Server.CloseSocket(id)
    ensures var s' := Server.Next(s, m).value;
      id in s'.conns && s'.conns[id] == Server.Handling
  {
  }

  /** A move of the server takes the connection from no stream that has not ended. */
  lemma {:induction false} StillHandled(s: System, m: Server.Move)
    requires Invariant(s) && AfterServe(s, m).Some? && AfterServe(s, m).value.streams.Some?
    ensures StreamsFit(AfterServe(s, m).value, AfterServe(s, m).value.streams.value)
  {
    hide Server.Invariant, Server.Next;
    var s' := AfterServe(s, m).value;
    var t' := s'.streams.value;
    assert m.InitStore? && m.ok ==> s'.server.store == Store.FRESH by {
      InitGivesFresh(s.server, m);
    }
    forall id <- t'.streams | !t'.streams[id].pc.Ended?
      ensures id in s'.server.conns && s'.server.conns[id] == Server.Handling
    {
      assert Streaming(s, id);
      ServedUntilClosed(s.server, m, id);
    }
  }

  lemma {:induction false} InitGivesFresh(s: Server.System, m: Server.Move)
    requires Server.Next(s, m).Some?
    ensures m.InitStore? && m.ok ==> Server.Next(s, m).value.store == Store.FRESH
  {
  }

  lemma {:induction false} StreamKeeps(s: System, m: Streams.Move)
    requires Invariant(s) && AfterStream(s, m).Some?
    ensures Invariant(AfterStream(s, m).value)
  {
    hide Server.Invariant, Streams.TakeUpdate;
    var t, t' := s.streams.value, AfterStream(s, m).value.streams.value;
    assert t'.store == t.store && t'.requested == t.requested;
    forall id <- t'.streams | !t'.streams[id].pc.Ended?
      ensures id in s.server.conns && s.server.conns[id] == Server.Handling
    {
      assert id in t.streams ==> !t.streams[id].pc.Ended?;
    }
  }

  // ---------------------------------------------------------------- both systems are what they were

  /**
   * Every run of the whole is a run of `ShutdownDrain` and, from the moment the
   * store is there, one of `StreamSystem`: the condition under which the latter
   * allows the store's clean-up always holds when the main thread comes to it.
   */
  lemma {:induction false} BothAreRuns(moves: seq<Move>)
    returns (server: seq<Server.Move>, streams: seq<Streams.Move>)
    requires Run(moves).Some?
    ensures Invariant(Run(moves).value)
    ensures Server.Run(Server.INITIAL, server) == Some(Run(moves).value.server)
    ensures Run(moves).value.streams.Some? ==> Streams.Run(streams) == Run(moves).value.streams
  {
    hide Invariant, AfterServe, AfterStream, Server.Next, Streams.Next;
    if moves == [] {
      Start();
      return [], [];
    }
    var n := |moves| - 1;
    var s := Run(moves[..n]).value;
    server, streams := BothAreRuns(moves[..n]);
    match moves[n] {
      case Stream(m) =>
        StreamKeeps(s, m);
        StreamGoesOn(s, m, streams);
        streams := streams + [m];
      case Serve(m) =>
        ServeKeeps(s, m);
        ServerGoesOn(s, m, server);
        server := server + [m];
        streams := StreamsGoOn(s, m, streams);
    }
  }

  lemma {:induction false} Start()
    ensures Invariant(INITIAL) && Server.Run(Server.INITIAL, []) == Some(Server.INITIAL)
  {
    assert Server.Run(Server.INITIAL, []).Some?;
    Server.Reachable([]);
  }

  lemma {:induction false} ServerGoesOn(s: System, m: Server.Move, server: seq<Server.Move>)
    requires Server.Run(Server.INITIAL, server) == Some(s.server) && AfterServe(s, m).Some?
    ensures Server.Run(Server.INITIAL, server + [m]) == Some(AfterServe(s, m).value.server)
  {
    hide Server.Next;
    assert (server + [m])[..|server|] == server;
  }

  lemma {:induction false} StreamGoesOn(s: System, m: Streams.Move, streams: seq<Streams.Move>)
    requires AfterStream(s, m).Some? && (s.streams.Some? ==> Streams.Run(streams) == s.streams)
    ensures Streams.Run(streams + [m]) == AfterStream(s, m).value.streams
    ensures AfterStream(s, m).value.server == s.server
  {
    hide Streams.Next;
    assert (streams + [m])[..|streams|] == streams;
  }

  lemma {:induction false} StreamsGoOn(s: System, m: Server.Move, streams: seq<Streams.Move>)
    returns (more: seq<Streams.Move>)
    requires Invariant(s) && AfterServe(s, m).Some? && (s.streams.Some? ==> Streams.Run(streams) == s.streams)
    ensures AfterServe(s, m).value.streams.Some? ==> Streams.Run(more) == AfterServe(s, m).value.streams
  {
    more := streams;
    if m.InitStore? && m.ok {
      more := if s.server.requested then [Streams.RequestShutdown] else [];
      assert [Streams.RequestShutdown][..0] == [];
    } else if s.streams.Some? {
      assert !m.InitStore?;
      ServeIsAStreamMove(s, m);
      var e := AsStreamMove(s.server, m);
      if e.Some? {
        more := streams + [e.value];
        assert more[..|streams|] == streams;
      }
    }
  }

  // ---------------------------------------------------------------- what it means

  /** The store is cleaned up only when every stream there has been has ended. */
  lemma {:induction false} CleanupFindsNoStream(moves: seq<Move>)
    requires Run(moves).Some? && Run(moves).value.streams.Some?
    requires AfterServe(Run(moves).value, Server.CleanStore).Some? || Run(moves).value.server.main.Finished?
    ensures var t := Run(moves).value.streams.value;
      forall id <- t.streams :: t.streams[id].pc.Ended?
  {
    hide Invariant;
    var _, _ := BothAreRuns(moves);
    var s := Run(moves).value;
    assert Server.Drained(s.server.main);
    NoStreamWhenDrained(s);
  }

  /**
   * No shutdown is stuck, with streams under way or not: before its end either the
   * server can take a step towards it, or a stream that keeps a connection from
   * closing has a move of its own.
   */
  lemma {:induction false} NothingIsStuck(moves: seq<Move>) returns (m: Move)
    requires Run(moves).Some? && Run(moves).value.server.requested && !Run(moves).value.server.main.Finished?
    ensures Next(Run(moves).value, m).Some?
    ensures match m
      case Serve(e) => !Server.Idles(Run(moves).value.server, e)
      case Stream(e) => Streams.OfStream(e) && Run(moves).value.server.main.Asleep? && Streaming(Run(moves).value, e.id)
  {
    hide Server.Invariant, Server.Next, Server.Idles, Streams.Next, StreamsFit;
    var _, run := BothAreRuns(moves);
    var s := Run(moves).value;
    var e := Server.SomeStep(s.server);
    if e.CloseSocket? && Streaming(s, e.id) {
      var id := e.id;
      assert s.server.main == Server.Asleep(false);
      assert s.streams.value.store == s.server.store by {
        StoreIsShared(s);
      }
      Streams.ShutdownLeavesNoStreamStuck(run, id);
      var own: Streams.Move :| Streams.OfStream(own) && own.id == id && Streams.Next(s.streams.value, own).Some?;
      m := Stream(own);
    } else {
      m := Serve(e);
    }
  }

  lemma {:induction false} StoreIsShared(s: System)
    requires Invariant(s) && s.streams.Some?
    ensures s.streams.value.store == s.server.store
  {
  }
}
