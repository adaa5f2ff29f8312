/** The store of the latest message (src/message_store.c), one lock section at a time. */
module MessageStore {
  import opened Bytes
  import opened MessageTrim

  /** What the lock protects. */
  datatype State = State(message: Option<Text>, version: nat, initialized: bool, shuttingDown: bool)

  const FRESH: State := State(None, 0, true, false)

  /** The lock section of a set: the copy takes the place of the message. */
  function AfterReplace(s: State, copy: Text): State {
    s.(message := Some(copy), version := s.version + 1)
  }

  ghost function AfterSet(s: State, text: Text): State {
    AfterReplace(s, Trim(CString(text)))
  }

  function AfterShutdown(s: State): State {
    s.(shuttingDown := true)
  }

  function AfterCleanup(s: State): State {
    s.(shuttingDown := true, message := None, initialized := false)
  }

  /** While the store is in use there is a message exactly when something has been set. */
  ghost predicate Sound(s: State) {
    && (s.initialized ==> (s.version > 0 <==> s.message.Some?))
    && (s.message.Some? ==> NUL !in s.message.value)
  }

  /** What a waiter finds with the lock held: nothing newer than it knows, and no shutdown. */
  predicate MustSleep(s: State, known: nat) {
    s.version <= known && !s.shuttingDown
  }

  /** What it takes with it when it does not go to sleep, or its time is up. */
  function Newer(s: State, known: nat): Option<Text> {
    if s.version > known then s.message else None
  }

  /** What other threads may do to the store while a waiter has released the lock. */
  datatype Action = Publish(text: Text) | BeginShutdown

  ghost function AfterAction(s: State, a: Action): State {
    match a
    case Publish(text) => AfterSet(s, text)
    case BeginShutdown => AfterShutdown(s)
  }

  ghost function AfterActions(s: State, actions: seq<Action>): State {
    if actions == [] then s
    else AfterAction(AfterActions(s, actions[..|actions| - 1]), actions[|actions| - 1])
  }

  datatype Wake = Signalled | TimedOut | Broken

  /** One `pthread_cond_timedwait`: what happens meanwhile, and why it returns. */
  datatype Sleep = Sleep(during: seq<Action>, wake: Wake)

  /** Everything other threads do during the first sleeps. */
  function Meanwhile(sleeps: seq<Sleep>): seq<Action> {
    if sleeps == [] then [] else Meanwhile(sleeps[..|sleeps| - 1]) + sleeps[|sleeps| - 1].during
  }

  lemma {:induction false} ActionsConcat(s: State, a: seq<Action>, b: seq<Action>)
    ensures AfterActions(AfterActions(s, a), b) == AfterActions(s, a + b)
  {
    hide AfterAction;
    if b == [] {
      assert a + b == a;
    } else {
      var n := |b| - 1;
      ActionsConcat(s, a, b[..n]);
      assert (a + b)[..|a + b| - 1] == a + b[..n];
    }
  }

  lemma {:induction false} NoActions(s: State)
    ensures AfterActions(s, []) == s && Meanwhile([]) == []
  {
  }

  lemma {:induction false} OneMoreAction(s: State, actions: seq<Action>, n: nat)
    requires n < |actions|
    ensures AfterActions(s, actions[..n + 1]) == AfterAction(AfterActions(s, actions[..n]), actions[n])
  {
    assert actions[..n + 1][..n] == actions[..n];
  }

  lemma {:induction false} OneMoreSleep(s: State, sleeps: seq<Sleep>, n: nat)
    requires n < |sleeps|
    ensures AfterActions(AfterActions(s, Meanwhile(sleeps[..n])), sleeps[n].during)
         == AfterActions(s, Meanwhile(sleeps[..n + 1]))
  {
    assert sleeps[..n + 1][..n] == sleeps[..n];
    ActionsConcat(s, Meanwhile(sleeps[..n]), sleeps[n].during);
  }

  class Store {
    var message: Option<Text>
    var version: nat
    var initialized: bool
    var shuttingDown: bool

    ghost function View(): State
      reads this
    {
      State(message, version, initialized, shuttingDown)
    }

    /** The store before and after `message_store_init`. */
    constructor ()
      ensures View() == State(None, 0, false, false)
    {
      message, version, initialized, shuttingDown := None, 0, false, false;
    }

    method Init(primitivesOk: bool) returns (ok: bool)
      modifies this
      ensures ok <==> old(initialized) || primitivesOk
      ensures View() == if ok && !old(initialized) then FRESH else old(View())
    {
      if initialized {
        return true;
      }
      if !primitivesOk {
        return false;
      }
      message, version, shuttingDown, initialized := None, 0, false, true;
      ok := true;
    }

    /** `message_store_set`: trims, copies, publishes. */
    method Set(text: Text, heap: Heap) returns (ok: bool)
      requires Sound(View())
      modifies this, heap
      ensures Sound(View())
      ensures View() == if ok then AfterSet(old(View()), text) else old(View())
      ensures ok ==> message.Some? && Trimmed(CString(text), message.value) && version == old(version) + 1
      ensures !ok ==> !old(initialized) || heap.failed
      ensures ok ==> old(initialized) && heap.failed == old(heap.failed)
      ensures old(heap.failed) ==> heap.failed
    {
      if !initialized {
        return false;
      }
      var s := CString(text);
      var len := TrimLength(s);
      ok := heap.Request();
      if !ok {
        return;
      }
      TrimTakesEndings(s);
      Replace(s[..len], text);
    }

    /** The lock section of `message_store_set`. */
    method Replace(copy: Text, ghost text: Text)
      requires copy == Trim(CString(text))
      modifies this
      ensures View() == AfterSet(old(View()), text) && Sound(View()) && initialized == old(initialized)
    {
      hide Trim;
      message, version := Some(copy), version + 1;
    }

    /** `message_store_get_snapshot`: a copy of the message with its version. */
    method GetSnapshot(heap: Heap) returns (ok: bool, copy: Option<Text>, versionOut: nat)
      requires Sound(View())
      modifies heap
      ensures ok ==> initialized && copy == message && versionOut == version
      ensures ok ==> (copy.Some? <==> versionOut > 0)
      ensures !ok ==> !initialized || heap.failed
    {
      copy, versionOut := None, 0;
      if !initialized {
        return false, copy, versionOut;
      }
      versionOut := version;
      if message.Some? {
        ok := heap.Request();
        if !ok {
          return;
        }
        copy := message;
      }
      ok := true;
    }

    /** What the others do while the lock is free. */
    method LetOthersRun(actions: seq<Action>)
      requires Sound(View()) && initialized
      modifies this
      ensures Sound(View()) && initialized
      ensures View() == AfterActions(old(View()), actions)
    {
      hide AfterActions, AfterSet, Trim;
      NoActions(View());
      var i := 0;
      while i < |actions|
        invariant 0 <= i <= |actions| && Sound(View()) && initialized
        invariant View() == AfterActions(old(View()), actions[..i])
      {
        OneMoreAction(old(View()), actions, i);
        match actions[i] {
          case Publish(text) =>
            var s := CString(text);
            var len := TrimLength(s);
            Replace(s[..len], text);
          case BeginShutdown =>
            shuttingDown := true;
        }
        i := i + 1;
      }
      assert actions[..i] == actions;
    }

    /**
     * `message_store_wait_for_update`. `slept` counts the condition waits; when
     * the list of sleeps has run out the wait times out undisturbed. The waiter
     * sleeps exactly when it must: it begins each sleep with nothing to take, and
     * an answer is given only with nothing to wait for or on a timeout.
     */
    method WaitForUpdate(known: nat, sleeps: seq<Sleep>, heap: Heap)
      returns (ok: bool, copy: Option<Text>, versionOut: nat, ghost slept: nat)
      requires Sound(View())
      modifies this, heap
      ensures Sound(View()) && slept <= |sleeps|
      ensures View() == AfterActions(old(View()), Meanwhile(sleeps[..slept]))
      ensures ok ==> versionOut == version
      ensures ok ==> copy == Newer(View(), known)
      ensures ok ==> (copy.Some? <==> versionOut > known)
      ensures forall k | 0 <= k < slept :: MustSleep(AfterActions(old(View()), Meanwhile(sleeps[..k])), known)
      ensures forall k | 0 <= k < slept - 1 :: sleeps[k].wake == Signalled
      ensures ok && MustSleep(View(), known) ==>
        slept == |sleeps| || (slept > 0 && sleeps[slept - 1].wake == TimedOut)
      ensures !ok ==> !old(initialized) || heap.failed || (slept > 0 && sleeps[slept - 1].wake == Broken)
    {
      hide AfterActions, AfterSet, Meanwhile;
      copy, versionOut, slept := None, known, 0;
      NoActions(View());
      assert sleeps[..0] == [];
      if !initialized {
        return false, copy, versionOut, slept;
      }
      ghost var before := View();
      var next := 0;
      while version <= known
        invariant next <= |sleeps| && slept == next && Sound(View()) && initialized
        invariant View() == AfterActions(before, Meanwhile(sleeps[..next]))
        invariant forall k | 0 <= k < next :: MustSleep(AfterActions(before, Meanwhile(sleeps[..k])), known)
        invariant forall k | 0 <= k < next :: sleeps[k].wake == Signalled
        decreases |sleeps| - next
      {
        if shuttingDown {
          break;
        }
        if next == |sleeps| {
          break;
        }
        LetOthersRun(sleeps[next].during);
        OneMoreSleep(before, sleeps, next);
        next, slept := next + 1, next + 1;
        if sleeps[next - 1].wake == Broken {
          return false, copy, versionOut, slept;
        }
        if sleeps[next - 1].wake == TimedOut {
          break;
        }
      }
      versionOut := version;
      if version > known {
        ok := heap.Request();
        if !ok {
          return;
        }
        copy := message;
      }
      ok := true;
    }

    /** `message_store_shutdown`. */
    method Shutdown()
      requires Sound(View())
      modifies this
      ensures Sound(View())
      ensures View() == if old(initialized) then AfterShutdown(old(View())) else old(View())
    {
      if !initialized {
        return;
      }
      shuttingDown := true;
    }

    /** `message_store_cleanup`. */
    method Cleanup()
      requires Sound(View())
      modifies this
      ensures Sound(View())
      ensures View() == if old(initialized) then AfterCleanup(old(View())) else old(View())
    {
      if !initialized {
        return;
      }
      Shutdown();
      message := None;
      initialized := false;
    }
  }
}
