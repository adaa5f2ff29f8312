/**
 * The operating system as one thread sees it. Every call takes its outcome
 * from a finite script, which stands for all the environment may do: short
 * transfers, EINTR, errors, a closed connection. Every effect is an event in
 * the thread's trace.
 */
module Os {
  import opened Bytes

  datatype File = File(path: Text, content: Text)

  /** A file open for reading: what it holds, and the size `fstat` reported for it. */
  datatype Source = Source(path: Text, content: Text, size: nat)

  datatype Event =
    | Sent(bytes: Text)
    | Received(bytes: Text)
    | Opened(source: Source)
    | Created(path: Text)
    | NotCreated(path: Text, errno: Errno)
    | Wrote(bytes: Text)
    | Renamed(target: Text)
    | Unlinked(path: Text)
    | Stuck(path: Text)
    | Stored(text: Text)

  datatype Errno = EINTR | EINVAL | ENOSYS | ENOTSUP | EEXIST | EMFILE | ENFILE | OTHER

  /** One attempt to create a file exclusively. */
  datatype Attempt = Made(path: Text) | Missed(path: Text, errno: Errno)

  /** What a thread has done so far. */
  datatype History = History(
    sent: Text,                // bytes written to its socket
    recvd: Text,               // bytes read from its socket
    source: Option<Source>,    // the file it reads from
    tried: seq<Attempt>,       // its attempts to create a temporary file
    temp: Option<File>,        // the temporary file it created and still owns
    published: seq<File>,      // the files it renamed into place
    strays: seq<Text>,         // the paths it unlinked without owning them
    stuck: seq<Text>,          // the paths it failed to unlink
    stored: seq<Text>)         // the messages it put into the store

  const START: History := History([], [], None, [], None, [], [], [], [])

  function Step(h: History, e: Event): History {
    match e
    case Sent(bytes) => h.(sent := h.sent + bytes)
    case Received(bytes) => h.(recvd := h.recvd + bytes)
    case Opened(source) => h.(source := Some(source))
    case Created(path) => h.(tried := h.tried + [Made(path)], temp := Some(File(path, [])))
    case NotCreated(path, errno) => h.(tried := h.tried + [Missed(path, errno)])
    case Wrote(bytes) =>
      if h.temp.None? then h else h.(temp := Some(File(h.temp.value.path, h.temp.value.content + bytes)))
    case Renamed(target) =>
      if h.temp.None? then h
      else h.(temp := None, published := h.published + [File(target, h.temp.value.content)])
    case Unlinked(path) =>
      if h.temp.Some? && h.temp.value.path == path then h.(temp := None) else h.(strays := h.strays + [path])
    case Stuck(path) => h.(stuck := h.stuck + [path])
    case Stored(text) => h.(stored := h.stored + [text])
  }

  function Replay(trace: seq<Event>): History {
    if trace == [] then START else Step(Replay(trace[..|trace| - 1]), trace[|trace| - 1])
  }

  /** The attempts that succeeded are the `Created` events of the trace. */
  lemma {:induction false} MadeIsCreated(trace: seq<Event>)
    ensures (exists a <- Replay(trace).tried :: a.Made?) <==> (exists e <- trace :: e.Created?)
  {
    hide Step;
    if trace != [] {
      var n := |trace| - 1;
      MadeIsCreated(trace[..n]);
      assert trace == trace[..n] + [trace[n]];
      TriedGrows(Replay(trace[..n]), trace[n]);
      var before, after := Replay(trace[..n]).tried, Replay(trace).tried;
      assert forall e :: e in trace <==> e in trace[..n] || e == trace[n];
      assert forall a :: a in after <==> a in before || a in after[|before|..] by {
        assert after == before + after[|before|..];
      }
    }
  }

  lemma {:induction false} TriedGrows(h: History, e: Event)
    ensures h.tried <= Step(h, e).tried
    ensures (exists a <- Step(h, e).tried[|h.tried|..] :: a.Made?) <==> e.Created?
  {
    var more := Step(h, e).tried[|h.tried|..];
    if e.Created? {
      assert more == [Made(e.path)] && more[0] in more;
    } else if e.NotCreated? {
      assert more == [Missed(e.path, e.errno)];
    } else {
      assert more == [];
    }
  }

  /** A thread has at most one temporary file, and only writes and renames one it has. */
  predicate Enabled(h: History, e: Event) {
    && (e.Created? ==> h.temp.None?)
    && (e.Wrote? || e.Renamed? ==> h.temp.Some?)
  }

  /** The guarantee holds at every moment of the run, not only at its end. */
  ghost predicate Always(trace: seq<Event>, inv: History -> bool) {
    && (forall k | 0 <= k <= |trace| :: inv(Replay(trace[..k])))
    && (forall k | 0 <= k < |trace| :: Enabled(Replay(trace[..k]), trace[k]))
  }

  /** How one system call turns out: a byte count with the bytes that arrived, or an error. */
  datatype Outcome = Done(n: nat, bytes: Text) | Fails(errno: Errno)

  /** The outcome a script has next; when it has run out, the connection is lost for good. */
  function Head(script: seq<Outcome>): Outcome {
    if script == [] then Fails(OTHER) else script[0]
  }

  /** `open` and `fstat` find a regular file of this size; anything else counts as no such size. */
  predicate FindsRegular(o: Outcome) {
    o.Done? && o.n <= SIZE_MAX
  }

  function Rest(script: seq<Outcome>): seq<Outcome> {
    if script == [] then [] else script[1..]
  }

  /** What is left of a script after n outcomes. */
  function After(script: seq<Outcome>, n: nat): seq<Outcome> {
    if n == 0 then script else Rest(After(script, n - 1))
  }

  datatype Return = Count(n: nat) | Error(errno: Errno)

  /** An error that is no mere interruption, or nothing moved where something was to move. */
  predicate Wrong(r: Return, wanted: bool) {
    if r.Error? then r.errno != EINTR else r.n == 0 && wanted
  }

  /** The platform says it has no such call. */
  predicate IsUnsupported(e: Errno) {
    e == EINVAL || e == ENOSYS || e == ENOTSUP
  }

  /** An unsupported call is no fault as long as nothing has been moved with it. */
  predicate NoSuchCall(r: Return, first: bool) {
    first && r.Error? && IsUnsupported(r.errno)
  }

  /**
   * Interruptions are no faults, nor is a call that the platform does not have, as
   * long as nothing was moved with it.
   */
  lemma {:induction false} NoFault(e: Errno, wanted: bool)
    ensures !Wrong(Error(EINTR), wanted)
    ensures e in {EINVAL, ENOSYS, ENOTSUP} <==> NoSuchCall(Error(e), true)
    ensures Wrong(Count(0), true) && !NoSuchCall(Error(e), false)
  {
  }

  function Min(a: nat, b: nat): nat { if a < b then a else b }

  /** h after sending, and after receiving and writing to the temporary file. */
  ghost function AfterSending(h: History, bytes: Text): History {
    h.(sent := h.sent + bytes)
  }

  ghost function AfterReceiving(h: History, bytes: Text): History {
    h.(recvd := h.recvd + bytes)
  }

  ghost function AfterTransfer(h: History, got: Text, put: Text): History
    requires h.temp.Some?
  {
    h.(recvd := h.recvd + got, temp := Some(File(h.temp.value.path, h.temp.value.content + put)))
  }

  class Thread {
    var script: seq<Outcome>
    /** The bytes inside the pipe, while one is open. */
    var pipe: Option<Text>
    ghost var trace: seq<Event>
    /** Whether some call has gone wrong for good so far; see Wrong. */
    ghost var faulted: bool
    /** What this thread guarantees to the rest of the world after every event. */
    ghost const inv: History -> bool

    ghost function H(): History
      reads this
    {
      Replay(trace)
    }

    ghost predicate Valid()
      reads this
    {
      Always(trace, inv)
    }

    constructor (script: seq<Outcome>, ghost inv: History -> bool)
      requires inv(START)
      ensures Valid() && trace == [] && H() == START && pipe == None
      ensures this.script == script && this.inv == inv && !faulted
    {
      this.script, this.faulted := script, false;
      this.pipe := None;
      this.trace := [];
      this.inv := inv;
    }

    // -------------------------------------------------------------- leave to act

    /** The guarantee survives sending any part of data. */
    ghost predicate MaySend(data: Text)
      reads this
    {
      forall j | 0 <= j <= |data| :: inv(AfterSending(H(), data[..j]))
    }

    /** The guarantee survives receiving any n bytes. */
    ghost predicate MayReceive(n: nat)
      reads this
    {
      forall bs: Text | |bs| <= n :: inv(AfterReceiving(H(), bs))
    }

    /** The guarantee survives moving up to n bytes from the socket to the temporary file. */
    ghost predicate MayTransfer(n: nat)
      reads this
    {
      H().temp.Some? && forall got: Text, put: Text | |got| <= n && put <= got :: inv(AfterTransfer(H(), got, put))
    }

    ghost method Record(e: Event)
      requires Valid() && Enabled(H(), e) && inv(Step(H(), e))
      modifies this`trace
      ensures Valid() && trace == old(trace) + [e] && H() == Step(old(H()), e)
    {
      var before := trace;
      trace := trace + [e];
      assert trace[..|trace| - 1] == before;
      forall k | 0 <= k <= |trace| ensures inv(Replay(trace[..k])) {
        if k < |trace| {
          assert trace[..k] == before[..k];
        } else {
          assert trace[..k] == trace;
        }
      }
      forall k | 0 <= k < |trace| ensures Enabled(Replay(trace[..k]), trace[k]) {
        assert trace[..k] == before[..k];
        if k == |before| {
          assert before[..k] == before;
        }
      }
    }

    lemma {:induction false} SendingIsAllowed(data: Text)
      requires MaySend(data)
      ensures forall k: nat | k <= |data| ::
        inv(AfterSending(H(), data[..k])) && Enabled(H(), Sent(data[..k]))
        && Step(H(), Sent(data[..k])) == AfterSending(H(), data[..k])
    {
    }

    lemma {:induction false} ReceivingIsAllowed(want: nat, bytes: Text)
      requires MayReceive(want) && |bytes| <= want
      ensures inv(AfterReceiving(H(), bytes)) && Enabled(H(), Received(bytes))
      ensures Step(H(), Received(bytes)) == AfterReceiving(H(), bytes)
    {
    }

    method Next() returns (o: Outcome)
      modifies this`script
      ensures o == Head(old(script)) && script == Rest(old(script))
      ensures o != Fails(OTHER) ==> |script| < old(|script|)
      ensures |script| <= old(|script|)
    {
      o, script := Head(script), Rest(script);
    }

    // -------------------------------------------------------------- sockets

    method Send(data: Text) returns (r: Return)
      requires Valid() && MaySend(data)
      modifies this`script, this`faulted, this`trace
      ensures Valid()
      ensures r.Count? ==> r.n <= |data| && H() == AfterSending(old(H()), data[..r.n])
      ensures r.Error? ==> H() == old(H())
      ensures |script| <= old(|script|) && (r != Error(OTHER) ==> |script| < old(|script|))
      ensures faulted == (old(faulted) || Wrong(r, data != []))
    {
      var o := Next();
      if o.Fails? {
        r := Error(o.errno);
      } else {
        var k := Min(o.n, |data|);
        assert inv(AfterSending(H(), data[..k]));
        Record(Sent(data[..k]));
        r := Count(k);
      }
      faulted := faulted || Wrong(r, data != []);
    }

    method Recv(want: nat) returns (r: Return, bytes: Text)
      requires Valid() && MayReceive(want)
      modifies this`script, this`faulted, this`trace
      ensures Valid()
      ensures r.Count? ==> r.n == |bytes| <= want && H() == AfterReceiving(old(H()), bytes)
      ensures r.Error? ==> bytes == [] && H() == old(H())
      ensures |script| <= old(|script|) && (r != Error(OTHER) ==> |script| < old(|script|))
      ensures faulted == (old(faulted) || Wrong(r, want > 0))
    {
      bytes := [];
      var o := Next();
      if o.Fails? {
        r := Error(o.errno);
      } else {
        bytes := o.bytes[..Min(|o.bytes|, want)];
        assert inv(AfterReceiving(H(), bytes));
        Record(Received(bytes));
        r := Count(|bytes|);
      }
      faulted := faulted || Wrong(r, want > 0);
    }

    // -------------------------------------------------------------- files

    /** `sendfile` from an explicit offset of a file with the given content. */
    method SendFile(content: Text, offset: nat, want: nat) returns (r: Return)
      requires Valid() && offset <= |content|
      requires MaySend(content[offset..offset + Min(want, |content| - offset)])
      modifies this`script, this`faulted, this`trace
      ensures Valid()
      ensures r.Count? ==> r.n <= want && offset + r.n <= |content|
      ensures r.Count? ==> H() == AfterSending(old(H()), content[offset..offset + r.n])
      ensures r.Error? ==> H() == old(H())
      ensures |script| <= old(|script|) && (r != Error(OTHER) ==> |script| < old(|script|))
      ensures faulted == (old(faulted) || (Wrong(r, want > 0 && offset < |content|) && !NoSuchCall(r, offset == 0)))
    {
      hide Always, Enabled, Wrong, NoSuchCall;
      var available := content[offset..offset + Min(want, |content| - offset)];
      SendingIsAllowed(available);
      var o := Next();
      if o.Fails? {
        r := Error(o.errno);
      } else {
        var k := Min(o.n, |available|);
        assert available[..k] == content[offset..offset + k];
        Record(Sent(content[offset..offset + k]));
        r := Count(k);
      }
      faulted := faulted || (Wrong(r, want > 0 && offset < |content|) && !NoSuchCall(r, offset == 0));
    }

    /** `read` at the current position of a file with the given content. */
    method Read(content: Text, offset: nat, want: nat) returns (r: Return)
      requires offset <= |content|
      modifies this`script, this`faulted
      ensures r.Count? ==> r.n <= want && offset + r.n <= |content|
      ensures |script| <= old(|script|) && (r != Error(OTHER) ==> |script| < old(|script|))
      ensures faulted == (old(faulted) || (r.Error? || Wrong(r, want > 0 && offset < |content|)))
    {
      var o := Next();
      if o.Fails? {
        r := Error(o.errno);
      } else {
        r := Count(Min(Min(o.n, want), |content| - offset));
      }
      faulted := faulted || (r.Error? || Wrong(r, want > 0 && offset < |content|));
    }

    lemma {:induction false} WritingIsAllowed(data: Text)
      requires H().temp.Some? && forall j | 0 <= j <= |data| :: inv(AfterTransfer(H(), [], data[..j]))
      ensures forall k: nat | k <= |data| ::
        inv(AfterTransfer(H(), [], data[..k])) && Enabled(H(), Wrote(data[..k]))
        && Step(H(), Wrote(data[..k])) == AfterTransfer(H(), [], data[..k])
    {
      assert H().recvd + [] == H().recvd;
    }

    /** `write` to the temporary file. */
    method Write(data: Text) returns (r: Return)
      requires Valid() && H().temp.Some?
      requires forall j | 0 <= j <= |data| :: inv(AfterTransfer(H(), [], data[..j]))
      modifies this`script, this`faulted, this`trace
      ensures Valid()
      ensures r.Count? ==> r.n <= |data| && H() == AfterTransfer(old(H()), [], data[..r.n])
      ensures r.Error? ==> H() == old(H())
      ensures |script| <= old(|script|) && (r != Error(OTHER) ==> |script| < old(|script|))
      ensures faulted == (old(faulted) || Wrong(r, data != []))
    {
      hide Always, Enabled, Wrong;
      WritingIsAllowed(data);
      var o := Next();
      if o.Fails? {
        r := Error(o.errno);
      } else {
        var k := Min(o.n, |data|);
        Record(Wrote(data[..k]));
        r := Count(k);
      }
      faulted := faulted || Wrong(r, data != []);
    }

    // -------------------------------------------------------------- splice

    /** A splice from the socket straight to the file: without a pipe end it always fails. */
    method SpliceDirect() returns (e: Errno)
      modifies this`script, this`faulted
      ensures e != OTHER ==> |script| < old(|script|)
      ensures faulted == (old(faulted) || (e != EINTR && !IsUnsupported(e)))
    {
      var o := Next();
      e := if o.Fails? then o.errno else EINVAL;
      faulted := faulted || (e != EINTR && !IsUnsupported(e));
    }

    method OpenPipe() returns (r: Return)
      requires pipe == None
      modifies this`script, this`faulted, this`pipe
      ensures if r.Count? then pipe == Some([]) else pipe == None
      ensures |script| <= old(|script|)
      ensures faulted == (old(faulted) || r.Error?)
    {
      var o := Next();
      if o.Fails? {
        r := Error(o.errno);
      } else {
        pipe := Some([]);
        r := Count(0);
      }
      faulted := faulted || r.Error?;
    }

    method ClosePipe()
      requires pipe.Some?
      modifies this`pipe
      ensures pipe == None
    {
      pipe := None;
    }

    /** A splice from the socket into the pipe. */
    method SpliceIn(want: nat, ghost first: bool) returns (r: Return, ghost bytes: Text)
      requires Valid() && MayReceive(want) && pipe.Some?
      modifies this`script, this`faulted, this`trace, this`pipe
      ensures Valid() && pipe.Some?
      ensures r.Count? ==> r.n == |bytes| <= want && H() == AfterReceiving(old(H()), bytes)
      ensures r.Count? ==> pipe.value == old(pipe.value) + bytes
      ensures r.Error? ==> bytes == [] && H() == old(H()) && pipe == old(pipe)
      ensures |script| <= old(|script|) && (r != Error(OTHER) ==> |script| < old(|script|))
      ensures faulted == (old(faulted) || (Wrong(r, want > 0) && !NoSuchCall(r, first)))
    {
      hide Always, Enabled, Wrong, NoSuchCall;
      bytes := [];
      var o := Next();
      if o.Fails? {
        r := Error(o.errno);
      } else {
        var taken := o.bytes[..Min(|o.bytes|, want)];
        bytes := taken;
        ReceivingIsAllowed(want, bytes);
        Record(Received(bytes));
        pipe := Some(pipe.value + taken);
        r := Count(|taken|);
      }
      faulted := faulted || (Wrong(r, want > 0) && !NoSuchCall(r, first));
    }

    /** A splice from the pipe to the end of the temporary file. */
    method SpliceOut(want: nat) returns (r: Return)
      requires Valid() && pipe.Some? && want <= |pipe.value| && H().temp.Some?
      requires forall j | 0 <= j <= want :: inv(AfterTransfer(H(), [], pipe.value[..j]))
      modifies this`script, this`faulted, this`trace, this`pipe
      ensures Valid() && pipe.Some?
      ensures r.Count? ==> r.n <= want && H() == AfterTransfer(old(H()), [], old(pipe.value[..r.n]))
      ensures r.Count? ==> pipe.value == old(pipe.value)[r.n..]
      ensures r.Error? ==> H() == old(H()) && pipe == old(pipe)
      ensures |script| <= old(|script|) && (r != Error(OTHER) ==> |script| < old(|script|))
      ensures faulted == (old(faulted) || Wrong(r, want > 0))
    {
      hide Always, Enabled, Wrong;
      ghost var data := pipe.value[..want];
      assert forall k | 0 <= k <= want :: data[..k] == pipe.value[..k];
      WritingIsAllowed(data);
      var o := Next();
      if o.Fails? {
        r := Error(o.errno);
      } else {
        var k := Min(o.n, want);
        assert data[..k] == pipe.value[..k];
        Record(Wrote(pipe.value[..k]));
        pipe := Some(pipe.value[k..]);
        r := Count(k);
      }
      faulted := faulted || Wrong(r, want > 0);
    }

    // -------------------------------------------------------------- names in the file system

    /** `open(path, O_CREAT | O_EXCL)`: a name already taken is no fault until the `last` attempt. */
    method CreateExclusive(path: Text, ghost last: bool) returns (r: Return)
      requires Valid() && H().temp.None? && inv(Step(H(), Created(path)))
      requires forall e: Errno :: inv(Step(H(), NotCreated(path, e)))
      modifies this`script, this`faulted, this`trace
      ensures Valid() && script == Rest(old(script))
      ensures match Head(old(script))
        case Done(_, _) => r == Count(0) && H() == Step(old(H()), Created(path))
        case Fails(e) => r == Error(e) && H() == Step(old(H()), NotCreated(path, e))
      ensures faulted == (old(faulted) || (r.Error? && (last || r.errno != EEXIST)))
    {
      hide Always;
      var o := Next();
      if o.Fails? {
        Record(NotCreated(path, o.errno));
        r := Error(o.errno);
      } else {
        Record(Created(path));
        r := Count(0);
      }
      faulted := faulted || (r.Error? && (last || r.errno != EEXIST));
    }

    /** `rename` of the temporary file. */
    method Rename(target: Text) returns (ok: bool)
      requires Valid() && H().temp.Some? && inv(Step(H(), Renamed(target)))
      modifies this`script, this`faulted, this`trace
      ensures Valid()
      ensures H() == if ok then Step(old(H()), Renamed(target)) else old(H())
      ensures faulted == (old(faulted) || !ok)
    {
      var o := Next();
      ok := o.Done?;
      if ok {
        Record(Renamed(target));
      }
      faulted := faulted || !ok;
    }

    /** `fs_remove_ignore_error`: it may fail unnoticed. */
    method Remove(path: Text)
      requires Valid() && inv(Step(H(), Unlinked(path))) && inv(Step(H(), Stuck(path)))
      modifies this`script, this`faulted, this`trace
      ensures Valid()
      ensures H() == Step(old(H()), if Head(old(script)).Done? then Unlinked(path) else Stuck(path))
      ensures faulted == (old(faulted) || Head(old(script)).Fails?)
    {
      var o := Next();
      faulted := faulted || o.Fails?;
      if o.Done? {
        Record(Unlinked(path));
      } else {
        Record(Stuck(path));
      }
    }

    /** `open` and `fstat` of an existing file: a regular file is told from anything else, as the script says. */
    method OpenSource(path: Text) returns (r: Return, regular: bool, content: Text, size: nat)
      requires Valid()
      requires forall source: Source | source.path == path && source.size <= SIZE_MAX :: inv(Step(H(), Opened(source)))
      modifies this`script, this`faulted, this`trace
      ensures Valid() && size <= SIZE_MAX
      ensures r.Count? && regular ==> H() == Step(old(H()), Opened(Source(path, content, size)))
      ensures r.Error? || !regular ==> H() == old(H())
      ensures r.Error? <==> Head(old(script)).Fails?
      ensures regular <==> FindsRegular(Head(old(script)))
      ensures regular ==> content == Head(old(script)).bytes && size == Head(old(script)).n
      ensures faulted == (old(faulted) || r.Error?)
    {
      content, size, regular := [], 0, false;
      var o := Next();
      faulted := faulted || o.Fails?;
      if o.Fails? {
        return Error(o.errno), regular, content, size;
      }
      r, regular := Count(0), FindsRegular(o);
      if regular {
        content, size := o.bytes, o.n;
        assert inv(Step(H(), Opened(Source(path, content, size))));
        Record(Opened(Source(path, content, size)));
      }
    }

    /** A call that only succeeds or fails: `close`, `malloc`, `connect`. */
    method Try() returns (ok: bool)
      modifies this`script, this`faulted
      ensures |script| <= old(|script|)
      ensures faulted == (old(faulted) || !ok)
    {
      var o := Next();
      ok := o.Done?;
      faulted := faulted || !ok;
    }
  }
}
