# HFile: a verified model

HFile moves files and text messages between machines over one TCP port, which
speaks a binary transfer protocol and HTTP. This project models, in Dafny, the
parts of it that can go wrong in interesting ways, and proves what they
guarantee.

## How the model is built

* **One thread and the operating system** (`Os`, `NetIo`, `ProtocolIo`,
  `TransferIo`). A thread makes system calls whose outcomes come from a finite
  script: short transfers, EINTR, errors, a lost connection, refused memory.
  Every effect is an event in the thread's trace, and a thread is created with a
  promise, a predicate on its history, that must hold after *every* event. A
  method may only send, receive, create, write, rename or unlink when the
  promise survives every outcome the call can have. The history also records
  every attempt to make a file. `Thread.faulted` tells whether some call has gone
  wrong for good; a taken name is no fault while another is left. Contracts say
  that an operation fails only after a fault or for a cause that can be named,
  so that doing nothing is no way to meet them.
* **Server and client** (`ServerContract`, `ServerUpload`, `ServerDownload`,
  `Server`, `ClientContract`, `Client`, `ClientFetch`). The handlers of the
  source, as methods with the source's branches, are proved to keep
  `ServerGuarantee`, `UploadClient`, `MessageClient` and `FetchClient` at every
  event of every run. The guarantees tie each byte sent to what has been
  received and to what is on disk by then; they are written without reference
  to the code.
* **Both together** (`Session`, `EndToEnd`). A run is any interleaving of a
  client trace and a server trace in which each side has received a first part
  of what the other has sent. Exit code 0, a published file, a broken download:
  each is shown to say something definite about the other side. `FaultFree`
  gives, for every acceptable upload, a run that succeeds, and shows that every
  upload, download and message without faults does.
* **Many uploads, one disk** (`Publication`, `ServerConflict`). Names, inodes and
  descriptors, exclusive creation and rename by name; any number of server
  threads in any order. Over runs of connections that keep the server's
  guarantee uploads are atomic exactly when no target is a temporary name of a
  target; the run of two connections that goes wrong otherwise is given whole.
* **The concurrent server** (`ConnTracker`, `ShutdownDrain`, `MessageStore`,
  `StreamSystem`). The tracker is the linked list of the source, the store is
  its global state; each method is proved against a function on what its lock
  protects, and the two transition systems interleave these functions freely:
  accepting, serving, waiting, spurious wakeups, timeouts and shutdown, which
  must complete: every step lowers a bound, and before the end one is possible.
  `ServerStreams` puts the two together over one store.
* **The text pipeline** (`Utf8`, `Utf8Stream`, `MessageTrim`, `JsonString`,
  `EventStream`, `HttpBuffer`, `MessagePipeline`). The byte loops of the source
  against the definitions of RFC 3629, RFC 8259 section 7 and the WHATWG HTML
  standard sections 9.2.5 and 9.2.6, with the decoding of ill-formed UTF-8 that
  the latter asks for.
* **Paths and frames** (`Paths`, `PathLaws`, `Listing`, `Wire`): validation, joining, temporary names,
  percent-encoding (RFC 3986 section 2.1), the targets of listing and download
  requests, headers, frames and prefixes.
* **Bytes** (`WireBytes`, `TextLaws`, and a section in most other modules). Guarantees
  and handlers share the functions that say what a frame, a path, an escape or a
  white-space character is. These functions are pinned from outside, in literal
  bytes: which requests get which answer, where a joined path lies, which
  endings a trim takes away, what each argument means.
* **Smaller parsers** (`CommandLine`, `DaemonState`): the argument parser against
  an order-free meaning of its flags, and the state file's printer and parser.

Code that updates state in place is a class or a method with loops and
invariants; pure checks and formats are functions. Bytes are integers from 0 to
255, texts are sequences of them, and a C string is what comes before the first
NUL. `Bytes.Heap` is an allocator that may refuse any request.

Properties one might expect, and which turn out to hold only under a condition,
each with its exact condition and, where it is not plain, an input that fails:

* Uploads are atomic if and only if no target is a temporary name of a target
  (`ServerConflict.AtomicExactlyWhenSeparate`, `ConflictPublishesTheWrongBytes`,
  `ConflictingNamesExist`).
* The event stream delivers its messages if and only if they are UTF-8 and free
  of CR (`EventStream.RoundTripExactly`, `ByteThatIsNoText`).
* A listed path can be fetched, by some request, if and only if the entry's name
  has no backslash, the listed directory no trailing slash, and the path with
  what must be escaped in it fits a request's target of 1023 bytes; the condition
  on one encoding, and on the page's own link, is stated likewise
  (`Listing.SomeEncodingReaches`, `ListingAndDownloadAgree`, `PageLinkWorks`,
  `ListedAndOutOfReach`).
* The order of the arguments makes no difference if and only if there is a
  control command, or a rule of use is broken, or the ports agree and the
  addresses agree
  (`CommandLine.OrderMattersExactly`, `RepeatedPortsDependOnOrder`).
* A state file is read back if and only if its texts hold no line end
  (`DaemonState.RoundTripExactly`).
* A client unlinks a path it did not make if and only if it took up the offer,
  could make no temporary file, and the unlink of the last name it tried
  succeeds (`StraysExactly`, ensured by `ClientFetch.GetFile`; the run is
  `ClientFetch.WholeRunToAStray`).

## Model

| member | source | states |
|---|---|---|
| `EndToEnd.UploadReachesTheDisk` | src/client.c:403-503 | In every run of a client and a server, cut off anywhere: at the moment the client may report exit code 0 the server has already renamed into place a file with exactly the bytes the client read; its path continues the base directory's, and wherever the base leads, it leads one step on, to the name. |
| `EndToEnd.OnlyWholeUploadsArePublished` | src/server.c:403-491 | Whatever happens to the connection or the client, the only file a server publishes for this client is the whole source file, one step below the base; a broken upload publishes nothing. |
| `EndToEnd.NoBodyBeforeReady` | src/client.c:479-488 | In every run, once a byte of the body has left the client, the server has sent all of READY OK. |
| `EndToEnd.DownloadIsTheServersFile` | src/client.c:591-648 | In every run, a file the client has renamed into place is where the user said, or else under the name asked for; it is exactly the content_size bytes of the file the server opened one step below the base, and the server has sent all of them and FINAL OK. |
| `EndToEnd.CutDownloadIsNeverPublished` | src/server.c:579-603 | When the server's file is shorter than announced, FINAL FAILED falls inside the expected body; the client never publishes, even though it may have taken the frame's bytes for content. |
| `EndToEnd.BodyIsWhole` | src/server.c:598-603 | The counting argument: a reply that ends early is too short to hold a full body and a frame after it, so whoever reads both has the whole file. |
| `EndToEnd.MessageIsStored` | src/client.c:505-541 | In every run, at the moment the client may report exit code 0 the server has handed its store this very message, and this connection no other and not twice; the store trims it, and later messages may take its place. |
| `EndToEnd.FinalOkIsNoFailure` | src/protocol.c:20-41 | No text that starts with FINAL OK is a part of any FINAL FAILED frame. |
| `EndToEnd.UploadOutcome` | src/server.c:461-477 | FINAL OK, or any published file, implies that exactly size bytes of content were published under the joined path. |
| `Server.HandleProtocolConnection` | src/server.c:217-250 | The guarantee of a connection holds after every event of every run: silence before a header is accepted, then the replies and effects of its kind only; the store has changed by exactly the messages the trace records; and a run without faults ends in the one answer its request calls for. |
| `WireBytes.NoHeaderNoAnswer` | src/server.c:217-250 | Anything that does not start with magic, version, one of three kinds and no flags gets no answer and has no effect. |
| `Server.HandleTextMessage` | src/server.c:333-388 | Success exactly when the message is stored; one FINAL frame, OK only after the store; without faults, FINAL FAILED "too large" exactly above 256 KiB and FINAL OK otherwise. |
| `WireBytes.MessageAnswered` | src/server.c:333-388 | A message of up to 262144 bytes is stored and answered with 01 00 00 00, a larger one is answered with 01 02 00 0D unread. |
| `Server.ReceiveMessage` | src/server.c:350-377 | All of the announced bytes are received and submitted, or the store is unchanged and there was a fault. |
| `Server.SubmitMessage` | src/app_service.c:11-26 | Too large exactly when the C string exceeds 262144 bytes; otherwise stored without the white space at its end, or failed for want of memory or an uninitialised store. |
| `ServerUpload.HandleFileTransfer` | src/server.c:403-491 | Keeps the upload guarantee at every event; success only with READY OK and FINAL OK sent and the file published; without faults the received prefix alone decides between silence, the rejection with its reason, FINAL FAILED and publication. |
| `WireBytes.UploadAnswered` | src/server.c:403-491 | For every request, byte by byte: a fault-free connection refuses names and sizes with 00 01 00 and the reason, fails for want of room, or publishes the content below the base and sends 00 00 00 00 01 00 00 00. |
| `WireBytes.ShortUploadAnswered` | src/server.c:416-424 | A payload size too small for any prefix is refused unread. |
| `WireBytes.BadLengthAnswered` | src/protocol.c:202-269 | A name announced with no length or one over 255 is read no further: an upload gets no answer, a download is refused for that reason. |
| `ServerUpload.ReceiveAccepted` | src/server.c:454-480 | After acceptance: READY OK, body, publication, and a final frame that agrees with whether it was published. |
| `ServerUpload.MayConclude` | src/server.c:464-477 | The final frame that agrees with the outcome, and any first part of it, keeps the guarantee. |
| `ServerUpload.MayRefuse` | src/server.c:482-486 | A READY REJECTED frame with the reason the received prefix gives keeps the guarantee in any first part. |
| `ServerDownload.HandleGetFile` | src/server.c:493-617 | Keeps the download guarantee at every event; success means READY OK, prefix, all content_size bytes of the opened file and FINAL OK were sent; without faults the request and the file alone decide which rejection or reply is sent. |
| `WireBytes.DownloadAnswered` | src/server.c:493-617 | For every request, byte by byte: refused with the reason, or READY OK, the prefix, all there is of the file one step below the base, and the frame that tells the truth about it. |
| `ServerDownload.PrepareDownload` | src/app_service.c:57-113 | Opens the file exactly when the joined path is valid and fits and `open` and `fstat` find a regular file; invalid argument exactly for a path that does not join or something that is no regular file, I/O error exactly when a call fails, and then no trace. |
| `ServerDownload.SendDownload` | src/server.c:548-603 | After a short or failed body the reply goes on with FINAL FAILED, after a complete one with FINAL OK, and never otherwise. |
| `ServerDownload.BodyPart` | src/server.c:579-603 | Any first part of the body, followed by a part of the final frame that fits it, is a reply the guarantee allows. |
| `Client.SendFileRaw` | src/client.c:403-503 | Keeps the client's upload guarantee at every event; exit code 0 only when header, prefix and all content_size bytes were sent and READY OK and FINAL OK, and nothing else, were received; without faults it gives up only for a cause it can name. |
| `WireBytes.UploadLeadIs` | src/client.c:447-478 | The bytes of header and prefix of an upload. |
| `WireBytes.ClientLimits` | src/client.c:403-478 | Nothing is sent of a name, file or message past the limits, and no download past them is begun. |
| `Client.SendMessage` | src/client.c:505-541 | Keeps the message guarantee at every event; exit code 0 only when all was sent and FINAL OK, and nothing else, was received; without faults it gives up only on a message too large or another answer. |
| `WireBytes.MessageLeadIs` | src/client.c:505-541 | The bytes of a message. |
| `Client.SendHeaderPayload` | src/client.c:205-254 | Sends header and payload as one stream, in one send or two; success exactly when all of it went out. |
| `ClientFetch.GetFile` | src/client.c:543-662 | Keeps the download guarantee at every event; exit code 0 exactly when the file was renamed into place, and then what was received is READY OK, prefix, exactly that content and FINAL OK, and the file is where the user said or else under the offered name; without faults it gives up only for a cause; a path the client did not make is unlinked if and only if the offer was taken up, no attempt made a file and that unlink succeeds, and then it is the last candidate, once. |
| `WireBytes.RequestLeadIs` | src/client.c:559-588 | The bytes of a download request. |
| `ClientFetch.OpenTempDownload` | src/client.c:352-383 | Makes exactly the attempts the system calls allow, in order: the next name after EEXIST, no more after success or another error; the buffer ends up with the last candidate, cut off if it was too long; EEXIST is no fault while a name is left. |
| `ClientFetch.ReceiveBody` | src/client.c:385-401 | The temporary file holds a prefix of what was received; success means exactly content_size bytes, all written. |
| `ClientFetch.Commit` | src/client.c:638-648 | The rename happens only after FINAL OK, and publishes exactly the body. |
| `ClientFetch.ReceiveAndCommit` | src/client.c:625-648 | Success exactly with the whole body and FINAL OK in, and the body renamed into place; otherwise the temporary file holds a prefix of the body, and without faults the reason is another final frame. |
| `ClientFetch.CleanUp` | src/client.c:650-656 | The candidate left in the buffer is unlinked: the client's own file, or, when it made none, whatever is there under that name. |
| `ClientFetch.FetchOffered` | src/client.c:619-662 | Exit code 0 exactly on publication. When an attempt has made a file, nothing but that file is ever unlinked; when none has, the last candidate is, whoever made it, unless the unlink itself fails. |
| `ClientFetch.UnlinkTheFileOfAnother` | src/client.c:352-383 | With three names taken and an unlink that succeeds, the download code does unlink the third of them, a file it found and did not make. |
| `ClientFetch.WholeRunToAStray` | src/client.c:543-662 | The same as a whole run from the first byte, for every remote name, offer and target: it keeps the download guarantee and ends with one stray. |
| `ClientContract.NoStraysBesideOwnFile` | src/client.c:650-656 | At every event of every download: a client that has made or published a file of its own has unlinked no other path, and no client ever unlinks two. |
| `TransferIo.ReceiveFile` | src/transfer_io.c:168-277 | For protocol and HTTP uploads: at every moment the only file touched is one of the target's own temporary files, holding a prefix of what was received; success exactly when all size bytes were published in one rename; only an own temporary file is removed, and one is left over only when unlinking it failed; without faults it fails only for want of room for the path, having done nothing. |
| `TransferIo.PrepareOutput` | src/transfer_io.c:86-132 | Makes exactly the attempts the system calls allow; with room for the paths it ends with a temporary file that did not exist before, or with every attempt failed; without room it does nothing. It is faulted only when it gives up. |
| `TransferIo.MakeTemp` | src/transfer_io.c:112-131 | The retry loop: one name after the other while the answer is EEXIST, at most three, success exactly when the last one tried was made. |
| `TransferIo.AttemptsAre` | src/transfer_io.c:112-131 | For every script of outcomes the attempts are the target's temporary names in order, each after an EEXIST; where there is room they end in success or with nothing left to try. |
| `TransferIo.FinalizeOutput` | src/transfer_io.c:134-166 | Success exactly when the temporary file was renamed to the target. |
| `TransferIo.AfterPublishing` | src/transfer_io.c:159-165 | The rename of a complete file is the one step that changes what is published, and adds exactly the received content. |
| `NetIo.SendAll` | src/net.c:35-68 | Every byte once and in order, over short sends and EINTR; all of them exactly when the full count is returned. |
| `NetIo.RecvAll` | src/net.c:70-96 | Exactly the bytes that arrived, in order; all of them exactly when the full count is returned. |
| `NetIo.SendFileAll` | src/net.c:256-338 | A prefix of the file is sent; "unsupported" only while nothing has been sent; success exactly at content_size bytes. |
| `NetIo.SendFileBuffered` | src/net.c:340-386 | The same by chunks. |
| `NetIo.SendFileBestEffort` | src/net.c:388-397 | Zero-copy with fallback sends each byte once and in order; success exactly at content_size bytes, and never "unsupported". |
| `NetIo.RecvFileAll` | src/net.c:399-506 | Socket to file through a pipe: the file gets a prefix of what was taken, each byte once; "unsupported" only while nothing has been taken; success exactly at content_size; every exit has closed the pipe. |
| `NetIo.DrainPipe` | src/net.c:468-491 | All bytes in the pipe reach the file, or the rest is reported lost. |
| `NetIo.RecvFileBuffered` | src/net.c:508-576 | The same by chunks. |
| `NetIo.RecvFileBestEffort` | src/net.c:578-587 | Fallback conserves the bytes: what is written is a prefix of what was received, and success means exactly content_size bytes of both. |
| `NetIo.WriteAll` | src/fs.c:78-92 | Every byte of a chunk once and in order, or an honest failure. |
| `ProtocolIo.SendFrame` | src/protocol.c:79-102 | An ill-formed frame is refused and nothing of it sent; otherwise a prefix of its bytes, all of them exactly on success. |
| `ProtocolIo.RecvFrame` | src/protocol.c:104-121 | An accepted frame is well-formed and its bytes are exactly what was received. |
| `ProtocolIo.RecvCheckedResponse` | src/client.c:150-166 | The client goes on exactly when the four bytes received are the OK frame of the expected phase. |
| `ProtocolIo.RecvName` | src/protocol.c:202-238 | Success exactly when the bytes received are the encoding of a name of 1 to 255 bytes; otherwise they hold none. |
| `ProtocolIo.RecvPrefix` | src/protocol.c:240-269 | Success exactly when the bytes received are the encoding of a name and a size; otherwise they hold none. |
| `ProtocolIo.RecvHeader` | src/protocol.c:342-353 | Success exactly when 13 bytes arrived and decode. |
| `ProtocolIo.SendPayload` | src/protocol.c:184-200 | All of it exactly on success, otherwise a prefix. |
| `Publication.UploadsAreAtomic` | src/transfer_io.c:86-166 | Any number of uploads, any interleaving, any initial disk: if no target is a temporary name of a target, what can be read is what a disk with one-step uploads would hold, plus an own file for each upload in flight, no two of them under one name or in one inode. |
| `Publication.ServersObey` | src/server.c:403-491 | Connections that keep their guarantee, as the handler is proved to, are disciplined in every interleaving of any number of them. |
| `Publication.PublishedIsReadable` | src/fs.c:254-274 | In the world of one-step uploads, from the moment a file is published its name always holds all of some upload published there. |
| `Publication.NothingIsLeftBehind` | src/transfer_io.c:220-227 | When no upload is in flight, the disk holds its first contents and whole uploads, and no other name. |
| `Publication.WholeOrUntouched` | src/transfer_io.c:134-166 | In the world of one-step uploads each name holds what it held at first, or the whole content of one upload some thread has published there. |
| `Publication.ReadersSeeWholeUploads` | src/transfer_io.c:134-166 | On the disk itself: what is read under a name that no upload in flight uses is what was there at first, or the whole content of one upload published there. |
| `Publication.ReadersFindPublishedFiles` | src/fs.c:254-274 | On the disk itself: from the moment a file is published its name can be read, and holds all of some upload published there. |
| `ServerConflict.AtomicExactlyWhenSeparate` | src/fs.c:227-274 | For every set of names the server lets a client upload: uploads are atomic in every run of connections that keep the server's guarantee, from every disk, if and only if no target is a temporary name of a target. |
| `ServerConflict.ConflictPublishesTheWrongBytes` | src/transfer_io.c:86-166 | For any two names whose targets conflict: the run of two connections, from header to FINAL OK and within the guarantee at every event, in which one publishes the other's bytes as its own and both clients are told FINAL OK. |
| `ServerConflict.ConflictingNamesExist` | src/fs.c:227-239 | Such names exist for every base path with a little room and every pid: there are two names a client may upload with which uploads are not atomic. |
| `Publication.ServersAreDisciplined` | src/transfer_io.c:168-228 | A connection that keeps its guarantee touches only the temporary names of its own target, and its target. |
| `Publication.ReceiversAreDisciplined` | src/http.c:1354-1447 | Every other caller of the transfer code, the HTTP upload among them, is as disciplined as a protocol connection. |
| `Publication.NextKeeps` | src/fs.c:241-274 | Every system call of every thread keeps the ownership of temporary files and the refinement of the one-step disk. |
| `ConnTracker.Tracker.Begin` | src/server_conn_tracker.c:70-107 | A new entry at the head and one more in the count, unless shutdown has begun or memory is refused; then nothing changes. |
| `ConnTracker.Tracker.End` | src/server_conn_tracker.c:109-146 | Exactly this entry is unlinked, wherever it stands, the count follows, and the waiter is woken exactly when shutdown has begun and the count is zero. |
| `ConnTracker.Tracker.ShutdownAll` | src/server_conn_tracker.c:148-175 | New entries are refused from then on and every listed entry is closing. |
| `ConnTracker.Tracker.Init` | src/server_conn_tracker.c:34-56 | An empty tracker, or nothing changed when it was initialised already or a primitive fails. |
| `ConnTracker.Tracker.Cleanup` | src/server_conn_tracker.c:197-214 | Back to the unused state, or nothing changed when it was not initialised. |
| `ConnTracker.WithoutOne` | src/server_conn_tracker.c:120-130 | Unlinking removes one identity and no other, keeps entries distinct and closing entries closing. |
| `ShutdownDrain.CountIsLiveConnections` | src/server_conn_tracker.c:70-146 | In every run of the server the count is the number of connections between begin and end, the list holds exactly these, and none twice. |
| `ShutdownDrain.NothingBeginsAfterShutdown` | src/server_conn_tracker.c:86-92 | After shutdown_all every listed entry is closing, and no run from there adds an entry or a thread. |
| `ShutdownDrain.ConnectionsAreTakenOn` | src/server.c:252-331 | Until a shutdown is requested a connection that comes in gets its entry and its thread. |
| `ShutdownDrain.StartsUp` | src/server.c:1007-1053 | A start-up without failures leads to the listener, with store and tracker in place. |
| `ShutdownDrain.NeverLeftAsleep` | src/server_conn_tracker.c:177-195 | The main thread asleep and not notified always has a live connection to wait for. |
| `ShutdownDrain.CleanupWaitsForEveryThread` | src/server.c:1058-1077 | While some thread is before its tracker end, store and tracker are initialised and neither cleanup is possible. |
| `ShutdownDrain.FinishedIsClean` | src/server.c:1073-1080 | In every run, when the main thread has come to its end, no message is left and nothing of the tracker. |
| `ShutdownDrain.ShutdownCanComplete` | src/server.c:1010-1077 | From every state of the invariant with shutdown requested, start-up included, there is a run to the end: nothing is stuck. |
| `ShutdownDrain.ShutdownMustComplete` | src/server.c:1053-1077 | From every reachable state with shutdown requested, however the run goes on: a bounded number of steps, and one more for each spurious wakeup; and where no step is possible any more, the server has come to its end. |
| `ShutdownDrain.EveryMoveCounts` | src/server.c:1010-1077 | After the request every move strictly lowers a bound on the moves left, but for signals and messages, which leave it, and a spurious wakeup, which raises it by one. |
| `ShutdownDrain.MainWaitsForConnectionsOnly` | src/server_conn_tracker.c:175-195 | After the request the main thread has a move of its own unless it sleeps un-notified, and then a connection has not ended. |
| `ShutdownDrain.OneMoreConnection` | src/server.c:619-670 | After the request at most one connection is accepted, and only when the listener was already past its test. |
| `ShutdownDrain.NextKeeps` | src/server.c:252-331 | Every step of accept, thread creation and its failure, serving, ending and shutdown keeps the invariant. |
| `MessageStore.Store.Set` | src/message_store.c:180-218 | The C string, without the UTF-8 of white space at its end and nothing else, takes the place of the message, and the version goes up by one; or nothing changes. |
| `MessageStore.Store.GetSnapshot` | src/message_store.c:224-259 | Message and version of one moment; a message exactly when the version is positive. |
| `MessageStore.Store.WaitForUpdate` | src/message_store.c:261-340 | With any actions of others during any number of waits: each wait begins with nothing newer and no shutdown; on return a newer message exactly when there is one, and an answer without one only on a timeout or at shutdown. |
| `MessageStore.Store.Shutdown` | src/message_store.c:142-155 | Marks the store as shutting down, once it is initialised. |
| `MessageStore.Store.Cleanup` | src/message_store.c:157-178 | Drops the message and the store. |
| `MessageStore.Store.Init` | src/message_store.c:117-140 | A fresh store, or nothing changed. |
| `StreamSystem.EventsIncreaseAndAreGenuine` | src/http.c:1301-1352 | In every interleaving, on every stream, versions strictly increase and each event carries the text stored at its version. |
| `StreamSystem.NoLostWakeup` | src/message_store.c:280-339 | A stream asleep and not notified has sent its peer the newest message, if there is one, and no shutdown is under way. |
| `StreamSystem.WhatIsKnownIsSent` | src/http.c:1314-1343 | In every run, a stream that neither holds an update nor has ended has sent its peer the message of the version it knows, or knows of none and has sent nothing. |
| `StreamSystem.CatchesUp` | src/http.c:1301-1352 | From every reachable state without a shutdown a stream that is behind sends its peer the latest message by moves of its own. |
| `StreamSystem.QuietStreamKeepsAlive` | src/http.c:1331-1336 | A wait that ends without news leads to a keep-alive and to nothing else, unless the server shuts down. |
| `StreamSystem.VersionMeansMessage` | src/message_store.c:205-217 | In every run, until cleanup, the version is positive exactly when there is a message. |
| `StreamSystem.ShutdownLeavesNoStreamStuck` | src/message_store.c:142-155 | After shutdown a stream that has not ended is not asleep unnotified, and has a move. |
| `StreamSystem.ShutdownEndsStreams` | src/http.c:1320-1343 | After shutdown every own move brings a stream nearer its end, and no other move sets it back. |
| `StreamSystem.CheckTakesTheLatest` | src/message_store.c:280-339 | A stream that is behind takes the latest text, and then knows the latest version. |
| `StreamSystem.RunInvariant` | src/http.c:1301-1352 | The invariant behind these holds in every reachable state. |
| `ServerStreams.BothAreRuns` | src/server.c:1053-1077 | Server, connections and streams over one store, the clean-up unguarded: every run of the whole is a run of `ShutdownDrain` and one of `StreamSystem`, so what is proved of each holds of the whole. |
| `ServerStreams.CleanupFindsNoStream` | src/message_store.c:157-178 | In every run, when the store may be cleaned up, and at the end, every stream has ended. |
| `ServerStreams.NothingIsStuck` | src/http.c:1320-1343 | From every reachable state with shutdown requested, before the end the server can take a step, or a stream that holds its connection has a move of its own. |
| `MessageTrim.TrailingWhitespaceBytes` | src/message_store.c:58-115 | The backward byte scan finds exactly the last character's encoding when it is white space, on arbitrary bytes. |
| `MessageTrim.TrimLength` | src/message_store.c:188-195 | The trim loop computes the specified trim. |
| `MessageTrim.TrimIsCharacterTrim` | src/message_store.c:47-115 | On UTF-8 the trim is: decode, drop the longest suffix of White_Space characters, encode. |
| `MessageTrim.TrimInBytes` | src/message_store.c:47-56 | Each of the 25 listed endings, byte by byte, makes no difference to the trim, and a text that ends in none of them is left as it is. |
| `MessageTrim.TrimTakesEndings` | src/message_store.c:188-195 | On any bytes the trim takes away a sequence of listed endings and leaves a text that ends in none. |
| `MessageTrim.TrimRemovesWhitespaceOnly` | src/message_store.c:188-195 | On arbitrary bytes the trim is an idempotent prefix whose removed part is whole encodings of white space. |
| `MessageTrim.LastCharacterDecides` | src/message_store.c:71-114 | A text ends in the encoding of at most one character, so the backward scan is well defined. |
| `Utf8.DecodeEncode` | src/http.c:669-696 | Decoding inverts the encoder on every scalar value. |
| `Utf8.EncodeDecode` | src/message_store.c:58-115 | Encoding inverts the decoder: overlong forms, surrogates and values past U+10FFFF are not decoded. |
| `Utf8.SuffixFree` | src/message_store.c:62-80 | No encoding ends in another one. |
| `Utf8.AppendUtf8` | src/http.c:669-696 | Appends the UTF-8 of the code point, or nothing. |
| `Utf8.EncodedBytes` | src/http.c:669-696 | The bytes of each encoding as RFC 3629 section 3 gives them. |
| `JsonString.ReadString` | src/http.c:698-782 | The pointer-advancing parser computes the specified value and stops just past the closing quote; it fails only on ill-formed text or for want of memory. |
| `JsonString.ReadEscape` | src/http.c:716-768 | One escape, with surrogate pairs, read as specified. |
| `TextLaws.ShortEscapesAre` | src/http.c:716-732 | What each escape of one character stands for, and that no other is read. |
| `TextLaws.DigitsAreNeeded` | src/http.c:733-737 | A \u without four hex digits spoils the string. |
| `JsonString.ReadHex4` | src/http.c:644-667 | Four hex digits of either case. |
| `TextLaws.HexDigitsInOrder` | src/http.c:644-667 | The value of each of the sixteen digits in either case. |
| `JsonString.ParseBody` | src/http.c:698-782 | The decoded value is shorter than the text between and including the closing quote. |
| `JsonString.ParseInvertsEveryWriting` | src/http.c:698-782 | For every character sequence and every legal way of writing each character, the parser returns the exact UTF-8 and the rest after the quote. |
| `JsonString.UnpairedSurrogateRejected` | src/http.c:733-757 | An unpaired surrogate escape is rejected wherever it stands: after any body that the parser reads by itself, UTF-8 or not, and before any text. |
| `JsonString.BodyIsLocal` | src/http.c:698-782 | What the parser reads of a whole body it reads the same in front of any text; nothing after a body changes it. |
| `JsonString.ParseInvertsEscape` | src/http.c:597-635 | What the printer writes for any NUL-free bytes, UTF-8 or not, the parser reads back unchanged. |
| `JsonString.AppendEscaped` | src/http.c:597-635 | Appends the escaped C string, or fails for want of memory. |
| `TextLaws.EscapedBytesAre` | src/http.c:597-635 | How the writer writes each byte. |
| `EventStream.BuildMessageEvent` | src/http.c:237-279 | The bytes of the event for a message, or failure for want of memory. |
| `TextLaws.ChunksAre` | src/http.c:237-287 | The bytes of an event of one line, and of a keep-alive. |
| `TextLaws.FurtherLines` | src/http.c:252-265 | Every further line of a message begins with "data: ". |
| `EventStream.RoundTripExactly` | src/http.c:237-287 | The WHATWG stream interpreter, UTF-8 decoding included, applied to any sequence of events and keep-alives yields one event for each message, in order, whose characters encode to that message, if and only if every message is UTF-8 and free of CR. |
| `EventStream.CutStreamDeliversPrefix` | src/http.c:237-287 | A stream of UTF-8 messages free of CR, cut off at any byte, inside a character or not, delivers a prefix of the messages, never a damaged one. |
| `EventStream.ByteThatIsNoText` | src/server.c:333-388 | Not every message that the native protocol lets into the store is UTF-8: the byte FF is free of CR and spells no characters. |
| `TextLaws.StrayByteIsReplaced` | src/server.c:333-388 | The page gets U+FFFD for a message of the byte FF. |
| `Utf8Stream.DecodesEncodedText` | src/http.c:669-696 | The standard's decoder, with its replacements for ill-formed bytes, takes the UTF-8 of any characters back to them, and what follows is decoded on its own. |
| `Utf8Stream.CutText` | src/http.c:237-279 | UTF-8 cut after any byte decodes to its first characters followed by replacement characters only. |
| `HttpBuffer.Buffer.Reserve` | src/http.c:67-88 | Room for what is needed, contents kept, capacity 256 times a power of two and below twice the need; the doubling ends and does not overflow. |
| `HttpBuffer.Buffer.Append` | src/http.c:90-107 | Contents grow by exactly the bytes, or stay; data is NUL-terminated at len. |
| `MessagePipeline.ReadMessage` | src/http.c:784-821 | The parser returns the value of the one member "message", and fails only when there is none or for want of memory. |
| `MessagePipeline.ParseMessage` | src/http.c:784-821 | The value is shorter than the body it came in. |
| `MessagePipeline.EveryRequestIsRead` | src/http.c:784-821 | Spaces anywhere between tokens and any legal writing of key and value are read as the UTF-8 of the value's characters. |
| `TextLaws.OnlyRequestsAreRead` | src/http.c:784-821 | Whatever is read as a message is an object of one member with the key "message", with nothing but white space around its parts up to the end or a NUL. |
| `TextLaws.PlainRequestIsRead` | src/http.c:784-821 | {"message":"..."} around a text that needs no escape is read as that text, byte by byte. |
| `MessagePipeline.PostMessage` | src/http.c:1202-1259 | What is stored is the decoded value without the white space at its end; a body that passed the length check is never refused as too large. |
| `MessagePipeline.BuildLatest` | src/http.c:1261-1299 | The answer is the specified text for the message in the store. |
| `TextLaws.LatestIs` | src/http.c:1270-1287 | The bytes of the answer to a GET, with and without a message. |
| `MessagePipeline.MessageIdentity` | src/http.c:1184-1299 | Post, then get: any legal request for NUL-free characters leads to an answer that parses back to their UTF-8 without trailing white space; a native message with the same text leaves the store in the same state. |
| `Paths.ValidateRelativePath` | src/fs.c:102-123 | The loop accepts exactly the non-empty paths without backslash all of whose segments are good, one trailing slash excepted. |
| `Paths.FileNameIsRelativePath` | src/fs.c:94-123 | Every accepted file name is an accepted relative path, except ".". |
| `Listing.ListingAndDownloadAgree` | src/http.c:1501-1515 | For every listing request that is answered, every entry it shows and every percent-encoding of the path shown: the download request opens the very file the listing examined if and only if the name has no backslash, the directory no trailing slash, and the target fits 1023 bytes, has no space or control character and no raw "?"; without a raw "?" a failure is a refusal. |
| `Listing.RoutesAre` | src/http.c:1463-1515 | What the targets of listing and download requests begin with. |
| `Listing.BaseIsListed` | src/http.c:1129-1146 | Where no "path" is asked for, the base itself is listed. |
| `Listing.ShownAndExamined` | src/http.c:559-573 | What a listing shows for an entry and what it examined, as bytes. |
| `Listing.SomeEncodingReaches` | src/http.c:438-444 | A listed path can be fetched by some encoding if and only if it is reachable and the route, the path and two bytes more for each byte that must be escaped fit a request. |
| `Listing.PageLinkWorks` | src/webui.c:406 | The link the page makes with encodeURIComponent works if and only if the path is reachable and leaves room for what that escapes; otherwise it is refused. |
| `Listing.ListedAndOutOfReach` | src/http.c:1129-1146 | A concrete entry, twenty letters in a directory of 999 bytes, that the server lists on request and that no request can name. |
| `Paths.ValidPathStaysBelow` | src/fs.c:102-123 | An accepted path never climbs: walking it leads one level down for each segment. |
| `PathLaws.JoinedIsBelow` | src/fs.c:125-164 | A path is joined exactly when it is accepted and fits 4095 bytes; the joined path continues the base, its segments are those of both, and walking it is walking the base and then the path. |
| `PathLaws.NamesAccepted` | src/fs.c:94-100 | A file name is accepted exactly when it is not empty, has no slash, no backslash and no two dots in a row; it is then one segment. |
| `PathLaws.PathsAccepted` | src/fs.c:102-123 | A relative path is accepted exactly when it is not empty, has no backslash, and no two slashes that follow each other have nothing, one dot or two dots between them. |
| `PathLaws.TempNameIs` | src/fs.c:227-239 | A temporary name is the path, ".tmp.", the process number in decimal, a dot and the attempt. |
| `PathLaws.DecimalIs` | src/fs.c:227-239 | Decimal digits that stand for the number, without a zero in front. |
| `Paths.DecodeName` | src/http.c:484-517 | The decoder computes the percent-decoding, or fails when it is ill-formed or does not fit. |
| `Paths.DecodeEncode` | src/http.c:484-517 | Decoding inverts every percent-encoding of a name, whichever bytes are escaped and in either case. |
| `Paths.TempNameInjective` | src/fs.c:227-239 | Within one process a temporary name belongs to one target and one attempt. |
| `Paths.Basename` | src/fs.c:292-311 | The part after the last slash. |
| `Wire.HeaderRoundTrip` | src/protocol.c:285-340 | Decoding an encoded header gives it back exactly when its fixed fields are this version's, and otherwise the error of the first field that is wrong. |
| `Wire.HeaderBytes` | src/protocol.c:304-340 | An accepted header re-encodes to the same bytes. |
| `WireBytes.HeadersAccepted` | src/protocol.c:304-340 | Thirteen bytes are a header exactly when the first five are 04 29 03, a kind from 1 to 3, and 0. |
| `Wire.FrameRoundTrip` | src/protocol.c:43-77 | Every well-formed frame is encoded and decoded to itself. |
| `Wire.FrameDecoded` | src/protocol.c:60-77 | Every accepted frame is one the encoder accepts, and re-encodes to the same bytes. |
| `WireBytes.FramesAccepted` | src/protocol.c:20-77 | Four bytes are a frame exactly when they are 00 00 00 00, 01 00 00 00, or 00 01 00 or 01 02 00 and a reason from 1 to 13. |
| `WireBytes.ReasonBytes` | src/protocol.h:34-49 | The reasons on the wire, one by one. |
| `Wire.PrefixReads` | src/protocol.c:162-182 | The encoding of a name and a size is read back, whatever follows it. |
| `Wire.NameReads` | src/protocol.c:144-160 | The encoding of a name is read back, whatever follows it. |
| `Wire.EncodeU64` | src/net.c:98-107 | Eight bytes, most significant first. |
| `Wire.DecodeU64` | src/net.c:109-118 | The number the eight bytes stand for. |
| `Wire.DecodesEncoded` | src/net.c:98-118 | Decoding inverts encoding for every number that fits. |
| `WireBytes.Numbers` | src/net.c:98-118 | Numbers are written most significant byte first: the sum of the bytes, each with its weight, is the number. |
| `FaultFree.UploadSucceeds` | src/client.c:403-503 | For every name the server accepts and every content within the limit there is a run in which the client reports success and the file is published: the guarantees can be met together. |
| `FaultFree.FaultFreeUploadsSucceed` | src/client.c:403-503 | In every run in which both sides end as they do without faults, an acceptable name, room for the file and a source of the announced length are enough: the client reports success and exactly this file is published. |
| `FaultFree.FaultFreeDownloadsSucceed` | src/client.c:543-662 | The same for downloads: where the server has opened a file of the announced length within the limit and the client has room, the client reports success and publishes exactly that file. |
| `FaultFree.FaultFreeMessagesSucceed` | src/client.c:505-541 | The same for messages: one within the limit is acknowledged, and is the one this connection has handed to the store. |
| `Server.Dispatch` | src/server.c:238-249 | Each kind of message goes to its handler, and without faults is answered as that kind. |
| `ServerUpload.Refuse` | src/server.c:482-486 | Without faults the whole rejection frame with this reason is sent, and nothing else. |
| `ServerDownload.Refuse` | src/server.c:605-609 | The same for downloads. |
| `Client.SendAccepted` | src/client.c:485-494 | The body is sent only from READY OK on, and the verdict is the final frame's. |
| `ClientFetch.TakeOffer` | src/client.c:596-662 | An offer that is too large or badly named is declined before anything is tried, created or unlinked; one that is taken up ends as `StraysExactly` and `FetchReported` say. |
| `CommandLine.ParseArgs` | src/cli.c:104-331 | For every argument vector, in the bytes of its arguments: accepted exactly when it is "status" or "stop" alone, or pairs of -c, -d, -g, -i, -m, -o, -p and a value under the rules of use; understood as the flags say, the last -i and -p counting; help exactly where reading comes to -h without an error before it. |
| `CommandLine.AnswersMean` | src/cli.c:104-331 | The order-free meaning in terms of the bytes of the arguments: which lines are accepted, and what each option is. |
| `CommandLine.OrderMattersExactly` | src/cli.c:135-330 | Every rearrangement of the groups has the same meaning if and only if there is a control command, or a rule of use is broken, or all ports parse to one port and all addresses are one. |
| `CommandLine.ArgumentOrderMattersExactly` | src/cli.c:104-331 | The same on argument vectors: the parser's answer is the same for every rearrangement under exactly that condition. |
| `CommandLine.AnotherMeaning` | src/cli.c:263-288 | Where two ports or two addresses disagree, a rearrangement with another meaning is given. |
| `CommandLine.OrderDoesNotMatter` | src/cli.c:135-330 | In particular, with -i and -p given once at most, no rearrangement changes the meaning. |
| `CommandLine.RepeatedPortsDependOnOrder` | src/cli.c:274-288 | Two different ports, in either order, give different results: the last one counts. |
| `CommandLine.RepeatedAddressesDependOnOrder` | src/cli.c:263-272 | Two different addresses, in either order, give different results. |
| `CommandLine.HopelessStays` | src/cli.c:152-293 | Once the groups so far rule out success, no continuation succeeds. |
| `CommandLine.Parser.Take` | src/cli.c:156-288 | Each flag updates exactly its own variables; only a bad port is refused here. |
| `CommandLine.Parser.Finish` | src/cli.c:296-330 | The tests after the loop give exactly the meaning of all groups. |
| `DaemonState.RoundTripExactly` | src/daemon_state.c:147-228 | For every state that fits its arrays, writing succeeds, and reading gives the state back, its mode normalised, if and only if its texts hold no line end; "=" does no harm. |
| `DaemonState.TextFits` | src/daemon_state.c:158-173 | Within the arrays' bounds the text never overflows its buffer. |
| `DaemonState.StateTextIs` | src/daemon_state.c:158-171 | The state file byte by byte. |
| `DaemonState.FieldReads` | src/daemon_state.c:196-224 | Any one-line value is read back from its field. |
| `DaemonState.ReadValuesAreOneLine` | src/daemon_state.c:203-205 | Whatever the file holds, no value that is read has a line end in it. |
| `DaemonState.SignedReads` | src/daemon_state.c:105-137 | A printed number is read back with its sign. |
| `DaemonState.NumbersRead` | src/daemon_state.c:105-137 | Numbers that fit a long, or a port, are read as they were printed, and others are refused. |
| `DaemonState.OnlyNumbersAreRead` | src/daemon_state.c:105-137 | Only digits are read as a number, with one sign and white space before them, and as the number they stand for. |
| `DaemonState.Read` | src/daemon_state.c:178-228 | The loop over the lines computes the specified reading. |
| `DaemonState.ReadIsComplete` | src/daemon_state.c:178-228 | Only complete files are accepted: pid=, receive_dir= and port= stand in them, and a process number, a directory and a port that fit have been read. |
| `DaemonState.ReadLine` | src/daemon_state.c:197-223 | One line sets exactly the field it names. |

## Left out

- The direct splice from socket to file (src/net.c:443-448) never succeeds: splice(2) without a pipe end fails with EINVAL, and `Os.Thread.SpliceDirect` says so.
- Argument checks for null pointers and bad descriptors: descriptors are valid and pointers are not null wherever the source's own callers see to it.
- Encoding failures after successful validation (src/server.c:558-566, src/client.c:462-468): the encoders cannot fail there, and the branches are not modelled.
- A file read while someone else writes it: the content of an open source file is fixed from the open on, though it may be shorter or longer than the size `fstat` reported.
- `Publication` models uploads; a target that is a directory, hard links, permissions and file systems without atomic rename are outside it.
- `NetIo.RecvFileAll` and `NetIo.SendFileAll`: the Linux paths only.
- The condition wait of `server_conn_tracker_wait_idle` is a move of `ShutdownDrain`, not a method: blocking is a state of the system.
- ServerDownload.PrepareDownload: `open` and `fstat` are one call, and what they find at the path is the script's word.
- The stream handler of src/http.c:1301-1352 is the transition system `StreamSystem`; the bytes of its events are those of `EventStream`.
- The version counter is unbounded: wrapping after 2^64 messages is not modelled.
- The HTTP upload handler around the transfer (src/http.c:1354-1447); the result code of its refused buffer, which is Alloc and not Io (src/transfer_io.c:29-33).
- HTTP request parsing and routing but for the targets of listing and download requests, request and response headers, the web user interface but for its links, and the directory listing but for the paths it shows. `Listing` takes from picohttpparser only which bytes a target may hold.
- Telling the protocol from HTTP by peeking (src/server.c:170-215): the model starts after it.
- CommandLine.ParseArgs: `strtoul` in `parse_port` is an arbitrary function from texts to ports.
- DaemonState.RoundTripExactly: the file itself, and where it lies; `strtol` is modelled for whole texts in base ten.
- fork, signals, pid files, log files, timeouts as durations, sockets options, and everything under Windows.
