# A verified model of the PS5 payload kit

The payload kit wraps the console's libc and SCE libraries in safe Rust and builds a small HTTP/1.1
server on top. This project models its protocol-like parts and proves what they promise against an
adversarial operating system: any schedule of short reads, short writes, interrupted calls, errors,
failed creations, spurious wake-ups and thread interleavings. The only things taken on trust are the
contracts the code itself leans on: a transfer never exceeds its buffer, `read` returns 0 only at the
end, `pthread_join` returns 0 only after the thread has exited, `pthread_cond_wait` holds the mutex
again whenever it returns, and `accept`/`socket` hand out descriptors that are not open.

`dafny verify dfyconfig.toml` runs the verifier on all modules.

## The modules

- `Errors`, `Octets`: the error type; byte strings with search, split, trim, UTF-8 well-formedness,
  decimal printing and parsing. A `str` is its UTF-8 bytes; a byte is a character below 256.
- `Utf8`: well-formed text as encoded scalar values, and white space as code points.
- `Sockets`: a TCP stream whose `recv`/`send` answers come from a schedule; `write_all`.
- `HttpMessage`: the response printer and the request-head parser. `HttpReader`: the request reader.
  `HeadRules`: exactly which heads are accepted. `ReaderSteps`: the reader one read at a time.
- `Segmentation`: what the reader does in terms of the byte stream alone, with the exact bound up to
  which the network's segmentation cannot matter. `RoundTrip`: printer and reader are inverse.
- `WireFormat`: a printed response byte for byte. `Connection`: one connection end to end. `Server`: the accept loop and all its threads, one system
  call at a time over the kernel's descriptor table.
- `Spawn`: spawn/join/detach of one thread. `Monitor`: mutex, guards and condition variables.
- `SceClient`: the HTTP client's handle life cycle. `Files`, `Directory`, `Resolver`: file transfers,
  directory iteration, name resolution.

Loops and objects of the program are methods and classes proved against specification functions; the
lemmas are about those functions. The thread protocols, whose point is interleaving, are transition
systems, and each theorem quantifies over all runs. Schedules of transfers are finite lists: a run only
looks at finitely many answers, and what follows the last one is fixed (end of stream for reads, full
transfers for writes). The return codes of the SCE calls are an arbitrary infinite sequence.

## Where the code and its documentation differ

The model follows the code in each case.

- The header limit is documented as the maximum accepted head size. The code only checks it between
  reads: a good head is accepted on every schedule exactly when it ends within one byte of the limit,
  and on some schedule exactly when it ends within one read (4096 bytes) of it,
  `Segmentation.AcceptedExactly`. `RoundTrip.OversizeHeadAccepted` is the witness.
- A request is documented as complete when returned. It is complete exactly when the peer sent as much
  as it announced, `Segmentation.CompleteExactly`; otherwise what came is handed over, and
  `RoundTrip.ShortBodyAccepted` is a request that announces a body and brings none.
- Headers named Content-Length or Connection are documented as ignored by the printer. It compares the
  names untrimmed while the reader trims them. No such header reads back exactly when no name is a
  padded reserved one, `RoundTrip.TrimmedKept`; `RoundTrip.PaddedNameGetsThrough` shows both names
  getting through with a trailing blank, `RoundTrip.TrailingBlankLosesBody` a body lost that way, and
  `RoundTrip.BodySurvivesExactly` says exactly when the body survives.

- `serve` is documented never to stop for a dropped socket, and to return only for a failure of the
  listener itself. Only EINTR is retried, so an accept that fails because a queued peer gave up, or
  because too many descriptors are open, ends it: `Server.DroppedPeerEndsServe`. It has returned
  exactly when setting up the listener failed or an accept error was not EINTR,
  `Server.StoppedExactly`.

## Model

| member | source | states |
|---|---|---|
| `Octets.FindIsFirst` | crates/core/src/http.rs:422-424 | the search returns the first occurrence of the pattern and nothing else, or none exactly when there is none |
| `Octets.SplitInverse` | crates/core/src/http.rs:360-365 | splitting loses no byte and leaves no separator in a piece |
| `Octets.JoinInverse` | crates/core/src/http.rs:360-365 | splitting a joined list of clean pieces gives the pieces back |
| `Octets.DecimalExact` | crates/core/src/http.rs:166-178 | the printed number is the only numeral without leading zeros that has its value |
| `Octets.ParseExact` | crates/core/src/http.rs:394 | what is parsed: digits with or without a plus sign whose value fits in 64 bits, and nothing else |
| `Octets.ParsePrinted` | crates/core/src/http.rs:390-395 | parsing a trimmed printed length gives the number, for every 64-bit length |
| `Octets.TrimExact` | crates/core/src/http.rs:387 | trimming cuts white space off both ends, all of it and nothing else |
| `Octets.CaseExact` | crates/core/src/http.rs:89 | names agree byte by byte up to the two cases of an ASCII letter |
| `Octets.TrimKeepsUtf8` | crates/core/src/http.rs:387 | trimming on bytes removes whole characters, so text stays text |
| `Utf8.ValidIsEncoded` | crates/core/src/http.rs:358-359 | text accepted as UTF-8 is the encoding of a sequence of Unicode scalar values |
| `Utf8.EncodedIsValid` | crates/core/src/http.rs:358-359 | the encoding of any sequence of scalar values is accepted |
| `Utf8.LeadingSpaceExact` | crates/core/src/http.rs:387 | the characters trimmed from the front are those with the Unicode White_Space property |
| `Utf8.TrailingSpaceExact` | crates/core/src/http.rs:387 | the same at the end of the text |
| `Sockets.TcpStream.WriteAll` | crates/ps5/src/net.rs:141-151 | puts on the wire exactly the accepted prefix of the buffer, without loss, repetition or reordering; ends by (bytes left, answers left) |
| `Sockets.SendAllExact` | crates/ps5/src/net.rs:141-151 | `Ok` exactly when the whole buffer was accepted, never more than the buffer |
| `Sockets.SendAllOutcome` | crates/ps5/src/net.rs:141-151 | the first answer that is neither progress nor EINTR decides: success if the offers before it cover the buffer, else its error after exactly those bytes; for a send that takes nothing, the errno left by an earlier interruption or from before the call |
| `Sockets.SendAllErrnoFree` | crates/ps5/src/net.rs:144 | the stale errno reported for a zero-length send changes only the error value, never what is sent |
| `HttpMessage.Lookup` | crates/core/src/http.rs:86-91 | the first header whose name matches ignoring case, or none exactly when no name matches |
| `HttpMessage.Request.PathAndQuery` | crates/core/src/http.rs:73-83 | path and query are the target cut at its first question mark |
| `HttpMessage.GatherAligned` | crates/core/src/http.rs:379-388 | without empty lines there is one header a line, in order |
| `HttpMessage.Encode` | crates/core/src/http.rs:165-184 | the printer emits the status line, one line a kept header, the two own headers, an empty line and the body |
| `HeadRules.HeadVerdict` | crates/core/src/http.rs:357-398 | a head is accepted if and only if it is UTF-8, its first line has three words, every later non-empty line has a colon and the first Content-Length is within the limit; otherwise the first of these that fails is the error |
| `HeadRules.LookupIsFirst` | crates/core/src/http.rs:390-395 | looking a name up in the parsed headers gives the value of the first line bearing it, or nothing when no line does |
| `HeadRules.HeaderCut` | crates/core/src/http.rs:384-387 | a header line is cut at its first colon and both parts are trimmed, blanks being optional |
| `HeadRules.ReservedExact` | crates/core/src/http.rs:173 | a name is left out by the printer exactly when it spells one of the two in any mixture of cases |
| `HttpReader.ReadRequest` | crates/core/src/http.rs:333-419 | verdict and unused answers for every schedule; a returned body never exceeds the body limit; the largest sizes both buffers had, whatever the outcome |
| `HttpReader.ReadHead` | crates/core/src/http.rs:337-355 | the head loop ends because its buffer outgrows the limit, by at most one read on every outcome |
| `HttpReader.ReadBody` | crates/core/src/http.rs:400-409 | the body loop ends because its vector outgrows the announced length, by less than one read on every outcome |
| `HttpReader.BufferBounds` | crates/core/src/http.rs:338-410 | at every point and on every outcome of every schedule the head buffer is at most limit + 4096 and the body vector at most the larger of header limit + 4092 and body limit + 4095 |
| `ReaderSteps.ReadInParts` | crates/core/src/http.rs:333-419 | the reader may be stopped between any two reads: what it holds then decides the rest of the run |
| `ReaderSteps.FailureIsFinal` | crates/core/src/http.rs:345-404 | a failing read, EINTR included: if the answers before it decide the verdict it is never reached and changes nothing, otherwise it is the verdict and the last read |
| `Segmentation.ScanOnStream` | crates/core/src/http.rs:337-355 | the head loop in terms of the stream: found, over the limit, or closed early, and when each |
| `Segmentation.SegmentationIndependence` | crates/core/src/http.rs:333-424 | on every error-free schedule the verdict is a function of the bytes when the marker ends within limit + 1, a limit error beyond limit + 4096, one of the two in between; without a marker a limit error above the limit, nothing when nothing came, else a close mid-request |
| `Segmentation.BoundsAreExact` | crates/core/src/http.rs:338-355 | for every stream strictly between the bounds one schedule accepts and another rejects |
| `Segmentation.AcceptedExactly` | crates/core/src/http.rs:338-355 | for a good head: accepted on every schedule if and only if it ends within limit + 1, on some schedule if and only if it ends within limit + 4096 |
| `Segmentation.BodyExtraction` | crates/core/src/http.rs:390-410 | the body is exactly the first min(Content-Length, available) bytes after the marker, however split between the loops |
| `Segmentation.CompleteExactly` | crates/core/src/http.rs:400-410 | an accepted request is complete if and only if the peer sent as much as it announced |
| `Segmentation.NoEmptyLine` | crates/core/src/http.rs:380-383 | before the first CRLFCRLF no line after the first is empty, so the skipping branch is dead |
| `Segmentation.LineCount` | crates/core/src/http.rs:360 | a text has one line more than it has CRLFs |
| `Segmentation.HeaderLineExactness` | crates/core/src/http.rs:357-388 | an accepted head has as many headers as CRLFs, each parsed from its own line, in stream order, and its first three words are the request line |
| `Segmentation.AcceptedRequest` | crates/core/src/http.rs:362-388 | an accepted request has its first line's first three words and one header for each further line before the marker |
| `RoundTrip.MarkerAfterLines` | crates/core/src/http.rs:166-179 | in printed lines the first empty line is the one after the head |
| `RoundTrip.RoundTripVerdict` | crates/core/src/http.rs:165-418 | any printed response with one-line headers, under every segmentation, is read back with its head words, trimmed headers and as much body as announced, or rejected by the body limit |
| `RoundTrip.ResponseRoundTrip` | crates/core/src/http.rs:165-418 | the original body and status, the caller's headers in order and trimmed, then a Content-Length with the body's length and a Connection: close |
| `RoundTrip.TrimmedKept` | crates/core/src/http.rs:171-177 | none of the caller's headers reads back as Content-Length or Connection if and only if no name the printer lets through is a padded one of the two |
| `RoundTrip.PaddedNameGetsThrough` | crates/core/src/http.rs:173-175 | either reserved name with a trailing blank passes the printer and is reserved again for the reader |
| `RoundTrip.BodySurvivesExactly` | crates/core/src/http.rs:171-178 | the body survives if and only if no header of the caller's trims to Content-Length, or the first that does announces enough within the limit |
| `RoundTrip.TrailingBlankLosesBody` | crates/core/src/http.rs:173-175 | a header named Content-Length plus a blank with value 0 makes the reader lose the body |
| `RoundTrip.CutShortAccepted` | crates/core/src/http.rs:400-410 | a response cut short anywhere in its body is accepted with the part that came and the full length announced |
| `RoundTrip.ShortBodyAccepted` | crates/core/src/http.rs:405-407 | a request that announces one byte and brings none is accepted |
| `RoundTrip.OversizeHeadAccepted` | crates/core/src/http.rs:338-355 | a printed response whose head is over the limit by less than one read is accepted on one schedule and refused on another |
| `WireFormat.ResponseLayout` | crates/core/src/http.rs:165-184 | a printed response byte for byte: status line, the caller's fields but the reserved ones, the length, Connection: close, an empty line, the body |
| `WireFormat.StatusOnWire` | crates/core/src/http.rs:166-170 | every status from 100 to 999 is printed as its three digits right after the version |
| `WireFormat.ReasonTable` | crates/core/src/http.rs:188-207 | the phrases of RFC 7231 and, for 431, RFC 6585; the default for every other status |
| `WireFormat.BadRequestOnWire` | crates/core/src/http.rs:316 | the answer to anything unreadable, in full |
| `WireFormat.ClosedEarly` | crates/core/src/http.rs:308-319 | a peer that sends something and closes before the end of its head is sent the 400, one that closes at once nothing |
| `Connection.ServeConnection` | crates/core/src/http.rs:304-321 | the bytes put on the wire, the reads consumed and exactly one shutdown, after all of those bytes, for every read and write schedule |
| `Connection.WriteResponse` | crates/core/src/http.rs:324-326 | success exactly when the whole printed response went out |
| `Connection.OutputIsAnswer` | crates/core/src/http.rs:304-326 | what goes out is a prefix of one printed response: the handler's, or the 400 on any read error; nothing on an immediate close; all of it exactly when the write succeeds |
| `Connection.OutputSegmentationFree` | crates/core/src/http.rs:304-424 | outside the gap of the header limit, the output depends on the bytes received, not on their segmentation |
| `Connection.BodyReachesPeer` | crates/core/src/http.rs:165-418 | read, handle, print, write and read again on the other side: the peer gets the handler's body |
| `Spawn.Reachable` | crates/ps5/src/thread.rs:94-294 | the invariant of the spawn protocol holds after every interleaving and every return code |
| `Spawn.ExactlyOnce` | crates/ps5/src/thread.rs:94-258 | at the end the closure was consumed once, its value returned or dropped once, packet and slot freed once, the thread joined or detached by one call, attributes destroyed |
| `Spawn.AtMostOnce` | crates/ps5/src/thread.rs:60-183 | at every moment nothing has happened twice, nothing freed was touched, and the count equals the number of owners |
| `Spawn.RaceFree` | crates/ps5/src/thread.rs:67-112 | the thread's store and the joiner's take are never both enabled |
| `Spawn.JoinReturnsTheValue` | crates/ps5/src/thread.rs:147-165 | a value is returned if and only if pthread_join reported success, and it is the one the closure returned; the EINVAL fallback is unreachable; a failed join reports pthread_join's code |
| `Spawn.RunsAreShort` | crates/ps5/src/thread.rs:94-258 | no run has more than eighteen steps |
| `Spawn.StuckOnlyWhenQuiescent` | crates/ps5/src/thread.rs:94-258 | the protocol is stuck exactly when everything is over |
| `Spawn.FailureIsReported` | crates/ps5/src/thread.rs:240-293 | spawn fails with a code if and only if one of the three creating calls returned it, and then there is no thread |
| `Spawn.HandleUnlessFailed` | crates/ps5/src/thread.rs:240-256 | there is a thread and a handle for it if and only if none of the three calls failed |
| `Spawn.CreatedAsAsked` | crates/ps5/src/thread.rs:265-293 | a thread exists exactly when pthread_create succeeded, with the stack size set if one was asked for |
| `Spawn.JoinIsNeverStuck` | crates/ps5/src/thread.rs:147-165 | while pthread_join cannot return success, and only then, the thread it waits for can take a step |
| `Monitor.MutualExclusion` | crates/ps5/src/thread.rs:361-429 | for any number of threads: one live guard at most, a guard exactly for the owner outside a returning wait, no unlock by a non-owner |
| `Monitor.SerialHistory` | crates/ps5/src/thread.rs:361-504 | acquisitions and unlocks alternate by the same thread, and the data is found as the previous owner left it |
| `Monitor.GuardFindsInvariant` | crates/ps5/src/thread.rs:474-504 | a thread gains a guard only by its own lock or an error-free wait; an invariant restored before every guard drop and wait holds then, and whenever a wait returns, with an error too |
| `Monitor.CallsDeliver` | crates/ps5/src/thread.rs:361-504 | a successful lock or wait leaves its thread the owner with a guard; a guard drop, a wait going to sleep and a wait returning an error leave the mutex free |
| `Monitor.OwnerCanMove` | crates/ps5/src/thread.rs:361-504 | the owner can always take the step that gives the mutex back, except exactly when it has called lock again with its guard live |
| `Monitor.NotifyExact` | crates/ps5/src/thread.rs:510-528 | a notification wakes all sleepers of its condition variable, or one if there is any, and touches nobody else |
| `Server.Reachable` | crates/core/src/http.rs:275-299 | in every state of every run: descriptors, connections, threads and what each peer has got agree |
| `Server.IoHitsOwn` | crates/core/src/http.rs:304-321 | each recv, send and shutdown goes to the thread's own connection, open under its descriptor number however often that has been reused, and touches no other |
| `Server.DescriptorsOwned` | crates/core/src/http.rs:283-297 | a connection is closed as often as its closure is consumed, which is at most once; no descriptor is used that is not the user's own; the open ones are exactly the listener's and the live connections' |
| `Server.ListenerClosedOnce` | crates/ps5/src/net.rs:215-274 | the listening descriptor is closed exactly once whichever way bind fails or serve returns |
| `Server.NothingLeaks` | crates/core/src/http.rs:275-299 | at the end no descriptor is open, and each connection's descriptor, packet and slot were released exactly once |
| `Server.WireIsPrefix` | crates/core/src/http.rs:304-326 | at every moment of every interleaving each peer has got a prefix of what it is owed for its own bytes alone, all that serving it alone sends once its closure is through; it is shut down at most once and only after all of that |
| `Server.EveryConnectionAnswered` | crates/core/src/http.rs:275-326 | the server end to end: whatever is accepted, fails or interleaves, a peer gets a prefix of the response to its own request or of the 400, all of it when the writes succeed, nothing when its thread could not be created, and is closed once |
| `Server.LoopComesBack` | crates/core/src/http.rs:282-298 | after accepting a connection, the main thread is accepting again after at most thirteen steps of its own, whatever the return codes and the other threads do |
| `Server.SpawningIsNeverBlocked` | crates/core/src/http.rs:295-297 | while a thread is being created the main thread can always take a step |
| `Server.StoppedExactly` | crates/core/src/http.rs:279-289 | serve has returned if and only if setting up the listener failed or accept reported an error other than EINTR; nothing a connection thread does and no failed creation makes it return |
| `Server.DroppedPeerEndsServe` | crates/core/src/http.rs:283-289 | a peer that gives up in the listen queue makes serve return although the listener is sound |
| `Server.GetsThrough` | crates/core/src/http.rs:304-321 | on every schedule a closure's calls come to an end, with all that is due sent and one shutdown after it |
| `Server.StoppedRunsOut` | crates/core/src/http.rs:275-299 | after serve returns, connections only stop moving when all of them are over |
| `Server.StoppedRunsEnd` | crates/core/src/http.rs:275-299 | once serve has returned, every run takes at most as many further steps as the connections have left between them |
| `SceClient.New` | crates/ps5/src/http.rs:71-143 | succeeds exactly when the five calls do, with their ids; any failure reports the first failing call and has released what it acquired, in reverse |
| `SceClient.FailureLeavesNothing` | crates/ps5/src/http.rs:85-135 | a failed construction leaves the stack of live handles as it found it |
| `SceClient.FirstErrorExact` | crates/ps5/src/http.rs:75-135 | the error of a failing construction is that of the first failing call, under its name and with its code |
| `SceClient.Drain` | crates/ps5/src/http.rs:220-237 | the whole response body up to its end, or the first error |
| `SceClient.DrainedExact` | crates/ps5/src/http.rs:220-237 | the first answer without bytes decides: an error is the result, with its code; the end gives all the bytes before it, in order |
| `SceClient.RunRequest` | crates/ps5/src/http.rs:197-243 | the first of sending, status and draining to fail is the error, otherwise status and whole body; only the request handle is operated on |
| `SceClient.OutcomeExact` | crates/ps5/src/http.rs:208-242 | success exactly when sending, status and draining succeed, with status and body; otherwise the first failure, under its name and with its code |
| `SceClient.DoRequest` | crates/ps5/src/http.rs:156-193 | the request handle is deleted exactly once whenever it was created, and not used afterwards; success needs every call to succeed, deletion included; an earlier error is preferred to the deletion's |
| `SceClient.Drop` | crates/ps5/src/http.rs:246-258 | the four handles are released in reverse order |
| `SceClient.LifeIsBracketed` | crates/ps5/src/http.rs:65-258 | the trace of construction, any requests and drop: every call operates on live handles, releases are innermost first, none is left, each handle is released as often as acquired |
| `SceClient.UseClient` | crates/ps5/src/http.rs:65-258 | running new, any list of requests with any outcomes, and drop, or a new that fails: no handle is left, none was used when not live, each was released as often as acquired |
| `Files.WriteLoopCount` | crates/ps5/src/fs.rs:84-95 | success exactly when everything was written, never more |
| `Files.WriteLoopStops` | crates/ps5/src/fs.rs:84-95 | a failure is the first answer that is an error, EINTR included, or moves nothing |
| `Files.WriteLoopOutcome` | crates/ps5/src/fs.rs:84-95 | the first answer that is an error, EINTR included, or moves nothing decides: success if the answers before it cover the buffer, else that failure after exactly those bytes |
| `Files.FileSystem.WriteAll` | crates/ps5/src/fs.rs:84-95 | short writes add up to one write of the accepted prefix at the file offset |
| `Files.FileSystem.ReadToEnd` | crates/ps5/src/fs.rs:100-111 | keeps what the buffer held, appends the file from its offset on, and returns the number appended; fails exactly when an answer it comes to is an error, EINTR included, with that error |
| `Files.WriteFile` | crates/ps5/src/fs.rs:417-420 | success exactly when everything was written, and the file then holds the contents; when it cannot be opened nothing changes, once it is open a failure leaves exactly the accepted proper prefix; the descriptor is closed |
| `Files.ReadFile` | crates/ps5/src/fs.rs:401-406 | the whole file; an error only for a bad path, a missing file or a failing answer, and that one; nothing changes and the descriptor is closed |
| `Files.WriteThenRead` | crates/ps5/src/fs.rs:401-420 | a successful write then a successful read gives the contents back, and both succeed when no answer fails or moves nothing; no other file changes |
| `Directory.ReadDir.Next` | crates/ps5/src/fs.rs:341-371 | the next real entry or error, independent of any errno left over; the skipping loop ends with the entries |
| `Directory.ReadDir.Drain` | crates/ps5/src/fs.rs:341-371 | repeated calls until None see every answer but "." and "..", in order |
| `Directory.ErrorFreeListing` | crates/ps5/src/fs.rs:330-371 | an error-free stream lists exactly the entries other than "." and "..", in order |
| `Directory.DotExact` | crates/ps5/src/fs.rs:366 | the names skipped are those of one or two dots, and no other name that starts with a dot |
| `Directory.NoStaleError` | crates/ps5/src/fs.rs:341-361 | whatever errno was left over, next returns the next thing to be seen, and the end exactly when there is nothing |
| `Directory.StaleErrorWithoutClearing` | crates/ps5/src/fs.rs:343-348 | without clearing errno, the end would be reported as an error exactly when something was left there |
| `Directory.ErrorsAreFaults` | crates/ps5/src/fs.rs:341-371 | an iteration reports an error exactly when readdir failed with it |
| `Directory.NameExact` | crates/ps5/src/fs.rs:388-398 | a name stays within the claimed length and the array and stops exactly at the first NUL |
| `Resolver.SockaddrRoundTrip` | crates/ps5/src/net.rs:36-50 | encoding and decoding a socket address are inverse both ways, for every address and port |
| `Resolver.NetworkOrder` | crates/ps5/src/net.rs:36-44 | port and address are laid out most significant byte first, with the family and length of an IPv4 address |
| `Resolver.LookupHost` | crates/ps5/src/net.rs:395-425 | asks for the host and the printed port; the decoded AF_INET addresses in list order; exactly the list obtained is freed, once; a host with a NUL asks nothing |
| `Resolver.ListExact` | crates/ps5/src/net.rs:411-422 | for a list of any entries: each IPv4 entry with an address, decoded, at its place among those, and nothing for the others |
| `Resolver.DecodedEncodings` | crates/ps5/src/net.rs:395-425 | a list of encoded addresses resolves to those addresses |

## Left out

- Spawn, Monitor and Server are transition systems on values, not classes with methods: their subject is interleaving, which sequential methods cannot express; aliasing of the shared objects is represented by the reference count and the owner field.
- Server: the loop of `serve` is the state machine's main thread rather than a `while` loop, and the reference count of the shared handler is not tracked.
- Server.EveryConnectionAnswered: the handler is a function of the request, so state that handlers share between connections is not modelled; how the network will answer on a connection is fixed, arbitrarily, when it is accepted.
- Spawn: unwinding out of a closure, since the release profile aborts on panic; weak memory beyond the ordering that join and lock give.
- Monitor: destruction and failed initialisation of a mutex or condition variable, a guard leaked by `mem::forget` in user code, and one condition variable used with two mutexes.
- Connection: the outcome of `shutdown`, which the code ignores.
- Directory.Name: the lossy replacement of invalid UTF-8 in a file name; the name is kept as bytes.
- Files: `read_to_string`, seek, metadata, option flags other than the two used by whole-file reads and writes, rename, and concurrent writers.
- SceClient.UseClient: the program that uses the client is an example; the repository has no such loop.
- SceClient: pool sizes and other constants passed through to the libraries, and `get`, which only calls `request`.
- Resolver: the IPv6 branch, and what getaddrinfo does with the host name.
- HttpMessage: the response builder's setters and the server's tuning setters.
- UDP sockets, socket options, non-blocking mode, error formatting, and the raw bindings: single calls without branching.
