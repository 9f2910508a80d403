# Quackhole, modelled and proved in Dafny

Quackhole carries Quack, DuckDB's remote protocol over HTTP/1.1, across iroh streams, from native
DuckDB and from DuckDB-Wasm in a browser. This project models the parts of it that are easy to get
wrong, and proves what they are for. `dafny verify dfyconfig.toml` checks all of it.

Three kinds of model are used. Sequential loops and objects are methods and classes, proved against
specification functions about which the theorems speak. Printers and parsers are functions. Threads,
ports and tasks are step machines: `Apply` gives the state after one action or None, a run is any list
of actions accepted one after the other, and theorems hold over all runs.

| files | what they model |
|---|---|
| `SharedBridge`, `BridgeSafety`, `BridgeReady`, `BridgeDelivery`, `BridgeAnswers`, `BridgeProgress`, `BridgeStale`, `BridgeLoops`, `Protocol`, `HeadJson` | the blocking bridge between the DuckDB thread and its worker, each atomic access and each byte copied a step |
| `RelayRouting` | the page's two FIFO ports, `peer` frames, the suspended init, and the relay a request is dialled through |
| `Http`, `HttpRequest`, `HttpHead`, `HttpResponse`, `HttpRoundTrip`, `HttpFraming`, `Numbers` | the request printer, the response parser, the chunked decoder |
| `Compress`, `Serve`, `Asking`, `ServeBridge`, `EndToEnd` | the envelope, the sniffing loop, the compressed pump, the two-way copy, and all of them together |
| `Dial` | the redial-once policy over the shared connection cache |
| `Peer` (module `Peers`), `Encoding`, `JsonStrings`, `TicketSpellings`, `Refusals` | tickets and addresses, with base64url and JSON strings written out |
| `Relays`, `RelayLists` | canonical relay lists, the peer table |
| `Session` | the browser session's connection list |
| `Text` | searching, splitting, trimming |

## Where the code does not do what one would hope

Each comes with a concrete run or input, and with the exact condition under which all is well.

- An abandoned round trip is not forgotten: the next request can return its late answer, head, body and
  all (`BridgeStale.StaleAnswer`). All is well from every moment at which the bridge owes no frame
  (`BridgeDelivery.Delivery`), and only then (`BridgeStale.OwedIsTaken`).
- Re-arming the slot notifies nobody, so behind an abandoned round trip both threads can sleep until a
  capped wait ends (`BridgeStale.AsleepCanHappen`): only if the bridge slept when the slot was armed
  (`BridgeProgress.NeverAsleep`).
- The request method is not checked for CR and LF: it can end the head (`HttpRequest.MethodCutsTheHead`)
  or bring in a header (`HttpRequest.MethodBringsAHost`). The head ends, and splits, as it should exactly
  if the method holds no blank line, or no CRLF (`HttpRequest.HeadEndsWhereItShould`,
  `HttpRequest.HeadSplitsBack`).
- Framing header names are compared untrimmed, so "Host " gets past (`HttpRequest.SpacedHostSlipsPast`);
  `HttpRequest.FramingIsOurs` says exactly when framing is the code's alone, in the head as it is read.
- Truncation of a response with neither Content-Length nor chunked coding is silent
  (`HttpRoundTrip.ShortBodyAccepted`, and for all such responses
  `HttpResponse.UnframedTruncationIsSilent`).
- For heads ending between 16385 and 20479 bytes, whether compression is heard depends on how the
  network cuts the request (`Serve.SniffGap`); for all others it does not (`Serve.SniffDecision`).
- A redial that fails leaves the connection it failed on in the cache (`Dial.SecondFailureStaysCached`);
  a failure invalidates exactly if it was the request's first (`Dial.FirstFailuresInvalidate`).
- A hand-typed DETACH leaves the secret behind, and the next attach of that peer fails
  (`Session.TypedDetachThenAttachFailsOnce`); `Session.WhenAttachWorks` says exactly when one does not.
- An address without a scheme's slashes whose path holds a `://` is read as what follows that
  (`Peers.PathHidesTheId`); `Peers.BareAddress` and `Peers.SchemeAddress` hold for all other paths.
- The fresh name is checked against the session's own list only, so a database attached by hand can hold
  it (`Session.NameCanBeTaken`); `Session.WhenAttachWorks` has that among its conditions.
- Only the first `qh1_` of a paste is tried (`Peers.StrayPrefixHidesTheTicket`,
  `Peers.FirstPrefixDecides`).

## Model

| member | source | states |
|---|---|---|
| `BridgeSafety.StepKeeps` | web/protocol.js:30-51 | Every step of either thread, the ports, the clock, a crash or a load error keeps the ownership invariant of STATE, LEN, FLAGS and data, written for half-done states too, in every run |
| `BridgeSafety.NeverHalfWritten` | web/bridge-worker.js:45-59 | In every run, abandoned round trips or not: the shim never reads while the bridge writes, and the chunk it releases is the whole of what the bridge last published |
| `BridgeSafety.NoRequestBeforeReady` | web/shim.js:162-193 | A request is posted only once READY says READY_OK; if the transport never starts, nothing is ever posted |
| `BridgeReady.NeverGivesUpEarly` | web/shim.js:162-193 | Over every session: the wait before a request posts nothing, lets the request go on only under READY_OK, and refuses it only when READY says READY_FAILED or more than thirty seconds have passed since it began |
| `BridgeReady.ReadyIsSeen` | web/shim.js:169-193 | In every such wait, once READY is set six steps of the thread, and one second only if it is asleep, post the request or refuse it |
| `BridgeReady.SilenceIsGivenUp` | web/shim.js:169-172 | A bridge silent for longer is given up within four steps and one second |
| `BridgeReady.DoesNotSpin` | web/shim.js:169-172 | Meanwhile the thread sleeps: with no tick of the clock it cannot take five steps |
| `BridgeDelivery.Delivery` | web/shim.js:190-241 | From any reachable moment at which the bridge owes no frame, in every interleaving, for every body length and buffer size: a round trip that returns, returns the head and body of its own answer, and if it throws anything but the deadline error, that is the one error the bridge had to say; up to the first round trip abandoned with its answer still to come |
| `BridgeDelivery.DeliveryFromTheStart` | web/shim.js:190-241 | So from the start of every session, up to the first round trip abandoned with its answer still to come |
| `BridgeAnswers.AnswersOrErrors` | web/shim.js:218-240 | The same told from the outcome and the buffer size alone: a round trip not ended by its deadline ends in its own head and body; or in the transport's own words, "bridge error" standing for empty ones; or, for a head larger than the buffer, in the range error's words. One with nothing that fits ends at its deadline |
| `BridgeAnswers.AnswersFromTheStart` | web/bridge-worker.js:178-197 | So it is from the start of every session, up to the first round trip abandoned with something still to be said |
| `BridgeAnswers.SomeRunTells` | web/bridge-worker.js:178-197 | Whatever can be said for request 0, some run says it |
| `BridgeAnswers.NeverGivenUpEarly` | web/shim.js:195-203 | No round trip is given up before the request's budget and five seconds more have passed since it was posted |
| `BridgeDelivery.QuietAgain` | web/shim.js:190-241 | Outside a round trip, none having been abandoned with its answer to come, the bridge owes nothing again; a deadline that passed over a bridge with nothing to say spoils nothing |
| `BridgeDelivery.HandOffs` | web/bridge-worker.js:179-194 | In the same runs, when a round trip puts its body together, exactly 1 + max(1, ceil(n/k)) chunks have changed hands, and the last data chunk alone lacked MORE |
| `BridgeStale.OwedIsTaken` | web/shim.js:190-196 | The condition of Delivery is exact: from every reachable state in which a request is posted to a bridge that still owes a frame, there is a run in which the first chunk that request is handed is such a frame |
| `BridgeStale.StaleAnswer` | web/shim.js:190-196 | For every answer with a frame to it: a run in which request 0 is abandoned and request 1 returns request 0's head and body, or throws its error |
| `BridgeStale.SomeRunDelivers` | web/shim.js:190-241 | Delivery does happen: for every outcome with a frame to it there is a run in which request 0 ends with what it is owed |
| `BridgeProgress.NoDeadlock` | web/bridge-worker.js:45-59 | In every reachable unfinished round trip with a live bridge and a frame still to come, some thread or the event loop can step without the clock, if and only if the two threads are not both asleep on STATE |
| `BridgeProgress.NeverAsleep` | web/shim.js:192 | Both are never asleep in a round trip armed while the bridge was awake |
| `BridgeStale.AsleepCanHappen` | web/shim.js:192 | They can be in one armed while the bridge slept, because the store of IDLE notifies nobody: a run in which request 0 was abandoned between its first frame and its second |
| `BridgeProgress.ShimLowers` | web/shim.js:198-227 | In every round trip, each step of the blocked thread lowers a measure of frames still to come for whatever request, notifies left and time to the deadline, or ends the round trip |
| `BridgeProgress.OthersNotRaise` | web/shim.js:198-227 | No step of the bridge, the ports, the clock or a crash raises that measure |
| `BridgeProgress.RoundTripIsBounded` | web/shim.js:195-227 | Under any interleaving the blocked thread takes at most that many steps in a round trip, also in one behind an abandoned one |
| `BridgeProgress.ShimCanStep` | web/shim.js:198-206 | The blocked thread is never stuck: after at most one capped wait of 1000 ms it has a step |
| `BridgeProgress.DeadBridgeNeverAnswers` | web/shim.js:195-239 | If the bridge stops for good with no chunk out that could end the round trip, that round trip and every later one ends in the deadline error, never in a short body |
| `BridgeProgress.DoomedMeansCutShort` | web/shim.js:195-239 | For a round trip posted to a bridge that owed nothing, that condition says exactly that its last chunk was never published, or that it has none |
| `BridgeProgress.AfterDeathOnlyDeadlines` | web/shim.js:195-239 | Once the bridge is dead, every round trip begun after that ends in the deadline error, whatever was abandoned before |
| `BridgeProgress.DeadBridgeEndsInError` | web/shim.js:197-203 | It does end in that error, within the measure's number of steps of the blocked thread |
| `BridgeLoops.SharedBuffer.WriteChunk` | web/bridge-worker.js:45-59 | Publishes exactly the given bytes, flags and state, or, if they do not fit, nothing at all |
| `BridgeLoops.SharedBuffer.TakeChunk` | web/shim.js:209-216 | Takes exactly the chunk on offer and hands the slot back |
| `BridgeLoops.CutBody` | web/bridge-worker.js:186-194 | The chunk loop: its pieces put together are the body, each fits the buffer, there are max(1, ceil(n/k)) of them, and only the last lacks MORE |
| `BridgeLoops.Reassemble` | web/shim.js:229-235 | The body array is the concatenation of the chunks kept |
| `Protocol.AnswerShape` | web/bridge-worker.js:179-194 | The frames of an answer: META first and alone, parsing back to the head; then data frames that carry the body, each fitting the buffer |
| `HeadJson.LawfulConfigExists` | web/bridge-worker.js:180-183 | The JSON coding the META chunk relies on exists: a concrete one reads back every status and list of headers it writes |
| `RelayRouting.EveryDialUsesItsRelay` | web/bridge-worker.js:129-172 | In every interleaving of page, worker, bridge and suspended init, each dial uses the relay of the last `peer` frame the page posted for that peer before the statement that caused it, or else the default; and there is a client to dial with |
| `RelayRouting.UnregisteredPeerUsesTheDefault` | web/bridge-worker.js:85-89 | A peer no frame was posted for before the statement is dialled through the default relay, or through none if there is none |
| `RelayRouting.RelaylessPeerUsesTheDefault` | web/bridge-worker.js:85-89 | So is one whose last frame named no relay |
| `RelayRouting.EveryRequestIsDialledOnce` | web/shim.js:147-160 | Dials made, and requests still in the port, are in order exactly the requests posted that name a peer: none twice, none skipped, none to another peer |
| `RelayRouting.NothingPostedBeforeReady` | web/bridge-worker.js:136-152 | A request can be posted only when init has finished well, the client exists, READY is READY_OK and no error has been reported |
| `RelayRouting.ErrorStopsPosting` | web/shim.js:133-139 | Once the bridge's worker has reported an error, nothing is posted any more, whatever READY says later |
| `RelayRouting.TwoRemotes` | web/session.js:64-100 | A run in which two peers are registered and a statement made to each: each is dialled once, through its own relay |
| `RelayRouting.AttachedPeerKeepsItsRelay` | web/session.js:64-100 | A peer attached with a relay of its own is dialled through it by every later statement until the page posts another for it, whatever is posted for others in between |
| `Http.BuildRequest` | crates/quackhole-core/src/http.rs:74-130 | The printing loop yields exactly the specified request or the specified refusal, in the order of the checks |
| `Http.PushHeaders` | crates/quackhole-core/src/http.rs:83-94 | The header loop: first offending header decides the error; otherwise the non-framing headers are written in order and a content type is noticed |
| `HttpHead.AcceptedExactly` | crates/quackhole-core/src/http.rs:74-110 | A request is accepted if and only if path, host, port, every header name and value, and the content type that will be written, hold no CR and no LF |
| `HttpHead.RefusalNames` | crates/quackhole-core/src/http.rs:52-57 | A refusal names the first thing wrong with the request, in the order path, host, port, each header's name and value, content type |
| `HttpHead.FirstLineReads` | crates/quackhole-core/src/http.rs:79-80 | For a method without space, CR and LF, and a path without space: the first line splits at spaces into the method, the path, "/" for an empty one, and "HTTP/1.1" |
| `HttpHead.HeadersAsRead` | crates/quackhole-core/src/http.rs:81-125 | For a clean method and token names, every header a server reads, in order: Host as host and port; the caller's own, less those of the five framing names; with a body its length in decimal and, if the caller gave none, its content type; the accept header; and Connection |
| `HttpHead.HeadSays` | crates/quackhole-core/src/http.rs:81-125 | So under each name that matters a server finds that value: the caller's first content type, or else the one given, or else "application/octet-stream" for a request with a body |
| `HttpRequest.HeadEndsWhereItShould` | crates/quackhole-core/src/http.rs:74-130 | The first CRLFCRLF of the output is the head's own end if and only if the method, which the code does not check, holds none |
| `HttpRequest.HeadSplitsBack` | crates/quackhole-core/src/http.rs:74-130 | Splitting the head at CRLF gives back the request line and header lines, in order, if and only if the method holds no CRLF |
| `HttpRequest.FramingIsOurs` | crates/quackhole-core/src/http.rs:65-130 | For every request whose method holds no blank line: the header lines a server finds in its head are one Host, one Connection, one accept header, no Transfer-Encoding, and one Content-Length exactly when there is a body, among whatever else, if and only if no kept caller header reads as one of these and no line a CRLF in the method brings in does. With a blank line in the method the server reads the method alone |
| `HttpRequest.LinesAsRead` | crates/quackhole-core/src/http.rs:74-130 | The header lines a server finds in the head are those a CRLF in the method brings in, and then the code's own, in order |
| `HttpRequest.MethodBringsAHost` | crates/quackhole-core/src/http.rs:74-81 | A method with one CRLF in it, no caller headers, no blank line: accepted, and a server reads two Host headers |
| `HttpRequest.TokenHeadersReadBack` | crates/quackhole-core/src/http.rs:83-94 | With token names the caller's non-framing headers read back in order, unchanged but for white space around values, and none can slip past the framing filter |
| `HttpRequest.ContentLengthReadsBack` | crates/quackhole-core/src/http.rs:96-98 | The announced length, read as `parse_response` reads lengths, is the length of the body |
| `HttpRequest.ServerHearsTheClient` | crates/quackhole-core/src/compress.rs:90-102 | `wants_compression` holds of the front of a built request, up to its first blank line, exactly unless the method holds a blank line of its own and what stands in front of that does not ask |
| `HttpRequest.AcceptedRequest` | crates/quackhole-core/src/http.rs:52-130 | For methods free of CR and LF and token header names: the head ends where it should with the body right behind it, splits into its lines, carries the caller's headers in order and one of each framing header, and asks for compression |
| `HttpRequest.MethodCutsTheHead` | crates/quackhole-core/src/http.rs:74-80 | A method with a blank line in it is accepted, and the head then ends inside the method |
| `HttpRequest.SpacedHostSlipsPast` | crates/quackhole-core/src/http.rs:65-71 | A header named "Host " is accepted, and a server reads two Host headers: the filter compares names untrimmed |
| `Http.ParseResponse` | crates/quackhole-core/src/http.rs:137-190 | The parsing loop computes exactly the specified response or error |
| `Http.DecodeChunked` | crates/quackhole-core/src/http.rs:197-226 | The decoding loop yields exactly the recursive decoding, or its error, on every input |
| `HttpResponse.TruncationIsAnError` | crates/quackhole-core/src/http.rs:137-190 | A framed response cut anywhere is accepted if and only if the cut is at or behind the point where its body is complete, and then means the same |
| `HttpResponse.BytesBehindChangeNothing` | crates/quackhole-core/src/http.rs:161-183 | Whatever bytes follow an accepted framed response, it means the same |
| `HttpResponse.CompleteIsInside` | crates/quackhole-core/src/http.rs:161-189 | The body of an accepted response is complete within the bytes that were accepted |
| `HttpResponse.UnframedTruncationIsSilent` | crates/quackhole-core/src/http.rs:184-188 | A response with neither framing, cut behind its head, is accepted with the shorter body: the guarantee holds exactly for the framed |
| `HttpFraming.HeadKeepsItsHead` | crates/quackhole-core/src/http.rs:132-167 | A response to HEAD keeps its status, its reason and its headers, whatever they promise; only the body is empty |
| `HttpFraming.NoHeadIsAnError` | crates/quackhole-core/src/http.rs:138-140 | Without a blank line there is no response, body expected or not |
| `HttpFraming.OddStatusLines` | crates/quackhole-core/src/http.rs:147-152 | A second word that is no number up to 65535 is status 0, what follows it is the reason, and what is missing is 0 or empty |
| `HttpFraming.LineWithoutColonIsSkipped` | crates/quackhole-core/src/http.rs:153-159 | A header line without a colon is passed over |
| `HttpFraming.ChunkedBeatsLength` | crates/quackhole-core/src/http.rs:162-169 | If the first Transfer-Encoding says chunked, in any letter case, the body is the chunks, whatever lengths are promised |
| `HttpFraming.FirstLengthDecides` | crates/quackhole-core/src/http.rs:170-183 | Otherwise the first Content-Length decides: as many bytes as it says, or an error if there are fewer |
| `HttpFraming.NeitherRunsToTheEnd` | crates/quackhole-core/src/http.rs:184-188 | With neither, or a first Content-Length that is no number, the body is everything that follows |
| `HttpFraming.SizeLineDecides` | crates/quackhole-core/src/http.rs:200-219 | A chunk size that is no number, or is past the data, or a missing size line, is an error; zero is the end |
| `Text.TrimExactly` | crates/quackhole-core/src/http.rs:154-158 | Trimming takes white space off both ends, all of it, and nothing else |
| `HttpFraming.NumberExactly` | crates/quackhole-core/src/http.rs:207-209 | Exactly what is a number, in base ten and sixteen: one plus sign or none, at least one digit, digits of the base alone, worth no more than the machine word holds; and its value is the sum of its digits by place |
| `HttpFraming.SomeNumbers` | crates/quackhole-core/src/http.rs:98-98 | Numbers spelled out: sizes are read in base ten or sixteen, in either letter case and with leading zeros, and a length is written in decimal without them |
| `HttpFraming.TooLargeIsNone` | crates/quackhole-core/src/http.rs:207-209 | Nor is a number past the largest machine word |
| `HttpResponse.ChunkedCut` | crates/quackhole-core/src/http.rs:197-226 | Cut before the CRLF of the zero size line, chunked data is an error; from there on the cut changes nothing |
| `HttpResponse.UnchunkEncode` | crates/quackhole-core/src/http.rs:197-226 | The decoder undoes the chunked coding of RFC 9112 section 7.1 for every list of non-empty chunks, size spelling, extension and trailer, and stops right behind the zero size line |
| `HttpResponse.HexIsASpelling` | crates/quackhole-core/src/http.rs:205-209 | Sizes with each digit in either letter case and any number of leading zeros are spellings the round trip covers, up to the word limit |
| `HttpRoundTrip.WireReadsBack` | crates/quackhole-core/src/http.rs:137-190 | For every status up to 65535, reason without CR or LF, and headers with token names: a printed response reads back as that status, reason and headers, in order, with the body its framing announces |
| `HttpRoundTrip.ShortBodyAccepted` | crates/quackhole-core/src/http.rs:184-188 | A concrete unframed response, cut by three bytes, is accepted with a body three bytes shorter |
| `HttpRoundTrip.LengthFramedReadsBack` | crates/quackhole-core/src/http.rs:170-183 | A length-framed response reads back whole, whatever follows it on the stream |
| `HttpRoundTrip.ChunkedReadsBack` | crates/quackhole-core/src/http.rs:161-169 | A response in chunked coding reads back whole, however cut into chunks and whatever trails it |
| `Compress.Emit` | crates/quackhole-core/src/compress.rs:168-177 | Moves what is ready, the magic in front of the first non-empty delivery only, and leaves the sink empty |
| `Compress.Encoder.Push` | crates/quackhole-core/src/compress.rs:140-147 | Appends to the caller's buffer exactly what the stream so far, magic included, gains by this push |
| `Compress.Encoder.Finish` | crates/quackhole-core/src/compress.rs:150-159 | All appended over the life of the encoder is the magic, once, and the codec's whole stream |
| `Compress.EnvelopeDecodes` | crates/quackhole-core/src/compress.rs:191-218 | The envelope of any pushes decodes to what was pushed if that is within the cap, and is refused as too large otherwise |
| `Compress.CutEnvelopeIsNoReply` | crates/quackhole-core/src/compress.rs:191-218 | An envelope cut at any point is refused, or, inside the magic, passed on as bytes that hold no HTTP head |
| `Compress.StoredIsLawful` | crates/quackhole-core/src/compress.rs:111-116 | The laws asked of the codec can be met: a concrete codec meets them |
| `Serve.PumpIsTransparent` | crates/quackhole-core/src/serve.rs:246-293 | However the reply is cut into non-empty reads, the envelope of them, which PumpCompressed shows to be what the pump writes, decodes to the reply, or is over the cap |
| `Serve.Sniff` | crates/quackhole-core/src/serve.rs:222-244 | The reading loop computes the specified buffer and decision for any sequence of reads |
| `Serve.SniffDecision` | crates/quackhole-core/src/serve.rs:211-244 | However the request is split into reads: a head ending within 16384 bytes decides by itself, one ending past 20479 never compresses, what was read is a prefix of the stream, and at most 20479 bytes are held |
| `Asking.WhatAsks` | crates/quackhole-core/src/compress.rs:90-102 | A head of a request line and header lines asks if and only if some header's name in lower case is "x-quackhole-accept-encoding" and some comma-separated piece of its value, trimmed and in lower case, is "gzip" |
| `Asking.AnsweredAsAsked` | crates/quackhole-core/src/serve.rs:213-244 | A request that does not ask so is never answered in an envelope, however it is cut into reads; one that does, in a head of at most 16384 bytes, always is |
| `Asking.AnotherHeadersGzip` | crates/quackhole-core/src/compress.rs:94-97 | "gzip" under another header does not ask |
| `Asking.AnotherCoding` | crates/quackhole-core/src/compress.rs:97-99 | The right header with another coding does not ask |
| `Asking.SecondInTheList` | crates/quackhole-core/src/compress.rs:88-101 | Name and coding in other letters, the coding second in the list: it asks |
| `Serve.SniffExactly` | crates/quackhole-core/src/serve.rs:222-244 | What is handed back is exactly the bytes of the reads made, none lost; reading stops at the first read with which the head has ended or 16384 bytes are reached, or at the end of the stream; and it is a yes exactly if the head has ended and asks |
| `Serve.BrokenReadFails` | crates/quackhole-core/src/serve.rs:229-233 | A read that fails before that fails the whole |
| `Serve.SniffOnlyIfAsked` | crates/quackhole-core/src/serve.rs:213-244 | Whatever the reads, a yes means that the whole stream has a head, and that it asks |
| `Serve.SniffGap` | crates/quackhole-core/src/serve.rs:222-244 | For every head ending in between that asks for compression there is one split under which it is heard and another under which it is not |
| `Serve.PumpCompressed` | crates/quackhole-core/src/serve.rs:256-293 | However the reply is cut into reads, the writes put together are the magic and the codec's stream of it, and none is empty |
| `ServeBridge.BytesInOrder` | crates/quackhole-core/src/serve.rs:300-360 | In every interleaving of the two copies, Quack has received a prefix of the request and the client a prefix of the reply, or of the envelope of a prefix of it |
| `ServeBridge.RequestGetsThrough` | crates/quackhole-core/src/serve.rs:314-325 | From wherever a running exchange stands, at most three steps of the request direction bring Quack the whole request, however much was sniffed, and end that direction exactly if the client ended its half |
| `ServeBridge.SuccessSendsEverything` | crates/quackhole-core/src/serve.rs:338-359 | When the exchange succeeds, what was sent before FIN decodes to the whole reply |
| `ServeBridge.StoppedExchangeIsAnError` | crates/quackhole-core/src/serve.rs:319-359 | A compressed exchange stopped anywhere before its last byte gives the client an error, never a shorter reply |
| `ServeBridge.StoppedPlainExchange` | crates/quackhole-core/src/serve.rs:330-333 | A plain exchange of a framed reply stopped anywhere gives an error, or the whole reply, and decoding hands it on as it is |
| `ServeBridge.ReplyFinishesAlone` | crates/quackhole-core/src/serve.rs:295-299 | From wherever a running exchange stands, with the reply there to be read, it can come to its good end without another step of the request direction |
| `ServeBridge.DrainedIsDone` | crates/quackhole-core/src/serve.rs:338-353 | Once the request copy has finished, Quack has the whole request, and that copy is never stepped again |
| `EndToEnd.ReplyComesBack` | crates/quackhole-core/src/serve.rs:300-360 | From `build_request` to `parse_response`: for every request, every way it is cut, compressed or plain, and every bridge interleaving that ends well, the client parses exactly what it would parse of Quack's own reply; only an envelope over the cap is refused. A plain reply is one that does not start with the magic |
| `EndToEnd.StoppedIsNeverShort` | crates/quackhole-core/src/serve.rs:300-360 | Stopped anywhere before that, a compressed exchange gives the client an error, and a plain one with a framed reply an error or the whole reply |
| `EndToEnd.AnsweredInKind` | crates/quackhole-core/src/serve.rs:300-334 | Any client's exchange is plain if none of its headers asks, and compressed if one does in a head of at most 16384 bytes, under every split |
| `EndToEnd.SniffedAsBuilt` | crates/quackhole-core/src/serve.rs:222-244 | A request this client built is answered in an envelope however the network cuts it, if its method holds no blank line and its head is within 16384 bytes |
| `Dial.Perform` | crates/quackhole-core/src/dial.rs:25-75 | Any action of the machine, carried out on the cache object by its own methods, leaves the object holding what the machine's cache holds |
| `Dial.ConnCache.Invalidate` | crates/quackhole-core/src/dial.rs:36-40 | The peer has no connection any more, the others what they had |
| `Dial.AtMostOnce` | crates/quackhole-core/src/dial.rs:113-189 | With any number of requests on one cache and any outcomes: each request is wholly written at most once, attempted at most twice, twice only if a connection was cached at its start, and its ending tells whether it was written |
| `Dial.BlamedNeverHandedOut` | crates/quackhole-core/src/dial.rs:25-74 | In any interleaving, a connection whose failure was answered by an invalidation is never handed out by the cache again, to anyone |
| `Dial.EveryCallEnds` | crates/quackhole-core/src/dial.rs:154-189 | No request takes more than sixteen steps, whatever the others do |
| `Dial.EndsAsTheNetworkSaid` | crates/quackhole-core/src/dial.rs:118-146 | Over all runs, told from the steps a request took and what the network chose: it ends in a response exactly if the last was a read that went well, as failed after sending exactly if it was a read that did not, before sending exactly if an open or a write that did not, and unconnected exactly if a connect that did not |
| `Dial.NothingFailsNothingIsLost` | crates/quackhole-core/src/dial.rs:154-189 | A request none of whose own steps fails is answered within seven of them, tried once, written once, having blamed nobody, whatever the others meet |
| `Dial.RedialsWheneverItMay` | crates/quackhole-core/src/dial.rs:105-115 | A request that began with a cached connection and ended in a failure before sending has been tried twice |
| `Dial.ReusedSaysCached` | crates/quackhole-core/src/dial.rs:161-162 | Whether it may redial is settled by its first look at the cache, and by that alone |
| `Dial.WrittenToItsPeer` | crates/quackhole-core/src/dial.rs:57-74 | Whatever is written is written to a connection that leads to the peer the request was for |
| `Dial.FirstFailuresInvalidate` | crates/quackhole-core/src/dial.rs:165-179 | Over all runs: a request that ended in failure has invalidated for the connection it last failed on if and only if that was its first attempt, and so it has whenever nothing was cached for the peer when it began |
| `Dial.FailedOnceNeverHandedOut` | crates/quackhole-core/src/dial.rs:165-179 | The connection of such a failure is never handed out by the cache again, to anyone, at any later time |
| `Dial.SecondFailureLeavesTheCache` | crates/quackhole-core/src/dial.rs:169-173 | From the moment a redial has its connection, through any interleaving: the request blames nobody more, and none of its own steps changes the cache, however the attempt ends |
| `Dial.SecondFailureStaysCached` | crates/quackhole-core/src/dial.rs:167-173 | A concrete run in which a failed redial leaves the connection it failed on in the cache |
| `Peers.TicketRoundTrip` | crates/quackhole-core/src/peer.rs:112-174 | `parse_ticket` recovers the peer from its ticket for every token, also inside text whose front holds no `qh1_` and whose rest starts with a non-ticket character |
| `Peers.FirstPrefixDecides` | crates/quackhole-core/src/peer.rs:137-174 | Behind any text that holds a `qh1_`, only the ticket characters that follow the first one are read: the paste means what they say, or is refused; if that text ends in no ticket character, nothing behind it is read |
| `Peers.StrayPrefixHidesTheTicket` | crates/quackhole-core/src/peer.rs:227-237 | So a stray "qh1_ " in front of any good ticket is enough for a refusal |
| `Refusals.TicketNeedsARelay` | crates/quackhole-core/src/peer.rs:108-119 | A ticket is refused to a peer without a relay, and to no other |
| `Refusals.NoTicketInIt` | crates/quackhole-core/src/peer.rs:137-150 | An empty paste, one that looks like an id, and one without a ticket are each refused by name |
| `Refusals.TicketsRefused` | crates/quackhole-core/src/peer.rs:152-173 | A whole ticket is refused by name exactly if its id is missing, its relay is missing or its id is no key, and otherwise gives the peer |
| `Refusals.CutTicketIsDamaged` | crates/quackhole-core/src/peer.rs:152-161 | A ticket cut to a length no encoding has is refused as damaged |
| `JsonStrings.StringExactly` | crates/quackhole-core/src/peer.rs:152-155 | Exactly what is read as a JSON string inside a ticket, for every text: plain characters, the eight short escapes, `\u` escapes in either letter case, surrogate pairs and no halves, up to a closing quote; and it means what RFC 8259 says |
| `JsonStrings.Utf8Exactly` | crates/quackhole-core/src/peer.rs:152-155 | A `\u` escape means the bytes of its code point as RFC 3629 lays them out, and no others |
| `TicketSpellings.TicketExactly` | crates/quackhole-core/src/peer.rs:152-155 | Exactly what is read as the three fields, for every text: a JSON object of string members, in any order, spelt in any way, with white space wherever JSON allows it and members nobody asked for, in which e comes once and r and t at most once, empty if missing |
| `TicketSpellings.AnySpellingParses` | crates/quackhole-core/src/peer.rs:137-174 | So every such ticket is damaged, without an id, without a relay, with a bad id, or its peer, told from what its members say |
| `TicketSpellings.NoObjectIsDamaged` | crates/quackhole-core/src/peer.rs:152-158 | And a ticket that is no such object is damaged |
| `Refusals.ColonInFront` | crates/quackhole-core/src/peer.rs:190-203 | A colon in front is no scheme: what follows is never taken for an id |
| `Refusals.WhichHostsAreOurs` | crates/quackhole-core/src/peer.rs:204-219 | In a URL with any scheme, port and path, exactly the hosts that end in ".iroh", in any letter case, with something in front, are ours, and that is the id |
| `Refusals.KnownEncodings` | crates/quackhole-core/src/peer.rs:125 | The test vectors of RFC 4648 section 10, without padding, and the two symbols of the URL alphabet |
| `Refusals.KnownLiterals` | crates/quackhole-core/src/peer.rs:120 | The escapes of quotes, backslashes and control characters, letter for letter |
| `Refusals.KnownTicketText` | crates/quackhole-core/src/peer.rs:120-124 | The text of a ticket before it is encoded, letter for letter |
| `Peers.NewIsCanonical` | crates/quackhole-core/src/peer.rs:64-70 | A peer that was constructed is already in the form the round trip needs |
| `Peers.AddressRoundTrip` | crates/quackhole-core/src/peer.rs:90-92 | `parse_address` inverts `address()` for ids of ASCII letters and digits |
| `Peers.BareAddress` | crates/quackhole-core/src/peer.rs:189-220 | A bare host, in any letter case of its suffix, with or without a port and a path that brings in no `://`, gives the id with its case kept |
| `Peers.SchemeAddress` | crates/quackhole-core/src/peer.rs:193-203 | The same behind any alphabetic scheme and a colon |
| `Peers.LaterUrlWins` | crates/quackhole-core/src/peer.rs:191-192 | Only what stands behind the first `://` is read, whatever stands in front of it |
| `Peers.PathHidesTheId` | crates/quackhole-core/src/peer.rs:176-192 | A concrete address whose path holds a URL: the URL's id is read, not its own |
| `Peers.UrlAddress` | crates/quackhole-core/src/peer.rs:191-209 | The id is recovered with its case kept from any `scheme://` form, with any port and path |
| `Peers.SpacesAroundAddress` | crates/quackhole-core/src/peer.rs:190 | White space around an address changes nothing |
| `Encoding.DecodeEncode` | crates/quackhole-core/src/peer.rs:125 | Unpadded base64url (RFC 4648 section 5) decodes to what was encoded |
| `Encoding.EncodeDecode` | crates/quackhole-core/src/peer.rs:152-155 | Whatever the decoder accepts is exactly what the encoder writes for it: one spelling only |
| `Encoding.LiteralReadsBack` | crates/quackhole-core/src/peer.rs:120-124 | Every string, quotes, backslashes and control characters included, survives its JSON literal (RFC 8259 section 7) |
| `Relays.NormalizeTellsTheSet` | crates/quackhole-core/src/lib.rs:183-208 | Two lists normalise to the same string if and only if they name the same set of relays |
| `RelayLists.WhatAListNames` | crates/quackhole-core/src/lib.rs:183-192 | Told from how a list is written: the relays it names are exactly what its entries parse to, whatever commas and white space stand between, in front and behind, and it is an error exactly if an entry parses to nothing |
| `RelayLists.SameFormSameRelays` | crates/quackhole-core/src/lib.rs:194-208 | Two written lists have the same canonical form if and only if their entries parse to the same relays |
| `Relays.NormalizeAgain` | crates/quackhole-core/src/lib.rs:202-208 | Normalising is idempotent |
| `Relays.PeerMap.RecordPeer` | crates/quackhole-core/src/lib.rs:211-225 | The map in place becomes the specified one |
| `Relays.WhatIsRemembered` | crates/quackhole-core/src/lib.rs:210-225 | After any history: a peer has the direction it was first seen in and the last known path, and is there exactly if it was recorded |
| `Session.EverySessionIsValid` | web/session.js:78-165 | Over every sequence of attach, detach, hand-typed DETACH or ATTACH and reconcile, with any statement failing: the local entry stays first, all others are remote, names and endpoint ids stay pairwise distinct |
| `Session.UniqueNameIsFree` | web/session.js:53-57 | The name handed out is free; if the base is taken it carries the least free suffix from 2 on |
| `Session.QuackholeSession.FreshName` | web/session.js:53-57 | The unbounded counting loop ends, by pigeonhole, with that name |
| `Session.QuackholeSession.AttachPeer` | web/session.js:78-128 | A record returned shows the ticket's id, relay and secret name, under a name no catalog had, and is what the list grew by; on failure neither list nor catalogs change; for an unlisted peer exactly its id and relay are posted |
| `Session.QuackholeSession.ReconcileList` | web/session.js:154-165 | The splice loop leaves the order-preserving filter and returns exactly what it took out |
| `Session.QuackholeSession.DetachRecord` | web/session.js:138-145 | Catalogs, secrets and list afterwards, whichever statements fail, and the list is still valid |
| `Session.ReconcileTellsTheTruth` | web/session.js:154-165 | After a reconcile that could ask, every remote listed is attached, nothing else is lost, and list and removed together are the old list |
| `Session.EveryRemoteIsRegistered` | web/session.js:64-100 | Over every sequence of operations, the relay a listed remote shows is the one last posted for its endpoint |
| `Session.RetryWorks` | web/session.js:110-124 | A failed attach whose secret is dropped leaves nothing in the way of a retry, which gives the same record under the same name |
| `Session.AttachTellsTheTicket` | web/session.js:64-128 | For every peer not listed, whether the attach works or not, its id and relay are posted and nothing else; if it works, the one new record shows the ticket's id and relay and names the secret after the id, and with a token that secret is held |
| `Session.ListedIsRefused` | web/session.js:81-84 | For a peer that is listed nothing happens |
| `Session.DialledByTheTicket` | web/session.js:64-100 | From the ticket to the dial, over all sessions: a request to a peer by any statement after its attach is dialled through the relay of its ticket, or the default if it names none, until another attach of that peer is let through |
| `Session.NoAnswerNoChange` | web/session.js:154-161 | A reconcile that could not ask changes nothing |
| `Session.HandAttachUnlistsNobody` | web/session.js:147-165 | A database attached by hand takes nobody off the list |
| `Session.HandDetachUnlistsOne` | web/session.js:147-165 | A DETACH typed by hand takes off, at the next reconcile, that catalog's remote alone |
| `Session.FailedDetachKeepsTheList` | web/session.js:138-145 | A failed DETACH leaves list and catalogs as they were; the secret goes exactly if its DROP works |
| `Session.DialledAsListed` | web/session.js:64-100 | From the session to the dial: a request that a statement makes to a listed remote posted after the session's frames so far, is dialled through the relay the session shows for it, or the default, in every interleaving |
| `Session.SecretsAreAccounted` | web/session.js:110-145 | After any session, a secret is held exactly if some operation created it and none has dropped it since |
| `Session.WhenAttachWorks` | web/session.js:78-128 | After any session, an attach that meets no bad luck succeeds exactly if the peer is not listed, it has no token or its secret was dropped since, and the fresh name is no catalog |
| `Session.NameCanBeTaken` | web/session.js:53-57 | The name condition is a real one: with a database attached by hand as `remote`, an attach under that name fails |
| `Session.LeftByHand` | web/session.js:147-165 | A remote that left by a hand-typed DETACH, in any session, can be attached again at once exactly if it has no token or its secret is gone; otherwise the attempt drops the secret and the next one works |
| `Session.DetachThenAttachWorks` | web/session.js:130-145 | After any session, a listed peer taken off with `detach` can be attached again at once exactly if the fresh name is no catalog |
| `Session.TypedDetachThenAttachFailsOnce` | web/session.js:147-165 | The concrete case from a fresh session: the secret stays, the next attach collides with it, and the one after that works |

## Left out

- Bytes and text are sequences of characters; that a byte is below 256 is stated only where base64url needs it. Lossy UTF-8 decoding of heads and size lines, and white space outside ASCII, are not modelled.
- The JSON of a META chunk is any coding that reads back what it writes; `HeadJson` shows there is one. `TextEncoder` and `TextDecoder` are identities. Gzip is a codec under three laws (its whole stream expands to what was pushed, its end has a byte of its own, a cut stream is not complete); `Compress.StoredIsLawful` shows they can be met. Keys and relay URLs are parsers under the laws that printing and parsing agree.
- The shared memory is sequentially consistent, as JavaScript Atomics are; `data.set` and `data.slice` are not atomic here, they move one byte a step.
- Bridge messages settled out of order after an abandoned round trip are in the step machine (`Settle` takes any request out), but the bridge handles one settled answer to its end before the next; two `writeChunk` calls never interleave, as in the source.
- BridgeDelivery.Delivery: says nothing of round trips behind one that was abandoned with its answer still to come, until the bridge owes nothing again; the code does not deliver there.
- BridgeStale.OwedIsTaken: shows that the first chunk is a foreign one, not that the whole answer is; that can still come out right by chance, when two answers are the same.
- BridgeLoops.SharedBuffer.WriteChunk: the wait for STATE to be IDLE is its precondition here; the wait itself is steps of `SharedBridge`.
- RelayRouting.EveryDialUsesItsRelay: covers the iroh mode, with a request's handling atomic up to its dial, and lets the worker post a request while another is out, which is more runs than the source has. `x-host-override` and the port are not modelled.
- Http.DecodeChunked: that the position strictly advances and stays in bounds is in its loop, not in its contract. It asks that the data be shorter than half the word range, which every Rust slice is; the specification has no such bound.
- Http.ParseResponse: asks the same, for the same reason.
- ServeBridge.ReplyFinishesAlone: the reply is a fixed text that is there to be read; that Quack waits for the request before it replies is not modelled.
- EndToEnd.ReplyComesBack: a plain reply that started with the envelope's magic would be taken for one; no HTTP reply does, and the lemma asks that this one does not.
- HttpRequest.AcceptedRequest: the method must be free of CR and LF and names must be tokens; without that, `HttpRequest.HeadEndsWhereItShould`, `HttpRequest.HeadSplitsBack` and `HttpRequest.FramingIsOurs` say when the head still ends, splits and frames as it should.
- Peers.SpacesAroundAddress: ASCII white space only, where the source trims all of Unicode's.
- TicketSpellings.TicketExactly: unknown members with values that are no strings, and UTF-8 validation of the decoded bytes, are not modelled.
- Dial: connecting, opening, writing and reading are outcomes chosen freely; error texts and the sampled path are left out. A request cancelled by its timeout is one that takes no further step. A poisoned lock is not modelled.
- Session: operations are taken one at a time; two `attach` calls overlapping at an `await` are outside the model. The database is its set of catalogs and its set of secrets, each statement free to fail; `tables()` and timings are left out. Records are values: two equal records cannot occur, since names differ.
- `set_peer_relay` and `peer_relay`: a map write and a map read; `parse_endpoint_id`, `relay_mode` and `peer_addr` are one branch each.
- The XHR replacement, the choice of hosts to intercept, plain fetch, fault injection and the text of `failed` frames: no state beyond one branch each.
- iroh, QUIC, TLS, tokio scheduling and cancellation, the FFI, the C++ extension, the service worker, the site and the npm package.
