# A verified model of MUDitM

MUDitM is a telnet proxy between a MUD client and a game. This project models its four
connected parts and one small extra, and proves what they promise over every input, every
way of cutting a stream into reads, every run and every interleaving:

* **The streaming rewriter.** `Matcher` is the search for literal patterns, first with a
  description of the right answer that does not mention the search, then as a loop.
  `Patterns` holds the tables and their compilation into one expression with a group for
  each pattern. `Rewriter` is the read, match, ship and handle loop over arbitrary handlers,
  and proves that the way a stream is cut does not matter. `Tokens` reads the client's
  stream as telnet commands and shows that the search for bytes rewrites commands;
  `Interleaving` shows that what the game is forwarded depends on the client's stream alone,
  and what the game never sees, the proxy's own messages included. `Parses` says what all
  the matches in a whole stream are, and `Readers` that the rewriter, reading it in pieces,
  deals with them all. `Markers` follows the start markers of compression through the game's
  stream, wherever they stand and however they are cut.
* **The negotiation machine.** `Handlers` says what each handler does to the two endpoints,
  `Fallback` is the clock arithmetic, `Sessions` the two endpoints driven by text from
  either side and by loop heads in any order. `Negotiation`, `Runs` and `GameFlow` follow
  what becomes of the text over whole runs; `Streams`, `ClientStances` and `Requests` prove
  that this is exactly what the two streams call for, so that the theorems about stances,
  the fallback, requests and offers are about what the two sides send. `Environ` is a reader
  for what the proxy injects, written after section 2 of RFC 1572 and after RFC 854, against
  which replies are round-tripped.
* **The compression layer.** `Codec` gives zlib as an abstract stream codec and proves the
  two loops lossless; `Wire` describes the two wires over whole runs.
* **The imperative program.** `Iobufs`, `Endpoints` and `Proxies` are the buffers, the
  endpoints, the handlers, the matching loop and the proxy loop as classes and methods that
  update arrays and fields in place. Every one of them is proved to refine the functions
  above, so that the theorems about runs hold of `Proxies.Connection`.
* **The forking accept loop** (`Children`) and **the certificate notices** (`CertThrottle`)
  are state machines with explicit program counters, interleaved with signals, exits, time
  and other processes.

## How it fits together

A `Step` is a loop head with a clock reading, or a text read from one side. `Run(cfg,
steps)` is the session after any sequence of steps. `Proxies.Connection` shows that the
program, whatever its sockets deliver, is in the state `Run(cfg, steps)` for some `steps`
whose texts are exactly the texts heard from the two sockets and whose loop heads are
exactly those of the turns taken. The bytes on the game's socket, and on the client's as
long as nothing was compressed, are those handed over, and the client's text is what its
socket gave. What has been heard from a compressed socket is related to its bytes by
`Proxies.HeardIsDecoded` and `Proxies.CompressedGame`, and what has been written to a
compressed socket to the session by `Proxies.ClientWire`.

A `Mark` is a command of the tables at its offset in a stream. `Streams.ClientHeard` and
`Streams.GameHeard` are the marks in the two streams, the game's in ignore mode up to the
first start marker; `Streams.ClientHeardExactly` and `Streams.GameHeardExactly` say that a
command is among them exactly if it stands in the stream, wherever that is.

A `Frame` is a byte handed to the socket layer together with its origin (relayed from the
other side, or injected by the proxy) and with whether it goes through the compressor, so
that order, conservation and compression can be stated over one history.

## What turned out not to hold

The model follows the code. Where that differs from what the code or its documentation
announces, the exact condition is proved:

* Patterns are printed with `%.*s` (handlers.c:87), which stops at a NUL byte. The request
  for all variables of type VAR contains one (handlers.c:133), so only its first four bytes
  are searched for (`Patterns.GameTableCompiles`). Any SEND request is then taken for one
  after four bytes (`GameFlow.SendIsCut`), and a refusing client is spared a request exactly
  if the request names nothing; of any other, as long as no pattern can begin in what it
  names, it receives all but the head (`GameFlow.RefusedRequestLeaks`).
* Bytes behind the start marker in the same read stay in the plaintext buffer (mccp.c:322)
  and go on as text (`Markers.CompressionStarts`); if they contain no IAC, they reach the
  client undecompressed (`GameFlow.StartMarkerTail`). The text fed to the matcher is the
  decoding of what follows the marker if some read ends with the marker and no other marker
  follows in the text (`Proxies.CompressedGame`); both are exact conditions for
  decompression to have begun there, and only once (`Markers.CompressionStarts`).
* A deadline whose seconds are zero counts as not armed (proxy.c:409): it stands exactly if
  its seconds are not zero (`Runs.ArmedExactlyIfNonZero`), which is not so in a clock's
  first second (`Fallback.EarlyClockNotArmed`). A negative delay can leave the deadline's
  nanoseconds negative, and a clock that is past it is then not seen to be
  (`Fallback.NegativeDelayMissed`); comparing field by field is comparing instants exactly
  when they lie within one second (`Fallback.FieldOrderIsTimeOrder`).
* A full input buffer makes the next read look like a hang-up (proxy.c:445,
  proxy.c:461-466): end of file is reported exactly if the socket is closed or there is no
  room (`Endpoints.Endpoint.ReadEndpoint`), and one read that fills the buffer and ends with
  an IAC brings that about (`Proxies.FullBufferHangsUp`).
* `write_endpoint_compressed` returns `total_in`, which it has reset (mccp.c:479,
  mccp.c:492), so it reports 0 bytes (`Endpoints.Endpoint.WriteCompressed`). Flushing
  empties the output buffer exactly if the endpoint is not compressed or has nothing queued
  (`Endpoints.FlushEmpties`); otherwise the next flush sends it again
  (`Endpoints.FlushRepeats`). `Sessions.RunSound` shows that no reachable handler does it.
* A configured variable called COMPRESSION is reported with the address, after the status.
  The status the game is told is right in every run exactly if there is none
  (`GameFlow.StatusAgreesExactly`).
* README.txt:79-80 says that enable mode denies MCCP and MCCP3. The tables have no patterns
  for them: an offer is kept from the client, and answered, exactly if it is MCCP2
  (`Requests.OfferOverStreams`).
* README.txt:82-85 says that ignore mode gives up matching on both sides. The code disables
  only the side that sent the marker (mccp.c:206); the client's side goes on matching in
  every reachable session (`Sessions.RunSound`).
* muditm.conf:42-43 says that the address is announced as IPADDRESS and TRUSTED_IPADDRESS.
  Only IPADDRESS is sent (`Runs.OpeningIsRead`).

## Assumptions

* zlib initialisation succeeds, and zlib satisfies `Codec.LawfulDeflater` and
  `Codec.LawfulInflater`: input is accepted given the least output room, a sync flush that
  takes input makes output, output space left over after a sync flush means that everything
  has been taken and can be decoded, and what comes out of a decompressor is a prefix of the
  decoding of what went in. An inflate call that fails is taken to leave its stream as it
  was. `Codec.ContractsCanBeMet` shows that the laws are consistent.
* Writes to sockets are complete (README.txt:101-104) and the throttle file can be written.
* `Negotiation.ConfigOk`, where a theorem needs it: the configured texts are free of the
  bytes 0 to 3 and 255, the reply fits the output buffer, and an address is shorter than 46
  bytes. `GameFlow.StatusAgreesExactly` also uses that an address is never "none".
* The theorems about the compressed wire exclude a DONT after a DO in the client's stream.

## Model

| member | source | states |
|---|---|---|
| Matcher.ScanMeaning | proxy.c:482-488 | A verdict of the search is right: nothing before the reported position can match however the input continues, and there the reported alternative is the first that matches or runs off the end |
| Matcher.VerdictUnique | proxy.c:482-488 | There is only one verdict that is right in this sense |
| Matcher.ScanExtend | proxy.c:482-504 | More input keeps a match that was found, and everything before a partial match stays unmatched |
| Matcher.Pcre2Match | proxy.c:482-509 | The search as a loop: its return code and offsets are those of the verdict, and the number `ret-2` always selects the pattern whose bytes were matched |
| Rewriter.DrainSplit | proxy.c:471-550 | Processing `a + b` at once has the same outcome as processing `a`, and then `b` behind what was held back |
| Rewriter.ChunkingIndependence | proxy.c:442-552 | For any list of non-empty patterns and any handlers, however the stream is cut, the handler state, all that was written and the pending partial match are those of the one-shot rewriter on the whole stream |
| Rewriter.Conservation | proxy.c:495-548 | The pieces a read is taken apart into and what is held back make up the buffer exactly |
| Rewriter.JournalFaithful | proxy.c:522-541 | Every match dealt with is the text of the pattern whose handler was called |
| Handlers.RulesLawful | proxy.c:497-541 | Both directions of the proxy meet the conditions of chunking independence: where text is divided into writes is invisible |
| Handlers.ProxyChunkingIndependence | proxy.c:467-550 | Chunking independence for the two directions with their real tables and handlers, in terms of the text fed to the matcher |
| Patterns.CompilePatterns | handlers.c:63-106 | The expression printed group by group is read back as the list of patterns, each up to its first NUL, provided they contain no metacharacter |
| Patterns.AlternativesAreThePatterns | handlers.c:77-96 | Group number k+1 of the printed expression stands for pattern number k |
| Patterns.GameTableCompiles | handlers.c:130-156 | What is searched for on the game's side in each mode: every pattern as declared, except the request with VAR, which is cut to four bytes |
| Patterns.ClientTableCompiles | handlers.c:167-200 | What is searched for on the client's side in each mode: every pattern as declared |
| Environ.Texts | handlers.c:257-288 | The five texts the proxy tells the game are the strings written in the source |
| Environ.PairIsRead | handlers.c:108-117 | A receiver reads from a formatted pair exactly the one variable and its value |
| Environ.ReportsAreRead | handlers.c:257-288 | A sequence of pairs is read back as the same variables in the same order |
| Negotiation.ReplyRoundTrip | handlers.c:244-302 | The whole reply to a request is queued uncut and sent, and a receiver reads from it PROXY_NAME, then COMPRESSION with MCCP2 exactly if the offer was accepted, then each configured variable with the address, and nothing else |
| Negotiation.GameTextEffect | proxy.c:471-550 | Whatever matches a read of the game's text contains: the client receives what was not consumed and nothing else, the game exactly one answer to each match that calls for one, in order |
| Negotiation.ClientTextEffect | proxy.c:471-550 | Whatever matches a read of the client's text contains: the game is forwarded exactly what was not consumed, the client nothing, and the recorded stance is the last one taken |
| Sessions.RunSound | proxy.c:400-553 | In every reachable session both output buffers are empty, the game's output is never compressed and the client's input never decompressed, the offer counts as accepted exactly while the client's stream is compressed, and only the game's side in ignore mode gives up matching |
| Parses.ParseExtend | proxy.c:471-550 | More text keeps all the matches found in a stream, and the search goes on where it stopped |
| Parses.MarkIffStands | proxy.c:480-541 | The matches found one behind the other are exactly the alternatives that stand in the text: no occurrence is passed over, wherever it is and whatever precedes it |
| Parses.ReadMore | proxy.c:442-504 | A reader that finds in its next buffer what there is has found what there is in the whole stream |
| Readers.JournalReads | proxy.c:471-550 | One read deals with every match in its buffer, up to the first that ends matching, and holds back from where the search has to be resumed |
| Streams.LogsAreStreams | proxy.c:442-552 | Over every run, however the streams are cut and mixed, what has been dealt with is every command in the client's stream, and every one in the game's up to the start marker that ends matching in ignore mode, each at its place and in order |
| Streams.ClientHeardExactly | handlers.c:167-200 | A command of the client's is dealt with exactly if it stands in its stream, wherever that is and whatever is before it |
| Streams.GameHeardExactly | handlers.c:130-156 | A command of the game's is dealt with exactly if it stands in its stream and, in ignore mode, no start marker stands before it |
| Streams.GameCommandStands | handlers.c:130-156 | Every SEND of everything, DO NEW-ENVIRON, offer and start marker stands wherever its bytes are; only the request that is cut gives way to the whole one |
| Streams.StreamsAccountedFor | proxy.c:497-541 | Over every run each side's stream is made up, in order, of the commands that stand in it, all of them dealt with, the text between them, which was forwarded, and what is still held; nothing else is forwarded and nothing stays queued |
| Runs.StatusAgreement | mccp.c:183-306 | Over every run, with no configured variable called COMPRESSION: the offer counts as accepted exactly while the stream is active, all the proxy has said to the game can be read, and the last COMPRESSION value in it is the present status |
| GameFlow.StatusAgreesExactly | handlers.c:267-288 | The status the game is told agrees with the client's stream in every run exactly if no configured variable is called COMPRESSION; otherwise the first request is the counterexample |
| Runs.OpeningIsRead | proxy.c:357-371 | Before anything is read the game has been told IPADDRESS and nothing else exactly if that is configured, and the client has been sent the offer exactly in enable mode |
| ClientStances.StanceOverStreams | handlers.c:305-357 | Over every run the recorded stance is the latest of the WILLs and WONTs in the client's stream, and the fallback's if there is none; the game counts as asking exactly if there is a DO NEW-ENVIRON in its stream; and the fallback answers at most once |
| Fallback.ArmExact | proxy.c:409-415 | The armed deadline lies exactly the configured milliseconds ahead, and one carry normalises it exactly if its nanoseconds are not negative |
| Fallback.FieldOrderIsTimeOrder | proxy.c:416-417 | Comparing seconds first and nanoseconds on a tie is comparing instants, for every clock reading, exactly when the deadline's nanoseconds lie within one second |
| Fallback.EarlyClockNotArmed | proxy.c:409-415 | A clock at zero and a delay of 999 milliseconds arm a deadline without seconds, which counts as not armed |
| Fallback.NegativeDelayMissed | proxy.c:409-417 | A delay of minus one millisecond arms a deadline that a clock past it is not seen to have reached |
| ClientStances.ClocksUsuallyOk | proxy.c:396-415 | The condition on the clock holds for every delay that is not negative and every normalised clock past its first second |
| Runs.ArmedExactlyIfNonZero | proxy.c:409-415 | An armed deadline stands whatever the clock reads later exactly if its seconds are not zero |
| ClientStances.FallbackOverStreams | proxy.c:396-426 | After any run a loop head answers WILL for the client exactly if, by what the two sides have sent, the game has asked and the client said nothing, the configured time has passed since the first loop head that found it so, and no earlier one found that; the deadline is the one armed at that first loop head |
| GameFlow.GameTextHandled | handlers.c:244-302 | A request is consumed exactly if the client's stance is a refusal, and every offer or start marker outside ignore mode is |
| Requests.RequestsOverStreams | handlers.c:244-346 | Each read of the game's text answers the commands it completes in the game's stream, each once and in order, and a request among them is forwarded to the client exactly if the latest of the WILLs and WONTs in the client's stream and the fallback is not a refusal |
| Requests.ForwardedOverStreams | handlers.c:244-419 | Over every run the client has been forwarded the game's stream, as far as it is not held, without the bytes of offers and start markers outside ignore mode and of requests that found the client refusing |
| GameFlow.OfferIsAnswered | handlers.c:360-407 | An offer that is not passed on is answered by one command for the same option: DO in enable mode, DONT in disable mode |
| Requests.OfferOverStreams | mccp.c:93-102 | In enable mode an offer of a version of MCCP, wherever in the game's stream it stands, is kept from the client and accepted exactly if it is MCCP2; no command dealt with touches any other, so that they are forwarded and answered by nobody |
| GameFlow.OtherVersionsPass | mccp.c:93-102 | In one read, behind text that leaves nothing pending, the offer of MCCP2 is answered at once with DO and not forwarded, and those of the other versions are forwarded and not answered |
| GameFlow.SendIsCut | handlers.c:87 | Any request other than the bare one is taken for a request after four bytes and its rest for text |
| GameFlow.RefusedRequestLeaks | handlers.c:132-138 | For any request in whose body and end no pattern is found or could begin, a refusing client is spared it exactly if it names nothing, and of any other receives the body and the end |
| GameFlow.NamesAreText | handlers.c:132-138 | That is so for every body that does not begin with IAC SE and in which no IAC is followed by SB or a verb: free of IAC, say, or with each one doubled and no such byte next |
| GameFlow.StartMarkerTail | mccp.c:309-339 | A tail without IAC behind the start marker in the same buffer reaches the client as it is, compressed |
| Markers.SearchMarkers | proxy.c:480-509 | No search passes over a start marker, matches across the beginning of one, or holds a whole one back |
| Markers.DrainMarks | mccp.c:198-208 | A read ends matching in ignore mode, or starts decompression in enable mode, exactly if its buffer holds a start marker; otherwise no start marker begins in what it has processed |
| Markers.MarkerDecides | mccp.c:62-73 | Over every run, however the game's stream is cut and whatever the client does: in ignore mode the game's side has given up matching exactly if the game has sent a start marker, in enable mode it decompresses exactly then, and in disable mode neither |
| Markers.ReadToMarker | proxy.c:505-549 | The text before the first start marker of a buffer is dealt with match by match; the marker is forwarded in ignore mode and not in enable mode; the rest is processed from the state behind it |
| Markers.IgnoredForEver | proxy.c:480-500 | Nothing brings matching back: every later byte of the game's is forwarded in order and nothing is held |
| Markers.IgnoreIsTransparent | mccp.c:62-73 | Over every run in ignore mode: from the first start marker of the game's stream on, however it is cut, the marker and all the game sends reach the client unchanged and in order, and nothing is held |
| Markers.CompressionStarts | mccp.c:309-339 | Over every run in enable mode: the read that completes the first start marker starts decompression; what came before is forwarded as the log says, the marker is not, the rest of that read goes on as text; it has no rest exactly if some read ends with the marker, and then decompression starts only once exactly if no other marker follows in the text |
| Tokens.BytesRefineTokens | proxy.c:471-550 | Processing the bytes of any list of telnet commands from the client is rewriting the list command by command, with nothing held |
| Tokens.TokensSeen | handlers.c:320-346 | The game receives exactly the encoding of the commands it is meant to see: WONT NEW-ENVIRON as WILL, compression commands replaced according to the mode |
| Tokens.ClientStreamRefinesTokens | mccp.c:108-148 | The same for every way of cutting the commands into reads |
| Tokens.TokensAnswered | handlers.c:360-419 | The client is told WONT for each DO that disable mode refuses, the start marker for a DO that finds the stream uncompressed in enable mode, nothing for one that does not, in order, and nothing else |
| Tokens.NeverSeen | handlers.c:319-346 | At no offset of what the game receives is there a WONT NEW-ENVIRON nor, in disable mode, a DO for a version of MCCP |
| Interleaving.DrainRelays | proxy.c:471-550 | What one read of the client's text forwards, and what it holds back, depends on nothing but text: the full machine simulates a rewriter without negotiation state |
| Interleaving.ClientStreamDecides | proxy.c:442-552 | Over whole runs: what the game has been forwarded is the one-shot rewriting of the client's stream, whatever the game sends and the timer does in between and however the stream is cut |
| Interleaving.RunForwardsCommands | handlers.c:167-200 | At every moment of every run in which the client sends commands, the last of them perhaps not yet complete: the game has been forwarded the beginning of the commands to be forwarded, all of them with nothing held when the last is complete, and no WONT NEW-ENVIRON or, in disable mode, DO for MCCP is anywhere in that |
| Interleaving.GameNeverSees | handlers.c:320-346 | At every moment of every such run the same holds at every offset of all the game receives, the proxy's own messages in between included; of DO only if the game's side does not itself accept compression |
| Codec.WriteIsComplete | mccp.c:417-493 | A compressed write of any size through a workspace of any permitted size ends, takes all of the data and leaves the peer able to decode everything ever written |
| Codec.WireRoundTrip | mccp.c:417-493 | Over any sequence of writes the peer decodes exactly what was written, in order |
| Codec.SockReadExact | proxy.c:246-253 | A read of a socket finds EAGAIN, an error, the end or no room exactly when it should, and otherwise as much of the data that came in first as there is room for |
| Codec.ReadLoopStep | mccp.c:362-405 | One round of the reading loop: bytes left in the workspace, or else what the socket has, are given to the stream; output ends the call, a failure too, and otherwise it goes on from there |
| Codec.ReadLoopStops | mccp.c:362-405 | A call that gives no text has used up the workspace and all data up to what the socket then reports, or an inflate call has failed |
| Codec.ReadIsLossless | mccp.c:341-415 | One call loses and repeats no byte between socket, workspace, stream and caller, and a success yields between 1 and `count` bytes |
| Codec.CompressedReadLossless | mccp.c:341-415 | Over any calls, read sizes and interruptions the text returned is a prefix of the decoding of all bytes read from the socket |
| Wire.WireShape | mccp.c:211-267 | However many DOs the client sends and wherever in its stream, the wire to it is raw before the first, and then raw text, exactly one start marker and compressed text only |
| Wire.RunPlain | proxy.c:289-296 | Over every run nothing sent to the game goes through a compressor, nor anything to a client that is not offered compression |
| Wire.OrdersDecide | mccp.c:183-306 | Over every run the offer stands until the client answers, and then counts as the latest DO or DONT in the client's stream says; the client's stream is compressed exactly if that is a DO |
| Wire.CompressedWireRoundTrip | mccp.c:211-267 | After a DO in the client's stream, what follows the start marker, divided into any writes, decodes to exactly the rest of the text relayed to the client |
| Iobufs.Iobuf.Push | iobuf.c:65-72 | The stored bytes behind the tail join the queue; a push beyond the end is clamped |
| Iobufs.Iobuf.Pop | iobuf.c:74-86 | The overlapping move in place drops exactly the oldest bytes, at most all of them |
| Iobufs.Iobuf.PopAll | iobuf.c:88-92 | The queue is empty |
| Iobufs.Iobuf.Print | handlers.c:370-375 | Printing and pushing appends the text if it fits, and otherwise the part that fits closed by a NUL |
| Iobufs.Replay | iobuf.c:65-105 | Any sequence of stores, pushes, prints and pops on the buffer, pushes past the end and cut prints included, is the same sequence on its memory, with length and room adding up to the capacity |
| Iobufs.StoredThenPushed | iobuf.c:65-72 | Bytes stored behind the tail and then pushed are added to the queue as they are |
| Iobufs.QueueIsFifo | iobuf.c:65-105 | Over any such sequence the queue is the end of what was in it and what has been added, within the capacity |
| Endpoints.CarriesRaw | proxy.c:289-296 | A wire on which nothing was compressed is all that was handed over, in order |
| Endpoints.CarriesCompressed | mccp.c:211-267 | A wire that carries its frames is raw text up to and including the start marker, and then decodes to everything handed over since |
| Endpoints.Endpoint.WriteCompressed | mccp.c:417-493 | The writing loop on a workspace array and stream fields puts on the wire exactly what the specified loop does, ends, and returns 0 |
| Endpoints.Endpoint.WriteEndpoint | proxy.c:289-296 | Text written raw or compressed extends the history of frames, which the wire goes on carrying |
| Endpoints.Endpoint.FlushEndpoint | proxy.c:255-262 | The output buffer is sent, and emptied unless the endpoint is compressed |
| Endpoints.FlushEmpties | proxy.c:255-262 | Flushing empties the output buffer exactly if the endpoint is not compressed or has nothing queued |
| Endpoints.FlushRepeats | proxy.c:255-262 | A byte queued for a compressed endpoint stays queued and is sent again by the next flush |
| Endpoints.Endpoint.ReadCompressed | mccp.c:341-415 | The reading loop on a workspace array with leftover input is the specified loop, for every leftover and every room |
| Endpoints.Endpoint.ReadEndpoint | proxy.c:246-253 | A read gives what the socket has next, into the room there is, or on a compressed endpoint exactly what the reading loop makes of what is left and what the socket has: if bytes are left and the stream makes text of them, that text, with the socket left alone; a success appends at least one byte to the input buffer; no byte is lost between socket and buffer; on a raw socket end of file is reported exactly if it is closed or there is no room |
| Proxies.MnesRequest | handlers.c:244-302 | The handler in place refines its specification and pops exactly the match or nothing, as its return value says |
| Proxies.MnesDoes | handlers.c:348-357 | As for MnesRequest: records that the game asks and leaves the match |
| Proxies.MnesClientWill | handlers.c:305-317 | As for MnesRequest: records the client's WILL and leaves the match |
| Proxies.MnesClientWont | handlers.c:320-346 | As for MnesRequest: records the refusal, pops the match and sends WILL to the game |
| Proxies.RespondX | handlers.c:360-382 | The sender is answered with the verb for the option of its own command, and the match is popped |
| Proxies.RespondDont | handlers.c:385-395 | As for MnesRequest: DONT to the sender |
| Proxies.RespondDo | handlers.c:397-407 | As for MnesRequest: DO to the sender |
| Proxies.RespondWont | handlers.c:409-419 | As for MnesRequest: WONT to the sender |
| Proxies.MccpIgnore | mccp.c:198-208 | As for MnesRequest: gives up matching on the sender's side and leaves the marker |
| Proxies.Mccp2Do | mccp.c:211-267 | As for MnesRequest: one start marker and then compression, nothing of it on a duplicate |
| Proxies.Mccp2Dont | mccp.c:270-306 | As for MnesRequest: compression ends and the game is told |
| Proxies.Mccp2SbStart | mccp.c:309-339 | As for MnesRequest: pops the marker and decompresses what is read from then on; the account of the decompressed text begins with all that has been heard so far |
| Proxies.Invoke | handlers.c:202-211 | Every handler pops exactly the match and returns 1, or leaves the input alone and returns 0 |
| Proxies.HandleMatch | proxy.c:505-542 | What precedes a match is shipped, its handler is called on exactly the match, and the match is shipped if the handler left it |
| Proxies.Pass | proxy.c:471-550 | One pass of the matching loop keeps the outcome of the whole unchanged and shrinks the buffer, or ends with that outcome |
| Proxies.Pump | proxy.c:471-550 | The matching loop ends after at most as many passes as there are bytes, with the state and the held text of the specified rewriter |
| Proxies.Proxy.Open | proxy.c:347-371 | The tables, the offer and the announcement in place lead to the specified start |
| Proxies.Proxy.LoopHead | proxy.c:406-426 | The timer code in place arms or fires exactly as specified |
| Proxies.Proxy.Turn | proxy.c:406-552 | One turn is a loop head and then one read from each readable side, the client's first; the game's is made exactly if the client was not readable or its read found text or EAGAIN; the result is 1 exactly if a read has found a close, -1 exactly if one has found an error other than EAGAIN, and 0 otherwise; what is read is relayed and counted as heard |
| Proxies.Proxy.MuditmProxy | proxy.c:400-553 | Over any wake-ups and any socket contents there is a turn for each wake-up up to the first in which a read finds a close or an error, none before it does, and the result is 1, -1 or 0 as the reads of the last turn say; raw sockets are read in order into the room there is; the session is that of the loop heads and texts of these turns, and the texts are exactly what was heard; and the account of decompressed text was last opened by the step in which the side last switched to it |
| Proxies.HangUpEnds | proxy.c:446-466 | In a whole connection the turn in which the client is readable and its socket is closed, or fails, is the last, with result 1 or -1; one in which it has nothing after all goes on to read the game |
| Proxies.GameHangUpEnds | proxy.c:446-466 | The same of the game's socket until the game compresses, unless the client's side has ended the connection in the same turn |
| Proxies.ClientWire | mccp.c:211-267 | The bytes on the client's socket are raw text that ends with the one start marker, and then bytes that decode to everything handed over since |
| Proxies.HeardIsDecoded | mccp.c:309-415 | The text fed to the matcher since the latest start of compression is a prefix of the decoding of all socket bytes since; for the first start, the text before it is what the socket gave |
| Proxies.CompressedGame | mccp.c:309-415 | If some read ends with the first start marker and no other follows, the text fed to the matcher is, up to and including the marker, what the socket gave, and then a prefix of the decoding of all it gave later |
| Proxies.FullBufferHangsUp | proxy.c:445-466 | A read that fills the buffer and ends with an IAC is held whole, and the next read then looks like a hang-up whatever the socket has |
| Proxies.Connection | proxy.c:330-556 | A whole connection, from the installation of the tables on, is a run, so all theorems about runs hold of it; the game's socket has received all that was handed over for it, in order, and nothing it is to be spared, and so has the client's as long as nothing was compressed; the client's stream is what its socket gave, and so is the game's until it compresses; with no DONT after a DO the client can decode all that was relayed to it; a game that starts compressing cleanly is decoded; no byte of a socket is lost or invented; and it ends at once when the client hangs up |
| Proxies.HandleClient | muditm.c:507-563 | The same from two fresh endpoints on, for any bytes the two sockets have in store and any codec that meets the laws, the wires being decoded by the codec passed in |
| Children.ChildAccounting | muditm.c:318-375 | Under every interleaving the counter and the child not yet counted make up the unreaped children and the one not yet subtracted; the counter is never negative, and there are never more children than permitted |
| Children.Census | muditm.c:318-375 | Under every interleaving the living children are those forked that have not exited, and the dead those exited that have not been reaped |
| Children.StopsOnlyWhenTold | muditm.c:318-348 | The loop has stopped exactly if it was told to before its tests, or an accept has failed for another reason than a signal |
| Children.GoesOn | muditm.c:325-375 | Behind a counted child, a failed fork, a wait at capacity or an interrupted accept the next round accepts again if fewer children are counted than permitted, with SIGCHLD no longer blocked and nothing else changed |
| Children.ServesClient | muditm.c:342-369 | An accepted connection gets a child, which lives and is counted, or none if the fork fails, and the loop is back before its tests |
| Children.NeverStuck | muditm.c:318-375 | From every reachable state before the tests, behind a fork or at capacity, whatever the handler is doing, the parent comes to accept on its own as long as there are fewer live children than permitted |
| Children.NoLostZombie | muditm.c:228-234 | While a dead child is unreaped, a signal is pending or the handler has yet to find nothing, although signals coalesce |
| Children.HandlerSweeps | muditm.c:228-234 | Once it runs, the handler reaps all the dead in two steps each and one more |
| Children.FullIsNotForEver | muditm.c:325-349 | A parent waiting at capacity on account of a dead child can take the signal, and accepts again when the handler is done |
| Children.Family.ZombieKiller | muditm.c:228-234 | The handler as a loop over waitpid leaves no dead and a counter that agrees with the state machine |
| CertThrottle.NoticesAreThrottled | certcheck.c:90-136 | For any number of processes and any interleaving, the lock is exclusive and every notice comes at least its interval after the record of the one before |
| CertThrottle.NoticesFarApart | certcheck.c:105-116 | Two notices in a row are at least 3600 seconds apart, and 86400 if the later one finds a week or more left |
| CertThrottle.NoticeExactlyWhenDue | certcheck.c:105-116 | A process that holds the lock and has read the clock gives notice exactly if there is no record, the last is 86400 seconds old, or it is 3600 seconds old and less than 7 days are left; otherwise it gives the lock back |
| CertThrottle.LooksAtFile | certcheck.c:90-104 | A process comes to look at the file if the lock is free and the certificate is known to expire within 30 days, and otherwise leaves everything as it is, but that the file is made |
| CertThrottle.NoticeIsGiven | certcheck.c:118-135 | Over any interleaving a process that has found the file old enough gives one notice, then records it with the time of writing, and gives the lock back, in its next four steps |
| CertThrottle.ThrottleFile.CheckThrottled | certcheck.c:90-136 | One process on its own: it gives notice exactly if the certificate is known to expire within 30 days, the lock is free, and the file is empty, from the future, 86400 seconds old, or 3600 seconds old with less than 7 days left; what the file then records; and that the lock is given back on every early return |

## Left out

- Sockets, SSL, poll, fcntl and getaddrinfo: a read finds data, EAGAIN, an error or the end, and a write appends to the wire.
- A poll that fails (proxy.c:431-435), which ends the loop with -1, and one that times out, which is a turn in which no side is readable.
- Short and failed writes (README.txt:101-104), and with them the early returns of `write_endpoint_compressed` on a failed deflate or write.
- Which error number an EAGAIN carries after other library calls.
- The inside of PCRE2 and of zlib. PCRE2 is the verified search for literals; patterns that are not literals do not occur.
- Tokens.BytesRefineTokens: IAC IAC is not part of the command grammar, because the search for patterns does not know that escape.
- Handlers.ProxyChunkingIndependence: is about the text fed to the matcher; once compression starts that text itself depends on how the marker's read was cut, as Markers.CompressionStarts says.
- Bytes still held when a side closes: the code drops them (proxy.c:461-466), and no claim is made about them.
- Injected messages inside a subnegotiation of which the other side has sent only half: byte order is proved, not framing across the two flows.
- Children and CertThrottle: the interleaved programs are state machines over atomic steps; their loops and files appear as classes only for one process on its own.
- Children.ChildAccounting: forking mode only; without forking the loop accepts one connection and ends.
- CertThrottle.NoticesAreThrottled: the check at startup (certcheck.c:70-88), which writes the file without the lock, and a process that dies while it holds the lock.
- Reading the configuration, logging, address formatting, the stunnel header, X509 parsing, the crash handler, I/O statistics and the release of memory.
- `remove_match` and `redact_match` (handlers.c:213-240), which are attached to no pattern.
