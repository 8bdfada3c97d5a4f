# qslary: a verified model of its event loop, its HTTP framing and its fibers

qslary is a C++ network library: timers, an epoll poller and channels, a scheduler of fibers, byte
buffers, and an HTTP client and server side whose parsers are table automata generated by Ragel. This
project models the parts of it that carry state from one call to the next, and proves what they keep.
Where the code changes fields in place the model does too: classes and loops, proved against a
specification on values, and theorems about that specification. Text is modelled as bytes held in
`char`s; what a socket delivers is a sequence of pieces (`Arrivals`), an empty piece being the end of
the stream; time is a number of microseconds, and every reading of the clock is a parameter.

`dafny verify dfyconfig.toml` checks everything.

## What is modelled

**Timers** (`TimerQueue.dfy`, `TimerFates.dfy`, `TimerManager.dfy`). `TimerQueue` says what the queue means: one map of
waiting timers, the batch that fires, the ids cancelled while it fires, and the kernel's one-shot
timer. Callbacks may add and cancel any timers, themselves and others of the batch included, and an
address may come back once its timer is deleted. The theorems are about every run: the books balance,
each timer is deleted exactly once, one that was cancelled never fires again, a recurring one comes
back if and only if nobody cancelled it, and the kernel timer is always set early enough, and, as long as nobody
cancels, for exactly the earliest timer. `TimerFates` follows a timer from the call that made it: with the fields
of that call it waits, fires in the first batch that is late enough, and then waits again or is deleted.
`TimerManagement` is the class with its two indexes and its "cancelled while firing" set; each method
is shown to do exactly what the specification says, its assertions included.

**HTTP parsers** (`ParserTables`, `Machine`, `Segmentation`, `ParserFlows`, `ParserSegments`,
`Registers`, `RequestCuts`, `ResponseCuts`). The two tables are written out edge by edge, with the actions of each edge; `Machine`
runs them over a buffer, with the registers that every call clears. Segmentation is proved once for any table with a
described data flow (which register may still be read in which state), and the descriptions are
proved of both tables. The control state does not care where reads are cut; the callbacks are
the same for every cut at which no register is still needed, line ends among them, with one exact
exception. `RequestCuts` and `ResponseCuts` show that at every other state some continuation tells the
cut, so that it is known exactly where a read may end.

**Grammar** (`HeaderGrammar`, `MessageHead`, `RequestGrammar`, `RequestHead`). The texts the
automata read, and what they deliver for them: status lines, header lines through all the keyword
tries, chunk-size lines, request lines, and origin-form targets, which are accepted if and only if each of path, query and
fragment is clean, every percent sign in front of two hex digits.

**Receiving** (`ByteStream`, `Framing`, `HeadReceiving`, `SegmentedReceiving`, `ChunkedDecoding`,
`ResponseStream`, `RequestQueries`, `TornQueries`, `RefusedTexts`, `CutShort`, `ResponseReceiver`, `RequestReceiver`). The loops of `recvResponse` and `recvRequest`: fixed buffer,
leftovers moved to the front, short reads, chunk sizes, payloads, bodies of a given length.
`Framing` specifies them; the receiver classes compute them on an array and on fields. `ResponseStream`
is about responses that follow each other, `RequestQueries` and `TornQueries` about the one position
register that no call clears, `RefusedTexts` about versions and methods, and `CutShort` about streams that
end too early.

**Round trips** (`HttpMessages`, `ResponseRoundTrip`, `RequestExchange`, `HeaderMaps`, `ReceivedMessages`,
`PrintedTexts`, `Numerals`). What `dump` prints, `recvResponse` and `recvRequest` read back, cut at line ends in any
way. The last four files say, on the text itself, what is printed and what a received message holds: the header
map line by line, whether the connection closes, what numbers and names mean.

**Scheduler** (`SchedulerModel`, `SchedulerOrder`, `SchedulerList`). N workers, the list, stop() and the idle
fibers as a state machine in which every access to shared state is a step, so that a run is any interleaving;
the order in which callbacks are taken; and the operations on the list as the class performs them.

**Smaller machines.** `Polling` (channels and the epoll interest set), `ByteQueue` (`ByteArray` as a
queue), `BitArithmetic` (zigzag codes, address masks), `LogPattern` (the scanner of log patterns),
`ConnectionPool` and `Latch`.

## Where the code does not do what one might expect

- A chunk-size line that a read cuts amid its digits loses the digits before the cut, since chunk mode
  starts the parser afresh on every call; one that is cut right behind its digits, or between CR and LF,
  closes the connection, a last chunk's too (`ChunkedDecoding.ReceiveSizeLine`). The line is understood
  if and only if neither of those two cuts happens and every cut amid the digits has only zeros before it
  (`ChunkedDecoding.SizeLineIff`). Cuts in payloads and the line ends behind them never matter.
- Behind an empty content-length, a line of digits alone is taken for the value, and behind an empty
  transfer-encoding so is a line that says "chunked"; it is delivered under a name that begins with that
  line and is as long as the name before it. If that is longer than what the buffer holds, the name runs
  on into bytes not received yet, and cutting the input there changes the callbacks:
  `ParserSegments.StaleLength` and `StaleEncoding` show a text each with the two lists. Cuts at states
  that need no register are harmless if and only if no name runs on in this way, and cuts at other states
  never are (`ResponseCuts.ResponseCutIff`); in the modelled part of the request table no name runs on.
- An empty content-length, transfer-encoding or connection with a blank line behind it passes for the end
  of the head without being one. The parser remembers where, no call but an initialisation forgets it, and its check
  that this place lies inside the buffer fails if the next read is shorter
  (`HeadReceiving.ChecksMayFail`; exactly when, for one call: `Machine.ChecksHoldIff`). Requests have no
  such states (`RequestExchange.RequestChecksPass`).
- The value of a "connection" header that is read never reaches the response's `close_`, so a printed
  response comes back with `close_` as its constructor set it. The round trip says so.
- The text of a version, or of a method, is taken from the read that brings the space behind it: what came in
  earlier reads is not seen. A version that a read cuts within its text is therefore refused, and the connection
  closes; but when a read ends exactly behind it, the empty text is looked at instead, which passes for the
  beginning of "HTTP/1.1": the reads `HTTP/2.0` and ` 200 OK`, with two line ends, are received as a response of
  version 1.1 (`RefusedTexts.AnyVersionPasses`; which streams are refused: `VersionCloses`, `MethodCloses`).
- A request's header spelled "connection" is not printed; one spelled "Connection" is, and decides at the
  receiver whether the connection closes (`RequestExchange.RequestComesBack`).
- A content-length is cast to an unsigned 64-bit number, sign and all, and kept in a signed one: a number from
  2^63 up counts as negative, which means no body, and the negative of such a number as positive
  (`Numerals.LengthOfNumber`); anything else that is no number means no body, too (`NoLength`).
- `recvResponse` and `recvRequest` read into a buffer of their own and drop with it what a read brought
  from behind the message. The connection keeps what follows a response if and only if the read that
  brought the end of its last line (the blank line, or the last size line) went no further than the
  message; bodies and payloads are read to their length. Of two responses back to back both are received then
  (`ResponseStream.BackToBack`); when one read brings both, the second is lost (`SecondIsLost`). That is
  a statement about the bytes: the second call may still return an equal response, when the same one comes
  again (`LossMayNotShow`).
- `readFixSize` returns what it has read as an `int`: with 2^31 bytes or more still to be read, the receivers may
  take them all and close nevertheless (`CutShort.FixedIff` says exactly when).
- `dump` prints "\r\n" behind a body and counts it nowhere; where it is not dropped in this way it stays in
  front of the next response.
- A call of the request parser clears all its position registers but the one that says where the query
  starts. When a read ends within a query and the query's end stands, in a later read, in front of that old position, its
  length is taken below zero, unsigned, and `std::string` throws: `recvRequest` neither returns nor
  closes (`RequestQueries.TornRequestThrows`; the same bytes in one read are fine, `TornInOne`). Exactly when,
  for one call: `ThrowsIff`; for any stream, on its text and its reads: `TornQueries.RequestThrowsIff`. Reads that
  end outside queries never do this (`NeverThrows`, `CutsNeverThrow`).
- `IsClean` may hold while a callback has been taken from the list and not yet run
  (`SchedulerModel.CleanTooSoon`; exactly when: `CleanIsTrueIff`). No callback is lost by it.
- What an outside thread submits after the workers have looked for the last time is never run
  (`SchedulerModel.LateIsLost`); `Drain` says that this, and nothing else, is left behind.
- A fiber whose callback yielded is never destroyed: when its worker lets go of it, its own stack still
  holds two references to it, so it and its stack are leaked, for good, and its callback never goes on (after YieldToReady, a new
  fiber starts it from its beginning)
  (`SchedulerModel.YieldLeaks`, `LeakedForGood`; exactly when: `GoneIff`). What is destroyed has ended, so
  the destructor's check always holds (`DropIff`).
- A pool's connections never age: `create_time` is 0 and stays so. Both tests compare the age limit with
  the time since 1970, and no open connection is ever deleted for its age
  (`ConnectionPool.RunHistory`). `GetCurrentMs` adds microseconds to milliseconds, so the clock they read
  goes back almost every second, which therefore does no harm.
- A doubled percent sign in a log pattern gives a percent sign and then still starts an item, known or not
  (`LogPattern.DoubledPercent`).
- Methods are matched by prefix against the buffer, in the order of a table; no name that is in the
  table is mistaken for another (`RequestExchange.MethodRoundTrip`).

## Model

| member | source | states |
|---|---|---|
| TimerQueue.Alloc | qslary/net/Timer.cc:105-111 | a new timer gets an address at which nothing lives; the address of a deleted timer may come back |
| TimerQueue.NextIsQuiet | qslary/net/Timer.cc:138-228 | every call from outside and every batch, whatever its callbacks add and cancel, keeps the books: no address in use twice, nothing left firing, every timer ever made alive or deleted exactly once |
| TimerQueue.RunIsQuiet | qslary/net/Timer.cc:105-228 | the same for every run from the empty queue |
| TimerQueue.FreedOnce | qslary/net/Timer.cc:95-103 | when the queue is destroyed after any run, every timer ever made has been deleted exactly once, and nothing else was |
| TimerQueue.RevokedIff | qslary/net/Timer.cc:138-156 | a timer of the batch is remembered as cancelled if and only if a callback of that batch cancels it, itself included |
| TimerQueue.RepeatsIff | qslary/net/Timer.cc:199-228 | a fired timer is queued again, at the batch time plus its interval, if and only if it recurs and no callback of the batch cancelled it; otherwise it was deleted, once |
| TimerQueue.NotDueWaits | qslary/net/Timer.cc:158-228 | a timer that was not due stays queued untouched through a batch unless a callback cancels it, and then it is deleted, once |
| TimerQueue.CancelledNeverFires | qslary/net/Timer.cc:138-228 | in every run, a timer cancelled from outside or by any callback is in no later batch, even when its address has a new tenant |
| TimerQueue.HandleReadArms | qslary/net/Timer.cc:199-228 | a batch leaves the kernel timer set for no later than any waiting timer, also when callbacks added timers for the past; needs only a clock after 1970 |
| TimerQueue.AlwaysArmed | qslary/net/Timer.cc:30-67 | in every run, outside handleRead, a waiting timer means a kernel timer that goes off no later than the earliest expiration or 100 microseconds after it was set |
| TimerQueue.ArmedExactly | qslary/net/Timer.cc:30-67 | in every run in which nobody cancels, outside handleRead, the kernel timer is set for exactly the earliest timer, and goes off at its expiration, or 100 microseconds after it was set when that is later |
| TimerQueue.AddMakes | qslary/net/Timer.cc:105-123 | a new timer waits at an address of its own with exactly the fields it was given, and every other waiting timer is as it was |
| TimerQueue.Micros | qslary/net/Timestamp.h:92-97 | seconds become whole microseconds, cut towards zero |
| TimerFates.FateHolds | qslary/net/Timer.cc:105-228 | in every run, for a timer made by any call, from outside or from a callback: it waits, with the fields of that call, for the time its history says, is in exactly the batches no earlier than that, and once over has been deleted once |
| TimerFates.FiresFirst | qslary/net/Timer.cc:158-197 | a timer that nobody cancels waits for the expiration it was added with, and fires in the first batch that is no earlier |
| TimerFates.FiresAgain | qslary/net/Timer.cc:199-228 | once it has fired, one that recurs waits for the batch's time plus its interval and fires in the first batch no earlier than that, and so on; one that does not is deleted once and fires no more |
| TimerManagement.SameSize | qslary/net/Timer.cc:230-255 | two indexes that agree have the same size: the size assertions of insert, cancel and getExpired never fail |
| TimerManagement.IndexInsert | qslary/net/Timer.cc:241-251 | inserting a new timer into both indexes finds it in neither, and they agree again |
| TimerManagement.IndexErase | qslary/net/Timer.cc:138-151 | a timer found in the second index is in the first under its expiration, and erasing both keeps them in agreement |
| TimerManagement.CutBatch | qslary/net/Timer.cc:177-197 | the due timers are a prefix of the ordered index; it is sorted and holds exactly them |
| TimerManagement.TimerManager.Insert | qslary/net/Timer.cc:230-255 | puts the timer into both indexes, and says exactly whether it expires before every other |
| TimerManagement.TimerManager.Add | qslary/net/Timer.cc:105-123 | does what the queue's specification says, the kernel timer included: at a free address a timer waits with exactly the fields given, every other timer is as it was, and the id of the newest timer is returned |
| TimerManagement.TimerManager.RunAt | qslary/net/Timer.cc:125-128 | a timer for the given time that fires once |
| TimerManagement.TimerManager.RunAfter | qslary/net/Timer.cc:129-132 | a timer for the given delay from now that fires once |
| TimerManagement.TimerManager.RunEvery | qslary/net/Timer.cc:133-136 | a timer for one interval from now that recurs if and only if the interval is above zero |
| TimerManagement.TimerManager.Cancel | qslary/net/Timer.cc:138-156 | does what the specification says, in and out of a batch; its assertions hold |
| TimerManagement.TimerManager.GetExpired | qslary/net/Timer.cc:177-197 | returns exactly the due timers, each once, by expiration and then address, and takes them out of both indexes |
| TimerManagement.TimerManager.Reset | qslary/net/Timer.cc:199-228 | does what the specification says of the end of a batch: requeue, delete, set the kernel timer |
| TimerManagement.TimerManager.HandleRead | qslary/net/Timer.cc:158-174 | runs exactly the due timers, in order, with callbacks that may do anything to the queue, and ends in the state the specification gives |
| TimerManagement.TimerManager.Destroy | qslary/net/Timer.cc:95-103 | deletes every timer that waits, once, and leaves none |
| Machine.ChecksHoldIff | qslary/http/http_response_parser.cc:3290-3303 | on a buffer that holds something, the checks behind either automaton hold if and only if the run passes a blank line or the one passed last was found no further from its buffer's start than this buffer is long: calls do not clear that register |
| HttpText.StrtolOfRun | qslary/http/http_response_parser.cc:158-170 | reading a number up to the NUL gives the value of its run of digits, clamped, when something else ends the run |
| Segmentation.RunControl | qslary/http/http_response_parser.cc:94-120 | the control state and the position of a run do not depend on registers or callbacks |
| Segmentation.ControlSegmentation | qslary/http/http_response_parser.cc:94-120 | for any table: a text in one piece or cut in two leads to the same control state and the same consumption, unless the first piece ends the run |
| Segmentation.RunShift | qslary/http/http_response_parser.cc:94-111 | running over b behind a, with positions offset by the length of a wherever they are live, makes the same callbacks as running over b alone |
| Segmentation.RunBlind | qslary/http/http_response_parser.cc:94-111 | what stands behind a text does not change the callbacks made within it, numbers and headers included, when no header's name runs on beyond the text |
| Segmentation.RunSees | qslary/http/http_response_parser.cc:589-643 | when a name does run on, two continuations of the same length lead to different callbacks, and either to others than no continuation |
| Segmentation.PrefixIff | qslary/http/http_response_parser.cc:94-111 | so the callbacks of a call come first again, whatever follows in the buffer, if and only if no name runs on beyond the text |
| Segmentation.CallbackSegmentation | qslary/http/http_response_parser.cc:94-111 | for any table with a described data flow: cut where no register is live, the two calls make the same callbacks as one, although every call clears the registers, when no name runs on beyond the cut |
| Segmentation.CutIsHarmlessIff | qslary/http/http_response_parser.cc:94-111 | and that condition is exact: between two such states the cut changes no callback, for any continuation, if and only if no name runs on beyond it |
| ParserFlows.ResponseFlowHolds | qslary/http/http_response_parser.cc:117-3280 | the data flow claimed for the response table holds on every edge: a register is read only where it was set |
| ParserFlows.RequestFlowHolds | qslary/http/http_request_parser.cc:113-902 | the same for the modelled part of the request table |
| ParserSegments.ResponseSegmentation | qslary/http/http_response_parser.cc:94-111 | the segmentation theorem for responses |
| ParserSegments.ResponseCutIsHarmlessIff | qslary/http/http_response_parser.cc:94-111 | exactly when a cut between two states that need no register changes no callback, for responses |
| ParserSegments.RequestSegmentation | qslary/http/http_request_parser.cc:86-110 | the segmentation theorem for requests |
| RequestCuts.RequestCutIff | qslary/http/http_request_parser.cc:113-902 | exactly where a read may end in a request: the cut changes no callback, for any continuation, if and only if the text before it ends at one of seven states; at every other state of the modelled part some continuation is taken for something else |
| ResponseCuts.ResponseCutIff | qslary/http/http_response_parser.cc:117-3280 | exactly where a read may end in a response: the cut changes no callback, for any continuation, if and only if the text before it ends where no register is needed and no name runs on beyond it |
| ResponseCuts.NumberTells | qslary/http/http_response_parser.cc:142-189 | a chunk size or a status code that is cut within its digits, or right behind them, is taken for another number by some continuation, whatever the digits: reading a number passes over blanks and line ends |
| ParserSegments.StaleLength | qslary/http/http_response_parser.cc:2959-3146 | a text and its cut at a line end with two different lists of callbacks: behind an empty content-length, a line of digits is delivered under a name that runs on beyond it |
| ParserSegments.StaleEncoding | qslary/http/http_response_parser.cc:1615-2110 | the same behind an empty transfer-encoding, for the word chunked |
| HeaderGrammar.NameStep | qslary/http/http_response_parser.cc:647-3161 | along a name, the control state is a function of the name so far: the tries for the special names, and falling out of them, included |
| HeaderGrammar.ValueStep | qslary/http/http_response_parser.cc:731-3161 | along a value, the control state is a function of name and value so far |
| HeaderGrammar.Deliver | qslary/http/http_response_parser.cc:742-795 | the byte behind a value delivers exactly the name and the value, and records length, chunking or closing exactly for the header that means it |
| HeaderGrammar.HeaderLine | qslary/http/http_response_parser.cc:647-3161 | any header line, whichever trie it wanders into, is delivered once, with exactly its name and value, and leaves the parser at the start of a line |
| MessageHead.StatusLineRun | qslary/http/http_response_parser.cc:436-646 | a status line delivers its version, code and reason and leads to the header block |
| MessageHead.BlockRun | qslary/http/http_response_parser.cc:647-3161 | a block of header lines delivers them all, in order |
| MessageHead.HeadEnd | qslary/http/http_response_parser.cc:647-700 | the blank line ends the head, and the run stops right behind it |
| MessageHead.SizeLineRun | qslary/http/http_response_parser.cc:142-295 | a chunk-size line stores its number and stops the run right behind its end |
| ByteStream.Read | qslary/http/HttpConnection.cc:50-55 | a read returns a prefix of what comes, no longer than asked for, and loses nothing |
| ByteStream.DrainCuts | qslary/net/Stream.cc:7-22 | reading a given number of bytes succeeds when there are that many, takes exactly the next ones, and leaves later reads cut where they were |
| Framing.ExecuteProgress | qslary/http/HttpConnection.cc:57-69 | a call of execute that does not fail consumes something, so the buffer never fills up |
| Framing.ReceiveHead | qslary/http/HttpConnection.cc:47-75 | a head that is received was finished without error, and leaves less than a buffer |
| HeadReceiving.AfterBlockFacts | qslary/http/http_response_parser.cc:647-3161 | what a header block leaves behind: its headers as callbacks, and chunking if and only if one line asks for it |
| HeadReceiving.ReceiveWholeHead | qslary/http/HttpConnection.cc:47-75 | for reads that end behind lines of the head, and anything behind it, the loop recognises the head as if it had come in one piece, and consumes nothing more |
| SegmentedReceiving.SegmentedHead | qslary/http/HttpSession.cc:27-54 | for any table that is never stale: the loop recognises whatever one call over the whole stream recognises, with the same callbacks and consumption, for all reads that end where no register is needed |
| ChunkedDecoding.SizeLineExecute | qslary/http/HttpParser.cc:184-194 | in chunk mode, a buffer that starts with a whole size line yields its number and consumes just that line |
| ChunkedDecoding.DecodeOne | qslary/http/HttpConnection.cc:81-141 | one round of the decoder appends exactly the payload and consumes exactly the chunk |
| ChunkedDecoding.DecodingInvertsEncoding | qslary/http/HttpConnection.cc:78-144 | chunked decoding inverts chunked encoding (section 7.1 of RFC 9112, no extensions or trailers), however reads cut payloads and line ends, as long as size lines are cut, if at all, behind leading zeros |
| ChunkedDecoding.ReceiveSizeLine | qslary/http/HttpConnection.cc:83-111 | for every way reads cut a size line: the connection closes if and only if a read ends right behind the digits or between CR and LF; otherwise the number behind the last cut is the size |
| ChunkedDecoding.SizeLineIff | qslary/http/HttpParser.cc:184-194 | a size line yields its number if and only if no read ends right behind the digits or between CR and LF, and reads end amid the digits only behind leading zeros |
| Numerals.PlaceValues | qslary/http/http_response_parser.cc:158-170 | digits count by their places, in base 10 and 16: what stands in front of k digits counts for the k-th power of the base |
| Numerals.NoLeadingZero | qslary/http/Http.cc:221-241 | numbers are printed without leading zeros, so that each has one printed form |
| Numerals.LengthOfNumber | qslary/http/HttpParser.cc:206-211 | an optional sign and digits below 2^64 are that number or its negative, modulo 2^64, as a signed word |
| Numerals.NoLength | qslary/http/Http.h:326-345 | any other text, and no header at all, means no body |
| Numerals.FoldsAlike | qslary/http/Http.cc:84-88 | header names are the same key if and only if they differ in the case of letters only |
| ResponseRoundTrip.FixedBody | qslary/http/HttpConnection.cc:145-173 | a body with a content length (section 6.2 of RFC 9112) is exactly the first bytes behind the head, from the buffer, from later reads, or both |
| ResponseRoundTrip.HeaderLinesSet | qslary/http/Http.cc:221-231 | printing a header map in any order and setting the lines one by one, which `HeaderMaps.LinesSay` explains for any lines, gives the map back |
| ResponseRoundTrip.DumpLinesFacts | qslary/http/Http.cc:221-241 | the lines of a dump are valid, ask for no chunks, and rebuild the headers with connection and content-length added |
| ResponseRoundTrip.RoundTrip | qslary/http/Http.cc:221-241 | receiving a printed response gives back status, version, reason or the status's name, body, and every header, with connection ("close" or "keep-alive", as the flag says) and content-length added; what is left, in the buffer or in the stream, is only the line end printed behind a body |
| ReceivedMessages.CloseRoundTrip | qslary/http/Http.cc:234-258 | the printed connection header, read as the closing of a request is, gives back the flag, whatever the flag was before |
| PrintedTexts.DumpedResponse | qslary/http/Http.cc:221-241 | what a response is printed as, piece by piece and in literal texts |
| PrintedTexts.DumpedRequest | qslary/http/Http.cc:163-185 | the same for a request |
| PrintedTexts.EarlyNames | qslary/http/Http.h:24-36 | which text stands behind which status code: 100 to 226 |
| PrintedTexts.RedirectNames | qslary/http/Http.h:37-44 | the same for 300 to 308 |
| PrintedTexts.ClientErrorNames | qslary/http/Http.h:45-59 | the same for 400 to 414 |
| PrintedTexts.LateClientErrorNames | qslary/http/Http.h:60-71 | the same for 415 to 451 |
| PrintedTexts.ServerErrorNames | qslary/http/Http.h:72-82 | the same for 500 to 511 |
| PrintedTexts.OtherStatus | qslary/http/Http.cc:70-82 | every other code is printed as UNKNOWN |
| ResponseRoundTrip.ChunkedResponse | qslary/http/HttpConnection.cc:37-173 | a response with any valid head that asks for chunks is received as the head says, with the payloads as its body; the connection keeps what follows if and only if the read that brought the last size line's end went no further than the message, and otherwise that read's surplus is dropped |
| ResponseRoundTrip.FixedResponse | qslary/http/HttpConnection.cc:37-173 | a response with any valid head whose content-length is the length of the body, or, when there is none, is missing, no number or not above zero, is received as the head says, with exactly that body; the connection keeps what follows if and only if the read that brought the head's end went no further than the message, and otherwise that read's surplus is dropped |
| ResponseStream.Received | qslary/http/HttpConnection.cc:37-173 | both kinds in one statement, whatever follows the message and however reads that respect its lines cut it |
| HeaderMaps.LinesSay | qslary/http/Http.cc:209-213 | of header lines set one by one: a key is in the map if and only if some line's name folds to it, its value is that of the last such line, and its spelling that of the first |
| HeaderMaps.EntriesSay | qslary/http/Http.cc:124-128 | the same for requests |
| ReceivedMessages.ResponseHeaders | qslary/http/HttpConnection.cc:37-173 | in a received response, looking a key up gives the value of the last line of the head whose name folds to it, spelled as in the first; other keys give nothing |
| ReceivedMessages.ResponseVersion | qslary/http/HttpParser.cc:133-151 | a received response has the version its status line spells, which is 1.1 or 1.0 |
| RefusedTexts.VersionCloses | qslary/http/HttpParser.cc:133-151 | for every stream that begins with a version and a space, and every way reads cut it: unless the version is 1.1 or 1.0 and no read ends within its text, or a read ends exactly behind it, recvResponse closes |
| RefusedTexts.AnyVersionPasses | qslary/http/HttpParser.cc:133-151 | when the first read ends exactly behind the version, a response of any version is received as one of 1.1 |
| CutShort.FixedIff | qslary/http/HttpConnection.cc:145-173 | a body of a given length comes if and only if that many bytes do and the number of those still to be read, cut to an `int`, is above zero |
| CutShort.DecodeShort | qslary/http/HttpConnection.cc:80-143 | an encoded body that the stream ends in, anywhere, closes the connection |
| CutShort.ResponseCutShort | qslary/http/HttpConnection.cc:37-173 | for every valid response, fixed or chunked, and every stream that is a proper beginning of it, however short, recvResponse closes |
| ResponseStream.BackToBack | qslary/http/HttpConnection.cc:37-173 | of two messages back to back the first is received, and the second is left to the next call, which receives it, if and only if no read ran beyond the first |
| ResponseStream.SecondIsDropped | qslary/http/HttpConnection.cc:40-45 | when one read brings two messages the second is dropped, and what the connection keeps is just what comes after it, cut as it was |
| ResponseStream.SecondIsLost | qslary/http/HttpConnection.cc:40-45 | with nothing behind them, the next call finds the stream at its end and closes |
| ResponseStream.LossMayNotShow | qslary/http/HttpConnection.cc:40-45 | with the second message once more behind them, the next call returns it, although one was lost |
| ResponseReceiver.Automaton.Do | qslary/http/http_response_parser.cc:589-643 | one action on the parser's fields is the specified one, with its callback |
| ResponseReceiver.Automaton.Execute | qslary/http/http_response_parser.cc:94-111 | the loop over the buffer computes the specified run: fields, bytes consumed and callbacks in order; its final checks hold |
| ResponseReceiver.MoveToFront | qslary/http/HttpParser.cc:184-194 | what was not consumed moves to the front of the buffer |
| ResponseReceiver.ResponseParser.DeliverAll | qslary/http/HttpParser.cc:118-168 | the callbacks build the specified response, and set the error flag exactly when one is refused |
| ResponseReceiver.ResponseParser.Execute | qslary/http/HttpParser.cc:184-194 | execute, with the re-initialisation of chunk mode and the shift of the buffer |
| ResponseReceiver.Connection.ReadFixSize | qslary/net/Stream.cc:7-22 | writes exactly the next bytes of the stream and nothing else; the result is the length cut to an int |
| ResponseReceiver.Connection.ReceiveHead | qslary/http/HttpConnection.cc:47-75 | the first loop computes the specified result; the full-buffer check is never true |
| ResponseReceiver.Connection.ReceiveSize | qslary/http/HttpConnection.cc:83-111 | the size-line loop computes the specified result; the full-buffer check is never true |
| ResponseReceiver.Connection.ReceivePayload | qslary/http/HttpConnection.cc:116-141 | the payload comes from buffer and reads as specified, the line end behind it is dropped, and resizing below zero throws |
| ResponseReceiver.Connection.ReceiveChunks | qslary/http/HttpConnection.cc:80-143 | the chunk loop computes the specified result |
| ResponseReceiver.Connection.ReceiveFixed | qslary/http/HttpConnection.cc:145-173 | the body with a content length is assembled as specified |
| ResponseReceiver.Connection.RecvResponse | qslary/http/HttpConnection.cc:37-173 | recvResponse as a whole returns the specified response, closes exactly when that says so, and leaves the stream there |
| RequestGrammar.EscapesAreHex | qslary/http/http_request_parser.cc:1135-1346 | in every accepted piece of a target, each percent sign has two hex digits behind it |
| RequestGrammar.PieceRun | qslary/http/http_request_parser.cc:1208-1552 | a piece of a target is passed over if and only if every byte is allowed or a proper escape |
| RequestGrammar.TargetRun | qslary/http/http_request_parser.cc:964-1631 | an origin-form target is accepted if and only if its path, query and fragment, split at the first hash sign and the first question mark before it (section 3 of RFC 3986), are each clean; and the callbacks are those pieces |
| RequestHead.MethodRun | qslary/http/http_request_parser.cc:4703-5040 | a method of up to twenty capitals and digits is delivered as it stands |
| RequestHead.OpeningRun | qslary/http/http_request_parser.cc:113-432 | a request line delivers its method, the parts of its target and its version |
| RequestHead.EntryRun | qslary/http/http_request_parser.cc:433-805 | a header line is delivered once, with exactly its name and its possibly empty value |
| RequestHead.RequestHeadRun | qslary/http/http_request_parser.cc:86-110 | a whole request head is recognised in one buffer, and nothing behind it is consumed |
| RequestExchange.MethodRoundTrip | qslary/http/Http.cc:26-34 | each of the 34 method names is read back as itself, though names are matched by prefix, first match first |
| RequestExchange.MethodIff | qslary/http/Http.cc:26-34 | a text is taken for a method if and only if it begins with that method's name; at most one name begins it |
| RequestExchange.KnownMethods | qslary/http/Http.h:93-135 | the 34 names |
| RefusedTexts.MethodCloses | qslary/http/HttpParser.cc:10-22 | for every stream that begins with a method and a space, and every way reads cut it: when no method's name begins the part behind the last cut, recvRequest closes |
| RequestExchange.RequestStops | qslary/http/http_request_parser.cc:9620-9630 | the request parser is finished only by an edge that stops the run |
| RequestExchange.RequestChecksPass | qslary/http/http_request_parser.cc:9613-9622 | in recvRequest the checks at the end of every call hold, however the reads cut the stream |
| HeadReceiving.ChecksMayFail | qslary/http/http_response_parser.cc:3294-3296 | in recvResponse they need not: two arrivals for which the check on the body's start fails |
| RequestExchange.HeadDelivered | qslary/http/HttpParser.cc:10-77 | the callbacks of a printed head build the request's method, version, URL parts and headers |
| RequestExchange.LineEndsAreHarmless | qslary/http/HttpSession.cc:27-54 | reads may end behind any line of a request head |
| RequestExchange.FixedRequest | qslary/http/HttpSession.cc:16-88 | a request with any valid head of the modelled grammar whose content-length is the length of the body, or, when there is none, is missing, no number or not above zero, is received as the head says, with exactly that body; the connection keeps what follows if and only if the read that brought the head's end went no further than the message |
| ReceivedMessages.RequestHeaders | qslary/http/HttpSession.cc:16-88 | in a received request, looking a key up gives the value of the last entry of the head whose name folds to it, spelled as in the first; other keys give nothing |
| ReceivedMessages.RequestCloses | qslary/http/Http.cc:243-258 | a received request leaves the connection open if and only if the last entry whose name folds to connection has a value that folds to keep-alive |
| CutShort.RequestCutShort | qslary/http/HttpSession.cc:16-88 | for every valid request and every stream that is a proper beginning of it, recvRequest closes, for reads that end, within what comes of the head, only where no register is needed |
| CutShort.RequestHeadShort | qslary/http/HttpSession.cc:27-54 | wherever reads end, no request is returned for a head that does not come whole |
| RequestExchange.RequestRoundTrip | qslary/http/Http.cc:163-185 | receiving a printed request gives back method, version, the URL cut at its first hash sign and question mark, body, and the headers but one spelled "connection"; it closes unless a connection header spelled otherwise says keep-alive; nothing is left over |
| RequestQueries.RunQuietly | qslary/http/http_request_parser.cc:290-315 | a run throws nothing when the query it may be in started in this call |
| RequestQueries.ThrowsIff | qslary/http/http_request_parser.cc:86-95 | exactly when a call throws: it starts within a query, the query goes on cleanly, and the space or hash sign that ends it stands in front of the position, kept from an earlier call, where the query is said to start |
| RequestQueries.TornRequestThrows | qslary/http/HttpParser.cc:37-41 | two reads of a plain GET request for which recvRequest throws |
| RequestQueries.TornInOne | qslary/http/HttpSession.cc:16-88 | in one read the same request is received, query and all |
| RequestQueries.NeverThrows | qslary/http/HttpSession.cc:27-54 | when no read ends within a query, as far as the parser gets, recvRequest never throws, whether the request is accepted or not |
| RequestQueries.CutsNeverThrow | qslary/http/HttpSession.cc:27-54 | in particular when reads end only where no register is needed |
| TornQueries.QueryTornIff | qslary/http/HttpSession.cc:27-54 | from within a query, however many reads it goes on for: the loop throws if and only if the rest is clean and its end stands less far into its read than the position kept |
| TornQueries.RequestThrowsIff | qslary/http/HttpSession.cc:27-54 | exactly when recvRequest throws, for every stream and every way reads cut it: a query that the request line leads to ends cleanly, less far into its read than it began in an earlier one, and no earlier read closed the connection over the method, taken from the read that brings its end |
| RequestReceiver.RequestParser.Deliver | qslary/http/HttpParser.cc:10-77 | each callback changes the request and the error flag as specified, or throws, exactly for a query too long for a string |
| RequestReceiver.RequestParser.Execute | qslary/http/HttpParser.cc:101-106 | execute throws exactly when one of its callbacks does; otherwise fields, request, flag and buffer are as specified |
| RequestReceiver.ReadHead | qslary/http/HttpSession.cc:27-54 | the loop of recvRequest computes the specified result, the exception included; the full-buffer check is never true |
| RequestReceiver.RecvRequest | qslary/http/HttpSession.cc:16-88 | recvRequest as a whole returns the specified request and leaves the stream there, throws exactly when the specification says so, and closes exactly when that does |
| SchedulerModel.NextKeepsInv | qslary/net/Scheduler.cc:114-196 | every step of every worker, callback and outside thread keeps the invariant of the worker system |
| SchedulerModel.OnePlace | qslary/net/Scheduler.cc:114-177 | in every interleaving, every fiber ever submitted is in exactly one place: in the list once, with exactly one worker, destroyed, having ended, or leaked, having yielded |
| SchedulerOrder.RunInOrder | qslary/net/Scheduler.cc:114-177 | in every interleaving the list holds exactly the latest submissions, in the order of submission |
| SchedulerOrder.TakesOldest | qslary/net/Scheduler.cc:128-142 | in every interleaving, a worker that looks takes the callback submitted first of all that are left, and leaves the others as they are; it finds none only when there is none |
| SchedulerOrder.TakenBefore | qslary/net/Scheduler.cc:128-142 | whatever was submitted before a callback that has been taken has been taken, too |
| SchedulerOrder.AdvanceAddsIff | qslary/net/Scheduler.cc:154-158 | a worker puts a callback into the list if and only if its fiber came back to be run again: as a new fiber, behind all others |
| SchedulerOrder.IdleEndsIff | qslary/net/Scheduler.cc:181-196 | in every interleaving, an idle fiber that asks ends if and only if stop() has set both flags, the list is empty, and no worker is between counting a callback and counting it off |
| SchedulerOrder.LeavesAfterStop | qslary/net/Scheduler.cc:160-167 | in every interleaving, a worker leaves only after stop() has set both flags |
| SchedulerModel.SwapInIsSafe | qslary/base/Fiber.cc:123-127 | swapIn is never applied to a fiber that runs, neither a submitted nor an idle one |
| SchedulerModel.DropIff | qslary/base/Fiber.cc:100-120 | when a worker lets go of a fiber, it is destroyed if and only if its callback has ended, the destructor's check then holds, and it is leaked if and only if its callback yielded |
| SchedulerModel.GoneIff | qslary/base/Fiber.cc:184-209 | in every run, a fiber that no worker holds has been destroyed if and only if its callback ended, and has leaked if and only if its callback yielded |
| SchedulerModel.LeakedForGood | qslary/base/Fiber.cc:175-182 | a leaked fiber stays leaked in every continuation of the run: no worker holds it and it is not in the list |
| SchedulerModel.YieldLeaks | qslary/base/Fiber.cc:166-182 | a concrete run in which a callback that yields is let go of and never freed: its stack keeps two references to it |
| SchedulerModel.Drain | qslary/net/Scheduler.cc:80-100 | once all workers have left, what is in the list is exactly what was submitted from outside after the last look, and every other callback ever submitted has ended or yielded |
| SchedulerModel.DrainsCompletely | qslary/net/Scheduler.cc:80-100 | without outside submissions after stop() and without yields, all workers gone means an empty list and every callback run to its end |
| SchedulerModel.LateIsLost | qslary/net/Scheduler.cc:93-113 | a concrete run in which a callback submitted too late is never run |
| SchedulerModel.CleanTooSoon | qslary/net/Scheduler.cc:181-187 | a concrete run in which IsClean holds although a callback was taken and not yet run |
| SchedulerModel.CleanIsTrueIff | qslary/net/Scheduler.cc:181-187 | when IsClean holds, every callback submitted so far has ended or yielded if and only if no worker has taken one that is not counted yet |
| SchedulerModel.CalmWorkerLeaves | qslary/net/Scheduler.cc:157-196 | with nothing left to do, every step brings a worker closer to leaving |
| SchedulerModel.CalmLeaves | qslary/net/Scheduler.cc:114-196 | from then on a worker leaves within eleven turns of its own, whatever the others do |
| SchedulerList.Scheduler.SchedulerNoLock | qslary/net/Scheduler.h:76-82 | appends one new fiber and asks for a wake-up exactly when the list was empty |
| SchedulerList.Scheduler.ScheduleRange | qslary/net/Scheduler.h:56-74 | appends all callbacks in order, with one wake-up, exactly when the list was empty and there are any |
| SchedulerList.Scheduler.Pick | qslary/net/Scheduler.cc:128-142 | takes the first fiber that can run out of the list, and that is what the worker's step in the state machine does |
| SchedulerList.Scheduler.CheckClean | qslary/net/Scheduler.cc:181-187 | computes the condition the state machine uses |
| Polling.Poller.UpdateChannel | qslary/poller/Epoller.cc:88-129 | every epoll_ctl it issues fits and succeeds, and the kernel then holds the channel's new mask, or nothing |
| Polling.Poller.Remove | qslary/poller/Epoller.cc:131-150 | forgets the channel, in the kernel too if it is there |
| Polling.Poller.EnableReading | qslary/net/Channel.h:41-45 | sets the read bits and keeps kernel and channels in agreement |
| Polling.Poller.DisableAll | qslary/net/Channel.h:61-65 | clears the mask and keeps kernel and channels in agreement |
| Polling.Poller.FillActiveChannels | qslary/poller/Epoller.cc:71-86 | every returned event leads to a registered channel; they are handed on in order with the events they got |
| Polling.RunHistory | qslary/poller/Epoller.cc:88-150 | after any calls on channels with distinct descriptors, the kernel's interest set is exactly the channels marked as added, each with its present mask, which the calls on that channel, and no others, have made |
| Polling.LastSaysReading | qslary/net/Channel.h:41-65 | the last call on a channel that says whether reading is wanted decides whether it is |
| Polling.LastSaysWriting | qslary/net/Channel.h:41-65 | the same for writing |
| ByteQueue.ByteArray.CopyDown | qslary/net/ByteArray.cc:105-109 | a copy from the front is sound, since compaction always moves bytes down |
| ByteQueue.ByteArray.MakeSpace | qslary/net/ByteArray.cc:98-110 | called by Write, it makes room without losing a byte: it grows to less than readable + 2 * size + 16, or compacts strictly downwards |
| ByteQueue.ByteArray.Write | qslary/net/ByteArray.cc:86-96 | appends to what waits, and grows no further than that bound |
| ByteQueue.ByteArray.Read | qslary/net/ByteArray.cc:74-84 | takes the next bytes, as many as there are |
| ByteQueue.ByteArray.GetReadBuffer | qslary/net/ByteArray.cc:56-63 | hands out the next bytes by position and takes them |
| ByteQueue.ByteArray.ReadInt | qslary/net/ByteArray.h:36-42 | reads a little-endian integer; bytes that are not there keep what the variable held |
| ByteQueue.NumberOfBytes | qslary/net/ByteArray.h:27-42 | an integer written is the integer read |
| ByteQueue.LowBytesFirst | qslary/net/ByteArray.h:27-35 | the lowest bytes of an integer come first |
| ByteQueue.RunHistory | qslary/net/ByteArray.cc:49-122 | over any history of operations, reads of integers, buffers handed out and clear included, the class shows what a queue would show, and holds what the queue holds |
| ByteQueue.FirstInFirstOut | qslary/net/ByteArray.cc:49-122 | of that queue: what was taken, followed by what waits, is what was written, in order |
| BitArithmetic.EncodeZigzag32 | qslary/net/ByteArray.cc:21-31 | decoding inverts encoding for every 32-bit value |
| BitArithmetic.EncodeZigzag64 | qslary/net/ByteArray.cc:33-47 | decoding inverts encoding for every 64-bit value |
| BitArithmetic.EveryWordIsACode | qslary/net/ByteArray.cc:21-45 | every 32-bit word is the code of the value it decodes to |
| BitArithmetic.SignIsLowest32 | qslary/net/ByteArray.cc:21-31 | the lowest bit of a code is the sign, and the others the value or its complement |
| BitArithmetic.SignIsLowest64 | qslary/net/ByteArray.cc:33-47 | the same for 64 bits |
| BitArithmetic.OnesOfCleared | qslary/net/Address.cc:30-36 | clearing the lowest set bit takes exactly one bit away |
| BitArithmetic.CountOneNumbers | qslary/net/Address.cc:30-36 | the loop ends with the number of set bits |
| BitArithmetic.BroadcastFillsHost | qslary/net/Address.cc:344-354 | for IPv4 and a prefix of 1 to 32, the broadcast address is the address with the complement of the subnet mask set |
| BitArithmetic.SubnetHasPrefix | qslary/net/Address.cc:366-373 | the IPv4 subnet mask of a prefix of 1 to 32, in network byte order, has as many bits set as the prefix says |
| BitArithmetic.SubnetMask4 | qslary/net/Address.cc:366-373 | bit j of the IPv4 subnet mask, as it lies in memory, is set if and only if j lies within the prefix |
| BitArithmetic.BroadcastBits | qslary/net/Address.cc:344-354 | bit j of the IPv4 broadcast address is set if and only if j lies behind the prefix or the address has it set |
| BitArithmetic.SubnetMask6 | qslary/net/Address.cc:466-478 | bit j of the IPv6 subnet mask is set if and only if j lies within the prefix |
| BitArithmetic.Broadcast6 | qslary/net/Address.cc:446-456 | for IPv6, every byte is the address with the complement of the subnet mask set |
| LogPattern.LoggerFormatter.ScanItem | qslary/base/Logger.cc:536-573 | the inner loop finds the name, the argument and the end of an item as specified, or that its brace stays open |
| LogPattern.LoggerFormatter.Cut | qslary/base/Logger.cc:519-602 | the scan cuts the pattern into the specified pieces |
| LogPattern.LoggerFormatter.Init | qslary/base/Logger.cc:519-661 | init fills the items and the error flag as specified |
| LogPattern.ScannerRoundTrip | qslary/base/Logger.cc:519-661 | the scanner inverts rendering of known items and literals, without error |
| LogPattern.ErrorIffUnknown | qslary/base/Logger.cc:646-653 | a rendered list is an error if and only if one of its items is unknown |
| LogPattern.OpenBraceIsError | qslary/base/Logger.cc:591-597 | an item whose brace never closes is an error, whatever stands before it |
| LogPattern.DoubledPercent | qslary/base/Logger.cc:531-535 | a doubled percent sign does not quote one: the pattern is in error if and only if the one with a single percent sign is |
| ConnectionPool.DiscardKeepsBalance | qslary/http/HttpConnection.cc:497-501 | deleting the discarded connections keeps the books: each connection idle, lent or deleted, deleted at most once, and the total is idle plus lent |
| ConnectionPool.LendKeepsBalance | qslary/http/HttpConnection.cc:480-496 | handing out an idle connection keeps the books, and it was not lent before |
| ConnectionPool.MakeKeepsBalance | qslary/http/HttpConnection.cc:503-524 | making a connection keeps the books |
| ConnectionPool.HttpConnectionPool.PopUsable | qslary/http/HttpConnection.cc:480-496 | the loop discards exactly the connections before the first usable one |
| ConnectionPool.DiscardsIff | qslary/http/HttpConnection.cc:480-496 | what it discards: once the clock is past the age limit, exactly the closed connections in front of the first open one; before that, everything |
| ConnectionPool.HttpConnectionPool.GetConnection | qslary/http/HttpConnection.cc:474-527 | hands out the first usable connection or a new one, deletes exactly those before it, and keeps the books |
| ConnectionPool.HttpConnectionPool.Release | qslary/http/HttpConnection.cc:529-542 | deletes the connection or puts it behind the others, and keeps the books; an open one is deleted if and only if the clock has not passed the age limit |
| ConnectionPool.RunHistory | qslary/http/HttpConnection.cc:474-542 | over any sequence of calls, whatever the clock does, the books balance and exactly the connections callers hold are lent; unless the clock says 1970, no open connection is ever deleted |
| Latch.LatchIsExact | qslary/base/CountDownLatch.cc:11-30 | nobody passes before the count is used up, and once it is, nobody sleeps |
| Latch.ResumePasses | qslary/base/CountDownLatch.cc:11-20 | a woken thread passes as soon as it gets the lock, once the count is used up |
| Latch.NobodyIsForgotten | qslary/base/CountDownLatch.cc:11-30 | a thread that called wait sleeps, is awake, or has passed |

## Left out

- TimerQueue.AlwaysArmed: needs the clock of every batch to be after 1970; a timer that is cancelled may leave the kernel timer set for it; that the kernel timer goes off, and that reading it succeeds, is not part of the model.
- TimerManagement.TimerManager.HandleRead: the callbacks are given as a list of calls; a callback that calls handleRead again, or throws, is not modelled, and there is one timer manager, since the counter of sequence numbers is shared by all.
- Real time and floating point: an interval is a real number, whose product with a million a `double` may round, and a recurring timer keeps it in microseconds; the clock is a parameter.
- ParserSegments.StaleLength: the text behind the end of a buffer is empty in the model; in C++ it is a NUL and what the buffer held before.
- ResponseReceiver.Automaton.Do: the same holds of a header's name that runs on beyond the buffer: it arrives empty here, and with whatever memory holds there in C++.
- RequestReceiver.RequestParser.Execute: where the parser object stands after a callback has thrown is not said; `recvRequest` gives the object up.
- Framing.ReceiveHead: goes on when a check at the end of a call fails, as a build without assertions does.
- HeaderGrammar.HeaderLine: values are not empty, and lines are not folded; an empty value of one of the three special names leads to the stale register.
- ChunkedDecoding.DecodingInvertsEncoding: chunks have at most 2^31 - 3 bytes, since sizes are kept in an `int` to which 2 is added; size lines carry no extensions, and there are no trailers.
- Framing.ReceivePayload: computes on unbounded integers, where in C++ `content_len + 2` overflows for the two largest sizes.
- ResponseRoundTrip.FixedBody: bodies are shorter than 2^31, since `readFixSize` returns its length as an `int`; running out of memory for a huge content-length is not modelled.
- ResponseRoundTrip.RoundTrip: the names connection, content-length and transfer-encoding are not among the headers printed, values are not empty, and reads end behind lines of the head.
- RequestExchange.FixedRequest: reads end, within the head, only where no register is needed, and bodies are shorter than 2^31.
- TornQueries.RequestThrowsIff: texts that lead into the parts of the request table that are not modelled are refused in the model, so queries behind an authority are not spoken of; arrivals are not empty and fit the buffer.
- RequestExchange.RequestRoundTrip: the URL printed is an origin-form target with one leading slash, the headers hold no content-length of their own, and bodies are shorter than 2^31.
- RequestCuts.RequestCutIff: says nothing of texts that lead into the parts of the request table that are not modelled.
- RequestGrammar.TargetRun: targets that start with two slashes (an authority), absolute and relative URIs, and the `uri_relaxed` switch of the parser's table are not modelled.
- The request table's states for XML and JSON sockets and for IPv6 literals.
- A read that fails with an error is treated like the end of the stream: both close the connection.
- ByteQueue.ByteArray.constructor: starts with both indices at 0, the state that `clear` sets; the C++ constructor leaves them unset.
- ByteQueue.ByteArray.ReadInt: the bytes that were not there are a parameter (`held`): C++ leaves them as the variable was.
- `ByteArray::GetWriteBuffer`, which never moves the write index, the file operations, and the strings with a length in front.
- BitArithmetic.SubnetHasPrefix: not for prefix 0, where the mask is made by a shift as wide as the word.
- `NetworkAddress`, which masks with the host bits, and `IPv6Address::Insert`.
- SchedulerModel.NextKeepsInv: workers and fibers are values in a state machine, not objects; context switches, stacks and the thread's current fiber are not modelled, nor are waking and waiting in `IOManager`.
- SchedulerModel.LeakedForGood: a callback that hands its own fiber to somebody else, who submits it again to have it resumed, is not modelled.
- SchedulerModel.CalmLeaves: counts turns of the worker itself; that every thread gets turns is up to the operating system.
- Polling.Poller.UpdateChannel: `epoll_ctl` fails only for an operation that does not fit the interest set; descriptors closed behind the poller's back are not modelled, nor is the growth of the event list.
- LogPattern.ScannerRoundTrip: arguments hold no closing brace, literals hold no percent sign and are neither empty nor next to each other, and a literal behind an item without argument starts with neither a letter nor a brace.
- What log items print, appenders and the configuration of loggers.
- ConnectionPool.HttpConnectionPool.Release: its accesses to the total, which the code makes outside the lock, are one step here.
- ConnectionPool.HttpConnectionPool.GetConnection: whether a name resolves and a socket connects is one parameter.
- Latch.LatchIsExact: calls of `countDown` and `wait` are atomic steps, as under their mutex; `getCount` is not modelled.
- Sockets, hooks, `EventLoop`, `IOManager`, `TcpServer`, `HttpServer`, servlets, the URI parser, configuration and descriptors.
