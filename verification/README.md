# Arachnida: protocols, parsers and codecs

Arachnida is a set of C++ libraries for embedded HTTP servers and clients. This project models its
hardest parts in Dafny and proves what they promise, for all inputs, all runs and all ways in which
the network can cut a stream into reads.

* **The resumable request parser.** A server's handler is given whatever bytes have arrived, keeps
  what it cannot use yet in an attribute of the connection, and hands on requests when they are
  complete. Theorems: it undoes the client's printer, with pipelining; exactly which chunkings are
  harmless; nothing received is lost, duplicated or reordered; it terminates.
* **The connection handler.** Clients attach and detach file descriptors while a worker thread
  selects on them. Theorems over every run: no callback after detach, no lost wake-up, the life
  cycle of an entry; what throws is removed and never
  called again, what is ready is called; over every fair infinite run: detach returns.
* **The SSL context.** Built on first use, shared by copies, copied on write. Theorem: in every
  careful run it cannot be told from one that is rebuilt from its settings on every call, and a
  single setter breaks this exactly when it is not careful.
* **The codecs**: base64, percent-encoding, and the two regular expressions that split URLs.

Code that changes state is modelled by classes, arrays and loops whose contracts tie them to
functions; the theorems are about these functions. Bytes are characters. An exception is a value of
a result type, and ends the session in which it is thrown.

## Layout

| file | what it holds |
|---|---|
| `Bytes`, `Decimal` | character classes, spans, decimal numbers as `lexical_cast` reads them |
| `ParsingHelpers`, `HeaderEnd` | the iterator helpers, and what a header end is, without the scan |
| `HttpDataHandler` | one call of the request parser: function and class |
| `Messages`, `Chunking`, `Sessions`, `ChunkingTheorems`, `BlankBodies`, `HeaderlessRequests` | messages on the wire, the parser on every prefix of them, and runs over chunks |
| `FirstLines`, `Refusals` | what is read from a first line with any white space, and what is refused with which exception, after which requests |
| `Conservation` | where delivered and stored bytes come from, for every input |
| `DamonRequest`, `RequestRoundTrip` | what a client serialises, and that the server receives it |
| `SpinResponse`, `DamonResponse` | what a server serialises, and `getResponse`: function and methods |
| `ResponseRoundTrip`, `ResponseCalls`, `ResponseRefusals` | the scan on every prefix of a response, calls of `getResponse` on any reads of any number of responses, and what they refuse |
| `ConnectionHandler` | the shared list of callbacks, one method for each region under the lock |
| `WorkerProtocol`, `WorkerObject`, `WorkerSafety`, `WorkerRounds`, `WorkerLiveness`, `WorkerDefects` | the interleaved protocol, its invariant, safety, what each round of the worker does, progress, and exactly which attaches and detaches break it |
| `Context`, `ContextRuns` | the SSL context as objects, and runs over any number of them |
| `Base64`, `UrlEncode`, `ParseUrl` | the codecs |

## Where the code does not do what it is meant to

Each of these is kept as the code has it, with the exact condition under which it is harmless and an
input or a run that shows it.

* A call that resumes inside a body runs the header loop once more over body bytes
  (lib/Spin/Handlers/HTTPDataHandler.cpp:79-109). If they look like a header line that ends, the
  request gets a header that was never sent, or the call throws. Every request with a body that is
  not the last one on the connection can be broken like this, whatever its body:
  `Sessions.ChunkingExact`, `ChunkingTheorems.EveryChunkingExact`; `ChunkingTheorems.LineBreakInBody`.
* All white space behind the header section is skipped, also when it is the start of the body:
  `BlankBodies.WholeStreamExact`, `ResponseCalls.ResponseComesBack`; `BlankBodies.BlankBodyIsLost`.
* A request without headers is lost when a cut separates its two line ends, because the white space
  that was seen is not kept: `HeaderlessRequests.HeaderlessExact`; `HeaderlessRequests.TwoPieces`.
* `getResponse` jumps back for ever, without reading, when a read ends in the headers; when it ends in
  the body it returns the response without its body, and every later call throws:
  `ResponseCalls.ResponsesExact`, `ResponseCalls.SeveralReadsExact`, `DamonResponse.RetryIsStuck`;
  `ResponseCalls.CutInBody`.
* A reason may be empty (RFC 2616, section 6.1.1). Then the line end is skipped with the white space
  before the reason, and the first header is taken for it: `ResponseCalls.ResponseComesBack`;
  `ResponseCalls.EmptyReasonIsLost`.
* A negative status code is read back as a large one: `ResponseCalls.ResponseComesBack`;
  `ResponseCalls.NegativeStatusWraps`.
* `findHeaderEnd` says that a header ends at a new line followed by something other than white
  space. At the end of the buffer it also accepts two CRs or two LFs, and then a blank at the start
  of the next read moves the answer: `HeaderEndSpec.FoundStaysFound`; `HeaderEndSpec.FoundCanMove`.
* `detach` on the worker thread does not wait, and the callback it removes can still be called when
  it was collected in the same round: `WorkerSafety.CalledAfterWorkerDetach`;
  `WorkerDefects.CalledAfterDetach`.
* A descriptor can be attached while it is in the list. Then the callback of its first entry can be
  called after the detach of that entry has returned, because the second one is ready; this is so
  for every attach of a listed descriptor, in every reachable state, and for no other:
  `WorkerDefects.AttachExact`; `WorkerDefects.AttachedTwice`.
* A descriptor can be detached while a thread waits for its detach. Then a thread can follow its
  iterator to a node that was erased; again for every such detach, on any thread, and for no other:
  `WorkerDefects.DetachExact`; `WorkerDefects.DetachedByTwo`.
  The other theorems about runs are for clients that do neither.
* A setter drops the shared SSL context only when it was built. Before that, a copy keeps sharing
  the cell, and whoever asks first decides what both get, against the documented value semantics
  (lib/Scorpion/Context.h): `ContextRuns.SetterExact`; `ContextRuns.SetterBreaksCopy`.
* Text that decodes from base64 is not always what an encoder writes: `Base64.EncodeDecode`;
  `Base64.NotCanonical`. The same for percent-encoding: `UrlEncode.EncodeDecode`;
  `UrlEncode.NotEncoded`.

## Model

| member | source | states |
|---|---|---|
| ParsingHelpers.HasMoreHeaders | lib/Acari/ParsingHelpers.hpp:55-67 | the loop that counts finds out whether there are fewer than two CRs and fewer than two LFs |
| ParsingHelpers.FindHeaderEnd | lib/Acari/ParsingHelpers.hpp:86-140 | the scanning loops and the tail recursion, as a loop over positions, find the header end of the rest of the buffer, wherever in the buffer they start; the recursion terminates |
| ParsingHelpers.Split | lib/Acari/ParsingHelpers.hpp:150-159 | name and value of a header, both chomped, or the exception when there is no colon |
| ParsingHelpers.ExtractRequestHeader | lib/Acari/ParsingHelpers.hpp:161-210 | method, URL and protocol with the position behind them; incomplete; or the exception, in the order of the checks |
| ParsingHelpers.ExtractResponseHeader | lib/Acari/ParsingHelpers.hpp:212-257 | the same for protocol, status code and reason, including a status code that is not a number |
| Bytes.Classes | lib/Acari/ParsingHelpers.hpp:12-37 | the characters the scanners stop at, by their codes |
| Bytes.LineEnd | lib/Damon/Request.cpp:462 | a line end that is written is a CR and an LF |
| ParsingHelpers.Supported | lib/Spin/Handlers/HTTPDataHandler.cpp:164-175 | the eight words and the method each stands for; the two protocols |
| FirstLines.RequestLineAnswers | lib/Acari/ParsingHelpers.hpp:161-210 | three words with any white space before and between them: an unknown method, if the first is none of the eight words; otherwise an unsupported protocol, if the third is neither HTTP/1.0 nor HTTP/1.1; otherwise these words |
| FirstLines.MethodIsRefusedFirst | lib/Acari/ParsingHelpers.hpp:180-184 | an unknown method is refused as soon as the byte behind it is there, whatever follows |
| FirstLines.RequestLineWaits | lib/Acari/ParsingHelpers.hpp:174-200 | in every other case the line is incomplete until the byte behind its third word is there |
| FirstLines.StatusLineAnswers | lib/Acari/ParsingHelpers.hpp:212-257 | the same for two words and a reason: protocol first, then a status that has to be an unsigned number of 32 bits |
| FirstLines.ProtocolIsRefusedFirst | lib/Acari/ParsingHelpers.hpp:230-236 | an unsupported protocol is refused as soon as the byte behind it is there |
| FirstLines.StatusLineWaits | lib/Acari/ParsingHelpers.hpp:240-254 | in every other case, also with a status that is not a number, the line is incomplete until the line end |
| Refusals.ChompTakesPadding | lib/Acari/ParsingHelpers.hpp:142-148 | chomping takes white space from both ends, all of it and nothing else |
| Refusals.SplitExactly | lib/Acari/ParsingHelpers.hpp:150-159 | a header is refused if and only if it has no colon; otherwise name and value are what is before and behind the first colon, with all padding taken off |
| HeaderEndSpec.HeaderEndMeetsSpec | lib/Acari/ParsingHelpers.hpp:86-140 | started on a byte that is not white space, findHeaderEnd returns the first whole newline run that is followed by a byte that is not white space, or that reaches the end of the buffer with two CRs or two LFs, and its start if and only if there is none |
| HeaderEndSpec.NoMoreHeaders | lib/Acari/ParsingHelpers.hpp:55-67 | the counters say that no header follows if and only if a CR or an LF occurs at two positions |
| HeaderEndSpec.HeaderEndUnique | lib/Acari/ParsingHelpers.hpp:86-140 | only one position meets that specification |
| HeaderEndSpec.FoundStaysFound | lib/Acari/ParsingHelpers.hpp:114-133 | a header end that was found stays where it is on a longer buffer if and only if it is not the case that only newlines followed it and the first other byte that arrives is white space |
| HeaderEndSpec.FoundCanMove | lib/Acari/ParsingHelpers.hpp:114-133 | a buffer in which a header end is found, and a byte that moves it |
| HttpDataHandler.ReadHeaders | lib/Spin/Handlers/HTTPDataHandler.cpp:78-109 | the do-while loop with its two stop flags stores the headers of the rest of the buffer behind those it was given, and says where it stopped, whether all headers were found, or which exception it throws; it terminates |
| HttpDataHandler.HTTPDataHandler.Restore | lib/Spin/Handlers/HTTPDataHandler.cpp:42-71 | the stored request or a new one, the bytes left of the buffer, and a cleared attribute; a restored request has an empty body |
| HttpDataHandler.HTTPDataHandler.ReadBody | lib/Spin/Handlers/HTTPDataHandler.cpp:115-142 | the body that the first Content-Length asks for, none without it, nothing yet when bytes are missing, or the exception of the conversion |
| HttpDataHandler.HTTPDataHandler.Deliver | lib/Spin/Handlers/HTTPDataHandler.cpp:110-161 | hands on a complete request and stores what follows it for the next round, or stores the request; needs an empty body, which the assertion at line 133 demands |
| HttpDataHandler.HTTPDataHandler.OnDataReady | lib/Spin/Handlers/HTTPDataHandler.cpp:28-162 | the whole call, with the jump back as a loop: new attribute, requests handed on and exception are those of the function OnData; the attribute stays valid, so the assertions at lines 61 and 133 hold; every jump back restarts on fewer bytes, so the call ends |
| Messages.HeaderLoopOn | lib/Spin/Handlers/HTTPDataHandler.cpp:78-109 | on every prefix of a section of well-formed, possibly folded headers the loop stores exactly the headers that are followed by one more byte than their line end, keeps the bytes of the others, and sees the end of the headers one byte early, at the last CR |
| Messages.LinesOfHeaders | lib/Damon/Request.cpp:399-416 | a header is written as name, colon, space, value, CR LF |
| Chunking.RequestLineOn | lib/Acari/ParsingHelpers.hpp:161-210 | the request line of a message is recognised, with its parts, exactly when the byte behind its protocol has arrived |
| Chunking.OnDataGood | lib/Spin/Handlers/HTTPDataHandler.cpp:28-162 | one call on any chunk, given an attribute that stands for a list of messages of which the rest is still to come, hands on the first few of them and leaves an attribute that stands for the others, unless it resumes inside a body and meets a header end there |
| Sessions.ChunkingExact | lib/Spin/Handlers/HTTPDataHandler.cpp:28-162 | for every list of well-formed requests and every chunking of their text: exactly these requests are handed on, in order, if and only if no call that resumes inside a body meets a header end in the bytes it has |
| Sessions.UncleanGoesWrong | lib/Spin/Handlers/HTTPDataHandler.cpp:83-93 | such a call throws, or leaves or hands on a request with a header too many |
| Sessions.RunWrong | lib/Spin/Handlers/HTTPDataHandler.cpp:28-162 | and nothing that arrives later repairs it |
| ChunkingTheorems.WholeStream | lib/Spin/Handlers/HTTPDataHandler.cpp:143-156 | pipelining: one call on all the bytes hands on every request, with method, URL, protocol, headers and body |
| ChunkingTheorems.ChunkingIndependence | lib/Spin/Handlers/HTTPDataHandler.cpp:28-162 | if no cut lies between the CR LF CR that ends the headers of a request with a body and the end of that body, the chunks are handled like the whole stream |
| ChunkingTheorems.EmptyBodiesAnyChunking | lib/Spin/Handlers/HTTPDataHandler.cpp:28-162 | without bodies every chunking is |
| ChunkingTheorems.BodyChunking | lib/Spin/Handlers/HTTPDataHandler.cpp:79-138 | a request by itself whose body has no CR or LF survives every chunking, also cuts in the blank line and in the body |
| ChunkingTheorems.EveryChunkingExact | lib/Spin/Handlers/HTTPDataHandler.cpp:79-156 | a list of pipelined requests survives every chunking if and only if none but the last has a body, and no prefix of the last body looks like a header that ends |
| ChunkingTheorems.BodyChunkingExact | lib/Spin/Handlers/HTTPDataHandler.cpp:79-138 | a request by itself survives every chunking if and only if no prefix of its body looks like a header that ends |
| ChunkingTheorems.LineBreakInBody | lib/Spin/Handlers/HTTPDataHandler.cpp:86-93 | a well-formed request and chunks of its text after which it was not handed on as it was sent |
| BlankBodies.NoBlankBodies | lib/Spin/Handlers/HTTPDataHandler.cpp:81-108 | no request that one call starts and completes, in whatever bytes, has a body that starts with white space |
| BlankBodies.WholeStreamExact | lib/Spin/Handlers/HTTPDataHandler.cpp:81-108 | one call hands on all of a list of requests with arbitrary bodies if and only if none of the bodies starts with white space |
| BlankBodies.BlankBodyIsLost | lib/Spin/Handlers/HTTPDataHandler.cpp:81-108 | a request with a body of one space that one call on its text does not hand on |
| HeaderlessRequests.HeaderlessExact | lib/Spin/Handlers/HTTPDataHandler.cpp:81-109 | for every chunking of a request without headers: it is handed on if and only if no cut lies between its two line ends and there are not cuts inside both of them; otherwise it is lost, and no exception is thrown |
| HeaderlessRequests.TwoPieces | lib/Spin/Handlers/HTTPDataHandler.cpp:81-109 | in two pieces, it is lost only at the cut between the two line ends |
| Refusals.StreamThen | lib/Spin/Handlers/HTTPDataHandler.cpp:143-156 | well-formed requests with anything behind them are handed on before that is looked at, and the rest of the call is what a call on the rest does |
| Refusals.UnknownLineRefused | lib/Acari/ParsingHelpers.hpp:179-207 | a request line with an unknown method or protocol behind any well-formed requests: these are handed on, the exception names the word, and the attribute is cleared |
| Refusals.BadHeaderRefused | lib/Acari/ParsingHelpers.hpp:153-154 | the same for a line without a colon, behind any well-formed headers |
| Refusals.BadLengthRefused | lib/Spin/Handlers/HTTPDataHandler.cpp:115-121 | the same for a first Content-Length that is not a number |
| Conservation.RequestLineStable | lib/Acari/ParsingHelpers.hpp:161-210 | a request line that was read, or refused with an exception, is read or refused in the same way on every longer buffer |
| Conservation.OnlyIncompleteChanges | lib/Acari/ParsingHelpers.hpp:174-200 | the answer can change on a longer buffer if and only if it is "incomplete" |
| Conservation.OnDataConserves | lib/Spin/Handlers/HTTPDataHandler.cpp:28-162 | one call on any attribute and any chunk: what is stored is a suffix of what there was, bodies are slices of it |
| Conservation.RunsConserve | lib/Spin/Handlers/HTTPDataHandler.cpp:28-162 | for every input, cut in every way: the stored bytes are a suffix of all bytes received; the bodies handed on are slices of the input that follow one another without overlap; each is as long as its first Content-Length says, or empty; stored requests have no body yet |
| Conservation.ErrorEmpties | lib/Spin/Handlers/HTTPDataHandler.cpp:68 | a call that throws has cleared the attribute |
| Decimal.ParsePrint | lib/Damon/Request.cpp:469 | a number that is printed is read back, if it fits the type |
| Decimal.ParseExactly | lib/Damon/Request.cpp:190 | what lexical_cast to an unsigned type accepts: a printed number below the limit, with any zeros and perhaps a sign in front, and nothing else; a minus sign wraps around |
| Decimal.Limits | lib/Spin/Handlers/HTTPDataHandler.cpp:121 | `size_t` has 64 bits, `unsigned int` 32 |
| Decimal.BaseTen | lib/Damon/Request.cpp:469 | printed numbers are in base ten |
| DamonRequest.AppendHeaders | lib/Damon/Request.cpp:399-416 | the appender adds one line for each header, in order |
| DamonRequest.SerializeRequest | lib/Damon/Request.cpp:419-481 | the text is that of the message with the method's word, the resource of the URL, the headers with Host, Content-Length and Authorization added where the code adds them, and the body; or the exception |
| DamonRequest.OneMessage | lib/Damon/Request.cpp:461-480 | the text of a message in full |
| DamonRequest.SentRequest | lib/Damon/Request.cpp:419-481 | for every URL printed from its components: the word that is sent is the one for which the server's table holds the client's method; path, HTTP/1.1 and body; the client's headers come first, behind them Host with host and explicit port and Content-Length with the size of the body, each if it was absent; then, if and only if basic authorization was asked for and there is a user, an Authorization from which user, colon, password can be decoded |
| DamonRequest.NotSent | lib/Damon/Request.cpp:430-460 | what cannot be sent, and that the URL is looked at before the method |
| DamonRequest.SendableIsFramed | lib/Damon/Request.cpp:430-475 | the added headers keep the headers well-formed, and the Content-Length that is in front says how long the body is |
| RequestRoundTrip.PipelinedRequestsArrive | lib/Damon/Request.cpp:419-481 | one call on the concatenated texts of any number of client requests with any bodies hands on exactly these requests, with method, resource, HTTP/1.1, headers with the added ones in place and body, if and only if no body starts with white space |
| RequestRoundTrip.ChunkedRequestsArrive | lib/Damon/Request.cpp:419-481 | several calls whose cuts avoid the bodies hand on the same |
| RequestRoundTrip.ReceivedAsAsked | lib/Damon/Request.cpp:419-481 | what these theorems say arrives is what the client asked for, in the terms of SentRequest |
| SpinResponse.SerializeResponse | lib/Spin/Details/Response.cpp:153-174 | status line, headers with Content-Length added when absent, empty line, body |
| SpinResponse.ResponseText | lib/Spin/Details/Response.cpp:161-172 | the text of a response in full |
| SpinResponse.SentHeadersComplete | lib/Spin/Details/Response.cpp:156-160 | the headers that are sent are those of the response, and behind them a Content-Length with the size of the body if and only if there was none |
| DamonResponse.TurnOnce | lib/Damon/Request.cpp:79-229 | from one jump back to the next, with any attribute and any reads to come, and with or without a read before the first parse: the response, the exception, another retry with the attribute it stores, or a read that blocks |
| DamonResponse.GetResponse | lib/Damon/Request.cpp:75-232 | the whole call, on any reads and on whatever the calls before left in the connection, with the jump back as a loop: the response, one without its body when bytes are missing, an exception, a wait for more, or a retry that repeats itself |
| DamonResponse.RetryIsStuck | lib/Damon/Request.cpp:132-139 | a retry that has read nothing, or that has a status line, leads to itself, whatever there is to read: it is repeated for ever |
| ResponseCalls.OneCall | lib/Damon/Request.cpp:79-229 | one call, with any bytes kept before it, any answer of poll and any reads: it returns the response that is ahead, without the last line feed of an empty one when that has not arrived, or returns it without its body, or spins, or waits, depending on how much it has when it sees the whole status line |
| ResponseCalls.ResponsesExact | lib/Damon/Request.cpp:79-229 | any number of serialised responses in any number of reads, with any answer of poll before each call: as many calls return all of them, in order, if and only if their reasons are not empty, no reason or body starts with white space, and each call, when it first has more than the status line, has the whole response, but for the last LF when there is no body |
| ResponseCalls.SeveralReadsExact | lib/Damon/Request.cpp:79-229 | a serialised response that arrives in any number of reads is returned with all its parts if and only if its reason is not empty, neither reason nor body starts with white space, the first read is not empty, and no read ends between the line end of the status line and the end of the response, but for the last LF when there is no body |
| ResponseCalls.CutInBody | lib/Damon/Request.cpp:195-198 | a response and two reads after which it is not returned whole |
| ResponseCalls.ThrowsFromThenOn | lib/Damon/Request.cpp:133-137 | whatever the calls before were: after a call that returned a response without its body, every further call throws, whatever arrives |
| ResponseCalls.ThrowLeavesNothing | lib/Damon/Request.cpp:137 | after a call that threw because of what it read, the next one starts on nothing |
| ResponseRoundTrip.ReturnedIsPlain | lib/Acari/ParsingHelpers.hpp:247-254 | whatever arrives, in whatever reads, no response is returned whose reason is empty, or whose reason or body starts with white space |
| ResponseRefusals.StatusLineRefused | lib/Acari/ParsingHelpers.hpp:231-256 | a call that reads a status line with another protocol, or with a status that is not an unsigned number, throws, and leaves the other reads alone |
| ResponseRefusals.HeaderRefused | lib/Damon/Request.cpp:159 | the same for a line without a colon, behind any well-formed headers |
| ResponseRefusals.LengthRefused | lib/Damon/Request.cpp:184-190 | the same for a first Content-Length that is not a number |
| ResponseRefusals.NoLengthNoBody | lib/Damon/Request.cpp:208-222 | without a Content-Length the response has no body, and all bytes behind its headers are kept |
| ResponseCalls.PipelinedResponsesExact | lib/Damon/Request.cpp:212-222 | any number of serialised responses that arrive in one read are returned by as many calls, in order, each with the bytes of the following ones kept, if and only if all reasons are not empty and no reason or body starts with white space |
| ResponseCalls.ResponseComesBack | lib/Spin/Details/Response.cpp:153-174 | a serialised response that arrives in one read is read back with protocol, status, reason and body, with its own headers first and a Content-Length that says the size of the body behind them if there was none, and with nothing left over, if and only if its status is not negative, its reason is not empty, and neither reason nor body starts with white space |
| ResponseCalls.NegativeStatusWraps | lib/Acari/ParsingHelpers.hpp:246-256 | a response with status -1 that is read back with the largest status |
| ResponseCalls.EmptyReasonIsLost | lib/Acari/ParsingHelpers.hpp:247-254 | a response without a reason that is not read back |
| ConnectionHandler.ConnectionHandler.Attach | lib/Spin/Private/ConnectionHandler.cpp:110-115 | one more entry at the end, pending attachment, and one byte in the pipe |
| ConnectionHandler.ConnectionHandler.BeginDetach | lib/Spin/Private/ConnectionHandler.cpp:117-158 | the first entry of the descriptor is marked and the pipe written; on the worker thread it goes at once, elsewhere it has to be waited for; nothing happens without such an entry |
| ConnectionHandler.ConnectionHandler.EndDetach | lib/Spin/Private/ConnectionHandler.cpp:160-165 | after a wake-up the entry goes if and only if the worker has let it go |
| ConnectionHandler.ConnectionHandler.ScanCallbacks | lib/Spin/Private/ConnectionHandler.cpp:224-242 | the loop moves every entry one step on and collects the descriptors of those that are attached now |
| ConnectionHandler.ConnectionHandler.CollectCalls | lib/Spin/Private/ConnectionHandler.cpp:300-312 | the calls of all entries whose descriptor is ready, in list order, whatever their state |
| ConnectionHandler.CollectedExactly | lib/Spin/Private/ConnectionHandler.cpp:305-311 | a call is collected if and only if its entry is in the list and its descriptor is ready |
| ConnectionHandler.ConnectionHandler.RemoveFailed | lib/Spin/Private/ConnectionHandler.cpp:329-342 | the first entry of a descriptor whose callback threw is marked, without a byte in the pipe, and its error callback is the one to call |
| ConnectionHandler.ConnectionHandler.FetchNotifications | lib/Spin/Private/ConnectionHandler.cpp:346-353 | the pipe is emptied, or 64 bytes are taken from it |
| WorkerObject.ClientStep | lib/Spin/Private/ConnectionHandler.cpp:110-169 | the methods of the object take the attach and detach steps of the protocol, and tell the thread which node it has to wait for |
| WorkerObject.WorkerStep | lib/Spin/Private/ConnectionHandler.cpp:195-358 | the methods of the object and the local variables of the loop take the worker's steps |
| WorkerProtocol.StepKeepsInv | lib/Spin/Private/ConnectionHandler.cpp:110-358 | every step, by whichever thread, keeps the invariant: the list in order of attachment without the erased entries, no detached entry among the descriptors the worker still deals with, calls only for entries that are not gone, waiters served, no lost wake-up, no blocking read |
| WorkerProtocol.RunKeepsInv | lib/Spin/Private/ConnectionHandler.cpp:110-358 | so it holds in every state of every run |
| WorkerSafety.NoCallbackAfterDetach | lib/Spin/Private/ConnectionHandler.cpp:117-169 | in every run, once a detach has returned on a thread other than the worker, the callback of its entry neither runs nor waits to be called, its error callback does not run, and the entry never comes back |
| WorkerSafety.NoWakeUpIsLost | lib/Spin/Private/ConnectionHandler.cpp:218-357 | in every run, between a scan and the return of select a pending entry implies a byte in the pipe; the pipe is read only when there is one; a node that was let go is announced to its waiter or about to be |
| WorkerSafety.LifeCycle | lib/Spin/Private/ConnectionHandler.h:34 | in every run an entry keeps its descriptor and its callbacks; one that has left attached or pending attachment never returns there, an attached one is never pending attachment again, an erased one stays away |
| WorkerSafety.ListIsAttachedMinusDetached | lib/Spin/Private/ConnectionHandler.cpp:110-169 | in every run the list holds, in order, exactly the attached entries for which no detach has finished |
| WorkerSafety.SelectsTheLastScan | lib/Spin/Private/ConnectionHandler.cpp:224-248 | in every run the descriptors given to select are those of the entries that the last scan left attached, whatever clients did since, and their entries are still there |
| WorkerSafety.CalledAfterWorkerDetach | lib/Spin/Private/ConnectionHandler.cpp:158-165 | after a detach on the worker thread some continuation starts the callback of the removed entry if and only if it was queued in the round that is going on |
| WorkerRounds.AttachedAs | lib/Spin/Private/ConnectionHandler.cpp:110-115 | in every run, an attach appends a node, and as long as it is listed it keeps the descriptor and the callbacks it was attached with |
| WorkerRounds.ScanDecides | lib/Spin/Private/ConnectionHandler.cpp:224-248 | in every run, each scan attaches what is pending attachment, gives select exactly the descriptors of what is attached then, and lets all other nodes go |
| WorkerRounds.ReadyIsCalled | lib/Spin/Private/ConnectionHandler.cpp:300-324 | in every run, an entry whose descriptor is among those that select reports is called before the next scan |
| WorkerRounds.ThrowingIsRemoved | lib/Spin/Private/ConnectionHandler.cpp:320-343 | in every run, when the callback of a node throws, then before the next scan its node, if it is still listed, is marked pending detachment and its error callback is called if it has one; at that scan the node is erased or not attached any more |
| WorkerRounds.ThrowingIsNotCalledAgain | lib/Spin/Private/ConnectionHandler.cpp:320-343 | in every run, a callback that threw is neither queued nor running for the same node at any later time |
| WorkerRounds.RoundDrains | lib/Spin/Private/ConnectionHandler.cpp:326-356 | in every run, a round in which no callback throws reads the pipe, if it was not empty when select returned, and removes nothing |
| WorkerRounds.PipeChanges | lib/Spin/Private/ConnectionHandler.cpp:110-169 | the pipe gets one byte for each attach and each detach of a listed descriptor, and loses up to 64 in a round that reads it; nothing else changes it |
| WorkerRounds.SleepsAgain | lib/Spin/Private/ConnectionHandler.cpp:160-165 | in every run, a thread that is woken although its node was not let go is not woken again before the next notification |
| WorkerDefects.CalledAfterDetach | lib/Spin/Private/ConnectionHandler.cpp:158-165 | a run from the start in which a detach on the worker thread finishes and the callback of its entry starts after that |
| WorkerDefects.AttachExact | lib/Spin/Private/ConnectionHandler.cpp:110-115 | in every state of the invariant, an attach has a continuation in which a callback runs whose detach has returned, on a thread other than the worker, if and only if its descriptor is in the list |
| WorkerDefects.AttachedTwice | lib/Spin/Private/ConnectionHandler.cpp:110-115 | a run from the start, a second attach that the code allows, and how it goes on to that |
| WorkerDefects.DetachExact | lib/Spin/Private/ConnectionHandler.cpp:117-165 | in every state of the invariant, a detach on any thread has a continuation in which a thread follows its iterator to an erased node if and only if a detach of the same node is waiting |
| WorkerDefects.DetachedByTwo | lib/Spin/Private/ConnectionHandler.cpp:160-165 | a run from the start, a second detach that the code allows, and how it goes on to that |
| WorkerLiveness.StepsLeadToScan | lib/Spin/Private/ConnectionHandler.cpp:218-357 | each step of the worker before its next scan lowers the pair of phase and remaining calls; no step of a client or a callback changes it |
| WorkerLiveness.WorkerIsNotStuck | lib/Spin/Private/ConnectionHandler.cpp:243-248 | while a detach waits for a scan, some step of the worker is enabled; in select because the pipe is not empty |
| WorkerLiveness.WaitingStaysDetached | lib/Spin/Private/ConnectionHandler.cpp:160-165 | from the scan that lets an entry go until its waiter erases it, no step takes the entry or the wake-up away |
| WorkerLiveness.DetachReturns | lib/Spin/Private/ConnectionHandler.cpp:117-169 | in every infinite run in which the worker goes on when it can and woken waiters get the lock, every detach that waits returns |
| WorkerLiveness.DetachComesBack | lib/Spin/Private/ConnectionHandler.cpp:117-169 | in every such run, a thread that asks for the detach of a listed descriptor waits, comes back, and the node is gone then |
| WorkerLiveness.NobodyIsHeldUp | lib/Spin/Private/ConnectionHandler.cpp:110-358 | clients wait only while entries are removed; callbacks can attach, detach, return and throw; the worker waits only in select, while nothing is ready and the pipe is empty |
| Context.Context.Copy | lib/Scorpion/Context.cpp:51-61 | a copy has the same settings and shares the cell |
| Context.Context.Swap | lib/Scorpion/Context.cpp:66-78 | all settings and the cells change places, also when an object is swapped with itself |
| Context.Context.CopyOnWrite | lib/Scorpion/Context.cpp:265-274 | the cell is replaced by an empty one if and only if it was filled |
| Context.Context.GetContext | lib/Scorpion/Context.cpp:116-251 | fills an empty cell from the settings of the caller and returns what is in it |
| Context.Context.SetFlags | lib/Scorpion/Context.cpp:110-114 | changes this setting and no other, after copy on write |
| Context.Context.SetServerCertificateFilename | lib/Scorpion/Context.cpp:80-84 | the same for its setting |
| Context.Context.SetCertificateChainFilename | lib/Scorpion/Context.cpp:86-90 | the same for its setting |
| Context.Context.SetTrustedCACertificatesFilename | lib/Scorpion/Context.cpp:92-96 | the same for its setting |
| Context.Context.SetTrustedCACertificatesDirectoryName | lib/Scorpion/Context.cpp:98-102 | the same for its setting |
| Context.Context.SetPrivateKeyFilename | lib/Scorpion/Context.cpp:104-108 | the same for its setting |
| Context.Context.SetPasswordGetter | lib/Scorpion/Context.cpp:253-257 | the same for its setting |
| Context.Context.SetCertificateVerificationDepth | lib/Scorpion/Context.cpp:259-263 | the same for its setting |
| Context.SettersAreIndependent | lib/Scorpion/Context.cpp:80-114 | setting what is set changes nothing, the last value counts, and setters of different settings can change places |
| Context.SettingsAreRead | lib/Scorpion/Context.cpp:253-263 | each setter sets the setting of its name |
| ContextRuns.Replay | lib/Scorpion/Context.cpp:44-274 | any sequence of constructions, copies, assignments, swaps, setters, calls of getContext and destructions, carried out on the objects, returns what the model of contexts and cells says |
| ContextRuns.StepAgreesExactly | lib/Scorpion/Context.cpp:265-274 | sharing contexts have equal settings and a filled cell was built from them; an operation keeps this if and only if it is not a setter that changes something on a context that shares an empty cell |
| ContextRuns.CopyOnWriteIsRebuilding | lib/Scorpion/Context.cpp:116-274 | in every run without such a setter, every getContext returns what would be built from the current settings of its own context |
| ContextRuns.EveryCarefulRun | lib/Scorpion/Context.cpp:44-274 | in particular every such run that starts without any context |
| ContextRuns.SetterExact | lib/Scorpion/Context.cpp:265-274 | after a setter all further calls of getContext return the current settings if and only if it is not such a setter |
| ContextRuns.SetterBreaksCopy | lib/Scorpion/Context.cpp:265-274 | a run of five operations in which getContext does not return what would be built from the current settings |
| Base64.Base64Encode | lib/Acari/base64encode.cpp:26-72 | the loop over groups and its tail write the encoding into a buffer filled with padding |
| Base64.EncodeLength | lib/Acari/base64encode.cpp:28-38 | that buffer has four characters for each three bytes or part of them |
| Base64.Alphabet | lib/Acari/base64encode.cpp:6-6 | the alphabet, by the codes of its characters |
| Base64.SameBits | lib/Acari/base64encode.cpp:43-50 | four characters stand for the 24 bits of three bytes, the first for the highest |
| Base64.Examples | lib/Acari/base64encode.cpp:52-72 | no, one and two padding characters, as in section 10 of RFC 4648 |
| Base64.Base64Decode | lib/Acari/base64encode.cpp:79-133 | the loops over groups, with the early returns, write the decoding |
| Base64.DecodeEncode | lib/Acari/base64encode.cpp:26-133 | decoding undoes encoding, for every byte string |
| Base64.EncodeDecode | lib/Acari/base64encode.cpp:26-133 | text decodes to something if and only if, without its padding, it is not empty, is in the alphabet and does not leave one character over; encoding that gives the text with its unused bits cleared and padded anew |
| Base64.NotCanonical | lib/Acari/base64encode.cpp:111-119 | text whose set unused bits are lost |
| UrlEncode.UrlEncode | lib/Acari/urlencode.cpp:5-32 | the loop appends safe characters and triples |
| UrlEncode.UrlDecode | lib/Acari/urlencode.cpp:34-59 | the loop that moves its iterator inside the body decodes triples and keeps everything else |
| UrlEncode.SafeCharacters | lib/Acari/urlencode.cpp:10-19 | the characters that are kept, by their codes |
| UrlEncode.HexCharacters | lib/Acari/urlencode.cpp:22-22 | the sixteen digits that are written, and both cases of them that are read |
| UrlEncode.OnlyHexCharacters | lib/Acari/urlencode.cpp:41-41 | and no others are read |
| UrlEncode.TripleOf | lib/Acari/urlencode.cpp:43-48 | a triple is the character with sixteen times its first digit and its second as code |
| UrlEncode.DecodeEncode | lib/Acari/urlencode.cpp:5-59 | decoding undoes encoding, for every byte string and both values of keep_slash |
| UrlEncode.EncodeIsEncoded | lib/Acari/urlencode.cpp:10-24 | the output consists of safe characters and lower-case triples of characters that are not safe |
| UrlEncode.EncodeDecode | lib/Acari/urlencode.cpp:5-59 | encoding undoes decoding if and only if the text is of this form |
| UrlEncode.NotEncoded | lib/Acari/urlencode.cpp:39-48 | a triple that stands for a safe character |
| ParseUrl.FirstMatchMatches | lib/Damon/Private/parseURL.cpp:12 | the split is a match of the regular expression |
| ParseUrl.FirstMatchIsFirst | lib/Damon/Private/parseURL.cpp:12-15 | it is the match that comes first in the order in which a backtracking matcher tries them, and there is one whenever anything matches |
| ParseUrl.SplitPrinted | lib/Damon/Private/parseURL.cpp:10-27 | a URL that is printed from its components splits into them |
| ParseUrl.ParsePrinted | lib/Damon/Private/parseURL.cpp:42-70 | parseURL fills in protocol, port and path or refuses the port; extractHost gives host and explicit port |
| ParseUrl.ParseMatched | lib/Damon/Private/parseURL.cpp:14-70 | the same for every URL in terms of its match, and the refusals: no match, a protocol other than http and https, a port that does not fit 16 bits |
| ParseUrl.PatternClasses | lib/Damon/Private/parseURL.cpp:12-12 | the classes of the pattern |
| ParseUrl.UrlExamples | lib/Damon/Private/parseURL.cpp:42-56 | a URL with all components, and an ftp URL that is refused |

## Left out

- Sockets, OpenSSL BIOs, `Connection`, `Connector`, `Listener` and `Pipe`: foreign calls. What is read is a parameter, and the sync pipe is a number of bytes that never fills up.
- Characters: a byte is a character with a code below 256; the codecs' round trips ask for that, the parsers do not need it.
- DamonResponse.GetResponse: a read that fails is not part of it; what `poll` answers is a parameter.
- Requests whose header names or values are not well-formed are not part of the chunking theorems; conservation, termination and the contracts of the methods cover them.
- RequestRoundTrip.PipelinedRequestsArrive: asks for a URL whose resource has no white space, header lines, and a given Content-Length that is right; other client requests are outside the round trip.
- ChunkingTheorems.ChunkingIndependence: is about cuts outside bodies; Sessions.ChunkingExact gives the exact condition for each chunking, and ChunkingTheorems.EveryChunkingExact for all of them at once.
- `lexical_cast` and `boost::format` in a locale that groups digits; the number formats are those of the default locale, with 64 bits for `size_t` and 32 for `unsigned int`.
- Base64.Base64Encode: does not model the terminating zero written behind the buffer (line 41), nor the wrap-around of the 32-bit indices for texts of four gigabytes.
- ParseUrl.ParsePrinted: excludes a host with an at sign, which the text of a URL does not tell from a user, and a path that does not start with a slash. The backtracking itself is not modelled: its first match is, with its order.
- A `select` that fails, `testFD_`, the Windows branches, the start and the end of the worker thread: platform behaviour outside the protocol.
- Locks that a caller holds across `detach`, such as `Connection::bio_lock_`: callbacks are assumed to return, and error callbacks not to throw.
- WorkerProtocol.StepKeepsInv: assumes that a descriptor is attached only when it is not in the list, and not detached while a detach of it waits; WorkerDefects.AttachExact and WorkerDefects.DetachExact show for every state that nothing less will do.
- WorkerLiveness.DetachReturns: assumes a fair scheduler and a fair lock, and an error callback that returns.
- Context.Context.GetContext: stands for all of what OpenSSL is asked to build by the settings it is built from; the mapping of flags, and calls that fail, are not modelled.
- `UDPSocket`, `Attributes`, the queue of `HTTPRequestHandler`, the connection cache of `Session`, `getHeaderValue`: small members.
- Loggers, exception classes, thread-local storage, the Mesothelae program, tests and build files.
