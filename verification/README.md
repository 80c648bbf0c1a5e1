# A verified model of the HTTP message layer

The C++ sources under `src/` read and write HTTP/1.1 messages (section 3 of RFC 7230) through one
growable byte buffer with two cursors, and serve them from a `select` loop. This project models that
stack and proves what its parts promise together.

- `Bytes.dfy`, `Numbers.dfy`: bytes, C strings, searches, decimal text, `atoi`, images of integers in memory.
- `ByteBuffer.dfy`: the buffer, as a class and as a typed stream.
- `KeyOrder.dfy`: the order of keys in a `std::map<std::string, std::string>`.
- `Wire.dfy`: how lines, tokens, header blocks and bodies are read and printed, as functions on byte
  strings; a grammar of header blocks; the theorems that relate the two.
- `HTTPMessage.dfy`, `HTTPRequest.dfy`, `HTTPResponse.dfy`: the message classes, proved equal to those
  functions, and the round-trip theorems.
- `Client.dfy`: the send queue.
- `Reading.dfy`: how `recv` results become one request, in one piece or after "Expect: 100-continue"
  (section 5.1.1 of RFC 7231).
- `Answers.dfy`: what the handlers answer; every answer is self-delimiting, TRACE (section 4.3.8 of
  RFC 7231) echoes.
- `AnswerTexts.dfy`, `EndToEnd.dfy`: the queued texts byte for byte, and what is queued for the bytes received.
- `ServerRuns.dfy`, `EventLoop.dfy`, `HTTPServer.dfy`: the server as a state machine, its reachable states, the
  `select` loop as runs of that machine, and the class whose methods take exactly its steps.
- `Counterexamples.dfy`: concrete inputs for the disagreements below.

Parsing is modelled for all inputs. Where the C++ code throws (`value.at` on a blank header value) or
leaves defined behaviour (a comma-ended line with no line after it, a body longer than its allocation,
`atoi` out of range, `strcat` past an array), the outcome is `Crashed` or `Broken` with the fault. The round
trips and normalisation therefore exclude no input: they hold for every accepted byte string, and
`Printable` is an exact condition that a caller can check before printing.

Where the code and its comments disagree, the code is followed:

- `parseBody` says that Content-Length should not exceed what remains, but admits one byte more; that byte
  is the parameter `uninit`, the contents of fresh memory. A smaller length overruns the allocation.
- `getLine` says that two characters at most are skipped so that blank lines stay, but two line feeds, or
  any two terminators, are also taken as one; `GetLineConsumes` says exactly what is left.
- `clone` says that it copies; it returns an empty buffer.
- `HTTPResponse::parse` determines the status before it has read the reason, so a status is never recovered.
- `handlePOST` says that version 1.0 closes the connection; version 1.1 does.
- `sendStatusResponse` cuts its text at the first NUL and pads with zeros.
- `readClient` counts only what arrives after the head towards Content-Length: a client that sends body bytes
  together with its Expect head, or announces an empty body, makes the server wait for ever.

## Model

| member | source | states |
|---|---|---|
| `Requests.RoundTripExactly` | src/HTTPRequest.cpp:85-147 | For every request: parsing what `create` prints, in a fresh object and whatever fresh memory holds, succeeds with the same method, URI, version, header map and body if and only if the request is `Printable` (known method, URI without space or NUL, version without CR or LF, keys without colon or line break, values that are not empty and neither begin with a space nor end with a comma, and data that Content-Length announces exactly, or no data where none is read) |
| `Requests.Normalisation` | src/HTTPRequest.cpp:85-147 | The requests that some byte string parses to, whatever its framing, are exactly those that survive printing and parsing |
| `Requests.AcceptedIsPrintable` | src/HTTPRequest.cpp:120-147 | Everything `parse` accepts meets the printer's conditions |
| `Requests.PrintedParses` | src/HTTPRequest.cpp:85-147 | The printed text of a printable request parses to that request |
| `Requests.TextDeterminesRequest` | src/HTTPRequest.cpp:85-112 | Two printable requests with the same printed bytes are equal |
| `Requests.HeadParses` | src/HTTPRequest.cpp:120-147 | A head written in the grammar (start line, any broken or unbroken header lines, blank line) is taken apart into exactly its parts whatever follows, and parsing it throws exactly when adding one of its header lines does |
| `Requests.MethodNames` | src/HTTPRequest.cpp:49-77 | Ids and names of the nine methods correspond one to one, and each name is one token |
| `Requests.MethodLiterals` | src/HTTPMessage.h:34-60 | The names HEAD, GET, POST and PUT are read as the ids 0 to 3 |
| `Requests.OtherMethodLiterals` | src/HTTPMessage.h:34-60 | The names DELETE, TRACE, OPTIONS, CONNECT and PATCH are read as the ids 4 to 8 |
| `Requests.UnknownMethodExactly` | src/HTTPRequest.cpp:49-63 | A name gets -1 if and only if it is empty, has ten or more bytes, or is none of the nine names up to its first NUL |
| `Requests.UnknownMethodIsRejected` | src/HTTPRequest.cpp:120-132 | A request whose first token is none of the nine names is rejected with "Invalid Method: " and that token, whatever follows |
| `Requests.AnyUnknownMethodIsRejected` | src/HTTPRequest.cpp:120-132 | The same from any position, into any request and when there is no first token at all |
| `Requests.AnyRequestParses` | src/HTTPRequest.cpp:120-147 | From any position of any bytes, into any request: two tokens, a line, and a header block whose lines end in any way give exactly these fields before the body counts |
| `Requests.BrokenOffRequestCrashes` | src/HTTPRequest.cpp:120-147 | A header block whose last line ends with a comma and has no line behind it is fatal, unless a blank value throws before |
| `Requests.LengthDecides` | src/HTTPRequest.cpp:134-147 | A POST or PUT is accepted if and only if Content-Length is what follows its head or one more (then with one byte of fresh memory), rejected with both numbers if and only if it is negative or larger, and overruns otherwise |
| `Requests.RequestTextExactly` | src/HTTPRequest.cpp:85-112 | Any request, printable or not, goes out as its name, URI and version with single spaces, CRLF, headers and data |
| `Requests.HTTPRequest.Create` | src/HTTPRequest.cpp:85-112 | Returns null exactly for an unknown method id, and otherwise the start line, the headers in key order, the blank line and the data, with both cursors at the end |
| `Requests.HTTPRequest.Parse` | src/HTTPRequest.cpp:120-147 | Verdict, fields and error text are those of the reading specification; the bytes do not change, and a read cursor within them stays within them |
| `Requests.HTTPRequest.MethodStrToInt` | src/HTTPRequest.cpp:49-63 | The search loop finds the id of a name, -1 for an unknown, empty or overlong one |
| `Requests.HTTPRequest.Receive` | src/HTTPRequest.cpp:37-44 | A request over received bytes starts with default fields and exactly those bytes |
| `Responses.RoundTripExactly` | src/HTTPResponse.cpp:99-146 | Version, reason, header map and body survive printing and parsing if and only if the response is printable |
| `Responses.StatusRoundTripExactly` | src/HTTPResponse.cpp:129-146 | The whole response, status included, survives if and only if moreover its status is 0: the status is determined before the reason is read |
| `Responses.Normalisation` | src/HTTPResponse.cpp:99-146 | The responses that some byte string parses to are exactly those with status 0 that survive printing and parsing |
| `Responses.AcceptedIsPrintable` | src/HTTPResponse.cpp:129-146 | Everything `parse` accepts into a fresh response is printable, and its status is 0 |
| `Responses.PrintedParses` | src/HTTPResponse.cpp:99-146 | The printed text of a printable response parses to that response with status 0 |
| `Responses.StatusIsPrinted` | src/HTTPResponse.cpp:99-121 | The status goes out: behind the version stands a token that `atoi` reads as the status |
| `Responses.ResponseTextExactly` | src/HTTPResponse.cpp:99-121 | Any response goes out as version, status and reason with single spaces, CRLF, headers and data |
| `Responses.AnyResponseParses` | src/HTTPResponse.cpp:129-146 | From any position of any bytes, into any response: the second token is dropped, the status comes from the reason before, and header block and body follow |
| `Responses.StatusExactly` | src/HTTPResponse.cpp:47-62 | The status is that of the first of six texts that stands in the reason, in this order; without any it stays |
| `Responses.ReasonLiterals` | src/HTTPResponse.cpp:67-90 | The six codes and their reasons; any other code keeps the reason |
| `Responses.HTTPResponse.Create` | src/HTTPResponse.cpp:99-121 | Returns the status line, the headers in key order, the blank line and the data |
| `Responses.HTTPResponse.Parse` | src/HTTPResponse.cpp:129-146 | Verdict, fields and error text are those of the reading specification; the bytes do not change, and a read cursor within them stays within them |
| `Responses.HTTPResponse.SetStatus` | src/HTTPResponse.h:48-51 | Sets the code and its reason; an unknown code keeps the old reason |
| `Wire.BlockParses` | src/HTTPMessage.cpp:181-199 | On every CRLF-framed header block `parseHeaders` reads exactly the block up to and including its blank line, and its map is the first-wins fold of the logical lines |
| `Wire.ContinuationInvariance` | src/HTTPMessage.cpp:181-199 | Texts that spell the same logical lines, however each is broken after commas, give the same map or the same fault |
| `Wire.AnyBlockParses` | src/HTTPMessage.cpp:181-199 | On a header block whose lines end in any way, down to the end of the bytes, `parseHeaders` adds exactly the logical lines in their order |
| `Wire.BrokenOffBlockFails` | src/HTTPMessage.cpp:181-199 | On a block that breaks off behind a comma it is undefined, unless a blank value throws before |
| `Wire.EveryBlockIsRead` | src/HTTPMessage.cpp:181-199 | These two cases cover every position of every byte string |
| `Wire.LogicalLineExactly` | src/HTTPMessage.cpp:187-194 | The inner loop joins any broken line, and fails on one that breaks off |
| `Wire.BreakAfterCommas` | src/HTTPMessage.cpp:187-194 | A logical line may be broken after any set of its commas that do not end it: the pieces are a broken line, end at exactly these commas, and joined are the line |
| `Wire.BreaksAreCommas` | src/HTTPMessage.cpp:187-194 | Conversely every broken line is broken after inner commas of the line its pieces join to |
| `Wire.FirstOccurrenceWins` | src/HTTPMessage.cpp:257-287 | A key that is new to the map gets the value of the first line that defines it |
| `Wire.EarlierValueStays` | src/HTTPMessage.cpp:285-287 | A key that is in the map keeps its value, whatever lines are added |
| `Wire.KeysAreDefined` | src/HTTPMessage.cpp:257-287 | The keys after adding lines are those before and those that some line defines, no others |
| `Wire.AddingThrowsExactly` | src/HTTPMessage.cpp:181-272 | Adding lines throws if and only if one of them has a colon and nothing but spaces behind it |
| `Wire.SplitHeaderExactly` | src/HTTPMessage.cpp:257-277 | A line yields the header (k, v) if and only if it is k without a colon, a colon, any number of spaces, and a v that is not empty and does not begin with a space |
| `Wire.ThrowsExactly` | src/HTTPMessage.cpp:262-272 | `addHeader(line)` throws if and only if there is nothing but spaces behind the first colon |
| `Wire.HeaderLineSplits` | src/HTTPMessage.cpp:83-92 | The printed line of a printable header is one unbroken logical line and splits back into the header |
| `Wire.PrintedHeadersParse` | src/HTTPMessage.cpp:83-199 | Parsing printed headers gives the map back and leaves the cursor behind the blank line |
| `Wire.PrintedHeadersExactly` | src/HTTPMessage.cpp:83-92 | Headers are printed in the strictly ascending order of their keys, and a blank line follows |
| `Wire.HeaderTextOne` | src/HTTPMessage.cpp:83-92 | Each is printed as "key: value" and CRLF |
| `Wire.HeaderTextAppend` | src/HTTPMessage.cpp:83-92 | One behind the other |
| `Wire.ParsedIsPrintable` | src/HTTPMessage.cpp:181-277 | Parsed headers are printable, whatever bytes they come from |
| `Wire.GetLineConsumes` | src/HTTPMessage.cpp:101-142 | A terminated line is returned; a second terminator byte is consumed exactly when one follows, even if it stands for a blank line |
| `Wire.GetLineFrames` | src/HTTPMessage.cpp:101-142 | A line followed by CRLF is returned and the cursor is left right behind the CRLF, whatever follows |
| `Wire.GetLineStays` | src/HTTPMessage.cpp:119-125 | The cursor stays exactly when no terminator is left, and then the result is empty |
| `Wire.GetLineExactly` | src/HTTPMessage.cpp:101-142 | From any position of any bytes: the line up to the first terminator and the cursor behind one or two terminator bytes, or nothing |
| `Wire.TokenFrames` | src/HTTPMessage.cpp:151-173 | Bytes free of delimiter and NUL, followed by the delimiter, are returned as one token, and the cursor is behind the delimiter |
| `Wire.TokenExactly` | src/HTTPMessage.cpp:151-173 | From any position of any bytes: the token up to the first delimiter and the cursor behind it, or nothing when a NUL or the end comes first |
| `Wire.StartLineParses` | src/HTTPRequest.cpp:123-126 | Two tokens and a line take a start line apart |
| `Wire.LogicalLineJoins` | src/HTTPMessage.cpp:187-194 | The inner loop joins all pieces of a broken line |
| `Wire.PrintedLinesAdd` | src/HTTPMessage.cpp:83-92 | Adding the printed lines of distinct new keys adds exactly those entries |
| `Wire.LengthReadsBack` | src/HTTPMessage.cpp:296-318 | A length added as an `int` is read back by `atoi` if and only if the key was absent or already held that length |
| `Wire.BodyIsRestExactly` | src/HTTPMessage.cpp:207-249 | An announced body is the rest of the message if and only if Content-Length is the length of the rest |
| `Wire.BodyExactly` | src/HTTPMessage.cpp:207-249 | For a Content-Length n: accepted if and only if n is what is left or one more, refused with the value and what is left if and only if n is negative or larger, out of bounds otherwise |
| `Wire.BodyWithoutLength` | src/HTTPMessage.cpp:211-217 | Without a Content-Length the data stays; one that is no `int` is undefined |
| `Wire.BodyBehindEnd` | src/HTTPMessage.cpp:221-244 | With the cursor behind the end, what is left wraps to a large unsigned number that decides in its place |
| `Wire.ParsedBodyMatches` | src/HTTPMessage.cpp:207-249 | Every accepted body has the announced length |
| `Wire.MatchingBodyParses` | src/HTTPMessage.cpp:207-249 | A body of the announced length at the end of the message is read back |
| `Messages.HTTPMessage.PutLine` | src/HTTPMessage.cpp:69-76 | Writes the text, and CRLF if asked, at the write cursor |
| `Messages.HTTPMessage.PutHeaders` | src/HTTPMessage.cpp:83-92 | The iterator loop writes every header in key order and a blank line at the write cursor, as one overwrite |
| `Messages.HTTPMessage.Print` | src/HTTPRequest.cpp:85-112 | The part of `create` that requests and responses share emits exactly first line, CRLF, headers, blank line and data |
| `Messages.HTTPMessage.GetLine` | src/HTTPMessage.cpp:101-142 | The two loops compute the line and the cursor of the specification |
| `Messages.HTTPMessage.GetStrElement` | src/HTTPMessage.cpp:151-173 | Search, copy and C-string conversion compute the token and the cursor of the specification |
| `Messages.HTTPMessage.AddHeader` | src/HTTPMessage.cpp:285-287 | A header is added unless its key is there |
| `Messages.HTTPMessage.AddHeaderInt` | src/HTTPMessage.cpp:296-300 | The same with the decimal text of an `int` |
| `Messages.HTTPMessage.AddHeaderLine` | src/HTTPMessage.cpp:257-277 | Splits and adds a line, does nothing without a colon, throws on a blank value |
| `Messages.HTTPMessage.GetHeaderValue` | src/HTTPMessage.cpp:308-318 | The value of a key, empty if absent |
| `Messages.HTTPMessage.ParseHeaders` | src/HTTPMessage.cpp:181-199 | The nested loops compute map, cursor and fault of the specification, wherever the cursor is |
| `Messages.HTTPMessage.ParseBody` | src/HTTPMessage.cpp:207-249 | Unsigned comparison and allocation compute verdict, data and error text of the specification: they admit no wrapped value while the cursor is within the buffer, and wrap as the specification says when it is behind it |
| `Messages.HTTPMessage.CopyRest` | src/HTTPMessage.cpp:236-244 | The copy loop leaves its allocation exactly when Content-Length is smaller than the rest; otherwise it copies the rest and leaves any further byte as it was |
| `KeyOrders.KeyOrderAscends` | src/HTTPMessage.cpp:84-85 | The order in which headers are printed lists exactly the keys, strictly ascending byte by byte |
| `KeyOrders.KeyOrderStep` | src/HTTPMessage.cpp:84-88 | Advancing the iterator takes the least remaining key |
| `KeyOrders.LessExactly` | src/HTTPMessage.cpp:83-92 | Keys are compared at the first place where they differ, by the byte there or by having ended |
| `KeyOrders.AscendingIsKeyOrder` | src/HTTPMessage.cpp:83-92 | There is one strictly ascending way to list the keys |
| `Reading.FragmentationExactly` | src/HTTPServer.cpp:191-215 | A head with "Expect: 100-continue" and its announced body, cut anywhere behind the head into non-empty chunks of any bytes, is read as the unfragmented message if and only if the first `recv` ends with the head, a body follows, and only NULs follow the first NUL of the body |
| `Reading.PlainReadExactly` | src/HTTPServer.cpp:173-215 | Any bytes without "Expect: 100-continue" in their text are handed over whole after one `recv`, unless they fill the array without a NUL |
| `Reading.HangupExactly` | src/HTTPServer.cpp:177-182 | The client is disconnected if and only if the first `recv` failed or returned nothing |
| `Reading.ExpectingReadExactly` | src/HTTPServer.cpp:185-197 | With it, the read crashes when parsing does or when Content-Length is no `int` |
| `Reading.ExpectingReadEnds` | src/HTTPServer.cpp:185-212 | Otherwise, for any bytes without NUL, grammatical or not, the read ends if and only if some following chunks make up the length |
| `Reading.QuietRecv` | src/HTTPServer.cpp:200-209 | In the loop a failed `recv` counts -1 and a closed connection 0, and neither adds a byte |
| `Reading.OverflowBreaks` | src/HTTPServer.cpp:204 | Texts that together fill the array leave it |
| `Reading.TooMuchBreaks` | src/HTTPServer.cpp:207-215 | A request longer than the array is not handed over |
| `Reading.ExpectedBodyIsRead` | src/HTTPServer.cpp:191-215 | For every such cut: the head and the zero-filled texts of the chunks are read if the first `recv` ends with the head and a body follows; otherwise the server waits for ever |
| `Reading.ReassembledParses` | src/HTTPServer.cpp:213-215 | A POST or PUT read as the unfragmented message parses to exactly the head's fields and the whole body |
| `Requests.WholeHeadParses` | src/HTTPRequest.cpp:120-147 | A head in the grammar and what follows it are parsed as the head's fields and then the body |
| `Reading.CollectsUpTo` | src/HTTPServer.cpp:200-209 | The loop ends with the chunk that makes up Content-Length and has gathered the texts of the chunks up to that one, moved together, and then zeros |
| `Reading.CollectsForever` | src/HTTPServer.cpp:200-209 | The loop waits for ever when no first chunks make up Content-Length exactly |
| `Reading.CollectsExactly` | src/HTTPServer.cpp:200-209 | The loop ends if and only if some first chunks make up Content-Length exactly, and then with the text it began with and those of these chunks; it never breaks off while the whole fits the buffer |
| `Reading.GatheredExactly` | src/HTTPServer.cpp:200-209 | What is gathered is the body, however it is cut, if and only if only NULs follow its first NUL |
| `Reading.StrCatTexts` | src/HTTPServer.cpp:204 | Appending a chunk to a text, both in zeroed buffers, appends the bytes before the chunk's first NUL |
| `ServerRuns.CollectFits` | src/HTTPServer.cpp:200-215 | No collected request is longer than the receive buffer |
| `Servers.ReceiveRequest` | src/HTTPServer.cpp:173-214 | Reading into the fixed arrays, the search for Expect, the parse for Content-Length and the loop compute the reading specification |
| `Servers.CollectInPlace` | src/HTTPServer.cpp:200-209 | The loop over zeroed receive arrays computes the specification in place |
| `Servers.StrCatInPlace` | src/HTTPServer.cpp:204 | The array concatenation succeeds exactly where both terminators exist and the result fits |
| `Answers.AnswersAreSelfDelimiting` | src/HTTPServer.cpp:337-452 | Every answer to a request of at most DATA_LEN bytes has a Content-Length that decodes to its exact body length and parses back as the same response |
| `Answers.TraceEchoes` | src/HTTPServer.cpp:384-401 | The queued answer to a TRACE request parses as a response whose body is the received bytes, all of them unchanged |
| `Answers.AnswersByOutcome` | src/HTTPServer.cpp:240-285 | Status 400 exactly for rejected requests, 501 exactly for unhandled methods, and the closing header and flag exactly when it is not a POST of another version than HTTP/1.1 |
| `Answers.OptionsIsAnswered` | src/HTTPServer.cpp:363-374 | Accepted OPTIONS: no data, and exactly the headers Allow with its five methods, Content-Length 0 and Connection close |
| `Answers.PostIsAnswered` | src/HTTPServer.cpp:337-352 | Accepted POST: no data, Content-Type text/html and Content-Length 0, and Connection close exactly for version HTTP/1.1 |
| `Answers.TraceIsAnswered` | src/HTTPServer.cpp:384-401 | Accepted TRACE: the bytes as data, Content-Type message/http, their length, and Connection close |
| `Answers.RejectedIsAnswered` | src/HTTPServer.cpp:243-248 | Rejected: status 400 as text/plain with "Bad Request: " and the error text, zero-filled from its first NUL on |
| `Answers.UnhandledIsAnswered` | src/HTTPServer.cpp:280-284 | Accepted and unhandled: status 501 as text/plain with "Not Implemented: " |
| `Answers.StatusGoesOut` | src/HTTPServer.cpp:439-452 | Every queued answer says its status, one of 200, 400 and 501, in its text |
| `Answers.PrintedStatusByOutcome` | src/HTTPServer.cpp:240-285 | A queued text says 400 if and only if the request was rejected, 501 if and only if it was accepted and unhandled |
| `AnswerTexts.MethodListText` | src/HTTPServer.cpp:363-452 | The queued text of the answer to OPTIONS, byte for byte, and its closing flag |
| `AnswerTexts.EmptyPageText` | src/HTTPServer.cpp:337-452 | The queued text of the empty page before a connection that stays, byte for byte |
| `AnswerTexts.LastAnswerText` | src/HTTPServer.cpp:384-452 | The queued text of every answer that closes the connection, byte for byte: status line, three headers in order, blank line, data |
| `EndToEnd.PlainRequestIsHandled` | src/HTTPServer.cpp:173-285 | A request without Expect that one `recv` delivers is answered as a whole at the end of its client's queue, and nothing else changes |
| `EndToEnd.TraceIsEchoed` | src/HTTPServer.cpp:173-401 | A TRACE request so delivered queues exactly one item, whose body is the received bytes |
| `EndToEnd.OptionsAreListed` | src/HTTPServer.cpp:173-374 | An OPTIONS request so delivered queues the list of allowed methods |
| `EndToEnd.GetIsIgnored` | src/HTTPServer.cpp:173-273 | A GET or HEAD request so delivered changes nothing |
| `EndToEnd.PostIsDecided` | src/HTTPServer.cpp:173-352 | A POST request so delivered queues an empty page, is refused with both numbers or halts the server, as its length says |
| `EndToEnd.UnknownMethodIsRefused` | src/HTTPServer.cpp:173-248 | A request so delivered whose first token is no method name queues a 400 answer that quotes the token |
| `EndToEnd.HangupIsHandled` | src/HTTPServer.cpp:177-182 | A failed or empty `recv` takes the client out of the map and the watched set |
| `Answers.SilenceExactly` | src/HTTPServer.cpp:266-284 | Exactly accepted GET and HEAD requests go unanswered |
| `Answers.PaddedCopyExactly` | src/HTTPServer.cpp:418-420 | The body of a status response is its text if and only if only NULs follow the first NUL |
| `Answers.ErrorIsBounded` | src/HTTPMessage.cpp:221-230 | The error text of a rejected request is bounded by the request, so its length stays an `int` |
| `Answers.ValuesAreBounded` | src/HTTPMessage.cpp:181-199 | A parsed header value is never longer than the message |
| `Servers.HTTPServer.HandleRequest` | src/HTTPServer.cpp:240-285 | Queues exactly the answer to the request's bytes, or nothing, or ends abnormally with the parse |
| `Servers.HTTPServer.HandlePOST` | src/HTTPServer.cpp:337-352 | Queues an empty 200 response; closing is announced for version HTTP/1.1, where the comment says 1.0 |
| `Servers.HTTPServer.HandleOptions` | src/HTTPServer.cpp:363-374 | Queues the list of allowed methods |
| `Servers.HTTPServer.HandleTrace` | src/HTTPServer.cpp:384-401 | Queues every byte of the request's buffer as body, wherever its read cursor was |
| `Servers.HTTPServer.SendStatusResponse` | src/HTTPServer.cpp:412-429 | Queues reason and message as plain text, NUL-padded as `strncpy` does |
| `Servers.HTTPServer.SendResponse` | src/HTTPServer.cpp:439-452 | Adds the Connection header if closing, prints the response and appends it to the client's queue |
| `Servers.HTTPServer.ReadClient` | src/HTTPServer.cpp:173-219 | Changes the state as the step of the state machine does, for this client only |
| `Servers.HTTPServer.AcceptConnection` | src/HTTPServer.cpp:109-135 | Adds the client with an empty queue, watches its descriptor and raises the maximum; nothing on failure |
| `Servers.HTTPServer.DisconnectClient` | src/HTTPServer.cpp:145-163 | Stops watching the descriptor, and removes the client from the map if asked |
| `Servers.HTTPServer.GetClient` | src/HTTPServer.cpp:221-230 | The client under a descriptor, null if there is none |
| `Servers.HTTPServer.Start` | src/HTTPServer.cpp:15-53 | Succeeds exactly when socket, bind and listen do, and then watches the listening socket alone; the clients stay in the map either way |
| `Servers.HTTPServer.SweepClients` | src/HTTPServer.cpp:93-98 | Reads every ready client exactly once; the reads are a run of the state machine, the state is the one it leads to, and the descriptor bookkeeping is kept |
| `EventLoop.SweepErasesExactly` | src/HTTPServer.cpp:93-98 | The reads of a turn take exactly the clients that hang up out of the map, so iterating over the map itself is undisturbed if and only if none does |
| `Servers.HTTPServer.ProcessOnce` | src/HTTPServer.cpp:81-101 | One turn of the event loop is the reads followed by the accept; it is a run of the state machine if and only if `accept` returned no open descriptor, and keeps the descriptor bookkeeping |
| `Servers.HTTPServer.Process` | src/HTTPServer.cpp:69-103 | For any sequence of `select` results the loop takes one turn for each that finds something ready, none for a time-out, and ends at the first failure; from a started server every queued item is readable, the watched set is exact, and each queue answers its conversation |
| `EventLoop.ServingIsRun` | src/HTTPServer.cpp:69-103 | Whatever `select` and `recv` return, the events of the loop are a run of the state machine if and only if `accept` never returns an open descriptor |
| `EventLoop.ServingKeepsAll` | src/HTTPServer.cpp:69-103 | However long the loop runs from a started server, its invariants hold |
| `ServerRuns.RunSplit` | src/HTTPServer.cpp:69-103 | Runs compose: a run of a + b is one of a and then one of b from the state that a leads to, and nothing follows a halt |
| `ServerRuns.RunKeepsWatching` | src/HTTPServer.cpp:45-163 | In every reachable state the watched set is the listening socket and the clients, and `maxfd` bounds it |
| `ServerRuns.RunFromWatching` | src/HTTPServer.cpp:69-163 | A run from any state with that bookkeeping keeps it |
| `ServerRuns.ConnectKeepsWatchingExactly` | src/HTTPServer.cpp:109-131 | Accepting keeps that invariant if and only if `accept` does not return the listening socket |
| `ServerRuns.ConnectedExactly` | src/HTTPServer.cpp:109-131 | A new connection is watched and has an empty queue, the maximum is raised if needed, nothing else changes; a failed accept changes nothing |
| `ServerRuns.ServedExactly` | src/HTTPServer.cpp:173-285 | What a read does to the whole state, by its outcome, and when the server halts |
| `ServerRuns.QueuesAreAccounted` | src/HTTPServer.cpp:69-452 | In every reachable state each client's queue is, in order, the answers to the requests read from its connection |
| `ServerRuns.RepliesAreCounted` | src/HTTPServer.cpp:240-285 | One reply for each rejected request and each accepted one other than GET and HEAD, none for others |
| `ServerRuns.QueuesRefuseRejected` | src/HTTPServer.cpp:69-452 | In every reachable state each queued answer that says 400 answers a rejected request of its client, and there are as many as its client sent |
| `ServerRuns.QueuedItemsAreReadable` | src/HTTPServer.cpp:69-452 | In every reachable state every queued item parses back as the response it was printed from, with an exact Content-Length |
| `Clients.FirstInFirstOut` | src/Client.cpp:17-54 | Over any run of operations the items taken off followed by those left are the items queued before followed by those added |
| `Clients.OldestAreTaken` | src/Client.cpp:17-54 | A run that starts with enough items takes the oldest ones, one for each dequeue, and leaves the others and those added |
| `Clients.Client.AddToSendQueue` | src/Client.cpp:17-19 | Appends one item |
| `Clients.Client.NextInSendQueue` | src/Client.cpp:37-42 | The oldest item, none if the queue is empty |
| `Clients.Client.DequeueFromSendQueue` | src/Client.cpp:48-54 | Drops the oldest item; an empty queue stays |
| `Clients.Client.ClearSendQueue` | src/Client.cpp:60-65 | Drains the queue |
| `ByteBuffers.StreamIsQueue` | src/ByteBuffer.h:48-69 | Any interleaving of typed writes with reads of the types written behaves as a first-in first-out queue of values |
| `ByteBuffers.StreamRoundTrip` | src/ByteBuffer.h:48-69 | From a cleared buffer, a run that reads everything back returns the written values and ends with both cursors at the size |
| `ByteBuffers.WrittenIsRead` | src/ByteBuffer.h:54-77 | A value written anywhere is read back from there, and reads that do not touch its bytes are unaffected |
| `ByteBuffers.AppendedIsRead` | src/ByteBuffer.h:60-69 | A value appended at any write cursor is read back from there; the size, the cursors and every other read are as they should be |
| `ByteBuffers.FetchedIsRead` | src/ByteBuffer.h:48-58 | A read returns the value whose image stands at the read cursor, 0 beyond the end, and moves the cursor either way |
| `ByteBuffers.ReadExactly` | src/ByteBuffer.h:54-58 | The image of the value read is what stands there; a read that would leave the vector gives 0 |
| `ByteBuffers.OverwriteTwice` | src/ByteBuffer.cpp:263-267 | Writing a text piece by piece at the moving cursor writes the text |
| `ByteBuffers.OverwriteByIndex` | src/ByteBuffer.h:60-69 | A write leaves the old prefix, zeros in a gap, the new bytes and any old tail |
| `ByteBuffers.SelfPutRepeats` | src/ByteBuffer.cpp:249-253 | A buffer put into itself at any cursor w behind its start repeats what it holds then, w bytes later: byte w + i is byte i of the result, and all other bytes are unchanged or zero in a gap |
| `ByteBuffers.SelfPutAtEnd` | src/ByteBuffer.cpp:249-253 | A buffer put into itself at its end appends its old contents although they grow under the loop |
| `ByteBuffers.SelfPutAtStart` | src/ByteBuffer.cpp:249-253 | A buffer put into itself at its start is unchanged |
| `ByteBuffers.ReplacedIsNotFound` | src/ByteBuffer.cpp:161-176 | After every key was replaced by another byte, `find` no longer finds it |
| `ByteBuffers.FindExactly` | src/ByteBuffer.h:93-109 | The position found holds the key, at or behind the start, and neither a key nor a NUL is before it; and only that one |
| `ByteBuffers.ReplacedExactly` | src/ByteBuffer.cpp:161-176 | A byte is rewritten exactly if it is a key at or behind the start with no NUL between, unless NUL is the key |
| `ByteBuffers.ByteBuffer.AppendImage` | src/ByteBuffer.h:60-69 | Resizes if needed and overwrites at the write cursor, which advances |
| `ByteBuffers.ByteBuffer.Append` | src/ByteBuffer.h:60-69 | The same for the image of a typed value |
| `ByteBuffers.ByteBuffer.Insert` | src/ByteBuffer.h:71-77 | Overwrites within the vector and moves the write cursor behind; does nothing outside |
| `ByteBuffers.ByteBuffer.Read` | src/ByteBuffer.h:48-58 | Returns the value at the read cursor, zero beyond the end, and advances |
| `ByteBuffers.ByteBuffer.GetBytes` | src/ByteBuffer.cpp:192-196 | Fills an array from the read cursor on and leaves the rest of it alone |
| `ByteBuffers.ByteBuffer.FindByte` | src/ByteBuffer.h:93-109 | The first key from the start index on, unless a NUL comes before it; -1 otherwise |
| `ByteBuffers.ByteBuffer.Replace` | src/ByteBuffer.cpp:161-176 | Rewrites exactly the keys before the first original NUL, or only the first one; size and cursors stay |
| `ByteBuffers.ByteBuffer.PutBytes` | src/ByteBuffer.cpp:263-267 | The byte loop overwrites with the whole text |
| `ByteBuffers.ByteBuffer.PutBytesAt` | src/ByteBuffer.cpp:269-275 | The same from a given index |
| `ByteBuffers.ByteBuffer.PutBuffer` | src/ByteBuffer.cpp:249-253 | Overwrites with another buffer's contents; with its own, repeats them from the cursor on, leaves them at cursor 0 and doubles them at the end |
| `ByteBuffers.ByteBuffer.Equals` | src/ByteBuffer.cpp:113-126 | True if and only if the contents are equal |
| `ByteBuffers.ByteBuffer.Clone` | src/ByteBuffer.cpp:91-104 | The result is always empty, so it equals the original if and only if that is empty |
| `ByteBuffers.ByteBuffer.BytesRemaining` | src/ByteBuffer.cpp:71-73 | The unsigned difference, which does not wrap while the read cursor is within the buffer |
| `ByteBuffers.ByteBuffer.Clear` | src/ByteBuffer.cpp:79-83 | Empties the buffer and resets both cursors |
| `ByteBuffers.ByteBuffer.Resize` | src/ByteBuffer.cpp:134-138 | Truncates or zero-extends and resets both cursors |
| `ByteBuffers.ByteBuffer.Consume` | src/ByteBuffer.cpp:42-56 | Takes over the bytes of an array; null gives an empty buffer |
| `Numbers.AtoiReadsDecimal` | src/HTTPMessage.cpp:211-217 | Every `int` printed in decimal is read back by `atoi` |
| `Numbers.AtoiExactly` | src/HTTPMessage.cpp:217 | White space, a sign and digits give the signed number, 0 without digits, whatever follows; beyond `int` it is undefined |
| `Numbers.DecimalExactly` | src/HTTPMessage.cpp:296-300 | The decimal text of a number is its one numeral without a leading zero |
| `Numbers.DecodeEncode` | src/ByteBuffer.h:54-69 | Reading a value of its own type out of its own bytes gives it back, for all integer types |
| `Numbers.EncodeDecode` | src/ByteBuffer.h:54-69 | Every image of the right size is the image of the value read from it |
| `Numbers.EncodeIsLittleEndian` | src/ByteBuffer.h:60-69 | The image has the size of its type, the least significant byte first, in two's complement |
| `Counterexamples.LengthOneAbove` | src/HTTPMessage.cpp:219-244 | "Content-Length: 2" before a body of one byte is accepted, with a second byte from fresh memory |
| `Counterexamples.LengthOneBelow` | src/HTTPMessage.cpp:219-244 | "Content-Length: 1" before a body of two bytes overruns the allocation |
| `Counterexamples.BlankLineIsSwallowed` | src/HTTPMessage.cpp:101-199 | The blank line between two line feeds does not end a header block, and the body behind it becomes a header |
| `Counterexamples.NulCutsAnswer` | src/HTTPServer.cpp:412-429 | A NUL in a Content-Length value that is too large cuts the text of the 400 answer |
| `Counterexamples.BodyWithHeadHangs` | src/HTTPServer.cpp:191-215 | A concrete message with a body of one byte is read when that byte comes later, and makes the server wait for ever when it comes with the head |

## Left out

- Messages.HTTPMessage.ParseBody: buffers of 2^31 - 1 bytes or more are excluded, as the cursor accessors return `int`.
- Requests.HTTPRequest.Parse: the same bound on the buffer.
- Responses.HTTPResponse.Parse: the same bound on the buffer.
- Servers.HTTPServer.SendResponse: the copy of the response through a local array of 1024 bytes and the `send` of that copy are not modelled; the queued item is the whole response.
- Servers.HTTPServer.SweepClients: the sweep runs over a snapshot of the ready clients; the code erases a client that hangs up from the map it is iterating, which is undefined. `EventLoop.SweepErasesExactly` says when that does not happen.
- Servers.HTTPServer.ProcessOnce: the same snapshot.
- Servers.HTTPServer.Process: the same snapshot; the loop is followed for as many rounds as the caller gives.
- ServerRuns.RunKeepsWatching: the largest descriptor an `fd_set` can hold is not modelled.
- Inheritance: a request or response has a message, which has a buffer, in place of deriving from it.
- Wrap-around of the cursors and of the vector size beyond 2^32 bytes; allocation failure and memory release.
- A null data pointer and an empty allocation are not told apart; `create` and `getDataLength` do not either.
- `SendQueueItem` is a value: its offset is never changed by the server, and its size is the length of its data.
- The constructors from `std::string`, which also store the terminating NUL, and `getHeaderStr`, `getNumHeaders` and all console output.
- Socket calls themselves: what they return is input, and the queue is the output.
- `float` and `double` accessors of the buffer (bit reinterpretation); byte order is little-endian, and `long` has 64 bits.
- `handleGet`, `ResourceHost`, `Resource`, the MIME table and virtual hosts: dispatch does not reach them.
- The C programs at the top level and `HTTPServer_bak.cpp`: earlier versions of the same server.
