# Verification of the HTTP connection engine

This project models the byte-level engine of a small HTTP/1.1 server written in C, from the octets
`recv` delivers to the octets `send` accepts, and proves what it does over whole connections.

The model keeps the shape of the C code. Connections, responses, parsed requests, the socket and
the kernel's descriptor table are classes updated in place; the receive buffer, the printed header
section and the decoded path are arrays; loops are loops. Each of those methods is proved equal to
a function of its inputs, and the properties are proved about the functions.

- An octet is a `char` and an octet string a `string`, as in C. Code points above 255 never arise
  from a socket; no theorem needs to exclude them except the encoder's.
- A `const char *` is the string of the octets from that address to the end of its memory, with a
  NUL in it; `CString` is the part the C library sees. Moving a pointer is taking a suffix, so every
  read is bounds-checked.
- `recv`, `send` and `sendfile` follow a finite schedule: how much each call moves, which calls are
  interrupted, time out, fail or return 0. Past its end every call moves as much as it can.
- `openat2` is a fixed function from a path to an entry; a directory entry says what its
  `index.html` leads to.

The main result, `ForkServer.HandleConnection`, says that a connection is one function of the octets
the client sends, `Runs.Serve`, however they are cut up in either direction; where receiving breaks
off, what had arrived is still answered in full, and where sending does, what was sent is a prefix.
The other results are about the parser's language, the answers, the sender, and every run of `Serve`.

The character tests, name comparison, digits, status codes and tables of the code are not taken as
their own meaning: `Grammar` writes the standards' alphabets out a second time, in other terms, and
each test and table is proved to agree with them. The parser's language, the case law, the close
decision and the numbers a client reads are stated in those terms, and `Exchange.ExchangeExact` goes
from the octets of a request to the octets of its answer.

| file | contents |
|---|---|
| Grammar | the standards' alphabets, written out independently of the code |
| Text, Decimal, Wrappers | searching, lines, whitespace, letter case, C strings; numerals |
| PercentCoding, RequestSyntax, RequestParser | src/http_parse.c: meaning and code |
| ParserTheorems, RequestPrinting | framer and parser, limits; the language of the parser |
| BodyFraming, Http, AnswerTheorems, RequestSymmetry | the decisions of src/http.c |
| FileSystem | src/file.c over an abstract kernel |
| Transport, Responses, ResponseSender | the socket, src/io.c, src/http_response.c |
| ConnectionBuffer, HttpServer, ForkServer | src/http_connection.c and the loops of src/http.c and src/fork_server.c |
| Runs, RunTheorems | whole connections as a function of the input, and what holds of all of them |
| Client | the response reader of tests/test_http.py |
| Exchange | the status a client reads for a request, and whole exchanges in octets |

Some proofs `hide` a definition they do not use; this only withholds facts from the verifier.

## Where the code is followed

- The comment at src/http.c:121 says that trailing whitespace of a value survives parsing. The code
  at src/http_parse.c:327-334 removes it, so the second trim is idle on parsed requests.
- An error answer to HEAD carries its body; HEAD answered 200 does not. The client's reader therefore
  cannot read every run: it reads those in which no HEAD is answered with a file that is not empty
  (`Client.OutputReadable`), and `Client.HeadIsNotReadable` gives an input it cannot read.
- Only the first Connection field counts, and only as the whole word `close`.
- Host is checked for HTTP/1.1 only. A repeated Content-Length is refused even if every value is 0.
- A name or value of exactly the configured maximum is refused.
- The query is not inspected: it may hold any octet but SP, NUL and CRLF.

## Model

| member | source | states |
|---|---|---|
| ForkServer.HandleConnection | src/fork_server.c:10-102 | for every schedule of receives and sends the wire holds a prefix of what `Serve` says of the octets received; unless a send fails, and whenever 0 is returned, it holds all of that, with `Serve`'s octets consumed and no descriptor left open, even where a receive times out or fails; without either failure, and whenever 0 is returned, wire, octets consumed and return value are `Serve`'s of the whole stream |
| ForkServer.Turn | src/fork_server.c:31-98 | one turn of the receive loop keeps the account of what was received, ends the run exactly at a full buffer, the end of input or a failure with everything complete answered, and uses up input or schedule |
| ForkServer.Arrive | src/fork_server.c:84-97 | received data always fits the buffer, so the second 431 exit is never taken, and serving it extends the account of the run |
| ForkServer.RefuseFull | src/fork_server.c:43-52 | the 431 of a full buffer is exactly what completes the run's output |
| ForkServer.ResultExact | src/fork_server.c:10-102 | the return value is -1 iff no response closed and the first `bufferSize` unanswered octets hold no CRLF CRLF; with an invalid configuration iff there is no buffer or any input |
| HttpServer.ProcessConnection | src/http.c:417-475 | answers the complete requests held, in order, stopping only to close or when none is left; the answers do not depend on what arrives later; an invalid configuration sends nothing |
| HttpServer.ServeHeld | src/http.c:428-474 | the pipelining loop terminates and its output extends the run by whole responses; on failure the wire is still a prefix of the run |
| HttpServer.ServeNext | src/http.c:428-462 | one request of at least four octets is answered and consumed; the length-0 branch is dead |
| HttpServer.ServeOne | src/http.c:428-462 | the response to the first request goes out, its octets leave the buffer, and its descriptor is closed again |
| HttpServer.PrepareResponse | src/http.c:169-414 | prepares exactly the answer `Respond` gives, sets the close flag to the one announced, opens at most the descriptor the response owns, and cannot fail with a valid configuration |
| HttpServer.AnswerRequest | src/http.c:237-413 | the same after parsing, for every outcome of opening the file |
| HttpServer.CheckRequest | src/http.c:237-280 | method, Host and framing are refused in that order with the right status and message |
| HttpServer.ReadWantsClose | src/http.c:286-296 | true iff the version is HTTP/1.0 or the first field named Connection is the word close, both in any letter case |
| HttpServer.PrepareFile | src/http.c:364-413 | a 200 keeps its content in the file and announces the file's size |
| HttpServer.SendPrepared | src/http.c:449-451 | a fresh response goes out whole or as a prefix |
| HttpServer.SendBothWays | src/http_response.c:134-455 | the two error emitters agree: sent directly or prepared and sent, each under its own schedule, an error leaves the same octets on the wire, or one stops short of the other |
| Runs.ServeRequest | src/http.c:428-462 | a complete request held in the buffer is answered the same whatever follows it |
| RunTheorems.CloseDiscipline | src/http.c:209-295 | in every run exactly the last response of a run the server ends is announced `close`, and every response but a 200 is such a last one |
| RunTheorems.FullExactly | src/fork_server.c:33-52 | unless a response closed first, a run ends at a full buffer iff the first `bufferSize` unanswered octets hold no CRLF CRLF, and then its last response is the 431 page |
| RunTheorems.RaisingLimits | src/http_parse.c:268-349 | raising the buffer size or any header limit changes a run only where it ended with a 431, and then only from that 431 on |
| RunTheorems.LaterInput | src/fork_server.c:31-98 | octets that arrive later never change what was answered before |
| RunTheorems.StartsAreBoundaries | src/http.c:455-462 | every offset at which a request is interpreted is a message boundary by section 6.3 of RFC 9112 |
| RunTheorems.StartsOfRun | src/http.c:428-462 | these offsets are where the requests answered in a run begin, one for each |
| RunTheorems.KeptOpenHasNoBody | src/http.c:263-280 | the connection is kept open only after a request whose body is empty by the RFC |
| AnswerTheorems.StatusExact | src/http.c:209-355 | 431 iff the first line is in order and a limit is exceeded at a line with only fields before it; 400 for every other syntax error; else the status of one table over method, Host, body and file |
| AnswerTheorems.AnswerExact | src/http.c:237-413 | a parsed request gets the table's status; a 200 has the file's content and its path's type, a body iff GET, and closes iff the version is HTTP/1.0 or the first field named Connection says `close`; every error is HTML with a body and closes |
| AnswerTheorems.LookupExact | src/file.c:61-237 | a path is answered with a file iff it leads, past its slashes, to that regular file or to a directory with that index |
| AnswerTheorems.LookupFails | src/file.c:103-234 | an errno is reported iff the entry, or the index of a directory, fails with it; leaving the root, a symbolic link and anything but a regular file give EACCES |
| AnswerTheorems.ErrorContentExact | src/http.c:209-280 | an error carries the page of its status, or for a refused body or length the reason, word for word |
| Http.OnlyOkKeepsOpen | src/http.c:209-360 | every answer but a 200 closes and carries a body; a closing connection stays closing |
| Http.WantsCloseExact | src/http.c:286-296 | closing is asked for iff the version is HTTP/1.0 or the first field named Connection is c-l-o-s-e in any letter case |
| RequestSymmetry.SwapKeepsAnswer | src/http_parse.c:170-181 | swapping adjacent fields with different names changes neither the answer nor the close decision (section 5.3 of RFC 9110) |
| RequestSymmetry.RespellKeepsAnswer | src/http.c:54-97 | changing any letters of a field name between A-Z and a-z changes neither (section 5.1 of RFC 9110) |
| RequestSymmetry.SameFieldsSameAnswer | src/http.c:79-97 | the fields matter only through the values under each name, in order |
| RequestSymmetry.HeadMirrorsGet | src/http.c:371-411 | where GET is answered 200, HEAD is answered with exactly GET's octets through the first empty line |
| RequestPrinting.RequestExact | src/http_parse.c:438-474 | a framed message is accepted with a given meaning iff it is the printed form of a request with that meaning: a token of under 16 octets, a target of under 4096, HTTP/1.1 or HTTP/1.0, and fields of the standard within the configured limits |
| RequestPrinting.ParsePrintedRequest | src/http_parse.c:353-474 | whatever follows a printed request, the framer ends it at its end and the parser returns the request, for every spelling of the path and any whitespace around values |
| RequestPrinting.PrintParsedRequest | src/http_parse.c:438-474 | every accepted request is such a printed form |
| RequestPrinting.FieldExact | src/http_parse.c:277-345 | a line is accepted as a field iff it is a token of RFC 9110, a colon and a field value of RFC 9110 with any spaces and tabs around it, both below the limits |
| RequestPrinting.EncodedPathFits | src/http_parse.c:30-137 | the encoding of a control-free absolute path is a spelling of it, and is read back as that path without a query iff it is shorter than 4096 octets |
| ParserTheorems.FramerParserAgree | src/http_parse.c:140-158 | on a framed request the header loop sees each line once and never meets a missing CRLF; an accepted request holds no NUL |
| ParserTheorems.CursorAtEnd | src/http_parse.c:268-271 | when a framed request is accepted the loop's pointer is two octets before its end |
| ParserTheorems.NulIsRefused | src/http_parse.c:255-350 | a framed request with a NUL anywhere is refused |
| ParserTheorems.ParseLinesExact | src/http_parse.c:268-349 | a list of lines is accepted iff there are not too many and each is a field |
| ParserTheorems.RequestLineExact | src/http_parse.c:353-435 | a request line is accepted iff it is a token of RFC 9110, a target and a version with single spaces between, of at most 15, 4095 and 15 octets |
| ParserTheorems.TargetLimitsUnreachable | src/http_parse.c:85-137 | the path, query and decode capacity checks can never fail for a target that fits |
| ParserTheorems.AcceptedFits | include/http.h:32-46 | with a valid configuration everything stored fits the fixed arrays of the request: 16, 4096, 4096 and 16 octets, and 64 fields of 128 and 4096 |
| RequestSyntax.TcharExact | src/http_parse.c:183-212 | the characters of names and methods are the visible ones of US-ASCII except the delimiters of section 5.6.2 of RFC 9110 |
| RequestSyntax.ValidConfigExact | src/http.c:18-44 | a configuration is valid iff its buffer is not empty and its limits are from 1 to 64, 128 and 4096; the default one is |
| ParserTheorems.FieldIsWellFormed | src/http_parse.c:283-345 | a parsed field has a token for a name and a trimmed, control-free value, both below the limits |
| ParserTheorems.LimitsMonotone | src/http_parse.c:268-349 | raising limits keeps every acceptance and every 400; lowering them turns an acceptance only into 431 |
| ParserTheorems.RequestTooLargeExact | src/http_parse.c:268-349 | the parser reports an exceeded limit iff the first line is in order, and at some line, after nothing but fields, there are too many fields, or a token name or a valid trimmed value after one is too long |
| RequestParser.Parse | src/http_parse.c:438-474 | the pointer-walking parser computes `ParseRequest` of the C string, and on acceptance stops at an empty line |
| RequestParser.ParseHeaders | src/http_parse.c:255-350 | computes `ParseHeaderSection` and appends the fields in order |
| RequestParser.ReadFields | src/http_parse.c:268-349 | the header loop, from any line on |
| RequestParser.ReadLine | src/http_parse.c:269-347 | one turn of it, with the checks in the code's order |
| RequestParser.ReadField | src/http_parse.c:283-345 | one line is split, checked and trimmed |
| RequestParser.TrimOws | src/http_parse.c:318-334 | both loops together remove all whitespace around the value |
| RequestParser.ReadRequestLine | src/http_parse.c:353-435 | computes `ParseFirstLine`; the target holds no NUL |
| RequestParser.ReadStart | src/http_parse.c:447-471 | request line, version and target together |
| RequestParser.ReadTarget | src/http_parse.c:85-137 | splits at the first raw `?`, then decodes in place |
| RequestParser.CopyTarget | src/http_parse.c:85-120 | the raw split and its size checks |
| RequestParser.StrStrCrlf | src/http_parse.c:260-277 | strstr finds the first CRLF before the NUL |
| RequestParser.ValidHeaderName | src/http_parse.c:215-230 | true iff the name is a token of RFC 9110 |
| RequestParser.ValidHeaderValue | src/http_parse.c:233-253 | true iff no control character but HTAB occurs; for a trimmed value, iff it is a field value of RFC 9110 |
| PercentCoding.DecodePath | src/http_parse.c:30-82 | succeeds iff the input decodes and the result fits, and then leaves exactly the decoded, NUL-terminated path |
| PercentCoding.NextOctet | src/http_parse.c:49-75 | reads one octet or triplet without reading past the terminator |
| PercentCoding.DecodeExact | src/http_parse.c:30-82 | decoding succeeds iff the string spells a control-free path by section 2.1 of RFC 3986 |
| PercentCoding.DecodeWritten | src/http_parse.c:30-82 | every spelling of a path decodes to it |
| PercentCoding.DecodeEncode | src/http_parse.c:30-82 | decoding inverts the encoder on all control-free paths |
| PercentCoding.DecodeStep | src/http_parse.c:30-82 | an octet that is neither % nor a control stands for itself, a control is refused, and % needs two hexadecimal digits after it |
| PercentCoding.DecodeTriplet | src/http_parse.c:12-27 | a triplet of digits of value i and j, each in either case, decodes to the octet 16i+j, or is refused if that is a control |
| PercentCoding.Decode | src/http_parse.c:30-82 | the decoded path is never longer than its encoding |
| BodyFraming.ValidateFraming | src/http.c:71-166 | duplicate length before transfer coding before value errors, whatever the header order |
| BodyFraming.ReadLength | src/http.c:134-152 | the 64-bit loop returns the true decimal value, and fails iff a non-digit occurs or the value exceeds 2^64-1 |
| BodyFraming.ValidateLength | src/http.c:112-165 | empty, malformed, too large, zero and nonzero lengths are told apart |
| BodyFraming.AcceptedExactly | src/http.c:79-165 | accepted iff no transfer coding and at most one length, a nonempty string of zeros |
| BodyFraming.NoBodyExactly | src/http.c:79-165 | accepted iff the body is empty by section 6.3 of RFC 9112 and the length was stated at most once |
| BodyFraming.FramingExact | src/http.c:71-166 | each of the four refusals iff: a second length; else a transfer coding; else a length that is empty, not all digits or above 18446744073709551615; else one above 0 |
| BodyFraming.SelectExact | src/http_parse.c:170-181 | the values selected under a name are none, one or more as fields have the name in any letter case, and the first is the first such field's |
| BodyFraming.ValidateHost | src/http.c:54-68 | true iff exactly one field has the name Host, letter by letter in either case |
| BodyFraming.GetHeader | src/http_parse.c:170-181 | the value of the first field with the name, letter by letter in either case, or none |
| FileSystem.FileOpenPath | src/file.c:33-238 | finds what `Lookup` says; on failure the open descriptors are unchanged, on success exactly the returned one is added |
| FileSystem.OpenEntry | src/file.c:88-237 | the same from the first openat2 on |
| FileSystem.OpenIndexOf | src/file.c:160-226 | the directory descriptor is closed on every path, and the index descriptor unless returned |
| Transport.IoSendAll | src/io.c:6-40 | sends a prefix in order, all of it unless send fails or returns 0, whatever the partial sends |
| ResponseSender.SendError | src/http_response.c:134-228 | when it succeeds, the octets of the direct error page with its headers are on the wire, otherwise a prefix; 200 is refused |
| ResponseSender.SendResponse | src/http_response.c:88-132 | sends exactly the printed header section, or nothing and -1 when it cannot be printed in 1024 octets |
| ResponseSender.BuildResponseHeaders | src/http_response.c:40-86 | prints the header section, whose octets `HeaderTextExact` gives, or returns -1 iff it does not fit or the length is negative |
| ResponseSender.Response.PrepareError | src/http_response.c:351-455 | stores the error reply with the page or the given message, close announced and nothing sent, and leaves the file alone; fails only for 200, changing nothing |
| ResponseSender.Response.SendBlocking | src/http_response.c:457-571 | after any partial sends, interruptions, failures and repeated calls, what is on the wire after `base` is given by the three cursors; complete iff all was sent |
| ResponseSender.Response.EmittedIsPrefix | src/http_response.c:457-571 | that is the prefix of the payload as long as the sum of the cursors, without gap or repeat |
| ResponseSender.Response.SendHeaders | src/http_response.c:469-495 | the first loop sends the header octets from its cursor on |
| ResponseSender.Response.SendBodyText | src/http_response.c:508-534 | the second loop sends the body octets from its cursor on |
| ResponseSender.Response.SendFile | src/http_response.c:539-566 | the third loop sends the file octets from its offset on |
| ResponseSender.Response.Init | src/http_response.c:284-294 | every field and the header array are zero and there is no descriptor |
| ResponseSender.Response.Destroy | src/http_response.c:296-322 | closes the descriptor the response owns, and no other, and clears every other field |
| Responses.HeadersFit | src/http_response.c:65-83 | for every status, MIME type and size up to 2^63-1 the header section is shorter than 1024 octets |
| Responses.HeaderTextEnds | src/http_response.c:65-78 | the printed section has no empty line before its end, whatever follows |
| Responses.HeaderTextExact | src/http_response.c:11-86 | the printed header section, octet by octet, with the seven codes and phrases |
| Responses.ErrorPageExact | src/http_response.c:362-418 | the error pages, octet by octet, repeat the code and the phrase |
| Responses.MimeTypeExact | src/mime.c:5-54 | the type announced for a path, by the name after its last dot |
| Responses.EmittersAgree | src/http_response.c:141-195 | the two separate tables of error pages agree for every status |
| ConnectionBuffer.FindHeaderEnd | src/http_parse.c:140-158 | the least offset just past a CRLF CRLF, or none |
| ConnectionBuffer.Connection.constructor | src/http_connection.c:7-29 | an empty, open connection |
| ConnectionBuffer.Connection.Feed | src/http_connection.c:47-75 | appends all of the data or, if it does not fit, nothing; what was received is what was consumed and what is held |
| ConnectionBuffer.Connection.Consume | src/http_connection.c:148-170 | removes exactly the first octets and keeps the rest in order |
| ConnectionBuffer.MemMoveDown | src/http_connection.c:163-168 | the overlapping move brings the tail to the front intact |
| ConnectionBuffer.Connection.RequestReady | src/http_connection.c:99-111 | true iff the held octets contain CRLF CRLF |
| ConnectionBuffer.Connection.RequestLength | src/http_connection.c:125-146 | the length of the first framed request, 0 for none |
| Text.FindEnd | src/http_parse.c:140-158 | the framer's least match |
| Text.FindEndStable | src/http_parse.c:140-158 | an end once found stays the end in every extension |
| Text.SameIgnoringCaseExact | src/http_parse.c:170-181 | two names are taken for the same iff letter by letter they are the same or differ by 32 between A-Z and a-z |
| Decimal.Print | src/http_response.c:65-78 | a printed number denotes that number |
| Client.OutputReadable | tests/test_http.py:28-90 | the client reads back exactly the responses of a run, in order with nothing left over, iff no request the server interprets is an acceptable HEAD for a file that is not empty |
| Client.HeadOfContentExact | src/http.c:371-411 | a response announces a body that does not follow iff the request is such a HEAD |
| Client.HeadIsNotReadable | tests/test_http.py:157-172 | a lone HEAD of a root directory whose index is not empty is a run the client cannot read at all |
| Client.ReceiveResponse | tests/test_http.py:28-90 | however the octets arrive, the response returned is the first one in the stream, and nothing is lost |
| Client.DecodeAfterHead | tests/test_http.py:40-88 | after a printed header section the client takes exactly the announced number of octets |
| Client.AnnouncementRead | tests/test_http.py:124-136 | the client finds the true Content-Length, the Content-Type, and `close` iff the connection closes |
| Client.StatusRead | tests/test_http.py:107-121 | the client reads 200, 400, 403, 404, 405, 431 or 500 by the status |
| Client.PyIntOfPrint | tests/test_http.py:57-63 | int of a printed number is that number |
| Exchange.StatusObserved | src/http.c:169-355 | the client reads 431 iff a limit is exceeded, 400 for other syntax errors, and else 405, 400, 200, 404, 403 or 500 by method, Host, body and what the path leads to |
| Exchange.ExchangeExact | tests/test_http.py:139-172 | a GET or HEAD with Host and `Connection: close`, however its path is spelled and whatever follows, is answered with exactly these octets, by what the path leads to |

## Left out

- Sockets, accept, timeouts as such, fork and SIGCHLD (src/server.c, src/main.c): only recv, send and sendfile appear, as schedules; an endless sequence of interruptions is not representable.
- FileSystem.FileOpenPath: openat2 and fstat are fixed answers for a path; containment beneath the root and symbolic links are the kernel's.
- ResponseSender.Response.SendBlocking: the file's content and size are fixed while it is sent.
- ForkServer.HandleConnection: the descriptors left open by a connection that breaks while a response is being sent, which the exit of its process closes, are not accounted for.
- ConnectionBuffer.Connection.constructor: allocation cannot fail and a capacity of 0 is refused by its caller; http_connection_destroy only frees memory.
- RequestParser.Parse: NULL arguments are not representable; the fixed arrays of the request other than `path` are strings, and `ParserTheorems.AcceptedFits` shows that they would fit.
- HttpServer.PrepareResponse: allocation failure and the log output are not modelled.
- Client.ReceiveResponse: letter case is folded for ASCII only, which decides the same on ISO-8859-1 text for the names it looks up.
- Command-line parsing (src/config.c); a configuration is any four numbers, valid or not.
- http_send_bad_request_message and file_send, which nothing calls, and the benchmarks.
- Chunked bodies, Connection lists, absolute-form targets and the no-content rule for errors to HEAD, which the code does not implement.
