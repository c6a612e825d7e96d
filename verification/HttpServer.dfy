/**
  The code of src/http.c: preparing one response, and the pipelining loop over the receive
  buffer.
*/
module HttpServer {
  import opened Wrappers
  import opened Text
  import opened Transport
  import opened RequestSyntax
  import opened RequestParser
  import opened BodyFraming
  import opened FileSystem
  import opened Responses
  import opened ResponseSender
  import opened ConnectionBuffer
  import opened Http
  import opened Runs

  /** The response holds `reply`, and the only descriptor opened since `before` is its file's. */
  ghost predicate Prepared(before: map<int, Entry>, response: Response, kernel: Kernel, reply: Reply)
    reads response, response.headers, kernel
  {
    && kernel.Valid() && response.Holds(reply) && response.FileIsOpen(kernel)
    && (response.fileFd < 0 ==> kernel.open == before)
    && (response.fileFd >= 0 ==> response.fileFd !in before && kernel.open - {response.fileFd} == before)
  }

  /** The end of http_prepare_response: a 200 whose content stays in its file. */
  method PrepareFile(
    response: Response, kernel: Kernel, file: OpenFile, contentType: string, sendBody: bool, close: bool,
    ghost content: Content)
    requires response.Valid() && |contentType| <= 24
    requires file.fd >= 0 && file.size == |content|
    requires file.fd in kernel.open && kernel.open[file.fd] == Regular(content)
    modifies response, response.headers
    ensures response.Holds(Reply(StatusOk, contentType, content, sendBody, close))
    ensures response.fileFd == file.fd && response.FileIsOpen(kernel)
  {
    hide HeaderText;
    response.PrintHeaders(StatusOk, contentType, file.size, !close);
    response.fileFd, response.fileSize, response.fileOffset, response.file := file.fd, file.size, 0, content;
    response.body, response.bodyLength, response.bodySent := "", 0, 0;
    response.sendBody, response.complete := sendBody, false;
    assert "" + response.file == content;
  }

  method PrepareRefusal(response: Response, kernel: Kernel, status: Status, message: Option<Content>)
    returns (result: int)
    requires status != StatusOk && kernel.Valid()
    requires response.Valid() && response.fileFd == -1 && response.fileOffset == 0
    modifies response, response.headers
    ensures result == 0 && Prepared(kernel.open, response, kernel, ErrorReply(status, message))
  {
    hide HeaderText, ErrorPage, Head;
    result := response.PrepareError(status, message);
    response.ReadyWithoutFile(ErrorReply(status, message));
  }

  /** The checks of http_prepare_response that follow a successful parse, up to the Connection field. */
  method CheckRequest(request: RequestRecord, ghost r: Request) returns (refusal: Option<(Status, Option<Content>)>)
    requires request.Holds(r)
    ensures match refusal
            case None => Refusal(r).None?
            case Some(e) => e.0 != StatusOk && Refusal(r) == Some(ErrorReply(e.0, e.1))
  {
    hide ErrorPage, FramingText, FramingOf, Select;
    if request.verb != "GET" && request.verb != "HEAD" {
      return Some((MethodNotAllowed405, None));
    }
    if request.version == "HTTP/1.1" {
      var hostOk := ValidateHost(request);
      if !hostOk {
        return Some((BadRequest400, None));
      }
    }
    var framing := ValidateFraming(request);
    match framing
    case NoBody => return None;
    case Refused(error) => return Some((BadRequest400, Some(FramingMessage(error))));
  }

  method ReadWantsClose(request: RequestRecord, ghost r: Request) returns (wants: bool)
    requires request.Holds(r)
    ensures wants == WantsClose(r) == AsksToClose(r)
  {
    hide SameIgnoringCase, Select, AsksToClose;
    WantsCloseExact(r);
    wants := false;
    if request.version == "HTTP/1.0" {
      wants := true;
    }
    var connection := GetHeader(request, "Connection");
    if connection.Some? && SameIgnoringCase(connection.value, "close") {
      wants := true;
    }
  }

  /** http_prepare_response once the request is parsed. */
  method AnswerRequest(request: RequestRecord, ghost r: Request, response: Response, closing: bool, kernel: Kernel)
    returns (result: int, close: bool)
    requires request.Holds(r) && kernel.Valid()
    requires response.Valid() && response.fileFd == -1 && response.fileOffset == 0
    modifies response, response.headers, kernel`open
    ensures result == 0 && close == Decide(r, kernel.root, closing).close
    ensures Prepared(old(kernel.open), response, kernel, Decide(r, kernel.root, closing))
  {
    hide HeaderText, ErrorPage, Head, Refusal, WantsClose, MimeText, Lookup;
    var refusal := CheckRequest(request, r);
    if refusal.Some? {
      result := PrepareRefusal(response, kernel, refusal.value.0, refusal.value.1);
      return result, true;
    }
    var wants := ReadWantsClose(request, r);
    close := closing || wants;
    var path, sendBody := CString(request.path[..]), request.verb != "HEAD";
    var file := FileOpenPath(kernel, request.path[..]);
    if file.Err? {
      result := PrepareRefusal(response, kernel, StatusOfErrno(file.error), None);
      return result, true;
    }
    ghost var content := Lookup(kernel.root, path).value;
    MimeTextIsShort(MimeType(path));
    PrepareFile(response, kernel, file.value, MimeText(MimeType(path)), sendBody, close, content);
    assert kernel.open - {file.value.fd} == old(kernel.open);
    return 0, close;
  }

  /**
    http_prepare_response. `closing` and `close` are *close_connection before and after. With
    memory to allocate and a valid configuration it cannot fail.
  */
  method PrepareResponse(buffer: string, response: Response, closing: bool, kernel: Kernel, config: Config)
    returns (result: int, close: bool)
    requires kernel.Valid() && response.headers.Length == HTTP_RESPONSE_HEADER_MAX
    modifies response, response.headers, kernel`open
    ensures !ValidConfig(config) ==> result == -1 && close == closing && kernel.open == old(kernel.open)
    ensures ValidConfig(config) ==>
              var reply := Respond(buffer, config, kernel.root, closing);
              result == 0 && close == reply.close && Prepared(old(kernel.open), response, kernel, reply)
  {
    hide HeaderText, ErrorPage, Head, Decide, ParseRequest;
    if !ValidConfig(config) {
      return -1, closing;
    }
    response.Init();
    var requestBuffer := buffer + [NUL];
    var request := new RequestRecord();
    var verdict, _ := Parse(requestBuffer, request, config);
    match verdict
    case Rejected(error) =>
      result := PrepareRefusal(response, kernel, StatusOfParseError(error), None);
      return result, true;
    case Accepted =>
      ghost var r := ParseRequest(CString(requestBuffer), config).value;
      result, close := AnswerRequest(request, r, response, closing, kernel);
  }

  // ---------------------------------------------------------------- pipelining

  /** What http_process_connection needs of the objects it works on. */
  ghost predicate Ready(connection: Connection, kernel: Kernel)
    reads connection, connection.buffer, connection.response, kernel
  {
    && connection.Valid() && kernel.Valid()
    && connection.response.headers.Length == HTTP_RESPONSE_HEADER_MAX
  }

  /**
    The body of http_process_connection's loop: the request of `length` octets at the front of
    the buffer is answered, its response sent and its octets consumed.
  */
  method ServeOne(connection: Connection, length: nat, socket: Socket, kernel: Kernel, config: Config)
    returns (ok: bool)
    requires Ready(connection, kernel) && ValidConfig(config) && length <= |connection.Contents()|
    modifies connection`bufferUsed, connection`consumed, connection`closeConnection, connection.buffer
    modifies connection.response, connection.response.headers
    modifies socket`wire, socket`sendPlan, kernel`open
    ensures Ready(connection, kernel)
    ensures var held := old(connection.Contents());
            var reply := Respond(held[..length], config, kernel.root, old(connection.closeConnection));
            && connection.closeConnection == reply.close
            && old(socket.wire) <= socket.wire <= old(socket.wire) + Bytes(reply)
            && (ok ==>
                  && socket.wire == old(socket.wire) + Bytes(reply)
                  && connection.Contents() == held[length..]
                  && connection.consumed == old(connection.consumed) + held[..length]
                  && kernel.open == old(kernel.open))
    ensures old(socket.CleanSends()) ==> socket.CleanSends() && ok
  {
    hide Respond, HeaderText;
    var response := connection.response;
    var result: int;
    result, connection.closeConnection :=
      PrepareResponse(connection.buffer[..length], response, connection.closeConnection, kernel, config);
    ghost var held := old(connection.Contents());
    ghost var reply := Respond(held[..length], config, kernel.root, old(connection.closeConnection));
    assert connection.buffer[..length] == held[..length];
    result := SendPrepared(response, socket, kernel, reply);
    if result < 0 {
      return false;
    }
    response.Destroy(kernel);
    connection.Consume(length);
    return true;
  }

  /** http_response_send_blocking on a response nothing of which has been sent. */
  method SendPrepared(response: Response, socket: Socket, kernel: Kernel, ghost reply: Reply) returns (result: int)
    requires response.Holds(reply) && response.FileIsOpen(kernel)
    modifies response`headersSent, response`bodySent, response`fileOffset, response`complete
    modifies socket`wire, socket`sendPlan
    ensures response.Valid() && (result == 0 || result == -1)
    ensures old(socket.wire) <= socket.wire <= old(socket.wire) + Bytes(reply)
    ensures result == 0 ==> socket.wire == old(socket.wire) + Bytes(reply)
    ensures old(socket.CleanSends()) ==> socket.CleanSends() && result == 0
  {
    hide Head;
    ghost var base := socket.wire;
    assert response.Emitted() == "";
    assert base + "" == base;
    assert response.Payload() == Bytes(reply);
    result := response.SendBlocking(socket, kernel, base);
    response.EmittedIsPrefix();
  }

  /**
    The two error emitters agree: whatever the two schedules, an error sent directly and the same
    error prepared and sent by the resumable sender put the same octets on the wire when both
    succeed, and otherwise one of them stops short on the way to the same octets.
  */
  method SendBothWays(direct: Socket, prepared: Socket, response: Response, kernel: Kernel, status: Status)
    returns (sent: int, resumed: int)
    requires direct != prepared && status != StatusOk && kernel.Valid()
    requires response.headers.Length == HTTP_RESPONSE_HEADER_MAX
    modifies direct`wire, direct`sendPlan, prepared`wire, prepared`sendPlan, response, response.headers
    ensures old(direct.wire) <= direct.wire && old(prepared.wire) <= prepared.wire
    ensures var a, b := direct.wire[|old(direct.wire)|..], prepared.wire[|old(prepared.wire)|..];
            && (a <= b || b <= a)
            && (sent == 0 && resumed == 0 ==> a == b)
            && (sent == 0 ==> b <= a) && (resumed == 0 ==> a <= b)
    ensures old(direct.CleanSends()) ==> sent == 0
    ensures old(prepared.CleanSends()) ==> resumed == 0
  {
    hide HeaderText, ErrorPage, Head, Bytes, DirectReply, ErrorReply;
    ghost var all := Bytes(ErrorReply(status, None));
    EmittersAgree(status);
    sent := SendError(direct, status, false);
    response.Init();
    var _ := PrepareRefusal(response, kernel, status, None);
    resumed := SendPrepared(response, prepared, kernel, ErrorReply(status, None));
    PartOf(old(direct.wire), direct.wire, all);
    PartOf(old(prepared.wire), prepared.wire, all);
  }

  lemma PartOf(before: string, wire: string, all: string)
    requires before <= wire <= before + all
    ensures wire[|before|..] <= all && (wire == before + all ==> wire[|before|..] == all)
  {
  }

  /**
    One turn of the loop, with the account of the run so far: `done` has answered the first
    `taken` octets of `stream`, and `later` is what the client may still send. The branch for a
    request of length 0 cannot be taken, since a framed request has at least four octets.
  */
  method ServeNext(
    connection: Connection, socket: Socket, kernel: Kernel, config: Config,
    ghost stream: string, ghost done: seq<Reply>, ghost taken: nat, ghost later: string, ghost before: string)
    returns (ok: bool, length: nat, ghost reply: Reply)
    requires Ready(connection, kernel) && !connection.closeConnection
    requires ValidConfig(config) && connection.bufferCapacity == config.bufferSize
    requires FindEnd(connection.Contents()).Some?
    requires Answered(stream, config, kernel.root, done, taken, connection.Contents() + later, false,
                      before, socket.wire)
    modifies connection`bufferUsed, connection`consumed, connection`closeConnection, connection.buffer
    modifies connection.response, connection.response.headers
    modifies socket`wire, socket`sendPlan, kernel`open
    ensures Ready(connection, kernel)
    ensures old(socket.CleanSends()) ==> socket.CleanSends() && ok
    ensures before <= socket.wire <= before + Wire(Serve(stream, config, kernel.root))
    ensures ok ==>
              && kernel.open == old(kernel.open) && length >= 4
              && |connection.Contents()| + length == |old(connection.Contents())|
              && |connection.consumed| == |old(connection.consumed)| + length
              && Answered(stream, config, kernel.root, done + [reply], taken + length, connection.Contents() + later,
                          connection.closeConnection, before, socket.wire)
  {
    hide Serve, Respond, Bytes, Answered, Wire;
    length := connection.RequestLength();
    ghost var held := connection.Contents();
    reply := Respond(held[..length], config, kernel.root, false);
    AnsweredRequest(stream, config, kernel.root, done, taken, held, later, before, socket.wire);
    ok := ServeOne(connection, length, socket, kernel, config);
  }

  /** The loop of http_process_connection, on a connection that is not closing. */
  method ServeHeld(connection: Connection, socket: Socket, kernel: Kernel, config: Config, ghost later: string)
    returns (result: int, ghost done: seq<Reply>, ghost taken: nat)
    requires Ready(connection, kernel) && !connection.closeConnection
    requires ValidConfig(config) && connection.bufferCapacity == config.bufferSize
    modifies connection`bufferUsed, connection`consumed, connection`closeConnection, connection.buffer
    modifies connection.response, connection.response.headers
    modifies socket`wire, socket`sendPlan, kernel`open
    ensures Ready(connection, kernel) && (result == 0 || result == -1)
    ensures old(socket.CleanSends()) ==> socket.CleanSends() && result == 0
    ensures var all := Wire(Serve(old(connection.Contents()) + later, config, kernel.root));
            old(socket.wire) <= socket.wire <= old(socket.wire) + all
    ensures result == 0 ==>
              && kernel.open == old(kernel.open)
              && |connection.consumed| == |old(connection.consumed)| + taken
              && (connection.closeConnection || FindEnd(connection.Contents()).None?)
              && Answered(old(connection.Contents()) + later, config, kernel.root, done, taken,
                          connection.Contents() + later, connection.closeConnection, old(socket.wire), socket.wire)
  {
    hide Serve, Respond, Bytes, Answered, Wire, FindEnd;
    ghost var stream, before, root := connection.Contents() + later, socket.wire, kernel.root;
    done, taken := [], 0;
    AnsweredNothing(stream, config, root, before);
    AnsweredWire(stream, config, root, done, taken, stream, false, before, before);
    var ready := connection.RequestReady();
    while ready
      invariant Ready(connection, kernel) && !connection.closeConnection
      invariant kernel.open == old(kernel.open)
      invariant |connection.consumed| == |old(connection.consumed)| + taken
      invariant Answered(stream, config, root, done, taken, connection.Contents() + later, false, before, socket.wire)
      invariant before <= socket.wire <= before + Wire(Serve(stream, config, root))
      invariant old(socket.CleanSends()) ==> socket.CleanSends()
      invariant ready == FindEnd(connection.Contents()).Some?
      decreases |connection.Contents()|
    {
      var ok, length, reply := ServeNext(connection, socket, kernel, config, stream, done, taken, later, before);
      if !ok {
        result := -1;
        return;
      }
      done, taken := done + [reply], taken + length;
      if connection.closeConnection {
        break;
      }
      ready := connection.RequestReady();
    }
    result := 0;
  }

  /** http_process_connection */
  method ProcessConnection(connection: Connection, socket: Socket, kernel: Kernel, config: Config, ghost later: string)
    returns (result: int, ghost done: seq<Reply>, ghost taken: nat)
    requires Ready(connection, kernel) && !connection.closeConnection
    requires connection.bufferCapacity == config.bufferSize
    modifies connection`bufferUsed, connection`consumed, connection`closeConnection, connection.buffer
    modifies connection.response, connection.response.headers
    modifies socket`wire, socket`sendPlan, kernel`open
    ensures Ready(connection, kernel) && (result == 0 || result == -1)
    ensures old(socket.CleanSends()) ==> socket.CleanSends() && (ValidConfig(config) ==> result == 0)
    ensures !ValidConfig(config) ==>
              && result == -1 && socket.wire == old(socket.wire) && kernel.open == old(kernel.open)
              && connection.consumed == old(connection.consumed)
    ensures ValidConfig(config) ==>
              var all := Wire(Serve(old(connection.Contents()) + later, config, kernel.root));
              old(socket.wire) <= socket.wire <= old(socket.wire) + all
    ensures result == 0 ==>
              && kernel.open == old(kernel.open)
              && |connection.consumed| == |old(connection.consumed)| + taken
              && (connection.closeConnection || FindEnd(connection.Contents()).None?)
              && Answered(old(connection.Contents()) + later, config, kernel.root, done, taken,
                          connection.Contents() + later, connection.closeConnection, old(socket.wire), socket.wire)
  {
    hide Serve, Answered, Wire;
    if !ValidConfig(config) {
      return -1, [], 0;
    }
    result, done, taken := ServeHeld(connection, socket, kernel, config, later);
  }
}
