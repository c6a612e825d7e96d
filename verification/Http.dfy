/**
  src/http.c as a function: what a request is answered with, and whether the connection is
  then closed.
*/
module Http {
  import opened Grammar
  import opened Wrappers
  import opened Text
  import opened RequestSyntax
  import opened BodyFraming
  import opened FileSystem
  import opened Responses

  predicate MethodAllowed(verb: string) {
    verb == "GET" || verb == "HEAD"
  }

  /** HTTP/1.0 closes by default; either version closes when the first Connection field says so. */
  predicate WantsClose(r: Request) {
    r.version == "HTTP/1.0"
    || match First(Select(r.headers, "Connection"))
       case None => false
       case Some(v) => SameIgnoringCase(v, "close")
  }

  /** The version closes by default, or the first Connection field says so, as a whole word. */
  ghost predicate AsksToClose(r: Request) {
    r.version == "HTTP/1.0"
    || exists i: nat :: FirstNamedAt(r.headers, i, "Connection") && SaysClose(r.headers[i].value)
  }

  lemma SaysCloseExact(v: string)
    ensures SameIgnoringCase(v, "close") <==> SaysClose(v)
  {
  }

  lemma WantsCloseExact(r: Request)
    ensures WantsClose(r) <==> AsksToClose(r)
  {
    hide Select, SaysClose, SameIgnoringCase, SameName;
    SelectExact(r.headers, "Connection");
    var i := FindNamed(r.headers, 0, "Connection");
    if FirstNamedAt(r.headers, i, "Connection") {
      SaysCloseExact(r.headers[i].value);
    }
  }

  function StatusOfErrno(errno: Errno): (status: Status)
    ensures status != StatusOk
  {
    match errno
    case ENOENT => NotFound404
    case EACCES => Forbidden403
    case EPERM => Forbidden403
    case _ => InternalError500
  }

  /** The error a parsed request is refused with before any file is opened. */
  function Refusal(r: Request): Option<Reply> {
    if !MethodAllowed(r.verb) then Some(ErrorReply(MethodNotAllowed405, None))
    else if r.version == "HTTP/1.1" && |Select(r.headers, "Host")| != 1 then Some(ErrorReply(BadRequest400, None))
    else
      match FramingOf(r.headers)
      case NoBody => None
      case Refused(error) => Some(ErrorReply(BadRequest400, Some(FramingMessage(error))))
  }

  /** The reason http_validate_request_framing gives. */
  function FramingText(error: FramingError): string {
    match error
    case DuplicateLength => "Duplicate Content-Length headers are not supported"
    case TransferCoding => "Transfer-Encoding is not supported"
    case InvalidLength => "Invalid Content-Length"
    case BodyUnsupported => "Request bodies are not supported"
  }

  lemma FramingTextIsShort(error: FramingError)
    ensures |FramingText(error)| <= 50
  {
  }

  /** It becomes the response body. */
  function FramingMessage(error: FramingError): Content {
    FramingTextIsShort(error);
    FramingText(error)
  }

  /** The answer to an accepted request, given what its path leads to. */
  function Answer(r: Request, found: Result<Content, Errno>, closing: bool): Reply {
    match found
    case Err(e) => ErrorReply(StatusOfErrno(e), None)
    case Ok(content) =>
      Reply(StatusOk, MimeText(MimeType(r.path)), content, r.verb != "HEAD", closing || WantsClose(r))
  }

  function Decide(r: Request, root: string -> Entry, closing: bool): Reply {
    match Refusal(r)
    case Some(reply) => reply
    case None => Answer(r, Lookup(root, r.path), closing)
  }

  function StatusOfParseError(error: ParseError): Status {
    match error
    case BadRequest => BadRequest400
    case HeadersTooLarge => HeadersTooLarge431
  }

  function AnswerParsed(parsed: Result<Request, ParseError>, root: string -> Entry, closing: bool): Reply {
    match parsed
    case Err(error) => ErrorReply(StatusOfParseError(error), None)
    case Ok(r) => Decide(r, root, closing)
  }

  /** The answer to a framed request, on a connection that may already be closing. */
  function Respond(msg: string, config: Config, root: string -> Entry, closing: bool): Reply {
    AnswerParsed(ParseRequest(CString(msg + [NUL]), config), root, closing)
  }

  lemma DecideCloses(r: Request, root: string -> Entry, closing: bool)
    ensures var reply := Decide(r, root, closing);
            && (reply.status != StatusOk ==> reply.close && reply.sendBody)
            && (closing ==> reply.close)
  {
    hide ErrorPage, FramingMessage, FramingOf, Select, MimeText, Lookup;
  }

  /** Every answer but a 200 is an error page whose connection closes. */
  lemma OnlyOkKeepsOpen(msg: string, config: Config, root: string -> Entry, closing: bool)
    ensures var reply := Respond(msg, config, root, closing);
            && (reply.status != StatusOk ==> reply.close && reply.sendBody)
            && (closing ==> reply.close)
  {
    hide ErrorPage, Decide, ParseRequest, MimeText;
    var parsed := ParseRequest(CString(msg + [NUL]), config);
    if parsed.Ok? {
      DecideCloses(parsed.value, root, closing);
    }
  }
}
