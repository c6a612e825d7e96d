/**
  Which answer a request gets, in terms of the standard and of what its path leads to.
*/
module AnswerTheorems {
  import opened Grammar
  import opened Wrappers
  import opened Text
  import opened RequestSyntax
  import opened ParserTheorems
  import opened BodyFraming
  import opened FileSystem
  import opened Responses
  import opened Http
  import opened RunTheorems

  // ---------------------------------------------------------------- the file

  predicate AllSlashes(s: string) {
    forall i :: 0 <= i < |s| ==> s[i] == '/'
  }

  /** Exactly the leading slashes are taken off. */
  lemma {:induction false} StripExact(path: string, slashes: string, name: string)
    requires path == slashes + name && AllSlashes(slashes) && (name == "" || name[0] != '/')
    ensures StripSlashes(path) == name
  {
    if slashes != "" {
      assert path[1..] == slashes[1..] + name;
      StripExact(path[1..], slashes[1..], name);
    } else {
      assert path == name;
    }
  }

  /**
    A path is answered with a file exactly when what follows its slashes, or the root for
    nothing, leads to that regular file or to a directory whose index is that regular file.
  */
  lemma LookupExact(root: string -> Entry, slashes: string, name: string, content: Content)
    requires slashes != "" && AllSlashes(slashes) && (name == "" || name[0] != '/')
    ensures Lookup(root, slashes + name) == Ok(content)
            <==> var entry := Resolve(root, if name == "" then "." else name);
                 entry == Regular(content) || entry == Directory(Regular(content))
  {
    StripExact(slashes + name, slashes, name);
    assert (slashes + name)[0] == '/';
  }

  /** What is served in place of an entry: for a directory its index. */
  function Behind(entry: Entry): Entry {
    match entry
    case Directory(index) => index
    case _ => entry
  }

  /** Why a target that is not a regular file cannot be served, as an errno. */
  predicate FailsWith(target: Entry, e: Errno) {
    || target == Unstatable(e)
    || (target == Unopenable(e) && e != EXDEV && e != ELOOP)
    || (e == EACCES && (target == Unopenable(EXDEV) || target == Unopenable(ELOOP)))
    || (e == EACCES && (target == Special || target.Directory?))
  }

  /**
    And it fails exactly as the target fails: a path that leaves the root or crosses a symbolic
    link is refused like one without permission, and so is whatever is no regular file.
  */
  lemma LookupFails(root: string -> Entry, slashes: string, name: string, e: Errno)
    requires slashes != "" && AllSlashes(slashes) && (name == "" || name[0] != '/')
    ensures Lookup(root, slashes + name) == Err(e)
            <==> FailsWith(Behind(Resolve(root, if name == "" then "." else name)), e)
  {
    StripExact(slashes + name, slashes, name);
    assert (slashes + name)[0] == '/';
  }

  /** Every accepted path is slashes and a name. */
  lemma {:induction false} PathParts(path: string) returns (slashes: string, name: string)
    ensures path == slashes + name && AllSlashes(slashes) && (name == "" || name[0] != '/')
    ensures path != "" && path[0] == '/' ==> slashes != ""
    ensures name == StripSlashes(path)
  {
    if path == "" || path[0] != '/' {
      slashes, name := "", path;
    } else {
      slashes, name := PathParts(path[1..]);
      slashes := "/" + slashes;
    }
  }

  // ---------------------------------------------------------------- the status

  /** HTTP/1.1 needs exactly one field named Host, in any letter case. */
  ghost predicate HostOk(r: Request) {
    r.version == "HTTP/1.1" ==> NamedOnce(r.headers, "Host")
  }

  /** No body by section 6.3 of RFC 9112, and no more than one length that says so. */
  ghost predicate BodyOk(r: Request) {
    RfcBodyLength(r.headers) == Some(0) && !NamedTwice(r.headers, "Content-Length")
  }

  /** The status of a request, as one table. */
  ghost function ExpectedStatus(r: Request, found: Result<Content, Errno>): Status {
    if r.verb != "GET" && r.verb != "HEAD" then MethodNotAllowed405
    else if !HostOk(r) || !BodyOk(r) then BadRequest400
    else if found.Ok? then StatusOk
    else if found.error == ENOENT then NotFound404
    else if found.error == EACCES || found.error == EPERM then Forbidden403
    else InternalError500
  }

  /**
    A parsed request gets the status of the table; a 200 carries the file its path leads to, with
    the body for GET and without it for HEAD, and closes exactly when asked to.
  */
  lemma AnswerExact(r: Request, root: string -> Entry)
    requires TrimmedValues(r.headers)
    ensures var reply, found := Decide(r, root, false), Lookup(root, r.path);
            && reply.status == ExpectedStatus(r, found)
            && (reply.status == StatusOk ==>
                  && reply.content == found.value && (reply.sendBody <==> r.verb == "GET")
                  && reply.contentType == MimeText(MimeType(r.path))
                  && (reply.close <==> AsksToClose(r)))
            && (reply.status != StatusOk ==> reply.contentType == MimeText(Html) && reply.sendBody && reply.close)
  {
    hide ErrorPage, FramingText, MimeText, MimeType, Lookup, Select, RfcBodyLength, FramingOf, WantsClose, AsksToClose;
    hide NamedOnce, NamedTwice;
    NoBodyExactly(r.headers);
    SelectExact(r.headers, "Host");
    SelectExact(r.headers, "Content-Length");
    WantsCloseExact(r);
  }

  /**
    The body of an error is the page of its status, except that a refused body or length is
    answered with the reason for it.
  */
  lemma ErrorContentExact(r: Request, root: string -> Entry)
    requires Decide(r, root, false).status != StatusOk
    ensures var reply := Decide(r, root, false);
            var framing := if reply.status == BadRequest400 && HostOk(r) then FramingOf(r.headers) else NoBody;
            reply.content == match framing
                             case NoBody => ErrorPage(reply.status)
                             case Refused(DuplicateLength) => "Duplicate Content-Length headers are not supported"
                             case Refused(TransferCoding) => "Transfer-Encoding is not supported"
                             case Refused(InvalidLength) => "Invalid Content-Length"
                             case Refused(BodyUnsupported) => "Request bodies are not supported"
  {
    hide ErrorPage, MimeText, MimeType, Lookup, Select, FramingOf, WantsClose, NamedOnce;
    SelectExact(r.headers, "Host");
  }

  /**
    A framed request gets a 431 exactly when its first line is in order and a limit is exceeded
    at a line with nothing but fields before it, a 400 when it is refused for anything else in
    its syntax, and otherwise the status of the table.
  */
  lemma StatusExact(msg: string, config: Config, root: string -> Entry)
    requires Framed(msg)
    ensures var text := CString(msg + [NUL]);
            var parsed, status := ParseRequest(text, config), Respond(msg, config, root, false).status;
            && (status == HeadersTooLarge431 <==> ParseStart(text).Some? && LimitExceeded(text, config))
            && (parsed.Err? && status != HeadersTooLarge431 ==> status == BadRequest400)
            && (parsed.Ok? ==> status == ExpectedStatus(parsed.value, Lookup(root, parsed.value.path)))
    ensures NUL !in msg ==>
              (Respond(msg, config, root, false).status == HeadersTooLarge431
               <==> ParseStart(msg).Some? && SomeLimit(FieldLines(msg), true, 0, config))
  {
    hide ParseRequest, ParseStart, LimitExceeded, SomeLimit, Decide, ErrorPage, HostOk, BodyOk, Lookup;
    var parsed := ParseRequest(CString(msg + [NUL]), config);
    RequestTooLargeExact(CString(msg + [NUL]), config);
    LimitOfFramed(msg, config);
    if NUL !in msg {
      NoNul(msg);
    }
    if parsed.Ok? {
      AcceptedHeadersAreTrimmed(msg, config);
      AnswerExact(parsed.value, root);
    }
  }

  lemma AcceptedHeadersAreTrimmed(msg: string, config: Config)
    requires Framed(msg) && ParseRequest(CString(msg + [NUL]), config).Ok?
    ensures TrimmedValues(ParseRequest(CString(msg + [NUL]), config).value.headers)
  {
    FramerParserAgree(msg, config);
    NoNul(msg);
    AcceptedValuesAreTrimmed(FieldLines(msg), 0, config);
  }
}
