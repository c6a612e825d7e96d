/**
  What a client sees for what it sends, in octets and numbers: the status it reads, and whole
  exchanges from the first octet of the request to the last of the response.
*/
module Exchange {
  import opened Grammar
  import opened Wrappers
  import opened Text
  import opened Decimal
  import opened PercentCoding
  import opened RequestSyntax
  import opened RequestPrinting
  import opened ParserTheorems
  import opened BodyFraming
  import opened FileSystem
  import opened Responses
  import opened Http
  import opened Runs
  import opened AnswerTheorems
  import opened Client

  // ---------------------------------------------------------------- the status that is read

  /** The entry that decides what a path is answered with. */
  function TargetOf(root: string -> Entry, path: string): Entry {
    var name := StripSlashes(path);
    Behind(Resolve(root, if name == "" then "." else name))
  }

  /** The status code the client reads in the answer to a request. */
  function StatusSeen(msg: string, config: Config, root: string -> Entry): Option<int> {
    var head := Head(Respond(msg, config, root, false));
    if |head| < 4 then None else StatusCode(head[..|head| - 4])
  }

  ghost predicate Acceptable(r: Request) {
    (r.verb == "GET" || r.verb == "HEAD") && HostOk(r) && BodyOk(r)
  }

  /** The number of a status. */
  function Number(status: Status): int {
    match status
    case StatusOk => 200
    case BadRequest400 => 400
    case Forbidden403 => 403
    case NotFound404 => 404
    case MethodNotAllowed405 => 405
    case HeadersTooLarge431 => 431
    case InternalError500 => 500
  }

  lemma DecodedIsAbsolute(target: string)
    requires ParseTarget(target).Some?
    ensures ParseTarget(target).value.path != "" && ParseTarget(target).value.path[0] == '/'
  {
    DecodeStep(SplitTarget(target).path);
  }

  lemma AcceptedIsAbsolute(s: string, config: Config)
    requires ParseRequest(s, config).Ok?
    ensures ParseRequest(s, config).value.path != "" && ParseRequest(s, config).value.path[0] == '/'
  {
    hide ParseTarget, ParseHeaderSection, ParseRequestLine;
    DecodedIsAbsolute(ParseFirstLine(s).value.target);
  }

  /** What opening the file of a path gives, by the entry it leads to. */
  lemma FoundByTarget(root: string -> Entry, path: string)
    requires path != "" && path[0] == '/'
    ensures var found, target := Lookup(root, path), TargetOf(root, path);
            && (found.Ok? <==> target.Regular?)
            && (found == Err(ENOENT) <==> target == Unopenable(ENOENT) || target == Unstatable(ENOENT))
            && (found == Err(EACCES) || found == Err(EPERM) <==> IsForbidden(target))
  {
    hide Lookup;
    var slashes, name := PathParts(path);
    LookupFails(root, slashes, name, ENOENT);
    LookupFails(root, slashes, name, EACCES);
    LookupFails(root, slashes, name, EPERM);
    var target := TargetOf(root, path);
    if target.Regular? {
      LookupExact(root, slashes, name, target.content);
    }
    if Lookup(root, path).Ok? {
      LookupExact(root, slashes, name, Lookup(root, path).value);
    }
  }

  lemma TableSeen(r: Request, root: string -> Entry, status: Status, seen: Option<int>)
    requires r.path != "" && r.path[0] == '/'
    requires status == ExpectedStatus(r, Lookup(root, r.path)) && seen == Some(Number(status))
    ensures SeenForParsed(r, TargetOf(root, r.path), seen)
  {
    hide Lookup, TargetOf, IsForbidden, HostOk, BodyOk;
    FoundByTarget(root, r.path);
  }

  ghost predicate SeenForParsed(r: Request, target: Entry, seen: Option<int>) {
    && (seen == Some(405) <==> r.verb != "GET" && r.verb != "HEAD")
    && (seen == Some(400) <==> (r.verb == "GET" || r.verb == "HEAD") && !(HostOk(r) && BodyOk(r)))
    && (seen == Some(200) <==> Acceptable(r) && target.Regular?)
    && (seen == Some(404) <==> Acceptable(r) && (target == Unopenable(ENOENT) || target == Unstatable(ENOENT)))
    && (seen == Some(403) <==> Acceptable(r) && IsForbidden(target))
    && seen in [Some(200), Some(400), Some(403), Some(404), Some(405), Some(500)]
  }

  /** Outside the root, behind a symbolic link, without permission, or no regular file. */
  predicate IsForbidden(target: Entry) {
    || target in [Unopenable(EXDEV), Unopenable(ELOOP)]
    || target in [Unopenable(EACCES), Unopenable(EPERM), Unstatable(EACCES), Unstatable(EPERM)]
    || target == Special || target.Directory?
  }

  /**
    The client reads 431 exactly when a limit is exceeded, 400 for every other request that
    cannot be parsed, and for one that can the number that its method, fields and target call for.
  */
  lemma StatusObserved(msg: string, config: Config, root: string -> Entry)
    requires Framed(msg)
    ensures var text := CString(msg + [NUL]);
            var parsed, seen := ParseRequest(text, config), StatusSeen(msg, config, root);
            && (seen == Some(431) <==> ParseStart(text).Some? && LimitExceeded(text, config))
            && (parsed.Err? && seen != Some(431) ==> seen == Some(400))
            && (parsed.Ok? ==> SeenForParsed(parsed.value, TargetOf(root, parsed.value.path), seen))
  {
    hide Respond, ParseRequest, ParseStart, LimitExceeded, Head, StatusCode, ExpectedStatus, SeenForParsed;
    StatusExact(msg, config, root);
    ReplyTypeIsOneLine(msg, config, root, false);
    StatusRead(Respond(msg, config, root, false));
    var parsed := ParseRequest(CString(msg + [NUL]), config);
    if parsed.Ok? {
      AcceptedIsAbsolute(CString(msg + [NUL]), config);
      TableSeen(parsed.value, root, Respond(msg, config, root, false).status, StatusSeen(msg, config, root));
    }
  }

  // ---------------------------------------------------------------- whole exchanges

  /** A request with the two fields every test sends. */
  function RequestFor(verb: string, path: seq<Spelling>, host: string): RequestText {
    RequestText(verb, path, None, "HTTP/1.1",
                [FieldText(Header("Host", host), " ", ""), FieldText(Header("Connection", "close"), " ", "")])
  }

  /** Its octets. */
  function RequestOctets(verb: string, target: string, host: string): string {
    verb + " " + (target + " " + "HTTP/1.1") + "\r\n"
    + ("Host" + ":" + (" " + host) + "\r\n" + ("Connection" + ":" + (" " + "close") + "\r\n" + "\r\n"))
  }

  /** The octets of an answer that closes the connection. */
  function AnswerOctets(status: Status, contentType: string, body: Content, sendBody: bool): string {
    "HTTP/1.1 " + (CodeText(status) + " " + Phrase(status)) + "\r\n"
    + ("Content-Type: " + contentType + "\r\n"
       + ("Content-Length: " + Print(|body|) + "\r\n"
          + ("Connection: " + "close" + "\r\n" + "\r\n")))
    + (if sendBody then body else "")
  }

  lemma RequestForPrints(verb: string, path: seq<Spelling>, host: string)
    ensures PrintRequest(RequestFor(verb, path, host)) == RequestOctets(verb, WrittenAll(path), host)
  {
    var t := RequestFor(verb, path, host);
    var fields := PrintFields(t.fields);
    assert fields[0] == "Host" + ":" + (" " + host) by {
      assert " " + host + "" == " " + host;
    }
    assert fields[1] == "Connection" + ":" + (" " + "close") by {
      assert " " + "close" + "" == " " + "close";
    }
    assert PrintTarget(t) == WrittenAll(path);
    assert fields == [fields[0], fields[1]] && fields[1..] == [fields[1]] && fields[1..][1..] == [];
    assert ([PrintFirstLine(t)] + fields)[1..] == fields;
    assert Block(fields) == fields[0] + CRLF + Block(fields[1..]);
    assert Block(fields[1..]) == fields[1] + CRLF + CRLF;
  }

  lemma RequestForFits(verb: string, path: seq<Spelling>, host: string, config: Config)
    requires verb == "GET" || verb == "HEAD"
    requires PathFits(path) && |WrittenAll(path)| < 4096
    requires FieldContent(host) && |host| < config.valueMax
    requires config.maxHeaders >= 2 && config.nameMax > 10 && config.valueMax > 5
    ensures RequestFits(RequestFor(verb, path, host), config)
  {
    hide Token, PathFits, WrittenAll, FieldContent;
    var t := RequestFor(verb, path, host);
    assert IsToken("GET") && IsToken("HEAD") && IsToken("Host") && IsToken("Connection");
    TokenExact(verb);
    TokenExact("Host");
    TokenExact("Connection");
    FieldContentExact("close");
    assert PrintTarget(t) == WrittenAll(path);
  }

  /** The fields every test sends, as they are parsed. */
  function TestFields(host: string): seq<Header> {
    [Header("Host", host), Header("Connection", "close")]
  }

  lemma TestFieldsNamed(host: string)
    ensures forall i: nat :: NamedAt(TestFields(host), i, "Host") <==> i == 0
    ensures forall i: nat :: NamedAt(TestFields(host), i, "Connection") <==> i == 1
    ensures forall i: nat :: !NamedAt(TestFields(host), i, "Content-Length")
    ensures forall i: nat :: !NamedAt(TestFields(host), i, "Transfer-Encoding")
  {
    var hs := TestFields(host);
    assert |hs| == 2 && hs[0].name == "Host" && hs[1].name == "Connection";
    assert SameName("Host", "Host") && SameName("Connection", "Connection");
  }

  lemma TestFieldsAreAccepted(host: string)
    ensures NamedOnce(TestFields(host), "Host") && FirstNamedAt(TestFields(host), 1, "Connection")
    ensures RfcBodyLength(TestFields(host)) == Some(0) && !NamedTwice(TestFields(host), "Content-Length")
  {
    hide TestFields, SameName, Select;
    TestFieldsNamed(host);
    SelectExact(TestFields(host), "Content-Length");
    SelectExact(TestFields(host), "Transfer-Encoding");
    assert NamedAt(TestFields(host), 0, "Host");
  }

  lemma TestFieldsAreTrimmed(host: string)
    requires FieldContent(host)
    ensures TrimmedValues(TestFields(host))
  {
    FieldContentExact(host);
  }

  /** The status by the target alone. */
  function StatusFor(target: Entry): Status {
    if target.Regular? then StatusOk
    else if target == Unopenable(ENOENT) || target == Unstatable(ENOENT) then NotFound404
    else if IsForbidden(target) then Forbidden403
    else InternalError500
  }

  /** The answer to such a request, by the target of its path. */
  function AnswerFor(verb: string, path: string, target: Entry): string {
    if target.Regular? then AnswerOctets(StatusOk, MimeText(MimeType(path)), target.content, verb == "GET")
    else
      var status := StatusFor(target);
      CodeAndPhraseAreShort(status);
      AnswerOctets(status, "text/html",
                   "<html><body><h1>" + (CodeText(status) + " " + Phrase(status)) + "</h1></body></html>", true)
  }

  lemma CodeAndPhraseAreShort(status: Status)
    ensures |CodeText(status) + " " + Phrase(status)| <= 40
  {
  }

  lemma TestRequestDecided(verb: string, path: string, host: string, root: string -> Entry)
    requires (verb == "GET" || verb == "HEAD") && path != "" && path[0] == '/' && FieldContent(host)
    ensures var r, target := Request(verb, path, "", "HTTP/1.1", TestFields(host)), TargetOf(root, path);
            var reply := Decide(r, root, false);
            && reply.close && reply.status == StatusFor(target)
            && (target.Regular? ==>
                  && reply.contentType == MimeText(MimeType(path)) && reply.content == target.content
                  && (reply.sendBody <==> verb == "GET"))
            && (!target.Regular? ==>
                  reply.contentType == "text/html" && reply.sendBody && reply.content == ErrorPage(reply.status))
  {
    hide Decide, TestFields, FirstNamedAt, NamedOnce, NamedTwice, RfcBodyLength, IsForbidden, MimeType, ErrorPage;
    hide Lookup, TargetOf, FramingOf, Select, SaysClose;
    var r := Request(verb, path, "", "HTTP/1.1", TestFields(host));
    TestFieldsAreAccepted(host);
    TestFieldsAreTrimmed(host);
    TestFieldsClose(host);
    AnswerExact(r, root);
    FoundByTarget(root, path);
    NoBodyExactly(r.headers);
    SelectExact(r.headers, "Content-Length");
    FileByTarget(root, path);
    if Decide(r, root, false).status != StatusOk {
      ErrorContentExact(r, root);
    }
  }

  lemma TestFieldsClose(host: string)
    ensures |TestFields(host)| == 2 && SaysClose(TestFields(host)[1].value)
  {
  }

  lemma FileByTarget(root: string -> Entry, path: string)
    requires path != "" && path[0] == '/'
    ensures TargetOf(root, path).Regular? ==> Lookup(root, path) == Ok(TargetOf(root, path).content)
  {
    var slashes, name := PathParts(path);
    if TargetOf(root, path).Regular? {
      LookupExact(root, slashes, name, TargetOf(root, path).content);
    }
  }

  /**
    From octets to octets: such a request, with any spelling of its path and whatever follows
    it, is answered with exactly these octets, after which the connection closes.
  */
  lemma ExchangeExact(
    verb: string, path: seq<Spelling>, host: string, later: string, config: Config, root: string -> Entry)
    requires verb == "GET" || verb == "HEAD"
    requires PathFits(path) && |WrittenAll(path)| < 4096
    requires FieldContent(host) && |host| < config.valueMax
    requires config.maxHeaders >= 2 && config.nameMax > 10 && config.valueMax > 5
    requires |RequestOctets(verb, WrittenAll(path), host)| <= config.bufferSize
    ensures var request := RequestOctets(verb, WrittenAll(path), host);
            var run := Serve(request + later, config, root);
            && run.consumed == |request| && run.exit == Closed
            && Wire(run) == AnswerFor(verb, MeaningAll(path), TargetOf(root, MeaningAll(path)))
  {
    hide RequestOctets, PrintRequest, RequestFits, RequestFor, ParseRequest, Decide, AnswerFor, Serve, PathFits;
    hide WrittenAll, MeaningAll, FieldContent, TargetOf, Wire, TestFields;
    var t, msg := RequestFor(verb, path, host), RequestOctets(verb, WrittenAll(path), host);
    RequestForPrints(verb, path, host);
    RequestForFits(verb, path, host, config);
    RequestForMeant(verb, path, host);
    ParsePrintedRequest(t, later, config);
    ParsePrintedRequest(t, "", config);
    assert msg + "" == msg && msg[..|msg|] == msg;
    TestRequestDecided(verb, MeaningAll(path), host, root);
    ServeRequest(msg, later, config, root);
    AnswerPrinted(verb, MeaningAll(path), TargetOf(root, MeaningAll(path)), Respond(msg, config, root, false));
    OnlyReply(Respond(msg, config, root, false), |msg|);
  }

  lemma RequestForMeant(verb: string, path: seq<Spelling>, host: string)
    requires PathFits(path)
    ensures AllWellSpelled(path) && MeaningAll(path) != "" && MeaningAll(path)[0] == '/'
    ensures RequestMeant(RequestFor(verb, path, host))
            == Request(verb, MeaningAll(path), "", "HTTP/1.1", TestFields(host))
  {
    assert HeadersMeant(RequestFor(verb, path, host).fields) == TestFields(host);
  }

  lemma OnlyReply(reply: Reply, n: nat)
    ensures Wire(Run([reply], n, Closed)) == Bytes(reply)
  {
    hide Bytes;
    assert Flatten([reply]) == Bytes(reply) + Flatten([]) == Bytes(reply) + "" == Bytes(reply);
  }

  lemma AnswerPrinted(verb: string, path: string, target: Entry, reply: Reply)
    requires reply.close && reply.status == StatusFor(target)
    requires target.Regular? ==>
               && reply.contentType == MimeText(MimeType(path)) && reply.content == target.content
               && (reply.sendBody <==> verb == "GET")
    requires !target.Regular? ==>
               reply.contentType == "text/html" && reply.sendBody && reply.content == ErrorPage(reply.status)
    ensures Bytes(reply) == AnswerFor(verb, path, target)
  {
    hide MimeText, MimeType, ErrorPage, CodeText, Phrase, IsForbidden, HeaderText;
    HeaderTextExact(reply.status, reply.contentType, |reply.content|, !reply.close);
    if !target.Regular? {
      ErrorPageExact(reply.status);
    }
  }
}
