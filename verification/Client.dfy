/**
  The client of tests/test_http.py, which finds the end of a response by its Content-Length, and
  the theorem that it can read back exactly the responses of a run from the octets on the wire.
*/
module Client {
  import opened Grammar
  import opened Wrappers
  import opened Text
  import opened Decimal
  import opened Transport
  import opened FileSystem
  import opened RequestSyntax
  import opened RequestPrinting
  import opened PercentCoding
  import opened Responses
  import opened Http
  import opened Runs
  import opened RunTheorems

  // ---------------------------------------------------------------- Python strings

  /** str.isspace on the code points of ISO-8859-1 */
  predicate IsPySpace(c: char) {
    '\t' <= c <= '\r' || '\U{1C}' <= c <= ' ' || c == '\U{85}' || c == '\U{A0}'
  }

  function StripLeft(s: string): string {
    if s != "" && IsPySpace(s[0]) then StripLeft(s[1..]) else s
  }

  function StripRight(s: string): string {
    if s != "" && IsPySpace(s[|s| - 1]) then StripRight(s[..|s| - 1]) else s
  }

  /** str.strip */
  function Strip(s: string): string {
    StripRight(StripLeft(s))
  }

  lemma StripSpaceBefore(s: string)
    requires s != "" ==> !IsPySpace(s[0]) && !IsPySpace(s[|s| - 1])
    ensures Strip(s) == s && Strip(" " + s) == s
  {
    assert (" " + s)[1..] == s;
    assert StripLeft(" " + s) == StripLeft(s);
  }

  /** str.split("\r\n") */
  function SplitLines(s: string): seq<string>
    decreases |s|
  {
    match FindCrlf(s)
    case None => [s]
    case Some(e) => [s[..e]] + SplitLines(s[e + 2..])
  }

  /** The digits of an int literal, with single underscores between them. */
  predicate IsIntBody(s: string) {
    && s != "" && IsDigit(s[0]) && IsDigit(s[|s| - 1])
    && forall i :: 0 <= i < |s| ==> IsDigit(s[i]) || (s[i] == '_' && i + 1 < |s| && s[i + 1] != '_')
  }

  function OnlyDigits(s: string): (r: string)
    ensures AllDigits(r)
    ensures AllDigits(s) ==> r == s
  {
    if s == "" then ""
    else
      var init, last := OnlyDigits(s[..|s| - 1]), s[|s| - 1];
      if IsDigit(last) then init + [last] else init
  }

  /** int(s), or None for ValueError */
  function PyInt(s: string): Option<int> {
    var t := Strip(s);
    var signed := t != "" && (t[0] == '+' || t[0] == '-');
    var body := if signed then t[1..] else t;
    if !IsIntBody(body) then None
    else
      var magnitude: int := Value(OnlyDigits(body));
      Some(if signed && t[0] == '-' then -magnitude else magnitude)
  }

  /** What int reads is what the server printed, after the space that precedes it. */
  lemma PyIntOfPrint(n: nat)
    ensures Strip(" " + Print(n)) == Print(n)
    ensures PyInt(Print(n)) == Some(n)
  {
    var s := Print(n);
    assert IsDigit(s[0]) && IsDigit(s[|s| - 1]);
    StripSpaceBefore(s);
  }

  /** A type of the table is read back as it is. */
  lemma MimeTextIsStripped(mime: Mime)
    ensures Strip(MimeText(mime)) == MimeText(mime)
  {
    StripSpaceBefore(MimeText(mime));
  }

  // ---------------------------------------------------------------- header_value

  function FieldValue(lines: seq<string>, name: string): Option<string> {
    if lines == [] then None
    else
      match IndexOf(lines[0], ':')
      case None => FieldValue(lines[1..], name)
      case Some(colon) =>
        if SameIgnoringCase(Strip(lines[0][..colon]), name) then Some(Strip(lines[0][colon + 1..]))
        else FieldValue(lines[1..], name)
  }

  function HeaderValue(headers: string, name: string): Option<string> {
    FieldValue(SplitLines(headers)[1..], name)
  }

  // ---------------------------------------------------------------- receive_response

  /** The first response in `data` and what follows it; None where the client raises an error. */
  function DecodeResponse(data: string): (r: Option<(string, string)>)
    ensures r.Some? ==> r.value.0 + r.value.1 == data && |r.value.1| < |data|
  {
    match ResponseLength(data)
    case None => None
    case Some(total) => if |data| < total then None else Some(Cut(data, total))
  }

  /** How long the first response is: its headers, and as much as they announce. */
  function ResponseLength(data: string): (r: Option<nat>)
    ensures r.Some? ==> r.value > 0
  {
    match FindEnd(data)
    case None => None
    case Some(n) =>
      match ContentLength(data[..n - 4])
      case None => None
      case Some(length) => Some(n + length)
  }

  function Cut(data: string, n: nat): (r: (string, string))
    requires 0 < n <= |data|
    ensures r.0 + r.1 == data && |r.1| < |data|
  {
    (data[..n], data[n..])
  }

  function ContentLength(headers: string): Option<nat> {
    match HeaderValue(headers, "Content-Length")
    case None => None
    case Some(text) =>
      match PyInt(text)
      case None => None
      case Some(n) => if n < 0 then None else Some(n)
  }

  /**
    receive_response: data arrives in pieces of at most 4096 octets. However it is cut up, the
    response returned is the one that DecodeResponse finds in the whole stream, and nothing is lost.
  */
  method ReceiveResponse(socket: Socket, pending: string) returns (r: Option<(string, string)>)
    modifies socket`incoming, socket`recvPlan
    ensures r.Some? ==> DecodeResponse(pending + old(socket.incoming)) == Some((r.value.0, r.value.1 + socket.incoming))
    ensures r.None? && old(socket.CleanRecvs()) ==> DecodeResponse(pending + old(socket.incoming)).None?
  {
    hide ContentLength;
    var data := pending;
    ghost var all := pending + socket.incoming;
    while FindEnd(data).None?
      invariant data + socket.incoming == all
      invariant old(socket.CleanRecvs()) ==> socket.CleanRecvs()
      decreases |socket.incoming| + |socket.recvPlan|
    {
      var more := ReceiveMore(socket, data);
      if more.None? {
        assert data + "" == data;
        return None;
      }
      data := more.value;
    }
    var n := FindEnd(data).value;
    FindEndStable(data, socket.incoming);
    assert all[..n - 4] == data[..n - 4];
    var length := ContentLength(data[..n - 4]);
    if length.None? {
      return None;
    }
    var total := n + length.value;
    while |data| < total
      invariant data + socket.incoming == all
      invariant old(socket.CleanRecvs()) ==> socket.CleanRecvs()
      decreases |socket.incoming| + |socket.recvPlan|
    {
      var more := ReceiveMore(socket, data);
      if more.None? {
        assert data + "" == data;
        return None;
      }
      data := more.value;
    }
    assert all[..total] == data[..total] && all[total..] == data[total..] + socket.incoming;
    return Some((data[..total], data[total..]));
  }

  /** One recv(4096), retried when interrupted, and appended; None at the end of the stream. */
  method ReceiveMore(socket: Socket, data: string) returns (r: Option<string>)
    modifies socket`incoming, socket`recvPlan
    ensures r.Some? ==> r.value + socket.incoming == data + old(socket.incoming)
    ensures r.Some? ==> |socket.incoming| + |socket.recvPlan| < |old(socket.incoming)| + |old(socket.recvPlan)|
    ensures old(socket.CleanRecvs()) ==> socket.CleanRecvs() && (r.None? ==> old(socket.incoming) == "")
  {
    var chunk := socket.Recv(4096);
    match chunk
    case RecvEintr => return Some(data);
    case RecvEagain => return None;
    case RecvBroken => return None;
    case Data(piece) =>
      if piece == "" {
        return None;
      }
      Concat3(data, piece, socket.incoming);
      return Some(data + piece);
  }

  // ---------------------------------------------------------------- reading a reply

  /** Lines joined by CRLF: a header section without its last CRLF CRLF. */
  function Joined(line: string, lines: seq<string>): string
    decreases |lines|
  {
    if lines == [] then line else line + CRLF + Joined(lines[0], lines[1..])
  }

  lemma {:induction false} BlockIsJoined(line: string, lines: seq<string>)
    ensures Block([line] + lines) == Joined(line, lines) + (CRLF + CRLF)
    decreases |lines|
  {
    assert ([line] + lines)[1..] == lines;
    if lines != [] {
      BlockIsJoined(lines[0], lines[1..]);
      assert [lines[0]] + lines[1..] == lines;
      Concat3(line + CRLF, Joined(lines[0], lines[1..]), CRLF + CRLF);
    } else {
      Concat3(line, CRLF, CRLF);
    }
  }

  lemma {:induction false} SplitJoined(line: string, lines: seq<string>)
    requires NoCrlf(line) && forall i :: 0 <= i < |lines| ==> NoCrlf(lines[i])
    ensures SplitLines(Joined(line, lines)) == [line] + lines
    decreases |lines|
  {
    if lines == [] {
    } else {
      var rest := Joined(lines[0], lines[1..]);
      FirstCrlfAfterLine(line, rest);
      assert (line + CRLF + rest)[..|line|] == line && (line + CRLF + rest)[|line| + 2..] == rest;
      SplitJoined(lines[0], lines[1..]);
    }
  }

  /** The lines the client splits a printed header section into are the lines printed. */
  lemma LinesRead(reply: Reply)
    requires OneLine(reply.contentType)
    ensures var head := Head(reply);
            && |head| >= 4
            && SplitLines(head[..|head| - 4])
               == [StatusLine(reply.status)] + HeaderFields(reply.contentType, |reply.content|, !reply.close)
  {
    hide StatusLine, HeaderFields, Block, Joined;
    var line, fields := StatusLine(reply.status), HeaderFields(reply.contentType, |reply.content|, !reply.close);
    StatusLineIsClean(reply.status);
    HeaderFieldsAreClean(reply.contentType, |reply.content|, !reply.close);
    BlockIsJoined(line, fields);
    SplitJoined(line, fields);
    assert (Joined(line, fields) + (CRLF + CRLF))[..|Joined(line, fields)|] == Joined(line, fields);
  }

  /** A field printed as `name: value` is found under its name, and passed over under another. */
  lemma FieldFound(name: string, value: string, lines: seq<string>, wanted: string)
    requires ':' !in name && name != "" && !IsPySpace(name[0]) && !IsPySpace(name[|name| - 1])
    requires value != "" ==> !IsPySpace(value[0]) && !IsPySpace(value[|value| - 1])
    ensures FieldValue([name + ": " + value] + lines, wanted)
            == if SameIgnoringCase(name, wanted) then Some(value) else FieldValue(lines, wanted)
  {
    var line := name + ": " + value;
    IndexOfAfter(name, ':', " " + value);
    assert line == name + [':'] + (" " + value);
    assert line[..|name|] == name && line[|name| + 1..] == " " + value;
    StripSpaceBefore(name);
    StripSpaceBefore(value);
    assert ([line] + lines)[1..] == lines;
  }

  /** The type, the length and the connection option of a printed header section, as the client reads them. */
  lemma AnnouncementRead(reply: Reply)
    requires OneLine(reply.contentType)
    ensures var headers := Head(reply)[..|Head(reply)| - 4];
            && |Head(reply)| >= 4
            && ContentLength(headers) == Some(|reply.content|)
            && HeaderValue(headers, "Content-Type") == Some(Strip(reply.contentType))
            && HeaderValue(headers, "Connection") == Some(if reply.close then "close" else "keep-alive")
  {
    hide Head, Strip, PyInt, StatusLine;
    LinesRead(reply);
    var fields := HeaderFields(reply.contentType, |reply.content|, !reply.close);
    assert ([StatusLine(reply.status)] + fields)[1..] == fields;
    TypeFound(reply.contentType, |reply.content|, !reply.close);
    LengthFound(reply.contentType, |reply.content|, !reply.close);
    ConnectionFound(reply.contentType, |reply.content|, !reply.close);
    PyIntOfPrint(|reply.content|);
  }

  /** A field with another name, whatever its value, is passed over. */
  lemma FieldSkipped(name: string, value: string, lines: seq<string>, wanted: string)
    requires ':' !in name && name != "" && !IsPySpace(name[0]) && !IsPySpace(name[|name| - 1])
    requires !SameIgnoringCase(name, wanted)
    ensures FieldValue([name + ": " + value] + lines, wanted) == FieldValue(lines, wanted)
  {
    var line := name + ": " + value;
    IndexOfAfter(name, ':', " " + value);
    assert line == name + [':'] + (" " + value);
    assert line[..|name|] == name;
    StripSpaceBefore(name);
    assert ([line] + lines)[1..] == lines;
  }

  lemma TypeFound(contentType: string, length: nat, keepAlive: bool)
    ensures FieldValue(HeaderFields(contentType, length, keepAlive), "Content-Type") == Some(Strip(contentType))
  {
    var line, name := "Content-Type: " + contentType, "Content-Type";
    IndexOfAfter(name, ':', " " + contentType);
    assert line == name + [':'] + (" " + contentType);
    assert line[..|name|] == name && line[|name| + 1..] == " " + contentType;
    StripSpaceBefore(name);
    assert (" " + contentType)[1..] == contentType;
    assert StripLeft(" " + contentType) == StripLeft(contentType);
  }

  lemma LengthFound(contentType: string, length: nat, keepAlive: bool)
    ensures FieldValue(HeaderFields(contentType, length, keepAlive), "Content-Length") == Some(Print(length))
  {
    hide FieldValue;
    var text := Print(length);
    assert IsDigit(text[0]) && IsDigit(text[|text| - 1]);
    var last := ["Connection: " + ConnectionToken(keepAlive)];
    assert "Content-Length" + ": " == "Content-Length: ";
    assert "Content-Type" + ": " == "Content-Type: ";
    FieldFound("Content-Length", text, last, "Content-Length");
    FieldSkipped("Content-Type", contentType, ["Content-Length: " + text] + last, "Content-Length");
    assert HeaderFields(contentType, length, keepAlive)
        == ["Content-Type: " + contentType] + (["Content-Length: " + text] + last);
  }

  lemma ConnectionFound(contentType: string, length: nat, keepAlive: bool)
    ensures FieldValue(HeaderFields(contentType, length, keepAlive), "Connection") == Some(ConnectionToken(keepAlive))
  {
    hide FieldValue;
    var text, token := Print(length), ConnectionToken(keepAlive);
    var last := ["Connection: " + token];
    assert "Content-Length" + ": " == "Content-Length: ";
    assert "Content-Type" + ": " == "Content-Type: ";
    assert "Connection" + ": " == "Connection: ";
    FieldFound("Connection", token, [], "Connection");
    assert last + [] == last;
    FieldSkipped("Content-Length", text, last, "Connection");
    FieldSkipped("Content-Type", contentType, ["Content-Length: " + text] + last, "Connection");
    assert HeaderFields(contentType, length, keepAlive)
        == ["Content-Type: " + contentType] + (["Content-Length: " + text] + last);
  }

  // ---------------------------------------------------------------- status_code

  function FirstWord(s: string): (w: string)
    ensures w <= s
  {
    if s == "" || IsPySpace(s[0]) then "" else [s[0]] + FirstWord(s[1..])
  }

  /** str.split() */
  function Words(s: string): seq<string>
    decreases |s|
  {
    StripLeftShortens(s);
    var t := StripLeft(s);
    if t == "" then [] else [FirstWord(t)] + Words(t[|FirstWord(t)|..])
  }

  lemma {:induction false} StripLeftShortens(s: string)
    ensures |StripLeft(s)| <= |s|
    ensures StripLeft(s) != "" ==> FirstWord(StripLeft(s)) != ""
  {
    if s == "" || !IsPySpace(s[0]) {
    } else {
      StripLeftShortens(s[1..]);
    }
  }

  function StatusCode(headers: string): Option<int> {
    var parts := Words(SplitLines(headers)[0]);
    if |parts| < 2 then None else PyInt(parts[1])
  }

  predicate IsWord(w: string) {
    w != "" && forall i :: 0 <= i < |w| ==> !IsPySpace(w[i])
  }

  lemma {:induction false} FirstWordIs(w: string, rest: string)
    requires forall i :: 0 <= i < |w| ==> !IsPySpace(w[i])
    ensures FirstWord(w + " " + rest) == w
  {
    var s := w + " " + rest;
    if w == "" {
    } else {
      assert s[1..] == w[1..] + " " + rest;
      FirstWordIs(w[1..], rest);
    }
  }

  lemma WordsAfter(w: string, rest: string)
    requires IsWord(w)
    ensures Words(w + " " + rest) == [w] + Words(rest)
  {
    var s := w + " " + rest;
    FirstWordIs(w, rest);
    assert s[|w|..] == " " + rest && (" " + rest)[1..] == rest;
    assert StripLeft(s) == s && StripLeft(" " + rest) == StripLeft(rest);
    StripLeftTwice(rest);
  }

  lemma {:induction false} StripLeftTwice(s: string)
    ensures StripLeft(StripLeft(s)) == StripLeft(s)
    ensures Words(" " + s) == Words(s)
  {
    assert (" " + s)[1..] == s;
    if s == "" || !IsPySpace(s[0]) {
    } else {
      StripLeftTwice(s[1..]);
    }
  }

  /** The client reads the number of the status. */
  lemma StatusRead(reply: Reply)
    requires OneLine(reply.contentType)
    ensures |Head(reply)| >= 4
    ensures StatusCode(Head(reply)[..|Head(reply)| - 4])
            == Some(match reply.status
                    case StatusOk => 200
                    case BadRequest400 => 400
                    case Forbidden403 => 403
                    case NotFound404 => 404
                    case MethodNotAllowed405 => 405
                    case HeadersTooLarge431 => 431
                    case InternalError500 => 500)
  {
    hide Head, StatusCode;
    CodeRead(reply);
  }

  lemma CodeRead(reply: Reply)
    requires OneLine(reply.contentType)
    ensures |Head(reply)| >= 4
    ensures StatusCode(Head(reply)[..|Head(reply)| - 4]) == Some(Code(reply.status))
  {
    hide Head, PyInt, Words, HeaderFields, Code, Reason;
    var code := Print(Code(reply.status));
    LinesRead(reply);
    assert forall i :: 0 <= i < |code| ==> IsDigit(code[i]);
    WordsAfter(code, Reason(reply.status));
    WordsAfter("HTTP/1.1", code + " " + Reason(reply.status));
    assert StatusLine(reply.status) == "HTTP/1.1" + " " + (code + " " + Reason(reply.status));
    PyIntOfPrint(Code(reply.status));
  }

  // ---------------------------------------------------------------- self-delimiting output

  /** The body follows the headers that announce it, or there is none to follow. */
  predicate SelfDelimiting(reply: Reply) {
    reply.sendBody || reply.content == ""
  }

  /** What the client makes of a reply's headers and whatever comes after them. */
  lemma DecodeAfterHead(reply: Reply, tail: string)
    requires OneLine(reply.contentType)
    ensures DecodeResponse(Head(reply) + tail)
            == if |tail| < |reply.content| then None
               else Some((Head(reply) + tail[..|reply.content|], tail[|reply.content|..]))
  {
    hide Head, ContentLength, HeaderValue, Strip;
    var head, data := Head(reply), Head(reply) + tail;
    HeadEnds(reply, tail);
    AnnouncementRead(reply);
    assert data[..|head| - 4] == head[..|head| - 4];
    if |tail| >= |reply.content| {
      assert data[..|head| + |reply.content|] == head + tail[..|reply.content|];
      assert data[|head| + |reply.content|..] == tail[|reply.content|..];
    }
  }

  lemma HeadEnds(reply: Reply, tail: string)
    requires OneLine(reply.contentType)
    ensures FindEnd(Head(reply) + tail) == Some(|Head(reply)|)
  {
    HeaderTextEnds(reply.status, reply.contentType, |reply.content|, !reply.close, tail);
  }

  /** Repeated receive_response until the stream is exhausted. */
  function ReadAll(wire: string): Option<seq<string>>
    decreases |wire|
  {
    if wire == "" then Some([])
    else
      match DecodeResponse(wire)
      case None => None
      case Some((response, rest)) =>
        match ReadAll(rest)
        case None => None
        case Some(more) => Some([response] + more)
  }

  predicate TypesAreOneLine(replies: seq<Reply>) {
    forall reply :: reply in replies ==> OneLine(reply.contentType)
  }

  function BytesOfAll(replies: seq<Reply>): seq<string> {
    if replies == [] then [] else [Bytes(replies[0])] + BytesOfAll(replies[1..])
  }

  /**
    The client reads back exactly the responses, in order and with nothing left over, if and
    only if every response is followed by the body it announces.
  */
  lemma {:induction false} ReadableExactly(replies: seq<Reply>)
    requires TypesAreOneLine(replies)
    ensures ReadAll(Flatten(replies)) == Some(BytesOfAll(replies))
            <==> forall i :: 0 <= i < |replies| ==> SelfDelimiting(replies[i])
  {
    hide Head, DecodeResponse, SelfDelimiting;
    if replies == [] {
    } else {
      var reply, rest := replies[0], replies[1..];
      ReadableExactly(rest);
      FirstRead(reply, Flatten(rest));
      assert forall i :: 0 < i < |replies| ==> replies[i] == rest[i - 1];
      if SelfDelimiting(reply) {
        var more := ReadAll(Flatten(rest));
        assert more.Some? ==> ([Bytes(reply)] + more.value)[1..] == more.value;
        assert ([Bytes(reply)] + BytesOfAll(rest))[1..] == BytesOfAll(rest);
      }
    }
  }

  /** The first response is read as itself exactly when it is self-delimiting. */
  lemma FirstRead(reply: Reply, rest: string)
    requires OneLine(reply.contentType)
    ensures Bytes(reply) != "" && Bytes(reply) + rest != ""
    ensures SelfDelimiting(reply) ==> DecodeResponse(Bytes(reply) + rest) == Some((Bytes(reply), rest))
    ensures !SelfDelimiting(reply) && DecodeResponse(Bytes(reply) + rest).Some? ==>
              DecodeResponse(Bytes(reply) + rest).value.0 != Bytes(reply)
  {
    hide Head, DecodeResponse;
    AnnouncementRead(reply);
    var head, body := Head(reply), if reply.sendBody then reply.content else "";
    Concat3(head, body, rest);
    DecodeAfterHead(reply, body + rest);
    if SelfDelimiting(reply) {
      assert (body + rest)[..|reply.content|] == body && (body + rest)[|reply.content|..] == rest;
    }
  }

  // ---------------------------------------------------------------- runs

  lemma ReplyTypeIsOneLine(msg: string, config: Config, root: string -> Entry, closing: bool)
    ensures OneLine(Respond(msg, config, root, closing).contentType)
  {
    hide MimeText, MimeType, ErrorPage, ParseRequest, Refusal, Lookup, WantsClose;
    forall mime ensures OneLine(MimeText(mime)) {
      MimeTextIsOneLine(mime);
    }
    RefusalIsHtml(msg, config);
  }

  lemma RefusalIsHtml(msg: string, config: Config)
    ensures var parsed := ParseRequest(CString(msg + [NUL]), config);
            parsed.Ok? && Refusal(parsed.value).Some? ==> Refusal(parsed.value).value.contentType == MimeText(Html)
  {
    hide MimeText, ErrorPage, ParseRequest;
  }

  lemma {:induction false} RunTypesAreOneLine(stream: string, config: Config, root: string -> Entry)
    ensures TypesAreOneLine(Serve(stream, config, root).replies)
    decreases |stream|
  {
    hide Respond, MimeText, ErrorPage, OneLine;
    MimeTextIsOneLine(Html);
    match FindEnd(stream[..Min(config.bufferSize, |stream|)])
    case Some(n) =>
      ReplyTypeIsOneLine(stream[..n], config, root, false);
      RunTypesAreOneLine(stream[n..], config, root);
    case None =>
  }

  lemma RepliesReadable(stream: string, config: Config, root: string -> Entry)
    ensures var run := Serve(stream, config, root);
            ReadAll(Wire(run)) == Some(BytesOfAll(run.replies))
            <==> forall i :: 0 <= i < |run.replies| ==> SelfDelimiting(run.replies[i])
  {
    hide Serve, SelfDelimiting, ReadAll, BytesOfAll, TypesAreOneLine;
    RunTypesAreOneLine(stream, config, root);
    ReadableExactly(Serve(stream, config, root).replies);
  }

  /** A request that passes every check, asks for the headers only, and leads to a file that is not empty. */
  predicate HeadOfContent(msg: string, config: Config, root: string -> Entry) {
    match ParseRequest(CString(msg + [NUL]), config)
    case Err(_) => false
    case Ok(r) =>
      && r.verb == "HEAD" && Refusal(r).None?
      && match Lookup(root, r.path)
         case Err(_) => false
         case Ok(content) => content != ""
  }

  /** Those are exactly the requests whose answer announces a body that does not follow. */
  lemma HeadOfContentExact(msg: string, config: Config, root: string -> Entry)
    ensures !SelfDelimiting(Respond(msg, config, root, false)) <==> HeadOfContent(msg, config, root)
  {
    hide ParseRequest, Lookup, MimeText, MimeType, ErrorPage, FramingText;
  }

  /**
    Over whole runs: from what the server puts on the wire the client reads back exactly the
    responses, if and only if none of the requests the server interprets is an acceptable HEAD
    request for a file that is not empty.
  */
  lemma OutputReadable(stream: string, config: Config, root: string -> Entry)
    ensures var run := Serve(stream, config, root);
            ReadAll(Wire(run)) == Some(BytesOfAll(run.replies))
            <==> forall k :: k in Starts(stream, 0, config, root) ==>
                   !HeadOfContent(RequestAt(stream, k), config, root)
  {
    hide Serve, Starts, Respond, RequestAt, SelfDelimiting, HeadOfContent, ReadAll, BytesOfAll, Wire, ErrorReply;
    assert stream[0..] == stream;
    RepliesReadable(stream, config, root);
    StartsOfRun(stream, 0, config, root);
    FullExactly(stream, config, root);
    DelimitedByRequests(Serve(stream, config, root), stream, Starts(stream, 0, config, root), config, root);
  }

  lemma DelimitedByRequests(run: Run, stream: string, starts: seq<nat>, config: Config, root: string -> Entry)
    requires |starts| == |run.replies| - (if run.exit == BufferFull then 1 else 0)
    requires forall i :: 0 <= i < |starts| ==>
               run.replies[i] == Respond(RequestAt(stream, starts[i]), config, root, false)
    requires run.exit == BufferFull ==>
               run.replies != [] && run.replies[|run.replies| - 1] == ErrorReply(HeadersTooLarge431, None)
    ensures (forall i :: 0 <= i < |run.replies| ==> SelfDelimiting(run.replies[i]))
            <==> forall k :: k in starts ==> !HeadOfContent(RequestAt(stream, k), config, root)
  {
    hide Respond, RequestAt, SelfDelimiting, HeadOfContent, ErrorReply;
    ErrorIsDelimited(HeadersTooLarge431);
    forall i | 0 <= i < |starts|
      ensures SelfDelimiting(run.replies[i]) <==> !HeadOfContent(RequestAt(stream, starts[i]), config, root)
    {
      HeadOfContentExact(RequestAt(stream, starts[i]), config, root);
    }
    if k :| k in starts && HeadOfContent(RequestAt(stream, k), config, root) {
      var i :| 0 <= i < |starts| && starts[i] == k;
      assert !SelfDelimiting(run.replies[i]);
    }
  }

  lemma ErrorIsDelimited(status: Status)
    ensures SelfDelimiting(ErrorReply(status, None))
  {
  }

  // ---------------------------------------------------------------- where it fails

  /** HEAD / HTTP/1.0, without fields. */
  const HEAD_ROOT: RequestText := RequestText("HEAD", [Plain('/')], None, "HTTP/1.0", [])

  lemma HeadRootFits(config: Config)
    ensures RequestFits(HEAD_ROOT, config)
    ensures RequestMeant(HEAD_ROOT) == Request("HEAD", "/", "", "HTTP/1.0", [])
  {
    hide Token;
    TokenExact("HEAD");
    assert IsToken("HEAD");
    assert WrittenAll(HEAD_ROOT.path) == "/" by {
      assert WrittenAll([Plain('/')]) == Written(Plain('/')) + WrittenAll([]);
    }
    assert PrintTarget(HEAD_ROOT) == "/";
    assert MeaningAll([Plain('/')]) == [Meaning(Plain('/'))] + MeaningAll([]);
  }

  lemma HeadRootAnswer(root: string -> Entry, content: Content)
    requires Resolve(root, ".") == Directory(Regular(content))
    ensures Decide(Request("HEAD", "/", "", "HTTP/1.0", []), root, false)
            == Reply(StatusOk, MimeText(MimeType("/")), content, false, true)
  {
    hide MimeText, MimeType, ErrorPage, FramingText;
    assert StripSlashes("/") == "" by {
      assert "/"[1..] == "";
    }
  }

  /**
    The output is not readable in every run: a lone HEAD of a root directory whose index is not
    empty is announced with the index's length and followed by nothing, so the client waits for
    octets that never come.
  */
  lemma HeadIsNotReadable(config: Config, root: string -> Entry, content: Content)
    requires config.bufferSize >= |PrintRequest(HEAD_ROOT)|
    requires Resolve(root, ".") == Directory(Regular(content)) && content != ""
    ensures var run := Serve(PrintRequest(HEAD_ROOT), config, root);
            |run.replies| == 1 && ReadAll(Wire(run)).None?
  {
    hide PrintRequest, ParseRequest, Decide, RequestFits, MimeText, MimeType, Head, DecodeResponse;
    var msg := PrintRequest(HEAD_ROOT);
    HeadRootFits(config);
    HeadRootAnswer(root, content);
    ParsePrintedRequest(HEAD_ROOT, "", config);
    assert msg + "" == msg && msg[..|msg|] == msg;
    MimeTextIsOneLine(MimeType("/"));
    HeadWaits(Reply(StatusOk, MimeText(MimeType("/")), content, false, true));
  }

  /** Headers alone, when a body was announced, leave the client without a response. */
  lemma HeadWaits(reply: Reply)
    requires OneLine(reply.contentType) && reply.content != "" && !reply.sendBody
    ensures ReadAll(Flatten([reply])).None?
  {
    hide Head, DecodeResponse;
    DecodeAfterHead(reply, "");
    AnnouncementRead(reply);
    assert Flatten([reply]) == Bytes(reply) + Flatten([]) == Head(reply) + "" + "" == Head(reply) + "";
  }
}
