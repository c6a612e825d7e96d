/**
  What goes on the wire: src/http_response.c as text. Responses are made and sent by the code
  in ResponseSender.
*/
module Responses {
  import opened Grammar
  import opened Wrappers
  import opened Text
  import opened Decimal
  import opened FileSystem

  /** http_status_t */
  datatype Status = StatusOk | BadRequest400 | Forbidden403 | NotFound404 | MethodNotAllowed405
                  | HeadersTooLarge431 | InternalError500

  function Code(status: Status): nat {
    match status
    case StatusOk => 200
    case BadRequest400 => 400
    case Forbidden403 => 403
    case NotFound404 => 404
    case MethodNotAllowed405 => 405
    case HeadersTooLarge431 => 431
    case InternalError500 => 500
  }

  /** http_status_reason */
  function Reason(status: Status): string {
    match status
    case StatusOk => "OK"
    case BadRequest400 => "Bad Request"
    case Forbidden403 => "Forbidden"
    case NotFound404 => "Not Found"
    case MethodNotAllowed405 => "Method Not Allowed"
    case HeadersTooLarge431 => "Request Header Fields Too Large"
    case InternalError500 => "Internal Server Error"
  }

  // ---------------------------------------------------------------- header section

  function StatusLine(status: Status): string {
    VersionAnd(Print(Code(status)), Reason(status))
  }

  function VersionAnd(code: string, reason: string): string {
    "HTTP/1.1 " + (code + " " + reason)
  }

  function ConnectionToken(keepAlive: bool): string {
    if keepAlive then "keep-alive" else "close"
  }

  function HeaderFields(contentType: string, length: nat, keepAlive: bool): seq<string> {
    ["Content-Type: " + contentType, "Content-Length: " + Print(length), "Connection: " + ConnectionToken(keepAlive)]
  }

  /** The text printed by http_build_response_headers. */
  function HeaderText(status: Status, contentType: string, length: nat, keepAlive: bool): string {
    Block([StatusLine(status)] + HeaderFields(contentType, length, keepAlive))
  }

  datatype Mime = Html | Css | JavaScript | Json | Png | Jpeg | Gif | Svg | PlainText | Binary

  function MimeText(mime: Mime): string {
    match mime
    case Html => "text/html"
    case Css => "text/css"
    case JavaScript => "application/javascript"
    case Json => "application/json"
    case Png => "image/png"
    case Jpeg => "image/jpeg"
    case Gif => "image/gif"
    case Svg => "image/svg+xml"
    case PlainText => "text/plain"
    case Binary => "application/octet-stream"
  }

  /** mime_type: by the part of the path from its last dot on. */
  function MimeType(path: string): Mime {
    var extension := Extension(path);
    if extension == ".html" || extension == ".htm" then Html
    else if extension == ".css" then Css
    else if extension == ".js" then JavaScript
    else if extension == ".json" then Json
    else if extension == ".png" then Png
    else if extension == ".jpg" || extension == ".jpeg" then Jpeg
    else if extension == ".gif" then Gif
    else if extension == ".svg" then Svg
    else if extension == ".txt" then PlainText
    else Binary
  }

  /** strrchr(path, '.'), as a string; empty for NULL. */
  function Extension(path: string): string {
    if path == "" then ""
    else if path[|path| - 1] == '.' then "."
    else
      var rest := Extension(path[..|path| - 1]);
      if rest == "" then "" else rest + [path[|path| - 1]]
  }

  /** The extension is what follows the last dot, and there is none without a dot. */
  lemma {:induction false} ExtensionExact(stem: string, name: string)
    requires '.' !in name
    ensures Extension(stem + "." + name) == "." + name
    ensures Extension(name) == ""
  {
    var path := stem + "." + name;
    if name == "" {
    } else {
      var init := name[..|name| - 1];
      ExtensionExact(stem, init);
      assert path[..|path| - 1] == stem + "." + init;
      assert "." + name == "." + init + [name[|name| - 1]];
    }
  }

  /** The type announced for the name after a path's last dot. */
  function TypeFor(name: string): string {
    if name == "html" || name == "htm" then "text/html"
    else if name == "css" then "text/css"
    else if name == "js" then "application/javascript"
    else if name == "json" then "application/json"
    else if name == "png" then "image/png"
    else if name == "jpg" || name == "jpeg" then "image/jpeg"
    else if name == "gif" then "image/gif"
    else if name == "svg" then "image/svg+xml"
    else if name == "txt" then "text/plain"
    else "application/octet-stream"
  }

  /** The same comparison with and without the dot. */
  lemma Dotted(name: string, dotted: string)
    requires dotted != "" && dotted[0] == '.'
    ensures "." + name == dotted <==> name == dotted[1..]
  {
    assert ("." + name)[1..] == name && dotted == "." + dotted[1..];
  }

  lemma DottedShort(name: string)
    ensures "." + name == ".js" <==> name == "js"
    ensures "." + name == ".css" <==> name == "css"
    ensures "." + name == ".png" <==> name == "png"
    ensures "." + name == ".jpg" <==> name == "jpg"
    ensures "." + name == ".gif" <==> name == "gif"
    ensures "." + name == ".svg" <==> name == "svg"
    ensures "." + name == ".txt" <==> name == "txt"
    ensures "." + name == ".htm" <==> name == "htm"
  {
    Dotted(name, ".js");
    Dotted(name, ".css");
    Dotted(name, ".png");
    Dotted(name, ".jpg");
    Dotted(name, ".gif");
    Dotted(name, ".svg");
    Dotted(name, ".txt");
    Dotted(name, ".htm");
  }

  lemma DottedLong(name: string)
    ensures "." + name == ".html" <==> name == "html"
    ensures "." + name == ".json" <==> name == "json"
    ensures "." + name == ".jpeg" <==> name == "jpeg"
  {
    Dotted(name, ".html");
    Dotted(name, ".json");
    Dotted(name, ".jpeg");
  }

  /** What is announced, by the name after the path's last dot. */
  lemma MimeTypeExact(stem: string, name: string)
    requires '.' !in name
    ensures MimeText(MimeType(stem + "." + name)) == TypeFor(name)
    ensures MimeText(MimeType(name)) == "application/octet-stream"
  {
    hide Extension;
    ExtensionExact(stem, name);
    DottedShort(name);
    DottedLong(name);
  }

  /** No control character, so no line break and no NUL. */
  predicate OneLine(s: string) {
    forall i :: 0 <= i < |s| ==> s[i] >= ' '
  }

  lemma MimeTextIsShort(mime: Mime)
    ensures |MimeText(mime)| <= 24
  {
  }

  lemma MimeTextIsOneLine(mime: Mime)
    ensures OneLine(MimeText(mime))
  {
  }

  lemma ReasonIsShort(status: Status)
    ensures |Reason(status)| <= 31
  {
  }

  lemma ReasonIsOneLine(status: Status)
    ensures OneLine(Reason(status))
  {
    LongReasonIsOneLine();
    if status != HeadersTooLarge431 {
      assert OneLine(Reason(status));
    }
  }

  lemma LongReasonIsOneLine()
    ensures OneLine(Reason(HeadersTooLarge431))
  {
  }

  lemma CodeIsShort(status: Status)
    ensures |Print(Code(status))| <= 3
  {
    assert Pow10(3) == 1000 by {
      assert Pow10(1) == 10 && Pow10(2) == 100;
    }
    PrintLength(Code(status), 3);
  }

  lemma PrintIsOneLine(n: nat)
    ensures OneLine(Print(n))
  {
    assert forall i :: 0 <= i < |Print(n)| ==> IsDigit(Print(n)[i]);
  }

  lemma SizePrintsShort(size: nat)
    requires size <= OFF_MAX
    ensures |Print(size)| <= 19
  {
    assert size < Pow10(19) by {
      assert Pow10(5) == 100_000 by {
        assert Pow10(2) == 100;
      }
      assert Pow10(10) == 10_000_000_000 by {
        assert Pow10(7) == 10_000_000;
      }
      assert Pow10(15) == 1_000_000_000_000_000 by {
        assert Pow10(12) == 1_000_000_000_000;
      }
      assert Pow10(17) == 100_000_000_000_000_000;
    }
    PrintLength(size, 19);
  }

  /** The printed header section always fits the 1024-octet array, for every size up to 2^63-1. */
  lemma HeadersFit(status: Status, contentType: string, size: nat, keepAlive: bool)
    requires |contentType| <= 24 && size <= 9_223_372_036_854_775_807
    ensures |HeaderText(status, contentType, size, keepAlive)| < 1024 == HTTP_RESPONSE_HEADER_MAX
  {
    ReasonIsShort(status);
    CodeIsShort(status);
    SizePrintsShort(size);
    BlockLength(StatusLine(status), HeaderFields(contentType, size, keepAlive));
  }

  const HTTP_RESPONSE_HEADER_MAX := 1024

  lemma BlockLength(line: string, fields: seq<string>)
    requires |fields| == 3
    ensures |Block([line] + fields)| == |line| + |fields[0]| + |fields[1]| + |fields[2]| + 10
  {
    var all := [line] + fields;
    assert all[1..] == fields && fields[1..][1..][1..] == [];
    assert Block(all) == line + CRLF + Block(fields);
    assert Block(fields) == fields[0] + CRLF + Block(fields[1..]);
    assert Block(fields[1..]) == fields[1] + CRLF + Block(fields[1..][1..]);
    assert Block(fields[1..][1..]) == fields[2] + CRLF + Block([]);
  }

  lemma OneLinePieces(a: string, b: string)
    requires OneLine(a) && OneLine(b)
    ensures OneLine(a + b) && NoCrlf(a + b)
  {
  }

  lemma StatusLineIsClean(status: Status)
    ensures NoCrlf(StatusLine(status))
  {
    ReasonIsOneLine(status);
    PrintIsOneLine(Code(status));
    VersionAndIsClean(Print(Code(status)), Reason(status));
  }

  lemma VersionAndIsClean(code: string, reason: string)
    requires OneLine(code) && OneLine(reason)
    ensures NoCrlf(VersionAnd(code, reason))
  {
    OneLinePieces(code, " ");
    OneLinePieces(code + " ", reason);
    OneLinePieces("HTTP/1.1 ", code + " " + reason);
  }

  lemma HeaderFieldsAreClean(contentType: string, length: nat, keepAlive: bool)
    requires OneLine(contentType)
    ensures CleanLines(HeaderFields(contentType, length, keepAlive))
  {
    PrintIsOneLine(length);
    OneLinePieces("Content-Type: ", contentType);
    OneLinePieces("Content-Length: ", Print(length));
    OneLinePieces("Connection: ", ConnectionToken(keepAlive));
  }

  /** The header section ends where it was printed to end: no earlier, and whatever follows. */
  lemma HeaderTextEnds(status: Status, contentType: string, length: nat, keepAlive: bool, rest: string)
    requires OneLine(contentType)
    ensures FindEnd(HeaderText(status, contentType, length, keepAlive) + rest)
            == Some(|HeaderText(status, contentType, length, keepAlive)|)
  {
    StatusLineIsClean(status);
    HeaderFieldsAreClean(contentType, length, keepAlive);
    EndOfBlock(StatusLine(status), HeaderFields(contentType, length, keepAlive), rest);
  }

  // ---------------------------------------------------------------- the octets, literally

  /** The codes in use, as they are written (section 15 of RFC 9110, section 5 of RFC 6585). */
  function CodeText(status: Status): string {
    match status
    case StatusOk => "200"
    case BadRequest400 => "400"
    case Forbidden403 => "403"
    case NotFound404 => "404"
    case MethodNotAllowed405 => "405"
    case HeadersTooLarge431 => "431"
    case InternalError500 => "500"
  }

  /** And the phrases those sections give them. */
  function Phrase(status: Status): string {
    match status
    case StatusOk => "OK"
    case BadRequest400 => "Bad Request"
    case Forbidden403 => "Forbidden"
    case NotFound404 => "Not Found"
    case MethodNotAllowed405 => "Method Not Allowed"
    case HeadersTooLarge431 => "Request Header Fields Too Large"
    case InternalError500 => "Internal Server Error"
  }

  /** A last digit is printed after what is printed without it. */
  lemma NextDigit(n: nat, d: nat)
    requires n > 0 && d < 10
    ensures Print(10 * n + d) == Print(n) + [Digit(d)]
  {
    hide Digit;
    assert (10 * n + d) / 10 == n && (10 * n + d) % 10 == d;
  }

  lemma OneDigit(d: nat)
    requires d < 10
    ensures Print(d) == [Digit(d)]
  {
  }

  lemma ThreeDigits(a: nat, b: nat, c: nat)
    requires 0 < a < 10 && b < 10 && c < 10
    ensures Print(100 * a + 10 * b + c) == [Digit(a)] + [Digit(b)] + [Digit(c)]
  {
    hide *;
    OneDigit(a);
    NextDigit(a, b);
    NextDigit(10 * a + b, c);
    assert 10 * (10 * a + b) + c == 100 * a + 10 * b + c;
  }

  lemma CodeExact(status: Status)
    ensures Print(Code(status)) == CodeText(status)
  {
    hide Print;
    match status
    case StatusOk => ThreeDigits(2, 0, 0);
    case BadRequest400 => ThreeDigits(4, 0, 0);
    case Forbidden403 => ThreeDigits(4, 0, 3);
    case NotFound404 => ThreeDigits(4, 0, 4);
    case MethodNotAllowed405 => ThreeDigits(4, 0, 5);
    case HeadersTooLarge431 => ThreeDigits(4, 3, 1);
    case InternalError500 => ThreeDigits(5, 0, 0);
  }

  lemma PhraseExact(status: Status)
    ensures Reason(status) == Phrase(status)
  {
  }

  /** What http_build_response_headers prints, octet by octet. */
  lemma HeaderTextExact(status: Status, contentType: string, length: nat, keepAlive: bool)
    ensures HeaderText(status, contentType, length, keepAlive)
            == "HTTP/1.1 " + (CodeText(status) + " " + Phrase(status)) + "\r\n"
               + ("Content-Type: " + contentType + "\r\n"
                  + ("Content-Length: " + Print(length) + "\r\n"
                     + ("Connection: " + (if keepAlive then "keep-alive" else "close") + "\r\n" + "\r\n")))
  {
    hide CodeText, Phrase, Reason, Code, Print;
    CodeExact(status);
    PhraseExact(status);
    var fields := HeaderFields(contentType, length, keepAlive);
    var all := [StatusLine(status)] + fields;
    assert all[1..] == fields && fields[1..][1..][1..] == [];
    assert Block(all) == StatusLine(status) + CRLF + Block(fields);
    assert Block(fields) == fields[0] + CRLF + Block(fields[1..]);
    assert Block(fields[1..]) == fields[1] + CRLF + Block(fields[1..][1..]);
    assert Block(fields[1..][1..]) == fields[2] + CRLF + CRLF;
  }

  // ---------------------------------------------------------------- replies

  /** A response: what is announced, and whether the content follows the headers. */
  datatype Reply = Reply(status: Status, contentType: string, content: Content, sendBody: bool, close: bool)

  function Head(reply: Reply): string {
    HeaderText(reply.status, reply.contentType, |reply.content|, !reply.close)
  }

  function Bytes(reply: Reply): string {
    Head(reply) + if reply.sendBody then reply.content else ""
  }

  /** The page that both error emitters spell out for each status, around its title. */
  function Page(title: string): string {
    "<html><body><h1>" + title + "</h1></body></html>"
  }

  /** The titles of http_response_prepare_error's pages. */
  function ErrorTitle(status: Status): (title: string)
    ensures |title| <= 35
  {
    match status
    case StatusOk => ""
    case BadRequest400 => "400 Bad Request"
    case Forbidden403 => "403 Forbidden"
    case NotFound404 => "404 Not Found"
    case MethodNotAllowed405 => "405 Method Not Allowed"
    case HeadersTooLarge431 => "431 Request Header Fields Too Large"
    case InternalError500 => "500 Internal Server Error"
  }

  function ErrorPage(status: Status): Content {
    Page(ErrorTitle(status))
  }

  /** The titles of http_send_error's pages, a table of its own. */
  function DirectTitle(status: Status): (title: string)
    ensures |title| <= 35
  {
    match status
    case BadRequest400 => "400 Bad Request"
    case Forbidden403 => "403 Forbidden"
    case NotFound404 => "404 Not Found"
    case MethodNotAllowed405 => "405 Method Not Allowed"
    case HeadersTooLarge431 => "431 Request Header Fields Too Large"
    case InternalError500 => "500 Internal Server Error"
    case StatusOk => ""
  }

  function DirectPage(status: Status): Content {
    Page(DirectTitle(status))
  }

  function ErrorReply(status: Status, message: Option<Content>): Reply {
    Reply(status, MimeText(Html), if message.Some? then message.value else ErrorPage(status), true, true)
  }

  /** The error pages, literally; the direct table's are the same by EmittersAgree. */
  lemma ErrorPageExact(status: Status)
    requires status != StatusOk
    ensures ErrorPage(status) == "<html><body><h1>" + (CodeText(status) + " " + Phrase(status)) + "</h1></body></html>"
  {
    TitleExact(status);
  }

  lemma TitleExact(status: Status)
    requires status != StatusOk
    ensures ErrorTitle(status) == CodeText(status) + " " + Phrase(status)
  {
    match status
    case MethodNotAllowed405 => Title405();
    case HeadersTooLarge431 => Title431();
    case InternalError500 => Title500();
    case _ =>
  }

  lemma Title405()
    ensures "405 Method Not Allowed" == "405" + " " + "Method Not Allowed"
  {
  }

  lemma Title431()
    ensures "431 Request Header Fields Too Large" == "431" + " " + "Request Header Fields Too Large"
  {
  }

  lemma Title500()
    ensures "500 Internal Server Error" == "500" + " " + "Internal Server Error"
  {
  }

  /** What http_send_error sends. */
  function DirectReply(status: Status, keepAlive: bool): Reply {
    Reply(status, MimeText(Html), DirectPage(status), true, !keepAlive)
  }

  /** The two tables of pages agree, so both emitters stand for the same reply. */
  lemma EmittersAgree(status: Status)
    ensures DirectReply(status, false) == ErrorReply(status, None)
  {
    hide Page, MimeText;
    assert DirectTitle(status) == ErrorTitle(status);
  }
}
