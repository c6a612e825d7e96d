/**
  The code of src/http_response.c: the response record, filled in place, and the loops that
  move it onto the wire through partial sends.
*/
module ResponseSender {
  import opened Wrappers
  import opened Text
  import opened Transport
  import opened FileSystem
  import opened Responses

  /** snprintf: as much of `text` as fits, then a NUL. */
  method Snprintf(buffer: array<char>, text: string) returns (length: nat)
    requires buffer.Length > 0
    modifies buffer
    ensures length == |text|
    ensures |text| < buffer.Length ==> buffer[..|text|] == text && buffer[|text|] == NUL
  {
    var n := Min(|text|, buffer.Length - 1);
    for i := 0 to n
      invariant buffer[..i] == text[..i]
    {
      buffer[i] := text[i];
    }
    buffer[n] := NUL;
    return |text|;
  }

  /** The header section can be printed, with the NUL that follows it, in so many octets. */
  predicate Printable(capacity: nat, status: Status, contentType: string, length: int, keepAlive: bool) {
    length >= 0 && |HeaderText(status, contentType, length, keepAlive)| < capacity
  }

  /** http_build_response_headers */
  method BuildResponseHeaders(
    buffer: array<char>, status: Status, contentType: string, contentLength: int, keepAlive: bool)
    returns (length: int)
    modifies buffer
    ensures length >= -1
    ensures length >= 0 <==> Printable(buffer.Length, status, contentType, contentLength, keepAlive)
    ensures length >= 0 ==>
              var text := HeaderText(status, contentType, contentLength, keepAlive);
              length == |text| && buffer[..length] == text
  {
    if buffer.Length == 0 || contentLength < 0 {
      return -1;
    }
    var printed := Snprintf(buffer, HeaderText(status, contentType, contentLength, keepAlive));
    if printed >= buffer.Length {
      return -1;
    }
    return printed;
  }

  // ---------------------------------------------------------------- direct errors

  /** http_send_response: nothing is sent when the header section cannot be printed. */
  method SendResponse(socket: Socket, status: Status, contentType: string, contentLength: int, keepAlive: bool)
    returns (result: int)
    modifies socket`wire, socket`sendPlan
    ensures result == 0 || result == -1
    ensures Printable(1024, status, contentType, contentLength, keepAlive) ==>
              var text := HeaderText(status, contentType, contentLength, keepAlive);
              && old(socket.wire) <= socket.wire <= old(socket.wire) + text
              && (result == 0 ==> socket.wire == old(socket.wire) + text)
              && (old(socket.CleanSends()) ==> result == 0)
    ensures !Printable(1024, status, contentType, contentLength, keepAlive) ==>
              result == -1 && socket.wire == old(socket.wire)
    ensures old(socket.CleanSends()) ==> socket.CleanSends()
  {
    hide HeaderText;
    var response := new char[1024];
    var length := BuildResponseHeaders(response, status, contentType, contentLength, keepAlive);
    if length < 0 {
      return -1;
    }
    var sent := IoSendAll(socket, response[..length]);
    if sent < 0 || sent != length {
      return -1;
    }
    return 0;
  }

  /** http_send_error */
  method SendError(socket: Socket, status: Status, keepAlive: bool) returns (result: int)
    modifies socket`wire, socket`sendPlan
    ensures result == 0 || result == -1
    ensures status == StatusOk ==> result == -1 && socket.wire == old(socket.wire)
    ensures status != StatusOk ==>
              var reply := DirectReply(status, keepAlive);
              && old(socket.wire) <= socket.wire <= old(socket.wire) + Bytes(reply)
              && (result == 0 ==> socket.wire == old(socket.wire) + Bytes(reply))
              && (old(socket.CleanSends()) ==> socket.CleanSends() && result == 0)
  {
    if status == StatusOk {
      return -1;
    }
    result := SendPage(socket, status, DirectPage(status), keepAlive);
  }

  /** The two sends of http_send_error: headers, then the page. */
  method SendPage(socket: Socket, status: Status, page: Content, keepAlive: bool) returns (result: int)
    modifies socket`wire, socket`sendPlan
    ensures var reply := Reply(status, MimeText(Html), page, true, !keepAlive);
            && (result == 0 || result == -1)
            && old(socket.wire) <= socket.wire <= old(socket.wire) + Bytes(reply)
            && (result == 0 ==> socket.wire == old(socket.wire) + Bytes(reply))
            && (old(socket.CleanSends()) ==> socket.CleanSends() && result == 0)
  {
    hide HeaderText, MimeText;
    ghost var before := socket.wire;
    MimeTextIsShort(Html);
    HeadersFit(status, MimeText(Html), |page|, keepAlive);
    result := SendResponse(socket, status, MimeText(Html), |page|, keepAlive);
    SumAssociates(before, HeaderText(status, MimeText(Html), |page|, keepAlive), page);
    if result < 0 {
      return -1;
    }
    var sent := IoSendAll(socket, page);
    if sent < 0 || sent != |page| {
      return -1;
    }
    assert page[..sent] == page;
    return 0;
  }

  lemma SumAssociates(a: string, b: string, c: string)
    ensures a + b + c == a + (b + c)
    ensures a + b <= a + (b + c)
  {
    assert a + b + c == a + (b + c);
  }

  // ---------------------------------------------------------------- prepared responses

  /** http_response_t. The ghost `file` is the content behind `fileFd`. */
  class Response {
    const headers: array<char>
    var headersLength: nat
    var headersSent: nat
    var body: string
    var bodyLength: nat
    var bodySent: nat
    var fileFd: int
    var fileSize: nat
    var fileOffset: nat
    var sendBody: bool
    var complete: bool
    ghost var file: string

    constructor ()
      ensures fresh(headers) && headers.Length == HTTP_RESPONSE_HEADER_MAX
      ensures fileFd == -1
    {
      headers := new char[HTTP_RESPONSE_HEADER_MAX];
      headersLength, headersSent, body, bodyLength, bodySent := 0, 0, "", 0, 0;
      fileFd, fileSize, fileOffset, sendBody, complete, file := -1, 0, 0, false, false, "";
    }

    ghost predicate Valid()
      reads this
    {
      && headers.Length == HTTP_RESPONSE_HEADER_MAX
      && headersSent <= headersLength <= headers.Length
      && bodySent <= bodyLength == |body|
      && fileOffset <= fileSize == |file|
      && (fileFd < 0 ==> file == "")
      && (bodySent > 0 || fileOffset > 0 ==> headersSent == headersLength && sendBody)
      && (fileOffset > 0 ==> bodySent == bodyLength)
      && (complete ==> headersSent == headersLength && (sendBody ==> bodySent == bodyLength && fileOffset == fileSize))
    }

    /** The octets this response is to put on the wire. */
    ghost function Payload(): string
      requires Valid()
      reads this, headers
    {
      headers[..headersLength] + if sendBody then body + file else ""
    }

    /** The octets that have gone out, by the three cursors. */
    ghost function Emitted(): string
      requires Valid()
      reads this, headers
    {
      headers[..headersSent] + (body[..bodySent] + file[..fileOffset])
    }

    ghost predicate AllSent()
      reads this
    {
      headersSent == headersLength && (sendBody ==> bodySent == bodyLength && fileOffset == fileSize)
    }

    /**
      What has gone out is the prefix of the payload as long as the sum of the cursors: no octet
      is skipped or repeated, and the whole payload is out exactly when no loop has work left.
    */
    lemma EmittedIsPrefix()
      requires Valid()
      ensures Emitted() <= Payload() && |Emitted()| == headersSent + bodySent + fileOffset
      ensures AllSent() <==> Emitted() == Payload()
    {
      if bodySent > 0 || fileOffset > 0 {
        assert body[..bodySent] + file[..fileOffset] <= body + file;
      } else {
        assert Emitted() == headers[..headersSent];
        assert headers[..headersSent] <= headers[..headersLength];
      }
    }

    ghost predicate FileIsOpen(kernel: Kernel)
      reads this, kernel
    {
      fileFd >= 0 ==> fileFd in kernel.open && kernel.open[fileFd].Regular? && kernel.open[fileFd].content == file
    }

    /** Nothing sent yet, and the payload is the reply's. */
    ghost predicate Holds(reply: Reply)
      reads this, headers
    {
      && Valid() && headersSent == bodySent == fileOffset == 0 && !complete
      && headers[..headersLength] == Head(reply)
      && sendBody == reply.sendBody && (sendBody ==> body + file == reply.content)
    }

    /** Every field but the descriptor and the array is zero. */
    ghost predicate Cleared()
      reads this
    {
      && headersLength == headersSent == 0
      && body == "" && bodyLength == bodySent == 0
      && file == "" && fileSize == fileOffset == 0
      && !sendBody && !complete
    }

    /** http_response_init */
    method Init()
      requires headers.Length == HTTP_RESPONSE_HEADER_MAX
      modifies this, headers
      ensures Valid() && Cleared() && fileFd == -1
      ensures forall i :: 0 <= i < headers.Length ==> headers[i] == NUL
    {
      forall i | 0 <= i < headers.Length {
        headers[i] := NUL;
      }
      headersLength, headersSent, body, bodyLength, bodySent := 0, 0, "", 0, 0;
      fileFd, fileSize, fileOffset, sendBody, complete, file := -1, 0, 0, false, false, "";
    }

    /** http_response_destroy */
    method Destroy(kernel: Kernel)
      requires kernel.Valid() && FileIsOpen(kernel)
      modifies this, kernel`open
      ensures kernel.Valid() && Cleared() && fileFd == if old(fileFd) >= 0 then -1 else old(fileFd)
      ensures kernel.open == if old(fileFd) >= 0 then old(kernel.open) - {old(fileFd)} else old(kernel.open)
    {
      if fileFd >= 0 {
        kernel.Close(fileFd);
        fileFd := -1;
      }
      headersLength, headersSent, body, bodyLength, bodySent := 0, 0, "", 0, 0;
      fileSize, fileOffset, sendBody, complete, file := 0, 0, false, false, "";
    }

    /** http_response_prepare_error: the file is not touched. */
    method PrepareError(status: Status, message: Option<Content>) returns (result: int)
      requires headers.Length == HTTP_RESPONSE_HEADER_MAX
      modifies `headersLength, `headersSent, `body, `bodyLength, `bodySent, `sendBody, `complete, headers
      ensures result == if status == StatusOk then -1 else 0
      ensures result == -1 ==> unchanged(this) && unchanged(headers)
      ensures result == 0 ==> PageIsReady(ErrorReply(status, message))
    {
      hide Page, HeaderText;
      if status == StatusOk {
        return -1;
      }
      var content := ErrorPage(status);
      if message.Some? {
        content := message.value;
      }
      SetBody(content);
      MimeTextIsShort(Html);
      PrintHeaders(status, MimeText(Html), |content|, false);
      sendBody, complete := true, false;
      return 0;
    }

    /** The reply is printed and stored, and none of it is sent. */
    ghost predicate PageIsReady(reply: Reply)
      reads this, headers
    {
      && headersSent == 0 <= headersLength <= headers.Length && headers[..headersLength] == Head(reply)
      && body == reply.content && bodyLength == |body| && bodySent == 0
      && sendBody == reply.sendBody && !complete
    }

    /** On a response without a file that is all there is to send. */
    lemma ReadyWithoutFile(reply: Reply)
      requires headers.Length == HTTP_RESPONSE_HEADER_MAX && fileFd == -1 && fileSize == fileOffset == 0 && file == ""
      requires PageIsReady(reply)
      ensures Holds(reply)
    {
      hide Head;
      AppendNothing(body);
    }

    /** http_response_set_body */
    method SetBody(content: string)
      modifies `body, `bodyLength, `bodySent
      ensures body == content && bodyLength == |content| && bodySent == 0
    {
      body, bodyLength, bodySent := content, |content|, 0;
    }

    /** The header section is printed into `headers`; it always fits. */
    method PrintHeaders(status: Status, contentType: string, size: nat, keepAlive: bool)
      requires headers.Length == HTTP_RESPONSE_HEADER_MAX && |contentType| <= 24 && size <= OFF_MAX
      modifies `headersLength, `headersSent, headers
      ensures headersSent == 0 <= headersLength <= headers.Length
      ensures headers[..headersLength] == HeaderText(status, contentType, size, keepAlive)
    {
      HeadersFit(status, contentType, size, keepAlive);
      var length := BuildResponseHeaders(headers, status, contentType, size, keepAlive);
      headersLength, headersSent := length, 0;
    }

    /** The first loop of http_response_send_blocking. */
    method SendHeaders(socket: Socket) returns (ok: bool)
      requires headersSent <= headersLength <= headers.Length
      modifies `headersSent, socket`wire, socket`sendPlan
      ensures old(headersSent) <= headersSent <= headersLength
      ensures socket.wire == old(socket.wire) + headers[old(headersSent)..headersSent]
      ensures ok <==> headersSent == headersLength
      ensures old(socket.CleanSends()) ==> socket.CleanSends() && ok
    {
      ghost var start, before := headersSent, socket.wire;
      while headersSent < headersLength
        invariant start <= headersSent <= headersLength
        invariant socket.wire == before + headers[start..headersSent]
        invariant old(socket.CleanSends()) ==> socket.CleanSends()
        decreases headersLength - headersSent, |socket.sendPlan|
      {
        var r := socket.Send(headers[headersSent..headersLength]);
        match r
        case SendEintr =>
        case SendBroken => return false;
        case Sent(count) =>
          if count == 0 {
            return false;
          }
          SliceGrows(before, headers[..], start, headersSent, headersLength, count);
          headersSent := headersSent + count;
      }
      return true;
    }

    /** The second loop. */
    method SendBodyText(socket: Socket) returns (ok: bool)
      requires bodySent <= bodyLength == |body|
      modifies `bodySent, socket`wire, socket`sendPlan
      ensures old(bodySent) <= bodySent <= bodyLength
      ensures socket.wire == old(socket.wire) + body[old(bodySent)..bodySent]
      ensures ok <==> bodySent == bodyLength
      ensures old(socket.CleanSends()) ==> socket.CleanSends() && ok
    {
      ghost var start, before := bodySent, socket.wire;
      while bodySent < bodyLength
        invariant start <= bodySent <= bodyLength
        invariant socket.wire == before + body[start..bodySent]
        invariant old(socket.CleanSends()) ==> socket.CleanSends()
        decreases bodyLength - bodySent, |socket.sendPlan|
      {
        var r := socket.Send(body[bodySent..bodyLength]);
        match r
        case SendEintr =>
        case SendBroken => return false;
        case Sent(count) =>
          if count == 0 {
            return false;
          }
          SliceGrows(before, body, start, bodySent, bodyLength, count);
          bodySent := bodySent + count;
      }
      return true;
    }

    /** The third loop: sendfile moves the file offset itself. */
    method SendFile(socket: Socket, kernel: Kernel) returns (ok: bool)
      requires fileOffset <= fileSize == |file|
      requires FileIsOpen(kernel) && fileFd >= 0
      modifies `fileOffset, socket`wire, socket`sendPlan
      ensures old(fileOffset) <= fileOffset <= fileSize
      ensures socket.wire == old(socket.wire) + file[old(fileOffset)..fileOffset]
      ensures ok <==> fileOffset == fileSize
      ensures old(socket.CleanSends()) ==> socket.CleanSends() && ok
    {
      var content: string := kernel.open[fileFd].content;
      ghost var start, before := fileOffset, socket.wire;
      while fileOffset < fileSize
        invariant start <= fileOffset <= fileSize
        invariant socket.wire == before + content[start..fileOffset]
        invariant old(socket.CleanSends()) ==> socket.CleanSends()
        decreases fileSize - fileOffset, |socket.sendPlan|
      {
        var r := socket.Send(content[fileOffset..fileSize]);
        match r
        case SendEintr =>
        case SendBroken => return false;
        case Sent(count) =>
          if count == 0 {
            return false;
          }
          SliceGrows(before, content, start, fileOffset, fileSize, count);
          fileOffset := fileOffset + count;
      }
      return true;
    }

    /**
      http_response_send_blocking. `base` is what was on the wire before this response. It may
      be called again after a failure: whatever was sent before stays sent, nothing is repeated
      or skipped, and it succeeds exactly when the last octet has gone out. A complete response
      is refused.
    */
    method SendBlocking(socket: Socket, kernel: Kernel, ghost base: string) returns (result: int)
      requires Valid() && FileIsOpen(kernel) && socket.wire == base + Emitted()
      modifies `headersSent, `bodySent, `fileOffset, `complete, socket`wire, socket`sendPlan
      ensures Valid() && socket.wire == base + Emitted()
      ensures old(complete) ==> result == -1 && complete && socket.wire == old(socket.wire)
      ensures !old(complete) ==> (result == if complete then 0 else -1) && (complete <==> AllSent())
      ensures old(socket.CleanSends()) ==> socket.CleanSends() && complete
    {
      if complete {
        return -1;
      }
      ghost var sent, later := headersSent, body[..bodySent] + file[..fileOffset];
      var ok := SendHeaders(socket);
      GrowHeaders(base, headers[..], sent, headersSent, later);
      if !ok {
        return -1;
      }
      if !sendBody {
        complete := true;
        return 0;
      }
      sent, later := bodySent, file[..fileOffset];
      ok := SendBodyText(socket);
      GrowBody(base, headers[..headersSent], body, sent, bodySent, later);
      if !ok {
        return -1;
      }
      if fileFd >= 0 {
        sent := fileOffset;
        ok := SendFile(socket, kernel);
        GrowFile(base, headers[..headersSent], body[..bodySent], file, sent, fileOffset);
        if !ok {
          return -1;
        }
      }
      complete := true;
      return 0;
    }
  }

  lemma AppendNothing(s: string)
    ensures s + "" == s
  {
  }

  lemma SliceGrows(base: string, s: string, start: nat, i: nat, end: nat, count: nat)
    requires start <= i <= i + count <= end <= |s|
    ensures base + s[start..i] + s[i..end][..count] == base + s[start..i + count]
  {
    Concat3(base, s[start..i], s[i..end][..count]);
    assert s[start..i] + s[i..end][..count] == s[start..i + count];
  }

  /** Each loop's octets land right after those already out, because of the order of the loops. */
  lemma GrowHeaders(base: string, h: string, from: nat, to: nat, later: string)
    requires from <= to <= |h| && (from < to ==> later == "")
    ensures base + (h[..from] + later) + h[from..to] == base + (h[..to] + later)
  {
    assert h[..from] + h[from..to] == h[..to];
  }

  lemma GrowBody(base: string, h: string, b: string, from: nat, to: nat, later: string)
    requires from <= to <= |b| && (from < to ==> later == "")
    ensures base + (h + (b[..from] + later)) + b[from..to] == base + (h + (b[..to] + later))
  {
    assert b[..from] + b[from..to] == b[..to];
  }

  lemma GrowFile(base: string, h: string, b: string, f: string, from: nat, to: nat)
    requires from <= to <= |f|
    ensures base + (h + (b + f[..from])) + f[from..to] == base + (h + (b + f[..to]))
  {
    assert f[..from] + f[from..to] == f[..to];
    assert base + (h + (b + f[..from])) + f[from..to] == base + (h + (b + (f[..from] + f[from..to])));
  }
}
