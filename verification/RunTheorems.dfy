/**
  What holds of every run: when the connection closes, when the buffer is full, what the limits
  and the rest of the stream can change, and where the server takes a request to begin.
*/
module RunTheorems {
  import opened Wrappers
  import opened Text
  import opened Transport
  import opened RequestSyntax
  import opened ParserTheorems
  import opened BodyFraming
  import opened FileSystem
  import opened Responses
  import opened Http
  import opened Runs

  // ---------------------------------------------------------------- closing

  /**
    Close discipline: every response is announced as keep-alive except the last of a run that
    the server ends, so the announcement always tells whether the server goes on to read or
    serve another request; and every response but a 200 is such a last one.
  */
  lemma {:induction false} CloseDiscipline(stream: string, config: Config, root: string -> Entry)
    ensures var run := Serve(stream, config, root);
            && (run.exit != EndOfInput ==> run.replies != [])
            && forall i :: 0 <= i < |run.replies| ==>
                 && (run.replies[i].close <==> i == |run.replies| - 1 && run.exit != EndOfInput)
                 && (run.replies[i].status != StatusOk ==> run.replies[i].close)
    decreases |stream|
  {
    hide Respond, ErrorPage;
    match FindEnd(stream[..Min(config.bufferSize, |stream|)])
    case Some(n) =>
      OnlyOkKeepsOpen(stream[..n], config, root, false);
      CloseDiscipline(stream[n..], config, root);
    case None =>
  }

  // ---------------------------------------------------------------- capacity

  /**
    Unless a response closed the connection first, the run ends with a full buffer exactly when
    the first `bufferSize` octets not yet answered hold no complete header section, and at the
    end of input exactly when fewer are left and they hold none. A full buffer is answered with a
    431 page, the last response of the run.
  */
  lemma {:induction false} FullExactly(stream: string, config: Config, root: string -> Entry)
    ensures var run := Serve(stream, config, root);
            var rest := stream[run.consumed..];
            && (run.exit == BufferFull <==>
                  && run.exit != Closed && |rest| >= config.bufferSize
                  && FindEnd(rest[..config.bufferSize]).None?)
            && (run.exit == EndOfInput <==>
                  run.exit != Closed && |rest| < config.bufferSize && FindEnd(rest).None?)
            && (run.exit == BufferFull ==>
                  run.replies != [] && run.replies[|run.replies| - 1] == ErrorReply(HeadersTooLarge431, None))
    decreases |stream|
  {
    hide Respond, ErrorReply;
    match FindEnd(stream[..Min(config.bufferSize, |stream|)])
    case Some(n) =>
      var reply := Respond(stream[..n], config, root, false);
      if !reply.close {
        FullExactly(stream[n..], config, root);
        assert stream[n..][Serve(stream[n..], config, root).consumed..]
            == stream[Serve(stream, config, root).consumed..];
      }
    case None =>
      assert stream[0..] == stream;
      assert |stream| < config.bufferSize ==> stream[..|stream|] == stream;
  }

  // ---------------------------------------------------------------- limits

  /** `looser` allows at least as much as `tighter`, the buffer included. */
  predicate Allows(tighter: Config, looser: Config) {
    LimitsAtMost(tighter, looser) && tighter.bufferSize <= looser.bufferSize
  }

  lemma RespondMonotone(msg: string, a: Config, b: Config, root: string -> Entry)
    requires LimitsAtMost(a, b)
    ensures Respond(msg, a, root, false).status == HeadersTooLarge431
            || Respond(msg, b, root, false) == Respond(msg, a, root, false)
  {
    hide ParseRequest, ErrorPage, Decide, MimeText;
    LimitsMonotone(CString(msg + [NUL]), a, b);
  }

  lemma WindowMonotone(stream: string, small: nat, large: nat)
    requires small <= large
    ensures var end := FindEnd(stream[..Min(small, |stream|)]);
            && (end.Some? ==> FindEnd(stream[..Min(large, |stream|)]) == end)
            && (end.None? && |stream| < small ==> FindEnd(stream[..Min(large, |stream|)]).None?)
  {
    var window := stream[..Min(large, |stream|)];
    assert window[..Min(small, |stream|)] == stream[..Min(small, |stream|)];
    FindEndOfPrefix(window, Min(small, |stream|));
  }

  /** All of the first run, or all of it but a last 431, is the beginning of the second. */
  predicate SameUpTo431(tighter: Run, looser: Run) {
    var last := |tighter.replies| - 1;
    tighter == looser
    || (&& tighter.replies != [] && tighter.replies[last].status == HeadersTooLarge431
        && tighter.replies[..last] <= looser.replies)
  }

  lemma PrependSameUpTo431(reply: Reply, n: nat, tighter: Run, looser: Run)
    requires SameUpTo431(tighter, looser)
    ensures SameUpTo431(Prepend([reply], n, tighter), Prepend([reply], n, looser))
  {
    var last := |tighter.replies| - 1;
    if tighter != looser {
      assert ([reply] + tighter.replies)[..last + 1] == [reply] + tighter.replies[..last];
    }
  }

  /**
    The only thing a limit can do to a run is to end it with a 431: with a larger buffer, or
    more or longer header fields allowed, a run that was not ended that way is the same run, and
    one that was gives the same responses before its 431.
  */
  lemma {:induction false} RaisingLimits(stream: string, a: Config, b: Config, root: string -> Entry)
    requires Allows(a, b)
    ensures SameUpTo431(Serve(stream, a, root), Serve(stream, b, root))
    decreases |stream|
  {
    hide Respond, ErrorPage, SameUpTo431;
    WindowMonotone(stream, a.bufferSize, b.bufferSize);
    match FindEnd(stream[..Min(a.bufferSize, |stream|)])
    case Some(n) =>
      var reply := Respond(stream[..n], a, root, false);
      RespondMonotone(stream[..n], a, b, root);
      OnlyOkKeepsOpen(stream[..n], a, root, false);
      RunsAreSame(Serve(stream, a, root), Serve(stream, b, root));
      if !reply.close {
        RaisingLimits(stream[n..], a, b, root);
        PrependSameUpTo431(reply, n, Serve(stream[n..], a, root), Serve(stream[n..], b, root));
      }
    case None =>
      RunsAreSame(Serve(stream, a, root), Serve(stream, b, root));
  }

  lemma RunsAreSame(tighter: Run, looser: Run)
    ensures tighter == looser ==> SameUpTo431(tighter, looser)
    ensures |tighter.replies| == 1 && tighter.replies[0].status == HeadersTooLarge431 ==> SameUpTo431(tighter, looser)
  {
  }

  // ---------------------------------------------------------------- later input

  /** Where the input ended, the run goes on with what is left and what comes later. */
  function GoOn(run: Run, stream: string, later: string, config: Config, root: string -> Entry): Run
    requires run.consumed <= |stream|
  {
    if run.exit != EndOfInput then run
    else Prepend(run.replies, run.consumed, Serve(stream[run.consumed..] + later, config, root))
  }

  lemma PrependGoOn(
    reply: Reply, n: nat, run: Run, stream: string, later: string, config: Config, root: string -> Entry)
    requires n <= |stream| && run.consumed <= |stream[n..]|
    ensures Prepend([reply], n, GoOn(run, stream[n..], later, config, root))
            == GoOn(Prepend([reply], n, run), stream, later, config, root)
  {
    hide Serve;
    assert stream[n..][run.consumed..] == stream[n + run.consumed..];
    PrependTwice([reply], n, run.replies, run.consumed, Serve(stream[n + run.consumed..] + later, config, root));
  }

  /** Octets that arrive later never change what has been answered. */
  lemma {:induction false} LaterInput(stream: string, later: string, config: Config, root: string -> Entry)
    ensures Serve(stream + later, config, root)
            == GoOn(Serve(stream, config, root), stream, later, config, root)
    decreases |stream|
  {
    hide Respond, ErrorReply, GoOn;
    var m := Min(config.bufferSize, |stream|);
    match FindEnd(stream[..m])
    case Some(n) =>
      LaterRequest(stream, later, config, root);
      var reply := Respond(stream[..n], config, root, false);
      if reply.close {
        GoOnEnds(Run([reply], n, Closed), stream, later, config, root);
      } else {
        LaterInput(stream[n..], later, config, root);
        PrependGoOn(reply, n, Serve(stream[n..], config, root), stream, later, config, root);
      }
    case None =>
      GoOnEnds(Serve(stream, config, root), stream, later, config, root);
      if |stream| >= config.bufferSize {
        assert (stream + later)[..config.bufferSize] == stream[..m];
      }
  }

  lemma GoOnEnds(run: Run, stream: string, later: string, config: Config, root: string -> Entry)
    requires run.consumed <= |stream|
    ensures run.exit != EndOfInput ==> GoOn(run, stream, later, config, root) == run
    ensures run == Run([], 0, EndOfInput) ==>
              GoOn(run, stream, later, config, root) == Serve(stream + later, config, root)
  {
    hide Serve;
    assert stream[0..] == stream;
    PrependNothing(Serve(stream + later, config, root));
  }

  lemma LaterRequest(stream: string, later: string, config: Config, root: string -> Entry)
    requires FindEnd(stream[..Min(config.bufferSize, |stream|)]).Some?
    ensures var n := FindEnd(stream[..Min(config.bufferSize, |stream|)]).value;
            var reply := Respond(stream[..n], config, root, false);
            Serve(stream + later, config, root)
            == if reply.close then Run([reply], n, Closed)
               else Prepend([reply], n, Serve(stream[n..] + later, config, root))
  {
    hide Respond, Serve;
    var m := Min(config.bufferSize, |stream|);
    var held, rest := stream[..m], stream[m..] + later;
    var n := FindEnd(held).value;
    assert stream + later == held + rest;
    ServeRequest(held, rest, config, root);
    assert held[..n] == stream[..n] && held[n..] + rest == stream[n..] + later;
  }

  // ---------------------------------------------------------------- message boundaries

  /** A header field by section 5 of RFC 9112, with no limit on its size. */
  function RfcField(line: string): Option<Header> {
    match IndexOf(line, ':')
    case None => None
    case Some(colon) =>
      var name, value := line[..colon], Trim(line[colon + 1..]);
      if IsToken(name) && IsFieldValue(value) then Some(Header(name, value)) else None
  }

  function RfcFields(lines: seq<string>): Option<seq<Header>> {
    if lines == [] then Some([])
    else
      match (RfcField(lines[0]), RfcFields(lines[1..]))
      case (Some(h), Some(hs)) => Some([h] + hs)
      case _ => None
  }

  /** The length of the message at the start of a stream: header section and body. */
  function MessageLength(stream: string): Option<nat> {
    match FindEnd(stream)
    case None => None
    case Some(n) =>
      FindEndStable(stream, "");
      match RfcFields(FieldLines(stream[..n]))
      case None => None
      case Some(hs) =>
        match RfcBodyLength(hs)
        case None => None
        case Some(length) => Some(n + length)
  }

  /** `k` octets into the stream a message begins, counting messages from the start. */
  ghost predicate Boundary(stream: string, k: nat)
    decreases |stream|
  {
    k == 0
    || match MessageLength(stream)
       case None => false
       case Some(m) => 0 < m <= k && m <= |stream| && Boundary(stream[m..], k - m)
  }

  lemma {:induction false} NextBoundary(stream: string, k: nat, m: nat)
    requires k <= |stream| && Boundary(stream, k)
    requires MessageLength(stream[k..]) == Some(m) && 0 < m && k + m <= |stream|
    ensures Boundary(stream, k + m)
    decreases |stream|
  {
    hide MessageLength;
    if k == 0 {
      assert stream[0..] == stream;
      assert Boundary(stream[m..], 0);
    } else {
      var first := MessageLength(stream).value;
      assert stream[first..][k - first..] == stream[k..];
      NextBoundary(stream[first..], k - first, m);
    }
  }

  /** Where in `stream`, from `base` on, the server starts to interpret a request. */
  function Starts(stream: string, base: nat, config: Config, root: string -> Entry): seq<nat>
    requires base <= |stream|
    decreases |stream| - base
  {
    var rest := stream[base..];
    match FindEnd(rest[..Min(config.bufferSize, |rest|)])
    case None => []
    case Some(n) =>
      if Respond(rest[..n], config, root, false).close then [base]
      else [base] + Starts(stream, base + n, config, root)
  }

  /** A field the parser accepts is a field of the RFC, with the same name and value. */
  lemma {:induction false} AcceptedFieldsAreRfc(lines: seq<string>, index: nat, config: Config)
    requires ParseLines(lines, index, config).Ok?
    ensures RfcFields(lines) == Some(ParseLines(lines, index, config).value)
  {
    if lines == [] {
    } else {
      AcceptedFieldsAreRfc(lines[1..], index + 1, config);
    }
  }

  lemma {:induction false} AcceptedValuesAreTrimmed(lines: seq<string>, index: nat, config: Config)
    requires ParseLines(lines, index, config).Ok?
    ensures TrimmedValues(ParseLines(lines, index, config).value)
  {
    if lines == [] {
    } else {
      FieldIsWellFormed(lines[0], config);
      AcceptedValuesAreTrimmed(lines[1..], index + 1, config);
    }
  }

  /** A request that does not close the connection has an empty body by the RFC. */
  lemma KeptOpenHasNoBody(msg: string, config: Config, root: string -> Entry)
    requires Framed(msg) && !Respond(msg, config, root, false).close
    ensures RfcFields(FieldLines(msg)).Some?
    ensures RfcBodyLength(RfcFields(FieldLines(msg)).value) == Some(0)
  {
    hide MimeText, ErrorPage, RfcBodyLength, FramingOf, Select, ParseLines, RfcFields, ParseStart, Lookup;
    FramerParserAgree(msg, config);
    NoNul(msg);
    var lines := FieldLines(msg);
    AcceptedFieldsAreRfc(lines, 0, config);
    AcceptedValuesAreTrimmed(lines, 0, config);
    NoBodyExactly(ParseLines(lines, 0, config).value);
  }

  /**
    Message-boundary soundness: every offset at which the server starts to interpret a request
    is one at which, by section 6.3 of RFC 9112, a message begins.
  */
  lemma {:induction false} StartsAreBoundaries(stream: string, base: nat, config: Config, root: string -> Entry)
    requires base <= |stream| && Boundary(stream, base)
    ensures forall k :: k in Starts(stream, base, config, root) ==> Boundary(stream, k)
    decreases |stream| - base
  {
    hide Respond, Boundary, MessageLength;
    var rest := stream[base..];
    var window := rest[..Min(config.bufferSize, |rest|)];
    if FindEnd(window).None? {
    } else {
      var n := FindEnd(window).value;
      if !Respond(rest[..n], config, root, false).close {
        KeptOpenIsMessage(rest, Min(config.bufferSize, |rest|), config, root);
        NextBoundary(stream, base, n);
        StartsAreBoundaries(stream, base + n, config, root);
      }
    }
  }

  lemma KeptOpenIsMessage(rest: string, m: nat, config: Config, root: string -> Entry)
    requires m <= |rest| && FindEnd(rest[..m]).Some?
    requires !Respond(rest[..FindEnd(rest[..m]).value], config, root, false).close
    ensures MessageLength(rest) == Some(FindEnd(rest[..m]).value)
  {
    hide Respond, RfcBodyLength, RfcFields;
    var n := FindEnd(rest[..m]).value;
    FindEndOfPrefix(rest, m);
    FindEndStable(rest, "");
    KeptOpenHasNoBody(rest[..n], config, root);
  }

  /** The framed request at an offset of a stream, or nothing. */
  function RequestAt(stream: string, base: nat): string {
    if base > |stream| then ""
    else match FindEnd(stream[base..]) case None => "" case Some(n) => stream[base..][..n]
  }

  /**
    And these are the offsets: each response of a run, but a final 431 for a full buffer, answers
    the request at one of them, in order.
  */
  lemma {:induction false} StartsOfRun(stream: string, base: nat, config: Config, root: string -> Entry)
    requires base <= |stream|
    ensures var run, starts := Serve(stream[base..], config, root), Starts(stream, base, config, root);
            && |starts| == |run.replies| - (if run.exit == BufferFull then 1 else 0)
            && forall i :: 0 <= i < |starts| ==>
                 run.replies[i] == Respond(RequestAt(stream, starts[i]), config, root, false)
    decreases |stream| - base
  {
    hide Respond, ErrorReply, Serve, RequestAt;
    var rest := stream[base..];
    var m := Min(config.bufferSize, |rest|);
    var end := FindEnd(rest[..m]);
    ServeStep(rest, config, root);
    if end.None? {
    } else {
      RequestIsInWindow(stream, base, m);
      if !Respond(rest[..end.value], config, root, false).close {
        assert rest[end.value..] == stream[base + end.value..];
        StartsOfRun(stream, base + end.value, config, root);
      }
    }
  }

  lemma RequestIsInWindow(stream: string, base: nat, m: nat)
    requires base <= |stream| && m <= |stream[base..]| && FindEnd(stream[base..][..m]).Some?
    ensures RequestAt(stream, base) == stream[base..][..FindEnd(stream[base..][..m]).value]
  {
    FindEndOfPrefix(stream[base..], m);
  }

  lemma ServeStep(stream: string, config: Config, root: string -> Entry)
    ensures var run, end := Serve(stream, config, root), FindEnd(stream[..Min(config.bufferSize, |stream|)]);
            && (end.None? ==> |run.replies| == if run.exit == BufferFull then 1 else 0)
            && (end.Some? && Respond(stream[..end.value], config, root, false).close ==>
                  run.replies == [Respond(stream[..end.value], config, root, false)] && run.exit == Closed)
            && (end.Some? && !Respond(stream[..end.value], config, root, false).close ==>
                  var tail := Serve(stream[end.value..], config, root);
                  && run.replies == [Respond(stream[..end.value], config, root, false)] + tail.replies
                  && run.exit == tail.exit)
  {
    hide Respond, ErrorReply;
  }
}
