/**
  What the parser's answers mean: it agrees with the framer on where a request ends, it reads
  back every printed request, its buffers never overflow, and its limits are monotone.
*/
module ParserTheorems {
  import opened Grammar
  import opened Wrappers
  import opened Text
  import opened PercentCoding
  import opened RequestSyntax

  // ---------------------------------------------------------------- framer and parser

  /** On complete lines the header loop never meets a missing CRLF. */
  lemma {:induction false} ParseFieldsOfBlock(lines: seq<string>, rest: string, index: nat, config: Config)
    requires CleanLines(lines)
    ensures ParseFields(Block(lines) + rest, index, config) == ParseLines(lines, index, config)
  {
    var s := Block(lines) + rest;
    if lines == [] {
      assert CrlfAt(s, 0);
    } else {
      var line, tail := lines[0], Block(lines[1..]) + rest;
      assert s == line + CRLF + tail;
      CrlfAfterLine(line, tail, 0);
      FirstCrlfAfterLine(line, tail);
      assert s[..|line|] == line && s[|line| + 2..] == tail;
      ParseFieldsOfBlock(lines[1..], rest, index + 1, config);
    }
  }

  /** A list of lines is accepted exactly when it is short enough and each line is a field. */
  lemma {:induction false} ParseLinesExact(lines: seq<string>, index: nat, config: Config)
    ensures ParseLines(lines, index, config).Ok?
            <==> (lines == [] || index + |lines| <= config.maxHeaders)
                 && forall i :: 0 <= i < |lines| ==> ParseField(lines[i], config).Ok?
    ensures ParseLines(lines, index, config).Ok? ==>
              var hs := ParseLines(lines, index, config).value;
              |hs| == |lines| && forall i :: 0 <= i < |lines| ==> ParseField(lines[i], config) == Ok(hs[i])
  {
    if lines == [] {
    } else {
      ParseLinesExact(lines[1..], index + 1, config);
      assert forall i :: 0 < i < |lines| ==> lines[i] == lines[1..][i - 1];
    }
  }

  /** The header loop accepts only at an empty line. */
  lemma {:induction false} AcceptedHasEnd(s: string, p: nat, index: nat, config: Config)
    requires 2 <= p <= |s| && CrlfAt(s, p - 2)
    requires ParseFields(s[p..], index, config).Ok?
    ensures FindEnd(s).Some?
    decreases |s| - p
  {
    var step := NextStep(s[p..], index, config);
    if step.Finished? {
      assert BlankLineAt(s, p - 2);
    } else {
      assert CrlfAt(s[p..], step.length - 2);
      assert s[p..][step.length..] == s[p + step.length..];
      AcceptedHasEnd(s, p + step.length, index + 1, config);
    }
  }

  lemma AcceptedIsFramed(s: string, config: Config)
    requires ParseRequest(s, config).Ok?
    ensures FindEnd(s).Some?
  {
    AcceptedHasEnd(s, FindCrlf(s).value + 2, 0, config);
  }

  /** A NUL anywhere in a framed request is refused. */
  lemma NulIsRefused(msg: string, config: Config)
    requires Framed(msg) && NUL in msg
    ensures ParseRequest(CString(msg + [NUL]), config).Err?
  {
    var s := CString(msg + [NUL]);
    var k :| 0 <= k < |msg| && msg[k] == NUL;
    assert (msg + [NUL])[k] == NUL;
    assert forall j :: 0 <= j < |s| ==> (msg + [NUL])[j] == s[j] != NUL;
    assert s == msg[..|s|];
    FindEndOfPrefix(msg, |s|);
    if ParseRequest(s, config).Ok? {
      AcceptedIsFramed(s, config);
    }
  }

  lemma NoNul(msg: string)
    requires NUL !in msg
    ensures IsCString(msg + [NUL]) && CString(msg + [NUL]) == msg
  {
    CStringUnique(msg + [NUL], msg);
  }

  /**
    On a buffer cut by the framer the parser sees every CRLF-delimited line once, in order,
    and ends at the empty line the framer found: the header fields are those of the field
    lines, and a request that holds a NUL is never accepted.
  */
  lemma FramerParserAgree(msg: string, config: Config)
    requires Framed(msg)
    ensures var r := ParseRequest(CString(msg + [NUL]), config);
            && (r.Ok? ==>
                  && NUL !in msg
                  && |r.value.headers| == |FieldLines(msg)|
                  && forall i :: 0 <= i < |FieldLines(msg)| ==>
                       ParseField(FieldLines(msg)[i], config) == Ok(r.value.headers[i]))
    ensures NUL !in msg ==>
              ParseHeaderSection(msg, 0, config) == ParseLines(FieldLines(msg), 0, config)
  {
    if NUL in msg {
      NulIsRefused(msg, config);
    } else {
      NoNul(msg);
      SectionOfFramed(msg, config);
      ParseLinesExact(FieldLines(msg), 0, config);
    }
  }

  lemma SectionOfFramed(msg: string, config: Config)
    requires Framed(msg)
    ensures ParseHeaderSection(msg, 0, config) == ParseLines(FieldLines(msg), 0, config)
  {
    FramedIsBlock(msg);
    SectionOfBlock(FirstLine(msg), FieldLines(msg), config);
  }

  lemma SectionOfBlock(line: string, lines: seq<string>, config: Config)
    requires NoCrlf(line) && CleanLines(lines)
    ensures FindCrlf(Block([line] + lines)) == Some(|line|)
    ensures Block([line] + lines)[..|line|] == line
    ensures ParseHeaderSection(Block([line] + lines), 0, config) == ParseLines(lines, 0, config)
  {
    var msg, rest := Block([line] + lines), Block(lines);
    assert ([line] + lines)[1..] == lines;
    assert msg == line + CRLF + rest;
    FirstCrlfAfterLine(line, rest);
    assert msg[|line| + 2..] == rest == Block(lines) + "";
    ParseFieldsOfBlock(lines, "", 0, config);
  }

  /** A request given by its lines, none of which holds a NUL, is parsed line by line. */
  lemma RequestOfBlock(line: string, lines: seq<string>, config: Config)
    requires NoCrlf(line) && CleanLines(lines) && NUL !in Block([line] + lines)
    ensures var msg := Block([line] + lines);
            var first := ParseRequestLine(line);
            ParseRequest(CString(msg + [NUL]), config)
            == Combine(if first.None? then None else StartOf(first.value), ParseLines(lines, 0, config))
  {
    NoNul(Block([line] + lines));
    SectionOfBlock(line, lines, config);
  }

  /** The header loop's pointer, when it accepts a framed request, is at the empty line. */
  lemma CursorAtEnd(msg: string, cursor: nat)
    requires Framed(msg) && BlankLineAt(CString(msg + [NUL]), cursor - 2)
    ensures cursor == |msg| - 2
  {
    var s := CString(msg + [NUL]);
    assert BlankLineAt(msg, cursor - 2) by {
      assert forall i :: 0 <= i < |s| && i < |msg| ==> s[i] == msg[i];
    }
  }

  // ---------------------------------------------------------------- request line and target

  /** A token, a target and a version without spaces, each inside its buffer of 16, 4096 and 16 octets. */
  predicate LineFits(l: RequestLine) {
    && Token(l.verb) && |l.verb| < 16
    && ' ' !in l.target && 0 < |l.target| < 4096
    && ' ' !in l.version && 0 < |l.version| < 16
  }

  /** A request line is accepted exactly when it is three such parts with single spaces between. */
  lemma RequestLineExact(line: string, l: RequestLine)
    ensures ParseRequestLine(line) == Some(l)
            <==> line == l.verb + " " + (l.target + " " + l.version) && LineFits(l)
  {
    hide ParseRequestLine, LineFits;
    if ParseRequestLine(line) == Some(l) {
      ReadIntoParts(line, l);
    }
    if line == l.verb + " " + (l.target + " " + l.version) && LineFits(l) {
      PartsAreRead(l);
    }
  }

  lemma ReadIntoParts(line: string, l: RequestLine)
    requires ParseRequestLine(line) == Some(l)
    ensures line == l.verb + " " + (l.target + " " + l.version) && LineFits(l)
  {
    hide Token, IsToken;
    TokenExact(l.verb);
    var a := IndexOf(line, ' ').value;
    var rest := line[a + 1..];
    var b := IndexOf(rest, ' ').value;
    assert line == l.verb + " " + rest && rest == l.target + " " + l.version;
  }

  lemma PartsAreRead(l: RequestLine)
    requires LineFits(l)
    ensures ParseRequestLine(l.verb + " " + (l.target + " " + l.version)) == Some(l)
  {
    var rest := l.target + " " + l.version;
    var line := l.verb + " " + rest;
    TokenExact(l.verb);
    IndexOfAfter(l.verb, ' ', rest);
    IndexOfAfter(l.target, ' ', l.version);
    assert line[..|l.verb|] == l.verb && line[|l.verb| + 1..] == rest;
    assert rest[..|l.target|] == l.target && rest[|l.target| + 1..] == l.version;
  }

  /**
    For a target that fits the request line's buffer, the size checks of http_parse_target and
    the capacity check of http_decode_path can never fail: only an empty raw path, a missing
    leading slash or a bad triplet can.
  */
  lemma TargetLimitsUnreachable(target: string)
    requires |target| < 4096
    ensures var raw := SplitTarget(target);
            ParseTarget(target)
            == if raw.path == "" || raw.path[0] != '/' || Decode(raw.path).None? then None
               else Some(Target(Decode(raw.path).value, raw.query))
  {
  }

  // ---------------------------------------------------------------- buffer sizes

  lemma StartFits(s: string)
    requires ParseStart(s).Some?
    ensures var start := ParseStart(s).value;
            && IsToken(start.verb) && |start.verb| < METHOD_SIZE && |start.version| < VERSION_SIZE
            && |start.path| < PATH_SIZE && |start.query| < QUERY_SIZE
  {
  }

  /** Everything a valid configuration lets through fits the fixed arrays of http_request_t, with its NUL. */
  lemma AcceptedFits(msg: string, config: Config)
    requires ValidConfig(config) && Framed(msg) && ParseRequest(CString(msg + [NUL]), config).Ok?
    ensures var r := ParseRequest(CString(msg + [NUL]), config).value;
            && |r.verb| < 16 && |r.version| < 16 && |r.path| < 4096 && |r.query| < 4096
            && |r.headers| <= 64
            && forall i :: 0 <= i < |r.headers| ==> |r.headers[i].name| < 128 && |r.headers[i].value| < 4096
  {
    var s := CString(msg + [NUL]);
    StartFits(s);
    FramerParserAgree(msg, config);
    NoNul(msg);
    var hs := ParseRequest(s, config).value.headers;
    ParseLinesExact(FieldLines(msg), 0, config);
    forall i | 0 <= i < |hs| ensures |hs[i].name| < 128 && |hs[i].value| < 4096 {
      FieldIsWellFormed(FieldLines(msg)[i], config);
    }
  }

  /** A parsed field has a token for a name and a field value of the standard, which is trimmed. */
  lemma FieldIsWellFormed(line: string, config: Config)
    requires ParseField(line, config).Ok?
    ensures var h := ParseField(line, config).value;
            && Token(h.name) && FieldContent(h.value) && |h.name| < config.nameMax && |h.value| < config.valueMax
            && IsToken(h.name) && IsFieldValue(h.value) && Trimmed(h.value)
  {
    hide Token, FieldContent, IsToken, IsFieldValue, Trimmed;
    TokenExact(line[..IndexOf(line, ':').value]);
    FieldContentExact(Trim(line[IndexOf(line, ':').value + 1..]));
    TrimIsTrimmed(line[IndexOf(line, ':').value + 1..]);
  }

  // ---------------------------------------------------------------- exceeded limits

  /** A field with a token for a name that is too long, or with a token and a field value that is. */
  predicate FieldTooLarge(line: string, config: Config) {
    match IndexOf(line, ':')
    case None => false
    case Some(colon) =>
      var name, value := line[..colon], Trim(line[colon + 1..]);
      Token(name) && (|name| >= config.nameMax || (FieldContent(value) && |value| >= config.valueMax))
  }

  lemma FieldTooLargeExact(line: string, config: Config)
    ensures ParseField(line, config) == Err(HeadersTooLarge) <==> FieldTooLarge(line, config)
  {
    hide Trim, Token, FieldContent, IsFieldValue, Trimmed;
    match IndexOf(line, ':')
    case None =>
    case Some(colon) =>
      TokenExact(line[..colon]);
      FieldContentExact(Trim(line[colon + 1..]));
      TrimIsTrimmed(line[colon + 1..]);
  }

  /**
    The lines before the `i`-th are fields, and there a limit is exceeded: that of the number of
    fields, by whatever stands there but the end of the section, or that of the line's own size.
  */
  ghost predicate LimitAt(lines: seq<string>, ended: bool, i: nat, index: nat, config: Config) {
    && i <= |lines| && (i == |lines| ==> !ended)
    && (forall j :: 0 <= j < i ==> ParseField(lines[j], config).Ok?)
    && (index + i >= config.maxHeaders || (i < |lines| && FieldTooLarge(lines[i], config)))
  }

  ghost predicate SomeLimit(lines: seq<string>, ended: bool, index: nat, config: Config) {
    exists i: nat :: LimitAt(lines, ended, i, index, config)
  }

  /** Nothing but its number and its size can make the first of some lines exceed a limit. */
  lemma LimitAtFirst(lines: seq<string>, ended: bool, index: nat, config: Config)
    requires lines != [] && ParseField(lines[0], config).Err?
    ensures SomeLimit(lines, ended, index, config)
            <==> index >= config.maxHeaders || FieldTooLarge(lines[0], config)
  {
    hide ParseField, FieldTooLarge;
    if index >= config.maxHeaders || FieldTooLarge(lines[0], config) {
      assert LimitAt(lines, ended, 0, index, config);
    }
  }

  lemma LimitAtNext(lines: seq<string>, ended: bool, index: nat, config: Config)
    requires lines != [] && ParseField(lines[0], config).Ok? && index < config.maxHeaders
    ensures SomeLimit(lines, ended, index, config) <==> SomeLimit(lines[1..], ended, index + 1, config)
  {
    hide ParseField, FieldTooLarge;
    FieldTooLargeExact(lines[0], config);
    if i: nat :| LimitAt(lines, ended, i, index, config) {
      assert i > 0;
      assert forall j :: 0 <= j < i - 1 ==> lines[1..][j] == lines[j + 1];
      assert LimitAt(lines[1..], ended, i - 1, index + 1, config);
    }
    var tail, next := lines[1..], index + 1;
    if i: nat :| LimitAt(tail, ended, i, next, config) {
      assert forall j :: 0 < j < i + 1 ==> lines[j] == tail[j - 1];
      assert LimitAt(lines, ended, i + 1, index, config);
    }
  }

  /**
    The header loop, after a line that is already read, reports an exceeded limit exactly when
    one is exceeded at some line and every line before it is a field.
  */
  lemma {:induction false} TooLargeExact(line: string, rest: string, index: nat, config: Config)
    requires NoCrlf(line)
    ensures ParseFields(rest, index, config) == Err(HeadersTooLarge)
            <==> SomeLimit(Lines(rest), FindEnd(line + CRLF + rest).Some?, index, config)
    decreases |rest|
  {
    hide ParseField, FieldTooLarge, SomeLimit, ParseFields, Lines;
    EndAfterLine(line, rest);
    var ended := FindEnd(line + CRLF + rest).Some?;
    if CrlfAt(rest, 0) {
      FieldsAtEnd(rest, index, config);
      NoLimitAtEnd(index, config);
    } else if FindCrlf(rest).None? {
      FieldsWithoutLine(rest, index, config);
      LimitWithoutLine(index, config);
    } else {
      var e := FindCrlf(rest).value;
      var next, more := rest[..e], rest[e + 2..];
      FieldsAfterLine(rest, index, config);
      if index >= config.maxHeaders {
        LimitHere(Lines(rest), ended, index, config);
      } else if ParseField(next, config).Err? {
        FieldTooLargeExact(next, config);
        LimitAtFirst(Lines(rest), ended, index, config);
      } else {
        TooLargeExact(next, more, index + 1, config);
        LimitAtNext(Lines(rest), ended, index, config);
      }
    }
  }

  lemma FieldsAtEnd(s: string, index: nat, config: Config)
    requires CrlfAt(s, 0)
    ensures ParseFields(s, index, config) == Ok([]) && Lines(s) == []
  {
  }

  lemma FieldsWithoutLine(s: string, index: nat, config: Config)
    requires FindCrlf(s).None?
    ensures ParseFields(s, index, config) == Err(if index >= config.maxHeaders then HeadersTooLarge else BadRequest)
    ensures Lines(s) == []
  {
  }

  /** One turn of the header loop at a line, beside one step of cutting the text into lines. */
  lemma FieldsAfterLine(s: string, index: nat, config: Config)
    requires !CrlfAt(s, 0) && FindCrlf(s).Some?
    ensures var e := FindCrlf(s).value;
            var line, rest := s[..e], s[e + 2..];
            && NoCrlf(line) && s == line + CRLF + rest
            && Lines(s) == [line] + Lines(rest) && Lines(s)[1..] == Lines(rest)
            && ParseFields(s, index, config)
               == if index >= config.maxHeaders then Err(HeadersTooLarge)
                  else
                    match ParseField(line, config)
                    case Err(error) => Err(error)
                    case Ok(h) => Then([h], ParseFields(rest, index + 1, config))
  {
    hide ParseField;
    var e := FindCrlf(s).value;
    assert forall i :: CrlfAt(s[..e], i) ==> CrlfAt(s, i);
    assert s == s[..e] + CRLF + s[e + 2..];
    assert ([s[..e]] + Lines(s[e + 2..]))[1..] == Lines(s[e + 2..]);
  }

  lemma NoLimitAtEnd(index: nat, config: Config)
    ensures !SomeLimit([], true, index, config)
  {
  }

  lemma LimitWithoutLine(index: nat, config: Config)
    ensures SomeLimit([], false, index, config) <==> index >= config.maxHeaders
  {
    assert LimitAt([], false, 0, index, config) <==> index >= config.maxHeaders;
  }

  lemma LimitHere(lines: seq<string>, ended: bool, index: nat, config: Config)
    requires lines != [] && index >= config.maxHeaders
    ensures SomeLimit(lines, ended, index, config)
  {
    assert LimitAt(lines, ended, 0, index, config);
  }

  /** The lines of a text after its first one, up to an empty line or a line without a CRLF. */
  function LinesAfterFirst(text: string): seq<string> {
    match FindCrlf(text)
    case None => []
    case Some(e) => Lines(text[e + 2..])
  }

  /** A limit is exceeded in the header section of a text. */
  ghost predicate LimitExceeded(text: string, config: Config) {
    SomeLimit(LinesAfterFirst(text), FindEnd(text).Some?, 0, config)
  }

  /** A request is refused as too large exactly when its first line is in order and a limit is exceeded. */
  lemma RequestTooLargeExact(s: string, config: Config)
    ensures ParseRequest(s, config) == Err(HeadersTooLarge)
            <==> ParseStart(s).Some? && LimitExceeded(s, config)
  {
    hide StartOf, ParseRequestLine, ParseFields, SomeLimit;
    if FindCrlf(s).Some? {
      var e := FindCrlf(s).value;
      var line, rest := s[..e], s[e + 2..];
      assert s == line + CRLF + rest;
      assert forall i :: CrlfAt(line, i) ==> CrlfAt(s, i);
      TooLargeExact(line, rest, 0, config);
    }
  }

  /** In a framed request without a NUL the limit is exceeded at one of the field lines. */
  lemma LimitOfFramed(msg: string, config: Config)
    requires Framed(msg)
    ensures LimitExceeded(msg, config) <==> SomeLimit(FieldLines(msg), true, 0, config)
  {
    hide SomeLimit;
  }

  // ---------------------------------------------------------------- requests by lines

  lemma {:induction false} NoNulInBlock(lines: seq<string>)
    requires forall i :: 0 <= i < |lines| ==> NUL !in lines[i]
    ensures NUL !in Block(lines)
  {
    if lines == [] {
    } else {
      NoNulInBlock(lines[1..]);
    }
  }

  lemma LinesAreRead(line: string, lines: seq<string>, rest: string, config: Config)
    requires NoCrlf(line) && CleanLines(lines)
    requires NUL !in line && forall i :: 0 <= i < |lines| ==> NUL !in lines[i]
    ensures var msg := Block([line] + lines);
            var first := ParseRequestLine(line);
            && FindEnd(msg + rest) == Some(|msg|)
            && ParseRequest(CString(msg + [NUL]), config)
               == Combine(if first.None? then None else StartOf(first.value), ParseLines(lines, 0, config))
  {
    EndOfBlock(line, lines, rest);
    NoNulInBlock([line] + lines);
    RequestOfBlock(line, lines, config);
  }

  // ---------------------------------------------------------------- limits

  predicate LimitsAtMost(a: Config, b: Config) {
    a.maxHeaders <= b.maxHeaders && a.nameMax <= b.nameMax && a.valueMax <= b.valueMax
  }

  /** `looser` was reached from `tighter` by raising limits: only a 431 may change. */
  predicate OnlyTooLargeChanges<T(==)>(tighter: Result<T, ParseError>, looser: Result<T, ParseError>) {
    tighter != Err(HeadersTooLarge) ==> looser == tighter
  }

  lemma {:induction false} FieldsMonotone(s: string, index: nat, a: Config, b: Config)
    requires LimitsAtMost(a, b)
    ensures OnlyTooLargeChanges(ParseFields(s, index, a), ParseFields(s, index, b))
    decreases |s|
  {
    var step := NextStep(s, index, a);
    assert step != Failed(HeadersTooLarge) ==> NextStep(s, index, b) == step;
    if !step.Parsed? {
    } else {
      FieldsMonotone(s[step.length..], index + 1, a, b);
    }
  }

  /**
    Raising the limits keeps every accepted request accepted with the same meaning and every
    400 a 400; so lowering them can turn an accepted request only into a 431.
  */
  lemma LimitsMonotone(s: string, a: Config, b: Config)
    requires LimitsAtMost(a, b)
    ensures OnlyTooLargeChanges(ParseRequest(s, a), ParseRequest(s, b))
    ensures ParseRequest(s, b).Ok? ==>
              ParseRequest(s, a) == ParseRequest(s, b) || ParseRequest(s, a) == Err(HeadersTooLarge)
  {
    if FindCrlf(s).Some? {
      FieldsMonotone(s[FindCrlf(s).value + 2..], 0, a, b);
    }
  }
}
