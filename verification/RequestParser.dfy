/**
  The code of src/http_parse.c: pointers advance over the NUL-terminated request, library
  searches stop at the NUL, and the fields of the request are filled in place.
*/
module RequestParser {
  import opened Grammar
  import opened Wrappers
  import opened Text
  import opened PercentCoding
  import opened RequestSyntax

  datatype Verdict = Accepted | Rejected(error: ParseError)

  function Outcome<T>(r: Result<T, ParseError>): Verdict {
    match r
    case Ok(_) => Accepted
    case Err(e) => Rejected(e)
  }

  /** http_request_t. The decoder writes into `path`; the other buffers are assigned whole. */
  class RequestRecord {
    var verb: string
    const path: array<char>
    var query: string
    var version: string
    var headers: seq<Header>

    constructor ()
      ensures fresh(path) && path.Length == PATH_SIZE == 4096
    {
      verb, query, version, headers := "", "", "", [];
      path := new char[PATH_SIZE];
    }

    ghost predicate HoldsStart(start: Start)
      reads `verb, `query, `version, path
    {
      verb == start.verb && query == start.query && version == start.version
      && IsCString(path[..]) && CString(path[..]) == start.path
    }

    ghost predicate Holds(r: Request)
      reads `verb, `query, `version, `headers, path
    {
      HoldsStart(Start(r.verb, r.path, r.query, r.version)) && headers == r.headers
    }
  }

  // ---------------------------------------------------------------- library searches

  /** strstr(p, "\r\n") */
  method StrStrCrlf(p: string) returns (r: Option<nat>)
    requires IsCString(p)
    ensures r == FindCrlf(CString(p))
  {
    ghost var s := CString(p);
    var i := 0;
    while p[i] != NUL
      invariant 0 <= i <= |s|
      invariant forall j :: j < i ==> !CrlfAt(s, j)
      decreases |s| - i
    {
      if p[i] == '\r' && p[i + 1] == '\n' {
        assert CrlfAt(s, i);
        return Some(i);
      }
      assert p[i] == '\r' ==> !CrlfAt(s, i);
      i := i + 1;
    }
    return None;
  }

  /** memchr(p, c, n), where `range` is the n octets at p */
  method MemChr(range: string, c: char) returns (r: Option<nat>)
    ensures r == IndexOf(range, c)
  {
    for i := 0 to |range|
      invariant forall j :: 0 <= j < i ==> range[j] != c
    {
      if range[i] == c {
        return Some(i);
      }
    }
    return None;
  }

  /** strchr(p, c) */
  method StrChr(p: string, c: char) returns (r: Option<nat>)
    requires IsCString(p) && c != NUL
    ensures r == IndexOf(CString(p), c)
  {
    ghost var s := CString(p);
    var i := 0;
    while p[i] != NUL
      invariant 0 <= i <= |s|
      invariant forall j :: 0 <= j < i ==> s[j] != c
      decreases |s| - i
    {
      if p[i] == c {
        return Some(i);
      }
      i := i + 1;
    }
    return None;
  }

  /** strlen(p) */
  method StrLen(p: string) returns (n: nat)
    requires IsCString(p)
    ensures n == |CString(p)|
  {
    n := 0;
    while p[n] != NUL
      invariant n <= |CString(p)|
      decreases |CString(p)| - n
    {
      n := n + 1;
    }
  }

  // ---------------------------------------------------------------- validators

  method ValidHeaderName(name: string) returns (valid: bool)
    ensures valid == IsToken(name) == Token(name)
  {
    TokenExact(name);
    if |name| == 0 {
      return false;
    }
    for i := 0 to |name|
      invariant forall j :: 0 <= j < i ==> IsTchar(name[j])
    {
      if !IsTchar(name[i]) {
        return false;
      }
    }
    return true;
  }

  method ValidHeaderValue(value: string) returns (valid: bool)
    ensures valid == IsFieldValue(value)
    ensures Trimmed(value) ==> valid == FieldContent(value)
  {
    FieldContentExact(value);
    for i := 0 to |value|
      invariant forall j :: 0 <= j < i ==> IsValueChar(value[j])
    {
      var c := value[i];
      if c < ' ' && c != '\t' {
        return false;
      }
      if c == DEL {
        return false;
      }
    }
    return true;
  }

  // ---------------------------------------------------------------- header fields

  /** The two loops that drop optional whitespace, first before a value, then after it. */
  method TrimOws(range: string) returns (value: string)
    ensures value == Trim(range)
  {
    value := range;
    while |value| > 0 && (value[0] == ' ' || value[0] == '\t')
      invariant TrimLeft(range) == TrimLeft(value)
      decreases |value|
    {
      value := value[1..];
    }
    while |value| > 0 && (value[|value| - 1] == ' ' || value[|value| - 1] == '\t')
      invariant Trim(range) == TrimRight(value)
      decreases |value|
    {
      value := value[..|value| - 1];
    }
  }

  /** The body of http_parse_headers' loop on one line, up to the store. */
  method ReadField(line: string, config: Config) returns (r: Result<Header, ParseError>)
    ensures r == ParseField(line, config)
  {
    var colon := MemChr(line, ':');
    if colon.None? {
      return Err(BadRequest);
    }
    var name := line[..colon.value];
    if |name| == 0 || name[|name| - 1] == ' ' || name[|name| - 1] == '\t' {
      return Err(BadRequest);
    }
    var validName := ValidHeaderName(name);
    if !validName {
      return Err(BadRequest);
    }
    if |name| >= config.nameMax {
      return Err(HeadersTooLarge);
    }
    var value := TrimOws(line[colon.value + 1..]);
    var validValue := ValidHeaderValue(value);
    if !validValue {
      return Err(BadRequest);
    }
    if |value| >= config.valueMax {
      return Err(HeadersTooLarge);
    }
    return Ok(Header(name, value));
  }

  /** One turn of the loop of http_parse_headers, up to the store. */
  method ReadLine(line: string, index: nat, config: Config) returns (step: Step)
    requires IsCString(line)
    ensures step == NextStep(CString(line), index, config)
  {
    ghost var s := CString(line);
    if line[0] == '\r' && line[1] == '\n' {
      assert CrlfAt(s, 0);
      return Finished;
    }
    assert !CrlfAt(s, 0);
    if index >= config.maxHeaders {
      return Failed(HeadersTooLarge);
    }
    var lineEnd := StrStrCrlf(line);
    if lineEnd.None? {
      return Failed(BadRequest);
    }
    assert line[..lineEnd.value] == s[..lineEnd.value];
    var field := ReadField(line[..lineEnd.value], config);
    if field.Err? {
      return Failed(field.error);
    }
    return Parsed(field.value, lineEnd.value + 2);
  }

  /**
    The loop of http_parse_headers, entered with `line` past the first CRLF. `cursor` is where
    `line` points, as an offset into `buffer`, before and after.
  */
  method ReadFields(line0: string, ghost buffer: string, ghost cursor0: nat, request: RequestRecord, config: Config)
    returns (verdict: Verdict, ghost cursor: nat)
    requires IsCString(buffer) && StartsLine(line0, buffer, cursor0)
    modifies request`headers
    ensures var all := Then(old(request.headers), ParseFields(CString(line0), |old(request.headers)|, config));
            verdict == Outcome(all) && (all.Ok? ==> request.headers == all.value)
    ensures verdict.Accepted? ==> BlankLineAt(CString(buffer), cursor - 2)
  {
    hide NextStep, ParseFields, BlankLineAt, CString, IsCString;
    var line := line0;
    cursor := cursor0;
    ghost var all := Then(request.headers, ParseFields(CString(line), |request.headers|, config));
    while true
      invariant StartsLine(line, buffer, cursor)
      invariant all == Then(request.headers, ParseFields(CString(line), |request.headers|, config))
      decreases |line|
    {
      var step := ReadLine(line, |request.headers|, config);
      match step
      case Finished =>
        LastStep(CString(line), request.headers, config);
        BlankLineReached(line, buffer, cursor);
        return Accepted, cursor;
      case Failed(error) =>
        LastStep(CString(line), request.headers, config);
        return Rejected(error), cursor;
      case Parsed(header, length) =>
        PastCrlf(line, buffer, cursor, length);
        ParsedStep(CString(line), config, request.headers);
        request.headers := request.headers + [header];
        line, cursor := line[length..], cursor + length;
    }
  }

  /** http_parse_headers */
  method ParseHeaders(buffer: string, request: RequestRecord, config: Config)
    returns (verdict: Verdict, ghost cursor: nat)
    requires IsCString(buffer)
    modifies request`headers
    ensures var all := Then(old(request.headers), ParseHeaderSection(CString(buffer), |old(request.headers)|, config));
            verdict == Outcome(all) && (all.Ok? ==> request.headers == all.value)
    ensures verdict.Accepted? ==> BlankLineAt(CString(buffer), cursor - 2)
  {
    var first := StrStrCrlf(buffer);
    if first.None? {
      return Rejected(BadRequest), 0;
    }
    CStringAdvance(buffer, first.value + 2);
    verdict, cursor := ReadFields(buffer[first.value + 2..], buffer, first.value + 2, request, config);
  }

  /** `line` points into `buffer` at `cursor`, just past a CRLF. */
  ghost predicate StartsLine(line: string, buffer: string, cursor: nat)
    requires IsCString(buffer)
  {
    && IsCString(line)
    && 2 <= cursor <= |CString(buffer)|
    && CString(line) == CString(buffer)[cursor..]
    && CrlfAt(CString(buffer), cursor - 2)
  }

  lemma BlankLineReached(line: string, buffer: string, cursor: nat)
    requires IsCString(buffer) && StartsLine(line, buffer, cursor) && CrlfAt(CString(line), 0)
    ensures BlankLineAt(CString(buffer), cursor - 2)
  {
  }

  /** The pointer moves past the next CRLF. */
  lemma PastCrlf(line: string, buffer: string, cursor: nat, length: nat)
    requires IsCString(buffer) && StartsLine(line, buffer, cursor)
    requires 2 <= length <= |CString(line)| && CrlfAt(CString(line), length - 2)
    ensures StartsLine(line[length..], buffer, cursor + length) && |line[length..]| < |line|
    ensures CString(line[length..]) == CString(line)[length..]
  {
    var s, t := CString(buffer), CString(line);
    CStringAdvance(line, length);
    assert t[length - 2] == s[cursor + length - 2] && t[length - 1] == s[cursor + length - 1];
    assert s[cursor..][length..] == s[cursor + length..];
  }

  lemma ParsedStep(s: string, config: Config, done: seq<Header>)
    requires NextStep(s, |done|, config).Parsed?
    ensures var step := NextStep(s, |done|, config);
            Then(done, ParseFields(s, |done|, config))
            == Then(done + [step.header], ParseFields(s[step.length..], |done| + 1, config))
  {
    var step := NextStep(s, |done|, config);
    ThenThen(done, [step.header], ParseFields(s[step.length..], |done| + 1, config));
  }

  /** The turn that leaves the loop. */
  lemma LastStep(s: string, done: seq<Header>, config: Config)
    ensures match NextStep(s, |done|, config)
            case Finished => Then(done, ParseFields(s, |done|, config)) == Ok(done) && CrlfAt(s, 0)
            case Failed(error) => Then(done, ParseFields(s, |done|, config)) == Err(error)
            case Parsed(_, _) => true
  {
    hide NextStep;
    assert done + [] == done;
  }

  lemma ThenThen(a: seq<Header>, b: seq<Header>, r: Result<seq<Header>, ParseError>)
    ensures Then(a, Then(b, r)) == Then(a + b, r)
  {
    assert r.Ok? ==> a + (b + r.value) == a + b + r.value;
  }

  // ---------------------------------------------------------------- request line and target

  /** http_parse_request_line; `target` is the caller's local buffer. */
  method ReadRequestLine(buffer: string, request: RequestRecord) returns (ok: bool, target: string)
    requires IsCString(buffer)
    modifies request`verb, request`version
    ensures match ParseFirstLine(CString(buffer))
            case None => !ok
            case Some(l) => ok && request.verb == l.verb && target == l.target && request.version == l.version
    ensures NUL !in target
  {
    ok, target := false, "";
    var lineEnd := StrStrCrlf(buffer);
    if lineEnd.None? {
      return;
    }
    var line := buffer[..lineEnd.value];
    assert line == CString(buffer)[..lineEnd.value];
    var firstSpace := MemChr(line, ' ');
    if firstSpace.None? {
      return;
    }
    var verb, rest := line[..firstSpace.value], line[firstSpace.value + 1..];
    var secondSpace := MemChr(rest, ' ');
    if secondSpace.None? {
      return;
    }
    var version := rest[secondSpace.value + 1..];
    var thirdSpace := MemChr(version, ' ');
    if thirdSpace.Some? {
      return;
    }
    if |verb| == 0 || |verb| >= METHOD_SIZE {
      return;
    }
    var validVerb := ValidHeaderName(verb);
    if !validVerb {
      return;
    }
    request.verb := verb;
    if secondSpace.value == 0 || secondSpace.value >= TARGET_SIZE {
      return;
    }
    target := rest[..secondSpace.value];
    if |version| == 0 || |version| >= VERSION_SIZE {
      return;
    }
    request.version := version;
    ok := true;
  }

  /** The first half of http_parse_target: `path` is its local buffer, NUL-terminated. */
  method CopyTarget(target: string, request: RequestRecord) returns (ok: bool, path: string)
    requires IsCString(target)
    modifies request`query
    ensures var raw := SplitTarget(CString(target));
            && (ok <==> raw.path != "" && |raw.path| < PATH_SIZE && |raw.query| < QUERY_SIZE)
            && (ok ==> IsCString(path) && CString(path) == raw.path && request.query == raw.query)
  {
    ghost var text := CString(target);
    ok, path := false, "";
    var queryStart := StrChr(target, '?');
    if queryStart.Some? {
      var pathLength := queryStart.value;
      if pathLength == 0 || pathLength >= PATH_SIZE {
        return;
      }
      assert target[..pathLength] == text[..pathLength];
      path := target[..pathLength] + [NUL];
      CStringUnique(path, text[..pathLength]);
      CStringAdvance(target, pathLength + 1);
      var query := target[pathLength + 1..];
      var queryLength := StrLen(query);
      if queryLength >= QUERY_SIZE {
        return;
      }
      assert query[..queryLength] == text[pathLength + 1..];
      request.query := query[..queryLength];
    } else {
      var pathLength := StrLen(target);
      if pathLength == 0 || pathLength >= PATH_SIZE {
        return;
      }
      assert target[..pathLength] == text;
      path := target[..pathLength] + [NUL];
      CStringUnique(path, text);
      request.query := "";
    }
    ok := true;
  }

  /** http_parse_target on a NUL-terminated target. */
  method ReadTarget(target: string, request: RequestRecord) returns (ok: bool)
    requires IsCString(target) && request.path.Length == PATH_SIZE
    modifies request`query, request.path
    ensures match ParseTarget(CString(target))
            case None => !ok
            case Some(t) =>
              ok && request.query == t.query && IsCString(request.path[..]) && CString(request.path[..]) == t.path
  {
    var path: string;
    ok, path := CopyTarget(target, request);
    if !ok {
      return;
    }
    if path[0] != '/' {
      return false;
    }
    ok := DecodePath(path, request.path);
    if ok {
      DecodeKeepsNul(CString(path));
      CStringUnique(request.path[..], Decode(CString(path)).value);
    }
  }

  /** No decoded octet is NUL. */
  lemma DecodeKeepsNul(s: string)
    requires Decode(s).Some?
    ensures NUL !in Decode(s).value
  {
    DecodeExact(s);
  }

  // ---------------------------------------------------------------- request

  lemma ThenNothing(r: Result<seq<Header>, ParseError>)
    ensures Then([], r) == r
  {
    assert r.Ok? ==> [] + r.value == r.value;
  }

  /** The part of http_parse_request before the header fields. */
  method ReadStart(buffer: string, request: RequestRecord) returns (ok: bool)
    requires IsCString(buffer) && request.path.Length == PATH_SIZE
    modifies request`verb, request`version, request`query, request.path
    ensures match ParseStart(CString(buffer))
            case None => !ok
            case Some(start) => ok && request.HoldsStart(start)
  {
    var target: string;
    ok, target := ReadRequestLine(buffer, request);
    if !ok {
      return;
    }
    if request.version != "HTTP/1.1" && request.version != "HTTP/1.0" {
      return false;
    }
    CStringUnique(target + [NUL], target);
    ok := ReadTarget(target + [NUL], request);
  }

  /** http_parse_request */
  method Parse(buffer: string, request: RequestRecord, config: Config) returns (verdict: Verdict, ghost cursor: nat)
    requires IsCString(buffer) && request.path.Length == PATH_SIZE
    modifies request, request.path
    ensures var r := ParseRequest(CString(buffer), config);
            verdict == Outcome(r) && (r.Ok? ==> request.Holds(r.value))
    ensures verdict.Accepted? ==> BlankLineAt(CString(buffer), cursor - 2)
  {
    request.headers := [];
    request.query := "";
    var ok := ReadStart(buffer, request);
    if !ok {
      return Rejected(BadRequest), 0;
    }
    verdict, cursor := ParseHeaders(buffer, request, config);
    ThenNothing(ParseHeaderSection(CString(buffer), 0, config));
  }
}
