/**
  What src/http_parse.c accepts, as functions of the C string it is given: the request line,
  the origin-form target and the header fields, under the configured limits. RequestParser
  holds the pointer-walking code and proves that it computes these functions.
*/
module RequestSyntax {
  import opened Grammar
  import opened Wrappers
  import opened Text
  import opened PercentCoding

  const HTTP_MAX_HEADERS := 64
  const HTTP_HEADER_NAME_MAX := 128
  const HTTP_HEADER_VALUE_MAX := 4096
  const METHOD_SIZE := 16
  const VERSION_SIZE := 16
  const PATH_SIZE := 4096
  const QUERY_SIZE := 4096
  const TARGET_SIZE := 4096

  datatype Config = Config(bufferSize: nat, maxHeaders: nat, nameMax: nat, valueMax: nat)

  /** http_config_valid */
  predicate ValidConfig(config: Config) {
    && config.bufferSize > 0
    && 0 < config.maxHeaders <= HTTP_MAX_HEADERS
    && 0 < config.nameMax <= HTTP_HEADER_NAME_MAX
    && 0 < config.valueMax <= HTTP_HEADER_VALUE_MAX
  }

  /** A configuration is valid when no limit is 0 and the limits stay inside the arrays: 64 fields of 128 and 4096. */
  lemma ValidConfigExact(config: Config)
    ensures ValidConfig(config) <==>
              && 1 <= config.bufferSize && 1 <= config.maxHeaders <= 64
              && 1 <= config.nameMax <= 128 && 1 <= config.valueMax <= 4096
    ensures ValidConfig(DEFAULT_CONFIG)
  {
  }

  /** config_init */
  const DEFAULT_CONFIG := Config(16384, 64, 128, 4096)

  datatype Header = Header(name: string, value: string)

  datatype Request = Request(verb: string, path: string, query: string, version: string, headers: seq<Header>)

  datatype ParseError = BadRequest | HeadersTooLarge

  // ---------------------------------------------------------------- character classes

  predicate IsTchar(c: char) {
    '0' <= c <= '9' || 'A' <= c <= 'Z' || 'a' <= c <= 'z'
    || c == '!' || c == '#' || c == '$' || c == '%' || c == '&' || c == '\'' || c == '*' || c == '+'
    || c == '-' || c == '.' || c == '^' || c == '_' || c == '`' || c == '|' || c == '~'
  }

  predicate AllTchar(s: string) {
    forall i :: 0 <= i < |s| ==> IsTchar(s[i])
  }

  /** A token of section 5.6.2 of RFC 9110. */
  predicate IsToken(s: string) {
    s != "" && AllTchar(s)
  }

  predicate IsValueChar(c: char) {
    (c >= ' ' || c == '\t') && c != DEL
  }

  predicate IsFieldValue(s: string) {
    forall i :: 0 <= i < |s| ==> IsValueChar(s[i])
  }

  // ---------------------------------------------------------------- the standard's alphabet

  /** The code's names and methods are made of the standard's characters, and of all of them. */
  lemma TokenExact(s: string)
    ensures IsToken(s) <==> Token(s)
  {
    forall i | 0 <= i < |s| ensures IsTchar(s[i]) <==> IsTokenChar(s[i]) {
      TcharExact(s[i]);
    }
  }

  lemma TcharExact(c: char)
    ensures IsTchar(c) <==> IsVchar(c) && c !in DELIMITERS
  {
  }

  lemma FieldContentExact(s: string)
    ensures IsFieldValue(s) && Trimmed(s) <==> FieldContent(s)
  {
    forall i | 0 <= i < |s| ensures IsValueChar(s[i]) <==> IsFieldChar(s[i]) {
      FieldCharExact(s[i]);
    }
  }

  lemma FieldCharExact(c: char)
    ensures IsValueChar(c) <==> IsVchar(c) || c >= '\U{80}' || c in " \t"
  {
  }

  // ---------------------------------------------------------------- header fields

  function ParseField(line: string, config: Config): Result<Header, ParseError> {
    match IndexOf(line, ':')
    case None => Err(BadRequest)
    case Some(colon) =>
      var name, value := line[..colon], Trim(line[colon + 1..]);
      if name == "" || IsOws(name[|name| - 1]) || !IsToken(name) then Err(BadRequest)
      else if |name| >= config.nameMax then Err(HeadersTooLarge)
      else if !IsFieldValue(value) then Err(BadRequest)
      else if |value| >= config.valueMax then Err(HeadersTooLarge)
      else Ok(Header(name, value))
  }

  /** `hs` put before the rest of a header list. */
  function Then(hs: seq<Header>, rest: Result<seq<Header>, ParseError>): Result<seq<Header>, ParseError> {
    match rest
    case Err(e) => Err(e)
    case Ok(more) => Ok(hs + more)
  }

  /** What one turn of the header loop finds: the section's end, an error, or a field. */
  datatype Step = Finished | Failed(error: ParseError) | Parsed(header: Header, length: nat)

  function NextStep(s: string, index: nat, config: Config): (step: Step)
    ensures step.Parsed? ==> 2 <= step.length <= |s| && CrlfAt(s, step.length - 2)
    ensures step.Finished? <==> CrlfAt(s, 0)
  {
    if CrlfAt(s, 0) then Finished
    else if index >= config.maxHeaders then Failed(HeadersTooLarge)
    else
      match FindCrlf(s)
      case None => Failed(BadRequest)
      case Some(e) =>
        match ParseField(s[..e], config)
        case Err(error) => Failed(error)
        case Ok(h) => Parsed(h, e + 2)
  }

  /** The header fields of a C string, the first of which has the given index. */
  function ParseFields(s: string, index: nat, config: Config): Result<seq<Header>, ParseError>
    decreases |s|
  {
    match NextStep(s, index, config)
    case Finished => Ok([])
    case Failed(error) => Err(error)
    case Parsed(h, length) => Then([h], ParseFields(s[length..], index + 1, config))
  }

  /** http_parse_headers on the C string `s`: the first line is skipped. */
  function ParseHeaderSection(s: string, index: nat, config: Config): Result<seq<Header>, ParseError> {
    match FindCrlf(s)
    case None => Err(BadRequest)
    case Some(e) => ParseFields(s[e + 2..], index, config)
  }

  /** The same decision on a list of lines, where no line can lack its CRLF. */
  function ParseLines(lines: seq<string>, index: nat, config: Config): Result<seq<Header>, ParseError> {
    if lines == [] then Ok([])
    else if index >= config.maxHeaders then Err(HeadersTooLarge)
    else
      match ParseField(lines[0], config)
      case Err(error) => Err(error)
      case Ok(h) => Then([h], ParseLines(lines[1..], index + 1, config))
  }

  // ---------------------------------------------------------------- request line

  datatype RequestLine = RequestLine(verb: string, target: string, version: string)

  function ParseRequestLine(line: string): Option<RequestLine> {
    match IndexOf(line, ' ')
    case None => None
    case Some(a) => ParseAfterVerb(line[..a], line[a + 1..])
  }

  /** The target and the version, and the checks on all three parts. */
  function ParseAfterVerb(verb: string, rest: string): Option<RequestLine> {
    match IndexOf(rest, ' ')
    case None => None
    case Some(b) =>
      var target, version := rest[..b], rest[b + 1..];
      if IndexOf(version, ' ').Some? then None
      else if verb == "" || |verb| >= METHOD_SIZE || !IsToken(verb) then None
      else if target == "" || |target| >= TARGET_SIZE then None
      else if version == "" || |version| >= VERSION_SIZE then None
      else Some(RequestLine(verb, target, version))
  }

  predicate SupportedVersion(version: string) {
    version == "HTTP/1.1" || version == "HTTP/1.0"
  }

  datatype Target = Target(path: string, query: string)

  /** The raw path and query: the split happens before any decoding. */
  function SplitTarget(target: string): Target {
    match IndexOf(target, '?')
    case None => Target(target, "")
    case Some(q) => Target(target[..q], target[q + 1..])
  }

  function ParseTarget(target: string): Option<Target> {
    var raw := SplitTarget(target);
    if raw.path == "" || |raw.path| >= PATH_SIZE then None
    else if |raw.query| >= QUERY_SIZE then None
    else if raw.path[0] != '/' then None
    else
      match Decode(raw.path)
      case None => None
      case Some(path) => if |path| < PATH_SIZE then Some(Target(path, raw.query)) else None
  }

  // ---------------------------------------------------------------- request

  datatype Start = Start(verb: string, path: string, query: string, version: string)

  function ParseFirstLine(s: string): Option<RequestLine> {
    match FindCrlf(s)
    case None => None
    case Some(e) => ParseRequestLine(s[..e])
  }

  /** The version and target checks that follow a well-formed request line. */
  function StartOf(line: RequestLine): Option<Start> {
    if !SupportedVersion(line.version) then None
    else
      match ParseTarget(line.target)
      case None => None
      case Some(target) => Some(Start(line.verb, target.path, target.query, line.version))
  }

  /** All that http_parse_request decides from the first line of `s`. */
  function ParseStart(s: string): Option<Start> {
    match ParseFirstLine(s)
    case None => None
    case Some(line) => StartOf(line)
  }

  function Combine(start: Option<Start>, fields: Result<seq<Header>, ParseError>): Result<Request, ParseError> {
    match (start, fields)
    case (None, _) => Err(BadRequest)
    case (_, Err(error)) => Err(error)
    case (Some(st), Ok(hs)) => Ok(Request(st.verb, st.path, st.query, st.version, hs))
  }

  /** http_parse_request on the C string `s`. */
  function ParseRequest(s: string, config: Config): Result<Request, ParseError> {
    Combine(ParseStart(s), ParseHeaderSection(s, 0, config))
  }
}
