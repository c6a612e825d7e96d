/**
  The language of the parser: a framed message is accepted exactly when it is the printed form of
  a structured request within the limits, and what the parser returns is that request.
*/
module RequestPrinting {
  import opened Grammar
  import opened Wrappers
  import opened Text
  import opened PercentCoding
  import opened RequestSyntax
  import opened ParserTheorems

  // ---------------------------------------------------------------- fields

  /** A header field as it is written: the value with any optional whitespace around it. */
  datatype FieldText = FieldText(header: Header, before: string, after: string)

  function PrintField(f: FieldText): string {
    f.header.name + ":" + (f.before + f.header.value + f.after)
  }

  predicate FieldFits(f: FieldText, config: Config) {
    && Token(f.header.name) && |f.header.name| < config.nameMax
    && FieldContent(f.header.value) && |f.header.value| < config.valueMax
    && Whitespace(f.before) && Whitespace(f.after)
  }

  /** The standard's field is the code's. */
  lemma FitsExact(f: FieldText)
    ensures Token(f.header.name) <==> IsToken(f.header.name)
    ensures FieldContent(f.header.value) <==> IsFieldValue(f.header.value) && Trimmed(f.header.value)
    ensures Whitespace(f.before) <==> AllOws(f.before)
    ensures Whitespace(f.after) <==> AllOws(f.after)
  {
    TokenExact(f.header.name);
    FieldContentExact(f.header.value);
    OwsExact(f.before);
    OwsExact(f.after);
  }

  lemma ParsePrintedField(f: FieldText, config: Config)
    requires FieldFits(f, config)
    ensures ParseField(PrintField(f), config) == Ok(f.header)
  {
    var line, name, padded := PrintField(f), f.header.name, f.before + f.header.value + f.after;
    hide Token, FieldContent, Whitespace;
    FitsExact(f);
    IndexOfAfter(name, ':', padded);
    assert line == name + [':'] + padded;
    assert line[..|name|] == name && line[|name| + 1..] == padded;
    TrimPadded(f.before, f.header.value, f.after);
  }

  /** The written form of an accepted line. */
  function FieldTextOf(line: string, config: Config): FieldText
    requires ParseField(line, config).Ok?
  {
    var padded := line[IndexOf(line, ':').value + 1..];
    FieldText(ParseField(line, config).value, LeftPadding(padded), RightPadding(TrimLeft(padded)))
  }

  lemma PrintParsedField(line: string, config: Config)
    requires ParseField(line, config).Ok?
    ensures FieldFits(FieldTextOf(line, config), config)
    ensures PrintField(FieldTextOf(line, config)) == line
  {
    hide TrimLeft, TrimRight, LeftPadding, RightPadding, Token, FieldContent, Whitespace;
    var f := FieldTextOf(line, config);
    FitsExact(f);
    var padded := line[|f.header.name| + 1..];
    FieldIsWellFormed(line, config);
    PaddingIsOws(padded);
    assert line == f.header.name + [':'] + padded;
  }

  /** A line is accepted as a field exactly when it is that field printed with some whitespace. */
  lemma FieldExact(line: string, h: Header, config: Config)
    ensures ParseField(line, config) == Ok(h)
            <==> exists f :: FieldFits(f, config) && f.header == h && PrintField(f) == line
  {
    if ParseField(line, config) == Ok(h) {
      PrintParsedField(line, config);
    }
    if f :| FieldFits(f, config) && f.header == h && PrintField(f) == line {
      ParsePrintedField(f, config);
    }
  }

  /** A printed field holds no NUL and no line break. */
  lemma PrintedFieldIsClean(f: FieldText, config: Config)
    requires FieldFits(f, config)
    ensures PrintField(f) != "" && NoCrlf(PrintField(f)) && NUL !in PrintField(f)
  {
    var line := PrintField(f);
    FitsExact(f);
    assert forall i :: 0 <= i < |line| ==> IsTchar(line[i]) || line[i] == ':' || IsOws(line[i]) || IsValueChar(line[i]);
  }

  // ---------------------------------------------------------------- requests

  /** A request as it is written (sections 3 and 5 of RFC 9112), with any spelling of its path. */
  datatype RequestText = RequestText(
    verb: string, path: seq<Spelling>, query: Option<string>, version: string, fields: seq<FieldText>)

  function PrintQuery(query: Option<string>): string {
    match query
    case None => ""
    case Some(q) => "?" + q
  }

  function PrintTarget(t: RequestText): string {
    WrittenAll(t.path) + PrintQuery(t.query)
  }

  function PrintFirstLine(t: RequestText): string {
    t.verb + " " + (PrintTarget(t) + " " + t.version)
  }

  function PrintFields(fields: seq<FieldText>): seq<string> {
    seq(|fields|, i requires 0 <= i < |fields| => PrintField(fields[i]))
  }

  function PrintRequest(t: RequestText): string {
    Block([PrintFirstLine(t)] + PrintFields(t.fields))
  }

  predicate PathFits(path: seq<Spelling>) {
    && AllWellSpelled(path) && path != [] && path[0] == Plain('/')
    && forall i :: 0 <= i < |path| ==> path[i] != Plain(' ') && path[i] != Plain('?')
  }

  /** The parser does not look at a query beyond what ends it. */
  ghost predicate QueryFits(query: Option<string>) {
    query.Some? ==> ' ' !in query.value && NUL !in query.value && NoCrlf(query.value)
  }

  ghost predicate FieldsFit(fields: seq<FieldText>, config: Config) {
    |fields| <= config.maxHeaders && forall i :: 0 <= i < |fields| ==> FieldFits(fields[i], config)
  }

  ghost predicate RequestFits(t: RequestText, config: Config) {
    && Token(t.verb) && |t.verb| < 16
    && PathFits(t.path) && QueryFits(t.query) && |PrintTarget(t)| < 4096
    && (t.version == "HTTP/1.1" || t.version == "HTTP/1.0")
    && FieldsFit(t.fields, config)
  }

  function HeadersMeant(fields: seq<FieldText>): seq<Header> {
    seq(|fields|, i requires 0 <= i < |fields| => fields[i].header)
  }

  /** The request a text stands for. */
  function RequestMeant(t: RequestText): Request
    requires AllWellSpelled(t.path)
  {
    Request(t.verb, MeaningAll(t.path), if t.query.Some? then t.query.value else "", t.version,
            HeadersMeant(t.fields))
  }

  // ---------------------------------------------------------------- printed requests are accepted

  predicate IsVisible(c: char) {
    c > ' ' && c != DEL
  }

  /** A written path holds only visible octets, and no question mark. */
  lemma {:induction false} WrittenIsVisible(us: seq<Spelling>)
    requires AllWellSpelled(us)
    requires forall i :: 0 <= i < |us| ==> us[i] != Plain(' ') && us[i] != Plain('?')
    ensures forall i :: 0 <= i < |WrittenAll(us)| ==> IsVisible(WrittenAll(us)[i]) && WrittenAll(us)[i] != '?'
  {
    if us == [] {
    } else {
      WrittenIsVisible(us[1..]);
      var w, rest := Written(us[0]), WrittenAll(us[1..]);
      assert WellSpelled(us[0]);
      assert forall i :: 0 <= i < |w| ==> IsVisible(w[i]) && w[i] != '?';
      assert forall i :: |w| <= i < |w + rest| ==> (w + rest)[i] == rest[i - |w|];
    }
  }

  /** Free of what would end a C string or a line. */
  ghost predicate Unbroken(s: string) {
    NUL !in s && NoCrlf(s)
  }

  lemma UnbrokenPieces(a: string, b: string)
    requires Unbroken(a) && Unbroken(b)
    requires a == "" || b == "" || a[|a| - 1] != '\r' || b[0] != '\n'
    ensures Unbroken(a + b)
  {
    assert forall i :: 0 <= i < |a| - 1 ==> (CrlfAt(a + b, i) <==> CrlfAt(a, i));
    assert forall i :: |a| <= i ==> (CrlfAt(a + b, i) <==> CrlfAt(b, i - |a|));
  }

  lemma TargetIsUnbroken(path: string, query: Option<string>)
    requires forall i :: 0 <= i < |path| ==> IsVisible(path[i])
    requires QueryFits(query)
    ensures Unbroken(path + PrintQuery(query)) && ' ' !in path + PrintQuery(query)
  {
    if query.Some? {
      UnbrokenPieces("?", query.value);
    }
    UnbrokenPieces(path, PrintQuery(query));
  }

  lemma FirstLineIsUnbroken(verb: string, target: string, version: string)
    requires IsToken(verb) && Unbroken(target) && Unbroken(version)
    ensures Unbroken(verb + " " + (target + " " + version))
  {
    UnbrokenPieces(" ", version);
    UnbrokenPieces(target, " " + version);
    assert target + (" " + version) == target + " " + version;
    UnbrokenPieces(verb, " ");
    UnbrokenPieces(verb + " ", target + " " + version);
  }

  lemma VersionExact(version: string)
    ensures SupportedVersion(version) <==> version == "HTTP/1.1" || version == "HTTP/1.0"
  {
  }

  lemma VersionIsUnbroken(version: string)
    requires SupportedVersion(version)
    ensures |version| == 8 && ' ' !in version && Unbroken(version)
  {
  }

  lemma SplitPrinted(path: string, query: Option<string>)
    requires '?' !in path
    ensures SplitTarget(path + PrintQuery(query)) == Target(path, if query.Some? then query.value else "")
  {
    var target := path + PrintQuery(query);
    match query
    case None =>
      assert target == path;
      assert '?' !in target;
    case Some(q) =>
      assert target == path + ['?'] + q;
      IndexOfAfter(path, '?', q);
      assert target[..|path|] == path && target[|path| + 1..] == q;
  }

  lemma PrintedStartIsRead(t: RequestText, config: Config)
    requires RequestFits(t, config)
    ensures ParseRequestLine(PrintFirstLine(t)) == Some(RequestLine(t.verb, PrintTarget(t), t.version))
    ensures var r := RequestMeant(t);
            StartOf(RequestLine(t.verb, PrintTarget(t), t.version)) == Some(Start(r.verb, r.path, r.query, r.version))
    ensures NoCrlf(PrintFirstLine(t)) && NUL !in PrintFirstLine(t)
  {
    hide IsToken, Token, SupportedVersion, FieldsFit, ParseRequestLine;
    TokenExact(t.verb);
    VersionExact(t.version);
    var path, target := WrittenAll(t.path), PrintTarget(t);
    WrittenIsVisible(t.path);
    DecodeWritten(t.path);
    assert Written(t.path[0]) == "/" && path[0] == '/';
    TargetIsUnbroken(path, t.query);
    SplitPrinted(path, t.query);
    TargetLimitsUnreachable(target);
    VersionIsUnbroken(t.version);
    FirstLineIsUnbroken(t.verb, target, t.version);
    PartsAreRead(RequestLine(t.verb, target, t.version));
  }

  lemma PrintedFieldsAreRead(fields: seq<FieldText>, config: Config)
    requires FieldsFit(fields, config)
    ensures var lines := PrintFields(fields);
            && CleanLines(lines) && (forall i :: 0 <= i < |lines| ==> NUL !in lines[i])
            && ParseLines(lines, 0, config) == Ok(HeadersMeant(fields))
  {
    var lines := PrintFields(fields);
    forall i | 0 <= i < |lines|
      ensures lines[i] != "" && NoCrlf(lines[i]) && NUL !in lines[i]
      ensures ParseField(lines[i], config) == Ok(fields[i].header)
    {
      PrintedFieldIsClean(fields[i], config);
      ParsePrintedField(fields[i], config);
    }
    ParseLinesExact(lines, 0, config);
    assert ParseLines(lines, 0, config).value == HeadersMeant(fields);
  }

  /**
    The parser inverts the printer, through the framer: whatever octets follow a printed
    request, the framer cuts it off exactly at its end, and the parser returns the request it
    stands for, with the whitespace around every value removed.
  */
  lemma ParsePrintedRequest(t: RequestText, rest: string, config: Config)
    requires RequestFits(t, config)
    ensures FindEnd(PrintRequest(t) + rest) == Some(|PrintRequest(t)|)
    ensures ParseRequest(CString(PrintRequest(t) + [NUL]), config) == Ok(RequestMeant(t))
  {
    hide ParseRequest, ParseRequestLine, StartOf, ParseLines, Block;
    var line, lines := PrintFirstLine(t), PrintFields(t.fields);
    PrintedStartIsRead(t, config);
    PrintedFieldsAreRead(t.fields, config);
    LinesAreRead(line, lines, rest, config);
  }

  /**
    The encoder's spelling is one of those, and it is read back, as a target without a query,
    exactly when it is short enough for the target's buffer.
  */
  lemma EncodedPathFits(path: string)
    requires Encodable(path) && path != "" && path[0] == '/'
    ensures PathFits(SpellAll(path)) && MeaningAll(SpellAll(path)) == path
    ensures ParseTarget(Encode(path)) == if |Encode(path)| < 4096 then Some(Target(path, "")) else None
  {
    hide Encode, Decode;
    var us := SpellAll(path);
    MeaningLength(us);
    assert us[0] == Spell(path[0]);
    assert MeaningAll(us) == path;
    EncodeIsSafe(path);
    DecodeEncode(path);
    EncodedIsAsLong(path);
    assert SplitTarget(Encode(path)) == Target(Encode(path), "");
  }

  lemma EncodedIsAsLong(path: string)
    requires Encodable(path)
    ensures |path| <= |Encode(path)|
  {
    hide Encode, Decode;
    DecodeEncode(path);
  }

  // ---------------------------------------------------------------- accepted requests are printed

  lemma {:induction false} PlainIsWritten(us: seq<Spelling>, i: nat)
    requires i < |us| && us[i].Plain?
    ensures us[i].c in WrittenAll(us)
  {
    if i == 0 {
      assert WrittenAll(us)[0] == us[0].c;
    } else {
      PlainIsWritten(us[1..], i - 1);
    }
  }

  lemma AcceptedPathFits(path: string)
    requires path != "" && path[0] == '/' && ' ' !in path && '?' !in path && Decode(path).Some?
    ensures PathFits(Spellings(path)) && WrittenAll(Spellings(path)) == path
    ensures MeaningAll(Spellings(path)) == Decode(path).value
  {
    var us := Spellings(path);
    SpellingsWritten(path);
    DecodeWritten(us);
    assert us != [] && WrittenAll(us)[0] == Written(us[0])[0];
    forall i | 0 <= i < |us| ensures us[i] != Plain(' ') && us[i] != Plain('?') {
      if us[i].Plain? {
        PlainIsWritten(us, i);
      }
    }
  }

  function QueryOf(target: string): Option<string> {
    match IndexOf(target, '?')
    case None => None
    case Some(q) => Some(target[q + 1..])
  }

  /** Any target is its raw path and its query. */
  lemma TargetSplit(target: string)
    ensures var raw := SplitTarget(target);
            && '?' !in raw.path && raw.path + PrintQuery(QueryOf(target)) == target
            && raw.query == if QueryOf(target).Some? then QueryOf(target).value else ""
  {
    if IndexOf(target, '?').Some? {
      var q := IndexOf(target, '?').value;
      assert target == target[..q] + ("?" + target[q + 1..]);
    }
  }

  lemma QueryIsPart(path: string, query: Option<string>)
    requires ' ' !in path + PrintQuery(query) && Unbroken(path + PrintQuery(query))
    ensures QueryFits(query) && ' ' !in path
  {
    var target := path + PrintQuery(query);
    assert forall i :: 0 <= i < |path| ==> target[i] == path[i];
    if query.Some? {
      var q := |path| + 1;
      assert forall i :: 0 <= i < |query.value| ==> target[q + i] == query.value[i];
      assert forall i :: CrlfAt(query.value, i) ==> CrlfAt(target, q + i);
    }
  }

  lemma AcceptedTargetFits(target: string)
    requires ParseTarget(target).Some? && ' ' !in target && Unbroken(target)
    ensures var raw := SplitTarget(target);
            && Decode(raw.path).Some?
            && PathFits(Spellings(raw.path)) && QueryFits(QueryOf(target))
            && WrittenAll(Spellings(raw.path)) + PrintQuery(QueryOf(target)) == target
            && ParseTarget(target).value
               == Target(MeaningAll(Spellings(raw.path)), if QueryOf(target).Some? then QueryOf(target).value else "")
  {
    hide PathFits, QueryFits, QueryOf, SplitTarget, PrintQuery, Unbroken;
    TargetSplit(target);
    QueryIsPart(SplitTarget(target).path, QueryOf(target));
    AcceptedPathFits(SplitTarget(target).path);
  }

  function FieldTexts(lines: seq<string>, config: Config): seq<FieldText>
    requires forall i :: 0 <= i < |lines| ==> ParseField(lines[i], config).Ok?
  {
    seq(|lines|, i requires 0 <= i < |lines| => FieldTextOf(lines[i], config))
  }

  lemma AcceptedFieldsFit(lines: seq<string>, config: Config)
    requires ParseLines(lines, 0, config).Ok?
    ensures forall i :: 0 <= i < |lines| ==> ParseField(lines[i], config).Ok?
    ensures var fields := FieldTexts(lines, config);
            && FieldsFit(fields, config) && PrintFields(fields) == lines
            && HeadersMeant(fields) == ParseLines(lines, 0, config).value
  {
    hide ParseField, FieldTextOf;
    ParseLinesExact(lines, 0, config);
    forall i | 0 <= i < |lines|
      ensures FieldFits(FieldTextOf(lines[i], config), config)
      ensures PrintField(FieldTextOf(lines[i], config)) == lines[i]
      ensures FieldTextOf(lines[i], config).header == ParseLines(lines, 0, config).value[i]
    {
      PrintParsedField(lines[i], config);
      HeaderOfText(lines[i], config);
    }
    assert PrintFields(FieldTexts(lines, config)) == lines;
    assert HeadersMeant(FieldTexts(lines, config)) == ParseLines(lines, 0, config).value;
  }

  lemma HeaderOfText(line: string, config: Config)
    requires ParseField(line, config).Ok?
    ensures FieldTextOf(line, config).header == ParseField(line, config).value
  {
  }

  /** The written form of an accepted request. */
  lemma PrintParsedRequest(msg: string, config: Config) returns (t: RequestText)
    requires Framed(msg) && ParseRequest(CString(msg + [NUL]), config).Ok?
    ensures RequestFits(t, config) && PrintRequest(t) == msg
    ensures RequestMeant(t) == ParseRequest(CString(msg + [NUL]), config).value
  {
    hide ParseLines, ParseRequestLine, ParseTarget, Block, PathFits, QueryFits, FieldsFit, FieldTexts, IsToken, Token;
    var line, lines := FirstLine(msg), FieldLines(msg);
    FramedIsBlock(msg);
    FramerParserAgree(msg, config);
    NoNul(msg);
    SectionOfBlock(line, lines, config);
    AcceptedFieldsFit(lines, config);
    var l := ParseRequestLine(line).value;
    RequestLineExact(line, l);
    TargetOfLine(l, line, msg);
    AcceptedTargetFits(l.target);
    t := RequestText(l.verb, Spellings(SplitTarget(l.target).path), QueryOf(l.target), l.version,
                     FieldTexts(lines, config));
  }

  lemma TargetOfLine(l: RequestLine, line: string, msg: string)
    requires line == l.verb + " " + (l.target + " " + l.version)
    requires line <= msg && NUL !in msg && NoCrlf(line)
    ensures Unbroken(l.target)
  {
    var a := |l.verb| + 1;
    assert forall i :: 0 <= i < |l.target| ==> l.target[i] == line[a + i] == msg[a + i];
    assert forall i :: CrlfAt(l.target, i) ==> CrlfAt(line, a + i);
  }

  /**
    The language of the parser: a framed message is accepted, with a given meaning, exactly when
    it is the printed form of a request within the limits that has that meaning.
  */
  lemma RequestExact(msg: string, r: Request, config: Config)
    requires Framed(msg)
    ensures ParseRequest(CString(msg + [NUL]), config) == Ok(r)
            <==> exists t :: RequestFits(t, config) && PrintRequest(t) == msg && RequestMeant(t) == r
  {
    hide ParseRequest, PrintRequest;
    if ParseRequest(CString(msg + [NUL]), config) == Ok(r) {
      var t := PrintParsedRequest(msg, config);
    }
    if t :| RequestFits(t, config) && PrintRequest(t) == msg && RequestMeant(t) == r {
      ParsePrintedRequest(t, "", config);
    }
  }
}
