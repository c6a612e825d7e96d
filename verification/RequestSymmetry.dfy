/**
  Changes to a request that leave its answer alone: the order of fields with different names, the
  letter case of field names (sections 5.1 and 5.3 of RFC 9110), and HEAD in place of GET.
*/
module RequestSymmetry {
  import opened Grammar
  import opened Wrappers
  import opened Text
  import opened RequestSyntax
  import opened ParserTheorems
  import opened BodyFraming
  import opened FileSystem
  import opened Responses
  import opened Http

  // ---------------------------------------------------------------- what an answer depends on

  /** For every field name, the same values in the same order. */
  ghost predicate SameFields(a: seq<Header>, b: seq<Header>) {
    forall name :: Select(a, name) == Select(b, name)
  }

  /** The header list matters to the answer only through the values under each name. */
  lemma SameFieldsSameDecision(a: Request, b: Request, root: string -> Entry, closing: bool)
    requires a.verb == b.verb && a.path == b.path && a.version == b.version
    requires SameFields(a.headers, b.headers)
    ensures Decide(a, root, closing) == Decide(b, root, closing)
  {
    hide ErrorPage, FramingText, MimeText, MimeType, Lookup, Select;
  }

  lemma {:induction false} NoNulInLines(lines: seq<string>)
    requires NUL !in Block(lines)
    ensures forall i :: 0 <= i < |lines| ==> NUL !in lines[i]
  {
    if lines == [] {
    } else {
      NoNulInLines(lines[1..]);
      assert forall i :: 0 < i < |lines| ==> lines[i] == lines[1..][i - 1];
    }
  }

  /** An accepted request: its lines hold no NUL, and are all fields. */
  lemma AcceptedLines(line: string, lines: seq<string>, config: Config)
    requires NoCrlf(line) && CleanLines(lines)
    requires ParseRequest(CString(Block([line] + lines) + [NUL]), config).Ok?
    ensures Framed(Block([line] + lines))
    ensures NUL !in line && forall i :: 0 <= i < |lines| ==> NUL !in lines[i]
    ensures ParseLines(lines, 0, config).Ok?
  {
    hide ParseRequest, ParseLines, Block;
    var msg := Block([line] + lines);
    EndOfBlock(line, lines, "");
    assert msg + "" == msg;
    FramerParserAgree(msg, config);
    NoNulInLines([line] + lines);
    assert ([line] + lines)[0] == line && forall i :: 0 <= i < |lines| ==> ([line] + lines)[i + 1] == lines[i];
    RequestOfBlock(line, lines, config);
  }

  /**
    Two requests with the same first line whose field lists give the same values under each name
    get the same answer.
  */
  lemma SameFieldsSameAnswer(
    line: string, lines: seq<string>, others: seq<string>, config: Config, root: string -> Entry)
    requires NoCrlf(line) && CleanLines(lines) && CleanLines(others)
    requires ParseRequest(CString(Block([line] + lines) + [NUL]), config).Ok?
    requires forall i :: 0 <= i < |others| ==> NUL !in others[i]
    requires ParseLines(lines, 0, config).Ok? && ParseLines(others, 0, config).Ok?
    requires SameFields(ParseLines(lines, 0, config).value, ParseLines(others, 0, config).value)
    ensures Framed(Block([line] + others))
    ensures Respond(Block([line] + others), config, root, false) == Respond(Block([line] + lines), config, root, false)
  {
    hide ParseLines, Block, Decide, ParseRequestLine, StartOf, SameFields, ParseRequest;
    AcceptedLines(line, lines, config);
    LinesAreRead(line, lines, "", config);
    LinesAreRead(line, others, "", config);
    assert Block([line] + others) + "" == Block([line] + others);
    SameFieldsSameDecision(
      ParseRequest(CString(Block([line] + lines) + [NUL]), config).value,
      ParseRequest(CString(Block([line] + others) + [NUL]), config).value, root, false);
  }

  // ---------------------------------------------------------------- order

  function Swap<T>(s: seq<T>, i: nat): (r: seq<T>)
    requires i + 1 < |s|
    ensures |r| == |s| && r[i] == s[i + 1] && r[i + 1] == s[i]
    ensures forall k :: 0 <= k < |s| && k != i && k != i + 1 ==> r[k] == s[k]
  {
    s[..i] + [s[i + 1], s[i]] + s[i + 2..]
  }

  /** The part of a field line before its first colon. */
  function FieldName(line: string): string {
    match IndexOf(line, ':')
    case None => ""
    case Some(colon) => line[..colon]
  }

  lemma NameRead(line: string, config: Config)
    requires ParseField(line, config).Ok?
    ensures ParseField(line, config).value.name == FieldName(line)
  {
  }

  lemma SwapSelect(hs: seq<Header>, i: nat)
    requires i + 1 < |hs| && !SameIgnoringCase(hs[i].name, hs[i + 1].name)
    ensures SameFields(hs, Swap(hs, i))
  {
    var a, b := hs[i], hs[i + 1];
    assert hs == hs[..i] + [a, b] + hs[i + 2..];
    forall name ensures Select(hs, name) == Select(Swap(hs, i), name) {
      SelectThree(hs[..i], [a, b], hs[i + 2..], name);
      SelectThree(hs[..i], [b, a], hs[i + 2..], name);
      SelectPair(a, b, name);
      SelectPair(b, a, name);
    }
  }

  lemma SelectThree(a: seq<Header>, b: seq<Header>, c: seq<Header>, name: string)
    ensures Select(a + b + c, name) == Select(a, name) + Select(b, name) + Select(c, name)
  {
    SelectConcat(a + b, c, name);
    SelectConcat(a, b, name);
  }

  lemma SelectPair(a: Header, b: Header, name: string)
    requires !SameIgnoringCase(a.name, b.name)
    ensures Select([a, b], name)
            == if SameIgnoringCase(a.name, name) then [a.value]
               else if SameIgnoringCase(b.name, name) then [b.value] else []
  {
    SelectNext([a, b], 0, name);
    SelectNext([a, b], 1, name);
    assert [a, b][..2] == [a, b] && [a, b][..0] == [];
  }

  /** Swapping two adjacent fields with different names leaves the answer unchanged. */
  lemma SwapKeepsAnswer(line: string, lines: seq<string>, i: nat, config: Config, root: string -> Entry)
    requires NoCrlf(line) && CleanLines(lines) && i + 1 < |lines|
    requires ParseRequest(CString(Block([line] + lines) + [NUL]), config).Ok?
    requires !SameName(FieldName(lines[i]), FieldName(lines[i + 1]))
    ensures Framed(Block([line] + Swap(lines, i)))
    ensures Respond(Block([line] + Swap(lines, i)), config, root, false)
            == Respond(Block([line] + lines), config, root, false)
  {
    hide ParseRequest, Respond, Block, ParseLines, Select, FieldName, SameFields, Swap;
    SameIgnoringCaseExact(FieldName(lines[i]), FieldName(lines[i + 1]));
    AcceptedLines(line, lines, config);
    SwapParsed(lines, i, config);
    SwapSelect(ParseLines(lines, 0, config).value, i);
    SameFieldsSameAnswer(line, lines, Swap(lines, i), config, root);
  }

  lemma SwapParsed(lines: seq<string>, i: nat, config: Config)
    requires i + 1 < |lines| && CleanLines(lines)
    requires ParseLines(lines, 0, config).Ok? && forall k :: 0 <= k < |lines| ==> NUL !in lines[k]
    ensures CleanLines(Swap(lines, i)) && forall k :: 0 <= k < |lines| ==> NUL !in Swap(lines, i)[k]
    ensures var hs := ParseLines(lines, 0, config).value;
            && |hs| == |lines| && hs[i].name == FieldName(lines[i]) && hs[i + 1].name == FieldName(lines[i + 1])
            && ParseLines(Swap(lines, i), 0, config) == Ok(Swap(hs, i))
  {
    hide ParseField, Swap, FieldName;
    ParseLinesExact(lines, 0, config);
    NameRead(lines[i], config);
    NameRead(lines[i + 1], config);
    LinesParsed(Swap(lines, i), Swap(ParseLines(lines, 0, config).value, i), config);
  }

  /** A list of lines is parsed to a list of headers when each line is parsed to its header. */
  lemma LinesParsed(lines: seq<string>, hs: seq<Header>, config: Config)
    requires |hs| == |lines| && |lines| <= config.maxHeaders
    requires forall k :: 0 <= k < |lines| ==> ParseField(lines[k], config) == Ok(hs[k])
    ensures ParseLines(lines, 0, config) == Ok(hs)
  {
    hide ParseField, ParseLines;
    ParseLinesExact(lines, 0, config);
    assert ParseLines(lines, 0, config).value == hs;
  }

  // ---------------------------------------------------------------- letter case

  lemma CaseKeepsToken(a: string, b: string)
    requires SameIgnoringCase(a, b) && IsToken(a)
    ensures IsToken(b) && ':' !in b
  {
    forall i | 0 <= i < |b| ensures IsTchar(b[i]) {
      assert Lower(a[i]) == Lower(b[i]) && IsTchar(a[i]);
    }
  }

  /** The same line with its field name spelled in other letter cases. */
  function Respell(line: string, name: string): string
    requires |name| <= |line|
  {
    name + line[|name|..]
  }

  lemma RespelledField(line: string, name: string, config: Config)
    requires ParseField(line, config).Ok? && SameIgnoringCase(ParseField(line, config).value.name, name)
    ensures |name| < |line|
    ensures ParseField(Respell(line, name), config) == Ok(Header(name, ParseField(line, config).value.value))
  {
    var h := ParseField(line, config).value;
    CaseKeepsToken(h.name, name);
    var rest := line[|name| + 1..];
    IndexOfAfter(name, ':', rest);
    assert Respell(line, name) == name + [':'] + rest;
    assert Respell(line, name)[..|name|] == name && Respell(line, name)[|name| + 1..] == rest;
  }

  lemma RespelledIsClean(line: string, name: string)
    requires |name| < |line| && line != "" && NoCrlf(line) && NUL !in line && IsToken(name)
    ensures Respell(line, name) != "" && NoCrlf(Respell(line, name)) && NUL !in Respell(line, name)
  {
    var r := Respell(line, name);
    assert forall i :: 0 <= i < |name| ==> r[i] == name[i] && IsTchar(r[i]);
    assert forall i :: |name| <= i < |line| ==> r[i] == line[i];
    assert forall i :: CrlfAt(r, i) ==> CrlfAt(line, i);
  }

  lemma RespellSelect(hs: seq<Header>, i: nat, name: string)
    requires i < |hs| && SameIgnoringCase(hs[i].name, name)
    ensures SameFields(hs, hs[i := Header(name, hs[i].value)])
  {
    var h, g := hs[i], Header(name, hs[i].value);
    assert hs == hs[..i] + [h] + hs[i + 1..] && hs[i := g] == hs[..i] + [g] + hs[i + 1..];
    forall wanted ensures Select(hs, wanted) == Select(hs[i := g], wanted) {
      SelectThree(hs[..i], [h], hs[i + 1..], wanted);
      SelectThree(hs[..i], [g], hs[i + 1..], wanted);
      assert Select([h], wanted) == Select([g], wanted);
    }
  }

  lemma RespellParsed(lines: seq<string>, i: nat, name: string, config: Config)
    requires i < |lines| && ParseLines(lines, 0, config).Ok?
    requires ParseField(lines[i], config).Ok? && SameIgnoringCase(ParseField(lines[i], config).value.name, name)
    ensures |name| < |lines[i]|
    ensures var hs := ParseLines(lines, 0, config).value;
            && |hs| == |lines| && hs[i] == ParseField(lines[i], config).value
            && ParseLines(lines[i := Respell(lines[i], name)], 0, config) == Ok(hs[i := Header(name, hs[i].value)])
  {
    RespelledField(lines[i], name, config);
    hide ParseField, Respell;
    ParseLinesExact(lines, 0, config);
    var hs := ParseLines(lines, 0, config).value;
    LinesParsed(lines[i := Respell(lines[i], name)], hs[i := Header(name, hs[i].value)], config);
  }

  /** Changing the letter case of a field name leaves the answer unchanged. */
  lemma RespellKeepsAnswer(
    line: string, lines: seq<string>, i: nat, name: string, config: Config, root: string -> Entry)
    requires NoCrlf(line) && CleanLines(lines) && i < |lines|
    requires ParseRequest(CString(Block([line] + lines) + [NUL]), config).Ok?
    requires SameName(FieldName(lines[i]), name)
    ensures |name| < |lines[i]| && Framed(Block([line] + lines[i := Respell(lines[i], name)]))
    ensures Respond(Block([line] + lines[i := Respell(lines[i], name)]), config, root, false)
            == Respond(Block([line] + lines), config, root, false)
  {
    hide ParseRequest, Respond, Block, Select, Respell, ParseField, FieldName, Token, FieldContent;
    SameIgnoringCaseExact(FieldName(lines[i]), name);
    AcceptedLines(line, lines, config);
    ParseLinesExact(lines, 0, config);
    NameRead(lines[i], config);
    RespellParsed(lines, i, name, config);
    FieldIsWellFormed(lines[i], config);
    CaseKeepsToken(ParseField(lines[i], config).value.name, name);
    RespelledIsClean(lines[i], name);
    RespellSelect(ParseLines(lines, 0, config).value, i, name);
    SameFieldsSameAnswer(line, lines, lines[i := Respell(lines[i], name)], config, root);
  }

  // ---------------------------------------------------------------- HEAD and GET

  predicate IsVerb(verb: string) {
    verb == "GET" || verb == "HEAD"
  }

  lemma SplitVerb(verb: string, rest: string)
    requires IsVerb(verb)
    ensures ParseRequestLine(verb + [' '] + rest) == ParseAfterVerb(verb, rest)
  {
    hide ParseAfterVerb;
    var line := verb + [' '] + rest;
    assert ' ' !in verb;
    IndexOfAfter(verb, ' ', rest);
    assert line[..|verb|] == verb && line[|verb| + 1..] == rest;
  }

  /** What is read after the method does not depend on which of the two it is. */
  lemma RestOfLine(rest: string)
    ensures match ParseAfterVerb("GET", rest)
            case None => ParseAfterVerb("HEAD", rest).None?
            case Some(l) => ParseAfterVerb("HEAD", rest) == Some(l.(verb := "HEAD")) && l.verb == "GET"
  {
    assert IsToken("GET") && IsToken("HEAD");
  }

  /** The request with the other method, everything else being equal. */
  lemma SameRestSameRequest(rest: string, lines: seq<string>, config: Config)
    requires NoCrlf("GET" + [' '] + rest) && NoCrlf("HEAD" + [' '] + rest) && CleanLines(lines)
    requires ParseRequest(CString(Block(["GET" + [' '] + rest] + lines) + [NUL]), config).Ok?
    ensures var get := ParseRequest(CString(Block(["GET" + [' '] + rest] + lines) + [NUL]), config).value;
            && get.verb == "GET"
            && ParseRequest(CString(Block(["HEAD" + [' '] + rest] + lines) + [NUL]), config)
               == Ok(get.(verb := "HEAD"))
  {
    hide Block, ParseLines, ParseAfterVerb, ParseRequestLine, ParseRequest, ParseTarget;
    var g, h := "GET" + [' '] + rest, "HEAD" + [' '] + rest;
    AcceptedLines(g, lines, config);
    assert NUL !in h by {
      assert forall i :: 0 <= i < |rest| ==> rest[i] == g[i + 4];
    }
    LinesAreRead(g, lines, "", config);
    LinesAreRead(h, lines, "", config);
    SplitVerb("GET", rest);
    SplitVerb("HEAD", rest);
    RestOfLine(rest);
  }

  /**
    HEAD mirrors GET: where GET is answered 200, the same request with HEAD is answered with
    exactly GET's octets up to and including the first empty line.
  */
  lemma HeadMirrorsGet(rest: string, lines: seq<string>, config: Config, root: string -> Entry)
    requires NoCrlf("GET" + [' '] + rest) && NoCrlf("HEAD" + [' '] + rest) && CleanLines(lines)
    requires Respond(Block(["GET" + [' '] + rest] + lines), config, root, false).status == StatusOk
    ensures var get := Respond(Block(["GET" + [' '] + rest] + lines), config, root, false);
            var head := Respond(Block(["HEAD" + [' '] + rest] + lines), config, root, false);
            && head == get.(sendBody := false) && get.sendBody
            && FindEnd(Bytes(get)) == Some(|Bytes(head)|)
            && Bytes(head) == Bytes(get)[..FindEnd(Bytes(get)).value]
  {
    hide Block, ParseRequest, HeaderText, Decide, ErrorPage;
    var g, h := Block(["GET" + [' '] + rest] + lines), Block(["HEAD" + [' '] + rest] + lines);
    var parsed := ParseRequest(CString(g + [NUL]), config);
    SameRestSameRequest(rest, lines, config);
    HeadDecision(parsed.value, root);
    var get := Respond(g, config, root, false);
    HeaderTextEnds(get.status, get.contentType, |get.content|, !get.close, get.content);
  }

  lemma HeadDecision(get: Request, root: string -> Entry)
    requires get.verb == "GET" && Decide(get, root, false).status == StatusOk
    ensures Decide(get, root, false).sendBody && OneLine(Decide(get, root, false).contentType)
    ensures Decide(get.(verb := "HEAD"), root, false) == Decide(get, root, false).(sendBody := false)
  {
    hide ErrorPage, FramingText, MimeText, MimeType, Lookup, Select, FramingOf, WantsClose, OneLine;
    MimeTextIsOneLine(MimeType(get.path));
    WantsCloseIgnoresVerb(get);
  }

  lemma WantsCloseIgnoresVerb(r: Request)
    ensures WantsClose(r.(verb := "HEAD")) == WantsClose(r)
  {
  }
}
