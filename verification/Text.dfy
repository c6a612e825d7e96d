/**
  Octet strings. A C `char` is modelled by a Dafny `char`; nothing below depends on a
  code point being under 256 unless it says so. A `const char *` into NUL-terminated memory
  is modelled by the string of all the octets from that address on, so moving a pointer
  forward is taking a suffix, and every read through it is bounds-checked by Dafny.
*/
module Text {
  import opened Grammar
  import opened Wrappers

  const CRLF: string := "\r\n"
  const NUL: char := '\0'
  const DEL: char := '\U{7F}'

  // ---------------------------------------------------------------- searching

  predicate CrlfAt(s: string, i: int) {
    0 <= i < |s| - 1 && s[i] == '\r' && s[i + 1] == '\n'
  }

  ghost predicate NoCrlf(s: string) {
    forall i :: !CrlfAt(s, i)
  }

  function FindCrlfFrom(s: string, i: nat): (r: Option<nat>)
    requires i <= |s|
    ensures r.Some? ==> i <= r.value && CrlfAt(s, r.value)
    ensures r.Some? ==> forall j :: i <= j < r.value ==> !CrlfAt(s, j)
    ensures r.None? ==> forall j :: i <= j ==> !CrlfAt(s, j)
    decreases |s| - i
  {
    if i == |s| then None
    else if CrlfAt(s, i) then Some(i)
    else FindCrlfFrom(s, i + 1)
  }

  /** The offset of the first CRLF. */
  function FindCrlf(s: string): (r: Option<nat>)
    ensures r.Some? ==> CrlfAt(s, r.value) && forall j :: j < r.value ==> !CrlfAt(s, j)
    ensures r.None? <==> NoCrlf(s)
  {
    FindCrlfFrom(s, 0)
  }

  predicate BlankLineAt(s: string, i: int) {
    CrlfAt(s, i) && CrlfAt(s, i + 2)
  }

  function FindEndFrom(s: string, i: nat): (r: Option<nat>)
    requires i <= |s|
    ensures r.Some? ==> i + 4 <= r.value <= |s| && BlankLineAt(s, r.value - 4)
    ensures r.Some? ==> forall j :: i <= j < r.value - 4 ==> !BlankLineAt(s, j)
    ensures r.None? ==> forall j :: i <= j ==> !BlankLineAt(s, j)
    decreases |s| - i
  {
    if i == |s| then None
    else if BlankLineAt(s, i) then Some(i + 4)
    else FindEndFrom(s, i + 1)
  }

  /** The offset just past the first CRLF CRLF: where a header section ends. */
  function FindEnd(s: string): (r: Option<nat>)
    ensures r.Some? ==> 4 <= r.value <= |s| && BlankLineAt(s, r.value - 4)
    ensures r.Some? ==> forall j :: j < r.value - 4 ==> !BlankLineAt(s, j)
    ensures r.None? ==> forall j :: !BlankLineAt(s, j)
  {
    FindEndFrom(s, 0)
  }

  /** The end found in a string is the end found in every extension of it that keeps it. */
  lemma FindEndStable(s: string, t: string)
    ensures FindEnd(s).Some? ==> FindEnd(s + t) == FindEnd(s)
    ensures FindEnd(s).Some? ==> FindEnd(s[..FindEnd(s).value]) == FindEnd(s)
  {
    var st := s + t;
    assert forall i :: i < |s| - 3 ==> (BlankLineAt(st, i) <==> BlankLineAt(s, i));
    if FindEnd(s).Some? {
      var n := FindEnd(s).value;
      var cut := s[..n];
      assert forall i :: i <= n - 4 ==> (BlankLineAt(cut, i) <==> BlankLineAt(s, i));
      assert BlankLineAt(cut, n - 4);
      assert BlankLineAt(st, n - 4);
    }
  }

  /** Cutting a string where no header section ends leaves none. */
  lemma FindEndOfPrefix(s: string, k: nat)
    requires k <= |s|
    ensures FindEnd(s).None? ==> FindEnd(s[..k]).None?
    ensures FindEnd(s).Some? && k < FindEnd(s).value ==> FindEnd(s[..k]).None?
    ensures FindEnd(s).Some? && k >= FindEnd(s).value ==> FindEnd(s[..k]) == FindEnd(s)
  {
    var cut := s[..k];
    assert forall i :: i <= k - 4 ==> (BlankLineAt(cut, i) <==> BlankLineAt(s, i));
    if FindEnd(s).Some? && k >= FindEnd(s).value {
      assert BlankLineAt(cut, FindEnd(s).value - 4);
    }
  }

  function IndexFrom(s: string, c: char, i: nat): (r: Option<nat>)
    requires i <= |s|
    ensures r.Some? ==> i <= r.value < |s| && s[r.value] == c
    ensures forall j :: i <= j < (if r.Some? then r.value else |s|) ==> s[j] != c
    decreases |s| - i
  {
    if i == |s| then None else if s[i] == c then Some(i) else IndexFrom(s, c, i + 1)
  }

  /** The offset of the first `c`. */
  function IndexOf(s: string, c: char): (r: Option<nat>)
    ensures r.Some? ==> r.value < |s| && s[r.value] == c
    ensures forall j :: 0 <= j < (if r.Some? then r.value else |s|) ==> s[j] != c
  {
    IndexFrom(s, c, 0)
  }

  /** The first `c` of `a + [c] + b` is the one after an `a` without it. */
  lemma IndexOfAfter(a: string, c: char, b: string)
    requires c !in a
    ensures IndexOf(a + [c] + b, c) == Some(|a|)
  {
    assert (a + [c] + b)[|a|] == c;
    assert forall i :: 0 <= i < |a| ==> (a + [c] + b)[i] == a[i];
  }

  lemma Concat3(a: string, b: string, c: string)
    ensures a + (b + c) == a + b + c
  {
  }

  /** Prefixes of a concatenation's second part. */
  lemma ConcatPrefix(a: string, b: string, c: string)
    requires b <= c
    ensures a <= a + b <= a + c
  {
  }

  // ---------------------------------------------------------------- C strings

  predicate IsCString(p: string) {
    NUL in p
  }

  /** What the C library sees through a pointer: the octets before the first NUL. */
  function CString(p: string): (s: string)
    requires IsCString(p)
    ensures s <= p && |s| < |p| && p[|s|] == NUL && NUL !in s
  {
    p[..IndexOf(p, NUL).value]
  }

  lemma CStringUnique(p: string, s: string)
    requires s <= p && |s| < |p| && p[|s|] == NUL && NUL !in s
    ensures IsCString(p) && CString(p) == s
  {
    assert forall i :: 0 <= i < |s| ==> p[i] == s[i];
    assert p[|s|] == NUL;
  }

  /** Advancing a pointer inside its C string drops that many octets of it. */
  lemma CStringAdvance(p: string, k: nat)
    requires IsCString(p) && k <= |CString(p)|
    ensures IsCString(p[k..]) && CString(p[k..]) == CString(p)[k..]
  {
    var s := CString(p);
    assert p[k..][|s| - k] == NUL;
    CStringUnique(p[k..], s[k..]);
  }

  // ---------------------------------------------------------------- letter case

  function Lower(c: char): char {
    if 'A' <= c <= 'Z' then c - 'A' + 'a' else c
  }

  /** strcasecmp(a, b) == 0 in the C locale. */
  predicate SameIgnoringCase(a: string, b: string) {
    |a| == |b| && forall i :: 0 <= i < |a| ==> Lower(a[i]) == Lower(b[i])
  }

  /** What the comparison decides, letter by letter. */
  lemma SameIgnoringCaseExact(a: string, b: string)
    ensures SameIgnoringCase(a, b) <==> SameName(a, b)
  {
    forall i | 0 <= i < |a| && |a| == |b| ensures Lower(a[i]) == Lower(b[i]) <==> SameLetter(a[i], b[i]) {
      LowerExact(a[i], b[i]);
    }
  }

  lemma LowerExact(a: char, b: char)
    ensures Lower(a) == Lower(b) <==> SameLetter(a, b)
  {
  }

  // ---------------------------------------------------------------- optional whitespace

  predicate IsOws(c: char) {
    c == ' ' || c == '\t'
  }

  predicate AllOws(s: string) {
    forall i :: 0 <= i < |s| ==> IsOws(s[i])
  }

  lemma OwsExact(s: string)
    ensures AllOws(s) <==> Whitespace(s)
  {
  }

  function TrimLeft(s: string): (r: string)
    ensures r != "" ==> !IsOws(r[0])
  {
    if s != "" && IsOws(s[0]) then TrimLeft(s[1..]) else s
  }

  function TrimRight(s: string): (r: string)
    ensures r <= s
    ensures r != "" ==> !IsOws(r[|r| - 1])
  {
    if s != "" && IsOws(s[|s| - 1]) then TrimRight(s[..|s| - 1]) else s
  }

  function Trim(s: string): string {
    TrimRight(TrimLeft(s))
  }

  /** What trimming takes off at either end. */
  function LeftPadding(s: string): string {
    if s != "" && IsOws(s[0]) then [s[0]] + LeftPadding(s[1..]) else ""
  }

  function RightPadding(s: string): string {
    if s != "" && IsOws(s[|s| - 1]) then RightPadding(s[..|s| - 1]) + [s[|s| - 1]] else ""
  }

  lemma {:induction false} LeftPaddingIsOws(s: string)
    ensures AllOws(LeftPadding(s)) && LeftPadding(s) + TrimLeft(s) == s
  {
    if s == "" || !IsOws(s[0]) {
    } else {
      LeftPaddingIsOws(s[1..]);
    }
  }

  lemma {:induction false} RightPaddingIsOws(s: string)
    ensures AllOws(RightPadding(s)) && TrimRight(s) + RightPadding(s) == s
  {
    if s == "" || !IsOws(s[|s| - 1]) {
    } else {
      RightPaddingIsOws(s[..|s| - 1]);
    }
  }

  /** Trimming takes off whitespace and nothing else. */
  lemma PaddingIsOws(s: string)
    ensures AllOws(LeftPadding(s)) && AllOws(RightPadding(TrimLeft(s)))
    ensures LeftPadding(s) + Trim(s) + RightPadding(TrimLeft(s)) == s
  {
    LeftPaddingIsOws(s);
    RightPaddingIsOws(TrimLeft(s));
    Concat3(LeftPadding(s), Trim(s), RightPadding(TrimLeft(s)));
  }

  predicate Trimmed(s: string) {
    s != "" ==> !IsOws(s[0]) && !IsOws(s[|s| - 1])
  }

  lemma TrimIsTrimmed(s: string)
    ensures Trimmed(Trim(s))
  {
    var t := TrimLeft(s);
    var r := TrimRight(t);
    assert r != "" ==> r[0] == t[0];
  }

  /** Trimming removes exactly the whitespace padded around a trimmed value. */
  lemma TrimPadded(before: string, v: string, after: string)
    requires AllOws(before) && AllOws(after) && Trimmed(v)
    ensures Trim(before + v + after) == v
  {
    assert before + v + after == before + (v + after);
    TrimLeftPadded(before, v + after);
    if v == "" {
      assert v + after == after;
      TrimLeftAll(after);
    } else {
      assert TrimLeft(v + after) == v + after;
      TrimRightPadded(v, after);
    }
  }

  lemma {:induction false} TrimLeftPadded(before: string, t: string)
    requires AllOws(before)
    ensures TrimLeft(before + t) == TrimLeft(t)
  {
    if before == "" {
      assert before + t == t;
    } else {
      assert (before + t)[1..] == before[1..] + t;
      TrimLeftPadded(before[1..], t);
    }
  }

  lemma TrimLeftAll(s: string)
    requires AllOws(s)
    ensures TrimLeft(s) == ""
  {
    TrimLeftPadded(s, "");
    assert s + "" == s;
  }

  lemma {:induction false} TrimRightPadded(v: string, after: string)
    requires AllOws(after) && (v == "" || !IsOws(v[|v| - 1]))
    ensures TrimRight(v + after) == v
  {
    if after == "" {
      assert v + after == v;
    } else {
      var n := |after| - 1;
      assert (v + after)[..|v + after| - 1] == v + after[..n];
      TrimRightPadded(v, after[..n]);
    }
  }

  // ---------------------------------------------------------------- lines

  /** A header section: every line ended by CRLF, then an empty line. */
  function Block(lines: seq<string>): string {
    if lines == [] then CRLF else lines[0] + CRLF + Block(lines[1..])
  }

  ghost predicate CleanLines(lines: seq<string>) {
    forall i :: 0 <= i < |lines| ==> lines[i] != "" && NoCrlf(lines[i])
  }

  /** The inverse of Block: the lines before the first empty line. */
  function Lines(s: string): (r: seq<string>)
    ensures CleanLines(r)
    decreases |s|
  {
    if CrlfAt(s, 0) then []
    else
      match FindCrlf(s)
      case None => []
      case Some(e) =>
        assert forall i :: CrlfAt(s[..e], i) ==> CrlfAt(s, i);
        [s[..e]] + Lines(s[e + 2..])
  }

  /** Where the CRLFs of `line CRLF rest` are. */
  lemma CrlfAfterLine(line: string, rest: string, i: int)
    requires NoCrlf(line)
    ensures CrlfAt(line + CRLF + rest, i)
            <==> i == |line| || (i >= |line| + 2 && CrlfAt(rest, i - |line| - 2))
  {
    var s := line + CRLF + rest;
    assert s[|line|] == '\r' && s[|line| + 1] == '\n';
    if 0 <= i < |line| - 1 {
      assert !CrlfAt(line, i);
    }
  }

  lemma FirstCrlfAfterLine(line: string, rest: string)
    requires NoCrlf(line)
    ensures FindCrlf(line + CRLF + rest) == Some(|line|)
  {
    var s := line + CRLF + rest;
    CrlfAfterLine(line, rest, |line|);
    if FindCrlf(s).value < |line| {
      CrlfAfterLine(line, rest, FindCrlf(s).value);
    }
  }

  /** A section end is found one line at a time. */
  lemma EndAfterLine(line: string, rest: string)
    requires NoCrlf(line)
    ensures CrlfAt(rest, 0) ==> FindEnd(line + CRLF + rest) == Some(|line| + 4)
    ensures !CrlfAt(rest, 0) ==>
              FindEnd(line + CRLF + rest) == match FindEnd(rest) case None => None case Some(n) => Some(|line| + 2 + n)
  {
    var s := line + CRLF + rest;
    forall i ensures BlankLineAt(s, i) <==>
                     (i == |line| && CrlfAt(rest, 0)) || (i >= |line| + 2 && BlankLineAt(rest, i - |line| - 2))
    {
      CrlfAfterLine(line, rest, i);
      CrlfAfterLine(line, rest, i + 2);
    }
    if CrlfAt(rest, 0) {
      assert BlankLineAt(s, |line|);
    } else if FindEnd(rest).Some? {
      assert BlankLineAt(s, |line| + 2 + FindEnd(rest).value - 4);
    }
  }

  /** A block of lines ends where it says it ends, whatever follows it. */
  lemma {:induction false} EndOfBlock(line: string, lines: seq<string>, rest: string)
    requires NoCrlf(line) && CleanLines(lines)
    ensures FindEnd(Block([line] + lines) + rest) == Some(|Block([line] + lines)|)
    decreases |lines|
  {
    var tail := Block(lines) + rest;
    assert ([line] + lines)[1..] == lines;
    assert Block([line] + lines) + rest == line + CRLF + tail;
    EndAfterLine(line, tail);
    if lines != [] {
      var next := Block(lines[1..]) + rest;
      assert tail == lines[0] + CRLF + next;
      CrlfAfterLine(lines[0], next, 0);
      assert [lines[0]] + lines[1..] == lines;
      EndOfBlock(lines[0], lines[1..], rest);
    } else {
      assert CrlfAt(tail, 0);
    }
  }

  /** A string cut just past its first CRLF CRLF. */
  predicate Framed(msg: string) {
    FindEnd(msg) == Some(|msg|)
  }

  function FirstLine(msg: string): (r: string)
    requires Framed(msg)
    ensures NoCrlf(r) && |r| + 2 < |msg|
  {
    assert BlankLineAt(msg, |msg| - 4);
    var e := FindCrlf(msg).value;
    assert forall i :: CrlfAt(msg[..e], i) ==> CrlfAt(msg, i);
    assert e <= |msg| - 4;
    msg[..e]
  }

  function FieldLines(msg: string): seq<string>
    requires Framed(msg)
  {
    Lines(msg[|FirstLine(msg)| + 2..])
  }

  /** A framed message is its first line and its field lines, and nothing else. */
  lemma FramedIsBlock(msg: string)
    requires Framed(msg)
    ensures msg == Block([FirstLine(msg)] + FieldLines(msg))
    ensures CleanLines(FieldLines(msg)) && NoCrlf(FirstLine(msg))
  {
    var line, rest := FirstLine(msg), msg[|FirstLine(msg)| + 2..];
    assert msg == line + CRLF + rest;
    EndAfterLine(line, rest);
    SectionIsBlock(rest);
    assert ([line] + Lines(rest))[1..] == Lines(rest);
  }

  lemma {:induction false} SectionIsBlock(s: string)
    requires s == CRLF || (Framed(s) && !CrlfAt(s, 0))
    ensures s == Block(Lines(s))
    decreases |s|
  {
    if s == CRLF {
      assert CrlfAt(s, 0);
    } else {
      var line, rest := FirstLine(s), s[|FirstLine(s)| + 2..];
      assert s == line + CRLF + rest;
      assert line != "" by {
        assert CrlfAt(s, |line|);
      }
      EndAfterLine(line, rest);
      if CrlfAt(rest, 0) {
        assert rest == CRLF;
      }
      SectionIsBlock(rest);
      assert Lines(s) == [line] + Lines(rest);
      assert Lines(s)[1..] == Lines(rest);
    }
  }
}
