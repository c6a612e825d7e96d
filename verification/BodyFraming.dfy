/**
  Decisions taken from the header list in src/http.c and src/http_parse.c: looking a field up,
  the Host check, and whether the request has a body (http_validate_request_framing, with its
  64-bit decimal loop).
*/
module BodyFraming {
  import opened Grammar
  import opened Wrappers
  import opened Text
  import opened Decimal
  import opened RequestSyntax
  import opened RequestParser

  newtype u64 = x: int | 0 <= x < 0x1_0000_0000_0000_0000

  const ULLONG_MAX: u64 := 0xFFFF_FFFF_FFFF_FFFF

  // ---------------------------------------------------------------- fields of one name

  /** The values of the fields with the given name, in order (section 5.3 of RFC 9110). */
  function Select(hs: seq<Header>, name: string): seq<string> {
    if hs == [] then []
    else
      var last := hs[|hs| - 1];
      Select(hs[..|hs| - 1], name) + if SameIgnoringCase(last.name, name) then [last.value] else []
  }

  lemma {:induction false} SelectConcat(a: seq<Header>, b: seq<Header>, name: string)
    ensures Select(a + b, name) == Select(a, name) + Select(b, name)
  {
    if b == [] {
      assert a + b == a;
    } else {
      assert (a + b)[..|a + b| - 1] == a + b[..|b| - 1];
      SelectConcat(a, b[..|b| - 1], name);
    }
  }

  lemma SelectNext(hs: seq<Header>, i: nat, name: string)
    requires i < |hs|
    ensures Select(hs[..i + 1], name)
            == Select(hs[..i], name) + if SameIgnoringCase(hs[i].name, name) then [hs[i].value] else []
    ensures Select(hs[..i + 1], name) <= Select(hs, name)
  {
    assert hs[..i + 1][..i] == hs[..i];
    assert hs[..i + 1] + hs[i + 1..] == hs;
    SelectConcat(hs[..i + 1], hs[i + 1..], name);
  }

  function First(values: seq<string>): Option<string> {
    if values == [] then None else Some(values[0])
  }

  /** The field at `i` has the name, in whatever letter case. */
  predicate NamedAt(hs: seq<Header>, i: nat, name: string) {
    i < |hs| && SameName(hs[i].name, name)
  }

  /** The field at `i` is the first of its name. */
  predicate FirstNamedAt(hs: seq<Header>, i: nat, name: string) {
    NamedAt(hs, i, name) && forall j: nat :: j < i ==> !NamedAt(hs, j, name)
  }

  /** There is just one field of the name. */
  ghost predicate NamedOnce(hs: seq<Header>, name: string) {
    exists i: nat :: NamedAt(hs, i, name) && forall j: nat :: NamedAt(hs, j, name) ==> j == i
  }

  ghost predicate NamedTwice(hs: seq<Header>, name: string) {
    exists i: nat, j: nat :: i < j && NamedAt(hs, i, name) && NamedAt(hs, j, name)
  }

  lemma {:induction false} NoneNamed(hs: seq<Header>, name: string)
    requires forall i: nat :: !NamedAt(hs, i, name)
    ensures Select(hs, name) == []
  {
    hide SameName, SameIgnoringCase;
    if hs == [] {
    } else {
      var init, last := hs[..|hs| - 1], |hs| - 1;
      assert !NamedAt(hs, last, name);
      forall i: nat ensures !NamedAt(init, i, name) {
        assert !NamedAt(hs, i, name);
      }
      SameIgnoringCaseExact(hs[last].name, name);
      NoneNamed(init, name);
    }
  }

  /** A field of the name adds its value to those before it. */
  lemma NamedAdds(hs: seq<Header>, i: nat, name: string)
    requires NamedAt(hs, i, name)
    ensures Select(hs[..i + 1], name) == Select(hs[..i], name) + [hs[i].value]
    ensures Select(hs[..i + 1], name) <= Select(hs, name)
  {
    hide SameName, SameIgnoringCase, Select;
    SelectNext(hs, i, name);
    SameIgnoringCaseExact(hs[i].name, name);
  }

  lemma FirstNamed(hs: seq<Header>, i: nat, name: string)
    requires FirstNamedAt(hs, i, name)
    ensures Select(hs[..i + 1], name) == [hs[i].value] <= Select(hs, name)
  {
    hide SameName, Select;
    forall j: nat ensures !NamedAt(hs[..i], j, name) {
      assert j < i ==> !NamedAt(hs, j, name);
    }
    NoneNamed(hs[..i], name);
    NamedAdds(hs, i, name);
  }

  lemma TwoNamed(hs: seq<Header>, i: nat, j: nat, name: string)
    requires i < j && NamedAt(hs, i, name) && NamedAt(hs, j, name)
    ensures |Select(hs, name)| > 1
  {
    hide SameName, Select;
    NamedAdds(hs, j, name);
    assert hs[..j][..i + 1] == hs[..i + 1] && hs[..j][..i] == hs[..i];
    NamedAdds(hs[..j], i, name);
  }

  /** The first field of a name that some field has. */
  lemma {:induction false} FindNamed(hs: seq<Header>, k: nat, name: string) returns (i: nat)
    requires k <= |hs| && forall j: nat :: j < k ==> !NamedAt(hs, j, name)
    ensures (i == |hs| && forall j: nat :: !NamedAt(hs, j, name)) || FirstNamedAt(hs, i, name)
    decreases |hs| - k
  {
    hide SameName;
    if k == |hs| || NamedAt(hs, k, name) {
      i := k;
    } else {
      i := FindNamed(hs, k + 1, name);
    }
  }

  /** A field that is the only one of its name is the only one selected. */
  lemma OnlyNamed(hs: seq<Header>, i: nat, name: string)
    requires FirstNamedAt(hs, i, name) && forall j: nat :: NamedAt(hs, j, name) ==> j == i
    ensures Select(hs, name) == [hs[i].value]
  {
    hide SameName, Select;
    FirstNamed(hs, i, name);
    var rest := hs[i + 1..];
    forall j: nat ensures !NamedAt(rest, j, name) {
      assert !NamedAt(hs, i + 1 + j, name);
    }
    NoneNamed(rest, name);
    SelectConcat(hs[..i + 1], rest, name);
    assert hs[..i + 1] + rest == hs;
  }

  /** Which values are selected: none, one or more as fields of the name occur, and first the first. */
  lemma SelectExact(hs: seq<Header>, name: string)
    ensures Select(hs, name) == [] <==> forall i: nat :: !NamedAt(hs, i, name)
    ensures |Select(hs, name)| == 1 <==> NamedOnce(hs, name)
    ensures |Select(hs, name)| > 1 <==> NamedTwice(hs, name)
    ensures forall i: nat :: FirstNamedAt(hs, i, name) ==> First(Select(hs, name)) == Some(hs[i].value)
  {
    hide SameName, Select;
    forall i: nat | FirstNamedAt(hs, i, name) ensures First(Select(hs, name)) == Some(hs[i].value) {
      FirstNamed(hs, i, name);
    }
    forall i: nat, j: nat | i < j && NamedAt(hs, i, name) && NamedAt(hs, j, name) ensures |Select(hs, name)| > 1 {
      TwoNamed(hs, i, j, name);
    }
    var k := FindNamed(hs, 0, name);
    if FirstNamedAt(hs, k, name) {
      if j: nat :| NamedAt(hs, j, name) && j != k {
        assert NamedTwice(hs, name) by {
          assert j > k;
        }
      } else {
        OnlyNamed(hs, k, name);
      }
    } else {
      NoneNamed(hs, name);
    }
  }

  /** http_get_header */
  method GetHeader(request: RequestRecord, name: string) returns (r: Option<string>)
    ensures r == First(Select(request.headers, name))
    ensures forall i: nat :: FirstNamedAt(request.headers, i, name) ==> r == Some(request.headers[i].value)
    ensures r.None? ==> forall i: nat :: !NamedAt(request.headers, i, name)
  {
    hide SameName, SameIgnoringCase, NamedAt, FirstNamedAt, NamedOnce, NamedTwice;
    SelectExact(request.headers, name);
    var hs := request.headers;
    for i := 0 to |hs|
      invariant Select(hs[..i], name) == []
    {
      SelectNext(hs, i, name);
      if SameIgnoringCase(hs[i].name, name) {
        return Some(hs[i].value);
      }
    }
    assert hs[..|hs|] == hs;
    return None;
  }

  /** http_validate_host */
  method ValidateHost(request: RequestRecord) returns (ok: bool)
    ensures ok == (|Select(request.headers, "Host")| == 1)
    ensures ok <==> NamedOnce(request.headers, "Host")
  {
    hide SameName, SameIgnoringCase, NamedAt, FirstNamedAt, NamedOnce, NamedTwice;
    SelectExact(request.headers, "Host");
    var hs := request.headers;
    var hostCount := 0;
    for i := 0 to |hs|
      invariant hostCount == |Select(hs[..i], "Host")|
    {
      SelectNext(hs, i, "Host");
      if SameIgnoringCase(hs[i].name, "Host") {
        hostCount := hostCount + 1;
      }
    }
    assert hs[..|hs|] == hs;
    return hostCount == 1;
  }

  // ---------------------------------------------------------------- framing

  datatype FramingError = DuplicateLength | TransferCoding | InvalidLength | BodyUnsupported

  datatype Framing = NoBody | Refused(error: FramingError)

  predicate IsLength(value: string) {
    value != "" && AllDigits(value) && Value(value) <= ULLONG_MAX as int
  }

  function LengthFraming(value: string): Framing {
    var digits := TrimRight(value);
    if !IsLength(digits) then Refused(InvalidLength)
    else if Value(digits) == 0 then NoBody
    else Refused(BodyUnsupported)
  }

  /** The decision, by precedence: a duplicate length, a transfer coding, then the value. */
  function FramingOf(hs: seq<Header>): Framing {
    var lengths := Select(hs, "Content-Length");
    if |lengths| > 1 then Refused(DuplicateLength)
    else if Select(hs, "Transfer-Encoding") != [] then Refused(TransferCoding)
    else if lengths == [] then NoBody
    else LengthFraming(lengths[0])
  }

  /**
    The digit loop: the true decimal value in 64 bits, or None for anything that is not a
    digit and for a value that does not fit. The u64 arithmetic cannot wrap.
  */
  method ReadLength(digits: string) returns (r: Option<u64>)
    ensures r.Some? <==> AllDigits(digits) && Value(digits) <= ULLONG_MAX as int
    ensures r.Some? ==> r.value as int == Value(digits)
  {
    var length: u64 := 0;
    for i := 0 to |digits|
      invariant AllDigits(digits[..i]) && length as int == Value(digits[..i])
    {
      assert digits[..i + 1][..i] == digits[..i];
      if digits[i] < '0' || digits[i] > '9' {
        return None;
      }
      var digit := DigitValue(digits[i]) as u64;
      if length > (ULLONG_MAX - digit) / 10 {
        if AllDigits(digits) {
          ValueGrows(digits, i + 1);
        }
        return None;
      }
      length := length * 10 + digit;
    }
    assert digits[..|digits|] == digits;
    return Some(length);
  }

  /** The part of http_validate_request_framing after its header loop. */
  method ValidateLength(value: string) returns (r: Framing)
    ensures r == LengthFraming(value)
  {
    if |value| == 0 {
      return Refused(InvalidLength);
    }
    var digits := value;
    while |digits| > 0 && (digits[|digits| - 1] == ' ' || digits[|digits| - 1] == '\t')
      invariant TrimRight(value) == TrimRight(digits)
      decreases |digits|
    {
      digits := digits[..|digits| - 1];
    }
    if |digits| == 0 {
      return Refused(InvalidLength);
    }
    var length := ReadLength(digits);
    if length.None? {
      return Refused(InvalidLength);
    }
    return if length.value == 0 then NoBody else Refused(BodyUnsupported);
  }

  /** http_validate_request_framing */
  method ValidateFraming(request: RequestRecord) returns (r: Framing)
    ensures r == FramingOf(request.headers)
  {
    var hs := request.headers;
    var contentLength: Option<string> := None;
    var count := 0;
    var transferEncoding := false;
    for i := 0 to |hs|
      invariant count == |Select(hs[..i], "Content-Length")| <= 1
      invariant contentLength == First(Select(hs[..i], "Content-Length"))
      invariant transferEncoding == (Select(hs[..i], "Transfer-Encoding") != [])
    {
      SelectNext(hs, i, "Content-Length");
      SelectNext(hs, i, "Transfer-Encoding");
      if SameIgnoringCase(hs[i].name, "Content-Length") {
        count := count + 1;
        if count > 1 {
          return Refused(DuplicateLength);
        }
        contentLength := Some(hs[i].value);
      }
      if SameIgnoringCase(hs[i].name, "Transfer-Encoding") {
        transferEncoding := true;
      }
    }
    assert hs[..|hs|] == hs;
    if transferEncoding {
      return Refused(TransferCoding);
    }
    if contentLength.None? {
      return NoBody;
    }
    r := ValidateLength(contentLength.value);
  }

  /** Which refusal it is: the first fault in the order duplicate, transfer coding, value. */
  lemma FramingExact(hs: seq<Header>)
    ensures var lengths, coded := Select(hs, "Content-Length"), Select(hs, "Transfer-Encoding") != [];
            && (FramingOf(hs) == Refused(DuplicateLength) <==> |lengths| > 1)
            && (FramingOf(hs) == Refused(TransferCoding) <==> |lengths| <= 1 && coded)
            && (FramingOf(hs) == Refused(InvalidLength) <==>
                  && |lengths| == 1 && !coded
                  && var digits := TrimRight(lengths[0]);
                     digits == "" || !AllDigits(digits) || Value(digits) > 18_446_744_073_709_551_615)
            && (FramingOf(hs) == Refused(BodyUnsupported) <==>
                  && |lengths| == 1 && !coded
                  && var digits := TrimRight(lengths[0]);
                     && digits != "" && AllDigits(digits)
                     && 0 < Value(digits) <= 18_446_744_073_709_551_615)
  {
    hide Select;
  }

  /** A request is accepted exactly without a transfer coding and with no length but zeros. */
  lemma AcceptedExactly(hs: seq<Header>)
    ensures FramingOf(hs) == NoBody
            <==> var lengths := Select(hs, "Content-Length");
                 && Select(hs, "Transfer-Encoding") == []
                 && |lengths| <= 1
                 && (|lengths| == 1 ==>
                       var digits := TrimRight(lengths[0]);
                       digits != "" && forall i :: 0 <= i < |digits| ==> digits[i] == '0')
  {
    var lengths := Select(hs, "Content-Length");
    if |lengths| == 1 {
      var digits := TrimRight(lengths[0]);
      if AllDigits(digits) {
        ValueIsZero(digits);
      }
    }
  }

  // ---------------------------------------------------------------- message boundaries

  /**
    The length of the body of a request by section 6.3 of RFC 9112: None where the fields do
    not settle it (a transfer coding) or the message is invalid (lengths that differ or are not
    decimal numbers).
  */
  function RfcBodyLength(hs: seq<Header>): Option<nat> {
    var lengths := Select(hs, "Content-Length");
    if Select(hs, "Transfer-Encoding") != [] then None
    else if lengths == [] then Some(0)
    else if lengths[0] != "" && AllDigits(lengths[0])
            && forall i :: 0 <= i < |lengths| ==> lengths[i] == lengths[0]
    then Some(Value(lengths[0]))
    else None
  }

  predicate TrimmedValues(hs: seq<Header>) {
    forall i :: 0 <= i < |hs| ==> Trimmed(hs[i].value)
  }

  lemma {:induction false} SelectTrimmed(hs: seq<Header>, name: string)
    requires TrimmedValues(hs)
    ensures forall i :: 0 <= i < |Select(hs, name)| ==> Trimmed(Select(hs, name)[i])
  {
    if hs == [] {
    } else {
      SelectTrimmed(hs[..|hs| - 1], name);
    }
  }

  /**
    The server takes a request to have no body exactly when the RFC gives it an empty body and
    its length, if any, was stated once; a length repeated, even as zero, is refused.
  */
  lemma {:induction false} NoBodyExactly(hs: seq<Header>)
    requires TrimmedValues(hs)
    ensures FramingOf(hs) == NoBody
            <==> RfcBodyLength(hs) == Some(0) && |Select(hs, "Content-Length")| <= 1
  {
    SelectTrimmed(hs, "Content-Length");
  }
}
