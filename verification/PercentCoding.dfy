/**
  Percent-decoding of a request path (section 2.1 of RFC 3986) as src/http_parse.c does it:
  a '%' needs two hexadecimal digits after it, and no decoded octet may be a control
  character.
*/
module PercentCoding {
  import opened Grammar
  import opened Wrappers
  import opened Text

  predicate IsHex(c: char) {
    '0' <= c <= '9' || 'a' <= c <= 'f' || 'A' <= c <= 'F'
  }

  /** http_hex_value, with None for -1. */
  function HexValue(c: char): (r: Option<nat>)
    ensures r.Some? <==> IsHex(c)
    ensures r.Some? ==> r.value < 16
  {
    if '0' <= c <= '9' then Some((c - '0') as nat)
    else if 'a' <= c <= 'f' then Some((c - 'a') as nat + 10)
    else if 'A' <= c <= 'F' then Some((c - 'A') as nat + 10)
    else None
  }

  /** A digit has the value of its place in the alphabet, whatever its case, and there are no others. */
  lemma HexExact(c: char, i: nat)
    requires i < 16
    ensures HexValue(c) == Some(i) <==> IsHexDigitOf(c, i)
  {
  }

  predicate IsControl(c: char) {
    c < ' ' || c == DEL
  }

  // ---------------------------------------------------------------- meaning

  /** The way one path octet is written: as itself, or as a triplet '%' high low. */
  datatype Spelling = Plain(c: char) | Triplet(high: char, low: char)

  predicate WellSpelled(u: Spelling) {
    match u
    case Plain(c) => c != '%' && !IsControl(c)
    case Triplet(h, l) => IsHex(h) && IsHex(l) && !IsControl(Meaning(u))
  }

  function Meaning(u: Spelling): char
    requires u.Triplet? ==> IsHex(u.high) && IsHex(u.low)
  {
    match u
    case Plain(c) => c
    case Triplet(h, l) => (16 * HexValue(h).value + HexValue(l).value) as char
  }

  function Written(u: Spelling): string {
    match u
    case Plain(c) => [c]
    case Triplet(h, l) => ['%', h, l]
  }

  predicate AllWellSpelled(us: seq<Spelling>) {
    forall i :: 0 <= i < |us| ==> WellSpelled(us[i])
  }

  function WrittenAll(us: seq<Spelling>): string {
    if us == [] then "" else Written(us[0]) + WrittenAll(us[1..])
  }

  function MeaningAll(us: seq<Spelling>): string
    requires AllWellSpelled(us)
  {
    if us == [] then ""
    else
      assert WellSpelled(us[0]);
      [Meaning(us[0])] + MeaningAll(us[1..])
  }

  // ---------------------------------------------------------------- decoding

  /** How the first octet of a non-empty encoded path is written, if it is well spelled. */
  function FirstSpelling(s: string): (r: Option<Spelling>)
    requires s != ""
    ensures r.Some? ==> WellSpelled(r.value) && Written(r.value) <= s
  {
    if s[0] == '%' then
      if |s| < 3 || !IsHex(s[1]) || !IsHex(s[2]) then None
      else
        var u := Triplet(s[1], s[2]);
        if WellSpelled(u) then Some(u) else None
    else if IsControl(s[0]) then None
    else Some(Plain(s[0]))
  }

  function Decode(s: string): (r: Option<string>)
    ensures r.Some? ==> |r.value| <= |s|
    decreases |s|
  {
    if s == "" then Some("")
    else
      match FirstSpelling(s)
      case None => None
      case Some(u) => After([Meaning(u)], Decode(s[|Written(u)|..]))
  }

  /** `out` put before the rest of a decoded path. */
  function After(out: string, rest: Option<string>): Option<string> {
    match rest
    case None => None
    case Some(v) => Some(out + v)
  }

  /**
    What decoding does with the front of an encoded path, in terms of its octets alone: a
    character that is neither '%' nor a control stands for itself, '%' and two hexadecimal digits
    in either case stand for the octet of that number unless that is a control, and nothing else
    can be decoded.
  */
  lemma DecodeStep(s: string)
    ensures Decode("") == Some("")
    ensures s != "" && s[0] != '%' ==>
              Decode(s) == if ' ' <= s[0] && s[0] != '\U{7F}' then After([s[0]], Decode(s[1..])) else None
    ensures s != "" && s[0] == '%' && Decode(s).Some? ==>
              |s| >= 3 && exists i, j :: IsHexDigitOf(s[1], i) && IsHexDigitOf(s[2], j)
  {
    if |s| >= 3 && HexValue(s[1]).Some? && HexValue(s[2]).Some? {
      HexExact(s[1], HexValue(s[1]).value);
      HexExact(s[2], HexValue(s[2]).value);
    }
  }

  lemma DecodeTriplet(high: char, low: char, i: nat, j: nat, rest: string)
    requires IsHexDigitOf(high, i) && IsHexDigitOf(low, j)
    ensures var octet := 16 * i + j;
            Decode(['%', high, low] + rest)
            == if 32 <= octet && octet != 127 then After([octet as char], Decode(rest)) else None
  {
    HexExact(high, i);
    HexExact(low, j);
    assert (['%', high, low] + rest)[3..] == rest;
  }

  /** The spelling a decodable string consists of. */
  function Spellings(s: string): (us: seq<Spelling>)
    requires Decode(s).Some?
    decreases |s|
  {
    if s == "" then []
    else
      var u := FirstSpelling(s).value;
      [u] + Spellings(s[|Written(u)|..])
  }

  lemma {:induction false} SpellingsWritten(s: string)
    requires Decode(s).Some?
    ensures AllWellSpelled(Spellings(s)) && WrittenAll(Spellings(s)) == s
    decreases |s|
  {
    hide FirstSpelling, WellSpelled, Written, AllWellSpelled;
    if s == "" {
      assert AllWellSpelled([]) by {
        NothingIsWellSpelled();
      }
    } else {
      hide Decode, Spellings, WrittenAll;
      SpellingsTail(s);
      var u := FirstSpelling(s).value;
      var rest := s[|Written(u)|..];
      SpellingsWritten(rest);
      WrittenFirst(u, Spellings(rest));
      assert s == Written(u) + rest;
    }
  }

  lemma NothingIsWellSpelled()
    ensures AllWellSpelled([])
  {
  }

  lemma SpellingsTail(s: string)
    requires Decode(s).Some? && s != ""
    ensures FirstSpelling(s).Some?
    ensures var u := FirstSpelling(s).value;
            && 0 < |Written(u)| <= |s| && WellSpelled(u)
            && Decode(s[|Written(u)|..]).Some?
            && Spellings(s) == [u] + Spellings(s[|Written(u)|..])
  {
    hide Meaning;
  }

  lemma WrittenFirst(u: Spelling, us: seq<Spelling>)
    requires WellSpelled(u) && AllWellSpelled(us)
    ensures AllWellSpelled([u] + us) && WrittenAll([u] + us) == Written(u) + WrittenAll(us)
  {
    assert ([u] + us)[1..] == us;
  }

  lemma {:induction false} MeaningLength(us: seq<Spelling>)
    requires AllWellSpelled(us)
    ensures |MeaningAll(us)| == |us|
    ensures forall i :: 0 <= i < |us| ==> MeaningAll(us)[i] == Meaning(us[i])
  {
    if us == [] {
    } else {
      MeaningLength(us[1..]);
    }
  }

  /** Decoding reads back every way of spelling a control-free path. */
  lemma {:induction false} DecodeWritten(us: seq<Spelling>)
    requires AllWellSpelled(us)
    ensures Decode(WrittenAll(us)) == Some(MeaningAll(us))
  {
    if us == [] {
    } else {
      var s, w := WrittenAll(us), Written(us[0]);
      DecodeWritten(us[1..]);
      assert s[..|w|] == w && s[|w|..] == WrittenAll(us[1..]);
      assert FirstSpelling(s) == Some(us[0]);
    }
  }

  /** Decoding succeeds exactly on the strings that spell some control-free path. */
  lemma DecodeExact(s: string)
    ensures Decode(s).Some? <==> exists us :: AllWellSpelled(us) && WrittenAll(us) == s
    ensures Decode(s).Some? ==> forall i :: 0 <= i < |Decode(s).value| ==> !IsControl(Decode(s).value[i])
  {
    if Decode(s).Some? {
      SpellingsWritten(s);
      DecodeWritten(Spellings(s));
      MeaningLength(Spellings(s));
    }
    if us :| AllWellSpelled(us) && WrittenAll(us) == s {
      DecodeWritten(us);
    }
  }

  // ---------------------------------------------------------------- encoding

  function HexDigit(v: nat): (c: char)
    requires v < 16
    ensures HexValue(c) == Some(v) && c != ' ' && c != '?' && c != '%' && !IsControl(c)
  {
    if v < 10 then '0' + v as char else 'A' + (v - 10) as char
  }

  /** The octets of a path that are written as themselves. */
  predicate IsUnreserved(c: char) {
    'a' <= c <= 'z' || 'A' <= c <= 'Z' || '0' <= c <= '9'
    || c == '-' || c == '.' || c == '_' || c == '~' || c == '/'
  }

  function Spell(c: char): (u: Spelling)
    requires c as int < 256 && !IsControl(c)
    ensures WellSpelled(u) && Meaning(u) == c
  {
    if IsUnreserved(c) then Plain(c)
    else Triplet(HexDigit(c as nat / 16), HexDigit(c as nat % 16))
  }

  predicate Encodable(path: string) {
    forall i :: 0 <= i < |path| ==> path[i] as int < 256 && !IsControl(path[i])
  }

  function SpellAll(path: string): (us: seq<Spelling>)
    requires Encodable(path)
    ensures |us| == |path| && forall i :: 0 <= i < |us| ==> us[i] == Spell(path[i])
  {
    seq(|path|, i requires 0 <= i < |path| => Spell(path[i]))
  }

  function Encode(path: string): string
    requires Encodable(path)
  {
    WrittenAll(SpellAll(path))
  }

  /** Decoding inverts encoding on every control-free path of octets. */
  lemma DecodeEncode(path: string)
    requires Encodable(path)
    ensures Decode(Encode(path)) == Some(path)
  {
    var us := SpellAll(path);
    DecodeWritten(us);
    MeaningLength(us);
    assert MeaningAll(us) == path;
  }

  /** An encoded path contains nothing that ends a path, a target or a line. */
  lemma {:induction false} EncodeIsSafe(path: string)
    requires Encodable(path)
    ensures forall i :: 0 <= i < |Encode(path)| ==>
              Encode(path)[i] != ' ' && Encode(path)[i] != '?' && !IsControl(Encode(path)[i])
    ensures path != "" && path[0] == '/' ==> Encode(path) != "" && Encode(path)[0] == '/'
  {
    if path == "" {
    } else {
      EncodeIsSafe(path[1..]);
      var us := SpellAll(path);
      assert us[1..] == SpellAll(path[1..]);
      assert Encode(path) == Written(us[0]) + Encode(path[1..]);
      assert forall i :: 0 <= i < |Written(us[0])| ==>
          Written(us[0])[i] != ' ' && Written(us[0])[i] != '?' && !IsControl(Written(us[0])[i]);
    }
  }

  // ---------------------------------------------------------------- the C function

  /** One turn of the decoding loop. */
  lemma ReadStep(out: string, rest: string)
    requires rest != ""
    ensures match FirstSpelling(rest)
            case None => Decode(rest).None?
            case Some(u) =>
              After(out, Decode(rest)) == After(out + [Meaning(u)], Decode(rest[|Written(u)|..]))
    ensures After(out, Decode(rest)).Some? ==> |After(out, Decode(rest)).value| > |out|
  {
    if FirstSpelling(rest).Some? {
      var u := FirstSpelling(rest).value;
      var more := Decode(rest[|Written(u)|..]);
      assert more.Some? ==> out + ([Meaning(u)] + more.value) == out + [Meaning(u)] + more.value;
    }
  }

  /**
    One turn of http_decode_path's loop up to the store: the octet written at `p`, and how
    many octets it is written with. The tests for NUL are short-circuited, as in C, so that
    nothing past the terminator is read.
  */
  method NextOctet(p: string) returns (ok: bool, value: char, length: nat)
    requires IsCString(p) && p[0] != NUL
    ensures CString(p) != ""
    ensures ok <==> FirstSpelling(CString(p)).Some?
    ensures ok ==> var u := FirstSpelling(CString(p)).value; value == Meaning(u) && length == |Written(u)|
  {
    ghost var text := CString(p);
    assert forall i :: 0 <= i < |text| ==> p[i] == text[i];
    assert p[|text|] == NUL;
    ok, value, length := false, NUL, 0;
    if p[0] == '%' {
      if p[1] == NUL || p[2] == NUL {
        return;
      }
      var high, low := HexValue(p[1]), HexValue(p[2]);
      if high.None? || low.None? {
        return;
      }
      value := (16 * high.value + low.value) as char;
      length := 3;
    } else {
      value := p[0];
      length := 1;
    }
    ok := !(value == NUL || value < ' ' || value == DEL);
  }

  /** http_decode_path on a NUL-terminated input, writing into `decoded` in place. */
  method DecodePath(encoded: string, decoded: array<char>) returns (ok: bool)
    requires IsCString(encoded)
    modifies decoded
    ensures ok <==> Decode(CString(encoded)).Some? && |Decode(CString(encoded)).value| < decoded.Length
    ensures ok ==> var path := Decode(CString(encoded)).value;
                   decoded[..|path|] == path && decoded[|path|] == NUL
  {
    ghost var text := CString(encoded);
    ghost var out, rest := "", text;
    if decoded.Length == 0 {
      return false;
    }
    var src, dst := 0, 0;
    assert Decode(text).Some? ==> "" + Decode(text).value == Decode(text).value;
    while encoded[src] != NUL
      invariant 0 <= src <= |text| && rest == text[src..]
      invariant 0 <= dst < decoded.Length && decoded[..dst] == out
      invariant Decode(text) == After(out, Decode(rest))
      decreases |text| - src
    {
      CStringAdvance(encoded, src);
      ReadStep(out, rest);
      if dst + 1 >= decoded.Length {
        return false;
      }
      var valid, value, length := NextOctet(encoded[src..]);
      if !valid {
        return false;
      }
      decoded[dst] := value;
      src, dst := src + length, dst + 1;
      out, rest := out + [value], rest[length..];
    }
    assert rest == "" && out + "" == out;
    decoded[dst] := NUL;
    return true;
  }
}
