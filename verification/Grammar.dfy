/**
  The alphabets and tables of the standards, written out here independently of the code's own
  character tests and tables, which are proved to agree with them.
*/
module Grammar {

  // ---------------------------------------------------------------- fields (RFC 9110)

  /** A visible character of US-ASCII: VCHAR of appendix B.1 of RFC 5234. */
  predicate IsVchar(c: char) {
    '\U{21}' <= c <= '\U{7E}'
  }

  /** The visible characters that section 5.6.2 of RFC 9110 keeps out of a token. */
  const DELIMITERS: string := "\"(),/:;<=>?@[\\]{}"

  predicate IsTokenChar(c: char) {
    IsVchar(c) && c !in DELIMITERS
  }

  /** A token of section 5.6.2. */
  predicate Token(s: string) {
    s != "" && forall i :: 0 <= i < |s| ==> IsTokenChar(s[i])
  }

  /** Optional whitespace of section 5.6.3: spaces and tabs. */
  predicate Whitespace(s: string) {
    forall i :: 0 <= i < |s| ==> s[i] in " \t"
  }

  /** The characters of a field value, by section 5.5: visible ones, octets above US-ASCII, space and tab. */
  predicate IsFieldChar(c: char) {
    IsVchar(c) || c >= '\U{80}' || c in " \t"
  }

  /** A field value of section 5.5, which does not begin or end with whitespace. */
  predicate FieldContent(s: string) {
    && (forall i :: 0 <= i < |s| ==> IsFieldChar(s[i]))
    && (s != "" ==> s[0] !in " \t" && s[|s| - 1] !in " \t")
  }

  // ---------------------------------------------------------------- letter case

  /** The same letter, in either case, or the same character. */
  predicate SameLetter(a: char, b: char) {
    || a == b
    || ('A' <= a <= 'Z' && b as int == a as int + 32)
    || ('A' <= b <= 'Z' && a as int == b as int + 32)
  }

  /** Field names are compared without regard to case (section 5.1 of RFC 9110). */
  predicate SameName(a: string, b: string) {
    |a| == |b| && forall i :: 0 <= i < |a| ==> SameLetter(a[i], b[i])
  }

  /** The connection option `close`, in any letter case, and nothing else. */
  predicate SaysClose(v: string) {
    |v| == 5 && v[0] in "Cc" && v[1] in "Ll" && v[2] in "Oo" && v[3] in "Ss" && v[4] in "Ee"
  }

  // ---------------------------------------------------------------- digits

  const DIGITS: string := "0123456789"
  const LOWER_HEX: string := "0123456789abcdef"
  const UPPER_HEX: string := "0123456789ABCDEF"

  /** `c` is the hexadecimal digit of value `i`, in one case or the other (section 2.1 of RFC 3986). */
  predicate IsHexDigitOf(c: char, i: nat) {
    i < 16 && (c == LOWER_HEX[i] || c == UPPER_HEX[i])
  }
}
