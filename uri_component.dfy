/** `encodeURIComponent` (section 19.2.6 of ECMA-262): characters outside the
    unreserved set are written as the percent-escaped bytes of their UTF-8 encoding. */
module UriComponent {
  import Utf8

  /** The characters `encodeURIComponent` leaves alone: ASCII letters, digits and
      the marks `- _ . ! ~ * ' ( )`. */
  predicate Unreserved(c: char) {
    ('A' <= c <= 'Z') || ('a' <= c <= 'z') || ('0' <= c <= '9') || c == '-' || c == '_' || c == '.' || c == '!' || c == '~' || c == '*'
    || c == '\'' || c == '(' || c == ')'
  }

  /** A character of an encoded string: unreserved or the escape mark. */
  predicate EncodedChar(c: char) {
    Unreserved(c) || c == '%'
  }

  /** The upper-case hexadecimal digit for `d`. */
  function HexDigit(d: int): (c: char)
    requires 0 <= d < 16
    ensures Unreserved(c)
  {
    if d < 10 then ('0' as int + d) as char else ('A' as int + d - 10) as char
  }

  /** Each byte as `%` followed by its two upper-case hexadecimal digits. */
  function EscapeBytes(bs: seq<Utf8.Byte>): (r: string)
    ensures forall i :: 0 <= i < |r| ==> EncodedChar(r[i])
  {
    if bs == [] then []
    else ['%', HexDigit(bs[0] / 16), HexDigit(bs[0] % 16)] + EscapeBytes(bs[1..])
  }

  /** The encoding of one character. */
  function EncodeChar(c: char): (r: string)
    ensures forall i :: 0 <= i < |r| ==> EncodedChar(r[i])
  {
    if Unreserved(c) then [c] else EscapeBytes(Utf8.EncodeChar(c))
  }

  /** `encodeURIComponent(s)`. Its output holds only unreserved characters and `%`,
      so never `&`, `=`, `+`, `?` or a space. */
  function EncodeUriComponent(s: string): (r: string)
    ensures forall i :: 0 <= i < |r| ==> EncodedChar(r[i])
  {
    if s == [] then [] else EncodeChar(s[0]) + EncodeUriComponent(s[1..])
  }

  /** A string of unreserved characters is its own encoding. */
  lemma {:induction false} EncodeUnreserved(s: string)
    requires forall i :: 0 <= i < |s| ==> Unreserved(s[i])
    ensures EncodeUriComponent(s) == s
  {
    if s != [] {
      EncodeUnreserved(s[1..]);
      assert [s[0]] + s[1..] == s;
    }
  }
}
