/** The application/x-www-form-urlencoded parser of section 5.1 of the WHATWG URL
    Standard, which `new URLSearchParams(init)` runs on a string `init`. */
module FormUrlencoded {
  import opened Sequences
  import Utf8

  const Percent: Utf8.Byte := 0x25
  const Ampersand: Utf8.Byte := 0x26
  const Plus: Utf8.Byte := 0x2B
  const EqualsSign: Utf8.Byte := 0x3D
  const Space: Utf8.Byte := 0x20

  /** An ASCII hexadecimal digit, either case. */
  predicate IsHexByte(b: Utf8.Byte) {
    (0x30 <= b <= 0x39) || (0x41 <= b <= 0x46) || (0x61 <= b <= 0x66)
  }

  function HexValue(b: Utf8.Byte): (d: int)
    requires IsHexByte(b)
    ensures 0 <= d < 16
  {
    if b <= 0x39 then b - 0x30 else if b <= 0x46 then b - 0x41 + 10 else b - 0x61 + 10
  }

  /** Percent-decoding (section 1.3 of the URL Standard): `%` and two hexadecimal
      digits become the byte they spell; every other byte, a `%` not followed by two
      digits included, is kept. */
  function PercentDecode(bs: seq<Utf8.Byte>): seq<Utf8.Byte> {
    if bs == [] then []
    else if bs[0] == Percent && |bs| >= 3 && IsHexByte(bs[1]) && IsHexByte(bs[2]) then
      [HexValue(bs[1]) * 16 + HexValue(bs[2])] + PercentDecode(bs[3..])
    else [bs[0]] + PercentDecode(bs[1..])
  }

  /** Every `+` replaced by a space. */
  function PlusToSpace(bs: seq<Utf8.Byte>): (r: seq<Utf8.Byte>)
    ensures |r| == |bs|
    ensures forall i :: 0 <= i < |bs| ==> r[i] == if bs[i] == Plus then Space else bs[i]
  {
    if bs == [] then [] else [if bs[0] == Plus then Space else bs[0]] + PlusToSpace(bs[1..])
  }

  /** Name or value bytes to a string: plus signs to spaces, percent-decoding, then
      UTF-8 decode without BOM. */
  function DecodeComponent(bs: seq<Utf8.Byte>): string {
    Utf8.Decode(PercentDecode(PlusToSpace(bs)))
  }

  /** One non-empty `&`-separated piece: the name is what precedes the first `=`,
      the value what follows it (empty when there is no `=`). */
  function ParsePiece(piece: seq<Utf8.Byte>): (string, string) {
    var (name, value) := SplitAtFirst(piece, EqualsSign);
    (DecodeComponent(name), DecodeComponent(value))
  }

  /** The name-value list of the pieces, empty pieces skipped. */
  function ParsePieces(pieces: seq<seq<Utf8.Byte>>): seq<(string, string)> {
    if pieces == [] then []
    else if pieces[0] == [] then ParsePieces(pieces[1..])
    else [ParsePiece(pieces[0])] + ParsePieces(pieces[1..])
  }

  /** The parser on a byte sequence. */
  function ParseBytes(input: seq<Utf8.Byte>): seq<(string, string)> {
    ParsePieces(SplitOn(input, Ampersand))
  }

  /** `new URLSearchParams(init).entries()` for a string `init`: a leading `?` is
      dropped and the rest is parsed as its UTF-8 bytes. */
  function Parse(init: string): seq<(string, string)> {
    var query := if |init| > 0 && init[0] == '?' then init[1..] else init;
    ParseBytes(Utf8.Encode(query))
  }

  /** Empty pieces contribute nothing, so the pieces are parsed one by one. */
  lemma {:induction false} ParsePiecesAppend(p: seq<seq<Utf8.Byte>>, q: seq<seq<Utf8.Byte>>)
    ensures ParsePieces(p + q) == ParsePieces(p) + ParsePieces(q)
  {
    if p == [] {
      assert p + q == q;
    } else {
      assert (p + q)[0] == p[0] && (p + q)[1..] == p[1..] + q;
      ParsePiecesAppend(p[1..], q);
    }
  }

  /** The entries of `a&b` are those of `a` followed by those of `b`. */
  lemma ParseBytesAppend(a: seq<Utf8.Byte>, b: seq<Utf8.Byte>)
    ensures ParseBytes(a + [Ampersand] + b) == ParseBytes(a) + ParseBytes(b)
  {
    SplitAppend(a, Ampersand, b);
    ParsePiecesAppend(SplitOn(a, Ampersand), SplitOn(b, Ampersand));
  }

  /** Exactly one leading `?` is dropped: a second one is part of the first name. */
  lemma ParseDropsQuestionMark(s: string)
    ensures Parse("?" + s) == ParseBytes(Utf8.Encode(s))
    ensures (s == [] || s[0] != '?') ==> Parse(s) == ParseBytes(Utf8.Encode(s))
  {
    assert ("?" + s)[1..] == s;
  }
}
