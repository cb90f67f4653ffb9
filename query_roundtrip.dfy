/** Why percent-encoded text survives the form-urlencoded parser: every byte
    `encodeURIComponent` writes is ASCII and none of `&`, `=`, `+`, and
    percent-decoding its output gives back the UTF-8 bytes it started from. */
module QueryRoundTrip {
  import Utf8
  import opened UriComponent
  import opened FormUrlencoded

  /** Encoding an ASCII character in front of a string yields its code first. */
  lemma EncodeAsciiCons(c: char, t: string)
    requires c as int < 0x80
    ensures Utf8.Encode([c] + t) == [c as int] + Utf8.Encode(t)
  {
    assert ([c] + t)[0] == c && ([c] + t)[1..] == t;
  }

  /** A hexadecimal digit character is read back as its value. */
  lemma HexDigitValue(d: int)
    requires 0 <= d < 16
    ensures HexDigit(d) as int < 0x80 && IsHexByte(HexDigit(d) as int)
    ensures HexValue(HexDigit(d) as int) == d
  {
  }

  /** One escape `%XY` is read back as its byte. */
  lemma DecodeOneEscape(b: Utf8.Byte, rest: seq<Utf8.Byte>)
    ensures PercentDecode([Percent, HexDigit(b / 16) as int, HexDigit(b % 16) as int] + rest) == [b] + PercentDecode(rest)
  {
    HexDigitValue(b / 16);
    HexDigitValue(b % 16);
    var bytes := [Percent, HexDigit(b / 16) as int, HexDigit(b % 16) as int] + rest;
    assert bytes[3..] == rest;
  }

  /** The bytes of one escape followed by more text. */
  lemma EncodeOneEscape(b: Utf8.Byte, tail: string, rest: seq<Utf8.Byte>)
    ensures Utf8.Encode(['%', HexDigit(b / 16), HexDigit(b % 16)] + tail) + rest ==
      [Percent, HexDigit(b / 16) as int, HexDigit(b % 16) as int] + (Utf8.Encode(tail) + rest)
  {
    var hi, lo := HexDigit(b / 16), HexDigit(b % 16);
    HexDigitValue(b / 16);
    HexDigitValue(b % 16);
    assert ['%', hi, lo] + tail == ['%'] + ([hi] + ([lo] + tail));
    EncodeAsciiCons('%', [hi] + ([lo] + tail));
    EncodeAsciiCons(hi, [lo] + tail);
    EncodeAsciiCons(lo, tail);
  }

  /** The bytes of the escapes of `bs`: the first byte's escape, then the rest. */
  lemma EscapeBytesFirst(bs: seq<Utf8.Byte>, rest: seq<Utf8.Byte>)
    requires bs != []
    ensures Utf8.Encode(EscapeBytes(bs)) + rest ==
      [Percent, HexDigit(bs[0] / 16) as int, HexDigit(bs[0] % 16) as int] + (Utf8.Encode(EscapeBytes(bs[1..])) + rest)
  {
    var tail := EscapeBytes(bs[1..]);
    assert EscapeBytes(bs) == ['%', HexDigit(bs[0] / 16), HexDigit(bs[0] % 16)] + tail;
    EncodeOneEscape(bs[0], tail, rest);
  }

  /** Percent-decoding the escapes of `bs` gives `bs` back. */
  lemma {:induction false} EscapeRoundTrip(bs: seq<Utf8.Byte>, rest: seq<Utf8.Byte>)
    ensures PercentDecode(Utf8.Encode(EscapeBytes(bs)) + rest) == bs + PercentDecode(rest)
  {
    if bs == [] {
      assert Utf8.Encode(EscapeBytes(bs)) + rest == rest;
    } else {
      var more := Utf8.Encode(EscapeBytes(bs[1..])) + rest;
      var escape := [Percent, HexDigit(bs[0] / 16) as int, HexDigit(bs[0] % 16) as int];
      calc {
        PercentDecode(Utf8.Encode(EscapeBytes(bs)) + rest);
        { EscapeBytesFirst(bs, rest); }
        PercentDecode(escape + more);
        { DecodeOneEscape(bs[0], more); }
        [bs[0]] + PercentDecode(more);
        { EscapeRoundTrip(bs[1..], rest); }
        [bs[0]] + (bs[1..] + PercentDecode(rest));
        { assert [bs[0]] + bs[1..] == bs; }
        bs + PercentDecode(rest);
      }
    }
  }

  /** Percent-decoding the encoding of one character gives its UTF-8 bytes. */
  lemma CharRoundTrip(c: char, rest: seq<Utf8.Byte>)
    ensures PercentDecode(Utf8.Encode(UriComponent.EncodeChar(c)) + rest) == Utf8.EncodeChar(c) + PercentDecode(rest)
  {
    if Unreserved(c) {
      EncodeAsciiCons(c, []);
      assert Utf8.Encode(UriComponent.EncodeChar(c)) + rest == [c as int] + rest;
      assert ([c as int] + rest)[1..] == rest;
    } else {
      EscapeRoundTrip(Utf8.EncodeChar(c), rest);
    }
  }

  /** Percent-decoding the bytes of `encodeURIComponent(x)` gives the bytes of `x`. */
  lemma {:induction false} ComponentBytesRoundTrip(x: string, rest: seq<Utf8.Byte>)
    ensures PercentDecode(Utf8.Encode(EncodeUriComponent(x)) + rest) == Utf8.Encode(x) + PercentDecode(rest)
  {
    if x == [] {
      assert Utf8.Encode(EncodeUriComponent(x)) + rest == rest;
    } else {
      var more := Utf8.Encode(EncodeUriComponent(x[1..])) + rest;
      calc {
        PercentDecode(Utf8.Encode(EncodeUriComponent(x)) + rest);
        { EncodeFirst(x, rest); }
        PercentDecode(Utf8.Encode(UriComponent.EncodeChar(x[0])) + more);
        { CharRoundTrip(x[0], more); }
        Utf8.EncodeChar(x[0]) + PercentDecode(more);
        { ComponentBytesRoundTrip(x[1..], rest); }
        Utf8.EncodeChar(x[0]) + (Utf8.Encode(x[1..]) + PercentDecode(rest));
        { assert Utf8.Encode(x) == Utf8.EncodeChar(x[0]) + Utf8.Encode(x[1..]); }
        Utf8.Encode(x) + PercentDecode(rest);
      }
    }
  }

  /** The bytes of `a + b`, followed by `rest`. */
  lemma EncodeThen(a: string, b: string, rest: seq<Utf8.Byte>)
    ensures Utf8.Encode(a + b) + rest == Utf8.Encode(a) + (Utf8.Encode(b) + rest)
  {
    Utf8.EncodeAppend(a, b);
  }

  /** The bytes of an encoded string: those of its first character's escape, then
      the rest. */
  lemma EncodeFirst(x: string, rest: seq<Utf8.Byte>)
    requires x != []
    ensures Utf8.Encode(EncodeUriComponent(x)) + rest ==
      Utf8.Encode(UriComponent.EncodeChar(x[0])) + (Utf8.Encode(EncodeUriComponent(x[1..])) + rest)
  {
    var head, tail := UriComponent.EncodeChar(x[0]), EncodeUriComponent(x[1..]);
    assert EncodeUriComponent(x) == head + tail;
    EncodeThen(head, tail, rest);
  }

  /** The bytes of ASCII text built from encoded characters and `=`: one byte per
      character, none of them `&`, `+` or `?`. */
  lemma EncodedTextBytes(s: string)
    requires forall i :: 0 <= i < |s| ==> EncodedChar(s[i]) || s[i] == '='
    ensures |Utf8.Encode(s)| == |s|
    ensures forall i :: 0 <= i < |s| ==> Utf8.Encode(s)[i] == s[i] as int
    ensures Ampersand !in Utf8.Encode(s) && Plus !in Utf8.Encode(s)
  {
    Utf8.EncodeAscii(s);
  }

  /** The bytes of an encoded component hold no `=` either. */
  lemma EncodedComponentBytes(x: string)
    ensures var bs := Utf8.Encode(EncodeUriComponent(x));
      Ampersand !in bs && Plus !in bs && EqualsSign !in bs
  {
    var s := EncodeUriComponent(x);
    EncodedTextBytes(s);
  }

  /** An encoded component decodes to the original text. */
  lemma ComponentRoundTrip(x: string)
    ensures DecodeComponent(Utf8.Encode(EncodeUriComponent(x))) == x
  {
    var bs := Utf8.Encode(EncodeUriComponent(x));
    EncodedComponentBytes(x);
    assert PlusToSpace(bs) == bs;
    ComponentBytesRoundTrip(x, []);
    assert bs + [] == bs;
    assert PercentDecode([]) == [];
    assert PercentDecode(bs) == Utf8.Encode(x) + [] == Utf8.Encode(x);
    Utf8.DecodeEncode(x);
  }

  /** `enc(k)=enc(v)` parses back to the pair. */
  lemma PieceRoundTrip(k: string, v: string)
    ensures ParsePiece(Utf8.Encode(EncodeUriComponent(k) + "=" + EncodeUriComponent(v))) == (k, v)
  {
    var ek, ev := EncodeUriComponent(k), EncodeUriComponent(v);
    Utf8.EncodeAppend(ek + "=", ev);
    Utf8.EncodeAppend(ek, "=");
    assert Utf8.Encode("=") == [EqualsSign];
    EncodedComponentBytes(k);
    Sequences.SplitAtFirstAfter(Utf8.Encode(ek), EqualsSign, Utf8.Encode(ev));
    ComponentRoundTrip(k);
    ComponentRoundTrip(v);
  }
}
