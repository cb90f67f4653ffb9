/** UTF-8, as the Encoding Standard defines its encoder and its decoder (the
    "UTF-8 decoder" handler of section 8.1.1, run in replacement mode). The decoder is
    the last step of the application/x-www-form-urlencoded parser. */
module Utf8 {

  type Byte = b: int | 0 <= b < 256

  /** The UTF-8 bytes of one scalar value. */
  function EncodeChar(c: char): (bs: seq<Byte>)
    ensures 1 <= |bs| <= 4
    ensures (c as int < 0x80) == (|bs| == 1)
    ensures |bs| == 1 ==> bs[0] == c as int
  {
    var n := c as int;
    if n < 0x80 then [n]
    else if n < 0x800 then [0xC0 + n / 64, 0x80 + n % 64]
    else if n < 0x10000 then [0xE0 + n / 4096, 0x80 + (n / 64) % 64, 0x80 + n % 64]
    else [0xF0 + n / 262144, 0x80 + (n / 4096) % 64, 0x80 + (n / 64) % 64, 0x80 + n % 64]
  }

  /** The UTF-8 bytes of a string. */
  function Encode(s: string): seq<Byte> {
    if s == [] then [] else EncodeChar(s[0]) + Encode(s[1..])
  }

  lemma {:induction false} EncodeAppend(a: string, b: string)
    ensures Encode(a + b) == Encode(a) + Encode(b)
  {
    if a != [] {
      assert (a + b)[0] == a[0] && (a + b)[1..] == a[1..] + b;
      EncodeAppend(a[1..], b);
    } else {
      assert a + b == b;
    }
  }

  /** An ASCII string encodes to its own code points, one byte each. */
  lemma {:induction false} EncodeAscii(s: string)
    requires forall i :: 0 <= i < |s| ==> s[i] as int < 0x80
    ensures |Encode(s)| == |s|
    ensures forall i :: 0 <= i < |s| ==> Encode(s)[i] == s[i] as int
  {
    if s != [] {
      EncodeAscii(s[1..]);
    }
  }

  const Replacement: char := '�'

  /** The decoder state after a lead byte: `cp` is the code point read so far,
      `needed` the continuation bytes still to come and [`lower`, `upper`] the range
      the next one must lie in. Every state the decoder can reach is feasible: whatever
      in-range bytes follow, the code point they complete is a scalar value. */
  predicate Feasible(cp: int, needed: int, lower: int, upper: int) {
    && 1 <= needed <= 3 && 0x80 <= lower <= upper <= 0xBF && 0 <= cp
    && var lo :=
         if needed == 1 then cp * 64 + (lower - 0x80)
         else if needed == 2 then cp * 4096 + (lower - 0x80) * 64
         else cp * 262144 + (lower - 0x80) * 4096;
       var hi :=
         if needed == 1 then cp * 64 + (upper - 0x80)
         else if needed == 2 then cp * 4096 + (upper - 0x80) * 64 + 63
         else cp * 262144 + (upper - 0x80) * 4096 + 4095;
       (hi < 0xD800 || 0xE000 <= lo) && hi < 0x110000
  }

  /** UTF-8 decode: every well-formed byte sequence becomes its scalar value; each
      maximal ill-formed subsequence becomes U+FFFD. */
  function Decode(bs: seq<Byte>): string
    decreases |bs|, 1
  {
    if bs == [] then []
    else
      var b := bs[0];
      if b < 0x80 then [b as char] + Decode(bs[1..])
      else if 0xC2 <= b <= 0xDF then Continue(bs[1..], b - 0xC0, 1, 0x80, 0xBF)
      else if 0xE0 <= b <= 0xEF then
        Continue(bs[1..], b - 0xE0, 2, if b == 0xE0 then 0xA0 else 0x80, if b == 0xED then 0x9F else 0xBF)
      else if 0xF0 <= b <= 0xF4 then
        Continue(bs[1..], b - 0xF0, 3, if b == 0xF0 then 0x90 else 0x80, if b == 0xF4 then 0x8F else 0xBF)
      else [Replacement] + Decode(bs[1..])
  }

  /** The decoder after a lead byte: reads the continuation bytes. A byte out of range
      is an error and is put back, to be read again as a lead byte; the end of the
      input in the middle of a sequence is an error. */
  function Continue(rest: seq<Byte>, cp: int, needed: int, lower: int, upper: int): string
    requires Feasible(cp, needed, lower, upper)
    decreases |rest|, 2
  {
    if rest == [] then [Replacement]
    else
      var b := rest[0];
      if b < lower || upper < b then [Replacement] + Decode(rest)
      else if needed == 1 then [(cp * 64 + (b - 0x80)) as char] + Decode(rest[1..])
      else Continue(rest[1..], cp * 64 + (b - 0x80), needed - 1, 0x80, 0xBF)
  }

  /** Decoding the bytes of one character followed by anything reads that character
      and goes on with the rest. */
  lemma DecodeEncodeChar(c: char, rest: seq<Byte>)
    ensures Decode(EncodeChar(c) + rest) == [c] + Decode(rest)
  {
    var n := c as int;
    if n < 0x80 {
      assert (EncodeChar(c) + rest)[1..] == rest;
    } else if n < 0x800 {
      DecodeTwoBytes(c, rest);
    } else if n < 0x10000 {
      DecodeThreeBytes(c, rest);
    } else {
      DecodeFourBytes(c, rest);
    }
  }

  lemma DecodeTwoBytes(c: char, rest: seq<Byte>)
    requires 0x80 <= c as int < 0x800
    ensures Decode(EncodeChar(c) + rest) == [c] + Decode(rest)
  {
    var n := c as int;
    var b1 := 0x80 + n % 64;
    var bs := EncodeChar(c) + rest;
    assert bs[0] == 0xC0 + n / 64 && bs[1..] == [b1] + rest;
    assert n / 64 * 64 + n % 64 == n;
    assert ([b1] + rest)[1..] == rest;
    assert Continue([b1] + rest, n / 64, 1, 0x80, 0xBF) == [c] + Decode(rest);
  }

  lemma DecodeThreeBytes(c: char, rest: seq<Byte>)
    requires 0x800 <= c as int < 0x10000
    ensures Decode(EncodeChar(c) + rest) == [c] + Decode(rest)
  {
    var n := c as int;
    var q, m := n / 64, n % 64;
    assert n == q * 64 + m;
    var lead, b1, b2 := q / 64, q % 64, m;
    assert q == lead * 64 + b1;
    var bs := EncodeChar(c) + rest;
    assert n / 4096 == lead;
    assert bs[0] == 0xE0 + lead && bs[1..] == [0x80 + b1, 0x80 + b2] + rest;
    var lower := if lead == 0 then 0xA0 else 0x80;
    var upper := if lead == 13 then 0x9F else 0xBF;
    assert lower <= 0x80 + b1 <= upper;
    assert ([0x80 + b1, 0x80 + b2] + rest)[1..] == [0x80 + b2] + rest;
    assert ([0x80 + b2] + rest)[1..] == rest;
    assert Continue([0x80 + b2] + rest, q, 1, 0x80, 0xBF) == [c] + Decode(rest);
    assert Continue([0x80 + b1, 0x80 + b2] + rest, lead, 2, lower, upper) == [c] + Decode(rest);
  }

  lemma DecodeFourBytes(c: char, rest: seq<Byte>)
    requires 0x10000 <= c as int
    ensures Decode(EncodeChar(c) + rest) == [c] + Decode(rest)
  {
    var n := c as int;
    var q, m := n / 64, n % 64;
    assert n == q * 64 + m;
    var q2, b2 := q / 64, q % 64;
    assert q == q2 * 64 + b2;
    var lead, b1 := q2 / 64, q2 % 64;
    assert q2 == lead * 64 + b1;
    assert n / 4096 == q2 && n / 262144 == lead;
    var bs := EncodeChar(c) + rest;
    assert bs[0] == 0xF0 + lead && bs[1..] == [0x80 + b1, 0x80 + b2, 0x80 + m] + rest;
    var lower := if lead == 0 then 0x90 else 0x80;
    var upper := if lead == 4 then 0x8F else 0xBF;
    assert lower <= 0x80 + b1 <= upper;
    ContinueThree(c, lead, lower, upper, b1, b2, m, rest);
  }

  /** The three continuation bytes of a four-byte sequence complete its code point. */
  lemma ContinueThree(c: char, lead: int, lower: int, upper: int, b1: int, b2: int, m: int, rest: seq<Byte>)
    requires Feasible(lead, 3, lower, upper)
    requires lower <= 0x80 + b1 <= upper && 0 <= b2 < 64 && 0 <= m < 64
    requires c as int == ((lead * 64 + b1) * 64 + b2) * 64 + m
    ensures Continue([0x80 + b1, 0x80 + b2, 0x80 + m] + rest, lead, 3, lower, upper) == [c] + Decode(rest)
  {
    assert ([0x80 + b1, 0x80 + b2, 0x80 + m] + rest)[1..] == [0x80 + b2, 0x80 + m] + rest;
    assert ([0x80 + b2, 0x80 + m] + rest)[1..] == [0x80 + m] + rest;
    assert ([0x80 + m] + rest)[1..] == rest;
    assert Continue([0x80 + m] + rest, (lead * 64 + b1) * 64 + b2, 1, 0x80, 0xBF) == [c] + Decode(rest);
    assert Continue([0x80 + b2, 0x80 + m] + rest, lead * 64 + b1, 2, 0x80, 0xBF) == [c] + Decode(rest);
  }

  /** Decoding undoes encoding: the UTF-8 bytes of any string decode to that string. */
  lemma {:induction false} DecodeEncode(s: string)
    ensures Decode(Encode(s)) == s
  {
    if s != [] {
      DecodeEncodeChar(s[0], Encode(s[1..]));
      DecodeEncode(s[1..]);
      assert [s[0]] + s[1..] == s;
    }
  }
}
