/** Percent-decoding as ECMAScript `decodeURIComponent` does it (section 2.1 of RFC 3986 for
    the `%XY` escapes, UTF-8 for the bytes they spell). Malformed input, which makes
    `decodeURIComponent` throw a URIError, gives `None`. */
module UriDecode {
  import opened Wrappers

  function HexDigitValue(c: char): (r: Option<int>)
    ensures r.Some? ==> 0 <= r.value < 16
  {
    if '0' <= c <= '9' then Some(c as int - '0' as int)
    else if 'a' <= c <= 'f' then Some(c as int - 'a' as int + 10)
    else if 'A' <= c <= 'F' then Some(c as int - 'A' as int + 10)
    else None
  }

  /** The byte spelled by the escape `%XY` at the start of `s`. */
  function EscapedByte(s: string): (r: Option<int>)
    ensures r.Some? ==> 0 <= r.value < 256 && |s| >= 3 && s[0] == '%'
  {
    if |s| < 3 || s[0] != '%' then None
    else match (HexDigitValue(s[1]), HexDigitValue(s[2]))
      case (Some(hi), Some(lo)) => Some(hi * 16 + lo)
      case _ => None
  }

  /** The length of the UTF-8 sequence a leading byte announces, from its leading one bits;
      0 for a continuation byte (one leading one) or more than four leading ones. */
  function SequenceLength(b0: int): (n: nat)
    ensures n <= 4
  {
    if b0 < 0x80 then 1
    else if b0 < 0xC0 then 0
    else if b0 < 0xE0 then 2
    else if b0 < 0xF0 then 3
    else if b0 < 0xF8 then 4
    else 0
  }

  /** `count` escaped continuation bytes (`10xxxxxx`) at the start of `s`. */
  function Continuations(s: string, count: nat): (r: Option<seq<int>>)
    ensures r.Some? ==> |r.value| == count && 3 * count <= |s|
    ensures r.Some? ==> forall i :: 0 <= i < count ==> 0x80 <= r.value[i] < 0xC0
    decreases count
  {
    if count == 0 then Some([])
    else match EscapedByte(s)
      case None => None
      case Some(b) =>
        if b < 0x80 || 0xC0 <= b then None
        else match Continuations(s[3..], count - 1)
          case None => None
          case Some(rest) => Some([b] + rest)
  }

  /** The code point of a leading byte and its continuation bytes. */
  function CodePoint(b0: int, cs: seq<int>): int
    requires 1 <= |cs| <= 3
  {
    if |cs| == 1 then (b0 - 0xC0) * 64 + (cs[0] - 0x80)
    else if |cs| == 2 then (b0 - 0xE0) * 4096 + (cs[0] - 0x80) * 64 + (cs[1] - 0x80)
    else (b0 - 0xF0) * 262144 + (cs[0] - 0x80) * 4096 + (cs[1] - 0x80) * 64 + (cs[2] - 0x80)
  }

  /** A sequence of `n` bytes is a valid UTF-8 encoding of code point `cp`: not overlong,
      not a surrogate, not beyond U+10FFFF. */
  predicate ValidScalar(n: nat, cp: int) {
    && (n == 2 ==> 0x80 <= cp < 0x800)
    && (n == 3 ==> 0x800 <= cp < 0x10000 && !(0xD800 <= cp < 0xE000))
    && (n == 4 ==> 0x10000 <= cp < 0x110000)
  }

  function Prepend(c: char, r: Option<string>): Option<string> {
    match r
    case None => None
    case Some(t) => Some([c] + t)
  }

  /** `decodeURIComponent`: characters other than `%` are copied; an escape must spell a
      complete, valid UTF-8 sequence of escapes, which decodes to its character. */
  function DecodeUriComponent(s: string): (r: Option<string>)
    decreases |s|
  {
    if s == [] then Some([])
    else if s[0] != '%' then Prepend(s[0], DecodeUriComponent(s[1..]))
    else match EscapedByte(s)
      case None => None
      case Some(b0) =>
        var n := SequenceLength(b0);
        if n == 0 then None
        else if n == 1 then Prepend(b0 as char, DecodeUriComponent(s[3..]))
        else match Continuations(s[3..], n - 1)
          case None => None
          case Some(cs) =>
            var cp := CodePoint(b0, cs);
            if ValidScalar(n, cp) then Prepend(cp as char, DecodeUriComponent(s[3 * n..]))
            else None
  }

  /** Text without `%` decodes to itself. */
  lemma {:induction false} NoEscapeDecodesToItself(s: string)
    requires '%' !in s
    ensures DecodeUriComponent(s) == Some(s)
    decreases |s|
  {
    if s != [] {
      assert s[0] != '%';
      assert '%' !in s[1..];
      NoEscapeDecodesToItself(s[1..]);
      assert s == [s[0]] + s[1..];
    }
  }

  /** A `%` that does not start two hexadecimal digits makes decoding fail. */
  lemma BadEscapeFails(s: string)
    requires s != [] && s[0] == '%'
    requires |s| < 3 || HexDigitValue(s[1]).None? || HexDigitValue(s[2]).None?
    ensures DecodeUriComponent(s).None?
  {
  }

  // ----- An encoder that escapes every character, to state the round trip -----

  function HexChar(v: int): char
    requires 0 <= v < 16
  {
    if v < 10 then ('0' as int + v) as char else ('A' as int + v - 10) as char
  }

  function EscapeByte(b: int): string
    requires 0 <= b < 256
  {
    ['%', HexChar(b / 16), HexChar(b % 16)]
  }

  /** The UTF-8 bytes of a character. */
  function Utf8(c: char): (bs: seq<int>)
    ensures 1 <= |bs| <= 4
    ensures forall i :: 0 <= i < |bs| ==> 0 <= bs[i] < 256
  {
    var cp := c as int;
    if cp < 0x80 then [cp]
    else if cp < 0x800 then [0xC0 + cp / 64, 0x80 + cp % 64]
    else if cp < 0x10000 then [0xE0 + cp / 64 / 64, 0x80 + cp / 64 % 64, 0x80 + cp % 64]
    else [0xF0 + cp / 64 / 64 / 64, 0x80 + cp / 64 / 64 % 64, 0x80 + cp / 64 % 64, 0x80 + cp % 64]
  }

  function EscapeBytes(bs: seq<int>): (r: string)
    requires forall i :: 0 <= i < |bs| ==> 0 <= bs[i] < 256
    ensures |r| == 3 * |bs|
  {
    if bs == [] then "" else EscapeByte(bs[0]) + EscapeBytes(bs[1..])
  }

  /** Every character written as the escapes of its UTF-8 bytes. */
  function PercentEncode(s: string): string {
    if s == [] then "" else EscapeBytes(Utf8(s[0])) + PercentEncode(s[1..])
  }

  lemma EscapeByteDecodes(b: int, rest: string)
    requires 0 <= b < 256
    ensures EscapedByte(EscapeByte(b) + rest) == Some(b)
    ensures (EscapeByte(b) + rest)[3..] == rest
  {
    var e := EscapeByte(b) + rest;
    assert HexDigitValue(e[1]) == Some(b / 16);
    assert HexDigitValue(e[2]) == Some(b % 16);
  }

  /** The text after the escapes of some bytes. */
  lemma EscapeBytesRest(bs: seq<int>, rest: string)
    requires forall i :: 0 <= i < |bs| ==> 0 <= bs[i] < 256
    ensures (EscapeBytes(bs) + rest)[3 * |bs|..] == rest
  {
  }

  lemma {:induction false} ContinuationsDecode(bs: seq<int>, rest: string)
    requires forall i :: 0 <= i < |bs| ==> 0x80 <= bs[i] < 0xC0
    ensures Continuations(EscapeBytes(bs) + rest, |bs|) == Some(bs)
    decreases |bs|
  {
    if bs != [] {
      var tail := EscapeBytes(bs[1..]) + rest;
      assert EscapeBytes(bs) + rest == EscapeByte(bs[0]) + tail;
      EscapeByteDecodes(bs[0], tail);
      ContinuationsDecode(bs[1..], rest);
      assert bs == [bs[0]] + bs[1..];
    }
  }

  /** The two-byte form splits a code point into 5 and 6 bits. */
  lemma Utf8Two(cp: int)
    requires 0x80 <= cp < 0x800
    ensures 0xC0 <= 0xC0 + cp / 64 < 0xE0 && 0x80 <= 0x80 + cp % 64 < 0xC0
    ensures CodePoint(0xC0 + cp / 64, [0x80 + cp % 64]) == cp
  {
  }

  /** The three-byte form splits a code point into 4, 6 and 6 bits. */
  lemma Utf8Three(cp: int)
    requires 0x800 <= cp < 0x10000
    ensures 0xE0 <= 0xE0 + cp / 64 / 64 < 0xF0
    ensures 0x80 <= 0x80 + cp / 64 % 64 < 0xC0 && 0x80 <= 0x80 + cp % 64 < 0xC0
    ensures CodePoint(0xE0 + cp / 64 / 64, [0x80 + cp / 64 % 64, 0x80 + cp % 64]) == cp
  {
    var r1 := cp / 64;
    assert cp == r1 * 64 + cp % 64;
    assert r1 == r1 / 64 * 64 + r1 % 64;
  }

  /** The four-byte form splits a code point into 3, 6, 6 and 6 bits. */
  lemma Utf8Four(cp: int)
    requires 0x10000 <= cp < 0x110000
    ensures 0xF0 <= 0xF0 + cp / 64 / 64 / 64 < 0xF8
    ensures 0x80 <= 0x80 + cp / 64 / 64 % 64 < 0xC0
    ensures 0x80 <= 0x80 + cp / 64 % 64 < 0xC0 && 0x80 <= 0x80 + cp % 64 < 0xC0
    ensures CodePoint(0xF0 + cp / 64 / 64 / 64, [0x80 + cp / 64 / 64 % 64, 0x80 + cp / 64 % 64, 0x80 + cp % 64]) == cp
  {
    var r1 := cp / 64;
    var r2 := r1 / 64;
    assert cp == r1 * 64 + cp % 64;
    assert r1 == r2 * 64 + r1 % 64;
    assert r2 == r2 / 64 * 64 + r2 % 64;
  }

  lemma Utf8CodePoint(c: char)
    ensures |Utf8(c)| >= 2 ==> CodePoint(Utf8(c)[0], Utf8(c)[1..]) == c as int
    ensures SequenceLength(Utf8(c)[0]) == |Utf8(c)|
    ensures ValidScalar(|Utf8(c)|, c as int)
    ensures forall i :: 1 <= i < |Utf8(c)| ==> 0x80 <= Utf8(c)[i] < 0xC0
  {
    var cp := c as int;
    var bs := Utf8(c);
    if cp >= 0x10000 {
      Utf8Four(cp);
      assert bs[1..] == [0x80 + cp / 64 / 64 % 64, 0x80 + cp / 64 % 64, 0x80 + cp % 64];
    } else if cp >= 0x800 {
      Utf8Three(cp);
      assert bs[1..] == [0x80 + cp / 64 % 64, 0x80 + cp % 64];
    } else if cp >= 0x80 {
      Utf8Two(cp);
      assert bs[1..] == [0x80 + cp % 64];
    }
  }

  /** Decoding the escapes of one character's UTF-8 bytes yields that character. */
  lemma CharRoundTrip(c: char, rest: string)
    ensures DecodeUriComponent(EscapeBytes(Utf8(c)) + rest) == Prepend(c, DecodeUriComponent(rest))
  {
    Utf8CodePoint(c);
    EscapesDecode(Utf8(c), c, rest);
  }

  /** The escapes of a well-formed UTF-8 sequence for `c` decode to `c`. */
  lemma EscapesDecode(bs: seq<int>, c: char, rest: string)
    requires 1 <= |bs| <= 4 && 0 <= bs[0] < 256 && SequenceLength(bs[0]) == |bs|
    requires forall i :: 1 <= i < |bs| ==> 0x80 <= bs[i] < 0xC0
    requires |bs| == 1 ==> bs[0] == c as int
    requires |bs| >= 2 ==> CodePoint(bs[0], bs[1..]) == c as int && ValidScalar(|bs|, c as int)
    ensures DecodeUriComponent(EscapeBytes(bs) + rest) == Prepend(c, DecodeUriComponent(rest))
  {
    var tail := EscapeBytes(bs[1..]) + rest;
    var e := EscapeBytes(bs) + rest;
    assert e == EscapeByte(bs[0]) + tail;
    EscapeByteDecodes(bs[0], tail);
    if |bs| == 1 {
      assert e[3..] == rest;
    } else {
      ContinuationsDecode(bs[1..], rest);
      EscapeBytesRest(bs, rest);
    }
  }

  /** Round trip: percent-encoding any text and decoding it gives the text back. */
  lemma {:induction false} DecodeEncodeRoundTrip(s: string)
    ensures DecodeUriComponent(PercentEncode(s)) == Some(s)
    decreases |s|
  {
    if s != [] {
      DecodeEncodeRoundTrip(s[1..]);
      CharRoundTrip(s[0], PercentEncode(s[1..]));
      assert s == [s[0]] + s[1..];
    }
  }

  /** `%20` is a space: `a%20b.png` decodes to `a b.png`. */
  lemma DecodeSpaceExample()
    ensures DecodeUriComponent("a%20b.png") == Some("a b.png")
  {
    var p := "a%20b.png";
    var tail := p[1..];
    assert tail == "%20b.png";
    assert HexDigitValue('2') == Some(2) && HexDigitValue('0') == Some(0);
    assert EscapedByte(tail) == Some(32);
    assert tail[3..] == "b.png";
    NoEscapeDecodesToItself("b.png");
    assert [32 as char] + "b.png" == " b.png";
    assert DecodeUriComponent(tail) == Some(" b.png");
    assert ['a'] + " b.png" == "a b.png";
  }
}
