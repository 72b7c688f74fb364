/** Standard padded Base64 (section 4 of RFC 4648), as produced by `btoa` in the plugins and
    by Python's `base64.b64encode`, together with a decoder that inverts it. */
module Base64 {
  import opened Wrappers

  type Byte = b: int | 0 <= b < 256

  /** The character of the Base64 alphabet for a 6-bit value. */
  function Sextet(v: int): (c: char)
    requires 0 <= v < 64
  {
    if v < 26 then ('A' as int + v) as char
    else if v < 52 then ('a' as int + v - 26) as char
    else if v < 62 then ('0' as int + v - 52) as char
    else if v == 62 then '+'
    else '/'
  }

  predicate IsAlphabetChar(c: char) {
    'A' <= c <= 'Z' || 'a' <= c <= 'z' || '0' <= c <= '9' || c == '+' || c == '/'
  }

  /** The 6-bit value of an alphabet character. */
  function SextetValue(c: char): (r: Option<int>)
    ensures r.Some? <==> IsAlphabetChar(c)
    ensures r.Some? ==> 0 <= r.value < 64 && Sextet(r.value) == c
  {
    if 'A' <= c <= 'Z' then Some(c as int - 'A' as int)
    else if 'a' <= c <= 'z' then Some(c as int - 'a' as int + 26)
    else if '0' <= c <= '9' then Some(c as int - '0' as int + 52)
    else if c == '+' then Some(62)
    else if c == '/' then Some(63)
    else None
  }

  lemma SextetRoundTrip(v: int)
    requires 0 <= v < 64
    ensures SextetValue(Sextet(v)) == Some(v)
  {
  }

  /** Encoding: every three bytes become four characters; a final group of one or two bytes
      is padded with `=` to four characters. */
  function Encode(b: seq<Byte>): (r: string)
    ensures |r| == 4 * ((|b| + 2) / 3)
    decreases |b|
  {
    if |b| == 0 then ""
    else if |b| == 1 then
      [Sextet(b[0] / 4), Sextet(b[0] % 4 * 16), '=', '=']
    else if |b| == 2 then
      [Sextet(b[0] / 4), Sextet(b[0] % 4 * 16 + b[1] / 16), Sextet(b[1] % 16 * 4), '=']
    else
      [Sextet(b[0] / 4), Sextet(b[0] % 4 * 16 + b[1] / 16),
       Sextet(b[1] % 16 * 4 + b[2] / 64), Sextet(b[2] % 64)] + Encode(b[3..])
  }

  /** Every character of an encoding is an alphabet character, except at most two `=` at
      its very end. */
  lemma {:induction false} EncodeAlphabet(b: seq<Byte>)
    ensures forall i :: 0 <= i < |Encode(b)| - 2 ==> IsAlphabetChar(Encode(b)[i])
    ensures forall i :: 0 <= i < |Encode(b)| ==> IsAlphabetChar(Encode(b)[i]) || Encode(b)[i] == '='
    decreases |b|
  {
    if |b| > 2 {
      EncodeAlphabet(b[3..]);
      var head := Encode(b)[..4];
      assert Encode(b) == head + Encode(b[3..]);
    }
  }

  /** Three bytes from four 6-bit values. */
  function Quad(c0: int, c1: int, c2: int, c3: int): seq<Byte>
    requires 0 <= c0 < 64 && 0 <= c1 < 64 && 0 <= c2 < 64 && 0 <= c3 < 64
  {
    [c0 * 4 + c1 / 16, c1 % 16 * 16 + c2 / 4, c2 % 4 * 64 + c3]
  }

  /** Decoding: the inverse of `Encode`; `None` for text that is not a padded encoding. */
  function Decode(s: string): (r: Option<seq<Byte>>)
    decreases |s|
  {
    if |s| == 0 then Some([])
    else if |s| < 4 then None
    else
      var v0, v1, v2, v3 := SextetValue(s[0]), SextetValue(s[1]), SextetValue(s[2]), SextetValue(s[3]);
      if v0.None? || v1.None? then None
      else if |s| == 4 && s[2] == '=' && s[3] == '=' then
        Some(Quad(v0.value, v1.value, 0, 0)[..1])
      else if v2.None? then None
      else if |s| == 4 && s[3] == '=' then
        Some(Quad(v0.value, v1.value, v2.value, 0)[..2])
      else if v3.None? then None
      else
        match Decode(s[4..])
        case None => None
        case Some(rest) => Some(Quad(v0.value, v1.value, v2.value, v3.value) + rest)
  }

  lemma QuadOfBytes(b0: Byte, b1: Byte, b2: Byte)
    ensures Quad(b0 / 4, b0 % 4 * 16 + b1 / 16, b1 % 16 * 4 + b2 / 64, b2 % 64) == [b0, b1, b2]
  {
    var c1 := b0 % 4 * 16 + b1 / 16;
    var c2 := b1 % 16 * 4 + b2 / 64;
    assert c1 / 16 == b0 % 4 && c1 % 16 == b1 / 16;
    assert c2 / 4 == b1 % 16 && c2 % 4 == b2 / 64;
  }

  /** Decoding one group of four alphabet characters followed by more text. */
  lemma DecodeGroup(s: string, v0: int, v1: int, v2: int, v3: int)
    requires |s| >= 4
    requires SextetValue(s[0]) == Some(v0) && SextetValue(s[1]) == Some(v1)
    requires SextetValue(s[2]) == Some(v2) && SextetValue(s[3]) == Some(v3)
    ensures 0 <= v0 < 64 && 0 <= v1 < 64 && 0 <= v2 < 64 && 0 <= v3 < 64
    ensures Decode(s) == match Decode(s[4..]) case None => None case Some(rest) => Some(Quad(v0, v1, v2, v3) + rest)
  {
  }

  lemma DecodeEncodeOne(b0: Byte)
    ensures Decode(Encode([b0])) == Some([b0])
  {
    var c0, c1 := b0 / 4, b0 % 4 * 16;
    SextetRoundTrip(c0);
    SextetRoundTrip(c1);
    var e := Encode([b0]);
    assert e == [Sextet(c0), Sextet(c1), '=', '='];
    assert SextetValue(e[0]) == Some(c0) && SextetValue(e[1]) == Some(c1);
    assert Decode(e) == Some(Quad(c0, c1, 0, 0)[..1]);
    assert c0 * 4 + c1 / 16 == b0;
    assert Quad(c0, c1, 0, 0)[..1] == [b0];
  }

  lemma DecodeEncodeTwo(b0: Byte, b1: Byte)
    ensures Decode(Encode([b0, b1])) == Some([b0, b1])
  {
    var c0, c1, c2 := b0 / 4, b0 % 4 * 16 + b1 / 16, b1 % 16 * 4;
    SextetRoundTrip(c0);
    SextetRoundTrip(c1);
    SextetRoundTrip(c2);
    QuadOfBytes(b0, b1, 0);
    var e := Encode([b0, b1]);
    assert e == [Sextet(c0), Sextet(c1), Sextet(c2), '='];
    assert SextetValue(e[0]) == Some(c0) && SextetValue(e[1]) == Some(c1) && SextetValue(e[2]) == Some(c2);
    assert Decode(e) == Some(Quad(c0, c1, c2, 0)[..2]);
    assert Quad(c0, c1, c2, 0) == [b0, b1, 0];
    assert Quad(c0, c1, c2, 0)[..2] == [b0, b1];
  }

  lemma {:induction false} EncodeGroup(b: seq<Byte>)
    requires |b| > 2
    ensures Encode(b)[4..] == Encode(b[3..])
    ensures Encode(b)[..4] == [Sextet(b[0] / 4), Sextet(b[0] % 4 * 16 + b[1] / 16),
                                Sextet(b[1] % 16 * 4 + b[2] / 64), Sextet(b[2] % 64)]
  {
  }

  lemma {:induction false} DecodeEncodeBlock(b: seq<Byte>)
    requires |b| > 2
    requires Decode(Encode(b[3..])) == Some(b[3..])
    ensures Decode(Encode(b)) == Some(b)
  {
    var c0, c1, c2, c3 := b[0] / 4, b[0] % 4 * 16 + b[1] / 16, b[1] % 16 * 4 + b[2] / 64, b[2] % 64;
    var e := Encode(b);
    EncodeGroup(b);
    GroupValues(e[..4], b[0], b[1], b[2]);
    assert e[0] == e[..4][0] && e[1] == e[..4][1] && e[2] == e[..4][2] && e[3] == e[..4][3];
    DecodeGroup(e, c0, c1, c2, c3);
    QuadOfBytes(b[0], b[1], b[2]);
    assert Decode(e[4..]) == Some(b[3..]);
    assert Decode(e) == Some(Quad(c0, c1, c2, c3) + b[3..]);
    assert Quad(c0, c1, c2, c3) + b[3..] == b;
    assert Decode(e) == Some(b);
  }

  lemma GroupValues(g: string, b0: Byte, b1: Byte, b2: Byte)
    requires g == [Sextet(b0 / 4), Sextet(b0 % 4 * 16 + b1 / 16), Sextet(b1 % 16 * 4 + b2 / 64), Sextet(b2 % 64)]
    ensures SextetValue(g[0]) == Some(b0 / 4)
    ensures SextetValue(g[1]) == Some(b0 % 4 * 16 + b1 / 16)
    ensures SextetValue(g[2]) == Some(b1 % 16 * 4 + b2 / 64)
    ensures SextetValue(g[3]) == Some(b2 % 64)
  {
    SextetRoundTrip(b0 / 4);
    SextetRoundTrip(b0 % 4 * 16 + b1 / 16);
    SextetRoundTrip(b1 % 16 * 4 + b2 / 64);
    SextetRoundTrip(b2 % 64);
  }

  /** Round trip: decoding an encoding gives back exactly the bytes. */
  lemma {:induction false} DecodeEncode(b: seq<Byte>)
    ensures Decode(Encode(b)) == Some(b)
    decreases |b|
  {
    if |b| == 0 {
    } else if |b| == 1 {
      DecodeEncodeOne(b[0]);
      assert b == [b[0]];
    } else if |b| == 2 {
      DecodeEncodeTwo(b[0], b[1]);
      assert b == [b[0], b[1]];
    } else {
      DecodeEncode(b[3..]);
      DecodeEncodeBlock(b);
    }
  }

  /** The "binary string" of the plugins: one character per byte, code point = byte value. */
  function Latin1(b: seq<Byte>): (s: string)
    ensures |s| == |b|
  {
    seq(|b|, i requires 0 <= i < |b| => b[i] as char)
  }

  /** `btoa`: Base64 of a string whose characters are all below U+0100, taken as bytes. */
  function Btoa(binary: string): string
    requires forall i :: 0 <= i < |binary| ==> binary[i] as int < 256
  {
    Encode(seq(|binary|, i requires 0 <= i < |binary| => binary[i] as int))
  }

  /** `arrayBufferToBase64`: builds the binary string one `String.fromCharCode` at a time,
      then calls `btoa`. The result is the standard Base64 of the bytes. */
  method ArrayBufferToBase64(bytes: seq<Byte>) returns (r: string)
    ensures r == Encode(bytes)
    ensures Decode(r) == Some(bytes)
  {
    var binary := "";
    for i := 0 to |bytes|
      invariant binary == Latin1(bytes[..i])
    {
      binary := binary + [bytes[i] as char];
    }
    assert bytes[..|bytes|] == bytes;
    assert seq(|binary|, i requires 0 <= i < |binary| => binary[i] as int) == bytes;
    r := Btoa(binary);
    DecodeEncode(bytes);
  }
}
