/** `data:` URIs with Base64 payload (section 3 of RFC 2397), as the engines build them:
    `data:<mime>;base64,<payload>`, and a parser that inverts that construction. */
module DataUris {
  import opened Wrappers
  import opened Text
  import opened Base64

  const Marker: string := ";base64,"

  /** The URI the engines write for an image of type `mime` with bytes `bytes`. */
  function DataUri(mime: string, bytes: seq<Byte>): string {
    "data:" + mime + Marker + Encode(bytes)
  }

  /** The characters a data URI of this project is made of: letters, digits, the Base64
      symbols and the separators of the scheme. */
  predicate IsUriChar(c: char) {
    || 'a' <= c <= 'z' || 'A' <= c <= 'Z' || '0' <= c <= '9'
    || c == '+' || c == '/' || c == '=' || c == ':' || c == ';' || c == ','
  }

  /** A URI built from a type spelled with those characters is spelled with them too. */
  lemma DataUriChars(mime: string, bytes: seq<Byte>)
    requires forall j :: 0 <= j < |mime| ==> IsUriChar(mime[j])
    ensures forall j :: 0 <= j < |DataUri(mime, bytes)| ==> IsUriChar(DataUri(mime, bytes)[j])
  {
    var u := DataUri(mime, bytes);
    var b := Encode(bytes);
    EncodeAlphabet(bytes);
    forall j | 0 <= j < |u|
      ensures IsUriChar(u[j])
    {
      if j < 5 {
        assert u[j] == "data:"[j];
      } else if j < 5 + |mime| {
        assert u[j] == mime[j - 5];
      } else if j < 5 + |mime| + |Marker| {
        assert u[j] == Marker[j - 5 - |mime|];
      } else {
        assert u[j] == b[j - 5 - |mime| - |Marker|];
      }
    }
  }

  /** An image type gives an image URI, which the engines' `data:image` skip test recognises. */
  lemma DataUriPrefix(mime: string, bytes: seq<Byte>)
    requires StartsWith(mime, "image/")
    ensures StartsWith(DataUri(mime, bytes), "data:image/")
  {
    var u := DataUri(mime, bytes);
    assert u[..11] == "data:" + mime[..6];
  }

  /** Splits a `data:` URI at its first `;base64,` and decodes the payload. */
  function ParseDataUri(u: string): (r: Option<(string, seq<Byte>)>)
    ensures r.Some? ==> StartsWith(u, "data:" + r.value.0 + Marker)
  {
    if !StartsWith(u, "data:") then None
    else
      var rest := u[5..];
      match IndexOf(rest, Marker)
      case None => None
      case Some(k) =>
        match Decode(rest[k + |Marker|..])
        case None => None
        case Some(bytes) =>
          assert u[..5 + k + |Marker|] == "data:" + rest[..k] + Marker by {
            assert rest[k..k + |Marker|] == Marker;
            assert u[..5 + k + |Marker|] == u[..5] + rest[..k] + rest[k..k + |Marker|];
          }
          Some((rest[..k], bytes))
  }

  /** Round trip: a URI built from a MIME type without `;` parses back to that type and the
      very bytes it was built from. */
  lemma ParseDataUriRoundTrip(mime: string, bytes: seq<Byte>)
    requires ';' !in mime
    ensures ParseDataUri(DataUri(mime, bytes)) == Some((mime, bytes))
  {
    var u := DataUri(mime, bytes);
    var rest := u[5..];
    assert rest == mime + Marker + Encode(bytes);
    assert OccursAt(rest, Marker, |mime|) by {
      assert rest[|mime|..|mime| + |Marker|] == Marker;
    }
    forall j | 0 <= j < |mime|
      ensures !OccursAt(rest, Marker, j)
    {
      assert rest[j] == mime[j];
    }
    var k := IndexOf(rest, Marker);
    assert k == Some(|mime|);
    assert rest[|mime| + |Marker|..] == Encode(bytes);
    assert rest[..|mime|] == mime;
    DecodeEncode(bytes);
  }
}
