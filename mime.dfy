/** `getMimeType` of the plugins: a case-insensitive lookup over seven extensions with
    `image/png` as the fallback. */
module Mime {
  import opened Text

  const MimeTypes: map<string, string> := map[
    "png" := "image/png",
    "jpg" := "image/jpeg",
    "jpeg" := "image/jpeg",
    "gif" := "image/gif",
    "webp" := "image/webp",
    "svg" := "image/svg+xml",
    "bmp" := "image/bmp"
  ]

  /** The MIME type for a file extension, as the plugins evidently intend it: the table
      entry for the lower-cased extension, and `image/png` for anything else. */
  function GetMimeType(extension: string): (r: string)
    ensures r in MimeTypes.Values
    ensures StartsWith(r, "image/")
  {
    var key := LowerAscii(extension);
    if key in MimeTypes then MimeTypes[key]
    else assert MimeTypes["png"] == "image/png"; "image/png"
  }

  /** The lookup as written: `mimeTypes[key] || 'image/png'` on an object literal also finds
      the properties every object inherits. The only inherited properties with all-lower-case
      names are `constructor` (the `Object` function) and `__proto__` (`Object.prototype`);
      both are truthy, so they are returned and later turned into text by the template
      literal that builds the data URI. */
  function GetMimeTypeAsWritten(extension: string): string {
    var key := LowerAscii(extension);
    if key in MimeTypes then MimeTypes[key]
    else if key == "constructor" then "function Object() { [native code] }"
    else if key == "__proto__" then "[object Object]"
    else "image/png"
  }

  /** Away from the two inherited names the lookup as written is the intended one. */
  lemma AsWrittenAgreesOffPrototype(extension: string)
    requires LowerAscii(extension) != "constructor" && LowerAscii(extension) != "__proto__"
    ensures GetMimeTypeAsWritten(extension) == GetMimeType(extension)
  {
  }

  /** An image file named `x.constructor` gets a "MIME type" that is not an image type, so
      its data URI does not start with `data:image`. */
  lemma AsWrittenConstructorIsNotImage()
    ensures GetMimeTypeAsWritten("constructor") == "function Object() { [native code] }"
    ensures !StartsWith(GetMimeTypeAsWritten("constructor"), "image/")
  {
    assert LowerAscii("constructor") == "constructor";
    assert "function Object() { [native code] }"[0] == 'f';
  }

  /** Case-insensitivity: extensions that differ only in ASCII case get the same type. */
  lemma {:induction false} MimeIgnoresCase(e1: string, e2: string)
    requires |e1| == |e2|
    requires forall i :: 0 <= i < |e1| ==> LowerChar(e1[i]) == LowerChar(e2[i])
    ensures GetMimeType(e1) == GetMimeType(e2)
  {
    assert LowerAscii(e1) == LowerAscii(e2);
  }

  /** The characters the MIME types of the table are made of. */
  predicate IsMimeChar(c: char) {
    'a' <= c <= 'z' || c == '/' || c == '+'
  }

  /** Every type the lookup returns is spelled with lower-case letters, `/` and `+` only:
      no `;` that would end the type inside a data URI and no `)` that would end a
      markdown reference. */
  lemma MimeTypeChars(extension: string)
    ensures forall j :: 0 <= j < |GetMimeType(extension)| ==> IsMimeChar(GetMimeType(extension)[j])
  {
    var r := GetMimeType(extension);
    assert r in MimeTypes.Values;
    assert r == "image/png" || r == "image/jpeg" || r == "image/gif" || r == "image/webp"
      || r == "image/svg+xml" || r == "image/bmp";
  }
}
