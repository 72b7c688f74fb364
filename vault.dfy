/** The image side of the three plugin sources (main.ts, main.js and ObsidianPlugin/main.ts):
    cleaning a captured path, resolving it against the vault in priority order, and
    turning the file it finds into a Base64 `data:` URI.

    The vault is abstract: a map from vault path to what `getAbstractFileByPath` returns,
    and the host's link resolver `getFirstLinkpathDest` as an opaque function. A file whose
    `data` is `None` is one whose `readBinary` throws. */
module Vault {
  import opened Wrappers
  import opened Text
  import opened Base64
  import opened Mime
  import opened UriDecode
  import opened DataUris

  /** The three plugin sources: `main.ts`, `main.js` and the earlier `ObsidianPlugin/main.ts`. */
  datatype Edition = MainTs | MainJs | EarlyTs

  /** A vault item: a file (`TFile`) with its extension and, unless reading it fails, its
      bytes; or a folder. */
  datatype Entry = File(extension: string, data: Option<seq<Byte>>) | Folder

  /** `getAbstractFileByPath` as a map, and `getFirstLinkpathDest(linkpath, sourcePath)`. */
  datatype Store = Store(entries: map<string, Entry>, linkDest: (string, string) -> Option<Entry>)

  /** The document being converted: its vault path, its base name and the path of its parent
      folder, if it has one. */
  datatype SourceFile = SourceFile(path: string, basename: string, parent: Option<string>)

  function Lookup(store: Store, path: string): Option<Entry> {
    if path in store.entries then Some(store.entries[path]) else None
  }

  /** The check a resolution step makes on what it found: `instanceof TFile` in the
      TypeScript sources, a truthy `extension` in main.js (which a folder does not have, and
      an empty extension fails). */
  predicate Accepts(edition: Edition, found: Option<Entry>) {
    found.Some? && found.value.File? && (edition == MainJs ==> found.value.extension != "")
  }

  /** `imagePath.replace(/^<|>$/g, '')`: drops one leading `<` and one trailing `>`. */
  function StripAngle(p: string): (r: string)
    ensures |r| <= |p|
  {
    var a := if p != [] && p[0] == '<' then p[1..] else p;
    if a != [] && a[|a| - 1] == '>' then a[..|a| - 1] else a
  }

  /** A path wrapped in angle brackets loses exactly the brackets. */
  lemma StripAngleUnwraps(x: string)
    ensures StripAngle("<" + x + ">") == x
  {
    var a := ("<" + x + ">")[1..];
    assert a == x + ">";
    assert a[..|a| - 1] == x;
  }

  /** A path that neither starts with `<` nor ends with `>` is left alone. */
  lemma StripAngleKeeps(x: string)
    requires x == [] || (x[0] != '<' && x[|x| - 1] != '>')
    ensures StripAngle(x) == x
  {
  }

  /** The path that is looked up: stripped, trimmed and, in main.ts only, percent-decoded,
      keeping the undecoded text when `decodeURIComponent` throws. */
  function CleanPath(edition: Edition, imagePath: string): string {
    var c := Trim(StripAngle(imagePath));
    if edition == MainTs then
      match DecodeUriComponent(c)
      case Some(d) => d
      case None => c
    else c
  }

  /** The three lookups in the order the sources make them: the vault root, the document's
      folder (only when it has a parent), the host's link resolution. */
  function Candidates(edition: Edition, store: Store, imagePath: string, source: SourceFile): (cs: seq<Option<Entry>>)
    ensures |cs| == if source.parent.Some? then 3 else 2
  {
    var c := CleanPath(edition, imagePath);
    [Lookup(store, c)]
    + (if source.parent.Some? then [Lookup(store, source.parent.value + "/" + c)] else [])
    + [store.linkDest(c, source.path)]
  }

  /** The first candidate the edition accepts. */
  function FirstAccepted(edition: Edition, cs: seq<Option<Entry>>): (r: Option<Entry>)
    ensures r.Some? ==> exists i :: (0 <= i < |cs| && r == cs[i] && Accepts(edition, cs[i])
      && forall j :: 0 <= j < i ==> !Accepts(edition, cs[j]))
    ensures r.None? ==> forall i :: 0 <= i < |cs| ==> !Accepts(edition, cs[i])
  {
    if cs == [] then None
    else if Accepts(edition, cs[0]) then
      cs[0]
    else
      var r := FirstAccepted(edition, cs[1..]);
      if r.Some? then
        var i :| 0 <= i < |cs[1..]| && r == cs[1..][i] && Accepts(edition, cs[1..][i])
          && forall j :: 0 <= j < i ==> !Accepts(edition, cs[1..][j]);
        assert forall j :: 0 <= j < i + 1 ==> !Accepts(edition, cs[j]) by {
          forall j | 0 <= j < i + 1 ensures !Accepts(edition, cs[j]) {
            if j > 0 { assert cs[j] == cs[1..][j - 1]; }
          }
        }
        r
      else
        assert forall i :: 0 <= i < |cs| ==> !Accepts(edition, cs[i]) by {
          forall i | 0 <= i < |cs| ensures !Accepts(edition, cs[i]) {
            if i > 0 { assert cs[i] == cs[1..][i - 1]; }
          }
        }
        r
  }

  /** `resolveImagePath`: early returns over the three lookups; never throws. */
  function ResolveImagePath(edition: Edition, store: Store, imagePath: string, source: SourceFile): (r: Option<Entry>)
    ensures r.Some? ==> Accepts(edition, r)
  {
    var c := CleanPath(edition, imagePath);
    var root := Lookup(store, c);
    if Accepts(edition, root) then root
    else
      var relative := if source.parent.Some? then Lookup(store, source.parent.value + "/" + c) else None;
      if source.parent.Some? && Accepts(edition, relative) then relative
      else
        var linked := store.linkDest(c, source.path);
        if Accepts(edition, linked) then linked else None
  }

  /** Resolution is the first accepted candidate in priority order: a hit at an earlier
      step always wins, and the result is `null` only when no step finds a file. */
  lemma ResolveIsFirstAccepted(edition: Edition, store: Store, imagePath: string, source: SourceFile)
    ensures ResolveImagePath(edition, store, imagePath, source) == FirstAccepted(edition, Candidates(edition, store, imagePath, source))
  {
    var c := CleanPath(edition, imagePath);
    var root := Lookup(store, c);
    var linked := store.linkDest(c, source.path);
    FirstAcceptedLast(edition, linked);
    if source.parent.Some? {
      var relative := Lookup(store, source.parent.value + "/" + c);
      assert Candidates(edition, store, imagePath, source) == [root] + [relative, linked];
      FirstAcceptedCons(edition, root, [relative, linked]);
      assert [relative, linked] == [relative] + [linked];
      FirstAcceptedCons(edition, relative, [linked]);
    } else {
      assert Candidates(edition, store, imagePath, source) == [root] + [linked];
      FirstAcceptedCons(edition, root, [linked]);
    }
  }

  lemma FirstAcceptedCons(edition: Edition, x: Option<Entry>, rest: seq<Option<Entry>>)
    ensures FirstAccepted(edition, [x] + rest) == if Accepts(edition, x) then x else FirstAccepted(edition, rest)
  {
    assert ([x] + rest)[1..] == rest;
  }

  lemma FirstAcceptedLast(edition: Edition, x: Option<Entry>)
    ensures FirstAccepted(edition, [x]) == if Accepts(edition, x) then x else None
  {
    FirstAcceptedCons(edition, x, []);
    assert [x] + [] == [x];
  }

  /** `imageToBase64` as a function: `data:<mime>;base64,<payload>` for the resolved file,
      `null` when nothing resolves or reading throws. */
  function ImageData(edition: Edition, store: Store, imagePath: string, source: SourceFile): (r: Option<string>)
    ensures r.Some? ==> StartsWith(r.value, "data:image/")
  {
    match ResolveImagePath(edition, store, imagePath, source)
    case None => None
    case Some(f) =>
      match f.data
      case None => None
      case Some(bytes) =>
        var mime := GetMimeType(f.extension);
        DataUriPrefix(mime, bytes);
        Some(DataUri(mime, bytes))
  }

  /** `imageToBase64`: resolves, reads, and encodes with the byte loop of `arrayBufferToBase64`. */
  method ImageToBase64(edition: Edition, store: Store, imagePath: string, source: SourceFile) returns (r: Option<string>)
    ensures r == ImageData(edition, store, imagePath, source)
  {
    var imageFile := ResolveImagePath(edition, store, imagePath, source);
    if imageFile.None? {
      return None;
    }
    var f := imageFile.value;
    if f.data.None? {
      return None;
    }
    var base64 := ArrayBufferToBase64(f.data.value);
    var mimeType := GetMimeType(f.extension);
    r := Some("data:" + mimeType + ";base64," + base64);
  }

  /** A file found at the vault root is the one resolved, and a readable one gives its URI. */
  lemma ResolvedAtRoot(edition: Edition, store: Store, imagePath: string, source: SourceFile)
    requires Accepts(edition, Lookup(store, CleanPath(edition, imagePath)))
    ensures ResolveImagePath(edition, store, imagePath, source) == Lookup(store, CleanPath(edition, imagePath))
    ensures var f := Lookup(store, CleanPath(edition, imagePath)).value;
      f.data.Some? ==> ImageData(edition, store, imagePath, source) == Some(DataUri(GetMimeType(f.extension), f.data.value))
  {
  }

  /** What a produced URI carries: the resolved file's type and exactly its bytes. */
  lemma ImageDataRoundTrip(edition: Edition, store: Store, imagePath: string, source: SourceFile)
    requires ImageData(edition, store, imagePath, source).Some?
    ensures var f := ResolveImagePath(edition, store, imagePath, source).value;
      f.File? && f.data.Some?
      && ParseDataUri(ImageData(edition, store, imagePath, source).value) == Some((GetMimeType(f.extension), f.data.value))
  {
    var f := ResolveImagePath(edition, store, imagePath, source).value;
    var mime := GetMimeType(f.extension);
    MimeTypeChars(f.extension);
    assert ';' !in mime by {
      forall j | 0 <= j < |mime| ensures mime[j] != ';' {
        assert IsMimeChar(mime[j]);
      }
    }
    ParseDataUriRoundTrip(mime, f.data.value);
  }

  /** A produced URI is spelled with letters, digits and `+/=:;,` only. */
  lemma ImageDataChars(edition: Edition, store: Store, imagePath: string, source: SourceFile)
    requires ImageData(edition, store, imagePath, source).Some?
    ensures var u := ImageData(edition, store, imagePath, source).value;
      forall j :: 0 <= j < |u| ==> IsUriChar(u[j])
  {
    var f := ResolveImagePath(edition, store, imagePath, source).value;
    var mime := GetMimeType(f.extension);
    MimeTypeChars(f.extension);
    DataUriChars(mime, f.data.value);
  }

  /** Without a `%` in the cleaned path, the decoding step of main.ts changes nothing: it
      resolves exactly as the earlier plugin does. */
  lemma MainTsAgreesWithoutEscapes(store: Store, imagePath: string, source: SourceFile)
    requires '%' !in Trim(StripAngle(imagePath))
    ensures ResolveImagePath(MainTs, store, imagePath, source) == ResolveImagePath(EarlyTs, store, imagePath, source)
    ensures ImageData(MainTs, store, imagePath, source) == ImageData(EarlyTs, store, imagePath, source)
  {
    NoEscapeDecodesToItself(Trim(StripAngle(imagePath)));
    ResolvesAlike(MainTs, EarlyTs, store, imagePath, source);
    SameFileSameData(MainTs, EarlyTs, store, imagePath, source);
  }

  /** Two editions that clean a path alike and accept the same entries resolve it alike. */
  lemma ResolvesAlike(e1: Edition, e2: Edition, store: Store, imagePath: string, source: SourceFile)
    requires CleanPath(e1, imagePath) == CleanPath(e2, imagePath)
    requires e1 != MainJs && e2 != MainJs
    ensures ResolveImagePath(e1, store, imagePath, source) == ResolveImagePath(e2, store, imagePath, source)
  {
  }

  /** The URI depends on the edition only through the file it resolves. */
  lemma SameFileSameData(e1: Edition, e2: Edition, store: Store, imagePath: string, source: SourceFile)
    requires ResolveImagePath(e1, store, imagePath, source) == ResolveImagePath(e2, store, imagePath, source)
    ensures ImageData(e1, store, imagePath, source) == ImageData(e2, store, imagePath, source)
  {
  }

  /** main.js accepts fewer files than the TypeScript plugin: whatever it resolves, the
      earlier plugin resolves too (possibly to an earlier candidate). */
  lemma MainJsResolvesOnlyWhereEarlyTsDoes(store: Store, imagePath: string, source: SourceFile)
    requires ResolveImagePath(MainJs, store, imagePath, source).Some?
    ensures ResolveImagePath(EarlyTs, store, imagePath, source).Some?
  {
  }

  /** `a%20b.png` is cleaned to `a b.png` by main.ts and kept literally by main.js. */
  lemma CleanPathExample()
    ensures CleanPath(MainTs, "a%20b.png") == "a b.png"
    ensures CleanPath(MainJs, "a%20b.png") == "a%20b.png"
  {
    var p := "a%20b.png";
    assert StripAngle(p) == p;
    assert p[0] == 'a' && p[|p| - 1] == 'g';
    TrimKeeps(p);
    DecodeSpaceExample();
  }

  /** `a%20b.png` names the vault file `a b.png` in main.ts, while main.js looks for a file
      literally called `a%20b.png` and finds none. */
  lemma PercentEncodedPathExample()
    ensures var store := Store(map["a b.png" := File("png", Some([1]))], (l: string, s: string) => None);
      var source := SourceFile("note.md", "note", None);
      && ResolveImagePath(MainTs, store, "a%20b.png", source) == Some(File("png", Some([1])))
      && ResolveImagePath(MainJs, store, "a%20b.png", source) == None
  {
    CleanPathExample();
    assert "a%20b.png" != "a b.png" by {
      assert "a%20b.png"[1] != "a b.png"[1];
    }
  }
}
