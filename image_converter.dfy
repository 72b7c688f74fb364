/** The Python tool's `ImageConverter`: a converter bound to one Markdown file that rewrites
    every `![alt](path)` whose file it can read into `![alt](data:<mime>;base64,<payload>)`,
    keeping one log line per reference, and counts the references by kind.

    The file system is the abstract `Disk`; the Pillow re-encoding of non-SVG images is the
    opaque `Disk.reencode`. */
module PyConverter {
  import opened Wrappers
  import opened Text
  import opened Base64
  import opened OsPath
  import opened PyScanner
  import opened DataUris
  import Mime
  import FileUtils

  // ----- Extensions and types -----

  /** `_IsSupportedImage`: the lower-cased `splitext` extension is whitelisted. */
  predicate IsSupportedImage(filePath: string) {
    FileUtils.IsSupportedExt(SplitExt(filePath))
  }

  /** `_GetMimeType`: the table entry for the lower-cased `splitext` extension, `image/png`
      otherwise. */
  function GetMimeType(filePath: string): (r: string)
    ensures StartsWith(r, "image/")
  {
    FileUtils.MimeForExt(SplitExt(filePath))
  }

  /** A supported file never falls back to `image/png`: its type comes from the table. */
  lemma SupportedImageHitsTable(filePath: string)
    requires IsSupportedImage(filePath)
    ensures LowerAscii(SplitExt(filePath)) in FileUtils.ExtToMime
    ensures GetMimeType(filePath) == FileUtils.ExtToMime[LowerAscii(SplitExt(filePath))]
  {
    FileUtils.SupportedHitsTable(SplitExt(filePath));
  }

  /** The type is spelled with the characters of a data URI, and without `;`. */
  lemma MimeTypeIsPlain(filePath: string)
    ensures forall j :: 0 <= j < |GetMimeType(filePath)| ==> Mime.IsMimeChar(GetMimeType(filePath)[j])
  {
    var ext := SplitExt(filePath);
    FileUtils.AgreesWithPluginTable(ext);
    Mime.MimeTypeChars(if ext == [] then [] else ext[1..]);
  }

  // ----- Encoding -----

  predicate IsSvg(imagePath: string) {
    EndsWith(LowerAscii(imagePath), ".svg")
  }

  /** The bytes `_ImageToBase64` encodes: an SVG file's own bytes, otherwise what the Pillow
      re-encoding produces; a Pillow failure is re-raised with a prefix. */
  function ImageBytes(disk: Disk, imagePath: string): Attempt<seq<Byte>> {
    if IsSvg(imagePath) then disk.read(imagePath)
    else match disk.reencode(imagePath)
      case Ok(bytes) => Ok(bytes)
      case Raised(e) => Raised("图片处理失败: " + e)
  }

  /** `_ImageToBase64`: the standard Base64 text of those bytes. */
  function ImageToBase64(disk: Disk, imagePath: string): (r: Attempt<string>)
    ensures r.Ok? <==> ImageBytes(disk, imagePath).Ok?
    ensures r.Ok? ==> Decode(r.value) == Some(ImageBytes(disk, imagePath).value)
    ensures r.Raised? ==> r.message == ImageBytes(disk, imagePath).message
  {
    match ImageBytes(disk, imagePath)
    case Ok(bytes) =>
      DecodeEncode(bytes);
      Ok(Encode(bytes))
    case Raised(e) => Raised(e)
  }

  // ----- Path resolution -----

  /** One leading `/` that is not the start of `//`. */
  predicate HasLeadingSlash(p: string) {
    StartsWith(p, "/") && !StartsWith(p, "//")
  }

  /** A single leading slash is all `lstrip('/')` removes. */
  lemma LeadingSlashStripsOne(p: string)
    requires HasLeadingSlash(p)
    ensures LStripSlash(p) == p[1..]
  {
    assert p[0] == '/' by {
      assert p[..1][0] == p[0];
    }
    if |p| >= 2 {
      assert p[1] != '/' by {
        assert p[..2] == [p[0], p[1]];
      }
    }
    assert LStripSlash(p) == LStripSlash(p[1..]);
  }

  /** `dir` with `dirname` applied `k` times. */
  function Ancestor(dir: string, k: nat): string
    decreases k
  {
    if k == 0 then dir else Ancestor(Dirname(dir), k - 1)
  }

  /** The path `_GetAbsolutePath` probes in directory `d`: `path` joined onto `d`,
      normalised. */
  function TestPath(path: string): string -> string {
    d => Normpath(Join(d, path))
  }

  /** The probing loop of `_GetAbsolutePath` with `n` rounds left, probing `test(d)` in each
      directory `d`: the first probed path that exists, stopping early at a directory that is
      its own parent. */
  function ProbeWith(existing: set<string>, test: string -> string, dir: string, n: nat): Option<string>
    decreases n
  {
    if n == 0 then None
    else if test(dir) in existing then Some(test(dir))
    else
      var parent := Dirname(dir);
      if parent == dir then None else ProbeWith(existing, test, parent, n - 1)
  }

  /** The probe for an image path. */
  function Probe(existing: set<string>, dir: string, path: string, n: nat): Option<string> {
    ProbeWith(existing, TestPath(path), dir, n)
  }

  /** One round of the probe. */
  lemma ProbeStep(existing: set<string>, test: string -> string, dir: string, n: nat)
    requires n > 0
    ensures ProbeWith(existing, test, dir, n) ==
      if test(dir) in existing then Some(test(dir))
      else if Dirname(dir) == dir then None
      else ProbeWith(existing, test, Dirname(dir), n - 1)
  {
  }

  /** At a directory that is its own parent every further ancestor is that directory. */
  lemma {:induction false} AncestorOfFixpoint(dir: string, k: nat)
    requires Dirname(dir) == dir
    ensures Ancestor(dir, k) == dir
    decreases k
  {
    if k > 0 {
      AncestorOfFixpoint(dir, k - 1);
    }
  }

  /** `r` is the nearest existing path `test(d)` over the first `n` ancestors `d` of `dir`
      (`dir` itself first), or nothing when none of them exists. */
  predicate IsNearest(existing: set<string>, test: string -> string, dir: string, n: nat, r: Option<string>) {
    && (r.Some? ==> (exists k :: (0 <= k < n && r.value == test(Ancestor(dir, k)) && r.value in existing
          && forall j :: 0 <= j < k ==> test(Ancestor(dir, j)) !in existing)))
    && (r.None? ==> forall k :: 0 <= k < n ==> test(Ancestor(dir, k)) !in existing)
  }

  /** The probe finds the nearest existing candidate among the first `n` ancestors, and finds
      nothing only when none of them exists: stopping at the root loses no candidate. */
  lemma {:induction false} ProbeIsNearest(existing: set<string>, test: string -> string, dir: string, n: nat)
    ensures IsNearest(existing, test, dir, n, ProbeWith(existing, test, dir, n))
    decreases n
  {
    if n > 0 && test(dir) in existing {
      assert Ancestor(dir, 0) == dir;
    } else if n > 0 {
      if Dirname(dir) == dir {
        forall k | 0 <= k < n
          ensures test(Ancestor(dir, k)) !in existing
        {
          AncestorOfFixpoint(dir, k);
        }
      } else {
        ProbeIsNearest(existing, test, Dirname(dir), n - 1);
        ProbeShift(existing, test, dir, n, ProbeWith(existing, test, dir, n));
      }
    }
  }

  /** A probe that moves on to the parent reports what the parent's probe reports, one
      ancestor further out. */
  lemma ProbeShift(existing: set<string>, test: string -> string, dir: string, n: nat, r: Option<string>)
    requires n > 0 && test(dir) !in existing
    requires IsNearest(existing, test, Dirname(dir), n - 1, r)
    ensures IsNearest(existing, test, dir, n, r)
  {
    var parent := Dirname(dir);
    if r.Some? {
      var k :| 0 <= k < n - 1 && r.value == test(Ancestor(parent, k)) && r.value in existing
        && forall j :: 0 <= j < k ==> test(Ancestor(parent, j)) !in existing;
      assert Ancestor(dir, k + 1) == Ancestor(parent, k);
      forall j | 0 <= j < k + 1
        ensures test(Ancestor(dir, j)) !in existing
      {
        if j > 0 {
          assert Ancestor(dir, j) == Ancestor(parent, j - 1);
        }
      }
    } else {
      forall k | 0 <= k < n
        ensures test(Ancestor(dir, k)) !in existing
      {
        if k > 0 {
          assert Ancestor(dir, k) == Ancestor(parent, k - 1);
        }
      }
    }
  }

  const ProbeRounds: nat := 5

  /** `_GetAbsolutePath`: a path with one leading `/` loses it and is looked for in the
      Markdown file's directory and up to four ancestors; an absolute path (one that began
      with `//`) is kept; anything else is resolved against the Markdown file's directory. */
  function ResolvePath(existing: set<string>, markdownFilePath: string, imagePath: string): string {
    var lead := HasLeadingSlash(imagePath);
    var path := if lead then LStripSlash(imagePath) else imagePath;
    if IsAbs(path) then path
    else
      var markdownDir := Dirname(markdownFilePath);
      var probed := if lead then Probe(existing, markdownDir, path, ProbeRounds) else None;
      if probed.Some? then probed.value else Normpath(Join(markdownDir, path))
  }

  /** Without a single leading slash the converter resolves exactly as `FileUtils` does. */
  lemma ResolveAgreesWithFileUtils(existing: set<string>, markdownFilePath: string, imagePath: string)
    requires !HasLeadingSlash(imagePath)
    ensures ResolvePath(existing, markdownFilePath, imagePath) == FileUtils.GetAbsolutePath(imagePath, markdownFilePath)
  {
  }

  /** With a single leading slash, the nearest of the Markdown directory and its first four
      ancestors that holds the path wins; when none does, the path is taken relative to the
      Markdown directory. */
  lemma ResolveLeadingSlash(existing: set<string>, markdownFilePath: string, imagePath: string)
    requires HasLeadingSlash(imagePath)
    ensures var dir, path := Dirname(markdownFilePath), imagePath[1..];
      var r := ResolvePath(existing, markdownFilePath, imagePath);
      || IsNearest(existing, TestPath(path), dir, ProbeRounds, Some(r))
      || (IsNearest(existing, TestPath(path), dir, ProbeRounds, None) && r == Normpath(Join(dir, path)))
  {
    LeadingSlashStripsOne(imagePath);
    var path := imagePath[1..];
    assert !IsAbs(path);
    ProbeIsNearest(existing, TestPath(path), Dirname(markdownFilePath), ProbeRounds);
  }

  /** Relative to an absolute Markdown file, every resolved path is absolute. */
  lemma ResolvePathIsAbsolute(existing: set<string>, markdownFilePath: string, imagePath: string)
    requires IsAbs(markdownFilePath)
    ensures IsAbs(ResolvePath(existing, markdownFilePath, imagePath))
  {
    var dir := Dirname(markdownFilePath);
    DirnameAbs(markdownFilePath);
    var path := if HasLeadingSlash(imagePath) then LStripSlash(imagePath) else imagePath;
    if !IsAbs(path) {
      JoinAbs(dir, path);
      if HasLeadingSlash(imagePath) {
        ProbeIsNearest(existing, TestPath(path), dir, ProbeRounds);
        forall k | 0 <= k < ProbeRounds
          ensures IsAbs(TestPath(path)(Ancestor(dir, k)))
        {
          AncestorAbs(dir, k);
          JoinAbs(Ancestor(dir, k), path);
        }
      }
    }
  }

  lemma {:induction false} AncestorAbs(dir: string, k: nat)
    requires IsAbs(dir)
    ensures IsAbs(Ancestor(dir, k))
    decreases k
  {
    if k > 0 {
      DirnameAbs(dir);
      AncestorAbs(Dirname(dir), k - 1);
    }
  }

  // ----- One reference -----

  /** What `ReplaceImage` decides for a match, in the order it tests. */
  datatype Outcome =
    | AlreadyBase64
    | Remote
    | Missing
    | Unsupported
    | Failed(error: string)
    | Converted(uri: string)

  predicate IsBase64Path(path: string) {
    StartsWith(path, "data:image")
  }

  predicate IsRemotePath(path: string) {
    StartsWith(path, "http://") || StartsWith(path, "https://")
  }

  function Decide(disk: Disk, markdownFilePath: string, m: PyRef): Outcome {
    if IsBase64Path(m.path) then AlreadyBase64
    else if IsRemotePath(m.path) then Remote
    else
      var absolutePath := ResolvePath(disk.existing, markdownFilePath, m.path);
      if absolutePath !in disk.existing then Missing
      else if !IsSupportedImage(absolutePath) then Unsupported
      else match ImageToBase64(disk, absolutePath)
        case Raised(e) => Failed(e)
        case Ok(b64) =>
          var mime := GetMimeType(absolutePath);
          Converted(DataUri(mime, ImageBytes(disk, absolutePath).value))
  }

  /** The outcome when every test passes and the encoding succeeds. */
  lemma DecideConverts(disk: Disk, markdownFilePath: string, m: PyRef)
    requires !IsBase64Path(m.path) && !IsRemotePath(m.path)
    requires ResolvePath(disk.existing, markdownFilePath, m.path) in disk.existing
    requires IsSupportedImage(ResolvePath(disk.existing, markdownFilePath, m.path))
    requires ImageToBase64(disk, ResolvePath(disk.existing, markdownFilePath, m.path)).Ok?
    ensures var abs := ResolvePath(disk.existing, markdownFilePath, m.path);
      Decide(disk, markdownFilePath, m) == Converted(DataUri(GetMimeType(abs), ImageBytes(disk, abs).value))
  {
  }

  /** Conversely, a converted outcome is the data URI of the resolved file's bytes, and so
      starts with `data:image/`. */
  lemma DecideConverted(disk: Disk, markdownFilePath: string, m: PyRef)
    requires Decide(disk, markdownFilePath, m).Converted?
    ensures var abs := ResolvePath(disk.existing, markdownFilePath, m.path);
      && ImageBytes(disk, abs).Ok?
      && Decide(disk, markdownFilePath, m).uri == DataUri(GetMimeType(abs), ImageBytes(disk, abs).value)
    ensures StartsWith(Decide(disk, markdownFilePath, m).uri, "data:image/")
  {
    var abs := ResolvePath(disk.existing, markdownFilePath, m.path);
    DataUriPrefix(GetMimeType(abs), ImageBytes(disk, abs).value);
  }

  /** The tests are made in order and each outcome says what was found: a `data:image` path
      is never looked up, a remote path neither; a file is reported missing, unsupported or
      failed only after every earlier test passed. */
  lemma DecisionOrder(disk: Disk, markdownFilePath: string, m: PyRef)
    ensures var o := Decide(disk, markdownFilePath, m);
      var abs := ResolvePath(disk.existing, markdownFilePath, m.path);
      && (o == AlreadyBase64 <==> IsBase64Path(m.path))
      && (o == Remote <==> !IsBase64Path(m.path) && IsRemotePath(m.path))
      && (o == Missing <==> !IsBase64Path(m.path) && !IsRemotePath(m.path) && abs !in disk.existing)
      && (o == Unsupported <==> (!IsBase64Path(m.path) && !IsRemotePath(m.path) && abs in disk.existing
            && !IsSupportedImage(abs)))
      && (o.Failed? || o.Converted? <==> (!IsBase64Path(m.path) && !IsRemotePath(m.path)
            && abs in disk.existing && IsSupportedImage(abs)))
  {
  }

  /** A converted reference carries the resolved file's type and exactly the bytes that were
      encoded: for an SVG file, the bytes on disk. */
  lemma ConvertedRoundTrip(disk: Disk, markdownFilePath: string, m: PyRef)
    requires Decide(disk, markdownFilePath, m).Converted?
    ensures var abs := ResolvePath(disk.existing, markdownFilePath, m.path);
      && ImageBytes(disk, abs).Ok?
      && ParseDataUri(Decide(disk, markdownFilePath, m).uri) == Some((GetMimeType(abs), ImageBytes(disk, abs).value))
      && (IsSvg(abs) ==> disk.read(abs) == Ok(ImageBytes(disk, abs).value))
  {
    var abs := ResolvePath(disk.existing, markdownFilePath, m.path);
    var mime := GetMimeType(abs);
    MimeTypeIsPlain(abs);
    assert ';' !in mime by {
      forall j | 0 <= j < |mime| ensures mime[j] != ';' {
        assert Mime.IsMimeChar(mime[j]);
      }
    }
    ParseDataUriRoundTrip(mime, ImageBytes(disk, abs).value);
  }

  /** What the callback returns: the new reference, or the matched text unchanged. The title
      of a converted reference is dropped. */
  function Replacement(m: PyRef, o: Outcome): string {
    match o
    case Converted(uri) => "![" + m.alt + "](" + uri + ")"
    case _ => m.full
  }

  /** The log prefixes, one per outcome. */
  const SkippedBase64Message: string := "跳过（已是base64）: "
  const SkippedRemoteMessage: string := "跳过（网络链接）: "
  const MissingMessage: string := "❌ 文件不存在: "
  const UnsupportedMessage: string := "❌ 不支持的格式: "
  const FailedMessage: string := "❌ 转换失败: "
  const ConvertedMessage: string := "✓ 成功转换: "

  /** The log line for a match. */
  function LogEntry(m: PyRef, o: Outcome): string {
    match o
    case AlreadyBase64 => SkippedBase64Message + m.alt
    case Remote => SkippedRemoteMessage + m.path
    case Missing => MissingMessage + m.path
    case Unsupported => UnsupportedMessage + m.path
    case Failed(e) => FailedMessage + m.path + " - " + e
    case Converted(_) => ConvertedMessage + m.path
  }

  /** A URI the converter builds is spelled with path characters of the pattern and starts
      with `data:image`. */
  lemma ConvertedUriShape(disk: Disk, markdownFilePath: string, m: PyRef)
    requires Decide(disk, markdownFilePath, m).Converted?
    ensures var uri := Decide(disk, markdownFilePath, m).uri;
      && uri != [] && uri[0] == 'd' && IsBase64Path(uri)
      && forall j :: 0 <= j < |uri| ==> PyPathChar(uri[j])
  {
    DecideConverted(disk, markdownFilePath, m);
    var abs := ResolvePath(disk.existing, markdownFilePath, m.path);
    MimeTypeIsPlain(abs);
    UriShape(GetMimeType(abs), ImageBytes(disk, abs).value);
  }

  lemma UriShape(mime: string, bytes: seq<Byte>)
    requires forall j :: 0 <= j < |mime| ==> IsUriChar(mime[j])
    requires StartsWith(mime, "image/")
    ensures var uri := DataUri(mime, bytes);
      && uri != [] && uri[0] == 'd' && IsBase64Path(uri)
      && forall j :: 0 <= j < |uri| ==> PyPathChar(uri[j])
  {
    var uri := DataUri(mime, bytes);
    DataUriChars(mime, bytes);
    DataUriPrefix(mime, bytes);
    assert uri[..10] == uri[..11][..10];
  }

  /** A reference alone on its text is the only match of that text. */
  lemma LoneReference(alt: string, uri: string)
    requires ']' !in alt && uri != [] && uri[0] != '<'
    requires forall j :: 0 <= j < |uri| ==> PyPathChar(uri[j])
    ensures var t := "![" + alt + "](" + uri + ")";
      FindAll(t) == [PyRef(0, |t|, t, alt, uri)]
  {
    var t := "![" + alt + "](" + uri + ")";
    ReferenceMatches(alt, uri);
    assert FindAllFrom(t, |t|) == [];
  }

  /** A rewritten reference is matched again as a whole and skipped as already embedded,
      whatever file system and Markdown file the next run uses. */
  lemma RewrittenReferenceIsSkipped(disk: Disk, markdownFilePath: string, m: PyRef, s: string, later: Disk, laterPath: string)
    requires m.start <= |s| && MatchAt(s, m.start) == Some(m)
    requires Decide(disk, markdownFilePath, m).Converted?
    ensures var t := Replacement(m, Decide(disk, markdownFilePath, m));
      && FindAll(t) == [PyRef(0, |t|, t, m.alt, Decide(disk, markdownFilePath, m).uri)]
      && Decide(later, laterPath, FindAll(t)[0]) == AlreadyBase64
  {
    var uri := Decide(disk, markdownFilePath, m).uri;
    ConvertedUriShape(disk, markdownFilePath, m);
    LoneReference(m.alt, uri);
  }

  // ----- The whole text -----

  /** `re.sub` by span: the text between matches is copied, each match is replaced by its
      own replacement. */
  function Splice(s: string, k: nat, ms: seq<PyRef>, reps: seq<string>): string
    requires k <= |s| && |reps| == |ms| && Ordered(s, k, ms)
    decreases |ms|
  {
    if ms == [] then s[k..]
    else s[k..ms[0].start] + reps[0] + Splice(s, ms[0].end, ms[1..], reps[1..])
  }

  /** Replacing every match by its own text gives the text back. */
  lemma {:induction false} SpliceIdentity(s: string, k: nat, ms: seq<PyRef>, reps: seq<string>)
    requires k <= |s| && |reps| == |ms| && Ordered(s, k, ms)
    requires forall j :: 0 <= j < |ms| ==> reps[j] == ms[j].full
    ensures Splice(s, k, ms, reps) == s[k..]
    decreases |ms|
  {
    if ms != [] {
      SpliceIdentity(s, ms[0].end, ms[1..], reps[1..]);
      assert s[k..] == s[k..ms[0].start] + s[ms[0].start..ms[0].end] + s[ms[0].end..];
    }
  }

  /** The text `re.sub` splices in before match `j` is copied from the input: whatever the
      replacements, the output begins with the text before the first match. */
  lemma SplicePrefix(s: string, k: nat, ms: seq<PyRef>, reps: seq<string>)
    requires k <= |s| && |reps| == |ms| && Ordered(s, k, ms) && ms != []
    ensures StartsWith(Splice(s, k, ms, reps), s[k..ms[0].start] + reps[0])
  {
  }

  function Replacements(disk: Disk, markdownFilePath: string, ms: seq<PyRef>): (reps: seq<string>)
    ensures |reps| == |ms|
  {
    seq(|ms|, j requires 0 <= j < |ms| => Replacement(ms[j], Decide(disk, markdownFilePath, ms[j])))
  }

  function Log(disk: Disk, markdownFilePath: string, ms: seq<PyRef>): (log: seq<string>)
    ensures |log| == |ms|
  {
    if ms == [] then []
    else Log(disk, markdownFilePath, ms[..|ms| - 1]) + [LogEntry(ms[|ms| - 1], Decide(disk, markdownFilePath, ms[|ms| - 1]))]
  }

  /** One more callback adds one more log line. */
  lemma LogExtend(disk: Disk, markdownFilePath: string, ms: seq<PyRef>, i: nat)
    requires i < |ms|
    ensures Log(disk, markdownFilePath, ms[..i + 1])
      == Log(disk, markdownFilePath, ms[..i]) + [LogEntry(ms[i], Decide(disk, markdownFilePath, ms[i]))]
  {
    assert ms[..i + 1][..i] == ms[..i];
  }

  /** One step of the splice: the text before match `i`, then its replacement, then the rest. */
  lemma SpliceStep(s: string, pos: nat, ms: seq<PyRef>, reps: seq<string>, i: nat)
    requires pos <= |s| && |reps| == |ms| && i < |ms| && Ordered(s, pos, ms[i..])
    ensures pos <= ms[i].start < ms[i].end <= |s| && Ordered(s, ms[i].end, ms[i + 1..])
    ensures Splice(s, pos, ms[i..], reps[i..])
      == s[pos..ms[i].start] + reps[i] + Splice(s, ms[i].end, ms[i + 1..], reps[i + 1..])
  {
    assert ms[i..][1..] == ms[i + 1..] && reps[i..][1..] == reps[i + 1..];
  }

  /** Copying the text before match `i` and its replacement keeps what is left to splice
      in step with the whole splice. */
  lemma SpliceAdvance(s: string, pos: nat, ms: seq<PyRef>, reps: seq<string>, i: nat, out: string)
    requires pos <= |s| && |reps| == |ms| && i < |ms| && Ordered(s, pos, ms[i..])
    requires Ordered(s, 0, ms)
    requires out + Splice(s, pos, ms[i..], reps[i..]) == Splice(s, 0, ms, reps)
    ensures pos <= ms[i].start < ms[i].end <= |s| && Ordered(s, ms[i].end, ms[i + 1..])
    ensures (out + s[pos..ms[i].start] + reps[i]) + Splice(s, ms[i].end, ms[i + 1..], reps[i + 1..])
      == Splice(s, 0, ms, reps)
  {
    SpliceStep(s, pos, ms, reps, i);
  }

  /** The converted text: every match of the pattern replaced by the callback's result. */
  function Substituted(disk: Disk, markdownFilePath: string, content: string): string {
    var ms := FindAll(content);
    FindAllOrdered(content, 0, ms);
    Splice(content, 0, ms, Replacements(disk, markdownFilePath, ms))
  }

  /** When no reference converts, the text comes back unchanged. */
  lemma NothingConvertedKeepsText(disk: Disk, markdownFilePath: string, content: string)
    requires forall m :: m in FindAll(content) ==> !Decide(disk, markdownFilePath, m).Converted?
    ensures Substituted(disk, markdownFilePath, content) == content
  {
    var ms := FindAll(content);
    FindAllOrdered(content, 0, ms);
    var reps := Replacements(disk, markdownFilePath, ms);
    forall j | 0 <= j < |ms|
      ensures reps[j] == ms[j].full
    {
      assert ms[j] in ms;
    }
    SpliceIdentity(content, 0, ms, reps);
  }

  // ----- Counting -----

  datatype ImageCounts = ImageCounts(total: nat, base64: nat, http: nat, local: nat)

  /** The number of matches among `ms` whose path satisfies `p`. */
  function CountPaths(ms: seq<PyRef>, p: string -> bool): (n: nat)
    ensures n <= |ms|
  {
    if ms == [] then 0
    else CountPaths(ms[..|ms| - 1], p) + (if p(ms[|ms| - 1].path) then 1 else 0)
  }

  predicate IsLocalPath(path: string) {
    !IsBase64Path(path) && !IsRemotePath(path)
  }

  predicate IsOnlyRemotePath(path: string) {
    !IsBase64Path(path) && IsRemotePath(path)
  }

  /** What `CountImages` counts as base64 and as http are exactly the references the
      converter skips as already embedded and as remote, under any file system. */
  lemma CountsMatchDecisions(disk: Disk, markdownFilePath: string, m: PyRef)
    ensures IsBase64Path(m.path) <==> Decide(disk, markdownFilePath, m) == AlreadyBase64
    ensures IsOnlyRemotePath(m.path) <==> Decide(disk, markdownFilePath, m) == Remote
  {
  }

  // ----- The converter object -----

  /** The probing loop of `_GetAbsolutePath`, probing `test(d)` in at most `ProbeRounds`
      directories `d` from `dir` up. */
  method ProbeLoop(existing: set<string>, test: string -> string, dir: string) returns (found: Option<string>)
    ensures found == ProbeWith(existing, test, dir, ProbeRounds)
  {
    var currentDir := dir;
    var k := 0;
    while k < ProbeRounds
      invariant 0 <= k <= ProbeRounds
      invariant ProbeWith(existing, test, dir, ProbeRounds) == ProbeWith(existing, test, currentDir, ProbeRounds - k)
    {
      var testPath := test(currentDir);
      ProbeStep(existing, test, currentDir, ProbeRounds - k);
      if testPath in existing {
        return Some(testPath);
      }
      var parentDir := Dirname(currentDir);
      if parentDir == currentDir {
        break;
      }
      currentDir := parentDir;
      k := k + 1;
    }
    return None;
  }

  class ImageConverter {
    var markdownFilePath: string
    var conversionLog: seq<string>

    /** `__init__`: bound to a Markdown file, with an empty log. */
    constructor(markdownFilePath: string)
      ensures this.markdownFilePath == markdownFilePath && conversionLog == []
    {
      this.markdownFilePath := markdownFilePath;
      conversionLog := [];
    }

    /** `_GetAbsolutePath`, with its loop over at most five directories. */
    method GetAbsolutePath(disk: Disk, imagePath: string) returns (r: string)
      ensures r == ResolvePath(disk.existing, markdownFilePath, imagePath)
    {
      var hasLeadingSlash := HasLeadingSlash(imagePath);
      var path := imagePath;
      if hasLeadingSlash {
        path := LStripSlash(path);
      }
      if IsAbs(path) {
        return path;
      }
      var markdownDir := Dirname(markdownFilePath);
      if hasLeadingSlash {
        var found := ProbeLoop(disk.existing, TestPath(path), markdownDir);
        if found.Some? {
          return found.value;
        }
      }
      r := Normpath(Join(markdownDir, path));
    }

    /** The tests of `ReplaceImage`, in its order: the outcome for one match. */
    method Classify(disk: Disk, m: PyRef) returns (o: Outcome)
      ensures o == Decide(disk, markdownFilePath, m)
    {
      var imagePath := m.path;
      if StartsWith(imagePath, "data:image") {
        return AlreadyBase64;
      }
      if StartsWith(imagePath, "http://") || StartsWith(imagePath, "https://") {
        return Remote;
      }
      var absolutePath := GetAbsolutePath(disk, imagePath);
      if absolutePath !in disk.existing {
        return Missing;
      }
      if !IsSupportedImage(absolutePath) {
        return Unsupported;
      }
      match ImageToBase64(disk, absolutePath)
      case Raised(e) =>
        o := Failed(e);
      case Ok(base64Data) =>
        var mimeType := GetMimeType(absolutePath);
        var base64Url := "data:" + mimeType + ";base64," + base64Data;
        assert base64Url == DataUri(mimeType, ImageBytes(disk, absolutePath).value);
        DecideConverts(disk, markdownFilePath, m);
        o := Converted(base64Url);
    }

    /** `ReplaceImage`, the callback: decides, logs one line, returns the replacement. */
    method ReplaceImage(disk: Disk, m: PyRef) returns (rep: string)
      modifies this
      ensures markdownFilePath == old(markdownFilePath)
      ensures rep == Replacement(m, Decide(disk, markdownFilePath, m))
      ensures conversionLog == old(conversionLog) + [LogEntry(m, Decide(disk, markdownFilePath, m))]
    {
      var outcome := Classify(disk, m);
      conversionLog := conversionLog + [LogEntry(m, outcome)];
      rep := Replacement(m, outcome);
    }

    /** `ConvertMarkdown`: clears the log, runs the callback on every match left to right and
        splices the results in by span; returns the text and the log. */
    method ConvertMarkdown(disk: Disk, markdownContent: string) returns (convertedContent: string, log: seq<string>)
      modifies this
      ensures markdownFilePath == old(markdownFilePath)
      ensures conversionLog == Log(disk, markdownFilePath, FindAll(markdownContent))
      ensures convertedContent == Substituted(disk, markdownFilePath, markdownContent)
      ensures log == conversionLog
    {
      conversionLog := [];
      var ms := FindAll(markdownContent);
      FindAllOrdered(markdownContent, 0, ms);
      ghost var path := markdownFilePath;
      ghost var reps := Replacements(disk, path, ms);
      var out := "";
      var pos: nat := 0;
      var i := 0;
      while i < |ms|
        invariant 0 <= i <= |ms| && pos <= |markdownContent|
        invariant markdownFilePath == path
        invariant Ordered(markdownContent, pos, ms[i..])
        invariant conversionLog == Log(disk, path, ms[..i])
        invariant out + Splice(markdownContent, pos, ms[i..], reps[i..]) == Splice(markdownContent, 0, ms, reps)
      {
        var rep := ReplaceImage(disk, ms[i]);
        LogExtend(disk, path, ms, i);
        SpliceAdvance(markdownContent, pos, ms, reps, i, out);
        assert rep == reps[i];
        out := out + markdownContent[pos..ms[i].start] + rep;
        pos := ms[i].end;
        i := i + 1;
      }
      assert ms[..i] == ms;
      convertedContent := out + markdownContent[pos..];
      log := conversionLog;
    }

    /** `CountImages`: every match counted once, by the kind of its path. */
    method CountImages(markdownContent: string) returns (r: ImageCounts)
      ensures r.total == |FindAll(markdownContent)|
      ensures r.total == r.base64 + r.http + r.local
      ensures r.base64 == CountPaths(FindAll(markdownContent), IsBase64Path)
      ensures r.http == CountPaths(FindAll(markdownContent), IsOnlyRemotePath)
      ensures r.local == CountPaths(FindAll(markdownContent), IsLocalPath)
    {
      var matches := FindAll(markdownContent);
      var total := |matches|;
      var base64Count, httpCount, localCount := 0, 0, 0;
      for i := 0 to |matches|
        invariant base64Count == CountPaths(matches[..i], IsBase64Path)
        invariant httpCount == CountPaths(matches[..i], IsOnlyRemotePath)
        invariant localCount == CountPaths(matches[..i], IsLocalPath)
        invariant base64Count + httpCount + localCount == i
      {
        var imagePath := matches[i].path;
        assert matches[..i + 1][..i] == matches[..i];
        if StartsWith(imagePath, "data:image") {
          base64Count := base64Count + 1;
        } else if StartsWith(imagePath, "http://") || StartsWith(imagePath, "https://") {
          httpCount := httpCount + 1;
        } else {
          localCount := localCount + 1;
        }
      }
      assert matches[..|matches|] == matches;
      r := ImageCounts(total, base64Count, httpCount, localCount);
    }
  }
}
