/** The pure helpers of the Python tool's `FileUtils` module: resolving an image path against
    the Markdown file, the extension whitelist, the MIME table, and the validation of a file
    path over the abstract file system. */
module FileUtils {
  import opened Text
  import opened OsPath
  import Mime

  /** The whitelist of dotted, lower-case extensions. */
  const SupportedExts: set<string> := {".png", ".jpg", ".jpeg", ".gif", ".webp", ".svg", ".bmp"}

  /** The MIME table keyed by dotted, lower-case extension. */
  const ExtToMime: map<string, string> := map[
    ".png" := "image/png",
    ".jpg" := "image/jpeg",
    ".jpeg" := "image/jpeg",
    ".gif" := "image/gif",
    ".webp" := "image/webp",
    ".svg" := "image/svg+xml",
    ".bmp" := "image/bmp"
  ]

  /** `GetAbsolutePath`: an absolute image path as it is, otherwise the image path joined onto
      the Markdown file's directory and normalised. */
  function GetAbsolutePath(imagePath: string, markdownFilePath: string): (r: string)
    ensures IsAbs(imagePath) ==> r == imagePath
    ensures IsAbs(markdownFilePath) ==> IsAbs(r)
  {
    if IsAbs(imagePath) then imagePath
    else
      var dir := Dirname(markdownFilePath);
      if IsAbs(markdownFilePath) then
        DirnameAbs(markdownFilePath);
        JoinAbs(dir, imagePath);
        Normpath(Join(dir, imagePath))
      else Normpath(Join(dir, imagePath))
  }

  /** Relative to an absolute Markdown file, resolving a second time changes nothing. */
  lemma GetAbsolutePathIdempotent(imagePath: string, markdownFilePath: string)
    requires IsAbs(markdownFilePath)
    ensures GetAbsolutePath(GetAbsolutePath(imagePath, markdownFilePath), markdownFilePath)
      == GetAbsolutePath(imagePath, markdownFilePath)
  {
  }

  /** The whitelist test on an extension, after lower-casing. */
  predicate IsSupportedExt(ext: string) {
    LowerAscii(ext) in SupportedExts
  }

  /** `extToMime.get(ext.lower(), 'image/png')`. */
  function MimeForExt(ext: string): (r: string)
    ensures r in ExtToMime.Values
    ensures StartsWith(r, "image/")
  {
    var key := LowerAscii(ext);
    if key in ExtToMime then ExtToMime[key]
    else assert ExtToMime[".png"] == "image/png"; "image/png"
  }

  /** `IsSupportedImage`: the lower-cased `pathlib` suffix is whitelisted. */
  predicate IsSupportedImage(filePath: string) {
    IsSupportedExt(Suffix(filePath))
  }

  /** `GetMimeType`: the MIME type of the `pathlib` suffix. */
  function GetMimeType(filePath: string): (r: string)
    ensures StartsWith(r, "image/")
  {
    MimeForExt(Suffix(filePath))
  }

  /** A whitelisted extension is always found in the table, and the `image/png` fallback is
      reached only by extensions outside the whitelist. */
  lemma SupportedHitsTable(ext: string)
    ensures IsSupportedExt(ext) <==> LowerAscii(ext) in ExtToMime
    ensures IsSupportedExt(ext) ==> MimeForExt(ext) == ExtToMime[LowerAscii(ext)]
    ensures !IsSupportedExt(ext) ==> MimeForExt(ext) == "image/png"
  {
    assert ExtToMime.Keys == SupportedExts;
  }

  /** The same for a file path. */
  lemma SupportedImageHitsTable(filePath: string)
    requires IsSupportedImage(filePath)
    ensures LowerAscii(Suffix(filePath)) in ExtToMime
    ensures GetMimeType(filePath) == ExtToMime[LowerAscii(Suffix(filePath))]
  {
    SupportedHitsTable(Suffix(filePath));
  }

  /** `.jpg` and `.jpeg` share a type, in any case. */
  lemma JpegAliases()
    ensures MimeForExt(".jpg") == MimeForExt(".JPEG") == MimeForExt(".Jpeg") == "image/jpeg"
  {
    assert LowerAscii(".jpg") == ".jpg";
    assert LowerAscii(".JPEG") == ".jpeg";
    assert LowerAscii(".Jpeg") == ".jpeg";
  }

  /** The Python table is the plugins' table with dotted keys: for a dotted (or empty)
      extension both give the same type, fallback included. */
  lemma AgreesWithPluginTable(ext: string)
    requires ext == [] || ext[0] == '.'
    ensures MimeForExt(ext) == Mime.GetMimeType(if ext == [] then [] else ext[1..])
  {
    if ext != [] {
      var k := LowerAscii(ext[1..]);
      assert LowerAscii(ext) == "." + k;
      DottedKeys(k);
    }
  }

  /** A dotted key is in the Python table exactly when the bare key is in the plugins'
      table, with the same type. */
  lemma DottedKeys(k: string)
    ensures "." + k in ExtToMime <==> k in Mime.MimeTypes
    ensures k in Mime.MimeTypes ==> ExtToMime["." + k] == Mime.MimeTypes[k]
  {
    DotKey(k, "png");
    DotKey(k, "jpg");
    DotKey(k, "jpeg");
    DotKey(k, "gif");
    DotKey(k, "webp");
    DotKey(k, "svg");
    DotKey(k, "bmp");
    assert "." + "png" == ".png" && "." + "jpg" == ".jpg" && "." + "jpeg" == ".jpeg" && "." + "gif" == ".gif";
    assert "." + "webp" == ".webp" && "." + "svg" == ".svg" && "." + "bmp" == ".bmp";
  }

  /** Prefixing a dot tells keys apart exactly as before. */
  lemma DotKey(k: string, key: string)
    ensures "." + k == "." + key <==> k == key
  {
    assert ("." + k)[1..] == k && ("." + key)[1..] == key;
  }

  /** Hence `GetMimeType` and the plugins' `getMimeType` agree on every file. */
  lemma GetMimeTypeAgreesWithPlugins(filePath: string)
    ensures var ext := Suffix(filePath);
      GetMimeType(filePath) == Mime.GetMimeType(if ext == [] then [] else ext[1..])
  {
    AgreesWithPluginTable(Suffix(filePath));
  }

  /** `ValidateFilePath`: the four checks in order (empty, missing, not a regular file, not
      readable), each failure with its own message; `(True, "")` when all pass. */
  function ValidateFilePath(disk: Disk, filePath: string): (r: (bool, string))
    ensures r.0 <==> filePath != "" && filePath in disk.existing && filePath in disk.files && filePath in disk.readable
    ensures r.0 <==> r.1 == ""
    ensures filePath != "" && !r.0 ==> EndsWith(r.1, filePath)
  {
    if filePath == "" then (false, "文件路径为空")
    else if filePath !in disk.existing then (false, "文件不存在: " + filePath)
    else if filePath !in disk.files then (false, "不是有效的文件: " + filePath)
    else if filePath !in disk.readable then (false, "文件没有读取权限: " + filePath)
    else (true, "")
  }

  /** The checks are made in order: a missing path is reported as missing whatever else is
      true of it, and a path that exists but is not a file is never tested for access. */
  lemma ValidateOrder(disk: Disk, filePath: string)
    requires filePath != ""
    ensures filePath !in disk.existing ==> ValidateFilePath(disk, filePath).1 == "文件不存在: " + filePath
    ensures filePath in disk.existing && filePath !in disk.files ==>
      ValidateFilePath(disk, filePath).1 == "不是有效的文件: " + filePath
    ensures filePath in disk.existing && filePath in disk.files && filePath !in disk.readable ==>
      ValidateFilePath(disk, filePath).1 == "文件没有读取权限: " + filePath
  {
  }
}
