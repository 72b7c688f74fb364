# MDImageEmbed in Dafny

MDImageEmbed turns a Markdown document whose images live in separate files into a
self-contained one. Every image reference `![alt](path)` whose file can be read is rewritten
to `![alt](data:<mime>;base64,<payload>)`. The engine exists in five sources:

- the Obsidian plugin `main.ts`, its compiled twin `main.js` and the earlier plugin
  `ObsidianPlugin/main.ts`. They scan with one regular expression (Markdown and wiki
  `![[name.ext]]` references), resolve paths against the vault, and rewrite with
  `String.prototype.replace`;
- the Python desktop tool, `Source/Logic/ImageConverter.py` with
  `Source/Logic/FileUtils.py`. It scans with `re.sub`, resolves against the file system
  (probing up to five ancestor directories for Obsidian-style `/`-rooted paths), and keeps a
  log line per reference.

The model has these modules:

- `Text`: JavaScript and Python string operations.
- `Base64`: RFC 4648 encoding with a decoder that inverts it.
- `DataUris`: RFC 2397 `data:` URIs and their parser.
- `Mime`: the plugins' MIME table.
- `UriDecode`: `decodeURIComponent`.
- `RefScanner`: the plugins' regular expression and `matchAll`.
- `Vault`: path cleaning, resolution and `imageToBase64` of the plugins.
- `Embedding`: the plugins' conversion loop and the save-as path.
- `OsPath`: `posixpath` and `pathlib` and the abstract file system.
- `FileUtils`: the Python helpers.
- `PyScanner`: the Python pattern and `re.sub`'s match enumeration.
- `PyConverter`: the `ImageConverter` class.

The vault and the file system are values. The link resolver of Obsidian and the Pillow
re-encoding are opaque function-valued parameters.

## Model

| member | source | states |
|---|---|---|
| Text.LowerAscii | main.ts:282 | lower-casing keeps the length and maps each character by ASCII case folding |
| Text.IndexFrom | main.ts:166 | the result is an occurrence of the pattern at or after `k` with no earlier one there; `None` only when there is none |
| Text.IndexOfFirst | main.ts:166 | `indexOf`, which `replace` uses, reports the first occurrence |
| Text.ReplaceFirstAt | main.ts:166 | `replace` with a pattern first occurring at `x` rebuilds the text around `x` |
| Text.TrimStart | main.ts:227 | the result is a suffix of the input; it starts with a non-space; everything removed is ECMAScript white space |
| Text.TrimEnd | main.ts:227 | the result is a prefix; it ends with a non-space; everything removed is white space |
| Text.TrimKeeps | main.ts:227 | text without white space at either end is its own trim |
| Text.RunEnd | main.ts:135 | a greedy character-class run stops at the end of the text or at the first character outside the class |
| Text.RunEndCovers | main.ts:135 | every character of the run is in the class |
| Text.RunEndAt | main.ts:135 | a run is determined by where it stops |
| Base64.SextetValue | main.ts:268 | an alphabet character maps to the 6-bit value whose character it is, any other to `None` |
| Base64.SextetRoundTrip | main.ts:268 | each 6-bit value is recovered from its alphabet character |
| Base64.Encode | main.ts:268 | the encoding of n bytes has 4·⌈n/3⌉ characters |
| Base64.EncodeAlphabet | main.ts:268 | an encoding is made of alphabet characters, with `=` only in its last two places |
| Base64.DecodeEncode | Source/Logic/ImageConverter.py:141 | decoding an encoding gives back exactly the bytes |
| Base64.ArrayBufferToBase64 | main.ts:262-269 | the byte loop followed by `btoa` gives the standard Base64 of the bytes, which decodes back to them (main.js:232-239 and ObsidianPlugin/main.ts:206-213 are identical) |
| DataUris.DataUriChars | main.ts:217 | a URI built from a plain MIME type is spelled with letters, digits and `+/=:;,` only |
| DataUris.DataUriPrefix | main.ts:217 | an `image/` type gives a URI starting with `data:image/` |
| DataUris.ParseDataUri | main.ts:217 | a parsed URI starts with `data:`, its type and `;base64,` |
| DataUris.ParseDataUriRoundTrip | main.ts:217 | a URI built from a type without `;` parses back to that type and those very bytes |
| Mime.GetMimeType | main.ts:272-283 | the result is one of the table's types and starts with `image/` (main.js:241-252 and ObsidianPlugin/main.ts:216-227 are identical) |
| Mime.AsWrittenAgreesOffPrototype | main.ts:282 | the lookup as written agrees with the intended one except on `constructor` and `__proto__` |
| Mime.AsWrittenConstructorIsNotImage | main.ts:282 | as written, extension `constructor` yields the text of the `Object` function, not an image type |
| Mime.MimeIgnoresCase | main.ts:282 | extensions that differ only in ASCII case get the same type |
| Mime.MimeTypeChars | main.ts:273-281 | every returned type uses only lower-case letters, `/` and `+` |
| UriDecode.HexDigitValue | main.ts:231 | a hexadecimal digit has a value below 16 |
| UriDecode.EscapedByte | main.ts:231 | an escape `%XY` yields one byte value |
| UriDecode.Continuations | main.ts:231 | each decoded continuation byte lies in `0x80..0xBF` and uses three characters |
| UriDecode.NoEscapeDecodesToItself | main.ts:231 | text without `%` decodes to itself |
| UriDecode.BadEscapeFails | main.ts:230-235 | a `%` not followed by two hex digits makes decoding fail, which is the `catch` path |
| UriDecode.CharRoundTrip | main.ts:231 | the escapes of one character's UTF-8 bytes decode to that character |
| UriDecode.Utf8CodePoint | main.ts:231 | the UTF-8 bytes of a character: the lead byte announces their number, the others are continuation bytes, and together they encode the character |
| UriDecode.EscapesDecode | main.ts:231 | the escapes of a well-formed UTF-8 sequence decode to its code point and leave the rest of the text |
| UriDecode.DecodeEncodeRoundTrip | main.ts:231 | percent-encoding any text and decoding it gives the text back |
| UriDecode.DecodeSpaceExample | main.ts:231 | `a%20b.png` decodes to `a b.png` |
| RefScanner.MarkdownAt | main.ts:135 | a Markdown match spans its own text; its alt text has no `]`; its path is non-empty and made of path characters |
| RefScanner.WikiAt | main.ts:135 | a wiki match is `![[name]]` with a name without `]` ending in one of seven extensions in any case |
| RefScanner.RefAt | main.ts:135 | a match at `i` spans its own text starting at `i` |
| RefScanner.ScanFrom | main.ts:141 | the result is a left-to-right non-overlapping scan from `k` |
| RefScanner.Scan | main.ts:141 | `matchAll` is the scan from 0 |
| RefScanner.MarkdownAtShape | main.ts:133-135 | a Markdown match's text is `![alt](path)`, with optional `<` and `>` around the path |
| RefScanner.PathClose | main.ts:135 | after the path the match closes with `)`, or with `>)`, and ends just after the `)` |
| RefScanner.ScanUnique | main.ts:141 | the scan is determined by the text |
| RefScanner.ScanElements | main.ts:141-143 | every element is the match at its start, in range, and ends no later than the next starts |
| RefScanner.RefAtLocal | main.ts:135 | wherever the text of a match occurs, the pattern matches there with the same captures |
| RefScanner.MarkdownLocal | main.ts:135 | a copy of a Markdown match's text matches the same way, with the same captures |
| RefScanner.WikiLocal | main.ts:135 | a copy of a wiki match's text matches the same way |
| RefScanner.FirstMatchIsFirstOccurrence | main.ts:166 | the first match's text does not occur earlier in the text |
| Vault.StripAngle | main.ts:227 | stripping never lengthens the path |
| Vault.StripAngleUnwraps | main.ts:227 | `<x>` loses exactly its brackets |
| Vault.StripAngleKeeps | main.ts:227 | a path without a leading `<` or trailing `>` is kept |
| Vault.Candidates | main.ts:237-256 | three lookups when the document has a parent folder, two otherwise |
| Vault.FirstAccepted | main.ts:237-258 | the result is the first candidate the edition accepts, `None` only when none is accepted |
| Vault.ResolveImagePath | main.ts:225-259 | a resolved entry passes the edition's file test (main.js:204-230: a truthy extension; ObsidianPlugin/main.ts:177-203: `instanceof TFile`) |
| Vault.ResolveIsFirstAccepted | main.ts:225-259 | resolution is the first accepted of the candidates in priority order |
| Vault.ResolvedAtRoot | main.ts:237-240 | a file at the vault root is the one resolved, and a readable one gives its URI |
| Vault.ImageData | main.ts:199-222 | a produced URI starts with `data:image/`; it is built with the corrected MIME lookup (see `Vault.ImageData` under Left out) |
| Vault.ImageToBase64 | main.ts:199-222 | the method resolves, reads and encodes exactly as `ImageData` specifies, with the corrected MIME lookup (main.js:179-202, ObsidianPlugin/main.ts:151-174) |
| Vault.ImageDataRoundTrip | main.ts:209-217 | a produced URI parses back to the resolved file's MIME type and exactly its bytes |
| Vault.ImageDataChars | main.ts:217 | a produced URI uses only letters, digits and `+/=:;,`; this holds for the corrected MIME lookup only |
| Vault.MainTsAgreesWithoutEscapes | main.ts:229-235 | without `%`, main.ts resolves and encodes exactly as ObsidianPlugin/main.ts does |
| Vault.ResolvesAlike | main.ts:225-259 | editions with the same cleaned path and the same file test resolve alike |
| Vault.MainJsResolvesOnlyWhereEarlyTsDoes | main.js:210 | whatever main.js resolves, the TypeScript plugin resolves too |
| Vault.CleanPathExample | main.ts:231 | `a%20b.png` is cleaned to `a b.png` by main.ts and kept by main.js |
| Vault.PercentEncodedPathExample | main.ts:229-240 | main.ts finds vault file `a b.png` for `a%20b.png`; main.js finds nothing |
| Embedding.DecideConverted | main.ts:143-191 | a conversion happens only when `imageToBase64` produced a URI, and the replacement is `![label](uri)` |
| Embedding.ReferenceNoDollar | main.ts:166 | a reference built from a caption without `$` and a data URI contains no `$` |
| Embedding.ReplacementIsLiteral | main.ts:166 | a conversion's replacement contains no `$`, so `replace` inserts it literally |
| Embedding.ConvertedCount | main.ts:167 | at most one conversion per match |
| Embedding.PrefixStep | main.ts:143-192 | handling one more match is one more step of the rewrite and of the count |
| Embedding.HandleMatch | main.ts:146-191 | the skip tests, in the order of the source, then `imageToBase64`, give the outcome `Decide` specifies (main.js:127-172, ObsidianPlugin/main.ts:101-143) |
| Embedding.LiteralDecisions | main.ts:166 | with no `$` in labels, every replacement of an environment is inserted literally |
| Embedding.ConvertMarkdownToBase64 | main.ts:132-196 | the text is the matches' rewrites applied in order, `convertedCount` counts the conversions, and the two counters add up to the number of matches (main.js:113-177) |
| Embedding.EarlyConvertMarkdownToBase64 | ObsidianPlugin/main.ts:90-148 | the earlier loop gives the rewrite with fixed skip and wiki behaviour |
| Embedding.RemoteAlwaysSkipped | main.ts:158-161 | `http://` and `https://` paths are always skipped |
| Embedding.DataImageSkipped | main.ts:152-155 | `data:image` paths are skipped when the setting says so, and always in ObsidianPlugin/main.ts:110 |
| Embedding.WikiDisabledSkipped | main.ts:177-180 | with `convertWikiLinks` off no wiki link converts |
| Embedding.ConvertsIffImageData | main.ts:164-190 | a local reference converts iff its file resolves and reads; the rewrite keeps its label |
| Embedding.EarlyIgnoresSettings | ObsidianPlugin/main.ts:90-148 | the earlier plugin's result does not depend on settings |
| Embedding.AgreeingDecisionsRewriteAlike | main.ts:143-191 | two decision functions that agree on every match give the same rewritten text |
| Embedding.NothingConvertedKeepsText | main.ts:137-195 | when nothing converts the text is returned unchanged |
| Embedding.ReferenceMatches | main.ts:166 | a written reference is one Markdown match spanning it, with the caption and the URI as captures |
| Embedding.ReferenceSkipped | main.ts:152 | a written `data:image/` reference is skipped by every run that skips such paths |
| Embedding.ReferenceReparses | main.ts:135-166 | a written `data:image/` reference reads back as one match with the caption as alt text, and later runs skip it |
| Embedding.ConvertedReferenceIsSkipped | main.ts:152-166 | conversion is not repeated: the rewrite of a converted match is a match later runs skip; this holds for the corrected MIME lookup only |
| Embedding.FirstConversionLandsOnFirstMatch | main.ts:166 | the first conversion rewrites exactly the span of the first match |
| Embedding.FirstStepAt | main.ts:166 | a converting first step replaces the first occurrence of the match's text by its replacement |
| Embedding.StepAt | main.ts:166 | a conversion replaces the first occurrence of the match's text, leaving the text around it |
| Embedding.RewriteTwo | main.ts:143-191 | two matches are rewritten by two steps in order |
| Embedding.ReplaceHitsEarlierOccurrence | main.ts:166 | in `![](http://![](a)![](a)` the replacement lands inside the earlier skipped reference and the second match stays as it was |
| Embedding.EarlyDecidesLikeDefaults | ObsidianPlugin/main.ts:105-143 | without `%` in a path, the earlier plugin decides like main.ts with default settings (main.ts:18-23) |
| Embedding.EarlyRewritesLikeDefaults | ObsidianPlugin/main.ts:90-148 | and so produces the same text |
| Embedding.SaveAsNextToSource | main.ts:111-115 | the new file is in the document's folder and named `<basename><suffix>.md` (main.js:93-97, ObsidianPlugin/main.ts:73-77) |
| Embedding.SaveAsNeverOverwritesSource | main.ts:111-115 | with a non-empty suffix the new file is never the document itself, whether the document is in a folder or at the vault root, whose folder path is `/` |
| OsPath.RFind | Source/Logic/FileUtils.py:66 | the result is the last index of the character, or -1 when it does not occur |
| OsPath.RFindAt | Source/Logic/FileUtils.py:66 | the last occurrence determines the result |
| OsPath.RStripSlash | Source/Logic/FileUtils.py:66 | `rstrip('/')` removes exactly the trailing slashes |
| OsPath.LStripSlash | Source/Logic/ImageConverter.py:181 | `lstrip('/')` removes exactly the leading slashes |
| OsPath.Dirname | Source/Logic/FileUtils.py:66 | `dirname` is no longer than the path |
| OsPath.DirnameAbs | Source/Logic/FileUtils.py:66 | the directory of an absolute path is absolute |
| OsPath.Join | Source/Logic/FileUtils.py:67 | an absolute second part replaces the first |
| OsPath.JoinAbs | Source/Logic/FileUtils.py:67 | joining onto an absolute directory is absolute |
| OsPath.SplitSlash | Source/Logic/FileUtils.py:67 | splitting on `/` gives at least one component, none containing `/` |
| OsPath.NormComps | Source/Logic/FileUtils.py:67 | normalised components are clean, and an absolute path keeps no `..` |
| OsPath.Normpath | Source/Logic/FileUtils.py:67 | `normpath` is never empty and keeps absoluteness both ways |
| OsPath.JoinSlashFirst | Source/Logic/FileUtils.py:67 | joined clean components are empty only when there are none, and start with the first one's character |
| OsPath.SplitExt | Source/Logic/ImageConverter.py:208 | the extension is empty or a dotted suffix of the path |
| OsPath.Parts | Source/Logic/FileUtils.py:127 | `pathlib` keeps only components other than empty and `.` |
| OsPath.Name | Source/Logic/FileUtils.py:127 | the name contains no `/` |
| OsPath.PartsOfSplit | Source/Logic/FileUtils.py:127 | every kept component is a split component |
| OsPath.Suffix | Source/Logic/FileUtils.py:127 | the suffix is empty or a dot followed by at least one character |
| OsPath.SplitExtAndSuffixDiffer | Source/Logic/FileUtils.py:127 | `splitext` gives `""` for `..png`, `pathlib` gives `.png` |
| OsPath.SplitExtAndSuffixAgree | Source/Logic/ImageConverter.py:208 | both give `.PNG` for `dir/a.PNG` |
| FileUtils.GetAbsolutePath | Source/Logic/FileUtils.py:52-67 | an absolute image path is kept, and relative to an absolute Markdown file every result is absolute |
| FileUtils.GetAbsolutePathIdempotent | Source/Logic/FileUtils.py:52-67 | resolving a resolved path changes nothing |
| FileUtils.MimeForExt | Source/Logic/FileUtils.py:141-151 | the result is one of the table's types and starts with `image/` |
| FileUtils.GetMimeType | Source/Logic/FileUtils.py:131-151 | the type of a file starts with `image/` |
| FileUtils.SupportedHitsTable | Source/Logic/FileUtils.py:126-151 | whitelisted exactly when in the table; whitelisted extensions get their table entry, others `image/png` |
| FileUtils.SupportedImageHitsTable | Source/Logic/FileUtils.py:116-151 | a supported file's type comes from the table |
| FileUtils.JpegAliases | Source/Logic/FileUtils.py:143-144 | `.jpg` and `.jpeg` in any case give `image/jpeg` |
| FileUtils.AgreesWithPluginTable | Source/Logic/FileUtils.py:141-151 | the Python table is the plugins' table with dotted keys, fallback included |
| FileUtils.DottedKeys | Source/Logic/FileUtils.py:141-151 | a dotted key is in the Python table exactly when the bare key is in the plugins' table, with the same type |
| FileUtils.GetMimeTypeAgreesWithPlugins | Source/Logic/FileUtils.py:131-151 | `GetMimeType` agrees with the plugins' `getMimeType` on every file |
| FileUtils.ValidateFilePath | Source/Logic/FileUtils.py:91-113 | valid iff non-empty, existing, a regular file and readable; valid iff the message is empty; each failure message ends with the path |
| FileUtils.ValidateOrder | Source/Logic/FileUtils.py:101-111 | the checks are made in order, each failure with its own message |
| PyScanner.CloseAt | Source/Logic/ImageConverter.py:46 | the tail ends just after a `)` |
| PyScanner.MatchAt | Source/Logic/ImageConverter.py:46 | a match spans its own text; its alt text has no `]`; its path is non-empty path characters |
| PyScanner.FindAllFrom | Source/Logic/ImageConverter.py:90 | the result is a left-to-right non-overlapping search from `k` |
| PyScanner.FindAll | Source/Logic/ImageConverter.py:90 | `re.sub` and `re.findall` visit the search from 0 |
| PyScanner.FindAllOrdered | Source/Logic/ImageConverter.py:90 | the matches are in order, without overlap, each spanning its own text |
| PyScanner.FindAllElements | Source/Logic/ImageConverter.py:105 | every element is the match at its start, and ends no later than the next starts |
| PyScanner.FindAllUnique | Source/Logic/ImageConverter.py:90 | the search is determined by the text |
| PyScanner.ReferenceMatches | Source/Logic/ImageConverter.py:46 | a written `![alt](uri)` matches again as a whole with the same captures |
| PyScanner.ReferencePieces | Source/Logic/ImageConverter.py:46 | where the pieces of a written reference sit |
| PyConverter.GetMimeType | Source/Logic/ImageConverter.py:211-223 | the type starts with `image/` |
| PyConverter.SupportedImageHitsTable | Source/Logic/ImageConverter.py:205-223 | a supported file never falls back to `image/png` |
| PyConverter.MimeTypeIsPlain | Source/Logic/ImageConverter.py:213-221 | the type uses only characters allowed in a data URI, without `;` |
| PyConverter.ImageToBase64 | Source/Logic/ImageConverter.py:128-165 | succeeds iff the bytes are obtained; the text decodes back to those bytes; a failure carries the message, with `图片处理失败: ` for Pillow |
| PyConverter.LeadingSlashStripsOne | Source/Logic/ImageConverter.py:179-181 | with one leading slash, `lstrip` removes exactly it |
| PyConverter.ProbeStep | Source/Logic/ImageConverter.py:193-200 | one round tests the directory's candidate, stops at the root, or moves to the parent |
| PyConverter.AncestorOfFixpoint | Source/Logic/ImageConverter.py:197-199 | at a directory that is its own parent, every ancestor is itself |
| PyConverter.ProbeIsNearest | Source/Logic/ImageConverter.py:192-200 | for any way of forming candidates, the probe returns the existing candidate of the nearest ancestor, and none only when no ancestor within the rounds has one |
| PyConverter.ProbeShift | Source/Logic/ImageConverter.py:195-200 | when the directory's own candidate is missing, the nearest hit among its parent's ancestors is the nearest among its own |
| PyConverter.ProbeLoop | Source/Logic/ImageConverter.py:192-200 | the `for` loop over five rounds returns what the recursive probe specifies |
| PyConverter.ResolveAgreesWithFileUtils | Source/Logic/ImageConverter.py:183-203 | without a single leading slash the converter resolves as `FileUtils.GetAbsolutePath` |
| PyConverter.ResolveLeadingSlash | Source/Logic/ImageConverter.py:179-203 | with one leading slash, the nearest of five directories holding the file wins, else the path relative to the Markdown directory |
| PyConverter.ResolvePathIsAbsolute | Source/Logic/ImageConverter.py:167-203 | relative to an absolute Markdown file every resolved path is absolute |
| PyConverter.AncestorAbs | Source/Logic/ImageConverter.py:197 | ancestors of an absolute directory are absolute |
| PyConverter.DecideConverted | Source/Logic/ImageConverter.py:76-83 | a converted outcome is the data URI of the resolved file's bytes, and it starts with `data:image/` |
| PyConverter.DecisionOrder | Source/Logic/ImageConverter.py:53-87 | each outcome holds iff the earlier tests passed and its own test failed |
| PyConverter.ConvertedRoundTrip | Source/Logic/ImageConverter.py:76-83 | a converted URI parses back to the type and the encoded bytes; for SVG those are the bytes on disk |
| PyConverter.ConvertedUriShape | Source/Logic/ImageConverter.py:80 | a built URI starts with `data:image` and uses only path characters of the pattern |
| PyConverter.UriShape | Source/Logic/ImageConverter.py:80 | the same for any data URI of an image type |
| PyConverter.LoneReference | Source/Logic/ImageConverter.py:46 | a text made of one written reference has exactly that one match |
| PyConverter.RewrittenReferenceIsSkipped | Source/Logic/ImageConverter.py:54-83 | a rewritten reference is matched whole and skipped as already embedded by any later run |
| PyConverter.SpliceIdentity | Source/Logic/ImageConverter.py:90 | replacing every match by its own text gives the text back |
| PyConverter.SplicePrefix | Source/Logic/ImageConverter.py:90 | the output begins with the text before the first match and its replacement |
| PyConverter.Replacements | Source/Logic/ImageConverter.py:90 | one replacement per match |
| PyConverter.Log | Source/Logic/ImageConverter.py:55-86 | one log line per match |
| PyConverter.LogExtend | Source/Logic/ImageConverter.py:48-87 | one more callback adds one more log line |
| PyConverter.SpliceStep | Source/Logic/ImageConverter.py:90 | splicing copies the text before a match, then its replacement, then the rest |
| PyConverter.SpliceAdvance | Source/Logic/ImageConverter.py:90 | after copying the text up to a match and its replacement, the rest of the splice completes the whole output |
| PyConverter.NothingConvertedKeepsText | Source/Logic/ImageConverter.py:90 | when no reference converts, the text comes back unchanged |
| PyConverter.CountPaths | Source/Logic/ImageConverter.py:112-118 | no more matches counted than there are |
| PyConverter.CountsMatchDecisions | Source/Logic/ImageConverter.py:113-116 | the base64 and http counts cover exactly the references the converter skips as embedded and as remote |
| PyConverter.ImageConverter.constructor | Source/Logic/ImageConverter.py:21-29 | the converter holds the Markdown path and an empty log |
| PyConverter.ImageConverter.GetAbsolutePath | Source/Logic/ImageConverter.py:167-203 | the probing loop returns the path `ResolvePath` specifies |
| PyConverter.ImageConverter.Classify | Source/Logic/ImageConverter.py:50-87 | the tests of the callback, in order, yield the outcome `Decide` specifies |
| PyConverter.ImageConverter.ReplaceImage | Source/Logic/ImageConverter.py:48-87 | the callback appends the outcome's log line and returns its replacement; the path is unchanged |
| PyConverter.ImageConverter.ConvertMarkdown | Source/Logic/ImageConverter.py:32-91 | the log is cleared, then holds one line per match in order; the text is every match replaced by its span; the log is returned |
| PyConverter.ImageConverter.CountImages | Source/Logic/ImageConverter.py:93-125 | total is the number of matches and splits into base64, http and local counts by path kind |

## Left out

- The Obsidian host: menus, notices, the clipboard, settings tabs, `loadData`/`saveData`, and
  `vault.create` are not modelled. The save-as path is modelled as `Embedding.SaveAsPath`.
- `async`/`await`: each `await` is taken to return its value, in program order.
- `getFirstLinkpathDest` is an opaque function of the link and the source path.
- `readBinary` failures are modelled as a file whose data is absent. The thrown error and the
  console logging are dropped.
- Pillow is the opaque `Disk.reencode`: the RGBA-to-RGB flattening of JPEGs, the format choice
  and `quality=95` are not modelled.
- File reading, `os.path.exists`, `os.path.isfile` and `os.access` are sets and functions of a
  `Disk` value. Their own failures and races are not modelled.
- The Python path functions follow `posixpath` only; the Windows `ntpath` flavour is not
  modelled.
- `str.lower` and `toLowerCase` are modelled by ASCII lower-casing. This is exact for every
  comparison made here: the only non-ASCII character that lowers into ASCII is KELVIN SIGN, to
  `k`, and no extension key contains `k`.
- `Embedding.ConvertMarkdownToBase64`: the `$`-patterns `String.prototype.replace` expands in a
  replacement are excluded by requiring no `$` in alt texts and wiki names.
- Vault.ImageData, Vault.ImageToBase64: the URI is built with the corrected `Mime.GetMimeType`,
  not with the lookup as written at main.ts:282 (main.js:251, ObsidianPlugin/main.ts:226). For a
  file with extension `constructor` the plugins as written build
  `data:function Object() { [native code] };base64,…`, and for `__proto__`
  `data:[object Object];base64,…`; the model builds `data:image/png;base64,…` for both. The
  discrepancy itself is the row under Findings, shown by `Mime.AsWrittenConstructorIsNotImage`.
- ImageDataChars: the character set is proved for the corrected lookup only; the as-written URI
  for `constructor` or `__proto__` also contains spaces and `(){}[]`.
- ConvertedReferenceIsSkipped: proved for the corrected lookup only. As written, the rewrite
  `![](data:function Object() …` of a `constructor` file scans again with the path
  `data:function Object(`, which does not start with `data:image` and is not skipped.
- PyConverter.ImageConverter.ConvertMarkdown: the returned log is a snapshot of `conversionLog`.
  In Source/Logic/ImageConverter.py:42 and :91 the method clears `self.ConversionLog` in place and
  returns that same list object, so a log kept from one call is emptied and refilled by the next
  call on the same converter; that aliasing is not modelled.
- `ReadFile`, `WriteFile` and `EnsureDirectoryExists` of `FileUtils.py` only wrap I/O and are
  not modelled.
- The user interface (`Source/UI/MainWindow.py`), `Main.py` and `test_path.py` are not part of
  this model.
- The log lines are returned, never printed; `console.log` and `print` output is not modelled.

## Findings

| source | as written | input that shows it | evidently intended | confidence | as-written member | corrected member |
|---|---|---|---|---|---|---|
| main.ts:282 (also main.js:251, ObsidianPlugin/main.ts:226) | `mimeTypes[extension.toLowerCase()] \|\| 'image/png'` also finds properties inherited from `Object.prototype` | an image file with extension `constructor`: the type becomes the text of the `Object` function, and the URI does not start with `data:image` | look up only the seven own keys and fall back to `image/png` | not executed | Mime.AsWrittenConstructorIsNotImage | Mime.GetMimeType |
