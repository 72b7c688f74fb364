/** The conversion loop of the three plugin sources (`convertMarkdownToBase64` in main.ts and
    main.js, `ConvertMarkdownToBase64` in ObsidianPlugin/main.ts): every match of the scan is
    skipped or converted, and a converted one is rewritten with `String.prototype.replace`,
    which replaces the first occurrence of the match's text in the text rewritten so far. */
module Embedding {
  import opened Wrappers
  import opened Text
  import opened RefScanner
  import opened Vault
  import opened DataUris
  import opened UriDecode

  /** The plugin settings of main.ts and main.js. */
  datatype Settings = Settings(showConversionLog: bool, fileSuffix: string, convertWikiLinks: bool, skipBase64Images: bool)

  const DEFAULT_SETTINGS: Settings := Settings(true, "_base64", true, true)

  /** Everything a conversion depends on besides the text: the source edition, its settings,
      the vault and the document being converted. */
  datatype Env = Env(edition: Edition, settings: Settings, store: Store, source: SourceFile)

  /** ObsidianPlugin/main.ts has no settings: it always converts wiki links and always skips
      `data:image` paths. */
  predicate ConvertWiki(env: Env) {
    env.edition == EarlyTs || env.settings.convertWikiLinks
  }

  predicate SkipDataImages(env: Env) {
    env.edition == EarlyTs || env.settings.skipBase64Images
  }

  predicate IsRemote(path: string) {
    StartsWith(path, "http://") || StartsWith(path, "https://")
  }

  /** What the loop does with one match. */
  datatype Outcome = Skipped | Converted(replacement: string)

  /** The text a match is labelled with in its rewrite: the alt text, or the wiki name. */
  function Label(m: ImageRef): string {
    if m.Markdown? then m.alt else m.name
  }

  /** The path handed to `imageToBase64`: the captured path, or the wiki name. */
  function Target(m: ImageRef): string {
    if m.Markdown? then m.path else m.name
  }

  /** The markdown reference a conversion writes. */
  function Reference(caption: string, uri: string): string {
    "![" + caption + "](" + uri + ")"
  }

  /** The decision for one match: the skip tests in the order of the sources, then the
      conversion, which fails (and is counted as skipped) when `imageToBase64` gives `null`. */
  function Decide(env: Env, m: ImageRef): Outcome
  {
    if m.Markdown? then
      if SkipDataImages(env) && StartsWith(m.path, "data:image") then Skipped
      else if IsRemote(m.path) then Skipped
      else
        match ImageData(env.edition, env.store, m.path, env.source)
        case None => Skipped
        case Some(uri) => Converted(Reference(m.alt, uri))
    else
      if !ConvertWiki(env) then Skipped
      else
        match ImageData(env.edition, env.store, m.name, env.source)
        case None => Skipped
        case Some(uri) => Converted(Reference(m.name, uri))
  }

  /** A conversion happens only when `imageToBase64` produced a URI, and its replacement is
      the reference to that URI under the match's label. */
  lemma DecideConverted(env: Env, m: ImageRef)
    requires Decide(env, m).Converted?
    ensures ImageData(env.edition, env.store, Target(m), env.source).Some?
    ensures Decide(env, m).replacement == Reference(Label(m), ImageData(env.edition, env.store, Target(m), env.source).value)
  {
  }

  /** `replace` expands `$`-patterns in its replacement; the model needs labels without `$`. */
  predicate NoDollar(m: ImageRef) {
    '$' !in Label(m)
  }

  lemma ReferenceNoDollar(caption: string, uri: string)
    requires '$' !in caption
    requires forall j :: 0 <= j < |uri| ==> IsUriChar(uri[j])
    ensures '$' !in Reference(caption, uri)
  {
    var r := Reference(caption, uri);
    forall j | 0 <= j < |r|
      ensures r[j] != '$'
    {
      if 2 <= j < 2 + |caption| {
        assert r[j] == caption[j - 2];
      } else if 4 + |caption| <= j < 4 + |caption| + |uri| {
        assert r[j] == uri[j - 4 - |caption|];
      }
    }
  }

  /** A conversion's replacement contains no `$`, so `replace` inserts it literally. */
  lemma ReplacementIsLiteral(env: Env, m: ImageRef)
    requires NoDollar(m)
    ensures Literal(Decide(env, m))
  {
    if Decide(env, m).Converted? {
      DecideConverted(env, m);
      ImageDataChars(env.edition, env.store, Target(m), env.source);
      ReferenceNoDollar(Label(m), ImageData(env.edition, env.store, Target(m), env.source).value);
    }
  }

  /** An outcome whose replacement `replace` inserts as it is. */
  predicate Literal(o: Outcome) {
    o.Converted? ==> '$' !in o.replacement
  }

  /** What the loop does with one match's outcome, on the text rewritten so far: nothing for
      a skip, `replace` of the match's text for a conversion. */
  function Step(result: string, m: ImageRef, o: Outcome): string
    requires Literal(o)
  {
    match o
    case Skipped => result
    case Converted(rep) => ReplaceFirst(result, m.full, rep)
  }

  predicate AllNoDollar(ms: seq<ImageRef>) {
    forall j :: 0 <= j < |ms| ==> NoDollar(ms[j])
  }

  /** The decision function of one environment. */
  function Decider(env: Env): ImageRef -> Outcome {
    m => Decide(env, m)
  }

  predicate AllLiteral(decide: ImageRef -> Outcome, ms: seq<ImageRef>) {
    forall j :: 0 <= j < |ms| ==> Literal(decide(ms[j]))
  }

  /** The text after the matches `ms` have been handled in order, each by the outcome
      `decide` gives it. */
  function RewriteWith(decide: ImageRef -> Outcome, content: string, ms: seq<ImageRef>): string
    requires AllLiteral(decide, ms)
    decreases |ms|
  {
    if ms == [] then content
    else
      var m := ms[|ms| - 1];
      Step(RewriteWith(decide, content, ms[..|ms| - 1]), m, decide(m))
  }

  /** Labels without `$` make every decision of an environment literal. */
  lemma LiteralDecisions(env: Env, ms: seq<ImageRef>)
    requires AllNoDollar(ms)
    ensures AllLiteral(Decider(env), ms)
  {
    forall j | 0 <= j < |ms|
      ensures Literal(Decider(env)(ms[j]))
    {
      ReplacementIsLiteral(env, ms[j]);
    }
  }

  /** The text after the loop has handled the matches `ms` in order. */
  function Rewrite(env: Env, content: string, ms: seq<ImageRef>): string
    requires AllNoDollar(ms)
  {
    LiteralDecisions(env, ms);
    RewriteWith(Decider(env), content, ms)
  }

  /** How many of the matches `ms` are converted. */
  function ConvertedCount(env: Env, ms: seq<ImageRef>): (n: nat)
    ensures n <= |ms|
    decreases |ms|
  {
    if ms == [] then 0
    else ConvertedCount(env, ms[..|ms| - 1]) + (if Decide(env, ms[|ms| - 1]).Converted? then 1 else 0)
  }

  /** Extending the handled prefix by one match is one more step. */
  lemma PrefixStep(env: Env, content: string, ms: seq<ImageRef>, i: nat)
    requires i < |ms| && AllNoDollar(ms)
    ensures AllNoDollar(ms[..i]) && AllNoDollar(ms[..i + 1]) && NoDollar(ms[i]) && Literal(Decide(env, ms[i]))
    ensures Rewrite(env, content, ms[..i + 1]) == Step(Rewrite(env, content, ms[..i]), ms[i], Decide(env, ms[i]))
    ensures ConvertedCount(env, ms[..i + 1]) == ConvertedCount(env, ms[..i]) + (if Decide(env, ms[i]).Converted? then 1 else 0)
  {
    assert ms[..i + 1][..i] == ms[..i];
    assert ms[..i + 1][i] == ms[i];
    ReplacementIsLiteral(env, ms[i]);
  }

  /** The body of the loop for one match: the skip tests in order, then `imageToBase64`;
      the outcome says whether the match is skipped or with what it is replaced. */
  method HandleMatch(env: Env, m: ImageRef) returns (o: Outcome)
    ensures o == Decide(env, m)
  {
    if m.Markdown? {
      if SkipDataImages(env) && StartsWith(m.path, "data:image") {
        return Skipped;
      }
      if StartsWith(m.path, "http://") || StartsWith(m.path, "https://") {
        return Skipped;
      }
      var base64 := ImageToBase64(env.edition, env.store, m.path, env.source);
      if base64.Some? {
        o := Converted(Reference(m.alt, base64.value));
      } else {
        o := Skipped;
      }
    } else {
      if !ConvertWiki(env) {
        return Skipped;
      }
      var base64 := ImageToBase64(env.edition, env.store, m.name, env.source);
      if base64.Some? {
        o := Converted(Reference(m.name, base64.value));
      } else {
        o := Skipped;
      }
    }
  }

  /** The loop of `convertMarkdownToBase64`. Every match increments exactly one of the two
      counters, so together they count the matches; the text is the matches' rewrites
      applied in order. */
  method ConvertMarkdownToBase64(env: Env, content: string) returns (result: string, convertedCount: nat, skippedCount: nat)
    requires AllNoDollar(Scan(content))
    ensures result == Rewrite(env, content, Scan(content))
    ensures convertedCount == ConvertedCount(env, Scan(content))
    ensures convertedCount + skippedCount == |Scan(content)|
  {
    result := content;
    convertedCount := 0;
    skippedCount := 0;
    var matches := Scan(content);
    for i := 0 to |matches|
      invariant AllNoDollar(matches[..i])
      invariant result == Rewrite(env, content, matches[..i])
      invariant convertedCount == ConvertedCount(env, matches[..i])
      invariant convertedCount + skippedCount == i
    {
      var m := matches[i];
      PrefixStep(env, content, matches, i);
      var outcome := HandleMatch(env, m);
      match outcome
      case Skipped =>
        skippedCount := skippedCount + 1;
      case Converted(replacement) =>
        ReplacementIsLiteral(env, m);
        result := ReplaceFirst(result, m.full, replacement);
        convertedCount := convertedCount + 1;
    }
    assert matches[..|matches|] == matches;
  }

  /** ObsidianPlugin/main.ts: the same loop, returning only the text; its counters never
      leave the method. */
  method EarlyConvertMarkdownToBase64(store: Store, source: SourceFile, content: string) returns (result: string)
    requires AllNoDollar(Scan(content))
    ensures result == Rewrite(Env(EarlyTs, DEFAULT_SETTINGS, store, source), content, Scan(content))
  {
    var convertedCount, skippedCount;
    result, convertedCount, skippedCount := ConvertMarkdownToBase64(Env(EarlyTs, DEFAULT_SETTINGS, store, source), content);
  }

  // ----- Properties of the decisions -----

  /** `http://` and `https://` paths are skipped whatever the settings and the vault. */
  lemma RemoteAlwaysSkipped(env: Env, m: ImageRef)
    requires m.Markdown? && IsRemote(m.path)
    ensures Decide(env, m) == Skipped
  {
  }

  /** `data:image` paths are skipped when the setting asks for it, and always in the
      earlier plugin. */
  lemma DataImageSkipped(env: Env, m: ImageRef)
    requires m.Markdown? && StartsWith(m.path, "data:image")
    requires env.settings.skipBase64Images || env.edition == EarlyTs
    ensures Decide(env, m) == Skipped
  {
  }

  /** With `convertWikiLinks` off, no wiki link is converted. */
  lemma WikiDisabledSkipped(env: Env, m: ImageRef)
    requires m.Wiki? && env.edition != EarlyTs && !env.settings.convertWikiLinks
    ensures Decide(env, m) == Skipped
  {
  }

  /** A local reference converts exactly when its file resolves and reads, and its rewrite
      keeps its label: `![alt](uri)` for markdown, `![name.ext](uri)` for a wiki link. */
  lemma ConvertsIffImageData(env: Env, m: ImageRef)
    requires m.Markdown? ==> !IsRemote(m.path) && !(SkipDataImages(env) && StartsWith(m.path, "data:image"))
    requires m.Wiki? ==> ConvertWiki(env)
    ensures Decide(env, m).Converted? <==> ImageData(env.edition, env.store, Target(m), env.source).Some?
    ensures Decide(env, m).Converted? ==>
      Decide(env, m).replacement == Reference(Label(m), ImageData(env.edition, env.store, Target(m), env.source).value)
  {
  }

  /** Two decision functions that agree on the matches rewrite the text alike. */
  lemma {:induction false} AgreeingDecisionsRewriteAlike(d1: ImageRef -> Outcome, d2: ImageRef -> Outcome, content: string, ms: seq<ImageRef>)
    requires AllLiteral(d1, ms)
    requires forall j :: 0 <= j < |ms| ==> d1(ms[j]) == d2(ms[j])
    ensures AllLiteral(d2, ms)
    ensures RewriteWith(d1, content, ms) == RewriteWith(d2, content, ms)
    decreases |ms|
  {
    if ms != [] {
      var init := ms[..|ms| - 1];
      assert forall j :: 0 <= j < |init| ==> init[j] == ms[j];
      AgreeingDecisionsRewriteAlike(d1, d2, content, init);
    }
  }

  /** The earlier plugin does not read the settings. */
  lemma EarlyIgnoresSettings(store: Store, source: SourceFile, s1: Settings, s2: Settings, content: string, ms: seq<ImageRef>)
    requires AllNoDollar(ms)
    ensures Rewrite(Env(EarlyTs, s1, store, source), content, ms) == Rewrite(Env(EarlyTs, s2, store, source), content, ms)
  {
    var e1, e2 := Env(EarlyTs, s1, store, source), Env(EarlyTs, s2, store, source);
    LiteralDecisions(e1, ms);
    forall j | 0 <= j < |ms|
      ensures Decider(e1)(ms[j]) == Decider(e2)(ms[j])
    {
      EarlyDecideIgnoresSettings(store, source, s1, s2, ms[j]);
    }
    AgreeingDecisionsRewriteAlike(Decider(e1), Decider(e2), content, ms);
  }

  lemma EarlyDecideIgnoresSettings(store: Store, source: SourceFile, s1: Settings, s2: Settings, m: ImageRef)
    ensures Decide(Env(EarlyTs, s1, store, source), m) == Decide(Env(EarlyTs, s2, store, source), m)
  {
  }

  /** When nothing converts, the text is returned unchanged. */
  lemma {:induction false} NothingConvertedKeepsText(env: Env, content: string, ms: seq<ImageRef>)
    requires AllNoDollar(ms) && ConvertedCount(env, ms) == 0
    ensures Rewrite(env, content, ms) == content
    decreases |ms|
  {
    if ms != [] {
      NothingConvertedKeepsText(env, content, ms[..|ms| - 1]);
    }
  }

  // ----- A rewritten reference is skipped by a later run -----

  /** The reference a conversion writes is one markdown match spanning all of it, with the
      caption as alt text and the URI as path. */
  lemma ReferenceMatches(caption: string, uri: string)
    requires ']' !in caption && StartsWith(uri, "data:")
    requires forall j :: 0 <= j < |uri| ==> IsUriChar(uri[j])
    ensures var r := Reference(caption, uri);
      MarkdownAt(r, 0) == Some(Markdown(0, |r|, r, caption, uri))
  {
    var r := Reference(caption, uri);
    var a := 2 + |caption|;
    var e := |r| - 1;
    ReferenceParts(caption, uri);
    forall j | 2 <= j < a
      ensures NotCloseBracket(r[j])
    {
      assert r[j] == caption[j - 2];
    }
    RunEndAt(r, 2, NotCloseBracket, a);
    forall j | a + 2 <= j < e
      ensures JsPathChar(r[j])
    {
      assert IsUriChar(uri[j - a - 2]);
    }
    RunEndAt(r, a + 2, JsPathChar, e);
    MarkdownAtOfParts(r, 0, a, a + 2, e, |r|);
  }

  /** Where the pieces of a reference sit. */
  lemma ReferenceParts(caption: string, uri: string)
    requires StartsWith(uri, "data:")
    ensures var r := Reference(caption, uri);
      var a := 2 + |caption|;
      && |r| == a + |uri| + 3 && r[0] == '!' && r[1] == '[' && r[a] == ']' && r[a + 1] == '('
      && r[a + 2] == 'd' && r[|r| - 1] == ')' && r[0..|r|] == r
      && r[2..a] == caption && r[a + 2..|r| - 1] == uri
      && (forall j :: 2 <= j < a ==> r[j] == caption[j - 2])
      && (forall j :: a + 2 <= j < |r| - 1 ==> r[j] == uri[j - a - 2])
  {
    var r := Reference(caption, uri);
    var a := 2 + |caption|;
    assert r[a + 2] == uri[0];
  }

  /** A reference written with a `data:image/` URI is skipped by every run that skips such
      paths. */
  lemma ReferenceSkipped(caption: string, uri: string, later: Env)
    requires ']' !in caption && StartsWith(uri, "data:image/")
    requires forall j :: 0 <= j < |uri| ==> IsUriChar(uri[j])
    requires SkipDataImages(later)
    ensures var r := Reference(caption, uri);
      Decide(later, Markdown(0, |r|, r, caption, uri)) == Skipped
  {
    assert "data:image/" == "data:image" + "/";
    StartsWithPrefix(uri, "data:image", "/");
  }

  /** A reference written with a `data:image/` URI reads back as one markdown match with the
      caption as alt text, and a run that skips such paths skips it. */
  lemma ReferenceReparses(caption: string, uri: string, later: Env)
    requires ']' !in caption && StartsWith(uri, "data:image/")
    requires forall j :: 0 <= j < |uri| ==> IsUriChar(uri[j])
    requires SkipDataImages(later)
    ensures var rep := Reference(caption, uri);
      && MarkdownAt(rep, 0).Some? && MarkdownAt(rep, 0).value.end == |rep|
      && MarkdownAt(rep, 0).value.alt == caption
      && Decide(later, MarkdownAt(rep, 0).value) == Skipped
  {
    assert "data:image/" == "data:" + "image/";
    StartsWithPrefix(uri, "data:", "image/");
    ReferenceMatches(caption, uri);
    ReferenceSkipped(caption, uri, later);
  }

  /** Conversion is not repeated: the rewrite of a converted match is a markdown match whose
      path starts with `data:image`, which every run that skips such paths skips. */
  lemma ConvertedReferenceIsSkipped(env: Env, m: ImageRef, later: Env)
    requires ']' !in Label(m) && Decide(env, m).Converted?
    requires SkipDataImages(later)
    ensures var rep := Decide(env, m).replacement;
      && MarkdownAt(rep, 0).Some? && MarkdownAt(rep, 0).value.end == |rep|
      && MarkdownAt(rep, 0).value.alt == Label(m)
      && Decide(later, MarkdownAt(rep, 0).value) == Skipped
  {
    DecideConverted(env, m);
    var uri := ImageData(env.edition, env.store, Target(m), env.source).value;
    ImageDataChars(env.edition, env.store, Target(m), env.source);
    ReferenceReparses(Label(m), uri, later);
  }

  // ----- Where the first rewrite lands -----

  /** `replace` with the first match's text finds that match itself: the first conversion
      rewrites exactly the span of the first match. */
  lemma FirstConversionLandsOnFirstMatch(env: Env, content: string)
    requires Scan(content) != [] && AllNoDollar(Scan(content))
    requires Decide(env, Scan(content)[0]).Converted?
    ensures var m := Scan(content)[0];
      m.start < m.end <= |content|
      && Rewrite(env, content, Scan(content)[..1])
         == content[..m.start] + Decide(env, m).replacement + content[m.end..]
  {
    FirstMatchIsFirstOccurrence(content);
    var m := Scan(content)[0];
    assert Scan(content)[..1] == [m];
    ReplacementIsLiteral(env, m);
    FirstStepAt(Decider(env), content, m, m.start);
  }

  /** The first step rewrites the first occurrence of the first match's text. */
  lemma FirstStepAt(decide: ImageRef -> Outcome, content: string, m: ImageRef, x: nat)
    requires Literal(decide(m)) && decide(m).Converted?
    requires IndexOf(content, m.full) == Some(x)
    ensures AllLiteral(decide, [m]) && x + |m.full| <= |content|
    ensures RewriteWith(decide, content, [m]) == content[..x] + decide(m).replacement + content[x + |m.full|..]
  {
    RewriteOne(decide, content, m);
    StepAt(content, m, decide(m), x);
  }

  /** One match is one step. */
  lemma RewriteOne(decide: ImageRef -> Outcome, content: string, m: ImageRef)
    requires Literal(decide(m))
    ensures AllLiteral(decide, [m])
    ensures RewriteWith(decide, content, [m]) == Step(content, m, decide(m))
  {
    assert [m][..0] == [];
  }

  /** A conversion rewrites the first occurrence of the match's text. */
  lemma StepAt(result: string, m: ImageRef, o: Outcome, x: nat)
    requires o.Converted? && Literal(o) && IndexOf(result, m.full) == Some(x)
    ensures x + |m.full| <= |result|
    ensures Step(result, m, o) == result[..x] + o.replacement + result[x + |m.full|..]
  {
    ReplaceFirstAt(result, m.full, o.replacement, x);
  }

  /** The example text of `ReplaceHitsEarlierOccurrence`: a remote reference whose path
      contains the text of a local reference, followed by that local reference. */
  function ExampleText(): string {
    "![](http://![](a)![](a)"
  }

  function ExampleEnv(): Env {
    Env(MainTs, DEFAULT_SETTINGS, Store(map["a" := File("png", Some([]))], (l: string, p: string) => None),
        SourceFile("note.md", "note", None))
  }

  /** `replace` with a string pattern rewrites the first occurrence of the text, which need
      not be the match the loop is handling: in `![](http://![](a)![](a)` the second match's
      text also occurs inside the first, skipped, remote reference, so that reference is
      altered and the second match is left as it was. */
  lemma ReplaceHitsEarlierOccurrence()
    ensures var s := ExampleText();
      && |Scan(s)| == 2 && AllNoDollar(Scan(s))
      && Scan(s)[0].end == Scan(s)[1].start == 17
      && Decide(ExampleEnv(), Scan(s)[0]) == Skipped
      && Decide(ExampleEnv(), Scan(s)[1]).Converted?
      && Rewrite(ExampleEnv(), s, Scan(s)) == s[..11] + Decide(ExampleEnv(), Scan(s)[1]).replacement + Scan(s)[1].full
  {
    var s := ExampleText();
    var m1, m2 := ExampleScan();
    ExampleDecisions(m1, m2);
    var env := ExampleEnv();
    ReplacementIsLiteral(env, m1);
    ReplacementIsLiteral(env, m2);
    RewriteTwo(Decider(env), s, m1, m2);
    assert Step(s, m1, Decide(env, m1)) == s;
    ExampleIndex();
    ExampleChars();
    StepAt(s, m2, Decide(env, m2), 11);
    assert s[17..] == m2.full;
  }

  /** Two matches are two steps. */
  lemma RewriteTwo(decide: ImageRef -> Outcome, content: string, m1: ImageRef, m2: ImageRef)
    requires Literal(decide(m1)) && Literal(decide(m2))
    ensures AllLiteral(decide, [m1, m2])
    ensures RewriteWith(decide, content, [m1, m2]) == Step(Step(content, m1, decide(m1)), m2, decide(m2))
  {
    var ms := [m1, m2];
    assert ms[..1] == [m1];
    RewriteOne(decide, content, m1);
  }

  lemma ExampleFirstMatch()
    ensures var s := ExampleText();
      RefAt(s, 0) == Some(Markdown(0, 17, s[0..17], s[2..2], s[4..16]))
  {
    var s := ExampleText();
    ExampleChars();
    RunEndAt(s, 2, NotCloseBracket, 2);
    RunEndAt(s, 4, JsPathChar, 16);
    MarkdownAtOfParts(s, 0, 2, 4, 16, 17);
  }

  lemma ExampleSecondMatch()
    ensures var s := ExampleText();
      RefAt(s, 17) == Some(Markdown(17, 23, s[17..23], s[19..19], s[21..22]))
  {
    MarkdownAtOfParts(ExampleText(), 17, 19, 21, 22, 23);
  }

  /** The scan of the example text. */
  lemma ExampleScan() returns (m1: ImageRef, m2: ImageRef)
    ensures var s := ExampleText();
      && m1 == Markdown(0, 17, s[0..17], s[2..2], s[4..16])
      && m2 == Markdown(17, 23, s[17..23], s[19..19], s[21..22])
      && Scan(s) == [m1, m2]
  {
    var s := ExampleText();
    ExampleFirstMatch();
    ExampleSecondMatch();
    m1 := Markdown(0, 17, s[0..17], s[2..2], s[4..16]);
    m2 := Markdown(17, 23, s[17..23], s[19..19], s[21..22]);
    assert IsScan(s, 17, [m2]) by {
      assert [m2][1..] == [];
    }
    assert IsScan(s, 0, [m1, m2]) by {
      assert [m1, m2][1..] == [m2];
    }
    ScanUnique(s, 0, Scan(s), [m1, m2]);
  }

  lemma ExampleCleanPath()
    ensures CleanPath(MainTs, "a") == "a"
  {
    var p := "a";
    assert StripAngle(p) == p;
    assert p[0] == 'a' && p[|p| - 1] == 'a';
    TrimKeeps(p);
    assert '%' !in p;
    NoEscapeDecodesToItself(p);
  }

  /** The local path of the example resolves at the vault root. */
  lemma ExampleResolves()
    ensures ImageData(MainTs, ExampleEnv().store, "a", ExampleEnv().source).Some?
  {
    ExampleCleanPath();
    var env := ExampleEnv();
    assert Lookup(env.store, "a") == Some(File("png", Some([])));
    ResolvedAtRoot(MainTs, env.store, "a", env.source);
  }

  lemma ExampleDecisions(m1: ImageRef, m2: ImageRef)
    requires var s := ExampleText();
      && m1 == Markdown(0, 17, s[0..17], s[2..2], s[4..16])
      && m2 == Markdown(17, 23, s[17..23], s[19..19], s[21..22])
    ensures NoDollar(m1) && NoDollar(m2)
    ensures Decide(ExampleEnv(), m1) == Skipped && Decide(ExampleEnv(), m2).Converted?
  {
    var s := ExampleText();
    assert s[4..11] == "http://";
    assert m1.path[..7] == s[4..11];
    RemoteAlwaysSkipped(ExampleEnv(), m1);
    assert m2.path == "a";
    assert !StartsWith(m2.path, "data:image") && !IsRemote(m2.path);
    ExampleResolves();
    ConvertsIffImageData(ExampleEnv(), m2);
  }

  /** In the example text, the second match's text first occurs at index 11, inside the first
      match. */
  lemma ExampleIndex()
    ensures IndexOf(ExampleText(), ExampleText()[17..23]) == Some(11)
  {
    var s := ExampleText();
    var pat := s[17..23];
    ExampleChars();
    IndexFromSkip(s, pat, 0, 4);
    IndexFromPast(s, pat, 1, 11);
    assert OccursAt(s, pat, 11);
  }

  /** The characters of the example text the proofs above look at. */
  lemma ExampleChars()
    ensures var s := ExampleText();
      && |s| == 23 && s[0] == '!' && s[1] == '[' && s[2] == ']' && s[3] == '(' && s[4] == 'h'
      && s[16] == ')' && s[17] == '!' && s[21] == 'a'
      && s[11..17] == s[17..23]
      && (forall j :: 1 <= j < 11 ==> s[j] != '!')
      && (forall j :: 4 <= j < 16 ==> JsPathChar(s[j]))
  {
  }

  // ----- The editions agree -----

  /** Without `%` in a cleaned path, the earlier plugin decides like main.ts with the default
      settings. */
  lemma EarlyDecidesLikeDefaults(store: Store, source: SourceFile, settings: Settings, m: ImageRef)
    requires '%' !in Trim(StripAngle(Target(m)))
    ensures Decide(Env(EarlyTs, settings, store, source), m) == Decide(Env(MainTs, DEFAULT_SETTINGS, store, source), m)
  {
    MainTsAgreesWithoutEscapes(store, Target(m), source);
  }

  /** So, on a text whose references need no decoding, both produce the same text. */
  lemma EarlyRewritesLikeDefaults(store: Store, source: SourceFile, settings: Settings, content: string, ms: seq<ImageRef>)
    requires AllNoDollar(ms)
    requires forall j :: 0 <= j < |ms| ==> '%' !in Trim(StripAngle(Target(ms[j])))
    ensures Rewrite(Env(EarlyTs, settings, store, source), content, ms) == Rewrite(Env(MainTs, DEFAULT_SETTINGS, store, source), content, ms)
  {
    var e1, e2 := Env(EarlyTs, settings, store, source), Env(MainTs, DEFAULT_SETTINGS, store, source);
    LiteralDecisions(e1, ms);
    forall j | 0 <= j < |ms|
      ensures Decider(e1)(ms[j]) == Decider(e2)(ms[j])
    {
      EarlyDecidesLikeDefaults(store, source, settings, ms[j]);
    }
    AgreeingDecisionsRewriteAlike(Decider(e1), Decider(e2), content, ms);
  }

  // ----- Save as -----

  /** The path `saveAsBase64` creates: `<basename><suffix>.md`, in the document's folder when
      it has a parent. ObsidianPlugin/main.ts writes the suffix `_base64`, the default. */
  function SaveAsPath(suffix: string, source: SourceFile): string {
    var newFileName := source.basename + suffix + ".md";
    if source.parent.Some? then source.parent.value + "/" + newFileName else newFileName
  }

  /** The new file goes next to the document and is named after it. */
  lemma SaveAsNextToSource(suffix: string, source: SourceFile)
    ensures source.parent.Some? ==> StartsWith(SaveAsPath(suffix, source), source.parent.value + "/")
    ensures EndsWith(SaveAsPath(suffix, source), source.basename + suffix + ".md")
  {
    var name := source.basename + suffix + ".md";
    if source.parent.Some? {
      var r := SaveAsPath(suffix, source);
      var dir := source.parent.value + "/";
      assert r == dir + name;
      assert r[..|dir|] == dir;
      assert r[|r| - |name|..] == name;
    }
  }

  /** Where the host puts a note: in its folder's path followed by `/`, or directly under the
      vault root, whose folder path is `/`; a note without a parent folder has its bare name. */
  function NotePath(basename: string, parent: Option<string>): string {
    if parent.None? || parent.value == "/" then basename + ".md"
    else parent.value + "/" + basename + ".md"
  }

  /** With a non-empty suffix the new file never overwrites the document itself, whether the
      document sits in a folder or at the vault root. */
  lemma SaveAsNeverOverwritesSource(suffix: string, source: SourceFile)
    requires suffix != ""
    requires source.path == NotePath(source.basename, source.parent)
    ensures SaveAsPath(suffix, source) != source.path
  {
    assert |SaveAsPath(suffix, source)| > |source.path|;
  }
}
