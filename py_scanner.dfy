/** The image pattern of the Python converter, `!\[([^\]]*)\]\(<?([^)"\s>]+)>?(?:\s+"[^"]*")?\)`,
    enumerated left to right as `re.sub` and `re.findall` do.

    The matcher is written out by hand; the backtracking of Python's `re` cannot change the
    captures. The alt text is the run up to the first `]`. The path is the maximal run of
    characters other than `)`, `"`, `>` and white space, after an optional `<` that is taken
    when a path character follows it. After the path come an optional `>`, then either a title
    (white space, a double-quoted run without `"`) followed by `)`, or `)` at once. There is
    no wiki form. */
module PyScanner {
  import opened Wrappers
  import opened Text

  /** One match: its span, `group(0)`, `group(1)` (alt) and `group(2)` (path). */
  datatype PyRef = PyRef(start: nat, end: nat, full: string, alt: string, path: string)

  /** The characters `\s` matches in a `str` pattern: those `str.isspace` accepts. */
  predicate IsPyWhitespace(c: char) {
    || ('\t' <= c <= '\r') || ('\U{1C}' <= c <= ' ') || c == '\U{85}' || c == '\U{A0}'
    || c == '\U{1680}' || ('\U{2000}' <= c <= '\U{200A}') || c == '\U{2028}' || c == '\U{2029}'
    || c == '\U{202F}' || c == '\U{205F}' || c == '\U{3000}'
  }

  predicate NotCloseBracket(c: char) { c != ']' }

  predicate NotQuote(c: char) { c != '"' }

  /** The path class `[^)"\s>]`. */
  predicate PyPathChar(c: char) {
    c != ')' && c != '"' && c != '>' && !IsPyWhitespace(c)
  }

  /** What follows the path and the optional `>`, from index `x`: `(?:\s+"[^"]*")?\)`. The
      end of the match, if the tail is there. */
  function CloseAt(s: string, x: nat): (r: Option<nat>)
    requires x <= |s|
    ensures r.Some? ==> x < r.value <= |s| && s[r.value - 1] == ')'
  {
    if x < |s| && IsPyWhitespace(s[x]) then
      var w := RunEnd(s, x, IsPyWhitespace);
      if w < |s| && s[w] == '"' then
        var c := RunEnd(s, w + 1, NotQuote);
        if c + 1 < |s| && s[c + 1] == ')' then Some(c + 2) else None
      else None
    else if x < |s| && s[x] == ')' then Some(x + 1)
    else None
  }

  /** The pattern tried at index `i`. */
  function MatchAt(s: string, i: nat): (r: Option<PyRef>)
    requires i <= |s|
    ensures r.Some? ==> r.value.start == i && i < r.value.end <= |s| && r.value.full == s[i..r.value.end]
    ensures r.Some? ==> ']' !in r.value.alt && r.value.path != []
    ensures r.Some? ==> forall j :: 0 <= j < |r.value.path| ==> PyPathChar(r.value.path[j])
  {
    if i + 2 > |s| || s[i] != '!' || s[i + 1] != '[' then None
    else
      var a := RunEnd(s, i + 2, NotCloseBracket);
      if a + 2 > |s| || s[a + 1] != '(' then None
      else
        var q := a + 2;
        var st := if q + 1 < |s| && s[q] == '<' && PyPathChar(s[q + 1]) then q + 1 else q;
        var e := RunEnd(s, st, PyPathChar);
        RunEndCovers(s, i + 2, NotCloseBracket);
        RunEndCovers(s, st, PyPathChar);
        if e == st then None
        else
          var x := if e < |s| && s[e] == '>' then e + 1 else e;
          match CloseAt(s, x)
          case None => None
          case Some(end) =>
            CapturesOfRuns(s, i + 2, a, st, e);
            Some(PyRef(i, end, s[i..end], s[i + 2..a], s[st..e]))
  }

  /** The captures cut out of the runs keep the runs' character classes. */
  lemma CapturesOfRuns(s: string, lo: nat, a: nat, st: nat, e: nat)
    requires lo <= a <= |s| && st <= e <= |s|
    requires forall j :: lo <= j < a ==> NotCloseBracket(s[j])
    requires forall j :: st <= j < e ==> PyPathChar(s[j])
    ensures ']' !in s[lo..a]
    ensures forall j :: 0 <= j < e - st ==> PyPathChar(s[st..e][j])
  {
  }

  /** No match starts in `[lo, hi)`. */
  predicate NoMatchIn(s: string, lo: nat, hi: nat)
    requires hi <= |s|
  {
    forall p :: lo <= p < hi ==> MatchAt(s, p).None?
  }

  /** `ms` is what a left-to-right search from `k` reports: the first match at or after `k`,
      then the search resumed at its end. */
  predicate IsFindAll(s: string, k: nat, ms: seq<PyRef>)
    requires k <= |s|
    decreases |ms|
  {
    if ms == [] then NoMatchIn(s, k, |s|)
    else
      && k <= ms[0].start < ms[0].end <= |s|
      && NoMatchIn(s, k, ms[0].start)
      && MatchAt(s, ms[0].start) == Some(ms[0])
      && IsFindAll(s, ms[0].end, ms[1..])
  }

  /** The matches from index `k`. */
  function FindAllFrom(s: string, k: nat): (ms: seq<PyRef>)
    requires k <= |s|
    ensures IsFindAll(s, k, ms)
    decreases |s| - k
  {
    if k == |s| then []
    else match MatchAt(s, k)
      case Some(r) => [r] + FindAllFrom(s, r.end)
      case None =>
        var ms := FindAllFrom(s, k + 1);
        NoMatchInExtend(s, k, ms);
        ms
  }

  lemma NoMatchInExtend(s: string, k: nat, ms: seq<PyRef>)
    requires k < |s| && MatchAt(s, k).None? && IsFindAll(s, k + 1, ms)
    ensures IsFindAll(s, k, ms)
  {
    if ms == [] {
      assert NoMatchIn(s, k, |s|);
    } else {
      assert NoMatchIn(s, k, ms[0].start);
    }
  }

  /** The matches `re.sub` and `re.findall` visit. */
  function FindAll(s: string): (ms: seq<PyRef>)
    ensures IsFindAll(s, 0, ms)
  {
    FindAllFrom(s, 0)
  }

  /** `ms` are spans of `s` from `k` on, in order and without overlap. */
  predicate Ordered(s: string, k: nat, ms: seq<PyRef>)
    decreases |ms|
  {
    ms == [] || (
      && k <= ms[0].start < ms[0].end <= |s|
      && ms[0].full == s[ms[0].start..ms[0].end]
      && Ordered(s, ms[0].end, ms[1..]))
  }

  /** A search from `k` is ordered from `k`. */
  lemma {:induction false} FindAllOrdered(s: string, k: nat, ms: seq<PyRef>)
    requires k <= |s| && IsFindAll(s, k, ms)
    ensures Ordered(s, k, ms)
    decreases |ms|
  {
    if ms != [] {
      FindAllOrdered(s, ms[0].end, ms[1..]);
    }
  }

  /** Every element of a search is the match at its own start, inside the searched range, and
      the elements do not overlap. */
  lemma {:induction false} FindAllElements(s: string, k: nat, ms: seq<PyRef>)
    requires k <= |s| && IsFindAll(s, k, ms)
    ensures forall j :: 0 <= j < |ms| ==> k <= ms[j].start < ms[j].end <= |s| && MatchAt(s, ms[j].start) == Some(ms[j])
    ensures forall j :: 0 <= j < |ms| - 1 ==> ms[j].end <= ms[j + 1].start
    decreases |ms|
  {
    if ms != [] {
      FindAllElements(s, ms[0].end, ms[1..]);
      forall j | 0 <= j < |ms|
        ensures k <= ms[j].start < ms[j].end <= |s| && MatchAt(s, ms[j].start) == Some(ms[j])
      {
        if j > 0 {
          assert ms[j] == ms[1..][j - 1];
        }
      }
      forall j | 0 <= j < |ms| - 1
        ensures ms[j].end <= ms[j + 1].start
      {
        assert ms[j + 1] == ms[1..][j];
        if j > 0 {
          assert ms[j] == ms[1..][j - 1];
        }
      }
    }
  }

  /** The search is determined by the text: two sequences that are both a search from `k`
      are the same. */
  lemma {:induction false} FindAllUnique(s: string, k: nat, ms1: seq<PyRef>, ms2: seq<PyRef>)
    requires k <= |s| && IsFindAll(s, k, ms1) && IsFindAll(s, k, ms2)
    ensures ms1 == ms2
    decreases |ms1|
  {
    if ms1 != [] && ms2 != [] {
      var p1, p2 := ms1[0].start, ms2[0].start;
      assert MatchAt(s, p1).Some? && MatchAt(s, p2).Some?;
      assert NoMatchIn(s, k, p1) && NoMatchIn(s, k, p2);
      assert !(p1 < p2) && !(p2 < p1);
      FindAllUnique(s, ms1[0].end, ms1[1..], ms2[1..]);
      assert ms1 == [ms1[0]] + ms1[1..];
      assert ms2 == [ms2[0]] + ms2[1..];
    }
  }

  /** A rewritten reference `![alt](uri)`, with an alt text the pattern captured and a URI of
      path characters that does not start with `<`, is matched again as a whole, with the
      same captures. */
  lemma ReferenceMatches(alt: string, uri: string)
    requires ']' !in alt && uri != [] && uri[0] != '<'
    requires forall j :: 0 <= j < |uri| ==> PyPathChar(uri[j])
    ensures var t := "![" + alt + "](" + uri + ")";
      MatchAt(t, 0) == Some(PyRef(0, |t|, t, alt, uri))
  {
    var t := "![" + alt + "](" + uri + ")";
    var a := 2 + |alt|;
    var q := a + 2;
    var e := q + |uri|;
    ReferencePieces(alt, uri);
    forall j | 2 <= j < a
      ensures NotCloseBracket(t[j])
    {
      assert t[j] == alt[j - 2];
    }
    forall j | q <= j < e
      ensures PyPathChar(t[j])
    {
      assert t[j] == uri[j - q];
    }
    RunEndAt(t, 2, NotCloseBracket, a);
    RunEndAt(t, q, PyPathChar, e);
    assert CloseAt(t, e) == Some(e + 1);
  }

  /** Where the pieces of `![alt](uri)` sit. */
  lemma ReferencePieces(alt: string, uri: string)
    requires uri != []
    ensures var t := "![" + alt + "](" + uri + ")";
      var a := 2 + |alt|;
      var e := a + 2 + |uri|;
      && |t| == e + 1 && t[0] == '!' && t[1] == '[' && t[a] == ']' && t[a + 1] == '('
      && t[a + 2] == uri[0] && t[e] == ')' && !IsPyWhitespace(t[e]) && t[0..|t|] == t
      && t[2..a] == alt && t[a + 2..e] == uri
      && (forall j :: 2 <= j < a ==> t[j] == alt[j - 2])
      && (forall j :: a + 2 <= j < e ==> t[j] == uri[j - a - 2])
  {
  }
}
