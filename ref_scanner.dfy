/** The image-reference scanner of the three TypeScript / JavaScript plugins: the global,
    case-insensitive regular expression that recognises `![alt](path)`, `![alt](<path>)` and
    the wiki form `![[name.ext]]`, enumerated with `matchAll`.

    The matcher is written out by hand. The captures are forced by the character classes:
    the alt text is the run up to the first `]`; the path is the maximal run of characters
    other than `)`, `"` and `>`, starting after an optional `<` (the `<` is taken when a path
    character follows it; otherwise it is the path's own first character); the path is closed
    by `)` or by `>)`. The wiki name runs from `![[` to the first `]`, must be followed by
    `]]` and must end in one of seven extensions in any ASCII case. At a position the markdown
    form is tried first, then the wiki form; scanning resumes at the end of each match. */
module RefScanner {
  import opened Wrappers
  import opened Text

  /** One match: its span in the scanned text, its text (`match[0]`) and its captures. */
  datatype ImageRef =
    | Markdown(start: nat, end: nat, full: string, alt: string, path: string)
    | Wiki(start: nat, end: nat, full: string, name: string)

  predicate NotCloseBracket(c: char) { c != ']' }

  /** The path character class `[^)">]`. */
  predicate JsPathChar(c: char) { c != ')' && c != '"' && c != '>' }

  /** `name` ends in `.` followed by `ext` in any ASCII case, with at least one character
      before the dot. */
  predicate HasExtension(name: string, ext: string) {
    |name| >= |ext| + 2 && name[|name| - |ext| - 1] == '.' && LowerAscii(name[|name| - |ext|..]) == ext
  }

  /** The alternation `\.(png|jpg|jpeg|gif|webp|svg|bmp)` under the `i` flag. */
  predicate IsWikiImageName(name: string) {
    || HasExtension(name, "png") || HasExtension(name, "jpg") || HasExtension(name, "jpeg")
    || HasExtension(name, "gif") || HasExtension(name, "webp") || HasExtension(name, "svg")
    || HasExtension(name, "bmp")
  }

  /** The markdown alternative tried at index `i`. */
  function MarkdownAt(s: string, i: nat): (r: Option<ImageRef>)
    requires i <= |s|
    ensures r.Some? ==> r.value.Markdown? && r.value.start == i && i < r.value.end <= |s|
    ensures r.Some? ==> r.value.full == s[i..r.value.end]
    ensures r.Some? ==> ']' !in r.value.alt && r.value.path != []
    ensures r.Some? ==> forall j :: 0 <= j < |r.value.path| ==> JsPathChar(r.value.path[j])
  {
    if i + 2 > |s| || s[i] != '!' || s[i + 1] != '[' then None
    else
      var a := RunEnd(s, i + 2, NotCloseBracket);
      if a + 2 > |s| || s[a + 1] != '(' then None
      else
        var q := a + 2;
        var st := if q + 1 < |s| && s[q] == '<' && JsPathChar(s[q + 1]) then q + 1 else q;
        var e := RunEnd(s, st, JsPathChar);
        RunEndCovers(s, i + 2, NotCloseBracket);
        RunEndCovers(s, st, JsPathChar);
        if e == st then None
        else match PathClose(s, e)
          case None => None
          case Some(end) => Some(Markdown(i, end, s[i..end], s[i + 2..a], s[st..e]))
  }

  /** The end of `)` or `>)` at index `e`. */
  function PathClose(s: string, e: nat): (r: Option<nat>)
    requires e <= |s|
    ensures r.Some? ==> r.value == e + 1 || (r.value == e + 2 && e < |s| && s[e] == '>')
    ensures r.Some? ==> r.value <= |s| && s[r.value - 1] == ')'
  {
    if e < |s| && s[e] == ')' then Some(e + 1)
    else if e + 1 < |s| && s[e] == '>' && s[e + 1] == ')' then Some(e + 2)
    else None
  }

  /** The wiki alternative tried at index `i`. */
  function WikiAt(s: string, i: nat): (r: Option<ImageRef>)
    requires i <= |s|
    ensures r.Some? ==> r.value.Wiki? && r.value.start == i && i < r.value.end <= |s|
    ensures r.Some? ==> r.value.full == s[i..r.value.end]
    ensures r.Some? ==> r.value.full == "![[" + r.value.name + "]]"
    ensures r.Some? ==> ']' !in r.value.name && IsWikiImageName(r.value.name)
  {
    if i + 3 > |s| || s[i] != '!' || s[i + 1] != '[' || s[i + 2] != '[' then None
    else
      var f := RunEnd(s, i + 3, NotCloseBracket);
      RunEndCovers(s, i + 3, NotCloseBracket);
      if f + 2 > |s| || s[f + 1] != ']' then None
      else
        var name := s[i + 3..f];
        if IsWikiImageName(name) then
          WikiText(s, i, f);
          Some(Wiki(i, f + 2, s[i..f + 2], name))
        else None
  }

  /** The text of a wiki match, from its pieces. */
  lemma WikiText(s: string, i: nat, f: nat)
    requires i + 3 <= f && f + 2 <= |s|
    requires s[i] == '!' && s[i + 1] == '[' && s[i + 2] == '[' && s[f] == ']' && s[f + 1] == ']'
    requires forall j :: i + 3 <= j < f ==> s[j] != ']'
    ensures s[i..f + 2] == "![[" + s[i + 3..f] + "]]"
    ensures ']' !in s[i + 3..f]
  {
    assert s[i..f + 2] == s[i..i + 3] + s[i + 3..f] + s[f..f + 2];
    assert s[i..i + 3] == [s[i], s[i + 1], s[i + 2]];
    assert s[f..f + 2] == [s[f], s[f + 1]];
  }

  /** The whole pattern at index `i`: the markdown alternative first. */
  function RefAt(s: string, i: nat): (r: Option<ImageRef>)
    requires i <= |s|
    ensures r.Some? ==> r.value.start == i && i < r.value.end <= |s| && r.value.full == s[i..r.value.end]
  {
    match MarkdownAt(s, i)
    case Some(m) => Some(m)
    case None => WikiAt(s, i)
  }

  /** No match starts in `[lo, hi)`. */
  predicate NoRefIn(s: string, lo: nat, hi: nat)
    requires hi <= |s|
  {
    forall p :: lo <= p < hi ==> RefAt(s, p).None?
  }

  /** `ms` is what a left-to-right scan from `k` reports: no match starts before the first
      element, which is the match at its own start, and the rest is the scan from its end;
      with no element, no match starts anywhere from `k` on. */
  predicate IsScan(s: string, k: nat, ms: seq<ImageRef>)
    requires k <= |s|
    decreases |ms|
  {
    if ms == [] then NoRefIn(s, k, |s|)
    else
      && k <= ms[0].start < ms[0].end <= |s|
      && NoRefIn(s, k, ms[0].start)
      && RefAt(s, ms[0].start) == Some(ms[0])
      && IsScan(s, ms[0].end, ms[1..])
  }

  /** `matchAll` from index `k`. */
  function ScanFrom(s: string, k: nat): (ms: seq<ImageRef>)
    requires k <= |s|
    ensures IsScan(s, k, ms)
    decreases |s| - k
  {
    if k == |s| then []
    else match RefAt(s, k)
      case Some(r) => [r] + ScanFrom(s, r.end)
      case None =>
        var ms := ScanFrom(s, k + 1);
        NoRefInExtend(s, k, ms);
        ms
  }

  lemma NoRefInExtend(s: string, k: nat, ms: seq<ImageRef>)
    requires k < |s| && RefAt(s, k).None? && IsScan(s, k + 1, ms)
    ensures IsScan(s, k, ms)
  {
    if ms == [] {
      assert NoRefIn(s, k, |s|);
    } else {
      assert NoRefIn(s, k, ms[0].start);
    }
  }

  /** `[...content.matchAll(imgRegex)]`. */
  function Scan(s: string): (ms: seq<ImageRef>)
    ensures IsScan(s, 0, ms)
  {
    ScanFrom(s, 0)
  }

  // ----- What a match looks like -----

  /** The text of a markdown reference with the given captures and optional `<` / `>`. */
  function MarkdownText(alt: string, open: string, path: string, close: string): string {
    "![" + alt + "](" + open + path + close + ")"
  }

  lemma Split6(s: string, x0: nat, x1: nat, x2: nat, x3: nat, x4: nat, x5: nat, x6: nat)
    requires x0 <= x1 <= x2 <= x3 <= x4 <= x5 <= x6 <= |s|
    ensures s[x0..x6] == s[x0..x1] + s[x1..x2] + s[x2..x3] + s[x3..x4] + s[x4..x5] + s[x5..x6]
  {
    assert s[x0..x6] == s[x0..x1] + s[x1..x6];
    assert s[x1..x6] == s[x1..x2] + s[x2..x6];
    assert s[x2..x6] == s[x2..x3] + s[x3..x6];
    assert s[x3..x6] == s[x3..x4] + s[x4..x6];
    assert s[x4..x6] == s[x4..x5] + s[x5..x6];
  }

  /** How a markdown match is laid out in the text: the indices the matcher computes (the
      end of the alt text, the start and the end of the path). */
  lemma MarkdownAtParts(s: string, i: nat) returns (a: nat, st: nat, e: nat)
    requires i <= |s| && MarkdownAt(s, i).Some?
    ensures var r := MarkdownAt(s, i).value;
      && i + 2 <= a && a + 2 <= st <= a + 3 && st < e < r.end <= e + 2 && r.end <= |s|
      && s[i] == '!' && s[i + 1] == '[' && s[a] == ']' && s[a + 1] == '(' && s[r.end - 1] == ')'
      && RunEnd(s, i + 2, NotCloseBracket) == a
      && st == (if a + 3 < |s| && s[a + 2] == '<' && JsPathChar(s[a + 3]) then a + 3 else a + 2)
      && RunEnd(s, st, JsPathChar) == e
      && (st == a + 3 ==> s[a + 2] == '<')
      && (r.end == e + 2 ==> s[e] == '>')
      && r == Markdown(i, r.end, s[i..r.end], s[i + 2..a], s[st..e])
  {
    var r := MarkdownAt(s, i).value;
    assert !(i + 2 > |s| || s[i] != '!' || s[i + 1] != '[');
    a := RunEnd(s, i + 2, NotCloseBracket);
    assert !(a + 2 > |s| || s[a + 1] != '(');
    var q := a + 2;
    st := if q + 1 < |s| && s[q] == '<' && JsPathChar(s[q + 1]) then q + 1 else q;
    e := RunEnd(s, st, JsPathChar);
    assert e != st && PathClose(s, e).Some?;
    var end := PathClose(s, e).value;
    assert MarkdownAt(s, i) == Some(Markdown(i, end, s[i..end], s[i + 2..a], s[st..e]));
  }

  function Optional(present: bool, c: string): string {
    if present then c else ""
  }

  lemma MarkdownTextOfPieces(s: string, i: nat, a: nat, st: nat, e: nat, end: nat)
    requires i + 2 <= a && a + 2 <= st <= a + 3 && st <= e < end <= e + 2 && end <= |s|
    requires s[i] == '!' && s[i + 1] == '[' && s[a] == ']' && s[a + 1] == '(' && s[end - 1] == ')'
    requires st == a + 3 ==> s[a + 2] == '<'
    requires end == e + 2 ==> s[e] == '>'
    ensures s[i..end] == MarkdownText(s[i + 2..a], Optional(st == a + 3, "<"), s[st..e], Optional(end == e + 2, ">"))
  {
    Split6(s, i, i + 2, a, a + 2, st, e, end - 1);
    assert s[i..end] == s[i..end - 1] + s[end - 1..end];
    assert s[i..i + 2] == "![" by {
      assert s[i..i + 2] == [s[i], s[i + 1]];
    }
    assert s[a..a + 2] == "](" by {
      assert s[a..a + 2] == [s[a], s[a + 1]];
    }
    assert s[end - 1..end] == ")" by {
      assert s[end - 1..end] == [s[end - 1]];
    }
    assert s[a + 2..st] == Optional(st == a + 3, "<") by {
      if st == a + 3 {
        assert s[a + 2..st] == [s[a + 2]];
      }
    }
    assert s[e..end - 1] == Optional(end == e + 2, ">") by {
      if end == e + 2 {
        assert s[e..end - 1] == [s[e]];
      }
    }
  }

  /** Soundness of the markdown alternative: its text is `![alt](path)` with the path
      optionally preceded by `<` and optionally followed by `>`. */
  lemma MarkdownAtShape(s: string, i: nat)
    requires i <= |s| && MarkdownAt(s, i).Some?
    ensures var r := MarkdownAt(s, i).value;
      exists lt: bool, gt: bool :: r.full == MarkdownText(r.alt, Optional(lt, "<"), r.path, Optional(gt, ">"))
  {
    var r := MarkdownAt(s, i).value;
    var a, st, e := MarkdownAtParts(s, i);
    MarkdownTextOfPieces(s, i, a, st, e, r.end);
  }

  // ----- The scan is determined -----

  /** The matches a left-to-right scan reports are determined by the text: two sequences
      that both satisfy `IsScan` are equal. */
  lemma {:induction false} ScanUnique(s: string, k: nat, ms1: seq<ImageRef>, ms2: seq<ImageRef>)
    requires k <= |s| && IsScan(s, k, ms1) && IsScan(s, k, ms2)
    ensures ms1 == ms2
    decreases |ms1|
  {
    if ms1 != [] && ms2 != [] {
      var p1, p2 := ms1[0].start, ms2[0].start;
      assert RefAt(s, p1).Some? && RefAt(s, p2).Some?;
      assert NoRefIn(s, k, p1) && NoRefIn(s, k, p2);
      assert !(p1 < p2) && !(p2 < p1);
      assert ms1[0] == ms2[0];
      ScanUnique(s, ms1[0].end, ms1[1..], ms2[1..]);
      assert ms1 == [ms1[0]] + ms1[1..];
      assert ms2 == [ms2[0]] + ms2[1..];
    }
  }

  /** Consequences of the scan's definition for every element: each is the match at its
      start, inside the scanned range, and each ends no later than the next one starts. */
  lemma {:induction false} ScanElements(s: string, k: nat, ms: seq<ImageRef>)
    requires k <= |s| && IsScan(s, k, ms)
    ensures forall j :: 0 <= j < |ms| ==> k <= ms[j].start < ms[j].end <= |s| && RefAt(s, ms[j].start) == Some(ms[j])
    ensures forall j :: 0 <= j < |ms| - 1 ==> ms[j].end <= ms[j + 1].start
    decreases |ms|
  {
    if ms != [] {
      ScanElements(s, ms[0].end, ms[1..]);
      forall j | 0 <= j < |ms|
        ensures k <= ms[j].start < ms[j].end <= |s| && RefAt(s, ms[j].start) == Some(ms[j])
      {
        if j > 0 {
          assert ms[j] == ms[1..][j - 1];
        }
      }
      forall j | 0 <= j < |ms| - 1
        ensures ms[j].end <= ms[j + 1].start
      {
        assert ms[j + 1] == ms[1..][j];
        if j > 0 {
          assert ms[j] == ms[1..][j - 1];
        }
      }
    }
  }

  // ----- A matched text is matched wherever it occurs -----

  /** The character `j` places after index `i`. */
  function CharAt(s: string, i: nat, j: nat): char
    requires i + j < |s|
  {
    s[i + j]
  }

  /** `n` characters of `t` from `p` are those of `s` from `i`. */
  predicate SameAt(s: string, i: nat, t: string, p: nat, n: nat) {
    i + n <= |s| && p + n <= |t| && forall j :: 0 <= j < n ==> CharAt(t, p, j) == CharAt(s, i, j)
  }

  lemma SameAtChar(s: string, i: nat, t: string, p: nat, n: nat, x: nat)
    requires SameAt(s, i, t, p, n) && i <= x < i + n
    ensures t[p + (x - i)] == s[x]
  {
    assert CharAt(t, p, x - i) == CharAt(s, i, x - i);
  }

  lemma SameAtSlice(s: string, i: nat, t: string, p: nat, n: nat, lo: nat, hi: nat)
    requires SameAt(s, i, t, p, n) && lo <= hi <= n
    ensures SameAt(s, i + lo, t, p + lo, hi - lo)
  {
    var tp, si := p + lo, i + lo;
    forall j | 0 <= j < hi - lo
      ensures CharAt(t, tp, j) == CharAt(s, si, j)
    {
      SameAtChar(s, i, t, p, n, i + (lo + j));
    }
  }

  lemma SameAtText(s: string, i: nat, t: string, p: nat, n: nat)
    requires SameAt(s, i, t, p, n)
    ensures t[p..p + n] == s[i..i + n]
  {
    var ts, ss := t[p..p + n], s[i..i + n];
    forall j | 0 <= j < n
      ensures ts[j] == ss[j]
    {
      SameAtChar(s, i, t, p, n, i + j);
    }
  }

  lemma OccursAtSame(s: string, i: nat, t: string, p: nat, n: nat)
    requires i + n <= |s| && OccursAt(t, s[i..i + n], p)
    ensures SameAt(s, i, t, p, n)
  {
    forall j | 0 <= j < n
      ensures CharAt(t, p, j) == CharAt(s, i, j)
    {
      assert t[p..p + n][j] == s[i..i + n][j];
    }
  }

  /** A run is decided by the characters it covers and the one that stops it. */
  lemma RunEndShift(s: string, k: nat, t: string, kt: nat, pr: char -> bool, e: nat, n: nat)
    requires k <= |s| && RunEnd(s, k, pr) == e < |s|
    requires SameAt(s, k, t, kt, n) && n == e - k + 1
    ensures RunEnd(t, kt, pr) == kt + (e - k)
  {
    var x := kt + (e - k);
    RunEndCovers(s, k, pr);
    forall j | kt <= j < x
      ensures pr(t[j])
    {
      SameAtChar(s, k, t, kt, n, k + (j - kt));
    }
    SameAtChar(s, k, t, kt, n, e);
    RunEndAt(t, kt, pr, x);
  }

  /** The same match, found at index `p`. */
  function Moved(r: ImageRef, p: nat): ImageRef {
    r.(start := p, end := p + |r.full|)
  }

  /** The converse of `MarkdownAtParts`: the layout determines the match. */
  lemma MarkdownAtOfParts(t: string, p: nat, a: nat, st: nat, e: nat, end: nat)
    requires p + 2 <= a && a + 2 <= st <= a + 3 && st < e < end <= e + 2 && end <= |t|
    requires t[p] == '!' && t[p + 1] == '[' && t[a + 1] == '(' && t[end - 1] == ')'
    requires RunEnd(t, p + 2, NotCloseBracket) == a
    requires st == if a + 3 < |t| && t[a + 2] == '<' && JsPathChar(t[a + 3]) then a + 3 else a + 2
    requires RunEnd(t, st, JsPathChar) == e
    requires end == e + 2 ==> t[e] == '>'
    ensures MarkdownAt(t, p) == Some(Markdown(p, end, t[p..end], t[p + 2..a], t[st..e]))
  {
    assert !(p + 2 > |t| || t[p] != '!' || t[p + 1] != '[');
    assert !(a + 2 > |t| || t[a + 1] != '(');
    assert e != st;
    if end == e + 1 {
      assert t[e] == ')';
    } else {
      assert t[e] == '>' && t[e + 1] == ')';
    }
    assert PathClose(t, e) == Some(end);
  }

  /** The layout facts of a markdown match carry over to a copy of its text: first the
      part up to the alt text's closing `](`, then the path and its closing. */
  lemma MarkdownHeadLocal(s: string, i: nat, a: nat, st: nat, e: nat, end: nat, t: string, p: nat)
    requires i + 2 <= a && a + 2 <= st <= a + 3 && st < e < end <= e + 2 && end <= |s|
    requires s[i] == '!' && s[i + 1] == '[' && s[a + 1] == '(' && s[end - 1] == ')'
    requires RunEnd(s, i + 2, NotCloseBracket) == a
    requires st == if a + 3 < |s| && s[a + 2] == '<' && JsPathChar(s[a + 3]) then a + 3 else a + 2
    requires RunEnd(s, st, JsPathChar) == e
    requires end == e + 2 ==> s[e] == '>'
    requires SameAt(s, i, t, p, end - i)
    ensures t[p] == '!' && t[p + 1] == '[' && t[p + (a - i) + 1] == '(' && t[p + (end - i) - 1] == ')'
    ensures RunEnd(t, p + 2, NotCloseBracket) == p + (a - i)
  {
    var n := end - i;
    SameAtChar(s, i, t, p, n, i);
    SameAtChar(s, i, t, p, n, i + 1);
    SameAtSlice(s, i, t, p, n, 2, a + 1 - i);
    RunEndShift(s, i + 2, t, p + 2, NotCloseBracket, a, a + 1 - i - 2);
    SameAtChar(s, i, t, p, n, a + 1);
    SameAtChar(s, i, t, p, n, end - 1);
  }

  lemma MarkdownPathLocal(s: string, i: nat, a: nat, st: nat, e: nat, end: nat, t: string, p: nat)
    requires i + 2 <= a && a + 2 <= st <= a + 3 && st < e < end <= e + 2 && end <= |s|
    requires s[i] == '!' && s[i + 1] == '[' && s[a + 1] == '(' && s[end - 1] == ')'
    requires RunEnd(s, i + 2, NotCloseBracket) == a
    requires st == if a + 3 < |s| && s[a + 2] == '<' && JsPathChar(s[a + 3]) then a + 3 else a + 2
    requires RunEnd(s, st, JsPathChar) == e
    requires end == e + 2 ==> s[e] == '>'
    requires SameAt(s, i, t, p, end - i)
    ensures p + (st - i) == if p + (a - i) + 3 < |t| && t[p + (a - i) + 2] == '<' && JsPathChar(t[p + (a - i) + 3]) then p + (a - i) + 3 else p + (a - i) + 2
    ensures RunEnd(t, p + (st - i), JsPathChar) == p + (e - i)
    ensures p + (end - i) == p + (e - i) + 2 ==> t[p + (e - i)] == '>'
  {
    var n := end - i;
    SameAtChar(s, i, t, p, n, a + 2);
    SameAtChar(s, i, t, p, n, a + 3);
    SameAtSlice(s, i, t, p, n, st - i, e + 1 - i);
    RunEndShift(s, st, t, p + (st - i), JsPathChar, e, e + 1 - i - (st - i));
    SameAtChar(s, i, t, p, n, e);
  }

  /** A copy of a markdown match's text has the same text, alt text and path. */
  lemma MarkdownCapturesLocal(s: string, i: nat, a: nat, st: nat, e: nat, end: nat, t: string, p: nat)
    requires i + 2 <= a <= st <= e <= end && SameAt(s, i, t, p, end - i)
    ensures t[p..p + (end - i)] == s[i..end]
    ensures t[p + 2..p + (a - i)] == s[i + 2..a]
    ensures t[p + (st - i)..p + (e - i)] == s[st..e]
    ensures Markdown(p, p + (end - i), t[p..p + (end - i)], t[p + 2..p + (a - i)], t[p + (st - i)..p + (e - i)])
         == Markdown(p, p + (end - i), s[i..end], s[i + 2..a], s[st..e])
  {
    var n := end - i;
    SameAtText(s, i, t, p, n);
    SameAtSlice(s, i, t, p, n, 2, a - i);
    SameAtText(s, i + 2, t, p + 2, a - i - 2);
    SameAtSlice(s, i, t, p, n, st - i, e - i);
    SameAtText(s, i + (st - i), t, p + (st - i), e - i - (st - i));
  }

  /** A copy of a markdown match's text is matched the same way. */
  lemma MarkdownLocal(s: string, i: nat, a: nat, st: nat, e: nat, end: nat, t: string, p: nat)
    requires i + 2 <= a && a + 2 <= st <= a + 3 && st < e < end <= e + 2 && end <= |s|
    requires s[i] == '!' && s[i + 1] == '[' && s[a + 1] == '(' && s[end - 1] == ')'
    requires RunEnd(s, i + 2, NotCloseBracket) == a
    requires st == if a + 3 < |s| && s[a + 2] == '<' && JsPathChar(s[a + 3]) then a + 3 else a + 2
    requires RunEnd(s, st, JsPathChar) == e
    requires end == e + 2 ==> s[e] == '>'
    requires p <= |t| && SameAt(s, i, t, p, end - i)
    ensures MarkdownAt(t, p) == Some(Markdown(p, p + (end - i), s[i..end], s[i + 2..a], s[st..e]))
  {
    MarkdownLayoutLocal(s, i, a, st, e, end, t, p);
    MarkdownCapturesLocal(s, i, a, st, e, end, t, p);
  }

  /** The copy has the same layout, shifted to `p`. */
  lemma MarkdownLayoutLocal(s: string, i: nat, a: nat, st: nat, e: nat, end: nat, t: string, p: nat)
    requires i + 2 <= a && a + 2 <= st <= a + 3 && st < e < end <= e + 2 && end <= |s|
    requires s[i] == '!' && s[i + 1] == '[' && s[a + 1] == '(' && s[end - 1] == ')'
    requires RunEnd(s, i + 2, NotCloseBracket) == a
    requires st == if a + 3 < |s| && s[a + 2] == '<' && JsPathChar(s[a + 3]) then a + 3 else a + 2
    requires RunEnd(s, st, JsPathChar) == e
    requires end == e + 2 ==> s[e] == '>'
    requires p <= |t| && SameAt(s, i, t, p, end - i)
    ensures MarkdownAt(t, p) == Some(Markdown(p, p + (end - i), t[p..p + (end - i)], t[p + 2..p + (a - i)], t[p + (st - i)..p + (e - i)]))
  {
    MarkdownHeadLocal(s, i, a, st, e, end, t, p);
    MarkdownPathLocal(s, i, a, st, e, end, t, p);
    MarkdownAtOfParts(t, p, p + (a - i), p + (st - i), p + (e - i), p + (end - i));
  }

  /** How a wiki match is laid out in the text. */
  lemma WikiAtParts(s: string, i: nat)
    requires i <= |s| && WikiAt(s, i).Some?
    ensures var r := WikiAt(s, i).value;
      var f := RunEnd(s, i + 3, NotCloseBracket);
      && i + 3 <= f && r.end == f + 2 && r.end <= |s|
      && s[i] == '!' && s[i + 1] == '[' && s[i + 2] == '[' && s[f + 1] == ']'
      && r == Wiki(i, r.end, s[i..r.end], s[i + 3..f])
  {
  }

  /** The converse of `WikiAtParts`; and the markdown alternative fails there, since the
      alt text `[` is followed by `]]`, not `](`. */
  lemma WikiAtOfParts(t: string, p: nat, f: nat, end: nat)
    requires p + 3 <= f && end == f + 2 && end <= |t|
    requires t[p] == '!' && t[p + 1] == '[' && t[p + 2] == '[' && t[f + 1] == ']'
    requires RunEnd(t, p + 3, NotCloseBracket) == f
    requires IsWikiImageName(t[p + 3..f])
    ensures WikiAt(t, p) == Some(Wiki(p, end, t[p..end], t[p + 3..f]))
    ensures MarkdownAt(t, p).None?
  {
    assert RunEnd(t, p + 2, NotCloseBracket) == f;
  }

  lemma WikiHeadLocal(s: string, i: nat, f: nat, end: nat, t: string, p: nat)
    requires i + 3 <= f && end == f + 2 && end <= |s|
    requires s[i] == '!' && s[i + 1] == '[' && s[i + 2] == '[' && s[f + 1] == ']'
    requires RunEnd(s, i + 3, NotCloseBracket) == f
    requires SameAt(s, i, t, p, end - i)
    ensures t[p] == '!' && t[p + 1] == '[' && t[p + 2] == '[' && t[p + (f - i) + 1] == ']'
    ensures RunEnd(t, p + 3, NotCloseBracket) == p + (f - i)
  {
    var n := end - i;
    SameAtChar(s, i, t, p, n, i);
    SameAtChar(s, i, t, p, n, i + 1);
    SameAtChar(s, i, t, p, n, i + 2);
    SameAtSlice(s, i, t, p, n, 3, f + 1 - i);
    RunEndShift(s, i + 3, t, p + 3, NotCloseBracket, f, f + 1 - i - 3);
    SameAtChar(s, i, t, p, n, f + 1);
  }

  lemma WikiCapturesLocal(s: string, i: nat, f: nat, end: nat, t: string, p: nat)
    requires i + 3 <= f <= end && SameAt(s, i, t, p, end - i)
    ensures t[p..p + (end - i)] == s[i..end]
    ensures t[p + 3..p + (f - i)] == s[i + 3..f]
  {
    var n := end - i;
    SameAtText(s, i, t, p, n);
    SameAtSlice(s, i, t, p, n, 3, f - i);
    SameAtText(s, i + 3, t, p + 3, f - i - 3);
  }

  /** A copy of a wiki match's text is matched the same way. */
  lemma WikiLocal(s: string, i: nat, f: nat, end: nat, t: string, p: nat)
    requires i + 3 <= f && end == f + 2 && end <= |s|
    requires s[i] == '!' && s[i + 1] == '[' && s[i + 2] == '[' && s[f + 1] == ']'
    requires RunEnd(s, i + 3, NotCloseBracket) == f
    requires IsWikiImageName(s[i + 3..f])
    requires p <= |t| && SameAt(s, i, t, p, end - i)
    ensures WikiAt(t, p) == Some(Wiki(p, p + (end - i), s[i..end], s[i + 3..f]))
    ensures MarkdownAt(t, p).None?
  {
    WikiHeadLocal(s, i, f, end, t, p);
    WikiCapturesLocal(s, i, f, end, t, p);
    WikiAtOfParts(t, p, p + (f - i), p + (end - i));
  }

  lemma MarkdownRefLocal(s: string, i: nat, t: string, p: nat)
    requires i <= |s| && p <= |t| && MarkdownAt(s, i).Some?
    requires SameAt(s, i, t, p, MarkdownAt(s, i).value.end - i)
    ensures MarkdownAt(t, p) == Some(Moved(MarkdownAt(s, i).value, p))
  {
    var r := MarkdownAt(s, i).value;
    var a, st, e := MarkdownAtParts(s, i);
    MarkdownLocal(s, i, a, st, e, r.end, t, p);
  }

  lemma WikiRefLocal(s: string, i: nat, t: string, p: nat)
    requires i <= |s| && p <= |t| && WikiAt(s, i).Some?
    requires SameAt(s, i, t, p, WikiAt(s, i).value.end - i)
    ensures WikiAt(t, p) == Some(Moved(WikiAt(s, i).value, p))
    ensures MarkdownAt(t, p).None?
  {
    var r := WikiAt(s, i).value;
    WikiAtParts(s, i);
    var f := RunEnd(s, i + 3, NotCloseBracket);
    WikiLocal(s, i, f, r.end, t, p);
  }

  /** Locality: wherever the text of a match occurs, the pattern matches it there, with the
      same captures. */
  lemma RefAtLocal(s: string, i: nat, t: string, p: nat)
    requires i <= |s| && p <= |t| && RefAt(s, i).Some?
    requires OccursAt(t, RefAt(s, i).value.full, p)
    ensures RefAt(t, p) == Some(Moved(RefAt(s, i).value, p))
  {
    var r := RefAt(s, i).value;
    OccursAtSame(s, i, t, p, r.end - i);
    if MarkdownAt(s, i).Some? {
      MarkdownRefLocal(s, i, t, p);
    } else {
      WikiRefLocal(s, i, t, p);
    }
  }

  /** The first match's text does not occur earlier in the scanned text: `replace` with that
      text as pattern rewrites exactly the first match. */
  lemma FirstMatchIsFirstOccurrence(s: string)
    requires Scan(s) != []
    ensures Scan(s)[0].start < Scan(s)[0].end <= |s| && |Scan(s)[0].full| == Scan(s)[0].end - Scan(s)[0].start
    ensures IndexOf(s, Scan(s)[0].full) == Some(Scan(s)[0].start)
  {
    var ms := Scan(s);
    var m := ms[0];
    assert IsScan(s, 0, ms);
    assert OccursAt(s, m.full, m.start);
    NoEarlierOccurrence(s, m.start);
    IndexOfFirst(s, m.full, m.start);
  }

  /** A match with no match before it: its text occurs nowhere earlier, since an earlier
      occurrence would be a match there. */
  lemma NoEarlierOccurrence(s: string, i: nat)
    requires i <= |s| && RefAt(s, i).Some? && NoRefIn(s, 0, i)
    ensures forall j :: 0 <= j < i ==> !OccursAt(s, RefAt(s, i).value.full, j)
  {
    forall j | 0 <= j < i
      ensures !OccursAt(s, RefAt(s, i).value.full, j)
    {
      assert RefAt(s, j).None?;
      if OccursAt(s, RefAt(s, i).value.full, j) {
        RefAtLocal(s, i, s, j);
      }
    }
  }
}
