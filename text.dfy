/** String helpers with the semantics of the JavaScript and Python string operations the
    engines call: prefix / suffix tests, ASCII lower-casing, `String.prototype.indexOf`,
    `String.prototype.replace` with a string pattern, `String.prototype.trim`, and the
    "maximal run" primitive that the hand-written regular-expression matchers are built on. */
module Text {
  import opened Wrappers

  predicate StartsWith(s: string, prefix: string) {
    |prefix| <= |s| && s[..|prefix|] == prefix
  }

  predicate EndsWith(s: string, suffix: string) {
    |suffix| <= |s| && s[|s| - |suffix|..] == suffix
  }

  /** A text starting with `p + q` starts with `p`. */
  lemma StartsWithPrefix(s: string, p: string, q: string)
    requires StartsWith(s, p + q)
    ensures StartsWith(s, p)
  {
    assert s[..|p|] == s[..|p + q|][..|p|];
  }

  /** Lower-cases the ASCII letters and leaves every other character alone. For the
      comparisons made in this project (against the ASCII keys of the extension tables) this
      agrees with ECMAScript `toLowerCase` and Python `str.lower`: the only non-ASCII
      character either maps into ASCII is KELVIN SIGN, to 'k', a letter no key contains. */
  function LowerChar(c: char): char {
    if 'A' <= c <= 'Z' then (c as int + 32) as char else c
  }

  function LowerAscii(s: string): (r: string)
    ensures |r| == |s|
    ensures forall i :: 0 <= i < |s| ==> r[i] == LowerChar(s[i])
  {
    seq(|s|, i requires 0 <= i < |s| => LowerChar(s[i]))
  }

  /** `pat` occurs in `s` at index `i`. */
  predicate OccursAt(s: string, pat: string, i: nat) {
    i + |pat| <= |s| && s[i..i + |pat|] == pat
  }

  /** One differing character rules an occurrence out. */
  lemma MismatchAt(s: string, pat: string, i: nat, k: nat)
    requires k < |pat| && (i + |pat| <= |s| ==> s[i + k] != pat[k])
    ensures !OccursAt(s, pat, i)
  {
    if i + |pat| <= |s| {
      assert s[i..i + |pat|][k] == s[i + k];
    }
  }

  /** The first occurrence of `pat` in `s` at or after `k` (ECMAScript `indexOf`). */
  function IndexFrom(s: string, pat: string, k: nat): (r: Option<nat>)
    ensures r.Some? ==> k <= r.value && OccursAt(s, pat, r.value)
    ensures r.Some? ==> forall j :: k <= j < r.value ==> !OccursAt(s, pat, j)
    ensures r.None? ==> forall j :: k <= j ==> !OccursAt(s, pat, j)
    decreases |s| - k
  {
    if k + |pat| > |s| then None
    else if s[k..k + |pat|] == pat then Some(k)
    else IndexFrom(s, pat, k + 1)
  }

  /** A position where `pat[d]` is missing is passed over by the search. */
  lemma IndexFromSkip(s: string, pat: string, k: nat, d: nat)
    requires d < |pat| && (k + |pat| <= |s| ==> s[k + d] != pat[d])
    ensures IndexFrom(s, pat, k) == IndexFrom(s, pat, k + 1)
  {
    MismatchAt(s, pat, k, d);
  }

  /** ... and so is a run of positions that do not hold `pat`'s first character. */
  lemma {:induction false} IndexFromPast(s: string, pat: string, k: nat, x: nat)
    requires pat != [] && k <= x
    requires forall j :: k <= j < x && j < |s| ==> s[j] != pat[0]
    ensures IndexFrom(s, pat, k) == IndexFrom(s, pat, x)
    decreases x - k
  {
    if k < x {
      IndexFromSkip(s, pat, k, 0);
      IndexFromPast(s, pat, k + 1, x);
    }
  }

  function IndexOf(s: string, pat: string): Option<nat> {
    IndexFrom(s, pat, 0)
  }

  /** `indexOf` reports the first occurrence. */
  lemma IndexOfFirst(s: string, pat: string, i: nat)
    requires OccursAt(s, pat, i)
    requires forall j :: 0 <= j < i ==> !OccursAt(s, pat, j)
    ensures IndexOf(s, pat) == Some(i)
  {
  }

  /** `s.replace(pat, rep)` with a string pattern: only the FIRST occurrence of `pat` is
      replaced, and nothing happens when there is none. ECMAScript also expands `$`-patterns
      in `rep`; a replacement without `$` is inserted literally, which is what this models. */
  function ReplaceFirst(s: string, pat: string, rep: string): string
    requires '$' !in rep
  {
    match IndexOf(s, pat)
    case None => s
    case Some(i) => s[..i] + rep + s[i + |pat|..]
  }

  /** `replace` splices the replacement in at the first occurrence. */
  lemma ReplaceFirstAt(s: string, pat: string, rep: string, x: nat)
    requires '$' !in rep && IndexOf(s, pat) == Some(x)
    ensures x + |pat| <= |s|
    ensures ReplaceFirst(s, pat, rep) == s[..x] + rep + s[x + |pat|..]
  {
  }

  /** The WhiteSpace and LineTerminator code points that ECMAScript `trim` removes. */
  predicate IsJsWhitespace(c: char) {
    || c == '\t' || c == '\n' || c == '\U{B}' || c == '\U{C}' || c == '\r' || c == ' '
    || c == '\U{A0}' || c == '\U{1680}' || ('\U{2000}' <= c <= '\U{200A}')
    || c == '\U{2028}' || c == '\U{2029}' || c == '\U{202F}' || c == '\U{205F}'
    || c == '\U{3000}' || c == '\U{FEFF}'
  }

  function TrimStart(s: string): (r: string)
    ensures |r| <= |s| && r == s[|s| - |r|..]
    ensures r == [] || !IsJsWhitespace(r[0])
    ensures forall i :: 0 <= i < |s| - |r| ==> IsJsWhitespace(s[i])
  {
    if s != [] && IsJsWhitespace(s[0]) then TrimStart(s[1..]) else s
  }

  function TrimEnd(s: string): (r: string)
    ensures |r| <= |s| && r == s[..|r|]
    ensures r == [] || !IsJsWhitespace(r[|r| - 1])
    ensures forall i :: |r| <= i < |s| ==> IsJsWhitespace(s[i])
  {
    if s != [] && IsJsWhitespace(s[|s| - 1]) then TrimEnd(s[..|s| - 1]) else s
  }

  /** ECMAScript `String.prototype.trim`. */
  function Trim(s: string): string {
    TrimEnd(TrimStart(s))
  }

  /** Text that neither starts nor ends with white space is its own trim. */
  lemma TrimKeeps(s: string)
    requires s == [] || (!IsJsWhitespace(s[0]) && !IsJsWhitespace(s[|s| - 1]))
    ensures Trim(s) == s
  {
  }

  /** The index where the run of characters satisfying `p` that starts at `k` ends: the
      greedy part of a character-class repetition such as `[^\]]*`. */
  function RunEnd(s: string, k: nat, p: char -> bool): (e: nat)
    requires k <= |s|
    ensures k <= e <= |s|
    ensures e == |s| || !p(s[e])
    decreases |s| - k
  {
    if k == |s| || !p(s[k]) then k else RunEnd(s, k + 1, p)
  }

  /** Every character the run covers satisfies `p`. */
  lemma {:induction false} RunEndCovers(s: string, k: nat, p: char -> bool)
    requires k <= |s|
    ensures forall j :: k <= j < RunEnd(s, k, p) ==> p(s[j])
    decreases |s| - k
  {
    if k < |s| && p(s[k]) {
      RunEndCovers(s, k + 1, p);
    }
  }

  /** A run is determined by where it stops: the bridge the matchers' lemmas use. */
  lemma {:induction false} RunEndAt(s: string, k: nat, p: char -> bool, x: nat)
    requires k <= x <= |s|
    requires forall j :: k <= j < x ==> p(s[j])
    requires x == |s| || !p(s[x])
    ensures RunEnd(s, k, p) == x
    decreases x - k
  {
    if k < x {
      RunEndAt(s, k + 1, p, x);
    }
  }
}
