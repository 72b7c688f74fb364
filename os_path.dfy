/** The parts of Python's `os.path` (the POSIX flavour, `posixpath`) and `pathlib` that the
    Python converter relies on, and the file system it consults, as values.

    The file system is abstract: the set of paths `os.path.exists` accepts, the set
    `os.path.isfile` accepts, the set `os.access(p, os.R_OK)` accepts, what reading a file's
    bytes gives, and what the Pillow re-encoding gives; either of the last two may raise. */
module OsPath {
  import opened Text
  import opened Base64

  /** A call that returns a value or raises an exception with a message (`str(e)`). */
  datatype Attempt<T> = Ok(value: T) | Raised(message: string)

  datatype Disk = Disk(
    existing: set<string>,
    files: set<string>,
    readable: set<string>,
    read: string -> Attempt<seq<Byte>>,
    reencode: string -> Attempt<seq<Byte>>)

  /** `os.path.isabs`. */
  predicate IsAbs(p: string) {
    p != [] && p[0] == '/'
  }

  /** `p.rfind(c)`: the last index holding `c`, or -1. */
  function RFind(p: string, c: char): (r: int)
    ensures -1 <= r < |p|
    ensures r >= 0 ==> p[r] == c
    ensures forall j :: r < j < |p| ==> p[j] != c
  {
    if p == [] then -1
    else if p[|p| - 1] == c then |p| - 1
    else RFind(p[..|p| - 1], c)
  }

  /** `RFind` is determined by the last occurrence. */
  lemma {:induction false} RFindAt(p: string, c: char, i: int)
    requires -1 <= i < |p| && (i >= 0 ==> p[i] == c)
    requires forall j :: i < j < |p| ==> p[j] != c
    ensures RFind(p, c) == i
    decreases |p|
  {
    if p != [] && i < |p| - 1 {
      RFindAt(p[..|p| - 1], c, i);
    }
  }

  predicate AllSlashes(p: string) {
    forall j :: 0 <= j < |p| ==> p[j] == '/'
  }

  /** `p.rstrip('/')`. */
  function RStripSlash(p: string): (r: string)
    ensures |r| <= |p| && r == p[..|r|]
    ensures r == [] || r[|r| - 1] != '/'
    ensures forall j :: |r| <= j < |p| ==> p[j] == '/'
  {
    if p != [] && p[|p| - 1] == '/' then RStripSlash(p[..|p| - 1]) else p
  }

  /** `p.lstrip('/')`. */
  function LStripSlash(p: string): (r: string)
    ensures |r| <= |p| && r == p[|p| - |r|..]
    ensures r == [] || r[0] != '/'
    ensures forall j :: 0 <= j < |p| - |r| ==> p[j] == '/'
  {
    if p != [] && p[0] == '/' then LStripSlash(p[1..]) else p
  }

  /** `posixpath.dirname`: everything up to the last `/`, with the trailing slashes removed
      unless that leaves nothing but slashes. */
  function Dirname(p: string): (r: string)
    ensures |r| <= |p|
  {
    var head := p[..RFind(p, '/') + 1];
    if head != [] && !AllSlashes(head) then RStripSlash(head) else head
  }

  /** The directory of an absolute path is absolute. */
  lemma DirnameAbs(p: string)
    requires IsAbs(p)
    ensures IsAbs(Dirname(p))
  {
    var head := p[..RFind(p, '/') + 1];
    assert head[0] == '/';
    if !AllSlashes(head) {
      var j :| 0 <= j < |head| && head[j] != '/';
      var r := RStripSlash(head);
      assert j < |r|;
      assert r[0] == head[0];
    }
  }

  /** `posixpath.join(a, b)`: an absolute `b` replaces `a`; otherwise they are joined with
      one `/` unless `a` is empty or already ends with one. */
  function Join(a: string, b: string): (r: string)
    ensures IsAbs(b) ==> r == b
  {
    if IsAbs(b) then b
    else if a == [] || a[|a| - 1] == '/' then a + b
    else a + "/" + b
  }

  /** Joining onto an absolute directory gives an absolute path. */
  lemma JoinAbs(a: string, b: string)
    requires IsAbs(a)
    ensures IsAbs(Join(a, b))
  {
  }

  predicate NotSlash(c: char) { c != '/' }

  /** `p.split('/')`. */
  function SplitSlash(p: string): (r: seq<string>)
    ensures |r| >= 1
    ensures forall k :: 0 <= k < |r| ==> '/' !in r[k]
    decreases |p|
  {
    var i := RunEnd(p, 0, NotSlash);
    RunEndCovers(p, 0, NotSlash);
    if i == |p| then
      assert p[..i] == p;
      [p]
    else
      var rest := SplitSlash(p[i + 1..]);
      var r := [p[..i]] + rest;
      forall k | 0 <= k < |r|
        ensures '/' !in r[k]
      {
        if k > 0 {
          assert r[k] == rest[k - 1];
        }
      }
      r
  }

  /** `'/'.join(cs)`. */
  function JoinSlash(cs: seq<string>): string {
    if cs == [] then ""
    else if |cs| == 1 then cs[0]
    else cs[0] + "/" + JoinSlash(cs[1..])
  }

  /** A component `normpath` keeps: not empty, not `.`, without `/`. */
  predicate Clean(c: string) {
    c != "" && c != "." && '/' !in c
  }

  /** The component loop of `posixpath.normpath`: empty and `.` components are dropped, `..`
      removes the previous component, and a `..` that has nothing to remove is kept in a
      relative path (after other kept `..`s) and dropped in an absolute one. */
  function NormComps(comps: seq<string>, absolute: bool, acc: seq<string>): (r: seq<string>)
    requires forall k :: 0 <= k < |comps| ==> '/' !in comps[k]
    requires forall k :: 0 <= k < |acc| ==> Clean(acc[k])
    requires absolute ==> forall k :: 0 <= k < |acc| ==> acc[k] != ".."
    ensures forall k :: 0 <= k < |r| ==> Clean(r[k])
    ensures absolute ==> forall k :: 0 <= k < |r| ==> r[k] != ".."
    decreases |comps|
  {
    if comps == [] then acc
    else
      var c := comps[0];
      var next :=
        if c == "" || c == "." then acc
        else if c != ".." || (!absolute && acc == []) || (acc != [] && acc[|acc| - 1] == "..") then acc + [c]
        else if acc != [] then acc[..|acc| - 1]
        else acc;
      NormComps(comps[1..], absolute, next)
  }

  /** `n` slashes. */
  function Slashes(n: nat): (r: string)
    ensures |r| == n && AllSlashes(r)
  {
    seq(n, _ => '/')
  }

  /** `posixpath.normpath`: one leading slash, or exactly two (POSIX leaves `//` alone, three
      or more collapse to one), then the kept components; `.` for an empty result. */
  function Normpath(p: string): (r: string)
    ensures r != []
    ensures IsAbs(r) <==> IsAbs(p)
  {
    if p == [] then "."
    else
      var lead := if StartsWith(p, "//") && !StartsWith(p, "///") then 2 else if StartsWith(p, "/") then 1 else 0;
      var cs := NormComps(SplitSlash(p), lead > 0, []);
      JoinSlashFirst(cs);
      var path := Slashes(lead) + JoinSlash(cs);
      assert lead > 0 ==> path[0] == '/';
      if path == [] then "." else path
  }

  /** The first character of a joined list of clean components is that of the first one. */
  lemma JoinSlashFirst(cs: seq<string>)
    requires forall k :: 0 <= k < |cs| ==> Clean(cs[k])
    ensures cs == [] <==> JoinSlash(cs) == []
    ensures cs != [] ==> cs[0] != [] && JoinSlash(cs) != [] && JoinSlash(cs)[0] == cs[0][0] && cs[0][0] != '/'
  {
    if cs != [] {
      assert cs[0] != [];
      assert cs[0][0] in cs[0];
    }
  }

  /** `os.path.splitext(p)[1]`: from the last `.` on, when that dot is in the last path
      component and is not part of the component's leading run of dots; `""` otherwise. */
  function SplitExt(p: string): (ext: string)
    ensures ext == [] || (ext[0] == '.' && EndsWith(p, ext))
  {
    var sep := RFind(p, '/');
    var dot := RFind(p, '.');
    if dot > sep && RunEnd(p, sep + 1, IsDot) < dot then p[dot..] else ""
  }

  predicate IsDot(c: char) { c == '.' }

  predicate Kept(c: string) { c != "" && c != "." }

  /** The components `pathlib` keeps: `split('/')` without the empty and `.` ones. */
  function Parts(cs: seq<string>): (r: seq<string>)
    ensures forall k :: 0 <= k < |r| ==> Kept(r[k])
  {
    if cs == [] then []
    else if Kept(cs[0]) then [cs[0]] + Parts(cs[1..])
    else Parts(cs[1..])
  }

  /** `PurePosixPath(p).name`: the last kept component, `""` when there is none. */
  function Name(p: string): (r: string)
    ensures '/' !in r
  {
    var parts := Parts(SplitSlash(p));
    if parts == [] then ""
    else
      PartsOfSplit(SplitSlash(p), |parts| - 1);
      parts[|parts| - 1]
  }

  /** Every kept component is one of the split components. */
  lemma {:induction false} PartsOfSplit(cs: seq<string>, k: nat)
    requires k < |Parts(cs)|
    ensures Parts(cs)[k] in cs
    decreases |cs|
  {
    if Kept(cs[0]) {
      if k > 0 {
        PartsOfSplit(cs[1..], k - 1);
      }
    } else {
      PartsOfSplit(cs[1..], k);
    }
  }

  /** `PurePosixPath(p).suffix`: the name from its last `.` on, when that dot is neither the
      name's first nor its last character; `""` otherwise. */
  function Suffix(p: string): (ext: string)
    ensures ext == [] || (ext[0] == '.' && |ext| >= 2)
  {
    var name := Name(p);
    var i := RFind(name, '.');
    if 0 < i < |name| - 1 then name[i..] else ""
  }

  /** The two extension functions disagree on a name made of dots and an extension:
      `splitext` treats the leading dots as part of a hidden file's name, `pathlib` only the
      first one. */
  lemma SplitExtAndSuffixDiffer()
    ensures SplitExt("..png") == ""
    ensures Suffix("..png") == ".png"
  {
    var p := "..png";
    RFindAt(p, '/', -1);
    RFindAt(p, '.', 1);
    assert RunEnd(p, 0, IsDot) == 2;
    assert SplitSlash(p) == [p];
    assert Parts([p]) == [p];
  }

  /** On an ordinary file name both give the dotted extension. */
  lemma SplitExtAndSuffixAgree()
    ensures SplitExt("dir/a.PNG") == ".PNG"
    ensures Suffix("dir/a.PNG") == ".PNG"
  {
    var p := "dir/a.PNG";
    RFindAt(p, '.', 5);
    RFindAt(p, '/', 3);
    assert RunEnd(p, 4, IsDot) == 4;
    assert RunEnd(p, 0, NotSlash) == 3;
    assert p[4..] == "a.PNG" && p[..3] == "dir";
    assert RunEnd("a.PNG", 0, NotSlash) == 5;
    assert SplitSlash("a.PNG") == ["a.PNG"];
    assert SplitSlash(p) == ["dir", "a.PNG"];
    assert Parts(["dir", "a.PNG"]) == ["dir", "a.PNG"];
    RFindAt("a.PNG", '.', 1);
  }
}
