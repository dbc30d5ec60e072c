/**
 * The `os.path` functions the scripts call, as Python's `posixpath` computes
 * them on `/`-separated paths: `splitext`, `dirname`, `basename` and a
 * two-argument `join`.
 */
module PosixPath {
  import opened Strings

  /** `s.rfind(c)`: the index of the last `c` in `s`, or -1. */
  function RFind(s: string, c: char): (r: int)
    ensures -1 <= r < |s|
  {
    if |s| == 0 then -1
    else if s[|s| - 1] == c then |s| - 1
    else RFind(s[..|s| - 1], c)
  }

  /** `RFind` finds the last occurrence. */
  lemma {:induction false} RFindSpec(s: string, c: char)
    ensures RFind(s, c) >= 0 ==> s[RFind(s, c)] == c
    ensures forall j :: RFind(s, c) < j < |s| ==> s[j] != c
  {
    if |s| > 0 && s[|s| - 1] != c {
      RFindSpec(s[..|s| - 1], c);
    }
  }

  /** Pins down `RFind` from the position of the last occurrence. */
  lemma RFindAt(s: string, c: char, k: int)
    requires -1 <= k < |s|
    requires k >= 0 ==> s[k] == c
    requires forall j :: k < j < |s| ==> s[j] != c
    ensures RFind(s, c) == k
  {
    RFindSpec(s, c);
  }

  /** The scan of `splitext`: some character of `p[from..dot]` is not a `.`. */
  predicate HasNonDotBetween(p: string, from: int, dot: int)
    requires 0 <= from && dot <= |p|
    decreases dot - from
  {
    from < dot && (p[from] != '.' || HasNonDotBetween(p, from + 1, dot))
  }

  /** The scan finds any character other than `.` in the range. */
  lemma {:induction false} HasNonDotAt(p: string, from: int, dot: int, i: int)
    requires 0 <= from <= i < dot <= |p| && p[i] != '.'
    ensures HasNonDotBetween(p, from, dot)
    decreases i - from
  {
    if from < i {
      HasNonDotAt(p, from + 1, dot, i);
    }
  }

  /**
   * `os.path.splitext(p)`: the extension starts at the last `.` of the last
   * path component, unless that component is only dots up to it (a leading
   * dot, as in `.bashrc`, is not an extension).
   */
  function Splitext(p: string): (string, string) {
    var sep := RFind(p, '/');
    var dot := RFind(p, '.');
    if dot > sep && HasNonDotBetween(p, sep + 1, dot) then (p[..dot], p[dot..]) else (p, [])
  }

  /** The two parts of `splitext` put back together give the path; the extension is empty or one `.` and no `/`. */
  lemma SplitextParts(p: string)
    ensures Splitext(p).0 + Splitext(p).1 == p
    ensures var ext := Splitext(p).1;
      ext == [] || (ext[0] == '.' && forall i :: 0 < i < |ext| ==> ext[i] != '.' && ext[i] != '/')
  {
    var sep := RFind(p, '/');
    var dot := RFind(p, '.');
    RFindSpec(p, '/');
    RFindSpec(p, '.');
    if dot > sep && HasNonDotBetween(p, sep + 1, dot) {
      assert p[..dot] + p[dot..] == p;
    }
  }

  /** `s.rstrip('/')`. */
  function RStripSlashes(s: string): string {
    if |s| > 0 && s[|s| - 1] == '/' then RStripSlashes(s[..|s| - 1]) else s
  }

  /** `rstrip` removes exactly the trailing run of slashes. */
  lemma {:induction false} RStripSlashesSpec(s: string)
    ensures var r := RStripSlashes(s); |r| <= |s| && r == s[..|r|]
    ensures forall j :: |RStripSlashes(s)| <= j < |s| ==> s[j] == '/'
    ensures RStripSlashes(s) == [] || RStripSlashes(s)[|RStripSlashes(s)| - 1] != '/'
  {
    if |s| > 0 && s[|s| - 1] == '/' {
      RStripSlashesSpec(s[..|s| - 1]);
      var r := RStripSlashes(s[..|s| - 1]);
      assert s[..|s| - 1][..|r|] == s[..|r|];
    }
  }

  /**
   * `os.path.dirname(p)`: everything up to the last `/`, with trailing
   * slashes removed unless only slashes remain (stripping gives `""`
   * exactly when nothing but slashes is left).
   */
  function Dirname(p: string): string {
    var head := p[..RFind(p, '/') + 1];
    var stripped := RStripSlashes(head);
    if stripped != [] then stripped else head
  }

  /** `os.path.basename(p)`: everything after the last `/`. */
  function Basename(p: string): string {
    p[RFind(p, '/') + 1..]
  }

  /** `os.path.join(a, b)`. */
  function Join(a: string, b: string): string {
    if |b| > 0 && b[0] == '/' then b
    else if a == [] || a[|a| - 1] == '/' then a + b
    else a + "/" + b
  }

  /** `os.path.join(a, b)` always ends with `b`. */
  lemma JoinEndsWith(a: string, b: string)
    ensures EndsWith(Join(a, b), b)
  {
    var j := Join(a, b);
    assert j[|j| - |b|..] == b;
  }

  /** A path that does not start at the file-system root. */
  predicate IsRelative(p: string) {
    p == [] || p[0] != '/'
  }

  /** A single path component, as `os.listdir` and `os.walk` report names. */
  predicate IsName(n: string) {
    n != [] && forall i :: 0 <= i < |n| ==> n[i] != '/'
  }

  /** The parent of a non-empty relative path is strictly shorter and relative again. */
  lemma DirnameOfRelative(p: string)
    requires IsRelative(p) && p != []
    ensures |Dirname(p)| < |p| && IsRelative(Dirname(p))
  {
    var k := RFind(p, '/');
    RFindSpec(p, '/');
    if k >= 0 {
      var head := p[..k + 1];
      assert head[0] != '/';
      assert head[k] == '/';
      var r := RStripSlashes(head);
      RStripSlashesSpec(head);
      assert |r| <= k;
      assert |r| > 0 ==> r[0] == p[0];
    }
  }

  /** Joining a relative directory and a name gives a relative path whose last component is that name. */
  lemma JoinName(d: string, n: string)
    requires IsRelative(d) && IsName(n)
    ensures IsRelative(Join(d, n))
    ensures EndsWith(Join(d, n), n)
    ensures Basename(Join(d, n)) == n
  {
    var j := Join(d, n);
    assert j[|j| - |n|..] == n;
    var k := RFind(j, '/');
    RFindSpec(j, '/');
    assert k < |j| - |n|;
    if d != [] && d[|d| - 1] != '/' {
      assert j[|j| - |n| - 1] == '/';
    } else if d != [] {
      assert j[|d| - 1] == '/';
    }
    assert k == |j| - |n| - 1 || d == [];
  }

  /** A dot followed by characters that are neither dots nor slashes. */
  predicate IsOneExtension(ext: string) {
    |ext| >= 1 && ext[0] == '.' && forall i :: 0 < i < |ext| ==> ext[i] != '.' && ext[i] != '/'
  }

  /**
   * A path that ends in a one-dot extension `ext`, with some character other
   * than `.` before it in its last component, splits exactly there.
   */
  lemma SplitextOfExtension(p: string, ext: string)
    requires IsOneExtension(ext)
    requires EndsWith(p, ext)
    requires HasNonDotBetween(p, RFind(p, '/') + 1, |p| - |ext|)
    ensures Splitext(p).0 == p[..|p| - |ext|]
    ensures Splitext(p).1 == ext
  {
    SplitextAt(p, ext, |p| - |ext|);
  }

  /** `SplitextOfExtension` with the split position `k` named by the caller. */
  lemma SplitextAt(p: string, ext: string, k: int)
    requires IsOneExtension(ext) && EndsWith(p, ext) && k == |p| - |ext|
    requires HasNonDotBetween(p, RFind(p, '/') + 1, k)
    ensures Splitext(p).0 == p[..k]
    ensures Splitext(p).1 == ext
  {
    ExtensionDot(p, ext);
    ExtensionAfterSeparator(p, ext);
    assert RFind(p, '.') == k;
    assert p[k..] == ext;
  }

  /** The characters of an extension at the end of a path. */
  lemma ExtensionChars(p: string, ext: string)
    requires IsOneExtension(ext) && EndsWith(p, ext)
    ensures p[|p| - |ext|] == '.'
    ensures forall j :: |p| - |ext| < j < |p| ==> p[j] != '.' && p[j] != '/'
  {
    var k := |p| - |ext|;
    assert p[k..] == ext;
    assert p[k] == ext[0];
    forall j | k < j < |p|
      ensures p[j] != '.' && p[j] != '/'
    {
      assert p[j] == ext[j - k];
    }
  }

  /** The last `.` of a path ending in a one-dot extension is the extension's. */
  lemma ExtensionDot(p: string, ext: string)
    requires IsOneExtension(ext) && EndsWith(p, ext)
    ensures RFind(p, '.') == |p| - |ext|
  {
    ExtensionChars(p, ext);
    RFindAt(p, '.', |p| - |ext|);
  }

  /** The last `/` of a path ending in a one-dot extension comes before the extension. */
  lemma ExtensionAfterSeparator(p: string, ext: string)
    requires IsOneExtension(ext) && EndsWith(p, ext)
    ensures RFind(p, '/') < |p| - |ext|
  {
    ExtensionChars(p, ext);
    RFindSpec(p, '/');
  }
}
