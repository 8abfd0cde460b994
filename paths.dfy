/** The one path operation the cleaner's decisions depend on: `os.path.splitext`
    with POSIX separators ('/' only). */
module Paths {

  /** Python's `s.rfind(c)`: the index of the last `c` in `s`, or -1 if there is none. */
  function RFind(s: string, c: char): (r: int)
    ensures -1 <= r < |s|
    ensures r >= 0 ==> s[r] == c
    ensures forall k :: r < k < |s| ==> s[k] != c
    decreases |s|
  {
    if s == [] then -1
    else if s[|s| - 1] == c then |s| - 1
    else RFind(s[..|s| - 1], c)
  }

  /** Some character of `p` at an index in [lo, hi) is not a dot. */
  predicate HasNonDot(p: string, lo: int, hi: int)
  {
    exists k :: lo <= k < hi && 0 <= k < |p| && p[k] != '.'
  }

  /** `os.path.splitext(p)`: split at the last dot of the final path component,
      unless everything before that dot in the component is a dot as well
      (so ".bashrc" and "..." have no extension). */
  function SplitExt(p: string): (r: (string, string))
    ensures r.0 + r.1 == p
    // there is an extension exactly when the final component has a dot after a non-dot
    ensures r.1 != "" <==>
      exists i, j :: RFind(p, '/') < i < j < |p| && p[i] != '.' && p[j] == '.'
    // an extension is a single dot followed by neither dots nor separators
    ensures r.1 != "" ==> r.1[0] == '.' && forall k :: 0 < k < |r.1| ==> r.1[k] != '.' && r.1[k] != '/'
  {
    var sepIndex := RFind(p, '/');
    var dotIndex := RFind(p, '.');
    if dotIndex > sepIndex && HasNonDot(p, sepIndex + 1, dotIndex) then
      (p[..dotIndex], p[dotIndex..])
    else
      (p, "")
  }

  /** `os.path.splitext(p)[0]`, the base name used to detect references. */
  function StripExt(p: string): (r: string)
    ensures |r| <= |p| && p[..|r|] == r
  {
    SplitExt(p).0
  }

  lemma SplitExtExamples()
    ensures SplitExt("figs/plot.png") == ("figs/plot", ".png")
    ensures SplitExt(".bashrc") == (".bashrc", "")
  {
    var p := "figs/plot.png";
    assert p[12] != '.' && p[11] != '.' && p[10] != '.' && p[9] == '.';
    assert p[..12][..11] == p[..11] && p[..11][..10] == p[..10];
    assert RFind(p, '.') == RFind(p[..10], '.') == 9;
    assert p[8] != '/' && p[7] != '/' && p[6] != '/' && p[5] != '/' && p[4] == '/';
    assert RFind(p, '/') == 4;
    assert p[5] != '.' && HasNonDot(p, 5, 9);
    assert p[..9] == "figs/plot" && p[9..] == ".png";
    var q := ".bashrc";
    assert q[0] == '.' && forall k :: 0 < k < |q| ==> q[k] != '.';
    assert RFind(q, '.') == 0;
    assert forall k :: 0 <= k < |q| ==> q[k] != '/';
    assert RFind(q, '/') == -1;
  }
}
