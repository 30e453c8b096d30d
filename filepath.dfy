/**
 * The lexical part of Go's path/filepath package on a Unix host, where the
 * separator is '/' and filepath.ToSlash changes nothing: Clean, Dir, Join,
 * Ext and Base, plus strings.TrimPrefix(p, "/"). Resolve is the combination
 * the converter applies to every manifest href and every image src.
 */
module FilePath {

  /** The elements of a path between its '/' separators; "a//b/" gives ["a", "", "b", ""]. */
  function Split(p: string): (r: seq<string>)
    ensures |r| >= 1
    ensures forall i | 0 <= i < |r| :: '/' !in r[i]
  {
    if p == [] then [""]
    else
      var r := Split(p[..|p| - 1]);
      var c := p[|p| - 1];
      if c == '/' then r + [""] else r[..|r| - 1] + [r[|r| - 1] + [c]]
  }

  /** The elements joined back with '/'; the first element is always a prefix of the result. */
  function JoinSegments(segs: seq<string>): (r: string)
    ensures |segs| > 0 ==> segs[0] <= r
  {
    if |segs| == 0 then ""
    else if |segs| == 1 then segs[0]
    else JoinSegments(segs[..|segs| - 1]) + "/" + segs[|segs| - 1]
  }

  /** An element that Clean keeps as it is: non-empty, not ".", without a separator. */
  predicate PlainSegment(s: string)
  {
    s != "" && s != "." && '/' !in s
  }

  /**
   * The element stack Clean builds from left to right: empty and "." elements
   * vanish, ".." removes the element before it when there is one that is not
   * itself "..", is dropped at the root of a rooted path, and is kept otherwise.
   */
  function Reduce(segs: seq<string>, rooted: bool): (r: seq<string>)
    requires forall i | 0 <= i < |segs| :: '/' !in segs[i]
    ensures |r| <= |segs|
    ensures forall i | 0 <= i < |r| :: PlainSegment(r[i])
    ensures rooted ==> forall i | 0 <= i < |r| :: r[i] != ".."
  {
    if segs == [] then []
    else
      var acc := Reduce(segs[..|segs| - 1], rooted);
      var s := segs[|segs| - 1];
      if s == "" || s == "." then acc
      else if s == ".." then
        if |acc| > 0 && acc[|acc| - 1] != ".." then acc[..|acc| - 1]
        else if rooted then acc
        else acc + [".."]
      else acc + [s]
  }

  /**
   * filepath.Clean: the shortest lexically equivalent path. It is never empty,
   * it is rooted exactly when its argument is, and it never starts with "//".
   */
  function Clean(p: string): (r: string)
    ensures r != ""
    ensures r[0] == '/' <==> |p| > 0 && p[0] == '/'
    ensures |r| >= 2 && r[0] == '/' ==> r[1] != '/'
  {
    var rooted := |p| > 0 && p[0] == '/';
    var segs := Reduce(Split(p), rooted);
    var body := JoinSegments(segs);
    assert |segs| > 0 ==> body != "" && body[0] == segs[0][0] && body[0] != '/';
    if rooted then "/" + body
    else if body == "" then "."
    else body
  }

  /** Index of the last '/' of p, or -1 when p has none. */
  function LastSlash(p: string): (i: int)
    ensures -1 <= i < |p|
    ensures i >= 0 ==> p[i] == '/'
    ensures forall j | i < j < |p| :: p[j] != '/'
  {
    if p == [] then -1
    else if p[|p| - 1] == '/' then |p| - 1
    else LastSlash(p[..|p| - 1])
  }

  /** filepath.Dir: everything up to the last separator, cleaned ("." when there is none). */
  function Dir(p: string): (r: string)
    ensures r != ""
  {
    Clean(p[..LastSlash(p) + 1])
  }

  /** filepath.Join of two elements: empty elements are ignored and the joined path is cleaned. */
  function Join(a: string, b: string): (r: string)
    ensures a != "" ==> r == Clean(a + "/" + b)
    ensures a == "" && b == "" ==> r == ""
  {
    if a != "" then Clean(a + "/" + b)
    else if b != "" then Clean(b)
    else ""
  }

  /** strings.TrimPrefix(s, "/"): removes at most one leading separator. */
  function TrimLeadingSlash(s: string): (r: string)
    ensures r == s || (|s| > 0 && s[0] == '/' && r == s[1..])
  {
    if |s| > 0 && s[0] == '/' then s[1..] else s
  }

  /**
   * The path of rel, written relative to the document at base, as an
   * archive entry name: joined to base's directory, cleaned, and with the
   * leading separator removed. The result never starts with '/'.
   */
  function Resolve(base: string, rel: string): (r: string)
    ensures r == "" || r[0] != '/'
  {
    TrimLeadingSlash(Join(Dir(base), rel))
  }

  /**
   * filepath.Ext: the suffix of p from the last '.' of its final element, or
   * "" when that element has no '.'.
   */
  function Ext(p: string): (r: string)
    ensures |r| <= |p| && r == p[|p| - |r|..]
    ensures r != "" ==> r[0] == '.' && '.' !in r[1..] && '/' !in r
    ensures r == "" ==> forall j | LastSlash(p) < j < |p| :: p[j] != '.'
  {
    var i := LastDotOrSlash(p);
    if i >= 0 && p[i] == '.' then p[i..] else ""
  }

  /** filepath.Ext scans back from the end: the index of the last '.' or '/' in p, or -1. */
  function LastDotOrSlash(p: string): (i: int)
    ensures -1 <= i < |p|
    ensures i >= 0 ==> p[i] == '.' || p[i] == '/'
    ensures forall j | i < j < |p| :: p[j] != '.' && p[j] != '/'
  {
    if p == [] then -1
    else if p[|p| - 1] == '.' || p[|p| - 1] == '/' then |p| - 1
    else LastDotOrSlash(p[..|p| - 1])
  }

  /** The extension of stem + "." + e is "." + e whenever e has no '.' and no separator. */
  lemma ExtOfDotted(stem: string, e: string)
    requires '.' !in e && '/' !in e
    ensures Ext(stem + "." + e) == "." + e
  {
    var p := stem + "." + e;
    var d := |stem|;
    assert p[d] == '.';
    assert forall j | d < j < |p| :: p[j] == e[j - d - 1];
    assert LastDotOrSlash(p) == d;
    assert p[d..] == "." + e;
  }

  /** The extensions of the two sample image paths the naming examples use. */
  lemma ExtExamples()
    ensures Ext("OEBPS/image/i-000.png") == ".png"
    ensures Ext("img/cover.JPG") == ".JPG"
  {
    ExtOfDotted("OEBPS/image/i-000", "png");
    assert "OEBPS/image/i-000" + "." + "png" == "OEBPS/image/i-000.png";
    ExtOfDotted("img/cover", "JPG");
    assert "img/cover" + "." + "JPG" == "img/cover.JPG";
  }

  /** p without its trailing separators. */
  function TrimTrailingSlashes(p: string): (r: string)
    ensures r <= p
    ensures r == "" || r[|r| - 1] != '/'
  {
    if |p| > 0 && p[|p| - 1] == '/' then TrimTrailingSlashes(p[..|p| - 1]) else p
  }

  /**
   * filepath.Base: the final element of p after trailing separators are
   * removed; "." for the empty path and "/" for a path of separators only.
   */
  function Base(p: string): (r: string)
    ensures r != ""
    ensures r == "/" || '/' !in r
    ensures p != "" && '/' !in p ==> r == p
  {
    if p == "" then "."
    else
      var q := TrimTrailingSlashes(p);
      var e := q[LastSlash(q) + 1..];
      FinalElementHasNoSlash(q);
      PlainNameIsFinalElement(p);
      if e == "" then "/" else e
  }

  /** A name without a separator has none to trim and none to split at. */
  lemma PlainNameIsFinalElement(p: string)
    ensures '/' !in p ==> TrimTrailingSlashes(p) == p && LastSlash(p) == -1
  {
  }

  /** What follows the last separator holds none. */
  lemma FinalElementHasNoSlash(q: string)
    ensures '/' !in q[LastSlash(q) + 1..]
  {
    var i := LastSlash(q);
    var e := q[i + 1..];
    forall k | 0 <= k < |e|
      ensures e[k] != '/'
    {
      assert e[k] == q[i + 1 + k];
    }
  }

  /** A non-empty name without a separator is its own base name. */
  lemma BaseOfPlainName(p: string)
    requires p != "" && '/' !in p
    ensures Base(p) == p
  {
  }
}
