/**
 * Stand-ins for the two helpers of Node's POSIX `path` module that the name mapper calls.
 * `Join` is the plain concatenation of a host and a WHATWG pathname. A hierarchical pathname,
 * as every `http` or `https` URL has, holds no `.` or `..` segments, and the slug collapses
 * doubled slashes anyway. An opaque path may hold `..`, which `path.join` would resolve and
 * `Join` does not. `Extname` follows Node's POSIX `path.extname`, trailing slashes included.
 */
module NodePath {
  import JsString

  /** `path.join(host, pathname)` for a host and a pathname that need no normalisation. */
  function Join(host: string, pathname: string): string
  {
    host + "/" + pathname
  }

  /** `p` without the slashes at its end; Node skips those before it looks for the last segment. */
  function StripTrailingSlashes(p: string): (r: string)
    ensures |r| <= |p| && r == p[..|r|]
    ensures r == "" || r[|r| - 1] != '/'
    ensures forall i :: |r| <= i < |p| ==> p[i] == '/'
  {
    if |p| > 0 && p[|p| - 1] == '/' then StripTrailingSlashes(p[..|p| - 1]) else p
  }

  /** The part of `q` after its last slash: the final segment of a path without trailing slashes. */
  function LastSegment(q: string): (r: string)
    ensures |r| <= |q| && r == q[|q| - |r|..]
    ensures '/' !in r
    ensures |r| < |q| ==> q[|q| - |r| - 1] == '/'
  {
    q[JsString.LastIndexOf(q, '/') + 1..]
  }

  /**
   * The extension of one path segment: from its last dot to its end. There is none when the
   * segment has no dot, when its only dot is its first character, and for the segment `..`.
   */
  function SegmentExtension(seg: string): (r: string)
    requires '/' !in seg
    ensures r == "" <==> '.' !in seg || (seg[0] == '.' && '.' !in seg[1..]) || seg == ".."
    ensures r != "" ==> |r| < |seg| && r == seg[|seg| - |r|..] && r[0] == '.' && '.' !in r[1..]
  {
    var d := JsString.LastIndexOf(seg, '.');
    if d <= 0 || seg == ".." then ""
    else
      assert seg[d..][1..] == seg[d + 1..];
      assert seg[d] == seg[1..][d - 1];
      seg[d..]
  }

  /** `path.extname(p)` on POSIX. */
  function Extname(p: string): (r: string)
    ensures r == "" || (r[0] == '.' && '.' !in r[1..] && '/' !in r)
    ensures var q := StripTrailingSlashes(p); |r| <= |q| && r == q[|q| - |r|..]
  {
    var q := StripTrailingSlashes(p);
    var seg := LastSegment(q);
    var r := SegmentExtension(seg);
    assert q[|q| - |r|..] == seg[|seg| - |r|..];
    r
  }

  /** A file name `x + "." + e` whose extension `e` is free of dots and slashes has the extension `.e`. */
  lemma ExtnameOfFile(x: string, e: string)
    requires x != "" && x[|x| - 1] != '/'
    requires e != "" && '.' !in e && '/' !in e
    ensures Extname(x + "." + e) == "." + e
  {
    var tail := "." + e;
    var p := x + tail;
    JsString.ConcatAssoc(x, ".", e);
    assert '/' !in tail;
    assert p[|p| - 1] == tail[|tail| - 1];
    ExtnameOfUnslashed(p);
    LastSegmentAppend(x, tail);
    var head := LastSegment(x);
    DotExtension(head, e);
    JsString.ConcatAssoc(head, ".", e);
  }

  /** A path that does not end in a slash takes its extension from its last segment directly. */
  lemma ExtnameOfUnslashed(p: string)
    requires p != "" && p[|p| - 1] != '/'
    ensures Extname(p) == SegmentExtension(LastSegment(p))
  {
    assert StripTrailingSlashes(p) == p;
  }

  /** Text without a slash extends the last segment. */
  lemma LastSegmentAppend(x: string, tail: string)
    requires '/' !in tail
    ensures LastSegment(x + tail) == LastSegment(x) + tail
    ensures x != "" && x[|x| - 1] != '/' ==> LastSegment(x) != ""
  {
    JsString.LastIndexOfAppend(x, tail, '/');
    var i := JsString.LastIndexOf(x, '/');
    assert (x + tail)[i + 1..] == x[i + 1..] + tail;
  }

  /** A segment `head + "." + e` with a non-empty head and a dot-free `e` has the extension `.e`. */
  lemma DotExtension(head: string, e: string)
    requires head != "" && '/' !in head
    requires e != "" && '.' !in e && '/' !in e
    ensures SegmentExtension(head + "." + e) == "." + e
  {
    var tail := "." + e;
    var seg := head + tail;
    JsString.ConcatAssoc(head, ".", e);
    assert '/' !in tail;
    assert '.' !in tail[1..] by { assert tail[1..] == e; }
    JsString.LastIndexOfAppend(head, tail, '.');
    assert JsString.LastIndexOf(tail, '.') == 0;
    var d := JsString.LastIndexOf(seg, '.');
    assert d == |head|;
    assert |seg| >= 3;
    assert seg != "..";
    assert seg[d..] == tail;
  }
}
