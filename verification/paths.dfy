/** A simplified POSIX model of the `node:path` functions the extension calls.
    Paths are plain strings; there is no `.`/`..` normalisation, no handling of
    trailing separators and no resolution against a working directory. */
module Paths {
  import opened Base

  /** `path.basename(p)`: everything after the last separator. */
  function Basename(p: string): (r: string)
    ensures '/' !in r
    ensures EndsWith(p, r)
  {
    var k := LastIndexOf(p, '/');
    p[k + 1..]
  }

  /** `path.dirname(p)`: everything before the last separator, `/` for a
      top-level entry and `.` for a bare name. */
  function Dirname(p: string): (r: string)
    ensures '/' in p ==> |r| > 0
  {
    var k := LastIndexOf(p, '/');
    if k < 0 then "." else if k == 0 then "/" else p[..k]
  }

  /** `path.extname(p)`: from the last `.` of the basename on, unless that dot
      starts the basename (`.bashrc` has no extension). */
  function Extname(p: string): (r: string)
    ensures r == "" || (r[0] == '.' && |r| < |Basename(p)| && EndsWith(Basename(p), r))
  {
    var b := Basename(p);
    var d := LastIndexOf(b, '.');
    if d <= 0 then "" else b[d..]
  }

  /** `path.basename(p, ext)`: the basename with a trailing `ext` removed,
      unless the basename is nothing but `ext`. */
  function BasenameWithout(p: string, ext: string): (r: string)
    ensures StartsWith(Basename(p), r)
  {
    var b := Basename(p);
    if |ext| > 0 && ext == p then ""
    else if |ext| > 0 && EndsWith(b, ext) && b != ext then b[..|b| - |ext|]
    else b
  }

  /** Removing a path's own extension from its basename leaves exactly the
      part before the extension. */
  lemma BasenameWithoutExtname(p: string)
    ensures BasenameWithout(p, Extname(p)) + Extname(p) == Basename(p)
  {
    var b := Basename(p);
    var e := Extname(p);
    var d := LastIndexOf(b, '.');
    if d > 0 {
      assert e == b[d..];
      CutTail(b, d);
      assert |b| <= |p|;
      assert BasenameWithout(p, e) == b[..|b| - |e|];
    } else {
      assert e == "";
      assert BasenameWithout(p, e) == b;
    }
  }

  lemma CutTail(b: string, d: int)
    requires 0 < d < |b|
    ensures var e := b[d..];
            0 < |e| < |b| && EndsWith(b, e) && b[..|b| - |e|] + e == b
  {
    assert b[..d] + b[d..] == b;
  }

  /** `path.resolve(dir, rel)` without normalisation. */
  function Resolve(dir: string, rel: string): (r: string)
    ensures StartsWith(rel, "/") ==> r == rel
  {
    if StartsWith(rel, "/") then rel
    else if rel == "" then dir
    else if EndsWith(dir, "/") then dir + rel
    else dir + "/" + rel
  }
}
