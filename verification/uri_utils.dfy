/** The file-name helpers of src/utils.ts. */
module UriUtils {
  import opened Base

  /** `uriFileName(uri)`: for a `file:` URI, the path after its last `/`;
      nothing for any other scheme. */
  function UriFileName(uri: Uri): (r: Option<string>)
    ensures r.None? <==> uri.scheme != "file"
    ensures r.Some? ==> '/' !in r.value && EndsWith(uri.path, r.value)
    ensures r.Some? ==> |r.value| == |uri.path| - 1 - LastIndexOf(uri.path, '/')
  {
    if uri.scheme == "file" then
      var k := LastIndexOf(uri.path, '/');
      Some(JsSubstr(uri.path, k + 1, |uri.path|))
    else None
  }

  /** A path that ends in `/name` names `name`. */
  lemma FileNameOfPath(dir: string, name: string)
    requires '/' !in name
    ensures UriFileName(Uri("file", dir + "/" + name)) == Some(name)
  {
    LastIndexOfSplit(dir, '/', name);
    assert dir + "/" + name == dir + ['/'] + name;
  }

  /** `uriFileNameNoExt(uri)` as written: the file name cut at the position
      of the last `.` in the whole path, not in the file name. */
  function UriFileNameNoExtAsWritten(uri: Uri): (r: Option<string>)
    ensures r.None? <==> UriFileName(uri).None?
    ensures r.Some? ==> StartsWith(UriFileName(uri).value, r.value)
    ensures r.Some? && '.' !in uri.path ==> r.value == ""
    ensures r.Some? ==> |r.value| == Clamp(LastIndexOf(uri.path, '.'), 0, |UriFileName(uri).value|)
  {
    match UriFileName(uri)
    case None => None
    case Some(name) =>
      var r := JsSubstr(name, 0, LastIndexOf(uri.path, '.'));
      assert LastIndexOf(uri.path, '.') < 0 ==> r == "";
      Some(r)
  }

  /** The dot of `.scad` sits further into the path than into the file name,
      so `/x/foo.scad` loses only the last three characters. */
  lemma NoExtCutsInPath()
    ensures UriFileNameNoExtAsWritten(Uri("file", "/x/foo.scad")) == Some("foo.sc")
  {
    ExampleFileName();
    ExampleLastDot();
    ExampleCut();
  }

  lemma ExampleFileName()
    ensures UriFileName(Uri("file", "/x/foo.scad")) == Some("foo.scad")
  {
    FileNameOfPath("/x", "foo.scad");
    assert "/x" + "/" + "foo.scad" == "/x/foo.scad";
  }

  lemma ExampleLastDot()
    ensures LastIndexOf("/x/foo.scad", '.') == 6
  {
    LastIndexOfSplit("/x/foo", '.', "scad");
    assert "/x/foo" + ['.'] + "scad" == "/x/foo.scad";
  }

  lemma ExampleCut()
    ensures JsSubstr("foo.scad", 0, 6) == "foo.sc"
  {
    assert "foo.scad"[0..6] == "foo.sc";
  }

  /** `uriFileNameNoExt(uri)` as evidently intended: the file name without
      the extension that starts at its last `.`. A name without a dot is
      kept whole. */
  function UriFileNameNoExt(uri: Uri): (r: Option<string>)
    ensures r.None? <==> UriFileName(uri).None?
    ensures r.Some? ==> StartsWith(UriFileName(uri).value, r.value)
    ensures r.Some? ==> |r.value| == |UriFileName(uri).value| || UriFileName(uri).value[|r.value|] == '.'
    ensures r.Some? ==> forall j :: |r.value| < j < |UriFileName(uri).value| ==> UriFileName(uri).value[j] != '.'
    ensures r.Some? && |r.value| == |UriFileName(uri).value| ==> '.' !in UriFileName(uri).value
  {
    match UriFileName(uri)
    case None => None
    case Some(name) =>
      var k := LastIndexOf(name, '.');
      if k < 0 then Some(name) else Some(name[..k])
  }

  /** With the intended cut, a name `base.ext` gives back `base` (so
      `/x/foo.scad` gives `foo`). */
  lemma NoExtRoundTrip(dir: string, base: string, ext: string)
    requires '/' !in base && '/' !in ext && '.' !in ext
    ensures UriFileNameNoExt(Uri("file", dir + "/" + base + "." + ext)) == Some(base)
  {
    var name := base + "." + ext;
    assert dir + "/" + base + "." + ext == dir + "/" + name;
    assert '/' !in name by {
      assert forall j :: 0 <= j < |name| ==> name[j] == if j < |base| then base[j] else if j == |base| then '.' else ext[j - |base| - 1];
    }
    FileNameOfPath(dir, name);
    assert name == base + ['.'] + ext;
    LastIndexOfSplit(base, '.', ext);
    assert name[..|base|] == base;
  }

  /** For every file URI with a `/` in its path and a `.` in its file name,
      the code as written keeps more of the name than intended: its cut
      falls as far into the name as the last dot lies into the whole path. */
  lemma {:induction false} AsWrittenKeepsMore(uri: Uri)
    requires uri.scheme == "file" && '/' in uri.path
    requires '.' in UriFileName(uri).value
    ensures StartsWith(UriFileNameNoExtAsWritten(uri).value, UriFileNameNoExt(uri).value)
    ensures |UriFileNameNoExtAsWritten(uri).value| > |UriFileNameNoExt(uri).value|
  {
    var path := uri.path;
    var name := UriFileName(uri).value;
    var off := LastIndexOf(path, '/') + 1;
    assert off > 0 by {
      FoundAtOrAfter(path, '/');
    }
    assert path[off..] == name;
    var k := LastIndexOf(name, '.');
    FoundAtOrAfter(name, '.');
    LastIndexOfInSuffix(path, off, '.');
  }

  /** A character that occurs gives a non-negative last index. */
  lemma FoundAtOrAfter(s: string, c: char)
    requires c in s
    ensures LastIndexOf(s, c) >= 0
  {
    var i :| 0 <= i < |s| && s[i] == c;
  }

  /** When `c` occurs in the suffix from `off`, the last `c` of the whole
      string is the last `c` of that suffix. */
  lemma LastIndexOfInSuffix(s: string, off: int, c: char)
    requires 0 <= off <= |s| && LastIndexOf(s[off..], c) >= 0
    ensures LastIndexOf(s, c) == off + LastIndexOf(s[off..], c)
  {
    var k := LastIndexOf(s[off..], c);
    assert s[off + k] == c;
    assert forall j :: off + k < j < |s| ==> s[j] == s[off..][j - off];
  }
}
