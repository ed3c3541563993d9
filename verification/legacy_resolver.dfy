/** The first version of the export naming (`VariableResolver` in
    src/variableResolver.ts), kept beside the current one.

    The two passes are the same as in `ExportResolver`, but the variables are
    evaluated with `||` instead of `??` (an empty value falls back to the
    placeholder), there is no `date` variable, and the version number is read
    with `Math.max` over the directory listing, which turns into `NaN` as soon
    as a file matches an expression that has no capture group. */
module LegacyResolver {
  import opened Base
  import opened Paths
  import opened Templates
  import Current = ExportResolver

  /** The names `evaluateSingleVariable` has a case for (`#` and every other
      name fall through to the placeholder itself). */
  const Handled: seq<string> := [
    "workspaceFolder", "workspaceFolderBasename", "file", "relativeFile",
    "relativeFileDirname", "fileBasename", "fileBasenameNoExtension", "fileDirname",
    "fileExtname", "exportExtension"]

  /** `evaluateSingleVariable(match, variable, resource, exportExt = 'scad')`. */
  function Evaluate(host: Current.Host, resource: Uri, ext: Option<string>, name: string): (r: string)
    ensures name !in Handled ==> r == "${" + name + "}"
  {
    var m := "${" + name + "}";
    var wf := host.workspaceFolder.GetOr("");   // `workspaceFolder || ''`
    var p := FsPath(resource);
    match name
    case "workspaceFolder" => if wf == "" then m else wf
    case "workspaceFolderBasename" => if Basename(wf) == "" then m else Basename(wf)
    case "file" => p
    case "relativeFile" => host.relative(wf, p)
    case "relativeFileDirname" => Basename(Dirname(p))
    case "fileBasename" => Basename(p)
    case "fileBasenameNoExtension" => Current.FileBasenameNoExtension(resource)
    case "fileDirname" => Dirname(p)
    case "fileExtname" => Extname(p)
    case "exportExtension" => if ext.GetOr("scad") == "" then m else ext.GetOr("scad")
    case _ => m
  }

  /** The workspace folder is usable when it is present, not empty and has a
      non-empty basename; then `||` and `??` pick the same value. */
  predicate UsableWorkspace(host: Current.Host) {
    host.workspaceFolder.Some? && host.workspaceFolder.value != "" && Basename(host.workspaceFolder.value) != ""
  }

  /** Apart from the date variables, the two versions evaluate every name
      alike as long as no value they read is empty or missing. */
  lemma EvaluateAgrees(host: Current.Host, resource: Uri, ext: Option<string>, name: string)
    requires UsableWorkspace(host) && ext != Some("")
    requires name != "date" && !StartsWith(name, "date:")
    ensures Evaluate(host, resource, ext, name) == Current.Evaluate(host, resource, ext, name)
  {
    if name in Handled {
      assert name in Current.Variables by { HandledAreVariables(); }
      KnownAgrees(host, resource, ext, name);
    } else {
      assert name !in Current.Variables by { HandledAreVariables(); }
    }
  }

  lemma HandledAreVariables()
    ensures Current.Variables == ["date"] + Handled
  {
  }

  /** The names both versions have a case for, `date` aside. */
  lemma KnownAgrees(host: Current.Host, resource: Uri, ext: Option<string>, name: string)
    requires UsableWorkspace(host) && ext != Some("")
    requires name in Handled && name in Current.Variables && !StartsWith(name, "date:")
    ensures Evaluate(host, resource, ext, name) == Current.EvaluateKnown(host, resource, ext, name)
  {
  }

  /** Where the two versions part: an empty export extension, the `date`
      variable and an empty workspace folder all keep their placeholder in
      the first version and are replaced in the current one. */
  lemma EvaluateDiffers(host: Current.Host, resource: Uri)
    requires host.workspaceFolder == Some("")
    ensures Evaluate(host, resource, Some(""), "exportExtension") == "${exportExtension}"
    ensures Current.Evaluate(host, resource, Some(""), "exportExtension") == ""
    ensures Evaluate(host, resource, None, "date") == "${date}"
    ensures Current.Evaluate(host, resource, None, "date") == host.isoDate
    ensures Evaluate(host, resource, None, "workspaceFolder") == "${workspaceFolder}"
    ensures Current.Evaluate(host, resource, None, "workspaceFolder") == ""
  {
    ExtensionDiffers(host, resource);
    DateDiffers(host, resource);
    WorkspaceDiffers(host, resource);
  }

  lemma ExtensionDiffers(host: Current.Host, resource: Uri)
    ensures Evaluate(host, resource, Some(""), "exportExtension") == "${exportExtension}"
    ensures Current.Evaluate(host, resource, Some(""), "exportExtension") == ""
  {
    Current.NotDate("exportExtension");
  }

  lemma DateDiffers(host: Current.Host, resource: Uri)
    ensures Evaluate(host, resource, None, "date") == "${date}"
    ensures Current.Evaluate(host, resource, None, "date") == host.isoDate
  {
    assert !StartsWith("date", "date:");
    assert "date" !in Handled;
  }

  lemma WorkspaceDiffers(host: Current.Host, resource: Uri)
    requires host.workspaceFolder == Some("")
    ensures Evaluate(host, resource, None, "workspaceFolder") == "${workspaceFolder}"
    ensures Current.Evaluate(host, resource, None, "workspaceFolder") == ""
  {
    Current.NotDate("workspaceFolder");
  }

  /** The pattern after the first pass. */
  function Replaced(pattern: Option<string>, resource: Uri, ext: Option<string>, host: Current.Host): string {
    ReplaceVariables(pattern.GetOr(Current.DefaultPattern), (n: string) => Evaluate(host, resource, ext, n))
  }

  /** Placeholders other than the date variables. */
  predicate NoDatePlaceholder(pattern: string) {
    forall k :: 0 <= k < |Tokenize(pattern)| && Tokenize(pattern)[k].Placeholder? ==>
      Tokenize(pattern)[k].name != "date" && !StartsWith(Tokenize(pattern)[k].name, "date:")
  }

  lemma {:induction false} SubstituteAgrees(ts: seq<Token>, v1: string -> string, v2: string -> string)
    requires forall k :: 0 <= k < |ts| && ts[k].Placeholder? ==> v1(ts[k].name) == v2(ts[k].name)
    ensures Substitute(ts, v1) == Substitute(ts, v2)
  {
    if |ts| > 0 {
      assert forall k :: 0 <= k < |ts[1..]| ==> ts[1..][k] == ts[k + 1];
      SubstituteAgrees(ts[1..], v1, v2);
    }
  }

  /** The first pass of both versions gives the same text for a pattern
      without date variables, given a usable workspace folder and a non-empty
      export extension. */
  lemma ReplacedAgrees(pattern: Option<string>, resource: Uri, ext: Option<string>, host: Current.Host)
    requires UsableWorkspace(host) && ext != Some("")
    requires NoDatePlaceholder(pattern.GetOr(Current.DefaultPattern))
    ensures Replaced(pattern, resource, ext, host) == Current.Replaced(pattern, resource, ext, host)
  {
    var ts := Tokenize(pattern.GetOr(Current.DefaultPattern));
    var v1 := (n: string) => Evaluate(host, resource, ext, n);
    var v2 := (n: string) => Current.Evaluate(host, resource, ext, n);
    forall k | 0 <= k < |ts| && ts[k].Placeholder?
      ensures v1(ts[k].name) == v2(ts[k].name)
    {
      EvaluateAgrees(host, resource, ext, ts[k].name);
    }
    SubstituteAgrees(ts, v1, v2);
  }

  /** An empty export extension leaves the default pattern's second
      placeholder in the name. */
  lemma DefaultPatternName(resource: Uri, ext: Option<string>, host: Current.Host)
    ensures var e := ext.GetOr("scad");
            Replaced(None, resource, ext, host)
            == Current.FileBasenameNoExtension(resource) + "." + (if e == "" then "${exportExtension}" else e)
  {
    var e := ext.GetOr("scad");
    BasenameValue(host, resource, ext);
    ExtensionValue(host, resource, ext);
    Current.DefaultPatternWith((n: string) => Evaluate(host, resource, ext, n),
      Current.FileBasenameNoExtension(resource), if e == "" then "${exportExtension}" else e);
  }

  lemma BasenameValue(host: Current.Host, resource: Uri, ext: Option<string>)
    ensures Evaluate(host, resource, ext, "fileBasenameNoExtension") == Current.FileBasenameNoExtension(resource)
  {
  }

  lemma ExtensionValue(host: Current.Host, resource: Uri, ext: Option<string>)
    ensures var e := ext.GetOr("scad");
            Evaluate(host, resource, ext, "exportExtension") == if e == "" then "${exportExtension}" else e
  {
  }

  // ---------------------------------------------------------------------
  // The version number

  /** A JavaScript number as far as the version arithmetic needs it. */
  datatype JsNumber = Finite(value: int) | NaN

  function Max(a: int, b: int): int {
    if a >= b then a else b
  }

  /** `Math.max(a, b)`: `NaN` if either is `NaN`. */
  function JsMax(a: JsNumber, b: JsNumber): (r: JsNumber)
    ensures r.NaN? <==> a.NaN? || b.NaN?
    ensures r.Finite? ==> r.value >= a.value && r.value >= b.value
    ensures r.Finite? ==> r.value == a.value || r.value == b.value
  {
    if a.NaN? || b.NaN? then NaN else Finite(Max(a.value, b.value))
  }

  /** `String(x)` */
  function NumberText(x: JsNumber): string {
    match x
    case NaN => "NaN"
    case Finite(n) => if n >= 0 then NatToString(n) else "-" + NatToString(-n)
  }

  /** One step of the `reduce` over the listing: a matching file raises the
      maximum to `Number(matched[1])`, which is `NaN` for an expression
      without a capture group. */
  function Step(vp: VersionPattern, acc: JsNumber, file: string): JsNumber {
    match vp
    case WithCapture(prefix, suffix) =>
      (match Capture(file, prefix, suffix)
       case Some(n) => JsMax(acc, Finite(n))
       case None => acc)
    case Literal(text) => if Contains(file, text) then JsMax(acc, NaN) else acc
  }

  /** `files.reduce(step, acc)` */
  function Reduce(vp: VersionPattern, acc: JsNumber, files: seq<string>): JsNumber
    decreases |files|
  {
    if |files| == 0 then acc else Reduce(vp, Step(vp, acc, files[0]), files[1..])
  }

  /** The maximum never decreases along the listing. */
  lemma {:induction false} ReduceBounded(vp: VersionPattern, a: int, files: seq<string>)
    ensures Reduce(vp, Finite(a), files).NaN? || Reduce(vp, Finite(a), files).value >= a
    decreases |files|
  {
    if |files| > 0 {
      var s := Step(vp, Finite(a), files[0]);
      if s.NaN? {
        ReduceNaN(vp, files[1..]);
      } else {
        ReduceBounded(vp, s.value, files[1..]);
      }
    }
  }

  /** Once `NaN`, always `NaN`. */
  lemma {:induction false} ReduceNaN(vp: VersionPattern, files: seq<string>)
    ensures Reduce(vp, NaN, files) == NaN
    decreases |files|
  {
    if |files| > 0 {
      ReduceNaN(vp, files[1..]);
    }
  }

  /** `if (versionNum < 0) return versionNum; else return versionNum + 1;` */
  function Next(v: JsNumber): JsNumber {
    match v
    case NaN => NaN
    case Finite(n) => if n < 0 then v else Finite(n + 1)
  }

  /** `getVersionNumber(pattern, resource)`: -1 without a marker; otherwise the
      directory is created if it does not exist, listed, and the next version
      is one more than the highest present (1 for an empty directory). Only a
      failing `mkdir` or `readdir` rejects; whether the directory is writable
      plays no part. */
  function GetVersionNumber(replaced: string, resource: Uri, fs: string -> Current.ExportDir): (r: Result<JsNumber>)
    ensures !Contains(replaced, Marker) ==> r == Success(Finite(-1))
    ensures r.Success? && Contains(replaced, Marker) ==> r.value.NaN? || r.value.value >= 1
    ensures var dir := fs(Current.ExportDirectory(replaced, resource));
            r.Failure? <==> Contains(replaced, Marker) && (dir == Current.Missing(false) || dir.Unlistable?)
  {
    if !Contains(replaced, Marker) then Success(Finite(-1))
    else VersionIn(ParseVersionPattern(Basename(replaced)), fs(Current.ExportDirectory(replaced, resource)))
  }

  lemma VersionOfDirectory(replaced: string, resource: Uri, fs: string -> Current.ExportDir)
    requires Contains(replaced, Marker)
    ensures GetVersionNumber(replaced, resource, fs)
            == VersionIn(ParseVersionPattern(Basename(replaced)), fs(Current.ExportDirectory(replaced, resource)))
  {
  }

  /** The part of `getVersionNumber` after the marker test: a missing
      directory is created and read as empty, a listing is reduced. */
  function VersionIn(vp: VersionPattern, dir: Current.ExportDir): (r: Result<JsNumber>)
    ensures r.Success? ==> r.value.NaN? || r.value.value >= 1
    ensures r.Failure? <==> dir == Current.Missing(false) || dir.Unlistable?
  {
    match dir
    case Missing(creatable) =>
      if creatable then Success(Next(Reduce(vp, Finite(0), []))) else Failure("cannot create the export directory")
    case Listing(files, _) =>
      ReduceBounded(vp, 0, files);
      Success(Next(Reduce(vp, Finite(0), files)))
    case Unlistable(_) => Failure("cannot read the export directory")
  }

  /** `resolveString(pattern, resource, exportExt)`. */
  function ResolveString(pattern: Option<string>, resource: Uri, ext: Option<string>, host: Current.Host,
                         fs: string -> Current.ExportDir): (r: Result<string>)
    ensures var replaced := Replaced(pattern, resource, ext, host);
            !Contains(replaced, Marker) ==> r == Success(replaced)
    ensures var replaced := Replaced(pattern, resource, ext, host);
            r.Success? && Contains(replaced, Marker) ==>
              || r.value == ReplaceAll(replaced, Marker, "NaN")
              || exists v: nat :: v >= 1 && r.value == ReplaceAll(replaced, Marker, NatToString(v))
  {
    var replaced := Replaced(pattern, resource, ext, host);
    match GetVersionNumber(replaced, resource, fs)
    case Failure(e) => Failure(e)
    case Success(v) =>
      if v == Finite(-1) then Success(replaced)
      else if v == Finite(-2) then Success(replaced)
      else if v.NaN? then Success(ReplaceAll(replaced, Marker, NumberText(v)))
      else
        var n: nat := v.value;
        assert NumberText(v) == NatToString(n);
        Success(ReplaceAll(replaced, Marker, NumberText(v)))
  }

  // ---------------------------------------------------------------------
  // The two versions side by side

  lemma VersionsCons(vp: VersionPattern, files: seq<string>)
    requires |files| > 0
    ensures Current.Versions(vp, files) == [Current.FileVersion(vp, files[0])] + Current.Versions(vp, files[1..])
  {
    var a := Current.Versions(vp, files);
    var b := [Current.FileVersion(vp, files[0])] + Current.Versions(vp, files[1..]);
    assert forall k :: 0 < k < |a| ==> a[k] == Current.FileVersion(vp, files[1..][k - 1]);
    assert forall k :: 0 <= k < |a| ==> a[k] == b[k];
  }

  lemma MaxCons(x: nat, rest: seq<nat>)
    ensures MaxOf([x] + rest) == Max(x, MaxOf(rest))
  {
    var s := [x] + rest;
    assert forall k :: 0 <= k < |rest| ==> rest[k] == s[k + 1];
    if |rest| > 0 {
      assert MaxOf(rest) in rest;
    }
  }

  /** With a capture group, the first version's `reduce` computes the same
      maximum as the current version's `Math.max` over the parsed versions. */
  lemma {:induction false} ReduceWithCapture(vp: VersionPattern, a: nat, files: seq<string>)
    requires vp.WithCapture?
    ensures Reduce(vp, Finite(a), files) == Finite(Max(a, MaxOf(Current.Versions(vp, files))))
    decreases |files|
  {
    if |files| > 0 {
      var x := Current.FileVersion(vp, files[0]);
      assert Step(vp, Finite(a), files[0]) == Finite(Max(a, x));
      ReduceWithCapture(vp, Max(a, x), files[1..]);
      VersionsCons(vp, files);
      MaxCons(x, Current.Versions(vp, files[1..]));
    }
  }

  /** On a directory that can be created, or a writable one, both versions
      choose the same version number (the current one reports an empty or
      new directory as -3, which it then writes as 1). */
  lemma SameVersionAsCurrent(replaced: string, resource: Uri, fs: string -> Current.ExportDir)
    requires Contains(replaced, Marker)
    requires ParseVersionPattern(Basename(replaced)).WithCapture?
    requires var dir := fs(Current.ExportDirectory(replaced, resource));
             dir == Current.Missing(true) || (dir.Listing? && dir.writable)
    ensures Current.GetVersionNumber(replaced, resource, fs).Success?
    ensures var v := Current.GetVersionNumber(replaced, resource, fs).value;
            GetVersionNumber(replaced, resource, fs) == Success(Finite(if v == -3 then 1 else v))
  {
    var vp := ParseVersionPattern(Basename(replaced));
    var dir := fs(Current.ExportDirectory(replaced, resource));
    Current.VersionOfDirectory(replaced, resource, fs);
    VersionOfDirectory(replaced, resource, fs);
    SameVersionIn(vp, dir);
  }

  /** The same, once the directory has been looked up. */
  lemma SameVersionIn(vp: VersionPattern, dir: Current.ExportDir)
    requires vp.WithCapture?
    requires dir == Current.Missing(true) || (dir.Listing? && dir.writable)
    ensures Current.VersionIn(vp, dir).Success?
    ensures var v := Current.VersionIn(vp, dir).value;
            VersionIn(vp, dir) == Success(Finite(if v == -3 then 1 else v))
  {
    if dir.Listing? && |dir.files| > 0 {
      NextOfReduce(vp, dir.files);
    } else {
      assert Reduce(vp, Finite(0), []) == Finite(0);
    }
  }

  lemma NextOfReduce(vp: VersionPattern, files: seq<string>)
    requires vp.WithCapture?
    ensures Next(Reduce(vp, Finite(0), files)) == Finite(MaxOf(Current.Versions(vp, files)) + 1)
  {
    ReduceWithCapture(vp, 0, files);
  }

  /** Given the same first pass and such a directory, both versions produce
      the same name. */
  lemma ResolveAgrees(pattern: Option<string>, resource: Uri, ext: Option<string>, host: Current.Host,
                      fs: string -> Current.ExportDir)
    requires UsableWorkspace(host) && ext != Some("")
    requires NoDatePlaceholder(pattern.GetOr(Current.DefaultPattern))
    requires var replaced := Current.Replaced(pattern, resource, ext, host);
             var dir := fs(Current.ExportDirectory(replaced, resource));
             && (Contains(replaced, Marker) ==> ParseVersionPattern(Basename(replaced)).WithCapture?)
             && (dir == Current.Missing(true) || (dir.Listing? && dir.writable))
    ensures ResolveString(pattern, resource, ext, host, fs) == Current.ResolveString(pattern, resource, ext, host, fs)
  {
    ReplacedAgrees(pattern, resource, ext, host);
    var replaced := Current.Replaced(pattern, resource, ext, host);
    if Contains(replaced, Marker) {
      SameVersionAsCurrent(replaced, resource, fs);
      var v := Current.GetVersionNumber(replaced, resource, fs).value;
      var n: nat := if v == -3 then 1 else v;
      CurrentResolveOf(pattern, resource, ext, host, fs, replaced, v);
      LegacyResolveOf(pattern, resource, ext, host, fs, replaced, n);
    }
  }

  lemma CurrentResolveOf(pattern: Option<string>, resource: Uri, ext: Option<string>, host: Current.Host,
                         fs: string -> Current.ExportDir, replaced: string, v: int)
    requires Current.Replaced(pattern, resource, ext, host) == replaced
    requires Current.GetVersionNumber(replaced, resource, fs) == Success(v) && (v == -3 || v >= 1)
    ensures Current.ResolveString(pattern, resource, ext, host, fs)
            == Success(ReplaceAll(replaced, Marker, NatToString(if v == -3 then 1 else v)))
  {
    assert NatToString(1) == "1";
  }

  lemma LegacyResolveOf(pattern: Option<string>, resource: Uri, ext: Option<string>, host: Current.Host,
                        fs: string -> Current.ExportDir, replaced: string, n: nat)
    requires Replaced(pattern, resource, ext, host) == replaced
    requires GetVersionNumber(replaced, resource, fs) == Success(Finite(n)) && n >= 1
    ensures ResolveString(pattern, resource, ext, host, fs) == Success(ReplaceAll(replaced, Marker, NatToString(n)))
  {
  }

  /** A basename without a marker (the marker sits in a directory name)
      becomes an expression without a capture group; a listed file that
      contains the basename makes the version `NaN`, and the name carries
      the text `NaN`. The current version counts such a file as 0. */
  lemma LiteralPatternGivesNaN(replaced: string, resource: Uri, fs: string -> Current.ExportDir, k: nat)
    requires Contains(replaced, Marker)
    requires ParseVersionPattern(Basename(replaced)).Literal?
    requires var dir := fs(Current.ExportDirectory(replaced, resource));
             dir.Listing? && k < |dir.files| && Contains(dir.files[k], Basename(replaced))
    ensures GetVersionNumber(replaced, resource, fs) == Success(NaN)
    ensures Current.FileVersion(ParseVersionPattern(Basename(replaced)), fs(Current.ExportDirectory(replaced, resource)).files[k]) == 0
  {
    var vp := ParseVersionPattern(Basename(replaced));
    var files := fs(Current.ExportDirectory(replaced, resource)).files;
    ReduceMeetsLiteral(vp, Finite(0), files, k);
  }

  lemma {:induction false} ReduceMeetsLiteral(vp: VersionPattern, acc: JsNumber, files: seq<string>, k: nat)
    requires vp.Literal? && k < |files| && Contains(files[k], vp.text)
    ensures Reduce(vp, acc, files) == NaN
    decreases k
  {
    if k == 0 {
      ReduceNaN(vp, files[1..]);
    } else {
      ReduceMeetsLiteral(vp, Step(vp, acc, files[0]), files[1..], k - 1);
    }
  }

  /** A directory that exists but is not writable: the current version
      fails in `mkdir`, the first one never calls it and goes on. */
  lemma ReadOnlyDirectory(replaced: string, resource: Uri, fs: string -> Current.ExportDir)
    requires Contains(replaced, Marker)
    requires var dir := fs(Current.ExportDirectory(replaced, resource)); dir.Listing? && !dir.writable
    ensures Current.GetVersionNumber(replaced, resource, fs).Failure?
    ensures GetVersionNumber(replaced, resource, fs).Success?
  {
  }
}
