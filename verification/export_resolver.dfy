/** How the extension names an exported file (`VariableResolver` in
    src/export/variable-resolver.ts).

    A naming pattern such as `${fileBasenameNoExtension}.${exportExtension}`
    is resolved in two passes: every `${NAME}` placeholder is replaced by the
    value of the variable it names (unknown names, and the version marker
    `${#}`, stay as they are); then, if a `${#}` is left, the export directory
    is read and every `${#}` becomes one more than the highest version already
    present there. */
module ExportResolver {
  import opened Base
  import opened Paths
  import opened Templates

  /** What resolution reads from its surroundings: the workspace folder that
      holds the document, today's date, the date formatter (luxon) and
      `path.relative`. */
  datatype Host = Host(
    workspaceFolder: Option<string>,
    isoDate: string,
    formatDate: string -> string,
    relative: (string, string) -> string)

  /** What the file system holds at the export directory. */
  datatype ExportDir =
    | Missing(creatable: bool)                   // nothing there; whether `mkdir` succeeds
    | Listing(files: seq<string>, writable: bool) // a readable directory
    | Unlistable(writable: bool)                 // something `readdir` rejects

  const DefaultPattern: string := "${fileBasenameNoExtension}.${exportExtension}"

  /** The variable names `evaluateSingleVariable` knows, besides `date:FORMAT`. */
  const Variables: seq<string> := [
    "date", "workspaceFolder", "workspaceFolderBasename", "file", "relativeFile",
    "relativeFileDirname", "fileBasename", "fileBasenameNoExtension", "fileDirname",
    "fileExtname", "exportExtension"]

  /** `fileBasenameNoExtension(uri)`: the file name without its extension. */
  function FileBasenameNoExtension(resource: Uri): (r: string)
    ensures r + Extname(FsPath(resource)) == Basename(FsPath(resource))
  {
    BasenameWithoutExtname(FsPath(resource));
    BasenameWithout(FsPath(resource), Extname(FsPath(resource)))
  }

  // ---------------------------------------------------------------------
  // `date:FORMAT`

  /** The text before the first `c`: `s.split(c)[0]`. */
  function UpTo(s: string, c: char): (r: string)
    ensures c !in r && StartsWith(s, r)
    ensures |r| == |s| || s[|r|] == c
    ensures c in s ==> |r| < |s|
  {
    if |s| == 0 || s[0] == c then "" else [s[0]] + UpTo(s[1..], c)
  }

  /** `v.split(':')[1]`: the text between the first and the second colon. */
  function SecondField(v: string): (r: string)
    requires ':' in v
    ensures ':' !in r
  {
    var k := |UpTo(v, ':')|;
    UpTo(v[k + 1..], ':')
  }

  predicate IsSeparator(c: char) {
    c == '/' || c == ':'
  }

  /** No `/` or `:` in `s` before position `k`. */
  predicate NoSeparatorBefore(s: string, k: nat)
    requires k <= |s|
  {
    forall j :: 0 <= j < k ==> !IsSeparator(s[j])
  }

  /** `s.replace(/[/:]/, '_')`: the first `/` or `:` becomes `_`; the
      expression has no `g` flag, so later separators stay. */
  function ReplaceFirstSeparator(s: string): (r: string)
    ensures |r| == |s|
  {
    if |s| == 0 then ""
    else if IsSeparator(s[0]) then "_" + s[1..]
    else [s[0]] + ReplaceFirstSeparator(s[1..])
  }

  /** Position by position: characters other than separators stay, the
      separator with none before it becomes `_`, and every later one stays. */
  lemma {:induction false} ReplaceFirstSeparatorPointwise(s: string)
    ensures forall k :: 0 <= k < |s| && !IsSeparator(s[k]) ==> ReplaceFirstSeparator(s)[k] == s[k]
    ensures forall k :: 0 <= k < |s| && IsSeparator(s[k]) ==>
      (ReplaceFirstSeparator(s)[k] == '_' <==> NoSeparatorBefore(s, k))
    ensures forall k :: 0 <= k < |s| && IsSeparator(s[k]) && !NoSeparatorBefore(s, k) ==>
      ReplaceFirstSeparator(s)[k] == s[k]
  {
    if |s| > 0 {
      var r := ReplaceFirstSeparator(s);
      if IsSeparator(s[0]) {
        forall k | 0 < k < |s| ensures !NoSeparatorBefore(s, k) && r[k] == s[k] {
          assert IsSeparator(s[0]);
          assert r[k] == s[1..][k - 1];
        }
      } else {
        ReplaceFirstSeparatorPointwise(s[1..]);
        forall k | 0 < k < |s|
          ensures r[k] == ReplaceFirstSeparator(s[1..])[k - 1] && s[k] == s[1..][k - 1]
          ensures NoSeparatorBefore(s, k) <==> NoSeparatorBefore(s[1..], k - 1)
        {
          NoSeparatorShift(s, k);
        }
      }
    }
  }

  lemma NoSeparatorShift(s: string, k: nat)
    requires 0 < k <= |s| && !IsSeparator(s[0])
    ensures NoSeparatorBefore(s, k) <==> NoSeparatorBefore(s[1..], k - 1)
  {
    if NoSeparatorBefore(s[1..], k - 1) {
      forall j | 0 < j < k ensures !IsSeparator(s[j]) {
        assert s[j] == s[1..][j - 1];
      }
    }
  }

  /** Every `/` and `:` replaced by `_`, as the comments around
      `evaluateDateTime` describe it. */
  function ReplaceSeparators(s: string): (r: string)
    ensures |r| == |s|
  {
    if |s| == 0 then ""
    else [if IsSeparator(s[0]) then '_' else s[0]] + ReplaceSeparators(s[1..])
  }

  /** Position by position: a separator becomes `_`, every other character stays. */
  lemma {:induction false} ReplaceSeparatorsPointwise(s: string)
    ensures forall k :: 0 <= k < |s| ==> ReplaceSeparators(s)[k] == if IsSeparator(s[k]) then '_' else s[k]
  {
    if |s| > 0 {
      ReplaceSeparatorsPointwise(s[1..]);
      forall k | 0 < k < |s|
        ensures ReplaceSeparators(s)[k] == if IsSeparator(s[k]) then '_' else s[k]
      {
        assert ReplaceSeparators(s)[k] == ReplaceSeparators(s[1..])[k - 1];
        assert s[1..][k - 1] == s[k];
      }
    }
  }

  /** The corrected replacement leaves no separator behind, so a formatted
      date can never add a directory level to the export path. */
  lemma ReplaceSeparatorsLeavesNone(s: string)
    ensures forall k :: 0 <= k < |ReplaceSeparators(s)| ==> !IsSeparator(ReplaceSeparators(s)[k])
  {
    ReplaceSeparatorsPointwise(s);
  }

  /** As written, only the first separator is replaced, whatever follows it. */
  lemma {:induction false} ReplaceFirstSeparatorSplit(a: string, c: char, b: string)
    requires IsSeparator(c) && forall k :: 0 <= k < |a| ==> !IsSeparator(a[k])
    ensures ReplaceFirstSeparator(a + [c] + b) == a + "_" + b
  {
    if |a| > 0 {
      assert (a + [c] + b)[1..] == a[1..] + [c] + b;
      ReplaceFirstSeparatorSplit(a[1..], c, b);
      assert a + "_" + b == [a[0]] + (a[1..] + "_" + b);
    }
  }

  /** A date formatted with two slashes keeps the second one. */
  lemma ReplaceFirstSeparatorKeepsSecond()
    ensures ReplaceFirstSeparator("2024/05/06") == "2024_05/06"
  {
    DateSplits();
    ReplaceFirstSeparatorSplit("2024", '/', "05/06");
  }

  lemma DateSplits()
    ensures "2024/05/06" == "2024" + ['/'] + "05/06"
    ensures "2024_05/06" == "2024" + "_" + "05/06"
    ensures forall k :: 0 <= k < |"2024"| ==> !IsSeparator("2024"[k])
  {
  }

  /** Corrected, both separators of a date `y/m/d` are replaced. */
  lemma ReplaceSeparatorsReplacesBoth(y: string, m: string, d: string)
    requires NoSeparatorBefore(y, |y|) && NoSeparatorBefore(m, |m|) && NoSeparatorBefore(d, |d|)
    ensures ReplaceSeparators(y + "/" + m + "/" + d) == y + "_" + m + "_" + d
  {
    var tail := m + ['/'] + d;
    SlashesGroup(y, m, d);
    ReplaceSeparatorsAt(y, '/', tail);
    ReplaceSeparatorsAt(m, '/', d);
    ReplaceSeparatorsKeeps(d);
    UnderscoresGroup(y, m, d);
  }

  lemma SlashesGroup(y: string, m: string, d: string)
    ensures y + "/" + m + "/" + d == y + ['/'] + (m + ['/'] + d)
  {
  }

  lemma UnderscoresGroup(y: string, m: string, d: string)
    ensures y + "_" + (m + "_" + d) == y + "_" + m + "_" + d
  {
  }

  /** A separator after a separator-free part becomes `_`. */
  lemma {:induction false} ReplaceSeparatorsAt(a: string, c: char, b: string)
    requires IsSeparator(c) && NoSeparatorBefore(a, |a|)
    ensures ReplaceSeparators(a + [c] + b) == a + "_" + ReplaceSeparators(b)
  {
    if |a| > 0 {
      assert (a + [c] + b)[1..] == a[1..] + [c] + b;
      assert NoSeparatorBefore(a[1..], |a[1..]|) by {
        forall j | 0 <= j < |a[1..]| ensures !IsSeparator(a[1..][j]) {
          assert a[1..][j] == a[j + 1];
        }
      }
      ReplaceSeparatorsAt(a[1..], c, b);
      assert a + "_" + ReplaceSeparators(b) == [a[0]] + (a[1..] + "_" + ReplaceSeparators(b));
    }
  }

  /** Text without separators is left as it is. */
  lemma ReplaceSeparatorsKeeps(a: string)
    requires NoSeparatorBefore(a, |a|)
    ensures ReplaceSeparators(a) == a
  {
    ReplaceSeparatorsPointwise(a);
    assert forall k :: 0 <= k < |a| ==> ReplaceSeparators(a)[k] == a[k];
  }

  /** The two replacements agree when the formatted date has at most one separator. */
  lemma {:induction false} ReplacementsAgreeOnOneSeparator(s: string)
    requires forall i, j :: 0 <= i < j < |s| ==> !(IsSeparator(s[i]) && IsSeparator(s[j]))
    ensures ReplaceFirstSeparator(s) == ReplaceSeparators(s)
  {
    if |s| > 0 {
      if IsSeparator(s[0]) {
        assert forall k :: 1 <= k < |s| ==> !IsSeparator(s[k]);
        ReplaceSeparatorsPointwise(s);
        assert ReplaceSeparators(s) == "_" + s[1..];
      } else {
        ReplacementsAgreeOnOneSeparator(s[1..]);
      }
    }
  }

  /** `evaluateDateTime(variable)` as written: the format is the text after
      `date:` up to the next colon; only the first separator of the formatted
      date is replaced. */
  function EvaluateDateTimeAsWritten(host: Host, name: string): (r: string)
    requires StartsWith(name, "date:")
    ensures |r| == |host.formatDate(SecondField(name))|
  {
    assert name[4] == ':';
    ReplaceFirstSeparator(host.formatDate(SecondField(name)))
  }

  /** `evaluateDateTime(variable)` with every separator replaced. */
  function EvaluateDateTime(host: Host, name: string): (r: string)
    requires StartsWith(name, "date:")
    ensures |r| == |host.formatDate(SecondField(name))|
    ensures forall k :: 0 <= k < |r| ==> !IsSeparator(r[k])
  {
    assert name[4] == ':';
    ReplaceSeparatorsLeavesNone(host.formatDate(SecondField(name)));
    ReplaceSeparators(host.formatDate(SecondField(name)))
  }

  /** The format is what follows `date:`, up to (not including) a further colon. */
  lemma DateFormatField(f: string, g: string)
    requires ':' !in f
    ensures SecondField("date:" + f) == f
    ensures SecondField("date:" + f + ":" + g) == f
  {
    var v := "date:" + f;
    assert v == "date" + [':'] + f;
    UpToPrefix("date", ':', f);
    assert v[5..] == f;
    UpToAbsent(f, ':');
    var w := "date:" + f + ":" + g;
    assert w == "date" + [':'] + (f + ":" + g);
    UpToPrefix("date", ':', f + ":" + g);
    assert w[5..] == f + [':'] + g;
    UpToPrefix(f, ':', g);
  }

  lemma {:induction false} UpToAbsent(s: string, c: char)
    requires c !in s
    ensures UpTo(s, c) == s
  {
    if |s| > 0 {
      UpToAbsent(s[1..], c);
    }
  }

  lemma {:induction false} UpToPrefix(s: string, c: char, t: string)
    requires c !in s
    ensures UpTo(s + [c] + t, c) == s
  {
    if |s| > 0 {
      assert (s + [c] + t)[1..] == s[1..] + [c] + t;
      UpToPrefix(s[1..], c, t);
    } else {
      assert (s + [c] + t)[0] == c;
    }
  }

  // ---------------------------------------------------------------------
  // Variables

  /** `evaluateSingleVariable(match, variable, resource, exportExtension)`.
      `ext` is the optional argument; its default `'scad'` applies when it is
      absent, so `exportExtension ?? match` never falls back to the match. */
  function Evaluate(host: Host, resource: Uri, ext: Option<string>, name: string): (r: string)
    ensures !StartsWith(name, "date:") && name !in Variables ==> r == "${" + name + "}"
  {
    if StartsWith(name, "date:") then EvaluateDateTime(host, name)
    else if name in Variables then EvaluateKnown(host, resource, ext, name)
    else "${" + name + "}"
  }

  /** Where the formatted date holds at most one `/` or `:`, `Evaluate`
      gives what the code as written gives. */
  lemma EvaluateAsWrittenOnOneSeparator(host: Host, resource: Uri, ext: Option<string>, name: string)
    requires StartsWith(name, "date:") && ':' in name
    requires var f := host.formatDate(SecondField(name));
             forall i, j :: 0 <= i < j < |f| ==> !(IsSeparator(f[i]) && IsSeparator(f[j]))
    ensures Evaluate(host, resource, ext, name) == EvaluateDateTimeAsWritten(host, name)
  {
    ReplacementsAgreeOnOneSeparator(host.formatDate(SecondField(name)));
  }

  /** The cases of the `switch` for the names in `Variables`. */
  function EvaluateKnown(host: Host, resource: Uri, ext: Option<string>, name: string): string
    requires name in Variables
  {
    var p := FsPath(resource);
    match name
    case "date" => host.isoDate
    case "workspaceFolder" => host.workspaceFolder.GetOr("${" + name + "}")
    case "workspaceFolderBasename" => Basename(host.workspaceFolder.GetOr(""))
    case "file" => p
    case "relativeFile" => host.relative(host.workspaceFolder.GetOr(""), p)
    case "relativeFileDirname" => Basename(Dirname(p))
    case "fileBasename" => Basename(p)
    case "fileBasenameNoExtension" => FileBasenameNoExtension(resource)
    case "fileDirname" => Dirname(p)
    case "fileExtname" => Extname(p)
    case _ => ext.GetOr("scad")
  }

  /** `exportExtension ?? match`: the argument's default `scad` applies when it
      is absent, so the placeholder never survives. */
  lemma ExportExtensionValue(host: Host, resource: Uri, ext: Option<string>)
    ensures Evaluate(host, resource, ext, "exportExtension") == ext.GetOr("scad")
  {
    NotDate("exportExtension");
  }

  lemma NotDate(name: string)
    requires |name| < 5 || name[0] != 'd'
    ensures !StartsWith(name, "date:")
  {
    if |name| >= 5 {
      assert name[..5][0] == name[0];
    }
  }

  /** Outside a workspace folder `${workspaceFolder}` stays as written, while
      `${workspaceFolderBasename}` becomes empty: its `?? match` fallback can
      never apply because `path.basename` always returns a string. */
  lemma OutsideWorkspace(host: Host, resource: Uri, ext: Option<string>)
    requires host.workspaceFolder.None?
    ensures Evaluate(host, resource, ext, "workspaceFolder") == "${workspaceFolder}"
    ensures Evaluate(host, resource, ext, "workspaceFolderBasename") == ""
  {
    NotDate("workspaceFolder");
    NotDate("workspaceFolderBasename");
  }

  /** The version marker survives the first pass, for the second to fill in. */
  lemma MarkerSurvivesVariables(host: Host, resource: Uri, ext: Option<string>)
    ensures Evaluate(host, resource, ext, "#") == Marker
  {
    assert !StartsWith("#", "date:");
    assert "#" !in Variables;
  }

  /** The pattern after the first pass. */
  function Replaced(pattern: Option<string>, resource: Uri, ext: Option<string>, host: Host): string {
    ReplaceVariables(pattern.GetOr(DefaultPattern), (n: string) => Evaluate(host, resource, ext, n))
  }

  predicate KnownName(n: string) {
    StartsWith(n, "date:") || n in Variables
  }

  /** A pattern naming no known variable comes through the first pass unchanged. */
  lemma UnknownNamesKept(pattern: string, resource: Uri, ext: Option<string>, host: Host)
    requires forall k :: 0 <= k < |Tokenize(pattern)| && Tokenize(pattern)[k].Placeholder?
                         ==> !KnownName(Tokenize(pattern)[k].name)
    ensures Replaced(Some(pattern), resource, ext, host) == pattern
  {
    var ts := Tokenize(pattern);
    var value := (n: string) => Evaluate(host, resource, ext, n);
    SubstituteKeeps(ts, value);
    RenderTokenize(pattern);
  }

  /** Without a pattern the export is named after the document, with the
      export extension (`scad` when none is given). */
  lemma DefaultPatternName(resource: Uri, ext: Option<string>, host: Host)
    ensures Replaced(None, resource, ext, host) == FileBasenameNoExtension(resource) + "." + ext.GetOr("scad")
  {
    FileBasenameValue(host, resource, ext);
    ExportExtensionValue(host, resource, ext);
    DefaultPatternWith((n: string) => Evaluate(host, resource, ext, n), FileBasenameNoExtension(resource), ext.GetOr("scad"));
  }

  /** The default pattern under any evaluation of its two placeholders. */
  lemma DefaultPatternWith(value: string -> string, base: string, e: string)
    requires value("fileBasenameNoExtension") == base && value("exportExtension") == e
    ensures ReplaceVariables(DefaultPattern, value) == base + "." + e
  {
    DefaultPatternTokens();
    SubstituteDefault(value, base, e);
  }

  lemma FileBasenameValue(host: Host, resource: Uri, ext: Option<string>)
    ensures Evaluate(host, resource, ext, "fileBasenameNoExtension") == FileBasenameNoExtension(resource)
  {
    NotDate("fileBasenameNoExtension");
    assert "fileBasenameNoExtension" == Variables[7];
  }

  lemma SubstituteDefault(value: string -> string, base: string, e: string)
    requires value("fileBasenameNoExtension") == base && value("exportExtension") == e
    ensures Substitute(DefaultTokens(), value) == base + "." + e
  {
    var ts := DefaultTokens();
    assert ts[1..][1..] == ts[2..] && ts[2..][1..] == [];
    assert Substitute(ts[2..], value) == e + Substitute([], value);
    assert Substitute(ts[1..], value) == "." + e;
  }

  function DefaultTokens(): seq<Token> {
    [Placeholder("fileBasenameNoExtension"), Text('.'), Placeholder("exportExtension")]
  }

  lemma DefaultPatternTokens()
    ensures Tokenize(DefaultPattern) == DefaultTokens()
  {
    DefaultTokensRender();
    DefaultTokensCanonical();
    TokenizeRender(DefaultTokens());
  }

  lemma DefaultTokensRender()
    ensures Render(DefaultTokens()) == DefaultPattern
  {
    var ts := DefaultTokens();
    RenderThree(ts[0], ts[1], ts[2]);
    BasenamePlaceholderText();
    ExportPlaceholderText();
    DefaultPatternParts();
  }

  lemma RenderThree(t0: Token, t1: Token, t2: Token)
    ensures Render([t0, t1, t2]) == TokenText(t0) + TokenText(t1) + TokenText(t2)
  {
    assert [t2][1..] == [];
    assert Render([t2]) == TokenText(t2);
    assert [t1, t2][1..] == [t2];
    assert Render([t1, t2]) == TokenText(t1) + TokenText(t2);
    assert [t0, t1, t2][1..] == [t1, t2];
  }

  lemma DefaultPatternParts()
    ensures "${fileBasenameNoExtension}" + "." + "${exportExtension}" == DefaultPattern
  {
    var a := "${fileBasenameNoExtension}" + "." + "${exportExtension}";
    assert |a| == |DefaultPattern|;
    assert forall k :: 0 <= k < |a| ==> a[k] == DefaultPattern[k];
  }

  lemma ExportPlaceholderText()
    ensures TokenText(Placeholder("exportExtension")) == "${exportExtension}"
  {
    var a := TokenText(Placeholder("exportExtension"));
    var b := "${exportExtension}";
    assert a == "${" + "exportExtension" + "}";
    assert |a| == |b|;
    assert forall k :: 0 <= k < |a| ==> a[k] == b[k];
  }

  lemma BasenamePlaceholderText()
    ensures TokenText(Placeholder("fileBasenameNoExtension")) == "${fileBasenameNoExtension}"
  {
    var a := TokenText(Placeholder("fileBasenameNoExtension"));
    var b := "${fileBasenameNoExtension}";
    assert a == "${" + "fileBasenameNoExtension" + "}";
    assert |a| == |b|;
    assert forall k :: 0 <= k < |a| ==> a[k] == b[k];
  }

  lemma DefaultTokensCanonical()
    ensures Canonical(DefaultTokens())
  {
    BasenameNameWellFormed();
    ExtensionNameWellFormed();
    CanonicalThree(Placeholder("fileBasenameNoExtension"), Text('.'), Placeholder("exportExtension"));
  }

  lemma BasenameNameWellFormed()
    ensures WellFormedName("fileBasenameNoExtension")
  {
    var n := "fileBasenameNoExtension";
    forall k | 0 <= k < |n| ensures n[k] != '}' && !IsLineTerminator(n[k]) {
      assert n[k] in "fileBasenoExtsNm";
    }
  }

  lemma ExtensionNameWellFormed()
    ensures WellFormedName("exportExtension")
  {
    var n := "exportExtension";
    forall k | 0 <= k < |n| ensures n[k] != '}' && !IsLineTerminator(n[k]) {
      assert n[k] in "exportEtnsi";
    }
  }

  lemma CanonicalThree(t0: Token, t1: Token, t2: Token)
    requires CanonicalToken(t0) && CanonicalToken(t1) && CanonicalToken(t2)
    ensures Canonical([t0, t1, t2])
  {
    assert [t2][1..] == [];
    assert Canonical([t2]);
    assert [t1, t2][1..] == [t2];
    assert Canonical([t1, t2]);
    assert [t0, t1, t2][1..] == [t1, t2];
  }

  // ---------------------------------------------------------------------
  // The version number

  /** The directory the versioned export lands in: the pattern's own
      directory, relative patterns being taken from the document's directory.
      The code uses `path.join` here; for a relative second argument it agrees
      with `Resolve` up to normalisation, which this model leaves out. */
  function ExportDirectory(replaced: string, resource: Uri): string {
    if StartsWith(replaced, "/") then Dirname(replaced)
    else Dirname(Resolve(Dirname(FsPath(resource)), replaced))
  }

  /** A bare file name lands next to the document. */
  lemma BareNameBesideDocument(replaced: string, resource: Uri)
    requires |replaced| > 0 && '/' !in replaced
    requires var d := Dirname(FsPath(resource)); d == "/" || (|d| > 0 && d[|d| - 1] != '/')
    ensures ExportDirectory(replaced, resource) == Dirname(FsPath(resource))
  {
    var d := Dirname(FsPath(resource));
    assert replaced[0] != '/';
    assert !StartsWith(replaced, "/");
    if d == "/" {
      assert Resolve(d, replaced) == "" + ['/'] + replaced;
      LastIndexOfSplit("", '/', replaced);
    } else {
      assert !EndsWith(d, "/");
      assert Resolve(d, replaced) == d + ['/'] + replaced;
      LastIndexOfSplit(d, '/', replaced);
      assert (d + ['/'] + replaced)[..|d|] == d;
    }
  }

  /** `Number(regexp.exec(fileName)?.[1] ?? 0)`: a file that does not match,
      or a pattern without a capture group, counts as version 0. */
  function FileVersion(vp: VersionPattern, file: string): nat {
    match vp
    case WithCapture(prefix, suffix) => Capture(file, prefix, suffix).GetOr(0)
    case Literal(_) => 0
  }

  function Versions(vp: VersionPattern, files: seq<string>): (r: seq<nat>)
    ensures |r| == |files|
  {
    seq(|files|, k requires 0 <= k < |files| => FileVersion(vp, files[k]))
  }

  /** `getVersionNumber(pattern, resource)`: -1 without a marker, -3 for a
      directory that had to be created or is empty, otherwise one more than
      the highest version present. A directory that exists but is not
      writable makes `mkdir` fail; a directory that cannot be listed rejects. */
  function GetVersionNumber(replaced: string, resource: Uri, fs: string -> ExportDir): (r: Result<int>)
    ensures !Contains(replaced, Marker) ==> r == Success(-1)
    ensures r.Success? ==> (r.value == -1 <==> !Contains(replaced, Marker))
    ensures r.Success? ==> r.value == -1 || r.value == -3 || r.value >= 1
  {
    if !Contains(replaced, Marker) then Success(-1)
    else VersionIn(ParseVersionPattern(Basename(replaced)), fs(ExportDirectory(replaced, resource)))
  }

  lemma VersionOfDirectory(replaced: string, resource: Uri, fs: string -> ExportDir)
    requires Contains(replaced, Marker)
    ensures GetVersionNumber(replaced, resource, fs)
            == VersionIn(ParseVersionPattern(Basename(replaced)), fs(ExportDirectory(replaced, resource)))
  {
  }

  lemma ListingVersion(vp: VersionPattern, files: seq<string>)
    requires |files| > 0
    ensures VersionIn(vp, Listing(files, true)) == Success(MaxOf(Versions(vp, files)) + 1)
  {
  }

  /** The part of `getVersionNumber` after the marker test: what the export
      directory's state makes of the version. */
  function VersionIn(vp: VersionPattern, dir: ExportDir): (r: Result<int>)
    ensures r.Failure? <==> dir == Missing(false) || (dir.Listing? && !dir.writable) || dir.Unlistable?
    ensures r.Success? ==> r.value == -3 || r.value >= 1
  {
    match dir
    case Missing(creatable) =>
      if creatable then Success(-3) else Failure("cannot create the export directory")
    case Listing(files, writable) =>
      if !writable then Failure("the export directory exists but is not writable")
      else if |files| == 0 then Success(-3)
      else Success(MaxOf(Versions(vp, files)) + 1)
    case Unlistable(_) => Failure("cannot read the export directory")
  }

  /** `resolveString(pattern, resource, exportExtension)`. */
  function ResolveString(pattern: Option<string>, resource: Uri, ext: Option<string>, host: Host, fs: string -> ExportDir): (r: Result<string>)
    ensures var replaced := Replaced(pattern, resource, ext, host);
            !Contains(replaced, Marker) ==> r == Success(replaced)
    ensures var replaced := Replaced(pattern, resource, ext, host);
            r.Success? && Contains(replaced, Marker) ==>
              exists v: nat :: v >= 1 && r.value == ReplaceAll(replaced, Marker, NatToString(v))
  {
    ResolveReplaced(Replaced(pattern, resource, ext, host), resource, fs)
  }

  /** The second pass of `resolveString`, on the text the first pass left. */
  function ResolveReplaced(replaced: string, resource: Uri, fs: string -> ExportDir): (r: Result<string>)
    ensures !Contains(replaced, Marker) ==> r == Success(replaced)
    ensures r.Success? && Contains(replaced, Marker) ==>
              exists v: nat :: v >= 1 && r.value == ReplaceAll(replaced, Marker, NatToString(v))
  {
    match GetVersionNumber(replaced, resource, fs)
    case Failure(e) => Failure(e)
    case Success(v) =>
      if v == -1 then Success(replaced)
      else if v == -2 then Success(replaced)
      else if v == -3 then
        assert NatToString(1) == "1";
        Success(ReplaceAll(replaced, Marker, "1"))
      else Success(ReplaceAll(replaced, Marker, NatToString(v)))
  }

  /** The file system is consulted only for a pattern with a version marker. */
  lemma NoMarkerNoFileSystem(pattern: Option<string>, resource: Uri, ext: Option<string>, host: Host, fs1: string -> ExportDir, fs2: string -> ExportDir)
    requires !Contains(Replaced(pattern, resource, ext, host), Marker)
    ensures ResolveString(pattern, resource, ext, host, fs1) == ResolveString(pattern, resource, ext, host, fs2)
  {
  }

  /** The chosen version is higher than every version already in the directory. */
  lemma VersionExceedsExisting(replaced: string, resource: Uri, fs: string -> ExportDir, v: int)
    requires GetVersionNumber(replaced, resource, fs) == Success(v) && v >= 1
    ensures fs(ExportDirectory(replaced, resource)).Listing?
    ensures var files := fs(ExportDirectory(replaced, resource)).files;
            forall f :: f in files ==> FileVersion(ParseVersionPattern(Basename(replaced)), f) < v
  {
    var vp := ParseVersionPattern(Basename(replaced));
    var files := fs(ExportDirectory(replaced, resource)).files;
    forall f | f in files
      ensures FileVersion(vp, f) < v
    {
      var k :| 0 <= k < |files| && files[k] == f;
      assert Versions(vp, files)[k] == FileVersion(vp, f);
    }
  }

  /** A directory the export has to create, or an empty one, starts at version 1. */
  lemma FirstVersionIsOne(pattern: Option<string>, resource: Uri, ext: Option<string>, host: Host, fs: string -> ExportDir)
    requires var replaced := Replaced(pattern, resource, ext, host);
             && Contains(replaced, Marker)
             && fs(ExportDirectory(replaced, resource)) in {Missing(true), Listing([], true)}
    ensures ResolveString(pattern, resource, ext, host, fs)
            == Success(ReplaceAll(Replaced(pattern, resource, ext, host), Marker, "1"))
  {
  }

  /** The directory's state decides failure: one that cannot be created, one
      that is not writable and one that cannot be listed all make resolution fail. */
  lemma FailsExactly(pattern: Option<string>, resource: Uri, ext: Option<string>, host: Host, fs: string -> ExportDir)
    ensures var replaced := Replaced(pattern, resource, ext, host);
            var dir := fs(ExportDirectory(replaced, resource));
            ResolveString(pattern, resource, ext, host, fs).Failure? <==>
              && Contains(replaced, Marker)
              && (dir == Missing(false) || (dir.Listing? && !dir.writable) || dir.Unlistable?)
  {
  }

  function RenderedFiles(prefix: string, suffix: string, ns: seq<nat>): (r: seq<string>)
    ensures |r| == |ns|
  {
    seq(|ns|, k requires 0 <= k < |ns| => prefix + NatToString(ns[k]) + suffix)
  }

  /** Files named after the pattern read back as exactly the versions they
      were written with. */
  lemma VersionsOfRenderedFiles(prefix: string, suffix: string, ns: seq<nat>)
    requires forall k :: 0 <= k < |ns| ==> ns[k] >= 1
    requires |suffix| == 0 || !IsDigit(suffix[0])
    ensures Versions(WithCapture(prefix, suffix), RenderedFiles(prefix, suffix, ns)) == ns
  {
    var files := RenderedFiles(prefix, suffix, ns);
    forall k | 0 <= k < |ns|
      ensures Versions(WithCapture(prefix, suffix), files)[k] == ns[k]
    {
      CaptureOfRendered(prefix, ns[k], suffix);
    }
  }

  /** The export directory holds files named after the pattern's basename
      with the versions `ns`, all positive, and the text after the marker
      does not start with a digit. */
  predicate NumberedExports(replaced: string, resource: Uri, fs: string -> ExportDir,
                            prefix: string, suffix: string, ns: seq<nat>)
  {
    && Contains(replaced, Marker)
    && ParseVersionPattern(Basename(replaced)) == WithCapture(prefix, suffix)
    && fs(ExportDirectory(replaced, resource)) == Listing(RenderedFiles(prefix, suffix, ns), true)
    && |ns| > 0 && (forall k :: 0 <= k < |ns| ==> ns[k] >= 1)
    && (|suffix| == 0 || !IsDigit(suffix[0]))
  }

  /** After exports numbered `ns`, the next version is `max(ns) + 1`. */
  lemma NextVersionNumber(replaced: string, resource: Uri, fs: string -> ExportDir,
                          prefix: string, suffix: string, ns: seq<nat>)
    requires NumberedExports(replaced, resource, fs, prefix, suffix, ns)
    ensures GetVersionNumber(replaced, resource, fs) == Success(MaxOf(ns) + 1)
  {
    VersionsOfRenderedFiles(prefix, suffix, ns);
    VersionAfter(replaced, resource, fs, RenderedFiles(prefix, suffix, ns), ns);
  }

  /** After exports numbered `ns`, the next export is numbered
      `v == max(ns) + 1`. */
  lemma NextExportName(pattern: Option<string>, resource: Uri, ext: Option<string>, host: Host, fs: string -> ExportDir,
                       prefix: string, suffix: string, ns: seq<nat>, v: nat)
    requires NumberedExports(Replaced(pattern, resource, ext, host), resource, fs, prefix, suffix, ns)
    requires v == MaxOf(ns) + 1
    ensures ResolveString(pattern, resource, ext, host, fs)
            == Success(ReplaceAll(Replaced(pattern, resource, ext, host), Marker, NatToString(v)))
  {
    NextExportNameOf(Replaced(pattern, resource, ext, host), resource, fs, prefix, suffix, ns, v);
  }

  lemma NextExportNameOf(replaced: string, resource: Uri, fs: string -> ExportDir,
                         prefix: string, suffix: string, ns: seq<nat>, v: nat)
    requires NumberedExports(replaced, resource, fs, prefix, suffix, ns) && v == MaxOf(ns) + 1
    ensures ResolveReplaced(replaced, resource, fs) == Success(ReplaceAll(replaced, Marker, NatToString(v)))
  {
    NextVersionNumber(replaced, resource, fs, prefix, suffix, ns);
    ResolveWithVersion(replaced, resource, fs, v);
  }

  /** A positive version number is written in place of the marker. */
  lemma ResolveWithVersion(replaced: string, resource: Uri, fs: string -> ExportDir, v: int)
    requires GetVersionNumber(replaced, resource, fs) == Success(v) && v >= 1
    ensures ResolveReplaced(replaced, resource, fs) == Success(ReplaceAll(replaced, Marker, NatToString(v)))
  {
  }

  lemma VersionAfter(replaced: string, resource: Uri, fs: string -> ExportDir, files: seq<string>, ns: seq<nat>)
    requires Contains(replaced, Marker) && |files| > 0
    requires fs(ExportDirectory(replaced, resource)) == Listing(files, true)
    requires Versions(ParseVersionPattern(Basename(replaced)), files) == ns
    ensures GetVersionNumber(replaced, resource, fs) == Success(MaxOf(ns) + 1)
  {
    VersionOfDirectory(replaced, resource, fs);
    ListingGives(GetVersionNumber(replaced, resource, fs), ParseVersionPattern(Basename(replaced)),
      fs(ExportDirectory(replaced, resource)), files, ns);
  }

  lemma ListingGives(g: Result<int>, vp: VersionPattern, dir: ExportDir, files: seq<string>, ns: seq<nat>)
    requires g == VersionIn(vp, dir) && dir == Listing(files, true)
    requires |files| > 0 && Versions(vp, files) == ns
    ensures g == Success(MaxOf(ns) + 1)
  {
    ListingVersion(vp, files);
  }
}
