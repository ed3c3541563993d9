/** The string machinery of the export-name resolver: the `${NAME}`
    placeholder syntax, global replacement of the version marker `${#}`,
    decimal rendering of version numbers, and the regular expression that
    reads a version number back out of an existing file name. */
module Templates {
  import opened Base

  // ---------------------------------------------------------------------
  // Placeholders: /\${(.*?)}/g

  datatype Token = Text(c: char) | Placeholder(name: string)

  /** The characters a regular-expression `.` does not match. */
  predicate IsLineTerminator(c: char) {
    c == '\n' || c == '\r' || c == '\U{2028}' || c == '\U{2029}'
  }

  /** `s[i..j]` can be the lazy `(.*?)` of a placeholder closed at `j`. */
  predicate NameChars(s: string, i: nat, j: nat)
    requires i <= j <= |s|
  {
    forall k :: i <= k < j ==> s[k] != '}' && !IsLineTerminator(s[k])
  }

  /** The `}` closing a placeholder whose name starts at `i`: the first `}`,
      provided no line terminator comes before it. */
  function CloseBrace(s: string, i: nat): (r: Option<nat>)
    requires i <= |s|
    ensures r.Some? ==> i <= r.value < |s| && s[r.value] == '}' && NameChars(s, i, r.value)
    ensures r.None? ==> forall j {:trigger NameChars(s, i, j)} :: i <= j < |s| && s[j] == '}' ==> !NameChars(s, i, j)
    decreases |s| - i
  {
    if i == |s| then None
    else if s[i] == '}' then Some(i)
    else if IsLineTerminator(s[i]) then None
    else
      assert forall j {:trigger NameChars(s, i, j)} :: i + 1 <= j <= |s| && NameChars(s, i, j) ==> NameChars(s, i + 1, j);
      CloseBrace(s, i + 1)
  }

  predicate WellFormedName(n: string) {
    forall k :: 0 <= k < |n| ==> n[k] != '}' && !IsLineTerminator(n[k])
  }

  /** Whether a placeholder match starts at `i`. */
  predicate PlaceholderAt(s: string, i: nat)
    requires i < |s|
  {
    s[i] == '$' && i + 1 < |s| && s[i + 1] == '{' && CloseBrace(s, i + 2).Some?
  }

  /** Where the token read at `i` ends: after the closing `}` of a
      placeholder, or after one character of text. */
  function NextPosition(s: string, i: nat): (n: nat)
    requires i < |s|
    ensures i < n <= |s|
  {
    if PlaceholderAt(s, i) then CloseBrace(s, i + 2).value + 1 else i + 1
  }

  /** The token read at `i`. */
  function TokenAt(s: string, i: nat): Token
    requires i < |s|
  {
    if PlaceholderAt(s, i) then Placeholder(s[i + 2..CloseBrace(s, i + 2).value]) else Text(s[i])
  }

  /** The text from position `i` on, split into the matches of the
      placeholder expression and the characters between them. */
  function TokenizeFrom(s: string, i: nat): (ts: seq<Token>)
    requires i <= |s|
    decreases |s| - i
  {
    if i == |s| then [] else [TokenAt(s, i)] + TokenizeFrom(s, NextPosition(s, i))
  }

  function Tokenize(s: string): seq<Token> {
    TokenizeFrom(s, 0)
  }

  function TokenText(t: Token): string {
    match t
    case Text(c) => [c]
    case Placeholder(n) => "${" + n + "}"
  }

  /** The text a token sequence was read from. */
  function Render(ts: seq<Token>): string {
    if |ts| == 0 then "" else TokenText(ts[0]) + Render(ts[1..])
  }

  /** The token read at `i` spells out exactly the text it was read from. */
  lemma TokenSpan(s: string, i: nat)
    requires i < |s|
    ensures TokenText(TokenAt(s, i)) == s[i..NextPosition(s, i)]
  {
    if PlaceholderAt(s, i) {
      var j := CloseBrace(s, i + 2).value;
      assert s[i..j + 1] == s[i..i + 2] + s[i + 2..j] + s[j..j + 1];
      assert s[i..i + 2] == "${";
      assert s[j..j + 1] == "}";
    } else {
      assert s[i..i + 1] == [s[i]];
    }
  }

  lemma RenderCons(t: Token, rest: seq<Token>)
    ensures Render([t] + rest) == TokenText(t) + Render(rest)
  {
    assert ([t] + rest)[1..] == rest;
  }

  lemma {:induction false} RenderTokenizeFrom(s: string, i: nat)
    requires i <= |s|
    ensures Render(TokenizeFrom(s, i)) == s[i..]
    decreases |s| - i
  {
    if i < |s| {
      var n := NextPosition(s, i);
      var rest := TokenizeFrom(s, n);
      RenderTokenizeFrom(s, n);
      TokenSpan(s, i);
      RenderCons(TokenAt(s, i), rest);
      assert TokenizeFrom(s, i) == [TokenAt(s, i)] + rest;
      assert s[i..] == s[i..n] + s[n..];
    }
  }

  /** Tokenising loses nothing: the tokens spell out the input again. */
  lemma RenderTokenize(s: string)
    ensures Render(Tokenize(s)) == s
  {
    RenderTokenizeFrom(s, 0);
  }

  /** Token sequences the tokenizer produces again from their own text: no
      literal `$` (which could start a placeholder) and well-formed names. */
  predicate Canonical(ts: seq<Token>) {
    |ts| == 0 || (CanonicalToken(ts[0]) && Canonical(ts[1..]))
  }

  predicate CanonicalToken(t: Token) {
    match t
    case Text(c) => c != '$'
    case Placeholder(n) => WellFormedName(n)
  }

  lemma {:induction false} CloseBraceAt(s: string, i: nat, j: nat)
    requires i <= j < |s| && s[j] == '}' && NameChars(s, i, j)
    ensures CloseBrace(s, i) == Some(j)
    decreases j - i
  {
    if i < j {
      CloseBraceAt(s, i + 1, j);
    }
  }

  /** Canonical tokens spelled out from position `i` are read back as themselves. */
  lemma {:induction false} TokenizeFromRendered(s: string, i: nat, ts: seq<Token>)
    requires Canonical(ts) && i <= |s| && s[i..] == Render(ts)
    ensures TokenizeFrom(s, i) == ts
    decreases |ts|
  {
    if |ts| > 0 {
      var w := |TokenText(ts[0])|;
      RenderedTail(s, i, ts);
      TokenizeFromRendered(s, i + w, ts[1..]);
      RenderedHead(s, i, ts);
    } else {
      EmptyRendered(s, i, ts);
    }
  }

  lemma RenderedTail(s: string, i: nat, ts: seq<Token>)
    requires |ts| > 0 && Canonical(ts) && i <= |s| && s[i..] == Render(ts)
    ensures Canonical(ts[1..]) && i + |TokenText(ts[0])| <= |s|
    ensures s[i + |TokenText(ts[0])|..] == Render(ts[1..])
  {
    SplitRendered(s, i, ts);
  }

  lemma RenderedHead(s: string, i: nat, ts: seq<Token>)
    requires |ts| > 0 && Canonical(ts) && i <= |s| && s[i..] == Render(ts)
    requires i + |TokenText(ts[0])| <= |s| && TokenizeFrom(s, i + |TokenText(ts[0])|) == ts[1..]
    ensures TokenizeFrom(s, i) == ts
  {
    SplitRendered(s, i, ts);
    ConsStep(s, i, ts);
  }

  lemma EmptyRendered(s: string, i: nat, ts: seq<Token>)
    requires |ts| == 0 && i <= |s| && s[i..] == Render(ts)
    ensures TokenizeFrom(s, i) == ts
  {
    assert |s[i..]| == 0;
  }

  lemma ConsStep(s: string, i: nat, ts: seq<Token>)
    requires |ts| > 0 && i + |TokenText(ts[0])| <= |s|
    requires s[i..i + |TokenText(ts[0])|] == TokenText(ts[0])
    requires CanonicalToken(ts[0])
    requires TokenizeFrom(s, i + |TokenText(ts[0])|) == ts[1..]
    ensures TokenizeFrom(s, i) == ts
  {
    TokenStep(s, i, ts[0]);
    assert ts == [ts[0]] + ts[1..];
  }

  lemma SplitRendered(s: string, i: nat, ts: seq<Token>)
    requires |ts| > 0 && i <= |s| && s[i..] == Render(ts)
    ensures i + |TokenText(ts[0])| <= |s|
    ensures s[i..i + |TokenText(ts[0])|] == TokenText(ts[0])
    ensures s[i + |TokenText(ts[0])|..] == Render(ts[1..])
  {
    var w := |TokenText(ts[0])|;
    assert s[i..] == TokenText(ts[0]) + Render(ts[1..]);
    assert s[i..i + w] == s[i..][..w];
    assert s[i + w..] == s[i..][w..];
  }

  /** One canonical token spelled out at position `i` is read back as itself. */
  lemma TokenStep(s: string, i: nat, t: Token)
    requires CanonicalToken(t)
    requires i + |TokenText(t)| <= |s| && s[i..i + |TokenText(t)|] == TokenText(t)
    ensures TokenizeFrom(s, i) == [t] + TokenizeFrom(s, i + |TokenText(t)|)
  {
    match t
    case Text(c) =>
      assert s[i] == s[i..i + 1][0];
    case Placeholder(n) =>
      PlaceholderToken(s, i, n);
  }

  lemma PlaceholderToken(s: string, i: nat, n: string)
    requires WellFormedName(n)
    requires i + |n| + 3 <= |s| && s[i..i + |n| + 3] == "${" + n + "}"
    ensures TokenizeFrom(s, i) == [Placeholder(n)] + TokenizeFrom(s, i + |n| + 3)
  {
    var j := i + 2 + |n|;
    PlaceholderParts(s, i, n);
    CloseBraceAt(s, i + 2, j);
    assert PlaceholderAt(s, i);
    assert TokenAt(s, i) == Placeholder(n);
    assert NextPosition(s, i) == j + 1;
  }

  /** The characters of a spelled-out placeholder. */
  lemma PlaceholderParts(s: string, i: nat, n: string)
    requires WellFormedName(n)
    requires i + |n| + 3 <= |s| && s[i..i + |n| + 3] == "${" + n + "}"
    ensures s[i] == '$' && s[i + 1] == '{' && s[i + 2 + |n|] == '}'
    ensures s[i + 2..i + 2 + |n|] == n
    ensures NameChars(s, i + 2, i + 2 + |n|)
  {
    var j := i + 2 + |n|;
    var p := s[i..i + |n| + 3];
    assert s[i] == p[0] == '$' && s[i + 1] == p[1] == '{' && s[j] == p[|n| + 2] == '}';
    assert s[i + 2..j] == n by {
      forall k | 0 <= k < |n| ensures s[i + 2..j][k] == n[k] {
        assert s[i + 2 + k] == p[k + 2];
      }
    }
    assert NameChars(s, i + 2, j) by {
      forall k | i + 2 <= k < j ensures s[k] != '}' && !IsLineTerminator(s[k]) {
        assert s[k] == n[k - i - 2];
      }
    }
  }

  /** The other direction of the round trip, for canonical tokens. */
  lemma TokenizeRender(ts: seq<Token>)
    requires Canonical(ts)
    ensures Tokenize(Render(ts)) == ts
  {
    var s := Render(ts);
    assert s[0..] == s;
    TokenizeFromRendered(s, 0, ts);
  }

  /** `s.replace(/\${(.*?)}/g, (match, name) => value(name))` */
  function Substitute(ts: seq<Token>, value: string -> string): string {
    if |ts| == 0 then ""
    else
      (match ts[0] case Text(c) => [c] case Placeholder(n) => value(n))
      + Substitute(ts[1..], value)
  }

  function ReplaceVariables(s: string, value: string -> string): string {
    Substitute(Tokenize(s), value)
  }

  lemma {:induction false} SubstituteAppend(a: seq<Token>, b: seq<Token>, value: string -> string)
    ensures Substitute(a + b, value) == Substitute(a, value) + Substitute(b, value)
  {
    if |a| > 0 {
      assert (a + b)[1..] == a[1..] + b;
      SubstituteAppend(a[1..], b, value);
    } else {
      assert a + b == b;
    }
  }

  /** Placeholders whose value is their own text leave the tokens' text unchanged. */
  lemma {:induction false} SubstituteKeeps(ts: seq<Token>, value: string -> string)
    requires forall k :: 0 <= k < |ts| && ts[k].Placeholder? ==> value(ts[k].name) == TokenText(ts[k])
    ensures Substitute(ts, value) == Render(ts)
  {
    if |ts| > 0 {
      SubstituteKeeps(ts[1..], value);
    }
  }

  /** When every placeholder evaluates to its own text, the string comes
      back unchanged. */
  lemma ReplaceVariablesKeeps(s: string, value: string -> string)
    requires forall n :: value(n) == "${" + n + "}"
    ensures ReplaceVariables(s, value) == s
  {
    SubstituteKeeps(Tokenize(s), value);
    RenderTokenize(s);
  }

  // ---------------------------------------------------------------------
  // The version marker: /\${#}/g

  const Marker: string := "${#}"

  /** `s.replace(/pat/g, repl)` for a literal pattern: left to right, without overlaps. */
  function ReplaceAll(s: string, pat: string, repl: string): string
    requires |pat| > 0
    decreases |s|
  {
    if |s| == 0 then ""
    else if StartsWith(s, pat) then repl + ReplaceAll(s[|pat|..], pat, repl)
    else [s[0]] + ReplaceAll(s[1..], pat, repl)
  }

  /** Without an occurrence of the pattern nothing is replaced. */
  lemma {:induction false} ReplaceAllAbsent(s: string, pat: string, repl: string)
    requires |pat| > 0 && !Contains(s, pat)
    ensures ReplaceAll(s, pat, repl) == s
    decreases |s|
  {
    if |s| > 0 {
      ReplaceAllAbsent(s[1..], pat, repl);
      assert s == [s[0]] + s[1..];
    }
  }

  /** Every occurrence is replaced, not only the first. */
  lemma ReplaceAllExample()
    ensures ReplaceAll("v${#}_${#}", Marker, "7") == "v7_7"
  {
    assert !StartsWith("v${#}_${#}", Marker);
    assert "v${#}_${#}"[1..] == "${#}_${#}";
    assert "${#}_${#}"[|Marker|..] == "_${#}";
    assert !StartsWith("_${#}", Marker);
    assert "_${#}"[1..] == "${#}";
    assert "${#}"[|Marker|..] == "";
  }

  /** The first position where `pat` starts. */
  function FindFirst(s: string, pat: string): (r: Option<nat>)
    ensures r.Some? ==> r.value <= |s| && StartsWith(s[r.value..], pat)
    ensures r.Some? ==> forall k :: 0 <= k < r.value ==> !StartsWith(s[k..], pat)
    ensures r.None? ==> forall k :: 0 <= k <= |s| ==> !StartsWith(s[k..], pat)
    decreases |s|
  {
    if StartsWith(s, pat) then Some(0)
    else if |s| == 0 then None
    else
      var r := FindFirst(s[1..], pat);
      assert forall k :: 1 <= k <= |s| ==> s[k..] == s[1..][k - 1..];
      if r.Some? then Some(r.value + 1) else None
  }

  lemma {:induction false} FindFirstContains(s: string, pat: string)
    ensures FindFirst(s, pat).Some? <==> Contains(s, pat)
    decreases |s|
  {
    if !StartsWith(s, pat) && |s| > 0 {
      FindFirstContains(s[1..], pat);
    }
  }

  // ---------------------------------------------------------------------
  // Decimal numbers

  predicate IsDigit(c: char) {
    '0' <= c <= '9'
  }

  predicate AllDigits(s: string) {
    forall k :: 0 <= k < |s| ==> IsDigit(s[k])
  }

  function DigitChar(d: nat): (c: char)
    requires d < 10
    ensures IsDigit(c) && (d > 0 ==> c != '0')
  {
    ((d + '0' as int) as char)
  }

  function DigitValue(c: char): (d: nat)
    requires IsDigit(c)
    ensures d < 10
  {
    (c as int - '0' as int)
  }

  /** `String(n)` for a non-negative integer. */
  function NatToString(n: nat): (s: string)
    ensures |s| >= 1 && AllDigits(s)
    ensures n > 0 ==> '1' <= s[0] <= '9'
  {
    if n < 10 then [DigitChar(n)] else NatToString(n / 10) + [DigitChar(n % 10)]
  }

  /** `Number(s)` for a string of decimal digits. */
  function DigitsValue(s: string): nat
    requires AllDigits(s)
  {
    if |s| == 0 then 0 else DigitsValue(s[..|s| - 1]) * 10 + DigitValue(s[|s| - 1])
  }

  /** Reading a rendered number gives the number back. */
  lemma {:induction false} DigitsRoundTrip(n: nat)
    ensures DigitsValue(NatToString(n)) == n
  {
    if n >= 10 {
      DigitsRoundTrip(n / 10);
      var s := NatToString(n);
      assert s[..|s| - 1] == NatToString(n / 10);
    }
  }

  // ---------------------------------------------------------------------
  // Reading a version back: prefix ([1-9][0-9]*) suffix, unanchored

  /** How the basename of the resolved pattern becomes a regular expression:
      its first `${#}` becomes the capture `([1-9][0-9]*)`, the rest is
      matched literally (later markers included). Without a marker the whole
      basename is a literal expression with no capture group. */
  datatype VersionPattern = WithCapture(prefix: string, suffix: string) | Literal(text: string)

  function ParseVersionPattern(b: string): (vp: VersionPattern)
    ensures vp.WithCapture? <==> Contains(b, Marker)
    ensures vp.WithCapture? ==> b == vp.prefix + Marker + vp.suffix
    ensures vp.WithCapture? ==> forall k :: 0 <= k < |vp.prefix| ==> !StartsWith(b[k..], Marker)
    ensures vp.Literal? ==> vp.text == b
  {
    FindFirstContains(b, Marker);
    match FindFirst(b, Marker)
    case Some(k) =>
      assert b == b[..k] + Marker + b[k + |Marker|..];
      WithCapture(b[..k], b[k + |Marker|..])
    case None => Literal(b)
  }

  /** The length of the run of digits starting at `q`. */
  function DigitRun(s: string, q: nat): (l: nat)
    requires q <= |s|
    ensures q + l <= |s|
    ensures forall k :: q <= k < q + l ==> IsDigit(s[k])
    ensures q + l == |s| || !IsDigit(s[q + l])
    decreases |s| - q
  {
    if q < |s| && IsDigit(s[q]) then 1 + DigitRun(s, q + 1) else 0
  }

  /** Greedy `[0-9]*` with backtracking: the longest digit run, then shorter
      ones, until the suffix follows. */
  function TryLengths(s: string, q: nat, l: nat, suffix: string): (r: Option<nat>)
    requires q + l <= |s| && forall k :: q <= k < q + l ==> IsDigit(s[k])
    decreases l
  {
    if l == 0 then None
    else if StartsWith(s[q + l..], suffix) then
      assert AllDigits(s[q..q + l]);
      Some(DigitsValue(s[q..q + l]))
    else TryLengths(s, q, l - 1, suffix)
  }

  /** The capture if the expression matches at position `p`. */
  function MatchAt(s: string, prefix: string, suffix: string, p: nat): Option<nat>
    requires p <= |s|
  {
    if !StartsWith(s[p..], prefix) then None
    else
      var q := p + |prefix|;
      if q < |s| && '1' <= s[q] <= '9' then TryLengths(s, q, DigitRun(s, q), suffix) else None
  }

  function ExecFrom(s: string, prefix: string, suffix: string, p: nat): Option<nat>
    requires p <= |s|
    decreases |s| - p
  {
    var m := MatchAt(s, prefix, suffix, p);
    if m.Some? then m else if p == |s| then None else ExecFrom(s, prefix, suffix, p + 1)
  }

  /** `regexp.exec(fileName)?.[1]` read as a number: the leftmost match. */
  function Capture(s: string, prefix: string, suffix: string): Option<nat> {
    ExecFrom(s, prefix, suffix, 0)
  }

  lemma {:induction false} DigitRunOf(s: string, q: nat, l: nat)
    requires q + l <= |s| && forall k :: q <= k < q + l ==> IsDigit(s[k])
    requires q + l == |s| || !IsDigit(s[q + l])
    ensures DigitRun(s, q) == l
    decreases l
  {
    if l > 0 {
      DigitRunOf(s, q + 1, l - 1);
    }
  }

  /** A file written under a pattern reads back as the version it was written
      with, as long as the text after the marker does not start with a digit. */
  lemma CaptureOfRendered(prefix: string, n: nat, suffix: string)
    requires n >= 1
    requires |suffix| == 0 || !IsDigit(suffix[0])
    ensures Capture(prefix + NatToString(n) + suffix, prefix, suffix) == Some(n)
  {
    var d := NatToString(n);
    var s := prefix + d + suffix;
    var q := |prefix|;
    assert s[0..] == s;
    assert s[..q] == prefix;
    assert s[q..q + |d|] == d;
    assert s[q + |d|..] == suffix;
    assert s[q] == d[0];
    DigitRunOf(s, q, |d|);
    DigitsRoundTrip(n);
  }
}
