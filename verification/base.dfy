/** Shared vocabulary: optional values, results, document identities and the
    handful of JavaScript string built-ins the extension relies on, each with
    the JavaScript semantics written out. */
module Base {

  /** `T | undefined` */
  datatype Option<T> = None | Some(value: T) {
    /** `x ?? default` */
    function GetOr(default: T): T {
      if Some? then value else default
    }
  }

  /** A value, or the reason the operation threw / its promise rejected. */
  datatype Result<T> = Success(value: T) | Failure(error: string)

  /** A document identity. Two URIs are the same document exactly when their
      `toString()` renderings agree, which we take to be value equality. */
  datatype Uri = Uri(scheme: string, path: string)

  /** `uri.fsPath` on a POSIX host. */
  function FsPath(u: Uri): string {
    u.path
  }

  /** `s.startsWith(p)` */
  predicate StartsWith(s: string, p: string) {
    |p| <= |s| && s[..|p|] == p
  }

  /** `s.endsWith(p)` */
  predicate EndsWith(s: string, p: string) {
    |p| <= |s| && s[|s| - |p|..] == p
  }

  /** `s.includes(p)`, written as a left-to-right scan. */
  predicate Contains(s: string, p: string)
    decreases |s|
  {
    StartsWith(s, p) || (|s| > 0 && Contains(s[1..], p))
  }

  /** `s.lastIndexOf(c)`: the last position holding `c`, or -1. */
  function LastIndexOf(s: string, c: char): (r: int)
    ensures -1 <= r < |s|
    ensures r >= 0 ==> s[r] == c
    ensures forall k :: r < k < |s| ==> s[k] != c
  {
    if |s| == 0 then -1
    else if s[|s| - 1] == c then |s| - 1
    else LastIndexOf(s[..|s| - 1], c)
  }

  /** The last `c` is the one followed by a `c`-free tail. */
  lemma {:induction false} LastIndexOfSplit(a: string, c: char, b: string)
    requires c !in b
    ensures LastIndexOf(a + [c] + b, c) == |a|
    decreases |b|
  {
    if |b| > 0 {
      var b' := b[..|b| - 1];
      assert (a + [c] + b)[..|a + [c] + b| - 1] == a + [c] + b';
      LastIndexOfSplit(a, c, b');
    }
  }

  function Clamp(x: int, lo: int, hi: int): (r: int)
    requires lo <= hi
    ensures lo <= r <= hi
    ensures lo <= x <= hi ==> r == x
  {
    if x < lo then lo else if x > hi then hi else x
  }

  /** `s.substring(a, b)`: both ends clamped to the string, swapped when out of order. */
  function JsSubstring(s: string, a: int, b: int): (r: string)
    ensures |r| <= |s|
  {
    var x := Clamp(a, 0, |s|);
    var y := Clamp(b, 0, |s|);
    if x <= y then s[x..y] else s[y..x]
  }

  /** `s.substr(start, length)` for a non-negative start. */
  function JsSubstr(s: string, start: nat, length: int): (r: string)
    ensures |r| <= |s|
  {
    if start >= |s| then ""
    else s[start..start + Clamp(length, 0, |s| - start)]
  }

  /** The elements of `s` that satisfy `p`, in order. */
  function Filter<T(!new)>(s: seq<T>, p: T -> bool): (r: seq<T>)
    ensures forall x :: x in r <==> x in s && p(x)
    ensures |r| <= |s|
  {
    if |s| == 0 then []
    else (if p(s[0]) then [s[0]] else []) + Filter(s[1..], p)
  }

  function Flatten<T(!new)>(ss: seq<seq<T>>): (r: seq<T>)
    ensures forall x :: x in r <==> exists k :: 0 <= k < |ss| && x in ss[k]
  {
    if |ss| == 0 then []
    else
      var rest := Flatten(ss[1..]);
      assert forall k :: 0 < k < |ss| ==> ss[k] == ss[1..][k - 1];
      ss[0] + rest
  }

  function Elems<T>(s: seq<T>): set<T> {
    set x | x in s
  }

  function MaxOf(s: seq<nat>): (r: nat)
    ensures forall k :: 0 <= k < |s| ==> s[k] <= r
    ensures |s| > 0 ==> r in s
    ensures |s| == 0 ==> r == 0
  {
    if |s| == 0 then 0
    else
      var m := MaxOf(s[1..]);
      if s[0] >= m then s[0] else m
  }
}
