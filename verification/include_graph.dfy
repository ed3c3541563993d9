/** The `include` closure computed by `getGlobalScope` in both scope
    providers.

    Every `include` statement of the workspace is an edge from the including
    file to the included one (`includeMap`). Starting from the current file,
    a worklist (`border`) is popped from its end; the targets of the popped
    file that are not yet in `includeFiles` are added to it and pushed. */
module IncludeGraph {
  import opened Base

  /** An edge (`includeMap.add(including, included)`), both as file-system paths. */
  type Edge = (string, string)

  /** `includeMap.get(p)`: the files `p` includes, in index order, repeats kept. */
  function Targets(edges: seq<Edge>, p: string): (r: seq<string>)
    ensures forall x :: x in r <==> (p, x) in edges
  {
    if |edges| == 0 then []
    else
      var rest := Targets(edges[1..], p);
      assert forall e :: e in edges <==> e == edges[0] || e in edges[1..];
      (if edges[0].0 == p then [edges[0].1] else []) + rest
  }

  /** Every file some `include` names. */
  function Universe(edges: seq<Edge>): set<string> {
    set e | e in edges :: e.1
  }

  /** The worklist loop: `visited` is `includeFiles`, `border` the stack. */
  function Explore(edges: seq<Edge>, visited: set<string>, border: seq<string>): set<string>
    decreases Universe(edges) - visited, |border|
  {
    if |border| == 0 then visited
    else
      var p := border[|border| - 1];
      var added := Filter(Targets(edges, p), x => x !in visited);
      if |added| == 0 then Explore(edges, visited, border[..|border| - 1])
      else
        assert added[0] in Universe(edges) - visited by {
          assert (p, added[0]) in edges;
        }
        Explore(edges, visited + Elems(added), border[..|border| - 1] + added)
  }

  /** The closure of the current scope provider: seeded with the file itself. */
  function IncludeFiles(edges: seq<Edge>, path: string): set<string> {
    Explore(edges, {path}, [path])
  }

  /** `new Set<string>(path)`: a string is iterable, so the older provider's
      set starts with the one-character strings of the path. */
  function Chars(path: string): set<string> {
    set k | 0 <= k < |path| :: [path[k]]
  }

  /** The closure of the older scope provider. */
  function LegacyIncludeFiles(edges: seq<Edge>, path: string): set<string> {
    Explore(edges, Chars(path), [path])
  }

  // ---------------------------------------------------------------------
  // Walks

  ghost predicate IsWalk(edges: seq<Edge>, w: seq<string>) {
    |w| >= 1 && forall k :: 0 <= k < |w| - 1 ==> w[k + 1] in Targets(edges, w[k])
  }

  /** No file after the first lies in `seed`. */
  ghost predicate Avoids(w: seq<string>, seed: set<string>) {
    forall k :: 1 <= k < |w| ==> w[k] !in seed
  }

  /** `x` is reached from `s` through at least one `include`, never passing
      through (or ending in) a file of `seed`. */
  ghost predicate ReachesAvoiding(edges: seq<Edge>, seed: set<string>, s: string, x: string) {
    exists w :: IsWalk(edges, w) && |w| >= 2 && w[0] == s && w[|w| - 1] == x && Avoids(w, seed)
  }

  /** `x` is reached from `s` through at least one `include`. */
  ghost predicate Reaches(edges: seq<Edge>, s: string, x: string) {
    exists w :: IsWalk(edges, w) && |w| >= 2 && w[0] == s && w[|w| - 1] == x
  }

  // ---------------------------------------------------------------------
  // The loop invariant

  /** A file whose includes the loop explores: the start, or one it added. */
  predicate Expandable(seed: set<string>, s: string, visited: set<string>, u: string) {
    u == s || (u in visited && u !in seed)
  }

  ghost predicate Inv(edges: seq<Edge>, seed: set<string>, s: string, visited: set<string>, border: seq<string>) {
    && seed <= visited
    && (forall x :: x in visited && x !in seed ==> ReachesAvoiding(edges, seed, s, x))
    && (forall k :: 0 <= k < |border| ==> Expandable(seed, s, visited, border[k]))
    && (forall u :: Expandable(seed, s, visited, u) && u !in border ==>
          forall x :: x in Targets(edges, u) ==> x in visited)
  }

  lemma InvInitial(edges: seq<Edge>, seed: set<string>, s: string)
    ensures Inv(edges, seed, s, seed, [s])
  {
  }

  lemma ExtendWalk(edges: seq<Edge>, seed: set<string>, s: string, p: string, x: string)
    requires p == s || ReachesAvoiding(edges, seed, s, p)
    requires x in Targets(edges, p) && x !in seed
    ensures ReachesAvoiding(edges, seed, s, x)
  {
    if p == s {
      var w := [s, x];
      assert IsWalk(edges, w) && Avoids(w, seed);
    } else {
      var w :| IsWalk(edges, w) && |w| >= 2 && w[0] == s && w[|w| - 1] == p && Avoids(w, seed);
      var w' := Append(edges, w, x);
      assert Avoids(w', seed);
    }
  }

  /** A walk extended by one more include. */
  lemma Append(edges: seq<Edge>, w: seq<string>, x: string) returns (w': seq<string>)
    requires IsWalk(edges, w) && x in Targets(edges, w[|w| - 1])
    ensures w' == w + [x]
    ensures IsWalk(edges, w') && |w'| == |w| + 1 && w'[0] == w[0] && w'[|w'| - 1] == x
  {
    w' := w + [x];
    assert forall k :: 0 <= k < |w| ==> w'[k] == w[k];
  }

  /** One pop of the worklist keeps the invariant. */
  lemma InvStep(edges: seq<Edge>, seed: set<string>, s: string, visited: set<string>, border: seq<string>)
    requires Inv(edges, seed, s, visited, border) && |border| > 0
    ensures var p := border[|border| - 1];
            var added := Filter(Targets(edges, p), x => x !in visited);
            Inv(edges, seed, s, visited + Elems(added), border[..|border| - 1] + added)
  {
    var p := border[|border| - 1];
    var added := Filter(Targets(edges, p), x => x !in visited);
    var v' := visited + Elems(added);
    var b' := border[..|border| - 1] + added;
    assert Expandable(seed, s, visited, p);
    forall x | x in v' && x !in seed ensures ReachesAvoiding(edges, seed, s, x) {
      if x !in visited {
        ExtendWalk(edges, seed, s, p, x);
      }
    }
    forall k | 0 <= k < |b'| ensures Expandable(seed, s, v', b'[k]) {
      if k < |border| - 1 {
        assert b'[k] == border[k];
        assert Expandable(seed, s, visited, border[k]);
      } else {
        assert b'[k] in added;
      }
    }
    forall u | Expandable(seed, s, v', u) && u !in b'
      ensures forall x :: x in Targets(edges, u) ==> x in v'
    {
      assert u !in added;
      if u != p {
        assert Expandable(seed, s, visited, u);
      }
    }
  }

  lemma {:induction false} WalkInside(edges: seq<Edge>, seed: set<string>, s: string, visited: set<string>, w: seq<string>, k: nat)
    requires Inv(edges, seed, s, visited, [])
    requires IsWalk(edges, w) && w[0] == s && Avoids(w, seed) && k < |w|
    ensures Expandable(seed, s, visited, w[k])
  {
    if k > 0 {
      WalkInside(edges, seed, s, visited, w, k - 1);
      assert w[k] in Targets(edges, w[k - 1]);
    }
  }

  /** What the loop returns from a state satisfying the invariant. */
  lemma {:induction false} ExploreFrom(edges: seq<Edge>, seed: set<string>, s: string, visited: set<string>, border: seq<string>, x: string)
    requires Inv(edges, seed, s, visited, border)
    ensures x in Explore(edges, visited, border) <==> x in seed || ReachesAvoiding(edges, seed, s, x)
    decreases Universe(edges) - visited, |border|
  {
    if |border| == 0 {
      if ReachesAvoiding(edges, seed, s, x) {
        var w :| IsWalk(edges, w) && |w| >= 2 && w[0] == s && w[|w| - 1] == x && Avoids(w, seed);
        WalkInside(edges, seed, s, visited, w, |w| - 2);
        assert x in Targets(edges, w[|w| - 2]);
      }
    } else {
      var p := border[|border| - 1];
      var added := Filter(Targets(edges, p), y => y !in visited);
      InvStep(edges, seed, s, visited, border);
      if |added| == 0 {
        assert visited + Elems(added) == visited;
        ExploreFrom(edges, seed, s, visited, border[..|border| - 1], x);
      } else {
        assert (p, added[0]) in edges;
        ExploreFrom(edges, seed, s, visited + Elems(added), border[..|border| - 1] + added, x);
      }
    }
  }

  /** The worklist from `[s]` over a seed set finds exactly the seed and every
      file reachable from `s` without passing through the seed. */
  lemma ExploreCharacterised(edges: seq<Edge>, seed: set<string>, s: string, x: string)
    ensures x in Explore(edges, seed, [s]) <==> x in seed || ReachesAvoiding(edges, seed, s, x)
  {
    InvInitial(edges, seed, s);
    ExploreFrom(edges, seed, s, seed, [s], x);
  }

  /** A walk from `s` that ends elsewhere has a final part that leaves `s`
      and never returns. */
  lemma {:induction false} LastDeparture(edges: seq<Edge>, w: seq<string>, s: string) returns (v: seq<string>)
    requires IsWalk(edges, w) && w[0] == s && w[|w| - 1] != s
    ensures IsWalk(edges, v) && |v| >= 2 && v[0] == s && v[|v| - 1] == w[|w| - 1] && Avoids(v, {s})
    decreases |w|
  {
    if exists k :: 1 <= k < |w| && w[k] == s {
      var k :| 1 <= k < |w| && w[k] == s;
      var w' := w[k..];
      assert forall j :: 0 <= j < |w'| ==> w'[j] == w[k + j];
      assert IsWalk(edges, w');
      v := LastDeparture(edges, w', s);
    } else {
      v := w;
    }
  }

  /** The current file's closure: the file itself and everything it includes,
      directly or through other included files. */
  lemma IncludeFilesCharacterised(edges: seq<Edge>, path: string, x: string)
    ensures x in IncludeFiles(edges, path) <==> x == path || Reaches(edges, path, x)
  {
    ExploreCharacterised(edges, {path}, path, x);
    if x != path && Reaches(edges, path, x) {
      var w :| IsWalk(edges, w) && |w| >= 2 && w[0] == path && w[|w| - 1] == x;
      var v := LastDeparture(edges, w, path);
    }
  }

  /** Include is transitive: what an included file includes is in the closure. */
  lemma IncludeTransitive(edges: seq<Edge>, path: string, a: string, b: string)
    requires a in IncludeFiles(edges, path) && (a, b) in edges
    ensures b in IncludeFiles(edges, path)
  {
    IncludeFilesCharacterised(edges, path, a);
    IncludeFilesCharacterised(edges, path, b);
    if a == path {
      var w := [path, b];
      assert IsWalk(edges, w);
    } else {
      var w :| IsWalk(edges, w) && |w| >= 2 && w[0] == path && w[|w| - 1] == a;
      var w' := Append(edges, w, b);
    }
  }

  /** The older provider's closure: the one-character strings of the path and
      every file reachable from the path without passing through one of them. */
  lemma LegacyIncludeFilesCharacterised(edges: seq<Edge>, path: string, x: string)
    ensures x in LegacyIncludeFiles(edges, path) <==> x in Chars(path) || ReachesAvoiding(edges, Chars(path), path, x)
  {
    ExploreCharacterised(edges, Chars(path), path, x);
  }

  /** In the older provider the current file is not part of its own closure
      unless its path is a single character or some include leads back to it. */
  lemma LegacyOmitsOwnFile(edges: seq<Edge>, path: string)
    requires |path| != 1 && path !in Universe(edges)
    ensures path !in LegacyIncludeFiles(edges, path)
  {
    LegacyIncludeFilesCharacterised(edges, path, path);
    forall w | IsWalk(edges, w) && |w| >= 2 && w[0] == path
      ensures w[|w| - 1] != path
    {
      WalkEndIncluded(edges, w);
    }
  }

  lemma WalkEndIncluded(edges: seq<Edge>, w: seq<string>)
    requires IsWalk(edges, w) && |w| >= 2
    ensures w[|w| - 1] in Universe(edges)
  {
    assert (w[|w| - 2], w[|w| - 1]) in edges;
  }

  /** Both providers admit every file the current file includes directly. */
  lemma DirectIncludesAdmitted(edges: seq<Edge>, path: string, x: string)
    requires (path, x) in edges
    ensures x in IncludeFiles(edges, path)
    ensures x in LegacyIncludeFiles(edges, path)
  {
    var w := [path, x];
    assert IsWalk(edges, w);
    IncludeFilesCharacterised(edges, path, x);
    LegacyIncludeFilesCharacterised(edges, path, x);
    if x !in Chars(path) {
      assert Avoids(w, Chars(path));
    }
  }
}
