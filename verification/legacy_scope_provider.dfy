/** The older scope provider (`OpenScadScopeProvider.getScope`): one requested
    type, no function folding for calls, no built-in layer, and an include
    closure seeded with the characters of the current path instead of the
    path itself. */
module LegacyScopeProvider {
  import opened Base
  import opened Ast
  import opened MultiMaps
  import opened IncludeGraph
  import opened ScopeProvider

  /** Local layers filtered by `isSubtype(d.type, referenceType)`. */
  function LegacyLocalLayers(ws: Workspace, pre: MultiMap, chain: seq<NodeId>, t: AstType): Scope {
    if |chain| == 0 then []
    else
      var all := Get(pre, chain[0]);
      (if |all| > 0 then [Filter(all, (d: Description) => ws.sub(d.kind, t))] else [])
      + LegacyLocalLayers(ws, pre, chain[1..], t)
  }

  /** The older `getGlobalScope`. */
  function LegacyGlobalElements(ws: Workspace, doc: Document, t: AstType): (r: seq<Description>)
    ensures forall d :: d in r <==>
              && d in ws.index && ws.sub(d.kind, t)
              && (|| FsPath(d.uri) in LegacyIncludeFiles(IncludeEdges(ws), FsPath(doc.uri))
                  || ((d.kind == ModuleDefinition || d.kind == FunctionDefinition) && FsPath(d.uri) in UseFiles(ws, doc)))
  {
    var included := LegacyIncludeFiles(IncludeEdges(ws), FsPath(doc.uri));
    var used := UseFiles(ws, doc);
    Filter(AllElements(ws, t), (d: Description) =>
      FsPath(d.uri) in included || ((d.kind == ModuleDefinition || d.kind == FunctionDefinition) && FsPath(d.uri) in used))
  }

  /** The older `getScope`: local layers, then the global layer. */
  function LegacyGetScope(ws: Workspace, doc: Document, pre: Option<MultiMap>, node: NodeId, t: AstType): (r: Scope)
    requires WellFormed(doc) && node < |doc.nodes|
    ensures |r| >= 1 && r[|r| - 1] == LegacyGlobalElements(ws, doc, t)
    ensures pre.Some? ==> r[..|r| - 1] == LegacyLocalLayers(ws, pre.value, Chain(doc, node), t)
    ensures pre.None? ==> |r| == 1
  {
    var locals := if pre.Some? then LegacyLocalLayers(ws, pre.value, Chain(doc, node), t) else [];
    locals + [LegacyGlobalElements(ws, doc, t)]
  }

  lemma {:induction false} FilterPointwise(s: seq<Description>, p: Description -> bool, q: Description -> bool)
    requires forall x :: x in s ==> p(x) == q(x)
    ensures Filter(s, p) == Filter(s, q)
  {
    if |s| > 0 {
      FilterPointwise(s[1..], p, q);
    }
  }

  /** For a single requested type both providers build the same local layers. */
  lemma {:induction false} LocalLayersAgree(ws: Workspace, pre: MultiMap, chain: seq<NodeId>, t: AstType)
    ensures LegacyLocalLayers(ws, pre, chain, t) == LocalLayers(ws, pre, chain, [t])
  {
    if |chain| > 0 {
      LocalLayersAgree(ws, pre, chain[1..], t);
      var all := Get(pre, chain[0]);
      FilterPointwise(all, (d: Description) => ws.sub(d.kind, t), (d: Description) => Admits(ws, [t], d));
    }
  }

  /** Shadowing in the older provider: the innermost declaration of a
      subtype of the reference type wins. */
  lemma {:induction false} LegacyInnermostWins(ws: Workspace, doc: Document, pre: MultiMap, node: NodeId, t: AstType, j: int, d: Description)
    returns (j': int)
    requires WellFormed(doc) && node < |doc.nodes|
    requires 0 <= j < |Chain(doc, node)| && d in Get(pre, Chain(doc, node)[j]) && ws.sub(d.kind, t)
    ensures Lookup(LegacyGetScope(ws, doc, Some(pre), node, t), d.name).Some?
    ensures 0 <= j' <= j
    ensures Lookup(LegacyGetScope(ws, doc, Some(pre), node, t), d.name).value in Get(pre, Chain(doc, node)[j'])
    ensures forall m, e :: 0 <= m < j' && e in Get(pre, Chain(doc, node)[m]) && ws.sub(e.kind, t) ==> e.name != d.name
  {
    var ch := Chain(doc, node);
    var locals := LocalLayers(ws, pre, ch, [t]);
    var outer := LegacyScopeSplit(ws, doc, pre, node, t);
    assert Admits(ws, [t], d) by { assert t in [t]; }
    assert ch[j] in ch;
    LocalLayersMembership(ws, pre, ch, [t], d);
    j' := LocalSource(ws, pre, ch, [t], d.name);
    LocalsThenOuter(locals, outer, d.name);
    forall m, e | 0 <= m < j' && e in Get(pre, ch[m]) && ws.sub(e.kind, t)
      ensures e.name != d.name
    {
      assert Admits(ws, [t], e) by { assert t in [t]; }
    }
  }

  /** The older scope is the newer provider's local layers for the one
      requested type, followed by the rest. */
  lemma {:induction false} LegacyScopeSplit(ws: Workspace, doc: Document, pre: MultiMap, node: NodeId, t: AstType) returns (outer: Scope)
    requires WellFormed(doc) && node < |doc.nodes|
    ensures LegacyGetScope(ws, doc, Some(pre), node, t) == LocalLayers(ws, pre, Chain(doc, node), [t]) + outer
  {
    LocalLayersAgree(ws, pre, Chain(doc, node), t);
    outer := [LegacyGlobalElements(ws, doc, t)];
  }

  /** Outside calls, and for references other than variables, the two
      providers agree on the local layers. */
  lemma LocalLayersAgreeOutsideCalls(ws: Workspace, doc: Document, pre: MultiMap, node: NodeId, t: AstType)
    requires WellFormed(doc) && node < |doc.nodes| && !FoldsFunctions(doc, node, t)
    ensures LegacyLocalLayers(ws, pre, Chain(doc, node), t)
            == LocalLayers(ws, pre, Chain(doc, node), RequestedTypes(doc, node, t))
  {
    assert RequestedTypes(doc, node, t) == [t];
    LocalLayersAgree(ws, pre, Chain(doc, node), t);
  }

  /** The older provider only offers the requested type (no function folding)
      and, beyond local declarations, only what lies in its include closure or
      in a used file: declarations shipped with the extension are not found. */
  lemma LegacyFindsOnlyLocalIncludedOrUsed(ws: Workspace, doc: Document, pre: Option<MultiMap>, node: NodeId, t: AstType, name: string)
    requires WellFormed(doc) && node < |doc.nodes|
    requires Lookup(LegacyGetScope(ws, doc, pre, node, t), name).Some?
    ensures var d := Lookup(LegacyGetScope(ws, doc, pre, node, t), name).value;
            && d.name == name && ws.sub(d.kind, t)
            && (|| (pre.Some? && exists c :: c in Chain(doc, node) && d in Get(pre.value, c))
                || FsPath(d.uri) in LegacyIncludeFiles(IncludeEdges(ws), FsPath(doc.uri))
                || FsPath(d.uri) in UseFiles(ws, doc))
  {
    var sc := LegacyGetScope(ws, doc, pre, node, t);
    var k := LookupLayer(sc, name);
    LegacyScopeMember(ws, doc, pre, node, t, k, Lookup(sc, name).value);
  }

  lemma LegacyScopeMember(ws: Workspace, doc: Document, pre: Option<MultiMap>, node: NodeId, t: AstType, k: int, d: Description)
    requires WellFormed(doc) && node < |doc.nodes|
    requires 0 <= k < |LegacyGetScope(ws, doc, pre, node, t)| && d in LegacyGetScope(ws, doc, pre, node, t)[k]
    ensures ws.sub(d.kind, t)
    ensures || (pre.Some? && exists c :: c in Chain(doc, node) && d in Get(pre.value, c))
            || FsPath(d.uri) in LegacyIncludeFiles(IncludeEdges(ws), FsPath(doc.uri))
            || FsPath(d.uri) in UseFiles(ws, doc)
  {
    var sc := LegacyGetScope(ws, doc, pre, node, t);
    var locals := if pre.Some? then LegacyLocalLayers(ws, pre.value, Chain(doc, node), t) else [];
    assert sc == locals + [LegacyGlobalElements(ws, doc, t)];
    if k < |locals| {
      assert sc[k] == locals[k];
      LegacyLocalMembership(ws, pre.value, Chain(doc, node), t, k, d);
    }
  }

  /** A description of a local layer is a subtype of the reference type and
      comes from the bucket of a container on the chain. */
  lemma LegacyLocalMembership(ws: Workspace, pre: MultiMap, chain: seq<NodeId>, t: AstType, k: int, d: Description)
    requires 0 <= k < |LegacyLocalLayers(ws, pre, chain, t)| && d in LegacyLocalLayers(ws, pre, chain, t)[k]
    ensures ws.sub(d.kind, t)
    ensures exists c :: c in chain && d in Get(pre, c)
  {
    var c := LegacyLocalSource(ws, pre, chain, t, k, d);
  }

  /** Local layers keep only subtypes of the single requested type. */
  lemma LegacyLocalLayersSubtypes(ws: Workspace, pre: MultiMap, chain: seq<NodeId>, t: AstType)
    ensures forall k, d :: 0 <= k < |LegacyLocalLayers(ws, pre, chain, t)| && d in LegacyLocalLayers(ws, pre, chain, t)[k]
              ==> ws.sub(d.kind, t)
  {
    forall k, d | 0 <= k < |LegacyLocalLayers(ws, pre, chain, t)| && d in LegacyLocalLayers(ws, pre, chain, t)[k]
      ensures ws.sub(d.kind, t)
    {
      var c := LegacyLocalSource(ws, pre, chain, t, k, d);
    }
  }

  /** The container whose bucket a description of layer `k` comes from. */
  lemma {:induction false} LegacyLocalSource(ws: Workspace, pre: MultiMap, chain: seq<NodeId>, t: AstType, k: int, d: Description)
    returns (c: NodeId)
    requires 0 <= k < |LegacyLocalLayers(ws, pre, chain, t)| && d in LegacyLocalLayers(ws, pre, chain, t)[k]
    ensures c in chain && d in Get(pre, c) && ws.sub(d.kind, t)
  {
    var whole := LegacyLocalLayers(ws, pre, chain, t);
    var rest := LegacyLocalLayers(ws, pre, chain[1..], t);
    if |Get(pre, chain[0])| > 0 {
      var f := LayerOfHead(ws, pre, chain, t);
      if k == 0 {
        assert whole[0] == f;
        c := chain[0];
      } else {
        LayerShift(f, rest, whole, k);
        c := LegacyLocalSource(ws, pre, chain[1..], t, k - 1, d);
        InTail(chain, c);
      }
    } else {
      LayerSkipped(ws, pre, chain, t);
      c := LegacyLocalSource(ws, pre, chain[1..], t, k, d);
      InTail(chain, c);
    }
  }

  lemma LayerShift(f: seq<Description>, rest: Scope, whole: Scope, k: int)
    requires whole == [f] + rest && 0 < k < |whole|
    ensures 0 <= k - 1 < |rest| && whole[k] == rest[k - 1]
  {
  }

  lemma InTail(chain: seq<NodeId>, c: NodeId)
    requires |chain| > 0 && c in chain[1..]
    ensures c in chain
  {
  }

  lemma LayerSkipped(ws: Workspace, pre: MultiMap, chain: seq<NodeId>, t: AstType)
    requires |chain| > 0 && |Get(pre, chain[0])| == 0
    ensures LegacyLocalLayers(ws, pre, chain, t) == LegacyLocalLayers(ws, pre, chain[1..], t)
  {
  }

  /** With a non-empty bucket, the head container contributes the first layer:
      the subtypes in its bucket. */
  lemma LayerOfHead(ws: Workspace, pre: MultiMap, chain: seq<NodeId>, t: AstType) returns (f: seq<Description>)
    requires |chain| > 0 && |Get(pre, chain[0])| > 0
    ensures LegacyLocalLayers(ws, pre, chain, t) == [f] + LegacyLocalLayers(ws, pre, chain[1..], t)
    ensures forall x :: x in f ==> x in Get(pre, chain[0]) && ws.sub(x.kind, t)
  {
    f := Filter(Get(pre, chain[0]), (x: Description) => ws.sub(x.kind, t));
  }

  /** Because the older closure is seeded with the path's characters, the
      current file's own non-definition declarations are not in its global
      layer (unless the path is one character long or an include leads back). */
  lemma LegacyOmitsOwnDeclarations(ws: Workspace, doc: Document, t: AstType, d: Description)
    requires |FsPath(doc.uri)| != 1 && FsPath(doc.uri) !in Universe(IncludeEdges(ws))
    requires FsPath(d.uri) == FsPath(doc.uri) && d.kind != ModuleDefinition && d.kind != FunctionDefinition
    ensures d !in LegacyGlobalElements(ws, doc, t)
  {
    LegacyOmitsOwnFile(IncludeEdges(ws), FsPath(doc.uri));
  }
}
