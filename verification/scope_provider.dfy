/** Cross-reference resolution (`ScadScopeProvider.getScope`).

    A scope is a chain of layers searched innermost first; within a layer the
    first description with the requested name wins (Langium's `StreamScope`).
    For a reference from node `n` the layers are:
    - for `n` and each of its containers up to the root, the precomputed
      entries of that node (when it has any), filtered by the requested types;
    - the global layer: indexed declarations of the requested types that live
      in a file the current file includes (transitively), or, for modules and
      functions only, in a file the current file `use`s;
    - the built-in layer: indexed declarations of the requested types shipped
      with the extension.
    A variable reference standing in call position also accepts functions. */
module ScopeProvider {
  import opened Base
  import opened Ast
  import opened MultiMaps
  import opened Paths
  import opened IncludeGraph

  /** The indexed workspace: every exported description, the grammar's
      subtype relation (`isSubtype(sub, super)`) and where the extension is
      installed. */
  datatype Workspace = Workspace(
    index: seq<Description>,
    sub: (AstType, AstType) -> bool,
    extensionPath: string)

  /** Layers, innermost first. */
  type Scope = seq<seq<Description>>

  // ---------------------------------------------------------------------
  // Lookup in a scope

  /** `elements.find(e => e.name === name)` */
  function FirstNamed(ds: seq<Description>, name: string): (r: Option<Description>)
    ensures r.None? <==> forall d :: d in ds ==> d.name != name
    ensures r.Some? ==> r.value in ds && r.value.name == name
    ensures r.Some? ==> exists j :: 0 <= j < |ds| && ds[j] == r.value && forall m :: 0 <= m < j ==> ds[m].name != name
  {
    if |ds| == 0 then None
    else if ds[0].name == name then Some(ds[0])
    else
      var r := FirstNamed(ds[1..], name);
      assert forall d :: d in ds <==> d == ds[0] || d in ds[1..];
      if r.Some? then
        var j :| 0 <= j < |ds[1..]| && ds[1..][j] == r.value && forall m :: 0 <= m < j ==> ds[1..][m].name != name;
        assert ds[j + 1] == r.value && forall m :: 0 <= m < j + 1 ==> ds[m].name != name;
        r
      else r
  }

  /** `StreamScope.getElement(name)` down a chain of scopes. */
  function Lookup(layers: Scope, name: string): (r: Option<Description>)
    ensures r.None? <==> forall k :: 0 <= k < |layers| ==> FirstNamed(layers[k], name).None?
    ensures r.Some? ==> exists k :: 0 <= k < |layers| && r == FirstNamed(layers[k], name)
                         && forall m :: 0 <= m < k ==> FirstNamed(layers[m], name).None?
  {
    if |layers| == 0 then None
    else
      var here := FirstNamed(layers[0], name);
      if here.Some? then here
      else
        var r := Lookup(layers[1..], name);
        assert forall k :: 0 < k < |layers| ==> layers[k] == layers[1..][k - 1];
        if r.Some? then
          var k :| 0 <= k < |layers[1..]| && r == FirstNamed(layers[1..][k], name)
                   && forall m :: 0 <= m < k ==> FirstNamed(layers[1..][m], name).None?;
          assert r == FirstNamed(layers[k + 1], name);
          r
        else r
  }

  lemma {:induction false} FirstNamedAppend(a: seq<Description>, b: seq<Description>, name: string)
    ensures FirstNamed(a + b, name) == if FirstNamed(a, name).Some? then FirstNamed(a, name) else FirstNamed(b, name)
  {
    if |a| > 0 {
      assert (a + b)[1..] == a[1..] + b;
      FirstNamedAppend(a[1..], b, name);
    } else {
      assert a + b == b;
    }
  }

  /** The layer a found description comes from. */
  lemma LookupLayer(layers: Scope, name: string) returns (k: int)
    requires Lookup(layers, name).Some?
    ensures 0 <= k < |layers| && Lookup(layers, name).value in layers[k]
    ensures Lookup(layers, name).value.name == name
  {
    k :| 0 <= k < |layers| && Lookup(layers, name) == FirstNamed(layers[k], name)
         && forall m :: 0 <= m < k ==> FirstNamed(layers[m], name).None?;
  }

  /** The chain of scopes behaves as one stream of all layers concatenated. */
  lemma {:induction false} LookupFlat(layers: Scope, name: string)
    ensures Lookup(layers, name) == FirstNamed(Flatten(layers), name)
  {
    if |layers| > 0 {
      LookupFlat(layers[1..], name);
      FirstNamedAppend(layers[0], Flatten(layers[1..]), name);
    }
  }

  // ---------------------------------------------------------------------
  // Call position

  predicate DirectAt(doc: Document, ch: seq<NodeId>, j: int)
    requires WellFormed(doc) && forall m :: 0 <= m < |ch| ==> ch[m] < |doc.nodes|
  {
    && 0 <= j < |ch|
    && IsExpr(doc.nodes[ch[j]].kind)
    && (forall m :: 0 <= m <= j ==> ChildCount(doc, ch[m]) <= 1)
    && (forall m :: 0 <= m < j ==> !IsExpr(doc.nodes[ch[m]].kind))
  }

  /** The loop of `getExprIfDirect`, from `c` upwards. */
  function ExprIfDirectFrom(doc: Document, c: Option<NodeId>): (r: Option<NodeId>)
    requires WellFormed(doc) && (c.Some? ==> c.value < |doc.nodes|)
    ensures c.None? ==> r.None?
    ensures r.Some? ==> r.value < |doc.nodes|
    ensures c.Some? && r.Some? ==> exists j :: DirectAt(doc, Chain(doc, c.value), j) && Chain(doc, c.value)[j] == r.value
    ensures c.Some? && r.None? ==> forall j :: 0 <= j < |Chain(doc, c.value)| ==> !DirectAt(doc, Chain(doc, c.value), j)
    decreases if c.Some? then c.value + 1 else 0
  {
    match c
    case None => None
    case Some(k) =>
      var ch := Chain(doc, k);
      if ChildCount(doc, k) > 1 then
        None
      else if IsExpr(doc.nodes[k].kind) then
        assert DirectAt(doc, ch, 0);
        Some(k)
      else
        var r := ExprIfDirectFrom(doc, doc.nodes[k].container);
        ExprIfDirectStep(doc, k, r);
        r
  }

  lemma ExprIfDirectStep(doc: Document, k: NodeId, r: Option<NodeId>)
    requires WellFormed(doc) && k < |doc.nodes|
    requires ChildCount(doc, k) <= 1 && !IsExpr(doc.nodes[k].kind)
    requires doc.nodes[k].container.None? ==> r.None?
    requires doc.nodes[k].container.Some? && r.Some? ==>
               exists j :: DirectAt(doc, Chain(doc, doc.nodes[k].container.value), j)
                           && Chain(doc, doc.nodes[k].container.value)[j] == r.value
    requires doc.nodes[k].container.Some? && r.None? ==>
               forall j :: 0 <= j < |Chain(doc, doc.nodes[k].container.value)| ==> !DirectAt(doc, Chain(doc, doc.nodes[k].container.value), j)
    ensures r.Some? ==> exists j :: DirectAt(doc, Chain(doc, k), j) && Chain(doc, k)[j] == r.value
    ensures r.None? ==> forall j :: 0 <= j < |Chain(doc, k)| ==> !DirectAt(doc, Chain(doc, k), j)
  {
    var ch := Chain(doc, k);
    match doc.nodes[k].container
    case None =>
      assert ch == [k];
    case Some(p) =>
      var up := Chain(doc, p);
      assert ch == [k] + up;
      if r.Some? {
        var j :| DirectAt(doc, up, j) && up[j] == r.value;
        DirectShiftsUp(doc, k, up, j);
      } else {
        forall j | 0 <= j < |ch| ensures !DirectAt(doc, ch, j) {
          if j > 0 && DirectAt(doc, ch, j) {
            DirectShiftsDown(doc, k, up, j);
          }
        }
      }
  }

  lemma DirectShiftsUp(doc: Document, k: NodeId, up: seq<NodeId>, j: int)
    requires WellFormed(doc) && k < |doc.nodes| && forall m :: 0 <= m < |up| ==> up[m] < |doc.nodes|
    requires ChildCount(doc, k) <= 1 && !IsExpr(doc.nodes[k].kind)
    requires DirectAt(doc, up, j)
    ensures DirectAt(doc, [k] + up, j + 1) && ([k] + up)[j + 1] == up[j]
  {
    var ch := [k] + up;
    assert forall m :: 0 < m < |ch| ==> ch[m] == up[m - 1];
    assert forall m :: 0 <= m < |ch| ==> ch[m] < |doc.nodes|;
    assert ch[0] == k;
    forall m | 0 <= m <= j + 1 ensures ChildCount(doc, ch[m]) <= 1 {
      if m > 0 {
        assert ChildCount(doc, up[m - 1]) <= 1;
      }
    }
    forall m | 0 <= m < j + 1 ensures !IsExpr(doc.nodes[ch[m]].kind) {
      if m > 0 {
        assert !IsExpr(doc.nodes[up[m - 1]].kind);
      }
    }
  }

  lemma DirectShiftsDown(doc: Document, k: NodeId, up: seq<NodeId>, j: int)
    requires WellFormed(doc) && k < |doc.nodes| && forall m :: 0 <= m < |up| ==> up[m] < |doc.nodes|
    requires j > 0 && DirectAt(doc, [k] + up, j)
    ensures DirectAt(doc, up, j - 1)
  {
    var ch := [k] + up;
    assert forall m :: 0 < m < |ch| ==> ch[m] == up[m - 1];
    forall m | 0 <= m <= j - 1 ensures ChildCount(doc, up[m]) <= 1 {
      assert ChildCount(doc, ch[m + 1]) <= 1;
    }
    forall m | 0 <= m < j - 1 ensures !IsExpr(doc.nodes[up[m]].kind) {
      assert !IsExpr(doc.nodes[ch[m + 1]].kind);
    }
  }

  /** `getExprIfDirect(node)`: the nearest expression above `node`, provided
      every node on the way, the expression included, has a single child. */
  function GetExprIfDirect(doc: Document, node: NodeId): (r: Option<NodeId>)
    requires WellFormed(doc) && node < |doc.nodes|
  {
    ExprIfDirectFrom(doc, doc.nodes[node].container)
  }

  /** The primary whose container is checked for a call suffix: `node`, or,
      when `node` is the only content of an expression that is itself the
      content of parentheses, the node around the parentheses. The loop in
      the source always ends after its first round, so at most one pair of
      parentheses is looked through. */
  function CallSite(doc: Document, node: NodeId): (p: NodeId)
    requires WellFormed(doc) && node < |doc.nodes|
    ensures p < |doc.nodes|
  {
    match GetExprIfDirect(doc, node)
    case None => node
    case Some(e) =>
      match doc.nodes[e].container
      case None => node
      case Some(q) =>
        if doc.nodes[q].kind == PrimaryParentheses && doc.nodes[q].container.Some?
        then doc.nodes[q].container.value else node
  }

  /** The call site is the reference itself, or a node further up its chain
      that sits directly around a parenthesised expression: one pair of
      parentheses, wrapping an expression, is looked through. */
  lemma {:induction false} CallSiteOnChain(doc: Document, node: NodeId)
    requires WellFormed(doc) && node < |doc.nodes|
    ensures var ch := Chain(doc, node);
            || CallSite(doc, node) == node
            || exists j :: 3 <= j < |ch| && ch[j] == CallSite(doc, node)
                 && doc.nodes[ch[j - 1]].kind == PrimaryParentheses && IsExpr(doc.nodes[ch[j - 2]].kind)
  {
    if CallSite(doc, node) != node {
      var j1 := ExprOnChain(doc, node);
      ChainStep(doc, node, j1);
      ChainStep(doc, node, j1 + 1);
    }
  }

  /** The expression `getExprIfDirect` finds lies on the reference's chain,
      above the reference. */
  lemma {:induction false} ExprOnChain(doc: Document, node: NodeId) returns (j1: int)
    requires WellFormed(doc) && node < |doc.nodes| && GetExprIfDirect(doc, node).Some?
    ensures 1 <= j1 < |Chain(doc, node)| && Chain(doc, node)[j1] == GetExprIfDirect(doc, node).value
    ensures IsExpr(doc.nodes[Chain(doc, node)[j1]].kind)
  {
    var c := doc.nodes[node].container.value;
    assert Chain(doc, node) == [node] + Chain(doc, c);
    var j0 :| DirectAt(doc, Chain(doc, c), j0) && Chain(doc, c)[j0] == GetExprIfDirect(doc, node).value;
    j1 := j0 + 1;
  }

  /** `includeFunctions` */
  predicate FoldsFunctions(doc: Document, node: NodeId, refType: AstType)
    requires WellFormed(doc) && node < |doc.nodes|
  {
    && refType == VariableDefinition
    && IsPrimary(doc.nodes[node].kind)
    && var p := CallSite(doc, node);
       doc.nodes[p].container.Some? && doc.nodes[doc.nodes[p].container.value].call
  }

  /** `referenceTypes` */
  function RequestedTypes(doc: Document, node: NodeId, refType: AstType): (r: seq<AstType>)
    requires WellFormed(doc) && node < |doc.nodes|
    ensures refType in r
    ensures forall t :: t in r ==> t == refType || t == FunctionDefinition
    ensures FunctionDefinition in r <==> refType == FunctionDefinition || FoldsFunctions(doc, node, refType)
  {
    [refType] + (if FoldsFunctions(doc, node, refType) then [FunctionDefinition] else [])
  }

  // ---------------------------------------------------------------------
  // Layers

  /** `referenceTypes.some(t => isSubtype(d.type, t))` */
  predicate Admits(ws: Workspace, types: seq<AstType>, d: Description) {
    exists t :: t in types && ws.sub(d.kind, t)
  }

  /** The admitted part of one bucket, in bucket order. */
  function Admitted(ws: Workspace, types: seq<AstType>, all: seq<Description>): (r: seq<Description>)
    ensures forall x :: x in r <==> x in all && Admits(ws, types, x)
  {
    Filter(all, (d: Description) => Admits(ws, types, d))
  }

  /** The local layers for the chain of nodes from the reference upwards. */
  function LocalLayers(ws: Workspace, pre: MultiMap, chain: seq<NodeId>, types: seq<AstType>): (r: Scope)
    ensures |r| <= |chain|
    ensures forall k :: 0 <= k < |r| ==> forall d :: d in r[k] ==> Admits(ws, types, d)
  {
    if |chain| == 0 then []
    else
      var all := Get(pre, chain[0]);
      var rest := LocalLayers(ws, pre, chain[1..], types);
      (if |all| > 0 then [Admitted(ws, types, all)] else []) + rest
  }

  /** The nodes of the chain that give a layer: those whose bucket is not
      empty, in chain order. */
  function NonEmptyBuckets(pre: MultiMap, chain: seq<NodeId>): seq<NodeId> {
    Filter(chain, (c: NodeId) => |Get(pre, c)| > 0)
  }

  /** One layer per node of `cs`: the admitted part of its bucket. */
  function LayersOf(ws: Workspace, pre: MultiMap, cs: seq<NodeId>, types: seq<AstType>): Scope {
    if |cs| == 0 then [] else [Admitted(ws, types, Get(pre, cs[0]))] + LayersOf(ws, pre, cs[1..], types)
  }

  lemma {:induction false} LayersOfIndex(ws: Workspace, pre: MultiMap, cs: seq<NodeId>, types: seq<AstType>)
    ensures |LayersOf(ws, pre, cs, types)| == |cs|
    ensures forall k :: 0 <= k < |cs| ==> LayersOf(ws, pre, cs, types)[k] == Admitted(ws, types, Get(pre, cs[k]))
  {
    if |cs| > 0 {
      LayersOfIndex(ws, pre, cs[1..], types);
      assert forall k :: 0 < k < |cs| ==> cs[k] == cs[1..][k - 1];
    }
  }

  lemma {:induction false} LocalLayersAsLayersOf(ws: Workspace, pre: MultiMap, chain: seq<NodeId>, types: seq<AstType>)
    ensures LocalLayers(ws, pre, chain, types) == LayersOf(ws, pre, NonEmptyBuckets(pre, chain), types)
  {
    if |chain| > 0 {
      LocalLayersAsLayersOf(ws, pre, chain[1..], types);
      var ne := NonEmptyBuckets(pre, chain[1..]);
      if |Get(pre, chain[0])| > 0 {
        assert NonEmptyBuckets(pre, chain) == [chain[0]] + ne;
        assert ([chain[0]] + ne)[1..] == ne;
      } else {
        assert NonEmptyBuckets(pre, chain) == ne;
      }
    }
  }

  /** Layer `k` is the admitted part of the bucket of the `k`-th chain node
      with a non-empty bucket: an empty bucket gives no layer, and a bucket
      with nothing admitted still gives an (empty) layer. */
  lemma {:induction false} LocalLayersShape(ws: Workspace, pre: MultiMap, chain: seq<NodeId>, types: seq<AstType>)
    ensures var ne := NonEmptyBuckets(pre, chain);
            && |LocalLayers(ws, pre, chain, types)| == |ne|
            && forall k :: 0 <= k < |ne| ==> LocalLayers(ws, pre, chain, types)[k] == Admitted(ws, types, Get(pre, ne[k]))
  {
    LocalLayersAsLayersOf(ws, pre, chain, types);
    LayersOfIndex(ws, pre, NonEmptyBuckets(pre, chain), types);
  }

  /** Where the local layers' answer for a name comes from: the bucket of
      node `j` of the chain, and no node before it has an admitted
      description of that name. */
  lemma {:induction false} LocalSource(ws: Workspace, pre: MultiMap, chain: seq<NodeId>, types: seq<AstType>, name: string)
    returns (j: int)
    requires FirstNamed(Flatten(LocalLayers(ws, pre, chain, types)), name).Some?
    ensures 0 <= j < |chain|
    ensures var r := FirstNamed(Flatten(LocalLayers(ws, pre, chain, types)), name).value;
            r in Get(pre, chain[j]) && Admits(ws, types, r)
    ensures forall m, e :: 0 <= m < j && e in Get(pre, chain[m]) && Admits(ws, types, e) ==> e.name != name
  {
    assert |chain| > 0;
    var f := LocalFlatHead(ws, pre, chain, types);
    var rest := Flatten(LocalLayers(ws, pre, chain[1..], types));
    FirstNamedAppend(f, rest, name);
    if FirstNamed(f, name).Some? {
      j := 0;
    } else {
      var j2 := LocalSource(ws, pre, chain[1..], types, name);
      j := j2 + 1;
      ShadowShift(ws, pre, chain, types, f, name, j2);
    }
  }

  /** The flattened local layers are the admitted part of the head's bucket
      followed by the flattened layers of the rest of the chain. */
  lemma LocalFlatHead(ws: Workspace, pre: MultiMap, chain: seq<NodeId>, types: seq<AstType>) returns (f: seq<Description>)
    requires |chain| > 0
    ensures Flatten(LocalLayers(ws, pre, chain, types)) == f + Flatten(LocalLayers(ws, pre, chain[1..], types))
    ensures forall x :: x in f <==> x in Get(pre, chain[0]) && Admits(ws, types, x)
  {
    var all := Get(pre, chain[0]);
    var rest := LocalLayers(ws, pre, chain[1..], types);
    f := Admitted(ws, types, all);
    if |all| > 0 {
      assert LocalLayers(ws, pre, chain, types) == [f] + rest;
      assert Flatten([f] + rest) == f + Flatten(rest);
    } else {
      assert LocalLayers(ws, pre, chain, types) == rest;
      assert f == [];
    }
  }

  lemma ShadowShift(ws: Workspace, pre: MultiMap, chain: seq<NodeId>, types: seq<AstType>, f: seq<Description>, name: string, j2: int)
    requires |chain| > 0 && 0 <= j2 < |chain| - 1
    requires forall x :: x in f <==> x in Get(pre, chain[0]) && Admits(ws, types, x)
    requires forall x :: x in f ==> x.name != name
    requires forall m, e :: 0 <= m < j2 && e in Get(pre, chain[1..][m]) && Admits(ws, types, e) ==> e.name != name
    ensures forall m, e :: 0 <= m < j2 + 1 && e in Get(pre, chain[m]) && Admits(ws, types, e) ==> e.name != name
  {
    forall m, e | 0 <= m < j2 + 1 && e in Get(pre, chain[m]) && Admits(ws, types, e)
      ensures e.name != name
    {
      if m > 0 {
        assert chain[m] == chain[1..][m - 1];
      }
    }
  }

  /** What the local layers hold, regardless of layering. */
  lemma {:induction false} LocalLayersMembership(ws: Workspace, pre: MultiMap, chain: seq<NodeId>, types: seq<AstType>, d: Description)
    ensures d in Flatten(LocalLayers(ws, pre, chain, types)) <==>
              Admits(ws, types, d) && exists c :: c in chain && d in Get(pre, c)
  {
    if |chain| > 0 {
      LocalLayersMembership(ws, pre, chain[1..], types, d);
      LocalLayersHead(ws, pre, chain, types, d);
      assert forall c :: c in chain <==> c == chain[0] || c in chain[1..];
    }
  }

  lemma LocalLayersHead(ws: Workspace, pre: MultiMap, chain: seq<NodeId>, types: seq<AstType>, d: Description)
    requires |chain| > 0
    ensures d in Flatten(LocalLayers(ws, pre, chain, types)) <==>
              (d in Get(pre, chain[0]) && Admits(ws, types, d)) || d in Flatten(LocalLayers(ws, pre, chain[1..], types))
  {
    var all := Get(pre, chain[0]);
    var rest := LocalLayers(ws, pre, chain[1..], types);
    if |all| > 0 {
      var f := Admitted(ws, types, all);
      assert LocalLayers(ws, pre, chain, types) == [f] + rest;
      assert Flatten([f] + rest) == f + Flatten(rest);
    } else {
      assert LocalLayers(ws, pre, chain, types) == rest;
    }
  }

  lemma {:induction false} FlattenAppend(a: Scope, b: Scope)
    ensures Flatten(a + b) == Flatten(a) + Flatten(b)
  {
    if |a| > 0 {
      assert (a + b)[1..] == a[1..] + b;
      FlattenAppend(a[1..], b);
    } else {
      assert a + b == b;
    }
  }

  /** `allElements(t)` */
  function AllElements(ws: Workspace, t: AstType): seq<Description> {
    Filter(ws.index, (d: Description) => ws.sub(d.kind, t))
  }

  /** `stream(types).flatMap(t => allElements(t))` */
  function TypedElements(ws: Workspace, types: seq<AstType>): (r: seq<Description>)
    ensures forall d :: d in r <==> d in ws.index && Admits(ws, types, d)
  {
    var parts := seq(|types|, k requires 0 <= k < |types| => AllElements(ws, types[k]));
    var r := Flatten(parts);
    assert forall d :: d in r <==> d in ws.index && Admits(ws, types, d) by {
      forall d ensures d in r <==> d in ws.index && Admits(ws, types, d) {
        if d in ws.index && Admits(ws, types, d) {
          var t :| t in types && ws.sub(d.kind, t);
          var k :| 0 <= k < |types| && types[k] == t;
          assert d in parts[k];
        }
      }
    }
    r
  }

  /** The names of the files the current document `use`s. */
  function UseFiles(ws: Workspace, doc: Document): set<string> {
    set d | d in AllElements(ws, Use) && d.uri == doc.uri :: d.name
  }

  /** `includeMap`: one edge per indexed `include` statement. */
  function IncludeEdges(ws: Workspace): (r: seq<Edge>)
    ensures forall e :: e in r <==> exists d :: d in AllElements(ws, Include) && e == (FsPath(d.uri), d.name)
  {
    var inc := AllElements(ws, Include);
    var r := seq(|inc|, k requires 0 <= k < |inc| => (FsPath(inc[k].uri), inc[k].name));
    assert forall d :: d in inc ==> (FsPath(d.uri), d.name) in r by {
      forall d | d in inc ensures (FsPath(d.uri), d.name) in r {
        var k :| 0 <= k < |inc| && inc[k] == d;
        assert r[k] == (FsPath(d.uri), d.name);
      }
    }
    r
  }

  /** Whether the global layer keeps a description of the requested types. */
  predicate GloballyVisible(ws: Workspace, doc: Document, d: Description) {
    || FsPath(d.uri) in IncludeFiles(IncludeEdges(ws), FsPath(doc.uri))
    || ((d.kind == ModuleDefinition || d.kind == FunctionDefinition) && FsPath(d.uri) in UseFiles(ws, doc))
  }

  /** `getGlobalScope` */
  function GlobalElements(ws: Workspace, doc: Document, types: seq<AstType>): (r: seq<Description>)
    ensures forall d :: d in r <==> d in ws.index && Admits(ws, types, d) && GloballyVisible(ws, doc, d)
  {
    var included := IncludeFiles(IncludeEdges(ws), FsPath(doc.uri));
    var used := UseFiles(ws, doc);
    Filter(TypedElements(ws, types), (d: Description) =>
      FsPath(d.uri) in included || ((d.kind == ModuleDefinition || d.kind == FunctionDefinition) && FsPath(d.uri) in used))
  }

  /** `resolve(extensionPath, 'builtin')` */
  function BuiltinDir(ws: Workspace): string {
    Resolve(ws.extensionPath, "builtin")
  }

  /** `createBuiltinScope` */
  function BuiltinElements(ws: Workspace, types: seq<AstType>): (r: seq<Description>)
    ensures forall d :: d in r <==> d in ws.index && Admits(ws, types, d) && StartsWith(FsPath(d.uri), BuiltinDir(ws))
  {
    Filter(TypedElements(ws, types), (d: Description) => StartsWith(FsPath(d.uri), BuiltinDir(ws)))
  }

  /** `getScope(node, reference)`: local layers, then the global layer, then
      the built-in layer. `pre` is the document's precomputed scopes, absent
      when they have not been computed. */
  function GetScope(ws: Workspace, doc: Document, pre: Option<MultiMap>, node: NodeId, refType: AstType): (r: Scope)
    requires WellFormed(doc) && node < |doc.nodes|
    ensures |r| >= 2
    ensures r[|r| - 1] == BuiltinElements(ws, RequestedTypes(doc, node, refType))
    ensures r[|r| - 2] == GlobalElements(ws, doc, RequestedTypes(doc, node, refType))
    ensures pre.Some? ==> r[..|r| - 2] == LocalLayers(ws, pre.value, Chain(doc, node), RequestedTypes(doc, node, refType))
    ensures pre.None? ==> |r| == 2
  {
    var types := RequestedTypes(doc, node, refType);
    var locals := if pre.Some? then LocalLayers(ws, pre.value, Chain(doc, node), types) else [];
    locals + [GlobalElements(ws, doc, types), BuiltinElements(ws, types)]
  }

  // ---------------------------------------------------------------------
  // Properties

  /** Everything the scope offers has one of the requested types. */
  lemma ScopeOnlyRequestedTypes(ws: Workspace, doc: Document, pre: Option<MultiMap>, node: NodeId, refType: AstType, name: string)
    requires WellFormed(doc) && node < |doc.nodes|
    requires Lookup(GetScope(ws, doc, pre, node, refType), name).Some?
    ensures var d := Lookup(GetScope(ws, doc, pre, node, refType), name).value;
            d.name == name
            && (ws.sub(d.kind, refType) || (ws.sub(d.kind, FunctionDefinition) && FoldsFunctions(doc, node, refType)))
  {
    var sc := GetScope(ws, doc, pre, node, refType);
    var types := RequestedTypes(doc, node, refType);
    var d := Lookup(sc, name).value;
    var k :| 0 <= k < |sc| && Lookup(sc, name) == FirstNamed(sc[k], name);
    assert d in sc[k];
    ScopeAdmits(ws, doc, pre, node, refType, k, d);
    AdmitsRequested(ws, doc, node, refType, d);
  }

  lemma AdmitsRequested(ws: Workspace, doc: Document, node: NodeId, refType: AstType, d: Description)
    requires WellFormed(doc) && node < |doc.nodes|
    requires Admits(ws, RequestedTypes(doc, node, refType), d)
    ensures ws.sub(d.kind, refType) || (ws.sub(d.kind, FunctionDefinition) && FoldsFunctions(doc, node, refType))
  {
    var t :| t in RequestedTypes(doc, node, refType) && ws.sub(d.kind, t);
  }

  /** Every layer holds only descriptions of the requested types. */
  lemma ScopeAdmits(ws: Workspace, doc: Document, pre: Option<MultiMap>, node: NodeId, refType: AstType, k: int, d: Description)
    requires WellFormed(doc) && node < |doc.nodes|
    requires 0 <= k < |GetScope(ws, doc, pre, node, refType)| && d in GetScope(ws, doc, pre, node, refType)[k]
    ensures Admits(ws, RequestedTypes(doc, node, refType), d)
  {
    var types := RequestedTypes(doc, node, refType);
    var locals := if pre.Some? then LocalLayers(ws, pre.value, Chain(doc, node), types) else [];
    var sc := GetScope(ws, doc, pre, node, refType);
    assert sc == locals + [GlobalElements(ws, doc, types), BuiltinElements(ws, types)];
    if k < |locals| {
      assert sc[k] == locals[k];
    }
  }

  /** A declaration of the name in the precomputed entries of the reference's
      node or of one of its containers hides every global and built-in one. */
  lemma LocalDeclarationWins(ws: Workspace, doc: Document, pre: MultiMap, node: NodeId, refType: AstType, c: NodeId, d: Description)
    requires WellFormed(doc) && node < |doc.nodes|
    requires c in Chain(doc, node) && d in Get(pre, c)
    requires Admits(ws, RequestedTypes(doc, node, refType), d)
    ensures Lookup(GetScope(ws, doc, Some(pre), node, refType), d.name).Some?
    ensures var r := Lookup(GetScope(ws, doc, Some(pre), node, refType), d.name).value;
            exists c' :: c' in Chain(doc, node) && r in Get(pre, c')
  {
    var types := RequestedTypes(doc, node, refType);
    var locals := LocalLayers(ws, pre, Chain(doc, node), types);
    var sc := GetScope(ws, doc, Some(pre), node, refType);
    assert sc == locals + [GlobalElements(ws, doc, types), BuiltinElements(ws, types)];
    LocalLayersMembership(ws, pre, Chain(doc, node), types, d);
    LookupFlat(locals, d.name);
    LookupFlat(sc, d.name);
    FlattenAppend(locals, [GlobalElements(ws, doc, types), BuiltinElements(ws, types)]);
    FirstNamedAppend(Flatten(locals), Flatten([GlobalElements(ws, doc, types), BuiltinElements(ws, types)]), d.name);
    var r := FirstNamed(Flatten(locals), d.name);
    assert r.Some?;
    LocalLayersMembership(ws, pre, Chain(doc, node), types, r.value);
  }

  /** Shadowing: the innermost declaration wins. When the bucket of the
      `j`-th node of the chain holds an admitted description, the lookup
      finds one from the bucket of node `j'` (`j` or a node inside it), and
      no node further in than `j'` holds an admitted description of the same
      name. */
  lemma {:induction false} InnermostWins(ws: Workspace, doc: Document, pre: MultiMap, node: NodeId, refType: AstType, j: int, d: Description)
    returns (j': int)
    requires WellFormed(doc) && node < |doc.nodes|
    requires 0 <= j < |Chain(doc, node)| && d in Get(pre, Chain(doc, node)[j])
    requires Admits(ws, RequestedTypes(doc, node, refType), d)
    ensures Lookup(GetScope(ws, doc, Some(pre), node, refType), d.name).Some?
    ensures 0 <= j' <= j
    ensures Lookup(GetScope(ws, doc, Some(pre), node, refType), d.name).value in Get(pre, Chain(doc, node)[j'])
    ensures forall m, e ::
              (0 <= m < j' && e in Get(pre, Chain(doc, node)[m]) && Admits(ws, RequestedTypes(doc, node, refType), e))
              ==> e.name != d.name
  {
    var types := RequestedTypes(doc, node, refType);
    var ch := Chain(doc, node);
    var locals := LocalLayers(ws, pre, ch, types);
    var outer := [GlobalElements(ws, doc, types), BuiltinElements(ws, types)];
    var sc := GetScope(ws, doc, Some(pre), node, refType);
    assert sc == locals + outer;
    assert ch[j] in ch;
    LocalLayersMembership(ws, pre, ch, types, d);
    j' := LocalSource(ws, pre, ch, types, d.name);
    LocalsThenOuter(locals, outer, d.name);
  }

  /** A name found in the local layers is found there, whatever follows them. */
  lemma {:induction false} LocalsThenOuter(locals: Scope, outer: Scope, name: string)
    requires FirstNamed(Flatten(locals), name).Some?
    ensures Lookup(locals + outer, name) == FirstNamed(Flatten(locals), name)
  {
    LookupFlat(locals + outer, name);
    FlattenAppend(locals, outer);
    FirstNamedAppend(Flatten(locals), Flatten(outer), name);
  }

  /** With no local or global declaration of the name, the built-in one is found. */
  lemma BuiltinFallback(ws: Workspace, doc: Document, pre: Option<MultiMap>, node: NodeId, refType: AstType, name: string)
    requires WellFormed(doc) && node < |doc.nodes|
    requires var sc := GetScope(ws, doc, pre, node, refType);
             forall k :: 0 <= k < |sc| - 1 ==> FirstNamed(sc[k], name).None?
    ensures Lookup(GetScope(ws, doc, pre, node, refType), name)
            == FirstNamed(BuiltinElements(ws, RequestedTypes(doc, node, refType)), name)
  {
    var sc := GetScope(ws, doc, pre, node, refType);
    var r := Lookup(sc, name);
    if r.Some? {
      var k :| 0 <= k < |sc| && r == FirstNamed(sc[k], name);
      assert k == |sc| - 1;
    }
  }

  /** `use` makes only modules and functions visible; anything else in the
      global layer comes from an included file. */
  lemma UseExposesOnlyDefinitions(ws: Workspace, doc: Document, types: seq<AstType>, d: Description)
    requires d in GlobalElements(ws, doc, types)
    requires FsPath(d.uri) !in IncludeFiles(IncludeEdges(ws), FsPath(doc.uri))
    ensures d.kind == ModuleDefinition || d.kind == FunctionDefinition
    ensures exists u :: u in AllElements(ws, Use) && u.uri == doc.uri && u.name == FsPath(d.uri)
  {
  }

  /** `include` is transitive: declarations of a file included by an
      included file are globally visible. */
  lemma IncludeIsTransitive(ws: Workspace, doc: Document, types: seq<AstType>, a: Description, b: Description, d: Description)
    requires a in AllElements(ws, Include) && FsPath(a.uri) in IncludeFiles(IncludeEdges(ws), FsPath(doc.uri))
    requires b in AllElements(ws, Include) && FsPath(b.uri) == a.name
    requires d in ws.index && Admits(ws, types, d) && FsPath(d.uri) == b.name
    ensures d in GlobalElements(ws, doc, types)
  {
    var edges := IncludeEdges(ws);
    assert (FsPath(a.uri), a.name) in edges;
    IncludeTransitive(edges, FsPath(doc.uri), FsPath(a.uri), a.name);
    assert (FsPath(b.uri), b.name) in edges;
    IncludeTransitive(edges, FsPath(doc.uri), a.name, b.name);
  }

  /** `use` is not transitive: a used file's own `use` statements add nothing
      unless the target is also used or included by the current file. */
  lemma UseIsNotTransitive(ws: Workspace, doc: Document, types: seq<AstType>, d: Description)
    requires FsPath(d.uri) !in UseFiles(ws, doc)
    requires FsPath(d.uri) !in IncludeFiles(IncludeEdges(ws), FsPath(doc.uri))
    ensures d !in GlobalElements(ws, doc, types)
  {
  }

  /** The current file's own exported declarations are globally visible. */
  lemma OwnFileGloballyVisible(ws: Workspace, doc: Document, types: seq<AstType>, d: Description)
    requires d in ws.index && Admits(ws, types, d) && FsPath(d.uri) == FsPath(doc.uri)
    ensures d in GlobalElements(ws, doc, types)
  {
    IncludeFilesCharacterised(IncludeEdges(ws), FsPath(doc.uri), FsPath(d.uri));
  }
}
