/** The local scope computation (`ScadScopeComputation`): which declarations
    each node of one document makes visible to its descendants, before any
    ancestor or the workspace index is consulted.

    Every node except the root is processed once, in traversal order:
    - a VariableDefinition registers nothing by itself;
    - a module, function or inline-function definition registers each of its
      parameters' variables on the definition node itself;
    - an Assignment registers its variable on the assignment's container;
    - then (except for a VariableDefinition) Langium's default step registers
      a named node on its container.
    Afterwards the entries of a nested `{ }` block are moved up to the
    outermost block of its chain of directly nested blocks. */
module ScopeComputation {
  import opened Base
  import opened Ast
  import opened MultiMaps

  /** The descriptions of a definition's parameters, each named by the
      parameter's variable, in parameter order. */
  function ParamDescriptions(doc: Document, i: NodeId): (r: seq<Description>)
    requires WellFormed(doc) && i < |doc.nodes|
    ensures |r| == |doc.nodes[i].params|
    ensures forall k :: 0 <= k < |r| ==> r[k].node == doc.nodes[doc.nodes[i].params[k]].variable
  {
    var ps := doc.nodes[i].params;
    seq(|ps|, k requires 0 <= k < |ps| => Describe(doc, doc.nodes[ps[k]].variable))
  }

  /** Langium's default `processNode`: a node with a name is registered on
      its container. */
  function DefaultProcess(doc: Document, i: NodeId, s: MultiMap): MultiMap
    requires WellFormed(doc) && 0 < i < |doc.nodes|
  {
    if doc.nodes[i].name != "" then Add(s, doc.nodes[i].container.value, Describe(doc, i)) else s
  }

  /** The rules `processNode` adds before deferring to the default step:
      parameters on their definition, an assignment's variable on its container. */
  function OwnEntries(doc: Document, i: NodeId, s: MultiMap): MultiMap
    requires WellFormed(doc) && 0 < i < |doc.nodes|
  {
    var n := doc.nodes[i];
    if IsDefinition(n.kind) then AddAll(s, i, ParamDescriptions(doc, i))
    else if n.kind == Assignment then Add(s, n.container.value, Describe(doc, n.variable))
    else s
  }

  /** `processNode`, the per-node registration rules. */
  function ProcessNode(doc: Document, i: NodeId, s: MultiMap): MultiMap
    requires WellFormed(doc) && 0 < i < |doc.nodes|
  {
    if doc.nodes[i].kind == VariableDefinition then s
    else DefaultProcess(doc, i, OwnEntries(doc, i, s))
  }

  /** The entries after processing nodes 1 .. n-1 (the root is never processed). */
  function LocalScopesUpTo(doc: Document, n: nat): MultiMap
    requires WellFormed(doc) && n <= |doc.nodes|
  {
    if n <= 1 then [] else ProcessNode(doc, n - 1, LocalScopesUpTo(doc, n - 1))
  }

  /** The default `computeScope`: every node processed once. */
  function LocalScopes(doc: Document): MultiMap
    requires WellFormed(doc)
  {
    LocalScopesUpTo(doc, |doc.nodes|)
  }

  /** Reference definition: processing node `i` registers `d` under key `k`. */
  predicate Registers(doc: Document, i: NodeId, k: NodeId, d: Description)
    requires WellFormed(doc) && 0 < i < |doc.nodes|
  {
    var n := doc.nodes[i];
    || (IsDefinition(n.kind) && k == i && d in ParamDescriptions(doc, i))
    || (n.kind == Assignment && k == n.container.value && d == Describe(doc, n.variable))
    || (n.kind != VariableDefinition && n.name != "" && k == n.container.value && d == Describe(doc, i))
  }

  /** What processing node `i` appends under key `k`, in order. */
  function Contribution(doc: Document, i: NodeId, k: NodeId): (r: seq<Description>)
    requires WellFormed(doc) && 0 < i < |doc.nodes|
    ensures forall d :: d in r <==> Registers(doc, i, k, d)
  {
    var n := doc.nodes[i];
    (if IsDefinition(n.kind) && k == i then ParamDescriptions(doc, i) else [])
    + (if n.kind == Assignment && k == n.container.value then [Describe(doc, n.variable)] else [])
    + (if n.kind != VariableDefinition && n.name != "" && k == n.container.value then [Describe(doc, i)] else [])
  }

  /** Per case of the `switch` in `processNode`: a variable definition adds
      nothing; a definition adds its parameters under itself; an assignment
      adds its variable under its container; and the default step adds a
      named node under its container. No other key receives anything. */
  lemma ContributionByKind(doc: Document, i: NodeId, k: NodeId)
    requires WellFormed(doc) && 0 < i < |doc.nodes|
    ensures var n := doc.nodes[i];
            var c := n.container.value;
            var own := if n.name != "" then [Describe(doc, i)] else [];
            && (n.kind == VariableDefinition ==> Contribution(doc, i, k) == [])
            && (IsDefinition(n.kind) ==> Contribution(doc, i, i) == ParamDescriptions(doc, i))
            && (IsDefinition(n.kind) ==> Contribution(doc, i, c) == own)
            && (n.kind == Assignment ==> Contribution(doc, i, c) == [Describe(doc, n.variable)] + own)
            && (!IsDefinition(n.kind) && n.kind != Assignment && n.kind != VariableDefinition ==>
                  Contribution(doc, i, c) == own)
            && (k != i && k != c ==> Contribution(doc, i, k) == [])
  {
    var n := doc.nodes[i];
    assert n.container.value < i;
  }

  lemma ProcessNodeGet(doc: Document, i: NodeId, s: MultiMap, k: NodeId)
    requires WellFormed(doc) && 0 < i < |doc.nodes|
    ensures Get(ProcessNode(doc, i, s), k) == Get(s, k) + Contribution(doc, i, k)
  {
    var n := doc.nodes[i];
    var params := if IsDefinition(n.kind) && k == i then ParamDescriptions(doc, i) else [];
    var byAssignment := if n.kind == Assignment && k == n.container.value then [Describe(doc, n.variable)] else [];
    var named := if n.kind != VariableDefinition && n.name != "" && k == n.container.value then [Describe(doc, i)] else [];
    ContributionParts(doc, i, k);
    if n.kind == VariableDefinition {
      assert params + byAssignment + named == [];
    } else {
      OwnEntriesGet(doc, i, s, k);
      DefaultProcessGet(doc, i, OwnEntries(doc, i, s), k);
      ConcatAssoc(Get(s, k), params, byAssignment, named);
    }
  }

  lemma ContributionParts(doc: Document, i: NodeId, k: NodeId)
    requires WellFormed(doc) && 0 < i < |doc.nodes|
    ensures var n := doc.nodes[i];
            Contribution(doc, i, k)
            == (if IsDefinition(n.kind) && k == i then ParamDescriptions(doc, i) else [])
               + (if n.kind == Assignment && k == n.container.value then [Describe(doc, n.variable)] else [])
               + (if n.kind != VariableDefinition && n.name != "" && k == n.container.value then [Describe(doc, i)] else [])
  {
  }

  lemma ConcatAssoc<T>(a: seq<T>, b: seq<T>, c: seq<T>, d: seq<T>)
    ensures a + b + c + d == a + (b + c + d)
  {
  }

  lemma OwnEntriesGet(doc: Document, i: NodeId, s: MultiMap, k: NodeId)
    requires WellFormed(doc) && 0 < i < |doc.nodes|
    ensures var n := doc.nodes[i];
            Get(OwnEntries(doc, i, s), k)
            == Get(s, k)
               + (if IsDefinition(n.kind) && k == i then ParamDescriptions(doc, i) else [])
               + (if n.kind == Assignment && k == n.container.value then [Describe(doc, n.variable)] else [])
  {
    var n := doc.nodes[i];
    if IsDefinition(n.kind) {
      assert !(n.kind == Assignment);
    }
  }

  lemma DefaultProcessGet(doc: Document, i: NodeId, s: MultiMap, k: NodeId)
    requires WellFormed(doc) && 0 < i < |doc.nodes|
    ensures var n := doc.nodes[i];
            Get(DefaultProcess(doc, i, s), k)
            == Get(s, k) + (if n.name != "" && k == n.container.value then [Describe(doc, i)] else [])
  {
  }

  lemma ProcessNodeShape(doc: Document, i: NodeId, s: MultiMap)
    requires WellFormed(doc) && 0 < i < |doc.nodes|
    ensures Valid(s) ==> Valid(ProcessNode(doc, i, s))
    ensures NoEmptyBucket(s) ==> NoEmptyBucket(ProcessNode(doc, i, s))
    ensures Elems(Keys(ProcessNode(doc, i, s))) <= Elems(Keys(s)) + {i, doc.nodes[i].container.value}
  {
    var n := doc.nodes[i];
    var c := n.container.value;
    if n.kind == VariableDefinition {
    } else {
      var s1 := OwnEntries(doc, i, s);
      if IsDefinition(n.kind) {
        AddAllValid(s, i, ParamDescriptions(doc, i));
        AddAllKeys(s, i, ParamDescriptions(doc, i));
      } else if n.kind == Assignment {
        AddValid(s, c, Describe(doc, n.variable));
        AddKeys(s, c, Describe(doc, n.variable));
      }
      assert ProcessNode(doc, i, s) == DefaultProcess(doc, i, s1);
      if n.name != "" {
        AddValid(s1, c, Describe(doc, i));
        AddKeys(s1, c, Describe(doc, i));
      }
    }
  }

  /** The entries after a prefix of the traversal: one bucket per key, no
      empty bucket, and only keys of nodes already passed. */
  lemma {:induction false} LocalScopesUpToShape(doc: Document, n: nat)
    requires WellFormed(doc) && n <= |doc.nodes|
    ensures Valid(LocalScopesUpTo(doc, n))
    ensures NoEmptyBucket(LocalScopesUpTo(doc, n))
    ensures forall x :: x in Keys(LocalScopesUpTo(doc, n)) ==> x < n
  {
    if n > 1 {
      var prev := LocalScopesUpTo(doc, n - 1);
      LocalScopesUpToShape(doc, n - 1);
      ProcessNodeShape(doc, n - 1, prev);
      KeysBelow(Keys(prev), Keys(ProcessNode(doc, n - 1, prev)), n - 1, doc.nodes[n - 1].container.value);
    }
  }

  /** A step that adds at most the keys `i` and `c < i` keeps every key below `i + 1`. */
  lemma KeysBelow(before: seq<NodeId>, after: seq<NodeId>, i: nat, c: nat)
    requires c < i && forall x :: x in before ==> x < i
    requires Elems(after) <= Elems(before) + {i, c}
    ensures forall x :: x in after ==> x < i + 1
  {
    forall x | x in after ensures x < i + 1 {
      assert x in Elems(after);
      if x in Elems(before) {
        assert x in before;
      }
    }
  }

  lemma LocalScopesShape(doc: Document)
    requires WellFormed(doc)
    ensures Valid(LocalScopes(doc)) && NoEmptyBucket(LocalScopes(doc))
    ensures KeysIn(doc, LocalScopes(doc))
  {
    var local := LocalScopes(doc);
    LocalScopesUpToShape(doc, |doc.nodes|);
    forall a | 0 <= a < |local| ensures local[a].key < |doc.nodes| {
      assert Keys(local)[a] in Keys(local);
    }
  }

  /** Reference characterisation of the unhoisted entries: `d` is listed
      under `k` exactly when some processed node registers it there. */
  lemma {:induction false} LocalScopesUpToMembership(doc: Document, n: nat, k: NodeId, d: Description)
    requires WellFormed(doc) && n <= |doc.nodes|
    ensures d in Get(LocalScopesUpTo(doc, n), k) <==> exists i :: 0 < i < n && Registers(doc, i, k, d)
  {
    if n > 1 {
      LocalScopesUpToMembership(doc, n - 1, k, d);
      UpToGet(doc, n, k);
      RegistersBefore(doc, n, k, d);
    }
  }

  /** One more node processed appends its contribution under every key. */
  lemma UpToGet(doc: Document, n: nat, k: NodeId)
    requires WellFormed(doc) && 1 < n <= |doc.nodes|
    ensures Get(LocalScopesUpTo(doc, n), k) == Get(LocalScopesUpTo(doc, n - 1), k) + Contribution(doc, n - 1, k)
  {
    ProcessNodeGet(doc, n - 1, LocalScopesUpTo(doc, n - 1), k);
  }

  lemma RegistersBefore(doc: Document, n: nat, k: NodeId, d: Description)
    requires WellFormed(doc) && 1 < n <= |doc.nodes|
    ensures (exists i :: 0 < i < n && Registers(doc, i, k, d))
            <==> (exists i :: 0 < i < n - 1 && Registers(doc, i, k, d)) || d in Contribution(doc, n - 1, k)
  {
    if exists i :: 0 < i < n && Registers(doc, i, k, d) {
      var i :| 0 < i < n && Registers(doc, i, k, d);
      if i < n - 1 {
        assert 0 < i < n - 1;
      }
    }
    if exists i :: 0 < i < n - 1 && Registers(doc, i, k, d) {
      var i :| 0 < i < n - 1 && Registers(doc, i, k, d);
      assert 0 < i < n;
    }
  }

  /** Nothing is registered under a node before the traversal reaches it. */
  lemma {:induction false} NothingAheadOfTraversal(doc: Document, n: nat, k: NodeId)
    requires WellFormed(doc) && n <= |doc.nodes| && k >= n
    ensures Get(LocalScopesUpTo(doc, n), k) == []
  {
    if n > 1 {
      NothingAheadOfTraversal(doc, n - 1, k);
      ProcessNodeGet(doc, n - 1, LocalScopesUpTo(doc, n - 1), k);
    }
  }

  /** Later processing only appends under a key. */
  lemma {:induction false} EntriesOnlyGrow(doc: Document, m: nat, n: nat, k: NodeId)
    requires WellFormed(doc) && m <= n <= |doc.nodes|
    ensures |Get(LocalScopesUpTo(doc, m), k)| <= |Get(LocalScopesUpTo(doc, n), k)|
    ensures Get(LocalScopesUpTo(doc, n), k)[..|Get(LocalScopesUpTo(doc, m), k)|] == Get(LocalScopesUpTo(doc, m), k)
    decreases n - m
  {
    if m < n && n > 1 {
      EntriesOnlyGrow(doc, m, n - 1, k);
      ProcessNodeGet(doc, n - 1, LocalScopesUpTo(doc, n - 1), k);
    }
  }

  /** The parameters of a module, function or inline function are the first
      entries of the definition node itself, in parameter order. */
  lemma ParametersOnDefinitionNode(doc: Document, i: NodeId)
    requires WellFormed(doc) && 0 < i < |doc.nodes| && IsDefinition(doc.nodes[i].kind)
    ensures |ParamDescriptions(doc, i)| <= |Get(LocalScopes(doc), i)|
    ensures Get(LocalScopes(doc), i)[..|doc.nodes[i].params|] == ParamDescriptions(doc, i)
  {
    NothingAheadOfTraversal(doc, i, i);
    ProcessNodeGet(doc, i, LocalScopesUpTo(doc, i), i);
    assert Get(LocalScopesUpTo(doc, i + 1), i) == ParamDescriptions(doc, i);
    EntriesOnlyGrow(doc, i + 1, |doc.nodes|, i);
  }

  /** An Assignment's variable is registered on the assignment's container and
      never on the assignment itself. */
  lemma AssignmentOnContainer(doc: Document, i: NodeId)
    requires WellFormed(doc) && 0 < i < |doc.nodes| && doc.nodes[i].kind == Assignment
    ensures Describe(doc, doc.nodes[i].variable) in Get(LocalScopes(doc), doc.nodes[i].container.value)
    ensures forall d :: d in Get(LocalScopes(doc), i) ==> d.node != doc.nodes[i].variable || exists j :: 0 < j < |doc.nodes| && j != i && Registers(doc, j, i, d)
  {
    var d := Describe(doc, doc.nodes[i].variable);
    assert Registers(doc, i, doc.nodes[i].container.value, d);
    LocalScopesUpToMembership(doc, |doc.nodes|, doc.nodes[i].container.value, d);
    forall d' | d' in Get(LocalScopes(doc), i)
      ensures d'.node != doc.nodes[i].variable || exists j :: 0 < j < |doc.nodes| && j != i && Registers(doc, j, i, d')
    {
      LocalScopesUpToMembership(doc, |doc.nodes|, i, d');
      var j :| 0 < j < |doc.nodes| && Registers(doc, j, i, d');
      assert j != i;
    }
  }

  /** A VariableDefinition contributes nothing on its own: a description of a
      variable node only appears when an Assignment or a Parameter owns it. */
  lemma VariableDefinitionRegistersNothing(doc: Document, v: NodeId)
    requires WellFormed(doc) && 0 < v < |doc.nodes| && doc.nodes[v].kind == VariableDefinition
    requires forall j :: 0 < j < |doc.nodes| && (doc.nodes[j].kind == Assignment || doc.nodes[j].kind == Parameter) ==> doc.nodes[j].variable != v
    ensures forall k, d :: d in Get(LocalScopes(doc), k) ==> d.node != v
  {
    forall k, d | d in Get(LocalScopes(doc), k) ensures d.node != v {
      LocalScopesUpToMembership(doc, |doc.nodes|, k, d);
      var i :| 0 < i < |doc.nodes| && Registers(doc, i, k, d);
      if IsDefinition(doc.nodes[i].kind) && k == i && d in ParamDescriptions(doc, i) {
        var ps := ParamDescriptions(doc, i);
        var q :| 0 <= q < |ps| && ps[q] == d;
        assert doc.nodes[doc.nodes[i].params[q]].kind == Parameter;
      }
    }
  }

  // ---------------------------------------------------------------------
  // Hoisting of nested blocks

  /** Climbs from a block through containers that are blocks themselves. */
  function OutermostBlock(doc: Document, k: NodeId): (r: NodeId)
    requires WellFormed(doc) && k < |doc.nodes| && doc.nodes[k].kind == BlockStatement
    ensures r in Chain(doc, k) && r <= k
    ensures doc.nodes[r].kind == BlockStatement
    ensures doc.nodes[r].container.None? || doc.nodes[doc.nodes[r].container.value].kind != BlockStatement
    ensures forall a :: a in Chain(doc, k) && a >= r ==> doc.nodes[a].kind == BlockStatement
    decreases k
  {
    match doc.nodes[k].container
    case None => k
    case Some(p) =>
      if doc.nodes[p].kind == BlockStatement then OutermostBlock(doc, p) else k
  }

  /** Where `computeScope` moves the entries of key `k`. */
  function HoistTarget(doc: Document, k: NodeId): (r: NodeId)
    requires WellFormed(doc) && k < |doc.nodes|
    ensures r < |doc.nodes|
  {
    if doc.nodes[k].kind == BlockStatement then OutermostBlock(doc, k) else k
  }

  /** The target of a target is itself. */
  lemma HoistTargetFixed(doc: Document, k: NodeId)
    requires WellFormed(doc) && k < |doc.nodes|
    ensures HoistTarget(doc, HoistTarget(doc, k)) == HoistTarget(doc, k)
  {
  }

  predicate KeysIn(doc: Document, m: MultiMap) {
    forall a :: 0 <= a < |m| ==> m[a].key < |doc.nodes|
  }

  /** The hoisting loop of `computeScope`: each key's entries, in key order,
      are re-added under the key's target. */
  function HoistInto(doc: Document, acc: MultiMap, m: MultiMap): MultiMap
    requires WellFormed(doc) && KeysIn(doc, m)
    decreases |m|
  {
    if |m| == 0 then acc
    else HoistInto(doc, AddAll(acc, HoistTarget(doc, m[0].key), m[0].values), m[1..])
  }

  /** `computeScope`: the hoisted local scopes (the precomputed scopes). */
  function ComputeScope(doc: Document): MultiMap
    requires WellFormed(doc)
  {
    LocalScopesShape(doc);
    HoistInto(doc, [], LocalScopes(doc))
  }

  /** Reference grouping: the entries of every bucket whose target is `t`, in
      bucket order. */
  function Gather(doc: Document, m: MultiMap, t: NodeId): seq<Description>
    requires WellFormed(doc) && KeysIn(doc, m)
  {
    if |m| == 0 then []
    else (if HoistTarget(doc, m[0].key) == t then m[0].values else []) + Gather(doc, m[1..], t)
  }

  lemma {:induction false} HoistGet(doc: Document, acc: MultiMap, m: MultiMap, t: NodeId)
    requires WellFormed(doc) && KeysIn(doc, m)
    ensures Get(HoistInto(doc, acc, m), t) == Get(acc, t) + Gather(doc, m, t)
    decreases |m|
  {
    if |m| > 0 {
      HoistGet(doc, AddAll(acc, HoistTarget(doc, m[0].key), m[0].values), m[1..], t);
    }
  }

  /** Hoisting neither loses nor duplicates a description. */
  lemma {:induction false} HoistPreservesEntries(doc: Document, acc: MultiMap, m: MultiMap)
    requires WellFormed(doc) && KeysIn(doc, m)
    ensures Size(HoistInto(doc, acc, m)) == Size(acc) + Size(m)
    ensures multiset(Values(HoistInto(doc, acc, m))) == multiset(Values(acc)) + multiset(Values(m))
    decreases |m|
  {
    if |m| > 0 {
      AddAllSize(acc, HoistTarget(doc, m[0].key), m[0].values);
      HoistPreservesEntries(doc, AddAll(acc, HoistTarget(doc, m[0].key), m[0].values), m[1..]);
    }
  }

  /** Every key of the hoisted map is a target of some key. */
  lemma {:induction false} HoistShape(doc: Document, acc: MultiMap, m: MultiMap)
    requires WellFormed(doc) && KeysIn(doc, m)
    ensures Valid(acc) ==> Valid(HoistInto(doc, acc, m))
    ensures NoEmptyBucket(acc) ==> NoEmptyBucket(HoistInto(doc, acc, m))
    ensures forall x :: x in Keys(HoistInto(doc, acc, m)) ==>
              x in Keys(acc) || exists a :: 0 <= a < |m| && HoistTarget(doc, m[a].key) == x
    decreases |m|
  {
    if |m| > 0 {
      var t := HoistTarget(doc, m[0].key);
      var acc' := AddAll(acc, t, m[0].values);
      AddAllValid(acc, t, m[0].values);
      AddAllKeys(acc, t, m[0].values);
      HoistShape(doc, acc', m[1..]);
      forall x | x in Keys(HoistInto(doc, acc, m))
        ensures x in Keys(acc) || exists a :: 0 <= a < |m| && HoistTarget(doc, m[a].key) == x
      {
        if x in Keys(acc') {
          assert x in Elems(Keys(acc'));
          if x != t {
            assert x in Elems(Keys(acc));
          }
        } else {
          var a :| 0 <= a < |m[1..]| && HoistTarget(doc, m[1..][a].key) == x;
          assert m[a + 1] == m[1..][a];
        }
      }
    }
  }

  predicate KeysFixed(doc: Document, m: MultiMap)
    requires WellFormed(doc)
  {
    forall a :: 0 <= a < |m| ==> m[a].key < |doc.nodes| && HoistTarget(doc, m[a].key) == m[a].key
  }

  /** Hoisting a map whose keys are all their own targets re-creates it. */
  lemma {:induction false} HoistFixedMap(doc: Document, acc: MultiMap, m: MultiMap)
    requires WellFormed(doc) && KeysFixed(doc, m) && Valid(m) && NoEmptyBucket(m)
    requires forall x :: x in Keys(m) ==> x !in Keys(acc)
    ensures KeysIn(doc, m)
    ensures HoistInto(doc, acc, m) == acc + m
    decreases |m|
  {
    if |m| > 0 {
      var acc', t := acc + [m[0]], m[1..];
      HoistFirstBucket(doc, acc, m);
      HoistFixedMap(doc, acc', t);
      ShiftBucket(acc, m);
    }
  }

  lemma ShiftBucket(acc: MultiMap, m: MultiMap)
    requires |m| > 0
    ensures (acc + [m[0]]) + m[1..] == acc + m
  {
    assert m == [m[0]] + m[1..];
  }

  lemma HoistFirstBucket(doc: Document, acc: MultiMap, m: MultiMap)
    requires WellFormed(doc) && KeysFixed(doc, m) && Valid(m) && NoEmptyBucket(m) && |m| > 0
    requires forall x :: x in Keys(m) ==> x !in Keys(acc)
    ensures KeysIn(doc, m)
    ensures HoistInto(doc, acc, m) == HoistInto(doc, acc + [m[0]], m[1..])
    ensures KeysFixed(doc, m[1..]) && Valid(m[1..]) && NoEmptyBucket(m[1..])
    ensures forall x :: x in Keys(m[1..]) ==> x !in Keys(acc + [m[0]])
  {
    assert m[0].key in Keys(m);
    AddAllFreshKey(acc, m[0].key, m[0].values);
    assert Bucket(m[0].key, m[0].values) == m[0];
    assert Keys(acc + [m[0]]) == Keys(acc) + [m[0].key];
    forall x | x in Keys(m[1..]) ensures x in Keys(m) {
      var a :| 0 <= a < |m[1..]| && Keys(m[1..])[a] == x;
      assert Keys(m)[a + 1] == x;
    }
    forall a | 0 <= a < |m[1..]|
      ensures m[1..][a].key < |doc.nodes| && HoistTarget(doc, m[1..][a].key) == m[1..][a].key
    {
      assert m[1..][a] == m[a + 1];
    }
  }

  /** `computeScope` moves no description: the hoisted map holds exactly the
      descriptions the traversal registered, as many times. */
  lemma ComputeScopeKeepsEntries(doc: Document)
    requires WellFormed(doc)
    ensures Size(ComputeScope(doc)) == Size(LocalScopes(doc))
    ensures multiset(Values(ComputeScope(doc))) == multiset(Values(LocalScopes(doc)))
  {
    var local := LocalScopes(doc);
    LocalScopesShape(doc);
    HoistPreservesEntries(doc, [], local);
  }

  /** Hoisting is idempotent: applied to its own output it changes nothing. */
  lemma HoistIdempotent(doc: Document, m: MultiMap)
    requires WellFormed(doc) && KeysIn(doc, m)
    ensures KeysIn(doc, HoistInto(doc, [], m))
    ensures HoistInto(doc, [], HoistInto(doc, [], m)) == HoistInto(doc, [], m)
  {
    var h := HoistInto(doc, [], m);
    HoistShape(doc, [], m);
    assert KeysFixed(doc, h) by {
      forall a | 0 <= a < |h| ensures h[a].key < |doc.nodes| && HoistTarget(doc, h[a].key) == h[a].key {
        assert Keys(h)[a] in Keys(h);
        var b :| 0 <= b < |m| && HoistTarget(doc, m[b].key) == h[a].key;
        HoistTargetFixed(doc, m[b].key);
      }
    }
    HoistFixedMap(doc, [], h);
    assert [] + h == h;
  }

  lemma {:induction false} GetMembership(m: MultiMap, k: NodeId, d: Description)
    requires Valid(m)
    ensures d in Get(m, k) <==> exists a :: 0 <= a < |m| && m[a].key == k && d in m[a].values
  {
    if |m| > 0 {
      GetMembership(m[1..], k, d);
      if m[0].key == k {
        forall a | 0 < a < |m| ensures m[a].key != k {
          assert m[a].key == Keys(m[1..])[a - 1];
        }
      }
      if exists a :: 0 <= a < |m[1..]| && m[1..][a].key == k && d in m[1..][a].values {
        var a :| 0 <= a < |m[1..]| && m[1..][a].key == k && d in m[1..][a].values;
        assert m[a + 1] == m[1..][a];
      }
      if exists a :: 0 < a < |m| && m[a].key == k && d in m[a].values {
        var a :| 0 < a < |m| && m[a].key == k && d in m[a].values;
        assert m[1..][a - 1] == m[a];
      }
    }
  }

  lemma {:induction false} GatherMembership(doc: Document, m: MultiMap, t: NodeId, d: Description)
    requires WellFormed(doc) && KeysIn(doc, m)
    ensures d in Gather(doc, m, t) <==> exists a :: 0 <= a < |m| && HoistTarget(doc, m[a].key) == t && d in m[a].values
  {
    if |m| > 0 {
      var rest := m[1..];
      GatherMembership(doc, rest, t, d);
      var hit := HoistTarget(doc, m[0].key) == t;
      assert Gather(doc, m, t) == (if hit then m[0].values else []) + Gather(doc, rest, t);
      if d in Gather(doc, m, t) {
        if !(hit && d in m[0].values) {
          var a :| 0 <= a < |rest| && HoistTarget(doc, rest[a].key) == t && d in rest[a].values;
          assert m[a + 1] == rest[a];
        }
      } else {
        forall a | 0 < a < |m| && HoistTarget(doc, m[a].key) == t
          ensures d !in m[a].values
        {
          assert m[a] == rest[a - 1];
        }
      }
    }
  }

  /** The entries of a nested block end up on the outermost block of its chain
      of directly nested blocks, and the nested block keeps none of them. */
  lemma NestedBlockEntriesMoveUp(doc: Document, b: NodeId)
    requires WellFormed(doc) && b < |doc.nodes| && doc.nodes[b].kind == BlockStatement
    ensures forall d :: d in Get(LocalScopes(doc), b) ==> d in Get(ComputeScope(doc), OutermostBlock(doc, b))
    ensures OutermostBlock(doc, b) != b ==> Get(ComputeScope(doc), b) == []
  {
    var local := LocalScopes(doc);
    LocalScopesShape(doc);
    var t := OutermostBlock(doc, b);
    HoistGet(doc, [], local, t);
    forall d | d in Get(local, b) ensures d in Get(ComputeScope(doc), t) {
      GetMembership(local, b, d);
      GatherMembership(doc, local, t, d);
    }
    if t != b {
      HoistGet(doc, [], local, b);
      forall k: NodeId | k < |doc.nodes| ensures HoistTarget(doc, k) != b {
        InnerBlockIsNoTarget(doc, b, k);
      }
      GatherOfNoTarget(doc, local, b);
    }
  }

  /** A block whose container is a block receives no hoisted entries. */
  lemma InnerBlockIsNoTarget(doc: Document, b: NodeId, k: NodeId)
    requires WellFormed(doc) && b < |doc.nodes| && k < |doc.nodes| && doc.nodes[b].kind == BlockStatement
    requires OutermostBlock(doc, b) != b
    ensures HoistTarget(doc, k) != b
  {
  }

  lemma {:induction false} GatherOfNoTarget(doc: Document, m: MultiMap, t: NodeId)
    requires WellFormed(doc) && KeysIn(doc, m)
    requires forall k: NodeId :: k < |doc.nodes| ==> HoistTarget(doc, k) != t
    ensures Gather(doc, m, t) == []
  {
    if |m| > 0 {
      GatherOfNoTarget(doc, m[1..], t);
    }
  }

  /** Entries on a node that is not a block stay exactly where they were. */
  lemma NonBlockEntriesStay(doc: Document, t: NodeId)
    requires WellFormed(doc) && t < |doc.nodes| && doc.nodes[t].kind != BlockStatement
    ensures Get(ComputeScope(doc), t) == Get(LocalScopes(doc), t)
  {
    var local := LocalScopes(doc);
    LocalScopesShape(doc);
    HoistGet(doc, [], local, t);
    GatherOfNonBlock(doc, local, t);
  }

  lemma {:induction false} GatherOfNonBlock(doc: Document, m: MultiMap, t: NodeId)
    requires WellFormed(doc) && KeysIn(doc, m) && Valid(m)
    requires t < |doc.nodes| && doc.nodes[t].kind != BlockStatement
    ensures Gather(doc, m, t) == Get(m, t)
  {
    if |m| > 0 {
      GatherOfNonBlock(doc, m[1..], t);
      if m[0].key == t {
        assert t !in Keys(m[1..]);
      }
    }
  }

  /** Parameters stay on the definition node after hoisting as well. */
  lemma ParametersOnDefinitionAfterHoisting(doc: Document, i: NodeId)
    requires WellFormed(doc) && 0 < i < |doc.nodes| && IsDefinition(doc.nodes[i].kind)
    ensures |doc.nodes[i].params| <= |Get(ComputeScope(doc), i)|
    ensures Get(ComputeScope(doc), i)[..|doc.nodes[i].params|] == ParamDescriptions(doc, i)
  {
    ParametersOnDefinitionNode(doc, i);
    NonBlockEntriesStay(doc, i);
  }

  /** `module m(a) { }`: the root, the module, its parameter, the parameter's
      variable and the module body. */
  function ModuleWithParameter(): (doc: Document)
    ensures WellFormed(doc)
  {
    ModuleNodesWellFormed();
    Document(Uri("file", "/w/m.scad"), ModuleNodes())
  }

  function ModuleNodes(): seq<Node> {
    [Node(Input, None, "", 0, [], "", false),
     Node(ModuleDefinition, Some(0), "m", 0, [2], "", false),
     Node(Parameter, Some(1), "", 3, [], "", false),
     Node(VariableDefinition, Some(2), "a", 0, [], "", false),
     Node(BlockStatement, Some(1), "", 0, [], "", false)]
  }

  lemma ModuleNodesWellFormed()
    ensures WellFormed(Document(Uri("file", "/w/m.scad"), ModuleNodes()))
  {
    var nodes := ModuleNodes();
    forall i | 0 < i < |nodes| ensures nodes[i].container.Some? && nodes[i].container.value < i {
      assert i == 1 || i == 2 || i == 3 || i == 4;
    }
    forall i, k | 0 <= i < |nodes| && 0 <= k < |nodes[i].params|
      ensures nodes[i].params[k] < |nodes| && nodes[nodes[i].params[k]].kind == Parameter
    {
      assert i == 1 && k == 0;
    }
  }

  /** The entries the traversal of `ModuleWithParameter` leaves: the
      parameter's variable on the module, the module on the root. */
  function ModuleEntries(): MultiMap {
    var doc := ModuleWithParameter();
    [Bucket(1, [Describe(doc, 3)]), Bucket(0, [Describe(doc, 1)])]
  }

  lemma ModuleFirstNode()
    ensures LocalScopesUpTo(ModuleWithParameter(), 2) == ModuleEntries()
  {
    var doc := ModuleWithParameter();
    var a := Describe(doc, 3);
    assert ParamDescriptions(doc, 1) == [a];
    assert AddAll([], 1, [a]) == [Bucket(1, [a])];
    assert OwnEntries(doc, 1, []) == [Bucket(1, [a])];
    assert Add([Bucket(1, [a])], 0, Describe(doc, 1)) == ModuleEntries();
  }

  lemma ModuleLaterNodes()
    ensures LocalScopesUpTo(ModuleWithParameter(), 5) == ModuleEntries()
  {
    var doc := ModuleWithParameter();
    ModuleFirstNode();
    assert LocalScopesUpTo(doc, 3) == ProcessNode(doc, 2, ModuleEntries()) == ModuleEntries();
    assert LocalScopesUpTo(doc, 4) == ModuleEntries();
    assert LocalScopesUpTo(doc, 5) == ProcessNode(doc, 4, ModuleEntries()) == ModuleEntries();
  }

  lemma ModuleHoist()
    ensures ComputeScope(ModuleWithParameter()) == ModuleEntries()
  {
    var doc := ModuleWithParameter();
    var m := ModuleEntries();
    ModuleLaterNodes();
    assert LocalScopes(doc) == m;
    ModuleEntriesFixed();
    HoistFixedMap(doc, [], m);
    assert [] + m == m;
  }

  lemma ModuleEntriesFixed()
    ensures KeysFixed(ModuleWithParameter(), ModuleEntries())
    ensures Valid(ModuleEntries()) && NoEmptyBucket(ModuleEntries())
  {
    var doc := ModuleWithParameter();
    var m := ModuleEntries();
    assert HoistTarget(doc, 1) == 1 && HoistTarget(doc, 0) == 0;
    assert Keys(m[1..]) == [0];
    assert Keys(m[2..]) == [];
  }

  /** The parameter `a` is registered on the module definition node, the
      module itself on the root, and the body block holds nothing. */
  lemma ModuleParameterExample()
    ensures Get(ComputeScope(ModuleWithParameter()), 1) == [Describe(ModuleWithParameter(), 3)]
    ensures Get(ComputeScope(ModuleWithParameter()), 0) == [Describe(ModuleWithParameter(), 1)]
    ensures Get(ComputeScope(ModuleWithParameter()), 4) == []
  {
    ModuleHoist();
    var m := ModuleEntries();
    assert Keys(m) == [1, 0];
    assert 4 !in Keys(m);
  }
}
