/** The parsed OpenSCAD syntax tree as the name-resolution engine sees it,
    and the descriptions (named declarations) it produces and consumes.

    A document is a flat arena of nodes listed in traversal order. Node 0 is
    the `Input` root; every other node names its container (`$container`),
    which always sits earlier in the arena, so every walk towards the root
    terminates. */
module Ast {
  import opened Base

  type NodeId = nat

  /** The grammar-type tag (`$type`) of a node. `Expression` stands for every
      member of the grammar's `Expr` family not listed separately; `OtherNode`
      for statements with no role in name resolution. */
  datatype AstType =
    | Input
    | ModuleDefinition
    | FunctionDefinition
    | InlineFunctionDefinition
    | Parameter
    | Assignment
    | VariableDefinition
    | BlockStatement
    | Use
    | Include
    | Primary
    | PrimaryParentheses
    | Expression
    | OtherNode

  /** `isExpr`: the grammar's `Expr` union. */
  predicate IsExpr(t: AstType) {
    t == Expression || t == InlineFunctionDefinition
  }

  /** `isPrimary`: a primary expression (possibly the parenthesised form). */
  predicate IsPrimary(t: AstType) {
    t == Primary || t == PrimaryParentheses
  }

  /** Definitions whose parameters are attached by the scope computation. */
  predicate IsDefinition(t: AstType) {
    t == ModuleDefinition || t == FunctionDefinition || t == InlineFunctionDefinition
  }

  /** One syntax-tree node.
      - `name`: what Langium's name provider yields for it ("" when unnamed);
      - `variable`: for an Assignment or a Parameter, its VariableDefinition child;
      - `params`: for a definition, its Parameter nodes in order;
      - `file`: for a Use or Include, the path literal with its quotes;
      - `call`: whether the node carries a call suffix (`call !== undefined`). */
  datatype Node = Node(
    kind: AstType,
    container: Option<NodeId>,
    name: string,
    variable: NodeId,
    params: seq<NodeId>,
    file: string,
    call: bool)

  datatype Document = Document(uri: Uri, nodes: seq<Node>)

  /** The shape every parsed document has. */
  predicate WellFormed(doc: Document) {
    && |doc.nodes| > 0
    && doc.nodes[0].kind == Input
    && doc.nodes[0].container == None
    && (forall i :: 0 < i < |doc.nodes| ==>
          doc.nodes[i].container.Some? && doc.nodes[i].container.value < i)
    && (forall i :: 0 <= i < |doc.nodes| && (doc.nodes[i].kind == Assignment || doc.nodes[i].kind == Parameter) ==>
          doc.nodes[i].variable < |doc.nodes|)
    && (forall i, k :: 0 <= i < |doc.nodes| && 0 <= k < |doc.nodes[i].params| ==>
          doc.nodes[i].params[k] < |doc.nodes| && doc.nodes[doc.nodes[i].params[k]].kind == Parameter)
  }

  /** An exported or locally visible declaration (`AstNodeDescription`):
      its name, the grammar type of the declaring node, that node, and the
      document it lives in. */
  datatype Description = Description(name: string, kind: AstType, node: NodeId, uri: Uri)

  /** `createDescription(node, node.name, document)` */
  function Describe(doc: Document, v: NodeId): (d: Description)
    requires v < |doc.nodes|
    ensures d.node == v && d.uri == doc.uri && d.kind == doc.nodes[v].kind
  {
    Description(doc.nodes[v].name, doc.nodes[v].kind, v, doc.uri)
  }

  /** The node itself followed by its containers up to the root. */
  function Chain(doc: Document, i: NodeId): (c: seq<NodeId>)
    requires WellFormed(doc) && i < |doc.nodes|
    ensures |c| >= 1 && c[0] == i
    ensures forall a :: a in c ==> a <= i
    ensures forall k :: 0 <= k < |c| ==> c[k] <= i
    ensures forall k :: 0 < k < |c| ==> c[k] < c[k - 1]
    decreases i
  {
    match doc.nodes[i].container
    case None => [i]
    case Some(p) => [i] + Chain(doc, p)
  }

  /** `streamContents(node).count()`: the number of direct children. */
  /** Each node of a chain is followed by its container, and only the root
      ends it. */
  lemma {:induction false} ChainStep(doc: Document, i: NodeId, j: int)
    requires WellFormed(doc) && i < |doc.nodes| && 0 <= j < |Chain(doc, i)|
    ensures doc.nodes[Chain(doc, i)[j]].container.Some? <==> j + 1 < |Chain(doc, i)|
    ensures doc.nodes[Chain(doc, i)[j]].container.Some? ==>
              Chain(doc, i)[j + 1] == doc.nodes[Chain(doc, i)[j]].container.value
    decreases i
  {
    match doc.nodes[i].container
    case None =>
    case Some(p) =>
      if j > 0 {
        ChainStep(doc, p, j - 1);
        assert Chain(doc, i)[j] == Chain(doc, p)[j - 1];
      }
  }

  function ChildCount(doc: Document, i: NodeId): nat {
    |set j | 0 <= j < |doc.nodes| && doc.nodes[j].container == Some(i)|
  }
}
