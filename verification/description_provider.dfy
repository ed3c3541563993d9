/** What one document exports to the workspace index
    (`ScadAstNodeDescriptionProvider.createDescriptions`, and the identical
    older `OpenScadAstNodeDescriptionProvider`).

    After Langium's own descriptions, every node below the root is visited in
    traversal order:
    - a `use` or `include` statement is exported under the name of the file it
      refers to, resolved against the directory of the document;
    - an assignment directly under the root exports its variable. */
module DescriptionProvider {
  import opened Base
  import opened Ast
  import opened Paths

  /** `file.substring(1, file.length - 1)`: the path literal without its
      quotes. A one-character literal is returned whole, because `substring`
      swaps reversed bounds. */
  function Unquote(file: string): (r: string)
    ensures |file| >= 2 ==> r == file[1..|file| - 1]
    ensures |file| == 1 ==> r == file
    ensures |file| == 0 ==> r == ""
  {
    JsSubstring(file, 1, |file| - 1)
  }

  /** The name a `use`/`include` statement is exported under. */
  function ImportTarget(doc: Document, i: NodeId): string
    requires i < |doc.nodes|
  {
    Resolve(Dirname(FsPath(doc.uri)), Unquote(doc.nodes[i].file))
  }

  predicate IsImport(doc: Document, i: NodeId)
    requires i < |doc.nodes|
  {
    doc.nodes[i].kind == Use || doc.nodes[i].kind == Include
  }

  predicate IsTopLevelAssignment(doc: Document, i: NodeId)
    requires WellFormed(doc) && 0 < i < |doc.nodes|
  {
    doc.nodes[i].kind == Assignment && doc.nodes[doc.nodes[i].container.value].kind == Input
  }

  /** What visiting node `i` pushes. */
  function NodeExports(doc: Document, i: NodeId): seq<Description>
    requires WellFormed(doc) && 0 < i < |doc.nodes|
  {
    (if IsImport(doc, i) then [Description(ImportTarget(doc, i), doc.nodes[i].kind, i, doc.uri)] else [])
    + (if IsTopLevelAssignment(doc, i) then [Describe(doc, doc.nodes[i].variable)] else [])
  }

  /** The pushes of nodes `i` .. the end. */
  function ExportsFrom(doc: Document, i: nat): seq<Description>
    requires WellFormed(doc) && 1 <= i <= |doc.nodes|
    decreases |doc.nodes| - i
  {
    if i == |doc.nodes| then [] else NodeExports(doc, i) + ExportsFrom(doc, i + 1)
  }

  /** `createDescriptions(document)`, given the descriptions Langium's default
      provider produced for it. */
  function CreateDescriptions(doc: Document, base: seq<Description>): (r: seq<Description>)
    requires WellFormed(doc)
    ensures |base| <= |r| && r[..|base|] == base
  {
    base + ExportsFrom(doc, 1)
  }

  /** Reference definition of the extra exports. */
  predicate Exported(doc: Document, d: Description)
    requires WellFormed(doc)
  {
    exists i :: 0 < i < |doc.nodes| && ExportedBy(doc, i, d)
  }

  lemma {:induction false} ExportsFromMembership(doc: Document, i: nat, d: Description)
    requires WellFormed(doc) && 1 <= i <= |doc.nodes|
    ensures d in ExportsFrom(doc, i) <==> exists j :: i <= j < |doc.nodes| && d in NodeExports(doc, j)
    decreases |doc.nodes| - i
  {
    if i < |doc.nodes| {
      ExportsFromMembership(doc, i + 1, d);
    }
  }

  /** The document exports exactly Langium's descriptions plus every `use` and
      `include` target and every top-level variable. */
  lemma CreateDescriptionsMembership(doc: Document, base: seq<Description>, d: Description)
    requires WellFormed(doc)
    ensures d in CreateDescriptions(doc, base) <==> d in base || Exported(doc, d)
  {
    ExportsFromMembership(doc, 1, d);
    if Exported(doc, d) {
      var i :| 0 < i < |doc.nodes| && ExportedBy(doc, i, d);
      NodeExportsMembership(doc, i, d);
    }
    if exists j :: 1 <= j < |doc.nodes| && d in NodeExports(doc, j) {
      var j :| 1 <= j < |doc.nodes| && d in NodeExports(doc, j);
      NodeExportsMembership(doc, j, d);
    }
    assert d in CreateDescriptions(doc, base) <==> d in base || d in ExportsFrom(doc, 1);
  }

  /** What node `i` contributes to the exports. */
  predicate ExportedBy(doc: Document, i: NodeId, d: Description)
    requires WellFormed(doc) && 0 < i < |doc.nodes|
  {
    (IsImport(doc, i) && d == Description(ImportTarget(doc, i), doc.nodes[i].kind, i, doc.uri))
    || (IsTopLevelAssignment(doc, i) && d == Describe(doc, doc.nodes[i].variable))
  }

  lemma NodeExportsMembership(doc: Document, i: NodeId, d: Description)
    requires WellFormed(doc) && 0 < i < |doc.nodes|
    ensures d in NodeExports(doc, i) <==> ExportedBy(doc, i, d)
  {
  }

  function ImportsFrom(doc: Document, i: nat): set<NodeId>
    requires WellFormed(doc) && 1 <= i <= |doc.nodes|
  {
    set j | i <= j < |doc.nodes| && IsImport(doc, j)
  }

  function TopLevelAssignmentsFrom(doc: Document, i: nat): set<NodeId>
    requires WellFormed(doc) && 1 <= i <= |doc.nodes|
  {
    set j | i <= j < |doc.nodes| && IsTopLevelAssignment(doc, j)
  }

  lemma {:induction false} ExportsFromCount(doc: Document, i: nat)
    requires WellFormed(doc) && 1 <= i <= |doc.nodes|
    ensures |ExportsFrom(doc, i)| == |ImportsFrom(doc, i)| + |TopLevelAssignmentsFrom(doc, i)|
    decreases |doc.nodes| - i
  {
    if i == |doc.nodes| {
      NothingFromEnd(doc);
    } else {
      ExportsFromCount(doc, i + 1);
      CountStep(doc, i);
      assert |ExportsFrom(doc, i)| == |NodeExports(doc, i)| + |ExportsFrom(doc, i + 1)|;
    }
  }

  lemma NothingFromEnd(doc: Document)
    requires WellFormed(doc)
    ensures ImportsFrom(doc, |doc.nodes|) == {} && TopLevelAssignmentsFrom(doc, |doc.nodes|) == {}
  {
  }

  lemma CountStep(doc: Document, i: nat)
    requires WellFormed(doc) && 1 <= i < |doc.nodes|
    ensures |ImportsFrom(doc, i)| == |ImportsFrom(doc, i + 1)| + (if IsImport(doc, i) then 1 else 0)
    ensures |TopLevelAssignmentsFrom(doc, i)| == |TopLevelAssignmentsFrom(doc, i + 1)| + (if IsTopLevelAssignment(doc, i) then 1 else 0)
    ensures |NodeExports(doc, i)| == (if IsImport(doc, i) then 1 else 0) + (if IsTopLevelAssignment(doc, i) then 1 else 0)
  {
    ImportsStep(doc, i);
    TopLevelStep(doc, i);
  }

  lemma ImportsStep(doc: Document, i: nat)
    requires WellFormed(doc) && 1 <= i < |doc.nodes|
    ensures ImportsFrom(doc, i) == ImportsFrom(doc, i + 1) + (if IsImport(doc, i) then {i} else {})
    ensures i !in ImportsFrom(doc, i + 1)
  {
  }

  lemma TopLevelStep(doc: Document, i: nat)
    requires WellFormed(doc) && 1 <= i < |doc.nodes|
    ensures TopLevelAssignmentsFrom(doc, i) == TopLevelAssignmentsFrom(doc, i + 1) + (if IsTopLevelAssignment(doc, i) then {i} else {})
    ensures i !in TopLevelAssignmentsFrom(doc, i + 1)
  {
  }

  /** One extra description per `use`/`include` statement and one per
      top-level assignment, after Langium's own. */
  lemma CreateDescriptionsCount(doc: Document, base: seq<Description>)
    requires WellFormed(doc)
    ensures |CreateDescriptions(doc, base)| == |base| + |ImportsFrom(doc, 1)| + |TopLevelAssignmentsFrom(doc, 1)|
  {
    ExportsFromCount(doc, 1);
  }

  lemma DirnameOfAbsolute(p: string)
    requires StartsWith(p, "/")
    ensures StartsWith(Dirname(p), "/")
  {
    assert p[0] == '/';
  }

  /** In a document with an absolute path, every import is exported under an
      absolute path. */
  lemma ImportTargetAbsolute(doc: Document, i: NodeId)
    requires i < |doc.nodes| && StartsWith(FsPath(doc.uri), "/")
    ensures StartsWith(ImportTarget(doc, i), "/")
  {
    DirnameOfAbsolute(FsPath(doc.uri));
    var dir := Dirname(FsPath(doc.uri));
    var rel := Unquote(doc.nodes[i].file);
    if !StartsWith(rel, "/") && rel != "" {
      if EndsWith(dir, "/") {
        assert (dir + rel)[..1] == dir[..1];
      } else {
        assert (dir + "/" + rel)[..1] == dir[..1];
      }
    }
  }

  /** `use <lib/util.scad>` in `/w/main.scad` is exported as `/w/lib/util.scad`. */
  lemma ImportTargetExample()
    ensures ImportTarget(Document(Uri("file", "/w/main.scad"), [Node(Use, None, "", 0, [], "<lib/util.scad>", false)]), 0)
            == "/w/lib/util.scad"
  {
    var doc := Document(Uri("file", "/w/main.scad"), [Node(Use, None, "", 0, [], "<lib/util.scad>", false)]);
    var p, file := "/w/main.scad", "<lib/util.scad>";
    assert FsPath(doc.uri) == p && doc.nodes[0].file == file;
    DirnameExample();
    UnquoteExample();
    ResolveExample();
  }

  lemma ResolveExample()
    ensures Resolve("/w", "lib/util.scad") == "/w/lib/util.scad"
  {
    var rel := "lib/util.scad";
    assert rel[..1][0] == rel[0] == 'l';
    assert !StartsWith(rel, "/");
    var dir := "/w";
    assert dir[1..][0] == dir[1] == 'w';
    assert !EndsWith(dir, "/");
    assert dir + "/" + rel == "/w/lib/util.scad";
  }

  lemma DirnameExample()
    ensures Dirname("/w/main.scad") == "/w"
  {
    var p := "/w/main.scad";
    assert p == "/w" + ['/'] + "main.scad";
    LastIndexOfSplit("/w", '/', "main.scad");
  }

  lemma UnquoteExample()
    ensures Unquote("<lib/util.scad>") == "lib/util.scad"
  {
  }
}
