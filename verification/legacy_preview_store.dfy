/** The first version of the preview registry (`Preview` in src/preview.ts,
    `PreviewStore` in src/previewStore.ts).

    A preview there has a type, `view` or `output`, where the current
    version has a `hasGui` flag; the two carry the same information (`view`
    is the GUI), so the store, `add`, `delete`, `deleteAll` and the exit
    callback of `PreviewStore` serve both versions unchanged. What differs
    is construction (no executable arguments, and a factory that refuses to
    start without a valid OpenSCAD path) and matching (a missing type means
    `view`, not "either"). */
module LegacyPreviewStore {
  import opened Base
  import Current = PreviewStore

  datatype PreviewType = View | Output

  /** The type of a stored preview. */
  function TypeOf(p: Current.Preview): PreviewType {
    if p.hasGui then View else Output
  }

  /** The flag that stores a preview type. */
  function GuiOf(t: PreviewType): bool {
    t == View
  }

  /** `PreviewStore.getPreviewType(args)`: `output` exactly when an output
      flag is among the arguments. */
  function GetPreviewType(args: Option<seq<string>>): (t: PreviewType)
    ensures t == Output <==> args.Some? && exists k :: 0 <= k < |args.value| && Current.IsOutputFlag(args.value[k])
  {
    if args.Some? && Current.HasOutputFlag(args.value) then Output else View
  }

  /** The first version's preview type and the current version's `hasGui`
      agree on every argument list. */
  lemma PreviewTypeIsHasGui(args: Option<seq<string>>)
    ensures GetPreviewType(args) == View <==> Current.HasGui(args)
    ensures TypeOf(Current.Launch(0, Current.Executable("", []), Uri("", ""), Current.HasGui(args), args)) == GetPreviewType(args)
  {
  }

  /** The private constructor: the type defaults to `view`; the command line
      is the given arguments followed by the document's path. */
  function Construct(id: nat, uri: Uri, previewType: Option<PreviewType>, args: Option<seq<string>>): (p: Current.Preview)
    ensures p.id == id && p.uri == uri && p.isRunning
    ensures TypeOf(p) == previewType.GetOr(View)
    ensures |p.commandArguments| == |args.GetOr([])| + 1
    ensures p.commandArguments[..|p.commandArguments| - 1] == args.GetOr([])
    ensures p.commandArguments[|p.commandArguments| - 1] == FsPath(uri)
  {
    var cmd := if args.Some? then args.value + [FsPath(uri)] else [FsPath(uri)];
    Current.Preview(id, uri, GuiOf(previewType.GetOr(View)), cmd, true)
  }

  /** `Preview.create(resource, previewType, arguments_)`: nothing without a
      valid OpenSCAD path; a missing type is inferred from the arguments. */
  function Create(id: nat, uri: Uri, previewType: Option<PreviewType>, args: Option<seq<string>>,
                  validScadPath: bool): (r: Option<Current.Preview>)
    ensures r.None? <==> !validScadPath
    ensures r.Some? ==> r.value.uri == uri && r.value.id == id && r.value.isRunning
    ensures r.Some? ==> TypeOf(r.value) == if previewType.Some? then previewType.value else GetPreviewType(args)
  {
    if !validScadPath then None
    else
      var t := if previewType.Some? then previewType.value else GetPreviewType(args);
      Some(Construct(id, uri, Some(t), args))
  }

  /** Without executable arguments, both versions start OpenSCAD with the
      same command line. */
  lemma SameCommandLine(id: nat, uri: Uri, args: Option<seq<string>>, filePath: string)
    ensures var p := Create(id, uri, None, args, true).value;
            var q := Current.Launch(id, Current.Executable(filePath, []), uri, Current.HasGui(args), args);
            p == q
  {
    var p := Create(id, uri, None, args, true).value;
    var q := Current.Launch(id, Current.Executable(filePath, []), uri, Current.HasGui(args), args);
    assert [] + args.GetOr([]) + [FsPath(uri)] == args.GetOr([]) + [FsPath(uri)];
  }

  /** `preview.matchUri(uri, previewType)`: same document, and the given
      type, `view` when none is given. */
  predicate MatchUri(p: Current.Preview, uri: Uri, previewType: Option<PreviewType>) {
    p.uri == uri && TypeOf(p) == previewType.GetOr(View)
  }

  /** Matching with a type is the current version's matching with the
      corresponding `hasGui`; matching without one asks for a GUI preview. */
  lemma MatchUriIsMatch(p: Current.Preview, uri: Uri, previewType: Option<PreviewType>)
    ensures MatchUri(p, uri, previewType) <==> Current.Match(p, uri, Some(GuiOf(previewType.GetOr(View))))
  {
  }

  /** `new PreviewStore(maxPreviews)`: a falsy limit becomes 0. */
  function Init(maxPreviews: Option<int>): (s: Current.Store)
    ensures Current.Valid(s) && Current.Unique(s) && |s.previews| == 0 && !s.areOpen
    ensures maxPreviews.Some? ==> s.maxPreviews == maxPreviews.value
    ensures maxPreviews.None? ==> s.maxPreviews == 0
  {
    var m := if maxPreviews.Some? && maxPreviews.value != 0 then maxPreviews.value else 0;
    Current.Store([], m, false, 0)
  }

  /** `store.get(resource, previewType)`: the first preview that `matchUri` accepts. */
  function Get(s: Current.Store, uri: Uri, previewType: Option<PreviewType>): (r: Option<Current.Preview>)
    ensures r.Some? ==> r.value in s.previews && MatchUri(r.value, uri, previewType)
    ensures r.None? <==> forall p :: p in s.previews ==> !MatchUri(p, uri, previewType)
  {
    Current.Get(s, uri, Some(GuiOf(previewType.GetOr(View))))
  }

  /** Asked without a kind, the current `get` finds an export of the
      document; the first version's `get` looks for a GUI preview only. */
  lemma GetWithoutType(s: Current.Store, p: Current.Preview)
    requires s.previews == [p] && !p.hasGui
    ensures Current.Get(s, p.uri, None) == Some(p)
    ensures Get(s, p.uri, None) == None
  {
    assert s.previews[0] == p;
  }

  /** `store.createAndAdd(uri, args)`: nothing when a preview of the same
      document and type is there or `Preview.create` refuses; otherwise the
      new preview is added. */
  function CreateAndAdd(s: Current.Store, uri: Uri, args: Option<seq<string>>, validScadPath: bool): (r: Current.Created)
    requires Current.Valid(s)
    ensures Get(s, uri, Some(GetPreviewType(args))).Some? || !validScadPath ==> r == Current.Created(s, None)
    ensures Get(s, uri, Some(GetPreviewType(args))).None? && validScadPath ==>
              && r.preview.Some?
              && r.preview.value == Construct(s.nextId, uri, Some(GetPreviewType(args)), args)
              && r.store.previews == s.previews + [r.preview.value]
              && r.store.maxPreviews == s.maxPreviews && r.store.areOpen
  {
    var t := GetPreviewType(args);
    if Get(s, uri, Some(t)).None? then
      var p := Create(s.nextId, uri, Some(t), args, validScadPath);
      if p.None? then Current.Created(s, None)
      else
        assert p.value.id !in Current.Ids(s.previews);
        Current.Created(Current.Add(s, p.value), p)
    else Current.Created(s, None)
  }

  /** The new preview is what `get` with its type finds afterwards, and the
      store keeps one preview per document and type. */
  lemma CreateAndAddFinds(s: Current.Store, uri: Uri, args: Option<seq<string>>, validScadPath: bool)
    requires Current.Valid(s) && Current.Unique(s)
    ensures var r := CreateAndAdd(s, uri, args, validScadPath);
            && Current.Valid(r.store) && Current.Unique(r.store)
            && (r.preview.Some? ==> Get(r.store, uri, Some(GetPreviewType(args))) == r.preview)
  {
    var r := CreateAndAdd(s, uri, args, validScadPath);
    if r.preview.Some? {
      var p := r.preview.value;
      var g := Some(GuiOf(GetPreviewType(args)));
      Current.FirstMatchAppend(s.previews, p, uri, g);
      Current.DistinctIdsAppend(s.previews, p);
      forall q | q in s.previews ensures !Current.SameKind(q, p) {
        assert !Current.Match(q, uri, g);
      }
      Current.OnePerKindAppend(s.previews, p);
    }
  }

  /** With a valid OpenSCAD path and no executable arguments, both versions
      of `createAndAdd` make the same decision and the same store. */
  lemma CreateAndAddAgrees(s: Current.Store, uri: Uri, args: Option<seq<string>>, filePath: string)
    requires Current.Valid(s)
    ensures CreateAndAdd(s, uri, args, true) == Current.CreateAndAdd(s, Current.Executable(filePath, []), uri, args)
  {
    PreviewTypeIsHasGui(args);
    SameCommandLine(s.nextId, uri, args, filePath);
    assert Construct(s.nextId, uri, Some(GetPreviewType(args)), args) == Create(s.nextId, uri, None, args, true).value;
  }
}
