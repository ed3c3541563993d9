# OpenSCAD extension: name resolution, export naming and previews

This project is a Dafny model of the core of the OpenSCAD extension for
Visual Studio Code. It has five parts.

1. **Name resolution in the language server** (Langium based):
   - what a document exports to the workspace index (`DescriptionProvider`);
   - the local scopes attached to syntax-tree nodes, with declarations of
     nested `{ }` blocks hoisted to the outermost block (`ScopeComputation`,
     over the multimap of `MultiMaps`);
   - the layered lookup of a reference (`ScopeProvider`). It searches the
     reference's node and its containers innermost first, then the global
     layer, then the built-in layer.
   - The global layer is the transitive `include` closure (`IncludeGraph`)
     plus the modules and functions of the files the document `use`s.
   - The older provider (`LegacyScopeProvider`) has no function folding and no
     built-in layer, and seeds its closure with the characters of the path.
2. **Export file naming** (`ExportResolver`, and the older `LegacyResolver`):
   - `${NAME}` substitution over the tokens of `Templates`;
   - the `${#}` version number, taken from a directory listing.
3. **The preview registry** (`PreviewStore`, and the older
   `LegacyPreviewStore`). It holds the running OpenSCAD processes, at most one
   per document and kind (GUI preview or export).
4. **The URI file-name helpers** of `src/utils.ts` (`UriUtils`).
5. **Log-level gating** of the output channel (`Logging`).

Shared vocabulary:
- `Base`: options, results, URIs, JavaScript string functions.
- `Paths`: a simplified POSIX `node:path`.
- `Ast`: the syntax tree. It is a flat array in traversal order, and every
  node's container comes before the node.

The file system, the clock and the workspace folder are parameters:
- `ExportDir` says what the export directory holds;
- `Host` gives the workspace folder and the formatted dates.

Where the code and its tests or comments disagree:
- `scad-scope-computation.ts` registers parameters on the definition node.
  The test suite expects them on the definition's body. The model follows
  the code.
- `variable-resolver.ts:186` replaces only the first `/` or `:` of a
  formatted date. The comments at lines 177-178 and 185 say every one.
- `uriFileNameNoExt` in `utils.ts` is, by its name, the file name without
  its extension (its comment only repeats "Returns the filename"). The code
  cuts at the last `.` of the whole path.

The last two are listed under Findings. Each is modelled as written, with a
corrected variant beside it. `ExportResolver.Evaluate`, and through it
`ExportResolver.ResolveString`, use the corrected date replacement; they
differ from the code exactly when a formatted date holds two or more
separators (see "## Left out").

## Model

| member | source | states |
|---|---|---|
| MultiMaps.Add | src/language-server/scad-scope-computation.ts:45 | `add(key, value)` appends the value to that key's values and to no other key's |
| MultiMaps.AddKeys | src/language-server/scad-scope-computation.ts:45 | `add` introduces exactly the added key and no other |
| MultiMaps.AddValid | src/language-server/scad-scope-computation.ts:45 | `add` keeps one bucket per key and never leaves a bucket empty |
| MultiMaps.AddSize | src/language-server/scad-scope-computation.ts:45 | `add` grows the contents by exactly the added description |
| MultiMaps.AddAll | src/language-server/scad-scope-computation.ts:19 | `addAll(key, values)` appends all values, in order, under that key only |
| MultiMaps.AddAllSize | src/language-server/scad-scope-computation.ts:19 | `addAll` grows the contents by exactly the added values, as a multiset |
| MultiMaps.AddAllKeys | src/language-server/scad-scope-computation.ts:19 | `addAll` introduces the key when the values are non-empty; every bucket passed at line 19 is non-empty, so this agrees with Langium, which also creates a key for empty values |
| DescriptionProvider.Unquote | src/language-server/scad-ast-node-description-provider.ts:14 | the path literal loses its first and last character; shorter literals follow `substring`'s clamping and swapping |
| DescriptionProvider.CreateDescriptions | src/language-server/scad-ast-node-description-provider.ts:7-24 | Langium's own descriptions are kept as a prefix; only appends follow |
| DescriptionProvider.CreateDescriptionsMembership | src/language-server/scad-ast-node-description-provider.ts:11-22 | a description is exported iff it is a base description, the resolved target of a `use`/`include`, or the variable of an assignment directly under the root |
| DescriptionProvider.CreateDescriptionsCount | src/language-server/open-scad-ast-node-description-provider.ts:12-20 | the number of appended descriptions is the number of `use`/`include` nodes plus the number of top-level assignments |
| DescriptionProvider.ImportTargetAbsolute | src/language-server/scad-ast-node-description-provider.ts:14 | in a document with an absolute path every import is exported under an absolute path |
| DescriptionProvider.ImportTargetExample | src/language-server/scad-ast-node-description-provider.ts:14 | `use <lib/util.scad>` in `/w/main.scad` is exported as `/w/lib/util.scad` |
| ScopeComputation.ParamDescriptions | src/language-server/scad-scope-computation.ts:36-37 | one description per parameter, naming that parameter's variable, in parameter order |
| ScopeComputation.ContributionByKind | src/language-server/scad-scope-computation.ts:24-51 | per case: a variable definition adds nothing; a definition adds its parameters under itself; an assignment adds its variable under its container; a named node adds itself under its container; no other key receives anything |
| ScopeComputation.ProcessNodeGet | src/language-server/scad-scope-computation.ts:24-52 | processing a node only appends its contribution under each key |
| ScopeComputation.LocalScopesUpToMembership | src/language-server/scad-scope-computation.ts:24-52 | before hoisting, a description is listed under a key iff some processed node registers it there |
| ScopeComputation.NothingAheadOfTraversal | src/language-server/scad-scope-computation.ts:24-52 | nothing is registered under a node before the traversal reaches it |
| ScopeComputation.EntriesOnlyGrow | src/language-server/scad-scope-computation.ts:24-52 | later processing only extends the list under a key |
| ScopeComputation.ParametersOnDefinitionNode | src/language-server/scad-scope-computation.ts:30-39 | a module, function or inline function has its parameters as the first entries on its own node, in order |
| ScopeComputation.AssignmentOnContainer | src/language-server/scad-scope-computation.ts:41-47 | an assignment's variable is registered on the assignment's container, and not on the assignment by the assignment |
| ScopeComputation.VariableDefinitionRegistersNothing | src/language-server/scad-scope-computation.ts:26-28 | a variable definition that no assignment or parameter owns is never registered anywhere |
| ScopeComputation.OutermostBlock | src/language-server/scad-scope-computation.ts:14-18 | the climb stops at a block whose container is not a block, and passes only blocks |
| ScopeComputation.HoistTargetFixed | src/language-server/scad-scope-computation.ts:12-18 | the target of a target is itself |
| ScopeComputation.HoistGet | src/language-server/scad-scope-computation.ts:11-20 | after hoisting, a node holds the entries of every key whose target it is, in key order |
| ScopeComputation.HoistPreservesEntries | src/language-server/scad-scope-computation.ts:11-20 | hoisting neither loses nor duplicates a description (same size, same multiset) |
| ScopeComputation.ComputeScopeKeepsEntries | src/language-server/scad-scope-computation.ts:7-22 | `computeScope` holds exactly the descriptions of the default computation |
| ScopeComputation.HoistIdempotent | src/language-server/scad-scope-computation.ts:11-20 | hoisting its own output changes nothing |
| ScopeComputation.NestedBlockEntriesMoveUp | src/language-server/scad-scope-computation.ts:14-18 | a nested block's entries end up on the outermost block of its chain, and a block inside a block keeps nothing |
| ScopeComputation.NonBlockEntriesStay | src/language-server/scad-scope-computation.ts:11-19 | entries on a node that is not a block stay exactly as they were |
| ScopeComputation.ParametersOnDefinitionAfterHoisting | src/language-server/scad-scope-computation.ts:30-39 | after hoisting, parameters are still the first entries of the definition node |
| ScopeComputation.ModuleParameterExample | src/language-server/scad-scope-computation.ts:36-37 | for `module m(a) { }` the parameter sits on the module node, the module on the root, and nothing on the body |
| IncludeGraph.Targets | src/language-server/scad-scope-provider.ts:114-115 | `includeMap.get(p)` holds exactly the files `p` includes |
| IncludeGraph.ExploreCharacterised | src/language-server/scad-scope-provider.ts:117-126 | the worklist loop returns the seed plus every file reachable from the start without passing the seed |
| IncludeGraph.IncludeFilesCharacterised | src/language-server/scad-scope-provider.ts:117-126 | the include set is the file itself plus every file it reaches through one or more includes |
| IncludeGraph.IncludeTransitive | src/language-server/scad-scope-provider.ts:117-126 | what an included file includes is in the include set |
| IncludeGraph.LegacyIncludeFilesCharacterised | src/language-server/open-scad-scope-provider.ts:56-65 | the older set is the one-character strings of the path plus what the path reaches avoiding them |
| IncludeGraph.LegacyOmitsOwnFile | src/language-server/open-scad-scope-provider.ts:56 | a file of more than one character that nothing includes is not in its own older include set |
| IncludeGraph.DirectIncludesAdmitted | src/language-server/open-scad-scope-provider.ts:57-65 | both providers admit every file the document includes directly |
| ScopeProvider.FirstNamed | src/language-server/scad-scope-provider.ts:102-104 | a stream scope yields the first description with the name, or nothing iff none has it |
| ScopeProvider.Lookup | src/language-server/scad-scope-provider.ts:79-83 | the chain of scopes answers from the first layer that has the name |
| ScopeProvider.LookupFlat | src/language-server/scad-scope-provider.ts:79-83 | the chained scopes behave as one stream of all layers concatenated |
| ScopeProvider.ExprIfDirectFrom | src/language-server/scad-scope-provider.ts:19-30 | the result is the first expression above the node when no node up to it has more than one child; nothing otherwise |
| ScopeProvider.CallSiteOnChain | src/language-server/scad-scope-provider.ts:43-52 | the node checked for a call suffix is the reference itself or the node directly around a parenthesised expression on the reference's chain: one pair of parentheses is looked through |
| Ast.ChainStep | src/language-server/scad-scope-provider.ts:73-74 | each chain node is followed by its container, and only the root ends the chain |
| ScopeProvider.RequestedTypes | src/language-server/scad-scope-provider.ts:38-62 | function definitions are requested iff the reference asks for them or a variable reference from a primary, unwrapped of at most one parenthesis, is a call target |
| ScopeProvider.LocalLayers | src/language-server/scad-scope-provider.ts:64-75 | at most one layer per node of the chain, each holding only descriptions of a requested type |
| ScopeProvider.LocalLayersShape | src/language-server/scad-scope-provider.ts:64-75 | one layer for each chain node whose bucket is non-empty, in chain order (an empty bucket gives no layer); layer `k` is exactly the admitted part of that node's bucket |
| ScopeProvider.LocalSource | src/language-server/scad-scope-provider.ts:64-83 | a name found in the local layers comes from the bucket of the first chain node that holds an admitted description of that name |
| ScopeProvider.LocalLayersMembership | src/language-server/scad-scope-provider.ts:64-75 | the local layers hold exactly the admitted entries of the node and its containers |
| ScopeProvider.TypedElements | src/language-server/scad-scope-provider.ts:128-129 | all indexed descriptions of a requested type, and nothing else |
| ScopeProvider.IncludeEdges | src/language-server/scad-scope-provider.ts:114-115 | one edge from each indexed `include` statement's file to its target |
| ScopeProvider.GlobalElements | src/language-server/scad-scope-provider.ts:109-137 | a declaration is global iff it is of a requested type and lies in the include set, or is a module or function in a used file |
| ScopeProvider.BuiltinElements | src/language-server/scad-scope-provider.ts:92-97 | the built-in layer is exactly the requested-type declarations under `<extension>/builtin` |
| ScopeProvider.GetScope | src/language-server/scad-scope-provider.ts:32-84 | the local layers of the chain come first (none when there are no precomputed scopes), then the global layer, then the built-in layer |
| ScopeProvider.ScopeOnlyRequestedTypes | src/language-server/scad-scope-provider.ts:62-71 | whatever a lookup finds has the name asked for and one of the requested types |
| ScopeProvider.ScopeAdmits | src/language-server/scad-scope-provider.ts:69-71 | every layer holds only descriptions of the requested types |
| ScopeProvider.LocalDeclarationWins | src/language-server/scad-scope-provider.ts:80-83 | a local declaration of the name hides every global and built-in one |
| ScopeProvider.InnermostWins | src/language-server/scad-scope-provider.ts:64-83 | shadowing: given an admitted declaration at chain position `j`, the lookup finds one from position `j` or further in, and no position further in than the result holds an admitted declaration of that name |
| ScopeProvider.BuiltinFallback | src/language-server/scad-scope-provider.ts:77-83 | with no local or global declaration, the built-in one is found |
| ScopeProvider.UseExposesOnlyDefinitions | src/language-server/scad-scope-provider.ts:132-135 | a global declaration from outside the include set is a module or function in a file the document `use`s |
| ScopeProvider.IncludeIsTransitive | src/language-server/scad-scope-provider.ts:117-126 | declarations of a file included by an included file are globally visible |
| ScopeProvider.UseIsNotTransitive | src/language-server/scad-scope-provider.ts:112 | a file neither used by the document nor in its include set contributes nothing |
| ScopeProvider.OwnFileGloballyVisible | src/language-server/scad-scope-provider.ts:117 | the document's own exported declarations are in its global layer |
| LegacyScopeProvider.LegacyLocalLayersSubtypes | src/language-server/open-scad-scope-provider.ts:19-29 | local layers keep only subtypes of the single reference type |
| LegacyScopeProvider.LegacyLocalMembership | src/language-server/open-scad-scope-provider.ts:19-29 | a description in a local layer is a subtype of the reference type and lies in the bucket of a container on the chain |
| LegacyScopeProvider.LegacyGlobalElements | src/language-server/open-scad-scope-provider.ts:48-76 | a declaration is global iff it has the reference type and lies in the older include set, or is a module or function in a used file |
| LegacyScopeProvider.LegacyGetScope | src/language-server/open-scad-scope-provider.ts:14-36 | the local layers of the chain (none when there are no precomputed scopes) are chained over the global layer, with nothing after it |
| LegacyScopeProvider.LegacyInnermostWins | src/language-server/open-scad-scope-provider.ts:19-35 | shadowing in the older provider: the innermost declaration of a subtype of the reference type wins |
| LegacyScopeProvider.LegacyScopeSplit | src/language-server/open-scad-scope-provider.ts:19-35 | the older scope is the newer provider's local layers for the one reference type, followed by the rest |
| LegacyScopeProvider.LocalLayersAgree | src/language-server/open-scad-scope-provider.ts:19-29 | for one requested type both providers build the same local layers |
| LegacyScopeProvider.LocalLayersAgreeOutsideCalls | src/language-server/open-scad-scope-provider.ts:23-24 | when the newer provider folds in no functions, both build the same local layers |
| LegacyScopeProvider.LegacyFindsOnlyLocalIncludedOrUsed | src/language-server/open-scad-scope-provider.ts:66-75 | whatever the older lookup finds has the reference type and is local, included or used; nothing built-in is found |
| LegacyScopeProvider.LegacyScopeMember | src/language-server/open-scad-scope-provider.ts:14-36 | every layer member has the reference type and is local or globally visible |
| LegacyScopeProvider.LegacyOmitsOwnDeclarations | src/language-server/open-scad-scope-provider.ts:56 | a document nothing includes does not see its own top-level variables through the global layer |
| Templates.CloseBrace | src/export/variable-resolver.ts:28 | the lazy `(.*?)` closes at the first `}` reachable without a line terminator, and at no `}` when none is |
| Templates.RenderTokenize | src/export/variable-resolver.ts:67-77 | splitting a pattern into text and `${NAME}` matches loses nothing: the tokens spell the pattern again |
| Templates.TokenizeRender | src/export/variable-resolver.ts:67-77 | canonical tokens spelled out are read back as the same tokens |
| Templates.SubstituteAppend | src/export/variable-resolver.ts:67-77 | matches are replaced independently: substitution distributes over concatenation |
| Templates.ReplaceVariablesKeeps | src/export/variable-resolver.ts:167-170 | when every name evaluates to its own `${NAME}` text, the pattern is unchanged |
| Templates.ReplaceAllAbsent | src/export/variable-resolver.ts:103-106 | without a `${#}` the global replace changes nothing |
| Templates.ReplaceAllExample | src/export/variable-resolver.ts:103-106 | the global replace fills every `${#}`, not only the first |
| Templates.FindFirstContains | src/export/variable-resolver.ts:195 | the first occurrence exists iff the pattern contains `${#}` |
| Templates.NatToString | src/export/variable-resolver.ts:105 | `String(n)` is a non-empty run of digits without a leading zero for positive `n` |
| Templates.DigitsRoundTrip | src/export/variable-resolver.ts:236 | `Number(String(n)) == n` |
| Templates.ParseVersionPattern | src/export/variable-resolver.ts:199-205 | the basename splits around its first `${#}` into prefix and suffix, or is a literal when it has none |
| Templates.CaptureOfRendered | src/export/variable-resolver.ts:199-205 | a file named `prefix + String(n) + suffix` reads back as version `n` |
| ExportResolver.FileBasenameNoExtension | src/export/variable-resolver.ts:21-23 | the result followed by the extension is the basename |
| ExportResolver.ReplaceFirstSeparatorPointwise | src/export/variable-resolver.ts:186 | as written: the first `/` or `:` becomes `_` and every later one is kept |
| ExportResolver.ReplaceFirstSeparatorKeepsSecond | src/export/variable-resolver.ts:186 | `2024/05/06` becomes `2024_05/06` |
| ExportResolver.ReplaceSeparatorsPointwise | src/export/variable-resolver.ts:185 | corrected: every `/` and `:` becomes `_` and nothing else changes |
| ExportResolver.ReplaceSeparatorsReplacesBoth | src/export/variable-resolver.ts:185 | corrected: a date `y/m/d` whose parts hold no separator becomes `y_m_d` |
| ExportResolver.ReplaceSeparatorsLeavesNone | src/export/variable-resolver.ts:185 | the corrected replacement leaves no separator |
| ExportResolver.ReplacementsAgreeOnOneSeparator | src/export/variable-resolver.ts:186 | with at most one separator the two replacements agree |
| ExportResolver.EvaluateDateTimeAsWritten | src/export/variable-resolver.ts:182-187 | as written: the formatted date, same length, with only its first separator replaced |
| ExportResolver.EvaluateDateTime | src/export/variable-resolver.ts:182-187 | corrected: the formatted date, same length, with no separator left |
| ExportResolver.DateFormatField | src/export/variable-resolver.ts:183 | the format is the text between the first and second colon |
| ExportResolver.Evaluate | src/export/variable-resolver.ts:130-172 | an unknown name other than `date:…` is returned as its `${NAME}` text |
| ExportResolver.EvaluateAsWrittenOnOneSeparator | src/export/variable-resolver.ts:182-187 | when the formatted date holds at most one `/` or `:`, the corrected evaluation equals the code as written |
| ExportResolver.ExportExtensionValue | src/export/variable-resolver.ts:165-166 | `${exportExtension}` is the given extension, `scad` when none is given |
| ExportResolver.OutsideWorkspace | src/export/variable-resolver.ts:147-150 | without a workspace folder `${workspaceFolder}` stays as written and `${workspaceFolderBasename}` is empty |
| ExportResolver.MarkerSurvivesVariables | src/export/variable-resolver.ts:167-170 | `${#}` survives the first pass unchanged |
| ExportResolver.UnknownNamesKept | src/export/variable-resolver.ts:167-170 | a pattern naming no known variable comes through the first pass unchanged |
| ExportResolver.DefaultPatternName | src/export/variable-resolver.ts:48-49 | without a pattern the name is the file's basename without extension, a dot, and the extension |
| ExportResolver.BareNameBesideDocument | src/export/variable-resolver.ts:209-211 | a bare file name is exported into the document's directory |
| ExportResolver.GetVersionNumber | src/export/variable-resolver.ts:190-253 | -1 exactly without a marker; otherwise -3 or a version of at least 1, or a failure |
| ExportResolver.VersionIn | src/export/variable-resolver.ts:213-250 | the directory step fails iff the directory cannot be created, is read-only, or cannot be listed; otherwise it gives -3 or a version of at least 1 |
| ExportResolver.ResolveString | src/export/variable-resolver.ts:59-108 | without a marker the first pass is the result; otherwise every `${#}` holds one version of at least 1 |
| ExportResolver.NoMarkerNoFileSystem | src/export/variable-resolver.ts:87-88 | without a marker the file system plays no part |
| ExportResolver.VersionExceedsExisting | src/export/variable-resolver.ts:235-250 | the chosen version exceeds every version in the listing |
| ExportResolver.FirstVersionIsOne | src/export/variable-resolver.ts:214-219 | a directory that must be created, or an empty one, gives version 1 |
| ExportResolver.FailsExactly | src/export/variable-resolver.ts:214-231 | resolution fails iff there is a marker and the directory cannot be created, is not writable, or cannot be listed |
| ExportResolver.VersionsOfRenderedFiles | src/export/variable-resolver.ts:235-237 | files named after the pattern read back as the versions they were written with |
| ExportResolver.NextVersionNumber | src/export/variable-resolver.ts:243-250 | after exports numbered `ns` the next version is `max(ns) + 1` |
| ExportResolver.NextExportName | src/export/variable-resolver.ts:59-108 | after exports numbered `ns` the next export name carries `max(ns) + 1` |
| LegacyResolver.Evaluate | src/variableResolver.ts:121-156 | a name without a case is returned as its `${NAME}` text |
| LegacyResolver.EvaluateAgrees | src/variableResolver.ts:130-155 | with a usable workspace folder and a non-empty extension, both versions evaluate every non-date name alike |
| LegacyResolver.EvaluateDiffers | src/variableResolver.ts:131-151 | an empty extension, `date` and an empty workspace folder stay as written in the older version only |
| LegacyResolver.ReplacedAgrees | src/variableResolver.ts:65-77 | for a pattern without date variables, the two first passes agree |
| LegacyResolver.DefaultPatternName | src/variableResolver.ts:46-47 | the default pattern names the export after the document; an empty extension leaves `${exportExtension}` |
| LegacyResolver.JsMax | src/variableResolver.ts:200 | `Math.max` is NaN iff an argument is, else the larger argument |
| LegacyResolver.ReduceBounded | src/variableResolver.ts:194-204 | the running maximum never falls below its start, unless it is NaN |
| LegacyResolver.ReduceNaN | src/variableResolver.ts:194-204 | once NaN, the maximum stays NaN |
| LegacyResolver.ReduceWithCapture | src/variableResolver.ts:194-204 | with a capture group, the fold computes the current version's maximum |
| LegacyResolver.GetVersionNumber | src/variableResolver.ts:159-219 | -1 without a marker; failure iff the directory cannot be created or listed; otherwise NaN or at least 1 |
| LegacyResolver.VersionIn | src/variableResolver.ts:181-216 | the directory step fails iff the directory cannot be created or cannot be listed (read-only directories are listed anyway); otherwise NaN or at least 1 |
| LegacyResolver.ResolveString | src/variableResolver.ts:57-100 | without a marker the first pass is the result; otherwise `${#}` becomes `NaN` or a version of at least 1 |
| LegacyResolver.SameVersionAsCurrent | src/variableResolver.ts:182-216 | on a creatable or writable directory both versions choose the same version number |
| LegacyResolver.ResolveAgrees | src/variableResolver.ts:57-100 | with the same first pass and such a directory, both versions produce the same name |
| LegacyResolver.LiteralPatternGivesNaN | src/variableResolver.ts:197-200 | a marker only in a directory name and a listed file containing the basename make the version NaN |
| LegacyResolver.ReadOnlyDirectory | src/variableResolver.ts:182 | a read-only existing directory fails the current version and not the older one |
| PreviewStore.Launch | src/preview/preview.ts:20-36 | the command line is the executable's arguments, the given arguments, then the file path; the preview starts running |
| PreviewStore.Exit | src/preview/preview.ts:71 | the process exit clears `isRunning` and nothing else |
| PreviewStore.DisposeKillsOnlyRunning | src/preview/preview.ts:84-89 | `dispose` kills a freshly launched preview and never an exited one |
| PreviewStore.CommandArgumentsRoundTrip | src/preview/preview.ts:32-36 | the caller's arguments can be read back from the command line |
| PreviewStore.HasGui | src/preview/preview-store.ts:166-168 | true iff the arguments are absent or none is `-o`/`--o` |
| PreviewStore.HasOutputFlag | src/preview/preview-store.ts:167 | true iff some argument is `-o` or `--o` |
| PreviewStore.Init | src/preview/preview-store.ts:37-44 | an empty, valid store whose limit is the argument, 0 by default |
| PreviewStore.FirstMatch | src/preview/preview-store.ts:51-55 | the position of the first matching preview; none iff no preview matches |
| PreviewStore.Get | src/preview/preview-store.ts:50-57 | a stored preview matching document and kind; nothing iff none matches |
| PreviewStore.Add | src/preview/preview-store.ts:60-64 | a new object is appended and an object already held is ignored; the context key is set |
| PreviewStore.CreateAndAdd | src/preview/preview-store.ts:67-94 | an existing match leaves the store unchanged; otherwise the launched preview is appended |
| PreviewStore.CreateAndAddFinds | src/preview/preview-store.ts:79-93 | validity and one-per-kind are kept, and `get` finds the new preview |
| PreviewStore.Remove | src/preview/preview-store.ts:98 | exactly the other objects stay, one fewer when the object was held |
| PreviewStore.Delete | src/preview/preview-store.ts:97-109 | the preview is removed and the others are untouched; it is killed iff running; the context key follows emptiness |
| PreviewStore.DeleteAll | src/preview/preview-store.ts:112-124 | the store is empty, the context key cleared, and every running preview killed |
| PreviewStore.RunningIds | src/preview/preview-store.ts:113-117 | exactly the identities of running previews |
| PreviewStore.Exited | src/preview/preview-store.ts:62 | the exit callback removes the preview and leaves the context key as it was |
| PreviewStore.LastExitLeavesKeySet | src/preview/preview-store.ts:62 | after the last preview exits by itself the key stays set, while `delete` clears it |
| PreviewStore.SetMaxPreviews | src/preview/preview-store.ts:175-181 | the limit reads back as set and nothing else changes |
| PreviewStore.GetUris | src/preview/preview-store.ts:127-137 | the documents of the previews, in order |
| PreviewStore.GetWithKindIsTheOnlyOne | src/preview/preview-store.ts:50-57 | in a one-per-kind store `get` with a kind finds the one stored preview of that kind |
| LegacyPreviewStore.GetPreviewType | src/previewStore.ts:150-154 | `output` iff some argument is `-o` or `--o` |
| LegacyPreviewStore.PreviewTypeIsHasGui | src/previewStore.ts:150-154 | the older preview type is `view` exactly when the current `hasGui` holds |
| LegacyPreviewStore.Construct | src/preview.ts:35-47 | the type defaults to `view`; the command line is the arguments then the file path |
| LegacyPreviewStore.Create | src/preview.ts:116-139 | nothing iff the OpenSCAD path is invalid; a missing type is inferred from the arguments |
| LegacyPreviewStore.SameCommandLine | src/preview.ts:45-47 | without executable arguments both versions launch the same command line |
| LegacyPreviewStore.MatchUriIsMatch | src/preview.ts:91-96 | `matchUri` is the current `match` with the kind given, `view` when omitted |
| LegacyPreviewStore.Init | src/previewStore.ts:35-38 | an empty valid store; a falsy limit becomes 0 |
| LegacyPreviewStore.Get | src/previewStore.ts:42-52 | a stored preview matching document and type (`view` by default); nothing iff none matches |
| LegacyPreviewStore.GetWithoutType | src/previewStore.ts:42-52 | asked without a type, the older `get` misses an export that the current `get` finds |
| LegacyPreviewStore.CreateAndAdd | src/previewStore.ts:62-78 | an existing match or an invalid path leaves the store unchanged; otherwise the new preview is appended |
| LegacyPreviewStore.CreateAndAddFinds | src/previewStore.ts:62-78 | validity and one-per-kind are kept, and `get` with the type finds the new preview |
| LegacyPreviewStore.CreateAndAddAgrees | src/previewStore.ts:62-78 | with a valid path and no executable arguments, both versions produce the same store and preview |
| UriUtils.UriFileName | src/utils.ts:5 | nothing iff the scheme is not `file`; otherwise the slash-free suffix after the path's last `/` |
| UriUtils.FileNameOfPath | src/utils.ts:5 | a path ending in `/name` names `name` |
| UriUtils.UriFileNameNoExtAsWritten | src/utils.ts:10-11 | as written: nothing iff `uriFileName` gives nothing; the prefix of the file name whose length is the index of the last `.` in the whole path, clamped to the name's length |
| UriUtils.AsWrittenKeepsMore | src/utils.ts:10-11 | for every file URI with a `/` in its path and a `.` in its file name, the code as written keeps strictly more than the intended name without extension, which is a prefix of it |
| UriUtils.NoExtCutsInPath | src/utils.ts:11 | `/x/foo.scad` gives `foo.sc` |
| UriUtils.UriFileNameNoExt | src/utils.ts:10-11 | corrected: a prefix of the file name ending just before a `.` with no `.` after it; the whole name only when it has no `.` |
| UriUtils.NoExtRoundTrip | src/utils.ts:10-11 | corrected: `dir/base.ext` gives `base` |
| Logging.Init | src/logging-service.ts:17 | the default level is `Info` |
| Logging.SetOutputLevel | src/logging-service.ts:19-21 | the level reads back as set |
| Logging.EmitsIffAtThreshold | src/logging-service.ts:28-83 | the four separate guards amount to one severity threshold |
| Logging.SeverityNesting | src/logging-service.ts:28-83 | whenever a call emits, every more severe call emits too |
| Logging.DefaultLevelSilencesDebugOnly | src/logging-service.ts:17 | the default level silences debug messages and nothing else |
| Logging.Log | src/logging-service.ts:28-99 | nothing iff the level silences the call; else a titled line first, and, outside `logError`, a second line iff the extra value is truthy |
| Logging.EmptyStringExtra | src/logging-service.ts:85-88 | `logError` writes an empty string argument; `logInfo` drops it |
| Logging.NoneSilencesAll | src/logging-service.ts:30 | at level `None` no call writes anything |

## Left out

- File, directory, process and editor I/O are parameters or left out: the
  `fs` calls, `child_process`, progress bars, messages, the context key
  call itself, and timestamps in log titles.
- Langium itself (parsing, indexing, `AstReflection.isSubtype`) is taken
  as given: the index is a sequence and the subtype relation is a parameter.
- `node:path` is modelled without normalisation (`..`, `.`, repeated or
  trailing slashes) and without Windows paths; `path.relative` is a host
  value.
- The Windows-only case-insensitive version regexp is left out; matching is
  case-sensitive.
- `escape-string-regexp` is modelled by matching the basename literally.
- ExportResolver.GetVersionNumber: the `lastIndex` state that the global
  `VERSION_FORMAT` regexp keeps between `.test` calls is not modelled; each
  call is taken to search from the start.
- ExportResolver.ResolveString: the `-2` branch is kept but cannot be
  reached, since a rejected listing rejects the whole call.
- ExportResolver.Evaluate: the `date:` branch uses the corrected
  replacement of every `/` and `:`, not the first-only replacement of
  `variable-resolver.ts:186` (`ExportResolver.EvaluateDateTimeAsWritten`);
  the two agree when the formatted date holds at most one separator
  (`ExportResolver.EvaluateAsWrittenOnOneSeparator`).
- ExportResolver.ResolveString: inherits that choice; for a date such as
  `2024/05/06` the code names `2024_05/06…`, one directory deeper, where the
  model names `2024_05_06…`.
- ExportResolver.VersionIn: after `reject(-2)` at
  `variable-resolver.ts:230`, the callback goes on to call `files.map` on
  an undefined `files` and throws; the model stops at the rejection.
- LegacyResolver.GetVersionNumber: after `reject`, the callback goes on to
  read `files` and throws; the model stops at the rejection.
- Version numbers are unbounded integers; `MAX_SAFE_INTEGER` and floating
  point rounding of very long digit runs are not modelled.
- `luxon` date formatting is the host function `formatDate`; `date` is the
  host's ISO date.
- Logging.Json: string escapes of `JSON.stringify` are left out.
- PreviewStore.SetMaxPreviews: a `NaN` limit is not modelled.
- The older `fileBasenameNoExt` is the same function as
  `ExportResolver.FileBasenameNoExtension` and is not modelled twice.
- The older description provider is line for line the same as the current
  one; `DescriptionProvider.CreateDescriptions` models both.
- Named-argument binding and the parts of the language server outside
  name resolution are not part of this model.
- The test suite's expectation that parameters are registered on a
  definition's body is not modelled; the code registers them on the
  definition node, and so does the model.

## Findings

| source | as written | input that shows it | evidently intended | confidence | as-written member | corrected member |
|---|---|---|---|---|---|---|
| src/export/variable-resolver.ts:186 | the regexp `/[/:]/` has no `g` flag, so only the first `/` or `:` becomes `_` | a format giving `2024/05/06` yields `2024_05/06` | every `/` and `:` replaced, as the comment at lines 177-178 and 185 says | not executed | ExportResolver.ReplaceFirstSeparatorKeepsSecond | ExportResolver.ReplaceSeparatorsLeavesNone |
| src/utils.ts:11 | the file name is cut at the index of the last `.` in the whole path | `file:///x/foo.scad` yields `foo.sc` | the file name without its extension, `foo` | not executed | UriUtils.NoExtCutsInPath | UriUtils.NoExtRoundTrip |
