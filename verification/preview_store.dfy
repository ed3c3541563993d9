/** The running OpenSCAD previews and exports (`Preview` in
    src/preview/preview.ts, `PreviewStore` in src/preview/preview-store.ts).

    A preview is one OpenSCAD child process for one document, either with
    its GUI or writing an export (`-o`). The store is a JavaScript `Set` of
    preview objects, iterated in insertion order; here it is a sequence of
    previews with distinct identities. The child process itself, the
    progress bar and the messages shown to the user are not modelled; what
    remains is which previews the store holds and when a process is sent a
    kill signal. */
module PreviewStore {
  import opened Base

  /** The OpenSCAD executable: its path and the arguments it always gets. */
  datatype Executable = Executable(filePath: string, arguments: seq<string>)

  /** A preview object. `id` stands for the object's identity: two previews
      of the same document are still different members of the `Set`. */
  datatype Preview = Preview(id: nat, uri: Uri, hasGui: bool, commandArguments: seq<string>, isRunning: bool)

  /** `new Preview(..., openscadExecutable, uri, hasGui, arguments_ = [])`:
      the process is started with the executable's arguments, then the given
      ones, then the document's path, and is running from then on. */
  function Launch(id: nat, exe: Executable, uri: Uri, hasGui: bool, args: Option<seq<string>>): (p: Preview)
    ensures p.id == id && p.uri == uri && p.hasGui == hasGui && p.isRunning
    ensures |p.commandArguments| == |exe.arguments| + |args.GetOr([])| + 1
    ensures p.commandArguments[..|exe.arguments|] == exe.arguments
    ensures p.commandArguments[|exe.arguments|..|p.commandArguments| - 1] == args.GetOr([])
    ensures p.commandArguments[|p.commandArguments| - 1] == FsPath(uri)
  {
    var cmd := exe.arguments + args.GetOr([]) + [FsPath(uri)];
    assert cmd[|exe.arguments|..|cmd| - 1] == args.GetOr([]);
    Preview(id, uri, hasGui, cmd, true)
  }

  /** `preview.match(uri, hasGui)`: same document, and the same kind unless
      the kind is left open. */
  predicate Match(p: Preview, uri: Uri, hasGui: Option<bool>) {
    p.uri == uri && (hasGui.None? || p.hasGui == hasGui.value)
  }

  /** `preview.dispose()`: whether a kill signal is sent. */
  predicate KillsOnDispose(p: Preview) {
    p.isRunning
  }

  /** The process exits: `isRunning` becomes false (before the `onKilled`
      callbacks run). */
  function Exit(p: Preview): (q: Preview)
    ensures !q.isRunning
    ensures q.id == p.id && q.uri == p.uri && q.hasGui == p.hasGui && q.commandArguments == p.commandArguments
  {
    p.(isRunning := false)
  }

  /** A freshly launched preview is killed by `dispose`; one whose process
      has exited is not. */
  lemma DisposeKillsOnlyRunning(id: nat, exe: Executable, uri: Uri, hasGui: bool, args: Option<seq<string>>, p: Preview)
    ensures KillsOnDispose(Launch(id, exe, uri, hasGui, args))
    ensures !KillsOnDispose(Exit(p))
  {
  }

  /** The arguments the caller passed can be read back from the command line. */
  lemma CommandArgumentsRoundTrip(id: nat, exe: Executable, uri: Uri, hasGui: bool, args: seq<string>)
    ensures var cmd := Launch(id, exe, uri, hasGui, Some(args)).commandArguments;
            cmd == exe.arguments + args + [FsPath(uri)]
  {
    var cmd := Launch(id, exe, uri, hasGui, Some(args)).commandArguments;
    assert cmd == cmd[..|exe.arguments|] + cmd[|exe.arguments|..|cmd| - 1] + [cmd[|cmd| - 1]];
  }

  /** The `-o` / `--o` flags that make OpenSCAD export instead of opening its GUI. */
  predicate IsOutputFlag(a: string) {
    a == "-o" || a == "--o"
  }

  /** `PreviewStore.hasGui(arguments_)`: no output flag among the arguments;
      no arguments at all also means the GUI. */
  function HasGui(args: Option<seq<string>>): (r: bool)
    ensures r <==> args.None? || forall k :: 0 <= k < |args.value| ==> !IsOutputFlag(args.value[k])
  {
    args.None? || !HasOutputFlag(args.value)
  }

  function HasOutputFlag(args: seq<string>): (r: bool)
    ensures r <==> exists k :: 0 <= k < |args| && IsOutputFlag(args[k])
  {
    if |args| == 0 then false
    else
      assert forall k :: 0 < k < |args| ==> args[k] == args[1..][k - 1];
      IsOutputFlag(args[0]) || HasOutputFlag(args[1..])
  }

  /** The store. `areOpen` is the `areOpenScadPreviews` context key the
      store sets; `nextId` supplies identities for previews it creates. */
  datatype Store = Store(previews: seq<Preview>, maxPreviews: int, areOpen: bool, nextId: nat)

  function Ids(ps: seq<Preview>): set<nat> {
    set p | p in ps :: p.id
  }

  /** No preview object occurs twice. */
  predicate DistinctIds(ps: seq<Preview>) {
    |ps| == 0 || (ps[0].id !in Ids(ps[1..]) && DistinctIds(ps[1..]))
  }

  predicate SameKind(p: Preview, q: Preview) {
    p.uri == q.uri && p.hasGui == q.hasGui
  }

  /** At most one preview per document and kind. */
  predicate OnePerKind(ps: seq<Preview>) {
    |ps| == 0 || ((forall q :: q in ps[1..] ==> !SameKind(ps[0], q)) && OnePerKind(ps[1..]))
  }

  /** Distinct identities, all below `nextId`. */
  predicate Valid(s: Store) {
    DistinctIds(s.previews) && forall p :: p in s.previews ==> p.id < s.nextId
  }

  /** What `createAndAdd` guards: one preview per document and kind. */
  predicate Unique(s: Store) {
    OnePerKind(s.previews)
  }

  /** `new PreviewStore(loggingService, context, maxPreviews = 0)` */
  function Init(maxPreviews: Option<int>): (s: Store)
    ensures Valid(s) && Unique(s) && |s.previews| == 0 && !s.areOpen
    ensures s.maxPreviews == maxPreviews.GetOr(0)
  {
    Store([], maxPreviews.GetOr(0), false, 0)
  }

  /** The position of the first preview matching `uri` and `hasGui`. */
  function FirstMatch(ps: seq<Preview>, uri: Uri, hasGui: Option<bool>): (r: Option<nat>)
    ensures r.Some? ==> r.value < |ps| && Match(ps[r.value], uri, hasGui)
    ensures r.Some? ==> forall j :: 0 <= j < r.value ==> !Match(ps[j], uri, hasGui)
    ensures r.None? <==> forall j :: 0 <= j < |ps| ==> !Match(ps[j], uri, hasGui)
  {
    if |ps| == 0 then None
    else if Match(ps[0], uri, hasGui) then Some(0)
    else
      var r := FirstMatch(ps[1..], uri, hasGui);
      assert forall j :: 0 < j < |ps| ==> ps[j] == ps[1..][j - 1];
      if r.Some? then Some(r.value + 1) else None
  }

  /** `store.get(resource, hasGui)`: the first preview, in insertion order,
      that matches. */
  function Get(s: Store, uri: Uri, hasGui: Option<bool>): (r: Option<Preview>)
    ensures r.Some? ==> r.value in s.previews && Match(r.value, uri, hasGui)
    ensures r.None? <==> forall p :: p in s.previews ==> !Match(p, uri, hasGui)
  {
    match FirstMatch(s.previews, uri, hasGui)
    case Some(k) => Some(s.previews[k])
    case None => None
  }

  /** `store.add(preview)`: a `Set` ignores an object it already holds. The
      `onKilled` callback it registers is `Exited` below. */
  function Add(s: Store, p: Preview): (r: Store)
    ensures p.id !in Ids(s.previews) ==> r.previews == s.previews + [p]
    ensures p.id in Ids(s.previews) ==> r.previews == s.previews
    ensures r.areOpen && r.maxPreviews == s.maxPreviews
    ensures r.nextId >= s.nextId && r.nextId > p.id
  {
    Store(if p.id in Ids(s.previews) then s.previews else s.previews + [p],
          s.maxPreviews, true, if p.id >= s.nextId then p.id + 1 else s.nextId)
  }

  /** What `createAndAdd` hands back: the store after the call and the new
      preview, if one was created. */
  datatype Created = Created(store: Store, preview: Option<Preview>)

  /** `store.createAndAdd(openscadExecutable, uri, arguments_)`: nothing when
      a preview of the same document and kind is already there; otherwise a
      new preview is launched and added. */
  function CreateAndAdd(s: Store, exe: Executable, uri: Uri, args: Option<seq<string>>): (r: Created)
    requires Valid(s)
    ensures Get(s, uri, Some(HasGui(args))).Some? ==> r == Created(s, None)
    ensures Get(s, uri, Some(HasGui(args))).None? ==>
              && r.preview.Some?
              && r.preview.value == Launch(s.nextId, exe, uri, HasGui(args), args)
              && r.store.previews == s.previews + [r.preview.value]
              && r.store.maxPreviews == s.maxPreviews && r.store.areOpen
  {
    var hasGui := HasGui(args);
    if Get(s, uri, Some(hasGui)).Some? then Created(s, None)
    else
      var p := Launch(s.nextId, exe, uri, hasGui, args);
      assert p.id !in Ids(s.previews);
      Created(Add(s, p), Some(p))
  }

  /** A new preview is found by `get` with the same document and kind, and
      the store still has at most one preview per document and kind. */
  lemma CreateAndAddFinds(s: Store, exe: Executable, uri: Uri, args: Option<seq<string>>)
    requires Valid(s) && Unique(s)
    ensures var r := CreateAndAdd(s, exe, uri, args);
            && Valid(r.store) && Unique(r.store)
            && Get(r.store, uri, Some(HasGui(args))).Some?
            && (r.preview.Some? ==> Get(r.store, uri, Some(HasGui(args))) == r.preview)
  {
    var r := CreateAndAdd(s, exe, uri, args);
    var g := Some(HasGui(args));
    if r.preview.Some? {
      var p := r.preview.value;
      FirstMatchAppend(s.previews, p, uri, g);
      DistinctIdsAppend(s.previews, p);
      forall q | q in s.previews ensures !SameKind(q, p) {
        assert !Match(q, uri, g);
      }
      OnePerKindAppend(s.previews, p);
    } else {
      var k := FirstMatch(s.previews, uri, g).value;
      assert Get(r.store, uri, g) == Some(s.previews[k]);
    }
  }

  lemma {:induction false} DistinctIdsAppend(ps: seq<Preview>, p: Preview)
    requires DistinctIds(ps) && p.id !in Ids(ps)
    ensures DistinctIds(ps + [p])
  {
    if |ps| > 0 {
      assert (ps + [p])[1..] == ps[1..] + [p];
      assert Ids(ps[1..] + [p]) == Ids(ps[1..]) + {p.id};
      DistinctIdsAppend(ps[1..], p);
    } else {
      assert ps + [p] == [p];
    }
  }

  lemma {:induction false} OnePerKindAppend(ps: seq<Preview>, p: Preview)
    requires OnePerKind(ps) && forall q :: q in ps ==> !SameKind(q, p)
    ensures OnePerKind(ps + [p])
  {
    if |ps| > 0 {
      assert (ps + [p])[1..] == ps[1..] + [p];
      OnePerKindAppend(ps[1..], p);
    } else {
      assert ps + [p] == [p];
    }
  }

  lemma {:induction false} FirstMatchAppend(ps: seq<Preview>, p: Preview, uri: Uri, hasGui: Option<bool>)
    requires FirstMatch(ps, uri, hasGui).None? && Match(p, uri, hasGui)
    ensures FirstMatch(ps + [p], uri, hasGui) == Some(|ps|)
  {
    if |ps| > 0 {
      assert (ps + [p])[1..] == ps[1..] + [p];
      FirstMatchAppend(ps[1..], p, uri, hasGui);
    }
  }

  /** What `delete` and `deleteAll` hand back: the store after the call and
      the identities of the previews sent a kill signal, in order. */
  datatype Deleted = Deleted(store: Store, killed: seq<nat>)

  /** The previews other than the object with identity `id`, in order. */
  function Remove(ps: seq<Preview>, id: nat): (r: seq<Preview>)
    ensures forall q :: q in r <==> q in ps && q.id != id
    ensures DistinctIds(ps) ==> DistinctIds(r) && |r| == (if id in Ids(ps) then |ps| - 1 else |ps|)
    ensures OnePerKind(ps) ==> OnePerKind(r)
  {
    if |ps| == 0 then []
    else
      var rest := Remove(ps[1..], id);
      assert forall q :: q in ps <==> q == ps[0] || q in ps[1..];
      assert id in Ids(ps) <==> ps[0].id == id || id in Ids(ps[1..]);
      if ps[0].id == id then rest
      else
        assert ([ps[0]] + rest)[1..] == rest;
        [ps[0]] + rest
  }

  /** `store.delete(preview)`: the preview is disposed of and leaves the
      store; the context key is cleared once the store is empty. */
  function Delete(s: Store, p: Preview): (r: Deleted)
    ensures forall q :: q in r.store.previews <==> q in s.previews && q.id != p.id
    ensures Valid(s) ==> |r.store.previews| == (if p.id in Ids(s.previews) then |s.previews| - 1 else |s.previews|)
    ensures Valid(s) ==> Valid(r.store)
    ensures Unique(s) ==> Unique(r.store)
    ensures r.store.areOpen == (s.areOpen && |r.store.previews| > 0)
    ensures r.killed == if p.isRunning then [p.id] else []
    ensures r.store.maxPreviews == s.maxPreviews && r.store.nextId == s.nextId
  {
    var rest := Remove(s.previews, p.id);
    Deleted(s.(previews := rest, areOpen := s.areOpen && |rest| > 0), if p.isRunning then [p.id] else [])
  }

  /** `store.deleteAll()`: every preview is disposed of, in order, and the
      store is emptied. */
  function DeleteAll(s: Store): (r: Deleted)
    ensures |r.store.previews| == 0 && !r.store.areOpen
    ensures forall id :: id in r.killed <==> exists p :: p in s.previews && p.isRunning && p.id == id
    ensures r.store.maxPreviews == s.maxPreviews && r.store.nextId == s.nextId
  {
    Deleted(s.(previews := [], areOpen := false), RunningIds(s.previews))
  }

  function RunningIds(ps: seq<Preview>): (r: seq<nat>)
    ensures forall id :: id in r <==> exists p :: p in ps && p.isRunning && p.id == id
  {
    if |ps| == 0 then []
    else
      assert forall p :: p in ps <==> p == ps[0] || p in ps[1..];
      (if ps[0].isRunning then [ps[0].id] else []) + RunningIds(ps[1..])
  }

  /** The `onKilled` callback `add` registers: when a preview's process
      exits, the preview leaves the store. Unlike `delete`, it does not
      clear the context key. */
  function Exited(s: Store, p: Preview): (r: Store)
    ensures forall q :: q in r.previews <==> q in s.previews && q.id != p.id
    ensures r.areOpen == s.areOpen && r.maxPreviews == s.maxPreviews && r.nextId == s.nextId
  {
    s.(previews := Remove(s.previews, p.id))
  }

  /** When the last preview exits by itself, the store is empty but the
      context key still says previews are open; `delete` would have cleared it. */
  lemma LastExitLeavesKeySet(s: Store, p: Preview)
    requires s.areOpen && s.previews == [p]
    ensures |Exited(s, p).previews| == 0 && Exited(s, p).areOpen
    ensures !Delete(s, p).store.areOpen
  {
    assert Ids(s.previews) == {p.id};
  }

  /** The `maxPreviews` setter: it reads back the value set and changes nothing else. */
  function SetMaxPreviews(s: Store, n: int): (r: Store)
    ensures r.maxPreviews == n
    ensures r.previews == s.previews && r.areOpen == s.areOpen && r.nextId == s.nextId
  {
    s.(maxPreviews := n)
  }

  /** `store.getUris()`: the documents of the previews, in order. */
  function GetUris(s: Store): (r: seq<Uri>)
    ensures |r| == |s.previews|
    ensures forall k :: 0 <= k < |r| ==> r[k] == s.previews[k].uri
  {
    seq(|s.previews|, k requires 0 <= k < |s.previews| => s.previews[k].uri)
  }

  /** A store built from `createAndAdd` alone never holds two previews of
      the same document and kind; `get` with a kind finds the one there is. */
  lemma GetWithKindIsTheOnlyOne(s: Store, uri: Uri, hasGui: bool, p: Preview)
    requires Unique(s) && p in s.previews && p.uri == uri && p.hasGui == hasGui
    ensures Get(s, uri, Some(hasGui)) == Some(p)
  {
    OnlyMatch(s.previews, uri, hasGui, p);
  }

  lemma {:induction false} OnlyMatch(ps: seq<Preview>, uri: Uri, hasGui: bool, p: Preview)
    requires OnePerKind(ps) && p in ps && p.uri == uri && p.hasGui == hasGui
    ensures FirstMatch(ps, uri, Some(hasGui)).Some?
    ensures ps[FirstMatch(ps, uri, Some(hasGui)).value] == p
  {
    if ps[0] != p {
      assert p in ps[1..];
      assert !Match(ps[0], uri, Some(hasGui));
      OnlyMatch(ps[1..], uri, hasGui, p);
    }
  }
}
