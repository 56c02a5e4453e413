/** The CommonJS loader of `crates/node/polyfills/01_require.js`: its two caches, the `children` lists and
    the loads in progress, as a state machine. A load in progress is a frame: `_load` between its call of
    `module.load` and its `finally` block. */
module Loader {
  import opened Common
  import opened Lexical

  type ModuleId = nat

  datatype Parent = Undefined | Null | Module(id: ModuleId)

  /** A key of `relativeResolveCache`; with a null parent the key is the text "undefined". */
  datatype Key = NullParent | Key(path: string, request: string)

  datatype ModuleRecord = ModuleRecord(id: string, path: string, loaded: bool, children: seq<ModuleId>)

  datatype Frame = Frame(file: string, mod: ModuleId, parent: Parent, key: Option<Key>, required: bool)

  datatype LogEntry = Started(file: string) | Finished(file: string) | Threw(file: string)

  /** What `_resolveFilename` and `loadNativeModule` answer: no file, a name with the "node:" scheme, or a
      name that may still be a native module. */
  datatype Resolution = NotFound | NodeScheme(known: bool) | File(name: string, native: bool)

  /** What a call of `_load` gives at once, or that it started the body of a new module. */
  datatype Outcome =
    Exports(mod: ModuleId) | PartialExports(mod: ModuleId) | NativeExports | Error | Running(mod: ModuleId)

  datatype State = State(
    cache: map<string, ModuleId>,
    relative: map<Key, string>,
    modules: seq<ModuleRecord>,
    stack: seq<Frame>,
    requireDepth: int,
    log: seq<LogEntry>)

  const INITIAL := State(map[], map[], [], [], 0, [])

  // ----- operations -----

  /** `pathDirname`, for a name without doubled or trailing slashes. */
  function Dirname(file: string): string {
    var k := LastIndexOf(file, '/');
    if file == "" then "." else if k < 0 then "" else if k == 0 then "/" else file[..k]
  }

  /** The file is a name without a slash in the directory; a name alone is in the directory "". */
  predicate IsNamed(dir: string, name: string, file: string) {
    && '/' !in name
    && ((dir != "" && file == dir + "/" + name) || (dir == "/" && file == "/" + name) || (dir == "" && file == name))
  }

  ghost predicate IsDirectoryOf(dir: string, file: string) {
    if file == "" then dir == "." else exists name: string :: IsNamed(dir, name, file)
  }

  /** A file has one directory. */
  lemma DirnameIff(dir: string, file: string)
    ensures IsDirectoryOf(dir, file) <==> dir == Dirname(file)
  {
    if file != "" {
      var k := LastIndexOf(file, '/');
      assert IsNamed(Dirname(file), file[k + 1..], file);
      if name: string :| IsNamed(dir, name, file) {
        NameIsLast(dir, name, file);
      }
    }
  }

  lemma SlashlessFrom(file: string, name: string, n: nat)
    requires n <= |file| && file[n..] == name && '/' !in name
    ensures forall j | n <= j < |file| :: file[j] != '/'
  {
    forall j | n <= j < |file| ensures file[j] != '/' {
      assert file[j] == name[j - n] && name[j - n] in name;
    }
  }

  lemma SlashBeforeName(dir: string, name: string, file: string)
    requires IsNamed(dir, name, file)
    ensures |name| <= |file| && file[|file| - |name|..] == name
    ensures |name| < |file| ==> file[|file| - |name| - 1] == '/'
  {
  }

  /** The name is what follows the last slash. */
  lemma NameIsLast(dir: string, name: string, file: string)
    requires IsNamed(dir, name, file)
    ensures |name| == |file| - 1 - LastIndexOf(file, '/')
  {
    SlashBeforeName(dir, name, file);
    SlashlessFrom(file, name, |file| - |name|);
  }

  function KeyOf(modules: seq<ModuleRecord>, parent: Parent, request: string): Option<Key>
    requires parent.Module? ==> parent.id < |modules|
  {
    match parent
    case Undefined => None
    case Null => Some(NullParent)
    case Module(id) => Some(Key(modules[id].path, request))
  }

  /** `updateChildren` */
  function UpdateChildren(modules: seq<ModuleRecord>, parent: Parent, child: ModuleId,
                          scan: bool): (r: seq<ModuleRecord>)
    requires parent.Module? ==> parent.id < |modules|
    ensures |r| == |modules|
    ensures forall i | 0 <= i < |r| :: r[i] == modules[i].(children := r[i].children)
  {
    if !parent.Module? || (scan && child in modules[parent.id].children) then modules
    else
      var record := modules[parent.id];
      modules[parent.id := record.(children := record.children + [child])]
  }

  /** The list without the first occurrence of `x`. */
  function Spliced(s: seq<ModuleId>, x: ModuleId): seq<ModuleId> {
    if s == [] then [] else if s[0] == x then s[1..] else [s[0]] + Spliced(s[1..], x)
  }

  function RemoveChild(modules: seq<ModuleRecord>, parent: Parent, child: ModuleId): (r: seq<ModuleRecord>)
    requires parent.Module? ==> parent.id < |modules|
    ensures |r| == |modules|
    ensures forall i | 0 <= i < |r| :: r[i] == modules[i].(children := r[i].children)
  {
    if !parent.Module? then modules
    else
      var record := modules[parent.id];
      modules[parent.id := record.(children := Spliced(record.children, child))]
  }

  predicate KnownParent(s: State, parent: Parent) {
    parent.Module? ==> parent.id < |s.modules|
  }

  /** A cached module is found: it becomes a child, and its exports are partial while it loads. */
  function Hit(s: State, parent: Parent, mod: ModuleId): (State, Outcome)
    requires KnownParent(s, parent) && mod < |s.modules|
  {
    (s.(modules := UpdateChildren(s.modules, parent, mod, true)),
     if s.modules[mod].loaded then Exports(mod) else PartialExports(mod))
  }

  /** A new module enters both caches and its body starts. */
  function Enter(s: State, request: string, parent: Parent, file: string, required: bool): State
    requires KnownParent(s, parent)
  {
    var key := KeyOf(s.modules, parent, request);
    var mod := |s.modules|;
    State(
      s.cache[file := mod],
      if key.Some? then s.relative[key.value := file] else s.relative,
      UpdateChildren(s.modules, parent, mod, false) + [ModuleRecord(file, Dirname(file), false, [])],
      s.stack + [Frame(file, mod, parent, key, required)],
      s.requireDepth + if required then 1 else 0,
      s.log + [Started(file)])
  }

  predicate CacheIsClosed(s: State) {
    forall f <- s.cache :: s.cache[f] < |s.modules|
  }

  /** `_load` from the call of `_resolveFilename` on. */
  function Resolved(s: State, request: string, parent: Parent, res: Resolution, required: bool): (State, Outcome)
    requires KnownParent(s, parent) && CacheIsClosed(s)
  {
    match res
    case NotFound => (s, Error)
    case NodeScheme(known) => (s, if known then NativeExports else Error)
    case File(file, native) =>
      if file in s.cache then Hit(s, parent, s.cache[file])
      else if native then (s, NativeExports)
      else (Enter(s, request, parent, file, required), Running(|s.modules|))
  }

  /** `_load`: the relative-resolve fast path, dropping an entry that is not cached, and then the rest.
      `res` is what resolution answers if it is asked. */
  function Load(s: State, request: string, parent: Parent, res: Resolution, required: bool): (State, Outcome)
    requires KnownParent(s, parent) && CacheIsClosed(s)
  {
    var key := KeyOf(s.modules, parent, request);
    if parent.Module? && key.value in s.relative then
      var file := s.relative[key.value];
      if file in s.cache then Hit(s, parent, s.cache[file])
      else Resolved(s.(relative := s.relative - {key.value}), request, parent, res, required)
    else Resolved(s, request, parent, res, required)
  }

  predicate FramesAreClosed(s: State) {
    forall fr <- s.stack :: fr.mod < |s.modules| && KnownParent(s, fr.parent)
  }

  /** `module.load` returns. */
  function Finish(s: State): State
    requires s.stack != [] && FramesAreClosed(s)
  {
    var top := s.stack[|s.stack| - 1];
    s.(modules := s.modules[top.mod := s.modules[top.mod].(loaded := true)],
       stack := s.stack[..|s.stack| - 1],
       requireDepth := s.requireDepth - if top.required then 1 else 0,
       log := s.log + [Finished(top.file)])
  }

  /** `module.load` throws: the `finally` block takes the module out of both caches and of its parent's children. */
  function Throw(s: State): State
    requires s.stack != [] && FramesAreClosed(s)
  {
    var top := s.stack[|s.stack| - 1];
    State(
      s.cache - {top.file},
      if top.key.Some? then s.relative - {top.key.value} else s.relative,
      RemoveChild(s.modules, top.parent, top.mod),
      s.stack[..|s.stack| - 1],
      s.requireDepth - if top.required then 1 else 0,
      s.log + [Threw(top.file)])
  }

  /** `createRequire`: a module that is in no cache. */
  function CreateRequire(s: State, file: string): State {
    s.(modules := s.modules + [ModuleRecord(file, Dirname(file), false, [])])
  }

  // ----- runs -----

  datatype Event =
    | CallLoad(request: string, parent: Parent, res: Resolution, required: bool)
    | CallCreateRequire(file: string)
    | BodyReturns
    | BodyThrows

  predicate Enabled(s: State, e: Event) {
    match e
    case CallLoad(_, parent, _, required) => KnownParent(s, parent) && CacheIsClosed(s) && (required ==> parent.Module?)
    case CallCreateRequire(_) => true
    case BodyReturns => s.stack != [] && FramesAreClosed(s)
    case BodyThrows => s.stack != [] && FramesAreClosed(s)
  }

  function Step(s: State, e: Event): State
    requires Enabled(s, e)
  {
    match e
    case CallLoad(request, parent, res, required) => Load(s, request, parent, res, required).0
    case CallCreateRequire(file) => CreateRequire(s, file)
    case BodyReturns => Finish(s)
    case BodyThrows => Throw(s)
  }

  ghost predicate Leads(s: State, events: seq<Event>, s': State)
    decreases |events|
  {
    if events == [] then s == s'
    else Enabled(s, events[0]) && Leads(Step(s, events[0]), events[1..], s')
  }

  // ----- the invariant -----

  /** The file is being loaded. */
  predicate Active(s: State, file: string) {
    exists i | 0 <= i < |s.stack| :: s.stack[i].file == file
  }

  /** Every frame's file is cached as its module, and no file is loaded twice at once. */
  ghost predicate StackInv(s: State) {
    && (forall i | 0 <= i < |s.stack| ::
          && s.stack[i].file in s.cache && s.cache[s.stack[i].file] == s.stack[i].mod
          && KnownParent(s, s.stack[i].parent))
    && (forall i, j | 0 <= i < j < |s.stack| :: s.stack[i].file != s.stack[j].file)
  }

  /** The cached modules that are not loaded are exactly the active ones. */
  ghost predicate CacheInv(s: State) {
    && CacheIsClosed(s)
    && (forall f <- s.cache :: s.modules[s.cache[f]].id == f && (!s.modules[s.cache[f]].loaded <==> Active(s, f)))
  }

  /** Every relative entry leads to a cached module, no two to the same one, and to an active one only
      under the key its own frame will delete. */
  ghost predicate RelativeInv(s: State) {
    && (forall k <- s.relative :: s.relative[k] in s.cache)
    && (forall j, k | j in s.relative && k in s.relative && s.relative[j] == s.relative[k] :: j == k)
    && (forall k, i | k in s.relative && 0 <= i < |s.stack| && s.stack[i].file == s.relative[k] ::
          s.stack[i].key == Some(k))
  }

  function Count(stack: seq<Frame>): nat {
    if stack == [] then 0 else Count(stack[..|stack| - 1]) + if stack[|stack| - 1].required then 1 else 0
  }

  /** `children` lists hold known modules, each once. */
  ghost predicate ChildrenInv(s: State) {
    forall i | 0 <= i < |s.modules| ::
      Distinct(s.modules[i].children) && forall c <- s.modules[i].children :: c < |s.modules|
  }

  /** The body of `file` started at `i` and no load of the file threw since. */
  ghost predicate OpenAt(log: seq<LogEntry>, file: string, i: int) {
    0 <= i < |log| && log[i] == Started(file) && forall k | i < k < |log| :: log[k] != Threw(file)
  }

  /** A file's body starts again only after its earlier load threw; once it finished, it neither starts nor throws. */
  ghost predicate LogIsGood(log: seq<LogEntry>) {
    && (forall i, j | 0 <= i < j < |log| && log[i].Started? && log[j] == log[i] :: ThrewBetween(log, log[i].file, i, j))
    && (forall i, j | 0 <= i < j < |log| && log[i].Finished? :: log[j].file != log[i].file)
  }

  ghost predicate ThrewBetween(log: seq<LogEntry>, file: string, i: int, j: int) {
    exists k | i < k < j && 0 <= k < |log| :: log[k] == Threw(file)
  }

  ghost predicate LogInv(s: State) {
    && LogIsGood(s.log)
    && (forall f, i | OpenAt(s.log, f, i) :: f in s.cache)
    && (forall f <- s.cache :: Active(s, f) || Finished(f) in s.log)
    && (forall i | 0 <= i < |s.log| && s.log[i].Finished? :: s.log[i].file in s.cache && !Active(s, s.log[i].file))
  }

  /** The path of a module is the directory of its file. */
  ghost predicate PathInv(s: State) {
    forall i | 0 <= i < |s.modules| :: IsDirectoryOf(s.modules[i].path, s.modules[i].id)
  }

  ghost predicate Inv(s: State) {
    && PathInv(s) && StackInv(s) && CacheInv(s) && RelativeInv(s) && ChildrenInv(s) && LogInv(s)
    && s.requireDepth == Count(s.stack)
  }

  // ----- every step keeps the invariant -----

  lemma HitKeepsChildren(s: State, parent: Parent, mod: ModuleId)
    requires ChildrenInv(s) && KnownParent(s, parent) && mod < |s.modules|
    ensures ChildrenInv(Hit(s, parent, mod).0)
  {
    if parent.Module? && mod !in s.modules[parent.id].children {
      DistinctSnoc(s.modules[parent.id].children, mod);
    }
  }

  lemma HitKeepsLists(s: State, parent: Parent, mod: ModuleId)
    requires PathInv(s) && LogInv(s) && KnownParent(s, parent) && mod < |s.modules|
    ensures PathInv(Hit(s, parent, mod).0) && LogInv(Hit(s, parent, mod).0)
  {
    assert forall f :: Active(Hit(s, parent, mod).0, f) <==> Active(s, f);
  }

  lemma HitKeepsCaches(s: State, parent: Parent, mod: ModuleId)
    requires StackInv(s) && CacheInv(s) && RelativeInv(s) && KnownParent(s, parent) && mod < |s.modules|
    ensures var s' := Hit(s, parent, mod).0; StackInv(s') && CacheInv(s') && RelativeInv(s')
  {
    assert forall f :: Active(Hit(s, parent, mod).0, f) <==> Active(s, f);
  }

  lemma HitKeepsInv(s: State, parent: Parent, mod: ModuleId)
    requires Inv(s) && KnownParent(s, parent) && mod < |s.modules|
    ensures Inv(Hit(s, parent, mod).0)
  {
    HitKeepsChildren(s, parent, mod);
    HitKeepsLists(s, parent, mod);
    HitKeepsCaches(s, parent, mod);
  }

  lemma EnterActive(s: State, request: string, parent: Parent, file: string, required: bool)
    requires KnownParent(s, parent)
    ensures forall f :: Active(Enter(s, request, parent, file, required), f) <==> Active(s, f) || f == file
  {
    var s' := Enter(s, request, parent, file, required);
    assert s'.stack[|s.stack|].file == file;
    forall f | Active(s, f) ensures Active(s', f) {
      var i :| 0 <= i < |s.stack| && s.stack[i].file == f;
      assert s'.stack[i].file == f;
    }
  }

  lemma EnterKeepsStack(s: State, request: string, parent: Parent, file: string, required: bool)
    requires StackInv(s) && KnownParent(s, parent) && file !in s.cache
    ensures StackInv(Enter(s, request, parent, file, required))
  {
  }

  lemma EnterKeepsCache(s: State, request: string, parent: Parent, file: string, required: bool)
    requires CacheInv(s) && KnownParent(s, parent) && file !in s.cache
    ensures CacheInv(Enter(s, request, parent, file, required))
  {
    EnterActive(s, request, parent, file, required);
  }

  lemma EnterKeepsRelative(s: State, request: string, parent: Parent, file: string, required: bool)
    requires StackInv(s) && RelativeInv(s) && KnownParent(s, parent) && file !in s.cache
    ensures RelativeInv(Enter(s, request, parent, file, required))
  {
    var s' := Enter(s, request, parent, file, required);
    assert forall i | 0 <= i < |s.stack| :: s'.stack[i] == s.stack[i] && s.stack[i].file != file;
    assert forall k <- s.relative :: s.relative[k] != file;
  }

  lemma DistinctSnoc(s: seq<ModuleId>, x: ModuleId)
    requires Distinct(s) && x !in s
    ensures Distinct(s + [x])
  {
    assert forall i | 0 <= i < |s| :: (s + [x])[i] == s[i] && s[i] in s;
  }

  lemma EnterKeepsLists(s: State, request: string, parent: Parent, file: string, required: bool)
    requires Inv(s) && KnownParent(s, parent) && file !in s.cache
    ensures var s' := Enter(s, request, parent, file, required);
            ChildrenInv(s') && s'.requireDepth == Count(s'.stack)
  {
    var s' := Enter(s, request, parent, file, required);
    assert s'.stack[..|s'.stack| - 1] == s.stack;
    forall i | 0 <= i < |s'.modules|
      ensures Distinct(s'.modules[i].children) && forall c <- s'.modules[i].children :: c < |s'.modules|
    {
      if i < |s.modules| {
        DistinctSnoc(s.modules[i].children, |s.modules|);
        assert s'.modules[i].children == s.modules[i].children
            || s'.modules[i].children == s.modules[i].children + [|s.modules|];
      }
    }
  }

  /** A body may start when no earlier start of it is open and it has not finished. */
  lemma StartLog(log: seq<LogEntry>, file: string)
    requires LogIsGood(log) && (forall i :: !OpenAt(log, file, i))
    requires forall i | 0 <= i < |log| && log[i].Finished? :: log[i].file != file
    ensures LogIsGood(log + [Started(file)])
  {
    var log' := log + [Started(file)];
    forall i, j | 0 <= i < j < |log'| && log'[i].Started? && log'[j] == log'[i]
      ensures ThrewBetween(log', log'[i].file, i, j)
    {
      if j < |log| {
        var k :| i < k < j && log[k] == Threw(log[i].file);
        assert log'[k] == log[k];
      } else {
        assert !OpenAt(log, file, i);
        var k :| i < k < |log| && log[k] == Threw(file);
        assert log'[k] == Threw(file);
      }
    }
  }

  lemma EnterKeepsLog(s: State, request: string, parent: Parent, file: string, required: bool)
    requires LogInv(s) && KnownParent(s, parent) && file !in s.cache
    ensures LogInv(Enter(s, request, parent, file, required))
  {
    var s' := Enter(s, request, parent, file, required);
    var n := |s.log|;
    StartLog(s.log, file);
    forall f, i | OpenAt(s'.log, f, i) ensures f in s'.cache {
      if i < n {
        assert forall k | i < k < n :: s'.log[k] == s.log[k];
        assert OpenAt(s.log, f, i);
      }
    }
    EnterActive(s, request, parent, file, required);
  }

  lemma FinishKeepsCaches(s: State)
    requires Inv(s) && s.stack != [] && FramesAreClosed(s)
    ensures var s' := Finish(s); StackInv(s') && CacheInv(s') && RelativeInv(s')
  {
    PopActive(s, Finish(s));
  }

  /** Popping the top frame ends the activity of its file alone. */
  lemma PopActive(s: State, s': State)
    requires StackInv(s) && s.stack != [] && s'.stack == s.stack[..|s.stack| - 1]
    ensures forall f :: Active(s', f) <==> Active(s, f) && f != s.stack[|s.stack| - 1].file
  {
    forall f | Active(s, f) && f != s.stack[|s.stack| - 1].file ensures Active(s', f) {
      var i :| 0 <= i < |s.stack| && s.stack[i].file == f;
      assert s'.stack[i].file == f;
    }
  }

  lemma FinishKeepsRest(s: State)
    requires Inv(s) && s.stack != [] && FramesAreClosed(s)
    ensures var s' := Finish(s); ChildrenInv(s') && LogInv(s') && s'.requireDepth == Count(s'.stack)
  {
    var s' := Finish(s);
    var top := s.stack[|s.stack| - 1];
    PopActive(s, s');
    assert Active(s, top.file);
    AppendLog(s.log, Finished(top.file));
  }

  /** Appending an entry that starts nothing, for a file that did not finish. */
  lemma AppendLog(log: seq<LogEntry>, e: LogEntry)
    requires LogIsGood(log) && !e.Started?
    requires forall i | 0 <= i < |log| && log[i].Finished? :: log[i].file != e.file
    ensures LogIsGood(log + [e])
    ensures forall f, i | OpenAt(log + [e], f, i) :: OpenAt(log, f, i) && e != Threw(f)
  {
    var log' := log + [e];
    forall i, j | 0 <= i < j < |log'| && log'[i].Started? && log'[j] == log'[i]
      ensures ThrewBetween(log', log'[i].file, i, j)
    {
      var k :| i < k < j && log[k] == Threw(log[i].file);
      assert log'[k] == log[k];
    }
    forall f, i | OpenAt(log', f, i) ensures OpenAt(log, f, i) && e != Threw(f) {
      assert forall k | i < k < |log| :: log'[k] == log[k];
      assert log'[|log|] == e;
    }
  }

  lemma ThrowKeepsCache(s: State)
    requires StackInv(s) && CacheInv(s) && s.stack != [] && FramesAreClosed(s)
    ensures StackInv(Throw(s)) && CacheInv(Throw(s))
  {
    PopActive(s, Throw(s));
  }

  /** The frame's own key is the only one that can lead to its file. */
  lemma ThrowKeepsRelative(s: State)
    requires StackInv(s) && RelativeInv(s) && s.stack != [] && FramesAreClosed(s)
    ensures RelativeInv(Throw(s))
  {
    var s' := Throw(s);
    var last := |s.stack| - 1;
    assert forall k <- s.relative :: s.relative[k] == s.stack[last].file ==> Some(k) == s.stack[last].key;
    assert forall i | 0 <= i < last :: s'.stack[i] == s.stack[i];
  }

  lemma {:induction false} SplicedKeeps(s: seq<ModuleId>, x: ModuleId)
    requires Distinct(s)
    ensures Distinct(Spliced(s, x)) && x !in Spliced(s, x)
    ensures forall y :: y in Spliced(s, x) <==> y in s && y != x
  {
    if s != [] {
      assert s == [s[0]] + s[1..];
      DistinctCons(s[0], s[1..]);
      SplicedKeeps(s[1..], x);
      DistinctCons(s[0], Spliced(s[1..], x));
    }
  }

  lemma ThrowKeepsChildren(s: State)
    requires ChildrenInv(s) && s.stack != [] && FramesAreClosed(s)
    ensures ChildrenInv(Throw(s))
  {
    var top := s.stack[|s.stack| - 1];
    if top.parent.Module? {
      SplicedKeeps(s.modules[top.parent.id].children, top.mod);
    }
  }

  lemma ThrowKeepsLog(s: State)
    requires StackInv(s) && LogInv(s) && s.stack != [] && FramesAreClosed(s)
    ensures LogInv(Throw(s))
  {
    var top := s.stack[|s.stack| - 1];
    PopActive(s, Throw(s));
    assert Active(s, top.file);
    AppendLog(s.log, Threw(top.file));
  }

  lemma ThrowKeepsRest(s: State)
    requires Inv(s) && s.stack != [] && FramesAreClosed(s)
    ensures var s' := Throw(s); PathInv(s') && ChildrenInv(s') && LogInv(s') && s'.requireDepth == Count(s'.stack)
  {
    ThrowKeepsChildren(s);
    ThrowKeepsLog(s);
  }

  lemma InvMeansClosed(s: State)
    requires Inv(s)
    ensures CacheIsClosed(s) && FramesAreClosed(s)
  {
    forall fr <- s.stack ensures fr.mod < |s.modules| && KnownParent(s, fr.parent) {
      var i :| 0 <= i < |s.stack| && s.stack[i] == fr;
    }
  }

  lemma ResolvedKeepsInv(s: State, request: string, parent: Parent, res: Resolution, required: bool)
    requires Inv(s) && KnownParent(s, parent)
    ensures CacheIsClosed(s) && Inv(Resolved(s, request, parent, res, required).0)
  {
    if res.File? {
      if res.name in s.cache {
        HitKeepsInv(s, parent, s.cache[res.name]);
      } else if !res.native {
        EnterKeepsInv(s, request, parent, res.name, required);
      }
    }
  }

  lemma EnterKeepsInv(s: State, request: string, parent: Parent, file: string, required: bool)
    requires Inv(s) && KnownParent(s, parent) && file !in s.cache
    ensures Inv(Enter(s, request, parent, file, required))
  {
    EnterKeepsStack(s, request, parent, file, required);
    EnterKeepsCache(s, request, parent, file, required);
    EnterKeepsRelative(s, request, parent, file, required);
    EnterKeepsLists(s, request, parent, file, required);
    EnterKeepsLog(s, request, parent, file, required);
    EnterKeepsPaths(s, request, parent, file, required);
  }

  lemma EnterKeepsPaths(s: State, request: string, parent: Parent, file: string, required: bool)
    requires PathInv(s) && KnownParent(s, parent)
    ensures PathInv(Enter(s, request, parent, file, required))
  {
    DirnameIff(Dirname(file), file);
  }

  /** The stale branch of the fast path is not taken: every relative entry is cached. */
  lemma LoadKeepsInv(s: State, request: string, parent: Parent, res: Resolution, required: bool)
    requires Inv(s) && KnownParent(s, parent)
    ensures CacheIsClosed(s) && Inv(Load(s, request, parent, res, required).0)
  {
    var key := KeyOf(s.modules, parent, request);
    if parent.Module? && key.value in s.relative {
      HitKeepsInv(s, parent, s.cache[s.relative[key.value]]);
    } else {
      ResolvedKeepsInv(s, request, parent, res, required);
    }
  }

  lemma CreateRequireKeepsInv(s: State, file: string)
    requires Inv(s)
    ensures Inv(CreateRequire(s, file))
  {
    DirnameIff(Dirname(file), file);
    assert forall f :: Active(CreateRequire(s, file), f) <==> Active(s, f);
  }

  lemma StepKeepsInv(s: State, e: Event)
    requires Inv(s) && Enabled(s, e)
    ensures Inv(Step(s, e))
  {
    match e
    case CallLoad(request, parent, res, required) =>
      LoadKeepsInv(s, request, parent, res, required);
    case CallCreateRequire(file) =>
      CreateRequireKeepsInv(s, file);
    case BodyReturns =>
      FinishKeepsCaches(s);
      FinishKeepsRest(s);
    case BodyThrows =>
      ThrowKeepsCache(s);
      ThrowKeepsRelative(s);
      ThrowKeepsRest(s);
  }

  lemma {:induction false} RunKeepsInv(s: State, events: seq<Event>, s': State)
    requires Inv(s) && Leads(s, events, s')
    ensures Inv(s')
    decreases |events|
  {
    if events != [] {
      StepKeepsInv(s, events[0]);
      RunKeepsInv(Step(s, events[0]), events[1..], s');
    }
  }
}
