/** What holds over whole runs of the CommonJS loader of `crates/node/polyfills/01_require.js`. */
module LoaderRuns {
  import opened Loader

  /** In every reachable state the cached modules that are not loaded are exactly those being loaded, no
      file is being loaded twice, every relative entry leads to a cached module, a body starts again only
      after its load threw and never after it finished, and `requireDepth` counts the active requires. */
  lemma ReachableStates(events: seq<Event>, s: State)
    requires Leads(INITIAL, events, s)
    ensures CacheIsClosed(s)
    ensures forall f :: f in s.cache && !s.modules[s.cache[f]].loaded <==> Active(s, f)
    ensures forall i, j | 0 <= i < j < |s.stack| :: s.stack[i].file != s.stack[j].file
    ensures forall k <- s.relative :: s.relative[k] in s.cache
    ensures LogIsGood(s.log)
    ensures s.requireDepth == Count(s.stack)
  {
    RunKeepsInv(INITIAL, events, s);
    assert Inv(s);
  }

  // ----- the fast path -----

  /** Resolution is a function of the directory of the requiring file and the request. */
  type Resolver = (string, string) -> Resolution

  /** What resolution answers to a request of the parent. */
  ghost predicate Answers(resolve: Resolver, s: State, parent: Parent, request: string, res: Resolution)
    requires KnownParent(s, parent)
  {
    parent.Module? ==> forall dir :: IsDirectoryOf(dir, s.modules[parent.id].id) ==> res == resolve(dir, request)
  }

  ghost predicate Agrees(resolve: Resolver, s: State, e: Event)
    requires Enabled(s, e)
  {
    e.CallLoad? ==> Answers(resolve, s, e.parent, e.request, e.res)
  }

  ghost predicate LeadsWith(resolve: Resolver, s: State, events: seq<Event>, s': State)
    decreases |events|
  {
    if events == [] then s == s'
    else Enabled(s, events[0]) && Agrees(resolve, s, events[0])
         && LeadsWith(resolve, Step(s, events[0]), events[1..], s')
  }

  ghost predicate RelativeAgrees(resolve: Resolver, s: State) {
    forall k <- s.relative :: k.Key? ==> resolve(k.path, k.request) == File(s.relative[k], false)
  }

  lemma StepKeepsAgreement(resolve: Resolver, s: State, e: Event)
    requires PathInv(s) && RelativeInv(s) && RelativeAgrees(resolve, s) && Enabled(s, e) && Agrees(resolve, s, e)
    ensures RelativeAgrees(resolve, Step(s, e))
  {
    if e.CallLoad? && e.parent.Module? {
      assert IsDirectoryOf(s.modules[e.parent.id].path, s.modules[e.parent.id].id);
    }
  }

  lemma {:induction false} RunKeepsAgreement(resolve: Resolver, s: State, events: seq<Event>, s': State)
    requires Inv(s) && RelativeAgrees(resolve, s) && LeadsWith(resolve, s, events, s')
    ensures Inv(s') && RelativeAgrees(resolve, s')
    decreases |events|
  {
    if events != [] {
      StepKeepsInv(s, events[0]);
      StepKeepsAgreement(resolve, s, events[0]);
      RunKeepsAgreement(resolve, Step(s, events[0]), events[1..], s');
    }
  }

  /** With deterministic resolution, `_load` gives the result and the state it would give without its
      relative-resolve fast path, after any run. */
  lemma FastPathIsSlowPath(resolve: Resolver, events: seq<Event>, s: State, request: string, parent: Parent,
                           res: Resolution, required: bool)
    requires LeadsWith(resolve, INITIAL, events, s) && KnownParent(s, parent)
    requires Answers(resolve, s, parent, request, res)
    ensures CacheIsClosed(s) && Load(s, request, parent, res, required) == Resolved(s, request, parent, res, required)
  {
    RunKeepsAgreement(resolve, INITIAL, events, s);
    FastIsSlow(resolve, s, request, parent, res, required);
  }

  lemma FastIsSlow(resolve: Resolver, s: State, request: string, parent: Parent, res: Resolution, required: bool)
    requires PathInv(s) && RelativeInv(s) && CacheIsClosed(s) && RelativeAgrees(resolve, s) && KnownParent(s, parent)
    requires Answers(resolve, s, parent, request, res)
    ensures Load(s, request, parent, res, required) == Resolved(s, request, parent, res, required)
  {
    if parent.Module? {
      assert IsDirectoryOf(s.modules[parent.id].path, s.modules[parent.id].id);
    }
  }

  // ----- what a load answers -----

  /** The parent's children get the module if they do not have it; every other record is as it was. */
  ghost predicate Adopts(s: State, parent: Parent, mod: ModuleId, s': State) {
    && |s'.modules| >= |s.modules|
    && (forall i | 0 <= i < |s.modules| && parent != Module(i) :: s'.modules[i] == s.modules[i])
    && (parent.Module? && parent.id < |s.modules| ==>
          var before, after := s.modules[parent.id], s'.modules[parent.id];
          && after == before.(children := after.children)
          && after.children == if mod in before.children then before.children else before.children + [mod])
  }

  /** The entry under which the next request of the same text from the same directory finds the file. */
  ghost predicate Remembers(s: State, request: string, parent: Parent, file: string, s': State)
    requires KnownParent(s, parent)
  {
    match parent
    case Undefined => s'.relative == s.relative
    case Null => s'.relative == s.relative[NullParent := file]
    case Module(id) =>
      forall dir | IsDirectoryOf(dir, s.modules[id].id) :: s'.relative == s.relative[Key(dir, request) := file]
  }

  /** A new module for the file, not loaded, in both caches and with its body running. */
  ghost predicate Starts(s: State, request: string, parent: Parent, file: string, required: bool, s': State)
    requires KnownParent(s, parent)
  {
    && Remembers(s, request, parent, file, s')
    && |s'.stack| == |s.stack| + 1 && s'.stack[..|s.stack|] == s.stack
    && (var top := s'.stack[|s.stack|];
        top.file == file && top.mod == |s.modules| && top.parent == parent && top.required == required)
    && |s'.modules| == |s.modules| + 1
    && (var record := s'.modules[|s.modules|];
        record.id == file && !record.loaded && record.children == [] && IsDirectoryOf(record.path, file))
    && s'.cache == s.cache[file := |s.modules|]
    && s'.log == s.log + [Started(file)] && Adopts(s, parent, |s.modules|, s')
  }

  /** What is answered, in terms of the bodies that ran: the exports of a file whose body finished, the partial
      exports of one whose body is running, and otherwise a native module or the start of the body. */
  ghost predicate IsAnswer(s: State, request: string, parent: Parent, res: Resolution, required: bool, s': State,
                           outcome: Outcome)
    requires KnownParent(s, parent)
  {
    match res
    case NotFound => outcome == Error && s' == s
    case NodeScheme(known) => outcome == (if known then NativeExports else Error) && s' == s
    case File(file, native) =>
      if Finished(file) in s.log || Active(s, file) then
        && (outcome.Exports? || outcome.PartialExports?) && (outcome.Exports? <==> Finished(file) in s.log)
        && outcome.mod < |s.modules| && s.modules[outcome.mod].id == file
        && s' == s.(modules := s'.modules) && |s'.modules| == |s.modules| && Adopts(s, parent, outcome.mod, s')
      else if native then outcome == NativeExports && s' == s
      else outcome == Running(|s.modules|) && Starts(s, request, parent, file, required, s')
  }

  lemma EnterStarts(s: State, request: string, parent: Parent, file: string, required: bool)
    requires PathInv(s) && ChildrenInv(s) && KnownParent(s, parent)
    ensures Starts(s, request, parent, file, required, Enter(s, request, parent, file, required))
  {
    DirnameIff(Dirname(file), file);
    if parent.Module? {
      var record := s.modules[parent.id];
      DirnameIff(record.path, record.id);
      forall dir | IsDirectoryOf(dir, record.id) ensures dir == record.path { DirnameIff(dir, record.id); }
      assert forall c <- record.children :: c < |s.modules|;
    }
  }

  lemma ResolvedAnswers(s: State, request: string, parent: Parent, res: Resolution, required: bool)
    requires Inv(s) && KnownParent(s, parent)
    ensures CacheIsClosed(s)
    ensures var r := Resolved(s, request, parent, res, required);
            IsAnswer(s, request, parent, res, required, r.0, r.1)
  {
    if res.File? {
      CachedIff(s, res.name);
      if res.name in s.cache {
        HitAdopts(s, parent, s.cache[res.name]);
      } else {
        EnterStarts(s, request, parent, res.name, required);
      }
    }
  }

  lemma HitAdopts(s: State, parent: Parent, mod: ModuleId)
    requires KnownParent(s, parent) && mod < |s.modules|
    ensures var s' := Hit(s, parent, mod).0;
            s' == s.(modules := s'.modules) && |s'.modules| == |s.modules| && Adopts(s, parent, mod, s')
  {
  }

  /** The cache in terms of the bodies that ran. */
  lemma CachedIff(s: State, file: string)
    requires Inv(s)
    ensures file in s.cache <==> Finished(file) in s.log || Active(s, file)
    ensures !(Finished(file) in s.log && Active(s, file))
    ensures file in s.cache ==> s.modules[s.cache[file]].id == file
    ensures file in s.cache ==> (s.modules[s.cache[file]].loaded <==> Finished(file) in s.log)
  {
    if Finished(file) in s.log {
      var i :| 0 <= i < |s.log| && s.log[i] == Finished(file);
    }
  }

  /** After any run, what `_load` answers to a request, and what it changes. */
  lemma LoadAnswers(resolve: Resolver, events: seq<Event>, s: State, request: string, parent: Parent,
                    res: Resolution, required: bool)
    requires LeadsWith(resolve, INITIAL, events, s) && KnownParent(s, parent)
    requires Answers(resolve, s, parent, request, res)
    ensures CacheIsClosed(s)
    ensures var r := Load(s, request, parent, res, required);
            IsAnswer(s, request, parent, res, required, r.0, r.1)
  {
    RunKeepsAgreement(resolve, INITIAL, events, s);
    FastIsSlow(resolve, s, request, parent, res, required);
    ResolvedAnswers(s, request, parent, res, required);
  }

  // ----- loaded modules stay -----

  ghost predicate IsLoaded(s: State, file: string) {
    file in s.cache && s.cache[file] < |s.modules| && s.modules[s.cache[file]].loaded
  }

  lemma StepKeepsLoaded(s: State, e: Event, file: string)
    requires Inv(s) && Enabled(s, e) && IsLoaded(s, file)
    ensures IsLoaded(Step(s, e), file) && Step(s, e).cache[file] == s.cache[file]
  {
    if e.BodyThrows? {
      assert Active(s, s.stack[|s.stack| - 1].file);
    }
  }

  lemma {:induction false} RunKeepsLoaded(s: State, events: seq<Event>, s': State, file: string)
    requires Inv(s) && Leads(s, events, s') && IsLoaded(s, file)
    ensures IsLoaded(s', file) && s'.cache[file] == s.cache[file]
    decreases |events|
  {
    if events != [] {
      StepKeepsInv(s, events[0]);
      StepKeepsLoaded(s, events[0], file);
      RunKeepsLoaded(Step(s, events[0]), events[1..], s', file);
    }
  }

  /** A module that finished loading is the one every later load of its file returns, through either path. */
  lemma LoadedIsReturned(resolve: Resolver, before: seq<Event>, s: State, events: seq<Event>, s': State, file: string,
                         request: string, parent: Parent, res: Resolution, required: bool)
    requires LeadsWith(resolve, INITIAL, before, s) && LeadsWith(resolve, s, events, s')
    requires IsLoaded(s, file) && KnownParent(s', parent) && res.File? && res.name == file
    requires Answers(resolve, s', parent, request, res)
    ensures CacheIsClosed(s') && Load(s', request, parent, res, required).1 == Exports(s.cache[file])
  {
    RunKeepsAgreement(resolve, INITIAL, before, s);
    RunKeepsAgreement(resolve, s, events, s');
    LeadsWithLeads(resolve, s, events, s');
    RunKeepsLoaded(s, events, s', file);
    FastIsSlow(resolve, s', request, parent, res, required);
  }

  lemma {:induction false} LeadsWithLeads(resolve: Resolver, s: State, events: seq<Event>, s': State)
    requires LeadsWith(resolve, s, events, s')
    ensures Leads(s, events, s')
    decreases |events|
  {
    if events != [] { LeadsWithLeads(resolve, Step(s, events[0]), events[1..], s'); }
  }

  // ----- a load that throws -----

  /** A run during which the first `depth` frames are not left. */
  ghost predicate LeadsAbove(depth: nat, s: State, events: seq<Event>, s': State)
    decreases |events|
  {
    && |s.stack| >= depth
    && if events == [] then s == s'
       else Enabled(s, events[0]) && LeadsAbove(depth, Step(s, events[0]), events[1..], s')
  }

  lemma StepKeepsBelow(depth: nat, s: State, e: Event)
    requires Enabled(s, e) && |s.stack| >= depth && |Step(s, e).stack| >= depth
    ensures Step(s, e).stack[..depth] == s.stack[..depth]
  {
  }

  lemma {:induction false} FramesBelowStay(depth: nat, s: State, events: seq<Event>, s': State)
    requires LeadsAbove(depth, s, events, s')
    ensures |s'.stack| >= depth && s'.stack[..depth] == s.stack[..depth]
    ensures Leads(s, events, s')
    decreases |events|
  {
    if events != [] {
      FramesBelowStay(depth, Step(s, events[0]), events[1..], s');
      StepKeepsBelow(depth, s, events[0]);
    }
  }

  /** The file is in neither cache, and its module not among the parent's children. */
  ghost predicate Forgotten(t: State, file: string, mod: ModuleId, parent: Parent) {
    && file !in t.cache
    && (forall k <- t.relative :: t.relative[k] != file)
    && (parent.Module? ==> parent.id < |t.modules| && mod !in t.modules[parent.id].children)
  }

  /** A throw ends its own frame: the file leaves both caches and the children of its parent. */
  lemma ThrowForgets(s: State)
    requires Inv(s) && Enabled(s, BodyThrows)
    ensures var top, t := s.stack[|s.stack| - 1], Throw(s);
            Inv(t) && Forgotten(t, top.file, top.mod, top.parent)
  {
    var top := s.stack[|s.stack| - 1];
    StepKeepsInv(s, BodyThrows);
    if top.parent.Module? {
      SplicedKeeps(s.modules[top.parent.id].children, top.mod);
    }
  }

  /** Two good states with the same stack: a module cached before and after unless it was loaded meanwhile. */
  lemma SameStackSameModule(s: State, t: State, file: string)
    requires CacheInv(s) && StackInv(s) && CacheInv(t) && StackInv(t) && t.stack == s.stack && file in s.cache
    requires IsLoaded(s, file) ==> IsLoaded(t, file) && t.cache[file] == s.cache[file]
    ensures file in t.cache && t.cache[file] == s.cache[file] && (IsLoaded(t, file) <==> IsLoaded(s, file))
  {
    if !IsLoaded(s, file) {
      var i :| 0 <= i < |s.stack| && s.stack[i].file == file;
      assert t.stack[i] == s.stack[i] && Active(t, file);
    }
  }

  lemma LoadedSurvivesThrow(s: State, s1: State, events: seq<Event>, s': State, file: string)
    requires Inv(s1) && Leads(s1, events, s') && Enabled(s', BodyThrows)
    requires file in s.cache && file in s1.cache && s1.cache[file] == s.cache[file]
    requires IsLoaded(s, file) ==> IsLoaded(s1, file)
    ensures IsLoaded(s, file) ==> IsLoaded(Throw(s'), file) && Throw(s').cache[file] == s.cache[file]
  {
    if IsLoaded(s, file) {
      RunKeepsInv(s1, events, s');
      RunKeepsLoaded(s1, events, s', file);
      StepKeepsLoaded(s', BodyThrows, file);
    }
  }

  lemma OnlyActiveUnloaded(s: State, t: State, file: string)
    requires StackInv(s) && CacheInv(t) && t.stack == s.stack && file in t.cache
    ensures file in s.cache || IsLoaded(t, file)
  {
    if !IsLoaded(t, file) {
      var i :| 0 <= i < |t.stack| && t.stack[i].file == file;
      assert s.stack[i].file in s.cache;
    }
  }

  /** A body that runs from `s1` has returned to its own frame at `s'`. */
  ghost predicate RanBody(s: State, s1: State, events: seq<Event>, s': State) {
    LeadsAbove(|s.stack| + 1, s1, events, s') && |s'.stack| == |s.stack| + 1
  }

  lemma BodyKeepsFrame(s: State, s1: State, events: seq<Event>, s': State)
    requires Inv(s1) && |s1.stack| == |s.stack| + 1 && RanBody(s, s1, events, s')
    ensures Inv(s') && Leads(s1, events, s') && s'.stack == s1.stack && Enabled(s', BodyThrows)
  {
    FramesBelowStay(|s1.stack|, s1, events, s');
    RunKeepsInv(s1, events, s');
    InvMeansClosed(s');
    assert s'.stack == s'.stack[..|s1.stack|] && s1.stack == s1.stack[..|s1.stack|];
  }

  /** What was cached before is cached as before, loaded or not, and what is new has finished loading. */
  ghost predicate KeepsModules(s: State, t: State) {
    && (forall f <- s.cache :: f in t.cache && t.cache[f] == s.cache[f] && (IsLoaded(t, f) <==> IsLoaded(s, f)))
    && (forall f <- t.cache :: f in s.cache || IsLoaded(t, f))
  }

  /** `s1` is `s` with one more frame and its module. */
  ghost predicate Entered(s: State, s1: State, frame: Frame) {
    && s1.stack == s.stack + [frame]
    && forall f <- s.cache :: f in s1.cache && s1.cache[f] == s.cache[f] && (IsLoaded(s, f) ==> IsLoaded(s1, f))
  }

  lemma RollBackForgets(s: State, s1: State, frame: Frame, events: seq<Event>, s': State)
    requires Inv(s1) && Entered(s, s1, frame) && RanBody(s, s1, events, s')
    ensures Inv(s') && Enabled(s', BodyThrows) && Leads(s1, events, s')
    ensures var t := Throw(s'); Inv(t) && t.stack == s.stack && Forgotten(t, frame.file, frame.mod, frame.parent)
  {
    BodyKeepsFrame(s, s1, events, s');
    ThrowForgets(s');
    assert s1.stack[..|s.stack|] == s.stack;
  }

  lemma RollBackKeepsOne(s: State, s1: State, events: seq<Event>, s': State, f: string)
    requires CacheInv(s) && StackInv(s) && Inv(s1) && Leads(s1, events, s') && Enabled(s', BodyThrows)
    requires CacheInv(Throw(s')) && StackInv(Throw(s')) && Throw(s').stack == s.stack
    requires f in s.cache ==> f in s1.cache && s1.cache[f] == s.cache[f] && (IsLoaded(s, f) ==> IsLoaded(s1, f))
    ensures var t := Throw(s');
            && (f in s.cache ==> f in t.cache && t.cache[f] == s.cache[f] && (IsLoaded(t, f) <==> IsLoaded(s, f)))
            && (f in t.cache ==> f in s.cache || IsLoaded(t, f))
  {
    if f in s.cache {
      LoadedSurvivesThrow(s, s1, events, s', f);
      SameStackSameModule(s, Throw(s'), f);
    } else if f in Throw(s').cache {
      OnlyActiveUnloaded(s, Throw(s'), f);
    }
  }

  lemma RollBackKeeps(s: State, s1: State, frame: Frame, events: seq<Event>, s': State)
    requires CacheInv(s) && StackInv(s) && Inv(s1) && Entered(s, s1, frame) && RanBody(s, s1, events, s')
    ensures Enabled(s', BodyThrows) && KeepsModules(s, Throw(s'))
  {
    RollBackForgets(s, s1, frame, events, s');
    forall f | f in s.cache || f in Throw(s').cache {
      RollBackKeepsOne(s, s1, events, s', f);
    }
  }

  lemma EnterIsEntered(s: State, request: string, parent: Parent, file: string, required: bool)
    requires Inv(s) && KnownParent(s, parent) && file !in s.cache
    ensures var s1 := Enter(s, request, parent, file, required);
            Inv(s1) && Entered(s, s1, Frame(file, |s.modules|, parent, KeyOf(s.modules, parent, request), required))
  {
    EnterKeepsInv(s, request, parent, file, required);
  }

  /** From the start of a file's body to its throw, whatever the body loads: the file is in neither cache and
      not among its parent's children, every module cached before is cached as before, loaded or not, and
      every other module the body brought into the cache has finished loading. */
  lemma ThrownLoadRollsBack(s: State, request: string, parent: Parent, file: string, required: bool, events: seq<Event>,
                            s': State)
    requires Inv(s) && KnownParent(s, parent) && file !in s.cache
    requires RanBody(s, Enter(s, request, parent, file, required), events, s')
    ensures Enabled(s', BodyThrows)
    ensures var t := Throw(s'); t.stack == s.stack && Forgotten(t, file, |s.modules|, parent) && KeepsModules(s, t)
  {
    EnterIsEntered(s, request, parent, file, required);
    var frame := Frame(file, |s.modules|, parent, KeyOf(s.modules, parent, request), required);
    var s1 := Enter(s, request, parent, file, required);
    RollBackForgets(s, s1, frame, events, s');
    RollBackKeeps(s, s1, frame, events, s');
  }
}
