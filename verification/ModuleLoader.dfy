/** The loader's mutable state and its operations in `crates/node/polyfills/01_require.js`, each proved
    to be a step of the state machine. */
module CommonJs {
  import opened Common
  import opened Loader

  class ModuleLoader {
    var cache: map<string, ModuleId>
    var relativeResolveCache: map<Key, string>
    var modules: seq<ModuleRecord>
    var stack: seq<Frame>
    var requireDepth: int
    ghost var log: seq<LogEntry>

    ghost function Abs(): State
      reads this
    {
      State(cache, relativeResolveCache, modules, stack, requireDepth, log)
    }

    /** Only known modules are referred to; outside edits of the caches keep this. */
    ghost predicate Closed()
      reads this
    {
      CacheIsClosed(Abs()) && FramesAreClosed(Abs())
    }

    constructor ()
      ensures Abs() == INITIAL && Inv(Abs()) && Closed()
    {
      cache, relativeResolveCache, modules, stack, requireDepth, log := map[], map[], [], [], 0, [];
    }

    /** `_load` up to a result or to the start of a body; `res` is what resolution answers if it is asked. */
    method Load(request: string, parent: Parent, res: Resolution, required: bool) returns (outcome: Outcome)
      requires Closed() && KnownParent(Abs(), parent) && (required ==> parent.Module?)
      modifies this
      ensures Closed() && (Abs(), outcome) == Loader.Load(old(Abs()), request, parent, res, required)
      ensures old(Inv(Abs())) ==> Inv(Abs())
    {
      ghost var before := Abs();
      if Inv(before) { LoadKeepsInv(before, request, parent, res, required); }
      var identifier := NullParent;
      if parent.Module? {
        identifier := Key(modules[parent.id].path, request);
        if identifier in relativeResolveCache {
          var filename := relativeResolveCache[identifier];
          if filename in cache {
            outcome := Found(parent, cache[filename]);
            return;
          }
          relativeResolveCache := relativeResolveCache - {identifier};
        }
      }
      match res
      case NotFound => outcome := Error;
      case NodeScheme(known) => outcome := if known then NativeExports else Error;
      case File(filename, native) =>
        if filename in cache {
          outcome := Found(parent, cache[filename]);
        } else if native {
          outcome := NativeExports;
        } else {
          outcome := Start(request, parent, identifier, filename, required);
        }
    }

    /** A new module enters both caches, and its body starts. */
    method Start(request: string, parent: Parent, identifier: Key, filename: string, required: bool)
      returns (outcome: Outcome)
      requires Closed() && KnownParent(Abs(), parent)
      requires parent != Undefined ==> KeyOf(modules, parent, request) == Some(identifier)
      modifies this
      ensures Closed() && outcome == Running(old(|modules|))
              && Abs() == Enter(old(Abs()), request, parent, filename, required)
    {
      var mod := |modules|;
      modules := UpdateChildren(modules, parent, mod, false) + [ModuleRecord(filename, Dirname(filename), false, [])];
      cache := cache[filename := mod];
      var key := None;
      if parent != Undefined {
        relativeResolveCache := relativeResolveCache[identifier := filename];
        key := Some(identifier);
      }
      stack := stack + [Frame(filename, mod, parent, key, required)];
      requireDepth := requireDepth + if required then 1 else 0;
      log := log + [Started(filename)];
      outcome := Running(mod);
    }

    method Found(parent: Parent, mod: ModuleId) returns (outcome: Outcome)
      requires Closed() && KnownParent(Abs(), parent) && mod < |modules|
      modifies `modules
      ensures Closed() && (Abs(), outcome) == Hit(old(Abs()), parent, mod)
    {
      modules := UpdateChildren(modules, parent, mod, true);
      outcome := if modules[mod].loaded then Exports(mod) else PartialExports(mod);
    }

    /** `module.load` returned: the load on top of the stack ends. */
    method Returned()
      requires Closed() && stack != []
      modifies this
      ensures Closed() && Abs() == Finish(old(Abs()))
      ensures old(Inv(Abs())) ==> Inv(Abs())
    {
      ghost var before := Abs();
      if Inv(before) { StepKeepsInv(before, BodyReturns); }
      var top := stack[|stack| - 1];
      modules := modules[top.mod := modules[top.mod].(loaded := true)];
      End(top);
      log := log + [Finished(top.file)];
    }

    /** `module.load` threw: the load on top of the stack ends with its `finally` block. */
    method Failed()
      requires Closed() && stack != []
      modifies this
      ensures Closed() && Abs() == Throw(old(Abs()))
      ensures old(Inv(Abs())) ==> Inv(Abs())
    {
      ghost var before := Abs();
      if Inv(before) { StepKeepsInv(before, BodyThrows); }
      Unwind();
    }

    /** The module leaves both caches and its parent's children. */
    method Unwind()
      requires Closed() && stack != []
      modifies this
      ensures Closed() && Abs() == Throw(old(Abs()))
    {
      var top := stack[|stack| - 1];
      cache := cache - {top.file};
      if top.key.Some? {
        relativeResolveCache := relativeResolveCache - {top.key.value};
      }
      modules := RemoveChild(modules, top.parent, top.mod);
      End(top);
      log := log + [Threw(top.file)];
    }

    method End(top: Frame)
      requires stack != [] && top == stack[|stack| - 1]
      modifies `stack, `requireDepth
      ensures stack == old(stack[..|stack| - 1])
      ensures requireDepth == old(requireDepth) - if top.required then 1 else 0
    {
      stack := stack[..|stack| - 1];
      requireDepth := requireDepth - if top.required then 1 else 0;
    }

    /** `module.require`: an empty id is refused before anything happens. */
    method Require(id: string, parent: ModuleId, res: Resolution) returns (outcome: Outcome)
      requires Closed() && parent < |modules|
      modifies this
      ensures Closed()
      ensures old(Inv(Abs())) ==> Inv(Abs())
      ensures (Abs(), outcome)
           == if id == "" then (old(Abs()), Error) else Loader.Load(old(Abs()), id, Module(parent), res, true)
    {
      if id == "" {
        return Error;
      }
      outcome := Load(id, Module(parent), res, true);
    }
  }
}
