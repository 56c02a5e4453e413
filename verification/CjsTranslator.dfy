/** `NodeCodeTranslator::translate_cjs_to_esm` of `crates/node/analyze.rs`: the worklist that collects
    the names a CommonJS module exports through its re-exports, and the ES module written from them. */
module CjsTranslator {
  import opened Common

  type Specifier = string

  datatype Analysis = Esm | Cjs(exports: seq<string>, reexports: seq<string>)

  /** Code analysis and module resolution, given from outside; `None` is an error. */
  datatype World = World(analyze: Specifier -> Option<Analysis>, resolve: (string, Specifier) -> Option<Specifier>)

  datatype TranslateError = AnalysisFailed | ResolutionFailed | CannotRequireEsm

  const DEFAULT := "default"

  // ----- what is re-exported -----

  predicate IsCjs(w: World, s: Specifier) {
    w.analyze(s).Some? && w.analyze(s).value.Cjs?
  }

  /** `s` re-exports `t` under the request `x`. */
  predicate Edge(w: World, s: Specifier, x: string, t: Specifier) {
    IsCjs(w, s) && x in w.analyze(s).value.reexports && w.resolve(x, s) == Some(t)
  }

  /** A chain of re-exports: `path[i]` re-exports `path[i + 1]` under `requests[i]`. */
  ghost predicate Chain(w: World, path: seq<Specifier>, requests: seq<string>) {
    && |path| == |requests| + 1
    && forall i :: 0 <= i < |requests| ==> Edge(w, path[i], requests[i], path[i + 1])
  }

  /** `t` is reached from `root` by `n` re-exports. */
  ghost predicate ReachedIn(w: World, root: Specifier, t: Specifier, n: nat) {
    exists path, requests :: Chain(w, path, requests) && |requests| == n && path[0] == root && path[n] == t
  }

  ghost predicate Reachable(w: World, root: Specifier, t: Specifier) {
    exists n :: ReachedIn(w, root, t, n)
  }

  lemma ReachStep(w: World, root: Specifier, s: Specifier, x: string, t: Specifier)
    requires Reachable(w, root, s) && Edge(w, s, x, t)
    ensures Reachable(w, root, t)
  {
    var n: nat :| ReachedIn(w, root, s, n);
    var path, requests :| Chain(w, path, requests) && |requests| == n && path[0] == root && path[n] == s;
    var path', requests' := path + [t], requests + [x];
    assert Chain(w, path', requests') by {
      forall i | 0 <= i < |requests'| ensures Edge(w, path'[i], requests'[i], path'[i + 1]) {
        if i < n { assert Edge(w, path[i], requests[i], path[i + 1]); }
      }
    }
    assert ReachedIn(w, root, t, n + 1);
  }

  lemma ReachSelf(w: World, root: Specifier)
    ensures Reachable(w, root, root)
  {
    assert Chain(w, [root], []);
    assert ReachedIn(w, root, root, 0);
  }

  /** The name is exported by the module itself, or by a module reached through re-exports and is not
      that module's default. */
  ghost predicate Offers(w: World, root: Specifier, name: string) {
    exists t :: Reachable(w, root, t) && Contributes(w, root, t, name)
  }

  predicate Contributes(w: World, root: Specifier, t: Specifier, name: string) {
    IsCjs(w, t) && name in w.analyze(t).value.exports && (t == root || name != DEFAULT)
  }

  /** A request resolves the same from every module that is reached. */
  ghost predicate RequestsAgree(w: World, root: Specifier) {
    forall s, s', x, t, t' :: Reachable(w, root, s) && Reachable(w, root, s') && Edge(w, s, x, t) && Edge(w, s', x, t')
      ==> t == t'
  }

  // ----- the worklist -----

  type Item = (string, Specifier)

  /** The requests of a module, with the module as their referrer. */
  function Requests(reexports: seq<string>, referrer: Specifier): (items: seq<Item>)
    ensures |items| == |reexports| && forall i :: 0 <= i < |items| ==> items[i] == (reexports[i], referrer)
  {
    seq(|reexports|, i requires 0 <= i < |reexports| => (reexports[i], referrer))
  }

  function Reexports(w: World, s: Specifier): seq<string> {
    if IsCjs(w, s) then w.analyze(s).value.reexports else []
  }

  /** Everything the modules ask for, in the order in which the queue receives it. */
  function Stream(w: World, order: seq<Specifier>): seq<Item> {
    if order == [] then []
    else
      var n := |order| - 1;
      Stream(w, order[..n]) + Requests(Reexports(w, order[n]), order[n])
  }

  function Strings(items: seq<Item>): set<string> {
    if items == [] then {} else {items[0].0} + Strings(items[1..])
  }

  /** The items that are the first to ask for a string that is not in `handled`. */
  function FirstAsks(items: seq<Item>, handled: set<string>): seq<Item> {
    if items == [] then []
    else if items[0].0 in handled then FirstAsks(items[1..], handled)
    else [items[0]] + FirstAsks(items[1..], handled + {items[0].0})
  }

  /** The first asks of all that the modules ask for. */
  function Asks(w: World, order: seq<Specifier>): seq<Item> {
    FirstAsks(Stream(w, order), {})
  }

  /** After the modules of `order`, the next one consulted is what their first unanswered ask resolves to. */
  function NextModule(w: World, order: seq<Specifier>): Option<Specifier> {
    var asks := Asks(w, order);
    if 0 < |order| <= |asks| then w.resolve(asks[|order| - 1].0, asks[|order| - 1].1) else None
  }

  ghost predicate Follows(next: seq<Specifier> -> Option<Specifier>, root: Specifier, order: seq<Specifier>) {
    order != [] && order[0] == root && forall i | 0 < i < |order| :: next(order[..i]) == Some(order[i])
  }

  function Next(w: World): seq<Specifier> -> Option<Specifier> {
    order => NextModule(w, order)
  }

  /** The modules consulted, in order: each string is resolved once, for the module that asks for it first,
      until no first ask is left. */
  ghost predicate Consulted(w: World, root: Specifier, order: seq<Specifier>) {
    Follows(Next(w), root, order) && |Asks(w, order)| == |order| - 1
  }

  lemma {:induction false} SamePrefix(next: seq<Specifier> -> Option<Specifier>, root: Specifier, a: seq<Specifier>,
                                      b: seq<Specifier>, n: nat)
    requires Follows(next, root, a) && Follows(next, root, b) && 0 < n <= |a| && n <= |b|
    ensures a[..n] == b[..n]
  {
    if n == 1 {
      assert a[..1] == [root] && b[..1] == [root];
    } else {
      SamePrefix(next, root, a, b, n - 1);
      assert next(a[..n - 1]) == Some(a[n - 1]) && next(b[..n - 1]) == Some(b[n - 1]);
      assert a[..n] == a[..n - 1] + [a[n - 1]] && b[..n] == b[..n - 1] + [b[n - 1]];
    }
  }

  lemma NotLonger(next: seq<Specifier> -> Option<Specifier>, root: Specifier, a: seq<Specifier>, b: seq<Specifier>)
    requires Follows(next, root, a) && Follows(next, root, b) && next(a) == None
    ensures |b| <= |a|
  {
    assert a[..|a|] == a;
    if |a| < |b| {
      SamePrefix(next, root, a, b, |a|);
      assert false;
    }
  }

  /** The order is determined. */
  lemma ConsultedIsUnique(w: World, root: Specifier, a: seq<Specifier>, b: seq<Specifier>)
    requires Consulted(w, root, a) && Consulted(w, root, b)
    ensures a == b
  {
    assert Next(w)(a) == None && Next(w)(b) == None;
    NotLonger(Next(w), root, a, b);
    NotLonger(Next(w), root, b, a);
    SamePrefix(Next(w), root, a, b, |a|);
    assert a[..|a|] == a && b[..|a|] == b;
  }

  // ----- first asks -----

  lemma {:induction false} StringsConcat(a: seq<Item>, b: seq<Item>)
    ensures Strings(a + b) == Strings(a) + Strings(b)
  {
    if a == [] {
      assert a + b == b;
    } else {
      assert (a + b)[0] == a[0] && (a + b)[1..] == a[1..] + b;
      StringsConcat(a[1..], b);
    }
  }

  lemma {:induction false} FirstAsksConcat(a: seq<Item>, b: seq<Item>, handled: set<string>)
    ensures FirstAsks(a + b, handled) == FirstAsks(a, handled) + FirstAsks(b, handled + Strings(a))
    decreases |a|
  {
    if a == [] {
      assert a + b == b && handled + Strings(a) == handled;
    } else {
      assert (a + b)[0] == a[0] && (a + b)[1..] == a[1..] + b;
      var x := a[0].0;
      FirstAsksConcat(a[1..], b, handled + {x});
      FirstAsksConcat(a[1..], b, handled);
      assert handled + Strings(a) == handled + {x} + Strings(a[1..]);
      assert x in handled ==> handled + {x} == handled;
    }
  }

  lemma StreamStep(w: World, order: seq<Specifier>, t: Specifier)
    ensures Stream(w, order + [t]) == Stream(w, order) + Requests(Reexports(w, t), t)
  {
    assert (order + [t])[..|order|] == order;
  }

  lemma {:induction false} ItemIsAsked(items: seq<Item>, k: nat)
    requires k < |items|
    ensures items[k].0 in Strings(items)
  {
    if k > 0 { ItemIsAsked(items[1..], k - 1); }
  }

  /** Every item of the stream is asked by one of the modules. */
  lemma {:induction false} AskersAreConsulted(w: World, order: seq<Specifier>, i: Item)
    requires i in Stream(w, order)
    ensures i.1 in order && i.0 in Reexports(w, i.1)
    decreases |order|
  {
    var n := |order| - 1;
    if i in Stream(w, order[..n]) {
      AskersAreConsulted(w, order[..n], i);
    }
  }

  lemma ModuleAsks(w: World, s: Specifier, x: string)
    requires x in Reexports(w, s)
    ensures x in Strings(Requests(Reexports(w, s), s))
  {
    var k :| 0 <= k < |Reexports(w, s)| && Reexports(w, s)[k] == x;
    ItemIsAsked(Requests(Reexports(w, s), s), k);
  }

  lemma {:induction false} RequestsAreAsked(w: World, order: seq<Specifier>, s: Specifier, x: string)
    requires s in order && x in Reexports(w, s)
    ensures x in Strings(Stream(w, order))
    decreases |order|
  {
    var n := |order| - 1;
    StringsConcat(Stream(w, order[..n]), Requests(Reexports(w, order[n]), order[n]));
    if s == order[n] {
      ModuleAsks(w, s, x);
    } else {
      RequestsAreAsked(w, order[..n], s, x);
    }
  }

  /** First asks are items, and ask for every string that was not handled. */
  lemma {:induction false} FirstAsksAre(items: seq<Item>, handled: set<string>, x: string)
    requires x in Strings(items) && x !in handled
    ensures exists k | 0 <= k < |FirstAsks(items, handled)| :: FirstAsks(items, handled)[k].0 == x
    decreases |items|
  {
    if items[0].0 == x {
      assert FirstAsks(items, handled)[0].0 == x;
    } else if items[0].0 in handled {
      FirstAsksAre(items[1..], handled, x);
      assert FirstAsks(items, handled) == FirstAsks(items[1..], handled);
    } else {
      var rest := FirstAsks(items[1..], handled + {items[0].0});
      FirstAsksAre(items[1..], handled + {items[0].0}, x);
      var k :| 0 <= k < |rest| && rest[k].0 == x;
      assert FirstAsks(items, handled)[k + 1].0 == x;
    }
  }

  lemma {:induction false} FirstAsksAreItems(items: seq<Item>, handled: set<string>)
    ensures forall i <- FirstAsks(items, handled) :: i in items
    decreases |items|
  {
    if items != [] {
      FirstAsksAreItems(items[1..], handled);
      FirstAsksAreItems(items[1..], handled + {items[0].0});
    }
  }

  // ----- the chosen modules -----

  /** `chosen` sends each string the modules ask for to the module its first asker resolves it to. */
  ghost predicate IsChoice(asks: seq<Item>, order: seq<Specifier>, chosen: map<string, Specifier>) {
    && |asks| == |order| - 1
    && (forall i | 0 <= i < |asks| :: asks[i].0 in chosen && chosen[asks[i].0] == order[i + 1])
    && (forall x <- chosen :: exists i | 0 <= i < |asks| :: asks[i].0 == x)
  }

  lemma ChoiceGrows(asks: seq<Item>, order: seq<Specifier>, chosen: map<string, Specifier>, i: Item, t: Specifier)
    requires IsChoice(asks, order, chosen) && i.0 !in chosen
    ensures IsChoice(asks + [i], order + [t], chosen[i.0 := t])
  {
    var asks', chosen' := asks + [i], chosen[i.0 := t];
    forall x <- chosen' ensures exists k | 0 <= k < |asks'| :: asks'[k].0 == x {
      if x == i.0 {
        assert asks'[|asks|].0 == x;
      } else {
        var k :| 0 <= k < |asks| && asks[k].0 == x;
        assert asks'[k].0 == x;
      }
    }
  }

  /** The world in which a string resolves to the chosen module, whoever asks. */
  function Restricted(w: World, chosen: map<string, Specifier>): World {
    World(w.analyze, (x, s) => if x in chosen then Some(chosen[x]) else None)
  }

  lemma MoreChosen(w: World, chosen: map<string, Specifier>, x: string, t: Specifier, root: Specifier, s: Specifier)
    requires x !in chosen && Reachable(Restricted(w, chosen), root, s)
    ensures Reachable(Restricted(w, chosen[x := t]), root, s)
  {
    var r, r' := Restricted(w, chosen), Restricted(w, chosen[x := t]);
    var n: nat :| ReachedIn(r, root, s, n);
    var path, requests :| Chain(r, path, requests) && |requests| == n && path[0] == root && path[n] == s;
    forall i | 0 <= i < |requests| ensures Edge(r', path[i], requests[i], path[i + 1]) {
      assert Edge(r, path[i], requests[i], path[i + 1]);
    }
    assert Chain(r', path, requests);
    assert ReachedIn(r', root, s, n);
  }

  // ----- the loop -----

  ghost predicate NamesAre(w: World, root: Specifier, names: set<string>, order: seq<Specifier>) {
    forall e :: e in names <==> exists s <- order :: Contributes(w, root, s, e)
  }

  ghost predicate AllReached(w: World, root: Specifier, order: seq<Specifier>, chosen: map<string, Specifier>) {
    forall s <- order :: IsCjs(w, s) && Reachable(w, root, s) && Reachable(Restricted(w, chosen), root, s)
  }

  /** What is left in the queue: the asks answered so far and the first asks in the queue are all first asks. */
  ghost predicate QueueInv(w: World, queue: seq<Item>, handled: set<string>, order: seq<Specifier>, asks: seq<Item>) {
    && Asks(w, order) == asks + FirstAsks(queue, handled)
    && Strings(Stream(w, order)) == handled + Strings(queue)
    && forall i <- queue :: i in Stream(w, order)
  }

  ghost predicate LoopInv(w: World, root: Specifier, queue: seq<Item>, handled: set<string>, names: set<string>,
                          order: seq<Specifier>, asks: seq<Item>, chosen: map<string, Specifier>)
  {
    && QueueInv(w, queue, handled, order, asks)
    && Follows(Next(w), root, order)
    && IsChoice(asks, order, chosen) && chosen.Keys == handled && |order| == |handled| + 1
    && NamesAre(w, root, names, order)
    && AllReached(w, root, order, chosen)
  }

  lemma StartInv(w: World, root: Specifier, names: set<string>)
    requires IsCjs(w, root) && names == set e | e in w.analyze(root).value.exports
    ensures LoopInv(w, root, Requests(w.analyze(root).value.reexports, root), {}, names, [root], [], map[])
  {
    var queue := Requests(w.analyze(root).value.reexports, root);
    StreamStep(w, [], root);
    assert [] + [root] == [root] && Stream(w, []) + queue == queue;
    assert [] + FirstAsks(queue, {}) == FirstAsks(queue, {});
    ReachSelf(w, root);
    ReachSelf(Restricted(w, map[]), root);
    forall e ensures e in names <==> exists s <- [root] :: Contributes(w, root, s, e) {
      if e in names { assert root in [root] && Contributes(w, root, root, e); }
    }
  }

  /** A string that was handled is skipped. */
  lemma SkipKeepsInv(w: World, queue: seq<Item>, handled: set<string>, order: seq<Specifier>, asks: seq<Item>)
    requires QueueInv(w, queue, handled, order, asks) && queue != [] && queue[0].0 in handled
    ensures QueueInv(w, queue[1..], handled, order, asks)
  {
    assert handled + Strings(queue) == handled + Strings(queue[1..]);
  }

  /** The requests of a new module go to the end of the queue. */
  lemma QueueGrows(w: World, queue: seq<Item>, handled: set<string>, order: seq<Specifier>, asks: seq<Item>,
                   t: Specifier)
    requires QueueInv(w, queue, handled, order, asks) && queue != [] && queue[0].0 !in handled
    ensures QueueInv(w, queue[1..] + Requests(Reexports(w, t), t), handled + {queue[0].0}, order + [t],
                     asks + [queue[0]])
  {
    var stream, more := Stream(w, order), Requests(Reexports(w, t), t);
    var handled' := handled + {queue[0].0};
    var rest := queue[1..];
    StreamStep(w, order, t);
    StringsConcat(stream, more);
    StringsConcat(rest, more);
    FirstAsksConcat(stream, more, {});
    FirstAsksConcat(rest, more, handled');
    assert {} + Strings(stream) == Strings(stream) == handled' + Strings(rest);
    Regroup(asks, queue[0], FirstAsks(rest, handled'), FirstAsks(more, Strings(stream)));
  }

  lemma Regroup(asks: seq<Item>, i: Item, a: seq<Item>, b: seq<Item>)
    ensures asks + ([i] + a) + b == asks + [i] + (a + b)
  {
  }

  lemma NamesGrow(w: World, root: Specifier, names: set<string>, order: seq<Specifier>, t: Specifier,
                  added: set<string>)
    requires NamesAre(w, root, names, order) && root in order && IsCjs(w, t)
    requires added == set e | e in w.analyze(t).value.exports && e != DEFAULT
    ensures NamesAre(w, root, names + added, order + [t])
  {
    forall e ensures e in names + added <==> exists s <- order + [t] :: Contributes(w, root, s, e) {
      if s :| s in order && Contributes(w, root, s, e) { assert s in order + [t]; }
      if e in added { assert t in order + [t] && Contributes(w, root, t, e); }
    }
  }

  lemma OrderGrows(next: seq<Specifier> -> Option<Specifier>, root: Specifier, order: seq<Specifier>, t: Specifier)
    requires Follows(next, root, order) && next(order) == Some(t)
    ensures Follows(next, root, order + [t])
  {
    var order' := order + [t];
    forall i | 0 < i < |order'| ensures next(order'[..i]) == Some(order'[i]) {
      if i < |order| {
        assert order'[..i] == order[..i];
      } else {
        assert order'[..i] == order;
      }
    }
  }

  lemma ReachedGrows(w: World, root: Specifier, order: seq<Specifier>, chosen: map<string, Specifier>, x: string,
                     s: Specifier, t: Specifier)
    requires AllReached(w, root, order, chosen) && x !in chosen && s in order && Edge(w, s, x, t) && IsCjs(w, t)
    ensures AllReached(w, root, order + [t], chosen[x := t])
  {
    var r' := Restricted(w, chosen[x := t]);
    forall u <- order { MoreChosen(w, chosen, x, t, root, u); }
    ReachStep(w, root, s, x, t);
    ReachStep(r', root, s, x, t);
  }

  lemma NextIsResolved(w: World, queue: seq<Item>, handled: set<string>, order: seq<Specifier>, asks: seq<Item>,
                       t: Specifier)
    requires QueueInv(w, queue, handled, order, asks) && queue != [] && queue[0].0 !in handled && |asks| == |order| - 1
    requires w.resolve(queue[0].0, queue[0].1) == Some(t)
    ensures Next(w)(order) == Some(t)
  {
    assert Asks(w, order)[|asks|] == queue[0];
  }

  lemma StepKeepsQueue(w: World, root: Specifier, queue: seq<Item>, handled: set<string>, order: seq<Specifier>,
                       asks: seq<Item>, t: Specifier)
    requires QueueInv(w, queue, handled, order, asks) && Follows(Next(w), root, order) && |asks| == |order| - 1
    requires queue != [] && queue[0].0 !in handled && w.resolve(queue[0].0, queue[0].1) == Some(t)
    ensures QueueInv(w, queue[1..] + Requests(Reexports(w, t), t), handled + {queue[0].0}, order + [t],
                     asks + [queue[0]])
    ensures Follows(Next(w), root, order + [t])
    ensures queue[0].1 in order && queue[0].0 in Reexports(w, queue[0].1)
  {
    QueueGrows(w, queue, handled, order, asks, t);
    NextIsResolved(w, queue, handled, order, asks, t);
    OrderGrows(Next(w), root, order, t);
    AskersAreConsulted(w, order, queue[0]);
  }

  lemma StepKeepsRest(w: World, root: Specifier, i: Item, handled: set<string>, names: set<string>,
                      order: seq<Specifier>, asks: seq<Item>, chosen: map<string, Specifier>, t: Specifier,
                      added: set<string>)
    requires IsChoice(asks, order, chosen) && chosen.Keys == handled && |order| == |handled| + 1
    requires NamesAre(w, root, names, order) && AllReached(w, root, order, chosen) && root in order
    requires i.0 !in handled && i.1 in order && Edge(w, i.1, i.0, t) && IsCjs(w, t)
    requires added == set e | e in w.analyze(t).value.exports && e != DEFAULT
    ensures IsChoice(asks + [i], order + [t], chosen[i.0 := t]) && chosen[i.0 := t].Keys == handled + {i.0}
    ensures |order + [t]| == |handled + {i.0}| + 1
    ensures NamesAre(w, root, names + added, order + [t]) && AllReached(w, root, order + [t], chosen[i.0 := t])
  {
    NamesGrow(w, root, names, order, t, added);
    ChoiceGrows(asks, order, chosen, i, t);
    ReachedGrows(w, root, order, chosen, i.0, i.1, t);
  }

  /** One new module was resolved and analysed. */
  lemma StepKeepsInv(w: World, root: Specifier, queue: seq<Item>, handled: set<string>, names: set<string>,
                     order: seq<Specifier>, asks: seq<Item>, chosen: map<string, Specifier>, t: Specifier,
                     added: set<string>)
    requires LoopInv(w, root, queue, handled, names, order, asks, chosen) && queue != [] && queue[0].0 !in handled
    requires w.resolve(queue[0].0, queue[0].1) == Some(t) && IsCjs(w, t)
    requires added == set e | e in w.analyze(t).value.exports && e != DEFAULT
    ensures LoopInv(w, root, queue[1..] + Requests(w.analyze(t).value.reexports, t), handled + {queue[0].0},
                    names + added, order + [t], asks + [queue[0]], chosen[queue[0].0 := t])
  {
    StepKeepsQueue(w, root, queue, handled, order, asks, t);
    StepKeepsRest(w, root, queue[0], handled, names, order, asks, chosen, t, added);
  }

  // ----- when everything offered is collected -----

  lemma ChainPrefix(w: World, root: Specifier, path: seq<Specifier>, requests: seq<string>, n: nat)
    requires Chain(w, path, requests) && n < |requests| && path[0] == root
    ensures ReachedIn(w, root, path[n], n) && Edge(w, path[n], requests[n], path[n + 1])
  {
    var path', requests' := path[..n + 1], requests[..n];
    forall i | 0 <= i < |requests'| ensures Edge(w, path'[i], requests'[i], path'[i + 1]) {
      assert Edge(w, path[i], requests[i], path[i + 1]);
    }
    assert Chain(w, path', requests') && path'[n] == path[n];
  }

  /** The modules are closed under re-exports. */
  ghost predicate IsClosed(w: World, order: seq<Specifier>) {
    forall s, x, t :: s in order && Edge(w, s, x, t) ==> t in order
  }

  lemma {:induction false} ClosedHasAll(w: World, root: Specifier, order: seq<Specifier>, t: Specifier, n: nat)
    requires root in order && IsClosed(w, order) && ReachedIn(w, root, t, n)
    ensures t in order
    decreases n
  {
    if n > 0 {
      var path, requests :| Chain(w, path, requests) && |requests| == n && path[0] == root && path[n] == t;
      ChainPrefix(w, root, path, requests, n - 1);
      ClosedHasAll(w, root, order, path[n - 1], n - 1);
    }
  }

  /** The consulted modules are exactly those reached when every string leads where its first asker resolves it. */
  lemma ConsultedAreReached(w: World, root: Specifier, order: seq<Specifier>, chosen: map<string, Specifier>,
                            t: Specifier)
    requires Consulted(w, root, order) && IsChoice(Asks(w, order), order, chosen) && AllReached(w, root, order, chosen)
    ensures t in order <==> Reachable(Restricted(w, chosen), root, t)
  {
    var r, asks := Restricted(w, chosen), Asks(w, order);
    assert IsClosed(r, order) by {
      forall s, x, u | s in order && Edge(r, s, x, u) ensures u in order {
        var i :| 0 <= i < |asks| && asks[i].0 == x;
        assert u == order[i + 1];
      }
    }
    if Reachable(r, root, t) {
      var n: nat :| ReachedIn(r, root, t, n);
      ClosedHasAll(r, root, order, t, n);
    }
  }

  /** Every module that is reached was consulted exactly when the consulted modules are closed under re-exports. */
  lemma AllConsultedIff(w: World, root: Specifier, order: seq<Specifier>)
    requires root in order && forall s <- order :: Reachable(w, root, s)
    ensures AllConsulted(w, root, order) <==> IsClosed(w, order)
  {
    if IsClosed(w, order) {
      forall t | Reachable(w, root, t) ensures t in order {
        var n: nat :| ReachedIn(w, root, t, n);
        ClosedHasAll(w, root, order, t, n);
      }
    }
    if AllConsulted(w, root, order) {
      forall s, x, t | s in order && Edge(w, s, x, t) ensures t in order { ReachStep(w, root, s, x, t); }
    }
  }

  /** When requests agree the consulted modules are closed. */
  lemma AgreementCloses(w: World, root: Specifier, order: seq<Specifier>)
    requires Consulted(w, root, order) && RequestsAgree(w, root)
             && (forall s <- order :: IsCjs(w, s) && Reachable(w, root, s))
    ensures IsClosed(w, order)
  {
    forall s, x, t | s in order && Edge(w, s, x, t) ensures t in order {
      RequestsAreAsked(w, order, s, x);
      var u, i := FirstAsker(w, root, order, x);
      assert Reachable(w, root, u) && Edge(w, u, x, order[i]);
    }
  }

  /** The next module consulted after an ask is what the ask resolves to. */
  lemma AskIsResolved(w: World, root: Specifier, order: seq<Specifier>, k: nat)
    requires Consulted(w, root, order) && k < |Asks(w, order)|
    ensures k + 1 < |order| && w.resolve(Asks(w, order)[k].0, Asks(w, order)[k].1) == Some(order[k + 1])
  {
    var i := k + 1;
    AsksGrow(w, order, i);
    assert Next(w)(order[..i]) == Some(order[i]);
    assert NextModule(w, order[..i]) == Some(order[i]);
  }

  lemma AskIsItem(w: World, order: seq<Specifier>, k: nat)
    requires k < |Asks(w, order)|
    ensures Asks(w, order)[k] in Stream(w, order)
  {
    FirstAsksAreItems(Stream(w, order), {});
  }

  /** The module that asked for a string first, and the one it was resolved to. */
  lemma FirstAsker(w: World, root: Specifier, order: seq<Specifier>, x: string) returns (u: Specifier, i: nat)
    requires Consulted(w, root, order) && (forall s <- order :: IsCjs(w, s)) && x in Strings(Stream(w, order))
    ensures u in order && 0 < i < |order| && Edge(w, u, x, order[i])
  {
    FirstAsksAre(Stream(w, order), {}, x);
    var k :| 0 <= k < |Asks(w, order)| && Asks(w, order)[k].0 == x;
    i, u := k + 1, Asks(w, order)[k].1;
    AskIsResolved(w, root, order, k);
    AskIsItem(w, order, k);
    AskersAreConsulted(w, order, Asks(w, order)[k]);
  }

  lemma {:induction false} AsksGrow(w: World, order: seq<Specifier>, i: nat)
    requires i <= |order|
    ensures Asks(w, order[..i]) <= Asks(w, order)
    decreases |order|
  {
    if i == |order| {
      assert order[..i] == order;
    } else {
      var n := |order| - 1;
      AsksGrow(w, order[..n], i);
      assert order[..n][..i] == order[..i];
      FirstAsksConcat(Stream(w, order[..n]), Requests(Reexports(w, order[n]), order[n]), {});
    }
  }

  /** A module on the way whose request cannot be followed. */
  ghost predicate Broken(w: World, root: Specifier, e: TranslateError) {
    exists s, x :: Reachable(w, root, s) && IsCjs(w, s) && x in w.analyze(s).value.reexports && FailsWith(w, s, x, e)
  }

  predicate FailsWith(w: World, s: Specifier, x: string, e: TranslateError) {
    match w.resolve(x, s)
    case None => e == ResolutionFailed
    case Some(t) =>
      match w.analyze(t)
      case None => e == AnalysisFailed
      case Some(a) => a.Esm? && e == CannotRequireEsm
  }

  /** Every offered name is collected. */
  ghost predicate IsComplete(w: World, root: Specifier, names: set<string>) {
    forall e :: Offers(w, root, e) ==> e in names
  }

  /** Every name that a reached module contributes is contributed by a consulted one as well. */
  ghost predicate NothingElse(w: World, root: Specifier, order: seq<Specifier>) {
    forall t, e :: Reachable(w, root, t) && Contributes(w, root, t, e) ==>
      exists s <- order :: Contributes(w, root, s, e)
  }

  ghost predicate AllConsulted(w: World, root: Specifier, order: seq<Specifier>) {
    forall t :: Reachable(w, root, t) ==> t in order
  }

  /** The modules are those reached when strings lead to the chosen modules. */
  ghost predicate ReachedByChoice(w: World, root: Specifier, order: seq<Specifier>, chosen: map<string, Specifier>) {
    forall t :: t in order <==> Reachable(Restricted(w, chosen), root, t)
  }

  /** The names are those of the modules consulted, all of them offered, and all that is offered exactly when no
      other reached module contributes a name of its own. */
  ghost predicate AreCollected(w: World, root: Specifier, names: set<string>, order: seq<Specifier>,
                               chosen: map<string, Specifier>)
  {
    && Consulted(w, root, order) && IsChoice(Asks(w, order), order, chosen)
    && ReachedByChoice(w, root, order, chosen) && NamesAre(w, root, names, order)
    && (forall e <- names :: Offers(w, root, e))
    && (IsComplete(w, root, names) <==> NothingElse(w, root, order))
    && (AllConsulted(w, root, order) <==> IsClosed(w, order))
    && (RequestsAgree(w, root) ==> IsComplete(w, root, names))
  }

  /** Resolves and analyses one re-export. */
  method Consult(w: World, reexport: string, referrer: Specifier) returns (r: Result<Specifier, TranslateError>)
    ensures r.Ok? ==> w.resolve(reexport, referrer) == Some(r.value) && IsCjs(w, r.value)
    ensures r.Err? ==> FailsWith(w, referrer, reexport, r.error)
  {
    var resolved := w.resolve(reexport, referrer);
    if resolved.None? { return Err(ResolutionFailed); }
    var analysis := w.analyze(resolved.value);
    if analysis.None? { return Err(AnalysisFailed); }
    if analysis.value.Esm? { return Err(CannotRequireEsm); }
    return Ok(resolved.value);
  }

  lemma FailureIsBroken(w: World, root: Specifier, queue: seq<Item>, handled: set<string>, names: set<string>,
                        order: seq<Specifier>, asks: seq<Item>, chosen: map<string, Specifier>, e: TranslateError)
    requires LoopInv(w, root, queue, handled, names, order, asks, chosen) && queue != []
    requires FailsWith(w, queue[0].1, queue[0].0, e)
    ensures Broken(w, root, e)
  {
    AskersAreConsulted(w, order, queue[0]);
  }

  lemma AskIsKnown(w: World, root: Specifier, queue: seq<Item>, handled: set<string>, names: set<string>,
                   order: seq<Specifier>, asks: seq<Item>, chosen: map<string, Specifier>)
    requires LoopInv(w, root, queue, handled, names, order, asks, chosen) && queue != []
    ensures Reachable(w, root, queue[0].1) && IsCjs(w, queue[0].1)
    ensures queue[0].0 in w.analyze(queue[0].1).value.reexports
  {
    AskersAreConsulted(w, order, queue[0]);
  }

  /** The worklist loop. It ends on cyclic re-exports as long as only finitely many request strings occur.
      It consults the root and, for each string, the module its first asker resolves it to; these are the
      modules reached when every string leads there. The names it collects are exactly those the consulted
      modules contribute, all of them offered. They are all that is offered exactly when no other reached
      module contributes a name of its own; when requests agree there is no other reached module. */
  method CollectExports(w: World, root: Specifier, ghost strings: set<string>)
    returns (r: Result<set<string>, TranslateError>, ghost order: seq<Specifier>, ghost chosen: map<string, Specifier>)
    requires IsCjs(w, root)
    requires forall s, x :: Reachable(w, root, s) && IsCjs(w, s) && x in w.analyze(s).value.reexports ==> x in strings
    ensures r.Ok? ==> |order| <= |strings| + 1 && AreCollected(w, root, r.value, order, chosen)
    ensures r.Err? ==> Broken(w, root, r.error)
  {
    var names := set e | e in w.analyze(root).value.exports;
    var queue := Requests(w.analyze(root).value.reexports, root);
    var handled: set<string> := {};
    order, chosen := [root], map[];
    ghost var asks := [];
    StartInv(w, root, names);
    while queue != []
      invariant LoopInv(w, root, queue, handled, names, order, asks, chosen) && handled <= strings
      decreases strings - handled, |queue|
    {
      var (reexport, referrer) := queue[0];
      if reexport in handled {
        SkipKeepsInv(w, queue, handled, order, asks);
        queue := queue[1..];
        continue;
      }
      var consulted := Consult(w, reexport, referrer);
      if consulted.Err? {
        FailureIsBroken(w, root, queue, handled, names, order, asks, chosen, consulted.error);
        return Err(consulted.error), order, chosen;
      }
      var t := consulted.value;
      var added := set e | e in w.analyze(t).value.exports && e != DEFAULT;
      AskIsKnown(w, root, queue, handled, names, order, asks, chosen);
      StepKeepsInv(w, root, queue, handled, names, order, asks, chosen, t, added);
      asks, chosen := asks + [queue[0]], chosen[reexport := t];
      handled := handled + {reexport};
      queue := queue[1..] + Requests(w.analyze(t).value.reexports, t);
      names := names + added;
      order := order + [t];
    }
    Finished(w, root, names, order, handled, asks, chosen);
    SubsetSize(handled, strings);
    return Ok(names), order, chosen;
  }

  lemma Finished(w: World, root: Specifier, names: set<string>, order: seq<Specifier>, handled: set<string>,
                 asks: seq<Item>, chosen: map<string, Specifier>)
    requires LoopInv(w, root, [], handled, names, order, asks, chosen)
    ensures AreCollected(w, root, names, order, chosen)
  {
    assert asks + [] == asks;
    forall t { ConsultedAreReached(w, root, order, chosen, t); }
    AllConsultedIff(w, root, order);
    CompleteIff(w, root, names, order);
    if RequestsAgree(w, root) { AgreementCloses(w, root, order); }
  }

  lemma CompleteIff(w: World, root: Specifier, names: set<string>, order: seq<Specifier>)
    requires NamesAre(w, root, names, order)
    ensures IsComplete(w, root, names) <==> NothingElse(w, root, order)
  {
    if IsComplete(w, root, names) {
      forall t, e | Reachable(w, root, t) && Contributes(w, root, t, e)
        ensures exists s <- order :: Contributes(w, root, s, e)
      {
        assert Offers(w, root, e);
      }
    }
    if NothingElse(w, root, order) {
      forall e | Offers(w, root, e) ensures e in names {
        var t :| Reachable(w, root, t) && Contributes(w, root, t, e);
      }
    }
  }

  /** Why requests must agree: a second module asking for the same string from elsewhere is not followed,
      and the name it offers is lost. */
  method DisagreeingRequestsLoseNames(w: World, root: Specifier, a: Specifier, b: Specifier, x: string, name: string)
    returns (r: Result<set<string>, TranslateError>)
    requires root != a && root != b && a != b && name != DEFAULT
    requires w.analyze(root) == Some(Cjs([], [x])) && w.analyze(a) == Some(Cjs([], [x]))
    requires w.analyze(b) == Some(Cjs([name], []))
    requires w.resolve(x, root) == Some(a) && w.resolve(x, a) == Some(b)
    ensures Offers(w, root, name) && r == Ok({})
  {
    ThreeModules(w, root, a, b, x);
    assert Contributes(w, root, b, name);
    ghost var order, chosen;
    r, order, chosen := CollectExports(w, root, {x});
    if r.Ok? {
      TwoModulesOnly(w, root, a, x, order);
      assert r.value == {};
    }
  }

  lemma ThreeModules(w: World, root: Specifier, a: Specifier, b: Specifier, x: string)
    requires w.analyze(root) == Some(Cjs([], [x])) && w.analyze(a) == Some(Cjs([], [x]))
    requires IsCjs(w, b) && w.analyze(b).value.reexports == []
    requires w.resolve(x, root) == Some(a) && w.resolve(x, a) == Some(b)
    ensures Reachable(w, root, b) && forall s :: Reachable(w, root, s) ==> s in [root, a, b]
  {
    ReachSelf(w, root);
    ReachStep(w, root, root, x, a);
    ReachStep(w, root, a, x, b);
    var all := [root, a, b];
    assert root in all && a in all && b in all;
    assert IsClosed(w, all);
    forall s | Reachable(w, root, s) ensures s in all {
      var n: nat :| ReachedIn(w, root, s, n);
      ClosedHasAll(w, root, all, s, n);
    }
  }

  /** The root and what it resolves the string to are consulted, and nothing else. */
  lemma TwoModulesOnly(w: World, root: Specifier, a: Specifier, x: string, order: seq<Specifier>)
    requires Consulted(w, root, order) && |order| <= 2
    requires w.analyze(root) == Some(Cjs([], [x])) && w.resolve(x, root) == Some(a)
    ensures forall s <- order :: s == root || s == a
  {
    if |order| == 2 {
      assert Next(w)(order[..1]) == Some(order[1]);
      assert order[..1] == [] + [root];
      StreamStep(w, [], root);
      assert Stream(w, [root]) == [(x, root)];
      assert [(x, root)][1..] == [];
      assert FirstAsks([(x, root)], {}) == [(x, root)] + FirstAsks([], {} + {x});
    }
  }
}
