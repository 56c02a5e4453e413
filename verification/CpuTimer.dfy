/** The timer registry of `crates/cpu_timer/src/lib.rs`: handles with a shared reference count, a FIFO
    queue of messages, and the loop that keeps the registry. */
module CpuTimer {

  datatype Msg = Add(id: nat) | Remove(id: nat) | Alarm(id: nat)

  /** `users`: user handles of each timer, those being dropped included. `dropping`: user handles whose
      `drop` has looked at the reference count but not released it. `processed`: messages the loop has
      taken off the queue. `delivered`: alarms that found their timer. */
  datatype State = State(
    users: seq<nat>,
    dropping: seq<nat>,
    queue: seq<Msg>,
    processed: seq<Msg>,
    registry: set<nat>,
    delivered: seq<nat>)

  /** `Drop` is `CheckDrop` and `FinishDrop` in one step. */
  datatype Event =
    | Start
    | Clone(id: nat)
    | Drop(id: nat)
    | CheckDrop(id: nat)
    | FinishDrop(id: nat)
    | Signal(id: nat)
    | Process

  const INITIAL := State([], [], [], [], {}, [])

  predicate Known(s: State, id: nat) {
    id < |s.users| && id < |s.dropping|
  }

  /** `Arc::strong_count`: user handles, the clone inside a queued `Add`, the clone in the registry. */
  function StrongCount(s: State, id: nat): nat
    requires Known(s, id)
  {
    s.users[id] + (if Add(id) in s.queue then 1 else 0) + (if id in s.registry then 1 else 0)
  }

  predicate Enabled(s: State, e: Event) {
    match e
    case Start => |s.users| == |s.dropping|
    case Clone(id) => Known(s, id) && s.users[id] > s.dropping[id]
    case Drop(id) => Known(s, id) && s.users[id] > s.dropping[id]
    case CheckDrop(id) => Known(s, id) && s.users[id] > s.dropping[id]
    case FinishDrop(id) => Known(s, id) && s.users[id] > 0 && s.dropping[id] > 0
    case Signal(_) => true
    case Process => s.queue != []
  }

  /** What `drop` sends when it sees `strong` references. */
  function DropMessage(strong: nat, id: nat): seq<Msg> {
    if strong == 2 then [Remove(id)] else []
  }

  function Apply(s: State, e: Event): State
    requires Enabled(s, e)
  {
    match e
    case Start =>
      s.(users := s.users + [1], dropping := s.dropping + [0], queue := s.queue + [Add(|s.users|)])
    case Clone(id) => s.(users := s.users[id := s.users[id] + 1])
    case Drop(id) =>
      s.(queue := s.queue + DropMessage(StrongCount(s, id), id), users := s.users[id := s.users[id] - 1])
    case CheckDrop(id) =>
      s.(queue := s.queue + DropMessage(StrongCount(s, id), id), dropping := s.dropping[id := s.dropping[id] + 1])
    case FinishDrop(id) =>
      s.(users := s.users[id := s.users[id] - 1], dropping := s.dropping[id := s.dropping[id] - 1])
    case Signal(id) => s.(queue := s.queue + [Alarm(id)])
    case Process =>
      var m := s.queue[0];
      var rest := s.(queue := s.queue[1..], processed := s.processed + [m]);
      match m
      case Add(id) => rest.(registry := s.registry + {id})
      case Remove(id) =>
        // the registry's own handle is dropped here
        var sent := if id in s.registry && Known(s, id) then DropMessage(StrongCount(s, id), id) else [];
        rest.(registry := s.registry - {id}, queue := rest.queue + sent)
      case Alarm(id) => if id in s.registry then rest.(delivered := s.delivered + [id]) else rest
  }

  /** `events` is a run from `s` to `s'`. */
  ghost predicate Leads(s: State, events: seq<Event>, s': State)
    decreases |events|
  {
    if events == [] then s == s' else Enabled(s, events[0]) && Leads(Apply(s, events[0]), events[1..], s')
  }

  predicate AtomicDrops(events: seq<Event>) {
    forall i :: 0 <= i < |events| ==> !events[i].CheckDrop? && !events[i].FinishDrop?
  }

  // ----- the messages of one timer -----

  /** The registrations and removals of one timer, in order. */
  function Of(messages: seq<Msg>, id: nat): seq<Msg> {
    if messages == [] then []
    else
      var m := messages[|messages| - 1];
      Of(messages[..|messages| - 1], id) + if m == Add(id) || m == Remove(id) then [m] else []
  }

  lemma OfAppend(messages: seq<Msg>, m: Msg, id: nat)
    ensures Of(messages + [m], id) == Of(messages, id) + if m == Add(id) || m == Remove(id) then [m] else []
  {
    assert (messages + [m])[..|messages|] == messages;
  }

  lemma {:induction false} OfConcat(a: seq<Msg>, b: seq<Msg>, id: nat)
    ensures Of(a + b, id) == Of(a, id) + Of(b, id)
  {
    if b == [] {
      assert a + b == a;
    } else {
      var n := |b| - 1;
      OfConcat(a, b[..n], id);
      OfAppend(a + b[..n], b[n], id);
      assert a + b[..n] + [b[n]] == a + b;
    }
  }

  lemma {:induction false} OfContains(messages: seq<Msg>, m: Msg)
    requires !m.Alarm?
    ensures m in messages <==> m in Of(messages, m.id)
  {
    if messages != [] {
      var n := |messages| - 1;
      OfContains(messages[..n], m);
      assert messages == messages[..n] + [messages[n]];
    }
  }

  /** Everything ever sent. */
  function Sent(s: State): seq<Msg> {
    s.processed + s.queue
  }

  lemma SentIs(s: State, id: nat)
    ensures Of(Sent(s), id) == Of(s.processed, id) + Of(s.queue, id)
  {
    OfConcat(s.processed, s.queue, id);
  }

  // ----- the invariant of every run -----

  /** The messages about a timer are its `Add`, and at most two `Remove`s. Once a `Remove` was sent no user handle is
      left but perhaps one that is being dropped; the second one is sent when the first is processed. */
  ghost predicate GoodTimer(s: State, id: nat) {
    var sent, done := Of(Sent(s), id), Of(s.processed, id);
    if !Known(s, id) then sent == [] && id !in s.registry
    else
      && s.dropping[id] <= s.users[id]
      && (id in s.registry <==> done == [Add(id)])
      && (|| sent == [Add(id)]
          || (sent == [Add(id), Remove(id)] && s.users[id] == s.dropping[id] <= 1)
          || (sent == [Add(id), Remove(id), Remove(id)] && s.users[id] == s.dropping[id] <= 1 && |done| >= 2))
  }

  ghost predicate Inv(s: State) {
    |s.users| == |s.dropping| && forall id: nat :: GoodTimer(s, id)
  }

  /** Until its `Remove` is processed a timer has exactly one reference besides its user handles, in the queue or in the
      registry. */
  lemma OneOtherReference(s: State, id: nat)
    requires Inv(s) && Known(s, id) && Remove(id) !in s.processed
    ensures StrongCount(s, id) == s.users[id] + 1
  {
    assert GoodTimer(s, id);
    SentIs(s, id);
    OfContains(s.queue, Add(id));
    OfContains(s.processed, Remove(id));
    var p, q := Of(s.processed, id), Of(s.queue, id);
    if p == [] {
      assert q[0] == (p + q)[0];
    } else {
      var all := p + q;
      assert forall i | 0 <= i < |p| :: all[i] == p[i] && all[i] in p;
      assert |all| > 1 ==> all[1] == Remove(id);
      assert |p| == 1 && p[0] == all[0];
      forall i | 0 <= i < |q| ensures q[i] != Add(id) { assert q[i] == (p + q)[|p| + i]; }
    }
  }

  /** A user handle that is not being dropped: no `Remove` was sent. */
  lemma LiveIsUnremoved(s: State, id: nat)
    requires Inv(s) && Known(s, id) && s.users[id] > s.dropping[id]
    ensures Of(Sent(s), id) == [Add(id)] && Remove(id) !in s.processed
  {
    assert GoodTimer(s, id);
    OfContains(Sent(s), Remove(id));
  }

  lemma SentAppend(s: State, s': State, m: Msg, id: nat)
    requires s'.processed == s.processed && s'.queue == s.queue + [m]
    ensures Of(Sent(s'), id) == Of(Sent(s), id) + if m == Add(id) || m == Remove(id) then [m] else []
  {
    assert Sent(s') == Sent(s) + [m];
    OfAppend(Sent(s), m, id);
  }

  /** Both ways of dropping look at the count while all but one handle may be in the middle of a drop. */
  lemma CheckKeepsTimer(s: State, e: Event, id: nat, k: nat)
    requires Inv(s) && Enabled(s, e) && (e == Drop(id) || e == CheckDrop(id))
    ensures GoodTimer(Apply(s, e), k)
    ensures Of(Sent(Apply(s, e)), k) == Of(Sent(s), k) + if k == id && s.users[id] == 1 then [Remove(id)] else []
  {
    var s' := Apply(s, e);
    assert GoodTimer(s, k);
    LiveIsUnremoved(s, id);
    OneOtherReference(s, id);
    if s.users[id] == 1 {
      SentAppend(s, s', Remove(id), k);
    } else {
      assert s'.queue == s.queue;
    }
  }

  lemma AtMiddle(all: seq<Msg>, p: seq<Msg>, m: Msg, q: seq<Msg>)
    requires all == p + [m] + q
    ensures |p| < |all| && all[|p|] == m && all[..|p|] == p
  {
  }

  lemma SentSplits(s: State, k: nat)
    requires s.queue != []
    ensures Of(Sent(s), k) == Of(s.processed + [s.queue[0]], k) + Of(s.queue[1..], k)
  {
    OfConcat(s.processed + [s.queue[0]], s.queue[1..], k);
    assert s.processed + [s.queue[0]] + s.queue[1..] == Sent(s);
  }

  /** The message about a timer at the front of the queue follows those processed. */
  lemma NextIsNext(s: State, k: nat)
    requires s.queue != [] && (s.queue[0] == Add(k) || s.queue[0] == Remove(k))
    ensures var sent, p := Of(Sent(s), k), Of(s.processed, k);
            |p| < |sent| && sent[|p|] == s.queue[0] && sent[..|p|] == p
  {
    SentSplits(s, k);
    OfAppend(s.processed, s.queue[0], k);
    AtMiddle(Of(Sent(s), k), Of(s.processed, k), s.queue[0], Of(s.queue[1..], k));
  }

  /** A `Remove` at the front: the first one finds its timer registered, with no reference left but perhaps that of a
      handle being dropped. */
  lemma RemoveAtFront(s: State, id: nat)
    requires Inv(s) && s.queue != [] && s.queue[0] == Remove(id)
    ensures Known(s, id) && s.users[id] == s.dropping[id] <= 1
    ensures id in s.registry <==> Of(s.processed, id) == [Add(id)]
    ensures id in s.registry ==> Of(Sent(s), id) == [Add(id), Remove(id)] && StrongCount(s, id) == s.users[id] + 1
    ensures id !in s.registry ==> Of(Sent(s), id) == [Add(id), Remove(id), Remove(id)] && |Of(s.processed, id)| == 2
  {
    assert GoodTimer(s, id);
    NextIsNext(s, id);
    var p := Of(s.processed, id);
    if |p| == 1 {
      assert p[0] == Of(Sent(s), id)[0];
      OfContains(s.processed, Remove(id));
      OneOtherReference(s, id);
    }
  }

  /** What processing a message sends: a second `Remove` if the first one is taken before its handle is released. */
  predicate IsEarly(s: State, id: nat) {
    s.queue != [] && s.queue[0] == Remove(id) && Known(s, id) && s.users[id] > 0
  }

  lemma ProcessSends(s: State, k: nat)
    requires Inv(s) && Enabled(s, Process)
    ensures Of(Sent(Apply(s, Process)), k)
         == Of(Sent(s), k) + if IsEarly(s, k) && k in s.registry then [Remove(k)] else []
  {
    var m, s' := s.queue[0], Apply(s, Process);
    assert s.processed + [m] + s.queue[1..] == Sent(s);
    if m.Remove? {
      RemoveAtFront(s, m.id);
      if m.id in s.registry && s.users[m.id] == 1 {
        assert Sent(s') == Sent(s) + [Remove(m.id)];
        OfAppend(Sent(s), Remove(m.id), k);
      } else {
        assert Sent(s') == Sent(s);
      }
    } else {
      assert Sent(s') == Sent(s);
    }
  }

  lemma ProcessFrame(s: State, k: nat)
    requires Enabled(s, Process) && s.queue[0] != Add(k) && s.queue[0] != Remove(k)
    ensures var s' := Apply(s, Process);
            && s'.users == s.users && s'.dropping == s.dropping && (k in s'.registry <==> k in s.registry)
            && s'.processed == s.processed + [s.queue[0]]
  {
  }

  lemma SameTimer(s: State, s': State, k: nat)
    requires GoodTimer(s, k) && s'.users == s.users && s'.dropping == s.dropping
             && (k in s'.registry <==> k in s.registry)
    requires Of(Sent(s'), k) == Of(Sent(s), k) && Of(s'.processed, k) == Of(s.processed, k)
    ensures GoodTimer(s', k)
  {
  }

  lemma ProcessKeepsOther(s: State, k: nat)
    requires Inv(s) && Enabled(s, Process) && s.queue[0] != Add(k) && s.queue[0] != Remove(k)
    ensures GoodTimer(Apply(s, Process), k)
  {
    assert GoodTimer(s, k);
    ProcessSends(s, k);
    ProcessFrame(s, k);
    OfAppend(s.processed, s.queue[0], k);
    SameTimer(s, Apply(s, Process), k);
  }

  lemma ProcessAdds(s: State, k: nat)
    requires Inv(s) && Enabled(s, Process) && s.queue[0] == Add(k)
    ensures GoodTimer(Apply(s, Process), k)
  {
    assert GoodTimer(s, k);
    ProcessSends(s, k);
    OfAppend(s.processed, Add(k), k);
    NextIsNext(s, k);
  }

  lemma ProcessRemoves(s: State, k: nat)
    requires Inv(s) && Enabled(s, Process) && s.queue[0] == Remove(k)
    ensures GoodTimer(Apply(s, Process), k)
  {
    assert GoodTimer(s, k);
    ProcessSends(s, k);
    OfAppend(s.processed, Remove(k), k);
    RemoveAtFront(s, k);
  }

  lemma ProcessKeepsTimer(s: State, k: nat)
    requires Inv(s) && Enabled(s, Process)
    ensures GoodTimer(Apply(s, Process), k)
  {
    if s.queue[0] == Add(k) {
      ProcessAdds(s, k);
    } else if s.queue[0] == Remove(k) {
      ProcessRemoves(s, k);
    } else {
      ProcessKeepsOther(s, k);
    }
  }

  lemma StepKeepsTimer(s: State, e: Event, k: nat)
    requires Inv(s) && Enabled(s, e)
    ensures GoodTimer(Apply(s, e), k)
  {
    var s' := Apply(s, e);
    assert GoodTimer(s, k);
    match e {
      case Start => SentAppend(s, s', Add(|s.users|), k); SentIs(s, k);
      case Clone(id) => LiveIsUnremoved(s, id);
      case Drop(id) => CheckKeepsTimer(s, e, id, k);
      case CheckDrop(id) => CheckKeepsTimer(s, e, id, k);
      case FinishDrop(id) =>
      case Signal(id) => SentAppend(s, s', Alarm(id), k);
      case Process => ProcessKeepsTimer(s, k);
    }
  }

  lemma StepKeepsInv(s: State, e: Event)
    requires Inv(s) && Enabled(s, e)
    ensures Inv(Apply(s, e))
  {
    forall k: nat ensures GoodTimer(Apply(s, e), k) { StepKeepsTimer(s, e, k); }
  }

  // ----- what was sent, and why -----

  /** A drop looks at the reference count of the timer while one user handle is left. */
  predicate SeesOneUser(s: State, e: Event, id: nat) {
    (e == Drop(id) || e == CheckDrop(id)) && Known(s, id) && s.users[id] == 1
  }

  /** Some drop of the run did. */
  ghost predicate SawOneUser(s: State, events: seq<Event>, id: nat)
    decreases |events|
  {
    events != [] && Enabled(s, events[0])
    && (SeesOneUser(s, events[0], id) || SawOneUser(Apply(s, events[0]), events[1..], id))
  }

  /** Some `Remove` of the run was processed while a handle of its timer was not released. */
  ghost predicate WasEarly(s: State, events: seq<Event>, id: nat)
    decreases |events|
  {
    events != [] && Enabled(s, events[0])
    && ((events[0] == Process && IsEarly(s, id)) || WasEarly(Apply(s, events[0]), events[1..], id))
  }

  /** What one step adds to the messages about a timer. */
  lemma StepSends(s: State, e: Event, id: nat)
    requires Inv(s) && Enabled(s, e)
    ensures Of(Sent(Apply(s, e)), id) == Of(Sent(s), id)
         + (if e == Start && id == |s.users| then [Add(id)]
            else if SeesOneUser(s, e, id) || (e == Process && IsEarly(s, id) && id in s.registry) then [Remove(id)]
            else [])
  {
    var s' := Apply(s, e);
    match e {
      case Start => SentAppend(s, s', Add(|s.users|), id);
      case Clone(_) =>
      case Drop(k) => CheckKeepsTimer(s, e, k, id);
      case CheckDrop(k) => CheckKeepsTimer(s, e, k, id);
      case FinishDrop(_) =>
      case Signal(k) => SentAppend(s, s', Alarm(k), id);
      case Process => ProcessSends(s, id);
    }
  }

  lemma StepCounts(s: State, e: Event, id: nat)
    requires Inv(s) && Enabled(s, e)
    ensures var sent, sent' := Of(Sent(s), id), Of(Sent(Apply(s, e)), id);
            && (|sent'| >= 2 <==> |sent| >= 2 || SeesOneUser(s, e, id))
            && (|sent'| >= 3 <==> |sent| >= 3 || (e == Process && IsEarly(s, id)))
  {
    assert GoodTimer(s, id);
    StepSends(s, e, id);
    if SeesOneUser(s, e, id) { LiveIsUnremoved(s, id); }
    if e == Process && IsEarly(s, id) { RemoveAtFront(s, id); }
  }

  lemma {:induction false} RunCounts(s: State, events: seq<Event>, s': State, id: nat)
    requires Inv(s) && Leads(s, events, s')
    ensures Inv(s')
    ensures var sent, sent' := Of(Sent(s), id), Of(Sent(s'), id);
            && (|sent'| >= 2 <==> |sent| >= 2 || SawOneUser(s, events, id))
            && (|sent'| >= 3 <==> |sent| >= 3 || WasEarly(s, events, id))
    decreases |events|
  {
    if events != [] {
      StepKeepsInv(s, events[0]);
      StepCounts(s, events[0], id);
      RunCounts(Apply(s, events[0]), events[1..], s', id);
    }
  }

  lemma InitialInv()
    ensures Inv(INITIAL)
  {
    forall k: nat ensures GoodTimer(INITIAL, k) {}
  }

  /** Over every run, for every started timer: its `Add` is sent once, then a `Remove` exactly when some drop
      looked at the reference count with one user handle left, and a second `Remove` exactly when one was
      processed before its handle was released. */
  lemma WhatIsSent(events: seq<Event>, s: State, id: nat)
    requires Leads(INITIAL, events, s) && id < |s.users|
    ensures Of(Sent(s), id) == [Add(id)]
                               + (if SawOneUser(INITIAL, events, id) then [Remove(id)] else [])
                               + (if WasEarly(INITIAL, events, id) then [Remove(id)] else [])
  {
    InitialInv();
    RunCounts(INITIAL, events, s, id);
    assert GoodTimer(s, id);
    assert Of(Sent(INITIAL), id) == [];
  }

  /** Over every run: until its `Remove` is processed, a timer has one reference besides its user handles. */
  lemma ReferenceCount(events: seq<Event>, s: State, id: nat)
    requires Leads(INITIAL, events, s) && Known(s, id) && Remove(id) !in s.processed
    ensures StrongCount(s, id) == s.users[id] + 1
  {
    InitialInv();
    RunCounts(INITIAL, events, s, id);
    OneOtherReference(s, id);
  }

  /** Over every run: a timer with a handle that is not being dropped is registered once its `Add` was
      processed, and has one other reference. */
  lemma LiveIsRegistered(events: seq<Event>, s: State, id: nat)
    requires Leads(INITIAL, events, s) && Known(s, id) && s.users[id] > s.dropping[id]
    ensures Add(id) in s.processed ==> id in s.registry
    ensures StrongCount(s, id) == s.users[id] + 1
  {
    InitialInv();
    RunCounts(INITIAL, events, s, id);
    LiveIsUnremoved(s, id);
    OneOtherReference(s, id);
    assert GoodTimer(s, id);
    SentIs(s, id);
    OfContains(s.processed, Add(id));
    var p, q := Of(s.processed, id), Of(s.queue, id);
    if Add(id) in s.processed { assert p[0] == (p + q)[0] && |p| == 1; }
  }

  /** Over every run: once the queue is drained, an unused timer is still registered exactly when no drop looked at the
      reference count with one user handle left. */
  lemma LeakIff(events: seq<Event>, s: State, id: nat)
    requires Leads(INITIAL, events, s) && Known(s, id) && s.users[id] == 0 && s.queue == []
    ensures id in s.registry <==> !SawOneUser(INITIAL, events, id)
  {
    InitialInv();
    RunCounts(INITIAL, events, s, id);
    WhatIsSent(events, s, id);
    assert GoodTimer(s, id);
    assert Sent(s) == s.processed;
  }

  /** An alarm of a registered timer with a user handle reaches it. */
  lemma AlarmIsDelivered(events: seq<Event>, s: State, id: nat)
    requires Leads(INITIAL, events, s) && Known(s, id) && s.users[id] > s.dropping[id]
    requires Add(id) in s.processed && s.queue != [] && s.queue[0] == Alarm(id)
    ensures Apply(s, Process).delivered == s.delivered + [id]
  {
    LiveIsRegistered(events, s, id);
  }

  /** A timer is registered between the processing of its `Add` and that of its first `Remove`. */
  lemma RegisteredIff(s: State, id: nat)
    requires Inv(s)
    ensures id in s.registry <==> Add(id) in s.processed && Remove(id) !in s.processed
  {
    assert GoodTimer(s, id);
    SentIs(s, id);
    OfContains(s.processed, Add(id));
    OfContains(s.processed, Remove(id));
    var done, sent := Of(s.processed, id), Of(Sent(s), id);
    assert forall i | 0 <= i < |done| :: done[i] == sent[i];
    if |done| > 1 {
      assert done[1] == Remove(id) && done[1] in done;
    } else if |done| == 1 {
      assert done[0] == Add(id);
    }
  }

  /** The alarms that reach their timer, in order: those processed after its `Add` and before any `Remove` of it. */
  function DeliveredOf(processed: seq<Msg>): seq<nat> {
    if processed == [] then []
    else
      var before, m := processed[..|processed| - 1], processed[|processed| - 1];
      DeliveredOf(before) + if m.Alarm? && Add(m.id) in before && Remove(m.id) !in before then [m.id] else []
  }

  lemma DeliveredNext(processed: seq<Msg>, m: Msg)
    ensures DeliveredOf(processed + [m])
         == DeliveredOf(processed)
            + if m.Alarm? && Add(m.id) in processed && Remove(m.id) !in processed then [m.id] else []
  {
    assert (processed + [m])[..|processed|] == processed;
  }

  lemma ProcessDelivers(s: State)
    requires s.queue != []
    ensures var m, s' := s.queue[0], Apply(s, Process);
            && s'.processed == s.processed + [m]
            && s'.delivered == s.delivered + if m.Alarm? && m.id in s.registry then [m.id] else []
  {
  }

  lemma StepDelivers(s: State, e: Event)
    requires Inv(s) && Enabled(s, e) && s.delivered == DeliveredOf(s.processed)
    ensures Apply(s, e).delivered == DeliveredOf(Apply(s, e).processed)
  {
    if e.Process? {
      RegisteredIff(s, s.queue[0].id);
      ProcessDelivers(s);
      DeliveredNext(s.processed, s.queue[0]);
    } else {
      OthersDeliverNothing(s, e);
    }
  }

  lemma OthersDeliverNothing(s: State, e: Event)
    requires Enabled(s, e) && !e.Process?
    ensures Apply(s, e).delivered == s.delivered && Apply(s, e).processed == s.processed
  {
  }

  lemma {:induction false} RunDelivers(s: State, events: seq<Event>, s': State)
    requires Inv(s) && s.delivered == DeliveredOf(s.processed) && Leads(s, events, s')
    ensures s'.delivered == DeliveredOf(s'.processed)
    decreases |events|
  {
    if events != [] {
      StepKeepsInv(s, events[0]);
      StepDelivers(s, events[0]);
      RunDelivers(Apply(s, events[0]), events[1..], s');
    }
  }

  /** Over every run, exactly the alarms between registration and removal are delivered. */
  lemma DeliveredExactly(events: seq<Event>, s: State)
    requires Leads(INITIAL, events, s)
    ensures s.delivered == DeliveredOf(s.processed)
  {
    InitialInv();
    RunDelivers(INITIAL, events, s);
  }

  // ----- atomic drops -----

  /** Without drops in progress, a `Remove` was sent, and only one, exactly when no user handle is left. */
  ghost predicate AtomicInv(s: State) {
    Inv(s) && forall id: nat | Known(s, id) :: AtomicTimer(s, id)
  }

  ghost predicate AtomicTimer(s: State, id: nat)
    requires Known(s, id)
  {
    s.dropping[id] == 0 && Of(Sent(s), id) == if s.users[id] > 0 then [Add(id)] else [Add(id), Remove(id)]
  }

  lemma HandlesAfter(s: State, e: Event, id: nat)
    requires Enabled(s, e) && !e.CheckDrop? && !e.FinishDrop? && Known(s, id)
    ensures var s' := Apply(s, e);
            && Known(s', id) && s'.dropping[id] == s.dropping[id]
            && s'.users[id] == s.users[id] + if e == Clone(id) then 1 else if e == Drop(id) then -1 else 0
  {
  }

  /** In an atomic run no `Remove` is processed early. */
  lemma NeverEarly(s: State, id: nat)
    requires AtomicInv(s) && Known(s, id)
    ensures !IsEarly(s, id)
  {
    assert AtomicTimer(s, id);
    if IsEarly(s, id) {
      RemoveAtFront(s, id);
      assert false;
    }
  }

  lemma AtomicStepOne(s: State, e: Event, id: nat)
    requires AtomicInv(s) && Enabled(s, e) && !e.CheckDrop? && !e.FinishDrop? && Known(Apply(s, e), id)
    ensures AtomicTimer(Apply(s, e), id)
  {
    StepSends(s, e, id);
    if Known(s, id) {
      assert AtomicTimer(s, id);
      HandlesAfter(s, e, id);
      NeverEarly(s, id);
    } else {
      assert GoodTimer(s, id);
    }
  }

  lemma AtomicStep(s: State, e: Event)
    requires AtomicInv(s) && Enabled(s, e) && !e.CheckDrop? && !e.FinishDrop?
    ensures AtomicInv(Apply(s, e))
  {
    StepKeepsInv(s, e);
    forall id: nat | Known(Apply(s, e), id) { AtomicStepOne(s, e, id); }
  }

  lemma {:induction false} AtomicRun(s: State, events: seq<Event>, s': State)
    requires AtomicInv(s) && Leads(s, events, s') && AtomicDrops(events)
    ensures AtomicInv(s')
    decreases |events|
  {
    if events != [] {
      AtomicStep(s, events[0]);
      AtomicRun(Apply(s, events[0]), events[1..], s');
    }
  }

  /** Over every run with atomic drops, for every started timer: its `Add` is sent once and before its
      `Remove`, which is sent at most once, exactly when no user handle is left; while a user handle
      exists and the `Add` was processed the timer is registered; and once every user handle is gone
      and the queue is drained it is not. */
  lemma TimerLifetime(events: seq<Event>, s: State, id: nat)
    requires Leads(INITIAL, events, s) && AtomicDrops(events) && id < |s.users|
    ensures Of(Sent(s), id) == if s.users[id] > 0 then [Add(id)] else [Add(id), Remove(id)]
    ensures s.users[id] > 0 && Add(id) in s.processed ==> id in s.registry
    ensures s.users[id] == 0 && s.queue == [] ==> id !in s.registry
  {
    InitialInv();
    AtomicRun(INITIAL, events, s);
    assert Known(s, id) && GoodTimer(s, id) && AtomicTimer(s, id);
    if s.users[id] > 0 { LiveIsRegistered(events, s, id); }
    if s.queue == [] { assert Sent(s) == s.processed; }
  }

  // ----- drops that are not atomic -----

  lemma LeadsCons(s: State, e: Event, events: seq<Event>, s': State)
    requires Enabled(s, e) && Leads(Apply(s, e), events, s')
    ensures Leads(s, [e] + events, s')
  {
    assert ([e] + events)[1..] == events;
  }

  /** Starting a timer and registering it leads to one user handle and an empty queue. */
  lemma Registered(events: seq<Event>, s: State)
    requires Leads(State([1], [0], [], [Add(0)], {0}, []), events, s)
    ensures Leads(INITIAL, [Start] + ([Process] + events), s)
  {
    var s1 := State([1], [0], [Add(0)], [], {}, []);
    assert Apply(INITIAL, Start) == s1;
    assert Apply(s1, Process) == State([1], [0], [], [Add(0)], {0}, []);
    LeadsCons(s1, Process, events, s);
    LeadsCons(INITIAL, Start, [Process] + events, s);
  }

  /** A registered timer with `users` user handles, `dropping` of them being dropped. */
  function Held(users: nat, dropping: nat): State {
    State([users], [dropping], [], [Add(0)], {0}, [])
  }

  lemma BothFinish()
    ensures Leads(Held(2, 2), [FinishDrop(0), FinishDrop(0)], Held(0, 0))
  {
    assert Apply(Held(2, 2), FinishDrop(0)) == Held(1, 1) && Apply(Held(1, 1), FinishDrop(0)) == Held(0, 0);
    LeadsCons(Held(1, 1), FinishDrop(0), [], Held(0, 0));
    LeadsCons(Held(2, 2), FinishDrop(0), [FinishDrop(0)] + [], Held(0, 0));
    assert [FinishDrop(0)] + ([FinishDrop(0)] + []) == [FinishDrop(0), FinishDrop(0)];
  }

  lemma BothCheck(events: seq<Event>, s: State)
    requires Leads(Held(2, 2), events, s)
    ensures Leads(Held(1, 0), [Clone(0)] + ([CheckDrop(0)] + ([CheckDrop(0)] + events)), s)
  {
    assert Apply(Held(2, 1), CheckDrop(0)) == Held(2, 2);
    LeadsCons(Held(2, 1), CheckDrop(0), events, s);
    assert Apply(Held(2, 0), CheckDrop(0)) == Held(2, 1);
    LeadsCons(Held(2, 0), CheckDrop(0), [CheckDrop(0)] + events, s);
    assert Apply(Held(1, 0), Clone(0)) == Held(2, 0);
    LeadsCons(Held(1, 0), Clone(0), [CheckDrop(0)] + ([CheckDrop(0)] + events), s);
  }

  /** Two overlapping drops of the last two user handles: neither sees two references, no `Remove` is
      ever sent, and the timer stays registered with the queue empty and no user handle left. */
  lemma OverlappingDropsLeak()
    ensures Leads(INITIAL, [Start, Process, Clone(0), CheckDrop(0), CheckDrop(0), FinishDrop(0), FinishDrop(0)],
                  State([0], [0], [], [Add(0)], {0}, []))
  {
    BothFinish();
    var finish := [FinishDrop(0), FinishDrop(0)];
    BothCheck(finish, Held(0, 0));
    var drops := [Clone(0)] + ([CheckDrop(0)] + ([CheckDrop(0)] + finish));
    Registered(drops, Held(0, 0));
    assert [Start] + ([Process] + drops)
        == [Start, Process, Clone(0), CheckDrop(0), CheckDrop(0), FinishDrop(0), FinishDrop(0)];
  }

  /** The loop may take the `Remove` before the user's drop has released its reference: the registry's
      drop then sees two references and sends a second `Remove`. */
  lemma EarlyRemovalSendsTwice()
    ensures Leads(INITIAL, [Start, Process, CheckDrop(0), Process],
                  State([1], [1], [Remove(0)], [Add(0), Remove(0)], {}, []))
  {
    var end := State([1], [1], [Remove(0)], [Add(0), Remove(0)], {}, []);
    var s1, s2 := State([1], [0], [], [Add(0)], {0}, []), State([1], [1], [Remove(0)], [Add(0)], {0}, []);
    assert Apply(s1, CheckDrop(0)) == s2 && Apply(s2, Process) == end;
    LeadsCons(s2, Process, [], end);
    LeadsCons(s1, CheckDrop(0), [Process] + [], end);
    Registered([CheckDrop(0)] + ([Process] + []), end);
    assert [Start] + ([Process] + ([CheckDrop(0)] + ([Process] + []))) == [Start, Process, CheckDrop(0), Process];
  }
}
