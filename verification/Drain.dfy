/** The graceful-exit protocol of `crates/base/src/server.rs` over the counters of
    `crates/sb_core/lib.rs`. Connections, requests, their watcher tasks and the drain loop interleave
    freely; every step below is one atomic action of one task. */
module Drain {
  import opened Common
  import opened Sums

  /** The spawned task of `accept_stream`. Locals drop in reverse order of declaration: the connection future
      first, then the active-io guard, then the guard that cancels the connection's token. */
  datatype Conn = Serving | FutureDropped | Uncounted | Cancelled

  /** The future of `WorkerService::call`; between `Sent` and `Waiting` it has no await point. */
  datatype Phase = Sent | Counted | Waiting | Responded | Gone

  /** `watched`: the spawned watcher has not fired. `cancelled`: the request's own token was cancelled.
      `channelDropped`: the response channel was dropped. `times`: how often it was counted as handled. */
  datatype Request = Request(conn: nat, phase: Phase, watched: bool, cancelled: bool, channelDropped: bool, times: nat)

  /** The main task: the accept loop, then one pass of the drain loop after another. */
  datatype Main = Accepting | Draining | ReadActive(active: nat) | ReadReceived(active: nat, received: nat) | Exited

  datatype State = State(
    conns: map<nat, Conn>,
    requests: map<nat, Request>,
    activeIo: nat,
    receivedRequests: nat,
    handledRequests: nat,
    main: Main)

  datatype Event =
    | Accept(c: nat)
    | Send(c: nat, r: nat)
    | CountReceived(r: nat)
    | SpawnWatcher(r: nat)
    | Respond(r: nat)
    | ChannelDropped(r: nat)
    | DropFuture(r: nat)
    | DropBody(r: nat)
    | DropConnection(c: nat)
    | DropActiveGuard(c: nat)
    | DropCancelGuard(c: nat)
    | WatcherFires(r: nat)
    | StopAccepting
    | LoadActive
    | LoadReceived
    | LoadHandled

  predicate InPhase(s: State, r: nat, p: Phase) {
    r in s.requests && s.requests[r].phase == p
  }

  predicate ConnIs(s: State, c: nat, k: Conn) {
    c in s.conns && s.conns[c] == k
  }

  predicate Enabled(s: State, e: Event) {
    match e
    case Accept(c) => s.main == Accepting && c !in s.conns
    case Send(c, r) => ConnIs(s, c, Serving) && r !in s.requests
    case CountReceived(r) => InPhase(s, r, Sent)
    case SpawnWatcher(r) => InPhase(s, r, Counted)
    case Respond(r) => InPhase(s, r, Waiting)
    case ChannelDropped(r) => InPhase(s, r, Waiting)
    case DropFuture(r) => InPhase(s, r, Waiting)
    case DropBody(r) => InPhase(s, r, Responded)
    case DropConnection(c) =>
      ConnIs(s, c, Serving) && forall r <- s.requests :: s.requests[r].conn == c ==> s.requests[r].phase == Gone
    case DropActiveGuard(c) => ConnIs(s, c, FutureDropped) && s.activeIo > 0
    case DropCancelGuard(c) => ConnIs(s, c, Uncounted)
    case WatcherFires(r) =>
      r in s.requests && s.requests[r].watched && (s.requests[r].cancelled || ConnIs(s, s.requests[r].conn, Cancelled))
    case StopAccepting => s.main == Accepting
    case LoadActive => s.main == Draining
    case LoadReceived => s.main.ReadActive?
    case LoadHandled => s.main.ReadReceived?
  }

  function SetRequest(s: State, r: nat, q: Request): State {
    s.(requests := s.requests[r := q])
  }

  function SetConn(s: State, c: nat, k: Conn): State {
    s.(conns := s.conns[c := k])
  }

  function Apply(s: State, e: Event): State
    requires Enabled(s, e)
  {
    match e
    case Accept(c) => SetConn(s, c, Serving).(activeIo := s.activeIo + 1)
    case Send(c, r) => SetRequest(s, r, Request(c, Sent, false, false, false, 0))
    case CountReceived(r) =>
      SetRequest(s, r, s.requests[r].(phase := Counted)).(receivedRequests := s.receivedRequests + 1)
    case SpawnWatcher(r) => SetRequest(s, r, s.requests[r].(phase := Waiting, watched := true))
    case Respond(r) => SetRequest(s, r, s.requests[r].(phase := Responded))
    case ChannelDropped(r) =>
      var q := s.requests[r];
      SetRequest(s, r, q.(phase := Gone, channelDropped := true, times := q.times + 1))
        .(handledRequests := s.handledRequests + 1)
    case DropFuture(r) => SetRequest(s, r, s.requests[r].(phase := Gone))
    case DropBody(r) => SetRequest(s, r, s.requests[r].(phase := Gone, cancelled := true))
    case DropConnection(c) => SetConn(s, c, FutureDropped)
    case DropActiveGuard(c) => SetConn(s, c, Uncounted).(activeIo := s.activeIo - 1)
    case DropCancelGuard(c) => SetConn(s, c, Cancelled)
    case WatcherFires(r) =>
      var q := s.requests[r];
      SetRequest(s, r, q.(watched := false, times := q.times + 1)).(handledRequests := s.handledRequests + 1)
    case StopAccepting => s.(main := Draining)
    case LoadActive => s.(main := ReadActive(s.activeIo))
    case LoadReceived => s.(main := ReadReceived(s.main.active, s.receivedRequests))
    case LoadHandled =>
      s.(main := if s.main.active == 0 && s.main.received == s.handledRequests then Exited else Draining)
  }

  const INITIAL := State(map[], map[], 0, 0, 0, Accepting)

  /** `events` is a run from the initial state and ends in `s`. */
  ghost predicate Run(events: seq<Event>, s: State) {
    if events == [] then s == INITIAL
    else
      var n := |events| - 1;
      exists before :: Run(events[..n], before) && Enabled(before, events[n]) && s == Apply(before, events[n])
  }

  // ----- what the counters count -----

  /** Connections whose active-io guard is still alive. */
  function Live(s: State): set<nat> {
    set c | c in s.conns && (s.conns[c].Serving? || s.conns[c].FutureDropped?)
  }

  function Received(s: State): set<nat> {
    set r | r in s.requests && !s.requests[r].phase.Sent?
  }

  /** Requests counted as handled at least `k` times. */
  function Handled(s: State, k: nat): set<nat> {
    set r | r in s.requests && s.requests[r].times >= k
  }

  predicate GoodRequest(s: State, q: Request) {
    && q.conn in s.conns
    && (!q.phase.Gone? ==> s.conns[q.conn].Serving?)
    && (q.channelDropped ==> q.phase.Gone?)
    && (q.phase.Sent? || q.phase.Counted? ==> !q.watched && !q.cancelled && q.times == 0)
    && (q.phase.Waiting? || q.phase.Responded? ==> q.watched && !q.cancelled)
    && (!q.phase.Sent? && !q.phase.Counted? ==>
          q.times == (if q.watched then 0 else 1) + if q.channelDropped then 1 else 0)
  }

  predicate GoodMain(s: State) {
    match s.main
    case Accepting => true
    case Draining => true
    case ReadActive(a) => a == 0 ==> Live(s) == {}
    case ReadReceived(a, n) => a == 0 ==> Live(s) == {} && n == s.receivedRequests
    case Exited => Live(s) == {} && s.handledRequests >= s.receivedRequests
  }

  predicate Inv(s: State) {
    && s.activeIo == |Live(s)|
    && s.receivedRequests == |Received(s)|
    && s.handledRequests == |Handled(s, 1)| + |Handled(s, 2)|
    && (forall r <- s.requests :: GoodRequest(s, s.requests[r]))
    && GoodMain(s)
  }

  /** How one request's update moves it in and out of the counted sets. */
  lemma CountsAfter(s: State, r: nat, q: Request)
    requires q.times <= 2
    ensures var s' := SetRequest(s, r, q);
            && Received(s') == (if q.phase.Sent? then Received(s) - {r} else Received(s) + {r})
            && Handled(s', 1) == (if q.times >= 1 then Handled(s, 1) + {r} else Handled(s, 1) - {r})
            && Handled(s', 2) == (if q.times >= 2 then Handled(s, 2) + {r} else Handled(s, 2) - {r})
            && Live(s') == Live(s)
  {
  }

  lemma LiveAfter(s: State, c: nat, k: Conn)
    ensures var s' := SetConn(s, c, k);
            && Live(s') == (if k.Serving? || k.FutureDropped? then Live(s) + {c} else Live(s) - {c})
            && Received(s') == Received(s) && Handled(s', 1) == Handled(s, 1) && Handled(s', 2) == Handled(s, 2)
  {
  }

  function TimesOf(s: State, r: nat): nat {
    if r in s.requests then s.requests[r].times else 0
  }

  /** Any update of one request that keeps it well-formed and moves the counters along. */
  lemma RequestUpdateKeepsInv(s: State, r: nat, q: Request, s': State)
    requires Inv(s) && GoodRequest(s, q) && q.times >= TimesOf(s, r)
    requires r in Received(s) ==> !q.phase.Sent?
    requires s'.receivedRequests == s.receivedRequests + (if r !in Received(s) && !q.phase.Sent? then 1 else 0)
    requires s'.handledRequests == s.handledRequests + q.times - TimesOf(s, r)
    requires s'.receivedRequests != s.receivedRequests ==> s.conns[q.conn].Serving?
    requires s' == SetRequest(s, r, q).(receivedRequests := s'.receivedRequests, handledRequests := s'.handledRequests)
    ensures Inv(s')
  {
    assert r in s.requests ==> GoodRequest(s, s.requests[r]);
    CountsAfter(s, r, q);
    assert Received(s') == Received(SetRequest(s, r, q)) && Live(s') == Live(s);
    assert Handled(s', 1) == Handled(SetRequest(s, r, q), 1) && Handled(s', 2) == Handled(SetRequest(s, r, q), 2);
    assert s'.receivedRequests != s.receivedRequests ==> q.conn in Live(s);
    RequestsStayGood(s, r, q, s');
  }

  lemma RequestsStayGood(s: State, r: nat, q: Request, s': State)
    requires (forall k <- s.requests :: GoodRequest(s, s.requests[k])) && GoodRequest(s, q)
    requires s'.conns == s.conns && s'.requests == s.requests[r := q]
    ensures forall k <- s'.requests :: GoodRequest(s', s'.requests[k])
  {
    forall k <- s'.requests ensures GoodRequest(s', s'.requests[k]) {
      assert k != r ==> GoodRequest(s, s.requests[k]);
    }
  }

  predicate CountsAsLive(k: Conn) {
    k.Serving? || k.FutureDropped?
  }

  /** Any update of one connection that leaves its unfinished requests served and moves the counter along. */
  lemma ConnUpdateKeepsInv(s: State, c: nat, k: Conn, s': State)
    requires Inv(s) && s' == SetConn(s, c, k).(activeIo := s'.activeIo)
    requires forall r <- s.requests :: s.requests[r].conn == c && !s.requests[r].phase.Gone? ==> k.Serving?
    requires CountsAsLive(k) && c !in Live(s) ==> s.main == Accepting && s'.activeIo == s.activeIo + 1
    requires !CountsAsLive(k) && c in Live(s) ==> s'.activeIo == s.activeIo - 1
    requires CountsAsLive(k) == (c in Live(s)) ==> s'.activeIo == s.activeIo
    ensures Inv(s')
  {
    LiveAfter(s, c, k);
    assert Live(s') == Live(SetConn(s, c, k)) && Received(s') == Received(s);
    assert if c in Live(s) then Live(s) + {c} == Live(s) else Live(s) - {c} == Live(s);
    assert Handled(s', 1) == Handled(s, 1) && Handled(s', 2) == Handled(s, 2);
    forall r | r in s'.requests ensures GoodRequest(s', s'.requests[r]) {
      assert GoodRequest(s, s.requests[r]);
    }
  }

  lemma MainStepKeepsInv(s: State, e: Event)
    requires Inv(s) && Enabled(s, e) && (e.StopAccepting? || e.LoadActive? || e.LoadReceived? || e.LoadHandled?)
    ensures Inv(Apply(s, e))
  {
    var s' := Apply(s, e);
    assert Live(s') == Live(s) && Received(s') == Received(s);
    assert Handled(s', 1) == Handled(s, 1) && Handled(s', 2) == Handled(s, 2);
    forall k | k in s'.requests ensures GoodRequest(s', s'.requests[k]) {
      assert GoodRequest(s, s.requests[k]);
    }
  }

  lemma StepKeepsInv(s: State, e: Event)
    requires Inv(s) && Enabled(s, e)
    ensures Inv(Apply(s, e))
  {
    if e.Accept? || e.DropConnection? || e.DropActiveGuard? || e.DropCancelGuard? {
      var s' := Apply(s, e);
      forall r | r in s.requests ensures GoodRequest(s, s.requests[r]) {}
      ConnUpdateKeepsInv(s, e.c, s'.conns[e.c], s');
    } else if e.StopAccepting? || e.LoadActive? || e.LoadReceived? || e.LoadHandled? {
      MainStepKeepsInv(s, e);
    } else {
      var s' := Apply(s, e);
      assert e.r in s.requests ==> GoodRequest(s, s.requests[e.r]);
      RequestUpdateKeepsInv(s, e.r, s'.requests[e.r], s');
    }
  }

  lemma {:induction false} RunKeepsInv(events: seq<Event>, s: State)
    requires Run(events, s)
    ensures Inv(s)
  {
    if events != [] {
      var n := |events| - 1;
      var before :| Run(events[..n], before) && Enabled(before, events[n]) && s == Apply(before, events[n]);
      RunKeepsInv(events[..n], before);
      StepKeepsInv(before, events[n]);
    }
  }

  // ----- safety of the exit -----

  /** No request of the run had its response channel dropped. */
  predicate NoChannelDropped(s: State) {
    forall r <- s.requests :: !s.requests[r].channelDropped
  }

  lemma SubsetOfEqualSize(a: set<nat>, b: set<nat>)
    requires a <= b && |a| >= |b|
    ensures a == b
  {
    assert |b - a| == |b| - |a|;
    assert b == a + (b - a);
  }

  lemma HandledWereReceived(s: State)
    requires Inv(s)
    ensures Handled(s, 2) <= Handled(s, 1) <= Received(s)
    ensures NoChannelDropped(s) ==> Handled(s, 2) == {}
  {
    forall r | r in s.requests ensures GoodRequest(s, s.requests[r]) {}
  }

  /** Over every run without a dropped response channel: handled requests never outnumber received
      ones, and once the drain loop has exited, in that state and in every later one, no accepted
      connection is active and every received request was handled exactly once. */
  lemma DrainIsSound(events: seq<Event>, s: State)
    requires Run(events, s) && NoChannelDropped(s)
    ensures s.handledRequests <= s.receivedRequests
    ensures s.main == Exited ==>
              && s.activeIo == 0 && Live(s) == {}
              && s.handledRequests == s.receivedRequests
              && (forall r <- Received(s) :: s.requests[r].times == 1)
  {
    RunKeepsInv(events, s);
    HandledWereReceived(s);
    SubsetSize(Handled(s, 1), Received(s));
    if s.main == Exited {
      SubsetOfEqualSize(Handled(s, 1), Received(s));
      forall r | r in Received(s) ensures s.requests[r].times == 1 {
        assert r in Handled(s, 1) && r !in Handled(s, 2);
      }
    }
  }

  /** Exiting is final. */
  lemma {:induction false} ExitIsFinal(events: seq<Event>, s: State, more: seq<Event>, s': State)
    requires Run(events, s) && s.main == Exited && Run(events + more, s')
    ensures s'.main == Exited
    decreases |more|
  {
    if more == [] {
      assert events + more == events;
      RunsAgree(events, s, s');
    } else {
      var all, n := events + more, |events + more| - 1;
      var before :| Run(all[..n], before) && Enabled(before, all[n]) && s' == Apply(before, all[n]);
      assert all[..n] == events + more[..|more| - 1];
      ExitIsFinal(events, s, more[..|more| - 1], before);
    }
  }

  lemma {:induction false} RunsAgree(events: seq<Event>, s: State, s': State)
    requires Run(events, s) && Run(events, s')
    ensures s == s'
  {
    if events != [] {
      var n := |events| - 1;
      var a :| Run(events[..n], a) && Enabled(a, events[n]) && s == Apply(a, events[n]);
      var b :| Run(events[..n], b) && Enabled(b, events[n]) && s' == Apply(b, events[n]);
      RunsAgree(events[..n], a, b);
    }
  }

  /** With dropped channels allowed: the loop exits with every received request handled exactly when
      no request had been counted twice by then. */
  lemma ExitIsSoundIff(events: seq<Event>, s: State)
    requires Run(events, s) && Enabled(s, LoadHandled) && Apply(s, LoadHandled).main == Exited
    ensures Live(s) == {}
    ensures (forall r <- Received(s) :: s.requests[r].times >= 1)
       <==> (forall r <- s.requests :: s.requests[r].times <= 1)
  {
    RunKeepsInv(events, s);
    HandledWereReceived(s);
    if forall r <- Received(s) :: s.requests[r].times >= 1 {
      assert Handled(s, 1) == Received(s);
      assert Handled(s, 2) == {};
      forall r | r in s.requests ensures s.requests[r].times <= 1 { assert r !in Handled(s, 2); }
    }
    if forall r <- s.requests :: s.requests[r].times <= 1 {
      assert Handled(s, 2) == {};
      SubsetOfEqualSize(Handled(s, 1), Received(s));
      forall r | r in Received(s) ensures s.requests[r].times >= 1 { assert r in Handled(s, 1); }
    }
  }

  /** No request is counted as handled before it is over: its response was taken to the end, its response channel
      was dropped, or its future was dropped with its connection. */
  lemma HandledIsOver(events: seq<Event>, s: State, r: nat)
    requires Run(events, s) && r in s.requests && s.requests[r].times > 0
    ensures s.requests[r].phase.Gone?
  {
    RunKeepsInv(events, s);
    assert GoodRequest(s, s.requests[r]);
  }

  // ----- the loop that never breaks -----

  /** No connection is live and every watcher has fired. */
  predicate Settled(s: State) {
    Live(s) == {} && forall r <- s.requests :: !s.requests[r].watched
  }

  function ChannelsDropped(s: State): set<nat> {
    set r | r in s.requests && s.requests[r].channelDropped
  }

  /** Once everything has ended, the handled count is ahead by one for each dropped channel. */
  lemma SettledCount(events: seq<Event>, s: State)
    requires Run(events, s) && Settled(s)
    ensures s.handledRequests == s.receivedRequests + |ChannelsDropped(s)|
    ensures forall r <- s.requests :: s.requests[r].phase.Gone?
  {
    RunKeepsInv(events, s);
    forall r | r in s.requests ensures s.requests[r].phase.Gone? {
      assert GoodRequest(s, s.requests[r]);
      assert s.requests[r].conn !in Live(s);
    }
    forall r | r in s.requests
      ensures s.requests[r].times == if s.requests[r].channelDropped then 2 else 1
    {
      assert GoodRequest(s, s.requests[r]);
    }
    assert Handled(s, 1) == Received(s) && Handled(s, 2) == ChannelsDropped(s);
  }

  lemma NoneDropped(s: State)
    ensures NoChannelDropped(s) <==> |ChannelsDropped(s)| == 0
  {
    if |ChannelsDropped(s)| == 0 {
      forall r | r in s.requests ensures !s.requests[r].channelDropped {
        assert r !in ChannelsDropped(s);
      }
    } else {
      var r :| r in ChannelsDropped(s);
    }
  }

  lemma PassExits(s: State)
    requires s.main == Draining
    ensures Apply(Apply(Apply(s, LoadActive), LoadReceived), LoadHandled).main
         == if s.activeIo == 0 && s.receivedRequests == s.handledRequests then Exited else Draining
  {
  }

  /** One pass of the drain loop over a settled server breaks exactly when no channel was dropped. */
  lemma SettledExitIff(events: seq<Event>, s: State)
    requires Run(events, s) && Settled(s) && s.main == Draining
    ensures Apply(Apply(Apply(s, LoadActive), LoadReceived), LoadHandled).main == Exited <==> NoChannelDropped(s)
  {
    assert s.activeIo == 0 by { RunKeepsInv(events, s); }
    SettledCount(events, s);
    NoneDropped(s);
    PassExits(s);
  }

  /** The server is settled, a channel was dropped, and the drain loop has not exited. */
  predicate Hangs(s: State) {
    && Settled(s) && !NoChannelDropped(s) && !s.main.Accepting? && !s.main.Exited?
  }

  lemma StepKeepsHanging(events: seq<Event>, s: State, e: Event)
    requires Run(events, s) && Hangs(s) && Enabled(s, e)
    ensures Hangs(Apply(s, e))
  {
    RunKeepsInv(events, s);
    SettledCount(events, s);
    NoneDropped(s);
    forall c | c in s.conns ensures !s.conns[c].Serving? && !s.conns[c].FutureDropped? {
      assert c !in Live(s);
    }
    var s' := Apply(s, e);
    assert s'.requests == s.requests;
    forall c | c in s'.conns ensures c !in Live(s') {}
    assert Live(s') == {};
  }

  /** From there no run reaches the exit: the drain loop turns for ever. */
  lemma {:induction false} DroppedChannelHangs(events: seq<Event>, s: State, more: seq<Event>, s': State)
    requires Run(events, s) && Hangs(s) && Run(events + more, s')
    ensures Hangs(s')
    decreases |more|
  {
    if more == [] {
      assert events + more == events;
      RunsAgree(events, s, s');
    } else {
      var all, n := events + more, |events + more| - 1;
      var before :| Run(all[..n], before) && Enabled(before, all[n]) && s' == Apply(before, all[n]);
      assert all[..n] == events + more[..|more| - 1];
      DroppedChannelHangs(events, s, more[..|more| - 1], before);
      StepKeepsHanging(all[..n], before, all[n]);
    }
  }

  // ----- the loop can always break -----

  lemma RunExtends(events: seq<Event>, s: State, e: Event)
    requires Run(events, s) && Enabled(s, e)
    ensures Run(events + [e], Apply(s, e))
  {
    assert (events + [e])[..|events|] == events;
  }

  /** How far a request is from being over, and a connection from being cancelled. */
  function RequestWeight(q: Request): int {
    (match q.phase case Sent => 5 case Counted => 4 case Waiting => 2 case Responded => 1 case Gone => 0)
    + if q.watched then 1 else 0
  }

  function ConnWeight(k: Conn): int {
    match k case Serving => 3 case FutureDropped => 2 case Uncounted => 1 case Cancelled => 0
  }

  function RequestWeights(requests: map<nat, Request>): map<nat, int> {
    map r <- requests :: RequestWeight(requests[r])
  }

  function ConnWeights(conns: map<nat, Conn>): map<nat, int> {
    map c <- conns :: ConnWeight(conns[c])
  }

  ghost function Weight(s: State): int {
    Sum(RequestWeights(s.requests)) + Sum(ConnWeights(s.conns))
  }

  lemma WeightIsNatural(s: State)
    ensures Weight(s) >= 0
  {
    SumNonNegative(RequestWeights(s.requests));
    SumNonNegative(ConnWeights(s.conns));
  }

  lemma RequestMoves(s: State, r: nat, q: Request)
    requires r in s.requests
    ensures Sum(RequestWeights(s.requests[r := q]))
         == Sum(RequestWeights(s.requests)) - RequestWeight(s.requests[r]) + RequestWeight(q)
  {
    assert RequestWeights(s.requests[r := q]) == RequestWeights(s.requests)[r := RequestWeight(q)];
    SumUpdate(RequestWeights(s.requests), r, RequestWeight(q));
  }

  lemma ConnMoves(s: State, c: nat, k: Conn)
    requires c in s.conns
    ensures Sum(ConnWeights(s.conns[c := k])) == Sum(ConnWeights(s.conns)) - ConnWeight(s.conns[c]) + ConnWeight(k)
  {
    assert ConnWeights(s.conns[c := k]) == ConnWeights(s.conns)[c := ConnWeight(k)];
    SumUpdate(ConnWeights(s.conns), c, ConnWeight(k));
  }

  /** What brings a request nearer to its end without losing its response channel. */
  function NextOf(r: nat, q: Request): Event {
    match q.phase
    case Sent => CountReceived(r)
    case Counted => SpawnWatcher(r)
    case Waiting => Respond(r)
    case Responded => DropBody(r)
    case Gone => WatcherFires(r)
  }

  /** The step leaves the main task alone, drops no channel, and brings the server nearer to rest. */
  ghost predicate IsProgress(s: State, e: Event) {
    && Enabled(s, e)
    && Apply(s, e).main == s.main && NoChannelDropped(Apply(s, e)) && Weight(Apply(s, e)) < Weight(s)
  }

  lemma RequestProgress(s: State, r: nat)
    requires Inv(s) && NoChannelDropped(s) && r in s.requests && !s.requests[r].phase.Gone?
    ensures IsProgress(s, NextOf(r, s.requests[r]))
  {
    var e := NextOf(r, s.requests[r]);
    assert GoodRequest(s, s.requests[r]);
    RequestMoves(s, r, Apply(s, e).requests[r]);
  }

  lemma ConnProgress(s: State, c: nat, e: Event)
    requires Inv(s) && NoChannelDropped(s) && c in s.conns && Enabled(s, e)
    requires e == DropConnection(c) || e == DropActiveGuard(c) || e == DropCancelGuard(c)
    ensures IsProgress(s, e)
  {
    ConnMoves(s, c, Apply(s, e).conns[c]);
  }

  /** Until the server is settled there is a step that brings it nearer to rest. */
  lemma Progress(s: State) returns (e: Event)
    requires Inv(s) && NoChannelDropped(s) && !Settled(s)
    ensures IsProgress(s, e)
  {
    if r :| r in s.requests && !s.requests[r].phase.Gone? {
      e := NextOf(r, s.requests[r]);
      RequestProgress(s, r);
    } else if c :| c in s.conns && s.conns[c].Serving? {
      e := DropConnection(c);
      ConnProgress(s, c, e);
    } else if c :| c in s.conns && s.conns[c].FutureDropped? {
      e := DropActiveGuard(c);
      assert c in Live(s);
      ConnProgress(s, c, e);
    } else if c :| c in s.conns && s.conns[c].Uncounted? {
      e := DropCancelGuard(c);
      ConnProgress(s, c, e);
    } else {
      e := LastWatcher(s);
    }
  }

  lemma LastWatcher(s: State) returns (e: Event)
    requires Inv(s) && NoChannelDropped(s) && !Settled(s)
    requires forall c <- s.conns :: s.conns[c].Cancelled?
    ensures IsProgress(s, e)
  {
    assert Live(s) == {};
    var r :| r in s.requests && s.requests[r].watched;
    assert GoodRequest(s, s.requests[r]);
    e := WatcherFires(r);
    RequestMoves(s, r, Apply(s, e).requests[r]);
  }

  lemma OneMore(events: seq<Event>, e: Event, rest: seq<Event>)
    ensures events + ([e] + rest) == events + [e] + rest
  {
  }

  lemma ProgressRun(events: seq<Event>, s: State, n: nat) returns (e: Event)
    requires Run(events, s) && NoChannelDropped(s) && !Settled(s) && Weight(s) <= n
    ensures Enabled(s, e) && Run(events + [e], Apply(s, e)) && Apply(s, e).main == s.main
    ensures NoChannelDropped(Apply(s, e)) && n > 0 && Weight(Apply(s, e)) <= n - 1
  {
    RunKeepsInv(events, s);
    e := Progress(s);
    WeightIsNatural(Apply(s, e));
    RunExtends(events, s, e);
  }

  /** From every reachable state without a dropped channel the server can come to rest. */
  lemma {:induction false} CanSettle(events: seq<Event>, s: State, n: nat) returns (more: seq<Event>, s': State)
    requires Run(events, s) && NoChannelDropped(s) && Weight(s) <= n
    ensures Run(events + more, s') && Settled(s') && NoChannelDropped(s') && s'.main == s.main
    decreases n
  {
    if Settled(s) {
      more, s' := [], s;
      assert events + more == events;
    } else {
      var e := ProgressRun(events, s, n);
      var rest;
      rest, s' := CanSettle(events + [e], Apply(s, e), n - 1);
      more := [e] + rest;
      OneMore(events, e, rest);
    }
  }

  /** The step of the main task that comes next. */
  function NextOfMain(main: Main): Event {
    match main
    case Accepting => StopAccepting
    case Draining => LoadActive
    case ReadActive(_) => LoadReceived
    case ReadReceived(_, _) => LoadHandled
    case Exited => LoadActive
  }

  /** How many of its steps the main task needs at most on a settled server. */
  function StepsOf(s: State): nat {
    match s.main
    case Accepting => 4
    case Draining => 3
    case ReadActive(a) => if a == 0 then 2 else 5
    case ReadReceived(a, n) => if a == 0 && n == s.handledRequests then 1 else 4
    case Exited => 0
  }

  lemma MainProgress(events: seq<Event>, s: State)
    requires Run(events, s) && Settled(s) && NoChannelDropped(s) && s.main != Exited
    ensures var e := NextOfMain(s.main);
            && Enabled(s, e) && Settled(Apply(s, e)) && NoChannelDropped(Apply(s, e))
            && StepsOf(Apply(s, e)) < StepsOf(s)
  {
    assert s.activeIo == 0 by { RunKeepsInv(events, s); }
    SettledCount(events, s);
    NoneDropped(s);
    assert Live(Apply(s, NextOfMain(s.main))) == Live(s);
  }

  lemma {:induction false} CanExit(events: seq<Event>, s: State) returns (more: seq<Event>, s': State)
    requires Run(events, s) && Settled(s) && NoChannelDropped(s)
    ensures Run(events + more, s') && s'.main == Exited && NoChannelDropped(s')
    decreases StepsOf(s)
  {
    if s.main == Exited {
      more, s' := [], s;
      assert events + more == events;
    } else {
      var e := NextOfMain(s.main);
      MainProgress(events, s);
      RunExtends(events, s, e);
      var rest;
      rest, s' := CanExit(events + [e], Apply(s, e));
      more := [e] + rest;
      OneMore(events, e, rest);
    }
  }

  /** From every reachable state without a dropped channel the drain loop can exit, with every received request
      handled once: no interleaving leads the server into a dead end. */
  lemma DrainCanFinish(events: seq<Event>, s: State) returns (more: seq<Event>, s': State)
    requires Run(events, s) && NoChannelDropped(s)
    ensures Run(events + more, s') && s'.main == Exited
    ensures forall r <- Received(s') :: s'.requests[r].times == 1
  {
    WeightIsNatural(s);
    var toRest, rest := CanSettle(events, s, Weight(s));
    var toExit;
    toExit, s' := CanExit(events + toRest, rest);
    more := toRest + toExit;
    RunInTwo(events, toRest, toExit);
    ExitedIsSound(events + more, s');
  }

  lemma RunInTwo(events: seq<Event>, a: seq<Event>, b: seq<Event>)
    ensures events + (a + b) == events + a + b
  {
  }

  lemma ExitedIsSound(events: seq<Event>, s: State)
    requires Run(events, s) && NoChannelDropped(s) && s.main == Exited
    ensures forall r <- Received(s) :: s.requests[r].times == 1
  {
    DrainIsSound(events, s);
  }

  /** A request whose response was taken is handled as soon as its body is dropped: its watcher may fire at once,
      while the connection goes on. */
  lemma BodyDropHandles(events: seq<Event>, s: State, r: nat)
    requires Run(events, s) && InPhase(s, r, Responded)
    ensures var t := Apply(s, DropBody(r));
            && Enabled(t, WatcherFires(r))
            && var t' := Apply(t, WatcherFires(r));
               t'.requests[r].times == 1 && t'.handledRequests == s.handledRequests + 1 && t'.conns == s.conns
               && ConnIs(t', s.requests[r].conn, Serving)
  {
    RunKeepsInv(events, s);
    assert GoodRequest(s, s.requests[r]);
  }

  // ----- a run that exits too early -----

  lemma RunExtends2(events: seq<Event>, s: State, a: Event, b: Event)
    requires Run(events, s) && Enabled(s, a) && Enabled(Apply(s, a), b)
    ensures Run(events + [a, b], Apply(Apply(s, a), b))
  {
    RunExtends(events, s, a);
    RunExtends(events + [a], Apply(s, a), b);
    assert events + [a] + [b] == events + [a, b];
  }

  /** Four steps at a time. */
  lemma RunExtends4(events: seq<Event>, s: State, a: Event, b: Event, c: Event, d: Event)
    requires Run(events, s) && Enabled(s, a) && Enabled(Apply(s, a), b)
    requires Enabled(Apply(Apply(s, a), b), c) && Enabled(Apply(Apply(Apply(s, a), b), c), d)
    ensures Run(events + [a, b, c, d], Apply(Apply(Apply(Apply(s, a), b), c), d))
  {
    RunExtends2(events, s, a, b);
    RunExtends2(events + [a, b], Apply(Apply(s, a), b), c, d);
    assert events + [a, b] + [c, d] == events + [a, b, c, d];
  }

  function Crossroads(c: Conn, requests: map<nat, Request>, active: nat, received: nat, handled: nat,
                      main: Main): State
  {
    State(map[0 := c], requests, active, received, handled, main)
  }

  lemma FirstRequestLosesItsChannel(events: seq<Event>)
    requires Run(events, Crossroads(Serving, map[], 1, 0, 0, Accepting))
    ensures Run(events + [Send(0, 1), CountReceived(1), SpawnWatcher(1), ChannelDropped(1)],
                Crossroads(Serving, map[1 := Request(0, Gone, true, false, true, 1)], 1, 1, 1, Accepting))
  {
    var s := Crossroads(Serving, map[], 1, 0, 0, Accepting);
    RunExtends4(events, s, Send(0, 1), CountReceived(1), SpawnWatcher(1), ChannelDropped(1));
    assert Apply(Apply(Apply(Apply(s, Send(0, 1)), CountReceived(1)), SpawnWatcher(1)), ChannelDropped(1)).requests
        == map[1 := Request(0, Gone, true, false, true, 1)];
  }

  lemma SecondRequestIsAbandoned(events: seq<Event>, q: Request)
    requires Run(events, Crossroads(Serving, map[1 := q], 1, 1, 1, Accepting))
    ensures Run(events + [Send(0, 2), CountReceived(2), SpawnWatcher(2), DropFuture(2)],
                Crossroads(Serving, map[1 := q, 2 := Request(0, Gone, true, false, false, 0)], 1, 2, 1, Accepting))
  {
    var s := Crossroads(Serving, map[1 := q], 1, 1, 1, Accepting);
    RunExtends4(events, s, Send(0, 2), CountReceived(2), SpawnWatcher(2), DropFuture(2));
    assert Apply(Apply(Apply(Apply(s, Send(0, 2)), CountReceived(2)), SpawnWatcher(2)), DropFuture(2)).requests
        == map[1 := q, 2 := Request(0, Gone, true, false, false, 0)];
  }

  lemma ConnectionCloses(events: seq<Event>, requests: map<nat, Request>)
    requires Run(events, Crossroads(Serving, requests, 1, 2, 1, Accepting))
    requires forall r <- requests :: requests[r].phase.Gone?
    ensures Run(events + [DropConnection(0), DropActiveGuard(0)], Crossroads(Uncounted, requests, 0, 2, 1, Accepting))
  {
    var s := Crossroads(Serving, requests, 1, 2, 1, Accepting);
    RunExtends2(events, s, DropConnection(0), DropActiveGuard(0));
    assert Apply(Apply(s, DropConnection(0)), DropActiveGuard(0)).conns == map[0 := Uncounted];
  }

  lemma WatcherCountsAgain(events: seq<Event>, q: Request, p: Request)
    requires q == Request(0, Gone, true, false, true, 1)
    requires Run(events, Crossroads(Uncounted, map[1 := q, 2 := p], 0, 2, 1, Accepting))
    ensures Run(events + [DropCancelGuard(0), WatcherFires(1)],
                Crossroads(Cancelled, map[1 := q.(watched := false, times := 2), 2 := p], 0, 2, 2, Accepting))
  {
    var s := Crossroads(Uncounted, map[1 := q, 2 := p], 0, 2, 1, Accepting);
    RunExtends2(events, s, DropCancelGuard(0), WatcherFires(1));
    var s' := Apply(Apply(s, DropCancelGuard(0)), WatcherFires(1));
    assert s'.conns == map[0 := Cancelled] && s'.requests == map[1 := q.(watched := false, times := 2), 2 := p];
  }

  lemma ConnectionEnds(events: seq<Event>, q: Request, p: Request)
    requires q == Request(0, Gone, true, false, true, 1) && p == Request(0, Gone, true, false, false, 0)
    requires Run(events, Crossroads(Serving, map[1 := q, 2 := p], 1, 2, 1, Accepting))
    ensures Run(events + [DropConnection(0), DropActiveGuard(0), DropCancelGuard(0), WatcherFires(1)],
                Crossroads(Cancelled, map[1 := q.(watched := false, times := 2), 2 := p], 0, 2, 2, Accepting))
  {
    ConnectionCloses(events, map[1 := q, 2 := p]);
    var closed := events + [DropConnection(0), DropActiveGuard(0)];
    WatcherCountsAgain(closed, q, p);
    assert closed + [DropCancelGuard(0), WatcherFires(1)]
        == events + [DropConnection(0), DropActiveGuard(0), DropCancelGuard(0), WatcherFires(1)];
  }

  lemma LoopExits(events: seq<Event>, s: State)
    requires Run(events, s) && s.main == Accepting && s.activeIo == 0 && s.receivedRequests == s.handledRequests
    ensures Run(events + [StopAccepting, LoadActive, LoadReceived, LoadHandled], s.(main := Exited))
  {
    RunExtends4(events, s, StopAccepting, LoadActive, LoadReceived, LoadHandled);
  }

  lemma FirstConnection() returns (events: seq<Event>)
    ensures Run(events, Crossroads(Serving, map[], 1, 0, 0, Accepting))
  {
    RunExtends([], INITIAL, Accept(0));
    assert Apply(INITIAL, Accept(0)).conns == map[0 := Serving];
    events := [] + [Accept(0)];
  }

  /** A request whose response channel was dropped is counted twice; a second request, received and
      never handled, is then missed by the drain loop. */
  lemma DroppedChannelHidesARequest() returns (events: seq<Event>, s: State)
    ensures Run(events, s) && s.main == Exited
    ensures 2 in Received(s) && s.requests[2].times == 0
    ensures 1 in s.requests && s.requests[1].channelDropped && s.requests[1].times == 2
  {
    var q, p := Request(0, Gone, true, false, true, 1), Request(0, Gone, true, false, false, 0);
    s := Crossroads(Cancelled, map[1 := q.(watched := false, times := 2), 2 := p], 0, 2, 2, Accepting).(main := Exited);
    var e0 := FirstConnection();
    FirstRequestLosesItsChannel(e0);
    var e1 := e0 + [Send(0, 1), CountReceived(1), SpawnWatcher(1), ChannelDropped(1)];
    SecondRequestIsAbandoned(e1, q);
    var e2 := e1 + [Send(0, 2), CountReceived(2), SpawnWatcher(2), DropFuture(2)];
    ConnectionEnds(e2, q, p);
    var e3 := e2 + [DropConnection(0), DropActiveGuard(0), DropCancelGuard(0), WatcherFires(1)];
    LoopExits(e3, s.(main := Accepting));
    events := e3 + [StopAccepting, LoadActive, LoadReceived, LoadHandled];
  }
}
