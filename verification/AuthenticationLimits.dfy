/**
 Where the guarantees of the interceptor end: a credential setter that writes back a copy
 that is out of date, and the refreshes that nothing limits without a refresh window.
 */
module AuthenticationLimits {
  import opened Wrappers
  import opened Authentication
  import opened AuthenticationRuns

  // ---------- Building runs ----------

  lemma NoSteps(s: System)
    ensures Run(s, [], s)
  {
  }

  lemma OneStep(s: System, a: Action)
    requires Enabled(s, a)
    ensures Run(s, [a], Step(s, a))
  {
    hide Step, Enabled;
    assert [a][1..] == [] && Run(Step(s, a), [], Step(s, a));
  }

  lemma AndThen(s: System, actions: seq<Action>, s1: System, a: Action)
    requires Run(s, actions, s1) && Enabled(s1, a)
    ensures Run(s, actions + [a], Step(s1, a))
  {
    hide Step, Enabled, Run;
    OneStep(s1, a);
    RunAppend(s, actions, s1, [a], Step(s1, a));
  }

  lemma {:induction false} RunAppend(s: System, x: seq<Action>, s1: System, y: seq<Action>, s2: System)
    requires Run(s, x, s1) && Run(s1, y, s2)
    ensures Run(s, x + y, s2)
    decreases |x|
  {
    hide Step, Enabled;
    if x == [] {
      assert x + y == y;
    } else {
      assert (x + y)[1..] == x[1..] + y;
      RunAppend(Step(s, x[0]), x[1..], s1, y, s2);
    }
  }

  lemma ThreeSteps(s: System, actions: seq<Action>, s1: System, s2: System, s3: System)
    requires |actions| == 3 && Enabled(s, actions[0]) && s1 == Step(s, actions[0])
    requires Enabled(s1, actions[1]) && s2 == Step(s1, actions[1])
    requires Enabled(s2, actions[2]) && s3 == Step(s2, actions[2])
    ensures Run(s, actions, s3)
  {
    hide Step, Enabled;
    var tail := actions[1..];
    assert tail[0] == actions[1] && tail[1..][0] == actions[2] && tail[1..][1..] == [];
    assert Run(s3, [], s3);
    assert Run(s2, tail[1..], s3);
    assert Run(s1, tail, s3);
  }

  // ---------- What an out-of-date copy does ----------

  /** The credential asks to be refreshed; the clock shows t. */
  function Expired(t: real): Env {
    Env(true, true, true, t, t)
  }

  /** A new interceptor with a credential and a window that allows a refresh; one request is about to be adapted. */
  predicate OneRequest(s: System, id: Id) {
    && s.l.credential.Some? && s.l.refreshWindow.Some? && s.l.refreshWindow.value.maximumAttempts > 0
    && s == System(Locked(s.l.credential, false, [], s.l.refreshWindow, [], [], []), [Adapt(id)], 0, [], s.clock,
        [id], [], [])
  }

  /** The interceptor as created, able to refresh. */
  predicate Able(s: System) {
    && Initial(s) && s.l.credential.Some?
    && s.l.refreshWindow.Some? && s.l.refreshWindow.value.maximumAttempts > 0
  }

  lemma OneRequestArises(s: System, id: Id)
    requires Able(s)
    ensures Enabled(s, CallAdapt(id)) && OneRequest(Step(s, CallAdapt(id)), id)
  {
    assert [] + [Adapt(id)] == [Adapt(id)] && [] + [id] == [id];
  }

  /** The request is parked and its refresh dispatched. */
  function Parked(s: System, id: Id, setters: seq<Setter>): System
    requires s.l.credential.Some?
  {
    s.(l := s.l.(isRefreshing := true, refreshTimestamps := [s.clock], adaptOperations := [id],
                 queue := [StartRefresh(s.l.credential.value)]),
       threads := [], setters := setters, refreshes := [s.clock])
  }

  lemma ParkRequest(s: System, id: Id, setters: seq<Setter>)
    requires OneRequest(s, id)
    ensures var s0 := s.(setters := setters); var a := ThreadStep(0, Expired(s.clock));
            Enabled(s0, a) && Step(s0, a) == Parked(s, id, setters)
  {
    assert !Excessive(s.l.(adaptOperations := [id]), s.clock);
    assert s.l.adaptOperations + [id] == [id] && s.threads[..0] + [] + s.threads[1..] == [];
  }

  /** A run that goes on after the first request has been made. */
  lemma AfterFirstRequest(s: System, id: Id, actions: seq<Action>, s': System)
    requires Able(s) && Run(Step(s, CallAdapt(id)), actions, s')
    ensures Run(s, [CallAdapt(id)] + actions, s')
  {
    hide Step, Run;
    assert Enabled(s, CallAdapt(id));
    OneStep(s, CallAdapt(id));
    RunAppend(s, [CallAdapt(id)], Step(s, CallAdapt(id)), actions, s');
  }

  /**
   A setter that takes its copy before the request is parked and writes it back afterwards:
   the handler is in no place at all, its refresh is in flight while nothing says so, and the
   refresh is not remembered for the window.
   */
  lemma SetterLosesHandler(s: System, id: Id, c: Option<Credential>) returns (actions: seq<Action>, s': System)
    requires Able(s)
    ensures actions == [CallAdapt(id)] + [BeginSet(c), ThreadStep(0, Expired(s.clock)), FinishSet(0)]
    ensures Run(s, actions, s')
    ensures id in s'.started && Places(s', id) == 0 && !Conserved(s')
    ensures Starts(s'.l.queue) == 1 && !s'.l.isRefreshing && !OneRefresh(s')
    ensures s'.l.refreshTimestamps == [] && s'.refreshes == [s.clock]
  {
    OneRequestArises(s, id);
    hide Run, Places, Conserved;
    var later: seq<Action>;
    later, s' := LosingSteps(Step(s, CallAdapt(id)), id, c);
    AfterFirstRequest(s, id, later, s');
    actions := [CallAdapt(id)] + later;
  }

  lemma LosingSteps(s: System, id: Id, c: Option<Credential>) returns (actions: seq<Action>, s': System)
    requires OneRequest(s, id)
    ensures actions == [BeginSet(c), ThreadStep(0, Expired(s.clock)), FinishSet(0)] && Run(s, actions, s')
    ensures id in s'.started && Places(s', id) == 0 && !Conserved(s')
    ensures Starts(s'.l.queue) == 1 && !s'.l.isRefreshing && !OneRefresh(s')
    ensures s' == s.(l := s.l.(credential := c, queue := [StartRefresh(s.l.credential.value)]),
                     threads := [], refreshes := [s.clock])
  {
    var setter := Setter(s.l, c);
    var s1, s2 := s.(setters := [setter]), Parked(s, id, [setter]);
    s' := s2.(l := s.l.(credential := c, queue := s2.l.queue), setters := []);
    ParkRequest(s, id, [setter]);
    actions := [BeginSet(c), ThreadStep(0, Expired(s.clock)), FinishSet(0)];
    assert Step(s, actions[0]) == s1;
    assert Step(s2, actions[2]) == s';
    LostPlaces(s', id);
    hide Step, Run, Places, Conserved, Parked;
    ThreeSteps(s, actions, s1, s2, s');
    assert Starts([]) == 0 && Starts(s'.l.queue) == 1;
  }

  /** After that the next request starts a second refresh at the same instant, although the window allows one. */
  lemma SetterBreaksWindow(s: System, id: Id, next: Id, c: Credential) returns (actions: seq<Action>, s': System)
    requires Able(s) && next != id
    requires s.l.refreshWindow.value.maximumAttempts == 1 && s.l.refreshWindow.value.interval >= 0.0
    ensures Run(s, actions, s')
    ensures s'.l.refreshWindow == s.l.refreshWindow && s'.refreshes == [s.clock, s.clock]
    ensures !AtMost(s'.refreshes, s.l.refreshWindow.value)
  {
    OneRequestArises(s, id);
    hide Run, AtMost;
    var later: seq<Action>;
    later, s' := BreakingSteps(Step(s, CallAdapt(id)), id, next, c);
    AfterFirstRequest(s, id, later, s');
    actions := [CallAdapt(id)] + later;
  }

  lemma BreakingSteps(s: System, id: Id, next: Id, c: Credential) returns (actions: seq<Action>, s': System)
    requires OneRequest(s, id) && next != id
    requires s.l.refreshWindow.value.maximumAttempts == 1 && s.l.refreshWindow.value.interval >= 0.0
    ensures Run(s, actions, s')
    ensures s'.l.refreshWindow == s.l.refreshWindow && s'.refreshes == [s.clock, s.clock]
    ensures !AtMost(s'.refreshes, s.l.refreshWindow.value)
  {
    var w := s.l.refreshWindow.value;
    var before, lost := LosingSteps(s, id, Some(c));
    var queue := [StartRefresh(s.l.credential.value)];
    assert lost == s.(l := s.l.(credential := Some(c), queue := queue), threads := [], refreshes := [s.clock]);
    var called := Step(lost, CallAdapt(next));
    assert called == lost.(threads := [Adapt(next)], started := [id, next]);
    var a := ThreadStep(0, Expired(s.clock));
    SecondRefresh(called, next, c);
    s' := Step(called, a);
    AndThen(s, before, lost, CallAdapt(next));
    AndThen(s, before + [CallAdapt(next)], called, a);
    actions := before + [CallAdapt(next)] + [a];
    hide Step, Run;
    StartsSnoc([], s.clock, s.clock, w.interval);
    StartsSnoc([s.clock], s.clock, s.clock, w.interval);
    assert [] + [s.clock] == [s.clock] && [s.clock] + [s.clock] == [s.clock, s.clock];
    assert StartsWithin(s'.refreshes, s.clock, w.interval) == 2;
  }

  lemma SecondRefresh(s: System, id: Id, c: Credential)
    requires s.threads == [Adapt(id)] && s.l.credential == Some(c) && !s.l.isRefreshing && s.l.refreshTimestamps == []
    requires s.l.refreshWindow.Some? && s.l.refreshWindow.value.maximumAttempts > 0 && s.refreshes == [s.clock]
    ensures var a := ThreadStep(0, Expired(s.clock));
            Enabled(s, a) && Step(s, a).refreshes == [s.clock, s.clock]
                && Step(s, a).l.refreshWindow == s.l.refreshWindow
  {
    assert !Excessive(s.l.(adaptOperations := s.l.adaptOperations + [id]), s.clock);
    assert [] + [s.clock] == [s.clock] && [s.clock] + [s.clock] == [s.clock, s.clock];
  }

  lemma LostPlaces(s: System, id: Id)
    requires s.threads == [] && |s.l.queue| == 1 && s.l.queue[0].StartRefresh? && s.called == [] && id in s.started
    requires s.l.adaptOperations == [] && s.l.requestsToRetry == []
    ensures Places(s, id) == 0 && !Conserved(s)
  {
    assert InTasks([], id) == 0 && InIds([], id) == 0 && InCalls([], id) == 0;
    assert InTasks(s.l.queue, id) == 0;
  }

  /** A lost handler stays lost: it is never called, unless another out-of-date copy brings it back. */
  lemma {:induction false} LostForEver(s: System, id: Id, actions: seq<Action>, s': System)
    requires id in s.started && Places(s, id) == 0 && Run(s, actions, s')
    requires forall a :: a in actions ==> !a.FinishSet?
    ensures id in s'.started && Places(s', id) == 0 && InCalls(s'.called, id) == 0
    decreases |actions|
  {
    hide Step, Enabled, InTasks, InLocked, InCalls;
    if actions != [] {
      StepPlaces(s, actions[0], id);
      StepStarted(s, actions[0]);
      LostForEver(Step(s, actions[0]), id, actions[1..], s');
    }
  }

  /** The request is parked and the authenticator was asked for a refresh. */
  function Awaiting(s: System, id: Id): System
    requires s.l.credential.Some?
  {
    var p := Parked(s, id, []);
    p.(l := p.l.(queue := []), outstanding := 1)
  }

  lemma AskForRefresh(s: System, id: Id)
    requires OneRequest(s, id)
    ensures Run(s, [ThreadStep(0, Expired(s.clock))] + [QueueStep(Expired(s.clock))], Awaiting(s, id))
  {
    ParkRequest(s, id, []);
    assert s.(setters := []) == s;
    var a := QueueStep(Expired(s.clock));
    assert Enabled(Parked(s, id, []), a) && Step(Parked(s, id, []), a) == Awaiting(s, id);
    hide Step, Run, Parked, Awaiting;
    OneStep(s, ThreadStep(0, Expired(s.clock)));
    AndThen(s, [ThreadStep(0, Expired(s.clock))], Parked(s, id, []), a);
  }

  /** The copy is taken before the refresh completes, and written back after. */
  lemma CopyAcrossRefresh(s: System, id: Id, c: Option<Credential>, newer: Credential) returns (s': System)
    requires s.l.isRefreshing && s.l.adaptOperations == [id] && s.l.requestsToRetry == [] && s.l.queue == []
    requires s.outstanding == 1 && s.setters == []
    ensures Run(s, [BeginSet(c), RefreshEnds(Refreshed(newer)), FinishSet(0)], s')
    ensures s' == s.(l := s.l.(credential := c, queue := [Adapt(id)]), outstanding := 0)
  {
    var actions := [BeginSet(c), RefreshEnds(Refreshed(newer)), FinishSet(0)];
    var s1 := s.(setters := [Setter(s.l, c)]);
    var s2 := s1.(l := Succeed(s1.l, newer), outstanding := 0);
    assert s2.l.queue == [Adapt(id)];
    s' := s.(l := s.l.(credential := c, queue := [Adapt(id)]), outstanding := 0);
    assert Step(s, actions[0]) == s1 && Step(s1, actions[1]) == s2 && Step(s2, actions[2]) == s';
    hide Step, Succeed;
    ThreeSteps(s, actions, s1, s2, s');
  }

  /**
   A setter that takes its copy while the request is parked and writes it back after the
   refresh: the handler is in two places.
   */
  lemma SetterDoublesHandler(s: System, id: Id, c: Option<Credential>, newer: Credential)
    returns (actions: seq<Action>, s': System)
    requires Able(s)
    ensures Run(s, actions, s')
    ensures id in s'.started && Places(s', id) == 2 && !Conserved(s')
    ensures s'.l.isRefreshing && Starts(s'.l.queue) + s'.outstanding == 0 && !OneRefresh(s')
  {
    OneRequestArises(s, id);
    hide Run, Places, Conserved;
    var later: seq<Action>;
    later, s' := DoublingSteps(Step(s, CallAdapt(id)), id, c, newer);
    AfterFirstRequest(s, id, later, s');
    actions := [CallAdapt(id)] + later;
  }

  lemma DoublingSteps(s: System, id: Id, c: Option<Credential>, newer: Credential)
    returns (actions: seq<Action>, s': System)
    requires OneRequest(s, id)
    ensures Run(s, actions, s')
    ensures id in s'.started && Places(s', id) == 2 && !Conserved(s')
    ensures s'.l.isRefreshing && Starts(s'.l.queue) + s'.outstanding == 0 && !OneRefresh(s')
  {
    hide Run, Places, Conserved;
    AskForRefresh(s, id);
    var asked := [ThreadStep(0, Expired(s.clock))] + [QueueStep(Expired(s.clock))];
    s' := CopyAcrossRefresh(Awaiting(s, id), id, c, newer);
    actions := asked + [BeginSet(c), RefreshEnds(Refreshed(newer)), FinishSet(0)];
    RunAppend(s, asked, Awaiting(s, id), [BeginSet(c), RefreshEnds(Refreshed(newer)), FinishSet(0)], s');
    DoubledPlaces(s', id);
    assert Starts([]) == 0 && Starts(s'.l.queue) == 0;
  }

  lemma DoubledPlaces(s: System, id: Id)
    requires s.threads == [] && s.l.queue == [Adapt(id)] && s.called == [] && id in s.started
    requires s.l.adaptOperations == [id] && s.l.requestsToRetry == []
    ensures Places(s, id) == 2 && !Conserved(s)
  {
    assert InTasks([], id) == 0 && InIds([], id) == 0 && InCalls([], id) == 0;
    InTasksOne(Adapt(id), id);
    InIdsSnoc([], id, id);
    assert [] + [id] == [id];
    hide InTasks, InIds, InCalls;
  }

  // ---------- Without a refresh window ----------

  /** One request waits on the queue to be adapted, and nothing else is going on. */
  predicate Waiting(s: System, id: Id) {
    && s.l.refreshWindow.None? && s.l.credential.Some? && !s.l.isRefreshing
    && s.l.adaptOperations == [] && s.l.requestsToRetry == [] && s.l.queue == [Adapt(id)] && s.outstanding == 0
  }

  /** Adapt with a credential that requires refresh, call the authenticator, and receive another such credential. */
  function Cycle(c: Credential, t: real): seq<Action> {
    var env := Env(true, false, false, t, t);
    [QueueStep(env), QueueStep(env), RefreshEnds(Refreshed(c))]
  }

  lemma CycleRuns(s: System, id: Id, c: Credential) returns (s': System)
    requires Waiting(s, id)
    ensures Run(s, Cycle(c, s.clock), s') && Waiting(s', id)
    ensures |s'.l.refreshTimestamps| == |s.l.refreshTimestamps| + 1 && s'.clock == s.clock && s'.called == s.called
  {
    var actions := Cycle(c, s.clock);
    var s1 := Step(s, actions[0]);
    assert s1.l.queue == [StartRefresh(s.l.credential.value)] && s1.l.adaptOperations == [id];
    var s2 := Step(s1, actions[1]);
    assert s2.l.queue == [] && s2.outstanding == 1;
    s' := Step(s2, actions[2]);
    assert s'.l.queue == [Adapt(id)];
    hide Perform, Succeed, Fail, Enabled;
    ThreeSteps(s, actions, s1, s2, s');
  }

  /** The window is needed: without one, refreshes can follow each other any number of times and answer nothing. */
  lemma {:induction false} EndlessWithoutWindow(s: System, id: Id, c: Credential, n: nat)
      returns (actions: seq<Action>, s': System)
    requires Waiting(s, id)
    ensures Run(s, actions, s') && Waiting(s', id) && s'.called == s.called && s'.clock == s.clock
    ensures |s'.l.refreshTimestamps| == |s.l.refreshTimestamps| + n
  {
    hide Run, Waiting, Cycle;
    if n == 0 {
      actions, s' := [], s;
      NoSteps(s);
    } else {
      var before, s1 := EndlessWithoutWindow(s, id, c, n - 1);
      s' := CycleRuns(s1, id, c);
      actions := before + Cycle(c, s1.clock);
      RunAppend(s, before, s1, Cycle(c, s1.clock), s');
    }
  }
}
