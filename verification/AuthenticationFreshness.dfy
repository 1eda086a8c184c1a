/**
 Which credential a refresh is asked for. adapt hands over the credential of the moment;
 retry hands over the one that its guards read before its lock section, and that one may
 have been replaced in between, by a setter or by a whole refresh.
 */
module AuthenticationFreshness {
  import opened Wrappers
  import opened Authentication
  import opened AuthenticationRuns
  import opened AuthenticationLimits

  // ---------- The exact condition ----------

  /** From l to l' a refresh is dispatched for a credential that is not the one l' holds. */
  ghost predicate StartsStale(l: Locked, l': Locked)
    requires l.queue <= l'.queue
  {
    exists t :: t in l'.queue[|l.queue|..] && t.StartRefresh? && l'.credential != Some(t.credential)
  }

  lemma OnlyFinishes(ids: seq<Id>, outcome: Outcome)
    ensures forall t :: t in Finishes(ids, outcome) ==> t.Finish?
    ensures forall t :: t in Adapts(ids) ==> t.Adapt?
  {
  }

  /**
   A refresh dispatched for `credential` is stale exactly when another one is stored; an excessive one
   is not dispatched.
   */
  lemma RefreshStale(l: Locked, credential: Credential, check: real, record: real)
    ensures var l' := Refresh(l, credential, check, record);
            l.queue <= l'.queue && (StartsStale(l, l') <==> !Excessive(l, check) && l.credential != Some(credential))
  {
    hide AttemptsSince;
    var l' := Refresh(l, credential, check, record);
    if Excessive(l, check) {
      OnlyFinishes(l.adaptOperations, AdaptFailed(ExcessiveRefresh));
      OnlyFinishes(l.requestsToRetry, DoNotRetryWith(ExcessiveRefresh));
      hide Finishes;
      assert l'.queue[|l.queue|..] == Finishes(l.adaptOperations, AdaptFailed(ExcessiveRefresh))
                                    + Finishes(l.requestsToRetry, DoNotRetryWith(ExcessiveRefresh));
    } else {
      assert l'.queue[|l.queue|..] == [StartRefresh(credential)];
      assert StartRefresh(credential) in l'.queue[|l.queue|..];
    }
  }

  lemma NothingDispatched(l: Locked, l': Locked)
    requires l'.queue == l.queue
    ensures !StartsStale(l, l')
  {
    assert l'.queue[|l.queue|..] == [];
  }

  /**
   Of all tasks only the lock section of retry can start a stale refresh, and it does exactly
   when it starts one at all and the credential it brings along is no longer stored.
   */
  lemma StaleExactly(t: Task, l: Locked, env: Env)
    ensures var l' := Perform(t, l, env).l;
            l.queue <= l'.queue &&
            (StartsStale(l, l') <==>
              t.RetryLock? && !l.isRefreshing && !Excessive(l, env.check) && l.credential != Some(t.credential))
  {
    hide Refresh, StartsStale, AttemptsSince;
    var l' := Perform(t, l, env).l;
    if t.Adapt? && !l.isRefreshing && l.credential.Some? && env.requiresRefresh {
      var parked := l.(adaptOperations := l.adaptOperations + [t.id]);
      RefreshStale(parked, l.credential.value, env.check, env.record);
      SameDispatch(l, parked, l');
    } else if t.RetryLock? && !l.isRefreshing {
      var parked := l.(requestsToRetry := l.requestsToRetry + [t.id]);
      RefreshStale(parked, t.credential, env.check, env.record);
      SameDispatch(l, parked, l');
    } else {
      NothingDispatched(l, l');
    }
  }

  lemma SameDispatch(l: Locked, parked: Locked, l': Locked)
    requires parked.queue == l.queue && l.queue <= l'.queue
    ensures StartsStale(l, l') == StartsStale(parked, l')
  {
  }

  /** The end of a refresh starts none. */
  lemma RefreshEndsFresh(l: Locked, c: Credential, error: Error)
    ensures l.queue <= Succeed(l, c).queue && !StartsStale(l, Succeed(l, c))
    ensures l.queue <= Fail(l, error).queue && !StartsStale(l, Fail(l, error))
  {
    OnlyFinishes(l.adaptOperations, AdaptFailed(error));
    OnlyFinishes(l.requestsToRetry, DoNotRetryWith(error));
    OnlyFinishes(l.requestsToRetry, Retry);
    hide Finishes, Adapts;
    assert Succeed(l, c).queue[|l.queue|..] == Adapts(l.adaptOperations) + Finishes(l.requestsToRetry, Retry);
    assert Fail(l, error).queue[|l.queue|..]
        == Finishes(l.adaptOperations, AdaptFailed(error)) + Finishes(l.requestsToRetry, DoNotRetryWith(error));
  }

  // ---------- From the guards of retry to its lock section ----------

  /** The actions that store a credential: the end of a setter, and of a successful refresh. */
  predicate Stores(a: Action) {
    a.FinishSet? || (a.RefreshEnds? && a.result.Refreshed?)
  }

  lemma StepKeepsCredential(s: System, a: Action)
    requires Enabled(s, a) && !Stores(a)
    ensures Step(s, a).l.credential == s.l.credential
  {
    hide Excessive, Adapts, Finishes;
  }

  lemma {:induction false} RunKeepsCredential(s: System, actions: seq<Action>, s': System)
    requires Run(s, actions, s') && forall a :: a in actions ==> !Stores(a)
    ensures s'.l.credential == s.l.credential
    decreases |actions|
  {
    hide Step, Enabled, Stores;
    if actions != [] {
      StepKeepsCredential(s, actions[0]);
      RunKeepsCredential(Step(s, actions[0]), actions[1..], s');
    }
  }

  /**
   Thread i runs the guards of retry, and after any run its lock section follows. The refresh
   that it then starts is for the credential of the moment whenever no action in between
   stored one; in general it is stale exactly under the condition on the state at the lock.
   */
  lemma RetryRefreshesCurrent(s: System, i: nat, env: Env, actions: seq<Action>, s': System, j: nat, env': Env)
    requires Enabled(s, ThreadStep(i, env)) && s.threads[i].RetryCheck?
    requires Run(Step(s, ThreadStep(i, env)), actions, s') && Enabled(s', ThreadStep(j, env'))
    requires s'.threads[j].RetryLock? && [s'.threads[j]] == Perform(s.threads[i], s.l, env).next
    ensures var l := Step(s', ThreadStep(j, env')).l;
            s'.l.queue <= l.queue &&
            (StartsStale(s'.l, l) <==>
              !s'.l.isRefreshing && !Excessive(s'.l, env'.check) && s'.l.credential != s.l.credential)
    ensures (forall a :: a in actions ==> !Stores(a)) ==> !StartsStale(s'.l, Step(s', ThreadStep(j, env')).l)
  {
    StaleExactly(s'.threads[j], s'.l, env');
    assert Some(s'.threads[j].credential) == s.l.credential;
    if forall a :: a in actions ==> !Stores(a) {
      RunKeepsCredential(Step(s, ThreadStep(i, env)), actions, s');
    }
    hide StartsStale, Excessive, Run, Stores;
  }

  // ---------- Runs in which it is stale ----------

  /** The interceptor as created, with room for a second refresh. */
  predicate AbleTwice(s: System) {
    && Initial(s) && s.l.credential.Some?
    && (s.l.refreshWindow.Some? ==> s.l.refreshWindow.value.maximumAttempts >= 2)
  }

  /** One failed request at its guards, and another that is about to be adapted. */
  function TwoCalls(s: System, id: Id, x: Id): System {
    s.(threads := [RetryCheck(id), Adapt(x)], started := [id, x])
  }

  lemma MakeTwoCalls(s: System, id: Id, x: Id)
    requires Initial(s) && id != x
    ensures Run(s, [CallRetry(id)] + [CallAdapt(x)], TwoCalls(s, id, x))
  {
    var s1 := s.(threads := [RetryCheck(id)], started := [id]);
    assert Step(s, CallRetry(id)) == s1;
    assert [RetryCheck(id)] + [Adapt(x)] == [RetryCheck(id), Adapt(x)] && [id] + [x] == [id, x];
    assert Enabled(s1, CallAdapt(x)) && Step(s1, CallAdapt(x)) == TwoCalls(s, id, x);
    hide Step, Run;
    OneStep(s, CallRetry(id));
    AndThen(s, [CallRetry(id)], s1, CallAdapt(x));
  }

  /** Past its guards, the failed request waits for the lock with the credential it read. */
  function PastGuards(s: System, id: Id, x: Id): System
    requires s.l.credential.Some?
  {
    TwoCalls(s, id, x).(threads := [RetryLock(id, s.l.credential.value), Adapt(x)])
  }

  lemma PassGuards(s: System, id: Id, x: Id)
    requires Initial(s) && s.l.credential.Some?
    ensures var a := ThreadStep(0, Expired(s.clock)); var two := TwoCalls(s, id, x);
            Enabled(two, a) && Step(two, a) == PastGuards(s, id, x)
  {
    assert [] + [RetryLock(id, s.l.credential.value)] + [Adapt(x)] == [RetryLock(id, s.l.credential.value), Adapt(x)];
  }

  /** The other request is parked, its refresh runs and brings a newer credential. */
  function Renewed(s: System, id: Id, x: Id, newer: Credential): System
    requires s.l.credential.Some?
  {
    PastGuards(s, id, x).(
      l := s.l.(credential := Some(newer), refreshTimestamps := [s.clock], queue := [Adapt(x)]),
      threads := [RetryLock(id, s.l.credential.value)], refreshes := [s.clock])
  }

  lemma Renew(s: System, id: Id, x: Id, newer: Credential) returns (actions: seq<Action>)
    requires AbleTwice(s)
    ensures Run(PastGuards(s, id, x), actions, Renewed(s, id, x, newer)) && forall a :: a in actions ==> !a.FinishSet?
  {
    var s0, env := PastGuards(s, id, x), Expired(s.clock);
    var c := s.l.credential.value;
    actions := [ThreadStep(1, env), QueueStep(env), RefreshEnds(Refreshed(newer))];
    assert !Excessive(s.l.(adaptOperations := [x]), s.clock);
    assert s.l.adaptOperations + [x] == [x];
    var l1 := s.l.(isRefreshing := true, refreshTimestamps := [s.clock], adaptOperations := [x],
        queue := [StartRefresh(c)]);
    var s1 := s0.(l := l1, threads := [RetryLock(id, c)], refreshes := [s.clock]);
    assert Step(s0, actions[0]) == s1;
    var s2 := s1.(l := l1.(queue := []), outstanding := 1);
    assert Step(s1, actions[1]) == s2;
    assert Succeed(s2.l, newer).queue == [Adapt(x)];
    assert Step(s2, actions[2]) == Renewed(s, id, x, newer);
    hide Step, Perform, Succeed, PastGuards, Renewed;
    ThreeSteps(s0, actions, s1, s2, Renewed(s, id, x, newer));
  }

  lemma SecondRefreshAllowed(s: System)
    requires AbleTwice(s)
    ensures !Excessive(s.l.(refreshTimestamps := [s.clock]), s.clock)
  {
    if s.l.refreshWindow.Some? {
      var since := s.clock - s.l.refreshWindow.value.interval;
      assert AttemptsSince([], since) == 0;
      assert [s.clock][..0] == [];
      assert AttemptsSince([s.clock], since) <= 1;
    }
  }

  /**
   Without any setter: a whole refresh starts and completes between the guards of retry and
   its lock section, and retry has the replaced credential refreshed a second time.
   */
  lemma CompletedRefreshMakesStale(s: System, id: Id, x: Id, newer: Credential)
    returns (actions: seq<Action>, before: System, s': System)
    requires AbleTwice(s) && id != x && s.l.credential != Some(newer)
    ensures Run(s, actions + [ThreadStep(0, Expired(s.clock))], s') && Run(s, actions, before)
    ensures forall a :: a in actions ==> !a.FinishSet?
    ensures before.l.queue <= s'.l.queue && StartsStale(before.l, s'.l)
    ensures s'.l.credential == Some(newer) && s'.l.queue == [Adapt(x), StartRefresh(s.l.credential.value)]
    ensures s'.refreshes == [s.clock, s.clock]
  {
    var a := ThreadStep(0, Expired(s.clock));
    var calls := [CallRetry(id)] + [CallAdapt(x)];
    MakeTwoCalls(s, id, x);
    PassGuards(s, id, x);
    before := Renewed(s, id, x, newer);
    s' := LockAfterRenewal(s, id, x, newer);
    hide Step, Run, Enabled, StartsStale;
    AndThen(s, calls, TwoCalls(s, id, x), a);
    var later := Renew(s, id, x, newer);
    hide PastGuards, Renewed, TwoCalls;
    RunAppend(s, calls + [a], PastGuards(s, id, x), later, before);
    actions := calls + [a] + later;
    AndThen(s, actions, before, a);
  }

  lemma LockAfterRenewal(s: System, id: Id, x: Id, newer: Credential) returns (s': System)
    requires AbleTwice(s) && s.l.credential != Some(newer)
    ensures var before := Renewed(s, id, x, newer); var a := ThreadStep(0, Expired(s.clock));
            && Enabled(before, a) && s' == Step(before, a)
            && before.l.queue <= s'.l.queue && StartsStale(before.l, s'.l)
    ensures s'.l.credential == Some(newer) && s'.l.queue == [Adapt(x), StartRefresh(s.l.credential.value)]
    ensures s'.refreshes == [s.clock, s.clock]
  {
    var before, a := Renewed(s, id, x, newer), ThreadStep(0, Expired(s.clock));
    SecondRefreshAllowed(s);
    assert Excessive(before.l.(requestsToRetry := [id]), s.clock)
        == Excessive(s.l.(refreshTimestamps := [s.clock]), s.clock);
    hide AttemptsSince, StartsStale;
    s' := Step(before, a);
    assert [] + [id] == [id] && [s.clock] + [s.clock] == [s.clock, s.clock];
    assert [Adapt(x)] + [StartRefresh(s.l.credential.value)] == [Adapt(x), StartRefresh(s.l.credential.value)];
    StaleExactly(before.threads[0], before.l, Expired(s.clock));
  }

  lemma {:induction false} ExclusiveAppend(s: System, x: seq<Action>, s1: System, a: Action)
    requires Run(s, x, s1) && Exclusive(s, x) && Enabled(s1, a) && (s1.setters != [] ==> !TakesLock(s1, a))
    ensures Exclusive(s, x + [a])
    decreases |x|
  {
    hide Step, Enabled, TakesLock;
    if x == [] {
      assert x + [a] == [a] && [a][1..] == [] && Exclusive(Step(s1, a), []);
    } else {
      assert (x + [a])[1..] == x[1..] + [a];
      ExclusiveAppend(Step(s, x[0]), x[1..], s1, a);
    }
  }

  lemma GoOn(s: System, actions: seq<Action>, s1: System, a: Action)
    requires Run(s, actions, s1) && Exclusive(s, actions)
    requires Enabled(s1, a) && (s1.setters != [] ==> !TakesLock(s1, a))
    ensures Run(s, actions + [a], Step(s1, a)) && Exclusive(s, actions + [a])
  {
    hide Step, Run, Exclusive, TakesLock, Enabled;
    AndThen(s, actions, s1, a);
    ExclusiveAppend(s, actions, s1, a);
  }

  /** The failed request alone, past its guards, with these setters under way and this credential stored. */
  function Alone(s: System, id: Id, setters: seq<Setter>, credential: Option<Credential>): System
    requires s.l.credential.Some?
  {
    s.(l := s.l.(credential := credential), threads := [RetryLock(id, s.l.credential.value)], setters := setters,
        started := [id])
  }

  lemma AloneAtLock(s: System, id: Id)
    requires Initial(s) && s.l.credential.Some?
    ensures var actions := [] + [CallRetry(id)] + [ThreadStep(0, Expired(s.clock))];
            var s1 := Alone(s, id, [], s.l.credential);
            Run(s, actions, s1) && Exclusive(s, actions)
  {
    var a := ThreadStep(0, Expired(s.clock));
    var s0 := s.(threads := [RetryCheck(id)], started := [id]);
    assert [] + [RetryCheck(id)] == [RetryCheck(id)] && [] + [id] == [id];
    assert Enabled(s, CallRetry(id)) && Step(s, CallRetry(id)) == s0;
    assert [] + [RetryLock(id, s.l.credential.value)] + [] == [RetryLock(id, s.l.credential.value)];
    assert Enabled(s0, a) && Step(s0, a) == Alone(s, id, [], s.l.credential);
    assert Run(s, [], s) && Exclusive(s, []);
    hide Step, Run, Exclusive;
    GoOn(s, [], s, CallRetry(id));
    GoOn(s, [] + [CallRetry(id)], s0, a);
  }

  lemma SetWhileAlone(s: System, id: Id, c: Credential)
    requires Initial(s) && s.l.credential.Some?
    ensures var s1 := Alone(s, id, [], s.l.credential);
            var s2 := Alone(s, id, [Setter(s1.l, Some(c))], s.l.credential);
            && Step(s1, BeginSet(Some(c))) == s2
            && Enabled(s2, FinishSet(0)) && Step(s2, FinishSet(0)) == Alone(s, id, [], Some(c))
  {
  }

  lemma LockAfterSet(s: System, id: Id, c: Credential) returns (s': System)
    requires Able(s)
    ensures var s3 := Alone(s, id, [], Some(c)); var a := ThreadStep(0, Expired(s.clock));
            Enabled(s3, a) && s' == Step(s3, a)
    ensures s'.l.credential == Some(c) && s'.l.queue == [StartRefresh(s.l.credential.value)]
  {
    var s3, a := Alone(s, id, [], Some(c)), ThreadStep(0, Expired(s.clock));
    assert !Excessive(s3.l.(requestsToRetry := [id]), s.clock);
    assert [] + [id] == [id] && [] + [StartRefresh(s.l.credential.value)] == [StartRefresh(s.l.credential.value)];
    s' := Step(s3, a);
  }

  /** A setter between the guards and the lock section does it as well, even one that no lock section interrupts. */
  lemma SetterMakesStale(s: System, id: Id, c: Credential) returns (actions: seq<Action>, s': System)
    requires Able(s)
    ensures Run(s, actions, s') && Exclusive(s, actions)
    ensures s'.l.credential == Some(c) && s'.l.queue == [StartRefresh(s.l.credential.value)]
  {
    var before := [] + [CallRetry(id)] + [ThreadStep(0, Expired(s.clock))];
    AloneAtLock(s, id);
    SetWhileAlone(s, id, c);
    s' := LockAfterSet(s, id, c);
    var s1 := Alone(s, id, [], s.l.credential);
    var s2 := Alone(s, id, [Setter(s1.l, Some(c))], s.l.credential);
    assert !TakesLock(s2, FinishSet(0));
    hide Step, Run, Exclusive, TakesLock;
    GoOn(s, before, s1, BeginSet(Some(c)));
    GoOn(s, before + [BeginSet(Some(c))], s2, FinishSet(0));
    actions := before + [BeginSet(Some(c))] + [FinishSet(0)] + [ThreadStep(0, Expired(s.clock))];
    GoOn(s, before + [BeginSet(Some(c))] + [FinishSet(0)], Alone(s, id, [], Some(c)), ThreadStep(0, Expired(s.clock)));
  }
}
