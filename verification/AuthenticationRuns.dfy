/**
 All interleavings of the interceptor's steps. Any number of threads call adapt and retry;
 a step runs one lock section, calls one completion handler or starts one refresh. What the
 authenticator, the credential and the clock answer is chosen freely at every step.
 */
module AuthenticationRuns {
  import opened Wrappers
  import opened Authentication

  /** Answers from outside: the authenticator's and credential's predicates, and the two clock readings of refresh. */
  datatype Env = Env(requiresRefresh: bool, retryable: bool, sentWithCurrent: bool, check: real, record: real)

  datatype RefreshResult = Refreshed(credential: Credential) | RefreshFailed(code: nat)

  /** A call of the credential setter between its two lock sections: the copy it took, and the credential to store. */
  datatype Setter = Setter(snapshot: Locked, credential: Option<Credential>)

  /**
   `outstanding` counts calls of authenticator.refresh that have not completed. The last three
   are history: calls started, handlers called, and the times recorded for refresh starts.
   */
  datatype System = System(
    l: Locked, threads: seq<Task>, outstanding: nat, setters: seq<Setter>, clock: real,
    started: seq<Id>, called: seq<(Id, Outcome)>, refreshes: seq<real>)

  datatype Action =
    | CallAdapt(id: Id)
    | CallRetry(id: Id)
    | BeginSet(credential: Option<Credential>)
    | FinishSet(j: nat)
    | ThreadStep(i: nat, env: Env)
    | QueueStep(env: Env)
    | RefreshEnds(result: RefreshResult)

  // ---------- Steps ----------

  datatype Effect = Effect(l: Locked, next: seq<Task>, refreshes: nat, calls: seq<(Id, Outcome)>)

  /** Performing one task; `next` is what its thread does afterwards. */
  function Perform(t: Task, l: Locked, env: Env): Effect {
    match t
    case Adapt(id) =>
      var (l', next) := AdaptSection(l, id, env.requiresRefresh, env.check, env.record);
      Effect(l', next, 0, [])
    case RetryCheck(id) => Effect(l, [RetryGuards(l, id, env.retryable, env.sentWithCurrent)], 0, [])
    case RetryLock(id, c) => Effect(RetrySection(l, id, c, env.check, env.record), [], 0, [])
    case Finish(id, outcome) => Effect(l, [], 0, [(id, outcome)])
    case StartRefresh(_) => Effect(l, [], 1, [])
  }

  /** The times that a lock section appended. */
  function Recorded(l: Locked, l': Locked): seq<real> {
    if |l.refreshTimestamps| <= |l'.refreshTimestamps| then l'.refreshTimestamps[|l.refreshTimestamps|..] else []
  }

  /** A client names each call once; the clock never goes back; each refresh completes once. */
  predicate Enabled(s: System, a: Action) {
    match a
    case CallAdapt(id) => id !in s.started
    case CallRetry(id) => id !in s.started
    case BeginSet(_) => true
    case FinishSet(j) => j < |s.setters|
    case ThreadStep(i, env) => i < |s.threads| && s.clock <= env.check <= env.record
    case QueueStep(env) => s.l.queue != [] && s.clock <= env.check <= env.record
    case RefreshEnds(_) => s.outstanding > 0
  }

  function Step(s: System, a: Action): System
    requires Enabled(s, a)
  {
    match a
    case CallAdapt(id) => s.(threads := s.threads + [Adapt(id)], started := s.started + [id])
    case CallRetry(id) => s.(threads := s.threads + [RetryCheck(id)], started := s.started + [id])
    case BeginSet(c) => s.(setters := s.setters + [Setter(s.l, c)])
    case FinishSet(j) =>
      s.(l := WriteBack(s.l, s.setters[j].snapshot, s.setters[j].credential),
          setters := s.setters[..j] + s.setters[j + 1..])
    case ThreadStep(i, env) =>
      var e := Perform(s.threads[i], s.l, env);
      s.(l := e.l, threads := s.threads[..i] + e.next + s.threads[i + 1..], outstanding := s.outstanding + e.refreshes,
         clock := env.record, called := s.called + e.calls, refreshes := s.refreshes + Recorded(s.l, e.l))
    case QueueStep(env) =>
      var e := Perform(s.l.queue[0], s.l.(queue := s.l.queue[1..]), env);
      s.(l := e.l.(queue := e.next + e.l.queue), outstanding := s.outstanding + e.refreshes,
         clock := env.record, called := s.called + e.calls, refreshes := s.refreshes + Recorded(s.l, e.l))
    case RefreshEnds(result) =>
      s.(outstanding := s.outstanding - 1,
         l := match result
              case Refreshed(c) => Succeed(s.l, c)
              case RefreshFailed(code) => Fail(s.l, RefreshError(code)))
  }

  /** The interceptor as created. */
  predicate Initial(s: System) {
    s == System(Locked(s.l.credential, false, [], s.l.refreshWindow, [], [], []), [], 0, [], s.clock, [], [], [])
  }

  /** s' is reached from s by these actions. */
  predicate Run(s: System, actions: seq<Action>, s': System)
    decreases |actions|
  {
    if actions == [] then s' == s
    else Enabled(s, actions[0]) && Run(Step(s, actions[0]), actions[1..], s')
  }

  // ---------- Where a completion handler is ----------

  function Holds(t: Task, id: Id): nat {
    if !t.StartRefresh? && t.id == id then 1 else 0
  }

  /** How often the handler of call `id` occurs in these tasks. */
  function InTasks(ts: seq<Task>, id: Id): nat {
    if ts == [] then 0 else Holds(ts[0], id) + InTasks(ts[1..], id)
  }

  function InIds(ids: seq<Id>, id: Id): nat {
    if ids == [] then 0 else InIds(ids[..|ids| - 1], id) + (if ids[|ids| - 1] == id then 1 else 0)
  }

  function InCalls(calls: seq<(Id, Outcome)>, id: Id): nat {
    if calls == [] then 0 else InCalls(calls[..|calls| - 1], id) + (if calls[|calls| - 1].0 == id then 1 else 0)
  }

  /** Handlers held by the locked state: parked, or in dispatched blocks. */
  function InLocked(l: Locked, id: Id): nat {
    InTasks(l.queue, id) + InIds(l.adaptOperations, id) + InIds(l.requestsToRetry, id)
  }

  /**
   How often the handler occurs anywhere: in an executing call, parked, dispatched, or as called.
   Copies that setters took do not count.
   */
  function Places(s: System, id: Id): nat {
    InTasks(s.threads, id) + InLocked(s.l, id) + InCalls(s.called, id)
  }

  /** Every call that was started has its handler in exactly one place, and no other handler exists. */
  ghost predicate Conserved(s: System) {
    forall id :: Places(s, id) == if id in s.started then 1 else 0
  }

  lemma {:induction false} InTasksAppend(a: seq<Task>, b: seq<Task>, id: Id)
    ensures InTasks(a + b, id) == InTasks(a, id) + InTasks(b, id)
  {
    hide Holds;
    if a == [] {
      assert a + b == b;
    } else {
      assert (a + b)[1..] == a[1..] + b;
      InTasksAppend(a[1..], b, id);
    }
  }

  lemma InTasksOne(t: Task, id: Id)
    ensures InTasks([t], id) == Holds(t, id)
  {
    assert [t][1..] == [];
  }

  lemma InIdsSnoc(ids: seq<Id>, x: Id, id: Id)
    ensures InIds(ids + [x], id) == InIds(ids, id) + (if x == id then 1 else 0)
  {
    assert (ids + [x])[..|ids|] == ids;
  }

  lemma {:induction false} ReleasedIds(ids: seq<Id>, outcome: Outcome, id: Id)
    ensures InTasks(Adapts(ids), id) == InIds(ids, id)
    ensures InTasks(Finishes(ids, outcome), id) == InIds(ids, id)
  {
    if ids != [] {
      var n := |ids| - 1;
      ReleasedIds(ids[..n], outcome, id);
      assert Adapts(ids) == Adapts(ids[..n]) + [Adapt(ids[n])];
      assert Finishes(ids, outcome) == Finishes(ids[..n], outcome) + [Finish(ids[n], outcome)];
      InTasksAppend(Adapts(ids[..n]), [Adapt(ids[n])], id);
      InTasksAppend(Finishes(ids[..n], outcome), [Finish(ids[n], outcome)], id);
      InTasksOne(Adapt(ids[n]), id);
      InTasksOne(Finish(ids[n], outcome), id);
      hide InTasks, Adapts, Finishes;
    }
  }

  lemma SucceedConserves(l: Locked, c: Credential, id: Id)
    ensures InLocked(Succeed(l, c), id) == InLocked(l, id)
  {
    InTasksAppend(l.queue, Adapts(l.adaptOperations), id);
    InTasksAppend(l.queue + Adapts(l.adaptOperations), Finishes(l.requestsToRetry, Retry), id);
    ReleasedIds(l.adaptOperations, Retry, id);
    ReleasedIds(l.requestsToRetry, Retry, id);
    hide InTasks, Adapts, Finishes;
  }

  lemma FailConserves(l: Locked, error: Error, id: Id)
    ensures InLocked(Fail(l, error), id) == InLocked(l, id)
  {
    var adapts, retries := Finishes(l.adaptOperations, AdaptFailed(error)),
        Finishes(l.requestsToRetry, DoNotRetryWith(error));
    InTasksAppend(l.queue, adapts, id);
    InTasksAppend(l.queue + adapts, retries, id);
    ReleasedIds(l.adaptOperations, AdaptFailed(error), id);
    ReleasedIds(l.requestsToRetry, DoNotRetryWith(error), id);
    hide InTasks, Finishes;
  }

  lemma RefreshConserves(l: Locked, c: Credential, check: real, record: real, id: Id)
    ensures InLocked(Refresh(l, c, check, record), id) == InLocked(l, id)
  {
    hide Excessive;
    if Excessive(l, check) {
      hide Fail, InLocked;
      FailConserves(l, ExcessiveRefresh, id);
    } else {
      InTasksAppend(l.queue, [StartRefresh(c)], id);
      InTasksOne(StartRefresh(c), id);
      hide InTasks;
    }
  }

  lemma AdaptConserves(l: Locked, x: Id, env: Env, id: Id)
    ensures var (l', next) := AdaptSection(l, x, env.requiresRefresh, env.check, env.record);
            InTasks(next, id) + InLocked(l', id) == InLocked(l, id) + (if x == id then 1 else 0)
  {
    var (_, next) := AdaptSection(l, x, env.requiresRefresh, env.check, env.record);
    assert InTasks([], id) == 0;
    if next != [] { InTasksOne(next[0], id); }
    InIdsSnoc(l.adaptOperations, x, id);
    if l.credential.Some? {
      RefreshConserves(l.(adaptOperations := l.adaptOperations + [x]), l.credential.value, env.check, env.record, id);
    }
    hide Refresh, InTasks;
  }

  lemma RetryConserves(l: Locked, x: Id, c: Credential, env: Env, id: Id)
    ensures InLocked(RetrySection(l, x, c, env.check, env.record), id) == InLocked(l, id) + (if x == id then 1 else 0)
  {
    InIdsSnoc(l.requestsToRetry, x, id);
    RefreshConserves(l.(requestsToRetry := l.requestsToRetry + [x]), c, env.check, env.record, id);
    hide Refresh, InTasks;
  }

  /** No task loses or duplicates a handler. */
  lemma PerformConserves(t: Task, l: Locked, env: Env, id: Id)
    ensures var e := Perform(t, l, env);
            InTasks(e.next, id) + InLocked(e.l, id) + InCalls(e.calls, id) == Holds(t, id) + InLocked(l, id)
  {
    var e := Perform(t, l, env);
    assert InTasks([], id) == 0 && InCalls([], id) == 0;
    if e.next != [] { InTasksOne(e.next[0], id); }
    if e.calls != [] { assert e.calls[..0] == []; }
    if t.Adapt? { AdaptConserves(l, t.id, env, id); }
    if t.RetryLock? { RetryConserves(l, t.id, t.credential, env, id); }
    hide AdaptSection, RetrySection, InLocked, InTasks;
  }

  lemma PerformCalls(t: Task, l: Locked, env: Env, called: seq<(Id, Outcome)>, id: Id)
    ensures InCalls(called + Perform(t, l, env).calls, id)
            == InCalls(called, id) + InCalls(Perform(t, l, env).calls, id)
  {
    hide AdaptSection, RetrySection;
    var calls := Perform(t, l, env).calls;
    if calls == [] {
      assert called + calls == called;
    } else {
      assert (called + calls)[..|called|] == called && calls[..0] == [];
    }
  }

  /** Every step but the end of a credential setter keeps every handler where it is, or moves it. */
  lemma StepPlaces(s: System, a: Action, id: Id)
    requires Enabled(s, a) && !a.FinishSet?
    ensures Places(Step(s, a), id) == Places(s, id) + (if (a.CallAdapt? || a.CallRetry?) && a.id == id then 1 else 0)
  {
    match a {
      case CallAdapt(x) => NewCall(s, Adapt(x), id);
      case CallRetry(x) => NewCall(s, RetryCheck(x), id);
      case BeginSet(c) => hide InTasks, InIds, InCalls;
      case ThreadStep(i, env) => ThreadConserves(s, i, env, id);
      case QueueStep(env) => QueueConserves(s, env, id);
      case RefreshEnds(Refreshed(c)) => SucceedConserves(s.l, c, id); hide InLocked, InTasks;
      case RefreshEnds(RefreshFailed(code)) => FailConserves(s.l, RefreshError(code), id); hide InLocked, InTasks;
    }
  }

  lemma StepConserves(s: System, a: Action)
    requires Conserved(s) && Enabled(s, a) && !a.FinishSet?
    ensures Conserved(Step(s, a))
  {
    forall id ensures Places(Step(s, a), id) == if id in Step(s, a).started then 1 else 0 {
      StepPlaces(s, a, id);
      StepStarted(s, a);
      assert Places(s, id) == if id in s.started then 1 else 0;
      hide Places, Step, Enabled;
    }
  }

  lemma StepStarted(s: System, a: Action)
    requires Enabled(s, a)
    ensures Step(s, a).started == if a.CallAdapt? || a.CallRetry? then s.started + [a.id] else s.started
    ensures a.CallAdapt? || a.CallRetry? ==> a.id !in s.started
  {
    hide Perform, Succeed, Fail;
  }

  lemma NewCall(s: System, t: Task, id: Id)
    requires !t.StartRefresh? && t.id !in s.started
    ensures Places(s.(threads := s.threads + [t], started := s.started + [t.id]), id)
            == Places(s, id) + (if t.id == id then 1 else 0)
  {
    InTasksAppend(s.threads, [t], id);
    InTasksOne(t, id);
    hide InTasks, InLocked, InCalls;
  }

  lemma ThreadConserves(s: System, i: nat, env: Env, id: Id)
    requires Enabled(s, ThreadStep(i, env))
    ensures Places(Step(s, ThreadStep(i, env)), id) == Places(s, id)
  {
    var e := Perform(s.threads[i], s.l, env);
    PerformConserves(s.threads[i], s.l, env, id);
    PerformCalls(s.threads[i], s.l, env, s.called, id);
    SplitTasks(s.threads, i, e.next, id);
    hide InTasks, Holds, InLocked, InCalls, Perform;
  }

  lemma SplitTasks(ts: seq<Task>, i: nat, next: seq<Task>, id: Id)
    requires i < |ts|
    ensures InTasks(ts, id) == InTasks(ts[..i], id) + Holds(ts[i], id) + InTasks(ts[i + 1..], id)
    ensures InTasks(ts[..i] + next + ts[i + 1..], id)
            == InTasks(ts[..i], id) + InTasks(next, id) + InTasks(ts[i + 1..], id)
  {
    assert ts == ts[..i] + [ts[i]] + ts[i + 1..];
    InTasksOne(ts[i], id);
    hide InTasks, Holds;
    InTasksAppend(ts[..i], [ts[i]], id);
    InTasksAppend(ts[..i] + [ts[i]], ts[i + 1..], id);
    InTasksAppend(ts[..i], next, id);
    InTasksAppend(ts[..i] + next, ts[i + 1..], id);
  }

  lemma QueueConserves(s: System, env: Env, id: Id)
    requires Enabled(s, QueueStep(env))
    ensures Places(Step(s, QueueStep(env)), id) == Places(s, id)
  {
    var rest := s.l.(queue := s.l.queue[1..]);
    var e := Perform(s.l.queue[0], rest, env);
    PerformConserves(s.l.queue[0], rest, env, id);
    PerformCalls(s.l.queue[0], rest, env, s.called, id);
    assert InTasks(s.l.queue, id) == Holds(s.l.queue[0], id) + InTasks(rest.queue, id);
    InTasksAppend(e.next, e.l.queue, id);
    hide InTasks, Holds, InIds, InCalls, Perform;
  }

  // ---------- One refresh at a time ----------

  function Starts(ts: seq<Task>): nat {
    if ts == [] then 0 else (if ts[0].StartRefresh? then 1 else 0) + Starts(ts[1..])
  }

  /**
   The refresh in flight, dispatched or already called, is the one that isRefreshing stands
   for, and nothing is parked without it.
   */
  predicate OneRefresh(s: System) {
    && Starts(s.threads) == 0
    && Starts(s.l.queue) + s.outstanding == (if s.l.isRefreshing then 1 else 0)
    && (!s.l.isRefreshing ==> s.l.adaptOperations == [] && s.l.requestsToRetry == [])
  }

  lemma {:induction false} StartsAppend(a: seq<Task>, b: seq<Task>)
    ensures Starts(a + b) == Starts(a) + Starts(b)
  {
    if a == [] {
      assert a + b == b;
    } else {
      assert (a + b)[1..] == a[1..] + b;
      StartsAppend(a[1..], b);
    }
  }

  lemma {:induction false} NoStarts(ts: seq<Task>)
    requires forall t :: t in ts ==> !t.StartRefresh?
    ensures Starts(ts) == 0
  {
    if ts != [] { NoStarts(ts[1..]); }
  }

  lemma ReleaseStarts(l: Locked, c: Credential, error: Error)
    ensures Starts(Succeed(l, c).queue) == Starts(l.queue)
    ensures Starts(Fail(l, error).queue) == Starts(l.queue)
  {
    var x, y := Adapts(l.adaptOperations), Finishes(l.requestsToRetry, Retry);
    NoStarts(x);
    NoStarts(y);
    StartsAppend(l.queue, x);
    StartsAppend(l.queue + x, y);
    var u, v := Finishes(l.adaptOperations, AdaptFailed(error)), Finishes(l.requestsToRetry, DoNotRetryWith(error));
    NoStarts(u);
    NoStarts(v);
    StartsAppend(l.queue, u);
    StartsAppend(l.queue + u, v);
    hide Starts;
  }

  /** The part of OneRefresh that a lock section sees; `flying` counts the starts outside this state. */
  predicate OneRefreshLocked(l: Locked, flying: nat) {
    && Starts(l.queue) + flying == (if l.isRefreshing then 1 else 0)
    && (!l.isRefreshing ==> l.adaptOperations == [] && l.requestsToRetry == [])
  }

  /** Called with no refresh in flight: either nothing stays parked, or exactly one refresh is dispatched. */
  lemma RefreshOnce(l: Locked, c: Credential, check: real, record: real, flying: nat)
    requires !l.isRefreshing && Starts(l.queue) + flying == 0
    ensures OneRefreshLocked(Refresh(l, c, check, record), flying)
  {
    hide Excessive;
    if Excessive(l, check) {
      ReleaseStarts(l, c, ExcessiveRefresh);
      hide Starts, Finishes;
    } else {
      StartsAppend(l.queue, [StartRefresh(c)]);
      assert Starts([StartRefresh(c)]) == 1 + Starts([]);
      hide Starts;
    }
  }

  lemma PerformOnce(t: Task, l: Locked, env: Env, flying: nat)
    requires OneRefreshLocked(l, flying + if t.StartRefresh? then 1 else 0)
    ensures OneRefreshLocked(Perform(t, l, env).l, flying + Perform(t, l, env).refreshes)
    ensures Starts(Perform(t, l, env).next) == 0
  {
    hide Refresh;
    match t {
      case Adapt(id) =>
        if !l.isRefreshing && l.credential.Some? {
          RefreshOnce(l.(adaptOperations := l.adaptOperations + [id]), l.credential.value, env.check, env.record,
              flying);
        }
      case RetryLock(id, c) =>
        if !l.isRefreshing {
          RefreshOnce(l.(requestsToRetry := l.requestsToRetry + [id]), c, env.check, env.record, flying);
        }
      case RetryCheck(id) =>
      case Finish(id, outcome) =>
      case StartRefresh(_) =>
    }
  }

  lemma StepOneRefresh(s: System, a: Action)
    requires OneRefresh(s) && Enabled(s, a) && !a.FinishSet?
    ensures OneRefresh(Step(s, a))
  {
    hide Perform, Succeed, Fail;
    match a {
      case CallAdapt(id) => StartsAppend(s.threads, [Adapt(id)]);
      case CallRetry(id) => StartsAppend(s.threads, [RetryCheck(id)]);
      case BeginSet(c) =>
      case ThreadStep(i, env) => ThreadOneRefresh(s, i, env);
      case QueueStep(env) =>
        var rest := s.l.(queue := s.l.queue[1..]);
        PerformOnce(s.l.queue[0], rest, env, s.outstanding);
        var e := Perform(s.l.queue[0], rest, env);
        StartsAppend(e.next, e.l.queue);
      case RefreshEnds(result) =>
        var (c, code) := match result case Refreshed(c) => (c, 0) case RefreshFailed(code) => (0, code);
        ReleaseStarts(s.l, c, RefreshError(code));
        Released(s.l, c, RefreshError(code));
        hide Starts;
    }
  }

  lemma Released(l: Locked, c: Credential, error: Error)
    ensures var r := Succeed(l, c); !r.isRefreshing && r.adaptOperations == [] && r.requestsToRetry == []
    ensures var r := Fail(l, error); !r.isRefreshing && r.adaptOperations == [] && r.requestsToRetry == []
  {
  }

  lemma ThreadOneRefresh(s: System, i: nat, env: Env)
    requires OneRefresh(s) && Enabled(s, ThreadStep(i, env))
    ensures OneRefresh(Step(s, ThreadStep(i, env)))
  {
    hide Perform;
    var t := s.threads[i];
    var e := Perform(t, s.l, env);
    var left, right := s.threads[..i], s.threads[i + 1..];
    assert s.threads == left + ([t] + right);
    StartsAppend(left, [t] + right);
    StartsAppend([t], right);
    assert Starts([t]) == (if t.StartRefresh? then 1 else 0) + Starts([]);
    PerformOnce(t, s.l, env, s.outstanding);
    StartsAppend(left, e.next);
    StartsAppend(left + e.next, right);
    hide Starts;
  }

  // ---------- The sliding window ----------

  /** Refreshes started within the closed interval of this length. */
  function StartsWithin(timestamps: seq<real>, from: real, length: real): nat {
    if timestamps == [] then 0
    else StartsWithin(timestamps[..|timestamps| - 1], from, length)
         + (if from <= timestamps[|timestamps| - 1] <= from + length then 1 else 0)
  }

  function Allowed(w: Window): nat {
    if w.maximumAttempts < 0 then 0 else w.maximumAttempts
  }

  /** Wherever the window is placed, it covers at most the allowed number of refresh starts. */
  ghost predicate WithinLimit(l: Locked) {
    l.refreshWindow.Some? ==> AtMost(l.refreshTimestamps, l.refreshWindow.value)
  }

  ghost predicate AtMost(timestamps: seq<real>, w: Window) {
    forall from: real :: StartsWithin(timestamps, from, w.interval) <= Allowed(w)
  }

  lemma {:induction false} AttemptsCoverWindow(timestamps: seq<real>, since: real, from: real, length: real)
    requires since <= from
    ensures StartsWithin(timestamps, from, length) <= AttemptsSince(timestamps, since)
  {
    if timestamps != [] { AttemptsCoverWindow(timestamps[..|timestamps| - 1], since, from, length); }
  }

  /**
   Counting the attempts since the beginning of the interval is counting those within it, when none
   lies in the future.
   */
  lemma {:induction false} AttemptsWithin(timestamps: seq<real>, now: real, length: real)
    requires forall t :: t in timestamps ==> t <= now
    ensures AttemptsSince(timestamps, now - length) == StartsWithin(timestamps, now - length, length)
  {
    if timestamps != [] {
      var n := |timestamps| - 1;
      assert timestamps[n] in timestamps && forall t :: t in timestamps[..n] ==> t in timestamps;
      AttemptsWithin(timestamps[..n], now, length);
      assert now - length + length == now;
    }
  }

  /**
   A refresh is excessive exactly when the closed interval that ends now holds the allowed number of
   starts already.
   */
  lemma ExcessiveExactly(l: Locked, now: real)
    requires forall t :: t in l.refreshTimestamps ==> t <= now
    ensures Excessive(l, now) <==>
              l.refreshWindow.Some? &&
              var w := l.refreshWindow.value;
              StartsWithin(l.refreshTimestamps, now - w.interval, w.interval) >= w.maximumAttempts
  {
    hide AttemptsSince, StartsWithin;
    if l.refreshWindow.Some? { AttemptsWithin(l.refreshTimestamps, now, l.refreshWindow.value.interval); }
  }

  lemma StartsSnoc(timestamps: seq<real>, t: real, from: real, length: real)
    ensures StartsWithin(timestamps + [t], from, length)
         == StartsWithin(timestamps, from, length) + (if from <= t <= from + length then 1 else 0)
  {
    assert (timestamps + [t])[..|timestamps|] == timestamps;
  }

  /** The check may be older than the record: the limit still holds for the recorded time. */
  lemma RecordWithinLimit(timestamps: seq<real>, w: Window, check: real, record: real)
    requires AtMost(timestamps, w) && check <= record
    requires AttemptsSince(timestamps, check - w.interval) < w.maximumAttempts
    ensures AtMost(timestamps + [record], w)
  {
    forall from: real ensures StartsWithin(timestamps + [record], from, w.interval) <= Allowed(w) {
      assert StartsWithin(timestamps, from, w.interval) <= Allowed(w);
      StartsSnoc(timestamps, record, from, w.interval);
      if from <= record <= from + w.interval {
        AttemptsCoverWindow(timestamps, check - w.interval, from, w.interval);
      }
      hide StartsWithin, AttemptsSince;
    }
  }

  lemma RefreshWithinLimit(l: Locked, c: Credential, check: real, record: real)
    requires WithinLimit(l) && check <= record
    ensures WithinLimit(Refresh(l, c, check, record))
  {
    hide AtMost, AttemptsSince, Adapts, Finishes;
    if l.refreshWindow.Some? && !Excessive(l, check) {
      RecordWithinLimit(l.refreshTimestamps, l.refreshWindow.value, check, record);
    }
  }

  lemma PerformWithinLimit(t: Task, l: Locked, env: Env)
    requires WithinLimit(l) && env.check <= env.record
    ensures WithinLimit(Perform(t, l, env).l)
  {
    hide Refresh, AtMost;
    if t.Adapt? && l.credential.Some? {
      RefreshWithinLimit(l.(adaptOperations := l.adaptOperations + [t.id]), l.credential.value, env.check, env.record);
    } else if t.RetryLock? {
      RefreshWithinLimit(l.(requestsToRetry := l.requestsToRetry + [t.id]), t.credential, env.check, env.record);
    }
  }

  lemma StepWithinLimit(s: System, a: Action)
    requires WithinLimit(s.l) && Enabled(s, a) && !a.FinishSet?
    ensures WithinLimit(Step(s, a).l)
  {
    hide Perform, AtMost, Adapts, Finishes;
    if a.ThreadStep? { PerformWithinLimit(s.threads[a.i], s.l, a.env); }
    if a.QueueStep? { PerformWithinLimit(s.l.queue[0], s.l.(queue := s.l.queue[1..]), a.env); }
  }

  /** The recorded times are all the times that refreshes were started, and no copy of the struct has another window. */
  ghost predicate Logged(s: System) {
    && s.refreshes == s.l.refreshTimestamps
    && forall j :: 0 <= j < |s.setters| ==> s.setters[j].snapshot.refreshWindow == s.l.refreshWindow
  }

  lemma PerformLogs(t: Task, l: Locked, env: Env)
    ensures var l' := Perform(t, l, env).l;
            l.refreshTimestamps + Recorded(l, l') == l'.refreshTimestamps && l'.refreshWindow == l.refreshWindow
  {
    hide Excessive, Adapts, Finishes;
  }

  lemma StepLogged(s: System, a: Action)
    requires Logged(s) && Enabled(s, a) && !a.FinishSet?
    ensures Logged(Step(s, a)) && Step(s, a).l.refreshWindow == s.l.refreshWindow
  {
    if a.ThreadStep? { PerformLogs(s.threads[a.i], s.l, a.env); }
    if a.QueueStep? { PerformLogs(s.l.queue[0], s.l.(queue := s.l.queue[1..]), a.env); }
    hide Perform, Recorded, Adapts, Finishes;
  }

  // ---------- The credential setter ----------

  predicate SameParked(l: Locked, snapshot: Locked, id: Id) {
    InIds(snapshot.adaptOperations, id) + InIds(snapshot.requestsToRetry, id)
    == InIds(l.adaptOperations, id) + InIds(l.requestsToRetry, id)
  }

  /**
   The copy still shows the refresh in flight, the recorded times and the parked handlers of the state
   it is to replace.
   */
  ghost predicate Current(l: Locked, snapshot: Locked) {
    && snapshot.isRefreshing == l.isRefreshing && snapshot.refreshTimestamps == l.refreshTimestamps
    && forall id :: SameParked(l, snapshot, id)
  }

  /**
   Writing a copy back keeps every handler in one place exactly when the copy has the parked handlers
   of the state.
   */
  lemma WriteBackConserves(s: System, j: nat)
    requires Conserved(s) && j < |s.setters|
    ensures Conserved(Step(s, FinishSet(j))) <==> forall id :: SameParked(s.l, s.setters[j].snapshot, id)
  {
    var s' := Step(s, FinishSet(j));
    forall id ensures (Places(s', id) == if id in s'.started then 1 else 0)
        <==> SameParked(s.l, s.setters[j].snapshot, id) {
      assert Places(s, id) == if id in s.started then 1 else 0;
      hide InTasks, InIds, InCalls;
    }
    hide Places, SameParked, Step;
  }

  lemma NoHandlersNoIds(ids: seq<Id>)
    requires forall id :: InIds(ids, id) == 0
    ensures ids == []
  {
    if ids != [] { assert InIds(ids, ids[|ids| - 1]) > 0; }
  }

  /** Nothing parked in the state, nothing parked in a copy with the same handlers. */
  lemma NothingParked(l: Locked, snapshot: Locked)
    requires l.adaptOperations == [] && l.requestsToRetry == [] && forall id :: SameParked(l, snapshot, id)
    ensures snapshot.adaptOperations == [] && snapshot.requestsToRetry == []
  {
    forall id ensures InIds(snapshot.adaptOperations, id) == 0 && InIds(snapshot.requestsToRetry, id) == 0 {
      assert SameParked(l, snapshot, id) && InIds([], id) == 0;
    }
    hide InIds;
    NoHandlersNoIds(snapshot.adaptOperations);
    NoHandlersNoIds(snapshot.requestsToRetry);
  }

  /** The end of a credential setter keeps the invariant exactly when its copy is current. */
  lemma WriteBackKeepsInvariant(s: System, j: nat)
    requires Invariant(s) && j < |s.setters|
    ensures Invariant(Step(s, FinishSet(j))) <==> Current(s.l, s.setters[j].snapshot)
    ensures Step(s, FinishSet(j)).l.refreshWindow == s.l.refreshWindow
  {
    var snapshot := s.setters[j].snapshot;
    WriteBackConserves(s, j);
    if !s.l.isRefreshing && forall id :: SameParked(s.l, snapshot, id) { NothingParked(s.l, snapshot); }
    hide Conserved, AtMost, Starts, SameParked;
  }

  // ---------- Every reachable state ----------

  ghost predicate Invariant(s: System) {
    Conserved(s) && OneRefresh(s) && WithinLimit(s.l) && Logged(s)
  }

  lemma InitialInvariant(s: System)
    requires Initial(s)
    ensures Invariant(s)
  {
  }

  lemma StepInvariant(s: System, a: Action)
    requires Invariant(s) && Enabled(s, a)
    requires a.FinishSet? ==> Current(s.l, s.setters[a.j].snapshot)
    ensures Invariant(Step(s, a)) && Step(s, a).l.refreshWindow == s.l.refreshWindow
  {
    hide Conserved, OneRefresh, WithinLimit, Logged, Current, Step;
    if a.FinishSet? {
      WriteBackKeepsInvariant(s, a.j);
    } else {
      StepConserves(s, a);
      StepOneRefresh(s, a);
      StepWithinLimit(s, a);
      StepLogged(s, a);
    }
  }

  /** Whenever a credential setter writes its copy back, the copy is current. */
  ghost predicate Orderly(s: System, actions: seq<Action>)
    decreases |actions|
  {
    actions != [] && Enabled(s, actions[0]) ==>
      && (actions[0].FinishSet? ==> Current(s.l, s.setters[actions[0].j].snapshot))
      && Orderly(Step(s, actions[0]), actions[1..])
  }

  /** The invariant holds in every state that the run passes through. */
  ghost predicate Throughout(s: System, actions: seq<Action>)
    decreases |actions|
  {
    Invariant(s) && (actions != [] && Enabled(s, actions[0]) ==> Throughout(Step(s, actions[0]), actions[1..]))
  }

  /** A run keeps the invariant throughout exactly when it is orderly. */
  lemma {:induction false} ThroughoutWhenOrderly(s: System, actions: seq<Action>, s': System)
    requires Invariant(s) && Run(s, actions, s')
    ensures Throughout(s, actions) <==> Orderly(s, actions)
    ensures Orderly(s, actions) ==> Invariant(s') && s'.l.refreshWindow == s.l.refreshWindow
    decreases |actions|
  {
    hide Invariant, Step, Enabled, Current;
    if actions != [] {
      var a := actions[0];
      if a.FinishSet? {
        EnabledSet(s, a);
        WriteBackKeepsInvariant(s, a.j);
      } else {
        StepInvariant(s, a);
      }
      if Invariant(Step(s, a)) { ThroughoutWhenOrderly(Step(s, a), actions[1..], s'); }
    }
  }

  lemma EnabledSet(s: System, a: Action)
    requires Enabled(s, a) && a.FinishSet?
    ensures a.j < |s.setters|
  {
  }

  // ---------- When runs are orderly ----------

  predicate IsSection(t: Task) {
    t.Adapt? || t.RetryLock?
  }

  /** The action runs a lock section of adapt, of retry, or of a refresh completion. */
  predicate TakesLock(s: System, a: Action)
    requires Enabled(s, a)
  {
    match a
    case ThreadStep(i, _) => IsSection(s.threads[i])
    case QueueStep(_) => IsSection(s.l.queue[0])
    case RefreshEnds(_) => true
    case _ => false
  }

  /** None of those sections comes between the two lock sections of a credential setter. */
  predicate Exclusive(s: System, actions: seq<Action>)
    decreases |actions|
  {
    actions != [] && Enabled(s, actions[0]) ==>
      (s.setters != [] ==> !TakesLock(s, actions[0])) && Exclusive(Step(s, actions[0]), actions[1..])
  }

  ghost predicate AllCurrent(s: System) {
    forall j :: 0 <= j < |s.setters| ==> Current(s.l, s.setters[j].snapshot)
  }

  /** Being current is about what the copy and the state hold besides credential and queue. */
  lemma CurrentAfter(l: Locked, l': Locked, snapshot: Locked, like: Locked)
    requires Current(l, snapshot) && Current(l, like)
    requires l'.isRefreshing == like.isRefreshing && l'.refreshTimestamps == like.refreshTimestamps
    requires l'.adaptOperations == like.adaptOperations && l'.requestsToRetry == like.requestsToRetry
    ensures Current(l', snapshot)
  {
    hide InIds;
    forall id ensures SameParked(l', snapshot, id) { assert SameParked(l, snapshot, id) && SameParked(l, like, id); }
  }

  lemma OtherTasksKeep(t: Task, l: Locked, env: Env)
    requires !IsSection(t)
    ensures Perform(t, l, env).l == l
  {
  }

  lemma StepAllCurrent(s: System, a: Action)
    requires Enabled(s, a) && AllCurrent(s) && (s.setters != [] ==> !TakesLock(s, a))
    ensures AllCurrent(Step(s, a))
  {
    var s' := Step(s, a);
    if a.ThreadStep? && s.setters != [] { OtherTasksKeep(s.threads[a.i], s.l, a.env); }
    if a.QueueStep? && s.setters != [] { OtherTasksKeep(s.l.queue[0], s.l.(queue := s.l.queue[1..]), a.env); }
    hide Perform, Succeed, Fail, InIds;
    forall k | 0 <= k < |s'.setters| ensures Current(s'.l, s'.setters[k].snapshot) {
      if a.BeginSet? && k == |s.setters| {
        assert s'.setters[k].snapshot == s'.l;
      } else {
        var i := if a.FinishSet? && k >= a.j then k + 1 else k;
        assert s'.setters[k] == s.setters[i];
        assert Current(s.l, s.l);
        CurrentAfter(s.l, s'.l, s.setters[i].snapshot, if a.FinishSet? then s.setters[a.j].snapshot else s.l);
      }
    }
  }

  /** Overlapping setters do no harm to each other; only other lock sections in between do. */
  lemma {:induction false} ExclusiveIsOrderly(s: System, actions: seq<Action>, s': System)
    requires Run(s, actions, s') && AllCurrent(s) && Exclusive(s, actions)
    ensures Orderly(s, actions)
    decreases |actions|
  {
    hide Step, Current, TakesLock;
    if actions != [] {
      StepAllCurrent(s, actions[0]);
      ExclusiveIsOrderly(Step(s, actions[0]), actions[1..], s');
    }
  }

  /** Nothing is left to do, and no refresh is awaited. */
  predicate Quiescent(s: System) {
    s.threads == [] && s.l.queue == [] && s.outstanding == 0
  }

  /** When everything has come to rest, every handler has been called, and exactly once. */
  lemma AllCalledAtRest(s: System, id: Id)
    requires Invariant(s) && Quiescent(s)
    ensures InCalls(s.called, id) == if id in s.started then 1 else 0
  {
    assert Places(s, id) == if id in s.started then 1 else 0;
    assert Starts([]) == 0 && InTasks([], id) == 0 && InIds([], id) == 0;
  }

  /** What a state promises to the callers of adapt and retry, and to the server. */
  ghost predicate Promises(s: System, w: Option<Window>) {
    && Conserved(s) && OneRefresh(s) && (w.Some? ==> AtMost(s.refreshes, w.value))
    && (Quiescent(s) ==> forall id :: InCalls(s.called, id) == if id in s.started then 1 else 0)
  }

  /**
   From creation on, in every interleaving in which no credential setter writes back a copy
   that is out of date: each handler is in exactly one place, at most one refresh is in
   flight, requests are parked only while it is, and no window covers too many refresh
   starts. Once nothing remains to be done every handler has been called exactly once. The
   invariant behind this fails as soon as a copy is out of date, and it never is when no
   other lock section comes between the two of a setter.
   */
  lemma EveryRun(s: System, actions: seq<Action>, s': System)
    requires Initial(s) && Run(s, actions, s')
    ensures Throughout(s, actions) <==> Orderly(s, actions)
    ensures Exclusive(s, actions) ==> Orderly(s, actions)
    ensures Orderly(s, actions) ==> Promises(s', s.l.refreshWindow)
  {
    InitialInvariant(s);
    ThroughoutWhenOrderly(s, actions, s');
    if Exclusive(s, actions) { ExclusiveIsOrderly(s, actions, s'); }
    if Orderly(s, actions) && Quiescent(s') {
      forall id ensures InCalls(s'.called, id) == if id in s'.started then 1 else 0 { AllCalledAtRest(s', id); }
    }
    hide Conserved, OneRefresh, AtMost, InCalls, Run, Throughout, Orderly, Exclusive;
  }

  // ---------- What the window refuses ----------

  /** No refresh start lies in the future. */
  ghost predicate Past(s: System) {
    forall t :: t in s.refreshes ==> t <= s.clock
  }

  lemma PerformRecords(t: Task, l: Locked, env: Env)
    ensures forall r :: r in Recorded(l, Perform(t, l, env).l) ==> r == env.record
  {
    hide Excessive, Adapts, Finishes;
  }

  lemma StepPast(s: System, a: Action)
    requires Past(s) && Enabled(s, a)
    ensures Past(Step(s, a))
  {
    if a.ThreadStep? { PerformRecords(s.threads[a.i], s.l, a.env); }
    if a.QueueStep? { PerformRecords(s.l.queue[0], s.l.(queue := s.l.queue[1..]), a.env); }
    hide Perform, Recorded, Adapts, Finishes;
  }

  lemma {:induction false} RunPast(s: System, actions: seq<Action>, s': System)
    requires Past(s) && Run(s, actions, s')
    ensures Past(s')
    decreases |actions|
  {
    hide Past, Step, Enabled;
    if actions != [] {
      StepPast(s, actions[0]);
      RunPast(Step(s, actions[0]), actions[1..], s');
    }
  }

  lemma {:induction false} QuietInterval(timestamps: seq<real>, from: real, length: real)
    requires forall t :: t in timestamps ==> t < from
    ensures StartsWithin(timestamps, from, length) == 0
  {
    if timestamps != [] {
      var n := |timestamps| - 1;
      assert timestamps[n] in timestamps && forall t :: t in timestamps[..n] ==> t in timestamps;
      QuietInterval(timestamps[..n], from, length);
    }
  }

  /**
   After every orderly run a refresh asked for now is refused exactly when the window that ends
   now holds the allowed number of starts. So with a positive maximum it is never refused once
   a whole interval has passed without one.
   */
  lemma RefusedExactly(s: System, actions: seq<Action>, s': System, now: real)
    requires Initial(s) && Run(s, actions, s') && Orderly(s, actions) && now >= s'.clock
    ensures Excessive(s'.l, now) <==>
              s.l.refreshWindow.Some? &&
              var w := s.l.refreshWindow.value;
              StartsWithin(s'.refreshes, now - w.interval, w.interval) >= w.maximumAttempts
    ensures s.l.refreshWindow.Some? && s.l.refreshWindow.value.maximumAttempts > 0
            && (forall t :: t in s'.refreshes ==> t < now - s.l.refreshWindow.value.interval) ==>
              !Excessive(s'.l, now)
  {
    InitialInvariant(s);
    ThroughoutWhenOrderly(s, actions, s');
    RunPast(s, actions, s');
    ExcessiveExactly(s'.l, now);
    if s.l.refreshWindow.Some? && forall t :: t in s'.refreshes ==> t < now - s.l.refreshWindow.value.interval {
      QuietInterval(s'.refreshes, now - s.l.refreshWindow.value.interval, s.l.refreshWindow.value.interval);
    }
    hide Excessive, StartsWithin, Conserved, OneRefresh, WithinLimit, Run, Orderly, Throughout;
  }

  // ---------- Progress while time stays inside one window ----------

  /** Refreshes that may still start in this window, plus the one in flight. */
  function Budget(l: Locked, from: real): int
    requires l.refreshWindow.Some?
  {
    Allowed(l.refreshWindow.value) - StartsWithin(l.refreshTimestamps, from, l.refreshWindow.value.interval)
    + (if l.isRefreshing then 1 else 0)
  }

  /** How many steps a task leads to before its handler is called or parked. */
  function Weight(t: Task): nat {
    match t
    case Adapt(_) => 2
    case RetryCheck(_) => 3
    case RetryLock(_, _) => 2
    case Finish(_, _) => 1
    case StartRefresh(_) => 1
  }

  function Work(ts: seq<Task>): nat {
    if ts == [] then 0 else Weight(ts[0]) + Work(ts[1..])
  }

  predicate InWindow(l: Locked, from: real, t: real) {
    l.refreshWindow.Some? && from <= t <= from + l.refreshWindow.value.interval
  }

  /**
   A step that finishes something begun, while the clock shows a time in the window; copies written
   back are current.
   */
  ghost predicate Internal(s: System, a: Action, from: real) {
    match a
    case ThreadStep(_, env) => InWindow(s.l, from, env.check) && InWindow(s.l, from, env.record)
    case QueueStep(env) => InWindow(s.l, from, env.check) && InWindow(s.l, from, env.record)
    case RefreshEnds(_) => s.l.refreshWindow.Some?
    case FinishSet(j) => s.l.refreshWindow.Some? && j < |s.setters| && Current(s.l, s.setters[j].snapshot)
    case _ => false
  }

  lemma {:induction false} WorkAppend(a: seq<Task>, b: seq<Task>)
    ensures Work(a + b) == Work(a) + Work(b)
  {
    hide Weight;
    if a == [] {
      assert a + b == b;
    } else {
      assert (a + b)[1..] == a[1..] + b;
      WorkAppend(a[1..], b);
    }
  }

  lemma WorkOne(t: Task)
    ensures Work([t]) == Weight(t)
  {
    assert [t][1..] == [];
  }

  /**
   A refresh asked for by the handler just parked, with no refresh in flight: the budget stays, the
   work is at most one task.
   */
  lemma RefreshWork(l: Locked, c: Credential, check: real, record: real, from: real, id: Id)
    requires !l.isRefreshing && InWindow(l, from, record)
    requires (l.adaptOperations == [id] && l.requestsToRetry == [])
            || (l.adaptOperations == [] && l.requestsToRetry == [id])
    ensures var l' := Refresh(l, c, check, record);
            l'.refreshWindow == l.refreshWindow && Budget(l', from) == Budget(l, from)
                && Work(l'.queue) == Work(l.queue) + 1
  {
    hide Excessive;
    if Excessive(l, check) {
      var x := if l.requestsToRetry == [] then Finish(id, AdaptFailed(ExcessiveRefresh))
          else Finish(id, DoNotRetryWith(ExcessiveRefresh));
      assert Fail(l, ExcessiveRefresh).queue == l.queue + [x];
      WorkAppend(l.queue, [x]);
      WorkOne(x);
      hide Work;
    } else {
      WorkAppend(l.queue, [StartRefresh(c)]);
      WorkOne(StartRefresh(c));
      StartsSnoc(l.refreshTimestamps, record, from, l.refreshWindow.value.interval);
      hide Work, StartsWithin;
    }
  }

  /** Performing a task never raises the budget and leaves less work. */
  lemma PerformWork(t: Task, l: Locked, env: Env, from: real, flying: nat)
    requires OneRefreshLocked(l, flying) && InWindow(l, from, env.record)
    ensures var e := Perform(t, l, env);
            e.l.refreshWindow == l.refreshWindow && Budget(e.l, from) == Budget(l, from)
            && Work(e.next) + Work(e.l.queue) < Weight(t) + Work(l.queue)
  {
    var e := Perform(t, l, env);
    assert Work([]) == 0;
    if e.next != [] { WorkOne(e.next[0]); }
    if !l.isRefreshing {
      if t.Adapt? && l.credential.Some? {
        RefreshWork(l.(adaptOperations := l.adaptOperations + [t.id]), l.credential.value, env.check, env.record,
            from, t.id);
      } else if t.RetryLock? {
        RefreshWork(l.(requestsToRetry := l.requestsToRetry + [t.id]), t.credential, env.check, env.record, from, t.id);
      }
    }
    hide Refresh, Work, StartsWithin;
  }

  lemma SplitWork(ts: seq<Task>, i: nat, next: seq<Task>)
    requires i < |ts|
    ensures Work(ts) == Work(ts[..i]) + Weight(ts[i]) + Work(ts[i + 1..])
    ensures Work(ts[..i] + next + ts[i + 1..]) == Work(ts[..i]) + Work(next) + Work(ts[i + 1..])
  {
    assert ts == ts[..i] + [ts[i]] + ts[i + 1..];
    WorkOne(ts[i]);
    hide Work, Weight;
    WorkAppend(ts[..i], [ts[i]]);
    WorkAppend(ts[..i] + [ts[i]], ts[i + 1..]);
    WorkAppend(ts[..i], next);
    WorkAppend(ts[..i] + next, ts[i + 1..]);
  }

  function TotalWork(s: System): nat {
    Work(s.threads) + Work(s.l.queue)
  }

  /**
   Every internal step uses up budget, work or pending setters: the end of a refresh lowers
   the budget, all other steps keep it and lower the work or, keeping that too, the number of
   setters. So re-adapting after a success cannot go on for ever.
   */
  lemma InternalStepProgress(s: System, a: Action, from: real)
    requires Invariant(s) && Enabled(s, a) && Internal(s, a, from)
    ensures Step(s, a).l.refreshWindow == s.l.refreshWindow && Budget(Step(s, a).l, from) >= 0
    ensures Budget(Step(s, a).l, from) == Budget(s.l, from) - if a.RefreshEnds? then 1 else 0
    ensures a.ThreadStep? || a.QueueStep? ==> TotalWork(Step(s, a)) < TotalWork(s)
    ensures a.FinishSet? ==> TotalWork(Step(s, a)) == TotalWork(s) && |Step(s, a).setters| < |s.setters|
  {
    StepInvariant(s, a);
    BudgetNonNegative(Step(s, a), from);
    if a.ThreadStep? {
      ThreadWork(s, a.i, a.env, from);
    } else if a.QueueStep? {
      QueueWork(s, a.env, from);
    } else {
      hide Starts, StartsWithin, Work, Adapts, Finishes, Conserved, WithinLimit, SameParked;
    }
  }

  lemma BudgetNonNegative(s: System, from: real)
    requires Invariant(s) && s.l.refreshWindow.Some?
    ensures Budget(s.l, from) >= 0
  {
    hide Conserved, OneRefresh, Logged, StartsWithin;
  }

  lemma ThreadWork(s: System, i: nat, env: Env, from: real)
    requires Invariant(s) && Enabled(s, ThreadStep(i, env)) && Internal(s, ThreadStep(i, env), from)
    ensures var s' := Step(s, ThreadStep(i, env));
            s'.l.refreshWindow == s.l.refreshWindow && Budget(s'.l, from) == Budget(s.l, from)
                && TotalWork(s') < TotalWork(s)
  {
    assert OneRefreshLocked(s.l, s.outstanding);
    PerformWork(s.threads[i], s.l, env, from, s.outstanding);
    SplitWork(s.threads, i, Perform(s.threads[i], s.l, env).next);
    hide Invariant, OneRefreshLocked, Perform, Work, Budget;
  }

  lemma QueueWork(s: System, env: Env, from: real)
    requires Invariant(s) && Enabled(s, QueueStep(env)) && Internal(s, QueueStep(env), from)
    ensures var s' := Step(s, QueueStep(env));
            s'.l.refreshWindow == s.l.refreshWindow && Budget(s'.l, from) == Budget(s.l, from)
                && TotalWork(s') < TotalWork(s)
  {
    var t, rest := s.l.queue[0], s.l.(queue := s.l.queue[1..]);
    assert OneRefreshLocked(rest, s.outstanding + if t.StartRefresh? then 1 else 0);
    PerformWork(t, rest, env, from, s.outstanding + if t.StartRefresh? then 1 else 0);
    var e := Perform(t, rest, env);
    WorkAppend(e.next, e.l.queue);
    assert Work(s.l.queue) == Weight(t) + Work(rest.queue);
    hide Invariant, OneRefreshLocked, Perform, Work, StartsWithin, Weight;
  }

  /** Until everything has come to rest some internal step can be taken. */
  lemma NeverStuck(s: System, from: real) returns (a: Action)
    requires !Quiescent(s) && InWindow(s.l, from, s.clock)
    ensures Enabled(s, a) && Internal(s, a, from)
  {
    var env := Env(false, false, false, s.clock, s.clock);
    a := if s.threads != [] then ThreadStep(0, env) else if s.l.queue != [] then QueueStep(env)
        else RefreshEnds(RefreshFailed(0));
  }

  /** Any choice of internal steps, with any answers from outside, as long as the clock stays in the window. */
  ghost predicate Schedules(choose: System -> Action, from: real) {
    forall s :: Invariant(s) && !Quiescent(s) && InWindow(s.l, from, s.clock) ==>
      Enabled(s, choose(s)) && Internal(s, choose(s), from)
  }

  /** Where the chosen steps lead: whatever is chosen, they come to an end. */
  ghost function Final(s: System, choose: System -> Action, from: real): (r: System)
    requires Invariant(s) && InWindow(s.l, from, s.clock) && Schedules(choose, from)
    ensures Invariant(r) && Quiescent(r) && r.started == s.started
    decreases if s.l.refreshWindow.Some? then Budget(s.l, from) else 0, TotalWork(s), |s.setters|
  {
    if Quiescent(s) then s
    else
      var a := choose(s);
      InternalStepProgress(s, a, from);
      BudgetNonNegative(s, from);
      StepInvariant(s, a);
      KeepsWindow(s, a, from);
      Final(Step(s, a), choose, from)
  }

  lemma KeepsWindow(s: System, a: Action, from: real)
    requires Enabled(s, a) && Internal(s, a, from) && InWindow(s.l, from, s.clock)
    requires Step(s, a).l.refreshWindow == s.l.refreshWindow
    ensures InWindow(Step(s, a).l, from, Step(s, a).clock) && Step(s, a).started == s.started
  {
    hide Perform;
  }

  /**
   With a refresh window, every started call is answered: from any state that holds the
   invariant, any schedule within one window ends with every handler called exactly once.
   */
  lemma EveryCallIsAnswered(s: System, choose: System -> Action, from: real, id: Id)
    requires Invariant(s) && InWindow(s.l, from, s.clock) && Schedules(choose, from)
    ensures InCalls(Final(s, choose, from).called, id) == if id in s.started then 1 else 0
  {
    hide Invariant, Schedules;
    AllCalledAtRest(Final(s, choose, from), id);
  }
}
