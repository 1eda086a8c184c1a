/**
 What each completion handler is called with. The verdict on a call is read off the run,
 from the moment at which it falls: the end of the refresh that the call waited for, or the
 lock section or guards that answered it. Handlers are called with their verdict.
 */
module AuthenticationOutcomes {
  import opened Wrappers
  import opened Authentication
  import opened AuthenticationRuns

  // ---------- When the verdict falls ----------

  /** The verdict that performing this task brings for call x. */
  function TaskDecides(t: Task, l: Locked, env: Env, x: Id): Option<Outcome> {
    if t.StartRefresh? || t.id != x then None
    else match t
         case Adapt(_) =>
           if l.isRefreshing then None
           else if l.credential.None? then Some(AdaptFailed(MissingCredential))
           else if !env.requiresRefresh then Some(Adapted(l.credential.value))
           else if Excessive(l, env.check) then Some(AdaptFailed(ExcessiveRefresh))
           else None
         case RetryCheck(_) =>
           if !env.retryable then Some(DoNotRetry)
           else if l.credential.None? then Some(DoNotRetryWith(MissingCredential))
           else if !env.sentWithCurrent then Some(Retry)
           else None
         case RetryLock(_, _) =>
           if !l.isRefreshing && Excessive(l, env.check) then Some(DoNotRetryWith(ExcessiveRefresh)) else None
         case _ => None
  }

  /** The verdict that the end of a refresh brings for call x, if x waits for it. */
  function RefreshDecides(l: Locked, result: RefreshResult, x: Id): Option<Outcome> {
    if x in l.requestsToRetry then
      match result
      case Refreshed(_) => Some(Retry)
      case RefreshFailed(code) => Some(DoNotRetryWith(RefreshError(code)))
    else if x in l.adaptOperations then
      match result
      case Refreshed(_) => None
      case RefreshFailed(code) => Some(AdaptFailed(RefreshError(code)))
    else None
  }

  function Decided(s: System, a: Action, x: Id): Option<Outcome>
    requires Enabled(s, a)
  {
    match a
    case ThreadStep(i, env) => TaskDecides(s.threads[i], s.l, env, x)
    case QueueStep(env) => TaskDecides(s.l.queue[0], s.l, env, x)
    case RefreshEnds(result) => RefreshDecides(s.l, result, x)
    case _ => None
  }

  /** A verdict stands once it has fallen. */
  function Standing(w: Option<Outcome>, next: Option<Outcome>): Option<Outcome> {
    if w.Some? then w else next
  }

  /** The verdict on x after these actions; w is the verdict before them. */
  function Verdict(s: System, actions: seq<Action>, x: Id, w: Option<Outcome>): Option<Outcome>
    decreases |actions|
  {
    if actions == [] || !Enabled(s, actions[0]) then w
    else Verdict(Step(s, actions[0]), actions[1..], x, Standing(w, Decided(s, actions[0], x)))
  }

  // ---------- The invariant of one call ----------

  predicate TaskAgrees(t: Task, x: Id, w: Option<Outcome>) {
    !t.StartRefresh? && t.id == x ==> if t.Finish? then w == Some(t.outcome) else w.None?
  }

  predicate TasksAgree(ts: seq<Task>, x: Id, w: Option<Outcome>) {
    forall t :: t in ts ==> TaskAgrees(t, x, w)
  }

  /** Whatever is about to be said, or has been said, to the handler of x is the verdict; without one x still waits. */
  predicate Agrees(s: System, x: Id, w: Option<Outcome>) {
    && TasksAgree(s.threads, x, w) && TasksAgree(s.l.queue, x, w)
    && (w.Some? ==> x !in s.l.adaptOperations && x !in s.l.requestsToRetry && x in s.started)
    && forall c :: c in s.called && c.0 == x ==> w == Some(c.1)
  }

  // ---------- A handler is in one place only ----------

  lemma {:induction false} HeldCounts(ts: seq<Task>, x: Id)
    ensures InTasks(ts, x) == 0 <==> forall t :: t in ts ==> Holds(t, x) == 0
  {
    hide Holds;
    if ts != [] {
      HeldCounts(ts[1..], x);
      assert ts == [ts[0]] + ts[1..];
      assert forall t :: t in ts <==> t == ts[0] || t in ts[1..];
    }
  }

  lemma {:induction false} ParkedCounts(ids: seq<Id>, x: Id)
    ensures InIds(ids, x) == 0 <==> x !in ids
  {
    if ids != [] {
      ParkedCounts(ids[..|ids| - 1], x);
      assert ids == ids[..|ids| - 1] + [ids[|ids| - 1]];
    }
  }

  lemma {:induction false} CallCounts(calls: seq<(Id, Outcome)>, x: Id)
    ensures InCalls(calls, x) == 0 <==> forall c :: c in calls ==> c.0 != x
  {
    if calls != [] {
      var n := |calls| - 1;
      CallCounts(calls[..n], x);
      assert calls == calls[..n] + [calls[n]];
      assert forall c :: c in calls <==> c in calls[..n] || c == calls[n];
    }
  }

  /** No task, parked handler or past call belongs to x. */
  ghost predicate Nowhere(ts: seq<Task>, l: Locked, called: seq<(Id, Outcome)>, x: Id) {
    && (forall t :: t in ts || t in l.queue ==> Holds(t, x) == 0)
    && x !in l.adaptOperations && x !in l.requestsToRetry
    && forall c :: c in called ==> c.0 != x
  }

  /** The rest of the system, when the one place of x has been taken out. */
  lemma NowhereElse(ts: seq<Task>, l: Locked, called: seq<(Id, Outcome)>, x: Id)
    requires InTasks(ts, x) + InLocked(l, x) + InCalls(called, x) == 0
    ensures Nowhere(ts, l, called, x)
  {
    HeldCounts(ts, x);
    HeldCounts(l.queue, x);
    ParkedCounts(l.adaptOperations, x);
    ParkedCounts(l.requestsToRetry, x);
    CallCounts(called, x);
    hide InTasks, InIds, InCalls, Holds;
  }

  /** Where nothing belongs to x, everything agrees with any verdict. */
  lemma NothingDisagrees(ts: seq<Task>, l: Locked, called: seq<(Id, Outcome)>, x: Id, w: Option<Outcome>)
    requires Nowhere(ts, l, called, x)
    ensures TasksAgree(ts, x, w) && TasksAgree(l.queue, x, w)
    ensures forall c :: c in called && c.0 == x ==> w == Some(c.1)
  {
  }

  // ---------- Performing a task ----------

  lemma FinishesAre(ids: seq<Id>, outcome: Outcome)
    ensures forall t: Task :: t in Finishes(ids, outcome) <==> t.Finish? && t.id in ids && t.outcome == outcome
  {
    forall t: Task | t.Finish? && t.id in ids && t.outcome == outcome ensures t in Finishes(ids, outcome) {
      var i :| 0 <= i < |ids| && ids[i] == t.id;
      assert Finishes(ids, outcome)[i] == t;
    }
  }

  lemma AdaptsAre(ids: seq<Id>)
    ensures forall t: Task :: t in Adapts(ids) <==> t.Adapt? && t.id in ids
  {
    forall t: Task | t.Adapt? && t.id in ids ensures t in Adapts(ids) {
      var i :| 0 <= i < |ids| && ids[i] == t.id;
      assert Adapts(ids)[i] == t;
    }
  }

  lemma AgreeAppend(a: seq<Task>, b: seq<Task>, x: Id, w: Option<Outcome>)
    ensures TasksAgree(a + b, x, w) <==> TasksAgree(a, x, w) && TasksAgree(b, x, w)
  {
    hide TaskAgrees;
    assert forall t :: t in a + b <==> t in a || t in b;
  }

  /** refresh, asked for by call y alone: y is answered if it is excessive, and stays parked if it is not. */
  lemma RefreshAgrees(l: Locked, y: Id, c: Credential, check: real, record: real, x: Id, w: Option<Outcome>)
    requires (l.adaptOperations == [y] && l.requestsToRetry == [])
            || (l.adaptOperations == [] && l.requestsToRetry == [y])
    requires TasksAgree(l.queue, x, w)
    requires x == y && Excessive(l, check) ==>
               w == Some(if l.requestsToRetry == [] then AdaptFailed(ExcessiveRefresh)
                   else DoNotRetryWith(ExcessiveRefresh))
    requires x == y && !Excessive(l, check) ==> w.None?
    ensures var l' := Refresh(l, c, check, record);
            && TasksAgree(l'.queue, x, w)
            && (w.Some? ==> x !in l'.adaptOperations && x !in l'.requestsToRetry)
  {
    hide AttemptsSince;
    if Excessive(l, check) {
      var u, v := Finishes(l.adaptOperations, AdaptFailed(ExcessiveRefresh)),
          Finishes(l.requestsToRetry, DoNotRetryWith(ExcessiveRefresh));
      FinishesAre(l.adaptOperations, AdaptFailed(ExcessiveRefresh));
      FinishesAre(l.requestsToRetry, DoNotRetryWith(ExcessiveRefresh));
      hide Finishes;
      AgreeAppend(l.queue, u, x, w);
      AgreeAppend(l.queue + u, v, x, w);
    } else {
      AgreeAppend(l.queue, [StartRefresh(c)], x, w);
    }
  }

  /** What a task leaves behind agrees with the verdict that it brings. */
  lemma PerformAgrees(t: Task, l: Locked, env: Env, x: Id, w: Option<Outcome>)
    requires TaskAgrees(t, x, w) && TasksAgree(l.queue, x, w)
    requires w.Some? ==> x !in l.adaptOperations && x !in l.requestsToRetry
    requires !l.isRefreshing ==> l.adaptOperations == [] && l.requestsToRetry == []
    requires TaskDecides(t, l, env, x).Some? ==>
               TasksAgree(l.queue, x, TaskDecides(t, l, env, x)) && x !in l.adaptOperations && x !in l.requestsToRetry
    ensures var e, w' := Perform(t, l, env), Standing(w, TaskDecides(t, l, env, x));
            && TasksAgree(e.next, x, w') && TasksAgree(e.l.queue, x, w')
            && (w'.Some? ==> x !in e.l.adaptOperations && x !in e.l.requestsToRetry)
            && forall c :: c in e.calls && c.0 == x ==> w' == Some(c.1)
  {
    hide Refresh, AttemptsSince;
    var w' := Standing(w, TaskDecides(t, l, env, x));
    if t.Adapt? && !l.isRefreshing && l.credential.Some? && env.requiresRefresh {
      var parked := l.(adaptOperations := l.adaptOperations + [t.id]);
      assert parked.adaptOperations == [t.id];
      RefreshAgrees(parked, t.id, l.credential.value, env.check, env.record, x, w');
    } else if t.RetryLock? && !l.isRefreshing {
      var parked := l.(requestsToRetry := l.requestsToRetry + [t.id]);
      assert parked.requestsToRetry == [t.id];
      RefreshAgrees(parked, t.id, t.credential, env.check, env.record, x, w');
    }
  }

  // ---------- Every step ----------

  lemma DecidesForHolder(t: Task, l: Locked, env: Env, x: Id)
    requires TaskDecides(t, l, env, x).Some?
    ensures Holds(t, x) == 1 && !t.Finish?
  {
    hide Excessive;
  }

  lemma AllPlacesOnce(s: System, x: Id)
    requires Conserved(s)
    ensures Places(s, x) <= 1 && (Places(s, x) > 0 ==> x in s.started)
  {
    assert Places(s, x) == if x in s.started then 1 else 0;
    hide Places;
  }

  lemma ThreadAgrees(s: System, i: nat, env: Env, x: Id, w: Option<Outcome>)
    requires Conserved(s) && OneRefresh(s) && Enabled(s, ThreadStep(i, env)) && Agrees(s, x, w)
    ensures Agrees(Step(s, ThreadStep(i, env)), x, Standing(w, Decided(s, ThreadStep(i, env), x)))
  {
    var t, left, right := s.threads[i], s.threads[..i], s.threads[i + 1..];
    var rest, o := left + [] + right, TaskDecides(s.threads[i], s.l, env, x);
    var w' := Standing(w, o);
    SplitTasks(s.threads, i, [], x);
    assert InTasks([], x) == 0;
    assert forall u :: u in rest ==> u in s.threads;
    AllPlacesOnce(s, x);
    hide InTasks, InIds, InCalls, Conserved, Starts, Excessive;
    if o.Some? {
      DecidesForHolder(t, s.l, env, x);
      assert w.None?;
      NowhereElse(rest, s.l, s.called, x);
      NothingDisagrees(rest, s.l, s.called, x, w');
    }
    hide TaskDecides, Holds;
    assert TaskAgrees(t, x, w);
    PerformAgrees(t, s.l, env, x, w);
    hide Perform, TaskAgrees;
    var next := Perform(t, s.l, env).next;
    AgreeAppend(left + [], right, x, w');
    assert left + [] == left;
    AgreeAppend(left, next, x, w');
    AgreeAppend(left + next, right, x, w');
  }

  lemma QueueAgrees(s: System, env: Env, x: Id, w: Option<Outcome>)
    requires Conserved(s) && OneRefresh(s) && Enabled(s, QueueStep(env)) && Agrees(s, x, w)
    ensures Agrees(Step(s, QueueStep(env)), x, Standing(w, Decided(s, QueueStep(env), x)))
  {
    var t, rest := s.l.queue[0], s.l.(queue := s.l.queue[1..]);
    var o := TaskDecides(t, s.l, env, x);
    var w' := Standing(w, o);
    QueueDecides(t, s.l, rest.queue, env, x);
    assert InTasks(s.l.queue, x) == Holds(t, x) + InTasks(rest.queue, x);
    assert t in s.l.queue && forall u :: u in rest.queue ==> u in s.l.queue;
    AllPlacesOnce(s, x);
    hide InTasks, InIds, InCalls, Conserved, Starts, Excessive;
    if o.Some? {
      DecidesForHolder(t, s.l, env, x);
      assert w.None?;
      NowhereElse(s.threads, rest, s.called, x);
      NothingDisagrees(s.threads, rest, s.called, x, w');
    }
    hide TaskDecides, Holds;
    assert TaskAgrees(t, x, w);
    PerformAgrees(t, rest, env, x, w);
    hide Perform, TaskAgrees;
    var e := Perform(t, rest, env);
    AgreeAppend(e.next, e.l.queue, x, w');
  }

  lemma QueueDecides(t: Task, l: Locked, queue: seq<Task>, env: Env, x: Id)
    ensures TaskDecides(t, l.(queue := queue), env, x) == TaskDecides(t, l, env, x)
  {
    hide AttemptsSince;
  }

  lemma RefreshEndAgrees(s: System, result: RefreshResult, x: Id, w: Option<Outcome>)
    requires Conserved(s) && Enabled(s, RefreshEnds(result)) && Agrees(s, x, w)
    ensures Agrees(Step(s, RefreshEnds(result)), x, Standing(w, Decided(s, RefreshEnds(result), x)))
  {
    var l := s.l;
    var w' := Standing(w, RefreshDecides(l, result, x));
    ParkedCounts(l.adaptOperations, x);
    ParkedCounts(l.requestsToRetry, x);
    AllPlacesOnce(s, x);
    if w'.Some? && w.None? {
      var emptied := l.(adaptOperations := [], requestsToRetry := []);
      assert InIds([], x) == 0;
      hide InTasks, InIds, InCalls, Holds;
      NowhereElse(s.threads, emptied, s.called, x);
      NothingDisagrees(s.threads, emptied, s.called, x, w');
    }
    hide InTasks, InIds, InCalls, Conserved, Holds;
    match result {
      case Refreshed(c) =>
        var u, v := Adapts(l.adaptOperations), Finishes(l.requestsToRetry, Retry);
        AdaptsAre(l.adaptOperations);
        FinishesAre(l.requestsToRetry, Retry);
        hide Adapts, Finishes;
        AgreeAppend(l.queue, u, x, w');
        AgreeAppend(l.queue + u, v, x, w');
      case RefreshFailed(code) =>
        var u := Finishes(l.adaptOperations, AdaptFailed(RefreshError(code)));
        var v := Finishes(l.requestsToRetry, DoNotRetryWith(RefreshError(code)));
        FinishesAre(l.adaptOperations, AdaptFailed(RefreshError(code)));
        FinishesAre(l.requestsToRetry, DoNotRetryWith(RefreshError(code)));
        hide Adapts, Finishes;
        AgreeAppend(l.queue, u, x, w');
        AgreeAppend(l.queue + u, v, x, w');
    }
  }

  lemma SetterAgrees(s: System, j: nat, x: Id, w: Option<Outcome>)
    requires j < |s.setters| && Current(s.l, s.setters[j].snapshot) && Agrees(s, x, w)
    ensures Agrees(Step(s, FinishSet(j)), x, w)
  {
    var snapshot := s.setters[j].snapshot;
    assert SameParked(s.l, snapshot, x);
    ParkedCounts(snapshot.adaptOperations, x);
    ParkedCounts(snapshot.requestsToRetry, x);
    ParkedCounts(s.l.adaptOperations, x);
    ParkedCounts(s.l.requestsToRetry, x);
    hide InIds, TaskAgrees;
  }

  lemma StepAgrees(s: System, a: Action, x: Id, w: Option<Outcome>)
    requires Invariant(s) && Enabled(s, a) && Agrees(s, x, w)
    requires a.FinishSet? ==> Current(s.l, s.setters[a.j].snapshot)
    ensures Agrees(Step(s, a), x, Standing(w, Decided(s, a, x)))
  {
    match a {
      case CallAdapt(y) => AgreeAppend(s.threads, [Adapt(y)], x, w); hide TasksAgree;
      case CallRetry(y) => AgreeAppend(s.threads, [RetryCheck(y)], x, w); hide TasksAgree;
      case BeginSet(c) => hide TasksAgree;
      case FinishSet(j) => SetterAgrees(s, j, x, w);
      case ThreadStep(i, env) => ThreadAgrees(s, i, env, x, w);
      case QueueStep(env) => QueueAgrees(s, env, x, w);
      case RefreshEnds(result) => RefreshEndAgrees(s, result, x, w);
    }
  }

  // ---------- Every run ----------

  lemma {:induction false} RunAgrees(s: System, actions: seq<Action>, s': System, x: Id, w: Option<Outcome>)
    requires Invariant(s) && Run(s, actions, s') && Orderly(s, actions) && Agrees(s, x, w)
    ensures Invariant(s') && Agrees(s', x, Verdict(s, actions, x, w))
    decreases |actions|
  {
    hide Invariant, Step, Enabled, Current, Agrees, Decided;
    if actions != [] {
      StepInvariant(s, actions[0]);
      StepAgrees(s, actions[0], x, w);
      RunAgrees(Step(s, actions[0]), actions[1..], s', x, Standing(w, Decided(s, actions[0], x)));
    }
  }

  lemma InitialAgrees(s: System, x: Id)
    requires Initial(s)
    ensures Agrees(s, x, None)
  {
  }

  /**
   In every orderly run a handler is called with nothing but the verdict on its call, and when
   everything has come to rest every call that was started has a verdict and was given it.
   */
  lemma CalledWithVerdict(s: System, actions: seq<Action>, s': System, x: Id)
    requires Initial(s) && Run(s, actions, s') && Orderly(s, actions)
    ensures forall c :: c in s'.called && c.0 == x ==> Verdict(s, actions, x, None) == Some(c.1)
    ensures Quiescent(s') && x in s'.started ==> exists c :: c in s'.called && c.0 == x
  {
    InitialInvariant(s);
    InitialAgrees(s, x);
    RunAgrees(s, actions, s', x, None);
    if Quiescent(s') && x in s'.started {
      AllCalledAtRest(s', x);
      CallCounts(s'.called, x);
    }
    hide Invariant, Run, Orderly, Verdict, InCalls, TasksAgree;
  }

  /** A verdict does not change any more. */
  lemma {:induction false} VerdictStands(s: System, actions: seq<Action>, x: Id, w: Option<Outcome>)
    requires w.Some?
    ensures Verdict(s, actions, x, w) == w
    decreases |actions|
  {
    hide Step, Enabled, Decided;
    if actions != [] && Enabled(s, actions[0]) { VerdictStands(Step(s, actions[0]), actions[1..], x, w); }
  }

  /**
   A handler that retry parked is called with Retry when the refresh it waited for succeeded,
   and with the error of that refresh when it failed.
   */
  lemma ParkedRetryAnswered(s: System, result: RefreshResult, actions: seq<Action>, s': System, x: Id)
    requires Invariant(s) && Agrees(s, x, None) && x in s.l.requestsToRetry && Enabled(s, RefreshEnds(result))
    requires Run(Step(s, RefreshEnds(result)), actions, s') && Orderly(Step(s, RefreshEnds(result)), actions)
    ensures forall c :: c in s'.called && c.0 == x ==>
              c.1 == if result.Refreshed? then Retry else DoNotRetryWith(RefreshError(result.code))
  {
    var s1, w := Step(s, RefreshEnds(result)), Decided(s, RefreshEnds(result), x);
    StepInvariant(s, RefreshEnds(result));
    StepAgrees(s, RefreshEnds(result), x, None);
    RunAgrees(s1, actions, s', x, w);
    VerdictStands(s1, actions, x, w);
    hide Invariant, Run, Orderly, Verdict, TasksAgree, Step;
  }

  /** A handler that adapt parked is called with the error of the refresh it waited for when that failed. */
  lemma ParkedAdaptFails(s: System, code: nat, actions: seq<Action>, s': System, x: Id)
    requires Invariant(s) && Agrees(s, x, None) && x in s.l.adaptOperations && x !in s.l.requestsToRetry
    requires Enabled(s, RefreshEnds(RefreshFailed(code)))
    requires Run(Step(s, RefreshEnds(RefreshFailed(code))), actions, s')
    requires Orderly(Step(s, RefreshEnds(RefreshFailed(code))), actions)
    ensures forall c :: c in s'.called && c.0 == x ==> c.1 == AdaptFailed(RefreshError(code))
  {
    var a := RefreshEnds(RefreshFailed(code));
    var w := Decided(s, a, x);
    StepInvariant(s, a);
    StepAgrees(s, a, x, None);
    RunAgrees(Step(s, a), actions, s', x, w);
    VerdictStands(Step(s, a), actions, x, w);
    hide Invariant, Run, Orderly, Verdict, TasksAgree, Step;
  }

  // ---------- Answers of the right kind ----------

  predicate ForAdapt(o: Outcome) {
    o.Adapted? || o.AdaptFailed?
  }

  /** k says whether x is a call of adapt, a call of retry, or not made yet. */
  predicate TaskFits(t: Task, x: Id, k: Option<bool>) {
    !t.StartRefresh? && t.id == x ==>
      k.Some? && if t.Finish? then ForAdapt(t.outcome) == k.value else t.Adapt? == k.value
  }

  predicate TasksFit(ts: seq<Task>, x: Id, k: Option<bool>) {
    forall t :: t in ts ==> TaskFits(t, x, k)
  }

  predicate ParkedFit(l: Locked, x: Id, k: Option<bool>) {
    (x in l.adaptOperations ==> k == Some(true)) && (x in l.requestsToRetry ==> k == Some(false))
  }

  predicate Fits(s: System, x: Id, k: Option<bool>) {
    && TasksFit(s.threads, x, k) && TasksFit(s.l.queue, x, k) && ParkedFit(s.l, x, k)
    && (forall j :: 0 <= j < |s.setters| ==> ParkedFit(s.setters[j].snapshot, x, k))
    && (forall c :: c in s.called && c.0 == x ==> k == Some(ForAdapt(c.1)))
    && (x in s.started <==> k.Some?)
  }

  function KindAfter(a: Action, x: Id, k: Option<bool>): Option<bool> {
    if a == CallAdapt(x) then Some(true) else if a == CallRetry(x) then Some(false) else k
  }

  lemma FitAppend(a: seq<Task>, b: seq<Task>, x: Id, k: Option<bool>)
    ensures TasksFit(a + b, x, k) <==> TasksFit(a, x, k) && TasksFit(b, x, k)
  {
    hide TaskFits;
    assert forall t :: t in a + b <==> t in a || t in b;
  }

  lemma ReleaseFits(l: Locked, c: Credential, error: Error, x: Id, k: Option<bool>)
    requires TasksFit(l.queue, x, k) && ParkedFit(l, x, k)
    ensures TasksFit(Succeed(l, c).queue, x, k) && TasksFit(Fail(l, error).queue, x, k)
  {
    AdaptsAre(l.adaptOperations);
    FinishesAre(l.requestsToRetry, Retry);
    FinishesAre(l.adaptOperations, AdaptFailed(error));
    FinishesAre(l.requestsToRetry, DoNotRetryWith(error));
    var u, v := Adapts(l.adaptOperations), Finishes(l.requestsToRetry, Retry);
    var p, q := Finishes(l.adaptOperations, AdaptFailed(error)), Finishes(l.requestsToRetry, DoNotRetryWith(error));
    hide Adapts, Finishes;
    FitAppend(l.queue, u, x, k);
    FitAppend(l.queue + u, v, x, k);
    FitAppend(l.queue, p, x, k);
    FitAppend(l.queue + p, q, x, k);
  }

  lemma RefreshFits(l: Locked, c: Credential, check: real, record: real, x: Id, k: Option<bool>)
    requires TasksFit(l.queue, x, k) && ParkedFit(l, x, k)
    ensures TasksFit(Refresh(l, c, check, record).queue, x, k) && ParkedFit(Refresh(l, c, check, record), x, k)
  {
    ReleaseFits(l, c, ExcessiveRefresh, x, k);
    FitAppend(l.queue, [StartRefresh(c)], x, k);
    hide Excessive, Finishes, TasksFit;
    assert TasksFit([StartRefresh(c)], x, k) by {
      assert forall t :: t in [StartRefresh(c)] ==> t.StartRefresh?;
      OneFits(c, x, k);
    }
  }

  lemma OneFits(c: Credential, x: Id, k: Option<bool>)
    ensures TasksFit([StartRefresh(c)], x, k)
  {
  }

  lemma PerformFits(t: Task, l: Locked, env: Env, x: Id, k: Option<bool>)
    requires TaskFits(t, x, k) && TasksFit(l.queue, x, k) && ParkedFit(l, x, k)
    ensures var e := Perform(t, l, env);
            && TasksFit(e.next, x, k) && TasksFit(e.l.queue, x, k) && ParkedFit(e.l, x, k)
            && forall c :: c in e.calls && c.0 == x ==> k == Some(ForAdapt(c.1))
  {
    hide Refresh;
    if t.Adapt? && l.credential.Some? {
      RefreshFits(l.(adaptOperations := l.adaptOperations + [t.id]), l.credential.value, env.check, env.record, x, k);
    } else if t.RetryLock? {
      RefreshFits(l.(requestsToRetry := l.requestsToRetry + [t.id]), t.credential, env.check, env.record, x, k);
    }
  }

  lemma StepFits(s: System, a: Action, x: Id, k: Option<bool>)
    requires Enabled(s, a) && Fits(s, x, k)
    ensures Fits(Step(s, a), x, KindAfter(a, x, k))
  {
    match a {
      case CallAdapt(y) => CallFits(s, Adapt(y), x, k);
      case CallRetry(y) => CallFits(s, RetryCheck(y), x, k);
      case BeginSet(c) => hide TasksFit;
      case FinishSet(j) => hide TasksFit;
      case ThreadStep(i, env) =>
        var left, right, next := s.threads[..i], s.threads[i + 1..], Perform(s.threads[i], s.l, env).next;
        PerformFits(s.threads[i], s.l, env, x, k);
        hide Perform, TaskFits;
        FitAppend(left, next, x, k);
        FitAppend(left + next, right, x, k);
      case QueueStep(env) =>
        var rest := s.l.(queue := s.l.queue[1..]);
        var e := Perform(s.l.queue[0], rest, env);
        PerformFits(s.l.queue[0], rest, env, x, k);
        hide Perform, TaskFits;
        FitAppend(e.next, e.l.queue, x, k);
      case RefreshEnds(result) =>
        var (c, code) := match result case Refreshed(c) => (c, 0) case RefreshFailed(code) => (0, code);
        ReleaseFits(s.l, c, RefreshError(code), x, k);
        hide TasksFit, Adapts, Finishes;
    }
  }

  lemma CallFits(s: System, t: Task, x: Id, k: Option<bool>)
    requires Fits(s, x, k) && (t.Adapt? || t.RetryCheck?) && t.id !in s.started
    ensures Fits(s.(threads := s.threads + [t], started := s.started + [t.id]), x,
                 if t.id == x then Some(t.Adapt?) else k)
  {
    var k' := if t.id == x then Some(t.Adapt?) else k;
    assert TasksFit(s.threads, x, k') && TasksFit(s.l.queue, x, k') && TaskFits(t, x, k');
    FitAppend(s.threads, [t], x, k');
    hide TaskFits;
  }

  function KindIn(actions: seq<Action>, x: Id, k: Option<bool>): Option<bool> {
    if actions == [] then k else KindIn(actions[1..], x, KindAfter(actions[0], x, k))
  }

  /** Whatever setters do: calls of adapt get answers of adapt, and calls of retry answers of retry. */
  lemma {:induction false} AnswersFit(s: System, actions: seq<Action>, s': System, x: Id, k: Option<bool>)
    requires Fits(s, x, k) && Run(s, actions, s')
    ensures Fits(s', x, KindIn(actions, x, k))
    decreases |actions|
  {
    hide Fits, Step, Enabled, KindAfter;
    if actions != [] {
      StepFits(s, actions[0], x, k);
      AnswersFit(Step(s, actions[0]), actions[1..], s', x, KindAfter(actions[0], x, k));
    }
  }

  lemma AnswersOfTheRightKind(s: System, actions: seq<Action>, s': System, x: Id)
    requires Initial(s) && Run(s, actions, s')
    ensures forall c :: c in s'.called && c.0 == x ==> KindIn(actions, x, None) == Some(ForAdapt(c.1))
  {
    AnswersFit(s, actions, s', x, None);
    hide Run, KindIn, TasksFit;
  }
}
