/**
 The order in which handlers are called that one refresh releases: first those of adapt that
 it failed, then those of retry, each kind in the order in which the calls were parked,
 whatever else goes on.
 */
module AuthenticationOrder {
  import opened Authentication
  import opened AuthenticationRuns
  import opened AuthenticationOutcomes

  predicate Finishing(t: Task, x: Id) {
    t.Finish? && t.id == x
  }

  /** In the dispatch queue the handler of x is called before that of y. */
  predicate Queued(queue: seq<Task>, x: Id, y: Id) {
    exists p, q :: 0 <= p < q < |queue| && Finishing(queue[p], x) && Finishing(queue[q], y)
  }

  /** The handler of x was called, and that of y was not called up to then. */
  predicate CalledFirst(called: seq<(Id, Outcome)>, x: Id, y: Id) {
    exists p :: 0 <= p < |called| && called[p].0 == x && forall q :: 0 <= q <= p ==> called[q].0 != y
  }

  predicate Ahead(s: System, x: Id, y: Id) {
    Queued(s.l.queue, x, y) || CalledFirst(s.called, x, y)
  }

  // ---------- The queue only grows at its end ----------

  predicate Extends(now: seq<Task>, was: seq<Task>) {
    |was| <= |now| && now[..|was|] == was
  }

  lemma PerformExtends(t: Task, l: Locked, env: Env)
    ensures Extends(Perform(t, l, env).l.queue, l.queue)
  {
    hide AttemptsSince, Finishes;
  }

  lemma StillQueued(now: seq<Task>, was: seq<Task>, x: Id, y: Id)
    requires Extends(now, was) && Queued(was, x, y)
    ensures Queued(now, x, y)
  {
    var p, q :| 0 <= p < q < |was| && Finishing(was[p], x) && Finishing(was[q], y);
    assert now[p] == now[..|was|][p] && now[q] == now[..|was|][q];
  }

  lemma StillCalledFirst(called: seq<(Id, Outcome)>, calls: seq<(Id, Outcome)>, x: Id, y: Id)
    requires CalledFirst(called, x, y)
    ensures CalledFirst(called + calls, x, y)
  {
    var p :| 0 <= p < |called| && called[p].0 == x && forall q :: 0 <= q <= p ==> called[q].0 != y;
    assert (called + calls)[p] == called[p];
  }

  // ---------- Parking ----------

  /** Nobody overtakes: a list of parked handlers is emptied as a whole, left alone, or extended at its end. */
  predicate ParksLast(now: seq<Id>, was: seq<Id>) {
    now == [] || now == was || (|now| == |was| + 1 && now[..|was|] == was)
  }

  lemma StepParksLast(s: System, a: Action)
    requires Enabled(s, a) && !a.FinishSet?
    ensures ParksLast(Step(s, a).l.requestsToRetry, s.l.requestsToRetry)
    ensures ParksLast(Step(s, a).l.adaptOperations, s.l.adaptOperations)
  {
    match a {
      case ThreadStep(i, env) => PerformParksLast(s.threads[i], s.l, env);
      case QueueStep(env) => PerformParksLast(s.l.queue[0], s.l.(queue := s.l.queue[1..]), env);
      case _ =>
    }
    hide Perform;
  }

  lemma PerformParksLast(t: Task, l: Locked, env: Env)
    ensures ParksLast(Perform(t, l, env).l.requestsToRetry, l.requestsToRetry)
    ensures ParksLast(Perform(t, l, env).l.adaptOperations, l.adaptOperations)
  {
    hide AttemptsSince, Finishes;
  }

  // ---------- One step ----------

  /** A handler that is queued has not been called, and is queued once. */
  lemma NotCalledYet(s: System, q: nat, y: Id)
    requires Conserved(s) && q < |s.l.queue| && Finishing(s.l.queue[q], y)
    ensures forall c :: c in s.called ==> c.0 != y
    ensures q > 0 ==> !Finishing(s.l.queue[0], y)
  {
    var queue := s.l.queue;
    AllPlacesOnce(s, y);
    CallCounts(s.called, y);
    assert InTasks(queue, y) == Holds(queue[0], y) + InTasks(queue[1..], y);
    assert Holds(queue[q], y) == 1;
    if q > 0 {
      assert queue[1..][q - 1] == queue[q] && queue[q] in queue[1..];
      HeldCounts(queue[1..], y);
    }
    hide InTasks, InCalls, InIds, Conserved;
  }

  /** The queue's first task is performed: a handler that it calls moves to the end of the history. */
  lemma QueueStepAhead(s: System, env: Env, x: Id, y: Id)
    requires Conserved(s) && Enabled(s, QueueStep(env)) && Queued(s.l.queue, x, y)
    ensures Ahead(Step(s, QueueStep(env)), x, y)
  {
    var queue := s.l.queue;
    var p, q :| 0 <= p < q < |queue| && Finishing(queue[p], x) && Finishing(queue[q], y);
    var e := Perform(queue[0], s.l.(queue := queue[1..]), env);
    var s' := Step(s, QueueStep(env));
    if p == 0 {
      NotCalledYet(s, q, y);
      assert s'.called == s.called + [(x, queue[0].outcome)];
      assert s'.called[|s.called|].0 == x;
    } else {
      assert queue[1..][p - 1] == queue[p] && queue[1..][q - 1] == queue[q];
      PerformExtends(queue[0], s.l.(queue := queue[1..]), env);
      StillQueued(e.l.queue, queue[1..], x, y);
      hide Perform;
      BehindPrefix(e.next, e.l.queue, x, y);
    }
  }

  lemma BehindPrefix(next: seq<Task>, queue: seq<Task>, x: Id, y: Id)
    requires Queued(queue, x, y)
    ensures Queued(next + queue, x, y)
  {
    var p, q :| 0 <= p < q < |queue| && Finishing(queue[p], x) && Finishing(queue[q], y);
    assert (next + queue)[|next| + p] == queue[p] && (next + queue)[|next| + q] == queue[q];
  }

  lemma StepAhead(s: System, a: Action, x: Id, y: Id)
    requires Conserved(s) && Enabled(s, a) && Ahead(s, x, y)
    ensures Ahead(Step(s, a), x, y)
  {
    var s' := Step(s, a);
    if CalledFirst(s.called, x, y) {
      StepCalls(s, a);
      StillCalledFirst(s.called, s'.called[|s.called|..], x, y);
    } else if a.QueueStep? {
      QueueStepAhead(s, a.env, x, y);
    } else {
      if a.ThreadStep? { PerformExtends(s.threads[a.i], s.l, a.env); }
      hide Perform, CalledFirst, Queued, Finishes, Adapts;
      StillQueued(s'.l.queue, s.l.queue, x, y);
    }
  }

  lemma StepCalls(s: System, a: Action)
    requires Enabled(s, a)
    ensures var now := Step(s, a).called; |s.called| <= |now| && now == s.called + now[|s.called|..]
  {
    hide Perform, Succeed, Fail;
  }

  // ---------- Every run ----------

  lemma {:induction false} RunAhead(s: System, actions: seq<Action>, s': System, x: Id, y: Id)
    requires Invariant(s) && Run(s, actions, s') && Orderly(s, actions) && Ahead(s, x, y)
    ensures Invariant(s') && Ahead(s', x, y)
    decreases |actions|
  {
    if actions != [] {
      assert Conserved(s);
      hide Invariant, Step, Enabled, Current, Ahead;
      StepInvariant(s, actions[0]);
      StepAhead(s, actions[0], x, y);
      RunAhead(Step(s, actions[0]), actions[1..], s', x, y);
    }
  }

  /** The handlers that the end of a refresh releases to be called, in the order of parking. */
  function Released(l: Locked, result: RefreshResult): seq<Id> {
    (if result.RefreshFailed? then l.adaptOperations else []) + l.requestsToRetry
  }

  lemma ReleasedQueued(s: System, result: RefreshResult, i: nat, j: nat)
    requires Enabled(s, RefreshEnds(result)) && i < j < |Released(s.l, result)|
    ensures var ids := Released(s.l, result);
      Queued(Step(s, RefreshEnds(result)).l.queue, ids[i], ids[j])
  {
    var l, ids, queue := s.l, Released(s.l, result), Step(s, RefreshEnds(result)).l.queue;
    var offset := |queue| - |ids|;
    forall k | 0 <= k < |ids| ensures Finishing(queue[offset + k], ids[k]) {
      if result.Refreshed? {
        assert queue[offset + k] == Finish(l.requestsToRetry[k], Retry);
      } else if k < |l.adaptOperations| {
        assert queue[offset + k] == Finish(l.adaptOperations[k], AdaptFailed(RefreshError(result.code)));
      } else {
        assert queue[offset + k]
            == Finish(l.requestsToRetry[k - |l.adaptOperations|], DoNotRetryWith(RefreshError(result.code)));
      }
    }
    assert Finishing(queue[offset + i], ids[i]) && Finishing(queue[offset + j], ids[j]);
  }

  /**
   Of two released handlers the one that stands first is called first: whenever in an orderly
   run the later one has been called, the earlier one was called before.
   */
  lemma FirstParkedFirstCalled(
    s: System, result: RefreshResult, i: nat, j: nat, actions: seq<Action>, s': System, q: nat)
    requires Invariant(s) && Enabled(s, RefreshEnds(result)) && i < j < |Released(s.l, result)|
    requires Run(Step(s, RefreshEnds(result)), actions, s') && Orderly(Step(s, RefreshEnds(result)), actions)
    requires q < |s'.called| && s'.called[q].0 == Released(s.l, result)[j]
    ensures exists p :: 0 <= p < q && s'.called[p].0 == Released(s.l, result)[i]
  {
    var s1, x, y := Step(s, RefreshEnds(result)), Released(s.l, result)[i], Released(s.l, result)[j];
    ReleasedQueued(s, result, i, j);
    StepInvariant(s, RefreshEnds(result));
    RunAhead(s1, actions, s', x, y);
    assert Conserved(s');
    hide Invariant, Run, Orderly, Step, Released, Conserved, Finishing;
    if Queued(s'.l.queue, x, y) {
      var k, m :| 0 <= k < m < |s'.l.queue| && Finishing(s'.l.queue[k], x) && Finishing(s'.l.queue[m], y);
      assert s'.called[q] in s'.called;
      NotCalledYet(s', m, y);
    }
  }
}
