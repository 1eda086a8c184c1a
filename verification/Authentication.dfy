/**
 Alamofire's AuthenticationInterceptor: the sections that run under its lock. Requests are
 parked while a credential refresh is in flight and released when it ends; a sliding window
 limits how often refreshes start. Each section is a function on the locked state, and the
 class below performs it by updating its fields.
 */
module Authentication {
  import opened Wrappers

  /** One adapt or retry call: its request, its session and its completion handler. */
  type Id = nat

  /** Credentials are compared only by the authenticator. */
  type Credential = nat

  datatype Error = MissingCredential | ExcessiveRefresh | RefreshError(code: nat)

  datatype Window = Window(interval: real, maximumAttempts: int)

  /** What a completion handler is called with. */
  datatype Outcome =
    | Adapted(credential: Credential) | AdaptFailed(error: Error)
    | Retry | DoNotRetry | DoNotRetryWith(error: Error)

  /** The next thing that a thread, or the dispatch queue, has to do. */
  datatype Task =
    | Adapt(id: Id)                              // take the lock in adapt
    | RetryCheck(id: Id)                         // the guards of retry, before the lock
    | RetryLock(id: Id, credential: Credential)  // take the lock in retry
    | Finish(id: Id, outcome: Outcome)           // call the completion handler
    | StartRefresh(credential: Credential)       // call authenticator.refresh

  /** MutableState, and the serial dispatch queue, to which blocks are added only under the lock. */
  datatype Locked = Locked(
    credential: Option<Credential>, isRefreshing: bool, refreshTimestamps: seq<real>, refreshWindow: Option<Window>,
    adaptOperations: seq<Id>, requestsToRetry: seq<Id>, queue: seq<Task>)

  // ---------- The sections as functions ----------

  function AttemptsSince(timestamps: seq<real>, since: real): nat {
    if timestamps == [] then 0
    else AttemptsSince(timestamps[..|timestamps| - 1], since) + (if since <= timestamps[|timestamps| - 1] then 1 else 0)
  }

  /** isRefreshExcessive. */
  predicate Excessive(l: Locked, now: real) {
    l.refreshWindow.Some? &&
    AttemptsSince(l.refreshTimestamps, now - l.refreshWindow.value.interval) >= l.refreshWindow.value.maximumAttempts
  }

  function Adapts(ids: seq<Id>): seq<Task> {
    seq(|ids|, i requires 0 <= i < |ids| => Adapt(ids[i]))
  }

  function Finishes(ids: seq<Id>, outcome: Outcome): seq<Task> {
    seq(|ids|, i requires 0 <= i < |ids| => Finish(ids[i], outcome))
  }

  /** handleRefreshSuccess: parked requests are adapted again, parked retries are told to retry. */
  function Succeed(l: Locked, credential: Credential): Locked {
    l.(credential := Some(credential), isRefreshing := false, adaptOperations := [], requestsToRetry := [],
       queue := l.queue + Adapts(l.adaptOperations) + Finishes(l.requestsToRetry, Retry))
  }

  /** handleRefreshFailure: everything parked fails with the error. */
  function Fail(l: Locked, error: Error): Locked {
    l.(isRefreshing := false, adaptOperations := [], requestsToRetry := [],
       queue := l.queue + Finishes(l.adaptOperations, AdaptFailed(error))
           + Finishes(l.requestsToRetry, DoNotRetryWith(error)))
  }

  /** refresh: the clock is read once for the check and once more for the record. */
  function Refresh(l: Locked, credential: Credential, check: real, record: real): Locked {
    if Excessive(l, check) then Fail(l, ExcessiveRefresh)
    else l.(isRefreshing := true, refreshTimestamps := l.refreshTimestamps + [record],
            queue := l.queue + [StartRefresh(credential)])
  }

  /** The lock section of adapt, and what adapt does after it. */
  function AdaptSection(l: Locked, id: Id, requiresRefresh: bool, check: real, record: real): (r: (Locked, seq<Task>)) {
    if l.isRefreshing then (l.(adaptOperations := l.adaptOperations + [id]), [])
    else if l.credential.None? then (l, [Finish(id, AdaptFailed(MissingCredential))])
    else if requiresRefresh then
      (Refresh(l.(adaptOperations := l.adaptOperations + [id]), l.credential.value, check, record), [])
    else (l, [Finish(id, Adapted(l.credential.value))])
  }

  /** The guards of retry before its lock section; the credential is read under a lock of its own. */
  function RetryGuards(l: Locked, id: Id, retryable: bool, sentWithCurrent: bool): Task {
    if !retryable then Finish(id, DoNotRetry)
    else if l.credential.None? then Finish(id, DoNotRetryWith(MissingCredential))
    else if !sentWithCurrent then Finish(id, Retry)
    else RetryLock(id, l.credential.value)
  }

  /** The lock section of retry; the credential was read before. */
  function RetrySection(l: Locked, id: Id, credential: Credential, check: real, record: real): Locked {
    var l' := l.(requestsToRetry := l.requestsToRetry + [id]);
    if l.isRefreshing then l' else Refresh(l', credential, check, record)
  }

  /**
   The second half of the credential setter: the property wrapper copies the whole struct out
   in one lock section, and writes the whole copy back in another. The queue is not part of it.
   */
  function WriteBack(l: Locked, snapshot: Locked, credential: Option<Credential>): Locked {
    snapshot.(credential := credential, queue := l.queue)
  }

  // ---------- The sections as methods ----------

  class Interceptor {
    var credential: Option<Credential>
    var isRefreshing: bool
    var refreshTimestamps: seq<real>
    var refreshWindow: Option<Window>
    var adaptOperations: seq<Id>
    var requestsToRetry: seq<Id>
    var queue: seq<Task>

    function State(): Locked
      reads this
    {
      Locked(credential, isRefreshing, refreshTimestamps, refreshWindow, adaptOperations, requestsToRetry, queue)
    }

    constructor (initial: Option<Credential>, window: Option<Window>)
      ensures State() == Locked(initial, false, [], window, [], [], [])
    {
      credential := initial;
      refreshWindow := window;
      isRefreshing, refreshTimestamps := false, [];
      adaptOperations, requestsToRetry, queue := [], [], [];
    }

    /** The credential setter, first lock section: read mutableState. */
    method ReadMutableState() returns (snapshot: Locked)
      ensures snapshot == State()
    {
      snapshot := State();
    }

    /** The credential setter, second lock section: every field of the copy is stored, whatever happened in between. */
    method WriteMutableState(snapshot: Locked, newCredential: Option<Credential>)
      modifies this
      ensures State() == WriteBack(old(State()), snapshot, newCredential)
    {
      credential := newCredential;
      isRefreshing := snapshot.isRefreshing;
      refreshTimestamps := snapshot.refreshTimestamps;
      refreshWindow := snapshot.refreshWindow;
      adaptOperations := snapshot.adaptOperations;
      requestsToRetry := snapshot.requestsToRetry;
    }

    method IsRefreshExcessive(now: real) returns (excessive: bool)
      ensures excessive == Excessive(State(), now)
    {
      if refreshWindow.None? { return false; }
      var refreshWindowMin := now - refreshWindow.value.interval;
      var attempts := 0;
      for i := 0 to |refreshTimestamps|
        invariant attempts == AttemptsSince(refreshTimestamps[..i], refreshWindowMin)
      {
        assert refreshTimestamps[..i + 1][..i] == refreshTimestamps[..i];
        if refreshWindowMin <= refreshTimestamps[i] { attempts := attempts + 1; }
      }
      assert refreshTimestamps[..|refreshTimestamps|] == refreshTimestamps;
      excessive := attempts >= refreshWindow.value.maximumAttempts;
    }

    method HandleRefreshSuccess(newCredential: Credential)
      modifies this
      ensures State() == Succeed(old(State()), newCredential)
    {
      credential := Some(newCredential);
      var operations, requests := adaptOperations, requestsToRetry;
      adaptOperations, requestsToRetry := [], [];
      isRefreshing := false;
      queue := queue + Adapts(operations) + Finishes(requests, Retry);
    }

    method HandleRefreshFailure(error: Error)
      modifies this
      ensures State() == Fail(old(State()), error)
    {
      var operations, requests := adaptOperations, requestsToRetry;
      adaptOperations, requestsToRetry := [], [];
      isRefreshing := false;
      queue := queue + Finishes(operations, AdaptFailed(error)) + Finishes(requests, DoNotRetryWith(error));
    }

    method RefreshInsideLock(oldCredential: Credential, check: real, record: real)
      modifies this
      ensures State() == Refresh(old(State()), oldCredential, check, record)
    {
      var excessive := IsRefreshExcessive(check);
      if excessive {
        HandleRefreshFailure(ExcessiveRefresh);
        return;
      }
      refreshTimestamps := refreshTimestamps + [record];
      isRefreshing := true;
      queue := queue + [StartRefresh(oldCredential)];
    }

    method AdaptInsideLock(id: Id, requiresRefresh: bool, check: real, record: real) returns (next: seq<Task>)
      modifies this
      ensures (State(), next) == AdaptSection(old(State()), id, requiresRefresh, check, record)
    {
      if isRefreshing {
        adaptOperations := adaptOperations + [id];
        return [];
      }
      if credential.None? { return [Finish(id, AdaptFailed(MissingCredential))]; }
      if requiresRefresh {
        adaptOperations := adaptOperations + [id];
        RefreshInsideLock(credential.value, check, record);
        return [];
      }
      return [Finish(id, Adapted(credential.value))];
    }

    method RetryBeforeLock(id: Id, retryable: bool, sentWithCurrent: bool) returns (next: Task)
      ensures next == RetryGuards(State(), id, retryable, sentWithCurrent)
      ensures !next.StartRefresh? && next.id == id
      ensures next.RetryLock? <==> retryable && sentWithCurrent && credential.Some?
      ensures next.RetryLock? ==> credential == Some(next.credential)
      ensures !next.RetryLock? ==> next.Finish? && !next.outcome.Adapted? && !next.outcome.AdaptFailed?
    {
      if !retryable { return Finish(id, DoNotRetry); }
      var current := credential;
      if current.None? { return Finish(id, DoNotRetryWith(MissingCredential)); }
      if !sentWithCurrent { return Finish(id, Retry); }
      return RetryLock(id, current.value);
    }

    method RetryInsideLock(id: Id, seen: Credential, check: real, record: real)
      modifies this
      ensures State() == RetrySection(old(State()), id, seen, check, record)
    {
      requestsToRetry := requestsToRetry + [id];
      if isRefreshing { return; }
      RefreshInsideLock(seen, check, record);
    }
  }
}
