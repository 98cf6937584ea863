/** `ReconcileKind` from the top, and how the code refines the state machine: a whole reconcile is
    the steps Read, WriteStatus and MarkRun in a row, a whole client call an Act step or nothing. */
module Reconciler {
  import opened ApprovalTypes
  import opened Quorum
  import opened Validation
  import opened Admission
  import opened Store
  import opened Client
  import opened ClientLaws
  import opened Controller
  import opened Protocol
  import opened Creation

  /** The first `timeout` parameter, if any. */
  function TimeoutParamOf(params: seq<Param>): Option<Param> {
    if params == [] then None
    else if params[0].name.TimeoutParam? then Some(params[0])
    else TimeoutParamOf(params[1..])
  }

  predicate TimeoutReadable(timeout: Option<int>, params: seq<Param>) {
    timeout == None && TimeoutParamOf(params).Some? ==> TimeoutParamOf(params).value.value.duration.Some?
  }

  /** The timeout a reconcile works with: the run's own, the parameter's, or an hour. */
  function TimeoutOf(timeout: Option<int>, params: seq<Param>): int
    requires TimeoutReadable(timeout, params)
  {
    if timeout.Some? then timeout.value
    else if TimeoutParamOf(params).Some? then TimeoutParamOf(params).value.value.duration.value
    else DEFAULT_TIMEOUT
  }

  /** `params[k]` is the first timeout parameter. */
  predicate FirstTimeout(params: seq<Param>, k: nat)
    requires k < |params|
  {
    params[k].name == TimeoutParam && forall j :: 0 <= j < k ==> params[j].name != TimeoutParam
  }

  /** The time a run gives its approvers is `d`: its own timeout, else what the first timeout
      parameter says, else an hour in nanoseconds. */
  predicate Gives(timeout: Option<int>, params: seq<Param>, d: int) {
    match timeout
    case Some(own) => d == own
    case None =>
      || (exists k :: 0 <= k < |params| && FirstTimeout(params, k) && params[k].value.duration == Some(d))
      || ((forall k :: 0 <= k < |params| ==> params[k].name != TimeoutParam) && d == 3_600_000_000_000)
  }

  lemma {:induction false} TimeoutParamByPosition(params: seq<Param>)
    ensures TimeoutParamOf(params).None? <==> forall k :: 0 <= k < |params| ==> params[k].name != TimeoutParam
    ensures forall k :: 0 <= k < |params| && FirstTimeout(params, k) ==> TimeoutParamOf(params) == Some(params[k])
    ensures TimeoutParamOf(params).Some? ==> exists k :: 0 <= k < |params| && FirstTimeout(params, k)
  {
    if params != [] && params[0].name != TimeoutParam {
      var rest := params[1..];
      TimeoutParamByPosition(rest);
      forall k | 0 <= k < |params| && FirstTimeout(params, k)
        ensures TimeoutParamOf(params) == Some(params[k])
      {
        var previous := k - 1;
        assert rest[previous] == params[k];
        assert FirstTimeout(rest, previous) by {
          forall j | 0 <= j < previous
            ensures rest[j].name != TimeoutParam
          {
            var next := j + 1;
            assert params[next] == rest[j];
          }
        }
      }
      if TimeoutParamOf(params).Some? {
        var k :| 0 <= k < |rest| && FirstTimeout(rest, k);
        var next := k + 1;
        assert params[next] == rest[k];
        assert FirstTimeout(params, next);
      } else {
        assert forall k :: 0 <= k < |params| ==> params[k] == if k == 0 then params[0] else rest[k - 1];
      }
    } else if params != [] {
      assert FirstTimeout(params, 0);
    }
  }

  /** A timeout can be read exactly if some is given, and then the one given is the one in force. */
  lemma TimeoutByPosition(timeout: Option<int>, params: seq<Param>)
    ensures TimeoutReadable(timeout, params) <==> exists d :: Gives(timeout, params, d)
    ensures forall d :: Gives(timeout, params, d) ==> TimeoutOf(timeout, params) == d
  {
    TimeoutParamByPosition(params);
    if TimeoutReadable(timeout, params) {
      assert Gives(timeout, params, TimeoutOf(timeout, params));
    }
  }

  function View(task: Task, version: nat, outcome: RunOutcome, clock: int): System {
    System(task, version, outcome, Idle, clock)
  }

  /** The timeout loop of `ReconcileKind`. */
  method ReadTimeout(run: CustomRun, params: seq<Param>) returns (ok: bool)
    modifies run`timeout
    ensures ok <==> TimeoutReadable(old(run.timeout), params)
    ensures ok ==> run.EffectiveTimeout() == TimeoutOf(old(run.timeout), params)
    ensures ok <==> exists d :: Gives(old(run.timeout), params, d)
    ensures forall d :: Gives(old(run.timeout), params, d) ==> run.EffectiveTimeout() == d
  {
    TimeoutByPosition(run.timeout, params);
    if run.timeout.Some? {
      return true;
    }
    var i := 0;
    while i < |params|
      invariant 0 <= i <= |params|
      invariant TimeoutParamOf(params) == TimeoutParamOf(params[i..])
    {
      if params[i].name == TimeoutParam {
        if params[i].value.duration == None {
          return false;
        }
        run.timeout := params[i].value.duration;
        return true;
      }
      i := i + 1;
    }
    return true;
  }

  /** `createApprovalTask` against the server: the object it hands on was read before its first
      status write, so a later status write with it conflicts. */
  method StoreCreated(task: Task) returns (server: ApiServer, at: TaskObject)
    ensures fresh(server) && fresh(at)
    ensures server.task == task && server.version == 1
    ensures at.Value() == task && at.version == 0
  {
    server := new ApiServer(task.(status := Status(NoState, [], [], None, 0, 0)));
    at := server.Get();
    at.status := task.status;
    var written := server.UpdateStatus(at);
  }

  /** The rest of a reconcile, on a task object that may be stale by now. It is the Read step of the
      task as it was fetched and, from the task as others have left it since, a WriteStatus step:
      one that falls back to idle when the status has to be written and the object is stale, one
      that is followed by MarkRun otherwise. */
  method FinishReconcile(server: ApiServer, at: TaskObject, run: CustomRun, now: int)
    returns (requeue: Option<int>, ghost effect: Effect)
    requires run.outcome == Running
    requires at.version == server.version ==> at.Value() == server.task
    modifies server, at`status, run`outcome
    ensures var fetched := View(old(at.Value()), at.version, Running, now);
            Next(old(run.EffectiveTimeout()), fetched, Event.Read(effect),
                 fetched.(phase := Planned(at.version, effect)))
    ensures var due := View(old(server.task), old(server.version), Running, now).(phase := Planned(at.version, effect));
            && Next(old(run.EffectiveTimeout()), due, Event.WriteStatus, Wrote(due))
            && (Wrote(due).phase.Idle? <==> effect.write.Some? && at.version != old(server.version))
            && if Wrote(due).phase.Idle?
               then View(server.task, server.version, run.outcome, now) == Wrote(due) && requeue == None
               else requeue == effect.requeue
                    && Next(old(run.EffectiveTimeout()), Wrote(due), Event.MarkRun,
                            View(server.task, server.version, run.outcome, now))
  {
    var ok;
    ok, requeue, effect := Reconcile(server, at, run, now);
  }

  /** Nothing has been decided on a task that a reconcile started or will start at its creation. */
  predicate Waiting(task: Task) {
    && task.creation != 0 && (task.status.startTime == None || task.status.startTime == Some(task.creation))
    && (task.status.state == PendingState || task.status.state == NoState)
    && !HasReject(task.spec.approvers) && |ApprovedUsers(task.spec.approvers)| < task.spec.required
  }

  /** A reconcile fails the run of a waiting task exactly when more time has passed than it gives. */
  lemma DeadlineExactly(s: System, timeout: int, effect: Effect)
    requires Waiting(s.task) && Plans(s.task, timeout, s.clock, true, effect)
    ensures effect.mark == if s.clock - s.task.creation > timeout then MarkFailed else NoMark
    ensures s.clock - s.task.creation > timeout ==> effect.write.Some? && effect.write.value.state == RejectedState
    ensures s.clock - s.task.creation <= timeout && effect.write.Some? ==>
              effect.write.value.state == s.task.status.state
  {
  }

  /** `ReconcileKind`, for a run whose task is in the store already, when nobody writes in between. */
  method ReconcileKind(server: ApiServer, run: CustomRun, params: seq<Param>, now: int)
    returns (requeue: Option<int>, ghost effect: Effect)
    modifies server, run
    ensures old(run.outcome) != Running ==>
              && run.outcome == old(run.outcome)
              && server.task == old(server.task) && server.version == old(server.version)
    ensures old(run.outcome) == Running && !(ParamsAccepted(params) && TimeoutReadable(old(run.timeout), params)) ==>
              run.outcome == Failed && server.task == old(server.task) && server.version == old(server.version)
    ensures old(run.outcome) == Running && ParamsAccepted(params) && TimeoutReadable(old(run.timeout), params) ==>
              var timeout := TimeoutOf(old(run.timeout), params);
              var start := View(old(server.task), old(server.version), Running, now);
              var read := start.(phase := Planned(start.version, effect));
              && requeue == effect.requeue
              && Next(timeout, start, Event.Read(effect), read)
              && Next(timeout, read, Event.WriteStatus, Wrote(read))
              && Next(timeout, Wrote(read), Event.MarkRun, View(server.task, server.version, run.outcome, now))
    ensures forall d :: Gives(old(run.timeout), params, d) && old(run.outcome) == Running && ParamsAccepted(params)
                        && Waiting(old(server.task)) ==>
              && run.outcome == (if now - old(server.task).creation > d then Failed else Running)
              && (run.outcome == Failed ==> server.task.status.state == RejectedState)
              && (run.outcome == Running ==> server.task.status.state == old(server.task).status.state)
  {
    TimeoutByPosition(run.timeout, params);
    ghost var task := server.task;
    requeue, effect := None, Effect(None, NoMark, None);
    if run.outcome != Running {
      return;
    }
    var valid := ValidateCustomRunParameters(params);
    if !valid {
      run.outcome := Failed;
      return;
    }
    var readable := ReadTimeout(run, params);
    if !readable {
      run.outcome := Failed;
      return;
    }
    var at := server.Get();
    requeue, effect := FinishReconcile(server, at, run, now);
    if Waiting(task) {
      DeadlineExactly(View(task, server.version, Running, now), run.EffectiveTimeout(), effect);
    }
  }

  /** `ReconcileKind`, for a run whose task does not exist yet: a task is created, pending, the run
      goes on and the call asks to be called again at the deadline; or nothing is created. When the
      timeout is negative the new task is overdue at once: the status write conflicts, and the call
      asks for nothing. */
  method ReconcileNew(run: CustomRun, params: seq<Param>, now: int)
    returns (stored: Option<ApiServer>, requeue: Option<int>)
    requires run.outcome == Running && ParamsAccepted(params) && TimeoutReadable(run.timeout, params)
    modifies run
    ensures run.outcome == Running
    ensures stored.Some? <==> AllNames(params) != []
    ensures stored.Some? ==>
      && RequiredOf(params).Some?
      && stored.value.task == CreatedTask(params, RequiredOf(params).value, now) && stored.value.version == 1
      && Init(View(stored.value.task, stored.value.version, run.outcome, now))
    ensures var timeout := TimeoutOf(old(run.timeout), params);
            requeue == if stored.Some? && !TimedOut(now, timeout, now) then Some(WaitTime(now, timeout, now)) else None
    ensures forall d :: Gives(old(run.timeout), params, d) && stored.Some? && now != 0 && d > 0 ==> requeue == Some(d)
    ensures stored.Some? ==> AsksFor(params, stored.value.task.spec.required)
    ensures stored.Some? ==> IsFirstStatus(stored.value.task.status, stored.value.task.spec.required)
  {
    TimeoutByPosition(run.timeout, params);
    ghost var positions := AcceptedParamsAreAdmitted(params, now, now);
    var readable := ReadTimeout(run, params);
    var created := CreateApprovalTask(params, now);
    if created == None {
      return None, None;
    }
    PendingListIsUndecided(created.value.spec);
    var server, at := StoreCreated(created.value);
    ghost var effect;
    var ok;
    ok, requeue, effect := Reconcile(server, at, run, now);
    return Some(server), requeue;
  }

  /** A whole client call: either an Act step of the protocol or no change at all, and a change
      whenever the webhook would allow one. */
  method ClientCall(server: ApiServer, o: Options, ghost outcome: RunOutcome, ghost clock: int, ghost timeout: int)
    returns (result: ClientResult)
    requires LegalSpec(server.task.spec) && Decided(o.input)
    modifies server
    ensures var before := View(old(server.task), old(server.version), outcome, clock);
            var after := View(server.task, server.version, outcome, clock);
            if Admit(Operation.Update, old(server.task), Acted(before, o), RequesterOf(o)) == Allowed
            then result == Sent(Written) && Next(timeout, before, Act(o), after)
            else result != Sent(Written) && after == before
  {
    ghost var task := server.task;
    CliUpdateSkeleton(task.spec.approvers, o);
    if Admit(Operation.Update, task, Rewrite(task.spec, o), RequesterOf(o)) == Allowed {
      GuardStopsNothingAdmissible(task, o);
    }
    result := RunUpdate(server, o);
  }
}
