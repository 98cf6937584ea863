/** The controller: recompute the status of a task from its spec, decide, time out, mark the run. */
module Controller {
  import opened ApprovalTypes
  import opened Quorum
  import opened Store

  const SECOND := 1_000_000_000
  const DEFAULT_TIMEOUT := 60 * 60 * SECOND

  // ---------- responses ----------

  /** The map entry the first pass makes of an individual. */
  function UserState(a: Approver): Option<ApproverState> {
    if a.IsUser() && Decided(a.input)
    then Some(ApproverState(a.name, ResponseOf(a.input), a.message, User, []))
    else None
  }

  /** The individuals that have responded, by name. */
  function UserResponders(approvers: seq<Approver>): map<string, ApproverState> {
    if approvers == [] then map[]
    else
      var last := approvers[|approvers| - 1];
      var rest := UserResponders(approvers[..|approvers| - 1]);
      if UserState(last).Some? then rest[last.name := UserState(last).value] else rest
  }

  /** The members of a group that have responded, leaving out those already listed as individuals. */
  function Members(users: seq<UserDetails>, processed: set<string>): seq<GroupMember> {
    if users == [] then []
    else
      var last := users[|users| - 1];
      Members(users[..|users| - 1], processed)
      + if last.name !in processed && Decided(last.input)
        then [GroupMember(last.name, ResponseOf(last.input), last.message)] else []
  }

  predicate AnyRejection(members: seq<GroupMember>) {
    exists m :: m in members && m.response.RejectedState?
  }

  /** The map entry the second pass makes of a group. */
  function GroupState(a: Approver, processed: set<string>): Option<ApproverState> {
    if a.IsGroup() && Decided(a.input) && Members(a.users, processed) != []
    then
      var members := Members(a.users, processed);
      Some(ApproverState(a.name, if AnyRejection(members) then RejectedState else ApprovedState,
                         a.message, Group, members))
    else None
  }

  function AddGroups(approvers: seq<Approver>, users: map<string, ApproverState>): map<string, ApproverState> {
    if approvers == [] then users
    else
      var last := approvers[|approvers| - 1];
      var rest := AddGroups(approvers[..|approvers| - 1], users);
      if GroupState(last, users.Keys).Some? then rest[last.name := GroupState(last, users.Keys).value] else rest
  }

  /** `currentApprovers`. Both passes key the map by bare name. */
  function Responders(approvers: seq<Approver>): map<string, ApproverState> {
    AddGroups(approvers, UserResponders(approvers))
  }

  /** `responses` lists the values of the map in some order. */
  predicate IsListing(responses: seq<ApproverState>, current: map<string, ApproverState>) {
    multiset(responses) == multiset(current.Values)
  }

  // ---------- decision ----------

  function NextState(spec: Spec, state: State): State {
    if HasReject(spec.approvers) then RejectedState
    else if QuorumReached(spec) then ApprovedState
    else state
  }

  /** The status `updateApprovalState` writes, up to the order of the responses. */
  predicate UpdatesTo(spec: Spec, before: Status, after: Status) {
    && IsListing(after.responses, Responders(spec.approvers))
    && after == before.(state := NextState(spec, before.state), responses := after.responses,
                        approvalsRequired := spec.required,
                        approvalsReceived := |ApprovedUsers(spec.approvers)|)
  }

  datatype Mark = NoMark | MarkSucceeded | MarkFailed

  function MarkOf(state: State): Mark {
    match state
    case RejectedState => MarkFailed
    case ApprovedState => MarkSucceeded
    case _ => NoMark
  }

  /** What one reconcile of a task asks for: a status write, a mark on the run and a delay after
      which to come back. */
  datatype Effect = Effect(write: Option<Status>, mark: Mark, requeue: Option<int>)

  function StartOf(task: Task): int {
    if task.status.startTime.Some? then task.status.startTime.value else task.creation
  }

  /** `ApprovalTaskHasTimedOut`; a zero start time never times out. */
  predicate TimedOut(start: int, timeout: int, now: int) {
    start != 0 && now - start > timeout
  }

  function WaitTime(start: int, timeout: int, now: int): int {
    var wait := timeout - (now - start);
    if wait <= 0 then SECOND else wait
  }

  predicate GateOpen(task: Task) {
    task.hash != Some(Compute(task.spec.approvers))
  }

  /** `checkIfUpdateRequired` once the hash gate is open. */
  predicate UpdatePlans(task: Task, e: Effect) {
    if Responders(task.spec.approvers) == map[] then
      e.write == None && e.mark == MarkOf(task.status.state)
    else
      e.write.Some? && UpdatesTo(task.spec, task.status, e.write.value) && e.mark == MarkOf(e.write.value.state)
  }

  /** The effects `reconcile` can have on a task read from the server; `gated` says whether the
      hash gate is in force. Several effects, because Go ranges over the map in any order. */
  predicate Plans(task: Task, timeout: int, now: int, gated: bool, e: Effect) {
    var started := task.(status := task.status.(startTime := Some(StartOf(task))));
    if TimedOut(StartOf(task), timeout, now) then
      e == Effect(Some(started.status.(state := RejectedState)), MarkFailed, None)
    else
      && e.requeue == Some(WaitTime(StartOf(task), timeout, now))
      && if gated && !GateOpen(task) then e.write == None && e.mark == NoMark
         else UpdatePlans(started, e)
  }

  // ---------- the code ----------

  datatype RunOutcome = Running | Succeeded | Failed

  /** The part of a CustomRun the controller works on. */
  class CustomRun {
    var timeout: Option<int>
    var outcome: RunOutcome

    constructor (timeout: Option<int>)
      ensures this.timeout == timeout && outcome == Running
    {
      this.timeout := timeout;
      outcome := Running;
    }

    function EffectiveTimeout(): int
      reads this
    {
      if timeout.Some? then timeout.value else DEFAULT_TIMEOUT
    }
  }

  function Marked(outcome: RunOutcome, mark: Mark): RunOutcome {
    match mark
    case NoMark => outcome
    case MarkSucceeded => Succeeded
    case MarkFailed => Failed
  }

  /** First pass of `updateApprovalState`. */
  method CollectUsers(approvers: seq<Approver>) returns (current: map<string, ApproverState>)
    ensures current == UserResponders(approvers)
  {
    current := map[];
    for i := 0 to |approvers|
      invariant current == UserResponders(approvers[..i])
    {
      assert approvers[..i + 1][..i] == approvers[..i];
      var approver := approvers[i];
      if (approver.input == Approve || approver.input == Reject) && approver.IsUser() {
        var response := if approver.input == Approve then ApprovedState else RejectedState;
        current := current[approver.name := ApproverState(approver.name, response, approver.message, User, [])];
      }
    }
    assert approvers[..|approvers|] == approvers;
  }

  /** The member loop of the second pass. */
  method CollectMembers(users: seq<UserDetails>, processed: set<string>)
    returns (members: seq<GroupMember>, hasApprovals: bool, hasRejections: bool)
    ensures members == Members(users, processed)
    ensures hasRejections <==> AnyRejection(members)
    ensures hasApprovals || hasRejections <==> members != []
  {
    members, hasApprovals, hasRejections := [], false, false;
    for j := 0 to |users|
      invariant members == Members(users[..j], processed)
      invariant hasRejections <==> AnyRejection(members)
      invariant hasApprovals || hasRejections <==> members != []
    {
      assert users[..j + 1][..j] == users[..j];
      var user := users[j];
      if user.name in processed {
        continue;
      }
      var userResponse := NoState;
      if user.input == Approve {
        userResponse := ApprovedState;
        hasApprovals := true;
      } else if user.input == Reject {
        userResponse := RejectedState;
        hasRejections := true;
      }
      if userResponse != NoState {
        members := members + [GroupMember(user.name, userResponse, user.message)];
      }
    }
    assert users[..|users|] == users;
  }

  /** Second pass of `updateApprovalState`. */
  method CollectGroups(approvers: seq<Approver>, users: map<string, ApproverState>)
    returns (current: map<string, ApproverState>)
    ensures current == AddGroups(approvers, users)
  {
    current := users;
    for i := 0 to |approvers|
      invariant current == AddGroups(approvers[..i], users)
    {
      assert approvers[..i + 1][..i] == approvers[..i];
      var approver := approvers[i];
      if (approver.input == Approve || approver.input == Reject) && approver.IsGroup() {
        var members, hasApprovals, hasRejections := CollectMembers(approver.users, users.Keys);
        var groupResponse := if hasRejections then RejectedState else if hasApprovals then ApprovedState else NoState;
        if groupResponse != NoState {
          var answer := ApproverState(approver.name, groupResponse, approver.message, Group, members);
          current := current[approver.name := answer];
        }
      }
    }
    assert approvers[..|approvers|] == approvers;
  }

  predicate KeyedByName(current: map<string, ApproverState>) {
    forall n :: n in current ==> current[n].name == n
  }

  lemma {:induction false} UserRespondersKeyed(approvers: seq<Approver>)
    ensures KeyedByName(UserResponders(approvers))
  {
    if approvers != [] {
      UserRespondersKeyed(approvers[..|approvers| - 1]);
    }
  }

  lemma {:induction false} AddGroupsKeyed(approvers: seq<Approver>, users: map<string, ApproverState>)
    requires KeyedByName(users)
    ensures KeyedByName(AddGroups(approvers, users))
  {
    if approvers != [] {
      AddGroupsKeyed(approvers[..|approvers| - 1], users);
    }
  }

  lemma RespondersKeyed(approvers: seq<Approver>)
    ensures KeyedByName(Responders(approvers))
  {
    UserRespondersKeyed(approvers);
    AddGroupsKeyed(approvers, UserResponders(approvers));
  }

  /** The range over the map: every entry once, in whatever order. */
  method ListResponses(current: map<string, ApproverState>) returns (responses: seq<ApproverState>)
    requires KeyedByName(current)
    ensures IsListing(responses, current)
  {
    responses := [];
    var names := current.Keys;
    ghost var listed: set<ApproverState> := {};
    while names != {}
      invariant names <= current.Keys
      invariant multiset(responses) == multiset(listed)
      invariant forall r :: r in listed <==> r.name in current && r.name !in names && current[r.name] == r
      decreases names
    {
      var name :| name in names;
      responses := responses + [current[name]];
      listed := listed + {current[name]};
      names := names - {name};
    }
    assert listed == current.Values;
  }

  /** `updateApprovalState`: rewrites the in-memory status and writes it unless nobody responded. */
  method UpdateApprovalState(server: ApiServer, at: TaskObject) returns (ok: bool)
    modifies server, at`status
    ensures old(Responders(at.approvers)) == map[] ==>
      && ok && at.status == old(at.status).(responses := [])
      && server.task == old(server.task) && server.version == old(server.version)
    ensures old(Responders(at.approvers)) != map[] ==>
      && UpdatesTo(old(at.Value()).spec, old(at.status), at.status)
      && (ok <==> at.version == old(server.version))
      && if ok then server.task == old(server.task).(status := at.status) && server.version == old(server.version) + 1
         else server.task == old(server.task) && server.version == old(server.version)
  {
    ghost var before := at.status;
    at.status := at.status.(responses := []);
    var users := CollectUsers(at.approvers);
    var current := CollectGroups(at.approvers, users);
    if |current| == 0 {
      return true;
    }
    RespondersKeyed(at.approvers);
    var responses := ListResponses(current);
    at.status := at.status.(responses := responses);
    var received := CountApprovalsReceived(at.Value().spec);
    at.status := at.status.(approvalsRequired := at.required, approvalsReceived := received);
    var rejected := ApprovalTaskHasFalseInput(at.Value().spec);
    if rejected {
      at.status := at.status.(state := RejectedState);
    } else {
      var approved := ApprovalTaskHasTrueInput(at.Value().spec);
      if approved {
        at.status := at.status.(state := ApprovedState);
      }
    }
    ok := server.UpdateStatus(at);
  }

  /** `checkIfUpdateRequired`, on the copy of the task it is passed. */
  method CheckIfUpdateRequired(server: ApiServer, at: TaskObject, run: CustomRun)
    returns (ok: bool, ghost written: Option<Status>, ghost mark: Mark)
    modifies server, at`status, run`outcome
    ensures if GateOpen(old(at.Value())) then UpdatePlans(old(at.Value()), Effect(written, mark, None))
            else written == None && mark == NoMark
    ensures ok <==> written == None || at.version == old(server.version)
    ensures if written.Some? && ok
            then server.task == old(server.task).(status := written.value) && server.version == old(server.version) + 1
            else server.task == old(server.task) && server.version == old(server.version)
    ensures run.outcome == if ok then Marked(old(run.outcome), mark) else old(run.outcome)
  {
    ok, written, mark := true, None, NoMark;
    if at.hash != Some(Compute(at.approvers)) {
      ok := UpdateApprovalState(server, at);
      if Responders(at.approvers) != map[] {
        written := Some(at.status);
      }
      mark := MarkOf(at.status.state);
      if !ok {
        return;
      }
      match at.status.state {
        case RejectedState =>
          run.outcome := Failed;
        case ApprovedState =>
          run.outcome := Succeeded;
        case _ =>
      }
    }
  }

  /** `reconcile`, from the point where the task has been read. `at` may be stale by now: then a
      status write fails, and the run is left as it is. */
  method Reconcile(server: ApiServer, at: TaskObject, run: CustomRun, now: int)
    returns (ok: bool, requeue: Option<int>, ghost effect: Effect)
    modifies server, at`status, run`outcome
    ensures Plans(old(at.Value()), old(run.EffectiveTimeout()), now, true, effect)
    ensures ok <==> effect.write == None || at.version == old(server.version)
    ensures requeue == if ok then effect.requeue else None
    ensures if effect.write.Some? && ok
            then server.task == old(server.task).(status := effect.write.value)
                 && server.version == old(server.version) + 1
            else server.task == old(server.task) && server.version == old(server.version)
    ensures run.outcome == if ok then Marked(old(run.outcome), effect.mark) else old(run.outcome)
  {
    requeue := None;
    if at.status.startTime == None {
      at.status := at.status.(startTime := Some(at.creation));
    }
    var start := at.status.startTime.value;
    var timeout := run.EffectiveTimeout();
    if start != 0 && now - start > timeout {
      at.status := at.status.(state := RejectedState);
      effect := Effect(Some(at.status), MarkFailed, None);
      ok := server.UpdateStatus(at);
      if ok {
        run.outcome := Failed;
      }
      return;
    }
    var copy := new TaskObject(at.Value(), at.version);
    ghost var written, mark;
    ok, written, mark := CheckIfUpdateRequired(server, copy, run);
    var waitTime := timeout - (now - start);
    if waitTime <= 0 {
      waitTime := SECOND;
    }
    effect := Effect(written, mark, Some(waitTime));
    if ok {
      requeue := Some(waitTime);
    }
  }
}
