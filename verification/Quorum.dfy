/** The quorum rule. The repository writes it three times: in the webhook's finality guard and in
    the controller's `approvalTaskHasTrueInput` and `countApprovalsReceived`. All three loops are
    proved to count one and the same set of users. */
module Quorum {
  import opened ApprovalTypes

  /** Entry `a` makes `n` count as an approving user. A member of a group counts only while the
      group-level input reads approve too. */
  predicate Approves(a: Approver, n: string) {
    && a.input.Approve?
    && ((a.IsUser() && a.name == n)
        || (a.IsGroup() && exists u :: u in a.users && u.name == n && u.input.Approve?))
  }

  function RosterApprovals(users: seq<UserDetails>): set<string> {
    set u | u in users && u.input.Approve? :: u.name
  }

  function EntryApprovals(a: Approver): (r: set<string>)
    ensures forall n :: n in r <==> Approves(a, n)
  {
    if !a.input.Approve? then {}
    else if a.IsUser() then {a.name}
    else if a.IsGroup() then RosterApprovals(a.users)
    else {}
  }

  /** The distinct users that have approved. */
  function ApprovedUsers(approvers: seq<Approver>): (r: set<string>)
    ensures forall n :: n in r <==> exists a :: a in approvers && Approves(a, n)
  {
    var names := set a, n | a in approvers && n in EntryApprovals(a) :: n;
    assert forall n :: n in names <==> exists a :: a in approvers && n in EntryApprovals(a);
    names
  }

  predicate HasReject(approvers: seq<Approver>) {
    exists a :: a in approvers && a.input.Reject?
  }

  predicate QuorumReached(spec: Spec) {
    |ApprovedUsers(spec.approvers)| >= spec.required
  }

  lemma ApprovedUsersExtend(approvers: seq<Approver>, i: nat)
    requires i < |approvers|
    ensures ApprovedUsers(approvers[..i + 1]) == ApprovedUsers(approvers[..i]) + EntryApprovals(approvers[i])
  {
  }

  lemma RosterApprovalsExtend(users: seq<UserDetails>, j: nat)
    requires j < |users|
    ensures RosterApprovals(users[..j + 1])
         == RosterApprovals(users[..j]) + (if users[j].input.Approve? then {users[j].name} else {})
  {
  }

  /** The loop body all three counting loops share: the names one approver adds to the map. */
  method AddApprovals(approver: Approver, approved: map<string, bool>) returns (r: map<string, bool>)
    ensures r.Keys == approved.Keys + EntryApprovals(approver)
  {
    r := approved;
    if !approver.input.Approve? {
      return;
    }
    if approver.IsUser() {
      r := r[approver.name := true];
    } else if approver.IsGroup() {
      var j := 0;
      while j < |approver.users|
        invariant 0 <= j <= |approver.users|
        invariant r.Keys == approved.Keys + RosterApprovals(approver.users[..j])
      {
        RosterApprovalsExtend(approver.users, j);
        var user := approver.users[j];
        if user.input.Approve? {
          r := r[user.name := true];
        }
        j := j + 1;
      }
      assert approver.users[..j] == approver.users;
    }
  }

  /** `countApprovalsReceived`. */
  method CountApprovalsReceived(spec: Spec) returns (count: nat)
    ensures count == |ApprovedUsers(spec.approvers)|
  {
    var approved: map<string, bool> := map[];
    var i := 0;
    while i < |spec.approvers|
      invariant 0 <= i <= |spec.approvers|
      invariant approved.Keys == ApprovedUsers(spec.approvers[..i])
    {
      ApprovedUsersExtend(spec.approvers, i);
      approved := AddApprovals(spec.approvers[i], approved);
      i := i + 1;
    }
    assert spec.approvers[..i] == spec.approvers;
    count := |approved|;
  }

  /** `approvalTaskHasTrueInput`. */
  method ApprovalTaskHasTrueInput(spec: Spec) returns (reached: bool)
    ensures reached <==> QuorumReached(spec)
  {
    var approved: map<string, bool> := map[];
    for i := 0 to |spec.approvers|
      invariant approved.Keys == ApprovedUsers(spec.approvers[..i])
    {
      ApprovedUsersExtend(spec.approvers, i);
      approved := AddApprovals(spec.approvers[i], approved);
    }
    assert spec.approvers[..|spec.approvers|] == spec.approvers;
    reached := |approved| >= spec.required;
  }

  /** `approvalTaskHasFalseInput`: only the top-level inputs are read. */
  method ApprovalTaskHasFalseInput(spec: Spec) returns (found: bool)
    ensures found <==> HasReject(spec.approvers)
  {
    for i := 0 to |spec.approvers|
      invariant !HasReject(spec.approvers[..i])
    {
      assert spec.approvers[..i + 1] == spec.approvers[..i] + [spec.approvers[i]];
      if spec.approvers[i].input.Reject? {
        return true;
      }
    }
    assert spec.approvers[..|spec.approvers|] == spec.approvers;
    return false;
  }

  /** `isApprovalRequired`: the task is neither final nor already at its quorum. */
  method IsApprovalRequired(task: Task) returns (open: bool)
    ensures open <==> !Final(task.status.state) && !QuorumReached(task.spec)
  {
    if task.status.state == RejectedState || task.status.state == ApprovedState {
      return false;
    }
    var approved: map<string, bool> := map[];
    for i := 0 to |task.spec.approvers|
      invariant approved.Keys == ApprovedUsers(task.spec.approvers[..i])
    {
      ApprovedUsersExtend(task.spec.approvers, i);
      approved := AddApprovals(task.spec.approvers[i], approved);
    }
    assert task.spec.approvers[..|task.spec.approvers|] == task.spec.approvers;
    return |approved| < task.spec.required;
  }
}
