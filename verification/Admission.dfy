/** The validating webhook: which create and update requests are let through. */
module Admission {
  import opened ApprovalTypes
  import opened Quorum
  import opened Validation

  /** `request.UserInfo`. */
  datatype Requester = Requester(user: string, groups: seq<string>)

  datatype Operation = Create | Update | OtherOperation

  /** The guard that settled a request. `Crashed` is Go's index-out-of-range panic. */
  datatype Verdict =
    | Allowed
    | InvalidSpec
    | NotPendingOnCreate
    | UnsupportedOperation
    | FinalReached
    | NotListed
    | AlreadyDecided
    | BadInput
    | NotOwnInput
    | Crashed

  /** The outcome of `IsUserApprovalChanged`: (false, nil), (true, nil), (false, err) or a panic. */
  datatype Change = Unchanged | ValidChange | BadChange | ChangeOutOfRange

  /** The outcome of `CheckOtherUsersForInvalidChanges`. */
  datatype Check = Pass | Fail | CheckOutOfRange

  /** The empty string as an input. */
  const NO_INPUT := OtherInput("")

  // ---------- membership ----------

  predicate Carries(a: Approver, req: Requester) {
    a.name in req.groups
  }

  predicate Lists(users: seq<UserDetails>, name: string) {
    exists u :: u in users && u.name == name
  }

  predicate InGroup(a: Approver, req: Requester) {
    Carries(a, req) || Lists(a.users, req.user)
  }

  predicate Speaks(a: Approver, req: Requester) {
    (a.IsUser() && a.name == req.user) || (a.IsGroup() && InGroup(a, req))
  }

  predicate UserExists(approvers: seq<Approver>, req: Requester) {
    approvers == [] || exists a :: a in approvers && Speaks(a, req)
  }

  // ---------- already decided ----------

  /** The input of the first member called `name`. */
  function RosterLookup(users: seq<UserDetails>, name: string): (r: Option<Input>)
    ensures r.Some? <==> Lists(users, name)
    ensures r.Some? ==> exists u :: u in users && u.name == name && u.input == r.value
  {
    if users == [] then None
    else if users[0].name == name then Some(users[0].input)
    else
      assert forall u :: u in users <==> u == users[0] || u in users[1..];
      RosterLookup(users[1..], name)
  }

  /** The input of the first individual entry of `user`; empty when there is none. */
  function IndividualInput(approvers: seq<Approver>, user: string): Input {
    if approvers == [] then NO_INPUT
    else if approvers[0].IsUser() && approvers[0].name == user then approvers[0].input
    else IndividualInput(approvers[1..], user)
  }

  /** What a group entry says for the requester: the roster entry first, then the group level. */
  function GroupEntryInput(a: Approver, req: Requester): Input {
    if !a.IsGroup() then NO_INPUT
    else
      var listed := RosterLookup(a.users, req.user);
      if listed.Some? && listed.value != NO_INPUT then listed.value
      else if Carries(a, req) then a.input
      else NO_INPUT
  }

  function GroupInput(approvers: seq<Approver>, req: Requester): Input {
    if approvers == [] then NO_INPUT
    else if GroupEntryInput(approvers[0], req) != NO_INPUT then GroupEntryInput(approvers[0], req)
    else GroupInput(approvers[1..], req)
  }

  function DesiredInput(approvers: seq<Approver>, req: Requester): Input {
    if IndividualInput(approvers, req.user) != NO_INPUT then IndividualInput(approvers, req.user)
    else GroupInput(approvers, req)
  }

  predicate Blocks(response: State, desired: Input) {
    response.RejectedState? || (response.ApprovedState? && desired.Approve?)
  }

  /** Response `r` records `response` for `user`. */
  predicate Records(r: ApproverState, user: string, response: State) {
    || (Defaulted(r.kind).User? && r.name == user && r.response == response)
    || (Defaulted(r.kind).Group? && exists m :: m in r.members && m.name == user && m.response == response)
  }

  predicate Recorded(responses: seq<ApproverState>, user: string, response: State) {
    exists r :: r in responses && Records(r, user, response)
  }

  /** A recorded rejection blocks everything; a recorded approval blocks approving again. */
  predicate HasAlreadyDecided(responses: seq<ApproverState>, user: string, desired: Input) {
    || Recorded(responses, user, RejectedState)
    || (desired.Approve? && Recorded(responses, user, ApprovedState))
  }

  // ---------- own input changed ----------

  function At(approvers: seq<Approver>, i: nat): Option<Approver> {
    if i < |approvers| then Some(approvers[i]) else None
  }

  function InputChange(before: Input, after: Input): Change {
    if before == after then Unchanged
    else if Decided(after) then ValidChange
    else BadChange
  }

  /** `hasOnlyInputChanged`. */
  function OnlyInputChange(a: Approver, b: Approver): Change {
    if a.name == b.name then InputChange(a.input, b.input) else Unchanged
  }

  /** What one round of the `IsUserApprovalChanged` loop returns; `None` when the loop goes on. */
  function EntryChange(a: Approver, b: Option<Approver>, req: Requester): Option<Change> {
    if a.IsUser() && a.name == req.user then
      Some(if b.None? then ChangeOutOfRange else OnlyInputChange(a, b.value))
    else if !a.IsGroup() || !InGroup(a, req) then
      None
    else if b.Some? && a.input != b.value.input then
      Some(InputChange(a.input, b.value.input))
    else
      var before := RosterLookup(a.users, req.user);
      var after := if b.Some? then RosterLookup(b.value.users, req.user) else None;
      if after.None? || before == after then None
      else Some(if Decided(after.value) then ValidChange else BadChange)
  }

  function OwnChange(stored: seq<Approver>, proposed: seq<Approver>, req: Requester, i: nat): Change
    requires i <= |stored|
    decreases |stored| - i
  {
    if i == |stored| then Unchanged
    else match EntryChange(stored[i], At(proposed, i), req)
      case Some(change) => change
      case None => OwnChange(stored, proposed, req, i + 1)
  }

  // ---------- nobody else's input changed ----------

  /** The name-to-input map a loop over the roster fills; a later entry overwrites an earlier one. */
  function RosterMap(users: seq<UserDetails>): (m: map<string, Input>)
    ensures forall n :: n in m <==> Lists(users, n)
  {
    if users == [] then map[]
    else
      var last := users[|users| - 1];
      assert forall u :: u in users <==> u == last || u in users[..|users| - 1];
      RosterMap(users[..|users| - 1])[last.name := last.input]
  }

  predicate KeptInputs(before: map<string, Input>, after: map<string, Input>, user: string) {
    forall n :: n in before && n != user && n in after ==> before[n] == after[n]
  }

  predicate OnlySelfAdded(before: map<string, Input>, after: map<string, Input>, user: string, member: bool) {
    forall n :: n in after && n !in before ==> n == user && member
  }

  /** One round of the `CheckOtherUsersForInvalidChanges` loop. */
  function EntryCheck(a: Approver, b: Option<Approver>, req: Requester): Check {
    if a.IsUser() && a.name != req.user then
      if b.None? then CheckOutOfRange else if a.input != b.value.input then Fail else Pass
    else if a.IsGroup() then
      var before := RosterMap(a.users);
      var after := RosterMap(if b.Some? then b.value.users else []);
      if !InGroup(a, req) && b.Some? && a.input != b.value.input then Fail
      else if KeptInputs(before, after, req.user) && OnlySelfAdded(before, after, req.user, InGroup(a, req)) then Pass
      else Fail
    else
      Pass
  }

  function OthersCheck(stored: seq<Approver>, proposed: seq<Approver>, req: Requester, i: nat): Check
    requires i <= |stored|
    decreases |stored| - i
  {
    if i == |stored| then Pass
    else if EntryCheck(stored[i], At(proposed, i), req) != Pass then EntryCheck(stored[i], At(proposed, i), req)
    else OthersCheck(stored, proposed, req, i + 1)
  }

  // ---------- the webhook ----------

  function AdmitUpdate(stored: Task, proposed: seq<Approver>, req: Requester): Verdict {
    if Final(stored.status.state) || QuorumReached(stored.spec) then FinalReached
    else if !UserExists(stored.spec.approvers, req) then NotListed
    else if HasAlreadyDecided(stored.status.responses, req.user, DesiredInput(proposed, req)) then AlreadyDecided
    else match OwnChange(stored.spec.approvers, proposed, req, 0)
      case ChangeOutOfRange => Crashed
      case BadChange => BadInput
      case Unchanged => NotOwnInput
      case ValidChange =>
        match OthersCheck(stored.spec.approvers, proposed, req, 0)
        case Pass => Allowed
        case Fail => NotOwnInput
        case CheckOutOfRange => Crashed
  }

  /** `Admit`, from a decoded request. */
  function Admit(operation: Operation, stored: Task, proposed: Spec, req: Requester): Verdict {
    if !LegalSpec(proposed) then InvalidSpec
    else match operation
      case Create => if AllPending(proposed.approvers) then Allowed else NotPendingOnCreate
      case OtherOperation => UnsupportedOperation
      case Update => AdmitUpdate(stored, proposed.approvers, req)
  }

  // ---------- the loops ----------

  /** The search for `name` in a roster that the webhook writes out again and again. */
  method FindUser(users: seq<UserDetails>, name: string) returns (found: Option<Input>)
    ensures found == RosterLookup(users, name)
  {
    var j := 0;
    while j < |users|
      invariant 0 <= j <= |users|
      invariant RosterLookup(users, name) == RosterLookup(users[j..], name)
    {
      if users[j].name == name {
        return Some(users[j].input);
      }
      j := j + 1;
    }
    return None;
  }

  /** `ifUserExists`. */
  method IfUserExists(approvers: seq<Approver>, req: Requester) returns (found: bool)
    ensures found <==> UserExists(approvers, req)
  {
    if |approvers| == 0 {
      return true;
    }
    for i := 0 to |approvers|
      invariant forall k :: 0 <= k < i ==> !Speaks(approvers[k], req)
    {
      var approver := approvers[i];
      match Defaulted(approver.kind) {
        case User =>
          if approver.name == req.user {
            assert approver in approvers && Speaks(approver, req);
            return true;
          }
        case Group =>
          for g := 0 to |req.groups|
            invariant forall k :: 0 <= k < g ==> req.groups[k] != approver.name
          {
            if approver.name == req.groups[g] {
              return true;
            }
          }
          var listed := FindUser(approver.users, req.user);
          if listed.Some? {
            return true;
          }
        case _ =>
      }
    }
    return false;
  }

  /** The desired-input half of `checkIfUserAlreadyDecided`. */
  method FindDesiredInput(approvers: seq<Approver>, req: Requester) returns (desired: Input)
    ensures desired == DesiredInput(approvers, req)
  {
    desired := NO_INPUT;
    var i := 0;
    while i < |approvers|
      invariant 0 <= i <= |approvers|
      invariant desired == NO_INPUT
      invariant IndividualInput(approvers, req.user) == IndividualInput(approvers[i..], req.user)
    {
      if approvers[i].IsUser() && approvers[i].name == req.user {
        desired := approvers[i].input;
        break;
      }
      i := i + 1;
    }
    if desired != NO_INPUT {
      return;
    }
    i := 0;
    while i < |approvers|
      invariant 0 <= i <= |approvers|
      invariant GroupInput(approvers, req) == GroupInput(approvers[i..], req)
    {
      if approvers[i].IsGroup() {
        var listed := FindUser(approvers[i].users, req.user);
        if listed.Some? && listed.value != NO_INPUT {
          return listed.value;
        }
        if approvers[i].name in req.groups && approvers[i].input != NO_INPUT {
          return approvers[i].input;
        }
      }
      i := i + 1;
    }
    return NO_INPUT;
  }

  /** `checkIfUserAlreadyDecided`. */
  method CheckIfUserAlreadyDecided(responses: seq<ApproverState>, proposed: seq<Approver>, req: Requester)
    returns (decided: bool)
    ensures decided <==> HasAlreadyDecided(responses, req.user, DesiredInput(proposed, req))
  {
    var desired := FindDesiredInput(proposed, req);
    for i := 0 to |responses|
      invariant forall k :: 0 <= k < i ==>
        !Records(responses[k], req.user, RejectedState)
        && (desired.Approve? ==> !Records(responses[k], req.user, ApprovedState))
    {
      var r := responses[i];
      if Defaulted(r.kind) == User && r.name == req.user {
        if Blocks(r.response, desired) {
          assert Records(r, req.user, r.response);
          return true;
        }
      }
      if Defaulted(r.kind) == Group {
        for j := 0 to |r.members|
          invariant forall k :: 0 <= k < j && r.members[k].name == req.user ==> !Blocks(r.members[k].response, desired)
        {
          if r.members[j].name == req.user && Blocks(r.members[j].response, desired) {
            assert Records(r, req.user, r.members[j].response);
            return true;
          }
        }
      }
    }
    return false;
  }

  /** `IsUserApprovalChanged`. */
  method IsUserApprovalChanged(stored: seq<Approver>, proposed: seq<Approver>, req: Requester) returns (change: Change)
    ensures change == OwnChange(stored, proposed, req, 0)
  {
    var i := 0;
    while i < |stored|
      invariant 0 <= i <= |stored|
      invariant OwnChange(stored, proposed, req, 0) == OwnChange(stored, proposed, req, i)
    {
      var approver := stored[i];
      if approver.name == req.user && approver.IsUser() {
        if i >= |proposed| {
          return ChangeOutOfRange;
        }
        return OnlyInputChange(approver, proposed[i]);
      }
      if approver.IsGroup() {
        var before := FindUser(approver.users, req.user);
        if approver.name in req.groups || before.Some? {
          if i < |proposed| && approver.input != proposed[i].input {
            return if Decided(proposed[i].input) then ValidChange else BadChange;
          }
          var after := None;
          if i < |proposed| {
            after := FindUser(proposed[i].users, req.user);
          }
          if before.None? && after.Some? {
            return if Decided(after.value) then ValidChange else BadChange;
          }
          if before.Some? && after.Some? && before.value != after.value {
            return if Decided(after.value) then ValidChange else BadChange;
          }
        }
      }
      i := i + 1;
    }
    return Unchanged;
  }

  /** The loops that fill `oldUsers` and `newUsers`. */
  method FillRosterMap(users: seq<UserDetails>) returns (m: map<string, Input>)
    ensures m == RosterMap(users)
  {
    m := map[];
    for j := 0 to |users|
      invariant m == RosterMap(users[..j])
    {
      assert users[..j + 1][..j] == users[..j];
      m := m[users[j].name := users[j].input];
    }
    assert users[..|users|] == users;
  }

  /** The two loops over the maps, in any iteration order. */
  method CompareRosters(before: map<string, Input>, after: map<string, Input>, user: string, member: bool)
    returns (ok: bool)
    ensures ok <==> KeptInputs(before, after, user) && OnlySelfAdded(before, after, user, member)
  {
    var names := before.Keys;
    while names != {}
      invariant names <= before.Keys
      invariant forall n :: n in before && n !in names && n != user && n in after ==> before[n] == after[n]
      decreases names
    {
      var name :| name in names;
      if name != user && name in after && before[name] != after[name] {
        return false;
      }
      names := names - {name};
    }
    names := after.Keys;
    while names != {}
      invariant names <= after.Keys
      invariant forall n :: n in after && n !in names && n !in before ==> n == user && member
      decreases names
    {
      var name :| name in names;
      if name !in before && (name != user || !member) {
        return false;
      }
      names := names - {name};
    }
    return true;
  }

  /** The group part of one round of `CheckOtherUsersForInvalidChanges`. */
  method CheckGroupEntry(approver: Approver, proposed: Option<Approver>, req: Requester) returns (ok: bool)
    requires approver.IsGroup()
    ensures EntryCheck(approver, proposed, req) == if ok then Pass else Fail
  {
    var listed := FindUser(approver.users, req.user);
    var member := approver.name in req.groups || listed.Some?;
    if !member && proposed.Some? && approver.input != proposed.value.input {
      return false;
    }
    var oldUsers := FillRosterMap(approver.users);
    var newUsers := FillRosterMap(if proposed.Some? then proposed.value.users else []);
    ok := CompareRosters(oldUsers, newUsers, req.user, member);
  }

  /** `CheckOtherUsersForInvalidChanges`. */
  method CheckOtherUsersForInvalidChanges(stored: seq<Approver>, proposed: seq<Approver>, req: Requester)
    returns (check: Check)
    ensures check == OthersCheck(stored, proposed, req, 0)
  {
    var i := 0;
    while i < |stored|
      invariant 0 <= i <= |stored|
      invariant OthersCheck(stored, proposed, req, 0) == OthersCheck(stored, proposed, req, i)
    {
      var approver := stored[i];
      if approver.IsUser() && approver.name != req.user {
        if i >= |proposed| {
          return CheckOutOfRange;
        }
        if approver.input != proposed[i].input {
          return Fail;
        }
      }
      if approver.IsGroup() {
        var ok := CheckGroupEntry(approver, At(proposed, i), req);
        if !ok {
          return Fail;
        }
      }
      assert EntryCheck(stored[i], At(proposed, i), req) == Pass;
      i := i + 1;
    }
    return Pass;
  }

  /** `Admit`: the guards in the order the webhook runs them. */
  method AdmitRequest(operation: Operation, stored: Task, proposed: Spec, req: Requester) returns (verdict: Verdict)
    ensures verdict == Admit(operation, stored, proposed, req)
  {
    var legal := ValidateApprovalTaskSpec(proposed);
    if !legal {
      return InvalidSpec;
    }
    if operation == Create {
      var pending := ValidateApproverInputsForCreate(proposed.approvers);
      return if pending then Allowed else NotPendingOnCreate;
    }
    if operation != Update {
      return UnsupportedOperation;
    }
    var required := IsApprovalRequired(stored);
    if !required {
      return FinalReached;
    }
    var listed := IfUserExists(stored.spec.approvers, req);
    if !listed {
      return NotListed;
    }
    var decided := CheckIfUserAlreadyDecided(stored.status.responses, proposed.approvers, req);
    if decided {
      return AlreadyDecided;
    }
    var change := IsUserApprovalChanged(stored.spec.approvers, proposed.approvers, req);
    if change == ChangeOutOfRange {
      return Crashed;
    } else if change == BadChange {
      return BadInput;
    } else if change == Unchanged {
      return NotOwnInput;
    }
    var check := CheckOtherUsersForInvalidChanges(stored.spec.approvers, proposed.approvers, req);
    return match check case Pass => Allowed case Fail => NotOwnInput case CheckOutOfRange => Crashed;
  }
}
