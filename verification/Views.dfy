/** What `list` and `describe` print of a task, computed from its status. */
module Views {
  import opened ApprovalTypes
  import opened Quorum
  import opened Validation
  import opened Admission
  import opened Controller
  import opened ControllerLaws
  import opened Protocol
  import opened CliRuns

  // ---------- list ----------

  predicate Responded(m: GroupMember) {
    m.response.ApprovedState? || m.response.RejectedState?
  }

  function EntryRespondents(r: ApproverState): set<string> {
    if Defaulted(r.kind).User? then {r.name}
    else if Defaulted(r.kind).Group? then set m | m in r.members && Responded(m) :: m.name
    else {}
  }

  /** Everybody the responses name as having answered. */
  function Respondents(responses: seq<ApproverState>): set<string> {
    set r, n | r in responses && n in EntryRespondents(r) :: n
  }

  lemma RespondentsExtend(responses: seq<ApproverState>, i: nat)
    requires i < |responses|
    ensures Respondents(responses[..i + 1]) == Respondents(responses[..i]) + EntryRespondents(responses[i])
  {
  }

  /** `pendingApprovals`. */
  method PendingApprovals(required: int, responses: seq<ApproverState>) returns (pending: int)
    ensures pending == required - |Respondents(responses)|
  {
    var respondedUsers: map<string, bool> := map[];
    for i := 0 to |responses|
      invariant respondedUsers.Keys == Respondents(responses[..i])
    {
      RespondentsExtend(responses, i);
      var r := responses[i];
      if Defaulted(r.kind) == User {
        respondedUsers := respondedUsers[r.name := true];
      } else if Defaulted(r.kind) == Group {
        ghost var before := respondedUsers.Keys;
        for j := 0 to |r.members|
          invariant respondedUsers.Keys == before + set m | m in r.members[..j] && Responded(m) :: m.name
        {
          assert r.members[..j + 1] == r.members[..j] + [r.members[j]];
          if Responded(r.members[j]) {
            respondedUsers := respondedUsers[r.members[j].name := true];
          }
        }
        assert r.members[..|r.members|] == r.members;
      }
    }
    assert responses[..|responses|] == responses;
    return required - |respondedUsers|;
  }

  function RejectedMembers(members: seq<GroupMember>): set<string> {
    set m | m in members && m.response.RejectedState? :: m.name
  }

  lemma RejectedMembersExtend(members: seq<GroupMember>, j: nat)
    requires j < |members|
    ensures RejectedMembers(members[..j + 1])
         == RejectedMembers(members[..j]) + if members[j].response.RejectedState? then {members[j].name} else {}
  {
  }

  function EntryRejections(r: ApproverState): (names: set<string>)
    ensures forall n :: n in names <==> Records(r, n, RejectedState)
  {
    if Defaulted(r.kind).User? then (if r.response.RejectedState? then {r.name} else {})
    else if Defaulted(r.kind).Group? then RejectedMembers(r.members)
    else {}
  }

  lemma RejectionsExtend(responses: seq<ApproverState>, i: nat)
    requires i < |responses|
    ensures ShownUsers(responses[..i + 1], RejectedState)
         == ShownUsers(responses[..i], RejectedState) + EntryRejections(responses[i])
  {
  }

  /** The guarded insertion and increment that `rejected` repeats: the counter stays the size of
      the map. */
  method CountOnce(name: string, rejectedUsers: map<string, bool>, count: nat)
    returns (r: map<string, bool>, n: nat)
    requires count == |rejectedUsers.Keys|
    ensures r.Keys == rejectedUsers.Keys + {name} && n == |r.Keys|
  {
    if name in rejectedUsers {
      assert rejectedUsers.Keys + {name} == rejectedUsers.Keys;
      return rejectedUsers, count;
    }
    r, n := rejectedUsers[name := true], count + 1;
    assert r.Keys == rejectedUsers.Keys + {name};
  }

  /** `rejected`: distinct users, counted as they are met. */
  method RejectedCount(responses: seq<ApproverState>) returns (count: nat)
    ensures count == |ShownUsers(responses, RejectedState)|
  {
    count := 0;
    var rejectedUsers: map<string, bool> := map[];
    for i := 0 to |responses|
      invariant forall k :: k in rejectedUsers <==> k in ShownUsers(responses[..i], RejectedState)
      invariant count == |rejectedUsers.Keys|
    {
      RejectionsExtend(responses, i);
      var r := responses[i];
      if Defaulted(r.kind) == User && r.response == RejectedState {
        rejectedUsers, count := CountOnce(r.name, rejectedUsers, count);
      } else if Defaulted(r.kind) == Group {
        rejectedUsers, count := CountMembers(r.members, rejectedUsers, count);
      }
    }
    assert responses[..|responses|] == responses;
    assert rejectedUsers.Keys == ShownUsers(responses, RejectedState);
  }

  /** The member loop of `rejected`. */
  method CountMembers(members: seq<GroupMember>, rejectedUsers: map<string, bool>, count: nat)
    returns (r: map<string, bool>, n: nat)
    requires count == |rejectedUsers.Keys|
    ensures r.Keys == rejectedUsers.Keys + RejectedMembers(members) && n == |r.Keys|
  {
    r, n := rejectedUsers, count;
    for j := 0 to |members|
      invariant forall k :: k in r <==> k in rejectedUsers || k in RejectedMembers(members[..j])
      invariant n == |r.Keys|
    {
      RejectedMembersExtend(members, j);
      if members[j].response == RejectedState {
        r, n := CountOnce(members[j].name, r, n);
      }
    }
    assert members[..|members|] == members;
  }

  lemma NobodyShownRejected(approvers: seq<Approver>, responses: seq<ApproverState>)
    requires RejectFree(approvers) && IsListing(responses, Responders(approvers))
    ensures ShownUsers(responses, RejectedState) == {}
  {
    forall n
      ensures !Recorded(responses, n, RejectedState)
    {
      if Recorded(responses, n, RejectedState) {
        RecordedIsShown(approvers, responses, n, RejectedState);
      }
    }
  }

  /** Everybody the controller lists has answered one way or the other. */
  lemma RespondentsAreShown(approvers: seq<Approver>, responses: seq<ApproverState>)
    requires IsListing(responses, Responders(approvers))
    ensures Respondents(responses) == ShownUsers(responses, ApprovedState) + ShownUsers(responses, RejectedState)
  {
    var current := Responders(approvers);
    forall r | r in responses
      ensures forall n :: n in EntryRespondents(r) <==> Records(r, n, ApprovedState) || Records(r, n, RejectedState)
    {
      ListingMembers(responses, current, r);
      var k :| k in current && current[k] == r;
      RespondersSound(approvers, k);
      var a :| StemsFrom(approvers, a, r);
    }
  }

  /** The views agree with the controller: in a client run without rejections, right after a reconcile
      before the deadline, `list` shows no rejection and never less pending than the quorum lacks,
      nor less than nothing; and it shows exactly what the quorum lacks if and only if no answering
      group bears the name of an approving individual. */
  lemma ViewsAgree(timeout: int, ss: seq<System>, es: seq<Event>, i: nat, e: Effect)
    requires IsCliRun(timeout, ss, es) && NoRejects(es) && i < |ss|
    requires Plans(ss[i].task, timeout, ss[i].clock, true, e) && !Overdue(timeout, ss[i])
    ensures var task := Reconciled(ss[i].task, e);
            && |Respondents(task.status.responses)| <= |ApprovedUsers(task.spec.approvers)| <= task.spec.required
            && (|Respondents(task.status.responses)| == |ApprovedUsers(task.spec.approvers)|
                <==> !ApprovalHidden(task.spec.approvers))
            && |ShownUsers(task.status.responses, RejectedState)| == 0
    ensures DistinctNames(ss[0].task.spec.approvers) ==> !ApprovalHidden(ss[i].task.spec.approvers)
  {
    RejectFreeRun(timeout, ss, es, i);
    RunInv(timeout, ss, es, i);
    ReconcileListsOrNothing(timeout, ss, es, i, e);
    if e.write.Some? {
      PlannedRespondents(ss[i].task, timeout, ss[i].clock, e);
    } else {
      NothingHidden(ss[i].task.spec.approvers);
    }
    if DistinctNames(ss[0].task.spec.approvers) {
      NamesStayDistinct(timeout, ss, es, i);
      DistinctNamesHideNothing(ss[i].task.spec.approvers);
    }
  }

  lemma PlannedRespondents(task: Task, timeout: int, now: int, e: Effect)
    requires LegalSpec(task.spec) && RejectFree(task.spec.approvers) && e.write.Some?
    requires Plans(task, timeout, now, true, e) && !TimedOut(StartOf(task), timeout, now)
    ensures var responses := e.write.value.responses;
            && |Respondents(responses)| <= |ApprovedUsers(task.spec.approvers)|
            && (|Respondents(responses)| == |ApprovedUsers(task.spec.approvers)|
                <==> !ApprovalHidden(task.spec.approvers))
            && ShownUsers(responses, RejectedState) == {}
  {
    RespondentsAreApproved(task.spec, task.status.(startTime := Some(StartOf(task))), e.write.value);
  }

  lemma NothingHidden(approvers: seq<Approver>)
    requires ApprovedUsers(approvers) == {}
    ensures !ApprovalHidden(approvers)
  {
    forall u | u in approvers
      ensures !HidesApproval(approvers, u)
    {
      assert Approves(u, u.name) ==> u.name in ApprovedUsers(approvers);
    }
  }

  lemma DistinctNamesHideNothing(approvers: seq<Approver>)
    requires DistinctNames(approvers)
    ensures !ApprovalHidden(approvers)
  {
    forall u | u in approvers
      ensures !HidesApproval(approvers, u)
    {
      forall g | g in approvers && g.name == u.name
        ensures g == u
      {
      }
    }
  }

  lemma NoMoreShownThanApproved(approvers: seq<Approver>, responses: seq<ApproverState>)
    requires RejectFree(approvers) && IsListing(responses, Responders(approvers))
    ensures |ShownUsers(responses, ApprovedState)| <= |ApprovedUsers(approvers)|
  {
    var shown, approved := ShownUsers(responses, ApprovedState), ApprovedUsers(approvers);
    forall n | n in shown
      ensures n in approved
    {
      ShownIsApproved(approvers, responses, n);
    }
    assert approved == shown + (approved - shown);
  }

  lemma RespondentsAreApproved(spec: Spec, before: Status, after: Status)
    requires LegalSpec(spec) && RejectFree(spec.approvers) && UpdatesTo(spec, before, after)
    ensures |Respondents(after.responses)| <= |ApprovedUsers(spec.approvers)|
    ensures |Respondents(after.responses)| == |ApprovedUsers(spec.approvers)| <==> !ApprovalHidden(spec.approvers)
    ensures ShownUsers(after.responses, RejectedState) == {}
  {
    NobodyShownRejected(spec.approvers, after.responses);
    RespondentsAreShown(spec.approvers, after.responses);
    assert Respondents(after.responses) == ShownUsers(after.responses, ApprovedState);
    ApprovalsAreShownExactly(spec, before, after);
    NoMoreShownThanApproved(spec.approvers, after.responses);
  }

  lemma ReconcileListsOrNothing(timeout: int, ss: seq<System>, es: seq<Event>, i: nat, e: Effect)
    requires IsCliRun(timeout, ss, es) && i < |ss|
    requires Plans(ss[i].task, timeout, ss[i].clock, true, e) && !Overdue(timeout, ss[i])
    ensures if e.write.Some? then IsListing(e.write.value.responses, Responders(ss[i].task.spec.approvers))
            else ss[i].task.status.responses == [] && ApprovedUsers(ss[i].task.spec.approvers) == {}
  {
    RunInv(timeout, ss, es, i);
    CliRunInv(timeout, ss, es, i);
    GuardExactly(ss[i].task.spec.approvers);
    if e.write == None {
      if ss[i].task.spec.approvers == ss[0].task.spec.approvers {
        PendingListIsUndecided(ss[i].task.spec);
      }
      ApprovalIsAnAnswer(ss[i].task.spec.approvers);
    }
  }

  // ---------- describe ----------

  datatype UserGroupInfo = UserGroupInfo(groups: seq<string>, groupsStr: string, response: State, message: string)

  /** One group name per membership of `n` in `members`. */
  function GroupsIn(group: string, members: seq<GroupMember>, n: string): seq<string> {
    if members == [] then []
    else
      var last := members[|members| - 1];
      GroupsIn(group, members[..|members| - 1], n) + if last.name == n then [group] else []
  }

  /** The groups that list `n`, in response order. */
  function GroupsOf(responses: seq<ApproverState>, n: string): seq<string> {
    if responses == [] then []
    else
      var last := responses[|responses| - 1];
      GroupsOf(responses[..|responses| - 1], n) + if last.kind.Group? then GroupsIn(last.name, last.members, n) else []
  }

  function FirstIn(members: seq<GroupMember>, n: string): Option<GroupMember> {
    if members == [] then None
    else
      var last := members[|members| - 1];
      var before := FirstIn(members[..|members| - 1], n);
      if before == None && last.name == n then Some(last) else before
  }

  /** The first membership of `n`, in response order. */
  function FirstMembership(responses: seq<ApproverState>, n: string): Option<GroupMember> {
    if responses == [] then None
    else
      var last := responses[|responses| - 1];
      var before := FirstMembership(responses[..|responses| - 1], n);
      if before == None && last.kind.Group? then FirstIn(last.members, n) else before
  }

  function Join(groups: seq<string>): string {
    if groups == [] then ""
    else if |groups| == 1 then groups[0]
    else Join(groups[..|groups| - 1]) + ", " + groups[|groups| - 1]
  }

  function MemberEntries(responses: seq<ApproverState>): nat {
    if responses == [] then 0
    else
      var last := responses[|responses| - 1];
      MemberEntries(responses[..|responses| - 1]) + if last.kind.Group? then |last.members| else 0
  }

  /** The lengths of all the group lists together. */
  ghost function Memberships(m: map<string, UserGroupInfo>): nat
    decreases |m|
  {
    if m == map[] then 0
    else
      var k :| k in m;
      |m[k].groups| + Memberships(m - {k})
  }

  lemma {:induction false} MembershipsWithout(m: map<string, UserGroupInfo>, k: string)
    requires k in m
    ensures Memberships(m) == |m[k].groups| + Memberships(m - {k})
    decreases |m|
  {
    var j :| j in m && Memberships(m) == |m[j].groups| + Memberships(m - {j});
    if j != k {
      MembershipsWithout(m - {j}, k);
      MembershipsWithout(m - {k}, j);
      assert m - {j} - {k} == m - {k} - {j};
    }
  }

  lemma MembershipsUpdate(m: map<string, UserGroupInfo>, k: string, info: UserGroupInfo)
    ensures Memberships(m[k := info]) == Memberships(m) - (if k in m then |m[k].groups| else 0) + |info.groups|
  {
    var updated := m[k := info];
    MembershipsWithout(updated, k);
    assert updated - {k} == m - {k};
    if k in m {
      MembershipsWithout(m, k);
    } else {
      assert m - {k} == m;
    }
  }

  /** The groups of `n` with the response and message of the first membership. */
  predicate ShowsMembership(info: UserGroupInfo, responses: seq<ApproverState>, n: string)
    requires FirstMembership(responses, n).Some?
  {
    var first := FirstMembership(responses, n).value;
    info.groups == GroupsOf(responses, n) && info.response == first.response && info.message == first.message
  }

  /** The map inverts the responses: a user is a key exactly when listed, with the groups listing
      them, and no membership is lost or made up. */
  ghost predicate Transposed(m: map<string, UserGroupInfo>, responses: seq<ApproverState>) {
    && (forall n :: TransposedAt(m, responses, n))
    && Memberships(m) == MemberEntries(responses)
  }

  predicate TransposedAt(m: map<string, UserGroupInfo>, responses: seq<ApproverState>, n: string) {
    && (n in m <==> GroupsOf(responses, n) != [])
    && (n in m <==> FirstMembership(responses, n).Some?)
    && (n in m ==> ShowsMembership(m[n], responses, n))
  }

  /** A response cut off after its first `j` members. */
  function Partial(r: ApproverState, j: nat): ApproverState
    requires j <= |r.members|
  {
    r.(members := r.members[..j])
  }

  lemma PartialExtend(done: seq<ApproverState>, r: ApproverState, j: nat, n: string)
    requires j < |r.members| && r.kind.Group?
    ensures GroupsOf(done + [Partial(r, j + 1)], n)
         == GroupsOf(done + [Partial(r, j)], n) + if r.members[j].name == n then [r.name] else []
    ensures MemberEntries(done + [Partial(r, j + 1)]) == MemberEntries(done + [Partial(r, j)]) + 1
    ensures FirstMembership(done + [Partial(r, j + 1)], n)
         == if FirstMembership(done + [Partial(r, j)], n) == None && r.members[j].name == n
            then Some(r.members[j]) else FirstMembership(done + [Partial(r, j)], n)
  {
    assert r.members[..j + 1][..j] == r.members[..j];
    assert (done + [Partial(r, j)])[..|done|] == done;
    assert (done + [Partial(r, j + 1)])[..|done|] == done;
  }

  function AddedInfo(m: map<string, UserGroupInfo>, group: string, member: GroupMember): UserGroupInfo {
    if member.name in m
    then m[member.name].(groups := m[member.name].groups + [group])
    else UserGroupInfo([group], "", member.response, member.message)
  }

  lemma AddMemberAt(m: map<string, UserGroupInfo>, r: ApproverState, j: nat, done: seq<ApproverState>, n: string)
    requires j < |r.members| && r.kind.Group?
    requires TransposedAt(m, done + [Partial(r, j)], n)
    ensures TransposedAt(m[r.members[j].name := AddedInfo(m, r.name, r.members[j])], done + [Partial(r, j + 1)], n)
  {
    PartialExtend(done, r, j, n);
  }

  /** The body of the first loop of `userGroups`, for member `j` of one group response. */
  method AddMember(m: map<string, UserGroupInfo>, r: ApproverState, j: nat, ghost done: seq<ApproverState>)
    returns (m': map<string, UserGroupInfo>)
    requires j < |r.members| && r.kind.Group?
    requires Transposed(m, done + [Partial(r, j)])
    ensures Transposed(m', done + [Partial(r, j + 1)])
  {
    var member := r.members[j];
    if member.name in m {
      var existing := m[member.name];
      existing := existing.(groups := existing.groups + [r.name]);
      m' := m[member.name := existing];
    } else {
      m' := m[member.name := UserGroupInfo([r.name], "", member.response, member.message)];
    }
    MembershipsUpdate(m, member.name, AddedInfo(m, r.name, member));
    PartialExtend(done, r, j, member.name);
    assert TransposedAt(m, done + [Partial(r, j)], member.name);
    ghost var next := done + [Partial(r, j + 1)];
    forall n
      ensures TransposedAt(m', next, n)
    {
      AddMemberAt(m, r, j, done, n);
    }
  }

  predicate SameMemberships(xs: seq<ApproverState>, ys: seq<ApproverState>, n: string) {
    && GroupsOf(xs, n) == GroupsOf(ys, n)
    && FirstMembership(xs, n) == FirstMembership(ys, n)
    && MemberEntries(xs) == MemberEntries(ys)
  }

  lemma StartPartial(done: seq<ApproverState>, r: ApproverState, n: string)
    ensures SameMemberships(done + [Partial(r, 0)], done, n)
    ensures !r.kind.Group? ==> SameMemberships(done + [r], done, n)
  {
  }

  method JoinGroups(groups: seq<string>) returns (s: string)
    ensures s == Join(groups)
  {
    s := "";
    for i := 0 to |groups|
      invariant s == Join(groups[..i])
    {
      assert groups[..i + 1][..i] == groups[..i];
      if i > 0 {
        s := s + ", ";
      }
      s := s + groups[i];
    }
    assert groups[..|groups|] == groups;
  }

  lemma StartTransposed(m: map<string, UserGroupInfo>, done: seq<ApproverState>, r: ApproverState)
    requires Transposed(m, done)
    ensures Transposed(m, done + [Partial(r, 0)])
    ensures !r.kind.Group? ==> Transposed(m, done + [r])
  {
    StartPartial(done, r, "");
    forall n
      ensures TransposedAt(m, done + [Partial(r, 0)], n)
      ensures !r.kind.Group? ==> TransposedAt(m, done + [r], n)
    {
      StartPartial(done, r, n);
      assert TransposedAt(m, done, n);
    }
  }

  /** The first loop of `userGroups`. */
  method GroupByUser(responses: seq<ApproverState>) returns (userMap: map<string, UserGroupInfo>)
    ensures Transposed(userMap, responses)
  {
    userMap := map[];
    for i := 0 to |responses|
      invariant Transposed(userMap, responses[..i])
    {
      var r := responses[i];
      ghost var done := responses[..i];
      assert responses[..i + 1] == done + [r];
      StartTransposed(userMap, done, r);
      if r.kind == Group {
        for j := 0 to |r.members|
          invariant Transposed(userMap, done + [Partial(r, j)])
        {
          userMap := AddMember(userMap, r, j, done);
        }
        assert r.members[..|r.members|] == r.members;
      }
    }
    assert responses[..|responses|] == responses;
  }

  lemma GroupsStrKeepsTransposed(m: map<string, UserGroupInfo>, responses: seq<ApproverState>,
                                 name: string, text: string)
    requires Transposed(m, responses) && name in m
    ensures Transposed(m[name := m[name].(groupsStr := text)], responses)
  {
    MembershipsUpdate(m, name, m[name].(groupsStr := text));
    var m' := m[name := m[name].(groupsStr := text)];
    forall n
      ensures TransposedAt(m', responses, n)
    {
      assert TransposedAt(m, responses, n);
    }
  }

  /** `userGroups` turns group-to-members into user-to-groups. */
  method UserGroups(responses: seq<ApproverState>) returns (userMap: map<string, UserGroupInfo>)
    ensures forall n :: n in userMap <==> GroupsOf(responses, n) != []
    ensures forall n :: n in userMap ==>
              && FirstMembership(responses, n).Some? && ShowsMembership(userMap[n], responses, n)
              && userMap[n].groupsStr == Join(userMap[n].groups)
    ensures Memberships(userMap) == MemberEntries(responses)
  {
    userMap := GroupByUser(responses);
    var names := userMap.Keys;
    while names != {}
      invariant names <= userMap.Keys
      invariant Transposed(userMap, responses)
      invariant forall n :: n in userMap && n !in names ==> userMap[n].groupsStr == Join(userMap[n].groups)
      decreases names
    {
      var name :| name in names;
      var groupsStr := JoinGroups(userMap[name].groups);
      GroupsStrKeepsTransposed(userMap, responses, name, groupsStr);
      userMap := userMap[name := userMap[name].(groupsStr := groupsStr)];
      names := names - {name};
    }
    forall n
      ensures n in userMap <==> GroupsOf(responses, n) != []
      ensures n in userMap ==> FirstMembership(responses, n).Some? && ShowsMembership(userMap[n], responses, n)
    {
      assert TransposedAt(userMap, responses, n);
    }
  }

  predicate HasMember(members: seq<GroupMember>, n: string) {
    exists m :: m in members && m.name == n
  }

  predicate ListsMember(r: ApproverState, n: string) {
    r.kind.Group? && HasMember(r.members, n)
  }

  predicate DistinctMemberNames(members: seq<GroupMember>) {
    forall i, j :: 0 <= i < j < |members| ==> members[i].name != members[j].name
  }

  function ListingGroups(responses: seq<ApproverState>, n: string): seq<string> {
    if responses == [] then []
    else
      var last := responses[|responses| - 1];
      ListingGroups(responses[..|responses| - 1], n) + if ListsMember(last, n) then [last.name] else []
  }

  lemma LastIsNew(members: seq<GroupMember>)
    requires members != [] && DistinctMemberNames(members)
    ensures !HasMember(members[..|members| - 1], members[|members| - 1].name)
  {
  }

  lemma HasMemberExtends(members: seq<GroupMember>, n: string)
    requires members != []
    ensures HasMember(members, n) <==> HasMember(members[..|members| - 1], n) || members[|members| - 1].name == n
  {
    assert members == members[..|members| - 1] + [members[|members| - 1]];
  }

  lemma {:induction false} GroupsInDistinct(group: string, members: seq<GroupMember>, n: string)
    requires DistinctMemberNames(members)
    ensures GroupsIn(group, members, n) == if HasMember(members, n) then [group] else []
  {
    if members != [] {
      GroupsInDistinct(group, members[..|members| - 1], n);
      HasMemberExtends(members, n);
      LastIsNew(members);
    }
  }

  /** When no group lists anyone twice, a user's groups are the names of the group responses that
      list them, in response order. */
  lemma {:induction false} GroupsAreTheListingOnes(responses: seq<ApproverState>, n: string)
    requires forall r :: r in responses ==> DistinctMemberNames(r.members)
    ensures GroupsOf(responses, n) == ListingGroups(responses, n)
  {
    if responses != [] {
      GroupsAreTheListingOnes(responses[..|responses| - 1], n);
      GroupsInDistinct(responses[|responses| - 1].name, responses[|responses| - 1].members, n);
    }
  }

  // ---------- statuses the controller writes ----------

  predicate NobodyTwice(responses: seq<ApproverState>) {
    forall r :: r in responses ==> DistinctMemberNames(r.members)
  }

  lemma {:induction false} MembersStayDistinct(users: seq<UserDetails>, processed: set<string>)
    requires DistinctMembers(users)
    ensures DistinctMemberNames(Members(users, processed))
  {
    if users != [] {
      var init, last := users[..|users| - 1], users[|users| - 1];
      MembersStayDistinct(init, processed);
      MembersExactly(init, processed);
      forall m | m in Members(init, processed)
        ensures m.name != last.name
      {
        var k :| 0 <= k < |init| && init[k].name == m.name;
        assert users[k].name != users[|users| - 1].name;
      }
    }
  }

  lemma ListingHasNobodyTwice(spec: Spec, responses: seq<ApproverState>)
    requires LegalSpec(spec) && IsListing(responses, Responders(spec.approvers))
    ensures NobodyTwice(responses)
  {
    forall r | r in responses
      ensures DistinctMemberNames(r.members)
    {
      ListingMembers(responses, Responders(spec.approvers), r);
      var k :| k in Responders(spec.approvers) && Responders(spec.approvers)[k] == r;
      RespondersSound(spec.approvers, k);
      var a :| StemsFrom(spec.approvers, a, r);
      assert LegalApprover(a);
      if a.IsGroup() {
        MembersStayDistinct(a.users, UserResponders(spec.approvers).Keys);
      }
    }
  }

  /** No status in the store or about to be written lists anyone twice in one group. */
  predicate ResponsesInv(s: System) {
    && NobodyTwice(s.task.status.responses)
    && (s.phase.Planned? && s.phase.effect.write.Some? ==> NobodyTwice(s.phase.effect.write.value.responses))
  }

  lemma ResponsesInvIsKept(timeout: int, s: System, e: Event, t: System)
    requires LegalSpec(s.task.spec) && Next(timeout, s, e, t) && ResponsesInv(s)
    ensures ResponsesInv(t)
  {
    if e.Read? && e.effect.write.Some? && !TimedOut(StartOf(s.task), timeout, s.clock) {
      ListingHasNobodyTwice(s.task.spec, e.effect.write.value.responses);
    }
  }

  lemma {:induction false} ResponsesRunInv(timeout: int, ss: seq<System>, es: seq<Event>, i: nat)
    requires IsRun(timeout, ss, es) && i < |ss|
    ensures ResponsesInv(ss[i])
  {
    if i > 0 {
      var previous := i - 1;
      ResponsesRunInv(timeout, ss, es, previous);
      RunInv(timeout, ss, es, previous);
      assert StepAt(timeout, ss, es, previous);
      ResponsesInvIsKept(timeout, ss[previous], es[previous], ss[i]);
    }
  }

  /** Of every reachable status: `describe` shows for each user the group responses that list them. */
  lemma DescribedGroupsAreTheListingOnes(timeout: int, ss: seq<System>, es: seq<Event>, i: nat, n: string)
    requires IsRun(timeout, ss, es) && i < |ss|
    ensures GroupsOf(ss[i].task.status.responses, n) == ListingGroups(ss[i].task.status.responses, n)
  {
    ResponsesRunInv(timeout, ss, es, i);
    GroupsAreTheListingOnes(ss[i].task.status.responses, n);
  }

  // ---------- the printed texts ----------

  /** A text cut at every comma that is followed by a space. */
  function Split(text: string): seq<string>
    decreases |text|
  {
    if exists i :: 0 <= i < |text| && IsCut(text, i)
    then
      var i := FirstCut(text, 0);
      [text[..i]] + Split(text[i + 2..])
    else [text]
  }

  predicate IsCut(text: string, i: int) {
    0 <= i < |text| - 1 && text[i] == ',' && text[i + 1] == ' '
  }

  function FirstCut(text: string, from: nat): (i: nat)
    requires exists j :: from <= j < |text| && IsCut(text, j)
    ensures from <= i && IsCut(text, i) && forall j :: from <= j < i ==> !IsCut(text, j)
    decreases |text| - from
  {
    if IsCut(text, from) then from else FirstCut(text, from + 1)
  }

  /** `Join` from the front. */
  lemma {:induction false} JoinFromTheFront(groups: seq<string>)
    ensures |groups| == 1 ==> Join(groups) == groups[0]
    ensures |groups| > 1 ==> Join(groups) == groups[0] + ", " + Join(groups[1..])
  {
    if |groups| > 1 {
      var init, last := groups[..|groups| - 1], groups[|groups| - 1];
      JoinFromTheFront(init);
      assert groups[1..][..|groups| - 2] == init[1..];
      if |groups| == 2 {
        assert groups[1..] == [last];
      }
    }
  }

  lemma {:induction false} JoinStartsPlainly(groups: seq<string>)
    requires |groups| > 0 && forall g :: g in groups ==> ' ' !in g
    ensures |groups| == 1 ==> forall i :: !IsCut(Join(groups), i)
    ensures |groups| > 1 ==> IsCut(Join(groups), |groups[0]|)
    ensures |groups| > 1 ==> forall i :: 0 <= i < |groups[0]| ==> !IsCut(Join(groups), i)
  {
    JoinFromTheFront(groups);
    var head := groups[0];
    assert head in groups;
    forall i | 0 <= i < |head|
      ensures head[i] != ' '
    {
      assert head[i] in head;
    }
    if |groups| > 1 {
      var text := Join(groups);
      assert text[..|head|] == head && text[|head|] == ',' && text[|head| + 1] == ' ';
    }
  }

  /** The text printed for a user's groups can be read back: group names have no spaces, and cutting
      the text at comma and space gives the groups again, in order. */
  lemma {:induction false} JoinCanBeReadBack(groups: seq<string>)
    requires |groups| > 0 && forall g :: g in groups ==> ' ' !in g
    ensures Split(Join(groups)) == groups
  {
    JoinFromTheFront(groups);
    JoinStartsPlainly(groups);
    if |groups| > 1 {
      var text, head, rest := Join(groups), groups[0], groups[1..];
      assert forall g :: g in rest ==> g in groups;
      JoinCanBeReadBack(rest);
      assert FirstCut(text, 0) == |head|;
      assert text[..|head|] == head && text[|head| + 2..] == Join(rest);
      assert groups == [head] + rest;
    }
  }

  // ---------- the first membership ----------

  /** Member `j` of response `i` is a membership of `n`. */
  predicate IsMembership(responses: seq<ApproverState>, n: string, i: nat, j: nat)
    requires i < |responses| && j < |responses[i].members|
  {
    responses[i].kind == Group && responses[i].members[j].name == n
  }

  /** None comes before it, in an earlier response or earlier in the same one. */
  predicate NoneBefore(responses: seq<ApproverState>, n: string, i: nat, j: nat)
    requires i < |responses| && j < |responses[i].members|
  {
    && (forall l :: 0 <= l < j ==> !IsMembership(responses, n, i, l))
    && forall k, l :: 0 <= k < i && 0 <= l < |responses[k].members| ==> !IsMembership(responses, n, k, l)
  }

  lemma {:induction false} FirstInByPosition(members: seq<GroupMember>, n: string, j: nat)
    requires j < |members| && members[j].name == n && forall l :: 0 <= l < j ==> members[l].name != n
    ensures FirstIn(members, n) == Some(members[j])
  {
    if j < |members| - 1 {
      FirstInByPosition(members[..|members| - 1], n, j);
    } else {
      NotAmong(members[..j], n);
    }
  }

  lemma {:induction false} NotAmong(members: seq<GroupMember>, n: string)
    requires forall l :: 0 <= l < |members| ==> members[l].name != n
    ensures FirstIn(members, n) == None
  {
    if members != [] {
      NotAmong(members[..|members| - 1], n);
    }
  }

  lemma {:induction false} NoMembership(responses: seq<ApproverState>, n: string)
    requires forall k, l :: 0 <= k < |responses| && 0 <= l < |responses[k].members| ==>
               !IsMembership(responses, n, k, l)
    ensures FirstMembership(responses, n) == None
  {
    if responses != [] {
      var init, last := responses[..|responses| - 1], responses[|responses| - 1];
      forall k, l | 0 <= k < |init| && 0 <= l < |init[k].members|
        ensures !IsMembership(init, n, k, l)
      {
        assert !IsMembership(responses, n, k, l);
      }
      NoMembership(init, n);
      if last.kind == Group {
        forall l | 0 <= l < |last.members|
          ensures last.members[l].name != n
        {
          assert !IsMembership(responses, n, |responses| - 1, l);
        }
        NotAmong(last.members, n);
      }
    }
  }

  /** The response and the message `describe` prints for a user are those of their first membership. */
  lemma {:induction false} FirstMembershipByPosition(responses: seq<ApproverState>, n: string, i: nat, j: nat)
    requires i < |responses| && j < |responses[i].members|
    requires IsMembership(responses, n, i, j) && NoneBefore(responses, n, i, j)
    ensures FirstMembership(responses, n) == Some(responses[i].members[j])
    decreases |responses|
  {
    var init := responses[..|responses| - 1];
    if i < |init| {
      forall k, l | 0 <= k < |init| && 0 <= l < |init[k].members|
        ensures IsMembership(init, n, k, l) <==> IsMembership(responses, n, k, l)
      {
      }
      FirstMembershipByPosition(init, n, i, j);
    } else {
      forall k, l | 0 <= k < |init| && 0 <= l < |init[k].members|
        ensures !IsMembership(init, n, k, l)
      {
        assert !IsMembership(responses, n, k, l);
      }
      NoMembership(init, n);
      forall l | 0 <= l < j
        ensures responses[i].members[l].name != n
      {
        assert !IsMembership(responses, n, i, l);
      }
      FirstInByPosition(responses[i].members, n, j);
    }
  }
}
