/** What a stored status says, at every point of every run: which answer a group is shown with, where
    the messages come from, and what the counters count. */
module StatusLaws {
  import opened ApprovalTypes
  import opened Quorum
  import opened Validation
  import opened Controller
  import opened ControllerLaws
  import opened Protocol

  // ---------- one response ----------

  predicate SomeoneRejects(members: seq<GroupMember>) {
    exists m :: m in members && m.response == RejectedState
  }

  /** A response as the controller writes them: an individual's answer, or a group with the answers of
      its members, shown as rejected exactly if one of them rejects and as approved otherwise. */
  predicate IsAnswer(r: ApproverState) {
    match r.kind
    case User => r.members == [] && (r.response == ApprovedState || r.response == RejectedState)
    case Group =>
      && r.members != []
      && (forall m :: m in r.members ==> m.response == ApprovedState || m.response == RejectedState)
      && r.response == if SomeoneRejects(r.members) then RejectedState else ApprovedState
    case _ => false
  }

  predicate AreAnswers(responses: seq<ApproverState>) {
    forall r :: r in responses ==> IsAnswer(r)
  }

  /** The entry a listed response stems from. */
  lemma ListedStemsFrom(approvers: seq<Approver>, responses: seq<ApproverState>, r: ApproverState)
    returns (a: Approver)
    requires IsListing(responses, Responders(approvers)) && r in responses
    ensures StemsFrom(approvers, a, r)
  {
    ListingMembers(responses, Responders(approvers), r);
    var n :| n in Responders(approvers) && Responders(approvers)[n] == r;
    RespondersSound(approvers, n);
    a :| StemsFrom(approvers, a, r);
  }

  lemma StemmedIsAnswer(approvers: seq<Approver>, a: Approver, r: ApproverState)
    requires StemsFrom(approvers, a, r)
    ensures IsAnswer(r)
  {
    MembersExactly(a.users, UserResponders(approvers).Keys);
  }

  lemma ListingsAreAnswers(approvers: seq<Approver>, responses: seq<ApproverState>)
    requires IsListing(responses, Responders(approvers))
    ensures AreAnswers(responses)
  {
    forall r | r in responses
      ensures IsAnswer(r)
    {
      var a := ListedStemsFrom(approvers, responses, r);
      StemmedIsAnswer(approvers, a, r);
    }
  }

  // ---------- tied to the spec ----------

  /** The answer an input stands for. */
  predicate Answers(input: Input, response: State) {
    (input == Approve && response == ApprovedState) || (input == Reject && response == RejectedState)
  }

  /** Entry `a`, an individual's, gives the response: name, answer and message. */
  predicate GivesAnswer(a: Approver, r: ApproverState) {
    a.kind != Group && a.name == r.name && a.message == r.message && Answers(a.input, r.response)
  }

  /** Member `u` gives the member response. */
  predicate GivesMember(u: UserDetails, m: GroupMember) {
    u.name == m.name && u.message == m.message && Answers(u.input, m.response)
  }

  /** What a listed individual response says is what the individual's entry says. */
  lemma IndividualResponseExactly(approvers: seq<Approver>, responses: seq<ApproverState>, r: ApproverState)
    requires IsListing(responses, Responders(approvers)) && r in responses && r.kind == User
    ensures exists a :: a in approvers && GivesAnswer(a, r)
  {
    var a := ListedStemsFrom(approvers, responses, r);
    assert GivesAnswer(a, r);
  }

  /** With distinct keys, what the response of group `g` says is what `g` says: its message, and the
      answers of exactly those members who are not decided individuals. It is shown as rejected if
      and only if one of these reads reject. */
  lemma GroupResponseExactly(approvers: seq<Approver>, responses: seq<ApproverState>, r: ApproverState, g: Approver)
    requires DistinctKeys(approvers) && IsListing(responses, Responders(approvers))
    requires r in responses && r.kind == Group && g in approvers && g.kind == Group && g.name == r.name
    ensures r.message == g.message && Decided(g.input)
    ensures forall m :: m in r.members
              <==> m.name in GroupSpeakers(approvers, g) && exists u :: u in g.users && GivesMember(u, m)
    ensures r.response == RejectedState
            <==> exists u :: u in g.users && u.input == Reject && u.name in GroupSpeakers(approvers, g)
    ensures r.response == RejectedState || r.response == ApprovedState
  {
    var a := ListedStemsFrom(approvers, responses, r);
    SameKeySameEntry(approvers, a, g);
    UserRespondersExactly(approvers);
    var processed := UserResponders(approvers).Keys;
    MembersExactly(g.users, processed);
    StemmedIsAnswer(approvers, a, r);
    forall m
      ensures m in r.members
              <==> m.name in GroupSpeakers(approvers, g) && exists u :: u in g.users && GivesMember(u, m)
    {
      if m in r.members {
        var u :| u in g.users && u.name !in processed && Decided(u.input)
                 && m == GroupMember(u.name, ResponseOf(u.input), u.message);
        assert GivesMember(u, m);
      }
    }
    if u :| u in g.users && u.input == Reject && u.name in GroupSpeakers(approvers, g) {
      assert GroupMember(u.name, RejectedState, u.message) in r.members;
    }
  }

  /** The members of `g` who have no decided individual entry. */
  function GroupSpeakers(approvers: seq<Approver>, g: Approver): (r: set<string>)
    ensures forall n :: n in r <==>
              && (exists u :: u in g.users && u.name == n)
              && !exists a :: a in approvers && a.IsUser() && Decided(a.input) && a.name == n
  {
    var names := set u | u in g.users && !IsProcessed(approvers, u.name) :: u.name;
    assert forall n :: n in names <==> !IsProcessed(approvers, n) && exists u :: u in g.users && u.name == n;
    names
  }

  // ---------- over runs ----------

  predicate AnswersInv(s: System) {
    && AreAnswers(s.task.status.responses)
    && (s.phase.Planned? && s.phase.effect.write.Some? ==> AreAnswers(s.phase.effect.write.value.responses))
  }

  lemma AnswersInvIsKept(timeout: int, s: System, e: Event, t: System)
    requires Next(timeout, s, e, t) && AnswersInv(s)
    ensures AnswersInv(t)
  {
    if e.Read? && e.effect.write.Some? && !TimedOut(StartOf(s.task), timeout, s.clock) {
      ListingsAreAnswers(s.task.spec.approvers, e.effect.write.value.responses);
    }
  }

  lemma {:induction false} AnswersRunInv(timeout: int, ss: seq<System>, es: seq<Event>, i: nat)
    requires IsRun(timeout, ss, es) && i < |ss|
    ensures AnswersInv(ss[i])
  {
    if i > 0 {
      var previous := i - 1;
      AnswersRunInv(timeout, ss, es, previous);
      assert StepAt(timeout, ss, es, previous);
      AnswersInvIsKept(timeout, ss[previous], es[previous], ss[i]);
    }
  }

  /** At every point of every run each stored group response is shown as rejected if and only if a
      member listed with it rejects, and as approved otherwise. */
  lemma StoredGroupsAreAnswers(timeout: int, ss: seq<System>, es: seq<Event>, i: nat, r: ApproverState)
    requires IsRun(timeout, ss, es) && i < |ss|
    requires r in ss[i].task.status.responses && r.kind == Group
    ensures r.response == RejectedState <==> exists m :: m in r.members && m.response == RejectedState
    ensures r.response == RejectedState || r.response == ApprovedState
    ensures r.members != []
  {
    AnswersRunInv(timeout, ss, es, i);
  }

  // ---------- the counters ----------

  /** A status that approves counts what its spec says and asks for. */
  predicate CountsRightly(spec: Spec, status: Status) {
    status.state == ApprovedState ==>
      status.approvalsReceived == |ApprovedUsers(spec.approvers)| && status.approvalsReceived >= spec.required
  }

  predicate CountersInv(first: System, s: System) {
    && s.task.status.approvers == first.task.status.approvers
    && (first.task.status.approvalsRequired == first.task.spec.required ==>
          s.task.status.approvalsRequired == s.task.spec.required)
    && CountsRightly(s.task.spec, s.task.status)
    && (s.phase.Planned? && s.phase.effect.write.Some? ==> PlannedCounters(first, s, s.phase.effect.write.value))
  }

  predicate PlannedCounters(first: System, s: System, status: Status)
    requires s.phase.Planned?
  {
    && status.approvers == first.task.status.approvers
    && (first.task.status.approvalsRequired == first.task.spec.required ==>
          status.approvalsRequired == s.task.spec.required)
    && (s.phase.version == s.version ==> CountsRightly(s.task.spec, status))
  }

  lemma CountersInvIsKept(timeout: int, first: System, s: System, e: Event, t: System)
    requires Next(timeout, s, e, t) && Inv(timeout, first, s) && CountersInv(first, s)
    ensures CountersInv(first, t)
  {
    SpecChangesAreSubmitted(timeout, s, e, t);
  }

  lemma {:induction false} CountersRunInv(timeout: int, ss: seq<System>, es: seq<Event>, i: nat)
    requires IsRun(timeout, ss, es) && i < |ss|
    ensures CountersInv(ss[0], ss[i])
  {
    if i > 0 {
      var previous := i - 1;
      CountersRunInv(timeout, ss, es, previous);
      RunInv(timeout, ss, es, previous);
      assert StepAt(timeout, ss, es, previous);
      CountersInvIsKept(timeout, ss[0], ss[previous], es[previous], ss[i]);
    }
  }

  /** At every point of every run the status names the approvers it was created with; if it was
      created with the requirement of its spec, as the controller does, it keeps showing it; and
      an approved task shows as received the number of users who approved, which is enough. */
  lemma CountersAreRight(timeout: int, ss: seq<System>, es: seq<Event>, i: nat)
    requires IsRun(timeout, ss, es) && i < |ss|
    ensures ss[i].task.status.approvers == ss[0].task.status.approvers
    ensures ss[0].task.status.approvalsRequired == ss[0].task.spec.required ==>
              ss[i].task.status.approvalsRequired == ss[i].task.spec.required == ss[0].task.spec.required
    ensures ss[i].task.status.state == ApprovedState ==>
              && ss[i].task.status.approvalsReceived == |ApprovedUsers(ss[i].task.spec.approvers)|
              && ss[i].task.status.approvalsReceived >= ss[0].task.spec.required
  {
    CountersRunInv(timeout, ss, es, i);
    RunInv(timeout, ss, es, i);
  }

  /** What a reconcile before the deadline writes, it writes with the current counts. */
  lemma WrittenCounters(task: Task, timeout: int, now: int, e: Effect)
    requires Plans(task, timeout, now, true, e) && e.write.Some? && !TimedOut(StartOf(task), timeout, now)
    ensures e.write.value.approvalsRequired == task.spec.required
    ensures e.write.value.approvalsReceived == |ApprovedUsers(task.spec.approvers)|
    ensures e.write.value.approvers == task.status.approvers
  {
  }

  /** What a reconcile after the deadline writes keeps everything shown and counted. */
  lemma ExpiryKeepsTheRest(task: Task, timeout: int, now: int, e: Effect)
    requires Plans(task, timeout, now, true, e) && StartOf(task) != 0 && now > StartOf(task) + timeout
    ensures e.write.Some? && e.write.value.state == RejectedState && e.mark == MarkFailed
    ensures e.write.value.responses == task.status.responses && e.write.value.approvers == task.status.approvers
    ensures e.write.value.approvalsRequired == task.status.approvalsRequired
    ensures e.write.value.approvalsReceived == task.status.approvalsReceived
  {
  }

  lemma MemberComesFrom(users: seq<UserDetails>, processed: set<string>, i: nat) returns (p: nat)
    requires i < |Members(users, processed)|
    ensures p < |users| && users[p].name == Members(users, processed)[i].name
  {
    MembersExactly(users, processed);
    assert Members(users, processed)[i] in Members(users, processed);
    var u :| u in users && u.name == Members(users, processed)[i].name;
    p :| 0 <= p < |users| && users[p] == u;
  }

  /** A group response lists members in roster order. */
  lemma {:induction false} MembersKeepOrder(users: seq<UserDetails>, processed: set<string>,
                                            i: nat, j: nat, p: nat, q: nat)
    requires DistinctMembers(users) && i < j < |Members(users, processed)| && p < |users| && q < |users|
    requires users[p].name == Members(users, processed)[i].name && users[q].name == Members(users, processed)[j].name
    ensures p < q
  {
    var init := users[..|users| - 1];
    var before := Members(init, processed);
    var m := MemberComesFrom(init, processed, i);
    assert users[m].name == users[p].name && m == p;
    if j < |before| {
      var l := MemberComesFrom(init, processed, j);
      assert users[l].name == users[q].name && l == q;
      MembersKeepOrder(init, processed, i, j, p, q);
    } else {
      assert users[q].name == users[|users| - 1].name && q == |users| - 1;
    }
  }
}
