/** The messages of a client run, read off its acts, and their way into the status. */
module Messages {
  import opened ApprovalTypes
  import opened Validation
  import opened AdmissionLaws
  import opened Client
  import opened ClientLaws
  import opened Controller
  import opened Protocol
  import opened CliRuns
  import opened History
  import opened StatusLaws

  /** The message of the last act that touched entry `a` and gave one; the entry's own if none did. */
  function LastMessage(es: seq<Event>, a: Approver): string {
    if es == [] then a.message
    else
      var last := es[|es| - 1];
      if last.Act? && Touches(a, last.options) && last.options.message != "" then last.options.message
      else LastMessage(es[..|es| - 1], a)
  }

  // ---------- entries ----------

  lemma EntryMessageStep(timeout: int, s: System, e: Event, t: System, k: nat, a: Approver)
    requires Next(timeout, s, e, t) && !e.Edit? && k < |s.task.spec.approvers|
    requires s.task.spec.approvers[k].name == a.name && s.task.spec.approvers[k].kind == a.kind
    ensures |t.task.spec.approvers| == |s.task.spec.approvers|
    ensures t.task.spec.approvers[k].message
         == if e.Act? && Touches(a, e.options) && e.options.message != "" then e.options.message
            else s.task.spec.approvers[k].message
  {
    SpecChangesAreSubmitted(timeout, s, e, t);
  }

  /** At every point of a client run an entry bears the message of the last act that touched it and
      gave one, else the one it was created with. */
  lemma {:induction false} EntryMessageHistory(timeout: int, ss: seq<System>, es: seq<Event>, i: nat, k: nat)
    requires IsCliRun(timeout, ss, es) && i < |ss| && k < |ss[0].task.spec.approvers|
    ensures |ss[i].task.spec.approvers| == |ss[0].task.spec.approvers|
    ensures ss[i].task.spec.approvers[k].message == LastMessage(es[..i], ss[0].task.spec.approvers[k])
  {
    if i > 0 {
      var previous := i - 1;
      EntryMessageHistory(timeout, ss, es, previous, k);
      SameEntry(timeout, ss, es, previous, k);
      assert StepAt(timeout, ss, es, previous);
      EntryMessageStep(timeout, ss[previous], es[previous], ss[i], k, ss[0].task.spec.approvers[k]);
      assert es[..i][..previous] == es[..previous];
    }
  }

  // ---------- rosters ----------

  /** The last act of `n` that touched entry `a`. */
  function LastActBy(es: seq<Event>, a: Approver, n: string): Option<Options> {
    if es == [] then None
    else
      var last := es[|es| - 1];
      if last.Act? && last.options.user == n && Touches(a, last.options) then Some(last.options)
      else LastActBy(es[..|es| - 1], a, n)
  }

  lemma RosterEntryStep(timeout: int, s: System, e: Event, t: System, k: nat, v: UserDetails,
                        first: Approver, individual: bool)
    requires LegalSpec(s.task.spec) && Next(timeout, s, e, t) && !e.Edit?
    requires k < |s.task.spec.approvers| && s.task.spec.approvers[k].IsGroup()
    requires s.task.spec.approvers[k].name == first.name && s.task.spec.approvers[k].kind == first.kind
    requires individual <==> IsIndividual(s.task.spec.approvers, v.name)
    ensures |t.task.spec.approvers| == |s.task.spec.approvers|
    ensures v in t.task.spec.approvers[k].users <==>
              if e.Act? && e.options.user == v.name && Touches(first, e.options) && !individual
              then v.input == e.options.input && v.message == e.options.message
              else v in s.task.spec.approvers[k].users
  {
    SpecChangesAreSubmitted(timeout, s, e, t);
    if e.Act? {
      var a := s.task.spec.approvers[k];
      assert a in s.task.spec.approvers && LegalApprover(a);
      UpdateRosterMembers(a.users, e.options);
    }
  }

  /** At every point of a client run a group lists a user with the input and the message of the last
      act in which they carried it, the message even if it is empty; individuals, and whoever did
      not carry it yet, as at the start. */
  lemma {:induction false} RosterMessageHistory(timeout: int, ss: seq<System>, es: seq<Event>, i: nat, k: nat,
                                                v: UserDetails)
    requires IsCliRun(timeout, ss, es) && i < |ss| && k < |ss[0].task.spec.approvers|
    requires ss[0].task.spec.approvers[k].IsGroup()
    ensures |ss[i].task.spec.approvers| == |ss[0].task.spec.approvers|
    ensures var a := ss[0].task.spec.approvers[k];
            var last := LastActBy(es[..i], a, v.name);
            v in ss[i].task.spec.approvers[k].users <==>
              if last.Some? && !IsIndividual(ss[0].task.spec.approvers, v.name)
              then v.input == last.value.input && v.message == last.value.message
              else v in a.users
  {
    if i > 0 {
      var previous := i - 1;
      RosterMessageHistory(timeout, ss, es, previous, k, v);
      SameEntry(timeout, ss, es, previous, k);
      LegalAt(timeout, ss, es, previous);
      IndividualsStay(timeout, ss, es, previous, v.name);
      assert StepAt(timeout, ss, es, previous);
      RosterEntryStep(timeout, ss[previous], es[previous], ss[i], k, v, ss[0].task.spec.approvers[k],
                      IsIndividual(ss[0].task.spec.approvers, v.name));
      assert es[..i][..previous] == es[..previous];
    }
  }

  // ---------- what a reconcile lists ----------

  /** The individual response a reconcile lists bears the message of the last act that gave that
      individual's entry one. */
  lemma ListedMessage(timeout: int, ss: seq<System>, es: seq<Event>, i: nat,
                      responses: seq<ApproverState>, r: ApproverState)
    requires IsCliRun(timeout, ss, es) && i < |ss|
    requires IsListing(responses, Responders(ss[i].task.spec.approvers)) && r in responses && r.kind == User
    ensures exists a :: a in ss[0].task.spec.approvers && a.kind != Group && a.name == r.name
                        && r.message == LastMessage(es[..i], a)
  {
    var first, now := ss[0].task.spec.approvers, ss[i].task.spec.approvers;
    RunInv(timeout, ss, es, i);
    IndividualResponseExactly(now, responses, r);
    var b :| b in now && GivesAnswer(b, r);
    var k :| 0 <= k < |now| && now[k] == b;
    EntryMessageHistory(timeout, ss, es, i, k);
    SameEntry(timeout, ss, es, i, k);
    assert first[k] in first;
  }

  lemma DecidedMemberSpoke(timeout: int, ss: seq<System>, es: seq<Event>, i: nat, k: nat,
                           u: UserDetails, m: GroupMember)
    requires IsCliRun(timeout, ss, es) && i < |ss| && k < |ss[0].task.spec.approvers|
    requires |ss[i].task.spec.approvers| == |ss[0].task.spec.approvers| && ss[0].task.spec.approvers[k].IsGroup()
    requires u in ss[i].task.spec.approvers[k].users && GivesMember(u, m)
    ensures MemberSpokeThrough(es[..i], ss[0].task.spec.approvers[k], m)
  {
    RosterMessageHistory(timeout, ss, es, i, k, u);
    assert Holds(ss[i].task.spec.approvers[k].users, u.name, u.input);
    RosterHistory(timeout, ss, es, i, k, u.name, u.input);
    LastTouchIsAct(es[..i], ss[0].task.spec.approvers[k], u.name);
  }

  lemma ListedMember(spec: Spec, responses: seq<ApproverState>, r: ApproverState, m: GroupMember)
    returns (k: nat, u: UserDetails)
    requires LegalSpec(spec) && IsListing(responses, Responders(spec.approvers))
    requires r in responses && r.kind == Group && m in r.members
    ensures k < |spec.approvers| && spec.approvers[k].kind == Group && spec.approvers[k].name == r.name
    ensures u in spec.approvers[k].users && GivesMember(u, m)
  {
    var b := ListedStemsFrom(spec.approvers, responses, r);
    assert LegalApprover(b) && b.kind == Group;
    GroupResponseExactly(spec.approvers, responses, r, b);
    u :| u in b.users && GivesMember(u, m);
    k :| 0 <= k < |spec.approvers| && spec.approvers[k] == b;
  }

  /** A member response a reconcile lists bears the message of the last act in which that member
      carried the group. */
  lemma ListedMemberMessage(timeout: int, ss: seq<System>, es: seq<Event>, i: nat,
                            responses: seq<ApproverState>, r: ApproverState, m: GroupMember)
    requires IsCliRun(timeout, ss, es) && i < |ss|
    requires IsListing(responses, Responders(ss[i].task.spec.approvers))
    requires r in responses && r.kind == Group && m in r.members
    ensures exists a :: a in ss[0].task.spec.approvers && a.kind == Group && a.name == r.name
                        && MemberSpokeThrough(es[..i], a, m)
  {
    LegalAt(timeout, ss, es, i);
    RunInv(timeout, ss, es, i);
    var k, u := ListedMember(ss[i].task.spec, responses, r, m);
    SameEntry(timeout, ss, es, i, k);
    DecidedMemberSpoke(timeout, ss, es, i, k, u, m);
    assert ss[0].task.spec.approvers[k] in ss[0].task.spec.approvers;
  }

  /** The last act in which the member carried group `a` gave the answer and the message shown. */
  predicate MemberSpokeThrough(es: seq<Event>, a: Approver, m: GroupMember) {
    var last := LastActBy(es, a, m.name);
    last.Some? && last.value.message == m.message && Answers(last.value.input, m.response)
  }

  lemma {:induction false} LastTouchIsAct(es: seq<Event>, a: Approver, n: string)
    ensures LastTouchBy(es, a, n) == if LastActBy(es, a, n).Some? then LastActBy(es, a, n).value.input else Pending
  {
    if es != [] {
      LastTouchIsAct(es[..|es| - 1], a, n);
    }
  }
}
