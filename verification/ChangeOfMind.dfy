/** Change of mind: what a user whose approval is on record can still do, at any point of any client
    run in which all their acts carry the same groups. */
module ChangeOfMind {
  import opened ApprovalTypes
  import opened Quorum
  import opened Validation
  import opened Admission
  import opened AdmissionLaws
  import opened Client
  import opened ClientLaws
  import opened Controller
  import opened ControllerLaws
  import opened Protocol
  import opened CliRuns
  import opened History

  /** Every act of `user` carries the groups `gs`. */
  ghost predicate SteadyGroups(es: seq<Event>, user: string, gs: seq<string>) {
    forall i :: 0 <= i < |es| && es[i].Act? && es[i].options.user == user ==>
      forall g :: g in es[i].options.groups <==> g in gs
  }

  /** The input of the last act of `user`; pending if there was none. */
  function LastInput(es: seq<Event>, user: string): Input {
    if es == [] then Pending
    else
      var last := es[|es| - 1];
      if last.Act? && last.options.user == user then last.options.input else LastInput(es[..|es| - 1], user)
  }

  // ---------- one voice ----------

  /** On the rosters `user` says one and the same thing: `input` in every group among `gs` that lists
      them, and nothing yet elsewhere or when they have an individual entry. */
  predicate SpeaksWithOneVoice(approvers: seq<Approver>, user: string, gs: seq<string>, input: Input) {
    forall a, u :: a in approvers && a.IsGroup() && u in a.users && u.name == user ==>
      u.input == if a.name in gs && !IsIndividual(approvers, user) then input else Pending
  }

  lemma {:induction false} SteadyTouches(es: seq<Event>, a: Approver, user: string, gs: seq<string>)
    requires SteadyGroups(es, user, gs)
    ensures a.IsGroup() ==> LastTouchBy(es, a, user) == if a.name in gs then LastInput(es, user) else Pending
  {
    if es != [] {
      SteadyTouches(es[..|es| - 1], a, user, gs);
    }
  }

  lemma {:induction false} OwnEntryTouches(es: seq<Event>, a: Approver)
    requires a.IsUser()
    ensures LastTouch(es, a) == LastInput(es, a.name)
  {
    if es != [] {
      OwnEntryTouches(es[..|es| - 1], a);
    }
  }

  lemma PrefixIsSteady(es: seq<Event>, i: nat, user: string, gs: seq<string>)
    requires i <= |es| && SteadyGroups(es, user, gs)
    ensures SteadyGroups(es[..i], user, gs)
  {
  }

  lemma {:induction false} LastInputIsLegal(timeout: int, ss: seq<System>, es: seq<Event>, i: nat, user: string)
    requires IsCliRun(timeout, ss, es) && i < |ss|
    ensures LegalInput(LastInput(es[..i], user))
  {
    if i > 0 {
      var previous := i - 1;
      LastInputIsLegal(timeout, ss, es, previous, user);
      assert StepAt(timeout, ss, es, previous);
      assert es[..i][..previous] == es[..previous];
    }
  }

  lemma OneVoiceAt(timeout: int, ss: seq<System>, es: seq<Event>, i: nat, user: string, gs: seq<string>,
                   k: nat, u: UserDetails)
    requires IsCliRun(timeout, ss, es) && i < |ss| && SteadyGroups(es, user, gs)
    requires k < |ss[i].task.spec.approvers| && ss[i].task.spec.approvers[k].IsGroup()
    requires u in ss[i].task.spec.approvers[k].users && u.name == user
    ensures u.input == if ss[i].task.spec.approvers[k].name in gs && !IsIndividual(ss[i].task.spec.approvers, user)
                       then LastInput(es[..i], user) else Pending
  {
    RunInv(timeout, ss, es, i);
    PrefixIsSteady(es, i, user, gs);
    IndividualsStay(timeout, ss, es, i, user);
    LastInputIsLegal(timeout, ss, es, i, user);
    var a, last := ss[i].task.spec.approvers[k], LastInput(es[..i], user);
    assert LegalApprover(a) && Holds(a.users, user, u.input);
    RosterLookupOfDistinct(a.users, u);
    SteadyTouches(es[..i], ss[0].task.spec.approvers[k], user, gs);
    if Decided(u.input) {
      RosterHistory(timeout, ss, es, i, k, user, u.input);
    } else if Decided(last) {
      RosterHistory(timeout, ss, es, i, k, user, last);
      forall v | v in a.users && v.name == user
        ensures v.input == u.input
      {
        RosterLookupOfDistinct(a.users, v);
      }
    }
  }

  lemma OneVoiceRun(timeout: int, ss: seq<System>, es: seq<Event>, i: nat, user: string, gs: seq<string>)
    requires IsCliRun(timeout, ss, es) && i < |ss| && SteadyGroups(es, user, gs)
    ensures SpeaksWithOneVoice(ss[i].task.spec.approvers, user, gs, LastInput(es[..i], user))
  {
    var now := ss[i].task.spec.approvers;
    forall a, u | a in now && a.IsGroup() && u in a.users && u.name == user
      ensures u.input == if a.name in gs && !IsIndividual(now, user) then LastInput(es[..i], user) else Pending
    {
      var k :| 0 <= k < |now| && now[k] == a;
      OneVoiceAt(timeout, ss, es, i, user, gs, k, u);
    }
  }

  // ---------- taking part ----------

  /** `user` has an individual entry or a group among `gs` is listed. */
  predicate Participates(approvers: seq<Approver>, user: string, gs: seq<string>) {
    exists a :: a in approvers && ((a.IsUser() && a.name == user) || (a.IsGroup() && a.name in gs))
  }

  lemma SkeletonKeepsParticipation(xs: seq<Approver>, ys: seq<Approver>, user: string, gs: seq<string>)
    requires SameSkeleton(xs, ys) && Participates(xs, user, gs)
    ensures Participates(ys, user, gs)
  {
    var k :| 0 <= k < |xs| && ((xs[k].IsUser() && xs[k].name == user) || (xs[k].IsGroup() && xs[k].name in gs));
    assert ys[k] in ys;
  }

  lemma ParticipantTouches(approvers: seq<Approver>, o: Options)
    requires Participates(approvers, o.user, o.groups)
    ensures exists a :: a in approvers && Touches(a, o)
    ensures UserExists(approvers, RequesterOf(o))
  {
    var a :| a in approvers && ((a.IsUser() && a.name == o.user) || (a.IsGroup() && a.name in o.groups));
    assert Touches(a, o) && Speaks(a, RequesterOf(o));
  }

  /** A user whose last act was an approval has an entry of their own that reads approve. */
  lemma LastApprovalStands(timeout: int, ss: seq<System>, es: seq<Event>, i: nat, user: string, gs: seq<string>)
    requires IsCliRun(timeout, ss, es) && i < |ss| && SteadyGroups(es, user, gs)
    requires Participates(ss[i].task.spec.approvers, user, gs) && LastInput(es[..i], user).Approve?
    ensures exists a :: a in ss[i].task.spec.approvers && SaysApprove(ss[i].task.spec.approvers, a, user, gs)
  {
    RunInv(timeout, ss, es, i);
    PrefixIsSteady(es, i, user, gs);
    IndividualsStay(timeout, ss, es, i, user);
    var first, now := ss[0].task.spec.approvers, ss[i].task.spec.approvers;
    ParticipantTouches(now, Options(user, gs, Approve, ""));
    var k := FirstTouch(now, Options(user, gs, Approve, ""));
    if IsIndividual(now, user) {
      EntryHistory(timeout, ss, es, i, k);
      OwnEntryTouches(es[..i], first[k]);
    } else {
      SteadyTouches(es[..i], first[k], user, gs);
      RosterHistory(timeout, ss, es, i, k, user, Approve);
    }
    assert now[k] in now && SaysApprove(now, now[k], user, gs);
  }

  // ---------- what is on record ----------

  /** Entry `a` reads approve for `user`: as their own, or on the roster of a carried group. */
  predicate SaysApprove(approvers: seq<Approver>, a: Approver, user: string, gs: seq<string>) {
    || (a.IsUser() && a.name == user && a.input.Approve?)
    || (a.IsGroup() && a.name in gs && !IsIndividual(approvers, user) && Holds(a.users, user, Approve))
  }

  /** What a reconcile that records an approval of `user` says about the spec it read. */
  lemma RecordedApproval(approvers: seq<Approver>, responses: seq<ApproverState>,
                         user: string, gs: seq<string>, input: Input)
    requires DistinctKeys(approvers) && IsListing(responses, Responders(approvers))
    requires SpeaksWithOneVoice(approvers, user, gs, input)
    requires Recorded(responses, user, ApprovedState)
    ensures !Recorded(responses, user, RejectedState)
    ensures exists a :: a in approvers && SaysApprove(approvers, a, user, gs)
  {
    RecordedIsShown(approvers, responses, user, ApprovedState);
    var a :| a in approvers && EntryShows(approvers, a, user, ApprovedState);
    assert SaysApprove(approvers, a, user, gs);
    forall b | b in approvers
      ensures !EntryShows(approvers, b, user, RejectedState)
    {
      if a.IsUser() && b.IsUser() && a.name == b.name {
        SameKeySameEntry(approvers, a, b);
      }
    }
    if Recorded(responses, user, RejectedState) {
      RecordedIsShown(approvers, responses, user, RejectedState);
    }
  }

  /** An approval on record stands alone, and its author is a participant with a valid name. */
  predicate OnRecord(responses: seq<ApproverState>, approvers: seq<Approver>, user: string, gs: seq<string>) {
    Recorded(responses, user, ApprovedState) ==>
      !Recorded(responses, user, RejectedState) && ValidUserName(user) && Participates(approvers, user, gs)
  }

  /** That holds of the stored responses and of those about to be written. */
  predicate RecordInv(s: System, user: string, gs: seq<string>) {
    && OnRecord(s.task.status.responses, s.task.spec.approvers, user, gs)
    && (s.phase.Planned? && s.phase.effect.write.Some? ==>
          OnRecord(s.phase.effect.write.value.responses, s.task.spec.approvers, user, gs))
  }

  lemma ListingIsOnRecord(spec: Spec, responses: seq<ApproverState>, user: string, gs: seq<string>, input: Input)
    requires LegalSpec(spec) && IsListing(responses, Responders(spec.approvers))
    requires SpeaksWithOneVoice(spec.approvers, user, gs, input)
    ensures OnRecord(responses, spec.approvers, user, gs)
  {
    if Recorded(responses, user, ApprovedState) {
      RecordedApproval(spec.approvers, responses, user, gs, input);
      var a :| a in spec.approvers && SaysApprove(spec.approvers, a, user, gs);
      assert LegalApprover(a);
    }
  }

  lemma RecordInvIsKept(timeout: int, s: System, e: Event, t: System, user: string, gs: seq<string>, input: Input)
    requires Next(timeout, s, e, t) && LegalSpec(s.task.spec)
    requires SpeaksWithOneVoice(s.task.spec.approvers, user, gs, input) && RecordInv(s, user, gs)
    ensures RecordInv(t, user, gs)
  {
    SpecChangesAreSubmitted(timeout, s, e, t);
    if Participates(s.task.spec.approvers, user, gs) && RequesterIn(e).Some? {
      SkeletonKeepsParticipation(s.task.spec.approvers, t.task.spec.approvers, user, gs);
    }
    if e.Read? && e.effect.write.Some? && !TimedOut(StartOf(s.task), timeout, s.clock) {
      ListingIsOnRecord(s.task.spec, e.effect.write.value.responses, user, gs, input);
    }
  }

  lemma {:induction false} RecordRunInv(timeout: int, ss: seq<System>, es: seq<Event>, i: nat,
                                        user: string, gs: seq<string>)
    requires IsCliRun(timeout, ss, es) && i < |ss| && SteadyGroups(es, user, gs)
    ensures RecordInv(ss[i], user, gs)
  {
    if i > 0 {
      var previous := i - 1;
      RecordRunInv(timeout, ss, es, previous, user, gs);
      RunInv(timeout, ss, es, previous);
      OneVoiceRun(timeout, ss, es, previous, user, gs);
      assert StepAt(timeout, ss, es, previous);
      RecordInvIsKept(timeout, ss[previous], es[previous], ss[i], user, gs, LastInput(es[..previous], user));
    }
  }

  // ---------- what the webhook reads ----------

  /** `user` is an individual, or no group outside `gs` lists them. */
  predicate ListedWithin(approvers: seq<Approver>, user: string, gs: seq<string>) {
    IsIndividual(approvers, user)
    || forall a :: a in approvers && a.IsGroup() && Lists(a.users, user) ==> a.name in gs
  }

  lemma ListedWithinStep(timeout: int, s: System, e: Event, t: System, user: string, gs: seq<string>)
    requires LegalSpec(s.task.spec) && Next(timeout, s, e, t) && ListedWithin(s.task.spec.approvers, user, gs)
    requires IsIndividual(t.task.spec.approvers, user) <==> IsIndividual(s.task.spec.approvers, user)
    requires e.Act? && e.options.user == user ==> forall g :: g in e.options.groups <==> g in gs
    requires !e.Edit?
    ensures ListedWithin(t.task.spec.approvers, user, gs)
  {
    if !IsIndividual(s.task.spec.approvers, user) {
      forall a | a in t.task.spec.approvers && a.IsGroup() && Lists(a.users, user)
        ensures a.name in gs
      {
        var k :| 0 <= k < |t.task.spec.approvers| && t.task.spec.approvers[k] == a;
        ListedStep(timeout, s, e, t, k, user);
      }
    }
  }

  lemma {:induction false} ListedWithinRun(timeout: int, ss: seq<System>, es: seq<Event>, i: nat,
                                           user: string, gs: seq<string>)
    requires IsCliRun(timeout, ss, es) && i < |ss| && SteadyGroups(es, user, gs)
    requires ListedWithin(ss[0].task.spec.approvers, user, gs)
    ensures ListedWithin(ss[i].task.spec.approvers, user, gs)
  {
    if i > 0 {
      var previous := i - 1;
      ListedWithinRun(timeout, ss, es, previous, user, gs);
      LegalAt(timeout, ss, es, previous);
      IndividualsStay(timeout, ss, es, previous, user);
      IndividualsStay(timeout, ss, es, i, user);
      assert StepAt(timeout, ss, es, previous);
      ListedWithinStep(timeout, ss[previous], es[previous], ss[i], user, gs);
    }
  }

  lemma {:induction false} GroupInputOfOneVoice(approvers: seq<Approver>, req: Requester, input: Input)
    requires input != NO_INPUT
    requires forall a :: a in approvers ==> GroupEntryInput(a, req) in {NO_INPUT, input}
    requires exists a :: a in approvers && GroupEntryInput(a, req) == input
    ensures GroupInput(approvers, req) == input
  {
    assert approvers[0] in approvers;
    if GroupEntryInput(approvers[0], req) == NO_INPUT {
      assert forall a :: a in approvers[1..] ==> a in approvers;
      GroupInputOfOneVoice(approvers[1..], req, input);
    }
  }

  /** A user whom no other group than the carried ones lists desires what they ask for. */
  lemma DesiredInputOfAct(approvers: seq<Approver>, o: Options)
    requires Decided(o.input) && (forall a :: a in approvers ==> LegalApprover(a))
    requires ListedWithin(approvers, o.user, o.groups)
    requires exists a :: a in approvers && Touches(a, o)
    ensures DesiredInput(CliUpdate(approvers, o), RequesterOf(o)) == o.input
  {
    var updated := CliUpdate(approvers, o);
    if IsIndividual(approvers, o.user) {
      IndividualInputAfterAct(approvers, updated, o, true);
    } else {
      CliUpdateKeepsIndividuals(approvers, o, o.user);
      NoIndividualInput(updated, o.user);
      forall k | 0 <= k < |updated|
        ensures GroupEntryInput(updated[k], RequesterOf(o)) in {NO_INPUT, o.input}
        ensures IsCarriedGroup(approvers[k], o) ==> GroupEntryInput(updated[k], RequesterOf(o)) == o.input
      {
        assert updated[k] in updated && approvers[k] in approvers;
        if IsCarriedGroup(approvers[k], o) {
          UpdateRosterMembers(approvers[k].users, o);
          RosterLookupOfDistinct(updated[k].users, UserDetails(o.user, o.input, o.message));
        }
      }
      var k := FirstTouch(approvers, o);
      assert updated[k] in updated;
      GroupInputOfOneVoice(updated, RequesterOf(o), o.input);
    }
  }

  // ---------- change of mind ----------

  predicate Open(task: Task) {
    !Final(task.status.state) && !QuorumReached(task.spec)
  }

  /** The task shows an approval of `user`, and everything known of such a task in a client run. */
  predicate ApprovalOnRecord(task: Task, user: string, gs: seq<string>, input: Input) {
    && LegalSpec(task.spec)
    && SpeaksWithOneVoice(task.spec.approvers, user, gs, input)
    && Recorded(task.status.responses, user, ApprovedState)
    && OnRecord(task.status.responses, task.spec.approvers, user, gs)
  }

  /** Approving again is turned away exactly while the webhook reads the act as an approval, which it
      does unless an earlier group that is not carried lists the user. */
  lemma ApprovingAgainIsDenied(task: Task, o: Options, input: Input)
    requires ApprovalOnRecord(task, o.user, o.groups, input) && o.input.Approve?
    ensures if Open(task)
            then Admit(Update, task, Rewrite(task.spec, o), RequesterOf(o)) == AlreadyDecided
                 <==> ReadAsApproval(task.spec.approvers, o)
            else Admit(Update, task, Rewrite(task.spec, o), RequesterOf(o)) == FinalReached
    ensures ListedWithin(task.spec.approvers, o.user, o.groups) ==> ReadAsApproval(task.spec.approvers, o)
  {
    ParticipantTouches(task.spec.approvers, o);
    CliUpdatePreservesLegality(task.spec, o);
    if Open(task) {
      TurnedAwayExactly(task, o);
    }
    if ListedWithin(task.spec.approvers, o.user, o.groups) {
      DesiredInputOfAct(task.spec.approvers, o);
      DesiredInputExactly(task.spec.approvers, o);
    }
  }

  lemma RejectionIsReadAsSuch(approvers: seq<Approver>, o: Options, input: Input)
    requires SpeaksWithOneVoice(approvers, o.user, o.groups, input) && o.input.Reject?
    ensures !ReadAsApproval(approvers, o)
  {
    forall k | 0 <= k < |approvers|
      ensures !ReadsApproveAt(approvers, o, k)
    {
      assert approvers[k] in approvers;
    }
  }

  lemma RejectingIsAdmitted(task: Task, o: Options, input: Input)
    requires ApprovalOnRecord(task, o.user, o.groups, input) && o.input.Reject?
    ensures Admit(Update, task, Rewrite(task.spec, o), RequesterOf(o)) == Allowed
            <==> Open(task) && Moves(task.spec.approvers, o)
  {
    RejectionIsReadAsSuch(task.spec.approvers, o, input);
    ClientAdmittedExactly(task, o);
  }

  /** An own entry that reads approve makes a rejection move; where none moves, the list reads reject
      already. */
  lemma RejectionMoves(approvers: seq<Approver>, o: Options)
    requires o.input.Reject? && DistinctKeys(approvers) && (forall a :: a in approvers ==> LegalApprover(a))
    requires Participates(approvers, o.user, o.groups)
    ensures (exists a :: a in approvers && SaysApprove(approvers, a, o.user, o.groups)) ==> Moves(approvers, o)
    ensures !Moves(approvers, o) ==> HasReject(approvers)
    ensures HasReject(CliUpdate(approvers, o))
  {
    ParticipantTouches(approvers, o);
    var first := FirstTouch(approvers, o);
    assert approvers[first] in approvers && CliUpdate(approvers, o)[first] in CliUpdate(approvers, o);
    if !Moves(approvers, o) {
      assert !MovesAt(approvers, o, first);
    }
    if a :| a in approvers && SaysApprove(approvers, a, o.user, o.groups) {
      ApprovalMoves(approvers, o, a);
    }
  }

  lemma ApprovalMoves(approvers: seq<Approver>, o: Options, a: Approver)
    requires o.input.Reject? && DistinctKeys(approvers) && (forall a :: a in approvers ==> LegalApprover(a))
    requires a in approvers && SaysApprove(approvers, a, o.user, o.groups)
    ensures Moves(approvers, o)
  {
    var k :| 0 <= k < |approvers| && approvers[k] == a;
    forall j | 0 <= j < k
      ensures !IsOwnEntry(approvers[j], o)
    {
      assert approvers[j] in approvers && !SameKey(approvers[j], approvers[k]);
    }
    if a.IsGroup() {
      var u :| u in a.users && u.name == o.user && u.input == Approve;
      RosterLookupOfDistinct(a.users, u);
      forall v | v in a.users && v.name == o.user
        ensures v.input == Approve
      {
        RosterLookupOfDistinct(a.users, v);
      }
    }
    assert MovesAt(approvers, o, k);
  }

  /** A client rejection leaves the gate open and somebody to show, so the next reconcile in time
      rejects. */
  lemma RejectionIsDecided(first: System, task: Task, o: Options, timeout: int, now: int, e: Effect)
    requires Init(first) && LegalSpec(task.spec) && o.input.Reject?
    requires task.hash == first.task.hash && StartOf(task) == task.creation
    requires Moves(task.spec.approvers, o) && HasReject(CliUpdate(task.spec.approvers, o))
    ensures var after := task.(spec := Rewrite(task.spec, o));
            !TimedOut(task.creation, timeout, now) && Plans(after, timeout, now, true, e) ==>
              StateAfter(after, e) == RejectedState
  {
    MoveTouches(task.spec.approvers, o);
    ActLeavesAnAnswer(task.spec.approvers, o);
    GuardExactly(CliUpdate(task.spec.approvers, o));
    PendingListIsUndecided(first.task.spec);
  }

  /** Change of mind, at every point of a client run at which an approval of `user` is on record:
      approving again is turned away as already decided exactly if the act is read as an approval,
      as it always is unless the task was created with the user on the roster of a group they do
      not carry. Rejecting is let through exactly while the task is open and an input of theirs
      moves; it does if their last act was an approval, and if it does not, the list reads reject
      already. The reconcile after an admitted rejection, in time, rejects. */
  lemma ChangeOfMind(timeout: int, ss: seq<System>, es: seq<Event>, i: nat,
                     user: string, gs: seq<string>, message: string, now: int, e: Effect)
    requires IsCliRun(timeout, ss, es) && i < |ss| && SteadyGroups(es, user, gs)
    requires Recorded(ss[i].task.status.responses, user, ApprovedState)
    ensures var task, again := ss[i].task, Options(user, gs, Approve, message);
            && (if Open(task)
                then Admit(Update, task, Rewrite(task.spec, again), RequesterOf(again)) == AlreadyDecided
                     <==> ReadAsApproval(task.spec.approvers, again)
                else Admit(Update, task, Rewrite(task.spec, again), RequesterOf(again)) == FinalReached)
            && (ListedWithin(ss[0].task.spec.approvers, user, gs) ==> ReadAsApproval(task.spec.approvers, again))
    ensures var task, reject := ss[i].task, Options(user, gs, Reject, message);
            && (Admit(Update, task, Rewrite(task.spec, reject), RequesterOf(reject)) == Allowed
                <==> Open(task) && Moves(task.spec.approvers, reject))
            && (LastInput(es[..i], user).Approve? ==> Moves(task.spec.approvers, reject))
            && (!Moves(task.spec.approvers, reject) ==> HasReject(task.spec.approvers))
    ensures var task, reject := ss[i].task, Options(user, gs, Reject, message);
            var after := task.(spec := Rewrite(task.spec, reject));
            Moves(task.spec.approvers, reject) && !TimedOut(task.creation, timeout, now) ==>
              Plans(after, timeout, now, true, e) ==> StateAfter(after, e) == RejectedState
  {
    var task, reject := ss[i].task, Options(user, gs, Reject, message);
    RunInv(timeout, ss, es, i);
    OneVoiceRun(timeout, ss, es, i, user, gs);
    RecordRunInv(timeout, ss, es, i, user, gs);
    ApprovingAgainIsDenied(task, Options(user, gs, Approve, message), LastInput(es[..i], user));
    RejectingIsAdmitted(task, reject, LastInput(es[..i], user));
    RejectionMoves(task.spec.approvers, reject);
    if ListedWithin(ss[0].task.spec.approvers, user, gs) {
      ListedWithinRun(timeout, ss, es, i, user, gs);
    }
    if LastInput(es[..i], user).Approve? {
      LastApprovalStands(timeout, ss, es, i, user, gs);
    }
    if Moves(task.spec.approvers, reject) {
      RejectionIsDecided(ss[0], task, reject, timeout, now, e);
    }
  }
}
