/** Runs that take the exceptions: each of them starts from a task as created and shows that a
    condition in one of the laws cannot be dropped. */
module Witnesses {
  import opened ApprovalTypes
  import opened Quorum
  import opened Validation
  import opened Admission
  import opened AdmissionLaws
  import opened Client
  import opened ClientLaws
  import opened Controller
  import opened ControllerLaws
  import opened Protocol
  import opened CliRuns

  // ---------- making runs ----------

  function Last<T>(xs: seq<T>): T
    requires xs != []
  {
    xs[|xs| - 1]
  }

  lemma Extend(timeout: int, ss: seq<System>, es: seq<Event>, e: Event, t: System)
    requires IsRun(timeout, ss, es) && Next(timeout, Last(ss), e, t)
    ensures IsRun(timeout, ss + [t], es + [e])
    ensures IsCliRun(timeout, ss, es) && !e.Edit? ==> IsCliRun(timeout, ss + [t], es + [e])
  {
    var ss', es' := ss + [t], es + [e];
    forall i | 0 <= i < |es'|
      ensures StepAt(timeout, ss', es', i)
    {
      if i < |es| {
        assert StepAt(timeout, ss, es, i);
      }
    }
  }

  lemma {:induction false} SomeListing(current: map<string, ApproverState>) returns (responses: seq<ApproverState>)
    requires KeyedByName(current)
    ensures IsListing(responses, current)
    decreases |current|
  {
    responses := [];
    if n :| n in current {
      var rest := current - {n};
      responses := SomeListing(rest);
      responses := responses + [current[n]];
      assert forall k :: k in current <==> k in rest || k == n;
      assert current.Values == rest.Values + {current[n]};
      assert current[n] !in rest.Values;
    }
  }

  /** A reconcile always has something it can do. */
  lemma SomePlan(task: Task, timeout: int, now: int) returns (e: Effect)
    ensures Plans(task, timeout, now, true, e)
  {
    var started := task.status.(startTime := Some(StartOf(task)));
    var requeue := Some(WaitTime(StartOf(task), timeout, now));
    if TimedOut(StartOf(task), timeout, now) {
      e := Effect(Some(started.(state := RejectedState)), MarkFailed, None);
    } else if !GateOpen(task) {
      e := Effect(None, NoMark, requeue);
    } else if Responders(task.spec.approvers) == map[] {
      e := Effect(None, MarkOf(started.state), requeue);
    } else {
      RespondersKeyed(task.spec.approvers);
      var responses := SomeListing(Responders(task.spec.approvers));
      var write := started.(state := NextState(task.spec, started.state), responses := responses,
                            approvalsRequired := task.spec.required,
                            approvalsReceived := |ApprovedUsers(task.spec.approvers)|);
      e := Effect(Some(write), MarkOf(write.state), requeue);
    }
  }

  /** A reconcile that reads and writes, when nothing else happens. */
  lemma ReadAndWrite(timeout: int, ss: seq<System>, es: seq<Event>) returns (e: Effect, t: System, u: System)
    requires IsRun(timeout, ss, es) && Last(ss).run.Running? && Last(ss).phase.Idle?
    ensures Plans(Last(ss).task, timeout, Last(ss).clock, true, e)
    ensures IsRun(timeout, ss + [t, u], es + [Event.Read(e), WriteStatus])
    ensures IsCliRun(timeout, ss, es) ==> IsCliRun(timeout, ss + [t, u], es + [Event.Read(e), WriteStatus])
    ensures u.task == Reconciled(Last(ss).task, e) && u.run.Running? && u.phase == MarkDue(e.mark)
  {
    var s := Last(ss);
    e := SomePlan(s.task, timeout, s.clock);
    t := s.(phase := Planned(s.version, e));
    u := Wrote(t);
    Extend(timeout, ss, es, Event.Read(e), t);
    Extend(timeout, ss + [t], es + [Event.Read(e)], WriteStatus, u);
    assert ss + [t] + [u] == ss + [t, u];
    assert es + [Event.Read(e)] + [WriteStatus] == es + [Event.Read(e), WriteStatus];
  }

  /** A group as created. */
  function NewGroup(name: string): Approver {
    Approver(name, Pending, "", Group, [])
  }

  function Start(approvers: seq<Approver>, required: int): System {
    var status := Status(PendingState, [], [], None, required, 0);
    System(Task(Spec(approvers, required), status, Some(Compute(approvers)), 1), 0, Running, Idle, 1)
  }

  lemma StartIsARun(timeout: int, approvers: seq<Approver>, required: int)
    requires LegalSpec(Spec(approvers, required)) && AllPending(approvers)
    ensures IsCliRun(timeout, [Start(approvers, required)], [])
  {
  }

  lemma QaIsLegal(required: int)
    requires required > 0
    ensures LegalSpec(Spec([NewGroup("qa")], required)) && AllPending([NewGroup("qa")])
    ensures ValidUserName("ann") && ValidUserName("bob") && ValidUserName("cal")
  {
    assert 'q' in "qa" && !IsSpace('q');
    assert 'a' in "ann" && !IsSpace('a') && "ann"[0] != GROUP_PREFIX[0];
    assert 'b' in "bob" && !IsSpace('b') && "bob"[0] != GROUP_PREFIX[0];
    assert 'c' in "cal" && !IsSpace('c') && "cal"[0] != GROUP_PREFIX[0];
  }

  function AfterAct(s: System, o: Options): System {
    s.(task := s.task.(spec := Acted(s, o)), version := s.version + 1)
  }

  lemma FreshAct(timeout: int, ss: seq<System>, es: seq<Event>, o: Options)
    requires IsCliRun(timeout, ss, es) && Decided(o.input) && ValidUserName(o.user)
    requires !Final(Last(ss).task.status.state) && !QuorumReached(Last(ss).task.spec)
    requires Last(ss).task.status.responses == [] && Fresh(Last(ss).task.spec.approvers, o)
    ensures IsCliRun(timeout, ss + [AfterAct(Last(ss), o)], es + [Act(o)])
  {
    var s := Last(ss);
    RunInv(timeout, ss, es, |ss| - 1);
    FreshUserIsAdmitted(s.task, o);
    CliUpdateSkeleton(s.task.spec.approvers, o);
    Extend(timeout, ss, es, Act(o), AfterAct(s, o));
  }

  /** Group `qa` with a level and a roster. */
  function Qa(level: Input, users: seq<UserDetails>): Approver {
    Approver("qa", level, "", Group, users)
  }

  lemma QaApprovals(level: Input, users: seq<UserDetails>)
    ensures ApprovedUsers([Qa(level, users)]) == if level.Approve? then RosterApprovals(users) else {}
    ensures HasReject([Qa(level, users)]) <==> level.Reject?
  {
    var qa := Qa(level, users);
    assert qa in [qa];
    assert forall n :: n in ApprovedUsers([qa]) <==> Approves(qa, n);
    assert forall n :: Approves(qa, n) <==> level.Approve? && n in RosterApprovals(users);
  }

  lemma SubsetIsNoLarger(xs: set<string>, ys: set<string>)
    requires xs <= ys
    ensures |xs| <= |ys|
  {
    assert ys == xs + (ys - xs);
  }

  /** The task is open and no response is on record. */
  predicate Quiet(s: System) {
    && s.task.status.responses == [] && Undecided(s.task.status.state) && s.run.Running? && s.phase.Idle?
    && s.clock == s.task.creation == 1
  }

  /** One more member of `qa` acts. */
  lemma QaAct(timeout: int, ss: seq<System>, es: seq<Event>, level: Input, users: seq<UserDetails>,
              user: string, input: Input, after: seq<UserDetails>)
    returns (t: System)
    requires IsCliRun(timeout, ss, es) && Quiet(Last(ss)) && Last(ss).task.spec.approvers == [Qa(level, users)]
    requires !QuorumReached(Last(ss).task.spec)
    requires Decided(input) && ValidUserName(user) && (forall u :: u in users ==> u.name != user)
    requires after == users + [UserDetails(user, input, "")]
    ensures IsCliRun(timeout, ss + [t], es + [Act(Options(user, ["qa"], input, ""))])
    ensures Quiet(t) && t.task.spec.required == Last(ss).task.spec.required
    ensures t.task.spec.approvers == [Qa(input, after)]
  {
    var o := Options(user, ["qa"], input, "");
    assert Qa(level, users) in [Qa(level, users)] && Touches(Qa(level, users), o);
    FreshAct(timeout, ss, es, o);
    UpdateRosterAt(users, o, |users|);
    t := AfterAct(Last(ss), o);
  }

  lemma QaStart(timeout: int, required: int)
    requires required > 0
    ensures IsCliRun(timeout, [Start([NewGroup("qa")], required)], [])
    ensures Quiet(Start([NewGroup("qa")], required)) && NewGroup("qa") == Qa(Pending, [])
  {
    QaIsLegal(required);
    StartIsARun(timeout, [NewGroup("qa")], required);
  }

  // ---------- a rejection that nobody saw ----------

  lemma RejectThenApprove(timeout: int) returns (ss: seq<System>, es: seq<Event>)
    ensures IsCliRun(timeout, ss, es)
    ensures es == [Act(Options("ann", ["qa"], Reject, "")), Act(Options("bob", ["qa"], Approve, ""))]
    ensures ss[1].task.spec.approvers == [Qa(Reject, [UserDetails("ann", Reject, "")])]
    ensures ss[2].task.spec.approvers
         == [Qa(Approve, [UserDetails("ann", Reject, ""), UserDetails("bob", Approve, "")])]
    ensures ss[2].task.spec.required == 1 && Quiet(ss[2])
  {
    QaStart(timeout, 1);
    QaIsLegal(1);
    ss, es := [Start([NewGroup("qa")], 1)], [];
    QaApprovals(Pending, []);
    var t := QaAct(timeout, ss, es, Pending, [], "ann", Reject, [UserDetails("ann", Reject, "")]);
    ss, es := ss + [t], es + [Act(Options("ann", ["qa"], Reject, ""))];
    QaApprovals(Reject, [UserDetails("ann", Reject, "")]);
    t := QaAct(timeout, ss, es, Reject, [UserDetails("ann", Reject, "")], "bob", Approve,
               [UserDetails("ann", Reject, ""), UserDetails("bob", Approve, "")]);
    ss, es := ss + [t], es + [Act(Options("bob", ["qa"], Approve, ""))];
  }

  /** One group, one member rejects through it, another approves before a reconcile ran: both are let
      through, and every reconcile in time approves the task. */
  lemma RejectionOverwritten(timeout: int) returns (ss: seq<System>, es: seq<Event>)
    requires timeout >= 0
    ensures IsCliRun(timeout, ss, es)
    ensures es == [Act(Options("ann", ["qa"], Reject, "")), Act(Options("bob", ["qa"], Approve, ""))]
    ensures HasReject(ss[1].task.spec.approvers) && !Overdue(timeout, ss[2])
    ensures forall e :: Plans(ss[2].task, timeout, ss[2].clock, true, e) ==> StateAfter(ss[2].task, e) == ApprovedState
  {
    ss, es := RejectThenApprove(timeout);
    var ann, bob := UserDetails("ann", Reject, ""), UserDetails("bob", Approve, "");
    QaApprovals(Reject, [ann]);
    QaApprovals(Approve, [ann, bob]);
    assert bob in [ann, bob];
    assert RosterApprovals([ann, bob]) == {"bob"};
    forall e | Plans(ss[2].task, timeout, ss[2].clock, true, e)
      ensures StateAfter(ss[2].task, e) == ApprovedState
    {
      DecisionIsExact(timeout, ss, es, 2, e);
    }
  }

  // ---------- a rejection without an answer ----------

  lemma BareRejectionIsAdmitted(task: Task, rejected: Spec, req: Requester)
    requires task == Start([NewGroup("qa")], 1).task
    requires rejected == Spec([Qa(Reject, [])], 1) && req == Requester("ann", ["qa"])
    ensures Admit(Update, task, rejected, req) == Allowed && SameSkeleton(task.spec.approvers, rejected.approvers)
  {
    var qa := NewGroup("qa");
    QaIsLegal(1);
    assert LegalApprover(qa);
    assert LegalSpec(rejected);
    PendingListIsUndecided(task.spec);
    assert task.spec.approvers[0] in task.spec.approvers && Speaks(qa, req);
    assert EntryChange(qa, Some(rejected.approvers[0]), req) == Some(ValidChange);
    AdmittedExactly(task, rejected, req);
  }

  /** An update other than the client's sets only the level of a group to reject: the webhook admits
      it, and every reconcile in time leaves the task undecided. */
  lemma GroupRejectionCanBeMissed(timeout: int) returns (ss: seq<System>, es: seq<Event>)
    requires timeout >= 0
    ensures IsRun(timeout, ss, es) && |ss| == 2
    ensures es == [Edit(Spec([Qa(Reject, [])], 1), Requester("ann", ["qa"]))]
    ensures Decide(ss[1].task.spec) == RejectedState && !Overdue(timeout, ss[1])
    ensures forall e :: Plans(ss[1].task, timeout, ss[1].clock, true, e) ==> Undecided(StateAfter(ss[1].task, e))
  {
    var rejected, req := Spec([Qa(Reject, [])], 1), Requester("ann", ["qa"]);
    var s := Start([NewGroup("qa")], 1);
    QaStart(timeout, 1);
    BareRejectionIsAdmitted(s.task, rejected, req);
    var t := s.(task := s.task.(spec := rejected), version := 1);
    Extend(timeout, [s], [], Edit(rejected, req), t);
    ss, es := [s, t], [Edit(rejected, req)];
    assert [s] + [t] == ss && [] + [Edit(rejected, req)] == es;
    QaApprovals(Reject, []);
    GuardExactly(rejected.approvers);
  }

  // ---------- a requirement that moves ----------

  function NewUser(name: string): Approver {
    Approver(name, Pending, "", User, [])
  }

  lemma AnnAndBobAreLegal()
    ensures LegalSpec(Spec([NewUser("ann"), NewUser("bob")], 2))
    ensures LegalSpec(Spec([NewUser("ann").(input := Approve), NewUser("bob")], 1))
  {
    QaIsLegal(1);
    assert "ann"[0] != "bob"[0];
  }

  lemma OneApproves(approved: Spec)
    requires approved == Spec([NewUser("ann").(input := Approve), NewUser("bob")], 1)
    ensures QuorumReached(approved) && !HasReject(approved.approvers) && Responders(approved.approvers) != map[]
  {
    var ann := approved.approvers[0];
    assert ann in approved.approvers && Approves(ann, "ann") && Responds(ann);
    SubsetIsNoLarger({"ann"}, ApprovedUsers(approved.approvers));
    GuardExactly(approved.approvers);
  }

  lemma LoweringIsAdmitted(task: Task, approved: Spec, req: Requester)
    requires task == Start([NewUser("ann"), NewUser("bob")], 2).task
    requires approved == Spec([NewUser("ann").(input := Approve), NewUser("bob")], 1) && req == Requester("ann", [])
    ensures Admit(Update, task, approved, req) == Allowed && SameSkeleton(task.spec.approvers, approved.approvers)
  {
    AnnAndBobAreLegal();
    PendingListIsUndecided(task.spec);
    var ann := task.spec.approvers[0];
    assert ann in task.spec.approvers && Speaks(ann, req);
    assert EntryChange(ann, Some(approved.approvers[0]), req) == Some(ValidChange);
    forall k | 0 <= k < 2
      ensures EntryFrame(task.spec.approvers[k], approved.approvers[k], req)
    {
      assert "ann" != "bob";
    }
    AdmittedExactly(task, approved, req);
  }

  /** That the requirement stays is an assumption about writers, not something the webhook enforces:
      of a task that needs ann and bob it admits an update by ann that approves and asks for one
      approval only, and every reconcile in time then approves the task. */
  lemma RequirementCanMove(timeout: int) returns (s: System, approved: Spec)
    requires timeout >= 0
    ensures IsCliRun(timeout, [s], []) && s.task.spec == Spec([NewUser("ann"), NewUser("bob")], 2)
    ensures Admit(Update, s.task, approved, Requester("ann", [])) == Allowed
    ensures SameSkeleton(s.task.spec.approvers, approved.approvers) && approved.required == 1
    ensures ApprovedUsers(approved.approvers) <= {"ann"}
    ensures forall e :: Plans(s.task.(spec := approved), timeout, s.clock, true, e) ==>
              StateAfter(s.task.(spec := approved), e) == ApprovedState
  {
    s := Start([NewUser("ann"), NewUser("bob")], 2);
    approved := Spec([NewUser("ann").(input := Approve), NewUser("bob")], 1);
    AnnAndBobAreLegal();
    StartIsARun(timeout, s.task.spec.approvers, 2);
    LoweringIsAdmitted(s.task, approved, Requester("ann", []));
    OneApproves(approved);
    assert s.task.spec.approvers[0] != approved.approvers[0];
  }

  // ---------- an approval that brings back another ----------

  lemma ApproveThenReject(timeout: int) returns (ss: seq<System>, es: seq<Event>)
    ensures IsCliRun(timeout, ss, es) && |ss| == 3 && Quiet(ss[2]) && ss[2].task.spec.required == 3
    ensures es == [Act(Options("ann", ["qa"], Approve, "")), Act(Options("bob", ["qa"], Reject, ""))]
    ensures ss[2].task.spec.approvers == [Qa(Reject, [UserDetails("ann", Approve, ""), UserDetails("bob", Reject, "")])]
  {
    QaStart(timeout, 3);
    QaIsLegal(3);
    var ann, bob := UserDetails("ann", Approve, ""), UserDetails("bob", Reject, "");
    ss, es := [Start([NewGroup("qa")], 3)], [];
    QaApprovals(Pending, []);
    var t := QaAct(timeout, ss, es, Pending, [], "ann", Approve, [ann]);
    ss, es := ss + [t], es + [Act(Options("ann", ["qa"], Approve, ""))];
    QaApprovals(Approve, [ann]);
    SubsetIsNoLarger(RosterApprovals([ann]), {"ann"});
    t := QaAct(timeout, ss, es, Approve, [ann], "bob", Reject, [ann, bob]);
    ss, es := ss + [t], es + [Act(Options("bob", ["qa"], Reject, ""))];
  }

  lemma AnnAndCal(ann: UserDetails, bob: UserDetails, cal: UserDetails)
    requires ann.name == "ann" && bob.name == "bob" && cal.name == "cal"
    requires ann.input.Approve? && bob.input.Reject? && cal.input.Approve?
    ensures ApprovedUsers([Qa(Reject, [ann, bob])]) == {}
    ensures ApprovedUsers([Qa(Approve, [ann, bob, cal])]) == {"ann", "cal"}
  {
    QaApprovals(Reject, [ann, bob]);
    QaApprovals(Approve, [ann, bob, cal]);
    assert ann in [ann, bob, cal] && cal in [ann, bob, cal];
    assert RosterApprovals([ann, bob, cal]) == {"ann", "cal"};
  }

  /** Ann approves, bob's rejection puts that out of force, and when cal approves both count: with
      rejections around a single approval can add two users. */
  lemma ApprovalCanReviveAnother(timeout: int) returns (ss: seq<System>, es: seq<Event>)
    ensures IsCliRun(timeout, ss, es)
    ensures es == [Act(Options("ann", ["qa"], Approve, "")), Act(Options("bob", ["qa"], Reject, "")),
                   Act(Options("cal", ["qa"], Approve, ""))]
    ensures ApprovedUsers(ss[2].task.spec.approvers) == {}
    ensures ApprovedUsers(ss[3].task.spec.approvers) == {"ann", "cal"}
  {
    ss, es := ApproveThenReject(timeout);
    var ann, bob := UserDetails("ann", Approve, ""), UserDetails("bob", Reject, "");
    var cal := UserDetails("cal", Approve, "");
    QaIsLegal(3);
    AnnAndCal(ann, bob, cal);
    var t := QaAct(timeout, ss, es, Reject, [ann, bob], "cal", Approve, [ann, bob, cal]);
    ss, es := ss + [t], es + [Act(Options("cal", ["qa"], Approve, ""))];
  }

  // ---------- an approval on record ----------

  predicate IsCreated(approvers: seq<Approver>) {
    LegalSpec(Spec(approvers, 2)) && AllPending(approvers)
  }

  /** The first approval on the list `created` makes it `approvers`. */
  predicate LeadsTo(created: seq<Approver>, o: Options, approvers: seq<Approver>) {
    && o.input.Approve? && ValidUserName(o.user) && Fresh(created, o)
    && CliUpdate(created, o) == approvers && approvers != created
  }

  /** One approval, by `user`, is there to be shown, and another one is needed. */
  predicate IsHalfway(approvers: seq<Approver>, user: string) {
    && DistinctNames(approvers) && |ApprovedUsers(approvers)| < 2 && !HasReject(approvers)
    && HasResponder(approvers) && Shows(approvers, user, ApprovedState) && !Shows(approvers, user, RejectedState)
  }

  lemma ReconcileRecords(task: Task, o: Options, timeout: int, now: int, e: Effect)
    requires GateOpen(task) && Undecided(task.status.state) && task.spec.required == 2
    requires IsHalfway(task.spec.approvers, o.user)
    requires Plans(task, timeout, now, true, e) && !TimedOut(StartOf(task), timeout, now)
    ensures Recorded(Reconciled(task, e).status.responses, o.user, ApprovedState)
    ensures !Recorded(Reconciled(task, e).status.responses, o.user, RejectedState)
    ensures Undecided(Reconciled(task, e).status.state)
  {
    GuardExactly(task.spec.approvers);
    RecordedExactly(task.spec.approvers, e.write.value.responses, o.user, ApprovedState);
    RecordedExactly(task.spec.approvers, e.write.value.responses, o.user, RejectedState);
  }

  lemma FirstApproval(timeout: int, created: seq<Approver>, o: Options, approvers: seq<Approver>) returns (t: System)
    requires IsCreated(created) && LeadsTo(created, o, approvers)
    ensures IsCliRun(timeout, [Start(created, 2), t], [Act(o)])
    ensures Quiet(t) && t.task.spec == Spec(approvers, 2) && GateOpen(t.task)
  {
    var s := Start(created, 2);
    StartIsARun(timeout, created, 2);
    PendingListIsUndecided(s.task.spec);
    FreshAct(timeout, [s], [], o);
    t := AfterAct(s, o);
    assert [s] + [t] == [s, t] && [] + [Act(o)] == [Act(o)];
  }

  lemma ApprovalOnRecord(timeout: int, created: seq<Approver>, o: Options, approvers: seq<Approver>)
    returns (ss: seq<System>, es: seq<Event>)
    requires timeout >= 0
    requires IsCreated(created) && LeadsTo(created, o, approvers) && IsHalfway(approvers, o.user)
    ensures IsCliRun(timeout, ss, es) && |es| == 3 && |ss| == 4
    ensures ss[0] == Start(created, 2) && es[0] == Act(o) && es[1].Read? && es[2] == WriteStatus
    ensures ss[3].task.spec == Spec(approvers, 2) && Undecided(ss[3].task.status.state)
    ensures Recorded(ss[3].task.status.responses, o.user, ApprovedState)
    ensures !Recorded(ss[3].task.status.responses, o.user, RejectedState)
  {
    var s := FirstApproval(timeout, created, o, approvers);
    ss, es := [Start(created, 2), s], [Act(o)];
    var e, t, u := ReadAndWrite(timeout, ss, es);
    RunInv(timeout, ss, es, 1);
    ReconcileRecords(s.task, o, timeout, s.clock, e);
    ss, es := ss + [t, u], es + [Event.Read(e), WriteStatus];
  }

  /** Groups `g1` and `g2`. */
  function TwoGroups(level1: Input, users1: seq<UserDetails>, level2: Input, users2: seq<UserDetails>): seq<Approver> {
    [Approver("g1", level1, "", Group, users1), Approver("g2", level2, "", Group, users2)]
  }

  lemma NewGroupsAreCreated(users: seq<UserDetails>)
    requires LegalRoster(users) && forall u :: u in users ==> u.input.Pending?
    ensures IsCreated(TwoGroups(Pending, users, Pending, []))
  {
    assert 'g' in "g1" && 'g' in "g2" && !IsSpace('g') && "g2"[1] != "g1"[1];
  }

  lemma DistinctGroupNames(approvers: seq<Approver>)
    requires |approvers| == 2 && approvers[0].name == "g1" && approvers[1].name == "g2"
    ensures DistinctNames(approvers)
  {
    assert "g2"[1] != "g1"[1];
  }

  lemma OneApprovalIsHalfway(approvers: seq<Approver>, k: nat)
    requires DistinctNames(approvers) && k < |approvers| && forall a :: a in approvers ==> a.IsGroup()
    requires forall a, u :: a in approvers && u in a.users ==> u.name == "ann" && !u.input.Reject?
    requires forall a :: a in approvers ==> !a.input.Reject?
    requires approvers[k].input.Approve? && UserDetails("ann", Approve, "") in approvers[k].users
    ensures IsHalfway(approvers, "ann")
  {
    assert ApprovedUsers(approvers) <= {"ann"};
    SubsetIsNoLarger(ApprovedUsers(approvers), {"ann"});
    assert Responds(approvers[k]);
    assert EntryShows(approvers, approvers[k], "ann", ApprovedState);
  }

  // ---------- other groups than before ----------

  function AnnApproved(): seq<Approver> {
    TwoGroups(Approve, [UserDetails("ann", Approve, "")], Pending, [])
  }

  lemma GroupsUpdated(created: seq<Approver>, o: Options, approvers: seq<Approver>)
    requires |created| == |approvers| == 2 && created[0].IsGroup() && created[1].IsGroup()
    requires approvers[0] == UpdateEntry(created[0], o, false) && approvers[1] == UpdateEntry(created[1], o, false)
    ensures CliUpdate(created, o) == approvers
  {
    assert !IsIndividual(created, o.user);
  }

  lemma AnnThroughG1(created: seq<Approver>, o: Options)
    requires created == TwoGroups(Pending, [], Pending, []) && o == Options("ann", ["g1"], Approve, "")
    ensures LeadsTo(created, o, AnnApproved())
  {
    QaIsLegal(2);
    assert "g2"[1] != "g1"[1];
    assert created[0] in created && Touches(created[0], o);
    GroupsUpdated(created, o, AnnApproved());
    assert AnnApproved()[0] != created[0];
  }

  lemma AnnIsHalfway()
    ensures IsHalfway(AnnApproved(), "ann")
  {
    DistinctGroupNames(AnnApproved());
    OneApprovalIsHalfway(AnnApproved(), 0);
  }

  lemma OtherGroupIsReadAsApproval(reject: Options)
    requires reject == Options("ann", ["g2"], Reject, "")
    ensures UserExists(AnnApproved(), RequesterOf(reject)) && ReadAsApproval(AnnApproved(), reject)
  {
    var g1 := AnnApproved()[0];
    assert "g2"[1] != "g1"[1] && UserDetails("ann", Approve, "") in g1.users;
    assert g1 in AnnApproved() && Speaks(g1, RequesterOf(reject));
    assert !IsIndividual(AnnApproved(), "ann");
    assert ReadsApproveAt(AnnApproved(), reject, 0);
  }

  /** Ann's approval through `g1` is on record and the task is open; carrying `g2` only, she wants
      to reject, and the webhook turns her away as already decided. */
  lemma ChangedGroupsBlockRejection(timeout: int) returns (ss: seq<System>, es: seq<Event>)
    requires timeout >= 0
    ensures IsCliRun(timeout, ss, es) && |es| == 3 && |ss| == 4
    ensures es[0] == Act(Options("ann", ["g1"], Approve, "")) && es[1].Read? && es[2] == WriteStatus
    ensures !Final(ss[3].task.status.state) && !QuorumReached(ss[3].task.spec)
    ensures var reject := Options("ann", ["g2"], Reject, "");
            Admit(Update, ss[3].task, Acted(ss[3], reject), RequesterOf(reject)) == AlreadyDecided
  {
    var approve, reject := Options("ann", ["g1"], Approve, ""), Options("ann", ["g2"], Reject, "");
    var created := TwoGroups(Pending, [], Pending, []);
    NewGroupsAreCreated([]);
    AnnThroughG1(created, approve);
    AnnIsHalfway();
    ss, es := ApprovalOnRecord(timeout, created, approve, AnnApproved());
    RunInv(timeout, ss, es, 3);
    OtherGroupIsReadAsApproval(reject);
    TurnedAwayExactly(ss[3].task, reject);
  }

  // ---------- a member from the start ----------

  /** `g1` with ann on the roster from the start, and her approval through `g2`. */
  function PresetApproved(): seq<Approver> {
    TwoGroups(Pending, [UserDetails("ann", Pending, "")], Approve, [UserDetails("ann", Approve, "")])
  }

  lemma PresetMemberApproves(created: seq<Approver>, o: Options)
    requires created == TwoGroups(Pending, [UserDetails("ann", Pending, "")], Pending, [])
    requires o == Options("ann", ["g2"], Approve, "")
    ensures LeadsTo(created, o, PresetApproved())
  {
    QaIsLegal(2);
    assert "g2"[1] != "g1"[1];
    assert created[1] in created && Touches(created[1], o);
    GroupsUpdated(created, o, PresetApproved());
    assert PresetApproved()[1] != created[1];
  }

  lemma PresetMemberIsHalfway()
    ensures IsHalfway(PresetApproved(), "ann")
  {
    DistinctGroupNames(PresetApproved());
    OneApprovalIsHalfway(PresetApproved(), 1);
  }

  lemma PresetEntryIsReadFirst(again: Options)
    requires again == Options("ann", ["g2"], Approve, "")
    ensures UserExists(PresetApproved(), RequesterOf(again)) && !ReadAsApproval(PresetApproved(), again)
  {
    var pending := UserDetails("ann", Pending, "");
    var approvers := PresetApproved();
    assert "g2"[1] != "g1"[1] && pending in approvers[0].users;
    assert approvers[0] in approvers && Speaks(approvers[0], RequesterOf(again));
    assert ConcernsUser(approvers[0], again);
  }

  /** Ann was put on the roster of `g1` when the task was created and carries `g2`. With her approval
      on record, approving again is not turned away as already decided: the webhook reads the
      pending entry in `g1` first. */
  lemma PresetMemberIsNotTurnedAway(timeout: int) returns (ss: seq<System>, es: seq<Event>)
    requires timeout >= 0
    ensures IsCliRun(timeout, ss, es) && |es| == 3 && |ss| == 4
    ensures es[0] == Act(Options("ann", ["g2"], Approve, "")) && es[1].Read? && es[2] == WriteStatus
    ensures !Final(ss[3].task.status.state) && !QuorumReached(ss[3].task.spec)
    ensures Recorded(ss[3].task.status.responses, "ann", ApprovedState)
    ensures var again := Options("ann", ["g2"], Approve, "");
            Admit(Update, ss[3].task, Acted(ss[3], again), RequesterOf(again)) != AlreadyDecided
  {
    var again, pending := Options("ann", ["g2"], Approve, ""), UserDetails("ann", Pending, "");
    var created := TwoGroups(Pending, [pending], Pending, []);
    QaIsLegal(2);
    NewGroupsAreCreated([pending]);
    PresetMemberApproves(created, again);
    PresetMemberIsHalfway();
    ss, es := ApprovalOnRecord(timeout, created, again, PresetApproved());
    RunInv(timeout, ss, es, 3);
    PresetEntryIsReadFirst(again);
    TurnedAwayExactly(ss[3].task, again);
  }

  // ---------- an approval that expires ----------

  lemma CrashAndWait(timeout: int, ss: seq<System>, es: seq<Event>, now: int)
    requires IsRun(timeout, ss, es) && now >= Last(ss).clock
    ensures IsRun(timeout, ss + [Last(ss).(phase := Idle), Last(ss).(phase := Idle, clock := now)],
                  es + [Crash, Tick(now)])
  {
    var idle := Last(ss).(phase := Idle);
    var late := idle.(clock := now);
    Extend(timeout, ss, es, Crash, idle);
    Extend(timeout, ss + [idle], es + [Crash], Tick(now), late);
    assert ss + [idle] + [late] == ss + [idle, late];
    assert es + [Crash] + [Tick(now)] == es + [Crash, Tick(now)];
  }

  /** The exception in `FinalMeansFinal` is always open: from every reachable state in which the task
      is approved and the run not marked yet, a crash, the deadline and one more reconcile lead to a
      rejected task and a failed run. */
  lemma UnmarkedApprovalCanExpire(timeout: int, ss: seq<System>, es: seq<Event>)
    returns (ss': seq<System>, es': seq<Event>)
    requires IsRun(timeout, ss, es) && ss[0].task.creation != 0
    requires Last(ss).task.status.state == ApprovedState && Last(ss).run.Running?
    ensures IsRun(timeout, ss', es') && ss <= ss' && es <= es'
    ensures Last(ss').task.status.state == RejectedState && Last(ss').run.Failed?
    ensures Last(ss').task.spec == Last(ss).task.spec
  {
    RunInv(timeout, ss, es, |ss| - 1);
    var s, deadline := Last(ss), ss[0].task.creation + timeout;
    var now := if s.clock > deadline then s.clock else deadline + 1;
    CrashAndWait(timeout, ss, es, now);
    ss', es' := ss + [s.(phase := Idle), s.(phase := Idle, clock := now)], es + [Crash, Tick(now)];
    var e, t, u := ReadAndWrite(timeout, ss', es');
    var v := u.(run := Failed, phase := Idle);
    Extend(timeout, ss' + [t, u], es' + [Event.Read(e), WriteStatus], MarkRun, v);
    ss', es' := ss' + [t, u] + [v], es' + [Event.Read(e), WriteStatus] + [MarkRun];
  }

  /** And such a state is reachable: one approval, and a reconcile that stops after its status
      write. */
  lemma ApprovedButUnmarked(timeout: int) returns (ss: seq<System>, es: seq<Event>)
    requires timeout >= 0
    ensures IsCliRun(timeout, ss, es) && ss[0].task.creation != 0
    ensures Last(ss).task.status.state == ApprovedState && Last(ss).run.Running?
  {
    ss, es := AnnAlone(timeout);
    QaApprovals(Approve, [UserDetails("ann", Approve, "")]);
    assert UserDetails("ann", Approve, "") in [UserDetails("ann", Approve, "")];
    assert RosterApprovals([UserDetails("ann", Approve, "")]) == {"ann"};
    var e, t, u := ReadAndWrite(timeout, ss, es);
    DecisionIsExact(timeout, ss, es, 1, e);
    ss, es := ss + [t, u], es + [Event.Read(e), WriteStatus];
  }

  lemma AnnAlone(timeout: int) returns (ss: seq<System>, es: seq<Event>)
    ensures IsCliRun(timeout, ss, es) && |ss| == 2 && Quiet(ss[1]) && ss[0].task.creation != 0
    ensures ss[1].task.spec == Spec([Qa(Approve, [UserDetails("ann", Approve, "")])], 1)
  {
    QaStart(timeout, 1);
    QaIsLegal(1);
    ss, es := [Start([NewGroup("qa")], 1)], [];
    QaApprovals(Pending, []);
    var acted := QaAct(timeout, ss, es, Pending, [], "ann", Approve, [UserDetails("ann", Approve, "")]);
    ss, es := ss + [acted], es + [Act(Options("ann", ["qa"], Approve, ""))];
  }
}
