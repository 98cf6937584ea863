/** The whole protocol as a state machine: users edit the spec through the webhook, the controller
    reads, writes the status and marks the run, each as a step of its own, and may crash between
    any two of them. Time only moves forward. */
module Protocol {
  import opened ApprovalTypes
  import opened Quorum
  import opened Validation
  import opened Admission
  import opened AdmissionLaws
  import opened Client
  import opened Controller
  import opened ControllerLaws

  /** Where the controller is: idle, about to write the status it planned from a task read at some
      version, or about to mark the run. */
  datatype Phase = Idle | Planned(version: nat, effect: Effect) | MarkDue(mark: Mark)

  datatype System = System(task: Task, version: nat, run: RunOutcome, phase: Phase, clock: int)

  datatype Event =
    | Tick(now: int)
    | Edit(proposed: Spec, req: Requester)   // any admitted update of the spec
    | Act(options: Options)                  // an admitted update sent by the client
    | Read(effect: Effect)
    | WriteStatus
    | MarkRun
    | Crash

  /** An admitted update. Entries keep their places, names and types and the requirement stays:
      the webhook compares by position and leaves both to the writer. */
  predicate Submits(s: System, proposed: Spec, req: Requester, t: System) {
    && SameSkeleton(s.task.spec.approvers, proposed.approvers) && proposed.required == s.task.spec.required
    && Admit(Update, s.task, proposed, req) == Allowed
    && t == s.(task := s.task.(spec := proposed), version := s.version + 1)
  }

  function Acted(s: System, o: Options): Spec {
    Rewrite(s.task.spec, o)
  }

  /** The planned status write: a conflict, on a task that moved on since it was read, ends the
      reconcile. */
  function Wrote(s: System): System
    requires s.phase.Planned?
  {
    match s.phase.effect.write
    case None => s.(phase := MarkDue(s.phase.effect.mark))
    case Some(status) =>
      if s.phase.version == s.version
      then s.(task := s.task.(status := status), version := s.version + 1, phase := MarkDue(s.phase.effect.mark))
      else s.(phase := Idle)
  }

  predicate Next(timeout: int, s: System, e: Event, t: System) {
    match e
    case Tick(now) => s.clock <= now && t == s.(clock := now)
    case Edit(proposed, req) => Submits(s, proposed, req, t)
    case Act(o) => Decided(o.input) && Submits(s, Acted(s, o), RequesterOf(o), t)
    case Read(effect) =>
      && s.phase.Idle? && s.run.Running?
      && Plans(s.task, timeout, s.clock, true, effect)
      && t == s.(phase := Planned(s.version, effect))
    case WriteStatus =>
      && s.phase.Planned?
      && t == Wrote(s)
    case MarkRun => s.phase.MarkDue? && t == s.(run := Marked(s.run, s.phase.mark), phase := Idle)
    case Crash => t == s.(phase := Idle)
  }

  /** A task the webhook admitted on creation, whether or not its first status was written, with
      the hash annotation of its own approver list or none. */
  predicate Init(s: System) {
    && Admit(Create, s.task, s.task.spec, Requester("", [])) == Allowed
    && Undecided(s.task.status.state) && s.task.status.responses == [] && s.task.status.startTime == None
    && (s.task.hash == None || s.task.hash == Some(Compute(s.task.spec.approvers)))
    && s.run.Running? && s.phase.Idle?
  }

  predicate StepAt(timeout: int, ss: seq<System>, es: seq<Event>, i: nat)
    requires i < |es| && |ss| == |es| + 1
  {
    Next(timeout, ss[i], es[i], ss[i + 1])
  }

  predicate IsRun(timeout: int, ss: seq<System>, es: seq<Event>) {
    && |ss| == |es| + 1
    && Init(ss[0])
    && forall i :: 0 <= i < |es| ==> StepAt(timeout, ss, es, i)
  }

  /** Who requested the update an event makes. */
  function RequesterIn(e: Event): Option<Requester> {
    match e
    case Edit(_, req) => Some(req)
    case Act(o) => Some(RequesterOf(o))
    case _ => None
  }

  lemma SpecChangesAreSubmitted(timeout: int, s: System, e: Event, t: System)
    requires Next(timeout, s, e, t)
    ensures if RequesterIn(e).Some? then Submits(s, t.task.spec, RequesterIn(e).value, t)
            else t.task.spec == s.task.spec
  {
  }

  // ---------- the invariant ----------

  predicate Overdue(timeout: int, s: System) {
    TimedOut(s.task.creation, timeout, s.clock)
  }

  /** A final state is always backed by the spec it sits next to, or by the clock. */
  predicate Justified(timeout: int, s: System, state: State) {
    && (state.ApprovedState? ==> QuorumReached(s.task.spec) && !HasReject(s.task.spec.approvers))
    && (state.RejectedState? ==>
          (HasReject(s.task.spec.approvers) && HasResponder(s.task.spec.approvers)) || Overdue(timeout, s))
  }

  /** The one way out of a final state. */
  predicate MayFollow(timeout: int, s: System, state: State) {
    Final(s.task.status.state) ==>
      || state == s.task.status.state
      || (s.task.status.state.ApprovedState? && state.RejectedState? && Overdue(timeout, s))
  }

  predicate MarkMatches(mark: Mark, state: State) {
    && (mark.MarkSucceeded? ==> state.ApprovedState?)
    && (mark.MarkFailed? ==> state.RejectedState?)
  }

  predicate PhaseInv(timeout: int, s: System) {
    match s.phase
    case Idle => true
    case Planned(version, effect) =>
      && s.run.Running? && version <= s.version
      && (effect.write == None ==> MarkMatches(effect.mark, s.task.status.state))
      && (effect.write.Some? ==>
            && effect.mark == MarkOf(effect.write.value.state)
            && effect.write.value.startTime == Some(s.task.creation)
            && (version == s.version ==> Justified(timeout, s, effect.write.value.state)
                                         && MayFollow(timeout, s, effect.write.value.state)))
    case MarkDue(mark) => s.run.Running? && MarkMatches(mark, s.task.status.state)
  }

  predicate SpecInv(first: System, s: System) {
    && LegalSpec(s.task.spec)
    && SameSkeleton(first.task.spec.approvers, s.task.spec.approvers)
    && s.task.spec.required == first.task.spec.required
    && s.task.hash == first.task.hash && s.task.creation == first.task.creation
    && StartOf(s.task) == s.task.creation
  }

  predicate Inv(timeout: int, first: System, s: System) {
    && SpecInv(first, s)
    && Justified(timeout, s, s.task.status.state)
    && (s.run.Succeeded? ==> s.task.status.state.ApprovedState?)
    && (s.run.Failed? ==> s.task.status.state.RejectedState?)
    && PhaseInv(timeout, s)
  }

  lemma PlansAreJustified(timeout: int, first: System, s: System, e: Effect)
    requires Inv(timeout, first, s) && s.run.Running?
    requires Plans(s.task, timeout, s.clock, true, e)
    ensures PhaseInv(timeout, s.(phase := Planned(s.version, e)))
  {
    GuardExactly(s.task.spec.approvers);
  }

  lemma InvIsKeptBySubmission(timeout: int, first: System, s: System, proposed: Spec, req: Requester, t: System)
    requires Inv(timeout, first, s) && Submits(s, proposed, req, t)
    ensures Inv(timeout, first, t)
  {
  }

  lemma InvIsKeptByWrite(timeout: int, first: System, s: System)
    requires Inv(timeout, first, s) && s.phase.Planned?
    ensures Inv(timeout, first, Wrote(s))
  {
  }

  lemma InvIsKept(timeout: int, first: System, s: System, e: Event, t: System)
    requires Inv(timeout, first, s) && Next(timeout, s, e, t)
    ensures Inv(timeout, first, t)
  {
    match e
    case Edit(proposed, req) =>
      InvIsKeptBySubmission(timeout, first, s, proposed, req, t);
    case Act(o) =>
      InvIsKeptBySubmission(timeout, first, s, Acted(s, o), RequesterOf(o), t);
    case Read(effect) =>
      PlansAreJustified(timeout, first, s, effect);
    case WriteStatus =>
      InvIsKeptByWrite(timeout, first, s);
    case _ =>
  }

  lemma {:induction false} RunInv(timeout: int, ss: seq<System>, es: seq<Event>, i: nat)
    requires IsRun(timeout, ss, es) && i < |ss|
    ensures Inv(timeout, ss[0], ss[i])
  {
    if i > 0 {
      RunInv(timeout, ss, es, i - 1);
      assert StepAt(timeout, ss, es, i - 1);
      InvIsKept(timeout, ss[0], ss[i - 1], es[i - 1], ss[i]);
    }
  }

  lemma LegalAt(timeout: int, ss: seq<System>, es: seq<Event>, i: nat)
    requires IsRun(timeout, ss, es) && i < |ss|
    ensures LegalSpec(ss[i].task.spec)
  {
    RunInv(timeout, ss, es, i);
  }

  // ---------- task and run agree ----------

  /** Over every run with crashes anywhere: a succeeded run has an approved task, a failed run a
      rejected one, an approved task a spec with its quorum and without a rejection, and a
      rejected task a rejection in its spec or a passed deadline. */
  lemma TaskAndRunAgree(timeout: int, ss: seq<System>, es: seq<Event>, i: nat)
    requires IsRun(timeout, ss, es) && i < |ss|
    ensures ss[i].run.Succeeded? ==> ss[i].task.status.state == ApprovedState
    ensures ss[i].run.Failed? ==> ss[i].task.status.state == RejectedState
    ensures ss[i].task.status.state == ApprovedState ==>
              QuorumReached(ss[i].task.spec) && !HasReject(ss[i].task.spec.approvers)
    ensures ss[i].task.status.state == RejectedState ==>
              HasReject(ss[i].task.spec.approvers) || Overdue(timeout, ss[i])
  {
    RunInv(timeout, ss, es, i);
  }

  /** Final means final, with one exception: an approved task whose run has not been marked yet is
      turned to rejected by a status write after the deadline. Specs of final tasks never move. */
  lemma FinalMeansFinal(timeout: int, ss: seq<System>, es: seq<Event>, i: nat)
    requires IsRun(timeout, ss, es) && i < |es|
    requires Final(ss[i].task.status.state)
    ensures Final(ss[i + 1].task.status.state)
    ensures ss[i + 1].task.status.state != ss[i].task.status.state ==>
              && ss[i].task.status.state == ApprovedState && ss[i + 1].task.status.state == RejectedState
              && es[i].WriteStatus? && ss[i].run.Running? && Overdue(timeout, ss[i])
    ensures ss[i + 1].task.spec == ss[i].task.spec
    ensures !ss[i].run.Running? ==> ss[i + 1].run == ss[i].run
  {
    RunInv(timeout, ss, es, i);
    assert StepAt(timeout, ss, es, i);
  }

  lemma {:induction false} StaysFinal(timeout: int, ss: seq<System>, es: seq<Event>, i: nat, j: nat)
    requires IsRun(timeout, ss, es) && i <= j < |ss|
    requires Final(ss[i].task.status.state)
    ensures Final(ss[j].task.status.state) && ss[j].task.spec == ss[i].task.spec
    ensures ss[i].task.status.state == RejectedState ==> ss[j].task.status.state == RejectedState
    ensures !ss[i].run.Running? ==> ss[j].run == ss[i].run && ss[j].task.status.state == ss[i].task.status.state
    decreases j - i
  {
    if i < j {
      StaysFinal(timeout, ss, es, i, j - 1);
      FinalMeansFinal(timeout, ss, es, j - 1);
    }
  }

  // ---------- the hash gate ----------

  lemma PendingListIsUndecided(spec: Spec)
    requires LegalSpec(spec) && AllPending(spec.approvers)
    ensures !HasReject(spec.approvers) && ApprovedUsers(spec.approvers) == {} && !QuorumReached(spec)
    ensures Responders(spec.approvers) == map[]
  {
    GuardExactly(spec.approvers);
    assert forall n :: n !in ApprovedUsers(spec.approvers);
  }

  /** Skipping the update while the hash is unchanged loses nothing: in every reachable state a
      reconcile with the gate can do exactly what a reconcile without it can. */
  lemma HashGateIsSound(timeout: int, ss: seq<System>, es: seq<Event>, i: nat, e: Effect)
    requires IsRun(timeout, ss, es) && i < |ss|
    ensures Plans(ss[i].task, timeout, ss[i].clock, true, e) <==> Plans(ss[i].task, timeout, ss[i].clock, false, e)
  {
    RunInv(timeout, ss, es, i);
    if !GateOpen(ss[i].task) {
      assert ss[i].task.spec.approvers == ss[0].task.spec.approvers;
      PendingListIsUndecided(ss[i].task.spec);
    }
  }

  // ---------- the decision ----------

  lemma ApprovalIsAnAnswer(approvers: seq<Approver>)
    ensures ApprovedUsers(approvers) == {} || HasResponder(approvers)
  {
  }

  /** For every admitted history: a reconcile before the deadline leaves the documented state
      exactly when somebody's answer can be shown or there is nothing to decide. The one way to
      miss is a group-level rejection without any answer on record. */
  lemma DecisionExactlyWithAnswers(timeout: int, ss: seq<System>, es: seq<Event>, i: nat, e: Effect)
    requires IsRun(timeout, ss, es) && i < |ss|
    requires Plans(ss[i].task, timeout, ss[i].clock, true, e) && !Overdue(timeout, ss[i])
    ensures Agrees(StateAfter(ss[i].task, e), Decide(ss[i].task.spec))
            <==> HasResponder(ss[i].task.spec.approvers) || Decide(ss[i].task.spec) == PendingState
  {
    RunInv(timeout, ss, es, i);
    GuardExactly(ss[i].task.spec.approvers);
    ApprovalIsAnAnswer(ss[i].task.spec.approvers);
    if ss[i].task.spec.approvers == ss[0].task.spec.approvers {
      PendingListIsUndecided(ss[i].task.spec);
    }
  }

  // ---------- recovery ----------

  /** Steps `i` to `i + 2` are one reconcile that nothing interrupts. */
  predicate CompleteReconcile(es: seq<Event>, i: nat) {
    i + 2 < |es| && es[i].Read? && es[i + 1].WriteStatus? && es[i + 2].MarkRun?
  }

  lemma CompleteReconcileApplies(timeout: int, ss: seq<System>, es: seq<Event>, i: nat)
    requires IsRun(timeout, ss, es) && CompleteReconcile(es, i)
    ensures var e := es[i].effect;
            && Plans(ss[i].task, timeout, ss[i].clock, true, e)
            && ss[i + 3].task.status.state == StateAfter(ss[i].task, e)
            && ss[i + 3].task.spec == ss[i].task.spec
            && ss[i].run.Running? && ss[i + 3].run == Marked(Running, e.mark)
  {
    assert StepAt(timeout, ss, es, i);
    assert StepAt(timeout, ss, es, i + 1);
    assert StepAt(timeout, ss, es, i + 2);
  }

  /** Recovery: after a crash between the status write and the mark, the next reconcile that is not
      interrupted marks the run, in agreement with the task. */
  lemma CrashIsRepaired(timeout: int, ss: seq<System>, es: seq<Event>, i: nat)
    requires IsRun(timeout, ss, es) && CompleteReconcile(es, i)
    requires Final(ss[i].task.status.state)
    ensures ss[i + 3].run == if ss[i + 3].task.status.state == ApprovedState then Succeeded else Failed
    ensures Final(ss[i + 3].task.status.state)
  {
    CompleteReconcileApplies(timeout, ss, es, i);
    RunInv(timeout, ss, es, i);
    if ss[i].task.spec.approvers == ss[0].task.spec.approvers {
      PendingListIsUndecided(ss[i].task.spec);
    }
  }

  // ---------- who approved ----------

  /** Some entry of `n`'s own reads approve. */
  predicate OwnApproval(approvers: seq<Approver>, n: string) {
    exists a :: a in approvers && EntryOwnApproval(a, n)
  }

  predicate EntryOwnApproval(a: Approver, n: string) {
    (a.IsUser() && a.name == n && a.input.Approve?) || (a.IsGroup() && Holds(a.users, n, Approve))
  }

  /** Before point `i` of the run, `n` requested an admitted update after which an entry of their
      own read approve. */
  predicate Authored(ss: seq<System>, es: seq<Event>, i: nat, n: string)
    requires i < |ss| == |es| + 1
  {
    exists j :: 0 <= j < i && AuthoredAt(ss, es, j, n)
  }

  predicate AuthoredAt(ss: seq<System>, es: seq<Event>, j: nat, n: string)
    requires j < |es| && |ss| == |es| + 1
  {
    && RequesterIn(es[j]).Some? && RequesterIn(es[j]).value.user == n
    && OwnApproval(ss[j + 1].task.spec.approvers, n)
  }

  lemma OthersOwnApprovalsAreKept(s: System, proposed: Spec, req: Requester, t: System, n: string)
    requires LegalSpec(s.task.spec) && Submits(s, proposed, req, t)
    requires n != req.user && OwnApproval(t.task.spec.approvers, n)
    ensures OwnApproval(s.task.spec.approvers, n)
  {
    SingleAuthor(s.task, proposed, req);
    var k :| 0 <= k < |proposed.approvers| && EntryOwnApproval(proposed.approvers[k], n);
    assert EntryFrame(s.task.spec.approvers[k], proposed.approvers[k], req);
    assert s.task.spec.approvers[k] in s.task.spec.approvers;
  }

  lemma OwnApprovalStep(timeout: int, s: System, e: Event, t: System, n: string)
    requires LegalSpec(s.task.spec) && Next(timeout, s, e, t)
    requires OwnApproval(t.task.spec.approvers, n)
    ensures (RequesterIn(e).Some? && RequesterIn(e).value.user == n) || OwnApproval(s.task.spec.approvers, n)
  {
    SpecChangesAreSubmitted(timeout, s, e, t);
    if RequesterIn(e).Some? && RequesterIn(e).value.user != n {
      OthersOwnApprovalsAreKept(s, t.task.spec, RequesterIn(e).value, t, n);
    }
  }

  lemma {:induction false} OwnApprovalsAreAuthored(timeout: int, ss: seq<System>, es: seq<Event>, i: nat, n: string)
    requires IsRun(timeout, ss, es) && i < |ss|
    requires OwnApproval(ss[i].task.spec.approvers, n)
    ensures Authored(ss, es, i, n)
  {
    if i > 0 {
      RunInv(timeout, ss, es, i - 1);
      assert StepAt(timeout, ss, es, i - 1);
      OwnApprovalStep(timeout, ss[i - 1], es[i - 1], ss[i], n);
      if !AuthoredAt(ss, es, i - 1, n) {
        OwnApprovalsAreAuthored(timeout, ss, es, i - 1, n);
      }
    }
  }

  /** Quorum provenance: an approved task was approved by as many distinct users as it requires,
      each of them the requester of an admitted update that left their own entry at approve. */
  lemma ApprovedByAQuorum(timeout: int, ss: seq<System>, es: seq<Event>, i: nat)
    requires IsRun(timeout, ss, es) && i < |ss|
    requires ss[i].task.status.state == ApprovedState
    ensures |ApprovedUsers(ss[i].task.spec.approvers)| >= ss[0].task.spec.required
    ensures forall n :: n in ApprovedUsers(ss[i].task.spec.approvers) ==> Authored(ss, es, i, n)
  {
    RunInv(timeout, ss, es, i);
    forall n | n in ApprovedUsers(ss[i].task.spec.approvers)
      ensures Authored(ss, es, i, n)
    {
      var a :| a in ss[i].task.spec.approvers && Approves(a, n);
      assert EntryOwnApproval(a, n);
      OwnApprovalsAreAuthored(timeout, ss, es, i, n);
    }
  }

  // ---------- who is on a roster ----------

  predicate EmptyRosters(approvers: seq<Approver>) {
    forall k :: 0 <= k < |approvers| ==> approvers[k].users == []
  }

  /** Before point `i` of the run, `n` requested an admitted update while carrying group `g`. */
  predicate Joined(es: seq<Event>, i: nat, n: string, g: string)
    requires i <= |es|
  {
    exists j :: 0 <= j < i && JoinedAt(es[j], n, g)
  }

  predicate JoinedAt(e: Event, n: string, g: string) {
    RequesterIn(e).Some? && RequesterIn(e).value.user == n && g in RequesterIn(e).value.groups
  }

  lemma ListedOnlyByJoining(s: System, proposed: Spec, req: Requester, t: System, k: nat, n: string)
    requires LegalSpec(s.task.spec) && Submits(s, proposed, req, t)
    requires k < |proposed.approvers| && proposed.approvers[k].IsGroup() && Lists(proposed.approvers[k].users, n)
    ensures Lists(s.task.spec.approvers[k].users, n)
            || (req.user == n && s.task.spec.approvers[k].name in req.groups)
  {
    SingleAuthor(s.task, proposed, req);
    var a, b := s.task.spec.approvers[k], proposed.approvers[k];
    assert EntryFrame(a, b, req);
    if n != req.user {
      var v :| v in b.users && v.name == n;
      assert Holds(a.users, v.name, v.input);
    }
  }

  lemma ListedStep(timeout: int, s: System, e: Event, t: System, k: nat, n: string)
    requires LegalSpec(s.task.spec) && Next(timeout, s, e, t)
    requires k < |t.task.spec.approvers| && t.task.spec.approvers[k].IsGroup()
    requires Lists(t.task.spec.approvers[k].users, n)
    ensures k < |s.task.spec.approvers| && s.task.spec.approvers[k].IsGroup()
    ensures s.task.spec.approvers[k].name == t.task.spec.approvers[k].name
    ensures JoinedAt(e, n, t.task.spec.approvers[k].name) || Lists(s.task.spec.approvers[k].users, n)
  {
    SpecChangesAreSubmitted(timeout, s, e, t);
    if RequesterIn(e).Some? {
      ListedOnlyByJoining(s, t.task.spec, RequesterIn(e).value, t, k, n);
    }
  }

  /** Roster provenance: on a task that started with empty rosters, everyone listed in a group put
      themselves there, with a request that carried the group. */
  lemma {:induction false} RosterIsJoined(timeout: int, ss: seq<System>, es: seq<Event>, i: nat, k: nat, n: string)
    requires IsRun(timeout, ss, es) && i < |ss| && EmptyRosters(ss[0].task.spec.approvers)
    requires k < |ss[i].task.spec.approvers| && ss[i].task.spec.approvers[k].IsGroup()
    requires Lists(ss[i].task.spec.approvers[k].users, n)
    ensures Joined(es, i, n, ss[i].task.spec.approvers[k].name)
  {
    if i > 0 {
      RunInv(timeout, ss, es, i - 1);
      assert StepAt(timeout, ss, es, i - 1);
      ListedStep(timeout, ss[i - 1], es[i - 1], ss[i], k, n);
      if !JoinedAt(es[i - 1], n, ss[i].task.spec.approvers[k].name) {
        RosterIsJoined(timeout, ss, es, i - 1, k, n);
      }
    }
  }
}
