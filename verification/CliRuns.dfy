/** Runs driven by the client alone, from any task the webhook admits on creation. Here every
    decision is the documented one. */
module CliRuns {
  import opened ApprovalTypes
  import opened Quorum
  import opened Validation
  import opened Admission
  import opened AdmissionLaws
  import opened Client
  import opened ClientLaws
  import opened Controller
  import opened ControllerLaws
  import opened Protocol

  predicate IsCliRun(timeout: int, ss: seq<System>, es: seq<Event>) {
    && IsRun(timeout, ss, es)
    && forall i :: 0 <= i < |es| ==> !es[i].Edit?
  }

  lemma SkeletonKeepsDistinctNames(xs: seq<Approver>, ys: seq<Approver>)
    requires SameSkeleton(xs, ys) && DistinctNames(xs)
    ensures DistinctNames(ys)
  {
  }

  // ---------- every act leaves somebody to show ----------

  lemma ActLeavesAnAnswer(approvers: seq<Approver>, o: Options)
    requires Decided(o.input) && (forall a :: a in approvers ==> LegalApprover(a))
    requires exists a :: a in approvers && Touches(a, o)
    ensures HasResponder(CliUpdate(approvers, o))
  {
    var updated := CliUpdate(approvers, o);
    var k := FirstTouch(approvers, o);
    assert LegalApprover(approvers[k]);
    if !IsOwnEntry(approvers[k], o) {
      UpdateRosterMembers(approvers[k].users, o);
      assert UserDetails(o.user, o.input, o.message) in updated[k].users;
    }
    assert updated[k] in updated && Responds(updated[k]);
  }

  lemma MoveTouches(approvers: seq<Approver>, o: Options)
    requires Moves(approvers, o)
    ensures exists a :: a in approvers && Touches(a, o)
  {
    var k :| 0 <= k < |approvers| && MovesAt(approvers, o, k);
    assert approvers[k] in approvers && Touches(approvers[k], o);
  }

  predicate CliInv(first: System, s: System) {
    && (s.task.spec.approvers == first.task.spec.approvers || HasResponder(s.task.spec.approvers))
    && (s.task.status.responses == [] || HasResponder(s.task.spec.approvers))
    && (s.phase.Planned? && s.phase.version == s.version && s.phase.effect.write.Some? ==>
          s.phase.effect.write.value.responses == [] || HasResponder(s.task.spec.approvers))
  }

  lemma CliInvIsKept(timeout: int, first: System, s: System, e: Event, t: System)
    requires Init(first) && Inv(timeout, first, s) && CliInv(first, s)
    requires Next(timeout, s, e, t) && !e.Edit?
    ensures CliInv(first, t)
  {
    match e
    case Act(o) =>
      ClientAdmittedExactly(s.task, o);
      MoveTouches(s.task.spec.approvers, o);
      ActLeavesAnAnswer(s.task.spec.approvers, o);
    case Read(effect) =>
      GuardExactly(s.task.spec.approvers);
    case _ =>
  }

  lemma NamesStayDistinct(timeout: int, ss: seq<System>, es: seq<Event>, i: nat)
    requires IsRun(timeout, ss, es) && i < |ss| && DistinctNames(ss[0].task.spec.approvers)
    ensures DistinctNames(ss[i].task.spec.approvers)
  {
    RunInv(timeout, ss, es, i);
    SkeletonKeepsDistinctNames(ss[0].task.spec.approvers, ss[i].task.spec.approvers);
  }

  lemma {:induction false} CliRunInv(timeout: int, ss: seq<System>, es: seq<Event>, i: nat)
    requires IsCliRun(timeout, ss, es) && i < |ss|
    ensures CliInv(ss[0], ss[i])
  {
    if i > 0 {
      CliRunInv(timeout, ss, es, i - 1);
      RunInv(timeout, ss, es, i - 1);
      assert StepAt(timeout, ss, es, i - 1);
      CliInvIsKept(timeout, ss[0], ss[i - 1], es[i - 1], ss[i]);
    }
  }

  // ---------- the decision ----------

  /** Decision exactness: a reconcile before the deadline leaves the state that the documented rule
      gives for the spec. Neither the empty-responder guard, nor the hash gate, nor the absence of
      a way back to pending ever shows. */
  lemma DecisionIsExact(timeout: int, ss: seq<System>, es: seq<Event>, i: nat, e: Effect)
    requires IsCliRun(timeout, ss, es) && i < |ss|
    requires Plans(ss[i].task, timeout, ss[i].clock, true, e) && !Overdue(timeout, ss[i])
    ensures Agrees(StateAfter(ss[i].task, e), Decide(ss[i].task.spec))
  {
    DecisionExactlyWithAnswers(timeout, ss, es, i, e);
    RunInv(timeout, ss, es, i);
    CliRunInv(timeout, ss, es, i);
    if ss[i].task.spec.approvers == ss[0].task.spec.approvers {
      PendingListIsUndecided(ss[i].task.spec);
    }
  }

  /** End to end: a reconcile before the deadline that nothing interrupts leaves the run as the
      documented rule wants it: failed on a rejection, succeeded on a quorum, waiting otherwise. */
  lemma CompleteReconcileSettles(timeout: int, ss: seq<System>, es: seq<Event>, i: nat)
    requires IsCliRun(timeout, ss, es) && CompleteReconcile(es, i) && !Overdue(timeout, ss[i])
    ensures ss[i + 3].run == match Decide(ss[i + 3].task.spec)
                             case RejectedState => Failed
                             case ApprovedState => Succeeded
                             case _ => Running
  {
    CompleteReconcileApplies(timeout, ss, es, i);
    DecisionIsExact(timeout, ss, es, i, es[i].effect);
    RunInv(timeout, ss, es, i);
    if ss[i].task.spec.approvers == ss[0].task.spec.approvers {
      PendingListIsUndecided(ss[i].task.spec);
    }
  }

  // ---------- exact quorum ----------

  predicate NoRejects(es: seq<Event>) {
    forall i :: 0 <= i < |es| && es[i].Act? ==> es[i].options.input.Approve?
  }

  /** The users that have acted so far. */
  function Actors(es: seq<Event>): set<string> {
    set i | 0 <= i < |es| && es[i].Act? :: es[i].options.user
  }

  /** Nothing reads reject, and a member reads approve only under a group that does. */
  predicate RejectFree(approvers: seq<Approver>) {
    forall a :: a in approvers ==>
      && !a.input.Reject?
      && (a.IsGroup() ==> forall u :: u in a.users ==> !u.input.Reject? && (u.input.Approve? ==> a.input.Approve?))
  }

  lemma ApprovalKeepsRejectFree(approvers: seq<Approver>, o: Options)
    requires o.input.Approve? && RejectFree(approvers) && (forall a :: a in approvers ==> LegalApprover(a))
    ensures RejectFree(CliUpdate(approvers, o))
  {
    var updated := CliUpdate(approvers, o);
    forall b | b in updated
      ensures !b.input.Reject?
      ensures b.IsGroup() ==> forall u :: u in b.users ==> !u.input.Reject? && (u.input.Approve? ==> b.input.Approve?)
    {
      var k :| 0 <= k < |updated| && updated[k] == b;
      assert approvers[k] in approvers && LegalApprover(approvers[k]);
      if approvers[k].IsGroup() {
        UpdateRosterMembers(approvers[k].users, o);
      }
    }
  }

  /** The members whose own approval was out of force under a level that `o` sets to approve. */
  predicate RevivedIn(a: Approver, o: Options, n: string) {
    IsCarriedGroup(a, o) && !a.input.Approve? && Holds(a.users, n, Approve)
  }

  function Revived(approvers: seq<Approver>, o: Options): (r: set<string>)
    ensures forall n :: n in r <==> exists a :: a in approvers && RevivedIn(a, o, n)
  {
    var names := set a, u | a in approvers && u in a.users && RevivedIn(a, o, u.name) :: u.name;
    assert forall a, n :: a in approvers && RevivedIn(a, o, n) ==> exists u :: u in a.users && u.name == n;
    names
  }

  lemma EntryAfterApproval(a: Approver, o: Options, individual: bool, n: string)
    requires o.input.Approve? && LegalApprover(a)
    ensures n != o.user ==> (Approves(UpdateEntry(a, o, individual), n) <==> Approves(a, n) || RevivedIn(a, o, n))
    ensures IsOwnEntry(a, o) || (IsCarriedGroup(a, o) && !individual) ==>
              Approves(UpdateEntry(a, o, individual), o.user)
  {
    if IsCarriedGroup(a, o) && !individual {
      UpdateRosterMembers(a.users, o);
      var updated := UpdateRoster(a.users, o);
      assert UserDetails(o.user, o.input, o.message) in updated;
      if n != o.user {
        assert Holds(updated, n, Approve) <==> Holds(a.users, n, Approve);
      }
    }
  }

  lemma ApprovalForOthers(approvers: seq<Approver>, o: Options, n: string)
    requires o.input.Approve? && (forall a :: a in approvers ==> LegalApprover(a)) && n != o.user
    ensures n in ApprovedUsers(CliUpdate(approvers, o)) <==> n in ApprovedUsers(approvers) || n in Revived(approvers, o)
  {
    var updated, individual := CliUpdate(approvers, o), IsIndividual(approvers, o.user);
    forall k | 0 <= k < |approvers|
      ensures Approves(updated[k], n) <==> Approves(approvers[k], n) || RevivedIn(approvers[k], o, n)
    {
      assert approvers[k] in approvers;
      EntryAfterApproval(approvers[k], o, individual, n);
    }
    if n in ApprovedUsers(updated) {
      var j :| 0 <= j < |updated| && Approves(updated[j], n);
      assert approvers[j] in approvers;
    }
    if n in ApprovedUsers(approvers) || n in Revived(approvers, o) {
      var j :| 0 <= j < |approvers| && (Approves(approvers[j], n) || RevivedIn(approvers[j], o, n));
      assert updated[j] in updated;
    }
  }

  /** What one approval adds to the approved users, on any legal list: its author, and the members
      it brings back into force. */
  lemma ApprovalAdds(approvers: seq<Approver>, o: Options)
    requires o.input.Approve? && (forall a :: a in approvers ==> LegalApprover(a))
    requires exists a :: a in approvers && Touches(a, o)
    ensures ApprovedUsers(CliUpdate(approvers, o)) == ApprovedUsers(approvers) + {o.user} + Revived(approvers, o)
  {
    var updated := CliUpdate(approvers, o);
    var k := FirstTouch(approvers, o);
    assert approvers[k] in approvers && updated[k] in updated;
    EntryAfterApproval(approvers[k], o, IsIndividual(approvers, o.user), o.user);
    assert o.user in ApprovedUsers(updated);
    forall n | n != o.user
      ensures n in ApprovedUsers(updated) <==> n in ApprovedUsers(approvers) || n in Revived(approvers, o)
    {
      ApprovalForOthers(approvers, o, n);
    }
  }

  /** One approval adds exactly its author if and only if it brings back nobody who does not count
      anyway; and it brings back nobody where nothing was rejected. */
  lemma ApprovalAddsItsAuthor(approvers: seq<Approver>, o: Options)
    requires o.input.Approve? && (forall a :: a in approvers ==> LegalApprover(a))
    requires exists a :: a in approvers && Touches(a, o)
    ensures ApprovedUsers(CliUpdate(approvers, o)) == ApprovedUsers(approvers) + {o.user}
            <==> Revived(approvers, o) <= ApprovedUsers(approvers) + {o.user}
    ensures RejectFree(approvers) ==> Revived(approvers, o) == {}
  {
    ApprovalAdds(approvers, o);
  }

  lemma ActorsExtend(es: seq<Event>, i: nat)
    requires i < |es|
    ensures Actors(es[..i + 1]) == Actors(es[..i]) + if es[i].Act? then {es[i].options.user} else {}
  {
  }

  lemma ApprovalBelowQuorum(spec: Spec, o: Options)
    requires LegalSpec(spec) && o.input.Approve? && RejectFree(spec.approvers) && !QuorumReached(spec)
    requires exists a :: a in spec.approvers && Touches(a, o)
    ensures RejectFree(CliUpdate(spec.approvers, o))
    ensures ApprovedUsers(CliUpdate(spec.approvers, o)) == ApprovedUsers(spec.approvers) + {o.user}
    ensures |ApprovedUsers(CliUpdate(spec.approvers, o))| <= spec.required
  {
    ApprovalKeepsRejectFree(spec.approvers, o);
    ApprovalAddsItsAuthor(spec.approvers, o);
  }

  /** Nothing rejects, the approved users are `actors`, and they are not too many. */
  predicate ApprovedExactly(s: System, actors: set<string>) {
    && RejectFree(s.task.spec.approvers)
    && ApprovedUsers(s.task.spec.approvers) == actors
    && |actors| <= s.task.spec.required
  }

  lemma ApprovedExactlyStep(timeout: int, s: System, e: Event, t: System, actors: set<string>)
    requires LegalSpec(s.task.spec) && Next(timeout, s, e, t) && ApprovedExactly(s, actors)
    requires !e.Edit? && (e.Act? ==> e.options.input.Approve?)
    ensures ApprovedExactly(t, actors + if e.Act? then {e.options.user} else {})
  {
    if e.Act? {
      ClientAdmittedExactly(s.task, e.options);
      MoveTouches(s.task.spec.approvers, e.options);
      ApprovalBelowQuorum(s.task.spec, e.options);
    } else {
      SpecChangesAreSubmitted(timeout, s, e, t);
      assert actors + {} == actors;
    }
  }

  lemma {:induction false} RejectFreeRun(timeout: int, ss: seq<System>, es: seq<Event>, i: nat)
    requires IsCliRun(timeout, ss, es) && NoRejects(es) && i < |ss|
    ensures ApprovedExactly(ss[i], Actors(es[..i]))
  {
    if i == 0 {
      PendingListIsUndecided(ss[0].task.spec);
      assert Actors(es[..0]) == {};
    } else {
      RejectFreeRun(timeout, ss, es, i - 1);
      RunInv(timeout, ss, es, i - 1);
      assert StepAt(timeout, ss, es, i - 1);
      ApprovedExactlyStep(timeout, ss[i - 1], es[i - 1], ss[i], Actors(es[..i - 1]));
      ActorsExtend(es, i - 1);
    }
  }

  /** Exact quorum: as long as nobody rejects, the approved users are exactly the users that had an
      approval admitted, never more than required; and once there are as many as required every
      further update is denied, whether or not a reconcile has seen it. */
  lemma QuorumIsExact(timeout: int, ss: seq<System>, es: seq<Event>, i: nat)
    requires IsCliRun(timeout, ss, es) && NoRejects(es) && i < |ss|
    ensures ApprovedUsers(ss[i].task.spec.approvers) == Actors(es[..i])
    ensures |Actors(es[..i])| <= ss[0].task.spec.required
    ensures |Actors(es[..i])| == ss[0].task.spec.required ==>
              forall proposed, req :: Admit(Update, ss[i].task, proposed, req) != Allowed
  {
    RejectFreeRun(timeout, ss, es, i);
    RunInv(timeout, ss, es, i);
  }
}
