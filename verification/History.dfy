/** The list of a client run read off the acts behind it: who counts as approving, whether the task
    is rejected and what a reconcile decides are functions of the last acts alone. */
module History {
  import opened ApprovalTypes
  import opened Quorum
  import opened Validation
  import opened Admission
  import opened AdmissionLaws
  import opened Client
  import opened ClientLaws
  import opened Controller
  import opened ControllerLaws
  import opened Protocol
  import opened CliRuns

  /** The input of the last act that touched entry `a`; pending if there was none. */
  function LastTouch(es: seq<Event>, a: Approver): Input {
    if es == [] then Pending
    else
      var last := es[|es| - 1];
      if last.Act? && Touches(a, last.options) then last.options.input
      else LastTouch(es[..|es| - 1], a)
  }

  /** The same for the acts of user `n`. */
  function LastTouchBy(es: seq<Event>, a: Approver, n: string): Input {
    if es == [] then Pending
    else
      var last := es[|es| - 1];
      if last.Act? && last.options.user == n && Touches(a, last.options) then last.options.input
      else LastTouchBy(es[..|es| - 1], a, n)
  }

  // ---------- entries ----------

  lemma SameEntry(timeout: int, ss: seq<System>, es: seq<Event>, i: nat, k: nat)
    requires IsRun(timeout, ss, es) && i < |ss| && k < |ss[0].task.spec.approvers|
    ensures |ss[i].task.spec.approvers| == |ss[0].task.spec.approvers|
    ensures ss[i].task.spec.approvers[k].name == ss[0].task.spec.approvers[k].name
    ensures ss[i].task.spec.approvers[k].kind == ss[0].task.spec.approvers[k].kind
  {
    RunInv(timeout, ss, es, i);
  }

  lemma EntryInputStep(timeout: int, s: System, e: Event, t: System, k: nat, a: Approver)
    requires Next(timeout, s, e, t) && !e.Edit? && k < |s.task.spec.approvers|
    requires s.task.spec.approvers[k].name == a.name && s.task.spec.approvers[k].kind == a.kind
    ensures |t.task.spec.approvers| == |s.task.spec.approvers|
    ensures t.task.spec.approvers[k].input
         == if e.Act? && Touches(a, e.options) then e.options.input else s.task.spec.approvers[k].input
  {
    SpecChangesAreSubmitted(timeout, s, e, t);
  }

  lemma {:induction false} EntryHistory(timeout: int, ss: seq<System>, es: seq<Event>, i: nat, k: nat)
    requires IsCliRun(timeout, ss, es) && i < |ss| && k < |ss[0].task.spec.approvers|
    ensures |ss[i].task.spec.approvers| == |ss[0].task.spec.approvers|
    ensures ss[i].task.spec.approvers[k].input == LastTouch(es[..i], ss[0].task.spec.approvers[k])
  {
    var a := ss[0].task.spec.approvers[k];
    if i > 0 {
      var previous := i - 1;
      EntryHistory(timeout, ss, es, previous, k);
      SameEntry(timeout, ss, es, previous, k);
      assert StepAt(timeout, ss, es, previous);
      EntryInputStep(timeout, ss[previous], es[previous], ss[i], k, a);
      assert es[..i][..previous] == es[..previous];
    } else {
      assert a in ss[0].task.spec.approvers;
    }
  }

  // ---------- rosters ----------

  lemma RosterStep(timeout: int, s: System, e: Event, t: System, k: nat, n: string, input: Input)
    requires LegalSpec(s.task.spec) && Next(timeout, s, e, t) && !e.Edit?
    requires k < |s.task.spec.approvers| && s.task.spec.approvers[k].IsGroup()
    ensures |t.task.spec.approvers| == |s.task.spec.approvers|
    ensures var a := s.task.spec.approvers[k];
            Holds(t.task.spec.approvers[k].users, n, input) <==>
              if e.Act? && e.options.user == n && Touches(a, e.options) && !IsIndividual(s.task.spec.approvers, n)
              then e.options.input == input else Holds(a.users, n, input)
  {
    SpecChangesAreSubmitted(timeout, s, e, t);
    if e.Act? {
      var a := s.task.spec.approvers[k];
      assert a in s.task.spec.approvers && LegalApprover(a);
      UpdateRosterMembers(a.users, e.options);
      assert UserDetails(e.options.user, e.options.input, e.options.message) in UpdateRoster(a.users, e.options);
    }
  }

  lemma IndividualsStay(timeout: int, ss: seq<System>, es: seq<Event>, i: nat, n: string)
    requires IsRun(timeout, ss, es) && i < |ss|
    ensures IsIndividual(ss[i].task.spec.approvers, n) <==> IsIndividual(ss[0].task.spec.approvers, n)
  {
    RunInv(timeout, ss, es, i);
    var xs, ys := ss[0].task.spec.approvers, ss[i].task.spec.approvers;
    if IsIndividual(xs, n) {
      var k :| 0 <= k < |xs| && xs[k].IsUser() && xs[k].name == n;
      assert ys[k] in ys;
    }
    if IsIndividual(ys, n) {
      var k :| 0 <= k < |ys| && ys[k].IsUser() && ys[k].name == n;
      assert xs[k] in xs;
    }
  }

  lemma NothingHeldYet(approvers: seq<Approver>, k: nat, n: string, input: Input)
    requires AllPending(approvers) && k < |approvers| && approvers[k].IsGroup()
    requires Decided(input) || !Lists(approvers[k].users, n)
    ensures !Holds(approvers[k].users, n, input)
  {
    assert approvers[k] in approvers;
  }

  /** A group holds a decided input of `n` exactly when `n` is no individual and that is the input
      of the last act of theirs that carried the group. A member who was on the roster from the
      start may be pending there as well. */
  lemma {:induction false} RosterHistory(timeout: int, ss: seq<System>, es: seq<Event>, i: nat, k: nat,
                                         n: string, input: Input)
    requires IsCliRun(timeout, ss, es) && i < |ss| && k < |ss[0].task.spec.approvers|
    requires ss[0].task.spec.approvers[k].IsGroup()
    requires Decided(input) || !Lists(ss[0].task.spec.approvers[k].users, n)
    ensures |ss[i].task.spec.approvers| == |ss[0].task.spec.approvers|
    ensures Holds(ss[i].task.spec.approvers[k].users, n, input) <==>
              && Decided(input) && !IsIndividual(ss[0].task.spec.approvers, n)
              && LastTouchBy(es[..i], ss[0].task.spec.approvers[k], n) == input
  {
    if i > 0 {
      var previous := i - 1;
      RosterHistory(timeout, ss, es, previous, k, n, input);
      RunInv(timeout, ss, es, previous);
      IndividualsStay(timeout, ss, es, previous, n);
      assert StepAt(timeout, ss, es, previous);
      RosterStep(timeout, ss[previous], es[previous], ss[i], k, n, input);
      assert es[..i][..previous] == es[..previous];
    } else {
      NothingHeldYet(ss[0].task.spec.approvers, k, n, input);
    }
  }

  // ---------- who counts, and what is decided ----------

  /** The last act that touched some entry was a rejection. */
  predicate RejectionStands(approvers: seq<Approver>, es: seq<Event>) {
    exists k :: 0 <= k < |approvers| && LastTouch(es, approvers[k]).Reject?
  }

  /** Entry `a` makes `n` count: the last act on it was an approval and, if it is a group, so was
      the last act that `n`, not being an individual, carried it in. */
  predicate CountsThrough(approvers: seq<Approver>, es: seq<Event>, a: Approver, n: string) {
    && LastTouch(es, a).Approve?
    && ((a.IsUser() && a.name == n)
        || (a.IsGroup() && !IsIndividual(approvers, n) && LastTouchBy(es, a, n).Approve?))
  }

  predicate Counts(approvers: seq<Approver>, es: seq<Event>, n: string) {
    exists a :: a in approvers && CountsThrough(approvers, es, a, n)
  }

  /** Over runs the promise of one rejection reads: the list carries a rejection exactly while the
      last act on some entry was one. An approval through the same entry ends it. */
  lemma RejectionsStandUntilOverwritten(timeout: int, ss: seq<System>, es: seq<Event>, i: nat)
    requires IsCliRun(timeout, ss, es) && i < |ss|
    ensures HasReject(ss[i].task.spec.approvers) <==> RejectionStands(ss[0].task.spec.approvers, es[..i])
  {
    RunInv(timeout, ss, es, i);
    var first, now := ss[0].task.spec.approvers, ss[i].task.spec.approvers;
    forall k | 0 <= k < |first|
      ensures now[k].input == LastTouch(es[..i], first[k])
    {
      EntryHistory(timeout, ss, es, i, k);
    }
    if RejectionStands(first, es[..i]) {
      var k :| 0 <= k < |first| && LastTouch(es[..i], first[k]).Reject?;
      assert now[k] in now;
    }
  }

  lemma ApprovesByHistory(timeout: int, ss: seq<System>, es: seq<Event>, i: nat, k: nat, n: string)
    requires IsCliRun(timeout, ss, es) && i < |ss| && k < |ss[0].task.spec.approvers|
    ensures |ss[i].task.spec.approvers| == |ss[0].task.spec.approvers|
    ensures Approves(ss[i].task.spec.approvers[k], n)
            <==> CountsThrough(ss[0].task.spec.approvers, es[..i], ss[0].task.spec.approvers[k], n)
  {
    RunInv(timeout, ss, es, i);
    EntryHistory(timeout, ss, es, i, k);
    if ss[0].task.spec.approvers[k].IsGroup() {
      RosterHistory(timeout, ss, es, i, k, n, Approve);
    }
  }

  /** Exact quorum with rejections: who counts as approving after any client history. */
  lemma ApprovedUsersByHistory(timeout: int, ss: seq<System>, es: seq<Event>, i: nat, n: string)
    requires IsCliRun(timeout, ss, es) && i < |ss|
    ensures n in ApprovedUsers(ss[i].task.spec.approvers)
            <==> Counts(ss[0].task.spec.approvers, es[..i], n)
  {
    RunInv(timeout, ss, es, i);
    var first, now := ss[0].task.spec.approvers, ss[i].task.spec.approvers;
    forall k | 0 <= k < |first|
      ensures Approves(now[k], n) <==> CountsThrough(first, es[..i], first[k], n)
    {
      ApprovesByHistory(timeout, ss, es, i, k, n);
    }
    if a :| a in now && Approves(a, n) {
      var k :| 0 <= k < |now| && now[k] == a;
      assert first[k] in first;
    }
    if a :| a in first && CountsThrough(first, es[..i], a, n) {
      var k :| 0 <= k < |first| && first[k] == a;
      assert now[k] in now;
    }
  }

  /** What a reconcile in time decides, from the acts alone: rejected exactly when a rejection stands,
      approved exactly when none does and enough users count. */
  lemma OutcomeIsHistory(timeout: int, ss: seq<System>, es: seq<Event>, i: nat, counted: set<string>, e: Effect)
    requires IsCliRun(timeout, ss, es) && i < |ss|
    requires Plans(ss[i].task, timeout, ss[i].clock, true, e) && !Overdue(timeout, ss[i])
    requires forall n :: n in counted <==> Counts(ss[0].task.spec.approvers, es[..i], n)
    ensures StateAfter(ss[i].task, e) == RejectedState <==> RejectionStands(ss[0].task.spec.approvers, es[..i])
    ensures StateAfter(ss[i].task, e) == ApprovedState
            <==> !RejectionStands(ss[0].task.spec.approvers, es[..i]) && |counted| >= ss[0].task.spec.required
  {
    DecisionIsExact(timeout, ss, es, i, e);
    RejectionsStandUntilOverwritten(timeout, ss, es, i);
    RunInv(timeout, ss, es, i);
    forall n
      ensures n in counted <==> n in ApprovedUsers(ss[i].task.spec.approvers)
    {
      ApprovedUsersByHistory(timeout, ss, es, i, n);
    }
    assert counted == ApprovedUsers(ss[i].task.spec.approvers);
  }
}
