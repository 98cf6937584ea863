/** Deadlines: when a reconcile asks to be called again, and what follows if it is. */
module Timing {
  import opened ApprovalTypes
  import opened Controller
  import opened ControllerLaws
  import opened Protocol

  /** The reconcile that reads at step `j` runs at time `at` and gets to its status write. */
  predicate Served(ss: seq<System>, es: seq<Event>, j: nat, at: int)
    requires |ss| == |es| + 1
  {
    j + 1 < |es| && es[j].Read? && es[j + 1].WriteStatus? && ss[j].clock == at
  }

  predicate ServedAt(ss: seq<System>, es: seq<Event>, at: int)
    requires |ss| == |es| + 1
  {
    exists j :: 0 <= j < |es| && Served(ss, es, j, at)
  }

  /** By time `at` the run was over. */
  predicate DoneBy(ss: seq<System>, at: int) {
    exists k :: 0 <= k < |ss| && ss[k].clock <= at && !ss[k].run.Running?
  }

  /** A call asked for at time `at` took place, its status write directly after its read and hence
      without a conflict, unless the run was over or the history ends first. */
  predicate CalledAt(ss: seq<System>, es: seq<Event>, at: int)
    requires |ss| == |es| + 1
  {
    ss[|es|].clock > at ==> ServedAt(ss, es, at) || DoneBy(ss, at)
  }

  /** Every reconcile that asked to be called again was, on time, starting with the call that
      created the task (`Reconciler.ReconcileNew`), which asks for it unless the timeout is
      negative. Conflicts and crashes are allowed in all other reconciles. */
  ghost predicate CalledWhenAsked(timeout: int, ss: seq<System>, es: seq<Event>)
    requires |ss| == |es| + 1
  {
    var creation := ss[0].task.creation;
    && (!TimedOut(creation, timeout, creation) ==> CalledAt(ss, es, creation + WaitTime(creation, timeout, creation)))
    && forall i :: 0 <= i < |es| && es[i].Read? && es[i].effect.requeue.Some? ==>
         CalledAt(ss, es, ss[i].clock + es[i].effect.requeue.value)
  }

  /** The state was final by time `at`. */
  predicate FinalBy(ss: seq<System>, at: int) {
    exists k :: 0 <= k < |ss| && ss[k].clock <= at && Final(ss[k].task.status.state)
  }

  /** Start and delay: the effective start is the creation time at every step, and a reconcile asks to
      be called again after the time that is left, or after a second when none is. */
  lemma StartIsFixedAndDelaysArePositive(timeout: int, ss: seq<System>, es: seq<Event>, i: nat)
    requires IsRun(timeout, ss, es) && i < |es|
    ensures StartOf(ss[i].task) == ss[0].task.creation
    ensures es[i].Read? && es[i].effect.requeue.Some? ==>
              var left := ss[0].task.creation + timeout - ss[i].clock;
              es[i].effect.requeue.value == if left > 0 then left else 1_000_000_000
    ensures es[i].Read? && es[i].effect.requeue == None ==> Overdue(timeout, ss[i])
  {
    RunInv(timeout, ss, es, i);
    assert StepAt(timeout, ss, es, i);
  }

  lemma DoneMeansFinal(timeout: int, ss: seq<System>, es: seq<Event>, at: int)
    requires IsRun(timeout, ss, es) && DoneBy(ss, at)
    ensures FinalBy(ss, at)
  {
    var k :| 0 <= k < |ss| && ss[k].clock <= at && !ss[k].run.Running?;
    RunInv(timeout, ss, es, k);
    assert Final(ss[k].task.status.state);
  }

  /** A served reconcile after the deadline leaves the task final at that very time. */
  lemma LateReconcileFinishes(timeout: int, ss: seq<System>, es: seq<Event>, at: int)
    requires IsRun(timeout, ss, es) && ServedAt(ss, es, at)
    requires ss[0].task.creation != 0 && at > ss[0].task.creation + timeout
    ensures FinalBy(ss, at)
  {
    var j :| 0 <= j < |es| && Served(ss, es, j, at);
    RunInv(timeout, ss, es, j);
    assert StepAt(timeout, ss, es, j);
    assert StepAt(timeout, ss, es, j + 1);
    assert ss[j + 2].clock <= at && ss[j + 2].task.status.state == RejectedState;
  }

  /** A served reconcile in time asks to be called again at the deadline, or a second later when it
      runs at the deadline itself. */
  lemma EarlyReconcileAsks(timeout: int, ss: seq<System>, es: seq<Event>, at: int)
    requires IsRun(timeout, ss, es) && CalledWhenAsked(timeout, ss, es) && ServedAt(ss, es, at)
    requires at <= ss[0].task.creation + timeout
    ensures var again := if at < ss[0].task.creation + timeout then ss[0].task.creation + timeout else at + SECOND;
            CalledAt(ss, es, again)
  {
    var j :| 0 <= j < |es| && Served(ss, es, j, at);
    RunInv(timeout, ss, es, j);
    assert StepAt(timeout, ss, es, j);
    assert es[j].effect.requeue == Some(WaitTime(ss[0].task.creation, timeout, at));
  }

  lemma FinalAfterEarlyReconcile(timeout: int, ss: seq<System>, es: seq<Event>, at: int)
    requires IsRun(timeout, ss, es) && CalledWhenAsked(timeout, ss, es) && ss[0].task.creation != 0
    requires ServedAt(ss, es, at) && at <= ss[0].task.creation + timeout
    requires ss[|es|].clock > ss[0].task.creation + timeout + SECOND
    ensures FinalBy(ss, ss[0].task.creation + timeout + SECOND)
    decreases ss[0].task.creation + timeout - at
  {
    var deadline := ss[0].task.creation + timeout;
    EarlyReconcileAsks(timeout, ss, es, at);
    var again := if at < deadline then deadline else at + SECOND;
    if DoneBy(ss, again) {
      DoneMeansFinal(timeout, ss, es, again);
    } else if at < deadline {
      FinalAfterEarlyReconcile(timeout, ss, es, deadline);
    } else {
      LateReconcileFinishes(timeout, ss, es, again);
    }
  }

  /** For any timeout: once a reconcile has been served by the deadline plus a second, and further
      ones when they are asked for, the task is final by then. */
  lemma FinalOnceServed(timeout: int, ss: seq<System>, es: seq<Event>, first: int)
    requires IsRun(timeout, ss, es) && CalledWhenAsked(timeout, ss, es) && ss[0].task.creation != 0
    requires ServedAt(ss, es, first) && first <= ss[0].task.creation + timeout + SECOND
    requires ss[|es|].clock > ss[0].task.creation + timeout + SECOND
    ensures FinalBy(ss, ss[0].task.creation + timeout + SECOND)
  {
    var deadline := ss[0].task.creation + timeout;
    if first > deadline {
      LateReconcileFinishes(timeout, ss, es, first);
      var k :| 0 <= k < |ss| && ss[k].clock <= first && Final(ss[k].task.status.state);
    } else {
      FinalAfterEarlyReconcile(timeout, ss, es, first);
    }
  }

  /** The timeout is enforced within a second: if reconciles are called when they ask and these calls
      meet no conflict, then once the clock is past start + timeout + 1 s the task has been final
      since some moment no later than that, and rejected if its spec decides nothing. */
  lemma FinalWithinASecondOfTheDeadline(timeout: int, ss: seq<System>, es: seq<Event>)
    requires IsRun(timeout, ss, es) && CalledWhenAsked(timeout, ss, es) && ss[0].task.creation != 0 && timeout >= 0
    requires ss[|es|].clock > ss[0].task.creation + timeout + 1_000_000_000
    ensures FinalBy(ss, ss[0].task.creation + timeout + 1_000_000_000)
    ensures Final(ss[|es|].task.status.state)
    ensures Decide(ss[|es|].task.spec) == PendingState ==> ss[|es|].task.status.state == RejectedState
  {
    TaskAndRunAgree(timeout, ss, es, |es|);
    var creation := ss[0].task.creation;
    var at := creation + WaitTime(creation, timeout, creation);
    assert at <= creation + timeout + SECOND;
    if DoneBy(ss, at) {
      DoneMeansFinal(timeout, ss, es, at);
      var k :| 0 <= k < |ss| && ss[k].clock <= at && Final(ss[k].task.status.state);
    } else {
      FinalOnceServed(timeout, ss, es, at);
    }
    var k :| 0 <= k < |ss| && ss[k].clock <= creation + timeout + SECOND && Final(ss[k].task.status.state);
    StaysFinal(timeout, ss, es, k, |es|);
  }

  /** The clock rejects nothing before its time, and nothing at all on a task whose creation time is
      the zero time: a rejected task has a rejection in its spec, or a creation time that is set and
      more than the timeout ago. */
  lemma RejectedForAReason(timeout: int, ss: seq<System>, es: seq<Event>, i: nat)
    requires IsRun(timeout, ss, es) && i < |ss|
    requires ss[i].task.status.state == RejectedState
    ensures || (exists a :: a in ss[i].task.spec.approvers && a.input == Reject)
            || (ss[0].task.creation != 0 && ss[i].clock > ss[0].task.creation + timeout)
  {
    TaskAndRunAgree(timeout, ss, es, i);
    RunInv(timeout, ss, es, i);
  }
}
