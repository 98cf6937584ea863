/** The webhook's verdict on any update, read off the stored task, the proposal and the request. */
module Verdicts {
  import opened ApprovalTypes
  import opened Quorum
  import opened Validation
  import opened Admission
  import opened AdmissionLaws

  // ---------- what the requester wants ----------

  predicate IsOwn(a: Approver, user: string) {
    a.kind != Group && a.name == user
  }

  /** A group that is carried or has the requester on its roster. */
  predicate IsJoined(a: Approver, req: Requester) {
    a.kind == Group && Names(a, req.user, req.groups)
  }

  predicate ReadsApprove(a: Approver, user: string) {
    if exists u :: u in a.users && u.name == user then exists u :: u in a.users && u.name == user && u.input == Approve
    else a.input == Approve
  }

  predicate FirstOwn(approvers: seq<Approver>, user: string, k: nat)
    requires k < |approvers|
  {
    IsOwn(approvers[k], user) && forall j :: 0 <= j < k ==> !IsOwn(approvers[j], user)
  }

  predicate FirstJoined(approvers: seq<Approver>, req: Requester, k: nat)
    requires k < |approvers|
  {
    IsJoined(approvers[k], req) && forall j :: 0 <= j < k ==> !IsJoined(approvers[j], req)
  }

  /** The list reads approve for the requester: at their first individual entry; or, without one, at
      the first group that is carried or lists them, where the roster counts before the level. */
  predicate WantsApproval(approvers: seq<Approver>, req: Requester) {
    if exists a :: a in approvers && IsOwn(a, req.user)
    then exists k :: 0 <= k < |approvers| && FirstOwn(approvers, req.user, k) && approvers[k].input == Approve
    else exists k :: 0 <= k < |approvers| && FirstJoined(approvers, req, k) && ReadsApprove(approvers[k], req.user)
  }

  lemma {:induction false} IndividualInputByPosition(approvers: seq<Approver>, user: string)
    requires forall a :: a in approvers ==> LegalApprover(a)
    ensures forall k :: 0 <= k < |approvers| && FirstOwn(approvers, user, k) ==>
              IndividualInput(approvers, user) == approvers[k].input
    ensures (forall a :: a in approvers ==> !IsOwn(a, user)) ==> IndividualInput(approvers, user) == NO_INPUT
    ensures (exists a :: a in approvers && IsOwn(a, user)) ==>
              exists k :: 0 <= k < |approvers| && FirstOwn(approvers, user, k)
  {
    if approvers != [] {
      var head, rest := approvers[0], approvers[1..];
      assert head in approvers && LegalApprover(head);
      assert forall a :: a in approvers <==> a == head || a in rest;
      if IsOwn(head, user) {
        assert FirstOwn(approvers, user, 0);
      } else {
        IndividualInputByPosition(rest, user);
        forall k | 0 <= k < |approvers| && FirstOwn(approvers, user, k)
          ensures IndividualInput(approvers, user) == approvers[k].input
        {
          var previous := k - 1;
          assert rest[previous] == approvers[k];
          FirstOwnShifts(approvers, user, previous);
        }
        if exists a :: a in rest && IsOwn(a, user) {
          var k :| 0 <= k < |rest| && FirstOwn(rest, user, k);
          FirstOwnShifts(approvers, user, k);
          var next := k + 1;
          assert FirstOwn(approvers, user, next);
        }
      }
    }
  }

  lemma FirstOwnShifts(approvers: seq<Approver>, user: string, k: nat)
    requires approvers != [] && !IsOwn(approvers[0], user) && k < |approvers| - 1
    ensures FirstOwn(approvers[1..], user, k) <==> FirstOwn(approvers, user, k + 1)
  {
    var rest := approvers[1..];
    assert forall j :: 0 <= j < |rest| ==> rest[j] == approvers[j + 1];
    assert forall j :: 0 < j < |approvers| ==> approvers[j] == rest[j - 1];
  }

  lemma FirstJoinedShifts(approvers: seq<Approver>, req: Requester, k: nat)
    requires approvers != [] && !IsJoined(approvers[0], req) && k < |approvers| - 1
    ensures FirstJoined(approvers[1..], req, k) <==> FirstJoined(approvers, req, k + 1)
  {
    var rest := approvers[1..];
    assert forall j :: 0 <= j < |rest| ==> rest[j] == approvers[j + 1];
    assert forall j :: 0 < j < |approvers| ==> approvers[j] == rest[j - 1];
  }

  lemma EntryInputExactly(a: Approver, req: Requester)
    requires LegalApprover(a)
    ensures GroupEntryInput(a, req) != NO_INPUT <==> IsJoined(a, req)
    ensures IsJoined(a, req) ==> (GroupEntryInput(a, req).Approve? <==> ReadsApprove(a, req.user))
  {
    if a.IsGroup() {
      forall u | u in a.users && u.name == req.user
        ensures RosterLookup(a.users, req.user) == Some(u.input) && u.input != NO_INPUT
      {
        RosterLookupOfDistinct(a.users, u);
      }
    }
  }

  lemma {:induction false} GroupInputByPosition(approvers: seq<Approver>, req: Requester)
    requires forall a :: a in approvers ==> LegalApprover(a)
    ensures GroupInput(approvers, req).Approve?
            <==> exists k ::
                   0 <= k < |approvers| && FirstJoined(approvers, req, k) && ReadsApprove(approvers[k], req.user)
  {
    if approvers != [] {
      var head, rest := approvers[0], approvers[1..];
      assert head in approvers;
      assert forall a :: a in rest ==> a in approvers;
      EntryInputExactly(head, req);
      if IsJoined(head, req) {
        assert FirstJoined(approvers, req, 0);
      } else {
        GroupInputByPosition(rest, req);
        if k :| 0 <= k < |rest| && FirstJoined(rest, req, k) && ReadsApprove(rest[k], req.user) {
          FirstJoinedShifts(approvers, req, k);
          var next := k + 1;
          assert FirstJoined(approvers, req, next) && approvers[next] == rest[k];
        }
        if k :| 0 <= k < |approvers| && FirstJoined(approvers, req, k) && ReadsApprove(approvers[k], req.user) {
          var previous := k - 1;
          FirstJoinedShifts(approvers, req, previous);
          assert FirstJoined(rest, req, previous) && rest[previous] == approvers[k];
        }
      }
    }
  }

  lemma DesiredInputByPosition(approvers: seq<Approver>, req: Requester)
    requires forall a :: a in approvers ==> LegalApprover(a)
    ensures DesiredInput(approvers, req).Approve? <==> WantsApproval(approvers, req)
  {
    IndividualInputByPosition(approvers, req.user);
    GroupInputByPosition(approvers, req);
    if exists a :: a in approvers && IsOwn(a, req.user) {
      var k :| 0 <= k < |approvers| && FirstOwn(approvers, req.user, k);
      assert approvers[k] in approvers && LegalApprover(approvers[k]);
    }
  }

  // ---------- what the requester changed ----------

  /** The requester's member entry on the roster of `b` is new or differs from the one on `a`'s. */
  predicate MemberMoved(a: Approver, b: Approver, user: string) {
    exists v :: v in b.users && v.name == user && !exists u :: u in a.users && u.name == user && u.input == v.input
  }

  /** The search for the requester's own change ends at entry `k`: at an individual entry of theirs,
      changed or not, or at a group of theirs whose level or whose entry for them changed. */
  predicate EndsAt(stored: seq<Approver>, proposed: seq<Approver>, req: Requester, k: nat)
    requires k < |stored| == |proposed|
  {
    || IsOwn(stored[k], req.user)
    || (IsJoined(stored[k], req)
        && (stored[k].input != proposed[k].input || MemberMoved(stored[k], proposed[k], req.user)))
  }

  predicate FirstEnd(stored: seq<Approver>, proposed: seq<Approver>, req: Requester, i: nat, k: nat)
    requires k < |stored| == |proposed|
  {
    i <= k && EndsAt(stored, proposed, req, k) && forall j :: i <= j < k ==> !EndsAt(stored, proposed, req, j)
  }

  /** What it finds there. A level counts before a roster; a change to anything but approve or reject
      is a bad one. */
  function Found(a: Approver, b: Approver, user: string): Change {
    if a.input != b.input then (if b.input == Approve || b.input == Reject then ValidChange else BadChange)
    else if a.kind != Group then Unchanged
    else if exists v :: v in b.users && v.name == user && (v.input == Approve || v.input == Reject) then ValidChange
    else BadChange
  }

  lemma EntryChangeExactly(a: Approver, b: Approver, req: Requester)
    requires LegalApprover(a) && LegalApprover(b) && SameKey(a, b) && (a.kind == Group <==> b.kind == Group)
    ensures EntryChange(a, Some(b), req)
         == if IsOwn(a, req.user) || (IsJoined(a, req) && (a.input != b.input || MemberMoved(a, b, req.user)))
            then Some(Found(a, b, req.user)) else None
  {
    if IsJoined(a, req) {
      forall u | u in a.users && u.name == req.user
        ensures RosterLookup(a.users, req.user) == Some(u.input)
      {
        RosterLookupOfDistinct(a.users, u);
      }
      forall v | v in b.users && v.name == req.user
        ensures RosterLookup(b.users, req.user) == Some(v.input)
      {
        RosterLookupOfDistinct(b.users, v);
      }
    }
  }

  lemma {:induction false} OwnChangeExactly(stored: seq<Approver>, proposed: seq<Approver>, req: Requester, i: nat)
    requires i <= |stored| && SameSkeleton(stored, proposed)
    requires forall k :: 0 <= k < |stored| ==> LegalApprover(stored[k]) && LegalApprover(proposed[k])
    ensures forall k :: i <= k < |stored| && FirstEnd(stored, proposed, req, i, k) ==>
              OwnChange(stored, proposed, req, i) == Found(stored[k], proposed[k], req.user)
    ensures (forall k :: i <= k < |stored| ==> !EndsAt(stored, proposed, req, k)) ==>
              OwnChange(stored, proposed, req, i) == Unchanged
    decreases |stored| - i
  {
    if i < |stored| {
      EntryChangeExactly(stored[i], proposed[i], req);
      if !EndsAt(stored, proposed, req, i) {
        OwnChangeExactly(stored, proposed, req, i + 1);
        forall k | i <= k < |stored| && FirstEnd(stored, proposed, req, i, k)
          ensures OwnChange(stored, proposed, req, i) == Found(stored[k], proposed[k], req.user)
        {
          assert FirstEnd(stored, proposed, req, i + 1, k);
        }
      }
    }
  }

  // ---------- the verdict ----------

  predicate IsClosed(task: Task) {
    || task.status.state == ApprovedState || task.status.state == RejectedState
    || |ApprovedUsers(task.spec.approvers)| >= task.spec.required
  }

  predicate IsNamed(approvers: seq<Approver>, req: Requester) {
    exists a :: a in approvers && Names(a, req.user, req.groups)
  }

  /** A rejection on record settles every update of its author, an approval another approval. */
  predicate IsSettled(task: Task, proposed: Spec, req: Requester) {
    || Recorded(task.status.responses, req.user, RejectedState)
    || (Recorded(task.status.responses, req.user, ApprovedState) && WantsApproval(proposed.approvers, req))
  }

  /** The verdict once a change of the requester's own has been looked for. */
  function Settle(change: Change, framed: bool): Verdict {
    match change
    case ValidChange => if framed then Allowed else NotOwnInput
    case BadChange => BadInput
    case _ => NotOwnInput
  }

  lemma NamedExactly(approvers: seq<Approver>, req: Requester)
    requires approvers != []
    ensures UserExists(approvers, req) <==> IsNamed(approvers, req)
  {
    forall a | a in approvers
      ensures Speaks(a, req) <==> Names(a, req.user, req.groups)
    {
    }
  }

  lemma GuardVerdict(task: Task, proposed: Spec, req: Requester)
    requires LegalSpec(task.spec) && LegalSpec(proposed)
    ensures var verdict := Admit(Update, task, proposed, req);
            if IsClosed(task) then verdict == FinalReached
            else if !IsNamed(task.spec.approvers, req) then verdict == NotListed
            else IsSettled(task, proposed, req) ==> verdict == AlreadyDecided
  {
    NamedExactly(task.spec.approvers, req);
    DesiredInputByPosition(proposed.approvers, req);
  }

  lemma LegalAtEveryPlace(stored: seq<Approver>, proposed: seq<Approver>)
    requires |stored| == |proposed|
    requires (forall a :: a in stored ==> LegalApprover(a)) && (forall a :: a in proposed ==> LegalApprover(a))
    ensures forall k :: 0 <= k < |stored| ==> LegalApprover(stored[k]) && LegalApprover(proposed[k])
  {
  }

  lemma PastTheGuards(task: Task, proposed: Spec, req: Requester)
    requires LegalSpec(task.spec) && LegalSpec(proposed)
    requires !IsClosed(task) && IsNamed(task.spec.approvers, req) && !IsSettled(task, proposed, req)
    ensures Admit(Update, task, proposed, req) == match OwnChange(task.spec.approvers, proposed.approvers, req, 0)
            case ChangeOutOfRange => Crashed
            case BadChange => BadInput
            case Unchanged => NotOwnInput
            case ValidChange =>
              match OthersCheck(task.spec.approvers, proposed.approvers, req, 0)
              case Pass => Allowed
              case Fail => NotOwnInput
              case CheckOutOfRange => Crashed
  {
    NamedExactly(task.spec.approvers, req);
    DesiredInputByPosition(proposed.approvers, req);
  }

  lemma ChangeVerdict(task: Task, proposed: Spec, req: Requester)
    requires LegalSpec(task.spec) && LegalSpec(proposed) && SameSkeleton(task.spec.approvers, proposed.approvers)
    requires !IsClosed(task) && IsNamed(task.spec.approvers, req) && !IsSettled(task, proposed, req)
    ensures Admit(Update, task, proposed, req)
         == Settle(OwnChange(task.spec.approvers, proposed.approvers, req, 0),
                   AuthorFrame(task.spec.approvers, proposed.approvers, req))
  {
    PastTheGuards(task, proposed, req);
    LegalAtEveryPlace(task.spec.approvers, proposed.approvers);
    OthersCheckIsFrame(task.spec.approvers, proposed.approvers, req, 0);
    NoCheckOutOfRange(task.spec.approvers, proposed.approvers, req, 0);
  }

  /** The verdict on every legal update of a legal task that keeps entries in their places. */
  lemma VerdictExactly(task: Task, proposed: Spec, req: Requester)
    requires LegalSpec(task.spec) && LegalSpec(proposed) && SameSkeleton(task.spec.approvers, proposed.approvers)
    ensures var verdict := Admit(Update, task, proposed, req);
            var stored := task.spec.approvers;
            if IsClosed(task) then verdict == FinalReached
            else if !IsNamed(stored, req) then verdict == NotListed
            else if IsSettled(task, proposed, req) then verdict == AlreadyDecided
            else
              && (forall k :: 0 <= k < |stored| && FirstEnd(stored, proposed.approvers, req, 0, k) ==>
                    verdict == Settle(Found(stored[k], proposed.approvers[k], req.user),
                                      AuthorFrame(stored, proposed.approvers, req)))
              && ((forall k :: 0 <= k < |stored| ==> !EndsAt(stored, proposed.approvers, req, k)) ==>
                    verdict == NotOwnInput)
  {
    GuardVerdict(task, proposed, req);
    if !IsClosed(task) && IsNamed(task.spec.approvers, req) && !IsSettled(task, proposed, req) {
      ChangeVerdict(task, proposed, req);
      LegalAtEveryPlace(task.spec.approvers, proposed.approvers);
      OwnChangeExactly(task.spec.approvers, proposed.approvers, req, 0);
    }
  }

  // ---------- a list that got shorter ----------

  lemma {:induction false} SearchPastTheEnd(stored: seq<Approver>, proposed: seq<Approver>, req: Requester,
                                            i: nat, k: nat)
    requires i <= k < |stored| && |proposed| <= k
    requires IsOwn(stored[k], req.user) && LegalApprover(stored[k])
    requires forall j :: i <= j < k ==> !Names(stored[j], req.user, req.groups)
    ensures OwnChange(stored, proposed, req, i) == ChangeOutOfRange
    decreases k - i
  {
    if i < k {
      assert !Names(stored[i], req.user, req.groups);
      SearchPastTheEnd(stored, proposed, req, i + 1, k);
    }
  }

  /** An update that cuts off the requester's own individual entry, the first that names them, runs
      into the index panic instead of a denial. */
  lemma CutOffEntryCrashes(task: Task, proposed: Spec, req: Requester, k: nat)
    requires LegalSpec(task.spec) && LegalSpec(proposed) && !IsClosed(task)
    requires |proposed.approvers| <= k < |task.spec.approvers|
    requires IsOwn(task.spec.approvers[k], req.user)
    requires forall j :: 0 <= j < k ==> !Names(task.spec.approvers[j], req.user, req.groups)
    requires !IsSettled(task, proposed, req)
    ensures Admit(Update, task, proposed, req) == Crashed
  {
    var approvers := task.spec.approvers;
    assert approvers[k] in approvers && LegalApprover(approvers[k]) && Names(approvers[k], req.user, req.groups);
    NamedExactly(approvers, req);
    DesiredInputByPosition(proposed.approvers, req);
    SearchPastTheEnd(approvers, proposed.approvers, req, 0, k);
  }
}
