/** What an admitted update can and cannot have done to the stored approver list. */
module AdmissionLaws {
  import opened ApprovalTypes
  import opened Quorum
  import opened Validation
  import opened Admission

  /** Same length, order, names and types. The webhook compares entries by position only. */
  predicate SameSkeleton(stored: seq<Approver>, proposed: seq<Approver>) {
    && |stored| == |proposed|
    && forall i :: 0 <= i < |stored| ==>
         stored[i].name == proposed[i].name && stored[i].kind == proposed[i].kind
  }

  /** `users` has a member `name` whose input is `input`. */
  predicate Holds(users: seq<UserDetails>, name: string, input: Input) {
    exists u :: u in users && u.name == name && u.input == input
  }

  /** Between entries `a` and `b` nothing moved that the requester may not move. */
  predicate EntryFrame(a: Approver, b: Approver, req: Requester) {
    && (a.IsUser() && a.name != req.user ==> a.input == b.input)
    && (a.IsGroup() ==>
          && (!InGroup(a, req) ==> a.input == b.input)
          && (forall v :: v in b.users && v.name != req.user ==> Holds(a.users, v.name, v.input))
          && (Lists(b.users, req.user) && !Lists(a.users, req.user) ==> Carries(a, req)))
  }

  predicate AuthorFrame(stored: seq<Approver>, proposed: seq<Approver>, req: Requester)
    requires |stored| == |proposed|
  {
    forall i :: 0 <= i < |stored| ==> EntryFrame(stored[i], proposed[i], req)
  }

  /** An input the requester may set moved to approve or reject. */
  predicate EntryMoved(a: Approver, b: Approver, req: Requester) {
    || (a.IsUser() && a.name == req.user && a.input != b.input && Decided(b.input))
    || (a.IsGroup() && InGroup(a, req)
        && ((a.input != b.input && Decided(b.input))
            || exists v :: v in b.users && v.name == req.user && Decided(v.input)
                           && !Holds(a.users, v.name, v.input)))
  }

  predicate SomeMove(stored: seq<Approver>, proposed: seq<Approver>, req: Requester)
    requires |stored| == |proposed|
  {
    exists i :: 0 <= i < |stored| && EntryMoved(stored[i], proposed[i], req)
  }

  lemma {:induction false} RosterMapOfDistinct(users: seq<UserDetails>)
    requires DistinctMembers(users)
    ensures forall u :: u in users ==> u.name in RosterMap(users) && RosterMap(users)[u.name] == u.input
  {
    if users != [] {
      var init, last := users[..|users| - 1], users[|users| - 1];
      RosterMapOfDistinct(init);
      forall u | u in users
        ensures u.name in RosterMap(users) && RosterMap(users)[u.name] == u.input
      {
        if u != last {
          assert u in init;
          var k :| 0 <= k < |init| && users[k] == u;
          assert users[k].name != users[|users| - 1].name;
        }
      }
    }
  }

  lemma {:induction false} RosterLookupOfDistinct(users: seq<UserDetails>, u: UserDetails)
    requires DistinctMembers(users) && u in users
    ensures RosterLookup(users, u.name) == Some(u.input)
  {
    if users[0] != u {
      var k :| 0 <= k < |users| && users[k] == u;
      assert users[0].name != users[k].name;
      assert u in users[1..];
      RosterLookupOfDistinct(users[1..], u);
    }
  }

  /** On legal entries one round of `CheckOtherUsersForInvalidChanges` is exactly the frame. */
  lemma EntryCheckIsFrame(a: Approver, b: Approver, req: Requester)
    requires LegalApprover(a) && LegalApprover(b) && SameKey(a, b)
    ensures EntryCheck(a, Some(b), req) == Pass <==> EntryFrame(a, b, req)
  {
    if a.IsGroup() {
      RosterMapOfDistinct(a.users);
      RosterMapOfDistinct(b.users);
      var before, after := RosterMap(a.users), RosterMap(b.users);
      if EntryCheck(a, Some(b), req) == Pass {
        forall v | v in b.users && v.name != req.user
          ensures Holds(a.users, v.name, v.input)
        {
          assert v.name in after && v.name in before && before[v.name] == after[v.name];
          var u :| u in a.users && u.name == v.name;
        }
      }
      if EntryFrame(a, b, req) {
        forall n | n in after && n != req.user
          ensures n in before && before[n] == after[n]
        {
          var v :| v in b.users && v.name == n;
          assert Holds(a.users, v.name, v.input);
        }
      }
    }
  }

  lemma {:induction false} OthersCheckIsFrame(stored: seq<Approver>, proposed: seq<Approver>, req: Requester, i: nat)
    requires i <= |stored| && SameSkeleton(stored, proposed)
    requires forall k :: 0 <= k < |stored| ==> LegalApprover(stored[k]) && LegalApprover(proposed[k])
    ensures OthersCheck(stored, proposed, req, i) == Pass
            <==> forall k :: i <= k < |stored| ==> EntryFrame(stored[k], proposed[k], req)
    decreases |stored| - i
  {
    if i < |stored| {
      EntryCheckIsFrame(stored[i], proposed[i], req);
      OthersCheckIsFrame(stored, proposed, req, i + 1);
    }
  }

  lemma EntryChangeMoves(a: Approver, b: Approver, req: Requester)
    requires LegalApprover(a) && LegalApprover(b) && SameKey(a, b)
    requires EntryChange(a, Some(b), req) == Some(ValidChange)
    ensures EntryMoved(a, b, req)
  {
  }

  lemma {:induction false} OwnChangeMoves(stored: seq<Approver>, proposed: seq<Approver>, req: Requester, i: nat)
    requires i <= |stored| && SameSkeleton(stored, proposed)
    requires forall k :: 0 <= k < |stored| ==> LegalApprover(stored[k]) && LegalApprover(proposed[k])
    requires OwnChange(stored, proposed, req, i) == ValidChange
    ensures SomeMove(stored, proposed, req)
    decreases |stored| - i
  {
    if EntryChange(stored[i], At(proposed, i), req).Some? {
      EntryChangeMoves(stored[i], proposed[i], req);
    } else {
      OwnChangeMoves(stored, proposed, req, i + 1);
    }
  }

  /** Admission of a same-skeleton update of a legal task, spelled out. */
  lemma AdmittedExactly(task: Task, proposed: Spec, req: Requester)
    requires LegalSpec(task.spec) && SameSkeleton(task.spec.approvers, proposed.approvers)
    ensures Admit(Update, task, proposed, req) == Allowed
            <==> && LegalSpec(proposed)
                 && !Final(task.status.state) && !QuorumReached(task.spec)
                 && UserExists(task.spec.approvers, req)
                 && !HasAlreadyDecided(task.status.responses, req.user, DesiredInput(proposed.approvers, req))
                 && OwnChange(task.spec.approvers, proposed.approvers, req, 0) == ValidChange
                 && AuthorFrame(task.spec.approvers, proposed.approvers, req)
  {
    if LegalSpec(proposed) {
      OthersCheckIsFrame(task.spec.approvers, proposed.approvers, req, 0);
    }
  }

  /** Single author: whoever is not the requester keeps every input and nobody else is added,
      and the requester really moved something of their own to approve or reject. */
  lemma SingleAuthor(task: Task, proposed: Spec, req: Requester)
    requires LegalSpec(task.spec) && SameSkeleton(task.spec.approvers, proposed.approvers)
    requires Admit(Update, task, proposed, req) == Allowed
    ensures AuthorFrame(task.spec.approvers, proposed.approvers, req)
    ensures SomeMove(task.spec.approvers, proposed.approvers, req)
    ensures LegalSpec(proposed)
  {
    AdmittedExactly(task, proposed, req);
    OwnChangeMoves(task.spec.approvers, proposed.approvers, req, 0);
  }

  // ---------- who is let past the membership guard ----------

  /** Entry `a` names `user` as an individual, is a group among `groups`, or has `user` on its roster.
      An entry without a type is an individual's. */
  predicate Names(a: Approver, user: string, groups: seq<string>) {
    || ((a.kind == Unset || a.kind == User) && a.name == user)
    || (a.kind == Group && (a.name in groups || exists u :: u in a.users && u.name == user))
  }

  /** The membership guard turns away exactly the users the stored list does not name, unless that
      list is empty; and it is asked before anything else about the requester. */
  lemma NotListedExactly(task: Task, proposed: Spec, req: Requester)
    requires !Final(task.status.state) && !QuorumReached(task.spec) && LegalSpec(proposed)
    ensures Admit(Update, task, proposed, req) == NotListed
            <==> task.spec.approvers != [] && forall a :: a in task.spec.approvers ==> !Names(a, req.user, req.groups)
  {
    forall a | a in task.spec.approvers
      ensures Speaks(a, req) <==> Names(a, req.user, req.groups)
    {
    }
  }

  /** `proposed` differs from `stored` at entry `k` only. */
  predicate DiffersAt(stored: seq<Approver>, proposed: seq<Approver>, k: nat) {
    |stored| == |proposed| && forall i :: 0 <= i < |stored| && i != k ==> stored[i] == proposed[i]
  }

  lemma SameEntryChangesNothing(a: Approver, req: Requester)
    ensures EntryChange(a, Some(a), req)
         == if a.IsUser() && a.name == req.user then Some(Unchanged) else None
  {
  }

  /** The first individual entry of the requester ends the search for a change of their own. */
  lemma {:induction false} ChangeAtOneEntry(stored: seq<Approver>, proposed: seq<Approver>, req: Requester,
                                            i: nat, k: nat)
    requires i <= k < |stored| && DiffersAt(stored, proposed, k)
    requires EntryChange(stored[k], Some(proposed[k]), req) == Some(ValidChange)
    ensures OwnChange(stored, proposed, req, i)
         == if exists m :: i <= m < k && stored[m].IsUser() && stored[m].name == req.user then Unchanged
            else ValidChange
    decreases k - i
  {
    if i < k {
      SameEntryChangesNothing(stored[i], req);
      ChangeAtOneEntry(stored, proposed, req, i + 1, k);
    }
  }

  /** Group `a` with the input of its member at `j` set to `input`. */
  function WithMember(a: Approver, j: nat, input: Input): Approver
    requires j < |a.users|
  {
    a.(users := a.users[j := a.users[j].(input := input)])
  }

  function SetMember(spec: Spec, k: nat, j: nat, input: Input): Spec
    requires k < |spec.approvers| && j < |spec.approvers[k].users|
  {
    spec.(approvers := spec.approvers[k := WithMember(spec.approvers[k], j, input)])
  }

  lemma WithMemberMembers(users: seq<UserDetails>, j: nat, u: UserDetails)
    requires j < |users| && DistinctMembers(users) && u.name == users[j].name
    ensures DistinctMembers(users[j := u])
    ensures forall v :: v in users[j := u] ==> v == u || v in users
  {
    var updated := users[j := u];
    forall v | v in updated
      ensures v == u || v in users
    {
      var m :| 0 <= m < |updated| && updated[m] == v;
    }
  }

  lemma WithMemberIsLegal(a: Approver, j: nat, input: Input)
    requires LegalApprover(a) && a.IsGroup() && j < |a.users| && Decided(input)
    ensures LegalApprover(WithMember(a, j, input))
  {
    var u := a.users[j].(input := input);
    assert a.users[j] in a.users;
    WithMemberMembers(a.users, j, u);
  }

  lemma WithMemberFrame(a: Approver, j: nat, input: Input, req: Requester)
    requires LegalApprover(a) && a.IsGroup() && j < |a.users| && a.users[j].name == req.user
    ensures EntryFrame(a, WithMember(a, j, input), req)
  {
    assert a.users[j] in a.users;
    WithMemberMembers(a.users, j, a.users[j].(input := input));
  }

  lemma WithMemberLookup(users: seq<UserDetails>, j: nat, input: Input)
    requires j < |users| && DistinctMembers(users)
    ensures RosterLookup(users, users[j].name) == Some(users[j].input)
    ensures RosterLookup(users[j := users[j].(input := input)], users[j].name) == Some(input)
  {
    var u := users[j].(input := input);
    WithMemberMembers(users, j, u);
    RosterLookupOfDistinct(users, users[j]);
    assert users[j := u][j] == u;
    RosterLookupOfDistinct(users[j := u], u);
  }

  lemma MemberChange(a: Approver, b: Approver, input: Input, req: Requester)
    requires a.IsGroup() && a.input == b.input && Decided(input)
    requires RosterLookup(a.users, req.user) == Some(Pending) && RosterLookup(b.users, req.user) == Some(input)
    ensures EntryChange(a, Some(b), req) == Some(ValidChange)
  {
  }

  lemma WithMemberChange(a: Approver, j: nat, input: Input, req: Requester)
    requires LegalApprover(a) && a.IsGroup() && j < |a.users| && a.users[j].name == req.user
    requires a.users[j].input == Pending && Decided(input)
    ensures EntryChange(a, Some(WithMember(a, j, input)), req) == Some(ValidChange)
  {
    WithMemberLookup(a.users, j, input);
    MemberChange(a, WithMember(a, j, input), input, req);
  }

  lemma SetMemberIsLegal(spec: Spec, k: nat, j: nat, input: Input, req: Requester)
    requires LegalSpec(spec) && k < |spec.approvers| && spec.approvers[k].IsGroup()
    requires j < |spec.approvers[k].users| && spec.approvers[k].users[j].name == req.user
    requires spec.approvers[k].users[j].input.Pending? && Decided(input)
    ensures LegalSpec(SetMember(spec, k, j, input))
    ensures SameSkeleton(spec.approvers, SetMember(spec, k, j, input).approvers)
    ensures AuthorFrame(spec.approvers, SetMember(spec, k, j, input).approvers, req)
  {
    var proposed := SetMember(spec, k, j, input).approvers;
    assert spec.approvers[k] in spec.approvers;
    WithMemberIsLegal(spec.approvers[k], j, input);
    WithMemberFrame(spec.approvers[k], j, input, req);
    forall b | b in proposed
      ensures LegalApprover(b)
    {
      var i :| 0 <= i < |proposed| && proposed[i] == b;
      assert spec.approvers[i] in spec.approvers;
    }
    forall i, m | 0 <= i < m < |proposed|
      ensures !SameKey(proposed[i], proposed[m])
    {
      assert !SameKey(spec.approvers[i], spec.approvers[m]);
    }
  }

  /** A roster member with nothing on record, whether or not they carry the group, sets their own
      pending entry to approve or reject: admitted if and only if no individual entry of theirs
      comes before the group. */
  lemma RosterMemberIsAdmitted(task: Task, k: nat, j: nat, input: Input, req: Requester)
    requires LegalSpec(task.spec) && !Final(task.status.state) && !QuorumReached(task.spec)
    requires k < |task.spec.approvers| && task.spec.approvers[k].kind == Group
    requires j < |task.spec.approvers[k].users| && task.spec.approvers[k].users[j].name == req.user
    requires task.spec.approvers[k].users[j].input == Pending && (input == Approve || input == Reject)
    requires !Recorded(task.status.responses, req.user, ApprovedState)
    requires !Recorded(task.status.responses, req.user, RejectedState)
    ensures Admit(Update, task, SetMember(task.spec, k, j, input), req) == Allowed
            <==> forall i :: 0 <= i < k && task.spec.approvers[i].kind != Group ==>
                   task.spec.approvers[i].name != req.user
  {
    var approvers := task.spec.approvers;
    var proposed := SetMember(task.spec, k, j, input);
    SetMemberIsLegal(task.spec, k, j, input, req);
    assert approvers[k] in approvers;
    WithMemberChange(approvers[k], j, input, req);
    ChangeAtOneEntry(approvers, proposed.approvers, req, 0, k);
    assert approvers[k] in approvers && approvers[k].users[j] in approvers[k].users;
    assert Speaks(approvers[k], req);
    AdmittedExactly(task, proposed, req);
    forall i | 0 <= i < k
      ensures approvers[i].IsUser() <==> approvers[i].kind != Group
    {
      assert approvers[i] in approvers && LegalApprover(approvers[i]);
    }
  }

  /** The webhook never compares the requirement: any positive one is as good as another. */
  lemma RequirementIsNotCompared(task: Task, proposed: Spec, required: int, req: Requester)
    requires proposed.required > 0 && required > 0
    ensures Admit(Update, task, proposed.(required := required), req) == Admit(Update, task, proposed, req)
  {
  }

  /** An empty stored list lets every user past `ifUserExists`, yet nothing is ever admitted. */
  lemma EmptyListAdmitsNothing(task: Task, proposed: Spec, req: Requester)
    requires task.spec.approvers == []
    ensures UserExists(task.spec.approvers, req)
    ensures Admit(Update, task, proposed, req) != Allowed
  {
  }

  lemma {:induction false} NoCheckOutOfRange(stored: seq<Approver>, proposed: seq<Approver>, req: Requester, i: nat)
    requires i <= |stored| <= |proposed|
    ensures OwnChange(stored, proposed, req, i) != ChangeOutOfRange
    ensures OthersCheck(stored, proposed, req, i) != CheckOutOfRange
    decreases |stored| - i
  {
    if i < |stored| {
      NoCheckOutOfRange(stored, proposed, req, i + 1);
    }
  }

  /** The positional indexing stays in range whenever the proposed list is at least as long. */
  lemma NoCrash(operation: Operation, task: Task, proposed: Spec, req: Requester)
    requires |task.spec.approvers| <= |proposed.approvers|
    ensures Admit(operation, task, proposed, req) != Crashed
  {
    NoCheckOutOfRange(task.spec.approvers, proposed.approvers, req, 0);
  }
}
