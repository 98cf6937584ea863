/** The status the controller writes is a faithful image of the spec. */
module ControllerLaws {
  import opened ApprovalTypes
  import opened Quorum
  import opened Validation
  import opened Admission
  import opened Controller

  /** No two entries share a name, whatever their types. */
  predicate DistinctNames(approvers: seq<Approver>) {
    forall i, j :: 0 <= i < j < |approvers| ==> approvers[i].name != approvers[j].name
  }

  /** Somebody's answer can be shown: a decided individual, or a decided member of a group whose
      own level is decided. */
  predicate HasResponder(approvers: seq<Approver>) {
    exists a :: a in approvers && Responds(a)
  }

  predicate Responds(a: Approver) {
    && Decided(a.input)
    && (a.IsUser() || (a.IsGroup() && exists u :: u in a.users && Decided(u.input)))
  }

  /** The names of the decided individuals. */
  predicate IsProcessed(approvers: seq<Approver>, n: string) {
    exists a :: a in approvers && a.IsUser() && Decided(a.input) && a.name == n
  }

  // ---------- the two passes ----------

  lemma {:induction false} UserRespondersExactly(approvers: seq<Approver>)
    ensures forall n :: n in UserResponders(approvers) <==> IsProcessed(approvers, n)
    ensures forall n :: n in UserResponders(approvers) ==>
      exists a :: a in approvers && a.name == n && UserState(a) == Some(UserResponders(approvers)[n])
  {
    if approvers != [] {
      var init, last := approvers[..|approvers| - 1], approvers[|approvers| - 1];
      UserRespondersExactly(init);
      assert approvers == init + [last];
      assert forall a :: a in approvers <==> a in init || a == last;
      assert forall n :: (IsProcessed(approvers, n)
                          <==> IsProcessed(init, n) || (last.IsUser() && Decided(last.input) && last.name == n));
      var rest := UserResponders(init);
      assert UserResponders(approvers)
          == if UserState(last).Some? then rest[last.name := UserState(last).value] else rest;
      forall n | n in UserResponders(approvers)
        ensures exists a :: a in approvers && a.name == n && UserState(a) == Some(UserResponders(approvers)[n])
      {
        if UserState(last).Some? && n == last.name {
          assert last in approvers;
        } else {
          var a :| a in init && a.name == n && UserState(a) == Some(rest[n]);
          assert a in approvers;
        }
      }
    }
  }

  lemma {:induction false} MembersExactly(users: seq<UserDetails>, processed: set<string>)
    ensures forall m :: m in Members(users, processed) <==>
      exists u :: u in users && u.name !in processed && Decided(u.input)
                  && m == GroupMember(u.name, ResponseOf(u.input), u.message)
  {
    if users != [] {
      var init, last := users[..|users| - 1], users[|users| - 1];
      MembersExactly(init, processed);
      assert users == init + [last];
      assert forall u :: u in users <==> u in init || u == last;
    }
  }

  /** Every value of the map stems from an entry of that name. */
  lemma {:induction false} AddGroupsSound(approvers: seq<Approver>, users: map<string, ApproverState>)
    ensures users.Keys <= AddGroups(approvers, users).Keys
    ensures forall n :: n in AddGroups(approvers, users) ==>
      || (n in users && AddGroups(approvers, users)[n] == users[n])
      || exists a :: a in approvers && a.name == n && GroupState(a, users.Keys) == Some(AddGroups(approvers, users)[n])
    ensures forall a :: a in approvers && GroupState(a, users.Keys).Some? ==> a.name in AddGroups(approvers, users)
  {
    if approvers != [] {
      var init, last := approvers[..|approvers| - 1], approvers[|approvers| - 1];
      AddGroupsSound(init, users);
      assert approvers == init + [last];
      assert forall a :: a in approvers <==> a in init || a == last;
      var m := AddGroups(init, users);
      forall n | n in AddGroups(approvers, users)
        ensures || (n in users && AddGroups(approvers, users)[n] == users[n])
                || exists a ::
                     a in approvers && a.name == n && GroupState(a, users.Keys) == Some(AddGroups(approvers, users)[n])
      {
        if GroupState(last, users.Keys).Some? && n == last.name {
          assert last in approvers;
        } else if !(n in users && m[n] == users[n]) {
          var a :| a in init && a.name == n && GroupState(a, users.Keys) == Some(m[n]);
          assert a in approvers;
        }
      }
    }
  }

  /** Where a value of the final map comes from. */
  predicate StemsFrom(approvers: seq<Approver>, a: Approver, r: ApproverState) {
    a in approvers && a.name == r.name
    && (UserState(a) == Some(r) || GroupState(a, UserResponders(approvers).Keys) == Some(r))
  }

  lemma RespondersSound(approvers: seq<Approver>, n: string)
    requires n in Responders(approvers)
    ensures exists a :: StemsFrom(approvers, a, Responders(approvers)[n])
    ensures Responders(approvers)[n].name == n
  {
    RespondersKeyed(approvers);
    UserRespondersExactly(approvers);
    AddGroupsSound(approvers, UserResponders(approvers));
    var r := Responders(approvers)[n];
    if n in UserResponders(approvers) && r == UserResponders(approvers)[n] {
      var a :| a in approvers && a.name == n && UserState(a) == Some(r);
      assert StemsFrom(approvers, a, r);
    } else {
      var a :| a in approvers && a.name == n && GroupState(a, UserResponders(approvers).Keys) == Some(r);
      assert StemsFrom(approvers, a, r);
    }
  }

  /** With distinct names nothing is overwritten: every entry that responds is in the map. */
  lemma RespondersComplete(approvers: seq<Approver>, a: Approver)
    requires DistinctNames(approvers) && a in approvers
    requires UserState(a).Some? || GroupState(a, UserResponders(approvers).Keys).Some?
    ensures a.name in Responders(approvers)
    ensures StemsFrom(approvers, a, Responders(approvers)[a.name])
  {
    UserRespondersExactly(approvers);
    AddGroupsSound(approvers, UserResponders(approvers));
    if UserState(a).Some? {
      assert IsProcessed(approvers, a.name);
    }
    RespondersSound(approvers, a.name);
    var b :| StemsFrom(approvers, b, Responders(approvers)[a.name]);
    var i :| 0 <= i < |approvers| && approvers[i] == a;
    var j :| 0 <= j < |approvers| && approvers[j] == b;
    assert i == j;
  }

  lemma ListingMembers(responses: seq<ApproverState>, current: map<string, ApproverState>, r: ApproverState)
    requires IsListing(responses, current)
    ensures r in responses <==> r in current.Values
  {
    assert r in responses <==> r in multiset(responses);
    assert r in multiset(current.Values) <==> r in current.Values;
  }

  // ---------- the empty-responder guard ----------

  /** `len(currentApprovers) != 0`, read off the spec. */
  lemma GuardExactly(approvers: seq<Approver>)
    ensures Responders(approvers) != map[] <==> HasResponder(approvers)
  {
    UserRespondersExactly(approvers);
    AddGroupsSound(approvers, UserResponders(approvers));
    var processed := UserResponders(approvers).Keys;
    if HasResponder(approvers) {
      var a :| a in approvers && Responds(a);
      if a.IsUser() {
        assert IsProcessed(approvers, a.name);
        assert a.name in Responders(approvers);
      } else {
        var u :| u in a.users && Decided(u.input);
        MembersExactly(a.users, processed);
        if u.name in processed {
          assert u.name in Responders(approvers);
        } else {
          assert GroupMember(u.name, ResponseOf(u.input), u.message) in Members(a.users, processed);
          assert a.name in Responders(approvers);
        }
      }
    }
    if Responders(approvers) != map[] {
      var n :| n in Responders(approvers);
      RespondersSound(approvers, n);
      var a :| StemsFrom(approvers, a, Responders(approvers)[n]);
      if UserState(a) != Some(Responders(approvers)[n]) {
        MembersExactly(a.users, processed);
        var m := Members(a.users, processed)[0];
        assert m in Members(a.users, processed);
      }
      assert Responds(a);
    }
  }

  // ---------- what the responses show ----------

  /** The entry that makes user `n` appear with response `s`. */
  predicate Shows(approvers: seq<Approver>, n: string, s: State) {
    exists a :: a in approvers && EntryShows(approvers, a, n, s)
  }

  predicate EntryShows(approvers: seq<Approver>, a: Approver, n: string, s: State) {
    && Decided(a.input)
    && ((a.IsUser() && a.name == n && ResponseOf(a.input) == s)
        || (a.IsGroup() && !IsProcessed(approvers, n)
            && exists u :: u in a.users && u.name == n && Decided(u.input) && ResponseOf(u.input) == s))
  }

  lemma StemsFromShows(approvers: seq<Approver>, a: Approver, r: ApproverState, n: string, s: State)
    requires StemsFrom(approvers, a, r)
    ensures Records(r, n, s) <==> EntryShows(approvers, a, n, s)
  {
    UserRespondersExactly(approvers);
    var processed := UserResponders(approvers).Keys;
    MembersExactly(a.users, processed);
    if Records(r, n, s) && r.kind == Group {
      var m :| m in r.members && m.name == n && m.response == s;
      assert m in Members(a.users, processed);
    }
    if EntryShows(approvers, a, n, s) && a.IsGroup() {
      var u :| u in a.users && u.name == n && Decided(u.input) && ResponseOf(u.input) == s;
      assert GroupMember(u.name, ResponseOf(u.input), u.message) in Members(a.users, processed);
    }
  }

  /** Nothing is recorded that the spec does not say. */
  lemma RecordedIsShown(approvers: seq<Approver>, responses: seq<ApproverState>, n: string, s: State)
    requires IsListing(responses, Responders(approvers)) && Recorded(responses, n, s)
    ensures Shows(approvers, n, s)
  {
    var r :| r in responses && Records(r, n, s);
    ListingMembers(responses, Responders(approvers), r);
    var k :| k in Responders(approvers) && Responders(approvers)[k] == r;
    RespondersSound(approvers, k);
    var a :| StemsFrom(approvers, a, r);
    StemsFromShows(approvers, a, r, n, s);
  }

  /** With distinct entry names, the responses record exactly what the spec says, in any order. */
  lemma RecordedExactly(approvers: seq<Approver>, responses: seq<ApproverState>, n: string, s: State)
    requires DistinctNames(approvers) && IsListing(responses, Responders(approvers))
    ensures Recorded(responses, n, s) <==> Shows(approvers, n, s)
  {
    var current := Responders(approvers);
    if Recorded(responses, n, s) {
      RecordedIsShown(approvers, responses, n, s);
    }
    if Shows(approvers, n, s) {
      var a :| a in approvers && EntryShows(approvers, a, n, s);
      UserRespondersExactly(approvers);
      var processed := UserResponders(approvers).Keys;
      if a.IsGroup() {
        MembersExactly(a.users, processed);
        var u :| u in a.users && u.name == n && Decided(u.input) && ResponseOf(u.input) == s;
        assert GroupMember(u.name, ResponseOf(u.input), u.message) in Members(a.users, processed);
      }
      RespondersComplete(approvers, a);
      var r := current[a.name];
      ListingMembers(responses, current, r);
      StemsFromShows(approvers, a, r, n, s);
    }
  }

  /** Nobody is listed both as an individual and as a member of a group, even when a user and a
      group share a name. */
  lemma NobodyListedTwice(approvers: seq<Approver>, responses: seq<ApproverState>,
                          r1: ApproverState, r2: ApproverState, m: GroupMember)
    requires IsListing(responses, Responders(approvers))
    requires r1 in responses && r1.kind == User
    requires r2 in responses && r2.kind == Group && m in r2.members
    ensures m.name != r1.name
  {
    var current := Responders(approvers);
    ListingMembers(responses, current, r1);
    ListingMembers(responses, current, r2);
    var k1 :| k1 in current && current[k1] == r1;
    var k2 :| k2 in current && current[k2] == r2;
    RespondersSound(approvers, k1);
    RespondersSound(approvers, k2);
    var a1 :| StemsFrom(approvers, a1, r1);
    var a2 :| StemsFrom(approvers, a2, r2);
    UserRespondersExactly(approvers);
    MembersExactly(a2.users, UserResponders(approvers).Keys);
    assert IsProcessed(approvers, r1.name);
  }

  /** The distinct users the responses show as having given response `s`. */
  function ShownUsers(responses: seq<ApproverState>, s: State): (r: set<string>)
    ensures forall n :: n in r <==> Recorded(responses, n, s)
  {
    var individuals := set r | r in responses && Defaulted(r.kind).User? && r.response == s :: r.name;
    var members := set r, m | r in responses && Defaulted(r.kind).Group? && m in r.members && m.response == s :: m.name;
    assert forall n :: n in members <==>
      exists r :: r in responses && Defaulted(r.kind).Group?
                  && exists m :: m in r.members && m.response == s && m.name == n;
    individuals + members
  }

  lemma ShowsApprovedExactly(approvers: seq<Approver>, n: string)
    requires !HasReject(approvers)
    ensures Shows(approvers, n, ApprovedState) <==> n in ApprovedUsers(approvers)
  {
  }

  /** Status is a faithful image of the spec: with distinct names and no top-level rejection the
      users shown as approved are exactly those the quorum counts, so `approvalsReceived` is their
      number. */
  lemma ApprovalsAreShown(spec: Spec, before: Status, after: Status)
    requires DistinctNames(spec.approvers) && !HasReject(spec.approvers)
    requires UpdatesTo(spec, before, after)
    ensures ShownUsers(after.responses, ApprovedState) == ApprovedUsers(spec.approvers)
    ensures after.approvalsReceived == |ShownUsers(after.responses, ApprovedState)|
  {
    forall n
      ensures n in ShownUsers(after.responses, ApprovedState) <==> n in ApprovedUsers(spec.approvers)
    {
      RecordedExactly(spec.approvers, after.responses, n, ApprovedState);
      ShowsApprovedExactly(spec.approvers, n);
    }
    assert ShownUsers(after.responses, ApprovedState) == ApprovedUsers(spec.approvers);
  }

  // ---------- a name shared by a user and a group ----------

  /** An answering group called `n`. */
  predicate GroupAnswers(approvers: seq<Approver>, processed: set<string>, n: string) {
    exists g :: g in approvers && g.name == n && GroupState(g, processed).Some?
  }

  /** `r` is the answer of a group called `n`. */
  predicate IsGroupAnswer(approvers: seq<Approver>, processed: set<string>, n: string, r: ApproverState) {
    exists g :: g in approvers && g.name == n && GroupState(g, processed) == Some(r)
  }

  /** Group answers overwrite user answers of the same name, and nothing else is overwritten. */
  lemma {:induction false} AddGroupsExactly(approvers: seq<Approver>, users: map<string, ApproverState>, n: string)
    ensures n in AddGroups(approvers, users) <==> n in users || GroupAnswers(approvers, users.Keys, n)
    ensures n in AddGroups(approvers, users) ==>
              if GroupAnswers(approvers, users.Keys, n)
              then IsGroupAnswer(approvers, users.Keys, n, AddGroups(approvers, users)[n])
              else AddGroups(approvers, users)[n] == users[n]
  {
    if approvers != [] {
      var init, last := approvers[..|approvers| - 1], approvers[|approvers| - 1];
      AddGroupsExactly(init, users, n);
      assert approvers == init + [last];
      assert forall a :: a in approvers <==> a in init || a == last;
      if GroupState(last, users.Keys).Some? && last.name == n {
        assert GroupAnswers(approvers, users.Keys, n);
        assert IsGroupAnswer(approvers, users.Keys, n, AddGroups(approvers, users)[n]);
      } else {
        assert GroupAnswers(approvers, users.Keys, n) <==> GroupAnswers(init, users.Keys, n);
        if GroupAnswers(init, users.Keys, n) {
          var g :| g in init && g.name == n && GroupState(g, users.Keys) == Some(AddGroups(init, users)[n]);
          assert g in approvers;
        }
      }
    }
  }

  lemma SameKeySameEntry(approvers: seq<Approver>, a: Approver, b: Approver)
    requires DistinctKeys(approvers) && a in approvers && b in approvers && SameKey(a, b)
    ensures a == b
  {
    var i :| 0 <= i < |approvers| && approvers[i] == a;
    var j :| 0 <= j < |approvers| && approvers[j] == b;
    assert i == j;
  }

  /** The value that is kept for a responding entry: its own, unless it is a user and a group of the
      same name answers. */
  lemma KeptValue(approvers: seq<Approver>, a: Approver)
    requires DistinctKeys(approvers) && a in approvers
    ensures var processed := UserResponders(approvers).Keys;
            && (GroupState(a, processed).Some? ==>
                  a.name in Responders(approvers) && Responders(approvers)[a.name] == GroupState(a, processed).value)
            && (UserState(a).Some? && !GroupAnswers(approvers, processed, a.name) ==>
                  a.name in Responders(approvers) && Responders(approvers)[a.name] == UserState(a).value)
  {
    var users := UserResponders(approvers);
    AddGroupsExactly(approvers, users, a.name);
    UserRespondersExactly(approvers);
    if GroupState(a, users.Keys).Some? {
      var g :| g in approvers && g.name == a.name && GroupState(g, users.Keys) == Some(Responders(approvers)[a.name]);
      SameKeySameEntry(approvers, a, g);
    }
    if UserState(a).Some? {
      assert IsProcessed(approvers, a.name);
      var b :| b in approvers && b.name == a.name && UserState(b) == Some(users[a.name]);
      SameKeySameEntry(approvers, a, b);
    }
  }

  /** An approving user whose response a group of the same name overwrites. */
  predicate HidesApproval(approvers: seq<Approver>, u: Approver) {
    && u.IsUser() && u.input.Approve?
    && GroupAnswers(approvers, UserResponders(approvers).Keys, u.name)
  }

  predicate ApprovalHidden(approvers: seq<Approver>) {
    exists u :: u in approvers && HidesApproval(approvers, u)
  }

  lemma ShownIsApproved(approvers: seq<Approver>, responses: seq<ApproverState>, n: string)
    requires !HasReject(approvers) && IsListing(responses, Responders(approvers))
    requires Recorded(responses, n, ApprovedState)
    ensures n in ApprovedUsers(approvers)
  {
    RecordedIsShown(approvers, responses, n, ApprovedState);
    ShowsApprovedExactly(approvers, n);
  }

  lemma KeptApprovalIsShown(approvers: seq<Approver>, responses: seq<ApproverState>, a: Approver, n: string)
    requires DistinctKeys(approvers) && IsListing(responses, Responders(approvers))
    requires a in approvers && EntryShows(approvers, a, n, ApprovedState)
    requires !HidesApproval(approvers, a)
    ensures Recorded(responses, n, ApprovedState)
  {
    var current, processed := Responders(approvers), UserResponders(approvers).Keys;
    KeptValue(approvers, a);
    if a.IsGroup() {
      UserRespondersExactly(approvers);
      MembersExactly(a.users, processed);
      var u :| u in a.users && u.name == n && Decided(u.input) && ResponseOf(u.input) == ApprovedState;
      assert GroupMember(u.name, ResponseOf(u.input), u.message) in Members(a.users, processed);
    }
    var r := current[a.name];
    assert StemsFrom(approvers, a, r);
    ListingMembers(responses, current, r);
    StemsFromShows(approvers, a, r, n, ApprovedState);
  }

  lemma HiddenApprovalIsNotShown(approvers: seq<Approver>, responses: seq<ApproverState>, u: Approver)
    requires DistinctKeys(approvers) && IsListing(responses, Responders(approvers))
    requires u in approvers && HidesApproval(approvers, u)
    ensures !Recorded(responses, u.name, ApprovedState)
  {
    var current, users := Responders(approvers), UserResponders(approvers);
    AddGroupsExactly(approvers, users, u.name);
    UserRespondersExactly(approvers);
    assert IsProcessed(approvers, u.name);
    var g :| g in approvers && g.name == u.name && GroupState(g, users.Keys) == Some(current[u.name]);
    forall r | r in responses
      ensures !Records(r, u.name, ApprovedState)
    {
      ListingMembers(responses, current, r);
      var k :| k in current && current[k] == r;
      RespondersSound(approvers, k);
      var a :| StemsFrom(approvers, a, r);
      StemsFromShows(approvers, a, r, u.name, ApprovedState);
    }
  }

  lemma SubsetOfSameSize(xs: set<string>, ys: set<string>)
    requires xs <= ys && |xs| == |ys|
    ensures xs == ys
  {
    assert ys == xs + (ys - xs);
  }

  /** When a shared name hides an approval: of a legal spec without rejection the users shown as
      approved are the users counted if and only if no group that answers bears the name of an
      approving individual; and the same holds of their numbers. */
  lemma ApprovalsAreShownExactly(spec: Spec, before: Status, after: Status)
    requires LegalSpec(spec) && !HasReject(spec.approvers) && UpdatesTo(spec, before, after)
    ensures ShownUsers(after.responses, ApprovedState) == ApprovedUsers(spec.approvers)
            <==> !ApprovalHidden(spec.approvers)
    ensures after.approvalsReceived == |ShownUsers(after.responses, ApprovedState)|
            <==> !ApprovalHidden(spec.approvers)
  {
    var approvers, responses := spec.approvers, after.responses;
    var shown, approved := ShownUsers(responses, ApprovedState), ApprovedUsers(approvers);
    forall n | n in shown
      ensures n in approved
    {
      ShownIsApproved(approvers, responses, n);
    }
    if ApprovalHidden(approvers) {
      var u :| u in approvers && HidesApproval(approvers, u);
      HiddenApprovalIsNotShown(approvers, responses, u);
      assert Approves(u, u.name);
      assert u.name in approved && u.name !in shown;
    } else {
      forall n | n in approved
        ensures n in shown
      {
        ShowsApprovedExactly(approvers, n);
        var a :| a in approvers && EntryShows(approvers, a, n, ApprovedState);
        KeptApprovalIsShown(approvers, responses, a, n);
      }
      assert shown == approved;
    }
    if |shown| == |approved| {
      SubsetOfSameSize(shown, approved);
    }
  }

  /** A legal list on which it happens: user `x` and a member `y` of group `x` have both approved,
      and `x` is shown nowhere. */
  lemma SharedNameHidesAnApproval()
    ensures var approvers := [Approver("x", Approve, "", User, []),
                              Approver("x", Approve, "", Group, [UserDetails("y", Approve, "")])];
            && LegalSpec(Spec(approvers, 2)) && ApprovalHidden(approvers)
            && ApprovedUsers(approvers) == {"x", "y"}
            && forall responses :: IsListing(responses, Responders(approvers)) ==>
                 !Recorded(responses, "x", ApprovedState)
  {
    var y := UserDetails("y", Approve, "");
    var user, group := Approver("x", Approve, "", User, []), Approver("x", Approve, "", Group, [y]);
    var approvers := [user, group];
    assert 'x' in "x" && !IsSpace('x') && 'y' in "y" && !IsSpace('y');
    assert LegalSpec(Spec(approvers, 2));
    assert user in approvers && group in approvers && y in group.users;
    assert Approves(user, "x") && Approves(group, "y");
    assert forall n :: n in ApprovedUsers(approvers) ==> n == "x" || n == "y";
    assert ApprovedUsers(approvers) == {"x", "y"};
    UserRespondersExactly(approvers);
    var processed := UserResponders(approvers).Keys;
    assert !IsProcessed(approvers, "y");
    MembersExactly(group.users, processed);
    assert GroupMember("y", ApprovedState, "") in Members(group.users, processed);
    assert GroupAnswers(approvers, processed, "x");
    assert HidesApproval(approvers, user);
    forall responses | IsListing(responses, Responders(approvers))
      ensures !Recorded(responses, "x", ApprovedState)
    {
      HiddenApprovalIsNotShown(approvers, responses, user);
    }
  }

  // ---------- the decision ----------

  /** The rule the documentation gives: one rejection rejects, a quorum approves. */
  function Decide(spec: Spec): State {
    if HasReject(spec.approvers) then RejectedState
    else if QuorumReached(spec) then ApprovedState
    else PendingState
  }

  predicate Undecided(state: State) {
    !Final(state)
  }

  /** Same verdict; the empty state a task has before its first status write counts as pending. */
  predicate Agrees(state: State, decision: State) {
    if Final(decision) then state == decision else Undecided(state)
  }

  function StateAfter(task: Task, e: Effect): State {
    if e.write.Some? then e.write.value.state else task.status.state
  }

  /** The task after a reconcile has done its status write. */
  function Reconciled(task: Task, e: Effect): Task {
    if e.write.Some? then task.(status := e.write.value) else task
  }

  /** Two reconciles in a row, both before the deadline, the second on what the first stored: it
      writes if and only if the first did, asks for the same mark, and a second status differs from
      the first in the order of the responses only. */
  lemma SecondReconcileOnlyShuffles(task: Task, timeout: int, now1: int, now2: int, gated: bool, e1: Effect, e2: Effect)
    requires Plans(task, timeout, now1, gated, e1) && Plans(Reconciled(task, e1), timeout, now2, gated, e2)
    requires !TimedOut(StartOf(task), timeout, now1) && !TimedOut(StartOf(task), timeout, now2)
    ensures e2.write.Some? <==> e1.write.Some?
    ensures e2.mark == e1.mark
    ensures e1.write.Some? ==>
              && multiset(e2.write.value.responses) == multiset(e1.write.value.responses)
              && e2.write.value == e1.write.value.(responses := e2.write.value.responses)
  {
  }

  // ---------- the hash annotation ----------

  /** Of any task, reachable or not: a reconcile in time leaves a task whose annotation is the digest of
      its own list alone, whatever that list says. Otherwise, with no annotation or that of another
      list, it writes a status exactly if there is somebody to show, and marks the run as the state
      then says. */
  lemma AnnotationExactly(task: Task, timeout: int, now: int, e: Effect)
    requires Plans(task, timeout, now, true, e) && !TimedOut(StartOf(task), timeout, now)
    ensures if task.hash == Some(Digest(task.spec.approvers))
            then e.write == None && e.mark == NoMark
            else && (e.write.Some? <==> HasResponder(task.spec.approvers))
                 && (e.mark == MarkSucceeded <==> StateAfter(task, e) == ApprovedState)
                 && (e.mark == MarkFailed <==> StateAfter(task, e) == RejectedState)
  {
    GuardExactly(task.spec.approvers);
  }
}
