/** The algebra of the client's rewrite, and its agreement with the webhook. */
module ClientLaws {
  import opened ApprovalTypes
  import opened Quorum
  import opened Validation
  import opened Admission
  import opened AdmissionLaws
  import opened Client

  // ---------- the rewrite entry by entry ----------

  lemma CliUpdateSkeleton(approvers: seq<Approver>, o: Options)
    ensures SameSkeleton(approvers, CliUpdate(approvers, o))
  {
  }

  lemma CliUpdateKeepsIndividuals(approvers: seq<Approver>, o: Options, user: string)
    ensures IsIndividual(CliUpdate(approvers, o), user) <==> IsIndividual(approvers, user)
  {
    var updated := CliUpdate(approvers, o);
    if IsIndividual(approvers, user) {
      var k :| 0 <= k < |approvers| && approvers[k].IsUser() && approvers[k].name == user;
      assert updated[k] in updated;
    }
    if IsIndividual(updated, user) {
      var k :| 0 <= k < |updated| && updated[k].IsUser() && updated[k].name == user;
      assert approvers[k] in approvers;
    }
  }

  /** The roster afterwards: the acting member with the new input and message, and everyone else
      as before. */
  lemma {:induction false} UpdateRosterMembers(users: seq<UserDetails>, o: Options)
    requires DistinctMembers(users)
    ensures DistinctMembers(UpdateRoster(users, o))
    ensures forall v :: v in UpdateRoster(users, o)
              <==> (v in users && v.name != o.user) || v == UserDetails(o.user, o.input, o.message)
  {
    var me := UserDetails(o.user, o.input, o.message);
    if users != [] {
      var rest := users[1..];
      assert forall v :: v in users <==> v == users[0] || v in rest;
      if users[0].name == o.user {
        assert forall v :: v in [me] + rest <==> v == me || v in rest;
        forall v | v in rest
          ensures v.name != o.user
        {
          var k :| 0 <= k < |rest| && rest[k] == v;
          assert users[k + 1] == v && users[0].name != users[k + 1].name;
        }
      } else {
        UpdateRosterMembers(rest, o);
        var updated := UpdateRoster(rest, o);
        assert UpdateRoster(users, o) == [users[0]] + updated;
        assert forall v :: v in [users[0]] + updated <==> v == users[0] || v in updated;
        forall k | 0 <= k < |updated|
          ensures users[0].name != updated[k].name
        {
          assert updated[k] in updated;
          if updated[k] in rest {
            var m :| 0 <= m < |rest| && rest[m] == updated[k];
            assert users[m + 1] == updated[k];
          }
        }
      }
    }
  }

  /** `update` preserves what the webhook validates, for a valid user name. */
  lemma CliUpdatePreservesLegality(spec: Spec, o: Options)
    requires LegalSpec(spec) && Decided(o.input) && ValidUserName(o.user)
    ensures LegalSpec(Rewrite(spec, o))
  {
    var updated := CliUpdate(spec.approvers, o);
    forall b | b in updated
      ensures LegalApprover(b)
    {
      var k :| 0 <= k < |updated| && updated[k] == b;
      assert LegalApprover(spec.approvers[k]);
      if IsCarriedGroup(spec.approvers[k], o) {
        UpdateRosterMembers(spec.approvers[k].users, o);
      }
    }
    forall i, j | 0 <= i < j < |updated|
      ensures !SameKey(updated[i], updated[j])
    {
      assert !SameKey(spec.approvers[i], spec.approvers[j]);
    }
  }

  // ---------- algebra ----------

  predicate Touches(a: Approver, o: Options) {
    IsOwnEntry(a, o) || IsCarriedGroup(a, o)
  }

  /** The acts of one user with one set of groups: the last one wins. The only thing that can
      survive of the first is a message on an entry that the second leaves without one. */
  lemma LaterUpdateAbsorbs(approvers: seq<Approver>, o1: Options, o2: Options)
    requires o1.user == o2.user && (forall g :: g in o1.groups <==> g in o2.groups)
    requires o2.message != "" || o1.message == ""
    ensures CliUpdate(CliUpdate(approvers, o1), o2) == CliUpdate(approvers, o2)
  {
    CliUpdateKeepsIndividuals(approvers, o1, o1.user);
    forall k | 0 <= k < |approvers|
      ensures CliUpdate(CliUpdate(approvers, o1), o2)[k] == CliUpdate(approvers, o2)[k]
    {
      UpdateRosterTwice(approvers[k].users, o1, o2);
    }
  }

  lemma UpdateIsIdempotent(approvers: seq<Approver>, o: Options)
    ensures CliUpdate(CliUpdate(approvers, o), o) == CliUpdate(approvers, o)
  {
    LaterUpdateAbsorbs(approvers, o, o);
  }

  predicate SameEntryUpToRosterOrder(a: Approver, b: Approver) {
    a.(users := []) == b.(users := []) && multiset(a.users) == multiset(b.users)
  }

  predicate SameUpToRosterOrder(xs: seq<Approver>, ys: seq<Approver>) {
    && |xs| == |ys|
    && forall k :: 0 <= k < |xs| ==> SameEntryUpToRosterOrder(xs[k], ys[k])
  }

  lemma {:induction false} RosterUpdatesCommute(users: seq<UserDetails>, o1: Options, o2: Options)
    requires o1.user != o2.user
    ensures multiset(UpdateRoster(UpdateRoster(users, o1), o2)) == multiset(UpdateRoster(UpdateRoster(users, o2), o1))
  {
    if users == [] {
      var m1, m2 := UserDetails(o1.user, o1.input, o1.message), UserDetails(o2.user, o2.input, o2.message);
      assert UpdateRoster([m1][1..], o2) == [m2] && UpdateRoster([m2][1..], o1) == [m1];
    } else {
      var head, rest := users[0], users[1..];
      var r1, r2 := UpdateRoster(rest, o1), UpdateRoster(rest, o2);
      if head.name == o1.user {
        var m1 := UserDetails(o1.user, o1.input, o1.message);
        assert ([m1] + rest)[1..] == rest;
        assert UpdateRoster(UpdateRoster(users, o1), o2) == [m1] + r2;
        assert ([head] + r2)[1..] == r2;
      } else if head.name == o2.user {
        var m2 := UserDetails(o2.user, o2.input, o2.message);
        assert ([m2] + rest)[1..] == rest;
        assert UpdateRoster(UpdateRoster(users, o2), o1) == [m2] + r1;
        assert ([head] + r1)[1..] == r1;
      } else {
        RosterUpdatesCommute(rest, o1, o2);
        assert ([head] + r1)[1..] == r1 && ([head] + r2)[1..] == r2;
        assert UpdateRoster(UpdateRoster(users, o1), o2) == [head] + UpdateRoster(r1, o2);
        assert UpdateRoster(UpdateRoster(users, o2), o1) == [head] + UpdateRoster(r2, o1);
      }
    }
  }

  /** The part of an entry that is not its roster, rewritten. */
  function UpdateHead(a: Approver, o: Options): Approver {
    if Touches(a, o) then a.(input := o.input, message := MergeMessage(a.message, o.message), users := [])
    else a.(users := [])
  }

  predicate JoinsRoster(a: Approver, o: Options, individual: bool) {
    IsCarriedGroup(a, o) && !individual
  }

  lemma UpdateEntryParts(a: Approver, o: Options, individual: bool)
    ensures UpdateEntry(a, o, individual).(users := []) == UpdateHead(a, o)
    ensures UpdateEntry(a, o, individual).users
         == if JoinsRoster(a, o, individual) then UpdateRoster(a.users, o) else a.users
    ensures UpdateEntry(a, o, individual).name == a.name && UpdateEntry(a, o, individual).kind == a.kind
  {
  }

  lemma EntryUpdatesCommute(a: Approver, o1: Options, o2: Options, individual1: bool, individual2: bool)
    requires o1.user != o2.user && o1.input == o2.input
    requires o1.message == o2.message || o1.message == "" || o2.message == ""
    ensures SameEntryUpToRosterOrder(UpdateEntry(UpdateEntry(a, o1, individual1), o2, individual2),
                                     UpdateEntry(UpdateEntry(a, o2, individual2), o1, individual1))
  {
    var x, y := UpdateEntry(a, o1, individual1), UpdateEntry(a, o2, individual2);
    UpdateEntryParts(a, o1, individual1);
    UpdateEntryParts(a, o2, individual2);
    UpdateEntryParts(x, o2, individual2);
    UpdateEntryParts(y, o1, individual1);
    assert UpdateHead(x, o2) == UpdateHead(y, o1);
    if JoinsRoster(a, o1, individual1) && JoinsRoster(a, o2, individual2) {
      RosterUpdatesCommute(a.users, o1, o2);
    }
  }

  /** Two users saying the same thing can act in either order, up to the order of the rosters. */
  lemma UpdatesCommute(approvers: seq<Approver>, o1: Options, o2: Options)
    requires o1.user != o2.user && o1.input == o2.input
    requires o1.message == o2.message || o1.message == "" || o2.message == ""
    ensures SameUpToRosterOrder(CliUpdate(CliUpdate(approvers, o1), o2), CliUpdate(CliUpdate(approvers, o2), o1))
  {
    CliUpdateKeepsIndividuals(approvers, o1, o2.user);
    CliUpdateKeepsIndividuals(approvers, o2, o1.user);
    forall k | 0 <= k < |approvers|
      ensures SameEntryUpToRosterOrder(CliUpdate(CliUpdate(approvers, o1), o2)[k],
                                       CliUpdate(CliUpdate(approvers, o2), o1)[k])
    {
      EntryUpdatesCommute(approvers[k], o1, o2, IsIndividual(approvers, o1.user), IsIndividual(approvers, o2.user));
    }
  }

  // ---------- messages are independent of the rest ----------

  function EraseRoster(users: seq<UserDetails>): (r: seq<UserDetails>)
    ensures |r| == |users|
  {
    seq(|users|, j requires 0 <= j < |users| => users[j].(message := ""))
  }

  function EraseEntry(a: Approver): Approver {
    a.(message := "", users := EraseRoster(a.users))
  }

  function EraseMessages(approvers: seq<Approver>): (r: seq<Approver>)
    ensures |r| == |approvers|
  {
    seq(|approvers|, i requires 0 <= i < |approvers| => EraseEntry(approvers[i]))
  }

  lemma {:induction false} EraseRosterUpdate(users: seq<UserDetails>, o: Options)
    ensures EraseRoster(UpdateRoster(users, o)) == UpdateRoster(EraseRoster(users), o.(message := ""))
  {
    if users != [] {
      var head, rest := users[0], users[1..];
      assert EraseRoster(users)[1..] == EraseRoster(rest);
      if head.name == o.user {
        assert UpdateRoster(users, o)[1..] == rest;
      } else {
        EraseRosterUpdate(rest, o);
        assert UpdateRoster(users, o)[1..] == UpdateRoster(rest, o);
      }
    }
  }

  /** Erasing messages commutes with the rewrite, so the laws above hold of every pair of acts
      once messages are disregarded. */
  lemma EraseUpdate(approvers: seq<Approver>, o: Options)
    ensures EraseMessages(CliUpdate(approvers, o)) == CliUpdate(EraseMessages(approvers), o.(message := ""))
  {
    var erased := EraseMessages(approvers);
    assert IsIndividual(erased, o.user) <==> IsIndividual(approvers, o.user) by {
      if IsIndividual(approvers, o.user) {
        var k :| 0 <= k < |approvers| && approvers[k].IsUser() && approvers[k].name == o.user;
        assert erased[k] in erased;
      }
      if IsIndividual(erased, o.user) {
        var k :| 0 <= k < |erased| && erased[k].IsUser() && erased[k].name == o.user;
        assert approvers[k] in approvers;
      }
    }
    forall k | 0 <= k < |approvers|
      ensures EraseMessages(CliUpdate(approvers, o))[k] == CliUpdate(erased, o.(message := ""))[k]
    {
      EraseRosterUpdate(approvers[k].users, o);
    }
  }

  lemma LaterUpdateAbsorbsModuloMessages(approvers: seq<Approver>, o1: Options, o2: Options)
    requires o1.user == o2.user && (forall g :: g in o1.groups <==> g in o2.groups)
    ensures EraseMessages(CliUpdate(CliUpdate(approvers, o1), o2)) == EraseMessages(CliUpdate(approvers, o2))
  {
    EraseUpdate(CliUpdate(approvers, o1), o2);
    EraseUpdate(approvers, o1);
    EraseUpdate(approvers, o2);
    LaterUpdateAbsorbs(EraseMessages(approvers), o1.(message := ""), o2.(message := ""));
  }

  lemma UpdatesCommuteModuloMessages(approvers: seq<Approver>, o1: Options, o2: Options)
    requires o1.user != o2.user && o1.input == o2.input
    ensures SameUpToRosterOrder(EraseMessages(CliUpdate(CliUpdate(approvers, o1), o2)),
                                EraseMessages(CliUpdate(CliUpdate(approvers, o2), o1)))
  {
    EraseUpdate(CliUpdate(approvers, o1), o2);
    EraseUpdate(approvers, o1);
    EraseUpdate(CliUpdate(approvers, o2), o1);
    EraseUpdate(approvers, o2);
    UpdatesCommute(EraseMessages(approvers), o1.(message := ""), o2.(message := ""));
  }

  // ---------- a rejection that is overwritten ----------

  /** The guide promises that one rejection rejects the task. A rejection no reconcile has seen
      survives an approval exactly when some entry reading reject is not the approver's to set. */
  lemma RejectionSurvivesApproval(approvers: seq<Approver>, o: Options)
    requires o.input.Approve?
    ensures HasReject(CliUpdate(approvers, o))
            <==> exists a :: a in approvers && a.input.Reject? && !Touches(a, o)
  {
    var updated := CliUpdate(approvers, o);
    if HasReject(updated) {
      var k :| 0 <= k < |updated| && updated[k].input.Reject?;
      assert approvers[k] in approvers && !Touches(approvers[k], o);
    }
    if exists a :: a in approvers && a.input.Reject? && !Touches(a, o) {
      var k :| 0 <= k < |approvers| && approvers[k].input.Reject? && !Touches(approvers[k], o);
      assert updated[k] in updated;
    }
  }

  // ---------- client and webhook agree ----------

  /** The rewrite of entry `a` changes an input of the acting user. */
  predicate InputMoves(a: Approver, o: Options, individual: bool) {
    || (IsOwnEntry(a, o) && a.input != o.input)
    || (IsCarriedGroup(a, o) && (a.input != o.input || (!individual && !Holds(a.users, o.user, o.input))))
  }

  /** The webhook stops looking at the acting user's first individual entry, so a move counts only
      if no such entry comes before it. */
  predicate Moves(approvers: seq<Approver>, o: Options) {
    exists k :: 0 <= k < |approvers| && MovesAt(approvers, o, k)
  }

  predicate MovesAt(approvers: seq<Approver>, o: Options, k: nat)
    requires k < |approvers|
  {
    && InputMoves(approvers[k], o, IsIndividual(approvers, o.user))
    && forall j :: 0 <= j < k ==> !IsOwnEntry(approvers[j], o)
  }

  lemma CliEntryChange(a: Approver, o: Options, individual: bool)
    requires LegalApprover(a) && Decided(o.input)
    requires individual || !IsOwnEntry(a, o)
    ensures var change := EntryChange(a, Some(UpdateEntry(a, o, individual)), RequesterOf(o));
            if InputMoves(a, o, individual) then change == Some(ValidChange)
            else if IsOwnEntry(a, o) then change == Some(Unchanged)
            else change == None
  {
    if IsCarriedGroup(a, o) && a.input == o.input && !individual {
      UpdateRosterMembers(a.users, o);
      var me := UserDetails(o.user, o.input, o.message);
      RosterLookupOfDistinct(UpdateRoster(a.users, o), me);
      if Lists(a.users, o.user) {
        var u :| u in a.users && u.name == o.user;
        RosterLookupOfDistinct(a.users, u);
        forall v | v in a.users && v.name == o.user
          ensures v.input == u.input
        {
          RosterLookupOfDistinct(a.users, v);
        }
      }
    }
  }

  lemma {:induction false} CliOwnChange(approvers: seq<Approver>, o: Options, i: nat)
    requires i <= |approvers| && Decided(o.input)
    requires forall a :: a in approvers ==> LegalApprover(a)
    requires forall j :: 0 <= j < i ==> !IsOwnEntry(approvers[j], o)
    ensures OwnChange(approvers, CliUpdate(approvers, o), RequesterOf(o), i) == ValidChange
            <==> exists k :: i <= k < |approvers| && MovesAt(approvers, o, k)
    ensures OwnChange(approvers, CliUpdate(approvers, o), RequesterOf(o), i) in {ValidChange, Unchanged}
    decreases |approvers| - i
  {
    if i < |approvers| {
      var individual := IsIndividual(approvers, o.user);
      CliEntryChange(approvers[i], o, individual);
      if InputMoves(approvers[i], o, individual) {
        assert MovesAt(approvers, o, i);
      } else if !IsOwnEntry(approvers[i], o) {
        CliOwnChange(approvers, o, i + 1);
      }
    }
  }

  lemma CliUpdateFrame(approvers: seq<Approver>, o: Options)
    requires forall a :: a in approvers ==> LegalApprover(a)
    ensures AuthorFrame(approvers, CliUpdate(approvers, o), RequesterOf(o))
  {
    var updated := CliUpdate(approvers, o);
    forall k | 0 <= k < |approvers|
      ensures EntryFrame(approvers[k], updated[k], RequesterOf(o))
    {
      assert LegalApprover(approvers[k]);
      if approvers[k].IsGroup() {
        UpdateRosterMembers(approvers[k].users, o);
      }
    }
  }

  lemma MovesNamesAValidUser(spec: Spec, o: Options)
    requires LegalSpec(spec) && Decided(o.input) && Moves(spec.approvers, o)
    requires LegalSpec(Rewrite(spec, o))
    ensures ValidUserName(o.user)
  {
    var updated := CliUpdate(spec.approvers, o);
    if IsIndividual(spec.approvers, o.user) {
      var a :| a in spec.approvers && a.IsUser() && a.name == o.user;
      assert LegalApprover(a);
    } else {
      var k :| 0 <= k < |spec.approvers| && MovesAt(spec.approvers, o, k);
      assert spec.approvers[k] in spec.approvers && LegalApprover(spec.approvers[k]);
      UpdateRosterMembers(spec.approvers[k].users, o);
      assert updated[k] in updated && LegalApprover(updated[k]);
      assert UserDetails(o.user, o.input, o.message) in updated[k].users;
    }
  }

  // ---------- what the webhook reads off a rewrite ----------

  lemma {:induction false} IndividualInputAfterAct(approvers: seq<Approver>, updated: seq<Approver>,
                                                   o: Options, individual: bool)
    requires IsIndividual(approvers, o.user) && o.input != NO_INPUT
    requires |updated| == |approvers|
    requires forall k :: 0 <= k < |approvers| ==> updated[k] == UpdateEntry(approvers[k], o, individual)
    ensures IndividualInput(updated, o.user) == o.input
  {
    if !IsOwnEntry(approvers[0], o) {
      var a :| a in approvers && IsOwnEntry(a, o);
      assert a in approvers[1..];
      IndividualInputAfterAct(approvers[1..], updated[1..], o, individual);
    }
  }

  lemma {:induction false} NoIndividualInput(approvers: seq<Approver>, user: string)
    requires !IsIndividual(approvers, user)
    ensures IndividualInput(approvers, user) == NO_INPUT
  {
    if approvers != [] {
      assert approvers[0] in approvers;
      assert forall a :: a in approvers[1..] ==> a in approvers;
      NoIndividualInput(approvers[1..], user);
    }
  }

  predicate ConcernsUser(a: Approver, o: Options) {
    a.IsGroup() && (a.name in o.groups || Lists(a.users, o.user))
  }

  /** Entry `k` is the first group that is carried or lists the user, and it will read approve: a
      carried one because that is what the user asks for, another because it does already. */
  predicate ReadsApproveAt(approvers: seq<Approver>, o: Options, k: nat)
    requires k < |approvers|
  {
    && ConcernsUser(approvers[k], o)
    && (forall j :: 0 <= j < k ==> !ConcernsUser(approvers[j], o))
    && if approvers[k].name in o.groups then o.input.Approve? else Holds(approvers[k].users, o.user, Approve)
  }

  /** The webhook will take the act for an approval. For a rejection that means: the user has no
      individual entry, and the first group that lists them or is carried lists them with approve
      and is not carried. */
  predicate ReadAsApproval(approvers: seq<Approver>, o: Options) {
    if IsIndividual(approvers, o.user) then o.input.Approve?
    else exists k :: 0 <= k < |approvers| && ReadsApproveAt(approvers, o, k)
  }

  lemma EntryInputAfterAct(a: Approver, o: Options)
    requires LegalApprover(a) && Decided(o.input)
    ensures var input := GroupEntryInput(UpdateEntry(a, o, false), RequesterOf(o));
            && (input != NO_INPUT <==> ConcernsUser(a, o))
            && (ConcernsUser(a, o) ==>
                  (input.Approve?
                   <==> if a.name in o.groups then o.input.Approve? else Holds(a.users, o.user, Approve)))
  {
    if a.IsGroup() {
      UpdateRosterMembers(a.users, o);
      if a.name in o.groups {
        RosterLookupOfDistinct(UpdateRoster(a.users, o), UserDetails(o.user, o.input, o.message));
      }
      forall u | u in a.users && u.name == o.user
        ensures RosterLookup(a.users, o.user) == Some(u.input) && u.input != NO_INPUT
      {
        RosterLookupOfDistinct(a.users, u);
      }
    }
  }

  lemma {:induction false} GroupInputAfterAct(approvers: seq<Approver>, updated: seq<Approver>, o: Options)
    requires Decided(o.input) && (forall a :: a in approvers ==> LegalApprover(a))
    requires |updated| == |approvers|
    requires forall k :: 0 <= k < |approvers| ==> updated[k] == UpdateEntry(approvers[k], o, false)
    requires !IsIndividual(approvers, o.user)
    ensures GroupInput(updated, RequesterOf(o)).Approve?
            <==> exists k :: 0 <= k < |approvers| && ReadsApproveAt(approvers, o, k)
  {
    if approvers != [] {
      var head, rest := approvers[0], approvers[1..];
      assert head in approvers;
      assert forall a :: a in rest ==> a in approvers;
      EntryInputAfterAct(head, o);
      if ConcernsUser(head, o) {
        assert ReadsApproveAt(approvers, o, 0) <==> GroupInput(updated, RequesterOf(o)).Approve?;
      } else {
        GroupInputAfterAct(rest, updated[1..], o);
        ReadsApproveShifts(approvers, o);
      }
    }
  }

  lemma ReadsApproveShifts(approvers: seq<Approver>, o: Options)
    requires approvers != [] && !ConcernsUser(approvers[0], o)
    ensures (exists k :: 0 <= k < |approvers| && ReadsApproveAt(approvers, o, k))
            <==> exists k :: 0 <= k < |approvers[1..]| && ReadsApproveAt(approvers[1..], o, k)
  {
    var rest := approvers[1..];
    if k :| 0 <= k < |approvers| && ReadsApproveAt(approvers, o, k) {
      var previous := k - 1;
      assert rest[previous] == approvers[k];
      assert ReadsApproveAt(rest, o, previous);
    }
    if k :| 0 <= k < |rest| && ReadsApproveAt(rest, o, k) {
      var next := k + 1;
      forall j | 0 <= j < next
        ensures !ConcernsUser(approvers[j], o)
      {
        if j > 0 {
          var previous := j - 1;
          assert rest[previous] == approvers[j];
        }
      }
      assert ReadsApproveAt(approvers, o, next);
    }
  }

  /** What `checkIfUserAlreadyDecided` takes the user to want, read off the list before the act. */
  lemma DesiredInputExactly(approvers: seq<Approver>, o: Options)
    requires Decided(o.input) && (forall a :: a in approvers ==> LegalApprover(a))
    ensures DesiredInput(CliUpdate(approvers, o), RequesterOf(o)).Approve? <==> ReadAsApproval(approvers, o)
  {
    var updated := CliUpdate(approvers, o);
    if IsIndividual(approvers, o.user) {
      IndividualInputAfterAct(approvers, updated, o, true);
    } else {
      CliUpdateKeepsIndividuals(approvers, o, o.user);
      NoIndividualInput(updated, o.user);
      GroupInputAfterAct(approvers, updated, o);
    }
  }

  /** What is on record settles the act: a rejection always, an approval if the act is read as
      another one. */
  predicate SettledBefore(task: Task, o: Options) {
    || Recorded(task.status.responses, o.user, RejectedState)
    || (Recorded(task.status.responses, o.user, ApprovedState) && ReadAsApproval(task.spec.approvers, o))
  }

  /** When a listed user is turned away as already decided, for every legal and open task. */
  lemma TurnedAwayExactly(task: Task, o: Options)
    requires LegalSpec(task.spec) && Decided(o.input) && ValidUserName(o.user)
    requires !Final(task.status.state) && !QuorumReached(task.spec)
    requires UserExists(task.spec.approvers, RequesterOf(o))
    ensures Admit(Update, task, Rewrite(task.spec, o), RequesterOf(o)) == AlreadyDecided
            <==> SettledBefore(task, o)
  {
    CliUpdatePreservesLegality(task.spec, o);
    DesiredInputExactly(task.spec.approvers, o);
  }

  /** When the webhook admits what the client sends, for every legal task and every user. */
  lemma ClientAdmittedExactly(task: Task, o: Options)
    requires LegalSpec(task.spec) && Decided(o.input)
    ensures Admit(Update, task, Rewrite(task.spec, o), RequesterOf(o)) == Allowed
            <==> && ValidUserName(o.user)
                 && !Final(task.status.state) && !QuorumReached(task.spec)
                 && !SettledBefore(task, o)
                 && Moves(task.spec.approvers, o)
  {
    var approvers := task.spec.approvers;
    var proposed := Rewrite(task.spec, o);
    CliUpdateSkeleton(approvers, o);
    AdmittedExactly(task, proposed, RequesterOf(o));
    DesiredInputExactly(approvers, o);
    CliOwnChange(approvers, o, 0);
    CliUpdateFrame(approvers, o);
    if ValidUserName(o.user) {
      CliUpdatePreservesLegality(task.spec, o);
    }
    if Moves(approvers, o) {
      var k :| 0 <= k < |approvers| && MovesAt(approvers, o, k);
      assert approvers[k] in approvers && Speaks(approvers[k], RequesterOf(o));
      if LegalSpec(proposed) {
        MovesNamesAValidUser(task.spec, o);
      }
    }
  }

  /** The user takes part and none of their entries reads anything but pending. */
  predicate Fresh(approvers: seq<Approver>, o: Options) {
    && (exists a :: a in approvers && Touches(a, o))
    && (forall a :: a in approvers && IsOwnEntry(a, o) ==> a.input.Pending?)
    && (forall a, u :: a in approvers && a.IsGroup() && u in a.users && u.name == o.user ==> u.input.Pending?)
  }

  lemma {:induction false} FirstTouch(approvers: seq<Approver>, o: Options) returns (k: nat)
    requires exists a :: a in approvers && Touches(a, o)
    ensures k < |approvers| && Touches(approvers[k], o)
    ensures IsIndividual(approvers, o.user) ==> IsOwnEntry(approvers[k], o)
    ensures forall j :: 0 <= j < k ==> !IsOwnEntry(approvers[j], o)
  {
    if IsIndividual(approvers, o.user) {
      k := 0;
      while !IsOwnEntry(approvers[k], o)
        invariant k < |approvers| && exists j :: k <= j < |approvers| && IsOwnEntry(approvers[j], o)
        invariant forall j :: 0 <= j < k ==> !IsOwnEntry(approvers[j], o)
        decreases |approvers| - k
      {
        k := k + 1;
      }
    } else {
      var a :| a in approvers && Touches(a, o);
      k :| k < |approvers| && approvers[k] == a;
    }
  }

  /** First act: whatever the order of the entries, the webhook lets a listed user who has not
      acted yet do so, as long as the task is undecided and below its quorum. */
  lemma FreshUserIsAdmitted(task: Task, o: Options)
    requires LegalSpec(task.spec) && Decided(o.input) && ValidUserName(o.user)
    requires !Final(task.status.state) && !QuorumReached(task.spec)
    requires !Recorded(task.status.responses, o.user, ApprovedState)
    requires !Recorded(task.status.responses, o.user, RejectedState)
    requires Fresh(task.spec.approvers, o)
    ensures Admit(Update, task, Rewrite(task.spec, o), RequesterOf(o)) == Allowed
  {
    var k := FirstTouch(task.spec.approvers, o);
    assert task.spec.approvers[k] in task.spec.approvers;
    assert MovesAt(task.spec.approvers, o, k);
    ClientAdmittedExactly(task, o);
  }

  /** The client's guard passes exactly those whom an act would touch something for, and whoever bears
      the name of a group. */
  lemma GuardExactlyParticipants(approvers: seq<Approver>, o: Options)
    requires forall a :: a in approvers ==> LegalApprover(a)
    ensures ContainsUsername(approvers, o)
            <==> || (exists a :: a in approvers && Touches(a, o))
                 || exists a :: a in approvers && a.IsGroup() && a.name == o.user
  {
    forall a | a in approvers
      ensures a.name == o.user || (a.kind == Group && a.name in o.groups)
              <==> Touches(a, o) || (a.IsGroup() && a.name == o.user)
    {
      assert LegalApprover(a);
    }
  }

  /** The client's own guard never stops a request the webhook would admit. */
  lemma GuardStopsNothingAdmissible(task: Task, o: Options)
    requires LegalSpec(task.spec) && Decided(o.input)
    requires Admit(Update, task, Rewrite(task.spec, o), RequesterOf(o)) == Allowed
    ensures ContainsUsername(task.spec.approvers, o)
  {
    ClientAdmittedExactly(task, o);
    var k :| 0 <= k < |task.spec.approvers| && MovesAt(task.spec.approvers, o, k);
    assert task.spec.approvers[k] in task.spec.approvers;
  }
}
