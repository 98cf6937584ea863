/** The command line client: `approve` and `reject` rewrite the approver list of the task they
    fetched and send it back. */
module Client {
  import opened ApprovalTypes
  import opened Admission
  import opened Store

  /** `cli.Options`: who acts, the groups they carry, "approve" or "reject", and a message. */
  datatype Options = Options(user: string, groups: seq<string>, input: Input, message: string)

  function RequesterOf(o: Options): Requester {
    Requester(o.user, o.groups)
  }

  /** `user` has an individual entry. Individual entries take precedence over groups. */
  predicate IsIndividual(approvers: seq<Approver>, user: string) {
    exists a :: a in approvers && a.IsUser() && a.name == user
  }

  predicate IsOwnEntry(a: Approver, o: Options) {
    a.IsUser() && a.name == o.user
  }

  predicate IsCarriedGroup(a: Approver, o: Options) {
    a.IsGroup() && a.name in o.groups
  }

  function MergeMessage(kept: string, given: string): string {
    if given != "" then given else kept
  }

  /** The first member of that name takes the input and the message, or a member is appended. */
  function UpdateRoster(users: seq<UserDetails>, o: Options): seq<UserDetails> {
    if users == [] then [UserDetails(o.user, o.input, o.message)]
    else if users[0].name == o.user then [UserDetails(o.user, o.input, o.message)] + users[1..]
    else [users[0]] + UpdateRoster(users[1..], o)
  }

  function UpdateEntry(a: Approver, o: Options, individual: bool): Approver {
    if IsOwnEntry(a, o) then
      a.(input := o.input, message := MergeMessage(a.message, o.message))
    else if IsCarriedGroup(a, o) then
      a.(input := o.input, message := MergeMessage(a.message, o.message),
         users := if individual then a.users else UpdateRoster(a.users, o))
    else
      a
  }

  function CliUpdate(approvers: seq<Approver>, o: Options): (r: seq<Approver>)
    ensures |r| == |approvers|
  {
    seq(|approvers|, i requires 0 <= i < |approvers| =>
      UpdateEntry(approvers[i], o, IsIndividual(approvers, o.user)))
  }

  /** What the client sends. */
  function Rewrite(spec: Spec, o: Options): Spec {
    spec.(approvers := CliUpdate(spec.approvers, o))
  }

  /** `containsUsername`: the guard the client runs before it rewrites anything. */
  predicate ContainsUsername(approvers: seq<Approver>, o: Options) {
    exists a :: a in approvers && (a.name == o.user || (a.kind.Group? && a.name in o.groups))
  }

  method ContainsUsernameSearch(approvers: seq<Approver>, o: Options) returns (found: bool)
    ensures found <==> ContainsUsername(approvers, o)
  {
    for i := 0 to |approvers|
      invariant forall k :: 0 <= k < i ==> approvers[k].name != o.user
    {
      if approvers[i].name == o.user {
        assert approvers[i] in approvers;
        return true;
      }
    }
    for i := 0 to |approvers|
      invariant forall k :: 0 <= k < i ==> !(approvers[k].kind.Group? && approvers[k].name in o.groups)
    {
      match approvers[i].kind {
        case User =>
          if approvers[i].name == o.user {
            return true;
          }
        case Group =>
          for g := 0 to |o.groups|
            invariant approvers[i].name !in o.groups[..g]
          {
            assert o.groups[..g + 1] == o.groups[..g] + [o.groups[g]];
            if approvers[i].name == o.groups[g] {
              assert approvers[i] in approvers;
              return true;
            }
          }
          assert o.groups[..|o.groups|] == o.groups;
        case _ =>
      }
    }
    return false;
  }

  lemma {:induction false} UpdateRosterAt(users: seq<UserDetails>, o: Options, j: nat)
    requires j <= |users|
    requires forall k :: 0 <= k < j ==> users[k].name != o.user
    requires j < |users| ==> users[j].name == o.user
    ensures UpdateRoster(users, o)
         == if j < |users| then users[j := UserDetails(o.user, o.input, o.message)]
            else users + [UserDetails(o.user, o.input, o.message)]
  {
    if j > 0 {
      UpdateRosterAt(users[1..], o, j - 1);
      assert users == [users[0]] + users[1..];
    }
  }

  lemma {:induction false} UpdateRosterTwice(users: seq<UserDetails>, o1: Options, o2: Options)
    requires o1.user == o2.user
    ensures UpdateRoster(UpdateRoster(users, o1), o2) == UpdateRoster(users, o2)
  {
    if users != [] && users[0].name != o1.user {
      UpdateRosterTwice(users[1..], o1, o2);
      assert UpdateRoster(users, o1)[1..] == UpdateRoster(users[1..], o1);
    }
  }

  /** The roster part of the second pass, on entry `i`: search, then overwrite or append. */
  method RecordMember(at: TaskObject, i: nat, o: Options)
    requires i < |at.approvers|
    modifies at`approvers
    ensures at.approvers
         == old(at.approvers)[i := old(at.approvers)[i].(users := UpdateRoster(old(at.approvers)[i].users, o))]
  {
    var users := at.approvers[i].users;
    var j := 0;
    while j < |users| && users[j].name != o.user
      invariant 0 <= j <= |users|
      invariant forall k :: 0 <= k < j ==> users[k].name != o.user
    {
      j := j + 1;
    }
    UpdateRosterAt(users, o, j);
    if j < |users| {
      at.approvers := at.approvers[i := at.approvers[i].(users := users[j := UserDetails(o.user, o.input, o.message)])];
    } else {
      at.approvers := at.approvers[i := at.approvers[i].(users := users + [UserDetails(o.user, o.input, o.message)])];
    }
  }

  /** An entry after the first pass. */
  function FirstPass(a: Approver, o: Options): Approver {
    if IsOwnEntry(a, o) then UpdateEntry(a, o, true) else a
  }

  /** First pass of `update`: the individual entries of the acting user. */
  method UpdateIndividuals(at: TaskObject, o: Options) returns (userProcessedAsIndividual: bool)
    modifies at`approvers
    ensures userProcessedAsIndividual == IsIndividual(old(at.approvers), o.user)
    ensures |at.approvers| == |old(at.approvers)|
    ensures forall k :: 0 <= k < |at.approvers| ==> at.approvers[k] == FirstPass(old(at.approvers)[k], o)
  {
    ghost var was := at.approvers;
    var n := |at.approvers|;
    userProcessedAsIndividual := false;
    var i := 0;
    while i < n
      invariant 0 <= i <= n == |at.approvers| == |was|
      invariant forall k :: 0 <= k < i ==> at.approvers[k] == FirstPass(was[k], o)
      invariant forall k :: i <= k < n ==> at.approvers[k] == was[k]
      invariant userProcessedAsIndividual <==> exists k :: 0 <= k < i && IsOwnEntry(was[k], o)
    {
      if IsOwnEntry(at.approvers[i], o) {
        at.approvers := at.approvers[i := at.approvers[i].(input := o.input)];
        if o.message != "" {
          at.approvers := at.approvers[i := at.approvers[i].(message := o.message)];
        }
        userProcessedAsIndividual := true;
      }
      i := i + 1;
    }
  }

  /** The loop over the carried groups in the second pass, for entry `i`. */
  method UpdateGroupEntry(at: TaskObject, i: nat, o: Options, individual: bool)
    requires i < |at.approvers| && at.approvers[i].IsGroup()
    modifies at`approvers
    ensures at.approvers == old(at.approvers)[i := UpdateEntry(old(at.approvers)[i], o, individual)]
  {
    ghost var was := at.approvers;
    var g := 0;
    while g < |o.groups|
      invariant 0 <= g <= |o.groups|
      invariant at.approvers
             == was[i := if was[i].name in o.groups[..g] then UpdateEntry(was[i], o, individual) else was[i]]
    {
      assert o.groups[..g + 1] == o.groups[..g] + [o.groups[g]];
      if at.approvers[i].name == o.groups[g] {
        UpdateRosterTwice(was[i].users, o, o);
        at.approvers := at.approvers[i := at.approvers[i].(input := o.input)];
        if o.message != "" {
          at.approvers := at.approvers[i := at.approvers[i].(message := o.message)];
        }
        if !individual {
          RecordMember(at, i, o);
        }
      }
      g := g + 1;
    }
    assert o.groups[..g] == o.groups;
  }

  /** `update`: the two passes over the approver list, in place. */
  method UpdateInPlace(at: TaskObject, o: Options)
    modifies at`approvers
    ensures at.approvers == CliUpdate(old(at.approvers), o)
  {
    ghost var was := at.approvers;
    var userProcessedAsIndividual := UpdateIndividuals(at, o);
    var n := |at.approvers|;
    var i := 0;
    while i < n
      invariant 0 <= i <= n == |at.approvers| == |was|
      invariant forall k :: 0 <= k < i ==> at.approvers[k] == UpdateEntry(was[k], o, userProcessedAsIndividual)
      invariant forall k :: i <= k < n ==> at.approvers[k] == FirstPass(was[k], o)
    {
      if at.approvers[i].IsGroup() {
        UpdateGroupEntry(at, i, o, userProcessedAsIndividual);
      }
      i := i + 1;
    }
    assert at.approvers == CliUpdate(was, o);
  }

  datatype ClientResult = NotInApproversList | Sent(result: WriteResult)

  /** The second half of `Update`: rewrite the object that was fetched and send it, whatever was
      written in between. */
  method SendRewrite(server: ApiServer, at: TaskObject, o: Options) returns (result: WriteResult)
    requires at.version == server.version ==> at.Value() == server.task
    modifies server, at`approvers
    ensures at.Value() == old(at.Value()).(spec := Rewrite(old(at.Value()).spec, o))
    ensures result.Conflict? <==> at.version != old(server.version)
    ensures var verdict := Admit(Operation.Update, old(server.task), at.Value().spec, RequesterOf(o));
            if at.version == old(server.version) && verdict == Allowed
            then result == Written && server.task == at.Value() && server.version == old(server.version) + 1
            else result != Written && server.task == old(server.task) && server.version == old(server.version)
  {
    UpdateInPlace(at, o);
    result := server.Update(at, RequesterOf(o));
  }

  /** `Update`: fetch, check the guard, rewrite, send; with nobody else writing in between there is
      no conflict. */
  method RunUpdate(server: ApiServer, o: Options) returns (result: ClientResult)
    modifies server
    ensures result.NotInApproversList? <==> !ContainsUsername(old(server.task).spec.approvers, o)
    ensures result.Sent? ==> !result.result.Conflict?
    ensures var proposed := Rewrite(old(server.task).spec, o);
            var verdict := Admit(Operation.Update, old(server.task), proposed, RequesterOf(o));
            if result.Sent? && verdict == Allowed
            then result == Sent(Written) && server.task == old(server.task).(spec := proposed)
                 && server.version == old(server.version) + 1
            else result != Sent(Written) && server.task == old(server.task) && server.version == old(server.version)
  {
    var at := server.Get();
    var listed := ContainsUsernameSearch(at.approvers, o);
    if !listed {
      return NotInApproversList;
    }
    var written := SendRewrite(server, at, o);
    return Sent(written);
  }
}
