/** From the parameters of a CustomRun to a stored task: early validation, creation, admission. */
module Creation {
  import opened ApprovalTypes
  import opened Validation
  import opened Admission
  import opened Controller
  import opened ControllerLaws
  import opened Protocol

  datatype ParamName = ApproversParam | RequiredParam | DescriptionParam | TimeoutParam | OtherParam

  /** What `json.Unmarshal` makes of a string value. */
  datatype Json = NotJson | NotArray | JsonArray(items: seq<JsonItem>)

  datatype JsonItem = JsonString(text: string) | JsonObject | JsonOther

  /** `param.Value`: the array form, the size of the object form, and the string form with what
      decoding it as JSON, as an integer and as a duration gives. */
  datatype ParamValue = ParamValue(names: seq<string>, objectSize: nat, text: string,
                                   json: Json, number: Option<int>, duration: Option<int>)

  datatype Param = Param(name: ParamName, value: ParamValue)

  // ---------- early validation ----------

  predicate Contains(s: string, c: char, d: char) {
    exists i :: 0 <= i < |s| - 1 && s[i] == c && s[i + 1] == d
  }

  function AfterPrefix(name: string): string
    requires GROUP_PREFIX <= name
  {
    name[|GROUP_PREFIX|..]
  }

  /** `validateGroupSyntax`. */
  predicate ValidGroupSyntax(group: string) {
    !Blank(group) && ':' !in group && ' ' !in group
  }

  /** `validateApproverParameter`. */
  predicate ValidApproverParam(value: string) {
    && !Blank(value)
    && !Contains(value, ' ', ':') && !Contains(value, ':', ' ')
    && (GROUP_PREFIX <= value ==> ValidGroupSyntax(AfterPrefix(value)))
  }

  predicate ValidItem(item: JsonItem) {
    item.JsonString? && ValidApproverParam(item.text)
  }

  function Strings(names: seq<string>): (r: seq<JsonItem>)
    ensures |r| == |names|
  {
    seq(|names|, i requires 0 <= i < |names| => JsonString(names[i]))
  }

  /** `parseApproversList`: the string form is read only when the other two are empty. */
  function ListedItems(value: ParamValue): seq<JsonItem> {
    var listed := Strings(value.names) + if value.objectSize > 0 then [JsonObject] else [];
    if value.text != "" && listed == [] && value.json.JsonArray? then value.json.items else listed
  }

  predicate ParseFails(value: ParamValue) {
    value.text != "" && value.names == [] && value.objectSize == 0 && !value.json.JsonArray?
  }

  predicate ApproversAccepted(value: ParamValue) {
    !ParseFails(value) && forall item :: item in ListedItems(value) ==> ValidItem(item)
  }

  /** The number of approvers that the last `approvers` parameter lists; 0 without one. */
  function LastCount(params: seq<Param>): nat {
    if params == [] then 0
    else
      var last := params[|params| - 1];
      if last.name.ApproversParam? then |ListedItems(last.value)| else LastCount(params[..|params| - 1])
  }

  predicate ParamAccepted(p: Param) {
    && (p.name.ApproversParam? ==> ApproversAccepted(p.value))
    && (p.name.RequiredParam? ==> p.value.number.Some? && p.value.number.value > 0)
  }

  /** What `ValidateCustomRunParameters` accepts. */
  predicate ParamsAccepted(params: seq<Param>) {
    (forall p :: p in params ==> ParamAccepted(p)) && LastCount(params) > 0
  }

  /** `validateApproversParam`: the number of valid approvers and of errors. */
  method ValidateApproversParam(value: ParamValue) returns (count: nat, errors: nat)
    ensures errors == 0 <==> ApproversAccepted(value)
    ensures errors == 0 ==> count == |ListedItems(value)|
  {
    count, errors := 0, 0;
    var list: seq<JsonItem> := [];
    if |value.names| > 0 {
      list := Strings(value.names);
    }
    if value.objectSize > 0 {
      list := list + [JsonObject];
    }
    if value.text != "" && |list| == 0 {
      if value.json.JsonArray? {
        list := value.json.items;
      } else {
        errors := errors + 1;
      }
    }
    assert list == ListedItems(value);
    ghost var parseErrors := errors;
    for i := 0 to |list|
      invariant errors >= parseErrors
      invariant errors == parseErrors <==> forall k :: 0 <= k < i ==> ValidItem(list[k])
      invariant errors == parseErrors ==> count == i
    {
      match list[i] {
        case JsonString(text) =>
          if ValidApproverParam(text) {
            count := count + 1;
          } else {
            errors := errors + 1;
          }
        case _ =>
          errors := errors + 1;
      }
    }
  }

  /** `ValidateCustomRunParameters`. */
  method ValidateCustomRunParameters(params: seq<Param>) returns (ok: bool)
    ensures ok <==> ParamsAccepted(params)
  {
    var hasApprovers, approversCount, validationErrors := false, 0, 0;
    for i := 0 to |params|
      invariant forall k :: 0 <= k < i && params[k].name.RequiredParam? ==> ParamAccepted(params[k])
      invariant validationErrors == 0
                <==> forall k :: 0 <= k < i && params[k].name.ApproversParam? ==> ParamAccepted(params[k])
      invariant validationErrors == 0 ==> approversCount == LastCount(params[..i])
      invariant !hasApprovers ==> approversCount == 0
    {
      assert params[..i + 1][..i] == params[..i];
      var param := params[i];
      if param.name == ApproversParam {
        hasApprovers := true;
        var count, errors := ValidateApproversParam(param.value);
        approversCount := count;
        validationErrors := validationErrors + errors;
      } else if param.name == RequiredParam {
        if param.value.number == None || param.value.number.value <= 0 {
          assert param in params;
          return false;
        }
      }
    }
    assert params[..|params|] == params;
    return validationErrors == 0 && hasApprovers && approversCount != 0;
  }

  // ---------- creation ----------

  function Stripped(name: string): string {
    if GROUP_PREFIX <= name then AfterPrefix(name) else name
  }

  function EntryFor(name: string): Approver {
    Approver(Stripped(name), Pending, "", if GROUP_PREFIX <= name then Group else User, [])
  }

  predicate Named(approvers: seq<Approver>, name: string) {
    exists a :: a in approvers && a.name == name
  }

  /** The two lists `createApprovalTask` grows: spec entries and status names. */
  datatype NameLists = NameLists(approvers: seq<Approver>, users: seq<string>)

  /** One round of its name loop. */
  function AddName(lists: NameLists, name: string): NameLists {
    if name in lists.users then lists
    else NameLists(
           if Named(lists.approvers, Stripped(name)) then lists.approvers else lists.approvers + [EntryFor(name)],
           lists.users + [Stripped(name)])
  }

  function AddNames(lists: NameLists, names: seq<string>): NameLists {
    if names == [] then lists
    else AddName(AddNames(lists, names[..|names| - 1]), names[|names| - 1])
  }

  /** All names of all array-form `approvers` parameters, in order. */
  function AllNames(params: seq<Param>): seq<string> {
    if params == [] then []
    else
      var last := params[|params| - 1];
      AllNames(params[..|params| - 1]) + if last.name.ApproversParam? then last.value.names else []
  }

  /** The requirement of the last `numberOfApprovalsRequired`; 1 without one. */
  function RequiredOf(params: seq<Param>): Option<int> {
    if params == [] then Some(1)
    else
      var last := params[|params| - 1];
      var before := RequiredOf(params[..|params| - 1]);
      if before.Some? && last.name.RequiredParam? then last.value.number else before
  }

  /** `params[k]` is the last parameter that says how many approvals are required. */
  predicate LastRequirement(params: seq<Param>, k: nat)
    requires k < |params|
  {
    params[k].name == RequiredParam && forall j :: k < j < |params| ==> params[j].name != RequiredParam
  }

  /** The task asks for `required` approvals: what the last requirement parameter says, or 1. */
  ghost predicate AsksFor(params: seq<Param>, required: int) {
    && (forall k :: 0 <= k < |params| && LastRequirement(params, k) ==> params[k].value.number == Some(required))
    && ((forall k :: 0 <= k < |params| ==> params[k].name != RequiredParam) ==> required == 1)
  }

  predicate RequirementsReadable(params: seq<Param>) {
    forall k :: 0 <= k < |params| && params[k].name == RequiredParam ==> params[k].value.number.Some?
  }

  lemma AsksForExtends(init: seq<Param>, last: Param, required: int)
    ensures last.name != RequiredParam && AsksFor(init, required) ==> AsksFor(init + [last], required)
    ensures last.name == RequiredParam && last.value.number == Some(required) ==> AsksFor(init + [last], required)
  {
    var params := init + [last];
    if last.name != RequiredParam && AsksFor(init, required) {
      forall k | 0 <= k < |params| && LastRequirement(params, k)
        ensures params[k].value.number == Some(required)
      {
        assert params[k] == init[k];
        assert LastRequirement(init, k) by {
          forall j | k < j < |init|
            ensures init[j].name != RequiredParam
          {
            assert params[j] == init[j];
          }
        }
      }
      if forall k :: 0 <= k < |params| ==> params[k].name != RequiredParam {
        forall k | 0 <= k < |init|
          ensures init[k].name != RequiredParam
        {
          assert params[k] == init[k];
        }
      }
    } else if last.name == RequiredParam {
      assert params[|init|] == last;
    }
  }

  lemma ReadableExtends(init: seq<Param>, last: Param)
    ensures RequirementsReadable(init + [last])
            <==> RequirementsReadable(init) && (last.name == RequiredParam ==> last.value.number.Some?)
  {
    var params := init + [last];
    assert params[|init|] == last;
    assert forall k :: 0 <= k < |init| ==> params[k] == init[k];
  }

  lemma {:induction false} RequirementByPosition(params: seq<Param>)
    ensures RequiredOf(params).Some? <==> RequirementsReadable(params)
    ensures RequiredOf(params).Some? ==> AsksFor(params, RequiredOf(params).value)
  {
    if params != [] {
      var init, last := params[..|params| - 1], params[|params| - 1];
      assert params == init + [last];
      RequirementByPosition(init);
      ReadableExtends(init, last);
      if RequiredOf(params).Some? {
        AsksForExtends(init, last, RequiredOf(params).value);
      }
    }
  }

  /** The status a task is created with: pending, nothing shown, nothing counted. */
  predicate IsFirstStatus(status: Status, required: int) {
    && status.state == PendingState && status.responses == [] && status.startTime == None
    && status.approvalsRequired == required && status.approvalsReceived == 0
  }

  function CreatedLists(params: seq<Param>): NameLists {
    AddNames(NameLists([], []), AllNames(params))
  }

  function CreatedSpec(params: seq<Param>, required: int): Spec {
    Spec(CreatedLists(params).approvers, required)
  }

  /** The stored task, once its first status has been written. */
  function CreatedTask(params: seq<Param>, required: int, creation: int): Task {
    Task(CreatedSpec(params, required),
         Status(PendingState, CreatedLists(params).users, [], None, required, 0),
         Some(Compute(CreatedLists(params).approvers)), creation)
  }

  lemma {:induction false} AddNamesConcat(lists: NameLists, xs: seq<string>, ys: seq<string>)
    ensures AddNames(lists, xs + ys) == AddNames(AddNames(lists, xs), ys)
  {
    if ys == [] {
      assert xs + ys == xs;
    } else {
      assert (xs + ys)[..|xs + ys| - 1] == xs + ys[..|ys| - 1];
      AddNamesConcat(lists, xs, ys[..|ys| - 1]);
    }
  }

  /** The name loop over one parameter, with its maps `approverExists` and `userExists`. */
  method CollectNames(lists: NameLists, names: seq<string>,
                      approverExists: map<string, bool>, userExists: map<string, bool>)
    returns (r: NameLists, approverExists': map<string, bool>, userExists': map<string, bool>)
    requires forall n :: n in approverExists <==> Named(lists.approvers, n)
    requires forall n :: n in userExists <==> n in lists.users
    ensures r == AddNames(lists, names)
    ensures forall n :: n in approverExists' <==> Named(r.approvers, n)
    ensures forall n :: n in userExists' <==> n in r.users
  {
    r, approverExists', userExists' := lists, approverExists, userExists;
    for i := 0 to |names|
      invariant r == AddNames(lists, names[..i])
      invariant forall n :: n in approverExists' <==> Named(r.approvers, n)
      invariant forall n :: n in userExists' <==> n in r.users
    {
      assert names[..i + 1][..i] == names[..i];
      var name := names[i];
      if name !in userExists' {
        var approver := Approver(name, Pending, "", User, []);
        if GROUP_PREFIX <= name {
          approver := approver.(kind := Group, name := name[|GROUP_PREFIX|..]);
        }
        assert approver == EntryFor(name);
        if approver.name !in approverExists' {
          ghost var before := r.approvers;
          r := r.(approvers := r.approvers + [approver]);
          assert forall a :: a in r.approvers <==> a in before || a == approver;
          approverExists' := approverExists'[approver.name := true];
        }
        r := r.(users := r.users + [approver.name]);
        userExists' := userExists'[approver.name := true];
      }
    }
    assert names[..|names|] == names;
  }

  /** `createApprovalTask`: fails on an unreadable requirement or when the webhook denies the
      creation, otherwise stores the task and its first status. */
  method CreateApprovalTask(params: seq<Param>, creation: int) returns (created: Option<Task>)
    ensures created.Some? <==>
      && RequiredOf(params).Some?
      && LegalSpec(CreatedSpec(params, RequiredOf(params).value))
      && AllPending(CreatedLists(params).approvers)
    ensures created.Some? ==> created.value == CreatedTask(params, RequiredOf(params).value, creation)
    ensures created.Some? ==> RequirementsReadable(params) && AsksFor(params, created.value.spec.required)
    ensures created.Some? ==> IsFirstStatus(created.value.status, created.value.spec.required)
    ensures created.Some? ==> created.value.hash == Some(Compute(created.value.spec.approvers))
                              && created.value.creation == creation
  {
    var lists := NameLists([], []);
    var approverExists, userExists := map[], map[];
    var required := 1;
    for i := 0 to |params|
      invariant lists == AddNames(NameLists([], []), AllNames(params[..i]))
      invariant forall n :: n in approverExists <==> Named(lists.approvers, n)
      invariant forall n :: n in userExists <==> n in lists.users
      invariant RequiredOf(params[..i]) == Some(required)
    {
      assert params[..i + 1][..i] == params[..i];
      var param := params[i];
      if param.name == ApproversParam {
        AddNamesConcat(NameLists([], []), AllNames(params[..i]), param.value.names);
        lists, approverExists, userExists := CollectNames(lists, param.value.names, approverExists, userExists);
      } else {
        assert AllNames(params[..i + 1]) == AllNames(params[..i]);
        if param.name == RequiredParam {
          if param.value.number == None {
            RequiredStaysNone(params, i + 1);
            return None;
          }
          required := param.value.number.value;
        }
      }
    }
    assert params[..|params|] == params;
    RequirementByPosition(params);
    var spec := Spec(lists.approvers, required);
    var empty := Task(spec, Status(NoState, [], [], None, 0, 0), Some(Compute(lists.approvers)), creation);
    var verdict := AdmitRequest(Create, empty, spec, Requester("", []));
    if verdict != Allowed {
      return None;
    }
    return Some(empty.(status := Status(PendingState, lists.users, [], None, required, 0)));
  }

  lemma {:induction false} RequiredStaysNone(params: seq<Param>, i: nat)
    requires i <= |params| && RequiredOf(params[..i]) == None
    ensures RequiredOf(params) == None
    decreases |params| - i
  {
    if i < |params| {
      assert params[..i + 1][..i] == params[..i];
      RequiredStaysNone(params, i + 1);
    } else {
      assert params[..i] == params;
    }
  }

  // ---------- what is created ----------

  function StrippedNames(names: seq<string>): set<string> {
    set name | name in names :: Stripped(name)
  }

  /** No name before position `k` strips to the same. */
  predicate FirstOccurrence(names: seq<string>, k: nat)
    requires k < |names|
  {
    Stripped(names[k]) !in StrippedNames(names[..k])
  }

  predicate Increasing(positions: seq<nat>) {
    forall i, j :: 0 <= i < j < |positions| ==> positions[i] < positions[j]
  }

  /** `positions` lists the first occurrences of stripped names, in order. */
  ghost predicate ListsFirstOccurrences(positions: seq<nat>, names: seq<string>) {
    && Increasing(positions)
    && forall k :: k in positions <==> 0 <= k < |names| && FirstOccurrence(names, k)
  }

  predicate PlainNames(names: seq<string>) {
    forall name :: name in names ==> !(GROUP_PREFIX <= Stripped(name))
  }

  lemma AddNameAdds(lists: NameLists, name: string)
    requires forall n :: n in lists.users <==> Named(lists.approvers, n)
    requires name in lists.users ==> Stripped(name) == name
    ensures forall n :: Named(AddName(lists, name).approvers, n) <==> Named(lists.approvers, n) || n == Stripped(name)
    ensures forall n :: n in AddName(lists, name).users <==> Named(AddName(lists, name).approvers, n)
    ensures AddName(lists, name).approvers
         == lists.approvers + if Named(lists.approvers, Stripped(name)) then [] else [EntryFor(name)]
  {
  }

  lemma PlainPrefix(names: seq<string>, k: nat)
    requires PlainNames(names) && k <= |names|
    ensures PlainNames(names[..k])
  {
  }

  lemma StrippedNamesExtend(names: seq<string>, last: string)
    ensures StrippedNames(names + [last]) == StrippedNames(names) + {Stripped(last)}
  {
  }

  /** Both lists hold exactly the stripped names. */
  lemma {:induction false} ListsHoldStrippedNames(names: seq<string>)
    requires PlainNames(names)
    ensures forall n :: Named(AddNames(NameLists([], []), names).approvers, n) <==> n in StrippedNames(names)
    ensures forall n :: n in AddNames(NameLists([], []), names).users
              <==> Named(AddNames(NameLists([], []), names).approvers, n)
  {
    if names != [] {
      var init, last := names[..|names| - 1], names[|names| - 1];
      assert names == init + [last];
      PlainPrefix(names, |init|);
      ListsHoldStrippedNames(init);
      StrippedNamesExtend(init, last);
      StrippedNameIsPlain(init, last);
      AddNameAdds(AddNames(NameLists([], []), init), last);
    }
  }

  lemma StrippedNameIsPlain(names: seq<string>, name: string)
    requires PlainNames(names)
    ensures name in StrippedNames(names) ==> Stripped(name) == name
  {
  }

  /** The entries sit at `positions`. */
  predicate EntriesAt(approvers: seq<Approver>, names: seq<string>, positions: seq<nat>) {
    && |approvers| == |positions|
    && forall i :: 0 <= i < |positions| ==> positions[i] < |names| && approvers[i] == EntryFor(names[positions[i]])
  }

  lemma FirstOccurrencesExtend(positions: seq<nat>, names: seq<string>, last: string)
    requires ListsFirstOccurrences(positions, names)
    ensures var n := |names|;
            var extended := names + [last];
            ListsFirstOccurrences(if FirstOccurrence(extended, n) then positions + [n] else positions, extended)
  {
    var n := |names|;
    var extended := names + [last];
    forall k | 0 <= k < n
      ensures FirstOccurrence(extended, k) <==> FirstOccurrence(names, k)
    {
      assert extended[..k] == names[..k];
    }
    forall i | 0 <= i < |positions|
      ensures positions[i] < n
    {
      assert positions[i] in positions;
    }
    assert forall k :: k in positions + [n] <==> k in positions || k == n;
  }

  lemma EntriesExtend(approvers: seq<Approver>, names: seq<string>, positions: seq<nat>, last: string)
    requires EntriesAt(approvers, names, positions)
    ensures EntriesAt(approvers, names + [last], positions)
    ensures EntriesAt(approvers + [EntryFor(last)], names + [last], positions + [|names|])
  {
  }

  lemma LastNameAdded(names: seq<string>, last: string)
    requires PlainNames(names)
    ensures AddNames(NameLists([], []), names + [last]).approvers
         == AddNames(NameLists([], []), names).approvers
            + if FirstOccurrence(names + [last], |names|) then [EntryFor(last)] else []
  {
    assert (names + [last])[..|names|] == names;
    ListsHoldStrippedNames(names);
    StrippedNameIsPlain(names, last);
    AddNameAdds(AddNames(NameLists([], []), names), last);
  }

  /** The spec entries are the first occurrences of the stripped names, in order, all pending. */
  lemma {:induction false} NamesAreDeduplicated(names: seq<string>) returns (positions: seq<nat>)
    requires PlainNames(names)
    ensures ListsFirstOccurrences(positions, names)
    ensures EntriesAt(AddNames(NameLists([], []), names).approvers, names, positions)
  {
    positions := [];
    if names != [] {
      var init, last := names[..|names| - 1], names[|names| - 1];
      assert names == init + [last];
      PlainPrefix(names, |init|);
      positions := NamesAreDeduplicated(init);
      FirstOccurrencesExtend(positions, init, last);
      LastNameAdded(init, last);
      EntriesExtend(AddNames(NameLists([], []), init).approvers, init, positions, last);
      if FirstOccurrence(names, |init|) {
        positions := positions + [|init|];
      }
    }
  }

  /** Position `f` holds the first name that strips to the same text as the one at `j`. */
  predicate FirstAlike(names: seq<string>, j: nat, f: nat)
    requires j < |names|
  {
    f <= j && Stripped(names[f]) == Stripped(names[j]) && FirstOccurrence(names, f)
  }

  lemma {:induction false} SomeFirstAlike(names: seq<string>, j: nat) returns (f: nat)
    requires j < |names|
    ensures FirstAlike(names, j, f)
    decreases j
  {
    f := j;
    if !FirstOccurrence(names, j) {
      var name :| name in names[..j] && Stripped(name) == Stripped(names[j]);
      var i :| 0 <= i < j && names[i] == name;
      f := SomeFirstAlike(names, i);
    }
  }

  lemma FirstOccurrenceIsUnique(names: seq<string>, f: nat, g: nat)
    requires f < |names| && g < |names| && Stripped(names[f]) == Stripped(names[g])
    requires FirstOccurrence(names, f) && FirstOccurrence(names, g)
    ensures f == g
  {
  }

  /** A listed name gets an entry of its own type if and only if the first name that strips to the
      same text has or lacks the prefix as it does: a user and a group of one name cannot both
      become approvers. */
  lemma OwnEntryExactly(names: seq<string>, j: nat) returns (f: nat)
    requires PlainNames(names) && j < |names|
    ensures FirstAlike(names, j, f)
    ensures EntryFor(names[j]) in AddNames(NameLists([], []), names).approvers
            <==> (GROUP_PREFIX <= names[f] <==> GROUP_PREFIX <= names[j])
  {
    f := SomeFirstAlike(names, j);
    var positions := NamesAreDeduplicated(names);
    var approvers := AddNames(NameLists([], []), names).approvers;
    assert f in positions;
    var i :| 0 <= i < |positions| && positions[i] == f;
    assert approvers[i] == EntryFor(names[f]);
    if EntryFor(names[j]) in approvers {
      var k :| 0 <= k < |approvers| && approvers[k] == EntryFor(names[j]);
      assert positions[k] in positions && EntryFor(names[positions[k]]) == EntryFor(names[j]);
      FirstOccurrenceIsUnique(names, f, positions[k]);
    }
  }

  /** The list in the documentation's own example: user `tekton` comes first, and group `tekton` gets
      no entry. */
  lemma GroupOfOneNameIsDropped()
    ensures var names := ["tekton", "group:tekton"];
            && (forall name :: name in names ==> ValidApproverParam(name))
            && EntryFor("tekton") in AddNames(NameLists([], []), names).approvers
            && EntryFor("group:tekton") !in AddNames(NameLists([], []), names).approvers
  {
    var names := ["tekton", "group:tekton"];
    TektonIsValid();
    assert !(GROUP_PREFIX <= "tekton") by {
      assert "tekton"[0] != GROUP_PREFIX[0];
    }
    var f := OwnEntryExactly(names, 0);
    var g := OwnEntryExactly(names, 1);
    assert names[0] in names[..1];
  }

  lemma NoSpaceIsValid(value: string, c: char)
    requires ' ' !in value && c in value && !IsSpace(c)
    requires GROUP_PREFIX <= value ==> ValidGroupSyntax(AfterPrefix(value))
    ensures ValidApproverParam(value)
  {
  }

  lemma PrefixedName(name: string)
    ensures GROUP_PREFIX <= GROUP_PREFIX + name && AfterPrefix(GROUP_PREFIX + name) == name
  {
  }

  lemma TektonIsValid()
    ensures ValidApproverParam("tekton") && ValidApproverParam("group:tekton")
    ensures GROUP_PREFIX <= "group:tekton" && Stripped("group:tekton") == "tekton" == Stripped("tekton")
  {
    assert 't' in "tekton" && !IsSpace('t') && "tekton"[0] != GROUP_PREFIX[0];
    assert ' ' !in "tekton" && ':' !in "tekton";
    NoSpaceIsValid("tekton", 't');
    assert "group:tekton" == GROUP_PREFIX + "tekton";
    PrefixedName("tekton");
    assert ' ' !in GROUP_PREFIX && 't' in GROUP_PREFIX + "tekton";
    NoSpaceIsValid(GROUP_PREFIX + "tekton", 't');
  }

  lemma PrefixHasAColon(s: string)
    ensures GROUP_PREFIX <= s ==> ':' in s
  {
    if GROUP_PREFIX <= s {
      assert s[|GROUP_PREFIX| - 1] == ':';
    }
  }

  lemma {:induction false} NamesComeFromParams(params: seq<Param>, name: string)
    requires name in AllNames(params)
    ensures exists p :: p in params && p.name.ApproversParam? && name in p.value.names
  {
    var last := params[|params| - 1];
    if last.name.ApproversParam? && name in last.value.names {
      assert last in params;
    } else {
      NamesComeFromParams(params[..|params| - 1], name);
    }
  }

  lemma AcceptedNamesAreValid(params: seq<Param>)
    requires ParamsAccepted(params)
    ensures forall name :: name in AllNames(params) ==> ValidApproverParam(name)
    ensures PlainNames(AllNames(params))
  {
    forall name | name in AllNames(params)
      ensures ValidApproverParam(name) && !(GROUP_PREFIX <= Stripped(name))
    {
      NamesComeFromParams(params, name);
      var p :| p in params && p.name.ApproversParam? && name in p.value.names;
      var k :| 0 <= k < |p.value.names| && p.value.names[k] == name;
      assert ParamAccepted(p) && Strings(p.value.names)[k] == JsonString(name);
      assert JsonString(name) in ListedItems(p.value) by {
        assert ListedItems(p.value)[k] == JsonString(name);
      }
      PrefixHasAColon(Stripped(name));
    }
  }

  lemma {:induction false} AcceptedRequirement(params: seq<Param>)
    requires forall p :: p in params ==> ParamAccepted(p)
    ensures RequiredOf(params).Some? && RequiredOf(params).value > 0
  {
    if params != [] {
      assert params[|params| - 1] in params;
      AcceptedRequirement(params[..|params| - 1]);
    }
  }

  lemma EntryIsLegal(name: string)
    requires ValidApproverParam(name)
    ensures LegalApprover(EntryFor(name))
  {
  }

  /** Parameters to admission: of accepted parameters the webhook admits the created task exactly
      when some name came in array form; then names are distinct, rosters empty and the task is the
      start of a run. A list given as a JSON string is accepted first and denied afterwards. */
  lemma AcceptedParamsAreAdmitted(params: seq<Param>, creation: int, clock: int) returns (positions: seq<nat>)
    requires ParamsAccepted(params)
    ensures RequiredOf(params).Some?
    ensures ListsFirstOccurrences(positions, AllNames(params))
    ensures EntriesAt(CreatedLists(params).approvers, AllNames(params), positions)
    ensures var task := CreatedTask(params, RequiredOf(params).value, creation);
            && (Admit(Create, task, task.spec, Requester("", [])) == Allowed <==> AllNames(params) != [])
            && (AllNames(params) != [] ==>
                  && Init(System(task, 0, Running, Idle, clock))
                  && DistinctNames(task.spec.approvers) && EmptyRosters(task.spec.approvers)
                  && (forall n :: n in task.status.approvers <==> Named(task.spec.approvers, n))
                  && (forall n :: n in task.status.approvers <==> n in StrippedNames(AllNames(params))))
  {
    AcceptedRequirement(params);
    AcceptedNamesAreValid(params);
    var names := AllNames(params);
    positions := NamesAreDeduplicated(names);
    ListsHoldStrippedNames(names);
    var approvers := CreatedLists(params).approvers;
    forall i, j | 0 <= i < j < |approvers|
      ensures approvers[i].name != approvers[j].name
    {
      assert positions[j] in positions && FirstOccurrence(names, positions[j]);
      assert names[positions[i]] in names[..positions[j]];
    }
    forall i | 0 <= i < |approvers|
      ensures LegalApprover(approvers[i]) && approvers[i].input.Pending? && approvers[i].users == []
    {
      assert positions[i] in positions && names[positions[i]] in names;
      EntryIsLegal(names[positions[i]]);
    }
    if names != [] {
      assert Stripped(names[0]) in StrippedNames(names) && Named(approvers, Stripped(names[0]));
    }
  }

  /** A list that is only given as a JSON string: accepted up front, denied on creation. */
  lemma JsonListIsAcceptedThenDenied()
    ensures var value := ParamValue([], 0, "[\"bob\"]", JsonArray([JsonString("bob")]), None, None);
            var params := [Param(ApproversParam, value)];
            ParamsAccepted(params) && !LegalSpec(CreatedSpec(params, 1))
  {
    var value := ParamValue([], 0, "[\"bob\"]", JsonArray([JsonString("bob")]), None, None);
    var params := [Param(ApproversParam, value)];
    assert ListedItems(value) == [JsonString("bob")];
    assert 'b' in "bob" && !IsSpace('b') && "bob"[0] != GROUP_PREFIX[0];
    assert ValidApproverParam("bob");
    assert LastCount(params) == 1;
    assert params[..0] == [] && AllNames(params) == [];
    assert CreatedLists(params) == NameLists([], []);
  }
}
