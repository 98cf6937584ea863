/** Parameters and created tasks, by position in the parameter list. */
module CreationLaws {
  import opened ApprovalTypes
  import opened Quorum
  import opened Validation
  import opened ValidationLaws
  import opened Creation
  import opened Protocol

  // ---------- approver texts ----------

  /** No space stands next to a colon. */
  predicate NoLooseColon(text: string) {
    forall i :: 0 <= i < |text| - 1 ==>
      !(text[i] == ' ' && text[i + 1] == ':') && !(text[i] == ':' && text[i + 1] == ' ')
  }

  /** A user name, or the prefix and a group name. */
  predicate IsApproverText(text: string) {
    NoLooseColon(text) && if |text| >= 6 && text[..6] == "group:" then IsGroupName(text[6..]) else IsUserName(text)
  }

  lemma InkSurvives(text: string)
    requires |text| >= 6 && HasInk(text[6..])
    ensures HasInk(text)
  {
    var c :| c in text[6..] && c !in WHITE_SPACE;
    assert c in text;
  }

  /** The controller's early check accepts exactly these texts: apart from spaces next to colons it
      agrees with what the webhook accepts as the name of an individual or of a group. */
  lemma ApproverTextExactly(text: string)
    ensures ValidApproverParam(text) <==> IsApproverText(text)
  {
    NamesExactly(text);
    assert Contains(text, ' ', ':') || Contains(text, ':', ' ') <==> !NoLooseColon(text);
    if |text| >= 6 && text[..6] == "group:" {
      assert GROUP_PREFIX <= text && AfterPrefix(text) == text[6..];
      NamesExactly(text[6..]);
      if IsGroupName(text[6..]) {
        InkSurvives(text);
      }
      assert HasInk(text) <==> !Blank(text) by {
        InkOrBlank(text);
      }
    } else {
      assert !(GROUP_PREFIX <= text);
    }
  }

  lemma InkOrBlank(text: string)
    ensures HasInk(text) <==> !Blank(text)
  {
    forall c | c in text
      ensures IsSpace(c) <==> c in WHITE_SPACE
    {
      SpacesAreWhiteSpace(c);
    }
  }

  /** How an entry is written in a parameter. */
  function TextOf(a: Approver): string {
    if a.kind == Group then "group:" + a.name else a.name
  }

  /** Writing an entry down and creating a task from it gives the entry back, pending and with an empty
      roster: texts tell individuals and groups apart. */
  lemma TextRoundTrip(a: Approver)
    requires IsEntry(a, {Pending, Approve, Reject})
    ensures EntryFor(TextOf(a)) == Approver(a.name, Pending, "", if a.kind == Group then Group else User, [])
  {
    var text := TextOf(a);
    if a.kind == Group {
      assert text[..6] == "group:" && text[6..] == a.name;
      assert GROUP_PREFIX <= text;
    } else {
      assert !(GROUP_PREFIX <= text);
    }
  }

  // ---------- early validation ----------

  /** An `approvers` value that can be read: an array of approver texts, an empty text, or a text that
      decodes to such an array. An object never can, nor can an array beside one. */
  predicate IsApproverList(value: ParamValue) {
    if value.objectSize > 0 then false
    else if |value.names| > 0 then forall k :: 0 <= k < |value.names| ==> IsApproverText(value.names[k])
    else if value.text == "" then true
    else value.json.JsonArray? && forall k :: 0 <= k < |value.json.items| ==>
           value.json.items[k].JsonString? && IsApproverText(value.json.items[k].text)
  }

  predicate ListsSomebody(value: ParamValue) {
    |value.names| > 0 || (value.text != "" && value.json.JsonArray? && |value.json.items| > 0)
  }

  predicate LastApprovers(params: seq<Param>, k: nat)
    requires k < |params|
  {
    params[k].name == ApproversParam && forall j :: k < j < |params| ==> params[j].name != ApproversParam
  }

  lemma ApproverListExactly(value: ParamValue)
    ensures ApproversAccepted(value) <==> IsApproverList(value)
    ensures ApproversAccepted(value) ==> (|ListedItems(value)| > 0 <==> ListsSomebody(value))
  {
    var items := ListedItems(value);
    forall text
      ensures ValidApproverParam(text) <==> IsApproverText(text)
    {
      ApproverTextExactly(text);
    }
    if value.objectSize > 0 {
      assert items[|items| - 1] == JsonObject;
      assert JsonObject in items;
    } else if |value.names| > 0 {
      assert items == Strings(value.names);
      assert forall k :: 0 <= k < |items| ==> items[k] in items && items[k] == JsonString(value.names[k]);
    } else if value.text != "" && value.json.JsonArray? {
      assert items == value.json.items;
      assert forall k :: 0 <= k < |items| ==> items[k] in items;
    }
  }

  lemma {:induction false} LastCountByPosition(params: seq<Param>)
    ensures forall k :: 0 <= k < |params| && LastApprovers(params, k) ==>
              LastCount(params) == |ListedItems(params[k].value)|
    ensures LastCount(params) > 0 ==> exists k :: 0 <= k < |params| && LastApprovers(params, k)
  {
    if params != [] {
      var init, n := params[..|params| - 1], |params| - 1;
      LastCountByPosition(init);
      if params[n].name == ApproversParam {
        assert LastApprovers(params, n);
      } else {
        forall k | 0 <= k < n
          ensures LastApprovers(params, k) <==> LastApprovers(init, k)
        {
          LastApproversShrinks(params, k);
        }
        if LastCount(params) > 0 {
          var k :| 0 <= k < |init| && LastApprovers(init, k);
          assert LastApprovers(params, k);
        }
      }
    }
  }

  lemma LastApproversShrinks(params: seq<Param>, k: nat)
    requires k < |params| - 1 && params[|params| - 1].name != ApproversParam
    ensures LastApprovers(params, k) <==> LastApprovers(params[..|params| - 1], k)
  {
    var init := params[..|params| - 1];
    assert forall j :: 0 <= j < |init| ==> init[j] == params[j];
  }

  /** Early validation accepts exactly: every requirement a positive number, every list of approvers
      readable, and somebody on the last one. */
  lemma EarlyValidationExactly(params: seq<Param>)
    ensures ParamsAccepted(params)
            <==> && (forall k :: 0 <= k < |params| && params[k].name == RequiredParam ==>
                       params[k].value.number.Some? && params[k].value.number.value >= 1)
                 && (forall k :: 0 <= k < |params| && params[k].name == ApproversParam ==>
                       IsApproverList(params[k].value))
                 && exists k :: 0 <= k < |params| && LastApprovers(params, k) && ListsSomebody(params[k].value)
  {
    LastCountByPosition(params);
    forall k | 0 <= k < |params|
      ensures params[k].name == ApproversParam ==> (ParamAccepted(params[k]) <==> IsApproverList(params[k].value))
      ensures params[k] in params
    {
      ApproverListExactly(params[k].value);
    }
    if k :| 0 <= k < |params| && LastApprovers(params, k) {
      ApproverListExactly(params[k].value);
    }
  }

  // ---------- names in parameters ----------

  /** Names are taken from all array-form `approvers` parameters, one after the other. */
  lemma {:induction false} AllNamesConcat(xs: seq<Param>, ys: seq<Param>)
    ensures AllNames(xs + ys) == AllNames(xs) + AllNames(ys)
  {
    if ys == [] {
      assert xs + ys == xs;
    } else {
      assert (xs + ys)[..|xs + ys| - 1] == xs + ys[..|ys| - 1];
      AllNamesConcat(xs, ys[..|ys| - 1]);
    }
  }

  lemma AllNamesOfOne(p: Param)
    ensures AllNames([p]) == if p.name == ApproversParam then p.value.names else []
  {
    assert [p][..0] == [];
  }

  /** The name at position `k` is put on the status list: it is not what an earlier one strips to. */
  predicate IsListed(names: seq<string>, k: nat)
    requires k < |names|
  {
    forall j :: 0 <= j < k ==> Stripped(names[j]) != names[k]
  }

  predicate ListsPositions(positions: seq<nat>, names: seq<string>) {
    && Increasing(positions)
    && (forall p :: p in positions ==> p < |names| && IsListed(names, p))
    && (forall k :: 0 <= k < |names| && IsListed(names, k) ==> k in positions)
  }

  predicate StrippedAt(users: seq<string>, names: seq<string>, positions: seq<nat>) {
    && |users| == |positions|
    && forall i :: 0 <= i < |users| ==> positions[i] < |names| && users[i] == Stripped(names[positions[i]])
  }

  lemma ListedExtends(names: seq<string>, last: string, k: nat)
    requires k < |names|
    ensures IsListed(names + [last], k) <==> IsListed(names, k)
  {
    var extended := names + [last];
    assert forall j :: 0 <= j < |names| ==> extended[j] == names[j];
  }

  lemma LastListedExactly(names: seq<string>, last: string)
    requires PlainNames(names)
    ensures IsListed(names + [last], |names|) <==> last !in AddNames(NameLists([], []), names).users
  {
    ListsHoldStrippedNames(names);
    var extended := names + [last];
    assert extended[|names|] == last;
    assert forall j :: 0 <= j < |names| ==> extended[j] == names[j];
    assert last in StrippedNames(names) <==> exists j :: 0 <= j < |names| && Stripped(names[j]) == last;
  }

  lemma PositionsExtend(positions: seq<nat>, names: seq<string>, last: string)
    requires ListsPositions(positions, names)
    ensures ListsPositions(if IsListed(names + [last], |names|) then positions + [|names|] else positions,
                           names + [last])
  {
    var n, extended := |names|, names + [last];
    forall k | 0 <= k < n
      ensures IsListed(extended, k) <==> IsListed(names, k)
    {
      ListedExtends(names, last, k);
    }
    forall i | 0 <= i < |positions|
      ensures positions[i] < n
    {
      assert positions[i] in positions;
    }
    assert forall p :: p in positions + [n] <==> p in positions || p == n;
  }

  /** The status lists, stripped and in order, the names that are not what an earlier one strips to: a
      prefixed name that comes twice is listed twice. */
  lemma {:induction false} StatusNamesByPosition(names: seq<string>) returns (positions: seq<nat>)
    requires PlainNames(names)
    ensures ListsPositions(positions, names)
    ensures StrippedAt(AddNames(NameLists([], []), names).users, names, positions)
  {
    positions := [];
    if names != [] {
      var init, last := names[..|names| - 1], names[|names| - 1];
      assert names == init + [last];
      PlainPrefix(names, |init|);
      positions := StatusNamesByPosition(init);
      PositionsExtend(positions, init, last);
      LastListedExactly(init, last);
      if IsListed(names, |init|) {
        positions := positions + [|init|];
      }
    }
  }

  // ---------- the requirement end to end ----------

  /** A run that started from accepted parameters is approved only by as many distinct users as the
      last requirement parameter asks for, and by one if there is none; the status shows as much. */
  lemma ApprovedAsAskedFor(params: seq<Param>, timeout: int, ss: seq<System>, es: seq<Event>, i: nat, n: int)
    requires IsRun(timeout, ss, es) && i < |ss|
    requires AsksFor(params, ss[0].task.spec.required)
    requires (exists k :: 0 <= k < |params| && LastRequirement(params, k) && params[k].value.number == Some(n))
             || ((forall k :: 0 <= k < |params| ==> params[k].name != RequiredParam) && n == 1)
    ensures ss[i].task.status.state == ApprovedState ==> |ApprovedUsers(ss[i].task.spec.approvers)| >= n
    ensures ss[i].task.spec.required == n
  {
    RunInv(timeout, ss, es, i);
  }
}
