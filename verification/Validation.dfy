/** Structural validation of a spec by the webhook. The index-map loops are proved to accept
    exactly the specs described by `LegalSpec`. */
module Validation {
  import opened ApprovalTypes

  /** `unicode.IsSpace`. */
  predicate IsSpace(c: char) {
    || '\t' <= c <= '\r' || c == ' ' || c == '\U{0085}' || c == '\U{00A0}' || c == '\U{1680}'
    || '\U{2000}' <= c <= '\U{200A}' || c == '\U{2028}' || c == '\U{2029}'
    || c == '\U{202F}' || c == '\U{205F}' || c == '\U{3000}'
  }

  /** `strings.TrimSpace(s) == ""`. */
  predicate Blank(s: string) {
    forall c :: c in s ==> IsSpace(c)
  }

  const GROUP_PREFIX := "group:"

  predicate ValidUserName(name: string) {
    !Blank(name) && !(GROUP_PREFIX <= name)
  }

  predicate ValidGroupName(name: string) {
    !Blank(name) && ' ' !in name && ':' !in name
  }

  predicate LegalInput(input: Input) {
    input.Pending? || input.Approve? || input.Reject?
  }

  predicate DistinctMembers(users: seq<UserDetails>) {
    forall i, j :: 0 <= i < j < |users| ==> users[i].name != users[j].name
  }

  predicate LegalRoster(users: seq<UserDetails>) {
    && (forall u :: u in users ==> ValidUserName(u.name) && LegalInput(u.input))
    && DistinctMembers(users)
  }

  predicate LegalApprover(a: Approver) {
    && (a.IsUser() || a.IsGroup())
    && (a.IsUser() ==> ValidUserName(a.name))
    && (a.IsGroup() ==> ValidGroupName(a.name) && LegalRoster(a.users))
    && LegalInput(a.input)
  }

  predicate SameKey(a: Approver, b: Approver) {
    Defaulted(a.kind) == Defaulted(b.kind) && a.name == b.name
  }

  predicate DistinctKeys(approvers: seq<Approver>) {
    forall i, j :: 0 <= i < j < |approvers| ==> !SameKey(approvers[i], approvers[j])
  }

  /** What `validateApprovalTaskSpec` is for: a positive requirement and a non-empty list of
      legal approvers, no two of them of one defaulted type and name. */
  predicate LegalSpec(spec: Spec) {
    && spec.required > 0
    && spec.approvers != []
    && (forall a :: a in spec.approvers ==> LegalApprover(a))
    && DistinctKeys(spec.approvers)
  }

  /** What `validateApproverInputsForCreate` is for: nobody has decided anything yet. */
  predicate AllPending(approvers: seq<Approver>) {
    forall a :: a in approvers ==>
      a.input.Pending? && (a.IsGroup() ==> forall u :: u in a.users ==> u.input.Pending?)
  }

  /** `validateUserName` and `strings.TrimSpace` scans. */
  method ValidateUserName(name: string) returns (ok: bool)
    ensures ok <==> ValidUserName(name)
  {
    var i := 0;
    while i < |name| && IsSpace(name[i])
      invariant 0 <= i <= |name|
      invariant forall k :: 0 <= k < i ==> IsSpace(name[k])
    {
      i := i + 1;
    }
    if i == |name| {
      return false;
    }
    assert name[i] in name;
    return !(GROUP_PREFIX <= name);
  }

  /** The user loop of `validateApprover`, with its map from user name to index. */
  method ValidateRoster(users: seq<UserDetails>) returns (ok: bool)
    ensures ok <==> LegalRoster(users)
  {
    var groupUsers: map<string, int> := map[];
    var j := 0;
    while j < |users|
      invariant 0 <= j <= |users|
      invariant LegalRoster(users[..j])
      invariant forall n :: n in groupUsers <==> exists k :: 0 <= k < j && users[k].name == n
    {
      var user := users[j];
      var nameOk := ValidateUserName(user.name);
      if !nameOk || user.name in groupUsers || !LegalInput(user.input) {
        assert user in users;
        return false;
      }
      assert users[..j + 1] == users[..j] + [user];
      groupUsers := groupUsers[user.name := j];
      j := j + 1;
    }
    assert users[..j] == users;
    return true;
  }

  /** `validateApprover`. */
  method ValidateApprover(approver: Approver) returns (ok: bool)
    ensures ok <==> LegalApprover(approver)
  {
    var kind := Defaulted(approver.kind);
    if kind != User && kind != Group {
      return false;
    }
    if kind == User {
      var nameOk := ValidateUserName(approver.name);
      if !nameOk {
        return false;
      }
    } else if Blank(approver.name) || ' ' in approver.name || ':' in approver.name {
      return false;
    }
    if !LegalInput(approver.input) {
      return false;
    }
    if kind == Group {
      ok := ValidateRoster(approver.users);
      return ok;
    }
    return true;
  }

  /** `validateApprovalTaskSpec`. The map key is the pair the code joins with a colon; the type
      part is then "User" or "Group", so the join is injective. */
  method ValidateApprovalTaskSpec(spec: Spec) returns (ok: bool)
    ensures ok <==> LegalSpec(spec)
  {
    if spec.required <= 0 || |spec.approvers| == 0 {
      return false;
    }
    var approverNames: map<(ApproverType, string), int> := map[];
    var i := 0;
    while i < |spec.approvers|
      invariant 0 <= i <= |spec.approvers|
      invariant forall k :: 0 <= k < i ==> LegalApprover(spec.approvers[k])
      invariant DistinctKeys(spec.approvers[..i])
      invariant forall key :: key in approverNames <==>
        exists k :: 0 <= k < i && (Defaulted(spec.approvers[k].kind), spec.approvers[k].name) == key
    {
      var approver := spec.approvers[i];
      var approverOk := ValidateApprover(approver);
      var key := (Defaulted(approver.kind), approver.name);
      if !approverOk || key in approverNames {
        assert approver in spec.approvers;
        return false;
      }
      approverNames := approverNames[key := i];
      i := i + 1;
    }
    assert spec.approvers[..i] == spec.approvers;
    return true;
  }

  /** `validateApproverInputsForCreate`. */
  method ValidateApproverInputsForCreate(approvers: seq<Approver>) returns (ok: bool)
    ensures ok <==> AllPending(approvers)
  {
    for i := 0 to |approvers|
      invariant AllPending(approvers[..i])
    {
      var approver := approvers[i];
      assert approver in approvers && approvers[..i + 1] == approvers[..i] + [approver];
      if !approver.input.Pending? {
        return false;
      }
      if approver.IsGroup() {
        for j := 0 to |approver.users|
          invariant forall k :: 0 <= k < j ==> approver.users[k].input.Pending?
        {
          if !approver.users[j].input.Pending? {
            assert approver.users[j] in approver.users;
            return false;
          }
        }
      }
    }
    assert approvers[..|approvers|] == approvers;
    return true;
  }
}
