/** Which specs the webhook lets exist: the names, types and inputs in them, spelled out. */
module ValidationLaws {
  import opened ApprovalTypes
  import opened Validation
  import opened Admission
  import opened Protocol

  // ---------- names ----------

  /** The characters with the White_Space property in the Unicode Character Database. */
  const WHITE_SPACE: string := "\t\n\U{B}\U{C}\r \U{85}\U{A0}\U{1680}\U{2000}\U{2001}\U{2002}\U{2003}\U{2004}\U{2005}"
                               + "\U{2006}\U{2007}\U{2008}\U{2009}\U{200A}\U{2028}\U{2029}\U{202F}\U{205F}\U{3000}"

  lemma SpacesAreWhiteSpace(c: char)
    ensures IsSpace(c) <==> c in WHITE_SPACE
  {
  }

  predicate HasInk(name: string) {
    exists c :: c in name && c !in WHITE_SPACE
  }

  /** A text that says something and does not start like a group reference. */
  predicate IsUserName(name: string) {
    HasInk(name) && (|name| >= 6 ==> name[..6] != "group:")
  }

  predicate IsGroupName(name: string) {
    HasInk(name) && forall c :: c in name ==> c != ' ' && c != ':'
  }

  lemma NamesExactly(name: string)
    ensures ValidUserName(name) <==> IsUserName(name)
    ensures ValidGroupName(name) <==> IsGroupName(name)
  {
    assert HasInk(name) <==> !Blank(name) by {
      forall c | c in name
        ensures IsSpace(c) <==> c in WHITE_SPACE
      {
        SpacesAreWhiteSpace(c);
      }
    }
    assert |name| >= 6 ==> (GROUP_PREFIX <= name <==> name[..6] == "group:");
  }

  // ---------- specs ----------

  predicate IsMember(u: UserDetails, inputs: set<Input>) {
    IsUserName(u.name) && u.input in inputs
  }

  /** An individual, which is what an entry without a type is, or a group of distinct members. Only
      the roster of a group is looked at. */
  predicate IsEntry(a: Approver, inputs: set<Input>) {
    && a.input in inputs
    && match a.kind
       case Unset => IsUserName(a.name)
       case User => IsUserName(a.name)
       case Group =>
         && IsGroupName(a.name) && (forall u :: u in a.users ==> IsMember(u, inputs))
         && forall i, j :: 0 <= i < j < |a.users| ==> a.users[i].name != a.users[j].name
       case OtherType(_) => false
  }

  /** A spec with inputs among `inputs`: somebody is asked, at least one approval is required, and no
      two individuals and no two groups share a name. */
  predicate IsSpec(spec: Spec, inputs: set<Input>) {
    && spec.required >= 1 && |spec.approvers| >= 1
    && (forall a :: a in spec.approvers ==> IsEntry(a, inputs))
    && forall i, j :: 0 <= i < j < |spec.approvers| && spec.approvers[i].name == spec.approvers[j].name ==>
         (spec.approvers[i].kind == Group) != (spec.approvers[j].kind == Group)
  }

  lemma EntryExactly(a: Approver)
    ensures LegalApprover(a) <==> IsEntry(a, {Pending, Approve, Reject})
    ensures LegalApprover(a) && AllPending([a]) <==> IsEntry(a, {Pending})
  {
    NamesExactly(a.name);
    forall u | u in a.users
      ensures ValidUserName(u.name) <==> IsUserName(u.name)
    {
      NamesExactly(u.name);
    }
    assert AllPending([a]) <==> a.input.Pending? && (a.IsGroup() ==> forall u :: u in a.users ==> u.input.Pending?) by {
      assert a in [a];
    }
  }

  lemma AllPendingExactly(approvers: seq<Approver>)
    ensures AllPending(approvers) <==> forall a :: a in approvers ==> AllPending([a])
  {
    forall a | a in approvers
      ensures AllPending([a]) <==> a.input.Pending? && (a.IsGroup() ==> forall u :: u in a.users ==> u.input.Pending?)
    {
      assert a in [a];
    }
  }

  lemma LegalSpecExactly(spec: Spec)
    ensures LegalSpec(spec) <==> IsSpec(spec, {Pending, Approve, Reject})
  {
    forall a | a in spec.approvers
      ensures LegalApprover(a) <==> IsEntry(a, {Pending, Approve, Reject})
    {
      EntryExactly(a);
    }
    if forall a :: a in spec.approvers ==> LegalApprover(a) {
      forall i, j | 0 <= i < j < |spec.approvers|
        ensures SameKey(spec.approvers[i], spec.approvers[j])
                <==> spec.approvers[i].name == spec.approvers[j].name
                     && (spec.approvers[i].kind == Group) == (spec.approvers[j].kind == Group)
      {
        assert spec.approvers[i] in spec.approvers && spec.approvers[j] in spec.approvers;
      }
    }
  }

  lemma PendingSpecExactly(spec: Spec)
    ensures LegalSpec(spec) && AllPending(spec.approvers) <==> IsSpec(spec, {Pending})
  {
    LegalSpecExactly(spec);
    AllPendingExactly(spec.approvers);
    forall a | a in spec.approvers
      ensures IsEntry(a, {Pending, Approve, Reject}) && AllPending([a]) <==> IsEntry(a, {Pending})
    {
      EntryExactly(a);
    }
  }

  /** What each operation makes of a proposed spec before it looks at the requester: a malformed one is
      turned away, a task is created exactly if nobody has decided anything yet, and there is no
      third operation. */
  lemma StructureVerdictExactly(operation: Operation, task: Task, proposed: Spec, req: Requester)
    ensures Admit(operation, task, proposed, req) == InvalidSpec <==> !IsSpec(proposed, {Pending, Approve, Reject})
    ensures Admit(Create, task, proposed, req) == Allowed <==> IsSpec(proposed, {Pending})
    ensures IsSpec(proposed, {Pending, Approve, Reject}) && !IsSpec(proposed, {Pending}) ==>
              Admit(Create, task, proposed, req) == NotPendingOnCreate
    ensures IsSpec(proposed, {Pending, Approve, Reject}) ==>
              Admit(OtherOperation, task, proposed, req) == UnsupportedOperation
  {
    LegalSpecExactly(proposed);
    PendingSpecExactly(proposed);
  }

  /** At every point of every run the spec is such a spec: no individual and no member bears a name
      that reads as a group reference or as nothing, no group one with a space or a colon. */
  lemma SpecsStayWellFormed(timeout: int, ss: seq<System>, es: seq<Event>, i: nat)
    requires IsRun(timeout, ss, es) && i < |ss|
    ensures IsSpec(ss[i].task.spec, {Pending, Approve, Reject})
    ensures IsSpec(ss[0].task.spec, {Pending})
  {
    LegalAt(timeout, ss, es, i);
    LegalSpecExactly(ss[i].task.spec);
    PendingSpecExactly(ss[0].task.spec);
  }
}
