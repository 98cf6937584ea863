/** The ApprovalTask resource: its spec, its status and the small accessors on them.
    Go strings that are only ever compared with fixed texts become datatypes whose
    last constructor carries every other text. */
module ApprovalTypes {

  datatype Option<+T> = None | Some(value: T)

  /** `approver.Type`; `Unset` is the empty string. */
  datatype ApproverType = Unset | User | Group | OtherType(text: string)

  /** `approver.Input` and `user.Input`. */
  datatype Input = Pending | Approve | Reject | OtherInput(text: string)

  /** `status.state` and every `response`; `NoState` is the empty string. */
  datatype State = NoState | PendingState | ApprovedState | RejectedState | OtherState(text: string)

  datatype UserDetails = UserDetails(name: string, input: Input, message: string)

  datatype Approver = Approver(name: string, input: Input, message: string,
                               kind: ApproverType, users: seq<UserDetails>)
  {
    /** `DefaultedApproverType(Type) == "User"`: an empty type counts as a user. */
    predicate IsUser() {
      Defaulted(kind).User?
    }

    predicate IsGroup() {
      Defaulted(kind).Group?
    }
  }

  datatype Spec = Spec(approvers: seq<Approver>, required: int)

  datatype GroupMember = GroupMember(name: string, response: State, message: string)

  datatype ApproverState = ApproverState(name: string, response: State, message: string,
                                         kind: ApproverType, members: seq<GroupMember>)

  datatype Status = Status(state: State, approvers: seq<string>, responses: seq<ApproverState>,
                           startTime: Option<int>, approvalsRequired: int, approvalsReceived: int)

  /** The digest of an approver list. SHA-256 over JSON is taken to be injective. */
  datatype Hash = Digest(approvers: seq<Approver>)

  /** A stored task: `hash` is the last-applied-hash annotation, absent on a task that was not
      created by the controller; `creation` is the creation timestamp, 0 being Go's zero time. */
  datatype Task = Task(spec: Spec, status: Status, hash: Option<Hash>, creation: int)

  function Defaulted(kind: ApproverType): ApproverType {
    if kind.Unset? then User else kind
  }

  function Compute(approvers: seq<Approver>): Hash {
    Digest(approvers)
  }

  predicate Decided(input: Input) {
    input.Approve? || input.Reject?
  }

  predicate Final(state: State) {
    state.ApprovedState? || state.RejectedState?
  }

  /** The response the controller writes for an input: the empty string when undecided. */
  function ResponseOf(input: Input): State {
    match input
    case Approve => ApprovedState
    case Reject => RejectedState
    case _ => NoState
  }
}
