# Verification of the ApprovalTask protocol

An ApprovalTask holds a pipeline until enough listed people approve it. Three parties work on the
stored object: the command line client rewrites the approver list on behalf of a user, the
validating webhook decides which updates are let through, and the controller recomputes the status
from the spec, times the task out and marks the CustomRun. This project models the three parties and
their interplay and proves what the system promises over whole runs.

## Layout

| file | content |
|---|---|
| ApprovalTypes | spec, status, inputs and states |
| Quorum | the counting rule and its three loops |
| Validation, ValidationLaws | structural validation of a spec; the specs it lets exist, spelled out |
| Admission, AdmissionLaws, Verdicts | the webhook's guards and loops; what an admitted update can have done; the verdict on any update |
| Store | the API server with versioned spec and status writes, and an in-memory task object |
| Client, ClientLaws | the client's in-place rewrite; its algebra and its agreement with the webhook |
| Controller, ControllerLaws | status recomputation and reconcile; the status as an image of the spec |
| StatusLaws | answers, messages and counters in the stored status, over all runs |
| Creation, CreationLaws | CustomRun parameters, their early validation, creation of the task; all of it by position |
| Protocol | the state machine with crashes and arbitrary admitted updates; safety over all runs |
| CliRuns | runs driven by the client: exact decisions, exact quorum |
| History, Messages | the list, its messages and the decision as functions of the last acts, rejections included |
| ChangeOfMind | what a user whose approval is on record can still do |
| Witnesses | runs that take the exceptions |
| Timing | requeue delays and the deadline |
| Views | `list` and `describe` |
| Reconciler | `ReconcileKind`, and the code as a refinement of the state machine |

Code that rewrites objects or fills maps in loops is written as methods over classes and maps and
proved equal to specification functions; the laws are lemmas about those functions. Where Go ranges
over a map, the model takes the entries in any order.

## Conventions

- Texts that the code only compares with fixed words (types, inputs, states) are datatypes; the last
  constructor carries every other text, and the empty text has its own constructor or is
  `NO_INPUT`.
- `Compute` is taken to be injective. Times are integers in nanoseconds, 0 being Go's zero time.
- In a run (`Protocol.Next`) the clock never goes back, writes succeed only on the version that was
  read, the controller handles one reconcile of a run at a time, and a reconcile takes one clock
  value.
- An update in a run keeps the number, order, names and types of the entries, the requirement and the
  annotation (`Protocol.Submits`). The webhook compares entries by position and does not check this
  (`AdmissionLaws.RequirementIsNotCompared`, and `Witnesses.RequirementCanMove` for what follows);
  everything the client sends does it.
- The user name and groups the client acts with are those the request is authenticated with.
- A task starts as one the webhook admits on creation, with the hash annotation of its own list or
  none, before or after its first status write.
- Client runs (`CliRuns.IsCliRun`) are runs in which every update is the client's, from any task the
  webhook admits on creation: rosters may be filled and a user and a group may share a name. What the
  controller creates has distinct names and empty rosters (`Creation.AcceptedParamsAreAdmitted`).
- In `Timing`, the calls that were asked for write their status directly after their read, so without
  a conflict; all other reconciles may conflict or crash.

## Where code and documentation differ

- "If any one approver rejects, the task is rejected": a group-level rejection that no reconcile has
  seen yet is overwritten when another member approves, and the task is then approved
  (`Witnesses.RejectionOverwritten`). A rejection stands exactly while the last act on some entry was
  one (`History.RejectionsStandUntilOverwritten`), and then, and only then, a reconcile in time
  rejects (`History.OutcomeIsHistory`).
- The controller misses a group-level rejection that comes without any member's answer
  (`Witnesses.GroupRejectionCanBeMissed`). The documented decision is reached exactly when an answer
  can be shown or nothing is decided (`Protocol.DecisionExactlyWithAnswers`); in client runs it
  always is (`CliRuns.DecisionIsExact`).
- "A user can still change their input to reject": for as long as the task is open, if the user keeps
  carrying the same groups (`ChangeOfMind.ChangeOfMind`), but not through another group
  (`Witnesses.ChangedGroupsBlockRejection`). A recorded approver's rejection is turned away exactly
  when they have no individual entry and the first group that lists them or that they carry is not
  carried and lists them with approve (`ClientLaws.TurnedAwayExactly`, `ClientLaws.ReadAsApproval`).
- A recorded approver who approves again is turned away as already decided, but not one whom the task
  listed from the start in an earlier group they do not carry (`Witnesses.PresetMemberIsNotTurnedAway`;
  `ChangeOfMind.ChangeOfMind` says exactly when).
- One approval can count for two users: a rejection had put a colleague's approval out of force and
  the next approval through the same group brings it back (`Witnesses.ApprovalCanReviveAnother`). It
  adds exactly its author if and only if it brings back nobody new (`CliRuns.ApprovalAddsItsAuthor`);
  who counts after any history is `History.ApprovedUsersByHistory`.
- A final state is not quite final: an approved task whose run is not marked yet is rejected by a
  reconcile after the deadline (`Protocol.FinalMeansFinal` as the only exception,
  `Witnesses.UnmarkedApprovalCanExpire` as a run from every such state).
- A list of approvers given as a JSON string passes early validation and is denied on creation
  (`Creation.JsonListIsAcceptedThenDenied`); accepted parameters are admitted exactly when a name
  comes in array form.
- The example in the README lists a user and a group `tekton`. Names lose their prefix before they are
  compared, so the second one gets no entry (`Creation.GroupOfOneNameIsDropped`): a listed name gets an
  entry of its type if and only if the first name like it is of the same type
  (`Creation.OwnEntryExactly`).
- A user entry and a group entry of one name share one response. The users shown as approved are the
  users counted if and only if no answering group bears the name of an approving individual
  (`ControllerLaws.ApprovalsAreShownExactly`; `ControllerLaws.SharedNameHidesAnApproval` is a legal
  list on which it happens).

## Model

| member | source | states |
|---|---|---|
| Quorum.ApprovedUsers | pkg/reconciler/approvaltask/utils.go:487-508 | the users that count as approving: decided individuals and, under a group that reads approve, its approving members, each once |
| Quorum.CountApprovalsReceived | pkg/reconciler/approvaltask/utils.go:487-508 | the controller's count is the number of approved users |
| Quorum.ApprovalTaskHasTrueInput | pkg/reconciler/approvaltask/utils.go:462-485 | true exactly when the same set reaches the requirement |
| Quorum.ApprovalTaskHasFalseInput | pkg/reconciler/approvaltask/utils.go:453-460 | true exactly when some top-level input reads reject |
| Quorum.IsApprovalRequired | pkg/reconciler/webhook/webhook.go:279-310 | the webhook is open exactly below the same quorum and before a final state |
| Validation.ValidateUserName | pkg/reconciler/webhook/webhook.go:709-721 | accepts exactly non-blank names without the group prefix |
| Validation.ValidateRoster | pkg/reconciler/webhook/webhook.go:669-689 | the index map accepts exactly rosters of legal, distinct members |
| Validation.ValidateApprover | pkg/reconciler/webhook/webhook.go:641-693 | accepts exactly legal entries: type, name rules per type, input, roster of a group |
| Validation.ValidateApprovalTaskSpec | pkg/reconciler/webhook/webhook.go:609-639 | the index map accepts exactly specs with a positive requirement and a non-empty list of legal entries, unique by defaulted type and name |
| Validation.ValidateApproverInputsForCreate | pkg/reconciler/webhook/webhook.go:777-794 | accepts exactly lists in which nobody has decided |
| ValidationLaws.NamesExactly | pkg/reconciler/webhook/webhook.go:709-740 | user and group names, by their characters: some character that is not white space, no `group:` in front, no space or colon in a group name |
| ValidationLaws.StructureVerdictExactly | pkg/reconciler/webhook/webhook.go:107-125 | which proposals are malformed, which creations are admitted or turned away as decided, and that there is no third operation, all by the entries and names themselves |
| ValidationLaws.SpecsStayWellFormed | pkg/reconciler/webhook/webhook.go:599-693 | at every point of every run the spec has only such entries, members and names |
| Admission.IfUserExists | pkg/reconciler/webhook/webhook.go:251-277 | finds exactly individuals, carriers of a listed group and roster members; an empty list lets everyone pass (spelled out in `AdmissionLaws.NotListedExactly`) |
| Admission.FindDesiredInput | pkg/reconciler/webhook/webhook.go:449-487 | individual entry first, then per group the roster, then the group level |
| Admission.CheckIfUserAlreadyDecided | pkg/reconciler/webhook/webhook.go:445-516 | a recorded rejection blocks everything, a recorded approval blocks approving again, nothing else blocks |
| Admission.IsUserApprovalChanged | pkg/reconciler/webhook/webhook.go:332-443 | the verdict of the first entry that concerns the user and returns, out-of-range access included |
| Admission.CompareRosters | pkg/reconciler/webhook/webhook.go:570-592 | in any map order: nobody else's input changed, nobody but a member added themselves |
| Admission.CheckGroupEntry | pkg/reconciler/webhook/webhook.go:528-593 | for one group: foreign levels unchanged, and the roster comparison |
| Admission.CheckOtherUsersForInvalidChanges | pkg/reconciler/webhook/webhook.go:518-597 | the first entry with a foreign change or an out-of-range access decides, else it passes |
| Admission.AdmitRequest | pkg/reconciler/webhook/webhook.go:83-193 | the guards in their order, and which of them settles a request |
| AdmissionLaws.OthersCheckIsFrame | pkg/reconciler/webhook/webhook.go:518-597 | on legal lists of one skeleton the loop passes exactly when the single-author frame holds at every entry |
| AdmissionLaws.AdmittedExactly | pkg/reconciler/webhook/webhook.go:127-192 | an update is admitted if and only if the task is open, the user listed and not decided, their own input validly changed and the frame holds |
| AdmissionLaws.SingleAuthor | pkg/reconciler/webhook/webhook.go:332-443 | an admitted update leaves other individuals, other members' inputs and foreign groups' levels alone, adds nobody but the requester, and moves an input of theirs to approve or reject |
| AdmissionLaws.NotListedExactly | pkg/reconciler/webhook/webhook.go:251-277 | on an open task exactly those are turned away as not listed whom no entry of a non-empty list names: as an individual, by a carried group or on a roster |
| AdmissionLaws.RosterMemberIsAdmitted | pkg/reconciler/webhook/webhook.go:268-273 | a roster member with nothing on record who sets their own pending entry, carrying the group or not, is admitted if and only if no individual entry of theirs comes before |
| AdmissionLaws.RequirementIsNotCompared | pkg/reconciler/webhook/webhook.go:83-193 | the verdict on an update does not depend on which positive requirement it asks for |
| AdmissionLaws.EmptyListAdmitsNothing | pkg/reconciler/webhook/webhook.go:251-254 | the branch for an empty list never leads to admission |
| AdmissionLaws.NoCrash | pkg/reconciler/webhook/webhook.go:335-337 | positional indexing stays in range when the proposed list is at least as long |
| Verdicts.DesiredInputByPosition | pkg/reconciler/webhook/webhook.go:449-487 | whether a list reads approve for a requester: the first individual entry, else the first group carried or listing them, roster before level |
| Verdicts.OwnChangeExactly | pkg/reconciler/webhook/webhook.go:332-443 | what is found as the requester's own change: decided at the first entry of theirs that is individual or changed, level before roster |
| Verdicts.VerdictExactly | pkg/reconciler/webhook/webhook.go:127-192 | the verdict on every legal update that keeps entries in place, each of the six outcomes read off task, proposal and request |
| Verdicts.CutOffEntryCrashes | pkg/reconciler/webhook/webhook.go:335-337 | an update that cuts off the requester's own individual entry ends in the index panic |
| Store.ApiServer.Update | pkg/test/controller.go:56-75 | a spec write takes effect exactly on the current version and with admission, and leaves the status alone |
| Store.ApiServer.UpdateStatus | config/kubernetes/300-taskgroup.yaml:42-45 | a status write takes effect exactly on the current version and leaves the spec alone |
| Client.ContainsUsernameSearch | pkg/actions/actions.go:201-223 | passes exactly when an entry bears the user's name or is a carried group |
| Client.UpdateIndividuals | pkg/actions/actions.go:103-115 | the first pass sets input and message of the user's individual entries only, and the flag says whether there was one |
| Client.UpdateGroupEntry | pkg/actions/actions.go:118-155 | a carried group takes the input and, unless the user is an individual, the roster entry, however often the group is carried; other groups stay |
| Client.RecordMember | pkg/actions/actions.go:130-151 | overwrites the first member of that name or appends one |
| Client.UpdateInPlace | pkg/actions/actions.go:102-156 | the two in-place passes compute the entry-wise rewrite, individuals taking precedence over rosters |
| Client.SendRewrite | pkg/actions/actions.go:102-172 | whatever was written since the fetch: a conflict exactly on a stale object, the rewrite stored exactly on a current one that the webhook admits, else nothing changes |
| Client.RunUpdate | pkg/actions/actions.go:80-100 | an undisturbed call writes the rewrite exactly when the guard passes and the webhook admits it, else nothing changes |
| ClientLaws.CliUpdateSkeleton | pkg/actions/actions.go:102-156 | the rewrite keeps number, order, names and types |
| ClientLaws.UpdateRosterMembers | pkg/actions/actions.go:130-151 | afterwards the roster is everyone else as before and the user with the new input and message |
| ClientLaws.CliUpdatePreservesLegality | pkg/actions/actions.go:102-156 | for a valid user name the rewrite keeps everything the webhook validates |
| ClientLaws.LaterUpdateAbsorbs | pkg/actions/actions.go:102-156 | of two acts of one user with the same groups the later one wins |
| ClientLaws.UpdateIsIdempotent | pkg/actions/actions.go:102-156 | acting twice is acting once |
| ClientLaws.UpdatesCommute | pkg/actions/actions.go:102-156 | two users saying the same can act in either order, up to roster order |
| ClientLaws.EraseUpdate | pkg/actions/actions.go:110-149 | messages never influence anything but messages |
| ClientLaws.LaterUpdateAbsorbsModuloMessages | pkg/actions/actions.go:102-156 | absorption without any condition on messages once these are disregarded |
| ClientLaws.UpdatesCommuteModuloMessages | pkg/actions/actions.go:102-156 | the same for commutation |
| ClientLaws.RejectionSurvivesApproval | pkg/actions/actions.go:102-156 | one approval leaves a rejection standing if and only if a rejecting entry was not the approver's to set; over runs see History |
| ClientLaws.CliOwnChange | pkg/reconciler/webhook/webhook.go:332-443 | the webhook sees a valid own change in a client rewrite exactly when an input moves no later than the user's individual entry |
| ClientLaws.CliUpdateFrame | pkg/reconciler/webhook/webhook.go:518-597 | a client rewrite never touches what is not the user's |
| ClientLaws.DesiredInputExactly | pkg/reconciler/webhook/webhook.go:449-487 | which client rewrites the webhook reads as an approval, from the list before the act and the carried groups |
| ClientLaws.TurnedAwayExactly | pkg/reconciler/webhook/webhook.go:445-516 | a participant of an open task is turned away as already decided if and only if a rejection is on record, or an approval is and the act is read as another one |
| ClientLaws.ClientAdmittedExactly | pkg/reconciler/webhook/webhook.go:127-192 | what the client sends is admitted if and only if the user name is valid, the task open, the record does not settle the act and an input moves: all of it read off the stored task and the request |
| ClientLaws.FreshUserIsAdmitted | pkg/reconciler/webhook/webhook.go:332-443 | a listed user or carrier who has not acted is admitted, wherever their entries are |
| ClientLaws.GuardStopsNothingAdmissible | pkg/actions/actions.go:201-223 | the client's guard never stops what the webhook would admit |
| ClientLaws.GuardExactlyParticipants | pkg/actions/actions.go:201-223 | on a legal list the guard passes exactly those an act would touch something for, and bearers of a group's name |
| Controller.CollectUsers | pkg/reconciler/approvaltask/utils.go:550-569 | the first pass records exactly the decided individuals |
| Controller.CollectMembers | pkg/reconciler/approvaltask/utils.go:574-609 | members already listed as individuals are skipped; rejections prevail |
| Controller.CollectGroups | pkg/reconciler/approvaltask/utils.go:571-621 | the second pass adds the groups with an answer, keyed by bare name |
| Controller.ListResponses | pkg/reconciler/approvaltask/utils.go:623-631 | every map value is listed once, in any order |
| Controller.UpdateApprovalState | pkg/reconciler/approvaltask/utils.go:541-655 | the status written, both counters, the next state; nothing written without a responder |
| Controller.CheckIfUpdateRequired | pkg/reconciler/approvaltask/utils.go:510-539 | nothing happens behind a closed hash gate; otherwise the run is marked as the state says, unless the write conflicts |
| Controller.Reconcile | pkg/reconciler/approvaltask/approvaltask.go:210-244 | start time, timeout branch, gated update, requeue delay; a conflict leaves run and task alone |
| ControllerLaws.GuardExactly | pkg/reconciler/approvaltask/utils.go:623 | the guard passes exactly when a decided individual, or a decided member of a decided group, exists |
| ControllerLaws.RecordedExactly | pkg/reconciler/approvaltask/utils.go:541-631 | with distinct names the responses record exactly the answers of the spec, in any order |
| ControllerLaws.NobodyListedTwice | pkg/reconciler/approvaltask/utils.go:579-584 | nobody is both an individual response and a group member response |
| ControllerLaws.ApprovalsAreShown | pkg/reconciler/approvaltask/utils.go:623-635 | with distinct names and no rejection the users shown as approved are the users counted, and `approvalsReceived` is their number |
| ControllerLaws.ApprovalsAreShownExactly | pkg/reconciler/approvaltask/utils.go:547-635 | for every legal spec without rejection: the users shown as approved are those counted, and `approvalsReceived` is their number, if and only if no answering group bears the name of an approving individual |
| ControllerLaws.SecondReconcileOnlyShuffles | pkg/reconciler/approvaltask/utils.go:623-635 | of two reconciles in a row the second writes exactly if the first did, asks for the same mark and only shuffles the responses |
| ControllerLaws.SharedNameHidesAnApproval | pkg/reconciler/approvaltask/utils.go:612 | a legal list of a user and a group of one name on which a counted approval is shown nowhere |
| ControllerLaws.AnnotationExactly | pkg/reconciler/approvaltask/utils.go:510-539 | of any task: one annotated with its own list is left alone, any other is written exactly if somebody can be shown, and the run marked as the state then says |
| StatusLaws.IndividualResponseExactly | pkg/reconciler/approvaltask/utils.go:550-569 | a listed individual response gives name, answer and message of an individual's entry |
| StatusLaws.GroupResponseExactly | pkg/reconciler/approvaltask/utils.go:571-621 | a listed group response gives the group's message and the answers of exactly its members without a decided individual entry, and is rejected if and only if one of these rejects, else approved |
| StatusLaws.MembersKeepOrder | pkg/reconciler/approvaltask/utils.go:577-601 | members are listed in roster order |
| StatusLaws.StoredGroupsAreAnswers | pkg/reconciler/approvaltask/utils.go:604-609 | at every point of every run a stored group response is rejected if and only if a member listed with it rejects, else approved |
| StatusLaws.CountersAreRight | pkg/reconciler/approvaltask/utils.go:632-644 | at every point of every run the status names the approvers it was created with and shows the requirement, and an approved one counts the users who approved |
| StatusLaws.WrittenCounters | pkg/reconciler/approvaltask/utils.go:632-635 | a reconcile in time writes the current requirement and quorum count |
| StatusLaws.ExpiryKeepsTheRest | pkg/reconciler/approvaltask/approvaltask.go:218-228 | a reconcile after the deadline rejects and keeps everything shown and counted |
| Creation.ValidateApproversParam | pkg/reconciler/approvaltask/utils.go:131-192 | error-free exactly on parsable lists of valid approver texts, counting all of them |
| Creation.ValidateCustomRunParameters | pkg/reconciler/approvaltask/utils.go:96-129 | accepts exactly parameters whose approvers and requirements are all valid and whose last list is not empty |
| Creation.CollectNames | pkg/reconciler/approvaltask/utils.go:357-383 | the loop with its two maps grows the two lists name by name |
| Creation.CreateApprovalTask | pkg/reconciler/approvaltask/utils.go:340-451 | what is stored, and that it is stored exactly when the webhook admits it; pending, with nothing counted, and with the requirement the last such parameter gives, 1 without one |
| Creation.RequirementByPosition | pkg/reconciler/approvaltask/utils.go:384-389 | the requirement is readable exactly if every such parameter is, and then it is that of the last one, 1 without one |
| CreationLaws.ApprovedAsAskedFor | pkg/reconciler/approvaltask/utils.go:384-389 | a run from a task so created is approved only by as many distinct users as the last requirement parameter asks for |
| CreationLaws.ApproverTextExactly | pkg/reconciler/approvaltask/utils.go:44-94 | the early check accepts exactly user names, and `group:` with a group name, in which no space stands next to a colon |
| CreationLaws.EarlyValidationExactly | pkg/reconciler/approvaltask/utils.go:96-129 | parameters are accepted exactly if every requirement is positive, every list of approvers can be read and the last one lists somebody |
| CreationLaws.AllNamesConcat | pkg/reconciler/approvaltask/utils.go:356-358 | names are taken from all parameters, one after the other |
| CreationLaws.AllNamesOfOne | pkg/reconciler/approvaltask/utils.go:356-358 | of one parameter they are its array form if it is one of approvers |
| CreationLaws.StatusNamesByPosition | pkg/reconciler/approvaltask/utils.go:359-382 | the status lists in order the stripped names at exactly the positions whose name is not what an earlier one strips to |
| CreationLaws.TextRoundTrip | pkg/reconciler/approvaltask/utils.go:359-374 | writing an entry as a parameter and creating a task from it gives name and type back |
| Creation.ListsHoldStrippedNames | pkg/reconciler/approvaltask/utils.go:357-383 | spec entries and status names are exactly the stripped names |
| Creation.NamesAreDeduplicated | pkg/reconciler/approvaltask/utils.go:357-383 | the entries are the first occurrences of the stripped names, in order, all pending |
| Creation.OwnEntryExactly | pkg/reconciler/approvaltask/utils.go:359-378 | a listed name gets an entry of its own type if and only if the first name that strips to the same text has or lacks the prefix as it does |
| Creation.GroupOfOneNameIsDropped | README.md:17-18 | of a user and a group `tekton`, listed in this order, the group gets no entry |
| Creation.AcceptedParamsAreAdmitted | pkg/reconciler/approvaltask/utils.go:340-451 | of accepted parameters the created task is admitted if and only if a name came in array form; then it starts a run with distinct names and empty rosters |
| Creation.JsonListIsAcceptedThenDenied | pkg/reconciler/approvaltask/utils.go:177-188 | a list given as a JSON string is accepted and cannot be created |
| Protocol.InvIsKept | pkg/reconciler/approvaltask/approvaltask.go:192-244 | every step keeps legality, skeleton, start time, justified states, matching marks and justified planned writes |
| Protocol.RunInv | pkg/reconciler/webhook/webhook.go:599-693 | the invariant, legality of the spec included, holds in every reachable state |
| Protocol.TaskAndRunAgree | pkg/reconciler/approvaltask/utils.go:520-536 | with crashes anywhere: succeeded run means approved task, failed run rejected task, approved task means quorum and no rejection, rejected task a rejection or a passed deadline |
| Protocol.FinalMeansFinal | pkg/reconciler/webhook/webhook.go:279-283 | the only exit from a final state is approved to rejected, by a status write after the deadline, before the run is marked; the spec of a final task never moves |
| Protocol.StaysFinal | pkg/reconciler/approvaltask/approvaltask.go:117-120 | final stays final, rejected stays rejected, and a marked run fixes run and state for good |
| Protocol.PendingListIsUndecided | pkg/reconciler/webhook/webhook.go:777-794 | a list as created has no rejection, no quorum and no responder |
| Protocol.HashGateIsSound | pkg/reconciler/approvaltask/utils.go:510-539 | in every reachable state a reconcile can do with the hash gate exactly what it can do without |
| Protocol.DecisionExactlyWithAnswers | pkg/reconciler/approvaltask/utils.go:623-644 | over all admitted updates a reconcile in time leaves the documented state if and only if an answer can be shown or nothing is decided |
| Protocol.CrashIsRepaired | pkg/reconciler/approvaltask/utils.go:520-536 | on a final task the next uninterrupted reconcile marks the run, in agreement with the task |
| Protocol.OwnApprovalsAreAuthored | pkg/reconciler/webhook/webhook.go:519-597 | an entry that reads approve for a user does so since an admitted update that user requested |
| Protocol.ApprovedByAQuorum | pkg/reconciler/approvaltask/utils.go:462-485 | an approved task has at least the required number of distinct users, each the requester of an admitted update leaving their own entry at approve |
| Protocol.RosterIsJoined | pkg/reconciler/webhook/webhook.go:581-592 | on tasks with initially empty rosters every listed member joined by a request of their own that carried the group |
| CliRuns.CliInvIsKept | pkg/actions/actions.go:102-156 | once somebody has acted there is an answer to show, and only then are there responses |
| CliRuns.DecisionIsExact | pkg/reconciler/approvaltask/utils.go:637-644 | in every client run, whatever the task was created with, a reconcile in time leaves rejected on a rejection, approved on a quorum, undecided otherwise |
| CliRuns.CompleteReconcileSettles | pkg/reconciler/approvaltask/utils.go:520-536 | an uninterrupted reconcile in time leaves the run failed, succeeded or waiting as the documented rule wants |
| CliRuns.ApprovalAdds | pkg/reconciler/approvaltask/utils.go:487-508 | on any legal list one approval adds its author and the members it brings back into force, and nobody else |
| CliRuns.ApprovalAddsItsAuthor | pkg/actions/actions.go:102-156 | it adds exactly its author if and only if everybody it brings back counts anyway; where nothing was rejected it brings back nobody |
| CliRuns.QuorumIsExact | pkg/reconciler/webhook/webhook.go:285-309 | without rejections the approved users are the users who acted, never more than required, and at the requirement every update is denied |
| History.EntryHistory | pkg/actions/actions.go:102-156 | at every point of a client run an entry reads what the last act that touched it asked for |
| History.RosterHistory | pkg/actions/actions.go:130-151 | a group holds a decided input of a user exactly if that user is no individual and last carried the group with that input; the same of any input if the user was not listed from the start |
| History.RejectionsStandUntilOverwritten | README.md:35 | over every client run the list carries a rejection exactly while the last act on some entry was one |
| History.ApprovedUsersByHistory | pkg/reconciler/approvaltask/utils.go:487-508 | over every client run, rejections included, who counts as approving, from the acts alone |
| History.OutcomeIsHistory | README.md:35 | a reconcile in time rejects exactly if a rejection stands, and approves exactly if none does and enough users count, both read off the acts |
| Messages.EntryMessageHistory | pkg/actions/actions.go:110-125 | at every point of a client run an entry bears the message of the last act that touched it and gave one, else its first |
| Messages.RosterMessageHistory | pkg/actions/actions.go:130-151 | a group lists a user with input and message of the last act in which they carried it; individuals, and whoever did not yet, as at the start |
| Messages.ListedMessage | pkg/reconciler/approvaltask/utils.go:550-569 | the response listed for an individual bears that message |
| Messages.ListedMemberMessage | pkg/reconciler/approvaltask/utils.go:577-601 | the response listed for a member bears answer and message of their last act that carried the group |
| ChangeOfMind.OneVoiceRun | pkg/actions/actions.go:118-155 | on the rosters a user whose acts carry the same groups has the input of their last act in every carried group, and is still pending wherever else they were listed from the start |
| ChangeOfMind.RecordInvIsKept | pkg/reconciler/approvaltask/utils.go:541-631 | every step keeps that an approval on record, stored or about to be written, stands alone and belongs to a participant |
| ChangeOfMind.DesiredInputOfAct | pkg/reconciler/webhook/webhook.go:449-487 | the webhook reads off a client rewrite what the user asked for, if they are an individual or no other group than the carried ones lists them |
| ChangeOfMind.ApprovingAgainIsDenied | pkg/reconciler/webhook/webhook.go:489-513 | whatever the list looks like by now, approving again after a recorded approval is denied as already decided exactly while the task is open and the act is read as an approval, which it is if no group outside the carried ones lists the user |
| ChangeOfMind.RejectingIsAdmitted | README.md:36 | rejecting after a recorded approval is admitted if and only if the task is open and an input moves |
| ChangeOfMind.RejectionMoves | README.md:36 | an own entry that reads approve makes a rejection move, and where none moves the list reads reject already |
| ChangeOfMind.RejectionIsDecided | pkg/reconciler/approvaltask/utils.go:640-641 | the reconcile right after a client rejection, in time, rejects |
| ChangeOfMind.ChangeOfMind | README.md:36 | at every point of every client run at which the stored status records the approval of a user with steady groups: approving again is denied as already decided exactly if it is read as an approval (always, unless a group they do not carry listed them from the start), rejecting is admitted exactly while the task is open and an input moves (it does after an approval; otherwise the list reads reject already), and the next reconcile in time rejects |
| Witnesses.RejectionOverwritten | README.md:35 | a run in which a rejection and a colleague's approval are both admitted and every reconcile in time approves |
| Witnesses.ApprovalCanReviveAnother | pkg/reconciler/approvaltask/utils.go:468-482 | a run in which one approval adds two approved users |
| Witnesses.ChangedGroupsBlockRejection | pkg/reconciler/webhook/webhook.go:461-487 | a run after which the webhook turns away the rejection of a recorded approver who carries another group |
| Witnesses.PresetMemberIsNotTurnedAway | pkg/reconciler/webhook/webhook.go:461-487 | a run after which a recorded approver, listed from the start in another group, is not turned away as already decided |
| Witnesses.GroupRejectionCanBeMissed | pkg/reconciler/approvaltask/utils.go:623 | a run with an admitted group-level rejection after which every reconcile in time leaves the task undecided |
| Witnesses.RequirementCanMove | pkg/reconciler/webhook/webhook.go:83-193 | an admitted update that lowers the requirement from two to one, after which one user approves the task |
| Witnesses.UnmarkedApprovalCanExpire | pkg/reconciler/approvaltask/approvaltask.go:218-228 | from every reachable approved task whose run is not marked, a crash, the deadline and a reconcile lead to a rejected task and a failed run |
| Witnesses.ApprovedButUnmarked | pkg/reconciler/approvaltask/utils.go:520-536 | such a state is reachable |
| Timing.StartIsFixedAndDelaysArePositive | pkg/reconciler/approvaltask/approvaltask.go:210-241 | the effective start is the creation time at every step, and a reconcile asks to come back after the time left, after a second when none is, and not at all only when overdue |
| Timing.RejectedForAReason | pkg/apis/approvaltask/v1alpha1/approvaltask_types.go:156-163 | a rejected task has a rejection in its spec, or a creation time that is set and more than the timeout ago |
| Timing.LateReconcileFinishes | pkg/apis/approvaltask/v1alpha1/approvaltask_types.go:156-163 | a reconcile after the deadline leaves the task final at that time |
| Timing.FinalOnceServed | pkg/reconciler/approvaltask/approvaltask.go:214-241 | for any timeout: once one reconcile was served by start + timeout + 1 s and further ones when asked for, the task is final by then |
| Timing.FinalWithinASecondOfTheDeadline | pkg/reconciler/approvaltask/approvaltask.go:214-241 | if reconciles run when asked, beginning with what the creating call asks for, and these calls meet no conflict, the task is final by start + timeout + 1 s, and rejected if nothing was decided |
| Views.PendingApprovals | pkg/cli/cmd/list/list.go:43-61 | for any status: the requirement minus the number of distinct users named as responding |
| Views.RejectedCount | pkg/cli/cmd/list/list.go:63-87 | for any status: the number of distinct users shown as rejecting |
| Views.RespondentsAreShown | pkg/cli/cmd/list/list.go:43-61 | of a status the controller wrote, the respondents are the users shown as approving or rejecting |
| Views.ViewsAgree | pkg/cli/cmd/list/list.go:43-87 | in client runs without rejections, right after a reconcile in time, rejected is 0 and pending is never below requirement minus quorum count nor below 0, and it is that number if and only if no answering group bears the name of an approving individual |
| Views.UserGroups | pkg/cli/cmd/describe/describe.go:110-148 | the map is the transpose: each user with the groups listing them in response order, first response and message, joined text, and as many memberships as member entries |
| Views.JoinCanBeReadBack | pkg/cli/cmd/describe/describe.go:134-147 | the printed text, cut at comma and space, gives a user's groups back in order |
| Views.FirstMembershipByPosition | pkg/cli/cmd/describe/describe.go:115-132 | response and message shown for a user are those of the first member entry of that name, by response and place in it |
| Views.GroupsAreTheListingOnes | pkg/cli/cmd/describe/describe.go:115-132 | when no group lists anyone twice these are the names of the group responses listing the user |
| Views.DescribedGroupsAreTheListingOnes | pkg/cli/cmd/describe/describe.go:115-132 | and so it is of the stored status at every point of every run |
| Reconciler.ReadTimeout | pkg/reconciler/approvaltask/approvaltask.go:139-155 | the run's own timeout, else the first timeout parameter, else 3600 s, by position; fails exactly when that parameter cannot be read |
| Reconciler.TimeoutByPosition | pkg/reconciler/approvaltask/approvaltask.go:139-155 | a timeout can be read exactly if one is given, and the one given is in force |
| Reconciler.DeadlineExactly | pkg/apis/approvaltask/v1alpha1/approvaltask_types.go:156-163 | a reconcile fails the run of a waiting task exactly when more time has passed than given, and else leaves the state |
| Reconciler.StoreCreated | pkg/reconciler/approvaltask/utils.go:424-450 | creation leaves the task with its first status and hands on an object one version behind |
| Reconciler.FinishReconcile | pkg/reconciler/approvaltask/approvaltask.go:210-244 | on a task object that may be stale: the Read step of the task as fetched and a WriteStatus step from the task as it is by now, falling back to idle exactly when a status has to be written on a stale object, else followed by MarkRun |
| Reconciler.ReconcileKind | pkg/reconciler/approvaltask/approvaltask.go:101-190 | a done run is left alone, bad parameters fail the run, otherwise an undisturbed call is the steps Read, WriteStatus and MarkRun of the protocol; and it fails the run of an undecided task exactly once more time has passed than the timeout given |
| Reconciler.ReconcileNew | pkg/reconciler/approvaltask/utils.go:260-289 | without a task, accepted parameters create a task that starts a run, exactly when a name came in array form; the run stays running, and the call asks to be called again after the timeout unless the task is overdue at once |
| Reconciler.ClientCall | pkg/actions/actions.go:80-156 | a client call is an Act step whenever the webhook would allow it, else it changes nothing |

## Left out

- Protocol.ApprovedByAQuorum: like every statement over runs, assumes that updates keep the number, order, names and types of entries, the requirement and the annotation; the webhook does not compare these, so nothing is claimed about runs in which they change. `Witnesses.RequirementCanMove` shows that the requirement can.
- Protocol.TaskAndRunAgree: runs failed by parameter validation before a task exists are not part of a run of the protocol; `Reconciler.ReconcileKind` covers them.
- Timing.FinalWithinASecondOfTheDeadline: assumes that reconciles are called when they ask and that these calls meet no conflict, a creation time other than zero and a timeout that is not negative; with a negative one the creating call ends in a conflict and asks for nothing, and `Timing.FinalOnceServed` says what holds.
- ChangeOfMind.ChangeOfMind: assumes that the user's acts all carry the same groups, without which it is false; `ClientLaws.TurnedAwayExactly` has the exact condition for any groups.
- ClientLaws.LaterUpdateAbsorbs: a message of the first act survives on an entry when the second act gives none; the lemma modulo messages has no such condition.
- Clock values within one reconcile: the code reads the clock twice, the model once.
- Messages and the description as written by raw updates: the webhook does not compare them.
- JSON, SHA-256, integer and duration parsing: represented by their results.
- The embedded CustomSpec path: marked as unfinished in the code and never stores a task.
- Kubernetes clients, informers, webhook configuration and certificates, events, labels and annotations other than the hash, ExtraFields, printing and colours: no part in the decision.
- Error texts: only which guard fired.
