/** The API server as the three parties see it: one stored task, read by copy and written under
    optimistic concurrency. Spec and status are written separately, status being a subresource;
    only spec writes go through the webhook. */
module Store {
  import opened ApprovalTypes
  import opened Admission

  /** A decoded `*v1alpha1.ApprovalTask` in a client's memory. */
  class TaskObject {
    var approvers: seq<Approver>
    var required: int
    var status: Status
    var hash: Option<Hash>
    var creation: int
    var version: nat

    constructor (task: Task, version: nat)
      ensures Value() == task && this.version == version
    {
      approvers := task.spec.approvers;
      required := task.spec.required;
      status := task.status;
      hash := task.hash;
      creation := task.creation;
      this.version := version;
    }

    function Value(): Task
      reads this
    {
      Task(Spec(approvers, required), status, hash, creation)
    }
  }

  datatype WriteResult = Written | Conflict | Denied(verdict: Verdict)

  class ApiServer {
    var task: Task
    var version: nat

    constructor (task: Task)
      ensures this.task == task && version == 0
    {
      this.task := task;
      version := 0;
    }

    method Get() returns (obj: TaskObject)
      ensures fresh(obj) && obj.Value() == task && obj.version == version
    {
      obj := new TaskObject(task, version);
    }

    /** A write of the main resource: refused on a stale version or by the webhook; the status
        part of the object is ignored. */
    method Update(obj: TaskObject, req: Requester) returns (result: WriteResult)
      modifies this
      ensures result.Conflict? <==> obj.version != old(version)
      ensures result.Denied? ==> result.verdict != Allowed
                                 && result.verdict == Admit(Operation.Update, old(task), obj.Value().spec, req)
      ensures result.Written? ==> Admit(Operation.Update, old(task), obj.Value().spec, req) == Allowed
      ensures if result.Written?
              then task == old(task).(spec := obj.Value().spec, hash := obj.hash) && version == old(version) + 1
              else task == old(task) && version == old(version)
    {
      if obj.version != version {
        return Conflict;
      }
      var verdict := AdmitRequest(Operation.Update, task, obj.Value().spec, req);
      if verdict != Allowed {
        return Denied(verdict);
      }
      task := task.(spec := obj.Value().spec, hash := obj.hash);
      version := version + 1;
      return Written;
    }

    /** A write of the status subresource: refused only on a stale version. */
    method UpdateStatus(obj: TaskObject) returns (ok: bool)
      modifies this
      ensures ok <==> obj.version == old(version)
      ensures if ok
              then task == old(task).(status := obj.status) && version == old(version) + 1
              else task == old(task) && version == old(version)
    {
      ok := obj.version == version;
      if ok {
        task := task.(status := obj.status);
        version := version + 1;
      }
    }
  }
}
