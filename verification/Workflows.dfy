/** Versioned workflows, and the schedules that run them on devices
    (backend/open_webui/models/browser_extension.py, BrowserWorkflowTable and
    BrowserScheduleTable). */
module Workflows {
  import opened Collections
  import D = Devices

  type Id = string

  /** `body` stands for the name and the encrypted definition. */
  datatype Workflow = Workflow(userId: Id, body: string, version: int)

  /** `body` stands for the name, the recurrence rule and the time zone. */
  datatype Schedule = Schedule(
    userId: Id,
    workflowId: Id,
    deviceId: Id,
    body: string,
    isActive: bool,
    lastRunAt: Option<int>,
    nextRunAt: Option<int>,
    catchUpPending: bool)

  datatype State = State(workflows: map<Id, Workflow>, devices: D.Devices, schedules: map<Id, Schedule>)

  datatype Operation =
    | OnDevices(op: D.Operation)
    | InsertWorkflow(id: Id, userId: Id, body: string, version: int)
    | UpdateWorkflow(id: Id, userId: Id, expectedVersion: int, body: string)
    | DeleteWorkflow(id: Id, userId: Id)
    | InsertSchedule(id: Id, userId: Id, workflowId: Id, deviceId: Id, body: string, isActive: bool,
        nextRunAt: Option<int>, catchUpPending: bool)
    | UpdateSchedule(id: Id, userId: Id, workflowId: Id, deviceId: Id, body: string, isActive: bool,
        nextRunAt: Option<int>)
    | MarkRun(id: Id, userId: Id, lastRunAt: int, nextDue: int)
    | DeleteSchedule(id: Id, userId: Id)

  /** The user owns the workflow and an active device: what a schedule may refer to. */
  predicate MayRefer(s: State, userId: Id, workflowId: Id, deviceId: Id) {
    && workflowId in s.workflows && s.workflows[workflowId].userId == userId
    && deviceId in s.devices && s.devices[deviceId].userId == userId && s.devices[deviceId].revokedAt.None?
  }

  predicate OwnsSchedule(s: State, id: Id, userId: Id) {
    id in s.schedules && s.schedules[id].userId == userId
  }

  predicate Succeeds(s: State, op: Operation) {
    match op
    case OnDevices(op) => D.Succeeds(s.devices, op)
    case InsertWorkflow(id, _, _, _) => id !in s.workflows
    case UpdateWorkflow(id, userId, expectedVersion, _) =>
      id in s.workflows && s.workflows[id].userId == userId && s.workflows[id].version == expectedVersion
    case DeleteWorkflow(id, userId) => id in s.workflows && s.workflows[id].userId == userId
    case InsertSchedule(id, userId, workflowId, deviceId, _, _, _, _) =>
      MayRefer(s, userId, workflowId, deviceId) && id !in s.schedules
    case UpdateSchedule(id, userId, workflowId, deviceId, _, _, _) =>
      MayRefer(s, userId, workflowId, deviceId) && OwnsSchedule(s, id, userId)
    case MarkRun(id, userId, lastRunAt, _) =>
      && OwnsSchedule(s, id, userId) && s.schedules[id].isActive
      && (s.schedules[id].lastRunAt.None? || s.schedules[id].lastRunAt.value < lastRunAt)
    case DeleteSchedule(id, userId) => OwnsSchedule(s, id, userId)
  }

  /** Schedules left when a workflow of the user goes; run whether or not the workflow is there. */
  function SchedulesWithout(s: State, workflowId: Id, userId: Id): map<Id, Schedule> {
    map k | k in s.schedules && !(s.schedules[k].workflowId == workflowId && s.schedules[k].userId == userId) ::
      s.schedules[k]
  }

  function Step(s: State, op: Operation): State {
    match op
    case DeleteWorkflow(id, userId) =>
      State(
        if Succeeds(s, op) then s.workflows - {id} else s.workflows,
        s.devices,
        SchedulesWithout(s, id, userId))
    case OnDevices(op) => s.(devices := D.Step(s.devices, op))
    case _ => if Succeeds(s, op) then Effect(s, op) else s
  }

  function Effect(s: State, op: Operation): State
    requires Succeeds(s, op) && !op.OnDevices? && !op.DeleteWorkflow?
  {
    match op
    case InsertWorkflow(id, userId, body, version) =>
      s.(workflows := s.workflows[id := Workflow(userId, body, version)])
    case UpdateWorkflow(id, userId, expectedVersion, body) =>
      s.(workflows := s.workflows[id := Workflow(userId, body, expectedVersion + 1)])
    case InsertSchedule(id, userId, workflowId, deviceId, body, isActive, nextRunAt, catchUpPending) =>
      s.(schedules := s.schedules[id :=
        Schedule(userId, workflowId, deviceId, body, isActive, None, nextRunAt, catchUpPending)])
    case UpdateSchedule(id, userId, workflowId, deviceId, body, isActive, nextRunAt) =>
      s.(schedules := s.schedules[id := s.schedules[id].(
        workflowId := workflowId, deviceId := deviceId, body := body, isActive := isActive,
        nextRunAt := nextRunAt, catchUpPending := false)])
    case MarkRun(id, _, lastRunAt, nextRunAt) =>
      s.(schedules := s.schedules[id := s.schedules[id].(
        lastRunAt := Some(lastRunAt), nextRunAt := Some(nextRunAt), catchUpPending := false)])
    case DeleteSchedule(id, _) => s.(schedules := s.schedules - {id})
  }

  class BrowserAutomation {
    var workflows: map<Id, Workflow>
    var schedules: map<Id, Schedule>
    const deviceTable: D.BrowserPairedDeviceTable

    constructor ()
      ensures View() == State(map[], map[], map[])
      ensures fresh(deviceTable)
    {
      workflows, schedules := map[], map[];
      deviceTable := new D.BrowserPairedDeviceTable();
    }

    function View(): State
      reads this, deviceTable
    {
      State(workflows, deviceTable.devices, schedules)
    }

    method InsertWorkflow(id: Id, userId: Id, body: string, version: int) returns (ok: bool)
      modifies this
      ensures var op := Operation.InsertWorkflow(id, userId, body, version);
        View() == Step(old(View()), op) && ok == Succeeds(old(View()), op)
    {
      if id in workflows {
        return false;
      }
      workflows := workflows[id := Workflow(userId, body, version)];
      return true;
    }

    method UpdateWorkflow(id: Id, userId: Id, expectedVersion: int, body: string) returns (row: Option<Workflow>)
      modifies this
      ensures var op := Operation.UpdateWorkflow(id, userId, expectedVersion, body);
        View() == Step(old(View()), op) && row == if Succeeds(old(View()), op) then Some(workflows[id]) else None
    {
      if id !in workflows || workflows[id].userId != userId || workflows[id].version != expectedVersion {
        return None;
      }
      row := Some(Workflow(userId, body, expectedVersion + 1));
      workflows := workflows[id := row.value];
    }

    method DeleteWorkflow(id: Id, userId: Id) returns (deleted: bool)
      modifies this
      ensures var op := Operation.DeleteWorkflow(id, userId);
        View() == Step(old(View()), op) && deleted == Succeeds(old(View()), op)
    {
      schedules := SchedulesWithout(View(), id, userId);
      if id !in workflows || workflows[id].userId != userId {
        return false;
      }
      workflows := workflows - {id};
      return true;
    }

    /** Refused, by an exception, unless the user owns the workflow and an active device. */
    method InsertSchedule(id: Id, userId: Id, workflowId: Id, deviceId: Id, body: string, isActive: bool,
        nextRunAt: Option<int>, catchUpPending: bool) returns (ok: bool)
      modifies this
      ensures var op := Operation.InsertSchedule(
          id, userId, workflowId, deviceId, body, isActive, nextRunAt, catchUpPending);
        View() == Step(old(View()), op) && ok == Succeeds(old(View()), op)
    {
      if !MayRefer(View(), userId, workflowId, deviceId) || id in schedules {
        return false;
      }
      schedules := schedules[id :=
        Schedule(userId, workflowId, deviceId, body, isActive, None, nextRunAt, catchUpPending)];
      return true;
    }

    /** Raises like an insert; a schedule that is not the user's is not found. */
    method UpdateSchedule(id: Id, userId: Id, workflowId: Id, deviceId: Id, body: string, isActive: bool,
        nextRunAt: Option<int>) returns (ok: bool, raised: bool)
      modifies this
      ensures var op := Operation.UpdateSchedule(id, userId, workflowId, deviceId, body, isActive, nextRunAt);
        View() == Step(old(View()), op) && ok == Succeeds(old(View()), op)
      ensures raised == !MayRefer(old(View()), userId, workflowId, deviceId)
    {
      if !MayRefer(View(), userId, workflowId, deviceId) {
        return false, true;
      }
      if !OwnsSchedule(View(), id, userId) {
        return false, false;
      }
      schedules := schedules[id := schedules[id].(
        workflowId := workflowId, deviceId := deviceId, body := body, isActive := isActive,
        nextRunAt := nextRunAt, catchUpPending := false)];
      return true, false;
    }

    method MarkRun(id: Id, userId: Id, lastRunAt: int, nextRunAt: int) returns (ok: bool)
      modifies this
      ensures var op := Operation.MarkRun(id, userId, lastRunAt, nextRunAt);
        View() == Step(old(View()), op) && ok == Succeeds(old(View()), op)
    {
      if id !in schedules || schedules[id].userId != userId || !schedules[id].isActive {
        return false;
      }
      var schedule := schedules[id];
      if schedule.lastRunAt.Some? && schedule.lastRunAt.value >= lastRunAt {
        return false;
      }
      schedules := schedules[id := schedule.(
        lastRunAt := Some(lastRunAt), nextRunAt := Some(nextRunAt), catchUpPending := false)];
      return true;
    }

    method DeleteSchedule(id: Id, userId: Id) returns (deleted: bool)
      modifies this
      ensures var op := Operation.DeleteSchedule(id, userId);
        View() == Step(old(View()), op) && deleted == Succeeds(old(View()), op)
    {
      if id !in schedules || schedules[id].userId != userId {
        return false;
      }
      schedules := schedules - {id};
      return true;
    }
  }

  // ------------------------------------------------------------------ references

  // ------------------------------------------------------------------ what each operation stores

  /** Inserting a workflow stores it under a new id; updating one succeeds exactly for its owner at the
      expected version, and stores the new body one version up. */
  lemma WorkflowStores(s: State, id: Id, userId: Id, version: int, body: string)
    ensures var insert := InsertWorkflow(id, userId, body, version);
      var update := UpdateWorkflow(id, userId, version, body);
      && Succeeds(s, insert) == (id !in s.workflows)
      && Step(s, insert) == (if id in s.workflows then s
        else State(s.workflows[id := Workflow(userId, body, version)], s.devices, s.schedules))
      && Succeeds(s, update) ==
        (id in s.workflows && s.workflows[id].userId == userId && s.workflows[id].version == version)
      && Step(s, update) == (if !Succeeds(s, update) then s
        else State(s.workflows[id := Workflow(userId, body, version + 1)], s.devices, s.schedules))
  {
  }

  /** Deleting a workflow succeeds exactly for its owner; it takes the user's schedules that refer to
      it, whether or not it is there. */
  lemma WorkflowDeletionStores(s: State, id: Id, userId: Id)
    ensures var (op, after) := (DeleteWorkflow(id, userId), Step(s, DeleteWorkflow(id, userId)));
      && Succeeds(s, op) == (id in s.workflows && s.workflows[id].userId == userId)
      && after.workflows.Keys == (if Succeeds(s, op) then s.workflows.Keys - {id} else s.workflows.Keys)
      && (forall w :: w in after.workflows ==> after.workflows[w] == s.workflows[w])
      && after.devices == s.devices
      && (forall k :: k in after.schedules <==>
        k in s.schedules && (s.schedules[k].workflowId != id || s.schedules[k].userId != userId))
      && forall k :: k in after.schedules ==> after.schedules[k] == s.schedules[k]
  {
  }

  /** A schedule may refer to a workflow and an active device of its user. Inserting one needs that and a
      new id, updating one that and its ownership. An insert stores all that is given and no last
      run; an update keeps owner and last run, stores the rest and clears the pending catch-up. */
  lemma ScheduleStores(s: State, id: Id, userId: Id, workflowId: Id, deviceId: Id, body: string, isActive: bool,
      nextRunAt: Option<int>, catchUpPending: bool)
    ensures var refers :=
        && workflowId in s.workflows && s.workflows[workflowId].userId == userId
        && deviceId in s.devices && s.devices[deviceId].userId == userId && s.devices[deviceId].revokedAt.None?;
      var insert :=
        InsertSchedule(id, userId, workflowId, deviceId, body, isActive, nextRunAt, catchUpPending);
      var update := UpdateSchedule(id, userId, workflowId, deviceId, body, isActive, nextRunAt);
      && Succeeds(s, insert) == (refers && id !in s.schedules)
      && Step(s, insert) == (if !Succeeds(s, insert) then s else State(s.workflows, s.devices, s.schedules[id :=
        Schedule(userId, workflowId, deviceId, body, isActive, None, nextRunAt, catchUpPending)]))
      && Succeeds(s, update) == (refers && id in s.schedules && s.schedules[id].userId == userId)
      && Step(s, update) == (if !Succeeds(s, update) then s else State(s.workflows, s.devices, s.schedules[id :=
        Schedule(userId, workflowId, deviceId, body, isActive, s.schedules[id].lastRunAt, nextRunAt, false)]))
  {
  }

  /** Marking a run succeeds exactly on an active schedule of the user not run since, and stores both
      times; deleting a schedule succeeds exactly for its owner. */
  lemma ScheduleRunStores(s: State, id: Id, userId: Id, lastRunAt: int, nextDue: int)
    ensures var (mark, delete) := (MarkRun(id, userId, lastRunAt, nextDue), DeleteSchedule(id, userId));
      && Succeeds(s, mark) == (id in s.schedules && s.schedules[id].userId == userId && s.schedules[id].isActive &&
        (s.schedules[id].lastRunAt.Some? ==> s.schedules[id].lastRunAt.value < lastRunAt))
      && Step(s, mark) == (if !Succeeds(s, mark) then s else
        var old' := s.schedules[id];
        State(s.workflows, s.devices, s.schedules[id := Schedule(userId, old'.workflowId, old'.deviceId, old'.body,
          true, Some(lastRunAt), Some(nextDue), false)]))
      && Succeeds(s, delete) == (id in s.schedules && s.schedules[id].userId == userId)
      && Step(s, delete) == (if !Succeeds(s, delete) then s else State(s.workflows, s.devices, s.schedules - {id}))
  {
  }

  /** Every schedule refers to an existing workflow and an existing device of its own owner. */
  ghost predicate ReferencesHold(s: State) {
    forall k {:trigger s.schedules[k]} :: k in s.schedules ==>
      var schedule := s.schedules[k];
      && schedule.workflowId in s.workflows && s.workflows[schedule.workflowId].userId == schedule.userId
      && schedule.deviceId in s.devices && s.devices[schedule.deviceId].userId == schedule.userId
  }

  /** Device rows are never deleted and never change hands. */
  lemma DevicesKeepOwners(devices: D.Devices, op: D.Operation)
    ensures forall d :: d in devices ==> d in D.Step(devices, op) && D.Step(devices, op)[d].userId == devices[d].userId
  {
  }

  lemma StepKeepsReferences(s: State, op: Operation)
    requires ReferencesHold(s)
    ensures ReferencesHold(Step(s, op))
  {
    var after := Step(s, op);
    if op.OnDevices? {
      DevicesKeepOwners(s.devices, op.op);
    }
    forall k | k in after.schedules
      ensures var schedule := after.schedules[k];
        && schedule.workflowId in after.workflows && after.workflows[schedule.workflowId].userId == schedule.userId
        && schedule.deviceId in after.devices && after.devices[schedule.deviceId].userId == schedule.userId
    {
      assert k in s.schedules ==> s.schedules[k].workflowId in s.workflows;
    }
  }

  function Run(start: State, ops: seq<Operation>): State {
    if ops == [] then start else Step(Run(start, ops[..|ops| - 1]), ops[|ops| - 1])
  }

  /** After every step of every run from the empty tables the references hold. */
  lemma {:induction false} RunsKeepReferences(ops: seq<Operation>)
    ensures ReferencesHold(Run(State(map[], map[], map[]), ops))
  {
    if ops != [] {
      RunsKeepReferences(ops[..|ops| - 1]);
      StepKeepsReferences(Run(State(map[], map[], map[]), ops[..|ops| - 1]), ops[|ops| - 1]);
    }
  }

  /** Deleting a workflow takes exactly the schedules referring to it, and a refused deletion takes
      none. */
  lemma DeleteTakesItsSchedules(s: State, id: Id, userId: Id)
    requires ReferencesHold(s)
    ensures var op := DeleteWorkflow(id, userId);
      Step(s, op).schedules.Keys ==
        if Succeeds(s, op) then set k | k in s.schedules && s.schedules[k].workflowId != id else s.schedules.Keys
  {
    var op := DeleteWorkflow(id, userId);
    forall k | k in s.schedules
      ensures k in Step(s, op).schedules <==> !(Succeeds(s, op) && s.schedules[k].workflowId == id)
    {
      assert s.schedules[k].workflowId in s.workflows;
    }
  }

  // ------------------------------------------------------------------ versions

  /** The workflow lives through the whole run. */
  ghost predicate Lives(start: State, ops: seq<Operation>, w: Id) {
    w in Run(start, ops).workflows && (ops == [] || Lives(start, ops[..|ops| - 1], w))
  }

  /** The expected versions of the updates of `w` that succeeded, in order. */
  function UpdateLog(start: State, ops: seq<Operation>, w: Id): seq<int> {
    if ops == [] then []
    else
      var before, op := ops[..|ops| - 1], ops[|ops| - 1];
      if IsUpdate(Run(start, before), op, w)
      then UpdateLog(start, before, w) + [op.expectedVersion] else UpdateLog(start, before, w)
  }

  predicate IsUpdate(s: State, op: Operation, w: Id) {
    op.UpdateWorkflow? && op.id == w && Succeeds(s, op)
  }

  lemma VersionStep(s: State, op: Operation, w: Id)
    requires w in s.workflows && w in Step(s, op).workflows
    ensures var old', new' := s.workflows[w], Step(s, op).workflows[w];
      && new'.userId == old'.userId
      && new'.version == old'.version + (if IsUpdate(s, op, w) then 1 else 0)
      && (IsUpdate(s, op, w) ==> op.expectedVersion == old'.version)
  {
  }

  /** Within a workflow's lifetime its version grows by one per successful update, and the n-th
      successful update expected exactly the n-th version: no expected version succeeds twice. */
  lemma {:induction false} VersionsCountUpdates(start: State, ops: seq<Operation>, w: Id)
    requires Lives(start, ops, w) && w in start.workflows
    ensures Run(start, ops).workflows[w].userId == start.workflows[w].userId
    ensures Run(start, ops).workflows[w].version == start.workflows[w].version + |UpdateLog(start, ops, w)|
    ensures forall i :: 0 <= i < |UpdateLog(start, ops, w)| ==>
      UpdateLog(start, ops, w)[i] == start.workflows[w].version + i
  {
    if ops != [] {
      VersionsCountUpdates(start, ops[..|ops| - 1], w);
      VersionStep(Run(start, ops[..|ops| - 1]), ops[|ops| - 1], w);
    }
  }

  /** Of two updates in a lifetime that both expect the same version, at most one succeeds. */
  lemma AtMostOneUpdatePerVersion(start: State, ops: seq<Operation>, w: Id)
    requires Lives(start, ops, w) && w in start.workflows
    ensures Distinct(UpdateLog(start, ops, w))
  {
    VersionsCountUpdates(start, ops, w);
  }

  // ------------------------------------------------------------------ marked runs

  ghost predicate ScheduleLives(start: State, ops: seq<Operation>, k: Id) {
    k in Run(start, ops).schedules && (ops == [] || ScheduleLives(start, ops[..|ops| - 1], k))
  }

  /** The run times marked on a schedule, in order. */
  function MarkLog(start: State, ops: seq<Operation>, k: Id): seq<int> {
    if ops == [] then []
    else
      var before, op := ops[..|ops| - 1], ops[|ops| - 1];
      if IsMark(Run(start, before), op, k)
      then MarkLog(start, before, k) + [op.lastRunAt] else MarkLog(start, before, k)
  }

  predicate IsMark(s: State, op: Operation, k: Id) {
    op.MarkRun? && op.id == k && Succeeds(s, op)
  }

  lemma MarkStep(s: State, op: Operation, k: Id)
    requires k in s.schedules && k in Step(s, op).schedules
    ensures Step(s, op).schedules[k].lastRunAt ==
      if IsMark(s, op, k) then Some(op.lastRunAt) else s.schedules[k].lastRunAt
    ensures IsMark(s, op, k) && s.schedules[k].lastRunAt.Some? ==> s.schedules[k].lastRunAt.value < op.lastRunAt
  {
  }

  /** Within a schedule's lifetime the marked run times strictly increase, so no run is marked
      twice; the row holds the latest. */
  lemma {:induction false} RunsMarkedOnce(start: State, ops: seq<Operation>, k: Id)
    requires ScheduleLives(start, ops, k) && k in start.schedules
    ensures var log := MarkLog(start, ops, k);
      && (forall i, j :: 0 <= i < j < |log| ==> log[i] < log[j])
      && (start.schedules[k].lastRunAt.Some? ==>
        forall i :: 0 <= i < |log| ==> start.schedules[k].lastRunAt.value < log[i])
      && Run(start, ops).schedules[k].lastRunAt ==
        if log == [] then start.schedules[k].lastRunAt else Some(log[|log| - 1])
  {
    if ops != [] {
      RunsMarkedOnce(start, ops[..|ops| - 1], k);
      MarkStep(Run(start, ops[..|ops| - 1]), ops[|ops| - 1], k);
    }
  }
}
