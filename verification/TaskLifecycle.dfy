/** The Server's task queue and the two state machines it drives: local model instances and model files.
    The tables are maps; every handler is a method that updates them. */
module TaskLifecycle {
  import opened Options
  import opened Heartbeat

  type TaskId = string
  type FileId = string

  const LEASE_SECS := 30
  const QUEUE_TIMEOUT_SECS := 300

  /** What a task asks of the Agent, with the row it is about. */
  datatype Work =
    | StartInstance(instance: InstanceId)
    | StopInstance(instance: InstanceId)
    | CheckInstance(instance: InstanceId)
    | TestInstance(instance: InstanceId)
    | VerifyFile(file: Option<FileId>)
    | OtherWork
  {
    predicate OnInstance() {
      StartInstance? || StopInstance? || CheckInstance? || TestInstance?
    }
  }

  datatype TaskStatus = Queued | Running | Succeeded | Failed | TimedOut

  datatype Task = Task(node: NodeId, work: Work, status: TaskStatus, createdAt: int, leaseUntil: Option<int>,
                       attempts: nat) {
    predicate IsLive() {
      status.Queued? || status.Running?
    }
  }

  /** `Rejected` carries any other result of a verification. */
  datatype FileStatus = Unverified | VerifyPending | Verifying | Verified | VerifyTimeout | Rejected(reason: string)

  datatype FileRow = FileRow(node: NodeId, status: FileStatus, verifyTask: Option<TaskId>)

  datatype Database = Database(tasks: map<TaskId, Task>, instances: Instances, files: map<FileId, FileRow>)

  /** The body of a task result; `status` is the string the Agent sent. */
  datatype ResultRequest = ResultRequest(node: NodeId, status: string, instanceStatus: Option<InstanceStatus>,
                                         fileStatus: Option<FileStatus>, processId: Option<int>)

  datatype ResultOutcome = Recorded | NotFound | BadRequest

  // ---------------------------------------------------------------- queueing work

  function WithTask(db: Database, id: TaskId, node: NodeId, work: Work, now: int): Database {
    db.(tasks := db.tasks[id := Task(node, work, Queued, now, None, 0)])
  }

  /** The status an instance shows while the task is under way. */
  function PendingStatus(work: Work): InstanceStatus {
    match work
    case StartInstance(_) => InstanceStatus.Starting
    case StopInstance(_) => InstanceStatus.Stopping
    case _ => InstanceStatus.Running
  }

  function WithInstanceStatus(db: Database, id: InstanceId, status: InstanceStatus): Database {
    if id in db.instances then db.(instances := db.instances[id := db.instances[id].(status := status)]) else db
  }

  function WithFileStatus(db: Database, id: FileId, status: FileStatus): Database {
    if id in db.files then db.(files := db.files[id := db.files[id].(status := status)]) else db
  }

  function WithVerification(db: Database, id: TaskId, file: FileId, now: int): Database
    requires file in db.files
  {
    var queued := WithTask(db, id, db.files[file].node, VerifyFile(Some(file)), now);
    queued.(files := queued.files[file := queued.files[file].(status := VerifyPending, verifyTask := Some(id))])
  }

  // ---------------------------------------------------------------- leasing

  function LeasedTask(task: Task, now: int): Task {
    task.(status := TaskStatus.Running, leaseUntil := Some(now + LEASE_SECS), attempts := task.attempts + 1)
  }

  function Leased(db: Database, id: TaskId, now: int): Database
    requires id in db.tasks
  {
    var leased := db.(tasks := db.tasks[id := LeasedTask(db.tasks[id], now)]);
    match db.tasks[id].work
    case VerifyFile(Some(file)) => WithFileStatus(leased, file, Verifying)
    case _ => leased
  }

  // ---------------------------------------------------------------- results

  function ResultStatus(request: ResultRequest): TaskStatus {
    if request.status == "succeeded" then Succeeded else TaskStatus.Failed
  }

  function NextInstanceStatus(work: Work, request: ResultRequest): InstanceStatus {
    request.instanceStatus.GetOr(
      if request.status != "succeeded" then InstanceStatus.Failed
      else if work.StopInstance? then InstanceStatus.Stopped
      else InstanceStatus.Running)
  }

  function NextFileStatus(request: ResultRequest): FileStatus {
    request.fileStatus.GetOr(if request.status == "succeeded" then Verified else Rejected("failed"))
  }

  function InstanceAfterResult(row: Instance, work: Work, request: ResultRequest): Instance {
    row.(status := NextInstanceStatus(work, request),
         processId := if work.StopInstance? then None else request.processId.Or(row.processId))
  }

  function ResultOutcomeOf(db: Database, id: TaskId, request: ResultRequest): ResultOutcome {
    if id !in db.tasks || db.tasks[id].node != request.node then NotFound
    else if request.status !in {"succeeded", "failed"} then BadRequest
    else Recorded
  }

  function WithResult(db: Database, id: TaskId, request: ResultRequest): Database
    requires id in db.tasks
  {
    var work := db.tasks[id].work;
    var done := db.(tasks := db.tasks[id := db.tasks[id].(status := ResultStatus(request))]);
    if work.OnInstance() then
      if work.instance in db.instances
      then
        var row := InstanceAfterResult(db.instances[work.instance], work, request);
        done.(instances := db.instances[work.instance := row])
      else done
    else match work
      case VerifyFile(Some(file)) => WithFileStatus(done, file, NextFileStatus(request))
      case _ => done
  }

  // ---------------------------------------------------------------- timing out

  predicate IsExpired(task: Task, now: int) {
    || (task.status.Running? && task.leaseUntil.Some? && task.leaseUntil.value < now)
    || (task.status.Queued? && task.createdAt < now - QUEUE_TIMEOUT_SECS)
  }

  function Expired(db: Database, now: int): set<TaskId> {
    set id | id in db.tasks && IsExpired(db.tasks[id], now)
  }

  function TimedOutTask(task: Task): Task {
    if task.IsLive() then task.(status := TimedOut) else task
  }

  function WithTaskTimedOut(db: Database, id: TaskId): Database {
    if id in db.tasks then db.(tasks := db.tasks[id := TimedOutTask(db.tasks[id])]) else db
  }

  predicate ConcernsFile(db: Database, ids: set<TaskId>, file: FileId) {
    exists id :: id in ids && id in db.tasks && IsAbout(db.tasks[id].work, file)
  }

  predicate IsAbout(work: Work, file: FileId) {
    work.VerifyFile? && work.file.Some? && work.file.value == file
  }

  predicate ConcernsInstance(db: Database, ids: set<TaskId>, instance: InstanceId) {
    exists id :: id in ids && id in db.tasks && IsOn(db.tasks[id].work, instance)
  }

  predicate IsOn(work: Work, instance: InstanceId) {
    work.OnInstance() && work.instance == instance
  }

  /** The tasks `ids` are timed out, with the instances and files they are about. */
  function Swept(db: Database, ids: set<TaskId>): Database {
    Database(
      map id | id in db.tasks :: if id in ids then TimedOutTask(db.tasks[id]) else db.tasks[id],
      map i | i in db.instances ::
        if ConcernsInstance(db, ids, i) then db.instances[i].(status := InstanceStatus.Failed) else db.instances[i],
      map f | f in db.files ::
        if ConcernsFile(db, ids, f) then db.files[f].(status := VerifyTimeout) else db.files[f])
  }

  /** Timing out this task ends the sweep with an error: the instance it is about no longer exists. */
  predicate AbortsSweep(db: Database, id: TaskId) {
    id in db.tasks && db.tasks[id].work.OnInstance() && db.tasks[id].work.instance !in db.instances
  }

  function SweptOne(db: Database, id: TaskId): Database
    requires id in db.tasks
  {
    var marked := WithTaskTimedOut(db, id);
    var work := db.tasks[id].work;
    if work.OnInstance() then WithInstanceStatus(marked, work.instance, InstanceStatus.Failed)
    else match work
      case VerifyFile(Some(file)) => WithFileStatus(marked, file, VerifyTimeout)
      case _ => marked
  }

  // ---------------------------------------------------------------- the tables in memory

  class ControlPlane {
    var tasks: map<TaskId, Task>
    var files: map<FileId, FileRow>
    const instanceTable: InstanceTable

    function Db(): Database
      reads this, instanceTable
    {
      Database(tasks, instanceTable.rows, files)
    }

    constructor ()
      ensures Db() == Database(map[], map[], map[]) && fresh(instanceTable)
    {
      tasks, files := map[], map[];
      instanceTable := new InstanceTable();
    }

    /** Times out every expired task, row by row in any order; stops at a task whose instance was deleted. */
    method MarkTimedOutTasks(now: int) returns (completed: bool, ghost handled: set<TaskId>)
      modifies this, instanceTable
      ensures handled <= Expired(old(Db()), now) && Db() == Swept(old(Db()), handled)
      ensures completed <==>
                handled == Expired(old(Db()), now) && forall id :: id in handled ==> !AbortsSweep(old(Db()), id)
      ensures !completed ==> exists id :: id in handled && AbortsSweep(old(Db()), id)
    {
      ghost var before := Db();
      var rest := set id | id in tasks && IsExpired(tasks[id], now);
      handled := {};
      SweptNone(before);
      hide Swept, SweptOne, IsExpired;
      while rest != {}
        invariant handled !! rest && handled + rest == Expired(before, now)
        invariant Db() == Swept(before, handled)
        invariant forall id :: id in handled ==> !AbortsSweep(before, id)
        decreases |rest|
      {
        var id :| id in rest;
        SweptStep(before, handled, id);
        rest, handled := rest - {id}, handled + {id};
        var found := SweepTask(id);
        if !found {
          return false, handled;
        }
      }
      completed := true;
    }

    method SweepTask(id: TaskId) returns (found: bool)
      requires id in tasks
      modifies this, instanceTable
      ensures Db() == SweptOne(old(Db()), id)
      ensures found <==> !AbortsSweep(old(Db()), id)
    {
      var work := tasks[id].work;
      MarkTaskTimedOut(id);
      if work.OnInstance() {
        found := UpdateInstanceCheck(work.instance, InstanceStatus.Failed);
      } else {
        found := true;
        if work.VerifyFile? && work.file.Some? && work.file.value in files {
          files := files[work.file.value := files[work.file.value].(status := VerifyTimeout)];
        }
      }
    }

    method MarkTaskTimedOut(id: TaskId)
      modifies this`tasks
      ensures Db() == WithTaskTimedOut(old(Db()), id)
    {
      if id in tasks && tasks[id].status in {Queued, TaskStatus.Running} {
        tasks := tasks[id := tasks[id].(status := TimedOut)];
      }
    }

    method UpdateInstanceCheck(id: InstanceId, status: InstanceStatus) returns (found: bool)
      modifies instanceTable
      ensures Db() == WithInstanceStatus(old(Db()), id, status)
      ensures found <==> id in old(instanceTable.rows)
    {
      found := id in instanceTable.rows;
      if found {
        instanceTable.rows := instanceTable.rows[id := instanceTable.rows[id].(status := status)];
      }
    }

    /** The queued task of the node with the earliest creation time; among equals any. */
    method NextQueuedAgentTask(node: NodeId) returns (next: Option<TaskId>)
      ensures next.Some? ==> IsNextQueued(Db(), node, next.value)
      ensures next.None? ==> forall id :: id in tasks && tasks[id].node == node ==> !tasks[id].status.Queued?
    {
      next := None;
      var rest := tasks.Keys;
      while rest != {}
        invariant rest <= tasks.Keys
        invariant next.Some? ==>
                    next.value in tasks && tasks[next.value].node == node && tasks[next.value].status.Queued?
        invariant forall id :: id in tasks.Keys - rest && tasks[id].node == node && tasks[id].status.Queued? ==>
                    next.Some? && tasks[next.value].createdAt <= tasks[id].createdAt
        decreases |rest|
      {
        var id :| id in rest;
        rest := rest - {id};
        if tasks[id].node == node && tasks[id].status.Queued? &&
           (next.None? || tasks[id].createdAt < tasks[next.value].createdAt)
        {
          next := Some(id);
        }
      }
    }

    /** The first half of a poll: time out what is overdue, then choose. */
    method SelectTask(node: NodeId, now: int)
      returns (next: Option<TaskId>, completed: bool, ghost handled: set<TaskId>)
      modifies this, instanceTable
      ensures handled <= Expired(old(Db()), now) && Db() == Swept(old(Db()), handled)
      ensures completed ==> handled == Expired(old(Db()), now)
      ensures next.Some? ==> completed && IsNextQueued(Db(), node, next.value)
      ensures completed && next.None? ==>
                forall id :: id in tasks && tasks[id].node == node ==> !tasks[id].status.Queued?
    {
      next := None;
      completed, handled := MarkTimedOutTasks(now);
      if completed {
        next := NextQueuedAgentTask(node);
      }
    }

    /** The second half of a poll.  The update is by id alone: it does not look at the status again. */
    method LeaseTask(id: TaskId, now: int)
      requires id in tasks
      modifies this
      ensures Db() == Leased(old(Db()), id, now)
    {
      var work := tasks[id].work;
      var leaseUntil := now + LEASE_SECS;
      tasks := tasks[id := tasks[id].(status := TaskStatus.Running, leaseUntil := Some(leaseUntil),
                                      attempts := tasks[id].attempts + 1)];
      if work.VerifyFile? && work.file.Some? && work.file.value in files {
        files := files[work.file.value := files[work.file.value].(status := Verifying)];
      }
    }

    method RecordAgentTaskResult(id: TaskId, request: ResultRequest) returns (outcome: ResultOutcome)
      modifies this, instanceTable
      ensures outcome == ResultOutcomeOf(old(Db()), id, request)
      ensures outcome == NotFound <==> id !in old(tasks) || old(tasks)[id].node != request.node
      ensures outcome == BadRequest <==>
                id in old(tasks) && old(tasks)[id].node == request.node && request.status !in {"succeeded", "failed"}
      ensures Db() == if outcome == Recorded then WithResult(old(Db()), id, request) else old(Db())
    {
      if id !in tasks || tasks[id].node != request.node {
        return NotFound;
      }
      if request.status !in {"succeeded", "failed"} {
        return BadRequest;
      }
      var work, succeeded := tasks[id].work, request.status == "succeeded";
      tasks := tasks[id := tasks[id].(status := if succeeded then Succeeded else TaskStatus.Failed)];
      if work.VerifyFile? {
        if work.file.Some? && work.file.value in files {
          var fileStatus := request.fileStatus.GetOr(if succeeded then Verified else Rejected("failed"));
          files := files[work.file.value := files[work.file.value].(status := fileStatus)];
        }
      } else if work.OnInstance() {
        RecordInstanceResult(work, request, succeeded);
      }
      return Recorded;
    }

    method RecordInstanceResult(work: Work, request: ResultRequest, succeeded: bool)
      requires work.OnInstance() && succeeded == (request.status == "succeeded")
      modifies instanceTable
      ensures instanceTable.rows == var rows := old(instanceTable.rows);
                if work.instance in rows
                then rows[work.instance := InstanceAfterResult(rows[work.instance], work, request)] else rows
    {
      var nextStatus := InstanceStatus.Failed;
      if request.instanceStatus.Some? {
        nextStatus := request.instanceStatus.value;
      } else if succeeded {
        nextStatus := if work.StopInstance? then InstanceStatus.Stopped else InstanceStatus.Running;
      }
      if work.instance in instanceTable.rows {
        var row := instanceTable.rows[work.instance];
        var processId := if work.StopInstance? then None
                         else if request.processId.Some? then request.processId
                         else row.processId;
        instanceTable.rows := instanceTable.rows[work.instance := row.(status := nextStatus, processId := processId)];
      }
    }

    method RecordHeartbeat(node: NodeId, reports: seq<Report>)
      modifies instanceTable
      ensures Db() == old(Db()).(instances := Reconciled(old(Db()).instances, node, reports))
    {
      instanceTable.ReconcileManagedInstances(node, reports);
    }

    /** Queues a task for a local instance and shows that it is under way, in one transaction. */
    method RunLocalInstanceTask(id: TaskId, work: Work, now: int) returns (accepted: bool)
      requires work.OnInstance() && id !in tasks
      modifies this, instanceTable
      ensures accepted <==> CanRun(old(Db()), work)
      ensures Db() == if accepted then Requested(old(Db()), id, work, now) else old(Db())
    {
      var i := work.instance;
      if i !in instanceTable.rows || !instanceTable.rows[i].local || instanceTable.rows[i].node.None? {
        return false;
      }
      var node := instanceTable.rows[i].node.value;
      tasks := tasks[id := Task(node, work, Queued, now, None, 0)];
      var found := UpdateInstanceCheck(i, PendingStatus(work));
      return true;
    }

    method QueueModelFileVerification(id: TaskId, file: FileId, now: int) returns (found: bool)
      requires id !in tasks
      modifies this
      ensures found <==> file in old(files)
      ensures Db() == if found then WithVerification(old(Db()), id, file, now) else old(Db())
    {
      if file !in files {
        return false;
      }
      tasks := tasks[id := Task(files[file].node, VerifyFile(Some(file)), Queued, now, None, 0)];
      files := files[file := files[file].(status := VerifyPending, verifyTask := Some(id))];
      return true;
    }
  }

  predicate IsNextQueued(db: Database, node: NodeId, id: TaskId) {
    && id in db.tasks && db.tasks[id].node == node && db.tasks[id].status.Queued?
    && forall other :: other in db.tasks && db.tasks[other].node == node && db.tasks[other].status.Queued? ==>
         db.tasks[id].createdAt <= db.tasks[other].createdAt
  }

  predicate CanRun(db: Database, work: Work) {
    work.OnInstance() && work.instance in db.instances && db.instances[work.instance].local &&
    db.instances[work.instance].node.Some?
  }

  function Requested(db: Database, id: TaskId, work: Work, now: int): Database
    requires CanRun(db, work)
  {
    WithInstanceStatus(WithTask(db, id, db.instances[work.instance].node.value, work, now), work.instance,
                       PendingStatus(work))
  }

  // ---------------------------------------------------------------- what the handlers do, spelled out

  /** The task starts, stops, checks or tests the instance. */
  predicate Asks(work: Work, i: InstanceId) {
    work in {StartInstance(i), StopInstance(i), CheckInstance(i), TestInstance(i)}
  }

  /** What a recorded result leaves of the row of its instance: the status that was reported; or, when none was, stopped
      after a stop that succeeded, running after any other success, failed after a failure. A stop clears the process,
      and any other task leaves the reported one, or else the one before. */
  ghost predicate SettledBy(row: Instance, before: Instance, work: Work, request: ResultRequest) {
    && (request.instanceStatus.Some? ==> row.status == request.instanceStatus.value)
    && (request.instanceStatus.None? ==>
          && (row.status.Stopped? <==> request.status == "succeeded" && work.StopInstance?)
          && (row.status.Running? <==> request.status == "succeeded" && !work.StopInstance?)
          && (row.status.Failed? <==> request.status == "failed"))
    && (work.StopInstance? ==> row.processId.None?)
    && (!work.StopInstance? && request.processId.Some? ==> row.processId == request.processId)
    && (!work.StopInstance? && request.processId.None? ==> row.processId == before.processId)
    && row.node == before.node && row.local == before.local && row.ollama == before.ollama
  }

  /** What it leaves of the row of its file: the status that was reported; or, when none was, verified after a success
      and rejected after a failure. */
  ghost predicate FileSettledBy(row: FileRow, before: FileRow, request: ResultRequest) {
    && (request.fileStatus.Some? ==> row.status == request.fileStatus.value)
    && (request.fileStatus.None? ==>
          && (row.status.Verified? <==> request.status == "succeeded")
          && (row.status.Rejected? <==> request.status == "failed"))
    && row.node == before.node && row.verifyTask == before.verifyTask
  }

  /** Every result of the task's own node with a known status is recorded, and settles the task and the row it is about;
      nothing else changes. */
  lemma ResultSettles(db: Database, id: TaskId, request: ResultRequest)
    requires id in db.tasks && db.tasks[id].node == request.node && request.status in {"succeeded", "failed"}
    ensures ResultOutcomeOf(db, id, request) == Recorded
    ensures var work, after := db.tasks[id].work, WithResult(db, id, request);
            var status := if request.status == "succeeded" then Succeeded else TaskStatus.Failed;
            && after.tasks == db.tasks[id := db.tasks[id].(status := status)]
            && after.instances.Keys == db.instances.Keys && after.files.Keys == db.files.Keys
            && (forall i :: i in db.instances && Asks(work, i) ==>
                  SettledBy(after.instances[i], db.instances[i], work, request))
            && (forall i :: i in db.instances && !Asks(work, i) ==> after.instances[i] == db.instances[i])
            && (forall f :: f in db.files && work == VerifyFile(Some(f)) ==>
                  FileSettledBy(after.files[f], db.files[f], request))
            && (forall f :: f in db.files && work != VerifyFile(Some(f)) ==> after.files[f] == db.files[f])
  {
    assert request.status == "succeeded" || request.status == "failed";
  }

  /** Queued for more than 300 seconds, or running beyond the lease. */
  predicate IsOverdue(task: Task, now: int) {
    match task.status
    case Queued => now > task.createdAt + 300
    case Running => task.leaseUntil.Some? && now > task.leaseUntil.value
    case _ => false
  }

  /** A completed sweep times out exactly the overdue tasks, fails exactly the instances such a task is about, and shows
      exactly the files such a task verifies as timed out. */
  lemma SweepOutcome(db: Database, now: int)
    ensures var after := Swept(db, Expired(db, now));
            && after.tasks == (map t | t in db.tasks ::
                 if IsOverdue(db.tasks[t], now) then db.tasks[t].(status := TimedOut) else db.tasks[t])
            && (forall i :: i in after.instances <==> i in db.instances)
            && (forall i :: i in db.instances ==>
                  after.instances[i] ==
                  if exists t :: t in db.tasks && IsOverdue(db.tasks[t], now) && Asks(db.tasks[t].work, i)
                  then db.instances[i].(status := InstanceStatus.Failed) else db.instances[i])
            && (forall f :: f in after.files <==> f in db.files)
            && (forall f :: f in db.files ==>
                  after.files[f] ==
                  if exists t :: t in db.tasks && IsOverdue(db.tasks[t], now) &&
                                 db.tasks[t].work == VerifyFile(Some(f))
                  then db.files[f].(status := VerifyTimeout) else db.files[f])
  {
    var ids := Expired(db, now);
    forall t ensures t in ids <==> t in db.tasks && IsOverdue(db.tasks[t], now) {}
    forall i ensures ConcernsInstance(db, ids, i) <==>
                     exists t :: t in db.tasks && IsOverdue(db.tasks[t], now) && Asks(db.tasks[t].work, i) {}
    forall f
      ensures ConcernsFile(db, ids, f) <==>
              exists t :: t in db.tasks && IsOverdue(db.tasks[t], now) && db.tasks[t].work == VerifyFile(Some(f))
    {
      if t :| t in db.tasks && IsOverdue(db.tasks[t], now) && db.tasks[t].work == VerifyFile(Some(f)) {
        assert t in ids && IsAbout(db.tasks[t].work, f);
      }
    }
    hide IsOverdue, Asks, Expired, ConcernsInstance, ConcernsFile;
    assert forall t :: t in ids ==> db.tasks[t].IsLive();
  }

  /** The deadline of a waiting request does the same for its one task. */
  lemma DeadlineOutcome(db: Database, t: TaskId)
    requires t in db.tasks && db.tasks[t].IsLive()
    ensures var work, after := db.tasks[t].work, SweptOne(db, t);
            && after.tasks == db.tasks[t := db.tasks[t].(status := TimedOut)]
            && (forall i :: i in after.instances <==> i in db.instances)
            && (forall i :: i in db.instances ==>
                  after.instances[i] == if Asks(work, i) then db.instances[i].(status := InstanceStatus.Failed)
                                        else db.instances[i])
            && (forall f :: f in after.files <==> f in db.files)
            && (forall f :: f in db.files ==>
                  after.files[f] == if work == VerifyFile(Some(f)) then db.files[f].(status := VerifyTimeout)
                                    else db.files[f])
  {
  }

  /** A lease runs for 30 seconds and counts as an attempt; a file whose verification it is shows as being verified. */
  lemma LeaseOutcome(db: Database, id: TaskId, now: int)
    requires id in db.tasks
    ensures var task, after := db.tasks[id], Leased(db, id, now);
            && after.tasks == db.tasks[id := Task(task.node, task.work, TaskStatus.Running, task.createdAt,
                                                  Some(now + 30), task.attempts + 1)]
            && after.instances == db.instances && after.files.Keys == db.files.Keys
            && (forall f :: f in db.files ==>
                  after.files[f] == if task.work == VerifyFile(Some(f)) then db.files[f].(status := Verifying)
                                    else db.files[f])
  {
  }

  /** A request is accepted exactly for a local instance whose node is known. It queues one task for that node, and the
      instance shows starting, stopping, or, while it is checked or tested, running. */
  lemma RequestOutcome(db: Database, id: TaskId, work: Work, now: int, i: InstanceId)
    requires Asks(work, i)
    ensures CanRun(db, work) <==> i in db.instances && db.instances[i].local && db.instances[i].node.Some?
    ensures CanRun(db, work) ==>
              var after, row := Requested(db, id, work, now), db.instances[i];
              && after.tasks == db.tasks[id := Task(row.node.value, work, Queued, now, None, 0)]
              && after.files == db.files
              && after.instances == db.instances[i := row.(status := match work
                                                                     case StartInstance(_) => InstanceStatus.Starting
                                                                     case StopInstance(_) => InstanceStatus.Stopping
                                                                     case _ => InstanceStatus.Running)]
  {
  }

  /** A verification is queued for the node of the file, which waits for it and points to it. */
  lemma VerificationOutcome(db: Database, id: TaskId, file: FileId, now: int)
    requires file in db.files
    ensures var after, row := WithVerification(db, id, file, now), db.files[file];
            && after.tasks == db.tasks[id := Task(row.node, VerifyFile(Some(file)), Queued, now, None, 0)]
            && after.files == db.files[file := FileRow(row.node, VerifyPending, Some(id))]
            && after.instances == db.instances
  {
  }

  lemma SweptNone(db: Database)
    ensures Swept(db, {}) == db
  {
  }

  /** One more task of a sweep: its row is still the one the sweep selected. */
  lemma SweptStep(db: Database, ids: set<TaskId>, id: TaskId)
    requires id in db.tasks && id !in ids
    ensures id in Swept(db, ids).tasks
    ensures Swept(db, ids + {id}) == SweptOne(Swept(db, ids), id)
    ensures AbortsSweep(Swept(db, ids), id) == AbortsSweep(db, id)
  {
    SweptTasks(db, ids, id);
    SweptInstances(db, ids, id);
    SweptFiles(db, ids, id);
    hide Swept, SweptOne;
  }

  lemma SweptTasks(db: Database, ids: set<TaskId>, id: TaskId)
    requires id in db.tasks && id !in ids
    ensures Swept(db, ids + {id}).tasks == WithTaskTimedOut(Swept(db, ids), id).tasks
            == SweptOne(Swept(db, ids), id).tasks
  {
  }

  lemma SweptInstances(db: Database, ids: set<TaskId>, id: TaskId)
    requires id in db.tasks && id !in ids
    ensures Swept(db, ids + {id}).instances == SweptOne(Swept(db, ids), id).instances
  {
    assert id in ids + {id};
    forall i
      ensures ConcernsInstance(db, ids + {id}, i) <==> ConcernsInstance(db, ids, i) || IsOn(db.tasks[id].work, i) {}
    assert Swept(db, ids).tasks[id].work == db.tasks[id].work;
  }

  lemma SweptFiles(db: Database, ids: set<TaskId>, id: TaskId)
    requires id in db.tasks && id !in ids
    ensures Swept(db, ids + {id}).files == SweptOne(Swept(db, ids), id).files
  {
    assert id in ids + {id};
    forall f ensures ConcernsFile(db, ids + {id}, f) <==> ConcernsFile(db, ids, f) || IsAbout(db.tasks[id].work, f) {}
    assert Swept(db, ids).tasks[id].work == db.tasks[id].work;
  }
}
