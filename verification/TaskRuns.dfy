/** Runs of the task queue: every handler of the Server, the Agents and the waiting requests, in any interleaving. */
module TaskRuns {
  import opened Options
  import opened Heartbeat
  import opened TaskLifecycle
  import opened TaskQueue

  /** The database, and what is under way outside of it: polls between their two statements, status checks of offline
      instances between read and write, tasks the Agents still have to report; `deliveries` lists every lease. */
  datatype System = System(db: Database, clock: int, picks: map<NodeId, Pick>,
                           checks: set<(InstanceId, InstanceStatus)>,
                           unreported: set<TaskId>, deliveries: seq<TaskId>)

  const EMPTY := System(Database(map[], map[], map[]), 0, map[], {}, {}, [])

  datatype Event =
    | CreateInstance(instance: InstanceId, row: Instance)
    | EditStatus(instance: InstanceId, status: InstanceStatus)
    | DeleteInstance(instance: InstanceId)
    | Request(task: TaskId, work: Work, now: int)
    | Enqueue(task: TaskId, node: NodeId, work: Work, now: int)
    | CreateFile(file: FileId, node: NodeId)
    | UpdateFile(file: FileId, node: NodeId)
    | RepairFile(file: FileId)
    | QueueVerification(task: TaskId, file: FileId, now: int)
    | Sweep(handled: set<TaskId>, completed: bool, now: int)
    | Poll(node: NodeId, task: TaskId, now: int)
    | Lease(node: NodeId, now: int)
    | AbandonPoll(node: NodeId)
    | Result(task: TaskId, request: ResultRequest)
    | InstanceDeadline(task: TaskId)
    | OtherDeadline(task: TaskId)
    | ReadOffline(instance: InstanceId)
    | WriteOffline(instance: InstanceId, status: InstanceStatus)
    | HeartbeatArrives(node: NodeId, reports: seq<Report>)

  function Clock(s: System, e: Event): int {
    match e
    case Request(_, _, now) => now
    case Enqueue(_, _, _, now) => now
    case QueueVerification(_, _, now) => now
    case Sweep(_, _, now) => now
    case Poll(_, _, now) => now
    case Lease(_, now) => now
    case _ => s.clock
  }

  predicate NoneAborts(db: Database, ids: set<TaskId>) {
    forall t :: t in ids ==> !AbortsSweep(db, t)
  }

  /** When an event can happen: the guards of the handlers, fresh identifiers, a clock that does not run backwards, at
      most one poll per node at a time, one report per delivered task with the statuses Agents use, and at most `lag`
      seconds between the two statements of a poll. */
  predicate Allowed(s: System, e: Event, lag: nat) {
    Clock(s, e) >= s.clock &&
    match e
    case CreateInstance(i, row) =>
      && i !in s.db.instances && (row.local ==> row.status.Stopped?)
      && (forall c :: c in s.checks ==> c.0 != i)
      && (forall t :: t in s.db.tasks ==> !IsOn(s.db.tasks[t].work, i))
    case EditStatus(i, _) => i in s.db.instances && !s.db.instances[i].local
    case DeleteInstance(i) => i in s.db.instances && !IsActive(s.db.instances[i].status)
    case Request(t, work, _) => t !in s.db.tasks && CanRun(s.db, work)
    case Enqueue(t, _, work, _) => t !in s.db.tasks && (work.OtherWork? || work == VerifyFile(None))
    case CreateFile(f, _) => f !in s.db.files && forall t :: t in s.db.tasks ==> !IsAbout(s.db.tasks[t].work, f)
    case UpdateFile(f, _) => f in s.db.files
    case RepairFile(f) =>
      && f in s.db.files && s.db.files[f].status.Verifying?
      && s.db.files[f].verifyTask.Some? && s.db.files[f].verifyTask.value in s.db.tasks
      && s.db.tasks[s.db.files[f].verifyTask.value].status.TimedOut?
    case QueueVerification(t, f, _) => t !in s.db.tasks && f in s.db.files
    case Sweep(handled, completed, now) =>
      handled <= Expired(s.db, now) && (completed ==> handled == Expired(s.db, now) && NoneAborts(s.db, handled))
    case Poll(node, t, now) =>
      && node !in s.picks && NoneAborts(s.db, Expired(s.db, now))
      && IsNextQueued(Swept(s.db, Expired(s.db, now)), node, t)
    case Lease(node, now) => node in s.picks && s.picks[node].task in s.db.tasks && now <= s.picks[node].at + lag
    case AbandonPoll(node) => node in s.picks
    case Result(t, request) =>
      && t in s.unreported && ResultOutcomeOf(s.db, t, request) == Recorded
      && (request.instanceStatus.Some? ==>
           request.instanceStatus.value in {InstanceStatus.Running, InstanceStatus.Stopped, InstanceStatus.Failed})
      && (request.fileStatus.Some? ==> request.fileStatus.value.Verified? || request.fileStatus.value.Rejected?)
    case InstanceDeadline(t) => t in s.db.tasks && s.db.tasks[t].IsLive() && s.db.tasks[t].work.OnInstance()
    case OtherDeadline(t) =>
      t in s.db.tasks && (s.db.tasks[t].work.OtherWork? || s.db.tasks[t].work == VerifyFile(None))
    case ReadOffline(i) =>
      i in s.db.instances && s.db.instances[i].local && (s.db.instances[i].status.Running? || s.db.instances[i].ollama)
    case WriteOffline(i, status) => (i, status) in s.checks
    case HeartbeatArrives(_, _) => true
  }

  function NextDb(s: System, e: Event, lag: nat): Database
    requires Allowed(s, e, lag)
  {
    var db := s.db;
    match e
    case CreateInstance(i, row) => db.(instances := db.instances[i := row])
    case EditStatus(i, status) => WithInstanceStatus(db, i, status)
    case DeleteInstance(i) => db.(instances := db.instances - {i})
    case Request(t, work, now) => Requested(db, t, work, now)
    case Enqueue(t, node, work, now) => WithTask(db, t, node, work, now)
    case CreateFile(f, node) => db.(files := db.files[f := FileRow(node, Verified, None)])
    case UpdateFile(f, node) => db.(files := db.files[f := FileRow(node, Verified, None)])
    case RepairFile(f) => WithFileStatus(db, f, VerifyTimeout)
    case QueueVerification(t, f, now) => WithVerification(db, t, f, now)
    case Sweep(handled, _, _) => Swept(db, handled)
    case Poll(_, _, now) => Swept(db, Expired(db, now))
    case Lease(node, now) => Leased(db, s.picks[node].task, now)
    case AbandonPoll(_) => db
    case Result(t, request) => WithResult(db, t, request)
    case InstanceDeadline(t) => SweptOne(db, t)
    case OtherDeadline(t) => WithTaskTimedOut(db, t)
    case ReadOffline(_) => db
    case WriteOffline(i, status) => WithInstanceStatus(db, i, status)
    case HeartbeatArrives(node, reports) => db.(instances := Reconciled(db.instances, node, reports))
  }

  function Next(s: System, e: Event, lag: nat): System
    requires Allowed(s, e, lag)
  {
    var s' := s.(db := NextDb(s, e, lag), clock := Clock(s, e));
    match e
    case Poll(node, t, now) => s'.(picks := s.picks[node := Pick(t, now)])
    case Lease(node, _) =>
      var t := s.picks[node].task;
      s'.(picks := s.picks - {node}, unreported := s.unreported + {t}, deliveries := s.deliveries + [t])
    case AbandonPoll(node) => s'.(picks := s.picks - {node})
    case Result(t, _) => s'.(unreported := s.unreported - {t})
    case ReadOffline(i) => s'.(checks := s.checks + {(i, s.db.instances[i].status)})
    case WriteOffline(i, status) => s'.(checks := s.checks - {(i, status)})
    case _ => s'
  }

  /** The events can happen one after the other from `s`. */
  predicate Legal(s: System, es: seq<Event>, lag: nat)
    decreases es
  {
    es == [] || (Allowed(s, es[0], lag) && Legal(Next(s, es[0], lag), es[1..], lag))
  }

  function Run(s: System, es: seq<Event>, lag: nat): System
    requires Legal(s, es, lag)
    decreases es
  {
    if es == [] then s else Run(Next(s, es[0], lag), es[1..], lag)
  }

  // ---------------------------------------------------------------- every event is a step of the queue

  function QueueOf(s: System): Queue {
    Queue(s.db.tasks, s.clock, s.picks, s.unreported, s.deliveries)
  }

  function StepOf(s: System, e: Event): Step {
    match e
    case Request(t, work, now) =>
      Insert(t, if CanRun(s.db, work) then s.db.instances[work.instance].node.value else "", work, now)
    case Enqueue(t, node, work, now) => Insert(t, node, work, now)
    case QueueVerification(t, f, now) =>
      Insert(t, if f in s.db.files then s.db.files[f].node else "", VerifyFile(Some(f)), now)
    case Sweep(handled, _, now) => TimeOut(handled, now)
    case Poll(node, t, now) => Choose(Expired(s.db, now), node, t, now)
    case Lease(node, now) => Deliver(node, now)
    case AbandonPoll(node) => Drop(node)
    case Result(t, request) => Finish(t, ResultStatus(request))
    case InstanceDeadline(t) => TimeOut({t}, s.clock)
    case OtherDeadline(t) => TimeOut({t}, s.clock)
    case _ => Wait(s.clock)
  }

  /** The event is the queue step, as far as the queue can see. */
  ghost predicate Refines(s: System, e: Event, lag: nat)
    requires Allowed(s, e, lag)
  {
    Enabled(QueueOf(s), StepOf(s, e), lag) && QueueOf(Next(s, e, lag)) == After(QueueOf(s), StepOf(s, e), lag)
  }

  /** Every handler acts on the task table as one of seven queue steps. */
  lemma StepRefines(s: System, e: Event, lag: nat)
    requires Allowed(s, e, lag)
    ensures Refines(s, e, lag)
  {
    if e.Request? || e.Enqueue? || e.QueueVerification? {
      InsertRefines(s, e, lag);
    } else if e.Sweep? || e.InstanceDeadline? || e.OtherDeadline? {
      TimeOutRefines(s, e, lag);
    } else if e.Poll? {
      PollRefines(s, e, lag);
    } else if e.Lease? || e.AbandonPoll? || e.Result? {
      DeliveryRefines(s, e, lag);
    } else {
      OtherRefines(s, e, lag);
    }
    hide Refines, Allowed;
  }

  lemma InsertRefines(s: System, e: Event, lag: nat)
    requires Allowed(s, e, lag) && (e.Request? || e.Enqueue? || e.QueueVerification?)
    ensures Refines(s, e, lag)
  {
    hide Reconciled, ConcernsInstance, ConcernsFile, Swept, SweptOne, WithResult, Leased;
  }

  lemma SweptTasks(db: Database, ids: set<TaskId>)
    ensures Swept(db, ids).tasks == TimedOutTasks(db.tasks, ids)
  {
  }

  lemma TimeOutRefines(s: System, e: Event, lag: nat)
    requires Allowed(s, e, lag) && (e.Sweep? || e.InstanceDeadline? || e.OtherDeadline?)
    ensures Refines(s, e, lag)
  {
    match e {
      case Sweep(handled, _, _) => SweptTasks(s.db, handled);
      case InstanceDeadline(t) => OneTimedOut(s.db, t);
      case OtherDeadline(t) => OneTimedOut(s.db, t);
      case _ =>
    }
    hide Reconciled, Swept, WithTaskTimedOut, TimedOutTasks, WithResult, Leased, Expired;
  }

  lemma OneTimedOut(db: Database, t: TaskId)
    requires t in db.tasks
    ensures WithTaskTimedOut(db, t).tasks == TimedOutTasks(db.tasks, {t})
  {
  }

  lemma PollRefines(s: System, e: Event, lag: nat)
    requires Allowed(s, e, lag) && e.Poll?
    ensures Refines(s, e, lag)
  {
    var ids := Expired(s.db, e.now);
    SweptTasks(s.db, ids);
    ChosenIsYoung(s.db, ids, e.node, e.task, e.now);
    hide Reconciled, Swept, TimedOutTasks, WithResult, Leased, Expired, NoneAborts;
  }

  /** What a complete sweep leaves queued is at most 300 seconds old. */
  lemma ChosenIsYoung(db: Database, ids: set<TaskId>, node: NodeId, t: TaskId, now: int)
    requires ids == Expired(db, now) && IsNextQueued(Swept(db, ids), node, t)
    ensures t in db.tasks && now <= db.tasks[t].createdAt + QUEUE_TIMEOUT_SECS
  {
    hide ConcernsInstance, ConcernsFile;
  }

  lemma DeliveryRefines(s: System, e: Event, lag: nat)
    requires Allowed(s, e, lag) && (e.Lease? || e.AbandonPoll? || e.Result?)
    ensures Refines(s, e, lag)
  {
    hide Reconciled, Swept, SweptOne, Requested, WithVerification, InstanceAfterResult;
  }

  lemma OtherRefines(s: System, e: Event, lag: nat)
    requires Allowed(s, e, lag)
    requires e.CreateInstance? || e.EditStatus? || e.DeleteInstance? || e.CreateFile? || e.UpdateFile? || e.RepairFile?
             || e.ReadOffline? || e.WriteOffline? || e.HeartbeatArrives?
    ensures Refines(s, e, lag)
  {
    hide Reconciled, Swept, SweptOne, Requested, WithVerification, WithResult, Leased;
  }

  // ---------------------------------------------------------------- rows and the tasks behind them

  /** Some queued or running task does this work. */
  ghost predicate HasLive(tasks: Tasks, work: Work) {
    exists t :: t in tasks && tasks[t].work == work && tasks[t].IsLive()
  }

  /** A local instance that is starting or stopping has a live task that starts or stops it. */
  ghost predicate Coupled(s: System, i: InstanceId) {
    i in s.db.instances && s.db.instances[i].local ==>
      && (s.db.instances[i].status.Starting? ==> HasLive(s.db.tasks, StartInstance(i)))
      && (s.db.instances[i].status.Stopping? ==> HasLive(s.db.tasks, StopInstance(i)))
  }

  ghost predicate HasTask(tasks: Tasks, f: FileId, status: TaskStatus) {
    exists t :: t in tasks && IsAbout(tasks[t].work, f) && tasks[t].status == status
  }

  /** A file shown as waiting has a queued verification, a file shown as being verified a running one. */
  ghost predicate FileCoupled(s: System, f: FileId) {
    f in s.db.files ==>
      && (s.db.files[f].status.VerifyPending? ==> HasTask(s.db.tasks, f, Queued))
      && (s.db.files[f].status.Verifying? ==> HasTask(s.db.tasks, f, TaskStatus.Running))
  }

  /** The write that ends a check of an offline instance puts back the status that was read: harmless unless that
      status has lost its task in between. */
  ghost predicate IsSafeWrite(s: System, i: InstanceId, status: InstanceStatus) {
    && (status.Starting? ==> HasLive(s.db.tasks, StartInstance(i)))
    && (status.Stopping? ==> HasLive(s.db.tasks, StopInstance(i)))
  }

  /** The event may end the task. */
  predicate MayEnd(s: System, e: Event, t: TaskId) {
    match e
    case Sweep(handled, _, _) => t in handled
    case Poll(_, _, now) => t in Expired(s.db, now)
    case InstanceDeadline(ended) => ended == t
    case OtherDeadline(ended) => ended == t
    case Result(ended, _) => ended == t
    case _ => false
  }

  /** A live task stays live unless the step times it out or finishes it. */
  lemma LiveKept(s: System, e: Event, lag: nat, t: TaskId)
    requires Allowed(s, e, lag) && t in s.db.tasks && s.db.tasks[t].IsLive()
    ensures t in Next(s, e, lag).db.tasks && Next(s, e, lag).db.tasks[t].work == s.db.tasks[t].work
    ensures !Next(s, e, lag).db.tasks[t].IsLive() ==> MayEnd(s, e, t)
  {
    StepRefines(s, e, lag);
    hide NextDb, Allowed;
    LiveKeptByStep(QueueOf(s), StepOf(s, e), lag, t);
  }

  lemma LiveKeptByStep(q: Queue, step: Step, lag: nat, t: TaskId)
    requires Enabled(q, step, lag) && t in q.tasks && q.tasks[t].IsLive()
    ensures t in After(q, step, lag).tasks && After(q, step, lag).tasks[t].work == q.tasks[t].work
    ensures !After(q, step, lag).tasks[t].IsLive() ==>
              match step
              case TimeOut(ids, _) => t in ids
              case Choose(ids, _, _, _) => t in ids
              case Finish(ended, _) => ended == t
              case _ => false
  {
    hide IsFirstQueued;
  }

  lemma HasLiveKept(s: System, e: Event, lag: nat, work: Work)
    requires Allowed(s, e, lag) && HasLive(s.db.tasks, work) && work.OnInstance()
    ensures HasLive(Next(s, e, lag).db.tasks, work) || TouchesInstance(s, e, work.instance)
  {
    var t :| t in s.db.tasks && s.db.tasks[t].work == work && s.db.tasks[t].IsLive();
    LiveKept(s, e, lag, t);
    hide NextDb, Reconciled, IsExpired;
    if !TouchesInstance(s, e, work.instance) {
      assert Next(s, e, lag).db.tasks[t].IsLive();
    }
  }

  /** The event ends tasks of this instance, and sets its status. */
  predicate Sweeps(e: Event) {
    e.Sweep? || e.Poll? || e.InstanceDeadline? || e.OtherDeadline?
  }

  predicate Settles(e: Event) {
    e.Result? || e.HeartbeatArrives?
  }

  ghost predicate TouchesInstance(s: System, e: Event, i: InstanceId) {
    match e
    case Sweep(handled, _, _) => ConcernsInstance(s.db, handled, i)
    case Poll(_, _, now) => ConcernsInstance(s.db, Expired(s.db, now), i)
    case InstanceDeadline(t) => t in s.db.tasks && IsOn(s.db.tasks[t].work, i)
    case Result(t, _) => t in s.db.tasks && IsOn(s.db.tasks[t].work, i)
    case _ => false
  }

  lemma TouchedSettles(s: System, e: Event, lag: nat, i: InstanceId)
    requires Allowed(s, e, lag) && TouchesInstance(s, e, i) && i in s.db.instances
    ensures i in Next(s, e, lag).db.instances
    ensures Next(s, e, lag).db.instances[i].status in
            {InstanceStatus.Running, InstanceStatus.Stopped, InstanceStatus.Failed}
  {
    hide Reconciled, ConcernsFile, IsExpired;
  }

  /** What an event that ends no task of the instance can do to its row. */
  /** Where the status of a row comes from, when no task of the instance is settled. */
  ghost predicate RowExplained(s: System, e: Event, lag: nat, i: InstanceId) {
    Allowed(s, e, lag) && i in Next(s, e, lag).db.instances &&
    var status := Next(s, e, lag).db.instances[i].status;
    || (i in s.db.instances && s.db.instances[i].local && status == s.db.instances[i].status)
    || status in {InstanceStatus.Running, InstanceStatus.Stopped, InstanceStatus.Failed}
    || (e.Request? && IsOn(e.work, i) && status == PendingStatus(e.work))
    || (e.WriteOffline? && e.instance == i && status == e.status && i in s.db.instances && s.db.instances[i].local)
  }

  lemma RowThroughSweep(s: System, e: Event, lag: nat, i: InstanceId)
    requires Allowed(s, e, lag) && !TouchesInstance(s, e, i)
    requires i in Next(s, e, lag).db.instances && Next(s, e, lag).db.instances[i].local
    requires Sweeps(e)
    ensures RowExplained(s, e, lag, i)
  {
    hide ConcernsFile, IsExpired;
  }

  lemma RowThroughReport(s: System, e: Event, lag: nat, i: InstanceId)
    requires Allowed(s, e, lag) && !TouchesInstance(s, e, i)
    requires i in Next(s, e, lag).db.instances && Next(s, e, lag).db.instances[i].local
    requires Settles(e)
    ensures RowExplained(s, e, lag, i)
  {
    hide ConcernsFile, IsExpired;
  }

  lemma RowOtherwise(s: System, e: Event, lag: nat, i: InstanceId)
    requires Allowed(s, e, lag) && !TouchesInstance(s, e, i)
    requires i in Next(s, e, lag).db.instances && Next(s, e, lag).db.instances[i].local
    requires !Sweeps(e) && !Settles(e)
    ensures RowExplained(s, e, lag, i)
  {
    hide ConcernsFile, IsExpired;
  }

  lemma UntouchedRow(s: System, e: Event, lag: nat, i: InstanceId)
    requires Allowed(s, e, lag) && !TouchesInstance(s, e, i)
    requires i in Next(s, e, lag).db.instances && Next(s, e, lag).db.instances[i].local
    ensures RowExplained(s, e, lag, i)
  {
    hide *;
    if Sweeps(e) {
      RowThroughSweep(s, e, lag, i);
    } else if Settles(e) {
      RowThroughReport(s, e, lag, i);
    } else {
      RowOtherwise(s, e, lag, i);
    }
  }

  lemma TouchedIsThere(s: System, e: Event, lag: nat, i: InstanceId)
    requires Allowed(s, e, lag) && TouchesInstance(s, e, i) && i in Next(s, e, lag).db.instances
    ensures i in s.db.instances
  {
    hide Reconciled, ConcernsInstance, ConcernsFile, IsExpired;
  }

  lemma RequestInserts(s: System, e: Event, lag: nat)
    requires Allowed(s, e, lag) && e.Request?
    ensures HasLive(Next(s, e, lag).db.tasks, e.work)
  {
    assert Next(s, e, lag).db.tasks[e.task].work == e.work && Next(s, e, lag).db.tasks[e.task].IsLive();
  }

  /** No event uncouples an instance from its task, except a write of a stale status. */
  lemma CoupledKept(s: System, e: Event, lag: nat, i: InstanceId)
    requires Allowed(s, e, lag) && Coupled(s, i)
    requires e.WriteOffline? && e.instance == i ==> IsSafeWrite(s, i, e.status)
    ensures Coupled(Next(s, e, lag), i)
  {
    hide Next, NextDb, Allowed, TouchesInstance;
    var s' := Next(s, e, lag);
    if i in s'.db.instances && s'.db.instances[i].local {
      if TouchesInstance(s, e, i) {
        TouchedIsThere(s, e, lag, i);
        TouchedSettles(s, e, lag, i);
      } else {
        UntouchedRow(s, e, lag, i);
        if HasLive(s.db.tasks, StartInstance(i)) { HasLiveKept(s, e, lag, StartInstance(i)); }
        if HasLive(s.db.tasks, StopInstance(i)) { HasLiveKept(s, e, lag, StopInstance(i)); }
        if e.Request? {
          RequestInserts(s, e, lag);
        }
      }
    }
  }

  // ---------------------------------------------------------------- model files

  ghost predicate TouchesFile(s: System, e: Event, f: FileId) {
    match e
    case Sweep(handled, _, _) => ConcernsFile(s.db, handled, f)
    case Poll(_, _, now) => ConcernsFile(s.db, Expired(s.db, now), f)
    case Result(t, _) => t in s.db.tasks && IsAbout(s.db.tasks[t].work, f)
    case Lease(node, _) =>
      node in s.picks && s.picks[node].task in s.db.tasks && IsAbout(s.db.tasks[s.picks[node].task].work, f)
    case _ => false
  }

  lemma HasTaskKept(s: System, e: Event, lag: nat, f: FileId, status: TaskStatus)
    requires Allowed(s, e, lag) && HasTask(s.db.tasks, f, status) && (status.Queued? || status.Running?)
    ensures HasTask(Next(s, e, lag).db.tasks, f, status) || TouchesFile(s, e, f)
  {
    var t :| t in s.db.tasks && IsAbout(s.db.tasks[t].work, f) && s.db.tasks[t].status == status;
    LiveKept(s, e, lag, t);
    if !TouchesFile(s, e, f) {
      UntouchedTask(s, e, lag, t, f);
    }
  }

  /** The event leaves the task as it is. */
  ghost predicate SameTask(s: System, e: Event, lag: nat, t: TaskId) {
    Allowed(s, e, lag) && t in s.db.tasks && t in Next(s, e, lag).db.tasks &&
    Next(s, e, lag).db.tasks[t] == s.db.tasks[t]
  }

  lemma TaskThroughSweep(s: System, e: Event, lag: nat, t: TaskId, f: FileId)
    requires Allowed(s, e, lag) && !TouchesFile(s, e, f)
    requires t in s.db.tasks && IsAbout(s.db.tasks[t].work, f) && s.db.tasks[t].IsLive()
    requires Sweeps(e)
    ensures SameTask(s, e, lag, t)
  {
    hide Reconciled, ConcernsInstance, IsExpired;
  }

  lemma TaskThroughReport(s: System, e: Event, lag: nat, t: TaskId, f: FileId)
    requires Allowed(s, e, lag) && !TouchesFile(s, e, f)
    requires t in s.db.tasks && IsAbout(s.db.tasks[t].work, f) && s.db.tasks[t].IsLive()
    requires Settles(e)
    ensures SameTask(s, e, lag, t)
  {
    hide Reconciled, ConcernsInstance, IsExpired;
  }

  lemma TaskOtherwise(s: System, e: Event, lag: nat, t: TaskId, f: FileId)
    requires Allowed(s, e, lag) && !TouchesFile(s, e, f)
    requires t in s.db.tasks && IsAbout(s.db.tasks[t].work, f) && s.db.tasks[t].IsLive()
    requires !Sweeps(e) && !Settles(e)
    ensures SameTask(s, e, lag, t)
  {
    hide Reconciled, ConcernsInstance, IsExpired;
  }

  lemma UntouchedTask(s: System, e: Event, lag: nat, t: TaskId, f: FileId)
    requires Allowed(s, e, lag) && !TouchesFile(s, e, f)
    requires t in s.db.tasks && IsAbout(s.db.tasks[t].work, f) && s.db.tasks[t].IsLive()
    ensures SameTask(s, e, lag, t)
  {
    hide *;
    if Sweeps(e) {
      TaskThroughSweep(s, e, lag, t, f);
    } else if Settles(e) {
      TaskThroughReport(s, e, lag, t, f);
    } else {
      TaskOtherwise(s, e, lag, t, f);
    }
  }

  lemma TouchedFile(s: System, e: Event, lag: nat, f: FileId)
    requires Allowed(s, e, lag) && TouchesFile(s, e, f) && f in s.db.files
    ensures f in Next(s, e, lag).db.files && !Next(s, e, lag).db.files[f].status.VerifyPending?
    ensures Next(s, e, lag).db.files[f].status.Verifying? ==>
              e.Lease? && HasTask(Next(s, e, lag).db.tasks, f, TaskStatus.Running)
  {
    hide Reconciled, ConcernsInstance, IsExpired;
    if e.Lease? {
      var t := s.picks[e.node].task;
      assert Next(s, e, lag).db.tasks[t].status.Running?;
    }
  }

  /** Where the status of a file comes from, when no verification of it is settled. */
  ghost predicate FileExplained(s: System, e: Event, lag: nat, f: FileId) {
    Allowed(s, e, lag) && f in Next(s, e, lag).db.files &&
    var status := Next(s, e, lag).db.files[f].status;
    || (f in s.db.files && status == s.db.files[f].status)
    || status.Verified? || status.VerifyTimeout?
    || (e.QueueVerification? && e.file == f && status.VerifyPending?)
  }

  lemma FileThroughSweep(s: System, e: Event, lag: nat, f: FileId)
    requires Allowed(s, e, lag) && !TouchesFile(s, e, f) && f in Next(s, e, lag).db.files
    requires Sweeps(e)
    ensures FileExplained(s, e, lag, f)
  {
    hide Reconciled, ConcernsInstance, IsExpired;
  }

  lemma FileThroughReport(s: System, e: Event, lag: nat, f: FileId)
    requires Allowed(s, e, lag) && !TouchesFile(s, e, f) && f in Next(s, e, lag).db.files
    requires Settles(e)
    ensures FileExplained(s, e, lag, f)
  {
    hide Reconciled, ConcernsInstance, IsExpired;
  }

  lemma FileOtherwise(s: System, e: Event, lag: nat, f: FileId)
    requires Allowed(s, e, lag) && !TouchesFile(s, e, f) && f in Next(s, e, lag).db.files
    requires !Sweeps(e) && !Settles(e)
    ensures FileExplained(s, e, lag, f)
  {
    hide Reconciled, ConcernsInstance, IsExpired;
  }

  lemma UntouchedFile(s: System, e: Event, lag: nat, f: FileId)
    requires Allowed(s, e, lag) && !TouchesFile(s, e, f) && f in Next(s, e, lag).db.files
    ensures FileExplained(s, e, lag, f)
  {
    hide *;
    if Sweeps(e) {
      FileThroughSweep(s, e, lag, f);
    } else if Settles(e) {
      FileThroughReport(s, e, lag, f);
    } else {
      FileOtherwise(s, e, lag, f);
    }
  }

  lemma TouchedFileIsThere(s: System, e: Event, lag: nat, f: FileId)
    requires Allowed(s, e, lag) && TouchesFile(s, e, f) && f in Next(s, e, lag).db.files
    ensures f in s.db.files
  {
    hide Reconciled, ConcernsInstance, ConcernsFile, IsExpired;
  }

  lemma VerificationInserts(s: System, e: Event, lag: nat)
    requires Allowed(s, e, lag) && e.QueueVerification?
    ensures HasTask(Next(s, e, lag).db.tasks, e.file, Queued)
  {
    var task := Next(s, e, lag).db.tasks[e.task];
    assert IsAbout(task.work, e.file) && task.status.Queued?;
  }

  lemma FileCoupledKept(s: System, e: Event, lag: nat, f: FileId)
    requires Allowed(s, e, lag) && FileCoupled(s, f)
    ensures FileCoupled(Next(s, e, lag), f)
  {
    hide Next, NextDb, Allowed, TouchesFile;
    var s' := Next(s, e, lag);
    if f in s'.db.files {
      if TouchesFile(s, e, f) {
        TouchedFileIsThere(s, e, lag, f);
        TouchedFile(s, e, lag, f);
      } else {
        UntouchedFile(s, e, lag, f);
        if HasTask(s.db.tasks, f, Queued) { HasTaskKept(s, e, lag, f, Queued); }
        if HasTask(s.db.tasks, f, TaskStatus.Running) { HasTaskKept(s, e, lag, f, TaskStatus.Running); }
        if e.QueueVerification? && e.file == f {
          VerificationInserts(s, e, lag);
        }
      }
    }
  }

  // ---------------------------------------------------------------- whole runs

  lemma EmptyInv(lag: nat)
    ensures QueueInv(QueueOf(EMPTY), lag)
  {
  }

  lemma {:induction false} RunKeepsQueue(s: System, es: seq<Event>, lag: nat)
    requires QueueInv(QueueOf(s), lag) && Legal(s, es, lag)
    ensures QueueInv(QueueOf(Run(s, es, lag)), lag)
    decreases es
  {
    if es != [] {
      StepRefines(s, es[0], lag);
      QueueInvKept(QueueOf(s), StepOf(s, es[0]), lag);
      RunKeepsQueue(Next(s, es[0], lag), es[1..], lag);
    }
  }

  /** In every run, tasks are delivered at most once, only to the node they were created for, and per node in the order
      of their creation; a task that ended with a result was delivered. */
  lemma DeliveredOnceInOrder(es: seq<Event>, lag: nat)
    requires Legal(EMPTY, es, lag)
    ensures var s := Run(EMPTY, es, lag);
            && (forall t :: t in s.db.tasks ==> s.db.tasks[t].attempts <= 1)
            && (forall t :: t in s.deliveries <==> t in s.db.tasks && s.db.tasks[t].attempts == 1)
            && (forall i, j :: 0 <= i < j < |s.deliveries| ==>
                 && s.deliveries[i] != s.deliveries[j]
                 && (s.db.tasks[s.deliveries[i]].node == s.db.tasks[s.deliveries[j]].node ==>
                      s.db.tasks[s.deliveries[i]].createdAt <= s.db.tasks[s.deliveries[j]].createdAt))
            && (forall t :: t in s.db.tasks && (s.db.tasks[t].status.Succeeded? || s.db.tasks[t].status.Failed?) ==>
                  t in s.deliveries)
  {
    EmptyInv(lag);
    RunKeepsQueue(EMPTY, es, lag);
    hide Run, Legal, PicksOk, NothingOvertaken;
  }

  /** Once a sweep at time `now` completes in any run, whatever was created more than 330 seconds (and the lag) before
      is at its end. */
  lemma SweepBoundsLifetime(es: seq<Event>, lag: nat, now: int)
    requires Legal(EMPTY, es, lag) && now >= Run(EMPTY, es, lag).clock
    ensures var s := Run(EMPTY, es, lag);
            forall t :: t in s.db.tasks && s.db.tasks[t].createdAt + 330 + lag < now ==>
              !Swept(s.db, Expired(s.db, now)).tasks[t].IsLive()
  {
    EmptyInv(lag);
    RunKeepsQueue(EMPTY, es, lag);
    var s := Run(EMPTY, es, lag);
    hide Run, Legal, ConcernsInstance, ConcernsFile;
    forall t | t in s.db.tasks && s.db.tasks[t].createdAt + 330 + lag < now
      ensures !Swept(s.db, Expired(s.db, now)).tasks[t].IsLive()
    {
      assert TaskOk(QueueOf(s).tasks[t], s.clock, lag);
    }
  }

  lemma {:induction false} RunKeepsFileCoupled(s: System, es: seq<Event>, lag: nat, f: FileId)
    requires Legal(s, es, lag) && FileCoupled(s, f)
    ensures FileCoupled(Run(s, es, lag), f)
    decreases es
  {
    if es != [] {
      FileCoupledKept(s, es[0], lag, f);
      RunKeepsFileCoupled(Next(s, es[0], lag), es[1..], lag, f);
    }
  }

  /** In every run, a file shown as waiting has a queued verification and one shown as being verified a running one. */
  lemma NoStuckFile(es: seq<Event>, lag: nat, f: FileId)
    requires Legal(EMPTY, es, lag)
    ensures FileCoupled(Run(EMPTY, es, lag), f)
  {
    RunKeepsFileCoupled(EMPTY, es, lag, f);
  }

  /** A poll hands out only undelivered tasks of its own node, chosen at most 300 seconds after their creation. */
  lemma LeaseHandsOutOwnTask(es: seq<Event>, lag: nat, node: NodeId, now: int)
    requires Legal(EMPTY, es, lag) && Allowed(Run(EMPTY, es, lag), Lease(node, now), lag)
    ensures var s := Run(EMPTY, es, lag);
            var t := s.picks[node].task;
            && s.db.tasks[t].node == node && t !in s.deliveries
            && s.picks[node].at <= s.db.tasks[t].createdAt + QUEUE_TIMEOUT_SECS
  {
    EmptyInv(lag);
    RunKeepsQueue(EMPTY, es, lag);
    hide Run, Legal;
    var s := Run(EMPTY, es, lag);
    assert PickOk(QueueOf(s), node);
  }

  lemma SweptSameTasks(db: Database, ids: set<TaskId>, t: TaskId)
    ensures t in Swept(db, ids).tasks <==> t in db.tasks
    ensures t in db.tasks ==> Swept(db, ids).tasks[t].createdAt == db.tasks[t].createdAt
  {
  }

  // ---------------------------------------------------------------- the handlers without a task

  /** Adding or moving a file shows it as verified, without a task; a file shown as being verified is repaired exactly
      if the task it points to has timed out, and then shows that. Other files stay. */
  lemma FileHandlers(s: System, e: Event, lag: nat, f: FileId)
    requires e.CreateFile? || e.UpdateFile? || e.RepairFile?
    ensures e == RepairFile(f) ==>
              (Allowed(s, e, lag) <==>
                && f in s.db.files && s.db.files[f].status.Verifying? && s.db.files[f].verifyTask.Some?
                && s.db.files[f].verifyTask.value in s.db.tasks
                && s.db.tasks[s.db.files[f].verifyTask.value].status.TimedOut?)
    ensures Allowed(s, e, lag) ==>
              var after := Next(s, e, lag).db;
              && after.tasks == s.db.tasks && after.instances == s.db.instances
              && (e.file != f ==> (f in after.files <==> f in s.db.files) &&
                                  (f in after.files ==> after.files[f] == s.db.files[f]))
              && (e == RepairFile(f) ==> after.files[f] == s.db.files[f].(status := VerifyTimeout))
              && ((e.CreateFile? || e.UpdateFile?) && e.file == f ==>
                    f in after.files && after.files[f] == FileRow(e.node, Verified, None))
  {
  }

  /** A local instance begins stopped and is deleted only while it is not running, starting or stopping; an edit sets
      the status of external instances only; and the status check writes back what it has read, of instances that run or
      belong to the shared daemon. */
  lemma InstanceHandlers(s: System, e: Event, lag: nat, i: InstanceId)
    requires Allowed(s, e, lag)
    ensures e.CreateInstance? && e.row.local ==> e.row.status.Stopped?
    ensures e == DeleteInstance(i) ==>
              && i in s.db.instances
              && s.db.instances[i].status !in {Starting, InstanceStatus.Running, Stopping}
              && Next(s, e, lag).db.instances ==
                 map other | other in s.db.instances && other != i :: s.db.instances[other]
    ensures (e.EditStatus? || e.WriteOffline?) && e.instance == i && i in s.db.instances ==>
              Next(s, e, lag).db.instances == s.db.instances[i := s.db.instances[i].(status := e.status)]
    ensures e.EditStatus? && e.instance == i ==> !s.db.instances[i].local
    ensures e == ReadOffline(i) ==>
              && s.db.instances[i].local && (s.db.instances[i].status.Running? || s.db.instances[i].ollama)
              && Next(s, e, lag).checks == s.checks + {(i, s.db.instances[i].status)}
    ensures e.WriteOffline? && e.instance == i ==> (i, e.status) in s.checks
  {
  }

  // ---------------------------------------------------------------- live tasks

  /** The time until which only its own result, deadline or lease may touch a live task. */
  ghost predicate IsDue(task: Task, due: int) {
    match task.status
    case Queued => due == task.createdAt + 300
    case Running => task.leaseUntil == Some(due)
    case _ => false
  }

  /** The event is the result of the task, the deadline of its request, or the lease of a poll that chose it. */
  predicate Takes(s: System, e: Event, t: TaskId) {
    || (e.Result? && e.task == t)
    || (e.InstanceDeadline? && e.task == t)
    || (e.OtherDeadline? && e.task == t)
    || (e.Lease? && e.node in s.picks && s.picks[e.node].task == t)
  }

  predicate NoneTakes(s: System, es: seq<Event>, lag: nat, t: TaskId)
    requires Legal(s, es, lag)
    decreases es
  {
    es == [] || (!Takes(s, es[0], t) && NoneTakes(Next(s, es[0], lag), es[1..], lag, t))
  }

  lemma {:induction false} ClockAdvances(s: System, es: seq<Event>, lag: nat)
    requires Legal(s, es, lag)
    ensures Run(s, es, lag).clock >= s.clock
    decreases es
  {
    hide NextDb;
    if es != [] {
      ClockAdvances(Next(s, es[0], lag), es[1..], lag);
    }
  }

  lemma LeftAloneStep(s: System, e: Event, lag: nat, t: TaskId, due: int)
    requires Allowed(s, e, lag) && t in s.db.tasks && IsDue(s.db.tasks[t], due)
    requires !Takes(s, e, t) && Next(s, e, lag).clock <= due
    ensures t in Next(s, e, lag).db.tasks && Next(s, e, lag).db.tasks[t] == s.db.tasks[t]
  {
    hide Next, NextDb, Allowed, After, Enabled, IsDue, IsExpired;
    StepRefines(s, e, lag);
    ClockIs(s, e, lag);
    NotDueNotExpired(s.db.tasks[t], due, Clock(s, e));
    StepSpares(s, e, lag, t);
    QueueLeavesAlone(QueueOf(s), StepOf(s, e), lag, t);
  }

  lemma NotDueNotExpired(task: Task, due: int, now: int)
    requires IsDue(task, due) && now <= due
    ensures !IsExpired(task, now)
  {
  }

  lemma QueueLeavesAlone(q: Queue, step: Step, lag: nat, t: TaskId)
    requires Enabled(q, step, lag) && t in q.tasks
    requires !(step.Finish? && step.task == t) && !(step.Deliver? && q.picks[step.node].task == t)
    requires step.TimeOut? || step.Choose? ==> t !in step.ids
    ensures t in After(q, step, lag).tasks && After(q, step, lag).tasks[t] == q.tasks[t]
  {
    hide IsFirstQueued;
  }

  lemma StepSpares(s: System, e: Event, lag: nat, t: TaskId)
    requires Allowed(s, e, lag) && t in s.db.tasks && !Takes(s, e, t) && !IsExpired(s.db.tasks[t], Clock(s, e))
    ensures var step := StepOf(s, e);
            && !(step.Finish? && step.task == t)
            && (step.Deliver? ==> step.node in s.picks && s.picks[step.node].task != t)
            && (step.TimeOut? || step.Choose? ==> t !in step.ids)
  {
  }

  lemma ClockIs(s: System, e: Event, lag: nat)
    requires Allowed(s, e, lag)
    ensures Next(s, e, lag).clock == Clock(s, e)
  {
    hide NextDb;
  }

  /** Until a queued task is 300 seconds old and until the lease of a running one ends, nothing in any run changes the
      task but its own result, the deadline of its request, or a lease to the poll that chose it. */
  lemma {:induction false} LeftAlone(s: System, es: seq<Event>, lag: nat, t: TaskId, due: int)
    requires Legal(s, es, lag) && t in s.db.tasks && IsDue(s.db.tasks[t], due)
    requires NoneTakes(s, es, lag, t) && Run(s, es, lag).clock <= due
    ensures t in Run(s, es, lag).db.tasks && Run(s, es, lag).db.tasks[t] == s.db.tasks[t]
    decreases es
  {
    if es != [] {
      ClockAdvances(Next(s, es[0], lag), es[1..], lag);
      LeftAloneStep(s, es[0], lag, t, due);
      LeftAlone(Next(s, es[0], lag), es[1..], lag, t, due);
    }
    hide Next, Allowed, IsDue, Takes;
  }

  lemma NeverChosenAgain(s: System, e: Event, lag: nat, t: TaskId)
    requires QueueInv(QueueOf(s), lag) && Allowed(s, e, lag) && t in s.db.tasks && s.db.tasks[t].status.Running?
    ensures Takes(s, e, t) ==> (e.Result? || e.InstanceDeadline? || e.OtherDeadline?) && e.task == t
  {
    assert TaskOk(QueueOf(s).tasks[t], s.clock, lag);
    if e.Lease? {
      assert PickOk(QueueOf(s), e.node);
    }
    hide DeliveriesOk, NothingOvertaken, NextDb;
  }

  /** Neither the Agent's result nor the deadline of the request is among the events. */
  predicate NeitherEnds(es: seq<Event>, t: TaskId) {
    forall i :: 0 <= i < |es| ==>
      !(es[i].Result? && es[i].task == t) && !(es[i].InstanceDeadline? && es[i].task == t) &&
      !(es[i].OtherDeadline? && es[i].task == t)
  }

  lemma {:induction false} LeasedStays(s: System, es: seq<Event>, lag: nat, t: TaskId, due: int)
    requires QueueInv(QueueOf(s), lag) && Legal(s, es, lag) && Run(s, es, lag).clock <= due
    requires t in s.db.tasks && s.db.tasks[t].status.Running? && IsDue(s.db.tasks[t], due) && NeitherEnds(es, t)
    ensures t in Run(s, es, lag).db.tasks && Run(s, es, lag).db.tasks[t] == s.db.tasks[t]
    decreases es
  {
    hide Next, Allowed, IsDue, Takes, QueueInv, Enabled, After;
    if es != [] {
      NeverChosenAgain(s, es[0], lag, t);
      ClockAdvances(Next(s, es[0], lag), es[1..], lag);
      LeftAloneStep(s, es[0], lag, t, due);
      StepRefines(s, es[0], lag);
      QueueInvKept(QueueOf(s), StepOf(s, es[0]), lag);
      LeasedStays(Next(s, es[0], lag), es[1..], lag, t, due);
    }
  }

  /** In every run a leased task keeps running for the 30 seconds of its lease, whatever sweeps, polls and heartbeats
      come in between, unless its result is recorded or its request gives up. */
  lemma LeaseIsRespected(before: seq<Event>, node: NodeId, now: int, es: seq<Event>, lag: nat)
    requires Legal(EMPTY, before, lag) && Allowed(Run(EMPTY, before, lag), Lease(node, now), lag)
    requires var s := Run(EMPTY, before, lag);
             && Legal(Next(s, Lease(node, now), lag), es, lag) && NeitherEnds(es, s.picks[node].task)
             && Run(Next(s, Lease(node, now), lag), es, lag).clock <= now + 30
    ensures var s := Run(EMPTY, before, lag);
            var t, later := s.picks[node].task, Run(Next(s, Lease(node, now), lag), es, lag);
            && t in later.db.tasks
            && later.db.tasks[t] == s.db.tasks[t].(status := TaskStatus.Running, leaseUntil := Some(now + 30),
                                                   attempts := s.db.tasks[t].attempts + 1)
  {
    EmptyInv(lag);
    RunKeepsQueue(EMPTY, before, lag);
    var s := Run(EMPTY, before, lag);
    var leased := Next(s, Lease(node, now), lag);
    LeaseOutcome(s.db, s.picks[node].task, now);
    StepRefines(s, Lease(node, now), lag);
    QueueInvKept(QueueOf(s), StepOf(s, Lease(node, now)), lag);
    LeasedStays(leased, es, lag, s.picks[node].task, now + 30);
    hide Run, Legal, QueueInv, Enabled, After;
  }

  // ---------------------------------------------------------------- terminal states

  /** A task at its end changes only from timed out, by a late result or by the second half of a poll that chose it. */
  lemma TerminalStep(s: System, e: Event, lag: nat, t: TaskId)
    requires QueueInv(QueueOf(s), lag) && Allowed(s, e, lag) && t in s.db.tasks && !s.db.tasks[t].IsLive()
    ensures t in Next(s, e, lag).db.tasks
    ensures Next(s, e, lag).db.tasks[t] != s.db.tasks[t] ==>
              && s.db.tasks[t].status.TimedOut?
              && ((e.Result? && e.task == t) || (e.Lease? && s.picks[e.node].task == t))
  {
    StepRefines(s, e, lag);
    TerminalTaskStep(QueueOf(s), StepOf(s, e), lag, t);
    hide Next, NextDb, Allowed, QueueInv, Enabled, After;
  }

  /** A result is final: no continuation of any run changes a task that succeeded or failed. */
  lemma {:induction false} ResultIsFinal(s: System, es: seq<Event>, lag: nat, t: TaskId)
    requires QueueInv(QueueOf(s), lag) && Legal(s, es, lag)
    requires t in s.db.tasks && (s.db.tasks[t].status.Succeeded? || s.db.tasks[t].status.Failed?)
    ensures t in Run(s, es, lag).db.tasks && Run(s, es, lag).db.tasks[t] == s.db.tasks[t]
    decreases es
  {
    if es != [] {
      TerminalStep(s, es[0], lag, t);
      StepRefines(s, es[0], lag);
      QueueInvKept(QueueOf(s), StepOf(s, es[0]), lag);
      ResultIsFinal(Next(s, es[0], lag), es[1..], lag, t);
    }
  }
}
