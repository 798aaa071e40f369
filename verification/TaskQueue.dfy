/** The task table seen as a queue: the few ways in which a task ever changes, and what all of them keep. */
module TaskQueue {
  import opened Options
  import opened Heartbeat
  import opened TaskLifecycle

  type Tasks = map<TaskId, Task>

  /** A task chosen by a poll that has not been leased yet, and the time it was chosen. */
  datatype Pick = Pick(task: TaskId, at: int)

  /** `unreported` are the delivered tasks whose Agent still has to answer; `deliveries` lists every lease. */
  datatype Queue = Queue(tasks: Tasks, clock: int, picks: map<NodeId, Pick>, unreported: set<TaskId>,
                         deliveries: seq<TaskId>)

  datatype Step =
    | Insert(task: TaskId, node: NodeId, work: Work, now: int)
    | TimeOut(ids: set<TaskId>, now: int)
    | Choose(ids: set<TaskId>, node: NodeId, task: TaskId, now: int)
    | Deliver(node: NodeId, now: int)
    | Drop(node: NodeId)
    | Finish(task: TaskId, status: TaskStatus)
    | Wait(now: int)

  function TimedOutTasks(tasks: Tasks, ids: set<TaskId>): Tasks {
    map t | t in tasks :: if t in ids then TimedOutTask(tasks[t]) else tasks[t]
  }

  predicate IsFirstQueued(tasks: Tasks, node: NodeId, id: TaskId) {
    && id in tasks && tasks[id].node == node && tasks[id].status.Queued?
    && forall t :: t in tasks && tasks[t].node == node && tasks[t].status.Queued? ==>
         tasks[id].createdAt <= tasks[t].createdAt
  }

  predicate Enabled(q: Queue, step: Step, lag: nat) {
    match step
    case Insert(t, _, _, now) => t !in q.tasks && now >= q.clock
    case TimeOut(ids, now) => now >= q.clock
    case Choose(ids, node, t, now) =>
      && now >= q.clock && node !in q.picks && IsFirstQueued(TimedOutTasks(q.tasks, ids), node, t)
      && now <= q.tasks[t].createdAt + QUEUE_TIMEOUT_SECS
    case Deliver(node, now) =>
      now >= q.clock && node in q.picks && q.picks[node].task in q.tasks && now <= q.picks[node].at + lag
    case Drop(node) => node in q.picks
    case Finish(t, status) => t in q.unreported && t in q.tasks && (status.Succeeded? || status.Failed?)
    case Wait(now) => now >= q.clock
  }

  function After(q: Queue, step: Step, lag: nat): Queue
    requires Enabled(q, step, lag)
  {
    match step
    case Insert(t, node, work, now) => q.(tasks := q.tasks[t := Task(node, work, Queued, now, None, 0)], clock := now)
    case TimeOut(ids, now) => q.(tasks := TimedOutTasks(q.tasks, ids), clock := now)
    case Choose(ids, node, t, now) =>
      q.(tasks := TimedOutTasks(q.tasks, ids), clock := now, picks := q.picks[node := Pick(t, now)])
    case Deliver(node, now) =>
      var t := q.picks[node].task;
      q.(tasks := q.tasks[t := LeasedTask(q.tasks[t], now)], clock := now, picks := q.picks - {node},
         unreported := q.unreported + {t}, deliveries := q.deliveries + [t])
    case Drop(node) => q.(picks := q.picks - {node})
    case Finish(t, status) => q.(tasks := q.tasks[t := q.tasks[t].(status := status)], unreported := q.unreported - {t})
    case Wait(now) => q.(clock := now)
  }

  // ---------------------------------------------------------------- the invariant

  /** A task is leased at most once, while at most 300 seconds old apart from the lag; only a delivered task ends
      with a result. */
  predicate TaskOk(task: Task, clock: int, lag: nat) {
    && task.createdAt <= clock && task.attempts <= 1
    && (task.status.Queued? ==> task.attempts == 0)
    && (task.status.Running? ==>
         && task.attempts == 1 && task.leaseUntil.Some?
         && task.leaseUntil.value <= task.createdAt + QUEUE_TIMEOUT_SECS + LEASE_SECS + lag)
    && (task.status.Succeeded? || task.status.Failed? ==> task.attempts == 1)
  }

  ghost predicate TasksOk(q: Queue, lag: nat) {
    && (forall t :: t in q.tasks ==> TaskOk(q.tasks[t], q.clock, lag))
    && (forall t :: t in q.unreported ==>
         t in q.tasks && q.tasks[t].attempts == 1 && (q.tasks[t].status.Running? || q.tasks[t].status.TimedOut?))
  }

  /** A chosen task is still undelivered, belongs to the polling node and was at most 300 seconds old when chosen. */
  ghost predicate PickOk(q: Queue, node: NodeId)
    requires node in q.picks
  {
    var pick := q.picks[node];
    && pick.task in q.tasks && q.tasks[pick.task].node == node && q.tasks[pick.task].attempts == 0
    && (q.tasks[pick.task].status.Queued? || q.tasks[pick.task].status.TimedOut?)
    && pick.at <= q.tasks[pick.task].createdAt + QUEUE_TIMEOUT_SECS
    && (forall t :: t in q.tasks && q.tasks[t].node == node && q.tasks[t].status.Queued? ==>
         q.tasks[pick.task].createdAt <= q.tasks[t].createdAt)
  }

  ghost predicate PicksOk(q: Queue) {
    forall node :: node in q.picks ==> PickOk(q, node)
  }

  /** Every delivered task was delivered once, in order of creation among the tasks of its node. */
  ghost predicate DeliveriesOk(q: Queue) {
    && (forall t :: t in q.deliveries <==> t in q.tasks && q.tasks[t].attempts == 1)
    && (forall i, j :: 0 <= i < j < |q.deliveries| ==>
         && q.deliveries[i] != q.deliveries[j]
         && (q.tasks[q.deliveries[i]].node == q.tasks[q.deliveries[j]].node ==>
              q.tasks[q.deliveries[i]].createdAt <= q.tasks[q.deliveries[j]].createdAt))
  }

  predicate IsWaiting(q: Queue, t: TaskId) {
    t in q.tasks && (q.tasks[t].status.Queued? || (q.tasks[t].node in q.picks && q.picks[q.tasks[t].node].task == t))
  }

  /** Nothing that waits for a node is older than what the node was given. */
  ghost predicate NothingOvertaken(q: Queue) {
    forall t, u ::
      (t in q.deliveries && t in q.tasks && IsWaiting(q, u) && q.tasks[t].node == q.tasks[u].node)
      ==> q.tasks[t].createdAt <= q.tasks[u].createdAt
  }

  ghost predicate QueueInv(q: Queue, lag: nat) {
    TasksOk(q, lag) && PicksOk(q) && DeliveriesOk(q) && NothingOvertaken(q)
  }

  // ---------------------------------------------------------------- every step keeps it

  lemma TasksKept(q: Queue, step: Step, lag: nat)
    requires QueueInv(q, lag) && Enabled(q, step, lag)
    ensures TasksOk(After(q, step, lag), lag)
  {
    hide IsFirstQueued, DeliveriesOk, NothingOvertaken;
  }

  lemma PicksKept(q: Queue, step: Step, lag: nat)
    requires QueueInv(q, lag) && Enabled(q, step, lag)
    ensures PicksOk(After(q, step, lag))
  {
    hide DeliveriesOk, NothingOvertaken;
    var q' := After(q, step, lag);
    forall node | node in q'.picks ensures PickOk(q', node) {
      if node in q.picks {
        assert PickOk(q, node);
      }
    }
  }

  lemma DeliveriesKept(q: Queue, step: Step, lag: nat)
    requires QueueInv(q, lag) && Enabled(q, step, lag)
    ensures DeliveriesOk(After(q, step, lag))
  {
    if step.Deliver? {
      DeliveryExtends(q, step, lag);
    } else {
      NothingDelivered(q, step, lag);
      SameDeliveries(q, After(q, step, lag));
    }
    hide After, Enabled, QueueInv, DeliveriesOk;
  }

  /** The same deliveries, of tasks that have kept their node and their time of creation. */
  ghost predicate KeepsDeliveries(q: Queue, q': Queue) {
    && q'.deliveries == q.deliveries
    && (forall t :: t in q.tasks ==>
          t in q'.tasks && q'.tasks[t].node == q.tasks[t].node && q'.tasks[t].createdAt == q.tasks[t].createdAt
          && q'.tasks[t].attempts == q.tasks[t].attempts)
    && (forall t :: t in q'.tasks && t !in q.tasks ==> q'.tasks[t].attempts == 0)
  }

  lemma NothingDelivered(q: Queue, step: Step, lag: nat)
    requires Enabled(q, step, lag) && !step.Deliver?
    requires step.Finish? ==> step.task in q.tasks
    ensures KeepsDeliveries(q, After(q, step, lag))
  {
    hide IsFirstQueued;
  }

  lemma SameDeliveries(q: Queue, q': Queue)
    requires DeliveriesOk(q) && KeepsDeliveries(q, q')
    ensures DeliveriesOk(q')
  {
    assert forall t :: t in q.deliveries ==> t in q.tasks;
  }

  lemma DeliveryExtends(q: Queue, step: Step, lag: nat)
    requires QueueInv(q, lag) && Enabled(q, step, lag) && step.Deliver?
    ensures DeliveriesOk(After(q, step, lag))
  {
    assert PickOk(q, step.node);
    var t := q.picks[step.node].task;
    forall i | 0 <= i < |q.deliveries|
      ensures q.deliveries[i] != t && (q.tasks[q.deliveries[i]].node == step.node ==>
                q.tasks[q.deliveries[i]].createdAt <= q.tasks[t].createdAt)
    {
      assert q.deliveries[i] in q.deliveries && IsWaiting(q, t);
    }
    hide TasksOk, PicksOk, NothingOvertaken;
  }

  lemma OrderKept(q: Queue, step: Step, lag: nat)
    requires QueueInv(q, lag) && Enabled(q, step, lag)
    ensures NothingOvertaken(After(q, step, lag))
  {
    if step.Deliver? {
      DeliveryKeepsOrder(q, step, lag);
    } else if step.Insert? {
      InsertKeepsOrder(q, step, lag);
    } else {
      OthersKeepOrder(q, step, lag);
    }
    hide After, Enabled, QueueInv, NothingOvertaken;
  }

  lemma DeliveryKeepsOrder(q: Queue, step: Step, lag: nat)
    requires QueueInv(q, lag) && Enabled(q, step, lag) && step.Deliver?
    ensures NothingOvertaken(After(q, step, lag))
  {
    hide DeliveriesOk;
    var q', chosen := After(q, step, lag), q.picks[step.node].task;
    assert PickOk(q, step.node);
    forall t, u | t in q'.deliveries && t in q'.tasks && IsWaiting(q', u) && q'.tasks[t].node == q'.tasks[u].node
      ensures q'.tasks[t].createdAt <= q'.tasks[u].createdAt
    {
      assert u != chosen && IsWaiting(q, u);
    }
  }

  lemma InsertKeepsOrder(q: Queue, step: Step, lag: nat)
    requires QueueInv(q, lag) && Enabled(q, step, lag) && step.Insert?
    ensures NothingOvertaken(After(q, step, lag))
  {
    hide IsFirstQueued;
    var q' := After(q, step, lag);
    forall t, u | t in q'.deliveries && t in q'.tasks && IsWaiting(q', u) && q'.tasks[t].node == q'.tasks[u].node
      ensures q'.tasks[t].createdAt <= q'.tasks[u].createdAt
    {
      assert t in q.tasks && TaskOk(q.tasks[t], q.clock, lag);
      assert u != step.task ==> IsWaiting(q, u);
    }
  }

  lemma OthersKeepOrder(q: Queue, step: Step, lag: nat)
    requires QueueInv(q, lag) && Enabled(q, step, lag) && !step.Deliver? && !step.Insert?
    ensures NothingOvertaken(After(q, step, lag))
  {
    NothingDelivered(q, step, lag);
    NothingNewWaits(q, step, lag);
    hide After, Enabled, IsFirstQueued, DeliveriesOk, PicksOk, TasksOk, IsWaiting;
  }

  lemma NothingNewWaits(q: Queue, step: Step, lag: nat)
    requires Enabled(q, step, lag) && !step.Deliver? && !step.Insert?
    ensures After(q, step, lag).tasks.Keys == q.tasks.Keys
    ensures forall u :: IsWaiting(After(q, step, lag), u) ==> IsWaiting(q, u)
  {
  }

  lemma QueueInvKept(q: Queue, step: Step, lag: nat)
    requires QueueInv(q, lag) && Enabled(q, step, lag)
    ensures QueueInv(After(q, step, lag), lag)
  {
    TasksKept(q, step, lag);
    PicksKept(q, step, lag);
    DeliveriesKept(q, step, lag);
    OrderKept(q, step, lag);
    hide After, Enabled, TasksOk, PicksOk, DeliveriesOk, NothingOvertaken;
  }

  /** A task at its end changes only from timed out, by a late result or by the delivery a poll had chosen it for. */
  lemma TerminalTaskStep(q: Queue, step: Step, lag: nat, t: TaskId)
    requires QueueInv(q, lag) && Enabled(q, step, lag) && t in q.tasks && !q.tasks[t].IsLive()
    ensures t in After(q, step, lag).tasks
    ensures After(q, step, lag).tasks[t] != q.tasks[t] ==>
              && q.tasks[t].status.TimedOut?
              && ((step.Finish? && step.task == t) || (step.Deliver? && q.picks[step.node].task == t))
  {
    if step.Deliver? {
      assert PickOk(q, step.node);
    }
    hide NothingOvertaken, DeliveriesOk, IsFirstQueued;
  }
}
