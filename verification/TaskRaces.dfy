/** Where handlers of several statements meet other handlers: the check of an offline instance, which writes back a
    status it has read before, and the poll, which leases a task it has selected before.  Both are told exactly. */
module TaskRaces {
  import opened Options
  import opened Heartbeat
  import opened TaskLifecycle
  import opened TaskQueue
  import opened TaskRuns

  // ---------------------------------------------------------------- runs from their end

  lemma {:induction false} RunSnoc(s: System, es: seq<Event>, lag: nat)
    requires es != [] && Legal(s, es, lag)
    ensures var front, last := es[..|es| - 1], es[|es| - 1];
            && Legal(s, front, lag) && Allowed(Run(s, front, lag), last, lag)
            && Run(s, es, lag) == Next(Run(s, front, lag), last, lag)
    decreases es
  {
    hide Allowed, Next;
    if |es| == 1 {
      assert es[1..] == [] && es[..0] == [];
    } else {
      var next := Next(s, es[0], lag);
      RunSnoc(next, es[1..], lag);
      assert es[1..][..|es| - 2] == es[..|es| - 1][1..];
    }
  }

  // ---------------------------------------------------------------- stuck instances

  /** The event writes a remembered status about the instance that has lost its task in the meantime. */
  ghost predicate WritesUnsafely(s: System, e: Event, i: InstanceId) {
    e.WriteOffline? && e.instance == i && i in s.db.instances && s.db.instances[i].local && !IsSafeWrite(s, i, e.status)
  }

  /** The event sets the status of the instance. (A pending instance cannot be deleted.) */
  ghost predicate SetsStatus(s: System, e: Event, i: InstanceId) {
    || TouchesInstance(s, e, i)
    || (e.Request? && IsOn(e.work, i))
    || (e.WriteOffline? && e.instance == i)
    || (e.HeartbeatArrives? && i in s.db.instances && Speaks(s.db.instances[i], i, e.node, e.reports))
  }

  /** The heartbeat reports the instance, or fails it for not being reported. */
  predicate Speaks(row: Instance, i: InstanceId, node: NodeId, reports: seq<Report>) {
    IsManagedOn(row, node) && (LastReport(reports, i) >= 0 || (IsActive(row.status) && !row.ollama))
  }

  /** The task that an instance with a pending status waits for. */
  function NeededWork(row: Instance, i: InstanceId): Work {
    if row.status.Starting? then StartInstance(i) else StopInstance(i)
  }

  /** The second half of a poll leases a task of the kind the instance waits for, which may have been timed out. */
  ghost predicate RevivesTask(s: System, e: Event, i: InstanceId) {
    && e.Lease? && e.node in s.picks && s.picks[e.node].task in s.db.tasks && i in s.db.instances
    && s.db.tasks[s.picks[e.node].task].work == NeededWork(s.db.instances[i], i)
  }

  /** Event `n` writes unsafely about the instance, and no later event sets its status or revives its task. */
  ghost predicate StuckSince(es: seq<Event>, n: int, i: InstanceId, lag: nat) {
    && 0 <= n < |es| && Legal(EMPTY, es[..n], lag) && WritesUnsafely(Run(EMPTY, es[..n], lag), es[n], i)
    && forall m :: n < m < |es| ==>
         Legal(EMPTY, es[..m], lag) && !Unsticks(Run(EMPTY, es[..m], lag), es[m], i)
  }

  ghost predicate Unsticks(s: System, e: Event, i: InstanceId) {
    SetsStatus(s, e, i) || RevivesTask(s, e, i)
  }

  lemma UnsafeWriteUncouples(s: System, e: Event, lag: nat, i: InstanceId)
    requires Allowed(s, e, lag) && WritesUnsafely(s, e, i)
    ensures !Coupled(Next(s, e, lag), i)
  {
    hide HasLive;
  }

  /** Whatever else sets the status of an instance, or revives its task, couples it. */
  lemma UnstickingCouples(s: System, e: Event, lag: nat, i: InstanceId)
    requires Allowed(s, e, lag) && Unsticks(s, e, i) && !WritesUnsafely(s, e, i)
    ensures Coupled(Next(s, e, lag), i)
  {
    if TouchesInstance(s, e, i) {
      if i in s.db.instances {
        TouchedSettles(s, e, lag, i);
      } else {
        StaysAway(s, e, lag, i);
      }
    } else if e.Request? && IsOn(e.work, i) {
      var s' := Next(s, e, lag);
      assert s'.db.tasks[e.task].work == e.work && s'.db.tasks[e.task].IsLive();
    } else if e.Lease? {
      LeaseCouples(s, e, lag, i);
    } else if e.WriteOffline? {
      SafeWriteCouples(s, e, lag, i);
    } else {
      SpokenSettles(s, e, lag, i);
    }
    hide Next, Allowed, TouchesInstance, HasLive;
  }

  lemma StaysAway(s: System, e: Event, lag: nat, i: InstanceId)
    requires Allowed(s, e, lag) && TouchesInstance(s, e, i) && i !in s.db.instances
    ensures i !in Next(s, e, lag).db.instances
  {
    hide ConcernsFile, ConcernsInstance, IsExpired;
  }

  lemma LeaseCouples(s: System, e: Event, lag: nat, i: InstanceId)
    requires Allowed(s, e, lag) && RevivesTask(s, e, i)
    ensures Coupled(Next(s, e, lag), i)
  {
    var s' := Next(s, e, lag);
    assert s'.db.tasks[s.picks[e.node].task].IsLive();
  }

  lemma SafeWriteCouples(s: System, e: Event, lag: nat, i: InstanceId)
    requires Allowed(s, e, lag) && e.WriteOffline? && e.instance == i && !WritesUnsafely(s, e, i)
    ensures Coupled(Next(s, e, lag), i)
  {
    hide HasLive;
  }

  lemma SpokenSettles(s: System, e: Event, lag: nat, i: InstanceId)
    requires Allowed(s, e, lag) && e.HeartbeatArrives? && i in s.db.instances
    requires Speaks(s.db.instances[i], i, e.node, e.reports)
    ensures i in Next(s, e, lag).db.instances
    ensures Next(s, e, lag).db.instances[i].status in
            {InstanceStatus.Running, InstanceStatus.Stopped, InstanceStatus.Failed}
  {
  }

  /** Nothing else helps an instance that has lost its task. */
  lemma UncoupledStays(s: System, e: Event, lag: nat, i: InstanceId)
    requires Allowed(s, e, lag) && !Coupled(s, i) && !Unsticks(s, e, i)
    ensures !Coupled(Next(s, e, lag), i)
  {
    UnspokenRow(s, e, lag, i);
    NoNewTask(s, e, lag, NeededWork(s.db.instances[i], i), i);
    hide Next, Allowed, SetsStatus, RevivesTask;
  }

  /** The event leaves the row as it is. */
  ghost predicate SameRow(s: System, e: Event, lag: nat, i: InstanceId) {
    Allowed(s, e, lag) && i in s.db.instances && i in Next(s, e, lag).db.instances &&
    Next(s, e, lag).db.instances[i] == s.db.instances[i]
  }

  lemma PendingRowThroughSweep(s: System, e: Event, lag: nat, i: InstanceId)
    requires Allowed(s, e, lag) && !SetsStatus(s, e, i)
    requires i in s.db.instances && s.db.instances[i].local
    requires s.db.instances[i].status.Starting? || s.db.instances[i].status.Stopping?
    requires Sweeps(e)
    ensures SameRow(s, e, lag, i)
  {
    hide ConcernsFile, IsExpired, HasLive;
  }

  lemma PendingRowThroughReport(s: System, e: Event, lag: nat, i: InstanceId)
    requires Allowed(s, e, lag) && !SetsStatus(s, e, i)
    requires i in s.db.instances && s.db.instances[i].local
    requires s.db.instances[i].status.Starting? || s.db.instances[i].status.Stopping?
    requires Settles(e)
    ensures SameRow(s, e, lag, i)
  {
    hide ConcernsFile, IsExpired, HasLive;
  }

  lemma PendingRowOtherwise(s: System, e: Event, lag: nat, i: InstanceId)
    requires Allowed(s, e, lag) && !SetsStatus(s, e, i)
    requires i in s.db.instances && s.db.instances[i].local
    requires s.db.instances[i].status.Starting? || s.db.instances[i].status.Stopping?
    requires !Sweeps(e) && !Settles(e)
    ensures SameRow(s, e, lag, i)
  {
    hide ConcernsFile, IsExpired, HasLive;
  }

  lemma UnspokenRow(s: System, e: Event, lag: nat, i: InstanceId)
    requires Allowed(s, e, lag) && !SetsStatus(s, e, i)
    requires i in s.db.instances && s.db.instances[i].local
    requires s.db.instances[i].status.Starting? || s.db.instances[i].status.Stopping?
    ensures SameRow(s, e, lag, i)
  {
    hide *;
    if Sweeps(e) {
      PendingRowThroughSweep(s, e, lag, i);
    } else if Settles(e) {
      PendingRowThroughReport(s, e, lag, i);
    } else {
      PendingRowOtherwise(s, e, lag, i);
    }
  }

  lemma NoNewTask(s: System, e: Event, lag: nat, work: Work, i: InstanceId)
    requires Allowed(s, e, lag) && !SetsStatus(s, e, i) && !RevivesTask(s, e, i) && !HasLive(s.db.tasks, work)
    requires i in s.db.instances && work == NeededWork(s.db.instances[i], i)
    ensures !HasLive(Next(s, e, lag).db.tasks, work)
  {
    StepRefines(s, e, lag);
    var q, step := QueueOf(s), StepOf(s, e);
    assert Enabled(q, step, lag) && Next(s, e, lag).db.tasks == After(q, step, lag).tasks;
    assert step.Insert? ==> step.work != work;
    hide Next, Allowed, TouchesInstance, After, Enabled;
    forall t | t in Next(s, e, lag).db.tasks && Next(s, e, lag).db.tasks[t].work == work
      ensures !Next(s, e, lag).db.tasks[t].IsLive()
    {
      if Next(s, e, lag).db.tasks[t].IsLive() {
        NewLiveTask(q, step, lag, t);
      }
    }
  }

  /** A task becomes live only by being inserted or delivered. */
  lemma NewLiveTask(q: Queue, step: Step, lag: nat, t: TaskId)
    requires Enabled(q, step, lag) && t in After(q, step, lag).tasks && After(q, step, lag).tasks[t].IsLive()
    ensures || (t in q.tasks && q.tasks[t].IsLive() && q.tasks[t].work == After(q, step, lag).tasks[t].work)
            || (step.Insert? && step.task == t && step.work == After(q, step, lag).tasks[t].work)
            || (step.Deliver? && q.picks[step.node].task == t && q.tasks[t].work == After(q, step, lag).tasks[t].work)
  {
    hide IsFirstQueued;
  }

  /** `StuckSince` one event further. */
  lemma StuckSinceSnoc(es: seq<Event>, n: int, i: InstanceId, lag: nat)
    requires es != [] && Legal(EMPTY, es, lag)
    ensures var front, last := es[..|es| - 1], es[|es| - 1];
            && Legal(EMPTY, front, lag)
            && (StuckSince(es, n, i, lag) <==>
                  if n == |front| then WritesUnsafely(Run(EMPTY, front, lag), last, i)
                  else StuckSince(front, n, i, lag) && !Unsticks(Run(EMPTY, front, lag), last, i))
  {
    hide WritesUnsafely, Unsticks, Run;
    RunSnoc(EMPTY, es, lag);
    var front := es[..|es| - 1];
    forall m | 0 <= m <= |front| ensures es[..m] == front[..m] {}
    assert es[..|front|] == front;
  }

  /** For every run and every local instance, those of the shared daemon included: it is starting or stopping without a
      live task exactly when some check of it has written back a status that had lost its task in the meantime, and no
      later event has set its status or revived such a task. */
  lemma {:induction false} StuckExactly(es: seq<Event>, lag: nat, i: InstanceId)
    requires Legal(EMPTY, es, lag)
    ensures !Coupled(Run(EMPTY, es, lag), i) <==> exists n :: StuckSince(es, n, i, lag)
    decreases |es|
  {
    if es != [] {
      var front, last := es[..|es| - 1], es[|es| - 1];
      RunSnoc(EMPTY, es, lag);
      StuckExactly(front, lag, i);
      forall n ensures StuckSince(es, n, i, lag) <==>
                         if n == |front| then WritesUnsafely(Run(EMPTY, front, lag), last, i)
                         else StuckSince(front, n, i, lag) && !Unsticks(Run(EMPTY, front, lag), last, i)
      {
        StuckSinceSnoc(es, n, i, lag);
      }
      CouplingStep(Run(EMPTY, front, lag), last, lag, i);
      NotBefore(front, i, lag);
      StuckStep(front, last, es, i, lag);
    }
    hide Coupled, StuckSince, Run, Legal;
  }

  lemma NotBefore(es: seq<Event>, i: InstanceId, lag: nat)
    ensures !StuckSince(es, |es|, i, lag)
  {
  }

  lemma StuckStep(front: seq<Event>, last: Event, es: seq<Event>, i: InstanceId, lag: nat)
    requires Legal(EMPTY, front, lag) && !StuckSince(front, |front|, i, lag)
    requires forall n :: StuckSince(es, n, i, lag) <==>
               if n == |front| then WritesUnsafely(Run(EMPTY, front, lag), last, i)
               else StuckSince(front, n, i, lag) && !Unsticks(Run(EMPTY, front, lag), last, i)
    ensures (exists n :: StuckSince(es, n, i, lag)) <==>
              || WritesUnsafely(Run(EMPTY, front, lag), last, i)
              || ((exists n :: StuckSince(front, n, i, lag)) && !Unsticks(Run(EMPTY, front, lag), last, i))
  {
    hide *;
    var s := Run(EMPTY, front, lag);
    if WritesUnsafely(s, last, i) {
      assert StuckSince(es, |front|, i, lag);
    } else if !Unsticks(s, last, i) {
      if n :| StuckSince(front, n, i, lag) {
        assert StuckSince(es, n, i, lag);
      }
    }
  }

  /** One event: coupled afterwards exactly unless it writes unsafely, or the instance was uncoupled and is left so. */
  lemma CouplingStep(s: System, e: Event, lag: nat, i: InstanceId)
    requires Allowed(s, e, lag)
    ensures !Coupled(Next(s, e, lag), i) <==> WritesUnsafely(s, e, i) || (!Coupled(s, i) && !Unsticks(s, e, i))
  {
    if WritesUnsafely(s, e, i) {
      UnsafeWriteUncouples(s, e, lag, i);
    } else if Unsticks(s, e, i) {
      UnstickingCouples(s, e, lag, i);
    } else if Coupled(s, i) {
      NoWriteIsSafe(s, e, i);
      CoupledKept(s, e, lag, i);
    } else {
      UncoupledStays(s, e, lag, i);
    }
    hide Coupled, WritesUnsafely, Unsticks, Next, Allowed;
  }

  lemma NoWriteIsSafe(s: System, e: Event, i: InstanceId)
    requires !Unsticks(s, e, i)
    ensures !(e.WriteOffline? && e.instance == i)
  {
  }

  // ---------------------------------------------------------------- where no instance gets stuck

  /** No event of the run ends tasks of the instance. */
  ghost predicate NoneTouches(s: System, es: seq<Event>, lag: nat, i: InstanceId)
    requires Legal(s, es, lag)
    decreases es
  {
    es == [] || (!TouchesInstance(s, es[0], i) && NoneTouches(Next(s, es[0], lag), es[1..], lag, i))
  }

  lemma {:induction false} UntouchedTaskLives(s: System, es: seq<Event>, lag: nat, work: Work)
    requires Legal(s, es, lag) && work.OnInstance() && NoneTouches(s, es, lag, work.instance) &&
             HasLive(s.db.tasks, work)
    ensures HasLive(Run(s, es, lag).db.tasks, work)
    decreases es
  {
    if es != [] {
      HasLiveKept(s, es[0], lag, work);
      UntouchedTaskLives(Next(s, es[0], lag), es[1..], lag, work);
    }
    hide HasLive, TouchesInstance, Next, Allowed;
  }

  /** A check is harmless, for instances of the shared daemon too, when no task of the instance ends between the read of
      the status and its write. */
  lemma UndisturbedWriteIsSafe(s: System, es: seq<Event>, lag: nat, i: InstanceId)
    requires Legal(s, es, lag) && NoneTouches(s, es, lag, i) && Coupled(s, i)
    requires i in s.db.instances && s.db.instances[i].local
    ensures IsSafeWrite(Run(s, es, lag), i, s.db.instances[i].status)
  {
    if s.db.instances[i].status.Starting? {
      UntouchedTaskLives(s, es, lag, StartInstance(i));
    }
    if s.db.instances[i].status.Stopping? {
      UntouchedTaskLives(s, es, lag, StopInstance(i));
    }
    hide Run, Legal, NoneTouches, HasLive;
  }

  /** Checks under way about instances outside a shared daemon only remember that they run. */
  ghost predicate ChecksOk(s: System, i: InstanceId) {
    && (forall c :: c in s.checks && c.0 == i ==> c.1.Running?)
    && (i in s.db.instances && s.db.instances[i].local ==> !s.db.instances[i].ollama)
  }

  lemma ChecksKept(s: System, e: Event, lag: nat, i: InstanceId)
    requires Allowed(s, e, lag) && ChecksOk(s, i)
    requires e.CreateInstance? && e.instance == i ==> !e.row.ollama
    ensures ChecksOk(Next(s, e, lag), i)
  {
    if i in Next(s, e, lag).db.instances && !(e.CreateInstance? && e.instance == i) {
      KindKept(s, e, lag, i);
    }
    assert e.CreateInstance? && e.instance == i ==> NextDb(s, e, lag).instances[i] == e.row;
    hide NextDb, ConcernsInstance, ConcernsFile, IsExpired;
  }

  /** What kind of instance it is never changes. */
  lemma KindKept(s: System, e: Event, lag: nat, i: InstanceId)
    requires Allowed(s, e, lag) && i in NextDb(s, e, lag).instances && !(e.CreateInstance? && e.instance == i)
    ensures i in s.db.instances && NextDb(s, e, lag).instances[i].ollama == s.db.instances[i].ollama
    ensures NextDb(s, e, lag).instances[i].local == s.db.instances[i].local
  {
    hide ConcernsInstance, ConcernsFile, IsExpired;
  }

  /** The instance is never created with the shared daemon as its backend. */
  predicate OwnProcess(es: seq<Event>, i: InstanceId) {
    forall n :: 0 <= n < |es| && es[n].CreateInstance? && es[n].instance == i ==> !es[n].row.ollama
  }

  lemma {:induction false} OwnProcessIsCoupled(es: seq<Event>, lag: nat, i: InstanceId)
    requires Legal(EMPTY, es, lag) && OwnProcess(es, i)
    ensures ChecksOk(Run(EMPTY, es, lag), i) && Coupled(Run(EMPTY, es, lag), i)
    decreases |es|
  {
    if es != [] {
      var front, last := es[..|es| - 1], es[|es| - 1];
      RunSnoc(EMPTY, es, lag);
      OwnProcessIsCoupled(front, lag, i);
      ChecksKept(Run(EMPTY, front, lag), last, lag, i);
      RememberedRunningIsSafe(Run(EMPTY, front, lag), last, lag, i);
      CoupledKept(Run(EMPTY, front, lag), last, lag, i);
    }
    hide Run, Legal, Next, Allowed, Coupled;
  }

  lemma RememberedRunningIsSafe(s: System, e: Event, lag: nat, i: InstanceId)
    requires Allowed(s, e, lag) && ChecksOk(s, i)
    ensures e.WriteOffline? && e.instance == i ==> IsSafeWrite(s, i, e.status)
  {
  }

  /** In every run: a local instance that is starting or stopping has a live task that starts or stops it, unless a
      stale write got it stuck; and an instance with its own process is never stuck. */
  lemma NoStuckInstance(es: seq<Event>, lag: nat, i: InstanceId)
    requires Legal(EMPTY, es, lag)
    ensures Coupled(Run(EMPTY, es, lag), i) || exists n :: StuckSince(es, n, i, lag)
    ensures OwnProcess(es, i) ==> Coupled(Run(EMPTY, es, lag), i) && forall n :: !StuckSince(es, n, i, lag)
  {
    StuckExactly(es, lag, i);
    if OwnProcess(es, i) {
      OwnProcessIsCoupled(es, lag, i);
    }
    hide Run, Legal, Coupled, StuckSince;
  }

  /** The instance is pending without a request of the last 330 seconds and the lag. */
  ghost predicate PendsTooLong(db: Database, i: InstanceId, lag: nat, now: int) {
    && i in db.instances && db.instances[i].local &&
       (db.instances[i].status.Starting? || db.instances[i].status.Stopping?)
    && forall t :: t in db.tasks && IsOn(db.tasks[t].work, i) && db.tasks[t].IsLive() ==>
         now > db.tasks[t].createdAt + 330 + lag
  }

  /** After a completed sweep a local instance is starting or stopping only for a request of the last 330 seconds and
      the lag, unless it was stuck before the sweep and the sweep did not free it. */
  lemma PendingEndsInTime(es: seq<Event>, lag: nat, now: int, i: InstanceId)
    requires Legal(EMPTY, es, lag)
    requires Allowed(Run(EMPTY, es, lag), Sweep(Expired(Run(EMPTY, es, lag).db, now), true, now), lag)
    ensures var s := Run(EMPTY, es, lag);
            PendsTooLong(Swept(s.db, Expired(s.db, now)), i, lag, now) ==>
              (exists n :: StuckSince(es, n, i, lag)) && !ConcernsInstance(s.db, Expired(s.db, now), i)
  {
    var s := Run(EMPTY, es, lag);
    var sweep := Sweep(Expired(s.db, now), true, now);
    StuckExactly(es, lag, i);
    CouplingStep(s, sweep, lag, i);
    SweepBoundsLifetime(es, lag, now);
    SweepFrees(s, sweep, i);
    CoupledIsRecent(s.db, Expired(s.db, now), i, lag, now);
    assert Next(s, sweep, lag).db == Swept(s.db, Expired(s.db, now));
    hide Run, Legal, Swept, IsExpired, StuckSince, WritesUnsafely, Unsticks, PendsTooLong, CoupledDb;
    assert Coupled(Next(s, sweep, lag), i) == CoupledDb(Next(s, sweep, lag).db, i) by {
      CoupledIsDb(Next(s, sweep, lag), i);
    }
  }

  ghost predicate CoupledDb(db: Database, i: InstanceId) {
    i in db.instances && db.instances[i].local ==>
      && (db.instances[i].status.Starting? ==> HasLive(db.tasks, StartInstance(i)))
      && (db.instances[i].status.Stopping? ==> HasLive(db.tasks, StopInstance(i)))
  }

  lemma CoupledIsDb(s: System, i: InstanceId)
    ensures Coupled(s, i) == CoupledDb(s.db, i)
  {
  }

  lemma SweepFrees(s: System, sweep: Event, i: InstanceId)
    requires sweep.Sweep?
    ensures ConcernsInstance(s.db, sweep.handled, i) ==> Unsticks(s, sweep, i)
    ensures !WritesUnsafely(s, sweep, i)
  {
  }

  lemma CoupledIsRecent(db: Database, ids: set<TaskId>, i: InstanceId, lag: nat, now: int)
    requires forall t :: t in db.tasks && db.tasks[t].createdAt + 330 + lag < now ==>
               t in Swept(db, ids).tasks && !Swept(db, ids).tasks[t].IsLive()
    ensures CoupledDb(Swept(db, ids), i) ==> !PendsTooLong(Swept(db, ids), i, lag, now)
  {
    var swept := Swept(db, ids);
    if CoupledDb(swept, i) && PendsTooLong(swept, i, lag, now) {
      var work := NeededWork(swept.instances[i], i);
      var t :| t in swept.tasks && swept.tasks[t].work == work && swept.tasks[t].IsLive();
      assert IsOn(swept.tasks[t].work, i);
      SweptSameTasks(db, ids, t);
      assert false;
    }
  }

  // ---------------------------------------------------------------- leases of tasks that have ended

  /** In every reachable state: a lease changes a task that has ended exactly when the task chosen is not queued any
      more, which the update does not ask for; the task has timed out then, and runs afterwards. */
  lemma LeaseRevivesExactly(es: seq<Event>, lag: nat, node: NodeId, now: int)
    requires Legal(EMPTY, es, lag) && Allowed(Run(EMPTY, es, lag), Lease(node, now), lag)
    ensures var s := Run(EMPTY, es, lag);
            var t := s.picks[node].task;
            && (!s.db.tasks[t].IsLive() <==> !s.db.tasks[t].status.Queued?)
            && (!s.db.tasks[t].IsLive() ==> s.db.tasks[t].status.TimedOut?)
            && t in Next(s, Lease(node, now), lag).db.tasks &&
               Next(s, Lease(node, now), lag).db.tasks[t].status.Running?
  {
    EmptyInv(lag);
    RunKeepsQueue(EMPTY, es, lag);
    var s := Run(EMPTY, es, lag);
    assert PickOk(QueueOf(s), node);
    hide Run, Legal, TasksOk, DeliveriesOk, NothingOvertaken;
  }

  /** The event is the deadline of the request that waits for the task, or times it out for being overdue. */
  predicate EndsTask(s: System, e: Event, t: TaskId) {
    match e
    case InstanceDeadline(ended) => ended == t
    case OtherDeadline(ended) => ended == t
    case Sweep(handled, _, now) => t in handled && t in s.db.tasks && now > s.db.tasks[t].createdAt + QUEUE_TIMEOUT_SECS
    case Poll(_, _, now) =>
      t in s.db.tasks && s.db.tasks[t].status.Queued? && now > s.db.tasks[t].createdAt + QUEUE_TIMEOUT_SECS
    case _ => false
  }

  predicate AnyEnds(s: System, es: seq<Event>, t: TaskId, lag: nat)
    requires Legal(s, es, lag)
    decreases es
  {
    es != [] && (EndsTask(s, es[0], t) || AnyEnds(Next(s, es[0], lag), es[1..], t, lag))
  }

  predicate LeavesPick(es: seq<Event>, node: NodeId) {
    forall e :: e in es ==> e != AbandonPoll(node) && !(e.Lease? && e.node == node)
  }

  /** The task is chosen by the node and has not been leased. */
  ghost predicate IsChosen(s: System, node: NodeId, t: TaskId) {
    node in s.picks && s.picks[node].task == t && t in s.db.tasks
  }

  lemma ChosenStep(s: System, e: Event, lag: nat, node: NodeId, t: TaskId)
    requires QueueInv(QueueOf(s), lag) && Allowed(s, e, lag) && IsChosen(s, node, t)
    requires e != AbandonPoll(node) && !(e.Lease? && e.node == node)
    ensures var s' := Next(s, e, lag);
            && IsChosen(s', node, t) && s'.picks[node] == s.picks[node]
            && (s'.db.tasks[t].status.TimedOut? <==> s.db.tasks[t].status.TimedOut? || EndsTask(s, e, t))
  {
    StepRefines(s, e, lag);
    var q, step := QueueOf(s), StepOf(s, e);
    assert Enabled(q, step, lag) && QueueOf(Next(s, e, lag)) == After(q, step, lag);
    assert PickOk(q, node);
    EndsIsTimeOut(s, e, lag, t);
    hide Next, Allowed, EndsTask, TasksOk, DeliveriesOk, NothingOvertaken, Refines;
    ChosenQueueStep(q, step, lag, node);
  }

  predicate TimesOut(step: Step, t: TaskId) {
    (step.TimeOut? && t in step.ids) || (step.Choose? && t in step.ids)
  }

  lemma EndsIsTimeOut(s: System, e: Event, lag: nat, t: TaskId)
    requires Allowed(s, e, lag) && t in s.db.tasks && (s.db.tasks[t].status.Queued? || s.db.tasks[t].status.TimedOut?)
    ensures s.db.tasks[t].status.Queued? ==> (EndsTask(s, e, t) <==> TimesOut(StepOf(s, e), t))
  {
    hide NextDb, NoneAborts, IsNextQueued;
  }

  /** A chosen task is queued until it is timed out, and then stays so until its own delivery. */
  lemma ChosenQueueStep(q: Queue, step: Step, lag: nat, node: NodeId)
    requires QueueInv(q, lag) && Enabled(q, step, lag) && node in q.picks
    requires step != Drop(node) && !(step.Deliver? && step.node == node)
    ensures var q', t := After(q, step, lag), q.picks[node].task;
            && t in q.tasks && t in q'.tasks && node in q'.picks && q'.picks[node] == q.picks[node]
            && (q.tasks[t].status.Queued? || q.tasks[t].status.TimedOut?)
            && (q'.tasks[t].status.TimedOut? <==> q.tasks[t].status.TimedOut? || TimesOut(step, t))
  {
    assert PickOk(q, node);
    if step.Deliver? {
      assert PickOk(q, step.node);
    }
    hide DeliveriesOk, NothingOvertaken, IsFirstQueued;
  }

  lemma {:induction false} ChosenRun(s: System, es: seq<Event>, lag: nat, node: NodeId, t: TaskId)
    requires QueueInv(QueueOf(s), lag) && Legal(s, es, lag) && IsChosen(s, node, t) && LeavesPick(es, node)
    ensures var s' := Run(s, es, lag);
            && IsChosen(s', node, t)
            && (s'.db.tasks[t].status.TimedOut? <==> s.db.tasks[t].status.TimedOut? || AnyEnds(s, es, t, lag))
    decreases es
  {
    hide QueueInv, IsChosen, Next, Allowed, EndsTask;
    if es != [] {
      assert es[0] in es;
      ChosenStep(s, es[0], lag, node, t);
      StepRefines(s, es[0], lag);
      QueueInvKept(QueueOf(s), StepOf(s, es[0]), lag);
      assert LeavesPick(es[1..], node);
      ChosenRun(Next(s, es[0], lag), es[1..], lag, node, t);
    }
    assert IsChosen(Run(s, es, lag), node, t) ==> t in Run(s, es, lag).db.tasks by {
      ChosenIsTask(Run(s, es, lag), node, t);
    }
  }

  lemma ChosenIsTask(s: System, node: NodeId, t: TaskId)
    ensures IsChosen(s, node, t) ==> t in s.db.tasks
  {
  }

  /** From the choice of a task by a poll to its lease, in every reachable state and for every run in between: the lease
      revives a task that has ended exactly when one of the events in between was the deadline of the request that waits
      for it, or a sweep, alone or at the start of another poll, more than 300 seconds after its creation. */
  lemma PollToLeaseExactly(before: seq<Event>, node: NodeId, t: TaskId, now: int, between: seq<Event>, lag: nat)
    requires Legal(EMPTY, before, lag) && Allowed(Run(EMPTY, before, lag), Poll(node, t, now), lag)
    requires Legal(Next(Run(EMPTY, before, lag), Poll(node, t, now), lag), between, lag) && LeavesPick(between, node)
    ensures var chosen := Next(Run(EMPTY, before, lag), Poll(node, t, now), lag);
            var s := Run(chosen, between, lag);
            && IsChosen(s, node, t)
            && (s.db.tasks[t].status.TimedOut? <==> AnyEnds(chosen, between, t, lag))
  {
    var s0 := Run(EMPTY, before, lag);
    var chosen := Next(s0, Poll(node, t, now), lag);
    EmptyInv(lag);
    RunKeepsQueue(EMPTY, before, lag);
    StepRefines(s0, Poll(node, t, now), lag);
    QueueInvKept(QueueOf(s0), StepOf(s0, Poll(node, t, now)), lag);
    assert IsChosen(chosen, node, t) && chosen.db.tasks[t].status.Queued?;
    hide Run, Legal, Next, Allowed, QueueInv, AnyEnds;
    ChosenRun(chosen, between, lag, node, t);
  }

  // ---------------------------------------------------------------- a run for each

  const ROW := Instance(Some("n"), true, true, InstanceStatus.Stopped, None)
  const STARTING := Task("n", StartInstance("i"), Queued, 0, None, 0)
  const ENDED := STARTING.(status := TimedOut)

  function OneInstance(task: Task, status: InstanceStatus): Database {
    Database(map["t" := task], map["i" := ROW.(status := status)], map[])
  }

  /** An instance is created and its start is requested. */
  const CREATED := EMPTY.(db := Database(map[], map["i" := ROW], map[]))
  const REQUESTED := EMPTY.(db := OneInstance(STARTING, InstanceStatus.Starting))
  const CREATE := CreateInstance("i", ROW)
  const REQUEST := Request("t", StartInstance("i"), 0)

  lemma StartRequested()
    ensures Allowed(EMPTY, CREATE, 0) && Next(EMPTY, CREATE, 0) == CREATED
    ensures Allowed(CREATED, REQUEST, 0) && Next(CREATED, REQUEST, 0) == REQUESTED
  {
  }

  lemma LegalOne(s: System, e: Event, es: seq<Event>)
    requires Allowed(s, e, 0) && Legal(Next(s, e, 0), es, 0)
    ensures Legal(s, [e] + es, 0) && Run(s, [e] + es, 0) == Run(Next(s, e, 0), es, 0)
  {
    hide Allowed, Next;
    assert ([e] + es)[1..] == es;
  }

  /** After the request, three events. */
  lemma LegalThree(e3: Event, s3: System, e4: Event, s4: System, e5: Event, s5: System)
    requires Allowed(REQUESTED, e3, 0) && Next(REQUESTED, e3, 0) == s3 && Allowed(s3, e4, 0) && Next(s3, e4, 0) == s4
    requires Allowed(s4, e5, 0) && Next(s4, e5, 0) == s5
    ensures Legal(EMPTY, [CREATE, REQUEST, e3, e4, e5], 0) && Run(EMPTY, [CREATE, REQUEST, e3, e4, e5], 0) == s5
  {
    hide *;
    StartRequested();
    assert [e5] + [] == [e5] && [e4] + [e5] == [e4, e5] && [e3] + [e4, e5] == [e3, e4, e5];
    assert [REQUEST] + [e3, e4, e5] == [REQUEST, e3, e4, e5];
    assert [CREATE] + [REQUEST, e3, e4, e5] == [CREATE, REQUEST, e3, e4, e5];
    NothingLeft(s5);
    LegalOne(s4, e5, []);
    LegalOne(s3, e4, [e5]);
    LegalOne(REQUESTED, e3, [e4, e5]);
    LegalOne(CREATED, REQUEST, [e3, e4, e5]);
    LegalOne(EMPTY, CREATE, [REQUEST, e3, e4, e5]);
  }

  lemma NothingLeft(s: System)
    ensures Legal(s, [], 0) && Run(s, [], 0) == s
  {
  }

  const READ := REQUESTED.(checks := {("i", InstanceStatus.Starting)})
  const FAILED := READ.(db := OneInstance(ENDED, InstanceStatus.Failed))
  const STUCK := EMPTY.(db := OneInstance(ENDED, InstanceStatus.Starting))

  lemma StatusRead()
    ensures Allowed(REQUESTED, ReadOffline("i"), 0) && Next(REQUESTED, ReadOffline("i"), 0) == READ
    ensures READ.db == OneInstance(STARTING, InstanceStatus.Starting)
    ensures READ.(db := OneInstance(ENDED, InstanceStatus.Failed)) == FAILED
  {
  }

  lemma DeadlineEndsTask(s: System)
    requires s.db == OneInstance(STARTING, InstanceStatus.Starting)
    ensures Allowed(s, InstanceDeadline("t"), 0)
    ensures Next(s, InstanceDeadline("t"), 0) == s.(db := OneInstance(ENDED, InstanceStatus.Failed))
  {
    SweptOneInstance();
    hide SweptOne;
  }

  lemma SweptOneInstance()
    ensures SweptOne(OneInstance(STARTING, InstanceStatus.Starting), "t") == OneInstance(ENDED, InstanceStatus.Failed)
  {
  }

  lemma StatusWritten()
    ensures Allowed(FAILED, WriteOffline("i", InstanceStatus.Starting), 0)
    ensures Next(FAILED, WriteOffline("i", InstanceStatus.Starting), 0) == STUCK && !Coupled(STUCK, "i")
  {
  }

  /** A run that leaves an instance of the shared daemon starting although its task has ended: the check reads
      "starting", the waiting request times out, the check writes "starting" back. */
  lemma DaemonInstanceCanGetStuck()
    ensures exists es :: Legal(EMPTY, es, 0) && !Coupled(Run(EMPTY, es, 0), "i")
  {
    hide *;
    StatusRead();
    DeadlineEndsTask(READ);
    StatusWritten();
    var e3, e4, e5 := ReadOffline("i"), InstanceDeadline("t"), WriteOffline("i", InstanceStatus.Starting);
    LegalThree(e3, READ, e4, FAILED, e5, STUCK);
    assert !Coupled(Run(EMPTY, [CREATE, REQUEST, e3, e4, e5], 0), "i");
  }

  const CHOSEN := REQUESTED.(clock := 30, picks := map["n" := Pick("t", 30)])
  const LAPSED := CHOSEN.(db := OneInstance(ENDED, InstanceStatus.Failed))
  const REVIVED := System(OneInstance(LeasedTask(ENDED, 30), InstanceStatus.Failed), 30, map[], {}, {"t"}, ["t"])

  lemma PollChooses()
    ensures Allowed(REQUESTED, Poll("n", "t", 30), 0) && Next(REQUESTED, Poll("n", "t", 30), 0) == CHOSEN
    ensures CHOSEN.db == OneInstance(STARTING, InstanceStatus.Starting)
    ensures CHOSEN.(db := OneInstance(ENDED, InstanceStatus.Failed)) == LAPSED
  {
    assert Expired(REQUESTED.db, 30) == {};
    SweptNone(REQUESTED.db);
    hide Swept;
  }

  lemma LeaseRevives()
    ensures Allowed(LAPSED, Lease("n", 30), 0) && Next(LAPSED, Lease("n", 30), 0) == REVIVED
  {
  }

  /** The task runs, although it had timed out and its instance shows as failed. */
  ghost predicate RunsOverFailure(s: System, t: TaskId, i: InstanceId) {
    && t in s.db.tasks && s.db.tasks[t].status.Running? && s.db.tasks[t].work == StartInstance(i)
    && i in s.db.instances && s.db.instances[i].status.Failed?
  }

  lemma RevivedRuns()
    ensures RunsOverFailure(REVIVED, "t", "i")
  {
  }

  /** A run of that kind, with no time at all between the two statements of the poll: the waiting request times out in
      between. */
  lemma LeaseCanReviveTimedOutTask()
    ensures exists es :: Legal(EMPTY, es, 0) && RunsOverFailure(Run(EMPTY, es, 0), "t", "i")
  {
    hide *;
    PollChooses();
    DeadlineEndsTask(CHOSEN);
    LeaseRevives();
    RevivedRuns();
    var e3, e4, e5 := Poll("n", "t", 30), InstanceDeadline("t"), Lease("n", 30);
    LegalThree(e3, CHOSEN, e4, LAPSED, e5, REVIVED);
    assert RunsOverFailure(Run(EMPTY, [CREATE, REQUEST, e3, e4, e5], 0), "t", "i");
  }
}
