# Verified model of the LightAI control plane

LightAI consists of a Server, which keeps nodes, tasks, model files, model instances, configuration policies and users
in a database, and of one Agent per node, which polls tasks, reports results and sends heartbeats.  This Dafny project
models the parts where the two sides, or several requests, act on shared state independently of each other, together
with the algorithms that feed that state, and proves what holds over every run.

`dafny verify dfyconfig.toml` checks everything.  The modules, by subject:

- **Task queue and the life cycles it drives** - `TaskLifecycle` (the tables and every handler that changes them, as
  methods), `TaskQueue` (the few ways in which a task ever changes, and the invariant of all of them), `TaskRuns` (all
  handlers, Agents and waiting requests interleaved in any order), `TaskRaces` (where handlers of two statements meet
  others, and what exactly goes wrong there).
- **Heartbeat reconciliation** - `Heartbeat` (the Agent's store of managed processes and the Server's instance rows),
  `HeartbeatHistory` (histories with lost and failed heartbeats, and with starts and stops inside them), `ProcessStat`
  (how a process is recognised).
- **Configuration distribution** - `AgentConfig` (layers, versions, limits), `AgentConfigRuns` (saves in two
  statements, replies put together from four reads, responses in any order).
- **Node registration** - `Registration`, `RegistrationRuns` (any number of registrations, each a check and a write).
- **Platform log** - `PlatformLog` (rotation and retention), `PlatformLogHistory` (whole runs of appends), `Calendar`
  (dates), `Sanitize` (what is kept out of the files).  The Agent and the Server carry the same code; the rows cite
  the Agent's copy.
- **GPU collectors** - `CollectorTsv` (parsing), `CollectorRoundTrip` (printing and parsing are inverse),
  `CollectorMerge` (the join; its error and result types are in `CollectorReports`), `CollectorGate` (which scripts
  run), `GpuStatus` (GPU rows of the Server), `CollectorMarking` (from scripts to missing GPUs), `Truncation` (cutting
  output), `TruncatedText` (the same in UTF-8 characters), `TruncatedReports` (what a cut report is parsed as).
- **Accounts** - `Accounts`, `AccountRuns` (updates of users in three steps, sessions).
- `Options` and `Text` are shared: optional values, and the string functions of the standard library the program uses.

Tables and directories are maps held by classes.  Each method that updates them is proved equal to a function of the
old state, and the theorems about runs speak of these functions.  What these functions mean is said without them:
lemmas called "...Outcome" and "...Exactly" give the condition of each branch and the fields it leaves with the
statuses, limits and defaults written out, for the handlers that are one update too (`TaskLifecycle.LeaseOutcome`,
`RequestOutcome`, `VerificationOutcome` and `DeadlineOutcome`, `TaskRuns.FileHandlers` and `InstanceHandlers`).

## What the code does not meet

Where the code falls short of what its comments or its design suggest, the model keeps the code, and the exact
condition is proved beside a concrete run.

- A poll selects a task and leases it in two statements, and the second looks at the id alone.  A sweep between them,
  or the deadline of the request that waits for the task, lets the lease revive a task that is timed out, while its
  instance shows as failed, even with no time at all in between (`TaskRaces.LeaseCanReviveTimedOutTask`).
  `TaskRaces.PollToLeaseExactly` says which events in between do it.  All bounds therefore carry `lag`, the time
  between the two statements; with `lag` 0 they are 300 and 330 seconds.
- A check of an offline instance writes back the status it has read.  An instance of the shared Ollama daemon can be
  left "starting" without a task (`TaskRaces.DaemonInstanceCanGetStuck`).  `TaskRaces.StuckExactly` says for every
  local instance when it is stuck, and `TaskRaces.UndisturbedWriteIsSafe` when such a write is harmless.
- The Agent's heartbeat reads the process store and saves a pruned copy later.  A process started in between is lost
  from the store and failed by the next heartbeat (`HeartbeatHistory.StartDuringHeartbeatIsLost`); a record removed in
  between comes back, and the stopped instance shows as failed (`HeartbeatHistory.StopDuringHeartbeatComesBack`).  The
  exact condition is `HeartbeatHistory.DeliveredHeartbeatExactly`.
- A heartbeat that cannot read the store reports nothing, and every active instance of the node fails
  (`HeartbeatHistory.UnreadableStoreExactly`).
- A reply reads both policies first and both versions afterwards, in four statements.  A save in between can give the
  response the new version with the old content; "synced" is then shown for old content, and an Agent that already
  uses the new content goes back (`AgentConfigRuns.SaveDuringReplyTears`).  With one save while the reply is made the
  condition is that it falls between the policy and the version of its scope and changes the content
  (`AgentConfigRuns.OneSaveTearsExactly`); with several, the one that made the version decides
  (`AgentConfigRuns.TornExactly`).
- Two overlapping saves of policies can give two contents one version
  (`AgentConfigRuns.OverlappingSavesShareAVersion`), and one that has read the highest version too early can let a
  node's version fall; the exact conditions for one write are `AgentConfigRuns.WriteKeepsOrderExactly` and
  `AgentConfigRuns.WriteKeepsMeaningExactly`.
- The database is opened in WAL mode (server/src/db.rs:13) and a registration begins a deferred transaction.  Its
  write then fails as busy whenever anything at all has been committed since its check, and this is not retried
  (`RegistrationRuns.BusyExactly`).  The violation of a unique index that the retry is made for cannot happen there;
  it happens on a database that checks at the write alone (`RegistrationRuns.SecondWriterFails` shows both).
- The guard of the last administrator is a check followed by a write, and the write puts back the role and flag that
  were read before the check.  Two updates at the same time can leave no administrator
  (`AccountRuns.ConcurrentDisablesLeaveNobody`), also when every check still holds at the moment of its write
  (`AccountRuns.StaleRoleLeavesNobody`).  The exact conditions are `AccountRuns.WriteKeepsAdminExactly` for one write
  and `AccountRuns.AdminThroughoutExactly` for runs.
- A password set by an administrator through an update leaves the user's sessions alive
  (`AccountRuns.UpdateWithPasswordKeepsSessions`).
- The clean-up of rotated logs looks at 20 indices above the retained count.  Cutting the count by more leaves files
  behind (`PlatformLogHistory.ShrinkLimit`).
- The year of a log time stamp is cut to 32 bits; `Calendar.CivilFromDaysIsCalendar` says for which day counts it is
  right.
- A metrics row without a health status is skipped, but its key counts as seen, so a later complete row is dropped as
  well (`CollectorTsv.SampleExactly`).
- The comment at the marking of missing GPUs says that a failed collector never counts as "device gone".  A collector
  that reports "error" and exits with 0 adds no error (`CollectorMarking.ReportedErrorIsSilent`).  A report truncated
  at its size limit fails to parse only if it is cut inside its status row; anywhere else it silently loses the rows
  behind the cut (`TruncatedReports.CutDiscoveryExactly`, `TruncatedReports.CutMetricsExactly`).  When there is no
  error at all is said by `CollectorGate.NoErrorsExactly`.
- A GPU that vanishes is not marked missing by a heartbeat with the same sample time as its last report
  (`GpuStatus.MissingExactly`).

## Assumptions

- Each handler is one step, except where the model splits it: the two statements of a poll, the check of an offline
  instance, the check and the write of a registration, the two statements of a policy save, the four reads of a
  configuration reply, the read, the check and the write of a user update, the read and the save of a heartbeat, and a
  sweep that stops early because an instance has been deleted.  The deadline of a waiting request is one step, and so
  is the write of a user update with the sessions it ends, a login, and a start or stop in the Agent's process store.
- An Agent polls one task at a time and reports each delivered task at most once, with the instance status running,
  stopped, failed or none.  Agents whose heartbeat is reconciled are those the Server knows; the credentials in
  requests are not part of these models.
- Heartbeats of one Agent do not overlap each other.  Users are never deleted, as in the program.
- A log file has one writer, and file operations succeed.  Lines are strings whose length stands for their bytes;
  clocks and modification times are in seconds.
- Digests are injective, and generated ids and tokens are new.  Identifiers are strings.
- Of the errors of SQLite only two occur: a transaction that has been overtaken is busy, and a unique index is
  violated. A write waits for others as long as it has to.  The theorems about registration hold for both kinds of
  database, with and without snapshots.

## Model

| member | source | states |
|---|---|---|
| TaskLifecycle.ControlPlane.MarkTimedOutTasks | server/src/agent_tasks.rs:405-478 | a sweep, in whatever order it takes the rows, times out exactly the overdue tasks with their instances and files; it stops early only at a task whose instance was deleted |
| TaskLifecycle.ControlPlane.NextQueuedAgentTask | server/src/agent_tasks.rs:115-130 | the task found is queued, belongs to the node, and none of its queued tasks is older; nothing is found only if none is queued |
| TaskLifecycle.ControlPlane.SelectTask | server/src/agent_tasks.rs:24-54 | a poll first times out everything overdue and then chooses the oldest queued task; after an aborted sweep it chooses none |
| TaskLifecycle.ControlPlane.RecordAgentTaskResult | server/src/agent_tasks.rs:132-403 | results for unknown tasks, foreign nodes and unknown statuses are refused without a change; others settle the task and the row it is about |
| TaskLifecycle.ResultSettles | server/src/agent_tasks.rs:147-399 | every result of the task's node with a known status is recorded: the instance takes the reported status, or else stopped, running or failed by kind and success; a stop clears the process, other tasks leave the reported one or the one before; the file takes the reported status, or else verified or rejected; nothing else changes |
| TaskLifecycle.SweepOutcome | server/src/agent_tasks.rs:405-478 | a completed sweep times out exactly the tasks queued for more than 300 seconds or running beyond their lease, fails exactly the instances such a task starts, stops, checks or tests, and shows exactly the files such a task verifies as timed out |
| TaskLifecycle.SweptStep | server/src/agent_tasks.rs:419-476 | handling the rows of a sweep one by one adds up to one simultaneous change, also for whether a row stops the sweep |
| TaskQueue.QueueInvKept | server/src/agent_tasks.rs:24-173 | every step of the queue keeps: at most one attempt, leases bounded by creation time, only delivered tasks with results, delivery once and in order |
| TaskQueue.TerminalTaskStep | server/src/agent_tasks.rs:480-492 | at the level of the queue, a task at its end changes only from timed out |
| TaskRuns.StepRefines | server/src/agent_tasks.rs:24-492 | every handler of the whole system acts on the task table as one of seven queue steps, so the invariants of the queue hold for the system |
| TaskRuns.CoupledKept | server/src/domain/instances.rs:426-614 | no event uncouples a starting or stopping instance from its live task, except the write of a stale status |
| TaskRuns.FileCoupledKept | server/src/domain/model_files.rs:76-181 | no event separates a waiting or verifying file from its queued or running verification |
| TaskRuns.DeliveredOnceInOrder | server/src/agent_tasks.rs:24-130 | in every run each task is delivered at most once and, per node, in the order of creation; results come from delivered tasks only |
| TaskRuns.LeaseHandsOutOwnTask | server/src/agent_tasks.rs:24-72 | a poll hands a node only its own, undelivered tasks, chosen at most 300 seconds after their creation |
| TaskRuns.SweepBoundsLifetime | server/src/agent_tasks.rs:405-421 | after a completed sweep no task older than 330 seconds plus lag is queued or running, in every run |
| TaskRuns.LeftAlone | server/src/agent_tasks.rs:405-492 | in every run, until a queued task is 300 seconds old and until the lease of a running one ends, nothing changes it but its own result, the deadline of its request, or a lease to the poll that chose it |
| TaskRuns.LeaseIsRespected | server/src/agent_tasks.rs:55-72 | in every run a leased task keeps running, unchanged, for the 30 seconds of its lease, unless its result is recorded or its request gives up |
| TaskRaces.NoStuckInstance | server/src/domain/instances.rs:426-536 | in every run, every local instance that is starting or stopping has a live task that starts or stops it, unless a stale write got it stuck; one with its own process is never stuck |
| TaskRaces.PendingEndsInTime | server/src/agent_tasks.rs:405-478 | after a completed sweep every local instance is starting or stopping only for a request of the last 330 seconds plus lag, unless it was stuck before and the sweep did not free it |
| TaskRuns.NoStuckFile | server/src/domain/model_files.rs:133-181 | in every run, verify_pending means a queued verification of that file, and verifying a running one |
| TaskRuns.TerminalStep | server/src/agent_tasks.rs:132-403 | a task at its end changes only from timed out, by a late result or by the lease of a poll that had chosen it |
| TaskRuns.ResultIsFinal | server/src/agent_tasks.rs:132-173 | no continuation of a run changes a task that succeeded or failed |
| TaskRaces.CouplingStep | server/src/domain/instances.rs:346-394 | after any event a local instance lacks its task exactly when the event wrote an unsafe status back, or it lacked the task before and the event neither set its status nor revived such a task |
| TaskRaces.StuckExactly | server/src/domain/instances.rs:346-394 | in every run, for every local instance: it is starting or stopping without a live task exactly when some check wrote back a status that had lost its task, and no later event set its status, deleted it or revived such a task |
| TaskRaces.UndisturbedWriteIsSafe | server/src/domain/instances.rs:346-394 | for daemon instances too, a check is harmless when no task of the instance ends between its read and its write |
| TaskRaces.DaemonInstanceCanGetStuck | server/src/domain/instances.rs:346-394 | a run that leaves an instance of the shared daemon starting without a live task |
| TaskRaces.LeaseRevivesExactly | server/src/agent_tasks.rs:55-72 | in every reachable state a lease changes a task that has ended exactly when the chosen task is not queued any more; that task has timed out and runs afterwards |
| TaskRaces.PollToLeaseExactly | server/src/agent_tasks.rs:24-72 | for every run from the choice of a task to its lease, the task has timed out exactly when the deadline of its request, or a sweep more than 300 seconds after its creation that handles it, is among the events in between |
| TaskRaces.LeaseCanReviveTimedOutTask | server/src/agent_tasks.rs:30-72 | a run with lag 0 in which a lease revives a task whose request has given up, with its instance shown as failed |
| Heartbeat.InstanceTable.ReconcileManagedInstances | server/src/repository.rs:1225-1339 | each managed row of the node follows the last report about it; active rows without a report fail, unless the daemon owns them; all others stay |
| Heartbeat.InstanceTable.ApplyReports | server/src/repository.rs:1233-1297 | the loop over reports has the effect of the last report per instance, and collects exactly the reported ids |
| Heartbeat.InstanceTable.FailUnreported | server/src/repository.rs:1299-1338 | exactly the selected rows without a report fail and lose their process |
| Heartbeat.ReconciledOutcome | server/src/repository.rs:1225-1339 | a managed row takes the last report about it: running with the reported process, stopped or failed without one; without a report it fails if it was starting, running or stopping with a process of its own, and is unchanged if it was pending, stopped, failed or unknown or the daemon runs it |
| Heartbeat.ManagedStore.Remove | agent/src/managed_process.rs:58-62 | the records of the instance go, all others stay in order |
| Heartbeat.ManagedStore.Find | agent/src/managed_process.rs:64-69 | finds a record of the instance whenever there is one |
| Heartbeat.ManagedStore.Reports | agent/src/managed_process.rs:71-109 | a store that cannot be loaded reports nothing and is not saved; otherwise every record read is reported by what is alive, and the live ones replace whatever others have stored in the meantime |
| Heartbeat.ReportOutcome | agent/src/managed_process.rs:84-157 | a record is reported running exactly when its container is there, or its process number is in use by the process with the recorded start time, if one was recorded; otherwise failed |
| HeartbeatHistory.StoreExactly | agent/src/managed_process.rs:51-109 | after any history the store has a record of an instance exactly when its last start or stop that no save has undone recorded it and no heartbeat that saved has found it dead since |
| HeartbeatHistory.KeptOpIsMeant | agent/src/managed_process.rs:51-109 | the store is right about an instance whose last start or stop no save has undone |
| HeartbeatHistory.DeliveredHeartbeatExactly | server/src/repository.rs:1225-1339 | after a delivered heartbeat a managed instance is as its last start or stop left it exactly unless that fell between the read and the save of an earlier heartbeat and what is stored instead makes a difference to the row; it is never left starting or stopping |
| HeartbeatHistory.DeliveredOutcome | server/src/repository.rs:1225-1339 | after any history a heartbeat that arrives leaves an instance running with the recorded process if that is there, failed without one if it is gone, and without a record failed only if it was starting, running or stopping |
| HeartbeatHistory.UnreadableStoreExactly | agent/src/managed_process.rs:75-81 | a heartbeat that cannot read the store fails every active instance, and is right exactly about instances that nothing is meant to run for or that are dead and either active or already failed |
| HeartbeatHistory.DeliveredHeartbeatFrame | server/src/repository.rs:1225-1339 | rows of other nodes, external rows, and daemon rows without a record stay as they are |
| HeartbeatHistory.StartDuringHeartbeatIsLost | agent/src/managed_process.rs:71-109 | after any history, a start recorded between the read and the save of a heartbeat is lost, and its running process is failed next |
| HeartbeatHistory.StopDuringHeartbeatComesBack | agent/src/managed_process.rs:71-109 | after any history, a record removed between the read and the save comes back, and the stopped instance turns to failed once its process is gone |
| ProcessStat.StartTimeIsField22 | agent/src/managed_process.rs:195-201 | the start time read is the 22nd field of the process record for every command name, with any spaces and parentheses in it |
| AgentConfig.PolicyTable.NextPolicyVersion | server/src/repository.rs:1931-1936 | the version is one above the highest in the table, and 2 for an empty one |
| AgentConfig.PolicyTable.SaveAgentConfigPolicy | server/src/repository.rs:1807-1834 | a valid policy is stored in its scope under a version above all others; an invalid one changes nothing |
| AgentConfig.AcceptedExactly | server/src/repository.rs:1991-2040 | a policy is accepted exactly when, laid over the defaults, it gives settings within the stated limits |
| AgentConfig.EffectiveOutcome | server/src/repository.rs:1785-1805 | each of the twelve settings is the node policy's value if it names one, else the global policy's, else the stated default; the version is the highest of the rows that concern the node, and 1 without any |
| AgentConfigRuns.ReplySettings | server/src/repository.rs:1938-1989 | in every state the twelve settings of a reply are decided in this way by the two policies it has read |
| AgentConfigRuns.WriteKeepsOrderExactly | server/src/repository.rs:1807-1834 | whatever version a save has read, its write leaves the version in force the highest and standing for one content exactly when it does not concern the node, or its version is above the one in force, or neither version nor content in force changes |
| AgentConfigRuns.WithoutOverlap | server/src/repository.rs:1785-1834 | every run in which no write falls between the two statements of a save, and no save between the policy and the version of its scope in a reply, has its versions in order and its replies whole |
| AgentConfigRuns.TornExactly | server/src/repository.rs:1785-1805 | in every run with versions in order, a reply carries a version with another content than the one it stands for exactly when that version was made while the reply was put together, with a content other than the one read |
| AgentConfigRuns.OneSaveTearsExactly | server/src/repository.rs:1785-1805 | in such a run, with one save in the meantime: torn exactly when the save fell between the policy and the version of its scope and changed the content |
| AgentConfigRuns.CalmReplyIsWhole | server/src/repository.rs:1785-1805 | in such a run, with any number of saves, none of them between a policy and its version, a reply is whole |
| AgentConfigRuns.SaveDuringReplyTears | server/src/repository.rs:1785-1805 | from every orderly state a legal run whose response has the new version and the old content, and an Agent that takes it for the new one |
| AgentConfigRuns.EqualVersionEqualContent | server/src/repository.rs:1785-1834 | in every run without overlapping saves and torn replies, with late, lost and repeated responses, equal versions carry equal content, on the way and in the Agent |
| AgentConfigRuns.SyncedMeansEqual | server/src/repository.rs:1528-1535 | when the reported version is the effective one, every reported field but the update time is the effective one |
| AgentConfigRuns.FreshResponseSyncs | agent/src/tasks/mod.rs:105-112 | one response made and applied with no save in between brings the Agent up to date, in any reachable state |
| AgentConfigRuns.UpToDateStays | agent/src/heartbeat.rs:358-374 | an Agent that is up to date stays so through any run without a save for it, a torn reply or a restart |
| AgentConfigRuns.StaleResponsesAreHarmless | agent/src/heartbeat.rs:358-374 | once the current configuration is in use, no whole response still on the way or still being made changes it, however old or repeated |
| AgentConfigRuns.EffectiveSettingsAreValid | server/src/repository.rs:1991-2040 | policies validated one by one never combine into settings outside their limits, at the Server, on the way or in the Agent, torn replies and overlapping saves included |
| AgentConfigRuns.OverlappingSavesShareAVersion | server/src/repository.rs:1807-1834 | for any two valid policies a legal run in which both saves read the same highest version, with two responses of version 2 in it that carry the first content and both layers |
| Registration.NodeTable.CheckIdentity | server/src/repository.rs:965-999 | a name or host in use with another partner is refused; otherwise the pair's node is found, or the new id is taken |
| Registration.RefusedExactly | server/src/repository.rs:965-991 | a request is refused exactly when some row agrees with it in exactly one of name and hostname |
| Registration.NodeTable.TryRegister | server/src/repository.rs:945-1041 | with commits of others in between: refused exactly by what the check sees, with snapshots busy exactly when something was committed since, and a unique failure only without snapshots and if neither name nor host was in the table when the attempt began |
| Registration.NodeTable.RegisterNode | server/src/repository.rs:919-943 | under any interference the call registers, refuses, or is busy, the last exactly when snapshots are kept and the first attempt was overtaken; running out of retries does not happen, and after success only the new token authenticates |
| RegistrationRuns.OneRetrySuffices | server/src/repository.rs:919-943 | in every interleaving of any number of registrations no attempt ends with a unique violation: without snapshots the second attempt decides, with snapshots there is none |
| RegistrationRuns.KnownPairReturns | server/src/repository.rs:952-1033 | in every run an Agent whose pair is in the table comes back to its node with the new token, whatever was registered between its check and its write, unless it is busy |
| RegistrationRuns.BusyExactly | server/src/repository.rs:945-1032 | with snapshots, in every run, an attempt that is not refused is busy exactly when something was committed between its check and its write, by a registration or elsewhere in the database, and otherwise registers the node |
| RegistrationRuns.SecondWriterFails | server/src/repository.rs:928-938 | for any two Agents that start with one name and host, a run in which the first attempt of one fails: busy for good with snapshots, retried without |
| RegistrationRuns.PairsKeepTheirNode | server/src/repository.rs:952-1033 | names and hosts stay paired one to one for ever, and two registrations are of one node exactly when their names agree, and exactly when their hosts do |
| RegistrationRuns.LatestTokenOnly | server/src/repository.rs:1049-1062 | in every run the token of the latest successful registration authenticates the node, and replaced tokens authenticate nothing |
| PlatformLog.LogDirectory.RotateIfNeeded | agent/src/platform_log.rs:212-235 | the loop of renames shifts every file up to the retained count by one, exactly when the line does not fit |
| PlatformLog.LogDirectory.CleanupRetention | agent/src/platform_log.rs:237-258 | files above the count, within 20 indices, and expired files go; the current file and all others stay |
| PlatformLog.LogDirectory.Append | agent/src/platform_log.rs:88-116 | a disabled level or an invalid policy writes nothing; otherwise rotation, write and cleanup give the stated directory |
| PlatformLog.LevelsInOrder | agent/src/platform_log.rs:265-277 | each of the five levels lets itself and the more severe ones through, and an unknown word counts as info on either side |
| PlatformLogHistory.AppendHolds | agent/src/platform_log.rs:88-116 | one append on files without gap keeps, besides the current file, exactly those within the count that are not expired, and these are the newest ones without gap |
| PlatformLogHistory.RetainedTextIsSuffix | agent/src/platform_log.rs:88-258 | after every orderly run the files, oldest to current, have no gap, are within the count, and read together are a suffix of everything written |
| PlatformLogHistory.ShrinkLimit | agent/src/platform_log.rs:237-258 | one append brings the files back within the count exactly when the count was exceeded by at most 20 |
| PlatformLogHistory.FileSizeLimit | agent/src/platform_log.rs:212-235 | a file exceeds the size limit only when it consists of one line that does |
| PlatformLogHistory.DroppedOnlyWhenFull | agent/src/platform_log.rs:212-258 | without retention by age any two neighbouring files exceed the limit together, and text is dropped only when the full number of files holds more than the limit for every pair of files |
| PlatformLogHistory.PairsExceed | agent/src/platform_log.rs:212-235 | files closed only when the next line did not fit: any two neighbouring ones together exceed the size limit, and so the total exceeds it for every pair |
| Calendar.IdealIsNaive | agent/src/platform_log.rs:296-308 | the era formula equals, for every integer, a calendar that only knows the next and the previous day |
| Calendar.CivilFromDaysIsCalendar | agent/src/platform_log.rs:296-308 | in the program's integer types, no subtraction underflows, month and day are those of the calendar, and the year is right exactly for the day counts from -784353015833 to 784351576776 |
| Calendar.YearFitsExactly | agent/src/platform_log.rs:307 | the year of a day fits 32 bits exactly between the first and the last of these day counts |
| Calendar.FloorEra | agent/src/platform_log.rs:297-299 | the adjusted truncating division is floor division, for negative day counts too |
| Calendar.NaiveIncreases | agent/src/platform_log.rs:296-308 | later day counts give later dates |
| Calendar.StampIsExact | agent/src/platform_log.rs:279-294 | two different seconds never share a time stamp while the year fits |
| Calendar.StampMeans | agent/src/platform_log.rs:279-294 | a stamp is the date of the second's day and its hour, minute and second on that day, the year as long as it fits |
| Sanitize.NothingSecretStays | agent/src/platform_log.rs:154-178 | for every message, none of the seven words stands anywhere in what is written, in any mixture of upper and lower case |
| Sanitize.SensitiveExactly | agent/src/platform_log.rs:166-178 | a line is sensitive exactly when one of the seven words stands in it, in any mixture of cases |
| Sanitize.LinesComeThrough | agent/src/platform_log.rs:154-178 | what is written is, line by line, the notice for a line with one of the words and any other line cut to 1000 characters |
| Truncation.TruncateBytes | agent/src/collector/execute.rs:131-142 | the kept part of well-formed text is its longest well-formed prefix within the limit |
| Truncation.BoundaryIsWellFormedCut | agent/src/collector/execute.rs:135-138 | the places where the loop stops are exactly those that cut well-formed UTF-8 into two well-formed parts |
| Truncation.BoundaryNearby | agent/src/collector/execute.rs:135-138 | the loop steps back at most three bytes |
| CollectorTsv.ParseDiscovery | agent/src/collector/tsv.rs:83-169 | the first malformed status row decides the error, the last one the header, and the devices are those of the rows that claim a key first |
| CollectorTsv.ParseMetrics | agent/src/collector/tsv.rs:172-267 | the same for metrics, where a row without health claims its key without giving a sample |
| CollectorTsv.DevicesAreFirstClaims | agent/src/collector/tsv.rs:113-152 | the devices are, in order, exactly the rows that are the first to name their key |
| CollectorTsv.SamplesAreFirstClaims | agent/src/collector/tsv.rs:204-250 | the samples are, in order, exactly the rows that are the first to name their key and state a health |
| CollectorTsv.ParsedKeysAreUnique | agent/src/collector/tsv.rs:130-140 | for every text, parsed keys are not empty and do not repeat |
| CollectorTsv.SampleExactly | agent/src/collector/tsv.rs:220-236 | a key gets a sample exactly when the first row that names it states a health |
| CollectorTsv.FailsExactly | agent/src/collector/tsv.rs:99-157 | parsing fails exactly when some status row is malformed or there is no status row; no other row can make it fail |
| CollectorTsv.ClaimsExactly | agent/src/collector/tsv.rs:113-236 | a row names a key exactly with ten columns behind DEVICE or twelve behind METRIC, schema 1, and a key that is not blank |
| CollectorTsv.ReportExactly | agent/src/collector/tsv.rs:99-157 | the error is that of the first malformed status row, or that there is none; the header is that of the last one |
| CollectorRoundTrip.DiscoveryReturns | agent/src/collector/tsv.rs:83-169 | printing any well-formed discovery report and parsing the text gives the report back |
| CollectorRoundTrip.MetricsReturn | agent/src/collector/tsv.rs:172-267 | the same for metrics reports |
| CollectorRoundTrip.ParsedDiscoveryReturns | agent/src/collector/tsv.rs:83-169 | every parsed discovery report is well-formed, and printing and parsing it again changes nothing |
| CollectorRoundTrip.ParsedMetricsReturn | agent/src/collector/tsv.rs:172-267 | the same for metrics reports |
| CollectorMerge.MergeIntoGpuMetrics | agent/src/collector/tsv.rs:275-344 | the two loops compute the join, and add to the errors exactly those of the samples without a device |
| CollectorMerge.DeviceEntries | agent/src/collector/tsv.rs:284-316 | entry k has the identity of device k and the metrics of the only sample with its key, or none |
| CollectorMerge.MetricsOnlyEntries | agent/src/collector/tsv.rs:318-341 | behind the devices follow the samples without a device, each known by its key and the report's vendor only, with its metrics and one error naming it |
| CollectorMerge.OuterJoinKeys | agent/src/collector/tsv.rs:275-344 | every key of either report has exactly one entry, and there are no others |
| CollectorMerge.SamplesOnlyAre | agent/src/collector/tsv.rs:319-341 | the samples without a device keep their order, each once, and none is missing |
| CollectorGate.AllowedExactly | agent/src/collector/mod.rs:168-215 | a collector is allowed exactly when all four conditions of the gate hold, with the registry entry being the first for its id and version |
| CollectorGate.RefusalsExactly | agent/src/collector/mod.rs:176-215 | each refusal has its exact condition: disabled first, then not listed, then the first registry entry, then the first digest that differs |
| CollectorGate.RefusedOutcome | agent/src/gpu/mod.rs:127-181 | a refused collector runs nothing and gives exactly one error that names it and the reason, a disabled one always; only one that is not listed gives none |
| CollectorGate.ChangedOutcome | agent/src/gpu/mod.rs:184-234 | an admitted collector whose scripts cannot be read or have changed runs nothing and gives one error that names the first such script |
| CollectorGate.AdmittedOutcome | agent/src/gpu/mod.rs:236-307 | for every end and output of the two scripts: what is executed, which error names the failure, and which GPUs are reported |
| CollectorGate.Visit | agent/src/gpu/mod.rs:127-307 | one directory yields the stated executions, GPUs and errors; the branch for a missing registry entry is never taken |
| CollectorGate.CollectViaDirs | agent/src/gpu/mod.rs:110-308 | the results of all directories in order, after one error if the registry is empty and a directory exists |
| CollectorGate.OnlyRegisteredScriptsRun | agent/src/collector/mod.rs:177-215 | an executed script is the one behind the hash of the first, enabled registry entry for its id and version, however files change between scan and run, and the Agent's lists admit it |
| CollectorGate.EmptyRegistryRunsNothing | agent/src/gpu/mod.rs:116-125 | an empty registry lets nothing run |
| CollectorGate.QuietExactly | agent/src/gpu/mod.rs:127-307 | a directory adds no error exactly when it is unlisted, not available without a message, or gave both reports without metrics-only keys |
| CollectorGate.NoErrorsExactly | agent/src/gpu/mod.rs:110-308 | the error list is empty exactly when every directory is handled quietly and the registry is not empty next to a directory |
| CollectorMarking.MissingNeedsQuiet | server/src/repository.rs:1211-1217 | a GPU becomes missing only by a later heartbeat of its node without it whose collectors were all quiet |
| CollectorMarking.DisabledMarksNothing | server/src/repository.rs:1206-1217 | as long as one directory holds a disabled collector, no heartbeat built from the directories marks a GPU missing |
| CollectorMarking.ReportedErrorIsSilent | agent/src/gpu/mod.rs:236-306 | an admitted collector that reports "error" and exits with 0 adds no error, and the heartbeat marks the node's GPUs missing |
| TruncatedReports.CutDiscoveryExactly | agent/src/collector/tsv.rs:83-169 | a well-formed discovery report cut at any place and marked parses if and only if the cut lies behind the fifth tab of its status row, and then as the rows kept up to their last column, the last one perhaps with a shorter message |
| TruncatedReports.CutMetricsExactly | agent/src/collector/tsv.rs:172-267 | the same for metrics reports |
| TruncatedReports.EveryCutHasAPlace | agent/src/collector/execute.rs:135-140 | every cut of the text of a report lies in a definite column of a definite row |
| TruncatedReports.TruncatedDiscovery | agent/src/collector/execute.rs:131-142 | for every size limit, in bytes, the truncated output of a well-formed discovery report is its text up to such a place and the marker, and parses accordingly |
| TruncatedReports.TruncatedMetrics | agent/src/collector/execute.rs:131-142 | the same for metrics reports |
| TruncatedText.TruncatedIsText | agent/src/collector/execute.rs:131-142 | truncating encoded text gives the encoding of its longest prefix within the limit and of the marker |
| GpuStatus.GpuTable.RecordGpus | server/src/repository.rs:1206-1217 | the reports are stored one by one, then rows are marked only if there was no collector error |
| GpuStatus.ReceivedRow | server/src/repository.rs:1206-1217 | what one heartbeat does to one row; rows of other nodes stay |
| GpuStatus.MissingExactly | server/src/repository.rs:1206-1217 | for every history, a row exists exactly for what was reported, has the fields of the last report, and is missing exactly when a later error-free heartbeat of the node has a strictly later sample time |
| GpuStatus.MissingWhenIncreasing | server/src/repository.rs:1341-1417 | with increasing sample times, missing means that an error-free heartbeat came after the last one with the GPU |
| Accounts.AccountStore.UpdateUser | server/src/repository.rs:173-246 | for any state of the table at the check and at the write: the update happens exactly when the user exists and another enabled administrator is there at the check, if the role and flag read need one; it writes back role and flag as read, and disabling ends all sessions |
| Accounts.CheckOutcome | server/src/repository.rs:184-200 | an update passes exactly unless it would demote, disable or leave disabled an administrator and no other enabled one is there |
| Accounts.UpdateOutcome | server/src/repository.rs:201-242 | the row gets role and flag as requested or else as read, a given password that must be changed, and everything else as it is in the table; disabling ends exactly the user's live sessions |
| Accounts.AccountStore.LoginUser | server/src/repository.rs:248-311 | a session is made exactly for an enabled user with this trimmed name and this password, not older than it may be |
| AccountRuns.AdminThroughoutExactly | server/src/repository.rs:66-246 | in every run, overlapping updates included, from the first user on there is an enabled administrator after every event exactly when every write finds another one or makes one |
| AccountRuns.WholeUpdateIsSafe | server/src/repository.rs:188-200 | without overlap the check is enough: what passes it on the table that is written is safe |
| AccountRuns.WriteKeepsAdminExactly | server/src/repository.rs:188-234 | a write leaves an enabled administrator exactly when another one is there at that moment, or the role and flag it carries are those of one |
| AccountRuns.ConcurrentDisablesLeaveNobody | server/src/repository.rs:190-234 | with two administrators, both checks pass before either write, and then nobody is left |
| AccountRuns.StaleRoleLeavesNobody | server/src/repository.rs:185-234 | from any state with one administrator and an enabled viewer, a run of three updates whose checks all hold at their writes, after which nobody is left, because one puts back the role it had read |
| AccountRuns.LiveExactly | server/src/repository.rs:313-448 | a session stays live through a run exactly when no event of the run revokes it; a revoked one stays revoked |
| AccountRuns.LoginLastsExactly | server/src/repository.rs:313-358 | after any run the session of a login authenticates exactly if no event revoked it, its time is not over, its user is enabled and it was not idle for too long |
| AccountRuns.LatestPasswordOnly | server/src/repository.rs:202-439 | in every run exactly the password that was set last logs an enabled user in |
| AccountRuns.EndedForGood | server/src/repository.rs:235-242 | a session that exists when its user is disabled, reset or changes the password never authenticates again, even after the user is enabled again |
| AccountRuns.UpdateWithPasswordKeepsSessions | server/src/repository.rs:202-219 | a password set through an update leaves a live session live |

## Left out

- Columns that no rule reads: URLs, log tails, last_error texts, token prefixes, user timestamps, and the copies of
  metrics kept as history.
- Validation of strings (usernames, passwords, directories, hosts, URLs): a refused request is no event.
- ServerConfig, TLS, HTTP routing, cookies, JSON and TOML: plumbing over libraries.
- Effective roles through user groups: the role an administrator check uses is the user's own.
- Conversion of floating-point values: a numeral that parses stands for its number, and memory sizes are kept as the
  megabytes they are computed from.
- Scanning the collector root: which directories are found, and their order by priority and id, are inputs; the
  theorems hold for any list of directories.
- Running processes, containers, probes and scripts: whether a process is alive, and what a script prints, are inputs.
- The wording of results and errors; statuses of a verification other than those named are one value with a reason.
- Trash, the gateway supervisor, Docker and Ollama back ends, process logs and the web interface are not part of this
  model.
- compute_collector_status: it is settled by reading one branch.
- Two tasks of one node created in the same second are delivered in either order.
- Calendar.CivilFromDaysIsCalendar: day counts within 719468 of the largest 64-bit integer are excluded, since there
  the first addition of the program overflows.
- PlatformLogHistory.RetainedTextIsSuffix: needs a clock that does not run backwards and no cut of the count by more
  than 20 at once; `PlatformLogHistory.ShrinkLimit` shows that the latter is needed.
- TaskRaces.NoStuckInstance: an instance of the shared Ollama daemon can be stuck, as
  `TaskRaces.DaemonInstanceCanGetStuck` shows; the lemma says so, and `TaskRaces.StuckExactly` when.
- AgentConfigRuns.EqualVersionEqualContent: holds of runs whose versions are in order and whose replies are whole,
  since otherwise it is false, as `AgentConfigRuns.OverlappingSavesShareAVersion` and
  `AgentConfigRuns.SaveDuringReplyTears` show; `AgentConfigRuns.WithoutOverlap` says which runs are.
- Overlapping starts and stops in the Agent's process store: each reads and saves the store as one step.
- One-statement handlers whose effect is read off their body (single updates of tasks, rows, users and sessions) are
  methods of the model without a row of their own; what they mean is stated by the theorems about runs.
