/** Reconciliation of instance states by heartbeat: the Agent's store of managed processes, which forgets a dead
    process as soon as it has been reported once, and the Server's rows, which infer failure from absence. */
module Heartbeat {
  import opened Options

  type NodeId = string
  type InstanceId = string

  datatype InstanceStatus = Pending | Starting | Running | Stopping | Stopped | Failed | Unknown

  /** A row of `model_instances`; `ollama` stands for the backend of its runtime environment. */
  datatype Instance = Instance(node: Option<NodeId>, local: bool, ollama: bool, status: InstanceStatus,
                               processId: Option<int>)

  type Instances = map<InstanceId, Instance>

  datatype Report = Report(instanceId: InstanceId, status: string, processId: Option<int>)

  // ---------------------------------------------------------------- Server side

  function ReportedStatus(status: string): InstanceStatus {
    match status
    case "running" => Running
    case "stopped" => Stopped
    case "failed" => Failed
    case _ => Failed
  }

  predicate IsActive(status: InstanceStatus) {
    status in {Starting, Running, Stopping}
  }

  /** Index of the last report about `id`; -1 when there is none. */
  function LastReport(reports: seq<Report>, id: InstanceId): (i: int)
    ensures -1 <= i < |reports|
    ensures i >= 0 ==> reports[i].instanceId == id
    ensures forall j :: i < j < |reports| ==> reports[j].instanceId != id
  {
    if reports == [] then -1
    else if reports[|reports| - 1].instanceId == id then |reports| - 1
    else LastReport(reports[..|reports| - 1], id)
  }

  predicate IsManagedOn(row: Instance, node: NodeId) {
    row.local && row.node == Some(node)
  }

  function UpdatedBy(row: Instance, report: Report): Instance {
    var status := ReportedStatus(report.status);
    row.(status := status, processId := if status == Running then report.processId else None)
  }

  function ReconciledRow(row: Instance, id: InstanceId, node: NodeId, reports: seq<Report>): Instance {
    if !IsManagedOn(row, node) then row
    else
      var last := LastReport(reports, id);
      if last >= 0 then UpdatedBy(row, reports[last])
      else if IsActive(row.status) && !row.ollama then row.(status := Failed, processId := None)
      else row
  }

  function Reconciled(rows: Instances, node: NodeId, reports: seq<Report>): Instances {
    map id | id in rows :: ReconciledRow(rows[id], id, node, reports)
  }

  class InstanceTable {
    var rows: Instances

    constructor ()
      ensures rows == map[]
    {
      rows := map[];
    }

    /** Applies every report, then fails the active rows of the node that no report mentions. */
    method ReconcileManagedInstances(node: NodeId, reports: seq<Report>)
      modifies this
      ensures rows == Reconciled(old(rows), node, reports)
    {
      ghost var before := rows;
      var reportedIds := ApplyReports(node, reports);
      var selected := set id | id in rows && IsManagedOn(rows[id], node) &&
                               IsActive(rows[id].status) && !rows[id].ollama;
      FailUnreported(selected, reportedIds);
      forall id | id in before
        ensures rows[id] == ReconciledRow(before[id], id, node, reports)
      {
        LastReportExists(reports, id);
      }
    }

    method ApplyReports(node: NodeId, reports: seq<Report>) returns (reportedIds: set<InstanceId>)
      modifies this
      ensures rows == Reported(old(rows), node, reports)
      ensures reportedIds == set report | report in reports :: report.instanceId
    {
      ghost var before := rows;
      reportedIds := {};
      for n := 0 to |reports|
        invariant reportedIds == set report | report in reports[..n] :: report.instanceId
        invariant rows == Reported(before, node, reports[..n])
      {
        var report := reports[n];
        assert reports[..n + 1] == reports[..n] + [report];
        ReportedSnoc(before, node, reports[..n], report);
        reportedIds := reportedIds + {report.instanceId};
        if report.instanceId in rows && IsManagedOn(rows[report.instanceId], node) {
          var status := if report.status == "running" then Running
                        else if report.status == "stopped" then Stopped
                        else Failed;
          rows := rows[report.instanceId := rows[report.instanceId].(
            status := status, processId := if report.status == "running" then report.processId else None)];
        }
      }
      assert reports[..|reports|] == reports;
    }

    method FailUnreported(selected: set<InstanceId>, reportedIds: set<InstanceId>)
      requires selected <= rows.Keys
      modifies this
      ensures rows == map id | id in old(rows) ::
                        if id in selected && id !in reportedIds then old(rows)[id].(status := Failed, processId := None)
                        else old(rows)[id]
    {
      ghost var before := rows;
      var rest := selected;
      while rest != {}
        invariant rest <= selected
        invariant rows == map id | id in before ::
                            if id in selected - rest && id !in reportedIds
                            then before[id].(status := Failed, processId := None)
                            else before[id]
        decreases |rest|
      {
        var id :| id in rest;
        rest := rest - {id};
        if id !in reportedIds {
          rows := rows[id := rows[id].(status := Failed, processId := None)];
        }
      }
    }
  }

  lemma LastReportExists(reports: seq<Report>, id: InstanceId)
    ensures LastReport(reports, id) >= 0 <==> id in set report | report in reports :: report.instanceId
  {
    if id in set report | report in reports :: report.instanceId {
      var report :| report in reports && report.instanceId == id;
      var j :| 0 <= j < |reports| && reports[j] == report;
    }
  }

  /** Applying one more report changes the row it names, and no other. */
  lemma ReportedSnoc(rows: Instances, node: NodeId, reports: seq<Report>, report: Report)
    ensures var applied := Reported(rows, node, reports);
            Reported(rows, node, reports + [report]) ==
            if report.instanceId in applied && IsManagedOn(applied[report.instanceId], node)
            then applied[report.instanceId := UpdatedBy(applied[report.instanceId], report)] else applied
  {
    assert (reports + [report])[..|reports|] == reports;
    forall id
      ensures LastReport(reports + [report], id) == if report.instanceId == id then |reports|
                                                    else LastReport(reports, id)
    {
    }
  }

  /** The rows once the reports are applied, before absence is looked at. */
  function Reported(rows: Instances, node: NodeId, reports: seq<Report>): Instances {
    map id | id in rows ::
      if IsManagedOn(rows[id], node) && LastReport(reports, id) >= 0
      then UpdatedBy(rows[id], reports[LastReport(reports, id)])
      else rows[id]
  }

  /** The last report about `id` stands at `last`. */
  ghost predicate IsLastAbout(reports: seq<Report>, id: InstanceId, last: int) {
    0 <= last < |reports| && reports[last].instanceId == id &&
    forall j :: last < j < |reports| ==> reports[j].instanceId != id
  }

  /** What one heartbeat does to one row, spelled out. Rows of other nodes and external ones stay. A reported instance
      takes the last report: running with the reported process, stopped without one, and failed without one for any
      other word. One that no report mentions fails if it was starting, running or stopping with a process of its own,
      and stays as it is if it was pending, stopped, failed or unknown, or if the shared daemon runs it. */
  lemma ReconciledOutcome(rows: Instances, node: NodeId, reports: seq<Report>, id: InstanceId)
    requires id in rows
    ensures id in Reconciled(rows, node, reports)
    ensures var row, after := rows[id], Reconciled(rows, node, reports)[id];
            && (!row.local || row.node != Some(node) ==> after == row)
            && (row.local && row.node == Some(node) ==>
                  && (forall last :: IsLastAbout(reports, id, last) ==>
                        after == match reports[last].status
                                 case "running" => row.(status := Running, processId := reports[last].processId)
                                 case "stopped" => row.(status := Stopped, processId := None)
                                 case _ => row.(status := Failed, processId := None))
                  && ((forall j :: 0 <= j < |reports| ==> reports[j].instanceId != id) ==>
                        && (row.ollama ==> after == row)
                        && (!row.ollama && row.status in {Starting, Running, Stopping} ==>
                              after == row.(status := Failed, processId := None))
                        && (row.status in {Pending, Stopped, Failed, Unknown} ==> after == row)))
  {
    var last := LastReport(reports, id);
    assert last >= 0 ==> IsLastAbout(reports, id, last);
    forall other | IsLastAbout(reports, id, other) ensures other == last {}
    hide LastReport;
  }

  // ---------------------------------------------------------------- Agent side

  /** A record of the managed store; `container` is set for records of containers. */
  datatype Record = Record(instanceId: InstanceId, processId: int, startTime: Option<int>, container: Option<string>)

  /** What the Agent can see of its machine: start times of live processes, and live containers. */
  datatype World = World(startTimes: map<int, int>, containers: set<string>)

  predicate IsAlive(record: Record, world: World) {
    match record.container
    case Some(name) => name in world.containers
    case None =>
      && record.processId in world.startTimes
      && (record.startTime.Some? ==> record.startTime.value == world.startTimes[record.processId])
  }

  function ReportOf(record: Record, world: World): Report {
    Report(record.instanceId, if IsAlive(record, world) then "running" else "failed", Some(record.processId))
  }

  function ReportsOf(records: seq<Record>, world: World): seq<Report> {
    seq(|records|, i requires 0 <= i < |records| => ReportOf(records[i], world))
  }

  function Pruned(records: seq<Record>, world: World): seq<Record> {
    if records == [] then []
    else (if IsAlive(records[0], world) then [records[0]] else []) + Pruned(records[1..], world)
  }

  function Without(records: seq<Record>, id: InstanceId): seq<Record> {
    if records == [] then []
    else (if records[0].instanceId == id then [] else [records[0]]) + Without(records[1..], id)
  }

  /** What a start or a stop does to the store. */
  datatype Change = Put(record: Record) | Erase(id: InstanceId)

  function Changed(records: seq<Record>, changes: seq<Change>): seq<Record>
    decreases |changes|
  {
    if changes == [] then records
    else
      var before := Changed(records, changes[..|changes| - 1]);
      match changes[|changes| - 1]
      case Put(record) => Without(before, record.instanceId) + [record]
      case Erase(id) => Without(before, id)
  }

  ghost predicate UniqueIds(records: seq<Record>) {
    forall i, j :: 0 <= i < j < |records| ==> records[i].instanceId != records[j].instanceId
  }

  class ManagedStore {
    var records: seq<Record>

    constructor ()
      ensures records == []
    {
      records := [];
    }

    method Upsert(record: Record)
      modifies this
      ensures records == Without(old(records), record.instanceId) + [record]
    {
      Remove(record.instanceId);
      records := records + [record];
    }

    method Remove(id: InstanceId)
      modifies this
      ensures records == Without(old(records), id)
    {
      var all, kept := records, [];
      for n := 0 to |all|
        invariant kept == Without(all[..n], id)
      {
        WithoutSnoc(all[..n], all[n], id);
        assert all[..n + 1] == all[..n] + [all[n]];
        if all[n].instanceId != id {
          kept := kept + [all[n]];
        }
      }
      assert all[..|all|] == all;
      records := kept;
    }

    method Find(id: InstanceId) returns (found: Option<Record>)
      ensures found.Some? ==> found.value in records && found.value.instanceId == id
      ensures found.None? ==> forall r :: r in records ==> r.instanceId != id
    {
      for n := 0 to |records|
        invariant forall i :: 0 <= i < n ==> records[i].instanceId != id
      {
        if records[n].instanceId == id {
          return Some(records[n]);
        }
      }
      return None;
    }

    /** A process counts as alive when its number is in use and the start time, if one was recorded, is the same. */
    static method CheckRecord(record: Record, world: World) returns (isRunning: bool)
      ensures isRunning <==> IsAlive(record, world)
    {
      if record.container.Some? {
        return record.container.value in world.containers;
      }
      if record.processId !in world.startTimes {
        return false;
      }
      if record.startTime.Some? && world.startTimes[record.processId] != record.startTime.value {
        return false;
      }
      isRunning := true;
    }

    /** Reports every record as it was loaded, and saves those whose process is alive over whatever `others` have done
        to the store in the meantime. A store that cannot be loaded yields no report and is not saved. */
    method Reports(world: World, readable: bool, others: seq<Change>) returns (reports: seq<Report>)
      modifies this
      ensures reports == if readable then ReportsOf(old(records), world) else []
      ensures records == if readable then Pruned(old(records), world) else Changed(old(records), others)
    {
      var all := records;
      Commit(others);
      reports := [];
      if !readable {
        return;
      }
      var active := [];
      for n := 0 to |all|
        invariant reports == ReportsOf(all[..n], world)
        invariant active == Pruned(all[..n], world)
      {
        PrunedSnoc(all[..n], all[n], world);
        assert all[..n + 1] == all[..n] + [all[n]];
        var record := all[n];
        var isRunning := CheckRecord(record, world);
        if isRunning {
          active := active + [record];
        }
        var status := if isRunning then "running" else "failed";
        reports := reports + [Report(record.instanceId, status, Some(record.processId))];
      }
      assert all[..|all|] == all;
      records := active;
    }

    method Commit(others: seq<Change>)
      modifies this
      ensures records == Changed(old(records), others)
    {
      ghost var before := records;
      for n := 0 to |others|
        invariant records == Changed(before, others[..n])
      {
        assert others[..n + 1][..n] == others[..n];
        match others[n]
        case Put(record) => Upsert(record);
        case Erase(id) => Remove(id);
      }
      assert others[..|others|] == others;
    }
  }

  /** Report `n` says what became of record `n`, by its own process: running exactly when its container is there, or,
      for a plain process, when its number is in use and, if a start time was recorded, by the process that started
      then. A number that another process has taken over does not count. Everything else is reported as failed. */
  lemma ReportOutcome(records: seq<Record>, world: World, n: nat)
    requires n < |records|
    ensures |ReportsOf(records, world)| == |records|
    ensures var record, report := records[n], ReportsOf(records, world)[n];
            var startTimes := world.startTimes;
            && report.instanceId == record.instanceId && report.processId == Some(record.processId)
            && report.status in {"running", "failed"}
            && (record.container.Some? ==>
                  (report.status == "running" <==> record.container.value in world.containers))
            && (record.container.None? && record.startTime.None? ==>
                  (report.status == "running" <==> record.processId in startTimes))
            && (record.container.None? && record.startTime.Some? ==>
                  (report.status == "running" <==>
                    record.processId in startTimes && startTimes[record.processId] == record.startTime.value))
  {
    assert ReportsOf(records, world)[n] == ReportOf(records[n], world);
  }

  lemma {:induction false} PrunedSnoc(records: seq<Record>, last: Record, world: World)
    ensures Pruned(records + [last], world) == Pruned(records, world) + (if IsAlive(last, world) then [last] else [])
  {
    if records == [] {
      assert [] + [last] == [last];
    } else {
      assert (records + [last])[1..] == records[1..] + [last];
      PrunedSnoc(records[1..], last, world);
      var head := if IsAlive(records[0], world) then [records[0]] else [];
      assert Pruned(records + [last], world) == head + Pruned(records[1..] + [last], world);
      Associative(head, Pruned(records[1..], world), if IsAlive(last, world) then [last] else []);
    }
  }

  lemma Associative(a: seq<Record>, b: seq<Record>, c: seq<Record>)
    ensures a + (b + c) == a + b + c
  {
  }

  lemma {:induction false} WithoutSnoc(records: seq<Record>, last: Record, id: InstanceId)
    ensures Without(records + [last], id) == Without(records, id) + (if last.instanceId == id then [] else [last])
  {
    if records == [] {
      assert [] + [last] == [last];
    } else {
      assert (records + [last])[1..] == records[1..] + [last];
      WithoutSnoc(records[1..], last, id);
      var head := if records[0].instanceId == id then [] else [records[0]];
      assert Without(records + [last], id) == head + Without(records[1..] + [last], id);
      Associative(head, Without(records[1..], id), if last.instanceId == id then [] else [last]);
    }
  }
}
