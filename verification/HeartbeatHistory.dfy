/** Agreement between the Agent's machine and the Server's instance rows over whole histories of one node, in which any
    heartbeat may be lost on the way, starts and stops fall between the two accesses of a heartbeat to the store, and
    the store may be unreadable. */
module HeartbeatHistory {
  import opened Options
  import opened Heartbeat

  /** What happens to the managed store: a started instance is recorded, a stopped one is removed; a heartbeat attempt
      reads the store and the machine, and later saves the records it has found alive; or it cannot read the store, and
      then reports nothing and saves nothing. */
  datatype Event = Recorded(record: Record) | Forgotten(id: InstanceId) | Read(world: World) | ReadFails | Save

  datatype Agent = Agent(store: seq<Record>, held: Option<seq<Record>>)

  function After(h: seq<Event>): Agent {
    if h == [] then Agent([], None)
    else
      var agent := After(h[..|h| - 1]);
      match h[|h| - 1]
      case Recorded(record) => agent.(store := Without(agent.store, record.instanceId) + [record])
      case Forgotten(id) => agent.(store := Without(agent.store, id))
      case Read(world) => agent.(held := Some(Pruned(agent.store, world)))
      case ReadFails => agent.(held := None)
      case Save => if agent.held.Some? then Agent(agent.held.value, None) else agent
  }

  // ---------------------------------------------------------------- the store, as one instance sees it

  function Lookup(records: seq<Record>, id: InstanceId): Option<Record> {
    if records == [] then None
    else if records[0].instanceId == id then Some(records[0])
    else Lookup(records[1..], id)
  }

  function AliveOnly(record: Option<Record>, world: World): Option<Record> {
    if record.Some? && IsAlive(record.value, world) then record else None
  }

  datatype View = View(stored: Option<Record>, held: Option<Option<Record>>)

  function ViewAfter(h: seq<Event>, id: InstanceId): View {
    if h == [] then View(None, None)
    else
      var v := ViewAfter(h[..|h| - 1], id);
      match h[|h| - 1]
      case Recorded(record) => if record.instanceId == id then v.(stored := Some(record)) else v
      case Forgotten(other) => if other == id then v.(stored := None) else v
      case Read(world) => v.(held := Some(AliveOnly(v.stored, world)))
      case ReadFails => v.(held := None)
      case Save => if v.held.Some? then View(v.held.value, None) else v
  }

  lemma {:induction false} InWithout(records: seq<Record>, id: InstanceId)
    requires UniqueIds(records)
    ensures UniqueIds(Without(records, id))
    ensures forall r :: r in Without(records, id) <==> r in records && r.instanceId != id
  {
    if records != [] {
      InWithout(records[1..], id);
    }
  }

  lemma {:induction false} InPruned(records: seq<Record>, world: World)
    requires UniqueIds(records)
    ensures UniqueIds(Pruned(records, world))
    ensures forall r :: r in Pruned(records, world) <==> r in records && IsAlive(r, world)
  {
    if records != [] {
      InPruned(records[1..], world);
      forall r | r in records[1..] ensures r.instanceId != records[0].instanceId {
        var j :| 0 <= j < |records| - 1 && records[1..][j] == r;
        assert records[j + 1] == r;
      }
    }
  }

  lemma {:induction false} LookupIs(records: seq<Record>, id: InstanceId)
    ensures match Lookup(records, id)
            case Some(r) => r in records && r.instanceId == id
            case None => forall r :: r in records ==> r.instanceId != id
  {
    if records != [] {
      LookupIs(records[1..], id);
    }
  }

  lemma OneRecord(records: seq<Record>, r: Record, other: Record)
    requires UniqueIds(records) && r in records && other in records && r.instanceId == other.instanceId
    ensures r == other
  {
    var i :| 0 <= i < |records| && records[i] == r;
    var j :| 0 <= j < |records| && records[j] == other;
    assert i == j;
  }

  lemma LookupWithout(records: seq<Record>, gone: InstanceId, id: InstanceId)
    requires UniqueIds(records)
    ensures Lookup(Without(records, gone), id) == if gone == id then None else Lookup(records, id)
  {
    InWithout(records, gone);
    LookupIs(records, id);
    LookupIs(Without(records, gone), id);
    hide Without, Lookup, UniqueIds;
    if Lookup(records, id).Some? && Lookup(Without(records, gone), id).Some? {
      OneRecord(records, Lookup(records, id).value, Lookup(Without(records, gone), id).value);
    }
  }

  lemma LookupPruned(records: seq<Record>, world: World, id: InstanceId)
    requires UniqueIds(records)
    ensures Lookup(Pruned(records, world), id) == AliveOnly(Lookup(records, id), world)
  {
    InPruned(records, world);
    LookupIs(records, id);
    LookupIs(Pruned(records, world), id);
    hide Pruned, Lookup, UniqueIds, IsAlive;
    if Lookup(records, id).Some? && Lookup(Pruned(records, world), id).Some? {
      OneRecord(records, Lookup(records, id).value, Lookup(Pruned(records, world), id).value);
    }
  }

  lemma {:induction false} LookupSnoc(records: seq<Record>, last: Record, id: InstanceId)
    ensures Lookup(records + [last], id) ==
              if Lookup(records, id).Some? then Lookup(records, id)
              else if last.instanceId == id then Some(last)
              else None
  {
    if records == [] {
      assert [] + [last] == [last] && [last][1..] == [];
    } else {
      LookupSnoc(records[1..], last, id);
      assert (records + [last])[1..] == records[1..] + [last];
    }
  }

  lemma UniqueSnoc(records: seq<Record>, last: Record)
    requires UniqueIds(records)
    ensures UniqueIds(Without(records, last.instanceId) + [last])
  {
    InWithout(records, last.instanceId);
    var kept := Without(records, last.instanceId);
    assert forall i :: 0 <= i < |kept| ==> kept[i] in kept;
    hide Without;
  }

  lemma {:induction false} ViewIsStore(h: seq<Event>, id: InstanceId)
    ensures UniqueIds(After(h).store) && (After(h).held.Some? ==> UniqueIds(After(h).held.value))
    ensures ViewAfter(h, id).stored == Lookup(After(h).store, id)
    ensures ViewAfter(h, id).held ==
              if After(h).held.Some? then Some(Lookup(After(h).held.value, id)) else None
  {
    if h != [] {
      var front := h[..|h| - 1];
      ViewIsStore(front, id);
      var store := After(front).store;
      match h[|h| - 1]
      case Recorded(record) =>
        UniqueSnoc(store, record);
        LookupWithout(store, record.instanceId, id);
        LookupSnoc(Without(store, record.instanceId), record, id);
      case Forgotten(gone) =>
        InWithout(store, gone);
        LookupWithout(store, gone, id);
      case Read(world) =>
        InPruned(store, world);
        LookupPruned(store, world, id);
      case _ =>
    }
    hide UniqueIds, Lookup, Without, Pruned, AliveOnly;
  }

  // ---------------------------------------------------------------- what a save undoes

  predicate IsBeat(e: Event) {
    e.Read? || e.ReadFails? || e.Save?
  }

  /** The heartbeat that reads at `r` saves at `s`. */
  predicate Window(h: seq<Event>, r: int, s: int) {
    0 <= r < s < |h| && h[r].Read? && h[s].Save? && forall m :: r < m < s ==> !IsBeat(h[m])
  }

  predicate IsOp(e: Event, id: InstanceId) {
    (e.Recorded? && e.record.instanceId == id) || (e.Forgotten? && e.id == id)
  }

  /** Event `k` falls between the read and the save of one heartbeat, so the save undoes it. */
  ghost predicate Lost(h: seq<Event>, k: int) {
    exists r, s :: Window(h, r, s) && r < k < s
  }

  /** Event `k` is the last record or removal of the instance that no save undid. */
  ghost predicate Decides(h: seq<Event>, k: int, id: InstanceId) {
    && 0 <= k < |h| && IsOp(h[k], id) && !Lost(h, k)
    && forall m :: k < m < |h| && IsOp(h[m], id) ==> Lost(h, m)
  }

  /** A later heartbeat has found the record dead, and saved that. */
  ghost predicate FoundDead(h: seq<Event>, k: int, record: Record) {
    exists r, s :: Window(h, r, s) && k < r && !IsAlive(record, h[r].world)
  }

  ghost predicate Holds(h: seq<Event>, id: InstanceId, record: Record) {
    exists k :: Decides(h, k, id) && h[k] == Recorded(record) && !FoundDead(h, k, record)
  }

  /** The last event that touches the store on behalf of a heartbeat; -1 when there is none. */
  function LastBeat(h: seq<Event>): (b: int)
    ensures -1 <= b < |h|
    ensures b >= 0 ==> IsBeat(h[b])
    ensures forall m :: b < m < |h| ==> !IsBeat(h[m])
  {
    if h == [] then -1 else if IsBeat(h[|h| - 1]) then |h| - 1 else LastBeat(h[..|h| - 1])
  }

  /** Nothing changes for the instance when a history grows by an event that is no record or removal of it and closes no
      heartbeat. */
  lemma SameHolds(h: seq<Event>, e: Event, id: InstanceId, record: Record)
    requires !IsOp(e, id) && (e.Save? ==> LastBeat(h) < 0 || !h[LastBeat(h)].Read?)
    ensures Holds(h + [e], id, record) <==> Holds(h, id, record)
  {
    if e.Save? {
      SameHoldsAfterSave(h, id, record);
    } else {
      var h' := h + [e];
      assert forall m :: 0 <= m < |h| ==> h'[m] == h[m];
      assert forall r, s :: Window(h', r, s) <==> Window(h, r, s);
      SameWindows(h, h', |h|, id, record);
    }
  }

  lemma SameHoldsAfterSave(h: seq<Event>, id: InstanceId, record: Record)
    requires LastBeat(h) < 0 || !h[LastBeat(h)].Read?
    ensures Holds(h + [Save], id, record) <==> Holds(h, id, record)
  {
    var e := Save;
    var h' := h + [e];
    assert forall m :: 0 <= m < |h| ==> h'[m] == h[m];
    forall r, s ensures Window(h', r, s) <==> Window(h, r, s) {
      var b := LastBeat(h);
      assert 0 <= r < |h| && h[r].Read? ==> b > r && IsBeat(h'[b]);
    }
    SameWindows(h, h', |h|, id, record);
  }

  lemma SameWindows(h: seq<Event>, h': seq<Event>, n: nat, id: InstanceId, record: Record)
    requires n == |h| <= |h'| && h'[..n] == h && forall m :: n <= m < |h'| ==> !IsOp(h'[m], id)
    requires forall r, s :: Window(h', r, s) <==> Window(h, r, s)
    ensures Holds(h', id, record) <==> Holds(h, id, record)
  {
    assert forall k :: 0 <= k < n ==> h'[k] == h[k];
    forall k ensures Lost(h', k) <==> Lost(h, k) {}
    forall k ensures FoundDead(h', k, record) <==> FoundDead(h, k, record) {
      SameFoundDead(h, h', k, record);
    }
    hide Window, Lost, FoundDead;
    forall k ensures Decides(h', k, id) <==> Decides(h, k, id) {}
  }

  lemma SameFoundDead(h: seq<Event>, h': seq<Event>, k: int, record: Record)
    requires |h| <= |h'| && h'[..|h|] == h && forall r, s :: Window(h', r, s) <==> Window(h, r, s)
    ensures FoundDead(h', k, record) <==> FoundDead(h, k, record)
  {
    assert forall m :: 0 <= m < |h| ==> h'[m] == h[m];
  }

  /** A record or removal decides until a save undoes it. */
  lemma OpHolds(h: seq<Event>, e: Event, id: InstanceId, record: Record)
    requires IsOp(e, id)
    ensures Holds(h + [e], id, record) <==> e == Recorded(record)
  {
    var h', n := h + [e], |h|;
    assert !Lost(h', n);
    assert Decides(h', n, id) && h'[n] == e;
    assert !FoundDead(h', n, record);
    assert forall k :: Decides(h', k, id) ==> k == n;
  }

  /** A save brings back what the heartbeat has read, apart from what it found dead. */
  lemma SaveHolds(h: seq<Event>, id: InstanceId, record: Record)
    requires LastBeat(h) >= 0 && h[LastBeat(h)].Read?
    ensures var r := LastBeat(h);
            Holds(h + [Save], id, record) <==> Holds(h[..r], id, record) && IsAlive(record, h[r].world)
  {
    var h', r, n := h + [Save], LastBeat(h), |h|;
    var early := h[..r];
    assert forall m :: 0 <= m < n ==> h'[m] == h[m];
    assert Window(h', r, n);
    forall a, b ensures Window(h', a, b) <==> Window(early, a, b) || (a == r && b == n) {
      SaveWindow(h, a, b);
    }
    forall k ensures Lost(h', k) <==> Lost(early, k) || r < k < n {}
    forall k | 0 <= k < r
      ensures FoundDead(h', k, record) <==> FoundDead(early, k, record) || !IsAlive(record, h[r].world)
    {
      SaveFoundDead(h, k, record);
    }
    NothingLostAtEnd(early);
    hide Window, FoundDead, Lost, LastBeat, IsAlive;
    forall k ensures Decides(h', k, id) <==> Decides(early, k, id) {
      assert 0 <= k < r ==> early[k] == h'[k];
    }
  }

  lemma NothingLostAtEnd(h: seq<Event>)
    ensures forall k :: Lost(h, k) ==> 0 <= k < |h|
  {
  }

  lemma SaveWindow(h: seq<Event>, a: int, b: int)
    requires LastBeat(h) >= 0 && h[LastBeat(h)].Read?
    ensures var r := LastBeat(h);
            Window(h + [Save], a, b) <==> Window(h[..r], a, b) || (a == r && b == |h|)
  {
    var h', r := h + [Save], LastBeat(h);
    assert forall m :: 0 <= m < |h| ==> h'[m] == h[m];
    assert forall m :: 0 <= m < r ==> h[..r][m] == h[m];
  }

  lemma SaveFoundDead(h: seq<Event>, k: int, record: Record)
    requires LastBeat(h) >= 0 && h[LastBeat(h)].Read? && 0 <= k < LastBeat(h)
    ensures var r := LastBeat(h);
            FoundDead(h + [Save], k, record) <==> FoundDead(h[..r], k, record) || !IsAlive(record, h[r].world)
  {
    var h', r, n := h + [Save], LastBeat(h), |h|;
    SaveWindow(h, r, n);
    forall a, b ensures Window(h', a, b) <==> Window(h[..r], a, b) || (a == r && b == n) {
      SaveWindow(h, a, b);
    }
    assert forall m :: 0 <= m < n ==> h'[m] == h[m];
    assert forall m :: 0 <= m < r ==> h[..r][m] == h[m];
    hide LastBeat;
    if !IsAlive(record, h[r].world) {
      assert Window(h', r, n);
    }
  }

  /** What a heartbeat holds between its read and its save. */
  lemma {:induction false} HeldIsRead(h: seq<Event>, id: InstanceId)
    ensures var b := LastBeat(h);
            ViewAfter(h, id).held ==
              if b >= 0 && h[b].Read? then Some(AliveOnly(ViewAfter(h[..b], id).stored, h[b].world)) else None
  {
    if h != [] {
      var front, b := h[..|h| - 1], LastBeat(h);
      HeldIsRead(front, id);
      assert 0 <= b < |front| ==> front[..b] == h[..b] && front[b] == h[b];
    }
    hide AliveOnly;
  }

  /** For every history: the store has a record of an instance exactly when the last start or stop of the instance that
      no save has undone recorded it, and no heartbeat that saved has found it dead since. */
  lemma {:induction false} StoreExactly(h: seq<Event>, id: InstanceId, record: Record)
    ensures ViewAfter(h, id).stored == Some(record) <==> Holds(h, id, record)
    decreases |h|
  {
    if h == [] {
      NothingHolds(id, record);
    } else {
      var front, e := h[..|h| - 1], h[|h| - 1];
      assert h == front + [e];
      StoreExactly(front, id, record);
      HeldIsRead(front, id);
      var r := LastBeat(front);
      if IsOp(e, id) {
        OpHolds(front, e, id, record);
      } else if e.Save? && r >= 0 && front[r].Read? {
        SaveHolds(front, id, record);
        StoreExactly(front[..r], id, record);
      } else {
        SameHolds(front, e, id, record);
      }
    }
    hide Holds, LastBeat, IsAlive;
  }

  lemma NothingHolds(id: InstanceId, record: Record)
    ensures !Holds([], id, record)
  {
  }

  // ---------------------------------------------------------------- what should be there

  /** The last record or removal of the instance, undone or not; -1 when there is none. */
  function LastOp(h: seq<Event>, id: InstanceId): (k: int)
    ensures -1 <= k < |h|
    ensures k >= 0 ==> IsOp(h[k], id)
    ensures forall m :: k < m < |h| ==> !IsOp(h[m], id)
  {
    if h == [] then -1 else if IsOp(h[|h| - 1], id) then |h| - 1 else LastOp(h[..|h| - 1], id)
  }

  /** The record that the last start has left, unless the instance was stopped or found dead since. */
  ghost function Meant(h: seq<Event>, id: InstanceId): Option<Record> {
    var k := LastOp(h, id);
    if k >= 0 && h[k].Recorded? && !FoundDead(h, k, h[k].record) then Some(h[k].record) else None
  }

  /** The store is right about an instance whose last start or stop no save has undone. */
  lemma KeptOpIsMeant(h: seq<Event>, id: InstanceId)
    requires LastOp(h, id) >= 0 ==> !Lost(h, LastOp(h, id))
    ensures ViewAfter(h, id).stored == Meant(h, id)
  {
    var k := LastOp(h, id);
    forall record ensures Holds(h, id, record) <==> Meant(h, id) == Some(record) {
      hide FoundDead, Lost, LastOp;
      if k >= 0 {
        assert Decides(h, k, id);
        assert forall m :: Decides(h, m, id) ==> m == k;
      }
    }
    forall record ensures ViewAfter(h, id).stored == Some(record) <==> Meant(h, id) == Some(record) {
      StoreExactly(h, id, record);
    }
    hide *;
    SameOption(ViewAfter(h, id).stored, Meant(h, id));
  }

  lemma SameOption<T(!new)>(a: Option<T>, b: Option<T>)
    requires forall x :: a == Some(x) <==> b == Some(x)
    ensures a == b
  {
    if a.Some? {
      assert a == Some(a.value);
    } else if b.Some? {
      assert b == Some(b.value);
    }
  }

  // ---------------------------------------------------------------- the Server after a delivered heartbeat

  /** What a heartbeat finds out about an instance. */
  datatype Finding = Absent | Dead | Alive(processId: int)

  function FindingOf(record: Option<Record>, world: World): Finding {
    if record.None? then Absent else if IsAlive(record.value, world) then Alive(record.value.processId) else Dead
  }

  function RowAfter(row: Instance, f: Finding): Instance {
    match f
    case Alive(processId) => row.(status := Running, processId := Some(processId))
    case Dead => row.(status := Failed, processId := None)
    case Absent => if IsActive(row.status) then row.(status := Failed, processId := None) else row
  }

  /** What the heartbeat reports that reads the store after `h`, when it arrives. */
  function RowsAfterDelivery(rows: Instances, node: NodeId, h: seq<Event>, world: World): Instances {
    Reconciled(rows, node, ReportsOf(After(h).store, world))
  }

  /** A managed instance of its own process takes exactly what the store and the machine say. */
  lemma DeliveredRow(rows: Instances, node: NodeId, h: seq<Event>, world: World, id: InstanceId)
    requires id in rows && IsManagedOn(rows[id], node) && !rows[id].ollama
    ensures RowsAfterDelivery(rows, node, h, world)[id] == RowAfter(rows[id], FindingOf(ViewAfter(h, id).stored, world))
  {
    ViewIsStore(h, id);
    ReportOfLookup(After(h).store, world, id);
    hide IsAlive, After, ViewAfter;
  }

  lemma ReportOfLookup(store: seq<Record>, world: World, id: InstanceId)
    requires UniqueIds(store)
    ensures var last := LastReport(ReportsOf(store, world), id);
            match Lookup(store, id)
            case None => last < 0
            case Some(record) => last >= 0 && ReportsOf(store, world)[last] == ReportOf(record, world)
  {
    LookupIs(store, id);
    var reports := ReportsOf(store, world);
    var last := LastReport(reports, id);
    assert last >= 0 ==> store[last] in store && store[last].instanceId == id;
    hide IsAlive, Lookup;
    if Lookup(store, id).Some? {
      var n :| 0 <= n < |store| && store[n] == Lookup(store, id).value;
      assert reports[n].instanceId == id && last >= n;
      OneRecord(store, store[last], Lookup(store, id).value);
    }
  }

  /** The process of the record is there: its container, or its number in use by the process that started then. */
  ghost predicate IsThere(record: Record, world: World) {
    if record.container.Some? then record.container.value in world.containers
    else record.processId in world.startTimes &&
         (record.startTime.None? || world.startTimes[record.processId] == record.startTime.value)
  }

  /** What a heartbeat that arrives leaves of the row of a managed instance with its own process: running with the
      number of the recorded process if that is there, failed without one if it is gone; and without any record, failed
      if it was starting, running or stopping, and else as it was. */
  lemma DeliveredOutcome(rows: Instances, node: NodeId, h: seq<Event>, world: World, id: InstanceId)
    requires id in rows && rows[id].local && rows[id].node == Some(node) && !rows[id].ollama
    ensures var row, after := rows[id], RowsAfterDelivery(rows, node, h, world)[id];
            match ViewAfter(h, id).stored
            case Some(record) =>
              after == if IsThere(record, world) then row.(status := Running, processId := Some(record.processId))
                       else row.(status := Failed, processId := None)
            case None =>
              after == if row.status in {Starting, Running, Stopping} then row.(status := Failed, processId := None)
                       else row
  {
    DeliveredRow(rows, node, h, world, id);
    hide RowsAfterDelivery, ViewAfter;
  }

  /** The two findings leave the row in the same state. */
  predicate SameEffect(row: Instance, f: Finding, g: Finding) {
    || f == g
    || (!f.Alive? && !g.Alive? && (IsActive(row.status) || (row.status == Failed && row.processId.None?)))
  }

  /** A heartbeat arrives that could read the store: the instance is as its last start or stop has left it exactly
      unless that start or stop fell between the read and the save of an earlier heartbeat, and what the store has
      instead makes a difference to the row. */
  lemma DeliveredHeartbeatExactly(rows: Instances, node: NodeId, h: seq<Event>, world: World, id: InstanceId)
    requires id in rows && IsManagedOn(rows[id], node) && !rows[id].ollama
    ensures var meant, found := FindingOf(Meant(h, id), world), FindingOf(ViewAfter(h, id).stored, world);
            RowsAfterDelivery(rows, node, h, world)[id] == RowAfter(rows[id], meant) <==>
              || LastOp(h, id) < 0 || !Lost(h, LastOp(h, id))
              || SameEffect(rows[id], found, meant)
    ensures RowsAfterDelivery(rows, node, h, world)[id].status !in {Starting, Stopping}
  {
    DeliveredRow(rows, node, h, world, id);
    if LastOp(h, id) < 0 || !Lost(h, LastOp(h, id)) {
      KeptOpIsMeant(h, id);
    }
    hide Reconciled, RowsAfterDelivery, Meant, Lost, LastOp, ViewAfter, FindingOf;
    EffectExactly(rows[id], FindingOf(ViewAfter(h, id).stored, world), FindingOf(Meant(h, id), world));
  }

  lemma EffectExactly(row: Instance, f: Finding, g: Finding)
    ensures RowAfter(row, f) == RowAfter(row, g) <==> SameEffect(row, f, g)
    ensures RowAfter(row, f).status !in {Starting, Stopping}
  {
  }

  /** A heartbeat arrives that could not read the store: every active instance fails, and the row is right exactly when
      the instance is not alive and either active or already shown as failed, or nothing was meant to be there. */
  lemma UnreadableStoreExactly(rows: Instances, node: NodeId, h: seq<Event>, world: World, id: InstanceId)
    requires id in rows && IsManagedOn(rows[id], node) && !rows[id].ollama
    ensures var meant := FindingOf(Meant(h, id), world);
            Reconciled(rows, node, [])[id] == RowAfter(rows[id], meant) <==>
              meant.Absent? || (meant.Dead? && (IsActive(rows[id].status) ||
                                                (rows[id].status == Failed && rows[id].processId.None?)))
    ensures IsActive(rows[id].status) ==> Reconciled(rows, node, [])[id].status == Failed
  {
    assert Reconciled(rows, node, [])[id] == RowAfter(rows[id], Absent);
    hide Reconciled, Meant, FindingOf;
    EffectExactly(rows[id], Absent, FindingOf(Meant(h, id), world));
  }

  /** A heartbeat of one node leaves external instances and the rows of other nodes alone, and an instance of a shared
      daemon keeps its state unless the store has a record of it. */
  lemma DeliveredHeartbeatFrame(rows: Instances, node: NodeId, h: seq<Event>, world: World, id: InstanceId)
    requires id in rows
    requires !IsManagedOn(rows[id], node) || (rows[id].ollama && forall record :: !Holds(h, id, record))
    ensures RowsAfterDelivery(rows, node, h, world)[id] == rows[id]
  {
    if IsManagedOn(rows[id], node) {
      if ViewAfter(h, id).stored.Some? {
        StoreExactly(h, id, ViewAfter(h, id).stored.value);
      }
      ViewIsStore(h, id);
      ReportOfLookup(After(h).store, world, id);
      hide After, ViewAfter, Holds, IsAlive;
    }
  }

  // ---------------------------------------------------------------- a history for each failure

  /** A start recorded between the read and the save of a heartbeat is lost: the next heartbeat that arrives fails the
      active instance although its process is alive. */
  lemma StartDuringHeartbeatIsLost(rows: Instances, node: NodeId, h: seq<Event>, world: World, started: Record,
                                   later: World)
    requires var id := started.instanceId;
             id in rows && IsManagedOn(rows[id], node) && !rows[id].ollama && IsActive(rows[id].status)
    requires ViewAfter(h, started.instanceId).stored.None? && IsAlive(started, later)
    ensures var overlap := h + [Read(world)] + [Recorded(started)] + [Save];
            && RowsAfterDelivery(rows, node, overlap, later)[started.instanceId].status == Failed
            && Meant(overlap, started.instanceId) == Some(started)
  {
    var id := started.instanceId;
    var overlap := Overlap(h, world, Recorded(started), id);
    DeliveredRow(rows, node, overlap, later, id);
    LastOpHere(h, world, Recorded(started), id);
    hide Reconciled, RowsAfterDelivery, ViewAfter, IsAlive, LastOp, FoundDead;
  }

  lemma Overlap(h: seq<Event>, world: World, op: Event, id: InstanceId) returns (overlap: seq<Event>)
    requires IsOp(op, id)
    ensures overlap == h + [Read(world)] + [op] + [Save]
    ensures ViewAfter(overlap, id).stored == AliveOnly(ViewAfter(h, id).stored, world)
  {
    overlap := h + [Read(world)] + [op] + [Save];
    var h1, h2 := h + [Read(world)], h + [Read(world)] + [op];
    assert h1[..|h|] == h && h2[..|h1|] == h1 && overlap[..|h2|] == h2;
    assert ViewAfter(h1, id).held == Some(AliveOnly(ViewAfter(h, id).stored, world));
    assert ViewAfter(h2, id).held == ViewAfter(h1, id).held;
    hide AliveOnly;
  }

  lemma LastOpHere(h: seq<Event>, world: World, op: Event, id: InstanceId)
    requires IsOp(op, id)
    ensures var overlap := h + [Read(world)] + [op] + [Save];
            var k := |h| + 1;
            LastOp(overlap, id) == k && overlap[k] == op && forall record :: !FoundDead(overlap, k, record)
  {
    var overlap := h + [Read(world)] + [op] + [Save];
    assert overlap[|h| + 1] == op && overlap[|h| + 2] == Save;
    hide IsAlive;
  }

  /** A stop that removes its record there is undone: the next heartbeat that arrives turns the stopped instance into a
      failed one. */
  lemma StopDuringHeartbeatComesBack(rows: Instances, node: NodeId, h: seq<Event>, world: World, record: Record,
                                     later: World)
    requires var id := record.instanceId;
             id in rows && IsManagedOn(rows[id], node) && !rows[id].ollama && rows[id].status == Stopped
    requires ViewAfter(h, record.instanceId).stored == Some(record) && IsAlive(record, world) && !IsAlive(record, later)
    ensures var id := record.instanceId;
            var overlap := h + [Read(world)] + [Forgotten(id)] + [Save];
            && RowsAfterDelivery(rows, node, overlap, later)[id].status == Failed
            && Meant(overlap, id).None?
  {
    var id := record.instanceId;
    var overlap := Overlap(h, world, Forgotten(id), id);
    DeliveredRow(rows, node, overlap, later, id);
    LastOpHere(h, world, Forgotten(id), id);
    hide Reconciled, RowsAfterDelivery, ViewAfter, IsAlive, LastOp, FoundDead;
  }
}
