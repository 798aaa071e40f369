/** GPU rows of the Server: overwritten by reports, and marked missing when a heartbeat whose collectors all succeeded
    does not mention them. */
module GpuStatus {
  import opened Options

  type NodeId = string
  type GpuKey = string

  /** One reported GPU; `fields` stands for everything that is copied as it comes. */
  datatype Gpu = Gpu(key: GpuKey, fields: string)

  datatype Beat = Beat(node: NodeId, sampledAt: int, gpus: seq<Gpu>, collectorErrors: seq<string>)

  datatype Row = Row(fields: string, missing: bool, updatedAt: int)

  type Rows = map<(NodeId, GpuKey), Row>

  /** The last entry for the key, if any. */
  function LastGpu(gpus: seq<Gpu>, key: GpuKey): (last: Option<Gpu>)
    ensures last.None? <==> forall gpu :: gpu in gpus ==> gpu.key != key
    ensures last.Some? ==> last.value in gpus && last.value.key == key
  {
    if gpus == [] then None
    else if gpus[|gpus| - 1].key == key then Some(gpus[|gpus| - 1])
    else LastGpu(gpus[..|gpus| - 1], key)
  }

  function Upserted(rows: Rows, node: NodeId, sampledAt: int, gpus: seq<Gpu>): Rows
    decreases |gpus|
  {
    if gpus == [] then rows
    else
      var gpu := gpus[|gpus| - 1];
      Upserted(rows, node, sampledAt, gpus[..|gpus| - 1])[(node, gpu.key) := Row(gpu.fields, false, sampledAt)]
  }

  function Marked(rows: Rows, node: NodeId, sampledAt: int): Rows {
    map at | at in rows ::
      if at.0 == node && rows[at].updatedAt < sampledAt then rows[at].(missing := true, updatedAt := sampledAt)
      else rows[at]
  }

  function Received(rows: Rows, beat: Beat): Rows {
    var upserted := Upserted(rows, beat.node, beat.sampledAt, beat.gpus);
    if beat.collectorErrors == [] then Marked(upserted, beat.node, beat.sampledAt) else upserted
  }

  class GpuTable {
    var rows: Rows

    constructor ()
      ensures rows == map[]
    {
      rows := map[];
    }

    method UpsertGpuStatus(node: NodeId, sampledAt: int, gpu: Gpu)
      modifies this
      ensures rows == old(rows)[(node, gpu.key) := Row(gpu.fields, false, sampledAt)]
    {
      rows := rows[(node, gpu.key) := Row(gpu.fields, false, sampledAt)];
    }

    method MarkMissingGpus(node: NodeId, sampledAt: int)
      modifies this
      ensures rows == Marked(old(rows), node, sampledAt)
    {
      rows := map at | at in rows ::
        if at.0 == node && rows[at].updatedAt < sampledAt then rows[at].(missing := true, updatedAt := sampledAt)
        else rows[at];
    }

    method RecordGpus(beat: Beat)
      modifies this
      ensures rows == Received(old(rows), beat)
    {
      ghost var before := rows;
      for i := 0 to |beat.gpus|
        invariant rows == Upserted(before, beat.node, beat.sampledAt, beat.gpus[..i])
      {
        assert beat.gpus[..i + 1][..i] == beat.gpus[..i];
        UpsertGpuStatus(beat.node, beat.sampledAt, beat.gpus[i]);
      }
      assert beat.gpus[..|beat.gpus|] == beat.gpus;
      if |beat.collectorErrors| == 0 {
        MarkMissingGpus(beat.node, beat.sampledAt);
      }
    }
  }

  // ---------------------------------------------------------------- histories

  function RowsAfter(history: seq<Beat>): Rows {
    if history == [] then map[] else Received(RowsAfter(history[..|history| - 1]), history[|history| - 1])
  }

  predicate Reports(beat: Beat, node: NodeId, key: GpuKey) {
    beat.node == node && LastGpu(beat.gpus, key).Some?
  }

  /** Beat `i` is the last one that reports the GPU. */
  predicate IsLastReport(history: seq<Beat>, i: int, node: NodeId, key: GpuKey) {
    0 <= i < |history| && Reports(history[i], node, key) &&
    forall j :: i < j < |history| ==> !Reports(history[j], node, key)
  }

  /** Beat `j` comes after beat `i`, had no collector error, and carries a later sample time. */
  predicate Overtakes(history: seq<Beat>, j: int, i: int, node: NodeId)
    requires 0 <= i < |history|
  {
    i < j < |history| && history[j].node == node && history[j].collectorErrors == [] &&
    history[j].sampledAt > history[i].sampledAt
  }

  lemma {:induction false} UpsertedRow(rows: Rows, node: NodeId, sampledAt: int, gpus: seq<Gpu>, at: (NodeId, GpuKey))
    ensures var later := Upserted(rows, node, sampledAt, gpus);
            var last := LastGpu(gpus, at.1);
            if at.0 == node && last.Some? then at in later && later[at] == Row(last.value.fields, false, sampledAt)
            else (at in later <==> at in rows) && (at in rows ==> later[at] == rows[at])
    decreases |gpus|
  {
    if gpus != [] {
      UpsertedRow(rows, node, sampledAt, gpus[..|gpus| - 1], at);
    }
  }

  /** What one heartbeat does to one row. Rows of other nodes stay as they are. */
  lemma ReceivedRow(rows: Rows, beat: Beat, at: (NodeId, GpuKey))
    ensures var later := Received(rows, beat);
            if Reports(beat, at.0, at.1) then
              at in later && later[at] == Row(LastGpu(beat.gpus, at.1).value.fields, false, beat.sampledAt)
            else
              && (at in later <==> at in rows)
              && (at in rows ==>
                    later[at] ==
                    if at.0 == beat.node && beat.collectorErrors == [] && rows[at].updatedAt < beat.sampledAt
                    then rows[at].(missing := true, updatedAt := beat.sampledAt) else rows[at])
  {
    UpsertedRow(rows, beat.node, beat.sampledAt, beat.gpus, at);
  }

  /** The update time of a row is the latest among its last report and the beats that overtake it. */
  ghost predicate IsUpToDate(history: seq<Beat>, i: int, node: NodeId, row: Row)
    requires 0 <= i < |history|
  {
    && row.updatedAt >= history[i].sampledAt
    && (forall j :: Overtakes(history, j, i, node) ==> history[j].sampledAt <= row.updatedAt)
    && (row.updatedAt == history[i].sampledAt ||
        exists j :: Overtakes(history, j, i, node) && history[j].sampledAt == row.updatedAt)
  }

  lemma {:induction false} RowExists(history: seq<Beat>, node: NodeId, key: GpuKey)
    ensures (node, key) in RowsAfter(history) <==> exists i :: IsLastReport(history, i, node, key)
  {
    if history != [] {
      var n := |history| - 1;
      RowExists(history[..n], node, key);
      ReceivedRow(RowsAfter(history[..n]), history[n], (node, key));
      if Reports(history[n], node, key) {
        assert IsLastReport(history, n, node, key);
      } else {
        LastReportStays(history, node, key);
        if i :| IsLastReport(history[..n], i, node, key) {
          assert IsLastReport(history, i, node, key);
        }
        if i :| IsLastReport(history, i, node, key) {
          assert IsLastReport(history[..n], i, node, key);
        }
      }
    }
  }

  lemma LastReportStays(history: seq<Beat>, node: NodeId, key: GpuKey)
    requires history != [] && !Reports(history[|history| - 1], node, key)
    ensures forall i :: IsLastReport(history, i, node, key) <==> IsLastReport(history[..|history| - 1], i, node, key)
  {
    var front := history[..|history| - 1];
    forall i ensures IsLastReport(history, i, node, key) <==> IsLastReport(front, i, node, key) {
      if IsLastReport(history, i, node, key) {
        assert forall j :: i < j < |front| ==> front[j] == history[j];
      }
    }
  }

  lemma {:induction false} RowReplay(history: seq<Beat>, i: int, node: NodeId, key: GpuKey)
    requires IsLastReport(history, i, node, key)
    ensures (node, key) in RowsAfter(history)
    ensures var row := RowsAfter(history)[(node, key)];
            && row.fields == LastGpu(history[i].gpus, key).value.fields
            && (row.missing <==> row.updatedAt > history[i].sampledAt)
            && IsUpToDate(history, i, node, row)
  {
    var n := |history| - 1;
    ReceivedRow(RowsAfter(history[..n]), history[n], (node, key));
    if i < n {
      LastReportStays(history, node, key);
      RowReplay(history[..n], i, node, key);
      OvertakesStep(history, i, node);
      hide Received, IsLastReport;
      UpToDateStep(history, i, node, RowsAfter(history[..n])[(node, key)], RowsAfter(history)[(node, key)]);
    }
  }

  lemma UpToDateStep(history: seq<Beat>, i: int, node: NodeId, before: Row, after: Row)
    requires 0 <= i < |history| - 1 && IsUpToDate(history[..|history| - 1], i, node, before)
    requires var beat := history[|history| - 1];
             after.updatedAt ==
             if beat.node == node && beat.collectorErrors == [] && before.updatedAt < beat.sampledAt
             then beat.sampledAt else before.updatedAt
    ensures IsUpToDate(history, i, node, after)
  {
    OvertakesStep(history, i, node);
  }

  lemma OvertakesStep(history: seq<Beat>, i: int, node: NodeId)
    requires 0 <= i < |history| - 1
    ensures forall j :: 0 <= j < |history| - 1 ==>
              (Overtakes(history, j, i, node) <==> Overtakes(history[..|history| - 1], j, i, node))
  {
  }

  /** For every history whatsoever: there is a row exactly for what was ever reported, it holds the fields of the last
      report, and it is missing exactly when a later error-free heartbeat of the node has a strictly later sample
      time. */
  lemma MissingExactly(history: seq<Beat>, node: NodeId, key: GpuKey)
    ensures (node, key) in RowsAfter(history) <==> exists i :: IsLastReport(history, i, node, key)
    ensures forall i :: IsLastReport(history, i, node, key) ==>
              && RowsAfter(history)[(node, key)].fields == LastGpu(history[i].gpus, key).value.fields
              && (RowsAfter(history)[(node, key)].missing <==> exists j :: Overtakes(history, j, i, node))
  {
    RowExists(history, node, key);
    forall i | IsLastReport(history, i, node, key)
      ensures && RowsAfter(history)[(node, key)].fields == LastGpu(history[i].gpus, key).value.fields
              && (RowsAfter(history)[(node, key)].missing <==> exists j :: Overtakes(history, j, i, node))
    {
      RowReplay(history, i, node, key);
    }
  }

  /** Sample times of the node strictly increase. */
  predicate Increasing(history: seq<Beat>, node: NodeId) {
    forall i, j :: 0 <= i < j < |history| && history[i].node == history[j].node == node ==>
      history[i].sampledAt < history[j].sampledAt
  }

  /** With increasing sample times, missing means: an error-free heartbeat came after the last one with the GPU. */
  lemma MissingWhenIncreasing(history: seq<Beat>, i: int, node: NodeId, key: GpuKey)
    requires Increasing(history, node) && IsLastReport(history, i, node, key)
    ensures (node, key) in RowsAfter(history)
    ensures RowsAfter(history)[(node, key)].missing <==>
              exists j :: i < j < |history| && history[j].node == node && history[j].collectorErrors == []
  {
    MissingExactly(history, node, key);
    if j :| i < j < |history| && history[j].node == node && history[j].collectorErrors == [] {
      assert Overtakes(history, j, i, node);
    }
  }
}
