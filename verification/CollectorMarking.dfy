/** From collector scripts to missing GPUs: which runs let the Server mark a GPU as missing. */
module CollectorMarking {
  import opened Options
  import opened Text
  import opened CollectorTsv
  import opened CollectorReports
  import opened CollectorMerge
  import opened CollectorRoundTrip
  import opened CollectorGate
  import opened GpuStatus

  /** A GPU becomes missing only by a heartbeat of its node, with a later sample time, that does not report it and whose
      collectors all came through without an error. */
  lemma MissingNeedsQuiet(dirs: seq<CollectorDir>, config: Config, registry: seq<RegistryEntry>, worlds: seq<World>,
                          rows: Rows, beat: Beat, at: (NodeId, GpuKey))
    requires |dirs| == |worlds|
    requires |beat.collectorErrors| == |Prelude(dirs, registry) + AllErrors(dirs, config, registry, worlds)|
    requires at in rows && !rows[at].missing && at in Received(rows, beat) && Received(rows, beat)[at].missing
    ensures AllQuiet(dirs, config, registry, worlds)
    ensures at.0 == beat.node && !Reports(beat, at.0, at.1) && rows[at].updatedAt < beat.sampledAt
  {
    hide AllErrors, Prelude, AllQuiet, IsQuiet;
    NoErrorsExactly(dirs, config, registry, worlds);
    ReceivedRow(rows, beat, at);
    hide Received;
  }

  /** As long as one of the directories holds a collector that the Agent's configuration disables, no heartbeat built
      from them marks any GPU as missing. */
  lemma DisabledMarksNothing(dirs: seq<CollectorDir>, config: Config, registry: seq<RegistryEntry>, worlds: seq<World>,
                             k: nat, rows: Rows, beat: Beat, at: (NodeId, GpuKey))
    requires |dirs| == |worlds| && k < |dirs| && dirs[k].id in config.disabled
    requires |beat.collectorErrors| == |Prelude(dirs, registry) + AllErrors(dirs, config, registry, worlds)|
    requires at in rows
    ensures at in Received(rows, beat) && (Received(rows, beat)[at].missing ==> rows[at].missing)
  {
    hide AllErrors, Prelude, ErrorsOf, IsQuiet, Received;
    NoErrorsExactly(dirs, config, registry, worlds);
    RefusedOutcome(dirs[k], config, registry, worlds[k]);
    QuietExactly(dirs[k], config, registry, worlds[k]);
    ReceivedRow(rows, beat, at);
  }

  function ErrorReport(message: string): Header {
    Header(Some(Error), None, None, Some(message))
  }

  /** A collector may fail without counting as failed: scripts that print a status row saying "error", with whatever
      message, and exit with code 0 add no error and no GPU. A heartbeat built from that marks the node's GPUs
      missing. */
  lemma ReportedErrorIsSilent(dir: CollectorDir, config: Config, registry: seq<RegistryEntry>, world: World,
                              message: string,
                              rows: Rows, node: NodeId, sampledAt: int)
    requires MayRun(dir, config, registry, world) && WellFormedHeader(ErrorReport(message))
    requires !world.discoverOutput.timedOut && world.discoverOutput.exitCode == Some(0)
    requires world.discoverOutput.stdout == PrintDiscovery(Parsed(ErrorReport(message), []))
    requires !world.metricsOutput.timedOut && world.metricsOutput.exitCode == Some(0)
    requires world.metricsOutput.stdout == PrintMetrics(Parsed(ErrorReport(message), []))
    ensures ErrorsOf(dir, config, registry, world) == [] && GpusOf(dir, config, registry, world) == []
    ensures forall at :: at in rows && at.0 == node && rows[at].updatedAt < sampledAt ==>
              at in Received(rows, Beat(node, sampledAt, [], [])) &&
              Received(rows, Beat(node, sampledAt, [], []))[at].missing
  {
    hide DiscoveryOf, MetricsOf, PrintDiscovery, PrintMetrics, ErrorReport, WellFormedHeader;
    DiscoveryReturns(Parsed(ErrorReport(message), []));
    MetricsReturn(Parsed(ErrorReport(message), []));
    StatusOfErrorReport(message);
    QuietExactly(dir, config, registry, world);
    hide FirstEntry, CheckEnabled, ErrorsOf;
  }

  lemma StatusOfErrorReport(message: string)
    ensures ErrorReport(message).status == Some(Error)
  {
  }
}
