/** The gate in front of the collector scripts, and the pipeline behind it. */
module CollectorGate {
  import opened Options
  import opened Text
  import opened CollectorTsv
  import opened CollectorReports
  import opened CollectorMerge

  type Script = string

  /** A digest stands for the script it was made from. */
  datatype Digest = DigestOf(script: Script)

  datatype RegistryEntry = RegistryEntry(id: string, version: string, enabled: bool, discoverSha256: Digest,
                                         metricsSha256: Digest)

  /** A collector directory with the digests found when it was scanned. */
  datatype CollectorDir = CollectorDir(id: string, version: string, discoverSha256: Digest, metricsSha256: Digest)

  datatype CollectorMode = Explicit | Auto

  datatype Config = Config(mode: CollectorMode, enabled: seq<string>, disabled: seq<string>)

  datatype Output = Output(timedOut: bool, exitCode: Option<int>, stdout: string, stderr: string)

  /** What the machine answers for one directory: the scripts as read now, and what they output if they are run. */
  datatype World = World(discover: Option<Script>, metrics: Option<Script>, discoverOutput: Output,
                         metricsOutput: Output)

  datatype Execution = Execution(id: string, version: string, stage: Stage, script: Script)

  datatype Visited = Visited(gpus: seq<GpuMetrics>, errors: seq<CollectorError>, executed: seq<Execution>)

  // ---------------------------------------------------------------- the gate

  /** The first entry for the id and version, enabled or not. */
  function FirstEntry(registry: seq<RegistryEntry>, id: string, version: string): (found: Option<RegistryEntry>)
    ensures found.Some? ==> found.value in registry && found.value.id == id && found.value.version == version
  {
    if registry == [] then None
    else if registry[0].id == id && registry[0].version == version then Some(registry[0])
    else FirstEntry(registry[1..], id, version)
  }

  /** The first enabled entry for the id and version. */
  function FirstEnabledEntry(registry: seq<RegistryEntry>, id: string, version: string): (found: Option<RegistryEntry>)
    ensures found.Some? ==> found.value in registry && found.value.enabled
  {
    if registry == [] then None
    else if registry[0].id == id && registry[0].version == version && registry[0].enabled then Some(registry[0])
    else FirstEnabledEntry(registry[1..], id, version)
  }

  function CheckEnabled(dir: CollectorDir, config: Config, registry: seq<RegistryEntry>): EnableStatus {
    if dir.id in config.disabled then Disabled
    else if config.mode == Explicit && dir.id !in config.enabled then NotListed
    else
      var entry := FirstEntry(registry, dir.id, dir.version);
      if entry.None? then NotRegistered
      else if !entry.value.enabled then RegistryDisabled
      else if entry.value.discoverSha256 != dir.discoverSha256 then DiscoverHashMismatch
      else if entry.value.metricsSha256 != dir.metricsSha256 then MetricsHashMismatch
      else Allowed
  }

  /** A collector is allowed exactly when it is not disabled, is listed where that is asked for, and the first entry
      for its id and version is enabled and has the digests of both scripts. */
  lemma AllowedExactly(dir: CollectorDir, config: Config, registry: seq<RegistryEntry>)
    ensures CheckEnabled(dir, config, registry) == Allowed <==>
              && dir.id !in config.disabled && (config.mode == Auto || dir.id in config.enabled)
              && exists n :: IsFirstEntry(registry, n, dir.id, dir.version) && registry[n].enabled
                             && registry[n].discoverSha256 == dir.discoverSha256
                             && registry[n].metricsSha256 == dir.metricsSha256
  {
    FirstEntryExists(registry, dir.id, dir.version);
    hide FirstEntry;
    forall n, m | IsFirstEntry(registry, n, dir.id, dir.version) && IsFirstEntry(registry, m, dir.id, dir.version)
      ensures n == m {}
  }

  /** The Agent's own lists let the collector through. */
  predicate Listed(config: Config, id: string) {
    id !in config.disabled && (config.mode == Auto || id in config.enabled)
  }

  /** Every refusal of the gate, exactly: disabled goes first, then not listed; among listed collectors the first
      registry entry decides, and of two digests that differ the one of the discover script is named. */
  lemma RefusalsExactly(dir: CollectorDir, config: Config, registry: seq<RegistryEntry>)
    ensures var status := CheckEnabled(dir, config, registry);
            && (status == Disabled <==> dir.id in config.disabled)
            && (status == NotListed <==>
                  dir.id !in config.disabled && config.mode == Explicit && dir.id !in config.enabled)
            && (status == NotRegistered <==>
                  Listed(config, dir.id) &&
                  forall n :: 0 <= n < |registry| ==> registry[n].id != dir.id || registry[n].version != dir.version)
            && (status == RegistryDisabled <==>
                  Listed(config, dir.id) &&
                  exists n :: IsFirstEntry(registry, n, dir.id, dir.version) && !registry[n].enabled)
            && (status == DiscoverHashMismatch <==>
                  Listed(config, dir.id) &&
                  exists n :: IsFirstEntry(registry, n, dir.id, dir.version) && registry[n].enabled
                              && registry[n].discoverSha256 != dir.discoverSha256)
            && (status == MetricsHashMismatch <==>
                  Listed(config, dir.id) &&
                  exists n :: IsFirstEntry(registry, n, dir.id, dir.version) && registry[n].enabled
                              && registry[n].discoverSha256 == dir.discoverSha256
                              && registry[n].metricsSha256 != dir.metricsSha256)
  {
    FirstEntryExists(registry, dir.id, dir.version);
    NoEntryExactly(registry, dir.id, dir.version);
    hide FirstEntry;
    forall n, m | IsFirstEntry(registry, n, dir.id, dir.version) && IsFirstEntry(registry, m, dir.id, dir.version)
      ensures n == m {}
  }

  lemma {:induction false} NoEntryExactly(registry: seq<RegistryEntry>, id: string, version: string)
    ensures FirstEntry(registry, id, version).None? <==>
              forall n :: 0 <= n < |registry| ==> registry[n].id != id || registry[n].version != version
  {
    if registry != [] {
      NoEntryExactly(registry[1..], id, version);
      assert forall n :: 0 <= n < |registry| - 1 ==> registry[1..][n] == registry[n + 1];
    }
  }

  predicate IsFirstEntry(registry: seq<RegistryEntry>, n: int, id: string, version: string) {
    && 0 <= n < |registry| && registry[n].id == id && registry[n].version == version
    && forall m :: 0 <= m < n ==> !(registry[m].id == id && registry[m].version == version)
  }

  lemma {:induction false} FirstEntryExists(registry: seq<RegistryEntry>, id: string, version: string)
    ensures var found := FirstEntry(registry, id, version);
            && (found.Some? <==> exists n :: IsFirstEntry(registry, n, id, version))
            && (forall n :: IsFirstEntry(registry, n, id, version) ==> found == Some(registry[n]))
  {
    if registry != [] {
      FirstEntryExists(registry[1..], id, version);
      if registry[0].id == id && registry[0].version == version {
        assert IsFirstEntry(registry, 0, id, version);
      } else {
        forall n ensures IsFirstEntry(registry, n, id, version) <==> IsFirstEntry(registry[1..], n - 1, id, version) {
          assert 0 < n < |registry| ==> registry[1..][n - 1] == registry[n];
          if IsFirstEntry(registry[1..], n - 1, id, version) {
            assert forall m :: 0 < m < n ==> registry[1..][m - 1] == registry[m];
          }
        }
        if n :| IsFirstEntry(registry[1..], n, id, version) {
          assert IsFirstEntry(registry, n + 1, id, version);
        }
      }
    }
  }

  // ---------------------------------------------------------------- the pipeline

  method RunDiscover(id: string, output: Output)
    returns (discovery: Option<Parsed<DiscoveryDevice>>, error: Option<CollectorError>)
    ensures discovery == DiscoveryFrom(output) &&
            error == StageError(id, Discover, output, ErrorIn(DiscoveryOf(output.stdout)))
    ensures error.None? <==> discovery.Some?
  {
    if output.timedOut {
      return None, Some(TimedOut(id, Discover));
    }
    if output.exitCode != Some(0) {
      return None, Some(Exited(id, Discover, output.exitCode, Trim(output.stderr)));
    }
    var parsed := ParseDiscovery(output.stdout);
    match parsed
    case Success(d) => return Some(d), None;
    case Failure(e) => return None, Some(Unparsable(id, Discover, e));
  }

  method RunMetrics(id: string, output: Output)
    returns (metrics: Option<Parsed<MetricSample>>, error: Option<CollectorError>)
    ensures metrics == MetricsFrom(output) &&
            error == StageError(id, Metrics, output, ErrorIn(MetricsOf(output.stdout)))
    ensures error.None? <==> metrics.Some?
  {
    if output.timedOut {
      return None, Some(TimedOut(id, Metrics));
    }
    if output.exitCode != Some(0) {
      return None, Some(Exited(id, Metrics, output.exitCode, Trim(output.stderr)));
    }
    var parsed := ParseMetrics(output.stdout);
    match parsed
    case Success(m) => return Some(m), None;
    case Failure(e) => return None, Some(Unparsable(id, Metrics, e));
  }

  /** The report of a script that ended in time with exit code 0 and printed one. */
  function DiscoveryFrom(output: Output): Option<Parsed<DiscoveryDevice>> {
    if output.timedOut || output.exitCode != Some(0) || DiscoveryOf(output.stdout).Failure? then None
    else Some(DiscoveryOf(output.stdout).value)
  }

  function MetricsFrom(output: Output): Option<Parsed<MetricSample>> {
    if output.timedOut || output.exitCode != Some(0) || MetricsOf(output.stdout).Failure? then None
    else Some(MetricsOf(output.stdout).value)
  }

  function ErrorIn<T>(parsed: Result<T>): Option<ParseError> {
    if parsed.Failure? then Some(parsed.error) else None
  }

  /** What is wrong with the end or the output of a script, if anything. */
  function StageError(id: string, stage: Stage, output: Output, parseError: Option<ParseError>): Option<CollectorError>
  {
    if output.timedOut then Some(TimedOut(id, stage))
    else if output.exitCode != Some(0) then Some(Exited(id, stage, output.exitCode, Trim(output.stderr)))
    else if parseError.Some? then Some(Unparsable(id, stage, parseError.value))
    else None
  }

  /** Both scripts, as read for execution, are the ones of the first registry entry, which is enabled. */
  predicate Registered(dir: CollectorDir, registry: seq<RegistryEntry>, world: World) {
    && world.discover.Some? && world.metrics.Some?
    && var entry := FirstEntry(registry, dir.id, dir.version);
       && entry.Some? && entry.value.enabled
       && entry.value.discoverSha256 == DigestOf(world.discover.value)
       && entry.value.metricsSha256 == DigestOf(world.metrics.value)
  }

  predicate MayRun(dir: CollectorDir, config: Config, registry: seq<RegistryEntry>, world: World) {
    CheckEnabled(dir, config, registry) == Allowed && Registered(dir, registry, world)
  }

  /** The directory is handled without any error. */
  predicate IsQuiet(dir: CollectorDir, config: Config, registry: seq<RegistryEntry>, world: World) {
    || CheckEnabled(dir, config, registry) == NotListed
    || (MayRun(dir, config, registry, world)
        && var discovery := DiscoveryFrom(world.discoverOutput);
           && discovery.Some?
           && if discovery.value.header.status == Some(NotAvailable) then discovery.value.header.message.None?
              else
                var metrics := MetricsFrom(world.metricsOutput);
                metrics.Some? && SamplesOnly(discovery.value.rows, metrics.value.rows) == [])
  }

  /** The errors of a directory whose collector the gate admits. No entry can be missing any more. */
  function AdmittedErrors(dir: CollectorDir, entry: RegistryEntry, world: World): seq<CollectorError> {
    var id := dir.id;
    if world.discover.None? then [Unreadable(id, Discover)]
    else if world.metrics.None? then [Unreadable(id, Metrics)]
    else if entry.discoverSha256 != DigestOf(world.discover.value) then [HashMismatch(id, Discover)]
    else if entry.metricsSha256 != DigestOf(world.metrics.value) then [HashMismatch(id, Metrics)]
    else
      var discovery := DiscoveryFrom(world.discoverOutput);
      if discovery.None?
      then [StageError(id, Discover, world.discoverOutput, ErrorIn(DiscoveryOf(world.discoverOutput.stdout))).value]
      else if discovery.value.header.status == Some(NotAvailable) then
        if discovery.value.header.message.Some? then [Unavailable(id, discovery.value.header.message.value)] else []
      else
        var metrics := MetricsFrom(world.metricsOutput);
        if metrics.None?
        then [StageError(id, Metrics, world.metricsOutput, ErrorIn(MetricsOf(world.metricsOutput.stdout))).value]
        else OnlyErrors(SamplesOnly(discovery.value.rows, metrics.value.rows), id)
  }

  function ErrorsOf(dir: CollectorDir, config: Config, registry: seq<RegistryEntry>, world: World): seq<CollectorError>
  {
    var status := CheckEnabled(dir, config, registry);
    if status == NotListed then []
    else if status != Allowed then [NotEnabled(dir.id, dir.version, status)]
    else AdmittedErrors(dir, FirstEntry(registry, dir.id, dir.version).value, world)
  }

  function ExecutedBy(dir: CollectorDir, config: Config, registry: seq<RegistryEntry>, world: World): seq<Execution> {
    if !MayRun(dir, config, registry, world) then []
    else
      var discovery := DiscoveryFrom(world.discoverOutput);
      [Execution(dir.id, dir.version, Discover, world.discover.value)]
      + if discovery.None? || discovery.value.header.status == Some(NotAvailable) then []
        else [Execution(dir.id, dir.version, Metrics, world.metrics.value)]
  }

  function GpusOf(dir: CollectorDir, config: Config, registry: seq<RegistryEntry>, world: World): seq<GpuMetrics> {
    if !MayRun(dir, config, registry, world) then []
    else
      var discovery, metrics := DiscoveryFrom(world.discoverOutput), MetricsFrom(world.metricsOutput);
      if discovery.None? || discovery.value.header.status == Some(NotAvailable) || metrics.None? then []
      else Joined(discovery.value, metrics.value, dir.id)
  }

  /** One directory: the gate, the second check of the scripts as read, and the two runs. */
  method Visit(dir: CollectorDir, config: Config, registry: seq<RegistryEntry>, world: World) returns (v: Visited)
    ensures v.executed == ExecutedBy(dir, config, registry, world) && v.gpus == GpusOf(dir, config, registry, world)
    ensures v.errors == ErrorsOf(dir, config, registry, world)
  {
    hide DiscoveryFrom, MetricsFrom, StageError, Joined, SamplesOnly, OnlyErrors;
    FirstEntryEnabled(registry, dir.id, dir.version);
    var status := CheckEnabled(dir, config, registry);
    if status == NotListed {
      return Visited([], [], []);
    }
    if status != Allowed {
      return Visited([], [NotEnabled(dir.id, dir.version, status)], []);
    }
    if world.discover.None? {
      return Visited([], [Unreadable(dir.id, Discover)], []);
    }
    if world.metrics.None? {
      return Visited([], [Unreadable(dir.id, Metrics)], []);
    }
    var discoverHash, metricsHash := DigestOf(world.discover.value), DigestOf(world.metrics.value);
    var entry := FirstEnabledEntry(registry, dir.id, dir.version);
    if entry.None? {
      return Visited([], [EntryMissing(dir.id, dir.version)], []);
    }
    if entry.value.discoverSha256 != discoverHash {
      return Visited([], [HashMismatch(dir.id, Discover)], []);
    }
    if entry.value.metricsSha256 != metricsHash {
      return Visited([], [HashMismatch(dir.id, Metrics)], []);
    }
    var executed := [Execution(dir.id, dir.version, Discover, world.discover.value)];
    var discovery, discoverError := RunDiscover(dir.id, world.discoverOutput);
    if discoverError.Some? {
      return Visited([], [discoverError.value], executed);
    }
    if discovery.value.header.status == Some(NotAvailable) {
      var message := discovery.value.header.message;
      return Visited([], if message.Some? then [Unavailable(dir.id, message.value)] else [], executed);
    }
    executed := executed + [Execution(dir.id, dir.version, Metrics, world.metrics.value)];
    var metrics, metricsError := RunMetrics(dir.id, world.metricsOutput);
    if metricsError.Some? {
      return Visited([], [metricsError.value], executed);
    }
    var gpus, errors := MergeIntoGpuMetrics(discovery.value, metrics.value, dir.id, []);
    assert errors == OnlyErrors(SamplesOnly(discovery.value.rows, metrics.value.rows), dir.id);
    v := Visited(gpus, errors, executed);
  }

  lemma {:induction false} FirstEntryEnabled(registry: seq<RegistryEntry>, id: string, version: string)
    ensures FirstEntry(registry, id, version).Some? && FirstEntry(registry, id, version).value.enabled ==>
              FirstEnabledEntry(registry, id, version) == FirstEntry(registry, id, version)
  {
    if registry != [] {
      FirstEntryEnabled(registry[1..], id, version);
    }
  }

  function AllExecuted(dirs: seq<CollectorDir>, config: Config, registry: seq<RegistryEntry>,
                       worlds: seq<World>): seq<Execution>
    requires |dirs| == |worlds|
  {
    if dirs == [] then []
    else
      var n := |dirs| - 1;
      AllExecuted(dirs[..n], config, registry, worlds[..n]) + ExecutedBy(dirs[n], config, registry, worlds[n])
  }

  function AllGpus(dirs: seq<CollectorDir>, config: Config, registry: seq<RegistryEntry>,
                   worlds: seq<World>): seq<GpuMetrics>
    requires |dirs| == |worlds|
  {
    if dirs == [] then []
    else
      var n := |dirs| - 1;
      AllGpus(dirs[..n], config, registry, worlds[..n]) + GpusOf(dirs[n], config, registry, worlds[n])
  }

  function AllErrors(dirs: seq<CollectorDir>, config: Config, registry: seq<RegistryEntry>,
                     worlds: seq<World>): seq<CollectorError>
    requires |dirs| == |worlds|
  {
    if dirs == [] then []
    else
      var n := |dirs| - 1;
      AllErrors(dirs[..n], config, registry, worlds[..n]) + ErrorsOf(dirs[n], config, registry, worlds[n])
  }

  function Prelude(dirs: seq<CollectorDir>, registry: seq<RegistryEntry>): seq<CollectorError> {
    if registry == [] && dirs != [] then [RegistryEmpty] else []
  }

  /** Nothing went wrong anywhere. */
  predicate AllQuiet(dirs: seq<CollectorDir>, config: Config, registry: seq<RegistryEntry>, worlds: seq<World>)
    requires |dirs| == |worlds|
  {
    && (registry == [] ==> dirs == [])
    && forall i :: 0 <= i < |dirs| ==> IsQuiet(dirs[i], config, registry, worlds[i])
  }

  method CollectViaDirs(config: Config, registry: seq<RegistryEntry>, dirs: seq<CollectorDir>, worlds: seq<World>)
    returns (gpus: seq<GpuMetrics>, errors: seq<CollectorError>, executed: seq<Execution>)
    requires |worlds| == |dirs|
    ensures gpus == AllGpus(dirs, config, registry, worlds) && executed == AllExecuted(dirs, config, registry, worlds)
    ensures errors == Prelude(dirs, registry) + AllErrors(dirs, config, registry, worlds)
  {
    hide ExecutedBy, GpusOf, ErrorsOf;
    gpus, errors, executed := [], [], [];
    if registry == [] && dirs != [] {
      errors := [RegistryEmpty];
    }
    for n := 0 to |dirs|
      invariant gpus == AllGpus(dirs[..n], config, registry, worlds[..n])
      invariant executed == AllExecuted(dirs[..n], config, registry, worlds[..n])
      invariant errors == Prelude(dirs, registry) + AllErrors(dirs[..n], config, registry, worlds[..n])
    {
      assert dirs[..n + 1][..n] == dirs[..n] && worlds[..n + 1][..n] == worlds[..n];
      var v := Visit(dirs[n], config, registry, worlds[n]);
      gpus := gpus + v.gpus;
      errors := errors + v.errors;
      executed := executed + v.executed;
    }
    assert dirs[..|dirs|] == dirs && worlds[..|dirs|] == worlds;
  }

  /** Without a collector root nothing runs, and the error keeps the Server from marking GPUs as missing. */
  method CollectGpus(config: Option<Config>, registry: seq<RegistryEntry>, dirs: seq<CollectorDir>, worlds: seq<World>)
    returns (gpus: seq<GpuMetrics>, errors: seq<CollectorError>, executed: seq<Execution>)
    requires |worlds| == |dirs|
    ensures executed == if config.Some? then AllExecuted(dirs, config.value, registry, worlds) else []
    ensures gpus == if config.Some? then AllGpus(dirs, config.value, registry, worlds) else []
    ensures errors == if config.Some? then Prelude(dirs, registry) + AllErrors(dirs, config.value, registry, worlds)
                      else [NoCollectorRoot]
  {
    if config.Some? {
      gpus, errors, executed := CollectViaDirs(config.value, registry, dirs, worlds);
      return;
    }
    gpus, errors, executed := [], [NoCollectorRoot], [];
  }

  // ---------------------------------------------------------------- what becomes of one directory

  /** A collector that the gate refuses runs nothing, yields nothing, and gives exactly one error that names it and the
      reason, except one that is not listed, which gives none. */
  lemma RefusedOutcome(dir: CollectorDir, config: Config, registry: seq<RegistryEntry>, world: World)
    ensures dir.id in config.disabled ==>
              ErrorsOf(dir, config, registry, world) == [NotEnabled(dir.id, dir.version, Disabled)]
    ensures dir.id !in config.disabled && config.mode == Explicit && dir.id !in config.enabled ==>
              ErrorsOf(dir, config, registry, world) == []
    ensures var status := CheckEnabled(dir, config, registry);
            status !in {Allowed, NotListed} ==>
              ErrorsOf(dir, config, registry, world) == [NotEnabled(dir.id, dir.version, status)]
    ensures CheckEnabled(dir, config, registry) != Allowed ==>
              ExecutedBy(dir, config, registry, world) == [] && GpusOf(dir, config, registry, world) == []
  {
    RefusalsExactly(dir, config, registry);
    hide CheckEnabled, AdmittedErrors;
  }

  /** Both scripts, as read now, still have the digests of the entry. */
  predicate Unchanged(entry: RegistryEntry, world: World) {
    && world.discover.Some? && entry.discoverSha256 == DigestOf(world.discover.value)
    && world.metrics.Some? && entry.metricsSha256 == DigestOf(world.metrics.value)
  }

  /** The script ended in time, with exit code 0. */
  predicate Ended(output: Output) {
    !output.timedOut && output.exitCode == Some(0)
  }

  /** An admitted collector whose scripts cannot be read, or have changed since the scan, gives one error that names the
      first such script, and runs nothing. */
  lemma ChangedOutcome(dir: CollectorDir, config: Config, registry: seq<RegistryEntry>, world: World, n: nat)
    requires CheckEnabled(dir, config, registry) == Allowed && IsFirstEntry(registry, n, dir.id, dir.version)
    requires !Unchanged(registry[n], world)
    ensures ExecutedBy(dir, config, registry, world) == [] && GpusOf(dir, config, registry, world) == []
    ensures var entry, errors := registry[n], ErrorsOf(dir, config, registry, world);
            && |errors| == 1
            && (errors[0] == Unreadable(dir.id, Discover) <==> world.discover.None?)
            && (errors[0] == Unreadable(dir.id, Metrics) <==> world.discover.Some? && world.metrics.None?)
            && (errors[0] == HashMismatch(dir.id, Discover) <==>
                  world.discover.Some? && world.metrics.Some? && entry.discoverSha256 != DigestOf(world.discover.value))
            && (errors[0] == HashMismatch(dir.id, Metrics) <==>
                  world.discover.Some? && world.metrics.Some? && entry.discoverSha256 == DigestOf(world.discover.value))
  {
    FirstEntryExists(registry, dir.id, dir.version);
    hide FirstEntry, CheckEnabled;
  }

  /** An admitted collector with unchanged scripts runs discover first.  If it does not end well or its report does not
      parse, one error says so; if it says "not_available", its message is the error, if there is one; in these cases
      nothing more runs and nothing is reported. Otherwise metrics runs. If it fails, one error says so; if not, the two
      reports are joined, and the errors name the keys of metrics that discovery does not know. */
  lemma AdmittedOutcome(dir: CollectorDir, config: Config, registry: seq<RegistryEntry>, world: World, n: nat)
    requires CheckEnabled(dir, config, registry) == Allowed && IsFirstEntry(registry, n, dir.id, dir.version)
    requires Unchanged(registry[n], world)
    ensures var first := Execution(dir.id, dir.version, Discover, world.discover.value);
            var second := Execution(dir.id, dir.version, Metrics, world.metrics.value);
            var errors, gpus := ErrorsOf(dir, config, registry, world), GpusOf(dir, config, registry, world);
            var executed := ExecutedBy(dir, config, registry, world);
            var outD, outM := world.discoverOutput, world.metricsOutput;
            var discovery, metrics := DiscoveryOf(outD.stdout), MetricsOf(outM.stdout);
            if !Ended(outD) then
              && executed == [first] && gpus == []
              && errors == [if outD.timedOut then TimedOut(dir.id, Discover)
                            else Exited(dir.id, Discover, outD.exitCode, Trim(outD.stderr))]
            else if discovery.Failure? then
              executed == [first] && gpus == [] && errors == [Unparsable(dir.id, Discover, discovery.error)]
            else if discovery.value.header.status == Some(NotAvailable) then
              && executed == [first] && gpus == []
              && (discovery.value.header.message.None? ==> errors == [])
              && (discovery.value.header.message.Some? ==>
                    errors == [Unavailable(dir.id, discovery.value.header.message.value)])
            else if !Ended(outM) then
              && executed == [first, second] && gpus == []
              && errors == [if outM.timedOut then TimedOut(dir.id, Metrics)
                            else Exited(dir.id, Metrics, outM.exitCode, Trim(outM.stderr))]
            else if metrics.Failure? then
              executed == [first, second] && gpus == [] && errors == [Unparsable(dir.id, Metrics, metrics.error)]
            else
              && executed == [first, second] && gpus == Joined(discovery.value, metrics.value, dir.id)
              && errors == OnlyErrors(SamplesOnly(discovery.value.rows, metrics.value.rows), dir.id)
  {
    FirstEntryExists(registry, dir.id, dir.version);
    hide FirstEntry, DiscoveryOf, MetricsOf, Joined, OnlyErrors, SamplesOnly, Trim;
    var first := Execution(dir.id, dir.version, Discover, world.discover.value);
    var second := Execution(dir.id, dir.version, Metrics, world.metrics.value);
    assert [first] + [] == [first] && [first] + [second] == [first, second];
    assert MayRun(dir, config, registry, world);
  }

  // ---------------------------------------------------------------- fail-closed

  /** Whatever the directories contain, and however they change between the scan and the run: an executed script is,
      byte for byte, the one that the first registry entry for the collector's id and version was made from, that entry
      is enabled, and the Agent's own lists admit the collector. */
  lemma {:induction false} OnlyRegisteredScriptsRun(dirs: seq<CollectorDir>, config: Config,
                                                    registry: seq<RegistryEntry>,
                                                    worlds: seq<World>, e: Execution)
    requires |dirs| == |worlds| && e in AllExecuted(dirs, config, registry, worlds)
    ensures var entry := FirstEntry(registry, e.id, e.version);
            && entry.Some? && entry.value.enabled
            && (match e.stage
                case Discover => entry.value.discoverSha256.script == e.script
                case Metrics => entry.value.metricsSha256.script == e.script)
    ensures e.id !in config.disabled && (config.mode == Explicit ==> e.id in config.enabled)
  {
    var n := |dirs| - 1;
    if e !in ExecutedBy(dirs[n], config, registry, worlds[n]) {
      OnlyRegisteredScriptsRun(dirs[..n], config, registry, worlds[..n], e);
    }
    hide DiscoveryFrom;
  }

  /** No registry, no execution. */
  lemma {:induction false} EmptyRegistryRunsNothing(dirs: seq<CollectorDir>, config: Config, worlds: seq<World>)
    requires |dirs| == |worlds|
    ensures AllExecuted(dirs, config, [], worlds) == [] && AllGpus(dirs, config, [], worlds) == []
  {
    if dirs != [] {
      EmptyRegistryRunsNothing(dirs[..|dirs| - 1], config, worlds[..|dirs| - 1]);
    }
  }

  // ---------------------------------------------------------------- when there are no errors

  lemma QuietExactly(dir: CollectorDir, config: Config, registry: seq<RegistryEntry>, world: World)
    ensures ErrorsOf(dir, config, registry, world) == [] <==> IsQuiet(dir, config, registry, world)
  {
    hide DiscoveryOf, MetricsOf, SamplesOnly, OnlyErrors, FirstEntry;
  }

  /** The error list, whose emptiness lets the Server mark GPUs as missing, is empty exactly when every directory is
      unlisted, or ran both registered scripts to parsable reports without metrics-only keys, or said "not_available"
      without a message; and an empty registry counts as an error as soon as there is a directory. */
  lemma {:induction false} NoErrorsExactly(dirs: seq<CollectorDir>, config: Config, registry: seq<RegistryEntry>,
                                           worlds: seq<World>)
    requires |dirs| == |worlds|
    ensures Prelude(dirs, registry) + AllErrors(dirs, config, registry, worlds) == [] <==>
              AllQuiet(dirs, config, registry, worlds)
  {
    AllErrorsExactly(dirs, config, registry, worlds);
    hide ErrorsOf, IsQuiet, AllErrors;
  }

  lemma {:induction false} AllErrorsExactly(dirs: seq<CollectorDir>, config: Config, registry: seq<RegistryEntry>,
                                            worlds: seq<World>)
    requires |dirs| == |worlds|
    ensures AllErrors(dirs, config, registry, worlds) == [] <==>
              forall i :: 0 <= i < |dirs| ==> IsQuiet(dirs[i], config, registry, worlds[i])
  {
    hide ErrorsOf, IsQuiet;
    if dirs != [] {
      var n := |dirs| - 1;
      AllErrorsExactly(dirs[..n], config, registry, worlds[..n]);
      QuietExactly(dirs[n], config, registry, worlds[n]);
    }
  }
}
