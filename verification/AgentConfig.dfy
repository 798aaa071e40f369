/** Agent configuration: layered policies with one version counter on the Server, and the rule by which an Agent
    applies the configurations it receives. */
module AgentConfig {
  import opened Options

  type NodeId = string

  /** What policies control. */
  datatype Settings = Settings(
    heartbeatIntervalSecs: nat, metricsSampleIntervalSecs: nat, commandTimeoutSecs: nat,
    environmentCheckTimeoutSecs: nat, allowedModelDirs: seq<string>, collectorTimeoutSecs: nat,
    collectorMaxOutputBytes: nat, logPolicy: LogSettings)

  datatype LogSettings = LogSettings(dir: string, level: string, maxFileBytes: nat, retentionFiles: nat,
                                     retentionDays: nat)

  datatype AgentConfigPolicy = AgentConfigPolicy(
    heartbeatIntervalSecs: Option<nat>, metricsSampleIntervalSecs: Option<nat>, commandTimeoutSecs: Option<nat>,
    environmentCheckTimeoutSecs: Option<nat>, allowedModelDirs: Option<seq<string>>, collectorTimeoutSecs: Option<nat>,
    collectorMaxOutputBytes: Option<nat>, logDir: Option<string>, logLevel: Option<string>,
    logMaxFileBytes: Option<nat>, logRetentionFiles: Option<nat>, logRetentionDays: Option<nat>)

  datatype Config = Config(version: int, settings: Settings, taskPollIntervalSecs: nat, configRefreshIntervalSecs: nat,
                           lastConfigUpdatedAt: Option<int>)

  const AGENT_CONFIG_VERSION := 1
  const DEFAULTS := Settings(15, 15, 5, 5, [], 5, 1024 * 1024, LogSettings("logs", "info", 10 * 1024 * 1024, 5, 7))
  const NO_POLICY := AgentConfigPolicy(None, None, None, None, None, None, None, None, None, None, None, None)

  // ---------------------------------------------------------------- policies

  /** The settings a policy names replace those below it. */
  function Layered(s: Settings, p: AgentConfigPolicy): Settings {
    Settings(
      p.heartbeatIntervalSecs.GetOr(s.heartbeatIntervalSecs),
      p.metricsSampleIntervalSecs.GetOr(s.metricsSampleIntervalSecs),
      p.commandTimeoutSecs.GetOr(s.commandTimeoutSecs),
      p.environmentCheckTimeoutSecs.GetOr(s.environmentCheckTimeoutSecs),
      p.allowedModelDirs.GetOr(s.allowedModelDirs), p.collectorTimeoutSecs.GetOr(s.collectorTimeoutSecs),
      p.collectorMaxOutputBytes.GetOr(s.collectorMaxOutputBytes), LayeredLog(s.logPolicy, p))
  }

  function LayeredLog(s: LogSettings, p: AgentConfigPolicy): LogSettings {
    LogSettings(p.logDir.GetOr(s.dir), p.logLevel.GetOr(s.level), p.logMaxFileBytes.GetOr(s.maxFileBytes),
                p.logRetentionFiles.GetOr(s.retentionFiles), p.logRetentionDays.GetOr(s.retentionDays))
  }

  /** The field-by-field application of a policy. */
  method ApplyPolicyLayer(settings: Settings, policy: AgentConfigPolicy) returns (config: Settings)
    ensures config == Layered(settings, policy)
  {
    config := ApplyIntervals(settings, policy);
    if policy.allowedModelDirs.Some? {
      config := config.(allowedModelDirs := policy.allowedModelDirs.value);
    }
    if policy.collectorTimeoutSecs.Some? {
      config := config.(collectorTimeoutSecs := policy.collectorTimeoutSecs.value);
    }
    if policy.collectorMaxOutputBytes.Some? {
      config := config.(collectorMaxOutputBytes := policy.collectorMaxOutputBytes.value);
    }
    var logPolicy := ApplyLogLayer(config.logPolicy, policy);
    config := config.(logPolicy := logPolicy);
  }

  method ApplyIntervals(settings: Settings, policy: AgentConfigPolicy) returns (config: Settings)
    ensures config == Layered(settings, NO_POLICY.(
      heartbeatIntervalSecs := policy.heartbeatIntervalSecs,
      metricsSampleIntervalSecs := policy.metricsSampleIntervalSecs,
      commandTimeoutSecs := policy.commandTimeoutSecs,
      environmentCheckTimeoutSecs := policy.environmentCheckTimeoutSecs))
  {
    config := settings;
    if policy.heartbeatIntervalSecs.Some? {
      config := config.(heartbeatIntervalSecs := policy.heartbeatIntervalSecs.value);
    }
    if policy.metricsSampleIntervalSecs.Some? {
      config := config.(metricsSampleIntervalSecs := policy.metricsSampleIntervalSecs.value);
    }
    if policy.commandTimeoutSecs.Some? {
      config := config.(commandTimeoutSecs := policy.commandTimeoutSecs.value);
    }
    if policy.environmentCheckTimeoutSecs.Some? {
      config := config.(environmentCheckTimeoutSecs := policy.environmentCheckTimeoutSecs.value);
    }
  }

  method ApplyLogLayer(settings: LogSettings, policy: AgentConfigPolicy) returns (config: LogSettings)
    ensures config == LayeredLog(settings, policy)
  {
    config := settings;
    if policy.logDir.Some? {
      config := config.(dir := policy.logDir.value);
    }
    if policy.logLevel.Some? {
      config := config.(level := policy.logLevel.value);
    }
    if policy.logMaxFileBytes.Some? {
      config := config.(maxFileBytes := policy.logMaxFileBytes.value);
    }
    if policy.logRetentionFiles.Some? {
      config := config.(retentionFiles := policy.logRetentionFiles.value);
    }
    if policy.logRetentionDays.Some? {
      config := config.(retentionDays := policy.logRetentionDays.value);
    }
  }

  predicate InRange(value: Option<nat>, low: nat, high: nat) {
    value.Some? ==> low <= value.value <= high
  }

  predicate ValidPolicy(p: AgentConfigPolicy) {
    && InRange(p.heartbeatIntervalSecs, 1, 86_400) && InRange(p.metricsSampleIntervalSecs, 1, 86_400)
    && InRange(p.commandTimeoutSecs, 1, 86_400) && InRange(p.environmentCheckTimeoutSecs, 1, 86_400)
    && InRange(p.collectorTimeoutSecs, 1, 86_400) && InRange(p.collectorMaxOutputBytes, 1, 16 * 1024 * 1024)
    && (p.logLevel.Some? ==> p.logLevel.value in {"error", "warn", "info", "debug", "trace"})
    && InRange(p.logMaxFileBytes, 1, 1024 * 1024 * 1024) && InRange(p.logRetentionFiles, 1, 100) &&
       InRange(p.logRetentionDays, 0, 3650)
  }

  predicate ValidSettings(s: Settings) {
    && 1 <= s.heartbeatIntervalSecs <= 86_400 && 1 <= s.metricsSampleIntervalSecs <= 86_400
    && 1 <= s.commandTimeoutSecs <= 86_400 && 1 <= s.environmentCheckTimeoutSecs <= 86_400
    && 1 <= s.collectorTimeoutSecs <= 86_400 && 1 <= s.collectorMaxOutputBytes <= 16 * 1024 * 1024
    && s.logPolicy.level in {"error", "warn", "info", "debug", "trace"}
    && 1 <= s.logPolicy.maxFileBytes <= 1024 * 1024 * 1024
    && 1 <= s.logPolicy.retentionFiles <= 100 && s.logPolicy.retentionDays <= 3650
  }

  // ---------------------------------------------------------------- the policy table

  datatype Scope = Global | Node(id: NodeId)

  datatype PolicyRow = PolicyRow(policy: AgentConfigPolicy, version: int)

  type Policies = map<Scope, PolicyRow>

  function PolicyOf(rows: Policies, scope: Scope): AgentConfigPolicy {
    if scope in rows then rows[scope].policy else NO_POLICY
  }

  function VersionOf(rows: Policies, scope: Scope, default: int): int {
    if scope in rows then rows[scope].version else default
  }

  function Max(a: int, b: int): int {
    if a >= b then a else b
  }

  function EffectiveVersion(rows: Policies, node: NodeId): int {
    Max(Max(VersionOf(rows, Global, AGENT_CONFIG_VERSION), VersionOf(rows, Node(node), 0)), AGENT_CONFIG_VERSION)
  }

  function EffectiveSettings(rows: Policies, node: NodeId): Settings {
    Layered(Layered(DEFAULTS, PolicyOf(rows, Global)), PolicyOf(rows, Node(node)))
  }

  function Effective(rows: Policies, node: NodeId, now: int): Config {
    Config(EffectiveVersion(rows, node), EffectiveSettings(rows, node), 15, 60, Some(now))
  }

  /** One above the highest version in the table; 2 for an empty table. */
  predicate IsNextVersion(rows: Policies, v: int) {
    && (forall scope :: scope in rows ==> rows[scope].version < v)
    && (if rows == map[] then v == AGENT_CONFIG_VERSION + 1
        else exists scope :: scope in rows && rows[scope].version + 1 == v)
  }

  // ---------------------------------------------------------------- layers, field by field

  /** The node's policy decides if it names a value, else the global one if it does, else the default. */
  ghost predicate Decided<T>(value: T, own: Option<T>, global: Option<T>, default: T) {
    match (own, global)
    case (Some(v), _) => value == v
    case (None, Some(v)) => value == v
    case (None, None) => value == default
  }

  /** Each of the twelve settings is decided by the two policies' values for that setting. */
  ghost predicate DecidedBy(s: Settings, own: AgentConfigPolicy, global: AgentConfigPolicy) {
    && Decided(s.heartbeatIntervalSecs, own.heartbeatIntervalSecs, global.heartbeatIntervalSecs, 15)
    && Decided(s.metricsSampleIntervalSecs, own.metricsSampleIntervalSecs, global.metricsSampleIntervalSecs, 15)
    && Decided(s.commandTimeoutSecs, own.commandTimeoutSecs, global.commandTimeoutSecs, 5)
    && Decided(s.environmentCheckTimeoutSecs, own.environmentCheckTimeoutSecs, global.environmentCheckTimeoutSecs, 5)
    && Decided(s.allowedModelDirs, own.allowedModelDirs, global.allowedModelDirs, [])
    && Decided(s.collectorTimeoutSecs, own.collectorTimeoutSecs, global.collectorTimeoutSecs, 5)
    && Decided(s.collectorMaxOutputBytes, own.collectorMaxOutputBytes, global.collectorMaxOutputBytes, 1_048_576)
    && Decided(s.logPolicy.dir, own.logDir, global.logDir, "logs")
    && Decided(s.logPolicy.level, own.logLevel, global.logLevel, "info")
    && Decided(s.logPolicy.maxFileBytes, own.logMaxFileBytes, global.logMaxFileBytes, 10_485_760)
    && Decided(s.logPolicy.retentionFiles, own.logRetentionFiles, global.logRetentionFiles, 5)
    && Decided(s.logPolicy.retentionDays, own.logRetentionDays, global.logRetentionDays, 7)
  }

  lemma LayersDecide(own: AgentConfigPolicy, global: AgentConfigPolicy)
    ensures DecidedBy(Layered(Layered(DEFAULTS, global), own), own, global)
  {
  }

  /** The policy of the scope; one without a row names nothing. */
  ghost predicate IsPolicyOf(rows: Policies, scope: Scope, p: AgentConfigPolicy) {
    if scope in rows then p == rows[scope].policy
    else p == AgentConfigPolicy(None, None, None, None, None, None, None, None, None, None, None, None)
  }

  /** The version is the higher one of the rows that concern the node, and at least 1; 1 without any. */
  ghost predicate IsVersionFor(rows: Policies, node: NodeId, version: int) {
    && version >= 1
    && (forall scope :: scope in rows && (scope == Global || scope == Node(node)) ==> rows[scope].version <= version)
    && (version == 1 || exists scope ::
          scope in rows && (scope == Global || scope == Node(node)) && rows[scope].version == version)
  }

  /** The effective configuration, field by field. */
  lemma EffectiveOutcome(rows: Policies, node: NodeId, now: int, own: AgentConfigPolicy, global: AgentConfigPolicy)
    requires IsPolicyOf(rows, Node(node), own) && IsPolicyOf(rows, Global, global)
    ensures var config := Effective(rows, node, now);
            && DecidedBy(config.settings, own, global) && IsVersionFor(rows, node, config.version)
            && config.taskPollIntervalSecs == 15 && config.configRefreshIntervalSecs == 60
            && config.lastConfigUpdatedAt == Some(now)
  {
    LayersDecide(own, global);
    hide Layered, DecidedBy;
  }

  /** A policy is accepted exactly when, laid over the defaults, it gives settings within these limits. */
  lemma AcceptedExactly(p: AgentConfigPolicy)
    ensures var s := Layered(DEFAULTS, p);
            ValidPolicy(p) <==>
              && 1 <= s.heartbeatIntervalSecs <= 86400 && 1 <= s.metricsSampleIntervalSecs <= 86400
              && 1 <= s.commandTimeoutSecs <= 86400 && 1 <= s.environmentCheckTimeoutSecs <= 86400
              && 1 <= s.collectorTimeoutSecs <= 86400 && 1 <= s.collectorMaxOutputBytes <= 16_777_216
              && s.logPolicy.level in {"error", "warn", "info", "debug", "trace"}
              && 1 <= s.logPolicy.maxFileBytes <= 1_073_741_824 && 1 <= s.logPolicy.retentionFiles <= 100
              && s.logPolicy.retentionDays <= 3650
  {
  }

  class PolicyTable {
    var rows: Policies

    constructor ()
      ensures rows == map[]
    {
      rows := map[];
    }

    method NextPolicyVersion() returns (version: int)
      ensures IsNextVersion(rows, version)
    {
      var current: Option<int> := None;
      var rest := rows.Keys;
      while rest != {}
        invariant rest <= rows.Keys
        invariant current.None? <==> rest == rows.Keys
        invariant current.Some? ==>
                    && (exists scope :: scope in rows && rows[scope].version == current.value)
                    && (forall scope :: scope in rows.Keys - rest ==> rows[scope].version <= current.value)
        decreases |rest|
      {
        var scope :| scope in rest;
        if current.None? || rows[scope].version > current.value {
          current := Some(rows[scope].version);
        }
        rest := rest - {scope};
      }
      version := current.GetOr(AGENT_CONFIG_VERSION) + 1;
    }

    method SaveAgentConfigPolicy(scope: Scope, policy: AgentConfigPolicy) returns (saved: bool)
      modifies this
      ensures saved <==> ValidPolicy(policy)
      ensures if saved then exists v :: IsNextVersion(old(rows), v) && rows == old(rows)[scope := PolicyRow(policy, v)]
              else rows == old(rows)
    {
      if !ValidPolicy(policy) {
        return false;
      }
      var version := NextPolicyVersion();
      rows := rows[scope := PolicyRow(policy, version)];
      saved := true;
    }

    method EffectiveAgentConfig(node: NodeId, now: int) returns (config: Config)
      ensures config == Effective(rows, node, now)
      ensures forall own, global :: IsPolicyOf(rows, Node(node), own) && IsPolicyOf(rows, Global, global) ==>
                DecidedBy(config.settings, own, global)
      ensures IsVersionFor(rows, node, config.version)
      ensures config.taskPollIntervalSecs == 15 && config.configRefreshIntervalSecs == 60
    {
      EffectiveOutcome(rows, node, now, PolicyOf(rows, Node(node)), PolicyOf(rows, Global));
      hide DecidedBy, Layered;
      var settings := ApplyPolicyLayer(DEFAULTS, PolicyOf(rows, Global));
      settings := ApplyPolicyLayer(settings, PolicyOf(rows, Node(node)));
      var version := Max(Max(VersionOf(rows, Global, AGENT_CONFIG_VERSION), VersionOf(rows, Node(node), 0)),
                         AGENT_CONFIG_VERSION);
      config := Config(version, settings, 15, 60, Some(now));
    }
  }

  // ---------------------------------------------------------------- the Agent

  datatype Runtime = Runtime(version: int, settings: Settings, lastConfigUpdatedAt: Option<int>)

  const DEFAULT_RUNTIME := Runtime(0, DEFAULTS, None)

  /** A configuration is taken unless it is older than the one in use. */
  function Applied(runtime: Runtime, config: Config): Runtime {
    if config.version >= runtime.version then Runtime(config.version, config.settings, config.lastConfigUpdatedAt)
    else runtime
  }

  function ToAgentConfig(runtime: Runtime): Config {
    Config(runtime.version, runtime.settings, 15, 60, runtime.lastConfigUpdatedAt)
  }

  class RuntimeConfig {
    var configVersion: int
    var settings: Settings
    var lastConfigUpdatedAt: Option<int>

    function State(): Runtime
      reads this
    {
      Runtime(configVersion, settings, lastConfigUpdatedAt)
    }

    constructor ()
      ensures State() == DEFAULT_RUNTIME
    {
      configVersion, settings, lastConfigUpdatedAt := 0, DEFAULTS, None;
    }

    method ApplyServerConfig(config: Option<Config>)
      modifies this
      ensures State() == if config.Some? then Applied(old(State()), config.value) else old(State())
      ensures config.Some? && config.value.version >= old(configVersion) ==>
                && configVersion == config.value.version && settings == config.value.settings
                && lastConfigUpdatedAt == config.value.lastConfigUpdatedAt
      ensures config.None? || config.value.version < old(configVersion) ==> State() == old(State())
    {
      if config.None? {
        return;
      }
      if config.value.version >= configVersion {
        configVersion := config.value.version;
        settings := config.value.settings;
        lastConfigUpdatedAt := config.value.lastConfigUpdatedAt;
      }
    }
  }
}
