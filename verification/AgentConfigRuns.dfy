/** Distribution of the configuration of one node: saves in two statements, replies put together from four, responses
    that arrive late, twice, or in any order. */
module AgentConfigRuns {
  import opened Options
  import opened AgentConfig

  type SaveId = nat
  type ReplyId = nat

  /** A version of the node's configuration, and the content it was made with. */
  datatype Made = Made(version: int, settings: Settings)

  /** A reply under way: the policies and the global version as far as read, what it saw of the table when it began,
      the versions made since, and whether a save fell between a read of its scope's policy and that of its version. */
  datatype Reading = Reading(
    global: AgentConfigPolicy, own: Option<AgentConfigPolicy>, globalVersion: Option<int>,
    start: Policies, log: seq<Made>, disturbed: bool)

  /** `contents` is the history of the node: each version it ever had with its first content. `maxima` are the versions
      that saves under way have read; `responses` everything ever sent to the Agent. */
  datatype System = System(
    rows: Policies, contents: map<int, Settings>, maxima: map<SaveId, int>, replies: map<ReplyId, Reading>,
    responses: set<Config>, agent: Runtime, reported: Option<Config>)

  const START := System(map[], map[AGENT_CONFIG_VERSION := DEFAULTS], map[], map[], {}, DEFAULT_RUNTIME, None)

  datatype Event =
    | ReadMaximum(save: SaveId, version: int)
    | WriteSave(save: SaveId, scope: Scope, policy: AgentConfigPolicy)
    | ReadGlobalPolicy(reply: ReplyId)
    | ReadOwnPolicy(reply: ReplyId)
    | ReadGlobalVersion(reply: ReplyId)
    | ReadOwnVersion(reply: ReplyId, now: int)
    | Deliver(config: Config)
    | Report
    | Restart

  predicate Concerns(scope: Scope, node: NodeId) {
    scope == Global || scope == Node(node)
  }

  predicate Allowed(s: System, e: Event) {
    match e
    case ReadMaximum(save, version) => save !in s.maxima && IsNextVersion(s.rows, version)
    case WriteSave(save, _, policy) => save in s.maxima && ValidPolicy(policy)
    case ReadGlobalPolicy(reply) => reply !in s.replies
    case ReadOwnPolicy(reply) => reply in s.replies && s.replies[reply].own.None?
    case ReadGlobalVersion(reply) =>
      reply in s.replies && s.replies[reply].own.Some? && s.replies[reply].globalVersion.None?
    case ReadOwnVersion(reply, _) => reply in s.replies && IsComplete(s.replies[reply])
    case Deliver(config) => config in s.responses
    case _ => true
  }

  predicate IsComplete(r: Reading) {
    r.own.Some? && r.globalVersion.Some?
  }

  /** A save of the node's configuration commits while the reply is under way. */
  function Logged(r: Reading, scope: Scope, made: Made): Reading {
    r.(log := r.log + [made],
       disturbed := r.disturbed || (if scope == Global then r.globalVersion.None? else r.own.Some?))
  }

  function VersionRead(s: System, r: Reading, node: NodeId): int
    requires IsComplete(r)
  {
    Max(Max(r.globalVersion.value, VersionOf(s.rows, Node(node), 0)), AGENT_CONFIG_VERSION)
  }

  function SettingsRead(r: Reading): Settings
    requires r.own.Some?
  {
    Layered(Layered(DEFAULTS, r.global), r.own.value)
  }

  function WithSave(s: System, scope: Scope, policy: AgentConfigPolicy, version: int, node: NodeId): System {
    var rows := s.rows[scope := PolicyRow(policy, version)];
    if !Concerns(scope, node) then s.(rows := rows)
    else
      var made := Made(EffectiveVersion(rows, node), EffectiveSettings(rows, node));
      s.(rows := rows,
         contents := if made.version in s.contents then s.contents else s.contents[made.version := made.settings],
         replies := map r | r in s.replies :: Logged(s.replies[r], scope, made))
  }

  function Next(s: System, e: Event, node: NodeId): System
    requires Allowed(s, e)
  {
    match e
    case ReadMaximum(save, version) => s.(maxima := s.maxima[save := version])
    case WriteSave(save, scope, policy) =>
      WithSave(s, scope, policy, s.maxima[save], node).(maxima := s.maxima - {save})
    case ReadGlobalPolicy(reply) =>
      s.(replies := s.replies[reply := Reading(PolicyOf(s.rows, Global), None, None, s.rows, [], false)])
    case ReadOwnPolicy(reply) =>
      s.(replies := s.replies[reply := s.replies[reply].(own := Some(PolicyOf(s.rows, Node(node))))])
    case ReadGlobalVersion(reply) =>
      var version := VersionOf(s.rows, Global, AGENT_CONFIG_VERSION);
      s.(replies := s.replies[reply := s.replies[reply].(globalVersion := Some(version))])
    case ReadOwnVersion(reply, now) =>
      var r := s.replies[reply];
      s.(replies := s.replies - {reply},
         responses := s.responses + {Config(VersionRead(s, r, node), SettingsRead(r), 15, 60, Some(now))})
    case Deliver(config) => s.(agent := Applied(s.agent, config))
    case Report => s.(reported := Some(ToAgentConfig(s.agent)))
    case Restart => s.(agent := DEFAULT_RUNTIME)
  }

  predicate Legal(s: System, es: seq<Event>, node: NodeId)
    decreases es
  {
    es == [] || (Allowed(s, es[0]) && Legal(Next(s, es[0], node), es[1..], node))
  }

  function Run(s: System, es: seq<Event>, node: NodeId): System
    requires Legal(s, es, node)
    decreases es
  {
    if es == [] then s else Run(Next(s, es[0], node), es[1..], node)
  }

  lemma {:induction false} RunAppend(s: System, a: seq<Event>, b: seq<Event>, node: NodeId)
    requires Legal(s, a, node) && Legal(Run(s, a, node), b, node)
    ensures Legal(s, a + b, node) && Run(s, a + b, node) == Run(Run(s, a, node), b, node)
    decreases a
  {
    if a == [] {
      assert a + b == b;
    } else {
      RunAppend(Next(s, a[0], node), a[1..], b, node);
      assert (a + b)[0] == a[0] && (a + b)[1..] == a[1..] + b;
    }
    hide Allowed, Next;
  }

  // ---------------------------------------------------------------- order of versions

  /** The version in force stands for the content in force, and no version of the node was ever higher. */
  ghost predicate Orderly(s: System, node: NodeId) {
    var v := EffectiveVersion(s.rows, node);
    && v in s.contents && s.contents[v] == EffectiveSettings(s.rows, node)
    && forall u :: u in s.contents ==> u <= v
  }

  /** The write leaves order exactly when its scope does not concern the node, or its version is above the one in
      force, or neither the version in force nor the content changes. A save that has read its maximum too early fails
      this exactly when it concerns the node and either brings new content under the version in force or makes that
      version fall. */
  lemma WriteKeepsOrderExactly(s: System, scope: Scope, policy: AgentConfigPolicy, version: int, node: NodeId)
    requires Orderly(s, node)
    ensures var s' := WithSave(s, scope, policy, version, node);
            Orderly(s', node) <==>
              || !Concerns(scope, node)
              || version > EffectiveVersion(s.rows, node)
              || (EffectiveVersion(s'.rows, node) == EffectiveVersion(s.rows, node)
                  && EffectiveSettings(s'.rows, node) == EffectiveSettings(s.rows, node))
  {
    var s' := WithSave(s, scope, policy, version, node);
    assert s'.rows == s.rows[scope := PolicyRow(policy, version)];
    if Concerns(scope, node) {
      ConcernedVersion(s.rows, scope, policy, version, node);
      assert EffectiveVersion(s'.rows, node) in s'.contents;
    } else {
      UnconcernedSame(s.rows, scope, policy, version, node);
    }
    hide EffectiveVersion, EffectiveSettings, Concerns;
    var v, v' := EffectiveVersion(s.rows, node), EffectiveVersion(s'.rows, node);
    if !Concerns(scope, node) {
      assert Orderly(s', node);
    } else if version > v {
      assert s'.contents == s.contents[v' := EffectiveSettings(s'.rows, node)];
    } else if v' < v {
      assert v in s'.contents;
    } else {
      assert v' == v && s'.contents == s.contents;
    }
  }

  lemma ConcernedVersion(rows: Policies, scope: Scope, policy: AgentConfigPolicy, version: int, node: NodeId)
    requires Concerns(scope, node)
    ensures var v := EffectiveVersion(rows, node);
            var v' := EffectiveVersion(rows[scope := PolicyRow(policy, version)], node);
            && (version > v ==> v' == version)
            && (version <= v ==> v' <= v)
  {
  }

  lemma UnconcernedSame(rows: Policies, scope: Scope, policy: AgentConfigPolicy, version: int, node: NodeId)
    requires !Concerns(scope, node)
    ensures var rows' := rows[scope := PolicyRow(policy, version)];
            && EffectiveVersion(rows', node) == EffectiveVersion(rows, node)
            && EffectiveSettings(rows', node) == EffectiveSettings(rows, node)
  {
    hide Layered;
  }

  /** Whether the version in force still stands for the content in force after a write, versions that fall included:
      the version must be new to the node, or have stood for the same content. */
  lemma WriteKeepsMeaningExactly(s: System, scope: Scope, policy: AgentConfigPolicy, version: int, node: NodeId)
    requires Orderly(s, node) && Concerns(scope, node)
    ensures var s' := WithSave(s, scope, policy, version, node);
            var v' := EffectiveVersion(s'.rows, node);
            (v' in s'.contents && s'.contents[v'] == EffectiveSettings(s'.rows, node)) <==>
              || version > EffectiveVersion(s.rows, node)
              || v' !in s.contents
              || s.contents[v'] == EffectiveSettings(s'.rows, node)
  {
    ConcernedVersion(s.rows, scope, policy, version, node);
    hide EffectiveVersion, EffectiveSettings;
  }

  // ---------------------------------------------------------------- replies

  /** A save that concerns the node brings a version above the one in force. */
  predicate InOrder(s: System, e: Event, node: NodeId) {
    e.WriteSave? && e.save in s.maxima && Concerns(e.scope, node) ==> s.maxima[e.save] > EffectiveVersion(s.rows, node)
  }

  /** The reply combines a version with a content that the version does not stand for. */
  predicate IsTorn(s: System, r: Reading, node: NodeId)
    requires IsComplete(r)
  {
    VersionRead(s, r, node) in s.contents && s.contents[VersionRead(s, r, node)] != SettingsRead(r)
  }

  /** Every version in the table is one the node had. */
  ghost predicate VersionsKnown(s: System, node: NodeId) {
    && AGENT_CONFIG_VERSION in s.contents
    && (forall scope :: scope in s.rows && Concerns(scope, node) ==> s.rows[scope].version in s.contents)
    && (forall v :: v in s.contents ==> v >= AGENT_CONFIG_VERSION)
  }

  /** The scope is as it was when the reply began, or has a version made since. */
  ghost predicate SameOrNew(r: Reading, rows: Policies, scope: Scope, node: NodeId) {
    || ((scope in rows <==> scope in r.start) && (scope in rows ==> rows[scope] == r.start[scope]))
    || (scope in rows && rows[scope].version > EffectiveVersion(r.start, node))
  }

  ghost predicate BeganOk(s: System, r: Reading, node: NodeId) {
    var v := EffectiveVersion(r.start, node);
    && v in s.contents && s.contents[v] == EffectiveSettings(r.start, node) && r.global == PolicyOf(r.start, Global)
    && SameOrNew(r, s.rows, Global, node) && SameOrNew(r, s.rows, Node(node), node)
    && (r.globalVersion.Some? ==> r.own.Some?)
  }

  ghost predicate IsLogged(r: Reading, version: int) {
    exists m :: m in r.log && m.version == version
  }

  ghost predicate LogOk(s: System, r: Reading, node: NodeId) {
    && (forall m :: m in r.log ==>
          m.version > EffectiveVersion(r.start, node) && m.version in s.contents && s.contents[m.version] == m.settings)
    && (forall v :: v in s.contents && v > EffectiveVersion(r.start, node) ==> IsLogged(r, v))
  }

  /** What was read is what was there at the beginning, or newer. */
  ghost predicate ReadsOk(s: System, r: Reading, node: NodeId) {
    && (r.own.Some? ==>
          || r.own.value == PolicyOf(r.start, Node(node))
          || (Node(node) in s.rows && s.rows[Node(node)].version > EffectiveVersion(r.start, node)))
    && (r.globalVersion.Some? ==>
          && r.globalVersion.value in s.contents
          && (r.globalVersion.value == VersionOf(r.start, Global, AGENT_CONFIG_VERSION)
              || r.globalVersion.value > EffectiveVersion(r.start, node)))
  }

  /** As long as no save fell between a policy and its version, what was read so far belongs together. */
  ghost predicate CalmOk(s: System, r: Reading, node: NodeId) {
    !r.disturbed ==>
      && (r.globalVersion.None? ==> PolicyOf(s.rows, Global) == r.global)
      && (r.own.Some? ==> PolicyOf(s.rows, Node(node)) == r.own.value)
      && (IsComplete(r) ==>
            VersionRead(s, r, node) in s.contents && s.contents[VersionRead(s, r, node)] == SettingsRead(r))
  }

  /** What the first save since the beginning does to a reply. */
  ghost predicate FirstSaveOk(s: System, r: Reading, node: NodeId) {
    && (r.log == [] ==>
          && !r.disturbed && VersionOf(s.rows, Node(node), 0) == VersionOf(r.start, Node(node), 0)
          && PolicyOf(s.rows, Node(node)) == PolicyOf(r.start, Node(node))
          && (r.own.Some? ==> r.own.value == PolicyOf(r.start, Node(node))))
    && (|r.log| == 1 && r.disturbed ==>
          && r.own.GetOr(PolicyOf(s.rows, Node(node))) == PolicyOf(r.start, Node(node))
          && r.log[0].version == Max(Max(r.globalVersion.GetOr(VersionOf(s.rows, Global, AGENT_CONFIG_VERSION)),
                                         VersionOf(s.rows, Node(node), 0)), AGENT_CONFIG_VERSION))
  }

  ghost predicate ReplyOk(s: System, r: Reading, node: NodeId) {
    BeganOk(s, r, node) && LogOk(s, r, node) && ReadsOk(s, r, node) && CalmOk(s, r, node) && FirstSaveOk(s, r, node)
  }

  ghost predicate TableOk(s: System, node: NodeId) {
    Orderly(s, node) && VersionsKnown(s, node)
  }

  ghost predicate RepliesOk(s: System, node: NodeId) {
    TableOk(s, node) && forall id :: id in s.replies ==> ReplyOk(s, s.replies[id], node)
  }

  /** `TornExactly`, in one state. */
  lemma TornNow(s: System, id: ReplyId, node: NodeId)
    requires RepliesOk(s, node) && id in s.replies && IsComplete(s.replies[id])
    ensures var r := s.replies[id];
            && VersionRead(s, r, node) in s.contents
            && (IsTorn(s, r, node) <==>
                  exists m :: m in r.log && m.version == VersionRead(s, r, node) && m.settings != SettingsRead(r))
  {
    var r := s.replies[id];
    assert ReplyOk(s, r, node);
    VersionReadKnown(s, r, node);
    hide EffectiveVersion, VersionRead, CalmOk, FirstSaveOk, Layered, SameOrNew;
    if VersionRead(s, r, node) > EffectiveVersion(r.start, node) {
      assert IsLogged(r, VersionRead(s, r, node));
    }
  }

  lemma VersionReadKnown(s: System, r: Reading, node: NodeId)
    requires TableOk(s, node) && BeganOk(s, r, node) && ReadsOk(s, r, node) && IsComplete(r)
    ensures VersionRead(s, r, node) in s.contents
    ensures VersionRead(s, r, node) >= EffectiveVersion(r.start, node)
    ensures VersionRead(s, r, node) == EffectiveVersion(r.start, node) ==>
              SettingsRead(r) == EffectiveSettings(r.start, node)
  {
    hide Layered, Orderly;
  }

  /** `OneSaveTearsExactly`, in one state. */
  lemma OneSaveTearsNow(s: System, id: ReplyId, node: NodeId)
    requires RepliesOk(s, node) && id in s.replies && IsComplete(s.replies[id]) && |s.replies[id].log| == 1
    ensures var r := s.replies[id];
            IsTorn(s, r, node) <==> r.disturbed && r.log[0].settings != EffectiveSettings(r.start, node)
  {
    var r := s.replies[id];
    assert ReplyOk(s, r, node) && r.log[0] in r.log;
    VersionReadKnown(s, r, node);
    hide EffectiveVersion, Layered, SameOrNew, IsLogged;
  }

  /** `CalmReplyIsWhole`, in one state. */
  lemma CalmIsWholeNow(s: System, id: ReplyId, node: NodeId)
    requires RepliesOk(s, node) && id in s.replies && IsComplete(s.replies[id]) && !s.replies[id].disturbed
    ensures !IsTorn(s, s.replies[id], node)
  {
    assert ReplyOk(s, s.replies[id], node);
    hide VersionRead, SettingsRead, BeganOk, LogOk, ReadsOk, FirstSaveOk;
  }

  // ---------------------------------------------------------------- what every step keeps

  lemma SaveKeepsTable(s: System, scope: Scope, policy: AgentConfigPolicy, version: int, node: NodeId)
    requires TableOk(s, node) && (Concerns(scope, node) ==> version > EffectiveVersion(s.rows, node))
    ensures TableOk(WithSave(s, scope, policy, version, node), node)
    ensures Concerns(scope, node) ==>
              var s' := WithSave(s, scope, policy, version, node);
              version !in s.contents && s'.contents == s.contents[version := EffectiveSettings(s'.rows, node)]
  {
    WriteKeepsOrderExactly(s, scope, policy, version, node);
    if Concerns(scope, node) {
      ConcernedVersion(s.rows, scope, policy, version, node);
    }
    VersionAtLeastOne(s.rows, node);
    hide EffectiveVersion, EffectiveSettings;
  }

  lemma VersionAtLeastOne(rows: Policies, node: NodeId)
    ensures EffectiveVersion(rows, node) >= 1
  {
  }

  /** The table as a reply sees it after a save that concerns the node. */
  lemma SaveKeepsReply(s: System, r: Reading, scope: Scope, policy: AgentConfigPolicy, version: int, node: NodeId)
    requires TableOk(s, node) && ReplyOk(s, r, node)
    requires Concerns(scope, node) && version > EffectiveVersion(s.rows, node)
    ensures var s' := WithSave(s, scope, policy, version, node);
            ReplyOk(s', Logged(r, scope, Made(version, EffectiveSettings(s'.rows, node))), node)
  {
    var s' := WithSave(s, scope, policy, version, node);
    var made := Made(version, EffectiveSettings(s'.rows, node));
    var r' := Logged(r, scope, made);
    SaveKeepsTable(s, scope, policy, version, node);
    NotOlderThanStart(s, r, node);
    SaveKeepsBegan(s, r, scope, policy, version, node);
    SaveKeepsLog(s, s', r, made, node);
    SaveKeepsCalm(s, r, scope, policy, version, node);
    SaveKeepsFirst(s, r, scope, policy, version, node);
    hide BeganOk, LogOk, ReadsOk, CalmOk, FirstSaveOk;
  }

  lemma NotOlderThanStart(s: System, r: Reading, node: NodeId)
    requires TableOk(s, node) && BeganOk(s, r, node)
    ensures EffectiveVersion(r.start, node) <= EffectiveVersion(s.rows, node)
  {
    hide EffectiveVersion, EffectiveSettings;
  }

  lemma SaveKeepsBegan(s: System, r: Reading, scope: Scope, policy: AgentConfigPolicy, version: int, node: NodeId)
    requires TableOk(s, node) && BeganOk(s, r, node) && ReadsOk(s, r, node)
    requires Concerns(scope, node) && version > EffectiveVersion(s.rows, node)
    ensures var s' := WithSave(s, scope, policy, version, node);
            var r' := Logged(r, scope, Made(version, EffectiveSettings(s'.rows, node)));
            BeganOk(s', r', node) && ReadsOk(s', r', node)
  {
    SaveKeepsTable(s, scope, policy, version, node);
    NotOlderThanStart(s, r, node);
    hide EffectiveVersion, EffectiveSettings, Orderly;
  }

  lemma SaveKeepsLog(s: System, s': System, r: Reading, made: Made, node: NodeId)
    requires LogOk(s, r, node) && made.version > EffectiveVersion(r.start, node) && made.version !in s.contents
    requires s'.contents == s.contents[made.version := made.settings]
    ensures forall d: bool :: LogOk(s', r.(log := r.log + [made], disturbed := d), node)
  {
    hide EffectiveVersion;
    forall d: bool ensures LogOk(s', r.(log := r.log + [made], disturbed := d), node) {
      var r' := r.(log := r.log + [made], disturbed := d);
      assert made in r'.log;
      forall v | v in s'.contents && v > EffectiveVersion(r.start, node) ensures IsLogged(r', v) {
        if v != made.version {
          var m :| m in r.log && m.version == v;
          assert m in r'.log;
        }
      }
    }
  }

  lemma SaveKeepsCalm(s: System, r: Reading, scope: Scope, policy: AgentConfigPolicy, version: int, node: NodeId)
    requires TableOk(s, node) && CalmOk(s, r, node)
    requires Concerns(scope, node) && version > EffectiveVersion(s.rows, node)
    ensures var s' := WithSave(s, scope, policy, version, node);
            CalmOk(s', Logged(r, scope, Made(version, EffectiveSettings(s'.rows, node))), node)
  {
    SaveKeepsTable(s, scope, policy, version, node);
    hide EffectiveVersion, EffectiveSettings, Layered, Orderly, VersionsKnown;
  }

  lemma SaveKeepsFirst(s: System, r: Reading, scope: Scope, policy: AgentConfigPolicy, version: int, node: NodeId)
    requires TableOk(s, node) && FirstSaveOk(s, r, node) && ReadsOk(s, r, node) && BeganOk(s, r, node)
    requires Concerns(scope, node) && version > EffectiveVersion(s.rows, node)
    ensures var s' := WithSave(s, scope, policy, version, node);
            FirstSaveOk(s', Logged(r, scope, Made(version, EffectiveSettings(s'.rows, node))), node)
  {
    hide EffectiveSettings, Layered, LogOk, CalmOk, VersionsKnown;
    NotOlderThanStart(s, r, node);
  }

  /** Only the rows of the two scopes and the history matter to a reply. */
  ghost predicate SameForNode(s: System, s': System, node: NodeId) {
    && s'.contents == s.contents
    && forall scope :: Concerns(scope, node) ==>
         (scope in s'.rows <==> scope in s.rows) && (scope in s.rows ==> s'.rows[scope] == s.rows[scope])
  }

  lemma SameKeepsTable(s: System, s': System, node: NodeId)
    requires TableOk(s, node) && SameForNode(s, s', node)
    ensures TableOk(s', node)
  {
    assert Concerns(Global, node) && Concerns(Node(node), node);
    hide Layered;
  }

  lemma SameKeepsReply(s: System, s': System, r: Reading, node: NodeId)
    requires ReplyOk(s, r, node) && SameForNode(s, s', node)
    ensures ReplyOk(s', r, node)
  {
    assert Concerns(Global, node) && Concerns(Node(node), node);
    hide EffectiveVersion, EffectiveSettings, Layered, IsLogged;
  }

  lemma BeginIsOk(s: System, node: NodeId)
    requires TableOk(s, node)
    ensures ReplyOk(s, Reading(PolicyOf(s.rows, Global), None, None, s.rows, [], false), node)
  {
    hide EffectiveVersion, EffectiveSettings, Layered;
  }

  lemma OwnPolicyIsOk(s: System, r: Reading, node: NodeId)
    requires TableOk(s, node) && ReplyOk(s, r, node) && r.own.None?
    ensures ReplyOk(s, r.(own := Some(PolicyOf(s.rows, Node(node)))), node)
  {
    hide EffectiveVersion, EffectiveSettings, Layered, Orderly;
  }

  lemma GlobalVersionIsOk(s: System, r: Reading, node: NodeId)
    requires TableOk(s, node) && ReplyOk(s, r, node) && r.own.Some? && r.globalVersion.None?
    ensures ReplyOk(s, r.(globalVersion := Some(VersionOf(s.rows, Global, AGENT_CONFIG_VERSION))), node)
  {
    var r' := r.(globalVersion := Some(VersionOf(s.rows, Global, AGENT_CONFIG_VERSION)));
    assert VersionRead(s, r', node) == EffectiveVersion(s.rows, node);
    assert !r.disturbed ==> SettingsRead(r') == EffectiveSettings(s.rows, node);
    hide EffectiveVersion, EffectiveSettings, Layered, VersionRead, SettingsRead;
  }

  lemma StepKeepsTable(s: System, e: Event, node: NodeId)
    requires TableOk(s, node) && Allowed(s, e) && InOrder(s, e, node)
    ensures TableOk(Next(s, e, node), node)
  {
    if e.WriteSave? && Concerns(e.scope, node) {
      SaveKeepsTable(s, e.scope, e.policy, s.maxima[e.save], node);
      SameKeepsTable(WithSave(s, e.scope, e.policy, s.maxima[e.save], node), Next(s, e, node), node);
    } else {
      SameKeepsTable(s, Next(s, e, node), node);
    }
  }

  lemma StepKeepsReplies(s: System, e: Event, node: NodeId)
    requires RepliesOk(s, node) && Allowed(s, e) && InOrder(s, e, node)
    ensures RepliesOk(Next(s, e, node), node)
  {
    StepKeepsTable(s, e, node);
    hide ReplyOk, TableOk, Next, Allowed, InOrder;
    var s' := Next(s, e, node);
    forall id | id in s'.replies ensures ReplyOk(s', s'.replies[id], node) {
      if e.WriteSave? && Concerns(e.scope, node) {
        WriteKeepsReply(s, e, id, node);
      } else {
        ReadKeepsReply(s, e, id, node);
      }
    }
  }

  lemma WriteKeepsReply(s: System, e: Event, id: ReplyId, node: NodeId)
    requires RepliesOk(s, node) && Allowed(s, e) && InOrder(s, e, node) && id in Next(s, e, node).replies
    requires e.WriteSave? && Concerns(e.scope, node)
    ensures ReplyOk(Next(s, e, node), Next(s, e, node).replies[id], node)
  {
    hide ReplyOk, TableOk, EffectiveVersion, EffectiveSettings, Logged;
    var version, s' := s.maxima[e.save], Next(s, e, node);
    assert ReplyOk(s, s.replies[id], node);
    SaveKeepsReply(s, s.replies[id], e.scope, e.policy, version, node);
    ConcernedVersion(s.rows, e.scope, e.policy, version, node);
    SameKeepsReply(WithSave(s, e.scope, e.policy, version, node), s', s'.replies[id], node);
  }

  lemma ReadKeepsReply(s: System, e: Event, id: ReplyId, node: NodeId)
    requires RepliesOk(s, node) && Allowed(s, e) && id in Next(s, e, node).replies
    requires e.WriteSave? ==> !Concerns(e.scope, node)
    ensures ReplyOk(Next(s, e, node), Next(s, e, node).replies[id], node)
  {
    hide ReplyOk, TableOk, EffectiveVersion, EffectiveSettings;
    var s' := Next(s, e, node);
    if id in s.replies {
      assert ReplyOk(s, s.replies[id], node);
    }
    match e {
      case ReadGlobalPolicy(reply) => BeginIsOk(s, node);
      case ReadOwnPolicy(reply) => OwnPolicyIsOk(s, s.replies[reply], node);
      case ReadGlobalVersion(reply) => GlobalVersionIsOk(s, s.replies[reply], node);
      case _ =>
    }
    SameKeepsReply(s, s', s'.replies[id], node);
  }

  // ---------------------------------------------------------------- runs in order

  /** Every save that concerns the node brings a version above the one in force: saves do not overlap. */
  predicate AllInOrder(s: System, es: seq<Event>, node: NodeId)
    requires Legal(s, es, node)
    decreases es
  {
    es == [] || (InOrder(s, es[0], node) && AllInOrder(Next(s, es[0], node), es[1..], node))
  }

  /** No reply of the run is torn when it is sent. */
  predicate AllWhole(s: System, es: seq<Event>, node: NodeId)
    requires Legal(s, es, node)
    decreases es
  {
    es == [] ||
      ((es[0].ReadOwnVersion? ==> !IsTorn(s, s.replies[es[0].reply], node))
       && AllWhole(Next(s, es[0], node), es[1..], node))
  }

  lemma StartOk(node: NodeId)
    ensures RepliesOk(START, node)
  {
  }

  lemma {:induction false} RunKeepsReplies(s: System, es: seq<Event>, node: NodeId)
    requires RepliesOk(s, node) && Legal(s, es, node) && AllInOrder(s, es, node)
    ensures RepliesOk(Run(s, es, node), node)
    decreases es
  {
    if es != [] {
      StepKeepsReplies(s, es[0], node);
      RunKeepsReplies(Next(s, es[0], node), es[1..], node);
    }
  }

  // ---------------------------------------------------------------- what the Agent gets

  /** The version never existed and the content is the default, or the content is that of the version. */
  ghost predicate Means(s: System, version: int, settings: Settings) {
    (version == 0 && settings == DEFAULTS) || (version in s.contents && s.contents[version] == settings)
  }

  ghost predicate Inv(s: System, node: NodeId) {
    && RepliesOk(s, node)
    && (forall c :: c in s.responses ==> Means(s, c.version, c.settings) && c.version >= 1)
    && Means(s, s.agent.version, s.agent.settings)
    && (s.reported.Some? ==>
          && Means(s, s.reported.value.version, s.reported.value.settings)
          && s.reported.value.taskPollIntervalSecs == 15 && s.reported.value.configRefreshIntervalSecs == 60)
  }

  lemma ContentsGrow(s: System, e: Event, node: NodeId)
    requires Allowed(s, e)
    ensures forall v, c :: Means(s, v, c) ==> Means(Next(s, e, node), v, c)
  {
    hide EffectiveVersion, EffectiveSettings;
  }

  lemma InvKept(s: System, e: Event, node: NodeId)
    requires Inv(s, node) && Allowed(s, e) && InOrder(s, e, node)
    requires e.ReadOwnVersion? ==> !IsTorn(s, s.replies[e.reply], node)
    ensures Inv(Next(s, e, node), node)
  {
    hide RepliesOk, EffectiveVersion, EffectiveSettings, SettingsRead, InOrder, VersionRead, TableOk;
    StepKeepsReplies(s, e, node);
    ContentsGrow(s, e, node);
    if e.ReadOwnVersion? {
      ReplyMeans(s, e.reply, node);
    }
  }

  lemma ReplyMeans(s: System, id: ReplyId, node: NodeId)
    requires RepliesOk(s, node) && id in s.replies && IsComplete(s.replies[id]) && !IsTorn(s, s.replies[id], node)
    ensures Means(s, VersionRead(s, s.replies[id], node), SettingsRead(s.replies[id]))
    ensures VersionRead(s, s.replies[id], node) >= 1
  {
    hide RepliesOk, SettingsRead;
    TornNow(s, id, node);
  }

  lemma {:induction false} RunKeepsInv(s: System, es: seq<Event>, node: NodeId)
    requires Inv(s, node) && Legal(s, es, node) && AllInOrder(s, es, node) && AllWhole(s, es, node)
    ensures Inv(Run(s, es, node), node)
    decreases es
  {
    if es != [] {
      InvKept(s, es[0], node);
      RunKeepsInv(Next(s, es[0], node), es[1..], node);
    }
  }

  lemma StartInv(node: NodeId)
    ensures Inv(START, node)
  {
    StartOk(node);
  }

  /** In every run whose saves do not overlap and whose replies are whole, for every order, loss and repetition of
      responses: equal versions mean equal content, in any two responses and in whatever the Agent uses. */
  lemma EqualVersionEqualContent(es: seq<Event>, node: NodeId)
    requires Legal(START, es, node) && AllInOrder(START, es, node) && AllWhole(START, es, node)
    ensures var s := Run(START, es, node);
            && (forall c, d :: c in s.responses && d in s.responses && c.version == d.version ==>
                  c.settings == d.settings)
            && (forall c :: c in s.responses && c.version == s.agent.version ==> c.settings == s.agent.settings)
            && s.agent.version <= EffectiveVersion(s.rows, node)
            && (s.agent.version == EffectiveVersion(s.rows, node) ==>
                  s.agent.settings == EffectiveSettings(s.rows, node))
  {
    StartInv(node);
    RunKeepsInv(START, es, node);
    VersionAtLeastOne(Run(START, es, node).rows, node);
    hide Run, Legal, EffectiveVersion, EffectiveSettings, ReplyOk;
  }

  /** The Server shows "synced" when the reported version is the one it reads as effective. Then every reported field,
      apart from the time of the update, is the one that version stands for. */
  lemma SyncedMeansEqual(es: seq<Event>, node: NodeId, now: int)
    requires Legal(START, es, node) && AllInOrder(START, es, node) && AllWhole(START, es, node)
    ensures var s := Run(START, es, node);
            s.reported.Some? ==>
              && (forall v :: v in s.contents && v == s.reported.value.version ==>
                    s.reported.value.settings == s.contents[v])
              && (s.reported.value.version == EffectiveVersion(s.rows, node) ==>
                    s.reported.value.(lastConfigUpdatedAt := Some(now)) == Effective(s.rows, node, now))
  {
    StartInv(node);
    RunKeepsInv(START, es, node);
    VersionAtLeastOne(Run(START, es, node).rows, node);
    hide Run, Legal, EffectiveVersion, EffectiveSettings, ReplyOk;
  }

  /** A reply made without anything in between. */
  function Reply(id: ReplyId, now: int): seq<Event> {
    [ReadGlobalPolicy(id), ReadOwnPolicy(id)] + [ReadGlobalVersion(id), ReadOwnVersion(id, now)]
  }

  lemma RunTwo(s: System, a: Event, b: Event, node: NodeId)
    requires Allowed(s, a) && Allowed(Next(s, a, node), b)
    ensures Legal(s, [a, b], node) && Run(s, [a, b], node) == Next(Next(s, a, node), b, node)
  {
    hide Allowed, Next;
    assert [a, b][1..] == [b] && [b][1..] == [];
    var s1 := Next(s, a, node);
    var s2 := Next(s1, b, node);
    assert Legal(s2, [], node) && Run(s2, [], node) == s2;
    assert Legal(s1, [b], node) && Run(s1, [b], node) == s2;
  }

  lemma PoliciesRead(s: System, id: ReplyId, node: NodeId) returns (s': System)
    requires id !in s.replies
    ensures Legal(s, [ReadGlobalPolicy(id), ReadOwnPolicy(id)], node)
    ensures s' == Run(s, [ReadGlobalPolicy(id), ReadOwnPolicy(id)], node)
    ensures s' == s.(replies := s.replies[id := Reading(PolicyOf(s.rows, Global), Some(PolicyOf(s.rows, Node(node))),
                                                        None, s.rows, [], false)])
  {
    RunTwo(s, ReadGlobalPolicy(id), ReadOwnPolicy(id), node);
    s' := Next(Next(s, ReadGlobalPolicy(id), node), ReadOwnPolicy(id), node);
    hide Run, Legal;
  }

  lemma VersionsRead(s: System, id: ReplyId, now: int, node: NodeId) returns (s': System)
    requires id in s.replies && s.replies[id].own.Some? && s.replies[id].globalVersion.None?
    ensures Legal(s, [ReadGlobalVersion(id), ReadOwnVersion(id, now)], node)
    ensures s' == Run(s, [ReadGlobalVersion(id), ReadOwnVersion(id, now)], node)
    ensures s' == s.(replies := s.replies - {id}, responses := s.responses
                     + {Config(EffectiveVersion(s.rows, node), SettingsRead(s.replies[id]), 15, 60, Some(now))})
  {
    RunTwo(s, ReadGlobalVersion(id), ReadOwnVersion(id, now), node);
    s' := Next(Next(s, ReadGlobalVersion(id), node), ReadOwnVersion(id, now), node);
    assert (s.replies[id := s.replies[id].(globalVersion := Some(VersionOf(s.rows, Global, AGENT_CONFIG_VERSION)))])
           - {id} == s.replies - {id};
    hide Run, Legal, Layered;
  }

  lemma ReplyRuns(s: System, id: ReplyId, now: int, node: NodeId)
    requires id !in s.replies
    ensures Legal(s, Reply(id, now), node)
    ensures Run(s, Reply(id, now), node) == s.(responses := s.responses + {Effective(s.rows, node, now)})
  {
    var s1 := PoliciesRead(s, id, node);
    var s2 := VersionsRead(s1, id, now, node);
    RunAppend(s, [ReadGlobalPolicy(id), ReadOwnPolicy(id)], [ReadGlobalVersion(id), ReadOwnVersion(id, now)], node);
    assert s1.replies - {id} == s.replies;
    hide Run, Legal, Layered;
  }

  lemma RunOne(s: System, e: Event, node: NodeId)
    requires Allowed(s, e)
    ensures Legal(s, [e], node) && Run(s, [e], node) == Next(s, e, node)
  {
    hide Allowed, Next;
    var s' := Next(s, e, node);
    assert [e][1..] == [] && Legal(s', [], node) && Run(s', [], node) == s';
  }

  /** One reply made with no save in between, and delivered, brings the Agent up to date. */
  lemma FreshResponseSyncs(es: seq<Event>, id: ReplyId, node: NodeId, now: int)
    requires Legal(START, es, node) && AllInOrder(START, es, node) && AllWhole(START, es, node)
    requires id !in Run(START, es, node).replies
    ensures Legal(Run(START, es, node),
                  Reply(id, now) + [Deliver(Effective(Run(START, es, node).rows, node, now))], node)
    ensures var s := Run(START, es, node);
            var synced := Run(s, Reply(id, now) + [Deliver(Effective(s.rows, node, now))], node);
            && synced.agent.version == EffectiveVersion(s.rows, node)
            && synced.agent.settings == EffectiveSettings(s.rows, node)
  {
    var s := Run(START, es, node);
    var config := Effective(s.rows, node, now);
    EqualVersionEqualContent(es, node);
    ReplyRuns(s, id, now, node);
    var asked := Run(s, Reply(id, now), node);
    RunOne(asked, Deliver(config), node);
    RunAppend(s, Reply(id, now), [Deliver(config)], node);
    hide Run, Legal, Reply, EffectiveVersion, EffectiveSettings, AllInOrder, AllWhole;
  }

  /** No save concerns the node, and the Agent is not restarted. */
  predicate Quiet(es: seq<Event>, node: NodeId) {
    forall i :: 0 <= i < |es| ==> (es[i].WriteSave? ==> !Concerns(es[i].scope, node)) && !es[i].Restart?
  }

  lemma QuietStep(s: System, e: Event, node: NodeId)
    requires Inv(s, node) && Allowed(s, e) && s.agent.version == EffectiveVersion(s.rows, node)
    requires (e.WriteSave? ==> !Concerns(e.scope, node)) && !e.Restart?
    ensures var next := Next(s, e, node);
            && next.agent.version == s.agent.version && next.agent.settings == s.agent.settings
            && next.agent.version == EffectiveVersion(next.rows, node)
  {
    if e.WriteSave? {
      UnconcernedSame(s.rows, e.scope, e.policy, s.maxima[e.save], node);
    }
    VersionAtLeastOne(s.rows, node);
    hide ReplyOk, EffectiveVersion, EffectiveSettings;
  }

  lemma {:induction false} UpToDateStays(s: System, es: seq<Event>, node: NodeId)
    requires Inv(s, node) && Legal(s, es, node) && AllWhole(s, es, node) && Quiet(es, node)
    requires s.agent.version == EffectiveVersion(s.rows, node)
    ensures var s' := Run(s, es, node);
            && s'.agent.version == s.agent.version && s'.agent.settings == s.agent.settings
            && s'.agent.version == EffectiveVersion(s'.rows, node)
    decreases es
  {
    if es != [] {
      QuietStep(s, es[0], node);
      InvKept(s, es[0], node);
      assert Quiet(es[1..], node);
      UpToDateStays(Next(s, es[0], node), es[1..], node);
    }
    hide Inv, EffectiveVersion, EffectiveSettings, Next, Allowed, IsTorn;
  }

  /** Once the Agent uses the current configuration, nothing that is still on the way or still under way, however old or
      often repeated, changes what it uses, as long as it is not torn. */
  lemma StaleResponsesAreHarmless(before: seq<Event>, after: seq<Event>, node: NodeId)
    requires Legal(START, before, node) && AllInOrder(START, before, node) && AllWhole(START, before, node)
    requires var s := Run(START, before, node);
             && Legal(s, after, node) && AllWhole(s, after, node) && Quiet(after, node)
             && s.agent.version == EffectiveVersion(s.rows, node)
    ensures var s := Run(START, before, node);
            Run(s, after, node).agent.settings == EffectiveSettings(s.rows, node)
  {
    StartInv(node);
    RunKeepsInv(START, before, node);
    UpToDateStays(Run(START, before, node), after, node);
    EqualVersionEqualContent(before, node);
    hide Run, Legal, Inv, EffectiveVersion, EffectiveSettings, AllInOrder, AllWhole;
  }

  // ---------------------------------------------------------------- what a reply says

  /** The settings of every reply, whenever it is sent: each is decided by the value of the node's policy, of the global
      policy, and the default, as the reply has read them. */
  lemma ReplySettings(s: System, id: ReplyId, now: int, node: NodeId)
    requires Allowed(s, ReadOwnVersion(id, now))
    ensures exists c :: c in Next(s, ReadOwnVersion(id, now), node).responses
                        && DecidedBy(c.settings, s.replies[id].own.value, s.replies[id].global)
                        && c.version == VersionRead(s, s.replies[id], node) && c.lastConfigUpdatedAt == Some(now)
  {
    var r := s.replies[id];
    LayersDecide(r.own.value, r.global);
    var c := Config(VersionRead(s, r, node), SettingsRead(r), 15, 60, Some(now));
    assert c in Next(s, ReadOwnVersion(id, now), node).responses;
    hide Layered, DecidedBy;
  }

  // ---------------------------------------------------------------- torn replies

  /** In every run whose saves are in order, however many fall into a reply: once its last read is due, the reply is
      torn exactly when the version it carries was made while it was under way, and made with another content than the
      one read. */
  lemma TornExactly(es: seq<Event>, id: ReplyId, node: NodeId)
    requires Legal(START, es, node) && AllInOrder(START, es, node)
    requires id in Run(START, es, node).replies && IsComplete(Run(START, es, node).replies[id])
    ensures var s := Run(START, es, node);
            var r := s.replies[id];
            && VersionRead(s, r, node) in s.contents
            && (IsTorn(s, r, node) <==>
                  exists m :: m in r.log && m.version == VersionRead(s, r, node) && m.settings != SettingsRead(r))
  {
    hide *;
    StartOk(node);
    RunKeepsReplies(START, es, node);
    TornNow(Run(START, es, node), id, node);
  }

  /** With one save in the meantime, it is torn exactly when that save fell between the read of its scope's policy and
      the read of its version, and changed the content. */
  lemma OneSaveTearsExactly(es: seq<Event>, id: ReplyId, node: NodeId)
    requires Legal(START, es, node) && AllInOrder(START, es, node)
    requires id in Run(START, es, node).replies && IsComplete(Run(START, es, node).replies[id])
    requires |Run(START, es, node).replies[id].log| == 1
    ensures var s := Run(START, es, node);
            var r := s.replies[id];
            IsTorn(s, r, node) <==> r.disturbed && r.log[0].settings != EffectiveSettings(r.start, node)
  {
    hide *;
    StartOk(node);
    RunKeepsReplies(START, es, node);
    OneSaveTearsNow(Run(START, es, node), id, node);
  }

  /** However many saves there were: none of them between a policy and its version, no tear. */
  lemma CalmReplyIsWhole(es: seq<Event>, id: ReplyId, node: NodeId)
    requires Legal(START, es, node) && AllInOrder(START, es, node)
    requires id in Run(START, es, node).replies && IsComplete(Run(START, es, node).replies[id])
    requires !Run(START, es, node).replies[id].disturbed
    ensures !IsTorn(Run(START, es, node), Run(START, es, node).replies[id], node)
  {
    hide *;
    StartOk(node);
    RunKeepsReplies(START, es, node);
    CalmIsWholeNow(Run(START, es, node), id, node);
  }

  // ---------------------------------------------------------------- runs without overlap

  /** No write falls between the read of the maximum of a save and its own write; `readers` have read it since the last
      write. */
  predicate SavesApart(es: seq<Event>, readers: set<SaveId>)
    decreases es
  {
    es == [] ||
    match es[0]
    case ReadMaximum(save, _) => SavesApart(es[1..], readers + {save})
    case WriteSave(save, _, _) => save in readers && SavesApart(es[1..], {})
    case _ => SavesApart(es[1..], readers)
  }

  /** No write that concerns the node falls between the read of its scope's policy and that of its version in any reply
      that is sent. */
  predicate AllCalm(s: System, es: seq<Event>, node: NodeId)
    requires Legal(s, es, node)
    decreases es
  {
    es == [] ||
      ((es[0].ReadOwnVersion? ==> !s.replies[es[0].reply].disturbed) && AllCalm(Next(s, es[0], node), es[1..], node))
  }

  predicate AboveAll(rows: Policies, version: int) {
    version > AGENT_CONFIG_VERSION && forall scope :: scope in rows ==> rows[scope].version < version
  }

  predicate Raised(rows: Policies) {
    forall scope :: scope in rows ==> rows[scope].version > AGENT_CONFIG_VERSION
  }

  lemma NextIsAbove(rows: Policies, version: int)
    requires IsNextVersion(rows, version) && Raised(rows)
    ensures AboveAll(rows, version)
  {
  }

  lemma AboveIsInOrder(rows: Policies, version: int, node: NodeId)
    requires AboveAll(rows, version)
    ensures version > EffectiveVersion(rows, node)
  {
  }

  /** What the next event leaves of the saves that have read the highest version. */
  lemma ApartStep(s: System, e: Event, readers: set<SaveId>, node: NodeId)
    requires Allowed(s, e) && Raised(s.rows) && (e.WriteSave? ==> e.save in readers)
    requires forall save :: save in readers ==> save in s.maxima && AboveAll(s.rows, s.maxima[save])
    ensures InOrder(s, e, node) && Raised(Next(s, e, node).rows)
    ensures var left := if e.ReadMaximum? then readers + {e.save} else if e.WriteSave? then {} else readers;
            var s' := Next(s, e, node);
            forall save :: save in left ==> save in s'.maxima && AboveAll(s'.rows, s'.maxima[save])
  {
    hide EffectiveVersion, EffectiveSettings, SettingsRead, VersionRead;
    if e.ReadMaximum? {
      NextIsAbove(s.rows, e.version);
    } else if e.WriteSave? {
      AboveIsInOrder(s.rows, s.maxima[e.save], node);
    }
  }

  lemma {:induction false} ApartIsInOrder(s: System, es: seq<Event>, readers: set<SaveId>, node: NodeId)
    requires Legal(s, es, node) && SavesApart(es, readers) && Raised(s.rows)
    requires forall save :: save in readers ==> save in s.maxima && AboveAll(s.rows, s.maxima[save])
    ensures AllInOrder(s, es, node)
    decreases es
  {
    hide Allowed, Next, InOrder, Raised, AboveAll;
    if es != [] {
      var e := es[0];
      ApartStep(s, e, readers, node);
      var left := if e.ReadMaximum? then readers + {e.save} else if e.WriteSave? then {} else readers;
      ApartIsInOrder(Next(s, e, node), es[1..], left, node);
    }
  }

  lemma {:induction false} CalmIsWhole(s: System, es: seq<Event>, node: NodeId)
    requires RepliesOk(s, node) && Legal(s, es, node) && AllInOrder(s, es, node) && AllCalm(s, es, node)
    ensures AllWhole(s, es, node)
    decreases es
  {
    hide RepliesOk, Next, InOrder, IsTorn;
    if es != [] {
      if es[0].ReadOwnVersion? {
        CalmIsWholeNow(s, es[0].reply, node);
      }
      StepKeepsReplies(s, es[0], node);
      CalmIsWhole(Next(s, es[0], node), es[1..], node);
    }
  }

  /** Runs whose saves do not overlap and whose replies no save disturbs meet the conditions of the theorems above. */
  lemma WithoutOverlap(es: seq<Event>, node: NodeId)
    requires Legal(START, es, node) && SavesApart(es, {}) && AllCalm(START, es, node)
    ensures AllInOrder(START, es, node) && AllWhole(START, es, node)
  {
    StartOk(node);
    ApartIsInOrder(START, es, {}, node);
    CalmIsWhole(START, es, node);
  }

  // ---------------------------------------------------------------- settings stay within their limits

  ghost predicate AllValid(s: System) {
    && (forall scope :: scope in s.rows ==> ValidPolicy(s.rows[scope].policy))
    && (forall id :: id in s.replies ==> ReadingValid(s.replies[id]))
    && (forall c :: c in s.responses ==> ValidSettings(c.settings))
    && ValidSettings(s.agent.settings)
  }

  ghost predicate ReadingValid(r: Reading) {
    ValidPolicy(r.global) && (r.own.Some? ==> ValidPolicy(r.own.value))
  }

  lemma LayeredIsValid(s: Settings, p: AgentConfigPolicy)
    requires ValidSettings(s) && ValidPolicy(p)
    ensures ValidSettings(Layered(s, p))
  {
  }

  lemma DefaultsAreValid()
    ensures ValidSettings(DEFAULTS) && ValidPolicy(NO_POLICY)
  {
  }

  lemma StepKeepsValid(s: System, e: Event, node: NodeId)
    requires AllValid(s) && Allowed(s, e)
    ensures AllValid(Next(s, e, node))
  {
    hide ValidSettings, ValidPolicy, Layered, EffectiveVersion, EffectiveSettings, VersionRead, SettingsRead;
    DefaultsAreValid();
    if e.ReadOwnVersion? {
      ReplyIsValid(s.replies[e.reply]);
    }
  }

  lemma ReplyIsValid(r: Reading)
    requires ReadingValid(r) && r.own.Some?
    ensures ValidSettings(SettingsRead(r))
  {
    DefaultsAreValid();
    LayeredIsValid(DEFAULTS, r.global);
    LayeredIsValid(Layered(DEFAULTS, r.global), r.own.value);
    hide ValidSettings, ValidPolicy, Layered;
  }

  lemma {:induction false} RunKeepsValid(s: System, es: seq<Event>, node: NodeId)
    requires AllValid(s) && Legal(s, es, node)
    ensures AllValid(Run(s, es, node))
    decreases es
  {
    if es != [] {
      StepKeepsValid(s, es[0], node);
      RunKeepsValid(Next(s, es[0], node), es[1..], node);
    }
  }

  /** Policies that pass validation one by one never combine into settings outside their limits, torn replies and
      overlapping saves included. */
  lemma EffectiveSettingsAreValid(es: seq<Event>, node: NodeId)
    requires Legal(START, es, node)
    ensures var s := Run(START, es, node);
            && ValidSettings(EffectiveSettings(s.rows, node)) && ValidSettings(s.agent.settings)
            && (forall c :: c in s.responses ==> ValidSettings(c.settings))
  {
    DefaultsAreValid();
    RunKeepsValid(START, es, node);
    var s := Run(START, es, node);
    hide Run, Legal, EffectiveVersion, ValidSettings, ValidPolicy, Layered;
    LayeredIsValid(DEFAULTS, PolicyOf(s.rows, Global));
    LayeredIsValid(Layered(DEFAULTS, PolicyOf(s.rows, Global)), PolicyOf(s.rows, Node(node)));
  }

  // ---------------------------------------------------------------- where the statements show

  /** A save made without anything in between. */
  lemma SaveRuns(s: System, save: SaveId, scope: Scope, policy: AgentConfigPolicy, version: int, node: NodeId)
    requires save !in s.maxima && ValidPolicy(policy) && IsNextVersion(s.rows, version)
    ensures Legal(s, [ReadMaximum(save, version), WriteSave(save, scope, policy)], node)
    ensures Run(s, [ReadMaximum(save, version), WriteSave(save, scope, policy)], node) ==
            WithSave(s, scope, policy, version, node)
  {
    RunTwo(s, ReadMaximum(save, version), WriteSave(save, scope, policy), node);
    assert s.maxima[save := version] - {save} == s.maxima;
    hide Run, Legal, EffectiveVersion, EffectiveSettings;
  }

  /** The policies are read, a save for all nodes with other content is made, then the versions are read. */
  function TornReply(id: ReplyId, save: SaveId, policy: AgentConfigPolicy, version: int, now: int): seq<Event> {
    ([ReadGlobalPolicy(id), ReadOwnPolicy(id)] + [ReadMaximum(save, version), WriteSave(save, Global, policy)])
    + [ReadGlobalVersion(id), ReadOwnVersion(id, now)]
  }

  /** From every orderly state, one properly made save in the middle of a reply makes the response carry the new version
      with the old content. The save alone is in order; a reply made afterwards has the same version and the new
      content; and an Agent that already uses the new content goes back to the old one. */
  lemma SaveDuringReplyTears(s: System, id: ReplyId, save: SaveId, policy: AgentConfigPolicy, version: int, now: int,
                             node: NodeId)
    requires id !in s.replies && save !in s.maxima && ValidPolicy(policy) && IsNextVersion(s.rows, version)
    requires version > EffectiveVersion(s.rows, node)
    ensures Legal(s, TornReply(id, save, policy, version, now), node)
    ensures var s' := Run(s, TornReply(id, save, policy, version, now), node);
            var torn := Config(version, EffectiveSettings(s.rows, node), 15, 60, Some(now));
            && torn in s'.responses && EffectiveVersion(s'.rows, node) == version
            && Effective(s'.rows, node, now).version == torn.version
            && Effective(s'.rows, node, now).settings ==
               EffectiveSettings(s.rows[Global := PolicyRow(policy, version)], node)
            && Applied(Runtime(version, EffectiveSettings(s'.rows, node), None), torn).settings ==
               EffectiveSettings(s.rows, node)
  {
    var s1 := PoliciesRead(s, id, node);
    SaveRuns(s1, save, Global, policy, version, node);
    var s2 := WithSave(s1, Global, policy, version, node);
    RunAppend(s, [ReadGlobalPolicy(id), ReadOwnPolicy(id)],
              [ReadMaximum(save, version), WriteSave(save, Global, policy)], node);
    assert SettingsRead(s2.replies[id]) == EffectiveSettings(s.rows, node);
    var s3 := VersionsRead(s2, id, now, node);
    RunAppend(s,
              [ReadGlobalPolicy(id), ReadOwnPolicy(id)] + [ReadMaximum(save, version), WriteSave(save, Global, policy)],
              [ReadGlobalVersion(id), ReadOwnVersion(id, now)], node);
    ConcernedVersion(s.rows, Global, policy, version, node);
    hide Run, Legal, EffectiveVersion, EffectiveSettings, SettingsRead;
  }

  /** Two saves that overlap: both read the same highest version, then both write it; a reply is sent after each. */
  function Overlap(a: AgentConfigPolicy, b: AgentConfigPolicy, node: NodeId, now: int): seq<Event> {
    (([ReadMaximum(0, 2), ReadMaximum(1, 2)] + [WriteSave(0, Global, a)]) + Reply(0, now))
    + ([WriteSave(1, Node(node), b)] + Reply(1, now))
  }

  lemma OverlapFirstHalf(a: AgentConfigPolicy, now: int, node: NodeId) returns (s: System)
    requires ValidPolicy(a)
    ensures var es := ([ReadMaximum(0, 2), ReadMaximum(1, 2)] + [WriteSave(0, Global, a)]) + Reply(0, now);
            Legal(START, es, node) && Run(START, es, node) == s
    ensures s.rows == map[Global := PolicyRow(a, 2)] && s.maxima == map[1 := 2] && s.replies == map[]
    ensures s.responses == {Effective(s.rows, node, now)}
  {
    RunTwo(START, ReadMaximum(0, 2), ReadMaximum(1, 2), node);
    var s1 := Run(START, [ReadMaximum(0, 2), ReadMaximum(1, 2)], node);
    RunOne(s1, WriteSave(0, Global, a), node);
    RunAppend(START, [ReadMaximum(0, 2), ReadMaximum(1, 2)], [WriteSave(0, Global, a)], node);
    var s2 := Next(s1, WriteSave(0, Global, a), node);
    ReplyRuns(s2, 0, now, node);
    RunAppend(START, [ReadMaximum(0, 2), ReadMaximum(1, 2)] + [WriteSave(0, Global, a)], Reply(0, now), node);
    s := Run(s2, Reply(0, now), node);
    hide Run, Legal, Reply, EffectiveVersion, EffectiveSettings;
  }

  /** In that run two responses carry one version, with different content whenever the second save changes it. */
  lemma OverlappingSavesShareAVersion(a: AgentConfigPolicy, b: AgentConfigPolicy, node: NodeId, now: int)
    requires ValidPolicy(a) && ValidPolicy(b)
    ensures Legal(START, Overlap(a, b, node, now), node)
    ensures var s := Run(START, Overlap(a, b, node, now), node);
            exists c, d :: c in s.responses && d in s.responses && c.version == d.version == 2
                           && c.settings == Layered(DEFAULTS, a) && d.settings == Layered(Layered(DEFAULTS, a), b)
  {
    var s := OverlapFirstHalf(a, now, node);
    var e := WriteSave(1, Node(node), b);
    RunOne(s, e, node);
    var s1 := Next(s, e, node);
    ReplyRuns(s1, 1, now, node);
    RunAppend(s, [e], Reply(1, now), node);
    RunAppend(START, ([ReadMaximum(0, 2), ReadMaximum(1, 2)] + [WriteSave(0, Global, a)]) + Reply(0, now),
              [e] + Reply(1, now), node);
    var c, d := Effective(s.rows, node, now), Effective(s1.rows, node, now);
    assert s1.rows == map[Global := PolicyRow(a, 2), Node(node) := PolicyRow(b, 2)];
    NoPolicyAddsNothing(Layered(DEFAULTS, a));
    assert c.settings == Layered(DEFAULTS, a) && d.settings == Layered(Layered(DEFAULTS, a), b);
    assert c.version == d.version == 2;
    hide Run, Legal, Reply, EffectiveVersion, EffectiveSettings, Layered;
  }

  lemma NoPolicyAddsNothing(s: Settings)
    ensures Layered(s, NO_POLICY) == s
  {
  }
}
