/** Every interleaving of any number of registrations, each split into the check and the write of an attempt. */
module RegistrationRuns {
  import opened Options
  import opened Registration

  type Caller = nat

  /** `seen` is the number of commits that the check has seen. */
  datatype Phase =
    | Checking(attempt: nat)
    | Writing(attempt: nat, id: NodeId, seen: nat)
    | Finished(outcome: Outcome)

  datatype Attempt = Attempt(request: Request, token: Token, phase: Phase)

  /** `commits` counts the commits to the database, `ids` are all node ids generated so far, and `log` the successful
      registrations in order.  With `snapshots` a transaction whose check has been overtaken by a commit cannot
      write. */
  datatype System = System(snapshots: bool, commits: nat, nodes: Nodes, callers: map<Caller, Attempt>, ids: set<NodeId>,
                           log: seq<(NodeId, Token)>)

  function Start(snapshots: bool): System {
    System(snapshots, 0, map[], map[], {}, [])
  }

  datatype Event =
    | Arrive(caller: Caller, request: Request, token: Token)
    | Check(caller: Caller, newId: NodeId, id: NodeId)
    | Write(caller: Caller, now: int)
    | CommitElsewhere

  /** Generated tokens and node ids are new; `id` is what the query of the pair returns, or else the generated id. */
  predicate Allowed(s: System, e: Event) {
    match e
    case Arrive(caller, _, token) =>
      caller !in s.callers && forall c :: c in s.callers ==> s.callers[c].token != token
    case Check(caller, newId, id) =>
      && caller in s.callers && s.callers[caller].phase.Checking? && newId !in s.ids
      && (IsRefused(s.nodes, s.callers[caller].request) || Identifies(s.nodes, s.callers[caller].request, newId, id))
    case Write(caller, _) => caller in s.callers && s.callers[caller].phase.Writing?
    case CommitElsewhere => true
  }

  function WithPhase(s: System, caller: Caller, phase: Phase): System
    requires caller in s.callers
  {
    s.(callers := s.callers[caller := s.callers[caller].(phase := phase)])
  }

  /** What becomes of a write. */
  function WriteOutcome(s: System, a: Attempt): Outcome
    requires a.phase.Writing?
  {
    if s.snapshots && a.phase.seen != s.commits then Busy
    else if Violates(s.nodes, a.phase.id, a.request) then UniqueFailure
    else Registered(a.phase.id)
  }

  /** A unique violation in the first attempt leads to the second. */
  function AfterWrite(a: Attempt, outcome: Outcome): Phase
    requires a.phase.Writing?
  {
    if outcome.UniqueFailure? && a.phase.attempt == 0 then Checking(1) else Finished(outcome)
  }

  function Next(s: System, e: Event): System
    requires Allowed(s, e)
  {
    match e
    case Arrive(caller, request, token) =>
      s.(callers := s.callers[caller := Attempt(request, token, Checking(0))])
    case Check(caller, newId, id) =>
      var a := s.callers[caller];
      var phase := if IsRefused(s.nodes, a.request) then Finished(Refused)
                   else Writing(a.phase.attempt, id, s.commits);
      WithPhase(s, caller, phase).(ids := s.ids + {newId})
    case Write(caller, now) =>
      var a := s.callers[caller];
      var outcome := WriteOutcome(s, a);
      var s' := WithPhase(s, caller, AfterWrite(a, outcome));
      if outcome.Registered? then
        s'.(nodes := s.nodes[outcome.id := RowFor(s.nodes, outcome.id, a.request, a.token, now)],
            log := s.log + [(outcome.id, a.token)], commits := s.commits + 1)
      else s'
    case CommitElsewhere => s.(commits := s.commits + 1)
  }

  predicate Legal(s: System, es: seq<Event>)
    decreases es
  {
    es == [] || (Allowed(s, es[0]) && Legal(Next(s, es[0]), es[1..]))
  }

  function Run(s: System, es: seq<Event>): System
    requires Legal(s, es)
    decreases es
  {
    if es == [] then s else Run(Next(s, es[0]), es[1..])
  }

  // ---------------------------------------------------------------- what every step keeps

  /** What the table owes to a registration in progress: with snapshots a check that has not been overtaken leads to a
      write that breaks no unique index, and without them the second write breaks none. */
  ghost predicate OnCourse(s: System, a: Attempt) {
    match a.phase
    case Checking(attempt) => attempt == 0 || (!s.snapshots && attempt == 1 && Occupied(s.nodes, a.request))
    case Writing(attempt, id, seen) =>
      && id in s.ids && seen <= s.commits && attempt <= (if s.snapshots then 0 else 1)
      && (s.snapshots && seen == s.commits ==> !Violates(s.nodes, id, a.request))
      && (if id in s.nodes then HasPair(s.nodes[id], a.request) else attempt == 0)
    case Finished(outcome) =>
      match outcome
      case Registered(id) => id in s.nodes && HasPair(s.nodes[id], a.request)
      case Refused => IsRefused(s.nodes, a.request)
      case Busy => s.snapshots
      case _ => false
  }

  ghost predicate WritingAs(s: System, c: Caller, id: NodeId) {
    c in s.callers && s.callers[c].phase.Writing? && s.callers[c].phase.id == id
  }

  ghost predicate RegisteredAs(s: System, c: Caller, id: NodeId) {
    c in s.callers && s.callers[c].phase == Finished(Registered(id))
  }

  ghost predicate Inv(s: System) {
    && OneToOne(s.nodes) && s.nodes.Keys <= s.ids
    && (forall c :: c in s.callers ==> OnCourse(s, s.callers[c]))
    && NewIdsUnshared(s)
  }

  /** An id that is not in the table yet is about to be written by one caller at most. */
  ghost predicate NewIdsUnshared(s: System) {
    forall c, d, id :: WritingAs(s, c, id) && WritingAs(s, d, id) && c != d ==> id in s.nodes
  }

  /** The table only grows, and only with a commit. */
  ghost predicate Grows(s: System, s': System) {
    && s'.snapshots == s.snapshots && s.ids <= s'.ids && s.commits <= s'.commits && Persists(s.nodes, s'.nodes)
    && (s'.commits == s.commits ==> s'.nodes == s.nodes)
  }

  lemma OnCourseStays(s: System, s': System, a: Attempt)
    requires OnCourse(s, a) && Grows(s, s')
    requires a.phase.Writing? && a.phase.id !in s.nodes ==> a.phase.id !in s'.nodes
    ensures OnCourse(s', a)
  {
  }

  lemma RowAlone(nodes: Nodes, id: NodeId, r: Request, token: Token, now: int)
    requires OneToOne(nodes) && !Violates(nodes, id, r) && (id in nodes ==> HasPair(nodes[id], r))
    ensures var later := nodes[id := RowFor(nodes, id, r, token, now)];
            OneToOne(later) && Persists(nodes, later) && HasPair(later[id], r)
  {
  }

  /** The outcome of a write, and the table after it. */
  lemma WriteAlone(s: System, caller: Caller, now: int)
    requires OneToOne(s.nodes) && Allowed(s, Write(caller, now)) && OnCourse(s, s.callers[caller])
    ensures var s' := Next(s, Write(caller, now));
            && OneToOne(s'.nodes) && Grows(s, s') && OnCourse(s', s'.callers[caller])
            && (forall id :: id in s'.nodes ==> id in s.nodes || id == s.callers[caller].phase.id)
  {
    hide OneToOne, Violates, Persists, RowFor, Occupied;
    var a := s.callers[caller];
    var s' := Next(s, Write(caller, now));
    PersistsSame(s.nodes);
    match WriteOutcome(s, a)
    case Registered(id) => RowAlone(s.nodes, id, a.request, a.token, now);
    case UniqueFailure => ViolatesMeans(s.nodes, a.phase.id, a.request);
    case Busy =>
  }

  lemma ViolatesMeans(nodes: Nodes, id: NodeId, r: Request)
    requires OneToOne(nodes) && Violates(nodes, id, r)
    ensures Occupied(nodes, r) && (id in nodes ==> !HasPair(nodes[id], r))
  {
  }

  lemma WriteStep(s: System, caller: Caller, now: int)
    requires Inv(s) && Allowed(s, Write(caller, now))
    ensures Inv(Next(s, Write(caller, now))) && Persists(s.nodes, Next(s, Write(caller, now)).nodes)
  {
    hide OneToOne, OnCourse, Persists, WriteOutcome, Violates;
    var a := s.callers[caller];
    var s' := Next(s, Write(caller, now));
    assert OnCourse(s, a);
    WriteAlone(s, caller, now);
    assert WritingAs(s, caller, a.phase.id);
    forall c | c in s'.callers && c != caller ensures OnCourse(s', s'.callers[c]) {
      if s.callers[c].phase.Writing? {
        assert WritingAs(s, c, s.callers[c].phase.id);
      }
      OnCourseStays(s, s', s.callers[c]);
    }
    assert a.phase.id in s.ids by {
      WritingIdKnown(s, a);
    }
    forall c, d, id | WritingAs(s', c, id) && WritingAs(s', d, id) && c != d ensures id in s'.nodes {
      assert WritingAs(s, c, id) && WritingAs(s, d, id);
      KeysPersist(s.nodes, s'.nodes);
    }
  }

  lemma WritingIdKnown(s: System, a: Attempt)
    requires OnCourse(s, a) && a.phase.Writing?
    ensures a.phase.id in s.ids
  {
  }

  lemma KeysPersist(nodes: Nodes, later: Nodes)
    requires Persists(nodes, later)
    ensures nodes.Keys <= later.Keys
  {
  }

  /** The check fixes an identity whose write would not break a unique index now. */
  lemma CheckAlone(s: System, caller: Caller, newId: NodeId, id: NodeId)
    requires OneToOne(s.nodes) && s.nodes.Keys <= s.ids
    requires Allowed(s, Check(caller, newId, id)) && OnCourse(s, s.callers[caller])
    ensures var s' := Next(s, Check(caller, newId, id));
            OnCourse(s', s'.callers[caller]) && (s'.callers[caller].phase.Writing? ==> id in s.nodes || id == newId)
  {
    var a := s.callers[caller];
    if !IsRefused(s.nodes, a.request) {
      IdentityFits(s.nodes, a.request, newId, id);
      if known :| known in s.nodes && (s.nodes[known].name == a.request.name ||
                                       s.nodes[known].hostname == a.request.hostname)
      {
        assert HasPair(s.nodes[known], a.request);
      }
    }
  }

  lemma CheckStep(s: System, caller: Caller, newId: NodeId, id: NodeId)
    requires Inv(s) && Allowed(s, Check(caller, newId, id))
    ensures Inv(Next(s, Check(caller, newId, id)))
  {
    hide OneToOne, OnCourse, IsRefused, Identifies;
    var s' := Next(s, Check(caller, newId, id));
    var a := s.callers[caller];
    assert OnCourse(s, a);
    CheckAlone(s, caller, newId, id);
    forall c | c in s'.callers && c != caller ensures OnCourse(s', s'.callers[c]) {
      OnCourseStays(s, s', s.callers[c]);
    }
    forall c, d, known | WritingAs(s', c, known) && WritingAs(s', d, known) && c != d ensures known in s'.nodes {
      OtherWriter(s, s', caller, c, known);
      OtherWriter(s, s', caller, d, known);
    }
  }

  /** Someone who already writes has an id that is not new. */
  lemma OtherWriter(s: System, s': System, caller: Caller, c: Caller, id: NodeId)
    requires Inv(s) && WritingAs(s', c, id)
    requires forall d :: d in s'.callers && d != caller ==> d in s.callers && s'.callers[d] == s.callers[d]
    ensures c != caller ==> WritingAs(s, c, id) && id in s.ids
  {
    if c != caller {
      assert OnCourse(s, s.callers[c]);
    }
  }

  lemma ArriveStep(s: System, e: Event)
    requires Inv(s) && Allowed(s, e) && (e.Arrive? || e.CommitElsewhere?)
    ensures Inv(Next(s, e))
  {
    hide OneToOne;
    var s' := Next(s, e);
    forall c | c in s.callers ensures OnCourse(s', s.callers[c]) {
      OnCourseStays(s, s', s.callers[c]);
    }
    forall c, d, id | WritingAs(s', c, id) && WritingAs(s', d, id) && c != d ensures id in s.nodes {
      assert WritingAs(s, c, id) && WritingAs(s, d, id);
    }
  }

  lemma StepKeeps(s: System, e: Event)
    requires Inv(s) && Allowed(s, e)
    ensures Inv(Next(s, e)) && Persists(s.nodes, Next(s, e).nodes)
    ensures Next(s, e).snapshots == s.snapshots
  {
    hide Inv;
    match e
    case Arrive(caller, request, token) => ArriveStep(s, e);
    case Check(caller, newId, id) => CheckStep(s, caller, newId, id);
    case Write(caller, now) => WriteStep(s, caller, now);
    case CommitElsewhere => ArriveStep(s, e);
  }

  lemma {:induction false} RunKeeps(s: System, es: seq<Event>)
    requires Inv(s) && Legal(s, es)
    ensures Inv(Run(s, es)) && Persists(s.nodes, Run(s, es).nodes) && Run(s, es).snapshots == s.snapshots
    decreases es
  {
    hide Inv, Persists, Allowed, Next;
    if es != [] {
      StepKeeps(s, es[0]);
      RunKeeps(Next(s, es[0]), es[1..]);
      PersistsThrough(s.nodes, Next(s, es[0]).nodes, Run(s, es).nodes, Run(s, es).nodes);
    } else {
      PersistsSame(s.nodes);
    }
  }

  lemma PersistsSame(nodes: Nodes)
    ensures Persists(nodes, nodes)
  {
  }

  lemma StartInv(snapshots: bool)
    ensures Inv(Start(snapshots))
  {
  }

  // ---------------------------------------------------------------- the claims

  /** In any interleaving no registration ends with a unique violation or runs out of attempts.  Without snapshots the
      second attempt always registers the node or refuses the request; with them there is no second attempt. */
  lemma OneRetrySuffices(snapshots: bool, es: seq<Event>, caller: Caller)
    requires Legal(Start(snapshots), es) && caller in Run(Start(snapshots), es).callers
    ensures var phase := Run(Start(snapshots), es).callers[caller].phase;
            && (phase.Finished? ==> phase.outcome.Registered? || phase.outcome.Refused? || phase.outcome.Busy?)
            && (phase == Finished(Busy) ==> snapshots)
            && (!phase.Finished? ==> phase.attempt <= if snapshots then 0 else 1)
  {
    StartInv(snapshots);
    RunKeeps(Start(snapshots), es);
    assert OnCourse(Run(Start(snapshots), es), Run(Start(snapshots), es).callers[caller]);
  }

  /** The event commits something: a write to another table, or the row of a registration. */
  predicate Commits(s: System, e: Event)
    requires Allowed(s, e)
  {
    e.CommitElsewhere? || (e.Write? && WriteOutcome(s, s.callers[e.caller]).Registered?)
  }

  predicate AnyCommit(s: System, es: seq<Event>)
    requires Legal(s, es)
    decreases es
  {
    es != [] && (Commits(s, es[0]) || AnyCommit(Next(s, es[0]), es[1..]))
  }

  /** While a caller waits to write, only the commits of others count. */
  lemma {:induction false} WaitsToWrite(s: System, es: seq<Event>, c: Caller)
    requires Legal(s, es) && c in s.callers && s.callers[c].phase.Writing?
    requires forall now :: Write(c, now) !in es
    ensures var s' := Run(s, es);
            && c in s'.callers && s'.callers[c] == s.callers[c]
            && s.commits <= s'.commits && (s.commits < s'.commits <==> AnyCommit(s, es))
    decreases es
  {
    hide Violates, IsRefused, Identifies;
    if es != [] {
      assert es[0] in es;
      assert forall e :: e in es[1..] ==> e in es;
      assert es[0].Write? ==> es[0] == Write(es[0].caller, es[0].now);
      WaitsToWrite(Next(s, es[0]), es[1..], c);
    }
  }

  /** With snapshots an attempt that is not refused fails as busy if and only if something was committed between its
      check and its write, by a registration or elsewhere in the database; otherwise it registers the node. */
  lemma BusyExactly(earlier: seq<Event>, c: Caller, newId: NodeId, id: NodeId, between: seq<Event>, now: int)
    requires Legal(Start(true), earlier)
    requires var s := Run(Start(true), earlier);
             && Allowed(s, Check(c, newId, id)) && !IsRefused(s.nodes, s.callers[c].request)
             && Legal(Next(s, Check(c, newId, id)), between)
    requires forall t :: Write(c, t) !in between
    ensures var checked := Next(Run(Start(true), earlier), Check(c, newId, id));
            var s := Run(checked, between);
            && Allowed(s, Write(c, now))
            && Next(s, Write(c, now)).callers[c].phase
               == Finished(if AnyCommit(checked, between) then Busy else Registered(id))
  {
    StartInv(true);
    RunKeeps(Start(true), earlier);
    var checked := Next(Run(Start(true), earlier), Check(c, newId, id));
    StepKeeps(Run(Start(true), earlier), Check(c, newId, id));
    RunKeeps(checked, between);
    WaitsToWrite(checked, between, c);
    var s := Run(checked, between);
    assert OnCourse(s, s.callers[c]);
    hide Run, Legal, AnyCommit, Violates;
  }

  /** In every run an Agent whose pair is in the table comes back to its node, with or without snapshots: its check
      finds that node, its write breaks no unique index whatever was registered in between, and unless it is busy it
      registers the node with the new token. */
  lemma KnownPairReturns(snapshots: bool, earlier: seq<Event>, c: Caller, newId: NodeId, id: NodeId,
                         between: seq<Event>, now: int, known: NodeId)
    requires Legal(Start(snapshots), earlier)
    requires var s := Run(Start(snapshots), earlier);
             && Allowed(s, Check(c, newId, id)) && IsPairOf(s.nodes, known, s.callers[c].request)
             && Legal(Next(s, Check(c, newId, id)), between)
    requires forall t :: Write(c, t) !in between
    ensures var checked := Next(Run(Start(snapshots), earlier), Check(c, newId, id));
            var s := Run(checked, between);
            && id == known && Allowed(s, Write(c, now))
            && var later := Next(s, Write(c, now));
               if snapshots && AnyCommit(checked, between) then later.callers[c].phase == Finished(Busy)
               else
                 && later.callers[c].phase == Finished(Registered(known)) && known in later.nodes
                 && later.nodes[known].tokenHash == DigestOf(s.callers[c].token)
  {
    StartInv(snapshots);
    RunKeeps(Start(snapshots), earlier);
    var s0 := Run(Start(snapshots), earlier);
    PairIsKnown(s0.nodes, s0.callers[c].request, known);
    var checked := Next(s0, Check(c, newId, id));
    StepKeeps(s0, Check(c, newId, id));
    RunKeeps(checked, between);
    WaitsToWrite(checked, between, c);
    var s := Run(checked, between);
    PairIsKnown(s.nodes, s.callers[c].request, known);
    hide Run, Legal, AnyCommit, Violates, IsRefused, Identifies;
  }

  /** Two Agents that start with one name and host at the same time make the first attempt of one of them fail: with
      snapshots it is busy for good, and without them it is retried. */
  lemma SecondWriterFails(snapshots: bool, r: Request, tokens: (Token, Token), ids: (NodeId, NodeId), now: int)
    requires tokens.0 != tokens.1 && ids.0 != ids.1
    ensures var es := [Arrive(0, r, tokens.0), Arrive(1, r, tokens.1), Check(0, ids.0, ids.0), Check(1, ids.1, ids.1),
                       Write(0, now), Write(1, now)];
            && Legal(Start(snapshots), es) && 1 in Run(Start(snapshots), es).callers
            && Run(Start(snapshots), es).callers[1].phase == if snapshots then Finished(Busy) else Checking(1)
  {
    var es := [Arrive(0, r, tokens.0), Arrive(1, r, tokens.1), Check(0, ids.0, ids.0), Check(1, ids.1, ids.1),
               Write(0, now), Write(1, now)];
    BothChecked(snapshots, r, tokens, ids);
    LastWrites(snapshots, r, tokens, ids, now);
    hide *;
    var s0 := Start(snapshots);
    var s2 := Next(Next(s0, es[0]), es[1]);
    var s4 := BothWriting(snapshots, r, tokens, ids);
    RunTwo(s0, es[0], es[1]);
    RunTwo(s2, es[2], es[3]);
    RunTwo(s4, es[4], es[5]);
    RunJoins(s2, [es[2], es[3]], [es[4], es[5]]);
    RunJoins(s0, [es[0], es[1]], [es[2], es[3]] + [es[4], es[5]]);
    assert [es[0], es[1]] + ([es[2], es[3]] + [es[4], es[5]]) == es;
  }

  /** Both have checked the empty table. */
  function BothWriting(snapshots: bool, r: Request, tokens: (Token, Token), ids: (NodeId, NodeId)): System {
    System(snapshots, 0, map[], map[0 := Attempt(r, tokens.0, Writing(0, ids.0, 0)),
                                    1 := Attempt(r, tokens.1, Writing(0, ids.1, 0))], {ids.0, ids.1}, [])
  }

  lemma LastWrites(snapshots: bool, r: Request, tokens: (Token, Token), ids: (NodeId, NodeId), now: int)
    requires ids.0 != ids.1
    ensures var s, e, f := BothWriting(snapshots, r, tokens, ids), Write(0, now), Write(1, now);
            && Allowed(s, e) && Allowed(Next(s, e), f) && 1 in Next(Next(s, e), f).callers
            && Next(Next(s, e), f).callers[1].phase == if snapshots then Finished(Busy) else Checking(1)
  {
    var s := BothWriting(snapshots, r, tokens, ids);
    var s' := Next(s, Write(0, now));
    assert s'.nodes[ids.0].name == r.name && s'.commits == 1;
  }

  lemma BothChecked(snapshots: bool, r: Request, tokens: (Token, Token), ids: (NodeId, NodeId))
    requires tokens.0 != tokens.1 && ids.0 != ids.1
    ensures var s0, e0, e1 := Start(snapshots), Arrive(0, r, tokens.0), Arrive(1, r, tokens.1);
            var e2, e3 := Check(0, ids.0, ids.0), Check(1, ids.1, ids.1);
            && Allowed(s0, e0) && Allowed(Next(s0, e0), e1) && Allowed(Next(Next(s0, e0), e1), e2)
            && Allowed(Next(Next(Next(s0, e0), e1), e2), e3)
            && Next(Next(Next(Next(s0, e0), e1), e2), e3) == BothWriting(snapshots, r, tokens, ids)
  {
    var s0 := Start(snapshots);
    var s1 := Next(s0, Arrive(0, r, tokens.0));
    var s2 := Next(s1, Arrive(1, r, tokens.1));
    assert s2.callers[0] == Attempt(r, tokens.0, Checking(0)) && s2.callers[1] == Attempt(r, tokens.1, Checking(0));
    var s3 := Next(s2, Check(0, ids.0, ids.0));
    assert s3.callers[0] == Attempt(r, tokens.0, Writing(0, ids.0, 0)) && s3.callers[1] == s2.callers[1];
    var s4 := Next(s3, Check(1, ids.1, ids.1));
    assert s4.callers == BothWriting(snapshots, r, tokens, ids).callers;
  }

  lemma RunTwo(s: System, e: Event, f: Event)
    requires Allowed(s, e) && Allowed(Next(s, e), f)
    ensures Legal(s, [e, f]) && Run(s, [e, f]) == Next(Next(s, e), f)
  {
    hide Allowed, Next;
    assert [e, f][1..] == [f] && [f][1..] == [];
    var s', s'' := Next(s, e), Next(Next(s, e), f);
    assert Legal(s'', []) && Run(s'', []) == s'';
    assert Legal(s', [f]) && Run(s', [f]) == s'';
  }

  lemma {:induction false} RunJoins(s: System, es: seq<Event>, more: seq<Event>)
    requires Legal(s, es) && Legal(Run(s, es), more)
    ensures Legal(s, es + more) && Run(s, es + more) == Run(Run(s, es), more)
    decreases es
  {
    hide Allowed, Next;
    if es == [] {
      assert es + more == more;
    } else {
      RunJoins(Next(s, es[0]), es[1..], more);
      assert (es + more)[1..] == es[1..] + more;
    }
  }

  /** Names and hostnames stay paired one to one, each pair keeps its node id for ever, and two registrations are of
      one node exactly when they agree on the name, and exactly when they agree on the hostname. */
  lemma PairsKeepTheirNode(snapshots: bool, es: seq<Event>, more: seq<Event>)
    requires Legal(Start(snapshots), es) && Legal(Run(Start(snapshots), es), more)
    ensures var s := Run(Start(snapshots), es);
            var later := Run(s, more);
            && OneToOne(later.nodes) && Persists(s.nodes, later.nodes)
            && (forall c, d, i, j :: RegisteredAs(later, c, i) && RegisteredAs(later, d, j) ==>
                  && (i == j <==> later.callers[c].request.name == later.callers[d].request.name)
                  && (i == j <==> later.callers[c].request.hostname == later.callers[d].request.hostname))
  {
    var s := Run(Start(snapshots), es);
    StartInv(snapshots);
    RunKeeps(Start(snapshots), es);
    RunKeeps(s, more);
    var later := Run(s, more);
    hide Run, Legal;
    forall c, d, i, j | RegisteredAs(later, c, i) && RegisteredAs(later, d, j)
      ensures && (i == j <==> later.callers[c].request.name == later.callers[d].request.name)
              && (i == j <==> later.callers[c].request.hostname == later.callers[d].request.hostname)
    {
      assert OnCourse(later, later.callers[c]) && OnCourse(later, later.callers[d]);
    }
  }

  // ---------------------------------------------------------------- tokens

  /** The token of the last entry for the node. */
  function LatestToken(log: seq<(NodeId, Token)>, id: NodeId): Option<Token> {
    if log == [] then None
    else if log[|log| - 1].0 == id then Some(log[|log| - 1].1)
    else LatestToken(log[..|log| - 1], id)
  }

  /** The table holds, for each node, the token of its last entry. */
  ghost predicate LatestAgrees(nodes: Nodes, log: seq<(NodeId, Token)>) {
    forall id :: LatestToken(log, id) == if id in nodes then Some(nodes[id].tokenHash.token) else None
  }

  ghost predicate TokensDiffer(callers: map<Caller, Attempt>) {
    forall c, d :: c in callers && d in callers && c != d ==> callers[c].token != callers[d].token
  }

  /** The entry is that of a registered caller. */
  ghost predicate IsEntryOf(s: System, entry: (NodeId, Token), c: Caller) {
    RegisteredAs(s, c, entry.0) && s.callers[c].token == entry.1
  }

  ghost predicate HasCaller(s: System, entry: (NodeId, Token)) {
    exists c :: IsEntryOf(s, entry, c)
  }

  ghost predicate TokensInv(s: System) {
    && LatestAgrees(s.nodes, s.log) && TokensDiffer(s.callers)
    && (forall i :: 0 <= i < |s.log| ==> HasCaller(s, s.log[i]))
    && (forall i, j :: 0 <= i < j < |s.log| ==> s.log[i].1 != s.log[j].1)
  }

  lemma TokensKept(s: System, e: Event)
    requires TokensInv(s) && Allowed(s, e)
    ensures TokensInv(Next(s, e))
  {
    hide LatestAgrees, TokensDiffer, HasCaller, Violates, IsRefused, Identifies;
    var s' := Next(s, e);
    CallersDiffer(s, e);
    forall i | 0 <= i < |s.log| ensures HasCaller(s', s.log[i]) {
      CallerStays(s, e, s.log[i]);
    }
    if s'.log != s.log {
      LogGrows(s, e.caller, e.now);
    }
  }

  lemma CallersDiffer(s: System, e: Event)
    requires TokensDiffer(s.callers) && Allowed(s, e)
    ensures TokensDiffer(Next(s, e).callers)
  {
    hide WriteOutcome, IsRefused, Identifies;
  }

  lemma CallerStays(s: System, e: Event, entry: (NodeId, Token))
    requires HasCaller(s, entry) && Allowed(s, e)
    ensures HasCaller(Next(s, e), entry)
  {
    hide WriteOutcome, IsRefused, Identifies;
    var c :| IsEntryOf(s, entry, c);
    assert IsEntryOf(Next(s, e), entry, c);
  }

  lemma LogGrows(s: System, caller: Caller, now: int)
    requires TokensInv(s) && Allowed(s, Write(caller, now)) && Next(s, Write(caller, now)).log != s.log
    ensures var a, s' := s.callers[caller], Next(s, Write(caller, now));
            && s'.log == s.log + [(a.phase.id, a.token)] && LatestAgrees(s'.nodes, s'.log)
            && HasCaller(s', (a.phase.id, a.token))
            && (forall i :: 0 <= i < |s.log| ==> s.log[i].1 != a.token)
  {
    hide Violates;
    var a, s' := s.callers[caller], Next(s, Write(caller, now));
    assert s'.log == s.log + [(a.phase.id, a.token)];
    assert s'.nodes == s.nodes[a.phase.id := RowFor(s.nodes, a.phase.id, a.request, a.token, now)];
    LatestGrows(s.nodes, s.log, a.phase.id, s'.nodes[a.phase.id]);
    assert IsEntryOf(s', (a.phase.id, a.token), caller);
    forall i | 0 <= i < |s.log| ensures s.log[i].1 != a.token {
      assert HasCaller(s, s.log[i]);
      var c :| IsEntryOf(s, s.log[i], c);
    }
  }

  lemma LatestGrows(nodes: Nodes, log: seq<(NodeId, Token)>, id: NodeId, row: Node)
    requires LatestAgrees(nodes, log)
    ensures LatestAgrees(nodes[id := row], log + [(id, row.tokenHash.token)])
  {
    var log' := log + [(id, row.tokenHash.token)];
    assert log'[..|log|] == log && log'[|log|] == (id, row.tokenHash.token);
  }

  lemma {:induction false} RunKeepsTokens(s: System, es: seq<Event>)
    requires TokensInv(s) && Legal(s, es)
    ensures TokensInv(Run(s, es))
    decreases es
  {
    if es != [] {
      TokensKept(s, es[0]);
      RunKeepsTokens(Next(s, es[0]), es[1..]);
    }
  }

  /** The token of the latest successful registration of a node authenticates it and no other token does; a replaced
      token authenticates no node at all. */
  lemma LatestTokenOnly(snapshots: bool, es: seq<Event>, id: NodeId, token: Token)
    requires Legal(Start(snapshots), es)
    ensures var s := Run(Start(snapshots), es);
            && (Authenticates(s.nodes, id, token) <==> LatestToken(s.log, id) == Some(token))
            && (forall i, j :: 0 <= i < j < |s.log| && s.log[i].0 == s.log[j].0 ==>
                  !Authenticates(s.nodes, id, s.log[i].1))
  {
    RunKeepsTokens(Start(snapshots), es);
    var s := Run(Start(snapshots), es);
    hide Run, Legal;
    assert forall t: Token :: DigestOf(t).token == t;
    forall i, j | 0 <= i < j < |s.log| && s.log[i].0 == s.log[j].0
      ensures !Authenticates(s.nodes, id, s.log[i].1)
    {
      LatestIsLast(s.log, id);
    }
  }

  lemma {:induction false} LatestIsLast(log: seq<(NodeId, Token)>, id: NodeId)
    ensures LatestToken(log, id).Some? ==>
              exists k :: 0 <= k < |log| && log[k] == (id, LatestToken(log, id).value) &&
                          forall m :: k < m < |log| ==> log[m].0 != id
  {
    if log != [] && log[|log| - 1].0 != id {
      LatestIsLast(log[..|log| - 1], id);
    } else if log != [] {
      assert log[|log| - 1] == (id, LatestToken(log, id).value);
    }
  }
}
