/** Registration of nodes: a check of the table and a later write, unique names, unique hostnames, and one retry. */
module Registration {
  import opened Options

  type NodeId = string
  type Token = string

  /** A digest stands for the token it was made from. */
  datatype Digest = DigestOf(token: Token)

  datatype Request =
    Request(name: string, hostname: string, agentVersion: Option<string>, os: Option<string>, arch: Option<string>)

  datatype Node =
    Node(name: string, hostname: string, agentVersion: Option<string>, os: Option<string>, arch: Option<string>,
         tokenHash: Digest, registeredAt: int, updatedAt: int)

  type Nodes = map<NodeId, Node>

  predicate HasPair(node: Node, r: Request) {
    node.name == r.name && node.hostname == r.hostname
  }

  predicate NameTaken(nodes: Nodes, r: Request) {
    exists id :: id in nodes && nodes[id].name == r.name && nodes[id].hostname != r.hostname
  }

  predicate HostnameTaken(nodes: Nodes, r: Request) {
    exists id :: id in nodes && nodes[id].hostname == r.hostname && nodes[id].name != r.name
  }

  predicate IsRefused(nodes: Nodes, r: Request) {
    NameTaken(nodes, r) || HostnameTaken(nodes, r)
  }

  /** `id` is the node of the pair, or `newId` when the pair has none. */
  predicate Identifies(nodes: Nodes, r: Request, newId: NodeId, id: NodeId) {
    if exists known :: known in nodes && HasPair(nodes[known], r) then id in nodes && HasPair(nodes[id], r)
    else id == newId
  }

  /** Another row holds the name or the hostname, so an insert or update of `id` breaks a unique index. */
  predicate Violates(nodes: Nodes, id: NodeId, r: Request) {
    exists other :: other in nodes && other != id &&
                    (nodes[other].name == r.name || nodes[other].hostname == r.hostname)
  }

  function RowFor(nodes: Nodes, id: NodeId, r: Request, token: Token, now: int): Node {
    Node(r.name, r.hostname, r.agentVersion, r.os, r.arch, DigestOf(token),
         if id in nodes then nodes[id].registeredAt else now, now)
  }

  /** The guarded upsert. */
  function Written(nodes: Nodes, id: NodeId, r: Request, token: Token, now: int): Nodes {
    if Violates(nodes, id, r) then nodes else nodes[id := RowFor(nodes, id, r, token, now)]
  }

  /** Distinct nodes have distinct names and distinct hostnames. */
  ghost predicate OneToOne(nodes: Nodes) {
    forall id, other :: id in nodes && other in nodes && id != other ==>
      nodes[id].name != nodes[other].name && nodes[id].hostname != nodes[other].hostname
  }

  predicate Authenticates(nodes: Nodes, id: NodeId, token: Token) {
    id in nodes && nodes[id].tokenHash == DigestOf(token)
  }

  /** The write of another registration. */
  datatype Upsert = Upsert(id: NodeId, request: Request, token: Token, now: int)

  function WrittenAll(nodes: Nodes, ws: seq<Upsert>): Nodes
    decreases |ws|
  {
    if ws == [] then nodes
    else
      var w := ws[|ws| - 1];
      Written(WrittenAll(nodes, ws[..|ws| - 1]), w.id, w.request, w.token, w.now)
  }

  /** How many of the writes are committed: one that breaks a unique index is not. */
  function Commits(nodes: Nodes, ws: seq<Upsert>): nat
    decreases |ws|
  {
    if ws == [] then 0
    else
      var first, w := ws[..|ws| - 1], ws[|ws| - 1];
      Commits(nodes, first) + if Violates(WrittenAll(nodes, first), w.id, w.request) then 0 else 1
  }

  /** What others write before the check of an attempt, and between its check and its write; `elsewhere` counts the
      commits of that time to other tables of the database. */
  datatype Others = Others(before: seq<Upsert>, between: seq<Upsert>, elsewhere: nat)

  /** Something is committed between the check and the write of the attempt. */
  predicate Overtaken(nodes: Nodes, o: Others) {
    Commits(WrittenAll(nodes, o.before), o.between) + o.elsewhere > 0
  }

  datatype Outcome = Registered(id: NodeId) | Refused | Busy | UniqueFailure | RetryExhausted

  /** Every row and every write gives a node id to the one pair that owns it. */
  ghost predicate Owned(nodes: Nodes, owner: NodeId -> (string, string)) {
    forall id :: id in nodes ==> owner(id) == (nodes[id].name, nodes[id].hostname)
  }

  ghost predicate OwnedWrites(ws: seq<Upsert>, owner: NodeId -> (string, string)) {
    forall w :: w in ws ==> owner(w.id) == (w.request.name, w.request.hostname)
  }

  predicate Persists(nodes: Nodes, later: Nodes) {
    forall id :: id in nodes ==>
      && id in later && later[id].name == nodes[id].name && later[id].hostname == nodes[id].hostname
      && later[id].registeredAt == nodes[id].registeredAt
  }

  lemma {:induction false} WritesKeep(nodes: Nodes, ws: seq<Upsert>, owner: NodeId -> (string, string))
    requires OneToOne(nodes) && Owned(nodes, owner) && OwnedWrites(ws, owner)
    ensures OneToOne(WrittenAll(nodes, ws)) && Owned(WrittenAll(nodes, ws), owner)
    ensures Persists(nodes, WrittenAll(nodes, ws))
    decreases |ws|
  {
    if ws != [] {
      WritesKeep(nodes, ws[..|ws| - 1], owner);
      var w := ws[|ws| - 1];
      assert w in ws;
    }
  }

  lemma {:induction false} NothingCommitted(nodes: Nodes, ws: seq<Upsert>)
    requires Commits(nodes, ws) == 0
    ensures WrittenAll(nodes, ws) == nodes
    decreases |ws|
  {
    if ws != [] {
      NothingCommitted(nodes, ws[..|ws| - 1]);
    }
  }

  /** Some row holds the name or the hostname. */
  predicate Occupied(nodes: Nodes, r: Request) {
    exists id :: id in nodes && (nodes[id].name == r.name || nodes[id].hostname == r.hostname)
  }

  /** The node has the pair and the details of the request, and its token is the only one that authenticates it. */
  ghost predicate IsRegistered(nodes: Nodes, id: NodeId, r: Request, token: Token) {
    && id in nodes && nodes[id].name == r.name && nodes[id].hostname == r.hostname
    && nodes[id].agentVersion == r.agentVersion && nodes[id].os == r.os && nodes[id].arch == r.arch
    && forall t :: Authenticates(nodes, id, t) <==> t == token
  }

  /** The row agrees with the request in exactly one of name and hostname. */
  predicate Clashes(node: Node, r: Request) {
    (node.name == r.name) != (node.hostname == r.hostname)
  }

  /** A request is refused exactly when some row agrees with it in exactly one of name and hostname. */
  lemma RefusedExactly(nodes: Nodes, r: Request)
    ensures IsRefused(nodes, r) <==> exists id :: id in nodes && Clashes(nodes[id], r)
  {
    if id :| id in nodes && Clashes(nodes[id], r) {
      assert nodes[id].name == r.name || nodes[id].hostname == r.hostname;
    }
  }

  /** With distinct names and hosts in the table, the pair of a row is not refused, and it is that row's. */
  lemma PairIsKnown(nodes: Nodes, r: Request, known: NodeId)
    requires OneToOne(nodes) && known in nodes && nodes[known].name == r.name && nodes[known].hostname == r.hostname
    ensures !IsRefused(nodes, r) && forall newId, id :: Identifies(nodes, r, newId, id) <==> id == known
    ensures !Violates(nodes, known, r)
  {
    RefusedExactly(nodes, r);
    assert HasPair(nodes[known], r);
  }

  lemma WriteKeeps(nodes: Nodes, id: NodeId, r: Request, token: Token, now: int, owner: NodeId -> (string, string))
    requires OneToOne(nodes) && Owned(nodes, owner) && owner(id) == (r.name, r.hostname)
    ensures var later := Written(nodes, id, r, token, now);
            && OneToOne(later) && Owned(later, owner) && Persists(nodes, later)
            && (if Violates(nodes, id, r) then Occupied(later, r) else IsRegistered(later, id, r, token))
  {
  }

  lemma PersistsThrough(a: Nodes, b: Nodes, c: Nodes, d: Nodes)
    requires Persists(a, b) && Persists(b, c) && Persists(c, d)
    ensures Persists(a, d)
  {
  }

  /** An identity found by the check still has the right owner at the write; and when a row held the name or hostname
      all along, the identity is that row, so that the write cannot break a unique index. */
  lemma IdentityHolds(start: Nodes, checked: Nodes, seen: Nodes, r: Request, newId: NodeId, id: NodeId,
                      owner: NodeId -> (string, string))
    requires Persists(start, checked) && Persists(checked, seen) && OneToOne(seen) && Owned(checked, owner)
    requires !IsRefused(checked, r) && Identifies(checked, r, newId, id) && owner(newId) == (r.name, r.hostname)
    ensures owner(id) == (r.name, r.hostname)
    ensures Occupied(start, r) ==> !Violates(seen, id, r)
  {
    if known :| known in start && (start[known].name == r.name || start[known].hostname == r.hostname) {
      assert HasPair(checked[known], r);
    }
  }

  /** The row has the pair of the request. */
  predicate IsPairOf(nodes: Nodes, id: NodeId, r: Request) {
    id in nodes && nodes[id].name == r.name && nodes[id].hostname == r.hostname
  }

  /** A known pair stays with its row, is not refused, and identifies that row, whatever others write. */
  lemma KnownStays(start: Nodes, seen: Nodes, r: Request)
    requires Persists(start, seen) && OneToOne(seen)
    ensures forall known :: IsPairOf(start, known, r) ==>
              && !IsRefused(seen, r) && !Violates(seen, known, r)
              && forall newId, id :: Identifies(seen, r, newId, id) <==> id == known
  {
    forall known | IsPairOf(start, known, r)
      ensures && !IsRefused(seen, r) && !Violates(seen, known, r)
              && forall newId, id :: Identifies(seen, r, newId, id) <==> id == known
    {
      PairIsKnown(seen, r, known);
    }
  }

  /** Straight after the check the write cannot break a unique index. */
  lemma IdentityFits(nodes: Nodes, r: Request, newId: NodeId, id: NodeId)
    requires OneToOne(nodes) && !IsRefused(nodes, r) && Identifies(nodes, r, newId, id)
    ensures !Violates(nodes, id, r)
  {
    forall other | other in nodes && other != id
      ensures nodes[other].name != r.name && nodes[other].hostname != r.hostname
    {
      if nodes[other].name == r.name || nodes[other].hostname == r.hostname {
        assert HasPair(nodes[other], r);
      }
    }
  }

  /** The table of nodes; `commits` counts the commits to its database, and `snapshots` says whether a transaction
      that has read may still write after a commit of another one. */
  class NodeTable {
    const snapshots: bool
    var nodes: Nodes
    var commits: nat

    constructor (snapshots: bool)
      ensures nodes == map[] && this.snapshots == snapshots
    {
      nodes := map[];
      commits := 0;
      this.snapshots := snapshots;
    }

    /** The three queries at the start of an attempt. */
    method CheckIdentity(request: Request, newId: NodeId) returns (identity: Option<NodeId>)
      ensures identity.None? <==> IsRefused(nodes, request)
      ensures identity.Some? ==> Identifies(nodes, request, newId, identity.value)
      ensures identity.None? <==> exists id :: id in nodes && Clashes(nodes[id], request)
      ensures identity.Some? && identity.value != newId ==>
                identity.value in nodes && nodes[identity.value].name == request.name
                && nodes[identity.value].hostname == request.hostname
      ensures (exists id :: id in nodes && nodes[id].name == request.name && nodes[id].hostname == request.hostname) ==>
                identity.None? || (identity.value in nodes && nodes[identity.value].name == request.name
                                   && nodes[identity.value].hostname == request.hostname)
    {
      RefusedExactly(nodes, request);
      if exists id :: id in nodes && nodes[id].name == request.name && nodes[id].hostname != request.hostname {
        return None;
      }
      if exists id :: id in nodes && nodes[id].hostname == request.hostname && nodes[id].name != request.name {
        return None;
      }
      if exists id :: id in nodes && HasPair(nodes[id], request) {
        var id :| id in nodes && HasPair(nodes[id], request);
        return Some(id);
      }
      identity := Some(newId);
    }

    method Write(id: NodeId, request: Request, token: Token, now: int) returns (written: bool)
      modifies this
      ensures nodes == Written(old(nodes), id, request, token, now)
      ensures written <==> !Violates(old(nodes), id, request)
      ensures written ==>
                nodes == old(nodes)[id := Node(request.name, request.hostname, request.agentVersion, request.os,
                                               request.arch, DigestOf(token),
                                               if id in old(nodes) then old(nodes)[id].registeredAt else now, now)]
      ensures commits == if written then old(commits) + 1 else old(commits)
    {
      if exists other :: other in nodes && other != id &&
                         (nodes[other].name == request.name || nodes[other].hostname == request.hostname) {
        return false;
      }
      if id in nodes {
        nodes := nodes[id := Node(request.name, request.hostname, request.agentVersion, request.os, request.arch,
                                  DigestOf(token), nodes[id].registeredAt, now)];
      } else {
        nodes := nodes[id := Node(request.name, request.hostname, request.agentVersion, request.os, request.arch,
                                  DigestOf(token), now, now)];
      }
      commits := commits + 1;
      written := true;
    }

    method CommitOthers(ws: seq<Upsert>)
      modifies this
      ensures nodes == WrittenAll(old(nodes), ws) && commits == old(commits) + Commits(old(nodes), ws)
    {
      ghost var before, start := nodes, commits;
      for i := 0 to |ws|
        invariant nodes == WrittenAll(before, ws[..i]) && commits == start + Commits(before, ws[..i])
      {
        assert ws[..i + 1][..i] == ws[..i];
        var _ := Write(ws[i].id, ws[i].request, ws[i].token, ws[i].now);
      }
      assert ws[..|ws|] == ws;
    }

    /** One attempt, in one transaction: the check fixes what it sees, and with snapshots the write fails as busy when
        anything was committed since. */
    method TryRegister(request: Request, token: Token, now: int, newId: NodeId, others: Others,
                       ghost owner: NodeId -> (string, string))
      returns (outcome: Outcome)
      requires OneToOne(nodes) && Owned(nodes, owner)
      requires OwnedWrites(others.before, owner) && OwnedWrites(others.between, owner)
      requires owner(newId) == (request.name, request.hostname)
      modifies this
      ensures OneToOne(nodes) && Owned(nodes, owner) && Persists(old(nodes), nodes)
      ensures outcome.Registered? ==> IsRegistered(nodes, outcome.id, request, token)
      ensures outcome.Refused? <==> IsRefused(WrittenAll(old(nodes), others.before), request)
      ensures outcome.Refused? ==> IsRefused(nodes, request)
      ensures outcome.Busy? <==> snapshots && !outcome.Refused? && Overtaken(old(nodes), others)
      ensures forall known :: IsPairOf(old(nodes), known, request) ==> outcome == Registered(known) || outcome.Busy?
      ensures outcome.UniqueFailure? ==> !snapshots && Occupied(nodes, request) && !Occupied(old(nodes), request)
      ensures !outcome.RetryExhausted?
    {
      ghost var start := nodes;
      WritesKeep(nodes, others.before, owner);
      CommitOthers(others.before);
      ghost var checked := nodes;
      var seen := commits;
      KnownStays(start, checked, request);
      var identity := CheckIdentity(request, newId);
      if identity.None? {
        return Refused;
      }
      WritesKeep(nodes, others.between, owner);
      CommitOthers(others.between);
      commits := commits + others.elsewhere;
      PersistsThrough(start, checked, nodes, nodes);
      KnownStays(start, nodes, request);
      if snapshots && commits != seen {
        return Busy;
      }
      if snapshots {
        NothingCommitted(checked, others.between);
        IdentityFits(checked, request, newId, identity.value);
      }
      outcome := Finish(request, token, now, newId, identity.value, start, checked, owner);
    }

    /** The write of an attempt; `start` and `checked` are the tables at its start and at its check. */
    method Finish(request: Request, token: Token, now: int, newId: NodeId, id: NodeId, ghost start: Nodes,
                  ghost checked: Nodes, ghost owner: NodeId -> (string, string))
      returns (outcome: Outcome)
      requires OneToOne(nodes) && Owned(nodes, owner) && Owned(checked, owner)
      requires Persists(start, checked) && Persists(checked, nodes)
      requires owner(newId) == (request.name, request.hostname)
      requires !IsRefused(checked, request) && Identifies(checked, request, newId, id)
      modifies this
      ensures OneToOne(nodes) && Owned(nodes, owner) && Persists(start, nodes)
      ensures outcome == if Violates(old(nodes), id, request) then UniqueFailure else Registered(id)
      ensures outcome.Registered? ==> IsRegistered(nodes, id, request, token)
      ensures outcome.UniqueFailure? ==> Occupied(nodes, request) && !Occupied(start, request)
    {
      IdentityHolds(start, checked, nodes, request, newId, id, owner);
      WriteKeeps(nodes, id, request, token, now, owner);
      ghost var seen := nodes;
      var written := Write(id, request, token, now);
      hide *;
      PersistsThrough(start, checked, seen, nodes);
      outcome := if written then Registered(id) else UniqueFailure;
    }

    /** At most two attempts, the second only after a unique violation in the first.  With snapshots the first attempt
        decides, and one that is overtaken ends as busy. */
    method RegisterNode(request: Request, token: Token, now: int, newIds: (NodeId, NodeId), others: seq<Others>,
                        ghost owner: NodeId -> (string, string))
      returns (outcome: Outcome)
      requires |others| == 2
      requires OneToOne(nodes) && Owned(nodes, owner)
      requires forall i :: 0 <= i < 2 ==> OwnedWrites(others[i].before, owner) && OwnedWrites(others[i].between, owner)
      requires owner(newIds.0) == owner(newIds.1) == (request.name, request.hostname)
      modifies this
      ensures OneToOne(nodes) && Owned(nodes, owner) && Persists(old(nodes), nodes)
      ensures outcome.Registered? || outcome.Refused? || outcome.Busy?
      ensures outcome.Registered? ==> IsRegistered(nodes, outcome.id, request, token)
      ensures outcome.Refused? ==> IsRefused(nodes, request)
      ensures outcome.Busy? <==> snapshots && !outcome.Refused? && Overtaken(old(nodes), others[0])
      ensures forall known :: IsPairOf(old(nodes), known, request) ==> outcome == Registered(known) || outcome.Busy?
      ensures outcome.Refused? ==> exists id :: id in nodes && Clashes(nodes[id], request)
    {
      hide OneToOne, Owned, OwnedWrites, IsRegistered, IsRefused, Overtaken;
      for attempt := 0 to 2
        invariant OneToOne(nodes) && Owned(nodes, owner) && Persists(old(nodes), nodes)
        invariant attempt == 0 ==> nodes == old(nodes)
        invariant attempt >= 1 ==> !snapshots && Occupied(nodes, request)
        invariant attempt >= 1 ==> forall known :: !IsPairOf(old(nodes), known, request)
        invariant attempt < 2
      {
        var newId := if attempt == 0 then newIds.0 else newIds.1;
        outcome := TryRegister(request, token, now, newId, others[attempt], owner);
        RefusedExactly(nodes, request);
        if !(attempt == 0 && outcome.UniqueFailure?) {
          return;
        }
      }
      outcome := RetryExhausted;
    }

    method AuthenticateNode(id: NodeId, token: Token) returns (accepted: bool)
      ensures accepted <==> Authenticates(nodes, id, token)
    {
      var hash := if id in nodes then Some(nodes[id].tokenHash) else None;
      accepted := hash.Some? && DigestOf(token) == hash.value;
    }
  }
}
