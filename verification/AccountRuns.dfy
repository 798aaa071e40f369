/** What holds over every run of account operations, with updates that overlap. */
module AccountRuns {
  import opened Options
  import opened Text
  import opened Accounts

  type UpdateId = nat

  /** An update under way; `checked` once it has passed its check. */
  datatype Progress = Progress(pending: Pending, checked: bool)

  datatype System = System(accounts: State, updates: map<UpdateId, Progress>)

  datatype Event =
    | Setup(username: string, password: string, newId: UserId, now: int)
    | Create(username: string, password: string, role: Role, newId: UserId, now: int)
    | UpdateRead(update: UpdateId, id: UserId, request: UserUpdate)
    | UpdateCheck(update: UpdateId)
    | UpdateWrite(update: UpdateId, now: int)
    | Login(id: UserId, username: string, password: string, newToken: Token, ttlSecs: int, expiresDays: Option<int>,
            now: int)
    | Authenticate(token: Token, idleTimeoutSecs: Option<int>, now: int)
    | Reset(id: UserId, password: string, forceChange: bool, now: int)
    | Change(id: UserId, current: string, password: string, now: int)
    | Logout(token: Token, now: int)

  const START := System(State(map[], map[]), map[])

  /** Generated ids and tokens are new. Creating a user takes a session, so there is a user. */
  predicate Allowed(s: System, e: Event) {
    var users := s.accounts.users;
    match e
    case Setup(_, _, newId, _) => newId !in users
    case Create(_, _, _, newId, _) => newId !in users && users != map[]
    case UpdateRead(u, id, _) => u !in s.updates && id in users
    case UpdateCheck(u) => u in s.updates && !s.updates[u].checked
    case UpdateWrite(u, _) => u in s.updates && s.updates[u].checked && s.updates[u].pending.id in users
    case Login(id, username, password, newToken, _, expiresDays, now) =>
      TokenDigest(newToken) !in s.accounts.sessions && id in users &&
        MayLogIn(users[id], username, password, expiresDays, now)
    case Reset(id, _, _, _) => id in users
    case _ => true
  }

  predicate ChangesPassword(s: State, id: UserId, current: string) {
    id in s.users && s.users[id].enabled && s.users[id].passwordHash == PasswordDigest(current)
  }

  function NextAccounts(s: System, e: Event): State
    requires Allowed(s, e)
  {
    var a := s.accounts;
    match e
    case Setup(username, password, newId, now) =>
      if a.users == map[] then a.(users := map[newId := NewUser(username, password, Admin, now)]) else a
    case Create(username, password, role, newId, now) =>
      if NameUsed(a.users, Trim(username)) then a
      else a.(users := a.users[newId := NewUser(username, password, role, now)])
    case UpdateWrite(u, now) => WrittenBack(a, s.updates[u].pending, now)
    case Login(id, _, _, newToken, ttlSecs, _, now) =>
      a.(sessions := a.sessions[TokenDigest(newToken) := Session(id, now, now + ttlSecs, None)])
    case Authenticate(token, idle, now) => Authenticated(a, token, idle, now)
    case Reset(id, password, forceChange, now) => WithPassword(a, id, password, forceChange, now)
    case Change(id, current, password, now) =>
      if ChangesPassword(a, id, current) then WithPassword(a, id, password, false, now) else a
    case Logout(token, now) =>
      var t := TokenDigest(token);
      if t in a.sessions then a.(sessions := a.sessions[t := a.sessions[t].(revokedAt := Some(now))]) else a
    case _ => a
  }

  function Next(s: System, e: Event): System
    requires Allowed(s, e)
  {
    var updates :=
      match e
      case UpdateRead(u, id, request) => s.updates[u := Progress(PendingOf(s.accounts.users, id, request), false)]
      case UpdateCheck(u) =>
        if PassesCheck(s.accounts.users, s.updates[u].pending) then s.updates[u := s.updates[u].(checked := true)]
        else s.updates - {u}
      case UpdateWrite(u, _) => s.updates - {u}
      case _ => s.updates;
    System(NextAccounts(s, e), updates)
  }

  predicate Legal(s: System, es: seq<Event>)
    decreases es
  {
    es == [] || (Allowed(s, es[0]) && Legal(Next(s, es[0]), es[1..]))
  }

  function Run(s: System, es: seq<Event>): System
    requires Legal(s, es)
    decreases es
  {
    if es == [] then s else Run(Next(s, es[0]), es[1..])
  }

  lemma {:induction false} RunAppend(s: System, a: seq<Event>, b: seq<Event>)
    requires Legal(s, a) && Legal(Run(s, a), b)
    ensures Legal(s, a + b) && Run(s, a + b) == Run(Run(s, a), b)
    decreases a
  {
    if a == [] {
      assert a + b == b;
    } else {
      RunAppend(Next(s, a[0]), a[1..], b);
      assert (a + b)[0] == a[0] && (a + b)[1..] == a[1..] + b;
    }
    hide Allowed, Next;
  }

  lemma RunOne(s: System, e: Event)
    requires Allowed(s, e)
    ensures Legal(s, [e]) && Run(s, [e]) == Next(s, e)
  {
    hide Allowed, Next;
    assert [e][1..] == [];
    assert Legal(Next(s, e), []) && Run(Next(s, e), []) == Next(s, e);
  }

  // ---------------------------------------------------------------- the last admin

  /** Another enabled administrator is there, or the user written is one. */
  predicate IsSafeWrite(users: Users, p: Pending) {
    HasOtherAdmin(users, p.id) || (p.role == Admin && p.enabled)
  }

  /** A write leaves an enabled administrator exactly when another one is there at that moment, or the role and flag it
      carries are those of one. The check made before the write does not enter. */
  lemma WriteKeepsAdminExactly(s: State, p: Pending, now: int)
    requires p.id in s.users
    ensures HasAdmin(WrittenBack(s, p, now).users) <==> IsSafeWrite(s.users, p)
  {
    var after := WrittenBack(s, p, now).users;
    if HasOtherAdmin(s.users, p.id) {
      var other :| other in s.users && other != p.id && IsEnabledAdmin(s.users[other]);
      assert IsEnabledAdmin(after[other]);
    } else {
      assert forall other :: other in after && other != p.id ==> !IsEnabledAdmin(after[other]);
      assert IsEnabledAdmin(after[p.id]) <==> p.role == Admin && p.enabled;
    }
  }

  /** Nobody, or somebody who administers. */
  predicate IsGoverned(users: Users) {
    users == map[] || HasAdmin(users)
  }

  lemma OthersKeepAdmin(s: System, e: Event)
    requires Allowed(s, e) && !e.UpdateWrite? && IsGoverned(s.accounts.users)
    ensures IsGoverned(Next(s, e).accounts.users)
  {
    var users, users' := s.accounts.users, Next(s, e).accounts.users;
    if users == map[] {
      if e.Setup? {
        assert IsEnabledAdmin(users'[e.newId]);
      }
    } else {
      var admin :| admin in users && IsEnabledAdmin(users[admin]);
      assert admin in users' && IsEnabledAdmin(users'[admin]);
    }
  }

  predicate AlwaysGoverned(s: System, es: seq<Event>)
    requires Legal(s, es)
    decreases es
  {
    IsGoverned(s.accounts.users) && (es == [] || AlwaysGoverned(Next(s, es[0]), es[1..]))
  }

  predicate AllWritesSafe(s: System, es: seq<Event>)
    requires Legal(s, es)
    decreases es
  {
    es == [] ||
      ((es[0].UpdateWrite? ==> IsSafeWrite(s.accounts.users, s.updates[es[0].update].pending))
       && AllWritesSafe(Next(s, es[0]), es[1..]))
  }

  lemma {:induction false} GovernedExactly(s: System, es: seq<Event>)
    requires Legal(s, es) && IsGoverned(s.accounts.users)
    ensures AlwaysGoverned(s, es) <==> AllWritesSafe(s, es)
    decreases es
  {
    if es != [] {
      var next := Next(s, es[0]);
      if es[0].UpdateWrite? {
        WriteKeepsAdminExactly(s.accounts, s.updates[es[0].update].pending, es[0].now);
        assert s.updates[es[0].update].pending.id in next.accounts.users;
      } else {
        OthersKeepAdmin(s, es[0]);
      }
      if IsGoverned(next.accounts.users) {
        GovernedExactly(next, es[1..]);
      }
    }
    hide Allowed, Next, HasAdmin, IsSafeWrite;
  }

  /** For every run, overlapping updates included: from the first user on there is an enabled administrator after every
      event exactly when every write of the run finds another one or makes one. */
  lemma AdminThroughoutExactly(es: seq<Event>)
    requires Legal(START, es)
    ensures AlwaysGoverned(START, es) <==> AllWritesSafe(START, es)
  {
    GovernedExactly(START, es);
  }

  /** An update with nothing in between; without a write when it does not pass its check. */
  function WholeUpdate(s: System, u: UpdateId, id: UserId, request: UserUpdate, now: int): seq<Event>
    requires id in s.accounts.users
  {
    [UpdateRead(u, id, request)]
    + ([UpdateCheck(u)] + if PassesCheck(s.accounts.users, PendingOf(s.accounts.users, id, request))
                          then [UpdateWrite(u, now)] else [])
  }

  lemma WholeUpdateRuns(s: System, u: UpdateId, id: UserId, request: UserUpdate, now: int)
    requires u !in s.updates && id in s.accounts.users
    ensures var es, p := WholeUpdate(s, u, id, request, now), PendingOf(s.accounts.users, id, request);
            && Legal(s, es)
            && Run(s, es) == s.(accounts := if PassesCheck(s.accounts.users, p) then WrittenBack(s.accounts, p, now)
                                            else s.accounts)
  {
    var p := PendingOf(s.accounts.users, id, request);
    hide PendingOf, WrittenBack, PassesCheck, Run, Legal;
    var s1 := Next(s, UpdateRead(u, id, request));
    RunOne(s, UpdateRead(u, id, request));
    RunOne(s1, UpdateCheck(u));
    var s2 := Next(s1, UpdateCheck(u));
    if PassesCheck(s.accounts.users, p) {
      RunOne(s2, UpdateWrite(u, now));
      assert Next(s2, UpdateWrite(u, now)).updates == s.updates;
      RunAppend(s1, [UpdateCheck(u)], [UpdateWrite(u, now)]);
      RunAppend(s, [UpdateRead(u, id, request)], [UpdateCheck(u)] + [UpdateWrite(u, now)]);
    } else {
      assert s2.updates == s.updates;
      assert [UpdateCheck(u)] + [] == [UpdateCheck(u)];
      RunAppend(s, [UpdateRead(u, id, request)], [UpdateCheck(u)]);
    }
  }

  /** Without overlap the check is enough: what has passed it on the table that is written is safe. */
  lemma WholeUpdateIsSafe(users: Users, id: UserId, request: UserUpdate)
    requires id in users && HasAdmin(users)
    ensures PassesCheck(users, PendingOf(users, id, request)) ==> IsSafeWrite(users, PendingOf(users, id, request))
  {
    var admin :| admin in users && IsEnabledAdmin(users[admin]);
    assert admin != id ==> HasOtherAdmin(users, id);
  }

  const DISABLE := UserUpdate(None, Some(false), None)

  /** Exactly these two are enabled administrators. */
  ghost predicate OnlyAdmins(users: Users, a: UserId, b: UserId) {
    a in users && b in users && a != b && forall id :: id in users ==> (IsEnabledAdmin(users[id]) <==> id in {a, b})
  }

  function Disabled(user: User): User {
    user.(enabled := false)
  }

  /** Two administrators are disabled at the same time: both checks pass before either write, and nobody is left. */
  lemma ConcurrentDisablesLeaveNobody(s: System, a: UserId, b: UserId, now: int)
    requires s.updates == map[] && OnlyAdmins(s.accounts.users, a, b)
    ensures var es := ([UpdateRead(0, a, DISABLE)] + [UpdateRead(1, b, DISABLE)])
                      + ([UpdateCheck(0)] + [UpdateCheck(1)])
                      + ([UpdateWrite(0, now)] + [UpdateWrite(1, now)]);
            Legal(s, es) && !HasAdmin(Run(s, es).accounts.users)
  {
    hide Run, Legal, HasAdmin, Revoked;
    var users := s.accounts.users;
    var p0, p1 := PendingOf(users, a, DISABLE), PendingOf(users, b, DISABLE);
    assert HasOtherAdmin(users, a) && HasOtherAdmin(users, b) by {
      assert IsEnabledAdmin(users[a]) && IsEnabledAdmin(users[b]);
    }
    RunOne(s, UpdateRead(0, a, DISABLE));
    var s1 := Next(s, UpdateRead(0, a, DISABLE));
    RunOne(s1, UpdateRead(1, b, DISABLE));
    var s2 := Next(s1, UpdateRead(1, b, DISABLE));
    RunAppend(s, [UpdateRead(0, a, DISABLE)], [UpdateRead(1, b, DISABLE)]);
    RunOne(s2, UpdateCheck(0));
    var s3 := Next(s2, UpdateCheck(0));
    RunOne(s3, UpdateCheck(1));
    var s4 := Next(s3, UpdateCheck(1));
    RunAppend(s2, [UpdateCheck(0)], [UpdateCheck(1)]);
    assert s4 == System(s.accounts, map[0 := Progress(p0, true), 1 := Progress(p1, true)]);
    RunAppend(s, [UpdateRead(0, a, DISABLE)] + [UpdateRead(1, b, DISABLE)], [UpdateCheck(0)] + [UpdateCheck(1)]);
    RunOne(s4, UpdateWrite(0, now));
    var s5 := Next(s4, UpdateWrite(0, now));
    RunOne(s5, UpdateWrite(1, now));
    RunAppend(s4, [UpdateWrite(0, now)], [UpdateWrite(1, now)]);
    RunAppend(s, ([UpdateRead(0, a, DISABLE)] + [UpdateRead(1, b, DISABLE)]) + ([UpdateCheck(0)] + [UpdateCheck(1)]),
              [UpdateWrite(0, now)] + [UpdateWrite(1, now)]);
    WriteKeepsAdminExactly(s5.accounts, p1, now);
    assert !IsSafeWrite(s5.accounts.users, p1);
  }

  /** A new password for a user, read while that user is no administrator. */
  function NewPassword(password: string): UserUpdate {
    UserUpdate(None, None, Some(password))
  }

  const PROMOTE := UserUpdate(Some(Admin), None, None)
  const DEMOTE := UserUpdate(Some(Viewer), None, None)

  /** Every check can hold at the moment of its write, and still nobody is left: an update that only sets a password has
      read its user as a viewer; the user is promoted, the other administrator demoted, and the write puts the role it
      has read back. */
  lemma StaleRoleLeavesNobody(s: System, a: UserId, b: UserId, password: string, now: int)
    requires s.updates == map[] && a in s.accounts.users && b in s.accounts.users && a != b
    requires forall id :: id in s.accounts.users ==> (IsEnabledAdmin(s.accounts.users[id]) <==> id == a)
    requires s.accounts.users[b].enabled && s.accounts.users[b].role == Viewer
    ensures exists es :: Legal(s, es) && !HasAdmin(Run(s, es).accounts.users)
  {
    hide Run, Legal, HasAdmin, Revoked, WholeUpdate;
    var users := s.accounts.users;
    assert IsEnabledAdmin(users[a]) && !IsEnabledAdmin(users[b]);
    var p := PendingOf(users, b, NewPassword(password));
    var first, last := [UpdateRead(0, b, NewPassword(password))] + [UpdateCheck(0)], [UpdateWrite(0, now)];
    RunOne(s, UpdateRead(0, b, NewPassword(password)));
    var s1 := Next(s, UpdateRead(0, b, NewPassword(password)));
    RunOne(s1, UpdateCheck(0));
    var s2 := Next(s1, UpdateCheck(0));
    RunAppend(s, [UpdateRead(0, b, NewPassword(password))], [UpdateCheck(0)]);
    assert s2 == System(s.accounts, map[0 := Progress(p, true)]) && p.role == Viewer;
    WholeUpdateRuns(s2, 1, b, PROMOTE, now);
    var promote := WholeUpdate(s2, 1, b, PROMOTE, now);
    var s3 := Run(s2, promote);
    assert s3.accounts.users == users[b := users[b].(role := Admin)];
    WholeUpdateRuns(s3, 1, a, DEMOTE, now);
    var demote := WholeUpdate(s3, 1, a, DEMOTE, now);
    var s4 := Run(s3, demote);
    assert IsEnabledAdmin(s3.accounts.users[b]) && HasOtherAdmin(s3.accounts.users, a);
    assert s4.accounts.users == s3.accounts.users[a := users[a].(role := Viewer)];
    RunOne(s4, UpdateWrite(0, now));
    WriteKeepsAdminExactly(s4.accounts, p, now);
    assert !IsSafeWrite(s4.accounts.users, p);
    RunAppend(s2, promote, demote);
    RunAppend(s2, promote + demote, last);
    RunAppend(s, first, promote + demote + last);
  }

  // ---------------------------------------------------------------- sessions

  predicate HasSession(s: System, token: Token) {
    TokenDigest(token) in s.accounts.sessions
  }

  function SessionOf(s: System, token: Token): Session
    requires HasSession(s, token)
  {
    s.accounts.sessions[TokenDigest(token)]
  }

  /** The event ends the session. */
  predicate Revokes(s: System, e: Event, token: Token)
    requires Allowed(s, e) && HasSession(s, token)
  {
    var session := SessionOf(s, token);
    match e
    case UpdateWrite(u, _) => !s.updates[u].pending.enabled && session.userId == s.updates[u].pending.id
    case Reset(id, _, _, _) => session.userId == id
    case Change(id, current, _, _) => session.userId == id && ChangesPassword(s.accounts, id, current)
    case Logout(other, _) => other == token
    case Authenticate(other, idle, now) =>
      other == token && IsLive(s.accounts, token, now) && IsIdle(session, idle, now)
    case _ => false
  }

  predicate NoneRevokes(s: System, es: seq<Event>, token: Token)
    requires Legal(s, es) && HasSession(s, token)
    decreases es
  {
    es == [] ||
      (!Revokes(s, es[0], token) && HasSession(Next(s, es[0]), token) && NoneRevokes(Next(s, es[0]), es[1..], token))
  }

  lemma SessionStep(s: System, e: Event, token: Token)
    requires Allowed(s, e) && HasSession(s, token)
    ensures var s' := Next(s, e);
            && HasSession(s', token) && SessionOf(s', token).userId == SessionOf(s, token).userId
            && SessionOf(s', token).expiresAt == SessionOf(s, token).expiresAt
            && (SessionOf(s', token).revokedAt.None? <==> SessionOf(s, token).revokedAt.None? && !Revokes(s, e, token))
  {
    assert forall other: Token :: TokenDigest(other) == TokenDigest(token) ==> other == token;
    hide PassesCheck, MayLogIn;
  }

  /** A session that is live stays so through a run exactly when no event of the run revokes it; one that is revoked
      stays revoked. Nothing else touches its owner or its expiry. */
  lemma {:induction false} LiveExactly(s: System, es: seq<Event>, token: Token)
    requires Legal(s, es) && HasSession(s, token)
    ensures var s' := Run(s, es);
            && HasSession(s', token) && SessionOf(s', token).userId == SessionOf(s, token).userId
            && SessionOf(s', token).expiresAt == SessionOf(s, token).expiresAt
            && (SessionOf(s', token).revokedAt.None? <==>
                  SessionOf(s, token).revokedAt.None? && NoneRevokes(s, es, token))
    decreases es
  {
    if es != [] {
      SessionStep(s, es[0], token);
      LiveExactly(Next(s, es[0]), es[1..], token);
    }
    hide Next, Allowed, SessionOf, HasSession, Revokes;
  }

  /** A session that exists when its user is disabled, has the password reset, or changes the password, or that is
      logged out or found idle, never authenticates again, whatever happens later, including enabling the user again. */
  lemma EndedForGood(s: System, e: Event, es: seq<Event>, token: Token, idle: Option<int>, now: int)
    requires Allowed(s, e) && Legal(Next(s, e), es) && HasSession(s, token) && Revokes(s, e, token)
    ensures !Authenticates(Run(Next(s, e), es).accounts, token, idle, now)
  {
    SessionStep(s, e, token);
    LiveExactly(Next(s, e), es, token);
    hide Run, Next, Legal, Allowed, Revokes, NoneRevokes;
  }

  /** A session authenticates exactly until its time is over, it is idle for too long, its user is disabled, or an event
      of the run has revoked it. */
  lemma LoginLastsExactly(s: System, e: Event, es: seq<Event>, idle: Option<int>, now: int)
    requires e.Login? && Allowed(s, e) && Legal(Next(s, e), es)
    ensures var later := Run(Next(s, e), es);
            && HasSession(Next(s, e), e.newToken) && HasSession(later, e.newToken)
            && (Authenticates(later.accounts, e.newToken, idle, now) <==>
                  && NoneRevokes(Next(s, e), es, e.newToken) && now < e.now + e.ttlSecs
                  && e.id in later.accounts.users && later.accounts.users[e.id].enabled
                  && (idle.None? || now <= SessionOf(later, e.newToken).lastSeenAt + idle.value))
  {
    LiveExactly(Next(s, e), es, e.newToken);
    hide Run, Legal, NoneRevokes, MayLogIn;
  }

  // ---------------------------------------------------------------- passwords

  /** The event gives the user this password. */
  predicate SetsPassword(s: System, e: Event, id: UserId, password: string)
    requires Allowed(s, e)
  {
    match e
    case Setup(_, given, newId, _) => s.accounts.users == map[] && newId == id && given == password
    case Create(username, given, _, newId, _) =>
      !NameUsed(s.accounts.users, Trim(username)) && newId == id && given == password
    case UpdateWrite(u, _) => s.updates[u].pending.id == id && s.updates[u].pending.password == Some(password)
    case Reset(user, given, _, _) => user == id && given == password
    case Change(user, current, given, _) =>
      user == id && given == password && ChangesPassword(s.accounts, user, current)
    case _ => false
  }

  ghost predicate NoneSetsPassword(s: System, es: seq<Event>, id: UserId)
    requires Legal(s, es)
    decreases es
  {
    es == [] ||
      ((forall password :: !SetsPassword(s, es[0], id, password)) && NoneSetsPassword(Next(s, es[0]), es[1..], id))
  }

  lemma PasswordSet(s: System, e: Event, id: UserId, password: string)
    requires Allowed(s, e) && SetsPassword(s, e, id, password)
    ensures id in Next(s, e).accounts.users
    ensures Next(s, e).accounts.users[id].passwordHash == PasswordDigest(password)
  {
  }

  lemma PasswordKept(s: System, e: Event, id: UserId)
    requires Allowed(s, e) && id in s.accounts.users && forall password :: !SetsPassword(s, e, id, password)
    ensures id in Next(s, e).accounts.users
    ensures Next(s, e).accounts.users[id].passwordHash == s.accounts.users[id].passwordHash
    ensures Next(s, e).accounts.users[id].username == s.accounts.users[id].username
  {
    hide MayLogIn, PassesCheck, Revoked, Trim;
    match e
    case UpdateWrite(u, _) =>
      if s.updates[u].pending.password.Some? {
        assert !SetsPassword(s, e, id, s.updates[u].pending.password.value);
      }
    case Setup(_, given, _, _) => assert !SetsPassword(s, e, id, given);
    case Create(_, given, _, _, _) => assert !SetsPassword(s, e, id, given);
    case Reset(_, given, _, _) => assert !SetsPassword(s, e, id, given);
    case Change(_, _, given, _) => assert !SetsPassword(s, e, id, given);
    case _ =>
  }

  lemma {:induction false} PasswordStays(s: System, es: seq<Event>, id: UserId)
    requires Legal(s, es) && id in s.accounts.users && NoneSetsPassword(s, es, id)
    ensures id in Run(s, es).accounts.users
    ensures Run(s, es).accounts.users[id].passwordHash == s.accounts.users[id].passwordHash
    ensures Run(s, es).accounts.users[id].username == s.accounts.users[id].username
    decreases es
  {
    hide Next, Allowed, SetsPassword;
    if es != [] {
      PasswordKept(s, es[0], id);
      PasswordStays(Next(s, es[0]), es[1..], id);
    }
  }

  /** In every run exactly the password that was set last logs an enabled user in. */
  lemma LatestPasswordOnly(s: System, e: Event, es: seq<Event>, id: UserId, password: string, username: string,
                           given: string, now: int)
    requires Allowed(s, e) && SetsPassword(s, e, id, password)
    requires Legal(Next(s, e), es) && NoneSetsPassword(Next(s, e), es, id)
    ensures var users := Run(Next(s, e), es).accounts.users;
            && id in users
            && (MayLogIn(users[id], username, given, None, now) <==>
                  Trim(username) == users[id].username && users[id].enabled && given == password)
  {
    PasswordSet(s, e, id, password);
    PasswordStays(Next(s, e), es, id);
    assert PasswordDigest(given) == PasswordDigest(password) ==> given == password;
    hide Run, Next, Legal, Trim;
  }

  /** An administrator who sets a new password in an update of an enabled user does not end the user's sessions. */
  lemma UpdateWithPasswordKeepsSessions(s: State, id: UserId, password: string, token: Token, idle: Option<int>,
                                        now: int)
    requires Authenticates(s, token, idle, now) && s.sessions[TokenDigest(token)].userId == id
    ensures var p := PendingOf(s.users, id, NewPassword(password));
            && PassesCheck(s.users, p) && Authenticates(WrittenBack(s, p, now), token, idle, now)
            && WrittenBack(s, p, now).users[id].passwordHash == PasswordDigest(password)
  {
  }
}
