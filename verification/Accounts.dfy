/** Users, their passwords, and their sessions. */
module Accounts {
  import opened Options
  import opened Text

  type UserId = string
  type Token = string

  /** Digests stand for what they were made from. */
  datatype TokenDigest = TokenDigest(token: Token)

  datatype PasswordDigest = PasswordDigest(password: string)

  datatype Role = Admin | Operator | Viewer

  datatype User = User(username: string, passwordHash: PasswordDigest, role: Role, enabled: bool,
                       passwordChangedAt: int, mustChangePassword: bool)

  datatype Session = Session(userId: UserId, lastSeenAt: int, expiresAt: int, revokedAt: Option<int>)

  type Users = map<UserId, User>
  type Sessions = map<TokenDigest, Session>

  /** An update; absent fields stay as they are. */
  datatype UserUpdate = UserUpdate(role: Option<Role>, enabled: Option<bool>, password: Option<string>)

  datatype State = State(users: Users, sessions: Sessions)

  predicate NameUsed(users: Users, username: string) {
    exists id :: id in users && users[id].username == username
  }

  predicate UniqueNames(users: Users) {
    forall id, other :: id in users && other in users && users[id].username == users[other].username ==> id == other
  }

  predicate IsEnabledAdmin(user: User) {
    user.role == Admin && user.enabled
  }

  predicate HasAdmin(users: Users) {
    exists id :: id in users && IsEnabledAdmin(users[id])
  }

  predicate HasOtherAdmin(users: Users, id: UserId) {
    exists other :: other in users && other != id && IsEnabledAdmin(users[other])
  }

  function NewUser(username: string, password: string, role: Role, now: int): User {
    User(Trim(username), PasswordDigest(password), role, true, now, false)
  }

  function RoleAfter(user: User, update: UserUpdate): Role {
    update.role.GetOr(user.role)
  }

  function EnabledAfter(user: User, update: UserUpdate): bool {
    update.enabled.GetOr(user.enabled)
  }

  /** What an update carries from its first statement to its last: the role and the flag are those of the row it has
      read, unless the request gives others; `guarded` says that they take an administrator away. */
  datatype Pending = Pending(id: UserId, role: Role, enabled: bool, password: Option<string>, guarded: bool)

  function PendingOf(users: Users, id: UserId, update: UserUpdate): Pending
    requires id in users
  {
    var role, enabled := RoleAfter(users[id], update), EnabledAfter(users[id], update);
    Pending(id, role, enabled, update.password, users[id].role == Admin && (!enabled || role != Admin))
  }

  /** An administrator is not disabled or demoted unless another enabled administrator is there. */
  predicate PassesCheck(users: Users, p: Pending) {
    p.guarded ==> HasOtherAdmin(users, p.id)
  }

  /** Every live session of the user is revoked. */
  function Revoked(sessions: Sessions, id: UserId, now: int): Sessions {
    map t | t in sessions ::
      if sessions[t].userId == id && sessions[t].revokedAt.None? then sessions[t].(revokedAt := Some(now))
      else sessions[t]
  }

  /** The last statements of an update: the carried role and flag are written, whatever the row says by now. */
  function WrittenBack(s: State, p: Pending, now: int): State
    requires p.id in s.users
  {
    var user := s.users[p.id].(role := p.role, enabled := p.enabled);
    State(s.users[p.id := if p.password.None? then user
                          else user.(passwordHash := PasswordDigest(p.password.value), passwordChangedAt := now,
                                     mustChangePassword := true)],
          if p.enabled then s.sessions else Revoked(s.sessions, p.id, now))
  }

  predicate MayLogIn(user: User, username: string, password: string, expiresDays: Option<int>, now: int) {
    && user.username == Trim(username) && user.enabled && user.passwordHash == PasswordDigest(password)
    && (expiresDays.Some? && user.passwordChangedAt > 0 ==> now - user.passwordChangedAt <= expiresDays.value * 86_400)
  }

  /** The session is live and its user enabled. */
  predicate IsLive(s: State, token: Token, now: int) {
    var t := TokenDigest(token);
    && t in s.sessions && s.sessions[t].revokedAt.None? && s.sessions[t].expiresAt > now
    && s.sessions[t].userId in s.users && s.users[s.sessions[t].userId].enabled
  }

  predicate IsIdle(session: Session, idleTimeoutSecs: Option<int>, now: int) {
    idleTimeoutSecs.Some? && now - session.lastSeenAt > idleTimeoutSecs.value
  }

  predicate Authenticates(s: State, token: Token, idleTimeoutSecs: Option<int>, now: int) {
    IsLive(s, token, now) && !IsIdle(s.sessions[TokenDigest(token)], idleTimeoutSecs, now)
  }

  function Authenticated(s: State, token: Token, idleTimeoutSecs: Option<int>, now: int): State {
    var t := TokenDigest(token);
    if !IsLive(s, token, now) then s
    else if IsIdle(s.sessions[t], idleTimeoutSecs, now)
         then s.(sessions := s.sessions[t := s.sessions[t].(revokedAt := Some(now))])
    else s.(sessions := s.sessions[t := s.sessions[t].(lastSeenAt := now)])
  }

  /** A new password set by its owner or by a reset; every session of the user ends. */
  function WithPassword(s: State, id: UserId, password: string, mustChange: bool, now: int): State
    requires id in s.users
  {
    State(s.users[id := s.users[id].(passwordHash := PasswordDigest(password), passwordChangedAt := now,
                                     mustChangePassword := mustChange)],
          Revoked(s.sessions, id, now))
  }

  // ---------------------------------------------------------------- the same, spelled out for callers

  /** The sessions of the user that were live are revoked at `now`; nothing else changes. */
  ghost predicate EndsSessionsOf(after: Sessions, before: Sessions, id: UserId, now: int) {
    && (forall t :: t in after <==> t in before)
    && (forall t :: t in before ==>
          after[t] == if before[t].userId == id && before[t].revokedAt.None?
                      then Session(id, before[t].lastSeenAt, before[t].expiresAt, Some(now)) else before[t])
  }

  /** The user is an administrator whom the update would demote, disable, or leave disabled. */
  ghost predicate TakesAdminAway(user: User, update: UserUpdate) {
    && user.role == Admin
    && (update.role in {Some(Operator), Some(Viewer)} || update.enabled == Some(false)
        || (update.enabled.None? && !user.enabled))
  }

  /** The row after an update: role and flag as requested or else as they were read, the name as it is in the table, and
      a new password, if one is given, that has to be changed. */
  ghost predicate IsUpdated(row: User, inTable: User, read: User, update: UserUpdate, now: int) {
    && row.username == inTable.username
    && (match update.role case Some(role) => row.role == role case None => row.role == read.role)
    && (match update.enabled case Some(enabled) => row.enabled == enabled case None => row.enabled == read.enabled)
    && (match update.password
        case Some(password) =>
          row.passwordHash == PasswordDigest(password) && row.passwordChangedAt == now && row.mustChangePassword
        case None =>
          && row.passwordHash == inTable.passwordHash && row.passwordChangedAt == inTable.passwordChangedAt
          && row.mustChangePassword == inTable.mustChangePassword)
  }

  /** An update goes ahead exactly unless it takes an administrator away and no other enabled one is there. */
  lemma CheckOutcome(users: Users, atCheck: Users, id: UserId, update: UserUpdate)
    requires id in users
    ensures PassesCheck(atCheck, PendingOf(users, id, update)) <==>
              || !TakesAdminAway(users[id], update)
              || exists other :: other in atCheck && other != id && atCheck[other].role == Admin
                                 && atCheck[other].enabled
  {
  }

  /** What it writes, and which sessions it ends. */
  lemma UpdateOutcome(users: Users, atWrite: State, id: UserId, update: UserUpdate, now: int)
    requires id in users && id in atWrite.users
    ensures var after := WrittenBack(atWrite, PendingOf(users, id, update), now);
            && id in after.users && after.users == atWrite.users[id := after.users[id]]
            && IsUpdated(after.users[id], atWrite.users[id], users[id], update, now)
            && (if after.users[id].enabled then after.sessions == atWrite.sessions
                else EndsSessionsOf(after.sessions, atWrite.sessions, id, now))
  {
  }

  /** The user is enabled, this is the password, and it is not older than it may be. */
  ghost predicate Admits(user: User, password: string, expiresDays: Option<int>, now: int) {
    && user.enabled && user.passwordHash == PasswordDigest(password)
    && (expiresDays.None? || user.passwordChangedAt <= 0
        || now <= user.passwordChangedAt + 86400 * expiresDays.value)
  }

  lemma LogsInExactly(user: User, username: string, password: string, expiresDays: Option<int>, now: int)
    ensures MayLogIn(user, username, password, expiresDays, now) <==>
              user.username == Trim(username) && Admits(user, password, expiresDays, now)
  {
    hide Trim;
  }

  /** The session was not revoked and has not expired, its user is enabled, and it was not idle for too long. */
  ghost predicate IsCurrent(s: State, session: Session, idleTimeoutSecs: Option<int>, now: int) {
    && session.revokedAt.None? && now < session.expiresAt
    && session.userId in s.users && s.users[session.userId].enabled
    && (idleTimeoutSecs.None? || now <= session.lastSeenAt + idleTimeoutSecs.value)
  }

  class AccountStore {
    var users: Users
    var sessions: Sessions

    function Contents(): State
      reads this
    {
      State(users, sessions)
    }

    constructor ()
      ensures Contents() == State(map[], map[])
    {
      users, sessions := map[], map[];
    }

    method SetupInitialAdmin(username: string, password: string, newId: UserId, now: int) returns (created: bool)
      modifies this
      ensures created <==> old(users) == map[]
      ensures created ==> users == map[newId := User(Trim(username), PasswordDigest(password), Admin, true, now, false)]
      ensures Contents() == if created then State(map[newId := NewUser(username, password, Admin, now)], old(sessions))
                            else old(Contents())
    {
      if |users| > 0 {
        return false;
      }
      users := users[newId := User(Trim(username), PasswordDigest(password), Admin, true, now, false)];
      created := true;
    }

    method CreateUser(username: string, password: string, role: Role, newId: UserId, now: int) returns (created: bool)
      modifies this
      ensures created <==> !NameUsed(old(users), Trim(username))
      ensures created <==> forall id :: id in old(users) ==> old(users)[id].username != Trim(username)
      ensures created ==>
                users == old(users)[newId := User(Trim(username), PasswordDigest(password), role, true, now, false)]
      ensures Contents() == if created then State(old(users)[newId := NewUser(username, password, role, now)],
                                                  old(sessions))
                            else old(Contents())
    {
      if exists id :: id in users && users[id].username == Trim(username) {
        return false;
      }
      users := users[newId := User(Trim(username), PasswordDigest(password), role, true, now, false)];
      created := true;
    }

    /** `atCheck` and `atWrite` are the tables as other requests have left them when the administrators are counted and
        when the row is written; no user is ever deleted. */
    method UpdateUser(id: UserId, update: UserUpdate, atCheck: Users, atWrite: State, now: int) returns (done: bool)
      requires id in users ==> id in atWrite.users
      modifies this
      ensures done <==> id in old(users) && PassesCheck(atCheck, PendingOf(old(users), id, update))
      ensures Contents() == if done then WrittenBack(atWrite, PendingOf(old(users), id, update), now)
                            else old(Contents())
    {
      if id !in users {
        return false;
      }
      var existing := users[id];
      var role := if update.role.Some? then update.role.value else existing.role;
      var enabled := if update.enabled.Some? then update.enabled.value else existing.enabled;
      if existing.role == Admin && (!enabled || role != Admin) {
        var others := set other | other in atCheck && other != id &&
                                  atCheck[other].role == Admin && atCheck[other].enabled;
        assert forall other :: other in others <==> other in atCheck && other != id && IsEnabledAdmin(atCheck[other]);
        assert HasOtherAdmin(atCheck, id) <==> others != {};
        if |others| == 0 {
          return false;
        }
      }
      users, sessions := atWrite.users, atWrite.sessions;
      if update.password.Some? {
        users := users[id := users[id].(passwordHash := PasswordDigest(update.password.value), role := role,
                                        enabled := enabled, passwordChangedAt := now, mustChangePassword := true)];
      } else {
        users := users[id := users[id].(role := role, enabled := enabled)];
      }
      if !enabled {
        RevokeSessionsOf(id, now);
      }
      done := true;
    }

    method RevokeSessionsOf(id: UserId, now: int)
      modifies this`sessions
      ensures sessions == Revoked(old(sessions), id, now)
    {
      sessions := map t | t in sessions ::
        if sessions[t].userId == id && sessions[t].revokedAt == None then sessions[t].(revokedAt := Some(now))
        else sessions[t];
    }

    method LoginUser(username: string, password: string, newToken: Token, ttlSecs: int, expiresDays: Option<int>,
                     now: int)
      returns (user: Option<UserId>)
      requires UniqueNames(users)
      modifies this`sessions
      ensures user.Some? ==> user.value in users && MayLogIn(users[user.value], username, password, expiresDays, now)
      ensures user.None? ==> forall id :: id in users ==> !MayLogIn(users[id], username, password, expiresDays, now)
      ensures user.Some? ==> users[user.value].username == Trim(username)
                             && Admits(users[user.value], password, expiresDays, now)
      ensures user.None? ==> forall id :: id in users && users[id].username == Trim(username) ==>
                               !Admits(users[id], password, expiresDays, now)
      ensures sessions == if user.Some?
                          then old(sessions)[TokenDigest(newToken) := Session(user.value, now, now + ttlSecs, None)]
                          else old(sessions)
    {
      if !exists id :: id in users && users[id].username == Trim(username) {
        return None;
      }
      var id :| id in users && users[id].username == Trim(username);
      if !users[id].enabled || PasswordDigest(password) != users[id].passwordHash {
        return None;
      }
      if expiresDays.Some? {
        var changedAt := users[id].passwordChangedAt;
        if changedAt > 0 && now - changedAt > expiresDays.value * 86_400 {
          return None;
        }
      }
      sessions := sessions[TokenDigest(newToken) := Session(id, now, now + ttlSecs, None)];
      user := Some(id);
    }

    method AuthenticateSession(token: Token, idleTimeoutSecs: Option<int>, now: int) returns (user: Option<UserId>)
      modifies this`sessions
      ensures user.Some? <==> Authenticates(old(Contents()), token, idleTimeoutSecs, now)
      ensures user.Some? <==>
                TokenDigest(token) in old(sessions) &&
                IsCurrent(old(Contents()), old(sessions)[TokenDigest(token)], idleTimeoutSecs, now)
      ensures user.Some? ==>
                sessions == old(sessions)[TokenDigest(token) :=
                                          old(sessions)[TokenDigest(token)].(lastSeenAt := now)]
      ensures user.None? && (TokenDigest(token) !in old(sessions)
                             || !IsCurrent(old(Contents()), old(sessions)[TokenDigest(token)], None, now)) ==>
                sessions == old(sessions)
      ensures user.None? && TokenDigest(token) in old(sessions)
              && IsCurrent(old(Contents()), old(sessions)[TokenDigest(token)], None, now) ==>
                sessions == old(sessions)[TokenDigest(token) :=
                                          old(sessions)[TokenDigest(token)].(revokedAt := Some(now))]
      ensures user.Some? ==> user.value == old(sessions)[TokenDigest(token)].userId
      ensures Contents() == Authenticated(old(Contents()), token, idleTimeoutSecs, now)
    {
      var t := TokenDigest(token);
      if t !in sessions || sessions[t].revokedAt != None || sessions[t].expiresAt <= now
         || sessions[t].userId !in users || !users[sessions[t].userId].enabled {
        return None;
      }
      if idleTimeoutSecs.Some? {
        var lastSeenAt := sessions[t].lastSeenAt;
        if now - lastSeenAt > idleTimeoutSecs.value {
          sessions := sessions[t := sessions[t].(revokedAt := Some(now))];
          return None;
        }
      }
      sessions := sessions[t := sessions[t].(lastSeenAt := now)];
      user := Some(sessions[t].userId);
    }

    method ResetUserPassword(username: string, password: string, forceChange: bool, now: int)
      returns (user: Option<UserId>)
      modifies this
      ensures user.None? <==> !NameUsed(old(users), Trim(username))
      ensures user.Some? ==> user.value in old(users) && old(users)[user.value].username == Trim(username)
      ensures Contents() == if user.Some? then WithPassword(old(Contents()), user.value, password, forceChange, now)
                            else old(Contents())
      ensures user.None? <==> forall id :: id in old(users) ==> old(users)[id].username != Trim(username)
      ensures user.Some? ==>
                && users == old(users)[user.value :=
                                       old(users)[user.value].(passwordHash := PasswordDigest(password),
                                                               passwordChangedAt := now,
                                                               mustChangePassword := forceChange)]
                && EndsSessionsOf(sessions, old(sessions), user.value, now)
    {
      if !exists id :: id in users && users[id].username == Trim(username) {
        return None;
      }
      var id :| id in users && users[id].username == Trim(username);
      users := users[id := users[id].(passwordHash := PasswordDigest(password), passwordChangedAt := now,
                                      mustChangePassword := forceChange)];
      RevokeSessionsOf(id, now);
      user := Some(id);
    }

    method ChangeUserPassword(id: UserId, current: string, password: string, now: int) returns (changed: bool)
      modifies this
      ensures changed <==>
                id in old(users) && old(users)[id].enabled && old(users)[id].passwordHash == PasswordDigest(current)
      ensures Contents() == if changed then WithPassword(old(Contents()), id, password, false, now) else old(Contents())
      ensures changed ==>
                && users == old(users)[id := old(users)[id].(passwordHash := PasswordDigest(password),
                                                             passwordChangedAt := now, mustChangePassword := false)]
                && EndsSessionsOf(sessions, old(sessions), id, now)
    {
      if id !in users || !users[id].enabled {
        return false;
      }
      if PasswordDigest(current) != users[id].passwordHash {
        return false;
      }
      users := users[id := users[id].(passwordHash := PasswordDigest(password), passwordChangedAt := now,
                                      mustChangePassword := false)];
      RevokeSessionsOf(id, now);
      changed := true;
    }

    method RevokeSession(token: Token, now: int)
      modifies this`sessions
      ensures sessions == var t := TokenDigest(token);
                          if t in old(sessions) then old(sessions)[t := old(sessions)[t].(revokedAt := Some(now))]
                          else old(sessions)
    {
      var t := TokenDigest(token);
      if t in sessions {
        sessions := sessions[t := sessions[t].(revokedAt := Some(now))];
      }
    }
  }
}
