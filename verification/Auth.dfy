/** Signup, login, logout and session validation over in-memory repositories, with
    every state change written through the audit service. */
module Auth {
  import opened Wrappers
  import opened Texts
  import opened Utf8
  import opened Hex
  import opened Json
  import opened Decimals
  import opened Trimming
  import opened AuditHash
  import opened AuditChain
  import opened Password

  datatype UserAccountRecord =
    UserAccountRecord(id: Text, email: Text, authCredentialRef: Text, status: Text)

  datatype SessionRecord =
    SessionRecord(id: Text, userId: Text, sessionTokenHash: Text, expiresAt: int, revokedAt: Option<int>)

  /** What one call draws from outside: the clock, random ids, a token, a salt. */
  datatype Ambient =
    Ambient(now: int, isoNow: Text, userId: Text, sessionId: Text, token: Text, salt: Bytes)

  datatype Credentials =
    Credentials(email: Text, password: Text, ipAddress: Option<Text>, userAgent: Option<Text>)

  datatype PublicUser = PublicUser(id: Text, email: Text)

  datatype AuthResult = AuthResult(user: PublicUser, token: Text, expiresAt: int)

  datatype Validated = Validated(user: PublicUser, sessionId: Text)

  datatype AuthError = BadPasswordLength | EmailTaken | InvalidCredentials | NoActiveSession | KdfRejected

  /** The deployment: digest, secret and key table; key derivation and pepper; lifetime
      of a session. */
  datatype Config = Config(scheme: Scheme, kdf: Kdf, pepper: Text, sessionTtlMs: int)

  const MIN_PASSWORD_LENGTH := 8
  const MAX_PASSWORD_LENGTH := 256

  // ---------------------------------------------------------------- emails

  /** `toLowerCase`, for the letters A to Z. */
  function ToLower(t: Text): (lower: Text)
    ensures |lower| == |t| && forall i | 0 <= i < |t| :: lower[i] == Lower(t[i])
  {
    seq(|t|, i requires 0 <= i < |t| => Lower(t[i]))
  }

  function NormalizeEmail(email: Text): Text {
    ToLower(Trim(email))
  }

  /** Normalising twice is normalising once. */
  lemma NormalizeIdempotent(email: Text)
    ensures NormalizeEmail(NormalizeEmail(email)) == NormalizeEmail(email)
  {
    TrimStartEnds(email);
    TrimEndEnds(TrimStart(email));
    var lower := NormalizeEmail(email);
    TrimPlain(lower);
    assert ToLower(lower) == lower;
  }

  // ---------------------------------------------------------------- repositories

  /** The first user with this email, in insertion order. */
  function UserByEmail(users: seq<UserAccountRecord>, email: Text): (r: Option<UserAccountRecord>)
    ensures r.Some? ==> r.value in users && r.value.email == email
    ensures r.None? ==> forall u | u in users :: u.email != email
  {
    if users == [] then None
    else if users[0].email == email then Some(users[0])
    else UserByEmail(users[1..], email)
  }

  function UserById(users: seq<UserAccountRecord>, id: Text): (r: Option<UserAccountRecord>)
    ensures r.Some? ==> r.value in users && r.value.id == id
    ensures r.None? ==> forall u | u in users :: u.id != id
  {
    if users == [] then None
    else if users[0].id == id then Some(users[0])
    else UserById(users[1..], id)
  }

  /** `Map.set`: a new id goes last, a known one is overwritten where it stands. */
  function PutUser(users: seq<UserAccountRecord>, user: UserAccountRecord): seq<UserAccountRecord> {
    if users == [] then [user]
    else if users[0].id == user.id then [user] + users[1..]
    else [users[0]] + PutUser(users[1..], user)
  }

  function SessionByHash(sessions: seq<SessionRecord>, hash: Text): (r: Option<SessionRecord>)
    ensures r.Some? ==> r.value in sessions && r.value.sessionTokenHash == hash
    ensures r.None? ==> forall s | s in sessions :: s.sessionTokenHash != hash
  {
    if sessions == [] then None
    else if sessions[0].sessionTokenHash == hash then Some(sessions[0])
    else SessionByHash(sessions[1..], hash)
  }

  function PutSession(sessions: seq<SessionRecord>, session: SessionRecord): seq<SessionRecord> {
    if sessions == [] then [session]
    else if sessions[0].id == session.id then [session] + sessions[1..]
    else [sessions[0]] + PutSession(sessions[1..], session)
  }

  /** Revocation of the session with this id, if there is one. */
  function Revoked(sessions: seq<SessionRecord>, id: Text, now: int): seq<SessionRecord> {
    if sessions == [] then []
    else if sessions[0].id == id then [sessions[0].(revokedAt := Some(now))] + sessions[1..]
    else [sessions[0]] + Revoked(sessions[1..], id, now)
  }

  lemma {:induction false} PutNewUser(users: seq<UserAccountRecord>, user: UserAccountRecord)
    requires forall u | u in users :: u.id != user.id
    ensures PutUser(users, user) == users + [user]
  {
    if users != [] {
      assert users[0] in users && forall u | u in users[1..] :: u in users;
      PutNewUser(users[1..], user);
    }
  }

  lemma {:induction false} PutUserMembers(users: seq<UserAccountRecord>, user: UserAccountRecord)
    ensures user in PutUser(users, user)
    ensures forall u: UserAccountRecord | u.id != user.id :: u in PutUser(users, user) <==> u in users
  {
    if users != [] {
      assert users == [users[0]] + users[1..];
      PutUserMembers(users[1..], user);
    }
  }

  lemma {:induction false} PutNewSession(sessions: seq<SessionRecord>, session: SessionRecord)
    requires forall s | s in sessions :: s.id != session.id
    ensures PutSession(sessions, session) == sessions + [session]
  {
    if sessions != [] {
      assert sessions[0] in sessions && forall s | s in sessions[1..] :: s in sessions;
      PutNewSession(sessions[1..], session);
    }
  }

  lemma {:induction false} PutSessionMembers(sessions: seq<SessionRecord>, session: SessionRecord)
    ensures session in PutSession(sessions, session)
    ensures forall s: SessionRecord | s.id != session.id :: s in PutSession(sessions, session) <==> s in sessions
  {
    if sessions != [] {
      assert sessions == [sessions[0]] + sessions[1..];
      PutSessionMembers(sessions[1..], session);
    }
  }

  ghost predicate DistinctSessions(sessions: seq<SessionRecord>) {
    forall i, j | 0 <= i < j < |sessions| :: sessions[i].id != sessions[j].id
  }

  /** As ids are the keys of the map, revocation changes the one session with the id. */
  lemma {:induction false} RevokedAlone(sessions: seq<SessionRecord>, id: Text, now: int)
    requires DistinctSessions(sessions)
    ensures |Revoked(sessions, id, now)| == |sessions|
    ensures forall i | 0 <= i < |sessions| :: Revoked(sessions, id, now)[i] ==
              if sessions[i].id == id then sessions[i].(revokedAt := Some(now)) else sessions[i]
  {
    if sessions != [] && sessions[0].id != id {
      RevokedAlone(sessions[1..], id, now);
    }
  }

  class InMemoryUserAccountRepository {
    /** The values of the `byId` map, in insertion order; ids are its keys. */
    var byId: seq<UserAccountRecord>

    constructor ()
      ensures byId == []
    {
      byId := [];
    }

    method FindByEmail(email: Text) returns (user: Option<UserAccountRecord>)
      ensures user == UserByEmail(byId, email)
    {
      for i := 0 to |byId|
        invariant UserByEmail(byId, email) == UserByEmail(byId[i..], email)
      {
        assert byId[i..][1..] == byId[i + 1..];
        if byId[i].email == email {
          return Some(byId[i]);
        }
      }
      return None;
    }

    method FindById(id: Text) returns (user: Option<UserAccountRecord>)
      ensures user == UserById(byId, id)
    {
      user := UserById(byId, id);
    }

    method Insert(id: Text, email: Text, authCredentialRef: Text) returns (user: UserAccountRecord)
      modifies this
      ensures user == UserAccountRecord(id, email, authCredentialRef, Units("active"))
      ensures byId == PutUser(old(byId), user)
      ensures user in byId && forall u: UserAccountRecord | u.id != id :: u in byId <==> u in old(byId)
      ensures (forall u | u in old(byId) :: u.id != id) ==> byId == old(byId) + [user]
    {
      user := UserAccountRecord(id, email, authCredentialRef, Units("active"));
      PutUserMembers(byId, user);
      if forall u | u in byId :: u.id != id {
        PutNewUser(byId, user);
      }
      byId := PutUser(byId, user);
    }
  }

  class InMemorySessionRepository {
    /** The values of the `byId` map, in insertion order; ids are its keys. */
    var byId: seq<SessionRecord>

    constructor ()
      ensures byId == []
    {
      byId := [];
    }

    method Insert(id: Text, userId: Text, sessionTokenHash: Text, expiresAt: int) returns (session: SessionRecord)
      modifies this
      ensures session == SessionRecord(id, userId, sessionTokenHash, expiresAt, None)
      ensures byId == PutSession(old(byId), session)
      ensures session in byId && forall s: SessionRecord | s.id != id :: s in byId <==> s in old(byId)
      ensures (forall s | s in old(byId) :: s.id != id) ==> byId == old(byId) + [session]
    {
      session := SessionRecord(id, userId, sessionTokenHash, expiresAt, None);
      PutSessionMembers(byId, session);
      if forall s | s in byId :: s.id != id {
        PutNewSession(byId, session);
      }
      byId := PutSession(byId, session);
    }

    method FindByTokenHash(hash: Text) returns (session: Option<SessionRecord>)
      ensures session == SessionByHash(byId, hash)
    {
      for i := 0 to |byId|
        invariant SessionByHash(byId, hash) == SessionByHash(byId[i..], hash)
      {
        assert byId[i..][1..] == byId[i + 1..];
        if byId[i].sessionTokenHash == hash {
          return Some(byId[i]);
        }
      }
      return None;
    }

    method Revoke(id: Text, now: int)
      modifies this
      ensures byId == Revoked(old(byId), id, now)
      ensures DistinctSessions(old(byId)) ==>
        && |byId| == |old(byId)|
        && forall i | 0 <= i < |byId| ::
             byId[i] == if old(byId)[i].id == id then old(byId)[i].(revokedAt := Some(now)) else old(byId)[i]
    {
      if DistinctSessions(byId) {
        RevokedAlone(byId, id, now);
      }
      byId := Revoked(byId, id, now);
    }
  }

  // ---------------------------------------------------------------- the service as steps

  datatype AuthState =
    AuthState(users: seq<UserAccountRecord>, sessions: seq<SessionRecord>, log: Log, nextId: nat)

  function HashToken(scheme: Scheme, token: Text): Text {
    ToHex(scheme.sha256(Encode(token)))
  }

  function Nullable(t: Option<Text>): Json {
    if t.Some? then String(t.value) else Null
  }

  /** `userAgent ? { userAgent } : null`: the empty string counts as absent. */
  function DeviceInfo(userAgent: Option<Text>): Json {
    if userAgent.Some? && userAgent.value != [] then Object([Member(Units("userAgent"), String(userAgent.value))])
    else Null
  }

  /** The payload the service records for an action. */
  function AuditPayload(actor: Option<Text>, action: string, occurredAt: Text, ipAddress: Option<Text>,
                        deviceInfo: Json, newValue: Json): JsObject {
    [ Member(Units("actorUserId"), Nullable(actor)),
      Member(Units("actorRole"), String(Units("personal_user"))),
      Member(Units("profileKind"), Null),
      Member(Units("profileId"), Null),
      Member(Units("agreementId"), Null),
      Member(Units("action"), String(Units(action))),
      Member(Units("occurredAt"), String(occurredAt)),
      Member(Units("ipAddress"), Nullable(ipAddress)),
      Member(Units("deviceInfo"), deviceInfo),
      Member(Units("previousValue"), Null),
      Member(Units("newValue"), newValue),
      Member(Units("reason"), Null),
      Member(Units("authStrength"), String(Units("basic"))),
      Member(Units("relatedDocumentId"), Null),
      Member(Units("relatedCaseId"), Null) ]
  }

  function SignupPayload(user: UserAccountRecord, input: Credentials, env: Ambient): JsObject {
    AuditPayload(Some(user.id), "user_signup", env.isoNow, input.ipAddress, DeviceInfo(input.userAgent),
                 Object([Member(Units("email"), String(user.email))]))
  }

  function LoginPayload(user: UserAccountRecord, input: Credentials, env: Ambient): JsObject {
    AuditPayload(Some(user.id), "login_succeeded", env.isoNow, input.ipAddress, DeviceInfo(input.userAgent), Null)
  }

  function FailedLoginPayload(user: Option<UserAccountRecord>, input: Credentials, env: Ambient): JsObject {
    AuditPayload(if user.Some? then Some(user.value.id) else None, "login_failed", env.isoNow,
                 input.ipAddress, DeviceInfo(input.userAgent), Null)
  }

  function LogoutPayload(userId: Text, env: Ambient): JsObject {
    AuditPayload(Some(userId), "logout", env.isoNow, None, Null, Null)
  }

  function Recorded(cfg: Config, s: AuthState, payload: JsObject): AuthState {
    s.(log := s.log + [NextEvent(cfg.scheme, s.log, payload, s.nextId)], nextId := s.nextId + 1)
  }

  /** A new session for the user, and the login event. */
  function CreateSession(cfg: Config, s: AuthState, user: UserAccountRecord, input: Credentials, env: Ambient)
    : (AuthState, AuthResult)
  {
    var expiresAt := env.now + cfg.sessionTtlMs;
    var session := SessionRecord(env.sessionId, user.id, HashToken(cfg.scheme, env.token), expiresAt, None);
    (Recorded(cfg, s.(sessions := PutSession(s.sessions, session)), LoginPayload(user, input, env)),
     AuthResult(PublicUser(user.id, user.email), env.token, expiresAt))
  }

  predicate AcceptablePassword(password: Text) {
    MIN_PASSWORD_LENGTH <= |password| <= MAX_PASSWORD_LENGTH
  }

  function Signup(cfg: Config, s: AuthState, input: Credentials, env: Ambient)
    : (AuthState, Result<AuthResult, AuthError>)
  {
    var email := NormalizeEmail(input.email);
    if !AcceptablePassword(input.password) then (s, Failure(BadPasswordLength))
    else if UserByEmail(s.users, email).Some? then (s, Failure(EmailTaken))
    else
      var stored := HashPassword(cfg.kdf, input.password, cfg.pepper, env.salt);
      if stored.None? then (s, Failure(KdfRejected))
      else
        var user := UserAccountRecord(env.userId, email, stored.value, Units("active"));
        var recorded := Recorded(cfg, s.(users := PutUser(s.users, user)), SignupPayload(user, input, env));
        var (created, result) := CreateSession(cfg, recorded, user, input, env);
        (created, Success(result))
  }

  function Login(cfg: Config, s: AuthState, input: Credentials, env: Ambient)
    : (AuthState, Result<AuthResult, AuthError>)
  {
    var user := UserByEmail(s.users, NormalizeEmail(input.email));
    var stored := if user.Some? then user.value.authCredentialRef else PlaceholderRecord();
    var isValid := VerifyPassword(cfg.kdf, input.password, cfg.pepper, stored);
    if isValid.None? then (s, Failure(KdfRejected))
    else if user.None? || !isValid.value then
      (Recorded(cfg, s, FailedLoginPayload(user, input, env)), Failure(InvalidCredentials))
    else
      var (created, result) := CreateSession(cfg, s, user.value, input, env);
      (created, Success(result))
  }

  /** Logout does not look at the expiry. */
  function Logout(cfg: Config, s: AuthState, token: Text, env: Ambient): (AuthState, Result<(), AuthError>) {
    var session := SessionByHash(s.sessions, HashToken(cfg.scheme, token));
    if session.None? || session.value.revokedAt.Some? then (s, Failure(NoActiveSession))
    else
      var revoked := s.(sessions := Revoked(s.sessions, session.value.id, env.now));
      (Recorded(cfg, revoked, LogoutPayload(session.value.userId, env)), Success(()))
  }

  function Validate(cfg: Config, s: AuthState, token: Text, now: int): Option<Validated> {
    var session := SessionByHash(s.sessions, HashToken(cfg.scheme, token));
    if session.None? || session.value.revokedAt.Some? || session.value.expiresAt <= now then None
    else
      var user := UserById(s.users, session.value.userId);
      if user.None? then None
      else Some(Validated(PublicUser(user.value.id, user.value.email), session.value.id))
  }

  // ---------------------------------------------------------------- the service as a class

  class AuthService {
    const users: InMemoryUserAccountRepository
    const sessions: InMemorySessionRepository
    const audit: AuditService
    const cfg: Config

    ghost predicate Valid() {
      audit.scheme == cfg.scheme
    }

    /** The whole state the service reads and writes. */
    ghost function State(): AuthState
      reads users, sessions, audit.repository
    {
      AuthState(users.byId, sessions.byId, audit.repository.events, audit.repository.nextId)
    }

    constructor (users: InMemoryUserAccountRepository, sessions: InMemorySessionRepository,
                 audit: AuditService, cfg: Config)
      requires audit.scheme == cfg.scheme
      ensures Valid()
      ensures this.users == users && this.sessions == sessions && this.audit == audit && this.cfg == cfg
    {
      this.users, this.sessions, this.audit, this.cfg := users, sessions, audit, cfg;
    }

    method SignupUser(input: Credentials, env: Ambient) returns (r: Result<AuthResult, AuthError>)
      requires Valid()
      modifies users, sessions, audit.repository
      ensures State() == Signup(cfg, old(State()), input, env).0
      ensures r == Signup(cfg, old(State()), input, env).1
    {
      hide AuditPayload, DeviceInfo, HashToken, NextEvent, PutUser, PutSession, HashPassword, NormalizeEmail,
           ChainValid;
      var email := NormalizeEmail(input.email);
      if |input.password| < MIN_PASSWORD_LENGTH || |input.password| > MAX_PASSWORD_LENGTH {
        return Failure(BadPasswordLength);
      }
      var existing := users.FindByEmail(email);
      if existing.Some? {
        return Failure(EmailTaken);
      }
      var stored := HashPassword(cfg.kdf, input.password, cfg.pepper, env.salt);
      if stored.None? {
        return Failure(KdfRejected);
      }
      var user := users.Insert(env.userId, email, stored.value);
      var _ := audit.Record(SignupPayload(user, input, env));
      var result := OpenSession(user, input, env);
      return Success(result);
    }

    method LoginUser(input: Credentials, env: Ambient) returns (r: Result<AuthResult, AuthError>)
      requires Valid()
      modifies sessions, audit.repository
      ensures State() == Login(cfg, old(State()), input, env).0
      ensures r == Login(cfg, old(State()), input, env).1
    {
      hide AuditPayload, DeviceInfo, HashToken, NextEvent, PutSession, VerifyPassword, PlaceholderRecord, ChainValid;
      var user := users.FindByEmail(NormalizeEmail(input.email));
      var isValid := VerifyPassword(cfg.kdf, input.password, cfg.pepper,
                                    if user.Some? then user.value.authCredentialRef else PlaceholderRecord());
      if isValid.None? {
        return Failure(KdfRejected);
      }
      if user.None? || !isValid.value {
        var _ := audit.Record(FailedLoginPayload(user, input, env));
        return Failure(InvalidCredentials);
      }
      var result := OpenSession(user.value, input, env);
      return Success(result);
    }

    method LogoutSession(token: Text, env: Ambient) returns (r: Result<(), AuthError>)
      requires Valid()
      modifies sessions, audit.repository
      ensures State() == Logout(cfg, old(State()), token, env).0
      ensures r == Logout(cfg, old(State()), token, env).1
    {
      hide AuditPayload, HashToken, NextEvent, Revoked, ChainValid;
      var session := sessions.FindByTokenHash(HashToken(cfg.scheme, token));
      if session.None? || session.value.revokedAt.Some? {
        return Failure(NoActiveSession);
      }
      sessions.Revoke(session.value.id, env.now);
      var _ := audit.Record(LogoutPayload(session.value.userId, env));
      return Success(());
    }

    method ValidateSession(token: Text, now: int) returns (r: Option<Validated>)
      ensures r == Validate(cfg, State(), token, now)
    {
      var session := sessions.FindByTokenHash(HashToken(cfg.scheme, token));
      if session.None? {
        return None;
      }
      if session.value.revokedAt.Some? {
        return None;
      }
      if session.value.expiresAt <= now {
        return None;
      }
      var user := users.FindById(session.value.userId);
      if user.None? {
        return None;
      }
      return Some(Validated(PublicUser(user.value.id, user.value.email), session.value.id));
    }

    method OpenSession(user: UserAccountRecord, input: Credentials, env: Ambient) returns (result: AuthResult)
      requires Valid()
      modifies sessions, audit.repository
      ensures State() == CreateSession(cfg, old(State()), user, input, env).0
      ensures result == CreateSession(cfg, old(State()), user, input, env).1
    {
      hide AuditPayload, DeviceInfo, HashToken, NextEvent, PutSession, ChainValid;
      var expiresAt := env.now + cfg.sessionTtlMs;
      var _ := sessions.Insert(env.sessionId, user.id, HashToken(cfg.scheme, env.token), expiresAt);
      var _ := audit.Record(LoginPayload(user, input, env));
      return AuthResult(PublicUser(user.id, user.email), env.token, expiresAt);
    }
  }
}
