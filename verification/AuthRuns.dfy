/** What the authentication service guarantees over every run of signups, logins,
    logouts and validations, from empty repositories. */
module AuthRuns {
  import opened Wrappers
  import opened Texts
  import Json
  import opened AuditHash
  import opened AuditChain
  import opened Password
  import opened Auth

  /** A call of the service, with what it drew from outside. */
  datatype Op =
    | SignupOp(input: Credentials, env: Ambient)
    | LoginOp(input: Credentials, env: Ambient)
    | LogoutOp(token: Text, env: Ambient)
    | ValidateOp(token: Text, env: Ambient)

  datatype Reply =
    | Authenticated(result: AuthResult)
    | LoggedOut
    | Answer(validated: Option<Validated>)
    | Rejected(error: AuthError)

  function ToReply(r: Result<AuthResult, AuthError>): Reply {
    if r.Success? then Authenticated(r.value) else Rejected(r.error)
  }

  function Apply(cfg: Config, s: AuthState, op: Op): (AuthState, Reply) {
    match op
    case SignupOp(input, env) => var (t, r) := Signup(cfg, s, input, env); (t, ToReply(r))
    case LoginOp(input, env) => var (t, r) := Login(cfg, s, input, env); (t, ToReply(r))
    case LogoutOp(token, env) =>
      var (t, r) := Logout(cfg, s, token, env);
      (t, if r.Success? then LoggedOut else Rejected(r.error))
    case ValidateOp(token, env) => (s, Answer(Validate(cfg, s, token, env.now)))
  }

  const EMPTY := AuthState([], [], [], 1)

  function After(cfg: Config, ops: seq<Op>): AuthState {
    if ops == [] then EMPTY else Apply(cfg, After(cfg, ops[..|ops| - 1]), ops[|ops| - 1]).0
  }

  /** The reply to the i-th call of a run. */
  function ReplyAt(cfg: Config, ops: seq<Op>, i: nat): Reply
    requires i < |ops|
  {
    Apply(cfg, After(cfg, ops[..i]), ops[i]).1
  }

  /** A run is its front and then its last call. */
  lemma LastCall(cfg: Config, ops: seq<Op>)
    requires ops != []
    ensures var n := |ops| - 1;
            Apply(cfg, After(cfg, ops[..n]), ops[n]) == (After(cfg, ops), ReplyAt(cfg, ops, n))
  {
    hide Apply;
  }

  // ---------------------------------------------------------------- the audit trail

  /** Events a call appends, by its kind and reply. */
  function EventsFor(op: Op, reply: Reply): nat {
    match op
    case SignupOp(_, _) => if reply.Authenticated? then 2 else 0
    case LoginOp(_, _) => if reply.Authenticated? || reply == Rejected(InvalidCredentials) then 1 else 0
    case LogoutOp(_, _) => if reply.LoggedOut? then 1 else 0
    case ValidateOp(_, _) => 0
  }

  /** What an event says: which action, by whom, when and from where. */
  datatype Entry = Entry(action: Option<Text>, actor: Option<Text>, occurredAt: Option<Text>, ipAddress: Option<Text>)

  /** The text of a property; None when it is absent or not a string. */
  function TextOf(payload: JsObject, key: string): Option<Text> {
    var value := Get(payload, Units(key));
    if value.Some? && value.value.String? then Some(value.value.text) else None
  }

  function EntryOf(payload: JsObject): Entry {
    Entry(TextOf(payload, "action"), TextOf(payload, "actorUserId"),
          TextOf(payload, "occurredAt"), TextOf(payload, "ipAddress"))
  }

  function Entries(log: Log): seq<Entry> {
    seq(|log|, i requires 0 <= i < |log| => EntryOf(log[i].payload))
  }

  function EntryFor(action: string, actor: Option<Text>, env: Ambient, ipAddress: Option<Text>): Entry {
    Entry(Some(Units(action)), actor, Some(env.isoNow), ipAddress)
  }

  /** What a call with this reply leaves in the trail. */
  function Told(cfg: Config, s: AuthState, op: Op, reply: Reply): seq<Entry> {
    match (op, reply)
    case (SignupOp(input, env), Authenticated(result)) =>
      [EntryFor("user_signup", Some(result.user.id), env, input.ipAddress),
       EntryFor("login_succeeded", Some(result.user.id), env, input.ipAddress)]
    case (LoginOp(input, env), Authenticated(result)) =>
      [EntryFor("login_succeeded", Some(result.user.id), env, input.ipAddress)]
    case (LoginOp(input, env), Rejected(InvalidCredentials)) =>
      var user := UserByEmail(s.users, NormalizeEmail(input.email));
      [EntryFor("login_failed", if user.Some? then Some(user.value.id) else None, env, input.ipAddress)]
    case (LogoutOp(token, env), LoggedOut) =>
      var session := SessionByHash(s.sessions, HashToken(cfg.scheme, token));
      [EntryFor("logout", if session.Some? then Some(session.value.userId) else None, env, None)]
    case _ => []
  }

  lemma {:induction false} GetAt(o: JsObject, key: Text, k: nat)
    requires k < |o| && o[k].key == key && forall j | 0 <= j < k :: o[j].key != key
    ensures Get(o, key) == Some(o[k].value)
  {
    if k > 0 {
      GetAt(o[1..], key, k - 1);
    }
  }

  /** Names of different length, or with different first letters, differ. */
  lemma NamesDiffer(a: string, b: string)
    requires a != [] && b != [] && (|a| != |b| || Unit(a[0]) != Unit(b[0]))
    ensures Units(a) != Units(b)
  {
    assert |Units(a)| == |a| && |Units(b)| == |b|;
    assert Units(a)[0] == Unit(a[0]) && Units(b)[0] == Unit(b[0]);
  }

  /** The keys ahead of the ones an entry is read from. */
  lemma KeysAhead()
    ensures forall name | name in ["action", "occurredAt", "ipAddress"] ::
      Units(name) !in [Units("actorUserId"), Units("actorRole"), Units("profileKind"),
                       Units("profileId"), Units("agreementId")]
    ensures Units("action") !in [Units("occurredAt"), Units("ipAddress")]
    ensures Units("occurredAt") != Units("ipAddress")
  {
    hide Units;
    NamesDiffer("action", "actorUserId");
    NamesDiffer("action", "actorRole");
    NamesDiffer("action", "profileKind");
    NamesDiffer("action", "profileId");
    NamesDiffer("action", "agreementId");
    NamesDiffer("occurredAt", "actorUserId");
    NamesDiffer("occurredAt", "actorRole");
    NamesDiffer("occurredAt", "profileKind");
    NamesDiffer("occurredAt", "profileId");
    NamesDiffer("occurredAt", "agreementId");
    NamesDiffer("ipAddress", "actorUserId");
    NamesDiffer("ipAddress", "actorRole");
    NamesDiffer("ipAddress", "profileKind");
    NamesDiffer("ipAddress", "profileId");
    NamesDiffer("ipAddress", "agreementId");
    NamesDiffer("action", "occurredAt");
    NamesDiffer("action", "ipAddress");
    NamesDiffer("occurredAt", "ipAddress");
  }

  lemma PayloadFields(actor: Option<Text>, action: string, occurredAt: Text, ipAddress: Option<Text>,
                      deviceInfo: Json.Json, newValue: Json.Json)
    ensures var p := AuditPayload(actor, action, occurredAt, ipAddress, deviceInfo, newValue);
            && |p| == 15 && p[0] == Json.Member(Units("actorUserId"), Nullable(actor))
            && p[1].key == Units("actorRole") && p[2].key == Units("profileKind")
            && p[3].key == Units("profileId") && p[4].key == Units("agreementId")
            && p[5] == Json.Member(Units("action"), Json.String(Units(action)))
            && p[6] == Json.Member(Units("occurredAt"), Json.String(occurredAt))
            && p[7] == Json.Member(Units("ipAddress"), Nullable(ipAddress))
  {
    hide Units, Nullable;
  }

  lemma PayloadTells(actor: Option<Text>, action: string, occurredAt: Text, ipAddress: Option<Text>,
                     deviceInfo: Json.Json, newValue: Json.Json)
    ensures EntryOf(AuditPayload(actor, action, occurredAt, ipAddress, deviceInfo, newValue))
         == Entry(Some(Units(action)), actor, Some(occurredAt), ipAddress)
  {
    hide Units, Get, AuditPayload;
    var payload := AuditPayload(actor, action, occurredAt, ipAddress, deviceInfo, newValue);
    PayloadFields(actor, action, occurredAt, ipAddress, deviceInfo, newValue);
    KeysAhead();
    GetAt(payload, Units("actorUserId"), 0);
    GetAt(payload, Units("action"), 5);
    GetAt(payload, Units("occurredAt"), 6);
    GetAt(payload, Units("ipAddress"), 7);
  }

  /** The log `t` is `s` and then events that tell these entries, still a valid chain. */
  ghost predicate Extends(cfg: Config, s: Log, t: Log, entries: seq<Entry>) {
    ChainValid(cfg.scheme, t) && s <= t && Entries(t) == Entries(s) + entries
  }

  lemma RecordedExtends(cfg: Config, s: AuthState, payload: JsObject)
    requires ChainValid(cfg.scheme, s.log)
    ensures Extends(cfg, s.log, Recorded(cfg, s, payload).log, [EntryOf(payload)])
  {
    hide EntryOf, ComputeHash;
    AppendKeepsChain(cfg.scheme, s.log, payload, s.nextId);
  }

  lemma SessionExtends(cfg: Config, s: AuthState, user: UserAccountRecord, input: Credentials, env: Ambient)
    requires ChainValid(cfg.scheme, s.log)
    ensures var (t, result) := CreateSession(cfg, s, user, input, env);
            && result.user.id == user.id
            && Extends(cfg, s.log, t.log, [EntryFor("login_succeeded", Some(user.id), env, input.ipAddress)])
  {
    hide ChainValid, NextEvent, AuditPayload, HashToken, EntryOf, DeviceInfo, PutSession, Extends, Units;
    var session := SessionRecord(env.sessionId, user.id, HashToken(cfg.scheme, env.token),
                                 env.now + cfg.sessionTtlMs, None);
    RecordedExtends(cfg, s.(sessions := PutSession(s.sessions, session)), LoginPayload(user, input, env));
    PayloadTells(Some(user.id), "login_succeeded", env.isoNow, input.ipAddress, DeviceInfo(input.userAgent), Json.Null);
  }

  lemma ExtendsTwice(cfg: Config, s: Log, t: Log, u: Log, first: Entry, second: Entry)
    requires Extends(cfg, s, t, [first]) && Extends(cfg, t, u, [second])
    ensures Extends(cfg, s, u, [first, second])
  {
    hide ChainValid, EntryOf;
    assert Entries(s) + [first] + [second] == Entries(s) + [first, second];
  }

  lemma SignupExtends(cfg: Config, s: AuthState, input: Credentials, env: Ambient)
    requires ChainValid(cfg.scheme, s.log) && Apply(cfg, s, SignupOp(input, env)).1.Authenticated?
    ensures var (t, reply) := Apply(cfg, s, SignupOp(input, env));
            Extends(cfg, s.log, t.log, Told(cfg, s, SignupOp(input, env), reply))
  {
    hide ChainValid, HashPassword, NormalizeEmail, HashToken, NextEvent, AuditPayload, EntryOf, DeviceInfo, PutUser,
         Extends, Recorded, CreateSession, EntryFor;
    var stored := HashPassword(cfg.kdf, input.password, cfg.pepper, env.salt);
    var user := UserAccountRecord(env.userId, NormalizeEmail(input.email), stored.value, Units("active"));
    var s1 := s.(users := PutUser(s.users, user));
    var s2 := Recorded(cfg, s1, SignupPayload(user, input, env));
    RecordedExtends(cfg, s1, SignupPayload(user, input, env));
    SignupTells(user, input, env);
    ExtendsValid(cfg, s.log, s2.log, [EntryFor("user_signup", Some(user.id), env, input.ipAddress)]);
    SessionExtends(cfg, s2, user, input, env);
    ExtendsTwice(cfg, s.log, s2.log, CreateSession(cfg, s2, user, input, env).0.log,
                 EntryFor("user_signup", Some(user.id), env, input.ipAddress),
                 EntryFor("login_succeeded", Some(user.id), env, input.ipAddress));
  }

  lemma SignupTells(user: UserAccountRecord, input: Credentials, env: Ambient)
    ensures EntryOf(SignupPayload(user, input, env)) == EntryFor("user_signup", Some(user.id), env, input.ipAddress)
  {
    hide EntryOf, AuditPayload, DeviceInfo, Units;
    PayloadTells(Some(user.id), "user_signup", env.isoNow, input.ipAddress, DeviceInfo(input.userAgent),
                 Json.Object([Json.Member(Units("email"), Json.String(user.email))]));
  }

  lemma ExtendsValid(cfg: Config, s: Log, t: Log, entries: seq<Entry>)
    requires Extends(cfg, s, t, entries)
    ensures ChainValid(cfg.scheme, t) && |t| == |s| + |entries|
  {
    hide ChainValid, EntryOf;
    assert |Entries(t)| == |Entries(s)| + |entries|;
  }

  lemma LoginExtends(cfg: Config, s: AuthState, input: Credentials, env: Ambient)
    requires ChainValid(cfg.scheme, s.log)
    ensures var (t, reply) := Apply(cfg, s, LoginOp(input, env));
            Extends(cfg, s.log, t.log, Told(cfg, s, LoginOp(input, env), reply))
  {
    hide ChainValid, VerifyPassword, PlaceholderRecord, NormalizeEmail, HashToken, NextEvent, AuditPayload, EntryOf,
         DeviceInfo, Extends, Recorded, CreateSession, Units;
    var user := UserByEmail(s.users, NormalizeEmail(input.email));
    var r := Login(cfg, s, input, env).1;
    if r.Success? {
      SessionExtends(cfg, s, user.value, input, env);
    } else if r == Failure(InvalidCredentials) {
      RecordedExtends(cfg, s, FailedLoginPayload(user, input, env));
      PayloadTells(if user.Some? then Some(user.value.id) else None, "login_failed", env.isoNow, input.ipAddress,
                   DeviceInfo(input.userAgent), Json.Null);
    } else {
      ExtendsNone(cfg, s.log);
    }
  }

  lemma ExtendsNone(cfg: Config, s: Log)
    requires ChainValid(cfg.scheme, s)
    ensures Extends(cfg, s, s, [])
  {
    hide ChainValid, EntryOf;
  }

  lemma LogoutExtends(cfg: Config, s: AuthState, token: Text, env: Ambient)
    requires ChainValid(cfg.scheme, s.log)
    ensures var (t, reply) := Apply(cfg, s, LogoutOp(token, env));
            Extends(cfg, s.log, t.log, Told(cfg, s, LogoutOp(token, env), reply))
  {
    hide ChainValid, HashToken, NextEvent, AuditPayload, EntryOf, Extends, Recorded, Revoked, Units;
    var session := SessionByHash(s.sessions, HashToken(cfg.scheme, token));
    if Logout(cfg, s, token, env).1.Success? {
      var s1 := s.(sessions := Revoked(s.sessions, session.value.id, env.now));
      RecordedExtends(cfg, s1, LogoutPayload(session.value.userId, env));
      PayloadTells(Some(session.value.userId), "logout", env.isoNow, None, Json.Null, Json.Null);
    } else {
      ExtendsNone(cfg, s.log);
    }
  }

  lemma SignupRejectedKeeps(cfg: Config, s: AuthState, input: Credentials, env: Ambient)
    requires !Apply(cfg, s, SignupOp(input, env)).1.Authenticated?
    ensures Apply(cfg, s, SignupOp(input, env)) == (s, Apply(cfg, s, SignupOp(input, env)).1)
  {
    hide HashPassword, NormalizeEmail, CreateSession, Recorded, PutUser;
  }

  /** Every call keeps the chain valid, changes no earlier event, and adds exactly the
      entries its reply stands for: as many as the second clause says. */
  lemma CallExtendsLog(cfg: Config, s: AuthState, op: Op)
    requires ChainValid(cfg.scheme, s.log)
    ensures var (t, reply) := Apply(cfg, s, op);
            && Extends(cfg, s.log, t.log, Told(cfg, s, op, reply))
            && |t.log| == |s.log| + EventsFor(op, reply)
  {
    hide ChainValid, Signup, Login, Logout, Validate, NormalizeEmail, HashToken, EntryFor, Extends, EventsFor;
    match op {
      case SignupOp(input, env) =>
        if Apply(cfg, s, op).1.Authenticated? {
          SignupExtends(cfg, s, input, env);
        } else {
          SignupRejectedKeeps(cfg, s, input, env);
          ExtendsNone(cfg, s.log);
        }
      case LoginOp(input, env) => LoginExtends(cfg, s, input, env);
      case LogoutOp(token, env) => LogoutExtends(cfg, s, token, env);
      case ValidateOp(_, _) => ExtendsNone(cfg, s.log);
    }
    var (t, reply) := Apply(cfg, s, op);
    ExtendsValid(cfg, s.log, t.log, Told(cfg, s, op, reply));
    ToldCount(cfg, s, op, reply);
  }

  lemma ToldCount(cfg: Config, s: AuthState, op: Op, reply: Reply)
    ensures |Told(cfg, s, op, reply)| == EventsFor(op, reply)
  {
    hide NormalizeEmail, HashToken, EntryFor;
  }

  /** What a whole run leaves in the trail. */
  function History(cfg: Config, ops: seq<Op>): seq<Entry> {
    if ops == [] then []
    else
      var n := |ops| - 1;
      History(cfg, ops[..n]) + Told(cfg, After(cfg, ops[..n]), ops[n], ReplyAt(cfg, ops, n))
  }

  /** The trail of every run passes the chain check and tells exactly what happened, in
      order: who signed up, logged in, failed to, or logged out, when and from where. */
  lemma {:induction false} TrailTellsHistory(cfg: Config, ops: seq<Op>)
    ensures ChainValid(cfg.scheme, After(cfg, ops).log)
    ensures Entries(After(cfg, ops).log) == History(cfg, ops)
  {
    if ops != [] {
      hide ChainValid, Apply, EntryOf, Told;
      TrailTellsHistory(cfg, ops[..|ops| - 1]);
      CallExtendsLog(cfg, After(cfg, ops[..|ops| - 1]), ops[|ops| - 1]);
    }
  }

  // ---------------------------------------------------------------- assumptions on what is drawn

  /** A call that may draw ids and a token. */
  predicate Draws(op: Op) {
    op.SignupOp? || op.LoginOp?
  }

  /** Random ids and tokens never repeat. */
  ghost predicate FreshDraws(ops: seq<Op>) {
    forall i, j | 0 <= i < j < |ops| && Draws(ops[i]) && Draws(ops[j]) ::
      && ops[i].env.userId != ops[j].env.userId
      && ops[i].env.sessionId != ops[j].env.sessionId
      && ops[i].env.token != ops[j].env.token
  }

  /** The tokens drawn or presented to logout in a run. */
  function Tokens(ops: seq<Op>): set<Text> {
    (set i | 0 <= i < |ops| && Draws(ops[i]) :: ops[i].env.token) +
    (set i | 0 <= i < |ops| && ops[i].LogoutOp? :: ops[i].token)
  }

  /** The digest keeps these tokens apart. */
  ghost predicate HashesApart(scheme: Scheme, tokens: set<Text>) {
    forall t, u | t in tokens && u in tokens && HashToken(scheme, t) == HashToken(scheme, u) :: t == u
  }

  lemma FreshFront(cfg: Config, ops: seq<Op>, tokens: set<Text>)
    requires ops != [] && FreshDraws(ops) && HashesApart(cfg.scheme, Tokens(ops) + tokens)
    ensures FreshDraws(ops[..|ops| - 1])
    ensures HashesApart(cfg.scheme, Tokens(ops[..|ops| - 1]) + tokens)
  {
    var front := ops[..|ops| - 1];
    assert forall i | 0 <= i < |front| :: front[i] == ops[i];
    assert Tokens(front) <= Tokens(ops);
  }

  /** Replies to earlier calls do not depend on later ones. */
  lemma ReplyStays(cfg: Config, ops: seq<Op>, i: nat)
    requires i < |ops| - 1
    ensures ReplyAt(cfg, ops[..|ops| - 1], i) == ReplyAt(cfg, ops, i)
  {
    assert ops[..|ops| - 1][..i] == ops[..i];
  }
}
