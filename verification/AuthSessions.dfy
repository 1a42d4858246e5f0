/** Sessions over every run: which tokens validate, when, and for whom. */
module AuthSessions {
  import opened Wrappers
  import opened Texts
  import opened AuditChain
  import opened Password
  import opened Auth
  import opened AuthRuns
  import opened AuthAccounts

  // ---------------------------------------------------------------- finding

  lemma {:induction false} FindSession(sessions: seq<SessionRecord>, hash: Text, k: nat)
    requires k < |sessions| && sessions[k].sessionTokenHash == hash
    requires forall j | 0 <= j < k :: sessions[j].sessionTokenHash != hash
    ensures SessionByHash(sessions, hash) == Some(sessions[k])
  {
    if k > 0 {
      FindSession(sessions[1..], hash, k - 1);
    }
  }

  lemma {:induction false} RevokeOne(sessions: seq<SessionRecord>, k: nat, now: int)
    requires k < |sessions|
    requires forall j | 0 <= j < k :: sessions[j].id != sessions[k].id
    ensures Revoked(sessions, sessions[k].id, now) == sessions[k := sessions[k].(revokedAt := Some(now))]
  {
    if k > 0 {
      RevokeOne(sessions[1..], k - 1, now);
    }
  }

  // ---------------------------------------------------------------- sessions

  /** The calls that issued tokens, in order. */
  function Issues(cfg: Config, ops: seq<Op>): seq<nat> {
    if ops == [] then []
    else
      var n := |ops| - 1;
      Issues(cfg, ops[..n]) + if ReplyAt(cfg, ops, n).Authenticated? then [n] else []
  }

  lemma {:induction false} IssuesAre(cfg: Config, ops: seq<Op>, i: nat)
    ensures i in Issues(cfg, ops) <==> i < |ops| && ReplyAt(cfg, ops, i).Authenticated?
    ensures forall j, k | 0 <= j < k < |Issues(cfg, ops)| :: Issues(cfg, ops)[j] < Issues(cfg, ops)[k] < |ops|
    ensures forall k | 0 <= k < |Issues(cfg, ops)| :: Issues(cfg, ops)[k] < |ops|
  {
    if ops != [] {
      IssuesAre(cfg, ops[..|ops| - 1], i);
      if i < |ops| - 1 {
        ReplyStays(cfg, ops, i);
      }
    }
  }

  /** The token was presented to logout after call i. */
  ghost predicate LogoutAfter(ops: seq<Op>, i: nat, token: Text) {
    exists j | i < j < |ops| :: ops[j].LogoutOp? && ops[j].token == token
  }

  /** The stored session is the one call i issued; it is revoked exactly when its token
      has since been presented to logout. */
  ghost predicate IssuedBy(cfg: Config, ops: seq<Op>, session: SessionRecord, i: nat) {
    && i < |ops| && ReplyAt(cfg, ops, i).Authenticated?
    && session.id == ops[i].env.sessionId
    && session.userId == ReplyAt(cfg, ops, i).result.user.id
    && session.sessionTokenHash == HashToken(cfg.scheme, ops[i].env.token)
    && session.expiresAt == ops[i].env.now + cfg.sessionTtlMs
    && (session.revokedAt.Some? <==> LogoutAfter(ops, i, ops[i].env.token))
  }

  ghost predicate SessionsMatch(cfg: Config, ops: seq<Op>, sessions: seq<SessionRecord>) {
    && |sessions| == |Issues(cfg, ops)|
    && forall k | 0 <= k < |sessions| :: IssuedBy(cfg, ops, sessions[k], Issues(cfg, ops)[k])
  }

  /** Only signup and login issue tokens. */
  lemma OnlyDrawsIssue(cfg: Config, ops: seq<Op>, i: nat)
    requires i < |ops| && ReplyAt(cfg, ops, i).Authenticated?
    ensures Draws(ops[i]) && ops[i].env.token in Tokens(ops)
  {
    hide After, Signup, Login, Logout, Validate;
  }

  /** Matching sessions have distinct ids, and distinct hashes among known tokens. */
  lemma SessionsDiffer(cfg: Config, ops: seq<Op>, sessions: seq<SessionRecord>, token: Text, j: nat, k: nat)
    requires FreshDraws(ops) && HashesApart(cfg.scheme, Tokens(ops) + {token}) && SessionsMatch(cfg, ops, sessions)
    requires j < |sessions| && k < |sessions|
    ensures j != k ==> sessions[j].id != sessions[k].id
    ensures j != k ==> sessions[j].sessionTokenHash != sessions[k].sessionTokenHash
    ensures sessions[k].sessionTokenHash == HashToken(cfg.scheme, token)
       <==> ops[Issues(cfg, ops)[k]].env.token == token
  {
    hide HashToken, Tokens, Issues, ReplyAt, LogoutAfter;
    IssuesAre(cfg, ops, 0);
    var a, b := Issues(cfg, ops)[j], Issues(cfg, ops)[k];
    assert IssuedBy(cfg, ops, sessions[j], a) && IssuedBy(cfg, ops, sessions[k], b);
    OnlyDrawsIssue(cfg, ops, a);
    OnlyDrawsIssue(cfg, ops, b);
  }

  lemma LogoutAfterGrows(ops: seq<Op>, i: nat, token: Text)
    requires ops != [] && i < |ops| - 1
    ensures var n := |ops| - 1;
            LogoutAfter(ops, i, token) <==>
            LogoutAfter(ops[..n], i, token) || (ops[n].LogoutOp? && ops[n].token == token)
  {
    var front := ops[..|ops| - 1];
    assert forall j | 0 <= j < |front| :: front[j] == ops[j];
  }

  /** A session not touched by the last call still matches. */
  lemma IssuedByStays(cfg: Config, ops: seq<Op>, session: SessionRecord, i: nat)
    requires ops != [] && IssuedBy(cfg, ops[..|ops| - 1], session, i)
    requires ops[|ops| - 1].LogoutOp? && ops[|ops| - 1].token == ops[i].env.token ==> session.revokedAt.Some?
    ensures IssuedBy(cfg, ops, session, i)
  {
    hide ReplyAt, HashToken, LogoutAfter;
    ReplyStays(cfg, ops, i);
    LogoutAfterGrows(ops, i, ops[i].env.token);
  }

  lemma IssuedByRevoked(cfg: Config, ops: seq<Op>, session: SessionRecord, i: nat, now: int)
    requires ops != [] && IssuedBy(cfg, ops[..|ops| - 1], session, i)
    requires ops[|ops| - 1].LogoutOp? && ops[|ops| - 1].token == ops[i].env.token
    ensures IssuedBy(cfg, ops, session.(revokedAt := Some(now)), i)
  {
    hide ReplyAt, HashToken, LogoutAfter;
    ReplyStays(cfg, ops, i);
    LogoutAfterGrows(ops, i, ops[i].env.token);
  }

  /** After every run the stored sessions are exactly the issued ones, in order. */
  lemma {:induction false} SessionsAreIssues(cfg: Config, ops: seq<Op>)
    requires FreshDraws(ops) && HashesApart(cfg.scheme, Tokens(ops))
    ensures SessionsMatch(cfg, ops, After(cfg, ops).sessions)
  {
    if ops == [] {
      assert After(cfg, ops) == EMPTY;
    } else {
      var n := |ops| - 1;
      assert Tokens(ops) + {} == Tokens(ops) && Tokens(ops[..n]) + {} == Tokens(ops[..n]);
      FreshFront(cfg, ops, {});
      SessionsAreIssues(cfg, ops[..n]);
      if ops[n].LogoutOp? {
        AfterLogout(cfg, ops);
      } else if ReplyAt(cfg, ops, n).Authenticated? {
        AfterIssue(cfg, ops);
      } else {
        AfterOther(cfg, ops);
      }
    }
  }

  lemma LastIssue(cfg: Config, ops: seq<Op>)
    requires ops != []
    ensures var n := |ops| - 1;
            Issues(cfg, ops) == Issues(cfg, ops[..n]) + if ReplyAt(cfg, ops, n).Authenticated? then [n] else []
  {
    hide ReplyAt;
  }

  /** A call that neither issues nor logs out leaves the sessions alone. */
  lemma OtherCallsKeepSessions(cfg: Config, s: AuthState, op: Op)
    requires !op.LogoutOp? && !Apply(cfg, s, op).1.Authenticated?
    ensures Apply(cfg, s, op).0.sessions == s.sessions
  {
    hide HashToken, NextEvent, AuditPayload, HashPassword, VerifyPassword, NormalizeEmail, PlaceholderRecord,
         PutSession, PutUser;
  }

  lemma AfterOther(cfg: Config, ops: seq<Op>)
    requires ops != [] && !ops[|ops| - 1].LogoutOp? && !ReplyAt(cfg, ops, |ops| - 1).Authenticated?
    requires SessionsMatch(cfg, ops[..|ops| - 1], After(cfg, ops[..|ops| - 1]).sessions)
    ensures SessionsMatch(cfg, ops, After(cfg, ops).sessions)
  {
    hide Issues, After, ReplyAt, Apply, HashToken, LogoutAfter;
    var front := ops[..|ops| - 1];
    var sessions := After(cfg, front).sessions;
    LastCall(cfg, ops);
    LastIssue(cfg, ops);
    OtherCallsKeepSessions(cfg, After(cfg, front), ops[|ops| - 1]);
    forall k | 0 <= k < |sessions| ensures IssuedBy(cfg, ops, sessions[k], Issues(cfg, ops)[k]) {
      IssuedByStays(cfg, ops, sessions[k], Issues(cfg, front)[k]);
    }
  }

  /** A signup or login that succeeds stores one more session. */
  lemma IssueAdds(cfg: Config, s: AuthState, op: Op)
    requires Apply(cfg, s, op).1.Authenticated?
    ensures var (t, reply) := Apply(cfg, s, op);
            && reply.result.token == op.env.token && reply.result.expiresAt == op.env.now + cfg.sessionTtlMs
            && t.sessions == PutSession(s.sessions, SessionOf(cfg, op.env, reply.result))
  {
    hide HashToken, NextEvent, AuditPayload, HashPassword, VerifyPassword, NormalizeEmail, PlaceholderRecord,
         PutSession, PutUser;
  }

  /** The session an authenticated reply stands for. */
  function SessionOf(cfg: Config, env: Ambient, result: AuthResult): SessionRecord {
    SessionRecord(env.sessionId, result.user.id, HashToken(cfg.scheme, env.token), env.now + cfg.sessionTtlMs, None)
  }

  lemma AfterIssue(cfg: Config, ops: seq<Op>)
    requires ops != [] && FreshDraws(ops)
    requires !ops[|ops| - 1].LogoutOp? && ReplyAt(cfg, ops, |ops| - 1).Authenticated?
    requires SessionsMatch(cfg, ops[..|ops| - 1], After(cfg, ops[..|ops| - 1]).sessions)
    ensures SessionsMatch(cfg, ops, After(cfg, ops).sessions)
  {
    hide Issues, After, ReplyAt, Apply, HashToken, PutSession, LogoutAfter;
    var n := |ops| - 1;
    var front := ops[..n];
    var sessions := After(cfg, front).sessions;
    LastCall(cfg, ops);
    LastIssue(cfg, ops);
    IssueAdds(cfg, After(cfg, front), ops[n]);
    var session := SessionOf(cfg, ops[n].env, ReplyAt(cfg, ops, n).result);
    forall x | x in sessions ensures x.id != session.id {
      var k :| 0 <= k < |sessions| && sessions[k] == x;
      IssuedEarlier(cfg, ops, x, Issues(cfg, front)[k]);
    }
    PutNewSession(sessions, session);
    forall k | 0 <= k < |sessions| ensures IssuedBy(cfg, ops, sessions[k], Issues(cfg, ops)[k]) {
      IssuedByStays(cfg, ops, sessions[k], Issues(cfg, front)[k]);
    }
    NewlyIssued(cfg, ops, session);
  }

  /** A stored session has not the id the last call draws. */
  lemma IssuedEarlier(cfg: Config, ops: seq<Op>, session: SessionRecord, i: nat)
    requires ops != [] && FreshDraws(ops) && ReplyAt(cfg, ops, |ops| - 1).Authenticated?
    requires IssuedBy(cfg, ops[..|ops| - 1], session, i)
    ensures session.id != ops[|ops| - 1].env.sessionId
  {
    hide ReplyAt, HashToken, LogoutAfter, Tokens;
    var front := ops[..|ops| - 1];
    OnlyDrawsIssue(cfg, front, i);
    OnlyDrawsIssue(cfg, ops, |ops| - 1);
    assert front[i] == ops[i];
  }

  lemma NewlyIssued(cfg: Config, ops: seq<Op>, session: SessionRecord)
    requires ops != [] && ReplyAt(cfg, ops, |ops| - 1).Authenticated?
    requires session == SessionOf(cfg, ops[|ops| - 1].env, ReplyAt(cfg, ops, |ops| - 1).result)
    ensures IssuedBy(cfg, ops, session, |ops| - 1)
  {
    hide ReplyAt, HashToken;
  }

  /** Logout revokes what its token finds, unless that is revoked already. */
  lemma LogoutRevokes(cfg: Config, s: AuthState, token: Text, env: Ambient)
    ensures var found := SessionByHash(s.sessions, HashToken(cfg.scheme, token));
            var (t, reply) := Apply(cfg, s, LogoutOp(token, env));
            && !reply.Authenticated?
            && t.sessions == if found.Some? && found.value.revokedAt.None?
                             then Revoked(s.sessions, found.value.id, env.now) else s.sessions
  {
    hide HashToken, NextEvent, AuditPayload, Revoked;
  }

  /** After a logout every session matches, if the one of its token, and no other, has
      been revoked. */
  lemma AfterLogout(cfg: Config, ops: seq<Op>)
    requires ops != [] && FreshDraws(ops) && HashesApart(cfg.scheme, Tokens(ops))
    requires ops[|ops| - 1].LogoutOp?
    requires SessionsMatch(cfg, ops[..|ops| - 1], After(cfg, ops[..|ops| - 1]).sessions)
    ensures SessionsMatch(cfg, ops, After(cfg, ops).sessions)
  {
    hide Issues, After, ReplyAt, Apply, HashToken, Revoked, LogoutAfter;
    var n := |ops| - 1;
    var front := ops[..n];
    var sessions := After(cfg, front).sessions;
    var token, env := ops[n].token, ops[n].env;
    LastCall(cfg, ops);
    LastIssue(cfg, ops);
    LogoutRevokes(cfg, After(cfg, front), token, env);
    assert Tokens(ops) == Tokens(ops) + {token};
    FreshFront(cfg, ops, {token});
    var found := SessionByHash(sessions, HashToken(cfg.scheme, token));
    if found.Some? {
      var k :| 0 <= k < |sessions| && sessions[k] == found.value;
      TokenRevoked(cfg, ops, sessions, k);
    } else {
      TokenAbsent(cfg, ops, sessions);
    }
  }

  lemma TokenAbsent(cfg: Config, ops: seq<Op>, sessions: seq<SessionRecord>)
    requires ops != [] && ops[|ops| - 1].LogoutOp? && SessionsMatch(cfg, ops[..|ops| - 1], sessions)
    requires Issues(cfg, ops) == Issues(cfg, ops[..|ops| - 1])
    requires forall s | s in sessions :: s.sessionTokenHash != HashToken(cfg.scheme, ops[|ops| - 1].token)
    ensures SessionsMatch(cfg, ops, sessions)
  {
    hide Issues, ReplyAt, HashToken, LogoutAfter;
    var front := ops[..|ops| - 1];
    forall k | 0 <= k < |sessions| ensures IssuedBy(cfg, ops, sessions[k], Issues(cfg, ops)[k]) {
      var i := Issues(cfg, front)[k];
      assert IssuedBy(cfg, front, sessions[k], i) && front[i] == ops[i];
      IssuedByStays(cfg, ops, sessions[k], i);
    }
  }

  lemma TokenRevoked(cfg: Config, ops: seq<Op>, sessions: seq<SessionRecord>, k: nat)
    requires ops != [] && ops[|ops| - 1].LogoutOp? && SessionsMatch(cfg, ops[..|ops| - 1], sessions)
    requires FreshDraws(ops[..|ops| - 1])
    requires HashesApart(cfg.scheme, Tokens(ops[..|ops| - 1]) + {ops[|ops| - 1].token})
    requires Issues(cfg, ops) == Issues(cfg, ops[..|ops| - 1])
    requires k < |sessions| && sessions[k].sessionTokenHash == HashToken(cfg.scheme, ops[|ops| - 1].token)
    ensures SessionsMatch(cfg, ops, if sessions[k].revokedAt.None?
                                    then Revoked(sessions, sessions[k].id, ops[|ops| - 1].env.now) else sessions)
  {
    hide Issues, ReplyAt, HashToken, Revoked, LogoutAfter, Tokens, HashesApart;
    var front := ops[..|ops| - 1];
    var token, now := ops[|ops| - 1].token, ops[|ops| - 1].env.now;
    forall j: nat | j < |sessions| && j != k
      ensures sessions[j].id != sessions[k].id && IssuedBy(cfg, ops, sessions[j], Issues(cfg, front)[j])
    {
      var i := Issues(cfg, front)[j];
      SessionsDiffer(cfg, front, sessions, token, j, k);
      assert IssuedBy(cfg, front, sessions[j], i) && front[i] == ops[i];
      IssuedByStays(cfg, ops, sessions[j], i);
    }
    RevokeOne(sessions, k, now);
    var i := Issues(cfg, front)[k];
    SessionsDiffer(cfg, front, sessions, token, k, k);
    assert IssuedBy(cfg, front, sessions[k], i) && front[i] == ops[i];
    if sessions[k].revokedAt.None? {
      IssuedByRevoked(cfg, ops, sessions[k], i, now);
    } else {
      IssuedByStays(cfg, ops, sessions[k], i);
    }
  }

  // ---------------------------------------------------------------- what a token is worth

  /** Call i issued this token and no logout has been given it since. */
  ghost predicate Live(cfg: Config, ops: seq<Op>, i: nat, token: Text) {
    i < |ops| && ReplyAt(cfg, ops, i).Authenticated? && ops[i].env.token == token && !LogoutAfter(ops, i, token)
  }

  /** The session a token finds: the one issued with it. */
  lemma TokenFinds(cfg: Config, ops: seq<Op>, token: Text, i: nat)
    requires FreshDraws(ops) && HashesApart(cfg.scheme, Tokens(ops) + {token})
    requires i < |ops| && ReplyAt(cfg, ops, i).Authenticated? && ops[i].env.token == token
    ensures var found := SessionByHash(After(cfg, ops).sessions, HashToken(cfg.scheme, token));
            found.Some? && IssuedBy(cfg, ops, found.value, i)
  {
    hide Issues, After, ReplyAt, HashToken, LogoutAfter;
    assert HashesApart(cfg.scheme, Tokens(ops));
    SessionsAreIssues(cfg, ops);
    IssuesAre(cfg, ops, i);
    var sessions := After(cfg, ops).sessions;
    var k :| 0 <= k < |Issues(cfg, ops)| && Issues(cfg, ops)[k] == i;
    assert IssuedBy(cfg, ops, sessions[k], i);
    forall j: nat | j < k ensures sessions[j].sessionTokenHash != HashToken(cfg.scheme, token) {
      SessionsDiffer(cfg, ops, sessions, token, j, k);
    }
    FindSession(sessions, HashToken(cfg.scheme, token), k);
  }

  lemma TokenUnknown(cfg: Config, ops: seq<Op>, token: Text)
    requires FreshDraws(ops) && HashesApart(cfg.scheme, Tokens(ops) + {token})
    requires forall i: nat | i < |ops| && ReplyAt(cfg, ops, i).Authenticated? :: ops[i].env.token != token
    ensures SessionByHash(After(cfg, ops).sessions, HashToken(cfg.scheme, token)) == None
  {
    hide Issues, After, ReplyAt, HashToken, LogoutAfter;
    assert HashesApart(cfg.scheme, Tokens(ops));
    SessionsAreIssues(cfg, ops);
    var sessions := After(cfg, ops).sessions;
    forall s | s in sessions ensures s.sessionTokenHash != HashToken(cfg.scheme, token) {
      var k :| 0 <= k < |sessions| && sessions[k] == s;
      assert IssuedBy(cfg, ops, s, Issues(cfg, ops)[k]);
      SessionsDiffer(cfg, ops, sessions, token, k, k);
    }
  }

  lemma {:induction false} UsersGrow(cfg: Config, ops: seq<Op>, n: nat)
    requires FreshDraws(ops) && n <= |ops|
    ensures After(cfg, ops[..n]).users <= After(cfg, ops).users
  {
    if n == |ops| {
      assert ops[..n] == ops;
    } else {
      var front := ops[..|ops| - 1];
      assert front[..n] == ops[..n];
      UsersGrow(cfg, front, n);
      StepUsersGrow(cfg, ops);
    }
  }

  lemma StepUsersGrow(cfg: Config, ops: seq<Op>)
    requires ops != [] && FreshDraws(ops)
    ensures After(cfg, ops[..|ops| - 1]).users <= After(cfg, ops).users
  {
    hide After, ReplyAt, Apply, NormalizeEmail, Password.Record, DerivedKey, Signups, PutUser, Account;
    var n := |ops| - 1;
    var front := ops[..n];
    LastCall(cfg, ops);
    OnlySignupAddsUsers(cfg, After(cfg, front), ops[n]);
    if ops[n].SignupOp? && ReplyAt(cfg, ops, n).Authenticated? {
      var input, env := ops[n].input, ops[n].env;
      AccountsAreSignups(cfg, front);
      SignupAdds(cfg, After(cfg, front), input, env);
      var derived := DerivedKey(cfg, input.password, env.salt).value;
      AccountIsNew(cfg, ops, derived);
      PutNewUser(After(cfg, front).users, Account(input, env, derived));
    }
  }

  /** A login that succeeds answers with the stored account of its email. */
  lemma LoginAnswers(cfg: Config, s: AuthState, input: Credentials, env: Ambient)
    requires Apply(cfg, s, LoginOp(input, env)).1.Authenticated?
    ensures var (t, reply) := Apply(cfg, s, LoginOp(input, env));
            var user := UserByEmail(s.users, NormalizeEmail(input.email));
            t.users == s.users && user.Some? && reply.result.user == PublicUser(user.value.id, user.value.email)
  {
    hide HashToken, NextEvent, AuditPayload, VerifyPassword, NormalizeEmail, PlaceholderRecord, PutSession;
  }

  lemma SignupAnswers(cfg: Config, s: AuthState, input: Credentials, env: Ambient)
    requires Apply(cfg, s, SignupOp(input, env)).1.Authenticated?
    ensures Apply(cfg, s, SignupOp(input, env)).1.result.user == PublicUser(env.userId, NormalizeEmail(input.email))
  {
    hide HashToken, NextEvent, AuditPayload, HashPassword, NormalizeEmail, PutSession, PutUser;
  }

  /** The account the last call answered with exists right after it. */
  lemma IssuedForUser(cfg: Config, ops: seq<Op>)
    requires ops != [] && FreshDraws(ops) && ReplyAt(cfg, ops, |ops| - 1).Authenticated?
    ensures var user := ReplyAt(cfg, ops, |ops| - 1).result.user;
            var found := UserById(After(cfg, ops).users, user.id);
            found.Some? && found.value.email == user.email
  {
    hide After, ReplyAt, Apply, NormalizeEmail, Password.Record, DerivedKey, Signups, Tokens;
    var n := |ops| - 1;
    var users := After(cfg, ops).users;
    LastCall(cfg, ops);
    OnlyDrawsIssue(cfg, ops, n);
    AccountsAreSignups(cfg, ops);
    if ops[n].SignupOp? {
      var k := AccountOf(cfg, ops, n, ops[n].input.email);
      SignupAnswers(cfg, After(cfg, ops[..n]), ops[n].input, ops[n].env);
    } else {
      LoginAnswers(cfg, After(cfg, ops[..n]), ops[n].input, ops[n].env);
      var user := UserByEmail(users, NormalizeEmail(ops[n].input.email)).value;
      var k :| 0 <= k < |users| && users[k] == user;
      UserByIdFinds(users, k);
    }
  }

  lemma PrefixReply(cfg: Config, ops: seq<Op>, i: nat)
    requires i < |ops|
    ensures ReplyAt(cfg, ops[..i + 1], i) == ReplyAt(cfg, ops, i)
  {
    hide After, Apply;
    assert ops[..i + 1][..i] == ops[..i] && ops[..i + 1][i] == ops[i];
  }

  lemma IssuedUserStays(cfg: Config, ops: seq<Op>, i: nat)
    requires FreshDraws(ops) && i < |ops| && ReplyAt(cfg, ops, i).Authenticated?
    ensures var user := ReplyAt(cfg, ops, i).result.user;
            var found := UserById(After(cfg, ops).users, user.id);
            found.Some? && found.value.email == user.email
  {
    hide After, ReplyAt;
    PrefixReply(cfg, ops, i);
    IssuedForUser(cfg, ops[..i + 1]);
    UsersGrow(cfg, ops, i + 1);
    var early, late := After(cfg, ops[..i + 1]).users, After(cfg, ops).users;
    assert late == early + late[|early|..];
    UserByIdGrows(early, late[|early|..], ReplyAt(cfg, ops, i).result.user.id);
  }

  /** A token is issued once. */
  lemma OneIssue(cfg: Config, ops: seq<Op>, token: Text, i: nat)
    requires FreshDraws(ops)
    requires i < |ops| && ReplyAt(cfg, ops, i).Authenticated? && ops[i].env.token == token
    ensures forall j: nat | Live(cfg, ops, j, token) :: j == i
  {
    hide ReplyAt, LogoutAfter, Tokens;
    OnlyDrawsIssue(cfg, ops, i);
    forall j: nat | Live(cfg, ops, j, token) ensures j == i {
      OnlyDrawsIssue(cfg, ops, j);
    }
  }

  /** A token validates at an instant exactly when some call issued it, it has not been
      logged out since, and its lifetime, counted from the issue, is not over; and then
      it stands for the account it was issued for, which still exists. */
  lemma ValidateIff(cfg: Config, ops: seq<Op>, token: Text, now: int)
    requires FreshDraws(ops) && HashesApart(cfg.scheme, Tokens(ops) + {token})
    ensures var r := Validate(cfg, After(cfg, ops), token, now);
            && (r.Some? <==> exists i: nat :: Live(cfg, ops, i, token) && now < ops[i].env.now + cfg.sessionTtlMs)
            && (forall i: nat | Live(cfg, ops, i, token) && r.Some? ::
                  r.value == Validated(ReplyAt(cfg, ops, i).result.user, ops[i].env.sessionId))
  {
    hide After, ReplyAt, HashToken, HashesApart, LogoutAfter, Tokens;
    if i: nat :| i < |ops| && ReplyAt(cfg, ops, i).Authenticated? && ops[i].env.token == token {
      TokenFinds(cfg, ops, token, i);
      IssuedUserStays(cfg, ops, i);
      OneIssue(cfg, ops, token, i);
    } else {
      TokenUnknown(cfg, ops, token);
    }
  }

  /** Once a token has been presented to logout after its issue, it never validates
      again, whatever calls follow. */
  lemma LoggedOutForever(cfg: Config, ops: seq<Op>, more: seq<Op>, i: nat, token: Text, now: int)
    requires FreshDraws(ops + more) && HashesApart(cfg.scheme, Tokens(ops + more) + {token})
    requires i < |ops| && Draws(ops[i]) && ops[i].env.token == token && LogoutAfter(ops, i, token)
    ensures Validate(cfg, After(cfg, ops + more), token, now) == None
  {
    hide After, ReplyAt, HashToken, HashesApart, LogoutAfter, Tokens, Validate;
    var all := ops + more;
    ValidateIff(cfg, all, token, now);
    LogoutAfterStays(ops, more, i, token);
    assert Draws(all[i]) && all[i] == ops[i];
    forall k: nat ensures !Live(cfg, all, k, token) {
      if Live(cfg, all, k, token) {
        OnlyDrawsIssue(cfg, all, k);
      }
    }
  }

  lemma LogoutAfterStays(ops: seq<Op>, more: seq<Op>, i: nat, token: Text)
    requires LogoutAfter(ops, i, token)
    ensures LogoutAfter(ops + more, i, token)
  {
    var j :| i < j < |ops| && ops[j].LogoutOp? && ops[j].token == token;
    assert (ops + more)[j] == ops[j];
  }

  /** Logout succeeds exactly on live tokens, expired or not. */
  lemma LogoutIff(cfg: Config, ops: seq<Op>, token: Text, env: Ambient)
    requires FreshDraws(ops) && HashesApart(cfg.scheme, Tokens(ops) + {token})
    ensures Logout(cfg, After(cfg, ops), token, env).1.Success? <==> exists i: nat :: Live(cfg, ops, i, token)
  {
    hide After, ReplyAt, HashToken, Tokens, HashesApart, NextEvent, AuditPayload, LogoutAfter;
    if i: nat :| i < |ops| && ReplyAt(cfg, ops, i).Authenticated? && ops[i].env.token == token {
      TokenFinds(cfg, ops, token, i);
      OneIssue(cfg, ops, token, i);
      assert Live(cfg, ops, i, token) <==> !LogoutAfter(ops, i, token);
    } else {
      TokenUnknown(cfg, ops, token);
    }
  }
}
