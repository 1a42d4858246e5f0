/** The audit trail, told from calls and replies alone: who each event is about follows
    from what callers were told before, without a look into the stores. */
module AuthTrail {
  import opened Wrappers
  import opened Texts
  import opened AuditChain
  import opened Auth
  import opened AuthRuns
  import opened AuthAccounts
  import opened AuthSessions

  // ---------------------------------------------------------------- the story

  function Replies(cfg: Config, ops: seq<Op>): (replies: seq<Reply>)
    ensures |replies| == |ops|
  {
    seq(|ops|, i requires 0 <= i < |ops| => ReplyAt(cfg, ops, i))
  }

  /** The user last answered to a signup with a spelling of this email. */
  function AccountFor(ops: seq<Op>, replies: seq<Reply>, email: Text): Option<Text>
    requires |replies| == |ops|
  {
    if ops == [] then None
    else
      var n := |ops| - 1;
      if ops[n].SignupOp? && replies[n].Authenticated? && NormalizeEmail(ops[n].input.email) == NormalizeEmail(email)
      then Some(replies[n].result.user.id)
      else AccountFor(ops[..n], replies[..n], email)
  }

  /** The user last answered together with this token. */
  function HolderOf(ops: seq<Op>, replies: seq<Reply>, token: Text): Option<Text>
    requires |replies| == |ops|
  {
    if ops == [] then None
    else
      var n := |ops| - 1;
      if replies[n].Authenticated? && replies[n].result.token == token then Some(replies[n].result.user.id)
      else HolderOf(ops[..n], replies[..n], token)
  }

  /** What a call adds to the trail, given the calls and replies before it. */
  function Line(ops: seq<Op>, replies: seq<Reply>, op: Op, reply: Reply): seq<Entry>
    requires |replies| == |ops|
  {
    match (op, reply)
    case (SignupOp(input, env), Authenticated(result)) =>
      [EntryFor("user_signup", Some(result.user.id), env, input.ipAddress),
       EntryFor("login_succeeded", Some(result.user.id), env, input.ipAddress)]
    case (LoginOp(input, env), Authenticated(result)) =>
      [EntryFor("login_succeeded", Some(result.user.id), env, input.ipAddress)]
    case (LoginOp(input, env), Rejected(InvalidCredentials)) =>
      [EntryFor("login_failed", AccountFor(ops, replies, input.email), env, input.ipAddress)]
    case (LogoutOp(token, env), LoggedOut) =>
      [EntryFor("logout", HolderOf(ops, replies, token), env, None)]
    case _ => []
  }

  function Story(ops: seq<Op>, replies: seq<Reply>): seq<Entry>
    requires |replies| == |ops|
  {
    if ops == [] then []
    else
      var n := |ops| - 1;
      Story(ops[..n], replies[..n]) + Line(ops[..n], replies[..n], ops[n], replies[n])
  }

  // ---------------------------------------------------------------- the story is what is stored

  lemma RepliesFront(cfg: Config, ops: seq<Op>)
    requires ops != []
    ensures var n := |ops| - 1;
            Replies(cfg, ops)[..n] == Replies(cfg, ops[..n]) && Replies(cfg, ops)[n] == ReplyAt(cfg, ops, n)
  {
    hide ReplyAt;
    forall i: nat | i < |ops| - 1 ensures ReplyAt(cfg, ops[..|ops| - 1], i) == ReplyAt(cfg, ops, i) {
      ReplyStays(cfg, ops, i);
    }
  }

  lemma {:induction false} AccountForIs(cfg: Config, ops: seq<Op>, email: Text)
    ensures var r := AccountFor(ops, Replies(cfg, ops), email);
            && (r.Some? ==> exists i: nat ::
                  Registered(cfg, ops, i, email) && r.value == ReplyAt(cfg, ops, i).result.user.id)
            && (r.None? ==> forall i: nat :: !Registered(cfg, ops, i, email))
  {
    hide ReplyAt, NormalizeEmail, Replies;
    if ops != [] {
      var n := |ops| - 1;
      RepliesFront(cfg, ops);
      AccountForIs(cfg, ops[..n], email);
      forall i: nat | i < n ensures ReplyAt(cfg, ops[..n], i) == ReplyAt(cfg, ops, i) {
        ReplyStays(cfg, ops, i);
      }
      forall i: nat ensures Registered(cfg, ops, i, email) <==>
        Registered(cfg, ops[..n], i, email) || (i == n && Registered(cfg, ops, n, email)) {}
    }
  }

  /** The reply to call i carried this token. */
  ghost predicate Answered(cfg: Config, ops: seq<Op>, i: nat, token: Text) {
    i < |ops| && ReplyAt(cfg, ops, i).Authenticated? && ReplyAt(cfg, ops, i).result.token == token
  }

  lemma {:induction false} HolderOfIs(cfg: Config, ops: seq<Op>, token: Text)
    ensures var r := HolderOf(ops, Replies(cfg, ops), token);
            && (r.Some? ==> exists i: nat ::
                  Answered(cfg, ops, i, token) && r.value == ReplyAt(cfg, ops, i).result.user.id)
            && (r.None? ==> forall i: nat :: !Answered(cfg, ops, i, token))
  {
    hide ReplyAt, Replies;
    if ops != [] {
      var n := |ops| - 1;
      RepliesFront(cfg, ops);
      HolderOfIs(cfg, ops[..n], token);
      forall i: nat | i < n ensures ReplyAt(cfg, ops[..n], i) == ReplyAt(cfg, ops, i) {
        ReplyStays(cfg, ops, i);
      }
      forall i: nat ensures Answered(cfg, ops, i, token) <==>
        Answered(cfg, ops[..n], i, token) || (i == n && Answered(cfg, ops, n, token)) {}
    }
  }

  /** A reply carries the token its call drew, and a signup's the id it drew. */
  lemma RepliesTell(cfg: Config, ops: seq<Op>, i: nat)
    requires i < |ops| && ReplyAt(cfg, ops, i).Authenticated?
    ensures ReplyAt(cfg, ops, i).result.token == ops[i].env.token
    ensures ops[i].SignupOp? ==> ReplyAt(cfg, ops, i).result.user.id == ops[i].env.userId
  {
    hide Apply, After;
    var s := After(cfg, ops[..i]);
    IssueAdds(cfg, s, ops[i]);
    if ops[i].SignupOp? {
      SignupAnswers(cfg, s, ops[i].input, ops[i].env);
    }
  }

  lemma AccountIsStored(cfg: Config, ops: seq<Op>, email: Text)
    requires FreshDraws(ops)
    ensures var user := UserByEmail(After(cfg, ops).users, NormalizeEmail(email));
            AccountFor(ops, Replies(cfg, ops), email) == if user.Some? then Some(user.value.id) else None
  {
    hide After, ReplyAt, NormalizeEmail, Replies, FreshDraws, AccountFor;
    AccountForIs(cfg, ops, email);
    if AccountFor(ops, Replies(cfg, ops), email).None? {
      NoAccount(cfg, ops, email);
    } else {
      var i: nat :| Registered(cfg, ops, i, email) &&
        AccountFor(ops, Replies(cfg, ops), email).value == ReplyAt(cfg, ops, i).result.user.id;
      var k := AccountOf(cfg, ops, i, email);
      RepliesTell(cfg, ops, i);
    }
  }

  lemma HolderIsStored(cfg: Config, ops: seq<Op>, token: Text)
    requires FreshDraws(ops) && HashesApart(cfg.scheme, Tokens(ops) + {token})
    ensures var session := SessionByHash(After(cfg, ops).sessions, HashToken(cfg.scheme, token));
            HolderOf(ops, Replies(cfg, ops), token) == if session.Some? then Some(session.value.userId) else None
  {
    hide After, ReplyAt, HashToken, Replies, FreshDraws, HashesApart, Tokens, HolderOf;
    HolderOfIs(cfg, ops, token);
    if HolderOf(ops, Replies(cfg, ops), token).None? {
      forall i: nat | i < |ops| && ReplyAt(cfg, ops, i).Authenticated? ensures ops[i].env.token != token {
        RepliesTell(cfg, ops, i);
        assert !Answered(cfg, ops, i, token);
      }
      TokenUnknown(cfg, ops, token);
    } else {
      var i: nat :| Answered(cfg, ops, i, token) &&
        HolderOf(ops, Replies(cfg, ops), token).value == ReplyAt(cfg, ops, i).result.user.id;
      RepliesTell(cfg, ops, i);
      TokenFinds(cfg, ops, token, i);
    }
  }

  // ---------------------------------------------------------------- the trail is the story

  lemma ToldIsLine(cfg: Config, ops: seq<Op>, op: Op, reply: Reply)
    requires FreshDraws(ops)
    requires op.LogoutOp? ==> HashesApart(cfg.scheme, Tokens(ops) + {op.token})
    ensures Told(cfg, After(cfg, ops), op, reply) == Line(ops, Replies(cfg, ops), op, reply)
  {
    hide After, Replies, FreshDraws, HashesApart, Tokens, HolderOf, AccountFor, HashToken, NormalizeEmail, EntryFor;
    if op.LogoutOp? {
      HolderIsStored(cfg, ops, op.token);
    }
    if op.LoginOp? {
      AccountIsStored(cfg, ops, op.input.email);
    }
  }

  lemma TokensFront(cfg: Config, ops: seq<Op>)
    requires ops != [] && FreshDraws(ops) && HashesApart(cfg.scheme, Tokens(ops))
    ensures var n := |ops| - 1;
            && FreshDraws(ops[..n]) && HashesApart(cfg.scheme, Tokens(ops[..n]))
            && (ops[n].LogoutOp? ==> HashesApart(cfg.scheme, Tokens(ops[..n]) + {ops[n].token}))
  {
    hide HashToken;
    var n := |ops| - 1;
    FreshFront(cfg, ops, {});
    assert Tokens(ops[..n]) <= Tokens(ops);
    if ops[n].LogoutOp? {
      assert ops[n].token in Tokens(ops);
    }
  }

  /** The trail of every run passes the chain check and is the story of its calls and
      replies: a logout is the doing of the user its token was answered with, a refused
      login concerns the user its email was signed up for, if there is one. */
  lemma TrailTellsStory(cfg: Config, ops: seq<Op>)
    requires FreshDraws(ops) && HashesApart(cfg.scheme, Tokens(ops))
    ensures ChainValid(cfg.scheme, After(cfg, ops).log)
    ensures Entries(After(cfg, ops).log) == Story(ops, Replies(cfg, ops))
  {
    TrailTellsHistory(cfg, ops);
    HistoryIsStory(cfg, ops);
  }

  lemma {:induction false} HistoryIsStory(cfg: Config, ops: seq<Op>)
    requires FreshDraws(ops) && HashesApart(cfg.scheme, Tokens(ops))
    ensures History(cfg, ops) == Story(ops, Replies(cfg, ops))
  {
    hide After, Replies, FreshDraws, HashesApart, Tokens, Told, Line, ReplyAt;
    if ops != [] {
      var n := |ops| - 1;
      TokensFront(cfg, ops);
      HistoryIsStory(cfg, ops[..n]);
      RepliesFront(cfg, ops);
      ToldIsLine(cfg, ops[..n], ops[n], ReplyAt(cfg, ops, n));
    }
  }
}
