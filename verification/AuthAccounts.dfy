/** Accounts over every run: who is registered, and what signup and login make of it. */
module AuthAccounts {
  import opened Wrappers
  import opened Texts
  import opened AuditChain
  import opened Password
  import opened Auth
  import opened AuthRuns

  // ---------------------------------------------------------------- finding

  lemma {:induction false} UserByIdGrows(users: seq<UserAccountRecord>, more: seq<UserAccountRecord>, id: Text)
    requires UserById(users, id).Some?
    ensures UserById(users + more, id) == UserById(users, id)
  {
    assert (users + more)[0] == users[0];
    if users[0].id != id {
      UserByIdGrows(users[1..], more, id);
      assert (users + more)[1..] == users[1..] + more;
    }
  }

  lemma {:induction false} UserByIdFinds(users: seq<UserAccountRecord>, k: nat)
    requires k < |users| && forall j | 0 <= j < k :: users[j].id != users[k].id
    ensures UserById(users, users[k].id) == Some(users[k])
  {
    if k > 0 {
      UserByIdFinds(users[1..], k - 1);
    }
  }

  lemma {:induction false} UserByEmailFinds(users: seq<UserAccountRecord>, k: nat)
    requires k < |users| && forall j | 0 <= j < k :: users[j].email != users[k].email
    ensures UserByEmail(users, users[k].email) == Some(users[k])
  {
    if k > 0 {
      UserByEmailFinds(users[1..], k - 1);
    }
  }

  // ---------------------------------------------------------------- accounts

  /** The calls that created accounts, in order. */
  function Signups(cfg: Config, ops: seq<Op>): seq<nat> {
    if ops == [] then []
    else
      var n := |ops| - 1;
      Signups(cfg, ops[..n]) + if ops[n].SignupOp? && ReplyAt(cfg, ops, n).Authenticated? then [n] else []
  }

  /** The key a password derives under a salt. */
  function DerivedKey(cfg: Config, password: Text, salt: Bytes): Option<Bytes> {
    cfg.kdf(cfg.pepper + password, salt, KEY_LENGTH, SCRYPT_N as real, SCRYPT_R as real, SCRYPT_P as real)
  }

  /** The account an accepted signup stores. */
  function Account(input: Credentials, env: Ambient, derived: Bytes): UserAccountRecord {
    UserAccountRecord(env.userId, NormalizeEmail(input.email), Record(env.salt, derived), Units("active"))
  }

  /** Call i created this account. */
  ghost predicate CreatedBy(cfg: Config, ops: seq<Op>, user: UserAccountRecord, i: nat) {
    && i < |ops| && ops[i].SignupOp? && ReplyAt(cfg, ops, i).Authenticated?
    && DerivedKey(cfg, ops[i].input.password, ops[i].env.salt).Some?
    && user == Account(ops[i].input, ops[i].env, DerivedKey(cfg, ops[i].input.password, ops[i].env.salt).value)
  }

  ghost predicate AccountsMatch(cfg: Config, ops: seq<Op>, users: seq<UserAccountRecord>) {
    && |users| == |Signups(cfg, ops)|
    && (forall k | 0 <= k < |users| :: CreatedBy(cfg, ops, users[k], Signups(cfg, ops)[k]))
    && (forall j, k | 0 <= j < k < |users| :: users[j].id != users[k].id && users[j].email != users[k].email)
  }

  lemma LastSignup(cfg: Config, ops: seq<Op>)
    requires ops != []
    ensures var n := |ops| - 1;
            Signups(cfg, ops) == Signups(cfg, ops[..n]) +
              if ops[n].SignupOp? && ReplyAt(cfg, ops, n).Authenticated? then [n] else []
  {
    hide ReplyAt;
  }

  lemma {:induction false} SignupsAre(cfg: Config, ops: seq<Op>, i: nat)
    ensures i in Signups(cfg, ops) <==> i < |ops| && ops[i].SignupOp? && ReplyAt(cfg, ops, i).Authenticated?
  {
    if ops != [] {
      SignupsAre(cfg, ops[..|ops| - 1], i);
      if i < |ops| - 1 {
        ReplyStays(cfg, ops, i);
      }
    }
  }

  lemma CreatedByStays(cfg: Config, ops: seq<Op>, user: UserAccountRecord, i: nat)
    requires ops != [] && CreatedBy(cfg, ops[..|ops| - 1], user, i)
    ensures CreatedBy(cfg, ops, user, i)
  {
    ReplyStays(cfg, ops, i);
  }

  /** A call other than an accepted signup leaves the accounts alone. */
  lemma OnlySignupAddsUsers(cfg: Config, s: AuthState, op: Op)
    ensures var (t, reply) := Apply(cfg, s, op);
            !(op.SignupOp? && reply.Authenticated?) ==> t.users == s.users
  {
  }

  lemma AccountsStay(cfg: Config, ops: seq<Op>)
    requires ops != [] && !(ops[|ops| - 1].SignupOp? && ReplyAt(cfg, ops, |ops| - 1).Authenticated?)
    requires AccountsMatch(cfg, ops[..|ops| - 1], After(cfg, ops[..|ops| - 1]).users)
    ensures AccountsMatch(cfg, ops, After(cfg, ops).users)
  {
    hide After, ReplyAt, Apply, NormalizeEmail, Password.Record, DerivedKey, Signups;
    var front := ops[..|ops| - 1];
    var users := After(cfg, front).users;
    LastCall(cfg, ops);
    LastSignup(cfg, ops);
    OnlySignupAddsUsers(cfg, After(cfg, front), ops[|ops| - 1]);
    forall k | 0 <= k < |users| ensures CreatedBy(cfg, ops, users[k], Signups(cfg, front)[k]) {
      CreatedByStays(cfg, ops, users[k], Signups(cfg, front)[k]);
    }
  }

  lemma {:induction false} AccountsAreSignups(cfg: Config, ops: seq<Op>)
    requires FreshDraws(ops)
    ensures AccountsMatch(cfg, ops, After(cfg, ops).users)
  {
    if ops == [] {
      assert After(cfg, ops) == EMPTY;
    } else {
      AccountsAreSignups(cfg, ops[..|ops| - 1]);
      if ops[|ops| - 1].SignupOp? && ReplyAt(cfg, ops, |ops| - 1).Authenticated? {
        AccountAdded(cfg, ops);
      } else {
        AccountsStay(cfg, ops);
      }
    }
  }

  /** An accepted signup stores one more account, under an email not stored before. */
  lemma SignupAdds(cfg: Config, s: AuthState, input: Credentials, env: Ambient)
    requires Apply(cfg, s, SignupOp(input, env)).1.Authenticated?
    ensures var key := DerivedKey(cfg, input.password, env.salt);
            && key.Some?
            && Apply(cfg, s, SignupOp(input, env)).0.users == PutUser(s.users, Account(input, env, key.value))
            && UserByEmail(s.users, NormalizeEmail(input.email)).None?
  {
    hide HashToken, NextEvent, AuditPayload, NormalizeEmail, Password.Record, PutUser, PutSession;
  }

  /** The account of an accepted signup is new in id and in email. */
  lemma AccountIsNew(cfg: Config, ops: seq<Op>, derived: Bytes)
    requires ops != [] && FreshDraws(ops) && ops[|ops| - 1].SignupOp?
    requires AccountsMatch(cfg, ops[..|ops| - 1], After(cfg, ops[..|ops| - 1]).users)
    requires UserByEmail(After(cfg, ops[..|ops| - 1]).users, NormalizeEmail(ops[|ops| - 1].input.email)).None?
    ensures var account := Account(ops[|ops| - 1].input, ops[|ops| - 1].env, derived);
            forall u | u in After(cfg, ops[..|ops| - 1]).users :: u.id != account.id && u.email != account.email
  {
    hide After, ReplyAt, NormalizeEmail, Password.Record, DerivedKey, Signups;
    var front := ops[..|ops| - 1];
    var users := After(cfg, front).users;
    forall u | u in users ensures u.id != ops[|ops| - 1].env.userId {
      var k :| 0 <= k < |users| && users[k] == u;
      var i := Signups(cfg, front)[k];
      assert CreatedBy(cfg, front, u, i);
      assert front[i] == ops[i];
    }
  }

  lemma AccountAdded(cfg: Config, ops: seq<Op>)
    requires ops != [] && FreshDraws(ops)
    requires AccountsMatch(cfg, ops[..|ops| - 1], After(cfg, ops[..|ops| - 1]).users)
    requires ops[|ops| - 1].SignupOp? && ReplyAt(cfg, ops, |ops| - 1).Authenticated?
    ensures AccountsMatch(cfg, ops, After(cfg, ops).users)
  {
    hide After, ReplyAt, Apply, NormalizeEmail, Password.Record, DerivedKey, Signups, PutUser;
    var n := |ops| - 1;
    var front := ops[..n];
    var users := After(cfg, front).users;
    var input, env := ops[n].input, ops[n].env;
    LastCall(cfg, ops);
    LastSignup(cfg, ops);
    SignupAdds(cfg, After(cfg, front), input, env);
    var account := Account(input, env, DerivedKey(cfg, input.password, env.salt).value);
    AccountIsNew(cfg, ops, DerivedKey(cfg, input.password, env.salt).value);
    PutNewUser(users, account);
    assert CreatedBy(cfg, ops, account, n);
    forall k | 0 <= k < |users| ensures CreatedBy(cfg, ops, users[k], Signups(cfg, front)[k]) {
      CreatedByStays(cfg, ops, users[k], Signups(cfg, front)[k]);
    }
  }

  /** Stored emails are normalised and pairwise distinct, after every run. */
  lemma EmailsUniqueAndNormal(cfg: Config, ops: seq<Op>)
    requires FreshDraws(ops)
    ensures var users := After(cfg, ops).users;
            && (forall u | u in users :: NormalizeEmail(u.email) == u.email)
            && (forall j, k | 0 <= j < k < |users| :: users[j].email != users[k].email)
  {
    hide After, ReplyAt, NormalizeEmail, Password.Record, DerivedKey, Signups;
    AccountsAreSignups(cfg, ops);
    var users := After(cfg, ops).users;
    forall u | u in users ensures NormalizeEmail(u.email) == u.email {
      var k :| 0 <= k < |users| && users[k] == u;
      var i := Signups(cfg, ops)[k];
      assert CreatedBy(cfg, ops, u, i);
      NormalizeIdempotent(ops[i].input.email);
    }
  }

  /** Call i created the account for every spelling of this email. */
  ghost predicate Registered(cfg: Config, ops: seq<Op>, i: nat, email: Text) {
    && i < |ops| && ops[i].SignupOp? && ReplyAt(cfg, ops, i).Authenticated?
    && NormalizeEmail(ops[i].input.email) == NormalizeEmail(email)
  }

  /** Where a registered email's account stands. */
  lemma AccountOf(cfg: Config, ops: seq<Op>, i: nat, email: Text) returns (k: nat)
    requires FreshDraws(ops) && Registered(cfg, ops, i, email)
    ensures k < |After(cfg, ops).users| && CreatedBy(cfg, ops, After(cfg, ops).users[k], i)
    ensures UserByEmail(After(cfg, ops).users, NormalizeEmail(email)) == Some(After(cfg, ops).users[k])
    ensures UserById(After(cfg, ops).users, ops[i].env.userId) == Some(After(cfg, ops).users[k])
  {
    hide After, ReplyAt, NormalizeEmail, Password.Record, DerivedKey, Signups;
    AccountsAreSignups(cfg, ops);
    SignupsAre(cfg, ops, i);
    k :| 0 <= k < |Signups(cfg, ops)| && Signups(cfg, ops)[k] == i;
    var users := After(cfg, ops).users;
    assert CreatedBy(cfg, ops, users[k], i);
    UserByEmailFinds(users, k);
    UserByIdFinds(users, k);
  }

  lemma NoAccount(cfg: Config, ops: seq<Op>, email: Text)
    requires FreshDraws(ops) && forall i: nat :: !Registered(cfg, ops, i, email)
    ensures UserByEmail(After(cfg, ops).users, NormalizeEmail(email)) == None
  {
    hide After, ReplyAt, NormalizeEmail, Password.Record, DerivedKey, Signups;
    AccountsAreSignups(cfg, ops);
    var users := After(cfg, ops).users;
    forall u | u in users ensures u.email != NormalizeEmail(email) {
      var k :| 0 <= k < |users| && users[k] == u;
      assert CreatedBy(cfg, ops, u, Signups(cfg, ops)[k]);
      assert !Registered(cfg, ops, Signups(cfg, ops)[k], email);
    }
  }

  /** Signup turns away exactly the spellings of emails already registered. */
  lemma SignupRejectsRegistered(cfg: Config, ops: seq<Op>, input: Credentials, env: Ambient)
    requires FreshDraws(ops) && AcceptablePassword(input.password)
    ensures Signup(cfg, After(cfg, ops), input, env).1 == Failure(EmailTaken)
       <==> exists i: nat :: Registered(cfg, ops, i, input.email)
  {
    hide HashPassword, NormalizeEmail, CreateSession;
    if i: nat :| Registered(cfg, ops, i, input.email) {
      var k := AccountOf(cfg, ops, i, input.email);
    } else {
      NoAccount(cfg, ops, input.email);
    }
  }

  /** Login with any spelling of a registered email reaches that account, and succeeds
      exactly when the password derives the recorded key. */
  lemma LoginReachesAccount(cfg: Config, ops: seq<Op>, i: nat, input: Credentials, env: Ambient)
    requires FreshDraws(ops) && KeepsLength(cfg.kdf) && Registered(cfg, ops, i, input.email)
    ensures var r := Login(cfg, After(cfg, ops), input, env).1;
            var key := DerivedKey(cfg, input.password, ops[i].env.salt);
            && (key.None? ==> r == Failure(KdfRejected))
            && (key.Some? && key != DerivedKey(cfg, ops[i].input.password, ops[i].env.salt) ==>
                  r == Failure(InvalidCredentials))
            && (key.Some? && key == DerivedKey(cfg, ops[i].input.password, ops[i].env.salt) ==>
                  r.Success? && r.value.token == env.token &&
                  r.value.user == PublicUser(ops[i].env.userId, NormalizeEmail(input.email)))
  {
    hide VerifyPassword, Password.Record, NormalizeEmail, PlaceholderRecord, HashToken, NextEvent, AuditPayload,
         After, ReplyAt, Recorded, PutSession;
    var k := AccountOf(cfg, ops, i, input.email);
    var derived := DerivedKey(cfg, ops[i].input.password, ops[i].env.salt).value;
    VerifyComparesKeys(cfg.kdf, input.password, cfg.pepper, ops[i].env.salt, derived);
  }

  /** With an unregistered email no password logs in. */
  lemma LoginNeedsAccount(cfg: Config, ops: seq<Op>, input: Credentials, env: Ambient)
    requires FreshDraws(ops) && forall i: nat :: !Registered(cfg, ops, i, input.email)
    ensures Login(cfg, After(cfg, ops), input, env).1.Failure?
  {
    NoAccount(cfg, ops, input.email);
    hide VerifyPassword, PlaceholderRecord;
  }
}
