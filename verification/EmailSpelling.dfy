/** Which emails count as the same, unit by unit, and what signup and login make of it. */
module EmailSpelling {
  import opened Wrappers
  import opened Texts
  import opened Decimals
  import opened Trimming
  import opened Password
  import opened Auth
  import opened AuthRuns
  import opened AuthAccounts

  /** Adding spaces around an email changes nothing. */
  lemma OuterSpacesIgnored(before: Text, email: Text, after: Text)
    requires AllSpaces(before) && AllSpaces(after)
    ensures NormalizeEmail(before + email + after) == NormalizeEmail(email)
  {
    TrimIgnoresOuter(before, email, after);
  }

  // ---------------------------------------------------------------- letter case

  /** Equal unit by unit, up to the case of the letters A to Z. */
  predicate CaseAlike(a: Text, b: Text) {
    |a| == |b| && forall i | 0 <= i < |a| :: UnitAlike(a[i], b[i])
  }

  predicate UnitAlike(u: CodeUnit, v: CodeUnit) {
    u == v || (65 <= u <= 90 && v == u + 32) || (65 <= v <= 90 && u == v + 32)
  }

  lemma LowerAlike(u: CodeUnit, v: CodeUnit)
    ensures Lower(u) == Lower(v) <==> UnitAlike(u, v)
    ensures !(65 <= Lower(u) <= 90)
    ensures !(65 <= u <= 90) ==> Lower(u) == u
  {
  }

  lemma ToLowerAlike(a: Text, b: Text)
    ensures ToLower(a) == ToLower(b) <==> CaseAlike(a, b)
  {
    hide Lower;
    forall u: CodeUnit, v: CodeUnit ensures Lower(u) == Lower(v) <==> UnitAlike(u, v) {
      LowerAlike(u, v);
    }
    if ToLower(a) == ToLower(b) {
      forall i | 0 <= i < |a| ensures UnitAlike(a[i], b[i]) {
        assert ToLower(a)[i] == ToLower(b)[i];
      }
    }
  }

  /** Emails without outer spaces normalise alike exactly when they agree up to case. */
  lemma BareAlikeIff(a: Text, b: Text)
    requires Bare(a) && Bare(b)
    ensures NormalizeEmail(a) == NormalizeEmail(b) <==> CaseAlike(a, b)
  {
    BareIsTrimmed(a);
    BareIsTrimmed(b);
    ToLowerAlike(a, b);
  }

  /** A normal email has no letter A to Z and no outer space, and is left as it is. */
  lemma NormalForm(email: Text)
    ensures forall u | u in NormalizeEmail(email) :: !(65 <= u <= 90)
    ensures Bare(NormalizeEmail(email))
    ensures Bare(email) && (forall u | u in email :: !(65 <= u <= 90)) ==> NormalizeEmail(email) == email
  {
    hide Lower, Trim;
    var i, j := Middle(email);
    var core := email[i..j];
    forall k | 0 <= k < |core|
      ensures !(65 <= ToLower(core)[k] <= 90) && (core[k] !in SPACES ==> ToLower(core)[k] !in SPACES)
    {
      LowerAlike(core[k], core[k]);
      LowerNoSpace(core[k]);
    }
    if Bare(email) && forall u | u in email :: !(65 <= u <= 90) {
      BareIsTrimmed(email);
      forall k | 0 <= k < |email| ensures ToLower(email)[k] == email[k] {
        assert email[k] in email;
        LowerAlike(email[k], email[k]);
      }
    }
  }

  lemma LowerNoSpace(u: CodeUnit)
    ensures Lower(u) in SPACES ==> u in SPACES
  {
  }

  // ---------------------------------------------------------------- spellings

  /** The same email but for outer spaces and the case of A to Z. */
  ghost predicate SameSpelling(a: Text, b: Text) {
    exists i: nat, j: nat, k: nat, l: nat ::
      i <= j <= |a| && k <= l <= |b| && Spelled(a, i, j) && Spelled(b, k, l) && CaseAlike(a[i..j], b[k..l])
  }

  predicate Spelled(t: Text, i: nat, j: nat)
    requires i <= j <= |t|
  {
    AllSpaces(t[..i]) && AllSpaces(t[j..]) && Bare(t[i..j])
  }

  lemma SpelledNormal(t: Text, i: nat, j: nat)
    requires i <= j <= |t| && Spelled(t, i, j)
    ensures NormalizeEmail(t) == NormalizeEmail(t[i..j])
  {
    assert t == t[..i] + t[i..j] + t[j..];
    OuterSpacesIgnored(t[..i], t[i..j], t[j..]);
  }

  /** Emails normalise alike exactly when they are spellings of one another. */
  lemma SameSpellingIff(a: Text, b: Text)
    ensures NormalizeEmail(a) == NormalizeEmail(b) <==> SameSpelling(a, b)
  {
    hide NormalizeEmail, CaseAlike, Bare, AllSpaces;
    if SameSpelling(a, b) {
      var i: nat, j: nat, k: nat, l: nat :|
        i <= j <= |a| && k <= l <= |b| && Spelled(a, i, j) && Spelled(b, k, l) && CaseAlike(a[i..j], b[k..l]);
      SpelledNormal(a, i, j);
      SpelledNormal(b, k, l);
      BareAlikeIff(a[i..j], b[k..l]);
    }
    if NormalizeEmail(a) == NormalizeEmail(b) {
      var i, j := Middle(a);
      var k, l := Middle(b);
      assert Spelled(a, i, j) && Spelled(b, k, l);
      SpelledNormal(a, i, j);
      SpelledNormal(b, k, l);
      BareAlikeIff(a[i..j], b[k..l]);
    }
  }

  // ---------------------------------------------------------------- over runs

  /** Call i signed up with a spelling of this email. */
  ghost predicate SignedUp(cfg: Config, ops: seq<Op>, i: nat, email: Text) {
    && i < |ops| && ops[i].SignupOp? && ReplyAt(cfg, ops, i).Authenticated?
    && SameSpelling(ops[i].input.email, email)
  }

  lemma SignedUpIff(cfg: Config, ops: seq<Op>, i: nat, email: Text)
    ensures SignedUp(cfg, ops, i, email) <==> Registered(cfg, ops, i, email)
  {
    hide NormalizeEmail, SameSpelling, ReplyAt;
    if i < |ops| && ops[i].SignupOp? {
      SameSpellingIff(ops[i].input.email, email);
    }
  }

  /** Signup turns away passwords shorter than 8 or longer than 256, and of the others
      exactly the spellings of emails already signed up. */
  lemma SignupRefusesSpellings(cfg: Config, ops: seq<Op>, input: Credentials, env: Ambient)
    requires FreshDraws(ops)
    ensures var r := Signup(cfg, After(cfg, ops), input, env).1;
            && (r == Failure(BadPasswordLength) <==> |input.password| < 8 || |input.password| > 256)
            && (8 <= |input.password| <= 256 ==>
                  var taken := exists i: nat :: SignedUp(cfg, ops, i, input.email);
                  var key := cfg.kdf(cfg.pepper + input.password, env.salt, 64, 16384.0, 8.0, 1.0);
                  && (r == Failure(EmailTaken) <==> taken)
                  && (r == Failure(KdfRejected) <==> !taken && key.None?)
                  && (r.Success? <==> !taken && key.Some?))
  {
    hide After, SignedUp, Registered, FreshDraws, HashPassword, CreateSession, NormalizeEmail;
    forall i: nat ensures SignedUp(cfg, ops, i, input.email) <==> Registered(cfg, ops, i, input.email) {
      SignedUpIff(cfg, ops, i, input.email);
    }
    HashPasswordIs(cfg.kdf, input.password, cfg.pepper, env.salt);
    if 8 <= |input.password| <= 256 {
      SignupRejectsRegistered(cfg, ops, input, env);
    }
  }

  /** Login with any spelling reaches the account signed up, and succeeds exactly when the
      password derives the key that the signup's derived; with another email it fails. */
  lemma LoginReachesSpellings(cfg: Config, ops: seq<Op>, i: nat, input: Credentials, env: Ambient)
    requires FreshDraws(ops) && KeepsLength(cfg.kdf)
    ensures var r := Login(cfg, After(cfg, ops), input, env).1;
            && (SignedUp(cfg, ops, i, input.email) ==>
                  var key := cfg.kdf(cfg.pepper + input.password, ops[i].env.salt, 64, 16384.0, 8.0, 1.0);
                  var recorded := cfg.kdf(cfg.pepper + ops[i].input.password, ops[i].env.salt, 64, 16384.0, 8.0, 1.0);
                  && (r == Failure(KdfRejected) <==> key.None?)
                  && (r == Failure(InvalidCredentials) <==> key.Some? && key != recorded)
                  && (r.Success? <==> key.Some? && key == recorded)
                  && (r.Success? ==>
                        && r.value.token == env.token && r.value.user.id == ops[i].env.userId
                        && SameSpelling(r.value.user.email, input.email)))
            && ((forall k: nat :: !SignedUp(cfg, ops, k, input.email)) ==>
                  var key := cfg.kdf(cfg.pepper + input.password, seq(16, _ => 0), 64, 16384.0, 8.0, 1.0);
                  r == Failure(if key.None? then KdfRejected else InvalidCredentials))
  {
    hide After, SignedUp, Registered, FreshDraws, Login, NormalizeEmail, KeepsLength, SameSpelling;
    NormalizeIdempotent(input.email);
    SameSpellingIff(NormalizeEmail(input.email), input.email);
    forall k: nat ensures SignedUp(cfg, ops, k, input.email) <==> Registered(cfg, ops, k, input.email) {
      SignedUpIff(cfg, ops, k, input.email);
    }
    if Registered(cfg, ops, i, input.email) {
      LoginReachesAccount(cfg, ops, i, input, env);
    }
    if forall k: nat :: !Registered(cfg, ops, k, input.email) {
      UnknownEmail(cfg, ops, input, env);
    }
  }

  /** With an email nobody signed up with, the key of the placeholder record is derived, and
      the login refused whatever it is. */
  lemma UnknownEmail(cfg: Config, ops: seq<Op>, input: Credentials, env: Ambient)
    requires FreshDraws(ops) && forall i: nat :: !Registered(cfg, ops, i, input.email)
    ensures var key := cfg.kdf(cfg.pepper + input.password, seq(16, _ => 0), 64, 16384.0, 8.0, 1.0);
            Login(cfg, After(cfg, ops), input, env).1 ==
              Failure(if key.None? then KdfRejected else InvalidCredentials)
  {
    hide After, Registered, FreshDraws, NormalizeEmail, VerifyPassword, Password.Record;
    NoAccount(cfg, ops, input.email);
    VerifyComparesKeys(cfg.kdf, input.password, cfg.pepper, Zeros(16), Zeros(64));
    assert Zeros(16) == seq(16, _ => 0);
  }

  lemma NormalEmailsDiffer(a: Text, b: Text)
    requires NormalizeEmail(a) == a && NormalizeEmail(b) == b && a != b
    ensures !SameSpelling(a, b)
  {
    hide NormalizeEmail, SameSpelling;
    SameSpellingIff(a, b);
  }

  /** Stored emails hold no A to Z and no outer space, and no two are spellings of one
      another. */
  lemma StoredEmails(cfg: Config, ops: seq<Op>)
    requires FreshDraws(ops)
    ensures var users := After(cfg, ops).users;
            && (forall user | user in users ::
                  Bare(user.email) && forall u | u in user.email :: !(65 <= u <= 90))
            && (forall j, k | 0 <= j < k < |users| :: !SameSpelling(users[j].email, users[k].email))
  {
    hide After, NormalizeEmail, SameSpelling, Bare, FreshDraws;
    EmailsUniqueAndNormal(cfg, ops);
    var users := After(cfg, ops).users;
    forall user | user in users ensures Bare(user.email) && forall u | u in user.email :: !(65 <= u <= 90) {
      NormalForm(user.email);
    }
    forall j, k | 0 <= j < k < |users| ensures !SameSpelling(users[j].email, users[k].email) {
      assert users[j] in users && users[k] in users;
      NormalEmailsDiffer(users[j].email, users[k].email);
    }
  }
}
