/** What is hashed for each event, character by character: the three parts of the hashed
    bytes, and the canonical text of every event the service records. */
module AuditText {
  import opened Wrappers
  import opened Texts
  import opened Utf8
  import opened Hex
  import opened Json
  import opened JsonText
  import opened AuditHash
  import opened AuditChain
  import opened Password
  import opened Auth
  import opened AuthRuns

  // ---------------------------------------------------------------- the hashed bytes

  /** The secret, then the previous hash or the seven letters of GENESIS, then the
      canonical text; the hash is the digest of these in hex. */
  lemma HashIs(scheme: Scheme, payload: JsObject, previous: Option<Text>)
    ensures var before := if previous.Some? then previous.value else [71, 69, 78, 69, 83, 73, 83];
            var bytes := Encode(scheme.secret) + Encode(before) + Encode(Canonical(scheme.keys, payload));
            FromHex(ComputeHash(scheme, payload, previous)) == scheme.sha256(bytes)
  {
    assert Units("GENESIS") == [71, 69, 78, 69, 83, 73, 83];
    FromHexInverts(scheme.sha256(Stream(scheme, payload, previous)));
  }

  /** A stored session token is the hex of the digest of its bytes, not the token. */
  lemma TokenHashIs(scheme: Scheme, token: Text)
    ensures FromHex(HashToken(scheme, token)) == scheme.sha256(Encode(token)) && |HashToken(scheme, token)| == 64
  {
    FromHexInverts(scheme.sha256(Encode(token)));
  }

  // ---------------------------------------------------------------- the text of an event

  /** The pieces one after another. */
  function Flat(pieces: seq<Text>): Text {
    if pieces == [] then [] else pieces[0] + Flat(pieces[1..])
  }

  /** The canonical text of an event, given the printed values that vary. */
  function EventText(actor: Text, action: Text, occurredAt: Text, ipAddress: Text, deviceInfo: Text, newValue: Text)
    : Text
  {
    Units("{") + Flat([
      Units("\"actorUserId\":") + actor,
      Units(",\"actorRole\":") + Units("\"personal_user\""),
      Units(",\"profileKind\":") + Units("null"),
      Units(",\"profileId\":") + Units("null"),
      Units(",\"agreementId\":") + Units("null"),
      Units(",\"action\":") + action,
      Units(",\"occurredAt\":") + occurredAt,
      Units(",\"ipAddress\":") + ipAddress,
      Units(",\"deviceInfo\":") + deviceInfo,
      Units(",\"previousValue\":") + Units("null"),
      Units(",\"newValue\":") + newValue,
      Units(",\"reason\":") + Units("null"),
      Units(",\"authStrength\":") + Units("\"basic\""),
      Units(",\"relatedDocumentId\":") + Units("null"),
      Units(",\"relatedCaseId\":") + Units("null")
    ]) + Units("}")
  }

  /** Letters and underscores. */
  predicate IsName(s: string) {
    forall i | 0 <= i < |s| :: 'a' <= s[i] <= 'z' || 'A' <= s[i] <= 'Z' || s[i] == '_'
  }

  lemma UnitsJoin(a: string, b: string)
    ensures Units(a + b) == Units(a) + Units(b)
  {
  }

  /** A name prints between two quotes. */
  lemma NamePrints(name: string)
    requires IsName(name)
    ensures Stringify(String(Units(name))) == Units("\"" + name + "\"")
  {
    hide Stringify;
    var t := Units(name);
    forall u | u in t ensures 0x20 <= u && u != 34 && u != 92 && !(0xD800 <= u <= 0xDFFF) {
      var i :| 0 <= i < |t| && t[i] == u;
    }
    PlainPrints(t);
    assert Units("\"") == [34];
    UnitsJoin("\"", name);
    UnitsJoin("\"" + name, "\"");
  }

  /** A member under a name. */
  lemma NamedMember(name: string, v: Json, quoted: string)
    requires IsName(name) && quoted == "\"" + name + "\":"
    ensures StringifyMember(Member(Units(name), v)) == Units(quoted) + Stringify(v)
  {
    hide Stringify, StringifyMember;
    NamePrints(name);
    MemberPrinted(Member(Units(name), v));
    assert Units(":") == [58];
    UnitsJoin("\"" + name + "\"", ":");
    assert "\"" + name + "\"" + ":" == quoted;
  }

  /** The same after a comma. */
  lemma NextMember(name: string, v: Json, quoted: string)
    requires IsName(name) && quoted == ",\"" + name + "\":"
    ensures [COMMA] + StringifyMember(Member(Units(name), v)) == Units(quoted) + Stringify(v)
  {
    hide Stringify, StringifyMember;
    NamedMember(name, v, "\"" + name + "\":");
    assert Units(",") == [COMMA];
    UnitsJoin(",", "\"" + name + "\":");
    assert "," + ("\"" + name + "\":") == quoted;
  }

  /** Members with their commas. */
  function Pieces(members: seq<Member>): seq<Text> {
    seq(|members|, i requires 0 <= i < |members| =>
      (if i == 0 then [] else [COMMA]) + StringifyMember(members[i]))
  }

  lemma {:induction false} RestFlat(members: seq<Member>)
    requires members != []
    ensures [COMMA] + StringifyMembers(members) ==
      Flat(seq(|members|, i requires 0 <= i < |members| => [COMMA] + StringifyMember(members[i])))
  {
    hide StringifyMember, StringifyMembers;
    var pieces := seq(|members|, i requires 0 <= i < |members| => [COMMA] + StringifyMember(members[i]));
    MembersPrinted(members);
    if |members| == 1 {
      assert pieces[1..] == [];
    } else {
      RestFlat(members[1..]);
      assert pieces[1..] ==
        seq(|members[1..]|, i requires 0 <= i < |members[1..]| => [COMMA] + StringifyMember(members[1..][i]));
      assert StringifyMember(members[0]) + [COMMA] + StringifyMembers(members[1..])
        == StringifyMember(members[0]) + ([COMMA] + StringifyMembers(members[1..]));
      assert [COMMA] + (StringifyMember(members[0]) + ([COMMA] + StringifyMembers(members[1..])))
        == ([COMMA] + StringifyMember(members[0])) + ([COMMA] + StringifyMembers(members[1..]));
    }
  }

  lemma ObjectFlat(members: seq<Member>)
    requires members != []
    ensures Stringify(Object(members)) == Units("{") + Flat(Pieces(members)) + Units("}")
  {
    hide Stringify, StringifyMember, StringifyMembers;
    ObjectPrinted(members);
    MembersPrinted(members);
    assert Units("{") == [123] && Units("}") == [125];
    var pieces := Pieces(members);
    assert pieces[0] == StringifyMember(members[0]);
    if |members| == 1 {
      assert pieces[1..] == [];
    } else {
      RestFlat(members[1..]);
      assert pieces[1..] ==
        seq(|members[1..]|, i requires 0 <= i < |members[1..]| => [COMMA] + StringifyMember(members[1..][i]));
      assert StringifyMember(members[0]) + [COMMA] + StringifyMembers(members[1..])
        == StringifyMember(members[0]) + ([COMMA] + StringifyMembers(members[1..]));
    }
  }

  // ---------------------------------------------------------------- the key table

  lemma {:induction false} OrderedFrom(keys: seq<Text>, payload: JsObject, k: nat)
    requires |payload| == |keys| && k <= |keys|
    requires forall i | 0 <= i < |keys| :: payload[i].key == keys[i]
    requires forall i, j | 0 <= i < j < |keys| :: keys[i] != keys[j]
    ensures Ordered(keys[k..], payload) == payload[k..]
    decreases |keys| - k
  {
    if k < |keys| {
      OrderedFrom(keys, payload, k + 1);
      GetAt(payload, keys[k], k);
      assert keys[k..][0] == keys[k] && keys[k..][1..] == keys[k + 1..];
      assert payload[k..] == [payload[k]] + payload[k + 1..];
    }
  }

  /** Length and first two units, which tell the names of the table apart. */
  function Mark(t: Text): (nat, int, int) {
    if |t| >= 2 then (|t|, t[0], t[1]) else (0, 0, 0)
  }

  const MARKS: seq<(nat, int, int)> := [
    (11, 97, 99), (9, 97, 99), (11, 112, 114), (9, 112, 114), (11, 97, 103),
    (6, 97, 99), (10, 111, 99), (9, 105, 112), (10, 100, 101), (13, 112, 114),
    (8, 110, 101), (6, 114, 101), (12, 97, 117), (17, 114, 101), (13, 114, 101)
  ]

  lemma MarksDiffer()
    ensures forall i, j | 0 <= i < j < 15 :: MARKS[i] != MARKS[j]
  {
  }

  lemma KeyMarks(i: nat)
    requires i < 15
    ensures |PAYLOAD_KEYS| == 15 && Mark(PAYLOAD_KEYS[i]) == MARKS[i]
  {
  }

  lemma KeysDiffer()
    ensures |PAYLOAD_KEYS| == 15 && forall i, j | 0 <= i < j < 15 :: PAYLOAD_KEYS[i] != PAYLOAD_KEYS[j]
  {
    hide Mark;
    MarksDiffer();
    forall i: nat | i < 15 ensures |PAYLOAD_KEYS| == 15 && Mark(PAYLOAD_KEYS[i]) == MARKS[i] {
      KeyMarks(i);
    }
  }

  // ---------------------------------------------------------------- the events of the service

  /** The members of an event, under the literal names. */
  lemma ActorNames(v: Json)
    ensures StringifyMember(Member(Units("actorUserId"), v)) == Units("\"actorUserId\":") + Stringify(v)
    ensures [COMMA] + StringifyMember(Member(Units("actorRole"), v))
         == Units(",\"actorRole\":") + Stringify(v)
  {
    hide Stringify, StringifyMember, Units;
    NamedMember("actorUserId", v, "\"actorUserId\":");
    NextMember("actorRole", v, ",\"actorRole\":");
  }

  lemma ProfileNames(v: Json)
    ensures [COMMA] + StringifyMember(Member(Units("profileKind"), v))
         == Units(",\"profileKind\":") + Stringify(v)
    ensures [COMMA] + StringifyMember(Member(Units("profileId"), v))
         == Units(",\"profileId\":") + Stringify(v)
  {
    hide Stringify, StringifyMember, Units;
    NextMember("profileKind", v, ",\"profileKind\":");
    NextMember("profileId", v, ",\"profileId\":");
  }

  lemma ActionNames(v: Json)
    ensures [COMMA] + StringifyMember(Member(Units("agreementId"), v))
         == Units(",\"agreementId\":") + Stringify(v)
    ensures [COMMA] + StringifyMember(Member(Units("action"), v))
         == Units(",\"action\":") + Stringify(v)
  {
    hide Stringify, StringifyMember, Units;
    NextMember("agreementId", v, ",\"agreementId\":");
    NextMember("action", v, ",\"action\":");
  }

  lemma OccasionNames(v: Json)
    ensures [COMMA] + StringifyMember(Member(Units("occurredAt"), v))
         == Units(",\"occurredAt\":") + Stringify(v)
    ensures [COMMA] + StringifyMember(Member(Units("ipAddress"), v))
         == Units(",\"ipAddress\":") + Stringify(v)
  {
    hide Stringify, StringifyMember, Units;
    NextMember("occurredAt", v, ",\"occurredAt\":");
    NextMember("ipAddress", v, ",\"ipAddress\":");
  }

  lemma ValueNames(v: Json)
    ensures [COMMA] + StringifyMember(Member(Units("deviceInfo"), v))
         == Units(",\"deviceInfo\":") + Stringify(v)
    ensures [COMMA] + StringifyMember(Member(Units("previousValue"), v))
         == Units(",\"previousValue\":") + Stringify(v)
  {
    hide Stringify, StringifyMember, Units;
    NextMember("deviceInfo", v, ",\"deviceInfo\":");
    NextMember("previousValue", v, ",\"previousValue\":");
  }

  lemma ReasonNames(v: Json)
    ensures [COMMA] + StringifyMember(Member(Units("newValue"), v))
         == Units(",\"newValue\":") + Stringify(v)
    ensures [COMMA] + StringifyMember(Member(Units("reason"), v))
         == Units(",\"reason\":") + Stringify(v)
  {
    hide Stringify, StringifyMember, Units;
    NextMember("newValue", v, ",\"newValue\":");
    NextMember("reason", v, ",\"reason\":");
  }

  lemma StrengthName(v: Json)
    ensures [COMMA] + StringifyMember(Member(Units("authStrength"), v))
         == Units(",\"authStrength\":") + Stringify(v)
  {
    hide Stringify, StringifyMember, Units;
    NextMember("authStrength", v, ",\"authStrength\":");
  }

  lemma DocumentName(v: Json)
    ensures [COMMA] + StringifyMember(Member(Units("relatedDocumentId"), v))
         == Units(",\"relatedDocumentId\":") + Stringify(v)
  {
    hide Stringify, StringifyMember, Units;
    NextMember("relatedDocumentId", v, ",\"relatedDocumentId\":");
  }

  lemma CaseName(v: Json)
    ensures [COMMA] + StringifyMember(Member(Units("relatedCaseId"), v))
         == Units(",\"relatedCaseId\":") + Stringify(v)
  {
    hide Stringify, StringifyMember, Units;
    NextMember("relatedCaseId", v, ",\"relatedCaseId\":");
  }

  lemma NullWord()
    ensures Stringify(Null) == Units("null")
  {
  }

  lemma RoleWord()
    ensures Stringify(String(Units("personal_user"))) == Units("\"personal_user\"")
  {
    hide Stringify;
    NamePrints("personal_user");
  }

  lemma StrengthWord()
    ensures Stringify(String(Units("basic"))) == Units("\"basic\"")
  {
    hide Stringify;
    NamePrints("basic");
  }

  lemma PayloadKeys(actor: Option<Text>, action: string, occurredAt: Text, ipAddress: Option<Text>,
                    deviceInfo: Json, newValue: Json)
    ensures var p := AuditPayload(actor, action, occurredAt, ipAddress, deviceInfo, newValue);
            |p| == 15 == |PAYLOAD_KEYS| && forall i | 0 <= i < 15 :: p[i].key == PAYLOAD_KEYS[i]
  {
  }

  lemma PayloadPieces(actor: Option<Text>, action: string, occurredAt: Text, ipAddress: Option<Text>,
                      deviceInfo: Json, newValue: Json)
    ensures Pieces(AuditPayload(actor, action, occurredAt, ipAddress, deviceInfo, newValue)) == [
      Units("\"actorUserId\":") + Stringify(Nullable(actor)),
      Units(",\"actorRole\":") + Units("\"personal_user\""),
      Units(",\"profileKind\":") + Units("null"),
      Units(",\"profileId\":") + Units("null"),
      Units(",\"agreementId\":") + Units("null"),
      Units(",\"action\":") + Stringify(String(Units(action))),
      Units(",\"occurredAt\":") + Stringify(String(occurredAt)),
      Units(",\"ipAddress\":") + Stringify(Nullable(ipAddress)),
      Units(",\"deviceInfo\":") + Stringify(deviceInfo),
      Units(",\"previousValue\":") + Units("null"),
      Units(",\"newValue\":") + Stringify(newValue),
      Units(",\"reason\":") + Units("null"),
      Units(",\"authStrength\":") + Units("\"basic\""),
      Units(",\"relatedDocumentId\":") + Units("null"),
      Units(",\"relatedCaseId\":") + Units("null")
    ]
  {
    hide Stringify, StringifyMember, IsName, Nullable, Units;
    NullWord();
    RoleWord();
    StrengthWord();
    ActorNames(Nullable(actor));
    ActorNames(String(Units("personal_user")));
    ProfileNames(Null);
    ActionNames(Null);
    ActionNames(String(Units(action)));
    OccasionNames(String(occurredAt));
    OccasionNames(Nullable(ipAddress));
    ValueNames(deviceInfo);
    ValueNames(Null);
    ReasonNames(newValue);
    ReasonNames(Null);
    StrengthName(String(Units("basic")));
    DocumentName(Null);
    CaseName(Null);
    var p := AuditPayload(actor, action, occurredAt, ipAddress, deviceInfo, newValue);
    var pieces := Pieces(p);
    assert |pieces| == 15 && pieces[0] == StringifyMember(p[0]);
    assert forall i | 0 < i < 15 :: pieces[i] == [COMMA] + StringifyMember(p[i]);
  }

  /** The canonical text of an event of the service is this, character by character. */
  lemma EventPrints(actor: Option<Text>, action: string, occurredAt: Text, ipAddress: Option<Text>,
                    deviceInfo: Json, newValue: Json)
    ensures Canonical(PAYLOAD_KEYS, AuditPayload(actor, action, occurredAt, ipAddress, deviceInfo, newValue)) ==
      EventText(Stringify(Nullable(actor)), Stringify(String(Units(action))), Stringify(String(occurredAt)),
                Stringify(Nullable(ipAddress)), Stringify(deviceInfo), Stringify(newValue))
  {
    hide Stringify, AuditPayload, Units, Nullable, Pieces, Flat;
    var p := AuditPayload(actor, action, occurredAt, ipAddress, deviceInfo, newValue);
    KeysDiffer();
    PayloadKeys(actor, action, occurredAt, ipAddress, deviceInfo, newValue);
    OrderedFrom(PAYLOAD_KEYS, p, 0);
    assert PAYLOAD_KEYS[0..] == PAYLOAD_KEYS && p[0..] == p;
    ObjectFlat(p);
    PayloadPieces(actor, action, occurredAt, ipAddress, deviceInfo, newValue);
  }

  lemma KindName(v: Json)
    ensures StringifyMember(Member(Units("targetResourceType"), v)) == Units("\"targetResourceType\":") + Stringify(v)
  {
    hide Stringify, StringifyMember, Units;
    NamedMember("targetResourceType", v, "\"targetResourceType\":");
  }

  lemma ResourceName(v: Json)
    ensures [COMMA] + StringifyMember(Member(Units("targetResourceId"), v))
         == Units(",\"targetResourceId\":") + Stringify(v)
  {
    hide Stringify, StringifyMember, Units;
    NextMember("targetResourceId", v, ",\"targetResourceId\":");
  }

  lemma ProviderName(v: Json)
    ensures [COMMA] + StringifyMember(Member(Units("providerEventId"), v))
         == Units(",\"providerEventId\":") + Stringify(v)
  {
    hide Stringify, StringifyMember, Units;
    NextMember("providerEventId", v, ",\"providerEventId\":");
  }

  lemma LaterKeysDiffer()
    ensures |LATER_KEYS| == 3 && forall i, j | 0 <= i < j < 3 :: LATER_KEYS[i] != LATER_KEYS[j]
  {
    assert |LATER_KEYS[0]| == 18 && |LATER_KEYS[1]| == 16 && |LATER_KEYS[2]| == 15;
  }

  /** The three later keys print under these names, in this order. */
  lemma LaterKeysPrint(kind: Json, id: Json, event: Json)
    ensures Canonical(LATER_KEYS, [Member(Units("targetResourceType"), kind), Member(Units("targetResourceId"), id),
                                   Member(Units("providerEventId"), event)]) ==
      Units("{") + Flat([
        Units("\"targetResourceType\":") + Stringify(kind),
        Units(",\"targetResourceId\":") + Stringify(id),
        Units(",\"providerEventId\":") + Stringify(event)
      ]) + Units("}")
  {
    hide Stringify, Units, Flat, Pieces;
    var p := [Member(Units("targetResourceType"), kind), Member(Units("targetResourceId"), id),
              Member(Units("providerEventId"), event)];
    LaterKeysDiffer();
    OrderedFrom(LATER_KEYS, p, 0);
    assert LATER_KEYS[0..] == LATER_KEYS && p[0..] == p;
    ObjectFlat(p);
    LaterPieces(kind, id, event);
  }

  lemma LaterPieces(kind: Json, id: Json, event: Json)
    ensures Pieces([Member(Units("targetResourceType"), kind), Member(Units("targetResourceId"), id),
                    Member(Units("providerEventId"), event)]) == [
      Units("\"targetResourceType\":") + Stringify(kind),
      Units(",\"targetResourceId\":") + Stringify(id),
      Units(",\"providerEventId\":") + Stringify(event)
    ]
  {
    hide Stringify, StringifyMember, Units;
    KindName(kind);
    ResourceName(id);
    ProviderName(event);
    var p := [Member(Units("targetResourceType"), kind), Member(Units("targetResourceId"), id),
              Member(Units("providerEventId"), event)];
    var pieces := Pieces(p);
    assert |pieces| == 3 && pieces[0] == StringifyMember(p[0]);
    assert pieces[1] == [COMMA] + StringifyMember(p[1]) && pieces[2] == [COMMA] + StringifyMember(p[2]);
  }

  /** The printed text of a string, or null when there is none. */
  function Printed(t: Option<Text>): Text {
    if t.Some? then Stringify(String(t.value)) else Units("null")
  }

  /** The user agent in braces, or null when there is none or it is empty. */
  function DevicePrinted(userAgent: Option<Text>): Text {
    if userAgent.None? || userAgent.value == [] then Units("null")
    else Units("{\"userAgent\":") + Stringify(String(userAgent.value)) + Units("}")
  }

  lemma NullablePrints(t: Option<Text>)
    ensures Stringify(Nullable(t)) == Printed(t)
  {
    NullWord();
    hide Stringify;
  }

  lemma OnePiece(m: Member)
    ensures Flat(Pieces([m])) == StringifyMember(m)
  {
    hide StringifyMember;
    var pieces := Pieces([m]);
    assert |pieces| == 1 && pieces[0] == StringifyMember(m);
    assert pieces[1..] == [];
  }

  lemma OneMemberPrints(name: string, v: Json, quoted: string)
    requires IsName(name) && quoted == "{\"" + name + "\":"
    ensures Stringify(Object([Member(Units(name), v)])) == Units(quoted) + Stringify(v) + Units("}")
  {
    hide Stringify, StringifyMember;
    var m := Member(Units(name), v);
    ObjectFlat([m]);
    OnePiece(m);
    NamedMember(name, v, "\"" + name + "\":");
    UnitsJoin("{", "\"" + name + "\":");
    assert "{" + ("\"" + name + "\":") == quoted;
  }

  lemma DevicePrints(userAgent: Option<Text>)
    ensures Stringify(DeviceInfo(userAgent)) == DevicePrinted(userAgent)
  {
    hide Stringify, Units;
    NullWord();
    if userAgent.Some? {
      OneMemberPrints("userAgent", String(userAgent.value), "{\"userAgent\":");
    }
  }

  lemma EmailPrints(email: Text)
    ensures Stringify(Object([Member(Units("email"), String(email))]))
         == Units("{\"email\":") + Stringify(String(email)) + Units("}")
  {
    hide Stringify, Units;
    OneMemberPrints("email", String(email), "{\"email\":");
  }

  lemma SignupWord()
    ensures Stringify(String(Units("user_signup"))) == Units("\"user_signup\"")
  {
    hide Stringify;
    NamePrints("user_signup");
  }

  lemma LoginWord()
    ensures Stringify(String(Units("login_succeeded"))) == Units("\"login_succeeded\"")
  {
    hide Stringify;
    NamePrints("login_succeeded");
  }

  lemma RefusalWord()
    ensures Stringify(String(Units("login_failed"))) == Units("\"login_failed\"")
  {
    hide Stringify;
    NamePrints("login_failed");
  }

  lemma LogoutWord()
    ensures Stringify(String(Units("logout"))) == Units("\"logout\"")
  {
    hide Stringify;
    NamePrints("logout");
  }

  // ---------------------------------------------------------------- what each call adds

  /** The canonical texts of the events of a log. */
  function LogTexts(log: Log): seq<Text> {
    seq(|log|, i requires 0 <= i < |log| => Canonical(PAYLOAD_KEYS, log[i].payload))
  }

  /** The text of a signup, of a login that succeeds or fails, and of a logout. */
  function SignupText(user: PublicUser, input: Credentials, env: Ambient): Text {
    EventText(Stringify(String(user.id)), Units("\"user_signup\""), Stringify(String(env.isoNow)),
              Printed(input.ipAddress), DevicePrinted(input.userAgent),
              Units("{\"email\":") + Stringify(String(user.email)) + Units("}"))
  }

  function LoginText(actor: Option<Text>, succeeded: bool, input: Credentials, env: Ambient): Text {
    EventText(Printed(actor), Units(if succeeded then "\"login_succeeded\"" else "\"login_failed\""),
              Stringify(String(env.isoNow)), Printed(input.ipAddress), DevicePrinted(input.userAgent), Units("null"))
  }

  function LogoutText(actor: Text, env: Ambient): Text {
    EventText(Stringify(String(actor)), Units("\"logout\""), Stringify(String(env.isoNow)),
              Units("null"), Units("null"), Units("null"))
  }

  lemma PayloadsPrint(user: UserAccountRecord, input: Credentials, env: Ambient)
    ensures Canonical(PAYLOAD_KEYS, SignupPayload(user, input, env))
         == SignupText(PublicUser(user.id, user.email), input, env)
    ensures Canonical(PAYLOAD_KEYS, LoginPayload(user, input, env)) == LoginText(Some(user.id), true, input, env)
  {
    hide Stringify, AuditPayload, Units, Canonical, EventText, DeviceInfo, DevicePrinted, Nullable;
    NullWord();
    SignupWord();
    LoginWord();
    NullablePrints(Some(user.id));
    NullablePrints(input.ipAddress);
    DevicePrints(input.userAgent);
    EmailPrints(user.email);
    EventPrints(Some(user.id), "user_signup", env.isoNow, input.ipAddress, DeviceInfo(input.userAgent),
                Object([Member(Units("email"), String(user.email))]));
    EventPrints(Some(user.id), "login_succeeded", env.isoNow, input.ipAddress, DeviceInfo(input.userAgent), Null);
  }

  lemma OtherPayloadsPrint(user: Option<UserAccountRecord>, userId: Text, input: Credentials, env: Ambient)
    ensures Canonical(PAYLOAD_KEYS, FailedLoginPayload(user, input, env))
         == LoginText(if user.Some? then Some(user.value.id) else None, false, input, env)
    ensures Canonical(PAYLOAD_KEYS, LogoutPayload(userId, env)) == LogoutText(userId, env)
  {
    hide Stringify, AuditPayload, Units, Canonical, EventText, DeviceInfo, DevicePrinted, Nullable;
    NullWord();
    RefusalWord();
    LogoutWord();
    var actor := if user.Some? then Some(user.value.id) else None;
    NullablePrints(actor);
    NullablePrints(Some(userId));
    NullablePrints(None);
    NullablePrints(input.ipAddress);
    DevicePrints(input.userAgent);
    EventPrints(actor, "login_failed", env.isoNow, input.ipAddress, DeviceInfo(input.userAgent), Null);
    EventPrints(Some(userId), "logout", env.isoNow, None, Null, Null);
  }

  lemma RecordedText(cfg: Config, s: AuthState, payload: JsObject)
    ensures LogTexts(Recorded(cfg, s, payload).log) == LogTexts(s.log) + [Canonical(PAYLOAD_KEYS, payload)]
  {
  }

  /** An accepted signup adds the texts of a signup and of a login of the user answered. */
  lemma SignupAddsTexts(cfg: Config, s: AuthState, input: Credentials, env: Ambient)
    ensures var (t, r) := Signup(cfg, s, input, env);
            LogTexts(t.log) == LogTexts(s.log) +
              if r.Failure? then [] else [SignupText(r.value.user, input, env),
                                          LoginText(Some(r.value.user.id), true, input, env)]
  {
    hide SignupPayload, LoginPayload, SignupText, LoginText, Canonical, LogTexts, NextEvent;
    var (t, r) := Signup(cfg, s, input, env);
    if r.Success? {
      var stored := HashPassword(cfg.kdf, input.password, cfg.pepper, env.salt);
      var user := UserAccountRecord(env.userId, NormalizeEmail(input.email), stored.value, Units("active"));
      var s1 := s.(users := PutUser(s.users, user));
      var s2 := Recorded(cfg, s1, SignupPayload(user, input, env));
      RecordedText(cfg, s1, SignupPayload(user, input, env));
      SessionAddsText(cfg, s2, user, input, env);
      PayloadsPrint(user, input, env);
    } else {
      assert LogTexts(s.log) + [] == LogTexts(s.log);
    }
  }

  lemma SessionAddsText(cfg: Config, s: AuthState, user: UserAccountRecord, input: Credentials, env: Ambient)
    ensures var (t, r) := CreateSession(cfg, s, user, input, env);
            && r.user == PublicUser(user.id, user.email)
            && LogTexts(t.log) == LogTexts(s.log) + [LoginText(Some(user.id), true, input, env)]
  {
    hide SignupPayload, LoginPayload, SignupText, LoginText, Canonical, LogTexts, NextEvent;
    var (t, r) := CreateSession(cfg, s, user, input, env);
    var session :=
      SessionRecord(env.sessionId, user.id, HashToken(cfg.scheme, env.token), env.now + cfg.sessionTtlMs, None);
    RecordedText(cfg, s.(sessions := PutSession(s.sessions, session)), LoginPayload(user, input, env));
    PayloadsPrint(user, input, env);
  }

  /** A login adds its one text, succeeded or failed; nothing when key derivation rejects. */
  lemma LoginAddsText(cfg: Config, s: AuthState, input: Credentials, env: Ambient)
    ensures var (t, r) := Login(cfg, s, input, env);
            var user := UserByEmail(s.users, NormalizeEmail(input.email));
            LogTexts(t.log) == LogTexts(s.log) +
              match r
              case Success(result) => [LoginText(Some(result.user.id), true, input, env)]
              case Failure(InvalidCredentials) =>
                [LoginText(if user.Some? then Some(user.value.id) else None, false, input, env)]
              case _ => []
  {
    hide FailedLoginPayload, LoginPayload, LoginText, Canonical, LogTexts, NextEvent, VerifyPassword, PlaceholderRecord;
    var (t, r) := Login(cfg, s, input, env);
    var user := UserByEmail(s.users, NormalizeEmail(input.email));
    if r.Success? {
      SessionAddsText(cfg, s, user.value, input, env);
    } else if r == Failure(InvalidCredentials) {
      RecordedText(cfg, s, FailedLoginPayload(user, input, env));
      OtherPayloadsPrint(user, [], input, env);
    } else {
      assert LogTexts(s.log) + [] == LogTexts(s.log);
    }
  }

  /** An accepted logout adds the text of the logout of the session's user. */
  lemma LogoutAddsText(cfg: Config, s: AuthState, token: Text, env: Ambient)
    ensures var (t, r) := Logout(cfg, s, token, env);
            var session := SessionByHash(s.sessions, HashToken(cfg.scheme, token));
            LogTexts(t.log) == LogTexts(s.log) +
              if r.Success? && session.Some? then [LogoutText(session.value.userId, env)] else []
  {
    hide LogoutPayload, LogoutText, Canonical, LogTexts, NextEvent, HashToken;
    var (t, r) := Logout(cfg, s, token, env);
    var session := SessionByHash(s.sessions, HashToken(cfg.scheme, token));
    if r.Success? {
      var revoked := s.(sessions := Revoked(s.sessions, session.value.id, env.now));
      RecordedText(cfg, revoked, LogoutPayload(session.value.userId, env));
      OtherPayloadsPrint(None, session.value.userId, Credentials([], [], None, None), env);
    } else {
      assert LogTexts(s.log) + [] == LogTexts(s.log);
    }
  }
}
