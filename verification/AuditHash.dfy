/** The hash of one audit event: canonical JSON of the payload, chained to the
    previous event's hash and to a secret. */
module AuditHash {
  import opened Wrappers
  import opened Basics
  import opened Texts
  import opened Utf8
  import opened Hex
  import opened Json

  /** A payload object: its defined properties, in insertion order. */
  type JsObject = seq<Member>

  /** Reading a property; None is `undefined`. */
  function Get(o: JsObject, key: Text): Option<Json> {
    if o == [] then None
    else if o[0].key == key then Some(o[0].value)
    else Get(o[1..], key)
  }

  const PAYLOAD_KEYS: seq<Text> := [
    Units("actorUserId"), Units("actorRole"), Units("profileKind"), Units("profileId"),
    Units("agreementId"), Units("action"), Units("occurredAt"), Units("ipAddress"),
    Units("deviceInfo"), Units("previousValue"), Units("newValue"), Units("reason"),
    Units("authStrength"), Units("relatedDocumentId"), Units("relatedCaseId")
  ]

  /** The optional keys the current version appends. */
  const LATER_KEYS: seq<Text> := [
    Units("targetResourceType"), Units("targetResourceId"), Units("providerEventId")
  ]

  /** The properties of `payload` named by `keys`, in the order of `keys`. */
  function Ordered(keys: seq<Text>, payload: JsObject): JsObject {
    if keys == [] then []
    else
      var value := Get(payload, keys[0]);
      (if value.Some? then [Member(keys[0], value.value)] else []) + Ordered(keys[1..], payload)
  }

  function Canonical(keys: seq<Text>, payload: JsObject): Text {
    Stringify(Object(Ordered(keys, payload)))
  }

  /** `canonicalize`: the properties are copied one by one into a fresh object;
      a property left `undefined` is not printed. */
  method Canonicalize(keys: seq<Text>, payload: JsObject) returns (text: Text)
    ensures text == Canonical(keys, payload)
  {
    var ordered: JsObject := [];
    for i := 0 to |keys|
      invariant ordered + Ordered(keys[i..], payload) == Ordered(keys, payload)
    {
      var value := Get(payload, keys[i]);
      assert keys[i..][1..] == keys[i + 1..];
      if value.Some? {
        ordered := ordered + [Member(keys[i], value.value)];
      }
    }
    assert ordered == Ordered(keys, payload);
    text := Stringify(Object(ordered));
  }

  /** The digest, the secret and the key table a deployment hashes with. The digest is
      any function to 32 bytes. */
  datatype Scheme = Scheme(sha256: Bytes -> Block, secret: Text, keys: seq<Text>)

  predicate IsDigest(t: Text) {
    |t| == 64 && forall u | u in t :: IsLowerHex(u)
  }

  /** The text fed to the hash for the previous event. */
  function PreviousText(previous: Option<Text>): Text {
    if previous.Some? then previous.value else Units("GENESIS")
  }

  /** The bytes fed to the hash, in three updates. */
  function Stream(scheme: Scheme, payload: JsObject, previous: Option<Text>): Bytes {
    Encode(scheme.secret) + Encode(PreviousText(previous)) + Encode(Canonical(scheme.keys, payload))
  }

  function ComputeHash(scheme: Scheme, payload: JsObject, previous: Option<Text>): (digest: Text)
    ensures IsDigest(digest)
  {
    ToHex(scheme.sha256(Stream(scheme, payload, previous)))
  }

  /** `computeAuditEventHash`: three updates of one hash object. */
  method ComputeAuditEventHash(scheme: Scheme, payload: JsObject, previous: Option<Text>) returns (digest: Text)
    ensures digest == ComputeHash(scheme, payload, previous)
  {
    var absorbed: Bytes := Encode(scheme.secret);
    absorbed := absorbed + Encode(if previous.Some? then previous.value else Units("GENESIS"));
    var canonical := Canonicalize(scheme.keys, payload);
    absorbed := absorbed + Encode(canonical);
    digest := ToHex(scheme.sha256(absorbed));
  }

  /** The payload, read back from the bytes of its canonical text. */
  function DecodePayload(b: Bytes): Option<JsObject> {
    var text := Decode(b);
    if text.None? then None
    else
      var parsed := Parse(text.value);
      if parsed.None? || parsed.value.1 != [] || !parsed.value.0.Object? then None
      else Some(parsed.value.0.members)
  }

  /** The previous hash and the payload, read back from the hashed bytes. */
  function DecodeStream(scheme: Scheme, b: Bytes): Option<(Option<Text>, JsObject)> {
    var secret := |Encode(scheme.secret)|;
    if |b| <= secret then None
    else
      var genesis := b[secret] == Unit('G');
      var at := secret + if genesis then 7 else 64;
      if |b| < at then None
      else
        var payload := DecodePayload(b[at..]);
        if payload.None? then None
        else Some((if genesis then None else Some(b[secret..at]), payload.value))
  }

  lemma DecodePayloadInverts(keys: seq<Text>, payload: JsObject)
    ensures DecodePayload(Encode(Canonical(keys, payload))) == Some(Ordered(keys, payload))
  {
    var printed := Object(Ordered(keys, payload));
    StringifyWellFormed(printed);
    DecodeInverts(Stringify(printed));
    ParseInverts(printed, []);
    assert Stringify(printed) + [] == Stringify(printed);
  }

  lemma PreviousBytes(previous: Option<Text>)
    requires previous.Some? ==> IsDigest(previous.value)
    ensures Encode(PreviousText(previous)) == PreviousText(previous)
    ensures |PreviousText(previous)| == if previous.None? then 7 else 64
    ensures PreviousText(previous)[0] == Unit('G') <==> previous.None?
  {
    var head := PreviousText(previous);
    assert previous.None? ==> head[0] == Unit('G');
    assert head[0] in head;
    EncodeAscii(head);
  }

  /** The hashed bytes determine the previous hash and every hashed property. */
  lemma DecodeStreamInverts(scheme: Scheme, payload: JsObject, previous: Option<Text>)
    requires previous.Some? ==> IsDigest(previous.value)
    ensures DecodeStream(scheme, Stream(scheme, payload, previous))
         == Some((previous, Ordered(scheme.keys, payload)))
  {
    DecodePayloadInverts(scheme.keys, payload);
    PreviousBytes(previous);
    SplitThree(Encode(scheme.secret), PreviousText(previous), Encode(Canonical(scheme.keys, payload)));
  }

  lemma SplitThree(a: Bytes, b: Bytes, c: Bytes)
    ensures var s := a + b + c;
            && |s| == |a| + |b| + |c|
            && s[|a|..|a| + |b|] == b && s[|a| + |b|..] == c
            && (b != [] ==> s[|a|] == b[0])
  {
  }

  /** Both payloads have the same value, or no value, for every key. */
  ghost predicate SameOn(keys: seq<Text>, p: JsObject, q: JsObject) {
    forall k | k in keys :: Get(p, k) == Get(q, k)
  }

  lemma {:induction false} OrderedGet(keys: seq<Text>, payload: JsObject, k: Text)
    requires k in keys
    ensures Get(Ordered(keys, payload), k) == Get(payload, k)
  {
    var value := Get(payload, keys[0]);
    var rest := Ordered(keys[1..], payload);
    if value.Some? {
      assert ([Member(keys[0], value.value)] + rest)[1..] == rest;
    } else {
      assert [] + rest == rest;
    }
    if keys[0] == k && value.None? {
      OrderedAbsent(keys[1..], payload, k);
    } else if keys[0] != k {
      OrderedGet(keys[1..], payload, k);
    }
  }

  lemma {:induction false} OrderedAbsent(keys: seq<Text>, payload: JsObject, k: Text)
    requires Get(payload, k) == None
    ensures Get(Ordered(keys, payload), k) == None
  {
    if keys != [] {
      OrderedAbsent(keys[1..], payload, k);
      var value := Get(payload, keys[0]);
      var rest := Ordered(keys[1..], payload);
      if value.Some? {
        assert ([Member(keys[0], value.value)] + rest)[1..] == rest;
      } else {
        assert [] + rest == rest;
      }
    }
  }

  lemma {:induction false} OrderedSame(keys: seq<Text>, p: JsObject, q: JsObject)
    requires SameOn(keys, p, q)
    ensures Ordered(keys, p) == Ordered(keys, q)
  {
    if keys != [] {
      assert forall k | k in keys[1..] :: k in keys;
      assert keys[0] in keys;
      OrderedSame(keys[1..], p, q);
    }
  }

  /** Two events feed the hash the same bytes exactly when their previous hashes agree
      and so does every hashed property; insertion order and other properties of the
      payload objects make no difference. */
  lemma StreamEqualIff(scheme: Scheme, p: JsObject, before: Option<Text>, q: JsObject, after: Option<Text>)
    requires before.Some? ==> IsDigest(before.value)
    requires after.Some? ==> IsDigest(after.value)
    ensures Stream(scheme, p, before) == Stream(scheme, q, after)
       <==> before == after && SameOn(scheme.keys, p, q)
  {
    if Stream(scheme, p, before) == Stream(scheme, q, after) {
      DecodeStreamInverts(scheme, p, before);
      DecodeStreamInverts(scheme, q, after);
      forall k | k in scheme.keys ensures Get(p, k) == Get(q, k) {
        OrderedGet(scheme.keys, p, k);
        OrderedGet(scheme.keys, q, k);
      }
    }
    if SameOn(scheme.keys, p, q) {
      OrderedSame(scheme.keys, p, q);
    }
  }

  /** Canonical text is the same exactly when the hashed properties are. */
  lemma CanonicalEqualIff(keys: seq<Text>, p: JsObject, q: JsObject)
    ensures Canonical(keys, p) == Canonical(keys, q) <==> SameOn(keys, p, q)
  {
    if Canonical(keys, p) == Canonical(keys, q) {
      StringifyInjective(Object(Ordered(keys, p)), Object(Ordered(keys, q)));
      forall k | k in keys ensures Get(p, k) == Get(q, k) {
        OrderedGet(keys, p, k);
        OrderedGet(keys, q, k);
      }
    }
    if SameOn(keys, p, q) {
      OrderedSame(keys, p, q);
    }
  }

  lemma {:induction false} OrderedAppend(keys: seq<Text>, more: seq<Text>, payload: JsObject)
    ensures Ordered(keys + more, payload) == Ordered(keys, payload) + Ordered(more, payload)
  {
    if keys == [] {
      assert keys + more == more;
    } else {
      assert (keys + more)[1..] == keys[1..] + more && (keys + more)[0] == keys[0];
      OrderedAppend(keys[1..], more, payload);
      var value := Get(payload, keys[0]);
      Associate(if value.Some? then [Member(keys[0], value.value)] else [],
                       Ordered(keys[1..], payload), Ordered(more, payload));
    }
  }

  lemma {:induction false} OrderedNone(keys: seq<Text>, payload: JsObject)
    requires forall k | k in keys :: Get(payload, k) == None
    ensures Ordered(keys, payload) == []
  {
    if keys != [] {
      assert keys[0] in keys && forall k | k in keys[1..] :: k in keys;
      OrderedNone(keys[1..], payload);
    }
  }

  /** Appending optional keys to the table keeps the hash of every event exactly when
      the event sets none of them (the appended keys being new and distinct). */
  lemma LaterKeysKeepOldHashes(payload: JsObject)
    ensures Canonical(PAYLOAD_KEYS + LATER_KEYS, payload) == Canonical(PAYLOAD_KEYS, payload)
       <==> forall k | k in LATER_KEYS :: Get(payload, k) == None
  {
    var keys := PAYLOAD_KEYS + LATER_KEYS;
    OrderedAppend(PAYLOAD_KEYS, LATER_KEYS, payload);
    if forall k | k in LATER_KEYS :: Get(payload, k) == None {
      OrderedNone(LATER_KEYS, payload);
      assert Ordered(PAYLOAD_KEYS, payload) + [] == Ordered(PAYLOAD_KEYS, payload);
    } else if Canonical(keys, payload) == Canonical(PAYLOAD_KEYS, payload) {
      StringifyInjective(Object(Ordered(keys, payload)), Object(Ordered(PAYLOAD_KEYS, payload)));
      assert |Ordered(LATER_KEYS, payload)| == 0;
      OrderedEmpty(LATER_KEYS, payload);
    }
  }

  lemma {:induction false} OrderedEmpty(keys: seq<Text>, payload: JsObject)
    requires Ordered(keys, payload) == []
    ensures forall k | k in keys :: Get(payload, k) == None
  {
    if keys != [] {
      OrderedEmpty(keys[1..], payload);
      assert forall k | k in keys :: k == keys[0] || k in keys[1..];
    }
  }

  /** The payload of a row read back from the database: a column that was left unset
      comes back as null. */
  function Restored(keys: seq<Text>, payload: JsObject): JsObject {
    if keys == [] then []
    else
      var value := Get(payload, keys[0]);
      [Member(keys[0], if value.Some? then value.value else Null)] + Restored(keys[1..], payload)
  }

  lemma {:induction false} RestoredGet(keys: seq<Text>, payload: JsObject, k: Text)
    requires k in keys
    ensures Get(Restored(keys, payload), k) ==
      Some(if Get(payload, k).Some? then Get(payload, k).value else Null)
  {
    if keys[0] != k {
      RestoredGet(keys[1..], payload, k);
    }
  }

  /** Recomputing the canonical text from a row read back gives the one that was hashed
      exactly when the event had set every key: an optional key left out is not printed
      when the event is hashed, but is printed as null afterwards. */
  lemma RestoredVerifiesIff(keys: seq<Text>, payload: JsObject)
    ensures Canonical(keys, Restored(keys, payload)) == Canonical(keys, payload)
       <==> forall k | k in keys :: Get(payload, k).Some?
  {
    hide Canonical;
    CanonicalEqualIff(keys, Restored(keys, payload), payload);
    forall k | k in keys
      ensures Get(Restored(keys, payload), k) == Some(if Get(payload, k).Some? then Get(payload, k).value else Null)
    {
      RestoredGet(keys, payload, k);
    }
  }

  /** Only the top level is canonical: listing the members of a nested object the
      other way round gives different bytes. */
  lemma NestedOrderMatters(scheme: Scheme, payload: JsObject, previous: Option<Text>, key: Text, a: Member, b: Member)
    requires key in scheme.keys && a != b && (previous.Some? ==> IsDigest(previous.value))
    ensures Stream(scheme, [Member(key, Object([a, b]))] + payload, previous)
         != Stream(scheme, [Member(key, Object([b, a]))] + payload, previous)
  {
    StreamEqualIff(scheme, [Member(key, Object([a, b]))] + payload, previous,
                   [Member(key, Object([b, a]))] + payload, previous);
    assert Object([a, b]).members[0] != Object([b, a]).members[0];
    assert Get([Member(key, Object([a, b]))] + payload, key) == Some(Object([a, b]));
    assert Get([Member(key, Object([b, a]))] + payload, key) == Some(Object([b, a]));
  }
}
