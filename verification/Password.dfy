/** Stored password records: six fields joined by `$`, and their verification. */
module Password {
  import opened Wrappers
  import opened Texts
  import opened Hex
  import opened Decimals

  /** scrypt: password, salt, key length, N, r, p. None is a rejection (parameters
      scrypt does not accept). */
  type Kdf = (Text, Bytes, nat, real, real, real) -> Option<Bytes>

  /** A key derivation that succeeds returns as many bytes as asked for. */
  ghost predicate KeepsLength(kdf: Kdf) {
    forall password, salt, n, N, r, p ::
      kdf(password, salt, n, N, r, p).Some? ==> |kdf(password, salt, n, N, r, p).value| == n
  }

  const SCRYPT_N: nat := 16384
  const SCRYPT_R: nat := 8
  const SCRYPT_P: nat := 1
  const KEY_LENGTH: nat := 64
  const SALT_LENGTH: nat := 16

  const DOLLAR := Unit('$')
  const SCRYPT := Units("scrypt")

  /** `parts.join("$")`. */
  function Join(parts: seq<Text>): Text {
    if parts == [] then []
    else if |parts| == 1 then parts[0]
    else parts[0] + [DOLLAR] + Join(parts[1..])
  }

  /** `text.split("$")`. */
  function Split(t: Text): (parts: seq<Text>)
    ensures parts != []
  {
    if t == [] then [[]]
    else
      var rest := Split(t[1..]);
      if t[0] == DOLLAR then [[]] + rest else [[t[0]] + rest[0]] + rest[1..]
  }

  lemma {:induction false} SplitPart(part: Text, rest: Text)
    requires DOLLAR !in part
    ensures Split(part + [DOLLAR] + rest) == [part] + Split(rest)
    ensures Split(part) == [part]
  {
    if part == [] {
      assert part + [DOLLAR] + rest == [DOLLAR] + rest;
      assert ([DOLLAR] + rest)[1..] == rest;
    } else {
      SplitPart(part[1..], rest);
      assert (part + [DOLLAR] + rest)[1..] == part[1..] + [DOLLAR] + rest;
      assert part == [part[0]] + part[1..];
    }
  }

  /** Splitting undoes joining, when no field contains the separator. */
  lemma {:induction false} SplitInverts(parts: seq<Text>)
    requires parts != [] && forall i | 0 <= i < |parts| :: DOLLAR !in parts[i]
    ensures Split(Join(parts)) == parts
  {
    if |parts| == 1 {
      SplitPart(parts[0], []);
      assert parts == [parts[0]];
    } else {
      SplitPart(parts[0], Join(parts[1..]));
      SplitInverts(parts[1..]);
      assert parts == [parts[0]] + parts[1..];
    }
  }

  /** The fields of a record, in order. */
  function Fields(salt: Bytes, derived: Bytes): seq<Text> {
    [SCRYPT, Digits(SCRYPT_N), Digits(SCRYPT_R), Digits(SCRYPT_P), ToHex(salt), ToHex(derived)]
  }

  function Record(salt: Bytes, derived: Bytes): Text {
    Join(Fields(salt, derived))
  }

  /** `hashPassword` with the salt it drew; None when scrypt rejects. */
  function HashPassword(kdf: Kdf, password: Text, pepper: Text, salt: Bytes): Option<Text> {
    var derived := kdf(pepper + password, salt, KEY_LENGTH, SCRYPT_N as real, SCRYPT_R as real, SCRYPT_P as real);
    if derived.None? then None else Some(Record(salt, derived.value))
  }

  /** `verifyPassword`; None when scrypt rejects the stored parameters. */
  function VerifyPassword(kdf: Kdf, password: Text, pepper: Text, stored: Text): Option<bool> {
    var parts := Split(stored);
    if |parts| != 6 || parts[0] != SCRYPT then Some(false)
    else
      var n, r, p := ToNumber(parts[1]), ToNumber(parts[2]), ToNumber(parts[3]);
      if n.None? || r.None? || p.None? then Some(false)
      else
        var expected := FromHex(parts[5]);
        var derived := kdf(pepper + password, FromHex(parts[4]), |expected|, n.value, r.value, p.value);
        if derived.None? then None else Some(derived.value == expected)
  }

  function Zeros(n: nat): Bytes {
    seq(n, _ => 0)
  }

  /** `UNUSABLE_PASSWORD_HASH`. */
  function PlaceholderRecord(): Text {
    Record(Zeros(SALT_LENGTH), Zeros(KEY_LENGTH))
  }

  /** Every record splits back into its six fields, and each field reads back. */
  lemma RecordReads(salt: Bytes, derived: Bytes)
    ensures Split(Record(salt, derived)) == Fields(salt, derived)
    ensures ToNumber(Digits(SCRYPT_N)) == Some(SCRYPT_N as real)
    ensures ToNumber(Digits(SCRYPT_R)) == Some(SCRYPT_R as real)
    ensures ToNumber(Digits(SCRYPT_P)) == Some(SCRYPT_P as real)
    ensures FromHex(ToHex(salt)) == salt && FromHex(ToHex(derived)) == derived
  {
    forall i | 0 <= i < 6 ensures DOLLAR !in Fields(salt, derived)[i] {
    }
    SplitInverts(Fields(salt, derived));
    IntegerReads(SCRYPT_N);
    IntegerReads(SCRYPT_R);
    IntegerReads(SCRYPT_P);
    FromHexInverts(salt);
    FromHexInverts(derived);
  }

  /** Verification against a record accepts a candidate exactly when the key derived
      from it, at the record's length, is the recorded key. */
  lemma VerifyComparesKeys(kdf: Kdf, password: Text, pepper: Text, salt: Bytes, derived: Bytes)
    ensures var candidate := kdf(pepper + password, salt, |derived|,
                                 SCRYPT_N as real, SCRYPT_R as real, SCRYPT_P as real);
            VerifyPassword(kdf, password, pepper, Record(salt, derived)) ==
            if candidate.None? then None else Some(candidate.value == derived)
  {
    RecordReads(salt, derived);
    hide Split, ToNumber, FromHex, ToHex, Digits, Record;
  }

  /** The password a record was made from is accepted. */
  lemma OwnPasswordAccepted(kdf: Kdf, password: Text, pepper: Text, salt: Bytes)
    requires KeepsLength(kdf) && HashPassword(kdf, password, pepper, salt).Some?
    ensures VerifyPassword(kdf, password, pepper, HashPassword(kdf, password, pepper, salt).value) == Some(true)
  {
    var derived := kdf(pepper + password, salt, KEY_LENGTH, SCRYPT_N as real, SCRYPT_R as real, SCRYPT_P as real);
    VerifyComparesKeys(kdf, password, pepper, salt, derived.value);
  }

  /** The placeholder record is not quite unusable: it accepts a password whose derived
      key happens to be all zeros, and no other. */
  lemma PlaceholderAcceptsZeroKey(kdf: Kdf, password: Text, pepper: Text)
    ensures VerifyPassword(kdf, password, pepper, PlaceholderRecord()) == Some(true) <==>
      kdf(pepper + password, Zeros(SALT_LENGTH), KEY_LENGTH,
          SCRYPT_N as real, SCRYPT_R as real, SCRYPT_P as real) == Some(Zeros(KEY_LENGTH))
  {
    VerifyComparesKeys(kdf, password, pepper, Zeros(SALT_LENGTH), Zeros(KEY_LENGTH));
  }

  // ---------------------------------------------------------------- the texts, unit by unit

  /** scrypt$16384$8$1$ */
  const OPENING: Text := [115, 99, 114, 121, 112, 116, 36, 49, 54, 51, 56, 52, 36, 56, 36, 49, 36]

  lemma ParametersPrinted()
    ensures SCRYPT == [115, 99, 114, 121, 112, 116]
    ensures Digits(16384) == [49, 54, 51, 56, 52] && Digits(8) == [56] && Digits(1) == [49]
  {
    assert Digits(1) == [49] && Digits(16) == Digits(1) + [54];
    assert Digits(163) == Digits(16) + [51];
    assert Digits(1638) == Digits(163) + [56];
    assert Digits(16384) == Digits(1638) + [52];
  }

  /** The record's text: its opening, the salt and the key in hex, and a dollar between. */
  lemma RecordText(salt: Bytes, derived: Bytes)
    ensures Record(salt, derived) == OPENING + ToHex(salt) + [36] + ToHex(derived)
  {
    hide Digits, ToHex, Join;
    ParametersPrinted();
    FieldsJoined(ToHex(salt), ToHex(derived));
  }

  lemma FieldsJoined(a: Text, b: Text)
    ensures Join([[115, 99, 114, 121, 112, 116], [49, 54, 51, 56, 52], [56], [49], a, b]) == OPENING + a + [36] + b
  {
    hide Join;
    LastFieldsJoined(a, b);
    var hex := a + [36] + b;
    JoinFields([[49, 54, 51, 56, 52], [56], [49], a, b], [49, 54, 51, 56, 52], [[56], [49], a, b]);
    assert [49, 54, 51, 56, 52] + [36] + ([56, 36, 49, 36] + hex) == [49, 54, 51, 56, 52, 36, 56, 36, 49, 36] + hex;
    JoinFields([[115, 99, 114, 121, 112, 116], [49, 54, 51, 56, 52], [56], [49], a, b],
               [115, 99, 114, 121, 112, 116], [[49, 54, 51, 56, 52], [56], [49], a, b]);
    assert OPENING + a + [36] + b == OPENING + hex;
  }

  lemma LastFieldsJoined(a: Text, b: Text)
    ensures Join([[56], [49], a, b]) == [56, 36, 49, 36] + (a + [36] + b)
  {
    hide Join;
    JoinFields([b], b, []);
    JoinFields([a, b], a, [b]);
    JoinFields([[49], a, b], [49], [a, b]);
    JoinFields([[56], [49], a, b], [56], [[49], a, b]);
  }

  lemma JoinFields(parts: seq<Text>, first: Text, rest: seq<Text>)
    requires parts == [first] + rest
    ensures Join(parts) == if rest == [] then first else first + [36] + Join(rest)
  {
    assert parts[1..] == rest;
  }

  /** The key is derived from the pepper and then the password, at 64 bytes, with
      N = 16384, r = 8 and p = 1. */
  lemma HashPasswordIs(kdf: Kdf, password: Text, pepper: Text, salt: Bytes)
    ensures var key := kdf(pepper + password, salt, 64, 16384.0, 8.0, 1.0);
            HashPassword(kdf, password, pepper, salt) ==
              if key.None? then None else Some(OPENING + ToHex(salt) + [36] + ToHex(key.value))
  {
    hide Record;
    var key := kdf(pepper + password, salt, 64, 16384.0, 8.0, 1.0);
    if key.Some? {
      RecordText(salt, key.value);
    }
  }

  lemma {:induction false} ZerosPrinted(n: nat)
    ensures ToHex(Zeros(n)) == seq(2 * n, _ => 48)
  {
    if n > 0 {
      ZerosPrinted(n - 1);
      assert Zeros(n)[1..] == Zeros(n - 1);
    }
  }

  /** The placeholder is 32 and 128 zeros. */
  lemma PlaceholderText()
    ensures PlaceholderRecord() == OPENING + seq(32, _ => 48) + [36] + seq(128, _ => 48)
  {
    hide Record, ToHex;
    RecordText(Zeros(16), Zeros(64));
    ZerosPrinted(16);
    ZerosPrinted(64);
  }

  lemma {:induction false} SplitCounts(t: Text)
    ensures |Split(t)| == multiset(t)[36] + 1
  {
    if t != [] {
      SplitCounts(t[1..]);
      assert t == [t[0]] + t[1..];
    }
  }

  /** A stored text without exactly five dollars is refused, whatever the password. */
  lemma WrongCountRefused(kdf: Kdf, password: Text, pepper: Text, stored: Text)
    requires multiset(stored)[36] != 5
    ensures VerifyPassword(kdf, password, pepper, stored) == Some(false)
  {
    SplitCounts(stored);
  }

  /** Any other is six fields: the first must be the word scrypt, the next three numbers,
      which are N, r and p, and the last two are the salt and the key in hex. */
  lemma SixFieldsVerified(kdf: Kdf, password: Text, pepper: Text, fields: seq<Text>)
    requires |fields| == 6 && forall i | 0 <= i < 6 :: 36 !in fields[i]
    ensures var n, r, p := ToNumber(fields[1]), ToNumber(fields[2]), ToNumber(fields[3]);
            var key := FromHex(fields[5]);
            VerifyPassword(kdf, password, pepper, Join(fields)) ==
              if fields[0] != [115, 99, 114, 121, 112, 116] || n.None? || r.None? || p.None? then Some(false)
              else
                var derived := kdf(pepper + password, FromHex(fields[4]), |key|, n.value, r.value, p.value);
                if derived.None? then None else Some(derived.value == key)
  {
    hide Split, Join, ToNumber, FromHex;
    SplitInverts(fields);
    ParametersPrinted();
  }
}

/** Webhook signatures: the hex of an HMAC over the raw body. */
module WebhookSignature {
  import opened Texts
  import opened Hex

  /** HMAC-SHA256 of a body under a secret, for one secret: any function to 32 bytes. */
  type Hmac = Text -> Block

  function ComputeSignature(hmac: Hmac, body: Text): Text {
    ToHex(hmac(body))
  }

  predicate VerifySignature(hmac: Hmac, body: Text, header: Text) {
    FromHex(ComputeSignature(hmac, body)) == FromHex(header)
  }

  /** The header starts with n pairs of hex digits and no more. */
  predicate HexPairs(t: Text, n: nat) {
    && |t| >= 2 * n && (forall i | 0 <= i < 2 * n :: IsHexDigit(t[i]))
    && (|t| < 2 * n + 2 || !IsHexDigit(t[2 * n]) || !IsHexDigit(t[2 * n + 1]))
  }

  lemma {:induction false} FromHexPairs(t: Text, b: Bytes)
    ensures FromHex(t) == b <==> HexPairs(t, |b|) && FromHex(t[..2 * |b|]) == b
  {
    if b != [] && |t| >= 2 && IsHexDigit(t[0]) && IsHexDigit(t[1]) {
      FromHexPairs(t[2..], b[1..]);
      var head: Byte := HexValue(t[0]) * 16 + HexValue(t[1]);
      assert FromHex(t) == [head] + FromHex(t[2..]);
      assert HexPairs(t, |b|) ==> HexPairs(t[2..], |b| - 1);
      assert HexPairs(t[2..], |b| - 1) ==> HexPairs(t, |b|) by {
        if HexPairs(t[2..], |b| - 1) {
          forall i | 0 <= i < 2 * |b| ensures IsHexDigit(t[i]) {
            assert i >= 2 ==> t[i] == t[2..][i - 2];
          }
        }
      }
      if HexPairs(t, |b|) {
        assert t[..2 * |b|][2..] == t[2..][..2 * (|b| - 1)];
        assert FromHex(t[..2 * |b|]) == [head] + FromHex(t[2..][..2 * (|b| - 1)]);
      }
      assert b == [b[0]] + b[1..];
    }
  }

  /** Verification accepts exactly the headers that spell the digest in hex, in either
      case, followed by nothing or by something that is not another hex pair. */
  lemma VerifyAcceptsIff(hmac: Hmac, body: Text, header: Text)
    ensures VerifySignature(hmac, body, header) <==>
      HexPairs(header, 32) && FromHex(header[..64]) == hmac(body)
  {
    FromHexInverts(hmac(body));
    FromHexPairs(header, hmac(body));
  }

  /** Every computed signature is accepted, and one made from any other digest is not. */
  lemma ComputedSignatures(hmac: Hmac, body: Text, other: Block)
    ensures FromHex(ComputeSignature(hmac, body)) == hmac(body) && |ComputeSignature(hmac, body)| == 64
    ensures VerifySignature(hmac, body, ComputeSignature(hmac, body))
    ensures VerifySignature(hmac, body, ToHex(other)) <==> other == hmac(body)
  {
    FromHexInverts(hmac(body));
    FromHexInverts(other);
  }
}
