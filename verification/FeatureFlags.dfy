/** Feature flags and the environment variables that override them. */
module FeatureFlags {
  import opened Texts

  const UNDERSCORE := Unit('_')
  const PREFIX := Units("FEATURE_")

  predicate IsLower(u: CodeUnit) { Unit('a') <= u <= Unit('z') }

  /** `toUpperCase` of one unit, for the letters a to z. */
  function Upper(u: CodeUnit): CodeUnit { if IsLower(u) then u - 32 else u }

  function ToUpper(t: Text): (upper: Text)
    ensures |upper| == |t| && forall i | 0 <= i < |t| :: upper[i] == Upper(t[i])
  {
    seq(|t|, i requires 0 <= i < |t| => Upper(t[i]))
  }

  /** The text starts with a match of `([a-z0-9])([A-Z])`. */
  predicate Matches(t: Text) {
    |t| >= 2 && (IsLower(t[0]) || IsDigit(t[0])) && IsUpper(t[1])
  }

  /** The global replacement by `$1_$2`: it goes from left to right, and what it has
      matched is not looked at again. */
  function ReplaceAll(t: Text): Text {
    if t == [] then []
    else if Matches(t) then [t[0], UNDERSCORE, t[1]] + ReplaceAll(t[2..])
    else [t[0]] + ReplaceAll(t[1..])
  }

  function EnvOverrideKey(flag: Text): Text {
    PREFIX + ToUpper(ReplaceAll(flag))
  }

  /** The registry: each flag's default. */
  const FEATURE_FLAGS: map<Text, bool> := map[
    Units("exampleFoundationFlag") := false,
    Units("liveBankingEnabled") := false,
    Units("liveCardIssuanceEnabled") := false,
    Units("paymentInitiationEnabled") := true,
    Units("bankConnectionEnabled") := true,
    Units("closedBetaEnabled") := false
  ]

  type Environment = map<Text, Text>

  predicate IsFeatureEnabled(env: Environment, flags: map<Text, bool>, flag: Text)
    requires flag in flags
  {
    var key := EnvOverrideKey(flag);
    if key in env && env[key] == Units("true") then true
    else if key in env && env[key] == Units("false") then false
    else flags[flag]
  }

  // ---------------------------------------------------------------- every boundary is found

  /** An underscore at each place where a capital follows a small letter or a digit. */
  function Separated(t: Text): Text {
    if t == [] then []
    else [t[0]] + (if Matches(t) then [UNDERSCORE] else []) + Separated(t[1..])
  }

  /** Although matches consume what they match, none is ever missed. */
  lemma {:induction false} NoBoundaryMissed(t: Text)
    ensures ReplaceAll(t) == Separated(t)
  {
    if t != [] {
      NoBoundaryMissed(t[1..]);
      if Matches(t) {
        NoBoundaryMissed(t[2..]);
        assert t[1..][1..] == t[2..];
        assert Separated(t[1..]) == [t[1]] + [] + Separated(t[2..]);
      }
    }
  }

  // ---------------------------------------------------------------- reading a key back

  /** The flag a key's body spells: an underscore makes the next letter a capital. */
  function Camelized(body: Text): Text {
    if body == [] then []
    else if body[0] != UNDERSCORE then [Lower(body[0])] + Camelized(body[1..])
    else if |body| == 1 then []
    else [body[1]] + Camelized(body[2..])
  }

  function FlagOf(key: Text): Text
    requires |key| >= 8
  {
    Camelized(key[8..])
  }

  /** camelCase: no underscore, and a capital only after a small letter or a digit. */
  predicate IsCamel(flag: Text) {
    && UNDERSCORE !in flag
    && forall i | 0 <= i < |flag| && IsUpper(flag[i]) :: i > 0 && (IsLower(flag[i - 1]) || IsDigit(flag[i - 1]))
  }

  function Body(flag: Text): Text {
    ToUpper(ReplaceAll(flag))
  }

  lemma BodyStep(t: Text)
    requires t != []
    ensures Matches(t) ==> Body(t) == [Upper(t[0]), UNDERSCORE, t[1]] + Body(t[2..])
    ensures !Matches(t) ==> Body(t) == [Upper(t[0])] + Body(t[1..])
  {
  }

  function ReadBack(flag: Text): Text {
    Camelized(Body(flag))
  }

  lemma CamelizedLetter(u: CodeUnit, rest: Text)
    requires u != UNDERSCORE
    ensures Camelized([u] + rest) == [Lower(u)] + Camelized(rest)
  {
    assert ([u] + rest)[1..] == rest;
  }

  lemma CamelizedCapital(u: CodeUnit, rest: Text)
    ensures Camelized([UNDERSCORE, u] + rest) == [u] + Camelized(rest)
  {
    assert ([UNDERSCORE, u] + rest)[2..] == rest;
  }

  lemma ReadBackStep(t: Text)
    requires t != [] && t[0] != UNDERSCORE
    ensures Matches(t) ==> ReadBack(t) == [Lower(Upper(t[0])), t[1]] + ReadBack(t[2..])
    ensures !Matches(t) ==> ReadBack(t) == [Lower(Upper(t[0]))] + ReadBack(t[1..])
  {
    hide Body, Camelized;
    BodyStep(t);
    if Matches(t) {
      var rest := [UNDERSCORE, t[1]] + Body(t[2..]);
      assert Body(t) == [Upper(t[0])] + rest;
      CamelizedLetter(Upper(t[0]), rest);
      CamelizedCapital(t[1], Body(t[2..]));
    } else {
      CamelizedLetter(Upper(t[0]), Body(t[1..]));
    }
  }

  /** A leading underscore is dropped, and the unit after it kept as in the key. */
  lemma ReadBackUnderscore(t: Text)
    requires |t| >= 2 && t[0] == UNDERSCORE
    ensures Matches(t[1..]) ==> ReadBack(t) == [Upper(t[1]), t[2]] + ReadBack(t[3..])
    ensures !Matches(t[1..]) ==> ReadBack(t) == [Upper(t[1])] + ReadBack(t[2..])
  {
    hide Body, Camelized;
    BodyStep(t);
    BodyStep(t[1..]);
    assert t[1..][1..] == t[2..];
    if Matches(t[1..]) {
      assert t[1..][2..] == t[3..];
      var rest := [UNDERSCORE, t[2]] + Body(t[3..]);
      assert Body(t) == [UNDERSCORE, Upper(t[1])] + rest;
      CamelizedCapital(Upper(t[1]), rest);
      CamelizedCapital(t[2], Body(t[3..]));
    } else {
      assert Body(t) == [UNDERSCORE, Upper(t[1])] + Body(t[2..]);
      CamelizedCapital(Upper(t[1]), Body(t[2..]));
    }
  }

  lemma {:induction false} ReadBackNoLonger(t: Text)
    ensures |ReadBack(t)| <= |t|
  {
    if t == [] {
    } else if t[0] != UNDERSCORE {
      ReadBackStep(t);
      ReadBackNoLonger(if Matches(t) then t[2..] else t[1..]);
    } else if |t| == 1 {
      BodyStep(t);
    } else {
      ReadBackUnderscore(t);
      ReadBackNoLonger(if Matches(t[1..]) then t[3..] else t[2..]);
    }
  }

  lemma CamelTail(t: Text)
    requires t != [] && IsCamel(t)
    ensures t[0] != UNDERSCORE && !IsUpper(t[0])
    ensures IsCamel(if Matches(t) then t[2..] else t[1..])
  {
    assert t[0] in t;
    var n := if Matches(t) then 2 else 1;
    assert forall u | u in t[n..] :: u in t;
    forall i | 0 <= i < |t[n..]| && IsUpper(t[n..][i])
      ensures i > 0 && (IsLower(t[n..][i - 1]) || IsDigit(t[n..][i - 1]))
    {
      assert IsUpper(t[n + i]);
    }
  }

  lemma TailCamel(t: Text)
    requires t != [] && t[0] != UNDERSCORE && !IsUpper(t[0])
    requires IsCamel(if Matches(t) then t[2..] else t[1..])
    ensures IsCamel(t)
  {
    var n := if Matches(t) then 2 else 1;
    assert t == t[..n] + t[n..];
    forall i | 0 <= i < |t| && IsUpper(t[i]) ensures i > 0 && (IsLower(t[i - 1]) || IsDigit(t[i - 1])) {
      if i >= n {
        assert t[n..][i - n] == t[i];
      }
    }
  }

  lemma {:induction false} ReadBackIff(t: Text)
    ensures ReadBack(t) == t <==> IsCamel(t)
  {
    hide Body, Camelized, IsCamel, ReadBack;
    if t == [] {
      EmptyFlag();
    } else if t[0] == UNDERSCORE {
      LeadingUnderscore(t);
    } else {
      var n := if Matches(t) then 2 else 1;
      ReadBackStep(t);
      ReadBackIff(t[n..]);
      assert t == t[..n] + t[n..];
      if IsCamel(t) {
        CamelTail(t);
      } else if ReadBack(t) == t {
        assert ReadBack(t)[0] == t[0] && ReadBack(t)[n..] == t[n..];
        TailCamel(t);
      }
    }
  }

  lemma EmptyFlag()
    ensures ReadBack([]) == [] && IsCamel([])
  {
  }

  lemma LeadingUnderscore(t: Text)
    requires t != [] && t[0] == UNDERSCORE
    ensures ReadBack(t) != t && !IsCamel(t)
  {
    assert t[0] in t;
    if |t| == 1 {
      BodyStep(t);
    } else {
      ReadBackUnderscore(t);
      if !Matches(t[1..]) && ReadBack(t) == t {
        ReadBackNoLonger(t[2..]);
      }
    }
  }

  /** The flag can be read back from its key exactly when its name is camelCase. */
  lemma KeyReadsBackIff(flag: Text)
    ensures FlagOf(EnvOverrideKey(flag)) == flag <==> IsCamel(flag)
  {
    ReadBackIff(flag);
    assert EnvOverrideKey(flag)[8..] == Body(flag);
  }

  /** So no two camelCase flags share a key. */
  lemma KeysDiffer(f: Text, g: Text)
    requires IsCamel(f) && IsCamel(g) && EnvOverrideKey(f) == EnvOverrideKey(g)
    ensures f == g
  {
    KeyReadsBackIff(f);
    KeyReadsBackIff(g);
  }

  /** Outside camelCase keys can collide. */
  lemma AdjacentCapitalsCollide()
    ensures EnvOverrideKey([97, 66, 99]) == EnvOverrideKey([97, 66, 67])
    ensures IsCamel([97, 66, 99]) && !IsCamel([97, 66, 67])
  {
    var small, capital: Text := [97, 66, 99], [97, 66, 67];
    assert small[2..] == [99] && capital[2..] == [67];
    assert ReplaceAll([99]) == [99] && ReplaceAll([67]) == [67];
    assert ToUpper(ReplaceAll(small)) == ToUpper(ReplaceAll(capital));
    assert IsUpper(capital[2]);
  }

  lemma PlaceholderAndBetaNames()
    ensures IsCamel(Units("exampleFoundationFlag")) && IsCamel(Units("closedBetaEnabled"))
  {
    hide IsCamel, Units;
    NameIsCamel("exampleFoundationFlag");
    NameIsCamel("closedBetaEnabled");
  }

  lemma BankNames()
    ensures IsCamel(Units("liveBankingEnabled")) && IsCamel(Units("bankConnectionEnabled"))
  {
    hide IsCamel, Units;
    NameIsCamel("liveBankingEnabled");
    NameIsCamel("bankConnectionEnabled");
  }

  lemma PaymentNames()
    ensures IsCamel(Units("liveCardIssuanceEnabled")) && IsCamel(Units("paymentInitiationEnabled"))
  {
    hide IsCamel, Units;
    NameIsCamel("liveCardIssuanceEnabled");
    NameIsCamel("paymentInitiationEnabled");
  }

  /** Every registered name is camelCase. */
  lemma RegistryIsCamel(flag: Text)
    requires flag in FEATURE_FLAGS
    ensures IsCamel(flag)
  {
    hide IsCamel, Units;
    PlaceholderAndBetaNames();
    BankNames();
    PaymentNames();
  }

  lemma NameIsCamel(name: string)
    requires forall i | 0 <= i < |name| ::
      'a' <= name[i] <= 'z' || (i > 0 && 'A' <= name[i] <= 'Z' && 'a' <= name[i - 1] <= 'z')
    ensures IsCamel(Units(name))
  {
  }

  // ---------------------------------------------------------------- overriding

  lemma WordsDiffer()
    ensures Units("true") != Units("false")
  {
    assert |Units("true")| == 4 && |Units("false")| == 5;
  }

  /** Setting a flag's variable decides that flag, if it is set to one of the two words,
      and leaves every other flag as it was. */
  lemma OverrideIsLocal(env: Environment, flags: map<Text, bool>, flag: Text, other: Text, value: Text)
    requires flag in flags && other in flags && IsCamel(flag) && IsCamel(other)
    ensures var after := env[EnvOverrideKey(flag) := value];
            && (IsFeatureEnabled(after, flags, flag) <==>
                  value == Units("true") || (value != Units("false") && flags[flag]))
            && (other != flag ==> IsFeatureEnabled(after, flags, other) == IsFeatureEnabled(env, flags, other))
  {
    hide EnvOverrideKey, IsCamel;
    WordsDiffer();
    if other != flag && EnvOverrideKey(flag) == EnvOverrideKey(other) {
      KeysDiffer(flag, other);
    }
  }

  // ---------------------------------------------------------------- unit by unit

  /** A one-unit flag's key is FEATURE_ and the unit, a to z as capitals. */
  lemma KeyOfUnit(u: CodeUnit)
    ensures EnvOverrideKey([u]) == [70, 69, 65, 84, 85, 82, 69, 95, if 97 <= u <= 122 then u - 32 else u]
  {
    assert PREFIX == [70, 69, 65, 84, 85, 82, 69, 95];
    assert ReplaceAll([u][1..]) == [];
    assert ReplaceAll([u]) == [u];
  }

  /** What stands between two units: an underscore where a small letter or digit meets a
      capital, and nothing elsewhere. */
  function Between(last: CodeUnit, first: CodeUnit): Text {
    if (97 <= last <= 122 || 48 <= last <= 57) && 65 <= first <= 90 then [95] else []
  }

  /** A longer flag's key is made of its parts' keys and what stands between them. */
  lemma KeyOfParts(a: Text, b: Text)
    requires a != [] && b != []
    ensures |EnvOverrideKey(b)| >= 8
    ensures EnvOverrideKey(a + b) == EnvOverrideKey(a) + Between(a[|a| - 1], b[0]) + EnvOverrideKey(b)[8..]
  {
    hide Separated, ReplaceAll, ToUpper, Between;
    assert |PREFIX| == 8;
    NoBoundaryMissed(a);
    NoBoundaryMissed(b);
    NoBoundaryMissed(a + b);
    SeparatedParts(a, b);
    UpperParts(Separated(a), a[|a| - 1], b[0], Separated(b));
    assert EnvOverrideKey(b)[8..] == ToUpper(Separated(b));
  }

  lemma UpperParts(a: Text, last: CodeUnit, first: CodeUnit, b: Text)
    ensures ToUpper(a + Between(last, first) + b) == ToUpper(a) + Between(last, first) + ToUpper(b)
  {
  }

  lemma MatchIs(t: Text)
    requires |t| >= 2
    ensures Between(t[0], t[1]) == if Matches(t) then [UNDERSCORE] else []
  {
  }

  lemma OneUnitAlone(u: CodeUnit)
    ensures Separated([u]) == [u]
  {
    assert !Matches([u]) && Separated([u][1..]) == [];
  }

  lemma SeparatedStep(t: Text)
    requires t != []
    ensures |t| == 1 ==> Separated(t) == [t[0]]
    ensures |t| > 1 ==> Separated(t) == [t[0]] + Between(t[0], t[1]) + Separated(t[1..])
  {
    hide Matches, Between;
    if |t| == 1 {
      OneUnitAlone(t[0]);
      assert t == [t[0]];
    } else {
      MatchIs(t);
    }
  }

  lemma {:induction false} SeparatedParts(a: Text, b: Text)
    requires a != [] && b != []
    ensures Separated(a + b) == Separated(a) + Between(a[|a| - 1], b[0]) + Separated(b)
  {
    hide Separated, Between;
    SeparatedStep(a + b);
    SeparatedStep(a);
    assert (a + b)[0] == a[0] && (a + b)[1..] == a[1..] + b;
    if |a| == 1 {
      assert a[1..] + b == b && (a + b)[1] == b[0];
    } else {
      SeparatedParts(a[1..], b);
      assert (a + b)[1] == a[1];
    }
  }

  lemma RegistryNamesDiffer()
    ensures Units("exampleFoundationFlag") != Units("bankConnectionEnabled")
    ensures |Units("exampleFoundationFlag")| == 21 == |Units("bankConnectionEnabled")|
    ensures |Units("liveBankingEnabled")| == 18 && |Units("liveCardIssuanceEnabled")| == 23
    ensures |Units("paymentInitiationEnabled")| == 24 && |Units("closedBetaEnabled")| == 17
  {
    assert Units("exampleFoundationFlag")[0] == 101 && Units("bankConnectionEnabled")[0] == 98;
  }

  /** With no variable set, of the six registered flags payment initiation and bank
      connection are on, and the others off. */
  lemma Defaults(flag: Text)
    ensures flag in FEATURE_FLAGS <==> flag in [
      Units("exampleFoundationFlag"), Units("liveBankingEnabled"), Units("liveCardIssuanceEnabled"),
      Units("paymentInitiationEnabled"), Units("bankConnectionEnabled"), Units("closedBetaEnabled")]
    ensures flag in FEATURE_FLAGS ==>
      (IsFeatureEnabled(map[], FEATURE_FLAGS, flag) <==>
        flag == Units("paymentInitiationEnabled") || flag == Units("bankConnectionEnabled"))
  {
    hide Units, EnvOverrideKey;
    RegistryNamesDiffer();
  }

  /** The two words that override, and that any other value leaves the default. */
  lemma OverrideWords(env: Environment, flags: map<Text, bool>, flag: Text)
    requires flag in flags
    ensures var key := EnvOverrideKey(flag);
            IsFeatureEnabled(env, flags, flag) ==
              if key in env && env[key] == [116, 114, 117, 101] then true
              else if key in env && env[key] == [102, 97, 108, 115, 101] then false
              else flags[flag]
  {
    hide EnvOverrideKey;
    assert Units("true") == [116, 114, 117, 101] && Units("false") == [102, 97, 108, 115, 101];
  }
}
