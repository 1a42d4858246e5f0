/** Phone numbers: normalisation to E.164, its validity check, and masking. */
module Phone {
  import opened Wrappers
  import opened Basics
  import opened Texts
  import opened Decimals
  import opened Trimming

  const ONE := Unit('1')
  const STAR := Unit('*')

  /** The class `[\s().-]`. */
  predicate IsPunctuation(u: CodeUnit) {
    IsSpace(u) || u == Unit('(') || u == Unit(')') || u == Unit('.') || u == Unit('-')
  }

  /** `replace(/[\s().-]/g, "")`. */
  function Stripped(t: Text): Text {
    if t == [] then []
    else (if IsPunctuation(t[0]) then [] else [t[0]]) + Stripped(t[1..])
  }

  /** A plus sign, a digit from 1 to 9, and 7 to 14 more digits (section 6 of ITU-T E.164). */
  predicate IsValidE164(t: Text) {
    9 <= |t| <= 16 && t[0] == PLUS && Unit('1') <= t[1] <= Unit('9') && AllDigits(t[2..])
  }

  function NormalizeE164(raw: Text): Option<Text> {
    var trimmed := Trim(raw);
    if trimmed == [] then None
    else if trimmed[0] == PLUS then
      var stripped := [PLUS] + Stripped(trimmed[1..]);
      if IsValidE164(stripped) then Some(stripped) else None
    else
      var digitsOnly := Stripped(trimmed);
      if |digitsOnly| == 10 && AllDigits(digitsOnly) then Some([PLUS, ONE] + digitsOnly)
      else if |digitsOnly| == 11 && digitsOnly[0] == ONE && AllDigits(digitsOnly[1..]) then Some([PLUS] + digitsOnly)
      else None
  }

  function Stars(n: nat): Text {
    seq(n, _ => STAR)
  }

  function MaskPhone(e164: Text): Text {
    if |e164| <= 4 then Stars(3)
    else e164[..2] + Stars(|e164| - 4) + e164[|e164| - 2..]
  }

  // ---------------------------------------------------------------- what normalising depends on

  /** The first thing in the text that is not a space is a plus sign. */
  predicate LeadsWithPlus(raw: Text) {
    TrimStart(raw) != [] && TrimStart(raw)[0] == PLUS
  }

  lemma {:induction false} StrippedConcat(a: Text, b: Text)
    ensures Stripped(a + b) == Stripped(a) + Stripped(b)
  {
    hide IsPunctuation;
    if a == [] {
      assert a + b == b;
    } else {
      StrippedConcat(a[1..], b);
      assert (a + b)[1..] == a[1..] + b;
      Associate(if IsPunctuation(a[0]) then [] else [a[0]], Stripped(a[1..]), Stripped(b));
    }
  }

  lemma {:induction false} TrimStartKeeps(t: Text)
    ensures Stripped(TrimStart(t)) == Stripped(t)
    ensures TrimStart(t) != [] ==> !IsSpace(TrimStart(t)[0])
  {
    if t != [] && IsSpace(t[0]) {
      TrimStartKeeps(t[1..]);
    }
  }

  lemma {:induction false} TrimEndKeeps(t: Text)
    ensures Stripped(TrimEnd(t)) == Stripped(t)
    ensures t != [] && !IsSpace(t[0]) ==> TrimEnd(t) != [] && TrimEnd(t)[0] == t[0]
  {
    if t != [] && IsSpace(t[|t| - 1]) {
      var front, last := t[..|t| - 1], t[|t| - 1];
      TrimEndKeeps(front);
      StrippedConcat(front, [last]);
      assert t == front + [last];
      assert Stripped([last]) == [];
    }
  }

  /** The result depends only on the text without its punctuation and on whether the
      text leads with a plus sign. */
  lemma NormalizeDependsOn(raw: Text)
    ensures LeadsWithPlus(raw) ==>
      NormalizeE164(raw) == if IsValidE164(Stripped(raw)) then Some(Stripped(raw)) else None
    ensures !LeadsWithPlus(raw) ==>
      var core := Stripped(raw);
      NormalizeE164(raw) == if |core| == 10 && AllDigits(core) then Some([PLUS, ONE] + core)
                            else if |core| == 11 && core[0] == ONE && AllDigits(core[1..]) then Some([PLUS] + core)
                            else None
  {
    TrimStartKeeps(raw);
    TrimEndKeeps(TrimStart(raw));
    var trimmed := Trim(raw);
    if LeadsWithPlus(raw) {
      assert trimmed == [PLUS] + trimmed[1..];
      StrippedConcat([PLUS], trimmed[1..]);
      assert Stripped([PLUS]) == [PLUS];
    }
  }

  // ---------------------------------------------------------------- main results

  /** The text, up to punctuation, spells this number for a reader in North America. */
  ghost predicate Spells(raw: Text, number: Text) {
    if LeadsWithPlus(raw) then Stripped(raw) == number
    else |number| == 12 && number[1] == ONE && (Stripped(raw) == number[1..] || Stripped(raw) == number[2..])
  }

  /** A text normalises to a number exactly when the number is valid and the text spells
      it: in full after a plus sign, or as a North American number with or without the
      1. */
  lemma NormalizesIff(raw: Text, number: Text)
    ensures NormalizeE164(raw) == Some(number) <==> IsValidE164(number) && Spells(raw, number)
  {
    NormalizeDependsOn(raw);
    var core := Stripped(raw);
    if !LeadsWithPlus(raw) && IsValidE164(number) && Spells(raw, number) {
      assert number[2..] == number[1..][1..];
      assert number == [PLUS] + number[1..];
      assert number == [PLUS, ONE] + number[2..];
    }
    if !LeadsWithPlus(raw) && NormalizeE164(raw) == Some(number) {
      if |core| == 10 {
        assert number[2..] == core;
      } else {
        assert number[1..] == core && number[2..] == core[1..];
      }
    }
  }

  lemma {:induction false} PlainStripped(t: Text)
    requires forall u | u in t :: !IsPunctuation(u)
    ensures Stripped(t) == t
  {
    if t != [] {
      assert t[0] in t && forall u | u in t[1..] :: u in t;
      PlainStripped(t[1..]);
    }
  }

  lemma DigitsArePlain(t: Text)
    requires AllDigits(t)
    ensures Stripped(t) == t && !LeadsWithPlus(t) && Stripped([PLUS] + t) == [PLUS] + t && LeadsWithPlus([PLUS] + t)
  {
    PlainStripped(t);
    PlainStripped([PLUS] + t);
    if t != [] {
      assert t[0] in t;
    }
  }

  /** The numbers that normalising leaves alone are exactly the valid ones. */
  lemma FixedPointsAreValid(number: Text)
    ensures NormalizeE164(number) == Some(number) <==> IsValidE164(number)
  {
    if IsValidE164(number) {
      var digits := number[1..];
      assert digits == [number[1]] + number[2..];
      assert number == [PLUS] + digits;
      DigitsArePlain(digits);
    }
    NormalizesIff(number, number);
  }

  /** The three spellings of a North American number agree. */
  lemma SpellingsAgree(digits: Text)
    requires |digits| == 10 && AllDigits(digits)
    ensures NormalizeE164(digits) == Some([PLUS, ONE] + digits)
    ensures NormalizeE164([ONE] + digits) == Some([PLUS, ONE] + digits)
    ensures NormalizeE164([PLUS, ONE] + digits) == Some([PLUS, ONE] + digits)
  {
    var number := [PLUS, ONE] + digits;
    DigitsArePlain(digits);
    DigitsArePlain([ONE] + digits);
    assert number == [PLUS] + ([ONE] + digits);
    assert number[2..] == digits && number[1..] == [ONE] + digits;
    NormalizesIff(digits, number);
    NormalizesIff([ONE] + digits, number);
    NormalizesIff(number, number);
  }

  /** Position i of the text comes before its leading plus sign. */
  predicate BeforePlus(raw: Text, i: nat)
    requires i <= |raw|
  {
    LeadsWithPlus(raw) && forall k | 0 <= k < i :: IsSpace(raw[k])
  }

  lemma {:induction false} LeadsAfterInsert(raw: Text, i: nat, u: CodeUnit)
    requires i <= |raw| && IsPunctuation(u)
    ensures LeadsWithPlus(raw[..i] + [u] + raw[i..]) <==> LeadsWithPlus(raw) && (IsSpace(u) || !BeforePlus(raw, i))
  {
    var longer := raw[..i] + [u] + raw[i..];
    if i == 0 {
      assert longer == [u] + raw && longer[1..] == raw;
    } else if IsSpace(raw[0]) {
      LeadsAfterInsert(raw[1..], i - 1, u);
      assert longer[1..] == raw[1..][..i - 1] + [u] + raw[1..][i - 1..];
      assert BeforePlus(raw, i) <==> BeforePlus(raw[1..], i - 1) by {
        assert forall k | 0 < k < i :: raw[k] == raw[1..][k - 1];
      }
    } else {
      assert longer[0] == raw[0];
    }
  }

  /** Adding a space, dot, dash or bracket anywhere changes nothing, and so neither does
      removing one, with one exception: a dot, dash or bracket in front of the leading
      plus sign makes any number unreadable. */
  lemma PunctuationIgnored(raw: Text, i: nat, u: CodeUnit)
    requires i <= |raw| && IsPunctuation(u)
    ensures var longer := raw[..i] + [u] + raw[i..];
            NormalizeE164(longer) == if IsSpace(u) || !BeforePlus(raw, i) then NormalizeE164(raw) else None
  {
    var longer := raw[..i] + [u] + raw[i..];
    LeadsAfterInsert(raw, i, u);
    StrippedConcat(raw[..i] + [u], raw[i..]);
    StrippedConcat(raw[..i], [u]);
    StrippedConcat(raw[..i], raw[i..]);
    assert raw[..i] + raw[i..] == raw;
    assert Stripped([u]) == [];
    assert Stripped(longer) == Stripped(raw);
    NormalizeDependsOn(raw);
    NormalizeDependsOn(longer);
    if LeadsWithPlus(raw) {
      TrimStartKeeps(raw);
      assert Stripped(raw) == [PLUS] + Stripped(TrimStart(raw)[1..]);
      assert Stripped(raw)[0] in Stripped(raw);
    }
  }

  /** Masking keeps the length, and tells two numbers apart exactly by their lengths and
      their first two and last two characters. */
  lemma MaskShowsEnds(a: Text, b: Text)
    requires IsValidE164(a) && IsValidE164(b)
    ensures |MaskPhone(a)| == |a|
    ensures MaskPhone(a) == MaskPhone(b) <==> |a| == |b| && a[..2] == b[..2] && a[|a| - 2..] == b[|b| - 2..]
  {
    if MaskPhone(a) == MaskPhone(b) {
      assert MaskPhone(a)[..2] == a[..2] && MaskPhone(b)[..2] == b[..2];
      assert MaskPhone(a)[|a| - 2..] == a[|a| - 2..] && MaskPhone(b)[|b| - 2..] == b[|b| - 2..];
    }
  }

  // ---------------------------------------------------------------- unit by unit

  /** Taking away punctuation goes unit by unit: brackets, dots, dashes and spaces go, and
      everything else stays in order. */
  lemma StrippedIs(a: Text, b: Text, u: CodeUnit)
    ensures Stripped(a + b) == Stripped(a) + Stripped(b)
    ensures Stripped([u]) == if u in {40, 41, 45, 46} || u in SPACES then [] else [u]
  {
    StrippedConcat(a, b);
    SpacesAre(u);
    assert Stripped([u][1..]) == [];
  }

  /** Valid are a plus sign, a digit from 1 to 9 and 7 to 14 further digits. */
  lemma ValidIs(t: Text)
    ensures IsValidE164(t) <==>
      && 9 <= |t| <= 16 && t[0] == 43 && 49 <= t[1] <= 57
      && forall i | 2 <= i < |t| :: 48 <= t[i] <= 57
  {
    if 9 <= |t| && forall i | 2 <= i < |t| :: 48 <= t[i] <= 57 {
      forall u | u in t[2..] ensures IsDigit(u) {
        var i :| 0 <= i < |t[2..]| && t[2..][i] == u;
        assert t[i + 2] == u;
      }
    }
    if IsValidE164(t) {
      forall i | 2 <= i < |t| ensures 48 <= t[i] <= 57 {
        assert t[2..][i - 2] in t[2..];
      }
    }
  }

  /** Normalising, by the text without its punctuation: after a leading plus sign a valid
      number is kept; otherwise ten digits gain +1, and eleven that begin with 1 gain +. */
  lemma NormalizeIs(before: Text, first: CodeUnit, rest: Text)
    requires AllSpaces(before) && first !in SPACES
    ensures var raw := before + [first] + rest;
            var core := Stripped(raw);
            NormalizeE164(raw) ==
              if first == 43 then if IsValidE164(core) then Some(core) else None
              else if |core| == 10 && (forall u | u in core :: 48 <= u <= 57) then Some([43, 49] + core)
              else if |core| == 11 && core[0] == 49 && (forall u | u in core :: 48 <= u <= 57) then Some([43] + core)
              else None
  {
    hide Stripped, NormalizeE164;
    var raw := before + [first] + rest;
    var core := Stripped(raw);
    assert raw == before + ([first] + rest);
    TrimStartSkips(before, [first] + rest);
    SpacesAre(first);
    NormalizeDependsOn(raw);
    if |core| == 11 {
      assert forall u | u in core :: u == core[0] || u in core[1..];
      assert forall u | u in core[1..] :: u in core;
    }
  }

  /** Blank text gives nothing. */
  lemma BlankIsNone(raw: Text)
    requires AllSpaces(raw)
    ensures NormalizeE164(raw) == None
  {
    TrimIgnoresOuter(raw, [], []);
    assert raw + [] + [] == raw;
  }

  /** Masking keeps the first two and the last two units where they stand and stars the
      rest; four units or fewer become three stars. */
  lemma MaskIs(t: Text)
    ensures |t| <= 4 ==> MaskPhone(t) == [42, 42, 42]
    ensures |t| > 4 ==>
      && |MaskPhone(t)| == |t|
      && forall i | 0 <= i < |t| :: MaskPhone(t)[i] == if i < 2 || i >= |t| - 2 then t[i] else 42
  {
  }
}
