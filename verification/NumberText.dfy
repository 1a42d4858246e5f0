/** What `Number(text)` reads, spelled out: which texts are numeric, and their values. */
module NumberText {
  import opened Wrappers
  import opened Texts
  import opened Hex
  import opened Binary64
  import opened Decimals
  import opened Trimming

  // ---------------------------------------------------------------- digits

  predicate Decimal(t: Text) {
    forall u | u in t :: 48 <= u <= 57
  }

  /** Digits are read from left to right in tens. */
  lemma DigitsValueIs(t: Text, d: int)
    requires Decimal(t) && 0 <= d < 10
    ensures AllDigits(t) && AllDigits(t + [48 + d])
    ensures DigitsValue([]) == 0 && DigitsValue(t + [48 + d]) == DigitsValue(t) * 10 + d
  {
    assert (t + [48 + d])[..|t|] == t;
  }

  /** A number is printed by its digits, with no zero in front but for zero itself. */
  lemma {:induction false} DigitsForm(n: nat)
    ensures Decimal(Digits(n)) && Digits(n) != []
    ensures n > 0 ==> Digits(n)[0] != 48
    ensures n < 10 ==> Digits(n) == [48 + n]
  {
    if n >= 10 {
      DigitsForm(n / 10);
    }
  }

  // ---------------------------------------------------------------- decimal numbers

  /** A sign or none, digits before and after an optional dot, and an optional exponent of
      a mark, a sign or none, and digits. */
  datatype Spelling = Spelling(sign: Text, whole: Text, dotted: bool, fraction: Text, exponent: Option<Power>)

  datatype Power = Power(mark: CodeUnit, sign: Text, digits: Text)

  predicate IsSign(t: Text) {
    t == [] || t == [43] || t == [45]
  }

  predicate Valid(p: Spelling) {
    && IsSign(p.sign) && Decimal(p.whole) && Decimal(p.fraction) && p.whole + p.fraction != []
    && (!p.dotted ==> p.fraction == [])
    && match p.exponent
       case None => true
       case Some(e) => (e.mark == 69 || e.mark == 101) && IsSign(e.sign) && Decimal(e.digits) && e.digits != []
  }

  function Mantissa(p: Spelling): Text {
    p.whole + if p.dotted then [46] + p.fraction else []
  }

  function Tail(p: Spelling): Text {
    match p.exponent
    case None => []
    case Some(e) => [e.mark] + (e.sign + e.digits)
  }

  function Spell(p: Spelling): Text {
    p.sign + (Mantissa(p) + Tail(p))
  }

  /** Ten to the power of the exponent. */
  function Scale(p: Spelling): real
    requires Valid(p)
  {
    match p.exponent
    case None => 1.0
    case Some(e) => if e.sign == [45] then 1.0 / Pow10(DigitsValue(e.digits)) else Pow10(DigitsValue(e.digits))
  }

  function Magnitude(p: Spelling): real
    requires Valid(p)
  {
    DigitsValue(p.whole + p.fraction) as real / Pow10(|p.fraction|) * Scale(p)
  }

  function Value(p: Spelling): real
    requires Valid(p)
  {
    if p.sign == [45] then -Magnitude(p) else Magnitude(p)
  }

  lemma MantissaReads(p: Spelling)
    requires Valid(p)
    ensures MantissaValue(Mantissa(p)) == Some(DigitsValue(p.whole + p.fraction) as real / Pow10(|p.fraction|))
  {
    hide DigitsValue, Pow10;
    if p.dotted {
      assert Mantissa(p) == p.whole + [DOT] + p.fraction;
      DotSplits(p.whole, p.fraction);
    } else {
      NoDot(p.whole);
      assert Mantissa(p) == p.whole;
    }
  }

  lemma {:induction false} ExponentStarts(mantissa: Text, tail: Text)
    requires forall u | u in mantissa :: !IsExponentMark(u)
    requires tail == [] || IsExponentMark(tail[0])
    ensures ExponentAt(mantissa + tail) == |mantissa|
  {
    if mantissa == [] {
      assert mantissa + tail == tail;
    } else {
      assert mantissa[0] in mantissa && forall u | u in mantissa[1..] :: u in mantissa;
      assert (mantissa + tail)[1..] == mantissa[1..] + tail;
      ExponentStarts(mantissa[1..], tail);
    }
  }

  lemma PowerReads(e: Power)
    requires IsSign(e.sign) && Decimal(e.digits) && e.digits != []
    ensures PowerWritten(e.sign + e.digits) ==
      Some(if e.sign == [45] then 1.0 / Pow10(DigitsValue(e.digits)) else Pow10(DigitsValue(e.digits)))
  {
    hide DigitsValue, Pow10;
    assert e.digits[0] in e.digits;
    if e.sign != [] {
      assert (e.sign + e.digits)[1..] == e.digits;
    } else {
      assert e.sign + e.digits == e.digits;
    }
  }

  lemma MantissaPlain(p: Spelling)
    requires Valid(p)
    ensures forall u | u in Mantissa(p) :: !IsExponentMark(u)
  {
  }

  lemma UnsignedReads(p: Spelling)
    requires Valid(p)
    ensures UnsignedValue(Mantissa(p) + Tail(p)) == Some(Magnitude(p))
  {
    hide DigitsValue, Pow10, MantissaValue, PowerWritten, Mantissa, ExponentAt;
    MantissaReads(p);
    MantissaPlain(p);
    ExponentStarts(Mantissa(p), Tail(p));
    var t := Mantissa(p) + Tail(p);
    assert t[..|Mantissa(p)|] == Mantissa(p);
    match p.exponent {
      case None =>
        assert t == Mantissa(p);
      case Some(e) =>
        assert Tail(p) == [e.mark] + (e.sign + e.digits);
        assert t[|Mantissa(p)| + 1..] == e.sign + e.digits;
        PowerReads(e);
        assert PowerWritten(t[|Mantissa(p)| + 1..]) == Some(Scale(p));
        assert UnsignedValue(t).value == MantissaValue(Mantissa(p)).value * Scale(p);
        assert Magnitude(p) == MantissaValue(Mantissa(p)).value * Scale(p);
    }
  }

  lemma NotPrefixed(p: Spelling)
    requires Valid(p)
    ensures !Prefixed(Spell(p))
    ensures Mantissa(p) + Tail(p) != [] && (Mantissa(p) + Tail(p))[0] != 43 && (Mantissa(p) + Tail(p))[0] != 45
  {
    var m := Mantissa(p);
    assert m != [] && forall u | u in m :: u == 46 || 48 <= u <= 57;
    assert m[0] in m;
    var t := Spell(p);
    if p.sign == [] && |t| >= 2 {
      assert t == m + Tail(p);
      if |m| >= 2 {
        assert m[1] in m;
      } else if p.exponent.Some? {
        assert t[1] == p.exponent.value.mark;
      }
    }
  }

  /** Every spelling is read as its value. */
  lemma DecimalReads(p: Spelling)
    requires Valid(p)
    ensures NumericValue(Spell(p)) == Some(Value(p))
  {
    hide Mantissa, Tail, UnsignedValue, Magnitude;
    NotPrefixed(p);
    UnsignedReads(p);
    var body := Mantissa(p) + Tail(p);
    if p.sign == [] {
      assert Spell(p) == body;
    } else {
      assert Spell(p)[1..] == body;
    }
  }

  // ---------------------------------------------------------------- nothing else

  lemma {:induction false} ExponentSplits(t: Text)
    ensures var e := ExponentAt(t);
            && (forall u | u in t[..e] :: !IsExponentMark(u))
            && (e < |t| ==> IsExponentMark(t[e]))
  {
    if t != [] && !IsExponentMark(t[0]) {
      ExponentSplits(t[1..]);
      assert t[..ExponentAt(t)] == [t[0]] + t[1..][..ExponentAt(t[1..])];
    }
  }

  lemma PowerParts(t: Text) returns (sign: Text, digits: Text)
    requires PowerWritten(t).Some?
    ensures t == sign + digits && IsSign(sign) && Decimal(digits) && digits != []
  {
    if t[0] == MINUS || t[0] == PLUS {
      sign, digits := [t[0]], t[1..];
    } else {
      sign, digits := [], t;
    }
  }

  lemma DigitsOfParts(a: Text, b: Text)
    ensures AllDigits(a + b) ==> Decimal(a) && Decimal(b)
  {
    assert forall u | u in a :: u in a + b;
    assert forall u | u in b :: u in a + b;
  }

  lemma UnsignedParts(t: Text) returns (p: Spelling)
    requires UnsignedValue(t).Some?
    ensures Valid(p) && p.sign == [] && t == Mantissa(p) + Tail(p)
  {
    hide DigitsValue, Pow10, PowerWritten;
    var e := ExponentAt(t);
    var m := t[..e];
    var d := DotAt(m);
    ExponentSplits(t);
    var exponent: Option<Power> := None;
    if e < |t| {
      var sign, digits := PowerParts(t[e + 1..]);
      exponent := Some(Power(t[e], sign, digits));
      assert t == m + ([t[e]] + t[e + 1..]);
    } else {
      assert t == m;
    }
    var fraction := if d < |m| then m[d + 1..] else [];
    assert m == m[..d] + if d < |m| then [46] + fraction else [];
    DigitsOfParts(m[..d], fraction);
    p := Spelling([], m[..d], d < |m|, fraction, exponent);
  }

  /** And every numeric text is a spelling, or a prefix of a radix and digits of it. */
  lemma NumericParts(t: Text) returns (p: Spelling)
    requires NumericValue(t).Some? && !(|t| >= 2 && t[0] == 48 && t[1] in {66, 79, 88, 98, 111, 120})
    ensures Valid(p) && t == Spell(p) && NumericValue(t) == Some(Value(p))
  {
    hide UnsignedValue, Mantissa, Tail, Valid, Value;
    assert !Prefixed(t);
    if t != [] && (t[0] == MINUS || t[0] == PLUS) {
      var q := UnsignedParts(t[1..]);
      p := q.(sign := [t[0]]);
      SignAdded(q, [t[0]]);
      assert t == [t[0]] + t[1..];
    } else {
      p := UnsignedParts(t);
      assert [] + t == t;
    }
    DecimalReads(p);
  }

  lemma SignAdded(q: Spelling, sign: Text)
    requires Valid(q) && IsSign(sign)
    ensures Valid(q.(sign := sign))
    ensures Mantissa(q.(sign := sign)) == Mantissa(q) && Tail(q.(sign := sign)) == Tail(q)
  {
  }

  // ---------------------------------------------------------------- other radices

  predicate DigitOf(u: CodeUnit, radix: int) {
    exists n | 0 <= n < radix && n < 16 :: u == LOWER[n] || u == UPPER[n]
  }

  /** A zero, a letter for 16, 8 or 2, and at least one digit of that radix. */
  lemma PrefixedReads(letter: CodeUnit, digits: Text)
    requires letter in {66, 79, 88, 98, 111, 120}
    ensures var radix := if letter == 88 || letter == 120 then 16 else if letter == 79 || letter == 111 then 8 else 2;
            NumericValue([48, letter] + digits).Some? <==> digits != [] && forall u | u in digits :: DigitOf(u, radix)
  {
    var radix := if letter == 88 || letter == 120 then 16 else if letter == 79 || letter == 111 then 8 else 2;
    var t := [48, letter] + digits;
    assert t[2..] == digits && Radix(letter) == radix;
    forall u: CodeUnit ensures DigitOf(u, radix) <==> IsHexDigit(u) && HexValue(u) < radix {
      DigitOfIff(u, radix);
    }
  }

  lemma DigitOfIff(u: CodeUnit, radix: int)
    requires 0 <= radix <= 16
    ensures DigitOf(u, radix) <==> IsHexDigit(u) && HexValue(u) < radix
  {
    if DigitOf(u, radix) {
      var n :| 0 <= n < radix && n < 16 && (u == LOWER[n] || u == UPPER[n]);
      DigitIs(n);
    }
    if IsHexDigit(u) {
      DigitIs(HexValue(u));
    }
  }

  lemma RadixStep(digits: Text, u: CodeUnit, radix: nat)
    requires forall v | v in digits + [u] :: IsHexDigit(v)
    ensures (forall v | v in digits :: IsHexDigit(v)) && IsHexDigit(u)
    ensures RadixValue(digits + [u], radix) == RadixValue(digits, radix) * radix + HexValue(u)
  {
    hide IsHexDigit, HexValue;
    assert forall v | v in digits :: v in digits + [u];
    assert u in digits + [u];
    assert (digits + [u])[..|digits|] == digits;
  }

  lemma Cast(a: int, b: int, c: int)
    ensures (a * b + c) as real == a as real * b as real + c as real
  {
  }

  lemma PrefixedValue(letter: CodeUnit, digits: Text)
    requires letter in {66, 79, 88, 98, 111, 120} && NumericValue([48, letter] + digits).Some?
    ensures digits != [] && Radix(letter) in {2, 8, 16}
    ensures forall u | u in digits :: IsHexDigit(u) && HexValue(u) < Radix(letter)
    ensures NumericValue([48, letter] + digits) == Some(RadixValue(digits, Radix(letter)) as real)
  {
    hide IsHexDigit, HexValue, RadixValue;
    assert ([48, letter] + digits)[2..] == digits;
  }

  lemma PrefixedHasValue(letter: CodeUnit, digits: Text)
    requires letter in {66, 79, 88, 98, 111, 120} && digits != []
    requires forall u | u in digits :: IsHexDigit(u) && HexValue(u) < Radix(letter)
    ensures NumericValue([48, letter] + digits).Some?
  {
    hide IsHexDigit, HexValue, RadixValue;
    assert ([48, letter] + digits)[2..] == digits;
  }

  /** The digits are read from left to right in that radix. */
  lemma RadixValueIs(letter: CodeUnit, digits: Text, n: int, u: CodeUnit)
    requires letter in {66, 79, 88, 98, 111, 120} && 0 <= n < 16 && (u == LOWER[n] || u == UPPER[n])
    requires NumericValue([48, letter] + (digits + [u])).Some?
    ensures var radix := if letter == 88 || letter == 120 then 16 else if letter == 79 || letter == 111 then 8 else 2;
            && (digits == [] ==> NumericValue([48, letter] + (digits + [u])) == Some(n as real))
            && (digits != [] ==>
                  && NumericValue([48, letter] + digits).Some?
                  && NumericValue([48, letter] + (digits + [u])) ==
                     Some(NumericValue([48, letter] + digits).value * radix as real + n as real))
  {
    hide NumericValue, IsHexDigit, HexValue, RadixValue;
    DigitIs(n);
    PrefixedValue(letter, digits + [u]);
    RadixStep(digits, u, Radix(letter));
    NoRadixDigits(Radix(letter));
    if digits != [] {
      assert forall v | v in digits :: v in digits + [u];
      PrefixedHasValue(letter, digits);
      PrefixedValue(letter, digits);
    }
    Cast(RadixValue(digits, Radix(letter)), Radix(letter), n);
  }

  lemma NoRadixDigits(radix: nat)
    ensures RadixValue([], radix) == 0
  {
  }

  // ---------------------------------------------------------------- rounding and blanks

  /** Blank text is zero, and outer spaces do not count. */
  lemma BlanksRead(before: Text, t: Text, after: Text)
    requires AllSpaces(before) && AllSpaces(after)
    ensures ToNumber(before) == Some(0.0)
    ensures ToNumber(before + t + after) == ToNumber(t)
  {
    TrimIgnoresOuter(before, t, after);
    TrimIgnoresOuter(before, [], []);
    assert before + [] + [] == before;
  }

  /** Other text is read if it is numeric and does not round to an infinity, that is, if
      its value is below 2^1024 - 2^970 in magnitude; it is then rounded to a double. */
  lemma ToNumberIs(t: Text)
    requires t != [] && Bare(t)
    ensures ToNumber(t) ==
      if NumericValue(t).Some? && Abs(NumericValue(t).value) < Pow2(1024) - Pow2(970)
      then Some(Round(NumericValue(t).value)) else None
  {
    hide NumericValue, Round, IsFinite, Pow2;
    BareIsTrimmed(t);
    if NumericValue(t).Some? {
      FiniteIff(NumericValue(t).value);
    }
  }

  lemma FiniteIff(x: real)
    ensures IsFinite(Round(x)) <==> Abs(x) < Pow2(1024) - Pow2(970)
  {
    hide Round;
    RoundSymmetric(x);
    if x > 0.0 {
      RoundStaysBelow(x);
    } else if x < 0.0 {
      RoundStaysBelow(-x);
    } else {
      Pow2Monotone(971, 1024);
      Pow2Step(970);
    }
  }
}
