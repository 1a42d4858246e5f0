/** Decimal text: how numbers are printed, and how `Number(text)` reads them. */
module Decimals {
  import opened Wrappers
  import opened Texts
  import opened Binary64
  import opened Hex

  const DOT := Unit('.')
  const MINUS := Unit('-')
  const PLUS := Unit('+')

  /** The decimal digits of a natural number. */
  function Digits(n: nat): (t: Text)
    ensures t != [] && forall u | u in t :: IsDigit(u)
  {
    if n < 10 then [Unit('0') + n] else Digits(n / 10) + [Unit('0') + n % 10]
  }

  predicate AllDigits(t: Text) {
    forall u | u in t :: IsDigit(u)
  }

  function DigitsValue(t: Text): nat
    requires AllDigits(t)
  {
    if t == [] then 0
    else
      assert forall u | u in t[..|t| - 1] :: u in t;
      assert t[|t| - 1] in t;
      DigitsValue(t[..|t| - 1]) * 10 + (t[|t| - 1] - Unit('0'))
  }

  lemma {:induction false} DigitsInvert(n: nat)
    ensures DigitsValue(Digits(n)) == n
  {
    if n >= 10 {
      DigitsInvert(n / 10);
      assert Digits(n)[..|Digits(n)| - 1] == Digits(n / 10);
    } else {
      assert Digits(n)[..0] == [];
    }
  }

  function Pow10(k: nat): (r: real)
    ensures r > 0.0
  {
    if k == 0 then 1.0 else 10.0 * Pow10(k - 1)
  }

  /** The position of the first dot, or the length. */
  function DotAt(t: Text): (d: nat)
    ensures d <= |t| && (d < |t| ==> t[d] == DOT) && DOT !in t[..d]
  {
    if t == [] || t[0] == DOT then 0
    else
      var d := DotAt(t[1..]);
      assert t[..d + 1] == [t[0]] + t[1..][..d];
      1 + d
  }

  /** The exact value of digits with at most one dot among them. */
  function MantissaValue(t: Text): Option<real> {
    var d := DotAt(t);
    var whole, fraction := t[..d], if d < |t| then t[d + 1..] else [];
    if whole + fraction == [] || !AllDigits(whole + fraction) then None
    else Some(DigitsValue(whole + fraction) as real / Pow10(|fraction|))
  }

  predicate IsExponentMark(u: CodeUnit) {
    u == Unit('e') || u == Unit('E')
  }

  /** The position of the first exponent mark, or the length. */
  function ExponentAt(t: Text): (e: nat)
    ensures e <= |t|
  {
    if t == [] || IsExponentMark(t[0]) then 0 else 1 + ExponentAt(t[1..])
  }

  /** Ten to the power written after an exponent mark. */
  function PowerWritten(t: Text): Option<real> {
    var signed := t != [] && (t[0] == MINUS || t[0] == PLUS);
    var digits := if signed then t[1..] else t;
    if digits == [] || !AllDigits(digits) then None
    else if signed && t[0] == MINUS then Some(1.0 / Pow10(DigitsValue(digits)))
    else Some(Pow10(DigitsValue(digits)))
  }

  /** The exact value of unsigned decimal text, with or without an exponent. */
  function UnsignedValue(t: Text): Option<real> {
    var e := ExponentAt(t);
    var mantissa := MantissaValue(t[..e]);
    if e == |t| then mantissa
    else
      var power := PowerWritten(t[e + 1..]);
      if mantissa.None? || power.None? then None else Some(mantissa.value * power.value)
  }

  /** The exact value of optionally signed decimal text. */
  function DecimalValue(t: Text): Option<real> {
    if t != [] && (t[0] == MINUS || t[0] == PLUS) then
      var magnitude := UnsignedValue(t[1..]);
      if magnitude.Some? && t[0] == MINUS then Some(-magnitude.value) else magnitude
    else UnsignedValue(t)
  }

  /** The radix of a `0x`, `0o` or `0b` literal, by its second letter; 0 for any other. */
  function Radix(u: CodeUnit): nat {
    if u == Unit('x') || u == Unit('X') then 16
    else if u == Unit('o') || u == Unit('O') then 8
    else if u == Unit('b') || u == Unit('B') then 2
    else 0
  }

  predicate Prefixed(t: Text) {
    |t| >= 2 && t[0] == Unit('0') && Radix(t[1]) != 0
  }

  function RadixValue(t: Text, radix: nat): nat
    requires forall u | u in t :: IsHexDigit(u)
  {
    if t == [] then 0
    else
      assert forall u | u in t[..|t| - 1] :: u in t;
      assert t[|t| - 1] in t;
      RadixValue(t[..|t| - 1], radix) * radix + HexValue(t[|t| - 1])
  }

  /** The exact value of a numeric text. */
  function NumericValue(t: Text): Option<real> {
    if !Prefixed(t) then DecimalValue(t)
    else if |t| > 2 && forall u | u in t[2..] :: IsHexDigit(u) && HexValue(u) < Radix(t[1]) then
      Some(RadixValue(t[2..], Radix(t[1])) as real)
    else None
  }

  /** ECMAScript WhiteSpace and LineTerminator, which `trim` removes and `\s` matches. */
  predicate IsSpace(u: CodeUnit) {
    9 <= u <= 13 || u == 32 || u == 0xA0 || u == 0x1680 || 0x2000 <= u <= 0x200A ||
    u == 0x2028 || u == 0x2029 || u == 0x202F || u == 0x205F || u == 0x3000 || u == 0xFEFF
  }

  /** The same units one by one, in their numbers. */
  const SPACES: set<CodeUnit> := {
    9, 10, 11, 12, 13, 32, 160, 5760, 8192, 8193, 8194, 8195, 8196, 8197, 8198, 8199, 8200, 8201, 8202,
    8232, 8233, 8239, 8287, 12288, 65279
  }

  lemma SpacesAre(u: CodeUnit)
    ensures IsSpace(u) <==> u in SPACES
  {
  }

  function TrimStart(t: Text): Text {
    if t != [] && IsSpace(t[0]) then TrimStart(t[1..]) else t
  }

  function TrimEnd(t: Text): Text {
    if t != [] && IsSpace(t[|t| - 1]) then TrimEnd(t[..|t| - 1]) else t
  }

  /** `String.prototype.trim`. */
  function Trim(t: Text): Text {
    TrimEnd(TrimStart(t))
  }

  /** What rounds to this or more in magnitude is an infinity: 2^1024. */
  predicate IsFinite(x: real) {
    Abs(x) < Pow2(1024)
  }

  /** What `Number(text)` gives: None is NaN or an infinity, which no caller tells apart.
      Empty text is zero; other text is read exactly and rounded to a double. */
  function ToNumber(t: Text): Option<real> {
    var trimmed := Trim(t);
    if trimmed == [] then Some(0.0)
    else
      var value := NumericValue(trimmed);
      if value.Some? && IsFinite(Round(value.value)) then Some(Round(value.value)) else None
  }

  /** Up to 2^53 nothing overflows. */
  lemma SmallIsFinite(x: real)
    requires Abs(x) <= TWO_53
    ensures IsFinite(Round(x))
  {
    hide Round, Pow2;
    Pow2Monotone(54, 1024);
    Pow2Plus53(0);
    Pow2Plus53(-53);
    Pow2Step(53);
    PowZero();
    if x > 0.0 {
      ErrorBelow(x, 54);
    } else if x < 0.0 {
      ErrorBelow(-x, 54);
    }
    RoundSymmetric(x);
  }

  lemma PowZero()
    ensures Pow2(0) == 1.0
  {
  }

  lemma RoundSymmetric(x: real)
    ensures x < 0.0 ==> Round(x) == -Round(-x)
    ensures Round(0.0) == 0.0
  {
  }

  /** Text without a space at either end is already trimmed. */
  lemma TrimPlain(t: Text)
    requires t != [] ==> !IsSpace(t[0]) && !IsSpace(t[|t| - 1])
    ensures Trim(t) == t
  {
  }

  lemma {:induction false} NoExponent(t: Text)
    requires forall u | u in t :: !IsExponentMark(u)
    ensures ExponentAt(t) == |t| && t[..|t|] == t
  {
    if t != [] {
      assert t[0] in t && forall u | u in t[1..] :: u in t;
      NoExponent(t[1..]);
    }
  }

  /** Digits and dots between two digits are read as decimal, without an exponent. */
  lemma PlainDecimal(t: Text)
    requires t != [] && IsDigit(t[0]) && IsDigit(t[|t| - 1]) && forall u | u in t :: IsDigit(u) || u == DOT
    ensures Trim(t) == t && NumericValue(t) == MantissaValue(t)
    ensures Trim([MINUS] + t) == [MINUS] + t
    ensures MantissaValue(t).Some? ==> NumericValue([MINUS] + t) == Some(-MantissaValue(t).value)
  {
    hide MantissaValue;
    NoExponent(t);
    assert |t| >= 2 ==> t[1] in t;
    TrimPlain(t);
    TrimPlain([MINUS] + t);
    assert ([MINUS] + t)[1..] == t;
  }

  lemma DigitsMantissa(n: nat)
    ensures MantissaValue(Digits(n)) == Some(n as real)
  {
    DigitsInvert(n);
    NoDot(Digits(n));
    assert Digits(n) + [] == Digits(n);
  }

  /** Printed digits read back as the number. */
  lemma DigitsRead(n: nat)
    ensures NumericValue(Digits(n)) == Some(n as real)
    ensures Trim(Digits(n)) == Digits(n)
  {
    hide MantissaValue, NumericValue, Trim;
    var t := Digits(n);
    assert t[0] in t && t[|t| - 1] in t;
    DigitsMantissa(n);
    PlainDecimal(t);
  }

  /** Integers below 2^53 survive being printed and read. */
  lemma IntegerReads(n: nat)
    requires n as real < TWO_53
    ensures ToNumber(Digits(n)) == Some(n as real)
  {
    hide Round, Digits, NumericValue, IsFinite;
    DigitsRead(n);
    IntegerIsExact(n);
    SmallIsFinite(n as real);
  }

  lemma {:induction false} NoDot(t: Text)
    requires AllDigits(t)
    ensures DotAt(t) == |t| && t[..|t|] == t
  {
    if t != [] {
      assert t[0] in t && forall u | u in t[1..] :: u in t;
      NoDot(t[1..]);
    }
  }

  /** Digits, a dot, digits. */
  lemma {:induction false} DotSplits(whole: Text, fraction: Text)
    requires AllDigits(whole)
    ensures DotAt(whole + [DOT] + fraction) == |whole|
    ensures (whole + [DOT] + fraction)[..|whole|] == whole
    ensures (whole + [DOT] + fraction)[|whole| + 1..] == fraction
  {
    if whole != [] {
      assert whole[0] in whole && forall u | u in whole[1..] :: u in whole;
      DotSplits(whole[1..], fraction);
      assert (whole + [DOT] + fraction)[1..] == whole[1..] + [DOT] + fraction;
    }
  }
}
