/** Dollars-and-cents form fields over integer minor units. Every step that the
    program takes in floating point is taken here in rounded reals. */
module Money {
  import opened Wrappers
  import opened Texts
  import opened Binary64
  import opened Decimals
  import opened NumberText

  /** `minorUnits / 100`. */
  function Dollars(minorUnits: int): real {
    Round(minorUnits as real / 100.0)
  }

  /** `Math.round`: the nearest integer, the larger of two. */
  function MathRound(y: real): int {
    (y + 0.5).Floor
  }

  /** `Math.round(dollars * 100)`. */
  function MinorUnits(dollars: real): int {
    MathRound(Round(dollars * 100.0))
  }

  function TwoDigits(n: nat): Text
    requires n < 100
  {
    [Unit('0') + n / 10, Unit('0') + n % 10]
  }

  /** Hundredths, printed as units, a dot and two digits. */
  function PrintHundredths(n: nat): Text {
    Digits(n / 100) + [DOT] + TwoDigits(n % 100)
  }

  /** `x.toFixed(2)`: the integer nearest to 100 x, the larger of two, in hundredths. */
  function ToFixed2(x: real): Text {
    if x < 0.0 then [MINUS] + PrintHundredths(MathRound(-x * 100.0))
    else PrintHundredths(MathRound(x * 100.0))
  }

  /** What `DollarField` shows. */
  function Display(minorUnits: int): Text {
    if minorUnits == 0 then [] else ToFixed2(Dollars(minorUnits))
  }

  /** `MinorUnits`, or None where multiplying by 100 overflows to an infinity. */
  function FiniteMinorUnits(dollars: real): Option<int> {
    if IsFinite(Round(dollars * 100.0)) then Some(MinorUnits(dollars)) else None
  }

  /** What `DollarField` reports for edited text; None is an infinity. */
  function OnChange(text: Text): Option<int> {
    var dollars := ToNumber(text);
    if dollars.Some? then FiniteMinorUnits(dollars.value) else Some(0)
  }

  /** The least amount a field does not give back: 35184372088832.02 dollars. */
  const LEAST_LOST := 3518437208883202

  /** 100 * 2^45: below it amounts in dollars are multiples of 1/256 or finer. */
  const EXACT_ZONE := 3518437208883200

  /** 2^52: from here on products in cents are whole. */
  const WHOLE_CENTS := 4503599627370496

  /** 100 * 2^46: from here on amounts in dollars are multiples of 1/64 or coarser. */
  const COARSE_ZONE := 7036874417766400

  /** 2^53: from here on not every amount is a double. */
  const SAFE_END := 9007199254740992

  // ---------------------------------------------------------------- rounding twice

  lemma Powers()
    ensures Pow2(-9) == 1.0 / 512.0 && Pow2(-2) == 0.25 && Pow2(-1) == 0.5 && Pow2(-7) == 1.0 / 128.0
    ensures Pow2(45) == 35184372088832.0 && Pow2(46) == 70368744177664.0
    ensures Pow2(51) == 2251799813685248.0 && Pow2(52) == 4503599627370496.0
    ensures Pow2(47) == 140737488355328.0 && Pow2(53) == TWO_53
    ensures Pow2(-6) == 1.0 / 64.0 && Pow2(0) == 1.0
  {
    Pow2Step(-1);
    Pow2Step(-2);
    Pow2Step(-3);
    Pow2Step(-4);
    Pow2Step(-5);
    Pow2Step(-6);
    Pow2Step(-7);
    Pow2Step(-8);
    Pow2Step(-9);
    Pow2Plus53(-8);
    Pow2Step(45);
    Pow2Step(46);
    Pow2Plus53(-2);
    Pow2Step(51);
    Pow2Step(52);
  }

  /** Dividing cents by 100 lands within a fifth of a cent, and never on zero. */
  lemma DollarsNear(c: nat)
    requires 0 < c < EXACT_ZONE
    ensures Abs(100.0 * Dollars(c) - c as real) <= 100.0 / 512.0
    ensures Dollars(c) > 0.0
  {
    Powers();
    var v := c as real / 100.0;
    assert 0.0 < v < Pow2(45);
    ErrorBelow(v, 45);
  }

  /** Multiplying back and rounding recovers the cents. */
  lemma CentsSurvive(c: nat)
    requires 0 < c < EXACT_ZONE
    ensures MinorUnits(Dollars(c)) == c
  {
    Powers();
    DollarsNear(c);
    var y := Dollars(c) * 100.0;
    assert 0.0 < y < Pow2(52);
    ErrorBelow(y, 52);
    NearRounds(Round(y), c);
  }

  /** Between two powers of two doubles are the multiples of one spacing. */
  lemma RoundInBinade(x: real, e: int, perUnit: real)
    requires Pow2(e) <= x < Pow2(e + 1) && e >= MIN_EXPONENT && perUnit > 0.0 && Pow2(e - 52) == 1.0 / perUnit
    ensures Round(x) == NearestEven(x * perUnit) as real / perUnit
  {
    hide Round, Quantum, QuantumExponent, Exponent, Pow2, NearestEven;
    ExponentUnique(x, e);
    QuantumIs(x);
    RoundPositive(x);
    Reciprocal(x, perUnit);
    Reciprocal(NearestEven(x * perUnit) as real, perUnit);
  }

  lemma Reciprocal(x: real, p: real)
    requires p > 0.0
    ensures 1.0 / p > 0.0 && Over(x, 1.0 / p) == x * p && Times(x, 1.0 / p) == x / p
  {
    assert x * p * (1.0 / p) == x;
  }

  /** The residue modulo 25 that is nearest to zero. */
  function Drift(r: int): (k: int)
    ensures -12 <= k <= 12
  {
    if r % 25 <= 12 then r % 25 else r % 25 - 25
  }

  lemma DriftCongruent(r: int) returns (q: int)
    ensures r == 25 * q + Drift(r)
  {
    q := (r - Drift(r)) / 25;
  }

  lemma DriftUnique(r: int, q: int, k: int)
    requires -12 <= k <= 12 && r == 25 * q + k
    ensures Drift(r) == k
  {
    assert r % 25 == if k >= 0 then k else k + 25;
  }

  lemma NearestTo(y: real, n: int)
    requires Abs(y - n as real) < 0.5 || (Abs(y - n as real) == 0.5 && n % 2 == 0)
    ensures NearestEven(y) == n
  {
  }

  /** The nearest fraction to hundredths is off by so many parts of a cent, as four
      of its unit are `perCent` parts of a hundredth of a dollar to 25. */
  lemma OffBy(c: int, n: int, p: int)
    requires p == 32 || p == 16
    requires -0.5 <= n as real - c as real / 100.0 * (4 * p) as real <= 0.5
    ensures -12 <= 25 * n - p * c <= 12
    ensures n as real / (4 * p) as real * 100.0 == c as real + (25 * n - p * c) as real / p as real
  {
    var k := 25 * n - p * c;
    if p == 32 {
      assert 25.0 * (n as real - c as real / 100.0 * 128.0) == k as real;
    } else {
      assert 25.0 * (n as real - c as real / 100.0 * 64.0) == k as real;
    }
  }

  /** Hundredths rounded to 128ths are off by so many 32nds of a cent. */
  lemma Drift128ths(c: int)
    requires EXACT_ZONE <= c < COARSE_ZONE
    ensures Dollars(c) > 0.0 && Dollars(c) * 100.0 == c as real + Drift(18 * c) as real / 32.0
  {
    hide Round, NearestEven, Pow2, Drift;
    Powers();
    var x := c as real / 100.0;
    RoundInBinade(x, 45, 128.0);
    var n := NearestEven(x * 128.0);
    OffBy(c, n, 32);
    DriftUnique(18 * c, 2 * c - n, 25 * n - 32 * c);
  }

  /** Hundredths rounded to 64ths are off by so many 16ths of a cent. */
  lemma Drift64ths(c: int)
    requires COARSE_ZONE <= c < SAFE_END
    ensures Dollars(c) > 0.0 && Dollars(c) * 100.0 == c as real + Drift(9 * c) as real / 16.0
  {
    hide Round, NearestEven, Pow2, Drift;
    Powers();
    var x := c as real / 100.0;
    RoundInBinade(x, 46, 64.0);
    var n := NearestEven(x * 64.0);
    OffBy(c, n, 16);
    DriftUnique(9 * c, c - n, 25 * n - 16 * c);
  }

  /** The cents that multiplying back gives. */
  function Regained(c: int): int {
    if c < EXACT_ZONE then c
    else if c < WHOLE_CENTS then if Drift(18 * c) > 8 then c + 1 else c
    else if c < COARSE_ZONE then c
    else
      var k := Drift(9 * c);
      if -8 < k < 8 || ((k == 8 || k == -8) && c % 2 == 0) then c
      else if k > 0 then c + 1
      else c - 1
  }

  /** The cents that two decimals show. */
  function Shown(c: int): int {
    if c < COARSE_ZONE then c
    else
      var k := Drift(9 * c);
      if k >= 8 then c + 1 else if k < -8 then c - 1 else c
  }

  lemma RegainsHalves(c: int)
    requires EXACT_ZONE <= c < WHOLE_CENTS
    ensures MinorUnits(Dollars(c)) == Regained(c)
  {
    Powers();
    hide Round, NearestEven, Pow2, Dollars, Drift;
    Drift128ths(c);
    var k := Drift(18 * c);
    var h := if k > 8 then 2 * c + 1 else if k < -8 then 2 * c - 1 else 2 * c;
    var y := c as real + k as real / 32.0;
    RoundInBinade(y, 51, 2.0);
    NearestTo(y * 2.0, h);
  }

  lemma DriftAtWholeCents()
    ensures Drift(18 * WHOLE_CENTS) == 3
  {
  }

  lemma RegainsBetween(c: int)
    requires WHOLE_CENTS <= c < COARSE_ZONE
    ensures MinorUnits(Dollars(c)) == Regained(c)
  {
    Powers();
    hide Round, NearestEven, Pow2, Dollars, Drift;
    DriftAtWholeCents();
    Drift128ths(c);
    var y := c as real + Drift(18 * c) as real / 32.0;
    assert y >= WHOLE_CENTS as real;
    RoundInBinade(y, 52, 1.0);
    NearestTo(y, c);
  }

  lemma RegainsCoarse(c: int)
    requires COARSE_ZONE <= c < SAFE_END
    ensures MinorUnits(Dollars(c)) == Regained(c)
  {
    Powers();
    hide Round, NearestEven, Pow2, Dollars, Drift;
    Drift64ths(c);
    var y := c as real + Drift(9 * c) as real / 16.0;
    RoundInBinade(y, 52, 1.0);
    NearestTo(y, Regained(c));
  }

  /** What becomes of every amount that is sure to be a double. */
  lemma DollarsAndBack(c: int)
    requires 0 < c < SAFE_END
    ensures Dollars(c) > 0.0
    ensures MinorUnits(Dollars(c)) == Regained(c)
    ensures MathRound(Dollars(c) * 100.0) == Shown(c)
  {
    hide Dollars, Round, Drift, MinorUnits, Regained;
    if c < EXACT_ZONE {
      SmallRegained(c);
      CentsSurvive(c);
      DollarsNear(c);
      NearRounds(Dollars(c) * 100.0, c);
    } else if c < COARSE_ZONE {
      Drift128ths(c);
      if c < WHOLE_CENTS {
        RegainsHalves(c);
      } else {
        RegainsBetween(c);
      }
    } else {
      Drift64ths(c);
      RegainsCoarse(c);
    }
  }

  lemma SmallRegained(c: int)
    requires c < EXACT_ZONE
    ensures Regained(c) == c
  {
  }

  lemma EdgeRegained(c: int)
    requires EXACT_ZONE <= c <= LEAST_LOST
    ensures Regained(c) == (if c < LEAST_LOST then c else c + 1) && Shown(c) == c
  {
  }

  lemma Survives(c: nat)
    requires 0 < c < LEAST_LOST
    ensures MinorUnits(Dollars(c)) == c
    ensures Dollars(c) > 0.0 && MathRound(Dollars(c) * 100.0) == c
  {
    hide Dollars, MinorUnits, MathRound, Drift;
    DollarsAndBack(c);
    if c >= EXACT_ZONE {
      EdgeRegained(c);
    }
  }

  lemma NearRounds(y: real, n: int)
    requires Abs(y - n as real) < 0.5
    ensures MathRound(y) == n
  {
  }

  lemma NegativeDollars(c: int)
    requires 0 < c
    ensures Dollars(-c) == -Dollars(c)
  {
    assert (-c) as real / 100.0 == -(c as real / 100.0);
  }

  lemma NegativeSurvives(c: int)
    requires 0 < c < EXACT_ZONE
    ensures MinorUnits(Dollars(-c)) == -c
  {
    NegativeDollars(c);
    Powers();
    DollarsNear(c);
    var y := Dollars(c) * 100.0;
    assert 0.0 < y < Pow2(52);
    ErrorBelow(y, 52);
    assert Dollars(-c) * 100.0 == -y;
    assert Round(-y) == -Round(y);
    NearRounds(-Round(y), -c);
  }

  /** The arithmetic of the round trip: divide by 100, multiply by 100, round. */
  lemma CentsRoundTrip(cents: int)
    requires -EXACT_ZONE < cents < LEAST_LOST
    ensures MinorUnits(Dollars(cents)) == cents
    ensures IsFinite(Dollars(cents))
  {
    hide Round, MinorUnits, MathRound, IsFinite;
    SmallIsFinite(cents as real / 100.0);
    if cents > 0 {
      Survives(cents);
    } else if cents < 0 {
      NegativeSurvives(-cents);
    } else {
      ZeroCents();
    }
  }

  lemma ZeroCents()
    ensures MinorUnits(Dollars(0)) == 0 && OnChange([]) == Some(0)
  {
    assert Round(0.0) == 0.0;
    assert Trim([]) == [];
  }

  // ---------------------------------------------------------------- text

  lemma TwoMoreDigits(whole: Text, two: Text)
    requires AllDigits(whole) && AllDigits(two) && |two| == 2
    ensures AllDigits(whole + two)
    ensures DigitsValue(whole + two) == DigitsValue(whole) * 100 + (two[0] - Unit('0')) * 10 + (two[1] - Unit('0'))
  {
    var one := whole + [two[0]];
    assert (whole + two)[..|whole| + 1] == one && one[..|whole|] == whole;
    assert two[0] in two && two[1] in two;
  }

  lemma HundredthsMantissa(n: nat)
    ensures MantissaValue(PrintHundredths(n)) == Some(n as real / 100.0)
  {
    hide Digits, DotAt, DigitsValue, Pow10;
    var whole, fraction := Digits(n / 100), TwoDigits(n % 100);
    DotSplits(whole, fraction);
    HundredthsValue(n);
    HundredIsPower();
  }

  lemma HundredthsValue(n: nat)
    ensures AllDigits(Digits(n / 100) + TwoDigits(n % 100))
    ensures DigitsValue(Digits(n / 100) + TwoDigits(n % 100)) == n
  {
    hide Digits, DigitsValue;
    TwoMoreDigits(Digits(n / 100), TwoDigits(n % 100));
    DigitsInvert(n / 100);
  }

  lemma HundredIsPower()
    ensures Pow10(2) == 100.0
  {
    assert Pow10(1) == 10.0;
  }

  lemma HundredthsPlain(n: nat)
    ensures var t := PrintHundredths(n);
            && |t| >= 4 && IsDigit(t[0]) && IsDigit(t[|t| - 1])
            && (forall u | u in t :: IsDigit(u) || u == DOT)
  {
    var whole := Digits(n / 100);
    assert whole[0] in whole;
  }

  /** Numeric text is read to the nearest double. */
  lemma ReadsRounded(text: Text, x: real)
    requires Trim(text) != [] && NumericValue(Trim(text)) == Some(x) && IsFinite(Round(x))
    ensures ToNumber(text) == Some(Round(x))
  {
    hide Round, NumericValue, Trim, IsFinite;
  }

  /** What is printed for c cents reads back as that amount. */
  lemma PrintedReads(c: int, negative: bool)
    requires 0 <= c < SAFE_END
    ensures var t := PrintHundredths(c);
            ToNumber(if negative then [MINUS] + t else t) == Some(Dollars(if negative then -c else c))
  {
    hide MantissaValue, NumericValue, PrintHundredths, Round, IsFinite, Trim, ToNumber;
    var t := PrintHundredths(c);
    HundredthsMantissa(c);
    HundredthsPlain(c);
    PlainDecimal(t);
    if negative {
      assert -(c as real / 100.0) == (-c) as real / 100.0;
      SmallIsFinite((-c) as real / 100.0);
      ReadsRounded([MINUS] + t, (-c) as real / 100.0);
    } else {
      SmallIsFinite(c as real / 100.0);
      ReadsRounded(t, c as real / 100.0);
    }
  }

  /** Nothing overflows on the way to an amount below 2^53. */
  lemma SmallMinorUnits(dollars: real)
    requires -SAFE_END <= MinorUnits(dollars) <= SAFE_END
    ensures FiniteMinorUnits(dollars) == Some(MinorUnits(dollars))
  {
    hide Round, Pow2;
    Pow2Plus53(0);
    PowZero();
    Pow2Step(53);
    Pow2Monotone(54, 1024);
  }

  lemma OnChangeOf(text: Text, dollars: real)
    requires ToNumber(text) == Some(dollars)
    requires -SAFE_END <= MinorUnits(dollars) <= SAFE_END
    ensures OnChange(text) == Some(MinorUnits(dollars))
  {
    hide MinorUnits, ToNumber, FiniteMinorUnits;
    SmallMinorUnits(dollars);
  }

  /** What the field shows for a positive amount and for its negative. */
  lemma DisplayOf(c: int, shown: nat)
    requires c > 0 && Dollars(c) > 0.0 && MathRound(Dollars(c) * 100.0) == shown
    ensures Display(c) == PrintHundredths(shown)
    ensures Display(-c) == [MINUS] + PrintHundredths(shown)
  {
    NegativeDollars(c);
    hide Dollars, PrintHundredths;
  }

  // ---------------------------------------------------------------- main results

  /** Text for a whole number of cents, however it is written, reads back as them. */
  lemma CentsTextReads(text: Text, cents: int)
    requires -EXACT_ZONE < cents < LEAST_LOST
    requires Trim(text) != [] && NumericValue(Trim(text)) == Some(cents as real / 100.0)
    ensures OnChange(text) == Some(cents)
  {
    hide NumericValue, Round, IsFinite, Trim, ToNumber, MinorUnits;
    CentsRoundTrip(cents);
    ReadsRounded(text, cents as real / 100.0);
    OnChangeOf(text, Dollars(cents));
  }

  /** A dollar field gives back every amount it shows. */
  lemma DollarFieldRoundTrip(minorUnits: int)
    requires -EXACT_ZONE < minorUnits < LEAST_LOST
    ensures OnChange(Display(minorUnits)) == Some(minorUnits)
  {
    hide Dollars, ToNumber, OnChange, MinorUnits, MathRound, PrintHundredths, ToFixed2;
    if minorUnits == 0 {
      ZeroCents();
    } else {
      var c := if minorUnits > 0 then minorUnits else -minorUnits;
      Survives(c);
      DisplayOf(c, c);
      PrintedReads(c, minorUnits < 0);
      CentsRoundTrip(minorUnits);
      OnChangeOf(Display(minorUnits), Dollars(minorUnits));
    }
  }

  /** Shown amounts differ when the amounts do. */
  lemma DisplayInjective(m: int, n: int)
    requires -EXACT_ZONE < m < LEAST_LOST && -EXACT_ZONE < n < LEAST_LOST
    requires Display(m) == Display(n)
    ensures m == n
  {
    hide Display, OnChange;
    DollarFieldRoundTrip(m);
    DollarFieldRoundTrip(n);
  }

  /** The amounts that come back, one by one. */
  predicate GivesBack(c: nat) {
    if c < EXACT_ZONE then true
    else if c < WHOLE_CENTS then !(9 <= 18 * c % 25 <= 12)
    else if c < COARSE_ZONE then true
    else
      var r := 9 * c % 25;
      r < 8 || r > 17 || ((r == 8 || r == 17) && c % 2 == 0)
  }

  lemma DriftOf(r: int)
    ensures Drift(r) == if r % 25 <= 12 then r % 25 else r % 25 - 25
  {
  }

  lemma RegainedIff(c: nat)
    ensures Regained(c) == c <==> GivesBack(c)
    ensures c - 1 <= Regained(c) <= c + 1
  {
    hide Drift;
    DriftOf(18 * c);
    DriftOf(9 * c);
  }

  /** Amounts shown a cent off come back by the same rule as the others. */
  lemma ReshownIff(c: nat)
    requires 0 < c < SAFE_END
    ensures 0 < Shown(c) < SAFE_END
    ensures Regained(Shown(c)) == c <==> GivesBack(c)
    ensures c - 1 <= Regained(Shown(c)) <= c + 1
  {
    hide Drift, GivesBack, Regained;
    RegainedIff(c);
    if c >= COARSE_ZONE {
      var k := Drift(9 * c);
      CoarseRegained(c, k);
      if k >= 8 {
        ShownAbove(c, k);
      } else if k < -8 {
        ShownBelow(c, k);
      }
    }
  }

  lemma ShownAbove(c: int, k: int)
    requires COARSE_ZONE <= c < SAFE_END && k == Drift(9 * c) && k >= 8
    ensures Shown(c) == c + 1 && c + 1 < SAFE_END
    ensures Regained(c + 1) == if k == 8 && c % 2 == 0 then c else c + 1
  {
    hide Drift, Regained;
    DriftAtEnds();
    DriftBeside(c);
    CoarseRegained(c + 1, k - 16);
  }

  lemma ShownBelow(c: int, k: int)
    requires COARSE_ZONE <= c < SAFE_END && k == Drift(9 * c) && k < -8
    ensures Shown(c) == c - 1
    ensures Regained(c - 1) == c - 1
  {
    hide Drift, Regained;
    DriftAtEnds();
    DriftBeside(c);
    CoarseRegained(c - 1, k + 16);
  }

  lemma CoarseRegained(c: int, k: int)
    requires COARSE_ZONE <= c && k == Drift(9 * c)
    ensures -8 < k < 8 ==> Regained(c) == c
    ensures k == 8 ==> Regained(c) == (if c % 2 == 0 then c else c + 1)
    ensures k == -8 ==> Regained(c) == (if c % 2 == 0 then c else c - 1)
    ensures k > 8 ==> Regained(c) == c + 1
    ensures k < -8 ==> Regained(c) == c - 1
  {
    hide Drift;
  }

  /** How far off the neighbours of an amount are that is shown as one of them. */
  lemma DriftBeside(c: int)
    ensures Drift(9 * c) >= 8 ==> Drift(9 * (c + 1)) == Drift(9 * c) - 16
    ensures Drift(9 * c) < -8 ==> Drift(9 * (c - 1)) == Drift(9 * c) + 16
  {
    hide Drift;
    var k := Drift(9 * c);
    var q := DriftCongruent(9 * c);
    if k >= 8 {
      DriftUnique(9 * (c + 1), q + 1, k - 16);
    }
    if k < -8 {
      DriftUnique(9 * (c - 1), q - 1, k + 16);
    }
  }

  lemma DriftAtEnds()
    ensures Drift(9 * COARSE_ZONE) == 0 && Drift(9 * (SAFE_END - 1)) == -6
  {
  }

  /** What a field reports for the amount it shows. */
  lemma FieldReturns(c: nat)
    requires 0 < c < SAFE_END
    ensures OnChange(Display(c)) == Some(Regained(Shown(c)))
  {
    hide Dollars, ToNumber, PrintHundredths, OnChange, MinorUnits, MathRound, Display, Shown, Regained, GivesBack;
    ReshownIff(c);
    DollarsAndBack(c);
    DisplayOf(c, Shown(c));
    PrintedReads(Shown(c), false);
    DollarsAndBack(Shown(c));
    OnChangeOf(PrintHundredths(Shown(c)), Dollars(Shown(c)));
  }

  /** Of all amounts below 2^53 a field gives back exactly these, and the others one cent
      off. */
  lemma FieldGivesBackIff(c: nat)
    requires c < 9007199254740992
    ensures OnChange(Display(c)) == Some(c) <==> GivesBack(c)
    ensures exists r :: OnChange(Display(c)) == Some(r) && c - 1 <= r <= c + 1
  {
    hide OnChange, Display, Regained, Shown, Dollars, MinorUnits;
    if c == 0 {
      ZeroShown();
    } else {
      FieldReturns(c);
      ReshownIff(c);
    }
  }

  lemma ZeroShown()
    ensures OnChange(Display(0)) == Some(0)
  {
    ZeroCents();
  }

  /** The bound is exact: a field gives back all amounts below n precisely when n does
      not pass LEAST_LOST, which itself comes back one cent larger. */
  lemma RoundTripLimit(n: nat)
    ensures OnChange(Display(LEAST_LOST)) == Some(LEAST_LOST + 1)
    ensures (forall m: nat | m < n :: OnChange(Display(m)) == Some(m)) <==> n <= LEAST_LOST
  {
    hide OnChange, Display;
    FieldReturns(LEAST_LOST);
    EdgeRegained(LEAST_LOST);
    forall m: nat | m < n && n <= LEAST_LOST ensures OnChange(Display(m)) == Some(m) {
      DollarFieldRoundTrip(m);
    }
  }

  // ---------------------------------------------------------------- the text shown

  /** `Math.round`: the whole number that y is nearest to, the larger of two. */
  lemma MathRoundIs(y: real, n: int)
    ensures MathRound(y) == n <==> n as real - 0.5 <= y < n as real + 0.5
  {
  }

  /** What stands in the field, unit by unit: nothing exactly for zero; otherwise a dot two
      places before the end and digits elsewhere, with no zero in front of another digit,
      and read as one number those digits are the cents. */
  lemma DisplayText(c: int)
    ensures Display(c) == [] <==> c == 0
    ensures 0 < c < 3518437208883202 ==>
      var t := Display(c);
      && |t| >= 4 && t[|t| - 3] == 46
      && (forall i | 0 <= i < |t| && i != |t| - 3 :: 48 <= t[i] <= 57)
      && (|t| > 4 ==> t[0] != 48)
      && DigitsValue(t[..|t| - 3] + t[|t| - 2..]) == c
      && NumericValue(t) == Some(c as real / 100.0)
    ensures 0 < c < 3518437208883200 ==> Display(-c) == [45] + Display(c)
  {
    hide Dollars, PrintHundredths, DigitsValue, NumericValue, MathRound, Digits;
    if 0 < c < LEAST_LOST {
      Survives(c);
      DisplayOf(c, c);
      HundredthsText(c);
    }
    if c != 0 {
      SomethingPrinted(Dollars(c));
    }
  }

  lemma SomethingPrinted(x: real)
    ensures ToFixed2(x) != []
  {
  }

  lemma HundredthsText(c: nat)
    ensures var t := PrintHundredths(c);
            && |t| >= 4 && t[|t| - 3] == 46
            && (forall i | 0 <= i < |t| && i != |t| - 3 :: 48 <= t[i] <= 57)
            && (|t| > 4 ==> t[0] != 48)
            && AllDigits(t[..|t| - 3] + t[|t| - 2..]) && DigitsValue(t[..|t| - 3] + t[|t| - 2..]) == c
            && NumericValue(t) == Some(c as real / 100.0)
  {
    hide Digits, DigitsValue, NumericValue, MantissaValue;
    var whole, two := Digits(c / 100), TwoDigits(c % 100);
    var t := PrintHundredths(c);
    assert t[..|t| - 3] == whole && t[|t| - 2..] == two;
    DigitsForm(c / 100);
    HundredthsValue(c);
    forall i | 0 <= i < |whole| ensures 48 <= t[i] <= 57 {
      assert whole[i] in whole;
    }
    HundredthsMantissa(c);
    HundredthsPlain(c);
    PlainDecimal(t);
  }

  /** Edited text is taken as a number of dollars, and reported as the nearest cents of a
      hundred times that, or as an infinity where that overflows; what is no number counts
      as nothing. */
  lemma OnChangeIs(text: Text)
    ensures ToNumber(text).None? ==> OnChange(text) == Some(0)
    ensures ToNumber(text).Some? ==>
      var product := Round(ToNumber(text).value * 100.0);
      && (OnChange(text).Some? <==> -Pow2(1024) < product < Pow2(1024))
      && (OnChange(text).Some? ==>
            OnChange(text).value as real - 0.5 <= product < OnChange(text).value as real + 0.5)
  {
    hide ToNumber, Round, Pow2;
  }

  // ---------------------------------------------------------------- the other form

  /** `text` is a possible `String(x)`: numeric text that reads back as x. (The standard
      picks the shortest such text; nothing here depends on which.) */
  ghost predicate IsToString(x: real, text: Text) {
    text != [] && Trim(text) == text && NumericValue(text).Some? && Round(NumericValue(text).value) == x
  }

  /** The terms `RequestChangesForm` submits; None is what JSON prints as null. */
  datatype ProposedTerms = ProposedTerms(originalAmountMinorUnits: Option<int>,
                                         firstPaymentMinorUnits: Option<int>,
                                         installmentAmountMinorUnits: Option<int>)

  function Submitted(amount: Text): Option<int> {
    var value := ToNumber(amount);
    if value.Some? then FiniteMinorUnits(value.value) else None
  }

  /** The form's two amount fields, and what submitting them sends. */
  class RequestChangesForm {
    var amount: Text
    var installment: Text

    constructor (initialAmount: Text)
      ensures amount == initialAmount && installment == initialAmount
    {
      amount, installment := initialAmount, initialAmount;
    }

    /** The first field gives the original amount, the second the first payment and the
        installment; a field that holds an amount's text gives that amount. */
    method HandleSubmit() returns (terms: ProposedTerms)
      ensures terms == ProposedTerms(Submitted(amount), Submitted(installment), Submitted(installment))
      ensures forall c: nat | c < SAFE_END && IsToString(Dollars(c), amount) ::
        terms.originalAmountMinorUnits == Some(c) <==> GivesBack(c)
      ensures forall c: nat | c < SAFE_END && IsToString(Dollars(c), installment) ::
        && (terms.firstPaymentMinorUnits == Some(c) <==> GivesBack(c))
        && (terms.installmentAmountMinorUnits == Some(c) <==> GivesBack(c))
    {
      hide IsToString, GivesBack, Submitted, Dollars;
      forall c: nat, text | c < SAFE_END && IsToString(Dollars(c), text)
        ensures Submitted(text) == Some(c) <==> GivesBack(c)
      {
        FormGivesBackIff(c, text);
      }
      var amountMinorUnits := Submitted(amount);
      var installmentAmountMinorUnits := Submitted(installment);
      return ProposedTerms(amountMinorUnits, installmentAmountMinorUnits, installmentAmountMinorUnits);
    }
  }

  /** A form opened with an amount and submitted as it is proposes that whole amount as
      the sum, as the first payment and as each installment. */
  method SubmitUnedited(minorUnits: int, text: Text) returns (terms: ProposedTerms)
    requires -EXACT_ZONE < minorUnits < LEAST_LOST && IsToString(Dollars(minorUnits), text)
    ensures terms == ProposedTerms(Some(minorUnits), Some(minorUnits), Some(minorUnits))
  {
    hide *;
    var form := new RequestChangesForm(text);
    UneditedFormSubmitsAmount(minorUnits, text);
    terms := form.HandleSubmit();
  }

  lemma ReadsBack(minorUnits: int, text: Text)
    requires -SAFE_END < minorUnits < SAFE_END && IsToString(Dollars(minorUnits), text)
    requires -SAFE_END <= MinorUnits(Dollars(minorUnits)) <= SAFE_END
    ensures Submitted(text) == Some(MinorUnits(Dollars(minorUnits)))
  {
    hide NumericValue, Round, IsFinite, Trim, ToNumber, MinorUnits, FiniteMinorUnits;
    SmallIsFinite(minorUnits as real / 100.0);
    SmallMinorUnits(Dollars(minorUnits));
    ReadsRounded(text, NumericValue(text).value);
  }

  /** The other form sends the same, but null for what is no number. */
  lemma SubmittedIs(text: Text)
    ensures Submitted(text) == if ToNumber(text).Some? then OnChange(text) else None
  {
    hide ToNumber, FiniteMinorUnits;
  }

  /** Submitted unedited, a field sends exactly the amount the form was opened with. */
  lemma UneditedFormSubmitsAmount(minorUnits: int, text: Text)
    requires -EXACT_ZONE < minorUnits < LEAST_LOST
    requires IsToString(Dollars(minorUnits), text)
    ensures Submitted(text) == Some(minorUnits)
  {
    hide IsToString, Submitted, MinorUnits, Dollars;
    CentsRoundTrip(minorUnits);
    ReadsBack(minorUnits, text);
  }

  /** Of all amounts below 2^53 this form, too, gives back exactly the same. */
  lemma FormGivesBackIff(c: nat, text: Text)
    requires c < 9007199254740992 && IsToString(Dollars(c), text)
    ensures Submitted(text) == Some(c) <==> GivesBack(c)
    ensures exists r :: Submitted(text) == Some(r) && c - 1 <= r <= c + 1
  {
    hide IsToString, Submitted, MinorUnits, Dollars, Regained;
    if c == 0 {
      UneditedFormSubmitsAmount(0, text);
    } else {
      DollarsAndBack(c);
      RegainedIff(c);
      ReadsBack(c, text);
    }
  }

  /** Opened with the least lost amount the form submits one cent more. */
  lemma UneditedFormGainsCent(text: Text)
    requires IsToString(Dollars(LEAST_LOST), text)
    ensures Submitted(text) == Some(LEAST_LOST + 1)
  {
    hide IsToString, Submitted, MinorUnits, Dollars;
    DollarsAndBack(LEAST_LOST);
    EdgeRegained(LEAST_LOST);
    ReadsBack(LEAST_LOST, text);
  }
}
