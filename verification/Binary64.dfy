/** IEEE 754 double precision, as far as amounts of money need it: the rounding of a
    real to the nearest double, ties to even (section 4.3.1 of IEEE 754-2019). */
module Binary64 {
  function Abs(x: real): real { if x < 0.0 then -x else x }

  /** Two to any integer power. */
  function Pow2(e: int): (r: real)
    ensures r > 0.0
    decreases if e < 0 then -e else e
  {
    if e == 0 then 1.0 else if e > 0 then 2.0 * Pow2(e - 1) else Pow2(e + 1) / 2.0
  }

  function ExponentUp(x: real): (e: nat)
    requires x >= 1.0
    ensures Pow2(e) <= x < Pow2(e + 1)
    decreases x.Floor
  {
    if x < 2.0 then 0 else 1 + ExponentUp(x / 2.0)
  }

  function ExponentDown(x: real): (e: int)
    requires 0.0 < x < 1.0
    ensures e < 0 && Pow2(e) <= x < Pow2(e + 1)
    decreases (1.0 / x).Floor
  {
    if x >= 0.5 then -1
    else
      assert 1.0 / x == 2.0 * (1.0 / (2.0 * x));
      assert 2.0 * x * (1.0 / (2.0 * x)) == 1.0;
      ExponentDown(2.0 * x) - 1
  }

  /** The binade of a positive real: Pow2(e) <= x < Pow2(e + 1). */
  function Exponent(x: real): (e: int)
    requires x > 0.0
    ensures Pow2(e) <= x < Pow2(e + 1)
  {
    if x >= 1.0 then ExponentUp(x) else ExponentDown(x)
  }

  /** The least exponent of a normal double. */
  const MIN_EXPONENT := -1022

  /** The exponent of the spacing of doubles around x; subnormals share one spacing. */
  function QuantumExponent(x: real): int
    requires x > 0.0
  {
    var e := Exponent(x);
    (if e < MIN_EXPONENT then MIN_EXPONENT else e) - 52
  }

  /** The spacing of doubles around a positive real. */
  function Quantum(x: real): (q: real)
    requires x > 0.0
    ensures q > 0.0
  {
    Pow2(QuantumExponent(x))
  }

  /** The nearest integer, the even one of two. */
  function NearestEven(y: real): (n: int)
    ensures -0.5 <= n as real - y <= 0.5
  {
    var f := y.Floor;
    var d := y - f as real;
    if d < 0.5 then f else if d > 0.5 then f + 1 else if f % 2 == 0 then f else f + 1
  }

  /** Products and quotients of unknowns, named so that proofs can treat them as wholes. */
  function Times(a: real, b: real): real { a * b }
  function Over(a: real, b: real): real requires b != 0.0 { a / b }

  /** The multiple of q nearest to x, the even one of two. */
  function NearestMultiple(x: real, q: real): real
    requires q > 0.0
  {
    Times(NearestEven(Over(x, q)) as real, q)
  }

  /** The double nearest to a real. Overflow to infinity is not modelled. */
  function Round(x: real): real
    decreases x < 0.0
  {
    if x == 0.0 then 0.0
    else if x < 0.0 then -Round(-x)
    else NearestMultiple(x, Quantum(x))
  }

  // ---------------------------------------------------------------- plain arithmetic

  lemma TimesOrdered(a: real, b: real, q: real)
    requires a <= b && q > 0.0
    ensures Times(a, q) <= Times(b, q)
    ensures a < b ==> Times(a, q) < Times(b, q)
  {
  }

  lemma TimesMinus(a: real, b: real, q: real)
    ensures Times(a, q) - Times(b, q) == Times(a - b, q)
  {
  }

  lemma TimesOver(x: real, q: real)
    requires q > 0.0
    ensures Times(Over(x, q), q) == x
  {
  }

  lemma TimesConstants(q: real)
    ensures Times(0.0, q) == 0.0 && Times(0.5, q) == q / 2.0 && Times(1.0, q) == q && Times(TWO_53, q) == TWO_53 * q
  {
  }

  lemma TimesIntegers(n: int, m: int, q: real)
    ensures Times(n as real, Times(m as real, q)) == Times((n * m) as real, q)
  {
    assert (n * m) as real == n as real * m as real;
  }

  lemma TimesTwice(h: int, q: real)
    ensures Times((2 * h) as real, q) == 2.0 * Times(h as real, q)
  {
    assert (2 * h) as real == 2.0 * h as real;
  }

  lemma AbsTimes(a: real, q: real)
    requires q > 0.0
    ensures Abs(Times(a, q)) == Times(Abs(a), q)
  {
    TimesConstants(q);
    if a < 0.0 {
      TimesOrdered(a, 0.0, q);
      TimesMinus(0.0, a, q);
    } else {
      TimesOrdered(0.0, a, q);
    }
  }

  /** Distances to x, measured in spacings. */
  lemma SpacingsAway(x: real, q: real, k: real)
    requires q > 0.0
    ensures Abs(Times(k, q) - x) == Times(Abs(k - Over(x, q)), q)
  {
    hide Times, Over;
    TimesOver(x, q);
    TimesMinus(k, Over(x, q), q);
    AbsTimes(k - Over(x, q), q);
  }

  lemma NearestInteger(n: int)
    ensures NearestEven(n as real) == n
  {
  }

  lemma NoNearerInteger(y: real, n: int, k: int)
    requires -0.5 <= n as real - y <= 0.5
    ensures Abs(n as real - y) <= Abs(k as real - y)
  {
    if k < n {
      assert k as real <= n as real - 1.0;
    } else if k > n {
      assert k as real >= n as real + 1.0;
    }
  }

  /** No multiple of q is nearer to x. */
  lemma NoNearerMultiple(x: real, q: real, k: int)
    requires q > 0.0
    ensures Abs(NearestMultiple(x, q) - x) <= Abs(Times(k as real, q) - x)
  {
    hide Times, Over, NearestEven;
    var y := Over(x, q);
    var n := NearestEven(y);
    NoNearerInteger(y, n, k);
    SpacingsAway(x, q, n as real);
    SpacingsAway(x, q, k as real);
    TimesOrdered(Abs(n as real - y), Abs(k as real - y), q);
  }

  /** The nearest multiple is at most half a spacing away. */
  lemma HalfSpacing(x: real, q: real)
    requires q > 0.0
    ensures Abs(NearestMultiple(x, q) - x) <= q / 2.0
  {
    hide Times, Over, NearestEven;
    var y := Over(x, q);
    var n := NearestEven(y);
    SpacingsAway(x, q, n as real);
    TimesOrdered(Abs(n as real - y), 0.5, q);
    TimesConstants(q);
  }

  lemma OverMultiple(x: real, q: real, n: real)
    requires q > 0.0 && x == Times(n, q)
    ensures Over(x, q) == n
  {
    hide Times, Over;
    var y := Over(x, q);
    TimesOver(x, q);
    if y < n {
      TimesOrdered(y, n, q);
    } else if n < y {
      TimesOrdered(n, y, q);
    }
  }

  lemma ExactMultiple(x: real, q: real, n: int)
    requires q > 0.0 && x == Times(n as real, q)
    ensures NearestMultiple(x, q) == x
  {
    hide Times, Over, NearestEven;
    NearestInteger(n);
    OverMultiple(x, q, n as real);
  }

  // ---------------------------------------------------------------- powers of two

  lemma {:induction false} Pow2Step(e: int)
    ensures Pow2(e + 1) == 2.0 * Pow2(e)
  {
  }

  lemma {:induction false} Pow2Monotone(d: int, e: int)
    requires d <= e
    ensures Pow2(d) <= Pow2(e)
    decreases e - d
  {
    if d < e {
      Pow2Monotone(d, e - 1);
      Pow2Step(e - 1);
    }
  }

  lemma Pow2Plus8(e: int)
    ensures Pow2(e + 8) == 256.0 * Pow2(e)
  {
    hide Pow2;
    Pow2Step(e);
    Pow2Step(e + 1);
    Pow2Step(e + 2);
    Pow2Step(e + 3);
    Pow2Step(e + 4);
    Pow2Step(e + 5);
    Pow2Step(e + 6);
    Pow2Step(e + 7);
  }

  /** The reciprocal of the unit roundoff: 2^53. */
  const TWO_53 := 9007199254740992.0

  lemma Pow2Plus53(e: int)
    ensures Pow2(e + 53) == TWO_53 * Pow2(e)
  {
    hide Pow2;
    Pow2Plus8(e);
    Pow2Plus8(e + 8);
    Pow2Plus8(e + 16);
    Pow2Plus8(e + 24);
    Pow2Plus8(e + 32);
    Pow2Plus8(e + 40);
    Pow2Step(e + 48);
    Pow2Step(e + 49);
    Pow2Step(e + 50);
    Pow2Step(e + 51);
    Pow2Step(e + 52);
  }

  lemma ExponentUnique(x: real, e: int)
    requires x > 0.0 && Pow2(e) <= x < Pow2(e + 1)
    ensures Exponent(x) == e
  {
    hide Pow2, Exponent;
    var f := Exponent(x);
    if f < e {
      Pow2Monotone(f + 1, e);
    } else if e < f {
      Pow2Monotone(e + 1, f);
    }
  }

  /** A larger power of two is a whole multiple of a smaller one. */
  lemma {:induction false} PowerMultiple(e: int, d: int) returns (m: nat)
    requires d <= e
    ensures m >= 1 && Pow2(e) == Times(m as real, Pow2(d))
    decreases e - d
  {
    hide Pow2, Times;
    if d == e {
      m := 1;
      TimesConstants(Pow2(d));
    } else {
      var h := PowerMultiple(e - 1, d);
      Pow2Step(e - 1);
      m := 2 * h;
      TimesTwice(h, Pow2(d));
    }
  }

  // ---------------------------------------------------------------- rounding error

  lemma RoundPositive(x: real)
    requires x > 0.0
    ensures Round(x) == NearestMultiple(x, Quantum(x))
  {
  }

  lemma QuantumIs(x: real)
    requires x > 0.0
    ensures Quantum(x) == Pow2(QuantumExponent(x)) && QuantumExponent(x) >= MIN_EXPONENT - 52
    ensures Exponent(x) >= MIN_EXPONENT ==> QuantumExponent(x) == Exponent(x) - 52
    ensures Exponent(x) < MIN_EXPONENT ==> QuantumExponent(x) == MIN_EXPONENT - 52
  {
  }

  /** Rounding moves a real by at most half the spacing. */
  lemma HalfQuantum(x: real)
    requires x > 0.0
    ensures Abs(Round(x) - x) <= Quantum(x) / 2.0
  {
    RoundPositive(x);
    hide Round, Quantum, NearestMultiple;
    HalfSpacing(x, Quantum(x));
  }

  /** Below Pow2(k) the rounding error is at most Pow2(k - 54). */
  lemma ErrorBelow(x: real, k: int)
    requires 0.0 < x < Pow2(k) && k > MIN_EXPONENT
    ensures Abs(Round(x) - x) <= Pow2(k - 54)
  {
    HalfQuantum(x);
    QuantumIs(x);
    hide Pow2, Round, Quantum, QuantumExponent, Exponent;
    if Exponent(x) >= k {
      Pow2Monotone(k, Exponent(x));
    }
    Pow2Monotone(QuantumExponent(x), k - 53);
    Pow2Step(k - 54);
  }

  /** The relative error of a normal result is at most 2^-53. */
  lemma RelativeError(x: real)
    requires x >= Pow2(MIN_EXPONENT)
    ensures TWO_53 * Abs(Round(x) - x) <= x
  {
    HalfQuantum(x);
    QuantumIs(x);
    hide Pow2, Round, Quantum, QuantumExponent, Exponent;
    var e := Exponent(x);
    if e < MIN_EXPONENT {
      Pow2Monotone(e + 1, MIN_EXPONENT);
    }
    Pow2Step(e - 53);
    Pow2Plus53(e - 53);
  }

  // ---------------------------------------------------------------- exact results

  lemma TimesUnit(n: int)
    ensures Times(n as real, 1.0) == n as real
  {
  }

  /** Integers up to 2^53 are doubles. */
  lemma IntegerIsExact(n: int)
    requires 0 <= n && n as real < TWO_53
    ensures Round(n as real) == n as real
  {
    if n > 0 {
      var x := n as real;
      RoundPositive(x);
      QuantumIs(x);
      assert Pow2(0) == 1.0;
      hide Pow2, Round, Quantum, QuantumExponent, Exponent, NearestMultiple, Times;
      var e := Exponent(x);
      Pow2Plus53(0);
      if e >= 53 {
        Pow2Monotone(53, e);
      }
      if e < 0 {
        Pow2Monotone(e + 1, 0);
      }
      var m := PowerMultiple(0, e - 52);
      TimesIntegers(n, m, Pow2(e - 52));
      TimesUnit(n);
      ExactMultiple(x, Quantum(x), n * m);
    }
  }

  // ---------------------------------------------------------------- rounding is to the nearest

  /** y is the double n * 2^e (overflow aside). */
  ghost predicate IsDouble(y: real, n: int, e: int) {
    && -0x20_0000_0000_0000 < n < 0x20_0000_0000_0000 && e >= MIN_EXPONENT - 52
    && y == Times(n as real, Pow2(e))
  }

  /** A double at least as coarse as the spacing around x is a multiple of it. */
  lemma CoarseIsMultiple(y: real, n: int, e: int, d: int) returns (k: int)
    requires IsDouble(y, n, e) && d <= e
    ensures y == Times(k as real, Pow2(d))
  {
    hide Pow2, Times;
    var m := PowerMultiple(e, d);
    TimesIntegers(n, m, Pow2(d));
    k := n * m;
  }

  lemma FinerIsBelow(y: real, n: int, e: int, d: int)
    requires IsDouble(y, n, e) && e < d
    ensures y <= Pow2(d + 52)
  {
    hide Pow2, Times;
    Pow2Plus53(e);
    TimesOrdered(n as real, TWO_53, Pow2(e));
    TimesConstants(Pow2(e));
    Pow2Monotone(e + 53, d + 52);
  }

  /** No double is nearer to x than Round(x) is. */
  lemma RoundIsNearest(x: real, y: real, n: int, e: int)
    requires x > 0.0 && IsDouble(y, n, e)
    ensures Abs(Round(x) - x) <= Abs(y - x)
  {
    RoundPositive(x);
    QuantumIs(x);
    hide Pow2, Round, Quantum, QuantumExponent, Exponent, NearestMultiple, Times;
    var d := QuantumExponent(x);
    if d <= e {
      var k := CoarseIsMultiple(y, n, e, d);
      NoNearerMultiple(x, Quantum(x), k);
    } else {
      var k := PowerMultiple(d + 52, d);
      FinerIsBelow(y, n, e, d);
      NoNearerMultiple(x, Quantum(x), k);
    }
  }

  lemma QuotientBelow(x: real, q: real)
    requires q > 0.0 && 0.0 < x < TWO_53 * q
    ensures 0 <= NearestEven(Over(x, q)) <= 0x20_0000_0000_0000
  {
    hide Times, Over, NearestEven;
    var y := Over(x, q);
    TimesOver(x, q);
    TimesConstants(q);
    if y >= TWO_53 {
      TimesOrdered(TWO_53, y, q);
    } else if y <= 0.0 {
      TimesOrdered(y, 0.0, q);
    }
  }

  /** And Round(x) is itself a double. */
  lemma RoundIsDouble(x: real) returns (n: int, e: int)
    requires x > 0.0
    ensures IsDouble(Round(x), n, e)
  {
    RoundPositive(x);
    QuantumIs(x);
    hide Pow2, Round, Quantum, QuantumExponent, Exponent, NearestEven, Times, Over;
    var q := Quantum(x);
    e := QuantumExponent(x);
    n := NearestEven(Over(x, q));
    Pow2Plus53(e);
    Pow2Monotone(Exponent(x) + 1, e + 53);
    QuotientBelow(x, q);
    if n == 0x20_0000_0000_0000 {
      Pow2Step(e);
      TimesTwiceUp(0x10_0000_0000_0000, q);
      n, e := 0x10_0000_0000_0000, e + 1;
    }
  }

  lemma TimesTwiceUp(h: int, q: real)
    ensures Times(h as real, 2.0 * q) == Times((2 * h) as real, q)
  {
    assert (2 * h) as real == 2.0 * h as real;
  }

  // ---------------------------------------------------------------- the ends of the range

  /** Half-way between two integers the even one is taken. */
  lemma TiesGoToEven(n: int)
    ensures NearestEven(n as real + 0.5) == if n % 2 == 0 then n else n + 1
  {
  }

  /** The least positive double is 2^-1074; half of it rounds to zero. */
  lemma LeastDouble()
    ensures Round(Pow2(-1074)) == Pow2(-1074) && Round(Pow2(-1075)) == 0.0
  {
    hide Round, Quantum, Pow2, Exponent, NearestMultiple;
    var q := Pow2(-1074);
    assert q == 2.0 * Pow2(-1075) by { Pow2Step(-1075); }
    SubnormalQuantum(q, -1074);
    SubnormalQuantum(Pow2(-1075), -1075);
    TimesConstants(q);
    ExactMultiple(q, q, 1);
    RoundPositive(q);
    RoundPositive(Pow2(-1075));
    OverMultiple(Pow2(-1075), q, 0.5);
    TiesGoToEven(0);
    MultipleOfNearest(Pow2(-1075), q);
  }

  lemma MultipleOfNearest(x: real, q: real)
    requires q > 0.0
    ensures NearestMultiple(x, q) == Times(NearestEven(Over(x, q)) as real, q)
  {
  }

  lemma SubnormalQuantum(x: real, e: int)
    requires e < -1022 && x == Pow2(e)
    ensures Quantum(x) == Pow2(-1074)
  {
    hide Pow2, Quantum, Exponent;
    Pow2Step(e);
    ExponentUnique(x, e);
    QuantumIs(x);
  }

  /** 2^53 * 2^971 = 2^1024 is the first power of two beyond the doubles. */
  lemma TopPowers()
    ensures Pow2(1024) == Times(TWO_53, Pow2(971)) && Pow2(971) == 2.0 * Pow2(970) && Pow2(1024) == 2.0 * Pow2(1023)
  {
    hide Pow2;
    Pow2Plus53(971);
    Pow2Step(970);
    Pow2Step(1023);
  }

  lemma TopBinade(x: real)
    requires Pow2(1023) <= x < Pow2(1024)
    ensures Round(x) == Times(NearestEven(Over(x, Pow2(971))) as real, Pow2(971))
  {
    hide Round, Quantum, Pow2, Exponent, NearestEven, Times, Over;
    ExponentUnique(x, 1023);
    QuantumIs(x);
    RoundPositive(x);
  }

  lemma NearestTop(y: real)
    requires y < TWO_53
    ensures NearestEven(y) <= 0x20_0000_0000_0000
    ensures NearestEven(y) == 0x20_0000_0000_0000 <==> TWO_53 - 0.5 <= y
  {
  }

  lemma TopRounds(x: real)
    requires Pow2(1023) <= x < Pow2(1024)
    ensures Round(x) < Pow2(1024) <==> x < Pow2(1024) - Pow2(970)
  {
    hide Round, Pow2, NearestEven, Times, Over;
    var q := Pow2(971);
    TopPowers();
    TopBinade(x);
    var y := Over(x, q);
    TimesOver(x, q);
    if y >= TWO_53 {
      TimesOrdered(TWO_53, y, q);
    }
    NearestTop(y);
    TimesMinus(TWO_53, 0.5, q);
    TimesConstants(q);
    if y < TWO_53 - 0.5 {
      TimesOrdered(y, TWO_53 - 0.5, q);
    } else {
      TimesOrdered(TWO_53 - 0.5, y, q);
    }
    TimesOrdered(NearestEven(y) as real, TWO_53, q);
  }

  /** A positive real rounds to below 2^1024 exactly when it is below the point half-way
      from the greatest double to it, and never to a negative. */
  lemma RoundStaysBelow(x: real)
    requires x > 0.0
    ensures Round(x) < Pow2(1024) <==> x < Pow2(1024) - Pow2(970)
    ensures Round(x) >= 0.0
  {
    hide Round, Pow2, Times;
    TopPowers();
    TimesConstants(Pow2(0));
    RoundIsNearest(x, 0.0, 0, 0);
    Pow2Monotone(971, 1023);
    if x >= Pow2(1024) {
      TimesConstants(Pow2(1024));
      RoundIsNearest(x, Pow2(1024), 1, 1024);
    } else if x >= Pow2(1023) {
      TopRounds(x);
    } else {
      TimesConstants(Pow2(1023));
      RoundIsNearest(x, Pow2(1023), 1, 1023);
    }
  }
}
