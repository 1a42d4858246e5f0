/** JavaScript strings and byte buffers: strings are sequences of UTF-16 code
    units, and only become bytes when they are hashed. */
module Texts {
  type CodeUnit = u: int | 0 <= u < 0x1_0000
  type Text = seq<CodeUnit>

  type Byte = b: int | 0 <= b < 0x100
  type Bytes = seq<Byte>

  /** What SHA-256 and HMAC-SHA256 give. */
  type Block = b: Bytes | |b| == 32 witness seq(32, _ => 0)

  /** The code unit of a character of the basic plane. */
  function Unit(c: char): CodeUnit {
    if c as int < 0x1_0000 then c as int else 0xFFFD
  }

  /** The text of a source literal. */
  function Units(s: string): Text {
    seq(|s|, i requires 0 <= i < |s| => Unit(s[i]))
  }

  /** A literal of the basic plane is its characters' code points, in order. */
  lemma UnitsAre(s: string, i: nat)
    requires i < |s| && s[i] as int < 0x1_0000
    ensures |Units(s)| == |s| && Units(s)[i] == s[i] as int
    ensures Units(s) == Units(s[..i]) + [s[i] as int] + Units(s[i + 1..])
  {
  }

  predicate IsDigit(u: CodeUnit) {
    Unit('0') <= u <= Unit('9')
  }

  predicate IsUpper(u: CodeUnit) { Unit('A') <= u <= Unit('Z') }

  /** `toLowerCase` of one unit, for the letters A to Z. */
  function Lower(u: CodeUnit): CodeUnit { if IsUpper(u) then u + 32 else u }
}

/** UTF-8 as `hash.update(text)` applies it, and its inverse. */
module Utf8 {
  import opened Wrappers
  import opened Texts

  predicate IsHigh(u: CodeUnit) { 0xD800 <= u <= 0xDBFF }
  predicate IsLow(u: CodeUnit) { 0xDC00 <= u <= 0xDFFF }
  predicate IsSurrogate(u: CodeUnit) { 0xD800 <= u <= 0xDFFF }

  /** The text starts with a surrogate pair. */
  predicate StartsWithPair(t: Text) {
    |t| >= 2 && IsHigh(t[0]) && IsLow(t[1])
  }

  /** No surrogate stands alone. */
  predicate WellFormed(t: Text) {
    if t == [] then true
    else if StartsWithPair(t) then WellFormed(t[2..])
    else !IsSurrogate(t[0]) && WellFormed(t[1..])
  }

  type Scalar = c: int | 0 <= c < 0x11_0000

  function PairScalar(high: CodeUnit, low: CodeUnit): (c: Scalar)
    requires IsHigh(high) && IsLow(low)
    ensures 0x1_0000 <= c
  {
    0x1_0000 + (high - 0xD800) * 0x400 + (low - 0xDC00)
  }

  function EncodeScalar(c: Scalar): Bytes {
    if c < 0x80 then [c]
    else if c < 0x800 then [0xC0 + c / 0x40, 0x80 + c % 0x40]
    else if c < 0x1_0000 then [0xE0 + c / 0x1000, 0x80 + c / 0x40 % 0x40, 0x80 + c % 0x40]
    else [0xF0 + c / 0x4_0000, 0x80 + c / 0x1000 % 0x40, 0x80 + c / 0x40 % 0x40, 0x80 + c % 0x40]
  }

  /** A lone surrogate is hashed as U+FFFD. */
  function Encode(t: Text): Bytes {
    if t == [] then []
    else if StartsWithPair(t) then EncodeScalar(PairScalar(t[0], t[1])) + Encode(t[2..])
    else EncodeScalar(if IsSurrogate(t[0]) then 0xFFFD else t[0]) + Encode(t[1..])
  }

  /** The six payload bits of a continuation byte. */
  function Low6(b: Byte): (n: int)
    ensures 0 <= n < 0x40
  {
    b % 0x40
  }

  /** The scalar at the front of a byte string, and how many bytes it takes. */
  function DecodeScalar(b: Bytes): (r: Option<(Scalar, nat)>)
    ensures r.Some? ==> 1 <= r.value.1 <= |b|
  {
    if b == [] then None
    else
      var lead: int := b[0];
      if lead < 0x80 then Some((lead, 1))
      else if 0xC0 <= lead < 0xE0 && |b| >= 2 then Some(((lead - 0xC0) * 0x40 + Low6(b[1]), 2))
      else if 0xE0 <= lead < 0xF0 && |b| >= 3 then
        Some(((lead - 0xE0) * 0x1000 + Low6(b[1]) * 0x40 + Low6(b[2]), 3))
      else if 0xF0 <= lead < 0xF4 && |b| >= 4 then
        Some(((lead - 0xF0) * 0x4_0000 + Low6(b[1]) * 0x1000 + Low6(b[2]) * 0x40 + Low6(b[3]), 4))
      else if lead == 0xF4 && |b| >= 4 && Low6(b[1]) < 0x10 then
        Some((0x10_0000 + Low6(b[1]) * 0x1000 + Low6(b[2]) * 0x40 + Low6(b[3]), 4))
      else None
  }

  function UnitsOf(c: Scalar): Text {
    if c < 0x1_0000 then [c]
    else [0xD800 + (c - 0x1_0000) / 0x400, 0xDC00 + (c - 0x1_0000) % 0x400]
  }

  function Decode(b: Bytes): Option<Text> {
    if b == [] then Some([])
    else
      var first := DecodeScalar(b);
      if first.None? then None
      else
        var rest := Decode(b[first.value.1..]);
        if rest.None? then None else Some(UnitsOf(first.value.0) + rest.value)
  }

  /** A scalar is its groups of six bits. */
  lemma SixBitGroups(c: Scalar)
    ensures c == c / 0x40 * 0x40 + c % 0x40
    ensures c == c / 0x1000 * 0x1000 + c / 0x40 % 0x40 * 0x40 + c % 0x40
    ensures c == c / 0x4_0000 * 0x4_0000 + c / 0x1000 % 0x40 * 0x1000 + c / 0x40 % 0x40 * 0x40 + c % 0x40
  {
    var q := c / 0x40;
    assert c / 0x1000 == q / 0x40;
    assert c / 0x4_0000 == q / 0x40 / 0x40;
  }

  /** Continuation bytes carry their six bits. */
  lemma ContinuationBits(n: int)
    requires 0 <= n < 0x40
    ensures Low6(0x80 + n) == n
  {
  }

  lemma DecodeScalarInverts(c: Scalar, rest: Bytes)
    ensures DecodeScalar(EncodeScalar(c) + rest) == Some((c, |EncodeScalar(c)|))
  {
    SixBitGroups(c);
    ContinuationBits(c % 0x40);
    ContinuationBits(c / 0x40 % 0x40);
    ContinuationBits(c / 0x1000 % 0x40);
  }

  lemma DecodeAppend(c: Scalar, tail: Bytes, t: Text)
    requires Decode(tail) == Some(t)
    ensures Decode(EncodeScalar(c) + tail) == Some(UnitsOf(c) + t)
  {
    DecodeScalarInverts(c, tail);
    assert (EncodeScalar(c) + tail)[|EncodeScalar(c)|..] == tail;
  }

  lemma UnitsOfPair(high: CodeUnit, low: CodeUnit)
    requires IsHigh(high) && IsLow(low)
    ensures UnitsOf(PairScalar(high, low)) == [high, low]
  {
  }

  /** Hashing text without lone surrogates loses nothing. */
  lemma {:induction false} DecodeInverts(t: Text)
    requires WellFormed(t)
    ensures Decode(Encode(t)) == Some(t)
  {
    if t == [] {
    } else if StartsWithPair(t) {
      DecodeInverts(t[2..]);
      DecodeAppend(PairScalar(t[0], t[1]), Encode(t[2..]), t[2..]);
      UnitsOfPair(t[0], t[1]);
      assert t == [t[0], t[1]] + t[2..];
    } else {
      DecodeInverts(t[1..]);
      DecodeAppend(t[0], Encode(t[1..]), t[1..]);
      assert t == [t[0]] + t[1..];
    }
  }

  /** ASCII text is its own encoding. */
  lemma {:induction false} EncodeAscii(t: Text)
    requires forall u | u in t :: u < 0x80
    ensures Encode(t) == t
  {
    if t != [] {
      assert t[0] in t && forall u | u in t[1..] :: u in t;
      EncodeAscii(t[1..]);
    }
  }

  /** One unit below 0x80 is one byte. */
  lemma OneByte(u: CodeUnit)
    requires u < 0x80
    ensures Encode([u]) == [u]
  {
    AloneEncoded(u);
  }

  /** From there to 0x7FF it is two, of five and six bits. */
  lemma TwoBytes(u: CodeUnit, a: int, b: int)
    requires 0x80 <= u < 0x800 && 0 <= b < 64 && u == a * 64 + b
    ensures Encode([u]) == [192 + a, 128 + b]
  {
    AloneEncoded(u);
  }

  /** From there on, outside the surrogates, it is three, of four, six and six bits. */
  lemma ThreeBytes(u: CodeUnit, a: int, b: int, c: int)
    requires 0x800 <= u && !(0xD800 <= u <= 0xDFFF)
    requires 0 <= b < 64 && 0 <= c < 64 && u == a * 4096 + b * 64 + c
    ensures Encode([u]) == [224 + a, 128 + b, 128 + c]
  {
    AloneEncoded(u);
    assert u / 0x40 == a * 64 + b;
  }

  lemma AloneEncoded(u: CodeUnit)
    ensures Encode([u]) == EncodeScalar(if IsSurrogate(u) then 0xFFFD else u)
  {
    assert Encode([u][1..]) == [];
  }

  /** A lone surrogate gives the three bytes of the replacement character. */
  lemma LoneSurrogateBytes(u: CodeUnit)
    requires 0xD800 <= u <= 0xDFFF
    ensures Encode([u]) == [239, 191, 189]
  {
    AloneEncoded(u);
  }

  /** A surrogate pair gives four bytes, of three, six, six and six bits of its scalar. */
  lemma PairBytes(high: CodeUnit, low: CodeUnit, a: int, b: int, c: int, d: int)
    requires 0xD800 <= high <= 0xDBFF && 0xDC00 <= low <= 0xDFFF
    requires 0 <= b < 64 && 0 <= c < 64 && 0 <= d < 64
    requires 65536 + (high - 0xD800) * 1024 + (low - 0xDC00) == a * 262144 + b * 4096 + c * 64 + d
    ensures Encode([high, low]) == [240 + a, 128 + b, 128 + c, 128 + d]
  {
    hide EncodeScalar;
    var t := [high, low];
    assert Encode(t[2..]) == [] && Encode(t) == EncodeScalar(PairScalar(high, low));
    FourBytes(PairScalar(high, low), a, b, c, d);
  }

  lemma FourBytes(scalar: Scalar, a: int, b: int, c: int, d: int)
    requires scalar >= 0x1_0000 && 0 <= b < 64 && 0 <= c < 64 && 0 <= d < 64
    requires scalar == a * 262144 + b * 4096 + c * 64 + d
    ensures EncodeScalar(scalar) == [240 + a, 128 + b, 128 + c, 128 + d]
  {
    assert scalar / 0x40 == a * 4096 + b * 64 + c;
    assert scalar / 0x1000 == a * 64 + b;
  }

  /** The bytes of a concatenation are those of its parts, when no pair is split. */
  lemma {:induction false} ConcatBytes(a: Text, b: Text)
    requires a != [] && b != [] ==> !(0xD800 <= a[|a| - 1] <= 0xDBFF && 0xDC00 <= b[0] <= 0xDFFF)
    ensures Encode(a + b) == Encode(a) + Encode(b)
  {
    hide EncodeScalar;
    if a == [] {
      assert a + b == b;
    } else {
      var n := if StartsWithPair(a) then 2 else 1;
      assert StartsWithPair(a + b) <==> StartsWithPair(a);
      assert (a + b)[n..] == a[n..] + b;
      ConcatBytes(a[n..], b);
    }
  }

  lemma {:induction false} WellFormedConcat(a: Text, b: Text)
    requires WellFormed(a) && WellFormed(b)
    ensures WellFormed(a + b)
  {
    if a == [] {
      assert a + b == b;
    } else if StartsWithPair(a) {
      WellFormedConcat(a[2..], b);
      assert (a + b)[2..] == a[2..] + b;
    } else {
      WellFormedConcat(a[1..], b);
      assert (a + b)[1..] == a[1..] + b;
    }
  }

  lemma {:induction false} PlainIsWellFormed(t: Text)
    requires forall u | u in t :: !IsSurrogate(u)
    ensures WellFormed(t)
  {
    if t != [] {
      assert t[0] in t && forall u | u in t[1..] :: u in t;
      PlainIsWellFormed(t[1..]);
    }
  }
}

/** `Buffer.toString("hex")` and `Buffer.from(text, "hex")`. */
module Hex {
  import opened Texts

  function HexDigit(n: int): CodeUnit
    requires 0 <= n < 16
  {
    if n < 10 then Unit('0') + n else Unit('a') + n - 10
  }

  predicate IsHexDigit(u: CodeUnit) {
    IsDigit(u) || Unit('a') <= u <= Unit('f') || Unit('A') <= u <= Unit('F')
  }

  predicate IsLowerHex(u: CodeUnit) {
    IsDigit(u) || Unit('a') <= u <= Unit('f')
  }

  function HexValue(u: CodeUnit): (n: int)
    requires IsHexDigit(u)
    ensures 0 <= n < 16
  {
    if IsDigit(u) then u - Unit('0')
    else if u >= Unit('a') then u - Unit('a') + 10
    else u - Unit('A') + 10
  }

  function ToHex(b: Bytes): (t: Text)
    ensures |t| == 2 * |b|
    ensures forall u | u in t :: IsLowerHex(u)
  {
    if b == [] then [] else [HexDigit(b[0] / 16), HexDigit(b[0] % 16)] + ToHex(b[1..])
  }

  /** Decoding stops, without complaint, at the first pair that is not two hex digits. */
  function FromHex(t: Text): Bytes {
    if |t| < 2 || !IsHexDigit(t[0]) || !IsHexDigit(t[1]) then []
    else [HexValue(t[0]) * 16 + HexValue(t[1])] + FromHex(t[2..])
  }

  /** The digits of the two spellings, in the numbers of their units. */
  const LOWER: seq<CodeUnit> := [48, 49, 50, 51, 52, 53, 54, 55, 56, 57, 97, 98, 99, 100, 101, 102]
  const UPPER: seq<CodeUnit> := [48, 49, 50, 51, 52, 53, 54, 55, 56, 57, 65, 66, 67, 68, 69, 70]

  lemma DigitIs(n: int)
    requires 0 <= n < 16
    ensures HexDigit(n) == LOWER[n]
    ensures IsHexDigit(LOWER[n]) && HexValue(LOWER[n]) == n
    ensures IsHexDigit(UPPER[n]) && HexValue(UPPER[n]) == n
  {
  }

  lemma DigitKnown(u: CodeUnit)
    ensures IsHexDigit(u) <==> u in LOWER || u in UPPER
  {
    if IsHexDigit(u) {
      var n := HexValue(u);
      DigitIs(n);
      assert u == LOWER[n] || u == UPPER[n];
    }
    if u in LOWER {
      var n :| 0 <= n < 16 && LOWER[n] == u;
      DigitIs(n);
    }
    if u in UPPER {
      var n :| 0 <= n < 16 && UPPER[n] == u;
      DigitIs(n);
    }
  }

  /** Byte k is spelled at 2k by its high and then its low digit, in lower case. */
  lemma {:induction false} HexSpells(b: Bytes, k: nat)
    requires k < |b|
    ensures ToHex(b)[2 * k] == LOWER[b[k] / 16] && ToHex(b)[2 * k + 1] == LOWER[b[k] % 16]
  {
    if k == 0 {
      DigitIs(b[0] / 16);
      DigitIs(b[0] % 16);
    } else {
      HexSpells(b[1..], k - 1);
    }
  }

  /** Reading takes pairs of digits of either case. */
  lemma HexReads(high: int, low: int, t: Text)
    requires 0 <= high < 16 && 0 <= low < 16 && |t| >= 2
    requires (t[0] == LOWER[high] || t[0] == UPPER[high]) && (t[1] == LOWER[low] || t[1] == UPPER[low])
    ensures FromHex(t) == [high * 16 + low] + FromHex(t[2..])
  {
    hide IsHexDigit, HexValue;
    DigitIs(high);
    DigitIs(low);
  }

  /** It stops at the first pair that is none. */
  lemma HexStops(t: Text)
    ensures |t| < 2 || !(t[0] in LOWER || t[0] in UPPER) || !(t[1] in LOWER || t[1] in UPPER) ==> FromHex(t) == []
  {
    hide IsHexDigit, HexValue;
    if |t| >= 2 {
      DigitKnown(t[0]);
      DigitKnown(t[1]);
    }
  }

  lemma {:induction false} FromHexInverts(b: Bytes)
    ensures FromHex(ToHex(b)) == b
  {
    if b != [] {
      FromHexInverts(b[1..]);
      assert ToHex(b)[2..] == ToHex(b[1..]);
      assert b == [b[0]] + b[1..];
    }
  }
}
