/** The text `JSON.stringify` gives, unit by unit, in the numbers of the units. */
module JsonText {
  import opened Texts
  import opened Utf8
  import opened Hex
  import opened Json

  // ---------------------------------------------------------------- strings

  lemma Printed(t: Text)
    ensures Stringify(String(t)) == [34] + Escaped(t) + [34]
  {
  }

  lemma EscapedStep(t: Text)
    requires t != [] && !StartsWithPair(t)
    ensures Escaped(t) == Escape(t[0]) + Escaped(t[1..])
  {
  }

  lemma NothingEscaped()
    ensures Escaped([]) == []
  {
  }

  lemma PlainEscape(u: CodeUnit)
    requires 0x20 <= u && u != 34 && u != 92 && !(0xD800 <= u <= 0xDFFF)
    ensures Escape(u) == [u]
  {
  }

  /** A string of units from 0x20 up, with no quote, backslash or surrogate, prints as
      itself between two quotes. */
  lemma PlainPrints(t: Text)
    requires forall u | u in t :: 0x20 <= u && u != 34 && u != 92 && !(0xD800 <= u <= 0xDFFF)
    ensures Stringify(String(t)) == [34] + t + [34]
  {
    hide Stringify, Escaped;
    Printed(t);
    PlainEscaped(t);
  }

  lemma {:induction false} PlainEscaped(t: Text)
    requires forall u | u in t :: 0x20 <= u && u != 34 && u != 92 && !(0xD800 <= u <= 0xDFFF)
    ensures Escaped(t) == t
  {
    hide Escape, Escaped;
    if t == [] {
      NothingEscaped();
    } else {
      assert t[0] in t && forall u | u in t[1..] :: u in t;
      PlainEscaped(t[1..]);
      PlainEscape(t[0]);
      EscapedStep(t);
    }
  }

  lemma OneUnit(u: CodeUnit)
    ensures Stringify(String([u])) == [34] + Escape(u) + [34]
  {
    hide Stringify, Escape, Escaped;
    Printed([u]);
    EscapedStep([u]);
    assert [u][1..] == [];
    NothingEscaped();
  }

  /** The seven two-unit escapes. */
  lemma ShortEscapesPrint()
    ensures Stringify(String([34])) == [34, 92, 34, 34]
    ensures Stringify(String([92])) == [34, 92, 92, 34]
    ensures Stringify(String([8])) == [34, 92, 98, 34]
    ensures Stringify(String([9])) == [34, 92, 116, 34]
    ensures Stringify(String([10])) == [34, 92, 110, 34]
    ensures Stringify(String([12])) == [34, 92, 102, 34]
    ensures Stringify(String([13])) == [34, 92, 114, 34]
  {
    hide Stringify;
    OneUnit(34);
    OneUnit(92);
    OneUnit(8);
    OneUnit(9);
    OneUnit(10);
    OneUnit(12);
    OneUnit(13);
  }

  /** Any other unit below 0x20, and a lone surrogate, prints as a backslash, a small u
      and the four lower-case hex digits of its value. */
  lemma LongEscapesPrint(u: CodeUnit, a: int, b: int, c: int, d: int)
    requires (u < 0x20 && u != 8 && u != 9 && u != 10 && u != 12 && u != 13) || 0xD800 <= u <= 0xDFFF
    requires 0 <= a < 16 && 0 <= b < 16 && 0 <= c < 16 && 0 <= d < 16
    requires u == a * 4096 + b * 256 + c * 16 + d
    ensures Stringify(String([u])) ==
      [34, 92, 117, LOWER[a], LOWER[b], LOWER[c], LOWER[d], 34]
  {
    hide Stringify, Escape, HexDigit;
    OneUnit(u);
    LongEscape(u);
    HexParts(u, a, b, c, d);
    DigitIs(a);
    DigitIs(b);
    DigitIs(c);
    DigitIs(d);
  }

  lemma LongEscape(u: CodeUnit)
    requires (u < 0x20 && u != 8 && u != 9 && u != 10 && u != 12 && u != 13) || 0xD800 <= u <= 0xDFFF
    ensures Escape(u) ==
      [92, 117, HexDigit(u / 0x1000), HexDigit(u / 0x100 % 16), HexDigit(u / 16 % 16), HexDigit(u % 16)]
  {
    hide HexDigit;
  }

  lemma HexParts(u: int, a: int, b: int, c: int, d: int)
    requires 0 <= a < 16 && 0 <= b < 16 && 0 <= c < 16 && 0 <= d < 16
    requires u == a * 4096 + b * 256 + c * 16 + d
    ensures u / 0x1000 == a && u / 0x100 % 16 == b && u / 16 % 16 == c && u % 16 == d
  {
    assert u / 16 == a * 256 + b * 16 + c;
    assert u / 0x100 == a * 16 + b;
  }

  /** A surrogate pair prints as itself. */
  lemma PairPrints(high: CodeUnit, low: CodeUnit)
    requires 0xD800 <= high <= 0xDBFF && 0xDC00 <= low <= 0xDFFF
    ensures Stringify(String([high, low])) == [34, high, low, 34]
  {
    assert [high, low][..2] == [high, low] && Escaped([high, low][2..]) == [];
  }

  /** Printing a concatenation is printing its parts, when no pair is split. */
  lemma ConcatPrints(a: Text, b: Text)
    requires a != [] && b != [] ==> !(0xD800 <= a[|a| - 1] <= 0xDBFF && 0xDC00 <= b[0] <= 0xDFFF)
    ensures var first, second := Stringify(String(a)), Stringify(String(b));
            && |first| >= 2 && |second| >= 2
            && Stringify(String(a + b)) == first[..|first| - 1] + second[1..]
  {
    hide Stringify, Escaped;
    EscapedConcat(a, b);
    Printed(a);
    Printed(b);
    Printed(a + b);
    assert ([34] + Escaped(a) + [34])[..|Escaped(a)| + 1] == [34] + Escaped(a);
    assert ([34] + Escaped(b) + [34])[1..] == Escaped(b) + [34];
  }

  lemma {:induction false} EscapedConcat(a: Text, b: Text)
    requires a != [] && b != [] ==> !(0xD800 <= a[|a| - 1] <= 0xDBFF && 0xDC00 <= b[0] <= 0xDFFF)
    ensures Escaped(a + b) == Escaped(a) + Escaped(b)
  {
    hide Escape, Escaped;
    if a == [] {
      NothingEscaped();
      assert a + b == b;
    } else {
      assert StartsWithPair(a + b) <==> StartsWithPair(a);
      if StartsWithPair(a) {
        assert (a + b)[2..] == a[2..] + b && (a + b)[..2] == a[..2];
        EscapedConcat(a[2..], b);
        EscapedPair(a);
        EscapedPair(a + b);
      } else {
        assert (a + b)[1..] == a[1..] + b;
        EscapedConcat(a[1..], b);
        EscapedStep(a);
        EscapedStep(a + b);
      }
    }
  }

  lemma EscapedPair(t: Text)
    requires StartsWithPair(t)
    ensures Escaped(t) == t[..2] + Escaped(t[2..])
  {
  }

  // ---------------------------------------------------------------- the other values

  /** The three words, and numbers as they print. */
  lemma WordsPrint(token: NumberToken)
    ensures Stringify(Null) == [110, 117, 108, 108]
    ensures Stringify(Bool(true)) == [116, 114, 117, 101]
    ensures Stringify(Bool(false)) == [102, 97, 108, 115, 101]
    ensures Stringify(Number(token)) == token
  {
  }

  lemma ArrayPrinted(items: seq<Json>)
    ensures Stringify(Array(items)) == [91] + StringifyItems(items) + [93]
  {
  }

  lemma ObjectPrinted(members: seq<Member>)
    ensures Stringify(Object(members)) == [123] + StringifyMembers(members) + [125]
  {
  }

  lemma MemberPrinted(m: Member)
    ensures StringifyMember(m) == Stringify(String(m.key)) + [58] + Stringify(m.value)
  {
  }

  /** Brackets around the printed values, with commas between and nothing else. */
  lemma ArraysPrint(v: Json, rest: seq<Json>)
    ensures Stringify(Array([])) == [91, 93]
    ensures Stringify(Array([v])) == [91] + Stringify(v) + [93]
    ensures rest != [] ==>
      Stringify(Array([v] + rest)) == [91] + Stringify(v) + [44] + Stringify(Array(rest))[1..]
  {
    hide Stringify, StringifyItems;
    ArrayPrinted([]);
    NothingListed();
    ArrayPrinted([v]);
    ItemsPrinted([v]);
    if rest != [] {
      ArrayPrinted(rest);
      ArrayPrinted([v] + rest);
      ItemsPrinted([v] + rest);
      assert ([v] + rest)[1..] == rest;
      assert ([91] + StringifyItems(rest) + [93])[1..] == StringifyItems(rest) + [93];
    }
  }

  lemma NothingListed()
    ensures StringifyItems([]) == [] && StringifyMembers([]) == []
  {
  }

  /** Braces around the printed members, a colon in each and commas between. */
  lemma ObjectsPrint(m: Member, rest: seq<Member>)
    ensures Stringify(Object([])) == [123, 125]
    ensures Stringify(Object([m])) == [123] + Stringify(String(m.key)) + [58] + Stringify(m.value) + [125]
    ensures rest != [] ==>
      Stringify(Object([m] + rest)) ==
        [123] + Stringify(String(m.key)) + [58] + Stringify(m.value) + [44] + Stringify(Object(rest))[1..]
  {
    hide Stringify, StringifyMembers, StringifyMember;
    ObjectPrinted([]);
    NothingListed();
    ObjectPrinted([m]);
    MembersPrinted([m]);
    MemberPrinted(m);
    if rest != [] {
      ObjectPrinted(rest);
      ObjectPrinted([m] + rest);
      MembersPrinted([m] + rest);
      assert ([m] + rest)[1..] == rest;
      assert ([123] + StringifyMembers(rest) + [125])[1..] == StringifyMembers(rest) + [125];
    }
  }
}
