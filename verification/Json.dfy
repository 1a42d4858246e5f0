/** `JSON.stringify` on JSON values, and a parser that reads back what it wrote. */
module Json {
  import opened Wrappers
  import opened Basics
  import opened Texts
  import opened Utf8
  import opened Hex

  predicate IsNumberUnit(u: CodeUnit) {
    IsDigit(u) || u == Unit('-') || u == Unit('+') || u == Unit('.') || u == Unit('e')
  }

  /** A finite number, by the text `Number.prototype.toString` gives it; that text
      determines the number. */
  type NumberToken = t: Text | t != [] && (IsDigit(t[0]) || t[0] == Unit('-')) && forall u | u in t :: IsNumberUnit(u)
    witness [Unit('0')]

  datatype Json =
    | Null
    | Bool(value: bool)
    | Number(token: NumberToken)
    | String(text: Text)
    | Array(items: seq<Json>)
    | Object(members: seq<Member>)

  /** A property of an object; objects list theirs in enumeration order. */
  datatype Member = Member(key: Text, value: Json)

  const QUOTE := Unit('"')
  const BACKSLASH := Unit('\\')
  const COMMA := Unit(',')
  const COLON := Unit(':')
  const OPEN_ARRAY := Unit('[')
  const CLOSE_ARRAY := Unit(']')
  const OPEN_OBJECT := Unit('{')
  const CLOSE_OBJECT := Unit('}')
  const NULL_WORD: Text := [Unit('n'), Unit('u'), Unit('l'), Unit('l')]
  const TRUE_WORD: Text := [Unit('t'), Unit('r'), Unit('u'), Unit('e')]
  const FALSE_WORD: Text := [Unit('f'), Unit('a'), Unit('l'), Unit('s'), Unit('e')]

  // ---------------------------------------------------------------- printing

  function Escape(u: CodeUnit): Text {
    if u == 8 then [BACKSLASH, Unit('b')]
    else if u == 9 then [BACKSLASH, Unit('t')]
    else if u == 10 then [BACKSLASH, Unit('n')]
    else if u == 12 then [BACKSLASH, Unit('f')]
    else if u == 13 then [BACKSLASH, Unit('r')]
    else if u == QUOTE || u == BACKSLASH then [BACKSLASH, u]
    else if u < 0x20 || IsSurrogate(u) then
      [BACKSLASH, Unit('u'), HexDigit(u / 0x1000), HexDigit(u / 0x100 % 16), HexDigit(u / 16 % 16), HexDigit(u % 16)]
    else [u]
  }

  /** Surrogate pairs are kept; lone surrogates are escaped. */
  function Escaped(t: Text): Text {
    if t == [] then []
    else if StartsWithPair(t) then t[..2] + Escaped(t[2..])
    else Escape(t[0]) + Escaped(t[1..])
  }

  function Quoted(t: Text): Text {
    [QUOTE] + Escaped(t) + [QUOTE]
  }

  function Stringify(v: Json): Text
    decreases v
  {
    match v
    case Null => NULL_WORD
    case Bool(b) => if b then TRUE_WORD else FALSE_WORD
    case Number(token) => token
    case String(text) => Quoted(text)
    case Array(items) => [OPEN_ARRAY] + StringifyItems(items) + [CLOSE_ARRAY]
    case Object(members) => [OPEN_OBJECT] + StringifyMembers(members) + [CLOSE_OBJECT]
  }

  function StringifyItems(items: seq<Json>): Text
    decreases items
  {
    if items == [] then []
    else if |items| == 1 then Stringify(items[0])
    else Stringify(items[0]) + [COMMA] + StringifyItems(items[1..])
  }

  function StringifyMember(m: Member): Text
    decreases m
  {
    Quoted(m.key) + [COLON] + Stringify(m.value)
  }

  function StringifyMembers(members: seq<Member>): Text
    decreases members
  {
    if members == [] then []
    else if |members| == 1 then StringifyMember(members[0])
    else StringifyMember(members[0]) + [COMMA] + StringifyMembers(members[1..])
  }

  // ---------------------------------------------------------------- parsing

  /** What was read, and what follows it. */
  type Parsed<T> = Option<(T, Text)>

  /** The unit a two-character escape stands for (section 7 of RFC 8259). */
  function ShortEscape(u: CodeUnit): Option<CodeUnit> {
    if u == Unit('b') then Some(8)
    else if u == Unit('t') then Some(9)
    else if u == Unit('n') then Some(10)
    else if u == Unit('f') then Some(12)
    else if u == Unit('r') then Some(13)
    else if u == QUOTE || u == BACKSLASH || u == Unit('/') then Some(u)
    else None
  }

  /** One unit of a string body, and how much text it takes. */
  function ParseUnit(s: Text): (r: Option<(CodeUnit, nat)>)
    requires s != []
    ensures r.Some? ==> 1 <= r.value.1 <= |s|
  {
    if s[0] != BACKSLASH then (if s[0] < 0x20 then None else Some((s[0], 1)))
    else if |s| < 2 then None
    else if ShortEscape(s[1]).Some? then Some((ShortEscape(s[1]).value, 2))
    else if s[1] == Unit('u') && |s| >= 6 && forall i | 2 <= i < 6 :: IsHexDigit(s[i]) then
      Some((HexValue(s[2]) * 0x1000 + HexValue(s[3]) * 0x100 + HexValue(s[4]) * 16 + HexValue(s[5]), 6))
    else None
  }

  /** A string body up to and including its closing quote. */
  function ParseBody(s: Text): (r: Parsed<Text>)
    ensures r.Some? ==> |r.value.1| < |s|
    decreases |s|
  {
    if s == [] then None
    else if s[0] == QUOTE then Some(([], s[1..]))
    else
      var unit := ParseUnit(s);
      if unit.None? then None
      else
        var rest := ParseBody(s[unit.value.1..]);
        if rest.None? then None else Some(([unit.value.0] + rest.value.0, rest.value.1))
  }

  /** The length of the longest number-like prefix. */
  function NumberLength(s: Text): (n: nat)
    ensures n <= |s| && forall u | u in s[..n] :: IsNumberUnit(u)
  {
    if s == [] || !IsNumberUnit(s[0]) then 0
    else
      var n := NumberLength(s[1..]);
      assert s[..n + 1] == [s[0]] + s[1..][..n];
      n + 1
  }

  predicate HasPrefix(s: Text, p: Text) {
    |p| <= |s| && s[..|p|] == p
  }

  function ParseWord(s: Text, word: Text, v: Json): Parsed<Json> {
    if HasPrefix(s, word) then Some((v, s[|word|..])) else None
  }

  /** Parsing goes by the first unit. */
  function Parse(s: Text): (r: Parsed<Json>)
    ensures r.Some? ==> |r.value.1| < |s|
    decreases |s|, 2
  {
    if s == [] then None
    else if s[0] == QUOTE then ParseString(s[1..])
    else if s[0] == OPEN_ARRAY then ParseArray(s[1..])
    else if s[0] == OPEN_OBJECT then ParseObject(s[1..])
    else if s[0] == Unit('n') then ParseWord(s, NULL_WORD, Null)
    else if s[0] == Unit('t') then ParseWord(s, TRUE_WORD, Bool(true))
    else if s[0] == Unit('f') then ParseWord(s, FALSE_WORD, Bool(false))
    else ParseNumber(s)
  }

  function ParseNumber(s: Text): (r: Parsed<Json>)
    requires s != []
    ensures r.Some? ==> |r.value.1| < |s|
  {
    if IsDigit(s[0]) || s[0] == Unit('-') then
      var n := NumberLength(s);
      Some((Number(s[..n]), s[n..]))
    else None
  }

  function ParseString(s: Text): (r: Parsed<Json>)
    ensures r.Some? ==> |r.value.1| < |s|
  {
    var body := ParseBody(s);
    if body.None? then None else Some((String(body.value.0), body.value.1))
  }

  function ParseArray(s: Text): (r: Parsed<Json>)
    ensures r.Some? ==> |r.value.1| < |s|
    decreases |s|, 5
  {
    if s != [] && s[0] == CLOSE_ARRAY then Some((Array([]), s[1..]))
    else
      var items := ParseItems(s);
      if items.None? then None else Some((Array(items.value.0), items.value.1))
  }

  function ParseObject(s: Text): (r: Parsed<Json>)
    ensures r.Some? ==> |r.value.1| < |s|
    decreases |s|, 5
  {
    if s != [] && s[0] == CLOSE_OBJECT then Some((Object([]), s[1..]))
    else
      var members := ParseMembers(s);
      if members.None? then None else Some((Object(members.value.0), members.value.1))
  }

  /** One or more values, comma-separated, and the closing bracket. */
  function ParseItems(s: Text): (r: Parsed<seq<Json>>)
    ensures r.Some? ==> |r.value.1| < |s|
    decreases |s|, 3
  {
    var first := Parse(s);
    if first.None? || first.value.1 == [] then None
    else
      var (value, after) := first.value;
      if after[0] == CLOSE_ARRAY then Some(([value], after[1..]))
      else if after[0] == COMMA then
        var rest := ParseItems(after[1..]);
        if rest.None? then None else Some(([value] + rest.value.0, rest.value.1))
      else None
  }

  function ParseMember(s: Text): (r: Parsed<Member>)
    ensures r.Some? ==> |r.value.1| < |s|
    decreases |s|, 3
  {
    if s == [] || s[0] != QUOTE then None
    else
      var key := ParseBody(s[1..]);
      if key.None? || key.value.1 == [] || key.value.1[0] != COLON then None
      else
        var value := Parse(key.value.1[1..]);
        if value.None? then None else Some((Member(key.value.0, value.value.0), value.value.1))
  }

  /** One or more members, comma-separated, and the closing brace. */
  function ParseMembers(s: Text): (r: Parsed<seq<Member>>)
    ensures r.Some? ==> |r.value.1| < |s|
    decreases |s|, 4
  {
    var first := ParseMember(s);
    if first.None? || first.value.1 == [] then None
    else
      var (member, after) := first.value;
      if after[0] == CLOSE_OBJECT then Some(([member], after[1..]))
      else if after[0] == COMMA then
        var rest := ParseMembers(after[1..]);
        if rest.None? then None else Some(([member] + rest.value.0, rest.value.1))
      else None
  }

  // ---------------------------------------------------------------- the parser inverts the printer

  /** A code unit is its four hex digits. */
  lemma HexDigits(u: CodeUnit)
    ensures u == u / 0x1000 * 0x1000 + u / 0x100 % 16 * 0x100 + u / 16 % 16 * 16 + u % 16
  {
    assert u / 0x100 == u / 0x1000 * 16 + u / 0x100 % 16;
    assert u / 16 == u / 0x100 * 16 + u / 16 % 16;
  }

  lemma HexDigitValue(n: int)
    requires 0 <= n < 16
    ensures IsHexDigit(HexDigit(n)) && HexValue(HexDigit(n)) == n
  {
  }

  lemma ParseUnicodeEscape(a: int, b: int, c: int, d: int, rest: Text)
    requires 0 <= a < 16 && 0 <= b < 16 && 0 <= c < 16 && 0 <= d < 16
    ensures ParseUnit([BACKSLASH, Unit('u'), HexDigit(a), HexDigit(b), HexDigit(c), HexDigit(d)] + rest)
         == Some((a * 0x1000 + b * 0x100 + c * 16 + d, 6))
  {
    HexDigitValue(a);
    HexDigitValue(b);
    HexDigitValue(c);
    HexDigitValue(d);
    hide HexDigit, HexValue, IsHexDigit;
  }

  lemma ParseUnitInverts(u: CodeUnit, rest: Text)
    ensures Escape(u) != [] && Escape(u)[0] != QUOTE
    ensures ParseUnit(Escape(u) + rest) == Some((u, |Escape(u)|))
  {
    if |Escape(u)| == 6 {
      HexDigits(u);
      ParseUnicodeEscape(u / 0x1000, u / 0x100 % 16, u / 16 % 16, u % 16, rest);
    }
  }

  lemma ParseBodyAppend(u: CodeUnit, tail: Text, t: Text, rest: Text)
    requires ParseBody(tail) == Some((t, rest))
    ensures ParseBody(Escape(u) + tail) == Some(([u] + t, rest))
  {
    ParseUnitInverts(u, tail);
    assert (Escape(u) + tail)[|Escape(u)|..] == tail;
  }

  lemma ParseBodyPlain(u: CodeUnit, tail: Text, t: Text, rest: Text)
    requires IsSurrogate(u) && ParseBody(tail) == Some((t, rest))
    ensures ParseBody([u] + tail) == Some(([u] + t, rest))
  {
    assert ([u] + tail)[1..] == tail;
  }

  lemma {:induction false} ParseBodyInverts(t: Text, rest: Text)
    ensures ParseBody(Escaped(t) + ([QUOTE] + rest)) == Some((t, rest))
  {
    var end := [QUOTE] + rest;
    if t == [] {
      assert [] + end == end && end[1..] == rest;
    } else if StartsWithPair(t) {
      var tail := Escaped(t[2..]) + end;
      ParseBodyInverts(t[2..], rest);
      ParseBodyPlain(t[1], tail, t[2..], rest);
      ParseBodyPlain(t[0], [t[1]] + tail, [t[1]] + t[2..], rest);
      PairUp(t, Escaped(t[2..]), end);
    } else {
      ParseBodyInverts(t[1..], rest);
      ParseBodyAppend(t[0], Escaped(t[1..]) + end, t[1..], rest);
      Associate(Escape(t[0]), Escaped(t[1..]), end);
      assert t == [t[0]] + t[1..];
    }
  }

  lemma PairUp(t: Text, tail: Text, end: Text)
    requires |t| >= 2
    ensures t[..2] + tail + end == [t[0]] + ([t[1]] + (tail + end))
    ensures [t[0]] + ([t[1]] + t[2..]) == t
  {
  }

  lemma {:induction false} NumberLengthExact(token: Text, rest: Text)
    requires forall u | u in token :: IsNumberUnit(u)
    requires rest == [] || !IsNumberUnit(rest[0])
    ensures NumberLength(token + rest) == |token|
  {
    if token == [] {
      assert token + rest == rest;
    } else {
      assert token[0] in token;
      NumberLengthExact(token[1..], rest);
      assert (token + rest)[1..] == token[1..] + rest;
    }
  }

  /** What may follow a number: nothing, or a unit no number contains. */
  predicate Delimits(rest: Text) {
    rest == [] || !IsNumberUnit(rest[0])
  }

  /** No value starts with a closing bracket. */
  lemma FirstUnit(v: Json)
    ensures Stringify(v) != [] && Stringify(v)[0] != CLOSE_ARRAY
  {
    if v.Number? {
      assert v.token[0] in v.token;
    }
  }

  /** Parsing what was printed gives the value back, and leaves what followed it,
      whatever that is; only after a number must it not go on with the number. */
  lemma {:induction false} ParseInverts(v: Json, rest: Text)
    requires v.Number? ==> Delimits(rest)
    ensures Parse(Stringify(v) + rest) == Some((v, rest))
    decreases v, 0
  {
    match v {
      case Null => ParseWordInverts(NULL_WORD, rest, v);
      case Bool(b) => ParseWordInverts(Stringify(v), rest, v);
      case Number(token) => ParseNumberInverts(token, rest);
      case String(text) => ParseStringInverts(text, rest);
      case Array(items) =>
        ParseArrayInverts(items, rest);
        Unwrap(OPEN_ARRAY, StringifyItems(items), CLOSE_ARRAY, rest);
      case Object(members) =>
        ParseObjectInverts(members, rest);
        Unwrap(OPEN_OBJECT, StringifyMembers(members), CLOSE_OBJECT, rest);
    }
  }

  lemma ParseNumberInverts(token: NumberToken, rest: Text)
    requires Delimits(rest)
    ensures Parse(token + rest) == Some((Number(token), rest))
  {
    NumberLengthExact(token, rest);
    assert token[0] in token;
    assert (token + rest)[..|token|] == token && (token + rest)[|token|..] == rest;
  }

  lemma ParseStringInverts(text: Text, rest: Text)
    ensures Parse(Quoted(text) + rest) == Some((String(text), rest))
  {
    ParseBodyInverts(text, rest);
    Unwrap(QUOTE, Escaped(text), QUOTE, rest);
  }

  lemma ParseWordInverts(word: Text, rest: Text, v: Json)
    ensures ParseWord(word + rest, word, v) == Some((v, rest))
  {
    assert (word + rest)[..|word|] == word && (word + rest)[|word|..] == rest;
  }

  lemma Unwrap(open: CodeUnit, t: Text, close: CodeUnit, rest: Text)
    ensures var s := [open] + t + [close] + rest; s != [] && s[0] == open && s[1..] == t + ([close] + rest)
  {
    assert [open] + t + [close] + rest == [open] + (t + ([close] + rest));
  }

  lemma Join(a: Text, u: CodeUnit, b: Text, rest: Text)
    ensures a + [u] + b + rest == a + ([u] + (b + rest))
  {
  }

  lemma {:induction false} ParseArrayInverts(items: seq<Json>, rest: Text)
    ensures ParseArray(StringifyItems(items) + ([CLOSE_ARRAY] + rest)) == Some((Array(items), rest))
    decreases items, 2
  {
    if items == [] {
      assert [] + ([CLOSE_ARRAY] + rest) == [CLOSE_ARRAY] + rest;
    } else {
      ParseItemsInverts(items, rest);
    }
  }

  lemma {:induction false} ParseObjectInverts(members: seq<Member>, rest: Text)
    ensures ParseObject(StringifyMembers(members) + ([CLOSE_OBJECT] + rest)) == Some((Object(members), rest))
    decreases members, 2
  {
    if members == [] {
      assert [] + ([CLOSE_OBJECT] + rest) == [CLOSE_OBJECT] + rest;
    } else {
      ParseMembersInverts(members, rest);
    }
  }

  lemma ParseItemsLast(s: Text, v: Json, rest: Text)
    requires Parse(s) == Some((v, [CLOSE_ARRAY] + rest))
    ensures ParseItems(s) == Some(([v], rest))
  {
  }

  lemma ParseItemsNext(s: Text, v: Json, tail: Text, items: seq<Json>, rest: Text)
    requires Parse(s) == Some((v, [COMMA] + tail)) && ParseItems(tail) == Some((items, rest))
    ensures ParseItems(s) == Some(([v] + items, rest))
  {
    assert ([COMMA] + tail)[1..] == tail;
  }

  lemma ItemsPrinted(items: seq<Json>)
    requires items != []
    ensures StringifyItems(items) ==
      if |items| == 1 then Stringify(items[0]) else Stringify(items[0]) + [COMMA] + StringifyItems(items[1..])
  {
  }

  lemma {:induction false} ParseItemsInverts(items: seq<Json>, rest: Text)
    requires items != []
    ensures ParseItems(StringifyItems(items) + ([CLOSE_ARRAY] + rest)) == Some((items, rest))
    ensures StringifyItems(items) != [] && StringifyItems(items)[0] != CLOSE_ARRAY
    decreases items, 1
  {
    hide Parse, ParseItems, Stringify, StringifyItems;
    var s := StringifyItems(items) + ([CLOSE_ARRAY] + rest);
    FirstUnit(items[0]);
    ItemsPrinted(items);
    if |items| == 1 {
      ParseInverts(items[0], [CLOSE_ARRAY] + rest);
      ParseItemsLast(s, items[0], rest);
      assert items == [items[0]];
    } else {
      var tail := StringifyItems(items[1..]) + ([CLOSE_ARRAY] + rest);
      ParseItemsInverts(items[1..], rest);
      ParseInverts(items[0], [COMMA] + tail);
      Join(Stringify(items[0]), COMMA, StringifyItems(items[1..]), [CLOSE_ARRAY] + rest);
      ParseItemsNext(s, items[0], tail, items[1..], rest);
      assert items == [items[0]] + items[1..];
    }
  }

  lemma ParseMemberStep(s: Text, m: Member, value: Text, rest: Text)
    requires s != [] && s[0] == QUOTE && ParseBody(s[1..]) == Some((m.key, [COLON] + value))
    requires Parse(value) == Some((m.value, rest))
    ensures ParseMember(s) == Some((m, rest))
  {
    assert ([COLON] + value)[1..] == value;
  }

  lemma {:induction false} ParseMemberInverts(m: Member, rest: Text)
    requires Delimits(rest)
    ensures ParseMember(StringifyMember(m) + rest) == Some((m, rest))
    ensures StringifyMember(m) != [] && StringifyMember(m)[0] != CLOSE_OBJECT
    decreases m, 0
  {
    var s := StringifyMember(m) + rest;
    var value := Stringify(m.value) + rest;
    ParseBodyInverts(m.key, [COLON] + value);
    ParseInverts(m.value, rest);
    Join(Quoted(m.key), COLON, Stringify(m.value), rest);
    Unwrap(QUOTE, Escaped(m.key), QUOTE, [COLON] + value);
    ParseMemberStep(s, m, value, rest);
  }

  lemma ParseMembersLast(s: Text, m: Member, rest: Text)
    requires ParseMember(s) == Some((m, [CLOSE_OBJECT] + rest))
    ensures ParseMembers(s) == Some(([m], rest))
  {
  }

  lemma ParseMembersNext(s: Text, m: Member, tail: Text, members: seq<Member>, rest: Text)
    requires ParseMember(s) == Some((m, [COMMA] + tail)) && ParseMembers(tail) == Some((members, rest))
    ensures ParseMembers(s) == Some(([m] + members, rest))
  {
    assert ([COMMA] + tail)[1..] == tail;
  }

  lemma MembersPrinted(members: seq<Member>)
    requires members != []
    ensures StringifyMembers(members) ==
      if |members| == 1 then StringifyMember(members[0])
      else StringifyMember(members[0]) + [COMMA] + StringifyMembers(members[1..])
  {
  }

  lemma {:induction false} ParseMembersInverts(members: seq<Member>, rest: Text)
    requires members != []
    ensures ParseMembers(StringifyMembers(members) + ([CLOSE_OBJECT] + rest)) == Some((members, rest))
    ensures StringifyMembers(members) != [] && StringifyMembers(members)[0] != CLOSE_OBJECT
    decreases members, 1
  {
    hide ParseMember, ParseMembers, StringifyMember, StringifyMembers;
    var s := StringifyMembers(members) + ([CLOSE_OBJECT] + rest);
    MembersPrinted(members);
    if |members| == 1 {
      ParseMemberInverts(members[0], [CLOSE_OBJECT] + rest);
      ParseMembersLast(s, members[0], rest);
      assert members == [members[0]];
    } else {
      var tail := StringifyMembers(members[1..]) + ([CLOSE_OBJECT] + rest);
      ParseMembersInverts(members[1..], rest);
      ParseMemberInverts(members[0], [COMMA] + tail);
      Join(StringifyMember(members[0]), COMMA, StringifyMembers(members[1..]), [CLOSE_OBJECT] + rest);
      ParseMembersNext(s, members[0], tail, members[1..], rest);
      assert members == [members[0]] + members[1..];
    }
  }

  /** Two JSON values with the same printed text are the same value. */
  lemma StringifyInjective(v: Json, w: Json)
    requires Stringify(v) == Stringify(w)
    ensures v == w
  {
    ParseInverts(v, []);
    ParseInverts(w, []);
    assert Stringify(v) + [] == Stringify(v) && Stringify(w) + [] == Stringify(w);
  }

  // ---------------------------------------------------------------- printed text is well formed

  lemma {:induction false} EscapedWellFormed(t: Text)
    ensures WellFormed(Escaped(t))
  {
    if t == [] {
    } else if StartsWithPair(t) {
      EscapedWellFormed(t[2..]);
      assert Escaped(t)[2..] == Escaped(t[2..]);
    } else {
      EscapedWellFormed(t[1..]);
      PlainIsWellFormed(Escape(t[0]));
      WellFormedConcat(Escape(t[0]), Escaped(t[1..]));
    }
  }

  lemma QuotedWellFormed(t: Text)
    ensures WellFormed(Quoted(t))
  {
    EscapedWellFormed(t);
    WellFormedConcat([QUOTE], Escaped(t));
    WellFormedConcat([QUOTE] + Escaped(t), [QUOTE]);
  }

  lemma Bracketed(open: CodeUnit, t: Text, close: CodeUnit)
    requires !IsSurrogate(open) && !IsSurrogate(close) && WellFormed(t)
    ensures WellFormed([open] + t + [close])
  {
    WellFormedConcat([open], t);
    WellFormedConcat([open] + t, [close]);
  }

  lemma Separated(a: Text, u: CodeUnit, b: Text)
    requires !IsSurrogate(u) && WellFormed(a) && WellFormed(b)
    ensures WellFormed(a + [u] + b)
  {
    WellFormedConcat(a, [u]);
    WellFormedConcat(a + [u], b);
  }

  lemma {:induction false} StringifyWellFormed(v: Json)
    ensures WellFormed(Stringify(v))
    decreases v, 0
  {
    match v {
      case Null => PlainIsWellFormed(NULL_WORD);
      case Bool(b) => PlainIsWellFormed(Stringify(v));
      case Number(token) => PlainIsWellFormed(token);
      case String(text) => QuotedWellFormed(text);
      case Array(items) =>
        StringifyItemsWellFormed(items);
        Bracketed(OPEN_ARRAY, StringifyItems(items), CLOSE_ARRAY);
      case Object(members) =>
        StringifyMembersWellFormed(members);
        Bracketed(OPEN_OBJECT, StringifyMembers(members), CLOSE_OBJECT);
    }
  }

  lemma {:induction false} StringifyItemsWellFormed(items: seq<Json>)
    ensures WellFormed(StringifyItems(items))
    decreases items, 1
  {
    if items != [] {
      StringifyWellFormed(items[0]);
      StringifyItemsWellFormed(items[1..]);
      Separated(Stringify(items[0]), COMMA, StringifyItems(items[1..]));
    }
  }

  lemma {:induction false} StringifyMembersWellFormed(members: seq<Member>)
    ensures WellFormed(StringifyMembers(members))
    decreases members, 1
  {
    if members != [] {
      var m := members[0];
      QuotedWellFormed(m.key);
      StringifyWellFormed(m.value);
      Separated(Quoted(m.key), COLON, Stringify(m.value));
      StringifyMembersWellFormed(members[1..]);
      Separated(StringifyMember(m), COMMA, StringifyMembers(members[1..]));
    }
  }
}
