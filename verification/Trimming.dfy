/** `String.prototype.trim`, by the units it takes away. */
module Trimming {
  import opened Texts
  import opened Decimals

  predicate AllSpaces(t: Text) {
    forall u | u in t :: u in SPACES
  }

  /** No space at either end. */
  predicate Bare(t: Text) {
    t != [] ==> t[0] !in SPACES && t[|t| - 1] !in SPACES
  }

  lemma {:induction false} TrimStartSkips(spaces: Text, t: Text)
    requires AllSpaces(spaces)
    ensures TrimStart(spaces + t) == TrimStart(t)
  {
    if spaces == [] {
      assert spaces + t == t;
    } else {
      assert spaces[0] in spaces && forall u | u in spaces[1..] :: u in spaces;
      SpacesAre(spaces[0]);
      assert (spaces + t)[1..] == spaces[1..] + t;
      TrimStartSkips(spaces[1..], t);
    }
  }

  lemma {:induction false} TrimEndSkips(t: Text, spaces: Text)
    requires AllSpaces(spaces)
    ensures TrimEnd(t + spaces) == TrimEnd(t)
  {
    if spaces == [] {
      assert t + spaces == t;
    } else {
      var n := |spaces| - 1;
      assert spaces[n] in spaces && forall u | u in spaces[..n] :: u in spaces;
      SpacesAre(spaces[n]);
      assert (t + spaces)[..|t| + n] == t + spaces[..n];
      TrimEndSkips(t, spaces[..n]);
    }
  }

  lemma {:induction false} TrimStartKeepsEnd(t: Text, spaces: Text)
    requires AllSpaces(spaces)
    ensures TrimEnd(TrimStart(t + spaces)) == TrimEnd(TrimStart(t))
  {
    if t == [] {
      assert t + spaces == spaces + [];
      TrimStartSkips(spaces, []);
    } else if IsSpace(t[0]) {
      assert (t + spaces)[1..] == t[1..] + spaces;
      TrimStartKeepsEnd(t[1..], spaces);
    } else {
      TrimEndSkips(t, spaces);
    }
  }

  lemma {:induction false} TrimStartEnds(t: Text)
    ensures TrimStart(t) != [] ==> !IsSpace(TrimStart(t)[0])
  {
    if t != [] && IsSpace(t[0]) {
      TrimStartEnds(t[1..]);
    }
  }

  lemma {:induction false} TrimEndEnds(t: Text)
    ensures TrimEnd(t) <= t
    ensures TrimEnd(t) != [] ==> !IsSpace(TrimEnd(t)[|TrimEnd(t)| - 1])
  {
    if t != [] && IsSpace(t[|t| - 1]) {
      TrimEndEnds(t[..|t| - 1]);
    }
  }

  lemma {:induction false} TrimStartTakes(t: Text) returns (i: nat)
    ensures i <= |t| && TrimStart(t) == t[i..] && AllSpaces(t[..i])
  {
    if t != [] && IsSpace(t[0]) {
      var k := TrimStartTakes(t[1..]);
      i := k + 1;
      SpacesAre(t[0]);
      assert t[..i] == [t[0]] + t[1..][..k];
    } else {
      i := 0;
    }
  }

  lemma {:induction false} TrimEndTakes(t: Text) returns (j: nat)
    ensures j <= |t| && TrimEnd(t) == t[..j] && AllSpaces(t[j..])
  {
    if t != [] && IsSpace(t[|t| - 1]) {
      j := TrimEndTakes(t[..|t| - 1]);
      SpacesAre(t[|t| - 1]);
      assert t[j..] == t[..|t| - 1][j..] + [t[|t| - 1]];
    } else {
      j := |t|;
    }
  }

  /** Where the bare middle of a text begins and ends. */
  lemma Middle(t: Text) returns (i: nat, j: nat)
    ensures i <= j <= |t| && Trim(t) == t[i..j]
    ensures AllSpaces(t[..i]) && AllSpaces(t[j..]) && Bare(t[i..j])
  {
    i := TrimStartTakes(t);
    var k := TrimEndTakes(t[i..]);
    j := i + k;
    assert t[i..][..k] == t[i..j] && t[i..][k..] == t[j..];
    TrimStartEnds(t);
    TrimEndEnds(TrimStart(t));
    if t[i..j] != [] {
      assert t[i..j][0] == t[i..][0];
      SpacesAre(t[i..j][0]);
      SpacesAre(t[i..j][|t[i..j]| - 1]);
    }
  }

  lemma BareIsTrimmed(t: Text)
    requires Bare(t)
    ensures Trim(t) == t
  {
    if t != [] {
      SpacesAre(t[0]);
      SpacesAre(t[|t| - 1]);
    }
    TrimPlain(t);
  }

  /** Adding spaces around a text does not change what trimming leaves. */
  lemma TrimIgnoresOuter(before: Text, t: Text, after: Text)
    requires AllSpaces(before) && AllSpaces(after)
    ensures Trim(before + t + after) == Trim(t)
  {
    assert before + t + after == before + (t + after);
    TrimStartSkips(before, t + after);
    TrimStartKeepsEnd(t, after);
  }
}
