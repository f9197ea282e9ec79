/** `JSON.stringify` on already normalised data, and why its text can be read back. */
module JsonText {
  import opened KeyOrder

  const QUOTE: Unit := 34
  const COMMA: Unit := 44
  const COLON: Unit := 58
  const OPEN_LIST: Unit := 91
  const BACKSLASH: Unit := 92
  const CLOSE_LIST: Unit := 93
  const OPEN_MAP: Unit := 123
  const CLOSE_MAP: Unit := 125

  // ----- Strings -----

  predicate Leading(u: Unit) { 0xD800 <= u <= 0xDBFF }

  predicate Trailing(u: Unit) { 0xDC00 <= u <= 0xDFFF }

  /** A surrogate that is not half of a pair; it is written as an escape. */
  predicate Lone(s: Text, i: nat)
    requires i < |s|
  {
    || (Leading(s[i]) && !(i + 1 < |s| && Trailing(s[i + 1])))
    || (Trailing(s[i]) && !(i > 0 && Leading(s[i - 1])))
  }

  function HexDigit(d: int): Unit
    requires 0 <= d < 16
  {
    if d < 10 then 48 + d else 87 + d
  }

  function Hex4(u: Unit): Text {
    [HexDigit(u / 16 / 16 / 16), HexDigit(u / 16 / 16 % 16), HexDigit(u / 16 % 16), HexDigit(u % 16)]
  }

  /** The letter of a two-character escape, or 0. */
  function ShortEscape(u: Unit): Unit {
    if u == 8 then 98 else if u == 9 then 116 else if u == 10 then 110 else if u == 12 then 102
    else if u == 13 then 114 else if u == QUOTE then QUOTE else if u == BACKSLASH then BACKSLASH else 0
  }

  function EscapeUnit(u: Unit, lone: bool): Text {
    if ShortEscape(u) != 0 then [BACKSLASH, ShortEscape(u)]
    else if u < 32 || lone then [BACKSLASH, 117] + Hex4(u)
    else [u]
  }

  function StringBody(s: Text, i: nat): Text
    requires i <= |s|
    decreases |s| - i
  {
    if i == |s| then [] else EscapeUnit(s[i], Lone(s, i)) + StringBody(s, i + 1)
  }

  function Quoted(s: Text): Text {
    [QUOTE] + StringBody(s, 0) + [QUOTE]
  }

  lemma Hex4IsInjective(u: Unit, v: Unit)
    requires Hex4(u) == Hex4(v)
    ensures u == v
  {
    var x, y := Hex4(u), Hex4(v);
    assert x[0] == y[0] && x[1] == y[1] && x[2] == y[2] && x[3] == y[3];
    assert u / 16 / 16 == v / 16 / 16;
    assert u / 16 == v / 16;
  }

  /** The text of one unit shows where it ends and which unit it is. */
  lemma UnitDecodes(u: Unit, a: bool, v: Unit, b: bool, r: Text, s: Text)
    requires EscapeUnit(u, a) + r == EscapeUnit(v, b) + s
    ensures u == v && r == s
  {
    var x, y := EscapeUnit(u, a), EscapeUnit(v, b);
    assert (x + r)[0] == (y + s)[0];
    if x[0] == BACKSLASH {
      assert (x + r)[1] == (y + s)[1];
      if x[1] == 117 {
        assert (x + r)[2..6] == Hex4(u) && (y + s)[2..6] == Hex4(v);
        Hex4IsInjective(u, v);
      }
    }
    assert (x + r)[|x|..] == r && (y + s)[|y|..] == s;
  }

  /** The rest of a string from unit `i` on, its closing quote, and what follows. */
  ghost function FromUnit(s: Text, i: nat, r: Text): Text
    requires i <= |s|
  {
    StringBody(s, i) + [QUOTE] + r
  }

  lemma FromUnitUnfolds(s: Text, i: nat, r: Text)
    requires i <= |s|
    ensures i == |s| ==> FromUnit(s, i, r) == [QUOTE] + r
    ensures i < |s| ==> FromUnit(s, i, r) == EscapeUnit(s[i], Lone(s, i)) + FromUnit(s, i + 1, r)
    ensures FromUnit(s, i, r)[0] == QUOTE <==> i == |s|
  {
    if i < |s| {
      var e := EscapeUnit(s[i], Lone(s, i));
      assert e + StringBody(s, i + 1) + [QUOTE] + r == e + (StringBody(s, i + 1) + [QUOTE] + r);
    }
  }

  lemma {:induction false} BodyDecodes(s: Text, i: nat, t: Text, j: nat, r1: Text, r2: Text)
    requires i <= |s| && j <= |t| && FromUnit(s, i, r1) == FromUnit(t, j, r2)
    ensures s[i..] == t[j..] && r1 == r2
    decreases |s| - i
  {
    FromUnitUnfolds(s, i, r1);
    FromUnitUnfolds(t, j, r2);
    if i == |s| {
      assert ([QUOTE] + r1)[1..] == r1 && ([QUOTE] + r2)[1..] == r2;
    } else {
      UnitDecodes(s[i], Lone(s, i), t[j], Lone(t, j), FromUnit(s, i + 1, r1), FromUnit(t, j + 1, r2));
      BodyDecodes(s, i + 1, t, j + 1, r1, r2);
    }
  }

  lemma QuotedDecodes(s: Text, t: Text, r1: Text, r2: Text)
    requires Quoted(s) + r1 == Quoted(t) + r2
    ensures s == t && r1 == r2
  {
    var left, right := FromUnit(s, 0, r1), FromUnit(t, 0, r2);
    assert Quoted(s) + r1 == [QUOTE] + left && Quoted(t) + r2 == [QUOTE] + right;
    assert left == ([QUOTE] + left)[1..] && right == ([QUOTE] + right)[1..];
    BodyDecodes(s, 0, t, 0, r1, r2);
  }
}
