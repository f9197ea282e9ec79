/** White space and trimming, for the two languages whose `trim` the sources call. */
module Text {

  predicate IsSharedSpace(c: char) {
    || '\t' <= c <= '\r'
    || c == ' ' || c == '\U{A0}' || c == '\U{1680}'
    || '\U{2000}' <= c <= '\U{200A}'
    || c == '\U{2028}' || c == '\U{2029}' || c == '\U{202F}' || c == '\U{205F}' || c == '\U{3000}'
  }

  /** What `String.prototype.trim` removes. */
  predicate IsScriptSpace(c: char) {
    IsSharedSpace(c) || c == '\U{FEFF}'
  }

  /** What Rust's `str::trim` removes. */
  predicate IsRustSpace(c: char) {
    IsSharedSpace(c) || c == '\U{85}'
  }

  /** The first index at or after `i` that does not hold white space. */
  function FirstSolid(s: string, space: char -> bool, i: nat): (a: nat)
    requires i <= |s|
    ensures i <= a <= |s|
    ensures forall k | i <= k < a :: space(s[k])
    ensures a < |s| ==> !space(s[a])
    decreases |s| - i
  {
    if i == |s| || !space(s[i]) then i else FirstSolid(s, space, i + 1)
  }

  /** The end of the text that stops at or before `j`, once trailing white space is dropped. */
  function SolidEnd(s: string, space: char -> bool, i: nat, j: nat): (b: nat)
    requires i <= j <= |s|
    ensures i <= b <= j
    ensures forall k | b <= k < j :: space(s[k])
    ensures i < b ==> !space(s[b - 1])
    decreases j
  {
    if i == j || !space(s[j - 1]) then j else SolidEnd(s, space, i, j - 1)
  }

  function Trim(s: string, space: char -> bool): string {
    var a := FirstSolid(s, space, 0);
    s[a..SolidEnd(s, space, a, |s|)]
  }

  predicate Blank(s: string) {
    Trim(s, IsScriptSpace) == ""
  }

  lemma {:induction false} TrimIsIdempotent(s: string, space: char -> bool)
    ensures Trim(Trim(s, space), space) == Trim(s, space)
  {
    var t := Trim(s, space);
    var a := FirstSolid(s, space, 0);
    var b := SolidEnd(s, space, a, |s|);
    if t != [] {
      assert t[0] == s[a] && t[|t| - 1] == s[b - 1];
    }
  }

  /** White space off both ends until something solid, or nothing, is left: that is the trimmed text. */
  lemma {:induction false} TrimIs(s: string, space: char -> bool, p: nat, q: nat)
    requires p <= q <= |s| && forall i | 0 <= i < p || q <= i < |s| :: space(s[i])
    requires p < q ==> !space(s[p]) && !space(s[q - 1])
    ensures Trim(s, space) == s[p..q]
  {
    var a := FirstSolid(s, space, 0);
    var b := SolidEnd(s, space, a, |s|);
    if p < q {
      assert a == p;
      assert b == q;
    } else {
      assert a == |s|;
    }
  }

  lemma SliceOfSlice(s: string, a: nat, b: nat, p: nat, q: nat)
    requires a <= b <= |s| && p <= q <= b - a
    ensures s[a..b][p..q] == s[a + p..a + q]
  {
    var inner, outer := s[a..b][p..q], s[a + p..a + q];
    assert |inner| == |outer| && forall i | 0 <= i < |inner| :: inner[i] == outer[i];
  }

  /** White space at the ends does not matter to trimming. */
  lemma {:induction false} TrimOfInner(s: string, space: char -> bool, a: nat, b: nat)
    requires a <= b <= |s| && forall i | 0 <= i < a || b <= i < |s| :: space(s[i])
    ensures Trim(s, space) == Trim(s[a..b], space)
  {
    var t := s[a..b];
    var p := FirstSolid(t, space, 0);
    var q := SolidEnd(t, space, p, |t|);
    SliceOfSlice(s, a, b, p, q);
    forall i | 0 <= i < a + p || a + q <= i < |s|
      ensures space(s[i])
    {
      if a <= i < b {
        assert s[i] == t[i - a];
      }
    }
    TrimIs(s, space, a + p, a + q);
  }
}
