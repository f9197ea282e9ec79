/** Evaluating expression strings over intervals, against ordinary operator precedence. */
module ExpressionEvaluator {
  import opened Wrappers
  import opened Sequences
  import opened Text
  import opened Intervals

  type Variables = map<string, Interval>

  predicate IsSum(c: char) { c == '+' || c == '-' }

  predicate IsOp(c: char) { IsSum(c) || c == '*' }

  predicate HasSum(s: string) { exists i | 0 <= i < |s| :: IsSum(s[i]) }

  predicate HasOp(s: string) { exists i | 0 <= i < |s| :: IsOp(s[i]) }

  function Count(s: string, c: char): nat {
    multiset(s)[c]
  }

  predicate AllDigits(s: string) {
    s != [] && forall i | 0 <= i < |s| :: '0' <= s[i] <= '9'
  }

  function Number(s: string): nat
    requires forall i | 0 <= i < |s| :: '0' <= s[i] <= '9'
  {
    if s == [] then 0 else 10 * Number(s[..|s| - 1]) + (s[|s| - 1] as int - '0' as int)
  }

  /** A number in decimal digits. */
  function Digits(n: nat): string {
    if n < 10 then ['0' + n as char] else Digits(n / 10) + ['0' + (n % 10) as char]
  }

  lemma {:induction false} NumberReadsBack(n: nat)
    ensures AllDigits(Digits(n)) && Number(Digits(n)) == n
  {
    if n >= 10 {
      NumberReadsBack(n / 10);
      assert Digits(n)[..|Digits(n)| - 1] == Digits(n / 10);
    } else {
      assert Digits(n)[..0] == [];
    }
  }

  function Operate(op: char, a: Interval, b: Interval): Interval {
    if op == '+' then Add(a, b) else if op == '-' then Sub(a, b) else Mul(a, b)
  }

  // ----- The evaluator -----

  function Evaluate(vars: Variables, expr: string): Option<Interval>
    decreases |expr|, 2
  {
    EvaluateTrimmed(vars, Trim(expr, IsScriptSpace))
  }

  /** A literal, a variable, or the first of the three operators that occurs once and splits well. */
  function EvaluateTrimmed(vars: Variables, e: string): Option<Interval>
    decreases |e|, 1
  {
    if AllDigits(e) then Some(Point(Number(e)))
    else if e in vars then Some(vars[e])
    else
      var sum := Split(vars, e, '+');
      if sum.Some? then sum
      else
        var difference := Split(vars, e, '-');
        if difference.Some? then difference else Split(vars, e, '*')
  }

  /** `split(op)` into exactly two parts that both evaluate. */
  function Split(vars: Variables, e: string, op: char): Option<Interval>
    decreases |e|, 0
  {
    if Count(e, op) != 1 then None
    else
      var i := FirstIndex(e, op);
      var left, right := Evaluate(vars, e[..i]), Evaluate(vars, e[i + 1..]);
      if left.Some? && right.Some? then Some(Operate(op, left.value, right.value)) else None
  }

  // ----- The reference: ordinary precedence, left to right -----

  type Assignment = map<string, int>

  function LastWhere(s: string, p: char -> bool): (k: nat)
    requires exists i :: 0 <= i < |s| && p(s[i])
    ensures k < |s| && p(s[k]) && forall i | k < i < |s| :: !p(s[i])
  {
    if p(s[|s| - 1]) then |s| - 1 else LastWhere(s[..|s| - 1], p)
  }

  function Lift(op: char, a: Option<int>, b: Option<int>): Option<int> {
    if a.None? || b.None? then None
    else Some(if op == '+' then a.value + b.value else if op == '-' then a.value - b.value else a.value * b.value)
  }

  function AtomValue(env: Assignment, s: string): Option<int> {
    var t := Trim(s, IsScriptSpace);
    if AllDigits(t) then Some(Number(t)) else if t in env then Some(env[t]) else None
  }

  /** A term: atoms joined by product signs, from left to right. */
  function TermValue(env: Assignment, s: string): Option<int>
    decreases |s|
  {
    if HasOp(s) then
      var i := LastWhere(s, IsOp);
      Lift('*', TermValue(env, s[..i]), AtomValue(env, s[i + 1..]))
    else AtomValue(env, s)
  }

  /** Terms joined by plus and minus signs, from left to right. */
  function SumOf(s: string, term: string -> Option<int>): Option<int>
    decreases |s|
  {
    if HasSum(s) then
      var i := LastWhere(s, IsSum);
      Lift(s[i], SumOf(s[..i], term), term(s[i + 1..]))
    else term(s)
  }

  function TermsUnder(env: Assignment): string -> Option<int> {
    t => TermValue(env, t)
  }

  function Value(env: Assignment, s: string): Option<int> {
    SumOf(s, TermsUnder(env))
  }

  /** One value for each variable, from its interval. */
  ghost predicate DrawnFrom(env: Assignment, vars: Variables) {
    env.Keys == vars.Keys && forall v | v in vars :: Contains(vars[v], env[v])
  }

  /** No part of the string is the name of a variable that holds an operator. */
  ghost predicate PlainNames(vars: Variables, s: string) {
    forall a, b | 0 <= a <= b <= |s| :: s[a..b] in vars ==> !HasOp(s[a..b])
  }

  lemma PlainNamesOfPart(vars: Variables, s: string, p: nat, q: nat)
    requires PlainNames(vars, s) && p <= q <= |s|
    ensures PlainNames(vars, s[p..q])
  {
    forall a, b | 0 <= a <= b <= |s[p..q]|
      ensures s[p..q][a..b] in vars ==> !HasOp(s[p..q][a..b])
    {
      SliceOfSlice(s, p, q, a, b);
    }
  }

  // ----- The evaluator without trimming between the operators -----

  function Atom(vars: Variables, s: string): Option<Interval> {
    var t := Trim(s, IsScriptSpace);
    if AllDigits(t) then Some(Point(Number(t))) else if t in vars then Some(vars[t]) else None
  }

  function Core(vars: Variables, s: string): Option<Interval>
    decreases |s|, 1
  {
    if !HasOp(s) then Atom(vars, s)
    else
      var sum := CoreSplit(vars, s, '+');
      if sum.Some? then sum
      else
        var difference := CoreSplit(vars, s, '-');
        if difference.Some? then difference else CoreSplit(vars, s, '*')
  }

  function CoreSplit(vars: Variables, s: string, op: char): Option<Interval>
    decreases |s|, 0
  {
    if Count(s, op) != 1 then None
    else
      var i := FirstIndex(s, op);
      var left, right := Core(vars, s[..i]), Core(vars, s[i + 1..]);
      if left.Some? && right.Some? then Some(Operate(op, left.value, right.value)) else None
  }

  lemma CountIsZero(s: string, c: char)
    ensures Count(s, c) == 0 <==> c !in s
  {
  }

  lemma CountOfParts(s: string, c: char, i: nat)
    requires i < |s|
    ensures Count(s, c) == Count(s[..i], c) + (if s[i] == c then 1 else 0) + Count(s[i + 1..], c)
  {
    assert s == s[..i] + [s[i]] + s[i + 1..];
  }

  /** The only occurrence: neither part has another. */
  lemma OnlyOnce(s: string, c: char)
    requires Count(s, c) == 1
    ensures c in s && var i := FirstIndex(s, c); c !in s[..i] && c !in s[i + 1..]
  {
    var i := FirstIndex(s, c);
    CountOfParts(s, c, i);
  }

  lemma TrimSlice(s: string) returns (a: nat, b: nat)
    ensures a <= b <= |s| && Trim(s, IsScriptSpace) == s[a..b]
    ensures forall i | 0 <= i < a || b <= i < |s| :: IsScriptSpace(s[i])
  {
    a := FirstSolid(s, IsScriptSpace, 0);
    b := SolidEnd(s, IsScriptSpace, a, |s|);
  }

  /** White space is no operator: the slice inside it has the same operators, shifted. */
  lemma InnerHasSameOps(s: string, a: nat, b: nat, op: char)
    requires a <= b <= |s| && IsOp(op) && forall i | 0 <= i < a || b <= i < |s| :: IsScriptSpace(s[i])
    ensures Count(s[a..b], op) == Count(s, op)
    ensures op in s <==> op in s[a..b]
  {
    assert s == s[..a] + s[a..b] + s[b..];
    assert op !in s[..a] && op !in s[b..];
  }

  lemma InnerFirstIndex(s: string, a: nat, b: nat, op: char)
    requires a <= b <= |s| && IsOp(op) && forall i | 0 <= i < a || b <= i < |s| :: IsScriptSpace(s[i])
    requires op in s && op in s[a..b]
    ensures FirstIndex(s, op) == a + FirstIndex(s[a..b], op)
  {
    var e := s[a..b];
    var i, j := FirstIndex(s, op), FirstIndex(e, op);
    assert e[j] == s[a + j] && e[i - a] == s[i];
    assert forall k | 0 <= k < i :: s[..i][k] == s[k];
    assert forall k | 0 <= k < j :: e[..j][k] == e[k];
  }

  /** Trimming each part only when it is an atom gives the same result. */
  lemma {:induction false} EvaluateIsCore(vars: Variables, s: string)
    requires PlainNames(vars, s)
    ensures Evaluate(vars, s) == Core(vars, s)
    decreases |s|, 1
  {
    var a, b := TrimSlice(s);
    if HasOp(s) {
      InnerHasOp(s, a, b);
      SplitIsCore(vars, s, a, b, '+');
      SplitIsCore(vars, s, a, b, '-');
      SplitIsCore(vars, s, a, b, '*');
    } else {
      NoOpNoSplit(vars, s, a, b);
    }
  }

  lemma InnerHasOp(s: string, a: nat, b: nat)
    requires a <= b <= |s| && HasOp(s) && forall i | 0 <= i < a || b <= i < |s| :: IsScriptSpace(s[i])
    ensures HasOp(s[a..b]) && !AllDigits(s[a..b])
  {
    var e := s[a..b];
    var i :| 0 <= i < |s| && IsOp(s[i]);
    assert a <= i < b && e[i - a] == s[i];
  }

  lemma NoOpNoSplit(vars: Variables, s: string, a: nat, b: nat)
    requires a <= b <= |s| && !HasOp(s)
    ensures Split(vars, s[a..b], '+').None? && Split(vars, s[a..b], '-').None? && Split(vars, s[a..b], '*').None?
  {
    var e := s[a..b];
    forall c | IsOp(c)
      ensures Count(e, c) == 0
    {
      CountIsZero(e, c);
      assert forall i | 0 <= i < |e| :: e[i] == s[a + i];
    }
  }

  lemma {:induction false} SplitIsCore(vars: Variables, s: string, a: nat, b: nat, op: char)
    requires PlainNames(vars, s) && IsOp(op) && a <= b <= |s|
    requires forall i | 0 <= i < a || b <= i < |s| :: IsScriptSpace(s[i])
    ensures Split(vars, s[a..b], op) == CoreSplit(vars, s, op)
    decreases |s|, 0
  {
    InnerHasSameOps(s, a, b, op);
    if Count(s, op) == 1 {
      var i, k := SplitPoints(s, a, b, op);
      PartIsCore(vars, s, 0, i, s[a..b][..k]);
      PartIsCore(vars, s, i + 1, |s|, s[a..b][k + 1..]);
      Ends(s, i);
      SplitsAlike(vars, s[a..b], s, op);
    }
  }

  /** Where the only operator stands, and that its two sides differ from those of the inner text by white space only. */
  lemma SplitPoints(s: string, a: nat, b: nat, op: char) returns (i: nat, k: nat)
    requires IsOp(op) && a <= b <= |s| && Count(s, op) == 1 && Count(s[a..b], op) == 1
    requires forall i | 0 <= i < a || b <= i < |s| :: IsScriptSpace(s[i])
    ensures op in s && op in s[a..b] && i == FirstIndex(s, op) && k == FirstIndex(s[a..b], op)
    ensures k < |s[a..b]| && i < |s|
    ensures Trim(s[a..b][..k], IsScriptSpace) == Trim(s[0..i], IsScriptSpace)
    ensures Trim(s[a..b][k + 1..], IsScriptSpace) == Trim(s[i + 1..|s|], IsScriptSpace)
  {
    OnlyOnce(s, op);
    OnlyOnce(s[a..b], op);
    InnerFirstIndex(s, a, b, op);
    i, k := FirstIndex(s, op), FirstIndex(s[a..b], op);
    TrimOfParts(s, a, b, i, k);
    Ends(s, i);
  }

  lemma {:induction false} PartIsCore(vars: Variables, s: string, p: nat, q: nat, x: string)
    requires PlainNames(vars, s) && p <= q <= |s| && q - p < |s| && Trim(x, IsScriptSpace) == Trim(s[p..q], IsScriptSpace)
    ensures Evaluate(vars, x) == Core(vars, s[p..q])
    decreases |s| - 1, 2
  {
    PlainNamesOfPart(vars, s, p, q);
    EvaluateByTrim(vars, x, s[p..q]);
    EvaluateIsCore(vars, s[p..q]);
  }

  lemma EvaluateByTrim(vars: Variables, x: string, y: string)
    requires Trim(x, IsScriptSpace) == Trim(y, IsScriptSpace)
    ensures Evaluate(vars, x) == Evaluate(vars, y)
  {
  }

  lemma SplitsAlike(vars: Variables, e: string, s: string, op: char)
    requires Count(e, op) == Count(s, op) == 1 && op in e && op in s
    requires var k, i := FirstIndex(e, op), FirstIndex(s, op);
             Evaluate(vars, e[..k]) == Core(vars, s[..i]) && Evaluate(vars, e[k + 1..]) == Core(vars, s[i + 1..])
    ensures Split(vars, e, op) == CoreSplit(vars, s, op)
  {
  }

  lemma Ends(s: string, i: nat)
    requires i < |s|
    ensures s[0..i] == s[..i] && s[i + 1..|s|] == s[i + 1..]
  {
  }

  lemma TrimOfParts(s: string, a: nat, b: nat, i: nat, k: nat)
    requires a <= i < b <= |s| && i == a + k && forall j | 0 <= j < a || b <= j < |s| :: IsScriptSpace(s[j])
    ensures Trim(s[a..b][..k], IsScriptSpace) == Trim(s[..i], IsScriptSpace)
    ensures Trim(s[a..b][k + 1..], IsScriptSpace) == Trim(s[i + 1..], IsScriptSpace)
  {
    var e, left, right := s[a..b], s[..i], s[i + 1..];
    var n := b - i - 1;
    assert e[..k] == left[a..i];
    assert forall j | 0 <= j < |left| :: left[j] == s[j];
    TrimOfInner(left, IsScriptSpace, a, i);
    assert e[k + 1..] == right[0..n];
    assert forall j | 0 <= j < |right| :: right[j] == s[i + 1 + j];
    TrimOfInner(right, IsScriptSpace, 0, n);
  }
}
