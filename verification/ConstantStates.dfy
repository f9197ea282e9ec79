/** Ordinary values of expressions in states where every variable has one and the same value. */
module ConstantStates {
  import opened Wrappers
  import opened Text
  import opened Intervals
  import opened ExpressionEvaluator
  import opened ExpressionSoundness

  // ----- The atoms of a string -----

  /** The stretch from `a` to `b` lies between operators, or the ends, and holds none. */
  ghost predicate IsStretch(s: string, a: nat, b: nat) {
    && a <= b <= |s| && !HasOp(s[a..b])
    && (a == 0 || IsOp(s[a - 1])) && (b == |s| || IsOp(s[b]))
  }

  lemma OpsOfParts(s: string, i: nat)
    requires HasOp(s) && i == LastWhere(s, IsOp)
    ensures !HasOp(s[i + 1..])
  {
    var right := s[i + 1..];
    assert forall j | 0 <= j < |right| :: right[j] == s[i + 1 + j];
  }

  // ----- States in which every variable has one and the same value -----

  ghost predicate AtomIs(vars: Variables, env: Assignment, t: string, v: int) {
    Atom(vars, t) == Some(Point(v)) && AtomValue(env, t) == Some(v)
  }

  /** Under the state every atom is the point `v`, and under the assignment its value is `v`. */
  ghost predicate Constant(vars: Variables, env: Assignment, s: string, v: int) {
    forall a: nat, b: nat {:trigger IsStretch(s, a, b)} | IsStretch(s, a, b) :: AtomIs(vars, env, s[a..b], v)
  }

  lemma ConstantParts(vars: Variables, env: Assignment, s: string, v: int, i: nat)
    requires Constant(vars, env, s, v) && i < |s| && IsOp(s[i])
    ensures Constant(vars, env, s[..i], v) && Constant(vars, env, s[i + 1..], v)
  {
    var l, r := s[..i], s[i + 1..];
    forall a: nat, b: nat | IsStretch(l, a, b)
      ensures AtomIs(vars, env, l[a..b], v)
    {
      assert l[a..b] == s[a..b];
      assert IsStretch(s, a, b);
    }
    forall a: nat, b: nat | IsStretch(r, a, b)
      ensures AtomIs(vars, env, r[a..b], v)
    {
      var n: nat := i + 1;
      assert r == s[n..|s|];
      SliceOfSlice(s, n, |s|, a, b);
      assert IsStretch(s, n + a, n + b);
    }
  }

  lemma ConstantAtom(vars: Variables, env: Assignment, t: string, v: int)
    requires Constant(vars, env, t, v) && !HasOp(t)
    ensures Core(vars, t) == Some(Point(v)) && AtomValue(env, t) == Some(v) && TermValue(env, t) == Some(v) && Value(env, t) == Some(v)
  {
    assert t[0..|t|] == t;
    assert IsStretch(t, 0, |t|);
    assert !HasSum(t);
    ValueOfTerm(env, t);
  }

  ghost function Plus(s: string): nat { Count(s, '+') }

  ghost function Minus(s: string): nat { Count(s, '-') }

  ghost function Stars(s: string): nat { Count(s, '*') }

  /** Terms added, less terms subtracted. */
  ghost function Balance(s: string): int { 1 + Plus(s) - Minus(s) }

  lemma CountsAdd(s: string, i: nat)
    requires i < |s|
    ensures Plus(s) == Plus(s[..i]) + Plus(s[i + 1..]) + if s[i] == '+' then 1 else 0
    ensures Minus(s) == Minus(s[..i]) + Minus(s[i + 1..]) + if s[i] == '-' then 1 else 0
    ensures Stars(s) == Stars(s[..i]) + Stars(s[i + 1..]) + if s[i] == '*' then 1 else 0
  {
    CountOfParts(s, '+', i);
    CountOfParts(s, '-', i);
    CountOfParts(s, '*', i);
  }

  lemma NoSumIff(s: string)
    ensures !HasSum(s) <==> Plus(s) == 0 && Minus(s) == 0
  {
    CountIsZero(s, '+');
    CountIsZero(s, '-');
    if '+' !in s && '-' !in s {
      NoSumWithout(s);
    }
  }

  lemma NoOpIff(s: string)
    ensures !HasOp(s) <==> Plus(s) == 0 && Minus(s) == 0 && Stars(s) == 0
  {
    NoSumIff(s);
    CountIsZero(s, '*');
    if !HasSum(s) && '*' !in s {
      NoOpNoStar(s);
    }
  }

  // ----- Ordinary values in such states -----

  /** The last term taken off. */
  lemma SumStep(vars: Variables, env: Assignment, s: string, v: int, k: nat)
    requires Constant(vars, env, s, v) && HasSum(s) && k == LastWhere(s, IsSum)
    ensures Constant(vars, env, s[..k], v) && Constant(vars, env, s[k + 1..], v) && !HasSum(s[k + 1..])
    ensures Value(env, s) == Lift(s[k], Value(env, s[..k]), TermValue(env, s[k + 1..]))
    ensures Balance(s) == Balance(s[..k]) + if s[k] == '+' then 1 else -1
    ensures Stars(s) == Stars(s[..k]) + Stars(s[k + 1..])
  {
    ConstantParts(vars, env, s, v, k);
    CountsAdd(s, k);
    TailHasNoSum(s, k);
    NoSumIff(s[k + 1..]);
  }

  /** The last factor taken off. */
  lemma FactorStep(vars: Variables, env: Assignment, t: string, v: int, k: nat)
    requires Constant(vars, env, t, v) && HasOp(t) && k == LastWhere(t, IsOp)
    ensures Constant(vars, env, t[..k], v) && TermValue(env, t) == Lift('*', TermValue(env, t[..k]), Some(v))
  {
    ConstantParts(vars, env, t, v, k);
    OpsOfParts(t, k);
    ConstantAtom(vars, env, t[k + 1..], v);
  }

  lemma TermIsAtom(vars: Variables, env: Assignment, t: string, v: int)
    requires Constant(vars, env, t, v) && !HasSum(t) && Stars(t) == 0
    ensures TermValue(env, t) == Some(v) && Value(env, t) == Some(v) && Core(vars, t) == Some(Point(v))
  {
    NoSumIff(t);
    NoOpIff(t);
    ConstantAtom(vars, env, t, v);
  }

  /** The last term is subtracted. */
  ghost predicate EndsNegative(s: string) {
    HasSum(s) && s[LastWhere(s, IsSum)] == '-'
  }

  /** The last atom of a string without product signs, taken off. */
  lemma LastAtom(vars: Variables, env: Assignment, s: string, v: int) returns (init: string, op: char, x: string)
    requires Constant(vars, env, s, v) && Stars(s) == 0 && HasSum(s)
    ensures s == init + [op] + x && IsSum(op) && !HasOp(x) && (op == '-' <==> EndsNegative(s)) && |init| < |s|
    ensures Constant(vars, env, init, v) && Stars(init) == 0 && Value(env, x) == Some(v)
    ensures Value(env, s) == Lift(op, Value(env, init), Some(v)) && Balance(s) == Balance(init) + if op == '+' then 1 else -1
  {
    var k := LastWhere(s, IsSum);
    Recompose(s, k);
    init, op, x := s[..k], s[k], s[k + 1..];
    SumStep(vars, env, s, v, k);
    PlainAtom(vars, env, x, v);
  }

  lemma Recompose(s: string, k: nat)
    requires k < |s|
    ensures s == s[..k] + [s[k]] + s[k + 1..]
  {
  }

  lemma PlainAtom(vars: Variables, env: Assignment, x: string, v: int)
    requires Constant(vars, env, x, v) && !HasSum(x) && Stars(x) == 0
    ensures !HasOp(x) && Value(env, x) == Some(v) && TermValue(env, x) == Some(v)
  {
    TermIsAtom(vars, env, x, v);
    NoSumIff(x);
    NoOpIff(x);
  }

  lemma OneMoreTerm(n: int, op: char, v: int, whole: Option<int>, init: Option<int>, m: int)
    requires IsSum(op) && init == Some(n * v) && whole == Lift(op, init, Some(v)) && m == n + if op == '+' then 1 else -1
    ensures whole == Some(m * v)
  {
    if op == '+' {
      assert (n + 1) * v == n * v + v;
    } else {
      assert (n - 1) * v == n * v - v;
    }
  }

  /** Terms without product signs: only the number of signs matters. */
  lemma {:induction false} ValueByCounts(vars: Variables, env: Assignment, s: string, v: int)
    requires Constant(vars, env, s, v) && Stars(s) == 0
    ensures Value(env, s) == Some(Balance(s) * v)
    decreases |s|
  {
    if HasSum(s) {
      var init, op, x := LastAtom(vars, env, s, v);
      ValueByCounts(vars, env, init, v);
      OneMoreTerm(Balance(init), op, v, Value(env, s), Value(env, init), Balance(s));
    } else {
      OneAtom(vars, env, s, v);
    }
  }

  lemma {:induction false} OneAtom(vars: Variables, env: Assignment, s: string, v: int)
    requires Constant(vars, env, s, v) && Stars(s) == 0 && !HasSum(s)
    ensures Value(env, s) == Some(Balance(s) * v)
  {
    NoSumIff(s);
    TermIsAtom(vars, env, s, v);
  }

  /** Where everything is 1, so is every product. */
  lemma {:induction false} TermIsOne(vars: Variables, env: Assignment, t: string)
    requires Constant(vars, env, t, 1)
    ensures TermValue(env, t) == Some(1)
    decreases |t|
  {
    if HasOp(t) {
      var k := LastWhere(t, IsOp);
      FactorStep(vars, env, t, 1, k);
      TermIsOne(vars, env, t[..k]);
    } else {
      ConstantAtom(vars, env, t, 1);
    }
  }

  lemma {:induction false} ValueAtOne(vars: Variables, env: Assignment, s: string)
    requires Constant(vars, env, s, 1)
    ensures Value(env, s) == Some(Balance(s))
    decreases |s|
  {
    if HasSum(s) {
      var k := LastWhere(s, IsSum);
      ConstantParts(vars, env, s, 1, k);
      ValueAtOne(vars, env, s[..k]);
      OneMoreAtOne(vars, env, s, k);
    } else {
      OneTermAtOne(vars, env, s);
    }
  }

  lemma {:induction false} OneTermAtOne(vars: Variables, env: Assignment, s: string)
    requires Constant(vars, env, s, 1) && !HasSum(s)
    ensures Value(env, s) == Some(Balance(s))
  {
    TermIsOne(vars, env, s);
    ValueOfTerm(env, s);
    OneTermBalance(s);
  }

  lemma OneTermBalance(s: string)
    requires !HasSum(s)
    ensures Balance(s) == 1
  {
    NoSumIff(s);
  }

  lemma {:induction false} OneMoreAtOne(vars: Variables, env: Assignment, s: string, k: nat)
    requires Constant(vars, env, s, 1) && HasSum(s) && k == LastWhere(s, IsSum) && Value(env, s[..k]) == Some(Balance(s[..k]))
    ensures Value(env, s) == Some(Balance(s))
  {
    SumStep(vars, env, s, 1, k);
    TermIsOne(vars, env, s[k + 1..]);
    CountOn(s[k], Value(env, s[..k]), Value(env, s), Balance(s[..k]), Balance(s));
  }

  lemma CountOn(op: char, init: Option<int>, whole: Option<int>, n: int, m: int)
    requires IsSum(op) && init == Some(n) && whole == Lift(op, init, Some(1)) && m == n + if op == '+' then 1 else -1
    ensures whole == Some(m)
  {
  }

  /** Two sums whose last and first term, both `v`, are replaced by one product. */
  ghost function Joint(l: int, r: int, negative: bool, v: int, square: int): int {
    l + r - v + if negative then v - square else square - v
  }

  lemma ConstantHasValue(vars: Variables, env: Assignment, s: string, v: int)
    requires Constant(vars, env, s, v) && Stars(s) == 0
    ensures Value(env, s).Some?
  {
    ValueByCounts(vars, env, s, v);
  }

  lemma AtomTimesAtom(env: Assignment, x: string, y: string, v: int, square: int)
    requires !HasOp(x) && !HasOp(y) && Value(env, x) == Value(env, y) == Some(v) && square == v * v
    ensures !HasSum(x + ['*'] + y) && Value(env, x + ['*'] + y) == Some(square)
  {
    ValueOfProduct(env, x, y);
  }

  lemma SumTimesAtom(env: Assignment, l: string, init: string, op: char, x: string, y: string, v: int, square: int)
    requires !HasOp(x) && !HasOp(y) && Value(env, x) == Value(env, y) == Some(v) && square == v * v && IsSum(op)
    requires l == init + [op] + x
    ensures Value(env, l + ['*'] + y) == Lift(op, Value(env, init), Some(square))
  {
    var product := x + ['*'] + y;
    AtomTimesAtom(env, x, y, v, square);
    Reassociate(init, [op], x, ['*'], y);
    ValueOfJoinedSum(env, init, op, product);
  }

  lemma Reassociate(a: string, b: string, c: string, d: string, e: string)
    ensures (a + b + c) + d + e == a + b + (c + d + e)
  {
  }

  lemma StarTimesSum(env: Assignment, l: string, r: string, init: string, op: char, x: string, v: int)
    requires !HasOp(x) && Value(env, x) == Some(v) && IsSum(op) && r == init + [op] + x
    ensures Value(env, l + ['*'] + r) == Lift(op, Value(env, l + ['*'] + init), Some(v))
  {
    assert l + ['*'] + r == (l + ['*'] + init) + [op] + x;
    assert !HasSum(x);
    ValueOfJoinedSum(env, l + ['*'] + init, op, x);
  }

  lemma JointWithAtom(a: Option<int>, op: char, v: int, square: int, whole: Option<int>, left: Option<int>)
    requires a.Some? && IsSum(op) && whole == Lift(op, a, Some(square)) && left == Lift(op, a, Some(v))
    ensures left.Some? && whole == Some(Joint(left.value, v, op == '-', v, square))
  {
  }

  lemma JointWithSum(l: int, a: int, op: char, v: int, square: int, negative: bool, whole: Option<int>, right: Option<int>)
    requires IsSum(op) && whole == Lift(op, Some(Joint(l, a, negative, v, square)), Some(v)) && right == Lift(op, Some(a), Some(v))
    ensures right.Some? && whole == Some(Joint(l, right.value, negative, v, square))
  {
  }

  lemma {:induction false} StarBeforeAtom(vars: Variables, env: Assignment, l: string, y: string, v: int, square: int)
    requires Constant(vars, env, l, v) && Stars(l) == 0 && !HasOp(y) && Value(env, y) == Some(v) && square == v * v
    ensures Value(env, l).Some? && Value(env, l + ['*'] + y) == Some(Joint(Value(env, l).value, v, EndsNegative(l), v, square))
  {
    if HasSum(l) {
      SumBeforeAtom(vars, env, l, y, v, square);
    } else {
      AtomBeforeAtom(vars, env, l, y, v, square);
    }
  }

  lemma {:induction false} AtomBeforeAtom(vars: Variables, env: Assignment, l: string, y: string, v: int, square: int)
    requires Constant(vars, env, l, v) && Stars(l) == 0 && !HasSum(l) && !HasOp(y) && Value(env, y) == Some(v) && square == v * v
    ensures Value(env, l).Some? && Value(env, l + ['*'] + y) == Some(Joint(Value(env, l).value, v, EndsNegative(l), v, square))
  {
    PlainAtom(vars, env, l, v);
    AtomTimesAtom(env, l, y, v, square);
    assert Joint(v, v, false, v, square) == square;
  }

  lemma {:induction false} SumBeforeAtom(vars: Variables, env: Assignment, l: string, y: string, v: int, square: int)
    requires Constant(vars, env, l, v) && Stars(l) == 0 && HasSum(l) && !HasOp(y) && Value(env, y) == Some(v) && square == v * v
    ensures Value(env, l).Some? && Value(env, l + ['*'] + y) == Some(Joint(Value(env, l).value, v, EndsNegative(l), v, square))
  {
    var init, op, x := LastAtom(vars, env, l, v);
    ConstantHasValue(vars, env, init, v);
    SumTimesAtom(env, l, init, op, x, y, v, square);
    JointWithAtom(Value(env, init), op, v, square, Value(env, l + ['*'] + y), Value(env, l));
  }

  /** A product sign between two strings without one joins the last atom of the one to the first of the other. */
  lemma {:induction false} ValueOfStar(vars: Variables, env: Assignment, l: string, r: string, v: int, square: int)
    requires Constant(vars, env, l, v) && Constant(vars, env, r, v) && Stars(l) == Stars(r) == 0 && square == v * v
    ensures Value(env, l).Some? && Value(env, r).Some?
    ensures Value(env, l + ['*'] + r) == Some(Joint(Value(env, l).value, Value(env, r).value, EndsNegative(l), v, square))
    decreases |r|
  {
    if HasSum(r) {
      var init, op, x := LastAtom(vars, env, r, v);
      ValueOfStar(vars, env, l, init, v, square);
      StarTimesSum(env, l, r, init, op, x, v);
      JointWithSum(Value(env, l).value, Value(env, init).value, op, v, square, EndsNegative(l), Value(env, l + ['*'] + r), Value(env, r));
    } else {
      PlainAtom(vars, env, r, v);
      StarBeforeAtom(vars, env, l, r, v, square);
    }
  }
}
