/** Which expressions over variables are evaluated soundly in every state. */
module ExpressionExactness {
  import opened Wrappers
  import opened Sequences
  import opened Text
  import opened Intervals
  import opened ExpressionEvaluator
  import opened ExpressionSoundness
  import opened ConstantStates

  // ----- Results in such states -----

  /** The operator that the evaluator splits at. */
  ghost function Chosen(vars: Variables, s: string): char {
    if CoreSplit(vars, s, '+').Some? then '+' else if CoreSplit(vars, s, '-').Some? then '-' else '*'
  }

  lemma {:induction false} ChosenOperation(vars: Variables, s: string) returns (i: nat)
    requires HasOp(s) && Core(vars, s).Some?
    ensures var op := Chosen(vars, s);
            && IsOp(op) && i < |s| && s[i] == op && Count(s[..i], op) == Count(s[i + 1..], op) == 0
            && Core(vars, s[..i]).Some? && Core(vars, s[i + 1..]).Some?
            && Core(vars, s) == Some(Operate(op, Core(vars, s[..i]).value, Core(vars, s[i + 1..]).value))
  {
    i := SplitParts(vars, s, Chosen(vars, s));
    SplitResult(vars, s, Chosen(vars, s), i);
  }

  lemma {:induction false} SplitResult(vars: Variables, s: string, op: char, i: nat)
    requires CoreSplit(vars, s, op).Some? && i < |s| && s[i] == op && Count(s[..i], op) == Count(s[i + 1..], op) == 0
    ensures CoreSplit(vars, s, op) == Some(Operate(op, Core(vars, s[..i]).value, Core(vars, s[i + 1..]).value))
  {
    OnlyOnce(s, op);
    var j := FirstIndex(s, op);
    CountIsZero(s[..i], op);
    CountIsZero(s[i + 1..], op);
    assert j == i;
  }

  lemma OperatePoints(op: char, x: int, y: int)
    requires IsOp(op)
    ensures Operate(op, Point(x), Point(y)) == Point(if op == '+' then x + y else if op == '-' then x - y else x * y)
  {
    MulByPoint(x, y);
  }

  ghost predicate AllPoints(vars: Variables) {
    forall x | x in vars :: vars[x].min == vars[x].max
  }

  lemma {:induction false} PointsStayPoints(vars: Variables, s: string) returns (p: int)
    requires AllPoints(vars) && Core(vars, s).Some?
    ensures Core(vars, s) == Some(Point(p))
    decreases |s|
  {
    if HasOp(s) {
      var i := ChosenOperation(vars, s);
      var x := PointsStayPoints(vars, s[..i]);
      var y := PointsStayPoints(vars, s[i + 1..]);
      OperatePoints(Chosen(vars, s), x, y);
      p := Operate(Chosen(vars, s), Point(x), Point(y)).min;
    } else {
      p := Atom(vars, s).value.min;
    }
  }

  /** A state of points that the assignment is drawn from. */
  ghost predicate Flat(vars: Variables, env: Assignment, s: string, v: int) {
    DrawnFrom(env, vars) && AllPoints(vars) && Constant(vars, env, s, v)
  }

  /** A simple string evaluates to its value. */
  lemma {:induction false} SimpleIsExact(vars: Variables, env: Assignment, s: string, v: int)
    requires Flat(vars, env, s, v) && Simple(s) && Core(vars, s).Some?
    ensures Value(env, s).Some? && Core(vars, s) == Some(Point(Value(env, s).value))
  {
    CoreIsSound(vars, env, s);
    EnclosingPoint(vars, env, s);
  }

  /** The result is the point of the ordinary value. */
  ghost predicate Agrees(vars: Variables, env: Assignment, s: string) {
    Value(env, s).Some? && Core(vars, s) == Some(Point(Value(env, s).value))
  }

  /** A point that contains the value is the value. */
  lemma {:induction false} EnclosingPoint(vars: Variables, env: Assignment, s: string)
    requires AllPoints(vars) && Core(vars, s).Some? && Encloses(Core(vars, s), Value(env, s))
    ensures Agrees(vars, env, s)
  {
    var p := PointsStayPoints(vars, s);
    OnlyMember(Core(vars, s), Value(env, s), p);
  }

  lemma OnlyMember(i: Option<Interval>, v: Option<int>, p: int)
    requires i == Some(Point(p)) && Encloses(i, v)
    ensures v == Some(p)
  {
  }

  lemma SimpleAtPlus(s: string, i: nat)
    requires i < |s| && s[i] == '+' && Plus(s[..i]) == Plus(s[i + 1..]) == 0 && Minus(s[..i]) <= 1 && Minus(s[i + 1..]) <= 1
    ensures Simple(s)
  {
    var j := FirstIndex(s, '+');
    CountIsZero(s[..i], '+');
    CountIsZero(s[i + 1..], '+');
    assert j == i;
  }

  lemma SimpleByCounts(s: string)
    requires Plus(s) <= 1 && Minus(s) <= 1
    ensures Simple(s)
  {
    CountIsZero(s, '+');
    if Plus(s) == 1 {
      var i := FirstIndex(s, '+');
      CountsAdd(s, i);
      SimpleAtPlus(s, i);
    }
  }

  lemma SimplePlus(s: string)
    requires Simple(s)
    ensures Plus(s) <= 1 && Balance(s) >= 0
  {
    CountIsZero(s, '+');
    if '+' in s {
      var i := FirstIndex(s, '+');
      CountsAdd(s, i);
      CountIsZero(s[..i], '+');
      CountIsZero(s[i + 1..], '+');
    }
  }

  /** With only one kind of operator there is at most one of it. */
  lemma {:induction false} OneKind(vars: Variables, s: string)
    requires Core(vars, s).Some?
    ensures Plus(s) == 0 && Stars(s) == 0 ==> Minus(s) <= 1
    ensures Minus(s) == 0 && Stars(s) == 0 ==> Plus(s) <= 1
  {
    NoOpIff(s);
    if HasOp(s) {
      var i := ChosenOperation(vars, s);
      CountsAdd(s, i);
    }
  }

  lemma {:induction false} ExactByCounts(vars: Variables, env: Assignment, s: string, v: int)
    requires Flat(vars, env, s, v) && Core(vars, s).Some? && Simple(s) && Stars(s) == 0
    ensures Core(vars, s) == Some(Point(Balance(s) * v))
  {
    SimpleIsExact(vars, env, s, v);
    ValueByCounts(vars, env, s, v);
  }

  lemma FlatParts(vars: Variables, env: Assignment, s: string, v: int, i: nat)
    requires Flat(vars, env, s, v) && i < |s| && IsOp(s[i])
    ensures Flat(vars, env, s[..i], v) && Flat(vars, env, s[i + 1..], v)
  {
    ConstantParts(vars, env, s, v, i);
  }

  // ----- The strings that are not simple -----

  /** Without plus signs: two minus signs around the product sign, and the result is 0. */
  lemma {:induction false} WithoutPlus(vars: Variables, env: Assignment, s: string, v: int)
    requires Flat(vars, env, s, v) && Core(vars, s).Some? && Plus(s) == 0 && Minus(s) >= 2
    ensures Minus(s) == 2 && Core(vars, s) == Some(Point(0))
  {
    NoOpIff(s);
    var i := ChosenOperation(vars, s);
    CountsAdd(s, i);
    FlatParts(vars, env, s, v, i);
    OneKind(vars, s[..i]);
    OneKind(vars, s[i + 1..]);
    SimpleByCounts(s[..i]);
    SimpleByCounts(s[i + 1..]);
    ExactByCounts(vars, env, s[..i], v);
    ExactByCounts(vars, env, s[i + 1..], v);
    OperatePoints('*', 0, 0);
  }

  /** Without minus signs: two plus signs around the product sign. */
  lemma {:induction false} WithoutMinus(vars: Variables, env: Assignment, s: string)
    requires Flat(vars, env, s, 1) && Core(vars, s).Some? && Minus(s) == 0 && Plus(s) >= 2
    ensures Plus(s) == 2 && Core(vars, s) == Some(Point(4))
  {
    NoOpIff(s);
    var i := ChosenOperation(vars, s);
    CountsAdd(s, i);
    FlatParts(vars, env, s, 1, i);
    OneKind(vars, s[..i]);
    OneKind(vars, s[i + 1..]);
    SimpleByCounts(s[..i]);
    SimpleByCounts(s[i + 1..]);
    ExactByCounts(vars, env, s[..i], 1);
    ExactByCounts(vars, env, s[i + 1..], 1);
    OperatePoints('*', 2, 2);
  }

  /** What a string without product signs comes to: its value if simple, otherwise 0. */
  ghost function Factor(s: string): int {
    if Simple(s) then Balance(s) else 0
  }

  /** Without product signs: simple, or two plus signs around the minus sign. */
  lemma {:induction false} WithoutStar(vars: Variables, env: Assignment, s: string, v: int)
    requires Flat(vars, env, s, v) && Core(vars, s).Some? && Stars(s) == 0
    ensures Core(vars, s) == Some(Point(Factor(s) * v)) && Balance(s) >= 0 && (Simple(s) || Balance(s) == 2)
  {
    if Simple(s) {
      SimplePlus(s);
      ExactByCounts(vars, env, s, v);
    } else {
      NotSimpleWithoutStar(vars, env, s, v);
    }
  }

  lemma {:induction false} NotSimpleWithoutStar(vars: Variables, env: Assignment, s: string, v: int)
    requires Flat(vars, env, s, v) && Core(vars, s).Some? && Stars(s) == 0 && !Simple(s)
    ensures Core(vars, s) == Some(Point(0)) && Balance(s) == 2
  {
    NoOpIff(s);
    if Plus(s) <= 1 && Minus(s) <= 1 {
      SimpleByCounts(s);
    }
    var i := ChosenOperation(vars, s);
    CountsAdd(s, i);
    OneKind(vars, s[..i]);
    OneKind(vars, s[i + 1..]);
    if Chosen(vars, s) == '+' {
      SimpleAtPlus(s, i);
    }
    DifferenceOfSums(vars, env, s, v, i);
  }

  lemma {:induction false} DifferenceOfSums(vars: Variables, env: Assignment, s: string, v: int, i: nat)
    requires Flat(vars, env, s, v) && i < |s| && s[i] == '-' && Core(vars, s[..i]).Some? && Core(vars, s[i + 1..]).Some?
    requires Core(vars, s) == Some(Operate('-', Core(vars, s[..i]).value, Core(vars, s[i + 1..]).value))
    requires Stars(s) == 0 && Plus(s[..i]) == Plus(s[i + 1..]) == 1 && Minus(s[..i]) == Minus(s[i + 1..]) == 0
    ensures Core(vars, s) == Some(Point(0)) && Balance(s) == 2
  {
    CountsAdd(s, i);
    FlatParts(vars, env, s, v, i);
    SimpleByCounts(s[..i]);
    SimpleByCounts(s[i + 1..]);
    ExactByCounts(vars, env, s[..i], v);
    ExactByCounts(vars, env, s[i + 1..], v);
    OperatePoints('-', 2 * v, 2 * v);
  }

  /** Of a string without plus signs, the result at 1: its value, or 0 instead of -1. */
  lemma {:induction false} WithoutPlusAtOne(vars: Variables, env: Assignment, s: string)
    requires Flat(vars, env, s, 1) && Core(vars, s).Some? && Plus(s) == 0
    ensures Core(vars, s) == Some(Point(if Minus(s) <= 1 then Balance(s) else 0)) && Balance(s) >= -1
  {
    if Minus(s) <= 1 {
      SimpleByCounts(s);
      SimpleIsExact(vars, env, s, 1);
      ValueAtOne(vars, env, s);
    } else {
      WithoutPlus(vars, env, s, 1);
    }
  }

  lemma {:induction false} WithoutMinusAtOne(vars: Variables, env: Assignment, s: string)
    requires Flat(vars, env, s, 1) && Core(vars, s).Some? && Minus(s) == 0
    ensures Plus(s) <= 2 && Core(vars, s) == Some(Point(if Plus(s) <= 1 then Balance(s) else 4))
  {
    if Plus(s) <= 1 {
      SimpleByCounts(s);
      SimpleIsExact(vars, env, s, 1);
      ValueAtOne(vars, env, s);
    } else {
      WithoutMinus(vars, env, s);
    }
  }

  // ----- They are evaluated wrongly where everything is 1, or where everything is 2 -----

  lemma {:induction false} SplitAtPlusFails(vars: Variables, env: Assignment, s: string)
    requires Flat(vars, env, s, 1) && HasOp(s) && Core(vars, s).Some? && Chosen(vars, s) == '+' && !Simple(s)
    ensures Core(vars, s) != Some(Point(Balance(s)))
  {
    var i := ChosenOperation(vars, s);
    CountsAdd(s, i);
    FlatParts(vars, env, s, 1, i);
    WithoutPlusAtOne(vars, env, s[..i]);
    WithoutPlusAtOne(vars, env, s[i + 1..]);
    if Minus(s[..i]) <= 1 && Minus(s[i + 1..]) <= 1 {
      SimpleAtPlus(s, i);
    }
    WithoutPlusBalance(vars, env, s[..i]);
    WithoutPlusBalance(vars, env, s[i + 1..]);
  }

  lemma {:induction false} WithoutPlusBalance(vars: Variables, env: Assignment, s: string)
    requires Flat(vars, env, s, 1) && Core(vars, s).Some? && Plus(s) == 0
    ensures Minus(s) >= 2 ==> Balance(s) == -1
  {
    if Minus(s) >= 2 {
      WithoutPlus(vars, env, s, 1);
    }
  }

  lemma {:induction false} SplitAtMinusFails(vars: Variables, env: Assignment, s: string)
    requires Flat(vars, env, s, 1) && HasOp(s) && Core(vars, s).Some? && Chosen(vars, s) == '-' && !Simple(s)
    ensures Core(vars, s) != Some(Point(Balance(s)))
  {
    var i := ChosenOperation(vars, s);
    CountsAdd(s, i);
    FlatParts(vars, env, s, 1, i);
    WithoutMinusAtOne(vars, env, s[..i]);
    WithoutMinusAtOne(vars, env, s[i + 1..]);
    if Plus(s) <= 1 {
      SimpleByCounts(s);
    }
  }

  /** Whether a string evaluates depends only on which atoms are known. */
  ghost predicate Known(vars: Variables, s: string) {
    forall a: nat, b: nat {:trigger IsStretch(s, a, b)} | IsStretch(s, a, b) :: Atom(vars, s[a..b]).Some?
  }

  lemma KnownParts(vars: Variables, s: string, i: nat)
    requires Known(vars, s) && i < |s| && IsOp(s[i])
    ensures Known(vars, s[..i]) && Known(vars, s[i + 1..])
  {
    var l, r := s[..i], s[i + 1..];
    forall a: nat, b: nat | IsStretch(l, a, b)
      ensures Atom(vars, l[a..b]).Some?
    {
      assert l[a..b] == s[a..b];
      assert IsStretch(s, a, b);
    }
    forall a: nat, b: nat | IsStretch(r, a, b)
      ensures Atom(vars, r[a..b]).Some?
    {
      var n: nat := i + 1;
      assert r == s[n..|s|];
      SliceOfSlice(s, n, |s|, a, b);
      assert IsStretch(s, n + a, n + b);
    }
  }

  lemma ConstantIsKnown(vars: Variables, env: Assignment, s: string, v: int)
    requires Constant(vars, env, s, v)
    ensures Known(vars, s)
  {
  }

  lemma {:induction false} EvaluateAlike(vars: Variables, other: Variables, s: string)
    requires Known(vars, s) && Known(other, s)
    ensures Core(vars, s).Some? <==> Core(other, s).Some?
    ensures HasOp(s) ==> Chosen(vars, s) == Chosen(other, s)
    decreases |s|, 1
  {
    if HasOp(s) {
      SplitAlike(vars, other, s, '+');
      SplitAlike(vars, other, s, '-');
      SplitAlike(vars, other, s, '*');
    } else {
      assert s[0..|s|] == s;
      assert IsStretch(s, 0, |s|);
    }
  }

  lemma {:induction false} SplitAlike(vars: Variables, other: Variables, s: string, op: char)
    requires Known(vars, s) && Known(other, s) && IsOp(op)
    ensures CoreSplit(vars, s, op).Some? <==> CoreSplit(other, s, op).Some?
    decreases |s|, 0
  {
    if Count(s, op) == 1 {
      OnlyOnce(s, op);
      var i := FirstIndex(s, op);
      KnownParts(vars, s, i);
      KnownParts(other, s, i);
      EvaluateAlike(vars, other, s[..i]);
      EvaluateAlike(vars, other, s[i + 1..]);
    }
  }

  /** Two sums joined by a product sign whose results agree with their values at 1 and at 2. */
  lemma JointAgreesOnlyAtOnes(x: int, y: int, p: int, q: int, product: int, negative: bool)
    requires x >= 0 && y >= 0 && (p == x || (p == 0 && x == 2)) && (q == y || (q == 0 && y == 2)) && product == p * q
    requires product == x + y - 1 && 4 * product == Joint(2 * x, 2 * y, negative, 2, 4)
    ensures x == 1 && y == 1 && !negative
  {
    assert x + y == if negative then 0 else 2;
    assert p == 0 || q == 0 ==> product == 0;
    assert p == 1 ==> product == q;
  }

  lemma FourTimes(p: int, q: int)
    ensures (p * 2) * (q * 2) == 4 * (p * q)
  {
  }

  /** One product sign, with one sum and one difference on either side, the sum behind the difference on the left. */
  ghost predicate ExceptionalAt(s: string, i: nat) {
    && i < |s| && s[i] == '*' && Stars(s[..i]) == Stars(s[i + 1..]) == 0 && !EndsNegative(s[..i])
    && Plus(s[..i]) == Minus(s[..i]) == Plus(s[i + 1..]) == Minus(s[i + 1..]) == 1
  }

  ghost predicate Exceptional(s: string) {
    exists i: nat :: ExceptionalAt(s, i)
  }

  /** What the evaluator makes of a product of two strings without product signs. */
  lemma {:induction false} ProductAt(vars: Variables, env: Assignment, s: string, v: int, i: nat)
    requires Flat(vars, env, s, v) && i < |s| && s[i] == '*' && Stars(s[..i]) == Stars(s[i + 1..]) == 0
    requires Core(vars, s[..i]).Some? && Core(vars, s[i + 1..]).Some?
    requires Core(vars, s) == Some(Operate('*', Core(vars, s[..i]).value, Core(vars, s[i + 1..]).value))
    ensures Core(vars, s) == Some(Point((Factor(s[..i]) * v) * (Factor(s[i + 1..]) * v)))
    ensures Balance(s[..i]) >= 0 && (Simple(s[..i]) || Balance(s[..i]) == 2)
    ensures Balance(s[i + 1..]) >= 0 && (Simple(s[i + 1..]) || Balance(s[i + 1..]) == 2)
  {
    FlatParts(vars, env, s, v, i);
    WithoutStar(vars, env, s[..i], v);
    WithoutStar(vars, env, s[i + 1..], v);
    OperatePoints('*', Factor(s[..i]) * v, Factor(s[i + 1..]) * v);
  }

  lemma {:induction false} ProductValue(vars: Variables, env: Assignment, s: string, v: int, square: int, i: nat)
    requires Flat(vars, env, s, v) && i < |s| && s[i] == '*' && Stars(s[..i]) == Stars(s[i + 1..]) == 0 && square == v * v
    ensures Value(env, s) == Some(Joint(Balance(s[..i]) * v, Balance(s[i + 1..]) * v, EndsNegative(s[..i]), v, square))
  {
    FlatParts(vars, env, s, v, i);
    Recompose(s, i);
    ValueByCounts(vars, env, s[..i], v);
    ValueByCounts(vars, env, s[i + 1..], v);
    ValueOfStar(vars, env, s[..i], s[i + 1..], v, square);
  }

  lemma UniquePosition(s: string, op: char, i: nat, j: nat)
    requires i < |s| && j < |s| && s[i] == s[j] == op && Count(s[..i], op) == Count(s[i + 1..], op) == 0
    ensures i == j
  {
    CountIsZero(s[..i], op);
    CountIsZero(s[i + 1..], op);
  }

  lemma {:induction false} SplitAtStarFails(ones: Variables, one: Assignment, twos: Variables, two: Assignment, s: string)
    requires Flat(ones, one, s, 1) && Flat(twos, two, s, 2) && HasOp(s) && Core(ones, s).Some? && Chosen(ones, s) == '*'
    requires !Simple(s) && Agrees(ones, one, s) && Agrees(twos, two, s)
    ensures Exceptional(s)
  {
    var i := ChosenOperation(ones, s);
    AtOnes(ones, one, s, i);
    StarInBoth(ones, one, twos, two, s, i);
    AtTwos(twos, two, s, i);
    StarCounts(s, i, Factor(s[..i]) * Factor(s[i + 1..]));
  }

  lemma {:induction false} AtOnes(ones: Variables, one: Assignment, s: string, i: nat)
    requires Flat(ones, one, s, 1) && i < |s| && s[i] == '*' && Stars(s[..i]) == Stars(s[i + 1..]) == 0 && Agrees(ones, one, s)
    requires Core(ones, s[..i]).Some? && Core(ones, s[i + 1..]).Some?
    requires Core(ones, s) == Some(Operate('*', Core(ones, s[..i]).value, Core(ones, s[i + 1..]).value))
    ensures Factor(s[..i]) * Factor(s[i + 1..]) == Balance(s)
    ensures Balance(s[..i]) >= 0 && (Simple(s[..i]) || Balance(s[..i]) == 2)
    ensures Balance(s[i + 1..]) >= 0 && (Simple(s[i + 1..]) || Balance(s[i + 1..]) == 2)
  {
    ProductAt(ones, one, s, 1, i);
    ValueAtOne(ones, one, s);
  }

  lemma {:induction false} AtTwos(twos: Variables, two: Assignment, s: string, i: nat)
    requires Flat(twos, two, s, 2) && i < |s| && s[i] == '*' && Stars(s[..i]) == Stars(s[i + 1..]) == 0 && Agrees(twos, two, s)
    requires Core(twos, s[..i]).Some? && Core(twos, s[i + 1..]).Some?
    requires Core(twos, s) == Some(Operate('*', Core(twos, s[..i]).value, Core(twos, s[i + 1..]).value))
    ensures 4 * (Factor(s[..i]) * Factor(s[i + 1..]))
      == Joint(2 * Balance(s[..i]), 2 * Balance(s[i + 1..]), EndsNegative(s[..i]), 2, 4)
  {
    ProductAt(twos, two, s, 2, i);
    ProductValue(twos, two, s, 2, 4, i);
    FourTimes(Factor(s[..i]), Factor(s[i + 1..]));
  }

  lemma {:induction false} StarInBoth(ones: Variables, one: Assignment, twos: Variables, two: Assignment, s: string, i: nat)
    requires Flat(ones, one, s, 1) && Flat(twos, two, s, 2) && HasOp(s) && Core(ones, s).Some? && Chosen(ones, s) == '*'
    requires i < |s| && s[i] == '*' && Stars(s[..i]) == Stars(s[i + 1..]) == 0
    ensures Core(twos, s[..i]).Some? && Core(twos, s[i + 1..]).Some?
    ensures Core(twos, s) == Some(Operate('*', Core(twos, s[..i]).value, Core(twos, s[i + 1..]).value))
  {
    ConstantIsKnown(ones, one, s, 1);
    ConstantIsKnown(twos, two, s, 2);
    EvaluateAlike(ones, twos, s);
    var j := ChosenOperation(twos, s);
    UniquePosition(s, '*', i, j);
  }

  /** If results and values agree at 1 and at 2, both sides have as many sums as differences. */
  lemma {:induction false} StarCounts(s: string, i: nat, product: int)
    requires i < |s| && s[i] == '*' && Stars(s[..i]) == Stars(s[i + 1..]) == 0 && !Simple(s)
    requires Balance(s[..i]) >= 0 && (Simple(s[..i]) || Balance(s[..i]) == 2)
    requires Balance(s[i + 1..]) >= 0 && (Simple(s[i + 1..]) || Balance(s[i + 1..]) == 2)
    requires product == Factor(s[..i]) * Factor(s[i + 1..]) && product == Balance(s)
    requires 4 * product == Joint(2 * Balance(s[..i]), 2 * Balance(s[i + 1..]), EndsNegative(s[..i]), 2, 4)
    ensures Exceptional(s)
  {
    CountsAdd(s, i);
    JointAgreesOnlyAtOnes(Balance(s[..i]), Balance(s[i + 1..]), Factor(s[..i]), Factor(s[i + 1..]), product, EndsNegative(s[..i]));
    BalancedSides(s, i);
  }

  lemma {:induction false} BalancedSides(s: string, i: nat)
    requires i < |s| && s[i] == '*' && Stars(s[..i]) == Stars(s[i + 1..]) == 0 && !Simple(s) && !EndsNegative(s[..i])
    requires Simple(s[..i]) && Simple(s[i + 1..]) && Balance(s[..i]) == Balance(s[i + 1..]) == 1
    ensures Exceptional(s)
  {
    SimplePlus(s[..i]);
    SimplePlus(s[i + 1..]);
    CountsAdd(s, i);
    if Plus(s[..i]) == 0 || Plus(s[i + 1..]) == 0 {
      SimpleByCounts(s);
    }
    assert ExceptionalAt(s, i);
  }

  // ----- Strings whose atoms are all variables -----

  /** The names that the string is about. */
  ghost function NamesOf(s: string): set<string> {
    set a: nat, b: nat | a <= |s| && b <= |s| && IsStretch(s, a, b) :: Trim(s[a..b], IsScriptSpace)
  }

  ghost predicate OnlyVariables(s: string) {
    forall a: nat, b: nat {:trigger IsStretch(s, a, b)} | IsStretch(s, a, b) :: !AllDigits(Trim(s[a..b], IsScriptSpace))
  }

  ghost function Points(names: set<string>, v: int): Variables {
    map x | x in names :: Point(v)
  }

  ghost function Values(names: set<string>, v: int): Assignment {
    map x | x in names :: v
  }

  lemma PointsAreFlat(s: string, v: int)
    requires OnlyVariables(s)
    ensures Flat(Points(NamesOf(s), v), Values(NamesOf(s), v), s, v)
  {
    var vars, env := Points(NamesOf(s), v), Values(NamesOf(s), v);
    forall a: nat, b: nat | IsStretch(s, a, b)
      ensures AtomIs(vars, env, s[a..b], v)
    {
      assert Trim(s[a..b], IsScriptSpace) in NamesOf(s);
    }
  }

  lemma TrimHasNoOp(t: string)
    requires !HasOp(t)
    ensures !HasOp(Trim(t, IsScriptSpace))
  {
    var a, b := TrimSlice(t);
    assert forall i | 0 <= i < b - a :: t[a..b][i] == t[a + i];
  }

  /** Names between operators hold none. */
  lemma NamesArePlain(vars: Variables, s: string)
    requires vars.Keys == NamesOf(s)
    ensures PlainNames(vars, s)
  {
    forall a, b | 0 <= a <= b <= |s| && s[a..b] in vars
      ensures !HasOp(s[a..b])
    {
      var c: nat, d: nat :| c <= |s| && d <= |s| && IsStretch(s, c, d) && Trim(s[c..d], IsScriptSpace) == s[a..b];
      TrimHasNoOp(s[c..d]);
    }
  }

  /** Whatever the intervals of its variables: if there is a result, it contains the value. */
  ghost predicate SoundInEveryState(s: string) {
    forall vars: Variables, env | vars.Keys == NamesOf(s) && DrawnFrom(env, vars) :: Encloses(Evaluate(vars, s), Value(env, s))
  }

  ghost predicate Evaluable(s: string) {
    Evaluate(Points(NamesOf(s), 1), s).Some?
  }

  lemma {:induction false} SoundMeansAgrees(s: string, vars: Variables, env: Assignment)
    requires SoundInEveryState(s) && vars.Keys == NamesOf(s) && DrawnFrom(env, vars) && AllPoints(vars) && Core(vars, s).Some?
    ensures Agrees(vars, env, s)
  {
    NamesArePlain(vars, s);
    EvaluateIsCore(vars, s);
    EnclosingPoint(vars, env, s);
  }

  lemma {:induction false} SimpleIsSoundInEveryState(s: string)
    requires Simple(s)
    ensures SoundInEveryState(s)
  {
    forall vars: Variables, env | vars.Keys == NamesOf(s) && DrawnFrom(env, vars)
      ensures Encloses(Evaluate(vars, s), Value(env, s))
    {
      NamesArePlain(vars, s);
      EvaluateIsCore(vars, s);
      CoreIsSound(vars, env, s);
    }
  }

  lemma {:induction false} SoundIsSimple(s: string)
    requires OnlyVariables(s) && Evaluable(s) && SoundInEveryState(s) && !Exceptional(s)
    ensures Simple(s)
  {
    var names := NamesOf(s);
    var ones, one, twos, two := Points(names, 1), Values(names, 1), Points(names, 2), Values(names, 2);
    PointsAreFlat(s, 1);
    PointsAreFlat(s, 2);
    NamesArePlain(ones, s);
    EvaluateIsCore(ones, s);
    ConstantIsKnown(ones, one, s, 1);
    ConstantIsKnown(twos, two, s, 2);
    EvaluateAlike(ones, twos, s);
    SoundMeansAgrees(s, ones, one);
    SoundMeansAgrees(s, twos, two);
    if !Simple(s) {
      NotSimpleDisagrees(ones, one, twos, two, s);
    }
  }

  lemma {:induction false} NotSimpleDisagrees(ones: Variables, one: Assignment, twos: Variables, two: Assignment, s: string)
    requires Flat(ones, one, s, 1) && Flat(twos, two, s, 2) && Core(ones, s).Some? && !Simple(s)
    requires Agrees(ones, one, s) && Agrees(twos, two, s)
    ensures Exceptional(s)
  {
    NoOpIff(s);
    if Plus(s) <= 1 && Minus(s) <= 1 {
      SimpleByCounts(s);
    }
    ValueAtOne(ones, one, s);
    if Chosen(ones, s) == '+' {
      SplitAtPlusFails(ones, one, s);
    } else if Chosen(ones, s) == '-' {
      SplitAtMinusFails(ones, one, s);
    } else {
      SplitAtStarFails(ones, one, twos, two, s);
    }
  }

  /**
   * For every string over variables that evaluates at all, but for one shape: it is evaluated
   * soundly in every state if and only if it has at most one plus sign and at most one minus sign
   * on either side of it.
   */
  lemma {:induction false} SoundIffSimple(s: string)
    requires OnlyVariables(s) && Evaluable(s) && !Exceptional(s)
    ensures SoundInEveryState(s) <==> Simple(s)
  {
    if Simple(s) {
      SimpleIsSoundInEveryState(s);
    }
    if SoundInEveryState(s) {
      SoundIsSimple(s);
    }
  }

  // ----- Which simple strings have a result, and which one -----

  /** A simple string evaluates exactly if each of its terms is an atom or a product of two. */
  lemma {:induction false} SimpleEvaluatesIff(vars: Variables, s: string)
    requires PlainNames(vars, s) && Simple(s)
    ensures Evaluate(vars, s).Some? <==> Good(vars, s)
  {
    EvaluateIsCore(vars, s);
    if Core(vars, s).Some? {
      EvaluatedIsGood(vars, s);
    }
    if Good(vars, s) {
      GoodSimpleEvaluates(vars, s);
    }
  }

  lemma {:induction false} GoodSimpleEvaluates(vars: Variables, s: string)
    requires Simple(s) && Good(vars, s)
    ensures Core(vars, s).Some?
  {
    if '+' in s {
      var i := FirstIndex(s, '+');
      AllTermsAtAnySum(s, IsGoodTerm(vars), i);
      GoodDifferenceEvaluates(vars, s[..i]);
      GoodDifferenceEvaluates(vars, s[i + 1..]);
      CountOfParts(s, '+', i);
      CountIsZero(s[..i], '+');
      CountIsZero(s[i + 1..], '+');
      SumComesFirst(vars, s, i);
    } else {
      GoodDifferenceEvaluates(vars, s);
    }
  }

  /** Where every variable has one value only, the result of a simple string is its value and no more. */
  lemma {:induction false} ExactOnPoints(vars: Variables, env: Assignment, s: string)
    requires PlainNames(vars, s) && Simple(s) && DrawnFrom(env, vars) && AllPoints(vars) && Evaluate(vars, s).Some?
    ensures Value(env, s).Some? && Evaluate(vars, s) == Some(Point(Value(env, s).value))
  {
    EvaluateIsCore(vars, s);
    CoreIsSound(vars, env, s);
    EnclosingPoint(vars, env, s);
  }
}
