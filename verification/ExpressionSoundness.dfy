/** When the interval of an expression contains its ordinary value, and when it may not. */
module ExpressionSoundness {
  import opened Wrappers
  import opened Sequences
  import opened Text
  import opened Intervals
  import opened ExpressionEvaluator

  // ----- Expressions whose parts can all be evaluated -----

  /** One atom, or two atoms with one product sign between them. */
  predicate GoodTerm(vars: Variables, t: string) {
    && Count(t, '*') <= 1
    && if HasOp(t) then
         var i := LastWhere(t, IsOp);
         Atom(vars, t[..i]).Some? && Atom(vars, t[i + 1..]).Some?
       else Atom(vars, t).Some?
  }

  /** Every stretch between sums satisfies `p`. */
  predicate AllTerms(s: string, p: string -> bool)
    decreases |s|
  {
    if HasSum(s) then
      var i := LastWhere(s, IsSum);
      AllTerms(s[..i], p) && p(s[i + 1..])
    else p(s)
  }

  function IsGoodTerm(vars: Variables): string -> bool {
    t => GoodTerm(vars, t)
  }

  predicate Good(vars: Variables, s: string) {
    AllTerms(s, IsGoodTerm(vars))
  }

  lemma SumsOfParts(s: string, i: nat)
    requires i < |s| && IsSum(s[i])
    ensures HasSum(s) && LastWhere(s, IsSum) >= i
    ensures LastWhere(s, IsSum) == i <==> !HasSum(s[i + 1..])
    ensures HasSum(s[i + 1..]) ==> LastWhere(s, IsSum) == i + 1 + LastWhere(s[i + 1..], IsSum)
  {
    var k := LastWhere(s, IsSum);
    var right := s[i + 1..];
    assert forall j | 0 <= j < |right| :: right[j] == s[i + 1 + j];
    if HasSum(right) {
      var j := LastWhere(right, IsSum);
      assert IsSum(s[i + 1 + j]);
    }
    if k > i {
      assert right[k - i - 1] == s[k];
    }
  }

  lemma PartsAround(s: string, i: nat, k: nat, m: nat)
    requires i < k < |s| && k == i + 1 + m
    ensures s[..k][..i] == s[..i] && s[..k][i] == s[i] && s[..k][i + 1..] == s[i + 1..][..m]
    ensures s[i + 1..][m] == s[k] && s[i + 1..][m + 1..] == s[k + 1..]
  {
  }

  lemma {:induction false} AllTermsAtAnySum(s: string, p: string -> bool, i: nat)
    requires i < |s| && IsSum(s[i])
    ensures AllTerms(s, p) <==> AllTerms(s[..i], p) && AllTerms(s[i + 1..], p)
    decreases |s|
  {
    SumsOfParts(s, i);
    var k := LastWhere(s, IsSum);
    if i < k {
      var left, right := s[..k], s[i + 1..];
      var m := LastWhere(right, IsSum);
      PartsAround(s, i, k, m);
      AllTermsAtAnySum(left, p, i);
    }
  }

  // ----- What evaluates is good -----

  lemma NoOpNoStar(s: string)
    requires !HasSum(s) && '*' !in s
    ensures !HasOp(s)
  {
    assert forall i | 0 <= i < |s| :: s[i] in s;
  }

  lemma OnlyStar(s: string)
    requires !HasSum(s) && Count(s, '*') == 1
    ensures HasOp(s) && LastWhere(s, IsOp) == FirstIndex(s, '*')
    ensures var i := FirstIndex(s, '*'); !HasOp(s[..i]) && !HasOp(s[i + 1..])
  {
    OnlyOnce(s, '*');
    var i := FirstIndex(s, '*');
    PartsHaveNoSum(s, i);
    NoOpNoStar(s[..i]);
    NoOpNoStar(s[i + 1..]);
    assert IsOp(s[i]);
    var right := s[i + 1..];
    assert forall k | i < k < |s| :: s[k] == right[k - i - 1];
  }

  lemma PartsHaveNoSum(s: string, i: nat)
    requires i < |s| && !HasSum(s)
    ensures !HasSum(s[..i]) && !HasSum(s[i + 1..])
  {
    var left, right := s[..i], s[i + 1..];
    assert forall j | 0 <= j < |left| :: left[j] == s[j];
    assert forall j | 0 <= j < |right| :: right[j] == s[i + 1 + j];
  }

  /** Two good expressions with the only product sign between them. */
  lemma {:induction false} GoodProduct(vars: Variables, s: string, i: nat)
    requires i < |s| && s[i] == '*' && Count(s[..i], '*') == 0 && Count(s[i + 1..], '*') == 0
    requires Good(vars, s[..i]) && Good(vars, s[i + 1..])
    ensures Good(vars, s)
    decreases |s|
  {
    var p, right := IsGoodTerm(vars), s[i + 1..];
    if HasSum(right) {
      var k := LastWhere(right, IsSum);
      var n := i + 1 + k;
      ProductThenSum(s, i, k, n);
      AllTermsAtAnySum(right, p, k);
      GoodProduct(vars, s[..n], i);
      AllTermsAtAnySum(s, p, n);
    } else {
      GoodProductOfTerm(vars, s, i);
    }
  }

  lemma GoodProductOfTerm(vars: Variables, s: string, i: nat)
    requires i < |s| && s[i] == '*' && Count(s[..i], '*') == 0 && Count(s[i + 1..], '*') == 0
    requires Good(vars, s[..i]) && Good(vars, s[i + 1..]) && !HasSum(s[i + 1..])
    ensures Good(vars, s)
  {
    var p, left := IsGoodTerm(vars), s[..i];
    if HasSum(left) {
      var k := LastWhere(left, IsSum);
      var term, n := s[k + 1..], i - k - 1;
      SumThenProduct(s, i, k);
      AllTermsAtAnySum(left, p, k);
      TailHasNoSum(left, k);
      assert term[n + 1..] == s[i + 1..];
      JoinedTerm(vars, term, n);
      AllTermsAtAnySum(s, p, k);
    } else {
      JoinedTerm(vars, s, i);
    }
  }

  lemma ProductThenSum(s: string, i: nat, k: nat, n: nat)
    requires i < |s| && k < |s| - i - 1 && n == i + 1 + k && Count(s[i + 1..], '*') == 0
    ensures var shorter, right := s[..n], s[i + 1..];
            && shorter[..i] == s[..i] && shorter[i + 1..] == right[..k] && shorter[i] == s[i]
            && s[n] == right[k] && s[n + 1..] == right[k + 1..]
            && Count(right[..k], '*') == 0
  {
    CountOfParts(s[i + 1..], '*', k);
  }

  lemma SumThenProduct(s: string, i: nat, k: nat)
    requires k < i < |s| && Count(s[..i], '*') == 0
    ensures var term, left := s[k + 1..], s[..i];
            && s[..k] == left[..k] && s[k] == left[k]
            && term[..i - k - 1] == left[k + 1..] && term[i - k..] == s[i + 1..] && term[i - k - 1] == s[i]
            && Count(left[k + 1..], '*') == 0
  {
    CountOfParts(s[..i], '*', k);
  }

  lemma TailHasNoSum(s: string, k: nat)
    requires HasSum(s) && k == LastWhere(s, IsSum)
    ensures !HasSum(s[k + 1..])
  {
    var tail := s[k + 1..];
    assert forall j | 0 <= j < |tail| :: tail[j] == s[k + 1 + j];
  }

  lemma JoinedTerm(vars: Variables, t: string, i: nat)
    requires i < |t| && t[i] == '*' && !HasSum(t[..i]) && !HasSum(t[i + 1..])
    requires Count(t[..i], '*') == 0 && Count(t[i + 1..], '*') == 0
    requires Good(vars, t[..i]) && Good(vars, t[i + 1..])
    ensures !HasSum(t) && Good(vars, t)
  {
    JoinedHasOneStar(t, i);
    NoOpNoStar(t[..i]);
    NoOpNoStar(t[i + 1..]);
    assert GoodTerm(vars, t[..i]) && GoodTerm(vars, t[i + 1..]);
    assert GoodTerm(vars, t);
  }

  lemma JoinedHasOneStar(t: string, i: nat)
    requires i < |t| && t[i] == '*' && !HasSum(t[..i]) && !HasSum(t[i + 1..])
    requires Count(t[..i], '*') == 0 && Count(t[i + 1..], '*') == 0
    ensures !HasSum(t) && Count(t, '*') == 1 && HasOp(t) && LastWhere(t, IsOp) == i
  {
    CountOfParts(t, '*', i);
    var left, right := t[..i], t[i + 1..];
    assert forall j | 0 <= j < i :: t[j] == left[j];
    assert forall j | i < j < |t| :: t[j] == right[j - i - 1];
    CountIsZero(left, '*');
    OnlyStar(t);
    assert t[FirstIndex(t, '*')] == '*';
  }

  lemma {:induction false} EvaluatedIsGood(vars: Variables, s: string)
    requires Core(vars, s).Some?
    ensures Good(vars, s)
    decreases |s|
  {
    if HasOp(s) {
      var op, i := ChosenSplit(vars, s);
      EvaluatedIsGood(vars, s[..i]);
      EvaluatedIsGood(vars, s[i + 1..]);
      if op == '*' {
        GoodProduct(vars, s, i);
      } else {
        AllTermsAtAnySum(s, IsGoodTerm(vars), i);
      }
    } else {
      EvaluatedAtomIsGood(vars, s);
    }
  }

  lemma ChosenSplit(vars: Variables, s: string) returns (op: char, i: nat)
    requires HasOp(s) && Core(vars, s).Some?
    ensures IsOp(op) && i < |s| && s[i] == op && Count(s[..i], op) == Count(s[i + 1..], op) == 0
    ensures Core(vars, s[..i]).Some? && Core(vars, s[i + 1..]).Some?
  {
    op := if CoreSplit(vars, s, '+').Some? then '+' else if CoreSplit(vars, s, '-').Some? then '-' else '*';
    i := SplitParts(vars, s, op);
  }

  lemma SplitParts(vars: Variables, s: string, op: char) returns (i: nat)
    requires CoreSplit(vars, s, op).Some?
    ensures i < |s| && s[i] == op && Count(s[..i], op) == Count(s[i + 1..], op) == 0
    ensures Core(vars, s[..i]).Some? && Core(vars, s[i + 1..]).Some?
  {
    OnlyOnce(s, op);
    i := FirstIndex(s, op);
    CountOfParts(s, op, i);
  }

  lemma EvaluatedAtomIsGood(vars: Variables, s: string)
    requires !HasOp(s) && Core(vars, s).Some?
    ensures Good(vars, s)
  {
    assert !HasSum(s);
    CountIsZero(s, '*');
    assert GoodTerm(vars, s);
  }

  // ----- What is good and simple evaluates -----

  lemma NoSumCounts(s: string)
    requires !HasSum(s)
    ensures Count(s, '+') == 0 && Count(s, '-') == 0
  {
    CountIsZero(s, '+');
    CountIsZero(s, '-');
  }

  lemma ProductOfAtoms(vars: Variables, s: string)
    requires !HasSum(s) && Count(s, '*') == 1
    ensures Core(vars, s) == CoreSplit(vars, s, '*')
    ensures var i := FirstIndex(s, '*'); Core(vars, s[..i]) == Atom(vars, s[..i]) && Core(vars, s[i + 1..]) == Atom(vars, s[i + 1..])
  {
    OnlyStar(s);
    NoSumCounts(s);
  }

  lemma GoodPairEvaluates(vars: Variables, s: string)
    requires !HasSum(s) && Count(s, '*') == 1 && GoodTerm(vars, s)
    ensures CoreSplit(vars, s, '*').Some?
  {
    OnlyStar(s);
    ProductOfAtoms(vars, s);
  }

  lemma GoodTermEvaluates(vars: Variables, s: string)
    requires !HasSum(s) && Good(vars, s)
    ensures Core(vars, s).Some?
  {
    assert GoodTerm(vars, s);
    if Count(s, '*') == 1 {
      GoodPairEvaluates(vars, s);
      ProductOfAtoms(vars, s);
    } else {
      CountIsZero(s, '*');
      NoOpNoStar(s);
    }
  }

  /** At most one difference and no sum. */
  predicate SimpleDifference(s: string) {
    '+' !in s && Count(s, '-') <= 1
  }

  lemma OnlyMinus(s: string)
    requires SimpleDifference(s) && HasSum(s)
    ensures Count(s, '-') == 1 && LastWhere(s, IsSum) == FirstIndex(s, '-')
    ensures var i := FirstIndex(s, '-'); !HasSum(s[..i]) && !HasSum(s[i + 1..])
  {
    var k := LastWhere(s, IsSum);
    assert s[k] in s;
    CountIsZero(s, '-');
    OnlyOnce(s, '-');
    var i := FirstIndex(s, '-');
    SumsOfParts(s, i);
    NoSumWithout(s[..i]);
    NoSumWithout(s[i + 1..]);
  }

  lemma NoSumWithout(s: string)
    requires '+' !in s && '-' !in s
    ensures !HasSum(s)
  {
    assert forall i | 0 <= i < |s| :: s[i] in s;
  }

  lemma GoodDifferenceEvaluates(vars: Variables, s: string)
    requires SimpleDifference(s) && Good(vars, s)
    ensures Core(vars, s).Some?
    ensures HasSum(s) ==> CoreSplit(vars, s, '-').Some?
  {
    if HasSum(s) {
      OnlyMinus(s);
      var i := FirstIndex(s, '-');
      AllTermsAtAnySum(s, IsGoodTerm(vars), i);
      GoodTermEvaluates(vars, s[..i]);
      GoodTermEvaluates(vars, s[i + 1..]);
      assert IsOp(s[i]);
    } else {
      GoodTermEvaluates(vars, s);
    }
  }

  // ----- Soundness -----

  ghost predicate Encloses(i: Option<Interval>, v: Option<int>) {
    i.Some? ==> v.Some? && Contains(i.value, v.value)
  }

  lemma OperateIsSound(op: char, a: Option<Interval>, b: Option<Interval>, x: Option<int>, y: Option<int>)
    requires a.Some? && b.Some? && Encloses(a, x) && Encloses(b, y)
    ensures Encloses(Some(Operate(op, a.value, b.value)), Lift(op, x, y))
  {
    MulIsSound(a.value, b.value, x.value, y.value);
  }

  lemma AtomIsSound(vars: Variables, env: Assignment, s: string)
    requires DrawnFrom(env, vars)
    ensures Encloses(Atom(vars, s), AtomValue(env, s))
  {
  }

  lemma ValueOfTerm(env: Assignment, s: string)
    requires !HasSum(s)
    ensures Value(env, s) == TermValue(env, s)
    ensures !HasOp(s) ==> Value(env, s) == AtomValue(env, s)
  {
  }

  lemma ValueOfPair(env: Assignment, s: string)
    requires !HasSum(s) && Count(s, '*') == 1
    ensures '*' in s
    ensures var i := FirstIndex(s, '*'); Value(env, s) == Lift('*', AtomValue(env, s[..i]), AtomValue(env, s[i + 1..]))
  {
    OnlyStar(s);
    ValueOfTerm(env, s);
    CountIsZero(s, '*');
  }

  lemma PairIsSound(vars: Variables, env: Assignment, s: string)
    requires DrawnFrom(env, vars) && !HasSum(s) && Count(s, '*') == 1
    ensures Encloses(CoreSplit(vars, s, '*'), Value(env, s))
  {
    ProductOfAtoms(vars, s);
    ValueOfPair(env, s);
    var i := FirstIndex(s, '*');
    var l, r := s[..i], s[i + 1..];
    AtomIsSound(vars, env, l);
    AtomIsSound(vars, env, r);
    if Atom(vars, l).Some? && Atom(vars, r).Some? {
      OperateIsSound('*', Atom(vars, l), Atom(vars, r), AtomValue(env, l), AtomValue(env, r));
    }
  }

  lemma TermIsSound(vars: Variables, env: Assignment, s: string)
    requires DrawnFrom(env, vars) && !HasSum(s)
    ensures Encloses(Core(vars, s), Value(env, s))
  {
    if !HasOp(s) {
      ValueOfTerm(env, s);
      AtomIsSound(vars, env, s);
    } else if Core(vars, s).Some? {
      EvaluatedTermIsProduct(vars, s);
      ProductOfAtoms(vars, s);
      PairIsSound(vars, env, s);
    }
  }

  lemma EvaluatedTermIsProduct(vars: Variables, s: string)
    requires !HasSum(s) && HasOp(s) && Core(vars, s).Some?
    ensures Count(s, '*') == 1
  {
    NoSumCounts(s);
  }

  lemma DifferenceIsSound(vars: Variables, env: Assignment, s: string)
    requires DrawnFrom(env, vars) && SimpleDifference(s)
    ensures Encloses(Core(vars, s), Value(env, s))
  {
    if !HasSum(s) {
      TermIsSound(vars, env, s);
    } else if Core(vars, s).Some? {
      EvaluatedIsGood(vars, s);
      GoodDifferenceEvaluates(vars, s);
      OnlyMinus(s);
      CountIsZero(s, '+');
      var i := FirstIndex(s, '-');
      assert IsOp(s[i]);
      assert Core(vars, s) == CoreSplit(vars, s, '-');
      TermIsSound(vars, env, s[..i]);
      TermIsSound(vars, env, s[i + 1..]);
      OperateIsSound('-', Core(vars, s[..i]), Core(vars, s[i + 1..]), Value(env, s[..i]), Value(env, s[i + 1..]));
    }
  }

  /** Ordinary values add up across any plus sign, whatever differences stand around it. */
  lemma {:induction false} SumAtAnyPlus(s: string, term: string -> Option<int>, i: nat)
    requires i < |s| && s[i] == '+'
    ensures SumOf(s, term) == Lift('+', SumOf(s[..i], term), SumOf(s[i + 1..], term))
    decreases |s|
  {
    SumsOfParts(s, i);
    var k := LastWhere(s, IsSum);
    if i < k {
      var left, right := s[..k], s[i + 1..];
      var m := LastWhere(right, IsSum);
      PartsAround(s, i, k, m);
      SumAtAnyPlus(left, term, i);
      LiftAssociates(s[k], SumOf(s[..i], term), SumOf(right[..m], term), term(s[k + 1..]));
    }
  }

  lemma LiftAssociates(op: char, a: Option<int>, b: Option<int>, c: Option<int>)
    requires IsSum(op)
    ensures Lift(op, Lift('+', a, b), c) == Lift('+', a, Lift(op, b, c))
  {
  }

  /** At most one plus sign, and at most one minus sign on either side of it. */
  predicate Simple(s: string) {
    if '+' in s then
      var i := FirstIndex(s, '+');
      SimpleDifference(s[..i]) && SimpleDifference(s[i + 1..])
    else Count(s, '-') <= 1
  }

  lemma CoreIsSound(vars: Variables, env: Assignment, s: string)
    requires DrawnFrom(env, vars) && Simple(s)
    ensures Encloses(Core(vars, s), Value(env, s))
  {
    if '+' !in s {
      DifferenceIsSound(vars, env, s);
    } else if Core(vars, s).Some? {
      var i := FirstIndex(s, '+');
      CountOfParts(s, '+', i);
      CountIsZero(s[..i], '+');
      CountIsZero(s[i + 1..], '+');
      EvaluatedIsGood(vars, s);
      AllTermsAtAnySum(s, IsGoodTerm(vars), i);
      GoodDifferenceEvaluates(vars, s[..i]);
      GoodDifferenceEvaluates(vars, s[i + 1..]);
      SumComesFirst(vars, s, i);
      DifferenceIsSound(vars, env, s[..i]);
      DifferenceIsSound(vars, env, s[i + 1..]);
      OperateIsSound('+', Core(vars, s[..i]), Core(vars, s[i + 1..]), Value(env, s[..i]), Value(env, s[i + 1..]));
      SumAtAnyPlus(s, TermsUnder(env), i);
    }
  }

  lemma SumComesFirst(vars: Variables, s: string, i: nat)
    requires Count(s, '+') == 1 && '+' in s && i == FirstIndex(s, '+')
    requires Core(vars, s[..i]).Some? && Core(vars, s[i + 1..]).Some?
    ensures Core(vars, s) == Some(Operate('+', Core(vars, s[..i]).value, Core(vars, s[i + 1..]).value))
  {
    assert IsOp(s[i]);
  }

  /**
   * Whatever the intervals: the result of a simple expression, if there is one, contains its
   * ordinary value under every assignment drawn from them.
   */
  lemma EvaluationIsSound(vars: Variables, env: Assignment, s: string)
    requires PlainNames(vars, s) && DrawnFrom(env, vars) && Simple(s) && Evaluate(vars, s).Some?
    ensures Value(env, s).Some? && Contains(Evaluate(vars, s).value, Value(env, s).value)
  {
    EvaluateIsCore(vars, s);
    CoreIsSound(vars, env, s);
  }

  // ----- Why repeated signs are excluded -----

  lemma Joined(l: string, op: char, r: string)
    ensures var s := l + [op] + r; s[..|l|] == l && s[|l|] == op && s[|l| + 1..] == r && op in s
    ensures op !in l ==> FirstIndex(l + [op] + r, op) == |l|
  {
    var s := l + [op] + r;
    assert s[|l|] == op;
    if op !in l {
      var i := FirstIndex(s, op);
      assert forall k | 0 <= k < |l| :: s[k] == l[k];
      assert forall k | 0 <= k < i :: s[..i][k] == s[k];
    }
  }

  lemma JoinedCount(l: string, op: char, r: string, c: char)
    ensures Count(l + [op] + r, c) == Count(l, c) + (if op == c then 1 else 0) + Count(r, c)
  {
  }

  lemma NoOpCount(s: string, c: char)
    requires !HasOp(s) && IsOp(c)
    ensures c !in s && Count(s, c) == 0
  {
    CountIsZero(s, c);
  }

  lemma ValueOfJoinedSum(env: Assignment, l: string, op: char, r: string)
    requires IsSum(op) && !HasSum(r)
    ensures Value(env, l + [op] + r) == Lift(op, Value(env, l), Value(env, r))
  {
    var s := l + [op] + r;
    Joined(l, op, r);
    SumsOfParts(s, |l|);
  }

  lemma ValueOfProduct(env: Assignment, l: string, r: string)
    requires !HasOp(l) && !HasOp(r)
    ensures !HasSum(l + ['*'] + r) && Value(env, l + ['*'] + r) == Lift('*', Value(env, l), Value(env, r))
  {
    var s := l + ['*'] + r;
    Joined(l, '*', r);
    NoOpCount(l, '*');
    NoOpCount(r, '*');
    JoinedHasOneStar(s, |l|);
  }

  /** A literal or a known variable, with white space around it and no operator. */
  predicate IsAtom(vars: Variables, s: string) {
    !HasOp(s) && Atom(vars, s).Some?
  }

  /** The sum or difference of two atoms. */
  lemma AtomPair(vars: Variables, a: string, op: char, b: string)
    requires IsSum(op) && IsAtom(vars, a) && IsAtom(vars, b)
    ensures Core(vars, a + [op] + b) == Some(Operate(op, Atom(vars, a).value, Atom(vars, b).value))
  {
    var s := a + [op] + b;
    Joined(a, op, b);
    CountsInPair(a, op, b);
    assert IsOp(s[|a|]);
    assert CoreSplit(vars, s, op) == Some(Operate(op, Atom(vars, a).value, Atom(vars, b).value));
  }

  lemma CountsInPair(a: string, op: char, b: string)
    requires !HasOp(a) && !HasOp(b) && IsOp(op)
    ensures op !in a
    ensures forall c | IsOp(c) :: Count(a + [op] + b, c) == if c == op then 1 else 0
  {
    NoOpCount(a, op);
    forall c | IsOp(c)
      ensures Count(a + [op] + b, c) == if c == op then 1 else 0
    {
      NoOpCount(a, c);
      NoOpCount(b, c);
      JoinedCount(a, op, b, c);
    }
  }

  /**
   * a - b * c - d has two minus signs, so the product sign is split first: the result is that of
   * (a - b) * (c - d), whatever the four atoms.
   */
  lemma RepeatedMinusBindsWrongly(vars: Variables, env: Assignment, a: string, b: string, c: string, d: string)
    requires IsAtom(vars, a) && IsAtom(vars, b) && IsAtom(vars, c) && IsAtom(vars, d)
    ensures var s := (a + ['-'] + b) + ['*'] + (c + ['-'] + d);
            && Core(vars, s) == Some(Mul(Sub(Atom(vars, a).value, Atom(vars, b).value), Sub(Atom(vars, c).value, Atom(vars, d).value)))
            && Value(env, s) == Lift('-', Lift('-', Value(env, a), Lift('*', Value(env, b), Value(env, c))), Value(env, d))
  {
    AtomPair(vars, a, '-', b);
    AtomPair(vars, c, '-', d);
    CountsInPair(a, '-', b);
    CountsInPair(c, '-', d);
    ProductOfPairs(vars, a + ['-'] + b, c + ['-'] + d);
    ValueOfRepeatedMinus(env, a, b, c, d);
  }

  lemma ProductOfPairs(vars: Variables, l: string, r: string)
    requires Count(l, '+') == Count(r, '+') == Count(l, '*') == Count(r, '*') == 0 && Count(l, '-') == Count(r, '-') == 1
    requires Core(vars, l).Some? && Core(vars, r).Some?
    ensures Core(vars, l + ['*'] + r) == Some(Mul(Core(vars, l).value, Core(vars, r).value))
  {
    var s := l + ['*'] + r;
    JoinedCount(l, '*', r, '+');
    JoinedCount(l, '*', r, '-');
    JoinedCount(l, '*', r, '*');
    CountIsZero(l, '*');
    Joined(l, '*', r);
    assert IsOp(s[|l|]);
    assert CoreSplit(vars, s, '+').None? && CoreSplit(vars, s, '-').None?;
  }

  lemma ValueOfRepeatedMinus(env: Assignment, a: string, b: string, c: string, d: string)
    requires !HasOp(a) && !HasOp(b) && !HasOp(c) && !HasOp(d)
    ensures Value(env, (a + ['-'] + b) + ['*'] + (c + ['-'] + d))
      == Lift('-', Lift('-', Value(env, a), Lift('*', Value(env, b), Value(env, c))), Value(env, d))
  {
    var product := b + ['*'] + c;
    assert (a + ['-'] + b) + ['*'] + (c + ['-'] + d) == (a + ['-'] + product) + ['-'] + d;
    assert !HasSum(d);
    ValueOfProduct(env, b, c);
    ValueOfJoinedSum(env, a, '-', product);
    ValueOfJoinedSum(env, a + ['-'] + product, '-', d);
  }

  /**
   * a + b - c + d has two plus signs, so the minus sign is split first: the result is that of
   * (a + b) - (c + d), whatever the four atoms.
   */
  lemma RepeatedPlusBindsWrongly(vars: Variables, env: Assignment, a: string, b: string, c: string, d: string)
    requires IsAtom(vars, a) && IsAtom(vars, b) && IsAtom(vars, c) && IsAtom(vars, d)
    ensures var s := (a + ['+'] + b) + ['-'] + (c + ['+'] + d);
            && Core(vars, s) == Some(Sub(Add(Atom(vars, a).value, Atom(vars, b).value), Add(Atom(vars, c).value, Atom(vars, d).value)))
            && Value(env, s) == Lift('+', Lift('-', Lift('+', Value(env, a), Value(env, b)), Value(env, c)), Value(env, d))
  {
    AtomPair(vars, a, '+', b);
    AtomPair(vars, c, '+', d);
    CountsInPair(a, '+', b);
    CountsInPair(c, '+', d);
    DifferenceOfPairs(vars, a + ['+'] + b, c + ['+'] + d);
    ValueOfRepeatedPlus(env, a, b, c, d);
  }

  lemma DifferenceOfPairs(vars: Variables, l: string, r: string)
    requires Count(l, '-') == Count(r, '-') == 0 && Count(l, '+') == Count(r, '+') == 1
    requires Core(vars, l).Some? && Core(vars, r).Some?
    ensures Core(vars, l + ['-'] + r) == Some(Sub(Core(vars, l).value, Core(vars, r).value))
  {
    var s := l + ['-'] + r;
    JoinedCount(l, '-', r, '+');
    JoinedCount(l, '-', r, '-');
    CountIsZero(l, '-');
    Joined(l, '-', r);
    assert IsOp(s[|l|]);
    assert CoreSplit(vars, s, '+').None?;
  }

  lemma ValueOfRepeatedPlus(env: Assignment, a: string, b: string, c: string, d: string)
    requires !HasOp(a) && !HasOp(b) && !HasOp(c) && !HasOp(d)
    ensures Value(env, (a + ['+'] + b) + ['-'] + (c + ['+'] + d))
      == Lift('+', Lift('-', Lift('+', Value(env, a), Value(env, b)), Value(env, c)), Value(env, d))
  {
    var left := a + ['+'] + b;
    assert left + ['-'] + (c + ['+'] + d) == (left + ['-'] + c) + ['+'] + d;
    assert !HasSum(b) && !HasSum(c) && !HasSum(d);
    ValueOfJoinedSum(env, a, '+', b);
    ValueOfJoinedSum(env, left, '-', c);
    ValueOfJoinedSum(env, left + ['-'] + c, '+', d);
  }

  lemma Digit(vars: Variables, env: Assignment, s: string)
    requires |s| == 1 && '0' <= s[0] <= '9'
    ensures !HasOp(s) && Atom(vars, s) == Some(Point(s[0] as int - '0' as int))
    ensures Value(env, s) == Some(s[0] as int - '0' as int)
  {
    TrimIs(s, IsScriptSpace, 0, 1);
    assert s[0..1] == s && s[..0] == [];
    assert Number(s) == s[0] as int - '0' as int;
  }

  lemma Digits(vars: Variables, env: Assignment, one: string, two: string)
    requires one == "1" && two == "2"
    ensures IsAtom(vars, one) && Atom(vars, one) == Some(Point(1)) && Value(env, one) == Some(1)
    ensures IsAtom(vars, two) && Atom(vars, two) == Some(Point(2)) && Value(env, two) == Some(2)
  {
    Digit(vars, env, one);
    Digit(vars, env, two);
  }

  lemma UnsoundResult(vars: Variables, one: string, two: string, s: string)
    requires IsAtom(vars, one) && Atom(vars, one) == Some(Point(1)) && IsAtom(vars, two) && Atom(vars, two) == Some(Point(2))
    requires s == (one + ['-'] + one) + ['*'] + (two + ['-'] + one)
    ensures Core(vars, s) == Some(Mul(Point(0), Point(1)))
  {
    var zero, rest := Sub(Point(1), Point(1)), Sub(Point(2), Point(1));
    RepeatedMinusBindsWrongly(vars, map[], one, one, two, one);
    assert zero == Point(0) && rest == Point(1);
  }

  lemma UnsoundValue(env: Assignment, one: string, two: string, s: string)
    requires !HasOp(one) && Value(env, one) == Some(1) && !HasOp(two) && Value(env, two) == Some(2)
    requires s == (one + ['-'] + one) + ['*'] + (two + ['-'] + one)
    ensures Value(env, s) == Some(-2)
  {
    ValueOfRepeatedMinus(env, one, one, two, one);
  }

  /** An input on which the answer [0, 0] does not contain the ordinary value, -2. */
  lemma RepeatedMinusIsUnsound(s: string)
    requires s == "1-1*2-1"
    ensures Evaluate(map[], s) == Some(Interval(0, 0)) && Value(map[], s) == Some(-2)
  {
    var one, two := "1", "2";
    assert s == (one + ['-'] + one) + ['*'] + (two + ['-'] + one);
    Digits(map[], map[], one, two);
    UnsoundResult(map[], one, two, s);
    UnsoundValue(map[], one, two, s);
    MulByPoint(0, 1);
    EvaluateIsCore(map[], s);
  }

  lemma MulByPoint(x: int, y: int)
    ensures Mul(Point(x), Point(y)) == Point(x * y)
  {
  }

  // ----- Why names that hold an operator are excluded -----

  /** A string that is itself such a name is looked up as a whole, and not evaluated. */
  lemma OperatorNameIsUnsound(vars: Variables, env: Assignment, a: string, b: string)
    requires a == "a" && b == "b" && vars == map[a + ['-'] + b := Point(5), a := Point(0), b := Point(0)]
    requires env == map[a + ['-'] + b := 5, a := 0, b := 0]
    ensures var s := a + ['-'] + b;
            DrawnFrom(env, vars) && Simple(s) && Evaluate(vars, s) == Some(Point(5)) && Value(env, s) == Some(0)
  {
    var s := a + ['-'] + b;
    assert s == "a-b" && |s| == 3 && s[0..3] == s;
    TrimIs(s, IsScriptSpace, 0, 3);
    assert Evaluate(vars, s) == Some(vars[s]);
    LetterValue(env, a);
    LetterValue(env, b);
    ValueOfJoinedSum(env, a, '-', b);
    JoinedCount(a, '-', b, '-');
    assert '+' !in s;
  }

  lemma LetterValue(env: Assignment, s: string)
    requires |s| == 1 && 'a' <= s[0] <= 'z' && s in env
    ensures !HasSum(s) && Value(env, s) == Some(env[s])
  {
    TrimIs(s, IsScriptSpace, 0, 1);
    assert s[0..1] == s;
    ValueOfTerm(env, s);
  }
}
