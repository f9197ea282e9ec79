/** The one shape of expression with repeated signs that can be evaluated soundly in every state. */
module ExceptionalShape {
  import opened Wrappers
  import opened Sequences
  import opened Text
  import opened Intervals
  import opened ExpressionEvaluator
  import opened ExpressionSoundness
  import opened ConstantStates
  import opened ExpressionExactness

  lemma {:induction false} KnownDifferenceEvaluates(vars: Variables, s: string)
    requires Known(vars, s) && Stars(s) == 0 && Plus(s) == 0 && Minus(s) <= 1
    ensures Core(vars, s).Some?
  {
    NoOpIff(s);
    if Minus(s) == 1 {
      OnlyOnce(s, '-');
      var i := FirstIndex(s, '-');
      CountsAdd(s, i);
      KnownParts(vars, s, i);
      KnownAtomEvaluates(vars, s[..i]);
      KnownAtomEvaluates(vars, s[i + 1..]);
      assert CoreSplit(vars, s, '-').Some?;
    } else {
      KnownAtomEvaluates(vars, s);
    }
  }

  lemma {:induction false} KnownAtomEvaluates(vars: Variables, s: string)
    requires Known(vars, s) && Stars(s) == Plus(s) == Minus(s) == 0
    ensures Core(vars, s).Some?
  {
    NoOpIff(s);
    assert s[0..|s|] == s;
    assert IsStretch(s, 0, |s|);
  }

  lemma {:induction false} KnownSumEvaluates(vars: Variables, s: string)
    requires Known(vars, s) && Stars(s) == 0 && Plus(s) == 1 && Minus(s) == 1
    ensures Core(vars, s).Some?
  {
    OnlyOnce(s, '+');
    var i := FirstIndex(s, '+');
    CountsAdd(s, i);
    KnownParts(vars, s, i);
    KnownDifferenceEvaluates(vars, s[..i]);
    KnownDifferenceEvaluates(vars, s[i + 1..]);
    assert CoreSplit(vars, s, '+').Some?;
    assert IsOp(s[i]);
  }

  /** A string of the shape is evaluated as the product of its two sides. */
  lemma {:induction false} ExceptionalIsProduct(vars: Variables, s: string, i: nat)
    requires Known(vars, s) && ExceptionalAt(s, i)
    ensures Core(vars, s[..i]).Some? && Core(vars, s[i + 1..]).Some?
    ensures Core(vars, s) == Some(Mul(Core(vars, s[..i]).value, Core(vars, s[i + 1..]).value))
  {
    KnownParts(vars, s, i);
    KnownSumEvaluates(vars, s[..i]);
    KnownSumEvaluates(vars, s[i + 1..]);
    OnlyStarSplits(vars, s, i);
    SplitResult(vars, s, '*', i);
  }

  lemma {:induction false} OnlyStarSplits(vars: Variables, s: string, i: nat)
    requires ExceptionalAt(s, i) && Core(vars, s[..i]).Some? && Core(vars, s[i + 1..]).Some?
    ensures CoreSplit(vars, s, '*').Some? && Core(vars, s) == CoreSplit(vars, s, '*')
  {
    CountsAdd(s, i);
    NoSplitByCount(vars, s);
    SplitSome(vars, s, '*', i);
  }

  lemma {:induction false} SplitSome(vars: Variables, s: string, op: char, i: nat)
    requires i < |s| && s[i] == op && Count(s, op) == 1 && Core(vars, s[..i]).Some? && Core(vars, s[i + 1..]).Some?
    ensures CoreSplit(vars, s, op).Some?
  {
    OnlyOnce(s, op);
    CountOfParts(s, op, i);
    UniquePosition(s, op, i, FirstIndex(s, op));
  }

  lemma {:induction false} NoSplitByCount(vars: Variables, s: string)
    requires Plus(s) == 2 && Minus(s) == 2
    ensures Core(vars, s) == CoreSplit(vars, s, '*')
  {
    NoOpIff(s);
  }

  lemma KnownByNames(vars: Variables, s: string)
    requires vars.Keys == NamesOf(s)
    ensures Known(vars, s)
  {
    forall a: nat, b: nat | IsStretch(s, a, b)
      ensures Atom(vars, s[a..b]).Some?
    {
      assert Trim(s[a..b], IsScriptSpace) in NamesOf(s);
    }
  }

  /** Under every assignment, the value of the whole is the product of the values of its two sides. */
  ghost predicate IsAlwaysProduct(s: string, i: nat)
    requires i < |s|
  {
    forall env: Assignment | env.Keys == NamesOf(s) :: Value(env, s) == Lift('*', Value(env, s[..i]), Value(env, s[i + 1..]))
  }

  /** A string of the shape is evaluated soundly in every state exactly if its value is that product. */
  lemma {:induction false} ExceptionalIsSoundIff(s: string, i: nat)
    requires ExceptionalAt(s, i)
    ensures SoundInEveryState(s) <==> IsAlwaysProduct(s, i)
  {
    if IsAlwaysProduct(s, i) {
      forall vars: Variables, env | vars.Keys == NamesOf(s) && DrawnFrom(env, vars)
        ensures Encloses(Evaluate(vars, s), Value(env, s))
      {
        ProductIsSound(vars, env, s, i);
      }
    }
    if SoundInEveryState(s) {
      forall env: Assignment | env.Keys == NamesOf(s)
        ensures Value(env, s) == Lift('*', Value(env, s[..i]), Value(env, s[i + 1..]))
      {
        SoundIsProduct(env, s, i);
      }
    }
  }

  lemma {:induction false} SidesAreEnclosed(vars: Variables, env: Assignment, s: string, i: nat)
    requires ExceptionalAt(s, i) && Known(vars, s) && DrawnFrom(env, vars)
    ensures Core(vars, s[..i]).Some? && Encloses(Core(vars, s[..i]), Value(env, s[..i]))
    ensures Core(vars, s[i + 1..]).Some? && Encloses(Core(vars, s[i + 1..]), Value(env, s[i + 1..]))
  {
    ExceptionalIsProduct(vars, s, i);
    SimpleByCounts(s[..i]);
    SimpleByCounts(s[i + 1..]);
    CoreIsSound(vars, env, s[..i]);
    CoreIsSound(vars, env, s[i + 1..]);
  }

  lemma {:induction false} ProductIsSound(vars: Variables, env: Assignment, s: string, i: nat)
    requires ExceptionalAt(s, i) && IsAlwaysProduct(s, i) && vars.Keys == NamesOf(s) && DrawnFrom(env, vars)
    ensures Encloses(Evaluate(vars, s), Value(env, s))
  {
    NamesArePlain(vars, s);
    EvaluateIsCore(vars, s);
    KnownByNames(vars, s);
    ExceptionalIsProduct(vars, s, i);
    SidesAreEnclosed(vars, env, s, i);
    OperateIsSound('*', Core(vars, s[..i]), Core(vars, s[i + 1..]), Value(env, s[..i]), Value(env, s[i + 1..]));
  }

  lemma {:induction false} SoundIsProduct(env: Assignment, s: string, i: nat)
    requires ExceptionalAt(s, i) && SoundInEveryState(s) && env.Keys == NamesOf(s)
    ensures Value(env, s) == Lift('*', Value(env, s[..i]), Value(env, s[i + 1..]))
  {
    var vars: Variables := map x | x in env :: Point(env[x]);
    KnownByNames(vars, s);
    ExceptionalIsProduct(vars, s, i);
    SoundMeansAgrees(s, vars, env);
    ProductOfPoints(vars, env, s, i);
  }

  lemma {:induction false} ProductOfPoints(vars: Variables, env: Assignment, s: string, i: nat)
    requires ExceptionalAt(s, i) && Known(vars, s) && DrawnFrom(env, vars) && AllPoints(vars) && Agrees(vars, env, s)
    requires Core(vars, s[..i]).Some? && Core(vars, s[i + 1..]).Some?
    requires Core(vars, s) == Some(Mul(Core(vars, s[..i]).value, Core(vars, s[i + 1..]).value))
    ensures Value(env, s) == Lift('*', Value(env, s[..i]), Value(env, s[i + 1..]))
  {
    SidesAreEnclosed(vars, env, s, i);
    EnclosingPoint(vars, env, s[..i]);
    EnclosingPoint(vars, env, s[i + 1..]);
    MulByPoint(Value(env, s[..i]).value, Value(env, s[i + 1..]).value);
  }

  // ----- A string of the shape that is sound: the signs cancel on either side -----

  lemma PairedCounts(a: string, c: string, d: string, e: string, l: string, r: string)
    requires !HasOp(a) && !HasOp(c) && !HasOp(d) && !HasOp(e)
    requires l == (a + ['-'] + a) + ['+'] + c && r == (d + ['+'] + e) + ['-'] + e
    ensures Plus(l) == Minus(l) == Plus(r) == Minus(r) == 1 && Stars(l) == Stars(r) == 0 && !EndsNegative(l)
  {
    PairCounts(a, '-', a, '+', c, l);
    PairCounts(d, '+', e, '-', e, r);
    Joined(a + ['-'] + a, '+', c);
    SumsOfParts(l, |a + ['-'] + a|);
  }

  lemma PairCounts(x: string, o: char, y: string, p: char, z: string, s: string)
    requires !HasOp(x) && !HasOp(y) && !HasOp(z) && IsSum(o) && IsSum(p) && o != p && s == (x + [o] + y) + [p] + z
    ensures Plus(s) == Minus(s) == 1 && Stars(s) == 0
  {
    CountsInPair(x, o, y);
    forall k | IsOp(k)
      ensures Count(s, k) == if k == o || k == p then 1 else 0
    {
      JoinedCount(x + [o] + y, p, z, k);
      NoOpCount(z, k);
    }
  }

  lemma ThreeTerms(env: Assignment, x: string, o: char, y: string, p: char, z: string, s: string)
    requires !HasSum(y) && !HasSum(z) && IsSum(o) && IsSum(p) && s == (x + [o] + y) + [p] + z
    ensures Value(env, s) == Lift(p, Lift(o, Value(env, x), Value(env, y)), Value(env, z))
  {
    ValueOfJoinedSum(env, x, o, y);
    ValueOfJoinedSum(env, x + [o] + y, p, z);
  }

  lemma AppendLater(x: string, d: string, q: string, e: string)
    ensures x + (d + q + e) == (x + d) + q + e
  {
  }

  lemma RegroupPaired(a: string, p: string, c: string, m: string, d: string, e: string, n: string)
    ensures (a + p + c) + m + ((d + p + e) + n + e) == ((a + p + (c + m + d)) + p + e) + n + e
  {
    var x := (a + p + c) + m;
    AppendLater(x, d + p + e, n, e);
    AppendLater(x, d, p, e);
    Reassociate(a, p, c, m, d);
  }

  lemma PairedWhole(env: Assignment, a: string, c: string, d: string, e: string, s: string)
    requires !HasOp(a) && !HasOp(c) && !HasOp(d) && !HasOp(e)
    requires s == ((a + ['-'] + a) + ['+'] + c) + ['*'] + ((d + ['+'] + e) + ['-'] + e)
    ensures Value(env, s)
      == Lift('-', Lift('+', Lift('+', Lift('-', Value(env, a), Value(env, a)), Lift('*', Value(env, c), Value(env, d))), Value(env, e)), Value(env, e))
  {
    var product := c + ['*'] + d;
    var first := (a + ['-'] + a) + ['+'] + product;
    assert !HasSum(a) && !HasSum(e);
    ValueOfProduct(env, c, d);
    ThreeTerms(env, a, '-', a, '+', product, first);
    RegroupPaired(a + ['-'] + a, ['+'], c, ['*'], d, e, ['-']);
    ThreeTerms(env, first, '+', e, '-', e, s);
  }

  lemma PairedValue(env: Assignment, a: string, c: string, d: string, e: string, l: string, r: string)
    requires !HasOp(a) && !HasOp(c) && !HasOp(d) && !HasOp(e)
    requires l == (a + ['-'] + a) + ['+'] + c && r == (d + ['+'] + e) + ['-'] + e
    ensures Value(env, l + ['*'] + r) == Lift('*', Value(env, l), Value(env, r))
  {
    assert !HasSum(a) && !HasSum(c) && !HasSum(e);
    ThreeTerms(env, a, '-', a, '+', c, l);
    ThreeTerms(env, d, '+', e, '-', e, r);
    PairedWhole(env, a, c, d, e, l + ['*'] + r);
    Cancels(Value(env, a), Value(env, c), Value(env, d), Value(env, e));
  }

  lemma Cancels(a: Option<int>, c: Option<int>, d: Option<int>, e: Option<int>)
    ensures Lift('-', Lift('+', Lift('+', Lift('-', a, a), Lift('*', c, d)), e), e)
      == Lift('*', Lift('+', Lift('-', a, a), c), Lift('-', Lift('+', d, e), e))
  {
  }

  /** So a - a + c * d + e - e is sound in every state although its signs repeat. */
  lemma PairedIsSound(a: string, c: string, d: string, e: string, l: string, r: string)
    requires !HasOp(a) && !HasOp(c) && !HasOp(d) && !HasOp(e)
    requires l == (a + ['-'] + a) + ['+'] + c && r == (d + ['+'] + e) + ['-'] + e
    ensures ExceptionalAt(l + ['*'] + r, |l|) && !Simple(l + ['*'] + r) && SoundInEveryState(l + ['*'] + r)
  {
    var s := l + ['*'] + r;
    PairedCounts(a, c, d, e, l, r);
    Joined(l, '*', r);
    CountsAdd(s, |l|);
    if Simple(s) {
      SimplePlus(s);
      assert false;
    }
    forall env: Assignment | env.Keys == NamesOf(s)
      ensures Value(env, s) == Lift('*', Value(env, s[..|l|]), Value(env, s[|l| + 1..]))
    {
      PairedValue(env, a, c, d, e, l, r);
    }
    ExceptionalIsSoundIff(s, |l|);
  }
}
