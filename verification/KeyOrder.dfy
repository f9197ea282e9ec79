/** UTF-16 text and the order in which JavaScript lists the keys of an object built from sorted keys. */
module KeyOrder {
  import opened Sequences

  /** A UTF-16 code unit. */
  type Unit = u: int | 0 <= u < 0x10000

  type Text = seq<Unit>

  /** Lexicographic by code unit, a proper prefix first: the order of `Array.prototype.sort` on strings. */
  predicate Less(a: Text, b: Text) {
    b != [] && (a == [] || a[0] < b[0] || (a[0] == b[0] && Less(a[1..], b[1..])))
  }

  lemma {:induction false} LessIsTotal(a: Text, b: Text)
    ensures a != b ==> Less(a, b) || Less(b, a)
    ensures !(Less(a, b) && Less(b, a)) && !Less(a, a)
  {
    if a != [] && b != [] {
      LessIsTotal(a[1..], b[1..]);
      LessIsTotal(a[1..], a[1..]);
      assert a == [a[0]] + a[1..] && b == [b[0]] + b[1..];
    } else if a != [] {
      LessIsTotal(a[1..], a[1..]);
    }
  }

  lemma {:induction false} LessIsTransitive(a: Text, b: Text, c: Text)
    requires Less(a, b) && Less(b, c)
    ensures Less(a, c)
  {
    if a != [] && a[0] == b[0] == c[0] {
      LessIsTransitive(a[1..], b[1..], c[1..]);
    }
  }

  /** "4294967294", the largest array index. */
  const MAX_INDEX: Text := [52, 50, 57, 52, 57, 54, 55, 50, 57, 52]

  /** A canonical decimal from 0 to 2^32 - 2. Such keys are listed before all others, by value. */
  predicate IsIndex(k: Text) {
    && k != []
    && (forall i | 0 <= i < |k| :: 48 <= k[i] <= 57)
    && (k == [48] || k[0] != 48)
    && (|k| < 10 || (|k| == 10 && !Less(MAX_INDEX, k)))
  }

  /**
   * Sorted keys are inserted one by one; listing them back gives the array indices in numeric
   * order (shorter decimals first, then digit by digit) and then the rest in sorted order.
   */
  predicate Before(a: Text, b: Text) {
    if IsIndex(a) != IsIndex(b) then IsIndex(a)
    else if IsIndex(a) && |a| != |b| then |a| < |b|
    else Less(a, b)
  }

  lemma BeforeIsTotal(a: Text, b: Text)
    ensures a != b ==> Before(a, b) || Before(b, a)
    ensures !(Before(a, b) && Before(b, a)) && !Before(a, a)
  {
    LessIsTotal(a, b);
    LessIsTotal(a, a);
  }

  lemma BeforeIsTransitive(a: Text, b: Text, c: Text)
    requires Before(a, b) && Before(b, c)
    ensures Before(a, c)
  {
    if Less(a, b) && Less(b, c) {
      LessIsTransitive(a, b, c);
    }
  }

  ghost predicate Ascending(ks: seq<Text>) {
    forall i, j | 0 <= i < j < |ks| :: Before(ks[i], ks[j])
  }

  function Insert(k: Text, ks: seq<Text>): seq<Text> {
    if ks == [] || Before(k, ks[0]) then [k] + ks else [ks[0]] + Insert(k, ks[1..])
  }

  function Sort(ks: seq<Text>): seq<Text> {
    if ks == [] then [] else Insert(ks[0], Sort(ks[1..]))
  }

  lemma {:induction false} InsertKeepsOrder(k: Text, ks: seq<Text>)
    requires Ascending(ks) && k !in ks
    ensures Ascending(Insert(k, ks)) && Elements(Insert(k, ks)) == Elements(ks) + {k}
  {
    if ks == [] {
    } else if Before(k, ks[0]) {
      forall j | 0 <= j < |ks|
        ensures Before(k, ks[j])
      {
        if j > 0 {
          BeforeIsTransitive(k, ks[0], ks[j]);
        }
      }
    } else {
      BeforeIsTotal(k, ks[0]);
      var rest := Insert(k, ks[1..]);
      InsertKeepsOrder(k, ks[1..]);
      forall j | 0 <= j < |rest|
        ensures Before(ks[0], rest[j])
      {
        assert rest[j] in Elements(rest);
      }
      assert Elements(ks) == {ks[0]} + Elements(ks[1..]);
      assert Elements([ks[0]] + rest) == {ks[0]} + Elements(rest);
    }
  }

  lemma {:induction false} SortSorts(ks: seq<Text>)
    requires Distinct(ks)
    ensures Ascending(Sort(ks)) && Elements(Sort(ks)) == Elements(ks)
  {
    if ks != [] {
      SortSorts(ks[1..]);
      assert ks[0] !in ks[1..];
      assert ks[0] !in Elements(Sort(ks[1..]));
      InsertKeepsOrder(ks[0], Sort(ks[1..]));
      assert Elements(ks) == {ks[0]} + Elements(ks[1..]);
    }
  }

  /** A set of keys has one ascending list. */
  lemma {:induction false} AscendingIsUnique(a: seq<Text>, b: seq<Text>)
    requires Ascending(a) && Ascending(b) && Elements(a) == Elements(b)
    ensures a == b
  {
    EmptyIff(a);
    EmptyIff(b);
    if a != [] {
      HeadsAgree(a, b);
      TailsAgree(a, b);
      AscendingIsUnique(a[1..], b[1..]);
      assert a == [a[0]] + a[1..] && b == [b[0]] + b[1..];
    }
  }

  lemma EmptyIff(a: seq<Text>)
    ensures a == [] <==> Elements(a) == {}
  {
    if a != [] {
      assert a[0] in Elements(a);
    }
  }

  lemma HeadsAgree(a: seq<Text>, b: seq<Text>)
    requires Ascending(a) && Ascending(b) && Elements(a) == Elements(b) && a != [] && b != []
    ensures a[0] == b[0]
  {
    assert a[0] in Elements(b) && b[0] in Elements(a);
    var i :| 0 <= i < |b| && b[i] == a[0];
    var j :| 0 <= j < |a| && a[j] == b[0];
    BeforeIsTotal(a[0], b[0]);
  }

  lemma TailsAgree(a: seq<Text>, b: seq<Text>)
    requires Ascending(a) && Ascending(b) && Elements(a) == Elements(b) && a != [] && b != [] && a[0] == b[0]
    ensures Elements(a[1..]) == Elements(b[1..])
  {
    TailElements(a);
    TailElements(b);
  }

  lemma TailElements(a: seq<Text>)
    requires Ascending(a) && a != []
    ensures Elements(a[1..]) == Elements(a) - {a[0]}
  {
    BeforeIsTotal(a[0], a[0]);
    forall x | x in Elements(a) - {a[0]}
      ensures x in Elements(a[1..])
    {
      var i :| 0 <= i < |a| && a[i] == x;
      assert a[1..][i - 1] == x;
    }
  }

  // ----- When the printed order is the sorted one -----

  /** An index that is printed before `b` although it sorts after it, because it is shorter or `b` is no index. */
  predicate Misordered(a: Text, b: Text) {
    IsIndex(a) && Less(b, a) && (!IsIndex(b) || |a| < |b|)
  }

  lemma BeforeButNotLess(a: Text, b: Text)
    requires a != b
    ensures Before(a, b) && !Less(a, b) <==> Misordered(a, b)
  {
    LessIsTotal(a, b);
  }

  ghost predicate SortedByUnits(ks: seq<Text>) {
    forall i, j | 0 <= i < j < |ks| :: Less(ks[i], ks[j])
  }

  /** Keys are printed in the order of section 3.2.3 of RFC 8785 exactly when no two of them are misordered. */
  lemma PrintedAsSortedIff(ks: seq<Text>)
    requires Distinct(ks)
    ensures SortedByUnits(Sort(ks)) <==> forall a, b | a in ks && b in ks :: !Misordered(a, b)
  {
    var printed := Sort(ks);
    SortSorts(ks);
    if SortedByUnits(printed) {
      forall a, b | a in ks && b in ks
        ensures !Misordered(a, b)
      {
        if Misordered(a, b) {
          MisorderedIsPrintedSo(printed, a, b);
        }
      }
    } else {
      var i, j :| 0 <= i < j < |printed| && !Less(printed[i], printed[j]);
      BeforeIsTotal(printed[i], printed[j]);
      BeforeButNotLess(printed[i], printed[j]);
      assert printed[i] in Elements(ks) && printed[j] in Elements(ks);
    }
  }

  lemma MisorderedIsPrintedSo(printed: seq<Text>, a: Text, b: Text)
    requires Ascending(printed) && a in Elements(printed) && b in Elements(printed) && Misordered(a, b)
    ensures !SortedByUnits(printed)
  {
    LessIsTotal(a, b);
    LessIsTotal(a, a);
    BeforeButNotLess(a, b);
    BeforeIsTotal(a, b);
    var i :| 0 <= i < |printed| && printed[i] == a;
    var j :| 0 <= j < |printed| && printed[j] == b;
    assert i < j;
  }

  /** "9" is printed before "10", which sorts first. */
  lemma NineBeforeTen(nine: Text, ten: Text)
    requires nine == [57] && ten == [49, 48]
    ensures Before(nine, ten) && Less(ten, nine) && Misordered(nine, ten)
  {
  }

  // ----- Index keys are numbers -----

  ghost predicate IsDecimal(k: Text) {
    forall i | 0 <= i < |k| :: 48 <= k[i] <= 57
  }

  ghost function Tens(n: nat): nat {
    if n == 0 then 1 else 10 * Tens(n - 1)
  }

  /** The number that decimal digits stand for. */
  ghost function NumberOf(k: Text): nat
    requires IsDecimal(k)
  {
    if k == [] then 0 else (k[0] - 48) * Tens(|k| - 1) + NumberOf(k[1..])
  }

  lemma {:induction false} NumberIsBelow(k: Text)
    requires IsDecimal(k)
    ensures NumberOf(k) < Tens(|k|)
  {
    if k != [] {
      NumberIsBelow(k[1..]);
      DigitTimes(k[0] - 48, Tens(|k| - 1));
    }
  }

  lemma DigitTimes(d: int, t: nat)
    requires 0 <= d <= 9
    ensures d * t <= 9 * t && (d >= 1 ==> d * t >= t)
  {
  }

  /** Equally many digits compare like their numbers. */
  lemma {:induction false} LessIsNumeric(a: Text, b: Text)
    requires IsDecimal(a) && IsDecimal(b) && |a| == |b|
    ensures Less(a, b) <==> NumberOf(a) < NumberOf(b)
  {
    if a != [] {
      NumberIsBelow(a[1..]);
      NumberIsBelow(b[1..]);
      LessIsNumeric(a[1..], b[1..]);
      FirstDigitDecides(a[0] - 48, b[0] - 48, Tens(|a| - 1), NumberOf(a[1..]), NumberOf(b[1..]));
    }
  }

  lemma FirstDigitDecides(d: int, e: int, t: nat, x: nat, y: nat)
    requires x < t && y < t
    ensures d < e ==> d * t + x < e * t + y
    ensures e < d ==> e * t + y < d * t + x
  {
    if d < e {
      AtLeastOneMore(d, e, t);
    }
    if e < d {
      AtLeastOneMore(e, d, t);
    }
  }

  lemma AtLeastOneMore(d: int, e: int, t: nat)
    requires d < e
    ensures d * t + t <= e * t
  {
    var gap: nat := e - d - 1;
    assert e * t == d * t + t + gap * t;
  }

  lemma {:induction false} TensGrow(m: nat, n: nat)
    requires m <= n
    ensures Tens(m) <= Tens(n)
  {
    if m < n {
      TensGrow(m, n - 1);
    }
  }

  /** A number without leading zeros has as many digits as its size asks for. */
  lemma {:induction false} LongerIsLarger(a: Text, b: Text)
    requires IsDecimal(a) && IsDecimal(b) && |a| < |b| && b[0] != 48
    ensures NumberOf(a) < NumberOf(b)
  {
    NumberIsBelow(a);
    TensGrow(|a|, |b| - 1);
    DigitTimes(b[0] - 48, Tens(|b| - 1));
  }

  ghost predicate IsCanonical(k: Text) {
    k != [] && IsDecimal(k) && (k == [48] || k[0] != 48)
  }

  /** The array indices are the numbers up to 2^32 - 2, written without leading zeros. */
  lemma {:induction false} IndexIff(k: Text)
    ensures IsIndex(k) <==> IsCanonical(k) && NumberOf(k) <= 4294967294
  {
    if IsCanonical(k) {
      MaxIndexIs();
      if |k| < 10 {
        LongerIsLarger(k, MAX_INDEX);
      } else if |k| == 10 {
        LessIsNumeric(MAX_INDEX, k);
      } else {
        LongerIsLarger(MAX_INDEX, k);
      }
    }
  }

  lemma OneDigitMore(d: Unit, k: Text, tens: nat, rest: nat)
    requires 48 <= d <= 57 && IsDecimal(k) && Tens(|k|) == tens && NumberOf(k) == rest
    ensures IsDecimal([d] + k) && NumberOf([d] + k) == (d - 48) * tens + rest && Tens(|[d] + k|) == 10 * tens
  {
    assert ([d] + k)[1..] == k;
  }

  lemma MaxIndexIs()
    ensures IsDecimal(MAX_INDEX) && NumberOf(MAX_INDEX) == 4294967294
  {
    var mid := MiddleDigits();
    OneDigitMore(50, mid, 100000000, 94967294);
    var high := [50] + mid;
    OneDigitMore(52, high, 1000000000, 294967294);
    assert MAX_INDEX == [52] + high;
  }

  lemma MiddleDigits() returns (mid: Text)
    ensures mid == [57, 52, 57, 54, 55, 50, 57, 52] && IsDecimal(mid) && NumberOf(mid) == 94967294 && Tens(|mid|) == 100000000
  {
    var low := LowDigits();
    OneDigitMore(57, low, 100000, 67294);
    var six := [57] + low;
    OneDigitMore(52, six, 1000000, 967294);
    var seven := [52] + six;
    OneDigitMore(57, seven, 10000000, 4967294);
    mid := [57] + seven;
  }

  lemma LowDigits() returns (low: Text)
    ensures low == [54, 55, 50, 57, 52] && IsDecimal(low) && NumberOf(low) == 67294 && Tens(|low|) == 100000
  {
    OneDigitMore(52, [], 1, 0);
    OneDigitMore(57, [52] + [], 10, 4);
    OneDigitMore(50, [57] + ([52] + []), 100, 94);
    OneDigitMore(55, [50] + ([57] + ([52] + [])), 1000, 294);
    OneDigitMore(54, [55] + ([50] + ([57] + ([52] + []))), 10000, 7294);
    low := [54] + ([55] + ([50] + ([57] + ([52] + []))));
  }

  /** Index keys are printed by value. */
  lemma {:induction false} IndicesGoByValue(a: Text, b: Text)
    requires IsIndex(a) && IsIndex(b)
    ensures Before(a, b) <==> NumberOf(a) < NumberOf(b)
  {
    if |a| < |b| {
      LongerIsLarger(a, b);
    } else if |b| < |a| {
      LongerIsLarger(b, a);
    } else {
      LessIsNumeric(a, b);
    }
  }
}
