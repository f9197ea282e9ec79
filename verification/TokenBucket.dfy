/** The token bucket: its budget over every stretch of time. */
module TokenBucket {
  import opened Wrappers

  /** Capacity in tokens, and tokens added per millisecond. */
  datatype Rate = Rate(capacity: real, perMs: real)

  /** The tokens left at the last refill, and the time of that refill. */
  datatype Level = Level(tokens: real, at: real)

  ghost predicate ValidRate(r: Rate) {
    r.capacity > 0.0 && r.perMs > 0.0
  }

  ghost predicate ValidLevel(r: Rate, l: Level) {
    0.0 <= l.tokens <= r.capacity
  }

  /** The tokens that the time from a to b brings. */
  function Gain(r: Rate, a: real, b: real): real {
    r.perMs * (b - a)
  }

  function Refill(r: Rate, l: Level, now: real): Level {
    var refilled := l.tokens + if now < l.at then 0.0 else Gain(r, l.at, now);
    Level(if refilled < r.capacity then refilled else r.capacity, now)
  }

  function Consume(l: Level): (Level, bool) {
    if l.tokens >= 1.0 then (Level(l.tokens - 1.0, l.at), true) else (l, false)
  }

  function TryOnce(r: Rate, l: Level, now: real): (Level, bool) {
    Consume(Refill(r, l, now))
  }

  class Bucket {
    const rate: Rate
    var level: Level

    constructor (rate: Rate, now: real)
      ensures this.rate == rate && level == Level(rate.capacity, now)
    {
      this.rate, this.level := rate, Level(rate.capacity, now);
    }

    method TryConsume(now: real) returns (ok: bool)
      modifies this
      ensures (level, ok) == TryOnce(rate, old(level), now)
    {
      level := Refill(rate, level, now);
      if level.tokens >= 1.0 {
        level := Level(level.tokens - 1.0, level.at);
        return true;
      }
      return false;
    }
  }

  /** A bucket whose settings are not both positive is refused. */
  method NewBucket(capacity: real, refillRatePerSecond: real, now: real) returns (b: Option<Bucket>)
    ensures b.Some? <==> capacity > 0.0 && refillRatePerSecond > 0.0
    ensures b.Some? ==> fresh(b.value) && ValidRate(b.value.rate) && b.value.level == Level(capacity, now)
    ensures b.Some? ==> b.value.rate == Rate(capacity, refillRatePerSecond / 1000.0)
  {
    if capacity <= 0.0 || refillRatePerSecond <= 0.0 {
      return None;
    }
    var bucket := new Bucket(Rate(capacity, refillRatePerSecond / 1000.0), now);
    b := Some(bucket);
  }

  // ----- The budget of a stretch of time -----

  /**
   * `count` events have been admitted at times in [s, t]. Those still to come before t are paid
   * for by the tokens left: together they stay within the capacity and what s..t refills.
   */
  ghost predicate WithinBudget(r: Rate, l: Level, s: real, t: real, count: nat) {
    && ValidLevel(r, l)
    && count as real <= r.capacity + Gain(r, s, t)
    && (count > 0 ==> s <= l.at)
    && (count > 0 && l.at <= t ==> count as real + l.tokens <= r.capacity + Gain(r, s, l.at))
  }

  lemma GainAdds(r: Rate, a: real, b: real, c: real)
    ensures Gain(r, a, b) + Gain(r, b, c) == Gain(r, a, c)
  {
  }

  lemma GainIsNonNegative(r: Rate, a: real, b: real)
    requires ValidRate(r) && a <= b
    ensures Gain(r, a, b) >= 0.0
  {
  }

  lemma RefillKeepsLevel(r: Rate, l: Level, now: real)
    requires ValidRate(r) && ValidLevel(r, l)
    ensures ValidLevel(r, Refill(r, l, now)) && Refill(r, l, now).tokens >= l.tokens
  {
    if now >= l.at {
      GainIsNonNegative(r, l.at, now);
    }
  }

  lemma RefillKeepsBudget(r: Rate, l: Level, now: real, s: real, t: real, count: nat)
    requires ValidRate(r) && WithinBudget(r, l, s, t, count) && l.at <= now
    ensures WithinBudget(r, Refill(r, l, now), s, t, count)
  {
    RefillKeepsLevel(r, l, now);
    GainAdds(r, s, l.at, now);
    assert Refill(r, l, now).tokens <= l.tokens + Gain(r, l.at, now);
  }

  lemma ConsumeKeepsBudget(r: Rate, l: Level, s: real, t: real, count: nat)
    requires ValidRate(r) && WithinBudget(r, l, s, t, count) && s <= t
    ensures var (after, ok) := Consume(l);
            WithinBudget(r, after, s, t, if ok && s <= l.at <= t then count + 1 else count)
  {
    if s <= l.at <= t {
      GainIsNonNegative(r, s, l.at);
      GainIsNonNegative(r, l.at, t);
      GainAdds(r, s, l.at, t);
      AdmittingOne(count, l.tokens, r.capacity, Gain(r, s, l.at));
    }
  }

  lemma TryKeepsBudget(r: Rate, l: Level, now: real, s: real, t: real, count: nat)
    requires ValidRate(r) && WithinBudget(r, l, s, t, count) && l.at <= now && s <= t
    ensures var (after, ok) := TryOnce(r, l, now);
            WithinBudget(r, after, s, t, if ok && s <= now <= t then count + 1 else count)
  {
    RefillKeepsBudget(r, l, now, s, t, count);
    ConsumeKeepsBudget(r, Refill(r, l, now), s, t, count);
  }

  lemma AdmittingOne(count: nat, tokens: real, capacity: real, refilled: real)
    requires 0.0 <= refilled && 0.0 <= tokens <= capacity
    requires count > 0 ==> count as real + tokens <= capacity + refilled
    ensures tokens >= 1.0 ==> (count + 1) as real + (tokens - 1.0) <= capacity + refilled
    ensures tokens >= 1.0 ==> (count + 1) as real <= capacity + refilled
  {
    assert (count + 1) as real == count as real + 1.0;
    assert count == 0 ==> count as real == 0.0;
  }

  // ----- Whole runs -----

  /** The level after calls at the given times. */
  function After(r: Rate, l: Level, times: seq<real>): Level {
    if times == [] then l
    else TryOnce(r, After(r, l, times[..|times| - 1]), times[|times| - 1]).0
  }

  /** How many of the calls with times in [s, t] were admitted. */
  function AdmittedIn(r: Rate, l: Level, times: seq<real>, s: real, t: real): nat {
    if times == [] then 0
    else
      var n := |times| - 1;
      var (_, ok) := TryOnce(r, After(r, l, times[..n]), times[n]);
      AdmittedIn(r, l, times[..n], s, t) + if ok && s <= times[n] <= t then 1 else 0
  }

  ghost predicate NonDecreasing(start: real, times: seq<real>) {
    && (forall i | 0 <= i < |times| :: start <= times[i])
    && (forall i, j | 0 <= i < j < |times| :: times[i] <= times[j])
  }

  /** From a full bucket and on a clock that never goes back, the bound holds for any s <= t. */
  lemma {:induction false} RateIsRespected(r: Rate, start: real, times: seq<real>, s: real, t: real)
    requires ValidRate(r) && NonDecreasing(start, times) && s <= t
    ensures ValidLevel(r, After(r, Level(r.capacity, start), times))
    ensures AdmittedIn(r, Level(r.capacity, start), times, s, t) as real <= r.capacity + Gain(r, s, t)
  {
    BudgetAfter(r, start, times, s, t);
  }

  lemma {:induction false} BudgetAfter(r: Rate, start: real, times: seq<real>, s: real, t: real)
    requires ValidRate(r) && NonDecreasing(start, times) && s <= t
    ensures var full := Level(r.capacity, start);
            WithinBudget(r, After(r, full, times), s, t, AdmittedIn(r, full, times, s, t))
    ensures After(r, Level(r.capacity, start), times).at == if times == [] then start else times[|times| - 1]
  {
    if times == [] {
      GainIsNonNegative(r, s, t);
    } else {
      var n := |times| - 1;
      var full := Level(r.capacity, start);
      BudgetAfter(r, start, times[..n], s, t);
      TryKeepsBudget(r, After(r, full, times[..n]), times[n], s, t, AdmittedIn(r, full, times[..n], s, t));
    }
  }

  // ----- Exactly when a call is refused -----

  /** What the stretch from s to t has to spend: a full bucket, its refill, less what it admitted. */
  ghost function Allowance(r: Rate, start: real, times: seq<real>, s: real, t: real): real {
    r.capacity + Gain(r, s, t) - AdmittedIn(r, Level(r.capacity, start), times, s, t) as real
  }

  /** The level after a run is what some stretch up to now has to spend. */
  ghost predicate IsAllowance(r: Rate, start: real, times: seq<real>, l: Level, s: real) {
    start <= s <= l.at && l.tokens == Allowance(r, start, times, s, l.at)
  }

  lemma {:induction false} AdmittedIsPast(r: Rate, l: Level, times: seq<real>, s: real, t: real, t': real)
    requires t <= t' && forall i | 0 <= i < |times| :: times[i] <= t
    ensures AdmittedIn(r, l, times, s, t) == AdmittedIn(r, l, times, s, t')
  {
    if times != [] {
      AdmittedIsPast(r, l, times[..|times| - 1], s, t, t');
    }
  }

  lemma {:induction false} LevelIsAt(r: Rate, start: real, times: seq<real>)
    requires ValidRate(r) && NonDecreasing(start, times)
    ensures After(r, Level(r.capacity, start), times).at == if times == [] then start else times[|times| - 1]
    ensures ValidLevel(r, After(r, Level(r.capacity, start), times))
  {
    BudgetAfter(r, start, times, start, start);
  }

  /** The level is bounded by what every stretch has to spend. */
  lemma {:induction false} LevelWithinAllowance(r: Rate, start: real, times: seq<real>, s: real, now: real)
    requires ValidRate(r) && NonDecreasing(start, times + [now]) && start <= s <= now
    ensures Refill(r, After(r, Level(r.capacity, start), times), now).tokens <= Allowance(r, start, times, s, now)
  {
    var full := Level(r.capacity, start);
    NonDecreasingInit(start, times, now);
    LevelIsAt(r, start, times);
    BudgetAfter(r, start, times, s, now);
    RefillKeepsBudget(r, After(r, full, times), now, s, now, AdmittedIn(r, full, times, s, now));
    GainIsNonNegative(r, s, now);
    assert AdmittedIn(r, full, times, s, now) == 0 ==> AdmittedIn(r, full, times, s, now) as real == 0.0;
  }

  lemma NonDecreasingInit(start: real, times: seq<real>, now: real)
    requires NonDecreasing(start, times + [now])
    ensures NonDecreasing(start, times) && start <= now && forall i | 0 <= i < |times| :: times[i] <= now
  {
    var all := times + [now];
    assert all[|times|] == now && forall i | 0 <= i < |times| :: all[i] == times[i];
  }

  /** If a refill fills the bucket up, no call was admitted at that very time before. */
  lemma {:induction false} FullMeansNoneNow(r: Rate, start: real, times: seq<real>, now: real)
    requires ValidRate(r) && NonDecreasing(start, times + [now])
    requires Refill(r, After(r, Level(r.capacity, start), times), now).tokens == r.capacity
    ensures AdmittedIn(r, Level(r.capacity, start), times, now, now) == 0
  {
    NonDecreasingInit(start, times, now);
    LevelWithinAllowance(r, start, times, now, now);
    NoGain(r, now);
    var n := AdmittedIn(r, Level(r.capacity, start), times, now, now);
    assert n >= 1 ==> n as real >= 1.0;
  }

  lemma NoGain(r: Rate, a: real)
    ensures Gain(r, a, a) == 0.0
  {
  }

  lemma {:induction false} RefillIsAllowance(r: Rate, start: real, times: seq<real>, now: real, s: real) returns (s': real)
    requires ValidRate(r) && NonDecreasing(start, times + [now])
    requires IsAllowance(r, start, times, After(r, Level(r.capacity, start), times), s)
    ensures IsAllowance(r, start, times, Refill(r, After(r, Level(r.capacity, start), times), now), s')
  {
    var l := After(r, Level(r.capacity, start), times);
    NonDecreasingInit(start, times, now);
    LevelIsAt(r, start, times);
    if Refill(r, l, now).tokens == r.capacity {
      FullMeansNoneNow(r, start, times, now);
      NoGain(r, now);
      s' := now;
    } else {
      GainAdds(r, s, l.at, now);
      AdmittedIsPast(r, Level(r.capacity, start), times, s, l.at, now);
      s' := s;
    }
  }

  lemma {:induction false} TryIsAllowance(r: Rate, start: real, times: seq<real>, now: real, s: real)
    requires NonDecreasing(start, times + [now])
    requires IsAllowance(r, start, times, Refill(r, After(r, Level(r.capacity, start), times), now), s)
    ensures IsAllowance(r, start, times + [now], After(r, Level(r.capacity, start), times + [now]), s)
  {
    var full := Level(r.capacity, start);
    OneMoreCall(r, full, times, now, s, now);
    var n := AdmittedIn(r, full, times, s, now);
    assert (n + 1) as real == n as real + 1.0;
  }

  /** On a clock that never goes back, the level is what some stretch up to now has to spend. */
  lemma {:induction false} LevelIsAllowance(r: Rate, start: real, times: seq<real>) returns (s: real)
    requires ValidRate(r) && NonDecreasing(start, times)
    ensures IsAllowance(r, start, times, After(r, Level(r.capacity, start), times), s)
    decreases |times|
  {
    if times == [] {
      NoGain(r, start);
      s := start;
    } else {
      var n := |times| - 1;
      var init, now := times[..n], times[n];
      assert times == init + [now];
      NonDecreasingInit(start, init, now);
      s := LevelIsAllowance(r, start, init);
      s := RefillIsAllowance(r, start, init, now, s);
      TryIsAllowance(r, start, init, now, s);
    }
  }

  /**
   * After any run on a clock that never goes back, a call is refused if and only if some stretch
   * up to it has less than one token left to spend, by a recount of the calls admitted in it.
   */
  lemma {:induction false} RefusedIff(r: Rate, start: real, times: seq<real>, now: real)
    requires ValidRate(r) && NonDecreasing(start, times + [now])
    ensures !TryOnce(r, After(r, Level(r.capacity, start), times), now).1
      <==> exists s :: start <= s <= now && Allowance(r, start, times, s, now) < 1.0
  {
    var l := After(r, Level(r.capacity, start), times);
    NonDecreasingInit(start, times, now);
    var s0 := LevelIsAllowance(r, start, times);
    var s := RefillIsAllowance(r, start, times, now, s0);
    assert start <= s <= now && Allowance(r, start, times, s, now) == Refill(r, l, now).tokens;
    forall x | start <= x <= now
      ensures Refill(r, l, now).tokens <= Allowance(r, start, times, x, now)
    {
      LevelWithinAllowance(r, start, times, x, now);
    }
  }

  // ----- Any clock -----

  /** The tokens that one movement of the clock brings: none if it goes back. */
  function Brings(r: Rate, a: real, b: real): real {
    if b < a then 0.0 else Gain(r, a, b)
  }

  function ClockAfter(at: real, times: seq<real>): real {
    if times == [] then at else times[|times| - 1]
  }

  /** How far the clock moves forward, all in all, when it shows `at` and then these times. */
  function Forward(at: real, times: seq<real>): (d: real)
    ensures d >= 0.0
  {
    if times == [] then 0.0
    else
      var n := |times| - 1;
      var before := ClockAfter(at, times[..n]);
      Forward(at, times[..n]) + if times[n] < before then 0.0 else times[n] - before
  }

  /** The tokens that all these movements bring. */
  function Brought(r: Rate, at: real, times: seq<real>): real {
    if times == [] then 0.0
    else var n := |times| - 1; Brought(r, at, times[..n]) + Brings(r, ClockAfter(at, times[..n]), times[n])
  }

  /** How many of the calls were admitted. */
  function AdmittedOf(r: Rate, l: Level, times: seq<real>): nat {
    if times == [] then 0
    else
      var n := |times| - 1;
      AdmittedOf(r, l, times[..n]) + if TryOnce(r, After(r, l, times[..n]), times[n]).1 then 1 else 0
  }

  lemma TryPays(r: Rate, l: Level, now: real)
    requires ValidRate(r) && ValidLevel(r, l)
    ensures var (after, ok) := TryOnce(r, l, now);
            && ValidLevel(r, after) && after.at == now
            && after.tokens + (if ok then 1.0 else 0.0) <= l.tokens + Brings(r, l.at, now)
  {
    RefillKeepsLevel(r, l, now);
  }

  lemma OneMorePaid(count: nat, ok: bool, had: real, left: real, start: real, brought: real, more: real)
    requires count as real + had <= start + brought && left + (if ok then 1.0 else 0.0) <= had + more
    ensures (count + if ok then 1 else 0) as real + left <= start + (brought + more)
  {
    assert (count + 1) as real == count as real + 1.0;
  }

  lemma {:induction false} AnyClockLevel(r: Rate, l: Level, times: seq<real>)
    requires ValidRate(r) && ValidLevel(r, l)
    ensures ValidLevel(r, After(r, l, times)) && After(r, l, times).at == ClockAfter(l.at, times)
  {
    if times != [] {
      AnyClockLevel(r, l, times[..|times| - 1]);
      TryPays(r, After(r, l, times[..|times| - 1]), times[|times| - 1]);
    }
  }

  lemma {:induction false} AnyClockPays(r: Rate, l: Level, times: seq<real>)
    requires ValidRate(r) && ValidLevel(r, l)
    ensures AdmittedOf(r, l, times) as real + After(r, l, times).tokens <= l.tokens + Brought(r, l.at, times)
  {
    if times != [] {
      var n := |times| - 1;
      AnyClockPays(r, l, times[..n]);
      AnyClockLevel(r, l, times[..n]);
      var before := After(r, l, times[..n]);
      TryPays(r, before, times[n]);
      OneMorePaid(AdmittedOf(r, l, times[..n]), TryOnce(r, before, times[n]).1, before.tokens, After(r, l, times).tokens,
                  l.tokens, Brought(r, l.at, times[..n]), Brings(r, before.at, times[n]));
    }
  }

  lemma Distributes(a: real, b: real, c: real)
    ensures a * b + a * c == a * (b + c) && a * 0.0 == 0.0
  {
  }

  lemma {:induction false} BroughtIsForward(r: Rate, at: real, times: seq<real>)
    ensures Brought(r, at, times) == r.perMs * Forward(at, times)
  {
    if times != [] {
      var n := |times| - 1;
      BroughtIsForward(r, at, times[..n]);
      var before := ClockAfter(at, times[..n]);
      Distributes(r.perMs, Forward(at, times[..n]), if times[n] < before then 0.0 else times[n] - before);
      Distributes(r.perMs, 0.0, 0.0);
    }
  }

  /**
   * On any clock and from any level: the events admitted are paid for by the tokens there were and
   * by the time that the clock moved forward, however often it went back in between.
   */
  lemma {:induction false} AnyClockBudget(r: Rate, l: Level, times: seq<real>, moved: real)
    requires ValidRate(r) && ValidLevel(r, l) && moved == Forward(l.at, times)
    ensures AdmittedOf(r, l, times) as real <= l.tokens + r.perMs * moved
  {
    AnyClockAdmits(r, l, times);
    BroughtIsForward(r, l.at, times);
  }

  lemma {:induction false} AnyClockAdmits(r: Rate, l: Level, times: seq<real>)
    requires ValidRate(r) && ValidLevel(r, l)
    ensures AdmittedOf(r, l, times) as real <= l.tokens + Brought(r, l.at, times)
  {
    AnyClockLevel(r, l, times);
    AnyClockPays(r, l, times);
    Spare(AdmittedOf(r, l, times) as real, After(r, l, times).tokens, l.tokens + Brought(r, l.at, times));
  }

  lemma Spare(count: real, left: real, bound: real)
    requires 0.0 <= left && count + left <= bound
    ensures count <= bound
  {
  }

  // ----- A clock that goes back breaks the bound of an interval -----

  /** Full at 0, then empty at 0; a call at 1 is admitted, and one back at 0 is not. */
  ghost predicate Seesaw(r: Rate, full: Level, up: Level, down: Level) {
    && TryOnce(r, full, 0.0) == (down, true)
    && TryOnce(r, down, 1.0) == (up, true)
    && TryOnce(r, up, 0.0) == (down, false)
  }

  lemma {:induction false} SeesawRounds(r: Rate, full: Level, up: Level, down: Level, n: nat) returns (times: seq<real>)
    requires Seesaw(r, full, up, down)
    ensures forall x | x in times :: 0.0 <= x <= 1.0
    ensures After(r, full, times) == down
    ensures AdmittedIn(r, full, times, 0.0, 1.0) == n + 1
  {
    if n == 0 {
      OneMoreCall(r, full, [], 0.0, 0.0, 1.0);
      times := [] + [0.0];
    } else {
      var earlier := SeesawRounds(r, full, up, down, n - 1);
      times := earlier + [1.0] + [0.0];
      UpThenDown(r, full, earlier, up, down);
    }
  }

  lemma {:induction false} UpThenDown(r: Rate, l: Level, earlier: seq<real>, up: Level, down: Level)
    requires TryOnce(r, down, 1.0) == (up, true) && TryOnce(r, up, 0.0) == (down, false)
    requires After(r, l, earlier) == down
    ensures After(r, l, earlier + [1.0] + [0.0]) == down
    ensures AdmittedIn(r, l, earlier + [1.0] + [0.0], 0.0, 1.0) == AdmittedIn(r, l, earlier, 0.0, 1.0) + 1
  {
    OneMoreCall(r, l, earlier, 1.0, 0.0, 1.0);
    OneMoreCall(r, l, earlier + [1.0], 0.0, 0.0, 1.0);
  }

  lemma SeesawExists()
    ensures Seesaw(Rate(1.0, 1.0), Level(1.0, 0.0), Level(0.0, 1.0), Level(0.0, 0.0))
  {
    var r := Rate(1.0, 1.0);
    assert Gain(r, 0.0, 0.0) == 0.0 && Gain(r, 0.0, 1.0) == 1.0;
  }

  /** However generous one is: with one token a millisecond, a clock that goes back admits more in one millisecond. */
  lemma ClockGoingBackBreaksTheRate(r: Rate, extra: nat) returns (times: seq<real>)
    requires r == Rate(1.0, 1.0)
    ensures ValidRate(r) && forall x | x in times :: 0.0 <= x <= 1.0
    ensures AdmittedIn(r, Level(r.capacity, 0.0), times, 0.0, 1.0) as real > r.capacity + Gain(r, 0.0, 1.0) + extra as real
  {
    SeesawExists();
    times := SeesawRounds(r, Level(1.0, 0.0), Level(0.0, 1.0), Level(0.0, 0.0), extra + 2);
    TwoMore(extra);
  }

  lemma TwoMore(extra: nat)
    ensures (extra + 3) as real == extra as real + 3.0
  {
  }

  lemma {:induction false} OneMoreCall(r: Rate, l: Level, times: seq<real>, now: real, s: real, t: real)
    ensures var (after, ok) := TryOnce(r, After(r, l, times), now);
            && After(r, l, times + [now]) == after
            && AdmittedIn(r, l, times + [now], s, t) == AdmittedIn(r, l, times, s, t) + if ok && s <= now <= t then 1 else 0
  {
    assert (times + [now])[..|times|] == times;
  }
}
