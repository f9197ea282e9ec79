/** The telemetry guard: validation, rate limiting and a bounded drop-oldest queue. */
module IngestionGuard {
  import opened Wrappers
  import opened Text
  import opened TokenBucket

  datatype Field = NotString | Str(s: string)

  /** `dated` is the result of parsing the timestamp as a date. */
  datatype RawEvent = Missing | NotAnObject | Record(id: Field, timestamp: Field, dated: bool, hasPayload: bool)

  datatype Invalid = MustNotBeNull | MustBePlainObject | BadId | BadTimestamp | NoPayload

  function Validate(e: RawEvent): Option<Invalid> {
    match e
    case Missing => Some(MustNotBeNull)
    case NotAnObject => Some(MustBePlainObject)
    case Record(id, timestamp, dated, hasPayload) =>
      if id.NotString? || Blank(id.s) then Some(BadId)
      else if timestamp.NotString? || !dated then Some(BadTimestamp)
      else if !hasPayload then Some(NoPayload)
      else None
  }

  datatype Outcome = ACCEPTED | RATE_LIMITED | QUEUE_FULL_DROP | MALFORMED

  datatype Result = Result(outcome: Outcome, queueDepth: nat, dropped: Option<RawEvent>)

  datatype Counters = Counters(accepted: nat, rateLimited: nat, dropped: nat, malformed: nat)

  // ----- The guard as a value -----

  datatype State = State(level: Level, queue: seq<RawEvent>, counters: Counters)

  function Fresh(r: Rate, now: real): State {
    State(Level(r.capacity, now), [], Counters(0, 0, 0, 0))
  }

  /** What a full queue gives up before one more event is added; None if nothing is given up. */
  function Evicted(maxDepth: int, queue: seq<RawEvent>): Option<RawEvent> {
    if |queue| >= maxDepth && queue != [] then Some(queue[0]) else None
  }

  /** The queue after one more event. A depth of zero or less still leaves room for one. */
  function Enqueued(maxDepth: int, queue: seq<RawEvent>, e: RawEvent): seq<RawEvent> {
    (if Evicted(maxDepth, queue).Some? then queue[1..] else queue) + [e]
  }

  function Ingested(r: Rate, maxDepth: int, s: State, e: RawEvent, now: real): (State, Result) {
    if Validate(e).Some? then
      (s.(counters := s.counters.(malformed := s.counters.malformed + 1)), Result(MALFORMED, |s.queue|, None))
    else
      var (level, ok) := TryOnce(r, s.level, now);
      if !ok then
        (State(level, s.queue, s.counters.(rateLimited := s.counters.rateLimited + 1)), Result(RATE_LIMITED, |s.queue|, None))
      else
        var dropped := Evicted(maxDepth, s.queue);
        var queue := Enqueued(maxDepth, s.queue, e);
        var drops := s.counters.dropped + if |s.queue| >= maxDepth then 1 else 0;
        (State(level, queue, s.counters.(accepted := s.counters.accepted + 1, dropped := drops)),
         Result(if dropped.Some? then QUEUE_FULL_DROP else ACCEPTED, |queue|, dropped))
  }

  function DrainCount(s: State, count: int): (n: nat)
    ensures n <= |s.queue| && (count >= 0 ==> n <= count)
    ensures n == |s.queue| || n == count || (n == 0 && count < 0)
  {
    if count < 0 then 0 else if count < |s.queue| then count else |s.queue|
  }

  class Guard {
    const maxDepth: int
    const bucket: Bucket
    var queue: seq<RawEvent>
    var counters: Counters

    constructor (bucket: Bucket, maxDepth: int)
      ensures this.bucket == bucket && this.maxDepth == maxDepth && queue == [] && counters == Counters(0, 0, 0, 0)
    {
      this.bucket, this.maxDepth := bucket, maxDepth;
      this.queue, this.counters := [], Counters(0, 0, 0, 0);
    }

    ghost function Current(): State
      reads this, bucket
    {
      State(bucket.level, queue, counters)
    }

    method Ingest(e: RawEvent, now: real) returns (r: Result)
      modifies this, bucket
      ensures (Current(), r) == Ingested(bucket.rate, maxDepth, old(Current()), e, now)
    {
      if Validate(e).Some? {
        counters := counters.(malformed := counters.malformed + 1);
        return Result(MALFORMED, |queue|, None);
      }
      var ok := bucket.TryConsume(now);
      if !ok {
        counters := counters.(rateLimited := counters.rateLimited + 1);
        return Result(RATE_LIMITED, |queue|, None);
      }
      var dropped := Push(e);
      counters := counters.(accepted := counters.accepted + 1);
      r := Result(if dropped.Some? then QUEUE_FULL_DROP else ACCEPTED, |queue|, dropped);
    }

    /** The backpressure step: `shift` on an empty queue takes nothing, but is counted. */
    method Push(e: RawEvent) returns (dropped: Option<RawEvent>)
      modifies this`queue, this`counters
      ensures queue == Enqueued(maxDepth, old(queue), e) && dropped == Evicted(maxDepth, old(queue))
      ensures counters == old(counters).(dropped := old(counters.dropped) + if old(|queue|) >= maxDepth then 1 else 0)
    {
      dropped := None;
      if |queue| >= maxDepth {
        if queue != [] {
          dropped := Some(queue[0]);
          queue := queue[1..];
        }
        counters := counters.(dropped := counters.dropped + 1);
      }
      queue := queue + [e];
    }

    method IngestBatch(es: seq<RawEvent>, times: seq<real>) returns (rs: seq<Result>)
      requires |times| == |es|
      modifies this, bucket
      ensures |rs| == |es|
      ensures Current() == AfterOps(bucket.rate, maxDepth, old(Current()), Ingests(es, times))
      ensures forall i | 0 <= i < |es| :: rs[i] == ResultAt(bucket.rate, maxDepth, old(Current()), es, times, i)
    {
      rs := [];
      for i := 0 to |es|
        invariant |rs| == i
        invariant Current() == AfterOps(bucket.rate, maxDepth, old(Current()), Ingests(es, times)[..i])
        invariant forall j | 0 <= j < i :: rs[j] == ResultAt(bucket.rate, maxDepth, old(Current()), es, times, j)
      {
        var r := Ingest(es[i], times[i]);
        rs := rs + [r];
        assert Ingests(es, times)[..i + 1][..i] == Ingests(es, times)[..i];
      }
      assert Ingests(es, times)[..|es|] == Ingests(es, times);
    }

    method Drain(count: int) returns (events: seq<RawEvent>)
      modifies this
      ensures events + queue == old(queue) && |events| == DrainCount(old(Current()), count)
      ensures counters == old(counters)
    {
      var actual := DrainCount(State(bucket.level, queue, counters), count);
      events, queue := queue[..actual], queue[actual..];
    }
  }

  // ----- Whole runs against a plain log -----

  datatype Op = Ingest(event: RawEvent, now: real) | Drain(count: int)

  function Ingests(es: seq<RawEvent>, times: seq<real>): (ops: seq<Op>)
    requires |times| == |es|
    ensures |ops| == |es|
  {
    seq(|es|, i requires 0 <= i < |es| => Op.Ingest(es[i], times[i]))
  }

  function AfterOps(r: Rate, maxDepth: int, s: State, ops: seq<Op>): State {
    if ops == [] then s
    else
      var before := AfterOps(r, maxDepth, s, ops[..|ops| - 1]);
      match ops[|ops| - 1]
      case Ingest(e, now) => Ingested(r, maxDepth, before, e, now).0
      case Drain(count) => before.(queue := before.queue[DrainCount(before, count)..])
  }

  /** The result of event `i` of a batch: that of ingesting it after those before it. */
  function ResultAt(r: Rate, maxDepth: int, s: State, es: seq<RawEvent>, times: seq<real>, i: nat): Result
    requires |times| == |es| && i < |es|
  {
    Ingested(r, maxDepth, AfterOps(r, maxDepth, s, Ingests(es, times)[..i]), es[i], times[i]).1
  }

  /** The events admitted so far, in order. */
  function Admitted(r: Rate, maxDepth: int, s: State, ops: seq<Op>): seq<RawEvent> {
    if ops == [] then []
    else
      var n := |ops| - 1;
      var earlier := Admitted(r, maxDepth, s, ops[..n]);
      match ops[n]
      case Ingest(e, now) =>
        var outcome := Ingested(r, maxDepth, AfterOps(r, maxDepth, s, ops[..n]), e, now).1.outcome;
        if outcome == ACCEPTED || outcome == QUEUE_FULL_DROP then earlier + [e] else earlier
      case Drain(_) => earlier
  }

  /** How many events have been handed out by `drain`. */
  function Drained(r: Rate, maxDepth: int, s: State, ops: seq<Op>): nat {
    if ops == [] then 0
    else
      var n := |ops| - 1;
      Drained(r, maxDepth, s, ops[..n])
      + if ops[n].Drain? then DrainCount(AfterOps(r, maxDepth, s, ops[..n]), ops[n].count) else 0
  }

  ghost predicate IsSuffix(tail: seq<RawEvent>, log: seq<RawEvent>) {
    |tail| <= |log| && tail == log[|log| - |tail|..]
  }

  lemma EnqueueKeepsSuffix(maxDepth: int, queue: seq<RawEvent>, log: seq<RawEvent>, e: RawEvent)
    requires IsSuffix(queue, log)
    ensures IsSuffix(Enqueued(maxDepth, queue, e), log + [e])
  {
  }

  /** The queue holds the most recent admitted events in order, and never more than the depth (or one). */
  lemma {:induction false} QueueIsRecentSuffix(r: Rate, maxDepth: int, start: real, ops: seq<Op>)
    ensures var s, log := AfterOps(r, maxDepth, Fresh(r, start), ops), Admitted(r, maxDepth, Fresh(r, start), ops);
            IsSuffix(s.queue, log) && s.counters.accepted == |log| && (|s.queue| <= maxDepth || |s.queue| <= 1)
  {
    if ops != [] {
      var n := |ops| - 1;
      QueueIsRecentSuffix(r, maxDepth, start, ops[..n]);
      if ops[n].Ingest? {
        EnqueueKeepsSuffix(maxDepth, AfterOps(r, maxDepth, Fresh(r, start), ops[..n]).queue,
                           Admitted(r, maxDepth, Fresh(r, start), ops[..n]), ops[n].event);
      }
    }
  }

  /** With room for one event, every admitted event is queued, drained or counted as dropped. */
  lemma {:induction false} NothingIsLost(r: Rate, maxDepth: int, start: real, ops: seq<Op>)
    requires maxDepth >= 1
    ensures var s := AfterOps(r, maxDepth, Fresh(r, start), ops);
            s.counters.accepted == |s.queue| + s.counters.dropped + Drained(r, maxDepth, Fresh(r, start), ops)
  {
    if ops != [] {
      NothingIsLost(r, maxDepth, start, ops[..|ops| - 1]);
    }
  }

  ghost predicate Balances(r: Rate, maxDepth: int, start: real, ops: seq<Op>) {
    var s := AfterOps(r, maxDepth, Fresh(r, start), ops);
    s.counters.accepted == |s.queue| + s.counters.dropped + Drained(r, maxDepth, Fresh(r, start), ops)
  }

  ghost predicate AlwaysBalances(r: Rate, maxDepth: int, start: real) {
    forall ops :: Balances(r, maxDepth, start, ops)
  }

  /**
   * The counters are right in every run exactly when the depth is positive or the bucket too small
   * to admit anything: otherwise a drop from an empty queue is counted.
   */
  lemma BalancesIff(r: Rate, maxDepth: int, start: real)
    ensures AlwaysBalances(r, maxDepth, start) <==> maxDepth >= 1 || r.capacity < 1.0
  {
    if maxDepth >= 1 {
      forall ops
        ensures Balances(r, maxDepth, start, ops)
      {
        NothingIsLost(r, maxDepth, start, ops);
      }
    } else if r.capacity < 1.0 {
      forall ops
        ensures Balances(r, maxDepth, start, ops)
      {
        NothingIsAdmitted(r, maxDepth, start, ops);
      }
    } else {
      PhantomDrop(r, maxDepth, start);
    }
  }

  lemma {:induction false} NothingIsAdmitted(r: Rate, maxDepth: int, start: real, ops: seq<Op>)
    requires r.capacity < 1.0
    ensures var s := AfterOps(r, maxDepth, Fresh(r, start), ops); s.queue == [] && s.counters.accepted == s.counters.dropped == 0
    ensures Drained(r, maxDepth, Fresh(r, start), ops) == 0
  {
    if ops != [] {
      NothingIsAdmitted(r, maxDepth, start, ops[..|ops| - 1]);
    }
  }

  lemma PhantomDrop(r: Rate, maxDepth: int, start: real)
    requires r.capacity >= 1.0 && maxDepth < 1
    ensures !AlwaysBalances(r, maxDepth, start)
  {
    var e := Record(Str("a"), Str("t"), true, true);
    ValidSample(e);
    var ops := [Op.Ingest(e, start)];
    assert ops[..0] == [];
    assert Gain(r, start, start) == 0.0;
    assert TryOnce(r, Level(r.capacity, start), start) == (Level(r.capacity - 1.0, start), true);
    assert AfterOps(r, maxDepth, Fresh(r, start), ops) == Ingested(r, maxDepth, Fresh(r, start), e, start).0;
    var s := AfterOps(r, maxDepth, Fresh(r, start), ops);
    assert s.queue == [e] && s.counters == Counters(1, 0, 1, 0);
    assert !Balances(r, maxDepth, start, ops);
  }

  lemma ValidSample(e: RawEvent)
    requires e == Record(Str("a"), Str("t"), true, true)
    ensures Validate(e).None?
  {
    assert FirstSolid("a", IsScriptSpace, 0) == 0;
    assert SolidEnd("a", IsScriptSpace, 0, 1) == 1;
  }

  // ----- The rate limit on admitted events -----

  /** How many events were admitted at times in [s, t]. */
  function AdmittedIn(r: Rate, maxDepth: int, st: State, ops: seq<Op>, s: real, t: real): nat {
    if ops == [] then 0
    else
      var n := |ops| - 1;
      var earlier := AdmittedIn(r, maxDepth, st, ops[..n], s, t);
      match ops[n]
      case Ingest(e, now) =>
        var outcome := Ingested(r, maxDepth, AfterOps(r, maxDepth, st, ops[..n]), e, now).1.outcome;
        earlier + if outcome in {ACCEPTED, QUEUE_FULL_DROP} && s <= now <= t then 1 else 0
      case Drain(_) => earlier
  }

  ghost predicate ClockNeverGoesBack(start: real, ops: seq<Op>) {
    && (forall i | 0 <= i < |ops| && ops[i].Ingest? :: start <= ops[i].now)
    && (forall i, j | 0 <= i < j < |ops| && ops[i].Ingest? && ops[j].Ingest? :: ops[i].now <= ops[j].now)
  }

  /** The times at which the bucket is asked: those of the well-formed events. */
  function CallTimes(ops: seq<Op>): seq<real> {
    if ops == [] then []
    else
      var n := |ops| - 1;
      if ops[n].Ingest? && Validate(ops[n].event).None? then CallTimes(ops[..n]) + [ops[n].now] else CallTimes(ops[..n])
  }

  /** Drains and malformed events neither use nor give tokens: the guard's bucket sees those calls and no others. */
  lemma {:induction false} GuardIsBucket(r: Rate, maxDepth: int, start: real, ops: seq<Op>, s: real, t: real)
    ensures AfterOps(r, maxDepth, Fresh(r, start), ops).level == After(r, Level(r.capacity, start), CallTimes(ops))
    ensures AdmittedIn(r, maxDepth, Fresh(r, start), ops, s, t) == TokenBucket.AdmittedIn(r, Level(r.capacity, start), CallTimes(ops), s, t)
  {
    if ops != [] {
      var n := |ops| - 1;
      GuardIsBucket(r, maxDepth, start, ops[..n], s, t);
      if ops[n].Ingest? && Validate(ops[n].event).None? {
        OneMoreCall(r, Level(r.capacity, start), CallTimes(ops[..n]), ops[n].now, s, t);
      }
    }
  }

  lemma {:induction false} CallsFollowClock(start: real, ops: seq<Op>)
    requires ClockNeverGoesBack(start, ops)
    ensures NonDecreasing(start, CallTimes(ops))
    ensures forall x | x in CallTimes(ops) :: exists i :: 0 <= i < |ops| && ops[i].Ingest? && ops[i].now == x
  {
    if ops != [] {
      var n := |ops| - 1;
      CallsFollowClock(start, ops[..n]);
      var earlier := CallTimes(ops[..n]);
      forall x | x in earlier
        ensures exists i :: 0 <= i < n && ops[i].Ingest? && ops[i].now == x
      {
        var i :| 0 <= i < n && ops[..n][i].Ingest? && ops[..n][i].now == x;
        assert ops[i].now == x;
      }
      assert forall k | 0 <= k < |earlier| :: earlier[k] in earlier;
    }
  }

  /** The bucket's bound holds for the guard. */
  lemma {:induction false} AdmissionIsBounded(r: Rate, maxDepth: int, start: real, ops: seq<Op>, s: real, t: real)
    requires ValidRate(r) && ClockNeverGoesBack(start, ops) && s <= t
    ensures AdmittedIn(r, maxDepth, Fresh(r, start), ops, s, t) as real <= r.capacity + Gain(r, s, t)
    ensures ValidLevel(r, AfterOps(r, maxDepth, Fresh(r, start), ops).level)
  {
    GuardIsBucket(r, maxDepth, start, ops, s, t);
    CallsFollowClock(start, ops);
    RateIsRespected(r, start, CallTimes(ops), s, t);
  }

  ghost function GuardAllowance(r: Rate, maxDepth: int, start: real, ops: seq<Op>, s: real, t: real): real {
    r.capacity + Gain(r, s, t) - AdmittedIn(r, maxDepth, Fresh(r, start), ops, s, t) as real
  }

  /** A well-formed event is limited exactly if some stretch up to it has less than one token left to spend. */
  lemma {:induction false} RateLimitedIff(r: Rate, maxDepth: int, start: real, ops: seq<Op>, e: RawEvent, now: real)
    requires ValidRate(r) && ClockNeverGoesBack(start, ops + [Op.Ingest(e, now)]) && Validate(e).None?
    ensures Ingested(r, maxDepth, AfterOps(r, maxDepth, Fresh(r, start), ops), e, now).1.outcome == RATE_LIMITED
      <==> exists s :: start <= s <= now && GuardAllowance(r, maxDepth, start, ops, s, now) < 1.0
  {
    var all := ops + [Op.Ingest(e, now)];
    assert all[..|ops|] == ops && all[|ops|] == Op.Ingest(e, now);
    CallsFollowClock(start, all);
    assert CallTimes(all) == CallTimes(ops) + [now];
    forall s
      ensures GuardAllowance(r, maxDepth, start, ops, s, now) == Allowance(r, start, CallTimes(ops), s, now)
    {
      GuardIsBucket(r, maxDepth, start, ops, s, now);
    }
    GuardIsBucket(r, maxDepth, start, ops, start, now);
    RefusedIff(r, start, CallTimes(ops), now);
    LimitedIffRefused(r, maxDepth, AfterOps(r, maxDepth, Fresh(r, start), ops), e, now);
  }

  lemma LimitedIffRefused(r: Rate, maxDepth: int, s: State, e: RawEvent, now: real)
    requires Validate(e).None?
    ensures Ingested(r, maxDepth, s, e, now).1.outcome == RATE_LIMITED <==> !TryOnce(r, s.level, now).1
  {
  }

  // ----- What a result says -----

  lemma ValidIff(e: RawEvent)
    ensures Validate(e).None?
      <==> e.Record? && e.id.Str? && Trim(e.id.s, IsScriptSpace) != "" && e.timestamp.Str? && e.dated && e.hasPayload
  {
  }

  /** The outcome says what became of the event and of the queue. */
  lemma ResultMeaning(r: Rate, maxDepth: int, s: State, e: RawEvent, now: real)
    ensures var (after, result) := Ingested(r, maxDepth, s, e, now);
            && result.queueDepth == |after.queue|
            && match result.outcome
               case MALFORMED => Validate(e).Some? && after.queue == s.queue && after.level == s.level && result.dropped.None?
               case RATE_LIMITED => Validate(e).None? && after.queue == s.queue && result.dropped.None?
               case ACCEPTED => after.queue == s.queue + [e] && result.dropped.None? && (|s.queue| < maxDepth || s.queue == [])
               case QUEUE_FULL_DROP =>
                 |s.queue| >= maxDepth && s.queue != [] && result.dropped == Some(s.queue[0]) && after.queue == s.queue[1..] + [e]
  {
  }

  function CountIngests(ops: seq<Op>): nat {
    if ops == [] then 0 else CountIngests(ops[..|ops| - 1]) + if ops[|ops| - 1].Ingest? then 1 else 0
  }

  function CountMalformed(ops: seq<Op>): nat {
    if ops == [] then 0
    else
      var op := ops[|ops| - 1];
      CountMalformed(ops[..|ops| - 1]) + if op.Ingest? && Validate(op.event).Some? then 1 else 0
  }

  /** Every event offered is counted once: as accepted, limited or malformed. */
  lemma {:induction false} EveryEventIsCounted(r: Rate, maxDepth: int, start: real, ops: seq<Op>)
    ensures var c := AfterOps(r, maxDepth, Fresh(r, start), ops).counters;
            c.accepted + c.rateLimited + c.malformed == CountIngests(ops) && c.malformed == CountMalformed(ops)
  {
    if ops != [] {
      EveryEventIsCounted(r, maxDepth, start, ops[..|ops| - 1]);
    }
  }
}
