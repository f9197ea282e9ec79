/** The rolling-window rate monitor against a plain recount of all calls. */
module RateLimitMonitor {
  import opened Sequences
  import opened OrderedMap
  import opened SlidingWindow

  datatype Config = Config(threshold: int, windowMs: int, maxTrackedClients: int)

  predicate ValidConfig(cfg: Config) {
    cfg.threshold >= 1 && cfg.windowMs > 0 && cfg.maxTrackedClients >= 1
  }

  datatype Verdict = Verdict(allowed: bool, requestCount: nat)

  // ----- The two calls as functions of the table -----

  function Swept(cfg: Config, m: Table<Times>, now: int): Table<Times> {
    DropWhile(m, StaleAt(now - cfg.windowMs))
  }

  function Active(cfg: Config, m: Table<Times>, c: string, now: int): Times {
    Later(Kept(Swept(cfg, m, now), c), now - cfg.windowMs)
  }

  function Recorded(cfg: Config, m: Table<Times>, c: string, now: int): (Table<Times>, Verdict) {
    var active := Active(cfg, m, c, now) + [now];
    (Capped(Put(Swept(cfg, m, now), c, active), cfg.maxTrackedClients), Verdict(|active| <= cfg.threshold, |active|))
  }

  function Counted(cfg: Config, m: Table<Times>, c: string, now: int): (Table<Times>, nat) {
    var swept, active := Swept(cfg, m, now), Active(cfg, m, c, now);
    (if Find(swept, c).None? then swept else if active != [] then Put(swept, c, active) else Delete(swept, c), |active|)
  }

  class Monitor {
    const cfg: Config
    var requests: Table<Times>

    constructor (cfg: Config)
      ensures this.cfg == cfg && requests == []
    {
      this.cfg, this.requests := cfg, [];
    }

    method Record(clientId: string, now: int) returns (v: Verdict)
      modifies this
      ensures (requests, v) == Recorded(cfg, old(requests), clientId, now)
    {
      requests := Sweep(requests, StaleAt(now - cfg.windowMs));
      var active := Later(Kept(requests, clientId), now - cfg.windowMs) + [now];
      requests := Put(requests, clientId, active);
      requests := EnforceCap(requests, cfg.maxTrackedClients);
      v := Verdict(|active| <= cfg.threshold, |active|);
    }

    method GetRequestCount(clientId: string, now: int) returns (count: nat)
      modifies this
      ensures (requests, count) == Counted(cfg, old(requests), clientId, now)
    {
      requests := Sweep(requests, StaleAt(now - cfg.windowMs));
      var active := Later(Kept(requests, clientId), now - cfg.windowMs);
      if Find(requests, clientId).Some? {
        requests := if active != [] then Put(requests, clientId, active) else Delete(requests, clientId);
      }
      count := |active|;
    }
  }

  // ----- Runs -----

  datatype Op = Record(client: string, now: int) | Count(client: string, now: int)

  function Apply(cfg: Config, m: Table<Times>, op: Op): Table<Times> {
    if op.Record? then Recorded(cfg, m, op.client, op.now).0 else Counted(cfg, m, op.client, op.now).0
  }

  function After(cfg: Config, ops: seq<Op>): Table<Times> {
    if ops == [] then [] else Apply(cfg, After(cfg, ops[..|ops| - 1]), ops[|ops| - 1])
  }

  /** The log of all recorded calls. */
  function LogOf(ops: seq<Op>): Log {
    if ops == [] then []
    else
      var n := |ops| - 1;
      if ops[n].Record? then LogOf(ops[..n]) + [(ops[n].client, ops[n].now)] else LogOf(ops[..n])
  }

  function Clients(ops: seq<Op>): set<string> {
    set op | op in ops && op.Record? :: op.client
  }

  ghost predicate ClockNeverGoesBack(ops: seq<Op>) {
    forall i, j | 0 <= i < j < |ops| :: ops[i].now <= ops[j].now
  }

  /** The premises: a clock that never goes back and no more clients than the cap. */
  ghost predicate Ordinary(cfg: Config, ops: seq<Op>) {
    ValidConfig(cfg) && ClockNeverGoesBack(ops) && |Clients(ops)| <= cfg.maxTrackedClients
  }

  lemma OrdinaryPrefix(cfg: Config, ops: seq<Op>)
    requires Ordinary(cfg, ops) && ops != []
    ensures Ordinary(cfg, ops[..|ops| - 1])
  {
    SubsetSize(Clients(ops[..|ops| - 1]), Clients(ops));
  }

  lemma {:induction false} LogIsPast(ops: seq<Op>, now: int)
    requires forall i | 0 <= i < |ops| :: ops[i].now <= now
    ensures forall i | 0 <= i < |LogOf(ops)| :: LogOf(ops)[i].1 <= now
  {
    if ops != [] {
      LogIsPast(ops[..|ops| - 1], now);
    }
  }

  /** One call: the table goes on standing for the log, and the answer is the recount. */
  lemma ApplyIsExact(cfg: Config, m: Table<Times>, log: Log, horizon: int, op: Op, known: set<string>)
    requires ValidConfig(cfg) && StandsFor(m, log, horizon) && horizon <= op.now - cfg.windowMs
    requires forall i | 0 <= i < |log| :: log[i].1 <= op.now
    requires Keys(m) <= known && |known| <= cfg.maxTrackedClients && (op.Record? ==> op.client in known)
    ensures var bound := op.now - cfg.windowMs;
            var log' := if op.Record? then log + [(op.client, op.now)] else log;
            && StandsFor(Apply(cfg, m, op), log', bound) && Keys(Apply(cfg, m, op)) <= known
            && (op.Record? ==> Recorded(cfg, m, op.client, op.now).1.requestCount == CountAfter(log', op.client, bound))
            && (op.Count? ==> Counted(cfg, m, op.client, op.now).1 == CountAfter(log', op.client, bound))
  {
    SweepKeepsMeaning(m, log, horizon, op.now - cfg.windowMs);
    if op.Record? {
      RecordIsExact(cfg, m, log, op, known);
    } else {
      CountKeepsMeaning(Swept(cfg, m, op.now), log, op.now - cfg.windowMs, op.client, Active(cfg, m, op.client, op.now));
    }
  }

  lemma {:induction false} RecordIsExact(cfg: Config, m: Table<Times>, log: Log, op: Op, known: set<string>)
    requires ValidConfig(cfg) && op.Record? && StandsFor(Swept(cfg, m, op.now), log, op.now - cfg.windowMs)
    requires forall i | 0 <= i < |log| :: log[i].1 <= op.now
    requires Keys(Swept(cfg, m, op.now)) <= known && |known| <= cfg.maxTrackedClients && op.client in known
    ensures var (after, verdict) := Recorded(cfg, m, op.client, op.now);
            && StandsFor(after, log + [(op.client, op.now)], op.now - cfg.windowMs) && Keys(after) <= known
            && verdict.requestCount == CountAfter(log + [(op.client, op.now)], op.client, op.now - cfg.windowMs)
  {
    var swept, active := Swept(cfg, m, op.now), Active(cfg, m, op.client, op.now) + [op.now];
    RecordKeepsMeaning(swept, log, op.now - cfg.windowMs, op.client, op.now);
    NoEviction(Put(swept, op.client, active), known, cfg.maxTrackedClients);
  }

  lemma CountKeepsMeaning(m: Table<Times>, log: Log, bound: int, c: string, active: Times)
    requires StandsFor(m, log, bound) && active == Later(Kept(m, c), bound)
    ensures |active| == CountAfter(log, c, bound)
    ensures Find(m, c).Some? && active != [] ==> StandsFor(Put(m, c, active), log, bound) && Keys(Put(m, c, active)) == Keys(m)
    ensures Find(m, c).Some? && active == [] ==> StandsFor(Delete(m, c), log, bound) && Keys(Delete(m, c)) <= Keys(m)
  {
    RecountIsLength(log, c, bound);
    FindIff(m, c);
    if Find(m, c).Some? {
      if active != [] {
        KeptIsSorted(m, log, bound, c);
        LaterKeepsOrder(Kept(m, c), bound);
        LaterTwice(Kept(m, c), bound, bound);
        PutKeepsMeaning(m, log, bound, c, active, log);
      } else {
        DeleteKeepsMeaning(m, log, bound, c, log);
      }
    }
  }

  lemma {:induction false} TableStandsForLog(cfg: Config, ops: seq<Op>, known: set<string>, now: int)
    requires ValidConfig(cfg) && ClockNeverGoesBack(ops) && Clients(ops) <= known && |known| <= cfg.maxTrackedClients
    requires forall i | 0 <= i < |ops| :: ops[i].now <= now
    ensures StandsFor(After(cfg, ops), LogOf(ops), now - cfg.windowMs) && Keys(After(cfg, ops)) <= known
  {
    if ops != [] {
      var n := |ops| - 1;
      assert ops[n] in ops;
      TableStandsForLog(cfg, ops[..n], known, ops[n].now);
      LogIsPast(ops[..n], ops[n].now);
      NextStandsForLog(cfg, After(cfg, ops[..n]), LogOf(ops[..n]), ops[n], known, now);
    }
  }

  lemma {:induction false} NextStandsForLog(cfg: Config, m: Table<Times>, log: Log, op: Op, known: set<string>, now: int)
    requires ValidConfig(cfg) && StandsFor(m, log, op.now - cfg.windowMs) && op.now <= now
    requires forall i | 0 <= i < |log| :: log[i].1 <= op.now
    requires Keys(m) <= known && |known| <= cfg.maxTrackedClients && (op.Record? ==> op.client in known)
    ensures var log' := if op.Record? then log + [(op.client, op.now)] else log;
            StandsFor(Apply(cfg, m, op), log', now - cfg.windowMs) && Keys(Apply(cfg, m, op)) <= known
  {
    var log' := if op.Record? then log + [(op.client, op.now)] else log;
    ApplyIsExact(cfg, m, log, op.now - cfg.windowMs, op, known);
    StandsForLater(Apply(cfg, m, op), log', op.now - cfg.windowMs, now - cfg.windowMs);
  }

  /** What the next call reports. */
  function Reported(cfg: Config, ops: seq<Op>): nat
    requires ops != []
  {
    var m, op := After(cfg, ops[..|ops| - 1]), ops[|ops| - 1];
    if op.Record? then Recorded(cfg, m, op.client, op.now).1.requestCount else Counted(cfg, m, op.client, op.now).1
  }

  /** Despite pruning, recency moves and lazy sweeping, the count is that of the full log. */
  lemma {:induction false} ReportIsRecount(cfg: Config, ops: seq<Op>)
    requires ops != [] && Ordinary(cfg, ops)
    ensures var op := ops[|ops| - 1]; Reported(cfg, ops) == CountAfter(LogOf(ops), op.client, op.now - cfg.windowMs)
  {
    var n := |ops| - 1;
    var op := ops[n];
    assert op in ops;
    var known := Clients(ops);
    assert Clients(ops[..n]) <= known;
    TableStandsForLog(cfg, ops[..n], known, op.now);
    LogIsPast(ops[..n], op.now);
    ApplyIsExact(cfg, After(cfg, ops[..n]), LogOf(ops[..n]), op.now - cfg.windowMs, op, known);
  }

  /** A request is allowed exactly if the recount, itself included, is within the threshold. */
  lemma {:induction false} AllowedIff(cfg: Config, ops: seq<Op>)
    requires ops != [] && Ordinary(cfg, ops) && ops[|ops| - 1].Record?
    ensures var op, m := ops[|ops| - 1], After(cfg, ops[..|ops| - 1]);
            Recorded(cfg, m, op.client, op.now).1.allowed <==> CountAfter(LogOf(ops), op.client, op.now - cfg.windowMs) <= cfg.threshold
  {
    ReportIsRecount(cfg, ops);
  }

  // ----- The limit -----

  /** Requests of one client that were allowed at times in (low, high]. */
  function AllowedIn(cfg: Config, ops: seq<Op>, c: string, low: int, high: int): nat {
    if ops == [] then 0
    else
      var n := |ops| - 1;
      AllowedIn(cfg, ops[..n], c, low, high)
      + if ops[n].Record? && ops[n].client == c && low < ops[n].now <= high && Reported(cfg, ops) <= cfg.threshold then 1 else 0
  }

  lemma {:induction false} AllowedAreLogged(cfg: Config, ops: seq<Op>, c: string, low: int, high: int, bound: int)
    requires bound <= low
    ensures AllowedIn(cfg, ops, c, low, high) <= CountAfter(LogOf(ops), c, bound)
  {
    if ops != [] {
      AllowedAreLogged(cfg, ops[..|ops| - 1], c, low, high, bound);
    }
  }

  predicate LastIsAllowed(cfg: Config, ops: seq<Op>, c: string, t: int)
    requires ops != []
  {
    var op := ops[|ops| - 1];
    op.Record? && op.client == c && t - cfg.windowMs < op.now <= t && Reported(cfg, ops) <= cfg.threshold
  }

  lemma {:induction false} LastAllowedIsWithinLimit(cfg: Config, ops: seq<Op>, c: string, t: int)
    requires ops != [] && Ordinary(cfg, ops) && LastIsAllowed(cfg, ops, c, t)
    ensures AllowedIn(cfg, ops, c, t - cfg.windowMs, t) <= cfg.threshold
  {
    ReportIsRecount(cfg, ops);
    AllowedAreLogged(cfg, ops, c, t - cfg.windowMs, t, ops[|ops| - 1].now - cfg.windowMs);
  }

  /** No window holds more allowed requests of one client than the threshold. */
  lemma {:induction false} LimitIsRespected(cfg: Config, ops: seq<Op>, c: string, t: int)
    requires Ordinary(cfg, ops)
    ensures AllowedIn(cfg, ops, c, t - cfg.windowMs, t) <= cfg.threshold
  {
    if ops != [] {
      if LastIsAllowed(cfg, ops, c, t) {
        LastAllowedIsWithinLimit(cfg, ops, c, t);
      } else {
        OrdinaryPrefix(cfg, ops);
        LimitIsRespected(cfg, ops[..|ops| - 1], c, t);
      }
    }
  }

  // ----- The early-exit sweep -----

  /** Entries from the least to the most recently used, by their last request. */
  ghost predicate OldestFirst(m: Table<Times>) {
    && (forall i | 0 <= i < |m| :: m[i].1 != [])
    && (forall i, j | 0 <= i < j < |m| :: LastOf(m[i].1) <= LastOf(m[j].1))
  }

  ghost function LastOf(ts: Times): int {
    if ts == [] then 0 else ts[|ts| - 1]
  }

  ghost predicate NoneStale(m: Table<Times>, bound: int) {
    forall i | 0 <= i < |m| :: !IsStale(m[i].1, bound)
  }

  lemma {:induction false} SweepOfOldestFirst(m: Table<Times>, bound: int)
    requires OldestFirst(m)
    ensures OldestFirst(DropWhile(m, StaleAt(bound))) && NoneStale(DropWhile(m, StaleAt(bound)), bound)
  {
    if m != [] && IsStale(m[0].1, bound) {
      SweepOfOldestFirst(m[1..], bound);
    }
  }

  lemma {:induction false} DeleteKeepsOldestFirst(m: Table<Times>, c: string)
    requires OldestFirst(m)
    ensures OldestFirst(Delete(m, c)) && forall e | e in Delete(m, c) :: e in m
  {
    if m != [] && m[0].0 != c {
      DeleteKeepsOldestFirst(m[1..], c);
      forall e | e in Delete(m[1..], c)
        ensures LastOf(m[0].1) <= LastOf(e.1)
      {
        var i :| 0 <= i < |m[1..]| && m[1..][i] == e;
        assert m[i + 1] == e;
      }
    }
  }

  lemma {:induction false} CappedKeepsOldestFirst(m: Table<Times>, cap: int)
    requires OldestFirst(m)
    ensures OldestFirst(Capped(m, cap)) && forall e | e in Capped(m, cap) :: e in m
  {
    if m != [] && |m| > cap {
      CappedKeepsOldestFirst(m[1..], cap);
    }
  }

  lemma PutKeepsOldestFirst(m: Table<Times>, c: string, ts: Times)
    requires OldestFirst(m) && ts != [] && forall e | e in m :: LastOf(e.1) <= LastOf(ts)
    ensures OldestFirst(Put(m, c, ts)) && forall e | e in Put(m, c, ts) :: LastOf(e.1) <= LastOf(ts)
  {
    DeleteKeepsOldestFirst(m, c);
    var rest := Delete(m, c);
    assert forall i | 0 <= i < |rest| :: rest[i] in rest;
  }

  lemma {:induction false} RecordsStayOldestFirst(cfg: Config, ops: seq<Op>, now: int)
    requires ClockNeverGoesBack(ops) && forall op | op in ops :: op.Record? && op.now <= now
    ensures OldestFirst(After(cfg, ops)) && forall e | e in After(cfg, ops) :: LastOf(e.1) <= now
  {
    if ops != [] {
      var n := |ops| - 1;
      var op := ops[n];
      assert op in ops;
      forall earlier | earlier in ops[..n]
        ensures earlier.Record? && earlier.now <= op.now
      {
        assert earlier in ops;
      }
      RecordsStayOldestFirst(cfg, ops[..n], op.now);
      var m := After(cfg, ops[..n]);
      SweepOfOldestFirst(m, op.now - cfg.windowMs);
      DropWhileIsASuffix(m, StaleAt(op.now - cfg.windowMs));
      var active := Active(cfg, m, op.client, op.now) + [op.now];
      PutKeepsOldestFirst(Swept(cfg, m, op.now), op.client, active);
      CappedKeepsOldestFirst(Put(Swept(cfg, m, op.now), op.client, active), cfg.maxTrackedClients);
    }
  }

  /** If calls only record, every sweep removes every stale client although it stops early. */
  lemma RecordOnlySweepIsComplete(cfg: Config, ops: seq<Op>, now: int)
    requires ClockNeverGoesBack(ops) && forall op | op in ops :: op.Record? && op.now <= now
    ensures NoneStale(Swept(cfg, After(cfg, ops), now), now - cfg.windowMs)
  {
    RecordsStayOldestFirst(cfg, ops, now);
    SweepOfOldestFirst(After(cfg, ops), now - cfg.windowMs);
  }
}
