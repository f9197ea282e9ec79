/** Exactly which sequences of calls leave a stale client behind in the rate monitor. */
module SweepCompleteness {
  import opened Wrappers
  import opened Sequences
  import opened OrderedMap
  import opened SlidingWindow
  import opened RateLimitMonitor

  // ----- What the calls alone say about a client -----

  /** The index of a client's last call, of either kind; -1 if there is none. */
  function LastCall(ops: seq<Op>, c: string): (i: int)
    ensures -1 <= i < |ops| && (i >= 0 ==> ops[i].client == c)
  {
    if ops == [] then -1
    else var n := |ops| - 1; if ops[n].client == c then n else LastCall(ops[..n], c)
  }

  /** The time of a client's last recorded request. */
  function LastRecord(ops: seq<Op>, c: string): Option<int> {
    if ops == [] then None
    else
      var n := |ops| - 1;
      if ops[n].Record? && ops[n].client == c then Some(ops[n].now) else LastRecord(ops[..n], c)
  }

  /**
   * Client `c` has a request in the window at `now`. Client `d` was called after c's last call,
   * when its own last request was still in the window; by `now` it no longer is.
   */
  ghost predicate Strands(cfg: Config, ops: seq<Op>, c: string, d: string, now: int) {
    var i, j := LastCall(ops, c), LastCall(ops, d);
    && 0 <= i < j && LastRecord(ops, c).Some? && LastRecord(ops, d).Some?
    && LastRecord(ops, c).value > now - cfg.windowMs
    && ops[j].now - cfg.windowMs < LastRecord(ops, d).value <= now - cfg.windowMs
  }

  // ----- Entries stand in the order of their clients' last calls -----

  ghost predicate Ranked(m: Table<Times>, rank: string -> int) {
    m == [] || ((forall e | e in m[1..] :: rank(m[0].0) < rank(e.0)) && Ranked(m[1..], rank))
  }

  function CallOrder(ops: seq<Op>): string -> int {
    c => LastCall(ops, c)
  }

  /** An entry's last time is its client's last record, and was in the window at the client's last call. */
  ghost predicate Fits(cfg: Config, ops: seq<Op>, e: (string, Times)) {
    && e.1 != [] && LastRecord(ops, e.0) == Some(LastOf(e.1))
    && var i := LastCall(ops, e.0); i >= 0 && ops[i].now - cfg.windowMs < LastOf(e.1)
  }

  ghost predicate AllFit(cfg: Config, ops: seq<Op>, m: Table<Times>) {
    forall e | e in m :: Fits(cfg, ops, e)
  }

  lemma {:induction false} DropKeepsRanked(m: Table<Times>, rank: string -> int, bound: int)
    requires Ranked(m, rank)
    ensures Ranked(DropWhile(m, StaleAt(bound)), rank) && forall e | e in DropWhile(m, StaleAt(bound)) :: e in m
  {
    if m != [] && IsStale(m[0].1, bound) {
      DropKeepsRanked(m[1..], rank, bound);
    }
  }

  lemma {:induction false} CapKeepsRanked(m: Table<Times>, rank: string -> int, cap: int)
    requires Ranked(m, rank)
    ensures Ranked(Capped(m, cap), rank) && forall e | e in Capped(m, cap) :: e in m
  {
    if m != [] && |m| > cap {
      CapKeepsRanked(m[1..], rank, cap);
    }
  }

  lemma {:induction false} DeleteKeepsRanked(m: Table<Times>, rank: string -> int, c: string)
    requires Ranked(m, rank)
    ensures Ranked(Delete(m, c), rank) && forall e | e in Delete(m, c) :: e in m
    ensures forall e | e in Delete(m, c) :: e.0 != c
  {
    if m != [] {
      if m[0].0 != c {
        DeleteKeepsRanked(m[1..], rank, c);
        assert ([m[0]] + Delete(m[1..], c))[1..] == Delete(m[1..], c);
      }
    }
  }

  lemma {:induction false} AppendKeepsRanked(m: Table<Times>, rank: string -> int, e: (string, Times))
    requires Ranked(m, rank) && forall x | x in m :: rank(x.0) < rank(e.0)
    ensures Ranked(m + [e], rank)
  {
    if m == [] {
      assert (m + [e])[1..] == [];
    } else {
      AppendKeepsRanked(m[1..], rank, e);
      assert (m + [e])[1..] == m[1..] + [e];
    }
  }

  lemma {:induction false} SameRanks(m: Table<Times>, rank: string -> int, rank': string -> int)
    requires Ranked(m, rank) && forall e | e in m :: rank(e.0) == rank'(e.0)
    ensures Ranked(m, rank')
  {
    if m != [] {
      assert m[0] in m;
      SameRanks(m[1..], rank, rank');
    }
  }

  /** One more call leaves other clients' ranks and records alone, and puts its own client last. */
  lemma {:induction false} OtherClients(cfg: Config, ops: seq<Op>, op: Op, m: Table<Times>)
    requires Ranked(m, CallOrder(ops)) && AllFit(cfg, ops, m) && forall e | e in m :: e.0 != op.client
    ensures Ranked(m, CallOrder(ops + [op])) && AllFit(cfg, ops + [op], m)
    ensures forall e | e in m :: CallOrder(ops + [op])(e.0) < CallOrder(ops + [op])(op.client) == |ops|
  {
    assert (ops + [op])[..|ops|] == ops;
    SameRanks(m, CallOrder(ops), CallOrder(ops + [op]));
  }

  /** Deleting the client of a call and putting it last. */
  lemma {:induction false} PutIsRanked(cfg: Config, ops: seq<Op>, op: Op, m: Table<Times>, ts: Times)
    requires Ranked(m, CallOrder(ops)) && AllFit(cfg, ops, m) && Fits(cfg, ops + [op], (op.client, ts))
    ensures Ranked(Put(m, op.client, ts), CallOrder(ops + [op])) && AllFit(cfg, ops + [op], Put(m, op.client, ts))
  {
    DeleteKeepsRanked(m, CallOrder(ops), op.client);
    OtherClients(cfg, ops, op, Delete(m, op.client));
    AppendKeepsRanked(Delete(m, op.client), CallOrder(ops + [op]), (op.client, ts));
  }

  lemma {:induction false} RecordIsRanked(cfg: Config, ops: seq<Op>, op: Op, m: Table<Times>)
    requires ValidConfig(cfg) && Ranked(m, CallOrder(ops)) && AllFit(cfg, ops, m) && op.Record?
    ensures Ranked(Apply(cfg, m, op), CallOrder(ops + [op])) && AllFit(cfg, ops + [op], Apply(cfg, m, op))
  {
    var swept, active := Swept(cfg, m, op.now), Active(cfg, m, op.client, op.now) + [op.now];
    DropKeepsRanked(m, CallOrder(ops), op.now - cfg.windowMs);
    PutIsRanked(cfg, ops, op, swept, active);
    CapKeepsRanked(Put(swept, op.client, active), CallOrder(ops + [op]), cfg.maxTrackedClients);
  }

  /** The last of sorted times survives the filter if anything does. */
  lemma LastOfLater(ts: Times, bound: int)
    requires Sorted(ts) && Later(ts, bound) != []
    ensures ts != [] && LastOf(Later(ts, bound)) == LastOf(ts) > bound
  {
    var n := |ts| - 1;
    if ts[n] <= bound {
      StaleHasNoneLater(ts, bound);
    }
  }

  lemma {:induction false} CountIsRanked(cfg: Config, ops: seq<Op>, op: Op, m: Table<Times>)
    requires Ranked(m, CallOrder(ops)) && AllFit(cfg, ops, m) && op.Count?
    requires forall i | 0 <= i < |m| :: Sorted(m[i].1)
    ensures Ranked(Apply(cfg, m, op), CallOrder(ops + [op])) && AllFit(cfg, ops + [op], Apply(cfg, m, op))
  {
    var swept := Swept(cfg, m, op.now);
    DropKeepsRanked(m, CallOrder(ops), op.now - cfg.windowMs);
    DropWhileIsASuffix(m, StaleAt(op.now - cfg.windowMs));
    CountOfSwept(cfg, ops, op, swept, Active(cfg, m, op.client, op.now));
  }

  lemma {:induction false} CountOfSwept(cfg: Config, ops: seq<Op>, op: Op, m: Table<Times>, active: Times)
    requires Ranked(m, CallOrder(ops)) && AllFit(cfg, ops, m) && op.Count? && forall i | 0 <= i < |m| :: Sorted(m[i].1)
    requires active == Later(Kept(m, op.client), op.now - cfg.windowMs)
    ensures var after := if Find(m, op.client).None? then m else if active != [] then Put(m, op.client, active) else Delete(m, op.client);
            Ranked(after, CallOrder(ops + [op])) && AllFit(cfg, ops + [op], after)
  {
    var c := op.client;
    FindIff(m, c);
    DeleteKeepsRanked(m, CallOrder(ops), c);
    if Find(m, c).None? {
      Absent(m, c);
      OtherClients(cfg, ops, op, m);
    } else if active == [] {
      OtherClients(cfg, ops, op, Delete(m, c));
    } else {
      EntryFits(cfg, ops, m, c);
      LastOfLater(Kept(m, c), op.now - cfg.windowMs);
      assert (ops + [op])[..|ops|] == ops;
      PutIsRanked(cfg, ops, op, m, active);
    }
  }

  lemma Absent(m: Table<Times>, c: string)
    requires c !in Keys(m)
    ensures forall e | e in m :: e.0 != c
  {
    forall e | e in m
      ensures e.0 in Keys(m)
    {
      var i :| 0 <= i < |m| && m[i] == e;
    }
  }

  /** After any ordinary run the entries stand in the order of last calls, each with its client's last record. */
  lemma {:induction false} RunIsRanked(cfg: Config, ops: seq<Op>)
    requires Ordinary(cfg, ops)
    ensures Ranked(After(cfg, ops), CallOrder(ops)) && AllFit(cfg, ops, After(cfg, ops))
  {
    if ops != [] {
      var n := |ops| - 1;
      var init, op := ops[..n], ops[n];
      assert ops == init + [op];
      OrdinaryPrefix(cfg, ops);
      RunIsRanked(cfg, init);
      if op.Record? {
        RecordIsRanked(cfg, init, op, After(cfg, init));
      } else {
        TableStandsForLog(cfg, init, Clients(init), op.now);
        CountIsRanked(cfg, init, op, After(cfg, init));
      }
    }
  }

  // ----- A stale client left behind means a stranding pair of clients -----

  lemma {:induction false} HeadIsFresh(m: Table<Times>, bound: int)
    ensures var swept := DropWhile(m, StaleAt(bound)); swept != [] ==> !IsStale(swept[0].1, bound)
  {
    if m != [] && IsStale(m[0].1, bound) {
      HeadIsFresh(m[1..], bound);
    }
  }

  lemma {:induction false} LeftBehindMeansStranded(cfg: Config, ops: seq<Op>, now: int) returns (c: string, d: string)
    requires Ordinary(cfg, ops) && !NoneStale(Swept(cfg, After(cfg, ops), now), now - cfg.windowMs)
    ensures Strands(cfg, ops, c, d, now)
  {
    RunIsRanked(cfg, ops);
    c, d := StaleBehindFresh(cfg, ops, After(cfg, ops), now);
  }

  lemma {:induction false} StaleBehindFresh(cfg: Config, ops: seq<Op>, m: Table<Times>, now: int) returns (c: string, d: string)
    requires Ranked(m, CallOrder(ops)) && AllFit(cfg, ops, m) && !NoneStale(Swept(cfg, m, now), now - cfg.windowMs)
    ensures Strands(cfg, ops, c, d, now)
  {
    var bound, swept := now - cfg.windowMs, Swept(cfg, m, now);
    DropKeepsRanked(m, CallOrder(ops), bound);
    HeadIsFresh(m, bound);
    var i :| 0 <= i < |swept| && IsStale(swept[i].1, bound);
    assert swept[0] in swept && swept[i] in swept;
    PairStrands(cfg, ops, swept, i, now);
    c, d := swept[0].0, swept[i].0;
  }

  lemma {:induction false} PairStrands(cfg: Config, ops: seq<Op>, m: Table<Times>, i: nat, now: int)
    requires Ranked(m, CallOrder(ops)) && 0 < i < |m| && Fits(cfg, ops, m[0]) && Fits(cfg, ops, m[i])
    requires !IsStale(m[0].1, now - cfg.windowMs) && IsStale(m[i].1, now - cfg.windowMs)
    ensures Strands(cfg, ops, m[0].0, m[i].0, now)
  {
    assert m[i] == m[1..][i - 1];
    assert CallOrder(ops)(m[0].0) < CallOrder(ops)(m[i].0);
  }

  // ----- A stranding pair leaves the stale client behind -----

  lemma {:induction false} RecordedIsLogged(ops: seq<Op>, c: string, bound: int)
    requires LastRecord(ops, c).Some? && LastRecord(ops, c).value > bound
    ensures Later(TimesOf(LogOf(ops), c), bound) != []
  {
    var n := |ops| - 1;
    var op, log := ops[n], LogOf(ops[..n]);
    if op.Record? {
      assert (log + [(op.client, op.now)])[..|log|] == log;
      if op.client == c {
        LaterOfAppend(TimesOf(log, c), op.now, bound);
      } else {
        RecordedIsLogged(ops[..n], c, bound);
      }
    } else {
      RecordedIsLogged(ops[..n], c, bound);
    }
  }

  /** A client whose last record is in the window is in the table. */
  lemma {:induction false} FreshIsTracked(cfg: Config, ops: seq<Op>, c: string, now: int)
    requires Ordinary(cfg, ops) && forall i | 0 <= i < |ops| :: ops[i].now <= now
    requires LastRecord(ops, c).Some? && LastRecord(ops, c).value > now - cfg.windowMs
    ensures var m := After(cfg, ops);
            Find(m, c).Some? && !IsStale(Find(m, c).value, now - cfg.windowMs) && Later(Kept(m, c), now - cfg.windowMs) != []
  {
    var m := After(cfg, ops);
    TableStandsForLog(cfg, ops, Clients(ops), now);
    RecordedIsLogged(ops, c, now - cfg.windowMs);
    assert Later(Kept(m, c), now - cfg.windowMs) != [];
    RunIsRanked(cfg, ops);
    FindIff(m, c);
    assert (c, Find(m, c).value) in m;
  }

  /** A fresh entry stops the sweep before it gets to the entries behind. */
  lemma {:induction false} SweepStopsAtFresh(m: Table<Times>, rank: string -> int, bound: int, c: string, d: string)
    requires Ranked(m, rank) && Find(m, c).Some? && !IsStale(Find(m, c).value, bound) && Find(m, d).Some? && rank(c) < rank(d)
    ensures Find(DropWhile(m, StaleAt(bound)), d) == Find(m, d)
  {
    if IsStale(m[0].1, bound) {
      FindIff(m[1..], c);
      assert (c, Find(m, c).value) in m[1..];
      assert m[0].0 != d;
      SweepStopsAtFresh(m[1..], rank, bound, c, d);
    }
  }

  lemma {:induction false} BeforeLast(cfg: Config, ops: seq<Op>, op: Op)
    requires Ordinary(cfg, ops + [op])
    ensures Ordinary(cfg, ops) && Clients(ops) <= Clients(ops + [op]) && (forall i | 0 <= i < |ops| :: ops[i].now <= op.now)
    ensures op.Record? ==> op.client in Clients(ops + [op])
  {
    var all := ops + [op];
    assert all[..|ops|] == ops;
    OrdinaryPrefix(cfg, all);
    assert op == all[|ops|] && op in all;
    assert forall i | 0 <= i < |ops| :: ops[i] == all[i];
    assert forall x | x in ops :: x in all;
  }

  /** In a table whose keys the cap respects, a call leaves the entries of other clients alone once it has swept. */
  lemma {:induction false} ApplyKeepsOthers(cfg: Config, m: Table<Times>, known: set<string>, op: Op, d: string)
    requires DistinctKeys(Swept(cfg, m, op.now)) && Keys(Swept(cfg, m, op.now)) <= known && |known| <= cfg.maxTrackedClients
    requires (op.Record? ==> op.client in known) && op.client != d
    ensures Find(Apply(cfg, m, op), d) == Find(Swept(cfg, m, op.now), d)
  {
    var swept, active := Swept(cfg, m, op.now), Active(cfg, m, op.client, op.now);
    if op.Record? {
      PutSets(swept, op.client, active + [op.now], d);
      NoEviction(Put(swept, op.client, active + [op.now]), known, cfg.maxTrackedClients);
    } else {
      PutSets(swept, op.client, active, d);
      DeleteRemoves(swept, op.client, d);
    }
  }

  lemma {:induction false} SweptKeys(cfg: Config, ops: seq<Op>, op: Op, known: set<string>)
    requires Ordinary(cfg, ops) && (forall i | 0 <= i < |ops| :: ops[i].now <= op.now)
    requires Clients(ops) <= known && |known| <= cfg.maxTrackedClients
    ensures DistinctKeys(Swept(cfg, After(cfg, ops), op.now)) && Keys(Swept(cfg, After(cfg, ops), op.now)) <= known
  {
    TableStandsForLog(cfg, ops, known, op.now);
    SweepKeepsMeaning(After(cfg, ops), LogOf(ops), op.now - cfg.windowMs, op.now - cfg.windowMs);
  }

  /** An entry behind a fresh one survives the sweep. */
  lemma {:induction false} SweepKeepsBehind(cfg: Config, ops: seq<Op>, now: int, c: string, d: string)
    requires Ordinary(cfg, ops) && forall i | 0 <= i < |ops| :: ops[i].now <= now
    requires LastCall(ops, c) < LastCall(ops, d) && LastRecord(ops, c).Some? && LastRecord(ops, c).value > now - cfg.windowMs
    requires Find(After(cfg, ops), d).Some?
    ensures Find(Swept(cfg, After(cfg, ops), now), d) == Find(After(cfg, ops), d)
  {
    FreshIsTracked(cfg, ops, c, now);
    RunIsRanked(cfg, ops);
    SweepStopsAtFresh(After(cfg, ops), CallOrder(ops), now - cfg.windowMs, c, d);
  }

  /** A call for another client does not remove an entry behind a fresh one. */
  lemma {:induction false} OtherCallKeeps(cfg: Config, ops: seq<Op>, op: Op, c: string, d: string)
    requires Ordinary(cfg, ops + [op]) && op.client != d && LastCall(ops, c) < LastCall(ops, d)
    requires LastRecord(ops, c).Some? && LastRecord(ops, c).value > op.now - cfg.windowMs
    requires Find(After(cfg, ops), d).Some?
    ensures Find(Apply(cfg, After(cfg, ops), op), d).Some?
  {
    var known := Clients(ops + [op]);
    BeforeLast(cfg, ops, op);
    SweepKeepsBehind(cfg, ops, op.now, c, d);
    SweptKeys(cfg, ops, op, known);
    ApplyKeepsOthers(cfg, After(cfg, ops), known, op, d);
  }

  lemma {:induction false} RecordIsPast(ops: seq<Op>, c: string)
    requires ClockNeverGoesBack(ops) && LastRecord(ops, c).Some?
    ensures LastCall(ops, c) >= 0 && LastRecord(ops, c).value <= ops[LastCall(ops, c)].now
  {
    var n := |ops| - 1;
    if !(ops[n].Record? && ops[n].client == c) {
      RecordIsPast(ops[..n], c);
    }
  }

  /** The counting call that moves a client behind a fresher one keeps it in the table. */
  lemma {:induction false} CountKeepsCounted(cfg: Config, ops: seq<Op>, op: Op)
    requires Ordinary(cfg, ops + [op]) && op.Count?
    requires LastRecord(ops, op.client).Some? && LastRecord(ops, op.client).value > op.now - cfg.windowMs
    ensures Find(Apply(cfg, After(cfg, ops), op), op.client).Some?
  {
    BeforeLast(cfg, ops, op);
    TableStandsForLog(cfg, ops, Clients(ops), op.now);
    RecordedIsLogged(ops, op.client, op.now - cfg.windowMs);
    CountOfActive(cfg, After(cfg, ops), LogOf(ops), op);
  }

  lemma {:induction false} CountOfActive(cfg: Config, m: Table<Times>, log: Log, op: Op)
    requires StandsFor(m, log, op.now - cfg.windowMs) && op.Count? && Later(TimesOf(log, op.client), op.now - cfg.windowMs) != []
    ensures Find(Apply(cfg, m, op), op.client).Some?
  {
    var d, bound := op.client, op.now - cfg.windowMs;
    SweepKeepsMeaning(m, log, bound, bound);
    var swept, active := Swept(cfg, m, op.now), Active(cfg, m, d, op.now);
    assert active == Later(TimesOf(log, d), bound);
    PutSets(swept, d, active, d);
  }

  lemma {:induction false} StrandedStays(cfg: Config, ops: seq<Op>, c: string, d: string, now: int)
    requires Ordinary(cfg, ops) && (forall i | 0 <= i < |ops| :: ops[i].now <= now) && Strands(cfg, ops, c, d, now)
    ensures Find(After(cfg, ops), d).Some?
  {
    var n := |ops| - 1;
    var init, op := ops[..n], ops[n];
    assert ops == init + [op];
    OrdinaryPrefix(cfg, ops);
    assert c != d && op.client != c;
    if op.client == d {
      StrandingCallCounts(cfg, ops, c, d, now);
      CountKeepsCounted(cfg, init, op);
    } else {
      StrandedStays(cfg, init, c, d, now);
      OtherCallKeeps(cfg, init, op, c, d);
    }
  }

  /** The call that strands a client is never a record: it would make the client as fresh as the other. */
  lemma {:induction false} StrandingCallCounts(cfg: Config, ops: seq<Op>, c: string, d: string, now: int)
    requires ClockNeverGoesBack(ops) && Strands(cfg, ops, c, d, now) && LastCall(ops, d) == |ops| - 1
    ensures ops[|ops| - 1].Count?
  {
    RecordIsPast(ops, c);
  }

  /**
   * For every ordinary run: the sweep at `now` leaves no stale client if and only if no client was
   * last called, while still in its window, after the last call of a client that is fresher now.
   */
  lemma {:induction false} SweepIsCompleteIff(cfg: Config, ops: seq<Op>, now: int)
    requires Ordinary(cfg, ops) && forall i | 0 <= i < |ops| :: ops[i].now <= now
    ensures NoneStale(Swept(cfg, After(cfg, ops), now), now - cfg.windowMs) <==> !exists c, d :: Strands(cfg, ops, c, d, now)
  {
    if c, d :| Strands(cfg, ops, c, d, now) {
      StrandedIsLeftBehind(cfg, ops, c, d, now);
    } else if !NoneStale(Swept(cfg, After(cfg, ops), now), now - cfg.windowMs) {
      var c, d := LeftBehindMeansStranded(cfg, ops, now);
      assert false;
    }
  }

  lemma {:induction false} StrandedIsLeftBehind(cfg: Config, ops: seq<Op>, c: string, d: string, now: int)
    requires Ordinary(cfg, ops) && (forall i | 0 <= i < |ops| :: ops[i].now <= now) && Strands(cfg, ops, c, d, now)
    ensures !NoneStale(Swept(cfg, After(cfg, ops), now), now - cfg.windowMs)
  {
    var m := After(cfg, ops);
    StrandedStays(cfg, ops, c, d, now);
    SweepKeepsBehind(cfg, ops, now, c, d);
    RunIsRanked(cfg, ops);
    EntryFits(cfg, ops, m, d);
    FindIff(Swept(cfg, m, now), d);
  }

  lemma {:induction false} EntryFits(cfg: Config, ops: seq<Op>, m: Table<Times>, d: string)
    requires AllFit(cfg, ops, m) && Find(m, d).Some?
    ensures Fits(cfg, ops, (d, Find(m, d).value))
  {
    FindIff(m, d);
    var e := (d, Find(m, d).value);
    assert e in m;
  }

  /** Reading a count can strand a client: recorded at 0 and counted at 5, it outlives its window at 12. */
  lemma {:induction false} CountingCanStrandAClient(cfg: Config, ops: seq<Op>)
    requires cfg == Config(1, 10, 9) && ops == [Op.Record("a", 0), Op.Record("b", 5), Op.Count("a", 5)]
    ensures Ordinary(cfg, ops) && !NoneStale(Swept(cfg, After(cfg, ops), 12), 2)
  {
    var one, two := ops[..1], ops[..2];
    assert two[..1] == one && one[..0] == [] && "a"[0] != "b"[0];
    assert LastRecord(one, "a") == Some(0);
    assert LastRecord(two, "a") == Some(0) && LastRecord(two, "b") == Some(5);
    assert LastCall(two, "b") == 1;
    assert Strands(cfg, ops, "b", "a", 12);
    assert Clients(ops) <= {"a", "b"};
    SubsetSize(Clients(ops), {"a", "b"});
    StrandedIsLeftBehind(cfg, ops, "b", "a", 12);
  }
}
