/** Per-client request times, and how a pruned table stands for the full log of requests. */
module SlidingWindow {
  import opened Wrappers
  import opened OrderedMap

  type Times = seq<int>

  /** `filter(time => time > bound)`. */
  function Later(ts: Times, bound: int): Times {
    if ts == [] then []
    else
      var n := |ts| - 1;
      if ts[n] > bound then Later(ts[..n], bound) + [ts[n]] else Later(ts[..n], bound)
  }

  ghost predicate Sorted(ts: Times) {
    forall i, j | 0 <= i < j < |ts| :: ts[i] <= ts[j]
  }

  /** The test of the sweep: no request after `bound`, judged by the last one. */
  predicate IsStale(ts: Times, bound: int) {
    ts == [] || ts[|ts| - 1] <= bound
  }

  function StaleAt(bound: int): Times -> bool {
    ts => IsStale(ts, bound)
  }

  lemma LaterOfAppend(ts: Times, t: int, bound: int)
    ensures Later(ts + [t], bound) == if t > bound then Later(ts, bound) + [t] else Later(ts, bound)
  {
    assert (ts + [t])[..|ts|] == ts;
  }

  lemma {:induction false} LaterTwice(ts: Times, low: int, high: int)
    requires low <= high
    ensures Later(Later(ts, low), high) == Later(ts, high)
  {
    if ts != [] {
      var n := |ts| - 1;
      LaterTwice(ts[..n], low, high);
      if ts[n] > low {
        LaterOfAppend(Later(ts[..n], low), ts[n], high);
      }
    }
  }

  lemma {:induction false} StaleHasNoneLater(ts: Times, bound: int)
    requires Sorted(ts) && IsStale(ts, bound)
    ensures Later(ts, bound) == []
  {
    if ts != [] {
      StaleHasNoneLater(ts[..|ts| - 1], bound);
    }
  }

  lemma SortedAppend(ts: Times, t: int)
    requires Sorted(ts) && forall x | x in ts :: x <= t
    ensures Sorted(ts + [t])
  {
    assert forall i | 0 <= i < |ts| :: ts[i] in ts;
  }

  lemma {:induction false} LaterKeepsOrder(ts: Times, bound: int)
    requires Sorted(ts)
    ensures Sorted(Later(ts, bound))
    ensures forall t | t in Later(ts, bound) :: t in ts && t > bound
  {
    if ts != [] {
      var n := |ts| - 1;
      LaterKeepsOrder(ts[..n], bound);
      forall t | t in Later(ts[..n], bound)
        ensures t <= ts[n]
      {
        var i :| 0 <= i < n && ts[..n][i] == t;
        assert ts[i] == t;
      }
      SortedAppend(Later(ts[..n], bound), ts[n]);
    }
  }

  // ----- The full log -----

  /** Every recorded request, oldest first. */
  type Log = seq<(string, int)>

  function TimesOf(log: Log, c: string): Times {
    if log == [] then []
    else
      var n := |log| - 1;
      if log[n].0 == c then TimesOf(log[..n], c) + [log[n].1] else TimesOf(log[..n], c)
  }

  /** The plain recount: requests of one client after `bound`. */
  function CountAfter(log: Log, c: string, bound: int): nat {
    if log == [] then 0
    else CountAfter(log[..|log| - 1], c, bound) + if log[|log| - 1].0 == c && log[|log| - 1].1 > bound then 1 else 0
  }

  lemma {:induction false} RecountIsLength(log: Log, c: string, bound: int)
    ensures CountAfter(log, c, bound) == |Later(TimesOf(log, c), bound)|
  {
    if log != [] {
      var n := |log| - 1;
      RecountIsLength(log[..n], c, bound);
      if log[n].0 == c {
        LaterOfAppend(TimesOf(log[..n], c), log[n].1, bound);
      }
    }
  }

  // ----- The table stands for the log -----

  function Kept(m: Table<Times>, c: string): Times {
    match Find(m, c)
    case None => []
    case Some(ts) => ts
  }

  /** For every client, table and log have the same requests after the horizon. */
  ghost predicate StandsFor(m: Table<Times>, log: Log, horizon: int) {
    && DistinctKeys(m)
    && (forall i | 0 <= i < |m| :: Sorted(m[i].1))
    && (forall c :: Later(Kept(m, c), horizon) == Later(TimesOf(log, c), horizon))
  }

  lemma KeptIsSorted(m: Table<Times>, log: Log, horizon: int, c: string)
    requires StandsFor(m, log, horizon)
    ensures Sorted(Kept(m, c))
  {
    FindIff(m, c);
  }

  lemma SameLaterStill(m: Table<Times>, log: Log, horizon: int, bound: int, c: string)
    requires StandsFor(m, log, horizon) && horizon <= bound
    ensures Later(Kept(m, c), bound) == Later(TimesOf(log, c), bound)
  {
    LaterTwice(Kept(m, c), horizon, bound);
    LaterTwice(TimesOf(log, c), horizon, bound);
  }

  lemma StandsForLater(m: Table<Times>, log: Log, h: int, h': int)
    requires StandsFor(m, log, h) && h <= h'
    ensures StandsFor(m, log, h')
  {
    forall c
      ensures Later(Kept(m, c), h') == Later(TimesOf(log, c), h')
    {
      SameLaterStill(m, log, h, h', c);
    }
  }

  lemma {:induction false} DropWhileIsASuffix<V>(m: Table<V>, stale: V -> bool)
    ensures |DropWhile(m, stale)| <= |m| && DropWhile(m, stale) == m[|m| - |DropWhile(m, stale)|..]
  {
    if m != [] && stale(m[0].1) {
      DropWhileIsASuffix(m[1..], stale);
    }
  }

  /** Lazy, early-exit sweeping does not change what the table stands for. */
  lemma SweepKeepsMeaning(m: Table<Times>, log: Log, horizon: int, bound: int)
    requires StandsFor(m, log, horizon) && horizon <= bound
    ensures StandsFor(DropWhile(m, StaleAt(bound)), log, bound)
    ensures Keys(DropWhile(m, StaleAt(bound))) <= Keys(m)
  {
    var swept := DropWhile(m, StaleAt(bound));
    SweepLosesOnlyStale(m, StaleAt(bound), "");
    DropWhileIsASuffix(m, StaleAt(bound));
    forall c
      ensures Later(Kept(swept, c), bound) == Later(TimesOf(log, c), bound)
    {
      SameLaterStill(m, log, horizon, bound, c);
      SweepLosesOnlyStale(m, StaleAt(bound), c);
      KeptIsSorted(m, log, horizon, c);
      if Find(swept, c) != Find(m, c) {
        StaleHasNoneLater(Kept(m, c), bound);
      }
    }
  }

  /** Replacing one client's times by equal later ones, and moving it to the end, keeps the meaning. */
  lemma PutKeepsMeaning(m: Table<Times>, log: Log, horizon: int, c: string, ts: Times, log': Log)
    requires StandsFor(m, log, horizon) && Sorted(ts)
    requires Later(ts, horizon) == Later(TimesOf(log', c), horizon)
    requires forall d | d != c :: TimesOf(log', d) == TimesOf(log, d)
    ensures StandsFor(Put(m, c, ts), log', horizon)
    ensures Keys(Put(m, c, ts)) == Keys(m) + {c}
  {
    var put := Put(m, c, ts);
    forall d
      ensures Later(Kept(put, d), horizon) == Later(TimesOf(log', d), horizon)
    {
      PutSets(m, c, ts, d);
    }
    PutSets(m, c, ts, c);
    PutKeepsSorted(m, c, ts);
  }

  lemma PutKeepsSorted(m: Table<Times>, c: string, ts: Times)
    requires Sorted(ts) && forall i | 0 <= i < |m| :: Sorted(m[i].1)
    ensures forall i | 0 <= i < |Put(m, c, ts)| :: Sorted(Put(m, c, ts)[i].1)
  {
    DeleteKeepsSorted(m, c);
  }

  lemma {:induction false} DeleteKeepsSorted(m: Table<Times>, c: string)
    requires forall i | 0 <= i < |m| :: Sorted(m[i].1)
    ensures forall i | 0 <= i < |Delete(m, c)| :: Sorted(Delete(m, c)[i].1)
  {
    if m != [] && m[0].0 != c {
      DeleteKeepsSorted(m[1..], c);
    }
  }

  /** Forgetting a client without requests after the horizon keeps the meaning. */
  lemma DeleteKeepsMeaning(m: Table<Times>, log: Log, horizon: int, c: string, log': Log)
    requires StandsFor(m, log, horizon) && Later(TimesOf(log', c), horizon) == []
    requires forall d | d != c :: TimesOf(log', d) == TimesOf(log, d)
    ensures StandsFor(Delete(m, c), log', horizon) && Keys(Delete(m, c)) <= Keys(m)
  {
    forall d
      ensures Later(Kept(Delete(m, c), d), horizon) == Later(TimesOf(log', d), horizon)
    {
      DeleteRemoves(m, c, d);
    }
    DeleteRemoves(m, c, c);
    DeleteKeepsSorted(m, c);
  }

  /** Recording: prune the client's times, add the new one, move the client to the end. */
  lemma RecordKeepsMeaning(m: Table<Times>, log: Log, horizon: int, c: string, now: int)
    requires StandsFor(m, log, horizon) && horizon < now
    requires forall i | 0 <= i < |log| :: log[i].1 <= now
    ensures StandsFor(Put(m, c, Later(Kept(m, c), horizon) + [now]), log + [(c, now)], horizon)
    ensures Keys(Put(m, c, Later(Kept(m, c), horizon) + [now])) == Keys(m) + {c}
    ensures |Later(Kept(m, c), horizon) + [now]| == CountAfter(log + [(c, now)], c, horizon)
  {
    var active := Later(Kept(m, c), horizon);
    OneMoreRecord(log, c, now, horizon);
    ActiveThenNow(m, log, horizon, c, now);
    LaterOfAppend(active, now, horizon);
    LaterTwice(Kept(m, c), horizon, horizon);
    PutKeepsMeaning(m, log, horizon, c, active + [now], log + [(c, now)]);
  }

  lemma OneMoreRecord(log: Log, c: string, now: int, horizon: int)
    requires horizon < now
    ensures forall d | d != c :: TimesOf(log + [(c, now)], d) == TimesOf(log, d)
    ensures Later(TimesOf(log + [(c, now)], c), horizon) == Later(TimesOf(log, c), horizon) + [now]
    ensures CountAfter(log + [(c, now)], c, horizon) == |Later(TimesOf(log, c), horizon)| + 1
  {
    var log' := log + [(c, now)];
    assert log'[..|log|] == log;
    LaterOfAppend(TimesOf(log, c), now, horizon);
    RecountIsLength(log, c, horizon);
  }

  lemma ActiveThenNow(m: Table<Times>, log: Log, horizon: int, c: string, now: int)
    requires StandsFor(m, log, horizon)
    requires forall i | 0 <= i < |log| :: log[i].1 <= now
    ensures Sorted(Later(Kept(m, c), horizon) + [now])
  {
    KeptIsSorted(m, log, horizon, c);
    LaterKeepsOrder(Kept(m, c), horizon);
    LoggedAreEarlier(log, c, now, horizon);
    SortedAppend(Later(Kept(m, c), horizon), now);
  }

  lemma LoggedAreEarlier(log: Log, c: string, now: int, horizon: int)
    requires forall i | 0 <= i < |log| :: log[i].1 <= now
    ensures forall t | t in Later(TimesOf(log, c), horizon) :: t <= now
  {
    TimesAreLogged(log, c);
    LaterAreTimes(TimesOf(log, c), horizon);
  }

  lemma {:induction false} TimesAreLogged(log: Log, c: string)
    ensures forall t | t in TimesOf(log, c) :: (c, t) in log
  {
    if log != [] {
      TimesAreLogged(log[..|log| - 1], c);
    }
  }

  lemma {:induction false} LaterAreTimes(ts: Times, bound: int)
    ensures forall t | t in Later(ts, bound) :: t in ts
  {
    if ts != [] {
      LaterAreTimes(ts[..|ts| - 1], bound);
    }
  }
}
