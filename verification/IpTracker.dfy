/** The per-address request limiter with its ban list. */
module IpTracker {
  import opened Wrappers
  import opened OrderedMap
  import opened SlidingWindow

  const MINUTE := 60000

  /** None of the three is checked by the source. */
  datatype Config = Config(maxReqPerMin: int, maxTrackedIps: int, banTtl: int)

  /** Request times of each address, and for banned ones the time up to which they are refused. */
  datatype State = State(requests: Table<Times>, bans: Table<int>)

  const Fresh := State([], [])

  function ExpiredAt(now: int): int -> bool {
    expiry => now > expiry
  }

  function Swept(s: State, now: int): State {
    State(DropWhile(s.requests, StaleAt(now - MINUTE)), DropWhile(s.bans, ExpiredAt(now)))
  }

  function Limited(cfg: Config, s: State): State {
    State(Capped(s.requests, cfg.maxTrackedIps), Capped(s.bans, cfg.maxTrackedIps))
  }

  predicate Banned(s: State, ip: string, now: int) {
    var expiry := Find(s.bans, ip);
    expiry.Some? && now <= expiry.value
  }

  /** The request times that count, this request included. */
  function Counted(s: State, ip: string, now: int): Times {
    Later(Kept(s.requests, ip), now - MINUTE) + [now]
  }

  function Admit(cfg: Config, s: State, ip: string, now: int): (State, bool) {
    var times := Counted(s, ip, now);
    var noted := Limited(cfg, State(Put(s.requests, ip, times), Delete(s.bans, ip)));
    if |times| > cfg.maxReqPerMin then (Limited(cfg, noted.(bans := Put(noted.bans, ip, now + cfg.banTtl))), false)
    else (noted, true)
  }

  function Recorded(cfg: Config, s: State, ip: string, now: int): (State, bool) {
    var swept := Swept(s, now);
    if Banned(swept, ip, now) then (swept, false) else Admit(cfg, swept, ip, now)
  }

  function Checked(s: State, ip: string, now: int): (State, bool) {
    var swept := Swept(s, now);
    if Banned(swept, ip, now) then (swept, true) else (swept.(bans := Delete(swept.bans, ip)), false)
  }

  function CountOf(s: State, ip: string, now: int): (State, nat) {
    var swept := Swept(s, now);
    var times := Kept(swept.requests, ip);
    (if times == [] then swept else swept.(requests := Put(swept.requests, ip, times)), |Later(times, now - MINUTE)|)
  }

  function Unbanned(s: State, ip: string): State {
    State(Delete(s.requests, ip), Delete(s.bans, ip))
  }

  class Tracker {
    const cfg: Config
    var requests: Table<Times>
    var banList: Table<int>

    constructor (cfg: Config)
      ensures this.cfg == cfg && Current() == Fresh
    {
      this.cfg, this.requests, this.banList := cfg, [], [];
    }

    ghost function Current(): State
      reads this
    {
      State(requests, banList)
    }

    method SweepBoth(now: int)
      modifies this
      ensures Current() == Swept(old(Current()), now)
    {
      requests := Sweep(requests, StaleAt(now - MINUTE));
      banList := Sweep(banList, ExpiredAt(now));
    }

    method EnforceCaps()
      modifies this
      ensures Current() == Limited(cfg, old(Current()))
    {
      requests := EnforceCap(requests, cfg.maxTrackedIps);
      banList := EnforceCap(banList, cfg.maxTrackedIps);
    }

    method RecordRequest(ip: string, now: int) returns (allowed: bool)
      modifies this
      ensures (Current(), allowed) == Recorded(cfg, old(Current()), ip, now)
    {
      SweepBoth(now);
      var expiry := Find(banList, ip);
      if expiry.Some? {
        if now > expiry.value {
          banList := Delete(banList, ip);
        } else {
          return false;
        }
      } else {
        DeleteAbsent(banList, ip);
      }
      var timestamps := Later(Kept(requests, ip), now - MINUTE) + [now];
      requests := Put(requests, ip, timestamps);
      EnforceCaps();
      if |timestamps| > cfg.maxReqPerMin {
        banList := Put(banList, ip, now + cfg.banTtl);
        EnforceCaps();
        return false;
      }
      return true;
    }

    method IsBanned(ip: string, now: int) returns (banned: bool)
      modifies this
      ensures (Current(), banned) == Checked(old(Current()), ip, now)
    {
      SweepBoth(now);
      var expiry := Find(banList, ip);
      if expiry.Some? {
        if now > expiry.value {
          banList := Delete(banList, ip);
          return false;
        }
        return true;
      }
      DeleteAbsent(banList, ip);
      return false;
    }

    method GetRequestCount(ip: string, now: int) returns (count: nat)
      modifies this
      ensures (Current(), count) == CountOf(old(Current()), ip, now)
    {
      SweepBoth(now);
      var timestamps := Kept(requests, ip);
      if timestamps != [] {
        requests := Put(requests, ip, timestamps);
      }
      count := |Later(timestamps, now - MINUTE)|;
    }

    method Unban(ip: string)
      modifies this
      ensures Current() == Unbanned(old(Current()), ip)
    {
      banList := Delete(banList, ip);
      requests := Delete(requests, ip);
    }
  }

  lemma {:induction false} DeleteAbsent<V>(m: Table<V>, k: string)
    requires Find(m, k).None?
    ensures Delete(m, k) == m
  {
    if m != [] {
      DeleteAbsent(m[1..], k);
    }
  }

  // ----- Runs -----

  /** `now` is the time of the call; `unban` does not look at it. */
  datatype Op = Record(ip: string, now: int) | Check(ip: string, now: int) | Count(ip: string, now: int) | Unban(ip: string, now: int)

  function Apply(cfg: Config, s: State, op: Op): State {
    match op
    case Record(ip, now) => Recorded(cfg, s, ip, now).0
    case Check(ip, now) => Checked(s, ip, now).0
    case Count(ip, now) => CountOf(s, ip, now).0
    case Unban(ip, _) => Unbanned(s, ip)
  }

  function After(cfg: Config, s: State, ops: seq<Op>): State {
    if ops == [] then s else Apply(cfg, After(cfg, s, ops[..|ops| - 1]), ops[|ops| - 1])
  }

  function Without(log: Log, ip: string): Log {
    if log == [] then []
    else
      var n := |log| - 1;
      if log[n].0 == ip then Without(log[..n], ip) else Without(log[..n], ip) + [log[n]]
  }

  /** Refused requests are not logged; lifting a ban clears the address's log. */
  function Logged(cfg: Config, s: State, log: Log, op: Op): Log {
    match op
    case Record(ip, now) => if Banned(Swept(s, now), ip, now) then log else log + [(ip, now)]
    case Unban(ip, _) => Without(log, ip)
    case _ => log
  }

  function LogOf(cfg: Config, ops: seq<Op>): Log {
    if ops == [] then []
    else
      var n := |ops| - 1;
      Logged(cfg, After(cfg, Fresh, ops[..n]), LogOf(cfg, ops[..n]), ops[n])
  }

  function Addresses(ops: seq<Op>): set<string> {
    set op | op in ops :: op.ip
  }

  ghost predicate ClockNeverGoesBack(ops: seq<Op>) {
    forall i, j | 0 <= i < j < |ops| :: ops[i].now <= ops[j].now
  }

  ghost predicate WellKeyed(s: State, known: set<string>) {
    DistinctKeys(s.requests) && Keys(s.requests) <= known && DistinctKeys(s.bans) && Keys(s.bans) <= known
  }

  ghost predicate Tracks(s: State, log: Log, horizon: int, known: set<string>) {
    && StandsFor(s.requests, log, horizon) && Keys(s.requests) <= known
    && DistinctKeys(s.bans) && Keys(s.bans) <= known
  }

  lemma SweepKeepsTracking(s: State, log: Log, horizon: int, now: int, known: set<string>)
    requires Tracks(s, log, horizon, known) && horizon <= now - MINUTE
    ensures Tracks(Swept(s, now), log, now - MINUTE, known)
  {
    SweepKeepsMeaning(s.requests, log, horizon, now - MINUTE);
    SweepLosesOnlyStale(s.bans, ExpiredAt(now), "");
  }

  lemma LimitsEvictNothing(cfg: Config, s: State, known: set<string>)
    requires DistinctKeys(s.requests) && Keys(s.requests) <= known
    requires DistinctKeys(s.bans) && Keys(s.bans) <= known && |known| <= cfg.maxTrackedIps
    ensures Limited(cfg, s) == s
  {
    NoEviction(s.requests, known, cfg.maxTrackedIps);
    NoEviction(s.bans, known, cfg.maxTrackedIps);
  }

  /** Once nothing is evicted, admitting is one update of each table. */
  lemma AdmitIs(cfg: Config, s: State, ip: string, now: int, known: set<string>)
    requires WellKeyed(s, known) && ip in known && |known| <= cfg.maxTrackedIps
    ensures var bans := Delete(s.bans, ip);
            Admit(cfg, s, ip, now).0 == State(Put(s.requests, ip, Counted(s, ip, now)),
              if |Counted(s, ip, now)| > cfg.maxReqPerMin then Put(bans, ip, now + cfg.banTtl) else bans)
    ensures WellKeyed(Admit(cfg, s, ip, now).0, known)
  {
    var times, bans := Counted(s, ip, now), Delete(s.bans, ip);
    var requests := Put(s.requests, ip, times);
    PutSets(s.requests, ip, times, ip);
    DeleteRemoves(s.bans, ip, ip);
    LimitsEvictNothing(cfg, State(requests, bans), known);
    PutSets(bans, ip, now + cfg.banTtl, ip);
    LimitsEvictNothing(cfg, State(requests, Put(bans, ip, now + cfg.banTtl)), known);
  }

  lemma NoteKeepsTracking(s: State, log: Log, ip: string, now: int, known: set<string>, bans: Table<int>)
    requires Tracks(s, log, now - MINUTE, known) && ip in known && DistinctKeys(bans) && Keys(bans) <= known
    requires forall i | 0 <= i < |log| :: log[i].1 <= now
    ensures Tracks(State(Put(s.requests, ip, Counted(s, ip, now)), bans), log + [(ip, now)], now - MINUTE, known)
    ensures |Counted(s, ip, now)| == CountAfter(log + [(ip, now)], ip, now - MINUTE)
  {
    RecordKeepsMeaning(s.requests, log, now - MINUTE, ip, now);
    PutSets(s.requests, ip, Counted(s, ip, now), ip);
  }

  lemma AdmitKeepsTracking(cfg: Config, s: State, log: Log, ip: string, now: int, known: set<string>)
    requires Tracks(s, log, now - MINUTE, known) && ip in known && |known| <= cfg.maxTrackedIps
    requires forall i | 0 <= i < |log| :: log[i].1 <= now
    ensures Tracks(Admit(cfg, s, ip, now).0, log + [(ip, now)], now - MINUTE, known)
    ensures |Counted(s, ip, now)| == CountAfter(log + [(ip, now)], ip, now - MINUTE)
  {
    AdmitIs(cfg, s, ip, now, known);
    NoteKeepsTracking(s, log, ip, now, known, Admit(cfg, s, ip, now).0.bans);
  }

  lemma ExcessIsBanned(cfg: Config, s: State, ip: string, now: int, known: set<string>)
    requires WellKeyed(s, known) && ip in known && |known| <= cfg.maxTrackedIps
    requires |Counted(s, ip, now)| > cfg.maxReqPerMin
    ensures Find(Admit(cfg, s, ip, now).0.bans, ip) == Some(now + cfg.banTtl)
  {
    AdmitIs(cfg, s, ip, now, known);
    DeleteRemoves(s.bans, ip, ip);
    PutSets(Delete(s.bans, ip), ip, now + cfg.banTtl, ip);
  }

  lemma CountKeepsTracking(s: State, log: Log, ip: string, now: int, known: set<string>)
    requires Tracks(s, log, now - MINUTE, known)
    ensures |Later(Kept(s.requests, ip), now - MINUTE)| == CountAfter(log, ip, now - MINUTE)
    ensures Kept(s.requests, ip) != [] ==>
      Tracks(s.(requests := Put(s.requests, ip, Kept(s.requests, ip))), log, now - MINUTE, known)
  {
    RecountIsLength(log, ip, now - MINUTE);
    if Kept(s.requests, ip) != [] {
      FindIff(s.requests, ip);
      KeptIsSorted(s.requests, log, now - MINUTE, ip);
      PutKeepsMeaning(s.requests, log, now - MINUTE, ip, Kept(s.requests, ip), log);
    }
  }

  lemma {:induction false} WithoutForgetsOne(log: Log, ip: string, c: string)
    ensures TimesOf(Without(log, ip), c) == if c == ip then [] else TimesOf(log, c)
    ensures forall e | e in Without(log, ip) :: e in log
  {
    if log != [] {
      var n := |log| - 1;
      WithoutForgetsOne(log[..n], ip, c);
      var rest := Without(log[..n], ip);
      assert (rest + [log[n]])[..|rest|] == rest;
    }
  }

  lemma UnbanKeepsTracking(s: State, log: Log, horizon: int, ip: string, known: set<string>)
    requires Tracks(s, log, horizon, known)
    ensures Tracks(Unbanned(s, ip), Without(log, ip), horizon, known)
  {
    forall c
      ensures TimesOf(Without(log, ip), c) == if c == ip then [] else TimesOf(log, c)
    {
      WithoutForgetsOne(log, ip, c);
    }
    DeleteKeepsMeaning(s.requests, log, horizon, ip, Without(log, ip));
    DeleteRemoves(s.bans, ip, ip);
  }

  lemma LoggedKeepsTracking(cfg: Config, s: State, log: Log, horizon: int, op: Op, known: set<string>)
    requires Tracks(s, log, horizon, known) && horizon <= op.now - MINUTE
    requires op.ip in known && |known| <= cfg.maxTrackedIps
    requires forall i | 0 <= i < |log| :: log[i].1 <= op.now
    ensures Tracks(Apply(cfg, s, op), Logged(cfg, s, log, op), op.now - MINUTE, known)
  {
    var swept := Swept(s, op.now);
    SweepKeepsTracking(s, log, horizon, op.now, known);
    match op
    case Record(ip, now) =>
      if !Banned(swept, ip, now) {
        AdmitKeepsTracking(cfg, swept, log, ip, now, known);
      }
    case Check(ip, now) =>
      DeleteRemoves(swept.bans, ip, ip);
    case Count(ip, now) =>
      CountKeepsTracking(swept, log, ip, now, known);
    case Unban(ip, now) =>
      UnbanKeepsTracking(s, log, horizon, ip, known);
      TracksLater(Unbanned(s, ip), Without(log, ip), horizon, now - MINUTE, known);
  }

  lemma LoggedIsPast(cfg: Config, s: State, log: Log, op: Op)
    requires forall e | e in log :: e.1 <= op.now
    ensures forall e | e in Logged(cfg, s, log, op) :: e.1 <= op.now
  {
    WithoutForgetsOne(log, op.ip, "");
  }

  ghost predicate Ordinary(cfg: Config, ops: seq<Op>, known: set<string>) {
    ClockNeverGoesBack(ops) && Addresses(ops) <= known && |known| <= cfg.maxTrackedIps
  }

  lemma {:induction false} TrackStep(cfg: Config, s: State, log: Log, op: Op, known: set<string>, now: int)
    requires Tracks(s, log, op.now - MINUTE, known) && (forall e | e in log :: e.1 <= op.now) && op.now <= now
    requires op.ip in known && |known| <= cfg.maxTrackedIps
    ensures Tracks(Apply(cfg, s, op), Logged(cfg, s, log, op), now - MINUTE, known)
    ensures forall e | e in Logged(cfg, s, log, op) :: e.1 <= now
  {
    assert forall i | 0 <= i < |log| :: log[i] in log;
    LoggedKeepsTracking(cfg, s, log, op.now - MINUTE, op, known);
    LoggedIsPast(cfg, s, log, op);
    TracksLater(Apply(cfg, s, op), Logged(cfg, s, log, op), op.now - MINUTE, now - MINUTE, known);
  }

  /** On a clock that never goes back and with no more addresses than the cap, nothing recent is lost. */
  lemma {:induction false} TrackerTracks(cfg: Config, ops: seq<Op>, known: set<string>, now: int)
    requires Ordinary(cfg, ops, known) && forall i | 0 <= i < |ops| :: ops[i].now <= now
    ensures Tracks(After(cfg, Fresh, ops), LogOf(cfg, ops), now - MINUTE, known)
    ensures forall e | e in LogOf(cfg, ops) :: e.1 <= now
  {
    if ops != [] {
      var n := |ops| - 1;
      assert ops[n] in ops;
      TrackerTracks(cfg, ops[..n], known, ops[n].now);
      TrackStep(cfg, After(cfg, Fresh, ops[..n]), LogOf(cfg, ops[..n]), ops[n], known, now);
    }
  }

  lemma TracksLater(s: State, log: Log, h: int, h': int, known: set<string>)
    requires Tracks(s, log, h, known) && h <= h'
    ensures Tracks(s, log, h', known)
  {
    StandsForLater(s.requests, log, h, h');
  }

  /** The next call is allowed exactly when it is not banned and the recount, itself included, is within the limit. */
  lemma {:induction false} NextRequestIsJudgedByRecount(cfg: Config, ops: seq<Op>, known: set<string>, ip: string, now: int)
    requires Ordinary(cfg, ops, known) && (forall i | 0 <= i < |ops| :: ops[i].now <= now) && ip in known
    ensures var s := After(cfg, Fresh, ops);
            Recorded(cfg, s, ip, now).1 <==>
              !Banned(Swept(s, now), ip, now) && CountAfter(LogOf(cfg, ops) + [(ip, now)], ip, now - MINUTE) <= cfg.maxReqPerMin
    ensures CountOf(After(cfg, Fresh, ops), ip, now).1 == CountAfter(LogOf(cfg, ops), ip, now - MINUTE)
  {
    var s, log := After(cfg, Fresh, ops), LogOf(cfg, ops);
    TrackerTracks(cfg, ops, known, now);
    SweepKeepsTracking(s, log, now - MINUTE, now, known);
    assert forall i | 0 <= i < |log| :: log[i] in log;
    AdmitKeepsTracking(cfg, Swept(s, now), log, ip, now, known);
    CountKeepsTracking(Swept(s, now), log, ip, now, known);
  }

  // ----- Bans -----

  /** A request over the limit bans its address until `now + banTtl`. */
  lemma {:induction false} ExcessSetsBan(cfg: Config, ops: seq<Op>, known: set<string>, ip: string, now: int)
    requires Ordinary(cfg, ops, known) && (forall i | 0 <= i < |ops| :: ops[i].now <= now) && ip in known
    requires var s := After(cfg, Fresh, ops); !Banned(Swept(s, now), ip, now) && !Recorded(cfg, s, ip, now).1
    ensures Find(Recorded(cfg, After(cfg, Fresh, ops), ip, now).0.bans, ip) == Some(now + cfg.banTtl)
    ensures WellKeyed(Recorded(cfg, After(cfg, Fresh, ops), ip, now).0, known)
  {
    var s, log := After(cfg, Fresh, ops), LogOf(cfg, ops);
    TrackerTracks(cfg, ops, known, now);
    SweepKeepsTracking(s, log, now - MINUTE, now, known);
    AdmitIs(cfg, Swept(s, now), ip, now, known);
    ExcessIsBanned(cfg, Swept(s, now), ip, now, known);
  }

  lemma SweepKeepsBan(s: State, known: set<string>, now: int, ip: string, expiry: int)
    requires WellKeyed(s, known) && Find(s.bans, ip) == Some(expiry) && now <= expiry
    ensures WellKeyed(Swept(s, now), known) && Find(Swept(s, now).bans, ip) == Some(expiry)
  {
    SweepLosesOnlyStale(s.requests, StaleAt(now - MINUTE), ip);
    SweepLosesOnlyStale(s.bans, ExpiredAt(now), ip);
  }

  lemma AdmitKeepsOtherBan(cfg: Config, s: State, known: set<string>, other: string, now: int, ip: string)
    requires WellKeyed(s, known) && other != ip && other in known && |known| <= cfg.maxTrackedIps
    ensures WellKeyed(Admit(cfg, s, other, now).0, known)
    ensures Find(Admit(cfg, s, other, now).0.bans, ip) == Find(s.bans, ip)
  {
    AdmitIs(cfg, s, other, now, known);
    DeleteRemoves(s.bans, other, ip);
    PutSets(Delete(s.bans, other), other, now + cfg.banTtl, ip);
  }

  lemma ApplyKeepsBan(cfg: Config, s: State, known: set<string>, op: Op, ip: string, expiry: int)
    requires WellKeyed(s, known) && op.ip in known && |known| <= cfg.maxTrackedIps
    requires Find(s.bans, ip) == Some(expiry) && op.now <= expiry && op != Unban(ip, op.now)
    ensures WellKeyed(Apply(cfg, s, op), known) && Find(Apply(cfg, s, op).bans, ip) == Some(expiry)
    ensures op == Record(ip, op.now) ==> !Recorded(cfg, s, ip, op.now).1
    ensures op == Check(ip, op.now) ==> Checked(s, ip, op.now).1
  {
    var swept := Swept(s, op.now);
    SweepKeepsBan(s, known, op.now, ip, expiry);
    match op
    case Record(other, now) =>
      if other != ip {
        AdmitKeepsOtherBan(cfg, swept, known, other, now, ip);
      }
    case Check(other, now) =>
      DeleteRemoves(swept.bans, other, ip);
    case Count(other, now) =>
      PutSets(swept.requests, other, Kept(swept.requests, other), ip);
      FindIff(swept.requests, other);
    case Unban(other, now) =>
      DeleteRemoves(s.bans, other, ip);
      DeleteRemoves(s.requests, other, ip);
  }

  /**
   * Without lifting and without eviction, a ban in force refuses every request of its address up
   * to its expiry, whatever else is called meanwhile.
   */
  lemma {:induction false} BanHolds(cfg: Config, s: State, ops: seq<Op>, known: set<string>, ip: string, expiry: int, n: nat)
    requires WellKeyed(s, known) && Addresses(ops) <= known && |known| <= cfg.maxTrackedIps && n <= |ops|
    requires Find(s.bans, ip) == Some(expiry)
    requires forall op | op in ops :: op.now <= expiry && op != Unban(ip, op.now)
    ensures WellKeyed(After(cfg, s, ops[..n]), known) && Find(After(cfg, s, ops[..n]).bans, ip) == Some(expiry)
    ensures n < |ops| && ops[n] == Record(ip, ops[n].now) ==> !Recorded(cfg, After(cfg, s, ops[..n]), ip, ops[n].now).1
    ensures n < |ops| && ops[n] == Check(ip, ops[n].now) ==> Checked(After(cfg, s, ops[..n]), ip, ops[n].now).1
  {
    if n > 0 {
      BanHolds(cfg, s, ops, known, ip, expiry, n - 1);
      assert ops[n - 1] in ops && ops[..n][..n - 1] == ops[..n - 1];
      ApplyKeepsBan(cfg, After(cfg, s, ops[..n - 1]), known, ops[n - 1], ip, expiry);
    }
    if n < |ops| {
      assert ops[n] in ops;
      ApplyKeepsBan(cfg, After(cfg, s, ops[..n]), known, ops[n], ip, expiry);
    }
  }

  /**
   * The whole of it: after any ordinary run, a request over the limit at time t bans its address,
   * and every later request of it up to t + banTtl is refused, unless the ban is lifted.
   */
  lemma {:induction false} ExcessIsRefusedThroughTtl(
    cfg: Config, ops: seq<Op>, known: set<string>, ip: string, t: int, later: seq<Op>, n: nat)
    requires Ordinary(cfg, ops, known) && (forall i | 0 <= i < |ops| :: ops[i].now <= t) && ip in known
    requires var s := After(cfg, Fresh, ops); !Banned(Swept(s, t), ip, t) && !Recorded(cfg, s, ip, t).1
    requires Addresses(later) <= known && n < |later| && later[n] == Record(ip, later[n].now)
    requires forall op | op in later :: op.now <= t + cfg.banTtl && op != Unban(ip, op.now)
    ensures var banned := Recorded(cfg, After(cfg, Fresh, ops), ip, t).0;
            !Recorded(cfg, After(cfg, banned, later[..n]), ip, later[n].now).1
  {
    ExcessSetsBan(cfg, ops, known, ip, t);
    BanHolds(cfg, Recorded(cfg, After(cfg, Fresh, ops), ip, t).0, later, known, ip, t + cfg.banTtl, n);
  }

  // ----- Exactly when an address is banned -----

  /** The call is a request of the address that is not banned at the time and exceeds the limit by the recount. */
  ghost predicate Exceeds(cfg: Config, s: State, log: Log, op: Op, ip: string) {
    && op == Record(ip, op.now) && !Banned(Swept(s, op.now), ip, op.now)
    && CountAfter(log + [(ip, op.now)], ip, op.now - MINUTE) > cfg.maxReqPerMin
  }

  /** The calls of a run that exceeded the limit of the address. */
  ghost function Excesses(cfg: Config, ops: seq<Op>, ip: string): (ks: set<nat>)
    ensures forall k | k in ks :: k < |ops| && ops[k] == Record(ip, ops[k].now)
  {
    if ops == [] then {}
    else
      var n: nat := |ops| - 1;
      Excesses(cfg, ops[..n], ip) + if Exceeds(cfg, After(cfg, Fresh, ops[..n]), LogOf(cfg, ops[..n]), ops[n], ip) then {n} else {}
  }

  ghost predicate NotLifted(ops: seq<Op>, k: nat, ip: string) {
    forall j | k < j < |ops| :: ops[j] != Unban(ip, ops[j].now)
  }

  /** That excess still bans the address at `now`, and the ban has not been lifted. */
  ghost predicate StillBans(cfg: Config, ops: seq<Op>, k: nat, ip: string, now: int) {
    k in Excesses(cfg, ops, ip) && now <= ops[k].now + cfg.banTtl && NotLifted(ops, k, ip)
  }

  /** A request over the limit leaves its expiry in the table. */
  lemma {:induction false} ExcessIsStored(cfg: Config, ops: seq<Op>, known: set<string>, op: Op, ip: string)
    requires Ordinary(cfg, ops, known) && (forall i | 0 <= i < |ops| :: ops[i].now <= op.now) && ip in known
    requires Exceeds(cfg, After(cfg, Fresh, ops), LogOf(cfg, ops), op, ip)
    ensures var s := After(cfg, Fresh, ops + [op]); WellKeyed(s, known) && Find(s.bans, ip) == Some(op.now + cfg.banTtl)
  {
    LastState(cfg, ops, op);
    NextRequestIsJudgedByRecount(cfg, ops, known, ip, op.now);
    ExcessSetsBan(cfg, ops, known, ip, op.now);
  }

  /** Each of those calls exceeded the limit in the state before it. */
  lemma {:induction false} ExcessAt(cfg: Config, ops: seq<Op>, ip: string, k: nat)
    requires k in Excesses(cfg, ops, ip)
    ensures Exceeds(cfg, After(cfg, Fresh, ops[..k]), LogOf(cfg, ops[..k]), ops[k], ip)
    decreases |ops|
  {
    var n: nat := |ops| - 1;
    if k in Excesses(cfg, ops[..n], ip) {
      assert ops[..n][..k] == ops[..k];
      ExcessAt(cfg, ops[..n], ip, k);
    }
  }

  lemma {:induction false} LastState(cfg: Config, init: seq<Op>, op: Op)
    ensures After(cfg, Fresh, init + [op]) == Apply(cfg, After(cfg, Fresh, init), op)
  {
    assert (init + [op])[..|init|] == init;
  }

  lemma {:induction false} OrdinaryPart(cfg: Config, ops: seq<Op>, known: set<string>, n: nat)
    requires Ordinary(cfg, ops, known) && n < |ops|
    ensures Ordinary(cfg, ops[..n], known) && ops[n].ip in known && ops[..n + 1] == ops[..n] + [ops[n]]
    ensures var init := ops[..n]; forall i | 0 <= i < |init| :: init[i].now <= ops[n].now
  {
    assert forall op | op in ops[..n] :: op in ops;
    assert ops[n] in ops;
  }

  /** The calls do not lift the ban and come before it expires. */
  ghost predicate Undisturbed(ops: seq<Op>, known: set<string>, ip: string, expiry: int) {
    forall op | op in ops :: op.ip in known && op.now <= expiry && op != Unban(ip, op.now)
  }

  /** The states of a run from any of its states on. */
  lemma {:induction false} AfterSplits(cfg: Config, s: State, a: seq<Op>, b: seq<Op>)
    ensures After(cfg, s, a + b) == After(cfg, After(cfg, s, a), b)
    decreases |b|
  {
    if b == [] {
      assert a + b == a;
    } else {
      var n := |b| - 1;
      AfterSplits(cfg, s, a, b[..n]);
      assert (a + b)[..|a + b| - 1] == a + b[..n];
    }
  }

  lemma {:induction false} BanStaysStored(
    cfg: Config, s: State, first: seq<Op>, later: seq<Op>, known: set<string>, ip: string, expiry: int)
    requires s == After(cfg, Fresh, first) && WellKeyed(s, known) && Find(s.bans, ip) == Some(expiry)
    requires |known| <= cfg.maxTrackedIps && Undisturbed(later, known, ip, expiry)
    ensures Find(After(cfg, Fresh, first + later).bans, ip) == Some(expiry)
  {
    AfterSplits(cfg, Fresh, first, later);
    BanHolds(cfg, s, later, known, ip, expiry, |later|);
    assert later[..|later|] == later;
  }

  lemma {:induction false} LaterIsUndisturbed(cfg: Config, ops: seq<Op>, known: set<string>, k: nat, ip: string, now: int)
    requires Ordinary(cfg, ops, known) && (forall i | 0 <= i < |ops| :: ops[i].now <= now) && StillBans(cfg, ops, k, ip, now)
    ensures Undisturbed(ops[k + 1..], known, ip, ops[k].now + cfg.banTtl)
  {
    var later := ops[k + 1..];
    forall op | op in later
      ensures op.now <= ops[k].now + cfg.banTtl && op != Unban(ip, op.now) && op.ip in known
    {
      var j :| 0 <= j < |later| && later[j] == op;
      assert ops[k + 1 + j] == op && op in ops;
    }
  }

  /** An excess that still bans is the one whose expiry is in the table. */
  lemma {:induction false} BanIsStored(cfg: Config, ops: seq<Op>, known: set<string>, k: nat, ip: string, now: int)
    requires Ordinary(cfg, ops, known) && (forall i | 0 <= i < |ops| :: ops[i].now <= now) && StillBans(cfg, ops, k, ip, now)
    ensures Find(After(cfg, Fresh, ops).bans, ip) == Some(ops[k].now + cfg.banTtl)
  {
    LaterIsUndisturbed(cfg, ops, known, k, ip, now);
    ExcessAt(cfg, ops, ip, k);
    OrdinaryPart(cfg, ops, known, k);
    BanIsStoredAfter(cfg, ops, known, k, ip);
  }

  lemma {:induction false} BanIsStoredAfter(cfg: Config, ops: seq<Op>, known: set<string>, k: nat, ip: string)
    requires k < |ops| && Ordinary(cfg, ops[..k], known) && ops[k].ip in known
    requires var init := ops[..k]; forall i | 0 <= i < |init| :: init[i].now <= ops[k].now
    requires Exceeds(cfg, After(cfg, Fresh, ops[..k]), LogOf(cfg, ops[..k]), ops[k], ip)
    requires Undisturbed(ops[k + 1..], known, ip, ops[k].now + cfg.banTtl)
    ensures Find(After(cfg, Fresh, ops).bans, ip) == Some(ops[k].now + cfg.banTtl)
  {
    var first, later := ops[..k] + [ops[k]], ops[k + 1..];
    ExcessIsStored(cfg, ops[..k], known, ops[k], ip);
    assert ops == first + later;
    BanStaysStored(cfg, After(cfg, Fresh, first), first, later, known, ip, ops[k].now + cfg.banTtl);
  }

  /** An expiry in the table was set by an excess, and the ban has not been lifted since. */
  ghost predicate HasCause(cfg: Config, ops: seq<Op>, ip: string, expiry: int) {
    exists k: nat :: k in Excesses(cfg, ops, ip) && expiry == ops[k].now + cfg.banTtl && NotLifted(ops, k, ip)
  }

  lemma {:induction false} CauseStays(cfg: Config, ops: seq<Op>, ip: string, expiry: int)
    requires ops != [] && HasCause(cfg, ops[..|ops| - 1], ip, expiry) && ops[|ops| - 1] != Unban(ip, ops[|ops| - 1].now)
    ensures HasCause(cfg, ops, ip, expiry)
  {
    var init := ops[..|ops| - 1];
    var k: nat :| k in Excesses(cfg, init, ip) && expiry == init[k].now + cfg.banTtl && NotLifted(init, k, ip);
    CauseAt(cfg, ops, ip, k, expiry);
  }

  lemma {:induction false} CauseAt(cfg: Config, ops: seq<Op>, ip: string, k: nat, expiry: int)
    requires ops != [] && k in Excesses(cfg, ops[..|ops| - 1], ip) && expiry == ops[..|ops| - 1][k].now + cfg.banTtl
    requires NotLifted(ops[..|ops| - 1], k, ip) && ops[|ops| - 1] != Unban(ip, ops[|ops| - 1].now)
    ensures HasCause(cfg, ops, ip, expiry)
  {
    ExcessesGrow(cfg, ops, ip);
    StillNotLifted(ops, k, ip);
  }

  lemma StillNotLifted(ops: seq<Op>, k: nat, ip: string)
    requires ops != [] && NotLifted(ops[..|ops| - 1], k, ip) && ops[|ops| - 1] != Unban(ip, ops[|ops| - 1].now)
    ensures NotLifted(ops, k, ip)
  {
    var init := ops[..|ops| - 1];
    assert forall j | 0 <= j < |init| :: ops[j] == init[j];
  }

  lemma {:induction false} ExcessesGrow(cfg: Config, ops: seq<Op>, ip: string)
    requires ops != []
    ensures Excesses(cfg, ops[..|ops| - 1], ip) <= Excesses(cfg, ops, ip)
  {
  }

  /** A step stores an expiry for the address only if its request exceeds the limit; otherwise it was there before. */
  lemma {:induction false} StepSetsBan(cfg: Config, s: State, known: set<string>, op: Op, ip: string)
    requires WellKeyed(s, known) && op.ip in known && |known| <= cfg.maxTrackedIps && Find(Apply(cfg, s, op).bans, ip).Some?
    ensures var expiry := Find(Apply(cfg, s, op).bans, ip);
            if op == Record(ip, op.now) && !Banned(Swept(s, op.now), ip, op.now) then
              expiry == Some(op.now + cfg.banTtl) && |Counted(Swept(s, op.now), ip, op.now)| > cfg.maxReqPerMin
            else Find(s.bans, ip) == expiry && op != Unban(ip, op.now)
  {
    var swept := Swept(s, op.now);
    SweepLosesOnlyStale(s.bans, ExpiredAt(op.now), ip);
    SweepLosesOnlyStale(s.requests, StaleAt(op.now - MINUTE), ip);
    match op
    case Record(other, now) =>
      if !Banned(swept, other, now) {
        AdmitIs(cfg, swept, other, now, known);
        DeleteRemoves(swept.bans, other, ip);
        PutSets(Delete(swept.bans, other), other, now + cfg.banTtl, ip);
      }
    case Check(other, now) =>
      DeleteRemoves(swept.bans, other, ip);
    case Count(_, _) =>
    case Unban(other, _) =>
      DeleteRemoves(s.bans, other, ip);
  }

  lemma {:induction false} BanHasCause(cfg: Config, ops: seq<Op>, known: set<string>, ip: string)
    requires Ordinary(cfg, ops, known) && ip in known && Find(After(cfg, Fresh, ops).bans, ip).Some?
    ensures HasCause(cfg, ops, ip, Find(After(cfg, Fresh, ops).bans, ip).value)
    decreases |ops|
  {
    if ops != [] {
      var n: nat := |ops| - 1;
      OrdinaryPart(cfg, ops, known, n);
      TrackerTracks(cfg, ops[..n], known, ops[n].now);
      var s := After(cfg, Fresh, ops[..n]);
      StepSetsBan(cfg, s, known, ops[n], ip);
      if ops[n] == Record(ip, ops[n].now) && !Banned(Swept(s, ops[n].now), ip, ops[n].now) {
        ExcessIsCounted(cfg, ops[..n], known, ops[n], ip);
        assert n in Excesses(cfg, ops, ip) && NotLifted(ops, n, ip);
      } else {
        BanHasCause(cfg, ops[..n], known, ip);
        CauseStays(cfg, ops, ip, Find(s.bans, ip).value);
      }
    }
  }

  lemma {:induction false} ExcessIsCounted(cfg: Config, ops: seq<Op>, known: set<string>, op: Op, ip: string)
    requires Ordinary(cfg, ops, known) && (forall i | 0 <= i < |ops| :: ops[i].now <= op.now) && ip in known
    requires op == Record(ip, op.now) && !Banned(Swept(After(cfg, Fresh, ops), op.now), ip, op.now)
    requires |Counted(Swept(After(cfg, Fresh, ops), op.now), ip, op.now)| > cfg.maxReqPerMin
    ensures Exceeds(cfg, After(cfg, Fresh, ops), LogOf(cfg, ops), op, ip)
  {
    NextRequestIsJudgedByRecount(cfg, ops, known, ip, op.now);
  }

  /**
   * After any ordinary run an address is banned at `now` if and only if one of its requests exceeded
   * the limit at most banTtl ago and the ban has not been lifted since.
   */
  lemma {:induction false} BannedIff(cfg: Config, ops: seq<Op>, known: set<string>, ip: string, now: int)
    requires Ordinary(cfg, ops, known) && (forall i | 0 <= i < |ops| :: ops[i].now <= now) && ip in known
    ensures Banned(Swept(After(cfg, Fresh, ops), now), ip, now) <==> exists k: nat :: StillBans(cfg, ops, k, ip, now)
    ensures Checked(After(cfg, Fresh, ops), ip, now).1 <==> exists k: nat :: StillBans(cfg, ops, k, ip, now)
  {
    var s := After(cfg, Fresh, ops);
    TrackerTracks(cfg, ops, known, now);
    SweepLosesOnlyStale(s.bans, ExpiredAt(now), ip);
    if k: nat :| StillBans(cfg, ops, k, ip, now) {
      BanIsStored(cfg, ops, known, k, ip, now);
    }
    if Banned(Swept(s, now), ip, now) {
      BanHasCause(cfg, ops, known, ip);
      var k: nat :| k in Excesses(cfg, ops, ip) && Find(s.bans, ip).value == ops[k].now + cfg.banTtl && NotLifted(ops, k, ip);
      assert StillBans(cfg, ops, k, ip, now);
    }
  }

  // ----- The limit -----

  /** Requests of one address that were allowed at times in (low, high]. */
  function AllowedIn(cfg: Config, ops: seq<Op>, ip: string, low: int, high: int): nat {
    if ops == [] then 0
    else
      var n := |ops| - 1;
      AllowedIn(cfg, ops[..n], ip, low, high) + if LastIsAllowed(cfg, ops, ip, low, high) then 1 else 0
  }

  predicate LastIsAllowed(cfg: Config, ops: seq<Op>, ip: string, low: int, high: int)
    requires ops != []
  {
    var n := |ops| - 1;
    && ops[n] == Record(ip, ops[n].now) && low < ops[n].now <= high
    && Recorded(cfg, After(cfg, Fresh, ops[..n]), ip, ops[n].now).1
  }

  lemma {:induction false} AllowedAreLogged(cfg: Config, ops: seq<Op>, ip: string, low: int, high: int, bound: int)
    requires bound <= low && forall op | op in ops :: op != Unban(ip, op.now)
    ensures AllowedIn(cfg, ops, ip, low, high) <= CountAfter(LogOf(cfg, ops), ip, bound)
  {
    if ops != [] {
      var n := |ops| - 1;
      AllowedAreLogged(cfg, ops[..n], ip, low, high, bound);
      assert ops[n] in ops;
      LoggedCounts(cfg, After(cfg, Fresh, ops[..n]), LogOf(cfg, ops[..n]), ops[n], ip, bound);
    }
  }

  lemma LoggedCounts(cfg: Config, s: State, log: Log, op: Op, ip: string, bound: int)
    requires op != Unban(ip, op.now)
    ensures CountAfter(Logged(cfg, s, log, op), ip, bound) >= CountAfter(log, ip, bound)
    ensures op == Record(ip, op.now) && Recorded(cfg, s, ip, op.now).1 && op.now > bound ==>
      CountAfter(Logged(cfg, s, log, op), ip, bound) == CountAfter(log, ip, bound) + 1
  {
    match op
    case Record(other, now) =>
      assert (log + [(other, now)])[..|log|] == log;
    case Unban(other, _) =>
      WithoutForgetsOne(log, other, ip);
      RecountIsLength(log, ip, bound);
      RecountIsLength(Without(log, other), ip, bound);
    case _ =>
  }

  /** Unless its bans are lifted, an address is allowed at most the limit in any minute. */
  lemma {:induction false} LimitIsRespected(cfg: Config, ops: seq<Op>, known: set<string>, ip: string, t: int)
    requires Ordinary(cfg, ops, known) && forall op | op in ops :: op != Unban(ip, op.now)
    ensures AllowedIn(cfg, ops, ip, t - MINUTE, t) <= if cfg.maxReqPerMin < 0 then 0 else cfg.maxReqPerMin
  {
    if ops != [] {
      var n := |ops| - 1;
      if LastIsAllowed(cfg, ops, ip, t - MINUTE, t) {
        LastAllowedIsWithinLimit(cfg, ops, known, ip, t);
      } else {
        LimitIsRespected(cfg, ops[..n], known, ip, t);
      }
    }
  }

  lemma {:induction false} LastAllowedIsWithinLimit(cfg: Config, ops: seq<Op>, known: set<string>, ip: string, t: int)
    requires ops != [] && Ordinary(cfg, ops, known) && forall op | op in ops :: op != Unban(ip, op.now)
    requires LastIsAllowed(cfg, ops, ip, t - MINUTE, t)
    ensures AllowedIn(cfg, ops, ip, t - MINUTE, t) <= cfg.maxReqPerMin
  {
    var n := |ops| - 1;
    var now := ops[n].now;
    assert ops[n] in ops;
    AllowedMeansWithin(cfg, ops[..n], known, ip, now);
    assert LogOf(cfg, ops) == LogOf(cfg, ops[..n]) + [(ip, now)];
    AllowedAreLogged(cfg, ops, ip, t - MINUTE, t, now - MINUTE);
  }

  lemma AllowedMeansWithin(cfg: Config, ops: seq<Op>, known: set<string>, ip: string, now: int)
    requires Ordinary(cfg, ops, known) && (forall i | 0 <= i < |ops| :: ops[i].now <= now) && ip in known
    requires Recorded(cfg, After(cfg, Fresh, ops), ip, now).1
    ensures !Banned(Swept(After(cfg, Fresh, ops), now), ip, now)
    ensures CountAfter(LogOf(cfg, ops) + [(ip, now)], ip, now - MINUTE) <= cfg.maxReqPerMin
  {
    NextRequestIsJudgedByRecount(cfg, ops, known, ip, now);
  }
}
