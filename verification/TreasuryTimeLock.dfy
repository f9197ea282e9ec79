/** The treasury outflow time lock, over whole runs and on any clock. */
module TreasuryTimeLock {
  import opened Wrappers
  import opened Sequences
  import opened Text

  const U64_SIZE := 0x1_0000_0000_0000_0000

  type U64 = n: int | 0 <= n < 0x1_0000_0000_0000_0000

  datatype Config = Config(minDelay: U64, maxDelay: U64, maxAmount: U64, grace: U64, maxPending: nat)

  datatype Request = Request(
    id: string, treasuryId: string, beneficiary: string, amount: U64, createdAt: U64, executeAfter: U64, justification: string)

  datatype Status = Pending | Ready | Executed | Cancelled | Expired

  datatype Scheduled = Scheduled(
    expiresAt: U64, request: Request, status: Status, executedAt: Option<U64>, cancelledAt: Option<U64>, reason: Option<string>)

  datatype Error =
    | AmountTooLarge
    | DelayOutOfBounds
    | DuplicateRequestId
    | TooManyPendingRequests(limit: nat)
    | UnknownRequest
    | RequestStillLocked(unlockAt: U64)
    | RequestAlreadyExecuted(executedAt: U64)
    | RequestAlreadyCancelled(cancelledAt: U64)
    | RequestExpired(expiredAt: U64)
    | InvalidCancellationReason
    | StateIntegrityViolation(id: string)

  type Requests = map<string, Scheduled>

  function SaturatingSub(a: U64, b: U64): U64 {
    if a < b then 0 else a - b
  }

  /** `+` on u64: it wraps around in release builds (and panics in debug builds). */
  function WrappingAdd(a: U64, b: U64): U64 {
    (a + b) % U64_SIZE
  }

  predicate Terminal(s: Status) {
    s.Executed? || s.Cancelled?
  }

  function ValidateRequest(cfg: Config, r: Request): Option<Error> {
    var delay := SaturatingSub(r.executeAfter, r.createdAt);
    if r.amount > cfg.maxAmount then Some(AmountTooLarge)
    else if delay < cfg.minDelay || delay > cfg.maxDelay then Some(DelayOutOfBounds)
    else None
  }

  /** Where a request that is neither executed nor cancelled stands at a time. */
  function Classify(s: Scheduled, now: U64): Status {
    if now > s.expiresAt then Expired else if now >= s.request.executeAfter then Ready else Pending
  }

  function AtTime(s: Scheduled, now: U64): Scheduled {
    if Terminal(s.status) then s else s.(status := Classify(s, now))
  }

  function Active(m: Requests): set<string> {
    set id | id in m && !Terminal(m[id].status)
  }

  // ----- The three operations as functions of the table -----

  function NewEntry(cfg: Config, r: Request): Scheduled {
    Scheduled(WrappingAdd(r.executeAfter, cfg.grace), r, Pending, None, None, None)
  }

  function ScheduleOutflow(cfg: Config, m: Requests, r: Request): (Requests, Result<Scheduled, Error>) {
    var invalid := ValidateRequest(cfg, r);
    if invalid.Some? then (m, Err(invalid.value))
    else if r.id in m then (m, Err(DuplicateRequestId))
    else if |Active(m)| >= cfg.maxPending then (m, Err(TooManyPendingRequests(cfg.maxPending)))
    else (m[r.id := NewEntry(cfg, r)], Ok(NewEntry(cfg, r)))
  }

  /** Even a refused release stores the status of the moment. */
  function ReleaseOutflow(m: Requests, id: string, now: U64): (Requests, Result<Scheduled, Error>) {
    if id !in m then (m, Err(UnknownRequest)) else
    var s := AtTime(m[id], now);
    match s.status
    case Pending => (m[id := s], Err(RequestStillLocked(s.request.executeAfter)))
    case Ready =>
      var done := s.(status := Executed, executedAt := Some(now));
      (m[id := done], Ok(done))
    case Executed => (m, Err(RequestAlreadyExecuted(if s.executedAt.Some? then s.executedAt.value else now)))
    case Cancelled => (m, Err(RequestAlreadyCancelled(if s.cancelledAt.Some? then s.cancelledAt.value else now)))
    case Expired => (m[id := s], Err(RequestExpired(s.expiresAt)))
  }

  function Utf8Length(s: string): nat {
    if s == [] then 0
    else
      var c := s[0] as int;
      (if c < 0x80 then 1 else if c < 0x800 then 2 else if c < 0x1_0000 then 3 else 4) + Utf8Length(s[1..])
  }

  /** One byte for each ASCII character, and at most four for any. */
  lemma {:induction false} Utf8Bounds(s: string)
    ensures |s| <= Utf8Length(s) <= 4 * |s|
    ensures Utf8Length(s) == |s| <==> forall i | 0 <= i < |s| :: s[i] as int < 0x80
  {
    if s != [] {
      Utf8Bounds(s[1..]);
      assert forall i | 1 <= i < |s| :: s[i] == s[1..][i - 1];
    }
  }

  function CancelOutflow(m: Requests, id: string, reason: string, now: U64): (Requests, Result<Scheduled, Error>) {
    var trimmed := Trim(reason, IsRustSpace);
    if Utf8Length(trimmed) < 5 then (m, Err(InvalidCancellationReason))
    else if id !in m then (m, Err(UnknownRequest))
    else
      var s := AtTime(m[id], now);
      match s.status
      case Executed => (m, Err(RequestAlreadyExecuted(if s.executedAt.Some? then s.executedAt.value else now)))
      case Cancelled => (m, Err(RequestAlreadyCancelled(if s.cancelledAt.Some? then s.cancelledAt.value else now)))
      case _ =>
        var done := s.(status := Cancelled, cancelledAt := Some(now), reason := Some(trimmed));
        (m[id := done], Ok(done))
  }

  class TimeLock {
    const cfg: Config
    var requests: Requests

    constructor (cfg: Config)
      ensures this.cfg == cfg && requests == map[]
    {
      this.cfg, this.requests := cfg, map[];
    }

    method ApplyTimeTransition(id: string, now: U64)
      requires id in requests
      modifies this
      ensures requests == old(requests)[id := AtTime(old(requests)[id], now)]
      ensures Terminal(old(requests)[id].status) ==> requests == old(requests)
    {
      var s := requests[id];
      if !Terminal(s.status) {
        var status := if now > s.expiresAt then Expired else if now >= s.request.executeAfter then Ready else Pending;
        requests := requests[id := s.(status := status)];
      }
    }

    method Schedule(r: Request) returns (result: Result<Scheduled, Error>)
      modifies this
      ensures (requests, result) == ScheduleOutflow(cfg, old(requests), r)
    {
      var invalid := ValidateRequest(cfg, r);
      if invalid.Some? {
        return Err(invalid.value);
      }
      if r.id in requests {
        return Err(DuplicateRequestId);
      }
      if |Active(requests)| >= cfg.maxPending {
        return Err(TooManyPendingRequests(cfg.maxPending));
      }
      var scheduled := NewEntry(cfg, r);
      requests := requests[r.id := scheduled];
      return Ok(scheduled);
    }

    method Release(id: string, now: U64) returns (result: Result<Scheduled, Error>)
      modifies this
      ensures (requests, result) == ReleaseOutflow(old(requests), id, now)
    {
      if id !in requests {
        return Err(UnknownRequest);
      }
      ApplyTimeTransition(id, now);
      var s := requests[id];
      match s.status {
        case Pending => return Err(RequestStillLocked(s.request.executeAfter));
        case Ready =>
          var done := s.(status := Executed, executedAt := Some(now));
          requests := requests[id := done];
          assert requests == old(requests)[id := done];
          return Ok(done);
        case Executed => return Err(RequestAlreadyExecuted(if s.executedAt.Some? then s.executedAt.value else now));
        case Cancelled => return Err(RequestAlreadyCancelled(if s.cancelledAt.Some? then s.cancelledAt.value else now));
        case Expired => return Err(RequestExpired(s.expiresAt));
      }
    }

    method Cancel(id: string, reason: string, now: U64) returns (result: Result<Scheduled, Error>)
      modifies this
      ensures (requests, result) == CancelOutflow(old(requests), id, reason, now)
    {
      if Utf8Length(Trim(reason, IsRustSpace)) < 5 {
        return Err(InvalidCancellationReason);
      }
      if id !in requests {
        return Err(UnknownRequest);
      }
      ApplyTimeTransition(id, now);
      var s := requests[id];
      match s.status {
        case Executed => return Err(RequestAlreadyExecuted(if s.executedAt.Some? then s.executedAt.value else now));
        case Cancelled => return Err(RequestAlreadyCancelled(if s.cancelledAt.Some? then s.cancelledAt.value else now));
        case _ =>
          var done := s.(status := Cancelled, cancelledAt := Some(now), reason := Some(Trim(reason, IsRustSpace)));
          requests := requests[id := done];
          assert requests == old(requests)[id := done];
          return Ok(done);
      }
    }
  }

  // ----- Whole runs; the times may come in any order -----

  datatype Op = Schedule(request: Request) | Release(id: string, now: U64) | Cancel(id: string, reason: string, now: U64)

  function Step(cfg: Config, m: Requests, op: Op): (Requests, Result<Scheduled, Error>) {
    match op
    case Schedule(r) => ScheduleOutflow(cfg, m, r)
    case Release(id, now) => ReleaseOutflow(m, id, now)
    case Cancel(id, reason, now) => CancelOutflow(m, id, reason, now)
  }

  function After(cfg: Config, ops: seq<Op>): Requests {
    if ops == [] then map[] else Step(cfg, After(cfg, ops[..|ops| - 1]), ops[|ops| - 1]).0
  }

  /** A record as every run leaves it. */
  ghost predicate Sound(cfg: Config, id: string, s: Scheduled) {
    && s.request.id == id && ValidateRequest(cfg, s.request).None?
    && s.expiresAt == WrappingAdd(s.request.executeAfter, cfg.grace)
    && match s.status {
         case Executed =>
           && s.executedAt.Some? && s.request.executeAfter <= s.executedAt.value <= s.expiresAt
           && s.cancelledAt.None? && s.reason.None?
         case Cancelled =>
           && s.executedAt.None? && s.cancelledAt.Some?
           && s.reason.Some? && Trim(s.reason.value, IsRustSpace) != ""
         case _ => s.executedAt.None? && s.cancelledAt.None? && s.reason.None?
       }
  }

  ghost predicate Invariant(cfg: Config, m: Requests) {
    && (forall id | id in m :: Sound(cfg, id, m[id]))
    && |Active(m)| <= cfg.maxPending
  }

  lemma NewEntryIsSound(cfg: Config, r: Request)
    requires ValidateRequest(cfg, r).None?
    ensures Sound(cfg, r.id, NewEntry(cfg, r))
  {
  }

  lemma TimeKeepsSound(cfg: Config, id: string, s: Scheduled, now: U64)
    requires Sound(cfg, id, s)
    ensures Sound(cfg, id, AtTime(s, now))
    ensures AtTime(s, now).status == Ready ==> Sound(cfg, id, AtTime(s, now).(status := Executed, executedAt := Some(now)))
  {
  }

  lemma CancelKeepsSound(cfg: Config, id: string, s: Scheduled, reason: string, now: U64)
    requires Sound(cfg, id, s) && !Terminal(s.status) && Utf8Length(Trim(reason, IsRustSpace)) >= 5
    ensures Sound(cfg, id, s.(status := Cancelled, cancelledAt := Some(now), reason := Some(Trim(reason, IsRustSpace))))
  {
    TrimIsIdempotent(reason, IsRustSpace);
  }

  /** The one record that an operation can touch. */
  function Subject(op: Op): string {
    if op.Schedule? then op.request.id else op.id
  }

  lemma StepTouchesOne(cfg: Config, m: Requests, op: Op)
    ensures var after := Step(cfg, m, op).0;
            after == m || (Subject(op) in after && after == m[Subject(op) := after[Subject(op)]])
  {
  }

  lemma StepKeepsSubjectSound(cfg: Config, m: Requests, op: Op)
    requires Subject(op) in m ==> Sound(cfg, Subject(op), m[Subject(op)])
    ensures Subject(op) in Step(cfg, m, op).0 ==> Sound(cfg, Subject(op), Step(cfg, m, op).0[Subject(op)])
  {
    match op
    case Schedule(r) =>
      if ValidateRequest(cfg, r).None? {
        NewEntryIsSound(cfg, r);
      }
    case Release(id, now) =>
      if id in m {
        TimeKeepsSound(cfg, id, m[id], now);
      }
    case Cancel(id, reason, now) =>
      if id in m && Utf8Length(Trim(reason, IsRustSpace)) >= 5 {
        TimeKeepsSound(cfg, id, m[id], now);
        if !Terminal(m[id].status) {
          CancelKeepsSound(cfg, id, AtTime(m[id], now), reason, now);
        }
      }
  }

  lemma StepKeepsSound(cfg: Config, m: Requests, op: Op)
    requires forall id | id in m :: Sound(cfg, id, m[id])
    ensures forall id | id in Step(cfg, m, op).0 :: Sound(cfg, id, Step(cfg, m, op).0[id])
  {
    StepTouchesOne(cfg, m, op);
    StepKeepsSubjectSound(cfg, m, op);
  }

  lemma ActiveAfterUpdate(m: Requests, id: string, s: Scheduled)
    ensures Active(m[id := s]) == if Terminal(s.status) then Active(m) - {id} else Active(m) + {id}
  {
  }

  /** Only scheduling adds an active request, and only below the limit; nothing revives a terminal one. */
  lemma StepKeepsLimit(cfg: Config, m: Requests, op: Op)
    requires |Active(m)| <= cfg.maxPending
    ensures |Active(Step(cfg, m, op).0)| <= cfg.maxPending
  {
    var after, id := Step(cfg, m, op).0, Subject(op);
    StepTouchesOne(cfg, m, op);
    if after != m {
      ActiveAfterUpdate(m, id, after[id]);
      if op.Schedule? {
        assert |Active(m)| < cfg.maxPending;
      } else {
        if id in Active(after) {
          SubjectStaysActive(cfg, m, op);
        }
        SubsetSize(Active(after), Active(m));
      }
    }
  }

  lemma SubjectStaysActive(cfg: Config, m: Requests, op: Op)
    requires !op.Schedule? && Subject(op) in Active(Step(cfg, m, op).0)
    ensures Subject(op) in Active(m)
  {
  }

  lemma {:induction false} RunIsSafe(cfg: Config, ops: seq<Op>)
    ensures Invariant(cfg, After(cfg, ops))
  {
    if ops == [] {
      assert Active(map[]) == {};
    } else {
      RunIsSafe(cfg, ops[..|ops| - 1]);
      StepKeepsSound(cfg, After(cfg, ops[..|ops| - 1]), ops[|ops| - 1]);
      StepKeepsLimit(cfg, After(cfg, ops[..|ops| - 1]), ops[|ops| - 1]);
    }
  }

  /** What an execution means for funds: inside its window, after its delay, and not also cancelled. */
  lemma ExecutionIsTimely(cfg: Config, ops: seq<Op>, id: string)
    requires id in After(cfg, ops) && After(cfg, ops)[id].executedAt.Some?
    ensures var s := After(cfg, ops)[id];
            && s.status == Executed && s.cancelledAt.None?
            && s.request.executeAfter <= s.executedAt.value <= s.expiresAt
            && s.request.amount <= cfg.maxAmount
            && (cfg.minDelay > 0 ==> s.executedAt.value >= s.request.createdAt + cfg.minDelay)
  {
    RunIsSafe(cfg, ops);
    assert Sound(cfg, id, After(cfg, ops)[id]);
  }

  lemma StepKeepsTerminal(cfg: Config, m: Requests, op: Op, id: string)
    requires id in m && Terminal(m[id].status)
    ensures id in Step(cfg, m, op).0 && Step(cfg, m, op).0[id] == m[id]
  {
  }

  /** Executed and cancelled records never change again. */
  lemma {:induction false} TerminalIsForever(cfg: Config, ops: seq<Op>, n: nat, id: string)
    requires n <= |ops| && id in After(cfg, ops[..n]) && Terminal(After(cfg, ops[..n])[id].status)
    ensures id in After(cfg, ops) && After(cfg, ops)[id] == After(cfg, ops[..n])[id]
    decreases |ops|
  {
    if n < |ops| {
      var init := ops[..|ops| - 1];
      assert init[..n] == ops[..n];
      TerminalIsForever(cfg, init, n, id);
      StepKeepsTerminal(cfg, After(cfg, init), ops[|ops| - 1], id);
    } else {
      assert ops[..n] == ops;
    }
  }

  /** How often a release of the request succeeded. */
  function Executions(cfg: Config, ops: seq<Op>, id: string): nat {
    if ops == [] then 0
    else
      var n := |ops| - 1;
      Executions(cfg, ops[..n], id)
      + if ops[n].Release? && ops[n].id == id && Step(cfg, After(cfg, ops[..n]), ops[n]).1.Ok? then 1 else 0
  }

  /** Each request is executed at most once, and its record shows whether it was. */
  lemma {:induction false} ExecutedAtMostOnce(cfg: Config, ops: seq<Op>, id: string)
    ensures Executions(cfg, ops, id) == if id in After(cfg, ops) && After(cfg, ops)[id].status == Executed then 1 else 0
  {
    if ops != [] {
      var n := |ops| - 1;
      ExecutedAtMostOnce(cfg, ops[..n], id);
      ExecutionIsRecorded(cfg, After(cfg, ops[..n]), ops[n], id);
    }
  }

  lemma ExecutionIsRecorded(cfg: Config, m: Requests, op: Op, id: string)
    ensures var after := Step(cfg, m, op).0;
            var now := id in after && after[id].status == Executed;
            var before := id in m && m[id].status == Executed;
            && (op.Release? && op.id == id && Step(cfg, m, op).1.Ok? ==> now && !before)
            && (!(op.Release? && op.id == id && Step(cfg, m, op).1.Ok?) ==> now == before)
  {
  }

  /**
   * On every reachable table, a call succeeds exactly when the request itself, the other requests
   * and the time allow it: what earlier calls stored about the time does not matter.
   */
  lemma OutcomeIff(cfg: Config, ops: seq<Op>, op: Op)
    ensures var m := After(cfg, ops);
            Step(cfg, m, op).1.Ok? <==>
              match op
              case Schedule(r) =>
                && r.id !in m && r.amount <= cfg.maxAmount && |Active(m)| < cfg.maxPending
                && r.executeAfter - r.createdAt <= cfg.maxDelay
                && (r.createdAt + cfg.minDelay <= r.executeAfter || cfg.minDelay == 0)
              case Release(id, now) =>
                id in Active(m) && m[id].request.executeAfter <= now <= WrappingAdd(m[id].request.executeAfter, cfg.grace)
              case Cancel(id, reason, now) => id in Active(m) && Utf8Length(Trim(reason, IsRustSpace)) >= 5
  {
    RunIsSafe(cfg, ops);
    var m := After(cfg, ops);
    assert !op.Schedule? && op.id in m ==> Sound(cfg, op.id, m[op.id]);
  }

  // ----- What a record tells about the calls -----

  /** Call `n` of the run released the request, or cancelled it. */
  ghost predicate SucceededAt(cfg: Config, ops: seq<Op>, n: nat, op: Op) {
    n < |ops| && ops[n] == op && Step(cfg, After(cfg, ops[..n]), op).1.Ok?
  }

  /** A release or cancellation that succeeds is recorded for good, with its time and its trimmed reason. */
  lemma {:induction false} SuccessIsRecorded(cfg: Config, ops: seq<Op>, n: nat, op: Op)
    requires SucceededAt(cfg, ops, n, op) && !op.Schedule?
    ensures op.id in After(cfg, ops)
    ensures var s := After(cfg, ops)[op.id];
            if op.Release? then s.status == Executed && s.executedAt == Some(op.now)
            else s.status == Cancelled && s.cancelledAt == Some(op.now) && s.reason == Some(Trim(op.reason, IsRustSpace))
  {
    assert ops[..n + 1][..n] == ops[..n];
    TerminalIsForever(cfg, ops, n + 1, op.id);
  }

  /** A call of the run released the request at that time, or cancelled it then for that reason. */
  ghost predicate WasReleased(cfg: Config, ops: seq<Op>, id: string, now: U64) {
    exists n: nat :: SucceededAt(cfg, ops, n, Release(id, now))
  }

  ghost predicate WasCancelled(cfg: Config, ops: seq<Op>, id: string, now: U64, reason: string) {
    exists n: nat, given :: SucceededAt(cfg, ops, n, Cancel(id, given, now)) && Trim(given, IsRustSpace) == reason
  }

  /** Every execution and every cancellation in a record is that of a call that succeeded. */
  ghost predicate Caused(cfg: Config, ops: seq<Op>, id: string, s: Scheduled) {
    && (s.executedAt.Some? ==> WasReleased(cfg, ops, id, s.executedAt.value))
    && (s.cancelledAt.Some? ==> s.reason.Some? && WasCancelled(cfg, ops, id, s.cancelledAt.value, s.reason.value))
  }

  lemma {:induction false} RecordIsCaused(cfg: Config, ops: seq<Op>, id: string)
    requires id in After(cfg, ops)
    ensures Caused(cfg, ops, id, After(cfg, ops)[id])
  {
    if ops != [] {
      var n: nat := |ops| - 1;
      var m, s := After(cfg, ops[..n]), After(cfg, ops)[id];
      if id in m && s.executedAt == m[id].executedAt && s.cancelledAt == m[id].cancelledAt && s.reason == m[id].reason {
        RecordIsCaused(cfg, ops[..n], id);
        CausedStays(cfg, ops, id, m[id]);
      } else {
        RunIsSafe(cfg, ops[..n]);
        StepSetsTimes(cfg, m, ops[n], id);
        assert s.executedAt.Some? ==> SucceededAt(cfg, ops, n, Release(id, s.executedAt.value));
        assert s.cancelledAt.Some? ==> SucceededAt(cfg, ops, n, Cancel(id, ops[n].reason, s.cancelledAt.value));
      }
    }
  }

  lemma {:induction false} CausedStays(cfg: Config, ops: seq<Op>, id: string, s: Scheduled)
    requires ops != [] && Caused(cfg, ops[..|ops| - 1], id, s)
    ensures Caused(cfg, ops, id, s)
  {
    var init := ops[..|ops| - 1];
    forall n: nat, op | SucceededAt(cfg, init, n, op)
      ensures SucceededAt(cfg, ops, n, op)
    {
      assert init[..n] == ops[..n];
    }
    if s.executedAt.Some? {
      var n: nat :| SucceededAt(cfg, init, n, Release(id, s.executedAt.value));
      assert SucceededAt(cfg, ops, n, Release(id, s.executedAt.value));
    }
    if s.cancelledAt.Some? {
      var n: nat, given :| SucceededAt(cfg, init, n, Cancel(id, given, s.cancelledAt.value)) && Trim(given, IsRustSpace) == s.reason.value;
      assert SucceededAt(cfg, ops, n, Cancel(id, given, s.cancelledAt.value));
    }
  }

  /** If a step changes the times or the reason of a record, it is the release or cancellation of that record. */
  lemma {:induction false} StepSetsTimes(cfg: Config, m: Requests, op: Op, id: string)
    requires (forall x | x in m :: Sound(cfg, x, m[x])) && id in Step(cfg, m, op).0
    requires var s := Step(cfg, m, op).0[id];
             !(id in m && s.executedAt == m[id].executedAt && s.cancelledAt == m[id].cancelledAt && s.reason == m[id].reason)
    ensures var s := Step(cfg, m, op).0[id];
            && (s.executedAt.Some? ==> op == Release(id, s.executedAt.value) && Step(cfg, m, op).1.Ok?)
            && (s.cancelledAt.Some? ==>
                  op.Cancel? && op == Cancel(id, op.reason, s.cancelledAt.value) && Step(cfg, m, op).1.Ok?
                  && s.reason == Some(Trim(op.reason, IsRustSpace)))
  {
    assert id in m ==> Sound(cfg, id, m[id]);
  }

  /** A request that is scheduled stays in the table as it was given. */
  lemma {:induction false} ScheduledIsKept(cfg: Config, ops: seq<Op>, n: nat, r: Request)
    requires SucceededAt(cfg, ops, n, Schedule(r))
    ensures r.id in After(cfg, ops) && After(cfg, ops)[r.id].request == r
    ensures After(cfg, ops)[r.id].expiresAt == WrappingAdd(r.executeAfter, cfg.grace)
    decreases |ops|
  {
    var init := ops[..|ops| - 1];
    if n < |init| {
      assert init[..n] == ops[..n];
      ScheduledIsKept(cfg, init, n, r);
      StepKeepsRequest(cfg, After(cfg, init), ops[|ops| - 1], r.id);
    }
  }

  lemma StepKeepsRequest(cfg: Config, m: Requests, op: Op, id: string)
    requires id in m
    ensures id in Step(cfg, m, op).0
    ensures Step(cfg, m, op).0[id].request == m[id].request && Step(cfg, m, op).0[id].expiresAt == m[id].expiresAt
  {
  }

  lemma {:induction false} ReleaseRefreshes(m: Requests, id: string, now: U64)
    requires id in m
    ensures id in ReleaseOutflow(m, id, now).0 && UpToDate(ReleaseOutflow(m, id, now).0[id], now)
  {
    var s := AtTime(m[id], now);
    assert UpToDate(s, now);
  }

  lemma {:induction false} CancelRefreshes(m: Requests, id: string, reason: string, now: U64)
    requires id in m && Utf8Length(Trim(reason, IsRustSpace)) >= 5
    ensures id in CancelOutflow(m, id, reason, now).0 && Terminal(CancelOutflow(m, id, reason, now).0[id].status)
  {
    var s := AtTime(m[id], now);
    assert Terminal(s.status) ==> s == m[id];
  }

  /** Whatever it answers, a release, or a cancellation for a proper reason, leaves its record as of the moment. */
  lemma {:induction false} StepRefreshes(cfg: Config, m: Requests, op: Op)
    requires !op.Schedule? && op.id in m && (op.Cancel? ==> Utf8Length(Trim(op.reason, IsRustSpace)) >= 5)
    ensures op.id in Step(cfg, m, op).0 && UpToDate(Step(cfg, m, op).0[op.id], op.now)
  {
    if op.Release? {
      ReleaseRefreshes(m, op.id, op.now);
    } else {
      CancelRefreshes(m, op.id, op.reason, op.now);
    }
  }

  /** A scheduling is refused for the first of four reasons that applies, and then changes nothing. */
  lemma {:induction false} ScheduleRefusalMeaning(cfg: Config, m: Requests, r: Request)
    requires ScheduleOutflow(cfg, m, r).1.Err?
    ensures var large := r.amount > cfg.maxAmount;
            var delay := if r.createdAt <= r.executeAfter then r.executeAfter - r.createdAt else 0;
            var bounded := cfg.minDelay <= delay <= cfg.maxDelay;
            var (after, result) := ScheduleOutflow(cfg, m, r);
            && after == m
            && (result == Err(AmountTooLarge) <==> large)
            && (result == Err(DelayOutOfBounds) <==> !large && !bounded)
            && (result == Err(DuplicateRequestId) <==> !large && bounded && r.id in m)
            && (result == Err(TooManyPendingRequests(cfg.maxPending)) <==> !large && bounded && r.id !in m)
            && (!large && bounded && r.id !in m ==> |Active(m)| >= cfg.maxPending)
  {
  }

  /** On every reachable table, a refused release or cancellation says why. */
  lemma {:induction false} RefusalMeaning(cfg: Config, ops: seq<Op>, op: Op)
    requires !op.Schedule? && Step(cfg, After(cfg, ops), op).1.Err?
    ensures var m, e := After(cfg, ops), Step(cfg, After(cfg, ops), op).1.error;
            match e
            case InvalidCancellationReason => op.Cancel? && Utf8Length(Trim(op.reason, IsRustSpace)) < 5
            case UnknownRequest => op.id !in m
            case RequestAlreadyExecuted(at) => op.id in m && m[op.id].executedAt == Some(at)
            case RequestAlreadyCancelled(at) => op.id in m && m[op.id].cancelledAt == Some(at)
            case RequestStillLocked(at) =>
              op.Release? && op.id in Active(m) && at == m[op.id].request.executeAfter && op.now < at && op.now <= m[op.id].expiresAt
            case RequestExpired(at) => op.Release? && op.id in Active(m) && at == m[op.id].expiresAt && at < op.now
            case _ => false
  {
    RunIsSafe(cfg, ops);
    assert op.id in After(cfg, ops) ==> Sound(cfg, op.id, After(cfg, ops)[op.id]);
  }

  // ----- What overflow of the expiry does -----

  /** A scheduled request can be executed at some time exactly when its expiry does not overflow. */
  lemma ExecutableIff(cfg: Config, m: Requests, id: string)
    requires id in m && Sound(cfg, id, m[id]) && !Terminal(m[id].status)
    ensures (exists now :: ReleaseOutflow(m, id, now).1.Ok?) <==> m[id].request.executeAfter + cfg.grace < U64_SIZE
  {
    var s := m[id];
    var at := s.request.executeAfter;
    if at + cfg.grace < U64_SIZE {
      assert Classify(s, at) == Ready;
      assert ReleaseOutflow(m, id, at).1.Ok?;
    } else {
      assert s.expiresAt == at + cfg.grace - U64_SIZE < at;
    }
  }

  const U64_MAX: U64 := 0xFFFF_FFFF_FFFF_FFFF

  /** A run that reaches the failing side: unlocked at the last second of u64, with a grace of one second. */
  lemma OverflowIsReached(cfg: Config, r: Request)
    requires cfg == Config(0, U64_MAX, U64_MAX, 1, 1)
    requires r == Request("r", "t", "b", 1, U64_MAX, U64_MAX, "j")
    ensures var m := After(cfg, [Schedule(r)]);
            && r.id in m && m[r.id].status == Pending && m[r.id].expiresAt == 0
            && (forall now :: !ReleaseOutflow(m, r.id, now).1.Ok?)
            && CheckRecord(cfg, r.id, m[r.id], 1).None? && !UpToDate(m[r.id], 1)
  {
    var ops := [Schedule(r)];
    var none: Requests := map[];
    assert ops[..0] == [] && Active(none) == {};
    assert ScheduleOutflow(cfg, none, r).0 == none[r.id := NewEntry(cfg, r)];
    assert After(cfg, ops) == Step(cfg, none, ops[0]).0;
    var m := After(cfg, ops);
    RunIsSafe(cfg, ops);
    ExecutableIff(cfg, m, r.id);
  }

  // ----- The integrity sweep -----

  /** The checks on one record, in their order. */
  function CheckRecord(cfg: Config, id: string, s: Scheduled, now: U64): Option<Error> {
    var violation := Some(StateIntegrityViolation(id));
    var invalid := ValidateRequest(cfg, s.request);
    if invalid.Some? then invalid
    else if s.expiresAt != WrappingAdd(s.request.executeAfter, cfg.grace) then violation
    else
      match s.status
      case Pending =>
        if s.executedAt.Some? || s.cancelledAt.Some? || now >= s.request.executeAfter then violation else None
      case Ready =>
        if s.executedAt.Some? || s.cancelledAt.Some? || now < s.request.executeAfter || now > s.expiresAt then violation else None
      case Executed =>
        if s.executedAt.None? || s.executedAt.value < s.request.executeAfter || s.cancelledAt.Some? || s.reason.Some? then violation else None
      case Cancelled =>
        if s.executedAt.Some? || s.cancelledAt.None? || s.reason.None? || Trim(s.reason.value, IsRustSpace) == "" then violation else None
      case Expired =>
        if s.executedAt.Some? || s.cancelledAt.Some? || now <= s.expiresAt then violation else None
  }

  datatype Report = Report(checked: nat, ready: nat, expired: nat)

  function WithStatus(m: Requests, ids: set<string>, status: Status): set<string> {
    set id | id in ids && id in m && m[id].status == status
  }

  /** The first record in `order` that fails its check. */
  ghost predicate FirstFailure(cfg: Config, m: Requests, order: seq<string>, now: U64, e: Error) {
    exists k :: 0 <= k < |order| && order[k] in m && CheckRecord(cfg, order[k], m[order[k]], now) == Some(e)
      && forall j | 0 <= j < k :: order[j] in m && CheckRecord(cfg, order[j], m[order[j]], now).None?
  }

  /**
   * `order` is the order of the table's keys. Every check passes, or the error is that of the first
   * record that fails one; the counts are those of the statuses.
   */
  method VerifyStateIntegrity(cfg: Config, requests: Requests, order: seq<string>, now: U64) returns (result: Result<Report, Error>)
    requires Distinct(order) && Elements(order) == requests.Keys
    ensures result.Ok? <==> forall id | id in requests :: CheckRecord(cfg, id, requests[id], now).None?
    ensures result.Err? ==> FirstFailure(cfg, requests, order, now, result.error)
    ensures result.Ok? ==> result.value == Report(
      |requests|, |WithStatus(requests, requests.Keys, Ready)|, |WithStatus(requests, requests.Keys, Expired)|)
  {
    var ready, expired := 0, 0;
    ghost var done := {};
    for i := 0 to |order|
      invariant done == Elements(order[..i])
      invariant forall j | 0 <= j < i :: order[j] in requests && CheckRecord(cfg, order[j], requests[order[j]], now).None?
      invariant ready == |WithStatus(requests, done, Ready)| && expired == |WithStatus(requests, done, Expired)|
    {
      var id := order[i];
      PrefixGrows(order, i);
      assert id in Elements(order);
      CountOneMore(requests, done, id, Ready);
      CountOneMore(requests, done, id, Expired);
      if requests[id].status == Ready {
        ready := ready + 1;
      } else if requests[id].status == Expired {
        expired := expired + 1;
      }
      var error := CheckRecord(cfg, id, requests[id], now);
      if error.Some? {
        return Err(error.value);
      }
      done := done + {id};
    }
    assert order[..|order|] == order;
    return Ok(Report(|requests|, ready, expired));
  }

  lemma CountOneMore(m: Requests, done: set<string>, id: string, status: Status)
    requires id in m && id !in done
    ensures |WithStatus(m, done + {id}, status)| == |WithStatus(m, done, status)| + if m[id].status == status then 1 else 0
  {
    var before := WithStatus(m, done, status);
    assert WithStatus(m, done + {id}, status) == if m[id].status == status then before + {id} else before;
  }

  ghost predicate UpToDate(s: Scheduled, now: U64) {
    Terminal(s.status) || s.status == Classify(s, now)
  }

  ghost predicate NoOverflow(cfg: Config, s: Scheduled) {
    s.request.executeAfter + cfg.grace < U64_SIZE
  }

  /** Overflow put the expiry before the unlock time, and `now` lies between: expired, but stored as pending. */
  ghost predicate HiddenExpiry(s: Scheduled, now: U64) {
    s.status == Pending && s.expiresAt < now < s.request.executeAfter
  }

  /** A record passes exactly when its status is the one of the moment, or a hidden expiry. */
  lemma CheckMeaning(cfg: Config, id: string, s: Scheduled, now: U64)
    requires Sound(cfg, id, s)
    ensures CheckRecord(cfg, id, s, now).None? <==> UpToDate(s, now) || HiddenExpiry(s, now)
    ensures NoOverflow(cfg, s) ==> !HiddenExpiry(s, now)
  {
  }

  /**
   * On every reachable table the sweep passes exactly when every record is up to date, but for
   * hidden expiries; and there are none of those unless an expiry overflows.
   */
  lemma SweepMeaning(cfg: Config, ops: seq<Op>, now: U64)
    ensures var m := After(cfg, ops);
            (forall id | id in m :: CheckRecord(cfg, id, m[id], now).None?)
              <==> forall id | id in m :: UpToDate(m[id], now) || HiddenExpiry(m[id], now)
    ensures forall id | id in After(cfg, ops) && NoOverflow(cfg, After(cfg, ops)[id]) :: !HiddenExpiry(After(cfg, ops)[id], now)
  {
    var m := After(cfg, ops);
    RunIsSafe(cfg, ops);
    forall id | id in m
      ensures CheckRecord(cfg, id, m[id], now).None? <==> UpToDate(m[id], now) || HiddenExpiry(m[id], now)
      ensures NoOverflow(cfg, m[id]) ==> !HiddenExpiry(m[id], now)
    {
      assert Sound(cfg, id, m[id]);
      CheckMeaning(cfg, id, m[id], now);
    }
  }

  /** Without overflow: passing means that every stored status is the one of the moment, and conversely. */
  lemma SweepIsExact(cfg: Config, ops: seq<Op>, now: U64)
    requires forall id | id in After(cfg, ops) :: NoOverflow(cfg, After(cfg, ops)[id])
    ensures var m := After(cfg, ops);
            (forall id | id in m :: CheckRecord(cfg, id, m[id], now).None?) <==> forall id | id in m :: UpToDate(m[id], now)
  {
    SweepMeaning(cfg, ops, now);
  }

  /**
   * With overflow the check of a pending request is wrong at some time: already expired, it still
   * passes. The one exception is the largest grace, which moves the expiry back by one second only.
   */
  lemma PendingCheckIsExactIff(cfg: Config, id: string, s: Scheduled)
    requires Sound(cfg, id, s) && s.status == Pending
    ensures (forall now :: CheckRecord(cfg, id, s, now).None? <==> UpToDate(s, now))
      <==> NoOverflow(cfg, s) || cfg.grace == U64_SIZE - 1
  {
    if NoOverflow(cfg, s) {
      forall now: U64
        ensures CheckRecord(cfg, id, s, now).None? <==> UpToDate(s, now)
      {
        CheckMeaning(cfg, id, s, now);
      }
    } else {
      assert s.expiresAt == s.request.executeAfter + cfg.grace - U64_SIZE;
      var hidden: U64 := s.expiresAt + 1;
      assert CheckRecord(cfg, id, s, hidden).None? <==> hidden < s.request.executeAfter;
      assert !UpToDate(s, hidden);
    }
  }
}
