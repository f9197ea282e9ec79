/** The scanner protocol state machine with its bounded, hash-chained history. */
module ProtocolMachine {
  import opened Wrappers
  import opened SnapshotHash

  datatype ProtocolState = IDLE | SCANNING | REPORTING | DONE | FAILED

  datatype Event =
    | ScanStarted(scanId: string, target: string, timestamp: int)
    | ScanCompleted(scanId: string, findingCount: int, timestamp: int)
    | ScanFailed(scanId: string, reason: string, timestamp: int)
    | ReportStarted(scanId: string, timestamp: int)
    | ReportDelivered(scanId: string, reportHash: string, timestamp: int)
    | ReportFailed(scanId: string, reason: string, timestamp: int)
    | Reset(requestedBy: string, timestamp: int)

  datatype Error = Shutdown | TimestampViolation | ScanIdMismatch | InvalidTransition

  datatype Record = Record(number: nat, from: ProtocolState, to: ProtocolState, event: Event, timestamp: int, hash: Units)

  /** Writes a transition as text: previous hash, from, to, event and number. */
  type Rendering = (Units, ProtocolState, ProtocolState, Event, nat) -> Units

  /** `maxHistoryDepth` is not checked by the source. */
  datatype Config = Config(maxHistoryDepth: int, maxClockSkewMs: int, render: Rendering)

  datatype Machine = Machine(
    state: ProtocolState, activeScanId: Option<string>, lastTimestamp: Option<int>,
    count: nat, hash: Units, history: seq<Record>, stopped: bool)

  // ----- The transition table -----

  function Transition(from: ProtocolState, e: Event): Option<ProtocolState> {
    match (from, e)
    case (IDLE, ScanStarted(_, _, _)) => Some(SCANNING)
    case (SCANNING, ScanCompleted(_, _, _)) => Some(REPORTING)
    case (SCANNING, ScanFailed(_, _, _)) => Some(FAILED)
    case (REPORTING, ReportStarted(_, _)) => Some(REPORTING)
    case (REPORTING, ReportDelivered(_, _, _)) => Some(DONE)
    case (REPORTING, ReportFailed(_, _, _)) => Some(FAILED)
    case (_, _) => None
  }

  // ----- The hash chain -----

  function Ascii(s: string): Units {
    seq(|s|, i requires 0 <= i < |s| => if s[i] as int < 0x1_0000 then s[i] as int else 0xFFFD)
  }

  function Decimal(n: nat): Units {
    if n < 10 then [48 + n] else Decimal(n / 10) + [48 + n % 10]
  }

  function StateName(s: ProtocolState): Units {
    match s
    case IDLE => Ascii("IDLE")
    case SCANNING => Ascii("SCANNING")
    case REPORTING => Ascii("REPORTING")
    case DONE => Ascii("DONE")
    case FAILED => Ascii("FAILED")
  }

  function EventName(e: Event): Units {
    match e
    case ScanStarted(_, _, _) => Ascii("SCAN_STARTED")
    case ScanCompleted(_, _, _) => Ascii("SCAN_COMPLETED")
    case ScanFailed(_, _, _) => Ascii("SCAN_FAILED")
    case ReportStarted(_, _) => Ascii("REPORT_STARTED")
    case ReportDelivered(_, _, _) => Ascii("REPORT_DELIVERED")
    case ReportFailed(_, _, _) => Ascii("REPORT_FAILED")
    case Reset(_, _) => Ascii("RESET")
  }

  const COLON: Units := [58]

  function Heading(from: ProtocolState, to: ProtocolState, e: Event, number: nat): Units {
    COLON + StateName(from) + COLON + StateName(to) + COLON + EventName(e) + COLON + Decimal(number) + COLON
  }

  /** What is hashed for a transition: the previous hash and everything about the transition. */
  function HashInput(json: Event -> Units, previous: Units, from: ProtocolState, to: ProtocolState, e: Event, number: nat): Units {
    previous + (Heading(from, to, e, number) + json(e))
  }

  /** The settings of the source, given how it writes an event as JSON. */
  function Settings(maxHistoryDepth: int, maxClockSkewMs: int, json: Event -> Units): Config {
    Config(maxHistoryDepth, maxClockSkewMs, (previous, from, to, e, number) => HashInput(json, previous, from, to, e, number))
  }

  function FirstHash(): Units {
    Digest(Ascii("IDLE:0"))
  }

  // ----- Applying an event -----

  function Fresh(): Machine {
    Machine(IDLE, None, None, 0, FirstHash(), [], false)
  }

  /** The checks in their order: the target state, or the error that is thrown. */
  function Decide(cfg: Config, m: Machine, e: Event, now: int): Result<ProtocolState, Error> {
    var skew := if e.timestamp < now then now - e.timestamp else e.timestamp - now;
    if m.stopped then Err(Shutdown)
    else if cfg.maxClockSkewMs > 0 && skew > cfg.maxClockSkewMs then Err(TimestampViolation)
    else if e.Reset? then Ok(IDLE)
    else if !e.ScanStarted? && m.activeScanId.Some? && e.scanId != m.activeScanId.value then Err(ScanIdMismatch)
    else match Transition(m.state, e)
         case None => Err(InvalidTransition)
         case Some(to) => Ok(to)
  }

  function NewRecord(cfg: Config, m: Machine, to: ProtocolState, e: Event): Record {
    Record(m.count + 1, m.state, to, e, e.timestamp, Digest(cfg.render(m.hash, m.state, to, e, m.count + 1)))
  }

  /** Push, then drop the oldest if there are now too many. */
  function Retained(history: seq<Record>, r: Record, depth: int): seq<Record> {
    if |history| + 1 > depth then (history + [r])[1..] else history + [r]
  }

  function Committed(cfg: Config, m: Machine, to: ProtocolState, e: Event): Machine {
    var r := NewRecord(cfg, m, to, e);
    Machine(to, if e.ScanStarted? then Some(e.scanId) else if to == IDLE then None else m.activeScanId,
            Some(e.timestamp), m.count + 1, r.hash, Retained(m.history, r, cfg.maxHistoryDepth), m.stopped)
  }

  function Applied(cfg: Config, m: Machine, e: Event, now: int): (Machine, Result<Record, Error>) {
    match Decide(cfg, m, e, now)
    case Err(error) => (m, Err(error))
    case Ok(to) => (Committed(cfg, m, to, e), Ok(NewRecord(cfg, m, to, e)))
  }

  class ProtocolStateMachine {
    const cfg: Config
    var state: ProtocolState
    var activeScanId: Option<string>
    var lastTimestamp: Option<int>
    var transitionCount: nat
    var snapshotHash: Units
    var history: seq<Record>
    var stopped: bool

    constructor (cfg: Config)
      ensures this.cfg == cfg && Current() == Fresh()
    {
      this.cfg := cfg;
      state, activeScanId, lastTimestamp, transitionCount := IDLE, None, None, 0;
      snapshotHash, history, stopped := FirstHash(), [], false;
    }

    ghost function Current(): Machine
      reads this
    {
      Machine(state, activeScanId, lastTimestamp, transitionCount, snapshotHash, history, stopped)
    }

    method Commit(to: ProtocolState, e: Event) returns (record: Record)
      modifies this
      ensures Current() == Committed(cfg, old(Current()), to, e)
      ensures record == NewRecord(cfg, old(Current()), to, e)
    {
      record := MakeRecord(to, e);
      SetSession(to, e);
      Remember(record);
      state, transitionCount, snapshotHash, lastTimestamp := to, record.number, record.hash, Some(e.timestamp);
    }

    method MakeRecord(to: ProtocolState, e: Event) returns (record: Record)
      ensures record == NewRecord(cfg, Current(), to, e)
    {
      var number := transitionCount + 1;
      var hash := ComputeSnapshotHash(cfg.render(snapshotHash, state, to, e, number));
      record := Record(number, state, to, e, e.timestamp, hash);
    }

    method SetSession(to: ProtocolState, e: Event)
      modifies this`activeScanId
      ensures activeScanId == if e.ScanStarted? then Some(e.scanId) else if to == IDLE then None else old(activeScanId)
    {
      if e.ScanStarted? {
        activeScanId := Some(e.scanId);
      } else if to == IDLE {
        activeScanId := None;
      }
    }

    method Remember(record: Record)
      modifies this`history
      ensures history == Retained(old(history), record, cfg.maxHistoryDepth)
    {
      history := history + [record];
      if |history| > cfg.maxHistoryDepth {
        history := history[1..];
      }
    }

    /** The error that the source throws is returned; `tryApply` turns it back into a value likewise. */
    method Apply(e: Event, now: int) returns (r: Result<Record, Error>)
      modifies this
      ensures (Current(), r) == Applied(cfg, old(Current()), e, now)
    {
      if stopped {
        return Err(Shutdown);
      }
      var skew := if e.timestamp < now then now - e.timestamp else e.timestamp - now;
      if cfg.maxClockSkewMs > 0 && skew > cfg.maxClockSkewMs {
        return Err(TimestampViolation);
      }
      if e.Reset? {
        var record := Commit(IDLE, e);
        activeScanId := None;
        return Ok(record);
      }
      if !e.ScanStarted? && activeScanId.Some? && e.scanId != activeScanId.value {
        return Err(ScanIdMismatch);
      }
      var to := Transition(state, e);
      if to.None? {
        return Err(InvalidTransition);
      }
      var record := Commit(to.value, e);
      return Ok(record);
    }

    method ShutDown()
      modifies this
      ensures Current() == old(Current()).(stopped := true)
    {
      stopped := true;
    }
  }

  // ----- Whole runs -----

  datatype Op = Apply(event: Event, now: int) | Stop

  function Step(cfg: Config, m: Machine, op: Op): Machine {
    match op
    case Apply(e, now) => Applied(cfg, m, e, now).0
    case Stop => m.(stopped := true)
  }

  function After(cfg: Config, ops: seq<Op>): Machine {
    if ops == [] then Fresh() else Step(cfg, After(cfg, ops[..|ops| - 1]), ops[|ops| - 1])
  }

  function Extended(cfg: Config, m: Machine, log: seq<Record>, op: Op): seq<Record> {
    match op
    case Stop => log
    case Apply(e, now) =>
      var r := Applied(cfg, m, e, now).1;
      if r.Ok? then log + [r.value] else log
  }

  /** Every record ever committed, whether or not it is still retained. */
  function FullLog(cfg: Config, ops: seq<Op>): seq<Record> {
    if ops == [] then []
    else var n := |ops| - 1; Extended(cfg, After(cfg, ops[..n]), FullLog(cfg, ops[..n]), ops[n])
  }

  // ----- What a log must look like -----

  /** The scan in progress after a log: started and not reset since. */
  function Session(log: seq<Record>): Option<string> {
    if log == [] then None
    else
      var e := log[|log| - 1].event;
      if e.ScanStarted? then Some(e.scanId) else if e.Reset? then None else Session(log[..|log| - 1])
  }

  /** Record i starts where its predecessor ended, is a permitted transition, and is of the scan in progress. */
  ghost predicate Permitted(log: seq<Record>, i: nat)
    requires i < |log|
  {
    var r := log[i];
    && r.from == (if i == 0 then IDLE else log[i - 1].to)
    && (if r.event.Reset? then r.to == IDLE else Transition(r.from, r.event) == Some(r.to))
    && (r.event.Reset? || r.event.ScanStarted? || Session(log[..i]) == Some(r.event.scanId))
  }

  /** Moreover it is numbered, and its hash can be recomputed from its predecessor's. */
  ghost predicate Genuine(cfg: Config, log: seq<Record>, i: nat)
    requires i < |log|
  {
    var r := log[i];
    var previous := if i == 0 then FirstHash() else log[i - 1].hash;
    && Permitted(log, i)
    && r.number == i + 1 && r.timestamp == r.event.timestamp
    && r.hash == Digest(cfg.render(previous, r.from, r.to, r.event, r.number))
  }

  ghost predicate PermittedLog(log: seq<Record>) {
    forall i: nat | i < |log| :: Permitted(log, i)
  }

  ghost predicate GenuineLog(cfg: Config, log: seq<Record>) {
    forall i: nat | i < |log| :: Genuine(cfg, log, i)
  }

  lemma GenuineIsPermitted(cfg: Config, log: seq<Record>)
    requires GenuineLog(cfg, log)
    ensures PermittedLog(log)
  {
    forall i: nat | i < |log|
      ensures Permitted(log, i)
    {
      assert Genuine(cfg, log, i);
    }
  }

  function Tail<T>(s: seq<T>, n: int): seq<T> {
    if n <= 0 then [] else if |s| <= n then s else s[|s| - n..]
  }

  /** The machine as a summary of the full log. */
  ghost predicate Summarises(cfg: Config, m: Machine, log: seq<Record>) {
    && m.count == |log|
    && m.state == (if log == [] then IDLE else log[|log| - 1].to)
    && m.hash == (if log == [] then FirstHash() else log[|log| - 1].hash)
    && m.lastTimestamp == (if log == [] then None else Some(log[|log| - 1].timestamp))
    && m.activeScanId == Session(log)
    && (m.state == IDLE <==> m.activeScanId.None?)
    && m.history == Tail(log, cfg.maxHistoryDepth)
  }

  lemma GenuineExtends(cfg: Config, log: seq<Record>, r: Record)
    requires GenuineLog(cfg, log) && Genuine(cfg, log + [r], |log|)
    ensures GenuineLog(cfg, log + [r])
  {
    var longer := log + [r];
    forall i: nat | i < |longer|
      ensures Genuine(cfg, longer, i)
    {
      if i < |log| {
        assert Genuine(cfg, log, i);
        assert longer[..i] == log[..i];
      }
    }
  }

  lemma RetainedIsTail(log: seq<Record>, r: Record, depth: int)
    ensures Retained(Tail(log, depth), r, depth) == Tail(log + [r], depth)
  {
  }

  lemma CommitExtends(cfg: Config, m: Machine, log: seq<Record>, e: Event, now: int, to: ProtocolState)
    requires Summarises(cfg, m, log) && GenuineLog(cfg, log) && Decide(cfg, m, e, now) == Ok(to)
    ensures var r := NewRecord(cfg, m, to, e);
            Summarises(cfg, Committed(cfg, m, to, e), log + [r]) && GenuineLog(cfg, log + [r])
  {
    var r := NewRecord(cfg, m, to, e);
    var longer := log + [r];
    assert longer[..|log|] == log;
    RetainedIsTail(log, r, cfg.maxHistoryDepth);
    assert Genuine(cfg, longer, |log|);
    GenuineExtends(cfg, log, r);
  }

  /**
   * After any run: IDLE exactly without an active scan; every record numbered, linked, hashed and
   * of the scan in progress; and the retained history is the end of the full log.
   */
  lemma {:induction false} RunIsGenuine(cfg: Config, ops: seq<Op>)
    ensures Summarises(cfg, After(cfg, ops), FullLog(cfg, ops))
    ensures GenuineLog(cfg, FullLog(cfg, ops)) && PermittedLog(FullLog(cfg, ops))
  {
    if ops != [] {
      var n := |ops| - 1;
      RunIsGenuine(cfg, ops[..n]);
      StepExtends(cfg, After(cfg, ops[..n]), FullLog(cfg, ops[..n]), ops[n]);
    }
    GenuineIsPermitted(cfg, FullLog(cfg, ops));
  }

  lemma StepExtends(cfg: Config, m: Machine, log: seq<Record>, op: Op)
    requires Summarises(cfg, m, log) && GenuineLog(cfg, log)
    ensures Summarises(cfg, Step(cfg, m, op), Extended(cfg, m, log, op)) && GenuineLog(cfg, Extended(cfg, m, log, op))
  {
    if op.Apply? && Decide(cfg, m, op.event, op.now).Ok? {
      CommitExtends(cfg, m, log, op.event, op.now, Decide(cfg, m, op.event, op.now).value);
    }
  }

  /** Between a scan's start and the next, every event but RESET carries that scan's id. */
  lemma {:induction false} EventsBelongToTheirScan(log: seq<Record>, i: nat, j: nat)
    requires PermittedLog(log) && i < j < |log| && log[i].event.ScanStarted?
    requires forall k | i < k <= j :: !log[k].event.ScanStarted?
    ensures log[j].event.Reset? || log[j].event.scanId == log[i].event.scanId
  {
    assert Permitted(log, j);
    SessionSince(log, i, j);
  }

  lemma {:induction false} SessionSince(log: seq<Record>, i: nat, j: nat)
    requires i < j <= |log| && log[i].event.ScanStarted?
    requires forall k | i < k < j :: !log[k].event.ScanStarted?
    ensures Session(log[..j]) == Some(log[i].event.scanId) || Session(log[..j]) == None
    decreases j
  {
    assert log[..j][..j - 1] == log[..j - 1];
    if i + 1 < j {
      SessionSince(log, i, j - 1);
    }
  }

  // ----- What a final state says about the run -----

  /** Records i to j: a scan started and completed, then only report starts. */
  ghost predicate ReportUnderWay(log: seq<Record>, i: nat, j: nat) {
    && i + 1 <= j < |log|
    && log[i].event.ScanStarted? && log[i + 1].event.ScanCompleted?
    && (forall k | i + 1 < k <= j :: log[k].event.ReportStarted?)
  }

  /** Records i to j carry the id of one scan. */
  ghost predicate OneScan(log: seq<Record>, i: nat, j: nat)
    requires i <= j < |log|
  {
    !log[i].event.Reset? && forall k | i < k <= j :: !log[k].event.Reset? && log[k].event.scanId == log[i].event.scanId
  }

  /** How record j was reached: its event and the state before it. */
  lemma Arrival(log: seq<Record>, j: nat)
    requires j < |log| && Permitted(log, j)
    ensures log[j].to == SCANNING ==> log[j].event.ScanStarted?
    ensures log[j].to == REPORTING ==>
      && j > 0
      && if log[j - 1].to == SCANNING then log[j].event.ScanCompleted?
         else log[j - 1].to == REPORTING && log[j].event.ReportStarted?
    ensures log[j].to == DONE ==> j > 0 && log[j - 1].to == REPORTING && log[j].event.ReportDelivered?
    ensures log[j].to == FAILED ==>
      && j > 0
      && if log[j - 1].to == SCANNING then log[j].event.ScanFailed?
         else log[j - 1].to == REPORTING && log[j].event.ReportFailed?
  {
  }

  lemma {:induction false} ReportingMeansCompleted(log: seq<Record>, j: nat) returns (i: nat)
    requires PermittedLog(log) && j < |log| && log[j].to == REPORTING
    ensures ReportUnderWay(log, i, j)
    decreases j
  {
    Arrival(log, j);
    if log[j - 1].to == SCANNING {
      i := j - 1;
      Arrival(log, i);
    } else {
      i := ReportingMeansCompleted(log, j - 1);
    }
  }

  lemma StartedIsOneScan(log: seq<Record>, i: nat, j: nat)
    requires PermittedLog(log) && i < j < |log| && log[i].event.ScanStarted?
    requires forall k | i < k <= j :: !log[k].event.ScanStarted? && !log[k].event.Reset?
    ensures OneScan(log, i, j)
  {
    forall k | i < k <= j
      ensures log[k].event.scanId == log[i].event.scanId
    {
      EventsBelongToTheirScan(log, i, k);
    }
  }

  /** DONE is reached only by delivering the report of a scan that was started and completed, all under its id. */
  lemma DoneMeansDelivered(log: seq<Record>, j: nat) returns (i: nat)
    requires PermittedLog(log) && j < |log| && log[j].to == DONE
    ensures i < j && log[j].event.ReportDelivered? && ReportUnderWay(log, i, j - 1) && OneScan(log, i, j)
  {
    Arrival(log, j);
    i := ReportingMeansCompleted(log, j - 1);
    StartedIsOneScan(log, i, j);
  }

  /** FAILED is reached only by a failure of the scan in progress, right after its start or while it is reported. */
  lemma FailedMeansFailure(log: seq<Record>, j: nat) returns (i: nat)
    requires PermittedLog(log) && j < |log| && log[j].to == FAILED
    ensures i < j && log[i].event.ScanStarted? && OneScan(log, i, j)
    ensures if log[j].event.ScanFailed? then i == j - 1 else log[j].event.ReportFailed? && ReportUnderWay(log, i, j - 1)
  {
    Arrival(log, j);
    if log[j - 1].to == SCANNING {
      i := j - 1;
      Arrival(log, i);
    } else {
      i := ReportingMeansCompleted(log, j - 1);
    }
    StartedIsOneScan(log, i, j);
  }

  /** DONE and FAILED are left by RESET alone, and only IDLE lets a scan start. */
  lemma FinalUntilReset(log: seq<Record>, j: nat)
    requires PermittedLog(log) && 0 < j < |log|
    ensures log[j - 1].to == DONE || log[j - 1].to == FAILED ==> log[j].event.Reset?
    ensures log[j].event.ScanStarted? ==> log[j - 1].event.Reset?
  {
    assert Permitted(log, j);
    assert Permitted(log, j - 1);
  }

  /** A rejected event leaves no trace, and a stopped machine rejects every event. */
  lemma RejectionChangesNothing(cfg: Config, m: Machine, e: Event, now: int)
    ensures Applied(cfg, m, e, now).1.Err? ==> Applied(cfg, m, e, now).0 == m
    ensures m.stopped ==> Applied(cfg, m, e, now).1 == Err(Shutdown)
    ensures Applied(cfg, m, e, now).1.Ok? ==> Applied(cfg, m, e, now).0.count == m.count + 1
  {
  }

  // ----- Exactly which events are accepted, told from the log -----

  /** The skew check lets the event pass. */
  ghost predicate InTime(cfg: Config, e: Event, now: int) {
    cfg.maxClockSkewMs <= 0 || -cfg.maxClockSkewMs <= e.timestamp - now <= cfg.maxClockSkewMs
  }

  /** The event is accepted and leads to the state. */
  ghost predicate LeadsTo(cfg: Config, m: Machine, e: Event, now: int, to: ProtocolState) {
    var (after, r) := Applied(cfg, m, e, now);
    r.Ok? && r.value.event == e && r.value.to == to && after.state == to
  }

  ghost predicate IsRejected(cfg: Config, m: Machine, e: Event, now: int) {
    Applied(cfg, m, e, now).1.Err?
  }

  /** No scan is in progress: none was started since the last RESET. */
  ghost predicate NoScan(log: seq<Record>) {
    log == [] || log[|log| - 1].event.Reset?
  }

  ghost predicate JustStarted(log: seq<Record>, id: string) {
    log != [] && log[|log| - 1].event.ScanStarted? && log[|log| - 1].event.scanId == id
  }

  /** The report of scan `id` is under way. */
  ghost predicate Reporting(log: seq<Record>, id: string) {
    log != [] && exists i: nat :: ReportUnderWay(log, i, |log| - 1) && log[i].event.scanId == id
  }

  ghost predicate HasEnded(log: seq<Record>) {
    log != [] && (log[|log| - 1].event.ScanFailed? || log[|log| - 1].event.ReportFailed? || log[|log| - 1].event.ReportDelivered?)
  }

  /** After any run the log is in exactly one of these four situations, and the state goes with it. */
  lemma {:induction false} SituationOf(cfg: Config, m: Machine, log: seq<Record>)
    requires Summarises(cfg, m, log) && PermittedLog(log)
    ensures m.state == IDLE <==> NoScan(log)
    ensures m.state == SCANNING <==> exists id :: JustStarted(log, id)
    ensures m.state == REPORTING <==> exists id :: Reporting(log, id)
    ensures m.state == DONE || m.state == FAILED <==> HasEnded(log)
    ensures forall id | JustStarted(log, id) || Reporting(log, id) :: m.activeScanId == Some(id)
  {
    if log != [] {
      var n := |log| - 1;
      LastEvent(log);
      if m.state == REPORTING {
        var i := ReportingMeansCompleted(log, n);
        assert Reporting(log, log[i].event.scanId);
      }
      if m.state == SCANNING {
        assert JustStarted(log, log[n].event.scanId);
      }
      forall id | JustStarted(log, id) || Reporting(log, id)
        ensures m.activeScanId == Some(id)
      {
        SessionOf(log, id);
      }
    }
  }

  /** The last event and the state after it. */
  lemma {:induction false} LastEvent(log: seq<Record>)
    requires PermittedLog(log) && log != []
    ensures var last := log[|log| - 1];
            && (last.to == IDLE <==> last.event.Reset?)
            && (last.to == SCANNING <==> last.event.ScanStarted?)
            && (last.to == REPORTING <==> last.event.ScanCompleted? || last.event.ReportStarted?)
            && (last.to == DONE <==> last.event.ReportDelivered?)
            && (last.to == FAILED <==> last.event.ScanFailed? || last.event.ReportFailed?)
  {
    assert Permitted(log, |log| - 1);
  }

  lemma {:induction false} SessionOf(log: seq<Record>, id: string)
    requires PermittedLog(log) && (JustStarted(log, id) || Reporting(log, id))
    ensures Session(log) == Some(id)
  {
    if Reporting(log, id) {
      var i: nat :| ReportUnderWay(log, i, |log| - 1) && log[i].event.scanId == id;
      SessionKept(log, i, |log|);
      assert log[..|log|] == log;
    }
  }

  /** Nothing but a start or a RESET changes the scan in progress. */
  lemma {:induction false} SessionKept(log: seq<Record>, i: nat, j: nat)
    requires i < j <= |log| && log[i].event.ScanStarted?
    requires forall k | i < k < j :: !log[k].event.ScanStarted? && !log[k].event.Reset?
    ensures Session(log[..j]) == Some(log[i].event.scanId)
    decreases j
  {
    assert log[..j][..j - 1] == log[..j - 1];
    if i + 1 < j {
      SessionKept(log, i, j - 1);
    }
  }

  /**
   * After any run of a machine that is not stopped, an event in time is accepted exactly as the log
   * says: RESET always; a start if no scan is in progress; right after the start of a scan its
   * completion or failure; while its report is under way another report start, its delivery or its
   * failure; and nothing else.
   */
  lemma {:induction false} AcceptedByLog(cfg: Config, ops: seq<Op>, e: Event, now: int)
    requires !After(cfg, ops).stopped && InTime(cfg, e, now)
    ensures var m, log := After(cfg, ops), FullLog(cfg, ops);
            && (e.Reset? ==> LeadsTo(cfg, m, e, now, IDLE))
            && (NoScan(log) && !e.Reset? ==> if e.ScanStarted? then LeadsTo(cfg, m, e, now, SCANNING) else IsRejected(cfg, m, e, now))
            && (HasEnded(log) && !e.Reset? ==> IsRejected(cfg, m, e, now))
    ensures var m, log := After(cfg, ops), FullLog(cfg, ops);
            forall id | JustStarted(log, id) && !e.Reset? ::
              if e.ScanCompleted? && e.scanId == id then LeadsTo(cfg, m, e, now, REPORTING)
              else if e.ScanFailed? && e.scanId == id then LeadsTo(cfg, m, e, now, FAILED)
              else IsRejected(cfg, m, e, now)
    ensures var m, log := After(cfg, ops), FullLog(cfg, ops);
            forall id | Reporting(log, id) && !e.Reset? ::
              if e.ReportStarted? && e.scanId == id then LeadsTo(cfg, m, e, now, REPORTING)
              else if e.ReportDelivered? && e.scanId == id then LeadsTo(cfg, m, e, now, DONE)
              else if e.ReportFailed? && e.scanId == id then LeadsTo(cfg, m, e, now, FAILED)
              else IsRejected(cfg, m, e, now)
  {
    RunIsGenuine(cfg, ops);
    SituationOf(cfg, After(cfg, ops), FullLog(cfg, ops));
    AcceptedByState(cfg, After(cfg, ops), e, now);
  }

  lemma {:induction false} AcceptedByState(cfg: Config, m: Machine, e: Event, now: int)
    requires !m.stopped && InTime(cfg, e, now) && (m.state == IDLE <==> m.activeScanId.None?)
    ensures e.Reset? ==> LeadsTo(cfg, m, e, now, IDLE)
    ensures m.state == IDLE && !e.Reset? ==> if e.ScanStarted? then LeadsTo(cfg, m, e, now, SCANNING) else IsRejected(cfg, m, e, now)
    ensures (m.state == DONE || m.state == FAILED) && !e.Reset? ==> IsRejected(cfg, m, e, now)
    ensures m.state == SCANNING && !e.Reset? ==>
              if e.ScanCompleted? && Some(e.scanId) == m.activeScanId then LeadsTo(cfg, m, e, now, REPORTING)
              else if e.ScanFailed? && Some(e.scanId) == m.activeScanId then LeadsTo(cfg, m, e, now, FAILED)
              else IsRejected(cfg, m, e, now)
    ensures m.state == REPORTING && !e.Reset? ==>
              if e.ReportStarted? && Some(e.scanId) == m.activeScanId then LeadsTo(cfg, m, e, now, REPORTING)
              else if e.ReportDelivered? && Some(e.scanId) == m.activeScanId then LeadsTo(cfg, m, e, now, DONE)
              else if e.ReportFailed? && Some(e.scanId) == m.activeScanId then LeadsTo(cfg, m, e, now, FAILED)
              else IsRejected(cfg, m, e, now)
  {
  }

  /** A stopped machine, or an event out of time, is refused whatever the log. */
  lemma RefusedAnyway(cfg: Config, m: Machine, e: Event, now: int)
    requires m.stopped || !InTime(cfg, e, now)
    ensures Applied(cfg, m, e, now) == (m, Err(if m.stopped then Shutdown else TimestampViolation))
  {
  }

  // ----- A forged record shows -----

  lemma DifferBetween(before: Units, a: Units, b: Units, after: Units, k: nat)
    requires DifferOnlyAt(a, b, k)
    ensures DifferOnlyAt(before + a + after, before + b + after, |before| + k)
  {
  }

  /** With the source's way of writing a transition, one changed unit in an event's JSON text changes the hash. */
  lemma EventShowsInHash(
    json: Event -> Units, previous: Units, from: ProtocolState, to: ProtocolState, e: Event, forged: Event, number: nat, k: nat)
    requires EventName(e) == EventName(forged) && DifferOnlyAt(json(e), json(forged), k)
    ensures Digest(HashInput(json, previous, from, to, e, number)) != Digest(HashInput(json, previous, from, to, forged, number))
  {
    var heading := Heading(from, to, e, number);
    var before := previous + heading;
    var x, y := HashInput(json, previous, from, to, e, number), HashInput(json, previous, from, to, forged, number);
    assert x == before + json(e) + [] && y == before + json(forged) + [];
    DifferBetween(before, json(e), json(forged), [], k);
    OneChangeChangesDigest(x, y, |before| + k);
  }

  lemma PreviousShowsInHash(
    json: Event -> Units, previous: Units, forged: Units, from: ProtocolState, to: ProtocolState, e: Event, number: nat, k: nat)
    requires DifferOnlyAt(previous, forged, k)
    ensures Digest(HashInput(json, previous, from, to, e, number)) != Digest(HashInput(json, forged, from, to, e, number))
  {
    var after := Heading(from, to, e, number) + json(e);
    DifferBetween([], previous, forged, after, k);
    assert [] + previous == previous && [] + forged == forged;
    OneChangeChangesDigest(previous + after, forged + after, k);
  }

  /** A record of a genuine log whose event is exchanged for one of the same kind that reads differently in one unit. */
  lemma ForgedEventShows(depth: int, skew: int, json: Event -> Units, log: seq<Record>, i: nat, e: Event, k: nat)
    requires GenuineLog(Settings(depth, skew, json), log) && i < |log|
    requires EventName(log[i].event) == EventName(e) && DifferOnlyAt(json(log[i].event), json(e), k)
    ensures !Genuine(Settings(depth, skew, json), log[i := log[i].(event := e)], i)
  {
    var r := log[i];
    var previous := if i == 0 then FirstHash() else log[i - 1].hash;
    assert Genuine(Settings(depth, skew, json), log, i);
    EventShowsInHash(json, previous, r.from, r.to, r.event, e, r.number, k);
  }

  /** A hash that is changed in one digit no longer fits the record after it. */
  lemma ForgedHashShows(depth: int, skew: int, json: Event -> Units, log: seq<Record>, i: nat, hash: Units, k: nat)
    requires GenuineLog(Settings(depth, skew, json), log) && i + 1 < |log| && DifferOnlyAt(log[i].hash, hash, k)
    ensures !Genuine(Settings(depth, skew, json), log[i := log[i].(hash := hash)], i + 1)
  {
    var r := log[i + 1];
    assert Genuine(Settings(depth, skew, json), log, i + 1);
    PreviousShowsInHash(json, log[i].hash, hash, r.from, r.to, r.event, r.number, k);
  }

  // ----- The hashed text shows the whole transition -----

  ghost predicate NoColon(s: Units) {
    58 !in s
  }

  lemma UpToColon(a: Units, b: Units, r1: Units, r2: Units)
    requires NoColon(a) && NoColon(b) && a + COLON + r1 == b + COLON + r2
    ensures a == b && r1 == r2
  {
    var t, u := a + COLON + r1, b + COLON + r2;
    assert t[|a|] == 58 && u[|b|] == 58;
    assert forall i | 0 <= i < |a| :: t[i] == a[i];
    assert forall i | 0 <= i < |b| :: u[i] == b[i];
    assert |a| == |b|;
    assert t[..|a|] == a && u[..|b|] == b && t[|a| + 1..] == r1 && u[|b| + 1..] == r2;
  }

  lemma StateNamesDiffer(x: ProtocolState, y: ProtocolState)
    ensures NoColon(StateName(x)) && (StateName(x) == StateName(y) ==> x == y)
  {
    assert StateName(IDLE)[0] == 73 && StateName(DONE)[0] == 68;
  }

  /** The kind of an event. */
  ghost predicate SameKind(e: Event, f: Event) {
    match e
    case ScanStarted(_, _, _) => f.ScanStarted?
    case ScanCompleted(_, _, _) => f.ScanCompleted?
    case ScanFailed(_, _, _) => f.ScanFailed?
    case ReportStarted(_, _) => f.ReportStarted?
    case ReportDelivered(_, _, _) => f.ReportDelivered?
    case ReportFailed(_, _, _) => f.ReportFailed?
    case Reset(_, _) => f.Reset?
  }

  lemma EventNamesDiffer(e: Event, f: Event)
    ensures NoColon(EventName(e)) && (EventName(e) == EventName(f) <==> SameKind(e, f))
  {
    assert EventName(e)[0] == if e.ReportStarted? || e.ReportDelivered? || e.ReportFailed? || e.Reset? then 82 else 83;
    assert EventName(f)[0] == if f.ReportStarted? || f.ReportDelivered? || f.ReportFailed? || f.Reset? then 82 else 83;
  }

  lemma {:induction false} DecimalsDiffer(m: nat, n: nat)
    ensures NoColon(Decimal(m)) && (Decimal(m) == Decimal(n) ==> m == n)
    decreases m
  {
    if m >= 10 {
      DecimalsDiffer(m / 10, n / 10);
    }
    var a, b := Decimal(m), Decimal(n);
    DecimalIsNotEmpty(m);
    DecimalIsNotEmpty(n);
    if a == b {
      assert a[|a| - 1] == b[|b| - 1];
      if m >= 10 && n >= 10 {
        assert a[..|a| - 1] == Decimal(m / 10) && b[..|b| - 1] == Decimal(n / 10);
      } else if m >= 10 {
        DecimalIsNotEmpty(m / 10);
      }
    }
  }

  lemma DecimalIsNotEmpty(n: nat)
    ensures |Decimal(n)| >= 1 && Decimal(n)[|Decimal(n)| - 1] == 48 + n % 10
  {
  }

  /** Two transitions after hashes of one length are hashed as the same text only if they agree in everything. */
  lemma HashInputDecodes(json: Event -> Units, p: Units, q: Units, from: ProtocolState, from': ProtocolState,
                         to: ProtocolState, to': ProtocolState, e: Event, f: Event, m: nat, n: nat)
    requires |p| == |q| && HashInput(json, p, from, to, e, m) == HashInput(json, q, from', to', f, n)
    ensures p == q && from == from' && to == to' && SameKind(e, f) && m == n && json(e) == json(f)
  {
    var x, y := HashInput(json, p, from, to, e, m), HashInput(json, q, from', to', f, n);
    assert x[..|p|] == p && y[..|q|] == q;
    assert x[|p|..] == Heading(from, to, e, m) + json(e) && y[|q|..] == Heading(from', to', f, n) + json(f);
    HeadingDecodes(json, from, from', to, to', e, f, m, n);
  }

  /** What follows a colon in the text. */
  ghost function AfterColon(parts: seq<Units>, rest: Units): Units {
    if parts == [] then rest else parts[0] + COLON + AfterColon(parts[1..], rest)
  }

  lemma HeadingAsParts(a: Units, b: Units, c: Units, d: Units, rest: Units)
    ensures COLON + a + COLON + b + COLON + c + COLON + d + COLON + rest == COLON + AfterColon([a, b, c, d], rest)
  {
    PartsFollow(COLON + a + COLON + b + COLON + c + COLON, d, [], rest);
    PartsFollow(COLON + a + COLON + b + COLON, c, [d], rest);
    PartsFollow(COLON + a + COLON, b, [c, d], rest);
    PartsFollow(COLON, a, [b, c, d], rest);
  }

  lemma PartsFollow(before: Units, part: Units, parts: seq<Units>, rest: Units)
    ensures before + part + COLON + AfterColon(parts, rest) == before + AfterColon([part] + parts, rest)
  {
    assert ([part] + parts)[1..] == parts;
    assert before + part + COLON + AfterColon(parts, rest) == before + (part + COLON + AfterColon(parts, rest));
  }

  lemma {:induction false} PartsDecode(ps: seq<Units>, qs: seq<Units>, r1: Units, r2: Units)
    requires |ps| == |qs| && (forall i | 0 <= i < |ps| :: NoColon(ps[i]) && NoColon(qs[i])) && AfterColon(ps, r1) == AfterColon(qs, r2)
    ensures ps == qs && r1 == r2
  {
    if ps != [] {
      UpToColon(ps[0], qs[0], AfterColon(ps[1..], r1), AfterColon(qs[1..], r2));
      PartsDecode(ps[1..], qs[1..], r1, r2);
      assert ps == [ps[0]] + ps[1..] && qs == [qs[0]] + qs[1..];
    }
  }

  lemma HeadingDecodes(json: Event -> Units, from: ProtocolState, from': ProtocolState, to: ProtocolState, to': ProtocolState,
                       e: Event, f: Event, m: nat, n: nat)
    requires Heading(from, to, e, m) + json(e) == Heading(from', to', f, n) + json(f)
    ensures from == from' && to == to' && SameKind(e, f) && m == n && json(e) == json(f)
  {
    var ps := [StateName(from), StateName(to), EventName(e), Decimal(m)];
    var qs := [StateName(from'), StateName(to'), EventName(f), Decimal(n)];
    HeadingAsParts(StateName(from), StateName(to), EventName(e), Decimal(m), json(e));
    HeadingAsParts(StateName(from'), StateName(to'), EventName(f), Decimal(n), json(f));
    assert (COLON + AfterColon(ps, json(e)))[1..] == AfterColon(ps, json(e)) && (COLON + AfterColon(qs, json(f)))[1..] == AfterColon(qs, json(f));
    StateNamesDiffer(from, from');
    StateNamesDiffer(to, to');
    StateNamesDiffer(from', from);
    StateNamesDiffer(to', to);
    EventNamesDiffer(e, f);
    EventNamesDiffer(f, e);
    DecimalsDiffer(m, n);
    DecimalsDiffer(n, m);
    PartsDecode(ps, qs, json(e), json(f));
    assert ps[0] == qs[0] && ps[1] == qs[1] && ps[2] == qs[2] && ps[3] == qs[3];
  }
}
