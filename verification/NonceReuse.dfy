/** Nonce-reuse alerts of the relayer monitor, and when they miss nothing. */
module NonceReuse {
  import opened Sequences
  import opened NonceStore

  datatype Metric = Metric(address: Address, nonce: int)

  datatype Severity = HIGH | CRITICAL

  datatype Alert =
    | Reuse(address: Address, previous: int, now: int)
    | Spike(address: Address, jump: int, severity: Severity)

  // ----- One batch -----

  /**
   * The nonce that metric `i` is compared with: the last one reported for its address before it in
   * the batch or, if there is none, the one remembered from before.
   */
  ghost predicate IsPrevious(prev: Nonces, ms: seq<Metric>, i: nat, p: int)
    requires i < |ms|
  {
    || (exists j :: 0 <= j < i && IsLastBefore(ms, j, i) && ms[j].nonce == p)
    || (NewInBatch(ms, i) && ms[i].address in prev && prev[ms[i].address] == p)
  }

  /** Metric `j` is the last before `i` for the same address. */
  ghost predicate IsLastBefore(ms: seq<Metric>, j: nat, i: nat)
    requires j < i < |ms|
  {
    ms[j].address == ms[i].address && forall k | j < k < i :: ms[k].address != ms[i].address
  }

  ghost predicate NewInBatch(ms: seq<Metric>, i: nat)
    requires i < |ms|
  {
    forall k | 0 <= k < i :: ms[k].address != ms[i].address
  }

  /** What the detector remembers after a list of metrics: the last nonce of each address. */
  function Remembered(prev: Nonces, ms: seq<Metric>): Nonces {
    if ms == [] then prev
    else var n := |ms| - 1; Remembered(prev, ms[..n])[ms[n].address := ms[n].nonce]
  }

  /** The highest nonce of each address, remembered or reported. */
  function HighWater(prev: Nonces, ms: seq<Metric>): Nonces {
    if ms == [] then prev
    else
      var n := |ms| - 1;
      var high := HighWater(prev, ms[..n]);
      var m := ms[n];
      high[m.address := if m.address in high then Larger(high[m.address], m.nonce) else m.nonce]
  }

  predicate AtOrBelow(known: Nonces, m: Metric) {
    m.address in known && m.nonce <= known[m.address]
  }

  function AlertsFor(threshold: int, known: Nonces, m: Metric): seq<Alert> {
    var previous := if m.address in known then known[m.address] else m.nonce;
    var jump := m.nonce - previous;
    (if AtOrBelow(known, m) then [Reuse(m.address, previous, m.nonce)] else [])
    + (if jump > threshold then [Spike(m.address, jump, if jump > threshold * 2 then CRITICAL else HIGH)] else [])
  }

  /** The alerts of a batch, each metric judged against what is remembered just before it. */
  function Alerts(threshold: int, prev: Nonces, ms: seq<Metric>): seq<Alert> {
    if ms == [] then []
    else
      var n := |ms| - 1;
      Alerts(threshold, prev, ms[..n]) + AlertsFor(threshold, Remembered(prev, ms[..n]), ms[n])
  }

  /** Metric `i` of the batch raises a reuse alert. */
  predicate Flagged(prev: Nonces, ms: seq<Metric>, i: nat)
    requires i < |ms|
  {
    AtOrBelow(Remembered(prev, ms[..i]), ms[i])
  }

  /** Metric `i` does not rise above the highest nonce seen so far. */
  predicate Reused(prev: Nonces, ms: seq<Metric>, i: nat)
    requires i < |ms|
  {
    AtOrBelow(HighWater(prev, ms[..i]), ms[i])
  }

  lemma {:induction false} FlaggedRaisesAlert(threshold: int, prev: Nonces, ms: seq<Metric>, i: nat)
    requires i < |ms| && Flagged(prev, ms, i)
    ensures Reuse(ms[i].address, Remembered(prev, ms[..i])[ms[i].address], ms[i].nonce) in Alerts(threshold, prev, ms)
    decreases |ms|
  {
    var n := |ms| - 1;
    if i < n {
      assert ms[..n][..i] == ms[..i];
      FlaggedRaisesAlert(threshold, prev, ms[..n], i);
    }
  }

  /** How a save went: with what its read returned, or not at all. */
  datatype Save = Saved(read: Nonces) | Threw

  function Kept(save: Save, local: Nonces): Nonces {
    if save.Threw? then local else Merge(save.read, local)
  }

  // ----- What the alerts say -----

  /** What is remembered just before metric `i` is the previous nonce of its address. */
  lemma {:induction false} RememberedIsPrevious(prev: Nonces, ms: seq<Metric>, i: nat, n: nat)
    requires n <= i < |ms|
    requires forall k | n <= k < i :: ms[k].address != ms[i].address
    ensures var known, a := Remembered(prev, ms[..n]), ms[i].address;
            forall p :: a in known && known[a] == p <==> IsPrevious(prev, ms, i, p)
    decreases n
  {
    var a := ms[i].address;
    if n > 0 {
      assert ms[..n][..n - 1] == ms[..n - 1];
      if ms[n - 1].address == a {
        assert IsLastBefore(ms, n - 1, i);
        assert forall j | 0 <= j < i && IsLastBefore(ms, j, i) :: j == n - 1;
      } else {
        RememberedIsPrevious(prev, ms, i, n - 1);
      }
    } else {
      assert ms[..0] == [];
    }
  }

  /** Metric `i` raises the alert. */
  ghost predicate Raises(threshold: int, prev: Nonces, ms: seq<Metric>, i: nat, alert: Alert)
    requires i < |ms|
  {
    alert in AlertsFor(threshold, Remembered(prev, ms[..i]), ms[i])
  }

  lemma {:induction false} AlertsAreRaised(threshold: int, prev: Nonces, ms: seq<Metric>, alert: Alert)
    ensures alert in Alerts(threshold, prev, ms) <==> exists i: nat :: i < |ms| && Raises(threshold, prev, ms, i, alert)
    decreases |ms|
  {
    if ms != [] {
      var n := |ms| - 1;
      var init := ms[..n];
      AlertsAreRaised(threshold, prev, init, alert);
      forall i: nat | i < n
        ensures Raises(threshold, prev, init, i, alert) <==> Raises(threshold, prev, ms, i, alert)
      {
        assert init[..i] == ms[..i];
      }
      if i: nat :| i < n && Raises(threshold, prev, init, i, alert) {
        assert Raises(threshold, prev, ms, i, alert);
      }
      assert Raises(threshold, prev, ms, n, alert) <==> alert in AlertsFor(threshold, Remembered(prev, init), ms[n]);
    }
  }

  /** By how much metric `i` exceeds its previous nonce; nothing if there is none. */
  ghost predicate IsJump(prev: Nonces, ms: seq<Metric>, i: nat, jump: int)
    requires i < |ms|
  {
    || IsPrevious(prev, ms, i, ms[i].nonce - jump)
    || (jump == 0 && forall p :: !IsPrevious(prev, ms, i, p))
  }

  /** The alert is right for metric `i`, judged by the metrics before it alone. */
  ghost predicate Deserved(threshold: int, prev: Nonces, ms: seq<Metric>, i: nat, alert: Alert)
    requires i < |ms|
  {
    match alert
    case Reuse(a, p, now) => ms[i] == Metric(a, now) && IsPrevious(prev, ms, i, p) && now <= p
    case Spike(a, jump, severity) =>
      && ms[i].address == a && IsJump(prev, ms, i, jump) && jump > threshold
      && (severity == CRITICAL <==> jump > threshold * 2)
  }

  lemma RaisesIff(threshold: int, prev: Nonces, ms: seq<Metric>, i: nat, alert: Alert)
    requires i < |ms|
    ensures Raises(threshold, prev, ms, i, alert) <==> Deserved(threshold, prev, ms, i, alert)
  {
    RememberedIsPrevious(prev, ms, i, i);
    if alert.Spike? {
      JumpIs(prev, ms, i, alert.jump);
    }
  }

  lemma JumpIs(prev: Nonces, ms: seq<Metric>, i: nat, jump: int)
    requires i < |ms|
    ensures var known, m := Remembered(prev, ms[..i]), ms[i];
            IsJump(prev, ms, i, jump) <==> jump == m.nonce - if m.address in known then known[m.address] else m.nonce
  {
    var known, m := Remembered(prev, ms[..i]), ms[i];
    RememberedIsPrevious(prev, ms, i, i);
    if m.address in known {
      assert IsPrevious(prev, ms, i, known[m.address]);
    }
    assert IsPrevious(prev, ms, i, m.nonce - jump) <==> m.address in known && known[m.address] == m.nonce - jump;
  }

  /** An alert is raised by the batch exactly if some metric deserves it. */
  lemma {:induction false} AlertsIff(threshold: int, prev: Nonces, ms: seq<Metric>, alert: Alert)
    ensures alert in Alerts(threshold, prev, ms) <==> exists i: nat :: i < |ms| && Deserved(threshold, prev, ms, i, alert)
  {
    AlertsAreRaised(threshold, prev, ms, alert);
    forall i: nat | i < |ms|
      ensures Raises(threshold, prev, ms, i, alert) <==> Deserved(threshold, prev, ms, i, alert)
    {
      RaisesIff(threshold, prev, ms, i, alert);
    }
    if i: nat :| i < |ms| && Deserved(threshold, prev, ms, i, alert) {
      assert Raises(threshold, prev, ms, i, alert);
    }
  }

  ghost predicate DeservesReuse(prev: Nonces, ms: seq<Metric>, i: nat)
    requires i < |ms|
  {
    exists p :: IsPrevious(prev, ms, i, p) && ms[i].nonce <= p
  }

  ghost predicate DeservesSpike(threshold: int, prev: Nonces, ms: seq<Metric>, i: nat)
    requires i < |ms|
  {
    exists jump :: IsJump(prev, ms, i, jump) && jump > threshold
  }

  /** How many of the first `n` metrics deserve a reuse alert, and how many a spike alert. */
  ghost function Deserving(threshold: int, prev: Nonces, ms: seq<Metric>, n: nat): nat
    requires n <= |ms|
  {
    if n == 0 then 0
    else
      var i: nat := n - 1;
      Deserving(threshold, prev, ms, i)
      + (if DeservesReuse(prev, ms, i) then 1 else 0) + (if DeservesSpike(threshold, prev, ms, i) then 1 else 0)
  }

  lemma {:induction false} DeservingOfPrefix(threshold: int, prev: Nonces, ms: seq<Metric>, k: nat, n: nat)
    requires n <= k <= |ms|
    ensures Deserving(threshold, prev, ms[..k], n) == Deserving(threshold, prev, ms, n)
  {
    if n > 0 {
      DeservingOfPrefix(threshold, prev, ms, k, n - 1);
      SameDeserts(threshold, prev, ms, k, n - 1);
    }
  }

  lemma SameDeserts(threshold: int, prev: Nonces, ms: seq<Metric>, k: nat, i: nat)
    requires i < k <= |ms|
    ensures DeservesReuse(prev, ms[..k], i) <==> DeservesReuse(prev, ms, i)
    ensures DeservesSpike(threshold, prev, ms[..k], i) <==> DeservesSpike(threshold, prev, ms, i)
  {
    var init := ms[..k];
    forall p
      ensures IsPrevious(prev, init, i, p) <==> IsPrevious(prev, ms, i, p)
    {
      PreviousOfPrefix(prev, ms, k, i, p);
    }
    assert forall jump :: IsJump(prev, init, i, jump) <==> IsJump(prev, ms, i, jump);
  }

  lemma PreviousOfPrefix(prev: Nonces, ms: seq<Metric>, k: nat, i: nat, p: int)
    requires i < k <= |ms|
    ensures IsPrevious(prev, ms[..k], i, p) <==> IsPrevious(prev, ms, i, p)
  {
    assert forall j | 0 <= j < i :: IsLastBefore(ms[..k], j, i) <==> IsLastBefore(ms, j, i);
  }

  /** Each metric raises at most one alert of either kind: none is raised twice. */
  lemma {:induction false} AlertsAreCounted(threshold: int, prev: Nonces, ms: seq<Metric>)
    ensures |Alerts(threshold, prev, ms)| == Deserving(threshold, prev, ms, |ms|)
    decreases |ms|
  {
    if ms != [] {
      var n := |ms| - 1;
      AlertsAreCounted(threshold, prev, ms[..n]);
      DeservingOfPrefix(threshold, prev, ms, n, n);
      AlertsOfOne(threshold, prev, ms, n);
    }
  }

  lemma AlertsOfOne(threshold: int, prev: Nonces, ms: seq<Metric>, i: nat)
    requires i < |ms|
    ensures |AlertsFor(threshold, Remembered(prev, ms[..i]), ms[i])|
      == (if DeservesReuse(prev, ms, i) then 1 else 0) + (if DeservesSpike(threshold, prev, ms, i) then 1 else 0)
  {
    var known, m := Remembered(prev, ms[..i]), ms[i];
    RememberedIsPrevious(prev, ms, i, i);
    var jump := m.nonce - if m.address in known then known[m.address] else m.nonce;
    JumpIs(prev, ms, i, jump);
    if m.address in known {
      assert IsPrevious(prev, ms, i, known[m.address]);
    }
    forall other
      ensures IsJump(prev, ms, i, other) ==> other == jump
    {
      JumpIs(prev, ms, i, other);
    }
  }

  class Detector {
    const threshold: int
    var previousNonces: Nonces

    constructor (threshold: int, onDisk: Nonces)
      ensures this.threshold == threshold && previousNonces == onDisk
    {
      this.threshold, this.previousNonces := threshold, onDisk;
    }

    /** The loop of `analyze`, before the batch is saved. */
    method Analyze(ms: seq<Metric>) returns (detected: seq<Alert>)
      modifies this
      ensures previousNonces == Remembered(old(previousNonces), ms)
      ensures detected == Alerts(threshold, old(previousNonces), ms)
      ensures forall alert :: alert in detected <==> exists i: nat :: i < |ms| && Deserved(threshold, old(previousNonces), ms, i, alert)
      ensures |detected| == Deserving(threshold, old(previousNonces), ms, |ms|)
    {
      detected := [];
      for i := 0 to |ms|
        invariant previousNonces == Remembered(old(previousNonces), ms[..i])
        invariant detected == Alerts(threshold, old(previousNonces), ms[..i])
      {
        assert ms[..i + 1][..i] == ms[..i];
        detected := detected + AlertsFor(threshold, previousNonces, ms[i]);
        previousNonces := previousNonces[ms[i].address := ms[i].nonce];
      }
      assert ms[..|ms|] == ms;
      forall alert
        ensures alert in detected <==> exists i: nat :: i < |ms| && Deserved(threshold, old(previousNonces), ms, i, alert)
      {
        AlertsIff(threshold, old(previousNonces), ms, alert);
      }
      AlertsAreCounted(threshold, old(previousNonces), ms);
    }

    /** `saveNonces`; if `persistNonceMap` throws, the memory stays as it was. */
    method Save(outcome: Save, keys: seq<Address>)
      requires Distinct(keys) && Elements(keys) == previousNonces.Keys
      modifies this
      ensures previousNonces == Kept(outcome, old(previousNonces))
    {
      if outcome.Saved? {
        previousNonces := MergeNonces(outcome.read, previousNonces, keys);
      }
    }
  }

  // ----- When a batch misses nothing -----

  /**
   * Whatever was remembered and whatever is on disk, every metric that does not rise above the
   * highest nonce so far is flagged, and after saving no reported nonce is forgotten.
   */
  ghost predicate MissesNothing(ms: seq<Metric>) {
    forall prev, disk, i: nat | i < |ms| :: Caught(ms, prev, disk, i)
  }

  ghost predicate Caught(ms: seq<Metric>, prev: Nonces, disk: Nonces, i: nat)
    requires i < |ms|
  {
    && (Reused(prev, ms, i) ==> Flagged(prev, ms, i))
    && AtOrBelow(Merge(disk, Remembered(prev, ms)), ms[i])
  }

  /** No address is reported with two different nonces; in particular, batches of one metric each. */
  ghost predicate Uniform(ms: seq<Metric>) {
    forall i, k | 0 <= i < k < |ms| && ms[i].address == ms[k].address :: ms[i].nonce == ms[k].nonce
  }

  /** The nonce remembered for a reported address is its last one. */
  lemma {:induction false} LastReport(prev: Nonces, ms: seq<Metric>, i: nat) returns (l: nat)
    requires i < |ms|
    ensures i <= l < |ms| && ms[l].address == ms[i].address
    ensures ms[i].address in Remembered(prev, ms) && Remembered(prev, ms)[ms[i].address] == ms[l].nonce
    decreases |ms|
  {
    var n := |ms| - 1;
    if ms[n].address == ms[i].address {
      l := n;
    } else {
      l := LastReport(prev, ms[..n], i);
    }
  }

  lemma {:induction false} UnreportedIsUntouched(prev: Nonces, ms: seq<Metric>, a: Address)
    requires forall m | m in ms :: m.address != a
    ensures a in Remembered(prev, ms) <==> a in prev
    ensures a in HighWater(prev, ms) <==> a in prev
    ensures a in prev ==> Remembered(prev, ms)[a] == HighWater(prev, ms)[a] == prev[a]
  {
    if ms != [] {
      UnreportedIsUntouched(prev, ms[..|ms| - 1], a);
    }
  }

  lemma UniformMetricIsSafe(ms: seq<Metric>, prev: Nonces, disk: Nonces, i: nat)
    requires Uniform(ms) && i < |ms|
    ensures Caught(ms, prev, disk, i)
  {
    var a := ms[i].address;
    var l := LastReport(prev, ms, i);
    if k :| 0 <= k < i && ms[k].address == a {
      var before := LastReport(prev, ms[..i], k);
    } else {
      UnreportedIsUntouched(prev, ms[..i], a);
    }
  }

  /** With a remembered nonce above the whole batch, flagging everything means never rising. */
  lemma {:induction false} AllFlaggedNeverRises(prev: Nonces, ms: seq<Metric>, i: nat, k: nat)
    requires forall j: nat | j < |ms| :: Flagged(prev, ms, j)
    requires i < k < |ms| && ms[i].address == ms[k].address
    ensures ms[i].nonce >= ms[k].nonce
    decreases k
  {
    assert Flagged(prev, ms, k);
    var l := LastReport(prev, ms[..k], i);
    if i < l {
      AllFlaggedNeverRises(prev, ms, i, l);
    }
  }

  function Highest(ms: seq<Metric>): (h: int)
    ensures forall m | m in ms :: m.nonce <= h
  {
    if ms == [] then 0 else Larger(ms[0].nonce, Highest(ms[1..]))
  }

  lemma {:induction false} HighWaterOnlyRises(prev: Nonces, ms: seq<Metric>)
    ensures Below(prev, HighWater(prev, ms))
  {
    if ms != [] {
      HighWaterOnlyRises(prev, ms[..|ms| - 1]);
    }
  }

  /** Remembering the highest nonce of the batch for all its addresses makes every metric a reuse. */
  lemma EveryMetricReused(ms: seq<Metric>, prev: Nonces, j: nat)
    requires j < |ms| && forall m | m in ms :: AtOrBelow(prev, m)
    ensures Reused(prev, ms, j)
  {
    HighWaterOnlyRises(prev, ms[..j]);
    assert AtOrBelow(prev, ms[j]);
  }

  lemma MissingNothingIsUniform(ms: seq<Metric>)
    requires MissesNothing(ms)
    ensures Uniform(ms)
  {
    var prev := map m | m in ms :: m.address := Highest(ms);
    forall j: nat | j < |ms|
      ensures Flagged(prev, ms, j)
    {
      EveryMetricReused(ms, prev, j);
      assert Caught(ms, prev, map[], j);
    }
    forall i, k | 0 <= i < k < |ms| && ms[i].address == ms[k].address
      ensures ms[i].nonce == ms[k].nonce
    {
      assert Caught(ms, prev, map[], i);
      NeverRisingAndLastIsHighest(prev, ms, i, k);
    }
  }

  lemma NeverRisingAndLastIsHighest(prev: Nonces, ms: seq<Metric>, i: nat, k: nat)
    requires forall j: nat | j < |ms| :: Flagged(prev, ms, j)
    requires i < k < |ms| && ms[i].address == ms[k].address
    requires AtOrBelow(Merge(map[], Remembered(prev, ms)), ms[i])
    ensures ms[i].nonce == ms[k].nonce
  {
    AllFlaggedNeverRises(prev, ms, i, k);
    var l := LastReport(prev, ms, k);
    if k < l {
      AllFlaggedNeverRises(prev, ms, k, l);
    }
  }

  /** The exact condition, which a caller can check before the call. */
  lemma MissesNothingIff(ms: seq<Metric>)
    ensures MissesNothing(ms) <==> Uniform(ms)
  {
    if Uniform(ms) {
      forall prev, disk, i: nat | i < |ms|
        ensures Caught(ms, prev, disk, i)
      {
        UniformMetricIsSafe(ms, prev, disk, i);
      }
    }
    if MissesNothing(ms) {
      MissingNothingIsUniform(ms);
    }
  }

  /** One address twice in a batch: the drop to 5 is flagged, but 7 then passes although 10 was seen. */
  lemma TwoMetricsCanHideReuse(prev: Nonces, ms: seq<Metric>)
    requires prev == map["GA" := 10] && ms == [Metric("GA", 5), Metric("GA", 7)]
    ensures Reused(prev, ms, 1) && !Flagged(prev, ms, 1)
  {
    var one := ms[..1];
    assert one == [Metric("GA", 5)] && one[..0] == [];
    assert Remembered(prev, []) == prev && HighWater(prev, []) == prev;
    assert Remembered(prev, one) == prev["GA" := 5];
    assert HighWater(prev, one) == prev["GA" := 10];
  }

  // ----- Whole runs of one process -----

  /** A batch, and how its save went: other writers may have raised the file meanwhile. */
  datatype Round = Round(metrics: seq<Metric>, save: Save)

  /** What the process remembers after its rounds. */
  ghost function Memory(start: Nonces, rounds: seq<Round>): Nonces {
    if rounds == [] then start
    else
      var n := |rounds| - 1;
      Kept(rounds[n].save, Remembered(Memory(start, rounds[..n]), rounds[n].metrics))
  }

  /** Each save succeeds, and its read returns nothing lower than the process last left. */
  ghost predicate DiskNeverFell(start: Nonces, rounds: seq<Round>) {
    rounds != [] ==>
      var n := |rounds| - 1;
      && DiskNeverFell(start, rounds[..n])
      && rounds[n].save.Saved? && Below(Memory(start, rounds[..n]), rounds[n].save.read)
  }

  ghost predicate UniformRounds(rounds: seq<Round>) {
    forall i | 0 <= i < |rounds| :: Uniform(rounds[i].metrics)
  }

  lemma {:induction false} MemoryRetains(start: Nonces, rounds: seq<Round>, m: nat, k: nat)
    requires DiskNeverFell(start, rounds) && UniformRounds(rounds) && m < |rounds| && k < |rounds[m].metrics|
    ensures AtOrBelow(Memory(start, rounds), rounds[m].metrics[k])
    decreases |rounds|
  {
    var n := |rounds| - 1;
    if m == n {
      UniformMetricIsSafe(rounds[n].metrics, Memory(start, rounds[..n]), rounds[n].save.read, k);
    } else {
      MemoryRetains(start, rounds[..n], m, k);
    }
  }

  /** Metric `i` of the next batch is not above metric `k` of round `m`, for the same address. */
  ghost predicate Repeats(rounds: seq<Round>, m: nat, k: nat, ms: seq<Metric>, i: nat) {
    && m < |rounds| && k < |rounds[m].metrics| && i < |ms|
    && rounds[m].metrics[k].address == ms[i].address && ms[i].nonce <= rounds[m].metrics[k].nonce
  }

  /** Every such metric of every further batch is flagged. */
  ghost predicate FlagsAllReuse(start: Nonces, rounds: seq<Round>) {
    forall ms, m: nat, k: nat, i: nat | Uniform(ms) && Repeats(rounds, m, k, ms, i) :: Flagged(Memory(start, rounds), ms, i)
  }

  lemma RetainedIsFlagged(prev: Nonces, ms: seq<Metric>, i: nat)
    requires Uniform(ms) && i < |ms| && AtOrBelow(prev, ms[i])
    ensures Flagged(prev, ms, i)
  {
    UniformMetricIsSafe(ms, prev, map[], i);
    HighWaterOnlyRises(prev, ms[..i]);
    assert Reused(prev, ms, i);
  }

  /** A nonce not above one that this process reported in an earlier round for the address is always flagged. */
  lemma ReuseIsAlwaysFlagged(start: Nonces, rounds: seq<Round>)
    requires DiskNeverFell(start, rounds) && UniformRounds(rounds)
    ensures FlagsAllReuse(start, rounds)
  {
    forall ms, m: nat, k: nat, i: nat | Uniform(ms) && Repeats(rounds, m, k, ms, i)
      ensures Flagged(Memory(start, rounds), ms, i)
    {
      MemoryRetains(start, rounds, m, k);
      RetainedIsFlagged(Memory(start, rounds), ms, i);
    }
  }

  /** The same within one batch. */
  lemma RepeatInBatchIsFlagged(prev: Nonces, ms: seq<Metric>, k: nat, i: nat)
    requires Uniform(ms) && k < i < |ms| && ms[k].address == ms[i].address
    ensures Flagged(prev, ms, i)
  {
    var l := LastReport(prev, ms[..i], k);
  }

  // ----- Exactly when one more save keeps reuse visible -----

  ghost predicate NothingReported(rounds: seq<Round>) {
    forall m | 0 <= m < |rounds| :: rounds[m].metrics == []
  }

  /** Whatever the next round reports, every later reuse is still flagged. */
  ghost predicate StaysVigilant(start: Nonces, rounds: seq<Round>, save: Save) {
    forall metrics | Uniform(metrics) :: FlagsAllReuse(start, rounds + [Round(metrics, save)])
  }

  lemma RoundAdded(start: Nonces, rounds: seq<Round>, r: Round)
    ensures Memory(start, rounds + [r]) == Kept(r.save, Remembered(Memory(start, rounds), r.metrics))
    ensures DiskNeverFell(start, rounds + [r])
      <==> DiskNeverFell(start, rounds) && r.save.Saved? && Below(Memory(start, rounds), r.save.read)
  {
    assert (rounds + [r])[..|rounds|] == rounds;
  }

  lemma GoodSaveStaysVigilant(start: Nonces, rounds: seq<Round>, disk: Nonces)
    requires DiskNeverFell(start, rounds) && UniformRounds(rounds) && Below(Memory(start, rounds), disk)
    ensures StaysVigilant(start, rounds, Saved(disk))
  {
    forall metrics | Uniform(metrics)
      ensures FlagsAllReuse(start, rounds + [Round(metrics, Saved(disk))])
    {
      RoundAdded(start, rounds, Round(metrics, Saved(disk)));
      ReuseIsAlwaysFlagged(start, rounds + [Round(metrics, Saved(disk))]);
    }
  }

  /** Before anything was reported there is nothing to forget. */
  lemma FirstSaveStaysVigilant(start: Nonces, rounds: seq<Round>, save: Save)
    requires NothingReported(rounds)
    ensures StaysVigilant(start, rounds, save)
  {
    forall metrics | Uniform(metrics)
      ensures FlagsAllReuse(start, rounds + [Round(metrics, save)])
    {
      FirstRoundIsFlagged(start, rounds, metrics, save);
    }
  }

  lemma FirstRoundIsFlagged(start: Nonces, rounds: seq<Round>, metrics: seq<Metric>, save: Save)
    requires NothingReported(rounds) && Uniform(metrics)
    ensures FlagsAllReuse(start, rounds + [Round(metrics, save)])
  {
    var longer := rounds + [Round(metrics, save)];
    var before := Memory(start, rounds);
    RoundAdded(start, rounds, Round(metrics, save));
    forall ms, m: nat, k: nat, i: nat | Uniform(ms) && Repeats(longer, m, k, ms, i)
      ensures Flagged(Memory(start, longer), ms, i)
    {
      assert m == |rounds|;
      UniformMetricIsSafe(metrics, before, if save.Saved? then save.read else map[], k);
      MergeWithNothing(Remembered(before, metrics));
      RetainedIsFlagged(Memory(start, longer), ms, i);
    }
  }

  lemma MergeWithNothing(local: Nonces)
    ensures Merge(map[], local) == local
  {
  }

  /** Report a reported nonce lowered by two and lose the save: the nonce in between then passes. */
  lemma LostSaveHidesReuse(start: Nonces, rounds: seq<Round>, save: Save, m: nat, k: nat)
    requires m < |rounds| && k < |rounds[m].metrics| && (save == Threw || save == Saved(map[]))
    ensures !StaysVigilant(start, rounds, save)
  {
    var earlier := rounds[m].metrics[k];
    var metrics, ms := [Metric(earlier.address, earlier.nonce - 2)], [Metric(earlier.address, earlier.nonce - 1)];
    var longer := rounds + [Round(metrics, save)];
    LostRound(start, rounds, earlier.address, earlier.nonce - 2, save);
    assert longer[m] == rounds[m];
    assert Repeats(longer, m, k, ms, 0);
    assert Remembered(Memory(start, longer), ms[..0]) == Memory(start, longer);
    assert !Flagged(Memory(start, longer), ms, 0);
    assert Uniform(ms) && Uniform(metrics);
    assert !FlagsAllReuse(start, longer);
  }

  lemma LostRound(start: Nonces, rounds: seq<Round>, a: Address, nonce: int, save: Save)
    requires save == Threw || save == Saved(map[])
    ensures var memory := Memory(start, rounds + [Round([Metric(a, nonce)], save)]);
            a in memory && memory[a] == nonce
  {
    var metrics, before := [Metric(a, nonce)], Memory(start, rounds);
    RoundAdded(start, rounds, Round(metrics, save));
    assert metrics[..0] == [];
    assert Remembered(before, metrics) == before[a := nonce];
    MergeWithNothing(before[a := nonce]);
  }

  /**
   * After any good history, with `disk` in the file: one more save keeps every reuse visible,
   * whatever is reported, if and only if it succeeds with an honest read or nothing has been
   * reported before. The other outcomes are a read whose error was swallowed and a save that threw.
   */
  lemma SaveIsSafeIff(start: Nonces, rounds: seq<Round>, disk: Nonces, save: Save)
    requires DiskNeverFell(start, rounds) && UniformRounds(rounds) && Below(Memory(start, rounds), disk)
    requires save == Saved(disk) || save == Saved(map[]) || save == Threw
    ensures StaysVigilant(start, rounds, save) <==> save == Saved(disk) || NothingReported(rounds)
  {
    if save == Saved(disk) {
      GoodSaveStaysVigilant(start, rounds, disk);
    } else if NothingReported(rounds) {
      FirstSaveStaysVigilant(start, rounds, save);
    } else {
      var m :| 0 <= m < |rounds| && rounds[m].metrics != [];
      LostSaveHidesReuse(start, rounds, save, m, 0);
    }
  }

  // ----- The same, inside every interleaving of the nonce database -----

  /** Move `n` is the save of writer `w`, which holds what `memory` and the round's metrics make. */
  ghost predicate SavesAt(s: State, moves: seq<Move>, n: nat, w: nat, round: Round, memory: Nonces)
    requires Playable(s, moves)
  {
    && n < |moves| && moves[n].writer == w && Saving(moves[n]) && round.save.Saved?
    && var before := At(s, moves, n);
       && w < |before.writers| && before.writers[w].local == Remembered(memory, round.metrics)
       && (before.writers[w].phase == Loaded(round.save.read) || before.writers[w].phase == Replacing(round.save.read))
  }

  /**
   * A process that read the file at `born`, or had that read swallowed, and then saved its rounds
   * one after the other, as these writers.
   */
  ghost predicate LivedThrough(
    s: State, moves: seq<Move>, born: nat, start: Nonces, rounds: seq<Round>, saves: seq<nat>, writers: seq<nat>)
    requires Playable(s, moves)
  {
    && born <= |moves| && (start == Load(At(s, moves, born).file) || start == map[])
    && |saves| == |writers| == |rounds|
    && (rounds != [] ==>
          var n := |rounds| - 1;
          && LivedThrough(s, moves, born, start, rounds[..n], saves[..n], writers[..n]) && SinceLast(born, saves[..n]) <= saves[n]
          && SavesAt(s, moves, saves[n], writers[n], rounds[n], Memory(start, rounds[..n])))
  }

  /** How many moves had been made when the process last read or saved. */
  ghost function SinceLast(born: nat, saves: seq<nat>): nat {
    if saves == [] then born else saves[|saves| - 1] + 1
  }

  /** A save by a process whose memory the file covered after `since` moves. */
  lemma SaveKeepsCover(s: State, moves: seq<Move>, since: nat, n: nat, w: nat, round: Round, memory: Nonces)
    requires Initial(s) && Playable(s, moves) && Careful(s, moves) && SavesAt(s, moves, n, w, round, memory)
    requires since <= n && Below(memory, Load(At(s, moves, since).file))
    ensures Below(memory, round.save.read)
    ensures Load(At(s, moves, n + 1).file) == Merge(round.save.read, Remembered(memory, round.metrics))
  {
    RunIsSafe(s, moves, n);
    RunNeverLowers(s, moves, since, n);
    AtNext(s, moves, n);
  }

  /** In every careful interleaving, each save of a process finds the file no lower than the process last left it. */
  lemma {:induction false} InterleavingsKeepDisk(
    s: State, moves: seq<Move>, born: nat, start: Nonces, rounds: seq<Round>, saves: seq<nat>, writers: seq<nat>)
    requires Initial(s) && Playable(s, moves) && Careful(s, moves)
    requires LivedThrough(s, moves, born, start, rounds, saves, writers)
    ensures DiskNeverFell(start, rounds) && SinceLast(born, saves) <= |moves|
    ensures Below(Memory(start, rounds), Load(At(s, moves, SinceLast(born, saves)).file))
    decreases |rounds|
  {
    if rounds != [] {
      var n := |rounds| - 1;
      var memory := Memory(start, rounds[..n]);
      InterleavingsKeepDisk(s, moves, born, start, rounds[..n], saves[..n], writers[..n]);
      SaveKeepsCover(s, moves, SinceLast(born, saves[..n]), saves[n], writers[n], rounds[n], memory);
    }
  }

  /**
   * Whatever the other writers do in a careful run: a nonce not above one that this process saved
   * in an earlier round for the address is flagged.
   */
  lemma ReuseIsFlaggedInEveryRun(
    s: State, moves: seq<Move>, born: nat, start: Nonces, rounds: seq<Round>, saves: seq<nat>, writers: seq<nat>)
    requires Initial(s) && Playable(s, moves) && Careful(s, moves) && UniformRounds(rounds)
    requires LivedThrough(s, moves, born, start, rounds, saves, writers)
    ensures FlagsAllReuse(start, rounds)
  {
    InterleavingsKeepDisk(s, moves, born, start, rounds, saves, writers);
    ReuseIsAlwaysFlagged(start, rounds);
  }
}
