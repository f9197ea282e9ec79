/** The error-spike loop of the log analyzer, which skips ahead after each alert. */
module SpikeScan {
  import opened Wrappers

  datatype Severity = HIGH | CRITICAL

  /** A spike that starts at error `start` and covers the `count` errors from there on. */
  datatype Spike = Spike(start: nat, timestamp: int, count: nat, severity: Severity)

  ghost predicate Sorted(times: seq<int>) {
    forall i, j | 0 <= i < j < |times| :: times[i] <= times[j]
  }

  /** The plain recount: errors whose time lies in the window. */
  function InWindow(times: seq<int>, from: int, to: int): nat {
    if times == [] then 0
    else InWindow(times[..|times| - 1], from, to) + if from <= times[|times| - 1] <= to then 1 else 0
  }

  /** Errors from index i on whose time is within the window that opens at i. */
  ghost predicate CountsFrom(times: seq<int>, i: nat, windowMs: int, count: nat)
    requires i < |times|
  {
    && i + count <= |times|
    && (forall j | i <= j < i + count :: times[j] <= times[i] + windowMs)
    && (forall j | i + count <= j < |times| :: times[j] > times[i] + windowMs)
  }

  method CountWindow(times: seq<int>, i: nat, windowMs: int) returns (count: nat)
    requires Sorted(times) && i < |times|
    ensures CountsFrom(times, i, windowMs, count)
  {
    count := 0;
    for j := i to |times|
      invariant count == j - i && forall k | i <= k < j :: times[k] <= times[i] + windowMs
    {
      if times[j] <= times[i] + windowMs {
        count := count + 1;
      } else {
        break;
      }
    }
  }

  lemma CountsAreUnique(times: seq<int>, i: nat, windowMs: int, a: nat, b: nat)
    requires i < |times| && CountsFrom(times, i, windowMs, a) && CountsFrom(times, i, windowMs, b)
    ensures a == b
  {
    var x := if i + a < |times| then times[i + a] else 0;
    var y := if i + b < |times| then times[i + b] else 0;
  }

  /** At least `threshold` errors within the window that opens at i. */
  ghost predicate OpensSpike(times: seq<int>, i: nat, windowMs: int, threshold: nat) {
    i < |times| && exists count: nat :: CountsFrom(times, i, windowMs, count) && count >= threshold
  }

  ghost predicate Covered(spikes: seq<Spike>, i: nat) {
    exists k :: 0 <= k < |spikes| && spikes[k].start <= i < spikes[k].start + spikes[k].count
  }

  /** One report: its count is exact from its start, large enough, and graded. */
  ghost predicate Exact(times: seq<int>, windowMs: int, threshold: nat, s: Spike) {
    && s.start < |times| && CountsFrom(times, s.start, windowMs, s.count) && s.count >= threshold
    && s.timestamp == times[s.start]
    && s.severity == (if s.count >= threshold * 2 then CRITICAL else HIGH)
  }

  /** In order and apart. */
  ghost predicate Disjoint(spikes: seq<Spike>) {
    forall a, b | 0 <= a < b < |spikes| :: spikes[a].start + spikes[a].count <= spikes[b].start
  }

  /** What has been established once every start before i has been dealt with. */
  ghost predicate Scanned(times: seq<int>, windowMs: int, threshold: nat, i: nat, spikes: seq<Spike>) {
    && (forall k | 0 <= k < |spikes| :: Exact(times, windowMs, threshold, spikes[k]) && spikes[k].start + spikes[k].count <= i)
    && Disjoint(spikes)
    && (forall j: nat | j < i && OpensSpike(times, j, windowMs, threshold) :: Covered(spikes, j))
    && (forall k, j | 0 <= k < |spikes| && 0 <= j < spikes[k].start :: times[j] < times[spikes[k].start])
  }

  /** The last clause of what the loop keeps: an error at index i shares its time with none before it, or opens no spike. */
  ghost predicate FreshStart(times: seq<int>, windowMs: int, threshold: nat, i: nat) {
    i < |times| && i > 0 && times[i - 1] == times[i] ==> !OpensSpike(times, i, windowMs, threshold)
  }

  /** What a finished scan promises. */
  ghost predicate CompleteScan(times: seq<int>, windowMs: int, threshold: nat, spikes: seq<Spike>) {
    && (forall s | s in spikes :: Exact(times, windowMs, threshold, s) && s.count == InWindow(times, s.timestamp, s.timestamp + windowMs))
    && Disjoint(spikes)
    && (forall i: nat | OpensSpike(times, i, windowMs, threshold) :: Covered(spikes, i))
  }

  /** Reading the timestamp of a missing entry throws. */
  datatype Fault = ReadPastEnd

  /**
   * With a threshold below 1 the loop does not stop at the last error, so it reads past it and
   * throws; unless the window is negative, in which case it does not advance at all (`NeverAdvances`).
   */
  method DetectSpikes(times: seq<int>, windowMs: int, threshold: int) returns (r: Result<seq<Spike>, Fault>)
    requires Sorted(times) && (threshold >= 1 || windowMs >= 0 || times == [])
    ensures r.Ok? <==> threshold >= 1
    ensures r.Ok? ==> CompleteScan(times, windowMs, threshold, r.value)
  {
    var spikes: seq<Spike> := [];
    var i := 0;
    while i <= |times| - threshold
      invariant 0 <= i <= |times|
      invariant threshold >= 1 ==> Scanned(times, windowMs, threshold, i, spikes) && FreshStart(times, windowMs, threshold, i)
      decreases |times| - i
    {
      if i == |times| {
        return Err(ReadPastEnd);
      }
      var count := CountWindow(times, i, windowMs);
      if count >= threshold {
        var severity := if count >= threshold * 2 then CRITICAL else HIGH;
        if threshold >= 1 {
          ReportKeepsScan(times, windowMs, threshold, i, spikes, count, severity);
        }
        spikes := spikes + [Spike(i, times[i], count, severity)];
        i := i + count - 1;
      } else {
        PassKeepsScan(times, windowMs, threshold, i, spikes, count);
      }
      i := i + 1;
    }
    ScanIsComplete(times, windowMs, threshold, i, spikes);
    return Ok(spikes);
  }

  lemma ScanIsComplete(times: seq<int>, windowMs: int, threshold: nat, i: nat, spikes: seq<Spike>)
    requires Sorted(times) && threshold >= 1 && Scanned(times, windowMs, threshold, i, spikes) && i > |times| - threshold
    ensures CompleteScan(times, windowMs, threshold, spikes)
  {
    TooFewLeft(times, windowMs, threshold, i, spikes);
    forall s | s in spikes
      ensures Exact(times, windowMs, threshold, s) && s.count == InWindow(times, s.timestamp, s.timestamp + windowMs)
    {
      var k :| 0 <= k < |spikes| && spikes[k] == s;
      CountIsRecount(times, s.start, windowMs, s.count);
    }
  }

  /** Where the loop goes from index i when it counts `count` errors. */
  function NextIndex(i: int, count: nat, threshold: int): int {
    (if count >= threshold then i + count - 1 else i) + 1
  }

  /** A negative window counts nothing, and a threshold below 1 then reports that and stays where it is. */
  lemma NeverAdvances(times: seq<int>, windowMs: int, threshold: int, i: nat, count: nat)
    requires i < |times| && windowMs < 0 && threshold < 1 && CountsFrom(times, i, windowMs, count)
    ensures count == 0 && i <= |times| - threshold && NextIndex(i, count, threshold) == i
  {
    var first := times[i];
    assert count > 0 ==> first <= first + windowMs;
  }

  lemma ReportKeepsScan(times: seq<int>, windowMs: int, threshold: nat, i: nat, spikes: seq<Spike>, count: nat, severity: Severity)
    requires Sorted(times) && threshold >= 1 && i < |times| && CountsFrom(times, i, windowMs, count) && count >= threshold
    requires Scanned(times, windowMs, threshold, i, spikes) && FreshStart(times, windowMs, threshold, i)
    requires severity == if count >= threshold * 2 then CRITICAL else HIGH
    ensures Scanned(times, windowMs, threshold, i + count, spikes + [Spike(i, times[i], count, severity)])
    ensures FreshStart(times, windowMs, threshold, i + count)
  {
    var s := Spike(i, times[i], count, severity);
    var longer := spikes + [s];
    assert OpensSpike(times, i, windowMs, threshold);
    StartIsNew(times, i);
    ReportCovers(times, windowMs, threshold, i, spikes, s);
    assert forall k | 0 <= k < |spikes| :: longer[k] == spikes[k];
    assert longer[|spikes|] == s;
    assert times[i + count - 1] <= times[i] + windowMs;
  }

  lemma StartIsNew(times: seq<int>, i: nat)
    requires Sorted(times) && i < |times| && (i > 0 ==> times[i - 1] != times[i])
    ensures forall j | 0 <= j < i :: times[j] < times[i]
  {
    if i > 0 {
      assert times[i - 1] < times[i];
    }
  }

  lemma ReportCovers(times: seq<int>, windowMs: int, threshold: nat, i: nat, spikes: seq<Spike>, s: Spike)
    requires s.start == i && forall j: nat | j < i && OpensSpike(times, j, windowMs, threshold) :: Covered(spikes, j)
    ensures forall j: nat | j < i + s.count && OpensSpike(times, j, windowMs, threshold) :: Covered(spikes + [s], j)
  {
    var longer := spikes + [s];
    forall j: nat | j < i + s.count && OpensSpike(times, j, windowMs, threshold)
      ensures Covered(longer, j)
    {
      if j < i {
        var k :| 0 <= k < |spikes| && spikes[k].start <= j < spikes[k].start + spikes[k].count;
        assert longer[k] == spikes[k];
      } else {
        assert longer[|spikes|] == s;
      }
    }
  }

  lemma PassKeepsScan(times: seq<int>, windowMs: int, threshold: nat, i: nat, spikes: seq<Spike>, count: nat)
    requires Sorted(times) && i < |times| && CountsFrom(times, i, windowMs, count) && count < threshold
    requires Scanned(times, windowMs, threshold, i, spikes)
    ensures Scanned(times, windowMs, threshold, i + 1, spikes) && FreshStart(times, windowMs, threshold, i + 1)
  {
    TooFewHere(times, windowMs, threshold, i, count);
    if i + 1 < |times| && times[i] == times[i + 1] {
      SameTimeOpensEarlier(times, windowMs, threshold, i);
    }
  }

  lemma TooFewHere(times: seq<int>, windowMs: int, threshold: nat, i: nat, count: nat)
    requires i < |times| && CountsFrom(times, i, windowMs, count) && count < threshold
    ensures !OpensSpike(times, i, windowMs, threshold)
  {
    forall c: nat | CountsFrom(times, i, windowMs, c)
      ensures c == count
    {
      CountsAreUnique(times, i, windowMs, count, c);
    }
  }

  lemma SameTimeOpensEarlier(times: seq<int>, windowMs: int, threshold: nat, i: nat)
    requires i + 1 < |times| && times[i] == times[i + 1] && threshold >= 1
    ensures OpensSpike(times, i + 1, windowMs, threshold) ==> OpensSpike(times, i, windowMs, threshold)
  {
    if OpensSpike(times, i + 1, windowMs, threshold) {
      var c: nat :| CountsFrom(times, i + 1, windowMs, c) && c >= threshold;
      assert times[i + 1] <= times[i + 1] + windowMs;
      assert CountsFrom(times, i, windowMs, c + 1);
    }
  }

  lemma TooFewLeft(times: seq<int>, windowMs: int, threshold: nat, i: nat, spikes: seq<Spike>)
    requires Scanned(times, windowMs, threshold, i, spikes) && i > |times| - threshold
    ensures forall j: nat | OpensSpike(times, j, windowMs, threshold) :: Covered(spikes, j)
  {
    forall j: nat | OpensSpike(times, j, windowMs, threshold)
      ensures Covered(spikes, j)
    {
      assert j + threshold <= |times|;
    }
  }

  lemma {:induction false} InWindowOfSlices(a: seq<int>, b: seq<int>, from: int, to: int)
    ensures InWindow(a + b, from, to) == InWindow(a, from, to) + InWindow(b, from, to)
  {
    if b == [] {
      assert a + b == a;
    } else {
      var n := |b| - 1;
      InWindowOfSlices(a, b[..n], from, to);
      assert (a + b)[..|a + b| - 1] == a + b[..n];
    }
  }

  lemma {:induction false} AllOrNothing(times: seq<int>, from: int, to: int)
    ensures (forall i | 0 <= i < |times| :: from <= times[i] <= to) ==> InWindow(times, from, to) == |times|
    ensures (forall i | 0 <= i < |times| :: !(from <= times[i] <= to)) ==> InWindow(times, from, to) == 0
  {
    if times != [] {
      AllOrNothing(times[..|times| - 1], from, to);
    }
  }

  /** Counted from its first error, a window holds exactly the errors whose time lies in it. */
  lemma CountIsRecount(times: seq<int>, i: nat, windowMs: int, count: nat)
    requires Sorted(times) && i < |times| && CountsFrom(times, i, windowMs, count) && count >= 1
    requires forall j | 0 <= j < i :: times[j] < times[i]
    ensures count == InWindow(times, times[i], times[i] + windowMs)
  {
    var from, to := times[i], times[i] + windowMs;
    var before, inside, after := times[..i], times[i..i + count], times[i + count..];
    assert times == before + inside + after;
    InWindowOfSlices(before + inside, after, from, to);
    InWindowOfSlices(before, inside, from, to);
    EarlierAreOutside(times, i, to);
    LaterAreOutside(times, i + count, from, to);
    TheseAreInside(times, i, windowMs, count);
  }

  lemma TheseAreInside(times: seq<int>, i: nat, windowMs: int, count: nat)
    requires Sorted(times) && i < |times| && CountsFrom(times, i, windowMs, count)
    ensures InWindow(times[i..i + count], times[i], times[i] + windowMs) == count
  {
    var inside := times[i..i + count];
    assert forall k | 0 <= k < |inside| :: inside[k] == times[i + k];
    AllOrNothing(inside, times[i], times[i] + windowMs);
  }

  lemma EarlierAreOutside(times: seq<int>, i: nat, to: int)
    requires i < |times| && forall j | 0 <= j < i :: times[j] < times[i]
    ensures InWindow(times[..i], times[i], to) == 0
  {
    AllOrNothing(times[..i], times[i], to);
  }

  lemma LaterAreOutside(times: seq<int>, n: nat, from: int, to: int)
    requires n <= |times| && forall j | n <= j < |times| :: times[j] > to
    ensures InWindow(times[n..], from, to) == 0
  {
    AllOrNothing(times[n..], from, to);
  }
}
