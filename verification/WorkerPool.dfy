/** The queue-draining worker pool as a transition system over all interleavings of its workers. */
module WorkerPool {
  import opened Wrappers
  import opened Sequences

  /** `Running(i)` awaits task i; `Finished` has left its loop. */
  datatype Worker = Idle | Running(index: nat) | Finished

  /** `claims` records the values of the shared counter in the order in which workers took them. */
  datatype Pool<T> = Pool(next: nat, results: seq<Option<T>>, workers: seq<Worker>, claims: seq<nat>)

  function WorkerCount(tasks: nat, maxConcurrency: int): (n: nat)
    ensures n <= tasks && (maxConcurrency >= 0 ==> n <= maxConcurrency)
    ensures n == tasks || n == maxConcurrency || (n == 0 && maxConcurrency < 0)
  {
    if maxConcurrency < 0 then 0 else if maxConcurrency < tasks then maxConcurrency else tasks
  }

  function Start<T>(tasks: nat, maxConcurrency: int): Pool<T> {
    Pool(0, seq(tasks, _ => None), seq(WorkerCount(tasks, maxConcurrency), _ => Idle), [])
  }

  predicate CanStep<T>(p: Pool<T>, w: nat) {
    w < |p.workers| && !p.workers[w].Finished?
  }

  /** Up to its next `await`, a worker runs alone: test the counter and claim, or store a result. */
  function Step<T>(p: Pool<T>, w: nat, outcome: nat -> T): Pool<T>
    requires CanStep(p, w)
  {
    match p.workers[w]
    case Idle =>
      if p.next < |p.results| then
        p.(next := p.next + 1, workers := p.workers[w := Running(p.next)], claims := p.claims + [p.next])
      else p.(workers := p.workers[w := Finished])
    case Running(i) =>
      p.(results := if i < |p.results| then p.results[i := Some(outcome(i))] else p.results, workers := p.workers[w := Idle])
  }

  ghost predicate InFlight<T>(p: Pool<T>, i: nat) {
    Running(i) in p.workers
  }

  ghost predicate Quiescent<T>(p: Pool<T>) {
    forall w | 0 <= w < |p.workers| :: p.workers[w].Finished?
  }

  /** What every step keeps. */
  ghost predicate Sound<T>(p: Pool<T>, outcome: nat -> T) {
    && p.next <= |p.results| && p.claims == seq(p.next, i => i)
    && (forall v, w | 0 <= v < w < |p.workers| && p.workers[v].Running? :: p.workers[v] != p.workers[w])
    && (forall i | 0 <= i < |p.results| :: p.results[i].None? <==> p.next <= i || InFlight(p, i))
    && (forall i | 0 <= i < |p.results| && p.results[i].Some? :: p.results[i].value == outcome(i))
    && (forall w | 0 <= w < |p.workers| && p.workers[w].Running? :: p.workers[w].index < p.next)
    && (Finished in p.workers ==> p.next == |p.results|)
  }

  lemma StartIsSound<T>(tasks: nat, maxConcurrency: int, outcome: nat -> T)
    ensures Sound(Start(tasks, maxConcurrency), outcome)
  {
  }

  lemma ClaimKeepsSound<T>(p: Pool<T>, w: nat, outcome: nat -> T)
    requires Sound(p, outcome) && CanStep(p, w) && p.workers[w].Idle? && p.next < |p.results|
    ensures Sound(Step(p, w, outcome), outcome)
  {
    var q := Step(p, w, outcome);
    assert q.workers[w] == Running(p.next);
    assert forall v | 0 <= v < |p.workers| && v != w :: q.workers[v] == p.workers[v];
    forall i | 0 <= i < |p.results|
      ensures InFlight(q, i) <==> InFlight(p, i) || i == p.next
    {
      if InFlight(p, i) {
        var v :| 0 <= v < |p.workers| && p.workers[v] == Running(i);
        assert q.workers[v] == Running(i);
      }
    }
  }

  lemma CompleteKeepsSound<T>(p: Pool<T>, w: nat, outcome: nat -> T)
    requires Sound(p, outcome) && CanStep(p, w) && p.workers[w].Running?
    ensures Sound(Step(p, w, outcome), outcome)
  {
    var q := Step(p, w, outcome);
    assert forall v | 0 <= v < |p.workers| && v != w :: q.workers[v] == p.workers[v];
    forall i | 0 <= i < |p.results|
      ensures InFlight(q, i) <==> InFlight(p, i) && i != p.workers[w].index
    {
      if InFlight(p, i) && i != p.workers[w].index {
        var v :| 0 <= v < |p.workers| && p.workers[v] == Running(i);
        assert q.workers[v] == Running(i);
      }
    }
  }

  lemma RetireKeepsSound<T>(p: Pool<T>, w: nat, outcome: nat -> T)
    requires Sound(p, outcome) && CanStep(p, w) && p.workers[w].Idle? && p.next == |p.results|
    ensures Sound(Step(p, w, outcome), outcome)
  {
    var q := Step(p, w, outcome);
    assert forall v | 0 <= v < |p.workers| && v != w :: q.workers[v] == p.workers[v];
    forall i | 0 <= i < |p.results|
      ensures InFlight(q, i) <==> InFlight(p, i)
    {
      if InFlight(p, i) {
        var v :| 0 <= v < |p.workers| && p.workers[v] == Running(i);
        assert q.workers[v] == Running(i);
      }
    }
  }

  lemma StepKeepsSound<T>(p: Pool<T>, w: nat, outcome: nat -> T)
    requires Sound(p, outcome) && CanStep(p, w)
    ensures Sound(Step(p, w, outcome), outcome)
  {
    if p.workers[w].Running? {
      CompleteKeepsSound(p, w, outcome);
    } else if p.next < |p.results| {
      ClaimKeepsSound(p, w, outcome);
    } else {
      RetireKeepsSound(p, w, outcome);
    }
  }

  // ----- Progress -----

  function Weight(w: Worker): nat {
    match w
    case Idle => 1
    case Running(_) => 2
    case Finished => 0
  }

  function TotalWeight(ws: seq<Worker>): nat {
    if ws == [] then 0 else Weight(ws[0]) + TotalWeight(ws[1..])
  }

  /** Steps still to come: two for each unclaimed task, and what the workers have yet to do. */
  ghost function Remaining<T>(p: Pool<T>): nat
    requires p.next <= |p.results|
  {
    2 * (|p.results| - p.next) + TotalWeight(p.workers)
  }

  lemma {:induction false} WeightOfUpdate(ws: seq<Worker>, i: nat, w: Worker)
    requires i < |ws|
    ensures TotalWeight(ws[i := w]) == TotalWeight(ws) - Weight(ws[i]) + Weight(w)
  {
    if i == 0 {
      assert ws[i := w][1..] == ws[1..];
    } else {
      assert ws[i := w][1..] == ws[1..][i - 1 := w];
      WeightOfUpdate(ws[1..], i - 1, w);
    }
  }

  lemma StepMakesProgress<T>(p: Pool<T>, w: nat, outcome: nat -> T)
    requires Sound(p, outcome) && CanStep(p, w)
    ensures Step(p, w, outcome).next <= |Step(p, w, outcome).results|
    ensures Remaining(Step(p, w, outcome)) == Remaining(p) - 1
  {
    WeightOfUpdate(p.workers, w, Step(p, w, outcome).workers[w]);
  }

  lemma {:induction false} WeightOfFinished(ws: seq<Worker>)
    requires forall i | 0 <= i < |ws| :: ws[i].Finished?
    ensures TotalWeight(ws) == 0
  {
    if ws != [] {
      WeightOfFinished(ws[1..]);
    }
  }

  /** While a result is missing, some worker can step. */
  lemma NeverStuck<T>(p: Pool<T>, outcome: nat -> T, i: nat)
    requires Sound(p, outcome) && p.workers != [] && i < |p.results| && p.results[i].None?
    ensures exists w: nat :: CanStep(p, w)
  {
    if InFlight(p, i) {
      var w :| 0 <= w < |p.workers| && p.workers[w] == Running(i);
      assert CanStep(p, w);
    } else {
      assert p.workers[0] in p.workers;
      assert CanStep(p, 0);
    }
  }

  /** Once every worker has left, result i is the outcome of task i. */
  lemma AllDone<T>(p: Pool<T>, outcome: nat -> T)
    requires Sound(p, outcome) && Quiescent(p)
    requires p.workers != [] || p.results == []
    ensures forall i | 0 <= i < |p.results| :: p.results[i] == Some(outcome(i))
  {
    forall i | 0 <= i < |p.results|
      ensures p.results[i] == Some(outcome(i))
    {
      if p.results[i].None? {
        NeverStuck(p, outcome, i);
      }
    }
  }

  // ----- Whole runs -----

  ghost predicate IsRun<T>(run: seq<Pool<T>>, tasks: nat, maxConcurrency: int, outcome: nat -> T) {
    && run != [] && run[0] == Start(tasks, maxConcurrency)
    && forall i, j | 0 <= i < j < |run| && j == i + 1 :: exists w: nat :: CanStep(run[i], w) && run[j] == Step(run[i], w, outcome)
  }

  /**
   * In every state of every run, the claimed indices are 0, 1, 2, ... once each; no more tasks
   * are in flight than there are workers; and exactly n steps have been used up.
   */
  lemma {:induction false} RunIsSafe<T>(run: seq<Pool<T>>, tasks: nat, maxConcurrency: int, outcome: nat -> T, n: nat)
    requires IsRun(run, tasks, maxConcurrency, outcome) && n < |run|
    ensures Sound(run[n], outcome) && |run[n].results| == tasks
    ensures |run[n].workers| == WorkerCount(tasks, maxConcurrency)
    ensures |TasksInFlight(run[n])| <= WorkerCount(tasks, maxConcurrency)
    ensures |TasksInFlight(run[n])| <= tasks && (maxConcurrency >= 0 ==> |TasksInFlight(run[n])| <= maxConcurrency)
    ensures n + Remaining(run[n]) == Remaining(run[0])
  {
    if n == 0 {
      StartIsSound(tasks, maxConcurrency, outcome);
    } else {
      RunIsSafe(run, tasks, maxConcurrency, outcome, n - 1);
      var w: nat :| CanStep(run[n - 1], w) && run[n] == Step(run[n - 1], w, outcome);
      StepKeepsSound(run[n - 1], w, outcome);
      StepMakesProgress(run[n - 1], w, outcome);
    }
    InFlightBound(run[n]);
  }

  ghost function TasksInFlight<T>(p: Pool<T>): set<nat> {
    set w | w in p.workers && w.Running? :: w.index
  }

  lemma {:induction false} InFlightBound<T>(p: Pool<T>)
    ensures |TasksInFlight(p)| <= |p.workers|
    decreases |p.workers|
  {
    if p.workers != [] {
      var rest := p.(workers := p.workers[1..]);
      InFlightBound(rest);
      var first := if p.workers[0].Running? then {p.workers[0].index} else {};
      assert TasksInFlight(p) <= TasksInFlight(rest) + first;
      SubsetSize(TasksInFlight(p), TasksInFlight(rest) + first);
    }
  }

  /** Every run ends after the same number of steps, and where it ends every result is in place. */
  lemma MaximalRunCompletes<T>(run: seq<Pool<T>>, tasks: nat, maxConcurrency: int, outcome: nat -> T)
    requires IsRun(run, tasks, maxConcurrency, outcome) && maxConcurrency >= 1
    requires Quiescent(run[|run| - 1])
    ensures |run[|run| - 1].results| == tasks
    ensures forall i | 0 <= i < tasks :: run[|run| - 1].results[i] == Some(outcome(i))
    ensures run[|run| - 1].claims == seq(tasks, i => i)
    ensures |run| == Remaining(run[0]) + 1
  {
    var last := run[|run| - 1];
    RunIsSafe(run, tasks, maxConcurrency, outcome, |run| - 1);
    AllDone(last, outcome);
    WeightOfFinished(last.workers);
    if tasks > 0 {
      assert last.workers[0] in last.workers;
    }
  }

  /** The pool itself, with the scheduler free to let any worker go next. */
  method ProcessWithConcurrency<T>(tasks: nat, maxConcurrency: int, outcome: nat -> T) returns (results: seq<T>)
    requires maxConcurrency >= 1
    ensures |results| == tasks && forall i | 0 <= i < tasks :: results[i] == outcome(i)
  {
    var pool := Start(tasks, maxConcurrency);
    StartIsSound(tasks, maxConcurrency, outcome);
    while exists w :: 0 <= w < |pool.workers| && CanStep(pool, w)
      invariant Sound(pool, outcome) && |pool.results| == tasks
      invariant |pool.workers| == WorkerCount(tasks, maxConcurrency)
      decreases Remaining(pool)
    {
      var w :| 0 <= w < |pool.workers| && CanStep(pool, w);
      StepKeepsSound(pool, w, outcome);
      StepMakesProgress(pool, w, outcome);
      pool := Step(pool, w, outcome);
    }
    forall w | 0 <= w < |pool.workers|
      ensures pool.workers[w].Finished?
    {
      assert !CanStep(pool, w);
    }
    AllDone(pool, outcome);
    results := seq(tasks, i requires 0 <= i < tasks => pool.results[i].value);
  }
}
