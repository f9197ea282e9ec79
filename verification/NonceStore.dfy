/** The nonce database: a read-merge-write under a lock directory, over all interleavings of writers. */
module NonceStore {
  import opened Sequences

  type Address = string

  type Nonces = map<Address, int>

  /** `Garbled` is any content that does not parse to an object. */
  datatype File = Absent | Garbled | Stored(nonces: Nonces)

  /** What a read that reaches the file returns; a missing or garbled one reads as empty. */
  function Load(file: File): Nonces {
    if file.Stored? then file.nonces else map[]
  }

  function Larger(a: int, b: int): int {
    if a < b then b else a
  }

  /** Per-address maximum of what is on disk and what a process knows. */
  function Merge(disk: Nonces, local: Nonces): Nonces {
    map a | a in disk.Keys + local.Keys ::
      if a !in disk then local[a] else if a !in local then disk[a] else Larger(disk[a], local[a])
  }

  /** `keys` is the order in which the local map is enumerated. */
  method MergeNonces(disk: Nonces, local: Nonces, keys: seq<Address>) returns (merged: Nonces)
    requires Distinct(keys) && Elements(keys) == local.Keys
    ensures merged == Merge(disk, local)
  {
    merged := disk;
    ghost var target, done := Merge(disk, local), {};
    for i := 0 to |keys|
      invariant done == Elements(keys[..i])
      invariant merged.Keys == disk.Keys + done
      invariant forall a | a in merged :: merged[a] == if a in done then target[a] else disk[a]
    {
      PrefixGrows(keys, i);
      var address, nonce := keys[i], local[keys[i]];
      merged := merged[address := if address !in merged then nonce else Larger(merged[address], nonce)];
      done := done + {address};
    }
    assert keys[..|keys|] == keys;
  }

  /** Every address known below is known above, with a nonce at least as high. */
  ghost predicate Below(low: Nonces, high: Nonces) {
    forall a | a in low :: a in high && low[a] <= high[a]
  }

  lemma MergeIsLeastUpperBound(disk: Nonces, local: Nonces)
    ensures Below(disk, Merge(disk, local)) && Below(local, Merge(disk, local))
    ensures forall high | Below(disk, high) && Below(local, high) :: Below(Merge(disk, local), high)
  {
  }

  // ----- The writers -----

  /**
   * The phases from `Entered` to `Aborted` are inside the lock. `Loaded` has read, `Replacing` has
   * deleted the file because renaming over it failed, and `Aborted` threw and has still to release.
   * `GaveUp` timed out or aborted.
   */
  datatype Phase = Waiting | Entered | Loaded(disk: Nonces) | Replacing(disk: Nonces) | Written | Aborted | Done | GaveUp

  datatype Writer = Writer(local: Nonces, phase: Phase)

  /** `locked` says whether the lock directory exists; nothing records who made it. */
  datatype State = State(locked: bool, file: File, writers: seq<Writer>)

  predicate Inside(w: Writer) {
    !w.phase.Waiting? && !w.phase.Done? && !w.phase.GaveUp?
  }

  predicate Committed(w: Writer) {
    w.phase.Written? || w.phase.Done?
  }

  ghost predicate Initial(s: State) {
    !s.locked && forall i | 0 <= i < |s.writers| :: s.writers[i].phase.Waiting?
  }

  /** `ReadFails` is an error that the read swallows: the writer goes on with an empty map. */
  datatype Action = Acquire | GiveUp | Read | ReadFails | Write | Unlink | Replace | Throw | Release | ReleaseFails

  datatype Move = Move(writer: nat, act: Action)

  predicate Enabled(s: State, mv: Move) {
    mv.writer < |s.writers| &&
    var phase := s.writers[mv.writer].phase;
    match mv.act
    case Acquire => phase.Waiting? && !s.locked
    case GiveUp => phase.Waiting?
    case Read => phase.Entered?
    case ReadFails => phase.Entered?
    case Write => phase.Loaded?
    case Unlink => phase.Loaded?
    case Replace => phase.Replacing?
    case Throw => phase.Loaded? || phase.Replacing?
    case Release => phase.Written? || phase.Aborted?
    case ReleaseFails => phase.Written? || phase.Aborted?
  }

  predicate Saving(mv: Move) {
    mv.act.Write? || mv.act.Replace?
  }

  function NextPhase(s: State, mv: Move): Phase
    requires Enabled(s, mv)
  {
    var phase := s.writers[mv.writer].phase;
    match mv.act
    case Acquire => Entered
    case GiveUp => GaveUp
    case Read => Loaded(Load(s.file))
    case ReadFails => Loaded(map[])
    case Write => Written
    case Unlink => Replacing(phase.disk)
    case Replace => Written
    case Throw => Aborted
    case Release => if phase.Written? then Done else GaveUp
    case ReleaseFails => if phase.Written? then Done else GaveUp
  }

  /** One atomic step of one writer. */
  function Take(s: State, mv: Move): State
    requires Enabled(s, mv)
  {
    var w := s.writers[mv.writer];
    State(
      if mv.act.Acquire? then true else if mv.act.Release? then false else s.locked,
      if Saving(mv) then Stored(Merge(w.phase.disk, w.local)) else if mv.act.Unlink? then Absent else s.file,
      s.writers[mv.writer := Writer(w.local, NextPhase(s, mv))])
  }

  // ----- Runs: a start and the moves made from it, in any interleaving -----

  ghost predicate Playable(s: State, ms: seq<Move>)
    decreases |ms|, 0
  {
    ms == [] || (Playable(s, ms[..|ms| - 1]) && Enabled(Play(s, ms[..|ms| - 1]), ms[|ms| - 1]))
  }

  ghost function Play(s: State, ms: seq<Move>): State
    requires Playable(s, ms)
    decreases |ms|, 1
  {
    if ms == [] then s else Take(Play(s, ms[..|ms| - 1]), ms[|ms| - 1])
  }

  lemma {:induction false} PlayablePrefix(s: State, ms: seq<Move>, n: nat)
    requires Playable(s, ms) && n <= |ms|
    ensures Playable(s, ms[..n])
    ensures n < |ms| ==> Enabled(Play(s, ms[..n]), ms[n])
    decreases |ms|
  {
    if n < |ms| {
      var init := ms[..|ms| - 1];
      assert init[..n] == ms[..n];
      PlayablePrefix(s, init, n);
    } else {
      assert ms[..n] == ms;
    }
  }

  /** The state after the first `n` moves. */
  ghost function At(s: State, ms: seq<Move>, n: nat): State
    requires Playable(s, ms) && n <= |ms|
  {
    PlayablePrefix(s, ms, n);
    Play(s, ms[..n])
  }

  lemma AtNext(s: State, ms: seq<Move>, n: nat)
    requires Playable(s, ms) && n < |ms|
    ensures Enabled(At(s, ms, n), ms[n]) && At(s, ms, n + 1) == Take(At(s, ms, n), ms[n])
  {
    PlayablePrefix(s, ms, n);
    PlayablePrefix(s, ms, n + 1);
    assert ms[..n + 1][..n] == ms[..n];
  }

  // ----- Mutual exclusion, whatever fails -----

  ghost predicate Exclusive(s: State) {
    && (forall i, j | 0 <= i < |s.writers| && 0 <= j < |s.writers| && Inside(s.writers[i]) && Inside(s.writers[j]) :: i == j)
    && (forall i | 0 <= i < |s.writers| && Inside(s.writers[i]) :: s.locked)
  }

  lemma StepKeepsExclusion(s: State, mv: Move)
    requires Exclusive(s) && Enabled(s, mv)
    ensures Exclusive(Take(s, mv))
  {
  }

  /** In every state of every run, at most one writer is inside. */
  lemma {:induction false} RunIsExclusive(s: State, ms: seq<Move>, n: nat)
    requires Initial(s) && Playable(s, ms) && n <= |ms|
    ensures Exclusive(At(s, ms, n))
  {
    if n > 0 {
      RunIsExclusive(s, ms, n - 1);
      AtNext(s, ms, n - 1);
      StepKeepsExclusion(At(s, ms, n - 1), ms[n - 1]);
    }
  }

  /** The lock directory is there and nobody is inside to remove it. */
  ghost predicate Abandoned(s: State) {
    s.locked && forall i | 0 <= i < |s.writers| :: !Inside(s.writers[i])
  }

  /** After a release that failed, no writer ever enters again, and the file stays as it is. */
  lemma {:induction false} FailedReleaseIsForever(s: State, ms: seq<Move>, m: nat, n: nat)
    requires Initial(s) && Playable(s, ms) && m < n <= |ms| && ms[m].act.ReleaseFails?
    ensures Abandoned(At(s, ms, n)) && At(s, ms, n).file == At(s, ms, m).file
    decreases n
  {
    AtNext(s, ms, n - 1);
    if m + 1 == n {
      RunIsExclusive(s, ms, m);
    } else {
      FailedReleaseIsForever(s, ms, m, n - 1);
    }
  }

  /** While the lock is free, a waiting writer can save undisturbed: the file becomes the merge, and the lock is free again. */
  lemma {:induction false} UndisturbedSave(s: State, w: nat)
    requires w < |s.writers| && s.writers[w].phase.Waiting? && !s.locked
    ensures var ms := [Move(w, Acquire), Move(w, Read), Move(w, Write), Move(w, Release)];
            && Playable(s, ms) && !Play(s, ms).locked && Load(Play(s, ms).file) == Merge(Load(s.file), s.writers[w].local)
            && Play(s, ms).writers == s.writers[w := Writer(s.writers[w].local, Done)]
  {
    var a, r, u, x := Move(w, Acquire), Move(w, Read), Move(w, Write), Move(w, Release);
    assert [] + [a] == [a] && [a] + [r] == [a, r] && [a, r] + [u] == [a, r, u] && [a, r, u] + [x] == [a, r, u, x];
    PlayOne(s, [], a);
    PlayOne(s, [a], r);
    PlayOne(s, [a, r], u);
    PlayOne(s, [a, r, u], x);
  }

  lemma PlayOne(s: State, ms: seq<Move>, mv: Move)
    requires Playable(s, ms) && Enabled(Play(s, ms), mv)
    ensures Playable(s, ms + [mv]) && Play(s, ms + [mv]) == Take(Play(s, ms), mv)
  {
    assert (ms + [mv])[..|ms|] == ms;
  }

  // ----- The file, when no stored entry is overlooked -----

  /** Entries of the file are overlooked by a swallowed read, or deleted before they are replaced. */
  ghost predicate Risky(s: State, mv: Move) {
    (mv.act.ReadFails? || mv.act.Unlink?) && Load(s.file) != map[]
  }

  ghost predicate Careful(s: State, ms: seq<Move>)
    requires Playable(s, ms)
  {
    forall n: nat | n < |ms| :: !Risky(At(s, ms, n), ms[n])
  }

  /** A writer that has read still knows what the file holds. */
  ghost predicate Informed(s: State) {
    forall i | 0 <= i < |s.writers| && (s.writers[i].phase.Loaded? || s.writers[i].phase.Replacing?) ::
      s.writers[i].phase.disk == Load(s.file)
  }

  lemma StepKeepsInformed(s: State, mv: Move)
    requires Exclusive(s) && Informed(s) && Enabled(s, mv) && !Risky(s, mv)
    ensures Informed(Take(s, mv))
  {
  }

  lemma StepNeverLowers(s: State, mv: Move)
    requires Informed(s) && Enabled(s, mv) && !Risky(s, mv)
    ensures Below(Load(s.file), Load(Take(s, mv).file))
  {
  }

  /** The file is the pointwise maximum of `start` and the maps of all writers that have written. */
  ghost predicate Accumulated(start: Nonces, s: State) {
    var disk := Load(s.file);
    && Below(start, disk)
    && (forall i | 0 <= i < |s.writers| && Committed(s.writers[i]) :: Below(s.writers[i].local, disk))
    && (forall a | a in disk :: Sourced(start, s.writers, a, disk[a]))
  }

  ghost predicate Sourced(start: Nonces, writers: seq<Writer>, a: Address, nonce: int) {
    || (a in start && start[a] == nonce)
    || exists i :: 0 <= i < |writers| && Committed(writers[i]) && a in writers[i].local && writers[i].local[a] == nonce
  }

  lemma StepKeepsSources(start: Nonces, s: State, mv: Move, a: Address, nonce: int)
    requires Enabled(s, mv) && Sourced(start, s.writers, a, nonce)
    ensures Sourced(start, Take(s, mv).writers, a, nonce)
  {
    var after := Take(s, mv).writers;
    if !(a in start && start[a] == nonce) {
      var k :| 0 <= k < |s.writers| && Committed(s.writers[k]) && a in s.writers[k].local && s.writers[k].local[a] == nonce;
      assert Committed(after[k]) && after[k].local == s.writers[k].local;
    }
  }

  lemma StepKeepsMaximum(start: Nonces, s: State, mv: Move)
    requires Informed(s) && Accumulated(start, s) && Enabled(s, mv) && !Risky(s, mv)
    ensures Accumulated(start, Take(s, mv))
  {
    var t := Take(s, mv);
    var disk := Load(t.file);
    StepNeverLowers(s, mv);
    forall k | 0 <= k < |t.writers| && Committed(t.writers[k])
      ensures Below(t.writers[k].local, disk)
    {
      if k != mv.writer || !Saving(mv) {
        assert Committed(s.writers[k]);
      }
    }
    forall a | a in disk
      ensures Sourced(start, t.writers, a, disk[a])
    {
      if a in Load(s.file) && disk[a] == Load(s.file)[a] {
        StepKeepsSources(start, s, mv, a, disk[a]);
      } else {
        assert Committed(t.writers[mv.writer]) && t.writers[mv.writer].local[a] == disk[a];
      }
    }
  }

  /** In every state of every careful run the file is exactly the maximum of the start and all completed writers. */
  lemma {:induction false} RunIsSafe(s: State, ms: seq<Move>, n: nat)
    requires Initial(s) && Playable(s, ms) && Careful(s, ms) && n <= |ms|
    ensures Exclusive(At(s, ms, n)) && Informed(At(s, ms, n)) && Accumulated(Load(s.file), At(s, ms, n))
  {
    RunIsExclusive(s, ms, n);
    if n > 0 {
      RunIsSafe(s, ms, n - 1);
      AtNext(s, ms, n - 1);
      StepKeepsInformed(At(s, ms, n - 1), ms[n - 1]);
      StepKeepsMaximum(Load(s.file), At(s, ms, n - 1), ms[n - 1]);
    }
  }

  /** No address's nonce on disk ever goes down in a careful run. */
  lemma {:induction false} RunNeverLowers(s: State, ms: seq<Move>, m: nat, n: nat)
    requires Initial(s) && Playable(s, ms) && Careful(s, ms) && m <= n <= |ms|
    ensures Below(Load(At(s, ms, m).file), Load(At(s, ms, n).file))
    decreases n - m
  {
    if m < n {
      RunNeverLowers(s, ms, m, n - 1);
      RunIsSafe(s, ms, n - 1);
      AtNext(s, ms, n - 1);
      StepNeverLowers(At(s, ms, n - 1), ms[n - 1]);
    }
  }
}
