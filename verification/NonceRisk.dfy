/** Exactly which runs of the nonce database can lose a nonce. */
module NonceRisk {
  import opened NonceStore

  /** The same start with other maps for the writers to save. */
  function WithMaps(s: State, maps: seq<Nonces>): State
    requires |maps| == |s.writers|
  {
    s.(writers := seq(|maps|, i requires 0 <= i < |maps| => Writer(maps[i], s.writers[i].phase)))
  }

  // ----- Which moves are possible does not depend on the maps -----

  predicate SamePhase(p: Phase, q: Phase) {
    match p
    case Waiting => q.Waiting?
    case Entered => q.Entered?
    case Loaded(_) => q.Loaded?
    case Replacing(_) => q.Replacing?
    case Written => q.Written?
    case Aborted => q.Aborted?
    case Done => q.Done?
    case GaveUp => q.GaveUp?
  }

  ghost predicate SameShape(s: State, t: State) {
    && s.locked == t.locked && |s.writers| == |t.writers|
    && forall i | 0 <= i < |s.writers| :: SamePhase(s.writers[i].phase, t.writers[i].phase)
  }

  lemma StepKeepsShape(s: State, t: State, mv: Move)
    requires SameShape(s, t) && Enabled(s, mv)
    ensures Enabled(t, mv) && SameShape(Take(s, mv), Take(t, mv))
  {
  }

  lemma {:induction false} MapsDoNotMatter(s: State, t: State, ms: seq<Move>)
    requires SameShape(s, t) && Playable(s, ms)
    ensures Playable(t, ms) && SameShape(Play(s, ms), Play(t, ms))
  {
    if ms != [] {
      var n := |ms| - 1;
      MapsDoNotMatter(s, t, ms[..n]);
      StepKeepsShape(Play(s, ms[..n]), Play(t, ms[..n]), ms[n]);
    }
  }

  // ----- Before it has written, a writer's map is not used -----

  /** The two states agree but for the map of writer `w`, which has not got beyond entering. */
  ghost predicate AgreeBut(s: State, t: State, w: nat) {
    && s.locked == t.locked && s.file == t.file && |s.writers| == |t.writers| && w < |s.writers|
    && s.writers[w].phase == t.writers[w].phase
    && forall i | 0 <= i < |s.writers| && i != w :: s.writers[i] == t.writers[i]
  }

  predicate Early(s: State, w: nat) {
    w < |s.writers| && (s.writers[w].phase.Waiting? || s.writers[w].phase.Entered?)
  }

  lemma StepKeepsAgreement(s: State, t: State, mv: Move, w: nat)
    requires AgreeBut(s, t, w) && Enabled(s, mv) && Early(s, w)
    ensures Enabled(t, mv) && AgreeBut(Take(s, mv), Take(t, mv), w)
  {
  }

  lemma StepsOnlyLeaveEarly(s: State, mv: Move, w: nat)
    requires Enabled(s, mv) && Early(Take(s, mv), w)
    ensures Early(s, w)
  {
  }

  lemma {:induction false} EarlierMapIsUnused(s: State, t: State, ms: seq<Move>, w: nat)
    requires AgreeBut(s, t, w) && Playable(s, ms) && Playable(t, ms) && Early(Play(s, ms), w)
    ensures AgreeBut(Play(s, ms), Play(t, ms), w)
  {
    if ms != [] {
      var n := |ms| - 1;
      StepsOnlyLeaveEarly(Play(s, ms[..n]), ms[n], w);
      EarlierMapIsUnused(s, t, ms[..n], w);
      StepKeepsAgreement(Play(s, ms[..n]), Play(t, ms[..n]), ms[n], w);
    }
  }

  // ----- The exact condition -----

  ghost predicate Lowers(s: State, mv: Move) {
    Enabled(s, mv) && !Below(Load(s.file), Load(Take(s, mv).file))
  }

  /** No move lowers a nonce, neither one that was made nor a plain write that could have come next. */
  ghost predicate NothingFalls(s: State, ms: seq<Move>)
    requires Playable(s, ms)
  {
    forall n: nat, mv: Move | n <= |ms| && (mv.act.Write? || (n < |ms| && mv == ms[n])) :: !Lowers(At(s, ms, n), mv)
  }

  ghost predicate Possible(s: State, ms: seq<Move>) {
    Initial(s) && Playable(s, ms)
  }

  ghost predicate AlwaysCareful(s: State, ms: seq<Move>)
    requires Possible(s, ms)
  {
    forall maps: seq<Nonces> | |maps| == |s.writers| ::
      Playable(WithMaps(s, maps), ms) && Careful(WithMaps(s, maps), ms)
  }

  ghost predicate NeverFalls(s: State, ms: seq<Move>)
    requires Possible(s, ms)
  {
    forall maps: seq<Nonces> | |maps| == |s.writers| ::
      Playable(WithMaps(s, maps), ms) && NothingFalls(WithMaps(s, maps), ms)
  }

  lemma WithMapsIsPossible(s: State, ms: seq<Move>, maps: seq<Nonces>)
    requires Possible(s, ms) && |maps| == |s.writers|
    ensures Possible(WithMaps(s, maps), ms)
  {
    MapsDoNotMatter(s, WithMaps(s, maps), ms);
  }

  lemma CarefulNeverFalls(s: State, ms: seq<Move>)
    requires Possible(s, ms) && Careful(s, ms)
    ensures NothingFalls(s, ms)
  {
    forall n: nat, mv: Move | n <= |ms| && (mv.act.Write? || (n < |ms| && mv == ms[n]))
      ensures !Lowers(At(s, ms, n), mv)
    {
      RunIsSafe(s, ms, n);
      if Enabled(At(s, ms, n), mv) {
        StepNeverLowers(At(s, ms, n), mv);
      }
    }
  }

  lemma FileWithoutMap(t: State, u: State, ms: seq<Move>, n: nat, w: nat)
    requires AgreeBut(t, u, w) && Playable(t, ms) && Playable(u, ms) && n < |ms| && ms[n] == Move(w, ReadFails)
    ensures At(t, ms, n).file == At(u, ms, n).file
  {
    AtNext(t, ms, n);
    PlayablePrefix(t, ms, n);
    PlayablePrefix(u, ms, n);
    EarlierMapIsUnused(t, u, ms[..n], w);
  }

  /** A writer with nothing to save whose read was swallowed would erase the file by its write. */
  lemma EmptyWriterErases(u: State, ms: seq<Move>, n: nat, w: nat)
    requires Playable(u, ms) && n < |ms| && ms[n] == Move(w, ReadFails) && Load(At(u, ms, n).file) != map[]
    requires w < |u.writers| && u.writers[w].local == map[]
    ensures !NothingFalls(u, ms)
  {
    AtNext(u, ms, n);
    LocalStays(u, ms, n, w);
    WriteOfNothing(At(u, ms, n), w);
    assert Lowers(At(u, ms, n + 1), Move(w, Write));
  }

  lemma WriteOfNothing(s: State, w: nat)
    requires Enabled(s, Move(w, ReadFails)) && s.writers[w].local == map[] && Load(s.file) != map[]
    ensures var after := Take(s, Move(w, ReadFails));
            Lowers(after, Move(w, Write))
  {
    var a :| a in Load(s.file);
    assert Merge(map[], map[]) == map[];
  }

  /** A swallowed read over a file with entries: had its writer nothing to save, its write would erase them. */
  lemma SwallowedReadCanErase(s: State, ms: seq<Move>, maps: seq<Nonces>, n: nat)
    requires Possible(s, ms) && |maps| == |s.writers| && Possible(WithMaps(s, maps), ms)
    requires n < |ms| && ms[n].act.ReadFails? && Load(At(WithMaps(s, maps), ms, n).file) != map[]
    ensures !NeverFalls(s, ms)
  {
    var w, t := ms[n].writer, WithMaps(s, maps);
    AtNext(t, ms, n);
    ShapeOfWriters(t, ms, n);
    var others := maps[w := map[]];
    WithMapsIsPossible(s, ms, others);
    var u := WithMaps(s, others);
    FileWithoutMap(t, u, ms, n, w);
    EmptyWriterErases(u, ms, n, w);
  }

  lemma {:induction false} ShapeOfWriters(s: State, ms: seq<Move>, n: nat)
    requires Playable(s, ms) && n <= |ms|
    ensures |At(s, ms, n).writers| == |s.writers|
  {
    if n > 0 {
      ShapeOfWriters(s, ms, n - 1);
      AtNext(s, ms, n - 1);
    }
  }

  lemma {:induction false} LocalStays(s: State, ms: seq<Move>, n: nat, w: nat)
    requires Playable(s, ms) && n <= |ms| && w < |s.writers|
    ensures |At(s, ms, n).writers| == |s.writers| && At(s, ms, n).writers[w].local == s.writers[w].local
  {
    if n > 0 {
      LocalStays(s, ms, n - 1, w);
      AtNext(s, ms, n - 1);
    }
  }

  lemma DeletionErases(s: State, ms: seq<Move>, n: nat)
    requires Playable(s, ms) && n < |ms| && ms[n].act.Unlink? && Load(At(s, ms, n).file) != map[]
    ensures !NothingFalls(s, ms)
  {
    AtNext(s, ms, n);
    var a :| a in Load(At(s, ms, n).file);
    assert Lowers(At(s, ms, n), ms[n]);
  }

  /**
   * For every start and every interleaving: whatever the writers have to save, no nonce on disk
   * falls, if and only if, whatever they have, no read is swallowed and no file deleted while the
   * file holds an entry.
   */
  lemma NeverFallsIff(s: State, ms: seq<Move>)
    requires Possible(s, ms)
    ensures NeverFalls(s, ms) <==> AlwaysCareful(s, ms)
  {
    forall maps: seq<Nonces> | |maps| == |s.writers|
      ensures Possible(WithMaps(s, maps), ms)
      ensures Careful(WithMaps(s, maps), ms) ==> NothingFalls(WithMaps(s, maps), ms)
      ensures NeverFalls(s, ms) ==> Careful(WithMaps(s, maps), ms)
    {
      WithMapsIsPossible(s, ms, maps);
      var t := WithMaps(s, maps);
      if Careful(t, ms) {
        CarefulNeverFalls(t, ms);
      } else {
        var n: nat :| n < |ms| && Risky(At(t, ms, n), ms[n]);
        if ms[n].act.ReadFails? {
          SwallowedReadCanErase(s, ms, maps, n);
        } else {
          DeletionErases(t, ms, n);
        }
      }
    }
  }

  /** One writer whose read is swallowed lowers a stored 10 to its own 3. */
  lemma SwallowedReadLowersNonce(s: State, ms: seq<Move>)
    requires s == State(false, Stored(map["GA" := 10]), [Writer(map["GA" := 3], Waiting)])
    requires ms == [Move(0, Acquire), Move(0, ReadFails), Move(0, Write)]
    ensures Possible(s, ms) && Load(Play(s, ms).file) == map["GA" := 3]
  {
    var mine: Nonces := map["GA" := 3];
    var entered := State(true, s.file, [Writer(mine, Entered)]);
    var loaded := State(true, s.file, [Writer(mine, Loaded(map[]))]);
    assert ms[..2][..1] == ms[..1] && ms[..1][..0] == [];
    assert Play(s, []) == s;
    assert Take(s, ms[0]) == entered;
    assert Take(entered, ms[1]) == loaded;
    assert Playable(s, ms[..1]) && Play(s, ms[..1]) == entered;
    assert Playable(s, ms[..2]) && Play(s, ms[..2]) == loaded;
    assert Merge(map[], mine) == mine;
  }
}
