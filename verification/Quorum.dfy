/** Who votes on a relayed answer, how the votes are counted, and why two quorums agree. */
module Quorum {
  import opened Sequences

  /** `url` is what identifies a configured endpoint; `priority` only orders the list. */
  datatype Endpoint = Endpoint(url: string, priority: int)

  /** The request target that an endpoint resolves to: two endpoints with one identity are one voter. */
  type Identity = string

  /** A secondary's answer, projected and canonicalised; `Rejected` if any step of that failed. */
  datatype Vote<T> = Rejected | Answer(text: T)

  datatype Verdict = Verified | Failed | Unavailable

  // ----- Voters -----

  function Identities(es: seq<Endpoint>, id: Endpoint -> Identity): set<Identity> {
    set e | e in es :: id(e)
  }

  /** The first endpoint of each identity not yet in `seen`. */
  function FirstOfEach(es: seq<Endpoint>, id: Endpoint -> Identity, seen: set<Identity>): seq<Endpoint> {
    if es == [] then []
    else if id(es[0]) in seen then FirstOfEach(es[1..], id, seen)
    else [es[0]] + FirstOfEach(es[1..], id, seen + {id(es[0])})
  }

  function Secondaries(es: seq<Endpoint>, id: Endpoint -> Identity, primary: Endpoint): seq<Endpoint> {
    FirstOfEach(es, id, {id(primary)})
  }

  method DistinctSecondaryEndpoints(es: seq<Endpoint>, id: Endpoint -> Identity, primary: Endpoint)
    returns (secondaries: seq<Endpoint>)
    ensures secondaries == Secondaries(es, id, primary)
  {
    var seen := {id(primary)};
    secondaries := [];
    for i := 0 to |es|
      invariant Secondaries(es, id, primary) == secondaries + FirstOfEach(es[i..], id, seen)
    {
      var candidate := es[i];
      assert es[i..][0] == candidate && es[i..][1..] == es[i + 1..];
      if id(candidate) !in seen {
        seen := seen + {id(candidate)};
        secondaries := secondaries + [candidate];
      }
    }
  }

  lemma {:induction false} FirstOfEachCovers(es: seq<Endpoint>, id: Endpoint -> Identity, seen: set<Identity>)
    ensures var ids := Each(FirstOfEach(es, id, seen), id);
            Distinct(ids) && Elements(ids) == Identities(es, id) - seen
  {
    if es != [] {
      var e := es[0];
      assert Identities(es, id) == {id(e)} + Identities(es[1..], id);
      if id(e) in seen {
        FirstOfEachCovers(es[1..], id, seen);
      } else {
        FirstOfEachCovers(es[1..], id, seen + {id(e)});
        var rest := Each(FirstOfEach(es[1..], id, seen + {id(e)}), id);
        var ids := Each(FirstOfEach(es, id, seen), id);
        assert ids == [id(e)] + rest;
        assert id(e) !in Elements(rest);
        assert Elements(ids) == {id(e)} + Elements(rest);
      }
    }
  }

  /** Whichever configured endpoint is primary, the voters are the distinct identities, once each. */
  lemma VotersAreTheIdentities(es: seq<Endpoint>, id: Endpoint -> Identity, primary: Endpoint)
    requires primary in es
    ensures var ids := [id(primary)] + Each(Secondaries(es, id, primary), id);
            Distinct(ids) && Elements(ids) == Identities(es, id) && |ids| == |Identities(es, id)|
  {
    FirstOfEachCovers(es, id, {id(primary)});
    var rest := Each(Secondaries(es, id, primary), id);
    var ids := [id(primary)] + rest;
    assert id(primary) !in Elements(rest);
    assert Elements(ids) == {id(primary)} + Elements(rest);
    DistinctSize(ids);
  }

  /** Where each secondary stands among the configured endpoints. */
  ghost predicate Positions(es: seq<Endpoint>, id: Endpoint -> Identity, found: seq<Endpoint>, at: seq<nat>) {
    && |at| == |found|
    && (forall k | 0 <= k < |at| :: IsFirst(es, id, at[k]) && found[k] == es[at[k]])
    && (forall k, l | 0 <= k < l < |at| :: at[k] < at[l])
  }

  /** Each secondary is the first configured endpoint of its identity, and they stand in configured order. */
  lemma {:induction false} SecondariesAreFirsts(es: seq<Endpoint>, id: Endpoint -> Identity, seen: set<Identity>) returns (at: seq<nat>)
    ensures Positions(es, id, FirstOfEach(es, id, seen), at)
  {
    if es == [] {
      at := [];
    } else if id(es[0]) in seen {
      var rest := SecondariesAreFirsts(es[1..], id, seen);
      at := PositionsBehind(es, id, seen, FirstOfEach(es[1..], id, seen), rest);
    } else {
      var later := seen + {id(es[0])};
      var rest := SecondariesAreFirsts(es[1..], id, later);
      var shifted := PositionsBehind(es, id, later, FirstOfEach(es[1..], id, later), rest);
      PositionInFront(es, id, FirstOfEach(es[1..], id, later), shifted);
      at := [0] + shifted;
    }
  }

  lemma PositionInFront(es: seq<Endpoint>, id: Endpoint -> Identity, found: seq<Endpoint>, at: seq<nat>)
    requires es != [] && Positions(es, id, found, at) && forall k | 0 <= k < |at| :: at[k] > 0
    ensures Positions(es, id, [es[0]] + found, [0] + at)
  {
    var f, a := [es[0]] + found, [0] + at;
    assert forall k | 1 <= k < |a| :: a[k] == at[k - 1] && f[k] == found[k - 1];
  }

  lemma {:induction false} PositionsBehind(es: seq<Endpoint>, id: Endpoint -> Identity, seen: set<Identity>, found: seq<Endpoint>, rest: seq<nat>)
    returns (at: seq<nat>)
    requires es != [] && id(es[0]) in seen && found == FirstOfEach(es[1..], id, seen) && Positions(es[1..], id, found, rest)
    ensures Positions(es, id, found, at) && forall k | 0 <= k < |at| :: at[k] > 0
  {
    at := Each(rest, (n: nat) => n + 1);
    FirstOfEachCovers(es[1..], id, seen);
    forall k | 0 <= k < |rest|
      ensures IsFirst(es, id, at[k]) && found[k] == es[at[k]]
    {
      var ids := Each(found, id);
      assert ids[k] in Elements(ids);
      FirstBehind(es, id, rest[k]);
    }
  }

  ghost predicate IsFirst(es: seq<Endpoint>, id: Endpoint -> Identity, i: nat) {
    i < |es| && forall j | 0 <= j < i :: id(es[j]) != id(es[i])
  }

  lemma FirstBehind(es: seq<Endpoint>, id: Endpoint -> Identity, i: nat)
    requires es != [] && IsFirst(es[1..], id, i) && id(es[i + 1]) != id(es[0])
    ensures IsFirst(es, id, i + 1)
  {
    forall j | 0 <= j < i + 1
      ensures id(es[j]) != id(es[i + 1])
    {
      if j > 0 {
        assert es[1..][j - 1] == es[j];
      }
    }
  }

  // ----- Counting -----

  function Matching<T(==)>(votes: seq<Vote<T>>, text: T): nat {
    if votes == [] then 0
    else Matching(votes[..|votes| - 1], text) + if votes[|votes| - 1] == Answer(text) then 1 else 0
  }

  function Missing<T(==)>(votes: seq<Vote<T>>): nat {
    if votes == [] then 0
    else Missing(votes[..|votes| - 1]) + if votes[|votes| - 1].Rejected? then 1 else 0
  }

  /** Votes that make a strict majority of the secondaries and the primary. */
  function Required(secondaries: nat): nat {
    (secondaries + 1) / 2 + 1
  }

  function Judge(secondaries: nat, matching: nat, missing: nat): Verdict {
    if matching >= Required(secondaries) then Verified
    else if matching + missing >= Required(secondaries) then Unavailable
    else Failed
  }

  /** The verdict on a primary text; the primary's own vote is counted as matching. */
  function VerdictOf<T(==)>(votes: seq<Vote<T>>, text: T): Verdict {
    Judge(|votes|, 1 + Matching(votes, text), Missing(votes))
  }

  method CountVotes<T(==)>(votes: seq<Vote<T>>, text: T) returns (verdict: Verdict)
    ensures verdict == VerdictOf(votes, text)
  {
    var matching, missing := 1, 0;
    for i := 0 to |votes|
      invariant matching == 1 + Matching(votes[..i], text) && missing == Missing(votes[..i])
    {
      assert votes[..i + 1][..i] == votes[..i];
      if votes[i].Rejected? {
        missing := missing + 1;
      } else if votes[i].text == text {
        matching := matching + 1;
      }
    }
    assert votes[..|votes|] == votes;
    verdict := Judge(|votes|, matching, missing);
  }

  // ----- What "failed" and "unavailable" mean -----

  /** `full` keeps every vote that was cast and supplies the rejected ones. */
  ghost predicate FillsIn<T>(votes: seq<Vote<T>>, full: seq<Vote<T>>) {
    && |full| == |votes|
    && forall i | 0 <= i < |votes| :: full[i].Answer? && (votes[i].Rejected? || full[i] == votes[i])
  }

  lemma {:induction false} FillingAddsAtMostMissing<T>(votes: seq<Vote<T>>, full: seq<Vote<T>>, text: T)
    requires FillsIn(votes, full)
    ensures Matching(full, text) <= Matching(votes, text) + Missing(votes)
  {
    if votes != [] {
      FillingAddsAtMostMissing(votes[..|votes| - 1], full[..|full| - 1], text);
    }
  }

  lemma {:induction false} BestFilling<T>(votes: seq<Vote<T>>, text: T) returns (full: seq<Vote<T>>)
    ensures FillsIn(votes, full) && Matching(full, text) == Matching(votes, text) + Missing(votes)
  {
    if votes == [] {
      full := [];
    } else {
      var n := |votes| - 1;
      var init := BestFilling(votes[..n], text);
      full := init + [if votes[n].Rejected? then Answer(text) else votes[n]];
      assert full[..n] == init;
    }
  }

  /** "Verified" is a strict majority already; "failed" is that no filling in could make one. */
  lemma VerdictMeaning<T(!new)>(votes: seq<Vote<T>>, text: T)
    ensures VerdictOf(votes, text) == Verified <==> 2 * (1 + Matching(votes, text)) > |votes| + 1
    ensures VerdictOf(votes, text) == Failed
      <==> forall full | FillsIn(votes, full) :: 2 * (1 + Matching(full, text)) <= |votes| + 1
  {
    if VerdictOf(votes, text) == Failed {
      forall full | FillsIn(votes, full)
        ensures 2 * (1 + Matching(full, text)) <= |votes| + 1
      {
        FillingAddsAtMostMissing(votes, full, text);
      }
    } else {
      var full := BestFilling(votes, text);
      assert 2 * (1 + Matching(full, text)) > |votes| + 1;
    }
  }

  // ----- Agreement of two quorums -----

  function Supporters<T(==)>(voters: set<Identity>, answer: Identity -> Vote<T>, text: T): set<Identity> {
    set v | v in voters && answer(v) == Answer(text)
  }

  lemma {:induction false} MatchingIsSupport<T>(ids: seq<Identity>, answer: Identity -> Vote<T>, text: T)
    requires Distinct(ids)
    ensures Matching(Each(ids, answer), text) == |Supporters(Elements(ids), answer, text)|
  {
    if ids == [] {
      assert Supporters(Elements(ids), answer, text) == {};
    } else {
      var n := |ids| - 1;
      var init := ids[..n];
      assert ids == init + [ids[n]];
      MatchingIsSupport(init, answer, text);
      assert Each(ids, answer)[..n] == Each(init, answer);
      assert ids[n] !in Elements(init) by { DistinctLast(init, ids[n]); }
      var smaller := Supporters(Elements(init), answer, text);
      assert Supporters(Elements(ids), answer, text)
        == if answer(ids[n]) == Answer(text) then smaller + {ids[n]} else smaller;
    }
  }

  /** The verdict with `primary` as primary, all answers fixed; `text` is the primary's own. */
  ghost predicate VerifiedBy<T>(es: seq<Endpoint>, id: Endpoint -> Identity, answer: Identity -> Vote<T>, primary: Endpoint, text: T) {
    && answer(id(primary)) == Answer(text)
    && VerdictOf(Each(Each(Secondaries(es, id, primary), id), answer), text) == Verified
  }

  lemma VerifiedHasMajority<T>(es: seq<Endpoint>, id: Endpoint -> Identity, answer: Identity -> Vote<T>, primary: Endpoint, text: T)
    requires primary in es && VerifiedBy(es, id, answer, primary, text)
    ensures 2 * |Supporters(Identities(es, id), answer, text)| > |Identities(es, id)|
  {
    VotersAreTheIdentities(es, id, primary);
    SupportWithPrimary(id(primary), Each(Secondaries(es, id, primary), id), answer, text);
  }

  lemma {:induction false} SupportWithPrimary<T>(primary: Identity, rest: seq<Identity>, answer: Identity -> Vote<T>, text: T)
    requires Distinct([primary] + rest) && answer(primary) == Answer(text)
    ensures |Supporters(Elements([primary] + rest), answer, text)| == 1 + Matching(Each(rest, answer), text)
  {
    DistinctFirst(primary, rest);
    MatchingIsSupport(rest, answer, text);
    SupportersOfUnion(primary, Elements(rest), answer, text);
  }

  lemma SupportersOfUnion<T>(v: Identity, voters: set<Identity>, answer: Identity -> Vote<T>, text: T)
    requires v !in voters && answer(v) == Answer(text)
    ensures |Supporters({v} + voters, answer, text)| == 1 + |Supporters(voters, answer, text)|
  {
    assert Supporters({v} + voters, answer, text) == {v} + Supporters(voters, answer, text);
  }

  /** Any two verified answers are the same text, whichever endpoints were primary. */
  lemma VerifiedAnswersAgree<T>(
    es: seq<Endpoint>, id: Endpoint -> Identity, answer: Identity -> Vote<T>, p: Endpoint, q: Endpoint, a: T, b: T)
    requires p in es && q in es
    requires VerifiedBy(es, id, answer, p, a) && VerifiedBy(es, id, answer, q, b)
    ensures a == b
  {
    VerifiedHasMajority(es, id, answer, p, a);
    VerifiedHasMajority(es, id, answer, q, b);
    var voters := Identities(es, id);
    var x, y := Supporters(voters, answer, a), Supporters(voters, answer, b);
    if a != b {
      assert x !! y;
      SubsetSize(x + y, voters);
      assert false;
    }
  }

}
