/** The relay: replay-aware failover, cross-endpoint verification and the audit log. */
module Relay {
  import opened Wrappers
  import opened Sequences
  import opened Text
  import opened Quorum
  import K = KeyOrder
  import J = CanonicalJson
  import V = JsonNormalization

  datatype RequestMethod = GET | POST | PUT | DELETE

  /** `target` is the path that each endpoint resolves against its own address. */
  datatype Request = Request(id: string, verb: RequestMethod, target: string, idempotent: bool, idempotencyKey: Option<string>)

  datatype Status = VerifiedStatus | NotVerified | NoQuorum | Skipped

  /** `endpointUsed` is None where the source writes "none". */
  datatype Response<D> = Response(requestId: string, success: bool, data: Option<D>, endpointUsed: Option<Endpoint>, status: Status)

  /** A call made for its answer, as opposed to a call that asks for a vote. */
  datatype Try = Try(call: nat, endpoint: Endpoint)

  predicate Replayable(r: Request) {
    r.verb == GET || r.idempotent || r.idempotencyKey.Some?
  }

  predicate InvalidKey(r: Request) {
    r.idempotencyKey.Some? && Blank(r.idempotencyKey.value)
  }

  function AtLeastZero(n: int): nat {
    if n < 0 then 0 else n
  }

  /**
   * `net(n, e)` is what the n-th call made through this bridge brings back from endpoint `e`,
   * None if it throws. `canonical` projects a response and canonicalises it, None if that throws.
   */
  class Bridge<D(!new)> {
    const endpoints: seq<Endpoint>
    const maxRetries: int
    const requireVerification: bool
    const identity: (Request, Endpoint) -> Identity
    const canonical: (Request, D) -> Option<K.Text>
    const net: (nat, Endpoint) -> Option<D>
    var calls: nat
    var auditLog: seq<Response<D>>

    constructor (endpoints: seq<Endpoint>, maxRetries: int, requireVerification: bool, identity: (Request, Endpoint) -> Identity,
                 canonical: (Request, D) -> Option<K.Text>, net: (nat, Endpoint) -> Option<D>)
      ensures this.endpoints == endpoints && this.maxRetries == maxRetries && this.requireVerification == requireVerification
      ensures this.identity == identity && this.canonical == canonical && this.net == net
      ensures calls == 0 && auditLog == []
    {
      this.endpoints, this.maxRetries, this.requireVerification := endpoints, maxRetries, requireVerification;
      this.identity, this.canonical, this.net := identity, canonical, net;
      this.calls, this.auditLog := 0, [];
    }

    function IdentityFor(request: Request): Endpoint -> Identity {
      e => identity(request, e)
    }

    ghost function Voters(request: Request): set<Identity> {
      Identities(endpoints, IdentityFor(request))
    }

    function OthersThan(request: Request, e: Endpoint): seq<Endpoint> {
      Secondaries(endpoints, IdentityFor(request), e)
    }

    /** How a secondary's answer counts. */
    function VoteFor(request: Request, answer: Option<D>): Vote<K.Text> {
      if answer.None? then Rejected
      else match canonical(request, answer.value)
           case None => Rejected
           case Some(t) => Answer(t)
    }

    /** The votes of one round whose first call has number `base`. */
    function Round(request: Request, base: nat, secondaries: seq<Endpoint>): (votes: seq<Vote<K.Text>>)
      ensures |votes| == |secondaries|
      ensures forall i | 0 <= i < |votes| :: votes[i] == VoteFor(request, net(base + i, secondaries[i]))
    {
      seq(|secondaries|, i requires 0 <= i < |secondaries| => VoteFor(request, net(base + i, secondaries[i])))
    }

    /** Somebody else to ask, and something to compare. */
    predicate Verifiable(request: Request, data: D, e: Endpoint) {
      OthersThan(request, e) != [] && canonical(request, data).Some?
    }

    /** The verdict on `data` from `e` when the round's first call has number `base`. */
    function RoundVerdict(request: Request, data: D, e: Endpoint, base: nat): Verdict {
      if Verifiable(request, data, e) then
        VerdictOf(Round(request, base, OthersThan(request, e)), canonical(request, data).value)
      else Unavailable
    }

    method Execute(e: Endpoint) returns (answer: Option<D>)
      modifies this`calls
      ensures calls == old(calls) + 1 && answer == net(old(calls), e)
    {
      answer := net(calls, e);
      calls := calls + 1;
    }

    /** Asks every other voter once, or nobody. */
    method VerifyAtomicity(request: Request, response: D, e: Endpoint) returns (verdict: Verdict)
      modifies this`calls
      ensures calls == old(calls) + if Verifiable(request, response, e) then |OthersThan(request, e)| else 0
      ensures verdict == RoundVerdict(request, response, e, old(calls))
      ensures OthersThan(request, e) == [] || canonical(request, response).None? ==> verdict == Unavailable
      ensures OthersThan(request, e) != [] && canonical(request, response).Some? ==>
        verdict == VerdictOf(Round(request, old(calls), OthersThan(request, e)), canonical(request, response).value)
    {
      var secondaries := DistinctSecondaryEndpoints(endpoints, IdentityFor(request), e);
      if secondaries == [] || canonical(request, response).None? {
        return Unavailable;
      }
      var votes: seq<Vote<K.Text>> := [];
      for i := 0 to |secondaries|
        invariant calls == old(calls) + i
        invariant votes == Round(request, old(calls), secondaries[..i])
      {
        var answer := Execute(secondaries[i]);
        votes := votes + [VoteFor(request, answer)];
      }
      assert secondaries[..|secondaries|] == secondaries;
      verdict := CountVotes(votes, canonical(request, response).value);
    }

    /** A strict majority of the distinct voters, the primary among them, gave the text of `data`. */
    ghost predicate MajorityMatched(request: Request, data: D, primary: Endpoint, base: nat) {
      exists m: set<Identity> ::
        && m <= Voters(request) && 2 * |m| > |Voters(request)|
        && forall v | v in m :: v == identity(request, primary) || SecondaryMatched(request, data, primary, base, v)
    }

    ghost predicate SecondaryMatched(request: Request, data: D, primary: Endpoint, base: nat, v: Identity) {
      var secondaries := OthersThan(request, primary);
      canonical(request, data).Some? && exists i ::
        && 0 <= i < |secondaries| && identity(request, secondaries[i]) == v
        && VoteFor(request, net(base + i, secondaries[i])) == Answer(canonical(request, data).value)
    }

    lemma SupporterMatched(request: Request, data: D, primary: Endpoint, base: nat, v: Identity)
      requires canonical(request, data).Some? && v != identity(request, primary)
      requires var secondaries := OthersThan(request, primary);
               var ids := Each(secondaries, IdentityFor(request));
               v in ids && Round(request, base, secondaries)[FirstIndex(ids, v)] == Answer(canonical(request, data).value)
      ensures SecondaryMatched(request, data, primary, base, v)
    {
      var secondaries := OthersThan(request, primary);
      var ids := Each(secondaries, IdentityFor(request));
      var i := FirstIndex(ids, v);
      assert ids[i] == identity(request, secondaries[i]);
    }

    lemma VerifiedRoundHasMajority(request: Request, data: D, primary: Endpoint, base: nat)
      requires primary in endpoints && RoundVerdict(request, data, primary, base) == Verified
      ensures MajorityMatched(request, data, primary, base)
    {
      var id, text, secondaries := IdentityFor(request), canonical(request, data).value, OthersThan(request, primary);
      var ids, votes := Each(secondaries, id), Round(request, base, secondaries);
      var answer := RoundAnswers(id(primary), text, ids, votes);
      VotersAreTheIdentities(endpoints, id, primary);
      RoundAnswersAgree(id(primary), text, ids, votes);
      VerifiedHasMajority(endpoints, id, answer, primary, text);
      var m := Supporters(Voters(request), answer, text);
      forall v | v in m
        ensures v == id(primary) || SecondaryMatched(request, data, primary, base, v)
      {
        if v != id(primary) {
          SupporterMatched(request, data, primary, base, v);
        }
      }
    }

    method RecordResponse(response: Response<D>) returns (r: Response<D>)
      modifies this`auditLog
      ensures r == response && auditLog == old(auditLog) + [response]
    {
      auditLog := auditLog + [response];
      r := response;
    }

    /** The most calls that one relay may make. */
    ghost function CallLimit(request: Request): nat {
      if InvalidKey(request) then 0
      else if Replayable(request) then |endpoints| * AtLeastZero(maxRetries) * |Voters(request)|
      else 1
    }

    /** The attempts that must have been made before a relay gives up. */
    ghost function AttemptsDue(request: Request): nat {
      if InvalidKey(request) then 0
      else if Replayable(request) then |endpoints| * AtLeastZero(maxRetries)
      else if endpoints == [] then 0 else 1
    }

    /** Whether answers to `request` are compared across endpoints at all. */
    predicate Compared(request: Request) {
      requireVerification && Replayable(request)
    }

    /**
     * The answer that call `n` brought back from `e` decides the response: it is passed on unseen
     * when nothing is to be compared, otherwise by the verdict of the round that follows.
     */
    ghost predicate DecidedBy(request: Request, r: Response<D>, e: Endpoint, n: nat) {
      && net(n, e).Some?
      && match r.status
         case Skipped => r.success && r.data == net(n, e) && !Compared(request)
         case VerifiedStatus =>
           && r.success && r.data == net(n, e) && Compared(request)
           && RoundVerdict(request, net(n, e).value, e, n + 1) == Verified
           && MajorityMatched(request, net(n, e).value, e, n + 1)
         case NoQuorum =>
           && !r.success && r.data.None? && Compared(request)
           && RoundVerdict(request, net(n, e).value, e, n + 1) == Unavailable
         case NotVerified => false
    }

    ghost predicate Answered(t: Try) {
      net(t.call, t.endpoint).Some?
    }

    /** The answer was compared, and the other voters outvoted it. */
    ghost predicate Outvoted(request: Request, t: Try) {
      Answered(t) && Compared(request) && RoundVerdict(request, net(t.call, t.endpoint).value, t.endpoint, t.call + 1) == Failed
    }

    ghost predicate Fruitless(request: Request, t: Try) {
      !Answered(t) || Outvoted(request, t)
    }

    ghost predicate AllFruitless(request: Request, tried: seq<Try>) {
      forall i | 0 <= i < |tried| :: Fruitless(request, tried[i])
    }

    ghost predicate AnyOutvoted(request: Request, tried: seq<Try>) {
      exists i :: 0 <= i < |tried| && Outvoted(request, tried[i])
    }

    /** The status reported when every try was fruitless. */
    ghost function FinalStatus(request: Request, tried: seq<Try>): Status {
      if AnyOutvoted(request, tried) then NotVerified else Skipped
    }

    /** The calls of the tries rise, from `lo` on and below `hi`. */
    ghost predicate MadeBetween(tried: seq<Try>, lo: nat, hi: nat) {
      && (forall i | 0 <= i < |tried| :: lo <= tried[i].call < hi)
      && (forall i, j | 0 <= i < j < |tried| :: tried[i].call < tried[j].call)
    }

    /** The tries go through the endpoints in order, `perEndpoint` at each. */
    ghost predicate InOrder(tried: seq<Try>, perEndpoint: nat) {
      forall i | 0 <= i < |tried| ::
        perEndpoint > 0 && Quotient(i, perEndpoint) < |endpoints| && tried[i].endpoint == endpoints[Quotient(i, perEndpoint)]
    }

    ghost function PerEndpoint(request: Request): nat {
      if Replayable(request) then AtLeastZero(maxRetries) else 1
    }

    /** The last try decides the response, and all before it were fruitless. */
    ghost predicate SettledBy(request: Request, r: Response<D>, tried: seq<Try>) {
      && tried != [] && AllFruitless(request, tried[..|tried| - 1])
      && r.requestId == request.id && r.endpointUsed == Some(tried[|tried| - 1].endpoint)
      && DecidedBy(request, r, tried[|tried| - 1].endpoint, tried[|tried| - 1].call)
    }

    /** Why a relay that made these tries responds as it does: one settled it, or every one due was fruitless. */
    ghost predicate Explained(request: Request, r: Response<D>, tried: seq<Try>) {
      if r.endpointUsed.Some? then SettledBy(request, r, tried)
      else
        && r == Response(request.id, false, None, None, FinalStatus(request, tried))
        && AllFruitless(request, tried) && |tried| == AttemptsDue(request)
    }

    /** What the relay makes of a verdict: None means try again. */
    function ResponseTo(request: Request, e: Endpoint, data: D, verdict: Verdict): Option<Response<D>> {
      match verdict
      case Verified => Some(Response(request.id, true, Some(data), Some(e), VerifiedStatus))
      case Unavailable => Some(Response(request.id, false, None, Some(e), NoQuorum))
      case Failed => None
    }

    lemma DecidedIsSettled(request: Request, r: Response<D>, e: Endpoint, n: nat)
      requires r.requestId == request.id && r.endpointUsed == Some(e) && DecidedBy(request, r, e, n)
      ensures SettledBy(request, r, [Try(n, e)])
    {
    }

    lemma UncomparedSettles(request: Request, e: Endpoint, n: nat)
      requires net(n, e).Some? && !Compared(request)
      ensures SettledBy(request, Response(request.id, true, net(n, e), Some(e), Skipped), [Try(n, e)])
    {
      DecidedIsSettled(request, Response(request.id, true, net(n, e), Some(e), Skipped), e, n);
    }

    lemma VerdictSettles(request: Request, e: Endpoint, n: nat, verdict: Verdict)
      requires e in endpoints && Compared(request) && net(n, e).Some?
      requires verdict == RoundVerdict(request, net(n, e).value, e, n + 1)
      ensures var r := ResponseTo(request, e, net(n, e).value, verdict);
              if r.Some? then SettledBy(request, r.value, [Try(n, e)]) else Outvoted(request, Try(n, e))
    {
      if verdict == Verified {
        VerifiedRoundHasMajority(request, net(n, e).value, e, n + 1);
      }
      var r := ResponseTo(request, e, net(n, e).value, verdict);
      if r.Some? {
        DecidedIsSettled(request, r.value, e, n);
      }
    }

    lemma VoterCount(request: Request, e: Endpoint)
      requires e in endpoints
      ensures |Voters(request)| == 1 + |OthersThan(request, e)|
    {
      VotersAreTheIdentities(endpoints, IdentityFor(request), e);
    }

    /** One attempt at one endpoint: Some(response) ends the relay, None means try again. */
    method Attempt(request: Request, e: Endpoint, last: Status) returns (outcome: Option<Response<D>>, status: Status)
      requires e in endpoints
      modifies this`calls
      ensures old(calls) < calls <= old(calls) + if Replayable(request) then |Voters(request)| else 1
      ensures outcome.Some? ==> SettledBy(request, outcome.value, [Try(old(calls), e)])
      ensures outcome.None? ==> Fruitless(request, Try(old(calls), e))
      ensures outcome.None? ==> status == if Outvoted(request, Try(old(calls), e)) then NotVerified else last
    {
      outcome, status := None, last;
      VoterCount(request, e);
      var answer := Execute(e);
      if answer.Some? {
        if !requireVerification || !Replayable(request) {
          UncomparedSettles(request, e, old(calls));
          outcome := Some(Response(request.id, true, answer, Some(e), Skipped));
        } else {
          var verdict := VerifyAtomicity(request, answer.value, e);
          VerdictSettles(request, e, old(calls), verdict);
          outcome := ResponseTo(request, e, answer.value, verdict);
          status := if outcome.None? then NotVerified else last;
        }
      }
    }

    /** Tries so far, all fruitless, with the status they leave. */
    ghost predicate Continuing(request: Request, tried: seq<Try>, status: Status) {
      AllFruitless(request, tried) && status == FinalStatus(request, tried)
    }

    lemma OneMoreFruitless(request: Request, tried: seq<Try>, status: Status, t: Try)
      requires Continuing(request, tried, status) && Fruitless(request, t)
      ensures Continuing(request, tried + [t], if Outvoted(request, t) then NotVerified else status)
    {
      var longer := tried + [t];
      assert longer[|tried|] == t && forall i | 0 <= i < |tried| :: longer[i] == tried[i];
    }

    lemma OneMoreMade(tried: seq<Try>, lo: nat, n: nat, hi: nat, e: Endpoint)
      requires MadeBetween(tried, lo, n) && lo <= n < hi
      ensures MadeBetween(tried + [Try(n, e)], lo, hi)
    {
    }

    lemma SettledLater(request: Request, r: Response<D>, tried: seq<Try>, t: Try)
      requires AllFruitless(request, tried) && SettledBy(request, r, [t])
      ensures SettledBy(request, r, tried + [t])
    {
      assert (tried + [t])[..|tried|] == tried;
    }

    lemma OneMoreInOrder(tried: seq<Try>, i: nat, j: nat, perEndpoint: nat, n: nat)
      requires InOrder(tried, perEndpoint) && |tried| == i * perEndpoint + j && j < perEndpoint && i < |endpoints|
      ensures InOrder(tried + [Try(n, endpoints[i])], perEndpoint)
    {
      QuotientIs(i, j, perEndpoint);
    }

    /** The attempts at endpoint `i`, after `tried`; `cost` bounds the calls of each. */
    method TryEndpoint(request: Request, i: nat, attemptsPerEndpoint: int, last: Status, ghost before: seq<Try>, ghost lo: nat, ghost cost: nat)
      returns (outcome: Option<Response<D>>, status: Status, ghost tried: seq<Try>)
      requires i < |endpoints| && cost == if Replayable(request) then |Voters(request)| else 1
      requires Continuing(request, before, last) && MadeBetween(before, lo, calls) && lo <= calls
      requires InOrder(before, AtLeastZero(attemptsPerEndpoint)) && |before| == i * AtLeastZero(attemptsPerEndpoint)
      modifies this`calls
      ensures old(calls) <= calls <= old(calls) + AtLeastZero(attemptsPerEndpoint) * cost
      ensures MadeBetween(tried, lo, calls) && InOrder(tried, AtLeastZero(attemptsPerEndpoint))
      ensures outcome.Some? ==> SettledBy(request, outcome.value, tried)
      ensures outcome.None? ==> Continuing(request, tried, status) && |tried| == |before| + AtLeastZero(attemptsPerEndpoint)
    {
      var attempts := 0;
      outcome, status, tried := None, last, before;
      while attempts < attemptsPerEndpoint
        invariant 0 <= attempts <= AtLeastZero(attemptsPerEndpoint) && outcome.None? && lo <= calls
        invariant old(calls) <= calls <= old(calls) + attempts * cost
        invariant Continuing(request, tried, status) && |tried| == |before| + attempts
        invariant MadeBetween(tried, lo, calls) && InOrder(tried, AtLeastZero(attemptsPerEndpoint))
      {
        ghost var t, earlier, soFar := Try(calls, endpoints[i]), tried, status;
        outcome, status := Attempt(request, endpoints[i], status);
        OneMoreMade(earlier, lo, t.call, calls, endpoints[i]);
        OneMoreInOrder(earlier, i, attempts, AtLeastZero(attemptsPerEndpoint), t.call);
        Growing(attempts, AtLeastZero(attemptsPerEndpoint), cost);
        tried := earlier + [t];
        attempts := attempts + 1;
        if outcome.Some? {
          SettledLater(request, outcome.value, earlier, t);
          return;
        }
        OneMoreFruitless(request, earlier, soFar, t);
      }
    }

    /** `tried` records the tries that were made. */
    method Relay(request: Request) returns (r: Response<D>, ghost tried: seq<Try>)
      modifies this`calls, this`auditLog
      ensures auditLog == old(auditLog) + [r]
      ensures old(calls) <= calls <= old(calls) + CallLimit(request)
      ensures Explained(request, r, tried)
      ensures MadeBetween(tried, old(calls), calls) && InOrder(tried, PerEndpoint(request))
      ensures request.verb != GET && !request.idempotent && request.idempotencyKey.None? ==> calls <= old(calls) + 1
      ensures request.idempotencyKey.Some? && Trim(request.idempotencyKey.value, IsScriptSpace) == "" ==>
        calls == old(calls) && !r.success && r.endpointUsed.None?
      ensures (request.verb == GET || request.idempotent || request.idempotencyKey.Some?) && r.endpointUsed.None? ==>
        |tried| == if InvalidKey(request) then 0 else |endpoints| * AtLeastZero(maxRetries)
    {
      if InvalidKey(request) {
        tried := [];
        r := RecordResponse(Response(request.id, false, None, None, Skipped));
        return;
      }
      var replayable := Replayable(request);
      var eligible := if replayable || endpoints == [] then |endpoints| else 1;
      var outcome;
      outcome, tried := TryAll(request, eligible, if replayable then maxRetries else 1);
      r := RecordResponse(outcome);
    }

    /** The two nested loops, over the first `eligible` endpoints. */
    method TryAll(request: Request, eligible: nat, attemptsPerEndpoint: int) returns (r: Response<D>, ghost tried: seq<Try>)
      requires !InvalidKey(request) && eligible <= |endpoints|
      requires if Replayable(request) then eligible == |endpoints| && attemptsPerEndpoint == maxRetries
               else attemptsPerEndpoint == 1 && eligible == if endpoints == [] then 0 else 1
      modifies this`calls
      ensures old(calls) <= calls <= old(calls) + CallLimit(request)
      ensures Explained(request, r, tried)
      ensures MadeBetween(tried, old(calls), calls) && InOrder(tried, PerEndpoint(request))
    {
      var lastStatus := Skipped;
      tried := [];
      ghost var voters := if Replayable(request) then |Voters(request)| else 1;
      ghost var tries := AtLeastZero(attemptsPerEndpoint);
      ghost var cost := tries * voters;
      RelayLimit(request, eligible, attemptsPerEndpoint, voters);
      for i := 0 to eligible
        invariant Continuing(request, tried, lastStatus) && |tried| == i * tries
        invariant MadeBetween(tried, old(calls), calls) && InOrder(tried, tries)
        invariant old(calls) <= calls <= old(calls) + i * cost
      {
        var outcome;
        outcome, lastStatus, tried := TryEndpoint(request, i, attemptsPerEndpoint, lastStatus, tried, old(calls), voters);
        Growing(i, eligible, cost);
        Growing(i, eligible, tries);
        if outcome.Some? {
          return outcome.value, tried;
        }
      }
      r := Response(request.id, false, None, None, lastStatus);
    }

    lemma RelayLimit(request: Request, eligible: nat, attempts: int, voters: nat)
      requires !InvalidKey(request)
      requires if Replayable(request) then eligible == |endpoints| && attempts == maxRetries && voters == |Voters(request)|
               else eligible == (if endpoints == [] then 0 else 1) && attempts == 1 && voters == 1
      ensures eligible * (AtLeastZero(attempts) * voters) <= CallLimit(request)
      ensures eligible * AtLeastZero(attempts) == AttemptsDue(request)
    {
      if Replayable(request) {
        assert eligible * (AtLeastZero(attempts) * voters) == eligible * AtLeastZero(attempts) * voters;
      }
    }
  }

  /** How often `n` fits into `k`. */
  function Quotient(k: nat, n: nat): nat
    requires n > 0
  {
    if k < n then 0 else 1 + Quotient(k - n, n)
  }

  lemma {:induction false} QuotientIs(i: nat, j: nat, n: nat)
    requires j < n
    ensures Quotient(i * n + j, n) == i
  {
    if i > 0 {
      QuotientIs(i - 1, j, n);
      assert (i - 1) * n == i * n - n;
      assert i * n >= n;
    }
  }

  lemma Growing(i: nat, n: nat, cost: nat)
    requires i < n
    ensures i * cost + cost == (i + 1) * cost <= n * cost
  {
    var rest: nat := n - i - 1;
    assert n * cost == (i + 1) * cost + rest * cost;
  }

  /** The answers of one round, each voter's own. */
  ghost function RoundAnswers<T>(primary: Identity, text: T, ids: seq<Identity>, votes: seq<Vote<T>>): Identity -> Vote<T>
    requires |ids| == |votes|
  {
    v => if v == primary then Answer(text) else if v in ids then votes[FirstIndex(ids, v)] else Rejected
  }

  lemma RoundAnswersAgree<T>(primary: Identity, text: T, ids: seq<Identity>, votes: seq<Vote<T>>)
    requires |ids| == |votes| && Distinct([primary] + ids)
    ensures Each(ids, RoundAnswers(primary, text, ids, votes)) == votes
  {
    DistinctFirst(primary, ids);
    forall i | 0 <= i < |ids|
      ensures RoundAnswers(primary, text, ids, votes)(ids[i]) == votes[i]
    {
      assert ids[i] in Elements(ids);
    }
  }

  /** What an identity answers: a value in a heap of its own, whose canonical text is its vote. */
  datatype Reply<N> = NoReply | Reply(heap: V.Heap<N>, value: V.Value<N>)

  ghost predicate Projectable<N>(replies: Identity -> Reply<N>) {
    forall v :: replies(v).Reply? ==> V.Consistent(replies(v).heap)
  }

  ghost function VoteOfReply<N>(f: J.Numbers<N>, reply: Reply<N>): Vote<K.Text>
    requires reply.Reply? ==> V.Consistent(reply.heap)
  {
    if reply.NoReply? then Rejected
    else match V.Canonicalize(f, reply.heap, reply.value)
         case Ok(t) => Answer(t)
         case Err(_) => Rejected
  }

  /** With each identity's reply fixed, all verified primaries replied with the same JSON data. */
  lemma VerifiedDataAgree<N(!new)>(
    f: J.Numbers<N>, es: seq<Endpoint>, id: Endpoint -> Identity, replies: Identity -> Reply<N>,
    answer: Identity -> Vote<K.Text>, p: Endpoint, q: Endpoint, a: K.Text, b: K.Text, j: J.Json<N>, k: J.Json<N>)
    requires J.Faithful(f) && Projectable(replies) && p in es && q in es
    requires forall v :: answer(v) == VoteOfReply(f, replies(v))
    requires VerifiedBy(es, id, answer, p, a) && VerifiedBy(es, id, answer, q, b)
    requires var r := replies(id(p)); r.Reply? && V.Denotes(f, r.heap, r.value, j)
    requires var r := replies(id(q)); r.Reply? && V.Denotes(f, r.heap, r.value, k)
    ensures j == k
  {
    VerifiedAnswersAgree(es, id, answer, p, q, a, b);
    var r, s := replies(id(p)), replies(id(q));
    V.SameTextIffSameData(f, r.heap, r.value, s.heap, s.value, j, k);
    assert answer(id(p)) == VoteOfReply(f, r) && answer(id(q)) == VoteOfReply(f, s);
  }
}
