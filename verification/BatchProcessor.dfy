/** Duplicate grouping, validation and slot filling of a batch of contract calls. */
module BatchProcessor {
  import opened Wrappers
  import opened Sequences
  import opened WorkerPool

  datatype Field = Undefined | Null | Text(s: string)

  /** A batch entry; `size` is None when `payloadSizeBytes` is not a number. */
  datatype Entry = NotObject | Object(address: Field, verb: Field, payload: Field, size: Option<int>)

  datatype EntryError = INVALID_DESCRIPTOR | PAYLOAD_TOO_LARGE | GAS_LIMIT_EXCEEDED | PROFILER_ERROR | PROFILE_FAILED

  datatype EntryResult = EntryResult(ok: bool, index: nat, duplicate: bool, error: Option<EntryError>)

  /** What the gas profiler does with a descriptor. */
  datatype Profile = Threw | Profiled(ok: bool, critical: bool)

  datatype BatchResult = BatchResult(ok: bool, entries: seq<EntryResult>, successCount: nat, failureCount: nat)

  function FieldText(f: Field): string {
    match f
    case Undefined => "undefined"
    case Null => "null"
    case Text(s) => s
  }

  function Fingerprint(e: Entry): string
    requires e.Object?
  {
    FieldText(e.address) + "::" + FieldText(e.verb) + "::" + FieldText(e.payload)
  }

  function ValidateDescriptor(e: Entry, maxPayloadBytes: int): Option<EntryError> {
    if e.NotObject? || !e.address.Text? || !e.verb.Text? || !e.payload.Text? then Some(INVALID_DESCRIPTOR)
    else if e.size.Some? && e.size.value > maxPayloadBytes then Some(PAYLOAD_TOO_LARGE)
    else None
  }

  function ProcessEntry(profile: Entry -> Profile, e: Entry, index: nat, duplicate: bool): EntryResult {
    match profile(e)
    case Threw => EntryResult(false, index, duplicate, Some(PROFILER_ERROR))
    case Profiled(ok, critical) =>
      if critical then EntryResult(false, index, duplicate, Some(GAS_LIMIT_EXCEEDED))
      else EntryResult(ok, index, duplicate, if ok then None else Some(PROFILE_FAILED))
  }

  // ----- Duplicates -----

  predicate HasFingerprint(batch: seq<Entry>, i: nat, fp: string) {
    i < |batch| && batch[i].Object? && Fingerprint(batch[i]) == fp
  }

  /** Another object entry has the same fingerprint. */
  ghost predicate IsDuplicate(batch: seq<Entry>, i: nat) {
    && i < |batch| && batch[i].Object?
    && exists j: nat :: j != i && HasFingerprint(batch, j, Fingerprint(batch[i]))
  }

  /** Each group lists, once each, the entries of its fingerprint among the first `n`. */
  ghost predicate Grouped(batch: seq<Entry>, n: nat, groups: map<string, seq<nat>>) {
    && (forall fp | fp in groups :: Distinct(groups[fp]))
    && (forall fp, i | fp in groups && i in groups[fp] :: i < n && HasFingerprint(batch, i, fp))
    && (forall i: nat | i < n <= |batch| && batch[i].Object? ::
          Fingerprint(batch[i]) in groups && i in groups[Fingerprint(batch[i])])
  }

  method GroupByFingerprint(batch: seq<Entry>) returns (groups: map<string, seq<nat>>)
    ensures Grouped(batch, |batch|, groups)
  {
    groups := map[];
    for i := 0 to |batch|
      invariant Grouped(batch, i, groups)
    {
      if batch[i].Object? {
        var fp := Fingerprint(batch[i]);
        var existing := if fp in groups then groups[fp] else [];
        ExtendGroup(batch, i, groups, existing);
        groups := groups[fp := existing + [i]];
      }
    }
  }

  lemma ExtendGroup(batch: seq<Entry>, i: nat, groups: map<string, seq<nat>>, existing: seq<nat>)
    requires Grouped(batch, i, groups) && i < |batch| && batch[i].Object?
    requires existing == if Fingerprint(batch[i]) in groups then groups[Fingerprint(batch[i])] else []
    ensures Grouped(batch, i + 1, groups[Fingerprint(batch[i]) := existing + [i]])
  {
    DistinctLast(existing, i);
  }

  method DuplicateIndices(batch: seq<Entry>, groups: map<string, seq<nat>>) returns (duplicates: set<nat>)
    requires Grouped(batch, |batch|, groups)
    ensures forall i: nat :: i in duplicates <==> IsDuplicate(batch, i)
  {
    duplicates := {};
    var rest := groups.Keys;
    while rest != {}
      invariant rest <= groups.Keys
      invariant forall i: nat :: i in duplicates <==> IsDuplicate(batch, i) && Fingerprint(batch[i]) !in rest
    {
      var fp :| fp in rest;
      var indices := groups[fp];
      if |indices| > 1 {
        duplicates := duplicates + Elements(indices);
      }
      forall i: nat
        ensures i in indices && |indices| > 1 <==> IsDuplicate(batch, i) && Fingerprint(batch[i]) == fp
      {
        LargeGroupIff(batch, groups, fp, i);
      }
      rest := rest - {fp};
    }
  }

  lemma LargeGroupIff(batch: seq<Entry>, groups: map<string, seq<nat>>, fp: string, i: nat)
    requires Grouped(batch, |batch|, groups) && fp in groups
    ensures i in groups[fp] && |groups[fp]| > 1 <==> IsDuplicate(batch, i) && Fingerprint(batch[i]) == fp
  {
    var g := groups[fp];
    if i in g && |g| > 1 {
      var k :| 0 <= k < |g| && g[k] == i;
      var other := g[if k == 0 then 1 else 0];
      assert other in g && other != i;
      assert HasFingerprint(batch, other, fp);
    }
    if IsDuplicate(batch, i) && Fingerprint(batch[i]) == fp {
      var j: nat :| j != i && HasFingerprint(batch, j, fp);
      assert i in g && j in g;
    }
  }

  // ----- What fingerprints and results say -----

  /** Entries with the same address, function and payload are duplicates of each other. */
  lemma EqualFieldsAreDuplicates(batch: seq<Entry>, i: nat, j: nat)
    requires i < |batch| && j < |batch| && i != j && batch[i].Object? && batch[j].Object?
    requires batch[i].address == batch[j].address && batch[i].verb == batch[j].verb && batch[i].payload == batch[j].payload
    ensures IsDuplicate(batch, i) && IsDuplicate(batch, j)
  {
    assert HasFingerprint(batch, j, Fingerprint(batch[i])) && HasFingerprint(batch, i, Fingerprint(batch[j]));
  }

  predicate NoColon(s: string) {
    ':' !in s
  }

  /** Texts up to the first colon can be told apart. */
  lemma HeadDecodes(a: string, b: string, r1: string, r2: string)
    requires NoColon(a) && NoColon(b) && a + "::" + r1 == b + "::" + r2
    ensures a == b && r1 == r2
  {
    var t := a + "::" + r1;
    assert t[|a|] == ':' && (b + "::" + r2)[|b|] == ':';
    assert forall i | 0 <= i < |a| :: t[i] == a[i];
    assert forall i | 0 <= i < |b| :: t[i] == b[i];
    assert |a| == |b|;
    assert t[..|a|] == a && (b + "::" + r2)[..|b|] == b;
    assert t[|a| + 2..] == r1 && (b + "::" + r2)[|b| + 2..] == r2;
  }

  /** Without colons in address and function, the same fingerprint means the same three texts. */
  lemma FingerprintDecodes(x: Entry, y: Entry)
    requires x.Object? && y.Object? && Fingerprint(x) == Fingerprint(y)
    requires NoColon(FieldText(x.address)) && NoColon(FieldText(x.verb)) && NoColon(FieldText(y.address)) && NoColon(FieldText(y.verb))
    ensures FieldText(x.address) == FieldText(y.address) && FieldText(x.verb) == FieldText(y.verb) && FieldText(x.payload) == FieldText(y.payload)
  {
    var a, b := FieldText(x.address), FieldText(y.address);
    var v, w := FieldText(x.verb), FieldText(y.verb);
    var p, q := FieldText(x.payload), FieldText(y.payload);
    assert Fingerprint(x) == a + "::" + (v + "::" + p) && Fingerprint(y) == b + "::" + (w + "::" + q);
    HeadDecodes(a, b, v + "::" + p, w + "::" + q);
    HeadDecodes(v, w, p, q);
  }

  ghost predicate SameTexts(x: Entry, y: Entry)
    requires x.Object? && y.Object?
  {
    FieldText(x.address) == FieldText(y.address) && FieldText(x.verb) == FieldText(y.verb) && FieldText(x.payload) == FieldText(y.payload)
  }

  ghost predicate SeparatorAt(t: string, k: int) {
    0 <= k && k + 2 <= |t| && t[k] == ':' && t[k + 1] == ':'
  }

  /** The fingerprint holds two colons in a row only where they separate the fields. */
  ghost predicate OnlySeparates(e: Entry)
    requires e.Object?
  {
    var a, v := |FieldText(e.address)|, |FieldText(e.verb)|;
    forall k | SeparatorAt(Fingerprint(e), k) :: k == a || k == a + 2 + v || (v == 0 && k == a + 1)
  }

  lemma FieldsOfFingerprint(e: Entry)
    requires e.Object?
    ensures var t, a, v := Fingerprint(e), |FieldText(e.address)|, |FieldText(e.verb)|;
            && SeparatorAt(t, a) && SeparatorAt(t, a + 2 + v)
            && t[..a] == FieldText(e.address) && t[a + 2..a + 2 + v] == FieldText(e.verb) && t[a + 4 + v..] == FieldText(e.payload)
  {
  }

  /** The text cut at two separators is an entry with the same fingerprint. */
  lemma CutAt(t: string, i: nat, j: nat) returns (e: Entry)
    requires SeparatorAt(t, i) && SeparatorAt(t, j) && i + 2 <= j
    ensures e.Object? && Fingerprint(e) == t && |FieldText(e.address)| == i && |FieldText(e.verb)| == j - i - 2
  {
    e := Object(Text(t[..i]), Text(t[i + 2..j]), Text(t[j + 2..]), None);
    assert t[i..i + 2] == "::" && t[j..j + 2] == "::";
    assert t == t[..i] + t[i..i + 2] + t[i + 2..j] + t[j..j + 2] + t[j + 2..];
  }

  /** No entry with other fields is taken for a duplicate of this one exactly if its fingerprint separates its fields only. */
  lemma FingerprintIdentifiesIff(x: Entry)
    requires x.Object?
    ensures (forall y: Entry | y.Object? && Fingerprint(y) == Fingerprint(x) :: SameTexts(x, y)) <==> OnlySeparates(x)
  {
    var t, a, v := Fingerprint(x), |FieldText(x.address)|, |FieldText(x.verb)|;
    FieldsOfFingerprint(x);
    if OnlySeparates(x) {
      forall y: Entry | y.Object? && Fingerprint(y) == t ensures SameTexts(x, y) {
        FieldsOfFingerprint(y);
      }
    } else {
      var k :| SeparatorAt(t, k) && k != a && k != a + 2 + v && !(v == 0 && k == a + 1);
      var b := a + 2 + v;
      var (i, j) := if k + 2 <= a then (k, a) else if a + 2 <= k then (a, k) else (k, b);
      var y := CutAt(t, i, j);
      assert !SameTexts(x, y);
    }
  }

  /** These two entries are taken for duplicates. */
  lemma ColonsCanCollide(x: Entry, y: Entry)
    requires x == Object(Text("a::b"), Text("c"), Text("d"), None) && y == Object(Text("a"), Text("b::c"), Text("d"), None)
    ensures x != y && Fingerprint(x) == Fingerprint(y)
  {
    assert "a::b" + "::" + "c" + "::" + "d" == "a" + "::" + "b::c" + "::" + "d";
    assert |"a::b"| != |"a"|;
  }

  /** An entry succeeds exactly if it is well-formed, small enough, and profiled well without a critical finding. */
  lemma SuccessIff(profile: Entry -> Profile, maxPayloadBytes: int, batch: seq<Entry>, i: nat)
    requires i < |batch|
    ensures var e, r := batch[i], Expected(profile, maxPayloadBytes, batch, i);
            && (r.ok <==>
                  && e.Object? && e.address.Text? && e.verb.Text? && e.payload.Text?
                  && (e.size.None? || e.size.value <= maxPayloadBytes)
                  && profile(e) == Profiled(true, false))
            && (r.ok <==> r.error.None?)
  {
  }

  /** The error of an entry that fails: the first that applies. */
  lemma FailureMeaning(profile: Entry -> Profile, maxPayloadBytes: int, batch: seq<Entry>, i: nat)
    requires i < |batch| && !Expected(profile, maxPayloadBytes, batch, i).ok
    ensures var e, error := batch[i], Expected(profile, maxPayloadBytes, batch, i).error;
            var formed := e.Object? && e.address.Text? && e.verb.Text? && e.payload.Text?;
            var small := formed && (e.size.None? || e.size.value <= maxPayloadBytes);
            && (error == Some(INVALID_DESCRIPTOR) <==> !formed)
            && (error == Some(PAYLOAD_TOO_LARGE) <==> formed && !small)
            && (error == Some(PROFILER_ERROR) <==> small && profile(e).Threw?)
            && (error == Some(GAS_LIMIT_EXCEEDED) <==> small && profile(e).Profiled? && profile(e).critical)
            && (error == Some(PROFILE_FAILED) <==> small && profile(e) == Profiled(false, false))
  {
  }

  // ----- The batch -----

  /** What entry `i` of the result must be. */
  ghost function Expected(profile: Entry -> Profile, maxPayloadBytes: int, batch: seq<Entry>, i: nat): EntryResult
    requires i < |batch|
  {
    var error := ValidateDescriptor(batch[i], maxPayloadBytes);
    if error.Some? then EntryResult(false, i, IsDuplicate(batch, i), error)
    else ProcessEntry(profile, batch[i], i, IsDuplicate(batch, i))
  }

  /** A task of the pool: the entry it processes and the slot that waits for it. */
  datatype Task = Task(slot: nat, entry: Entry, duplicate: bool)

  /** Slots and tasks after the first `n` entries: every entry is in exactly one of the two. */
  ghost predicate Queued(profile: Entry -> Profile, maxPayloadBytes: int, batch: seq<Entry>, n: nat,
                         slots: seq<Option<EntryResult>>, tasks: seq<Task>) {
    && |slots| == |batch| && n <= |batch|
    && (forall i | 0 <= i < n && slots[i].Some? :: slots[i].value == Expected(profile, maxPayloadBytes, batch, i))
    && (forall i | 0 <= i < n && slots[i].None? :: exists k :: 0 <= k < |tasks| && tasks[k].slot == i)
    && (forall k | 0 <= k < |tasks| ::
          && tasks[k].slot < n
          && RunTask(profile, tasks[k]) == Expected(profile, maxPayloadBytes, batch, tasks[k].slot))
  }

  function RunTask(profile: Entry -> Profile, t: Task): EntryResult {
    ProcessEntry(profile, t.entry, t.slot, t.duplicate)
  }

  method Queue(profile: Entry -> Profile, maxPayloadBytes: int, batch: seq<Entry>, duplicates: set<nat>)
    returns (slots: array<Option<EntryResult>>, tasks: seq<Task>)
    requires forall i: nat :: i in duplicates <==> IsDuplicate(batch, i)
    ensures fresh(slots) && Queued(profile, maxPayloadBytes, batch, |batch|, slots[..], tasks)
  {
    slots := new Option<EntryResult>[|batch|](_ => None);
    tasks := [];
    for i := 0 to |batch|
      invariant Queued(profile, maxPayloadBytes, batch, i, slots[..], tasks)
      invariant forall k | i <= k < |batch| :: slots[k].None?
    {
      var error := ValidateDescriptor(batch[i], maxPayloadBytes);
      ghost var before, earlier := slots[..], tasks;
      if error.Some? {
        slots[i] := Some(EntryResult(false, i, i in duplicates, error));
        assert slots[..] == before[i := slots[i]];
      } else {
        tasks := tasks + [Task(i, batch[i], i in duplicates)];
        assert tasks[|earlier|].slot == i;
        assert forall k | 0 <= k < |earlier| :: tasks[k] == earlier[k];
      }
    }
  }

  /** Stores the pool's results where the tasks came from; no slot is left empty. */
  method FillSlots(profile: Entry -> Profile, ghost maxPayloadBytes: int, ghost batch: seq<Entry>,
                   slots: array<Option<EntryResult>>, tasks: seq<Task>, results: seq<EntryResult>)
    requires Queued(profile, maxPayloadBytes, batch, |batch|, slots[..], tasks)
    requires |results| == |tasks| && forall k | 0 <= k < |tasks| :: results[k] == RunTask(profile, tasks[k])
    modifies slots
    ensures forall i | 0 <= i < |batch| :: slots[i] == Some(Expected(profile, maxPayloadBytes, batch, i))
  {
    assert forall i | 0 <= i < |batch| :: slots[..][i] == slots[i];
    for j := 0 to |tasks|
      invariant forall i | 0 <= i < |batch| && slots[i].Some? :: slots[i].value == Expected(profile, maxPayloadBytes, batch, i)
      invariant forall i | 0 <= i < |batch| && slots[i].None? :: exists k :: j <= k < |tasks| && tasks[k].slot == i
    {
      slots[tasks[j].slot] := Some(results[j]);
    }
  }

  method RunTasks(profile: Entry -> Profile, maxConcurrency: int, tasks: seq<Task>) returns (results: seq<EntryResult>)
    requires maxConcurrency >= 1
    ensures |results| == |tasks| && forall k | 0 <= k < |tasks| :: results[k] == RunTask(profile, tasks[k])
  {
    if tasks == [] {
      return [];
    }
    var outcome := (i: nat) => RunTask(profile, if i < |tasks| then tasks[i] else tasks[0]);
    results := ProcessWithConcurrency(|tasks|, maxConcurrency, outcome);
  }

  function CountOk(entries: seq<EntryResult>): (n: nat)
    ensures n <= |entries|
  {
    if entries == [] then 0 else CountOk(entries[1..]) + if entries[0].ok then 1 else 0
  }

  /** `batch` is None when the input is not an array; that alone makes the result not ok. */
  method Process(profile: Entry -> Profile, maxConcurrency: int, maxPayloadBytes: int, batch: Option<seq<Entry>>)
    returns (r: BatchResult)
    ensures r.ok == batch.Some?
    ensures batch.None? ==> r.entries == []
    ensures batch.Some? ==> |r.entries| == |batch.value|
    ensures batch.Some? ==> forall i | 0 <= i < |r.entries| ::
      && r.entries[i].index == i
      && (r.entries[i].duplicate <==> IsDuplicate(batch.value, i))
      && r.entries[i] == Expected(profile, AtLeastOne(maxPayloadBytes), batch.value, i)
    ensures r.successCount == CountOk(r.entries) && r.successCount + r.failureCount == |r.entries|
  {
    if batch.None? || batch.value == [] {
      return BatchResult(batch.Some?, [], 0, 0);
    }
    var groups := GroupByFingerprint(batch.value);
    var duplicates := DuplicateIndices(batch.value, groups);
    var slots, tasks := Queue(profile, AtLeastOne(maxPayloadBytes), batch.value, duplicates);
    var results := RunTasks(profile, AtLeastOne(maxConcurrency), tasks);
    FillSlots(profile, AtLeastOne(maxPayloadBytes), batch.value, slots, tasks, results);
    var filled := slots[..];
    var entries := seq(|filled|, i requires 0 <= i < |filled| && filled[i].Some? => filled[i].value);
    var ok := CountOk(entries);
    r := BatchResult(true, entries, ok, |entries| - ok);
  }

  function AtLeastOne(n: int): (m: nat)
    ensures m >= 1 && m >= n && (m == 1 || m == n)
  {
    if n < 1 then 1 else n
  }
}
