/** Insertion-ordered maps, oldest entry first, as the rate limiters use them for recency. */
module OrderedMap {
  import opened Wrappers
  import opened Sequences

  type Table<V> = seq<(string, V)>

  ghost predicate DistinctKeys<V>(m: Table<V>) {
    forall i, j | 0 <= i < j < |m| :: m[i].0 != m[j].0
  }

  ghost function Keys<V>(m: Table<V>): set<string> {
    set i | 0 <= i < |m| :: m[i].0
  }

  function Find<V>(m: Table<V>, k: string): Option<V> {
    if m == [] then None else if m[0].0 == k then Some(m[0].1) else Find(m[1..], k)
  }

  function Delete<V>(m: Table<V>, k: string): Table<V> {
    if m == [] then [] else if m[0].0 == k then m[1..] else [m[0]] + Delete(m[1..], k)
  }

  /** Delete, then set: the entry becomes the newest. */
  function Put<V>(m: Table<V>, k: string, v: V): Table<V> {
    Delete(m, k) + [(k, v)]
  }

  /** Deletes from the oldest entry on and stops at the first that is not stale. */
  function DropWhile<V>(m: Table<V>, stale: V -> bool): Table<V> {
    if m != [] && stale(m[0].1) then DropWhile(m[1..], stale) else m
  }

  /** Deletes oldest entries until no more than `cap` are left. */
  function Capped<V>(m: Table<V>, cap: int): Table<V> {
    if m != [] && |m| > cap then Capped(m[1..], cap) else m
  }

  lemma KeysOfTail<V>(m: Table<V>)
    requires m != []
    ensures Keys(m) == {m[0].0} + Keys(m[1..])
    ensures DistinctKeys(m) ==> DistinctKeys(m[1..]) && m[0].0 !in Keys(m[1..])
  {
    var t := m[1..];
    assert forall i | 0 <= i < |t| :: t[i] == m[i + 1];
    forall x | x in Keys(m)
      ensures x in {m[0].0} + Keys(t)
    {
      var i :| 0 <= i < |m| && m[i].0 == x;
      if i > 0 {
        assert t[i - 1].0 == x;
      }
    }
  }

  lemma KeysOfCons<V>(e: (string, V), m: Table<V>)
    ensures Keys([e] + m) == {e.0} + Keys(m)
    ensures DistinctKeys(m) && e.0 !in Keys(m) ==> DistinctKeys([e] + m)
  {
    var t := [e] + m;
    assert t[1..] == m;
    KeysOfTail(t);
  }

  lemma {:induction false} FindIff<V>(m: Table<V>, k: string)
    ensures Find(m, k).Some? <==> k in Keys(m)
    ensures Find(m, k).Some? ==> exists i :: 0 <= i < |m| && m[i] == (k, Find(m, k).value)
  {
    if m != [] {
      KeysOfTail(m);
      FindIff(m[1..], k);
      if m[0].0 != k && Find(m, k).Some? {
        var i :| 0 <= i < |m[1..]| && m[1..][i] == (k, Find(m, k).value);
        assert m[i + 1] == (k, Find(m, k).value);
      }
    }
  }

  lemma {:induction false} DeleteRemoves<V>(m: Table<V>, k: string, x: string)
    requires DistinctKeys(m)
    ensures DistinctKeys(Delete(m, k)) && Keys(Delete(m, k)) == Keys(m) - {k}
    ensures Find(Delete(m, k), x) == if x == k then None else Find(m, x)
  {
    if m != [] {
      KeysOfTail(m);
      FindIff(m[1..], x);
      if m[0].0 != k {
        DeleteRemoves(m[1..], k, x);
        KeysOfCons(m[0], Delete(m[1..], k));
        assert ([m[0]] + Delete(m[1..], k))[1..] == Delete(m[1..], k);
      }
    }
  }

  lemma {:induction false} AppendAdds<V>(m: Table<V>, k: string, v: V, x: string)
    requires DistinctKeys(m) && k !in Keys(m)
    ensures DistinctKeys(m + [(k, v)]) && Keys(m + [(k, v)]) == Keys(m) + {k}
    ensures Find(m + [(k, v)], x) == if x == k then Some(v) else Find(m, x)
  {
    if m == [] {
      assert m + [(k, v)] == [(k, v)];
      KeysOfCons((k, v), []);
    } else {
      KeysOfTail(m);
      AppendAdds(m[1..], k, v, x);
      assert m + [(k, v)] == [m[0]] + (m[1..] + [(k, v)]);
      KeysOfCons(m[0], m[1..] + [(k, v)]);
      assert (m + [(k, v)])[1..] == m[1..] + [(k, v)];
    }
  }

  lemma PutSets<V>(m: Table<V>, k: string, v: V, x: string)
    requires DistinctKeys(m)
    ensures DistinctKeys(Put(m, k, v)) && Keys(Put(m, k, v)) == Keys(m) + {k}
    ensures Find(Put(m, k, v), x) == if x == k then Some(v) else Find(m, x)
  {
    DeleteRemoves(m, k, x);
    AppendAdds(Delete(m, k), k, v, x);
  }

  /** Sweeping loses only stale entries. */
  lemma {:induction false} SweepLosesOnlyStale<V>(m: Table<V>, stale: V -> bool, x: string)
    requires DistinctKeys(m)
    ensures DistinctKeys(DropWhile(m, stale)) && Keys(DropWhile(m, stale)) <= Keys(m)
    ensures Find(DropWhile(m, stale), x) == Find(m, x)
      || (Find(DropWhile(m, stale), x).None? && Find(m, x).Some? && stale(Find(m, x).value))
  {
    if m != [] && stale(m[0].1) {
      KeysOfTail(m);
      SweepLosesOnlyStale(m[1..], stale, x);
      FindIff(DropWhile(m[1..], stale), x);
      FindIff(m[1..], x);
    }
  }

  lemma {:induction false} SizeIsKeys<V>(m: Table<V>)
    requires DistinctKeys(m)
    ensures |Keys(m)| == |m|
  {
    if m != [] {
      KeysOfTail(m);
      SizeIsKeys(m[1..]);
    }
  }

  /** A cap that the keys respect evicts nothing. */
  lemma NoEviction<V>(m: Table<V>, known: set<string>, cap: int)
    requires DistinctKeys(m) && Keys(m) <= known && |known| <= cap
    ensures Capped(m, cap) == m
  {
    SizeIsKeys(m);
    SubsetSize(Keys(m), known);
  }

  /** What a sweep keeps begins with the first entry that is not stale. */
  lemma {:induction false} SweepStopsAtFirstFresh<V>(m: Table<V>, stale: V -> bool) returns (k: nat)
    ensures k <= |m| && DropWhile(m, stale) == m[k..]
    ensures (forall i | 0 <= i < k :: stale(m[i].1)) && (k < |m| ==> !stale(m[k].1))
  {
    if m != [] && stale(m[0].1) {
      var n := SweepStopsAtFirstFresh(m[1..], stale);
      k := n + 1;
      assert m[1..][n..] == m[k..];
      assert forall i | 1 <= i < k :: m[i] == m[1..][i - 1];
    } else {
      k := 0;
    }
  }

  /** How many of `n` entries are too many. */
  function Surplus(n: nat, cap: int): nat {
    if n <= cap then 0 else if cap < 0 then n else n - cap
  }

  /** What a cap drops is the surplus of oldest entries. */
  lemma {:induction false} CapDropsOldest<V>(m: Table<V>, cap: int)
    ensures Capped(m, cap) == m[Surplus(|m|, cap)..]
  {
    if m != [] && |m| > cap {
      CapDropsOldest(m[1..], cap);
      TailOfTail(m, Surplus(|m|, cap));
    }
  }

  lemma TailOfTail<T>(s: seq<T>, k: nat)
    requires 0 < k <= |s|
    ensures s[1..][k - 1..] == s[k..]
  {
  }

  method Sweep<V>(table: Table<V>, stale: V -> bool) returns (m: Table<V>)
    ensures m == DropWhile(table, stale)
  {
    m := table;
    while m != [] && stale(m[0].1)
      invariant DropWhile(m, stale) == DropWhile(table, stale)
      decreases |m|
    {
      m := m[1..];
    }
  }

  method EnforceCap<V>(table: Table<V>, cap: int) returns (m: Table<V>)
    ensures m == Capped(table, cap)
  {
    m := table;
    while |m| > cap && m != []
      invariant Capped(m, cap) == Capped(table, cap)
      decreases |m|
    {
      m := m[1..];
    }
  }
}
