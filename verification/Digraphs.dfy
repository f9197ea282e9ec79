/** Finite directed graphs given by adjacency lists, with paths, cycles and reachability. */
module Digraphs {
  import opened Sequences

  /** A node without an entry has no successors, as with `graph.get(node, [])`. */
  type Graph<N> = map<N, seq<N>>

  function Successors<N(==)>(g: Graph<N>, n: N): seq<N> {
    if n in g then g[n] else []
  }

  ghost predicate IsPath<N>(g: Graph<N>, p: seq<N>) {
    && |p| > 0
    && forall i, j | 0 <= i < j < |p| && j == i + 1 :: p[j] in Successors(g, p[i])
  }

  ghost predicate Connects<N>(g: Graph<N>, p: seq<N>, u: N, v: N) {
    IsPath(g, p) && p[0] == u && p[|p| - 1] == v
  }

  /** In zero or more steps. */
  ghost predicate Reaches<N(!new)>(g: Graph<N>, u: N, v: N) {
    exists p :: Connects(g, p, u, v)
  }

  ghost predicate IsCycle<N>(g: Graph<N>, c: seq<N>) {
    |c| >= 2 && IsPath(g, c) && c[0] == c[|c| - 1]
  }

  ghost predicate Acyclic<N(!new)>(g: Graph<N>) {
    forall c :: !IsCycle(g, c)
  }

  lemma PathSuffix<N>(g: Graph<N>, p: seq<N>, k: nat)
    requires IsPath(g, p) && k < |p|
    ensures IsPath(g, p[k..])
  {
  }

  lemma PathAppend<N>(g: Graph<N>, p: seq<N>, v: N)
    requires IsPath(g, p) && v in Successors(g, p[|p| - 1])
    ensures IsPath(g, p + [v])
  {
  }

  lemma PathPrepend<N>(g: Graph<N>, u: N, p: seq<N>)
    requires IsPath(g, p) && p[0] in Successors(g, u)
    ensures IsPath(g, [u] + p)
  {
  }

  lemma PathJoin<N>(g: Graph<N>, p: seq<N>, q: seq<N>)
    requires IsPath(g, p) && IsPath(g, q) && p[|p| - 1] == q[0]
    ensures IsPath(g, p + q[1..])
    ensures (p + q[1..])[|p + q[1..]| - 1] == q[|q| - 1]
  {
    var r := p + q[1..];
    forall i, j | 0 <= i < j < |r| && j == i + 1
      ensures r[j] in Successors(g, r[i])
    {
      if i >= |p| - 1 {
        assert r[j] == q[j - |p| + 1] && r[i] == q[i - |p| + 1];
      }
    }
  }

  type Edges<N(==)> = set<(N, N)>

  /** `order` lists each of its nodes after all of that node's successors, except along the `exempt` edges. */
  ghost predicate SuccessorsFirst<N>(g: Graph<N>, order: seq<N>, exempt: Edges<N>) {
    forall k, v | 0 <= k < |order| && v in Successors(g, order[k]) :: v in order[..k] || (order[k], v) in exempt
  }

  /** The path uses none of the edges. */
  ghost predicate Avoids<N>(p: seq<N>, edges: Edges<N>) {
    forall i, j | 0 <= i < j < |p| && j == i + 1 :: (p[i], p[j]) !in edges
  }

  lemma SuccessorsFirstExtend<N>(g: Graph<N>, order: seq<N>, exempt: Edges<N>, n: N)
    requires SuccessorsFirst(g, order, exempt) && forall v | v in Successors(g, n) :: v in order || (n, v) in exempt
    ensures SuccessorsFirst(g, order + [n], exempt)
  {
    var longer := order + [n];
    forall k, v | 0 <= k < |longer| && v in Successors(g, longer[k])
      ensures v in longer[..k] || (longer[k], v) in exempt
    {
      if k < |order| {
        assert longer[..k] == order[..k] && longer[k] == order[k];
      } else {
        assert longer[..k] == order;
      }
    }
  }

  lemma {:induction false} PathStaysBelow<N>(g: Graph<N>, order: seq<N>, exempt: Edges<N>, k: nat, p: seq<N>)
    requires SuccessorsFirst(g, order, exempt) && k <= |order|
    requires IsPath(g, p) && Avoids(p, exempt) && p[0] in order[..k]
    ensures p[|p| - 1] in order[..k]
    decreases |p|
  {
    if |p| > 1 {
      var m :| 0 <= m < k && order[m] == p[0];
      assert p[1] in Successors(g, order[m]);
      assert p[1] in order[..m];
      assert p[1] in order[..k];
      PathSuffix(g, p, 1);
      PathStaysBelow(g, order, exempt, k, p[1..]);
    }
  }

  /** No node of such an order lies on a cycle that avoids the exempt edges. */
  lemma OrderedNodesAreOffCycles<N>(g: Graph<N>, order: seq<N>, exempt: Edges<N>, c: seq<N>)
    requires SuccessorsFirst(g, order, exempt) && IsCycle(g, c) && Avoids(c, exempt)
    ensures c[0] !in order
  {
    if c[0] in order {
      var k := FirstIndex(order, c[0]);
      assert c[1] in Successors(g, order[k]);
      PathSuffix(g, c, 1);
      PathStaysBelow(g, order, exempt, k, c[1..]);
      assert false;
    }
  }

  /** A cycle can be walked round as often as one likes. */
  lemma {:induction false} CyclePumps<N>(g: Graph<N>, c: seq<N>, n: nat) returns (p: seq<N>)
    requires IsCycle(g, c)
    ensures IsPath(g, p) && p[|p| - 1] == c[0] && |p| > n
  {
    if n == 0 {
      p := [c[0]];
    } else {
      var q := CyclePumps(g, c, n - 1);
      PathJoin(g, q, c);
      p := q + c[1..];
    }
  }

  /** A path that repeats a node contains a cycle. */
  lemma RepeatGivesCycle<N>(g: Graph<N>, p: seq<N>, i: nat, j: nat) returns (c: seq<N>)
    requires IsPath(g, p) && i < j < |p| && p[i] == p[j]
    ensures IsCycle(g, c)
  {
    c := p[i..j + 1];
  }

  /** Any two connected nodes are connected by a path that repeats no node. */
  lemma {:induction false} Shortcut<N>(g: Graph<N>, p: seq<N>, u: N, v: N) returns (q: seq<N>)
    requires Connects(g, p, u, v)
    ensures Connects(g, q, u, v) && Distinct(q)
    decreases |p|
  {
    if Distinct(p) {
      q := p;
    } else {
      var i, j :| 0 <= i < j < |p| && p[i] == p[j];
      var left, right := p[..i + 1], p[j..];
      PathSuffix(g, p, j);
      PathJoin(g, left, right);
      q := Shortcut(g, left + right[1..], u, v);
    }
  }
}
