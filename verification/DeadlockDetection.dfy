/** The lock-order cycle finder of the concurrency visualizer. */
module DeadlockDetection {
  import opened Sequences
  import opened Digraphs

  type Lock = string

  /** A reported list ends with the acquisition that closes its cycle. */
  ghost predicate Closes(d: seq<Lock>, u: Lock, v: Lock) {
    |d| >= 2 && d[|d| - 2] == u && d[|d| - 1] == v
  }

  ghost function ClosingEdges(deadlocks: seq<seq<Lock>>): Edges<Lock> {
    set d | d in deadlocks && |d| >= 2 :: (d[|d| - 2], d[|d| - 1])
  }

  /** How many of the lists close with the acquisition of `v` under `u`. */
  ghost function TimesClosed(deadlocks: seq<seq<Lock>>, u: Lock, v: Lock): nat {
    if deadlocks == [] then 0
    else
      var n := |deadlocks| - 1;
      TimesClosed(deadlocks[..n], u, v) + if Closes(deadlocks[n], u, v) then 1 else 0
  }

  /** How often `v` stands in a list of neighbours. */
  ghost function Occurrences(locks: seq<Lock>, v: Lock): nat {
    multiset(locks)[v]
  }

  /** Nothing closes under an unvisited lock, and under a finished one no more than its entries allow. */
  ghost predicate WithinEntries(g: Graph<Lock>, visited: set<Lock>, finished: set<Lock>, deadlocks: seq<seq<Lock>>) {
    && (forall u, v | u !in visited :: TimesClosed(deadlocks, u, v) == 0)
    && (forall u, v | u in finished :: TimesClosed(deadlocks, u, v) <= Occurrences(Successors(g, u), v))
  }

  ghost predicate Settled(finished: set<Lock>, deadlocks: seq<seq<Lock>>, node: Lock, neighbors: seq<Lock>) {
    && (forall v | v in neighbors :: v in finished || (node, v) in ClosingEdges(deadlocks))
    && (forall v :: TimesClosed(deadlocks, node, v) <= Occurrences(neighbors, v))
  }

  /** The variables that the nested `dfs` shares with its caller. */
  class CycleSearch {
    const graph: Graph<Lock>
    var visited: set<Lock>
    var recStack: set<Lock>
    var deadlocks: seq<seq<Lock>>
    /** Locks whose `dfs` call has returned, oldest first. */
    ghost var finished: seq<Lock>

    constructor (graph: Graph<Lock>)
      ensures this.graph == graph
      ensures visited == {} && recStack == {} && deadlocks == [] && finished == []
    {
      this.graph := graph;
      visited, recStack, deadlocks, finished := {}, {}, [], [];
    }

    /** What holds between any two steps while `path` is the chain of open calls. */
    ghost predicate Consistent(path: seq<Lock>)
      reads this
    {
      && recStack == Elements(path)
      && visited == recStack + Elements(finished)
      && recStack !! Elements(finished)
      && Distinct(path)
      && (forall d | d in deadlocks :: IsCycle(graph, d) && Distinct(d[1..]))
      && SuccessorsFirst(graph, finished, ClosingEdges(deadlocks))
      && WithinEntries(graph, visited, Elements(finished), deadlocks)
    }

    /** The neighbours of `node` looked at so far: each is finished, or its acquisition closes a reported list. */
    ghost predicate Examined(node: Lock, neighbors: seq<Lock>)
      reads this
    {
      Settled(Elements(finished), deadlocks, node, neighbors)
    }

    /** What a call may add to what it found. */
    twostate predicate Extends(node: Lock)
      reads this
    {
      && old(visited) + {node} <= visited && old(deadlocks) <= deadlocks
      && (forall u, v | u in old(visited) :: TimesClosed(deadlocks, u, v) == TimesClosed(old(deadlocks), u, v))
    }

    /** Locks that the search may still enter. */
    ghost function Unvisited(): set<Lock>
      reads this
    {
      AllLocks(graph) - visited
    }

    method Enter(node: Lock, ghost outer: seq<Lock>)
      requires Consistent(outer) && node !in visited
      modifies this`visited, this`recStack
      ensures Consistent(outer + [node]) && Examined(node, [])
      ensures visited == old(visited) + {node}
    {
      visited := visited + {node};
      recStack := recStack + {node};
      assert Elements(outer + [node]) == Elements(outer) + {node};
      DistinctLast(outer, node);
    }

    method Report(path: seq<Lock>, neighbor: Lock)
      requires Consistent(path) && neighbor in recStack
      requires path != [] && IsPath(graph, path)
      requires neighbor in Successors(graph, path[|path| - 1])
      modifies this`deadlocks
      ensures Consistent(path)
      ensures neighbor in path && deadlocks == old(deadlocks) + [path[FirstIndex(path, neighbor)..] + [neighbor]]
    {
      var cycle := path[FirstIndex(path, neighbor)..] + [neighbor];
      CycleFromPath(graph, path, neighbor, cycle);
      assert path[|path| - 1] in recStack;
      OneMoreClosed(deadlocks, cycle, path[|path| - 1], neighbor);
      deadlocks := deadlocks + [cycle];
    }

    method Leave(node: Lock, ghost outer: seq<Lock>)
      requires Consistent(outer + [node]) && Examined(node, Successors(graph, node))
      modifies this`recStack, this`finished
      ensures Consistent(outer)
    {
      DistinctLast(outer, node);
      assert node in outer + [node];
      SuccessorsFirstExtend(graph, finished, ClosingEdges(deadlocks), node);
      recStack := recStack - {node};
      assert recStack == Elements(outer);
      finished := finished + [node];
      assert Elements(finished) == Elements(old(finished)) + {node};
    }

    method Dfs(node: Lock, path: seq<Lock>, ghost outer: seq<Lock>)
      requires path == outer + [node] && IsPath(graph, path)
      requires Consistent(outer)
      requires node !in visited && node in AllLocks(graph)
      modifies this`visited, this`recStack, this`deadlocks, this`finished
      ensures Consistent(outer)
      ensures Extends(node)
      decreases Unvisited(), 0
    {
      Enter(node, outer);
      ghost var entered := visited;
      var neighbors := Successors(graph, node);
      for i := 0 to |neighbors|
        invariant Consistent(path) && Extends(node) && entered <= visited
        invariant Examined(node, neighbors[..i])
      {
        Visit(node, path, neighbors, i);
      }
      assert neighbors[..|neighbors|] == neighbors;
      Leave(node, outer);
    }

    /** One round of the loop: descend, report, or pass on. */
    method Visit(node: Lock, path: seq<Lock>, neighbors: seq<Lock>, i: nat)
      requires Consistent(path) && IsPath(graph, path) && path[|path| - 1] == node
      requires neighbors == Successors(graph, node) && i < |neighbors| && Examined(node, neighbors[..i])
      modifies this`visited, this`recStack, this`deadlocks, this`finished
      ensures Consistent(path) && Examined(node, neighbors[..i + 1])
      ensures old(visited) <= visited && old(deadlocks) <= deadlocks
      ensures forall u, v | u in old(visited) && u != node :: TimesClosed(deadlocks, u, v) == TimesClosed(old(deadlocks), u, v)
      decreases Unvisited(), 1
    {
      var neighbor := neighbors[i];
      NeighborIsALock(graph, node, neighbor);
      assert neighbors[..i + 1] == neighbors[..i] + [neighbor];
      if neighbor !in visited {
        PathAppend(graph, path, neighbor);
        assert path[|path| - 1] in recStack;
        Dfs(neighbor, path + [neighbor], path);
        SettledLater(Elements(old(finished)), Elements(finished), old(deadlocks), deadlocks, node, neighbors[..i], neighbor);
      } else if neighbor in recStack {
        Report(path, neighbor);
        SettledByReport(Elements(finished), old(deadlocks), deadlocks[|deadlocks| - 1], node, neighbors[..i], neighbor);
      } else {
        assert neighbor in Elements(finished);
      }
    }
  }

  lemma CycleFromPath(g: Graph<Lock>, path: seq<Lock>, v: Lock, cycle: seq<Lock>)
    requires IsPath(g, path) && Distinct(path) && v in path && v in Successors(g, path[|path| - 1])
    requires cycle == path[FirstIndex(path, v)..] + [v]
    ensures IsCycle(g, cycle) && Distinct(cycle[1..]) && Closes(cycle, path[|path| - 1], v)
  {
    var start := FirstIndex(path, v);
    PathSuffix(g, path, start);
    PathAppend(g, path[start..], v);
    assert cycle[1..] == path[start + 1..] + [v];
  }

  lemma SettledLater(before: set<Lock>, after: set<Lock>, earlier: seq<seq<Lock>>, deadlocks: seq<seq<Lock>>,
                     node: Lock, neighbors: seq<Lock>, v: Lock)
    requires Settled(before, earlier, node, neighbors) && before <= after && earlier <= deadlocks && v in after
    requires forall x :: TimesClosed(deadlocks, node, x) == TimesClosed(earlier, node, x)
    ensures Settled(after, deadlocks, node, neighbors + [v])
  {
    assert forall d | d in earlier :: d in deadlocks;
    assert ClosingEdges(earlier) <= ClosingEdges(deadlocks);
  }

  lemma SettledByReport(finished: set<Lock>, earlier: seq<seq<Lock>>, d: seq<Lock>, node: Lock, neighbors: seq<Lock>, v: Lock)
    requires Settled(finished, earlier, node, neighbors) && Closes(d, node, v)
    ensures Settled(finished, earlier + [d], node, neighbors + [v])
  {
    OneMoreClosed(earlier, d, node, v);
  }

  lemma OneMoreClosed(deadlocks: seq<seq<Lock>>, d: seq<Lock>, u: Lock, v: Lock)
    requires Closes(d, u, v)
    ensures ClosingEdges(deadlocks + [d]) == ClosingEdges(deadlocks) + {(u, v)}
    ensures forall x, y :: TimesClosed(deadlocks + [d], x, y) == TimesClosed(deadlocks, x, y) + if x == u && y == v then 1 else 0
  {
    var longer := deadlocks + [d];
    assert longer[..|deadlocks|] == deadlocks && longer[|deadlocks|] == d;
  }

  ghost function AllLocks(g: Graph<Lock>): set<Lock> {
    g.Keys + set u, v | u in g && v in g[u] :: v
  }

  lemma NeighborIsALock(g: Graph<Lock>, u: Lock, v: Lock)
    requires v in Successors(g, u)
    ensures v in AllLocks(g)
  {
  }

  /** Some acquisition on the cycle closes a reported list. */
  ghost predicate Broken(deadlocks: seq<seq<Lock>>, c: seq<Lock>) {
    exists i, d :: 0 <= i < |c| - 1 && d in deadlocks && Closes(d, c[i], c[i + 1])
  }

  /**
   * `keys` is the order in which the dictionary yields its keys. Every list reported is a chain of
   * acquisitions that returns to its start and meets no other lock twice. Every such chain of the
   * graph has an acquisition that closes a reported list, so the report is empty exactly when there
   * is none; and no acquisition closes more lists than it has entries in the graph.
   */
  method DetectDeadlock(graph: Graph<Lock>, keys: seq<Lock>) returns (deadlocks: seq<seq<Lock>>)
    requires Elements(keys) == graph.Keys
    ensures deadlocks == [] <==> Acyclic(graph)
    ensures forall d | d in deadlocks :: IsCycle(graph, d) && Distinct(d[1..])
    ensures forall c | IsCycle(graph, c) :: Broken(deadlocks, c)
    ensures forall u, v :: TimesClosed(deadlocks, u, v) <= Occurrences(Successors(graph, u), v)
  {
    var search := new CycleSearch(graph);
    for i := 0 to |keys|
      invariant search.graph == graph && search.Consistent([])
      invariant forall j | 0 <= j < i :: keys[j] in search.visited
    {
      var node := keys[i];
      if node !in search.visited {
        search.Dfs(node, [node], []);
      }
    }
    deadlocks := search.deadlocks;
    EveryCycleIsBroken(graph, search.finished, deadlocks);
    EntriesBoundReports(graph, search.visited, Elements(search.finished), deadlocks);
    if deadlocks != [] {
      assert IsCycle(graph, deadlocks[0]);
    }
  }

  lemma EntriesBoundReports(g: Graph<Lock>, visited: set<Lock>, finished: set<Lock>, deadlocks: seq<seq<Lock>>)
    requires WithinEntries(g, visited, finished, deadlocks) && visited == finished
    ensures forall u, v :: TimesClosed(deadlocks, u, v) <= Occurrences(Successors(g, u), v)
  {
  }

  /** A finishing order of the whole graph that is successors-first but for the closing acquisitions breaks every cycle. */
  lemma EveryCycleIsBroken(g: Graph<Lock>, finished: seq<Lock>, deadlocks: seq<seq<Lock>>)
    requires SuccessorsFirst(g, finished, ClosingEdges(deadlocks)) && g.Keys <= Elements(finished)
    ensures forall c | IsCycle(g, c) :: Broken(deadlocks, c)
    ensures deadlocks == [] ==> Acyclic(g)
  {
    forall c | IsCycle(g, c)
      ensures Broken(deadlocks, c)
    {
      assert c[1] in Successors(g, c[0]);
      if Avoids(c, ClosingEdges(deadlocks)) {
        OrderedNodesAreOffCycles(g, finished, ClosingEdges(deadlocks), c);
        assert false;
      }
      var i, j :| 0 <= i < j < |c| && j == i + 1 && (c[i], c[j]) in ClosingEdges(deadlocks);
      var d :| d in deadlocks && |d| >= 2 && (d[|d| - 2], d[|d| - 1]) == (c[i], c[j]);
      assert Closes(d, c[i], c[i + 1]);
    }
  }
}
