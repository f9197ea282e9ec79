/** Where the resolver loses permissions: chains just beyond its depth, and cycles. */
module RbacPermissionLoss {
  import opened Sequences
  import opened Digraphs
  import opened RbacPolicy
  import opened RbacPermissions

  /** Distinct roles that each inherit exactly the next; what the last inherits is `end`. */
  ghost predicate Line(roles: RoleMap, ids: seq<string>, end: seq<string>) {
    && ids != [] && Distinct(ids) && (forall i | 0 <= i < |ids| :: ids[i] in roles)
    && (forall i | 0 <= i < |ids| - 1 :: roles[ids[i]].inherits == [ids[i + 1]])
    && roles[ids[|ids| - 1]].inherits == end
  }

  ghost predicate IsChain(roles: RoleMap, ids: seq<string>) {
    Line(roles, ids, [])
  }

  /** The last inherits the first again. */
  ghost predicate IsRing(roles: RoleMap, ids: seq<string>) {
    ids != [] && Line(roles, ids, [ids[0]])
  }

  /** What descending the line from role `k` collects: to the depth limit, or to the end and what it inherits itself. */
  function Collected(roles: RoleMap, maxDepth: nat, ids: seq<string>, end: set<Permission>, k: nat): set<Permission>
    requires k < |ids|
    decreases |ids| - k
  {
    Own(roles, ids[k]) +
    if k > maxDepth then {} else if k == |ids| - 1 then end else Collected(roles, maxDepth, ids, end, k + 1)
  }

  /** The roles from `k` on are cached with what was collected from them, and the roles above are not cached yet. */
  ghost predicate CachedFrom(roles: RoleMap, maxDepth: nat, ids: seq<string>, end: set<Permission>, k: nat, cache: Cache)
    requires k <= |ids|
  {
    && (forall j | k <= j < |ids| && j <= maxDepth :: ids[j] in cache && cache[ids[j]] == Collected(roles, maxDepth, ids, end, j))
    && (forall j | 0 <= j < |ids| && (j < k || j > maxDepth) :: ids[j] !in cache)
  }

  function EndOwn(roles: RoleMap, end: seq<string>): set<Permission> {
    if end == [] then {} else Own(roles, end[0])
  }

  lemma PrefixElements(ids: seq<string>, k: nat)
    requires Distinct(ids) && k < |ids|
    ensures ids[k] !in Elements(ids[..k]) && Elements(ids[..k + 1]) == Elements(ids[..k]) + {ids[k]}
  {
    PrefixGrows(ids, k);
  }

  /** What the last role of a line adds: nothing, or the own permissions of the role it goes back to. */
  lemma EndOfLine(roles: RoleMap, maxDepth: nat, ids: seq<string>, end: seq<string>, sofar: set<Permission>)
    requires Line(roles, ids, end) && (end == [] || end == [ids[0]])
    ensures ResolveParents(roles, maxDepth, end, Elements(ids), |ids|, Resolved(sofar, map[])) == Resolved(sofar + EndOwn(roles, end), map[])
  {
    if end != [] {
      assert ids[0] in Elements(ids);
      var r := ResolveRole(roles, maxDepth, end[0], Elements(ids), |ids|, map[]);
      assert r == Resolved(Own(roles, end[0]), map[]);
      assert end[1..] == [];
      assert ResolveParents(roles, maxDepth, end[1..], Elements(ids), |ids|, Resolved(sofar + r.perms, r.cache)) == Resolved(sofar + r.perms, map[]);
    } else {
      assert sofar + {} == sofar;
    }
  }

  lemma OneParent(roles: RoleMap, maxDepth: nat, q: string, visited: set<string>, depth: nat, sofar: set<Permission>)
    ensures var r := ResolveRole(roles, maxDepth, q, visited, depth, map[]);
            ResolveParents(roles, maxDepth, [q], visited, depth, Resolved(sofar, map[])) == Resolved(sofar + r.perms, r.cache)
  {
    var r := ResolveRole(roles, maxDepth, q, visited, depth, map[]);
    assert [q][1..] == [];
    assert ResolveParents(roles, maxDepth, [], visited, depth, Resolved(sofar + r.perms, r.cache)) == Resolved(sofar + r.perms, r.cache);
  }

  /** Entered with an empty cache, the line is resolved from its end upwards. */
  lemma {:induction false} Descend(roles: RoleMap, maxDepth: nat, ids: seq<string>, end: seq<string>, k: nat)
    requires Line(roles, ids, end) && (end == [] || end == [ids[0]]) && k < |ids| && k <= maxDepth + 1
    ensures var r := ResolveRole(roles, maxDepth, ids[k], Elements(ids[..k]), k, map[]);
            && r.perms == Collected(roles, maxDepth, ids, EndOwn(roles, end), k)
            && CachedFrom(roles, maxDepth, ids, EndOwn(roles, end), k, r.cache)
    decreases |ids| - k
  {
    PrefixElements(ids, k);
    if k <= maxDepth {
      if k == |ids| - 1 {
        assert ids[..k + 1] == ids;
        EndOfLine(roles, maxDepth, ids, end, Own(roles, ids[k]));
      } else {
        Descend(roles, maxDepth, ids, end, k + 1);
        OneParent(roles, maxDepth, ids[k + 1], Elements(ids[..k + 1]), k + 1, Own(roles, ids[k]));
      }
    }
  }

  /** Resolved first, the top of a line leaves the collected permissions of every role within the depth in the result. */
  lemma ResolvedFromTop(roles: RoleMap, maxDepth: nat, ids: seq<string>, end: seq<string>, order: seq<string>, j: nat)
    requires Line(roles, ids, end) && (end == [] || end == [ids[0]]) && order != [] && order[0] == ids[0]
    requires j < |ids| && j <= maxDepth
    ensures var all := ResolveAll(roles, maxDepth, order, map[]);
            ids[j] in all && all[ids[j]] == Collected(roles, maxDepth, ids, EndOwn(roles, end), j)
  {
    Descend(roles, maxDepth, ids, end, 0);
    assert Elements(ids[..0]) == {};
    AllKeepsCache(roles, maxDepth, order[1..], ResolveRole(roles, maxDepth, order[0], {}, 0, map[]).cache);
  }

  // ----- Chains -----

  /** Of the line, only role `at` owns the permission. */
  ghost predicate OwnedOnlyAt(roles: RoleMap, ids: seq<string>, at: nat, p: Permission) {
    at < |ids| && forall i | 0 <= i < |ids| :: p in Own(roles, ids[i]) <==> i == at
  }

  lemma {:induction false} LastIsCollectedIff(roles: RoleMap, maxDepth: nat, ids: seq<string>, k: nat, p: Permission)
    requires k < |ids| && OwnedOnlyAt(roles, ids, |ids| - 1, p) && k <= maxDepth + 1
    ensures p in Collected(roles, maxDepth, ids, {}, k) <==> |ids| - 1 <= maxDepth + 1
    decreases |ids| - k
  {
    if k <= maxDepth && k < |ids| - 1 {
      LastIsCollectedIff(roles, maxDepth, ids, k + 1, p);
    }
  }

  lemma {:induction false} LineIsPath(roles: RoleMap, ids: seq<string>, end: seq<string>, i: nat, j: nat)
    requires Line(roles, ids, end) && i <= j < |ids|
    ensures Reaches(Inheritance(roles), ids[i], ids[j])
  {
    assert Connects(Inheritance(roles), ids[i..j + 1], ids[i], ids[j]);
  }

  /**
   * A chain resolved from its top has the last role's permission there exactly if it has at most
   * `maxDepth + 1` edges: the bound of the resolver cannot be improved.
   */
  lemma ChainIsCompleteIff(roles: RoleMap, maxDepth: nat, ids: seq<string>, order: seq<string>, p: Permission)
    requires IsChain(roles, ids) && order != [] && order[0] == ids[0] && OwnedOnlyAt(roles, ids, |ids| - 1, p)
    ensures p in Closure(roles, ids[0])
    ensures var all := ResolveAll(roles, maxDepth, order, map[]);
            ids[0] in all && (p in all[ids[0]] <==> |ids| - 1 <= maxDepth + 1)
  {
    LineIsPath(roles, ids, [], 0, |ids| - 1);
    ResolvedFromTop(roles, maxDepth, ids, [], order, 0);
    LastIsCollectedIff(roles, maxDepth, ids, 0, p);
  }

  // ----- Rings -----

  lemma {:induction false} AboveIsNotCollected(roles: RoleMap, maxDepth: nat, ids: seq<string>, end: set<Permission>, at: nat, k: nat, p: Permission)
    requires OwnedOnlyAt(roles, ids, at, p) && at < k < |ids| && p !in end
    ensures p !in Collected(roles, maxDepth, ids, end, k)
    decreases |ids| - k
  {
    if k <= maxDepth && k < |ids| - 1 {
      AboveIsNotCollected(roles, maxDepth, ids, end, at, k + 1, p);
    }
  }

  lemma RingCloses(roles: RoleMap, ids: seq<string>, i: nat, j: nat)
    requires IsRing(roles, ids) && i < |ids| && j < |ids|
    ensures Reaches(Inheritance(roles), ids[i], ids[j])
  {
    var g, last := Inheritance(roles), ids[|ids| - 1];
    var down, up := ids[i..], ids[..j + 1];
    assert ids[0] in Successors(g, last);
    PathAppend(g, down, ids[0]);
    PathJoin(g, down + [ids[0]], up);
    var p := down + [ids[0]] + up[1..];
    assert p[0] == ids[i] && p[|p| - 1] == up[|up| - 1];
    assert Connects(g, p, ids[i], ids[j]);
  }

  /** In a ring of three or more roles, resolved from its first, the third lacks what only the second owns. */
  lemma RingLosesPermission(roles: RoleMap, maxDepth: nat, ids: seq<string>, order: seq<string>, p: Permission)
    requires IsRing(roles, ids) && |ids| >= 3 && maxDepth >= 2 && order != [] && order[0] == ids[0]
    requires OwnedOnlyAt(roles, ids, 1, p)
    ensures p in Closure(roles, ids[2])
    ensures var all := ResolveAll(roles, maxDepth, order, map[]); ids[2] in all && p !in all[ids[2]]
  {
    RingCloses(roles, ids, 2, 1);
    ResolvedFromTop(roles, maxDepth, ids, [ids[0]], order, 2);
    assert p !in Own(roles, ids[0]);
    AboveIsNotCollected(roles, maxDepth, ids, Own(roles, ids[0]), 1, 2, p);
  }

  // ----- Short rings lose nothing -----

  lemma {:induction false} PathStaysInRing(roles: RoleMap, ids: seq<string>, p: seq<string>)
    requires IsRing(roles, ids) && IsPath(Inheritance(roles), p) && p[0] in ids
    ensures p[|p| - 1] in ids
    decreases |p|
  {
    if |p| > 1 {
      var i :| 0 <= i < |ids| && ids[i] == p[0];
      assert p[1] in Successors(Inheritance(roles), p[0]);
      assert p[1] == ids[if i == |ids| - 1 then 0 else i + 1];
      PathSuffix(Inheritance(roles), p, 1);
      PathStaysInRing(roles, ids, p[1..]);
    }
  }

  lemma RingClosure(roles: RoleMap, ids: seq<string>, i: nat, perms: set<Permission>)
    requires IsRing(roles, ids) && i < |ids| && forall j | 0 <= j < |ids| :: Own(roles, ids[j]) <= perms
    ensures Closure(roles, ids[i]) <= perms
  {
    forall p | p in Closure(roles, ids[i])
      ensures p in perms
    {
      var r :| r in roles && Reaches(Inheritance(roles), ids[i], r) && p in roles[r].permissions;
      var w :| Connects(Inheritance(roles), w, ids[i], r);
      PathStaysInRing(roles, ids, w);
      var j :| 0 <= j < |ids| && ids[j] == r;
      assert p in Own(roles, ids[j]);
    }
  }

  /** In a ring of one or two roles every role gets all of the ring, and nothing is lost. */
  lemma ShortRingIsComplete(roles: RoleMap, maxDepth: nat, ids: seq<string>, order: seq<string>, i: nat)
    requires IsRing(roles, ids) && |ids| <= 2 && maxDepth >= 1 && order != [] && order[0] == ids[0] && i < |ids|
    ensures var all := ResolveAll(roles, maxDepth, order, map[]); ids[i] in all && Closure(roles, ids[i]) <= all[ids[i]]
  {
    ResolvedFromTop(roles, maxDepth, ids, [ids[0]], order, i);
    var end, last := Own(roles, ids[0]), |ids| - 1;
    assert Collected(roles, maxDepth, ids, end, last) == Own(roles, ids[last]) + end;
    RingClosure(roles, ids, i, Collected(roles, maxDepth, ids, end, i));
  }
}
