/** Effective permissions: the memoised, depth-limited resolver against the transitive closure. */
module RbacPermissions {
  import opened Sequences
  import opened Digraphs
  import opened RbacPolicy

  function Own(roles: RoleMap, id: string): set<Permission> {
    if id in roles then set p | p in roles[id].permissions else {}
  }

  /** Every permission of every role reachable along `inherits`. */
  ghost function Closure(roles: RoleMap, id: string): set<Permission> {
    set r, p | r in roles && Reaches(Inheritance(roles), id, r) && p in roles[r].permissions :: p
  }

  /** Every inheritance chain has at most `n` edges; so no role inherits from itself. */
  ghost predicate ChainsWithin(roles: RoleMap, n: nat) {
    forall p | IsPath(Inheritance(roles), p) :: |p| <= n + 1
  }

  lemma OwnIsGranted(roles: RoleMap, id: string)
    ensures Own(roles, id) <= Closure(roles, id)
  {
    var g := Inheritance(roles);
    assert Connects(g, [id], id, id);
  }

  lemma ParentIsGranted(roles: RoleMap, id: string, parent: string)
    requires id in roles && parent in roles[id].inherits
    ensures Closure(roles, parent) <= Closure(roles, id)
  {
    var g := Inheritance(roles);
    forall p | p in Closure(roles, parent)
      ensures p in Closure(roles, id)
    {
      var r :| r in roles && Reaches(g, parent, r) && p in roles[r].permissions;
      var w :| Connects(g, w, parent, r);
      PathPrepend(g, id, w);
      assert Connects(g, [id] + w, id, r);
    }
  }

  /** What a role is granted comes from itself or through one of the roles it inherits. */
  lemma GrantedThrough(roles: RoleMap, id: string, p: Permission)
    requires p in Closure(roles, id)
    ensures p in Own(roles, id) || (id in roles && exists q :: q in roles[id].inherits && p in Closure(roles, q))
  {
    var g := Inheritance(roles);
    var r :| r in roles && Reaches(g, id, r) && p in roles[r].permissions;
    var w :| Connects(g, w, id, r);
    if |w| > 1 {
      assert w[1] in Successors(g, w[0]);
      PathSuffix(g, w, 1);
      assert Connects(g, w[1..], w[1], r);
    }
  }

  lemma GrantsAreCovered(roles: RoleMap, id: string, perms: set<Permission>)
    requires Own(roles, id) <= perms
    requires id in roles ==> forall q | q in roles[id].inherits :: Closure(roles, q) <= perms
    ensures Closure(roles, id) <= perms
  {
    forall p | p in Closure(roles, id)
      ensures p in perms
    {
      GrantedThrough(roles, id, p);
    }
  }

  /** Under a chain bound, the open calls of the resolver never return to a role. */
  lemma TrailNeverRepeats(roles: RoleMap, n: nat, trail: seq<string>)
    requires ChainsWithin(roles, n) && IsPath(Inheritance(roles), trail)
    ensures Distinct(trail)
  {
    if !Distinct(trail) {
      var g := Inheritance(roles);
      var i, j :| 0 <= i < j < |trail| && trail[i] == trail[j];
      var c := RepeatGivesCycle(g, trail, i, j);
      var p := CyclePumps(g, c, n + 1);
      assert false;
    }
  }

  /** A role at the end of a chain as long as the bound allows inherits nothing. */
  lemma LongestChainEnds(roles: RoleMap, n: nat, trail: seq<string>)
    requires ChainsWithin(roles, n) && IsPath(Inheritance(roles), trail) && |trail| == n + 1
    ensures Closure(roles, trail[n]) == Own(roles, trail[n])
  {
    var id := trail[n];
    if id in roles && roles[id].inherits != [] {
      PathAppend(Inheritance(roles), trail, roles[id].inherits[0]);
      assert false;
    }
    OwnIsGranted(roles, id);
    GrantsAreCovered(roles, id, Own(roles, id));
  }

  // ----- The resolver as a function -----

  type Cache = map<string, set<Permission>>

  /** A role's permissions, and the cache after resolving them. */
  datatype Resolved = Resolved(perms: set<Permission>, cache: Cache)

  function ResolveRole(roles: RoleMap, maxDepth: nat, id: string, visited: set<string>, depth: nat, cache: Cache): Resolved
    decreases if depth > maxDepth then 0 else maxDepth + 1 - depth, 0
  {
    if id in cache then Resolved(cache[id], cache)
    else if id in visited || depth > maxDepth then Resolved(Own(roles, id), cache)
    else if id !in roles then Resolved({}, cache)
    else
      var r := ResolveParents(roles, maxDepth, roles[id].inherits, visited + {id}, depth + 1, Resolved(Own(roles, id), cache));
      Resolved(r.perms, r.cache[id := r.perms])
  }

  /** The parents one after the other, their permissions added to `sofar`. */
  function ResolveParents(roles: RoleMap, maxDepth: nat, parents: seq<string>, visited: set<string>, depth: nat, sofar: Resolved): Resolved
    decreases if depth > maxDepth then 0 else maxDepth + 1 - depth, 1 + |parents|
  {
    if parents == [] then sofar
    else
      var r := ResolveRole(roles, maxDepth, parents[0], visited, depth, sofar.cache);
      ResolveParents(roles, maxDepth, parents[1..], visited, depth, Resolved(sofar.perms + r.perms, r.cache))
  }

  /** Every role in turn, each with an empty path. */
  function ResolveAll(roles: RoleMap, maxDepth: nat, order: seq<string>, cache: Cache): Cache {
    if order == [] then cache
    else ResolveAll(roles, maxDepth, order[1..], ResolveRole(roles, maxDepth, order[0], {}, 0, cache).cache)
  }

  class PermissionResolver {
    const roles: RoleMap
    const maxDepth: nat
    var cache: Cache

    constructor (roles: RoleMap, maxDepth: nat)
      ensures this.roles == roles && this.maxDepth == maxDepth && cache == map[]
    {
      this.roles, this.maxDepth, this.cache := roles, maxDepth, map[];
    }

    method Resolve(id: string, visited: set<string>, depth: nat) returns (perms: set<Permission>)
      requires depth <= maxDepth + 1
      modifies this
      ensures Resolved(perms, cache) == ResolveRole(roles, maxDepth, id, visited, depth, old(cache))
      decreases maxDepth + 1 - depth
    {
      if id in cache {
        return cache[id];
      }
      if id in visited || depth > maxDepth {
        return Own(roles, id);
      }
      if id !in roles {
        return {};
      }
      var parents := roles[id].inherits;
      perms := Own(roles, id);
      ghost var all := ResolveParents(roles, maxDepth, parents, visited + {id}, depth + 1, Resolved(perms, cache));
      for i := 0 to |parents|
        invariant ResolveParents(roles, maxDepth, parents[i..], visited + {id}, depth + 1, Resolved(perms, cache)) == all
      {
        assert parents[i..][0] == parents[i] && parents[i..][1..] == parents[i + 1..];
        var parentPerms := Resolve(parents[i], visited + {id}, depth + 1);
        perms := perms + parentPerms;
      }
      cache := cache[id := perms];
    }
  }

  // ----- Between a role's own permissions and its closure -----

  ghost predicate Between(roles: RoleMap, maxDepth: nat, id: string, perms: set<Permission>) {
    && Own(roles, id) <= perms <= Closure(roles, id)
    && (ChainsWithin(roles, maxDepth + 1) ==> Closure(roles, id) <= perms)
  }

  ghost predicate CacheIsBounded(roles: RoleMap, maxDepth: nat, cache: Cache) {
    forall id | id in cache :: id in roles && Between(roles, maxDepth, id, cache[id])
  }

  /** `trail` is the chain of open calls, of which the code passes on only the set of roles and the length. */
  ghost predicate OnTrail(roles: RoleMap, trail: seq<string>, id: string, visited: set<string>, depth: nat) {
    |trail| == depth + 1 && IsPath(Inheritance(roles), trail) && trail[depth] == id && visited == Elements(trail[..depth])
  }

  /** Returning only a role's own permissions loses nothing when chains are short enough. */
  lemma CutIsHarmless(roles: RoleMap, maxDepth: nat, id: string, visited: set<string>, depth: nat, trail: seq<string>)
    requires depth <= maxDepth + 1 && (id in visited || depth > maxDepth) && OnTrail(roles, trail, id, visited, depth)
    ensures Between(roles, maxDepth, id, Own(roles, id))
  {
    OwnIsGranted(roles, id);
    if ChainsWithin(roles, maxDepth + 1) {
      TrailNeverRepeats(roles, maxDepth + 1, trail);
      assert id !in trail[..depth];
      LongestChainEnds(roles, maxDepth + 1, trail);
    }
  }

  lemma {:induction false} RoleIsBounded(
    roles: RoleMap, maxDepth: nat, id: string, visited: set<string>, depth: nat, cache: Cache, trail: seq<string>)
    requires CacheIsBounded(roles, maxDepth, cache) && depth <= maxDepth + 1 && OnTrail(roles, trail, id, visited, depth)
    ensures var r := ResolveRole(roles, maxDepth, id, visited, depth, cache);
            && CacheIsBounded(roles, maxDepth, r.cache) && Between(roles, maxDepth, id, r.perms)
            && (id in roles && id !in visited && depth <= maxDepth ==> id in r.cache)
    decreases maxDepth + 1 - depth, 0
  {
    if id in cache {
    } else if id in visited || depth > maxDepth {
      CutIsHarmless(roles, maxDepth, id, visited, depth, trail);
    } else if id !in roles {
      GrantsAreCovered(roles, id, {});
    } else {
      OwnIsGranted(roles, id);
      assert trail[..depth] + [id] == trail;
      ParentsAreBounded(roles, maxDepth, id, roles[id].inherits, visited + {id}, depth + 1, Resolved(Own(roles, id), cache), trail);
      GrantsOfParents(roles, maxDepth, id, ResolveRole(roles, maxDepth, id, visited, depth, cache).perms);
    }
  }

  ghost predicate Covers(roles: RoleMap, maxDepth: nat, parents: seq<string>, perms: set<Permission>) {
    ChainsWithin(roles, maxDepth + 1) ==> forall q | q in parents :: Closure(roles, q) <= perms
  }

  lemma GrantsOfParents(roles: RoleMap, maxDepth: nat, id: string, perms: set<Permission>)
    requires id in roles && Own(roles, id) <= perms <= Closure(roles, id) && Covers(roles, maxDepth, roles[id].inherits, perms)
    ensures Between(roles, maxDepth, id, perms)
  {
    if ChainsWithin(roles, maxDepth + 1) {
      GrantsAreCovered(roles, id, perms);
    }
  }

  lemma {:induction false} ParentsAreBounded(roles: RoleMap, maxDepth: nat, id: string, parents: seq<string>,
                                            visited: set<string>, depth: nat, sofar: Resolved, trail: seq<string>)
    requires CacheIsBounded(roles, maxDepth, sofar.cache) && 0 < depth <= maxDepth + 1 && id in roles
    requires |trail| == depth && IsPath(Inheritance(roles), trail) && trail[depth - 1] == id && visited == Elements(trail)
    requires Own(roles, id) <= sofar.perms <= Closure(roles, id) && forall q | q in parents :: q in roles[id].inherits
    ensures var r := ResolveParents(roles, maxDepth, parents, visited, depth, sofar);
            && CacheIsBounded(roles, maxDepth, r.cache) && sofar.perms <= r.perms <= Closure(roles, id)
            && Covers(roles, maxDepth, parents, r.perms)
    decreases maxDepth + 1 - depth, 1 + |parents|
  {
    if parents != [] {
      var q := parents[0];
      PathAppend(Inheritance(roles), trail, q);
      assert (trail + [q])[..depth] == trail;
      RoleIsBounded(roles, maxDepth, q, visited, depth, sofar.cache, trail + [q]);
      ParentIsGranted(roles, id, q);
      var r := ResolveRole(roles, maxDepth, q, visited, depth, sofar.cache);
      ParentsAreBounded(roles, maxDepth, id, parents[1..], visited, depth, Resolved(sofar.perms + r.perms, r.cache), trail);
    }
  }

  // ----- Cached entries stay, and open calls are not cached -----

  lemma {:induction false} RoleKeepsCache(roles: RoleMap, maxDepth: nat, id: string, visited: set<string>, depth: nat, cache: Cache)
    ensures var r := ResolveRole(roles, maxDepth, id, visited, depth, cache);
            && (forall k | k in cache :: k in r.cache && r.cache[k] == cache[k])
            && (forall v | v in visited && v in r.cache :: v in cache)
    decreases if depth > maxDepth then 0 else maxDepth + 1 - depth, 0
  {
    if id !in cache && id !in visited && depth <= maxDepth && id in roles {
      ParentsKeepCache(roles, maxDepth, roles[id].inherits, visited + {id}, depth + 1, Resolved(Own(roles, id), cache));
    }
  }

  lemma {:induction false} ParentsKeepCache(
    roles: RoleMap, maxDepth: nat, parents: seq<string>, visited: set<string>, depth: nat, sofar: Resolved)
    ensures var r := ResolveParents(roles, maxDepth, parents, visited, depth, sofar);
            && (forall k | k in sofar.cache :: k in r.cache && r.cache[k] == sofar.cache[k])
            && (forall v | v in visited && v in r.cache :: v in sofar.cache)
    decreases if depth > maxDepth then 0 else maxDepth + 1 - depth, 1 + |parents|
  {
    if parents != [] {
      RoleKeepsCache(roles, maxDepth, parents[0], visited, depth, sofar.cache);
      var r := ResolveRole(roles, maxDepth, parents[0], visited, depth, sofar.cache);
      ParentsKeepCache(roles, maxDepth, parents[1..], visited, depth, Resolved(sofar.perms + r.perms, r.cache));
    }
  }

  lemma {:induction false} AllKeepsCache(roles: RoleMap, maxDepth: nat, order: seq<string>, cache: Cache)
    ensures forall k | k in cache :: k in ResolveAll(roles, maxDepth, order, cache) && ResolveAll(roles, maxDepth, order, cache)[k] == cache[k]
  {
    if order != [] {
      RoleKeepsCache(roles, maxDepth, order[0], {}, 0, cache);
      AllKeepsCache(roles, maxDepth, order[1..], ResolveRole(roles, maxDepth, order[0], {}, 0, cache).cache);
    }
  }

  lemma {:induction false} AllIsBounded(roles: RoleMap, maxDepth: nat, order: seq<string>, cache: Cache)
    requires CacheIsBounded(roles, maxDepth, cache)
    ensures CacheIsBounded(roles, maxDepth, ResolveAll(roles, maxDepth, order, cache))
    ensures forall id | id in order && id in roles :: id in ResolveAll(roles, maxDepth, order, cache)
  {
    if order != [] {
      var after := ResolveRole(roles, maxDepth, order[0], {}, 0, cache).cache;
      RoleIsBounded(roles, maxDepth, order[0], {}, 0, cache, [order[0]]);
      AllIsBounded(roles, maxDepth, order[1..], after);
      AllKeepsCache(roles, maxDepth, order[1..], after);
    }
  }

  // ----- What is never lost -----

  /** Each role's entry holds its own permissions and those that its direct parents own. */
  ghost predicate HoldsParents(roles: RoleMap, cache: Cache) {
    forall id | id in cache ::
      Own(roles, id) <= cache[id] && (id in roles ==> forall q | q in roles[id].inherits :: Own(roles, q) <= cache[id])
  }

  lemma {:induction false} RoleHoldsParents(roles: RoleMap, maxDepth: nat, id: string, visited: set<string>, depth: nat, cache: Cache)
    requires HoldsParents(roles, cache)
    ensures var r := ResolveRole(roles, maxDepth, id, visited, depth, cache); HoldsParents(roles, r.cache) && Own(roles, id) <= r.perms
    decreases if depth > maxDepth then 0 else maxDepth + 1 - depth, 0
  {
    if id !in cache && id !in visited && depth <= maxDepth && id in roles {
      ParentsAreHeld(roles, maxDepth, roles[id].inherits, visited + {id}, depth + 1, Resolved(Own(roles, id), cache));
    }
  }

  lemma {:induction false} ParentsAreHeld(
    roles: RoleMap, maxDepth: nat, parents: seq<string>, visited: set<string>, depth: nat, sofar: Resolved)
    requires HoldsParents(roles, sofar.cache)
    ensures var r := ResolveParents(roles, maxDepth, parents, visited, depth, sofar);
            && HoldsParents(roles, r.cache) && sofar.perms <= r.perms
            && forall q | q in parents :: Own(roles, q) <= r.perms
    decreases if depth > maxDepth then 0 else maxDepth + 1 - depth, 1 + |parents|
  {
    if parents != [] {
      RoleHoldsParents(roles, maxDepth, parents[0], visited, depth, sofar.cache);
      var r := ResolveRole(roles, maxDepth, parents[0], visited, depth, sofar.cache);
      ParentsAreHeld(roles, maxDepth, parents[1..], visited, depth, Resolved(sofar.perms + r.perms, r.cache));
    }
  }

  lemma {:induction false} AllHoldParents(roles: RoleMap, maxDepth: nat, order: seq<string>, cache: Cache)
    requires HoldsParents(roles, cache)
    ensures HoldsParents(roles, ResolveAll(roles, maxDepth, order, cache))
  {
    if order != [] {
      RoleHoldsParents(roles, maxDepth, order[0], {}, 0, cache);
      AllHoldParents(roles, maxDepth, order[1..], ResolveRole(roles, maxDepth, order[0], {}, 0, cache).cache);
    }
  }

  /**
   * `order` is the insertion order of the role map. On every graph each role keeps its own
   * permissions and those its parents own, and gains nothing outside its closure; when no inheritance chain has more
   * than `maxDepth + 1` edges the answer is the closure, whatever the order.
   */
  method ResolveAllPermissions(roles: RoleMap, order: seq<string>, maxDepth: nat) returns (cache: Cache)
    requires Elements(order) == roles.Keys
    ensures cache == ResolveAll(roles, maxDepth, order, map[]) && cache.Keys == roles.Keys
    ensures forall id | id in cache :: Own(roles, id) <= cache[id] <= Closure(roles, id)
    ensures HoldsParents(roles, cache)
    ensures ChainsWithin(roles, maxDepth + 1) ==> forall id | id in cache :: cache[id] == Closure(roles, id)
  {
    var resolver := new PermissionResolver(roles, maxDepth);
    for i := 0 to |order|
      invariant resolver.roles == roles && resolver.maxDepth == maxDepth
      invariant ResolveAll(roles, maxDepth, order[i..], resolver.cache) == ResolveAll(roles, maxDepth, order, map[])
    {
      assert order[i..][0] == order[i] && order[i..][1..] == order[i + 1..];
      var perms := resolver.Resolve(order[i], {}, 0);
    }
    cache := resolver.cache;
    AllIsBounded(roles, maxDepth, order, map[]);
    AllHoldParents(roles, maxDepth, order, map[]);
    assert roles.Keys <= cache.Keys;
  }
}
