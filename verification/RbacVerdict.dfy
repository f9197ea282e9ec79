/** Escalation findings, least-privilege violations and the verdict of an RBAC audit. */
module RbacVerdict {
  import opened Wrappers
  import opened Sequences
  import opened Digraphs
  import opened Text
  import opened RbacPolicy
  import opened RbacPermissions

  type PermissionMap = map<string, set<Permission>>

  /** `adminName` stands for the regular expression that recognises admin-like names. */
  datatype Settings = Settings(maxDepth: nat, dangerous: set<Permission>, adminName: string -> bool)

  const DEFAULT_MAX_DEPTH: nat := 10
  const DEFAULT_DANGEROUS: set<Permission> :=
    {"*", "admin:*", "assign:roles", "manage:permissions", "manage:users", "impersonate:users", "sudo"}

  /** Absent options take the defaults; configured dangerous permissions are added to the built-in ones. */
  function Configure(maxDepth: Option<int>, extra: seq<Permission>, adminName: string -> bool): (r: Option<Settings>)
    ensures r.Some? <==> (maxDepth.Some? ==> maxDepth.value >= 1) && forall p | p in extra :: !Blank(p)
    ensures r.Some? ==> r.value.dangerous == DEFAULT_DANGEROUS + Elements(extra)
    ensures r.Some? ==> r.value.maxDepth == (if maxDepth.Some? then maxDepth.value else 10) && r.value.adminName == adminName
  {
    if (maxDepth.Some? && maxDepth.value < 1) || exists p | p in extra :: Blank(p) then None
    else
      Some(Settings(if maxDepth.Some? then maxDepth.value else DEFAULT_MAX_DEPTH, DEFAULT_DANGEROUS + Elements(extra), adminName))
  }

  datatype Severity = HIGH | CRITICAL

  datatype Vector =
    | DirectAdmin
    | Dangerous(permissions: set<Permission>)
    | AdminLikeName
    | Inherited(chain: seq<string>)

  datatype Finding = Finding(userId: string, userName: string, roleId: string, roleName: string, vector: Vector, severity: Severity)

  datatype Violation = Violation(userId: string, userName: string, excessive: set<Permission>, severity: Severity)

  datatype Status = SAFE | VIOLATIONS_FOUND

  datatype ScanResult = ScanResult(status: Status, findings: seq<Finding>, violations: seq<Violation>)

  // ----- What the audit is about, stated on the policy alone -----

  /** The role is an admin role, or owns a dangerous permission itself. */
  ghost predicate Powerful(s: Settings, roles: RoleMap, id: string) {
    id in roles && (roles[id].isAdmin || exists p :: p in roles[id].permissions && p in s.dangerous)
  }

  ghost predicate NamedLikeAdmin(s: Settings, roles: RoleMap, id: string) {
    id in roles && (s.adminName(roles[id].name) || s.adminName(id))
  }

  /** One or more inheritance steps lead from `id` to `t`. */
  ghost predicate InheritsFrom(roles: RoleMap, id: string, t: string) {
    exists p :: Connects(Inheritance(roles), p, id, t) && |p| >= 2
  }

  /** Holding the role escalates: some role it reaches is powerful, or has an admin-like name. */
  ghost predicate Escalates(s: Settings, roles: RoleMap, id: string) {
    || (exists t :: Reaches(Inheritance(roles), id, t) && Powerful(s, roles, t))
    || (id in roles && s.adminName(roles[id].name))
    || (exists t :: InheritsFrom(roles, id, t) && NamedLikeAdmin(s, roles, t))
  }

  /** What resolution guarantees on every graph, complete or not. */
  ghost predicate Plausible(roles: RoleMap, perms: PermissionMap) {
    && perms.Keys == roles.Keys
    && forall id | id in perms :: Own(roles, id) <= perms[id] <= Closure(roles, id)
  }

  // ----- Admin roles -----

  ghost predicate IsAdminRole(s: Settings, roles: RoleMap, perms: PermissionMap, id: string)
    requires perms.Keys == roles.Keys
  {
    id in roles && (roles[id].isAdmin || NamedLikeAdmin(s, roles, id) || perms[id] * s.dangerous != {})
  }

  ghost function AdminIds(s: Settings, roles: RoleMap, perms: PermissionMap): set<string>
    requires perms.Keys == roles.Keys
  {
    set id | id in roles && IsAdminRole(s, roles, perms, id)
  }

  method ResolveAdminRoleIds(s: Settings, roles: RoleMap, order: seq<string>, perms: PermissionMap)
    returns (admins: set<string>)
    requires Elements(order) == roles.Keys == perms.Keys
    ensures admins == AdminIds(s, roles, perms)
  {
    admins := {};
    for i := 0 to |order|
      invariant forall id :: id in admins <==> id in order[..i] && IsAdminRole(s, roles, perms, id)
    {
      var id := order[i];
      var role := roles[id];
      if role.isAdmin || s.adminName(role.name) || s.adminName(id) || perms[id] * s.dangerous != {} {
        admins := admins + {id};
      }
    }
    assert order[..|order|] == order;
  }

  // ----- The path-visited search for an admin ancestor -----

  function FindAdminChain(g: Graph<string>, admins: set<string>, roleId: string, chain: seq<string>, visited: set<string>): seq<string>
    decreases g.Keys - visited, 0
  {
    if roleId in visited || roleId !in g then []
    else SearchParents(g, admins, g[roleId], chain, visited + {roleId})
  }

  function SearchParents(g: Graph<string>, admins: set<string>, parents: seq<string>, chain: seq<string>, visited: set<string>): seq<string>
    decreases g.Keys - visited, 1 + |parents|
  {
    if parents == [] then []
    else if parents[0] in admins then chain + [parents[0]]
    else
      var deeper := FindAdminChain(g, admins, parents[0], chain + [parents[0]], visited);
      if deeper != [] then deeper else SearchParents(g, admins, parents[1..], chain, visited)
  }

  /** `full` is an inheritance path that starts at `root`, follows `chain`, and goes on to an admin role. */
  ghost predicate ChainToAdmin(g: Graph<string>, admins: set<string>, root: string, chain: seq<string>, full: seq<string>) {
    IsPath(g, [root] + full) && chain < full && full[|full| - 1] in admins
  }

  lemma {:induction false} FoundChainIsReal(
    g: Graph<string>, admins: set<string>, root: string, roleId: string, chain: seq<string>, visited: set<string>)
    requires IsPath(g, [root] + chain) && ([root] + chain)[|chain|] == roleId
    ensures var full := FindAdminChain(g, admins, roleId, chain, visited);
            full != [] ==> ChainToAdmin(g, admins, root, chain, full)
    decreases g.Keys - visited, 0
  {
    if roleId !in visited && roleId in g {
      FoundAmongParents(g, admins, root, roleId, g[roleId], chain, visited + {roleId});
    }
  }

  lemma {:induction false} FoundAmongParents(
    g: Graph<string>, admins: set<string>, root: string, roleId: string, parents: seq<string>, chain: seq<string>, visited: set<string>)
    requires IsPath(g, [root] + chain) && ([root] + chain)[|chain|] == roleId
    requires Elements(parents) <= Elements(Successors(g, roleId))
    ensures var full := SearchParents(g, admins, parents, chain, visited);
            full != [] ==> ChainToAdmin(g, admins, root, chain, full)
    decreases g.Keys - visited, 1 + |parents|
  {
    if parents != [] {
      var longer := chain + [parents[0]];
      assert parents[0] in Elements(parents);
      PathAppend(g, [root] + chain, parents[0]);
      assert [root] + chain + [parents[0]] == [root] + longer;
      if parents[0] !in admins {
        FoundChainIsReal(g, admins, root, parents[0], longer, visited);
        FoundAmongParents(g, admins, root, roleId, parents[1..], chain, visited);
      }
    }
  }

  /** A path to an admin role whose earlier nodes are new and distinct makes the search succeed. */
  lemma {:induction false} SearchSucceeds(g: Graph<string>, admins: set<string>, q: seq<string>, chain: seq<string>, visited: set<string>)
    requires IsPath(g, q) && |q| >= 2 && q[|q| - 1] in admins
    requires Distinct(q[..|q| - 1]) && Elements(q[..|q| - 1]) !! visited
    ensures FindAdminChain(g, admins, q[0], chain, visited) != []
    decreases |q|, 0
  {
    var open := q[..|q| - 1];
    assert q[0] == open[0] && open[0] in open;
    assert q[1] in Successors(g, q[0]);
    ParentsSearchSucceeds(g, admins, q, g[q[0]], chain, visited + {q[0]});
  }

  lemma {:induction false} ParentsSearchSucceeds(
    g: Graph<string>, admins: set<string>, q: seq<string>, parents: seq<string>, chain: seq<string>, visited: set<string>)
    requires IsPath(g, q) && |q| >= 2 && q[|q| - 1] in admins && q[1] in parents
    requires Distinct(q[..|q| - 1]) && Elements(q[1..|q| - 1]) !! visited - {q[0]} && q[0] in visited
    ensures SearchParents(g, admins, parents, chain, visited) != []
    decreases |q| - 1, 1 + |parents|
  {
    if parents[0] in admins {
    } else if parents[0] == q[1] {
      var rest := q[1..];
      PathSuffix(g, q, 1);
      assert |q| > 2;
      assert rest[..|rest| - 1] == q[1..|q| - 1] == q[..|q| - 1][1..];
      assert q[0] !in rest[..|rest| - 1];
      SearchSucceeds(g, admins, rest, chain + [q[1]], visited);
    } else {
      ParentsSearchSucceeds(g, admins, q, parents[1..], chain, visited);
    }
  }

  /** From any path of one or more edges, one whose nodes before the last are distinct. */
  lemma SimplePathOut(g: Graph<string>, p: seq<string>) returns (q: seq<string>)
    requires IsPath(g, p) && |p| >= 2
    ensures IsPath(g, q) && |q| >= 2 && q[0] == p[0] && q[|q| - 1] == p[|p| - 1] && Distinct(q[..|q| - 1])
  {
    var r, t := p[0], p[|p| - 1];
    PathSuffix(g, p, 1);
    assert p[1] in Successors(g, r);
    var s := Shortcut(g, p[1..], p[1], t);
    if r in s[..|s| - 1] {
      var k := FirstIndex(s[..|s| - 1], r);
      PathSuffix(g, s, k);
      q := s[k..];
    } else {
      PathPrepend(g, r, s);
      q := [r] + s;
      assert q[..|q| - 1] == [r] + s[..|s| - 1];
    }
  }

  /** The search finds a chain exactly when an admin role is inherited, cycles or not. */
  lemma ChainFoundIff(g: Graph<string>, admins: set<string>, roleId: string)
    ensures FindAdminChain(g, admins, roleId, [], {}) != []
      <==> exists p :: IsPath(g, p) && |p| >= 2 && p[0] == roleId && p[|p| - 1] in admins
  {
    var full := FindAdminChain(g, admins, roleId, [], {});
    FoundChainIsReal(g, admins, roleId, roleId, [], {});
    if full != [] {
      var p := [roleId] + full;
      assert p[|p| - 1] == full[|full| - 1];
      assert IsPath(g, p) && |p| >= 2 && p[0] == roleId && p[|p| - 1] in admins;
    }
    if p :| IsPath(g, p) && |p| >= 2 && p[0] == roleId && p[|p| - 1] in admins {
      var q := SimplePathOut(g, p);
      SearchSucceeds(g, admins, q, [], {});
    }
  }

  // ----- Escalation findings -----

  const CRITICAL_PERMISSIONS: set<Permission> := {"*", "sudo", "admin:*", "impersonate:users"}

  ghost predicate HoldsCritical(ps: set<Permission>) {
    "*" in ps || "sudo" in ps || "admin:*" in ps || "impersonate:users" in ps
  }

  lemma CriticalIff(ps: set<Permission>)
    ensures ps * CRITICAL_PERMISSIONS != {} <==> HoldsCritical(ps)
  {
    var both := ps * CRITICAL_PERMISSIONS;
    assert forall p :: p in both <==> p in ps && (p == "*" || p == "sudo" || p == "admin:*" || p == "impersonate:users");
    if HoldsCritical(ps) {
      assert "*" in both || "sudo" in both || "admin:*" in both || "impersonate:users" in both;
    }
  }

  /** The vectors in the order in which the audit tries them for one role of one user. */
  function Assess(s: Settings, roles: RoleMap, perms: PermissionMap, admins: set<string>, roleId: string): Option<(Vector, Severity)> {
    if roleId !in roles then None else
    var role := roles[roleId];
    var dangerous := (if roleId in perms then perms[roleId] else {}) * s.dangerous;
    if roleId in admins && role.isAdmin then Some((DirectAdmin, CRITICAL))
    else if dangerous != {} then Some((Dangerous(dangerous), if dangerous * CRITICAL_PERMISSIONS != {} then CRITICAL else HIGH))
    else if roleId in admins && s.adminName(role.name) then Some((AdminLikeName, HIGH))
    else
      var chain := FindAdminChain(Inheritance(roles), admins, roleId, [], {});
      if chain != [] then Some((Inherited(chain), HIGH)) else None
  }

  function FindingsOf(s: Settings, roles: RoleMap, perms: PermissionMap, admins: set<string>, user: User, held: seq<string>): seq<Finding> {
    if held == [] then []
    else
      var roleId := held[|held| - 1];
      var earlier := FindingsOf(s, roles, perms, admins, user, held[..|held| - 1]);
      match Assess(s, roles, perms, admins, roleId)
      case None => earlier
      case Some((vector, severity)) =>
        earlier + [Finding(user.id, user.name, roleId, if roleId in roles then roles[roleId].name else "", vector, severity)]
  }

  /** One finding for each position of the list whose role is assessed as escalating, in order. */
  lemma {:induction false} FindingIff(
    s: Settings, roles: RoleMap, perms: PermissionMap, admins: set<string>, user: User, held: seq<string>, roleId: string)
    ensures (exists f :: f in FindingsOf(s, roles, perms, admins, user, held) && f.roleId == roleId)
      <==> roleId in held && Assess(s, roles, perms, admins, roleId).Some?
    ensures forall f | f in FindingsOf(s, roles, perms, admins, user, held) ::
              && f.userId == user.id && f.userName == user.name && f.roleId in held
              && f.roleId in roles && f.roleName == roles[f.roleId].name
              && Assess(s, roles, perms, admins, f.roleId) == Some((f.vector, f.severity))
  {
    if held != [] {
      var n := |held| - 1;
      assert held == held[..n] + [held[n]];
      FindingIff(s, roles, perms, admins, user, held[..n], roleId);
      var all := FindingsOf(s, roles, perms, admins, user, held);
      var earlier := FindingsOf(s, roles, perms, admins, user, held[..n]);
      if Assess(s, roles, perms, admins, held[n]).Some? {
        assert all[|earlier|].roleId == held[n] && all[|earlier|] in all;
        assert forall f :: f in all <==> f in earlier || f == all[|earlier|];
      }
    }
  }

  ghost predicate AdminsAre(s: Settings, roles: RoleMap, perms: PermissionMap, admins: set<string>) {
    perms.Keys == roles.Keys && forall id :: id in admins <==> IsAdminRole(s, roles, perms, id)
  }

  lemma PowerfulIsAdmin(s: Settings, roles: RoleMap, perms: PermissionMap, admins: set<string>, t: string)
    requires Plausible(roles, perms) && AdminsAre(s, roles, perms, admins) && Powerful(s, roles, t)
    ensures t in admins
    ensures !roles[t].isAdmin ==> perms[t] * s.dangerous != {}
  {
    if !roles[t].isAdmin {
      var p :| p in roles[t].permissions && p in s.dangerous;
      assert p in Own(roles, t) && p in perms[t] * s.dangerous;
    }
  }

  /** The other way: admin power always traces back to a powerful role. */
  lemma PowerIsReal(s: Settings, roles: RoleMap, perms: PermissionMap, t: string)
    requires Plausible(roles, perms) && t in roles && (roles[t].isAdmin || perms[t] * s.dangerous != {})
    ensures exists u :: Reaches(Inheritance(roles), t, u) && Powerful(s, roles, u)
  {
    var g := Inheritance(roles);
    if roles[t].isAdmin {
      assert Connects(g, [t], t, t);
      assert Reaches(g, t, t) && Powerful(s, roles, t);
    } else {
      var p :| p in perms[t] * s.dangerous;
      assert p in Closure(roles, t);
      var u :| u in roles && Reaches(g, t, u) && p in roles[u].permissions;
      assert Powerful(s, roles, u);
    }
  }

  lemma EscalatingIsAssessed(s: Settings, roles: RoleMap, perms: PermissionMap, admins: set<string>, id: string)
    requires Plausible(roles, perms) && AdminsAre(s, roles, perms, admins) && id in roles
    requires Escalates(s, roles, id)
    ensures Assess(s, roles, perms, admins, id).Some?
  {
    var g := Inheritance(roles);
    ChainFoundIff(g, admins, id);
    if s.adminName(roles[id].name) {
    } else if t :| Reaches(g, id, t) && Powerful(s, roles, t) {
      PowerfulIsAdmin(s, roles, perms, admins, t);
      var p :| Connects(g, p, id, t);
      if |p| == 1 {
        assert t == id;
      }
    } else {
      var t :| InheritsFrom(roles, id, t) && NamedLikeAdmin(s, roles, t);
      var p :| Connects(g, p, id, t) && |p| >= 2;
      assert t in admins;
    }
  }

  lemma AssessedIsEscalating(s: Settings, roles: RoleMap, perms: PermissionMap, admins: set<string>, id: string)
    requires Plausible(roles, perms) && AdminsAre(s, roles, perms, admins) && id in roles
    requires Assess(s, roles, perms, admins, id).Some?
    ensures Escalates(s, roles, id)
  {
    var g := Inheritance(roles);
    if roles[id].isAdmin || perms[id] * s.dangerous != {} {
      PowerIsReal(s, roles, perms, id);
    } else if !s.adminName(roles[id].name) {
      ChainFoundIff(g, admins, id);
      var p :| IsPath(g, p) && |p| >= 2 && p[0] == id && p[|p| - 1] in admins;
      ChainEscalates(s, roles, perms, p);
    }
  }

  lemma ChainEscalates(s: Settings, roles: RoleMap, perms: PermissionMap, p: seq<string>)
    requires Plausible(roles, perms) && IsPath(Inheritance(roles), p) && |p| >= 2
    requires IsAdminRole(s, roles, perms, p[|p| - 1])
    ensures Escalates(s, roles, p[0])
  {
    var g := Inheritance(roles);
    var t := p[|p| - 1];
    if NamedLikeAdmin(s, roles, t) {
      assert Connects(g, p, p[0], t);
      assert InheritsFrom(roles, p[0], t);
    } else {
      PowerIsReal(s, roles, perms, t);
      var u :| Reaches(g, t, u) && Powerful(s, roles, u);
      var q :| Connects(g, q, t, u);
      PathJoin(g, p, q);
      assert Connects(g, p + q[1..], p[0], u);
    }
  }

  /** The findings of the users in order, each user's roles in order. */
  function AllFindings(s: Settings, roles: RoleMap, perms: PermissionMap, admins: set<string>, users: seq<User>): seq<Finding> {
    if users == [] then []
    else
      var n := |users| - 1;
      AllFindings(s, roles, perms, admins, users[..n]) + FindingsOf(s, roles, perms, admins, users[n], users[n].roles)
  }

  method DetectPrivilegeEscalation(s: Settings, roles: RoleMap, perms: PermissionMap, admins: set<string>, users: seq<User>)
    returns (findings: seq<Finding>)
    ensures findings == AllFindings(s, roles, perms, admins, users)
  {
    findings := [];
    for i := 0 to |users|
      invariant findings == AllFindings(s, roles, perms, admins, users[..i])
    {
      var user := users[i];
      ghost var earlier := findings;
      for j := 0 to |user.roles|
        invariant findings == earlier + FindingsOf(s, roles, perms, admins, user, user.roles[..j])
      {
        var roleId := user.roles[j];
        assert user.roles[..j + 1][..j] == user.roles[..j];
        match Assess(s, roles, perms, admins, roleId) {
          case None =>
          case Some((vector, severity)) =>
            findings := findings + [Finding(user.id, user.name, roleId, roles[roleId].name, vector, severity)];
        }
      }
      assert user.roles[..|user.roles|] == user.roles && users[..i + 1][..i] == users[..i];
    }
    assert users[..|users|] == users;
  }

  lemma {:induction false} UserFindingIff(
    s: Settings, roles: RoleMap, perms: PermissionMap, admins: set<string>, users: seq<User>, user: User, roleId: string)
    requires user in users && DistinctUserIds(users)
    ensures Found(AllFindings(s, roles, perms, admins, users), user.id, roleId)
      <==> roleId in user.roles && Assess(s, roles, perms, admins, roleId).Some?
  {
    var n := |users| - 1;
    var init, last := users[..n], users[n];
    assert users == init + [last];
    var all := AllFindings(s, roles, perms, admins, users);
    var earlier := AllFindings(s, roles, perms, admins, init);
    var own := FindingsOf(s, roles, perms, admins, last, last.roles);
    assert forall f :: f in all <==> f in earlier || f in own;
    FindingIff(s, roles, perms, admins, last, last.roles, roleId);
    if user == last {
      FindingsNameUsers(s, roles, perms, admins, init);
    } else {
      UserFindingIff(s, roles, perms, admins, init, user, roleId);
      assert user.id != last.id;
    }
  }

  /** The finding is about a user of the list and a role that the user holds, by their names. */
  ghost predicate Attributed(roles: RoleMap, users: seq<User>, f: Finding) {
    && (exists u :: u in users && u.id == f.userId && u.name == f.userName && f.roleId in u.roles)
    && f.roleId in roles && f.roleName == roles[f.roleId].name
  }

  lemma {:induction false} FindingsNameUsers(s: Settings, roles: RoleMap, perms: PermissionMap, admins: set<string>, users: seq<User>)
    ensures forall f | f in AllFindings(s, roles, perms, admins, users) ::
              Attributed(roles, users, f) && Assess(s, roles, perms, admins, f.roleId) == Some((f.vector, f.severity))
  {
    if users != [] {
      var n := |users| - 1;
      FindingsNameUsers(s, roles, perms, admins, users[..n]);
      FindingIff(s, roles, perms, admins, users[n], users[n].roles, "");
      assert users[n] in users;
    }
  }

  ghost predicate Found(findings: seq<Finding>, userId: string, roleId: string) {
    exists f :: f in findings && f.userId == userId && f.roleId == roleId
  }

  // ----- Least privilege -----

  predicate Excessive(s: Settings, p: Permission) {
    p == "*" || (|p| >= 2 && p[|p| - 2..] == ":*") || p in s.dangerous
  }

  lemma ExcessiveIff(s: Settings, p: Permission)
    ensures Excessive(s, p) <==> p == "*" || p in s.dangerous || exists scope :: p == scope + ":*"
  {
    if |p| >= 2 && p[|p| - 2..] == ":*" {
      assert p == p[..|p| - 2] + ":*";
    }
  }

  method CollectPermissions(perms: PermissionMap, held: seq<string>) returns (all: set<Permission>)
    ensures forall p :: p in all <==> exists r :: r in held && r in perms && p in perms[r]
  {
    all := {};
    for i := 0 to |held|
      invariant forall p :: p in all <==> exists r :: r in held[..i] && r in perms && p in perms[r]
    {
      ghost var before := all;
      if held[i] in perms {
        all := all + perms[held[i]];
      }
      forall p
        ensures p in all <==> exists r :: r in held[..i + 1] && r in perms && p in perms[r]
      {
        assert held[i] in held[..i + 1];
        if p in before {
          var r :| r in held[..i] && r in perms && p in perms[r];
          assert r in held[..i + 1];
        }
      }
    }
    assert held[..|held|] == held;
  }

  /** The excessive permissions that the resolved map gives to a user. */
  ghost predicate Exceeds(s: Settings, perms: PermissionMap, user: User, p: Permission) {
    Excessive(s, p) && exists r :: r in user.roles && r in perms && p in perms[r]
  }

  ghost predicate Reported(violations: seq<Violation>, userId: string, p: Permission) {
    exists v :: v in violations && v.userId == userId && p in v.excessive
  }

  /** Something excessive, about a user of the list, and critical exactly for the three widest permissions. */
  ghost predicate GradedViolation(users: seq<User>, v: Violation) {
    && v.excessive != {}
    && (exists u :: u in users && u.id == v.userId && u.name == v.userName)
    && (v.severity == CRITICAL <==> "*" in v.excessive || "admin:*" in v.excessive || "sudo" in v.excessive)
  }

  method DetectLeastPrivilegeViolations(s: Settings, perms: PermissionMap, users: seq<User>) returns (violations: seq<Violation>)
    requires DistinctUserIds(users)
    ensures forall u, p | u in users :: Reported(violations, u.id, p) <==> Exceeds(s, perms, u, p)
    ensures forall v | v in violations :: GradedViolation(users, v)
    ensures forall i, j | 0 <= i < j < |violations| :: violations[i].userId != violations[j].userId
  {
    violations := [];
    for i := 0 to |users|
      invariant forall j, p | 0 <= j < i :: Reported(violations, users[j].id, p) <==> Exceeds(s, perms, users[j], p)
      invariant forall v | v in violations :: GradedViolation(users[..i], v)
      invariant forall k, l | 0 <= k < l < |violations| :: violations[k].userId != violations[l].userId
    {
      var user := users[i];
      var all := CollectPermissions(perms, user.roles);
      var excessive := set p | p in all && Excessive(s, p);
      ghost var before := violations;
      if excessive != {} {
        var severity := if "*" in excessive || "admin:*" in excessive || "sudo" in excessive then CRITICAL else HIGH;
        violations := violations + [Violation(user.id, user.name, excessive, severity)];
        assert violations[|before|] in violations;
        assert forall v :: v in violations <==> v in before || v == violations[|before|];
      }
      forall p
        ensures p in excessive <==> Exceeds(s, perms, user, p)
      {
      }
      forall v | v in violations
        ensures GradedViolation(users[..i + 1], v) && (v in before ==> v.userId != user.id)
      {
        if v in before {
          GradedLater(users, i, v);
        } else {
          assert users[..i + 1][i] == user && user in users[..i + 1];
        }
      }
    }
    assert users[..|users|] == users;
  }

  lemma GradedLater(users: seq<User>, i: nat, v: Violation)
    requires i < |users| && GradedViolation(users[..i], v) && DistinctUserIds(users)
    ensures GradedViolation(users[..i + 1], v) && v.userId != users[i].id
  {
    var u :| u in users[..i] && u.id == v.userId && u.name == v.userName;
    var j :| 0 <= j < i && users[j] == u;
    assert users[..i + 1][j] == u;
  }

  // ----- The audit -----

  /** A reported chain starts at the role held, follows `inherits`, and ends at an admin role. */
  ghost predicate GenuineChain(s: Settings, roles: RoleMap, roleId: string, chain: seq<string>) {
    && chain != []
    && IsPath(Inheritance(roles), [roleId] + chain)
    && var t := chain[|chain| - 1];
       NamedLikeAdmin(s, roles, t) || exists u :: Reaches(Inheritance(roles), t, u) && Powerful(s, roles, u)
  }

  /**
   * The finding names a user and a role that the user holds. Its vector is the first that applies:
   * an admin role, then dangerous permissions among those resolved for the role, all of them named,
   * then an admin-like name, then an inherited admin role; and its severity goes with it.
   */
  ghost predicate Justified(s: Settings, roles: RoleMap, perms: PermissionMap, users: seq<User>, f: Finding) {
    && Attributed(roles, users, f) && f.roleId in perms
    && var dangerous := perms[f.roleId] * s.dangerous;
       var admin, named := roles[f.roleId].isAdmin, s.adminName(f.roleName);
       match f.vector
       case DirectAdmin => admin && f.severity == CRITICAL
       case Dangerous(ps) =>
         && !admin && ps == dangerous != {}
         && (f.severity == CRITICAL <==> HoldsCritical(ps))
       case AdminLikeName => !admin && dangerous == {} && named && f.severity == HIGH
       case Inherited(chain) =>
         && !admin && dangerous == {} && !named && f.severity == HIGH
         && GenuineChain(s, roles, f.roleId, chain)
  }

  ghost predicate Holds(roles: RoleMap, user: User, p: Permission) {
    exists r :: r in user.roles && p in Closure(roles, r)
  }

  ghost predicate HoldsDirectly(roles: RoleMap, user: User, p: Permission) {
    exists r :: r in user.roles && p in Own(roles, r)
  }

  /** The permissions that the resolver gives each role of the policy, its roles taken in order. */
  ghost function ResolvedFor(s: Settings, policy: Policy): PermissionMap {
    ResolveAll(RolesById(policy.roles), s.maxDepth, RoleOrder(policy.roles), map[])
  }

  function RoleOrder(roles: seq<Role>): seq<string> {
    Each(roles, (r: Role) => r.id)
  }

  /** Not an admin role itself, but a dangerous permission is held or inherited. */
  ghost predicate Sneaky(s: Settings, roles: RoleMap, id: string) {
    id in roles && !roles[id].isAdmin && Closure(roles, id) * s.dangerous != {}
  }

  /** The finding that names all dangerous permissions a role holds or inherits, graded by the worst of them. */
  ghost predicate DangerousFinding(s: Settings, roles: RoleMap, u: User, id: string, f: Finding) {
    && f.userId == u.id && f.roleId == id && f.vector == Dangerous(Closure(roles, id) * s.dangerous)
    && (f.severity == CRITICAL <==> HoldsCritical(Closure(roles, id) * s.dangerous))
  }

  /**
   * An invalid policy is refused. On a valid one, cyclic or arbitrarily deep, a user's role has
   * a finding exactly when the role escalates; the permissions reported as excessive include
   * those held directly and are all really held, and are all of them when chains are short.
   */
  method Scan(s: Settings, policy: Policy) returns (r: Result<ScanResult, PolicyError>)
    ensures r.Ok? <==> ValidPolicy(policy)
    ensures r.Ok? ==> (r.value.status == VIOLATIONS_FOUND <==> r.value.findings != [] || r.value.violations != [])
    ensures r.Ok? ==> forall u, id | u in policy.users && id in u.roles ::
              Found(r.value.findings, u.id, id) <==> Escalates(s, RolesById(policy.roles), id)
    ensures r.Ok? ==> var perms := ResolvedFor(s, policy);
              && perms.Keys == RolesById(policy.roles).Keys
              && r.value.findings == AllFindings(s, RolesById(policy.roles), perms, AdminIds(s, RolesById(policy.roles), perms), policy.users)
              && forall f | f in r.value.findings :: Justified(s, RolesById(policy.roles), perms, policy.users, f)
    ensures r.Ok? && ChainsWithin(RolesById(policy.roles), s.maxDepth + 1) ==>
              forall u, id | u in policy.users && id in u.roles && Sneaky(s, RolesById(policy.roles), id) ::
                exists f :: f in r.value.findings && DangerousFinding(s, RolesById(policy.roles), u, id, f)
    ensures r.Ok? ==> forall v | v in r.value.violations :: GradedViolation(policy.users, v)
    ensures r.Ok? ==> forall i, j | 0 <= i < j < |r.value.violations| :: r.value.violations[i].userId != r.value.violations[j].userId
    ensures r.Ok? ==> forall u, p | u in policy.users && Excessive(s, p) ::
              && (HoldsDirectly(RolesById(policy.roles), u, p) ==> Reported(r.value.violations, u.id, p))
              && (Reported(r.value.violations, u.id, p) ==> Holds(RolesById(policy.roles), u, p))
    ensures r.Ok? && ChainsWithin(RolesById(policy.roles), s.maxDepth + 1) ==>
              forall u, p | u in policy.users && Excessive(s, p) ::
                Reported(r.value.violations, u.id, p) <==> Holds(RolesById(policy.roles), u, p)
  {
    var error := ValidatePolicy(policy);
    if error.Some? {
      return Err(error.value);
    }
    var roles := BuildRoleMap(policy.roles);
    RolesByIdIsExact(policy.roles);
    var order := RoleOrder(policy.roles);
    OrderCoversRoles(policy.roles, order);
    var perms := ResolveAllPermissions(roles, order, s.maxDepth);
    var admins := ResolveAdminRoleIds(s, roles, order, perms);
    var findings := DetectPrivilegeEscalation(s, roles, perms, admins, policy.users);
    var violations := DetectLeastPrivilegeViolations(s, perms, policy.users);
    VerdictIsExact(s, policy, roles, perms, admins);
    FindingsAreJustified(s, policy, roles, perms, admins);
    ViolationsAreBounded(s, policy, roles, perms);
    if ChainsWithin(roles, s.maxDepth + 1) {
      InheritedDangerIsNamed(s, policy, roles, perms, admins);
    }
    return Ok(ScanResult(if findings != [] || violations != [] then VIOLATIONS_FOUND else SAFE, findings, violations));
  }

  lemma OrderCoversRoles(roles: seq<Role>, order: seq<string>)
    requires |order| == |roles| && forall i | 0 <= i < |roles| :: order[i] == roles[i].id
    ensures Elements(order) == RoleIds(roles)
  {
    forall x | x in RoleIds(roles)
      ensures x in order
    {
      var i :| 0 <= i < |roles| && roles[i].id == x;
      assert order[i] == x;
    }
  }

  lemma VerdictIsExact(s: Settings, policy: Policy, roles: RoleMap, perms: PermissionMap, admins: set<string>)
    requires ValidPolicy(policy) && roles == RolesById(policy.roles) && roles.Keys == RoleIds(policy.roles)
    requires Plausible(roles, perms) && AdminsAre(s, roles, perms, admins)
    ensures forall u, id | u in policy.users && id in u.roles ::
              Found(AllFindings(s, roles, perms, admins, policy.users), u.id, id) <==> Escalates(s, roles, id)
  {
    forall u, id | u in policy.users && id in u.roles
      ensures Found(AllFindings(s, roles, perms, admins, policy.users), u.id, id) <==> Escalates(s, roles, id)
    {
      UserFindingIff(s, roles, perms, admins, policy.users, u, id);
      assert id in roles;
      if Escalates(s, roles, id) {
        EscalatingIsAssessed(s, roles, perms, admins, id);
      } else if Assess(s, roles, perms, admins, id).Some? {
        AssessedIsEscalating(s, roles, perms, admins, id);
      }
    }
  }

  lemma AssessmentIsJustified(s: Settings, roles: RoleMap, perms: PermissionMap, admins: set<string>, users: seq<User>, f: Finding)
    requires Plausible(roles, perms) && AdminsAre(s, roles, perms, admins) && Attributed(roles, users, f)
    requires Assess(s, roles, perms, admins, f.roleId) == Some((f.vector, f.severity))
    ensures Justified(s, roles, perms, users, f)
  {
    CriticalIff(perms[f.roleId] * s.dangerous);
    if f.vector.Inherited? {
      FoundChainIsReal(Inheritance(roles), admins, f.roleId, f.roleId, [], {});
      var t := f.vector.chain[|f.vector.chain| - 1];
      if !NamedLikeAdmin(s, roles, t) {
        PowerIsReal(s, roles, perms, t);
      }
    }
  }

  lemma FindingsAreJustified(s: Settings, policy: Policy, roles: RoleMap, perms: PermissionMap, admins: set<string>)
    requires Plausible(roles, perms) && AdminsAre(s, roles, perms, admins)
    ensures forall f | f in AllFindings(s, roles, perms, admins, policy.users) :: Justified(s, roles, perms, policy.users, f)
  {
    FindingsNameUsers(s, roles, perms, admins, policy.users);
    forall f | f in AllFindings(s, roles, perms, admins, policy.users)
      ensures Justified(s, roles, perms, policy.users, f)
    {
      AssessmentIsJustified(s, roles, perms, admins, policy.users, f);
    }
  }

  /** When resolution is complete, an inherited dangerous permission is reported as what it is. */
  lemma InheritedDangerIsNamed(s: Settings, policy: Policy, roles: RoleMap, perms: PermissionMap, admins: set<string>)
    requires ValidPolicy(policy) && roles == RolesById(policy.roles) && roles.Keys == RoleIds(policy.roles)
    requires Plausible(roles, perms) && AdminsAre(s, roles, perms, admins)
    requires forall id | id in perms :: perms[id] == Closure(roles, id)
    ensures forall u, id | u in policy.users && id in u.roles && Sneaky(s, roles, id) ::
              exists f :: f in AllFindings(s, roles, perms, admins, policy.users) && DangerousFinding(s, roles, u, id, f)
  {
    var findings := AllFindings(s, roles, perms, admins, policy.users);
    FindingsNameUsers(s, roles, perms, admins, policy.users);
    forall u, id | u in policy.users && id in u.roles && Sneaky(s, roles, id)
      ensures exists f :: f in findings && DangerousFinding(s, roles, u, id, f)
    {
      UserFindingIff(s, roles, perms, admins, policy.users, u, id);
      AssessedAsDangerous(s, roles, perms, admins, id);
      var f :| f in findings && f.userId == u.id && f.roleId == id;
      assert Assess(s, roles, perms, admins, id) == Some((f.vector, f.severity));
      assert DangerousFinding(s, roles, u, id, f);
    }
  }

  lemma AssessedAsDangerous(s: Settings, roles: RoleMap, perms: PermissionMap, admins: set<string>, id: string)
    requires Sneaky(s, roles, id) && id in perms && perms[id] == Closure(roles, id)
    ensures var ps := Closure(roles, id) * s.dangerous;
            Assess(s, roles, perms, admins, id) == Some((Dangerous(ps), if HoldsCritical(ps) then CRITICAL else HIGH))
  {
    CriticalIff(perms[id] * s.dangerous);
  }

  lemma ViolationsAreBounded(s: Settings, policy: Policy, roles: RoleMap, perms: PermissionMap)
    requires ValidPolicy(policy) && roles.Keys == RoleIds(policy.roles) && Plausible(roles, perms)
    ensures forall u, p | u in policy.users && Excessive(s, p) ::
              && (HoldsDirectly(roles, u, p) ==> Exceeds(s, perms, u, p))
              && (Exceeds(s, perms, u, p) ==> Holds(roles, u, p))
    ensures (forall id | id in perms :: perms[id] == Closure(roles, id)) ==>
              forall u, p | u in policy.users && Excessive(s, p) :: Exceeds(s, perms, u, p) <==> Holds(roles, u, p)
  {
    forall u, p | u in policy.users && Excessive(s, p)
      ensures HoldsDirectly(roles, u, p) ==> Exceeds(s, perms, u, p)
      ensures Exceeds(s, perms, u, p) ==> Holds(roles, u, p)
      ensures (forall id | id in perms :: perms[id] == Closure(roles, id)) ==> (Holds(roles, u, p) ==> Exceeds(s, perms, u, p))
    {
      assert forall r | r in u.roles :: r in perms;
    }
  }
}
