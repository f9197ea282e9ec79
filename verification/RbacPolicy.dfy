/** Roles, users and the checks that a policy passes before it is audited. */
module RbacPolicy {
  import opened Wrappers
  import opened Digraphs
  import opened Text

  type Permission = string

  /** An absent `inherits` is the empty list; an absent `isAdmin` is false. */
  datatype Role = Role(id: string, name: string, permissions: seq<Permission>, inherits: seq<string>, isAdmin: bool)

  datatype User = User(id: string, name: string, roles: seq<string>)

  datatype Policy = Policy(roles: seq<Role>, users: seq<User>)

  datatype PolicyError = InvalidRole | DuplicateRole | UnknownRole | InvalidUser | DuplicateUser

  ghost predicate WellFormedRole(r: Role) {
    && !Blank(r.id) && !Blank(r.name)
    && (forall p | p in r.permissions :: !Blank(p))
    && (forall q | q in r.inherits :: !Blank(q))
  }

  ghost predicate WellFormedUser(u: User) {
    !Blank(u.id) && !Blank(u.name) && forall r | r in u.roles :: !Blank(r)
  }

  ghost function RoleIds(roles: seq<Role>): set<string> {
    set i | 0 <= i < |roles| :: roles[i].id
  }

  ghost predicate DistinctRoleIds(roles: seq<Role>) {
    forall i, j | 0 <= i < j < |roles| :: roles[i].id != roles[j].id
  }

  ghost predicate DistinctUserIds(users: seq<User>) {
    forall i, j | 0 <= i < j < |users| :: users[i].id != users[j].id
  }

  ghost predicate AllKnown(names: seq<string>, ids: set<string>) {
    forall n | n in names :: n in ids
  }

  ghost predicate ValidRoles(roles: seq<Role>) {
    (forall r | r in roles :: WellFormedRole(r)) && DistinctRoleIds(roles)
  }

  ghost predicate ValidUsers(users: seq<User>, ids: set<string>) {
    && (forall u | u in users :: WellFormedUser(u) && AllKnown(u.roles, ids))
    && DistinctUserIds(users)
  }

  ghost predicate ValidPolicy(p: Policy) {
    && ValidRoles(p.roles)
    && (forall r | r in p.roles :: AllKnown(r.inherits, RoleIds(p.roles)))
    && ValidUsers(p.users, RoleIds(p.roles))
  }

  method AnyBlank(names: seq<string>) returns (found: bool)
    ensures found <==> exists n :: n in names && Blank(n)
  {
    for i := 0 to |names|
      invariant forall j | 0 <= j < i :: !Blank(names[j])
    {
      if Blank(names[i]) {
        return true;
      }
    }
    return false;
  }

  method AnyUnknown(names: seq<string>, ids: set<string>) returns (found: bool)
    ensures found <==> !AllKnown(names, ids)
  {
    for i := 0 to |names|
      invariant forall j | 0 <= j < i :: names[j] in ids
    {
      if names[i] !in ids {
        return true;
      }
    }
    return false;
  }

  method CheckRoles(roles: seq<Role>) returns (error: Option<PolicyError>, ids: set<string>)
    ensures error.None? <==> ValidRoles(roles)
    ensures error.None? ==> ids == RoleIds(roles)
    ensures error == Some(DuplicateRole) ==> !DistinctRoleIds(roles)
    ensures error == Some(InvalidRole) ==> exists r :: r in roles && !WellFormedRole(r)
    ensures error in {None, Some(InvalidRole), Some(DuplicateRole)}
  {
    ids := {};
    for i := 0 to |roles|
      invariant ids == RoleIds(roles[..i])
      invariant ValidRoles(roles[..i])
    {
      var role := roles[i];
      var ok := IsWellFormedRole(role);
      if !ok {
        assert role in roles;
        return Some(InvalidRole), ids;
      }
      if role.id in ids {
        var j :| 0 <= j < i && roles[..i][j].id == role.id;
        assert roles[j].id == roles[i].id;
        return Some(DuplicateRole), ids;
      }
      ids := ids + {role.id};
      RoleIdsExtend(roles, i);
      ExtendRoles(roles, i);
    }
    assert roles[..|roles|] == roles;
    return None, ids;
  }

  method IsWellFormedRole(role: Role) returns (ok: bool)
    ensures ok <==> WellFormedRole(role)
  {
    var badPermission := AnyBlank(role.permissions);
    var badParent := AnyBlank(role.inherits);
    return !(Blank(role.id) || Blank(role.name) || badPermission || badParent);
  }

  lemma ExtendRoles(roles: seq<Role>, i: nat)
    requires i < |roles| && ValidRoles(roles[..i]) && WellFormedRole(roles[i]) && roles[i].id !in RoleIds(roles[..i])
    ensures ValidRoles(roles[..i + 1])
  {
    var shorter := roles[..i];
    assert roles[..i + 1] == shorter + [roles[i]];
    forall j | 0 <= j < i
      ensures shorter[j].id != roles[i].id
    {
      assert shorter[j].id in RoleIds(shorter);
    }
  }

  lemma RoleIdsExtend(roles: seq<Role>, i: nat)
    requires i < |roles|
    ensures RoleIds(roles[..i + 1]) == RoleIds(roles[..i]) + {roles[i].id}
  {
    var longer, shorter := roles[..i + 1], roles[..i];
    forall x | x in RoleIds(longer)
      ensures x in RoleIds(shorter) + {roles[i].id}
    {
      var k :| 0 <= k < |longer| && longer[k].id == x;
      if k < i {
        assert shorter[k].id == x;
      }
    }
    forall x | x in RoleIds(shorter) + {roles[i].id}
      ensures x in RoleIds(longer)
    {
      if x in RoleIds(shorter) {
        var k :| 0 <= k < |shorter| && shorter[k].id == x;
        assert longer[k].id == x;
      } else {
        assert longer[i].id == x;
      }
    }
  }

  method IsWellFormedUser(user: User) returns (ok: bool)
    ensures ok <==> WellFormedUser(user)
  {
    var badRole := AnyBlank(user.roles);
    return !(Blank(user.id) || Blank(user.name) || badRole);
  }

  ghost function UserIds(users: seq<User>): set<string> {
    set u | u in users :: u.id
  }

  method CheckUsers(users: seq<User>, ids: set<string>) returns (error: Option<PolicyError>)
    ensures error.None? <==> ValidUsers(users, ids)
    ensures error == Some(DuplicateUser) ==> !DistinctUserIds(users)
    ensures error == Some(InvalidUser) ==> exists u :: u in users && !WellFormedUser(u)
    ensures error == Some(UnknownRole) ==> exists u :: u in users && !AllKnown(u.roles, ids)
    ensures error in {None, Some(InvalidUser), Some(DuplicateUser), Some(UnknownRole)}
  {
    var userIds: set<string> := {};
    for i := 0 to |users|
      invariant userIds == UserIds(users[..i])
      invariant ValidUsers(users[..i], ids)
    {
      var user := users[i];
      assert user in users && users[..i + 1] == users[..i] + [user];
      var ok := IsWellFormedUser(user);
      if !ok {
        return Some(InvalidUser);
      }
      if user.id in userIds {
        DuplicateUserFound(users, i);
        return Some(DuplicateUser);
      }
      userIds := userIds + {user.id};
      var unknown := AnyUnknown(user.roles, ids);
      if unknown {
        return Some(UnknownRole);
      }
      ExtendUsers(users[..i], user, ids);
    }
    assert users[..|users|] == users;
    return None;
  }

  lemma DuplicateUserFound(users: seq<User>, i: nat)
    requires i < |users| && users[i].id in UserIds(users[..i])
    ensures !DistinctUserIds(users)
  {
    var u :| u in users[..i] && u.id == users[i].id;
    var j :| 0 <= j < i && users[j] == u;
  }

  lemma ExtendUsers(users: seq<User>, user: User, ids: set<string>)
    requires ValidUsers(users, ids) && user.id !in UserIds(users)
    requires WellFormedUser(user) && AllKnown(user.roles, ids)
    ensures ValidUsers(users + [user], ids)
    ensures UserIds(users + [user]) == UserIds(users) + {user.id}
  {
    var longer := users + [user];
    forall j | 0 <= j < |users|
      ensures longer[j].id != user.id
    {
      assert users[j] in users;
    }
    forall x | x in UserIds(users) + {user.id}
      ensures x in UserIds(longer)
    {
      var u :| (u in users || u == user) && u.id == x;
      assert u in longer;
    }
  }

  method ValidatePolicy(policy: Policy) returns (error: Option<PolicyError>)
    ensures error.None? <==> ValidPolicy(policy)
    ensures error == Some(InvalidRole) ==> exists r :: r in policy.roles && !WellFormedRole(r)
    ensures error == Some(InvalidUser) ==> exists u :: u in policy.users && !WellFormedUser(u)
    ensures error == Some(DuplicateRole) ==> !DistinctRoleIds(policy.roles)
    ensures error == Some(DuplicateUser) ==> !DistinctUserIds(policy.users)
    ensures error == Some(UnknownRole) ==>
      || (exists r :: r in policy.roles && !AllKnown(r.inherits, RoleIds(policy.roles)))
      || (exists u :: u in policy.users && !AllKnown(u.roles, RoleIds(policy.roles)))
  {
    var ids;
    error, ids := CheckRoles(policy.roles);
    if error.Some? {
      return;
    }
    for i := 0 to |policy.roles|
      invariant forall j | 0 <= j < i :: AllKnown(policy.roles[j].inherits, ids)
    {
      var unknown := AnyUnknown(policy.roles[i].inherits, ids);
      if unknown {
        assert policy.roles[i] in policy.roles;
        return Some(UnknownRole);
      }
    }
    error := CheckUsers(policy.users, ids);
  }

  type RoleMap = map<string, Role>

  /** The lookup table that the audit builds; the last role of an id wins. */
  ghost function RolesById(roles: seq<Role>): RoleMap {
    if roles == [] then map[]
    else var n := |roles| - 1; RolesById(roles[..n])[roles[n].id := roles[n]]
  }

  method BuildRoleMap(roles: seq<Role>) returns (table: RoleMap)
    ensures table == RolesById(roles)
  {
    table := map[];
    for i := 0 to |roles|
      invariant table == RolesById(roles[..i])
    {
      table := table[roles[i].id := roles[i]];
      assert roles[..i + 1][..i] == roles[..i];
    }
    assert roles[..|roles|] == roles;
  }

  lemma {:induction false} RolesByIdIsExact(roles: seq<Role>)
    requires DistinctRoleIds(roles)
    ensures RolesById(roles).Keys == RoleIds(roles)
    ensures forall i | 0 <= i < |roles| :: RolesById(roles)[roles[i].id] == roles[i]
  {
    if roles != [] {
      var n := |roles| - 1;
      var shorter := roles[..n];
      RolesByIdIsExact(shorter);
      RoleIdsExtend(roles, n);
      assert roles[..n + 1] == roles;
      var table := RolesById(shorter);
      assert RolesById(roles) == table[roles[n].id := roles[n]];
      forall i | 0 <= i < n
        ensures roles[i].id in table && table[roles[i].id] == roles[i]
      {
        assert shorter[i] == roles[i] && shorter[i].id in RoleIds(shorter);
      }
    }
  }

  /** Inheritance edges, from a role to the roles it inherits from. */
  function Inheritance(roles: RoleMap): Graph<string> {
    map id | id in roles :: roles[id].inherits
  }
}
