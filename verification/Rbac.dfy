/** Role evaluation of `operation_rbac.rs`. */
module Rbac {
  import opened Wrappers
  import opened StableSort

  datatype Permission =
    | CreateRule | UpdateRule | DeleteRule | ExecuteRule
    | CreateAction | UpdateAction | DeleteAction | ExecuteAction
    | ManageWebhooks | ManageSecrets | ManageUsers | ManageRoles | ManageTenants
    | ExportData | ImportData | DeleteData
    | ViewAuditLogs | ManageConfiguration | ManageIntegrations

  /** The declaration order, which `*p as u32` gives. */
  const ALL: seq<Permission> := [
    CreateRule, UpdateRule, DeleteRule, ExecuteRule,
    CreateAction, UpdateAction, DeleteAction, ExecuteAction,
    ManageWebhooks, ManageSecrets, ManageUsers, ManageRoles, ManageTenants,
    ExportData, ImportData, DeleteData,
    ViewAuditLogs, ManageConfiguration, ManageIntegrations]

  function Rank(p: Permission): nat {
    match p
    case CreateRule => 0
    case UpdateRule => 1
    case DeleteRule => 2
    case ExecuteRule => 3
    case CreateAction => 4
    case UpdateAction => 5
    case DeleteAction => 6
    case ExecuteAction => 7
    case ManageWebhooks => 8
    case ManageSecrets => 9
    case ManageUsers => 10
    case ManageRoles => 11
    case ManageTenants => 12
    case ExportData => 13
    case ImportData => 14
    case DeleteData => 15
    case ViewAuditLogs => 16
    case ManageConfiguration => 17
    case ManageIntegrations => 18
  }

  predicate RankLeq(p: Permission, q: Permission) {
    Rank(p) <= Rank(q)
  }

  datatype Role = Role(name: string, permissions: seq<Permission>)

  /** A claim of the token; only strings and arrays matter here. */
  datatype Claim = Text(s: string) | Items(items: seq<Claim>) | OtherClaim

  datatype User = User(claims: map<string, Claim>)

  // ----- sort and dedup -----

  /** `dedup`: drops an element equal to the one before it. */
  function Dedup<T(==)>(s: seq<T>): seq<T> {
    if |s| <= 1 then s
    else if s[0] == s[1] then Dedup(s[1..])
    else [s[0]] + Dedup(s[1..])
  }

  /** Strictly increasing: ordered, and no element twice. */
  ghost predicate Increasing<T>(leq: (T, T) -> bool, s: seq<T>) {
    forall i, j :: 0 <= i < j < |s| ==> leq(s[i], s[j]) && s[i] != s[j]
  }

  /** An order on the nose: no two different elements rank alike. */
  ghost predicate TotalOrder<T(!new)>(leq: (T, T) -> bool) {
    TotalPreorder(leq) && forall x, y :: leq(x, y) && leq(y, x) ==> x == y
  }

  lemma {:induction false} DedupOfOrdered<T(!new)>(leq: (T, T) -> bool, s: seq<T>)
    requires TotalOrder(leq) && Ordered(leq, s)
    ensures Increasing(leq, Dedup(s)) && forall x :: x in Dedup(s) <==> x in s
    ensures s != [] ==> Dedup(s) != [] && Dedup(s)[0] == s[0]
    decreases |s|
  {
    if |s| > 1 {
      DedupOfOrdered(leq, s[1..]);
      var rest := Dedup(s[1..]);
      assert s == [s[0]] + s[1..];
      if s[0] != s[1] {
        forall j | 0 <= j < |rest|
          ensures leq(s[0], rest[j]) && s[0] != rest[j]
        {
          assert rest[j] in s[1..];
          assert leq(s[1], rest[j]);
        }
      }
    }
  }

  /** Sorting and dropping repetitions gives the set, listed in order. */
  lemma SortDedup<T(!new)>(leq: (T, T) -> bool, s: seq<T>)
    requires TotalOrder(leq)
    ensures Increasing(leq, Dedup(Sort(leq, s))) && forall x :: x in Dedup(Sort(leq, s)) <==> x in s
  {
    SortOrders(leq, s);
    SortPermutes(leq, s);
    DedupOfOrdered(leq, Sort(leq, s));
  }

  /** A permission's rank is its place in the declaration. */
  lemma RankIsPlace(p: Permission)
    ensures Rank(p) < |ALL| && ALL[Rank(p)] == p
    ensures forall i :: 0 <= i < |ALL| ==> Rank(ALL[i]) == i
  {
  }

  lemma RanksAreAnOrder()
    ensures TotalOrder(RankLeq)
  {
    forall p, q | RankLeq(p, q) && RankLeq(q, p)
      ensures p == q
    {
      assert ALL[Rank(p)] == p && ALL[Rank(q)] == q;
    }
  }

  lemma NamesAreAnOrder()
    ensures TotalOrder(LexLeq)
  {
    LexIsTotalOrder();
  }

  // ----- Roles of a user -----

  /** The user claims the role: as `role`, or in the array `roles` or `fraiseql_roles`. */
  ghost predicate Claims(user: User, role: string) {
    || Lookup(user.claims, "role") == Some(Text(role))
    || ListedIn(user, "roles", role)
    || ListedIn(user, "fraiseql_roles", role)
  }

  ghost predicate ListedIn(user: User, claim: string, role: string) {
    var c := Lookup(user.claims, claim);
    c.Some? && c.value.Items? && Text(role) in c.value.items
  }

  /** One of the two loops over an array claim. */
  method PushListed(user: User, claim: string, roles: seq<string>) returns (r: seq<string>)
    ensures forall role :: role in r <==> role in roles || ListedIn(user, claim, role)
  {
    r := roles;
    if claim in user.claims && user.claims[claim].Items? {
      var items := user.claims[claim].items;
      for i := 0 to |items|
        invariant forall role :: role in r <==> role in roles || Text(role) in items[..i]
      {
        if items[i].Text? {
          r := r + [items[i].s];
        }
      }
      assert items[..|items|] == items;
    }
  }

  method ExtractUserRoles(user: User) returns (roles: seq<string>)
    ensures Increasing(LexLeq, roles) && forall role :: role in roles <==> Claims(user, role)
  {
    roles := [];
    if "role" in user.claims && user.claims["role"].Text? {
      roles := roles + [user.claims["role"].s];
    }
    roles := PushListed(user, "roles", roles);
    roles := PushListed(user, "fraiseql_roles", roles);
    NamesAreAnOrder();
    SortDedup(LexLeq, roles);
    roles := Dedup(Sort(LexLeq, roles));
  }

  // ----- The policy -----

  /** Some role the user claims is known and bundles the permission. */
  ghost predicate Granted(roles: map<string, Role>, user: User, p: Permission) {
    exists role :: role in roles && Claims(user, role) && p in roles[role].permissions
  }

  const OPERATOR: seq<Permission> := [
    CreateRule, UpdateRule, DeleteRule, ExecuteRule, CreateAction, UpdateAction, DeleteAction,
    ExecuteAction, ManageWebhooks, ExportData, ViewAuditLogs]

  /** An operator may do everything but manage the tenant, import and delete. */
  lemma OperatorPermissions()
    ensures forall p :: p in OPERATOR <==>
              p !in {ManageSecrets, ManageUsers, ManageRoles, ManageTenants, ImportData, DeleteData,
                     ManageConfiguration, ManageIntegrations}
  {
    assert OPERATOR[9] == ExportData && OPERATOR[10] == ViewAuditLogs;
    forall p: Permission | Rank(p) <= 8
      ensures p in OPERATOR
    {
      assert OPERATOR[Rank(p)] == p;
    }
    assert forall i :: 0 <= i < 9 ==> Rank(OPERATOR[i]) == i;
  }

  class RBACPolicy {
    var roles: map<string, Role>

    constructor ()
      ensures roles.Keys == {"admin", "operator", "viewer"}
      ensures forall p :: p in roles["admin"].permissions
      ensures forall p :: p in roles["operator"].permissions <==>
                p !in {ManageSecrets, ManageUsers, ManageRoles, ManageTenants, ImportData, DeleteData,
                       ManageConfiguration, ManageIntegrations}
      ensures forall p :: p in roles["viewer"].permissions <==> p in {ExportData, ViewAuditLogs}
    {
      var operator := Role("operator", OPERATOR);
      roles := map[
        "admin" := Role("admin", ALL),
        "operator" := operator,
        "viewer" := Role("viewer", [ExportData, ViewAuditLogs])];
      new;
      forall p: Permission
        ensures p in ALL
      {
        assert ALL[Rank(p)] == p;
      }
      OperatorPermissions();
    }

    method RegisterRole(role: Role)
      modifies this
      ensures roles == old(roles)[role.name := role]
    {
      roles := roles[role.name := role];
    }

    method Authorize(user: User, p: Permission) returns (ok: bool)
      ensures ok <==> Granted(roles, user, p)
    {
      var names := ExtractUserRoles(user);
      for i := 0 to |names|
        invariant forall j :: 0 <= j < i && names[j] in roles ==> p !in roles[names[j]].permissions
      {
        if names[i] in roles && p in roles[names[i]].permissions {
          assert Claims(user, names[i]);
          return true;
        }
      }
      return false;
    }

    method AuthorizeAny(user: User, permissions: seq<Permission>) returns (ok: bool)
      ensures ok <==> exists p :: p in permissions && Granted(roles, user, p)
    {
      for i := 0 to |permissions|
        invariant forall j :: 0 <= j < i ==> !Granted(roles, user, permissions[j])
      {
        var granted := Authorize(user, permissions[i]);
        if granted {
          return true;
        }
      }
      return false;
    }

    method AuthorizeAll(user: User, permissions: seq<Permission>) returns (ok: bool)
      ensures ok <==> forall p :: p in permissions ==> Granted(roles, user, p)
    {
      for i := 0 to |permissions|
        invariant forall j :: 0 <= j < i ==> Granted(roles, user, permissions[j])
      {
        var granted := Authorize(user, permissions[i]);
        if !granted {
          return false;
        }
      }
      return true;
    }

    /** The permissions of the user, each once, in declaration order. */
    method GetUserPermissions(user: User) returns (permissions: seq<Permission>)
      ensures Increasing(RankLeq, permissions)
      ensures forall p :: p in permissions <==> Granted(roles, user, p)
    {
      var names := ExtractUserRoles(user);
      permissions := [];
      for i := 0 to |names|
        invariant forall p :: p in permissions <==>
                    exists j :: 0 <= j < i && names[j] in roles && p in roles[names[j]].permissions
      {
        if names[i] in roles {
          permissions := permissions + roles[names[i]].permissions;
        }
      }
      assert forall p :: p in permissions <==> Granted(roles, user, p) by {
        forall role | role in roles && Claims(user, role)
          ensures exists j :: 0 <= j < |names| && names[j] == role
        {
          assert role in names;
        }
        assert forall j :: 0 <= j < |names| ==> Claims(user, names[j]);
      }
      RanksAreAnOrder();
      SortDedup(RankLeq, permissions);
      permissions := Dedup(Sort(RankLeq, permissions));
    }
  }

  /** Registering a role changes nothing for users who do not claim it. */
  lemma RegisteringAffectsClaimantsOnly(roles: map<string, Role>, role: Role, user: User, p: Permission)
    ensures Granted(roles[role.name := role], user, p) <==>
            (Claims(user, role.name) && p in role.permissions) ||
            exists other :: other in roles && other != role.name && Claims(user, other) && p in roles[other].permissions
  {
    var after := roles[role.name := role];
    if Granted(after, user, p) {
      var r :| r in after && Claims(user, r) && p in after[r].permissions;
      assert r == role.name || (r in roles && after[r] == roles[r]);
    }
    if Claims(user, role.name) && p in role.permissions {
      assert role.name in after && after[role.name] == role;
    }
    if other :| other in roles && other != role.name && Claims(user, other) && p in roles[other].permissions {
      assert other in after && after[other] == roles[other];
    }
  }
}
