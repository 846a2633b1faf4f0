/** The bootstrap of `admin/seed.go`: an ordered sequence of find-or-insert writes in one
    transaction, meant to converge any database and then to write nothing more. Statements
    bypass tenant scoping. Tables list live rows in primary-key order unless a row says so. */
module Seed {
  import opened Grants
  import opened Sequences
  import opened Wrappers

  const SECTION_MENUS: seq<string> := ["SystemUserCenter", "SystemLogs", "SystemSettings"]
  const ROLE_PERMISSION_MENU: string := "SystemSysRolesPermission"
  const ADMIN: string := "admin"

  /** Soft-deleted menus and tenants stay: lookups of menus see them, and a tenant's id stays taken. */
  datatype MenuRow = MenuRow(component: string, deleted: bool)

  datatype TenantRow = TenantRow(id: string, deleted: bool)

  datatype RoleRow = RoleRow(key: string, tenant: string, builtin: bool, isSuper: bool)

  datatype UserRow = UserRow(uid: string, tenant: string, roleKey: string)

  datatype Tuple = Tuple(mod: string, table: string, column: string)

  datatype SchemaRow = SchemaRow(tenant: string, tuple: Tuple, meta: string)

  datatype Db = Db(menus: seq<MenuRow>, perms: seq<string>, tenants: seq<TenantRow>, roles: seq<RoleRow>,
                   users: seq<UserRow>, grants: Table, schemas: seq<SchemaRow>)

  /** The section containers to scaffold (the program's are `SECTION_MENUS`), and whether
      tenant scoping is installed. */
  datatype Setup = Setup(sections: seq<string>, multiTenant: bool)

  /** The bootstrap credentials; `policyOk` is the password policy's verdict. */
  datatype Admin = Admin(user: string, password: string, policyOk: bool) {
    predicate Given() { user != "" && password != "" }
  }

  /** A taken tenant id and a password the policy rejects abort the transaction. */
  datatype SeedError = Invalid | TenantTaken | PasswordRejected

  // ----- find or insert -----

  predicate HasMenu(menus: seq<MenuRow>, component: string) {
    exists i | 0 <= i < |menus| :: menus[i].component == component
  }

  function EnsureMenu(menus: seq<MenuRow>, component: string): seq<MenuRow> {
    if HasMenu(menus, component) then menus else menus + [MenuRow(component, false)]
  }

  function EnsureMenus(menus: seq<MenuRow>, components: seq<string>): seq<MenuRow>
    decreases |components|
  {
    if components == [] then menus else EnsureMenus(EnsureMenu(menus, components[0]), components[1..])
  }

  predicate LiveTenant(tenants: seq<TenantRow>, id: string) { TenantRow(id, false) in tenants }

  function EnsureTenant(tenants: seq<TenantRow>, id: string): Result<seq<TenantRow>, SeedError> {
    if LiveTenant(tenants, id) then Ok(tenants)
    else if TenantRow(id, true) in tenants then Err(TenantTaken)
    else Ok(tenants + [TenantRow(id, false)])
  }

  function FindRole(roles: seq<RoleRow>, key: string): (i: nat)
    ensures i <= |roles| && (i < |roles| ==> roles[i].key == key) && forall j | 0 <= j < i :: roles[j].key != key
  {
    FirstIndex(roles, (r: RoleRow) => r.key == key)
  }

  function FindUser(users: seq<UserRow>, uid: string): (i: nat)
    ensures i <= |users| && (i < |users| ==> users[i].uid == uid) && forall j | 0 <= j < i :: users[j].uid != uid
  {
    FirstIndex(users, (u: UserRow) => u.uid == uid)
  }

  /** A legacy admin role gets the default tenant, a builtin one becomes super. */
  function Converged(r: RoleRow): RoleRow {
    r.(tenant := if r.tenant == "" then DEFAULT_TENANT else r.tenant, isSuper := r.isSuper || r.builtin)
  }

  function EnsureRole(roles: seq<RoleRow>): (r: seq<RoleRow>)
    ensures FindRole(roles, ADMIN) < |r|
  {
    var i := FindRole(roles, ADMIN);
    if i < |roles| then roles[i := Converged(roles[i])] else roles + [RoleRow(ADMIN, DEFAULT_TENANT, true, true)]
  }

  function EnsureUser(users: seq<UserRow>, tenant: string, policyOk: bool): Result<seq<UserRow>, SeedError> {
    var i := FindUser(users, ADMIN);
    if i < |users| then Ok(users[i := users[i].(tenant := tenant)])
    else if !policyOk then Err(PasswordRejected)
    else Ok(users + [UserRow(ADMIN, tenant, ADMIN)])
  }

  // ----- grants and schema clones -----

  function LiveComponents(menus: seq<MenuRow>): (r: seq<string>)
    ensures forall c :: c in r <==> MenuRow(c, false) in menus
  {
    if menus == [] then []
    else LiveComponents(menus[..|menus| - 1])
         + (if menus[|menus| - 1].deleted then [] else [menus[|menus| - 1].component])
  }

  function Supers(roles: seq<RoleRow>): (r: seq<RoleRow>)
    ensures forall x :: x in r <==> x in roles && x.isSuper
  {
    if roles == [] then [] else (if roles[0].isSuper then [roles[0]] else []) + Supers(roles[1..])
  }

  function GrantAll(t: Table, supers: seq<RoleRow>, menus: seq<string>, perms: seq<string>): Table
    decreases |supers|
  {
    if supers == [] then t
    else GrantAll(GrantMissing(t, None, supers[0].key, supers[0].tenant, menus, perms), supers[1..], menus, perms)
  }

  function RowsOf(schemas: seq<SchemaRow>, tenant: string): (r: seq<SchemaRow>)
    ensures forall x :: x in r <==> x in schemas && x.tenant == tenant
  {
    if schemas == [] then [] else (if schemas[0].tenant == tenant then [schemas[0]] else []) + RowsOf(schemas[1..], tenant)
  }

  function Tuples(schemas: seq<SchemaRow>): set<Tuple> { set x | x in schemas :: x.tuple }

  /** Copies for a tenant of the templates whose tuple it has not got. */
  function Clones(templates: seq<SchemaRow>, tenant: string, seen: set<Tuple>): (r: seq<SchemaRow>)
    ensures forall x | x in r :: x.tenant == tenant && x.tuple !in seen
    decreases |templates|
  {
    if templates == [] then []
    else
      (if templates[0].tuple in seen then [] else [templates[0].(tenant := tenant)])
      + Clones(templates[1..], tenant, seen)
  }

  function LiveIds(tenants: seq<TenantRow>): (r: seq<string>)
    ensures forall id :: id in r <==> LiveTenant(tenants, id)
  {
    if tenants == [] then []
    else LiveIds(tenants[..|tenants| - 1]) + (if tenants[|tenants| - 1].deleted then [] else [tenants[|tenants| - 1].id])
  }

  function CloneAll(schemas: seq<SchemaRow>, templates: seq<SchemaRow>, ids: seq<string>): seq<SchemaRow>
    decreases |ids|
  {
    if ids == [] then schemas
    else CloneAll(schemas + Clones(templates, ids[0], Tuples(RowsOf(schemas, ids[0]))), templates, ids[1..])
  }

  // ----- the whole transaction -----

  /** The role the bootstrap settles on. */
  function AdminRole(roles: seq<RoleRow>): RoleRow { EnsureRole(roles)[FindRole(roles, ADMIN)] }

  function Accounts(tenants: seq<TenantRow>, roles: seq<RoleRow>, users: seq<UserRow>, policyOk: bool)
    : Result<(seq<TenantRow>, seq<RoleRow>, seq<UserRow>), SeedError>
  {
    var tenant := AdminRole(roles).tenant;
    var first := EnsureTenant(tenants, DEFAULT_TENANT);
    if first.Err? then Err(first.error)
    else
      var second := if tenant != DEFAULT_TENANT then EnsureTenant(first.value, tenant) else first;
      if second.Err? then Err(second.error)
      else
        var ensured := EnsureUser(users, tenant, policyOk);
        if ensured.Err? then Err(ensured.error) else Ok((second.value, EnsureRole(roles), ensured.value))
  }

  function Scaffolded(menus: seq<MenuRow>, sections: seq<string>): seq<MenuRow> {
    EnsureMenu(EnsureMenus(menus, sections), ROLE_PERMISSION_MENU)
  }

  function Cloned(schemas: seq<SchemaRow>, tenants: seq<TenantRow>, multiTenant: bool): seq<SchemaRow> {
    if multiTenant then CloneAll(schemas, RowsOf(schemas, ""), LiveIds(tenants)) else schemas
  }

  function Seeded(db: Db, setup: Setup, admin: Admin): Result<Db, SeedError> {
    var accounts := Accounts(db.tenants, db.roles, db.users, admin.policyOk);
    if !admin.Given() then Err(Invalid)
    else if accounts.Err? then Err(accounts.error)
    else
      var (tenants, roles, users) := accounts.value;
      var menus := Scaffolded(db.menus, setup.sections);
      var grants := GrantAll(db.grants, Supers(roles), LiveComponents(menus), db.perms);
      Ok(Db(menus, db.perms, tenants, roles, users, grants, Cloned(db.schemas, tenants, setup.multiTenant)))
  }

  // ----- the grants after one pass -----

  function Catalog(menus: seq<string>, perms: seq<string>): set<(string, string)> {
    Pairs(Requested("", "", menus, perms))
  }

  lemma RequestedPairs(tenant: string, key: string, menus: seq<string>, perms: seq<string>)
    ensures Pairs(Requested(tenant, key, menus, perms)) == Catalog(menus, perms)
  {
    var a, b := Requested(tenant, key, menus, perms), Requested("", "", menus, perms);
    assert |a| == |b| && forall i | 0 <= i < |a| :: a[i].kind == b[i].kind && a[i].data == b[i].data;
    forall p | p in Pairs(a) ensures p in Pairs(b) {
      var i :| 0 <= i < |a| && (a[i].kind, a[i].data) == p;
      assert b[i] in b;
    }
    forall p | p in Pairs(b) ensures p in Pairs(a) {
      var i :| 0 <= i < |b| && (b[i].kind, b[i].data) == p;
      assert a[i] in a;
    }
  }

  function Lacking(t: Table, x: RoleRow, menus: seq<string>, perms: seq<string>): seq<Grant> {
    MissingOf(Requested(x.tenant, x.key, menus, perms), Held(t, x.tenant, x.key))
  }

  /** A role's top-up writes nothing exactly when the role holds the catalog under its own tenant. */
  lemma TopUpRows(t: Table, x: RoleRow, menus: seq<string>, perms: seq<string>)
    requires t.Valid()
    ensures var rows := Lacking(t, x, menus, perms);
            var r := GrantMissing(t, None, x.key, x.tenant, menus, perms);
            && r.Valid() && r.nextId == t.nextId + |rows|
            && (rows == [] <==> Catalog(menus, perms) <= Held(t, x.tenant, x.key)) && (rows == [] ==> r == t)
  {
    var all, held := Requested(x.tenant, x.key, menus, perms), Held(t, x.tenant, x.key);
    RequestedPairs(x.tenant, x.key, menus, perms);
    Inserted(t, None, MissingOf(all, held));
    MissingPairs(all, held);
    if Pairs(all) <= held {
      RowsHeld(all, held);
      NothingMissing(all, held);
    }
  }

  /** Its rows appear under the role's home tenant only. */
  lemma TopUp(t: Table, x: RoleRow, menus: seq<string>, perms: seq<string>, tenant': string, key': string)
    requires t.Valid()
    ensures GrantMissing(t, None, x.key, x.tenant, menus, perms).Valid()
    ensures Held(GrantMissing(t, None, x.key, x.tenant, menus, perms), tenant', key')
         == Held(t, tenant', key')
            + (if tenant' == Home(None, x.tenant) && key' == x.key then Pairs(Lacking(t, x, menus, perms)) else {})
  {
    var rows := Lacking(t, x, menus, perms);
    TopUpRows(t, x, menus, perms);
    InsertHeld(t, None, rows, x.tenant, x.key, tenant', key');
  }

  /** Under a tenant of its own, a topped-up role holds the whole catalog. */
  lemma TopUpComplete(t: Table, x: RoleRow, menus: seq<string>, perms: seq<string>)
    requires t.Valid() && x.tenant != ""
    ensures Catalog(menus, perms) <= Held(GrantMissing(t, None, x.key, x.tenant, menus, perms), x.tenant, x.key)
  {
    TopUp(t, x, menus, perms, x.tenant, x.key);
    RequestedPairs(x.tenant, x.key, menus, perms);
    MissingPairs(Requested(x.tenant, x.key, menus, perms), Held(t, x.tenant, x.key));
  }

  lemma {:induction false} GrantAllGrows(t: Table, supers: seq<RoleRow>, menus: seq<string>, perms: seq<string>, tenant: string, key: string)
    requires t.Valid()
    ensures var r := GrantAll(t, supers, menus, perms);
            && r.Valid() && r.nextId >= t.nextId
            && Held(t, tenant, key) <= Held(r, tenant, key)
            && (tenant == "" ==> Held(r, tenant, key) == Held(t, tenant, key))
    decreases |supers|
  {
    if supers != [] {
      TopUpRows(t, supers[0], menus, perms);
      TopUp(t, supers[0], menus, perms, tenant, key);
      GrantAllGrows(GrantMissing(t, None, supers[0].key, supers[0].tenant, menus, perms), supers[1..], menus, perms, tenant, key);
    }
  }

  lemma {:induction false} GrantAllComplete(t: Table, supers: seq<RoleRow>, menus: seq<string>, perms: seq<string>, x: RoleRow)
    requires t.Valid() && x in supers && x.tenant != ""
    ensures Catalog(menus, perms) <= Held(GrantAll(t, supers, menus, perms), x.tenant, x.key)
    decreases |supers|
  {
    var next := GrantMissing(t, None, supers[0].key, supers[0].tenant, menus, perms);
    TopUp(t, supers[0], menus, perms, x.tenant, x.key);
    if supers[0] == x {
      TopUpComplete(t, x, menus, perms);
      GrantAllGrows(next, supers[1..], menus, perms, x.tenant, x.key);
    } else {
      GrantAllComplete(next, supers[1..], menus, perms, x);
    }
  }

  lemma {:induction false} GrantAllIdle(t: Table, supers: seq<RoleRow>, menus: seq<string>, perms: seq<string>)
    requires t.Valid() && forall x | x in supers :: Catalog(menus, perms) <= Held(t, x.tenant, x.key)
    ensures GrantAll(t, supers, menus, perms) == t
    decreases |supers|
  {
    if supers != [] {
      TopUpRows(t, supers[0], menus, perms);
      GrantAllIdle(t, supers[1..], menus, perms);
    }
  }

  /** A super role of the empty tenant that lacks some of the catalog is given rows every time. */
  lemma {:induction false} GrantAllBusy(t: Table, supers: seq<RoleRow>, menus: seq<string>, perms: seq<string>, x: RoleRow)
    requires t.Valid() && x in supers && x.tenant == "" && !(Catalog(menus, perms) <= Held(t, "", x.key))
    ensures GrantAll(t, supers, menus, perms).nextId > t.nextId
    decreases |supers|
  {
    var next := GrantMissing(t, None, supers[0].key, supers[0].tenant, menus, perms);
    TopUpRows(t, supers[0], menus, perms);
    TopUp(t, supers[0], menus, perms, "", x.key);
    if supers[0] == x {
      GrantAllGrows(next, supers[1..], menus, perms, "", "");
    } else {
      GrantAllBusy(next, supers[1..], menus, perms, x);
    }
  }

  // ----- when a pass aborts -----

  /** The id names a live tenant, or none that was ever deleted. */
  predicate Usable(tenants: seq<TenantRow>, id: string) { LiveTenant(tenants, id) || TenantRow(id, true) !in tenants }

  /** The tenant of the first role of the admin's key, or the default if it has none or there is none. */
  function HomeOfAdmin(roles: seq<RoleRow>): string {
    if exists i :: 0 <= i < |roles| && roles[i].key == "admin" then
      var i := FindRole(roles, "admin");
      if roles[i].tenant == "" then DEFAULT_TENANT else roles[i].tenant
    else DEFAULT_TENANT
  }

  /** A pass goes through exactly when credentials were given, neither tenant it needs is a
      soft-deleted one, and the admin user exists or its password is acceptable; the first of
      these that fails is the error. */
  lemma PassesExactly(db: Db, setup: Setup, admin: Admin)
    ensures var r := Seeded(db, setup, admin);
            if admin.user == "" || admin.password == "" then r == Err(Invalid)
            else if !Usable(db.tenants, DEFAULT_TENANT) || !Usable(db.tenants, HomeOfAdmin(db.roles)) then r == Err(TenantTaken)
            else if (forall x | x in db.users :: x.uid != "admin") && !admin.policyOk then r == Err(PasswordRejected)
            else r.Ok?
  {
    assert HomeOfAdmin(db.roles) == AdminRole(db.roles).tenant;
    var tenant, first := AdminRole(db.roles).tenant, EnsureTenant(db.tenants, DEFAULT_TENANT);
    if first.Ok? && tenant != DEFAULT_TENANT {
      assert forall deleted :: TenantRow(tenant, deleted) in first.value <==> TenantRow(tenant, deleted) in db.tenants;
    }
  }

  // ----- the other tables after one pass -----

  lemma {:induction false} MenusEnsured(menus: seq<MenuRow>, components: seq<string>)
    ensures menus <= EnsureMenus(menus, components)
    ensures forall c | c in components || HasMenu(menus, c) :: HasMenu(EnsureMenus(menus, components), c)
    decreases |components|
  {
    if components != [] {
      var next := EnsureMenu(menus, components[0]);
      assert forall i | 0 <= i < |menus| :: next[i] == menus[i];
      assert HasMenu(next, components[0]) by {
        if !HasMenu(menus, components[0]) { assert next[|menus|].component == components[0]; }
      }
      forall c | HasMenu(menus, c) ensures HasMenu(next, c) {
        var i :| 0 <= i < |menus| && menus[i].component == c;
        assert next[i].component == c;
      }
      MenusEnsured(next, components[1..]);
    }
  }

  lemma {:induction false} MenusIdle(menus: seq<MenuRow>, components: seq<string>)
    requires forall c | c in components :: HasMenu(menus, c)
    ensures EnsureMenus(menus, components) == menus
    decreases |components|
  {
    if components != [] { MenusIdle(menus, components[1..]); }
  }

  lemma FoundRole(roles: seq<RoleRow>, key: string, i: nat)
    requires i < |roles| && roles[i].key == key && forall j | 0 <= j < i :: roles[j].key != key
    ensures FindRole(roles, key) == i
  {
  }

  lemma FoundUser(users: seq<UserRow>, uid: string, i: nat)
    requires i < |users| && users[i].uid == uid && forall j | 0 <= j < i :: users[j].uid != uid
    ensures FindUser(users, uid) == i
  {
  }

  lemma RoleIdle(roles: seq<RoleRow>)
    ensures EnsureRole(EnsureRole(roles)) == EnsureRole(roles) && AdminRole(EnsureRole(roles)) == AdminRole(roles)
    ensures AdminRole(roles).tenant != ""
  {
    var i, r := FindRole(roles, ADMIN), EnsureRole(roles);
    FoundRole(r, ADMIN, i);
    assert r[i := r[i]] == r;
  }

  lemma UserIdle(users: seq<UserRow>, tenant: string, policyOk: bool, again: bool)
    requires EnsureUser(users, tenant, policyOk).Ok?
    ensures var r := EnsureUser(users, tenant, policyOk).value; EnsureUser(r, tenant, again) == Ok(r)
  {
    var i, r := FindUser(users, ADMIN), EnsureUser(users, tenant, policyOk).value;
    FoundUser(r, ADMIN, i);
    assert r[i := r[i]] == r;
  }

  lemma {:induction false} RowsOfSplits(a: seq<SchemaRow>, b: seq<SchemaRow>, tenant: string)
    ensures RowsOf(a + b, tenant) == RowsOf(a, tenant) + RowsOf(b, tenant)
    decreases |a|
  {
    if a == [] {
      assert [] + b == b;
    } else {
      assert (a + b)[1..] == a[1..] + b;
      RowsOfSplits(a[1..], b, tenant);
    }
  }

  lemma {:induction false} NoClones(templates: seq<SchemaRow>, tenant: string, seen: set<Tuple>)
    requires Tuples(templates) <= seen
    ensures Clones(templates, tenant, seen) == []
    decreases |templates|
  {
    if templates != [] {
      assert templates[0] in templates;
      assert Tuples(templates[1..]) <= Tuples(templates);
      NoClones(templates[1..], tenant, seen);
    }
  }

  lemma {:induction false} ClonesComplete(templates: seq<SchemaRow>, tenant: string, seen: set<Tuple>)
    ensures Tuples(templates) <= seen + Tuples(Clones(templates, tenant, seen))
    decreases |templates|
  {
    if templates != [] {
      ClonesComplete(templates[1..], tenant, seen);
      var r := Clones(templates, tenant, seen);
      forall p | p in Tuples(templates) ensures p in seen + Tuples(r) {
        var x :| x in templates && x.tuple == p;
        if x == templates[0] {
          assert p in seen || templates[0].(tenant := tenant) in r;
        } else {
          assert x in templates[1..] && p in Tuples(templates[1..]);
          if p !in seen {
            var y :| y in Clones(templates[1..], tenant, seen) && y.tuple == p;
            assert y in r;
          }
        }
      }
    }
  }

  lemma {:induction false} RowsOfOne(rows: seq<SchemaRow>, tenant: string, other: string)
    requires forall x | x in rows :: x.tenant == tenant
    ensures RowsOf(rows, other) == if other == tenant then rows else []
    decreases |rows|
  {
    if rows != [] {
      assert rows[0] in rows;
      RowsOfOne(rows[1..], tenant, other);
      assert rows == [rows[0]] + rows[1..];
    }
  }

  /** One tenant's clones: it has every template's tuple afterwards, and the templates themselves stay. */
  lemma CloneOne(schemas: seq<SchemaRow>, templates: seq<SchemaRow>, id: string)
    requires templates == RowsOf(schemas, "")
    ensures var r := schemas + Clones(templates, id, Tuples(RowsOf(schemas, id)));
            RowsOf(r, "") == templates && Tuples(templates) <= Tuples(RowsOf(r, id))
  {
    var seen := Tuples(RowsOf(schemas, id));
    var added := Clones(templates, id, seen);
    RowsOfSplits(schemas, added, id);
    RowsOfOne(added, id, id);
    ClonesComplete(templates, id, seen);
    TuplesGrow(RowsOf(schemas, id), added);
    RowsOfSplits(schemas, added, "");
    RowsOfOne(added, id, "");
    if id == "" { NoClones(templates, id, seen); }
    assert templates + [] == templates;
  }

  lemma TuplesGrow(a: seq<SchemaRow>, b: seq<SchemaRow>)
    ensures Tuples(a + b) == Tuples(a) + Tuples(b)
  {
  }

  lemma {:induction false} ClonesKept(schemas: seq<SchemaRow>, templates: seq<SchemaRow>, ids: seq<string>, id: string)
    requires templates == RowsOf(schemas, "")
    ensures var r := CloneAll(schemas, templates, ids);
            && schemas <= r && RowsOf(r, "") == templates
            && Tuples(RowsOf(schemas, id)) <= Tuples(RowsOf(r, id))
            && (id in ids ==> Tuples(templates) <= Tuples(RowsOf(r, id)))
    decreases |ids|
  {
    if ids != [] {
      var added := Clones(templates, ids[0], Tuples(RowsOf(schemas, ids[0])));
      CloneOne(schemas, templates, ids[0]);
      RowsOfSplits(schemas, added, id);
      TuplesGrow(RowsOf(schemas, id), RowsOf(added, id));
      ClonesKept(schemas + added, templates, ids[1..], id);
    }
  }

  lemma {:induction false} ClonesIdle(schemas: seq<SchemaRow>, templates: seq<SchemaRow>, ids: seq<string>)
    requires forall id | id in ids :: Tuples(templates) <= Tuples(RowsOf(schemas, id))
    ensures CloneAll(schemas, templates, ids) == schemas
    decreases |ids|
  {
    if ids != [] {
      NoClones(templates, ids[0], Tuples(RowsOf(schemas, ids[0])));
      assert schemas + [] == schemas;
      ClonesIdle(schemas, templates, ids[1..]);
    }
  }

  // ----- one pass converges -----

  /** A live menu by its Component, or a permission by its data. */
  predicate InCatalog(d: Db, kind: string, data: string) {
    (kind == "menu" && MenuRow(data, false) in d.menus) || (kind == "permission" && data in d.perms)
  }

  /** Every super role holds every menu and every permission under its own tenant. */
  ghost predicate SupersGranted(d: Db) {
    forall x, kind, data | x in d.roles && x.isSuper && InCatalog(d, kind, data) ::
      (kind, data) in Held(d.grants, x.tenant, x.key)
  }

  /** What the catalog will hold: the scaffolding menus no row, live or deleted, has are added. */
  predicate WillBeInCatalog(db: Db, setup: Setup, kind: string, data: string) {
    || InCatalog(db, kind, data)
    || (kind == "menu" && (data in setup.sections || data == "SystemSysRolesPermission")
        && MenuRow(data, false) !in db.menus && MenuRow(data, true) !in db.menus)
  }

  /** No super role of the empty tenant, the admin role aside, lacks part of the catalog as it
      will stand. Only such roles can be missed, because the create hook files their new rows
      under the default tenant. */
  ghost predicate LegacySupersGranted(db: Db, setup: Setup) {
    forall i, kind, data |
      0 <= i < |db.roles| && i != FindRole(db.roles, ADMIN) && db.roles[i].isSuper && db.roles[i].tenant == ""
      && WillBeInCatalog(db, setup, kind, data) ::
      (kind, data) in Held(db.grants, "", db.roles[i].key)
  }

  /** Every live tenant has a row for each template's module, table and column. */
  ghost predicate TenantsCloned(d: Db) {
    forall id, x | TenantRow(id, false) in d.tenants && x in d.schemas && x.tenant == "" ::
      exists y :: y in d.schemas && y.tenant == id && y.tuple == x.tuple
  }

  ghost predicate CatalogHeld(t: Table, supers: seq<RoleRow>, menus: seq<string>, perms: seq<string>) {
    forall x | x in supers :: Catalog(menus, perms) <= Held(t, x.tenant, x.key)
  }

  lemma CatalogExact(menus: seq<string>, perms: seq<string>, kind: string, data: string)
    ensures (kind, data) in Catalog(menus, perms) <==> Wants(menus, perms, kind, data)
  {
    RequestedExact("", "", menus, perms, kind, data);
  }

  lemma SupersGrantedIs(d: Db)
    ensures SupersGranted(d) <==> CatalogHeld(d.grants, Supers(d.roles), LiveComponents(d.menus), d.perms)
  {
    var catalog := Catalog(LiveComponents(d.menus), d.perms);
    forall kind, data ensures (kind, data) in catalog <==> InCatalog(d, kind, data) {
      CatalogExact(LiveComponents(d.menus), d.perms, kind, data);
    }
    if SupersGranted(d) {
      forall x | x in Supers(d.roles) ensures catalog <= Held(d.grants, x.tenant, x.key) {
        forall p | p in catalog ensures p in Held(d.grants, x.tenant, x.key) { assert InCatalog(d, p.0, p.1); }
      }
    }
    if CatalogHeld(d.grants, Supers(d.roles), LiveComponents(d.menus), d.perms) {
      forall x, kind, data | x in d.roles && x.isSuper && InCatalog(d, kind, data)
        ensures (kind, data) in Held(d.grants, x.tenant, x.key)
      {
        assert x in Supers(d.roles);
      }
    }
  }

  /** Scaffolding appends live rows, each for a Component asked for that no row had. */
  lemma {:induction false} EnsureMenusAdds(menus: seq<MenuRow>, components: seq<string>)
    ensures var r := EnsureMenus(menus, components);
            && menus <= r
            && (forall i | |menus| <= i < |r| ::
                  !r[i].deleted && r[i].component in components && forall j | 0 <= j < i :: r[j].component != r[i].component)
            && forall c | c in components :: exists i :: 0 <= i < |r| && r[i].component == c
    decreases |components|
  {
    if components != [] {
      var next := EnsureMenu(menus, components[0]);
      assert exists i :: 0 <= i < |next| && next[i].component == components[0] by {
        if !HasMenu(menus, components[0]) { assert next[|menus|].component == components[0]; }
      }
      EnsureMenusAdds(next, components[1..]);
      var r := EnsureMenus(next, components[1..]);
      forall i | |menus| <= i < |r|
        ensures !r[i].deleted && r[i].component in components && forall j | 0 <= j < i :: r[j].component != r[i].component
      {
        if i < |next| {
          assert r[i] == next[i] == MenuRow(components[0], false) && !HasMenu(menus, components[0]);
          assert forall j | 0 <= j < i :: r[j] == menus[j];
        } else {
          assert r[i].component in components[1..];
        }
      }
      forall c | c in components ensures exists i :: 0 <= i < |r| && r[i].component == c {
        if c == components[0] {
          var i :| 0 <= i < |next| && next[i].component == c;
          assert r[i].component == c;
        } else {
          assert c in components[1..];
        }
      }
    }
  }

  lemma ScaffoldIs(menus: seq<MenuRow>, sections: seq<string>)
    ensures Scaffolded(menus, sections) == EnsureMenus(menus, sections + [ROLE_PERMISSION_MENU])
  {
    EnsureAppends(menus, sections, ROLE_PERMISSION_MENU);
  }

  lemma {:induction false} EnsureAppends(menus: seq<MenuRow>, components: seq<string>, last: string)
    ensures EnsureMenus(menus, components + [last]) == EnsureMenu(EnsureMenus(menus, components), last)
    decreases |components|
  {
    if components == [] {
      assert [] + [last] == [last] && [last][1..] == [];
    } else {
      assert (components + [last])[1..] == components[1..] + [last];
      EnsureAppends(EnsureMenu(menus, components[0]), components[1..], last);
    }
  }

  /** The scaffolded menus: the rows there were, and a live one for each Component asked for
      that no row had, once. */
  lemma ScaffoldAdds(menus: seq<MenuRow>, sections: seq<string>)
    ensures var r, wanted := Scaffolded(menus, sections), sections + ["SystemSysRolesPermission"];
            && menus <= r
            && (forall i | |menus| <= i < |r| ::
                  !r[i].deleted && r[i].component in wanted && forall j | 0 <= j < i :: r[j].component != r[i].component)
            && forall c | c in wanted :: exists i :: 0 <= i < |r| && r[i].component == c
  {
    ScaffoldIs(menus, sections);
    EnsureMenusAdds(menus, sections + [ROLE_PERMISSION_MENU]);
  }

  lemma ScaffoldLive(menus: seq<MenuRow>, sections: seq<string>, c: string)
    ensures MenuRow(c, false) in Scaffolded(menus, sections)
       <==> MenuRow(c, false) in menus
            || ((c in sections || c == "SystemSysRolesPermission") && MenuRow(c, false) !in menus && MenuRow(c, true) !in menus)
  {
    var r, wanted := Scaffolded(menus, sections), sections + ["SystemSysRolesPermission"];
    ScaffoldAdds(menus, sections);
    assert forall j | 0 <= j < |menus| :: r[j] == menus[j];
    assert forall x | x in menus :: x in r;
    if c in wanted && MenuRow(c, false) !in menus && MenuRow(c, true) !in menus {
      var i :| 0 <= i < |r| && r[i].component == c;
      assert forall m | m in menus :: m == MenuRow(m.component, true) || m == MenuRow(m.component, false);
      assert i >= |menus|;
      assert r[i] == MenuRow(c, false);
    }
    if MenuRow(c, false) in r && MenuRow(c, false) !in menus {
      var i :| 0 <= i < |r| && r[i] == MenuRow(c, false);
      assert i >= |menus|;
      assert forall j | 0 <= j < |menus| :: menus[j].component != c;
    }
  }

  lemma WillBeInCatalogIs(db: Db, setup: Setup, kind: string, data: string)
    ensures (kind, data) in Catalog(LiveComponents(Scaffolded(db.menus, setup.sections)), db.perms)
       <==> WillBeInCatalog(db, setup, kind, data)
  {
    CatalogExact(LiveComponents(Scaffolded(db.menus, setup.sections)), db.perms, kind, data);
    ScaffoldLive(db.menus, setup.sections, data);
  }

  lemma SupersExact(t: Table, supers: seq<RoleRow>, menus: seq<string>, perms: seq<string>)
    requires t.Valid()
    ensures var r := GrantAll(t, supers, menus, perms);
            && ((forall x | x in supers && x.tenant == "" :: Catalog(menus, perms) <= Held(t, "", x.key))
                <==> forall x | x in supers :: Catalog(menus, perms) <= Held(r, x.tenant, x.key))
            && ((forall x | x in supers && x.tenant == "" :: Catalog(menus, perms) <= Held(t, "", x.key))
                <==> GrantAll(r, supers, menus, perms) == r)
  {
    var r := GrantAll(t, supers, menus, perms);
    GrantAllGrows(t, supers, menus, perms, "", "");
    forall x | x in supers
      ensures x.tenant != "" ==> Catalog(menus, perms) <= Held(r, x.tenant, x.key)
      ensures x.tenant == "" ==> Held(r, "", x.key) == Held(t, "", x.key)
    {
      if x.tenant != "" { GrantAllComplete(t, supers, menus, perms, x); }
      GrantAllGrows(t, supers, menus, perms, "", x.key);
    }
    if forall x | x in supers :: Catalog(menus, perms) <= Held(r, x.tenant, x.key) {
      GrantAllIdle(r, supers, menus, perms);
    } else {
      var x :| x in supers && !(Catalog(menus, perms) <= Held(r, x.tenant, x.key));
      GrantAllBusy(r, supers, menus, perms, x);
    }
  }

  /** The pass keeps the super roles of the empty tenant, the admin role aside. */
  lemma LegacySupersKept(roles: seq<RoleRow>, x: RoleRow)
    ensures x in Supers(EnsureRole(roles)) && x.tenant == ""
       <==> x.isSuper && x.tenant == "" && exists i :: 0 <= i < |roles| && i != FindRole(roles, ADMIN) && roles[i] == x
  {
    var r, a := EnsureRole(roles), FindRole(roles, ADMIN);
    assert r[a].tenant != "";
    if x in r && x.tenant == "" {
      var i :| 0 <= i < |r| && r[i] == x;
      assert i != a && i < |roles| && roles[i] == x;
    }
    if i :| 0 <= i < |roles| && i != a && roles[i] == x {
      assert r[i] == x;
    }
  }

  lemma LegacySupersAgree(db: Db, setup: Setup, admin: Admin)
    requires Seeded(db, setup, admin).Ok?
    ensures var d := Seeded(db, setup, admin).value;
            LegacySupersGranted(db, setup) <==>
              forall x | x in Supers(d.roles) && x.tenant == "" ::
                Catalog(LiveComponents(d.menus), d.perms) <= Held(db.grants, "", x.key)
  {
    var d := Seeded(db, setup, admin).value;
    assert d.roles == EnsureRole(db.roles) && d.menus == Scaffolded(db.menus, setup.sections) && d.perms == db.perms;
    if LegacySupersGranted(db, setup) {
      forall x | x in Supers(d.roles) && x.tenant == ""
        ensures Catalog(LiveComponents(d.menus), d.perms) <= Held(db.grants, "", x.key)
      {
        LegacySuperHolds(db, setup, x);
      }
    } else {
      var x := LegacySuperLacks(db, setup);
    }
  }

  lemma LegacySuperHolds(db: Db, setup: Setup, x: RoleRow)
    requires LegacySupersGranted(db, setup) && x in Supers(EnsureRole(db.roles)) && x.tenant == ""
    ensures Catalog(LiveComponents(Scaffolded(db.menus, setup.sections)), db.perms) <= Held(db.grants, "", x.key)
  {
    LegacySupersKept(db.roles, x);
    var i :| 0 <= i < |db.roles| && i != FindRole(db.roles, ADMIN) && db.roles[i] == x;
    forall p | p in Catalog(LiveComponents(Scaffolded(db.menus, setup.sections)), db.perms) ensures p in Held(db.grants, "", x.key) {
      WillBeInCatalogIs(db, setup, p.0, p.1);
    }
  }

  lemma LegacySuperLacks(db: Db, setup: Setup) returns (x: RoleRow)
    requires !LegacySupersGranted(db, setup)
    ensures x in Supers(EnsureRole(db.roles)) && x.tenant == ""
    ensures !(Catalog(LiveComponents(Scaffolded(db.menus, setup.sections)), db.perms) <= Held(db.grants, "", x.key))
  {
    var i, kind, data :|
      0 <= i < |db.roles| && i != FindRole(db.roles, ADMIN) && db.roles[i].isSuper && db.roles[i].tenant == ""
      && WillBeInCatalog(db, setup, kind, data) && (kind, data) !in Held(db.grants, "", db.roles[i].key);
    x := db.roles[i];
    LegacySupersKept(db.roles, x);
    WillBeInCatalogIs(db, setup, kind, data);
  }

  lemma {:induction false} ScaffoldSettles(menus: seq<MenuRow>, sections: seq<string>)
    ensures var r := Scaffolded(menus, sections);
            && menus <= r && Scaffolded(r, sections) == r
            && forall c | c in sections || c == ROLE_PERMISSION_MENU :: HasMenu(r, c)
  {
    var mid := EnsureMenus(menus, sections);
    MenusEnsured(menus, sections);
    MenusEnsured(mid, [ROLE_PERMISSION_MENU]);
    assert [ROLE_PERMISSION_MENU][1..] == [];
    assert EnsureMenus(mid, [ROLE_PERMISSION_MENU]) == Scaffolded(menus, sections);
    MenusIdle(Scaffolded(menus, sections), sections);
  }

  lemma TenantsIdle(tenants: seq<TenantRow>, tenant: string, t1: seq<TenantRow>, t2: seq<TenantRow>)
    requires EnsureTenant(tenants, DEFAULT_TENANT) == Ok(t1)
    requires (if tenant != DEFAULT_TENANT then EnsureTenant(t1, tenant) else Ok(t1)) == Ok(t2)
    ensures tenants <= t1 <= t2 && LiveTenant(t2, DEFAULT_TENANT) && LiveTenant(t2, tenant)
  {
    assert LiveTenant(t1, DEFAULT_TENANT);
    assert t1 <= t2;
    assert forall x | x in t1 :: x in t2;
  }

  lemma AccountsSettle(tenants: seq<TenantRow>, roles: seq<RoleRow>, users: seq<UserRow>, policyOk: bool, policyOk': bool)
    requires Accounts(tenants, roles, users, policyOk).Ok?
    ensures var (t, r, u) := Accounts(tenants, roles, users, policyOk).value;
            && Accounts(t, r, u, policyOk') == Ok((t, r, u))
            && tenants <= t && r == EnsureRole(roles)
            && u == EnsureUser(users, AdminRole(roles).tenant, policyOk).value
            && LiveTenant(t, DEFAULT_TENANT) && LiveTenant(t, AdminRole(roles).tenant)
  {
    var tenant := AdminRole(roles).tenant;
    RoleIdle(roles);
    UserIdle(users, tenant, policyOk, policyOk');
    TenantsIdle(tenants, tenant, EnsureTenant(tenants, DEFAULT_TENANT).value,
                Accounts(tenants, roles, users, policyOk).value.0);
  }

  lemma SchemasSettle(schemas: seq<SchemaRow>, ids: seq<string>)
    ensures var r := CloneAll(schemas, RowsOf(schemas, ""), ids);
            && schemas <= r && CloneAll(r, RowsOf(r, ""), ids) == r
            && forall id | id in ids :: Tuples(RowsOf(r, "")) <= Tuples(RowsOf(r, id))
  {
    var templates := RowsOf(schemas, "");
    var r := CloneAll(schemas, templates, ids);
    ClonesKept(schemas, templates, ids, "");
    forall id | id in ids ensures Tuples(RowsOf(r, "")) <= Tuples(RowsOf(r, id)) {
      ClonesKept(schemas, templates, ids, id);
    }
    ClonesIdle(r, templates, ids);
  }

  /** Everything but the grants has settled after one pass. */
  lemma OthersSettled(db: Db, setup: Setup, admin: Admin, admin': Admin)
    requires Seeded(db, setup, admin).Ok? && admin'.Given()
    ensures var d := Seeded(db, setup, admin).value;
            Seeded(d, setup, admin')
            == Ok(d.(grants := GrantAll(d.grants, Supers(d.roles), LiveComponents(d.menus), d.perms)))
  {
    var d := Seeded(db, setup, admin).value;
    ScaffoldSettles(db.menus, setup.sections);
    AccountsSettle(db.tenants, db.roles, db.users, admin.policyOk, admin'.policyOk);
    if setup.multiTenant { SchemasSettle(db.schemas, LiveIds(d.tenants)); }
  }

  /** One pass is complete exactly when no super role of the empty tenant lacked part of the
      catalog: then, and only then, every super role holds every menu and permission under
      its own tenant. */
  lemma OnePassCompleteExactly(db: Db, setup: Setup, admin: Admin)
    requires db.grants.Valid() && Seeded(db, setup, admin).Ok?
    ensures var d := Seeded(db, setup, admin).value;
            SupersGranted(d) <==> LegacySupersGranted(db, setup)
  {
    var d := Seeded(db, setup, admin).value;
    LegacySupersAgree(db, setup, admin);
    SupersGrantedIs(d);
    SupersExact(db.grants, Supers(d.roles), LiveComponents(d.menus), d.perms);
  }

  /** Under the same condition, and only then, a second pass writes nothing. */
  lemma OnePassFixpointExactly(db: Db, setup: Setup, admin: Admin, admin': Admin)
    requires db.grants.Valid() && Seeded(db, setup, admin).Ok? && admin'.Given()
    ensures var d := Seeded(db, setup, admin).value;
            Seeded(d, setup, admin') == Ok(d) <==> LegacySupersGranted(db, setup)
  {
    var d := Seeded(db, setup, admin).value;
    LegacySupersAgree(db, setup, admin);
    OthersSettled(db, setup, admin, admin');
    SupersExact(db.grants, Supers(d.roles), LiveComponents(d.menus), d.perms);
    var again := GrantAll(d.grants, Supers(d.roles), LiveComponents(d.menus), d.perms);
    assert d.(grants := again) == d <==> again == d.grants;
  }

  /** The condition can fail: a super role left without a tenant is granted nothing of its own. */
  lemma LegacySuperMissed()
    ensures var db := Db([], ["GET /x"], [], [RoleRow("ops", "", false, true)], [], Table(map[], 1), []);
            var setup, admin := Setup(SECTION_MENUS, false), Admin("root", "Passw0rd", true);
            Seeded(db, setup, admin).Ok? && Seeded(Seeded(db, setup, admin).value, setup, admin) != Seeded(db, setup, admin)
  {
    var db := Db([], ["GET /x"], [], [RoleRow("ops", "", false, true)], [], Table(map[], 1), []);
    var setup, admin := Setup(SECTION_MENUS, false), Admin("root", "Passw0rd", true);
    OnePassFixpointExactly(db, setup, admin, admin);
    assert FindRole(db.roles, ADMIN) == 1 by { assert db.roles[0].key != ADMIN; }
    Lacked(db, setup, 0, 0);
  }

  lemma Lacked(db: Db, setup: Setup, i: nat, p: nat)
    requires i < |db.roles| && i != FindRole(db.roles, ADMIN) && db.roles[i].isSuper && db.roles[i].tenant == ""
    requires p < |db.perms| && db.grants.live == map[]
    ensures !LegacySupersGranted(db, setup)
  {
    assert WillBeInCatalog(db, setup, "permission", db.perms[p]);
    assert Held(db.grants, "", db.roles[i].key) == {};
  }

  lemma AccountsConverge(tenants: seq<TenantRow>, roles: seq<RoleRow>, users: seq<UserRow>, policyOk: bool)
    requires Accounts(tenants, roles, users, policyOk).Ok?
    ensures var (t, r, u) := Accounts(tenants, roles, users, policyOk).value;
            && FindRole(r, ADMIN) < |r| && FindUser(u, ADMIN) < |u|
            && var role := r[FindRole(r, ADMIN)];
               && role.tenant != "" && (role.builtin ==> role.isSuper)
               && u[FindUser(u, ADMIN)].tenant == role.tenant && LiveTenant(t, role.tenant)
               && LiveTenant(t, DEFAULT_TENANT)
  {
    var (t, r, u) := Accounts(tenants, roles, users, policyOk).value;
    AccountsSettle(tenants, roles, users, policyOk, true);
    RoleIdle(roles);
    FoundRole(r, ADMIN, FindRole(roles, ADMIN));
    FoundUser(u, ADMIN, FindUser(users, ADMIN));
  }

  /** The scaffolding menus exist, the admin user sits in the admin role's tenant, which is a
      live tenant, and in multi-tenant mode every live tenant has every template. */
  lemma PassConverges(db: Db, setup: Setup, admin: Admin)
    requires Seeded(db, setup, admin).Ok?
    ensures var d := Seeded(db, setup, admin).value;
            && (forall c | c in setup.sections || c == ROLE_PERMISSION_MENU :: HasMenu(d.menus, c))
            && FindRole(d.roles, ADMIN) < |d.roles| && FindUser(d.users, ADMIN) < |d.users|
            && var role := d.roles[FindRole(d.roles, ADMIN)];
               && role.tenant != "" && (role.builtin ==> role.isSuper)
               && d.users[FindUser(d.users, ADMIN)].tenant == role.tenant && LiveTenant(d.tenants, role.tenant)
               && LiveTenant(d.tenants, DEFAULT_TENANT)
    ensures setup.multiTenant ==> TenantsCloned(Seeded(db, setup, admin).value)
  {
    var d := Seeded(db, setup, admin).value;
    ScaffoldSettles(db.menus, setup.sections);
    AccountsConverge(db.tenants, db.roles, db.users, admin.policyOk);
    if setup.multiTenant {
      SchemasSettle(db.schemas, LiveIds(d.tenants));
      ClonedIs(d);
    }
  }

  lemma ClonedIs(d: Db)
    requires forall id | id in LiveIds(d.tenants) :: Tuples(RowsOf(d.schemas, "")) <= Tuples(RowsOf(d.schemas, id))
    ensures TenantsCloned(d)
  {
    forall id, x | TenantRow(id, false) in d.tenants && x in d.schemas && x.tenant == ""
      ensures exists y :: y in d.schemas && y.tenant == id && y.tuple == x.tuple
    {
      assert LiveTenant(d.tenants, id) && x in RowsOf(d.schemas, "");
      assert x.tuple in Tuples(RowsOf(d.schemas, id));
    }
  }

  lemma {:induction false} GrantAllKeeps(t: Table, supers: seq<RoleRow>, menus: seq<string>, perms: seq<string>)
    requires t.Valid()
    ensures var r := GrantAll(t, supers, menus, perms);
            forall g | g in t.live :: g in r.live && r.live[g] == t.live[g]
    decreases |supers|
  {
    if supers != [] {
      TopUpRows(t, supers[0], menus, perms);
      Inserted(t, None, Lacking(t, supers[0], menus, perms));
      GrantAllKeeps(GrantMissing(t, None, supers[0].key, supers[0].tenant, menus, perms), supers[1..], menus, perms);
    }
  }

  lemma OneRoleWritten(roles: seq<RoleRow>)
    ensures |roles| <= |EnsureRole(roles)|
    ensures forall i | 0 <= i < |roles| && i != FindRole(roles, ADMIN) :: EnsureRole(roles)[i] == roles[i]
  {
  }

  lemma OneUserWritten(users: seq<UserRow>, tenant: string, policyOk: bool)
    requires EnsureUser(users, tenant, policyOk).Ok?
    ensures var r := EnsureUser(users, tenant, policyOk).value;
            |users| <= |r| && forall i | 0 <= i < |users| && i != FindUser(users, ADMIN) :: r[i] == users[i]
  {
  }

  /** A pass removes no row, and changes none but the admin role's and the admin user's. */
  lemma PassRemovesNothing(db: Db, setup: Setup, admin: Admin)
    requires db.grants.Valid() && Seeded(db, setup, admin).Ok?
    ensures var d := Seeded(db, setup, admin).value;
            && db.menus <= d.menus && d.perms == db.perms && db.tenants <= d.tenants && db.schemas <= d.schemas
            && (forall g | g in db.grants.live :: g in d.grants.live && d.grants.live[g] == db.grants.live[g])
            && |db.roles| <= |d.roles| && |db.users| <= |d.users|
            && (forall i | 0 <= i < |db.roles| && i != FindRole(db.roles, ADMIN) :: d.roles[i] == db.roles[i])
            && (forall i | 0 <= i < |db.users| && i != FindUser(db.users, ADMIN) :: d.users[i] == db.users[i])
  {
    var d := Seeded(db, setup, admin).value;
    OneRoleWritten(db.roles);
    OneUserWritten(db.users, AdminRole(db.roles).tenant, admin.policyOk);
    NothingLost(db, setup, admin);
    assert d.roles == EnsureRole(db.roles);
  }

  lemma NothingLost(db: Db, setup: Setup, admin: Admin)
    requires db.grants.Valid() && Seeded(db, setup, admin).Ok?
    ensures var d := Seeded(db, setup, admin).value;
            && db.menus <= d.menus && d.perms == db.perms && db.tenants <= d.tenants && db.schemas <= d.schemas
            && (forall g | g in db.grants.live :: g in d.grants.live && d.grants.live[g] == db.grants.live[g])
            && d.roles == EnsureRole(db.roles)
            && d.users == EnsureUser(db.users, AdminRole(db.roles).tenant, admin.policyOk).value
  {
    var d := Seeded(db, setup, admin).value;
    ScaffoldSettles(db.menus, setup.sections);
    AccountsSettle(db.tenants, db.roles, db.users, admin.policyOk, true);
    if setup.multiTenant { SchemasSettle(db.schemas, LiveIds(d.tenants)); }
    GrantAllKeeps(db.grants, Supers(d.roles), LiveComponents(d.menus), d.perms);
  }

  // ----- the transaction as it runs -----

  class Session {
    const sections: seq<string>
    var db: Db

    constructor (db: Db)
      ensures this.db == db && sections == ["SystemUserCenter", "SystemLogs", "SystemSettings"]
    {
      sections := SECTION_MENUS;
      this.db := db;
    }

    method EnsureSectionMenus()
      modifies this
      ensures db == old(db).(menus := EnsureMenus(old(db.menus), sections))
    {
      for i := 0 to |sections|
        invariant db == old(db).(menus := db.menus)
        invariant EnsureMenus(db.menus, sections[i..]) == EnsureMenus(old(db.menus), sections)
      {
        ghost var rest := sections[i..];
        assert rest[0] == sections[i] && rest[1..] == sections[i + 1..];
        db := db.(menus := EnsureMenu(db.menus, sections[i]));
      }
    }

    method GrantFullCatalog(supers: seq<RoleRow>)
      modifies this
      ensures db == old(db).(grants := GrantAll(old(db.grants), supers, LiveComponents(old(db.menus)), old(db.perms)))
    {
      var menus, perms := LiveComponents(db.menus), db.perms;
      for i := 0 to |supers|
        invariant db == old(db).(grants := db.grants)
        invariant GrantAll(db.grants, supers[i..], menus, perms) == GrantAll(old(db.grants), supers, menus, perms)
      {
        ghost var rest := supers[i..];
        assert rest[0] == supers[i] && rest[1..] == supers[i + 1..];
        db := db.(grants := GrantMissing(db.grants, None, supers[i].key, supers[i].tenant, menus, perms));
      }
    }

    method EnsureTenantSchemas()
      modifies this
      ensures db == old(db).(schemas := Cloned(old(db.schemas), old(db.tenants), true))
    {
      var ids := LiveIds(db.tenants);
      var templates := RowsOf(db.schemas, "");
      for i := 0 to |ids|
        invariant db == old(db).(schemas := db.schemas)
        invariant CloneAll(db.schemas, templates, ids[i..]) == CloneAll(old(db.schemas), templates, ids)
      {
        ghost var rest := ids[i..];
        assert rest[0] == ids[i] && rest[1..] == ids[i + 1..];
        var missing := MissingClones(templates, ids[i], Tuples(RowsOf(db.schemas, ids[i])));
        db := db.(schemas := db.schemas + missing);
      }
    }

    /** The inner loop over the templates. */
    method MissingClones(templates: seq<SchemaRow>, tenant: string, seen: set<Tuple>) returns (missing: seq<SchemaRow>)
      ensures missing == Clones(templates, tenant, seen)
    {
      missing := [];
      for i := 0 to |templates|
        invariant missing + Clones(templates[i..], tenant, seen) == Clones(templates, tenant, seen)
      {
        ghost var rest := templates[i..];
        assert rest[0] == templates[i] && rest[1..] == templates[i + 1..];
        var copy := templates[i].(tenant := tenant);
        ghost var more := Clones(templates[i + 1..], tenant, seen);
        if templates[i].tuple in seen {
          assert Clones(rest, tenant, seen) == more;
          continue;
        }
        assert Clones(rest, tenant, seen) == [copy] + more;
        assert missing + ([copy] + more) == (missing + [copy]) + more;
        missing := missing + [copy];
      }
    }

    /** The tenant, role and user writes, which may fail half-way. */
    method EnsureAccounts(policyOk: bool) returns (r: Option<SeedError>)
      modifies this
      ensures match Accounts(old(db.tenants), old(db.roles), old(db.users), policyOk) {
                case Ok((t, s, u)) => r == None && db == old(db).(tenants := t, roles := s, users := u)
                case Err(e) => r == Some(e)
              }
    {
      var first := EnsureTenant(db.tenants, DEFAULT_TENANT);
      if first.Err? {
        return Some(first.error);
      }
      db := db.(tenants := first.value);
      FoundRole(EnsureRole(db.roles), ADMIN, FindRole(db.roles, ADMIN));
      db := db.(roles := EnsureRole(db.roles));
      var role := db.roles[FindRole(db.roles, ADMIN)];
      if role.tenant != DEFAULT_TENANT {
        var second := EnsureTenant(db.tenants, role.tenant);
        if second.Err? {
          return Some(second.error);
        }
        db := db.(tenants := second.value);
      }
      var ensured := EnsureUser(db.users, role.tenant, policyOk);
      if ensured.Err? {
        return Some(ensured.error);
      }
      db := db.(users := ensured.value);
      return None;
    }

    /** On an error the transaction rolls back. */
    method Seed(multiTenant: bool, admin: Admin) returns (r: Option<SeedError>)
      modifies this
      ensures match Seeded(old(db), Setup(sections, multiTenant), admin) {
                case Ok(d) => r == None && db == d
                case Err(e) => r == Some(e) && db == old(db)
              }
    {
      if !admin.Given() {
        return Some(Invalid);
      }
      var begin := db;
      EnsureSectionMenus();
      db := db.(menus := EnsureMenu(db.menus, ROLE_PERMISSION_MENU));
      r := EnsureAccounts(admin.policyOk);
      if r.Some? {
        db := begin;
        return;
      }
      GrantFullCatalog(Supers(db.roles));
      if multiTenant {
        EnsureTenantSchemas();
      }
    }
  }
}
