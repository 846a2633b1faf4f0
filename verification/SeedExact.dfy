/** What one pass of the bootstrap (`admin/seed.go`) writes, row by row: with `Seed`, which says
    when it writes enough, this says that it writes nothing else. */
module SeedExact {
  import opened Grants
  import opened Seed
  import opened Wrappers

  /** The menus the pass adds: live, asked for, and each for a Component no earlier row has. */
  lemma MenusWritten(db: Db, setup: Setup, admin: Admin)
    requires Seeded(db, setup, admin).Ok?
    ensures var d := Seeded(db, setup, admin).value;
            && db.menus <= d.menus
            && forall i | |db.menus| <= i < |d.menus| ::
                 && !d.menus[i].deleted
                 && (d.menus[i].component in setup.sections || d.menus[i].component == "SystemSysRolesPermission")
                 && forall j | 0 <= j < i :: d.menus[j].component != d.menus[i].component
  {
    ScaffoldAdds(db.menus, setup.sections);
  }

  /** The admin role: made a builtin super role of the default tenant if there was none of that
      key; else the first one, given the default tenant if it had none and made super if builtin. */
  lemma RoleWritten(db: Db, setup: Setup, admin: Admin)
    requires Seeded(db, setup, admin).Ok?
    ensures var i, r := FindRole(db.roles, "admin"), Seeded(db, setup, admin).value.roles;
            if i == |db.roles| then r == db.roles + [RoleRow("admin", DEFAULT_TENANT, true, true)]
            else
              && |r| == |db.roles| && (forall j | 0 <= j < |r| && j != i :: r[j] == db.roles[j])
              && r[i].key == "admin" && r[i].builtin == db.roles[i].builtin
              && r[i].tenant == (if db.roles[i].tenant == "" then DEFAULT_TENANT else db.roles[i].tenant)
              && r[i].isSuper == (db.roles[i].isSuper || db.roles[i].builtin)
  {
  }

  /** The admin user: made with the admin role if there was none of that uid; else moved to the
      admin role's tenant, with the role it had. */
  lemma UserWritten(db: Db, setup: Setup, admin: Admin)
    requires Seeded(db, setup, admin).Ok?
    ensures var i, d := FindUser(db.users, "admin"), Seeded(db, setup, admin).value;
            var k := FindRole(d.roles, "admin");
            && k < |d.roles|
            && if i == |db.users| then d.users == db.users + [UserRow("admin", d.roles[k].tenant, "admin")]
               else
                 && |d.users| == |db.users| && (forall j | 0 <= j < |d.users| && j != i :: d.users[j] == db.users[j])
                 && d.users[i].uid == "admin" && d.users[i].tenant == d.roles[k].tenant
                 && d.users[i].roleKey == db.users[i].roleKey
  {
    var d := Seeded(db, setup, admin).value;
    AccountsSettle(db.tenants, db.roles, db.users, admin.policyOk, true);
    RoleIdle(db.roles);
    assert d.roles == EnsureRole(db.roles) && AdminRole(d.roles) == AdminRole(db.roles);
    assert d.roles[FindRole(d.roles, ADMIN)] == AdminRole(d.roles);
  }

  /** The tenants the pass adds: live, the default one or the admin role's, and not there yet. */
  lemma TenantsWritten(db: Db, setup: Setup, admin: Admin)
    requires Seeded(db, setup, admin).Ok?
    ensures var d := Seeded(db, setup, admin).value;
            var role := d.roles[FindRole(d.roles, "admin")];
            && db.tenants <= d.tenants
            && forall i | |db.tenants| <= i < |d.tenants| ::
                 && !d.tenants[i].deleted && (d.tenants[i].id == DEFAULT_TENANT || d.tenants[i].id == role.tenant)
                 && forall deleted :: TenantRow(d.tenants[i].id, deleted) !in db.tenants
  {
    var d, tenant := Seeded(db, setup, admin).value, AdminRole(db.roles).tenant;
    UserWritten(db, setup, admin);
    RoleIdle(db.roles);
    assert d.roles[FindRole(d.roles, ADMIN)] == AdminRole(d.roles) == AdminRole(db.roles);
    TwoTenantsAdded(db.tenants, tenant, EnsureTenant(db.tenants, DEFAULT_TENANT).value, d.tenants);
  }

  lemma TwoTenantsAdded(tenants: seq<TenantRow>, tenant: string, first: seq<TenantRow>, second: seq<TenantRow>)
    requires EnsureTenant(tenants, DEFAULT_TENANT) == Ok(first)
    requires (if tenant != DEFAULT_TENANT then EnsureTenant(first, tenant) else Ok(first)) == Ok(second)
    ensures tenants <= second
    ensures forall i | |tenants| <= i < |second| ::
              && !second[i].deleted && (second[i].id == DEFAULT_TENANT || second[i].id == tenant)
              && forall deleted :: TenantRow(second[i].id, deleted) !in tenants
  {
    TenantAdded(tenants, DEFAULT_TENANT);
    if tenant != DEFAULT_TENANT {
      TenantAdded(first, tenant);
      assert forall x | x in tenants :: x in first;
    }
  }

  lemma TenantAdded(tenants: seq<TenantRow>, id: string)
    requires EnsureTenant(tenants, id).Ok?
    ensures var r := EnsureTenant(tenants, id).value;
            && tenants <= r && |r| <= |tenants| + 1
            && forall i | |tenants| <= i < |r| ::
                 r[i] == TenantRow(id, false) && forall deleted :: TenantRow(id, deleted) !in tenants
  {
  }

  // ----- schema clones -----

  /** A row for a tenant that is in all but the tenant a template, where the tenant had no row
      for its module, table and column. */
  ghost predicate IsClone(x: SchemaRow, schemas: seq<SchemaRow>, ids: seq<string>) {
    && x.tenant in ids && SchemaRow("", x.tuple, x.meta) in schemas
    && forall y | y in schemas && y.tenant == x.tenant :: y.tuple != x.tuple
  }

  lemma {:induction false} ClonesAreCopies(templates: seq<SchemaRow>, tenant: string, seen: set<Tuple>)
    requires forall x | x in templates :: x.tenant == ""
    ensures forall x | x in Clones(templates, tenant, seen) ::
              x.tenant == tenant && x.tuple !in seen && SchemaRow("", x.tuple, x.meta) in templates
    decreases |templates|
  {
    if templates != [] {
      ClonesAreCopies(templates[1..], tenant, seen);
      assert templates[0] in templates && templates[0] == SchemaRow("", templates[0].tuple, templates[0].meta);
    }
  }

  lemma {:induction false} CloneAllAdds(base: seq<SchemaRow>, schemas: seq<SchemaRow>, ids: seq<string>, all: seq<string>)
    requires base <= schemas && (forall id | id in ids :: id in all)
    requires forall i | |base| <= i < |schemas| :: IsClone(schemas[i], base, all)
    ensures var r := CloneAll(schemas, RowsOf(base, ""), ids);
            base <= r && forall i | |base| <= i < |r| :: IsClone(r[i], base, all)
    decreases |ids|
  {
    if ids != [] {
      var added := Clones(RowsOf(base, ""), ids[0], Tuples(RowsOf(schemas, ids[0])));
      ClonesAreCopies(RowsOf(base, ""), ids[0], Tuples(RowsOf(schemas, ids[0])));
      var next := schemas + added;
      forall i | |base| <= i < |next| ensures IsClone(next[i], base, all) {
        if i >= |schemas| {
          var x := added[i - |schemas|];
          assert x in added && next[i] == x && ids[0] in all;
          forall y | y in base && y.tenant == x.tenant ensures y.tuple != x.tuple {
            assert y in schemas && y in RowsOf(schemas, ids[0]);
          }
        }
      }
      CloneAllAdds(base, next, ids[1..], all);
    }
  }

  /** The schema rows the pass adds are such copies for live tenants, and it adds none without
      tenant scoping. */
  lemma SchemasWritten(db: Db, setup: Setup, admin: Admin)
    requires Seeded(db, setup, admin).Ok?
    ensures var d := Seeded(db, setup, admin).value;
            && db.schemas <= d.schemas && (!setup.multiTenant ==> d.schemas == db.schemas)
            && forall i | |db.schemas| <= i < |d.schemas| ::
                 && TenantRow(d.schemas[i].tenant, false) in d.tenants
                 && SchemaRow("", d.schemas[i].tuple, d.schemas[i].meta) in db.schemas
                 && forall y | y in db.schemas && y.tenant == d.schemas[i].tenant :: y.tuple != d.schemas[i].tuple
  {
    var d := Seeded(db, setup, admin).value;
    if setup.multiTenant {
      CloneAllAdds(db.schemas, db.schemas, LiveIds(d.tenants), LiveIds(d.tenants));
      forall i | |db.schemas| <= i < |d.schemas| ensures TenantRow(d.schemas[i].tenant, false) in d.tenants {
        assert IsClone(d.schemas[i], db.schemas, LiveIds(d.tenants));
        assert LiveTenant(d.tenants, d.schemas[i].tenant);
      }
    }
  }

  // ----- grants -----

  /** Some super role's rows go there. */
  ghost predicate GrantedTo(supers: seq<RoleRow>, tenant: string, key: string) {
    exists x :: x in supers && x.key == key && tenant == if x.tenant == "" then DEFAULT_TENANT else x.tenant
  }

  lemma {:induction false} GrantAllAdds(t: Table, supers: seq<RoleRow>, menus: seq<string>, perms: seq<string>,
                                        tenant: string, key: string, kind: string, data: string)
    requires t.Valid() && (kind, data) in Held(GrantAll(t, supers, menus, perms), tenant, key)
    ensures (kind, data) in Held(t, tenant, key) || (GrantedTo(supers, tenant, key) && Wants(menus, perms, kind, data))
    decreases |supers|
  {
    if supers != [] {
      var x := supers[0];
      TopUpRows(t, x, menus, perms);
      GrantAllAdds(GrantMissing(t, None, x.key, x.tenant, menus, perms), supers[1..], menus, perms, tenant, key, kind, data);
      GrantMissingHeld(t, None, x.key, x.tenant, menus, perms, tenant, key, kind, data);
      assert x in supers;
    }
  }

  /** The pass grants nothing but live menus and permissions, and only to super roles, under
      their own tenant or, for those without one, the default. */
  lemma GrantsWritten(db: Db, setup: Setup, admin: Admin, tenant: string, key: string, kind: string, data: string)
    requires db.grants.Valid() && Seeded(db, setup, admin).Ok?
    requires (kind, data) in Held(Seeded(db, setup, admin).value.grants, tenant, key)
    ensures var d := Seeded(db, setup, admin).value;
            || (kind, data) in Held(db.grants, tenant, key)
            || (InCatalog(d, kind, data)
                && exists x :: x in d.roles && x.isSuper && x.key == key
                               && tenant == if x.tenant == "" then DEFAULT_TENANT else x.tenant)
  {
    var d := Seeded(db, setup, admin).value;
    GrantAllAdds(db.grants, Supers(d.roles), LiveComponents(d.menus), d.perms, tenant, key, kind, data);
    if (kind, data) !in Held(db.grants, tenant, key) {
      var x :| x in Supers(d.roles) && x.key == key && tenant == if x.tenant == "" then DEFAULT_TENANT else x.tenant;
      assert x in d.roles && x.isSuper;
    }
  }
}
