/** The `sys_role_permissions` table of `admin/models/role_permission.go`: its live rows,
    keyed by an auto-increment id that no row, live or soft-deleted, ever shared. */
module Grants {
  import opened Wrappers

  const DEFAULT_TENANT: string := "00000000-0000-0000-0000-000000000000"
  const MENU: string := "menu"
  const PERMISSION: string := "permission"

  datatype Grant = Grant(tenant: string, roleKey: string, kind: string, data: string)

  datatype Table = Table(live: map<nat, Grant>, nextId: nat) {
    ghost predicate Valid() { 0 < nextId && forall id | id in live :: 0 < id < nextId }
  }

  /** The tenant callbacks of `admin/tenant_scope.go`: `Some(t)` confines every statement to
      tenant t and stamps it on every insert, `None` is single-tenant or bypassed. */
  type Scope = Option<string>

  predicate InScope(scope: Scope, tenant: string) { scope.Some? ==> tenant == scope.value }

  /** The tenant a row is created in: the create hook fills an empty one, then the callback
      overrides it. */
  function Home(scope: Scope, tenant: string): string {
    if scope.Some? then scope.value else if tenant == "" then DEFAULT_TENANT else tenant
  }

  function Homed(scope: Scope, g: Grant): Grant { g.(tenant := Home(scope, g.tenant)) }

  function Insert(t: Table, scope: Scope, rows: seq<Grant>): (r: Table)
    ensures r.nextId == t.nextId + |rows|
    decreases |rows|
  {
    if rows == [] then t
    else Insert(Table(t.live[t.nextId := Homed(scope, rows[0])], t.nextId + 1), scope, rows[1..])
  }

  function Without(t: Table, ids: set<nat>): Table { t.(live := t.live - ids) }

  /** The rows of one role key that a scoped statement reaches. */
  function OfKey(t: Table, scope: Scope, roleKey: string): set<nat> {
    set id | id in t.live && t.live[id].roleKey == roleKey && InScope(scope, t.live[id].tenant)
  }

  function OfRole(t: Table, tenant: string, roleKey: string): set<nat> {
    set id | id in t.live && t.live[id].roleKey == roleKey && t.live[id].tenant == tenant
  }

  /** What one role of one tenant is granted, as (kind, data) pairs. */
  function Held(t: Table, tenant: string, roleKey: string): set<(string, string)> {
    set id | id in OfRole(t, tenant, roleKey) :: (t.live[id].kind, t.live[id].data)
  }

  function RowsFor(tenant: string, roleKey: string, kind: string, datas: seq<string>): (r: seq<Grant>)
    ensures |r| == |datas| && forall i | 0 <= i < |r| :: r[i] == Grant(tenant, roleKey, kind, datas[i])
  {
    seq(|datas|, i requires 0 <= i < |datas| => Grant(tenant, roleKey, kind, datas[i]))
  }

  function Requested(tenant: string, roleKey: string, menus: seq<string>, perms: seq<string>): seq<Grant> {
    RowsFor(tenant, roleKey, MENU, menus) + RowsFor(tenant, roleKey, PERMISSION, perms)
  }

  function Replace(t: Table, scope: Scope, roleKey: string, menus: seq<string>, perms: seq<string>, tenant: string): Table {
    Insert(Without(t, OfKey(t, scope, roleKey)), scope, Requested(tenant, roleKey, menus, perms))
  }

  /** The requested rows the role does not hold yet, in order. */
  function MissingOf(rows: seq<Grant>, held: set<(string, string)>): (r: seq<Grant>)
    ensures forall g | g in r :: g in rows && (g.kind, g.data) !in held
    ensures forall g | g in rows :: (g.kind, g.data) in held || g in r
    decreases |rows|
  {
    if rows == [] then []
    else if (rows[0].kind, rows[0].data) in held then MissingOf(rows[1..], held)
    else [rows[0]] + MissingOf(rows[1..], held)
  }

  /** What a scoped query finds of the role's grants: nothing, when it is confined to another tenant. */
  function Reached(t: Table, scope: Scope, tenant: string, roleKey: string): set<(string, string)> {
    if InScope(scope, tenant) then Held(t, tenant, roleKey) else {}
  }

  function GrantMissing(t: Table, scope: Scope, roleKey: string, tenant: string, menus: seq<string>, perms: seq<string>): Table {
    Insert(t, scope, MissingOf(Requested(tenant, roleKey, menus, perms), Reached(t, scope, tenant, roleKey)))
  }

  /** A role rename re-points the rows in place: same ids, new key. */
  function Repoint(t: Table, tenant: string, from: string, to: string): Table {
    t.(live := map id | id in t.live ::
         if id in OfRole(t, tenant, from) then t.live[id].(roleKey := to) else t.live[id])
  }

  lemma {:induction false} InsertedAt(t: Table, scope: Scope, rows: seq<Grant>, id: nat)
    requires t.Valid()
    ensures var r := Insert(t, scope, rows).live;
            && (id in r <==> id in t.live || t.nextId <= id < t.nextId + |rows|)
            && (id in t.live ==> r[id] == t.live[id])
            && (t.nextId <= id < t.nextId + |rows| ==> r[id] == Homed(scope, rows[id - t.nextId]))
    decreases |rows|
  {
    if rows != [] {
      InsertedAt(Table(t.live[t.nextId := Homed(scope, rows[0])], t.nextId + 1), scope, rows[1..], id);
    }
  }

  lemma Inserted(t: Table, scope: Scope, rows: seq<Grant>)
    requires t.Valid()
    ensures var r := Insert(t, scope, rows);
            && r.Valid()
            && (forall id :: id in r.live <==> id in t.live || t.nextId <= id < t.nextId + |rows|)
            && (forall id | id in t.live :: r.live[id] == t.live[id])
            && (forall i | 0 <= i < |rows| :: r.live[t.nextId + i] == Homed(scope, rows[i]))
  {
    var r := Insert(t, scope, rows);
    forall id: nat ensures id in r.live <==> id in t.live || t.nextId <= id < t.nextId + |rows| {
      InsertedAt(t, scope, rows, id);
    }
    forall id | id in t.live ensures id in r.live && r.live[id] == t.live[id] { InsertedAt(t, scope, rows, id); }
    forall i | 0 <= i < |rows| ensures r.live[t.nextId + i] == Homed(scope, rows[i]) {
      InsertedAt(t, scope, rows, t.nextId + i);
    }
  }

  /** The row a batch creates at its i-th id: as given, in the scope's tenant, its own, or the default. */
  lemma RowCreated(t: Table, scope: Scope, rows: seq<Grant>, i: nat)
    requires t.Valid() && i < |rows|
    ensures var r := Insert(t, scope, rows).live;
            && t.nextId + i in r
            && r[t.nextId + i].roleKey == rows[i].roleKey && r[t.nextId + i].kind == rows[i].kind
            && r[t.nextId + i].data == rows[i].data
            && r[t.nextId + i].tenant == if scope.Some? then scope.value
                                         else if rows[i].tenant == "" then "00000000-0000-0000-0000-000000000000"
                                         else rows[i].tenant
  {
    Inserted(t, scope, rows);
  }

  // ----- what a role holds after a write -----

  function Pairs(rows: seq<Grant>): set<(string, string)> { set g | g in rows :: (g.kind, g.data) }

  /** The rows are all made out to one role. */
  ghost predicate AllFor(rows: seq<Grant>, tenant: string, roleKey: string) {
    forall g | g in rows :: g.tenant == tenant && g.roleKey == roleKey
  }

  lemma InsertHeld(t: Table, scope: Scope, rows: seq<Grant>, tenant: string, roleKey: string, tenant': string, key': string)
    requires t.Valid() && AllFor(rows, tenant, roleKey)
    ensures Held(Insert(t, scope, rows), tenant', key')
         == Held(t, tenant', key') + (if tenant' == Home(scope, tenant) && key' == roleKey then Pairs(rows) else {})
  {
    var r := Insert(t, scope, rows);
    Inserted(t, scope, rows);
    forall i | 0 <= i < |rows| ensures r.live[t.nextId + i] == rows[i].(tenant := Home(scope, tenant)) {
      assert rows[i] in rows;
    }
    forall p | p in Held(t, tenant', key') ensures p in Held(r, tenant', key') {
      var id :| id in OfRole(t, tenant', key') && (t.live[id].kind, t.live[id].data) == p;
      assert id in OfRole(r, tenant', key');
    }
    if tenant' == Home(scope, tenant) && key' == roleKey {
      forall p | p in Pairs(rows) ensures p in Held(r, tenant', key') {
        var i :| 0 <= i < |rows| && (rows[i].kind, rows[i].data) == p;
        assert rows[i] in rows;
        assert t.nextId + i in OfRole(r, tenant', key');
      }
    }
    InsertHeldOnly(t, scope, rows, tenant, roleKey, tenant', key');
  }

  lemma InsertHeldOnly(t: Table, scope: Scope, rows: seq<Grant>, tenant: string, roleKey: string, tenant': string, key': string)
    requires t.Valid() && AllFor(rows, tenant, roleKey)
    ensures forall p | p in Held(Insert(t, scope, rows), tenant', key') ::
              p in Held(t, tenant', key') || (tenant' == Home(scope, tenant) && key' == roleKey && p in Pairs(rows))
  {
    var r := Insert(t, scope, rows);
    Inserted(t, scope, rows);
    forall p | p in Held(r, tenant', key')
      ensures p in Held(t, tenant', key') || (tenant' == Home(scope, tenant) && key' == roleKey && p in Pairs(rows))
    {
      var id :| id in OfRole(r, tenant', key') && (r.live[id].kind, r.live[id].data) == p;
      if id in t.live {
        assert id in OfRole(t, tenant', key');
      } else {
        var g := rows[id - t.nextId];
        assert r.live[t.nextId + (id - t.nextId)] == Homed(scope, g);
        assert g in rows;
      }
    }
  }

  lemma WithoutHeld(t: Table, scope: Scope, roleKey: string, tenant': string, key': string)
    ensures Held(Without(t, OfKey(t, scope, roleKey)), tenant', key')
         == if key' == roleKey && InScope(scope, tenant') then {} else Held(t, tenant', key')
  {
    var r := Without(t, OfKey(t, scope, roleKey));
    if !(key' == roleKey && InScope(scope, tenant')) {
      assert OfRole(r, tenant', key') == OfRole(t, tenant', key');
    } else {
      assert OfRole(r, tenant', key') == {};
    }
  }

  /** What a request names: menus and permissions by their data. */
  predicate Wants(menus: seq<string>, perms: seq<string>, kind: string, data: string) {
    (kind == "menu" && data in menus) || (kind == "permission" && data in perms)
  }

  lemma RequestedExact(tenant: string, roleKey: string, menus: seq<string>, perms: seq<string>, kind: string, data: string)
    ensures (kind, data) in Pairs(Requested(tenant, roleKey, menus, perms)) <==> Wants(menus, perms, kind, data)
  {
    var rows := Requested(tenant, roleKey, menus, perms);
    if kind == "menu" && data in menus {
      var i :| 0 <= i < |menus| && menus[i] == data;
      assert rows[i] in rows;
    }
    if kind == "permission" && data in perms {
      var i :| 0 <= i < |perms| && perms[i] == data;
      assert rows[|menus| + i] in rows;
    }
    if g :| g in rows && (g.kind, g.data) == (kind, data) {
      var i :| 0 <= i < |rows| && rows[i] == g;
      assert i < |menus| ==> menus[i] == data;
      assert i >= |menus| ==> perms[i - |menus|] == data;
    }
  }

  lemma ReplacedPairs(t: Table, scope: Scope, roleKey: string, menus: seq<string>, perms: seq<string>, tenant: string,
                      tenant': string, key': string)
    requires t.Valid()
    ensures Held(Replace(t, scope, roleKey, menus, perms, tenant), tenant', key')
         == if key' == roleKey && tenant' == Home(scope, tenant) then Pairs(Requested(tenant, roleKey, menus, perms))
            else if key' == roleKey && scope.None? then {}
            else Held(t, tenant', key')
  {
    WithoutHeld(t, scope, roleKey, tenant', key');
    InsertHeld(Without(t, OfKey(t, scope, roleKey)), scope, Requested(tenant, roleKey, menus, perms), tenant, roleKey,
               tenant', key');
  }

  /** A replacement leaves the role holding exactly the menus and permissions named, in the
      tenant the rows are created in. Roles of other keys keep what they hold; roles of the same
      key in other tenants keep it exactly when the statement is scoped (or they held nothing). */
  lemma ReplaceHeld(t: Table, scope: Scope, roleKey: string, menus: seq<string>, perms: seq<string>, tenant: string,
                    tenant': string, key': string, kind: string, data: string)
    requires t.Valid()
    ensures var home := if scope.Some? then scope.value else if tenant == "" then DEFAULT_TENANT else tenant;
            (kind, data) in Held(Replace(t, scope, roleKey, menus, perms, tenant), tenant', key') <==>
              if key' == roleKey && tenant' == home then Wants(menus, perms, kind, data)
              else !(key' == roleKey && scope == None) && (kind, data) in Held(t, tenant', key')
  {
    ReplacedPairs(t, scope, roleKey, menus, perms, tenant, tenant', key');
    RequestedExact(tenant, roleKey, menus, perms, kind, data);
  }

  /** A top-up adds exactly what was named and its query did not find, where its rows are created,
      and touches no other role. */
  lemma GrantMissingHeld(t: Table, scope: Scope, roleKey: string, tenant: string, menus: seq<string>, perms: seq<string>,
                         tenant': string, key': string, kind: string, data: string)
    requires t.Valid()
    ensures var home := if scope.Some? then scope.value else if tenant == "" then DEFAULT_TENANT else tenant;
            var seen := scope == None || scope.value == tenant;
            (kind, data) in Held(GrantMissing(t, scope, roleKey, tenant, menus, perms), tenant', key') <==>
              || (kind, data) in Held(t, tenant', key')
              || (key' == roleKey && tenant' == home && Wants(menus, perms, kind, data)
                  && !(seen && (kind, data) in Held(t, tenant, roleKey)))
  {
    ToppedUp(t, scope, roleKey, tenant, menus, perms, tenant', key');
    RequestedExact(tenant, roleKey, menus, perms, kind, data);
  }

  /** Done again it writes nothing exactly when the rows are created where the query looks, or
      everything named had been found the first time. */
  lemma TopUpAgainExact(t: Table, scope: Scope, roleKey: string, tenant: string, menus: seq<string>, perms: seq<string>)
    requires t.Valid()
    ensures var home := if scope.Some? then scope.value else if tenant == "" then DEFAULT_TENANT else tenant;
            var seen := scope == None || scope.value == tenant;
            var r := GrantMissing(t, scope, roleKey, tenant, menus, perms);
            && r.Valid()
            && (GrantMissing(r, scope, roleKey, tenant, menus, perms) == r <==>
                  || home == tenant
                  || forall kind, data | Wants(menus, perms, kind, data) :: seen && (kind, data) in Held(t, tenant, roleKey))
  {
    var rows := Requested(tenant, roleKey, menus, perms);
    var r := GrantMissing(t, scope, roleKey, tenant, menus, perms);
    ToppedUp(t, scope, roleKey, tenant, menus, perms, tenant, roleKey);
    WritesNothing(r, scope, rows, Reached(r, scope, tenant, roleKey));
    WantsPairs(tenant, roleKey, menus, perms, Reached(t, scope, tenant, roleKey));
  }

  lemma WantsPairs(tenant: string, roleKey: string, menus: seq<string>, perms: seq<string>, held: set<(string, string)>)
    ensures Pairs(Requested(tenant, roleKey, menus, perms)) <= held
       <==> forall kind, data | Wants(menus, perms, kind, data) :: (kind, data) in held
  {
    forall kind, data
      ensures (kind, data) in Pairs(Requested(tenant, roleKey, menus, perms)) <==> Wants(menus, perms, kind, data)
    {
      RequestedExact(tenant, roleKey, menus, perms, kind, data);
    }
  }

  lemma ToppedUp(t: Table, scope: Scope, roleKey: string, tenant: string, menus: seq<string>, perms: seq<string>,
                 tenant': string, key': string)
    requires t.Valid()
    ensures var r := GrantMissing(t, scope, roleKey, tenant, menus, perms);
            && r.Valid()
            && Held(r, tenant', key')
               == Held(t, tenant', key') + (if tenant' == Home(scope, tenant) && key' == roleKey
                                            then Pairs(Requested(tenant, roleKey, menus, perms)) - Reached(t, scope, tenant, roleKey)
                                            else {})
  {
    var rows, found := Requested(tenant, roleKey, menus, perms), Reached(t, scope, tenant, roleKey);
    Inserted(t, scope, MissingOf(rows, found));
    MissingPairs(rows, found);
    InsertHeld(t, scope, MissingOf(rows, found), tenant, roleKey, tenant', key');
  }

  /** A diff writes nothing exactly when every row was found. */
  lemma WritesNothing(t: Table, scope: Scope, rows: seq<Grant>, found: set<(string, string)>)
    ensures Insert(t, scope, MissingOf(rows, found)) == t <==> Pairs(rows) <= found
  {
    MissingPairs(rows, found);
    if Pairs(rows) <= found {
      RowsHeld(rows, found);
      NothingMissing(rows, found);
      InsertNothing(t, scope);
    } else {
      var p :| p in Pairs(rows) && p !in found;
      assert p in Pairs(MissingOf(rows, found));
    }
  }

  lemma InsertNothing(t: Table, scope: Scope)
    ensures Insert(t, scope, []) == t
  {
  }

  lemma MissingPairs(rows: seq<Grant>, held: set<(string, string)>)
    ensures Pairs(MissingOf(rows, held)) == Pairs(rows) - held
  {
    var missing := MissingOf(rows, held);
    forall p | p in Pairs(rows) - held ensures p in Pairs(missing) {
      var g :| g in rows && (g.kind, g.data) == p;
      assert g in missing;
    }
  }

  lemma RowsHeld(rows: seq<Grant>, held: set<(string, string)>)
    requires Pairs(rows) <= held
    ensures forall g | g in rows :: (g.kind, g.data) in held
  {
    assert forall g | g in rows :: (g.kind, g.data) in Pairs(rows);
  }

  lemma {:induction false} NothingMissing(rows: seq<Grant>, held: set<(string, string)>)
    requires forall g | g in rows :: (g.kind, g.data) in held
    ensures MissingOf(rows, held) == []
    decreases |rows|
  {
    if rows != [] {
      NothingMissing(rows[1..], held);
    }
  }
}
