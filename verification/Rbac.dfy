/** Roles, the users and grants that name them by key, and the cascades of
    `admin/models/role.go` that keep the names pointing at live roles. */
module Rbac {
  import opened Grants
  import opened Wrappers

  datatype Role = Role(tenant: string, key: string)

  datatype User = User(tenant: string, roleKey: string)

  /** Live rows by primary key. */
  datatype Db = Db(roles: map<nat, Role>, users: map<nat, User>, grants: Table, nextId: nat)

  predicate Names(r: Role, tenant: string, key: string) { r.tenant == tenant && r.key == key }

  predicate RoleExists(db: Db, tenant: string, key: string) {
    exists r | r in db.roles :: Names(db.roles[r], tenant, key)
  }

  /** Keys are unique per tenant, and neither key nor tenant is empty. */
  ghost predicate RolesOk(db: Db) {
    && (forall r | r in db.roles :: db.roles[r].tenant != "" && db.roles[r].key != "" && r < db.nextId)
    && forall r, q | r in db.roles && q in db.roles && r != q :: db.roles[r] != db.roles[q]
  }

  ghost predicate GrantsOk(db: Db) {
    db.grants.Valid() &&
    forall g | g in db.grants.live :: RoleExists(db, db.grants.live[g].tenant, db.grants.live[g].roleKey)
  }

  ghost predicate UsersOk(db: Db) {
    forall u | u in db.users && db.users[u].roleKey != "" :: RoleExists(db, db.users[u].tenant, db.users[u].roleKey)
  }

  /** Every grant and every user with a role names a live role of its own tenant. */
  ghost predicate Integral(db: Db) { RolesOk(db) && GrantsOk(db) && UsersOk(db) }

  // ----- cascades -----

  function RepointUsers(users: map<nat, User>, tenant: string, from: string, to: string): map<nat, User> {
    map u | u in users :: if users[u] == User(tenant, from) then User(tenant, to) else users[u]
  }

  /** BeforeUpdate: `newKey` is the key the statement sets, "" if none; `deleting` says that
      it sets deleted_at. A row of an empty tenant is left alone. */
  function BeforeUpdate(db: Db, id: nat, newKey: string, deleting: bool): Db
    requires id in db.roles
  {
    var row := db.roles[id];
    if (newKey == "" && !deleting) || row.tenant == "" then db
    else
      var renamed :=
        if newKey != "" && newKey != row.key then
          db.(grants := Repoint(db.grants, row.tenant, row.key, newKey),
              users := RepointUsers(db.users, row.tenant, row.key, newKey))
        else db;
      if deleting then
        renamed.(grants := Without(renamed.grants, OfRole(renamed.grants, row.tenant, row.key)),
                 users := RepointUsers(renamed.users, row.tenant, row.key, ""))
      else renamed
  }

  /** The hook, then the statement itself. */
  function Updated(db: Db, id: nat, newKey: string, deleting: bool): Db
    requires id in db.roles
  {
    var hooked := BeforeUpdate(db, id, newKey, deleting);
    hooked.(roles := if deleting then db.roles - {id}
                     else if newKey != "" then db.roles[id := db.roles[id].(key := newKey)]
                     else db.roles)
  }

  /** A hard delete, then AfterDelete, which takes key and tenant from the instance the
      statement was given: the row as loaded, or a blank one when only the id was set. */
  function Deleted(db: Db, id: nat, instance: Role): Db {
    var gone := db.(roles := db.roles - {id});
    if instance.tenant == "" then gone
    else
      gone.(users := RepointUsers(db.users, instance.tenant, instance.key, ""),
            grants := Without(db.grants, OfRole(db.grants, instance.tenant, instance.key)))
  }

  /** What a hard delete does to every row: the users named by the instance keep their tenant and
      lose their key, its grants go, and no other row of any table changes. */
  lemma DeletedRows(db: Db, id: nat, instance: Role)
    ensures var d := Deleted(db, id, instance);
            && d.roles == db.roles - {id} && d.nextId == db.nextId && d.grants.nextId == db.grants.nextId
            && d.users.Keys == db.users.Keys
            && (forall u | u in db.users ::
                  var named := instance.tenant != "" && db.users[u].tenant == instance.tenant && db.users[u].roleKey == instance.key;
                  d.users[u].tenant == db.users[u].tenant && d.users[u].roleKey == if named then "" else db.users[u].roleKey)
            && (forall g :: g in d.grants.live <==>
                  g in db.grants.live && !(instance.tenant != "" && db.grants.live[g].tenant == instance.tenant
                                           && db.grants.live[g].roleKey == instance.key))
            && forall g | g in d.grants.live :: d.grants.live[g] == db.grants.live[g]
  {
  }

  /** What an update does to every row. References to a role of a non-empty tenant follow a new
      key; a soft delete that sets none detaches the users and drops the grants. */
  lemma UpdatedRows(db: Db, id: nat, newKey: string, deleting: bool)
    requires id in db.roles
    ensures var d, row := Updated(db, id, newKey, deleting), db.roles[id];
            var moves := row.tenant != "" && newKey != "" && newKey != row.key;
            var drops := row.tenant != "" && deleting && !moves;
            && (forall i :: i in d.roles <==> i in db.roles && !(deleting && i == id))
            && (forall i | i in d.roles && i != id :: d.roles[i] == db.roles[i])
            && (!deleting ==> d.roles[id].tenant == row.tenant && d.roles[id].key == if newKey != "" then newKey else row.key)
            && d.nextId == db.nextId && d.grants.nextId == db.grants.nextId && d.users.Keys == db.users.Keys
            && (forall u | u in db.users ::
                  var named := db.users[u].tenant == row.tenant && db.users[u].roleKey == row.key;
                  && d.users[u].tenant == db.users[u].tenant
                  && d.users[u].roleKey == if named && moves then newKey else if named && drops then "" else db.users[u].roleKey)
            && (forall g :: g in d.grants.live <==>
                  g in db.grants.live && !(drops && db.grants.live[g].tenant == row.tenant && db.grants.live[g].roleKey == row.key))
            && forall g | g in d.grants.live ::
                 var named := db.grants.live[g].tenant == row.tenant && db.grants.live[g].roleKey == row.key;
                 && d.grants.live[g].tenant == db.grants.live[g].tenant && d.grants.live[g].kind == db.grants.live[g].kind
                 && d.grants.live[g].data == db.grants.live[g].data
                 && d.grants.live[g].roleKey == if named && moves then newKey else db.grants.live[g].roleKey
  {
  }

  /** The unique rule on Key, within a tenant. */
  predicate KeyFree(db: Db, id: nat, newKey: string)
    requires id in db.roles
  {
    forall r | r in db.roles && r != id :: db.roles[r] != Role(db.roles[id].tenant, newKey)
  }

  /** Some grant or user names the role. */
  predicate Referenced(db: Db, id: nat)
    requires id in db.roles
  {
    var row := db.roles[id];
    OfRole(db.grants, row.tenant, row.key) != {} || exists u | u in db.users :: db.users[u] == User(row.tenant, row.key)
  }

  lemma RenameIntegral(db: Db, id: nat, newKey: string)
    requires Integral(db) && id in db.roles && newKey != "" && KeyFree(db, id, newKey)
    ensures Integral(Updated(db, id, newKey, false))
  {
    var db', row := Updated(db, id, newKey, false), db.roles[id];
    assert Names(db'.roles[id], row.tenant, newKey);
    RolesAfterRename(db, id, newKey);
    forall g | g in db'.grants.live ensures RoleExists(db', db'.grants.live[g].tenant, db'.grants.live[g].roleKey) {
      assert RoleExists(db, db.grants.live[g].tenant, db.grants.live[g].roleKey);
    }
    forall u | u in db'.users && db'.users[u].roleKey != ""
      ensures RoleExists(db', db'.users[u].tenant, db'.users[u].roleKey)
    {
      assert db.users[u].roleKey != "" && RoleExists(db, db.users[u].tenant, db.users[u].roleKey);
    }
  }

  /** A rename moves one (tenant, key) name and leaves the others standing. */
  lemma RolesAfterRename(db: Db, id: nat, newKey: string)
    requires RolesOk(db) && id in db.roles && newKey != "" && KeyFree(db, id, newKey)
    ensures var db' := Updated(db, id, newKey, false);
            && RolesOk(db')
            && forall tenant, key | RoleExists(db, tenant, key) && !Names(db.roles[id], tenant, key) ::
                 RoleExists(db', tenant, key)
  {
    var db' := Updated(db, id, newKey, false);
    forall tenant, key | RoleExists(db, tenant, key) && !Names(db.roles[id], tenant, key)
      ensures RoleExists(db', tenant, key)
    {
      var r :| r in db.roles && Names(db.roles[r], tenant, key);
      assert Names(db'.roles[r], tenant, key);
    }
  }

  /** Rows that no longer name role `id` keep a live role when it goes. */
  lemma RolesAfterRemoval(db: Db, id: nat, tenant: string, key: string)
    requires RolesOk(db) && id in db.roles && RoleExists(db, tenant, key) && !Names(db.roles[id], tenant, key)
    ensures exists r | r in db.roles - {id} :: Names((db.roles - {id})[r], tenant, key)
  {
    var r :| r in db.roles && Names(db.roles[r], tenant, key);
    assert r in db.roles - {id} && Names((db.roles - {id})[r], tenant, key);
  }

  lemma DeleteIntegral(db: Db, id: nat)
    requires Integral(db) && id in db.roles
    ensures Integral(Deleted(db, id, db.roles[id])) && Updated(db, id, "", true) == Deleted(db, id, db.roles[id])
  {
    var db', row := Deleted(db, id, db.roles[id]), db.roles[id];
    forall g | g in db'.grants.live ensures RoleExists(db', db'.grants.live[g].tenant, db'.grants.live[g].roleKey) {
      assert g !in OfRole(db.grants, row.tenant, row.key);
      RolesAfterRemoval(db, id, db.grants.live[g].tenant, db.grants.live[g].roleKey);
    }
    forall u | u in db'.users && db'.users[u].roleKey != ""
      ensures RoleExists(db', db'.users[u].tenant, db'.users[u].roleKey)
    {
      RolesAfterRemoval(db, id, db.users[u].tenant, db.users[u].roleKey);
    }
  }

  /** A hard delete keeps integrity exactly when it is given the row as loaded, or nothing
      named the role. */
  lemma DeleteExact(db: Db, id: nat, instance: Role)
    requires Integral(db) && id in db.roles
    ensures Integral(Deleted(db, id, instance)) <==> instance == db.roles[id] || !Referenced(db, id)
  {
    var db', row := Deleted(db, id, instance), db.roles[id];
    if instance == row {
      DeleteIntegral(db, id);
    } else if Referenced(db, id) {
      assert !RoleExists(db', row.tenant, row.key);
      if u :| u in db.users && db.users[u] == User(row.tenant, row.key) {
        assert db'.users[u] == User(row.tenant, row.key);
      } else {
        var g :| g in OfRole(db.grants, row.tenant, row.key);
        assert g in db'.grants.live && db'.grants.live[g] == db.grants.live[g];
      }
    } else {
      UnnamedGoes(db, id, instance);
    }
  }

  lemma UnnamedGoes(db: Db, id: nat, instance: Role)
    requires Integral(db) && id in db.roles && !Referenced(db, id)
    ensures Integral(Deleted(db, id, instance))
  {
    var db', row := Deleted(db, id, instance), db.roles[id];
    forall g | g in db'.grants.live ensures RoleExists(db', db'.grants.live[g].tenant, db'.grants.live[g].roleKey) {
      assert g !in OfRole(db.grants, row.tenant, row.key);
      RolesAfterRemoval(db, id, db.grants.live[g].tenant, db.grants.live[g].roleKey);
    }
    forall u | u in db'.users && db'.users[u].roleKey != ""
      ensures RoleExists(db', db'.users[u].tenant, db'.users[u].roleKey)
    {
      assert db'.users[u] == db.users[u] != User(row.tenant, row.key);
      RolesAfterRemoval(db, id, db.users[u].tenant, db.users[u].roleKey);
    }
  }

  /** One update that both renames and soft-deletes purges the references of the old key after
      it has moved them to the new one: it keeps integrity exactly when there were none. */
  lemma RenamingDeleteExact(db: Db, id: nat, newKey: string)
    requires Integral(db) && id in db.roles && newKey != "" && newKey != db.roles[id].key && KeyFree(db, id, newKey)
    ensures Integral(Updated(db, id, newKey, true)) <==> !Referenced(db, id)
  {
    var db', row := Updated(db, id, newKey, true), db.roles[id];
    assert !RoleExists(db', row.tenant, newKey);
    if Referenced(db, id) {
      if u :| u in db.users && db.users[u] == User(row.tenant, row.key) {
        assert db'.users[u] == User(row.tenant, newKey);
      } else {
        var g :| g in OfRole(db.grants, row.tenant, row.key);
        assert Repoint(db.grants, row.tenant, row.key, newKey).live[g].roleKey == newKey;
        assert g in db'.grants.live && db'.grants.live[g].tenant == row.tenant && db'.grants.live[g].roleKey == newKey;
      }
    } else {
      assert OfRole(db.grants, row.tenant, row.key) == {};
      assert db'.grants.live == db.grants.live;
      assert db'.users == db.users;
      assert db' == Deleted(db, id, row);
      DeleteIntegral(db, id);
    }
  }

  /** A rename keeps who holds which role and what each role is granted. */
  ghost predicate HasRole(db: Db, u: nat, r: nat) {
    u in db.users && r in db.roles && db.users[u] == User(db.roles[r].tenant, db.roles[r].key)
  }

  ghost function HeldBy(db: Db, r: nat): set<(string, string)>
    requires r in db.roles
  {
    Held(db.grants, db.roles[r].tenant, db.roles[r].key)
  }

  lemma RenameKeepsAssignments(db: Db, id: nat, newKey: string)
    requires Integral(db) && id in db.roles && newKey != "" && KeyFree(db, id, newKey)
    ensures var db' := Updated(db, id, newKey, false);
            && db'.users.Keys == db.users.Keys && db'.roles.Keys == db.roles.Keys
            && (forall u, r :: HasRole(db', u, r) <==> HasRole(db, u, r))
            && forall r | r in db.roles :: HeldBy(db', r) == HeldBy(db, r)
  {
    var db', row := Updated(db, id, newKey, false), db.roles[id];
    if newKey != row.key { NewKeyUnnamed(db, id, newKey); }
    forall r | r in db.roles ensures HeldBy(db', r) == HeldBy(db, r) {
      assert OfRole(db'.grants, db'.roles[r].tenant, db'.roles[r].key)
          == OfRole(db.grants, db.roles[r].tenant, db.roles[r].key);
      assert forall g | g in db.grants.live ::
          db'.grants.live[g].kind == db.grants.live[g].kind && db'.grants.live[g].data == db.grants.live[g].data;
    }
  }

  /** By integrity nothing names the new key yet, unless it is the old one. */
  lemma NewKeyUnnamed(db: Db, id: nat, newKey: string)
    requires Integral(db) && id in db.roles && newKey != "" && newKey != db.roles[id].key && KeyFree(db, id, newKey)
    ensures forall g | g in db.grants.live ::
              !(db.grants.live[g].tenant == db.roles[id].tenant && db.grants.live[g].roleKey == newKey)
    ensures forall u | u in db.users :: db.users[u] != User(db.roles[id].tenant, newKey)
  {
    assert !RoleExists(db, db.roles[id].tenant, newKey);
  }

  // ----- grants written for a live role -----

  /** A write of rows for one live role keeps integrity, whatever it deleted before. */
  lemma RowsKeepIntegral(db: Db, gone: set<nat>, scope: Scope, rows: seq<Grant>, id: nat)
    requires Integral(db) && id in db.roles
    requires InScope(scope, db.roles[id].tenant) && AllFor(rows, db.roles[id].tenant, db.roles[id].key)
    ensures Integral(db.(grants := Insert(Without(db.grants, gone), scope, rows)))
  {
    var rest := Without(db.grants, gone);
    var db' := db.(grants := Insert(rest, scope, rows));
    Inserted(rest, scope, rows);
    forall g | g in db'.grants.live ensures RoleExists(db', db'.grants.live[g].tenant, db'.grants.live[g].roleKey) {
      if g in rest.live {
        assert RoleExists(db, db.grants.live[g].tenant, db.grants.live[g].roleKey);
      } else {
        var row := rows[g - rest.nextId];
        assert db'.grants.live[rest.nextId + (g - rest.nextId)] == Homed(scope, row);
        assert row in rows && Names(db'.roles[id], row.tenant, row.roleKey);
      }
    }
    assert forall tenant, key :: RoleExists(db', tenant, key) <==> RoleExists(db, tenant, key);
  }

  // ----- whole runs -----

  /** Role and user ids are fresh; `scope` is how the statement was confined; a hard delete is
      given the row as loaded. */
  datatype Op =
    | CreateRole(tenant: string, key: string)
    | Rename(id: nat, newKey: string)
    | SoftDelete(id: nat)
    | HardDelete(id: nat)
    | ReplaceGrants(id: nat, scope: Scope, menus: seq<string>, perms: seq<string>)
    | TopUpGrants(id: nat, scope: Scope, menus: seq<string>, perms: seq<string>)
    | PutUser(id: nat, tenant: string, roleKey: string)
    | DropUser(id: nat)

  /** A request the validation rules or the role lookup turn down changes nothing. */
  function Apply(db: Db, op: Op): Db {
    match op
    case CreateRole(tenant, key) =>
      if key == "" || RoleExists(db, Home(None, tenant), key) then db
      else db.(roles := db.roles[db.nextId := Role(Home(None, tenant), key)], nextId := db.nextId + 1)
    case Rename(id, newKey) =>
      if id !in db.roles || newKey == "" || !KeyFree(db, id, newKey) then db else Updated(db, id, newKey, false)
    case SoftDelete(id) => if id in db.roles then Updated(db, id, "", true) else db
    case HardDelete(id) => if id in db.roles then Deleted(db, id, db.roles[id]) else db
    case ReplaceGrants(id, scope, menus, perms) =>
      if id !in db.roles || !InScope(scope, db.roles[id].tenant) then db
      else db.(grants := Replace(db.grants, scope, db.roles[id].key, menus, perms, db.roles[id].tenant))
    case TopUpGrants(id, scope, menus, perms) =>
      if id !in db.roles || !InScope(scope, db.roles[id].tenant) then db
      else db.(grants := GrantMissing(db.grants, scope, db.roles[id].key, db.roles[id].tenant, menus, perms))
    case PutUser(id, tenant, roleKey) =>
      if roleKey != "" && !RoleExists(db, Home(None, tenant), roleKey) then db
      else db.(users := db.users[id := User(Home(None, tenant), roleKey)])
    case DropUser(id) => db.(users := db.users - {id})
  }

  function ApplyAll(db: Db, ops: seq<Op>): Db
    decreases |ops|
  {
    if ops == [] then db else ApplyAll(Apply(db, ops[0]), ops[1..])
  }

  lemma CreateIntegral(db: Db, tenant: string, key: string)
    requires Integral(db)
    ensures Integral(Apply(db, CreateRole(tenant, key)))
  {
    var db' := Apply(db, CreateRole(tenant, key));
    if db' != db {
      assert forall r | r in db.roles :: !Names(db.roles[r], Home(None, tenant), key);
      forall t, k | RoleExists(db, t, k) ensures RoleExists(db', t, k) {
        var r :| r in db.roles && Names(db.roles[r], t, k);
        assert Names(db'.roles[r], t, k);
      }
    }
  }

  lemma GrantsIntegral(db: Db, op: Op)
    requires Integral(db) && (op.ReplaceGrants? || op.TopUpGrants?)
    ensures Integral(Apply(db, op))
  {
    if op.id in db.roles && InScope(op.scope, db.roles[op.id].tenant) {
      var row := db.roles[op.id];
      var rows := Requested(row.tenant, row.key, op.menus, op.perms);
      if op.ReplaceGrants? {
        RowsKeepIntegral(db, OfKey(db.grants, op.scope, row.key), op.scope, rows, op.id);
      } else {
        assert Without(db.grants, {}) == db.grants;
        RowsKeepIntegral(db, {}, op.scope, MissingOf(rows, Reached(db.grants, op.scope, row.tenant, row.key)), op.id);
      }
    }
  }

  lemma UsersIntegral(db: Db, op: Op)
    requires Integral(db) && (op.PutUser? || op.DropUser?)
    ensures Integral(Apply(db, op))
  {
    var db' := Apply(db, op);
    assert forall t, k :: RoleExists(db', t, k) <==> RoleExists(db, t, k);
  }

  lemma ApplyIntegral(db: Db, op: Op)
    requires Integral(db)
    ensures Integral(Apply(db, op))
  {
    match op
    case CreateRole(tenant, key) => CreateIntegral(db, tenant, key);
    case Rename(id, newKey) =>
      if id in db.roles && newKey != "" && KeyFree(db, id, newKey) { RenameIntegral(db, id, newKey); }
    case SoftDelete(id) => if id in db.roles { DeleteIntegral(db, id); }
    case HardDelete(id) => if id in db.roles { DeleteIntegral(db, id); }
    case ReplaceGrants(_, _, _, _) => GrantsIntegral(db, op);
    case TopUpGrants(_, _, _, _) => GrantsIntegral(db, op);
    case PutUser(_, _, _) => UsersIntegral(db, op);
    case DropUser(_) => UsersIntegral(db, op);
  }

  /** No run of role, grant and user operations leaves a dangling role key behind. */
  lemma {:induction false} RunsIntegral(db: Db, ops: seq<Op>)
    requires Integral(db)
    ensures Integral(ApplyAll(db, ops))
    decreases |ops|
  {
    if ops != [] {
      ApplyIntegral(db, ops[0]);
      RunsIntegral(Apply(db, ops[0]), ops[1..]);
    }
  }

  /** A role created under the key of a deleted one adopts no user and no grant. */
  lemma RecreatedRoleIsBare(db: Db, id: nat, fresh': Db)
    requires Integral(db) && id in db.roles
    requires fresh' == Apply(Deleted(db, id, db.roles[id]), CreateRole(db.roles[id].tenant, db.roles[id].key))
    ensures db.nextId in fresh'.roles && fresh'.roles[db.nextId] == db.roles[id]
    ensures HeldBy(fresh', db.nextId) == {} && forall u :: !HasRole(fresh', u, db.nextId)
  {
    var gone, row := Deleted(db, id, db.roles[id]), db.roles[id];
    assert !RoleExists(gone, row.tenant, row.key);
    assert OfRole(gone.grants, row.tenant, row.key) == {};
  }

  // ----- the tables as the hooks and methods change them -----

  class RoleTables {
    var roles: map<nat, Role>
    var users: map<nat, User>
    var grants: Table
    var nextId: nat

    function Contents(): Db
      reads this
    {
      Db(roles, users, grants, nextId)
    }

    constructor (db: Db)
      ensures Contents() == db
    {
      roles, users, grants, nextId := db.roles, db.users, db.grants, db.nextId;
    }

    /** False is the error of a missing row. */
    method Update(id: nat, newKey: string, deleting: bool) returns (ok: bool)
      modifies this
      ensures ok <==> id in old(roles)
      ensures Contents() == if ok then Updated(old(Contents()), id, newKey, deleting) else old(Contents())
    {
      if id !in roles {
        return false;
      }
      var row := roles[id];
      if (newKey != "" || deleting) && row.tenant != "" {
        if newKey != "" && newKey != row.key {
          grants := Repoint(grants, row.tenant, row.key, newKey);
          users := RepointUsers(users, row.tenant, row.key, newKey);
        }
        if deleting {
          grants := Without(grants, OfRole(grants, row.tenant, row.key));
          users := RepointUsers(users, row.tenant, row.key, "");
        }
      }
      if deleting {
        roles := roles - {id};
      } else if newKey != "" {
        roles := roles[id := row.(key := newKey)];
      }
      return true;
    }

    /** `instance` is the value the statement was given; the hook reads only that. */
    method Delete(id: nat, instance: Role)
      modifies this
      ensures Contents() == Deleted(old(Contents()), id, instance)
    {
      roles := roles - {id};
      if instance.tenant != "" {
        users := RepointUsers(users, instance.tenant, instance.key, "");
        grants := Without(grants, OfRole(grants, instance.tenant, instance.key));
      }
    }

    method ReplacePermissions(scope: Scope, roleKey: string, menus: seq<string>, perms: seq<string>, tenant: string)
      modifies this
      ensures Contents() == old(Contents()).(grants := Replace(old(grants), scope, roleKey, menus, perms, tenant))
      ensures old(grants).Valid() ==>
                var home := if scope.Some? then scope.value else if tenant == "" then DEFAULT_TENANT else tenant;
                forall kind, data :: (kind, data) in Held(grants, home, roleKey) <==> Wants(menus, perms, kind, data)
    {
      ReplaceGives(grants, scope, roleKey, menus, perms, tenant);
      grants := Without(grants, OfKey(grants, scope, roleKey));
      if |menus| + |perms| == 0 {
        assert Requested(tenant, roleKey, menus, perms) == [];
        return;
      }
      var rows: seq<Grant> := [];
      for i := 0 to |menus|
        invariant rows == RowsFor(tenant, roleKey, MENU, menus[..i])
      {
        rows := rows + [Grant(tenant, roleKey, MENU, menus[i])];
      }
      assert menus[..|menus|] == menus;
      for i := 0 to |perms|
        invariant rows == RowsFor(tenant, roleKey, MENU, menus) + RowsFor(tenant, roleKey, PERMISSION, perms[..i])
      {
        rows := rows + [Grant(tenant, roleKey, PERMISSION, perms[i])];
      }
      assert perms[..|perms|] == perms;
      grants := Insert(grants, scope, rows);
    }

    method GrantMissingPermissions(scope: Scope, roleKey: string, tenant: string, menus: seq<string>, perms: seq<string>)
      modifies this
      ensures Contents() == old(Contents()).(grants := GrantMissing(old(grants), scope, roleKey, tenant, menus, perms))
      ensures old(grants).Valid() && tenant != "" && (scope == None || scope.value == tenant) ==>
                forall kind, data :: (kind, data) in Held(grants, tenant, roleKey) <==>
                  (kind, data) in Held(old(grants), tenant, roleKey) || Wants(menus, perms, kind, data)
    {
      GrantMissingGives(grants, scope, roleKey, tenant, menus, perms);
      ghost var held := Reached(grants, scope, tenant, roleKey);
      MissingJoins(RowsFor(tenant, roleKey, MENU, menus), RowsFor(tenant, roleKey, PERMISSION, perms), held);
      if |menus| == 0 && |perms| == 0 {
        return;
      }
      var menuHave, permHave := HaveSets(scope, tenant, roleKey);
      var rows := MissingRows(tenant, roleKey, MENU, menus, menuHave, held);
      var permRows := MissingRows(tenant, roleKey, PERMISSION, perms, permHave, held);
      rows := rows + permRows;
      if |rows| == 0 {
        return;
      }
      grants := Insert(grants, scope, rows);
    }

    /** Each of the two loops of the diff. */
    method MissingRows(tenant: string, roleKey: string, kind: string, datas: seq<string>, have: set<string>,
                       ghost held: set<(string, string)>) returns (rows: seq<Grant>)
      requires forall d :: d in have <==> (kind, d) in held
      ensures rows == MissingOf(RowsFor(tenant, roleKey, kind, datas), held)
    {
      rows := [];
      for i := 0 to |datas|
        invariant rows == MissingOf(RowsFor(tenant, roleKey, kind, datas[..i]), held)
      {
        RowsForAppend(tenant, roleKey, kind, datas, i);
        MissingAppend(RowsFor(tenant, roleKey, kind, datas[..i]), Grant(tenant, roleKey, kind, datas[i]), held);
        if datas[i] in have {
          continue;
        }
        rows := rows + [Grant(tenant, roleKey, kind, datas[i])];
      }
      assert datas[..|datas|] == datas;
    }

    /** The two sets the diff is made against; rows of other types are ignored. */
    method HaveSets(scope: Scope, tenant: string, roleKey: string) returns (menuHave: set<string>, permHave: set<string>)
      ensures forall d :: d in menuHave <==> (MENU, d) in Reached(grants, scope, tenant, roleKey)
      ensures forall d :: d in permHave <==> (PERMISSION, d) in Reached(grants, scope, tenant, roleKey)
    {
      var existing := if InScope(scope, tenant) then OfRole(grants, tenant, roleKey) else {};
      menuHave, permHave := {}, {};
      var todo := existing;
      while todo != {}
        invariant todo <= existing
        invariant forall d :: d in menuHave <==> exists g :: g in existing - todo && grants.live[g].kind == MENU && grants.live[g].data == d
        invariant forall d :: d in permHave <==> exists g :: g in existing - todo && grants.live[g].kind == PERMISSION && grants.live[g].data == d
        decreases todo
      {
        var g :| g in todo;
        var rp := grants.live[g];
        todo := todo - {g};
        assert existing - todo == existing - todo - {g} + {g};
        if rp.kind == MENU {
          menuHave := menuHave + {rp.data};
        } else if rp.kind == PERMISSION {
          permHave := permHave + {rp.data};
        }
      }
    }
  }

  lemma ReplaceGives(t: Table, scope: Scope, roleKey: string, menus: seq<string>, perms: seq<string>, tenant: string)
    ensures t.Valid() ==>
              var home := if scope.Some? then scope.value else if tenant == "" then DEFAULT_TENANT else tenant;
              forall kind, data :: (kind, data) in Held(Replace(t, scope, roleKey, menus, perms, tenant), home, roleKey)
                <==> Wants(menus, perms, kind, data)
  {
    if t.Valid() {
      var home := if scope.Some? then scope.value else if tenant == "" then DEFAULT_TENANT else tenant;
      forall kind, data ensures (kind, data) in Held(Replace(t, scope, roleKey, menus, perms, tenant), home, roleKey)
                                <==> Wants(menus, perms, kind, data) {
        ReplaceHeld(t, scope, roleKey, menus, perms, tenant, home, roleKey, kind, data);
      }
    }
  }

  lemma GrantMissingGives(t: Table, scope: Scope, roleKey: string, tenant: string, menus: seq<string>, perms: seq<string>)
    ensures t.Valid() && tenant != "" && (scope == None || scope.value == tenant) ==>
              forall kind, data :: (kind, data) in Held(GrantMissing(t, scope, roleKey, tenant, menus, perms), tenant, roleKey)
                <==> (kind, data) in Held(t, tenant, roleKey) || Wants(menus, perms, kind, data)
  {
    if t.Valid() && tenant != "" && (scope == None || scope.value == tenant) {
      forall kind, data ensures (kind, data) in Held(GrantMissing(t, scope, roleKey, tenant, menus, perms), tenant, roleKey)
                                <==> (kind, data) in Held(t, tenant, roleKey) || Wants(menus, perms, kind, data) {
        GrantMissingHeld(t, scope, roleKey, tenant, menus, perms, tenant, roleKey, kind, data);
      }
    }
  }

  lemma RowsForAppend(tenant: string, roleKey: string, kind: string, datas: seq<string>, i: nat)
    requires i < |datas|
    ensures RowsFor(tenant, roleKey, kind, datas[..i + 1])
         == RowsFor(tenant, roleKey, kind, datas[..i]) + [Grant(tenant, roleKey, kind, datas[i])]
  {
  }

  lemma {:induction false} MissingAppend(rows: seq<Grant>, row: Grant, held: set<(string, string)>)
    ensures MissingOf(rows + [row], held)
         == MissingOf(rows, held) + (if (row.kind, row.data) in held then [] else [row])
    decreases |rows|
  {
    if rows == [] {
      assert [] + [row] == [row] && [row][1..] == [];
    } else {
      assert (rows + [row])[1..] == rows[1..] + [row];
      MissingAppend(rows[1..], row, held);
    }
  }

  lemma {:induction false} MissingJoins(a: seq<Grant>, b: seq<Grant>, held: set<(string, string)>)
    ensures MissingOf(a + b, held) == MissingOf(a, held) + MissingOf(b, held)
    decreases |a|
  {
    if a == [] {
      assert [] + b == b;
    } else {
      assert (a + b)[1..] == a[1..] + b;
      MissingJoins(a[1..], b, held);
    }
  }
}
