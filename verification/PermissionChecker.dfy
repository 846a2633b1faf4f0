/** The decision of `admin/permission.go` over its two cached sets, and `MAX(updated_at)`, the
    marker of the catalog's cache. */
module PermissionChecker {
  import opened AllowList
  import opened DbCache
  import opened DbCacher
  import opened GrantMarker
  import opened Grants
  import opened Wrappers

  // ----- the catalog and its marker -----

  datatype PermRow = PermRow(api: bool, data: string, updatedAt: int)

  /** The live rows of the catalog. */
  type Catalog = seq<PermRow>

  /** MAX over no rows is NULL, read back as the empty string. Stamps are whole seconds. */
  datatype Stamp = NoRows | Newest(at: int)

  function CatalogMarker(c: Catalog): Stamp {
    if c == [] then NoRows
    else
      var m, last := CatalogMarker(c[..|c| - 1]), c[|c| - 1];
      if m.NoRows? || m.at < last.updatedAt then Newest(last.updatedAt) else m
  }

  ghost predicate Top(c: Catalog, i: nat) {
    i < |c| && forall j | 0 <= j < |c| :: c[j].updatedAt <= c[i].updatedAt
  }

  lemma {:induction false} MarkerIsTop(c: Catalog) returns (i: nat)
    ensures c == [] ==> CatalogMarker(c) == NoRows
    ensures c != [] ==> Top(c, i) && CatalogMarker(c) == Newest(c[i].updatedAt)
    decreases |c|
  {
    i := 0;
    if c != [] {
      var n := |c| - 1;
      i := MarkerIsTop(c[..n]);
      if n == 0 || c[i].updatedAt < c[n].updatedAt { i := n; }
    }
  }

  lemma TopIsMarker(c: Catalog, i: nat)
    requires Top(c, i)
    ensures CatalogMarker(c) == Newest(c[i].updatedAt)
  {
    var j := MarkerIsTop(c);
  }

  function ApiCodes(c: Catalog): set<string> { set r | r in c && r.api :: r.data }

  const CATALOG_KEY: string := "perm:catalog"

  function CatalogSource(): Source<Catalog, string, Stamp, set<string>> {
    Source((c: Catalog) => CatalogMarker(c), (c: Catalog, k: string) => ApiCodes(c), (k: string) => |k|, true, NoRows)
  }

  /** An insert or an edit in place, in a later second than every stamp in the table. */
  ghost predicate LaterWrite(c: Catalog, d: Catalog) {
    exists i: nat, row: PermRow :: PutLater(c, i, row, d)
  }

  ghost predicate PutLater(c: Catalog, i: nat, row: PermRow, d: Catalog) {
    && (forall x | x in c :: x.updatedAt < row.updatedAt)
    && i <= |c| && d == if i == |c| then c + [row] else c[i := row]
  }

  lemma LaterWriteSeen(c: Catalog, d: Catalog)
    requires LaterWrite(c, d)
    ensures CatalogMarker(d).Newest? && (CatalogMarker(c).Newest? ==> CatalogMarker(d).at > CatalogMarker(c).at)
  {
    var i: nat, row: PermRow :| PutLater(c, i, row, d);
    PutLaterSeen(c, i, row, d);
  }

  lemma PutLaterSeen(c: Catalog, i: nat, row: PermRow, d: Catalog)
    requires PutLater(c, i, row, d)
    ensures CatalogMarker(d) == Newest(row.updatedAt)
    ensures CatalogMarker(c).Newest? ==> row.updatedAt > CatalogMarker(c).at
  {
    PutLaterTops(c, i, row, d);
    TopIsMarker(d, i);
    var k := MarkerIsTop(c);
    if c != [] { assert c[k] in c; }
  }

  lemma PutLaterTops(c: Catalog, i: nat, row: PermRow, d: Catalog)
    requires PutLater(c, i, row, d)
    ensures Top(d, i) && d[i] == row
  {
    assert |d| == (if i == |c| then |c| + 1 else |c|) && d[i] == row;
    forall j | 0 <= j < |d| ensures d[j].updatedAt <= row.updatedAt {
      if j != i { assert d[j] == c[j] && c[j] in c; }
    }
  }

  ghost predicate LaterWrites(h: seq<Catalog>) {
    h != [] && forall i | 0 < i < |h| :: LaterWrite(h[i - 1], h[i])
  }

  lemma {:induction false} StampsGrow(h: seq<Catalog>, i: nat, j: nat)
    requires LaterWrites(h) && i < j < |h|
    ensures CatalogMarker(h[j]).Newest?
    ensures CatalogMarker(h[i]).Newest? ==> CatalogMarker(h[j]).at > CatalogMarker(h[i]).at
    decreases j
  {
    LaterWriteSeen(h[j - 1], h[j]);
    if i < j - 1 { StampsGrow(h, i, j - 1); }
  }

  /** Inserts and edits, each in a later second than the stamps it finds, make the marker a
      version: revalidated catalogs are current in every interleaving. */
  lemma LaterWritesVersion(h: seq<Catalog>)
    requires LaterWrites(h)
    ensures NeverReused(CatalogSource(), h) && MatchesAreCurrent(CatalogSource(), h)
  {
    var src := CatalogSource();
    forall i, j | 0 <= j < i < |h| && h[i] != h[i - 1] ensures src.marker(h[j]) != src.marker(h[i]) {
      StampsGrow(h, j, i);
    }
    RevalidationExact(src, h);
  }

  /** Across any single write, revalidation is right exactly when the stamp moved or no code did. */
  lemma CatalogWriteExact(c: Catalog, d: Catalog)
    ensures MatchesAreCurrent(CatalogSource(), [c, d]) <==> CatalogMarker(c) != CatalogMarker(d) || ApiCodes(c) == ApiCodes(d)
  {
    OneWriteExact(CatalogSource(), c, d);
    assert |CATALOG_KEY| <= MAX_CACHE_KEY_LEN;
    assert CatalogSource().load(c, CATALOG_KEY) == ApiCodes(c) && CatalogSource().load(d, CATALOG_KEY) == ApiCodes(d);
  }

  /** Dropping a row moves the marker only when the row is newer than all others, so most
      deletions from the catalog go unseen. */
  lemma DeletionSeenExactly(c: Catalog, i: nat)
    requires i < |c|
    ensures CatalogMarker(c[..i] + c[i + 1..]) != CatalogMarker(c)
       <==> forall j | 0 <= j < |c| && j != i :: c[j].updatedAt < c[i].updatedAt
  {
    var d := c[..i] + c[i + 1..];
    assert Dropped(c, i, d);
    if j: nat :| j < |c| && j != i && c[j].updatedAt >= c[i].updatedAt {
      OthersNewest(c, i, j, d);
    } else {
      RowNewest(c, i, d);
    }
  }

  ghost predicate Dropped(c: Catalog, i: nat, d: Catalog) {
    && i < |c| && |d| == |c| - 1
    && (forall l | 0 <= l < i :: d[l] == c[l]) && (forall l | i <= l < |d| :: d[l] == c[l + 1])
  }

  lemma OthersNewest(c: Catalog, i: nat, j: nat, d: Catalog)
    requires Dropped(c, i, d) && j < |c| && j != i && c[j].updatedAt >= c[i].updatedAt
    ensures CatalogMarker(d) == CatalogMarker(c)
  {
    var k := MarkerIsTop(c);
    var top := if k == i then j else k;
    var at := if top < i then top else top - 1;
    assert Top(c, top) && d[at] == c[top];
    TopDropped(c, i, top, d, at);
    TopIsMarker(d, at);
    TopIsMarker(c, top);
  }

  lemma TopDropped(c: Catalog, i: nat, top: nat, d: Catalog, at: nat)
    requires Dropped(c, i, d) && Top(c, top) && at < |d| && d[at] == c[top]
    ensures Top(d, at)
  {
    forall l | 0 <= l < |d| ensures d[l].updatedAt <= d[at].updatedAt {
      assert d[l] == c[if l < i then l else l + 1];
    }
  }

  lemma RowNewest(c: Catalog, i: nat, d: Catalog)
    requires Dropped(c, i, d) && forall j | 0 <= j < |c| && j != i :: c[j].updatedAt < c[i].updatedAt
    ensures CatalogMarker(d) != CatalogMarker(c)
  {
    TopIsMarker(c, i);
    var k := MarkerIsTop(d);
    if d != [] { assert d[k] == c[if k < i then k else k + 1]; }
  }

  // ----- the decision -----

  datatype Claims = Claims(tenant: string, role: string)

  datatype Request = Request(http: bool, verb: string, path: string, route: Option<string>)

  datatype Refusal = AccessDenied | PermissionDenied | Unavailable

  predicate EndsWith(s: string, tail: string) { |s| >= |tail| && s[|s| - |tail|..] == tail }

  predicate Infrastructure(path: string) {
    || path == "" || path in {"/health", "/ready", "/metrics", "/mcp"}
    || "/mcp/" <= path || EndsWith(path, "/openapi.json")
  }

  /** Routes outside the catalog: five of their own, and everything below /mcp/ or ending in
      the generated document's name. */
  ghost predicate Plumbing(route: string) {
    || route == "" || route == "/health" || route == "/ready" || route == "/metrics" || route == "/mcp"
    || (exists tail :: route == "/mcp/" + tail)
    || exists head :: route == head + "/openapi.json"
  }

  lemma InfrastructureExact(route: string)
    ensures Infrastructure(route) <==> Plumbing(route)
  {
    var document := "/openapi.json";
    if "/mcp/" <= route { assert route == "/mcp/" + route[|"/mcp/"|..]; }
    if EndsWith(route, document) { assert route == route[..|route| - |document|] + document; }
    if head :| route == head + document { assert route[|route| - |document|..] == document; }
  }

  /** The request names its route, or its path stands in for it. */
  function RouteOf(req: Request): string { match req.route case Some(route) => route case None => req.path }

  ghost predicate Listed(c: Catalog, code: string) { exists row :: row in c && row.api && row.data == code }

  ghost predicate Granted(t: Table, claims: Claims, code: string) {
    exists id :: id in t.live && t.live[id].tenant == claims.tenant && t.live[id].roleKey == claims.role
                 && t.live[id].kind == "permission" && t.live[id].data == code
  }

  lemma ListedIsCode(c: Catalog, code: string)
    ensures code in ApiCodes(c) <==> Listed(c, code)
  {
  }

  lemma GrantedIsCode(t: Table, claims: Claims, code: string)
    ensures code in Codes(t, GrantKey(claims.tenant, claims.role)) <==> Granted(t, claims, code)
  {
    if id :| id in t.live && t.live[id].tenant == claims.tenant && t.live[id].roleKey == claims.role
             && t.live[id].kind == "permission" && t.live[id].data == code {
      assert id in OfRole(t, claims.tenant, claims.role);
    }
  }

  /** The code stands in a cached set inside its grace window, or one whose marker is the given one. */
  ghost predicate FromEntry<Key, M>(cache: map<Key, Entry<M, set<string>>>, key: Key, now: int, marker: M, code: string) {
    && key in cache && code in cache[key].value
    && (0 <= now - cache[key].createdAt * 1_000_000 <= 1_000_000_000 || cache[key].compareValue == marker)
  }

  lemma ServedVouched<Db, Key, M>(
    src: Source<Db, Key, M, set<string>>, key: Key, env: Env<Db>, cache: map<Key, Entry<M, set<string>>>, code: string)
    requires src.hasDependency
    requires var pcs := Alone(src, key, env, cache).callers;
             |pcs| == 1 && pcs[0].pc.Returned? && code in pcs[0].pc.value
    ensures code in src.load(env.db, key) || FromEntry(cache, key, env.now, src.marker(env.db), code)
  {
    if src.keyLength(key) > 256 {
      LongKeyRefused(src, key, env, cache);
    } else if Found(src, key, env, cache) && Fresh(src, env, cache[key]) {
      FreshServed(src, key, env, cache);
    } else if Found(src, key, env, cache) && Compared(src, env, cache[key]) && cache[key].compareValue == src.marker(env.db) {
      MatchServed(src, key, env, cache);
    } else {
      RestReloads(src, key, env, cache);
    }
  }

  /** With nothing cached and the database up, the loader's set is served. */
  lemma ColdServes<Db, Key, M>(
    src: Source<Db, Key, M, set<string>>, key: Key, env: Env<Db>, cache: map<Key, Entry<M, set<string>>>)
    requires key !in cache && src.keyLength(key) <= 256 && env.markOk && env.loaderOk
    ensures var pcs := Alone(src, key, env, cache).callers;
            |pcs| == 1 && pcs[0].pc.Returned? && pcs[0].pc.value == src.load(env.db, key)
  {
    RestReloads(src, key, env, cache);
  }

  /** No set of theirs is cached, the key is short enough, and every query goes through. */
  ghost predicate Cold(claims: Claims, catalogEnv: Env<Catalog>, grantEnv: Env<Table>,
                       catalog: map<string, Entry<Stamp, set<string>>>, grants: map<GrantKey, Entry<Marker, set<string>>>)
  {
    && CATALOG_KEY !in catalog && GrantKey(claims.tenant, claims.role) !in grants
    && |claims.tenant| + |claims.role| + 12 <= 256
    && catalogEnv.markOk && catalogEnv.loaderOk && grantEnv.markOk && grantEnv.loaderOk
  }

  lemma ColdDecides(claims: Claims, catalogEnv: Env<Catalog>, grantEnv: Env<Table>,
                    catalog: map<string, Entry<Stamp, set<string>>>, grants: map<GrantKey, Entry<Marker, set<string>>>,
                    code: string)
    ensures Cold(claims, catalogEnv, grantEnv, catalog, grants) ==>
              var c := Alone(CatalogSource(), CATALOG_KEY, catalogEnv, catalog).callers;
              var g := Alone(GrantSource(), GrantKey(claims.tenant, claims.role), grantEnv, grants).callers;
              && |c| == 1 && c[0].pc.Returned? && (code in c[0].pc.value <==> Listed(catalogEnv.db, code))
              && |g| == 1 && g[0].pc.Returned? && (code in g[0].pc.value <==> Granted(grantEnv.db, claims, code))
  {
    if Cold(claims, catalogEnv, grantEnv, catalog, grants) {
      ColdServes(CatalogSource(), CATALOG_KEY, catalogEnv, catalog);
      ColdServes(GrantSource(), GrantKey(claims.tenant, claims.role), grantEnv, grants);
      ListedIsCode(catalogEnv.db, code);
      GrantedIsCode(grantEnv.db, claims, code);
    }
  }

  lemma CatalogVouched(env: Env<Catalog>, cache: map<string, Entry<Stamp, set<string>>>, code: string)
    requires var pcs := Alone(CatalogSource(), CATALOG_KEY, env, cache).callers;
             |pcs| == 1 && pcs[0].pc.Returned? && code in pcs[0].pc.value
    ensures Listed(env.db, code) || FromEntry(cache, CATALOG_KEY, env.now, CatalogMarker(env.db), code)
  {
    ServedVouched(CatalogSource(), CATALOG_KEY, env, cache, code);
    ListedIsCode(env.db, code);
  }

  lemma GrantVouched(claims: Claims, env: Env<Table>, cache: map<GrantKey, Entry<Marker, set<string>>>, code: string)
    requires var pcs := Alone(GrantSource(), GrantKey(claims.tenant, claims.role), env, cache).callers;
             |pcs| == 1 && pcs[0].pc.Returned? && code in pcs[0].pc.value
    ensures Granted(env.db, claims, code)
         || FromEntry(cache, GrantKey(claims.tenant, claims.role), env.now, MarkerOf(env.db), code)
  {
    ServedVouched(GrantSource(), GrantKey(claims.tenant, claims.role), env, cache, code);
    GrantedIsCode(env.db, claims, code);
  }

  class Checker {
    const allowlist: seq<AllowEntry>
    const failOpen: bool
    const catalog: Cacher<Catalog, string, Stamp, set<string>>
    const grants: Cacher<Table, GrantKey, Marker, set<string>>

    ghost predicate Valid() { catalog.src == CatalogSource() && grants.src == GrantSource() }

    constructor (allowlist: seq<AllowEntry>, failOpen: bool, catalog: Cacher<Catalog, string, Stamp, set<string>>,
                 grants: Cacher<Table, GrantKey, Marker, set<string>>)
      requires catalog.src == CatalogSource() && grants.src == GrantSource()
      ensures Valid() && this.allowlist == allowlist && this.failOpen == failOpen
      ensures this.catalog == catalog && this.grants == grants
    {
      this.allowlist, this.failOpen, this.catalog, this.grants := allowlist, failOpen, catalog, grants;
    }

    /** Requests decided before any set is read. */
    ghost predicate Open(req: Request) {
      || Plumbing(RouteOf(req))
      || exists i :: 0 <= i < |allowlist| && (allowlist[i].method_ == "" || allowlist[i].method_ == req.verb)
                     && Covers(allowlist[i].pattern, req.path)
    }

    /** None lets the request through. */
    method Check(req: Request, claims: Option<Claims>, catalogEnv: Env<Catalog>, grantEnv: Env<Table>)
      returns (r: Option<Refusal>)
      requires Valid()
      modifies catalog, grants
      ensures !req.http ==> r == None
      ensures req.http && claims == None ==> r == Some(AccessDenied)
      ensures req.http && claims.Some? && Open(req) ==> r == None
      ensures !req.http || claims == None || Open(req) ==>
                catalog.cache == old(catalog.cache) && grants.cache == old(grants.cache)
      // what the two cached calls come to decides a business request
      ensures req.http && claims.Some? && !Open(req) ==>
                var code := req.verb + " " + RouteOf(req);
                var c := Alone(CatalogSource(), CATALOG_KEY, catalogEnv, old(catalog.cache));
                var key := GrantKey(claims.value.tenant, claims.value.role);
                var g := Alone(GrantSource(), key, grantEnv, old(grants.cache));
                && |c.callers| == 1 && catalog.cache == c.cache
                && if c.callers[0].pc.Errored? then r == Some(Unavailable) && grants.cache == old(grants.cache)
                   else
                     && c.callers[0].pc.Returned?
                     && if code !in c.callers[0].pc.value then
                          r == (if failOpen then None else Some(PermissionDenied)) && grants.cache == old(grants.cache)
                        else
                          && grants.cache == g.cache && |g.callers| == 1
                          && if g.callers[0].pc.Errored? then r == Some(Unavailable)
                             else
                               && g.callers[0].pc.Returned?
                               && r == if code in g.callers[0].pc.value then None else Some(PermissionDenied)
      // fail-closed: nothing passes that is not vouched for twice
      ensures req.http && claims.Some? && !Open(req) && !failOpen && r == None ==>
                var code := req.verb + " " + RouteOf(req);
                && (Listed(catalogEnv.db, code)
                    || FromEntry(old(catalog.cache), CATALOG_KEY, catalogEnv.now, CatalogMarker(catalogEnv.db), code))
                && (Granted(grantEnv.db, claims.value, code)
                    || FromEntry(old(grants.cache), GrantKey(claims.value.tenant, claims.value.role), grantEnv.now,
                                 MarkerOf(grantEnv.db), code))
      // and with nothing cached and the database up, exactly what the tables hold passes
      ensures req.http && claims.Some? && !Open(req) && Cold(claims.value, catalogEnv, grantEnv, old(catalog.cache), old(grants.cache)) ==>
                var code := req.verb + " " + RouteOf(req);
                r == None <==> if Listed(catalogEnv.db, code) then Granted(grantEnv.db, claims.value, code) else failOpen
    {
      var route := if req.route.None? then req.path else req.route.value;
      InfrastructureExact(route);
      if !req.http {
        return None;
      }
      if claims == None {
        return Some(AccessDenied);
      }
      if Infrastructure(route) {
        return None;
      }
      var listed := Match(allowlist, req.verb, req.path);
      if listed {
        return None;
      }
      var code := req.verb + " " + route;
      ColdDecides(claims.value, catalogEnv, grantEnv, old(catalog.cache), old(grants.cache), code);
      var catalogSet := catalog.Try(CATALOG_KEY, catalogEnv);
      if catalogSet == None {
        return Some(Unavailable);
      }
      if code !in catalogSet.value {
        return if failOpen then None else Some(PermissionDenied);
      }
      CatalogVouched(catalogEnv, old(catalog.cache), code);
      var key := GrantKey(claims.value.tenant, claims.value.role);
      var grantSet := grants.Try(key, grantEnv);
      if grantSet == None {
        return Some(Unavailable);
      }
      if code !in grantSet.value {
        return Some(PermissionDenied);
      }
      GrantVouched(claims.value, grantEnv, old(grants.cache), code);
      return None;
    }
  }
}
