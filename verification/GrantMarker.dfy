/** `SUM(id)` as the version marker of the grants cache (`admin/permission.go`), and the
    permission checker's reads through `DbCache`. */
module GrantMarker {
  import opened DbCache
  import opened Grants
  import opened Wrappers

  // ----- sums of id sets -----

  ghost function Sum(s: set<nat>): nat {
    if s == {} then 0 else var x :| x in s; x + Sum(s - {x})
  }

  lemma {:induction false} SumTakes(s: set<nat>, y: nat)
    requires y in s
    ensures Sum(s) == y + Sum(s - {y})
    decreases |s|
  {
    var x :| x in s && Sum(s) == x + Sum(s - {x});
    if x != y {
      SumTakes(s - {x}, y);
      SumTakes(s - {y}, x);
      assert s - {x} - {y} == s - {y} - {x};
    }
  }

  lemma {:induction false} SumJoins(a: set<nat>, b: set<nat>)
    requires a !! b
    ensures Sum(a + b) == Sum(a) + Sum(b)
    decreases |a|
  {
    if a == {} {
      assert a + b == b;
    } else {
      var x :| x in a;
      SumTakes(a, x);
      SumTakes(a + b, x);
      assert a + b - {x} == (a - {x}) + b;
      SumJoins(a - {x}, b);
    }
  }

  lemma {:induction false} SumBelow(s: set<nat>, bound: nat)
    requires forall x | x in s :: x < bound
    ensures s != {} ==> Sum(s) < |s| * bound
    decreases |s|
  {
    if s != {} {
      var x :| x in s;
      SumTakes(s, x);
      SumBelow(s - {x}, bound);
      assert |s| * bound == (|s| - 1) * bound + bound;
    }
  }

  /** The ids the next n inserts will take. */
  function NextIds(from: nat, n: nat): (r: set<nat>)
    ensures forall id :: id in r <==> from <= id < from + n
  {
    if n == 0 then {} else NextIds(from, n - 1) + {from + n - 1}
  }

  lemma {:induction false} NextIdsSum(from: nat, n: nat)
    ensures Sum(NextIds(from, n)) >= n * from
    decreases n
  {
    if n > 0 {
      var s, last := NextIds(from, n), from + n - 1;
      SumTakes(s, last);
      assert s - {last} == NextIds(from, n - 1);
      NextIdsSum(from, n - 1);
      OneMore(n, from);
    }
  }

  lemma OneMore(n: nat, x: nat)
    requires n > 0
    ensures n * x == (n - 1) * x + x
  {
  }

  // ----- the marker -----

  /** SQL's SUM over no rows is NULL, read back as the empty string. */
  datatype Marker = Empty | Total(sum: nat)

  ghost function MarkerOf(t: Table): Marker {
    if t.live == map[] then Empty else Total(Sum(t.live.Keys))
  }

  /** The checker's cache keys name a tenant and a role. */
  datatype GrantKey = GrantKey(tenant: string, roleKey: string) {
    function Text(): string { "perm:grant:" + tenant + ":" + roleKey }
  }

  function Codes(t: Table, key: GrantKey): set<string> {
    set id | id in OfRole(t, key.tenant, key.roleKey) && t.live[id].kind == PERMISSION :: t.live[id].data
  }

  ghost function GrantSource(): Source<Table, GrantKey, Marker, set<string>> {
    Source((t: Table) => MarkerOf(t), (t: Table, k: GrantKey) => Codes(t, k), (k: GrantKey) => |k.Text()|, true, Empty)
  }

  /** Role keys hold no colon, so the text of a key determines tenant and role. */
  lemma KeysDistinct(a: GrantKey, b: GrantKey)
    requires ':' !in a.roleKey && ':' !in b.roleKey && a.Text() == b.Text()
    ensures a == b
  {
    ColonPlace(a, b);
    ColonPlace(b, a);
    var x := a.tenant + ":" + a.roleKey;
    assert x == b.tenant + ":" + b.roleKey by { TextTail(a); TextTail(b); }
    assert a.tenant == x[..|a.tenant|] && a.roleKey == x[|a.tenant| + 1..];
  }

  lemma TextTail(a: GrantKey)
    ensures a.Text()[|"perm:grant:"|..] == a.tenant + ":" + a.roleKey
  {
  }

  lemma ColonPlace(a: GrantKey, b: GrantKey)
    requires ':' !in a.roleKey && a.Text() == b.Text()
    ensures |b.tenant| <= |a.tenant|
  {
    var x, y, i := a.tenant + ":" + a.roleKey, b.tenant + ":" + b.roleKey, |b.tenant|;
    assert x == y by { TextTail(a); TextTail(b); }
    assert y[i] == ':';
    forall k | |a.tenant| < k < |x| ensures x[k] != ':' {
      assert x[k] == a.roleKey[k - |a.tenant| - 1];
    }
  }

  // ----- the writers -----

  datatype Write =
    | Replacing(scope: Scope, roleKey: string, menus: seq<string>, perms: seq<string>, tenant: string)
    | Granting(scope: Scope, roleKey: string, tenant: string, menus: seq<string>, perms: seq<string>)

  function Written(t: Table, w: Write): Table {
    match w
    case Replacing(scope, roleKey, menus, perms, tenant) => Replace(t, scope, roleKey, menus, perms, tenant)
    case Granting(scope, roleKey, tenant, menus, perms) => GrantMissing(t, scope, roleKey, tenant, menus, perms)
  }

  /** A replacement writes at least one row and at least as many as it deletes. */
  predicate Grows(t: Table, w: Write) {
    w.Replacing? ==> |w.menus| + |w.perms| >= 1 && |w.menus| + |w.perms| >= |OfKey(t, w.scope, w.roleKey)|
  }

  /** What a replacement does to the sum: it drops the deleted ids and gains the added ones. */
  lemma ReplaceSum(t: Table, scope: Scope, roleKey: string, menus: seq<string>, perms: seq<string>, tenant: string)
    requires t.Valid()
    ensures var r := Replace(t, scope, roleKey, menus, perms, tenant);
            && r.Valid()
            && Sum(r.live.Keys) + Sum(OfKey(t, scope, roleKey))
               == Sum(t.live.Keys) + Sum(NextIds(t.nextId, |menus| + |perms|))
  {
    var gone, added := OfKey(t, scope, roleKey), NextIds(t.nextId, |menus| + |perms|);
    var rest := Without(t, gone);
    Inserted(rest, scope, Requested(tenant, roleKey, menus, perms));
    var r := Replace(t, scope, roleKey, menus, perms, tenant);
    assert r.live.Keys == rest.live.Keys + added;
    SumJoins(rest.live.Keys, added);
    assert t.live.Keys == rest.live.Keys + gone;
    SumJoins(rest.live.Keys, gone);
  }

  lemma SumPositive(s: set<nat>)
    requires s != {} && 0 !in s
    ensures Sum(s) > 0
  {
    var x :| x in s;
    SumTakes(s, x);
  }

  /** The marker moves exactly when the deleted and the fresh ids differ in sum. */
  lemma ReplaceMarkerExact(t: Table, scope: Scope, roleKey: string, menus: seq<string>, perms: seq<string>, tenant: string)
    requires t.Valid()
    ensures MarkerOf(Replace(t, scope, roleKey, menus, perms, tenant)) != MarkerOf(t)
       <==> Sum(OfKey(t, scope, roleKey)) != Sum(NextIds(t.nextId, |menus| + |perms|))
  {
    var u := Replace(t, scope, roleKey, menus, perms, tenant);
    ReplaceSum(t, scope, roleKey, menus, perms, tenant);
    if t.live != map[] {
      var id :| id in t.live;
      assert t.live.Keys != {};
      SumPositive(t.live.Keys);
    }
    if u.live != map[] {
      var id :| id in u.live;
      assert u.live.Keys != {};
      SumPositive(u.live.Keys);
    }
  }

  lemma CodesHeld(t: Table, key: GrantKey, d: string)
    ensures d in Codes(t, key) <==> (PERMISSION, d) in Held(t, key.tenant, key.roleKey)
  {
  }

  /** The sets the checker's loader reads after a replacement. */
  lemma ReplaceCodes(t: Table, scope: Scope, roleKey: string, menus: seq<string>, perms: seq<string>, tenant: string, key: GrantKey)
    requires t.Valid()
    ensures Codes(Replace(t, scope, roleKey, menus, perms, tenant), key)
         == if key.roleKey != roleKey || !InScope(scope, key.tenant) then Codes(t, key)
            else if key.tenant == Home(scope, tenant) then set d | d in perms
            else {}
  {
    var u := Replace(t, scope, roleKey, menus, perms, tenant);
    forall d ensures d in Codes(u, key) <==> (PERMISSION, d) in Held(u, key.tenant, key.roleKey) { CodesHeld(u, key, d); }
    forall d
      ensures (PERMISSION, d) in Held(u, key.tenant, key.roleKey) <==>
                if key.roleKey == roleKey && key.tenant == Home(scope, tenant) then d in perms
                else !(key.roleKey == roleKey && scope == None) && (PERMISSION, d) in Held(t, key.tenant, key.roleKey)
    {
      ReplaceHeld(t, scope, roleKey, menus, perms, tenant, key.tenant, key.roleKey, PERMISSION, d);
    }
    forall d ensures d in Codes(t, key) <==> (PERMISSION, d) in Held(t, key.tenant, key.roleKey) { CodesHeld(t, key, d); }
  }

  /** No role the replacement reaches gains or loses a permission by it. */
  ghost predicate CodesUnmoved(t: Table, scope: Scope, roleKey: string, perms: seq<string>, tenant: string) {
    forall tenant' | InScope(scope, tenant') && |GrantKey(tenant', roleKey).Text()| <= MAX_CACHE_KEY_LEN ::
      Codes(t, GrantKey(tenant', roleKey)) == if tenant' == Home(scope, tenant) then set d | d in perms else {}
  }

  lemma CodesUnmovedExact(t: Table, scope: Scope, roleKey: string, menus: seq<string>, perms: seq<string>, tenant: string)
    requires t.Valid()
    ensures var u := Replace(t, scope, roleKey, menus, perms, tenant);
            CodesUnmoved(t, scope, roleKey, perms, tenant) <==>
              forall key: GrantKey | |key.Text()| <= MAX_CACHE_KEY_LEN :: Codes(t, key) == Codes(u, key)
  {
    var u := Replace(t, scope, roleKey, menus, perms, tenant);
    forall key: GrantKey
      ensures Codes(u, key) == if key.roleKey != roleKey || !InScope(scope, key.tenant) then Codes(t, key)
                               else if key.tenant == Home(scope, tenant) then set d | d in perms else {}
    {
      ReplaceCodes(t, scope, roleKey, menus, perms, tenant, key);
    }
    if forall key: GrantKey | |key.Text()| <= MAX_CACHE_KEY_LEN :: Codes(t, key) == Codes(u, key) {
      forall tenant' | InScope(scope, tenant') && |GrantKey(tenant', roleKey).Text()| <= MAX_CACHE_KEY_LEN
        ensures Codes(t, GrantKey(tenant', roleKey)) == if tenant' == Home(scope, tenant) then set d | d in perms else {}
      {
        assert Codes(t, GrantKey(tenant', roleKey)) == Codes(u, GrantKey(tenant', roleKey));
      }
    } else {
      var key: GrantKey :| |key.Text()| <= MAX_CACHE_KEY_LEN && Codes(t, key) != Codes(u, key);
      assert key == GrantKey(key.tenant, roleKey);
    }
  }

  /** Across any one replacement, revoking everything included, revalidation is right exactly
      when the deleted and the fresh ids differ in sum or no permission moves. */
  lemma ReplaceSeenExactly(t: Table, scope: Scope, roleKey: string, menus: seq<string>, perms: seq<string>, tenant: string)
    requires t.Valid()
    ensures MatchesAreCurrent(GrantSource(), [t, Replace(t, scope, roleKey, menus, perms, tenant)])
       <==> Sum(OfKey(t, scope, roleKey)) != Sum(NextIds(t.nextId, |menus| + |perms|))
            || CodesUnmoved(t, scope, roleKey, perms, tenant)
  {
    var u := Replace(t, scope, roleKey, menus, perms, tenant);
    ReplaceMarkerExact(t, scope, roleKey, menus, perms, tenant);
    CodesUnmovedExact(t, scope, roleKey, menus, perms, tenant);
    GrantWriteExact(t, u);
  }

  lemma GrantWriteExact(t: Table, u: Table)
    ensures MatchesAreCurrent(GrantSource(), [t, u])
       <==> MarkerOf(t) != MarkerOf(u)
            || forall key: GrantKey | |key.Text()| <= MAX_CACHE_KEY_LEN :: Codes(t, key) == Codes(u, key)
  {
    var src := GrantSource();
    OneWriteExact(src, t, u);
    assert forall key :: src.keyLength(key) == |key.Text()|;
    assert forall key :: src.load(t, key) == Codes(t, key) && src.load(u, key) == Codes(u, key);
  }

  lemma ReplaceGrows(t: Table, scope: Scope, roleKey: string, menus: seq<string>, perms: seq<string>, tenant: string)
    requires t.Valid() && |menus| + |perms| >= 1 && |menus| + |perms| >= |OfKey(t, scope, roleKey)|
    ensures var r := Replace(t, scope, roleKey, menus, perms, tenant);
            r.Valid() && Sum(r.live.Keys) > Sum(t.live.Keys)
  {
    var n, gone := |menus| + |perms|, OfKey(t, scope, roleKey);
    ReplaceSum(t, scope, roleKey, menus, perms, tenant);
    NextIdsSum(t.nextId, n);
    SumBelow(gone, t.nextId);
    MulMonotone(|gone|, n, t.nextId);
    if gone == {} { MulMonotone(1, n, t.nextId); }
  }

  lemma MulMonotone(a: nat, b: nat, c: nat)
    requires a <= b
    ensures a * c <= b * c
  {
    assert (b - a) * c >= 0;
  }

  lemma GrantGrows(t: Table, scope: Scope, roleKey: string, tenant: string, menus: seq<string>, perms: seq<string>)
    requires t.Valid()
    ensures var r := GrantMissing(t, scope, roleKey, tenant, menus, perms);
            r.Valid() && (r == t || Sum(r.live.Keys) > Sum(t.live.Keys))
  {
    var rows := MissingOf(Requested(tenant, roleKey, menus, perms), Reached(t, scope, tenant, roleKey));
    Inserted(t, scope, rows);
    if rows != [] {
      var added := NextIds(t.nextId, |rows|);
      assert Insert(t, scope, rows).live.Keys == t.live.Keys + added;
      SumJoins(t.live.Keys, added);
      NextIdsSum(t.nextId, |rows|);
      MulMonotone(1, |rows|, t.nextId);
    }
  }

  lemma WrittenGrows(t: Table, w: Write)
    requires t.Valid() && Grows(t, w)
    ensures Written(t, w).Valid()
    ensures Written(t, w) == t || Sum(Written(t, w).live.Keys) > Sum(t.live.Keys)
  {
    match w
    case Replacing(scope, roleKey, menus, perms, tenant) => ReplaceGrows(t, scope, roleKey, menus, perms, tenant);
    case Granting(scope, roleKey, tenant, menus, perms) => GrantGrows(t, scope, roleKey, tenant, menus, perms);
  }

  // ----- histories of growing writes -----

  ghost predicate GrowingHistory(h: seq<Table>, ws: seq<Write>) {
    && |h| == |ws| + 1 && h[0].Valid()
    && forall i | 0 <= i < |ws| :: Grows(h[i], ws[i]) && h[i + 1] == Written(h[i], ws[i])
  }

  lemma StepGrows(h: seq<Table>, ws: seq<Write>, i: nat)
    requires GrowingHistory(h, ws) && i < |ws| && h[i].Valid()
    ensures h[i + 1].Valid() && (h[i + 1] == h[i] || Sum(h[i + 1].live.Keys) > Sum(h[i].live.Keys))
  {
    WrittenGrows(h[i], ws[i]);
  }

  lemma {:induction false} HistoryValid(h: seq<Table>, ws: seq<Write>, i: nat)
    requires GrowingHistory(h, ws) && i < |h|
    ensures h[i].Valid()
    decreases i
  {
    if i > 0 {
      HistoryValid(h, ws, i - 1);
      StepGrows(h, ws, i - 1);
    }
  }

  lemma {:induction false} GrowingSums(h: seq<Table>, ws: seq<Write>, i: nat, j: nat)
    requires GrowingHistory(h, ws) && i <= j < |h|
    ensures Sum(h[i].live.Keys) <= Sum(h[j].live.Keys)
    ensures i < j && h[j] != h[j - 1] ==> Sum(h[i].live.Keys) < Sum(h[j].live.Keys)
    decreases j
  {
    if i < j {
      GrowingSums(h, ws, i, j - 1);
      HistoryValid(h, ws, j - 1);
      StepGrows(h, ws, j - 1);
    }
  }

  /** Over such a history the sum never comes back, so every revalidated grant set is what
      the table holds at the check, in every interleaving. */
  lemma GrowingWritesVersion(h: seq<Table>, ws: seq<Write>)
    requires GrowingHistory(h, ws)
    ensures NeverReused(GrantSource(), h) && MatchesAreCurrent(GrantSource(), h)
  {
    var src := GrantSource();
    forall i, j | 0 <= j < i < |h| && h[i] != h[i - 1] ensures src.marker(h[j]) != src.marker(h[i]) {
      GrowingSums(h, ws, j, i);
      assert h[j].live == map[] ==> h[j].live.Keys == {};
    }
    RevalidationExact(src, h);
  }

  /** End to end, for the checker: a code found granted though no table during the whole call
      granted it was read within the grace window of the entry's stamp, or shared a flight
      that had loaded before the call began and was still in progress then. */
  lemma RevocationBounded(
    ws: seq<Write>, s: State<Table, GrantKey, Marker, set<string>>, n: nat, code: string)
    requires s.history != [] && GrowingHistory(s.history, ws) && Reachable(GrantSource(), s.history[0], s)
    requires n < |s.callers| && s.callers[n].pc.Returned? && code in s.callers[n].pc.value
    requires forall x | s.callers[n].begunAt <= x < |s.history| :: code !in Codes(s.history[x], s.callers[n].key)
    ensures var c := s.callers[n];
            || (c.pc.via.Grace? && c.pc.via.readAt - c.pc.via.stampedAt <= GRACE_WINDOW)
            || (c.pc.via.Reloaded? && c.pc.via.flight < |s.flights|
                && var f := s.flights[c.pc.via.flight];
                f.phase.Finished? && f.startedAt <= f.phase.loadedAt < c.begunAt <= f.phase.finishedAt
                && f.phase.loadedAt < |s.history| && code in Codes(s.history[f.phase.loadedAt], c.key))
  {
    var src, c := GrantSource(), s.callers[n];
    GrowingWritesVersion(s.history, ws);
    NeverReusedVersions(src, s.history);
    BoundedStaleness(src, s.history[0], s, n);
    forall x | c.begunAt <= x < |s.history| ensures !LoadOk(src, s.history, c.key, c.pc.value, x) {
      assert code !in src.load(s.history[x], c.key);
    }
  }

  // ----- where SUM(id) is no version -----

  function TwoGrants(): Table {
    Table(map[1 := Grant("t", "r", PERMISSION, "a"), 2 := Grant("t", "r", PERMISSION, "b")], 3)
  }

  lemma TwoGrantsReplaced()
    ensures var t := TwoGrants();
            && t.Valid() && OfKey(t, Some("t"), "r") == {1, 2} && t.live.Keys == {1, 2}
            && Codes(t, GrantKey("t", "r")) == {"a", "b"}
  {
    var t := TwoGrants();
    assert OfKey(t, Some("t"), "r") == {1, 2} == OfRole(t, "t", "r");
    assert forall d | d in Codes(t, GrantKey("t", "r")) :: d in {"a", "b"};
    assert t.live[1].data == "a" && t.live[2].data == "b";
  }

  lemma SmallSums()
    ensures Sum({1, 2}) == 3 && Sum(NextIds(3, 1)) == 3
  {
    SumTakes({1, 2}, 2);
    SumTakes({1}, 1);
    assert {1, 2} - {2} == {1} && {1} - {1} == {};
    assert NextIds(3, 1) == {3};
    SumTakes({3}, 3);
    assert {3} - {3} == {};
  }

  /** Fresh ids are larger than any they replace, but {1,2} -> {3} keeps the sum. */
  lemma ShrinkingReplaceRepeatsSum()
    ensures var t := TwoGrants();
            var u := Replace(t, Some("t"), "r", [], ["c"], "t");
            t.Valid() && MarkerOf(t) == MarkerOf(u) == Total(3) && !MatchesAreCurrent(GrantSource(), [t, u])
  {
    var t := TwoGrants();
    TwoGrantsReplaced();
    SmallSums();
    ReplaceMarkerExact(t, Some("t"), "r", [], ["c"], "t");
    ReplaceSeenExactly(t, Some("t"), "r", [], ["c"], "t");
    assert |GrantKey("t", "r").Text()| <= MAX_CACHE_KEY_LEN;
    assert "a" in Codes(t, GrantKey("t", "r")) && "a" !in (set d | d in ["c"]);
  }

  /** Grant rows are updated in place after all: a role rename keeps every id, so the marker
      cannot see it. Revalidation across it is right only if no permission moved. */
  lemma RenameHidden(t: Table, tenant: string, from: string, to: string)
    requires t.Valid() && from != to && |GrantKey(tenant, from).Text()| <= MAX_CACHE_KEY_LEN
    ensures MarkerOf(Repoint(t, tenant, from, to)) == MarkerOf(t)
    ensures MatchesAreCurrent(GrantSource(), [t, Repoint(t, tenant, from, to)])
       <==> Codes(t, GrantKey(tenant, from)) == {}
  {
    var u := Repoint(t, tenant, from, to);
    assert u.live.Keys == t.live.Keys;
    assert Codes(u, GrantKey(tenant, from)) == {};
    GrantWriteExact(t, u);
    if Codes(t, GrantKey(tenant, from)) == {} {
      forall key ensures Codes(t, key) == Codes(u, key) { RenameMovesNothing(t, tenant, from, to, key); }
    }
  }

  lemma CodesEmpty(t: Table, key: GrantKey)
    ensures Codes(t, key) == {} <==> forall id | id in OfRole(t, key.tenant, key.roleKey) :: t.live[id].kind != PERMISSION
  {
    if id :| id in OfRole(t, key.tenant, key.roleKey) && t.live[id].kind == PERMISSION {
      assert t.live[id].data in Codes(t, key);
    }
  }

  lemma RenameMovesNothing(t: Table, tenant: string, from: string, to: string, key: GrantKey)
    requires Codes(t, GrantKey(tenant, from)) == {}
    ensures Codes(Repoint(t, tenant, from, to), key) == Codes(t, key)
  {
    var u := Repoint(t, tenant, from, to);
    CodesEmpty(t, GrantKey(tenant, from));
    assert forall id | id in t.live && t.live[id].kind == PERMISSION :: u.live[id] == t.live[id];
    assert forall d | d in Codes(u, key) :: d in Codes(t, key);
    forall d | d in Codes(t, key) ensures d in Codes(u, key) {
      var id :| id in OfRole(t, key.tenant, key.roleKey) && t.live[id].kind == PERMISSION && t.live[id].data == d;
      assert id in OfRole(u, key.tenant, key.roleKey);
    }
  }
}
