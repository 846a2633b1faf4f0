/** The calls of `admin/service/auth.go`, `admin/service/revocation_validator.go` and the
    middleware's handler (`middleware/auth/jwt.go`) over the bounded store. Each call, while
    nothing is evicted, plays a stretch of a `TokenLifecycle` run; the caller passes the clock
    readings in the order the call takes them. */
module AuthService {
  import opened TokenStore
  import opened TokenLifecycle
  import opened Wrappers

  /** What a request carries: nothing, something that does not verify, or a token signed here. */
  datatype Raw = Absent | Garbage | Signed(tok: Token)

  /** `Account` is a missing or disabled user or role; `Signing` a token that could not be made. */
  datatype AuthError = Invalid | BadToken | Expired | AccessDenied | Account | Signing

  /** The clock moves on, then one step. */
  function At(ttl: int, s: State, now: int, l: Label): State { Next(ttl, Next(ttl, s, Tick(now)), l) }

  /** The labels of a refresh that nothing interrupts. */
  function Refreshed(ttl: int, s: State, tok: Token, accountOk: bool, refresh: string, access: string, signed: bool,
                     parse: int, claim: int, mint: int): State
  {
    var n := |s.requests|;
    var s1 := At(ttl, s, parse, BeginRefresh(tok, accountOk));
    var s2 := At(ttl, s1, claim, Claiming(n));
    At(ttl, s2, mint, Mint(n, refresh, access, signed))
  }

  /** The clock readings of one revocation: at the parse, for the fallback window, for the
      expiry comparison, in the store. */
  datatype Times = Times(parse: int, read: int, plan: int, write: int) {
    predicate Ordered() { parse <= plan <= write }

    function Until(ttl: int, tok: Token): int { if tok.exp > plan then tok.exp else read + ttl }
  }

  function LoggedOff(ttl: int, s: State, raw: Raw, t: Times): State {
    if !raw.Signed? then s
    else
      var n := |s.requests|;
      var s1 := At(ttl, s, t.parse, BeginRevoke(raw.tok));
      var s2 := At(ttl, s1, t.plan, Plan(n, t.read));
      At(ttl, s2, t.write, StoreRevoke(n))
  }

  function Requested(ttl: int, s: State, tok: Token, hook: int, parse: int): State {
    At(ttl, At(ttl, s, hook, BeginAuth(tok)), parse, FinishAuth(|s.requests|))
  }

  lemma Played(ttl: int, s: State, now: int, l: Label)
    ensures At(ttl, s, now, l) == Run(ttl, s, [Tick(now), l])
  {
    assert [Tick(now), l][1..] == [l];
    assert Run(ttl, Next(ttl, s, Tick(now)), [l]) == At(ttl, s, now, l);
  }

  /** No entry would be evicted by the write. */
  predicate Fits(capacity: nat, m: Denials, op: Op, now: int) {
    Writes(m, op, now) ==> |Swept(m, now)[op.jti := op.until]| <= capacity
  }

  /** A token presented in this state was issued before, with an id. */
  predicate Known(s: State, raw: Raw) { raw.Signed? ==> raw.tok in s.issued && raw.tok.jti != "" }

  ghost predicate Revocable(ttl: int, capacity: nat, s: State, raw: Raw, t: Times) {
    && s.now <= t.parse && t.Ordered() && Known(s, raw)
    && (raw.Signed? ==> Fits(capacity, s.store, Revoke(raw.tok.jti, t.Until(ttl, raw.tok)), t.write))
  }

  /** One revocation, whatever it evicts: an unexpired token with an id is denied until it
      expires, or for a lifetime from `read` if it has by `plan`; nothing else is written. */
  ghost predicate Denied(ttl: int, capacity: nat, m: Denials, raw: Raw, t: Times, m': Denials) {
    if raw.Signed? && t.parse < raw.tok.exp && raw.tok.jti != "" then
      var until := if raw.tok.exp > t.plan then raw.tok.exp else t.read + ttl;
      if until > t.write then Inserted(capacity, m, raw.tok.jti, until, t.write, m') else m' == m
    else m' == m
  }

  /** While nothing is evicted, a revocation plays a stretch of the protocol's run. */
  lemma DenialPlays(ttl: int, capacity: nat, s: State, raw: Raw, t: Times, m': Denials)
    requires Revocable(ttl, capacity, s, raw, t) && Denied(ttl, capacity, s.store, raw, t, m')
    ensures m' == LoggedOff(ttl, s, raw, t).store
  {
    if raw.Signed? && t.parse < raw.tok.exp {
      var until := t.Until(ttl, raw.tok);
      if until > t.write {
        PutSize(Swept(s.store, t.write), raw.tok.jti, until);
        assert !Evicts(capacity, s.store, raw.tok.jti, t.write);
      }
    }
  }

  /** Why a refresh is turned away before it claims anything. */
  function Unfit(raw: Raw, account: Option<AuthError>, parse: int): Option<AuthError> {
    if !raw.Signed? then Some(BadToken)
    else if parse >= raw.tok.exp then Some(Expired)
    else if raw.tok.kind != Refresh then Some(AccessDenied)
    else account
  }

  /** One refresh from the store `m` to the store `m'`: refused without a write, or decided by
      one claim of the old id, before anything is minted. An id-less token claims nothing. */
  ghost predicate Exchange(ttl: int, capacity: nat, m: Denials, raw: Raw, account: Option<AuthError>,
                           refresh: string, access: string, signed: bool, parse: int, claim: int, mint: int,
                           m': Denials, r: Result<(Token, Token), AuthError>)
  {
    match Unfit(raw, account, parse)
    case Some(e) => r == Err(e) && m' == m
    case None =>
      var tok := raw.tok;
      var op := Claim(tok.jti, tok.exp);
      var won := tok.jti == "" || Answer(m, op, claim);
      && (if tok.jti == "" then m' == m else Step(capacity, m, Event(op, claim, won), m'))
      && r == if !won then Err(AccessDenied) else if !signed then Err(Signing)
              else Ok((Token(refresh, Refresh, tok.chain, Expiry(mint, REFRESH_TTL)),
                       Token(access, Access, tok.chain, Expiry(mint, ttl))))
  }

  /** While nothing is evicted, a refresh plays a stretch of the token protocol's run: it ends
      minted and issues the pair exactly when the call succeeds, and leaves the run's store. */
  lemma ExchangePlays(ttl: int, capacity: nat, s: State, raw: Raw, account: Option<AuthError>,
                      refresh: string, access: string, signed: bool, parse: int, claim: int, mint: int,
                      m': Denials, r: Result<(Token, Token), AuthError>)
    requires raw.Signed? && Known(s, raw) && s.now <= parse <= claim <= mint && FreshPair(s, refresh, access)
    requires Fits(capacity, s.store, Claim(raw.tok.jti, raw.tok.exp), claim)
    requires Exchange(ttl, capacity, s.store, raw, account, refresh, access, signed, parse, claim, mint, m', r)
    ensures var s' := Refreshed(ttl, s, raw.tok, account == None, refresh, access, signed, parse, claim, mint);
            && m' == s'.store
            && s'.requests[|s.requests|] == (if r.Ok? then Minted(raw.tok, refresh, access) else Refused)
            && s'.issued == if r.Ok? then s.issued + {r.value.0, r.value.1} else s.issued
  {
    if Unfit(raw, account, parse) == None {
      var op := Claim(raw.tok.jti, raw.tok.exp);
      NoEvictionFunction(capacity, s.store, Event(op, claim, Answer(s.store, op, claim)), m');
    }
  }

  /** A refresh token once exchanged, or named by a finished logout, is refused ever after. */
  lemma ReplayRefused(ttl: int, capacity: nat, start: int, ls: seq<Label>, raw: Raw, account: Option<AuthError>,
                      refresh: string, access: string, signed: bool, parse: int, claim: int, mint: int,
                      m': Denials, r: Result<(Token, Token), AuthError>)
    requires var s := Run(ttl, Init(start), ls);
             && raw.Signed? && Known(s, raw) && s.now <= claim
             && ((exists i :: 0 <= i < |s.requests| && s.requests[i].Minted? && s.requests[i].tok == raw.tok)
                 || raw.tok.jti in s.revoked)
             && Exchange(ttl, capacity, s.store, raw, account, refresh, access, signed, parse, claim, mint, m', r)
    ensures r.Err?
  {
    var s := Run(ttl, Init(start), ls);
    RunKeepsInv(ttl, Init(start), ls);
    assert raw.tok.jti in s.claimed + s.revoked by {
      if i :| 0 <= i < |s.requests| && s.requests[i].Minted? && s.requests[i].tok == raw.tok {
        assert Succeeded(s.requests[i]);
      }
    }
    assert Spent(s, raw.tok);
  }

  class Service {
    const ttl: int
    const store: MemoryTokenStore

    ghost predicate Valid()
      reads this, store
    {
      store.Valid()
    }

    constructor (ttl: int, capacity: nat)
      requires capacity > 0
      ensures Valid() && fresh(store) && this.ttl == ttl && store.capacity == capacity && store.revoked == map[]
    {
      this.ttl := ttl;
      store := new MemoryTokenStore(capacity);
    }

    /** Exchanges a refresh token; `account` is the verdict on its user and role. */
    method RefreshToken(raw: Raw, account: Option<AuthError>, refresh: string, access: string, signed: bool,
                        parse: int, claim: int, mint: int)
      returns (r: Result<(Token, Token), AuthError>)
      requires Valid()
      modifies store
      ensures Valid()
      ensures Exchange(ttl, store.capacity, old(store.revoked), raw, account, refresh, access, signed, parse, claim, mint,
                       store.revoked, r)
      ensures !raw.Signed? ==> r == Err(BadToken)
      ensures raw.Signed? && parse >= raw.tok.exp ==> r == Err(Expired)
      ensures raw.Signed? && parse < raw.tok.exp && raw.tok.kind != Refresh ==> r == Err(AccessDenied)
      ensures raw.Signed? && parse < raw.tok.exp && raw.tok.kind == Refresh ==>
                var won := raw.tok.jti == "" || (raw.tok.exp > claim && !Open(old(store.revoked), raw.tok.jti, claim));
                && (account.Some? ==> r == Err(account.value))
                && (account == None && !won ==> r == Err(AccessDenied))
                && (account == None && won && !signed ==> r == Err(Signing))
                && (account == None && won && signed ==> r.Ok?)
      ensures r.Ok? ==>
                && r.value.0.kind == Refresh && r.value.0.jti == refresh && Lasts(r.value.0, mint, ttl)
                && r.value.1.kind == Access && r.value.1.jti == access && Lasts(r.value.1, mint, ttl)
                && r.value.0.chain == r.value.1.chain == raw.tok.chain
    {
      if !raw.Signed? {
        return Err(BadToken);
      }
      var tok := raw.tok;
      if parse >= tok.exp {
        return Err(Expired);
      }
      if tok.kind != Refresh {
        return Err(AccessDenied);
      }
      if account.Some? {
        return Err(account.value);
      }
      if tok.jti != "" {
        var won := store.RevokeIfNotRevoked(tok.jti, tok.exp, claim);
        if !won {
          return Err(AccessDenied);
        }
      }
      if !signed {
        return Err(Signing);
      }
      return Ok((Token(refresh, Refresh, tok.chain, Expiry(mint, REFRESH_TTL)),
                 Token(access, Access, tok.chain, Expiry(mint, ttl))));
    }

    /** Denies one presented token until it expires. Returns it if it parsed. */
    method RevokeToken(raw: Raw, t: Times) returns (parsed: Option<Token>)
      requires Valid()
      modifies store
      ensures Valid()
      ensures parsed == if raw.Signed? && t.parse < raw.tok.exp then Some(raw.tok) else None
      ensures Denied(ttl, store.capacity, old(store.revoked), raw, t, store.revoked)
    {
      if !raw.Signed? || t.parse >= raw.tok.exp {
        return None;
      }
      var tok := raw.tok;
      if tok.jti == "" {
        return Some(tok);
      }
      var until := t.read + ttl;
      if tok.exp > t.plan {
        until := tok.exp;
      }
      store.Revoke(tok.jti, until, t.write);
      return Some(tok);
    }

    /** The Validate hook: the only reader of the denylist. */
    method Validate(raw: Raw, now: int) returns (e: Option<AuthError>)
      requires Valid()
      modifies store
      ensures Valid()
      ensures e == if raw.Signed? && (raw.tok.kind == Refresh || (raw.tok.jti != "" && Open(old(store.revoked), raw.tok.jti, now)))
                   then Some(AccessDenied) else None
      ensures store.revoked == if raw.Signed? && raw.tok.kind != Refresh
                               then StoreAfter(old(store.revoked), Query(raw.tok.jti), now) else old(store.revoked)
    {
      if !raw.Signed? {
        return None;
      }
      if raw.tok.kind == Refresh {
        return Some(AccessDenied);
      }
      if raw.tok.jti != "" {
        var yes := store.Revoked(raw.tok.jti, now);
        if yes {
          return Some(AccessDenied);
        }
      }
      return None;
    }

    /** The middleware's handler: the hook first, the parse with its expiry check after it. */
    method Authenticate(raw: Raw, hook: int, parse: int, ghost s: State) returns (r: Result<Token, AuthError>)
      requires Valid()
      modifies store
      ensures Valid()
      ensures r == if !raw.Signed? then Err(AccessDenied)
                   else if raw.tok.kind == Refresh || (raw.tok.jti != "" && Open(old(store.revoked), raw.tok.jti, hook))
                     then Err(AccessDenied)
                   else if parse >= raw.tok.exp then Err(Expired) else Ok(raw.tok)
      ensures raw.Signed? && raw.tok in s.issued && s.store == old(store.revoked) && s.now <= hook <= parse ==>
                var s' := Requested(ttl, s, raw.tok, hook, parse);
                && store.revoked == s'.store
                && s'.requests[|s.requests|] == if r.Ok? then Authenticated(raw.tok) else Refused
    {
      var e := Validate(raw, hook);
      if e.Some? {
        return Err(e.value);
      }
      if !raw.Signed? {
        return Err(AccessDenied);
      }
      if parse >= raw.tok.exp {
        return Err(Expired);
      }
      return Ok(raw.tok);
    }

    /** Logs out whatever tokens were presented; what does not parse is passed over. */
    method Logout(access: Raw, refresh: Raw, t: Times, u: Times) returns (r: Result<Option<Token>, AuthError>)
      requires Valid()
      modifies store
      ensures Valid()
      ensures r == if access == Absent && refresh == Absent then Err(Invalid)
                   else Ok(if access.Signed? && t.parse < access.tok.exp then Some(access.tok) else None)
      ensures exists m :: Denied(ttl, store.capacity, old(store.revoked), access, t, m)
                          && Denied(ttl, store.capacity, m, refresh, u, store.revoked)
    {
      if access == Absent && refresh == Absent {
        assert Denied(ttl, store.capacity, store.revoked, access, t, store.revoked);
        return Err(Invalid);
      }
      var uid := None;
      if access != Absent {
        uid := RevokeToken(access, t);
      }
      ghost var between := store.revoked;
      if refresh != Absent {
        var _ := RevokeToken(refresh, u);
      }
      assert Denied(ttl, store.capacity, between, refresh, u, store.revoked);
      return Ok(uid);
    }
  }

  /** A completed logout of a known, unexpired token puts its id on the record the run theorems speak of. */
  lemma LogoutRecords(ttl: int, s: State, raw: Raw, t: Times)
    requires raw.Signed? && Known(s, raw) && s.now <= t.parse < raw.tok.exp && t.Ordered()
    ensures LoggedOff(ttl, s, raw, t).revoked == s.revoked + {raw.tok.jti}
  {
  }

  /** So no request after it authenticates with that token, however the run goes on. */
  lemma LogoutLocksOut(ttl: int, start: int, before: seq<Label>, raw: Raw, t: Times, after: seq<Label>)
    requires var s := Run(ttl, Init(start), before);
             raw.Signed? && Known(s, raw) && s.now <= t.parse < raw.tok.exp && t.Ordered()
    ensures var s := LoggedOff(ttl, Run(ttl, Init(start), before), raw, t);
            var s' := Run(ttl, s, after);
            forall i | |s.requests| <= i < |s'.requests| && s'.requests[i].Authenticated? :: s'.requests[i].tok != raw.tok
  {
    var s := Run(ttl, Init(start), before);
    var labels := LogoutLabels(s, raw.tok, t);
    LogoutIsRun(ttl, s, raw, t);
    RunSplits(ttl, Init(start), before, labels);
    LogoutRecords(ttl, s, raw, t);
    RevokedNeverAuthenticates(ttl, start, before + labels, after, raw.tok.jti);
  }

  function LogoutLabels(s: State, tok: Token, t: Times): seq<Label> {
    [Tick(t.parse), BeginRevoke(tok)] + ([Tick(t.plan), Plan(|s.requests|, t.read)] + [Tick(t.write), StoreRevoke(|s.requests|)])
  }

  lemma LogoutIsRun(ttl: int, s: State, raw: Raw, t: Times)
    requires raw.Signed?
    ensures LoggedOff(ttl, s, raw, t) == Run(ttl, s, LogoutLabels(s, raw.tok, t))
  {
    var n := |s.requests|;
    var a, b, c := [Tick(t.parse), BeginRevoke(raw.tok)], [Tick(t.plan), Plan(n, t.read)], [Tick(t.write), StoreRevoke(n)];
    var s1 := At(ttl, s, t.parse, BeginRevoke(raw.tok));
    var s2 := At(ttl, s1, t.plan, Plan(n, t.read));
    Played(ttl, s, t.parse, BeginRevoke(raw.tok));
    Played(ttl, s1, t.plan, Plan(n, t.read));
    Played(ttl, s2, t.write, StoreRevoke(n));
    RunSplits(ttl, s, a, b + c);
    RunSplits(ttl, s1, b, c);
  }

  lemma {:induction false} RunSplits(ttl: int, s: State, a: seq<Label>, b: seq<Label>)
    ensures Run(ttl, s, a + b) == Run(ttl, Run(ttl, s, a), b)
    decreases |a|
  {
    if a == [] {
      assert [] + b == b;
    } else {
      assert (a + b)[1..] == a[1..] + b;
      RunSplits(ttl, Next(ttl, s, a[0]), a[1..], b);
    }
  }
}
