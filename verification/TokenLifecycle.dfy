/** Login, refresh rotation, logout and request authentication over the denylist:
    `admin/service/auth.go`, `admin/service/revocation_validator.go` and the order of the
    checks in `middleware/auth/jwt.go`.

    A signed token is an unforgeable record. Requests interleave at every clock reading and
    store call; a run is any sequence of labels. The store is the bounded one, in runs where
    it never evicts (`NoEvictionFunction` says when). */
module TokenLifecycle {
  import opened TokenStore

  const SECOND: int := 1000000000
  const REFRESH_TTL: int := 48 * 60 * 60 * SECOND

  datatype Kind = Access | Refresh

  /** `chain` is the login a token descends from; the program has no such field. */
  datatype Token = Token(jti: string, kind: Kind, chain: nat, exp: int)

  datatype Request =
    | Refreshing(tok: Token)                    // parsed, user and role checked
    | Won(tok: Token)                           // claimed the old jti
    | Minted(tok: Token, refresh: string, access: string)
    | Parsed(tok: Token)                        // revokeToken, after the parse
    | Planned(tok: Token, until: int)
    | LoggedOut(tok: Token)
    | Hooked(tok: Token)                        // passed the Validate hook
    | Authenticated(tok: Token)
    | Refused

  /** `claimed` and `revoked` record which ids a refresh has claimed and which a logout has
      finished denying; no step branches on them. */
  datatype State = State(
    now: int, store: Denials, issued: set<Token>, chains: nat, requests: seq<Request>,
    claimed: set<string>, revoked: set<string>)

  datatype Label =
    | Tick(to: int)
    | Login(refresh: string, access: string)
    | BeginRefresh(tok: Token, userOk: bool)
    | Claiming(request: nat)
    | Mint(request: nat, refresh: string, access: string, ok: bool)
    | BeginRevoke(tok: Token)
    | Plan(request: nat, read: int)   // the clock is read twice; `read` is the first reading
    | StoreRevoke(request: nat)
    | BeginAuth(tok: Token)
    | FinishAuth(request: nat)

  // ----- the store without eviction -----

  function StoreAfter(m: Denials, op: Op, now: int): Denials {
    if Writes(m, op, now) then Swept(m, now)[op.jti := op.until]
    else if op.Query? && op.jti != "" && op.jti in m && m[op.jti] <= now then m - {op.jti}
    else m
  }

  /** While the live ids, the new one included, fit the capacity, the bounded store's only
      possible step is this function. */
  lemma NoEvictionFunction(capacity: nat, m: Denials, e: Event, m': Denials)
    requires Step(capacity, m, e, m')
    requires Writes(m, e.op, e.now) ==> |Swept(m, e.now)[e.op.jti := e.op.until]| <= capacity
    ensures m' == StoreAfter(m, e.op, e.now)
  {
    if Writes(m, e.op, e.now) {
      PutSize(Swept(m, e.now), e.op.jti, e.op.until);
      assert !Evicts(capacity, m, e.op.jti, e.now);
    }
  }

  // ----- steps -----

  /** NumericDate keeps whole seconds. */
  function Expiry(now: int, ttl: int): int { (now + ttl) / SECOND * SECOND }

  predicate Unused(s: State, jti: string) { jti != "" && forall t | t in s.issued :: t.jti != jti }

  /** A uuid is new to every token issued before. */
  predicate FreshPair(s: State, refresh: string, access: string) {
    Unused(s, refresh) && Unused(s, access) && refresh != access
  }

  function Pair(s: State, ttl: int, chain: nat, refresh: string, access: string): set<Token> {
    {Token(refresh, Refresh, chain, Expiry(s.now, REFRESH_TTL)), Token(access, Access, chain, Expiry(s.now, ttl))}
  }

  function Move(s: State, i: nat, r: Request): State
    requires i < |s.requests|
  {
    s.(requests := s.requests[i := r])
  }

  /** `ttl` is the access-token lifetime; a label that does not apply changes nothing. */
  function Next(ttl: int, s: State, l: Label): State {
    match l
    case Tick(to) => if to >= s.now then s.(now := to) else s
    case Login(refresh, access) =>
      if FreshPair(s, refresh, access) then
        s.(issued := s.issued + Pair(s, ttl, s.chains, refresh, access), chains := s.chains + 1)
      else s
    case BeginRefresh(tok, userOk) =>
      if tok !in s.issued then s
      else
        var ok := s.now < tok.exp && tok.kind == Refresh && userOk;
        s.(requests := s.requests + [if ok then Refreshing(tok) else Refused])
    case Claiming(i) =>
      if i >= |s.requests| || !s.requests[i].Refreshing? then s
      else
        var tok := s.requests[i].tok;
        var op := Claim(tok.jti, tok.exp);
        var won := Answer(s.store, op, s.now);
        Move(s, i, if won then Won(tok) else Refused).(
          store := StoreAfter(s.store, op, s.now), claimed := if won then s.claimed + {tok.jti} else s.claimed)
    case Mint(i, refresh, access, ok) =>
      if i >= |s.requests| || !s.requests[i].Won? then s
      else if !ok then Move(s, i, Refused)
      else if !FreshPair(s, refresh, access) then s
      else
        var tok := s.requests[i].tok;
        Move(s, i, Minted(tok, refresh, access)).(issued := s.issued + Pair(s, ttl, tok.chain, refresh, access))
    case BeginRevoke(tok) =>
      if tok !in s.issued then s
      else s.(requests := s.requests + [if s.now < tok.exp then Parsed(tok) else Refused])
    case Plan(i, read) =>
      if i >= |s.requests| || !s.requests[i].Parsed? then s
      else
        var tok := s.requests[i].tok;
        Move(s, i, Planned(tok, if tok.exp > s.now then tok.exp else read + ttl))
    case StoreRevoke(i) =>
      if i >= |s.requests| || !s.requests[i].Planned? then s
      else
        var tok := s.requests[i].tok;
        Move(s, i, LoggedOut(tok)).(
          store := StoreAfter(s.store, Revoke(tok.jti, s.requests[i].until), s.now), revoked := s.revoked + {tok.jti})
    case BeginAuth(tok) =>
      if tok !in s.issued then s
      else
        var denied := tok.kind == Refresh || Answer(s.store, Query(tok.jti), s.now);
        s.(store := if tok.kind == Refresh then s.store else StoreAfter(s.store, Query(tok.jti), s.now),
           requests := s.requests + [if denied then Refused else Hooked(tok)])
    case FinishAuth(i) =>
      if i >= |s.requests| || !s.requests[i].Hooked? then s
      else Move(s, i, if s.now < s.requests[i].tok.exp then Authenticated(s.requests[i].tok) else Refused)
  }

  function Run(ttl: int, s: State, ls: seq<Label>): State
    decreases |ls|
  {
    if ls == [] then s else Run(ttl, Next(ttl, s, ls[0]), ls[1..])
  }

  function Init(now: int): State { State(now, map[], {}, 0, [], {}, {}) }

  // ----- what is issued, and for how long -----

  /** The expiry is a whole second, short of the lifetime by less than one: 48 hours for a
      refresh token, the configured one for an access token. */
  ghost predicate Lasts(t: Token, from: int, ttl: int) {
    var lifetime := if t.kind == Refresh then 172_800 * 1_000_000_000 else ttl;
    t.exp % 1_000_000_000 == 0 && from + lifetime - 1_000_000_000 < t.exp <= from + lifetime
  }

  /** The step adds one refresh and one access token of that chain, with those ids. */
  ghost predicate PairIssued(s: State, s': State, ttl: int, chain: nat, refresh: string, access: string) {
    exists r: Token, a: Token ::
      && s'.issued == s.issued + {r, a} && r !in s.issued && a !in s.issued
      && r.kind == Refresh && r.jti == refresh && r.chain == chain && Lasts(r, s.now, ttl)
      && a.kind == Access && a.jti == access && a.chain == chain && Lasts(a, s.now, ttl)
  }

  lemma PairIsIssued(ttl: int, s: State, s': State, chain: nat, refresh: string, access: string)
    requires FreshPair(s, refresh, access) && s'.issued == s.issued + Pair(s, ttl, chain, refresh, access)
    ensures PairIssued(s, s', ttl, chain, refresh, access)
  {
    var r := Token(refresh, Refresh, chain, Expiry(s.now, REFRESH_TTL));
    var a := Token(access, Access, chain, Expiry(s.now, ttl));
    assert Lasts(r, s.now, ttl) && Lasts(a, s.now, ttl);
    assert s'.issued == s.issued + {r, a};
  }

  /** Tokens come in pairs from logins, each starting a chain, and from refreshes that won their
      claim, which stay on theirs; no other step issues any. */
  lemma StepIssues(ttl: int, s: State, l: Label)
    ensures var s' := Next(ttl, s, l);
            match l
            case Login(refresh, access) =>
              if FreshPair(s, refresh, access) then PairIssued(s, s', ttl, s.chains, refresh, access) && s'.chains == s.chains + 1
              else s'.issued == s.issued
            case Mint(i, refresh, access, ok) =>
              if i < |s.requests| && s.requests[i].Won? && ok && FreshPair(s, refresh, access)
                then PairIssued(s, s', ttl, s.requests[i].tok.chain, refresh, access)
              else s'.issued == s.issued
            case _ => s'.issued == s.issued
  {
    var s' := Next(ttl, s, l);
    match l
    case Login(refresh, access) =>
      if FreshPair(s, refresh, access) { PairIsIssued(ttl, s, s', s.chains, refresh, access); }
    case Mint(i, refresh, access, ok) =>
      if i < |s.requests| && s.requests[i].Won? && ok && FreshPair(s, refresh, access) {
        PairIsIssued(ttl, s, s', s.requests[i].tok.chain, refresh, access);
      }
    case _ =>
  }

  /** In every run each token was issued at some instant not after now, and lasts from then. */
  lemma {:induction false} RunIssues(ttl: int, start: int, ls: seq<Label>)
    ensures forall t | t in Run(ttl, Init(start), ls).issued ::
              exists from :: start <= from <= Run(ttl, Init(start), ls).now && Lasts(t, from, ttl)
  {
    IssuedLast(ttl, start, Init(start), ls);
  }

  lemma {:induction false} IssuedLast(ttl: int, start: int, s: State, ls: seq<Label>)
    requires start <= s.now && forall t | t in s.issued :: exists from :: start <= from <= s.now && Lasts(t, from, ttl)
    ensures var s' := Run(ttl, s, ls);
            start <= s'.now && forall t | t in s'.issued :: exists from :: start <= from <= s'.now && Lasts(t, from, ttl)
    decreases |ls|
  {
    if ls != [] {
      var next := Next(ttl, s, ls[0]);
      StepIssues(ttl, s, ls[0]);
      assert s.now <= next.now;
      forall t | t in next.issued ensures exists from :: start <= from <= next.now && Lasts(t, from, ttl) {
        if t in s.issued {
          var from :| start <= from <= s.now && Lasts(t, from, ttl);
          assert start <= from <= next.now;
        } else {
          assert Lasts(t, s.now, ttl);
        }
      }
      IssuedLast(ttl, start, next, ls[1..]);
    }
  }

  // ----- what every step keeps -----

  /** A token that can never be claimed or pass the hook in time again. */
  ghost predicate Spent(s: State, t: Token) {
    s.now >= t.exp || (t.jti in s.store && s.store[t.jti] >= t.exp)
  }

  ghost predicate TokensOk(s: State) {
    && (forall t | t in s.issued :: t.jti != "" && t.chain < s.chains)
    && (forall t, u | t in s.issued && u in s.issued && t.jti == u.jti :: t == u)
    && (forall i | 0 <= i < |s.requests| && !s.requests[i].Refused? :: s.requests[i].tok in s.issued)
    && (forall i | 0 <= i < |s.requests| && (s.requests[i].Refreshing? || s.requests[i].Won?) ::
          s.requests[i].tok.kind == Refresh)
  }

  ghost predicate DenialsOk(s: State) {
    && (forall t | t in s.issued && t.jti in s.claimed + s.revoked :: Spent(s, t))
    && (forall i | 0 <= i < |s.requests| && s.requests[i].Planned? ::
          s.requests[i].until == s.requests[i].tok.exp || s.now >= s.requests[i].tok.exp)
  }

  ghost predicate Succeeded(r: Request) { r.Won? || r.Minted? }

  /** Each claim succeeded for one request only. */
  ghost predicate ClaimsOk(s: State) {
    && (forall i | 0 <= i < |s.requests| && Succeeded(s.requests[i]) :: s.requests[i].tok.jti in s.claimed)
    && (forall i, j | 0 <= i < j < |s.requests| && Succeeded(s.requests[i]) && Succeeded(s.requests[j]) ::
          s.requests[i].tok != s.requests[j].tok)
  }

  /** A refresh token nobody has claimed yet. */
  ghost predicate Head(s: State, t: Token) { t in s.issued && t.kind == Refresh && t.jti !in s.claimed }

  /** Every chain has one head at most: an unclaimed refresh token, or a claim about to mint. */
  ghost predicate ChainsOk(s: State) {
    && (forall t, u | Head(s, t) && Head(s, u) && t.chain == u.chain :: t == u)
    && (forall i, t | 0 <= i < |s.requests| && s.requests[i].Won? && Head(s, t) :: s.requests[i].tok.chain != t.chain)
    && (forall i, j | 0 <= i < j < |s.requests| && s.requests[i].Won? && s.requests[j].Won? ::
          s.requests[i].tok.chain != s.requests[j].tok.chain)
  }

  ghost predicate Inv(s: State) { TokensOk(s) && DenialsOk(s) && ClaimsOk(s) && ChainsOk(s) }

  lemma StoreKeepsSpent(s: State, op: Op, t: Token)
    requires Spent(s, t)
    requires !op.Query? && op.jti == t.jti ==> op.until >= t.exp || s.now >= t.exp
    ensures Spent(s.(store := StoreAfter(s.store, op, s.now)), t)
  {
  }

  lemma StoreMakesSpent(s: State, op: Op, t: Token)
    requires !op.Query? && op.jti == t.jti && op.jti != "" && (op.until == t.exp || s.now >= t.exp)
    requires op.Claim? ==> Answer(s.store, op, s.now)
    ensures Spent(s.(store := StoreAfter(s.store, op, s.now)), t)
  {
  }

  /** A new pair on `chain`; a refresh heads a chain that has no other head. */
  lemma IssueKeepsInv(ttl: int, s: State, s': State, chain: nat, refresh: string, access: string)
    requires Inv(s) && FreshPair(s, refresh, access) && chain < s'.chains && s.chains <= s'.chains
    requires s'.issued == s.issued + Pair(s, ttl, chain, refresh, access)
    requires s'.now == s.now && s'.store == s.store && s'.claimed == s.claimed && s'.revoked == s.revoked
    requires s'.requests == s.requests && refresh !in s.claimed && refresh !in s.revoked
    requires access !in s.claimed && access !in s.revoked
    requires forall t | Head(s, t) :: t.chain != chain
    requires forall i | 0 <= i < |s.requests| && s.requests[i].Won? :: s.requests[i].tok.chain != chain
    ensures Inv(s')
  {
    var r := Token(refresh, Refresh, chain, Expiry(s.now, REFRESH_TTL));
    assert forall t | Head(s', t) :: Head(s, t) || t == r;
    forall t | t in s'.issued && t.jti in s'.claimed + s'.revoked ensures Spent(s', t) {
      assert t in s.issued && Spent(s, t);
    }
  }

  /** Every id on record belongs to an issued token. */
  ghost predicate RecordsIssued(s: State) {
    forall j | j in s.claimed + s.revoked :: exists t :: t in s.issued && t.jti == j
  }

  lemma LoginKeepsInv(ttl: int, s: State, refresh: string, access: string)
    requires Inv(s) && RecordsIssued(s)
    ensures Inv(Next(ttl, s, Login(refresh, access)))
  {
    if FreshPair(s, refresh, access) {
      IssueKeepsInv(ttl, s, Next(ttl, s, Login(refresh, access)), s.chains, refresh, access);
    }
  }

  lemma RetireKeepsInv(s: State, i: nat, r: Request)
    requires Inv(s) && i < |s.requests|
    requires r.Refused? || ((r.Authenticated? || r.LoggedOut? || r.Planned? || r.Minted?) && r.tok in s.issued)
    requires r.Planned? ==> r.until == r.tok.exp || s.now >= r.tok.exp
    requires r.Minted? ==> s.requests[i] == Won(r.tok)
    ensures Inv(Move(s, i, r))
  {
    var s' := Move(s, i, r);
    assert forall j | 0 <= j < |s.requests| && j != i :: s'.requests[j] == s.requests[j];
    assert forall t :: Head(s', t) <==> Head(s, t);
    forall t | t in s'.issued && t.jti in s'.claimed + s'.revoked ensures Spent(s', t) {
      assert Spent(s, t);
    }
  }

  lemma MintKeepsInv(ttl: int, s: State, i: nat, refresh: string, access: string, ok: bool)
    requires Inv(s) && RecordsIssued(s)
    ensures Inv(Next(ttl, s, Mint(i, refresh, access, ok)))
  {
    if i < |s.requests| && s.requests[i].Won? {
      var tok := s.requests[i].tok;
      if !ok {
        RetireKeepsInv(s, i, Refused);
      } else if FreshPair(s, refresh, access) {
        var mid := Move(s, i, Minted(tok, refresh, access));
        RetireKeepsInv(s, i, Minted(tok, refresh, access));
        assert forall t | Head(mid, t) :: Head(s, t);
        assert forall j | 0 <= j < |s.requests| && j != i :: mid.requests[j] == s.requests[j];
        IssueKeepsInv(ttl, mid, Next(ttl, s, Mint(i, refresh, access, ok)), tok.chain, refresh, access);
      }
    }
  }

  lemma ClaimKeepsInv(ttl: int, s: State, i: nat)
    requires Inv(s)
    ensures Inv(Next(ttl, s, Claiming(i)))
  {
    if i < |s.requests| && s.requests[i].Refreshing? {
      var tok := s.requests[i].tok;
      var op := Claim(tok.jti, tok.exp);
      if !Answer(s.store, op, s.now) {
        RetireKeepsInv(s, i, Refused);
      } else {
        assert !Spent(s, tok);
        ClaimKeepsDenials(ttl, s, i);
        ClaimKeepsChains(ttl, s, i);
      }
    }
  }

  predicate Claimable(s: State, i: nat) {
    i < |s.requests| && s.requests[i].Refreshing? && Answer(s.store, Claim(s.requests[i].tok.jti, s.requests[i].tok.exp), s.now)
  }

  lemma ClaimKeepsDenials(ttl: int, s: State, i: nat)
    requires Inv(s) && Claimable(s, i) && !Spent(s, s.requests[i].tok)
    ensures TokensOk(Next(ttl, s, Claiming(i))) && DenialsOk(Next(ttl, s, Claiming(i)))
  {
    var tok := s.requests[i].tok;
    var op, s' := Claim(tok.jti, tok.exp), Next(ttl, s, Claiming(i));
    assert forall j | 0 <= j < |s.requests| && j != i :: s'.requests[j] == s.requests[j];
    StoreMakesSpent(s, op, tok);
    forall t | t in s'.issued && t.jti in s'.claimed + s'.revoked ensures Spent(s', t) {
      if t != tok {
        assert Spent(s, t);
        StoreKeepsSpent(s, op, t);
      }
    }
  }

  /** The token claimed was its chain's head; the claim takes its place. */
  lemma ClaimKeepsChains(ttl: int, s: State, i: nat)
    requires Inv(s) && Claimable(s, i) && !Spent(s, s.requests[i].tok)
    ensures ClaimsOk(Next(ttl, s, Claiming(i))) && ChainsOk(Next(ttl, s, Claiming(i)))
  {
    var tok, s' := s.requests[i].tok, Next(ttl, s, Claiming(i));
    assert Head(s, tok);
    assert forall j | 0 <= j < |s.requests| && j != i :: s'.requests[j] == s.requests[j];
    assert forall t | Head(s', t) :: Head(s, t) && t != tok;
  }

  lemma StoreRevokeKeepsInv(ttl: int, s: State, i: nat)
    requires Inv(s)
    ensures Inv(Next(ttl, s, StoreRevoke(i)))
  {
    if i < |s.requests| && s.requests[i].Planned? {
      var tok := s.requests[i].tok;
      var op := Revoke(tok.jti, s.requests[i].until);
      var mid := Move(s, i, LoggedOut(tok));
      RetireKeepsInv(s, i, LoggedOut(tok));
      var s' := Next(ttl, s, StoreRevoke(i));
      assert forall t :: Head(s', t) <==> Head(mid, t);
      StoreMakesSpent(mid, op, tok);
      forall t | t in s'.issued && t.jti in s'.claimed + s'.revoked ensures Spent(s', t) {
        if t != tok {
          assert Spent(mid, t);
          StoreKeepsSpent(mid, op, t);
        }
      }
    }
  }

  lemma PlanKeepsInv(ttl: int, s: State, i: nat, read: int)
    requires Inv(s)
    ensures Inv(Next(ttl, s, Plan(i, read)))
  {
    if i < |s.requests| && s.requests[i].Parsed? {
      var tok := s.requests[i].tok;
      var r := Planned(tok, if tok.exp > s.now then tok.exp else read + ttl);
      assert tok in s.issued;
      RetireKeepsInv(s, i, r);
      assert Next(ttl, s, Plan(i, read)) == Move(s, i, r);
    }
  }

  lemma QueryKeepsInv(s: State, jti: string)
    requires Inv(s)
    ensures Inv(s.(store := StoreAfter(s.store, Query(jti), s.now)))
  {
    var s' := s.(store := StoreAfter(s.store, Query(jti), s.now));
    assert forall t :: Head(s', t) <==> Head(s, t);
    forall t | t in s'.issued && t.jti in s'.claimed + s'.revoked ensures Spent(s', t) {
      assert Spent(s, t);
      StoreKeepsSpent(s, Query(jti), t);
    }
  }

  ghost predicate Begins(s: State, r: Request) {
    && (r.Refused? || ((r.Refreshing? || r.Parsed? || r.Hooked?) && r.tok in s.issued))
    && (r.Refreshing? ==> r.tok.kind == Refresh)
  }

  lemma BeginKeepsRequests(s: State, r: Request)
    requires Inv(s) && Begins(s, r)
    ensures var s' := s.(requests := s.requests + [r]); TokensOk(s') && ClaimsOk(s')
  {
    var s' := s.(requests := s.requests + [r]);
    assert forall j | 0 <= j < |s'.requests| :: s'.requests[j] == if j < |s.requests| then s.requests[j] else r;
  }

  lemma BeginKeepsInv(s: State, r: Request)
    requires Inv(s) && Begins(s, r)
    ensures Inv(s.(requests := s.requests + [r]))
  {
    var s' := s.(requests := s.requests + [r]);
    BeginKeepsRequests(s, r);
    assert forall j | 0 <= j < |s.requests| :: s'.requests[j] == s.requests[j];
    assert forall t :: Head(s', t) <==> Head(s, t);
    forall t | t in s'.issued && t.jti in s'.claimed + s'.revoked ensures Spent(s', t) {
      assert Spent(s, t);
    }
    assert DenialsOk(s');
    BeginKeepsChains(s, r);
  }

  lemma BeginKeepsChains(s: State, r: Request)
    requires ChainsOk(s) && !r.Won?
    ensures ChainsOk(s.(requests := s.requests + [r]))
  {
    var s' := s.(requests := s.requests + [r]);
    assert forall t :: Head(s', t) <==> Head(s, t);
    assert forall j | 0 <= j < |s'.requests| && s'.requests[j].Won? :: j < |s.requests| && s'.requests[j] == s.requests[j];
  }

  lemma TickKeepsInv(s: State, to: int)
    requires Inv(s) && to >= s.now
    ensures Inv(s.(now := to))
  {
    var s' := s.(now := to);
    assert forall t :: Head(s', t) <==> Head(s, t);
    forall t | t in s'.issued && t.jti in s'.claimed + s'.revoked ensures Spent(s', t) {
      assert Spent(s, t);
    }
  }

  lemma NextKeepsInv(ttl: int, s: State, l: Label)
    requires Inv(s) && RecordsIssued(s)
    ensures Inv(Next(ttl, s, l))
  {
    match l
    case Tick(to) => if to >= s.now { TickKeepsInv(s, to); }
    case Login(refresh, access) => LoginKeepsInv(ttl, s, refresh, access);
    case BeginRefresh(tok, userOk) =>
      if tok in s.issued {
        BeginKeepsInv(s, if s.now < tok.exp && tok.kind == Refresh && userOk then Refreshing(tok) else Refused);
      }
    case Claiming(i) => ClaimKeepsInv(ttl, s, i);
    case Mint(i, refresh, access, ok) => MintKeepsInv(ttl, s, i, refresh, access, ok);
    case BeginRevoke(tok) =>
      if tok in s.issued { BeginKeepsInv(s, if s.now < tok.exp then Parsed(tok) else Refused); }
    case Plan(i, read) => PlanKeepsInv(ttl, s, i, read);
    case StoreRevoke(i) => StoreRevokeKeepsInv(ttl, s, i);
    case BeginAuth(tok) =>
      if tok in s.issued {
        var s' := Next(ttl, s, l);
        QueryKeepsInv(s, tok.jti);
        BeginKeepsInv(s.(store := s'.store), s'.requests[|s.requests|]);
      }
    case FinishAuth(i) =>
      if i < |s.requests| && s.requests[i].Hooked? {
        RetireKeepsInv(s, i, Next(ttl, s, l).requests[i]);
      }
  }

  lemma NextKeepsRecords(ttl: int, s: State, l: Label)
    requires Inv(s) && RecordsIssued(s)
    ensures RecordsIssued(Next(ttl, s, l))
  {
    var s' := Next(ttl, s, l);
    forall j | j in s'.claimed + s'.revoked ensures exists t :: t in s'.issued && t.jti == j {
      if j in s.claimed + s.revoked {
        var t :| t in s.issued && t.jti == j;
        assert t in s'.issued;
      } else {
        assert s.requests[l.request].tok in s'.issued;
      }
    }
  }

  lemma {:induction false} RunKeepsInv(ttl: int, s: State, ls: seq<Label>)
    requires Inv(s) && RecordsIssued(s)
    ensures Inv(Run(ttl, s, ls)) && RecordsIssued(Run(ttl, s, ls))
    decreases |ls|
  {
    if ls != [] {
      NextKeepsInv(ttl, s, ls[0]);
      NextKeepsRecords(ttl, s, ls[0]);
      RunKeepsInv(ttl, Next(ttl, s, ls[0]), ls[1..]);
    }
  }

  // ----- refresh tokens form chains -----

  /** The token could be exchanged now: the parse and the claim would succeed. */
  ghost predicate Exchangeable(s: State, t: Token) {
    t in s.issued && t.kind == Refresh && s.now < t.exp && t.jti != "" && !Open(s.store, t.jti, s.now)
  }

  /** In every run, a refresh token has at most one successor pair, and each login's chain has
      at most one token that can still be exchanged. */
  lemma RotationIsLinear(ttl: int, start: int, ls: seq<Label>)
    ensures var s := Run(ttl, Init(start), ls);
            && (forall i, j | 0 <= i < j < |s.requests| && s.requests[i].Minted? && s.requests[j].Minted? ::
                  s.requests[i].tok.jti != s.requests[j].tok.jti)
            && (forall t, u | Exchangeable(s, t) && Exchangeable(s, u) && t.chain == u.chain :: t == u)
  {
    var s := Run(ttl, Init(start), ls);
    RunKeepsInv(ttl, Init(start), ls);
    forall t | Exchangeable(s, t) ensures Head(s, t) {
      assert !Spent(s, t);
    }
    forall i, j | 0 <= i < j < |s.requests| && s.requests[i].Minted? && s.requests[j].Minted?
      ensures s.requests[i].tok.jti != s.requests[j].tok.jti
    {
      assert Succeeded(s.requests[i]) && Succeeded(s.requests[j]);
    }
  }

  /** A refresh of the id was minted in the later state that was not in the earlier one. */
  ghost predicate MintedSince(s: State, s': State, jti: string) {
    exists i :: 0 <= i < |s'.requests| && s'.requests[i].Minted? && s'.requests[i].tok.jti == jti
                && !(i < |s.requests| && s.requests[i].Minted?)
  }

  ghost predicate MintsIn(ttl: int, s: State, after: seq<Label>, jti: string) { MintedSince(s, Run(ttl, s, after), jti) }

  /** A refresh has won the claim of the id and not yet minted. */
  ghost predicate AboutToMint(s: State, jti: string) {
    exists i :: 0 <= i < |s.requests| && s.requests[i].Won? && s.requests[i].tok.jti == jti
  }

  lemma MintedBefore(ttl: int, s: State, l: Label, i: nat)
    ensures var rs, rs' := s.requests, Next(ttl, s, l).requests;
            i < |rs'| && rs'[i].Minted? ==> i < |rs| && (rs[i] == rs'[i] || rs[i] == Won(rs'[i].tok))
  {
  }

  /** After a logout no step claims the id, and nothing that had not claimed it mints. */
  lemma StepMintsNothing(ttl: int, before: State, s: State, l: Label, jti: string)
    requires Inv(s) && jti in s.revoked && !AboutToMint(s, jti) && !MintedSince(before, s, jti)
    ensures var s' := Next(ttl, s, l); jti in s'.revoked && !AboutToMint(s', jti) && !MintedSince(before, s', jti)
  {
    var s' := Next(ttl, s, l);
    forall i | 0 <= i < |s'.requests| && s'.requests[i].Won? ensures s'.requests[i].tok.jti != jti {
      if i < |s.requests| && s.requests[i].Refreshing? {
        assert s.requests[i].tok.jti == jti ==> Spent(s, s.requests[i].tok);
      }
    }
    forall i | 0 <= i < |s'.requests| && s'.requests[i].Minted? && s'.requests[i].tok.jti == jti
      ensures i < |before.requests| && before.requests[i].Minted?
    {
      MintedBefore(ttl, s, l, i);
    }
  }

  lemma {:induction false} RunMintsNothing(ttl: int, before: State, s: State, ls: seq<Label>, jti: string)
    requires Inv(s) && RecordsIssued(s) && jti in s.revoked && !AboutToMint(s, jti) && !MintedSince(before, s, jti)
    ensures !MintedSince(before, Run(ttl, s, ls), jti)
    decreases |ls|
  {
    if ls != [] {
      NextKeepsInv(ttl, s, ls[0]);
      NextKeepsRecords(ttl, s, ls[0]);
      StepMintsNothing(ttl, before, s, ls[0], jti);
      RunMintsNothing(ttl, before, Next(ttl, s, ls[0]), ls[1..], jti);
    }
  }

  // ids that are new: longer than every id in use

  lemma {:induction false} LongerThanAll(used: set<Token>) returns (n: nat)
    ensures forall t | t in used :: |t.jti| < n
    decreases used
  {
    n := 0;
    if used != {} {
      var t :| t in used;
      n := LongerThanAll(used - {t});
      assert forall u | u in used :: u in used - {t} || u == t;
      if |t.jti| >= n { n := |t.jti| + 1; }
    }
  }

  lemma NewPair(s: State) returns (refresh: string, access: string)
    ensures FreshPair(s, refresh, access)
  {
    var n := LongerThanAll(s.issued);
    refresh, access := seq(n + 1, _ => 'r'), seq(n + 1, _ => 'a');
    assert refresh[0] != access[0];
  }

  /** A logout that has completed is followed by a successor of the token it named exactly if
      some refresh had won its claim before and has not minted yet. */
  lemma MintsAfterLogoutExactly(ttl: int, start: int, before: seq<Label>, jti: string)
    requires jti in Run(ttl, Init(start), before).revoked
    ensures var s := Run(ttl, Init(start), before);
            (exists after :: MintsIn(ttl, s, after, jti)) <==> AboutToMint(s, jti)
  {
    var s := Run(ttl, Init(start), before);
    RunKeepsInv(ttl, Init(start), before);
    if AboutToMint(s, jti) {
      var i :| 0 <= i < |s.requests| && s.requests[i].Won? && s.requests[i].tok.jti == jti;
      var l := WonMints(ttl, s, i);
      assert MintsIn(ttl, s, [l], jti);
    } else {
      forall after ensures !MintsIn(ttl, s, after, jti) {
        RunMintsNothing(ttl, s, s, after, jti);
      }
    }
  }

  lemma RunOne(ttl: int, s: State, l: Label)
    ensures Run(ttl, s, [l]) == Next(ttl, s, l)
  {
    assert [l][1..] == [];
  }

  /** A won claim can always go on to mint, and so lengthen its chain. */
  lemma WonMints(ttl: int, s: State, i: nat) returns (l: Label)
    requires i < |s.requests| && s.requests[i].Won?
    ensures var s' := Next(ttl, s, l);
            && i < |s'.requests| && s'.requests[i].Minted? && s'.requests[i].tok == s.requests[i].tok
            && Lengthened(s, s', s.requests[i].tok.chain)
    ensures Run(ttl, s, [l]) == Next(ttl, s, l)
  {
    var refresh, access := NewPair(s);
    var tok := s.requests[i].tok;
    l := Mint(i, refresh, access, true);
    RunOne(ttl, s, l);
    var u := Token(refresh, Refresh, tok.chain, Expiry(s.now, REFRESH_TTL));
    assert u in Next(ttl, s, l).issued && u !in s.issued;
  }

  /** Logging out does not always stop the successor: a refresh that wins its claim between
      the logout's parse and its write mints after the logout has completed. */
  lemma LogoutRace(ttl: int, start: int)
    ensures exists before :: var s := Run(ttl, Init(start), before); "r" in s.revoked && AboutToMint(s, "r")
  {
    var t := Token("r", Refresh, 0, Expiry(start, REFRESH_TTL));
    var ls := [Login("r", "a"), BeginRefresh(t, true), BeginRevoke(t), Plan(1, start), Claiming(0), StoreRevoke(1)];
    var s1 := Next(ttl, Init(start), ls[0]);
    assert t in s1.issued && s1.store == map[] && s1.requests == [];
    RaceRuns(ttl, s1, t);
    RunSix(ttl, Init(start), ls);
  }

  lemma RaceRuns(ttl: int, s1: State, t: Token)
    requires t in s1.issued && t.kind == Refresh && t.jti != "" && s1.now < t.exp && s1.store == map[] && s1.requests == []
    ensures var s3 := Next(ttl, Next(ttl, Next(ttl, s1, BeginRefresh(t, true)), BeginRevoke(t)), Plan(1, s1.now));
            var s5 := Next(ttl, Next(ttl, s3, Claiming(0)), StoreRevoke(1));
            t.jti in s5.revoked && AboutToMint(s5, t.jti)
  {
    var s2 := Next(ttl, Next(ttl, s1, BeginRefresh(t, true)), BeginRevoke(t));
    assert s2 == s1.(requests := [Refreshing(t), Parsed(t)]);
    var s3 := Next(ttl, s2, Plan(1, s1.now));
    assert s3 == s1.(requests := [Refreshing(t), Planned(t, t.exp)]);
    var s4 := Next(ttl, s3, Claiming(0));
    assert s4.requests == [Won(t), Planned(t, t.exp)];
    assert Next(ttl, s4, StoreRevoke(1)).requests[0] == Won(t);
  }

  lemma RunSix(ttl: int, s: State, ls: seq<Label>)
    requires |ls| == 6
    ensures Run(ttl, s, ls)
         == Next(ttl, Next(ttl, Next(ttl, Next(ttl, Next(ttl, Next(ttl, s, ls[0]), ls[1]), ls[2]), ls[3]), ls[4]), ls[5])
  {
    var s1 := Next(ttl, s, ls[0]);
    var s2 := Next(ttl, s1, ls[1]);
    var s3 := Next(ttl, s2, ls[2]);
    assert Run(ttl, s, ls) == Run(ttl, s1, ls[1..]);
    assert Run(ttl, s1, ls[1..]) == Run(ttl, s2, ls[2..]) by { assert ls[1..][1..] == ls[2..]; }
    assert Run(ttl, s2, ls[2..]) == Run(ttl, s3, ls[3..]) by { assert ls[2..][1..] == ls[3..]; }
    RunThree(ttl, s3, ls[3..]);
  }

  lemma RunThree(ttl: int, s: State, ls: seq<Label>)
    requires |ls| == 3
    ensures Run(ttl, s, ls) == Next(ttl, Next(ttl, Next(ttl, s, ls[0]), ls[1]), ls[2])
  {
    var s1 := Next(ttl, s, ls[0]);
    var s2 := Next(ttl, s1, ls[1]);
    assert Run(ttl, s1, ls[1..]) == Run(ttl, s2, ls[2..]) by { assert ls[1..][1..] == ls[2..]; }
    assert ls[2..] == [ls[2]];
    RunOne(ttl, s2, ls[2]);
  }

  // ----- when a chain is over -----

  ghost predicate Lengthened(s: State, s': State, chain: nat) {
    exists u :: u in s'.issued && u !in s.issued && u.chain == chain
  }

  ghost predicate LengthensIn(ttl: int, s: State, after: seq<Label>, chain: nat) { Lengthened(s, Run(ttl, s, after), chain) }

  /** No claim of the chain is about to mint, and none of its tokens can be claimed. */
  ghost predicate Ended(s: State, chain: nat) {
    && (forall i | 0 <= i < |s.requests| && s.requests[i].Won? :: s.requests[i].tok.chain != chain)
    && (forall t | t in s.issued && t.kind == Refresh && t.chain == chain ::
          s.now >= t.exp || t.jti in s.claimed + s.revoked)
  }

  lemma EndedClaims(ttl: int, s: State, l: Label, chain: nat, i: nat)
    requires Inv(s) && Ended(s, chain)
    ensures var rs' := Next(ttl, s, l).requests; i < |rs'| && rs'[i].Won? ==> rs'[i].tok.chain != chain
  {
    if i < |s.requests| && s.requests[i].Refreshing? {
      assert s.requests[i].tok.chain == chain ==> Spent(s, s.requests[i].tok);
    }
  }

  lemma EndedStays(ttl: int, before: State, s: State, l: Label, chain: nat)
    requires Inv(s) && Ended(s, chain) && chain < s.chains && !Lengthened(before, s, chain)
    ensures var s' := Next(ttl, s, l); Ended(s', chain) && chain < s'.chains && !Lengthened(before, s', chain)
  {
    var s' := Next(ttl, s, l);
    assert forall u | u in s'.issued && u.chain == chain :: u in s.issued;
    forall i | 0 <= i < |s'.requests| && s'.requests[i].Won? ensures s'.requests[i].tok.chain != chain {
      EndedClaims(ttl, s, l, chain, i);
    }
  }

  lemma {:induction false} EndedForever(ttl: int, before: State, s: State, ls: seq<Label>, chain: nat)
    requires Inv(s) && RecordsIssued(s) && Ended(s, chain) && chain < s.chains && !Lengthened(before, s, chain)
    ensures !Lengthened(before, Run(ttl, s, ls), chain)
    decreases |ls|
  {
    if ls != [] {
      NextKeepsInv(ttl, s, ls[0]);
      NextKeepsRecords(ttl, s, ls[0]);
      EndedStays(ttl, before, s, ls[0], chain);
      EndedForever(ttl, before, Next(ttl, s, ls[0]), ls[1..], chain);
    }
  }

  lemma EndedNeverLengthens(ttl: int, s: State, chain: nat)
    requires Inv(s) && RecordsIssued(s) && Ended(s, chain) && chain < s.chains
    ensures forall after :: !LengthensIn(ttl, s, after, chain)
  {
    forall after ensures !LengthensIn(ttl, s, after, chain) { EndedForever(ttl, s, s, after, chain); }
  }

  /** The store denies only ids that a refresh claimed or a logout named. */
  ghost predicate StoreRecorded(s: State) { s.store.Keys <= s.claimed + s.revoked }

  lemma {:induction false} RunKeepsStoreRecorded(ttl: int, s: State, ls: seq<Label>)
    requires StoreRecorded(s)
    ensures StoreRecorded(Run(ttl, s, ls))
    decreases |ls|
  {
    if ls != [] {
      NextKeepsStoreRecorded(ttl, s, ls[0]);
      RunKeepsStoreRecorded(ttl, Next(ttl, s, ls[0]), ls[1..]);
    }
  }

  lemma NextKeepsStoreRecorded(ttl: int, s: State, l: Label)
    requires StoreRecorded(s)
    ensures StoreRecorded(Next(ttl, s, l))
  {
  }

  /** An exchangeable token is exchanged by a refresh that nothing interrupts. */
  lemma ExchangeLengthens(ttl: int, s: State, t: Token) returns (after: seq<Label>)
    requires Inv(s) && Exchangeable(s, t)
    ensures LengthensIn(ttl, s, after, t.chain)
  {
    var n := |s.requests|;
    var s1 := Next(ttl, s, BeginRefresh(t, true));
    var s2 := Next(ttl, s1, Claiming(n));
    assert s1.requests[n] == Refreshing(t) && s2.requests[n] == Won(t);
    var l := WonMints(ttl, s2, n);
    after := [BeginRefresh(t, true), Claiming(n), l];
    RunThree(ttl, s, after);
    assert s2.issued == s.issued;
  }

  lemma NoneIsEnded(s: State, chain: nat)
    requires Inv(s) && StoreRecorded(s)
    requires forall i | 0 <= i < |s.requests| && s.requests[i].Won? :: s.requests[i].tok.chain != chain
    requires forall t | Exchangeable(s, t) :: t.chain != chain
    ensures Ended(s, chain)
  {
    forall t | t in s.issued && t.kind == Refresh && t.chain == chain
      ensures s.now >= t.exp || t.jti in s.claimed + s.revoked
    {
      assert !Exchangeable(s, t);
    }
  }

  /** A login's chain can still be lengthened exactly if some claim of it is about to mint or
      some token of it is exchangeable now. */
  lemma ChainLengthensExactly(ttl: int, start: int, before: seq<Label>, chain: nat)
    requires chain < Run(ttl, Init(start), before).chains
    ensures var s := Run(ttl, Init(start), before);
            (exists after :: LengthensIn(ttl, s, after, chain)) <==>
              ((exists i :: 0 <= i < |s.requests| && s.requests[i].Won? && s.requests[i].tok.chain == chain)
               || exists t :: Exchangeable(s, t) && t.chain == chain)
  {
    var s := Run(ttl, Init(start), before);
    RunKeepsInv(ttl, Init(start), before);
    RunKeepsStoreRecorded(ttl, Init(start), before);
    if i :| 0 <= i < |s.requests| && s.requests[i].Won? && s.requests[i].tok.chain == chain {
      var l := WonMints(ttl, s, i);
      assert LengthensIn(ttl, s, [l], chain);
    } else if t :| Exchangeable(s, t) && t.chain == chain {
      var after := ExchangeLengthens(ttl, s, t);
    } else {
      NoneIsEnded(s, chain);
      EndedNeverLengthens(ttl, s, chain);
    }
  }

  /** Once a logout naming the chain's unclaimed refresh token has completed, the chain is over:
      no continuation issues another token of it. */
  lemma LogoutEndsChain(ttl: int, start: int, before: seq<Label>, t: Token, after: seq<Label>)
    requires var s := Run(ttl, Init(start), before); Head(s, t) && t.jti in s.revoked
    ensures var s := Run(ttl, Init(start), before); !LengthensIn(ttl, s, after, t.chain)
  {
    var s := Run(ttl, Init(start), before);
    RunKeepsInv(ttl, Init(start), before);
    assert forall u | u in s.issued && u.kind == Refresh && u.chain == t.chain && u != t :: !Head(s, u);
    EndedNeverLengthens(ttl, s, t.chain);
  }

  // ----- from the denylist to the expiry check -----

  /** The request neither authenticated the id nor still can. */
  ghost predicate Shut(now: int, r: Request, jti: string) {
    match r
    case Authenticated(t) => t.jti != jti
    case Hooked(t) => t.jti == jti ==> now >= t.exp
    case _ => true
  }

  /** Requests begun after the first n are shut. */
  ghost predicate LockedOut(s: State, n: nat, jti: string) {
    jti in s.revoked && forall i | n <= i < |s.requests| :: Shut(s.now, s.requests[i], jti)
  }

  lemma StaysShut(ttl: int, s: State, l: Label, i: nat, jti: string)
    requires Inv(s) && jti in s.revoked && (i < |s.requests| ==> Shut(s.now, s.requests[i], jti))
    ensures var s' := Next(ttl, s, l); i < |s'.requests| ==> Shut(s'.now, s'.requests[i], jti)
  {
    if l.BeginAuth? && l.tok in s.issued {
      assert l.tok.jti == jti ==> Spent(s, l.tok);
    }
  }

  lemma NextKeepsLockedOut(ttl: int, s: State, l: Label, n: nat, jti: string)
    requires Inv(s) && LockedOut(s, n, jti) && n <= |s.requests|
    ensures LockedOut(Next(ttl, s, l), n, jti) && n <= |Next(ttl, s, l).requests|
  {
    var s' := Next(ttl, s, l);
    forall i | n <= i < |s'.requests| ensures Shut(s'.now, s'.requests[i], jti) { StaysShut(ttl, s, l, i, jti); }
  }

  lemma {:induction false} RunKeepsLockedOut(ttl: int, s: State, ls: seq<Label>, n: nat, jti: string)
    requires Inv(s) && RecordsIssued(s) && LockedOut(s, n, jti) && n <= |s.requests|
    ensures LockedOut(Run(ttl, s, ls), n, jti)
    decreases |ls|
  {
    if ls != [] {
      NextKeepsInv(ttl, s, ls[0]);
      NextKeepsRecords(ttl, s, ls[0]);
      NextKeepsLockedOut(ttl, s, ls[0], n, jti);
      RunKeepsLockedOut(ttl, Next(ttl, s, ls[0]), ls[1..], n, jti);
    }
  }

  /** Once a logout has revoked a token, no later request authenticates with it at any time,
      although the store forgets it when it expires. */
  lemma RevokedNeverAuthenticates(ttl: int, start: int, before: seq<Label>, after: seq<Label>, jti: string)
    requires jti in Run(ttl, Init(start), before).revoked
    ensures var s := Run(ttl, Init(start), before);
            var s' := Run(ttl, s, after);
            forall i | |s.requests| <= i < |s'.requests| && s'.requests[i].Authenticated? :: s'.requests[i].tok.jti != jti
  {
    var s := Run(ttl, Init(start), before);
    RunKeepsInv(ttl, Init(start), before);
    RunKeepsLockedOut(ttl, s, after, |s.requests|, jti);
  }

  /** The middleware's order: denylist at `first`, expiry (RFC 7519, section 4.1.4) at `second`. */
  predicate HookThenParse(m: Denials, t: Token, first: int, second: int) {
    !Answer(m, Query(t.jti), first) && second < t.exp
  }

  predicate ParseThenHook(m: Denials, t: Token, first: int, second: int) {
    first < t.exp && !Answer(m, Query(t.jti), second)
  }

  /** A token denied until it expires never passes the middleware's order; the opposite
      order lets it through exactly when the expiry falls between the two checks. */
  lemma OrderMatters(m: Denials, t: Token, first: int, second: int)
    requires t.jti != "" && t.jti in m && m[t.jti] == t.exp && first <= second
    ensures !HookThenParse(m, t, first, second)
    ensures ParseThenHook(m, t, first, second) <==> first < t.exp <= second
  {
  }
}
