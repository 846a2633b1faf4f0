/** The bounded in-memory denylist of `admin/service/memory_token_store.go`, and the
    unbounded denylist it stands for. Instants are nanoseconds. */
module TokenStore {
  import opened Sets

  /** jti -> the instant until which it is denied. */
  type Denials = map<string, int>

  function Swept(m: Denials, now: int): Denials {
    map j | j in m && m[j] > now :: m[j]
  }

  /** The ids denied at `now`. */
  function Live(m: Denials, now: int): set<string> { Swept(m, now).Keys }

  /** Entries nothing in the map outlives: what eviction may pick; ties are arbitrary. */
  ghost predicate Soonest(m: Denials, victim: string) {
    victim in m && forall j | j in m :: m[victim] <= m[j]
  }

  /** Room is made only when the id is new and the swept map is full. */
  predicate Evicts(capacity: nat, m: Denials, jti: string, now: int) {
    jti !in Swept(m, now) && |Swept(m, now)| >= capacity
  }

  /** `m'` is `m` swept, relieved of one soonest entry if need be, with jti denied until `until`. */
  ghost predicate Inserted(capacity: nat, m: Denials, jti: string, until: int, now: int, m': Denials) {
    if Evicts(capacity, m, jti, now) && Swept(m, now) != map[] then
      exists v :: Soonest(Swept(m, now), v) && m' == (Swept(m, now) - {v})[jti := until]
    else m' == Swept(m, now)[jti := until]
  }

  // ----- the operations as steps, each at its own clock reading -----

  datatype Op =
    | Revoke(jti: string, until: int)
    | Claim(jti: string, until: int)   // RevokeIfNotRevoked
    | Query(jti: string)               // Revoked

  datatype Event = Event(op: Op, now: int, answer: bool)

  /** Whether the operation writes a denial. */
  predicate Writes(m: Denials, op: Op, now: int) {
    && op.jti != "" && !op.Query? && op.until > now
    && (op.Claim? ==> !(op.jti in m && m[op.jti] > now))
  }

  predicate Answer(m: Denials, op: Op, now: int) {
    match op
    case Revoke(_, _) => false
    case Claim(_, _) => Writes(m, op, now)
    case Query(jti) => jti != "" && jti in m && m[jti] > now
  }

  /** One operation of the bounded store. */
  ghost predicate Step(capacity: nat, m: Denials, e: Event, m': Denials) {
    && e.answer == Answer(m, e.op, e.now)
    && if Writes(m, e.op, e.now) then Inserted(capacity, m, e.op.jti, e.op.until, e.now, m')
       else if e.op.Query? && e.op.jti in m && m[e.op.jti] <= e.now && e.op.jti != "" then m' == m - {e.op.jti}
       else m' == m
  }

  /** The denylist that forgets nothing: the last window recorded for every id. */
  function Recorded(g: Denials, e: Event): Denials {
    if !e.op.Query? && e.op.jti != "" && e.op.until > e.now && (e.op.Revoke? || e.answer) then g[e.op.jti := e.op.until] else g
  }

  function RecordedAll(es: seq<Event>): Denials {
    if es == [] then map[] else Recorded(RecordedAll(es[..|es| - 1]), es[|es| - 1])
  }

  /** A run of the bounded store from empty: one state before each event, and one after all. */
  ghost predicate Trace(capacity: nat, ms: seq<Denials>, es: seq<Event>) {
    && |ms| == |es| + 1 && ms[0] == map[]
    && forall i | 0 <= i < |es| :: Step(capacity, ms[i], es[i], ms[i + 1])
  }

  ghost predicate Monotone(es: seq<Event>) {
    forall i, j | 0 <= i < j < |es| :: es[i].now <= es[j].now
  }

  // ----- the store never overfills and never invents a denial -----

  ghost predicate Within(capacity: nat, m: Denials, g: Denials) {
    && |m| <= capacity
    && forall j | j in m :: j in g && m[j] == g[j]
  }

  lemma PutSize(m: Denials, j: string, until: int)
    ensures |m[j := until]| == if j in m then |m| else |m| + 1
  {
    assert m[j := until].Keys == m.Keys + {j};
    assert j in m ==> m.Keys + {j} == m.Keys;
  }

  lemma DropSize(m: Denials, j: string)
    requires j in m
    ensures |m - {j}| == |m| - 1
  {
    assert (m - {j}).Keys == m.Keys - {j};
  }

  lemma InsertedSize(capacity: nat, m: Denials, jti: string, until: int, now: int, m': Denials)
    requires capacity > 0 && |m| <= capacity && Inserted(capacity, m, jti, until, now, m')
    ensures |m'| <= capacity
  {
    SweepShrinks(m, now);
    var kept := Swept(m, now);
    if Evicts(capacity, m, jti, now) {
      assert |kept| > 0 && kept != map[];
      var v :| Soonest(kept, v) && m' == (kept - {v})[jti := until];
      DropSize(kept, v);
      PutSize(kept - {v}, jti, until);
    } else {
      PutSize(kept, jti, until);
    }
  }

  lemma InsertedFrom(capacity: nat, m: Denials, jti: string, until: int, now: int, m': Denials)
    requires Inserted(capacity, m, jti, until, now, m')
    ensures jti in m' && m'[jti] == until
    ensures forall j | j in m' && j != jti :: j in m && m'[j] == m[j]
  {
    var kept := Swept(m, now);
    if Evicts(capacity, m, jti, now) && kept != map[] {
      var v :| Soonest(kept, v) && m' == (kept - {v})[jti := until];
    } else {
      assert m' == kept[jti := until];
    }
  }

  lemma InsertedWithin(capacity: nat, m: Denials, g: Denials, jti: string, until: int, now: int, m': Denials)
    requires capacity > 0 && Within(capacity, m, g) && Inserted(capacity, m, jti, until, now, m')
    ensures Within(capacity, m', g[jti := until])
  {
    InsertedSize(capacity, m, jti, until, now, m');
    InsertedFrom(capacity, m, jti, until, now, m');
  }

  lemma StepWithin(capacity: nat, m: Denials, g: Denials, e: Event, m': Denials)
    requires capacity > 0 && Within(capacity, m, g) && Step(capacity, m, e, m')
    ensures Within(capacity, m', Recorded(g, e))
  {
    if Writes(m, e.op, e.now) {
      InsertedWithin(capacity, m, g, e.op.jti, e.op.until, e.now, m');
    } else if m' != m {
      assert m'.Keys == m.Keys - {e.op.jti};
      SubsetSize(m'.Keys, m.Keys);
    }
  }

  lemma SweepShrinks(m: Denials, now: int)
    ensures |Swept(m, now)| <= |m|
  {
    SubsetSize(Swept(m, now).Keys, m.Keys);
  }

  /** In every run, whatever the clock does: at most `capacity` entries, each holding the
      window last recorded for its id; so no id is reported denied past that window. */
  lemma {:induction false} StoreSound(capacity: nat, ms: seq<Denials>, es: seq<Event>)
    requires capacity > 0 && Trace(capacity, ms, es)
    ensures Within(capacity, ms[|es|], RecordedAll(es))
    ensures forall jti, now | Answer(ms[|es|], Query(jti), now) ::
              jti in RecordedAll(es) && RecordedAll(es)[jti] > now
    decreases |es|
  {
    if es != [] {
      var n := |es| - 1;
      StoreSound(capacity, ms[..|es|], es[..n]);
      StepWithin(capacity, ms[n], RecordedAll(es[..n]), es[n], ms[n + 1]);
    }
  }

  // ----- while the live ids fit, the store is exact -----

  ghost predicate Exact(m: Denials, g: Denials, now: int) {
    && (forall j | j in m :: j in g && m[j] == g[j])
    && (forall j | j in g && g[j] > now :: j in m)
  }

  ghost predicate LiveFits(capacity: nat, es: seq<Event>) {
    forall i | 0 <= i < |es| :: |Live(RecordedAll(es[..i + 1]), es[i].now)| <= capacity
  }

  lemma LiveFitsPrefix(capacity: nat, es: seq<Event>, n: nat)
    requires LiveFits(capacity, es) && n <= |es|
    ensures LiveFits(capacity, es[..n])
  {
    forall i | 0 <= i < n
      ensures |Live(RecordedAll(es[..n][..i + 1]), es[..n][i].now)| <= capacity
    {
      assert es[..n][..i + 1] == es[..i + 1] && es[..n][i] == es[i];
    }
  }

  lemma StepExact(capacity: nat, m: Denials, g: Denials, e: Event, m': Denials)
    requires Exact(m, g, e.now) && Step(capacity, m, e, m')
    requires |Live(Recorded(g, e), e.now)| <= capacity
    ensures e.answer == Answer(g, e.op, e.now)
    ensures Exact(m', Recorded(g, e), e.now)
  {
    assert Swept(m, e.now) == Swept(g, e.now);
    if Writes(m, e.op, e.now) {
      NothingEvicted(capacity, m, g, e.op.jti, e.op.until, e.now);
    }
  }

  lemma NothingEvicted(capacity: nat, m: Denials, g: Denials, jti: string, until: int, now: int)
    requires Swept(m, now) == Swept(g, now) && until > now && |Live(g[jti := until], now)| <= capacity
    ensures !Evicts(capacity, m, jti, now)
  {
    var kept := Swept(m, now);
    assert Live(g[jti := until], now) == kept.Keys + {jti};
    if jti !in kept { assert |kept.Keys + {jti}| == |kept| + 1; }
  }

  lemma {:induction false} StoreExactNow(capacity: nat, ms: seq<Denials>, es: seq<Event>, now: int)
    requires Trace(capacity, ms, es) && Monotone(es) && LiveFits(capacity, es)
    requires forall i | 0 <= i < |es| :: es[i].now <= now
    ensures Exact(ms[|es|], RecordedAll(es), now)
    decreases |es|
  {
    if es != [] {
      var n := |es| - 1;
      LiveFitsPrefix(capacity, es, n);
      StoreExactNow(capacity, ms[..|es|], es[..n], es[n].now);
      assert es[..n + 1] == es;
      StepExact(capacity, ms[n], RecordedAll(es[..n]), es[n], ms[n + 1]);
    }
  }

  /** An event that records a window: a revocation, or a claim that won, not over already. */
  ghost predicate Records(e: Event, jti: string) {
    jti != "" && e.op.jti == jti && ((e.op.Revoke? && e.op.until > e.now) || (e.op.Claim? && e.op.until > e.now && e.answer))
  }

  /** The unbounded denylist holds, for each id, the window of the last event that recorded one. */
  lemma {:induction false} RecordedIsLast(es: seq<Event>, jti: string)
    ensures jti in RecordedAll(es) <==> exists i :: 0 <= i < |es| && Records(es[i], jti)
    ensures forall i | 0 <= i < |es| && Records(es[i], jti) && (forall k | i < k < |es| :: !Records(es[k], jti)) ::
              RecordedAll(es)[jti] == es[i].op.until
    decreases |es|
  {
    if es != [] {
      var n := |es| - 1;
      RecordedIsLast(es[..n], jti);
      assert forall i | 0 <= i < n :: es[..n][i] == es[i];
      RecordsWrites(RecordedAll(es[..n]), es[n], jti);
    }
  }

  lemma RecordsWrites(g: Denials, e: Event, jti: string)
    ensures Records(e, jti) ==> jti in Recorded(g, e) && Recorded(g, e)[jti] == e.op.until
    ensures !Records(e, jti) ==> (jti in Recorded(g, e) <==> jti in g)
    ensures !Records(e, jti) && jti in g ==> Recorded(g, e)[jti] == g[jti]
  {
  }

  /** Whether the last window recorded for the id is still open. */
  predicate Open(g: Denials, jti: string, now: int) { jti in g && g[jti] > now }

  /** The bounded store refines the unbounded denylist: in every run at non-decreasing times
      whose live ids never outnumber the capacity, a query says whether the id's window is
      open, and a claim is won exactly when it is not. */
  lemma StoreRefines(capacity: nat, ms: seq<Denials>, es: seq<Event>, i: nat)
    requires Trace(capacity, ms, es) && Monotone(es) && LiveFits(capacity, es) && i < |es|
    ensures var e, g := es[i], RecordedAll(es[..i]);
            match e.op
            case Revoke(_, _) => !e.answer
            case Claim(jti, until) => e.answer <==> jti != "" && until > e.now && !Open(g, jti, e.now)
            case Query(jti) => e.answer <==> jti != "" && Open(g, jti, e.now)
  {
    LiveFitsPrefix(capacity, es, i);
    StoreExactNow(capacity, ms[..i + 1], es[..i], es[i].now);
    assert es[..i + 1][..i] == es[..i];
    StepExact(capacity, ms[i], RecordedAll(es[..i]), es[i], ms[i + 1]);
  }

  /** The bound is tight: once more ids are live than the capacity, some live id is answered
      "not revoked". */
  lemma OverfullForgets(capacity: nat, ms: seq<Denials>, es: seq<Event>, now: int)
    requires capacity > 0 && Trace(capacity, ms, es) && |Live(RecordedAll(es), now)| > capacity
    ensures exists j :: j in Live(RecordedAll(es), now) && !Answer(ms[|es|], Query(j), now)
  {
    StoreSound(capacity, ms, es);
    var live, m := Live(RecordedAll(es), now), ms[|es|];
    if live <= m.Keys {
      SubsetSize(live, m.Keys);
    }
    assert exists j :: j in live && j !in m;
  }

  /** The entries still open that a write drops. */
  ghost function Lost(m: Denials, now: int, m': Denials): set<string> {
    set j | j in m && m[j] > now && j !in m'
  }

  ghost function OpenIds(m: Denials, now: int): set<string> { set j | j in m && m[j] > now }

  /** A write records its window, keeps nothing that has run out, and drops no open entry unless
      the id is new and the open ones fill the capacity; then it drops one, which expires no
      later than any of them. */
  lemma InsertedExact(capacity: nat, m: Denials, jti: string, until: int, now: int, m': Denials)
    requires Inserted(capacity, m, jti, until, now, m')
    ensures jti in m' && m'[jti] == until
    ensures forall j | j in m' && j != jti :: j in m && m'[j] == m[j] > now
    ensures |Lost(m, now, m')| == if jti !in OpenIds(m, now) && |OpenIds(m, now)| >= capacity && OpenIds(m, now) != {} then 1 else 0
    ensures forall v, j | v in Lost(m, now, m') && j in OpenIds(m, now) :: m[v] <= m[j]
  {
    var kept, lost := Swept(m, now), Lost(m, now, m');
    assert kept.Keys == OpenIds(m, now) && |kept| == |OpenIds(m, now)|;
    if Evicts(capacity, m, jti, now) && kept != map[] {
      var v :| Soonest(kept, v) && m' == (kept - {v})[jti := until];
      assert OpenIds(m, now) != {} by { assert v in OpenIds(m, now); }
      assert lost == {v};
    } else {
      assert lost == {};
      assert kept == map[] <==> OpenIds(m, now) == {};
    }
  }

  // ----- the store itself -----

  class MemoryTokenStore {
    const capacity: nat
    var revoked: Denials

    ghost predicate Valid()
      reads this
    {
      capacity > 0 && |revoked| <= capacity
    }

    constructor (capacity: nat)
      requires capacity > 0
      ensures Valid() && this.capacity == capacity && revoked == map[]
    {
      this.capacity, revoked := capacity, map[];
    }

    method Revoke(jti: string, until: int, now: int)
      requires Valid()
      modifies this
      ensures Valid()
      ensures Step(capacity, old(revoked), Event(Op.Revoke(jti, until), now, false), revoked)
      ensures if jti != "" && until > now then Inserted(capacity, old(revoked), jti, until, now, revoked)
              else revoked == old(revoked)
    {
      if jti == "" || until <= now {
        return;
      }
      Insert(jti, until, now);
    }

    method RevokeIfNotRevoked(jti: string, until: int, now: int) returns (won: bool)
      requires Valid()
      modifies this
      ensures Valid()
      ensures Step(capacity, old(revoked), Event(Claim(jti, until), now, won), revoked)
      ensures won <==> jti != "" && until > now && !Open(old(revoked), jti, now)
      ensures if won then Inserted(capacity, old(revoked), jti, until, now, revoked) else revoked == old(revoked)
    {
      if jti == "" || until <= now {
        return false;
      }
      if jti in revoked && revoked[jti] > now {
        return false;
      }
      Insert(jti, until, now);
      return true;
    }

    method Revoked(jti: string, now: int) returns (yes: bool)
      requires Valid()
      modifies this
      ensures Valid()
      ensures Step(capacity, old(revoked), Event(Query(jti), now, yes), revoked)
      ensures yes <==> jti != "" && Open(old(revoked), jti, now)
      ensures revoked == if jti != "" && jti in old(revoked) && old(revoked)[jti] <= now then old(revoked) - {jti} else old(revoked)
    {
      if jti == "" || jti !in revoked {
        return false;
      }
      if revoked[jti] <= now {
        SubsetSize(revoked.Keys - {jti}, revoked.Keys);
        revoked := revoked - {jti};
        return false;
      }
      return true;
    }

    /** The tail both writers share. */
    method Insert(jti: string, until: int, now: int)
      requires Valid()
      modifies this
      ensures Valid()
      ensures Inserted(capacity, old(revoked), jti, until, now, revoked)
    {
      SweepShrinks(revoked, now);
      SweepLocked(now);
      ghost var swept := revoked;
      if jti !in revoked && |revoked| >= capacity {
        EvictOneLocked();
        assert |swept| > 0 && swept != map[];
        ghost var v :| Soonest(swept, v) && revoked == swept - {v};
        DropSize(swept, v);
      }
      PutSize(revoked, jti, until);
      revoked := revoked[jti := until];
    }

    method SweepLocked(now: int)
      modifies this
      ensures revoked == Swept(old(revoked), now)
    {
      var todo := revoked.Keys;
      while todo != {}
        invariant todo <= revoked.Keys <= old(revoked).Keys
        invariant forall j | j in revoked :: revoked[j] == old(revoked)[j]
        invariant forall j | j in old(revoked) && j !in todo :: j in revoked <==> old(revoked)[j] > now
        decreases todo
      {
        var j :| j in todo;
        if revoked[j] <= now {
          revoked := revoked - {j};
        }
        todo := todo - {j};
      }
    }

    method EvictOneLocked()
      modifies this
      ensures old(revoked) == map[] ==> revoked == map[]
      ensures old(revoked) != map[] ==> exists v :: Soonest(old(revoked), v) && revoked == old(revoked) - {v}
    {
      var victim, victimTil, first := "", 0, true;
      var todo := revoked.Keys;
      while todo != {}
        invariant todo <= revoked.Keys
        invariant first ==> todo == revoked.Keys
        invariant !first ==> victim in revoked && victimTil == revoked[victim]
        invariant !first ==> forall j | j in revoked && j !in todo :: victimTil <= revoked[j]
        decreases todo
      {
        var j :| j in todo;
        if first || revoked[j] < victimTil {
          victim, victimTil, first := j, revoked[j], false;
        }
        todo := todo - {j};
      }
      if !first {
        assert Soonest(revoked, victim);
        revoked := revoked - {victim};
      }
    }
  }
}
