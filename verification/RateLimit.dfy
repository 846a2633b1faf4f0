/** The in-memory token-bucket limiter of `middleware/auth/rate_limit_memory.go`.

    Clock readings are whole nanoseconds (`int`), as Go's `time.Time` holds them; token
    counts are `real` where the program has `float64`, so rounding is not modelled. */
module RateLimit {

  const NANOS_PER_SECOND: real := 1000000000.0

  /** Capacity is the burst; refill is in tokens per second. */
  datatype Rule = Rule(capacity: int, refill: real) {
    // The constructor panics on anything else.
    ghost predicate Valid() { capacity > 0 && refill > 0.0 }
  }

  datatype Bucket = Bucket(tokens: real, lastRefill: int)

  type Buckets = map<string, Bucket>

  /** What one event of a run answers; a sweep of the janitor answers nobody. */
  datatype Answer = Admitted | Denied(retryAfter: int) | Silent

  datatype Event = Call(key: string, now: int) | Sweep(now: int)

  /** `Off`: buckets are never dropped. `Every(idle)`: sweeps drop buckets idle for longer. */
  datatype Janitor = Off | Every(idle: nat)

  function Min(a: real, b: real): real { if a <= b then a else b }

  function Accrued(rule: Rule, elapsed: int): real {
    elapsed as real / NANOS_PER_SECOND * rule.refill
  }

  function Refilled(rule: Rule, b: Bucket, now: int): Bucket {
    var elapsed := now - b.lastRefill;
    if elapsed > 0 then
      Bucket(Min(rule.capacity as real, b.tokens + Accrued(rule, elapsed)), now)
    else b
  }

  /** The bucket a call works on: refilled, or cold and full. */
  function Touched(rule: Rule, bs: Buckets, key: string, now: int): Bucket {
    if key in bs then Refilled(rule, bs[key], now) else Bucket(rule.capacity as real, now)
  }

  /** The real-valued wait, in nanoseconds, until `tokens` reaches one. */
  function Delay(rule: Rule, tokens: real): real
    requires rule.Valid()
  {
    (1.0 - tokens) / rule.refill * NANOS_PER_SECOND
  }

  function AllowAnswer(rule: Rule, bs: Buckets, key: string, now: int): Answer
    requires rule.Valid()
  {
    var b := Touched(rule, bs, key, now);
    if b.tokens >= 1.0 then Admitted else Denied(Delay(rule, b.tokens).Floor)
  }

  function AllowBuckets(rule: Rule, bs: Buckets, key: string, now: int): Buckets {
    var b := Touched(rule, bs, key, now);
    bs[key := if b.tokens >= 1.0 then b.(tokens := b.tokens - 1.0) else b]
  }

  function Swept(bs: Buckets, idle: nat, now: int): Buckets {
    map k | k in bs && now - bs[k].lastRefill <= idle :: bs[k]
  }

  function After(rule: Rule, janitor: Janitor, bs: Buckets, e: Event): Buckets {
    match e
    case Call(key, now) => AllowBuckets(rule, bs, key, now)
    case Sweep(now) => if janitor.Every? then Swept(bs, janitor.idle, now) else bs
  }

  function AnswerTo(rule: Rule, bs: Buckets, e: Event): Answer
    requires rule.Valid()
  {
    if e.Call? then AllowAnswer(rule, bs, e.key, e.now) else Silent
  }

  /** The answers of a whole run, one per event. */
  function Answers(rule: Rule, janitor: Janitor, bs: Buckets, es: seq<Event>): (r: seq<Answer>)
    requires rule.Valid()
    ensures |r| == |es|
    decreases |es|
  {
    if es == [] then []
    else [AnswerTo(rule, bs, es[0])] + Answers(rule, janitor, After(rule, janitor, bs, es[0]), es[1..])
  }

  function AfterAll(rule: Rule, janitor: Janitor, bs: Buckets, es: seq<Event>): Buckets
    decreases |es|
  {
    if es == [] then bs else AfterAll(rule, janitor, After(rule, janitor, bs, es[0]), es[1..])
  }

  /** How many calls on `key` a stretch of a run admitted. */
  function AdmittedCount(key: string, es: seq<Event>, answers: seq<Answer>): nat
    requires |es| == |answers|
  {
    if es == [] then 0
    else (if es[0].Call? && es[0].key == key && answers[0].Admitted? then 1 else 0)
         + AdmittedCount(key, es[1..], answers[1..])
  }

  ghost predicate Levels(rule: Rule, bs: Buckets) {
    forall k | k in bs :: 0.0 <= bs[k].tokens <= rule.capacity as real
  }

  ghost predicate Monotone(es: seq<Event>) {
    forall i, j | 0 <= i < j < |es| :: es[i].now <= es[j].now
  }

  ghost predicate NotBefore(t: int, es: seq<Event>) {
    forall i | 0 <= i < |es| :: t <= es[i].now
  }

  ghost predicate Within(es: seq<Event>, lo: int, hi: int) {
    forall i | 0 <= i < |es| :: lo <= es[i].now <= hi
  }

  ghost predicate TouchedBy(bs: Buckets, t: int) {
    forall k | k in bs :: bs[k].lastRefill <= t
  }

  // ----- arithmetic of accrual -----

  lemma AccruedAdds(rule: Rule, a: int, b: int)
    ensures Accrued(rule, a + b) == Accrued(rule, a) + Accrued(rule, b)
  {
  }

  lemma AccruedMonotone(rule: Rule, a: int, b: int)
    requires rule.Valid() && a <= b
    ensures Accrued(rule, a) <= Accrued(rule, b)
    ensures 0 <= a ==> 0.0 <= Accrued(rule, a)
  {
    var x, y := a as real / NANOS_PER_SECOND, b as real / NANOS_PER_SECOND;
    assert x <= y;
    assert (y - x) * rule.refill >= 0.0;
  }

  // ----- runs compose -----

  lemma {:induction false} RunSplits(rule: Rule, janitor: Janitor, bs: Buckets, xs: seq<Event>, ys: seq<Event>)
    requires rule.Valid()
    ensures AfterAll(rule, janitor, bs, xs + ys) == AfterAll(rule, janitor, AfterAll(rule, janitor, bs, xs), ys)
    ensures Answers(rule, janitor, bs, xs + ys)
         == Answers(rule, janitor, bs, xs) + Answers(rule, janitor, AfterAll(rule, janitor, bs, xs), ys)
    decreases |xs|
  {
    if xs == [] {
      assert xs + ys == ys;
    } else {
      assert (xs + ys)[0] == xs[0] && (xs + ys)[1..] == xs[1..] + ys;
      RunSplits(rule, janitor, After(rule, janitor, bs, xs[0]), xs[1..], ys);
    }
  }

  lemma {:induction false} CountSplits(key: string, xs: seq<Event>, ys: seq<Event>, a: seq<Answer>, b: seq<Answer>)
    requires |xs| == |a| && |ys| == |b|
    ensures AdmittedCount(key, xs + ys, a + b) == AdmittedCount(key, xs, a) + AdmittedCount(key, ys, b)
  {
    if xs == [] {
      assert xs + ys == ys && a + b == b;
    } else {
      assert (xs + ys)[1..] == xs[1..] + ys && (a + b)[1..] == a[1..] + b;
      CountSplits(key, xs[1..], ys, a[1..], b);
    }
  }

  /** Token counts stay within [0, capacity] in every run. */
  lemma {:induction false} LevelsKept(rule: Rule, janitor: Janitor, bs: Buckets, es: seq<Event>)
    requires rule.Valid() && Levels(rule, bs)
    ensures Levels(rule, AfterAll(rule, janitor, bs, es))
    decreases |es|
  {
    if es != [] {
      LevelsKeptByOne(rule, janitor, bs, es[0]);
      LevelsKept(rule, janitor, After(rule, janitor, bs, es[0]), es[1..]);
    }
  }

  lemma LevelsKeptByOne(rule: Rule, janitor: Janitor, bs: Buckets, e: Event)
    requires rule.Valid() && Levels(rule, bs)
    ensures Levels(rule, After(rule, janitor, bs, e))
  {
    if e.Call? && e.key in bs && e.now > bs[e.key].lastRefill {
      AccruedMonotone(rule, 0, e.now - bs[e.key].lastRefill);
    }
  }

  lemma {:induction false} TouchedByLast(rule: Rule, janitor: Janitor, bs: Buckets, es: seq<Event>, t: int)
    requires TouchedBy(bs, t)
    requires forall i | 0 <= i < |es| :: es[i].now <= t
    ensures TouchedBy(AfterAll(rule, janitor, bs, es), t)
    decreases |es|
  {
    if es != [] {
      TouchedByLast(rule, janitor, After(rule, janitor, bs, es[0]), es[1..], t);
    }
  }

  // ----- the rate law -----

  /** The most that calls on `key` reading the clock inside [lo, hi] can still be given. */
  function Budget(rule: Rule, bs: Buckets, key: string, lo: int, hi: int): real {
    if key !in bs || bs[key].lastRefill < lo then rule.capacity as real + Accrued(rule, hi - lo)
    else if bs[key].lastRefill <= hi then bs[key].tokens + Accrued(rule, hi - bs[key].lastRefill)
    else bs[key].tokens
  }

  lemma BudgetSpent(rule: Rule, bs: Buckets, key: string, e: Event, lo: int, hi: int)
    requires rule.Valid() && Levels(rule, bs) && lo <= e.now <= hi
    ensures Budget(rule, After(rule, Off, bs, e), key, lo, hi)
         <= Budget(rule, bs, key, lo, hi)
            - (if e.Call? && e.key == key && AnswerTo(rule, bs, e).Admitted? then 1.0 else 0.0)
  {
    if e.Call? && e.key == key {
      AccruedMonotone(rule, hi - e.now, hi - lo);
      if key in bs {
        AccruedAdds(rule, e.now - bs[key].lastRefill, hi - e.now);
      }
    }
  }

  lemma {:induction false} AdmittedWithinBudget(rule: Rule, bs: Buckets, key: string, es: seq<Event>, lo: int, hi: int)
    requires rule.Valid() && Levels(rule, bs) && lo <= hi && Within(es, lo, hi)
    ensures AdmittedCount(key, es, Answers(rule, Off, bs, es)) as real <= Budget(rule, bs, key, lo, hi)
    decreases |es|
  {
    if es == [] {
      AccruedMonotone(rule, 0, hi - lo);
      if key in bs && bs[key].lastRefill <= hi {
        AccruedMonotone(rule, 0, hi - bs[key].lastRefill);
      }
    } else {
      var next := After(rule, Off, bs, es[0]);
      BudgetSpent(rule, bs, key, es[0], lo, hi);
      LevelsKeptByOne(rule, Off, bs, es[0]);
      AdmittedWithinBudget(rule, next, key, es[1..], lo, hi);
      assert Answers(rule, Off, bs, es)[1..] == Answers(rule, Off, next, es[1..]);
    }
  }

  /** The rate law: after any run `pre`, a stretch whose calls all read the clock inside
      [lo, hi] has at most capacity + refill * (hi - lo) calls on a key admitted. The
      clock may even run backwards. */
  lemma RateLaw(rule: Rule, pre: seq<Event>, es: seq<Event>, key: string, lo: int, hi: int)
    requires rule.Valid() && lo <= hi && Within(es, lo, hi)
    ensures AdmittedCount(key, es, Answers(rule, Off, AfterAll(rule, Off, map[], pre), es)) as real
         <= rule.capacity as real + (hi - lo) as real / 1_000_000_000.0 * rule.refill
  {
    RunWithinBudget(rule, pre, es, key, lo, hi);
    AccruedIs(rule, hi - lo);
  }

  lemma AccruedIs(rule: Rule, n: int)
    ensures Accrued(rule, n) == n as real / 1_000_000_000.0 * rule.refill
  {
  }

  lemma RunWithinBudget(rule: Rule, pre: seq<Event>, es: seq<Event>, key: string, lo: int, hi: int)
    requires rule.Valid() && lo <= hi && Within(es, lo, hi)
    ensures AdmittedCount(key, es, Answers(rule, Off, AfterAll(rule, Off, map[], pre), es)) as real
         <= rule.capacity as real + Accrued(rule, hi - lo)
  {
    var bs := AfterAll(rule, Off, map[], pre);
    LevelsKept(rule, Off, map[], pre);
    AdmittedWithinBudget(rule, bs, key, es, lo, hi);
    if key in bs && lo <= bs[key].lastRefill <= hi {
      AccruedMonotone(rule, hi - bs[key].lastRefill, hi - lo);
    }
    AccruedMonotone(rule, 0, hi - lo);
  }

  // ----- the janitor -----

  /** `swept` is what the janitor left of `kept` by time t: it only lacks buckets idle too long. */
  ghost predicate SweptOf(idle: nat, swept: Buckets, kept: Buckets, t: int) {
    && (forall k | k in swept :: k in kept && swept[k] == kept[k])
    && (forall k | k in kept && k !in swept :: t - kept[k].lastRefill > idle)
  }

  ghost predicate RefillsWhileIdle(rule: Rule, idle: nat) {
    rule.capacity as real <= (idle + 1) as real / 1_000_000_000.0 * rule.refill
  }

  lemma SweptOfKept(rule: Rule, idle: nat, swept: Buckets, kept: Buckets, e: Event, t: int)
    requires rule.Valid() && RefillsWhileIdle(rule, idle) && Levels(rule, kept)
    requires SweptOf(idle, swept, kept, t) && t <= e.now
    ensures AnswerTo(rule, swept, e) == AnswerTo(rule, kept, e)
    ensures SweptOf(idle, After(rule, Every(idle), swept, e), After(rule, Off, kept, e), e.now)
  {
    if e.Call? && e.key in kept && e.key !in swept {
      AccruedMonotone(rule, idle + 1, e.now - kept[e.key].lastRefill);
      assert Touched(rule, swept, e.key, e.now) == Touched(rule, kept, e.key, e.now);
    }
  }

  lemma {:induction false} JanitorUnseen(rule: Rule, idle: nat, swept: Buckets, kept: Buckets, es: seq<Event>, t: int)
    requires rule.Valid() && RefillsWhileIdle(rule, idle) && Levels(rule, kept)
    requires SweptOf(idle, swept, kept, t) && NotBefore(t, es) && Monotone(es)
    ensures Answers(rule, Every(idle), swept, es) == Answers(rule, Off, kept, es)
    decreases |es|
  {
    if es != [] {
      SweptOfKept(rule, idle, swept, kept, es[0], t);
      LevelsKeptByOne(rule, Off, kept, es[0]);
      JanitorUnseen(rule, idle, After(rule, Every(idle), swept, es[0]), After(rule, Off, kept, es[0]),
                    es[1..], es[0].now);
    }
  }

  /** No run at non-decreasing times can tell the janitor is there. */
  ghost predicate JanitorInvisible(rule: Rule, idle: nat)
    requires rule.Valid()
  {
    forall es | Monotone(es) :: Answers(rule, Every(idle), map[], es) == Answers(rule, Off, map[], es)
  }

  /** Every run at non-decreasing times keeps the rate law with the janitor at work. */
  ghost predicate JanitorKeepsRateLaw(rule: Rule, idle: nat)
    requires rule.Valid()
  {
    forall es, key, lo, hi | Monotone(es) && lo <= hi && Within(es, lo, hi) ::
      AdmittedCount(key, es, Answers(rule, Every(idle), map[], es)) as real
      <= rule.capacity as real + (hi - lo) as real / 1_000_000_000.0 * rule.refill
  }

  function Burst(key: string, now: int, n: nat): (es: seq<Event>)
    ensures |es| == n && forall i | 0 <= i < n :: es[i] == Call(key, now)
  {
    seq(n, i => Call(key, now))
  }

  lemma {:induction false} BurstAdmitted(rule: Rule, janitor: Janitor, bs: Buckets, key: string, now: int, n: nat)
    requires rule.Valid()
    requires Touched(rule, bs, key, now).tokens >= n as real
    requires Touched(rule, bs, key, now).lastRefill == now
    ensures AdmittedCount(key, Burst(key, now, n), Answers(rule, janitor, bs, Burst(key, now, n))) == n
    ensures n > 0 ==>
      key in AfterAll(rule, janitor, bs, Burst(key, now, n)) &&
      AfterAll(rule, janitor, bs, Burst(key, now, n))[key].lastRefill == now
    decreases n
  {
    if n > 0 {
      var es := Burst(key, now, n);
      var next := After(rule, janitor, bs, es[0]);
      assert es[1..] == Burst(key, now, n - 1);
      assert Answers(rule, janitor, bs, es)[1..] == Answers(rule, janitor, next, es[1..]);
      BurstAdmitted(rule, janitor, next, key, now, n - 1);
    }
  }

  lemma AnswersUnfold(rule: Rule, janitor: Janitor, bs: Buckets, e: Event, es: seq<Event>)
    requires rule.Valid()
    ensures Answers(rule, janitor, bs, [e] + es)
         == [AnswerTo(rule, bs, e)] + Answers(rule, janitor, After(rule, janitor, bs, e), es)
    ensures AfterAll(rule, janitor, bs, [e] + es) == AfterAll(rule, janitor, After(rule, janitor, bs, e), es)
  {
    assert ([e] + es)[1..] == es;
  }

  /** A burst, one sweep as soon as the janitor may, and a second burst. */
  function DoubleBurst(rule: Rule, idle: nat): seq<Event>
    requires rule.capacity > 0
  {
    Burst("k", 0, rule.capacity) + ([Sweep(idle + 1)] + Burst("k", idle + 1, rule.capacity))
  }

  lemma DoubleBurstOrdered(rule: Rule, idle: nat)
    requires rule.Valid()
    ensures Monotone(DoubleBurst(rule, idle)) && Within(DoubleBurst(rule, idle), 0, idle + 1)
  {
  }

  lemma DoubleBurstAdmitted(rule: Rule, idle: nat)
    requires rule.Valid()
    ensures AdmittedCount("k", DoubleBurst(rule, idle), Answers(rule, Every(idle), map[], DoubleBurst(rule, idle)))
         == 2 * rule.capacity
  {
    var n, j := rule.capacity, Every(idle);
    var first, second := Burst("k", 0, n), Burst("k", idle + 1, n);
    var rest := [Sweep(idle + 1)] + second;
    var bs := AfterAll(rule, j, map[], first);
    var cleared := Swept(bs, idle, idle + 1);
    var a, b := Answers(rule, j, map[], first), Answers(rule, j, cleared, second);
    BurstAdmitted(rule, j, map[], "k", 0, n);
    assert "k" !in cleared;
    BurstAdmitted(rule, j, cleared, "k", idle + 1, n);
    RunSplits(rule, j, map[], first, rest);
    AnswersUnfold(rule, j, bs, Sweep(idle + 1), second);
    CountSplits("k", first, rest, a, [Silent] + b);
    assert rest[1..] == second && ([Silent] + b)[1..] == b;
  }

  /** The janitor drops buckets it claims have refilled. That is true, and its sweeps go
      unnoticed, exactly when the idle period (one clock tick beyond it, since it drops
      strictly idler buckets) accrues a whole burst; when it does not, a run breaks the rate law. */
  lemma JanitorExact(rule: Rule, idle: nat)
    requires rule.Valid()
    ensures JanitorInvisible(rule, idle) <==> RefillsWhileIdle(rule, idle)
    ensures JanitorKeepsRateLaw(rule, idle) <==> RefillsWhileIdle(rule, idle)
  {
    var es := DoubleBurst(rule, idle);
    DoubleBurstOrdered(rule, idle);
    DoubleBurstAdmitted(rule, idle);
    RateLaw(rule, [], es, "k", 0, idle + 1);
    if RefillsWhileIdle(rule, idle) {
      forall xs: seq<Event> | Monotone(xs)
        ensures Answers(rule, Every(idle), map[], xs) == Answers(rule, Off, map[], xs)
      {
        JanitorUnseen(rule, idle, map[], map[], xs, if xs == [] then 0 else xs[0].now);
      }
      forall xs: seq<Event>, key, lo, hi | Monotone(xs) && lo <= hi && Within(xs, lo, hi)
        ensures AdmittedCount(key, xs, Answers(rule, Every(idle), map[], xs)) as real
             <= rule.capacity as real + (hi - lo) as real / 1_000_000_000.0 * rule.refill
      {
        RateLaw(rule, [], xs, key, lo, hi);
      }
    }
  }

  // ----- denials are free -----

  /** What the bucket would hold at t, had it been refilled continuously. */
  function Level(rule: Rule, b: Bucket, t: int): real { Refilled(rule, b, t).tokens }

  lemma LevelComposes(rule: Rule, b: Bucket, t: int, u: int)
    requires rule.Valid() && b.tokens <= rule.capacity as real && b.lastRefill <= t <= u
    ensures Level(rule, b, u) == Min(rule.capacity as real, Level(rule, b, t) + Accrued(rule, u - t))
  {
    AccruedAdds(rule, t - b.lastRefill, u - t);
    AccruedMonotone(rule, 0, u - t);
  }

  /** The two states hold the same tokens from t on, though they were refilled at different times. */
  ghost predicate SameFrom(rule: Rule, p: Buckets, q: Buckets, t: int) {
    && p.Keys == q.Keys && TouchedBy(p, t) && TouchedBy(q, t)
    && forall k | k in p :: Level(rule, p[k], t) == Level(rule, q[k], t)
  }

  lemma SameFromLater(rule: Rule, p: Buckets, q: Buckets, t: int, u: int)
    requires rule.Valid() && Levels(rule, p) && Levels(rule, q) && SameFrom(rule, p, q, t) && t <= u
    ensures SameFrom(rule, p, q, u)
  {
    forall k | k in p ensures Level(rule, p[k], u) == Level(rule, q[k], u) {
      LevelComposes(rule, p[k], t, u);
      LevelComposes(rule, q[k], t, u);
    }
  }

  lemma {:induction false} SameAnswers(rule: Rule, p: Buckets, q: Buckets, es: seq<Event>, t: int)
    requires rule.Valid() && Levels(rule, p) && Levels(rule, q) && SameFrom(rule, p, q, t)
    requires NotBefore(t, es) && Monotone(es)
    ensures Answers(rule, Off, p, es) == Answers(rule, Off, q, es)
    decreases |es|
  {
    if es != [] {
      var e := es[0];
      SameFromLater(rule, p, q, t, e.now);
      LevelsKeptByOne(rule, Off, p, e);
      LevelsKeptByOne(rule, Off, q, e);
      SameAnswers(rule, After(rule, Off, p, e), After(rule, Off, q, e), es[1..], e.now);
    }
  }

  lemma DenialLeavesLevels(rule: Rule, bs: Buckets, key: string, now: int)
    requires rule.Valid() && Levels(rule, bs) && TouchedBy(bs, now)
    requires AllowAnswer(rule, bs, key, now).Denied?
    ensures SameFrom(rule, AllowBuckets(rule, bs, key, now), bs, now)
  {
    assert key in bs;  // a cold bucket is full, so it admits
  }

  /** Striking a denied call from a run changes no other answer. */
  lemma DenialsAreFree(rule: Rule, pre: seq<Event>, denied: Event, post: seq<Event>)
    requires rule.Valid() && Monotone(pre + [denied] + post)
    requires AnswerTo(rule, AfterAll(rule, Off, map[], pre), denied).Denied?
    ensures Answers(rule, Off, map[], pre + [denied] + post)
         == Answers(rule, Off, map[], pre)
            + [AnswerTo(rule, AfterAll(rule, Off, map[], pre), denied)]
            + Answers(rule, Off, AfterAll(rule, Off, map[], pre), post)
    ensures Answers(rule, Off, map[], pre + post)
         == Answers(rule, Off, map[], pre) + Answers(rule, Off, AfterAll(rule, Off, map[], pre), post)
  {
    var bs := AfterAll(rule, Off, map[], pre);
    RunSplits(rule, Off, map[], pre, post);
    RunSplits(rule, Off, map[], pre, [denied] + post);
    AnswersUnfold(rule, Off, bs, denied, post);
    assert pre + [denied] + post == pre + ([denied] + post);
    MonotoneAround(pre, denied, post);
    TouchedByLast(rule, Off, map[], pre, denied.now);
    LevelsKept(rule, Off, map[], pre);
    LevelsKeptByOne(rule, Off, bs, denied);
    DenialLeavesLevels(rule, bs, denied.key, denied.now);
    SameAnswers(rule, After(rule, Off, bs, denied), bs, post, denied.now);
  }

  lemma MonotoneAround(pre: seq<Event>, e: Event, post: seq<Event>)
    requires Monotone(pre + [e] + post)
    ensures forall i | 0 <= i < |pre| :: pre[i].now <= e.now
    ensures NotBefore(e.now, post) && Monotone(post)
  {
    var all := pre + [e] + post;
    assert all[|pre|] == e;
    assert forall i | 0 <= i < |pre| :: all[i] == pre[i];
    assert forall i | 0 <= i < |post| :: all[|pre| + 1 + i] == post[i];
  }

  // ----- the retry hint -----

  lemma LevelReachesOne(rule: Rule, b: Bucket, t: int, u: int)
    requires rule.Valid() && 0.0 <= b.tokens <= rule.capacity as real && b.lastRefill <= t <= u
    requires Level(rule, b, t) < 1.0
    ensures Level(rule, b, u) >= 1.0 <==> (u - t) as real >= Delay(rule, Level(rule, b, t))
  {
    LevelComposes(rule, b, t, u);
    var need := 1.0 - Level(rule, b, t);
    var x := (u - t) as real / NANOS_PER_SECOND;
    QuotientBound(need, rule.refill, x);
    assert Delay(rule, Level(rule, b, t)) == need / rule.refill * NANOS_PER_SECOND;
  }

  lemma QuotientBound(need: real, refill: real, x: real)
    requires refill > 0.0
    ensures x * refill >= need <==> x >= need / refill
  {
    var q := need / refill;
    assert q * refill == need;
    assert x >= q ==> (x - q) * refill >= 0.0;
    assert x < q ==> (q - x) * refill > 0.0;
  }

  /** No admission on `key` among the calls of `es`. */
  ghost predicate NoneAdmitted(rule: Rule, bs: Buckets, key: string, es: seq<Event>)
    requires rule.Valid()
  {
    AdmittedCount(key, es, Answers(rule, Off, bs, es)) == 0
  }

  lemma {:induction false} LevelWhileDenied(rule: Rule, bs: Buckets, key: string, es: seq<Event>, t: int, u: int)
    requires rule.Valid() && Levels(rule, bs) && key in bs && bs[key].lastRefill <= t
    requires NotBefore(t, es) && Monotone(es) && (forall i | 0 <= i < |es| :: es[i].now <= u) && t <= u
    requires NoneAdmitted(rule, bs, key, es)
    ensures var after := AfterAll(rule, Off, bs, es);
            key in after && after[key].lastRefill <= u && Level(rule, after[key], u) == Level(rule, bs[key], u)
    decreases |es|
  {
    if es != [] {
      var e := es[0];
      var next := After(rule, Off, bs, e);
      LevelsKeptByOne(rule, Off, bs, e);
      assert Answers(rule, Off, bs, es)[1..] == Answers(rule, Off, next, es[1..]);
      if e.Call? && e.key == key {
        LevelComposes(rule, bs[key], e.now, u);
        LevelComposes(rule, next[key], e.now, u);
      }
      LevelWhileDenied(rule, next, key, es[1..], e.now, u);
    }
  }

  /** The hint is exact up to its truncation to whole nanoseconds. With no admission on the
      key in between, a later call is admitted if and only if the real-valued delay has
      passed; so before `retryAfter` it never is, one nanosecond after it always is, and at
      it just when nothing was truncated. */
  lemma RetryHintExact(rule: Rule, pre: seq<Event>, denied: Event, between: seq<Event>, retry: Event)
    requires rule.Valid() && Monotone(pre + [denied] + between + [retry])
    requires retry.Call? && denied.Call? && retry.key == denied.key
    requires AnswerTo(rule, AfterAll(rule, Off, map[], pre), denied).Denied?
    requires NoneAdmitted(rule, AfterAll(rule, Off, map[], pre + [denied]), denied.key, between)
    ensures var bs := AfterAll(rule, Off, map[], pre);
            var hint := AnswerTo(rule, bs, denied).retryAfter;
            var delay := (1.0 - Touched(rule, bs, denied.key, denied.now).tokens) / rule.refill * 1_000_000_000.0;
            var ok := AnswerTo(rule, AfterAll(rule, Off, map[], pre + [denied] + between), retry).Admitted?;
            && hint as real <= delay < hint as real + 1.0
            && (ok <==> (retry.now - denied.now) as real >= delay)
            && (retry.now < denied.now + hint ==> !ok)
            && (retry.now > denied.now + hint ==> ok)
            && (retry.now == denied.now + hint ==> (ok <==> hint as real == delay))
  {
    var bs := AfterAll(rule, Off, map[], pre);
    var key, t, u := denied.key, denied.now, retry.now;
    var next := After(rule, Off, bs, denied);
    assert pre + [denied] + between + [retry] == pre + [denied] + (between + [retry]);
    MonotoneAround(pre, denied, between + [retry]);
    assert between + [retry] == between + [retry] + [];
    MonotoneAround(between, retry, []);
    assert forall i | 0 <= i < |between| :: (between + [retry])[i] == between[i];
    assert (between + [retry])[|between|] == retry;
    LevelsKept(rule, Off, map[], pre);
    TouchedByLast(rule, Off, map[], pre, t);
    RunSplits(rule, Off, map[], pre, [denied]);
    assert [denied] == [denied] + [];
    AnswersUnfold(rule, Off, bs, denied, []);
    RunSplits(rule, Off, map[], pre + [denied], between);
    DenialLeavesLevels(rule, bs, key, t);
    LevelsKeptByOne(rule, Off, bs, denied);
    LevelWhileDenied(rule, next, key, between, t, u);
    LevelReachesOne(rule, next[key], t, u);
  }

  // ----- the limiter itself -----

  lemma PutTwice(bs: Buckets, key: string, x: Bucket, y: Bucket)
    ensures bs[key := x][key := y] == bs[key := y]
  {
  }

  /** One per-key slot, updated in place. */
  class TokenBucket {
    var tokens: real
    var lastRefill: int

    constructor (tokens: real, lastRefill: int)
      ensures this.tokens == tokens && this.lastRefill == lastRefill
    {
      this.tokens, this.lastRefill := tokens, lastRefill;
    }

    /** A token is spent if there is one; if not, the deficit gives the wait. */
    method Take(rule: Rule) returns (ok: bool, retryAfter: int)
      requires rule.Valid()
      modifies this
      ensures ok <==> old(tokens) >= 1.0
      ensures tokens == (if ok then old(tokens) - 1.0 else old(tokens)) && lastRefill == old(lastRefill)
      ensures retryAfter == if ok then 0 else Delay(rule, old(tokens)).Floor
    {
      if tokens >= 1.0 {
        tokens := tokens - 1.0;
        return true, 0;
      }
      var deficit := 1.0 - tokens;
      return false, (deficit / rule.refill * NANOS_PER_SECOND).Floor;
    }

    /** The lazy refill of a bucket found in the map. */
    method Refill(rule: Rule, now: int)
      modifies this
      ensures Bucket(tokens, lastRefill) == Refilled(rule, Bucket(old(tokens), old(lastRefill)), now)
    {
      var elapsed := now - lastRefill;
      if elapsed > 0 {
        tokens := Min(rule.capacity as real, tokens + Accrued(rule, elapsed));
        lastRefill := now;
      }
    }
  }

  class MemoryLimiter {
    const rule: Rule
    var buckets: map<string, TokenBucket>

    ghost predicate Valid()
      reads this
    {
      rule.Valid() && forall j, k | j in buckets && k in buckets && j != k :: buckets[j] != buckets[k]
    }

    ghost function Contents(): Buckets
      reads this, buckets.Values
    {
      map k | k in buckets :: Bucket(buckets[k].tokens, buckets[k].lastRefill)
    }

    constructor (capacity: int, refill: real)
      requires capacity > 0 && refill > 0.0
      ensures Valid() && rule == Rule(capacity, refill) && Contents() == map[]
    {
      rule, buckets := Rule(capacity, refill), map[];
    }

    method Allow(key: string, now: int) returns (ok: bool, retryAfter: int)
      requires Valid()
      modifies this, buckets.Values
      ensures Valid() && fresh(buckets.Values - old(buckets.Values))
      ensures Contents() == AllowBuckets(rule, old(Contents()), key, now)
      ensures (if ok then Admitted else Denied(retryAfter)) == AllowAnswer(rule, old(Contents()), key, now)
      ensures ok ==> retryAfter == 0
    {
      ghost var before := Contents();
      var b := Touch(key, now);
      ghost var touched := Bucket(b.tokens, b.lastRefill);
      ok, retryAfter := TakeFrom(key, b);
      PutTwice(before, key, touched, Bucket(b.tokens, b.lastRefill));
    }

    method TakeFrom(key: string, b: TokenBucket) returns (ok: bool, retryAfter: int)
      requires Valid() && key in buckets && buckets[key] == b
      modifies b
      ensures Valid() && (ok <==> old(b.tokens) >= 1.0)
      ensures b.tokens == (if ok then old(b.tokens) - 1.0 else old(b.tokens)) && b.lastRefill == old(b.lastRefill)
      ensures Contents() == old(Contents())[key := Bucket(b.tokens, b.lastRefill)]
      ensures retryAfter == if ok then 0 else Delay(rule, old(b.tokens)).Floor
    {
      ok, retryAfter := b.Take(rule);
    }

    /** The key's bucket brought up to date, made full if there was none. */
    method Touch(key: string, now: int) returns (b: TokenBucket)
      requires Valid()
      modifies this, buckets.Values
      ensures Valid() && fresh(buckets.Values - old(buckets.Values)) && key in buckets && buckets[key] == b
      ensures Bucket(b.tokens, b.lastRefill) == Touched(rule, old(Contents()), key, now)
      ensures Contents() == old(Contents())[key := Bucket(b.tokens, b.lastRefill)]
    {
      if key !in buckets {
        b := new TokenBucket(rule.capacity as real, now);
        buckets := buckets[key := b];
      } else {
        b := buckets[key];
        b.Refill(rule, now);
      }
    }

    /** One tick of the janitor; the order of the visits is arbitrary. */
    method Sweep(idle: nat, now: int)
      requires Valid()
      modifies this
      ensures Valid() && buckets.Values <= old(buckets.Values)
      ensures Contents() == Swept(old(Contents()), idle, now)
    {
      var todo := buckets.Keys;
      while todo != {}
        invariant Valid()
        invariant todo <= buckets.Keys <= old(buckets.Keys)
        invariant forall k | k in buckets :: buckets[k] == old(buckets)[k]
        invariant forall k | k in old(buckets) && k !in todo ::
          k in buckets <==> now - old(buckets)[k].lastRefill <= idle
        decreases todo
      {
        var k :| k in todo;
        if now - buckets[k].lastRefill > idle {
          buckets := buckets - {k};
        }
        todo := todo - {k};
      }
    }
  }
}
