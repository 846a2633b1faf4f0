/** `Try` itself, over a cache field it loads from, deletes from and stores in. The results
    of its calls to the database, the clock and the backend are inputs; what it leaves and
    returns is what the steps of the protocol in `DbCache` make when nothing interleaves. */
module DbCacher {
  import opened DbCache
  import opened Wrappers

  /** One database state, two clock readings, and which of the calls succeed. */
  datatype Env<Db> = Env(db: Db, now: int, stampNow: int, loadOk: bool, checkOk: bool, dropOk: bool,
                         markOk: bool, loaderOk: bool, storeOk: bool)

  function ReadScript<Db, Key>(key: Key, env: Env<Db>): seq<Label<Db, Key>> {
    [Begin(0, key), LoadCache(0, env.loadOk), ReadClock(0), Check(0, env.checkOk), Drop(0, env.dropOk)]
  }

  function ReloadScript<Db, Key>(env: Env<Db>): seq<Label<Db, Key>> {
    [Enter(0), Mark(0, env.markOk), RunLoader(0, env.loaderOk), Tick(env.stampNow), Stamp(0),
     Store(0, env.storeOk), Return(0), Collect(0)]
  }

  function Lone<Db, Key, M, V>(env: Env<Db>, cache: map<Key, Entry<M, V>>): State<Db, Key, M, V> {
    State([env.db], env.now, cache, [], [])
  }

  /** The protocol's final state after one call that nothing interleaves with. */
  function Alone<Db, Key(==), M(==), V>(
    src: Source<Db, Key, M, V>, key: Key, env: Env<Db>, cache: map<Key, Entry<M, V>>): (s: State<Db, Key, M, V>)
    ensures |s.history| > 0
  {
    Run(src, Run(src, Lone(env, cache), ReadScript(key, env)), ReloadScript(env))
  }

  /** The read path of the code, ending in a served value, an error, or the reload path. */
  function ReadPc<Db, Key(==), M(==), V>(
    src: Source<Db, Key, M, V>, key: Key, env: Env<Db>, cache: map<Key, Entry<M, V>>): Pc<M, V>
  {
    if src.keyLength(key) > MAX_CACHE_KEY_LEN then Errored
    else if !env.loadOk || key !in cache then Reloading
    else
      var pc := AfterClock(src.hasDependency, cache[key], env.now);
      if pc.Checking? && env.checkOk && cache[key].compareValue == src.marker(env.db)
        then Returned(cache[key].value, Matched(0))
      else if pc.Checking? then Reloading
      else pc
  }

  predicate Drops<Db, Key, M(==), V>(
    src: Source<Db, Key, M, V>, key: Key, env: Env<Db>, cache: map<Key, Entry<M, V>>)
  {
    && src.keyLength(key) <= MAX_CACHE_KEY_LEN && env.loadOk && key in cache
    && AfterClock(src.hasDependency, cache[key], env.now).Checking?
    && env.checkOk && cache[key].compareValue != src.marker(env.db) && env.dropOk
  }

  lemma PlayOne<Db, Key, M, V>(src: Source<Db, Key, M, V>, s: State<Db, Key, M, V>, l: Label<Db, Key>, ls: seq<Label<Db, Key>>)
    requires |s.history| > 0
    ensures Run(src, s, [l] + ls) == Run(src, Step(src, s, l), ls)
  {
    assert ([l] + ls)[1..] == ls;
  }

  lemma PlayLast<Db, Key, M, V>(src: Source<Db, Key, M, V>, s: State<Db, Key, M, V>, l: Label<Db, Key>)
    requires |s.history| > 0
    ensures Run(src, s, [l]) == Step(src, s, l)
  {
    assert [l][1..] == [];
  }

  lemma ReadPlays<Db, Key, M, V>(src: Source<Db, Key, M, V>, key: Key, env: Env<Db>, cache: map<Key, Entry<M, V>>)
    ensures Run(src, Lone(env, cache), ReadScript(key, env)) == Lone(env, if Drops(src, key, env, cache) then cache - {key} else cache).(
              callers := [Caller(0, key, 0, ReadPc(src, key, env, cache))])
  {
    var s0: State<Db, Key, M, V> := Lone(env, cache);
    var tail1 := [ReadClock(0), Check(0, env.checkOk), Drop(0, env.dropOk)];
    var tail0 := [LoadCache(0, env.loadOk)] + tail1;
    assert ReadScript(key, env) == [Begin(0, key)] + tail0;
    PlayOne(src, s0, Begin(0, key), tail0);
    var s1 := Step(src, s0, Begin(0, key));
    PlayOne(src, s1, LoadCache(0, env.loadOk), tail1);
    var s2 := Step(src, s1, LoadCache(0, env.loadOk));
    var pc := if src.keyLength(key) > MAX_CACHE_KEY_LEN then Errored
              else if !env.loadOk || key !in cache then Reloading else Holding(cache[key]);
    assert s2 == s0.(callers := [Caller(0, key, 0, pc)]);
    ClockPlays(src, key, env, s2, pc);
  }

  lemma ClockPlays<Db, Key, M, V>(src: Source<Db, Key, M, V>, key: Key, env: Env<Db>, s: State<Db, Key, M, V>, pc: Pc<M, V>)
    requires s.history == [env.db] && s.clock == env.now && s.callers == [Caller(0, key, 0, pc)]
    requires pc.Errored? || pc.Reloading? || pc.Holding?
    ensures var t := Run(src, s, [ReadClock(0), Check(0, env.checkOk), Drop(0, env.dropOk)]);
            if !pc.Holding? then t == s
            else
              var e := pc.entry;
              var next := AfterClock(src.hasDependency, e, env.now);
              if !next.Checking? then t == Move(s, 0, next)
              else if !env.checkOk then t == Move(s, 0, Reloading)
              else if e.compareValue == src.marker(env.db) then t == Move(s, 0, Returned(e.value, Matched(0)))
              else t == Move(if env.dropOk then s.(cache := s.cache - {key}) else s, 0, Reloading)
  {
    var tail := [Check(0, env.checkOk), Drop(0, env.dropOk)];
    assert [ReadClock(0), Check(0, env.checkOk), Drop(0, env.dropOk)] == [ReadClock(0)] + tail;
    PlayOne(src, s, ReadClock(0), tail);
    var s1 := Step(src, s, ReadClock(0));
    assert tail == [Check(0, env.checkOk)] + [Drop(0, env.dropOk)];
    PlayOne(src, s1, Check(0, env.checkOk), [Drop(0, env.dropOk)]);
    var s2 := Step(src, s1, Check(0, env.checkOk));
    PlayLast(src, s2, Drop(0, env.dropOk));
  }

  ghost predicate Over<Db, Key, M, V>(s: State<Db, Key, M, V>) {
    |s.history| > 0 && s.flights == [] && |s.callers| == 1 && (s.callers[0].pc.Returned? || s.callers[0].pc.Errored?)
  }

  lemma OverIdles<Db, Key, M, V>(src: Source<Db, Key, M, V>, s: State<Db, Key, M, V>, l: Label<Db, Key>)
    requires Over(s) && !l.Write? && !l.Tick? && !l.Expire? && !l.Begin?
    ensures Step(src, s, l) == s
  {
  }

  lemma {:induction false} OverStaysOver<Db, Key, M, V>(
    src: Source<Db, Key, M, V>, s: State<Db, Key, M, V>, ls: seq<Label<Db, Key>>)
    requires Over(s) && forall l | l in ls :: !l.Write? && !l.Tick? && !l.Expire? && !l.Begin?
    ensures Run(src, s, ls) == s
    decreases |ls|
  {
    if ls != [] {
      OverIdles(src, s, ls[0]);
      OverStaysOver(src, s, ls[1..]);
    }
  }

  /** A caller that is done takes no part in the reload. */
  lemma DoneStaysDone<Db, Key, M, V>(src: Source<Db, Key, M, V>, env: Env<Db>, s: State<Db, Key, M, V>)
    requires Over(s)
    ensures Run(src, s, ReloadScript(env)) == s.(clock := env.stampNow)
  {
    var tail: seq<Label<Db, Key>> := [Stamp(0), Store(0, env.storeOk), Return(0), Collect(0)];
    var rest: seq<Label<Db, Key>> := [Tick(env.stampNow)] + tail;
    OverIdles(src, s, Enter(0));
    OverIdles(src, s, Mark(0, env.markOk));
    OverIdles(src, s, RunLoader(0, env.loaderOk));
    PlayOne(src, s, RunLoader(0, env.loaderOk), rest);
    PlayOne(src, s, Mark(0, env.markOk), [RunLoader(0, env.loaderOk)] + rest);
    PlayOne(src, s, Enter(0), [Mark(0, env.markOk)] + ([RunLoader(0, env.loaderOk)] + rest));
    assert ReloadScript<Db, Key>(env) == [Enter(0)] + ([Mark(0, env.markOk)] + ([RunLoader(0, env.loaderOk)] + rest));
    PlayOne(src, s, Tick(env.stampNow), tail);
    OverStaysOver(src, s.(clock := env.stampNow), tail);
  }

  /** What the flight's function makes of the database and the clock. */
  function Reload<Db, Key, M, V>(src: Source<Db, Key, M, V>, key: Key, env: Env<Db>): Option<Entry<M, V>> {
    if (src.hasDependency && !env.markOk) || !env.loaderOk then None
    else
      var m := if src.hasDependency then src.marker(env.db) else src.unset;
      Some(Entry(src.load(env.db, key), m, env.stampNow / NANOS_PER_MILLI, 0, 0, env.stampNow))
  }

  lemma ReloadPlays<Db, Key, M, V>(src: Source<Db, Key, M, V>, key: Key, env: Env<Db>, s: State<Db, Key, M, V>)
    requires s.history == [env.db] && s.flights == [] && s.callers == [Caller(0, key, 0, Reloading)]
    ensures var t := Run(src, s, ReloadScript(env));
            var r := Reload(src, key, env);
            && t.cache == (if r.Some? && env.storeOk then s.cache[key := r.value] else s.cache)
            && |t.callers| == 1
            && t.callers[0].pc == if r.Some? then Returned(r.value.value, Reloaded(0)) else Errored
  {
    var tail1: seq<Label<Db, Key>> :=
      [Tick(env.stampNow), Stamp(0), Store(0, env.storeOk), Return(0), Collect(0)];
    var tail0: seq<Label<Db, Key>> := [RunLoader(0, env.loaderOk)] + tail1;
    assert ReloadScript<Db, Key>(env) == [Enter(0)] + ([Mark(0, env.markOk)] + tail0);
    PlayOne(src, s, Enter(0), [Mark(0, env.markOk)] + tail0);
    var s1 := Step(src, s, Enter(0));
    assert s1 == s.(callers := [Caller(0, key, 0, Waiting(0))], flights := [Flight(0, key, 0, Started)]);
    PlayOne(src, s1, Mark(0, env.markOk), tail0);
    var s2 := Step(src, s1, Mark(0, env.markOk));
    PlayOne(src, s2, RunLoader(0, env.loaderOk), tail1);
    var s3 := Step(src, s2, RunLoader(0, env.loaderOk));
    var m := if src.hasDependency then src.marker(env.db) else src.unset;
    var phase := if Reload(src, key, env).Some? then Loaded(m, 0, src.load(env.db, key), 0) else Broken;
    assert s3 == s1.(flights := [Flight(0, key, 0, phase)]);
    LandingPlays(src, key, env, s3, phase);
  }

  lemma LandingPlays<Db, Key, M, V>(
    src: Source<Db, Key, M, V>, key: Key, env: Env<Db>, s: State<Db, Key, M, V>, phase: Phase<M, V>)
    requires s.history == [env.db] && s.callers == [Caller(0, key, 0, Waiting(0))]
    requires s.flights == [Flight(0, key, 0, phase)] && (phase.Loaded? || phase.Broken?)
    ensures var t := Run(src, s, [Tick(env.stampNow), Stamp(0), Store(0, env.storeOk), Return(0), Collect(0)]);
            && |t.callers| == 1
            && if phase.Broken? then t.cache == s.cache && t.callers[0].pc == Errored
               else
                 var e := Entry(phase.value, phase.compareValue, env.stampNow / NANOS_PER_MILLI,
                                phase.markedAt, phase.loadedAt, env.stampNow);
                 && t.cache == (if env.storeOk then s.cache[key := e] else s.cache)
                 && t.callers[0].pc == Returned(phase.value, Reloaded(0))
  {
    var tail: seq<Label<Db, Key>> := [Stamp(0)] + ([Store(0, env.storeOk)] + [Return(0), Collect(0)]);
    assert [Tick(env.stampNow), Stamp(0), Store(0, env.storeOk), Return(0), Collect(0)] == [Tick(env.stampNow)] + tail;
    PlayOne(src, s, Tick(env.stampNow), tail);
    if phase.Broken? {
      BrokenLands(src, key, env, s.(clock := env.stampNow));
    } else {
      LoadedLands(src, key, env, s.(clock := env.stampNow));
    }
  }

  lemma BrokenLands<Db, Key, M, V>(src: Source<Db, Key, M, V>, key: Key, env: Env<Db>, s: State<Db, Key, M, V>)
    requires s.history == [env.db] && s.callers == [Caller(0, key, 0, Waiting(0))] && s.flights == [Flight(0, key, 0, Broken)]
    ensures var t := Run(src, s, [Stamp(0)] + ([Store(0, env.storeOk)] + [Return(0), Collect(0)]));
            |t.callers| == 1 && t.cache == s.cache && t.callers[0].pc == Errored
  {
    var last: seq<Label<Db, Key>> := [Return(0), Collect(0)];
    PlayOne(src, s, Stamp(0), [Store(0, env.storeOk)] + last);
    PlayOne(src, s, Store(0, env.storeOk), last);
    ReturnPlays(src, key, env, s);
  }

  lemma LoadedLands<Db, Key, M, V>(src: Source<Db, Key, M, V>, key: Key, env: Env<Db>, s: State<Db, Key, M, V>)
    requires s.history == [env.db] && s.callers == [Caller(0, key, 0, Waiting(0))] && |s.flights| == 1
    requires s.flights[0].phase.Loaded? && s.flights[0] == Flight(0, key, 0, s.flights[0].phase)
    ensures var t := Run(src, s, [Stamp(0)] + ([Store(0, env.storeOk)] + [Return(0), Collect(0)]));
            var phase := s.flights[0].phase;
            var e := Entry(phase.value, phase.compareValue, s.clock / NANOS_PER_MILLI, phase.markedAt, phase.loadedAt, s.clock);
            && |t.callers| == 1 && t.cache == (if env.storeOk then s.cache[key := e] else s.cache)
            && t.callers[0].pc == Returned(phase.value, Reloaded(0))
  {
    var last: seq<Label<Db, Key>> := [Return(0), Collect(0)];
    PlayOne(src, s, Stamp(0), [Store(0, env.storeOk)] + last);
    var s2 := Step(src, s, Stamp(0));
    PlayOne(src, s2, Store(0, env.storeOk), last);
    ReturnPlays(src, key, env, Step(src, s2, Store(0, env.storeOk)));
  }

  lemma ReturnPlays<Db, Key, M, V>(src: Source<Db, Key, M, V>, key: Key, env: Env<Db>, s: State<Db, Key, M, V>)
    requires s.history == [env.db] && s.callers == [Caller(0, key, 0, Waiting(0))]
    requires |s.flights| == 1 && (s.flights[0].phase.Stored? || s.flights[0].phase.Broken?)
    ensures var t := Run(src, s, [Return(0), Collect(0)]);
            && |t.callers| == 1 && t.cache == s.cache
            && t.callers[0].pc == if s.flights[0].phase.Broken? then Errored
                                  else Returned(s.flights[0].phase.value, Reloaded(0))
  {
    var last: seq<Label<Db, Key>> := [Collect(0)];
    assert [Return(0), Collect(0)] == [Return(0)] + last;
    PlayOne(src, s, Return(0), last);
    PlayLast(src, Step(src, s, Return(0)), Collect(0));
  }

  // ----- what one call comes to -----

  /** The call found an entry: its key is no longer than 256 bytes and the backend answered. */
  predicate Found<Db, Key, M, V>(src: Source<Db, Key, M, V>, key: Key, env: Env<Db>, cache: map<Key, Entry<M, V>>) {
    src.keyLength(key) <= 256 && env.loadOk && key in cache
  }

  /** The entry is stamped at most one second before the clock reading, or no dependency says
      otherwise; not after it. Stamps are milliseconds, readings nanoseconds. */
  predicate Fresh<Db, Key, M, V>(src: Source<Db, Key, M, V>, env: Env<Db>, e: Entry<M, V>) {
    var age := env.now - e.createdAt * 1_000_000;
    0 <= age && (age <= 1_000_000_000 || !src.hasDependency)
  }

  /** The entry is older than that and its marker could be compared. */
  predicate Compared<Db, Key, M, V>(src: Source<Db, Key, M, V>, env: Env<Db>, e: Entry<M, V>) {
    env.now - e.createdAt * 1_000_000 > 1_000_000_000 && src.hasDependency && env.checkOk
  }

  /** A fresh entry is served as it is, whatever the database holds and whichever other calls fail. */
  lemma FreshServed<Db, Key, M, V>(src: Source<Db, Key, M, V>, key: Key, env: Env<Db>, cache: map<Key, Entry<M, V>>)
    requires Found(src, key, env, cache) && Fresh(src, env, cache[key])
    ensures var end := Alone(src, key, env, cache);
            && end.cache == cache && |end.callers| == 1
            && end.callers[0].pc.Returned? && end.callers[0].pc.value == cache[key].value
  {
    ReadPlays(src, key, env, cache);
    DoneStaysDone(src, env, Run(src, Lone(env, cache), ReadScript(key, env)));
  }

  /** So is an older one whose marker is the database's now. */
  lemma MatchServed<Db, Key, M, V>(src: Source<Db, Key, M, V>, key: Key, env: Env<Db>, cache: map<Key, Entry<M, V>>)
    requires Found(src, key, env, cache) && Compared(src, env, cache[key])
    requires cache[key].compareValue == src.marker(env.db)
    ensures var end := Alone(src, key, env, cache);
            && end.cache == cache && |end.callers| == 1
            && end.callers[0].pc.Returned? && end.callers[0].pc.value == cache[key].value
  {
    ReadPlays(src, key, env, cache);
    DoneStaysDone(src, env, Run(src, Lone(env, cache), ReadScript(key, env)));
  }

  lemma LongKeyRefused<Db, Key, M, V>(src: Source<Db, Key, M, V>, key: Key, env: Env<Db>, cache: map<Key, Entry<M, V>>)
    requires src.keyLength(key) > 256
    ensures var end := Alone(src, key, env, cache);
            end.cache == cache && |end.callers| == 1 && end.callers[0].pc.Errored?
  {
    ReadPlays(src, key, env, cache);
    DoneStaysDone(src, env, Run(src, Lone(env, cache), ReadScript(key, env)));
  }

  /** In every other case the loader decides: its value is returned, and stored under the marker
      and the stamp of this call; if it or the marker query fails, so does the call. An entry
      whose marker has moved is dropped first. */
  lemma RestReloads<Db, Key, M, V>(src: Source<Db, Key, M, V>, key: Key, env: Env<Db>, cache: map<Key, Entry<M, V>>)
    requires src.keyLength(key) <= 256
    requires Found(src, key, env, cache) ==> !Fresh(src, env, cache[key])
    requires Found(src, key, env, cache) && Compared(src, env, cache[key]) ==> cache[key].compareValue != src.marker(env.db)
    ensures var end := Alone(src, key, env, cache);
            var rest := if Found(src, key, env, cache) && Compared(src, env, cache[key]) && env.dropOk then cache - {key} else cache;
            && |end.callers| == 1
            && if env.loaderOk && (src.hasDependency ==> env.markOk) then
                 && end.callers[0].pc.Returned? && end.callers[0].pc.value == src.load(env.db, key)
                 && (if !env.storeOk then end.cache == rest
                     else
                       && end.cache.Keys == rest.Keys + {key} && (forall k | k in rest && k != key :: end.cache[k] == rest[k])
                       && end.cache[key].value == src.load(env.db, key)
                       && end.cache[key].compareValue == (if src.hasDependency then src.marker(env.db) else src.unset)
                       && end.cache[key].createdAt * 1_000_000 <= env.stampNow < (end.cache[key].createdAt + 1) * 1_000_000)
               else end.callers[0].pc.Errored? && end.cache == rest
  {
    ReadPlays(src, key, env, cache);
    ReloadPlays(src, key, env, Run(src, Lone(env, cache), ReadScript(key, env)));
  }

  class Cacher<!Db, !Key(==), M(==), V> {
    const src: Source<Db, Key, M, V>
    var cache: map<Key, Entry<M, V>>

    constructor (src: Source<Db, Key, M, V>)
      ensures this.src == src && cache == map[]
    {
      this.src, cache := src, map[];
    }

    /** None is an error return. */
    method Try(key: Key, env: Env<Db>) returns (r: Option<V>)
      modifies this
      ensures var end := Alone(src, key, env, old(cache));
              && cache == end.cache && |end.callers| == 1
              && (r.Some? <==> end.callers[0].pc.Returned?)
              && (r.None? <==> end.callers[0].pc.Errored?)
              && (r.Some? ==> r.value == end.callers[0].pc.value)
      ensures Found(src, key, env, old(cache)) && Fresh(src, env, old(cache)[key]) ==>
                r == Some(old(cache)[key].value) && cache == old(cache)
    {
      ghost var read := Run(src, Lone(env, cache), ReadScript(key, env));
      ReadPlays(src, key, env, cache);
      if src.keyLength(key) > MAX_CACHE_KEY_LEN {
        DoneStaysDone(src, env, read);
        return None;
      }
      if env.loadOk && key in cache {
        var entry := cache[key];
        var age := env.now - entry.createdAt * NANOS_PER_MILLI;
        if age >= 0 {
          if age <= GRACE_WINDOW || !src.hasDependency {
            DoneStaysDone(src, env, read);
            return Some(entry.value);
          }
          if env.checkOk {
            if entry.compareValue == src.marker(env.db) {
              DoneStaysDone(src, env, read);
              return Some(entry.value);
            }
            if env.dropOk {
              cache := cache - {key};
            }
          }
        }
      }
      ReloadPlays(src, key, env, read);
      var dependValue := src.unset;
      if src.hasDependency {
        if !env.markOk {
          return None;
        }
        dependValue := src.marker(env.db);
      }
      if !env.loaderOk {
        return None;
      }
      var result := src.load(env.db, key);
      if env.storeOk {
        cache := cache[key := Entry(result, dependValue, env.stampNow / NANOS_PER_MILLI, 0, 0, env.stampNow)];
      }
      return Some(result);
    }
  }
}
