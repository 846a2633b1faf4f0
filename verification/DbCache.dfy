/** The read-through cache of `admin/dbcache/cacher.go`, validated by a version marker.

    Callers of `Try`, reloads running under singleflight, database writers, the clock and
    the cache backend interleave at the granularity of single reads and writes: a run is any
    sequence of labels. `history` lists every state the database has had. Entries, flights
    and callers carry, beside what the program stores, the positions in `history` (and the
    clock readings) at which their parts were read; no step branches on those. */
module DbCache {

  const NANOS_PER_MILLI: int := 1000000
  const GRACE_WINDOW: int := 1000000000
  const MAX_CACHE_KEY_LEN: nat := 256

  /** The marker query and the loader of each key; `unset` is the empty marker stored when
      no dependency is configured. */
  datatype Source<!Db, !Key, M, V> =
    Source(marker: Db -> M, load: (Db, Key) -> V, keyLength: Key -> nat, hasDependency: bool, unset: M)

  /** `createdAt` is in Unix milliseconds, cut from the clock reading `stampedAt`. */
  datatype Entry<M, V> =
    Entry(value: V, compareValue: M, createdAt: int, markedAt: nat, loadedAt: nat, stampedAt: int)

  /** How far one run of the function handed to singleflight has come. `Stored` and `Broken`
      have run it; the key is still taken, and a caller may still join, until the return. */
  datatype Phase<M, V> =
    | Started
    | Marked(compareValue: M, markedAt: nat)
    | Loaded(compareValue: M, markedAt: nat, value: V, loadedAt: nat)
    | Stamped(entry: Entry<M, V>)
    | Stored(value: V, loadedAt: nat)
    | Broken
    | Finished(value: V, loadedAt: nat, finishedAt: nat)
    | Failed(finishedAt: nat)

  datatype Flight<Key, M, V> = Flight(cacher: nat, key: Key, startedAt: nat, phase: Phase<M, V>) {
    predicate Active() { !phase.Finished? && !phase.Failed? }
  }

  /** Where the value of a successful `Try` came from. */
  datatype Via =
    | Grace(entryLoadedAt: nat, stampedAt: int, readAt: int)
    | NoDependency(entryLoadedAt: nat)
    | Matched(checkedAt: nat)
    | Reloaded(flight: nat)

  /** Where one call of `Try` stands; `begunAt` is the position in `history` when it began. */
  datatype Pc<M, V> =
    | Looking
    | Holding(entry: Entry<M, V>)
    | Checking(entry: Entry<M, V>)
    | Dropping
    | Reloading
    | Waiting(flight: nat)
    | Returned(value: V, via: Via)
    | Errored

  datatype Caller<Key, M, V> = Caller(cacher: nat, key: Key, begunAt: nat, pc: Pc<M, V>)

  datatype State<Db, Key, M, V> = State(
    history: seq<Db>,
    clock: int,
    cache: map<Key, Entry<M, V>>,
    flights: seq<Flight<Key, M, V>>,
    callers: seq<Caller<Key, M, V>>)

  /** `ok` says whether the backend or database call of the step succeeded. */
  datatype Label<Db, Key> =
    | Write(db: Db)
    | Tick(to: int)
    | Expire(key: Key)
    | Begin(cacher: nat, key: Key)
    | LoadCache(caller: nat, ok: bool)
    | ReadClock(caller: nat)
    | Check(caller: nat, ok: bool)
    | Drop(caller: nat, ok: bool)
    | Enter(caller: nat)
    | Mark(flight: nat, ok: bool)
    | RunLoader(flight: nat, ok: bool)
    | Stamp(flight: nat)
    | Store(flight: nat, ok: bool)
    | Return(flight: nat)
    | Collect(caller: nat)

  function Init<Db, Key, M, V>(db: Db): State<Db, Key, M, V> { State([db], 0, map[], [], []) }

  function Move<Db, Key, M, V>(s: State<Db, Key, M, V>, c: nat, pc: Pc<M, V>): State<Db, Key, M, V>
    requires c < |s.callers|
  {
    s.(callers := s.callers[c := s.callers[c].(pc := pc)])
  }

  function Advance<Db, Key, M, V>(s: State<Db, Key, M, V>, f: nat, phase: Phase<M, V>): State<Db, Key, M, V>
    requires f < |s.flights|
  {
    s.(flights := s.flights[f := s.flights[f].(phase := phase)])
  }

  /** What a holder of a cached entry does once it has read the clock. */
  function AfterClock<M, V>(hasDependency: bool, e: Entry<M, V>, now: int): Pc<M, V> {
    var age := now - e.createdAt * NANOS_PER_MILLI;
    if age < 0 then Reloading
    else if age <= GRACE_WINDOW then Returned(e.value, Grace(e.loadedAt, e.stampedAt, now))
    else if !hasDependency then Returned(e.value, NoDependency(e.loadedAt))
    else Checking(e)
  }

  /** The flight in progress for this cacher and key; `|flights|` when there is none. */
  function ActiveFlight<Key(==), M, V>(flights: seq<Flight<Key, M, V>>, cacher: nat, key: Key): (f: nat)
    ensures f <= |flights|
    ensures f < |flights| ==> flights[f].Active() && flights[f].cacher == cacher && flights[f].key == key
    ensures f == |flights| ==>
      forall g | 0 <= g < |flights| :: !(flights[g].Active() && flights[g].cacher == cacher && flights[g].key == key)
  {
    if flights == [] then 0
    else
      var last := flights[|flights| - 1];
      if last.Active() && last.cacher == cacher && last.key == key then |flights| - 1
      else
        var f := ActiveFlight(flights[..|flights| - 1], cacher, key);
        if f == |flights| - 1 then |flights| else f
  }

  function StepCaller<Db, Key(==), M(==), V>(
    src: Source<Db, Key, M, V>, s: State<Db, Key, M, V>, c: nat, l: Label<Db, Key>): State<Db, Key, M, V>
    requires |s.history| > 0 && c < |s.callers|
  {
    var now, me := |s.history| - 1, s.callers[c];
    match me.pc
    case Looking =>
      if !l.LoadCache? then s
      else if l.ok && me.key in s.cache then Move(s, c, Holding(s.cache[me.key]))
      else Move(s, c, Reloading)
    case Holding(e) =>
      if l.ReadClock? then Move(s, c, AfterClock(src.hasDependency, e, s.clock)) else s
    case Checking(e) =>
      if !l.Check? then s
      else if !l.ok then Move(s, c, Reloading)
      else if e.compareValue == src.marker(s.history[now]) then Move(s, c, Returned(e.value, Matched(now)))
      else Move(s, c, Dropping)
    case Dropping =>
      if !l.Drop? then s
      else
        var s' := if l.ok then s.(cache := s.cache - {me.key}) else s;
        Move(s', c, Reloading)
    case Reloading =>
      if !l.Enter? then s
      else
        var f := ActiveFlight(s.flights, me.cacher, me.key);
        var s' :=
          if f < |s.flights| then s
          else s.(flights := s.flights + [Flight(me.cacher, me.key, now, Started)]);
        Move(s', c, Waiting(f))
    case Waiting(f) =>
      if !l.Collect? || f >= |s.flights| then s
      else if s.flights[f].phase.Finished? then Move(s, c, Returned(s.flights[f].phase.value, Reloaded(f)))
      else if s.flights[f].phase.Failed? then Move(s, c, Errored)
      else s
    case Returned(_, _) => s
    case Errored => s
  }

  function StepFlight<Db, Key(==), M, V>(
    src: Source<Db, Key, M, V>, s: State<Db, Key, M, V>, f: nat, l: Label<Db, Key>): State<Db, Key, M, V>
    requires |s.history| > 0 && f < |s.flights|
  {
    var now, key := |s.history| - 1, s.flights[f].key;
    match s.flights[f].phase
    case Started =>
      if !l.Mark? then s
      else if !src.hasDependency then Advance(s, f, Marked(src.unset, now))
      else if l.ok then Advance(s, f, Marked(src.marker(s.history[now]), now))
      else Advance(s, f, Broken)
    case Marked(m, at) =>
      if !l.RunLoader? then s
      else if l.ok then Advance(s, f, Loaded(m, at, src.load(s.history[now], key), now))
      else Advance(s, f, Broken)
    case Loaded(m, at, v, loadedAt) =>
      if l.Stamp? then Advance(s, f, Stamped(Entry(v, m, s.clock / NANOS_PER_MILLI, at, loadedAt, s.clock))) else s
    case Stamped(e) =>
      if !l.Store? then s
      else
        var s' := if l.ok then s.(cache := s.cache[key := e]) else s;
        Advance(s', f, Stored(e.value, e.loadedAt))
    case Stored(v, loadedAt) => if l.Return? then Advance(s, f, Finished(v, loadedAt, now)) else s
    case Broken => if l.Return? then Advance(s, f, Failed(now)) else s
    case Finished(_, _, _) => s
    case Failed(_) => s
  }

  /** One step; a label that does not apply changes nothing. */
  function Step<Db, Key(==), M(==), V>(src: Source<Db, Key, M, V>, s: State<Db, Key, M, V>, l: Label<Db, Key>)
    : State<Db, Key, M, V>
    requires |s.history| > 0
  {
    match l
    case Write(db) => s.(history := s.history + [db])
    case Tick(to) => s.(clock := to)
    case Expire(key) => s.(cache := s.cache - {key})
    case Begin(cacher, key) =>
      var pc := if src.keyLength(key) > MAX_CACHE_KEY_LEN then Errored else Looking;
      s.(callers := s.callers + [Caller(cacher, key, |s.history| - 1, pc)])
    case Mark(f, _) => if f < |s.flights| then StepFlight(src, s, f, l) else s
    case RunLoader(f, _) => if f < |s.flights| then StepFlight(src, s, f, l) else s
    case Stamp(f) => if f < |s.flights| then StepFlight(src, s, f, l) else s
    case Store(f, _) => if f < |s.flights| then StepFlight(src, s, f, l) else s
    case Return(f) => if f < |s.flights| then StepFlight(src, s, f, l) else s
    case LoadCache(c, _) => if c < |s.callers| then StepCaller(src, s, c, l) else s
    case ReadClock(c) => if c < |s.callers| then StepCaller(src, s, c, l) else s
    case Check(c, _) => if c < |s.callers| then StepCaller(src, s, c, l) else s
    case Drop(c, _) => if c < |s.callers| then StepCaller(src, s, c, l) else s
    case Enter(c) => if c < |s.callers| then StepCaller(src, s, c, l) else s
    case Collect(c) => if c < |s.callers| then StepCaller(src, s, c, l) else s
  }

  function Run<Db, Key(==), M(==), V>(src: Source<Db, Key, M, V>, s: State<Db, Key, M, V>, ls: seq<Label<Db, Key>>)
    : (r: State<Db, Key, M, V>)
    requires |s.history| > 0
    ensures s.history <= r.history
    decreases |ls|
  {
    if ls == [] then s else Run(src, Step(src, s, ls[0]), ls[1..])
  }

  // ----- what every step keeps -----

  ghost predicate LoadOk<Db, Key, M, V>(src: Source<Db, Key, M, V>, h: seq<Db>, key: Key, v: V, at: nat) {
    at < |h| && v == src.load(h[at], key)
  }

  ghost predicate MarkOk<Db, Key, M, V>(src: Source<Db, Key, M, V>, h: seq<Db>, m: M, at: nat) {
    at < |h| && (src.hasDependency ==> m == src.marker(h[at]))
  }

  /** The marker was read no later than the load: this order is what revalidation rests on. */
  ghost predicate EntryOk<Db, Key, M, V>(src: Source<Db, Key, M, V>, h: seq<Db>, key: Key, e: Entry<M, V>) {
    && e.markedAt <= e.loadedAt
    && MarkOk(src, h, e.compareValue, e.markedAt)
    && LoadOk(src, h, key, e.value, e.loadedAt)
    && e.createdAt * NANOS_PER_MILLI <= e.stampedAt < (e.createdAt + 1) * NANOS_PER_MILLI
  }

  ghost predicate FlightOk<Db, Key, M, V>(src: Source<Db, Key, M, V>, h: seq<Db>, f: Flight<Key, M, V>) {
    && f.startedAt < |h|
    && match f.phase {
         case Started => true
         case Marked(m, at) => f.startedAt <= at && MarkOk(src, h, m, at)
         case Loaded(m, at, v, loadedAt) =>
           f.startedAt <= at <= loadedAt && MarkOk(src, h, m, at) && LoadOk(src, h, f.key, v, loadedAt)
         case Stamped(e) => f.startedAt <= e.loadedAt && EntryOk(src, h, f.key, e)
         case Stored(v, loadedAt) => f.startedAt <= loadedAt && LoadOk(src, h, f.key, v, loadedAt)
         case Broken => true
         case Finished(v, loadedAt, finishedAt) =>
           f.startedAt <= loadedAt <= finishedAt < |h| && LoadOk(src, h, f.key, v, loadedAt)
         case Failed(finishedAt) => f.startedAt <= finishedAt < |h|
       }
  }

  /** A value served because its marker matched stood in the database when it was checked. */
  ghost predicate Current<Db, Key, M, V>(src: Source<Db, Key, M, V>, h: seq<Db>, c: Caller<Key, M, V>) {
    c.pc.Returned? && c.pc.via.Matched? ==> LoadOk(src, h, c.key, c.pc.value, c.pc.via.checkedAt)
  }

  /** What is true of every served value, whatever the marker does. */
  ghost predicate ServedOk<Db, Key, M, V>(
    src: Source<Db, Key, M, V>, h: seq<Db>, fs: seq<Flight<Key, M, V>>, c: Caller<Key, M, V>)
    requires c.pc.Returned?
  {
    match c.pc.via
    case Grace(at, stampedAt, readAt) =>
      LoadOk(src, h, c.key, c.pc.value, at) && -NANOS_PER_MILLI < readAt - stampedAt <= GRACE_WINDOW
    case NoDependency(at) => !src.hasDependency && LoadOk(src, h, c.key, c.pc.value, at)
    case Matched(at) =>
      && src.hasDependency && c.begunAt <= at < |h|
      && exists i, j :: MatchWitness(src, h, c.key, c.pc.value, i, j, at)
    case Reloaded(f) =>
      && f < |fs| && fs[f].key == c.key && fs[f].phase.Finished?
      && c.pc.value == fs[f].phase.value && c.begunAt <= fs[f].phase.finishedAt
  }

  /** The marker at `i` was the one found at `at`; the value was loaded in between, at `j`. */
  ghost predicate MatchWitness<Db, Key, M, V>(
    src: Source<Db, Key, M, V>, h: seq<Db>, key: Key, v: V, i: nat, j: nat, at: nat)
  {
    i <= j <= at < |h| && src.marker(h[i]) == src.marker(h[at]) && LoadOk(src, h, key, v, j)
  }

  ghost predicate CallerOk<Db, Key, M, V>(
    src: Source<Db, Key, M, V>, h: seq<Db>, fs: seq<Flight<Key, M, V>>, c: Caller<Key, M, V>)
  {
    && c.begunAt < |h|
    && (!c.pc.Errored? ==> src.keyLength(c.key) <= MAX_CACHE_KEY_LEN)
    && match c.pc {
         case Holding(e) => EntryOk(src, h, c.key, e)
         case Checking(e) => src.hasDependency && EntryOk(src, h, c.key, e)
         case Waiting(f) =>
           && f < |fs| && fs[f].key == c.key
           && (fs[f].phase.Finished? ==> c.begunAt <= fs[f].phase.finishedAt)
         case Returned(_, _) => ServedOk(src, h, fs, c)
         case _ => true
       }
  }

  ghost predicate Inv<Db, Key, M, V>(src: Source<Db, Key, M, V>, s: State<Db, Key, M, V>) {
    && |s.history| > 0
    && (forall k | k in s.cache :: EntryOk(src, s.history, k, s.cache[k]))
    && (forall f | 0 <= f < |s.flights| :: FlightOk(src, s.history, s.flights[f]))
    && (forall c | 0 <= c < |s.callers| :: CallerOk(src, s.history, s.flights, s.callers[c]))
  }

  lemma CallerOkLater<Db, Key, M, V>(
    src: Source<Db, Key, M, V>, h: seq<Db>, db: Db, fs: seq<Flight<Key, M, V>>, c: Caller<Key, M, V>)
    requires CallerOk(src, h, fs, c)
    ensures CallerOk(src, h + [db], fs, c)
  {
    if c.pc.Returned? && c.pc.via.Matched? {
      var i, j :| MatchWitness(src, h, c.key, c.pc.value, i, j, c.pc.via.checkedAt);
      assert MatchWitness(src, h + [db], c.key, c.pc.value, i, j, c.pc.via.checkedAt);
    }
  }

  lemma WriteKeepsInv<Db, Key, M, V>(src: Source<Db, Key, M, V>, s: State<Db, Key, M, V>, db: Db)
    requires Inv(src, s)
    ensures Inv(src, s.(history := s.history + [db]))
  {
    forall c | 0 <= c < |s.callers|
      ensures CallerOk(src, s.history + [db], s.flights, s.callers[c])
    {
      CallerOkLater(src, s.history, db, s.flights, s.callers[c]);
    }
  }

  lemma FlightAdvances<Db, Key, M, V>(src: Source<Db, Key, M, V>, s: State<Db, Key, M, V>, f: nat, l: Label<Db, Key>)
    requires Inv(src, s) && f < |s.flights|
    ensures var s' := StepFlight(src, s, f, l);
            && s'.callers == s.callers && s'.history == s.history && |s'.flights| == |s.flights|
            && (forall g | 0 <= g < |s.flights| && g != f :: s'.flights[g] == s.flights[g])
            && FlightOk(src, s.history, s'.flights[f])
            && forall k | k in s'.cache :: EntryOk(src, s.history, k, s'.cache[k])
  {
    assert FlightOk(src, s.history, s.flights[f]);
  }

  lemma FlightKeepsInv<Db, Key, M, V>(src: Source<Db, Key, M, V>, s: State<Db, Key, M, V>, f: nat, l: Label<Db, Key>)
    requires Inv(src, s) && f < |s.flights|
    ensures Inv(src, StepFlight(src, s, f, l))
  {
    var s' := StepFlight(src, s, f, l);
    FlightAdvances(src, s, f, l);
    forall c | 0 <= c < |s.callers|
      ensures CallerOk(src, s'.history, s'.flights, s'.callers[c])
    {
      assert CallerOk(src, s.history, s.flights, s.callers[c]);
    }
  }

  lemma MoveKeepsInv<Db, Key, M, V>(src: Source<Db, Key, M, V>, s: State<Db, Key, M, V>, c: nat, pc: Pc<M, V>)
    requires Inv(src, s) && c < |s.callers|
    requires CallerOk(src, s.history, s.flights, s.callers[c].(pc := pc))
    ensures Inv(src, Move(s, c, pc))
  {
  }

  lemma TakeOffKeepsInv<Db, Key, M, V>(src: Source<Db, Key, M, V>, s: State<Db, Key, M, V>, cacher: nat, key: Key)
    requires Inv(src, s)
    ensures Inv(src, s.(flights := s.flights + [Flight(cacher, key, |s.history| - 1, Started)]))
  {
    var fs := s.flights + [Flight(cacher, key, |s.history| - 1, Started)];
    forall c | 0 <= c < |s.callers| ensures CallerOk(src, s.history, fs, s.callers[c]) {
      assert CallerOk(src, s.history, s.flights, s.callers[c]);
    }
  }

  lemma CallerKeepsInv<Db, Key, M, V>(src: Source<Db, Key, M, V>, s: State<Db, Key, M, V>, c: nat, l: Label<Db, Key>)
    requires Inv(src, s) && c < |s.callers|
    ensures Inv(src, StepCaller(src, s, c, l))
  {
    match s.callers[c].pc
    case Looking => LookKeepsInv(src, s, c, l);
    case Holding(_) => ClockKeepsInv(src, s, c, l);
    case Checking(_) => CheckKeepsInv(src, s, c, l);
    case Dropping => DropKeepsInv(src, s, c, l);
    case Reloading => EnterKeepsInv(src, s, c, l);
    case Waiting(_) => CollectKeepsInv(src, s, c, l);
    case Returned(_, _) =>
    case Errored =>
  }

  lemma LookKeepsInv<Db, Key, M, V>(src: Source<Db, Key, M, V>, s: State<Db, Key, M, V>, c: nat, l: Label<Db, Key>)
    requires Inv(src, s) && c < |s.callers| && s.callers[c].pc.Looking?
    ensures Inv(src, StepCaller(src, s, c, l))
  {
    var me := s.callers[c];
    assert CallerOk(src, s.history, s.flights, me);
    if l.LoadCache? {
      MoveKeepsInv(src, s, c, if l.ok && me.key in s.cache then Holding(s.cache[me.key]) else Reloading);
    }
  }

  lemma ClockKeepsInv<Db, Key, M, V>(src: Source<Db, Key, M, V>, s: State<Db, Key, M, V>, c: nat, l: Label<Db, Key>)
    requires Inv(src, s) && c < |s.callers| && s.callers[c].pc.Holding?
    ensures Inv(src, StepCaller(src, s, c, l))
  {
    assert CallerOk(src, s.history, s.flights, s.callers[c]);
    if l.ReadClock? { MoveKeepsInv(src, s, c, AfterClock(src.hasDependency, s.callers[c].pc.entry, s.clock)); }
  }

  lemma CheckKeepsInv<Db, Key, M, V>(src: Source<Db, Key, M, V>, s: State<Db, Key, M, V>, c: nat, l: Label<Db, Key>)
    requires Inv(src, s) && c < |s.callers| && s.callers[c].pc.Checking?
    ensures Inv(src, StepCaller(src, s, c, l))
  {
    var now, me, e := |s.history| - 1, s.callers[c], s.callers[c].pc.entry;
    assert CallerOk(src, s.history, s.flights, me);
    if l.Check? {
      if l.ok && e.compareValue == src.marker(s.history[now]) {
        assert MatchWitness(src, s.history, me.key, e.value, e.markedAt, e.loadedAt, now);
        MoveKeepsInv(src, s, c, Returned(e.value, Matched(now)));
      } else {
        MoveKeepsInv(src, s, c, if l.ok then Dropping else Reloading);
      }
    }
  }

  lemma DropKeepsInv<Db, Key, M, V>(src: Source<Db, Key, M, V>, s: State<Db, Key, M, V>, c: nat, l: Label<Db, Key>)
    requires Inv(src, s) && c < |s.callers| && s.callers[c].pc.Dropping?
    ensures Inv(src, StepCaller(src, s, c, l))
  {
    assert CallerOk(src, s.history, s.flights, s.callers[c]);
    if l.Drop? { MoveKeepsInv(src, if l.ok then s.(cache := s.cache - {s.callers[c].key}) else s, c, Reloading); }
  }

  lemma EnterKeepsInv<Db, Key, M, V>(src: Source<Db, Key, M, V>, s: State<Db, Key, M, V>, c: nat, l: Label<Db, Key>)
    requires Inv(src, s) && c < |s.callers| && s.callers[c].pc.Reloading?
    ensures Inv(src, StepCaller(src, s, c, l))
  {
    var me := s.callers[c];
    assert CallerOk(src, s.history, s.flights, me);
    if l.Enter? {
      TakeOffKeepsInv(src, s, me.cacher, me.key);
      var f := ActiveFlight(s.flights, me.cacher, me.key);
      var s' := if f < |s.flights| then s
                else s.(flights := s.flights + [Flight(me.cacher, me.key, |s.history| - 1, Started)]);
      MoveKeepsInv(src, s', c, Waiting(f));
    }
  }

  lemma CollectKeepsInv<Db, Key, M, V>(src: Source<Db, Key, M, V>, s: State<Db, Key, M, V>, c: nat, l: Label<Db, Key>)
    requires Inv(src, s) && c < |s.callers| && s.callers[c].pc.Waiting?
    ensures Inv(src, StepCaller(src, s, c, l))
  {
    assert CallerOk(src, s.history, s.flights, s.callers[c]);
    var phase := s.flights[s.callers[c].pc.flight].phase;
    if l.Collect? {
      if phase.Finished? {
        MoveKeepsInv(src, s, c, Returned(phase.value, Reloaded(s.callers[c].pc.flight)));
      } else if phase.Failed? {
        MoveKeepsInv(src, s, c, Errored);
      }
    }
  }

  lemma StepKeepsInv<Db, Key, M, V>(src: Source<Db, Key, M, V>, s: State<Db, Key, M, V>, l: Label<Db, Key>)
    requires Inv(src, s)
    ensures Inv(src, Step(src, s, l))
  {
    match l
    case Write(db) => WriteKeepsInv(src, s, db);
    case Tick(_) =>
    case Expire(_) =>
    case Begin(_, _) =>
    case Mark(f, _) => if f < |s.flights| { FlightKeepsInv(src, s, f, l); }
    case RunLoader(f, _) => if f < |s.flights| { FlightKeepsInv(src, s, f, l); }
    case Stamp(f) => if f < |s.flights| { FlightKeepsInv(src, s, f, l); }
    case Store(f, _) => if f < |s.flights| { FlightKeepsInv(src, s, f, l); }
    case Return(f) => if f < |s.flights| { FlightKeepsInv(src, s, f, l); }
    case LoadCache(c, _) => if c < |s.callers| { CallerKeepsInv(src, s, c, l); }
    case ReadClock(c) => if c < |s.callers| { CallerKeepsInv(src, s, c, l); }
    case Check(c, _) => if c < |s.callers| { CallerKeepsInv(src, s, c, l); }
    case Drop(c, _) => if c < |s.callers| { CallerKeepsInv(src, s, c, l); }
    case Enter(c) => if c < |s.callers| { CallerKeepsInv(src, s, c, l); }
    case Collect(c) => if c < |s.callers| { CallerKeepsInv(src, s, c, l); }
  }

  lemma {:induction false} RunKeepsInv<Db, Key, M, V>(
    src: Source<Db, Key, M, V>, s: State<Db, Key, M, V>, ls: seq<Label<Db, Key>>)
    requires Inv(src, s)
    ensures Inv(src, Run(src, s, ls))
    decreases |ls|
  {
    if ls != [] {
      StepKeepsInv(src, s, ls[0]);
      RunKeepsInv(src, Step(src, s, ls[0]), ls[1..]);
    }
  }

  // ----- reachable states -----

  ghost predicate Reachable<Db(!new), Key(!new), M(!new), V(!new)>(
    src: Source<Db, Key, M, V>, db: Db, s: State<Db, Key, M, V>)
  {
    exists ls :: Run(src, Init(db), ls) == s
  }

  lemma {:induction false} RunAppends<Db, Key, M, V>(
    src: Source<Db, Key, M, V>, s: State<Db, Key, M, V>, ls: seq<Label<Db, Key>>, l: Label<Db, Key>)
    requires |s.history| > 0
    ensures Run(src, s, ls + [l]) == Step(src, Run(src, s, ls), l)
    decreases |ls|
  {
    if ls == [] {
      assert ls + [l] == [l];
    } else {
      assert (ls + [l])[1..] == ls[1..] + [l];
      RunAppends(src, Step(src, s, ls[0]), ls[1..], l);
    }
  }

  lemma ReachStep<Db(!new), Key(!new), M(!new), V(!new)>(
    src: Source<Db, Key, M, V>, db: Db, s: State<Db, Key, M, V>, l: Label<Db, Key>)
    requires Reachable(src, db, s) && |s.history| > 0
    ensures Reachable(src, db, Step(src, s, l))
  {
    var ls :| Run(src, Init(db), ls) == s;
    RunAppends(src, Init(db), ls, l);
  }

  lemma {:induction false} ReachWrites<Db(!new), Key(!new), M(!new), V(!new)>(
    src: Source<Db, Key, M, V>, db: Db, s: State<Db, Key, M, V>, dbs: seq<Db>)
    requires Reachable(src, db, s) && |s.history| > 0
    ensures Reachable(src, db, s.(history := s.history + dbs))
    decreases |dbs|
  {
    if dbs == [] {
      assert s.history + dbs == s.history;
    } else {
      ReachStep(src, db, s, Write(dbs[0]));
      ReachWrites(src, db, Step(src, s, Write(dbs[0])), dbs[1..]);
      assert s.history + [dbs[0]] + dbs[1..] == s.history + dbs;
    }
  }

  lemma ReachableInv<Db(!new), Key(!new), M(!new), V(!new)>(
    src: Source<Db, Key, M, V>, db: Db, s: State<Db, Key, M, V>)
    requires Reachable(src, db, s)
    ensures Inv(src, s)
  {
    var ls :| Run(src, Init(db), ls) == s;
    RunKeepsInv(src, Init(db), ls);
  }

  // ----- when a matched marker proves the value current -----

  /** Every change of content gives the marker a value it never had before. */
  ghost predicate NeverReused<Db, Key, M, V>(src: Source<Db, Key, M, V>, h: seq<Db>) {
    forall i, j | 0 <= j < i < |h| && h[i] != h[i - 1] :: src.marker(h[j]) != src.marker(h[i])
  }

  /** Between two states with one marker, no key's content differs from the later state's. */
  ghost predicate Versioned<Db, Key(!new), M, V>(src: Source<Db, Key, M, V>, h: seq<Db>) {
    forall i, j, k, key | 0 <= i <= j <= k < |h| && src.marker(h[i]) == src.marker(h[k]) ::
      src.keyLength(key) <= MAX_CACHE_KEY_LEN ==> src.load(h[j], key) == src.load(h[k], key)
  }

  lemma Unversioned<Db, Key(!new), M, V>(src: Source<Db, Key, M, V>, h: seq<Db>, i: nat, j: nat, k: nat, key: Key)
    requires i <= j <= k < |h| && src.marker(h[i]) == src.marker(h[k])
    requires src.keyLength(key) <= MAX_CACHE_KEY_LEN && src.load(h[j], key) != src.load(h[k], key)
    ensures !Versioned(src, h)
  {
  }

  lemma {:induction false} ConstantUntil<Db, Key, M, V>(src: Source<Db, Key, M, V>, h: seq<Db>, i: nat, j: nat, k: nat)
    requires NeverReused(src, h) && i <= j <= k < |h| && src.marker(h[i]) == src.marker(h[k])
    ensures h[j] == h[k]
    decreases k - j
  {
    if j < k {
      assert h[k] == h[k - 1];
      ConstantUntil(src, h, i, j, k - 1);
    }
  }

  lemma NeverReusedVersions<Db, Key(!new), M, V>(src: Source<Db, Key, M, V>, h: seq<Db>)
    requires NeverReused(src, h)
    ensures Versioned(src, h)
  {
    forall i, j, k, key | 0 <= i <= j <= k < |h| && src.marker(h[i]) == src.marker(h[k])
      ensures src.keyLength(key) <= MAX_CACHE_KEY_LEN ==> src.load(h[j], key) == src.load(h[k], key)
    {
      ConstantUntil(src, h, i, j, k);
    }
  }

  /** In every interleaving over these database states, each value served because its marker
      matched is what the loader would have returned at the moment of the check. */
  ghost predicate MatchesAreCurrent<Db(!new), Key(!new), M(!new), V(!new)>(src: Source<Db, Key, M, V>, h: seq<Db>)
    requires |h| > 0
  {
    forall s: State<Db, Key, M, V>, c | Reachable(src, h[0], s) && s.history == h && c in s.callers :: Current(src, h, c)
  }

  lemma InitInv<Db(!new), Key(!new), M(!new), V(!new)>(src: Source<Db, Key, M, V>, db: Db)
    ensures Inv(src, Init(db)) && Reachable(src, db, Init(db))
  {
    assert Run(src, Init(db), []) == Init(db);
  }

  lemma MatchedIsCurrent<Db(!new), Key(!new), M(!new), V(!new)>(
    src: Source<Db, Key, M, V>, db: Db, s: State<Db, Key, M, V>, c: nat)
    requires Reachable(src, db, s) && Versioned(src, s.history) && c < |s.callers|
    ensures Current(src, s.history, s.callers[c])
  {
    ReachableInv(src, db, s);
    var me, h := s.callers[c], s.history;
    if me.pc.Returned? && me.pc.via.Matched? {
      assert CallerOk(src, h, s.flights, me);
      var i, j :| MatchWitness(src, h, me.key, me.pc.value, i, j, me.pc.via.checkedAt);
    }
  }

  /** The state after one caller loaded `key` at position j under the marker read at i, and
      a second caller, long past the grace window, found the stored marker to match at k. */
  ghost function Stale<Db, Key, M, V>(src: Source<Db, Key, M, V>, h: seq<Db>, key: Key, i: nat, j: nat, k: nat)
    : State<Db, Key, M, V>
    requires i <= j <= k < |h|
  {
    var v := src.load(h[j], key);
    State(h[..k + 1], 2 * GRACE_WINDOW, map[key := Entry(v, src.marker(h[i]), 0, i, j, 0)],
          [Flight(0, key, i, Finished(v, j, j))],
          [Caller(0, key, i, Waiting(0)), Caller(0, key, k, Returned(v, Matched(k)))])
  }

  lemma FlightReached<Db(!new), Key(!new), M(!new), V(!new)>(
    src: Source<Db, Key, M, V>, db: Db, s: State<Db, Key, M, V>, key: Key, i: nat)
    requires Reachable(src, db, s) && src.keyLength(key) <= MAX_CACHE_KEY_LEN
    requires s.cache == map[] && s.flights == [] && s.callers == [] && |s.history| == i + 1
    ensures Reachable(src, db, s.(callers := [Caller(0, key, i, Waiting(0))], flights := [Flight(0, key, i, Started)]))
  {
    var s1 := s.(callers := [Caller(0, key, i, Looking)]);
    ReachStep(src, db, s, Begin(0, key));
    assert Step(src, s, Begin(0, key)) == s1;
    var s2 := s.(callers := [Caller(0, key, i, Reloading)]);
    ReachStep(src, db, s1, LoadCache(0, true));
    assert Step(src, s1, LoadCache(0, true)) == s2;
    var s3 := s.(callers := [Caller(0, key, i, Waiting(0))], flights := [Flight(0, key, i, Started)]);
    ReachStep(src, db, s2, Enter(0));
    assert Step(src, s2, Enter(0)) == s3;
  }

  lemma MarkReached<Db(!new), Key(!new), M(!new), V(!new)>(src: Source<Db, Key, M, V>, h: seq<Db>, key: Key, i: nat)
    requires i < |h| && src.hasDependency && src.keyLength(key) <= MAX_CACHE_KEY_LEN
    ensures Reachable(src, h[0], State(h[..i + 1], 0, map[],
              [Flight(0, key, i, Marked(src.marker(h[i]), i))], [Caller(0, key, i, Waiting(0))]))
  {
    var db, s0 := h[0], State(h[..i + 1], 0, map[], [], []);
    InitInv(src, db);
    ReachWrites(src, db, Init(db), h[1..i + 1]);
    assert [h[0]] + h[1..i + 1] == h[..i + 1];
    FlightReached(src, db, s0, key, i);
    var s1 := s0.(callers := [Caller(0, key, i, Waiting(0))], flights := [Flight(0, key, i, Started)]);
    ReachStep(src, db, s1, Mark(0, true));
    assert Step(src, s1, Mark(0, true)) == s1.(flights := [Flight(0, key, i, Marked(src.marker(h[i]), i))]);
  }

  lemma LoadReached<Db(!new), Key(!new), M(!new), V(!new)>(
    src: Source<Db, Key, M, V>, h: seq<Db>, key: Key, i: nat, j: nat)
    requires i <= j < |h| && src.hasDependency && src.keyLength(key) <= MAX_CACHE_KEY_LEN
    ensures var v := src.load(h[j], key);
            Reachable(src, h[0], State(h[..j + 1], 0, map[key := Entry(v, src.marker(h[i]), 0, i, j, 0)],
              [Flight(0, key, i, Finished(v, j, j))], [Caller(0, key, i, Waiting(0))]))
  {
    MarkReached(src, h, key, i);
    var s2 := State(h[..i + 1], 0, map[], [Flight(0, key, i, Marked(src.marker(h[i]), i))], [Caller(0, key, i, Waiting(0))]);
    ReachWrites(src, h[0], s2, h[i + 1..j + 1]);
    assert h[..i + 1] + h[i + 1..j + 1] == h[..j + 1];
    LoadFinished(src, h, key, i, j, s2.(history := h[..j + 1]));
  }

  lemma LoadStamped<Db(!new), Key(!new), M(!new), V(!new)>(
    src: Source<Db, Key, M, V>, h: seq<Db>, key: Key, i: nat, j: nat, s: State<Db, Key, M, V>)
    requires i <= j < |h| && Reachable(src, h[0], s)
    requires s == State(h[..j + 1], 0, map[], [Flight(0, key, i, Marked(src.marker(h[i]), i))], [Caller(0, key, i, Waiting(0))])
    ensures Reachable(src, h[0],
              s.(flights := [Flight(0, key, i, Stamped(Entry(src.load(h[j], key), src.marker(h[i]), 0, i, j, 0)))]))
  {
    var db, m, v := h[0], src.marker(h[i]), src.load(h[j], key);
    var s1 := s.(flights := [Flight(0, key, i, Loaded(m, i, v, j))]);
    ReachStep(src, db, s, RunLoader(0, true));
    assert Step(src, s, RunLoader(0, true)) == s1;
    ReachStep(src, db, s1, Stamp(0));
    assert Step(src, s1, Stamp(0)) == s.(flights := [Flight(0, key, i, Stamped(Entry(v, m, 0, i, j, 0)))]);
  }

  lemma LoadFinished<Db(!new), Key(!new), M(!new), V(!new)>(
    src: Source<Db, Key, M, V>, h: seq<Db>, key: Key, i: nat, j: nat, s: State<Db, Key, M, V>)
    requires i <= j < |h| && Reachable(src, h[0], s)
    requires s == State(h[..j + 1], 0, map[], [Flight(0, key, i, Marked(src.marker(h[i]), i))], [Caller(0, key, i, Waiting(0))])
    ensures var v := src.load(h[j], key);
            Reachable(src, h[0], State(h[..j + 1], 0, map[key := Entry(v, src.marker(h[i]), 0, i, j, 0)],
              [Flight(0, key, i, Finished(v, j, j))], [Caller(0, key, i, Waiting(0))]))
  {
    var db, m, v := h[0], src.marker(h[i]), src.load(h[j], key);
    var e := Entry(v, m, 0, i, j, 0);
    var s2 := s.(flights := [Flight(0, key, i, Stamped(e))]);
    LoadStamped(src, h, key, i, j, s);
    var s3 := s.(flights := [Flight(0, key, i, Stored(v, j))], cache := map[key := e]);
    ReachStep(src, db, s2, Store(0, true));
    assert Step(src, s2, Store(0, true)) == s3;
    ReachStep(src, db, s3, Return(0));
    assert Step(src, s3, Return(0)) == s3.(flights := [Flight(0, key, i, Finished(v, j, j))]);
  }

  lemma EntryHeld<Db(!new), Key(!new), M(!new), V(!new)>(
    src: Source<Db, Key, M, V>, db: Db, s: State<Db, Key, M, V>, key: Key, e: Entry<M, V>, first: Caller<Key, M, V>)
    requires Reachable(src, db, s) && src.keyLength(key) <= MAX_CACHE_KEY_LEN
    requires |s.history| > 0 && s.cache == map[key := e] && s.callers == [first]
    ensures Reachable(src, db, s.(callers := [first, Caller(0, key, |s.history| - 1, Holding(e))]))
  {
    var now := |s.history| - 1;
    ReachStep(src, db, s, Begin(0, key));
    var s1 := s.(callers := [first, Caller(0, key, now, Looking)]);
    assert Step(src, s, Begin(0, key)) == s1;
    ReachStep(src, db, s1, LoadCache(1, true));
    assert Step(src, s1, LoadCache(1, true)) == s.(callers := [first, Caller(0, key, now, Holding(e))]);
  }

  lemma EntryServed<Db(!new), Key(!new), M(!new), V(!new)>(
    src: Source<Db, Key, M, V>, db: Db, s: State<Db, Key, M, V>, key: Key, e: Entry<M, V>, first: Caller<Key, M, V>)
    requires Reachable(src, db, s) && src.hasDependency && src.keyLength(key) <= MAX_CACHE_KEY_LEN
    requires |s.history| > 0 && s.cache == map[key := e] && s.callers == [first] && s.clock == 2 * GRACE_WINDOW
    requires e.createdAt == 0 && e.compareValue == src.marker(s.history[|s.history| - 1])
    ensures var now := |s.history| - 1;
            Reachable(src, db, s.(callers := [first, Caller(0, key, now, Returned(e.value, Matched(now)))]))
  {
    var now := |s.history| - 1;
    EntryHeld(src, db, s, key, e, first);
    var s2 := s.(callers := [first, Caller(0, key, now, Holding(e))]);
    ReachStep(src, db, s2, ReadClock(1));
    var s3 := s.(callers := [first, Caller(0, key, now, Checking(e))]);
    assert Step(src, s2, ReadClock(1)) == s3;
    ReachStep(src, db, s3, Check(1, true));
    assert Step(src, s3, Check(1, true)).callers == [first, Caller(0, key, now, Returned(e.value, Matched(now)))];
  }

  lemma StaleReached<Db(!new), Key(!new), M(!new), V(!new)>(
    src: Source<Db, Key, M, V>, h: seq<Db>, key: Key, i: nat, j: nat, k: nat)
    requires i <= j <= k < |h| && src.hasDependency && src.keyLength(key) <= MAX_CACHE_KEY_LEN
    requires src.marker(h[i]) == src.marker(h[k])
    ensures Reachable(src, h[0], Stale(src, h, key, i, j, k))
  {
    var db, m, v := h[0], src.marker(h[i]), src.load(h[j], key);
    var e := Entry(v, m, 0, i, j, 0);
    var first := Caller(0, key, i, Waiting(0));
    LoadReached(src, h, key, i, j);
    var s0 := State(h[..j + 1], 0, map[key := e], [Flight(0, key, i, Finished(v, j, j))], [first]);
    ReachWrites(src, db, s0, h[j + 1..k + 1]);
    assert h[..j + 1] + h[j + 1..k + 1] == h[..k + 1];
    var s1 := s0.(history := h[..k + 1]);
    ReachStep(src, db, s1, Tick(2 * GRACE_WINDOW));
    EntryServed(src, db, s1.(clock := 2 * GRACE_WINDOW), key, e, first);
  }

  /** Revalidation serves current values in every interleaving exactly when the marker
      versions the contents: the sufficient half needs the marker read before the load, the
      necessary half builds the run that serves a stale value. */
  lemma RevalidationExact<Db(!new), Key(!new), M(!new), V(!new)>(src: Source<Db, Key, M, V>, h: seq<Db>)
    requires |h| > 0 && src.hasDependency
    ensures MatchesAreCurrent(src, h) <==> Versioned(src, h)
    ensures NeverReused(src, h) ==> MatchesAreCurrent(src, h)
  {
    if NeverReused(src, h) { NeverReusedVersions(src, h); }
    if Versioned(src, h) {
      forall s: State<Db, Key, M, V>, c | Reachable(src, h[0], s) && s.history == h && c in s.callers
        ensures Current(src, h, c)
      {
        var n :| 0 <= n < |s.callers| && s.callers[n] == c;
        MatchedIsCurrent(src, h[0], s, n);
      }
    }
    if MatchesAreCurrent(src, h) {
      forall i, j, k, key |
        0 <= i <= j <= k < |h| && src.marker(h[i]) == src.marker(h[k]) && src.keyLength(key) <= MAX_CACHE_KEY_LEN
        ensures src.load(h[j], key) == src.load(h[k], key)
      {
        CurrentAfterStale(src, h, key, i, j, k);
      }
    }
  }

  lemma CurrentAfterStale<Db(!new), Key(!new), M(!new), V(!new)>(
    src: Source<Db, Key, M, V>, h: seq<Db>, key: Key, i: nat, j: nat, k: nat)
    requires i <= j <= k < |h| && src.hasDependency && src.keyLength(key) <= MAX_CACHE_KEY_LEN
    requires src.marker(h[i]) == src.marker(h[k]) && MatchesAreCurrent(src, h)
    ensures src.load(h[j], key) == src.load(h[k], key)
  {
    StaleReached(src, h, key, i, j, k);
    var s := Stale(src, h, key, i, j, k);
    ReachWrites(src, h[0], s, h[k + 1..]);
    assert h[..k + 1] + h[k + 1..] == h;
    var t := s.(history := h);
    assert t.callers[1] in t.callers;
    assert Current(src, h, t.callers[1]);
  }

  /** Across a single write: the marker moves, or no key's content does. */
  lemma OneWriteExact<Db(!new), Key(!new), M(!new), V(!new)>(src: Source<Db, Key, M, V>, c: Db, d: Db)
    requires src.hasDependency
    ensures MatchesAreCurrent(src, [c, d])
       <==> src.marker(c) != src.marker(d)
            || forall key | src.keyLength(key) <= MAX_CACHE_KEY_LEN :: src.load(c, key) == src.load(d, key)
  {
    RevalidationExact(src, [c, d]);
    if src.marker(c) == src.marker(d) {
      if key :| src.keyLength(key) <= MAX_CACHE_KEY_LEN && src.load(c, key) != src.load(d, key) {
        Unversioned(src, [c, d], 0, 0, 1, key);
      }
    }
  }

  // ----- how stale a served value may be -----

  /** The call saw the value live, at some position of `history` between its begin and now. */
  ghost predicate LiveDuringCall<Db, Key, M, V>(src: Source<Db, Key, M, V>, h: seq<Db>, c: Caller<Key, M, V>)
    requires c.pc.Returned?
  {
    exists x :: c.begunAt <= x < |h| && LoadOk(src, h, c.key, c.pc.value, x)
  }

  /** With a versioning marker, a served value was live during the call, or comes from an
      entry stamped at most the grace window before the clock was read, or from a flight
      that loaded before the call began and was still in progress then. The stamp is the
      full clock reading: cutting it to milliseconds never lengthens the window. */
  lemma BoundedStaleness<Db(!new), Key(!new), M(!new), V(!new)>(
    src: Source<Db, Key, M, V>, db: Db, s: State<Db, Key, M, V>, n: nat)
    requires Reachable(src, db, s) && Versioned(src, s.history) && src.hasDependency
    requires n < |s.callers| && s.callers[n].pc.Returned?
    ensures var c := s.callers[n];
            || LiveDuringCall(src, s.history, c)
            || (c.pc.via.Grace? && LoadOk(src, s.history, c.key, c.pc.value, c.pc.via.entryLoadedAt)
                && c.pc.via.readAt - c.pc.via.stampedAt <= GRACE_WINDOW)
            || (c.pc.via.Reloaded? && c.pc.via.flight < |s.flights|
                && var f := s.flights[c.pc.via.flight];
                f.key == c.key && f.phase.Finished? && LoadOk(src, s.history, c.key, c.pc.value, f.phase.loadedAt)
                && f.startedAt <= f.phase.loadedAt < c.begunAt <= f.phase.finishedAt)
  {
    ReachableInv(src, db, s);
    MatchedIsCurrent(src, db, s, n);
    var c, h := s.callers[n], s.history;
    assert CallerOk(src, h, s.flights, c);
    if c.pc.via.Matched? {
      assert LoadOk(src, h, c.key, c.pc.value, c.pc.via.checkedAt);
    } else if c.pc.via.Reloaded? {
      var f := s.flights[c.pc.via.flight];
      assert FlightOk(src, h, f);
      if c.begunAt <= f.phase.loadedAt {
        assert LoadOk(src, h, c.key, c.pc.value, f.phase.loadedAt);
      }
    }
  }

  // ----- singleflight -----

  /** At most one flight per cacher and key is ever in progress. */
  ghost predicate OneFlightPerKey<Db, Key, M, V>(s: State<Db, Key, M, V>) {
    forall f, g | 0 <= f < g < |s.flights| && s.flights[f].Active() && s.flights[g].Active() ::
      s.flights[f].cacher != s.flights[g].cacher || s.flights[f].key != s.flights[g].key
  }

  lemma {:induction false} SingleFlight<Db, Key, M, V>(
    src: Source<Db, Key, M, V>, s: State<Db, Key, M, V>, ls: seq<Label<Db, Key>>)
    requires |s.history| > 0 && OneFlightPerKey(s)
    ensures OneFlightPerKey(Run(src, s, ls))
    decreases |ls|
  {
    if ls != [] {
      SingleFlightKept(src, s, ls[0]);
      SingleFlight(src, Step(src, s, ls[0]), ls[1..]);
    }
  }

  lemma SingleFlightKept<Db, Key, M, V>(src: Source<Db, Key, M, V>, s: State<Db, Key, M, V>, l: Label<Db, Key>)
    requires |s.history| > 0 && OneFlightPerKey(s)
    ensures OneFlightPerKey(Step(src, s, l))
  {
    var t := Step(src, s, l);
    if |t.flights| == |s.flights| {
      assert forall f | 0 <= f < |s.flights| ::
          t.flights[f].cacher == s.flights[f].cacher && t.flights[f].key == s.flights[f].key &&
          (t.flights[f].Active() ==> s.flights[f].Active());
    } else {
      var me := s.callers[l.caller];
      assert t.flights == s.flights + [Flight(me.cacher, me.key, |s.history| - 1, Started)];
      assert ActiveFlight(s.flights, me.cacher, me.key) == |s.flights|;
    }
  }
}
