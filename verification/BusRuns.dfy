/** Whole sequential runs of the two-tier bus, restarts included, against one flat map. */
module BusRuns {
  import opened ByteStrings
  import opened Utf8
  import opened FlatStore
  import opened PersistentTier
  import opened TransientStore
  import opened TwoTiers
  import opened Permutive

  /** A call, with the delays before each of its clock readings, or a process restart, with
      the registry entries the new process writes. */
  datatype BusEvent =
    | Invoke(op: Op, before: nat, between: nat, last: nat)
    | Restart(registry: Rows)

  function ReadingsOf(now: Instant, e: BusEvent): (t: Readings)
    requires e.Invoke?
    ensures Ascending(now, t)
  {
    Readings(now + e.before, now + e.before + e.between, now + e.before + e.between + e.last)
  }

  // ----- restart -----

  /** Memory is lost, the registry is written, the database files are opened again. */
  function Restarted(s: Tiers, registry: Rows): Tiers {
    Tiers(Untimed(registry), DurableRows(s.rows))
  }

  /** What a restart should do to one flat map: keep exactly the entries without a deadline
      that are not registry entries, and write the registry. */
  function FlatRestart(m: Flat, registry: Rows): Flat {
    (map k | k in m && m[k].deadline.None? && !IsRegistryKey(k) :: m[k]) + Untimed(registry)
  }

  ghost predicate IsRegistry(registry: Rows) {
    forall k :: k in registry ==> IsRegistryKey(k)
  }

  ghost predicate RestartSafe(rows: Rows, registry: Rows) {
    forall k :: k in rows ==>
      if IsRegistryKey(k) then Durable(k) ==> k in registry && registry[k] == rows[k] else Durable(k)
  }

  /** A restart does that exactly when every ordinary row sits in a database file the new
      process recognises and no row hides under a registry key. */
  lemma RestartExact(s: Tiers, now: Instant, registry: Rows)
    requires RegistryOnly(s) && IsRegistry(registry)
    ensures View(Restarted(s, registry), now) == FlatRestart(View(s, now), registry) <==> RestartSafe(s.rows, registry)
  {
    hide Durable, IsRegistryKey;
    var m, n := View(Restarted(s, registry), now), FlatRestart(View(s, now), registry);
    if RestartSafe(s.rows, registry) {
      forall k ensures SameAt(m, n, k) { RestartAt(s, now, registry, k); }
      SameEverywhere(m, n);
    }
    if m == n {
      forall k | k in s.rows
        ensures if IsRegistryKey(k) then Durable(k) ==> k in registry && registry[k] == s.rows[k] else Durable(k)
      {
        assert SameAt(m, n, k);
      }
    }
  }

  lemma RestartAt(s: Tiers, now: Instant, registry: Rows, k: Bytes)
    requires RegistryOnly(s) && IsRegistry(registry) && RestartSafe(s.rows, registry)
    ensures SameAt(View(Restarted(s, registry), now), FlatRestart(View(s, now), registry), k)
  {
    hide Durable, IsRegistryKey;
  }

  /** After a restart the tiers agree exactly when no registry entry covers a row that says
      something else. */
  lemma RestartCoherent(s: Tiers, now: Instant, registry: Rows)
    ensures Coherent(Restarted(s, registry), now) <==>
            forall k :: k in registry && k in DurableRows(s.rows) ==> registry[k] == s.rows[k]
  {
    hide Durable;
    var r := Restarted(s, registry);
    assert forall k :: k in registry ==> k in r.transient && r.transient[k] == Entry(registry[k], None);
  }

  /** The process ends and another starts in the same directory. */
  method RestartBus(bus: PermutiveBus, instance: Bytes, slots: seq<nat>) returns (next: PermutiveBus)
    requires bus.Valid()
    modifies bus.clock
    ensures next.Valid() && IsRegistry(Registry(instance, slots)) && old(bus.clock.now) <= bus.clock.now
    ensures next.State() == Restarted(old(bus.State()), Registry(instance, slots))
  {
    hide Agree, Flatten, Table, Sharded, Namespace, Reloadable, Durable, RegistryKey, IsRegistryKey;
    bus.persistent.RestartsFromRows();
    next := new PermutiveBus(bus.persistent.Directory(), instance, slots, bus.clock);
  }

  /** A method call of the bus is an event of a run, and every event that is a call could be
      one. */
  lemma CallsAreEvents(s: Tiers, now: Instant, op: Op, s': Tiers, now': Instant, answer: Answer)
    ensures Performs(s, now, op, s', now', answer) <==>
            exists before, between, last :: EventIs(s, now, Invoke(op, before, between, last), s', now', answer)
  {
    hide After, Moment, Result;
    if Performs(s, now, op, s', now', answer) {
      var t :| Ascending(now, t) && s' == After(s, t, op) && now' == Moment(s, t, op) && answer == Result(s, t, op);
      var e := Invoke(op, t.first - now, t.second - t.first, t.third - t.second);
      assert ReadingsOf(now, e) == t;
      assert EventIs(s, now, Invoke(op, t.first - now, t.second - t.first, t.third - t.second), s', now', answer);
    }
    if exists before, between, last :: EventIs(s, now, Invoke(op, before, between, last), s', now', answer) {
      var before, between, last :| EventIs(s, now, Invoke(op, before, between, last), s', now', answer);
      Performed(s, now, ReadingsOf(now, Invoke(op, before, between, last)), op);
    }
  }

  ghost predicate EventIs(s: Tiers, now: Instant, e: BusEvent, s': Tiers, now': Instant, answer: Answer)
    requires e.Invoke?
  {
    s' == Next(s, now, e) && now' == Later(s, now, e) && answer == Result(s, ReadingsOf(now, e), e.op)
  }

  /** A row under a key without a colon survives any restart, and so does one under a key whose
      first part could be a file name: it is found afterwards, if the registry does not hide it. */
  lemma OrdinaryKeysSurvive(s: Tiers, now: Instant, registry: Rows, key: Bytes, namespace: Bytes, at: Instant)
    requires IsRegistry(registry) && !IsRegistryKey(key) && key in s.rows
    requires COLON !in key || (COLON !in namespace && StartsWith(key, namespace + [COLON])
                               && namespace != [] && SLASH !in namespace)
    ensures FoundIn(Restarted(s, registry), Readings(at, at, at), key) == Some(s.rows[key])
  {
    hide IsUtf8, IsRegistryKey;
    NamespaceExact(key);
    assert SLASH !in Ascii("_default");
    assert Durable(key);
  }

  // ----- runs -----

  /** What holds between calls in every reachable state. */
  ghost predicate Settled(s: Tiers, now: Instant) {
    Coherent(s, now) && CacheBounded(s, now)
  }

  /** Every restart finds the ordinary rows in database files it recognises, and no row that
      its registry contradicts. Between restarts callers may do anything. */
  ghost predicate SafeRestarts(s: Tiers, now: Instant, events: seq<BusEvent>)
    decreases |events|
  {
    events == []
    || (&& (events[0].Restart? ==> IsRegistry(events[0].registry) && RestartSafe(s.rows, events[0].registry))
        && SafeRestarts(Next(s, now, events[0]), Later(s, now, events[0]), events[1..]))
  }

  function Next(s: Tiers, now: Instant, e: BusEvent): Tiers {
    match e
    case Invoke(op, _, _, _) => After(s, ReadingsOf(now, e), op)
    case Restart(registry) => Restarted(s, registry)
  }

  function Later(s: Tiers, now: Instant, e: BusEvent): (at: Instant)
    ensures now <= at
    ensures e.Invoke? ==> now + e.before <= at <= now + e.before + e.between + e.last
  {
    match e
    case Invoke(op, _, _, _) => Moment(s, ReadingsOf(now, e), op)
    case Restart(_) => now
  }

  lemma KeepsSettled(s: Tiers, now: Instant, e: BusEvent)
    requires Settled(s, now)
    requires e.Restart? ==> IsRegistry(e.registry) && RestartSafe(s.rows, e.registry)
    ensures Settled(Next(s, now, e), Later(s, now, e))
  {
    hide Durable, IsRegistryKey;
    match e
    case Invoke(op, _, _, _) =>
      KeepsCoherent(s, now, ReadingsOf(now, e), op);
      KeepsCacheBounded(s, now, ReadingsOf(now, e), op);
    case Restart(registry) =>
      RestartCoherent(s, now, registry);
  }

  function Final(s: Tiers, now: Instant, events: seq<BusEvent>): (Tiers, Instant)
    decreases |events|
  {
    if events == [] then (s, now)
    else Final(Next(s, now, events[0]), Later(s, now, events[0]), events[1..])
  }

  /** In every reachable state a key held in both tiers has one value, its copy in memory
      expires within the cache lifetime, and only registry keys are in memory for good. */
  lemma {:induction false} ReachableSettled(s: Tiers, now: Instant, events: seq<BusEvent>)
    requires Settled(s, now) && SafeRestarts(s, now, events)
    ensures Settled(Final(s, now, events).0, Final(s, now, events).1)
    decreases |events|
  {
    hide Settled, RestartSafe, IsRegistry, Next, Later;
    if events != [] {
      KeepsSettled(s, now, events[0]);
      ReachableSettled(Next(s, now, events[0]), Later(s, now, events[0]), events[1..]);
    }
  }

  /** The answers of a run on the two tiers. */
  function BusAnswers(s: Tiers, now: Instant, events: seq<BusEvent>): seq<Answer>
    decreases |events|
  {
    if events == [] then []
    else
      var e := events[0];
      (if e.Invoke? then [Result(s, ReadingsOf(now, e), e.op)] else [])
      + BusAnswers(Next(s, now, e), Later(s, now, e), events[1..])
  }

  /** The instants at which the calls of a run take effect. */
  function Moments(s: Tiers, now: Instant, events: seq<BusEvent>): (at: seq<Instant>)
    ensures |at| == |events|
    ensures forall i :: 0 <= i < |at| ==> now <= at[i]
    ensures forall i, j :: 0 <= i < j < |at| ==> at[i] <= at[j]
    decreases |events|
  {
    if events == [] then []
    else [Later(s, now, events[0])] + Moments(Next(s, now, events[0]), Later(s, now, events[0]), events[1..])
  }

  /** The same calls at the same instants on one flat map of key to value and deadline. */
  function FlatAnswers(m: Flat, at: seq<Instant>, events: seq<BusEvent>): seq<Answer>
    requires |at| == |events|
    decreases |events|
  {
    if events == [] then []
    else match events[0]
      case Invoke(op, _, _, _) =>
        var live := Purge(m, at[0]);
        [Reply(live, at[0], op)] + FlatAnswers(Purge(Effect(live, at[0], op), at[0]), at[1..], events[1..])
      case Restart(registry) =>
        FlatAnswers(FlatRestart(m, registry), at[1..], events[1..])
  }

  /** For each call of a run, whether it asks for the lifetime of a row cached in memory. */
  function CacheQueries(s: Tiers, now: Instant, events: seq<BusEvent>): seq<bool>
    decreases |events|
  {
    if events == [] then []
    else
      var e := events[0];
      (if e.Invoke? then [e.op.ReadTtlRemaining? && IsCached(s, now + e.before, e.op.key)] else [])
      + CacheQueries(Next(s, now, e), Later(s, now, e), events[1..])
  }

  /** Two runs of answers that agree everywhere but at the marked calls. */
  ghost predicate AgreeExcept(a: seq<Answer>, b: seq<Answer>, marked: seq<bool>) {
    |a| == |b| == |marked| && forall i :: 0 <= i < |a| ==> (a[i] == b[i] <==> !marked[i])
  }

  lemma AgreeFirst(x: Answer, a: seq<Answer>, y: Answer, b: seq<Answer>, mark: bool, marked: seq<bool>)
    requires AgreeExcept(a, b, marked) && (x == y <==> !mark)
    ensures AgreeExcept([x] + a, [y] + b, [mark] + marked)
  {
  }

  /** Every sequential run of the bus, whatever its callers do, answers exactly like one flat
      map, but for the lifetime of a row while it is cached. */
  lemma {:induction false} RunRefines(s: Tiers, now: Instant, events: seq<BusEvent>)
    requires Coherent(s, now) && RegistryOnly(s) && SafeRestarts(s, now, events)
    ensures AgreeExcept(BusAnswers(s, now, events), FlatAnswers(View(s, now), Moments(s, now, events), events),
                        CacheQueries(s, now, events))
    decreases |events|
  {
    hide View, After, Purge, Result, Reply, Effect, FlatRestart, Restarted, Moment, AgreeExcept, IsCached;
    hide Coherent, RegistryOnly, IsRegistry, RestartSafe;
    if events == [] {
      NothingDiffers();
    } else {
      var e := events[0];
      var s', at := Next(s, now, e), Later(s, now, e);
      KeepsRefining(s, now, e);
      RunRefines(s', at, events[1..]);
      match e
      case Invoke(op, _, _, _) =>
        var t := ReadingsOf(now, e);
        StateRefines(s, now, t, op);
        ViewLater(s, now, at);
        CallAnswers(s, now, t, op);
        AgreeFirst(Result(s, t, op), BusAnswers(s', at, events[1..]), Reply(View(s, at), at, op),
                   FlatAnswers(View(s', at), Moments(s', at, events[1..]), events[1..]),
                   op.ReadTtlRemaining? && IsCached(s, now + e.before, op.key), CacheQueries(s', at, events[1..]));
      case Restart(registry) =>
        RestartExact(s, now, registry);
        assert View(s', at) == FlatRestart(View(s, now), registry);
        assert Moments(s, now, events)[1..] == Moments(s', at, events[1..]);
        assert BusAnswers(s, now, events) == BusAnswers(s', at, events[1..]);
        assert CacheQueries(s, now, events) == CacheQueries(s', at, events[1..]);
    }
  }

  lemma NothingDiffers()
    ensures AgreeExcept([], [], [])
  {
  }

  lemma KeepsRefining(s: Tiers, now: Instant, e: BusEvent)
    requires Coherent(s, now) && RegistryOnly(s)
    requires e.Restart? ==> IsRegistry(e.registry) && RestartSafe(s.rows, e.registry)
    ensures Coherent(Next(s, now, e), Later(s, now, e)) && RegistryOnly(Next(s, now, e))
  {
    hide Durable, IsRegistryKey;
    match e
    case Invoke(op, _, _, _) =>
      KeepsCoherent(s, now, ReadingsOf(now, e), op);
      KeepsRegistryOnly(s, ReadingsOf(now, e), op);
    case Restart(registry) =>
      RestartCoherent(s, now, registry);
  }

  lemma CallAnswers(s: Tiers, now: Instant, t: Readings, op: Op)
    requires Ascending(now, t) && Coherent(s, now)
    ensures var at := Moment(s, t, op);
            Result(s, t, op) == Reply(View(s, at), at, op) <==> !(op.ReadTtlRemaining? && IsCached(s, t.first, op.key))
  {
    hide Coherent, Result, Reply, View, IsCached;
    if op.ReadTtlRemaining? { LifetimeExact(s, t, op.key); } else { AnswerRefines(s, now, t, op); }
  }

  // ----- why a restart must find no row under a registry key -----

  function Resurfacing(key: Bytes, value: Bytes, active: Bytes): seq<BusEvent> {
    [Invoke(WriteValue(key, value), 0, 0, 0), Restart(map[key := active]),
     Invoke(DeleteValueIfMatch(key, active), 0, 0, 0), Invoke(ReadValue(key), 0, 0, 0)]
  }

  /** The first event of a run, when it takes no time. */
  lemma FirstEvent(s: Tiers, now: Instant, e: BusEvent, rest: seq<BusEvent>, s': Tiers)
    requires Next(s, now, e) == s' && Later(s, now, e) == now
    ensures Moments(s, now, [e] + rest) == [now] + Moments(s', now, rest)
    ensures BusAnswers(s, now, [e] + rest)
            == (if e.Invoke? then [Result(s, ReadingsOf(now, e), e.op)] else []) + BusAnswers(s', now, rest)
  {
    hide Next, Later, Result;
    assert ([e] + rest)[1..] == rest;
  }

  lemma ResurfacingBus(key: Bytes, value: Bytes, active: Bytes)
    requires Durable(key) && value != active
    ensures BusAnswers(Tiers(map[], map[]), 0, Resurfacing(key, value, active))
            == [Done, Matched(true), Found(Some(value))]
    ensures Moments(Tiers(map[], map[]), 0, Resurfacing(key, value, active)) == [0, 0, 0, 0]
  {
    hide Durable, Result, Next, BusAnswers, Moments;
    var write, restart := Invoke(WriteValue(key, value), 0, 0, 0), Restart(map[key := active]);
    var take, read := Invoke(DeleteValueIfMatch(key, active), 0, 0, 0), Invoke(ReadValue(key), 0, 0, 0);
    var s0, s1 := Tiers(map[], map[]), Tiers(map[], map[key := value]);
    var s2 := Tiers(map[key := Entry(active, None)], map[key := value]);
    var s3 := Next(s1, 0, read);
    ResurfacingStates(key, value, active);
    ResurfacingResults(key, value, active);
    NoEvents(s3);
    FirstEvent(s1, 0, read, [], s3);
    FirstEvent(s2, 0, take, [read] + [], s1);
    FirstEvent(s1, 0, restart, [take] + ([read] + []), s2);
    FirstEvent(s0, 0, write, [restart] + ([take] + ([read] + [])), s1);
    assert [write] + ([restart] + ([take] + ([read] + []))) == Resurfacing(key, value, active);
  }

  lemma NoEvents(s: Tiers)
    ensures BusAnswers(s, 0, []) == [] && Moments(s, 0, []) == []
  {
  }

  lemma ResurfacingStates(key: Bytes, value: Bytes, active: Bytes)
    requires Durable(key) && value != active
    ensures var events := Resurfacing(key, value, active);
            var s1, s2 := Tiers(map[], map[key := value]), Tiers(map[key := Entry(active, None)], map[key := value]);
            && Next(Tiers(map[], map[]), 0, events[0]) == s1
            && Next(s1, 0, events[1]) == s2
            && Next(s2, 0, events[2]) == s1
  {
    hide Durable;
  }

  lemma ResurfacingResults(key: Bytes, value: Bytes, active: Bytes)
    requires value != active
    ensures var t := Readings(0, 0, 0);
            && Result(Tiers(map[], map[]), t, WriteValue(key, value)) == Done
            && Result(Tiers(map[key := Entry(active, None)], map[key := value]), t, DeleteValueIfMatch(key, active))
               == Matched(true)
            && Result(Tiers(map[], map[key := value]), t, ReadValue(key)) == Found(Some(value))
  {
  }

  lemma ResurfacingFlat(key: Bytes, value: Bytes, active: Bytes)
    requires IsRegistryKey(key) && value != active
    ensures FlatAnswers(map[], [0, 0, 0, 0], Resurfacing(key, value, active)) == [Done, Matched(true), Found(None)]
  {
    hide IsRegistryKey;
    var events := Resurfacing(key, value, active);
    var m1, m2 := map[key := Entry(value, None)], map[key := Entry(active, None)];
    assert Purge(m1, 0) == m1 && Purge(m2, 0) == m2 && Purge(map[], 0) == map[];
    assert FlatRestart(m1, map[key := active]) == m2 && Remove(m2, key) == map[];
    assert events[1..][1..] == events[2..] && events[2..][1..] == events[3..];
    assert FlatAnswers(map[], [0], events[3..]) == [Found(None)];
    assert FlatAnswers(m2, [0, 0], events[2..]) == [Matched(true), Found(None)];
    assert FlatAnswers(m1, [0, 0, 0], events[1..]) == [Matched(true), Found(None)];
  }

  /** A row written under a registry key survives a restart beneath the registry entry and
      surfaces when that entry is deleted; one flat map would have forgotten the key. */
  lemma RegistryRowResurfaces(key: Bytes, value: Bytes, active: Bytes)
    requires IsRegistryKey(key) && Durable(key) && value != active
    ensures var events := Resurfacing(key, value, active);
            var s := Tiers(map[], map[]);
            && BusAnswers(s, 0, events) == [Done, Matched(true), Found(Some(value))]
            && FlatAnswers(View(s, 0), Moments(s, 0, events), events) == [Done, Matched(true), Found(None)]
  {
    hide IsRegistryKey, Durable, BusAnswers, FlatAnswers, Moments, Resurfacing;
    ResurfacingBus(key, value, active);
    ResurfacingFlat(key, value, active);
    assert View(Tiers(map[], map[]), 0) == map[];
  }
}
