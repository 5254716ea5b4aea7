/** The two-tier bus as a sequential machine, and the proof that it behaves like one flat
    map: promotion, invalidation and the moves between tiers never show. */
module TwoTiers {
  import opened ByteStrings
  import opened FlatStore
  import opened PersistentTier

  const CACHE_PROMOTION: Duration := 60 * SECOND

  datatype Tiers = Tiers(transient: Flat, rows: Rows)

  // ----- the registry -----

  predicate IsRegistryKey(key: Bytes) {
    StartsWith(key, Ascii("_instance:"))
  }

  function Untimed(registry: Rows): Flat {
    map k | k in registry :: Entry(registry[k], None)
  }

  // ----- what the two tiers stand for -----

  /** One flat map: a persistent row has no deadline, and its transient copy does not count. */
  function Combined(s: Tiers): Flat {
    map k | k in s.transient.Keys + s.rows.Keys :: if k in s.rows then Entry(s.rows[k], None) else s.transient[k]
  }

  function View(s: Tiers, now: Instant): Flat {
    Purge(Combined(s), now)
  }

  /** A live transient copy of a persistent row holds the row's value. */
  ghost predicate Coherent(s: Tiers, now: Instant) {
    forall k :: k in s.transient && k in s.rows && Live(s.transient[k], now) ==> s.transient[k].value == s.rows[k]
  }

  /** Such a copy is about to expire, and only registry keys stay in memory for good. */
  ghost predicate CacheBounded(s: Tiers, now: Instant) {
    && (forall k :: k in s.transient && k in s.rows && !IsRegistryKey(k) ==>
          s.transient[k].deadline.Some? && s.transient[k].deadline.value <= now + 60_000_000_000)
    && RegistryOnly(s)
  }

  ghost predicate RegistryOnly(s: Tiers) {
    forall k :: k in s.transient && s.transient[k].deadline.None? ==> IsRegistryKey(k)
  }

  /** A live copy of a row in memory with a deadline of its own. */
  predicate IsCached(s: Tiers, at: Instant, key: Bytes) {
    key in s.rows && key in s.transient && s.transient[key].deadline.Some? && Live(s.transient[key], at)
  }

  /** What a bus shows at one moment. */
  function Shown(s: Tiers, at: Instant): Rows {
    s.rows + Values(Purge(s.transient, at))
  }

  // ----- what one operation does to the tiers -----

  /** The clock readings of the up to three calls an operation makes on the transient tier. */
  datatype Readings = Readings(first: Instant, second: Instant, third: Instant)

  ghost predicate Ascending(now: Instant, t: Readings) {
    now <= t.first <= t.second <= t.third
  }

  /** A miss that the persistent tier can serve. */
  predicate Promotes(s: Tiers, t: Readings, key: Bytes) {
    key !in Purge(s.transient, t.first) && key in s.rows
  }

  function AfterRead(s: Tiers, t: Readings, key: Bytes): Tiers {
    if Promotes(s, t, key) then
      var copied := Put(Purge(s.transient, t.second), key, s.rows[key]);
      s.(transient := Expire(Purge(copied, t.third), key, t.third + CACHE_PROMOTION))
    else
      s.(transient := Purge(s.transient, t.first))
  }

  function AfterWrite(s: Tiers, t: Readings, key: Bytes, value: Bytes): Tiers {
    Tiers(Remove(Purge(s.transient, t.first), key), s.rows[key := value])
  }

  function AfterDelete(s: Tiers, t: Readings, key: Bytes): Tiers {
    Tiers(Remove(Purge(s.transient, t.first), key), s.rows - {key})
  }

  function AfterMatch(s: Tiers, t: Readings, key: Bytes, expected: Bytes): Tiers {
    Tiers(RemoveIfMatch(Purge(s.transient, t.first), key, expected),
          if key in s.rows && s.rows[key] == expected then s.rows - {key} else s.rows)
  }

  /** A deadline on a persistent row moves it: out of the rows, into memory. */
  function Moved(s: Tiers, t: Readings, key: Bytes, duration: Duration): Tiers
    requires key in s.rows
  {
    var copied := Put(Purge(s.transient, t.first), key, s.rows[key]);
    Tiers(Expire(Purge(copied, t.second), key, t.second + duration), s.rows - {key})
  }

  function AfterTtl(s: Tiers, t: Readings, key: Bytes, duration: Duration): Tiers {
    if key in s.rows then Moved(s, t, key, duration)
    else s.(transient := Expire(Purge(s.transient, t.first), key, t.first + duration))
  }

  function AfterTimedWrite(s: Tiers, t: Readings, key: Bytes, value: Bytes, duration: Duration): Tiers {
    Tiers(PutUntil(Purge(s.transient, t.first), key, value, t.first + duration), s.rows - {key})
  }

  function AfterLook(s: Tiers, t: Readings): Tiers {
    s.(transient := Purge(s.transient, t.first))
  }

  function After(s: Tiers, t: Readings, op: Op): Tiers {
    match op
    case ReadValue(k) => AfterRead(s, t, k)
    case WriteValue(k, v) => AfterWrite(s, t, k, v)
    case DeleteValue(k) => AfterDelete(s, t, k)
    case DeleteValueIfMatch(k, expected) => AfterMatch(s, t, k, expected)
    case WriteTtl(k, d) => AfterTtl(s, t, k, d)
    case WriteValueWithTtl(k, v, d) => AfterTimedWrite(s, t, k, v, d)
    case ReadTtlRemaining(_) => AfterLook(s, t)
    case FindByPrefix(_) => AfterLook(s, t)
  }

  /** The last clock reading it makes: the moment at which it takes effect. */
  function Moment(s: Tiers, t: Readings, op: Op): Instant {
    match op
    case ReadValue(k) => if Promotes(s, t, k) then t.third else t.first
    case WriteTtl(k, _) => if k in s.rows then t.second else t.first
    case _ => t.first
  }

  function FoundIn(s: Tiers, t: Readings, key: Bytes): Option<Bytes> {
    var live := Purge(s.transient, t.first);
    if key in live then Some(live[key].value) else if key in s.rows then Some(s.rows[key]) else None
  }

  function MatchedIn(s: Tiers, t: Readings, key: Bytes, expected: Bytes): bool {
    Find(Purge(s.transient, t.first), key) == Some(expected) || (key in s.rows && s.rows[key] == expected)
  }

  /** Both tiers' entries with the prefix, the transient ones taking precedence. */
  function Merged(s: Tiers, t: Readings, prefix: Bytes): Rows {
    WithPrefix(s.rows, prefix) + WithPrefix(Values(Purge(s.transient, t.first)), prefix)
  }

  function Result(s: Tiers, t: Readings, op: Op): Answer {
    match op
    case ReadValue(k) => Found(FoundIn(s, t, k))
    case DeleteValueIfMatch(k, expected) => Matched(MatchedIn(s, t, k, expected))
    case ReadTtlRemaining(k) => Left(Remaining(Purge(s.transient, t.first), k, t.first))
    case FindByPrefix(prefix) => Pairs(InOrder(Merged(s, t, prefix)))
    case _ => Done
  }

  // ----- refinement, one operation and one key at a time -----

  lemma ReadAt(s: Tiers, now: Instant, t: Readings, key: Bytes, k: Bytes)
    requires Ascending(now, t) && Coherent(s, now)
    ensures var at := if Promotes(s, t, key) then t.third else t.first;
            SameAt(View(AfterRead(s, t, key), at), Purge(View(s, at), at), k)
  {
  }

  lemma WriteAt(s: Tiers, t: Readings, key: Bytes, value: Bytes, k: Bytes)
    ensures SameAt(View(AfterWrite(s, t, key, value), t.first), Purge(Put(View(s, t.first), key, value), t.first), k)
  {
  }

  lemma DeleteAt(s: Tiers, t: Readings, key: Bytes, k: Bytes)
    ensures SameAt(View(AfterDelete(s, t, key), t.first), Purge(Remove(View(s, t.first), key), t.first), k)
  {
  }

  lemma MatchAt(s: Tiers, now: Instant, t: Readings, key: Bytes, expected: Bytes, k: Bytes)
    requires Ascending(now, t) && Coherent(s, now)
    ensures SameAt(View(AfterMatch(s, t, key, expected), t.first),
                   Purge(RemoveIfMatch(View(s, t.first), key, expected), t.first), k)
  {
    if k == key {} else {}
  }

  lemma MovedAt(s: Tiers, t: Readings, key: Bytes, d: Duration, k: Bytes)
    requires key in s.rows && t.first <= t.second
    ensures SameAt(View(Moved(s, t, key, d), t.second),
                   Purge(Expire(View(s, t.second), key, t.second + d), t.second), k)
  {
    if k == key {} else {}
  }

  lemma TtlAt(s: Tiers, t: Readings, key: Bytes, d: Duration, k: Bytes)
    requires t.first <= t.second
    ensures var at := if key in s.rows then t.second else t.first;
            SameAt(View(AfterTtl(s, t, key, d), at), Purge(Expire(View(s, at), key, at + d), at), k)
  {
    hide Moved;
    if key in s.rows { MovedAt(s, t, key, d, k); }
  }

  lemma TimedWriteAt(s: Tiers, t: Readings, key: Bytes, value: Bytes, d: Duration, k: Bytes)
    ensures SameAt(View(AfterTimedWrite(s, t, key, value, d), t.first),
                   Purge(PutUntil(View(s, t.first), key, value, t.first + d), t.first), k)
  {
    if k == key {} else {}
  }

  lemma LookAt(s: Tiers, t: Readings, k: Bytes)
    ensures SameAt(View(AfterLook(s, t), t.first), Purge(View(s, t.first), t.first), k)
  {
  }

  // ----- refinement of whole operations -----

  /** At its moment, an operation turns the flat map into what one flat map would become. */
  lemma StateRefines(s: Tiers, now: Instant, t: Readings, op: Op)
    requires Ascending(now, t) && Coherent(s, now)
    ensures var at := Moment(s, t, op);
            View(After(s, t, op), at) == Purge(Effect(View(s, at), at, op), at)
  {
    hide View, Purge, Put, Remove, RemoveIfMatch, Expire, PutUntil, Coherent, SameAt, Promotes;
    hide AfterRead, AfterWrite, AfterDelete, AfterMatch, AfterTtl, AfterTimedWrite, AfterLook;
    var at := Moment(s, t, op);
    var m, n := View(After(s, t, op), at), Purge(Effect(View(s, at), at, op), at);
    forall k
      ensures SameAt(m, n, k)
    {
      match op
      case ReadValue(key) => ReadAt(s, now, t, key, k);
      case WriteValue(key, value) => WriteAt(s, t, key, value, k);
      case DeleteValue(key) => DeleteAt(s, t, key, k);
      case DeleteValueIfMatch(key, expected) => MatchAt(s, now, t, key, expected, k);
      case WriteTtl(key, d) => TtlAt(s, t, key, d, k);
      case WriteValueWithTtl(key, value, d) => TimedWriteAt(s, t, key, value, d, k);
      case ReadTtlRemaining(key) => LookAt(s, t, k);
      case FindByPrefix(prefix) => LookAt(s, t, k);
    }
    SameEverywhere(m, n);
  }

  /** Its answer is the flat map's answer at that moment; the one exception is the remaining
      lifetime, see `LifetimeExact`. */
  lemma AnswerRefines(s: Tiers, now: Instant, t: Readings, op: Op)
    requires Ascending(now, t) && Coherent(s, now) && !op.ReadTtlRemaining?
    ensures var at := Moment(s, t, op); Result(s, t, op) == Reply(View(s, at), at, op)
  {
    hide InOrder, WithPrefix;
    if op.FindByPrefix? { ScanMerges(s, now, t, op.prefix); }
  }

  lemma ScanMerges(s: Tiers, now: Instant, t: Readings, prefix: Bytes)
    requires Ascending(now, t) && Coherent(s, now)
    ensures Merged(s, t, prefix) == WithPrefix(Values(View(s, t.first)), prefix)
  {
    hide WithPrefix;
    assert Values(View(s, t.first)) == s.rows + Values(Purge(s.transient, t.first));
    PrefixOfOverlay(s.rows, Values(Purge(s.transient, t.first)), prefix);
  }

  lemma PrefixOfOverlay(below: Rows, above: Rows, prefix: Bytes)
    ensures WithPrefix(below, prefix) + WithPrefix(above, prefix) == WithPrefix(below + above, prefix)
  {
    hide StartsWith;
  }

  /** The remaining lifetime reported is the flat map's exactly when the key is not a cached
      copy of a persistent row: for those it is the cache's own deadline. */
  lemma LifetimeExact(s: Tiers, t: Readings, key: Bytes)
    ensures Result(s, t, ReadTtlRemaining(key)) == Reply(View(s, t.first), t.first, ReadTtlRemaining(key))
            <==> !IsCached(s, t.first, key)
  {
  }

  /** A read of a row that memory does not have leaves a copy for 60 s to the nanosecond: this is
      what the next lifetime query reports of it. */
  lemma CacheLifetime(s: Tiers, now: Instant, t: Readings, t': Readings, key: Bytes)
    requires Ascending(now, t) && Ascending(t.third, t') && Promotes(s, t, key)
    ensures var due := t.third + 60_000_000_000;
            Result(After(s, t, ReadValue(key)), t', ReadTtlRemaining(key))
            == Left(if t'.first < due then Some(due - t'.first) else None)
  {
  }

  lemma ViewLater(s: Tiers, now: Instant, at: Instant)
    requires now <= at
    ensures View(s, at) == Purge(View(s, now), at)
  {
    PurgeTwice(Combined(s), now, at);
  }

  // ----- what every operation keeps -----

  lemma KeepsCoherent(s: Tiers, now: Instant, t: Readings, op: Op)
    requires Ascending(now, t) && Coherent(s, now)
    ensures Coherent(After(s, t, op), Moment(s, t, op))
  {
  }

  lemma KeepsRegistryOnly(s: Tiers, t: Readings, op: Op)
    requires RegistryOnly(s)
    ensures RegistryOnly(After(s, t, op))
  {
    hide IsRegistryKey;
  }

  lemma KeepsCacheBounded(s: Tiers, now: Instant, t: Readings, op: Op)
    requires Ascending(now, t) && CacheBounded(s, now)
    ensures CacheBounded(After(s, t, op), Moment(s, t, op))
  {
  }

  // ----- one call, as its callers see it -----

  /** A call of `op` that started at `now` in state `s` ended at `now'` in state `s'` with
      that answer, for some readings of the clock. */
  ghost predicate Performs(s: Tiers, now: Instant, op: Op, s': Tiers, now': Instant, answer: Answer) {
    exists t :: Ascending(now, t) && s' == After(s, t, op) && now' == Moment(s, t, op) && answer == Result(s, t, op)
  }

  lemma Performed(s: Tiers, now: Instant, t: Readings, op: Op)
    requires Ascending(now, t)
    ensures Performs(s, now, op, After(s, t, op), Moment(s, t, op), Result(s, t, op))
  {
  }

  lemma PerformsRefines(s: Tiers, now: Instant, op: Op, s': Tiers, now': Instant, answer: Answer)
    requires Performs(s, now, op, s', now', answer) && Coherent(s, now)
    ensures now <= now' && Coherent(s', now')
    ensures View(s', now') == Purge(Effect(View(s, now'), now', op), now')
    ensures !op.ReadTtlRemaining? ==> answer == Reply(View(s, now'), now', op)
    ensures CacheBounded(s, now) ==> CacheBounded(s', now')
  {
    hide View, Purge, Effect, Reply, Result, After, Coherent, CacheBounded;
    var t :| Ascending(now, t) && s' == After(s, t, op) && now' == Moment(s, t, op) && answer == Result(s, t, op);
    StateRefines(s, now, t, op);
    KeepsCoherent(s, now, t, op);
    if !op.ReadTtlRemaining? { AnswerRefines(s, now, t, op); }
    if CacheBounded(s, now) { KeepsCacheBounded(s, now, t, op); }
  }
}
