/** The reference the storage tiers are measured against: one flat map from a key to its
    value and optional deadline. */
module FlatStore {
  import opened ByteStrings

  // Instants and durations are whole nanoseconds.
  type Instant = nat
  type Duration = nat

  const MILLISECOND: nat := 1_000_000
  const SECOND: nat := 1_000_000_000

  datatype Entry = Entry(value: Bytes, deadline: Option<Instant>)

  type Flat = map<Bytes, Entry>

  predicate Live(e: Entry, now: Instant) {
    e.deadline.None? || now < e.deadline.value
  }

  /** The entries whose deadline has not been reached at `now`. */
  function Purge(m: Flat, now: Instant): Flat {
    map k | k in m && Live(m[k], now) :: m[k]
  }

  function Values(m: Flat): map<Bytes, Bytes> {
    map k | k in m :: m[k].value
  }

  function Find(m: Flat, key: Bytes): Option<Bytes> {
    if key in m then Some(m[key].value) else None
  }

  function Put(m: Flat, key: Bytes, value: Bytes): Flat {
    m[key := Entry(value, None)]
  }

  function Remove(m: Flat, key: Bytes): Flat {
    m - {key}
  }

  function Expire(m: Flat, key: Bytes, at: Instant): Flat {
    if key in m then m[key := m[key].(deadline := Some(at))] else m
  }

  function PutUntil(m: Flat, key: Bytes, value: Bytes, at: Instant): Flat {
    m[key := Entry(value, Some(at))]
  }

  function RemoveIfMatch(m: Flat, key: Bytes, expected: Bytes): Flat {
    if Find(m, key) == Some(expected) then Remove(m, key) else m
  }

  function Remaining(m: Flat, key: Bytes, now: Instant): Option<Duration> {
    if key in m && m[key].deadline.Some? && now <= m[key].deadline.value
    then Some(m[key].deadline.value - now) else None
  }

  // ----- equality key by key -----

  predicate SameAt(m: Flat, n: Flat, k: Bytes) {
    if k in m then k in n && m[k] == n[k] else k !in n
  }

  lemma SameEverywhere(m: Flat, n: Flat)
    requires forall k :: SameAt(m, n, k)
    ensures m == n
  {
    forall k
      ensures k in m <==> k in n
      ensures k in m ==> m[k] == n[k]
    {
      assert SameAt(m, n, k);
    }
  }

  lemma PurgeTwice(m: Flat, early: Instant, late: Instant)
    requires early <= late
    ensures Purge(Purge(m, early), late) == Purge(m, late)
  {
  }

  datatype Op =
    | ReadValue(key: Bytes)
    | WriteValue(key: Bytes, value: Bytes)
    | DeleteValue(key: Bytes)
    | DeleteValueIfMatch(key: Bytes, expected: Bytes)
    | WriteTtl(key: Bytes, duration: Duration)
    | WriteValueWithTtl(key: Bytes, value: Bytes, duration: Duration)
    | ReadTtlRemaining(key: Bytes)
    | FindByPrefix(prefix: Bytes)

  /** The operation names this key; a scan names none. */
  predicate ConcernsKey(op: Op, key: Bytes) {
    !op.FindByPrefix? && op.key == key
  }

  datatype Answer =
    | Done
    | Found(found: Option<Bytes>)
    | Matched(matched: bool)
    | Left(remaining: Option<Duration>)
    | Pairs(pairs: seq<Pair>)

  /** What one operation at time `now` does to a flat map that holds live entries only. */
  function Effect(m: Flat, now: Instant, op: Op): Flat {
    match op
    case ReadValue(_) => m
    case WriteValue(k, v) => Put(m, k, v)
    case DeleteValue(k) => Remove(m, k)
    case DeleteValueIfMatch(k, expected) => RemoveIfMatch(m, k, expected)
    case WriteTtl(k, d) => Expire(m, k, now + d)
    case WriteValueWithTtl(k, v, d) => PutUntil(m, k, v, now + d)
    case ReadTtlRemaining(_) => m
    case FindByPrefix(_) => m
  }

  function Reply(m: Flat, now: Instant, op: Op): Answer {
    match op
    case ReadValue(k) => Found(Find(m, k))
    case DeleteValueIfMatch(k, expected) => Matched(Find(m, k) == Some(expected))
    case ReadTtlRemaining(k) => Left(Remaining(m, k, now))
    case FindByPrefix(prefix) => Pairs(InOrder(WithPrefix(Values(m), prefix)))
    case _ => Done
  }
}
