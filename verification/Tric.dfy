/** The transient tier's public interface: each call takes the lock, reads the clock,
    purges what is due and then acts, so each call is one atomic step. */
module TransientTier {
  import opened ByteStrings
  import opened FlatStore
  import opened TransientStore

  /** A monotonic clock: a later reading is never earlier. */
  class Clock {
    var now: Instant

    constructor ()
    {
      now := 0;
    }

    method Read() returns (t: Instant)
      modifies this
      ensures old(now) <= t == now
    {
      t :| now <= t;
      now := t;
    }
  }

  class Tric {
    const store: Store
    const clock: Clock

    ghost predicate Valid()
      reads store
    {
      store.Valid()
    }

    ghost function Contents(): Flat
      reads store
    {
      store.Contents()
    }

    constructor (clock: Clock)
      ensures this.clock == clock
      ensures fresh(store) && Valid() && Contents() == map[]
    {
      this.store := new Store();
      this.clock := clock;
    }

    method ReadValue(key: Bytes) returns (r: Option<Bytes>)
      requires Valid()
      modifies store, clock
      ensures Valid() && old(clock.now) <= clock.now
      ensures Contents() == Purge(old(Contents()), clock.now)
      ensures r == Find(Contents(), key)
    {
      var now := clock.Read();
      store.DeleteExpiredEntries(now);
      r := store.ReadValue(key);
    }

    method WriteValue(key: Bytes, value: Bytes)
      requires Valid()
      modifies store, clock
      ensures Valid() && old(clock.now) <= clock.now
      ensures Contents() == Put(Purge(old(Contents()), clock.now), key, value)
    {
      var now := clock.Read();
      store.DeleteExpiredEntries(now);
      store.WriteValue(key, value);
    }

    method DeleteValue(key: Bytes)
      requires Valid()
      modifies store, clock
      ensures Valid() && old(clock.now) <= clock.now
      ensures Contents() == Remove(Purge(old(Contents()), clock.now), key)
    {
      var now := clock.Read();
      store.DeleteExpiredEntries(now);
      store.DeleteValue(key);
    }

    method DeleteValueIfMatch(key: Bytes, expected: Bytes) returns (matched: bool)
      requires Valid()
      modifies store, clock
      ensures Valid() && old(clock.now) <= clock.now
      ensures var live := Purge(old(Contents()), clock.now);
              && matched == (Find(live, key) == Some(expected))
              && Contents() == RemoveIfMatch(live, key, expected)
    {
      var now := clock.Read();
      store.DeleteExpiredEntries(now);
      matched := store.DeleteValueIfMatch(key, expected);
    }

    method WriteTtl(key: Bytes, duration: Duration)
      requires Valid()
      modifies store, clock
      ensures Valid() && old(clock.now) <= clock.now
      ensures Contents() == Expire(Purge(old(Contents()), clock.now), key, clock.now + duration)
    {
      var now := clock.Read();
      store.DeleteExpiredEntries(now);
      store.WriteTtl(key, now + duration);
    }

    method WriteValueWithTtl(key: Bytes, value: Bytes, duration: Duration)
      requires Valid()
      modifies store, clock
      ensures Valid() && old(clock.now) <= clock.now
      ensures Contents() == PutUntil(Purge(old(Contents()), clock.now), key, value, clock.now + duration)
    {
      var now := clock.Read();
      store.DeleteExpiredEntries(now);
      store.WriteValueWithTtl(key, value, now + duration);
    }

    /** A remaining lifetime that is reported is never zero. */
    method ReadTtlRemaining(key: Bytes) returns (r: Option<Duration>)
      requires Valid()
      modifies store, clock
      ensures Valid() && old(clock.now) <= clock.now
      ensures Contents() == Purge(old(Contents()), clock.now)
      ensures r == Remaining(Contents(), key, clock.now)
      ensures r.Some? ==> r.value > 0
    {
      var now := clock.Read();
      store.DeleteExpiredEntries(now);
      r := store.ReadTtlRemaining(key, now);
    }

    method FindByPrefix(prefix: Bytes) returns (pairs: seq<Pair>)
      requires Valid()
      modifies store, clock
      ensures Valid() && old(clock.now) <= clock.now
      ensures Contents() == Purge(old(Contents()), clock.now)
      ensures Lists(pairs, WithPrefix(Values(Contents()), prefix))
    {
      var now := clock.Read();
      store.DeleteExpiredEntries(now);
      pairs := store.FindByPrefix(prefix);
    }
  }
}
