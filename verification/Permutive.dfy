/** The permutive bus: a transient tier in front of a persistent one. A deadline decides
    which tier a key belongs to, and reads copy persistent rows forward for a minute. */
module Permutive {
  import opened ByteStrings
  import opened FlatStore
  import opened Listings
  import opened Numerals
  import opened TransientStore
  import opened TransientTier
  import opened PersistentTier
  import opened TwoTiers

  // ----- registry entries -----

  function RegistryKey(instance: Bytes, slot: nat): (key: Bytes)
    ensures IsRegistryKey(key)
  {
    Ascii("_instance:") + instance + Ascii("_") + Decimal(slot)
  }

  function RegistryValue(instance: Bytes, slot: nat): Bytes {
    if slot == 0 then Ascii("active") else Ascii("clone:") + instance + Ascii("_0")
  }

  function Registry(instance: Bytes, slots: seq<nat>): (registry: Rows)
    ensures forall k :: k in registry ==> IsRegistryKey(k)
  {
    if slots == [] then map[]
    else
      var last := slots[|slots| - 1];
      Registry(instance, slots[..|slots| - 1])[RegistryKey(instance, last) := RegistryValue(instance, last)]
  }

  lemma RegistryKeysDiffer(instance: Bytes, a: nat, b: nat)
    requires RegistryKey(instance, a) == RegistryKey(instance, b)
    ensures a == b
  {
    var front := Ascii("_instance:") + instance + Ascii("_");
    assert RegistryKey(instance, a)[|front|..] == Decimal(a) && RegistryKey(instance, b)[|front|..] == Decimal(b);
    DecimalInjective(a, b);
  }

  lemma {:induction false} RegistryHas(instance: Bytes, slots: seq<nat>, slot: nat)
    requires slot in slots
    ensures RegistryKey(instance, slot) in Registry(instance, slots)
    ensures Registry(instance, slots)[RegistryKey(instance, slot)] == RegistryValue(instance, slot)
  {
    hide RegistryKey, RegistryValue;
    var n := |slots| - 1;
    if slot != slots[n] {
      RegistryHas(instance, slots[..n], slot);
      if RegistryKey(instance, slot) == RegistryKey(instance, slots[n]) {
        RegistryKeysDiffer(instance, slot, slots[n]);
      }
    }
  }

  lemma {:induction false} RegistryOf(instance: Bytes, slots: seq<nat>, key: Bytes) returns (slot: nat)
    requires key in Registry(instance, slots)
    ensures slot in slots && key == RegistryKey(instance, slot)
  {
    hide RegistryKey, RegistryValue;
    var n := |slots| - 1;
    if key == RegistryKey(instance, slots[n]) {
      slot := slots[n];
    } else {
      slot := RegistryOf(instance, slots[..n], key);
    }
  }

  /** The registry has one entry for each slot, under the slot's number in decimal, and no other:
      slot 0 is active, and every other one a clone of it. */
  lemma RegistrySays(instance: Bytes, slots: seq<nat>, slot: nat)
    ensures slot in slots <==>
            exists k :: k in Registry(instance, slots) && SlotOf(instance, k) == Some(slot)
    ensures forall k :: k in Registry(instance, slots) && SlotOf(instance, k) == Some(slot) ==>
              Registry(instance, slots)[k] == RegistryValue(instance, slot)
  {
    hide RegistryKey, Registry, SlotOf;
    if slot in slots {
      RegistryHas(instance, slots, slot);
      SlotOfKey(instance, slot);
    }
    forall k | k in Registry(instance, slots) && SlotOf(instance, k) == Some(slot)
      ensures slot in slots && Registry(instance, slots)[k] == RegistryValue(instance, slot)
    {
      var own := RegistryOf(instance, slots, k);
      SlotOfKey(instance, own);
      RegistryHas(instance, slots, slot);
    }
  }

  /** The slot a registry key is about: the numeral after the instance's name. */
  function SlotOf(instance: Bytes, key: Bytes): Option<nat> {
    var front := Ascii("_instance:") + instance + Ascii("_");
    if StartsWith(key, front) then ReadDecimal(key[|front|..]) else None
  }

  lemma SlotOfKey(instance: Bytes, slot: nat)
    ensures SlotOf(instance, RegistryKey(instance, slot)) == Some(slot)
  {
    var front := Ascii("_instance:") + instance + Ascii("_");
    assert RegistryKey(instance, slot)[|front|..] == Decimal(slot);
    assert RegistryKey(instance, slot)[..|front|] == front;
    DecimalReads(slot);
  }

  lemma RegistryStart(instance: Bytes, slots: seq<nat>)
    ensures Untimed(Registry(instance, slots[..0])) == map[]
  {
  }

  lemma RegistryMore(instance: Bytes, slots: seq<nat>, i: nat, now: Instant)
    requires i < |slots|
    ensures Put(Purge(Untimed(Registry(instance, slots[..i])), now), RegistryKey(instance, slots[i]),
                RegistryValue(instance, slots[i]))
            == Untimed(Registry(instance, slots[..i + 1]))
  {
    hide RegistryKey, RegistryValue;
    assert slots[..i + 1][..i] == slots[..i];
  }

  lemma EntryIs(instance: Bytes, slot: nat)
    ensures RegistryKey(instance, slot) == Ascii("_instance:") + instance + Ascii("_") + Decimal(slot)
    ensures RegistryValue(instance, slot)
            == if slot == 0 then Ascii("active") else Ascii("clone:") + instance + Ascii("_0")
  {
  }

  // ----- merging the two scans -----

  function KeysOf(pairs: seq<Pair>): set<Bytes> {
    set p | p in pairs :: p.0
  }

  lemma ListsKeys(pairs: seq<Pair>, m: Rows)
    requires Lists(pairs, m)
    ensures KeysOf(pairs) == m.Keys
  {
    forall k | k in m ensures k in KeysOf(pairs) { assert (k, m[k]) in pairs; }
  }

  /** Push the persistent results whose key is not among the transient ones. */
  method PushMissing(transientResults: seq<Pair>, persistentResults: seq<Pair>, ghost live: Rows, ghost rows: Rows)
    returns (merged: seq<Pair>)
    requires Lists(transientResults, live) && Lists(persistentResults, rows)
    ensures Enumerates(merged, rows + live)
  {
    hide Lists, Enumerates, Overlaid, KeysOf;
    var transientKeys := KeysOf(transientResults);
    ListsKeys(transientResults, live);
    ListsEnumerates(transientResults, live);
    OverlaidStart(live, persistentResults);
    merged := transientResults;
    var i := 0;
    while i < |persistentResults|
      invariant 0 <= i <= |persistentResults|
      invariant Enumerates(merged, Overlaid(live, persistentResults, i))
    {
      var p := persistentResults[i];
      if p.0 !in transientKeys {
        OverlaidFresh(live, persistentResults, rows, i);
        EnumeratesPush(merged, Overlaid(live, persistentResults, i), p);
        merged := merged + [p];
      }
      i := i + 1;
    }
    OverlaidComplete(live, persistentResults, rows);
  }

  class PermutiveBus {
    const transient: Tric
    const persistent: SqliteBus
    const clock: Clock

    ghost predicate Valid()
      reads transient.store, persistent
    {
      transient.Valid() && persistent.Valid() && transient.clock == clock
    }

    ghost function State(): Tiers
      reads transient.store, persistent
    {
      Tiers(transient.Contents(), persistent.Rows())
    }

    /** The state as a write of `key` finds it, once the key's database is open. */
    ghost function Opened(key: Bytes): (s: Tiers)
      reads transient.store, persistent
      ensures Namespace(key) !in persistent.shelved ==> s == State()
    {
      Tiers(transient.Contents(), persistent.Missed(Namespace(key)) + persistent.Rows())
    }

    /** Start-up: reopen the database files, then write a registry entry for each slot found. */
    constructor (files: Files, instance: Bytes, slots: seq<nat>, clock: Clock)
      requires Sharded(files)
      modifies clock
      ensures Valid() && this.clock == clock && fresh(transient.store) && fresh(persistent)
      ensures old(clock.now) <= clock.now
      ensures State() == Tiers(Untimed(Registry(instance, slots)), DurableRows(Table(files)))
    {
      transient := new Tric(clock);
      persistent := new SqliteBus(files);
      this.clock := clock;
      new;
      WriteRegistry(instance, slots);
    }

    method WriteRegistry(instance: Bytes, slots: seq<nat>)
      requires Valid() && transient.Contents() == map[]
      modifies transient.store, clock
      ensures Valid() && old(clock.now) <= clock.now
      ensures transient.Contents() == Untimed(Registry(instance, slots))
    {
      hide Agree, Flatten, Purge, Put, Untimed, RegistryKey, RegistryValue, Registry;
      RegistryStart(instance, slots);
      var i := 0;
      while i < |slots|
        invariant 0 <= i <= |slots|
        invariant Valid() && old(clock.now) <= clock.now
        invariant transient.Contents() == Untimed(Registry(instance, slots[..i]))
      {
        var slot := slots[i];
        var key := Ascii("_instance:") + instance + Ascii("_") + Decimal(slot);
        EntryIs(instance, slot);
        if slot == 0 {
          transient.WriteValue(key, Ascii("active"));
        } else {
          transient.WriteValue(key, Ascii("clone:") + instance + Ascii("_0"));
        }
        RegistryMore(instance, slots, i, clock.now);
        i := i + 1;
      }
      assert slots[..i] == slots;
    }

    method ReadValue(key: Bytes) returns (r: Option<Bytes>)
      requires Valid()
      modifies transient.store, clock
      ensures Valid()
      ensures Performs(old(State()), old(clock.now), FlatStore.Op.ReadValue(key), State(), clock.now, Found(r))
    {
      hide Agree, Flatten, Purge, Put, Expire, Performs, Table;
      ghost var s := State();
      r := transient.ReadValue(key);
      ghost var first := clock.now;
      if r.Some? {
        Performed(s, old(clock.now), Readings(first, first, first), FlatStore.Op.ReadValue(key));
        return;
      }
      r := persistent.ReadValue(key);
      if r.None? {
        Performed(s, old(clock.now), Readings(first, first, first), FlatStore.Op.ReadValue(key));
        return;
      }
      transient.WriteValue(key, r.value);
      ghost var second := clock.now;
      transient.WriteTtl(key, CACHE_PROMOTION);
      PurgeTwice(s.transient, first, second);
      Performed(s, old(clock.now), Readings(first, second, clock.now), FlatStore.Op.ReadValue(key));
    }

    method WriteValue(key: Bytes, value: Bytes)
      requires Valid()
      modifies transient.store, persistent, clock
      ensures Valid() && persistent.shelved == old(persistent.shelved) - {Namespace(key)}
      ensures Performs(old(Opened(key)), old(clock.now), FlatStore.Op.WriteValue(key, value), State(), clock.now, Done)
    {
      hide Agree, Flatten, Purge, Remove, Performs, Table, Namespace, Sharded, Reloadable;
      ghost var s := Opened(key);
      persistent.WriteValue(key, value);
      transient.DeleteValue(key);
      Performed(s, old(clock.now), Readings(clock.now, clock.now, clock.now), FlatStore.Op.WriteValue(key, value));
    }

    method DeleteValue(key: Bytes)
      requires Valid()
      modifies transient.store, persistent`databases, clock
      ensures Valid()
      ensures Performs(old(State()), old(clock.now), FlatStore.Op.DeleteValue(key), State(), clock.now, Done)
    {
      hide Agree, Flatten, Purge, Remove, Performs, Table, Namespace, Sharded, Reloadable;
      ghost var s := State();
      transient.DeleteValue(key);
      persistent.DeleteValue(key);
      Performed(s, old(clock.now), Readings(clock.now, clock.now, clock.now), FlatStore.Op.DeleteValue(key));
    }

    method DeleteValueIfMatch(key: Bytes, expected: Bytes) returns (matched: bool)
      requires Valid()
      modifies transient.store, persistent`databases, clock
      ensures Valid()
      ensures Performs(old(State()), old(clock.now), FlatStore.Op.DeleteValueIfMatch(key, expected), State(),
                       clock.now, Matched(matched))
    {
      hide Agree, Flatten, Purge, RemoveIfMatch, Find, Performs, Table, Namespace, Sharded, Reloadable;
      ghost var s := State();
      var transientMatch := transient.DeleteValueIfMatch(key, expected);
      var persistentMatch := persistent.DeleteValueIfMatch(key, expected);
      matched := transientMatch || persistentMatch;
      Performed(s, old(clock.now), Readings(clock.now, clock.now, clock.now),
                FlatStore.Op.DeleteValueIfMatch(key, expected));
    }

    method WriteTtl(key: Bytes, duration: Duration)
      requires Valid()
      modifies transient.store, persistent`databases, clock
      ensures Valid()
      ensures Performs(old(State()), old(clock.now), FlatStore.Op.WriteTtl(key, duration), State(), clock.now, Done)
    {
      hide Agree, Flatten, Purge, Put, Expire, Performs, Table, Namespace, Sharded, Reloadable;
      ghost var s := State();
      var value := persistent.ReadValue(key);
      ghost var first := None;
      if value.Some? {
        persistent.DeleteValue(key);
        transient.WriteValue(key, value.value);
        first := Some(clock.now);
      }
      transient.WriteTtl(key, duration);
      ghost var t := Readings(if first.Some? then first.value else clock.now, clock.now, clock.now);
      Performed(s, old(clock.now), t, FlatStore.Op.WriteTtl(key, duration));
    }

    method WriteValueWithTtl(key: Bytes, value: Bytes, duration: Duration)
      requires Valid()
      modifies transient.store, persistent`databases, clock
      ensures Valid()
      ensures Performs(old(State()), old(clock.now), FlatStore.Op.WriteValueWithTtl(key, value, duration), State(),
                       clock.now, Done)
    {
      hide Agree, Flatten, Purge, PutUntil, Performs, Table, Namespace, Sharded, Reloadable;
      ghost var s := State();
      persistent.DeleteValue(key);
      transient.WriteValueWithTtl(key, value, duration);
      Performed(s, old(clock.now), Readings(clock.now, clock.now, clock.now),
                FlatStore.Op.WriteValueWithTtl(key, value, duration));
    }

    method ReadTtlRemaining(key: Bytes) returns (r: Option<Duration>)
      requires Valid()
      modifies transient.store, clock
      ensures Valid()
      ensures r.Some? ==> r.value > 0
      ensures Performs(old(State()), old(clock.now), FlatStore.Op.ReadTtlRemaining(key), State(), clock.now, Left(r))
    {
      hide Agree, Flatten, Purge, Remaining, Performs, Table;
      ghost var s := State();
      r := transient.ReadTtlRemaining(key);
      Performed(s, old(clock.now), Readings(clock.now, clock.now, clock.now), FlatStore.Op.ReadTtlRemaining(key));
    }

    method FindByPrefix(prefix: Bytes) returns (merged: seq<Pair>)
      requires Valid()
      modifies transient.store, clock
      ensures Valid()
      ensures Performs(old(State()), old(clock.now), FlatStore.Op.FindByPrefix(prefix), State(), clock.now,
                       Pairs(merged))
    {
      hide Agree, Flatten, Purge, Performs, Table, Lists, Enumerates, WithPrefix, Values, InOrder, SortByKey;
      ghost var s := State();
      var transientResults := transient.FindByPrefix(prefix);
      var persistentResults := persistent.FindByPrefix(prefix);
      ghost var live := WithPrefix(Values(transient.Contents()), prefix);
      ghost var rows := WithPrefix(persistent.Rows(), prefix);
      merged := PushMissing(transientResults, persistentResults, live, rows);
      SortLists(merged, rows + live);
      merged := SortByKey(merged);
      ListsUnique(merged, InOrder(rows + live), rows + live);
      Performed(s, old(clock.now), Readings(clock.now, clock.now, clock.now), FlatStore.Op.FindByPrefix(prefix));
    }
  }
}
