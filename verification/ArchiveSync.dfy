/** Archives written by export: what they hold, and that importing the difference of two of
    them turns one store's values into the other's. */
module ArchiveSync {
  import opened ByteStrings
  import opened FlatStore
  import opened Listings
  import opened Numerals
  import opened PersistentTier
  import opened TransientStore
  import opened TwoTiers
  import opened Permutive
  import opened Dumps
  import opened ArchivePaths
  import opened DiffImport

  const FORMAT: Bytes := Ascii("tric+1")

  /** Relationship markers are exported without their content. */
  function ExportedValue(key: Bytes, value: Bytes): Bytes {
    if IsUnder(key, REL, COLON) then [] else value
  }

  function TtlPath(key: Bytes): Bytes {
    Under(TTL, SLASH) + ColonsToSlashes(key)
  }

  /** Schema and relationship entries are exported without a lifetime. */
  predicate HasLifetimeEntry(key: Bytes) {
    !IsUnder(key, SCHEMA, COLON) && !IsUnder(key, REL, COLON)
  }

  /** Keys that come back from an archive, and are neither lifetimes nor the version. */
  predicate Exportable(key: Bytes) {
    Portable(key) && !IsUnder(key, TTL, COLON) && KeyToPath(key) != META_VERSION
  }

  /** No other of these keys comes back from an archive as `key`. */
  ghost predicate Apart(values: Rows, key: Bytes) {
    forall k :: k in values && k != key ==> PathToKey(KeyToPath(k)) != key
  }

  /** The archive holds an entry for each key, and nothing but such entries and lifetimes; the
      content is the key's for every key that comes back and that no other is taken for. */
  ghost predicate IsExport(archive: Archive, values: Rows) {
    && (forall k :: k in values ==> KeyToPath(k) in archive)
    && (forall p :: p in archive && p != META_VERSION ==> NamesOneOf(values, p))
    && (forall k :: k in values && Exportable(k) && Apart(values, k) ==>
          KeyToPath(k) in archive && archive[KeyToPath(k)] == ExportedValue(k, values[k]))
  }

  ghost predicate NamesOneOf(values: Rows, path: Bytes) {
    exists k :: k in values && (path == KeyToPath(k) || (HasLifetimeEntry(k) && path == TtlPath(k)))
  }

  lemma DataPath(key: Bytes)
    requires Exportable(key)
    ensures PathToKey(KeyToPath(key)) == key && !IsTtl(KeyToPath(key)) && KeyToPath(key) != META_VERSION
  {
    NamesAreBare();
    hide SCHEMA, REL, TTL, META_VERSION, ColonsToSlashes;
    PathRoundtripExact(key);
    if HasLifetimeEntry(key) {
      PrefixOfPath(key, TTL);
    } else {
      assert KeyToPath(key)[1] != TTL[1];
    }
  }

  // ----- export -----

  /** `read_tar_entries`: a later entry of the same path replaces an earlier one. */
  function ReadEntries(entries: seq<(Bytes, Bytes)>): Archive {
    if entries == [] then map[]
    else
      var (path, content) := entries[|entries| - 1];
      ReadEntries(entries[..|entries| - 1])[path := content]
  }

  lemma ReadEntriesPush(entries: seq<(Bytes, Bytes)>, path: Bytes, content: Bytes)
    ensures ReadEntries(entries + [(path, content)]) == ReadEntries(entries)[path := content]
  {
    assert (entries + [(path, content)])[..|entries|] == entries;
  }

  lemma ExportGrows(archive: Archive, values: Rows, key: Bytes, value: Bytes)
    requires IsExport(archive, values) && key !in values
    ensures IsExport(archive[KeyToPath(key) := ExportedValue(key, value)], values[key := value])
  {
    hide KeyToPath, TtlPath, PathToKey, HasLifetimeEntry, ExportedValue, META_VERSION, Exportable;
    var archive', values' := archive[KeyToPath(key) := ExportedValue(key, value)], values[key := value];
    forall k | k in values' && Exportable(k) && Apart(values', k)
      ensures KeyToPath(k) in archive' && archive'[KeyToPath(k)] == ExportedValue(k, values'[k])
    {
      DataPath(k);
      if k != key {
        assert Apart(values, k) by { assert forall j :: j in values ==> j in values'; }
        assert key in values' && KeyToPath(k) != KeyToPath(key);
      }
    }
    forall p | p in archive' && p != META_VERSION
      ensures NamesOneOf(values', p)
    {
      if p == KeyToPath(key) {
        assert key in values';
      } else {
        var k :| k in values && (p == KeyToPath(k) || (HasLifetimeEntry(k) && p == TtlPath(k)));
        assert k in values';
      }
    }
  }

  lemma ExportGrowsLifetime(archive: Archive, values: Rows, key: Bytes, content: Bytes)
    requires IsExport(archive, values) && key in values && HasLifetimeEntry(key)
    ensures IsExport(archive[TtlPath(key) := content], values)
  {
    hide KeyToPath, TtlPath, PathToKey, IsTtl, HasLifetimeEntry, ExportedValue, META_VERSION, Exportable, Apart;
    LifetimeIsTtl(key);
    var archive' := archive[TtlPath(key) := content];
    assert NamesOneOf(values, TtlPath(key));
    forall k | k in values && Exportable(k) && Apart(values, k)
      ensures KeyToPath(k) in archive' && archive'[KeyToPath(k)] == ExportedValue(k, values[k])
    {
      DataPath(k);
    }
  }

  lemma LifetimeIsTtl(key: Bytes)
    ensures IsTtl(TtlPath(key)) && IsUnder(PathToKey(TtlPath(key)), TTL, COLON)
  {
    NamesAreBare();
    var path := TtlPath(key);
    assert path[1] == TTL[1];
    hide SCHEMA, REL, TTL;
    assert !IsUnder(path, SCHEMA, SLASH) && !IsUnder(path, REL, SLASH);
  }

  method WriteTarEntry(sofar: seq<(Bytes, Bytes)>, path: Bytes, content: Bytes) returns (entries: seq<(Bytes, Bytes)>)
    ensures ReadEntries(entries) == ReadEntries(sofar)[path := content] && sofar <= entries
    ensures sofar == [] ==> entries == [(path, content)]
  {
    ReadEntriesPush(sofar, path, content);
    entries := sofar + [(path, content)];
  }

  /** The archive with a key's entry added, and its lifetime in whole milliseconds if it has one. */
  function EntryAdded(archive: Archive, key: Bytes, value: Bytes, remaining: Option<Duration>): Archive {
    var added := archive[KeyToPath(key) := ExportedValue(key, value)];
    match remaining
    case None => added
    case Some(d) => added[TtlPath(key) := Decimal(d / MILLISECOND)]
  }

  /** One entry of the export; the lifetime is read from memory. */
  method WriteEntry(bus: PermutiveBus, sofar: seq<(Bytes, Bytes)>, key: Bytes, value: Bytes)
    returns (entries: seq<(Bytes, Bytes)>, ghost remaining: Option<Duration>)
    requires bus.Valid()
    modifies bus.transient.store, bus.clock
    ensures bus.Valid() && old(bus.clock.now) <= bus.clock.now && sofar <= entries
    ensures ReadEntries(entries) == EntryAdded(ReadEntries(sofar), key, value, remaining)
    ensures if HasLifetimeEntry(key) then
              && bus.State() == old(bus.State()).(transient := Purge(old(bus.State()).transient, bus.clock.now))
              && remaining == Remaining(bus.State().transient, key, bus.clock.now)
            else bus.State() == old(bus.State()) && bus.clock.now == old(bus.clock.now) && remaining == None
  {
    hide Performs, Purge, Remaining, Agree, Flatten, Table, Sharded, ReadEntries;
    hide KeyToPath, TtlPath, HasLifetimeEntry, IsUnder, ExportedValue;
    PathByKind(key);
    remaining := None;
    if IsUnder(key, SCHEMA, COLON) {
      entries := WriteTarEntry(sofar, Under(SCHEMA, SLASH) + Rest(key, SCHEMA), value);
    } else if IsUnder(key, REL, COLON) {
      entries := WriteTarEntry(sofar, Under(REL, SLASH) + Rest(key, REL), []);
    } else {
      entries := WriteTarEntry(sofar, ColonsToSlashes(key), value);
      ghost var s1, now1 := bus.State(), bus.clock.now;
      var left := bus.ReadTtlRemaining(key);
      LifetimePerformed(s1, now1, key, bus.State(), bus.clock.now, left);
      remaining := left;
      if left.Some? {
        entries := WriteTarEntry(entries, TtlPath(key), Decimal(left.value / MILLISECOND));
      }
    }
  }

  // ----- lifetimes in the archive -----

  /** No other key's entry, nor any other lifetime, has the path of this key's lifetime. */
  ghost predicate PathAlone(values: Rows, key: Bytes) {
    forall j :: j in values && j != key ==>
      KeyToPath(j) != TtlPath(key) && (HasLifetimeEntry(j) ==> TtlPath(j) != TtlPath(key))
  }

  /** A key whose deadline in memory is past the export's end has a lifetime entry: the whole
      milliseconds it had left at some moment of the export. A key without a deadline in memory
      has none. */
  ghost predicate LifetimeEntry(archive: Archive, m: Flat, values: Rows, from: Instant, upto: Instant, key: Bytes) {
    && (key in m && m[key].deadline.Some? && upto < m[key].deadline.value ==>
          && TtlPath(key) in archive
          && (PathAlone(values, key) ==>
                exists t :: from <= t <= upto && SaysLeft(archive[TtlPath(key)], m[key].deadline.value, t)))
    && ((key !in m || m[key].deadline.None?) && PathAlone(values, key) ==> TtlPath(key) !in archive)
  }

  /** The text is the decimal of the whole milliseconds from `t` to a deadline. */
  predicate SaysLeft(text: Bytes, deadline: Instant, t: Instant) {
    t <= deadline && text == Decimal((deadline - t) / MILLISECOND)
  }

  ghost predicate Lifetimes(archive: Archive, m: Flat, values: Rows, done: Rows, from: Instant, upto: Instant) {
    forall k :: k in done && HasLifetimeEntry(k) ==> LifetimeEntry(archive, m, values, from, upto, k)
  }

  /** One more entry: its own lifetime is right, and those of others stay so. */
  lemma LifetimesGrow(archive: Archive, m: Flat, values: Rows, done: Rows, from: Instant, upto: Instant, later: Instant,
                      key: Bytes, value: Bytes, remaining: Option<Duration>)
    requires Lifetimes(archive, m, values, done, from, upto) && IsExport(archive, done)
    requires key in values && key !in done && done.Keys <= values.Keys && from <= upto <= later
    requires if HasLifetimeEntry(key) then remaining == Remaining(Purge(m, later), key, later) else remaining == None
    ensures Lifetimes(EntryAdded(archive, key, value, remaining), m, values, done[key := value], from, later)
  {
    hide KeyToPath, TtlPath, HasLifetimeEntry, ExportedValue, IsExport, LifetimeEntry, Remaining, EntryAdded;
    var archive' := EntryAdded(archive, key, value, remaining);
    forall k | k in done[key := value] && HasLifetimeEntry(k)
      ensures LifetimeEntry(archive', m, values, from, later, k)
    {
      if k == key {
        OwnLifetime(archive, m, values, done, from, later, key, value, remaining);
      } else {
        OtherLifetime(archive, m, values, from, upto, later, k, key, value, remaining);
      }
    }
  }

  lemma OwnLifetime(archive: Archive, m: Flat, values: Rows, done: Rows, from: Instant, later: Instant, key: Bytes,
                    value: Bytes, remaining: Option<Duration>)
    requires IsExport(archive, done) && key !in done && done.Keys <= values.Keys && from <= later
    requires HasLifetimeEntry(key) && remaining == Remaining(Purge(m, later), key, later)
    ensures LifetimeEntry(EntryAdded(archive, key, value, remaining), m, values, from, later, key)
  {
    hide HasLifetimeEntry, ExportedValue, KeyToPath, TtlPath, META_VERSION, Exportable, Apart, Decimal;
    LifetimeIsTtl(key);
    TtlPathIsLong(key);
    var archive' := EntryAdded(archive, key, value, remaining);
    if TtlPath(key) in archive { TakenPath(archive, values, done, key); }
    if key in m && m[key].deadline.Some? && later < m[key].deadline.value {
      assert remaining == Some(m[key].deadline.value - later);
      assert SaysLeft(archive'[TtlPath(key)], m[key].deadline.value, later);
    }
  }

  /** A path that is taken before its key's turn is another key's. */
  lemma TakenPath(archive: Archive, values: Rows, done: Rows, key: Bytes)
    requires IsExport(archive, done) && key !in done && done.Keys <= values.Keys && TtlPath(key) in archive
    ensures !PathAlone(values, key)
  {
    hide HasLifetimeEntry, ExportedValue, KeyToPath, TtlPath, META_VERSION, Exportable, Apart;
    TtlPathIsLong(key);
    assert NamesOneOf(done, TtlPath(key));
    var j :| j in done && (TtlPath(key) == KeyToPath(j) || (HasLifetimeEntry(j) && TtlPath(key) == TtlPath(j)));
    assert j in values && j != key;
  }

  lemma TtlPathIsLong(key: Bytes)
    ensures |TtlPath(key)| == |key| + 5 && |KeyToPath(key)| == |key| && TtlPath(key) != META_VERSION
  {
    hide FirstSlashToColon, PathToKey, META_VERSION, IsTtl, IsUnder;
    assert |KeyToPath(key)| == |key| by { LengthOfPath(key); }
    TtlPathIsNotVersion(key);
  }

  lemma LengthOfPath(key: Bytes)
    ensures |KeyToPath(key)| == |key|
  {
    hide FirstSlashToColon;
  }

  lemma TtlPathIsNotVersion(key: Bytes)
    ensures TtlPath(key) != META_VERSION
  {
    hide ColonsToSlashes, FirstSlashToColon;
    assert META_VERSION[1] == 109 && TtlPath(key)[1] == TTL[1] == 116;
  }

  lemma OtherLifetime(archive: Archive, m: Flat, values: Rows, from: Instant, upto: Instant, later: Instant, k: Bytes,
                      key: Bytes, value: Bytes, remaining: Option<Duration>)
    requires LifetimeEntry(archive, m, values, from, upto, k) && upto <= later && key in values && k != key
    requires !HasLifetimeEntry(key) ==> remaining == None
    ensures LifetimeEntry(EntryAdded(archive, key, value, remaining), m, values, from, later, k)
  {
    hide KeyToPath, TtlPath, HasLifetimeEntry, ExportedValue, SaysLeft;
    var archive' := EntryAdded(archive, key, value, remaining);
    if PathAlone(values, k) {
      assert KeyToPath(key) != TtlPath(k) && (remaining.Some? ==> TtlPath(key) != TtlPath(k));
      assert TtlPath(k) in archive' <==> TtlPath(k) in archive;
      if k in m && m[k].deadline.Some? && later < m[k].deadline.value {
        var t :| from <= t <= upto && SaysLeft(archive[TtlPath(k)], m[k].deadline.value, t);
        assert from <= t <= later && SaysLeft(archive'[TtlPath(k)], m[k].deadline.value, t);
      }
    }
  }

  lemma NoLifetimesYet(archive: Archive, m: Flat, values: Rows, at: Instant)
    ensures Lifetimes(archive, m, values, map[], at, at)
  {
  }

  /** Export: the archive begins with the format's version; read back, it is one of exactly the
      values the bus showed at one moment, with the lifetimes of those that have one in memory. */
  method WriteTarContents(bus: PermutiveBus) returns (entries: seq<(Bytes, Bytes)>, ghost at: Instant)
    requires bus.Valid()
    modifies bus.transient.store, bus.clock
    ensures bus.Valid() && old(bus.clock.now) <= at <= bus.clock.now
    ensures entries != [] && entries[0] == (Ascii("_meta/version"), Ascii("tric+1"))
    ensures var values := Shown(old(bus.State()), at);
            && IsExport(ReadEntries(entries), values)
            && Lifetimes(ReadEntries(entries), old(bus.State()).transient, values, values, at, bus.clock.now)
    ensures bus.State() == old(bus.State()).(transient := Purge(old(bus.State()).transient, bus.clock.now))
  {
    hide Performs, Purge, Lists, Values, Agree, Flatten, Table, Sharded, IsExport, ReadEntries, Overlaid, Lifetimes;
    hide EntryAdded, HasLifetimeEntry, Remaining;
    ghost var s, now := bus.State(), bus.clock.now;
    entries := WriteTarEntry([], META_VERSION, FORMAT);
    var pairs := bus.FindByPrefix([]);
    ScanPerformed(s, now, bus.State(), bus.clock.now, pairs);
    at := bus.clock.now;
    ghost var values := Shown(s, at);
    OnlyVersion();
    OverlaidStart(map[], pairs);
    NoLifetimesYet(ReadEntries(entries), s.transient, values, at);
    var i := 0;
    while i < |pairs|
      invariant 0 <= i <= |pairs| && bus.Valid() && at <= bus.clock.now
      invariant entries != [] && entries[0] == (META_VERSION, FORMAT)
      invariant bus.State() == s.(transient := Purge(s.transient, bus.clock.now))
      invariant IsExport(ReadEntries(entries), Overlaid(map[], pairs, i))
      invariant Lifetimes(ReadEntries(entries), s.transient, values, Overlaid(map[], pairs, i), at, bus.clock.now)
    {
      var (key, value) := pairs[i];
      ListedKey(pairs, values, i);
      OverlaidFresh(map[], pairs, values, i);
      OverlaidWithin(pairs, values, i);
      ghost var before, archive, done := bus.clock.now, ReadEntries(entries), Overlaid(map[], pairs, i);
      ghost var remaining;
      entries, remaining := WriteEntry(bus, entries, key, value);
      PurgeTwice(s.transient, before, bus.clock.now);
      ExportWithLifetime(archive, done, key, value, remaining);
      LifetimesGrow(archive, s.transient, values, done, at, before, bus.clock.now, key, value, remaining);
      i := i + 1;
    }
    OverlaidComplete(map[], pairs, values);
    assert values + map[] == values;
  }

  lemma ExportWithLifetime(archive: Archive, done: Rows, key: Bytes, value: Bytes, remaining: Option<Duration>)
    requires IsExport(archive, done) && key !in done && (remaining.Some? ==> HasLifetimeEntry(key))
    ensures IsExport(EntryAdded(archive, key, value, remaining), done[key := value])
  {
    hide IsExport, HasLifetimeEntry, KeyToPath, TtlPath, ExportedValue, Decimal;
    ExportGrows(archive, done, key, value);
    if remaining.Some? {
      ExportGrowsLifetime(archive[KeyToPath(key) := ExportedValue(key, value)], done[key := value], key,
                          Decimal(remaining.value / MILLISECOND));
    }
  }

  lemma OverlaidWithin(pairs: seq<Pair>, m: Rows, n: nat)
    requires Lists(pairs, m) && n <= |pairs|
    ensures Overlaid(map[], pairs, n).Keys <= m.Keys
  {
    hide Leq, Less;
    OverlaidKeys(map[], pairs, n);
  }

  lemma OnlyVersion()
    ensures IsExport(ReadEntries([])[META_VERSION := FORMAT], map[])
  {
    hide META_VERSION, FORMAT;
  }

  lemma PathByKind(key: Bytes)
    ensures KeyToPath(key) == if IsUnder(key, SCHEMA, COLON) then Under(SCHEMA, SLASH) + Rest(key, SCHEMA)
                              else if IsUnder(key, REL, COLON) then Under(REL, SLASH) + Rest(key, REL)
                              else ColonsToSlashes(key)
    ensures HasLifetimeEntry(key) <==> !IsUnder(key, SCHEMA, COLON) && !IsUnder(key, REL, COLON)
    ensures forall value :: ExportedValue(key, value) == if IsUnder(key, REL, COLON) then [] else value
    ensures IsUnder(key, SCHEMA, COLON) ==> !IsUnder(key, REL, COLON) && |key| > |SCHEMA|
    ensures IsUnder(key, REL, COLON) ==> |key| > |REL|
  {
    NamesAreBare();
    hide SCHEMA, REL, TTL;
    if IsUnder(key, SCHEMA, COLON) { assert key[1] == SCHEMA[1]; }
    if IsUnder(key, REL, COLON) { assert key[1] == REL[1]; }
  }

  // ----- synchronising -----

  /** A relationship marker is empty, as the importer of relations writes it. */
  predicate MarkerEmpty(values: Rows, key: Bytes) {
    key in values && IsUnder(key, REL, COLON) ==> values[key] == []
  }

  /** A key that exports carry faithfully: it comes back, and no other key of either store is
      taken for it. */
  ghost predicate Carried(a: Rows, b: Rows, key: Bytes) {
    Exportable(key) && Apart(a, key) && Apart(b, key) && MarkerEmpty(a, key) && MarkerEmpty(b, key)
  }

  /** A carried key's entry is in the archive exactly when the key is among the values. */
  lemma DataEntry(archive: Archive, values: Rows, key: Bytes)
    requires IsExport(archive, values) && Exportable(key) && Apart(values, key)
    ensures KeyToPath(key) in archive <==> key in values
    ensures key in values ==> archive[KeyToPath(key)] == ExportedValue(key, values[key])
  {
    hide KeyToPath, PathToKey, TtlPath, IsTtl, META_VERSION, Exportable;
    DataPath(key);
    if KeyToPath(key) in archive {
      var k :| k in values && (KeyToPath(key) == KeyToPath(k) || (HasLifetimeEntry(k) && KeyToPath(key) == TtlPath(k)));
      LifetimeIsTtl(k);
    }
  }

  /** Only the key's own path is read back as the key. */
  lemma OnlyOwnPath(archive: Archive, values: Rows, p: Bytes, key: Bytes)
    requires IsExport(archive, values) && Exportable(key) && Apart(values, key)
    requires p in archive && p != META_VERSION && PathToKey(p) == key
    ensures p == KeyToPath(key)
  {
    hide KeyToPath, PathToKey, TtlPath, IsTtl, META_VERSION, IsUnder, Portable;
    var k :| k in values && (p == KeyToPath(k) || (HasLifetimeEntry(k) && p == TtlPath(k)));
    LifetimeIsTtl(k);
  }

  lemma CarriedIsSingle(a: Rows, old_: Archive, b: Rows, new_: Archive, key: Bytes)
    requires IsExport(old_, a) && IsExport(new_, b) && Carried(a, b, key)
    ensures SingleKey(old_, new_, key)
    ensures forall p :: IsEntryOf(old_, new_, p, key) ==> p == KeyToPath(key)
  {
    hide KeyToPath, PathToKey, META_VERSION, IsExport, Exportable, Apart, MarkerEmpty;
    forall p | IsEntryOf(old_, new_, p, key)
      ensures p == KeyToPath(key)
    {
      if p in old_ { OnlyOwnPath(old_, a, p, key); } else { OnlyOwnPath(new_, b, p, key); }
    }
  }

  // ----- stores in which every key is carried -----

  ghost predicate AllExportable(values: Rows) {
    forall k :: k in values ==> Exportable(k)
  }

  /** If all keys of both stores come back from an archive, none is taken for another. */
  lemma ExportableIsCarried(a: Rows, b: Rows, key: Bytes)
    requires AllExportable(a) && AllExportable(b) && Exportable(key) && MarkerEmpty(a, key) && MarkerEmpty(b, key)
    ensures Carried(a, b, key)
  {
    hide KeyToPath, PathToKey, META_VERSION, Exportable, IsUnder;
    forall k | k in a || k in b ensures PathToKey(KeyToPath(k)) == k { DataPath(k); }
  }

  /** No lifetime of such a store has the path of anything else. */
  lemma ExportableIsAlone(values: Rows, key: Bytes)
    requires AllExportable(values) && key in values && HasLifetimeEntry(key)
    ensures PathAlone(values, key)
  {
    hide KeyToPath, TtlPath, PathToKey, META_VERSION, IsUnder, Rest, IsTtl;
    LifetimeIsTtl(key);
    LifetimeName(key);
    forall j | j in values && j != key
      ensures KeyToPath(j) != TtlPath(key) && (HasLifetimeEntry(j) ==> TtlPath(j) != TtlPath(key))
    {
      DataPath(j);
      if HasLifetimeEntry(j) { LifetimeName(j); }
    }
  }

  /** In two exports of such stores, different paths name different keys. */
  lemma ExportsDistinct(old_: Archive, a: Rows, new_: Archive, b: Rows, key: Bytes)
    requires IsExport(old_, a) && IsExport(new_, b) && AllExportable(a) && AllExportable(b)
    ensures SingleKey(old_, new_, key)
  {
    hide KeyToPath, PathToKey, TtlPath, META_VERSION, Exportable, IsUnder, IsExport;
    forall p, q | IsEntryOf(old_, new_, p, key) && IsEntryOf(old_, new_, q, key)
      ensures p == q
    {
      PathNamesOne(old_, a, new_, b, p);
      PathNamesOne(old_, a, new_, b, q);
    }
  }

  /** Each path of such an export is recovered from the key it is read back as. */
  lemma PathNamesOne(old_: Archive, a: Rows, new_: Archive, b: Rows, p: Bytes)
    requires IsExport(old_, a) && IsExport(new_, b) && AllExportable(a) && AllExportable(b) && IsEntry(old_, new_, p)
    ensures var key := PathToKey(p);
            p == if IsUnder(key, TTL, COLON) then TtlPath(Rest(key, TTL)) else KeyToPath(key)
  {
    hide KeyToPath, PathToKey, TtlPath, META_VERSION;
    var archive, values := if p in old_ then old_ else new_, if p in old_ then a else b;
    assert IsExport(archive, values) && p in archive && NamesOneOf(values, p);
    var k :| k in values && (p == KeyToPath(k) || (HasLifetimeEntry(k) && p == TtlPath(k)));
    DataPath(k);
    if p != KeyToPath(k) { LifetimeName(k); }
  }

  /** A lifetime entry of an export is about the key it was written for. */
  lemma LifetimeNamesKey(key: Bytes)
    requires Exportable(key) && HasLifetimeEntry(key)
    ensures IsTtl(TtlPath(key)) && TtlTarget(TtlPath(key)) == key
  {
    LifetimeIsTtl(key);
    hide SCHEMA, REL, META_VERSION;
    assert Rest(TtlPath(key), TTL) == ColonsToSlashes(key);
    PlainExact(key);
  }

  lemma LifetimeName(key: Bytes)
    requires Exportable(key) && HasLifetimeEntry(key)
    ensures IsUnder(PathToKey(TtlPath(key)), TTL, COLON) && Rest(PathToKey(TtlPath(key)), TTL) == key
  {
    NamesAreBare();
    var path := TtlPath(key);
    assert path[1] == TTL[1];
    hide SCHEMA, REL, TTL, META_VERSION;
    assert Rest(path, TTL) == ColonsToSlashes(key);
    PlainExact(key);
    assert !IsUnder(path, SCHEMA, SLASH) && !IsUnder(path, REL, SLASH);
    assert PathToKey(path) == Under(TTL, COLON) + key;
  }

  /** For every key that the two exports carry, the difference of the exports brings any store
      to the second one's value: what changed is written, what vanished is deleted, and what is
      in neither or the same in both is left as the store has it. */
  lemma SyncReproduces(a: Rows, old_: Archive, b: Rows, new_: Archive, base: Rows, wanted: Rows, key: Bytes)
    requires IsExport(old_, a) && IsExport(new_, b) && Synced(wanted, base, old_, new_) && Carried(a, b, key)
    ensures if SameValue(a, b, key) then SameValue(wanted, base, key) else SameValue(wanted, b, key)
  {
    hide KeyToPath, PathToKey, TtlPath, IsTtl, META_VERSION, IsExport, Exportable, IsUnder, Apart, SingleKey;
    DataPath(key);
    DataEntry(old_, a, key);
    DataEntry(new_, b, key);
    CarriedIsSingle(a, old_, b, new_, key);
    assert SyncedKey(wanted, base, old_, new_, key);
    var path := KeyToPath(key);
    assert Changed(old_, new_, path) <==> key in b && !SameValue(a, b, key);
    assert Gone(old_, new_, path) <==> key in a && key !in b;
    if SameValue(a, b, key) { LeftAlone(old_, new_, key); }
  }

  lemma LeftAlone(old_: Archive, new_: Archive, key: Bytes)
    requires forall p :: IsEntryOf(old_, new_, p, key) ==> p == KeyToPath(key)
    requires !Changed(old_, new_, KeyToPath(key)) && !Gone(old_, new_, KeyToPath(key))
    ensures Untouched(old_, new_, key)
  {
    hide PathToKey, KeyToPath, IsTtl, META_VERSION;
    forall p | (Changed(old_, new_, p) && !IsTtl(p)) || Gone(old_, new_, p)
      ensures PathToKey(p) != key
    {
      assert PathToKey(p) == key ==> IsEntryOf(old_, new_, p, key);
    }
  }

  // ----- one bus made like another -----

  /** The key in the target when all is done: the source's value, and missing only if the source
      does not have it, or it had or was given a deadline. */
  ghost predicate MadeAlike(m: Flat, b: Rows, perishable: bool, key: Bytes) {
    if key in m then key in b && m[key].value == b[key] else key in b ==> perishable
  }

  lemma ExportedAt(s: Tiers, read: Instant, later: Instant, k: Bytes)
    requires read <= later
    ensures SameAt(View(s.(transient := Purge(s.transient, read)), later), View(s, later), k)
  {
  }

  lemma ExportedView(s: Tiers, now: Instant, at: Instant, read: Instant, later: Instant)
    requires Coherent(s, now) && now <= at <= read <= later
    ensures var s1 := s.(transient := Purge(s.transient, read));
            Coherent(s1, later) && View(s1, later) == Purge(View(s, at), later)
    ensures Shown(s, at) == Values(View(s, at))
  {
    var s1 := s.(transient := Purge(s.transient, read));
    assert Coherent(s1, later);
    ViewValues(s, now, at);
    hide View, Purge, SameAt, Coherent;
    forall k ensures SameAt(View(s1, later), View(s, later), k) { ExportedAt(s, read, later, k); }
    SameEverywhere(View(s1, later), View(s, later));
    ViewLater(s, at, later);
  }

  lemma OneKeyAlike(v: Flat, old_: Archive, b: Rows, new_: Archive, later: Instant, wanted: Rows, m: Flat, key: Bytes)
    requires IsExport(old_, Values(v)) && IsExport(new_, b) && Carried(Values(v), b, key)
    requires Synced(wanted, Values(Purge(v, later)), old_, new_)
    requires HoldsValues(m, wanted, Purge(v, later), old_, new_)
    ensures MadeAlike(m, b, Perishable(v, old_, new_, key), key)
  {
    hide IsExport, Carried, Synced, Changed, IsTtl, TtlTarget;
    var start := Purge(v, later);
    SyncReproduces(Values(v), old_, b, new_, Values(start), wanted, key);
    assert SameValue(wanted, b, key) || SameValue(wanted, Values(start), key);
    if key !in m && key in b && key !in wanted {
      assert key in v && key !in start;
    }
  }

  /** If every key of both stores comes back from an archive and markers are empty, all of the
      target becomes like the source, and it holds no other key. */
  lemma AllAlike(v: Flat, old_: Archive, b: Rows, new_: Archive, later: Instant, wanted: Rows, m: Flat, key: Bytes)
    requires IsExport(old_, Values(v)) && IsExport(new_, b) && PlainStores(Values(v), b)
    requires Synced(wanted, Values(Purge(v, later)), old_, new_)
    requires HoldsValues(m, wanted, Purge(v, later), old_, new_)
    ensures MadeAlike(m, b, Perishable(v, old_, new_, key), key)
  {
    hide IsExport, Carried, Changed, IsTtl, TtlTarget, Exportable, AllExportable, MarkerEmpty;
    if Exportable(key) {
      ExportableIsCarried(Values(v), b, key);
      OneKeyAlike(v, old_, b, new_, later, wanted, m, key);
    } else {
      StrangersAbsent(Values(v), old_, b, new_, Values(Purge(v, later)), wanted, key);
    }
  }

  /** A key that does not come back from archives is in neither store and is not invented. */
  lemma StrangersAbsent(a: Rows, old_: Archive, b: Rows, new_: Archive, base: Rows, wanted: Rows, key: Bytes)
    requires IsExport(old_, a) && IsExport(new_, b) && AllExportable(a) && AllExportable(b) && !Exportable(key)
    requires Synced(wanted, base, old_, new_) && base.Keys <= a.Keys
    ensures key !in wanted && key !in b
  {
    hide KeyToPath, PathToKey, TtlPath, META_VERSION, Exportable, IsUnder, IsTtl, IsExport, SingleKey;
    ExportsDistinct(old_, a, new_, b, key);
    assert SyncedKey(wanted, base, old_, new_, key);
    if !exists p :: Gone(old_, new_, p) && PathToKey(p) == key {
      forall p | Changed(old_, new_, p) && !IsTtl(p) ensures PathToKey(p) != key {
        WrittenExportable(b, new_, p);
      }
      assert Untouched(old_, new_, key);
    }
  }

  lemma WrittenExportable(b: Rows, new_: Archive, p: Bytes)
    requires IsExport(new_, b) && AllExportable(b) && p in new_ && p != META_VERSION && !IsTtl(p)
    ensures Exportable(PathToKey(p))
  {
    hide KeyToPath, PathToKey, TtlPath, META_VERSION, Exportable, IsTtl;
    assert NamesOneOf(b, p);
    var k :| k in b && (p == KeyToPath(k) || (HasLifetimeEntry(k) && p == TtlPath(k)));
    LifetimeIsTtl(k);
    DataPath(k);
  }

  /** Stores whose keys all come back from an archive and whose markers are empty. */
  ghost predicate PlainStores(a: Rows, b: Rows) {
    AllExportable(a) && AllExportable(b) && forall key :: MarkerEmpty(a, key) && MarkerEmpty(b, key)
  }

  /** Export two stores, then import the difference into the first: for every key that exports
      carry, it has become like the second; altogether so, if all their keys are plain. */
  method MakeAlike(target: PermutiveBus, source: PermutiveBus, ttlOf: Bytes -> Option<nat>)
    returns (result: DiffResult, ghost at: Instant, ghost from: Instant, ghost old_: Archive, ghost new_: Archive)
    requires target.Valid() && source.Valid()
    requires target.transient.store != source.transient.store && target.persistent != source.persistent
    modifies target.transient.store, target.persistent, target.clock, source.transient.store, source.clock
    ensures target.Valid() && old(target.clock.now) <= at && old(source.clock.now) <= from
    ensures IsExport(old_, Shown(old(target.State()), at)) && IsExport(new_, Shown(old(source.State()), from))
    ensures Coherent(old(target.State()), old(target.clock.now)) && NoneMissed(new_, old(target.persistent.shelved)) ==>
              forall key :: Carried(Shown(old(target.State()), at), Shown(old(source.State()), from), key) ==>
                MadeAlike(View(target.State(), target.clock.now), Shown(old(source.State()), from),
                          Perishable(View(old(target.State()), at), old_, new_, key), key)
    ensures Coherent(old(target.State()), old(target.clock.now)) && NoneMissed(new_, old(target.persistent.shelved)) ==>
              PlainStores(Shown(old(target.State()), at), Shown(old(source.State()), from)) ==>
                forall key :: MadeAlike(View(target.State(), target.clock.now), Shown(old(source.State()), from),
                                        Perishable(View(old(target.State()), at), old_, new_, key), key)
  {
    hide Purge, Values, View, Coherent, Agree, Flatten, Table, Sharded, Reloadable, Namespace, IsExport, ReadEntries;
    hide Carried, PlainStores, MadeAlike, Perishable, Synced, HoldsValues, Additions, Modifications, Deletions;
    ghost var s, now := target.State(), target.clock.now;
    var before, after;
    before, at := WriteTarContents(target);
    ghost var s1, read := target.State(), target.clock.now;
    after, from := WriteTarContents(source);
    old_, new_ := ReadEntries(before), ReadEntries(after);
    ghost var now1 := target.clock.now;
    result := ParseDiffImport(target, ReadEntries(before), ReadEntries(after), ttlOf);
    if Coherent(s, now) && NoneMissed(new_, old(target.persistent.shelved)) {
      ghost var v, start := View(s, at), View(s1, now1);
      ExportedView(s, now, at, read, now1);
      ghost var wanted :| Synced(wanted, Values(start), old_, new_)
                          && Holding(target.State(), target.clock.now, wanted,
                                     Plan(start, now1, old_, new_, ttlOf), {});
      ghost var b, m := Shown(old(source.State()), from), View(target.State(), target.clock.now);
      assert HoldsValues(m, wanted, start, old_, new_);
      forall key | Carried(Shown(s, at), b, key)
        ensures MadeAlike(m, b, Perishable(v, old_, new_, key), key)
      {
        OneKeyAlike(v, old_, b, new_, now1, wanted, m, key);
      }
      if PlainStores(Shown(s, at), b) {
        forall key ensures MadeAlike(m, b, Perishable(v, old_, new_, key), key) {
          AllAlike(v, old_, b, new_, now1, wanted, m, key);
        }
      }
    }
  }
}
