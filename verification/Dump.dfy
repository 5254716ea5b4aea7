/** Binary dumps: the record format, the restore loop over it, and what a dump followed by a
    restore preserves. */
module Dumps {
  import opened ByteStrings
  import opened BigEndian
  import opened Codec
  import opened FlatStore
  import opened PersistentTier
  import opened TransientStore
  import opened TwoTiers
  import opened Permutive

  // ----- the format -----

  /** One entry; a lifetime of 0 milliseconds stands for none. */
  datatype Record = Record(key: Bytes, value: Bytes, ttl: nat)

  predicate Fits(r: Record) {
    |r.key| < TWO_TO_32 && |r.value| < TWO_TO_32 && r.ttl < TWO_TO_64
  }

  function EncodeRecord(r: Record): (bytes: Bytes)
    ensures |bytes| == 16 + |r.key| + |r.value|
  {
    ToBytes(|r.key|, 4) + r.key + ToBytes(|r.value|, 4) + r.value + ToBytes(r.ttl, 8)
  }

  function EncodeAll(records: seq<Record>): Bytes {
    if records == [] then [] else EncodeRecord(records[0]) + EncodeAll(records[1..])
  }

  lemma {:induction false} EncodeAllPush(records: seq<Record>, r: Record)
    ensures EncodeAll(records + [r]) == EncodeAll(records) + EncodeRecord(r)
  {
    hide EncodeRecord;
    if records == [] {
      assert [r][1..] == [];
    } else {
      assert (records + [r])[1..] == records[1..] + [r];
      EncodeAllPush(records[1..], r);
    }
  }

  /** The record at `offset`, if all of it is there, and where it ends. */
  function RecordAt(data: Bytes, offset: nat): (r: Option<(Record, nat)>)
    ensures r.Some? ==> offset < r.value.1 <= |data|
  {
    match FieldAt(data, offset)
    case None => None
    case Some((key, a)) =>
      match FieldAt(data, a)
      case None => None
      case Some((value, b)) =>
        if |data| < b + 8 then None else Some((Record(key, value, U64At(data, b)), b + 8))
  }

  function RecordsFrom(data: Bytes, offset: nat): seq<Record>
    decreases |data| - offset
  {
    match RecordAt(data, offset)
    case None => []
    case Some((r, end)) => [r] + RecordsFrom(data, end)
  }

  lemma RecordReads(before: Bytes, r: Record, after: Bytes)
    requires Fits(r)
    ensures RecordAt(before + EncodeRecord(r) + after, |before|) == Some((r, |before| + |EncodeRecord(r)|))
  {
    hide U32At, FieldAt, U64At, U32, U64, Field, ToBytes;
    FieldBytes(r);
    var data := before + EncodeRecord(r) + after;
    assert data == before + Field(r.key) + (Field(r.value) + U64(r.ttl) + after);
    FieldReads(before, r.key, Field(r.value) + U64(r.ttl) + after);
    assert data == (before + Field(r.key)) + Field(r.value) + (U64(r.ttl) + after);
    FieldReads(before + Field(r.key), r.value, U64(r.ttl) + after);
    assert data == (before + Field(r.key) + Field(r.value)) + U64(r.ttl) + after;
    U64Reads(before + Field(r.key) + Field(r.value), r.ttl, after);
  }

  lemma FieldBytes(r: Record)
    requires Fits(r)
    ensures EncodeRecord(r) == Field(r.key) + Field(r.value) + U64(r.ttl)
  {
    hide ToBytes;
  }

  lemma RecordInPrefix(data: Bytes, offset: nat, n: nat)
    requires n <= |data|
    ensures RecordAt(data[..n], offset) ==
            if RecordAt(data, offset).Some? && RecordAt(data, offset).value.1 <= n then RecordAt(data, offset) else None
  {
    hide FieldAt;
    FieldInPrefix(data, offset, n);
    if FieldAt(data, offset).Some? {
      var a := FieldAt(data, offset).value.1;
      FieldInPrefix(data, a, n);
      if FieldAt(data, a).Some? {
        var b := FieldAt(data, a).value.1;
        if b + 8 <= n { assert data[..n][b..b + 8] == data[b..b + 8]; }
      }
    }
  }

  /** How many records lie wholly inside the first `n` bytes of their encoding. */
  function Inside(records: seq<Record>, n: nat): (m: nat)
    ensures m <= |records|
    ensures |EncodeAll(records)| <= n ==> m == |records|
  {
    if records == [] || |EncodeRecord(records[0])| > n then 0
    else 1 + Inside(records[1..], n - |EncodeRecord(records[0])|)
  }

  lemma {:induction false} PrefixFrom(before: Bytes, records: seq<Record>, n: nat)
    requires forall r :: r in records ==> Fits(r)
    requires |before| <= n <= |before| + |EncodeAll(records)|
    ensures RecordsFrom((before + EncodeAll(records))[..n], |before|) == records[..Inside(records, n - |before|)]
    decreases |records|
  {
    hide RecordAt, EncodeRecord, Fits;
    var data := before + EncodeAll(records);
    RecordInPrefix(data, |before|, n);
    if records == [] {
      NothingReads(before);
      assert data == before;
    } else {
      var r := records[0];
      assert data == before + EncodeRecord(r) + EncodeAll(records[1..]);
      RecordReads(before, r, EncodeAll(records[1..]));
      if |before| + |EncodeRecord(r)| <= n {
        assert data == (before + EncodeRecord(r)) + EncodeAll(records[1..]);
        PrefixFrom(before + EncodeRecord(r), records[1..], n);
      }
    }
  }

  lemma NothingReads(data: Bytes)
    ensures RecordAt(data, |data|).None?
  {
  }

  /** Of any byte prefix of a dump, exactly the records wholly inside it are read, in order;
      of the whole dump, all of them. */
  lemma PrefixReadsWholeRecords(records: seq<Record>, n: nat)
    requires (forall r :: r in records ==> Fits(r)) && n <= |EncodeAll(records)|
    ensures RecordsFrom(EncodeAll(records)[..n], 0) == records[..Inside(records, n)]
    ensures RecordsFrom(EncodeAll(records), 0) == records
  {
    hide EncodeRecord, RecordsFrom;
    PrefixFrom([], records, n);
    PrefixFrom([], records, |EncodeAll(records)|);
    assert [] + EncodeAll(records) == EncodeAll(records);
    assert EncodeAll(records)[..|EncodeAll(records)|] == EncodeAll(records);
  }

  // ----- restoring -----

  /** The bus went through these records, one after the other. */
  ghost predicate Restored(s: Tiers, now: Instant, records: seq<Record>, s': Tiers, now': Instant)
    decreases |records|
  {
    if records == [] then s' == s && now' == now
    else
      var last := records[|records| - 1];
      exists s1, now1 {:trigger RestoredOne(s1, now1, last, s', now')} ::
        Restored(s, now, records[..|records| - 1], s1, now1) && RestoredOne(s1, now1, last, s', now')
  }

  ghost predicate RestoredOne(s: Tiers, now: Instant, r: Record, s': Tiers, now': Instant) {
    if r.ttl == 0 then Performs(s, now, WriteValue(r.key, r.value), s', now', Done)
    else exists s1, now1 :: Performs(s, now, WriteValue(r.key, r.value), s1, now1, Done)
                            && Performs(s1, now1, WriteTtl(r.key, r.ttl * MILLISECOND), s', now', Done)
  }

  lemma RestoredPush(s: Tiers, now: Instant, records: seq<Record>, s1: Tiers, now1: Instant, r: Record, s': Tiers,
                     now': Instant)
    requires Restored(s, now, records, s1, now1) && RestoredOne(s1, now1, r, s', now')
    ensures Restored(s, now, records + [r], s', now')
  {
    hide RestoredOne;
    var all := records + [r];
    assert all[..|all| - 1] == records && RestoredOne(s1, now1, all[|all| - 1], s', now');
  }

  /** No record brings back rows of a database file that start-up missed. */
  ghost predicate NoneShelved(records: seq<Record>, shelved: Files) {
    forall r :: r in records ==> Namespace(r.key) !in shelved
  }

  lemma RecordNotShelved(records: seq<Record>, before: Files, shelved: Files, r: Record)
    requires NoneShelved(records, before) && shelved.Keys <= before.Keys && r in records
    ensures Namespace(r.key) !in shelved
  {
    hide Namespace;
  }

  method RestoreRecord(bus: PermutiveBus, r: Record)
    requires bus.Valid()
    modifies bus.transient.store, bus.persistent, bus.clock
    ensures bus.Valid() && bus.persistent.shelved.Keys <= old(bus.persistent.shelved.Keys)
    ensures Namespace(r.key) !in old(bus.persistent.shelved) ==>
              RestoredOne(old(bus.State()), old(bus.clock.now), r, bus.State(), bus.clock.now)
  {
    hide Performs, Namespace, Agree, Flatten, Table, Sharded, Reloadable;
    bus.WriteValue(r.key, r.value);
    if r.ttl > 0 {
      ghost var s1, now1 := bus.State(), bus.clock.now;
      bus.WriteTtl(r.key, r.ttl * MILLISECOND);
    }
  }

  /** The restore loop's reading of one record, each length checked before it is used. */
  method ReadRecord(data: Bytes, start: nat) returns (r: Option<(Record, nat)>)
    requires start + 4 <= |data|
    ensures r == RecordAt(data, start)
  {
    hide FromBytes, ToBytes;
    var offset := start;
    var keyLen := U32At(data, offset);
    offset := offset + 4;
    if offset + keyLen + 4 > |data| { return None; }
    var key := data[offset..offset + keyLen];
    offset := offset + keyLen;
    var valueLen := U32At(data, offset);
    offset := offset + 4;
    if offset + valueLen + 8 > |data| { return None; }
    var value := data[offset..offset + valueLen];
    offset := offset + valueLen;
    var ttlMs := U64At(data, offset);
    offset := offset + 8;
    return Some((Record(key, value, ttlMs), offset));
  }

  /** The restore loop: read a record, put it back, go on until what is left is not a whole
      record. */
  method RestoreDump(bus: PermutiveBus, data: Bytes) returns (count: nat)
    requires bus.Valid()
    modifies bus.transient.store, bus.persistent, bus.clock
    ensures bus.Valid() && count == |RecordsFrom(data, 0)|
    ensures NoneShelved(RecordsFrom(data, 0), old(bus.persistent.shelved)) ==>
              Restored(old(bus.State()), old(bus.clock.now), RecordsFrom(data, 0), bus.State(), bus.clock.now)
  {
    hide Namespace, RestoredOne, Restored, RecordAt, NoneShelved, Agree, Flatten, Table, Sharded, Reloadable;
    var offset := 0;
    count := 0;
    ghost var done: seq<Record> := [];
    RestoredNone(bus.State(), bus.clock.now);
    while offset + 4 <= |data|
      invariant offset <= |data| && count == |done|
      invariant bus.Valid() && bus.persistent.shelved.Keys <= old(bus.persistent.shelved.Keys)
      invariant RecordsFrom(data, 0) == done + RecordsFrom(data, offset)
      invariant NoneShelved(RecordsFrom(data, 0), old(bus.persistent.shelved)) ==>
                  Restored(old(bus.State()), old(bus.clock.now), done, bus.State(), bus.clock.now)
      decreases |data| - offset
    {
      var next := ReadRecord(data, offset);
      if next.None? { break; }
      var (record, end) := next.value;
      ghost var s1, now1 := bus.State(), bus.clock.now;
      ghost var shelved := bus.persistent.shelved;
      RestoreRecord(bus, record);
      if NoneShelved(RecordsFrom(data, 0), old(bus.persistent.shelved)) {
        RecordNotShelved(RecordsFrom(data, 0), old(bus.persistent.shelved), shelved, record);
        RestoredPush(old(bus.State()), old(bus.clock.now), done, s1, now1, record, bus.State(), bus.clock.now);
      }
      done := done + [record];
      offset := end;
      count := count + 1;
    }
    NoMoreRecords(data, offset);
    assert RecordsFrom(data, 0) == done;
  }

  lemma NoMoreRecords(data: Bytes, offset: nat)
    ensures offset + 4 > |data| || RecordAt(data, offset).None? ==> RecordsFrom(data, offset) == []
  {
  }

  lemma RestoredNone(s: Tiers, now: Instant)
    ensures Restored(s, now, [], s, now)
  {
  }

  // ----- what a restore rebuilds -----

  predicate DistinctKeys(records: seq<Record>) {
    forall i, j :: 0 <= i < j < |records| ==> records[i].key != records[j].key
  }

  function KeysOfRecords(records: seq<Record>): set<Bytes> {
    set r | r in records :: r.key
  }

  /** The record's value is back, with a deadline its lifetime after the moment it was written;
      it is missing only if that deadline has passed. */
  ghost predicate Holds(m: Flat, start: Instant, now: Instant, r: Record) {
    var lifetime := r.ttl * MILLISECOND;
    if r.key !in m then r.ttl > 0 && start + lifetime <= now
    else m[r.key].value == r.value
         && match m[r.key].deadline
            case None => r.ttl == 0
            case Some(d) => r.ttl > 0 && start + lifetime <= d <= now + lifetime
  }

  /** The records are back; every other key is as it was in `base`, less what has expired. */
  ghost predicate Rebuilt(m: Flat, base: Flat, start: Instant, now: Instant, records: seq<Record>) {
    && (forall r :: r in records ==> Holds(m, start, now, r))
    && (forall k :: k !in KeysOfRecords(records) ==> SameAt(m, Purge(base, now), k))
  }

  lemma HoldsLater(m: Flat, start: Instant, now: Instant, later: Instant, r: Record)
    requires Holds(m, start, now, r) && now <= later
    ensures Holds(Purge(m, later), start, later, r)
  {
  }

  lemma RebuiltMore(m: Flat, base: Flat, start: Instant, now: Instant, records: seq<Record>, later: Instant, r: Record,
                    m': Flat)
    requires Rebuilt(m, base, start, now, records) && start <= now <= later && r.key !in KeysOfRecords(records)
    requires m' == if r.ttl == 0 then Put(Purge(m, later), r.key, r.value)
                   else PutUntil(Purge(m, later), r.key, r.value, later + r.ttl * MILLISECOND)
    ensures Rebuilt(m', base, start, later, records + [r])
  {
    forall q | q in records + [r]
      ensures Holds(m', start, later, q)
    {
      if q != r {
        assert q in records && q.key in KeysOfRecords(records);
        HoldsLater(m, start, now, later, q);
      }
    }
    forall k | k !in KeysOfRecords(records + [r])
      ensures SameAt(m', Purge(base, later), k)
    {
      OtherKey(records, r, k);
      assert SameAt(m, Purge(base, now), k);
    }
  }

  lemma OtherKey(records: seq<Record>, r: Record, k: Bytes)
    requires k !in KeysOfRecords(records + [r])
    ensures k != r.key && k !in KeysOfRecords(records)
  {
    assert r in records + [r] && forall q :: q in records ==> q in records + [r];
  }

  /** The flat map after one record has been put back. */
  lemma RestoredOneView(s: Tiers, now: Instant, r: Record, s': Tiers, now': Instant)
    requires RestoredOne(s, now, r, s', now') && Coherent(s, now)
    ensures now <= now' && Coherent(s', now')
    ensures View(s', now') == if r.ttl == 0 then Put(Purge(View(s, now), now'), r.key, r.value)
                              else PutUntil(Purge(View(s, now), now'), r.key, r.value, now' + r.ttl * MILLISECOND)
  {
    hide Performs, View, Coherent;
    if r.ttl == 0 {
      PerformsRefines(s, now, WriteValue(r.key, r.value), s', now', Done);
      ViewLater(s, now, now');
      PutThenPurge(View(s, now), now', r.key, r.value);
    } else {
      var lifetime := r.ttl * MILLISECOND;
      var s1, now1 :| Performs(s, now, WriteValue(r.key, r.value), s1, now1, Done)
                      && Performs(s1, now1, WriteTtl(r.key, lifetime), s', now', Done);
      PerformsRefines(s, now, WriteValue(r.key, r.value), s1, now1, Done);
      PerformsRefines(s1, now1, WriteTtl(r.key, lifetime), s', now', Done);
      ViewLater(s, now, now1);
      ViewLater(s1, now1, now');
      PutThenExpire(View(s, now), now1, now', r.key, r.value, lifetime);
    }
  }

  lemma PutThenPurge(m: Flat, at: Instant, key: Bytes, value: Bytes)
    ensures Purge(Put(Purge(m, at), key, value), at) == Put(Purge(m, at), key, value)
  {
  }

  lemma PutThenExpire(m: Flat, a: Instant, b: Instant, key: Bytes, value: Bytes, lifetime: Duration)
    requires a <= b && lifetime > 0
    ensures var stored := Purge(Put(Purge(m, a), key, value), a);
            Purge(Expire(Purge(stored, b), key, b + lifetime), b) == PutUntil(Purge(m, b), key, value, b + lifetime)
  {
    var stored := Purge(Put(Purge(m, a), key, value), a);
    assert Purge(stored, b) == Put(Purge(m, b), key, value);
  }

  /** Restored into any bus, records with distinct keys leave exactly their values, with
      deadlines counted from when each was written, and leave the other keys alone. */
  lemma {:induction false} RestoreRebuilds(s: Tiers, start: Instant, records: seq<Record>, s': Tiers, now': Instant)
    requires Coherent(s, start) && Restored(s, start, records, s', now') && DistinctKeys(records)
    ensures start <= now' && Coherent(s', now')
    ensures Rebuilt(View(s', now'), View(s, start), start, now', records)
    decreases |records|
  {
    hide RestoredOne, Rebuilt, View, Put, PutUntil, Purge, Coherent;
    if records == [] {
      NothingRebuilt(s, start);
    } else {
      var init, last := records[..|records| - 1], records[|records| - 1];
      var s1, now1 :| Restored(s, start, init, s1, now1) && RestoredOne(s1, now1, last, s', now');
      RestoreRebuilds(s, start, init, s1, now1);
      RestoredOneView(s1, now1, last, s', now');
      RebuiltMore(View(s1, now1), View(s, start), start, now1, init, now', last, View(s', now'));
      assert records == init + [last];
    }
  }

  lemma NothingRebuilt(s: Tiers, start: Instant)
    ensures Rebuilt(View(s, start), View(s, start), start, start, [])
  {
  }

  // ----- dumping -----

  function Millis(remaining: Option<Duration>): nat {
    match remaining
    case None => 0
    case Some(d) => d / MILLISECOND
  }

  function PairsOf(records: seq<Record>): (pairs: seq<Pair>)
    ensures |pairs| == |records| && forall i :: 0 <= i < |pairs| ==> pairs[i] == (records[i].key, records[i].value)
  {
    seq(|records|, i requires 0 <= i < |records| => (records[i].key, records[i].value))
  }

  /** The lifetime in the record was read from memory at some moment of the dump. */
  ghost predicate LifetimeRead(transient: Flat, from: Instant, upto: Instant, r: Record) {
    exists t :: from <= t <= upto && r.ttl == Millis(Remaining(Purge(transient, t), r.key, t))
  }

  /** The dump holds the merged scan of both tiers at one moment, in key order, each entry
      with its lifetime in memory as read at a later moment of its own. */
  ghost predicate Dumped(s: Tiers, now: Instant, now': Instant, records: seq<Record>) {
    exists at ::
      && now <= at <= now'
      && Lists(PairsOf(records), s.rows + Values(Purge(s.transient, at)))
      && forall r :: r in records ==> LifetimeRead(s.transient, at, now', r)
  }

  lemma ScanPerformed(s: Tiers, now: Instant, s': Tiers, now': Instant, pairs: seq<Pair>)
    requires Performs(s, now, FindByPrefix([]), s', now', Pairs(pairs))
    ensures now <= now' && s' == s.(transient := Purge(s.transient, now'))
    ensures Lists(pairs, s.rows + Values(Purge(s.transient, now')))
  {
    hide InOrder, Purge, Values, Lists;
    var t :| Ascending(now, t) && s' == After(s, t, FindByPrefix([])) && now' == t.first
             && Pairs(pairs) == Result(s, t, FindByPrefix([]));
    EverythingHasEmptyPrefix(s.rows);
    EverythingHasEmptyPrefix(Values(Purge(s.transient, t.first)));
    assert pairs == InOrder(Merged(s, t, []));
  }

  lemma EverythingHasEmptyPrefix(m: Rows)
    ensures WithPrefix(m, []) == m
  {
  }

  lemma LifetimePerformed(s: Tiers, now: Instant, key: Bytes, s': Tiers, now': Instant, remaining: Option<Duration>)
    requires Performs(s, now, ReadTtlRemaining(key), s', now', Left(remaining))
    ensures now <= now' && s' == s.(transient := Purge(s.transient, now'))
    ensures remaining == Remaining(Purge(s.transient, now'), key, now')
  {
    hide InOrder, Purge;
  }

  method DumpAll(bus: PermutiveBus) returns (file: Bytes, ghost records: seq<Record>)
    requires bus.Valid()
    modifies bus.transient.store, bus.clock
    ensures bus.Valid() && file == EncodeAll(records)
    ensures Dumped(old(bus.State()), old(bus.clock.now), bus.clock.now, records)
  {
    hide Performs, EncodeAll, EncodeRecord, Purge, Lists, Remaining, Values, Agree, Flatten, Table, Sharded;
    ghost var s, now := bus.State(), bus.clock.now;
    var pairs := bus.FindByPrefix([]);
    ScanPerformed(s, now, bus.State(), bus.clock.now, pairs);
    ghost var at := bus.clock.now;
    file, records := [], [];
    NothingEncoded();
    var i := 0;
    while i < |pairs|
      invariant 0 <= i <= |pairs| && bus.Valid() && at <= bus.clock.now
      invariant bus.State() == s.(transient := Purge(s.transient, bus.clock.now))
      invariant PairsOf(records) == pairs[..i] && file == EncodeAll(records)
      invariant forall r :: r in records ==> LifetimeRead(s.transient, at, bus.clock.now, r)
    {
      var (key, value) := pairs[i];
      ghost var s1, now1 := bus.State(), bus.clock.now;
      var remaining := bus.ReadTtlRemaining(key);
      LifetimePerformed(s1, now1, key, bus.State(), bus.clock.now, remaining);
      PurgeTwice(s.transient, now1, bus.clock.now);
      var ttlMs := Millis(remaining);
      file := file + ToBytes(|key|, 4) + key + ToBytes(|value|, 4) + value + ToBytes(ttlMs, 8);
      ghost var r := Record(key, value, ttlMs);
      RecordPushed(records, r, pairs, i);
      assert LifetimeRead(s.transient, at, bus.clock.now, r);
      records := records + [r];
      i := i + 1;
    }
    assert pairs[..i] == pairs;
  }

  lemma NothingEncoded()
    ensures EncodeAll([]) == []
  {
  }

  lemma RecordPushed(records: seq<Record>, r: Record, pairs: seq<Pair>, i: nat)
    requires i < |pairs| && PairsOf(records) == pairs[..i] && pairs[i] == (r.key, r.value)
    ensures PairsOf(records + [r]) == pairs[..i + 1]
    ensures EncodeAll(records + [r]) ==
            EncodeAll(records) + ToBytes(|r.key|, 4) + r.key + ToBytes(|r.value|, 4) + r.value + ToBytes(r.ttl, 8)
  {
    hide EncodeAll, ToBytes;
    EncodeAllPush(records, r);
  }

  // ----- what a dump keeps of lifetimes -----

  /** What a dump that scanned at `at` records of an entry whose lifetime it reads at `t`. An
      entry without a deadline is recorded as such unless its row is also cached in memory for
      at least another millisecond. One with a deadline keeps its lifetime to the millisecond;
      it is recorded as having no deadline at all if less than a millisecond was left, or if it
      expired between the scan and the reading of its lifetime. */
  lemma LifetimeKept(s: Tiers, at: Instant, t: Instant, key: Bytes)
    requires Coherent(s, at) && at <= t && key in View(s, at)
    ensures var ttl := Millis(Remaining(Purge(s.transient, t), key, t));
            match View(s, at)[key].deadline
            case None => ttl > 0 <==> CachedFor(s, t, key, MILLISECOND)
            case Some(d) => && (ttl > 0 <==> t + MILLISECOND <= d)
                            && (t <= d ==> ttl * MILLISECOND <= d - t < (ttl + 1) * MILLISECOND)
  {
    hide Coherent;
  }

  /** A row with a copy in memory that lives at least `d` longer. */
  predicate CachedFor(s: Tiers, t: Instant, key: Bytes, d: Duration) {
    IsCached(s, t, key) && t + d <= s.transient[key].deadline.value
  }

  function WholeMillis(d: Duration): Duration {
    d / MILLISECOND * MILLISECOND
  }

  /** What has become of entry `e`, when its lifetime was read at `t` and it was written again
      between `start` and `end`. A deadline with a millisecond left becomes one that counts the
      whole milliseconds left from the moment of writing; any other deadline is lost. A row
      gets a deadline only from a copy in memory. What has gone had a deadline that ran out. */
  ghost predicate Fate(s: Tiers, e: Entry, t: Instant, key: Bytes, m: Flat, start: Instant, end: Instant) {
    match e.deadline
    case None => if key in m then m[key].deadline.Some? <==> CachedFor(s, t, key, MILLISECOND)
                 else CachedFor(s, t, key, MILLISECOND)
    case Some(d) =>
      if key !in m then t + MILLISECOND <= d && start + WholeMillis(d - t) <= end
      else match m[key].deadline
        case None => d < t + MILLISECOND
        case Some(d') => t + MILLISECOND <= d && start + WholeMillis(d - t) <= d' <= end + WholeMillis(d - t)
  }

  lemma FateOf(s: Tiers, at: Instant, t: Instant, r: Record, m: Flat, start: Instant, end: Instant)
    requires Coherent(s, at) && at <= t && r.key in View(s, at)
    requires r.ttl == Millis(Remaining(Purge(s.transient, t), r.key, t)) && Holds(m, start, end, r)
    ensures Fate(s, View(s, at)[r.key], t, r.key, m, start, end)
  {
    hide Coherent, Purge, View, CachedFor;
    LifetimeKept(s, at, t, r.key);
    var e := View(s, at)[r.key];
    if e.deadline.Some? && r.ttl > 0 { LifetimeMillis(s, at, t, r.key); }
  }

  lemma LifetimeMillis(s: Tiers, at: Instant, t: Instant, key: Bytes)
    requires Coherent(s, at) && at <= t && key in View(s, at) && View(s, at)[key].deadline.Some?
    requires t <= View(s, at)[key].deadline.value && Millis(Remaining(Purge(s.transient, t), key, t)) > 0
    ensures Millis(Remaining(Purge(s.transient, t), key, t)) == (View(s, at)[key].deadline.value - t) / MILLISECOND
  {
  }

  /** Dump, then restore into any bus, such as a fresh one with its registry: at the end the
      dumped keys have their values, the others are as they were, and whatever has gone was
      given a deadline that has passed. */
  lemma DumpRestore(s: Tiers, now: Instant, now': Instant, records: seq<Record>,
                    s0: Tiers, start: Instant, r: Tiers, end: Instant)
    returns (at: Instant)
    requires Coherent(s, now) && Dumped(s, now, now', records) && forall q :: q in records ==> Fits(q)
    requires Coherent(s0, start) && Restored(s0, start, RecordsFrom(EncodeAll(records), 0), r, end)
    ensures now <= at <= now' && start <= end && KeysOfRecords(records) == View(s, at).Keys
    ensures forall q :: q in records ==> LifetimeRead(s.transient, at, now', q) && q.value == View(s, at)[q.key].value
    ensures Rebuilt(View(r, end), View(s0, start), start, end, records)
  {
    hide LifetimeRead, Restored, RecordsFrom, EncodeAll, Fits, View, Rebuilt, Coherent, Lists;
    PrefixReadsWholeRecords(records, |EncodeAll(records)|);
    at :| && now <= at <= now' && Lists(PairsOf(records), s.rows + Values(Purge(s.transient, at)))
          && forall q :: q in records ==> LifetimeRead(s.transient, at, now', q);
    ViewValues(s, now, at);
    ListedKeysDistinct(records, Values(View(s, at)));
    RestoreRebuilds(s0, start, records, r, end);
    ListedValues(records, Values(View(s, at)));
  }

  /** Values: before any restored lifetime runs out, the dumped values over what was there. */
  lemma DumpRestoreKeepsValues(s: Tiers, now: Instant, now': Instant, records: seq<Record>,
                               s0: Tiers, start: Instant, r: Tiers, end: Instant)
    requires Coherent(s, now) && Dumped(s, now, now', records)
    requires Coherent(s0, start) && Restored(s0, start, RecordsFrom(EncodeAll(records), 0), r, end)
    requires forall q :: q in records ==> Fits(q) && (q.ttl > 0 ==> end < start + q.ttl * MILLISECOND)
    ensures exists at ::
      now <= at <= now' && Values(View(r, end)) == Values(Purge(View(s0, start), end)) + Values(View(s, at))
  {
    hide LifetimeRead, Restored, RecordsFrom, EncodeAll, Fits, View, Coherent;
    var at := DumpRestore(s, now, now', records, s0, start, r, end);
    RebuiltValues(View(r, end), View(s0, start), start, end, records, View(s, at));
  }

  /** Deadlines: every entry of the scan has the fate its lifetime, read at some later moment
      of the dump, gave it. */
  lemma DumpRestoreKeepsDeadlines(s: Tiers, now: Instant, now': Instant, records: seq<Record>,
                                  s0: Tiers, start: Instant, r: Tiers, end: Instant)
    requires Coherent(s, now) && Dumped(s, now, now', records) && forall q :: q in records ==> Fits(q)
    requires Coherent(s0, start) && Restored(s0, start, RecordsFrom(EncodeAll(records), 0), r, end)
    ensures exists at :: && now <= at <= now'
                         && forall key :: key in View(s, at) ==> FateFrom(s, at, now', key, View(r, end), start, end)
  {
    hide LifetimeRead, Restored, RecordsFrom, EncodeAll, Fits, View, Coherent, Fate, Holds, Dumped;
    var at := DumpRestore(s, now, now', records, s0, start, r, end);
    CoherentLater(s, now, at);
    forall key | key in View(s, at)
      ensures FateFrom(s, at, now', key, View(r, end), start, end)
    {
      var q :| q in records && q.key == key;
      OneFate(s, at, now', q, View(r, end), start, end);
    }
  }

  ghost predicate FateFrom(s: Tiers, at: Instant, upto: Instant, key: Bytes, m: Flat, start: Instant, end: Instant)
    requires key in View(s, at)
  {
    exists t :: at <= t <= upto && Fate(s, View(s, at)[key], t, key, m, start, end)
  }

  lemma OneFate(s: Tiers, at: Instant, upto: Instant, r: Record, m: Flat, start: Instant, end: Instant)
    requires Coherent(s, at) && r.key in View(s, at)
    requires LifetimeRead(s.transient, at, upto, r) && Holds(m, start, end, r)
    ensures FateFrom(s, at, upto, r.key, m, start, end)
  {
    hide Coherent, View, Remaining, Purge, Fate, Holds;
    var t :| at <= t <= upto && r.ttl == Millis(Remaining(Purge(s.transient, t), r.key, t));
    FateOf(s, at, t, r, m, start, end);
  }

  lemma CoherentLater(s: Tiers, now: Instant, at: Instant)
    requires Coherent(s, now) && now <= at
    ensures Coherent(s, at)
  {
  }

  lemma ListedKeysDistinct(records: seq<Record>, m: Rows)
    requires Lists(PairsOf(records), m)
    ensures DistinctKeys(records)
  {
    hide Leq;
    var pairs := PairsOf(records);
    forall i, j | 0 <= i < j < |records|
      ensures records[i].key != records[j].key
    {
      assert Less(pairs[i].0, pairs[j].0);
    }
  }

  lemma ListedValues(records: seq<Record>, m: Rows)
    requires Lists(PairsOf(records), m)
    ensures KeysOfRecords(records) == m.Keys
    ensures forall r :: r in records ==> r.key in m && r.value == m[r.key]
  {
    hide Leq, Less;
    var pairs := PairsOf(records);
    forall r | r in records
      ensures r.key in m && r.value == m[r.key]
    {
      var i :| 0 <= i < |records| && records[i] == r;
      assert pairs[i] in pairs;
    }
    forall k | k in m
      ensures k in KeysOfRecords(records)
    {
      assert (k, m[k]) in pairs;
      var i :| 0 <= i < |pairs| && pairs[i] == (k, m[k]);
      assert records[i] in records;
    }
  }

  lemma ViewValues(s: Tiers, now: Instant, at: Instant)
    requires Coherent(s, now) && now <= at
    ensures Values(View(s, at)) == s.rows + Values(Purge(s.transient, at))
  {
  }

  lemma RebuiltValues(m: Flat, base: Flat, start: Instant, now: Instant, records: seq<Record>, dumped: Flat)
    requires Rebuilt(m, base, start, now, records) && KeysOfRecords(records) == dumped.Keys
    requires forall q :: q in records ==> q.value == dumped[q.key].value
    requires forall q :: q in records ==> q.ttl > 0 ==> now < start + q.ttl * MILLISECOND
    ensures Values(m) == Values(Purge(base, now)) + Values(dumped)
  {
    hide Purge;
    forall k
      ensures if k in dumped then k in m && m[k].value == dumped[k].value else SameAt(m, Purge(base, now), k)
    {
      if k in dumped {
        var q :| q in records && q.key == k;
        assert Holds(m, start, now, q);
      }
    }
  }
}
