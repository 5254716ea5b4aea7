/** Diff import: bring a bus that agrees with one archive to the content of another, walking
    both archives as unordered hash maps. */
module DiffImport {
  import opened ByteStrings
  import opened FlatStore
  import opened PersistentTier
  import opened TransientStore
  import opened TwoTiers
  import opened Permutive
  import opened ArchivePaths

  /** A read archive: path to content. */
  type Archive = map<Bytes, Bytes>

  const META_VERSION: Bytes := Ascii("_meta/version")

  predicate IsTtl(path: Bytes) {
    IsUnder(path, TTL, SLASH)
  }

  /** The key a lifetime entry is about. */
  function TtlTarget(path: Bytes): Bytes
    requires IsTtl(path)
  {
    FirstSlashToColon(Rest(path, TTL))
  }

  /** The import writes this entry: it is new or its content changed. */
  predicate Changed(old_: Archive, new_: Archive, path: Bytes) {
    path in new_ && path != META_VERSION && (path in old_ ==> old_[path] != new_[path])
  }

  /** The import deletes this entry. */
  predicate Gone(old_: Archive, new_: Archive, path: Bytes) {
    path in old_ && path != META_VERSION && path !in new_
  }

  // ----- what the import should leave -----

  /** `wanted` is `base` brought from one archive to the other, for every key that only one path
      names: changed entries hold their new content, vanished ones are absent, everything else
      is as it was. */
  ghost predicate Synced(wanted: Rows, base: Rows, old_: Archive, new_: Archive) {
    forall k :: SingleKey(old_, new_, k) ==> SyncedKey(wanted, base, old_, new_, k)
  }

  ghost predicate SyncedKey(wanted: Rows, base: Rows, old_: Archive, new_: Archive, k: Bytes) {
    && (forall p :: Changed(old_, new_, p) && !IsTtl(p) && PathToKey(p) == k ==> k in wanted && wanted[k] == new_[p])
    && (forall p :: Gone(old_, new_, p) && PathToKey(p) == k ==> k !in wanted)
    && (Untouched(old_, new_, k) ==> SameValue(wanted, base, k))
  }

  predicate SameValue(a: Rows, b: Rows, k: Bytes) {
    if k in a then k in b && a[k] == b[k] else k !in b
  }

  ghost predicate Untouched(old_: Archive, new_: Archive, key: Bytes) {
    && (forall p :: Changed(old_, new_, p) && !IsTtl(p) ==> PathToKey(p) != key)
    && (forall p :: Gone(old_, new_, p) ==> PathToKey(p) != key)
  }

  predicate IsEntry(old_: Archive, new_: Archive, path: Bytes) {
    (path in old_ || path in new_) && path != META_VERSION
  }

  /** At most one path names the key. */
  ghost predicate SingleKey(old_: Archive, new_: Archive, key: Bytes) {
    forall p, q :: IsEntryOf(old_, new_, p, key) && IsEntryOf(old_, new_, q, key) ==> p == q
  }

  predicate IsEntryOf(old_: Archive, new_: Archive, path: Bytes, key: Bytes) {
    IsEntry(old_, new_, path) && PathToKey(path) == key
  }

  /** A key that may vanish by itself: it had a deadline before, or the import sets one. */
  ghost predicate Perishable(start: Flat, old_: Archive, new_: Archive, key: Bytes) {
    || (key in start && start[key].deadline.Some?)
    || exists p :: Changed(old_, new_, p) && IsTtl(p) && TtlTarget(p) == key
  }

  /** The map holds the wanted values, except that perishable keys may have expired. */
  ghost predicate HoldsValues(m: Flat, wanted: Rows, start: Flat, old_: Archive, new_: Archive) {
    && (forall k :: k in m ==> k in wanted && m[k].value == wanted[k])
    && (forall k :: k in wanted && k !in m ==> Perishable(start, old_, new_, k))
    && (forall k :: k in m && m[k].deadline.Some? ==> Perishable(start, old_, new_, k))
  }

  // ----- one entry at a time -----

  lemma HoldsAfterWrite(m: Flat, wanted: Rows, start: Flat, old_: Archive, new_: Archive, at: Instant, key: Bytes,
                        value: Bytes)
    requires HoldsValues(m, wanted, start, old_, new_)
    ensures HoldsValues(Purge(Put(Purge(m, at), key, value), at), wanted[key := value], start, old_, new_)
  {
    hide Perishable;
  }

  lemma HoldsAfterDelete(m: Flat, wanted: Rows, start: Flat, old_: Archive, new_: Archive, at: Instant, key: Bytes)
    requires HoldsValues(m, wanted, start, old_, new_)
    ensures HoldsValues(Purge(Remove(Purge(m, at), key), at), wanted - {key}, start, old_, new_)
  {
    hide Perishable;
  }

  lemma HoldsAfterTtl(m: Flat, wanted: Rows, start: Flat, old_: Archive, new_: Archive, at: Instant, key: Bytes,
                      d: Duration)
    requires HoldsValues(m, wanted, start, old_, new_) && Perishable(start, old_, new_, key)
    ensures HoldsValues(Purge(Expire(Purge(m, at), key, at + d), at), wanted, start, old_, new_)
  {
    hide Perishable;
  }

  // ----- the import -----

  /** `wanted` once the entries `written` have been written and then `deleted` deleted. */
  ghost predicate SyncedSoFar(wanted: Rows, base: Rows, old_: Archive, new_: Archive, written: set<Bytes>,
                              deleted: set<Bytes>) {
    && written <= new_.Keys
    && (forall p :: p in written + deleted ==> IsEntry(old_, new_, p))
    && forall k :: SingleKey(old_, new_, k) ==> SoFarAt(wanted, base, new_, written, deleted, k)
  }

  ghost predicate SoFarAt(wanted: Rows, base: Rows, new_: Archive, written: set<Bytes>, deleted: set<Bytes>, k: Bytes)
    requires written <= new_.Keys
  {
    && (forall p :: p in written && PathToKey(p) == k ==> k in wanted && wanted[k] == new_[p])
    && (forall p :: p in deleted && PathToKey(p) == k ==> k !in wanted)
    && ((forall p :: p in written + deleted ==> PathToKey(p) != k) ==> SameValue(wanted, base, k))
  }

  lemma WriteSyncs(wanted: Rows, base: Rows, old_: Archive, new_: Archive, written: set<Bytes>, path: Bytes)
    requires SyncedSoFar(wanted, base, old_, new_, written, {})
    requires path in new_ && path != META_VERSION && path !in written
    ensures SyncedSoFar(wanted[PathToKey(path) := new_[path]], base, old_, new_, written + {path}, {})
  {
    hide PathToKey, META_VERSION, SingleKey;
    var key := PathToKey(path);
    var wanted' := wanted[key := new_[path]];
    forall k | SingleKey(old_, new_, k)
      ensures SoFarAt(wanted', base, new_, written + {path}, {}, k)
    {
      assert SoFarAt(wanted, base, new_, written, {}, k);
      if k == key { OnlyPath(old_, new_, path, written, k); }
      assert forall p :: p in written ==> p in written + {path} + {};
      assert path in written + {path} + {};
    }
  }

  lemma OnlyPath(old_: Archive, new_: Archive, path: Bytes, paths: set<Bytes>, k: Bytes)
    requires SingleKey(old_, new_, k) && IsEntryOf(old_, new_, path, k) && path !in paths
    requires forall p :: p in paths ==> IsEntry(old_, new_, p)
    ensures forall p :: p in paths ==> PathToKey(p) != k
  {
    hide PathToKey, IsEntry;
    assert forall p :: p in paths && PathToKey(p) == k ==> IsEntryOf(old_, new_, p, k);
  }

  lemma DeleteSyncs(wanted: Rows, base: Rows, old_: Archive, new_: Archive, written: set<Bytes>, deleted: set<Bytes>,
                    path: Bytes)
    requires SyncedSoFar(wanted, base, old_, new_, written, deleted)
    requires IsEntry(old_, new_, path) && path !in written
    ensures SyncedSoFar(wanted - {PathToKey(path)}, base, old_, new_, written, deleted + {path})
  {
    hide PathToKey, META_VERSION, SingleKey;
    var key := PathToKey(path);
    forall k | SingleKey(old_, new_, k)
      ensures SoFarAt(wanted - {key}, base, new_, written, deleted + {path}, k)
    {
      assert SoFarAt(wanted, base, new_, written, deleted, k);
      if k == key { OnlyPath(old_, new_, path, written, k); }
      assert forall p :: p in written + deleted ==> p in written + (deleted + {path});
      assert path in written + (deleted + {path});
    }
  }

  // ----- the import -----

  function WantedAfterWrite(wanted: Rows, path: Bytes, value: Bytes): Rows {
    if IsTtl(path) then wanted else wanted[PathToKey(path) := value]
  }

  // ----- deadlines that are set once -----

  /** An import: what the bus showed when it began and when that was, the two archives, and how
      the text of a lifetime is read. */
  datatype Plan = Plan(start: Flat, from: Instant, old_: Archive, new_: Archive, ttlOf: Bytes -> Option<nat>)

  /** The milliseconds that a lifetime entry says; None if its text is no lifetime. */
  function SaidLifetime(plan: Plan, path: Bytes): Option<nat>
    requires path in plan.new_
  {
    match plan.ttlOf(plan.new_[path])
    case None => None
    case Some(ms) => if ms > 0 then Some(ms) else None
  }

  /** A changed lifetime entry whose key's data entry is unchanged, and the only one for its key:
      whatever the order, nothing else touches the key. */
  ghost predicate SetsAlone(plan: Plan, path: Bytes) {
    && Changed(plan.old_, plan.new_, path) && IsTtl(path) && SaidLifetime(plan, path).Some?
    && Untouched(plan.old_, plan.new_, TtlTarget(path))
    && forall q :: Changed(plan.old_, plan.new_, q) && IsTtl(q) && TtlTarget(q) == TtlTarget(path) ==> q == path
  }

  /** The key has its value and, once its lifetime entry is applied, a deadline that counts the
      lifetime from a moment of the import; if it is not there, a deadline has passed. */
  ghost predicate Retimed(m: Flat, start: Flat, from: Instant, now: Instant, key: Bytes, lifetime: Duration,
                          applied: bool)
  {
    if key !in start then key !in m
    else if !applied then SameAt(m, Purge(start, now), key)
    else if key in m then
      && m[key].value == start[key].value && m[key].deadline.Some?
      && from + lifetime <= m[key].deadline.value <= now + lifetime
    else (start[key].deadline.Some? && start[key].deadline.value <= now) || from + lifetime <= now
  }

  ghost predicate Retimes(m: Flat, now: Instant, plan: Plan, pending: set<Bytes>) {
    forall q :: SetsAlone(plan, q) ==>
      Retimed(m, plan.start, plan.from, now, TtlTarget(q), SaidLifetime(plan, q).value * 1_000_000, q !in pending)
  }

  lemma RetimedByOther(m: Flat, start: Flat, from: Instant, now: Instant, key: Bytes, lifetime: Duration, applied: bool,
                       at: Instant, op: Op)
    requires Retimed(m, start, from, now, key, lifetime, applied) && from <= now <= at
    requires (op.WriteValue? || op.WriteTtl? || op.DeleteValue?) && op.key != key
    ensures Retimed(Purge(Effect(Purge(m, at), at, op), at), start, from, at, key, lifetime, applied)
  {
  }

  lemma RetimedNow(m: Flat, start: Flat, from: Instant, now: Instant, key: Bytes, lifetime: Duration, applied: bool,
                   at: Instant)
    requires Retimed(m, start, from, now, key, lifetime, applied) && from <= now <= at
    ensures Retimed(Purge(Effect(Purge(m, at), at, WriteTtl(key, lifetime)), at), start, from, at, key, lifetime, true)
  {
  }

  // ----- one step of the import -----

  /** The bus call an entry of the new archive asks for. */
  function DiffOp(path: Bytes, value: Bytes, ttlOf: Bytes -> Option<nat>): Option<Op> {
    if IsTtl(path) then
      match ttlOf(value)
      case None => None
      case Some(ms) => if ms > 0 then Some(WriteTtl(TtlTarget(path), ms * 1_000_000)) else None
    else Some(WriteValue(PathToKey(path), value))
  }

  /** The lifetime that an entry is said to have is the one it sets. */
  lemma SaidIsSet(plan: Plan, path: Bytes, ms: nat)
    requires path in plan.new_ && IsTtl(path)
    ensures SaidLifetime(plan, path) == Some(ms)
            <==> DiffOp(path, plan.new_[path], plan.ttlOf) == Some(WriteTtl(TtlTarget(path), ms * 1_000_000))
  {
  }

  ghost predicate Stepped(s: Tiers, now: Instant, op: Option<Op>, s': Tiers, now': Instant) {
    match op
    case None => s' == s && now' == now
    case Some(op) => Performs(s, now, op, s', now', Done)
  }

  /** The bus is coherent and holds the wanted values, with the deadlines set so far. */
  ghost predicate Holding(s: Tiers, now: Instant, wanted: Rows, plan: Plan, pending: set<Bytes>) {
    && plan.from <= now && Coherent(s, now)
    && HoldsValues(View(s, now), wanted, plan.start, plan.old_, plan.new_)
    && Retimes(View(s, now), now, plan, pending)
  }

  lemma StepView(s: Tiers, now: Instant, op: Op, s': Tiers, now': Instant)
    requires Coherent(s, now) && Performs(s, now, op, s', now', Done) && !op.ReadTtlRemaining?
    ensures now <= now' && Coherent(s', now')
    ensures View(s', now') == Purge(Effect(Purge(View(s, now), now'), now', op), now')
  {
    hide Performs, View, Coherent, Purge, Effect;
    PerformsRefines(s, now, op, s', now', Done);
    ViewLater(s, now, now');
  }

  /** An entry of the new archive has been applied. */
  lemma EntryHolds(s: Tiers, now: Instant, wanted: Rows, plan: Plan, pending: set<Bytes>, path: Bytes, s': Tiers,
                   now': Instant)
    requires Holding(s, now, wanted, plan, pending) && Changed(plan.old_, plan.new_, path) && path in pending
    requires Stepped(s, now, DiffOp(path, plan.new_[path], plan.ttlOf), s', now')
    ensures Holding(s', now', WantedAfterWrite(wanted, path, plan.new_[path]), plan, pending - {path})
  {
    hide Performs, View, Coherent, Purge, Effect, HoldsValues, Retimes, IsTtl, TtlTarget, PathToKey, META_VERSION;
    var op := DiffOp(path, plan.new_[path], plan.ttlOf);
    if op.Some? {
      StepView(s, now, op.value, s', now');
      EntryValues(View(s, now), wanted, plan, path, now');
      EntryRetimes(View(s, now), now, plan, pending, path, now');
    } else {
      NoLifetime(View(s, now), now, plan, pending, path);
    }
  }

  lemma EntryValues(m: Flat, wanted: Rows, plan: Plan, path: Bytes, at: Instant)
    requires HoldsValues(m, wanted, plan.start, plan.old_, plan.new_) && Changed(plan.old_, plan.new_, path)
    requires DiffOp(path, plan.new_[path], plan.ttlOf).Some?
    ensures var op := DiffOp(path, plan.new_[path], plan.ttlOf).value;
            HoldsValues(Purge(Effect(Purge(m, at), at, op), at), WantedAfterWrite(wanted, path, plan.new_[path]),
                        plan.start, plan.old_, plan.new_)
  {
    hide Purge, Put, Expire, HoldsValues, IsTtl, TtlTarget, PathToKey, META_VERSION;
    if IsTtl(path) {
      HoldsAfterTtl(m, wanted, plan.start, plan.old_, plan.new_, at, TtlTarget(path),
                    plan.ttlOf(plan.new_[path]).value * 1_000_000);
    } else {
      HoldsAfterWrite(m, wanted, plan.start, plan.old_, plan.new_, at, PathToKey(path), plan.new_[path]);
    }
  }

  lemma EntryRetimes(m: Flat, now: Instant, plan: Plan, pending: set<Bytes>, path: Bytes, at: Instant)
    requires Retimes(m, now, plan, pending) && Changed(plan.old_, plan.new_, path) && path in pending
    requires plan.from <= now <= at && DiffOp(path, plan.new_[path], plan.ttlOf).Some?
    ensures var op := DiffOp(path, plan.new_[path], plan.ttlOf).value;
            Retimes(Purge(Effect(Purge(m, at), at, op), at), at, plan, pending - {path})
  {
    hide Purge, Effect, Retimed, IsTtl, TtlTarget, PathToKey, META_VERSION, Gone;
    var op := DiffOp(path, plan.new_[path], plan.ttlOf).value;
    forall q | SetsAlone(plan, q)
      ensures Retimed(Purge(Effect(Purge(m, at), at, op), at), plan.start, plan.from, at, TtlTarget(q),
                      SaidLifetime(plan, q).value * 1_000_000, q !in pending - {path})
    {
      var lifetime := SaidLifetime(plan, q).value * 1_000_000;
      if q == path {
        RetimedNow(m, plan.start, plan.from, now, TtlTarget(q), lifetime, q !in pending, at);
      } else {
        RetimedByOther(m, plan.start, plan.from, now, TtlTarget(q), lifetime, q !in pending, at, op);
      }
    }
  }

  /** An entry that says no lifetime, or is not written at all, sets no deadline. */
  lemma NoLifetime(m: Flat, now: Instant, plan: Plan, pending: set<Bytes>, path: Bytes)
    requires Retimes(m, now, plan, pending)
    requires Changed(plan.old_, plan.new_, path) ==> DiffOp(path, plan.new_[path], plan.ttlOf).None?
    ensures Retimes(m, now, plan, pending - {path})
  {
    hide Retimed, IsTtl, TtlTarget, PathToKey, Changed;
    assert !SetsAlone(plan, path);
  }

  /** A vanished entry has been deleted. */
  lemma DeletionHolds(s: Tiers, now: Instant, wanted: Rows, plan: Plan, pending: set<Bytes>, path: Bytes, s': Tiers,
                      now': Instant)
    requires Holding(s, now, wanted, plan, pending) && Gone(plan.old_, plan.new_, path)
    requires Performs(s, now, DeleteValue(PathToKey(path)), s', now', Done)
    ensures Holding(s', now', wanted - {PathToKey(path)}, plan, pending)
  {
    hide Performs, View, Coherent, Purge, HoldsValues, Remove, IsTtl, TtlTarget, PathToKey, META_VERSION, Retimed;
    var m, op := View(s, now), DeleteValue(PathToKey(path));
    StepView(s, now, op, s', now');
    HoldsAfterDelete(m, wanted, plan.start, plan.old_, plan.new_, now', PathToKey(path));
    forall q | SetsAlone(plan, q)
      ensures Retimed(View(s', now'), plan.start, plan.from, now', TtlTarget(q),
                      SaidLifetime(plan, q).value * 1_000_000, q !in pending)
    {
      var lifetime := SaidLifetime(plan, q).value * 1_000_000;
      RetimedByOther(m, plan.start, plan.from, now, TtlTarget(q), lifetime, q !in pending, now', op);
    }
  }

  /** No entry belongs to a database file that start-up missed. */
  ghost predicate NoneMissed(new_: Archive, shelved: Files) {
    forall p :: p in new_ ==> Namespace(PathToKey(p)) !in shelved
  }

  /** What the import relies on for its values (its counts need none of it): tiers that
      agree and no database file that start-up missed. */
  ghost predicate Sound(s: Tiers, now: Instant, shelved: Files, new_: Archive) {
    Coherent(s, now) && NoneMissed(new_, shelved)
  }

  lemma TargetOfLifetime(path: Bytes)
    requires IsTtl(path)
    ensures |path| > |TTL| && TtlTarget(path) == FirstSlashToColon(Rest(path, TTL))
  {
  }

  /** Write one entry: a value, or a lifetime for the key it names, if its text says one. */
  method WriteDiffEntry(bus: PermutiveBus, path: Bytes, value: Bytes, ttlOf: Bytes -> Option<nat>)
    requires bus.Valid()
    modifies bus.transient.store, bus.persistent, bus.clock
    ensures bus.Valid() && bus.persistent.shelved.Keys <= old(bus.persistent.shelved.Keys)
    ensures Namespace(PathToKey(path)) !in old(bus.persistent.shelved) ==>
              Stepped(old(bus.State()), old(bus.clock.now), DiffOp(path, value, ttlOf), bus.State(), bus.clock.now)
  {
    hide Performs, Namespace, PathToKey, Agree, Flatten, Table, Sharded, Reloadable, FirstSlashToColon, IsUnder;
    if IsTtl(path) {
      TargetOfLifetime(path);
      var ttl := ttlOf(value);
      if ttl.Some? && ttl.value > 0 {
        bus.WriteTtl(FirstSlashToColon(Rest(path, TTL)), ttl.value * MILLISECOND);
      }
    } else {
      bus.WriteValue(PathToKey(path), value);
    }
  }

  function Additions(old_: Archive, new_: Archive): set<Bytes> {
    set p | p in new_ && p != META_VERSION && p !in old_
  }

  function Modifications(old_: Archive, new_: Archive): set<Bytes> {
    set p | p in new_ && p != META_VERSION && p in old_ && old_[p] != new_[p]
  }

  function Deletions(old_: Archive, new_: Archive): set<Bytes> {
    set p | p in old_ && p != META_VERSION && p !in new_
  }

  /** The entries whose value the import writes. */
  function Written(old_: Archive, new_: Archive): set<Bytes> {
    set p | p in new_ && Changed(old_, new_, p) && !IsTtl(p)
  }

  datatype DiffResult = DiffResult(additions: nat, modifications: nat, deletions: nat)

  /** Part way through the new archive: every entry but the `pending` ones is in place. */
  ghost predicate Applying(s: Tiers, now: Instant, shelved: Files, plan: Plan, wanted: Rows, pending: set<Bytes>) {
    && NoneMissed(plan.new_, shelved)
    && SyncedSoFar(wanted, Values(plan.start), plan.old_, plan.new_, Written(plan.old_, plan.new_ - pending), {})
    && Holding(s, now, wanted, plan, pending)
  }

  /** The counters are right for every entry but the `pending` ones. */
  ghost predicate Tally(additions: nat, modifications: nat, old_: Archive, new_: Archive, pending: set<Bytes>) {
    additions == |Additions(old_, new_ - pending)| && modifications == |Modifications(old_, new_ - pending)|
  }

  method ApplyEntry(bus: PermutiveBus, path: Bytes, value: Bytes, ttlOf: Bytes -> Option<nat>, ghost plan: Plan,
                    ghost sound: bool, ghost before: Rows, ghost pending: set<Bytes>)
    returns (ghost wanted: Rows)
    requires bus.Valid() && Changed(plan.old_, plan.new_, path) && path in pending && pending <= plan.new_.Keys
    requires value == plan.new_[path] && ttlOf == plan.ttlOf
    requires sound ==> Applying(bus.State(), bus.clock.now, bus.persistent.shelved, plan, before, pending)
    modifies bus.transient.store, bus.persistent, bus.clock
    ensures bus.Valid()
    ensures sound ==> Applying(bus.State(), bus.clock.now, bus.persistent.shelved, plan, wanted, pending - {path})
  {
    hide Namespace, PathToKey, Agree, Flatten, Table, Sharded, Reloadable, SyncedSoFar, IsTtl, Values;
    hide WantedAfterWrite, META_VERSION, Holding, Written, Stepped, DiffOp, Changed;
    ghost var s, now := bus.State(), bus.clock.now;
    WriteDiffEntry(bus, path, value, ttlOf);
    OneMoreWritten(plan.old_, plan.new_, pending, path);
    if sound {
      ChangedIsNew(plan, path);
      EntryHolds(s, now, before, plan, pending, path, bus.State(), bus.clock.now);
      EntrySyncs(before, Values(plan.start), plan.old_, plan.new_, Written(plan.old_, plan.new_ - pending), path);
    }
    wanted := WantedAfterWrite(before, path, value);
  }

  lemma ChangedIsNew(plan: Plan, path: Bytes)
    requires Changed(plan.old_, plan.new_, path)
    ensures path in plan.new_
  {
  }

  method ApplyNew(bus: PermutiveBus, old_: Archive, new_: Archive, ttlOf: Bytes -> Option<nat>, ghost plan: Plan)
    returns (additions: nat, modifications: nat, ghost wanted: Rows)
    requires bus.Valid() && plan == Plan(View(bus.State(), bus.clock.now), bus.clock.now, old_, new_, ttlOf)
    modifies bus.transient.store, bus.persistent, bus.clock
    ensures bus.Valid() && Tally(additions, modifications, old_, new_, {})
    ensures Sound(old(bus.State()), old(bus.clock.now), old(bus.persistent.shelved), new_) ==>
              Applying(bus.State(), bus.clock.now, bus.persistent.shelved, plan, wanted, {})
  {
    hide View, Agree, Flatten, Table, Sharded, Reloadable, META_VERSION, Applying, Tally, Sound, Values;
    ghost var sound := Sound(bus.State(), bus.clock.now, bus.persistent.shelved, new_);
    wanted := Values(plan.start);
    StartHolds(bus.State(), bus.clock.now, bus.persistent.shelved, plan);
    additions, modifications := 0, 0;
    var pending := new_.Keys;
    while pending != {}
      invariant pending <= new_.Keys && bus.Valid() && Tally(additions, modifications, old_, new_, pending)
      invariant sound ==> Applying(bus.State(), bus.clock.now, bus.persistent.shelved, plan, wanted, pending)
      decreases |pending|
    {
      var path :| path in pending;
      TallyNext(additions, modifications, old_, new_, pending, path);
      if path == META_VERSION || (path in old_ && old_[path] == new_[path]) {
        if sound { SkipApplies(bus.State(), bus.clock.now, bus.persistent.shelved, plan, wanted, pending, path); }
      } else {
        wanted := ApplyEntry(bus, path, new_[path], ttlOf, plan, sound, wanted, pending);
        if path in old_ { modifications := modifications + 1; } else { additions := additions + 1; }
      }
      pending := pending - {path};
    }
  }

  lemma TallyNext(additions: nat, modifications: nat, old_: Archive, new_: Archive, pending: set<Bytes>, path: Bytes)
    requires Tally(additions, modifications, old_, new_, pending) && path in pending && pending <= new_.Keys
    ensures Tally(additions + (if path != META_VERSION && path !in old_ then 1 else 0),
                  modifications + (if path != META_VERSION && path in old_ && old_[path] != new_[path] then 1 else 0),
                  old_, new_, pending - {path})
  {
    hide META_VERSION, Additions, Modifications;
    OneMoreAddition(old_, new_, pending, path);
    OneMoreModification(old_, new_, pending, path);
  }

  lemma SkipApplies(s: Tiers, now: Instant, shelved: Files, plan: Plan, wanted: Rows, pending: set<Bytes>, path: Bytes)
    requires Applying(s, now, shelved, plan, wanted, pending) && path in pending && pending <= plan.new_.Keys
    requires !Changed(plan.old_, plan.new_, path)
    ensures Applying(s, now, shelved, plan, wanted, pending - {path})
  {
    hide META_VERSION, SyncedSoFar, Written, PathToKey, Changed, HoldsValues, Retimes, View, Coherent, DiffOp;
    OneMoreWritten(plan.old_, plan.new_, pending, path);
    NoLifetime(View(s, now), now, plan, pending, path);
  }

  lemma EntrySyncs(wanted: Rows, base: Rows, old_: Archive, new_: Archive, written: set<Bytes>, path: Bytes)
    requires SyncedSoFar(wanted, base, old_, new_, written, {}) && Changed(old_, new_, path) && path !in written
    ensures SyncedSoFar(WantedAfterWrite(wanted, path, new_[path]), base, old_, new_,
                        if IsTtl(path) then written else written + {path}, {})
  {
    hide SyncedSoFar, IsTtl, PathToKey;
    if !IsTtl(path) { WriteSyncs(wanted, base, old_, new_, written, path); }
  }

  lemma StartHolds(s: Tiers, now: Instant, shelved: Files, plan: Plan)
    requires plan.start == View(s, now) && plan.from == now
    ensures Tally(0, 0, plan.old_, plan.new_, plan.new_.Keys)
    ensures Sound(s, now, shelved, plan.new_) ==>
              Applying(s, now, shelved, plan, Values(plan.start), plan.new_.Keys)
  {
    hide PathToKey, View, Coherent, Namespace, SyncedSoFar, HoldsValues, Retimes, Changed;
    NothingSynced(View(s, now), plan.old_, plan.new_);
    NothingRetimed(s, now, plan);
    assert Written(plan.old_, plan.new_ - plan.new_.Keys) == {};
    var none := plan.new_ - plan.new_.Keys;
    assert Additions(plan.old_, none) == {} && Modifications(plan.old_, none) == {};
  }

  lemma NothingRetimed(s: Tiers, now: Instant, plan: Plan)
    requires plan.start == View(s, now) && plan.from == now
    ensures Retimes(View(s, now), now, plan, plan.new_.Keys)
  {
    hide PathToKey, TtlTarget, IsTtl, View;
    ViewLater(s, now, now);
    forall q | SetsAlone(plan, q)
      ensures Retimed(View(s, now), plan.start, plan.from, now, TtlTarget(q),
                      SaidLifetime(plan, q).value * 1_000_000, q !in plan.new_.Keys)
    {
      assert q in plan.new_;
    }
  }

  lemma NothingSynced(m: Flat, old_: Archive, new_: Archive)
    ensures SyncedSoFar(Values(m), Values(m), old_, new_, {}, {}) && HoldsValues(m, Values(m), m, old_, new_)
  {
    hide PathToKey, Changed;
  }

  lemma OneMoreAddition(old_: Archive, new_: Archive, pending: set<Bytes>, path: Bytes)
    requires path in pending && pending <= new_.Keys
    ensures var before, after := Additions(old_, new_ - pending), Additions(old_, new_ - (pending - {path}));
            path !in before && after == before + (if path != META_VERSION && path !in old_ then {path} else {})
  {
    hide META_VERSION;
  }

  lemma OneMoreModification(old_: Archive, new_: Archive, pending: set<Bytes>, path: Bytes)
    requires path in pending && pending <= new_.Keys
    ensures var before, after := Modifications(old_, new_ - pending), Modifications(old_, new_ - (pending - {path}));
            path !in before
            && after == before
                        + (if path != META_VERSION && path in old_ && old_[path] != new_[path] then {path} else {})
  {
    hide META_VERSION;
  }

  lemma OneMoreWritten(old_: Archive, new_: Archive, pending: set<Bytes>, path: Bytes)
    requires path in pending && pending <= new_.Keys
    ensures var before, after := Written(old_, new_ - pending), Written(old_, new_ - (pending - {path}));
            path !in before
            && after == (if Changed(old_, new_, path) && !IsTtl(path) then before + {path} else before)
            && forall p :: p in before ==> p in new_ && IsEntry(old_, new_, p)
  {
    hide META_VERSION, IsTtl;
  }

  /** Delete a vanished entry's key. */
  method DeleteDiffEntry(bus: PermutiveBus, path: Bytes, ghost plan: Plan, ghost sound: bool, ghost before: Rows,
                         ghost deleted: set<Bytes>)
    returns (ghost wanted: Rows)
    requires bus.Valid() && Gone(plan.old_, plan.new_, path)
    requires sound ==> Deleting(bus.State(), bus.clock.now, plan, before, deleted)
    modifies bus.transient.store, bus.persistent`databases, bus.clock
    ensures bus.Valid()
    ensures sound ==> Deleting(bus.State(), bus.clock.now, plan, wanted, deleted + {path})
  {
    hide PathToKey, Holding, Agree, Flatten, Table, Sharded, Reloadable, SyncedSoFar, Performs, Values, Written;
    ghost var s, now := bus.State(), bus.clock.now;
    bus.DeleteValue(PathToKey(path));
    if sound {
      GoneIsNotWritten(plan, path);
      DeleteSyncs(before, Values(plan.start), plan.old_, plan.new_, Written(plan.old_, plan.new_), deleted, path);
      DeletionHolds(s, now, before, plan, {}, path, bus.State(), bus.clock.now);
    }
    wanted := before - {PathToKey(path)};
  }

  lemma GoneIsNotWritten(plan: Plan, path: Bytes)
    requires Gone(plan.old_, plan.new_, path)
    ensures IsEntry(plan.old_, plan.new_, path) && path !in Written(plan.old_, plan.new_)
  {
    hide IsTtl, META_VERSION;
  }

  /** Part way through the old archive: the new one is in place, and these entries are gone. */
  ghost predicate Deleting(s: Tiers, now: Instant, plan: Plan, wanted: Rows, deleted: set<Bytes>) {
    && SyncedSoFar(wanted, Values(plan.start), plan.old_, plan.new_, Written(plan.old_, plan.new_), deleted)
    && Holding(s, now, wanted, plan, {})
  }

  method DeleteOld(bus: PermutiveBus, old_: Archive, new_: Archive, ghost plan: Plan, ghost sound: bool,
                   ghost before: Rows)
    returns (deletions: nat, ghost wanted: Rows)
    requires bus.Valid() && plan.old_ == old_ && plan.new_ == new_
    requires sound ==> Deleting(bus.State(), bus.clock.now, plan, before, {})
    modifies bus.transient.store, bus.persistent`databases, bus.clock
    ensures bus.Valid() && deletions == |Deletions(old_, new_)|
    ensures sound ==> Deleting(bus.State(), bus.clock.now, plan, wanted, Deletions(old_, new_))
  {
    hide Deleting, Agree, Flatten, Table, Sharded, Reloadable, META_VERSION;
    wanted := before;
    deletions := 0;
    var pending := old_.Keys;
    NothingDeleted(old_, new_);
    while pending != {}
      invariant pending <= old_.Keys && bus.Valid()
      invariant deletions == |Deletions(old_ - pending, new_)|
      invariant sound ==> Deleting(bus.State(), bus.clock.now, plan, wanted, Deletions(old_ - pending, new_))
      decreases |pending|
    {
      var path :| path in pending;
      OneMoreDeleted(old_, new_, pending, path);
      ghost var deleted := Deletions(old_ - pending, new_);
      pending := pending - {path};
      if path != META_VERSION && path !in new_ {
        wanted := DeleteDiffEntry(bus, path, plan, sound, wanted, deleted);
        deletions := deletions + 1;
      } else {
        assert deleted + {} == deleted;
      }
    }
    assert old_ - pending == old_;
  }

  lemma NothingDeleted(old_: Archive, new_: Archive)
    ensures Deletions(old_ - old_.Keys, new_) == {}
  {
  }

  lemma OneMoreDeleted(old_: Archive, new_: Archive, pending: set<Bytes>, path: Bytes)
    requires path in pending && pending <= old_.Keys
    ensures var before, after := Deletions(old_ - pending, new_), Deletions(old_ - (pending - {path}), new_);
            after == before + (if path != META_VERSION && path !in new_ then {path} else {})
            && |after| == |before| + (if path != META_VERSION && path !in new_ then 1 else 0)
  {
    var before, after := Deletions(old_ - pending, new_), Deletions(old_ - (pending - {path}), new_);
    assert after == before + if path != META_VERSION && path !in new_ then {path} else {};
  }

  /** The whole import, in whatever order the hash maps are walked: the counts are the sizes
      of the differences, and the bus ends with the wanted values, save what has expired, and
      with the deadlines of keys whose data did not change. */
  method ParseDiffImport(bus: PermutiveBus, old_: Archive, new_: Archive, ttlOf: Bytes -> Option<nat>)
    returns (result: DiffResult)
    requires bus.Valid()
    modifies bus.transient.store, bus.persistent, bus.clock
    ensures bus.Valid()
    ensures result == DiffResult(|Additions(old_, new_)|, |Modifications(old_, new_)|, |Deletions(old_, new_)|)
    ensures var plan := Plan(View(old(bus.State()), old(bus.clock.now)), old(bus.clock.now), old_, new_, ttlOf);
            Sound(old(bus.State()), old(bus.clock.now), old(bus.persistent.shelved), new_) ==>
              exists wanted :: && Synced(wanted, Values(plan.start), old_, new_)
                               && Holding(bus.State(), bus.clock.now, wanted, plan, {})
  {
    hide PathToKey, Agree, Flatten, Table, Sharded, Reloadable, SyncedSoFar, Synced, Namespace, IsTtl, Holding, View;
    hide Values;
    ghost var plan := Plan(View(bus.State(), bus.clock.now), bus.clock.now, old_, new_, ttlOf);
    ghost var sound := Sound(bus.State(), bus.clock.now, bus.persistent.shelved, new_);
    var additions, modifications;
    ghost var before;
    additions, modifications, before := ApplyNew(bus, old_, new_, ttlOf, plan);
    assert new_ - {} == new_;
    var deletions;
    ghost var wanted;
    deletions, wanted := DeleteOld(bus, old_, new_, plan, sound, before);
    if sound { SoFarIsSynced(wanted, Values(plan.start), old_, new_); }
    result := DiffResult(additions, modifications, deletions);
  }

  lemma SoFarIsSynced(wanted: Rows, base: Rows, old_: Archive, new_: Archive)
    requires SyncedSoFar(wanted, base, old_, new_, Written(old_, new_), Deletions(old_, new_))
    ensures Synced(wanted, base, old_, new_)
  {
    hide PathToKey, IsTtl, META_VERSION, Written, Deletions, Changed, Gone, SingleKey;
    DifferenceMembers(old_, new_);
    forall k | SingleKey(old_, new_, k)
      ensures SyncedKey(wanted, base, old_, new_, k)
    {
      assert SoFarAt(wanted, base, new_, Written(old_, new_), Deletions(old_, new_), k);
    }
  }

  lemma DifferenceMembers(old_: Archive, new_: Archive)
    ensures forall p :: p in Written(old_, new_) <==> Changed(old_, new_, p) && !IsTtl(p)
    ensures forall p :: p in Deletions(old_, new_) <==> Gone(old_, new_, p)
    ensures forall p :: Changed(old_, new_, p) ==> p in new_
  {
    hide IsTtl, META_VERSION;
  }
}
