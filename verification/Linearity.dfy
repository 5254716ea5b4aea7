/** When the bus is linearizable after all: if no write, delete, compare-and-delete or lifetime
    change of a key overlaps any other operation on it, the operations on the key take effect
    one by one, however its readers overlap each other and other keys race them. */
module Linearity {
  import opened ByteStrings
  import opened FlatStore
  import opened PersistentTier
  import opened TwoTiers
  import opened Interleaving

  // ----- the history of one key -----

  /** A finished operation: its interval, and the instant inside it at which it took effect. */
  datatype Finished = Finished(op: Op, answer: Answer, begun: Instant, at: Instant, ended: Instant)

  /** When each operation under way began, and when the last compare-and-delete looked at
      memory. */
  datatype Watch = Watch(begun: map<Thread, Instant>, matched: Instant)

  function Watched(w: World, l: Label, key: Bytes, c: Watch): Watch {
    match l
    case Begin(t, op) => if At(w, t).Idle? && ConcernsKey(op, key) then c.(begun := c.begun[t := w.now]) else c
    case Call(t) => if At(w, t).Matching? && At(w, t).key == key then c.(matched := w.now) else c
    case Tick(_) => c
  }

  /** A compare-and-delete takes effect when it looks at memory, every other operation with its
      last call. */
  function Finishes(w: World, l: Label, key: Bytes, c: Watch): seq<Finished> {
    if !l.Call? || !PcConcernsKey(At(w, l.thread), key) then []
    else
      match Completes(At(w, l.thread), w.transient, w.rows, w.now)
      case None => []
      case Some((op, answer)) =>
        var begun := if l.thread in c.begun then c.begun[l.thread] else w.now;
        [Finished(op, answer, begun, if op.DeleteValueIfMatch? then c.matched else w.now, w.now)]
  }

  function History(w: World, labels: seq<Label>, key: Bytes, c: Watch): seq<Finished>
    decreases |labels|
  {
    if labels == [] then []
    else Finishes(w, labels[0], key, c) + History(Step(w, labels[0]), labels[1..], key, Watched(w, labels[0], key, c))
  }

  // ----- what it means for it to be linear -----

  /** The flat map's answer. Only the lifetime of a key without a deadline may differ: it is the
      cache's, a minute at most, if the key is cached. */
  predicate Answers(answer: Answer, live: Flat, at: Instant, op: Op) {
    || answer == Reply(live, at, op)
    || (&& op.ReadTtlRemaining? && op.key in live && live[op.key].deadline.None?
        && answer.Left? && answer.remaining.Some? && answer.remaining.value <= 60_000_000_000)
  }

  /** One after the other, each at an instant inside its own interval, the operations answer as
      on one flat map. They are in the order in which they ended, so one that ended before
      another began comes first. */
  ghost predicate Linear(m: Flat, from: Instant, calls: seq<Finished>)
    decreases |calls|
  {
    calls == []
    || (var call := calls[0];
        var live := Purge(m, call.at);
        && from <= call.at && call.begun <= call.at <= call.ended
        && Answers(call.answer, live, call.at, call.op)
        && Linear(Purge(Effect(live, call.at, call.op), call.at), call.at, calls[1..]))
  }

  ghost predicate Unused(w: World, key: Bytes) {
    forall t :: t in w.threads ==> !PcConcernsKey(w.threads[t], key)
  }

  predicate Reads(op: Op) {
    op.ReadValue? || op.ReadTtlRemaining?
  }

  /** Inside an operation that reads. */
  predicate IsReader(pc: Pc) {
    pc.Reading? || pc.ReadingRow? || pc.Copying? || pc.Copied? || pc.Asking?
  }

  ghost predicate OnlyReaders(threads: map<Thread, Pc>, key: Bytes) {
    forall t :: IsUser(threads, t, key) ==> IsReader(threads[t])
  }

  /** An operation that changes `key` begins only while no other on it is under way, one that
      reads it only while none that changes it is; operations on other keys and scans begin
      whenever they like. */
  predicate MayBegin(op: Op, key: Bytes, unused: bool, readers: bool) {
    ConcernsKey(op, key) ==> if Reads(op) then readers else unused
  }

  ghost predicate Exclusive(w: World, labels: seq<Label>, key: Bytes)
    decreases |labels|
  {
    labels == []
    || (var l := labels[0];
        && (l.Begin? && At(w, l.thread).Idle? ==>
              MayBegin(l.op, key, Unused(w, key), OnlyReaders(w.threads, key)))
        && Exclusive(Step(w, l), labels[1..], key))
  }

  // ----- what the tiers hold of one key -----

  /** The logical entry of a key, from the two tiers. */
  function Held(transient: Flat, rows: Rows, now: Instant, key: Bytes): Option<Entry> {
    if key in rows then Some(Entry(rows[key], None))
    else if key in transient && Live(transient[key], now) then Some(transient[key])
    else None
  }

  /** The entry of a key in a flat map. */
  function Due(m: Flat, now: Instant, key: Bytes): Option<Entry> {
    if key in m && Live(m[key], now) then Some(m[key]) else None
  }

  /** A live copy of the row has its value, and a deadline within the cache lifetime if any. */
  predicate CopyAgrees(transient: Flat, rows: Rows, now: Instant, key: Bytes) {
    key in transient && key in rows && Live(transient[key], now) ==>
      && transient[key].value == rows[key]
      && (transient[key].deadline.Some? ==> transient[key].deadline.value <= now + CACHE_PROMOTION)
  }

  /** The tiers hold of the key what the flat map does. */
  predicate InStep(transient: Flat, rows: Rows, now: Instant, m: Flat, key: Bytes) {
    Held(transient, rows, now, key) == Due(m, now, key) && CopyAgrees(transient, rows, now, key)
  }

  predicate RowIs(rows: Rows, key: Bytes, value: Bytes) {
    key in rows && rows[key] == value
  }

  function LessMatch(rows: Rows, key: Bytes, expected: Bytes): Rows {
    if RowIs(rows, key, expected) then rows - {key} else rows
  }

  /** Inside an operation on the key: how the tiers relate to the flat map `m` from before it. */
  predicate Midway(pc: Pc, transient: Flat, rows: Rows, now: Instant, m: Flat, matched: Instant, key: Bytes) {
    match pc
    case Idle => true
    case ReadingRow(_) =>
      InStep(transient, rows, now, m, key) && (key !in rows ==> !(key in transient && Live(transient[key], now)))
    case Copying(_, v) => InStep(transient, rows, now, m, key) && RowIs(rows, key, v)
    case Copied(_, v) => InStep(transient, rows, now, m, key) && RowIs(rows, key, v)
    case Invalidating(_, v) => RowIs(rows, key, v)
    case DeletingRow(_) => key !in transient
    case MatchingRow(_, expected, won) =>
      && matched <= now
      && ((won || RowIs(rows, key, expected)) <==> Find(Purge(m, matched), key) == Some(expected))
      && InStep(transient, LessMatch(rows, key, expected), now, RemoveIfMatch(Purge(m, matched), key, expected), key)
    case Unrowing(_, v, _) => InStep(transient, rows, now, m, key) && RowIs(rows, key, v)
    case Moving(_, v, _) => key !in rows && Due(m, now, key) == Some(Entry(v, None))
    case SettingTtl(_, _, _) => InStep(transient, rows, now, m, key) && key !in rows
    case WritingTimed(_, _, _) => key !in rows
    case _ => InStep(transient, rows, now, m, key)
  }

  // ----- steps of others -----

  lemma ForeignCall(pc: Pc, transient: Flat, rows: Rows, now: Instant, key: Bytes)
    requires !PcConcernsKey(pc, key)
    ensures var transient' := TransientNext(pc, transient, now);
            key in transient' ==> key in transient && transient'[key] == transient[key]
    ensures key in transient && Live(transient[key], now) ==> key in TransientNext(pc, transient, now)
    ensures key in RowsNext(pc, rows) <==> key in rows
    ensures key in rows ==> RowsNext(pc, rows)[key] == rows[key]
    ensures !PcConcernsKey(PcNext(pc, transient, rows, now), key)
  {
    hide WithPrefix, Values;
  }

  lemma ForeignUnseen(pc: Pc, transient: Flat, rows: Rows, now: Instant, m: Flat, matched: Instant, key: Bytes,
                      transient': Flat, rows': Rows)
    requires Midway(pc, transient, rows, now, m, matched, key)
    requires key in transient' ==> key in transient && transient'[key] == transient[key]
    requires key in transient && Live(transient[key], now) ==> key in transient'
    requires key in rows' <==> key in rows
    requires key in rows ==> rows'[key] == rows[key]
    ensures Midway(pc, transient', rows', now, m, matched, key)
  {
    hide Purge, RemoveIfMatch, Find;
  }

  lemma TimePasses(pc: Pc, transient: Flat, rows: Rows, now: Instant, m: Flat, matched: Instant, key: Bytes,
                   later: Instant)
    requires Midway(pc, transient, rows, now, m, matched, key) && now <= later
    ensures Midway(pc, transient, rows, later, m, matched, key)
  {
    hide Purge, RemoveIfMatch, Find;
  }

  // ----- steps of the operation -----

  lemma OwnCall(pc: Pc, transient: Flat, rows: Rows, now: Instant, m: Flat, matched: Instant, key: Bytes)
    requires PcConcernsKey(pc, key) && Midway(pc, transient, rows, now, m, matched, key)
    requires Completes(pc, transient, rows, now).None?
    ensures var pc' := PcNext(pc, transient, rows, now);
            PcConcernsKey(pc', key)
            && Midway(pc', TransientNext(pc, transient, now), RowsNext(pc, rows), now, m,
                      if pc.Matching? then now else matched, key)
  {
  }

  /** The operation ends with the flat map's answer, and leaves the tiers in step with the flat
      map after it. */
  predicate EndsWell(pc: Pc, transient: Flat, rows: Rows, now: Instant, m: Flat, matched: Instant, key: Bytes)
    requires Completes(pc, transient, rows, now).Some?
  {
    var (op, answer) := Completes(pc, transient, rows, now).value;
    var at := if op.DeleteValueIfMatch? then matched else now;
    var live := Purge(m, at);
    && PcNext(pc, transient, rows, now).Idle?
    && ConcernsKey(op, key) && at <= now && (op.DeleteValueIfMatch? <==> pc.MatchingRow?)
    && Answers(answer, live, at, op)
    && InStep(TransientNext(pc, transient, now), RowsNext(pc, rows), now, Purge(Effect(live, at, op), at), key)
  }

  lemma ReaderEnd(pc: Pc, transient: Flat, rows: Rows, now: Instant, m: Flat, matched: Instant, key: Bytes)
    requires IsReader(pc) && PcConcernsKey(pc, key) && Midway(pc, transient, rows, now, m, matched, key)
    requires Completes(pc, transient, rows, now).Some?
    ensures EndsWell(pc, transient, rows, now, m, matched, key)
  {
  }

  lemma MatchEnd(pc: Pc, transient: Flat, rows: Rows, now: Instant, m: Flat, matched: Instant, key: Bytes)
    requires pc.MatchingRow? && PcConcernsKey(pc, key) && Midway(pc, transient, rows, now, m, matched, key)
    ensures Completes(pc, transient, rows, now).Some? && EndsWell(pc, transient, rows, now, m, matched, key)
  {
  }

  lemma ChangerEnd(pc: Pc, transient: Flat, rows: Rows, now: Instant, m: Flat, matched: Instant, key: Bytes)
    requires !IsReader(pc) && !pc.MatchingRow?
    requires PcConcernsKey(pc, key) && Midway(pc, transient, rows, now, m, matched, key)
    requires Completes(pc, transient, rows, now).Some?
    ensures EndsWell(pc, transient, rows, now, m, matched, key)
  {
  }

  lemma OwnEnd(pc: Pc, transient: Flat, rows: Rows, now: Instant, m: Flat, matched: Instant, key: Bytes)
    requires PcConcernsKey(pc, key) && Midway(pc, transient, rows, now, m, matched, key)
    requires Completes(pc, transient, rows, now).Some?
    ensures EndsWell(pc, transient, rows, now, m, matched, key)
  {
    hide Midway, EndsWell, Completes;
    if IsReader(pc) {
      ReaderEnd(pc, transient, rows, now, m, matched, key);
    } else if pc.MatchingRow? {
      MatchEnd(pc, transient, rows, now, m, matched, key);
    } else {
      ChangerEnd(pc, transient, rows, now, m, matched, key);
    }
  }

  /** What one reader does does not disturb another. */
  lemma ReaderUnseen(pc: Pc, other: Pc, transient: Flat, rows: Rows, now: Instant, m: Flat, matched: Instant,
                     key: Bytes)
    requires IsReader(pc) && PcConcernsKey(pc, key) && Midway(pc, transient, rows, now, m, matched, key)
    requires IsReader(other) && Midway(other, transient, rows, now, m, matched, key)
    ensures Midway(other, TransientNext(pc, transient, now), RowsNext(pc, rows), now, m, matched, key)
    ensures !Completes(pc, transient, rows, now).Some? ==> IsReader(PcNext(pc, transient, rows, now))
  {
  }

  /** A finished read leaves the flat map as it was, for those that are still reading. */
  lemma ReaderGoesOn(pc: Pc, transient: Flat, rows: Rows, now: Instant, m: Flat, matched: Instant, key: Bytes, op: Op)
    requires IsReader(pc) && Midway(pc, transient, rows, now, m, matched, key) && Reads(op)
    ensures Midway(pc, transient, rows, now, Purge(Effect(Purge(m, now), now, op), now), matched, key)
  {
  }

  lemma ReadersEnd(pc: Pc, transient: Flat, rows: Rows, now: Instant)
    requires Completes(pc, transient, rows, now).Some? && (IsReader(pc) || !pc.ScanningRows?)
    ensures IsReader(pc) <==> Reads(Completes(pc, transient, rows, now).value.0)
  {
    hide WithPrefix, Values, InOrder;
  }

  // ----- steps of the world -----

  /** One thread is at work on the key or several are reading it, and the tiers relate to `m` as
      they should. */
  ghost predicate Follows(w: World, key: Bytes, m: Flat, from: Instant, c: Watch) {
    && from <= w.now
    && (Unused(w, key) ==> InStep(w.transient, w.rows, w.now, m, key))
    && (AtMostOne(w.threads, key) || OnlyReaders(w.threads, key))
    && (forall t :: IsUser(w.threads, t, key) ==> Underway(w, t, key, m, from, c))
  }

  ghost predicate AtMostOne(threads: map<Thread, Pc>, key: Bytes) {
    forall t, u :: IsUser(threads, t, key) && IsUser(threads, u, key) ==> t == u
  }

  predicate IsUser(threads: map<Thread, Pc>, t: Thread, key: Bytes) {
    t in threads && PcConcernsKey(threads[t], key)
  }

  ghost predicate Underway(w: World, t: Thread, key: Bytes, m: Flat, from: Instant, c: Watch)
    requires t in w.threads
  {
    && Midway(w.threads[t], w.transient, w.rows, w.now, m, c.matched, key)
    && t in c.begun && c.begun[t] <= w.now
    && (w.threads[t].MatchingRow? ==> c.begun[t] <= c.matched && from <= c.matched)
  }

  /** The finished operation is right, and `m'` is the flat map after it. */
  ghost predicate Right(m: Flat, from: Instant, f: Finished, m': Flat) {
    var live := Purge(m, f.at);
    && from <= f.at && f.begun <= f.at <= f.ended && Answers(f.answer, live, f.at, f.op)
    && m' == Purge(Effect(live, f.at, f.op), f.at)
  }

  lemma EnteringFacts(op: Op, key: Bytes)
    ensures PcConcernsKey(Entering(op), key) <==> ConcernsKey(op, key)
    ensures ConcernsKey(op, key) ==> (IsReader(Entering(op)) <==> Reads(op))
    ensures !Entering(op).MatchingRow?
  {
  }

  lemma EnteringMidway(op: Op, transient: Flat, rows: Rows, now: Instant, m: Flat, matched: Instant, key: Bytes)
    requires InStep(transient, rows, now, m, key)
    ensures Midway(Entering(op), transient, rows, now, m, matched, key)
  {
    hide InStep;
  }

  lemma ForeignBegins(w: World, t: Thread, op: Op, key: Bytes, m: Flat, from: Instant, c: Watch)
    requires Follows(w, key, m, from, c) && At(w, t).Idle? && !ConcernsKey(op, key)
    ensures Follows(Step(w, Begin(t, op)), key, m, from, c)
  {
    hide InStep, Midway, Entering;
    var w' := Step(w, Begin(t, op));
    EnteringFacts(op, key);
    if Unused(w', key) { StillUnused(w, t, w', key); }
    assert forall u :: IsUser(w'.threads, u, key) ==> IsUser(w.threads, u, key) && w'.threads[u] == w.threads[u];
    forall u | IsUser(w'.threads, u, key) ensures Underway(w', u, key, m, from, c) {
      assert Underway(w, u, key, m, from, c);
    }
  }

  lemma OwnBegins(w: World, t: Thread, op: Op, key: Bytes, m: Flat, from: Instant, c: Watch)
    requires Follows(w, key, m, from, c) && At(w, t).Idle? && ConcernsKey(op, key)
    requires MayBegin(op, key, Unused(w, key), OnlyReaders(w.threads, key))
    ensures Follows(Step(w, Begin(t, op)), key, m, from, c.(begun := c.begun[t := w.now]))
  {
    hide InStep, Midway, Entering;
    var w', c' := Step(w, Begin(t, op)), c.(begun := c.begun[t := w.now]);
    EnteringFacts(op, key);
    assert OnlyReaders(w.threads, key);
    BeginsInStep(w, key, m, from, c);
    EnteringMidway(op, w.transient, w.rows, w.now, m, c.matched, key);
    assert IsUser(w'.threads, t, key);
    assert forall u :: IsUser(w'.threads, u, key) && u != t ==>
      IsUser(w.threads, u, key) && w'.threads[u] == w.threads[u];
    forall u | IsUser(w'.threads, u, key) ensures Underway(w', u, key, m, from, c') {
      assert u != t ==> Underway(w, u, key, m, from, c);
    }
  }

  /** Between operations, and among readers, the tiers are in step. */
  lemma BeginsInStep(w: World, key: Bytes, m: Flat, from: Instant, c: Watch)
    requires Follows(w, key, m, from, c) && OnlyReaders(w.threads, key)
    ensures InStep(w.transient, w.rows, w.now, m, key)
  {
    hide InStep;
    if !Unused(w, key) {
      var t :| t in w.threads && PcConcernsKey(w.threads[t], key);
      assert IsUser(w.threads, t, key) && Underway(w, t, key, m, from, c);
    }
  }

  lemma StillUnused(w: World, t: Thread, w': World, key: Bytes)
    requires !PcConcernsKey(At(w, t), key) && Unused(w', key) && w'.threads == w.threads[t := At(w', t)]
    ensures Unused(w, key)
  {
    forall u | u in w.threads ensures !PcConcernsKey(w.threads[u], key) {
      assert u in w'.threads;
    }
  }

  lemma ForeignFollows(w: World, t: Thread, key: Bytes, m: Flat, from: Instant, c: Watch)
    requires Follows(w, key, m, from, c) && !PcConcernsKey(At(w, t), key)
    ensures Follows(Advance(w, t), key, m, from, c)
  {
    hide InStep, Midway, TransientNext, RowsNext, PcNext, Completes;
    var w' := Advance(w, t);
    ForeignCall(At(w, t), w.transient, w.rows, w.now, key);
    if Unused(w', key) {
      StillUnused(w, t, w', key);
      ForeignInStep(w, w', m, key);
    }
    assert forall u :: IsUser(w'.threads, u, key) ==> IsUser(w.threads, u, key) && w.threads[u] == w'.threads[u];
    forall u | IsUser(w'.threads, u, key)
      ensures Underway(w', u, key, m, from, c)
    {
      assert Underway(w, u, key, m, from, c);
      ForeignUnseen(w.threads[u], w.transient, w.rows, w.now, m, c.matched, key, w'.transient, w'.rows);
    }
  }

  lemma ForeignInStep(w: World, w': World, m: Flat, key: Bytes)
    requires InStep(w.transient, w.rows, w.now, m, key) && w'.now == w.now
    requires key in w'.transient ==> key in w.transient && w'.transient[key] == w.transient[key]
    requires key in w.transient && Live(w.transient[key], w.now) ==> key in w'.transient
    requires key in w'.rows <==> key in w.rows
    requires key in w.rows ==> w'.rows[key] == w.rows[key]
    ensures InStep(w'.transient, w'.rows, w.now, m, key)
  {
  }

  lemma TickFollows(w: World, d: nat, key: Bytes, m: Flat, from: Instant, c: Watch)
    requires Follows(w, key, m, from, c)
    ensures Follows(Step(w, Tick(d)), key, m, from, c)
  {
    hide InStep, Midway;
    var w' := Step(w, Tick(d));
    assert Unused(w', key) ==> Unused(w, key);
    if Unused(w', key) { InStepLater(w, m, key, w'.now); }
    forall t | IsUser(w'.threads, t, key)
      ensures Underway(w', t, key, m, from, c)
    {
      assert IsUser(w.threads, t, key) && Underway(w, t, key, m, from, c);
      TimePasses(w.threads[t], w.transient, w.rows, w.now, m, c.matched, key, w'.now);
    }
  }

  lemma InStepLater(w: World, m: Flat, key: Bytes, later: Instant)
    requires InStep(w.transient, w.rows, w.now, m, key) && w.now <= later
    ensures InStep(w.transient, w.rows, later, m, key)
  {
  }

  lemma CallFollows(w: World, t: Thread, key: Bytes, m: Flat, from: Instant, c: Watch)
    requires Follows(w, key, m, from, c) && PcConcernsKey(At(w, t), key)
    requires Completes(At(w, t), w.transient, w.rows, w.now).None?
    ensures Finishes(w, Call(t), key, c) == [] && Follows(Advance(w, t), key, m, from, Watched(w, Call(t), key, c))
  {
    hide InStep, Midway, TransientNext, RowsNext, PcNext, Completes;
    var pc, w', c' := At(w, t), Advance(w, t), Watched(w, Call(t), key, c);
    assert IsUser(w.threads, t, key) && Underway(w, t, key, m, from, c);
    OwnCall(pc, w.transient, w.rows, w.now, m, c.matched, key);
    MatchingFirst(pc, w.transient, w.rows, w.now);
    assert IsUser(w'.threads, t, key);
    assert forall u :: IsUser(w'.threads, u, key) ==>
      IsUser(w.threads, u, key) && (u != t ==> w'.threads[u] == w.threads[u]);
    forall u | IsUser(w'.threads, u, key)
      ensures Underway(w', u, key, m, from, c')
    {
      if u != t { OthersRead(w, t, u, key, m, from, c); }
    }
    if OnlyReaders(w.threads, key) { ReaderUnseen(pc, pc, w.transient, w.rows, w.now, m, c.matched, key); }
  }

  /** Two threads at work on the key are both reading it. */
  lemma OthersRead(w: World, t: Thread, u: Thread, key: Bytes, m: Flat, from: Instant, c: Watch)
    requires Follows(w, key, m, from, c) && u != t && IsUser(w.threads, t, key) && IsUser(w.threads, u, key)
    ensures IsReader(w.threads[t]) && IsReader(w.threads[u]) && Underway(w, u, key, m, from, c)
    ensures Midway(w.threads[u], TransientNext(w.threads[t], w.transient, w.now), RowsNext(w.threads[t], w.rows), w.now,
                   m, c.matched, key)
  {
    hide InStep, Midway, TransientNext, RowsNext, PcNext, Completes;
    assert Underway(w, t, key, m, from, c) && Underway(w, u, key, m, from, c);
    ReaderUnseen(w.threads[t], w.threads[u], w.transient, w.rows, w.now, m, c.matched, key);
  }

  lemma MatchingFirst(pc: Pc, transient: Flat, rows: Rows, now: Instant)
    ensures PcNext(pc, transient, rows, now).MatchingRow? ==> pc.Matching?
  {
    hide WithPrefix, Values;
  }

  lemma EndFollows(w: World, t: Thread, key: Bytes, m: Flat, from: Instant, c: Watch) returns (m': Flat)
    requires Follows(w, key, m, from, c) && PcConcernsKey(At(w, t), key)
    requires Completes(At(w, t), w.transient, w.rows, w.now).Some?
    ensures var fs := Finishes(w, Call(t), key, c);
            && |fs| == 1 && Right(m, from, fs[0], m')
            && Follows(Advance(w, t), key, m', fs[0].at, Watched(w, Call(t), key, c))
  {
    hide InStep, Midway, TransientNext, RowsNext, PcNext, Completes, Effect, Answers;
    var pc, w' := At(w, t), Advance(w, t);
    assert IsUser(w.threads, t, key) && Underway(w, t, key, m, from, c);
    OwnEnd(pc, w.transient, w.rows, w.now, m, c.matched, key);
    ReadersEnd(pc, w.transient, w.rows, w.now);
    var f := Finishes(w, Call(t), key, c)[0];
    m' := Purge(Effect(Purge(m, f.at), f.at, f.op), f.at);
    assert !IsUser(w'.threads, t, key);
    assert forall u :: IsUser(w'.threads, u, key) ==> IsUser(w.threads, u, key) && w'.threads[u] == w.threads[u];
    forall u | IsUser(w'.threads, u, key)
      ensures Underway(w', u, key, m', f.at, c)
    {
      OthersRead(w, t, u, key, m, from, c);
      ReaderGoesOn(w'.threads[u], w'.transient, w'.rows, w'.now, m, c.matched, key, f.op);
    }
  }

  // ----- runs -----

  function FlatAfter(m: Flat, calls: seq<Finished>): Flat
    decreases |calls|
  {
    if calls == [] then m
    else FlatAfter(Purge(Effect(Purge(m, calls[0].at), calls[0].at, calls[0].op), calls[0].at), calls[1..])
  }

  lemma {:induction false} RunFollows(w: World, labels: seq<Label>, key: Bytes, m: Flat, from: Instant, c: Watch)
    requires Follows(w, key, m, from, c) && Exclusive(w, labels, key)
    ensures Linear(m, from, History(w, labels, key, c))
    ensures var end := Run(w, labels);
            Unused(end, key) ==> InStep(end.transient, end.rows, end.now, FlatAfter(m, History(w, labels, key, c)), key)
    decreases |labels|
  {
    hide Follows, InStep, Unused, MayBegin, OnlyReaders, Effect, Answers, Purge, Watched, Completes;
    if labels == [] {
      RestsInStep(w, key, m, from, c);
    } else {
      var l, rest := labels[0], labels[1..];
      var w', c' := Step(w, l), Watched(w, l, key, c);
      if && l.Call? && PcConcernsKey(At(w, l.thread), key)
         && Completes(At(w, l.thread), w.transient, w.rows, w.now).Some?
      {
        var m' := EndFollows(w, l.thread, key, m, from, c);
        var f := Finishes(w, l, key, c)[0];
        RunFollows(w', rest, key, m', f.at, c');
        var calls := History(w, labels, key, c);
        assert calls == [f] + History(w', rest, key, c');
        assert calls[1..] == History(w', rest, key, c');
      } else {
        QuietFollows(w, l, key, m, from, c);
        RunFollows(w', rest, key, m, from, c');
        assert History(w, labels, key, c) == History(w', rest, key, c');
      }
    }
  }

  lemma RestsInStep(w: World, key: Bytes, m: Flat, from: Instant, c: Watch)
    requires Follows(w, key, m, from, c)
    ensures Unused(w, key) ==> InStep(w.transient, w.rows, w.now, m, key)
  {
    hide InStep, Midway;
  }

  lemma QuietFollows(w: World, l: Label, key: Bytes, m: Flat, from: Instant, c: Watch)
    requires Follows(w, key, m, from, c)
    requires l.Begin? && At(w, l.thread).Idle? ==> MayBegin(l.op, key, Unused(w, key), OnlyReaders(w.threads, key))
    requires l.Call? && PcConcernsKey(At(w, l.thread), key) ==>
               Completes(At(w, l.thread), w.transient, w.rows, w.now).None?
    ensures Finishes(w, l, key, c) == [] && Follows(Step(w, l), key, m, from, Watched(w, l, key, c))
  {
    hide Follows, Unused, OnlyReaders, MayBegin, Completes, Advance;
    match l
    case Begin(t, op) =>
      if At(w, t).Idle? {
        if ConcernsKey(op, key) {
          OwnBegins(w, t, op, key, m, from, c);
        } else {
          ForeignBegins(w, t, op, key, m, from, c);
        }
      }
    case Call(t) =>
      if PcConcernsKey(At(w, t), key) {
        CallFollows(w, t, key, m, from, c);
      } else {
        ForeignFollows(w, t, key, m, from, c);
      }
    case Tick(d) => TickFollows(w, d, key, m, from, c);
  }

  /** If no operation that changes a key overlaps any other on it, then however its readers
      overlap each other, and operations on other keys and scans interleave with them all, each
      answers as on one flat map, at an instant between its call and its return; and when none
      is under way, the tiers hold of the key what that map does. */
  lemma LinearizablePerKey(w: World, labels: seq<Label>, key: Bytes)
    requires Unused(w, key) && CopyAgrees(w.transient, w.rows, w.now, key) && Exclusive(w, labels, key)
    ensures var m, end := View(Tiers(w.transient, w.rows), w.now), Run(w, labels);
            var calls := History(w, labels, key, Watch(map[], w.now));
            && Linear(m, w.now, calls)
            && (Unused(end, key) ==> InStep(end.transient, end.rows, end.now, FlatAfter(m, calls), key))
  {
    hide Run, History, Exclusive, Linear, FlatAfter;
    var m, c := View(Tiers(w.transient, w.rows), w.now), Watch(map[], w.now);
    assert Follows(w, key, m, w.now, c);
    RunFollows(w, labels, key, m, w.now, c);
  }

  // ----- after a race -----

  /** No operation on the key begins. */
  ghost predicate NoneBegin(labels: seq<Label>, key: Bytes) {
    forall l :: l in labels && l.Begin? ==> !ConcernsKey(l.op, key)
  }

  /** The row of a key is as it was, and its copy is as it was or gone. */
  ghost predicate KeyRests(w: World, end: World, key: Bytes) {
    && Unused(end, key) && w.now <= end.now
    && (key in end.rows <==> key in w.rows) && (key in w.rows ==> end.rows[key] == w.rows[key])
    && (key in end.transient ==> key in w.transient && end.transient[key] == w.transient[key])
    && (key in w.transient && Live(w.transient[key], end.now) ==> key in end.transient)
  }

  lemma StepRests(w: World, l: Label, key: Bytes)
    requires Unused(w, key) && (l.Begin? ==> !ConcernsKey(l.op, key))
    ensures KeyRests(w, Step(w, l), key)
  {
    hide TransientNext, RowsNext, PcNext, Completes, Entering;
    match l
    case Begin(t, op) => EnteringFacts(op, key);
    case Call(t) => ForeignCall(At(w, t), w.transient, w.rows, w.now, key);
    case Tick(_) =>
  }

  /** While no operation on a key begins, others do not touch it, though they purge. */
  lemma {:induction false} RunRests(w: World, labels: seq<Label>, key: Bytes)
    requires Unused(w, key) && NoneBegin(labels, key)
    ensures KeyRests(w, Run(w, labels), key)
    decreases |labels|
  {
    hide Step, Unused;
    if labels != [] {
      StepRests(w, labels[0], key);
      RunRests(Step(w, labels[0]), labels[1..], key);
    }
  }

  /** However the operations on an ordinary key have raced, once none is under way and none
      begins for as long as the longest duration in use, whatever goes on meanwhile on other
      keys, the key is read from its row and its operations are linear from then on. */
  lemma StalenessBounded(w: World, labels: seq<Label>, more: seq<Label>, bound: Duration, key: Bytes)
    requires Fresh(w) && CACHE_PROMOTION <= bound && !IsRegistryKey(key)
    requires forall l :: l in labels && l.Begin? ==> DurationWithin(l.op, bound)
    requires var mid := Run(w, labels); Unused(mid, key) && mid.now + bound <= Run(mid, more).now
    requires NoneBegin(more, key)
    ensures var mid, end := Run(w, labels), Run(Run(w, labels), more);
            && KeyRests(mid, end, key) && CopyAgrees(end.transient, end.rows, end.now, key)
            && FoundIn(Tiers(end.transient, end.rows), Readings(end.now, end.now, end.now), key)
               == (if key in mid.rows then Some(mid.rows[key]) else None)
  {
    hide IsRegistryKey, Run, Step;
    var mid := Run(w, labels);
    RunGuarded(w, labels);
    RunWithin(w, labels, bound);
    RunRests(mid, more, key);
    assert forall t :: t in mid.threads ==> !Owes(mid.threads[t], key);
  }

  lemma LinearAfterRaces(w: World, labels: seq<Label>, more: seq<Label>, bound: Duration, key: Bytes, rest: seq<Label>)
    requires Fresh(w) && CACHE_PROMOTION <= bound && !IsRegistryKey(key)
    requires forall l :: l in labels && l.Begin? ==> DurationWithin(l.op, bound)
    requires var mid := Run(w, labels); Unused(mid, key) && mid.now + bound <= Run(mid, more).now
    requires NoneBegin(more, key) && Exclusive(Run(Run(w, labels), more), rest, key)
    ensures var end := Run(Run(w, labels), more);
            Linear(View(Tiers(end.transient, end.rows), end.now), end.now,
                   History(end, rest, key, Watch(map[], end.now)))
  {
    hide Run, Step, View, Linear, History, Exclusive, FoundIn, FlatAfter;
    StalenessBounded(w, labels, more, bound, key);
    LinearizablePerKey(Run(Run(w, labels), more), rest, key);
  }

  // ----- the history is what the log says -----

  function OpsOn(log: seq<Outcome>, key: Bytes): seq<(Op, Answer)> {
    if log == [] then []
    else
      var o := log[|log| - 1];
      OpsOn(log[..|log| - 1], key) + if ConcernsKey(o.op, key) then [(o.op, o.answer)] else []
  }

  function Outcomes(calls: seq<Finished>): seq<(Op, Answer)> {
    if calls == [] then [] else [(calls[0].op, calls[0].answer)] + Outcomes(calls[1..])
  }

  /** No operation on the key that the log records is missing from its history, or in another
      place. */
  lemma {:induction false} HistoryIsLog(w: World, labels: seq<Label>, key: Bytes, c: Watch)
    ensures OpsOn(Run(w, labels).log, key) == OpsOn(w.log, key) + Outcomes(History(w, labels, key, c))
    decreases |labels|
  {
    hide Finishes, Step, Watched;
    if labels != [] {
      var w', c' := Step(w, labels[0]), Watched(w, labels[0], key, c);
      StepLogs(w, labels[0], key, c);
      HistoryIsLog(w', labels[1..], key, c');
      OutcomesConcat(Finishes(w, labels[0], key, c), History(w', labels[1..], key, c'));
    }
  }

  lemma {:induction false} OutcomesConcat(a: seq<Finished>, b: seq<Finished>)
    ensures Outcomes(a + b) == Outcomes(a) + Outcomes(b)
  {
    if a == [] {
      assert a + b == b;
    } else {
      assert (a + b)[1..] == a[1..] + b;
      OutcomesConcat(a[1..], b);
    }
  }

  lemma StepLogs(w: World, l: Label, key: Bytes, c: Watch)
    ensures OpsOn(Step(w, l).log, key) == OpsOn(w.log, key) + Outcomes(Finishes(w, l, key, c))
  {
    hide TransientNext, RowsNext, PcNext, Completes;
    if l.Call? {
      var pc := At(w, l.thread);
      CompletesOwn(pc, w.transient, w.rows, w.now, key);
      var w' := Advance(w, l.thread);
      if w'.log != w.log { assert w'.log[..|w.log|] == w.log; }
    }
  }

  lemma CompletesOwn(pc: Pc, transient: Flat, rows: Rows, now: Instant, key: Bytes)
    ensures var done := Completes(pc, transient, rows, now);
            done.Some? ==> (ConcernsKey(done.value.0, key) <==> PcConcernsKey(pc, key))
  {
    hide WithPrefix, Values, InOrder;
  }
}
