/** The two-tier bus under concurrency: each call on a tier is atomic, a bus operation is
    several of them, and threads interleave freely. */
module Interleaving {
  import opened ByteStrings
  import opened FlatStore
  import opened PersistentTier
  import opened TwoTiers

  // ----- the step machine -----

  /** Where a thread is inside a bus operation, named after the tier call it makes next. */
  datatype Pc =
    | Idle
    | Reading(key: Bytes)
    | ReadingRow(key: Bytes)
    | Copying(key: Bytes, value: Bytes)
    | Copied(key: Bytes, value: Bytes)
    | WritingRow(key: Bytes, value: Bytes)
    | Invalidating(key: Bytes, value: Bytes)
    | Deleting(key: Bytes)
    | DeletingRow(key: Bytes)
    | Matching(key: Bytes, expected: Bytes)
    | MatchingRow(key: Bytes, expected: Bytes, won: bool)
    | Timing(key: Bytes, duration: Duration)
    | Unrowing(key: Bytes, value: Bytes, duration: Duration)
    | Moving(key: Bytes, value: Bytes, duration: Duration)
    | SettingTtl(key: Bytes, duration: Duration, promoted: bool)
    | Superseding(key: Bytes, value: Bytes, duration: Duration)
    | WritingTimed(key: Bytes, value: Bytes, duration: Duration)
    | Asking(key: Bytes)
    | Scanning(prefix: Bytes)
    | ScanningRows(prefix: Bytes, live: Rows)

  type Thread = nat

  /** A finished operation and what it answered. */
  datatype Outcome = Outcome(thread: Thread, op: Op, answer: Answer)

  datatype World = World(transient: Flat, rows: Rows, now: Instant, threads: map<Thread, Pc>, log: seq<Outcome>)

  function At(w: World, t: Thread): Pc {
    if t in w.threads then w.threads[t] else Idle
  }

  function Entering(op: Op): Pc {
    match op
    case ReadValue(k) => Reading(k)
    case WriteValue(k, v) => WritingRow(k, v)
    case DeleteValue(k) => Deleting(k)
    case DeleteValueIfMatch(k, expected) => Matching(k, expected)
    case WriteTtl(k, d) => Timing(k, d)
    case WriteValueWithTtl(k, v, d) => Superseding(k, v, d)
    case ReadTtlRemaining(k) => Asking(k)
    case FindByPrefix(prefix) => Scanning(prefix)
  }

  /** What the next call of a thread at `pc` does to the transient tier; a call on that tier
      purges first, a call on the persistent tier does not touch it. */
  function TransientNext(pc: Pc, m: Flat, now: Instant): Flat {
    var live := Purge(m, now);
    match pc
    case Reading(_) => live
    case Copying(k, v) => Put(live, k, v)
    case Copied(k, _) => Expire(live, k, now + CACHE_PROMOTION)
    case Invalidating(k, _) => Remove(live, k)
    case Deleting(k) => Remove(live, k)
    case Matching(k, expected) => RemoveIfMatch(live, k, expected)
    case Moving(k, v, _) => Put(live, k, v)
    case SettingTtl(k, d, _) => Expire(live, k, now + d)
    case WritingTimed(k, v, d) => PutUntil(live, k, v, now + d)
    case Asking(_) => live
    case Scanning(_) => live
    case _ => m
  }

  /** What it does to the persistent tier. */
  function RowsNext(pc: Pc, rows: Rows): Rows {
    match pc
    case WritingRow(k, v) => rows[k := v]
    case DeletingRow(k) => rows - {k}
    case MatchingRow(k, expected, _) => if k in rows && rows[k] == expected then rows - {k} else rows
    case Unrowing(k, _, _) => rows - {k}
    case Superseding(k, _, _) => rows - {k}
    case _ => rows
  }

  /** Where it leaves the thread. */
  function PcNext(pc: Pc, m: Flat, rows: Rows, now: Instant): Pc {
    var live := Purge(m, now);
    match pc
    case Reading(k) => if k in live then Idle else ReadingRow(k)
    case ReadingRow(k) => if k in rows then Copying(k, rows[k]) else Idle
    case Copying(k, v) => Copied(k, v)
    case WritingRow(k, v) => Invalidating(k, v)
    case Deleting(k) => DeletingRow(k)
    case Matching(k, expected) => MatchingRow(k, expected, Find(live, k) == Some(expected))
    case Timing(k, d) => if k in rows then Unrowing(k, rows[k], d) else SettingTtl(k, d, false)
    case Unrowing(k, v, d) => Moving(k, v, d)
    case Moving(k, v, d) => SettingTtl(k, d, true)
    case Superseding(k, v, d) => WritingTimed(k, v, d)
    case Scanning(prefix) => ScanningRows(prefix, WithPrefix(Values(live), prefix))
    case _ => Idle
  }

  /** The operation it completes, if any, with its answer. */
  function Completes(pc: Pc, m: Flat, rows: Rows, now: Instant): Option<(Op, Answer)> {
    var live := Purge(m, now);
    match pc
    case Reading(k) => if k in live then Some((ReadValue(k), Found(Some(live[k].value)))) else None
    case ReadingRow(k) => if k in rows then None else Some((ReadValue(k), Found(None)))
    case Copied(k, v) => Some((ReadValue(k), Found(Some(v))))
    case Invalidating(k, v) => Some((WriteValue(k, v), Done))
    case DeletingRow(k) => Some((DeleteValue(k), Done))
    case MatchingRow(k, expected, won) =>
      Some((DeleteValueIfMatch(k, expected), Matched(won || (k in rows && rows[k] == expected))))
    case SettingTtl(k, d, _) => Some((WriteTtl(k, d), Done))
    case WritingTimed(k, v, d) => Some((WriteValueWithTtl(k, v, d), Done))
    case Asking(k) => Some((ReadTtlRemaining(k), Left(Remaining(live, k, now))))
    case ScanningRows(prefix, found) => Some((FindByPrefix(prefix), Pairs(InOrder(WithPrefix(rows, prefix) + found))))
    case _ => None
  }

  /** One tier call of thread `t`. */
  function Advance(w: World, t: Thread): World {
    var pc := At(w, t);
    World(TransientNext(pc, w.transient, w.now),
          RowsNext(pc, w.rows),
          w.now,
          w.threads[t := PcNext(pc, w.transient, w.rows, w.now)],
          match Completes(pc, w.transient, w.rows, w.now)
          case Some((op, answer)) => w.log + [Outcome(t, op, answer)]
          case None => w.log)
  }

  datatype Label = Begin(thread: Thread, op: Op) | Call(thread: Thread) | Tick(elapsed: nat)

  function Step(w: World, l: Label): World {
    match l
    case Begin(t, op) => if At(w, t).Idle? then w.(threads := w.threads[t := Entering(op)]) else w
    case Call(t) => Advance(w, t)
    case Tick(d) => w.(now := w.now + d)
  }

  function Run(w: World, labels: seq<Label>): World
    decreases |labels|
  {
    if labels == [] then w else Run(Step(w, labels[0]), labels[1..])
  }

  /** A bus nobody is using, with only the registry in memory. */
  ghost predicate Fresh(w: World) {
    && (forall t :: t in w.threads ==> w.threads[t].Idle?)
    && (forall k :: k in w.transient ==> IsRegistryKey(k) && w.transient[k].deadline.None?)
  }

  ghost predicate Quiescent(w: World) {
    forall t :: t in w.threads ==> w.threads[t].Idle?
  }

  // ----- no copy stays in memory for good -----

  /** The thread has put `key` into memory without a deadline and owes it one. */
  predicate Owes(pc: Pc, key: Bytes) {
    (pc.Copied? && pc.key == key) || (pc.SettingTtl? && pc.promoted && pc.key == key)
  }

  /** Every ordinary key in memory without a deadline is in the hands of a promoting thread. */
  ghost predicate Guarded(w: World) {
    forall k :: k in w.transient && w.transient[k].deadline.None? && !IsRegistryKey(k) ==>
      exists t :: t in w.threads && Owes(w.threads[t], k)
  }

  /** A call leaves a key in memory without a deadline only if it was so before, or if the
      call is the one that put it there; and the debt is paid before the thread goes on. */
  lemma TransientUntimed(pc: Pc, m: Flat, rows: Rows, now: Instant, k: Bytes)
    requires k in TransientNext(pc, m, now) && TransientNext(pc, m, now)[k].deadline.None?
    ensures Owes(PcNext(pc, m, rows, now), k) || (k in m && m[k].deadline.None? && !Owes(pc, k))
  {
  }

  lemma StepGuarded(w: World, l: Label)
    requires Guarded(w)
    ensures Guarded(Step(w, l))
  {
    hide IsRegistryKey, TransientNext, RowsNext, PcNext, Completes, Entering;
    var w' := Step(w, l);
    forall k | k in w'.transient && w'.transient[k].deadline.None? && !IsRegistryKey(k)
      ensures exists t :: t in w'.threads && Owes(w'.threads[t], k)
    {
      if l.Call? { TransientUntimed(At(w, l.thread), w.transient, w.rows, w.now, k); }
      if !(l.Call? && Owes(At(w', l.thread), k)) {
        var t :| t in w.threads && Owes(w.threads[t], k);
        assert t in w'.threads && Owes(w'.threads[t], k);
      } else {
        assert l.thread in w'.threads;
      }
    }
  }

  /** In every reachable world, in every interleaving. */
  lemma {:induction false} RunGuarded(w: World, labels: seq<Label>)
    requires Guarded(w)
    ensures Guarded(Run(w, labels))
    decreases |labels|
  {
    hide Guarded, Step;
    if labels != [] {
      StepGuarded(w, labels[0]);
      RunGuarded(Step(w, labels[0]), labels[1..]);
    }
  }

  predicate DurationWithin(op: Op, bound: Duration) {
    op.WriteTtl? || op.WriteValueWithTtl? ==> op.duration <= bound
  }

  predicate PcWithin(pc: Pc, bound: Duration) {
    (pc.Timing? || pc.Unrowing? || pc.Moving? || pc.SettingTtl? || pc.Superseding? || pc.WritingTimed?) ==>
      pc.duration <= bound
  }

  /** No deadline is further away than the longest duration in use. */
  ghost predicate Within(w: World, bound: Duration) {
    && (forall k :: k in w.transient && w.transient[k].deadline.Some? ==>
          w.transient[k].deadline.value <= w.now + bound)
    && (forall t :: t in w.threads ==> PcWithin(w.threads[t], bound))
  }

  lemma StepWithin(w: World, l: Label, bound: Duration)
    requires CACHE_PROMOTION <= bound && Within(w, bound) && (l.Begin? ==> DurationWithin(l.op, bound))
    ensures Within(Step(w, l), bound)
  {
    hide InOrder, WithPrefix;
    if l.Call? { CallWithin(At(w, l.thread), w.transient, w.rows, w.now, bound); }
  }

  lemma CallWithin(pc: Pc, m: Flat, rows: Rows, now: Instant, bound: Duration)
    requires CACHE_PROMOTION <= bound && PcWithin(pc, bound)
    requires forall k :: k in m && m[k].deadline.Some? ==> m[k].deadline.value <= now + bound
    ensures PcWithin(PcNext(pc, m, rows, now), bound)
    ensures var n := TransientNext(pc, m, now);
            forall k :: k in n && n[k].deadline.Some? ==> n[k].deadline.value <= now + bound
  {
    hide WithPrefix;
  }

  lemma {:induction false} RunWithin(w: World, labels: seq<Label>, bound: Duration)
    requires CACHE_PROMOTION <= bound && Within(w, bound)
    requires forall l :: l in labels && l.Begin? ==> DurationWithin(l.op, bound)
    ensures Within(Run(w, labels), bound)
    decreases |labels|
  {
    hide Within, Step;
    if labels != [] {
      StepWithin(w, labels[0], bound);
      RunWithin(Step(w, labels[0]), labels[1..], bound);
    }
  }

  // ----- compare-and-delete has no more winners than there are copies -----

  /** Compare-and-deletes of `key` that have answered true. */
  function Wins(log: seq<Outcome>, key: Bytes): nat {
    if log == [] then 0
    else Wins(log[..|log| - 1], key) + Count(Won(log[|log| - 1], key))
  }

  predicate Won(o: Outcome, key: Bytes) {
    o.op.DeleteValueIfMatch? && o.op.key == key && o.answer == Matched(true)
  }

  /** Threads that have won in the transient tier and not answered yet. */
  function Winning(threads: map<Thread, Pc>, key: Bytes): set<Thread> {
    set t | t in threads && IsWinning(threads[t], key)
  }

  predicate IsWinning(pc: Pc, key: Bytes) {
    pc.MatchingRow? && pc.key == key && pc.won
  }

  /** Winners so far plus copies still there to be won. */
  function Claims(w: World, key: Bytes): nat {
    Wins(w.log, key) + |Winning(w.threads, key)| + Count(key in w.transient) + Count(key in w.rows)
  }

  predicate PcConcernsKey(pc: Pc, key: Bytes) {
    !pc.Idle? && !pc.Scanning? && !pc.ScanningRows? && pc.key == key
  }

  /** The only operations on `key` are compare-and-deletes. */
  ghost predicate Contested(w: World, key: Bytes) {
    forall t :: t in w.threads && PcConcernsKey(w.threads[t], key) ==>
      w.threads[t].Matching? || w.threads[t].MatchingRow?
  }

  predicate OnlyMatches(l: Label, key: Bytes) {
    l.Begin? && ConcernsKey(l.op, key) ==> l.op.DeleteValueIfMatch?
  }

  lemma EnteringContends(l: Label, key: Bytes)
    requires OnlyMatches(l, key)
    ensures l.Begin? && PcConcernsKey(Entering(l.op), key) ==> Entering(l.op).Matching?
    ensures l.Begin? ==> !Entering(l.op).MatchingRow?
  {
  }

  lemma StepClaims(w: World, l: Label, key: Bytes)
    requires Contested(w, key) && OnlyMatches(l, key)
    ensures Contested(Step(w, l), key)
    ensures Claims(Step(w, l), key) <= Claims(w, key)
  {
    hide InOrder, WithPrefix, Advance, Wins, Entering;
    EnteringContends(l, key);
    var w' := Step(w, l);
    if l.Call? {
      CallClaims(w, l.thread, key);
    } else {
      assert Winning(w'.threads, key) == Winning(w.threads, key);
    }
  }

  function Count(b: bool): nat {
    if b then 1 else 0
  }

  predicate CompletesWin(pc: Pc, m: Flat, rows: Rows, now: Instant, key: Bytes) {
    var c := Completes(pc, m, rows, now);
    c.Some? && c.value.0.DeleteValueIfMatch? && c.value.0.key == key && c.value.1 == Matched(true)
  }

  /** One call trades a copy for a claim on it, or a claim for an answer, never at a profit. */
  lemma CallTrades(pc: Pc, m: Flat, rows: Rows, now: Instant, key: Bytes)
    requires PcConcernsKey(pc, key) ==> pc.Matching? || pc.MatchingRow?
    ensures var pc' := PcNext(pc, m, rows, now);
            && (PcConcernsKey(pc', key) ==> pc'.MatchingRow?)
            && Count(CompletesWin(pc, m, rows, now, key)) + Count(IsWinning(pc', key))
               + Count(key in TransientNext(pc, m, now)) + Count(key in RowsNext(pc, rows))
               <= Count(IsWinning(pc, key)) + Count(key in m) + Count(key in rows)
  {
    hide InOrder, WithPrefix;
  }

  lemma CallClaims(w: World, t: Thread, key: Bytes)
    requires Contested(w, key)
    ensures Contested(Advance(w, t), key)
    ensures Claims(Advance(w, t), key) <= Claims(w, key)
  {
    hide TransientNext, RowsNext, PcNext, Completes;
    var w' := Advance(w, t);
    CallTrades(At(w, t), w.transient, w.rows, w.now, key);
    CallLogs(w, t, key);
    CallCounts(w.threads, t, At(w', t), key);
  }

  lemma CallLogs(w: World, t: Thread, key: Bytes)
    ensures Wins(Advance(w, t).log, key)
            == Wins(w.log, key) + Count(CompletesWin(At(w, t), w.transient, w.rows, w.now, key))
  {
    hide TransientNext, RowsNext, PcNext, Completes;
    var w' := Advance(w, t);
    if w'.log != w.log { assert w'.log[..|w.log|] == w.log; }
  }

  lemma CallCounts(threads: map<Thread, Pc>, t: Thread, pc: Pc, key: Bytes)
    ensures |Winning(threads[t := pc], key)| + Count(t in threads && IsWinning(threads[t], key))
            == |Winning(threads, key)| + Count(IsWinning(pc, key))
  {
    assert Winning(threads[t := pc], key) == Replaced(Winning(threads, key), t, IsWinning(pc, key));
    ReplacedCounts(Winning(threads, key), t, IsWinning(pc, key));
    assert t in Winning(threads, key) <==> t in threads && IsWinning(threads[t], key);
  }

  ghost function Replaced(s: set<Thread>, t: Thread, stays: bool): set<Thread> {
    if stays then s + {t} else s - {t}
  }

  lemma ReplacedCounts(s: set<Thread>, t: Thread, stays: bool)
    ensures |Replaced(s, t, stays)| + Count(t in s) == |s| + Count(stays)
  {
    if t in s { assert s == (s - {t}) + {t} && s + {t} == s; } else { assert s - {t} == s; }
  }

  /** Over any interleaving, the compare-and-deletes of a key that succeed are at most as many
      as the tiers that held it, whatever values they expect. */
  lemma {:induction false} RunClaims(w: World, labels: seq<Label>, key: Bytes)
    requires Contested(w, key) && forall l :: l in labels ==> OnlyMatches(l, key)
    ensures Claims(Run(w, labels), key) <= Claims(w, key)
    decreases |labels|
  {
    hide Contested, OnlyMatches, Step, Claims;
    if labels != [] {
      StepClaims(w, labels[0], key);
      RunClaims(Step(w, labels[0]), labels[1..], key);
    }
  }

  lemma WinnersAtMostCopies(w: World, labels: seq<Label>, key: Bytes)
    requires Quiescent(w) && w.log == [] && forall l :: l in labels ==> OnlyMatches(l, key)
    ensures Wins(Run(w, labels).log, key) <= Count(key in w.transient) + Count(key in w.rows)
  {
    hide Run, OnlyMatches;
    RunClaims(w, labels, key);
    assert Winning(w.threads, key) == {};
  }

  /** The value of `key` sits in one tier and lives past `horizon`; whoever expected it and got
      past a tier emptied it, and those who expect something else change nothing. */
  ghost predicate Decisive(w: World, key: Bytes, value: Bytes, horizon: Instant) {
    && Contested(w, key)
    && Claims(w, key) == 1
    && w.now <= horizon
    && (key in w.transient ==> w.transient[key].value == value && Live(w.transient[key], horizon))
    && (key in w.rows ==> w.rows[key] == value)
    && (forall t :: t in w.threads && IsPastCopy(w.threads[t], key, value) ==> key !in w.transient)
    && (Answered(w.log, key, value) ==> key !in w.transient && key !in w.rows)
  }

  /** A compare-and-delete that expects the value has been to the transient tier. */
  predicate IsPastCopy(pc: Pc, key: Bytes, value: Bytes) {
    pc.MatchingRow? && pc.key == key && pc.expected == value
  }

  /** A compare-and-delete that expected the value has answered. */
  predicate Answered(log: seq<Outcome>, key: Bytes, value: Bytes) {
    exists o :: o in log && o.op == DeleteValueIfMatch(key, value)
  }

  lemma CallDecides(pc: Pc, m: Flat, rows: Rows, now: Instant, key: Bytes, value: Bytes)
    requires PcConcernsKey(pc, key) ==> pc.Matching? || pc.MatchingRow?
    requires key in m ==> m[key].value == value && Live(m[key], now)
    requires key in rows ==> rows[key] == value
    requires Count(IsWinning(pc, key)) + Count(key in m) + Count(key in rows) <= 1
    ensures var pc', m', rows' := PcNext(pc, m, rows, now), TransientNext(pc, m, now), RowsNext(pc, rows);
            && (PcConcernsKey(pc', key) ==> pc'.MatchingRow? && (pc'.expected == value ==> key !in m'))
            && Count(CompletesWin(pc, m, rows, now, key)) + Count(IsWinning(pc', key))
               + Count(key in m') + Count(key in rows')
               == Count(IsWinning(pc, key)) + Count(key in m) + Count(key in rows)
            && (key in m' ==> key in m && m'[key] == m[key])
            && (key in rows' ==> key in rows && rows'[key] == rows[key])
            && (PcConcernsKey(pc, key) && pc.MatchingRow? && pc.expected == value ==> key !in rows')
  {
    hide InOrder, WithPrefix;
  }

  lemma CallAnswers(pc: Pc, m: Flat, rows: Rows, now: Instant, key: Bytes, value: Bytes)
    requires PcConcernsKey(pc, key) ==> pc.Matching? || pc.MatchingRow?
    ensures var c := Completes(pc, m, rows, now);
            c.Some? && c.value.0 == DeleteValueIfMatch(key, value) ==>
              pc.MatchingRow? && pc.key == key && pc.expected == value
  {
    hide InOrder, WithPrefix;
  }

  lemma CallDecisive(w: World, t: Thread, key: Bytes, value: Bytes, horizon: Instant)
    requires Decisive(w, key, value, horizon)
    ensures Decisive(Advance(w, t), key, value, horizon)
  {
    hide Wins, TransientNext, RowsNext, PcNext, Completes, Winning, Answered;
    var w' := Advance(w, t);
    CallCounts(w.threads, t, Idle, key);
    CallDecides(At(w, t), w.transient, w.rows, w.now, key, value);
    CallLogs(w, t, key);
    CallCounts(w.threads, t, At(w', t), key);
    CallAnswered(w, t, key, value);
  }

  lemma CallAnswered(w: World, t: Thread, key: Bytes, value: Bytes)
    requires Contested(w, key)
    ensures Answered(Advance(w, t).log, key, value) ==>
              || Answered(w.log, key, value)
              || (PcConcernsKey(At(w, t), key) && At(w, t).MatchingRow? && At(w, t).expected == value)
  {
    hide TransientNext, RowsNext, PcNext, Completes;
    CallAnswers(At(w, t), w.transient, w.rows, w.now, key, value);
  }

  lemma StepDecisive(w: World, l: Label, key: Bytes, value: Bytes, horizon: Instant)
    requires Decisive(w, key, value, horizon) && OnlyMatches(l, key) && Step(w, l).now <= horizon
    ensures Decisive(Step(w, l), key, value, horizon)
  {
    hide Wins, Advance, Answered;
    if l.Call? {
      CallDecisive(w, l.thread, key, value, horizon);
    } else {
      assert Winning(Step(w, l).threads, key) == Winning(w.threads, key);
    }
  }

  lemma {:induction false} NowAscends(w: World, labels: seq<Label>)
    ensures w.now <= Run(w, labels).now
    decreases |labels|
  {
    hide TransientNext, RowsNext, PcNext, Completes;
    if labels != [] { NowAscends(Step(w, labels[0]), labels[1..]); }
  }

  lemma {:induction false} RunDecisive(w: World, labels: seq<Label>, key: Bytes, value: Bytes)
    requires Decisive(w, key, value, Run(w, labels).now) && forall l :: l in labels ==> OnlyMatches(l, key)
    ensures Decisive(Run(w, labels), key, value, Run(w, labels).now)
    decreases |labels|
  {
    hide Decisive, OnlyMatches, Step;
    if labels != [] {
      var w1 := Step(w, labels[0]);
      NowAscends(w1, labels[1..]);
      StepDecisive(w, labels[0], key, value, Run(w, labels).now);
      RunDecisive(w1, labels[1..], key, value);
    }
  }

  /** One live copy in one tier, any number of threads after it with whatever expectations:
      once one that expects the value has answered, exactly one has won. */
  lemma ExactlyOneWinner(w: World, labels: seq<Label>, key: Bytes, value: Bytes)
    requires Quiescent(w) && w.log == [] && forall l :: l in labels ==> OnlyMatches(l, key)
    requires (key in w.rows && w.rows[key] == value && key !in w.transient)
             || (key !in w.rows && key in w.transient && w.transient[key].value == value
                 && Live(w.transient[key], Run(w, labels).now))
    requires Quiescent(Run(w, labels)) && Answered(Run(w, labels).log, key, value)
    ensures Wins(Run(w, labels).log, key) == 1
  {
    hide Run, OnlyMatches;
    var end := Run(w, labels);
    NowAscends(w, labels);
    assert Winning(w.threads, key) == {};
    RunDecisive(w, labels, key, value);
    assert Winning(end.threads, key) == {};
  }

  // ----- concurrent operations on one key are not linearizable -----

  /** A read that copies a row forward, raced by a write of the same key. */
  function Race(key: Bytes, v1: Bytes): seq<Label> {
    [Begin(0, ReadValue(key)), Call(0), Call(0)]
    + [Begin(1, WriteValue(key, v1)), Call(1), Call(1)]
    + [Call(0), Call(0)]
    + [Begin(2, ReadValue(key)), Call(2)]
  }

  lemma {:induction false} RunConcat(w: World, a: seq<Label>, b: seq<Label>)
    ensures Run(w, a + b) == Run(Run(w, a), b)
    decreases |a|
  {
    if a == [] {
      assert a + b == b;
    } else {
      assert (a + b)[1..] == a[1..] + b;
      RunConcat(Step(w, a[0]), a[1..], b);
    }
  }

  lemma RunTwo(w: World, a: Label, b: Label)
    ensures Run(w, [a, b]) == Step(Step(w, a), b)
  {
    assert [a, b][1..] == [b] && [b][1..] == [];
    assert Run(Step(w, a), [b]) == Run(Step(Step(w, a), b), []);
  }

  lemma RunThree(w: World, a: Label, b: Label, c: Label)
    ensures Run(w, [a, b, c]) == Step(Step(Step(w, a), b), c)
  {
    assert [a, b, c][1..] == [b, c];
    RunTwo(Step(w, a), b, c);
  }

  /** The write has answered before the second read begins, and that read still sees the old
      value: the copy it finds was made from the row the write replaced. */
  lemma StaleRead(key: Bytes, v0: Bytes, v1: Bytes)
    requires v0 != v1
    ensures var end := Run(World(map[], map[key := v0], 0, map[], []), Race(key, v1));
            end.log == [Outcome(1, WriteValue(key, v1), Done),
                        Outcome(0, ReadValue(key), Found(Some(v0))),
                        Outcome(2, ReadValue(key), Found(Some(v0)))]
            && end.rows == map[key := v1]
  {
    hide Run;
    var w := World(map[], map[key := v0], 0, map[], []);
    var read := [Begin(0, ReadValue(key)), Call(0), Call(0)];
    var write := [Begin(1, WriteValue(key, v1)), Call(1), Call(1)];
    var copy, again := [Call(0), Call(0)], [Begin(2, ReadValue(key)), Call(2)];
    RunConcat(w, read + write + copy, again);
    RunConcat(w, read + write, copy);
    RunConcat(w, read, write);
    RaceReads(w, key, v0);
    RaceWrites(key, v0, v1);
    RaceCopies(key, v0, v1);
  }

  lemma RaceReads(w: World, key: Bytes, v0: Bytes)
    requires w == World(map[], map[key := v0], 0, map[], [])
    ensures Run(w, [Begin(0, ReadValue(key)), Call(0), Call(0)])
            == World(map[], map[key := v0], 0, map[0 := Copying(key, v0)], [])
  {
    RunThree(w, Begin(0, ReadValue(key)), Call(0), Call(0));
  }

  lemma RaceWrites(key: Bytes, v0: Bytes, v1: Bytes)
    ensures Run(World(map[], map[key := v0], 0, map[0 := Copying(key, v0)], []),
                [Begin(1, WriteValue(key, v1)), Call(1), Call(1)])
            == World(map[], map[key := v1], 0, map[0 := Copying(key, v0), 1 := Idle],
                     [Outcome(1, WriteValue(key, v1), Done)])
  {
    var w := World(map[], map[key := v0], 0, map[0 := Copying(key, v0)], []);
    RunThree(w, Begin(1, WriteValue(key, v1)), Call(1), Call(1));
  }

  lemma RaceCopies(key: Bytes, v0: Bytes, v1: Bytes)
    ensures var wrote := Outcome(1, WriteValue(key, v1), Done);
            var w2 := World(map[], map[key := v1], 0, map[0 := Copying(key, v0), 1 := Idle], [wrote]);
            var w3 := Run(w2, [Call(0), Call(0)]);
            Run(w3, [Begin(2, ReadValue(key)), Call(2)]).log
            == [wrote, Outcome(0, ReadValue(key), Found(Some(v0))), Outcome(2, ReadValue(key), Found(Some(v0)))]
            && Run(w3, [Begin(2, ReadValue(key)), Call(2)]).rows == map[key := v1]
  {
    var wrote := Outcome(1, WriteValue(key, v1), Done);
    var w2 := World(map[], map[key := v1], 0, map[0 := Copying(key, v0), 1 := Idle], [wrote]);
    RunTwo(w2, Call(0), Call(0));
    var w3 := Run(w2, [Call(0), Call(0)]);
    assert w3.transient == map[key := Entry(v0, Some(CACHE_PROMOTION))];
    assert Purge(w3.transient, 0) == w3.transient;
    RunTwo(w3, Begin(2, ReadValue(key)), Call(2));
  }

  /** Two compare-and-deletes of a row that is cached in memory, the second inside the first. */
  function DoubleWin(key: Bytes, value: Bytes): seq<Label> {
    var match_ := DeleteValueIfMatch(key, value);
    [Begin(0, match_), Call(0)] + [Begin(1, match_), Call(1), Call(1)] + [Call(0)]
  }

  /** The bound of `WinnersAtMostCopies` is reached: one takes the copy, the other the row, and
      both answer true. */
  lemma BothWin(key: Bytes, value: Bytes)
    ensures var w := World(map[key := Entry(value, Some(CACHE_PROMOTION))], map[key := value], 0, map[], []);
            var end := Run(w, DoubleWin(key, value));
            && end.log == [Outcome(1, DeleteValueIfMatch(key, value), Matched(true)),
                           Outcome(0, DeleteValueIfMatch(key, value), Matched(true))]
            && Quiescent(end)
  {
    hide Run;
    var match_ := DeleteValueIfMatch(key, value);
    var w := World(map[key := Entry(value, Some(CACHE_PROMOTION))], map[key := value], 0, map[], []);
    var first, second := [Begin(0, match_), Call(0)], [Begin(1, match_), Call(1), Call(1)];
    RunConcat(w, first + second, [Call(0)]);
    RunConcat(w, first, second);
    RunTwo(w, Begin(0, match_), Call(0));
    FirstTakesCopy(key, value);
    var w1 := World(map[], map[key := value], 0, map[0 := MatchingRow(key, value, true)], []);
    RunThree(w1, Begin(1, match_), Call(1), Call(1));
    var w2 := World(map[], map[], 0, map[0 := MatchingRow(key, value, true), 1 := Idle],
                    [Outcome(1, match_, Matched(true))]);
    SecondTakesRow(key, value);
    RunOne(w2, Call(0));
  }

  lemma RunOne(w: World, a: Label)
    ensures Run(w, [a]) == Step(w, a)
  {
    assert [a][1..] == [];
  }

  lemma FirstTakesCopy(key: Bytes, value: Bytes)
    ensures var w := World(map[key := Entry(value, Some(CACHE_PROMOTION))], map[key := value], 0, map[], []);
            Step(Step(w, Begin(0, DeleteValueIfMatch(key, value))), Call(0))
            == World(map[], map[key := value], 0, map[0 := MatchingRow(key, value, true)], [])
  {
    var m := map[key := Entry(value, Some(CACHE_PROMOTION))];
    assert Purge(m, 0) == m && Remove(m, key) == map[];
  }

  lemma SecondTakesRow(key: Bytes, value: Bytes)
    ensures var match_ := DeleteValueIfMatch(key, value);
            var w := World(map[], map[key := value], 0, map[0 := MatchingRow(key, value, true)], []);
            Step(Step(Step(w, Begin(1, match_)), Call(1)), Call(1))
            == World(map[], map[], 0, map[0 := MatchingRow(key, value, true), 1 := Idle],
                     [Outcome(1, match_, Matched(true))])
  {
    assert Purge(map[], 0) == map[];
    assert map[key := value] - {key} == map[];
  }
}
