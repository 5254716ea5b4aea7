/** The step machine and the sequential bus are one model: a thread that is left alone does
    exactly what the bus operation does. */
module SoloRuns {
  import opened ByteStrings
  import opened FlatStore
  import opened TwoTiers
  import opened Interleaving

  /** The instants at which an operation makes its calls, given the clock readings of those on
      the transient tier. */
  function CallTimes(s: Tiers, now: Instant, t: Readings, op: Op): seq<Instant> {
    match op
    case ReadValue(k) =>
      if k in Purge(s.transient, t.first) then [t.first]
      else if k in s.rows then [t.first, t.first, t.second, t.third]
      else [t.first, t.first]
    case WriteValue(_, _) => [now, t.first]
    case DeleteValue(_) => [t.first, t.first]
    case DeleteValueIfMatch(_, _) => [t.first, t.first]
    case WriteTtl(k, _) => if k in s.rows then [now, now, t.first, t.second] else [now, t.first]
    case WriteValueWithTtl(_, _, _) => [now, t.first]
    case ReadTtlRemaining(_) => [t.first]
    case FindByPrefix(_) => [t.first, t.first]
  }

  predicate Rising(now: Instant, times: seq<Instant>)
    decreases |times|
  {
    times == [] || (now <= times[0] && Rising(times[0], times[1..]))
  }

  /** The labels of one thread making calls at these instants and nothing else happening. */
  function Turns(now: Instant, thread: Thread, times: seq<Instant>): seq<Label>
    requires Rising(now, times)
    decreases |times|
  {
    if times == [] then []
    else [Tick(times[0] - now), Call(thread)] + Turns(times[0], thread, times[1..])
  }

  lemma OneTurn(w: World, thread: Thread, times: seq<Instant>)
    requires times != [] && Rising(w.now, times)
    ensures Run(w, Turns(w.now, thread, times))
            == Run(Advance(w.(now := times[0]), thread), Turns(times[0], thread, times[1..]))
  {
    hide Advance;
    var rest := Turns(times[0], thread, times[1..]);
    RunConcat(w, [Tick(times[0] - w.now), Call(thread)], rest);
    RunTwo(w, Tick(times[0] - w.now), Call(thread));
  }

  lemma TwoRise(now: Instant, a: Instant, b: Instant)
    requires now <= a <= b
    ensures Rising(now, [a]) && Rising(now, [a, b])
  {
    assert [a][1..] == [] && [a, b][1..] == [b] && [b][1..] == [];
    assert Rising(b, []) && Rising(a, [b]);
  }

  lemma FourRise(now: Instant, a: Instant, b: Instant, c: Instant, d: Instant)
    requires now <= a <= b <= c <= d
    ensures Rising(now, [a, b, c, d])
  {
    TwoRise(b, c, d);
    assert [a, b, c, d][1..] == [b, c, d] && [b, c, d][1..] == [c, d];
    assert Rising(a, [b, c, d]);
  }

  lemma TimesRise(s: Tiers, now: Instant, t: Readings, op: Op)
    requires Ascending(now, t)
    ensures Rising(now, CallTimes(s, now, t, op))
  {
    hide Purge, Rising;
    TwoRise(now, now, t.first);
    TwoRise(now, t.first, t.first);
    FourRise(now, t.first, t.first, t.second, t.third);
    FourRise(now, now, now, t.first, t.second);
  }

  /** The world after the operation, as the sequential bus has it. */
  function Alone(w: World, thread: Thread, t: Readings, op: Op): World {
    var s := Tiers(w.transient, w.rows);
    var s' := After(s, t, op);
    World(s'.transient, s'.rows, Moment(s, t, op), w.threads[thread := Idle],
          w.log + [Outcome(thread, op, Result(s, t, op))])
  }

  /** Calls made one after the other by one thread. */
  function Alternate(w: World, thread: Thread, times: seq<Instant>): World
    decreases |times|
  {
    if times == [] then w else Alternate(Advance(w.(now := times[0]), thread), thread, times[1..])
  }

  lemma {:induction false} TurnsAlternate(w: World, thread: Thread, times: seq<Instant>)
    requires Rising(w.now, times)
    ensures Run(w, Turns(w.now, thread, times)) == Alternate(w, thread, times)
    decreases |times|
  {
    hide Advance;
    if times != [] {
      OneTurn(w, thread, times);
      var w' := Advance(w.(now := times[0]), thread);
      assert w'.now == times[0] by { AdvanceKeepsTime(w.(now := times[0]), thread); }
      TurnsAlternate(w', thread, times[1..]);
    }
  }

  lemma AdvanceKeepsTime(w: World, thread: Thread)
    ensures Advance(w, thread).now == w.now
  {
  }

  lemma AlternateShort(w: World, thread: Thread, a: Instant, b: Instant)
    ensures Alternate(w, thread, [a]) == Advance(w.(now := a), thread)
    ensures Alternate(w, thread, [a, b]) == Advance(Advance(w.(now := a), thread).(now := b), thread)
  {
    hide Advance;
    assert [a, b][1..] == [b] && [b][1..] == [];
    assert [a][1..] == [];
    assert Alternate(Advance(w.(now := a), thread), thread, [b])
           == Alternate(Advance(Advance(w.(now := a), thread).(now := b), thread), thread, []);
  }

  lemma AlternateLong(w: World, thread: Thread, a: Instant, b: Instant, c: Instant, d: Instant)
    ensures var v := Advance(Advance(w.(now := a), thread).(now := b), thread);
            Alternate(w, thread, [a, b, c, d]) == Advance(Advance(v.(now := c), thread).(now := d), thread)
  {
    hide Advance;
    var u := Advance(w.(now := a), thread);
    var v := Advance(u.(now := b), thread);
    assert [a, b, c, d][1..] == [b, c, d] && [b, c, d][1..] == [c, d];
    assert Alternate(w, thread, [a, b, c, d]) == Alternate(u, thread, [b, c, d]) == Alternate(v, thread, [c, d]);
    AlternateShort(v, thread, c, d);
  }

  // ----- operation by operation -----

  lemma SoloPromotion(w: World, thread: Thread, t: Readings, key: Bytes)
    requires Ascending(w.now, t) && At(w, thread).Idle? && Promotes(Tiers(w.transient, w.rows), t, key)
    ensures var op, s := ReadValue(key), Tiers(w.transient, w.rows);
            Alternate(Step(w, Begin(thread, op)), thread, CallTimes(s, w.now, t, op)) == Alone(w, thread, t, op)
  {
    hide Alternate, Purge, Put, Expire;
    AlternateLong(Step(w, Begin(thread, ReadValue(key))), thread, t.first, t.first, t.second, t.third);
    PurgeTwice(w.transient, t.first, t.second);
  }

  lemma SoloRead(w: World, thread: Thread, t: Readings, key: Bytes)
    requires Ascending(w.now, t) && At(w, thread).Idle? && !Promotes(Tiers(w.transient, w.rows), t, key)
    ensures var op, s := ReadValue(key), Tiers(w.transient, w.rows);
            Alternate(Step(w, Begin(thread, op)), thread, CallTimes(s, w.now, t, op)) == Alone(w, thread, t, op)
  {
    hide Alternate, Purge;
    AlternateShort(Step(w, Begin(thread, ReadValue(key))), thread, t.first, t.first);
  }

  /** The row of a key that gets a deadline is read and deleted. */
  lemma RowTaken(w: World, thread: Thread, key: Bytes, d: Duration)
    requires At(w, thread).Idle? && key in w.rows
    ensures Advance(Advance(Step(w, Begin(thread, WriteTtl(key, d))), thread), thread)
            == w.(rows := w.rows - {key}, threads := w.threads[thread := Moving(key, w.rows[key], d)])
  {
  }

  lemma SoloMove(w: World, thread: Thread, t: Readings, key: Bytes, d: Duration)
    requires Ascending(w.now, t) && At(w, thread).Idle? && key in w.rows
    ensures var op, s := WriteTtl(key, d), Tiers(w.transient, w.rows);
            Alternate(Step(w, Begin(thread, op)), thread, CallTimes(s, w.now, t, op)) == Alone(w, thread, t, op)
  {
    hide Alternate, Purge, Put, Expire, Step;
    var b := Step(w, Begin(thread, WriteTtl(key, d)));
    RowTaken(w, thread, key, d);
    BeginKeepsTime(w, thread, WriteTtl(key, d));
    AlternateLong(b, thread, w.now, w.now, t.first, t.second);
    var v := Advance(Advance(b, thread), thread);
    hide Advance;
    AdvanceKeepsTime(b, thread);
    MovedThen(w, v, thread, t, key, d);
  }

  lemma BeginKeepsTime(w: World, thread: Thread, op: Op)
    ensures Step(w, Begin(thread, op)).now == w.now
  {
  }

  /** Its value is put into memory and given the deadline. */
  lemma MovedThen(w: World, v: World, thread: Thread, t: Readings, key: Bytes, d: Duration)
    requires key in w.rows
    requires v == w.(rows := w.rows - {key}, threads := w.threads[thread := Moving(key, w.rows[key], d)])
    ensures Advance(Advance(v.(now := t.first), thread).(now := t.second), thread)
            == Alone(w, thread, t, WriteTtl(key, d))
  {
    hide Purge, Put, Expire;
  }

  lemma SoloTtl(w: World, thread: Thread, t: Readings, key: Bytes, d: Duration)
    requires Ascending(w.now, t) && At(w, thread).Idle? && key !in w.rows
    ensures var op, s := WriteTtl(key, d), Tiers(w.transient, w.rows);
            Alternate(Step(w, Begin(thread, op)), thread, CallTimes(s, w.now, t, op)) == Alone(w, thread, t, op)
  {
    hide Alternate, Purge, Expire;
    AlternateShort(Step(w, Begin(thread, WriteTtl(key, d))), thread, w.now, t.first);
  }

  lemma SoloWrite(w: World, thread: Thread, t: Readings, op: Op)
    requires Ascending(w.now, t) && At(w, thread).Idle? && (op.WriteValue? || op.WriteValueWithTtl?)
    ensures var s := Tiers(w.transient, w.rows);
            Alternate(Step(w, Begin(thread, op)), thread, CallTimes(s, w.now, t, op)) == Alone(w, thread, t, op)
  {
    hide Alternate, Purge, Put, PutUntil, Remove, RemoveIfMatch, Find, Remaining, InOrder, WithPrefix, Values;
    var b := Step(w, Begin(thread, op));
    AlternateShort(b, thread, w.now, t.first);
  }

  lemma SoloRemove(w: World, thread: Thread, t: Readings, op: Op)
    requires Ascending(w.now, t) && At(w, thread).Idle? && (op.DeleteValue? || op.DeleteValueIfMatch?)
    ensures var s := Tiers(w.transient, w.rows);
            Alternate(Step(w, Begin(thread, op)), thread, CallTimes(s, w.now, t, op)) == Alone(w, thread, t, op)
  {
    hide Alternate, Purge, Put, PutUntil, Remove, RemoveIfMatch, Find, Remaining, InOrder, WithPrefix, Values;
    var b := Step(w, Begin(thread, op));
    AlternateShort(b, thread, t.first, t.first);
  }

  lemma SoloAsk(w: World, thread: Thread, t: Readings, op: Op)
    requires Ascending(w.now, t) && At(w, thread).Idle? && (op.ReadTtlRemaining?)
    ensures var s := Tiers(w.transient, w.rows);
            Alternate(Step(w, Begin(thread, op)), thread, CallTimes(s, w.now, t, op)) == Alone(w, thread, t, op)
  {
    hide Alternate, Purge, Put, PutUntil, Remove, RemoveIfMatch, Find, Remaining, InOrder, WithPrefix, Values;
    var b := Step(w, Begin(thread, op));
    AlternateShort(b, thread, t.first, t.first);
  }

  lemma SoloScan(w: World, thread: Thread, t: Readings, op: Op)
    requires Ascending(w.now, t) && At(w, thread).Idle? && (op.FindByPrefix?)
    ensures var s := Tiers(w.transient, w.rows);
            Alternate(Step(w, Begin(thread, op)), thread, CallTimes(s, w.now, t, op)) == Alone(w, thread, t, op)
  {
    hide Alternate, Purge, Put, PutUntil, Remove, RemoveIfMatch, Find, Remaining, InOrder, WithPrefix, Values;
    var b := Step(w, Begin(thread, op));
    AlternateShort(b, thread, t.first, t.first);
  }

  /** From any world, a thread that is left alone for one operation, making its calls at the
      given clock readings, ends where the sequential bus ends, with the same answer. */
  lemma SoloIsSequential(w: World, thread: Thread, t: Readings, op: Op)
    requires Ascending(w.now, t) && At(w, thread).Idle?
    ensures var times := CallTimes(Tiers(w.transient, w.rows), w.now, t, op);
            && Rising(w.now, times)
            && Run(w, [Begin(thread, op)] + Turns(w.now, thread, times)) == Alone(w, thread, t, op)
  {
    hide Alone, Alternate, Advance, CallTimes;
    var s := Tiers(w.transient, w.rows);
    var times := CallTimes(s, w.now, t, op);
    TimesRise(s, w.now, t, op);
    RunConcat(w, [Begin(thread, op)], Turns(w.now, thread, times));
    RunOne(w, Begin(thread, op));
    TurnsAlternate(Step(w, Begin(thread, op)), thread, times);
    match op
    case ReadValue(key) =>
      if Promotes(s, t, key) { SoloPromotion(w, thread, t, key); } else { SoloRead(w, thread, t, key); }
    case WriteTtl(key, d) =>
      if key in w.rows { SoloMove(w, thread, t, key, d); } else { SoloTtl(w, thread, t, key, d); }
    case WriteValue(_, _) => SoloWrite(w, thread, t, op);
    case WriteValueWithTtl(_, _, _) => SoloWrite(w, thread, t, op);
    case DeleteValue(_) => SoloRemove(w, thread, t, op);
    case DeleteValueIfMatch(_, _) => SoloRemove(w, thread, t, op);
    case ReadTtlRemaining(_) => SoloAsk(w, thread, t, op);
    case FindByPrefix(_) => SoloScan(w, thread, t, op);
  }
}
