/** Purging lazily, at the next call, against a store that drops each key at the very
    instant its deadline is reached. */
module LazyExpiry {
  import opened ByteStrings
  import opened FlatStore

  // Any nondecreasing clock is a number of one-nanosecond ticks between calls.
  datatype Event = Tick | Call(op: Op)

  /** The tier as it is: nothing happens on a tick, and each call purges first. */
  function LazyAnswers(m: Flat, now: Instant, events: seq<Event>): seq<Answer>
    decreases |events|
  {
    if events == [] then []
    else match events[0]
      case Tick => LazyAnswers(m, now + 1, events[1..])
      case Call(op) =>
        var live := Purge(m, now);
        [Reply(live, now, op)] + LazyAnswers(Effect(live, now, op), now, events[1..])
  }

  /** Drop the keys whose deadline is this very instant. */
  function DropAt(m: Flat, now: Instant): Flat {
    map k | k in m && m[k].deadline != Some(now) :: m[k]
  }

  /** The ideal: keys vanish when their deadline arrives, and calls never purge. */
  function EagerAnswers(m: Flat, now: Instant, events: seq<Event>): seq<Answer>
    decreases |events|
  {
    if events == [] then []
    else match events[0]
      case Tick => EagerAnswers(DropAt(m, now + 1), now + 1, events[1..])
      case Call(op) =>
        [Reply(m, now, op)] + EagerAnswers(DropAt(Effect(m, now, op), now), now, events[1..])
  }

  lemma DropNext(m: Flat, now: Instant)
    ensures DropAt(Purge(m, now), now + 1) == Purge(m, now + 1)
  {
  }

  /** No call leaves an entry that is overdue; at most, one is due this very instant. */
  lemma NoneOverdue(m: Flat, now: Instant, op: Op)
    ensures var after := Effect(Purge(m, now), now, op);
            forall k :: k in after && after[k].deadline.Some? ==> now <= after[k].deadline.value
  {
    hide InOrder, WithPrefix, Values;
  }

  lemma DropIsPurge(m: Flat, now: Instant)
    requires forall k :: k in m && m[k].deadline.Some? ==> now <= m[k].deadline.value
    ensures DropAt(m, now) == Purge(m, now)
  {
  }

  /** No run of calls can tell lazy purging from eager expiry. */
  lemma {:induction false} LazyIsEager(m: Flat, now: Instant, events: seq<Event>)
    ensures LazyAnswers(m, now, events) == EagerAnswers(Purge(m, now), now, events)
    decreases |events|
  {
    hide Purge, Effect, Reply, DropAt;
    if events != [] {
      match events[0]
      case Tick =>
        LazyIsEager(m, now + 1, events[1..]);
        DropNext(m, now);
      case Call(op) =>
        var after := Effect(Purge(m, now), now, op);
        LazyIsEager(after, now, events[1..]);
        NoneOverdue(m, now, op);
        DropIsPurge(after, now);
    }
  }

  /** How many compare-and-deletes of `key` succeed in a run. */
  function Wins(m: Flat, now: Instant, events: seq<Event>, key: Bytes): nat
    decreases |events|
  {
    if events == [] then 0
    else match events[0]
      case Tick => Wins(m, now + 1, events[1..], key)
      case Call(op) =>
        var live := Purge(m, now);
        (if op.DeleteValueIfMatch? && op.key == key && Reply(live, now, op) == Matched(true) then 1 else 0)
        + Wins(Effect(live, now, op), now, events[1..], key)
  }

  function WritesOf(events: seq<Event>, key: Bytes): nat {
    if events == [] then 0
    else
      (if events[0].Call? && (events[0].op.WriteValue? || events[0].op.WriteValueWithTtl?) && events[0].op.key == key
       then 1 else 0)
      + WritesOf(events[1..], key)
  }

  /** Each write is consumed by at most one compare-and-delete. */
  lemma {:induction false} WinsBoundedByWrites(m: Flat, now: Instant, events: seq<Event>, key: Bytes)
    ensures Wins(m, now, events, key) <= WritesOf(events, key) + if key in m then 1 else 0
    decreases |events|
  {
    if events != [] {
      match events[0]
      case Tick => WinsBoundedByWrites(m, now + 1, events[1..], key);
      case Call(op) => WinsBoundedByWrites(Effect(Purge(m, now), now, op), now, events[1..], key);
    }
  }

  /** The only calls on the key read it, or are compare-and-deletes, whatever they expect. */
  predicate Contends(op: Op, key: Bytes) {
    ConcernsKey(op, key) ==> op.ReadValue? || op.ReadTtlRemaining? || op.DeleteValueIfMatch?
  }

  ghost predicate Contended(events: seq<Event>, key: Bytes) {
    forall e :: e in events && e.Call? ==> Contends(e.op, key)
  }

  /** When the first compare-and-delete comes that expects the value. */
  function FirstTry(now: Instant, events: seq<Event>, key: Bytes, value: Bytes): Option<Instant>
    decreases |events|
  {
    if events == [] then None
    else match events[0]
      case Tick => FirstTry(now + 1, events[1..], key, value)
      case Call(op) =>
        if op == DeleteValueIfMatch(key, value) then Some(now) else FirstTry(now, events[1..], key, value)
  }

  /** Contention for one value: of all compare-and-deletes exactly one wins if the first that
      expects the value comes before the deadline, and none otherwise, whatever the others
      expect, whoever reads the key and whatever happens to other keys. */
  lemma {:induction false} ExactlyOneWinner(m: Flat, now: Instant, events: seq<Event>, key: Bytes, value: Bytes)
    requires key in m && m[key].value == value && Contended(events, key)
    ensures var first := FirstTry(now, events, key, value);
            Wins(m, now, events, key) == if first.Some? && Live(m[key], first.value) then 1 else 0
    decreases |events|
  {
    hide Purge, Effect, Reply;
    if events != [] {
      var tail := events[1..];
      assert Contended(tail, key) by { assert forall e :: e in tail ==> e in events; }
      assert events[0] in events;
      match events[0]
      case Tick => ExactlyOneWinner(m, now + 1, tail, key, value);
      case Call(op) =>
        var m' := Effect(Purge(m, now), now, op);
        OneCall(m, now, op, key, value);
        if key in m' {
          ExactlyOneWinner(m', now, tail, key, value);
        } else {
          FirstTryLater(now, tail, key, value);
          NoWinnerWithoutValue(m', now, tail, key);
        }
    }
  }

  /** A call leaves the key to the clock, unless it is the first try: that takes a live value. */
  lemma OneCall(m: Flat, now: Instant, op: Op, key: Bytes, value: Bytes)
    requires key in m && m[key].value == value && Contends(op, key)
    ensures var live, tries := Purge(m, now), op == DeleteValueIfMatch(key, value);
            var m' := Effect(live, now, op);
            && (key in m' <==> Live(m[key], now) && !tries)
            && (key in m' ==> m'[key] == m[key])
            && (op.DeleteValueIfMatch? && op.key == key ==> Reply(live, now, op) == Matched(tries && Live(m[key], now)))
  {
    hide InOrder, WithPrefix, Values;
  }

  lemma {:induction false} FirstTryLater(now: Instant, events: seq<Event>, key: Bytes, value: Bytes)
    ensures FirstTry(now, events, key, value).Some? ==> now <= FirstTry(now, events, key, value).value
    decreases |events|
  {
    if events != [] {
      FirstTryLater(now + 1, events[1..], key, value);
      FirstTryLater(now, events[1..], key, value);
    }
  }

  lemma {:induction false} NoWinnerWithoutValue(m: Flat, now: Instant, events: seq<Event>, key: Bytes)
    requires key !in m && Contended(events, key)
    ensures Wins(m, now, events, key) == 0
    decreases |events|
  {
    if events != [] {
      var tail := events[1..];
      assert Contended(tail, key) by { assert forall e :: e in tail ==> e in events; }
      assert events[0] in events;
      match events[0]
      case Tick => NoWinnerWithoutValue(m, now + 1, tail, key);
      case Call(op) => NoWinnerWithoutValue(Effect(Purge(m, now), now, op), now, tail, key);
    }
  }
}
