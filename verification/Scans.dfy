/** Prefix scans under concurrency: a scan looks at memory first and at the rows later, and
    other threads may move a key from the one to the other in between. */
module Scans {
  import opened ByteStrings
  import opened FlatStore
  import opened Listings
  import opened TwoTiers
  import opened Interleaving
  import opened Linearity

  // ----- a scan can miss a key -----

  /** A scan of everything, around a `write_ttl` that moves a row to memory. */
  function Evasion(key: Bytes, duration: Duration): seq<Label> {
    [Begin(0, FindByPrefix([])), Call(0)]
    + ([Begin(1, WriteTtl(key, duration)), Call(1), Call(1)] + ([Call(1), Call(1)] + [Call(0)]))
  }

  /** The scan finds nothing, though the key has its value before and after. */
  lemma ScanMisses(key: Bytes, value: Bytes, duration: Duration)
    requires duration > 0
    ensures var w := World(map[], map[key := value], 0, map[], []);
            var end := Run(w, Evasion(key, duration));
            && end.log == [Outcome(1, WriteTtl(key, duration), Done), Outcome(0, FindByPrefix([]), Pairs([]))]
            && Held(w.transient, w.rows, w.now, key) == Some(Entry(value, None))
            && Held(end.transient, end.rows, end.now, key) == Some(Entry(value, Some(duration)))
  {
    hide Run, Step, Held;
    var w := World(map[], map[key := value], 0, map[], []);
    var move, set_ := [Begin(1, WriteTtl(key, duration)), Call(1), Call(1)], [Call(1), Call(1)];
    RunConcat(w, [Begin(0, FindByPrefix([])), Call(0)], move + (set_ + [Call(0)]));
    LooksInMemory(key, value);
    var w1 := World(map[], map[key := value], 0, map[0 := ScanningRows([], map[])], []);
    RunConcat(w1, move, set_ + [Call(0)]);
    TakesRow(key, value, duration);
    var w2 := World(map[], map[], 0, map[0 := ScanningRows([], map[]), 1 := Moving(key, value, duration)], []);
    RunConcat(w2, set_, [Call(0)]);
    PutsInMemory(key, value, duration);
    var moved := map[key := Entry(value, Some(duration))];
    var w3 := World(moved, map[], 0, map[0 := ScanningRows([], map[]), 1 := Idle],
                    [Outcome(1, WriteTtl(key, duration), Done)]);
    RunOne(w3, Call(0));
    LooksInRows(key, value, duration);
    HeldByEither(key, value, duration);
  }

  lemma LooksInMemory(key: Bytes, value: Bytes)
    ensures Run(World(map[], map[key := value], 0, map[], []), [Begin(0, FindByPrefix([])), Call(0)])
            == World(map[], map[key := value], 0, map[0 := ScanningRows([], map[])], [])
  {
    RunTwo(World(map[], map[key := value], 0, map[], []), Begin(0, FindByPrefix([])), Call(0));
    assert Purge(map[], 0) == map[] && WithPrefix(Values(map[]), []) == map[];
  }

  lemma TakesRow(key: Bytes, value: Bytes, d: Duration)
    ensures Run(World(map[], map[key := value], 0, map[0 := ScanningRows([], map[])], []),
                [Begin(1, WriteTtl(key, d)), Call(1), Call(1)])
            == World(map[], map[], 0, map[0 := ScanningRows([], map[]), 1 := Moving(key, value, d)], [])
  {
    RunThree(World(map[], map[key := value], 0, map[0 := ScanningRows([], map[])], []),
             Begin(1, WriteTtl(key, d)), Call(1), Call(1));
    assert map[key := value] - {key} == map[];
  }

  lemma PutsInMemory(key: Bytes, value: Bytes, d: Duration)
    ensures Run(World(map[], map[], 0, map[0 := ScanningRows([], map[]), 1 := Moving(key, value, d)], []),
                [Call(1), Call(1)])
            == World(map[key := Entry(value, Some(d))], map[], 0, map[0 := ScanningRows([], map[]), 1 := Idle],
                     [Outcome(1, WriteTtl(key, d), Done)])
  {
    RunTwo(World(map[], map[], 0, map[0 := ScanningRows([], map[]), 1 := Moving(key, value, d)], []), Call(1), Call(1));
    assert Purge(map[], 0) == map[];
    assert Purge(map[key := Entry(value, None)], 0) == map[key := Entry(value, None)];
  }

  lemma LooksInRows(key: Bytes, value: Bytes, d: Duration)
    ensures var done := Outcome(1, WriteTtl(key, d), Done);
            var m, threads := map[key := Entry(value, Some(d))], map[0 := ScanningRows([], map[]), 1 := Idle];
            Step(World(m, map[], 0, threads, [done]), Call(0))
            == World(m, map[], 0, map[0 := Idle, 1 := Idle], [done, Outcome(0, FindByPrefix([]), Pairs([]))])
  {
    assert WithPrefix(map[], []) + map[] == map[];
    assert InOrder(map[]) == [];
  }

  lemma HeldByEither(key: Bytes, value: Bytes, d: Duration)
    requires d > 0
    ensures Held(map[], map[key := value], 0, key) == Some(Entry(value, None))
    ensures Held(map[key := Entry(value, Some(d))], map[], 0, key) == Some(Entry(value, Some(d)))
  {
  }

  // ----- what a scan does see -----

  /** The second call of a scan whose first call was made in `w`. */
  ghost predicate BetweenCalls(w: World, t: Thread, prefix: Bytes, more: seq<Label>) {
    At(w, t) == Scanning(prefix) && At(Run(Advance(w, t), more), t) == At(Advance(w, t), t)
  }

  /** The rows' part of the answer and memory's part say of a key at rest what the tiers held. */
  lemma MergedAt(w: World, t: Thread, prefix: Bytes, more: seq<Label>, key: Bytes)
    requires BetweenCalls(w, t, prefix, more) && NoneBegin(more, key)
    requires Unused(w, key) && CopyAgrees(w.transient, w.rows, w.now, key)
    ensures var held := Held(w.transient, w.rows, w.now, key);
            var merged := WithPrefix(Run(Advance(w, t), more).rows, prefix)
                          + WithPrefix(Values(Purge(w.transient, w.now)), prefix);
            && (key in merged <==> StartsWith(key, prefix) && held.Some?)
            && (key in merged ==> merged[key] == held.value.value)
  {
    hide Run, Advance, StartsWith;
    StepRests(w, Call(t), key);
    RunRests(Advance(w, t), more, key);
  }

  lemma SecondCall(w: World, t: Thread, prefix: Bytes, more: seq<Label>)
    requires BetweenCalls(w, t, prefix, more)
    ensures var mid := Run(Advance(w, t), more);
            Completes(At(mid, t), mid.transient, mid.rows, mid.now)
            == Some((FindByPrefix(prefix),
                     Pairs(InOrder(WithPrefix(mid.rows, prefix)
                                   + WithPrefix(Values(Purge(w.transient, w.now)), prefix)))))
  {
    hide Run, InOrder, WithPrefix;
  }

  /** A key that no operation is at work on during a scan is in the scan's answer exactly if it
      has the prefix and an entry when the scan begins, with that entry's value, whatever other
      threads do to other keys. */
  lemma ScanSeesQuietKey(w: World, t: Thread, prefix: Bytes, more: seq<Label>, key: Bytes, value: Bytes)
    requires BetweenCalls(w, t, prefix, more) && NoneBegin(more, key)
    requires Unused(w, key) && CopyAgrees(w.transient, w.rows, w.now, key)
    ensures var mid := Run(Advance(w, t), more);
            var done := Completes(At(mid, t), mid.transient, mid.rows, mid.now);
            var held := Held(w.transient, w.rows, w.now, key);
            && done.Some? && done.value.0 == FindByPrefix(prefix) && done.value.1.Pairs?
            && ((key, value) in done.value.1.pairs <==>
                StartsWith(key, prefix) && held.Some? && held.value.value == value)
  {
    hide Run, Advance, InOrder, WithPrefix, Completes, Held, CopyAgrees, StartsWith;
    MergedAt(w, t, prefix, more, key);
    SecondCall(w, t, prefix, more);
    var merged := WithPrefix(Run(Advance(w, t), more).rows, prefix)
                  + WithPrefix(Values(Purge(w.transient, w.now)), prefix);
    InOrderHas(merged, key, value);
  }

  /** If that goes for every key with the prefix, the scan is atomic: it answers as the flat map
      does at its first call. */
  lemma QuietScanIsAtomic(w: World, t: Thread, prefix: Bytes, more: seq<Label>)
    requires BetweenCalls(w, t, prefix, more)
    requires forall key :: StartsWith(key, prefix) ==>
               NoneBegin(more, key) && Unused(w, key) && CopyAgrees(w.transient, w.rows, w.now, key)
    ensures var mid := Run(Advance(w, t), more);
            Completes(At(mid, t), mid.transient, mid.rows, mid.now)
            == Some((FindByPrefix(prefix), Reply(View(Tiers(w.transient, w.rows), w.now), w.now, FindByPrefix(prefix))))
  {
    hide Run, Advance, InOrder, Completes, Held, CopyAgrees, StartsWith, Unused, NoneBegin, BetweenCalls, View;
    SecondCall(w, t, prefix, more);
    var merged := WithPrefix(Run(Advance(w, t), more).rows, prefix)
                  + WithPrefix(Values(Purge(w.transient, w.now)), prefix);
    var shown := WithPrefix(Values(View(Tiers(w.transient, w.rows), w.now)), prefix);
    forall key
      ensures key in merged <==> key in shown
      ensures key in merged ==> merged[key] == shown[key]
    {
      if StartsWith(key, prefix) {
        MergedAt(w, t, prefix, more, key);
        ViewHolds(w, key);
      }
    }
    assert merged == shown;
  }

  lemma ViewHolds(w: World, key: Bytes)
    ensures var m := View(Tiers(w.transient, w.rows), w.now);
            Held(w.transient, w.rows, w.now, key) == if key in m then Some(m[key]) else None
  {
  }
}
