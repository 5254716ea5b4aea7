/** Export of SQL tables from the bus, and what becomes of tables that were imported into it. */
module SqlExport {
  import opened ByteStrings
  import opened ArchivePaths
  import opened FlatStore
  import opened Listings
  import opened PersistentTier
  import opened TransientStore
  import opened TwoTiers
  import opened Permutive
  import opened SqlText
  import opened SqlRows
  import opened SqlSchema

  function TablePrefix(name: Bytes): Bytes {
    name + [COLON]
  }

  // ----- exporting -----

  /** What a scan finds, and how it leaves the tiers. */
  lemma PrefixScanned(s: Tiers, now: Instant, prefix: Bytes, s': Tiers, now': Instant, pairs: seq<Pair>)
    requires Performs(s, now, FindByPrefix(prefix), s', now', Pairs(pairs))
    ensures now <= now' && s' == s.(transient := Purge(s.transient, now'))
    ensures Lists(pairs, WithPrefix(Shown(s, now'), prefix))
    ensures forall i :: 0 <= i < |pairs| ==> StartsWith(pairs[i].0, prefix)
  {
    hide InOrder, Lists, StartsWith, Purge, Values;
    var t :| Ascending(now, t) && s' == After(s, t, FindByPrefix(prefix)) && now' == t.first
             && Pairs(pairs) == Result(s, t, FindByPrefix(prefix));
    PrefixOfOverlay(s.rows, Values(Purge(s.transient, t.first)), prefix);
    var m := Merged(s, t, prefix);
    assert pairs == InOrder(m) && Lists(pairs, m);
    forall i | 0 <= i < |pairs| ensures StartsWith(pairs[i].0, prefix) {
      ListedKey(pairs, m, i);
    }
  }

  /** The rows export makes of the entries it scanned. */
  ghost predicate RowsOf(rows: seq<seq<Bytes>>, pairs: seq<Pair>, name: Bytes, flags: seq<bool>) {
    && |rows| == |pairs|
    && forall i :: 0 <= i < |rows| ==>
         |pairs[i].0| > |name| && rows[i] == RebuiltRow(flags, pairs[i].0[|name| + 1..], Split(pairs[i].1, NEWLINE))
  }

  /** Export of one table's rows: a scan, then each entry is rebuilt. */
  method ExportRows(bus: PermutiveBus, name: Bytes, flags: seq<bool>) returns (rows: seq<seq<Bytes>>)
    requires bus.Valid()
    modifies bus.transient.store, bus.clock
    ensures bus.Valid()
    ensures exists pairs ::
      && Performs(old(bus.State()), old(bus.clock.now), FindByPrefix(TablePrefix(name)), bus.State(), bus.clock.now,
                  Pairs(pairs))
      && RowsOf(rows, pairs, name, flags)
  {
    hide Performs, Agree, Flatten, PersistentTier.Table, Sharded, Split, RebuiltRow, Lists, Shown;
    ghost var s, now := bus.State(), bus.clock.now;
    var pairs := bus.FindByPrefix(TablePrefix(name));
    PrefixScanned(s, now, TablePrefix(name), bus.State(), bus.clock.now, pairs);
    rows := [];
    var i := 0;
    while i < |pairs|
      invariant 0 <= i <= |pairs| && RowsOf(rows, pairs[..i], name, flags)
      modifies {}
    {
      var (key, value) := pairs[i];
      assert StartsWith(pairs[i].0, TablePrefix(name));
      var all := RebuildRow(flags, key[|name| + 1..], value);
      rows := rows + [all];
      i := i + 1;
    }
    assert pairs[..i] == pairs;
  }

  /** A table's name and rows. */
  type Export = (Bytes, seq<seq<Bytes>>)

  /** One table of an export: named by its schema entry, with flags read from that entry and the
      rows the bus showed at one moment. */
  ghost predicate TableExported(s: Tiers, from: Instant, upto: Instant, schema: Pair, out: Export) {
    && StartsWith(schema.0, TablePrefix(SCHEMA)) && out.0 == schema.0[|SCHEMA| + 1..]
    && exists at, pairs ::
         && from <= at <= upto && Lists(pairs, WithPrefix(Shown(s, at), TablePrefix(out.0)))
         && RowsOf(out.1, pairs, out.0, ParsedFlags(ParseSchema(schema.1)))
  }

  /** A whole export: one table for each schema entry the bus showed at one moment. */
  ghost predicate Exported(s: Tiers, now: Instant, now': Instant, tables: seq<Export>) {
    exists at, schemas ::
      && now <= at <= now' && Lists(schemas, WithPrefix(Shown(s, at), TablePrefix(SCHEMA)))
      && |tables| == |schemas|
      && forall i :: 0 <= i < |tables| ==> TableExported(s, at, now', schemas[i], tables[i])
  }

  method ExportTables(bus: PermutiveBus) returns (tables: seq<Export>)
    requires bus.Valid()
    modifies bus.transient.store, bus.clock
    ensures bus.Valid() && Exported(old(bus.State()), old(bus.clock.now), bus.clock.now, tables)
  {
    hide Performs, Agree, Flatten, PersistentTier.Table, Sharded;
    hide Lists, Shown, RowsOf, ParseSchema, Purge, TableExported;
    ghost var s, now := bus.State(), bus.clock.now;
    var schemas := bus.FindByPrefix(TablePrefix(SCHEMA));
    PrefixScanned(s, now, TablePrefix(SCHEMA), bus.State(), bus.clock.now, schemas);
    ghost var at := bus.clock.now;
    tables := [];
    var i := 0;
    while i < |schemas|
      invariant 0 <= i <= |schemas| && |tables| == i && bus.Valid() && at <= bus.clock.now
      invariant bus.State() == s.(transient := Purge(s.transient, bus.clock.now))
      invariant forall j :: 0 <= j < i ==> TableExported(s, at, bus.clock.now, schemas[j], tables[j])
    {
      var (key, value) := schemas[i];
      assert StartsWith(schemas[i].0, TablePrefix(SCHEMA));
      var name := key[|SCHEMA| + 1..];
      ghost var s1, now1 := bus.State(), bus.clock.now;
      var rows := ExportRows(bus, name, ParsedFlags(ParseSchema(value)));
      OneTable(s, at, s1, now1, bus.State(), bus.clock.now, schemas[i], (name, rows));
      forall j | 0 <= j < i ensures TableExported(s, at, bus.clock.now, schemas[j], tables[j]) {
        ExportedLater(s, at, now1, bus.clock.now, schemas[j], tables[j]);
      }
      tables := tables + [(name, rows)];
      i := i + 1;
    }
  }

  lemma OneTable(s: Tiers, at: Instant, s1: Tiers, now1: Instant, s': Tiers, now': Instant, schema: Pair, out: Export)
    requires at <= now1 && s1 == s.(transient := Purge(s.transient, now1))
    requires StartsWith(schema.0, TablePrefix(SCHEMA)) && out.0 == schema.0[|SCHEMA| + 1..]
    requires exists pairs :: Performs(s1, now1, FindByPrefix(TablePrefix(out.0)), s', now', Pairs(pairs))
                             && RowsOf(out.1, pairs, out.0, ParsedFlags(ParseSchema(schema.1)))
    ensures TableExported(s, at, now', schema, out) && s' == s.(transient := Purge(s.transient, now')) && now1 <= now'
  {
    hide Performs, Lists, RowsOf, ParseSchema, StartsWith, Purge, Values, WithPrefix;
    var pairs :| Performs(s1, now1, FindByPrefix(TablePrefix(out.0)), s', now', Pairs(pairs))
                 && RowsOf(out.1, pairs, out.0, ParsedFlags(ParseSchema(schema.1)));
    PrefixScanned(s1, now1, TablePrefix(out.0), s', now', pairs);
    PurgeTwice(s.transient, now1, now');
    assert Shown(s1, now') == Shown(s, now');
  }

  lemma ExportedLater(s: Tiers, from: Instant, upto: Instant, later: Instant, schema: Pair, out: Export)
    requires TableExported(s, from, upto, schema, out) && upto <= later
    ensures TableExported(s, from, later, schema, out)
  {
    hide Lists, RowsOf, ParseSchema, StartsWith, Shown, WithPrefix;
  }
}
