/** SQL tables through the bus and back: what an export gives of the tables an import wrote. */
module SqlRoundtrip {
  import opened ByteStrings
  import opened Utf8
  import opened FlatStore
  import opened Listings
  import opened PersistentTier
  import opened TransientStore
  import opened TwoTiers
  import opened Permutive
  import opened ArchivePaths
  import opened Dumps
  import opened SqlText
  import opened SqlRows
  import opened SqlSchema
  import opened SqlImport
  import opened SqlExport

  // ----- what untimed records leave -----

  /** Each key's last record. */
  function Laid(records: seq<Record>): Rows {
    if records == [] then map[]
    else
      var last := records[|records| - 1];
      Laid(records[..|records| - 1])[last.key := last.value]
  }

  lemma {:induction false} LaidConcat(a: seq<Record>, b: seq<Record>)
    ensures Laid(a + b) == Laid(a) + Laid(b)
    decreases |b|
  {
    if b == [] {
      assert a + b == a;
    } else {
      var n := |b| - 1;
      assert (a + b)[..|a| + n] == a + b[..n];
      LaidConcat(a, b[..n]);
    }
  }

  lemma {:induction false} LaidKeys(records: seq<Record>)
    ensures Laid(records).Keys == KeysOfRecords(records)
  {
    if records != [] {
      var n := |records| - 1;
      LaidKeys(records[..n]);
      assert KeysOfRecords(records) == KeysOfRecords(records[..n]) + {records[n].key} by {
        assert records == records[..n] + [records[n]];
      }
    }
  }

  ghost predicate AllUntimed(records: seq<Record>) {
    forall r :: r in records ==> r.ttl == 0
  }

  /** Records without lifetimes are laid over what the bus held. */
  lemma {:induction false} RestoredUntimed(s: Tiers, now: Instant, records: seq<Record>, s': Tiers, now': Instant)
    requires Coherent(s, now) && Restored(s, now, records, s', now') && AllUntimed(records)
    ensures now <= now' && Coherent(s', now')
    ensures View(s', now') == Purge(View(s, now), now') + Untimed(Laid(records))
    decreases |records|
  {
    hide RestoredOne, View, Coherent, Purge, Untimed;
    if records == [] {
      ViewLater(s, now, now);
      assert Untimed(Laid(records)) == map[] by { NothingUntimed(); }
    } else {
      var n := |records| - 1;
      var last := records[n];
      var s1, now1 :| Restored(s, now, records[..n], s1, now1) && RestoredOne(s1, now1, last, s', now');
      RestoredUntimed(s, now, records[..n], s1, now1);
      RestoredOneView(s1, now1, last, s', now');
      LayOne(View(s, now), now1, now', Laid(records[..n]), last);
    }
  }

  lemma NothingUntimed()
    ensures Untimed(map[]) == map[]
  {
  }

  lemma LayOne(m: Flat, a: Instant, b: Instant, laid: Rows, r: Record)
    requires a <= b
    ensures Put(Purge(Purge(m, a) + Untimed(laid), b), r.key, r.value) == Purge(m, b) + Untimed(laid[r.key := r.value])
  {
    var x := Put(Purge(Purge(m, a) + Untimed(laid), b), r.key, r.value);
    var y := Purge(m, b) + Untimed(laid[r.key := r.value]);
    forall k ensures SameAt(x, y, k) {}
    SameEverywhere(x, y);
  }

  /** What a later scan shows of it. */
  lemma ShownLater(s: Tiers, now: Instant, records: seq<Record>, s': Tiers, now': Instant, at: Instant, prefix: Bytes)
    requires Coherent(s, now) && Restored(s, now, records, s', now') && AllUntimed(records) && now' <= at
    ensures WithPrefix(Shown(s', at), prefix) == Before(s, now, at, prefix) + WithPrefix(Laid(records), prefix)
  {
    hide View, Coherent, Restored, AllUntimed, WithPrefix, Shown, Purge;
    RestoredUntimed(s, now, records, s', now');
    ViewValues(s', now', at);
    assert Shown(s', at) == Values(View(s', at)) by { ShownIsView(s', now', at); }
    ViewLater(s', now', at);
    ViewLater(s, now, at);
    ShownLaid(View(s, now), now', at, Laid(records));
    PrefixOfOverlay(Values(Purge(View(s, now), at)), Laid(records), prefix);
  }

  lemma ShownIsView(s: Tiers, now: Instant, at: Instant)
    requires Coherent(s, now) && now <= at
    ensures Shown(s, at) == Values(View(s, at))
  {
    ViewValues(s, now, at);
  }

  lemma ShownLaid(m: Flat, a: Instant, at: Instant, laid: Rows)
    requires a <= at
    ensures Values(Purge(Purge(m, a) + Untimed(laid), at)) == Values(Purge(m, at)) + laid
  {
  }

  /** The entries under a prefix that were there before and have not expired by `at`. */
  function Before(s: Tiers, now: Instant, at: Instant, prefix: Bytes): Rows {
    WithPrefix(Values(Purge(View(s, now), at)), prefix)
  }

  // ----- whose records are whose -----

  /** Tables with distinct, usable names that are not those of schemas or relations. */
  ghost predicate WellNamed(tables: seq<Table>) {
    && (forall i, j :: 0 <= i < j < |tables| ==> tables[i].name != tables[j].name)
    && forall t :: t in tables ==> IsPlainName(t.name)
  }

  predicate IsPlainName(name: Bytes) {
    name != [] && COLON !in name && SLASH !in name && name != REL && name != SCHEMA
  }

  lemma OwnPrefix(name: Bytes, rest: Bytes, other: Bytes)
    requires COLON !in name && COLON !in other
    ensures StartsWith(name + [COLON] + rest, TablePrefix(other)) <==> name == other
    ensures UpToColon(name + [COLON] + rest) == Some(name)
  {
    var key := name + [COLON] + rest;
    assert key[..|name| + 1] == TablePrefix(name);
    TableOfKey(name, key);
    if StartsWith(key, TablePrefix(other)) { TableOfKey(other, key); }
  }

  lemma NamesAreColonFree()
    ensures COLON !in REL && COLON !in SCHEMA && REL != SCHEMA && REL != [] && SCHEMA != []
    ensures SLASH !in REL && SLASH !in SCHEMA
  {
    assert |REL| == 4 && |SCHEMA| == 7;
  }

  /** Of a row's records, those under a table's prefix are the row itself, if it is that table's. */
  lemma JobUnder(job: Job, name: Bytes)
    requires COLON !in job.table.name && COLON !in name && name != REL
    ensures AllUntimed(JobRecords(job))
    ensures WithPrefix(Laid(JobRecords(job)), TablePrefix(name)) ==
            if IsAccepted(job) && job.table.name == name
            then map[RowKey(job.table, job.values) := RowValue(job.table, job.values)] else map[]
  {
    hide RelationRecords, RowKey, RowValue, REL, WithPrefix, Laid, KeyParts;
    if IsAccepted(job) {
      var row := Record(RowKey(job.table, job.values), RowValue(job.table, job.values), 0);
      var markers := RelationRecords(job.table, job.table.foreignKeys, job.values);
      MarkersUnderRel(job.table, job.table.foreignKeys, job.values);
      assert JobRecords(job) == [row] + markers;
      LaidConcat([row], markers);
      PrefixOfOverlay(Laid([row]), Laid(markers), TablePrefix(name));
      MarkersNotUnder(markers, name);
      RowItself(job.table, job.values, name);
    } else {
      NothingLaid(TablePrefix(name));
    }
  }

  lemma NothingLaid(prefix: Bytes)
    ensures WithPrefix(Laid([]), prefix) == map[]
  {
  }

  lemma RowItself(table: Table, values: seq<Bytes>, name: Bytes)
    requires |values| == |table.columns| && COLON !in table.name && COLON !in name
    ensures var (key, value) := (RowKey(table, values), RowValue(table, values));
            WithPrefix(Laid([Record(key, value, 0)]), TablePrefix(name))
            == (if table.name == name then map[key := value] else map[])
            && UpToColon(key) == Some(table.name)
  {
    hide Join, KeyParts, OtherValues, StartsWith;
    var row := Record(RowKey(table, values), RowValue(table, values), 0);
    var keyText := row.key[|table.name| + 1..];
    assert row.key == table.name + [COLON] + keyText;
    OwnPrefix(table.name, keyText, name);
    assert [row][..0] == [];
    assert Laid([row]) == map[row.key := row.value];
  }

  lemma MarkersNotUnder(markers: seq<Record>, name: Bytes)
    requires COLON !in name && name != REL && forall r :: r in markers ==> UpToColon(r.key) == Some(REL)
    ensures WithPrefix(Laid(markers), TablePrefix(name)) == map[]
  {
    hide REL, StartsWith;
    LaidKeys(markers);
    forall k | k in Laid(markers) ensures !StartsWith(k, TablePrefix(name)) {
      var r :| r in markers && r.key == k;
      if StartsWith(k, TablePrefix(name)) { TableOfKey(name, k); }
    }
  }

  /** The rows an import has for a table, in order. */
  function RowsFor(jobs: seq<Job>, name: Bytes): seq<Job> {
    if jobs == [] then []
    else
      var last := jobs[|jobs| - 1];
      RowsFor(jobs[..|jobs| - 1], name) + if IsAccepted(last) && last.table.name == name then [last] else []
  }

  /** Their entries: for each key the last row. */
  function Entries(jobs: seq<Job>): Rows
    requires forall j :: j in jobs ==> IsAccepted(j)
  {
    if jobs == [] then map[]
    else
      var last := jobs[|jobs| - 1];
      assert last in jobs && IsAccepted(last);
      Entries(jobs[..|jobs| - 1])[RowKey(last.table, last.values) := RowValue(last.table, last.values)]
  }

  lemma {:induction false} RowsForAccepted(jobs: seq<Job>, name: Bytes)
    ensures forall j :: j in RowsFor(jobs, name) ==> j in jobs && IsAccepted(j) && j.table.name == name
  {
    hide IsAccepted;
    if jobs != [] { RowsForAccepted(jobs[..|jobs| - 1], name); }
  }

  lemma {:induction false} RowsUnder(jobs: seq<Job>, name: Bytes)
    requires COLON !in name && name != REL && forall j :: j in jobs ==> COLON !in j.table.name
    ensures AllUntimed(RecordsOf(jobs))
    ensures (forall j :: j in RowsFor(jobs, name) ==> IsAccepted(j))
            && WithPrefix(Laid(RecordsOf(jobs)), TablePrefix(name)) == Entries(RowsFor(jobs, name))
    decreases |jobs|
  {
    hide IsAccepted, JobRecords, WithPrefix, REL;
    RowsForAccepted(jobs, name);
    if jobs == [] {
      NothingUnder(TablePrefix(name));
    } else {
      var n := |jobs| - 1;
      RowsUnder(jobs[..n], name);
      RowUnder(jobs[..n], jobs[n], name);
    }
  }

  lemma NothingUnder(prefix: Bytes)
    ensures WithPrefix(map[], prefix) == map[]
  {
  }

  lemma RowUnder(init: seq<Job>, last: Job, name: Bytes)
    requires COLON !in name && name != REL && COLON !in last.table.name
    requires forall j :: j in RowsFor(init, name) ==> IsAccepted(j)
    requires WithPrefix(Laid(RecordsOf(init)), TablePrefix(name)) == Entries(RowsFor(init, name))
    ensures var mine := RowsFor(init, name) + if IsAccepted(last) && last.table.name == name then [last] else [];
            && (forall j :: j in mine ==> IsAccepted(j))
            && WithPrefix(Laid(RecordsOf(init) + JobRecords(last)), TablePrefix(name)) == Entries(mine)
    ensures AllUntimed(JobRecords(last))
  {
    hide IsAccepted, JobRecords, RowKey, RowValue, WithPrefix, Laid, Entries, RecordsOf, RowsFor, REL, AllUntimed;
    var own := IsAccepted(last) && last.table.name == name;
    JobUnder(last, name);
    LaidConcat(RecordsOf(init), JobRecords(last));
    PrefixOfOverlay(Laid(RecordsOf(init)), Laid(JobRecords(last)), TablePrefix(name));
    var before := RowsFor(init, name);
    if own {
      EntriesPush(before, last);
    } else {
      assert before + [] == before;
      assert Entries(before) + map[] == Entries(before);
    }
  }

  lemma EntriesPush(jobs: seq<Job>, job: Job)
    requires (forall j :: j in jobs ==> IsAccepted(j)) && IsAccepted(job)
    ensures Entries(jobs + [job])
            == Entries(jobs) + map[RowKey(job.table, job.values) := RowValue(job.table, job.values)]
  {
    hide IsAccepted, RowKey, RowValue;
    assert (jobs + [job])[..|jobs|] == jobs;
  }

  // ----- the records of a whole import -----

  lemma {:induction false} JobTables(tables: seq<Table>, inserts: seq<Insert>)
    ensures forall j :: j in Jobs(tables, inserts) ==> j.table in tables
  {
    if inserts != [] { JobTables(tables, inserts[..|inserts| - 1]); }
  }

  lemma {:induction false} SchemasApart(tables: seq<Table>, name: Bytes)
    requires COLON !in name && name != SCHEMA
    ensures AllUntimed(SchemaRecords(tables))
    ensures WithPrefix(Laid(SchemaRecords(tables)), TablePrefix(name)) == map[]
  {
    hide SCHEMA, StartsWith, RenderSchema;
    NamesAreColonFree();
    if tables != [] {
      var n := |tables| - 1;
      SchemasApart(tables[..n], name);
      OwnPrefix(SCHEMA, tables[n].name, name);
      var init := SchemaRecords(tables[..n]);
      var last := Record(SchemaKey(tables[n].name), RenderSchema(tables[n], tables[n].columns), 0);
      assert SchemaRecords(tables)[..|init|] == init;
    }
  }

  lemma {:induction false} SchemaLaid(tables: seq<Table>, i: nat)
    requires WellNamed(tables) && i < |tables|
    ensures var key := SchemaKey(tables[i].name);
            && key in Laid(SchemaRecords(tables))
            && Laid(SchemaRecords(tables))[key] == RenderSchema(tables[i], tables[i].columns)
    decreases |tables|
  {
    hide SCHEMA, RenderSchema, IsPlainName;
    var n := |tables| - 1;
    var init := SchemaRecords(tables[..n]);
    assert SchemaRecords(tables)[..|init|] == init;
    if i < n {
      SchemaLaid(tables[..n], i);
      SchemaKeysDiffer(tables[i].name, tables[n].name);
    }
  }

  lemma SchemaKeysDiffer(a: Bytes, b: Bytes)
    requires a != b
    ensures SchemaKey(a) != SchemaKey(b)
  {
    var n := |SCHEMA| + 1;
    assert SchemaKey(a)[n..] == a && SchemaKey(b)[n..] == b;
  }

  /** Under a table's prefix an import leaves the table's rows, and under that of schemas every
      table's schema. */
  lemma ImportUnder(tables: seq<Table>, inserts: seq<Insert>, i: nat)
    requires WellNamed(tables) && i < |tables|
    ensures AllUntimed(ImportRecords(tables, inserts))
    ensures var (laid, rows) := (Laid(ImportRecords(tables, inserts)), RowsFor(Jobs(tables, inserts), tables[i].name));
            var schemas := WithPrefix(laid, TablePrefix(SCHEMA));
            && (forall j :: j in rows ==> IsAccepted(j))
            && WithPrefix(laid, TablePrefix(tables[i].name)) == Entries(rows)
            && SchemaKey(tables[i].name) in schemas
            && schemas[SchemaKey(tables[i].name)] == RenderSchema(tables[i], tables[i].columns)
  {
    hide SCHEMA, REL, RenderSchema, RecordsOf, SchemaRecords, StartsWith, Laid, Entries, RowsFor, SchemaKey;
    NamesAreColonFree();
    var (name, jobs) := (tables[i].name, Jobs(tables, inserts));
    assert IsPlainName(name);
    JobTables(tables, inserts);
    assert forall j :: j in jobs ==> IsPlainName(j.table.name);
    LaidConcat(SchemaRecords(tables), RecordsOf(jobs));
    RowsUnder(jobs, name);
    SchemasApart(tables, name);
    PrefixOfOverlay(Laid(SchemaRecords(tables)), Laid(RecordsOf(jobs)), TablePrefix(name));
    RowsUnder(jobs, SCHEMA);
    NoRowsFor(jobs, SCHEMA);
    PrefixOfOverlay(Laid(SchemaRecords(tables)), Laid(RecordsOf(jobs)), TablePrefix(SCHEMA));
    SchemaLaid(tables, i);
    SchemaKeyUnder(name);
    InPrefix(Laid(SchemaRecords(tables)), TablePrefix(SCHEMA), SchemaKey(name));
  }

  lemma SchemaKeyUnder(name: Bytes)
    ensures StartsWith(SchemaKey(name), TablePrefix(SCHEMA))
  {
    assert SchemaKey(name)[..|SCHEMA| + 1] == TablePrefix(SCHEMA);
  }

  lemma InPrefix(m: Rows, prefix: Bytes, key: Bytes)
    requires key in m && StartsWith(key, prefix)
    ensures key in WithPrefix(m, prefix) && WithPrefix(m, prefix)[key] == m[key]
  {
  }

  lemma {:induction false} NoRowsFor(jobs: seq<Job>, name: Bytes)
    requires forall j :: j in jobs ==> j.table.name != name
    ensures RowsFor(jobs, name) == [] && Entries(RowsFor(jobs, name)) == map[]
  {
    hide IsAccepted;
    if jobs != [] { NoRowsFor(jobs[..|jobs| - 1], name); }
  }

  /** Start-up never misses a file that well-named tables live in. */
  lemma ImportNeverMissed(tables: seq<Table>, inserts: seq<Insert>, shelved: Files)
    requires WellNamed(tables) && forall ns :: ns in shelved ==> !Reloadable(ns)
    ensures NoneShelved(ImportRecords(tables, inserts), shelved)
  {
    hide SCHEMA, RenderSchema, Namespace, Reloadable, IsPlainName;
    JobTables(tables, inserts);
    SchemasNeverMissed(tables, shelved);
    JobsNeverMissed(Jobs(tables, inserts), shelved) by {
      forall j | j in Jobs(tables, inserts) ensures IsPlainName(j.table.name) {}
    }
  }

  lemma {:induction false} SchemasNeverMissed(tables: seq<Table>, shelved: Files)
    requires forall ns :: ns in shelved ==> !Reloadable(ns)
    ensures NoneShelved(SchemaRecords(tables), shelved)
  {
    hide SCHEMA, RenderSchema, Namespace, Reloadable, SchemaKey;
    if tables != [] {
      var n := |tables| - 1;
      SchemasNeverMissed(tables[..n], shelved);
      SchemaReloadable(tables[n].name);
    }
  }

  lemma SchemaReloadable(name: Bytes)
    ensures Reloadable(Namespace(SchemaKey(name)))
  {
    hide SCHEMA, IsUtf8;
    NamesAreColonFree();
    OwnPrefix(SCHEMA, name, []);
  }

  lemma {:induction false} JobsNeverMissed(jobs: seq<Job>, shelved: Files)
    requires forall ns :: ns in shelved ==> !Reloadable(ns)
    requires forall j :: j in jobs ==> IsPlainName(j.table.name)
    ensures NoneShelved(RecordsOf(jobs), shelved)
  {
    hide RowRecords, Namespace, Reloadable;
    if jobs != [] {
      var n := |jobs| - 1;
      JobsNeverMissed(jobs[..n], shelved);
      if IsAccepted(jobs[n]) { TablesNeverMissed(jobs[n].table, jobs[n].values, shelved); }
    }
  }

  // ----- the rows that come back -----

  /** No later row of the import has the same key. */
  ghost predicate IsLast(rows: seq<Job>, i: int)
    requires forall j :: j in rows ==> IsAccepted(j)
  {
    0 <= i < |rows| && forall k :: i < k < |rows| ==> KeyOf(rows[k]) != KeyOf(rows[i])
  }

  function KeyOf(job: Job): Bytes
    requires IsAccepted(job)
  {
    RowKey(job.table, job.values)
  }

  lemma {:induction false} LastIsEntry(rows: seq<Job>, i: nat)
    requires (forall j :: j in rows ==> IsAccepted(j)) && IsLast(rows, i)
    ensures KeyOf(rows[i]) in Entries(rows) && Entries(rows)[KeyOf(rows[i])] == RowValue(rows[i].table, rows[i].values)
    decreases |rows|
  {
    hide IsAccepted, RowKey, RowValue;
    var n := |rows| - 1;
    assert rows[n] in rows;
    if i < n {
      assert KeyOf(rows[n]) != KeyOf(rows[i]);
      assert IsLast(rows[..n], i);
      LastIsEntry(rows[..n], i);
    }
  }

  lemma {:induction false} EntryIsLast(rows: seq<Job>, key: Bytes) returns (i: nat)
    requires (forall j :: j in rows ==> IsAccepted(j)) && key in Entries(rows)
    ensures IsLast(rows, i) && KeyOf(rows[i]) == key
    decreases |rows|
  {
    hide IsAccepted, RowKey, RowValue;
    var n := |rows| - 1;
    assert rows[n] in rows;
    if key == KeyOf(rows[n]) {
      i := n;
    } else {
      i := EntryIsLast(rows[..n], key);
    }
  }

  /** A table whose rows survive. */
  ghost predicate Survives(table: Table) {
    OneLineTable(table) && WellKeyed(table) && |table.primaryKey| == 1 && NoneMisread(table)
  }

  ghost predicate RowsClean(rows: seq<Job>, table: Table) {
    forall j :: j in rows ==> IsAccepted(j) && j.table == table && LinesClean(table.columns, j.values)
  }

  /** Every row that no later one replaced is exported; and if the table had none before, nothing
      else is, and the rows are in key order. */
  ghost predicate ComesBack(out: seq<seq<Bytes>>, table: Table, rows: seq<Job>, alone: bool)
    requires forall j :: j in rows ==> IsAccepted(j)
  {
    && (forall i :: IsLast(rows, i) ==> rows[i].values in out)
    && (alone ==>
          && (forall r :: r in out ==> exists i :: IsLast(rows, i) && rows[i].values == r)
          && (forall i :: 0 <= i < |out| ==> |out[i]| == |table.columns|)
          && (forall i, k :: 0 <= i < k < |out| ==> Less(RowKey(table, out[i]), RowKey(table, out[k]))))
  }

  lemma OneRowBack(out: seq<seq<Bytes>>, pairs: seq<Pair>, table: Table, rows: seq<Job>, i: nat, p: nat)
    requires Survives(table) && RowsClean(rows, table) && i < |rows| && p < |pairs|
    requires RowsOf(out, pairs, table.name, StoredFlags(table))
    requires pairs[p] == (KeyOf(rows[i]), RowValue(table, rows[i].values))
    ensures out[p] == rows[i].values
  {
    hide OneLineTable, WellKeyed, NoneMisread, LinesClean, StoredFlags, RowValue, Join, KeyParts, RebuiltRow, Split;
    assert rows[i] in rows;
    TableRoundtrip(table, rows[i].values);
  }

  lemma RowsComeBack(out: seq<seq<Bytes>>, pairs: seq<Pair>, table: Table, rows: seq<Job>, base: Rows)
    requires Survives(table) && RowsClean(rows, table)
    requires RowsOf(out, pairs, table.name, StoredFlags(table)) && Lists(pairs, base + Entries(rows))
    ensures ComesBack(out, table, rows, base == map[])
  {
    hide Survives, IsAccepted, StoredFlags, RowKey, RowValue, LinesClean, Less, RebuiltRow, Split, Entries, KeyOf;
    forall i | IsLast(rows, i) ensures rows[i].values in out {
      RowIsOut(out, pairs, table, rows, base, i);
    }
    if base == map[] {
      assert base + Entries(rows) == Entries(rows);
      forall p | 0 <= p < |out| ensures OutIsRow(out, pairs, rows, p) {
        OutOfRows(out, pairs, table, rows, p);
      }
      KeyOrder(out, pairs, table, rows);
    }
  }

  lemma RowIsOut(out: seq<seq<Bytes>>, pairs: seq<Pair>, table: Table, rows: seq<Job>, base: Rows, i: nat)
    requires Survives(table) && RowsClean(rows, table) && IsLast(rows, i)
    requires RowsOf(out, pairs, table.name, StoredFlags(table)) && Lists(pairs, base + Entries(rows))
    ensures rows[i].values in out
  {
    hide Survives, IsAccepted, StoredFlags, RowKey, RowValue, LinesClean, Leq, Less, RebuiltRow, Split, Entries;
    var m := base + Entries(rows);
    LastIsEntry(rows, i);
    assert rows[i] in rows && (KeyOf(rows[i]), m[KeyOf(rows[i])]) in pairs;
    var p :| 0 <= p < |pairs| && pairs[p] == (KeyOf(rows[i]), m[KeyOf(rows[i])]);
    OneRowBack(out, pairs, table, rows, i, p);
  }

  /** What was exported at `p` is a last row, under its key. */
  ghost predicate OutIsRow(out: seq<seq<Bytes>>, pairs: seq<Pair>, rows: seq<Job>, p: nat)
    requires (forall j :: j in rows ==> IsAccepted(j)) && p < |out| && p < |pairs|
  {
    exists i :: IsLast(rows, i) && rows[i].values == out[p] && KeyOf(rows[i]) == pairs[p].0
  }

  lemma OutOfRows(out: seq<seq<Bytes>>, pairs: seq<Pair>, table: Table, rows: seq<Job>, p: nat)
    requires Survives(table) && RowsClean(rows, table) && p < |out|
    requires RowsOf(out, pairs, table.name, StoredFlags(table)) && Lists(pairs, Entries(rows))
    ensures OutIsRow(out, pairs, rows, p)
  {
    hide Survives, IsAccepted, StoredFlags, RowKey, RowValue, LinesClean, Leq, Less, RebuiltRow, Split, Entries;
    assert pairs[p].0 in Entries(rows);
    var i := EntryIsLast(rows, pairs[p].0);
    LastIsEntry(rows, i);
    assert rows[i] in rows;
    OneRowBack(out, pairs, table, rows, i, p);
  }

  lemma KeyOrder(out: seq<seq<Bytes>>, pairs: seq<Pair>, table: Table, rows: seq<Job>)
    requires RowsClean(rows, table) && |out| == |pairs| && KeysAscend(pairs)
    requires forall p :: 0 <= p < |out| ==> OutIsRow(out, pairs, rows, p)
    ensures forall r :: r in out ==> exists i :: IsLast(rows, i) && rows[i].values == r
    ensures forall i :: 0 <= i < |out| ==> |out[i]| == |table.columns|
    ensures forall i, k :: 0 <= i < k < |out| ==> Less(RowKey(table, out[i]), RowKey(table, out[k]))
  {
    hide LinesClean, Less, RowKey;
    forall p | 0 <= p < |out|
      ensures |out[p]| == |table.columns| && RowKey(table, out[p]) == pairs[p].0
    {
      assert OutIsRow(out, pairs, rows, p);
      var i :| IsLast(rows, i) && rows[i].values == out[p] && KeyOf(rows[i]) == pairs[p].0;
      assert rows[i] in rows;
    }
    forall r | r in out ensures exists i :: IsLast(rows, i) && rows[i].values == r {
      var p :| 0 <= p < |out| && out[p] == r;
      assert OutIsRow(out, pairs, rows, p);
    }
  }

  // ----- import, then export -----

  /** The bus shows nothing under the table's prefix. */
  ghost predicate NoneBefore(m: Flat, name: Bytes) {
    forall k :: k in m ==> !StartsWith(k, TablePrefix(name))
  }

  /** An exported table that is the imported one. */
  ghost predicate IsImported(out: Export, table: Table, rows: seq<Job>, alone: bool)
    requires forall j :: j in rows ==> IsAccepted(j)
  {
    out.0 == table.name && ComesBack(out.1, table, rows, alone)
  }

  /** Each well-named table that survives is exported with the rows it was imported with. */
  lemma TableComesBack(tables: seq<Table>, inserts: seq<Insert>, i: nat, s: Tiers, now: Instant, s1: Tiers,
                       now1: Instant, now2: Instant, out: seq<Export>)
    requires Coherent(s, now) && WellNamed(tables) && i < |tables| && Survives(tables[i])
    requires Restored(s, now, ImportRecords(tables, inserts), s1, now1) && Exported(s1, now1, now2, out)
    requires RowsClean(RowsFor(Jobs(tables, inserts), tables[i].name), tables[i])
    ensures exists e :: e in out && IsImported(e, tables[i], RowsFor(Jobs(tables, inserts), tables[i].name),
                                               NoneBefore(View(s, now), tables[i].name))
  {
    hide Coherent, Restored, Survives, RowsClean, RenderSchema;
    hide ImportRecords, Shown, TablePrefix, SchemaKey, IsImported;
    hide Jobs, RowsFor, Laid, Entries, WithPrefix, View;
    hide NoneBefore, ParseSchema, Before, Lists, TableExported, WellNamed;
    hide AllUntimed, SCHEMA;
    var (records, table) := (ImportRecords(tables, inserts), tables[i]);
    ImportUnder(tables, inserts, i);
    var at: Instant, schemas: seq<Pair> :|
      && now1 <= at <= now2 && Lists(schemas, WithPrefix(Shown(s1, at), TablePrefix(SCHEMA)))
      && |out| == |schemas|
      && forall j :: 0 <= j < |out| ==> TableExported(s1, at, now2, schemas[j], out[j]);
    ShownLater(s, now, records, s1, now1, at, TablePrefix(SCHEMA));
    var key, schema := SchemaKey(table.name), RenderSchema(table, table.columns);
    var shown := WithPrefix(Shown(s1, at), TablePrefix(SCHEMA));
    var p := ListedAt(schemas, shown, key);
    assert schemas[p].1 == schema && TableExported(s1, at, now2, schemas[p], out[p]);
    SchemaNames(table.name);
    ExportedTable(s, now, records, s1, now1, at, now2, schemas[p], out[p], table,
                  RowsFor(Jobs(tables, inserts), table.name));
    assert out[p] in out;
  }

  lemma ListedAt(pairs: seq<Pair>, m: Rows, key: Bytes) returns (p: nat)
    requires Lists(pairs, m) && key in m
    ensures p < |pairs| && pairs[p] == (key, m[key])
  {
    hide Leq, Less;
    assert (key, m[key]) in pairs;
    p :| 0 <= p < |pairs| && pairs[p] == (key, m[key]);
  }

  lemma SchemaNames(name: Bytes)
    ensures |SchemaKey(name)| > |SCHEMA| && SchemaKey(name)[|SCHEMA| + 1..] == name
  {
  }

  lemma ExportedTable(s: Tiers, now: Instant, records: seq<Record>, s1: Tiers, now1: Instant, from: Instant,
                      now2: Instant, schema: Pair, out: Export, table: Table, rows: seq<Job>)
    requires Coherent(s, now) && Restored(s, now, records, s1, now1) && AllUntimed(records) && now1 <= from
    requires TableExported(s1, from, now2, schema, out)
    requires schema == (SchemaKey(table.name), RenderSchema(table, table.columns))
    requires Survives(table) && RowsClean(rows, table)
    requires WithPrefix(Laid(records), TablePrefix(table.name)) == Entries(rows)
    ensures IsImported(out, table, rows, NoneBefore(View(s, now), table.name))
  {
    hide Coherent, Restored, Survives, RowsClean, RenderSchema;
    hide Shown, TablePrefix, SchemaKey, Laid, Entries, WithPrefix;
    hide View, NoneBefore, ParseSchema, Before, Lists, RowsOf, ComesBack, AllUntimed, SCHEMA, StartsWith;
    SchemaNames(table.name);
    var at: Instant, pairs: seq<Pair> :|
      && from <= at <= now2 && Lists(pairs, WithPrefix(Shown(s1, at), TablePrefix(out.0)))
      && RowsOf(out.1, pairs, out.0, ParsedFlags(ParseSchema(schema.1)));
    ShownLater(s, now, records, s1, now1, at, TablePrefix(table.name));
    var base := Before(s, now, at, TablePrefix(table.name));
    RowsComeBack(out.1, pairs, table, rows, base);
    if NoneBefore(View(s, now), table.name) { NothingBefore(s, now, at, table.name); }
    Weaker(out.1, table, rows, base == map[], NoneBefore(View(s, now), table.name));
  }

  lemma NothingBefore(s: Tiers, now: Instant, at: Instant, name: Bytes)
    requires NoneBefore(View(s, now), name)
    ensures Before(s, now, at, TablePrefix(name)) == map[]
  {
    hide View;
  }

  lemma Weaker(out: seq<seq<Bytes>>, table: Table, rows: seq<Job>, a: bool, b: bool)
    requires RowsClean(rows, table) && ComesBack(out, table, rows, a) && (b ==> a)
    ensures ComesBack(out, table, rows, b)
  {
    hide IsLast, Less, RowKey, LinesClean;
  }

  /** Import tables and rows, then export everything: each well-named table that survives comes
      back with its rows, through its schema as the bus stored it. */
  method TablesThroughBus(bus: PermutiveBus, tables: seq<Table>, inserts: seq<Insert>)
    returns (result: ImportResult, out: seq<Export>)
    requires bus.Valid()
    modifies bus.transient.store, bus.persistent, bus.clock
    ensures bus.Valid() && result == Counts(|tables|, Jobs(tables, inserts))
    ensures Coherent(old(bus.State()), old(bus.clock.now)) && WellNamed(tables) ==>
              forall t :: t in tables && Survives(t) && RowsClean(RowsFor(Jobs(tables, inserts), t.name), t) ==>
                exists e :: e in out && IsImported(e, t, RowsFor(Jobs(tables, inserts), t.name),
                                                   NoneBefore(View(old(bus.State()), old(bus.clock.now)), t.name))
  {
    hide Restored, Agree, Flatten, PersistentTier.Table, Sharded, Coherent, View, NoneShelved, ImportRecords, Exported;
    hide Survives, IsImported, Jobs, RowsFor, Counts;
    hide WellNamed, LinesClean, IsAccepted, NoneBefore, Namespace, Reloadable;
    ghost var s, now, shelved := bus.State(), bus.clock.now, bus.persistent.shelved;
    result := ParseImport(bus, tables, inserts);
    ghost var s1, now1 := bus.State(), bus.clock.now;
    out := ExportTables(bus);
    if Coherent(s, now) && WellNamed(tables) {
      ImportNeverMissed(tables, inserts, shelved);
      forall t | t in tables && Survives(t) && RowsClean(RowsFor(Jobs(tables, inserts), t.name), t)
        ensures exists e :: e in out && IsImported(e, t, RowsFor(Jobs(tables, inserts), t.name),
                                                   NoneBefore(View(s, now), t.name))
      {
        var i :| 0 <= i < |tables| && tables[i] == t;
        TableComesBack(tables, inserts, i, s, now, s1, now1, bus.clock.now, out);
      }
    }
  }
}
