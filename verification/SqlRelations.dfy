/** Relationship markers: after an import, which rows reference a value can be read off a scan. */
module SqlRelations {
  import opened ByteStrings
  import opened FlatStore
  import opened Listings
  import opened TwoTiers
  import opened ArchivePaths
  import opened Dumps
  import opened PersistentTier
  import opened SqlText
  import opened SqlRows
  import opened SqlSchema
  import opened SqlImport
  import opened SqlExport
  import opened SqlRoundtrip

  /** Under this prefix are the markers of rows that reference `value` in `table`. */
  function ReferencePrefix(table: Bytes, value: Bytes): Bytes {
    Ascii("_rel:") + table + [COLON] + value + [COLON]
  }

  /** The row has a foreign key to the table, and holds the value in its column. */
  predicate RefersBy(job: Job, fk: ForeignKey, table: Bytes, value: Bytes) {
    && |job.values| == |job.table.columns| && fk in job.table.foreignKeys && fk.table == table
    && IndexOf(job.table.columns, fk.column).Some?
    && job.values[IndexOf(job.table.columns, fk.column).value] == value
  }

  ghost predicate Refers(job: Job, table: Bytes, value: Bytes) {
    |job.values| == |job.table.columns| && IsAccepted(job) && exists fk :: RefersBy(job, fk, table, value)
  }

  /** The marker names the referencing row: its table, and the key text it is stored under. */
  function MarkerOf(job: Job, table: Bytes, value: Bytes): Bytes
    requires |job.values| == |job.table.columns|
  {
    ReferencePrefix(table, value) + RowKey(job.table, job.values)
  }

  /** Tables and values that are referenced have no colon. */
  ghost predicate PlainReferences(jobs: seq<Job>) {
    forall j, fk :: j in jobs && IsAccepted(j) && RefersSomewhere(j, fk) ==>
      COLON !in fk.table && COLON !in ReferredValue(j, fk)
  }

  predicate RefersSomewhere(job: Job, fk: ForeignKey) {
    |job.values| == |job.table.columns| && fk in job.table.foreignKeys && IndexOf(job.table.columns, fk.column).Some?
  }

  function ReferredValue(job: Job, fk: ForeignKey): Bytes
    requires RefersSomewhere(job, fk)
  {
    job.values[IndexOf(job.table.columns, fk.column).value]
  }

  // ----- one row's markers -----

  lemma {:induction false} MarkerIn(job: Job, fks: seq<ForeignKey>, r: Record)
    requires |job.values| == |job.table.columns|
    ensures r in RelationRecords(job.table, fks, job.values) <==>
            exists fk :: fk in fks && IndexOf(job.table.columns, fk.column).Some? && r == MarkerRecord(job, fk)
  {
    hide IndexOf, RelationKey, KeyParts;
    if fks != [] {
      MarkerIn(job, fks[1..], r);
      var first := IndexOf(job.table.columns, fks[0].column);
      assert forall fk :: fk in fks <==> fk == fks[0] || fk in fks[1..];
      if first.Some? { MarkerIs(job, fks[0]); }
    }
  }

  function MarkerRecord(job: Job, fk: ForeignKey): Record
    requires |job.values| == |job.table.columns| && IndexOf(job.table.columns, fk.column).Some?
  {
    var value := job.values[IndexOf(job.table.columns, fk.column).value];
    Record(RelationKey(job.table, fk, value, KeyParts(job.table, job.table.primaryKey, job.values)), [], 0)
  }

  /** A marker is filed under the table it refers to and the value there, and names its own row. */
  lemma MarkerIs(job: Job, fk: ForeignKey)
    requires |job.values| == |job.table.columns| && IndexOf(job.table.columns, fk.column).Some?
    ensures var value := job.values[IndexOf(job.table.columns, fk.column).value];
            MarkerRecord(job, fk) == Record(MarkerOf(job, fk.table, value), [], 0)
  {
    hide IndexOf, KeyParts, Join;
    var value := job.values[IndexOf(job.table.columns, fk.column).value];
    var parts := KeyParts(job.table, job.table.primaryKey, job.values);
    assert RelationKey(job.table, fk, value, parts)
           == Ascii("_rel:") + fk.table + [COLON] + value + [COLON] + (job.table.name + [COLON] + Join(parts, COLON));
  }

  // ----- what is under a reference's prefix -----

  /** Of two texts that begin with a part ended by a colon, one begins with the other exactly if
      the parts are the same and the rest of the one begins with the rest of the other. */
  lemma PartsAgree(a: Bytes, u: Bytes, b: Bytes, w: Bytes)
    requires COLON !in a && COLON !in b
    ensures StartsWith(a + [COLON] + u, b + [COLON] + w) <==> a == b && StartsWith(u, w)
  {
    var x, y := a + [COLON] + u, b + [COLON] + w;
    assert x[|a|] == COLON && y[|b|] == COLON;
    assert x[..|a|] == a && x[|a| + 1..] == u && y[..|b|] == b && y[|b| + 1..] == w;
    if StartsWith(x, y) {
      PartEnds(a, u, b, w);
      assert x[..|y|][|a| + 1..] == u[..|w|];
    }
    if a == b && StartsWith(u, w) {
      assert x[..|y|] == a + [COLON] + u[..|w|];
    }
  }

  lemma PartEnds(a: Bytes, u: Bytes, b: Bytes, w: Bytes)
    requires COLON !in a && COLON !in b && StartsWith(a + [COLON] + u, b + [COLON] + w)
    ensures a == b
  {
    var x, y := a + [COLON] + u, b + [COLON] + w;
    assert x[..|a| + 1] == a + [COLON];
    assert x[..|b| + 1] == x[..|y|][..|b| + 1] == b + [COLON];
    UpToColonExact(x, a);
    UpToColonExact(x, b);
  }

  /** A marker is under a reference's prefix exactly if it is one of that reference. */
  lemma UnderReference(table: Bytes, value: Bytes, other: Bytes, otherValue: Bytes, rest: Bytes)
    requires COLON !in table && COLON !in value && COLON !in other && COLON !in otherValue
    ensures StartsWith(ReferencePrefix(other, otherValue) + rest, ReferencePrefix(table, value))
            <==> other == table && otherValue == value
  {
    hide StartsWith;
    var u, w := otherValue + [COLON] + rest, value + [COLON] + [];
    assert Ascii("_rel:") == Ascii("_rel") + [COLON] && COLON !in Ascii("_rel");
    PartsAgree(Ascii("_rel"), other + [COLON] + u, Ascii("_rel"), table + [COLON] + w);
    PartsAgree(other, u, table, w);
    PartsAgree(otherValue, rest, value, []);
    Anything(rest);
    assert ReferencePrefix(other, otherValue) + rest == Ascii("_rel") + [COLON] + (other + [COLON] + u);
    assert ReferencePrefix(table, value) == Ascii("_rel") + [COLON] + (table + [COLON] + w);
  }

  lemma Anything(rest: Bytes)
    ensures StartsWith(rest, [])
  {
  }

  /** Only markers are under such a prefix. */
  lemma OnlyRel(key: Bytes, table: Bytes, value: Bytes)
    requires StartsWith(key, ReferencePrefix(table, value))
    ensures UpToColon(key) == Some(REL)
  {
    NamesAreColonFree();
    var p := ReferencePrefix(table, value);
    assert Ascii("_rel:") == REL + [COLON];
    assert key[..|p|] == p;
    assert key[..|REL| + 1] == p[..|REL| + 1] == REL + [COLON];
    UpToColonExact(key, REL);
  }

  /** The records of one row under the prefix: its marker, if it refers to the value. */
  lemma JobMarkers(job: Job, table: Bytes, value: Bytes, r: Record)
    requires COLON !in table && COLON !in value && PlainReferences([job])
    requires COLON !in job.table.name && job.table.name != REL && IsAccepted(job)
    ensures r in JobRecords(job) && StartsWith(r.key, ReferencePrefix(table, value))
            <==> Refers(job, table, value) && r == Record(MarkerOf(job, table, value), [], 0)
  {
    hide REL, RowKey, RowValue, ReferencePrefix, RelationRecords, MarkerRecord, StartsWith;
    assert job in [job];
    var row := Record(RowKey(job.table, job.values), RowValue(job.table, job.values), 0);
    assert JobRecords(job) == [row] + RelationRecords(job.table, job.table.foreignKeys, job.values);
    RowNotUnder(job, table, value);
    MarkerIn(job, job.table.foreignKeys, r);
    forall fk | RefersSomewhere(job, fk)
      ensures MarkerRecord(job, fk) == Record(MarkerOf(job, fk.table, ReferredValue(job, fk)), [], 0)
      ensures StartsWith(MarkerRecord(job, fk).key, ReferencePrefix(table, value))
              <==> RefersBy(job, fk, table, value)
    {
      MarkerIs(job, fk);
      UnderReference(table, value, fk.table, ReferredValue(job, fk), RowKey(job.table, job.values));
    }
  }

  lemma RowNotUnder(job: Job, table: Bytes, value: Bytes)
    requires |job.values| == |job.table.columns| && COLON !in job.table.name && job.table.name != REL
    ensures !StartsWith(RowKey(job.table, job.values), ReferencePrefix(table, value))
  {
    hide REL, ReferencePrefix, KeyParts, Join;
    var key := RowKey(job.table, job.values);
    assert key == job.table.name + [COLON] + key[|job.table.name| + 1..];
    OwnPrefix(job.table.name, key[|job.table.name| + 1..], job.table.name);
    if StartsWith(key, ReferencePrefix(table, value)) { OnlyRel(key, table, value); }
  }

  // ----- the records of an import -----

  lemma {:induction false} RecordsByJob(jobs: seq<Job>, r: Record)
    ensures r in RecordsOf(jobs) <==> exists j :: j in jobs && IsAccepted(j) && r in JobRecords(j)
  {
    hide IsAccepted, JobRecords;
    if jobs != [] {
      var n := |jobs| - 1;
      RecordsByJob(jobs[..n], r);
      RejectedHasNone(jobs[n]);
      assert forall j :: j in jobs <==> j == jobs[n] || j in jobs[..n];
    }
  }

  lemma RejectedHasNone(job: Job)
    ensures !IsAccepted(job) ==> JobRecords(job) == []
  {
    hide RowRecords;
  }

  lemma {:induction false} SchemaRecordKeys(tables: seq<Table>)
    ensures forall r :: r in SchemaRecords(tables) ==> UpToColon(r.key) == Some(SCHEMA)
  {
    hide SCHEMA, RenderSchema;
    NamesAreColonFree();
    if tables != [] {
      var n := |tables| - 1;
      SchemaRecordKeys(tables[..n]);
      OwnPrefix(SCHEMA, tables[n].name, []);
    }
  }

  /** Of everything an import writes, exactly the markers of the rows that refer to the value. */
  lemma ImportMarkers(tables: seq<Table>, inserts: seq<Insert>, table: Bytes, value: Bytes, r: Record)
    requires WellNamed(tables) && PlainReferences(Jobs(tables, inserts)) && COLON !in table && COLON !in value
    ensures r in ImportRecords(tables, inserts) && StartsWith(r.key, ReferencePrefix(table, value))
            <==> exists j :: j in Jobs(tables, inserts) && Refers(j, table, value)
                             && r == Record(MarkerOf(j, table, value), [], 0)
  {
    hide REL, SCHEMA, RefersBy, MarkerOf, JobRecords, StartsWith, ReferencePrefix;
    hide SchemaRecords, RecordsOf, Jobs, IsAccepted;
    NamesAreColonFree();
    var jobs := Jobs(tables, inserts);
    JobTables(tables, inserts);
    SchemaRecordKeys(tables);
    if StartsWith(r.key, ReferencePrefix(table, value)) { OnlyRel(r.key, table, value); }
    RecordsByJob(jobs, r);
    forall j | j in jobs && IsAccepted(j)
      ensures r in JobRecords(j) && StartsWith(r.key, ReferencePrefix(table, value))
              <==> Refers(j, table, value) && r == Record(MarkerOf(j, table, value), [], 0)
    {
      assert IsPlainName(j.table.name);
      assert PlainReferences([j]);
      JobMarkers(j, table, value, r);
    }
  }

  // ----- what a scan shows -----

  /** What is laid down under a key is what some record says. */
  lemma {:induction false} LaidSays(records: seq<Record>, key: Bytes)
    ensures key in Laid(records) <==> exists r :: r in records && r.key == key
    ensures key in Laid(records) ==> exists r :: r in records && r.key == key && r.value == Laid(records)[key]
  {
    if records != [] {
      var n := |records| - 1;
      LaidSays(records[..n], key);
      assert forall r :: r in records <==> r == records[n] || r in records[..n];
    }
  }

  lemma MarkersLaid(tables: seq<Table>, inserts: seq<Insert>, table: Bytes, value: Bytes, key: Bytes)
    requires WellNamed(tables) && PlainReferences(Jobs(tables, inserts)) && COLON !in table && COLON !in value
    ensures var laid := WithPrefix(Laid(ImportRecords(tables, inserts)), ReferencePrefix(table, value));
            && (key in laid <==> exists j :: j in Jobs(tables, inserts) && Refers(j, table, value)
                                             && key == MarkerOf(j, table, value))
            && (key in laid ==> laid[key] == [])
  {
    hide MarkerOf, StartsWith, ReferencePrefix, Laid, ImportRecords;
    hide Jobs, PlainReferences, WellNamed, IsAccepted, RefersBy;
    var records := ImportRecords(tables, inserts);
    LaidSays(records, key);
    forall r: Record | r.key == key
      ensures r in records && StartsWith(r.key, ReferencePrefix(table, value))
              <==> exists j :: j in Jobs(tables, inserts) && Refers(j, table, value)
                               && r == Record(MarkerOf(j, table, value), [], 0)
    {
      ImportMarkers(tables, inserts, table, value, r);
    }
    if exists j :: j in Jobs(tables, inserts) && Refers(j, table, value) && key == MarkerOf(j, table, value) {
      var r := Record(key, [], 0);
      assert r in records && StartsWith(key, ReferencePrefix(table, value));
    }
  }

  /** After an import, a scan under `_rel:<table>:<value>:` lists exactly the rows that refer to
      that value of that table, if the bus had nothing there before: one marker each, under the
      row's own table and key. */
  lemma ReferencesListed(tables: seq<Table>, inserts: seq<Insert>, table: Bytes, value: Bytes, s: Tiers, now: Instant,
                         s1: Tiers, now1: Instant, s2: Tiers, now2: Instant, pairs: seq<Pair>)
    requires Coherent(s, now) && WellNamed(tables) && PlainReferences(Jobs(tables, inserts))
    requires COLON !in table && COLON !in value
    requires forall k :: k in View(s, now) ==> !StartsWith(k, ReferencePrefix(table, value))
    requires Restored(s, now, ImportRecords(tables, inserts), s1, now1)
    requires Performs(s1, now1, FindByPrefix(ReferencePrefix(table, value)), s2, now2, Pairs(pairs))
    ensures forall key, content :: (key, content) in pairs <==>
              content == [] && exists j :: j in Jobs(tables, inserts) && Refers(j, table, value)
                                           && key == MarkerOf(j, table, value)
  {
    hide MarkerOf, StartsWith, ReferencePrefix, Laid, ImportRecords, Jobs, IsAccepted, RefersBy, PlainReferences;
    hide Restored, Performs;
    hide Coherent, View, Lists, Shown, AllUntimed, Before;
    var prefix := ReferencePrefix(table, value);
    ImportUntimed(tables, inserts);
    PrefixScanned(s1, now1, prefix, s2, now2, pairs);
    ShownLater(s, now, ImportRecords(tables, inserts), s1, now1, now2, prefix);
    assert Before(s, now, now2, prefix) == map[] by { NothingShown(s, now, now2, prefix); }
    var laid := WithPrefix(Laid(ImportRecords(tables, inserts)), prefix);
    assert map[] + laid == laid;
    assert Lists(pairs, laid);
    forall key, content
      ensures (key, content) in pairs <==>
              content == [] && exists j :: j in Jobs(tables, inserts) && Refers(j, table, value)
                                           && key == MarkerOf(j, table, value)
    {
      ListsHas(pairs, laid, key, content);
      MarkersLaid(tables, inserts, table, value, key);
    }
  }

  lemma ListsHas(pairs: seq<Pair>, m: Rows, key: Bytes, content: Bytes)
    requires Lists(pairs, m)
    ensures (key, content) in pairs <==> key in m && m[key] == content
  {
    hide Leq, Less;
    if (key, content) in pairs {
      var i :| 0 <= i < |pairs| && pairs[i] == (key, content);
      ListedKey(pairs, m, i);
    }
  }

  lemma NothingShown(s: Tiers, now: Instant, at: Instant, prefix: Bytes)
    requires forall k :: k in View(s, now) ==> !StartsWith(k, prefix)
    ensures Before(s, now, at, prefix) == map[]
  {
    hide View;
  }

  lemma ImportUntimed(tables: seq<Table>, inserts: seq<Insert>)
    requires WellNamed(tables)
    ensures AllUntimed(ImportRecords(tables, inserts))
  {
    hide REL, SCHEMA, RecordsOf, SchemaRecords, IsAccepted, StartsWith;
    NamesAreColonFree();
    JobTables(tables, inserts);
    assert forall j :: j in Jobs(tables, inserts) ==> IsPlainName(j.table.name);
    RowsUnder(Jobs(tables, inserts), SCHEMA);
    SchemasApart(tables, []);
  }
}
