/** Import of a whole SQL dump: the schemas of its tables, then the rows of its inserts. */
module SqlImport {
  import opened ByteStrings
  import opened ArchivePaths
  import opened FlatStore
  import opened PersistentTier
  import opened TransientStore
  import opened TwoTiers
  import opened Permutive
  import opened Dumps
  import opened SqlRows
  import opened SqlSchema

  /** An insert statement: its table's name without quotes, and its rows. */
  datatype Insert = Insert(table: Bytes, rows: seq<seq<Bytes>>)

  datatype ImportResult = ImportResult(tables: nat, rows: nat, relationships: nat, errors: nat)

  // ----- what an import writes -----

  function SchemaKey(name: Bytes): Bytes {
    SCHEMA + [COLON] + name
  }

  function SchemaRecords(tables: seq<Table>): seq<Record> {
    if tables == [] then []
    else
      var last := tables[|tables| - 1];
      SchemaRecords(tables[..|tables| - 1]) + [Record(SchemaKey(last.name), RenderSchema(last, last.columns), 0)]
  }

  /** No earlier table has its name. */
  ghost predicate IsFirst(tables: seq<Table>, table: Table) {
    exists i :: 0 <= i < |tables| && tables[i] == table && forall j :: 0 <= j < i ==> tables[j].name != table.name
  }

  function FindTable(tables: seq<Table>, name: Bytes): (r: Option<Table>)
    ensures r.Some? ==> r.value in tables && r.value.name == name && IsFirst(tables, r.value)
    ensures r.None? ==> forall t :: t in tables ==> t.name != name
  {
    if tables == [] then None
    else if tables[0].name == name then Some(tables[0])
    else
      var found := FindTable(tables[1..], name);
      assert found.Some? ==> IsFirst(tables, found.value) by {
        if found.Some? {
          var i :| 0 <= i < |tables[1..]| && tables[1..][i] == found.value
                   && forall j :: 0 <= j < i ==> tables[1..][j].name != found.value.name;
          assert tables[i + 1] == found.value;
          assert forall j :: 0 <= j < i + 1 ==> tables[j].name != name by {
            assert forall j :: 1 <= j < i + 1 ==> tables[j] == tables[1..][j - 1];
          }
        }
      }
      found
  }

  /** One row to be written, and the table it goes to. */
  datatype Job = Job(table: Table, values: seq<Bytes>)

  function JobsOf(table: Table, rows: seq<seq<Bytes>>): (jobs: seq<Job>)
    ensures |jobs| == |rows| && forall i :: 0 <= i < |jobs| ==> jobs[i] == Job(table, rows[i])
  {
    seq(|rows|, i requires 0 <= i < |rows| => Job(table, rows[i]))
  }

  /** The rows of every insert into a known table, in order. */
  function Jobs(tables: seq<Table>, inserts: seq<Insert>): seq<Job> {
    if inserts == [] then []
    else
      var last := inserts[|inserts| - 1];
      Jobs(tables, inserts[..|inserts| - 1])
      + match FindTable(tables, last.table)
        case None => []
        case Some(table) => JobsOf(table, last.rows)
  }

  function JobRecords(job: Job): seq<Record> {
    match RowRecords(job.table, job.values)
    case None => []
    case Some(records) => records
  }

  function RecordsOf(jobs: seq<Job>): seq<Record> {
    if jobs == [] then [] else RecordsOf(jobs[..|jobs| - 1]) + JobRecords(jobs[|jobs| - 1])
  }

  predicate IsAccepted(job: Job) {
    RowRecords(job.table, job.values).Some?
  }

  function Accepted(jobs: seq<Job>): (accepted: seq<Job>)
    ensures |accepted| <= |jobs| && |accepted| <= |RecordsOf(jobs)|
  {
    if jobs == [] then []
    else Accepted(jobs[..|jobs| - 1]) + if IsAccepted(jobs[|jobs| - 1]) then [jobs[|jobs| - 1]] else []
  }

  function AcceptedAt(jobs: seq<Job>): set<int> {
    set i | 0 <= i < |jobs| && IsAccepted(jobs[i])
  }

  /** The accepted rows are counted by their positions. */
  lemma {:induction false} AcceptedCount(jobs: seq<Job>)
    ensures |Accepted(jobs)| == |AcceptedAt(jobs)|
  {
    hide IsAccepted, AcceptedAt;
    if jobs == [] {
      NoneAccepted();
    } else {
      var n := |jobs| - 1;
      AcceptedCount(jobs[..n]);
      AcceptedAtPush(jobs, n);
    }
  }

  lemma NoneAccepted()
    ensures AcceptedAt([]) == {}
  {
  }

  lemma AcceptedAtPush(jobs: seq<Job>, n: nat)
    requires |jobs| == n + 1
    ensures |AcceptedAt(jobs)| == |AcceptedAt(jobs[..n])| + if IsAccepted(jobs[n]) then 1 else 0
  {
    hide IsAccepted;
    assert AcceptedAt(jobs) == AcceptedAt(jobs[..n]) + if IsAccepted(jobs[n]) then {n} else {};
  }

  function ImportRecords(tables: seq<Table>, inserts: seq<Insert>): seq<Record> {
    SchemaRecords(tables) + RecordsOf(Jobs(tables, inserts))
  }

  lemma JobsPush(jobs: seq<Job>, job: Job)
    ensures RecordsOf(jobs + [job]) == RecordsOf(jobs) + JobRecords(job)
    ensures Accepted(jobs + [job]) == Accepted(jobs) + (if IsAccepted(job) then [job] else [])
  {
    hide JobRecords, IsAccepted;
    assert (jobs + [job])[..|jobs|] == jobs;
  }

  // ----- writing it -----

  lemma {:induction false} RestoredConcat(s: Tiers, now: Instant, a: seq<Record>, s1: Tiers, now1: Instant,
                                          b: seq<Record>, s': Tiers, now': Instant)
    requires Restored(s, now, a, s1, now1) && Restored(s1, now1, b, s', now')
    ensures Restored(s, now, a + b, s', now')
    decreases |b|
  {
    hide RestoredOne;
    if b == [] {
      assert a + b == a;
    } else {
      var n := |b| - 1;
      var s2, now2 :| Restored(s1, now1, b[..n], s2, now2) && RestoredOne(s2, now2, b[n], s', now');
      RestoredConcat(s, now, a, s1, now1, b[..n], s2, now2);
      RestoredPush(s, now, a + b[..n], s2, now2, b[n], s', now');
      assert a + b == (a + b[..n]) + [b[n]];
    }
  }

  /** Written so far, if no record belongs to a file that start-up missed. */
  ghost predicate Progress(plain: bool, s: Tiers, now: Instant, records: seq<Record>, s': Tiers, now': Instant) {
    plain ==> Restored(s, now, records, s', now')
  }

  method WriteSchemas(bus: PermutiveBus, tables: seq<Table>, ghost records: seq<Record>)
    requires bus.Valid() && SchemaRecords(tables) <= records
    modifies bus.transient.store, bus.persistent, bus.clock
    ensures bus.Valid() && bus.persistent.shelved.Keys <= old(bus.persistent.shelved.Keys)
    ensures Progress(NoneShelved(records, old(bus.persistent.shelved)), old(bus.State()), old(bus.clock.now),
                     SchemaRecords(tables), bus.State(), bus.clock.now)
  {
    hide Agree, Flatten, PersistentTier.Table, Sharded, Reloadable, Namespace, NoneShelved, SchemaRecords, Progress;
    ghost var s, now, before := bus.State(), bus.clock.now, bus.persistent.shelved;
    ghost var plain := NoneShelved(records, before);
    NoSchemas(plain, s, now, tables);
    var i := 0;
    while i < |tables|
      invariant 0 <= i <= |tables| && bus.Valid() && bus.persistent.shelved.Keys <= before.Keys
      invariant Progress(plain, s, now, SchemaRecords(tables[..i]), bus.State(), bus.clock.now)
    {
      SchemasPush(tables, i, records);
      WriteSchema(bus, tables[i], before, records, s, now, SchemaRecords(tables[..i]));
      i := i + 1;
    }
    assert tables[..i] == tables;
  }

  function SchemaRecord(table: Table): Record {
    Record(SchemaKey(table.name), RenderSchema(table, table.columns), 0)
  }

  method WriteSchema(bus: PermutiveBus, table: Table, ghost before: Files, ghost records: seq<Record>, ghost s: Tiers,
                     ghost now: Instant, ghost done: seq<Record>)
    requires bus.Valid() && bus.persistent.shelved.Keys <= before.Keys && SchemaRecord(table) in records
    requires Progress(NoneShelved(records, before), s, now, done, bus.State(), bus.clock.now)
    modifies bus.transient.store, bus.persistent, bus.clock
    ensures bus.Valid() && bus.persistent.shelved.Keys <= before.Keys
    ensures Progress(NoneShelved(records, before), s, now, done + [SchemaRecord(table)], bus.State(), bus.clock.now)
  {
    hide Restored, RestoredOne, Agree, Flatten, PersistentTier.Table, Sharded, Reloadable, Namespace, NoneShelved;
    hide RenderSchema, SchemaKey;
    var schema := RenderSchemaEntry(table);
    var r := Record(SchemaKey(table.name), schema, 0);
    ghost var plain := NoneShelved(records, before);
    if plain { RecordNotShelved(records, before, bus.persistent.shelved, r); }
    WriteNext(bus, r, plain, s, now, done);
  }

  lemma NoSchemas(plain: bool, s: Tiers, now: Instant, tables: seq<Table>)
    ensures Progress(plain, s, now, SchemaRecords(tables[..0]), s, now)
  {
    RestoredNone(s, now);
  }

  lemma SchemasPush(tables: seq<Table>, i: nat, records: seq<Record>)
    requires i < |tables| && SchemaRecords(tables) <= records
    ensures SchemaRecords(tables[..i + 1]) == SchemaRecords(tables[..i]) + [SchemaRecord(tables[i])]
    ensures SchemaRecord(tables[i]) in records
  {
    hide RenderSchema, SchemaKey;
    assert tables[..i + 1][..i] == tables[..i];
    SchemasPrefix(tables, i + 1, records);
    assert SchemaRecord(tables[i]) in SchemaRecords(tables[..i + 1]);
  }

  lemma {:induction false} SchemasPrefix(tables: seq<Table>, n: nat, records: seq<Record>)
    requires n <= |tables| && SchemaRecords(tables) <= records
    ensures forall r :: r in SchemaRecords(tables[..n]) ==> r in records
    decreases |tables|
  {
    hide RenderSchema, SchemaKey;
    if n == |tables| {
      assert tables[..n] == tables;
    } else {
      var m := |tables| - 1;
      assert tables[..m][..n] == tables[..n];
      SchemasPrefix(tables[..m], n, records);
    }
  }

  /** One row, and what it adds to the counts. */
  method WriteJob(bus: PermutiveBus, job: Job, counts: ImportResult, ghost before: Files, ghost records: seq<Record>,
                  ghost s: Tiers, ghost now: Instant, ghost done: seq<Record>)
    returns (after: ImportResult)
    requires bus.Valid() && bus.persistent.shelved.Keys <= before.Keys
    requires forall r :: r in JobRecords(job) ==> r in records
    requires Progress(NoneShelved(records, before), s, now, done, bus.State(), bus.clock.now)
    modifies bus.transient.store, bus.persistent, bus.clock
    ensures bus.Valid() && bus.persistent.shelved.Keys <= before.Keys
    ensures Progress(NoneShelved(records, before), s, now, done + JobRecords(job), bus.State(), bus.clock.now)
    ensures after == if IsAccepted(job)
                     then counts.(rows := counts.rows + 1,
                                  relationships := counts.relationships + |JobRecords(job)| - 1)
                     else counts.(errors := counts.errors + 1)
  {
    hide Restored, RestoredOne, Agree, Flatten, PersistentTier.Table, Sharded, Reloadable, Namespace, RowRecords;
    ghost var s1, now1, shelved := bus.State(), bus.clock.now, bus.persistent.shelved;
    var relationships := WriteRow(bus, job.table, job.values);
    match relationships
    case Some(n) =>
      if NoneShelved(records, before) {
        assert NoneShelved(JobRecords(job), shelved);
        RestoredConcat(s, now, done, s1, now1, JobRecords(job), bus.State(), bus.clock.now);
      }
      after := counts.(rows := counts.rows + 1, relationships := counts.relationships + n);
    case None =>
      assert done + JobRecords(job) == done;
      after := counts.(errors := counts.errors + 1);
  }

  /** The counts an import reports: each accepted row is one record and its relationships. */
  function Counts(tables: nat, jobs: seq<Job>): ImportResult {
    ImportResult(tables, |Accepted(jobs)|, |RecordsOf(jobs)| - |Accepted(jobs)|, |jobs| - |Accepted(jobs)|)
  }

  lemma CountsPush(tables: nat, jobs: seq<Job>, job: Job)
    ensures var counts := Counts(tables, jobs);
            Counts(tables, jobs + [job]) ==
            if IsAccepted(job)
            then counts.(rows := counts.rows + 1, relationships := counts.relationships + |JobRecords(job)| - 1)
            else counts.(errors := counts.errors + 1)
  {
    hide RowRecords, RecordsOf, Accepted;
    JobsPush(jobs, job);
  }

  lemma {:induction false} JobInRecords(jobs: seq<Job>, job: Job)
    requires job in jobs
    ensures forall r :: r in JobRecords(job) ==> r in RecordsOf(jobs)
  {
    hide JobRecords;
    var n := |jobs| - 1;
    if job != jobs[n] { JobInRecords(jobs[..n], job); }
  }

  lemma Associate(a: seq<Record>, b: seq<Record>, c: seq<Record>)
    ensures a + b + c == a + (b + c)
  {
  }

  lemma JobsOfPush(done: seq<Job>, table: Table, rows: seq<seq<Bytes>>, i: nat)
    requires i < |rows|
    ensures done + JobsOf(table, rows[..i + 1]) == done + JobsOf(table, rows[..i]) + [Job(table, rows[i])]
  {
  }

  method WriteInsert(bus: PermutiveBus, table: Table, rows: seq<seq<Bytes>>, counts: ImportResult, ghost before: Files,
                     ghost records: seq<Record>, ghost s: Tiers, ghost now: Instant, ghost first: seq<Record>,
                     ghost done: seq<Job>)
    returns (after: ImportResult)
    requires bus.Valid() && bus.persistent.shelved.Keys <= before.Keys && counts == Counts(counts.tables, done)
    requires forall i, r :: 0 <= i < |rows| && r in JobRecords(Job(table, rows[i])) ==> r in records
    requires Progress(NoneShelved(records, before), s, now, first + RecordsOf(done), bus.State(), bus.clock.now)
    modifies bus.transient.store, bus.persistent, bus.clock
    ensures bus.Valid() && bus.persistent.shelved.Keys <= before.Keys
    ensures after == Counts(counts.tables, done + JobsOf(table, rows))
    ensures Progress(NoneShelved(records, before), s, now, first + RecordsOf(done + JobsOf(table, rows)),
                     bus.State(), bus.clock.now)
  {
    hide Progress, NoneShelved, Agree, Flatten, PersistentTier.Table, Sharded, Reloadable, Namespace;
    hide Counts, JobRecords, IsAccepted, RecordsOf;
    after := counts;
    assert done + JobsOf(table, rows[..0]) == done;
    var i := 0;
    while i < |rows|
      invariant 0 <= i <= |rows| && bus.Valid() && bus.persistent.shelved.Keys <= before.Keys
      invariant after == Counts(counts.tables, done + JobsOf(table, rows[..i])) && after.tables == counts.tables
      invariant Progress(NoneShelved(records, before), s, now, first + RecordsOf(done + JobsOf(table, rows[..i])),
                         bus.State(), bus.clock.now)
    {
      var job := Job(table, rows[i]);
      ghost var jobs := done + JobsOf(table, rows[..i]);
      CountsPush(counts.tables, jobs, job);
      JobsPush(jobs, job);
      after := WriteJob(bus, job, after, before, records, s, now, first + RecordsOf(jobs));
      Associate(first, RecordsOf(jobs), JobRecords(job));
      JobsOfPush(done, table, rows, i);
      i := i + 1;
    }
    assert rows[..i] == rows;
  }

  /** The whole import: the records of the tables and rows are written in order, and counted. */
  method ParseImport(bus: PermutiveBus, tables: seq<Table>, inserts: seq<Insert>) returns (result: ImportResult)
    requires bus.Valid()
    modifies bus.transient.store, bus.persistent, bus.clock
    ensures bus.Valid() && result == Counts(|tables|, Jobs(tables, inserts))
    ensures NoneShelved(ImportRecords(tables, inserts), old(bus.persistent.shelved)) ==>
              Restored(old(bus.State()), old(bus.clock.now), ImportRecords(tables, inserts), bus.State(), bus.clock.now)
  {
    hide Progress, NoneShelved, Restored, Agree, Flatten, PersistentTier.Table, Sharded, Reloadable, Namespace;
    hide Counts, JobRecords, IsAccepted, RecordsOf, SchemaRecords;
    ghost var s, now, before := bus.State(), bus.clock.now, bus.persistent.shelved;
    ghost var records, first := ImportRecords(tables, inserts), SchemaRecords(tables);
    WriteSchemas(bus, tables, records);
    result := ImportResult(|tables|, 0, 0, 0);
    NoJobs(|tables|, tables);
    assert first + [] == first;
    var i := 0;
    while i < |inserts|
      invariant 0 <= i <= |inserts| && bus.Valid() && bus.persistent.shelved.Keys <= before.Keys
      invariant result == Counts(|tables|, Jobs(tables, inserts[..i])) && result.tables == |tables|
      invariant Progress(NoneShelved(records, before), s, now, first + RecordsOf(Jobs(tables, inserts[..i])),
                         bus.State(), bus.clock.now)
    {
      var insert := inserts[i];
      ghost var done := Jobs(tables, inserts[..i]);
      assert inserts[..i + 1][..i] == inserts[..i];
      var table := FindTable(tables, insert.table);
      if table.Some? {
        InsertInRecords(tables, inserts, i, table.value);
        result := WriteInsert(bus, table.value, insert.rows, result, before, records, s, now, first, done);
        CountsTables(|tables|, done + JobsOf(table.value, insert.rows));
      } else {
        assert Jobs(tables, inserts[..i + 1]) == done;
      }
      i := i + 1;
    }
    assert inserts[..i] == inserts;
    ProgressDone(NoneShelved(records, before), s, now, records, bus.State(), bus.clock.now);
  }

  lemma ProgressDone(plain: bool, s: Tiers, now: Instant, records: seq<Record>, s': Tiers, now': Instant)
    requires Progress(plain, s, now, records, s', now')
    ensures plain ==> Restored(s, now, records, s', now')
  {
  }

  lemma NoJobs(n: nat, tables: seq<Table>)
    ensures Jobs(tables, []) == [] && RecordsOf([]) == [] && Counts(n, []) == ImportResult(n, 0, 0, 0)
  {
  }

  lemma CountsTables(n: nat, jobs: seq<Job>)
    ensures Counts(n, jobs).tables == n
  {
  }

  lemma InsertInRecords(tables: seq<Table>, inserts: seq<Insert>, i: nat, table: Table)
    requires i < |inserts| && FindTable(tables, inserts[i].table) == Some(table)
    ensures forall j, r :: 0 <= j < |inserts[i].rows| && r in JobRecords(Job(table, inserts[i].rows[j])) ==>
              r in ImportRecords(tables, inserts)
  {
    hide JobRecords;
    var rows := inserts[i].rows;
    forall j, r | 0 <= j < |rows| && r in JobRecords(Job(table, rows[j]))
      ensures r in ImportRecords(tables, inserts)
    {
      assert JobsOf(table, rows)[j] == Job(table, rows[j]);
      JobOfInsert(tables, inserts, i, table, Job(table, rows[j]));
      JobInRecords(Jobs(tables, inserts), Job(table, rows[j]));
    }
  }

  lemma {:induction false} JobOfInsert(tables: seq<Table>, inserts: seq<Insert>, i: nat, table: Table, job: Job)
    requires i < |inserts| && FindTable(tables, inserts[i].table) == Some(table)
    requires job in JobsOf(table, inserts[i].rows)
    ensures job in Jobs(tables, inserts)
    decreases |inserts|
  {
    hide IsAccepted, FindTable, JobsOf;
    var n := |inserts| - 1;
    if i < n { JobOfInsert(tables, inserts[..n], i, table, job); }
  }
}
