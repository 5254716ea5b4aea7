/** SQL tables as keys and values: rows and schemas written at import, rebuilt at export. */
module SqlRows {
  import opened ByteStrings
  import opened Utf8
  import opened FlatStore
  import opened PersistentTier
  import opened TransientStore
  import opened TwoTiers
  import opened Permutive
  import opened ArchivePaths
  import opened Dumps
  import opened SqlText

  datatype Column = Column(name: Bytes, dataType: Bytes, isPrimaryKey: bool)

  datatype ForeignKey = ForeignKey(column: Bytes, table: Bytes, refColumn: Bytes)

  datatype Table = Table(name: Bytes, columns: seq<Column>, primaryKey: seq<Bytes>, foreignKeys: seq<ForeignKey>,
                         ttlColumn: Option<Bytes>)

  // ----- writing a row -----

  function IndexOf(columns: seq<Column>, name: Bytes): (r: Option<nat>)
    ensures r.Some? ==> r.value < |columns| && columns[r.value].name == name
    ensures r.Some? ==> forall j :: 0 <= j < r.value ==> columns[j].name != name
    ensures r.None? ==> forall c :: c in columns ==> c.name != name
  {
    if columns == [] then None
    else if columns[0].name == name then Some(0)
    else match IndexOf(columns[1..], name)
      case None => None
      case Some(i) => Some(i + 1)
  }

  /** The values of the primary-key columns, in the order the key names them. */
  function KeyParts(table: Table, names: seq<Bytes>, values: seq<Bytes>): seq<Bytes>
    requires |values| == |table.columns|
  {
    if names == [] then []
    else match IndexOf(table.columns, names[0])
      case None => KeyParts(table, names[1..], values)
      case Some(i) => [values[i]] + KeyParts(table, names[1..], values)
  }

  /** The values of the other columns, in column order. */
  function OtherValues(columns: seq<Column>, values: seq<Bytes>): seq<Bytes>
    requires |values| == |columns|
  {
    if columns == [] then []
    else (if columns[0].isPrimaryKey then [] else [values[0]]) + OtherValues(columns[1..], values[1..])
  }

  method BuildValueParts(table: Table, values: seq<Bytes>) returns (valueParts: seq<Bytes>)
    requires |values| == |table.columns|
    ensures valueParts == OtherValues(table.columns, values)
  {
    hide OtherValues;
    valueParts := [];
    var index := 0;
    NoOtherValues(table.columns, values);
    while index < |values|
      invariant 0 <= index <= |values|
      invariant OtherValues(table.columns, values) == valueParts + OtherValues(table.columns[index..], values[index..])
    {
      OtherValuesFrom(table.columns, values, index);
      if !table.columns[index].isPrimaryKey {
        valueParts := valueParts + [values[index]];
      }
      index := index + 1;
    }
  }

  lemma NoOtherValues(columns: seq<Column>, values: seq<Bytes>)
    requires |values| == |columns|
    ensures columns[0..] == columns && values[0..] == values
    ensures OtherValues(columns[|columns|..], values[|columns|..]) == []
  {
  }

  lemma OtherValuesFrom(columns: seq<Column>, values: seq<Bytes>, i: nat)
    requires |values| == |columns| && i < |columns|
    ensures OtherValues(columns[i..], values[i..]) ==
            (if columns[i].isPrimaryKey then [] else [values[i]]) + OtherValues(columns[i + 1..], values[i + 1..])
  {
    assert columns[i..][1..] == columns[i + 1..] && values[i..][1..] == values[i + 1..];
  }

  function RowKey(table: Table, values: seq<Bytes>): Bytes
    requires |values| == |table.columns|
  {
    table.name + [COLON] + Join(KeyParts(table, table.primaryKey, values), COLON)
  }

  function RowValue(table: Table, values: seq<Bytes>): Bytes
    requires |values| == |table.columns|
  {
    Join(OtherValues(table.columns, values), NEWLINE)
  }

  function RelationKey(table: Table, fk: ForeignKey, fkValue: Bytes, keyParts: seq<Bytes>): Bytes {
    Ascii("_rel:") + fk.table + [COLON] + fkValue + [COLON] + table.name + [COLON] + Join(keyParts, COLON)
  }

  function RelationRecords(table: Table, fks: seq<ForeignKey>, values: seq<Bytes>): seq<Record>
    requires |values| == |table.columns|
  {
    if fks == [] then []
    else
      (match IndexOf(table.columns, fks[0].column)
       case None => []
       case Some(i) =>
         [Record(RelationKey(table, fks[0], values[i], KeyParts(table, table.primaryKey, values)), [], 0)])
      + RelationRecords(table, fks[1..], values)
  }

  /** Everything one row writes to the bus, in order; None if the row is rejected. */
  function RowRecords(table: Table, values: seq<Bytes>): Option<seq<Record>> {
    if |values| != |table.columns| || KeyParts(table, table.primaryKey, values) == [] then None
    else Some([Record(RowKey(table, values), RowValue(table, values), 0)]
              + RelationRecords(table, table.foreignKeys, values))
  }

  /** A row is rejected exactly if it has the wrong number of values or its table names no key
      column that it has. */
  lemma AcceptedExact(table: Table, values: seq<Bytes>)
    ensures RowRecords(table, values).Some? <==>
            |values| == |table.columns| && exists c :: c in table.columns && c.name in table.primaryKey
  {
    if |values| == |table.columns| { NoKeyParts(table, table.primaryKey, values); }
  }

  lemma {:induction false} NoKeyParts(table: Table, names: seq<Bytes>, values: seq<Bytes>)
    requires |values| == |table.columns|
    ensures KeyParts(table, names, values) == [] <==> forall c :: c in table.columns ==> c.name !in names
  {
    if names != [] {
      NoKeyParts(table, names[1..], values);
      assert forall n :: n in names <==> n == names[0] || n in names[1..];
    }
  }

  /** One more record, after `done` have been written. */
  method WriteNext(bus: PermutiveBus, r: Record, ghost plain: bool, ghost s: Tiers, ghost now: Instant,
                   ghost done: seq<Record>)
    requires bus.Valid()
    requires plain ==> Restored(s, now, done, bus.State(), bus.clock.now) && Namespace(r.key) !in bus.persistent.shelved
    modifies bus.transient.store, bus.persistent, bus.clock
    ensures bus.Valid() && bus.persistent.shelved.Keys <= old(bus.persistent.shelved.Keys)
    ensures plain ==> Restored(s, now, done + [r], bus.State(), bus.clock.now)
  {
    hide Restored, RestoredOne, Agree, Flatten, PersistentTier.Table, Sharded, Reloadable, Namespace;
    ghost var s1, now1 := bus.State(), bus.clock.now;
    RestoreRecord(bus, r);
    if plain { RestoredPush(s, now, done, s1, now1, r, bus.State(), bus.clock.now); }
  }

  /** The relationship markers of a row, after `done` have been written. */
  method WriteMarkers(bus: PermutiveBus, table: Table, values: seq<Bytes>, keyParts: seq<Bytes>,
                      ghost before: Files, ghost records: seq<Record>, ghost plain: bool, ghost s: Tiers,
                      ghost now: Instant, ghost done: seq<Record>)
    returns (count: nat)
    requires bus.Valid() && |values| == |table.columns| && keyParts == KeyParts(table, table.primaryKey, values)
    requires records == done + RelationRecords(table, table.foreignKeys, values)
    requires bus.persistent.shelved.Keys <= before.Keys && (plain ==> NoneShelved(records, before))
    requires plain ==> Restored(s, now, done, bus.State(), bus.clock.now)
    modifies bus.transient.store, bus.persistent, bus.clock
    ensures bus.Valid() && count == |records| - |done| && bus.persistent.shelved.Keys <= before.Keys
    ensures plain ==> Restored(s, now, records, bus.State(), bus.clock.now)
  {
    hide Restored, RestoredOne, Agree, Flatten, PersistentTier.Table, Sharded, Reloadable, Namespace, Join, KeyParts;
    hide RelationKey, NoneShelved, IndexOf;
    ghost var written := done;
    count := 0;
    var i := 0;
    assert table.foreignKeys[0..] == table.foreignKeys;
    while i < |table.foreignKeys|
      invariant 0 <= i <= |table.foreignKeys| && |written| == |done| + count
      invariant bus.Valid() && bus.persistent.shelved.Keys <= before.Keys
      invariant written + RelationRecords(table, table.foreignKeys[i..], values) == records
      invariant plain ==> Restored(s, now, written, bus.State(), bus.clock.now)
    {
      var fk := table.foreignKeys[i];
      assert table.foreignKeys[i..][1..] == table.foreignKeys[i + 1..];
      var fkIndex := IndexOf(table.columns, fk.column);
      if fkIndex.Some? {
        var marker := Record(RelationKey(table, fk, values[fkIndex.value], keyParts), [], 0);
        assert marker in records;
        if plain { RecordNotShelved(records, before, bus.persistent.shelved, marker); }
        WriteNext(bus, marker, plain, s, now, written);
        written := written + [marker];
        count := count + 1;
      }
      i := i + 1;
    }
    assert table.foreignKeys[i..] == [] && written + [] == written;
  }

  /** Write a row and its relationship markers; a rejected row writes nothing. */
  method WriteRow(bus: PermutiveBus, table: Table, values: seq<Bytes>) returns (relationships: Option<nat>)
    requires bus.Valid()
    modifies bus.transient.store, bus.persistent, bus.clock
    ensures bus.Valid() && bus.persistent.shelved.Keys <= old(bus.persistent.shelved.Keys)
    ensures match RowRecords(table, values)
            case None => relationships == None && bus.State() == old(bus.State()) && bus.clock.now == old(bus.clock.now)
            case Some(records) =>
              && relationships == Some(|records| - 1)
              && (NoneShelved(records, old(bus.persistent.shelved)) ==>
                    Restored(old(bus.State()), old(bus.clock.now), records, bus.State(), bus.clock.now))
  {
    hide Restored, RestoredOne, Agree, Flatten, PersistentTier.Table, Sharded, Reloadable, Namespace, Join, KeyParts;
    hide RelationRecords, OtherValues, NoneShelved;
    if |values| != |table.columns| { return None; }
    var keyParts := KeyParts(table, table.primaryKey, values);
    if keyParts == [] { return None; }
    var valueParts := BuildValueParts(table, values);
    ghost var s, now, before := bus.State(), bus.clock.now, bus.persistent.shelved;
    ghost var records := RowRecords(table, values).value;
    ghost var plain := NoneShelved(records, before);
    var row := Record(table.name + [COLON] + Join(keyParts, COLON), Join(valueParts, NEWLINE), 0);
    RestoredNone(s, now);
    if plain { RecordNotShelved(records, before, bus.persistent.shelved, row); }
    WriteNext(bus, row, plain, s, now, []);
    assert [] + [row] == [row];
    var count := WriteMarkers(bus, table, values, keyParts, before, records, plain, s, now, [row]);
    relationships := Some(count);
  }

  // ----- rebuilding a row -----

  /** The values of a row in column order: the key text for key columns, the next piece of the
      value for the others, nothing once the pieces run out. */
  function RebuiltRow(flags: seq<bool>, keyText: Bytes, pieces: seq<Bytes>): seq<Bytes> {
    if flags == [] then []
    else if flags[0] then [keyText] + RebuiltRow(flags[1..], keyText, pieces)
    else if pieces == [] then RebuiltRow(flags[1..], keyText, pieces)
    else [pieces[0]] + RebuiltRow(flags[1..], keyText, pieces[1..])
  }

  method RebuildRow(flags: seq<bool>, keyText: Bytes, value: Bytes) returns (all: seq<Bytes>)
    ensures all == RebuiltRow(flags, keyText, Split(value, NEWLINE))
  {
    hide Split;
    var pieces := Split(value, NEWLINE);
    all := [];
    var valueIndex := 0;
    var i := 0;
    while i < |flags|
      invariant 0 <= i <= |flags| && valueIndex <= |pieces|
      invariant RebuiltRow(flags, keyText, pieces) == all + RebuiltRow(flags[i..], keyText, pieces[valueIndex..])
    {
      assert flags[i..][1..] == flags[i + 1..];
      if flags[i] {
        all := all + [keyText];
      } else if valueIndex < |pieces| {
        assert pieces[valueIndex..][1..] == pieces[valueIndex + 1..];
        all := all + [pieces[valueIndex]];
        valueIndex := valueIndex + 1;
      }
      i := i + 1;
    }
  }

  /** The export's reading of a stored row. */
  function ExportedRow(table: Table, flags: seq<bool>, key: Bytes, value: Bytes): seq<Bytes>
    requires |key| > |table.name|
  {
    RebuiltRow(flags, key[|table.name| + 1..], Split(value, NEWLINE))
  }

  function Flags(columns: seq<Column>): (flags: seq<bool>)
    ensures |flags| == |columns| && forall i :: 0 <= i < |flags| ==> flags[i] == columns[i].isPrimaryKey
  {
    seq(|columns|, i requires 0 <= i < |columns| => columns[i].isPrimaryKey)
  }

  /** Column names are distinct, and the primary key names exactly the flagged columns, each
      once. */
  ghost predicate WellKeyed(table: Table) {
    && (forall i, j :: 0 <= i < j < |table.columns| ==> table.columns[i].name != table.columns[j].name)
    && (forall i :: 0 <= i < |table.columns| ==>
          (table.columns[i].isPrimaryKey <==> table.columns[i].name in table.primaryKey))
    && (forall k :: k in table.primaryKey ==> IndexOf(table.columns, k).Some?)
    && (forall i, j :: 0 <= i < j < |table.primaryKey| ==> table.primaryKey[i] != table.primaryKey[j])
  }

  ghost predicate LinesClean(columns: seq<Column>, values: seq<Bytes>)
    requires |values| == |columns|
  {
    forall i :: 0 <= i < |columns| && !columns[i].isPrimaryKey ==> '\n' as int !in values[i]
  }

  ghost predicate KeyTextIs(columns: seq<Column>, values: seq<Bytes>, keyText: Bytes)
    requires |values| == |columns|
  {
    forall i :: 0 <= i < |columns| && columns[i].isPrimaryKey ==> values[i] == keyText
  }

  /** With the right pieces, the rebuilt row is the row exactly when every key column holds
      the key text. */
  lemma {:induction false} RebuiltExact(columns: seq<Column>, values: seq<Bytes>, keyText: Bytes, extra: seq<Bytes>)
    requires |values| == |columns|
    ensures RebuiltRow(Flags(columns), keyText, OtherValues(columns, values) + extra) == values
            <==> KeyTextIs(columns, values, keyText)
    ensures |RebuiltRow(Flags(columns), keyText, OtherValues(columns, values) + extra)| == |values|
    decreases |columns|
  {
    if columns != [] {
      var cs, vs := columns[1..], values[1..];
      RebuiltExact(cs, vs, keyText, extra);
      assert Flags(columns)[1..] == Flags(cs);
      assert values == [values[0]] + vs;
      var pieces := OtherValues(columns, values) + extra;
      if columns[0].isPrimaryKey {
        assert pieces == OtherValues(cs, vs) + extra;
      } else {
        assert pieces == [values[0]] + (OtherValues(cs, vs) + extra);
      }
      assert KeyTextIs(columns, values, keyText) <==>
             (columns[0].isPrimaryKey ==> values[0] == keyText) && KeyTextIs(cs, vs, keyText);
    }
  }

  lemma {:induction false} OtherValuesClean(columns: seq<Column>, values: seq<Bytes>)
    requires |values| == |columns| && LinesClean(columns, values)
    ensures forall v :: v in OtherValues(columns, values) ==> NEWLINE !in v
    decreases |columns|
  {
    if columns != [] { OtherValuesClean(columns[1..], values[1..]); }
  }

  /** Values with a line break never come back: the pieces a row is rebuilt from have none. */
  lemma {:induction false} BrokenLinesLost(columns: seq<Column>, values: seq<Bytes>, keyText: Bytes, pieces: seq<Bytes>)
    requires |values| == |columns| && forall p :: p in pieces ==> NEWLINE !in p
    ensures RebuiltRow(Flags(columns), keyText, pieces) == values ==> LinesClean(columns, values)
    decreases |columns|
  {
    if columns != [] && RebuiltRow(Flags(columns), keyText, pieces) == values {
      var cs, vs := columns[1..], values[1..];
      assert Flags(columns)[1..] == Flags(cs);
      if columns[0].isPrimaryKey {
        BrokenLinesLost(cs, vs, keyText, pieces);
      } else if pieces != [] {
        BrokenLinesLost(cs, vs, keyText, pieces[1..]);
      } else {
        RebuiltLength(Flags(cs), keyText, pieces);
      }
    }
  }

  lemma {:induction false} RebuiltLength(flags: seq<bool>, keyText: Bytes, pieces: seq<Bytes>)
    ensures |RebuiltRow(flags, keyText, pieces)| <= |flags|
    decreases |flags|
  {
    if flags != [] {
      RebuiltLength(flags[1..], keyText, pieces);
      if pieces != [] { RebuiltLength(flags[1..], keyText, pieces[1..]); }
    }
  }

  lemma {:induction false} KeyPartsAt(table: Table, names: seq<Bytes>, values: seq<Bytes>)
    requires |values| == |table.columns|
    requires forall k :: k in names ==> IndexOf(table.columns, k).Some?
    ensures |KeyParts(table, names, values)| == |names|
    ensures names != [] ==> IndexOf(table.columns, names[0]).Some?
                            && KeyParts(table, names, values)[0] == values[IndexOf(table.columns, names[0]).value]
  {
    if names != [] { KeyPartsAt(table, names[1..], values); }
  }

  /** The key text is what every key column holds exactly when the key has one column. */
  lemma KeyTextExact(table: Table, values: seq<Bytes>)
    requires |values| == |table.columns| && WellKeyed(table) && table.primaryKey != []
    ensures KeyTextIs(table.columns, values, Join(KeyParts(table, table.primaryKey, values), COLON))
            <==> |table.primaryKey| == 1
  {
    KeyPartsAt(table, table.primaryKey, values);
    var parts := KeyParts(table, table.primaryKey, values);
    var i := IndexOf(table.columns, table.primaryKey[0]).value;
    if |table.primaryKey| == 1 {
      assert Join(parts, COLON) == values[i];
      forall j | 0 <= j < |table.columns| && table.columns[j].isPrimaryKey
        ensures values[j] == values[i]
      {
        assert table.columns[j].name == table.primaryKey[0] == table.columns[i].name;
      }
    } else {
      JoinLength(parts, COLON, 0);
      assert table.columns[i].isPrimaryKey && values[i] != Join(parts, COLON);
    }
  }

  /** A row written at import is rebuilt at export exactly when its table has a single key
      column and none of its other values contains a line break. */
  lemma RowRoundtripExact(table: Table, values: seq<Bytes>)
    requires |values| == |table.columns| && WellKeyed(table) && table.primaryKey != []
    ensures RowRecords(table, values).Some?
    ensures ExportedRow(table, Flags(table.columns), RowKey(table, values), RowValue(table, values)) == values
            <==> |table.primaryKey| == 1 && LinesClean(table.columns, values)
  {
    KeyPartsAt(table, table.primaryKey, values);
    var keyText := Join(KeyParts(table, table.primaryKey, values), COLON);
    hide WellKeyed, KeyParts, Join, RebuiltRow, OtherValues, KeyTextIs, Split;
    assert RowKey(table, values)[|table.name| + 1..] == keyText;
    KeyTextExact(table, values);
    var pieces := Split(RowValue(table, values), NEWLINE);
    if LinesClean(table.columns, values) {
      var extra := PiecesOf(table.columns, values);
      RebuiltExact(table.columns, values, keyText, extra);
    } else {
      BrokenLinesLost(table.columns, values, keyText, pieces);
    }
  }

  lemma PiecesOf(columns: seq<Column>, values: seq<Bytes>) returns (extra: seq<Bytes>)
    requires |values| == |columns| && LinesClean(columns, values)
    ensures Split(Join(OtherValues(columns, values), NEWLINE), NEWLINE) == OtherValues(columns, values) + extra
  {
    OtherValuesClean(columns, values);
    if OtherValues(columns, values) == [] {
      extra := [[]];
    } else {
      SplitJoin(OtherValues(columns, values), NEWLINE);
      extra := [];
    }
  }

  // ----- keys of rows -----

  lemma {:induction false} KeyPartsNth(table: Table, names: seq<Bytes>, values: seq<Bytes>)
    requires |values| == |table.columns| && forall k :: k in names ==> IndexOf(table.columns, k).Some?
    ensures |KeyParts(table, names, values)| == |names|
    ensures forall j :: 0 <= j < |names| ==>
              IndexOf(table.columns, names[j]).Some?
              && KeyParts(table, names, values)[j] == values[IndexOf(table.columns, names[j]).value]
  {
    if names != [] { KeyPartsNth(table, names[1..], values); }
  }

  lemma JoinInjective(a: seq<Bytes>, b: seq<Bytes>, separator: Byte)
    requires a != [] && b != [] && Join(a, separator) == Join(b, separator)
    requires (forall p :: p in a ==> separator !in p) && forall p :: p in b ==> separator !in p
    ensures a == b
  {
    SplitJoin(a, separator);
    SplitJoin(b, separator);
  }

  ghost predicate KeyValuesClean(columns: seq<Column>, values: seq<Bytes>)
    requires |values| == |columns|
  {
    forall i :: 0 <= i < |columns| && columns[i].isPrimaryKey ==> COLON !in values[i]
  }

  /** Rows whose key values have no colon share a key exactly if they agree in every key column,
      however many there are. */
  lemma RowKeysDiffer(table: Table, v: seq<Bytes>, w: seq<Bytes>)
    requires |v| == |table.columns| == |w| && WellKeyed(table) && table.primaryKey != []
    requires KeyValuesClean(table.columns, v) && KeyValuesClean(table.columns, w)
    ensures RowKey(table, v) == RowKey(table, w) <==>
            forall i :: 0 <= i < |table.columns| && table.columns[i].isPrimaryKey ==> v[i] == w[i]
  {
    var names := table.primaryKey;
    KeyPartsNth(table, names, v);
    KeyPartsNth(table, names, w);
    var a, b := KeyParts(table, names, v), KeyParts(table, names, w);
    KeyColumns(table);
    hide KeyParts, Join, WellKeyed;
    var n := |table.name| + 1;
    assert RowKey(table, v)[n..] == Join(a, COLON) && RowKey(table, w)[n..] == Join(b, COLON);
    if RowKey(table, v) == RowKey(table, w) {
      JoinInjective(a, b, COLON);
      forall i | 0 <= i < |table.columns| && table.columns[i].isPrimaryKey ensures v[i] == w[i] {
        var j :| 0 <= j < |names| && IndexOf(table.columns, names[j]) == Some(i);
        assert a[j] == v[i] && b[j] == w[i];
      }
    }
    if forall i :: 0 <= i < |table.columns| && table.columns[i].isPrimaryKey ==> v[i] == w[i] {
      assert a == b;
    }
  }

  /** The primary key names exactly the key columns. */
  lemma KeyColumns(table: Table)
    requires WellKeyed(table)
    ensures forall j :: 0 <= j < |table.primaryKey| ==>
              IndexOf(table.columns, table.primaryKey[j]).Some?
              && table.columns[IndexOf(table.columns, table.primaryKey[j]).value].isPrimaryKey
    ensures forall i :: 0 <= i < |table.columns| && table.columns[i].isPrimaryKey ==>
              exists j :: 0 <= j < |table.primaryKey| && IndexOf(table.columns, table.primaryKey[j]) == Some(i)
  {
    hide IndexOf;
    forall j | 0 <= j < |table.primaryKey|
      ensures IndexOf(table.columns, table.primaryKey[j]).Some?
              && table.columns[IndexOf(table.columns, table.primaryKey[j]).value].isPrimaryKey
    {
      assert table.primaryKey[j] in table.primaryKey;
    }
    forall i | 0 <= i < |table.columns| && table.columns[i].isPrimaryKey
      ensures exists j :: 0 <= j < |table.primaryKey| && IndexOf(table.columns, table.primaryKey[j]) == Some(i)
    {
      var j :| 0 <= j < |table.primaryKey| && table.primaryKey[j] == table.columns[i].name;
      var found := IndexOf(table.columns, table.primaryKey[j]).value;
      assert table.columns[found].name == table.columns[i].name;
    }
  }

  // ----- tables do not mix -----

  /** Table names are cleaned of everything but letters, digits and underscores, whatever
      counts as a letter beyond ASCII. */
  function Sanitised(name: Bytes, keep: Byte -> bool): Bytes {
    if name == [] then []
    else (if keep(name[0]) then [name[0]] else []) + Sanitised(name[1..], keep)
  }

  lemma {:induction false} SanitisedHasNoColon(name: Bytes, keep: Byte -> bool)
    requires !keep(COLON)
    ensures COLON !in Sanitised(name, keep)
  {
    if name != [] { SanitisedHasNoColon(name[1..], keep); }
  }

  /** Cleaning works byte by byte, wherever a byte stands. */
  lemma {:induction false} SanitisedParts(a: Bytes, b: Bytes, keep: Byte -> bool)
    ensures Sanitised(a + b, keep) == Sanitised(a, keep) + Sanitised(b, keep)
  {
    if a == [] {
      assert a + b == b;
    } else {
      assert (a + b)[1..] == a[1..] + b;
      SanitisedParts(a[1..], b, keep);
      var first := if keep(a[0]) then [a[0]] else [];
      hide Sanitised;
      assert (first + Sanitised(a[1..], keep)) + Sanitised(b, keep)
             == first + (Sanitised(a[1..], keep) + Sanitised(b, keep));
    }
  }

  /** Of a run of bytes it keeps all or none. */
  lemma {:induction false} SanitisedRuns(bytes: Bytes, keep: Byte -> bool)
    ensures (forall b :: b in bytes ==> keep(b)) ==> Sanitised(bytes, keep) == bytes
    ensures (forall b :: b in bytes ==> !keep(b)) ==> Sanitised(bytes, keep) == []
  {
    if bytes != [] {
      assert bytes == [bytes[0]] + bytes[1..];
      SanitisedRuns(bytes[1..], keep);
    }
  }

  lemma {:induction false} TableOfKey(name: Bytes, key: Bytes)
    requires COLON !in name && StartsWith(key, name + [COLON])
    ensures UpToColon(key) == Some(name)
  {
    assert key[..|name| + 1] == name + [COLON];
    assert key[0] == (name + [COLON])[0];
    if name != [] {
      assert key[1..][..|name|] == name[1..] + [COLON];
      TableOfKey(name[1..], key[1..]);
      assert name == [name[0]] + name[1..];
    }
  }

  /** Start-up never misses a file that the rows of a named table live in. */
  lemma TablesNeverMissed(table: Table, values: seq<Bytes>, shelved: Files)
    requires RowRecords(table, values).Some? && table.name != [] && COLON !in table.name && SLASH !in table.name
    requires forall ns :: ns in shelved ==> !Reloadable(ns)
    ensures NoneShelved(RowRecords(table, values).value, shelved)
  {
    hide Join, KeyParts, OtherValues, IsUtf8;
    var key := RowKey(table, values);
    assert key[..|table.name| + 1] == table.name + [COLON];
    TableOfKey(table.name, key);
    MarkersUnderRel(table, table.foreignKeys, values);
    assert REL != [] && SLASH !in REL;
    forall r | r in RowRecords(table, values).value ensures Namespace(r.key) !in shelved {
      assert Reloadable(Namespace(r.key));
    }
  }

  lemma {:induction false} MarkersUnderRel(table: Table, fks: seq<ForeignKey>, values: seq<Bytes>)
    requires |values| == |table.columns|
    ensures forall r :: r in RelationRecords(table, fks, values) ==> r.ttl == 0 && UpToColon(r.key) == Some(REL)
  {
    hide Join, KeyParts;
    assert COLON !in REL;
    if fks != [] {
      MarkersUnderRel(table, fks[1..], values);
      var i := IndexOf(table.columns, fks[0].column);
      if i.Some? {
        var key := RelationKey(table, fks[0], values[i.value], KeyParts(table, table.primaryKey, values));
        assert key[..|REL| + 1] == REL + [COLON];
        TableOfKey(REL, key);
      }
    }
  }

  /** The scans by which tables are exported never overlap. */
  lemma ScansDisjoint(a: Bytes, b: Bytes, key: Bytes)
    requires COLON !in a && COLON !in b
    requires StartsWith(key, a + [COLON]) && StartsWith(key, b + [COLON])
    ensures a == b
  {
    TableOfKey(a, key);
    TableOfKey(b, key);
  }
}
