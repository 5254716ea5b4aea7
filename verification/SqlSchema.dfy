/** Table schemas as stored text: what import renders, export parses back. */
module SqlSchema {
  import opened ByteStrings
  import opened SqlText
  import opened SqlRows

  // ----- schemas -----

  const PK: Bytes := Ascii("pk")
  const TTL_MARK: Bytes := Ascii("ttl")

  function FindForeignKey(fks: seq<ForeignKey>, column: Bytes): Option<ForeignKey> {
    if fks == [] then None
    else if fks[0].column == column then Some(fks[0])
    else FindForeignKey(fks[1..], column)
  }

  function WithPk(line: Bytes, column: Column): Bytes {
    if column.isPrimaryKey then line + Ascii(":pk") else line
  }

  function FkText(fk: ForeignKey): Bytes {
    Ascii("fk=") + fk.table + Ascii(".") + fk.refColumn
  }

  function WithFk(line: Bytes, fk: Option<ForeignKey>): Bytes {
    match fk
    case Some(fk) => line + Ascii(":") + FkText(fk)
    case None => line
  }

  function WithTtl(line: Bytes, isTtl: bool): Bytes {
    if isTtl then line + Ascii(":ttl") else line
  }

  /** One line of the schema: name, type, and what else is known of the column. */
  function RenderLine(table: Table, column: Column): Bytes {
    var line := column.name + [COLON] + column.dataType;
    var line := WithPk(line, column);
    var line := WithFk(line, FindForeignKey(table.foreignKeys, column.name));
    WithTtl(line, table.ttlColumn == Some(column.name))
  }

  function RenderSchema(table: Table, columns: seq<Column>): Bytes {
    if columns == [] then [] else RenderLine(table, columns[0]) + [NEWLINE] + RenderSchema(table, columns[1..])
  }

  method RenderSchemaEntry(table: Table) returns (schema: Bytes)
    ensures schema == RenderSchema(table, table.columns)
  {
    hide RenderLine, RenderSchema;
    schema := [];
    NoLines(table);
    var i := 0;
    while i < |table.columns|
      invariant 0 <= i <= |table.columns|
      invariant RenderSchema(table, table.columns) == schema + RenderSchema(table, table.columns[i..])
    {
      NextLine(table, schema, i);
      schema := schema + RenderLine(table, table.columns[i]);
      schema := schema + [NEWLINE];
      i := i + 1;
    }
  }

  lemma NoLines(table: Table)
    ensures table.columns[0..] == table.columns && table.columns[|table.columns|..] == []
    ensures RenderSchema(table, []) == []
  {
  }

  lemma NextLine(table: Table, schema: Bytes, i: nat)
    requires i < |table.columns|
    ensures schema + RenderSchema(table, table.columns[i..])
            == (schema + RenderLine(table, table.columns[i])) + [NEWLINE] + RenderSchema(table, table.columns[i + 1..])
  {
    hide RenderLine;
    assert table.columns[i..][1..] == table.columns[i + 1..];
  }

  datatype SchemaColumn = SchemaColumn(dataType: Bytes, isPk: bool)

  function WithoutReturn(line: Bytes): Bytes {
    if line != [] && line[|line| - 1] == RETURN then line[..|line| - 1] else line
  }

  /** `str::lines`: a final line break ends the last line instead of starting another. */
  function Lines(pieces: seq<Bytes>): seq<Bytes> {
    if |pieces| == 0 then []
    else if |pieces| == 1 then (if pieces[0] == [] then [] else [pieces[0]])
    else [WithoutReturn(pieces[0])] + Lines(pieces[1..])
  }

  function ParseColumn(line: Bytes): SchemaColumn {
    var parts := Split(line, COLON);
    SchemaColumn(if |parts| > 1 then parts[1] else Ascii("TEXT"), PK in parts)
  }

  function ParseLines(lines: seq<Bytes>): seq<SchemaColumn> {
    if lines == [] then []
    else (if lines[0] == [] then [] else [ParseColumn(lines[0])]) + ParseLines(lines[1..])
  }

  function ParseSchema(schema: Bytes): seq<SchemaColumn> {
    ParseLines(Lines(Split(schema, NEWLINE)))
  }

  /** No line break of either kind. */
  predicate OneLine(text: Bytes) {
    '\n' as int !in text && '\r' as int !in text
  }

  ghost predicate OneLineTable(table: Table) {
    && (forall c :: c in table.columns ==> OneLine(c.name) && OneLine(c.dataType))
    && (forall fk :: fk in table.foreignKeys ==> OneLine(fk.table) && OneLine(fk.refColumn))
  }

  function PkParts(column: Column): seq<Bytes> {
    if column.isPrimaryKey then [PK] else []
  }

  function FkParts(fk: Option<ForeignKey>): seq<Bytes> {
    match fk
    case Some(fk) => [FkText(fk)]
    case None => []
  }

  function TtlParts(isTtl: bool): seq<Bytes> {
    if isTtl then [TTL_MARK] else []
  }

  /** The parts of a line between its colons. */
  function LineParts(table: Table, column: Column): seq<Bytes> {
    [column.name, column.dataType] + PkParts(column)
    + FkParts(FindForeignKey(table.foreignKeys, column.name)) + TtlParts(table.ttlColumn == Some(column.name))
  }

  lemma {:induction false} JoinPush(parts: seq<Bytes>, part: Bytes, separator: Byte)
    requires parts != []
    ensures Join(parts + [part], separator) == Join(parts, separator) + [separator] + part
  {
    if |parts| == 1 {
      assert (parts + [part])[1..] == [part];
    } else {
      assert (parts + [part])[1..] == parts[1..] + [part];
      JoinPush(parts[1..], part, separator);
    }
  }

  lemma {:induction false} FoundForeignKey(fks: seq<ForeignKey>, column: Bytes)
    ensures FindForeignKey(fks, column).Some? ==> FindForeignKey(fks, column).value in fks
    ensures FindForeignKey(fks, column).None? <==> forall fk :: fk in fks ==> fk.column != column
    ensures forall i :: IsFirstOf(fks, column, i) ==> FindForeignKey(fks, column) == Some(fks[i])
  {
    if fks != [] {
      FoundForeignKey(fks[1..], column);
      forall i | IsFirstOf(fks, column, i) && i > 0 ensures IsFirstOf(fks[1..], column, i - 1) {
        assert fks[1..][i - 1] == fks[i];
      }
    }
  }

  /** The pieces of a line, by name: whatever follows name and type says what the table says. */
  lemma LineSplits(table: Table, column: Column)
    requires COLON !in column.name && COLON !in column.dataType
    requires forall fk :: fk in table.foreignKeys ==> COLON !in fk.table && COLON !in fk.refColumn
    ensures var pieces := Split(RenderLine(table, column), COLON);
            && |pieces| >= 2 && pieces[0] == column.name && pieces[1] == column.dataType
            && (column.isPrimaryKey <==> Ascii("pk") in pieces[2..])
            && (table.ttlColumn == Some(column.name) <==> Ascii("ttl") in pieces[2..])
            && (forall i :: IsFirstOf(table.foreignKeys, column.name, i) ==>
                  var fk := table.foreignKeys[i];
                  Ascii("fk=") + fk.table + Ascii(".") + fk.refColumn in pieces[2..])
            && ((forall fk :: fk in table.foreignKeys ==> fk.column != column.name)
                  ==> forall p :: p in pieces[2..] ==> p == Ascii("pk") || p == Ascii("ttl"))
  {
    hide Join, Split, RenderLine, FindForeignKey, FkText, PkParts, FkParts, TtlParts;
    var fk, isTtl := FindForeignKey(table.foreignKeys, column.name), table.ttlColumn == Some(column.name);
    FoundForeignKey(table.foreignKeys, column.name);
    PartsAreBare(column, fk, isTtl);
    LineIsJoin(table, column);
    SplitJoin(LineParts(table, column), COLON);
    assert LineParts(table, column)[2..] == PkParts(column) + FkParts(fk) + TtlParts(isTtl);
    MarksIn(column, fk, isTtl);
  }

  lemma PartsAreBare(column: Column, fk: Option<ForeignKey>, isTtl: bool)
    requires fk.Some? ==> COLON !in fk.value.table && COLON !in fk.value.refColumn
    ensures forall p :: p in PkParts(column) + FkParts(fk) + TtlParts(isTtl) ==> COLON !in p
  {
    assert COLON !in Ascii("fk=") && COLON !in Ascii(".") && COLON !in PK && COLON !in TTL_MARK;
  }

  lemma MarksIn(column: Column, fk: Option<ForeignKey>, isTtl: bool)
    ensures var marks := PkParts(column) + FkParts(fk) + TtlParts(isTtl);
            && (column.isPrimaryKey <==> Ascii("pk") in marks) && (isTtl <==> Ascii("ttl") in marks)
            && (fk.Some? ==> Ascii("fk=") + fk.value.table + Ascii(".") + fk.value.refColumn in marks)
            && (fk.None? ==> forall p :: p in marks ==> p == Ascii("pk") || p == Ascii("ttl"))
  {
    assert PK[0] == 112 && TTL_MARK[0] == 116;
    if fk.Some? { assert FkText(fk.value)[0] == 102; }
  }

  /** The first of the references that has the column. */
  ghost predicate IsFirstOf(fks: seq<ForeignKey>, column: Bytes, i: int) {
    0 <= i < |fks| && fks[i].column == column && forall j :: 0 <= j < i ==> fks[j].column != column
  }

  lemma MarkJoins(parts: seq<Bytes>, line: Bytes, mark: Bytes, part: Bytes)
    requires parts != [] && line == Join(parts, COLON) && mark == [COLON] + part
    ensures line + mark == Join(parts + [part], COLON)
  {
    hide Join;
    JoinPush(parts, part, COLON);
    assert line + mark == line + [COLON] + part;
  }

  lemma LineIsJoin(table: Table, column: Column)
    ensures RenderLine(table, column) == Join(LineParts(table, column), COLON)
  {
    var p0 := [column.name, column.dataType];
    assert Join(p0, COLON) == column.name + [COLON] + column.dataType by { assert p0[1..] == [column.dataType]; }
    var fk, isTtl := FindForeignKey(table.foreignKeys, column.name), table.ttlColumn == Some(column.name);
    PkJoins(p0, column);
    var p1 := p0 + PkParts(column);
    FkJoins(p1, fk);
    TtlJoins(p1 + FkParts(fk), isTtl);
  }

  lemma PkJoins(parts: seq<Bytes>, column: Column)
    requires parts != []
    ensures WithPk(Join(parts, COLON), column) == Join(parts + PkParts(column), COLON)
  {
    hide Join;
    assert Ascii(":pk") == [COLON] + PK;
    MarkJoins(parts, Join(parts, COLON), Ascii(":pk"), PK);
    assert parts + [] == parts;
  }

  lemma FkJoins(parts: seq<Bytes>, fk: Option<ForeignKey>)
    requires parts != []
    ensures WithFk(Join(parts, COLON), fk) == Join(parts + FkParts(fk), COLON)
  {
    hide Join, FkText;
    assert parts + [] == parts;
    if fk.Some? {
      assert Ascii(":") == [COLON];
      MarkJoins(parts, Join(parts, COLON), [COLON] + FkText(fk.value), FkText(fk.value));
    }
  }

  lemma TtlJoins(parts: seq<Bytes>, isTtl: bool)
    requires parts != []
    ensures WithTtl(Join(parts, COLON), isTtl) == Join(parts + TtlParts(isTtl), COLON)
  {
    hide Join;
    assert parts + [] == parts;
    assert Ascii(":ttl") == [COLON] + TTL_MARK;
    MarkJoins(parts, Join(parts, COLON), Ascii(":ttl"), TTL_MARK);
  }

  /** A column is read back as a key column if the mark is anywhere among the pieces of its
      line: put there for a key column, or a piece of its name, type or reference. */
  predicate ReadsAsKey(table: Table, column: Column) {
    var fk := FindForeignKey(table.foreignKeys, column.name);
    || column.isPrimaryKey
    || PK in Split(column.name, COLON) || PK in Split(column.dataType, COLON)
    || (fk.Some? && PK in Split(FkText(fk.value), COLON))
  }

  /** The type that is read back is the second piece of the line. */
  function TypeRead(column: Column): Bytes {
    (Split(column.name, COLON) + Split(column.dataType, COLON))[1]
  }

  lemma FkTextFacts(fk: ForeignKey)
    requires OneLine(fk.table) && OneLine(fk.refColumn)
    ensures OneLine(FkText(fk))
  {
    var a, b := Ascii("fk="), Ascii(".");
    assert OneLine(a) && OneLine(b);
  }

  lemma MarkFacts()
    ensures OneLine(PK) && OneLine(TTL_MARK) && TTL_MARK != PK
    ensures Split(PK, COLON) == [PK] && Split(TTL_MARK, COLON) == [TTL_MARK]
  {
    assert |PK| == 2 && |TTL_MARK| == 3;
    SplitPiece(PK, [], COLON);
    SplitPiece(TTL_MARK, [], COLON);
  }

  lemma PartsOneLine(table: Table, column: Column)
    requires OneLineTable(table) && column in table.columns
    ensures forall p :: p in LineParts(table, column) ==> OneLine(p)
  {
    MarkFacts();
    FoundForeignKey(table.foreignKeys, column.name);
    var fk := FindForeignKey(table.foreignKeys, column.name);
    if fk.Some? { FkTextFacts(fk.value); }
    hide OneLine, PK, TTL_MARK, FkText;
  }

  lemma {:induction false} PiecesConcat(a: seq<Bytes>, b: seq<Bytes>, separator: Byte)
    ensures Pieces(a + b, separator) == Pieces(a, separator) + Pieces(b, separator)
  {
    if a == [] {
      assert a + b == b;
    } else {
      assert (a + b)[1..] == a[1..] + b;
      PiecesConcat(a[1..], b, separator);
    }
  }

  lemma OnePiece(part: Bytes, separator: Byte)
    ensures Pieces([part], separator) == Split(part, separator)
  {
    assert [part][1..] == [] && Pieces([], separator) == [];
  }

  lemma LinePieces(table: Table, column: Column)
    ensures var pieces := Pieces(LineParts(table, column), COLON);
            && |pieces| >= 2 && pieces[1] == TypeRead(column)
            && (PK in pieces <==> ReadsAsKey(table, column))
  {
    MarkFacts();
    hide PK, TTL_MARK, FkText, Split;
    var fk, isTtl := FindForeignKey(table.foreignKeys, column.name), table.ttlColumn == Some(column.name);
    var front := [column.name, column.dataType];
    assert front == [column.name] + [column.dataType];
    PiecesConcat([column.name], [column.dataType], COLON);
    PiecesConcat(front, PkParts(column), COLON);
    PiecesConcat(front + PkParts(column), FkParts(fk), COLON);
    PiecesConcat(front + PkParts(column) + FkParts(fk), TtlParts(isTtl), COLON);
    OnePiece(column.name, COLON);
    OnePiece(column.dataType, COLON);
    OnePiece(PK, COLON);
    OnePiece(TTL_MARK, COLON);
    if fk.Some? { OnePiece(FkText(fk.value), COLON); }
  }

  lemma LineParses(table: Table, column: Column)
    requires OneLineTable(table) && column in table.columns
    ensures var line := RenderLine(table, column);
            && NEWLINE !in line && RETURN !in line && line != []
            && ParseColumn(line) == SchemaColumn(TypeRead(column), ReadsAsKey(table, column))
  {
    hide ReadsAsKey, TypeRead, RenderLine, FkText, Split, PK;
    PartsOneLine(table, column);
    LineIsJoin(table, column);
    var parts := LineParts(table, column);
    SplitPieces(parts, COLON);
    LinePieces(table, column);
    JoinOneLine(parts);
    assert |Join(parts, COLON)| >= |parts| - 1 by { JoinLength(parts, COLON, 0); }
  }

  lemma {:induction false} JoinOneLine(parts: seq<Bytes>)
    requires forall p :: p in parts ==> OneLine(p)
    ensures NEWLINE !in Join(parts, COLON) && RETURN !in Join(parts, COLON)
  {
    if |parts| > 1 {
      JoinOneLine(parts[1..]);
      assert parts[0] in parts;
      assert forall p :: p in parts[1..] ==> p in parts;
    } else if |parts| == 1 {
      assert parts[0] in parts;
    }
  }

  function Expected(table: Table, columns: seq<Column>): seq<SchemaColumn> {
    if columns == [] then []
    else [SchemaColumn(TypeRead(columns[0]), ReadsAsKey(table, columns[0]))] + Expected(table, columns[1..])
  }

  lemma {:induction false} SchemaParsesFrom(table: Table, columns: seq<Column>)
    requires OneLineTable(table) && forall c :: c in columns ==> c in table.columns
    ensures ParseSchema(RenderSchema(table, columns)) == Expected(table, columns)
    decreases |columns|
  {
    hide RenderLine, ParseColumn, OneLineTable, Split, PK, ReadsAsKey, TypeRead;
    if columns == [] {
      EmptySchema();
    } else {
      var line, rest := RenderLine(table, columns[0]), RenderSchema(table, columns[1..]);
      LineParses(table, columns[0]);
      SplitPiece(line, rest, NEWLINE);
      SchemaParsesFrom(table, columns[1..]);
      var pieces := Split(rest, NEWLINE);
      assert RenderSchema(table, columns) == line + [NEWLINE] + rest;
      assert ([line] + pieces)[1..] == pieces;
      assert WithoutReturn(line) == line;
      assert Lines([line] + pieces) == [line] + Lines(pieces);
      assert ([line] + Lines(pieces))[1..] == Lines(pieces);
    }
  }

  lemma EmptySchema()
    ensures ParseSchema([]) == []
  {
  }

  lemma {:induction false} ExpectedAt(table: Table, columns: seq<Column>)
    ensures |Expected(table, columns)| == |columns|
    ensures forall i :: 0 <= i < |columns| ==>
              Expected(table, columns)[i] == SchemaColumn(TypeRead(columns[i]), ReadsAsKey(table, columns[i]))
  {
    hide ReadsAsKey, TypeRead;
    if columns != [] { ExpectedAt(table, columns[1..]); }
  }

  /** What comes back of a column's type: all of it exactly when it has no colon, and nothing of
      it if the name has one. */
  lemma TypeReadExact(column: Column)
    ensures COLON !in column.name ==> TypeRead(column) == Split(column.dataType, COLON)[0]
    ensures COLON !in column.name ==> (TypeRead(column) == column.dataType <==> COLON !in column.dataType)
    ensures COLON in column.name ==> TypeRead(column) == Split(column.name, COLON)[1]
  {
    if COLON !in column.name { SplitPiece(column.name, [], COLON); }
    if COLON !in column.dataType { SplitPiece(column.dataType, [], COLON); }
    assert Split(column.dataType, COLON)[0] in Split(column.dataType, COLON);
  }

  /** The stored schema parses back column by column, whatever the names and types, if they
      hold no line break. A type comes back exactly when it has no colon (like `ENUM('a:b')`),
      and a key flag exactly when no piece of the line is mistaken for the mark. */
  lemma SchemaParsesBack(table: Table)
    requires OneLineTable(table)
    ensures var parsed := ParseSchema(RenderSchema(table, table.columns));
            && |parsed| == |table.columns|
            && forall i :: 0 <= i < |parsed| ==>
                 var c := table.columns[i];
                 && (parsed[i].isPk <==> ReadsAsKey(table, c))
                 && (COLON !in c.name ==> (parsed[i].dataType == c.dataType <==> COLON !in c.dataType))
                 && (COLON !in c.name ==> parsed[i].dataType == Split(c.dataType, COLON)[0])
                 && (COLON in c.name ==> parsed[i].dataType == Split(c.name, COLON)[1])
  {
    hide ReadsAsKey, TypeRead, RenderSchema, ParseSchema, Split;
    SchemaParsesFrom(table, table.columns);
    ExpectedAt(table, table.columns);
    forall c | c in table.columns
      ensures COLON !in c.name ==> TypeRead(c) == Split(c.dataType, COLON)[0]
      ensures COLON !in c.name ==> (TypeRead(c) == c.dataType <==> COLON !in c.dataType)
      ensures COLON in c.name ==> TypeRead(c) == Split(c.name, COLON)[1]
    {
      TypeReadExact(c);
    }
  }

  function ParsedFlags(parsed: seq<SchemaColumn>): (flags: seq<bool>)
    ensures |flags| == |parsed| && forall i :: 0 <= i < |flags| ==> flags[i] == parsed[i].isPk
  {
    seq(|parsed|, i requires 0 <= i < |parsed| => parsed[i].isPk)
  }

  /** The flags that export works with. */
  function StoredFlags(table: Table): seq<bool> {
    ParsedFlags(ParseSchema(RenderSchema(table, table.columns)))
  }

  predicate NoneMisread(table: Table) {
    forall c | c in table.columns :: ReadsAsKey(table, c) ==> c.isPrimaryKey
  }

  lemma StoredFlagsAt(table: Table)
    requires OneLineTable(table)
    ensures |StoredFlags(table)| == |table.columns|
    ensures forall i :: 0 <= i < |table.columns| ==> StoredFlags(table)[i] == ReadsAsKey(table, table.columns[i])
  {
    hide ReadsAsKey, RenderSchema, ParseSchema, Split;
    SchemaParsesBack(table);
  }

  /** Import, then export with the schema read back from the store: if no column is mistaken
      for a key column, a row comes back exactly when the key is one column and no other value
      has a line break. */
  lemma TableRoundtrip(table: Table, values: seq<Bytes>)
    requires OneLineTable(table) && WellKeyed(table) && table.primaryKey != [] && |values| == |table.columns|
    requires NoneMisread(table)
    ensures ExportedRow(table, StoredFlags(table), RowKey(table, values), RowValue(table, values)) == values
            <==> |table.primaryKey| == 1 && LinesClean(table.columns, values)
  {
    hide ReadsAsKey, RenderSchema, ParseSchema, WellKeyed, ExportedRow, LinesClean;
    StoredFlagsAt(table);
    assert StoredFlags(table) == Flags(table.columns) by {
      forall i | 0 <= i < |table.columns| ensures StoredFlags(table)[i] == Flags(table.columns)[i] {
        assert table.columns[i] in table.columns;
        assert table.columns[i].isPrimaryKey ==> ReadsAsKey(table, table.columns[i]) by { KeysReadAsKeys(table, i); }
      }
    }
    RowRoundtripExact(table, values);
  }

  lemma KeysReadAsKeys(table: Table, i: nat)
    requires i < |table.columns|
    ensures table.columns[i].isPrimaryKey ==> ReadsAsKey(table, table.columns[i])
  {
  }

  // ----- which tables survive -----

  /** A row whose key columns all say `a` and whose other columns all say `b`. */
  function Telling(columns: seq<Column>): (values: seq<Bytes>)
    ensures |values| == |columns|
    ensures forall i :: 0 <= i < |columns| ==> values[i] == if columns[i].isPrimaryKey then [97] else [98]
  {
    seq(|columns|, i requires 0 <= i < |columns| => if columns[i].isPrimaryKey then [97] else [98])
  }

  /** In a row that is rebuilt as it was, every flagged column holds the key text. */
  lemma {:induction false} FlaggedHoldKey(flags: seq<bool>, keyText: Bytes, pieces: seq<Bytes>, values: seq<Bytes>)
    requires |values| == |flags| && RebuiltRow(flags, keyText, pieces) == values
    ensures forall i :: 0 <= i < |flags| && flags[i] ==> values[i] == keyText
    decreases |flags|
  {
    if flags != [] {
      RebuiltLength(flags[1..], keyText, pieces);
      if flags[0] {
        FlaggedHoldKey(flags[1..], keyText, pieces, values[1..]);
      } else if pieces != [] {
        FlaggedHoldKey(flags[1..], keyText, pieces[1..], values[1..]);
      }
    }
  }

  ghost predicate AllRowsComeBack(table: Table) {
    forall values: seq<Bytes> :: |values| == |table.columns| && LinesClean(table.columns, values) ==>
      ExportedRow(table, StoredFlags(table), RowKey(table, values), RowValue(table, values)) == values
  }

  /** Every row without line breaks survives exactly in a table with one key column and no
      column that is mistaken for one. */
  lemma TableSurvives(table: Table)
    requires OneLineTable(table) && WellKeyed(table) && table.primaryKey != []
    ensures AllRowsComeBack(table) <==> |table.primaryKey| == 1 && NoneMisread(table)
  {
    hide ReadsAsKey, StoredFlags, WellKeyed, ExportedRow, LinesClean, RowValue, Join, KeyParts;
    if |table.primaryKey| == 1 && NoneMisread(table) {
      forall values: seq<Bytes> | |values| == |table.columns| && LinesClean(table.columns, values)
        ensures ExportedRow(table, StoredFlags(table), RowKey(table, values), RowValue(table, values)) == values
      {
        TableRoundtrip(table, values);
      }
    }
    if AllRowsComeBack(table) { SurvivorsAreSingle(table); }
  }

  lemma SurvivorsAreSingle(table: Table)
    requires OneLineTable(table) && WellKeyed(table) && table.primaryKey != [] && AllRowsComeBack(table)
    ensures |table.primaryKey| == 1 && NoneMisread(table)
  {
    hide ReadsAsKey, StoredFlags, Split, Join, KeyParts, OtherValues;
    var values := Telling(table.columns);
    assert LinesClean(table.columns, values);
    var keyText := Join(KeyParts(table, table.primaryKey, values), COLON);
    assert RowKey(table, values)[|table.name| + 1..] == keyText;
    StoredFlagsAt(table);
    FlaggedHoldKey(StoredFlags(table), keyText, Split(RowValue(table, values), NEWLINE), values);
    forall i | 0 <= i < |table.columns| && table.columns[i].isPrimaryKey ensures StoredFlags(table)[i] {
      KeysReadAsKeys(table, i);
    }
    KeyTextExact(table, values);
    assert KeyTextIs(table.columns, values, keyText);
    var k := IndexOf(table.columns, table.primaryKey[0]).value;
    assert table.columns[k].isPrimaryKey && keyText == [97];
    forall c | c in table.columns && ReadsAsKey(table, c) ensures c.isPrimaryKey {
      var i :| 0 <= i < |table.columns| && table.columns[i] == c;
      assert values[i] == keyText;
    }
  }
}
