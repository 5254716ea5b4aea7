/** The persistent tier: one database per namespace, the namespace being what a key says
    before its first colon. */
module PersistentTier {
  import opened ByteStrings
  import opened Listings
  import opened Utf8

  type Rows = map<Bytes, Bytes>

  const DOT: Byte := 46

  const DEFAULT_NAMESPACE: Bytes := Ascii("_default")

  // ----- namespaces -----

  function UpToColon(s: Bytes): Option<Bytes> {
    if s == [] then None
    else if s[0] == COLON then Some([])
    else match UpToColon(s[1..])
      case Some(rest) => Some([s[0]] + rest)
      case None => None
  }

  /** What a key says before its first colon. */
  lemma {:induction false} UpToColonExact(key: Bytes, namespace: Bytes)
    ensures UpToColon(key) == Some(namespace) <==> COLON !in namespace && StartsWith(key, namespace + [COLON])
  {
    if key != [] && key[0] != COLON && namespace != [] {
      UpToColonExact(key[1..], namespace[1..]);
      assert namespace == [namespace[0]] + namespace[1..];
      assert key == [key[0]] + key[1..];
      assert (namespace + [COLON])[1..] == namespace[1..] + [COLON];
      if StartsWith(key[1..], namespace[1..] + [COLON]) && key[0] == namespace[0] {
        assert key[..|namespace| + 1] == namespace + [COLON];
      }
      if StartsWith(key, namespace + [COLON]) {
        assert key[1..][..|namespace|] == namespace[1..] + [COLON];
      }
    } else if key != [] && key[0] == COLON && namespace == [] {
      assert key[..1] == [] + [COLON];
    }
  }

  lemma {:induction false} NoColon(key: Bytes)
    ensures UpToColon(key).None? <==> COLON !in key
  {
    if key != [] { NoColon(key[1..]); }
  }

  /** A key that is not UTF-8 is filed under the default namespace, like one without a colon. */
  function Namespace(key: Bytes): Bytes {
    if !IsUtf8(key) then DEFAULT_NAMESPACE
    else match UpToColon(key)
      case Some(namespace) => namespace
      case None => DEFAULT_NAMESPACE
  }

  /** A key's namespace is what it says before its first colon, if it is text and has one, and
      the default one otherwise. */
  lemma NamespaceExact(key: Bytes)
    ensures !IsUtf8(key) || COLON !in key ==> Namespace(key) == Ascii("_default")
    ensures forall p :: IsUtf8(key) && COLON !in p && StartsWith(key, p + [COLON]) ==> Namespace(key) == p
  {
    NoColon(key);
    forall p | IsUtf8(key) && COLON !in p && StartsWith(key, p + [COLON])
      ensures Namespace(key) == p
    {
      UpToColonExact(key, p);
    }
  }

  /** The start-up scan of the directory only sees files that sit directly in it and have
      the extension `db`; `.db`, the file of the empty namespace, has none. */
  predicate Reloadable(namespace: Bytes) {
    namespace != [] && SLASH !in namespace
  }

  /** Where the last dot is. */
  function LastDot(name: Bytes): (r: Option<nat>)
    ensures r.Some? ==> r.value < |name| && name[r.value] == DOT && DOT !in name[r.value + 1..]
    ensures r.None? ==> DOT !in name
  {
    if name == [] then None
    else match LastDot(name[1..])
      case Some(i) => Some(i + 1)
      case None => if name[0] == DOT then Some(0) else None
  }

  lemma {:induction false} LastDotAt(name: Bytes, n: nat)
    requires n < |name| && name[n] == DOT && DOT !in name[n + 1..]
    ensures LastDot(name) == Some(n)
  {
    if n > 0 {
      assert name[1..][n - 1 + 1..] == name[n + 1..];
      LastDotAt(name[1..], n - 1);
    }
  }

  /** A file name's stem and extension, as `std::path` has them: a dot in front is not followed
      by an extension, and `..` has none. */
  function FileParts(name: Bytes): (Bytes, Option<Bytes>) {
    match LastDot(name)
    case None => (name, None)
    case Some(i) => if i == 0 || name == [DOT, DOT] then (name, None) else (name[..i], Some(name[i + 1..]))
  }

  function FileOf(namespace: Bytes): Bytes {
    namespace + Ascii(".db")
  }

  /** The scan sees a namespace's file exactly if it is in the directory itself and its extension
      is `db`, and then takes it for that namespace's. */
  lemma ReloadableExact(namespace: Bytes)
    ensures Reloadable(namespace) <==>
            SLASH !in FileOf(namespace) && FileParts(FileOf(namespace)).1 == Some(Ascii("db"))
    ensures Reloadable(namespace) ==> FileParts(FileOf(namespace)).0 == namespace
  {
    var file, n := FileOf(namespace), |namespace|;
    assert file[n] == DOT && file[n + 1..] == Ascii("db");
    assert DOT !in Ascii("db") && SLASH !in Ascii(".db");
    LastDotAt(file, n);
    assert file[..n] == namespace;
  }

  /** A row under this key is found again after a restart. */
  predicate Durable(key: Bytes) {
    Reloadable(Namespace(key))
  }

  // ----- the set of databases as one table -----

  type Files = map<Bytes, Rows>

  ghost predicate Sharded(files: Files) {
    forall ns, k :: ns in files && k in files[ns] ==> Namespace(k) == ns
  }

  ghost function AllKeys(files: Files): set<Bytes> {
    set ns, k | ns in files && k in files[ns] :: k
  }

  ghost function Table(files: Files): Rows {
    map k | k in AllKeys(files) && Namespace(k) in files && k in files[Namespace(k)] :: files[Namespace(k)][k]
  }

  lemma TableAt(files: Files, k: Bytes)
    requires Sharded(files)
    ensures k in Table(files) <==> Namespace(k) in files && k in files[Namespace(k)]
    ensures k in Table(files) ==> Table(files)[k] == files[Namespace(k)][k]
  {
    hide Namespace;
    if Namespace(k) in files && k in files[Namespace(k)] { assert k in AllKeys(files); }
  }

  /** Two shardings with the same rows for every key are the same table. */
  lemma TableIs(files: Files, rows: Rows)
    requires Sharded(files)
    requires forall k :: k in rows <==> Namespace(k) in files && k in files[Namespace(k)]
    requires forall k :: k in rows ==> rows[k] == files[Namespace(k)][k]
    ensures Table(files) == rows
  {
    hide Namespace, Table;
    forall k
      ensures k in Table(files) <==> k in rows
      ensures k in rows ==> Table(files)[k] == rows[k]
    {
      TableAt(files, k);
    }
  }

  /** Rewriting the one database a key belongs to, in that key's row only. */
  lemma TableRewrite(files: Files, key: Bytes, after: Rows, rows: Rows)
    requires Sharded(files) && Namespace(key) in files
    requires || after == files[Namespace(key)] - {key}
             || (key in after && after == files[Namespace(key)][key := after[key]])
    requires rows == if key in after then Table(files)[key := after[key]] else Table(files) - {key}
    ensures Sharded(files[Namespace(key) := after])
    ensures Table(files[Namespace(key) := after]) == rows
  {
    hide Namespace, Table;
    var files' := files[Namespace(key) := after];
    forall k
      ensures k in rows <==> Namespace(k) in files' && k in files'[Namespace(k)]
      ensures k in rows ==> rows[k] == files'[Namespace(k)][k]
    {
      TableAt(files, k);
    }
    TableIs(files', rows);
  }

  /** Databases of different namespaces share no row. */
  lemma TableAdd(files: Files, namespace: Bytes, connection: Rows)
    requires Sharded(files[namespace := connection]) && namespace !in files
    ensures Sharded(files) && Table(files).Keys !! connection.Keys
    ensures Table(files[namespace := connection]) == connection + Table(files)
  {
    hide Namespace, Table;
    var all := files[namespace := connection];
    assert Sharded(files) by {
      forall ns, k | ns in files && k in files[ns] ensures Namespace(k) == ns { assert all[ns] == files[ns]; }
    }
    forall k | k in connection ensures Namespace(k) == namespace { assert k in all[namespace]; }
    var rows := connection + Table(files);
    forall k
      ensures k in rows <==> Namespace(k) in all && k in all[Namespace(k)]
      ensures k in rows ==> rows[k] == all[Namespace(k)][k]
      ensures k in connection ==> k !in Table(files)
    {
      TableAt(files, k);
    }
    TableIs(all, rows);
  }

  function DurableRows(rows: Rows): Rows {
    map k | k in rows && Durable(k) :: rows[k]
  }

  function ReloadableFiles(files: Files): Files {
    map ns | ns in files && Reloadable(ns) :: files[ns]
  }

  lemma TableReload(files: Files)
    requires Sharded(files)
    ensures Sharded(ReloadableFiles(files))
    ensures Table(ReloadableFiles(files)) == DurableRows(Table(files))
  {
    hide Namespace, Table, Reloadable;
    var rows := DurableRows(Table(files));
    var open := ReloadableFiles(files);
    forall k
      ensures k in rows <==> Namespace(k) in open && k in open[Namespace(k)]
      ensures k in rows ==> rows[k] == open[Namespace(k)][k]
    {
      TableAt(files, k);
    }
    TableIs(open, rows);
  }

  lemma EnumeratesMore(results: seq<Pair>, seen: Rows, row: Pair, prefix: Bytes)
    requires Enumerates(results, WithPrefix(seen, prefix)) && row.0 !in seen
    ensures Enumerates(if StartsWith(row.0, prefix) then results + [row] else results,
                       WithPrefix(seen[row.0 := row.1], prefix))
  {
    var before, after := WithPrefix(seen, prefix), WithPrefix(seen[row.0 := row.1], prefix);
    if StartsWith(row.0, prefix) {
      EnumeratesPush(results, before, row);
      assert after == before[row.0 := row.1];
    } else {
      assert after == before;
    }
  }

  /** The rows of one database that have the prefix, appended to an unordered result. */
  method AppendMatching(sofar: seq<Pair>, ghost table: Rows, connection: Rows, prefix: Bytes)
    returns (results: seq<Pair>)
    requires Enumerates(sofar, WithPrefix(table, prefix))
    requires table.Keys !! connection.Keys
    ensures Enumerates(results, WithPrefix(connection + table, prefix))
  {
    hide Enumerates, Lists, WithPrefix, StartsWith, Overlaid;
    var rows := InOrder(connection);
    OverlaidStart(table, rows);
    results := sofar;
    var i := 0;
    while i < |rows|
      invariant 0 <= i <= |rows|
      invariant Enumerates(results, WithPrefix(Overlaid(table, rows, i), prefix))
    {
      ListedKey(rows, connection, i);
      OverlaidFresh(table, rows, connection, i);
      EnumeratesMore(results, Overlaid(table, rows, i), rows[i], prefix);
      if StartsWith(rows[i].0, prefix) {
        results := results + [rows[i]];
      }
      i := i + 1;
    }
    OverlaidComplete(table, rows, connection);
  }

  /** A file that start-up missed holds no row that a restart would find. */
  lemma ReloadedRows(databases: Files, shelved: Files)
    requires Sharded(databases) && Sharded(shelved) && databases.Keys !! shelved.Keys
    requires forall ns :: ns in shelved ==> !Reloadable(ns)
    ensures Sharded(databases + shelved)
    ensures DurableRows(Table(databases + shelved)) == DurableRows(Table(databases))
  {
    hide Namespace, Reloadable, Table;
    var all := databases + shelved;
    forall k
      ensures k in Table(all) && Durable(k) <==> k in Table(databases) && Durable(k)
      ensures k in Table(all) && Durable(k) ==> Table(all)[k] == Table(databases)[k]
    {
      TableAt(all, k);
      TableAt(databases, k);
    }
  }

  class SqliteBus {
    var databases: Files  // the open connections
    var shelved: Files    // database files in the directory without a connection

    ghost predicate Valid()
      reads this
    {
      && Sharded(databases)
      && Sharded(shelved)
      && databases.Keys !! shelved.Keys
      && forall ns :: ns in shelved ==> !Reloadable(ns)
    }

    /** Every row that can be read. */
    ghost function Rows(): Rows
      reads this
    {
      Table(databases)
    }

    /** Everything in the directory, which is what the next process starts from. */
    function Directory(): Files
      reads this
    {
      databases + shelved
    }

    /** The rows that opening the namespace's database would bring back: those of a file that
        start-up missed. */
    ghost function Missed(namespace: Bytes): Rows
      reads this
    {
      if namespace in shelved then shelved[namespace] else map[]
    }

    /** A restart at any time starts from exactly the durable rows. */
    lemma RestartsFromRows()
      requires Valid()
      ensures Sharded(Directory()) && DurableRows(Table(Directory())) == DurableRows(Rows())
    {
      ReloadedRows(databases, shelved);
    }

    /** Start-up: open the database files the directory scan recognises. */
    constructor (files: Files)
      requires Sharded(files)
      ensures Valid()
      ensures Directory() == files
      ensures Rows() == DurableRows(Table(files))
    {
      hide Namespace, Reloadable, Table;
      databases := ReloadableFiles(files);
      shelved := map ns | ns in files && !Reloadable(ns) :: files[ns];
      TableReload(files);
    }

    /** Open the namespace's database, creating its file if there is none. */
    method WriteConnection(namespace: Bytes)
      requires Valid()
      modifies this
      ensures Valid() && namespace in databases && shelved == old(shelved) - {namespace}
      ensures Rows() == old(Missed(namespace)) + old(Rows())
      ensures forall ns :: ns in old(databases) ==> ns in databases && databases[ns] == old(databases)[ns]
    {
      hide Namespace, Reloadable, Table;
      if namespace in databases { return; }
      var connection := if namespace in shelved then shelved[namespace] else map[];
      TableAdd(databases, namespace, connection);
      databases := databases[namespace := connection];
      shelved := shelved - {namespace};
    }

    method ReadValue(key: Bytes) returns (r: Option<Bytes>)
      requires Valid()
      ensures r == if key in Rows() then Some(Rows()[key]) else None
    {
      hide Namespace, Table;
      TableAt(databases, key);
      var namespace := Namespace(key);
      if namespace !in databases { return None; }
      var connection := databases[namespace];
      r := if key in connection then Some(connection[key]) else None;
    }

    method WriteValue(key: Bytes, value: Bytes)
      requires Valid()
      modifies this
      ensures Valid() && shelved == old(shelved) - {Namespace(key)}
      ensures Rows() == (old(Missed(Namespace(key))) + old(Rows()))[key := value]
    {
      hide Namespace, Reloadable, Table;
      var namespace := Namespace(key);
      WriteConnection(namespace);
      var connection := databases[namespace][key := value];
      TableRewrite(databases, key, connection, Rows()[key := value]);
      databases := databases[namespace := connection];
    }

    method DeleteValue(key: Bytes)
      requires Valid()
      modifies this`databases
      ensures Valid()
      ensures Rows() == old(Rows()) - {key}
    {
      hide Namespace, Reloadable, Table;
      var namespace := Namespace(key);
      if namespace !in databases {
        TableAt(databases, key);
        return;
      }
      var connection := databases[namespace] - {key};
      TableRewrite(databases, key, connection, Rows() - {key});
      databases := databases[namespace := connection];
    }

    method DeleteValueIfMatch(key: Bytes, expected: Bytes) returns (matched: bool)
      requires Valid()
      modifies this`databases
      ensures Valid()
      ensures matched == (key in old(Rows()) && old(Rows())[key] == expected)
      ensures Rows() == if matched then old(Rows()) - {key} else old(Rows())
    {
      var current := ReadValue(key);
      if current == Some(expected) {
        DeleteValue(key);
        matched := true;
      } else {
        matched := false;
      }
    }

    /** Scan every database, in whatever order the hash map gives them, then sort. */
    method FindByPrefix(prefix: Bytes) returns (results: seq<Pair>)
      requires Valid()
      ensures Lists(results, WithPrefix(Rows(), prefix))
    {
      hide Namespace, Reloadable, Table, Leq;
      results := [];
      var pending := databases.Keys;
      ghost var done: Files := map[];
      TableIs(done, map[]);
      while pending != {}
        invariant pending <= databases.Keys && done == databases - pending
        invariant Sharded(done) && Enumerates(results, WithPrefix(Table(done), prefix))
        decreases |pending|
      {
        var namespace :| namespace in pending;
        ghost var more := databases - (pending - {namespace});
        assert more == done[namespace := databases[namespace]];
        TableAdd(done, namespace, databases[namespace]);
        results := AppendMatching(results, Table(done), databases[namespace], prefix);
        pending := pending - {namespace};
        done := more;
      }
      assert done == databases;
      SortLists(results, WithPrefix(Rows(), prefix));
      results := SortByKey(results);
    }
  }
}
