/** How an archive names entries: keys become paths at export and paths become keys again at
    import. */
module ArchivePaths {
  import opened ByteStrings

  const SCHEMA: Bytes := Ascii("_schema")
  const REL: Bytes := Ascii("_rel")
  const TTL: Bytes := Ascii("_ttl")

  /** `replace(':', "/")`. */
  function ColonsToSlashes(key: Bytes): (path: Bytes)
    ensures |path| == |key|
    ensures forall i :: 0 <= i < |key| ==> path[i] == if key[i] == ':' as int then '/' as int else key[i]
  {
    seq(|key|, i requires 0 <= i < |key| => if key[i] == COLON then SLASH else key[i])
  }

  /** `replacen('/', ":", 1)`. */
  function FirstSlashToColon(path: Bytes): (key: Bytes)
    ensures |key| == |path|
  {
    if path == [] then []
    else if path[0] == SLASH then [COLON] + path[1..]
    else [path[0]] + FirstSlashToColon(path[1..])
  }

  function Under(name: Bytes, separator: Byte): Bytes {
    name + [separator]
  }

  predicate IsUnder(bytes: Bytes, name: Bytes, separator: Byte) {
    StartsWith(bytes, Under(name, separator))
  }

  function Rest(bytes: Bytes, name: Bytes): Bytes
    requires |bytes| > |name|
  {
    bytes[|name| + 1..]
  }

  function KeyToPath(key: Bytes): Bytes {
    if IsUnder(key, SCHEMA, COLON) then Under(SCHEMA, SLASH) + Rest(key, SCHEMA)
    else if IsUnder(key, REL, COLON) then Under(REL, SLASH) + Rest(key, REL)
    else ColonsToSlashes(key)
  }

  function PathToKey(path: Bytes): Bytes {
    if IsUnder(path, SCHEMA, SLASH) then Under(SCHEMA, COLON) + Rest(path, SCHEMA)
    else if IsUnder(path, REL, SLASH) then Under(REL, COLON) + Rest(path, REL)
    else if IsUnder(path, TTL, SLASH) then Under(TTL, COLON) + FirstSlashToColon(Rest(path, TTL))
    else FirstSlashToColon(path)
  }

  // ----- when the two are inverse -----

  /** At most one colon and no slash before it; without a colon, no slash at all. */
  predicate Plain(key: Bytes) {
    && (forall i :: 0 <= i < |key| && key[i] == COLON ==> COLON !in key[i + 1..] && SLASH !in key[..i])
    && (COLON !in key ==> SLASH !in key)
  }

  lemma {:induction false} PlainExact(key: Bytes)
    ensures FirstSlashToColon(ColonsToSlashes(key)) == key <==> Plain(key)
  {
    if key != [] {
      var tail := key[1..];
      var path := ColonsToSlashes(key);
      assert key == [key[0]] + tail;
      assert path[1..] == ColonsToSlashes(tail);
      if key[0] == COLON {
        assert FirstSlashToColon(path) == [COLON] + ColonsToSlashes(tail);
        PlainAfterColon(key);
      } else if key[0] == SLASH {
        assert FirstSlashToColon(path)[0] == COLON;
        NotPlainAfterSlash(key);
      } else {
        PlainExact(tail);
        assert FirstSlashToColon(path) == [key[0]] + FirstSlashToColon(ColonsToSlashes(tail));
        PlainSkip(key);
      }
    }
  }

  lemma PlainAfterColon(key: Bytes)
    requires key != [] && key[0] == COLON
    ensures Plain(key) <==> ColonsToSlashes(key[1..]) == key[1..]
  {
    var tail := key[1..];
    if Plain(key) {
      assert COLON !in tail;
      assert forall i :: 0 <= i < |tail| ==> tail[i] in tail;
    } else if ColonsToSlashes(tail) == tail {
      assert forall i :: 0 <= i < |tail| ==> tail[i] == ColonsToSlashes(tail)[i] != COLON;
      assert forall i :: 0 < i < |key| ==> key[i] == tail[i - 1];
      assert false;
    }
  }

  lemma NotPlainAfterSlash(key: Bytes)
    requires key != [] && key[0] == SLASH
    ensures !Plain(key)
  {
    if COLON in key {
      var i :| 0 <= i < |key| && key[i] == COLON;
      assert key[..i][0] == SLASH;
    } else {
      assert key[0] in key;
    }
  }

  lemma PlainSkip(key: Bytes)
    requires key != [] && key[0] != COLON && key[0] != SLASH
    ensures Plain(key) <==> Plain(key[1..])
  {
    var tail := key[1..];
    assert forall b :: b == COLON || b == SLASH ==> (b in key <==> b in tail) by {
      assert key == [key[0]] + tail;
    }
    forall i | 0 < i < |key|
      ensures key[i] == tail[i - 1] && key[i + 1..] == tail[i..] && (SLASH in key[..i] <==> SLASH in tail[..i - 1])
    {
      assert key[..i] == [key[0]] + tail[..i - 1];
    }
    if Plain(tail) {
      forall i | 0 <= i < |key| && key[i] == COLON ensures COLON !in key[i + 1..] && SLASH !in key[..i] {
        assert tail[i - 1] == COLON;
      }
    }
    if Plain(key) {
      forall i | 0 <= i < |tail| && tail[i] == COLON ensures COLON !in tail[i + 1..] && SLASH !in tail[..i] {
        assert key[i + 1] == COLON;
      }
    }
  }

  /** The reserved names contain neither separator. */
  lemma NamesAreBare()
    ensures forall i :: 0 <= i < |SCHEMA| ==> SCHEMA[i] != COLON && SCHEMA[i] != SLASH
    ensures forall i :: 0 <= i < |REL| ==> REL[i] != COLON && REL[i] != SLASH
    ensures forall i :: 0 <= i < |TTL| ==> TTL[i] != COLON && TTL[i] != SLASH
    ensures |SCHEMA| == 7 && |REL| == 4 && |TTL| == 4
    ensures SCHEMA[1] == 115 && REL[1] == 114 && TTL[1] == 116
  {
  }

  lemma PrefixOfPath(key: Bytes, name: Bytes)
    requires forall i :: 0 <= i < |name| ==> name[i] != COLON && name[i] != SLASH
    ensures IsUnder(ColonsToSlashes(key), name, SLASH) <==> IsUnder(key, name, COLON) || IsUnder(key, name, SLASH)
  {
    var path, n := ColonsToSlashes(key), |name|;
    if IsUnder(path, name, SLASH) {
      assert path[..n + 1] == name + [SLASH];
      assert path[n] == SLASH;
      assert forall i :: 0 <= i < n ==> path[i] == name[i];
      assert key[..n] == name;
      assert key[..n + 1] == name + [key[n]];
    }
    if IsUnder(key, name, COLON) || IsUnder(key, name, SLASH) {
      assert key[..n + 1] == name + [key[n]];
      assert forall i :: 0 <= i < n ==> key[i] == name[i];
      assert path[..n + 1] == name + [SLASH];
    }
  }

  /** Keys that survive the trip through an archive path. */
  predicate Portable(key: Bytes) {
    if IsUnder(key, SCHEMA, COLON) || IsUnder(key, REL, COLON) then true
    else if IsUnder(key, TTL, COLON) then Plain(Rest(key, TTL))
    else !IsUnder(key, SCHEMA, SLASH) && !IsUnder(key, REL, SLASH) && !IsUnder(key, TTL, SLASH) && Plain(key)
  }

  /** Import undoes export for exactly these keys. */
  lemma PathRoundtripExact(key: Bytes)
    ensures PathToKey(KeyToPath(key)) == key <==> Portable(key)
  {
    NamesAreBare();
    hide SCHEMA, REL, TTL;
    if IsUnder(key, SCHEMA, COLON) {
      var path := KeyToPath(key);
      assert path == Under(SCHEMA, SLASH) + Rest(key, SCHEMA);
      assert Rest(path, SCHEMA) == Rest(key, SCHEMA);
      assert key == Under(SCHEMA, COLON) + Rest(key, SCHEMA);
    } else if IsUnder(key, REL, COLON) {
      var path := KeyToPath(key);
      assert path == Under(REL, SLASH) + Rest(key, REL);
      assert path[1] == REL[1];
      assert Rest(path, REL) == Rest(key, REL);
      assert key == Under(REL, COLON) + Rest(key, REL);
    } else {
      OrdinaryRoundtrip(key);
    }
  }

  lemma OrdinaryRoundtrip(key: Bytes)
    requires !IsUnder(key, SCHEMA, COLON) && !IsUnder(key, REL, COLON)
    ensures PathToKey(ColonsToSlashes(key)) == key <==> Portable(key)
  {
    NamesAreBare();
    hide SCHEMA, REL, TTL, Plain;
    var path := ColonsToSlashes(key);
    PrefixOfPath(key, SCHEMA);
    PrefixOfPath(key, REL);
    PrefixOfPath(key, TTL);
    PlainExact(key);
    if IsUnder(path, SCHEMA, SLASH) {
      assert PathToKey(path)[..8] == Under(SCHEMA, COLON);
    } else if IsUnder(path, REL, SLASH) {
      assert PathToKey(path)[..5] == Under(REL, COLON);
    } else if IsUnder(path, TTL, SLASH) {
      assert PathToKey(path)[..5] == Under(TTL, COLON);
      if IsUnder(key, TTL, COLON) {
        assert key == Under(TTL, COLON) + Rest(key, TTL);
        assert Rest(path, TTL) == ColonsToSlashes(Rest(key, TTL));
        PlainExact(Rest(key, TTL));
        assert PathToKey(path)[5..] == FirstSlashToColon(ColonsToSlashes(Rest(key, TTL)));
      }
    }
  }
}
