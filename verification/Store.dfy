/** The transient store: values, deadlines by key and keys by deadline, three maps that are
    updated in place and must agree. */
module TransientStore {
  import opened ByteStrings
  import opened FlatStore

  ghost function KeySet(keys: seq<Bytes>): set<Bytes> {
    set k | k in keys
  }

  lemma KeySetGrows(keys: seq<Bytes>)
    ensures KeySet(keys[..0]) == {}
    ensures forall i {:trigger keys[i]} :: 0 <= i < |keys| ==> KeySet(keys[..i + 1]) == KeySet(keys[..i]) + {keys[i]}
  {
    forall i {:trigger keys[i]} | 0 <= i < |keys|
      ensures KeySet(keys[..i + 1]) == KeySet(keys[..i]) + {keys[i]}
    {
      assert keys[..i + 1] == keys[..i] + [keys[i]];
    }
  }

  /** `Vec::swap_remove`: the last element takes the place of the removed one. */
  function SwapRemove(keys: seq<Bytes>, index: nat): (r: seq<Bytes>)
    requires index < |keys|
    ensures |r| == |keys| - 1
  {
    keys[index := keys[|keys| - 1]][..|keys| - 1]
  }

  /** Reordering aside, `swap_remove` takes out exactly the chosen key. */
  lemma SwapRemoveDropsOne(keys: seq<Bytes>, index: nat)
    requires index < |keys| && Distinct(keys)
    ensures Distinct(SwapRemove(keys, index))
    ensures forall k :: k in SwapRemove(keys, index) <==> k in keys && k != keys[index]
  {
    var r := SwapRemove(keys, index);
    forall k | k in keys && k != keys[index]
      ensures k in r
    {
      var i :| 0 <= i < |keys| && keys[i] == k;
      if i == |keys| - 1 { assert r[index] == k; } else { assert r[i] == k; }
    }
  }

  method Position(keys: seq<Bytes>, key: Bytes) returns (index: Option<nat>)
    ensures index.None? <==> key !in keys
    ensures index.Some? ==> index.value < |keys| && keys[index.value] == key && key !in keys[..index.value]
  {
    var i := 0;
    while i < |keys|
      invariant 0 <= i <= |keys|
      invariant key !in keys[..i]
    {
      if keys[i] == key { return Some(i); }
      i := i + 1;
    }
    return None;
  }

  lemma {:induction false} FindFirstInstant(instants: set<Instant>) returns (first: Instant)
    requires instants != {}
    ensures first in instants && forall u :: u in instants ==> first <= u
    decreases |instants|
  {
    var t :| t in instants;
    var others := instants - {t};
    first := t;
    if others != {} {
      var u := FindFirstInstant(others);
      first := if t <= u then t else u;
    }
    forall x | x in instants ensures first <= x {
      if x != t { assert x in others; }
    }
  }

  lemma FirstInstantExists(instants: set<Instant>)
    requires instants != {}
    ensures exists t :: t in instants && forall u :: u in instants ==> t <= u
  {
    var t := FindFirstInstant(instants);
  }

  /** `range(..=now).next()`: the earliest instant that is not after `now`. */
  function FirstDue(instants: set<Instant>, now: Instant): (r: Option<Instant>)
    ensures r.Some? ==> r.value in instants && r.value <= now && forall u :: u in instants ==> r.value <= u
    ensures r.None? ==> forall u :: u in instants ==> now < u
  {
    if instants == {} then None
    else
      FirstInstantExists(instants);
      var t :| t in instants && forall u :: u in instants ==> t <= u;
      if t <= now then Some(t) else None
  }

  /** The three maps agree: `expiry` is `ttl` turned around, with no empty and no
      repeating bucket, and only stored keys have a deadline. */
  ghost predicate Agree(data: map<Bytes, Bytes>, expiry: map<Instant, seq<Bytes>>, ttl: map<Bytes, Instant>) {
    && ttl.Keys <= data.Keys
    && (forall k :: k in ttl ==> ttl[k] in expiry && k in expiry[ttl[k]])
    && (forall t :: t in expiry ==> expiry[t] != [] && Distinct(expiry[t]))
    && (forall t, k :: t in expiry && k in expiry[t] ==> k in ttl && ttl[k] == t)
  }

  ghost function Flatten(data: map<Bytes, Bytes>, ttl: map<Bytes, Instant>): Flat {
    map k | k in data :: Entry(data[k], if k in ttl then Some(ttl[k]) else None)
  }

  lemma DropBucket(data: map<Bytes, Bytes>, expiry: map<Instant, seq<Bytes>>, ttl: map<Bytes, Instant>, exp: Instant)
    requires Agree(data, expiry, ttl) && exp in expiry
    ensures var dropped := KeySet(expiry[exp]);
            && Agree(data - dropped, expiry - {exp}, ttl - dropped)
            && |(expiry - {exp}).Keys| < |expiry.Keys|
            && forall now: Instant :: exp <= now ==>
                 Purge(Flatten(data - dropped, ttl - dropped), now) == Purge(Flatten(data, ttl), now)
  {
    hide Agree, Flatten, Purge, KeySet;
    var dropped := KeySet(expiry[exp]);
    DropAgrees(data, expiry, ttl, exp);
    forall now: Instant | exp <= now
      ensures Purge(Flatten(data - dropped, ttl - dropped), now) == Purge(Flatten(data, ttl), now)
    {
      DropDue(data, ttl, dropped, now);
    }
  }

  lemma DropAgrees(data: map<Bytes, Bytes>, expiry: map<Instant, seq<Bytes>>, ttl: map<Bytes, Instant>, exp: Instant)
    requires Agree(data, expiry, ttl) && exp in expiry
    ensures var dropped := KeySet(expiry[exp]);
            && Agree(data - dropped, expiry - {exp}, ttl - dropped)
            && |(expiry - {exp}).Keys| < |expiry.Keys|
            && forall k :: k in dropped ==> k in ttl && ttl[k] == exp
  {
    assert expiry.Keys == (expiry - {exp}).Keys + {exp};
    forall k | k in KeySet(expiry[exp])
      ensures k in ttl && ttl[k] == exp
    {
      assert k in expiry[exp];
    }
  }

  lemma DropDue(data: map<Bytes, Bytes>, ttl: map<Bytes, Instant>, dropped: set<Bytes>, now: Instant)
    requires forall k :: k in dropped ==> k in ttl && ttl[k] <= now
    ensures Purge(Flatten(data - dropped, ttl - dropped), now) == Purge(Flatten(data, ttl), now)
  {
  }

  lemma PutAgrees(data: map<Bytes, Bytes>, expiry: map<Instant, seq<Bytes>>, ttl: map<Bytes, Instant>, key: Bytes,
                  value: Bytes)
    requires Agree(data, expiry, ttl)
    ensures Agree(data[key := value], expiry, ttl)
  {
  }

  lemma RemoveAgrees(data: map<Bytes, Bytes>, expiry: map<Instant, seq<Bytes>>, ttl: map<Bytes, Instant>, key: Bytes)
    requires Agree(data, expiry, ttl) && key !in ttl
    ensures Agree(data - {key}, expiry, ttl)
  {
  }

  /** A key without a deadline gets one: it joins the end of the deadline's bucket. */
  lemma TimeAgrees(data: map<Bytes, Bytes>, expiry: map<Instant, seq<Bytes>>, ttl: map<Bytes, Instant>, key: Bytes,
                   instant: Instant)
    requires Agree(data, expiry, ttl) && key in data && key !in ttl
    ensures var bucket := if instant in expiry then expiry[instant] else [];
            Agree(data, expiry[instant := bucket + [key]], ttl[key := instant])
  {
  }

  /** A key loses its deadline: it leaves its bucket, and an emptied bucket goes. */
  lemma UntimeAgrees(data: map<Bytes, Bytes>, expiry: map<Instant, seq<Bytes>>, ttl: map<Bytes, Instant>, key: Bytes,
                     keys: seq<Bytes>)
    requires Agree(data, expiry, ttl) && key in ttl && Distinct(keys)
    requires forall k :: k in keys <==> k in expiry[ttl[key]] && k != key
    ensures Agree(data, if keys == [] then expiry - {ttl[key]} else expiry[ttl[key] := keys], ttl - {key})
  {
  }

  // ----- what a change to the maps is to the flat map -----

  lemma FlattenPut(data: map<Bytes, Bytes>, ttl: map<Bytes, Instant>, key: Bytes, value: Bytes)
    ensures Flatten(data[key := value], ttl - {key}) == Put(Flatten(data, ttl), key, value)
  {
  }

  lemma FlattenPutUntil(data: map<Bytes, Bytes>, ttl: map<Bytes, Instant>, key: Bytes, value: Bytes, instant: Instant)
    ensures Flatten(data[key := value], (ttl - {key})[key := instant])
            == PutUntil(Flatten(data, ttl), key, value, instant)
  {
  }

  lemma FlattenExpire(data: map<Bytes, Bytes>, ttl: map<Bytes, Instant>, key: Bytes, instant: Instant)
    ensures Expire(Flatten(data, ttl), key, instant) ==
            if key in data then Flatten(data, (ttl - {key})[key := instant]) else Flatten(data, ttl)
  {
  }

  lemma FlattenRemove(data: map<Bytes, Bytes>, ttl: map<Bytes, Instant>, key: Bytes)
    ensures Flatten(data - {key}, ttl - {key}) == Remove(Flatten(data, ttl), key)
  {
  }

  lemma FlattenFind(data: map<Bytes, Bytes>, ttl: map<Bytes, Instant>, key: Bytes)
    ensures Find(Flatten(data, ttl), key) == if key in data then Some(data[key]) else None
  {
  }

  /** Dropping a key after others. */
  lemma DropOne<V>(m: map<Bytes, V>, dropped: set<Bytes>, key: Bytes)
    ensures m - dropped - {key} == m - (dropped + {key})
  {
  }

  lemma NothingDue(data: map<Bytes, Bytes>, expiry: map<Instant, seq<Bytes>>, ttl: map<Bytes, Instant>, now: Instant)
    requires Agree(data, expiry, ttl)
    requires forall t :: t in expiry.Keys ==> now < t
    ensures Purge(Flatten(data, ttl), now) == Flatten(data, ttl)
  {
    forall k | k in Flatten(data, ttl)
      ensures Live(Flatten(data, ttl)[k], now)
    {
      if k in ttl { assert ttl[k] in expiry.Keys; }
    }
  }

  class Store {
    var data: map<Bytes, Bytes>
    var expiry: map<Instant, seq<Bytes>>
    var ttl: map<Bytes, Instant>

    ghost predicate Valid()
      reads this
    {
      Agree(data, expiry, ttl)
    }

    /** The flat map the three maps stand for. */
    ghost function Contents(): Flat
      reads this
    {
      Flatten(data, ttl)
    }

    constructor ()
      ensures Valid() && Contents() == map[]
    {
      data, expiry, ttl := map[], map[], map[];
    }

    /** The purge loop: take the earliest bucket that is due, drop its keys, repeat. */
    method DeleteExpiredEntries(now: Instant)
      requires Valid()
      modifies this
      ensures Valid()
      ensures Contents() == Purge(old(Contents()), now)
    {
      var due := FirstDue(expiry.Keys, now);
      while due.Some?
        invariant Valid()
        invariant Purge(Contents(), now) == Purge(old(Contents()), now)
        invariant due == FirstDue(expiry.Keys, now)
        decreases |expiry.Keys|
      {
        DeleteBucket(due.value);
        due := FirstDue(expiry.Keys, now);
      }
      NothingDue(data, expiry, ttl, now);
    }

    /** One round of the purge loop; its effect is invisible from the bucket's instant on. */
    method DeleteBucket(exp: Instant)
      requires Valid() && exp in expiry
      modifies this
      ensures Valid()
      ensures |expiry.Keys| < |old(expiry.Keys)|
      ensures forall now: Instant :: exp <= now ==> Purge(Contents(), now) == Purge(old(Contents()), now)
    {
      hide Agree, Flatten, Purge, KeySet;
      var keys := expiry[exp];
      expiry := expiry - {exp};
      KeySetGrows(keys);
      var i := 0;
      while i < |keys|
        invariant 0 <= i <= |keys|
        invariant ttl == old(ttl) - KeySet(keys[..i])
        invariant data == old(data) - KeySet(keys[..i])
        invariant expiry == old(expiry) - {exp}
      {
        DropOne(old(ttl), KeySet(keys[..i]), keys[i]);
        DropOne(old(data), KeySet(keys[..i]), keys[i]);
        ttl := ttl - {keys[i]};
        data := data - {keys[i]};
        i := i + 1;
      }
      assert keys[..i] == keys;
      DropBucket(old(data), old(expiry), old(ttl), exp);
    }

    method DeleteTtl(key: Bytes)
      requires Valid()
      modifies `ttl, `expiry
      ensures Valid()
      ensures ttl == old(ttl) - {key}
    {
      if key !in ttl {
        assert ttl - {key} == ttl;
        return;
      }
      var instant := ttl[key];
      var keys := expiry[instant];
      var index := Position(keys, key);
      assert index.Some?;
      SwapRemoveDropsOne(keys, index.value);
      keys := SwapRemove(keys, index.value);
      UntimeAgrees(data, expiry, ttl, key, keys);
      hide Agree, SwapRemove, Distinct;
      ttl := ttl - {key};
      if keys == [] {
        expiry := expiry - {instant};
      } else {
        expiry := expiry[instant := keys];
      }
    }

    method ReadValue(key: Bytes) returns (r: Option<Bytes>)
      ensures r == Find(Contents(), key)
    {
      FlattenFind(data, ttl, key);
      r := if key in data then Some(data[key]) else None;
    }

    method WriteValue(key: Bytes, value: Bytes)
      requires Valid()
      modifies this
      ensures Valid()
      ensures Contents() == Put(old(Contents()), key, value)
    {
      hide Agree, Flatten;
      FlattenPut(data, ttl, key, value);
      DeleteTtl(key);
      InsertData(key, value);
    }

    method DeleteValue(key: Bytes)
      requires Valid()
      modifies this
      ensures Valid()
      ensures Contents() == Remove(old(Contents()), key)
    {
      hide Agree, Flatten;
      FlattenRemove(data, ttl, key);
      DeleteTtl(key);
      RemoveAgrees(data, expiry, ttl, key);
      data := data - {key};
    }

    /** The value is put in; what the other two indexes say of the key is not touched. */
    method InsertData(key: Bytes, value: Bytes)
      requires Valid()
      modifies `data
      ensures Valid()
      ensures data == old(data)[key := value]
    {
      hide Agree;
      PutAgrees(data, expiry, ttl, key, value);
      data := data[key := value];
    }

    /** Gives a key without a deadline one: in the deadline index and at the end of its bucket. */
    method InsertTtl(key: Bytes, instant: Instant)
      requires Valid() && key in data && key !in ttl
      modifies `ttl, `expiry
      ensures Valid()
      ensures ttl == old(ttl)[key := instant]
    {
      hide Agree;
      TimeAgrees(data, expiry, ttl, key, instant);
      ttl := ttl[key := instant];
      var bucket := if instant in expiry then expiry[instant] else [];
      expiry := expiry[instant := bucket + [key]];
    }

    method WriteTtl(key: Bytes, instant: Instant)
      requires Valid()
      modifies this
      ensures Valid()
      ensures Contents() == Expire(old(Contents()), key, instant)
    {
      hide Agree, Flatten;
      FlattenExpire(data, ttl, key, instant);
      if key !in data { return; }
      DeleteTtl(key);
      InsertTtl(key, instant);
    }

    method WriteValueWithTtl(key: Bytes, value: Bytes, instant: Instant)
      requires Valid()
      modifies this
      ensures Valid()
      ensures Contents() == PutUntil(old(Contents()), key, value, instant)
    {
      hide Agree, Flatten;
      FlattenPutUntil(data, ttl, key, value, instant);
      DeleteTtl(key);
      InsertData(key, value);
      InsertTtl(key, instant);
    }

    method DeleteValueIfMatch(key: Bytes, expected: Bytes) returns (matched: bool)
      requires Valid()
      modifies this
      ensures Valid()
      ensures matched == (Find(old(Contents()), key) == Some(expected))
      ensures Contents() == RemoveIfMatch(old(Contents()), key, expected)
    {
      hide Agree, Flatten;
      FlattenFind(data, ttl, key);
      if key in data && data[key] == expected {
        FlattenRemove(data, ttl, key);
        DeleteTtl(key);
        RemoveAgrees(data, expiry, ttl, key);
        data := data - {key};
        matched := true;
      } else {
        matched := false;
      }
    }

    method ReadTtlRemaining(key: Bytes, now: Instant) returns (r: Option<Duration>)
      requires Valid()
      ensures r == Remaining(Contents(), key, now)
    {
      if key !in ttl { return None; }
      r := if now <= ttl[key] then Some(ttl[key] - now) else None;
    }

    method FindByPrefix(prefix: Bytes) returns (pairs: seq<Pair>)
      ensures Lists(pairs, WithPrefix(Values(Contents()), prefix))
    {
      hide Lists, WithPrefix, InOrder, RangeFrom, TakeWhilePrefix;
      var all := InOrder(data);
      pairs := TakeWhilePrefix(RangeFrom(all, prefix), prefix);
      RangeScanLists(all, data, prefix);
      assert Values(Contents()) == data;
    }
  }
}
