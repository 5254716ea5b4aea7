/** Unordered listings of a map and the sort that puts them in key order. */
module Listings {
  import opened ByteStrings

  /** `pairs` holds every entry of `m` exactly once, in any order. */
  ghost predicate Enumerates(pairs: seq<Pair>, m: map<Bytes, Bytes>) {
    && (forall i, j :: 0 <= i < j < |pairs| ==> pairs[i].0 != pairs[j].0)
    && (forall i :: 0 <= i < |pairs| ==> pairs[i].0 in m && m[pairs[i].0] == pairs[i].1)
    && (forall k :: k in m ==> (k, m[k]) in pairs)
  }

  lemma EnumeratesPush(pairs: seq<Pair>, m: map<Bytes, Bytes>, p: Pair)
    requires Enumerates(pairs, m) && p.0 !in m
    ensures Enumerates(pairs + [p], m[p.0 := p.1])
  {
    var r, m' := pairs + [p], m[p.0 := p.1];
    forall k | k in m'
      ensures (k, m'[k]) in r
    {
      if k == p.0 { assert r[|pairs|] == p; } else { assert (k, m[k]) in pairs; }
    }
  }

  /** A stable sort by key, as `sort_by(|(a, _), (b, _)| a.cmp(b))`. */
  function SortByKey(pairs: seq<Pair>): seq<Pair> {
    if pairs == [] then [] else Insert(pairs[0], SortByKey(pairs[1..]))
  }

  function Insert(p: Pair, sorted: seq<Pair>): seq<Pair> {
    if sorted == [] || Leq(p.0, sorted[0].0) then [p] + sorted
    else [sorted[0]] + Insert(p, sorted[1..])
  }

  lemma {:induction false} InsertLists(p: Pair, sorted: seq<Pair>, m: map<Bytes, Bytes>)
    requires Lists(sorted, m) && p.0 !in m
    ensures Lists(Insert(p, sorted), m[p.0 := p.1])
    decreases |sorted|
  {
    hide Leq, Less;
    var m' := m[p.0 := p.1];
    ListsEmpty(sorted, m);
    if sorted == [] {
      LeqReflexive(p.0);
      assert (p.0, m'[p.0]) in [p];
    } else {
      ListsHeadLeast(sorted, m);
      var h := sorted[0];
      if Leq(p.0, h.0) {
        forall x | x in m'.Keys ensures Leq(p.0, x) {
          if x == p.0 { LeqReflexive(x); } else { LeqTransitive(p.0, h.0, x); }
        }
        assert Without(m', p.0) == m;
        InOrderStep(m', p.0, sorted);
      } else {
        LeqTotal(p.0, h.0);
        ListsTail(sorted, m);
        InsertLists(p, sorted[1..], Without(m, h.0));
        assert Without(m', h.0) == Without(m, h.0)[p.0 := p.1];
        InOrderStep(m', h.0, Insert(p, sorted[1..]));
      }
    }
  }

  /** Sorting an unordered listing gives the key-ordered one. */
  lemma {:induction false} SortLists(pairs: seq<Pair>, m: map<Bytes, Bytes>)
    requires Enumerates(pairs, m)
    ensures Lists(SortByKey(pairs), m)
    decreases |pairs|
  {
    if pairs == [] {
      assert forall k :: k !in m;
      assert m == map[];
    } else {
      var p := pairs[0];
      EnumeratesTail(pairs, m);
      SortLists(pairs[1..], Without(m, p.0));
      InsertLists(p, SortByKey(pairs[1..]), Without(m, p.0));
      assert Without(m, p.0)[p.0 := p.1] == m;
    }
  }

  lemma EnumeratesTail(pairs: seq<Pair>, m: map<Bytes, Bytes>)
    requires Enumerates(pairs, m) && pairs != []
    ensures Enumerates(pairs[1..], Without(m, pairs[0].0))
  {
    var t, rest := pairs[1..], Without(m, pairs[0].0);
    forall k | k in rest
      ensures (k, rest[k]) in t
    {
      var i :| 0 <= i < |pairs| && pairs[i] == (k, m[k]);
      assert t[i - 1] == pairs[i];
    }
  }

  lemma ListsEnumerates(pairs: seq<Pair>, m: map<Bytes, Bytes>)
    requires Lists(pairs, m)
    ensures Enumerates(pairs, m)
  {
    forall i, j | 0 <= i < j < |pairs|
      ensures pairs[i].0 != pairs[j].0
    {
      assert Less(pairs[i].0, pairs[j].0);
    }
  }

  /** What is in the listing of a map. */
  lemma InOrderHas(m: map<Bytes, Bytes>, key: Bytes, value: Bytes)
    ensures (key, value) in InOrder(m) <==> key in m && m[key] == value
  {
    hide InOrder, Leq;
    var pairs := InOrder(m);
    assert Lists(pairs, m);
    if (key, value) in pairs {
      var i :| 0 <= i < |pairs| && pairs[i] == (key, value);
      ListedKey(pairs, m, i);
    }
  }

  lemma ListedKey(pairs: seq<Pair>, m: map<Bytes, Bytes>, i: nat)
    requires Lists(pairs, m) && i < |pairs|
    ensures pairs[i].0 in m && m[pairs[i].0] == pairs[i].1
  {
  }

  // ----- adding a listing to a map, keys already there taking precedence -----

  ghost function Overlaid(base: map<Bytes, Bytes>, pairs: seq<Pair>, n: nat): map<Bytes, Bytes>
    requires n <= |pairs|
  {
    if n == 0 then base
    else
      var before := Overlaid(base, pairs, n - 1);
      if pairs[n - 1].0 in base then before else before[pairs[n - 1].0 := pairs[n - 1].1]
  }

  lemma OverlaidStart(base: map<Bytes, Bytes>, pairs: seq<Pair>)
    ensures Overlaid(base, pairs, 0) == base
    ensures forall n :: 0 <= n < |pairs| ==>
              Overlaid(base, pairs, n + 1) ==
              if pairs[n].0 in base then Overlaid(base, pairs, n)
              else Overlaid(base, pairs, n)[pairs[n].0 := pairs[n].1]
  {
  }

  lemma {:induction false} OverlaidKeys(base: map<Bytes, Bytes>, pairs: seq<Pair>, n: nat)
    requires n <= |pairs|
    ensures forall k :: k in Overlaid(base, pairs, n) <==> k in base || exists j :: 0 <= j < n && pairs[j].0 == k
  {
    if n > 0 { OverlaidKeys(base, pairs, n - 1); }
  }

  lemma OverlaidFresh(base: map<Bytes, Bytes>, pairs: seq<Pair>, m: map<Bytes, Bytes>, i: nat)
    requires i < |pairs| && Lists(pairs, m) && pairs[i].0 !in base
    ensures pairs[i].0 !in Overlaid(base, pairs, i)
  {
    hide Leq, Overlaid;
    OverlaidKeys(base, pairs, i);
    assert forall j :: 0 <= j < i ==> Less(pairs[j].0, pairs[i].0);
  }

  lemma {:induction false} OverlaidValues(base: map<Bytes, Bytes>, pairs: seq<Pair>, m: map<Bytes, Bytes>, n: nat)
    requires n <= |pairs| && Lists(pairs, m)
    ensures forall k :: k in Overlaid(base, pairs, n) ==>
              if k in base then Overlaid(base, pairs, n)[k] == base[k]
              else k in m && Overlaid(base, pairs, n)[k] == m[k]
  {
    hide Leq, Less;
    if n > 0 { OverlaidValues(base, pairs, m, n - 1); }
  }

  lemma OverlaidComplete(base: map<Bytes, Bytes>, pairs: seq<Pair>, m: map<Bytes, Bytes>)
    requires Lists(pairs, m)
    ensures Overlaid(base, pairs, |pairs|) == m + base
  {
    hide Leq, Less, Overlaid;
    OverlaidKeys(base, pairs, |pairs|);
    OverlaidValues(base, pairs, m, |pairs|);
    forall k | k in m ensures k in Overlaid(base, pairs, |pairs|) {
      assert (k, m[k]) in pairs;
    }
  }
}
