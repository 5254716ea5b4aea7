/** Byte strings as the engine compares and stores them: the lexicographic order of
    its ordered maps, prefixes and key-ordered listings. */
module ByteStrings {
  datatype Option<+T> = None | Some(value: T)

  type Byte = b: int | 0 <= b < 256
  type Bytes = seq<Byte>

  const COLON: Byte := 58
  const SLASH: Byte := 47

  /** The bytes of an ASCII literal. */
  function Ascii(s: string): (r: Bytes)
    requires forall i :: 0 <= i < |s| ==> s[i] < 128 as char
    ensures |r| == |s|
    ensures forall i :: 0 <= i < |s| ==> r[i] == s[i] as int
  {
    seq(|s|, i requires 0 <= i < |s| => s[i] as int)
  }

  // ----- lexicographic order -----

  predicate Leq(a: Bytes, b: Bytes) {
    a == [] || (b != [] && (a[0] < b[0] || (a[0] == b[0] && Leq(a[1..], b[1..]))))
  }

  predicate Less(a: Bytes, b: Bytes) {
    a != b && Leq(a, b)
  }

  lemma {:induction false} LeqReflexive(a: Bytes)
    ensures Leq(a, a)
  {
    if a != [] { LeqReflexive(a[1..]); }
  }

  lemma {:induction false} LeqTotal(a: Bytes, b: Bytes)
    ensures Leq(a, b) || Leq(b, a)
  {
    if a != [] && b != [] { LeqTotal(a[1..], b[1..]); }
  }

  lemma {:induction false} LeqAntisymmetric(a: Bytes, b: Bytes)
    requires Leq(a, b) && Leq(b, a)
    ensures a == b
  {
    if a != [] && b != [] {
      LeqAntisymmetric(a[1..], b[1..]);
      assert a == [a[0]] + a[1..] && b == [b[0]] + b[1..];
    }
  }

  lemma {:induction false} LeqTransitive(a: Bytes, b: Bytes, c: Bytes)
    requires Leq(a, b) && Leq(b, c)
    ensures Leq(a, c)
  {
    if a != [] && a[0] == b[0] && b[0] == c[0] { LeqTransitive(a[1..], b[1..], c[1..]); }
  }

  /** At `i` the two differ for the first time, and there `a` is smaller. */
  predicate SmallerAt(a: Bytes, b: Bytes, i: nat) {
    i < |a| && i < |b| && a[..i] == b[..i] && a[i] < b[i]
  }

  /** The order is that of dictionaries: a prefix comes first, and otherwise the smaller byte at
      the first difference decides. */
  lemma {:induction false} LeqExact(a: Bytes, b: Bytes)
    ensures Leq(a, b) <==> a <= b || exists i: nat :: SmallerAt(a, b, i)
  {
    if a == [] || b == [] {
    } else if a[0] != b[0] {
      assert a[0] < b[0] ==> SmallerAt(a, b, 0);
    } else {
      var a', b' := a[1..], b[1..];
      LeqExact(a', b');
      assert a == [a[0]] + a' && b == [b[0]] + b';
      forall i: nat | SmallerAt(a', b', i) ensures SmallerAt(a, b, i + 1) {
        assert a[..i + 1] == [a[0]] + a'[..i] && b[..i + 1] == [b[0]] + b'[..i];
      }
      forall i: nat | SmallerAt(a, b, i) ensures i > 0 && SmallerAt(a', b', i - 1) {
        assert a'[..i - 1] == a[..i][1..] && b'[..i - 1] == b[..i][1..];
      }
    }
  }

  // ----- lists without repetition -----

  ghost predicate Distinct(keys: seq<Bytes>) {
    forall i, j :: 0 <= i < j < |keys| ==> keys[i] != keys[j]
  }

  // ----- prefixes -----

  predicate StartsWith(key: Bytes, prefix: Bytes) {
    prefix <= key
  }

  /** The keys that start with a prefix are an interval of the order, and the prefix is
      its lower end: why a range scan may stop at the first key that does not match. */
  lemma {:induction false} PrefixInterval(prefix: Bytes, key: Bytes, other: Bytes)
    requires StartsWith(key, prefix)
    ensures Leq(prefix, key)
    ensures Leq(prefix, other) && Leq(other, key) ==> StartsWith(other, prefix)
  {
    if prefix != [] {
      assert key[1..][..|prefix| - 1] == key[..|prefix|][1..];
      if other != [] {
        PrefixInterval(prefix[1..], key[1..], other[1..]);
        if Leq(prefix, other) && Leq(other, key) {
          assert other == [other[0]] + other[1..] && prefix == [prefix[0]] + prefix[1..];
        }
      } else {
        PrefixInterval(prefix[1..], key[1..], []);
      }
    }
  }

  // ----- key-ordered listings -----

  type Pair = (Bytes, Bytes)

  ghost predicate KeysAscend(pairs: seq<Pair>) {
    forall i, j :: 0 <= i < j < |pairs| ==> Less(pairs[i].0, pairs[j].0)
  }

  /** `pairs` is the content of `m` in strictly ascending key order. */
  ghost predicate Lists(pairs: seq<Pair>, m: map<Bytes, Bytes>) {
    && KeysAscend(pairs)
    && (forall i :: 0 <= i < |pairs| ==> pairs[i].0 in m && m[pairs[i].0] == pairs[i].1)
    && (forall k :: k in m ==> (k, m[k]) in pairs)
  }

  /** A map has only one such listing. */
  lemma {:induction false} ListsUnique(a: seq<Pair>, b: seq<Pair>, m: map<Bytes, Bytes>)
    requires Lists(a, m) && Lists(b, m)
    ensures a == b
    decreases |a|
  {
    hide Leq, Less, Lists;
    ListsEmpty(a, m);
    ListsEmpty(b, m);
    if a != [] {
      ListsSameHead(a, b, m);
      var rest := Without(m, a[0].0);
      ListsTail(a, m);
      ListsTail(b, m);
      ListsUnique(a[1..], b[1..], rest);
      assert a == [a[0]] + a[1..] && b == [b[0]] + b[1..];
    }
  }

  lemma ListsEmpty(pairs: seq<Pair>, m: map<Bytes, Bytes>)
    requires Lists(pairs, m)
    ensures pairs == [] <==> m == map[]
  {
    if pairs != [] { assert pairs[0].0 in m; }
    if m != map[] {
      var k :| k in m;
      assert (k, m[k]) in pairs;
    }
  }

  lemma ListsSameHead(a: seq<Pair>, b: seq<Pair>, m: map<Bytes, Bytes>)
    requires Lists(a, m) && Lists(b, m) && a != [] && b != []
    ensures a[0] == b[0]
  {
    ListsHeadLeast(a, m);
    ListsHeadLeast(b, m);
    assert a[0].0 in m && b[0].0 in m;
    LeqAntisymmetric(a[0].0, b[0].0);
  }

  function Without(m: map<Bytes, Bytes>, k: Bytes): map<Bytes, Bytes> {
    map x | x in m && x != k :: m[x]
  }

  lemma ListsTail(a: seq<Pair>, m: map<Bytes, Bytes>)
    requires Lists(a, m) && a != []
    ensures Lists(a[1..], Without(m, a[0].0))
  {
    var t := a[1..];
    var rest := Without(m, a[0].0);
    forall i | 0 <= i < |t|
      ensures t[i].0 in rest && rest[t[i].0] == t[i].1
    {
      assert t[i] == a[i + 1];
      assert Less(a[0].0, a[i + 1].0);
    }
    forall k | k in rest
      ensures (k, rest[k]) in t
    {
      assert (k, m[k]) in a;
      var i :| 0 <= i < |a| && a[i] == (k, m[k]);
      assert a[i] == t[i - 1];
    }
  }

  lemma {:induction false} FindLeastKey(keys: set<Bytes>) returns (least: Bytes)
    requires keys != {}
    ensures least in keys && forall x :: x in keys ==> Leq(least, x)
    decreases |keys|
  {
    hide Leq;
    var k :| k in keys;
    var others := keys - {k};
    least := k;
    LeqReflexive(k);
    if others != {} {
      var l := FindLeastKey(others);
      LeqTotal(k, l);
      if Leq(k, l) {
        forall x | x in others ensures Leq(k, x) { LeqTransitive(k, l, x); }
      } else {
        least := l;
      }
    }
    forall x | x in keys ensures Leq(least, x) {
      if x != k { assert x in others; }
    }
  }

  lemma LeastKeyExists(keys: set<Bytes>)
    requires keys != {}
    ensures exists k :: k in keys && forall x :: x in keys ==> Leq(k, x)
  {
    var k := FindLeastKey(keys);
  }

  function LeastKey(keys: set<Bytes>): (k: Bytes)
    requires keys != {}
    ensures k in keys && forall x :: x in keys ==> Leq(k, x)
  {
    LeastKeyExists(keys);
    LeastKeyUnique(keys);
    var k :| k in keys && forall x :: x in keys ==> Leq(k, x);
    k
  }

  lemma LeastKeyUnique(keys: set<Bytes>)
    ensures forall k, l ::
      k in keys && l in keys && (forall x :: x in keys ==> Leq(k, x)) && (forall x :: x in keys ==> Leq(l, x))
      ==> k == l
  {
    forall k, l | && k in keys && l in keys
                  && (forall x :: x in keys ==> Leq(k, x)) && (forall x :: x in keys ==> Leq(l, x))
      ensures k == l
    {
      LeqAntisymmetric(k, l);
    }
  }

  /** The iteration order of an ordered map. */
  function InOrder(m: map<Bytes, Bytes>): (pairs: seq<Pair>)
    ensures Lists(pairs, m)
    decreases |m|
  {
    if m == map[] then []
    else
      var k := LeastKey(m.Keys);
      var rest := Without(m, k);
      assert rest.Keys == m.Keys - {k};
      assert |rest| == |rest.Keys| && |m| == |m.Keys|;
      InOrderStep(m, k, InOrder(rest));
      [(k, m[k])] + InOrder(rest)
  }

  lemma InOrderStep(m: map<Bytes, Bytes>, k: Bytes, tail: seq<Pair>)
    requires k in m && forall x :: x in m.Keys ==> Leq(k, x)
    requires Lists(tail, Without(m, k))
    ensures Lists([(k, m[k])] + tail, m)
  {
    hide Leq, Less;
    PrependKeepsEntries(m, k, tail);
    PrependAscends(m, k, tail);
  }

  lemma PrependAscends(m: map<Bytes, Bytes>, k: Bytes, tail: seq<Pair>)
    requires k in m && forall x :: x in m.Keys ==> Leq(k, x)
    requires KeysAscend(tail) && forall i :: 0 <= i < |tail| ==> tail[i].0 in m && tail[i].0 != k
    ensures KeysAscend([(k, m[k])] + tail)
  {
    hide Leq;
    var pairs := [(k, m[k])] + tail;
    forall i, j | 0 <= i < j < |pairs|
      ensures Less(pairs[i].0, pairs[j].0)
    {
      assert pairs[j] == tail[j - 1];
      if i == 0 { assert pairs[j].0 in m.Keys; } else { assert pairs[i] == tail[i - 1]; }
    }
  }

  lemma PrependKeepsEntries(m: map<Bytes, Bytes>, k: Bytes, tail: seq<Pair>)
    requires k in m && Lists(tail, Without(m, k))
    ensures forall x :: x in m ==> (x, m[x]) in [(k, m[k])] + tail
  {
    hide Leq;
    var pairs := [(k, m[k])] + tail;
    forall x | x in m
      ensures (x, m[x]) in pairs
    {
      if x == k { assert pairs[0] == (x, m[x]); } else { assert (x, Without(m, k)[x]) in tail; }
    }
  }

  function WithPrefix(m: map<Bytes, Bytes>, prefix: Bytes): map<Bytes, Bytes> {
    map k | k in m && StartsWith(k, prefix) :: m[k]
  }

  /** `range(start..)` of an ordered map. */
  function RangeFrom(pairs: seq<Pair>, start: Bytes): seq<Pair> {
    if pairs == [] || Leq(start, pairs[0].0) then pairs else RangeFrom(pairs[1..], start)
  }

  /** `take_while(|(key, _)| key.starts_with(prefix))`. */
  function TakeWhilePrefix(pairs: seq<Pair>, prefix: Bytes): seq<Pair> {
    if pairs == [] || !StartsWith(pairs[0].0, prefix) then []
    else [pairs[0]] + TakeWhilePrefix(pairs[1..], prefix)
  }

  lemma {:induction false} TakeWhileLists(pairs: seq<Pair>, m: map<Bytes, Bytes>, prefix: Bytes)
    requires Lists(pairs, m)
    requires forall k :: k in m ==> Leq(prefix, k)
    ensures Lists(TakeWhilePrefix(pairs, prefix), WithPrefix(m, prefix))
    decreases |pairs|
  {
    ListsEmpty(pairs, m);
    if pairs == [] {
      assert WithPrefix(m, prefix) == map[];
    } else {
      ListsHeadLeast(pairs, m);
      var k := pairs[0].0;
      if StartsWith(k, prefix) {
        ListsTail(pairs, m);
        TakeWhileLists(pairs[1..], Without(m, k), prefix);
        TakeOne(m, k, TakeWhilePrefix(pairs[1..], prefix), prefix);
      } else {
        NoneWithPrefix(m, k, prefix);
      }
    }
  }

  lemma TakeOne(m: map<Bytes, Bytes>, k: Bytes, tail: seq<Pair>, prefix: Bytes)
    requires k in m && StartsWith(k, prefix) && forall x :: x in m.Keys ==> Leq(k, x)
    requires Lists(tail, WithPrefix(Without(m, k), prefix))
    ensures Lists([(k, m[k])] + tail, WithPrefix(m, prefix))
  {
    var w := WithPrefix(m, prefix);
    assert WithPrefix(Without(m, k), prefix) == Without(w, k);
    InOrderStep(w, k, tail);
  }

  lemma NoneWithPrefix(m: map<Bytes, Bytes>, k: Bytes, prefix: Bytes)
    requires Leq(prefix, k) && !StartsWith(k, prefix)
    requires forall x :: x in m.Keys ==> Leq(k, x)
    ensures WithPrefix(m, prefix) == map[]
  {
    forall x | x in m
      ensures !StartsWith(x, prefix)
    {
      if StartsWith(x, prefix) { PrefixInterval(prefix, x, k); }
    }
  }

  lemma ListsHeadLeast(pairs: seq<Pair>, m: map<Bytes, Bytes>)
    requires Lists(pairs, m) && pairs != []
    ensures forall x :: x in m.Keys ==> Leq(pairs[0].0, x)
  {
    forall x | x in m.Keys
      ensures Leq(pairs[0].0, x)
    {
      assert (x, m[x]) in pairs;
      var i :| 0 <= i < |pairs| && pairs[i] == (x, m[x]);
      if i == 0 { LeqReflexive(x); } else { assert Less(pairs[0].0, pairs[i].0); }
    }
  }

  /** An ordered range scan that starts at the prefix and stops at the first key outside it
      lists exactly the entries with that prefix. */
  lemma {:induction false} RangeScanLists(pairs: seq<Pair>, m: map<Bytes, Bytes>, prefix: Bytes)
    requires Lists(pairs, m)
    ensures Lists(TakeWhilePrefix(RangeFrom(pairs, prefix), prefix), WithPrefix(m, prefix))
    decreases |pairs|
  {
    ListsEmpty(pairs, m);
    if pairs == [] {
      assert WithPrefix(m, prefix) == map[];
    } else {
      ListsHeadLeast(pairs, m);
      var k := pairs[0].0;
      if Leq(prefix, k) {
        forall x | x in m ensures Leq(prefix, x) { LeqTransitive(prefix, k, x); }
        TakeWhileLists(pairs, m, prefix);
      } else {
        ListsTail(pairs, m);
        RangeScanLists(pairs[1..], Without(m, k), prefix);
        if StartsWith(k, prefix) { PrefixInterval(prefix, k, prefix); }
        assert WithPrefix(Without(m, k), prefix) == WithPrefix(m, prefix);
      }
    }
  }
}
