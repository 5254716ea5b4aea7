/** A prefix scan over the wire: the server's chunk stream and the client's reassembly loop. */
module WireScan {
  import opened ByteStrings
  import opened BigEndian
  import opened FlatStore
  import opened PersistentTier
  import opened TwoTiers
  import opened Codec
  import opened Router
  import opened Wire

  /** Waiting: the replies so far hold no end marker, so the client is still in `recv`. */
  datatype ScanResult = Complete(pairs: seq<Pair>) | Failed | Waiting(pairs: seq<Pair>)

  datatype Progress = More(pair: Pair) | End | Broken

  /** A slice as Python takes it: clipped to the sequence. */
  function Slice(bytes: Bytes, from: nat, length: nat): (r: Bytes) {
    if from >= |bytes| then []
    else if from + length > |bytes| then bytes[from..] else bytes[from..from + length]
  }

  /** What the client makes of one reply of a scan. */
  function ReadChunk(id: nat, reply: Bytes): Progress {
    match OpenReply(id, reply)
    case Err => Broken
    case Ok((op, body)) =>
      if op == RESP_SCAN_END then End
      else if op != RESP_SCAN_CHUNK || |body| < 8 then Broken
      else
        var keyLength := U32At(body, 4);
        var key := Slice(body, 8, keyLength);
        if |body| < 8 + keyLength + 4 then Broken
        else
          var valueLength := U32At(body, 8 + keyLength);
          More((key, Slice(body, 12 + keyLength, valueLength)))
  }

  function Collected(id: nat, replies: seq<Bytes>, pairs: seq<Pair>): ScanResult
    decreases |replies|
  {
    if replies == [] then Waiting(pairs)
    else match ReadChunk(id, replies[0])
      case Broken => Failed
      case End => Complete(pairs)
      case More(pair) => Collected(id, replies[1..], pairs + [pair])
  }

  method Collect(id: nat, replies: seq<Bytes>) returns (r: ScanResult)
    ensures r == Collected(id, replies, [])
  {
    hide ReadChunk;
    var pairs: seq<Pair> := [];
    var i := 0;
    while i < |replies|
      invariant 0 <= i <= |replies|
      invariant Collected(id, replies, []) == Collected(id, replies[i..], pairs)
    {
      assert replies[i..][1..] == replies[i + 1..];
      match ReadChunk(id, replies[i])
      case Broken => return Failed;
      case End => return Complete(pairs);
      case More(pair) => pairs := pairs + [pair];
      i := i + 1;
    }
    return Waiting(pairs);
  }

  /** A pair as one chunk datagram can carry it: 17 bytes of headers, then as much of the
      value as the client's buffer still takes. */
  function PairAsFits(pair: Pair): Pair
    requires KeyFits(pair)
  {
    (pair.0, Cut(pair.1, CLIENT_BUFFER - 17 - |pair.0|))
  }

  /** Lengths that four bytes can hold. */
  ghost predicate Sized(pairs: seq<Pair>) {
    forall p :: p in pairs ==> |p.0| < TWO_TO_32 && |p.1| < TWO_TO_32
  }

  predicate KeyFits(pair: Pair) {
    |pair.0| <= CLIENT_BUFFER - 17
  }

  ghost predicate KeysFit(pairs: seq<Pair>) {
    forall p :: p in pairs ==> KeyFits(p)
  }

  /** What the client makes of a chunk: a key that was cut breaks the scan off. */
  lemma ChunkReads(id: nat, total: nat, chunkId: nat, pair: Pair)
    requires id < TWO_TO_32 && total <= MAX_U16 && chunkId <= MAX_U16 && Sized([pair])
    ensures ReadChunk(id, Received(EncodeLocal(Chunk(id, total, chunkId, pair)), CLIENT_BUFFER)) ==
            if KeyFits(pair) then More(PairAsFits(pair)) else Broken
  {
    hide OpenReply, Received, EncodeLocal;
    assert pair in [pair];
    var c := Chunk(id, total, chunkId, pair);
    ReplyOpens(c);
    assert c.payload == U16(total) + U16(chunkId) + LengthPrefix(pair.0) + pair.0 + LengthPrefix(pair.1) + pair.1;
    if KeyFits(pair) {
      BodyReads(U16(total) + U16(chunkId), pair);
    } else {
      CutKeyReads(U16(total) + U16(chunkId), pair.0, LengthPrefix(pair.1) + pair.1);
      assert c.payload == U16(total) + U16(chunkId) + LengthPrefix(pair.0) + pair.0 + (LengthPrefix(pair.1) + pair.1);
    }
  }

  lemma CutKeyReads(header: Bytes, key: Bytes, rest: Bytes)
    requires |header| == 4 && CLIENT_BUFFER - 17 < |key| < TWO_TO_32
    ensures var body := Cut(header + LengthPrefix(key) + key + rest, CLIENT_BUFFER - 5);
            8 <= |body| < 12 + |key| && U32At(body, 4) == |key|
  {
    hide ToBytes, FromBytes, Range;
    Widths();
    Roundtrip(|key|, 4);
    var whole := header + LengthPrefix(key) + key + rest;
    var body := Cut(whole, CLIENT_BUFFER - 5);
    assert whole[4..8] == LengthPrefix(key);
    assert body[4..8] == whole[4..8];
  }

  lemma BodyReads(header: Bytes, pair: Pair)
    requires |header| == 4 && |pair.0| <= CLIENT_BUFFER - 17 && |pair.1| < TWO_TO_32
    ensures var body := Cut(header + LengthPrefix(pair.0) + pair.0 + LengthPrefix(pair.1) + pair.1, CLIENT_BUFFER - 5);
            var n := |pair.0|;
            && |body| >= 12 + n
            && U32At(body, 4) == n && Slice(body, 8, n) == pair.0
            && U32At(body, 8 + n) == |pair.1| && Slice(body, 12 + n, |pair.1|) == PairAsFits(pair).1
  {
    var front := header + LengthPrefix(pair.0) + pair.0 + LengthPrefix(pair.1);
    var tail := Cut(pair.1, CLIENT_BUFFER - 17 - |pair.0|);
    assert Cut(front + pair.1, CLIENT_BUFFER - 5) == front + tail;
    FrontReads(header, pair.0, |pair.1|, tail);
    assert (front + tail)[12 + |pair.0|..] == tail;
  }

  lemma FrontReads(header: Bytes, key: Bytes, valueLength: nat, tail: Bytes)
    requires |header| == 4 && |key| < TWO_TO_32 && valueLength < TWO_TO_32
    ensures var body := header + LengthPrefix(key) + key + ToBytes(valueLength, 4) + tail;
            && U32At(body, 4) == |key| && Slice(body, 8, |key|) == key
            && U32At(body, 8 + |key|) == valueLength
  {
    hide ToBytes, FromBytes, Range;
    Widths();
    Roundtrip(|key|, 4);
    Roundtrip(valueLength, 4);
    var body := header + LengthPrefix(key) + key + ToBytes(valueLength, 4) + tail;
    assert body[4..8] == LengthPrefix(key);
    assert body[8..8 + |key|] == key;
    assert body[8 + |key|..12 + |key|] == ToBytes(valueLength, 4);
  }

  function AllAsFit(pairs: seq<Pair>): (r: seq<Pair>)
    requires KeysFit(pairs)
    ensures |r| == |pairs| && forall i :: 0 <= i < |r| ==> r[i] == PairAsFits(pairs[i])
  {
    seq(|pairs|, i requires 0 <= i < |pairs| => PairAsFits(pairs[i]))
  }

  function Arriving(datagrams: seq<Bytes>): (r: seq<Bytes>)
    ensures |r| == |datagrams| && forall i :: 0 <= i < |r| ==> r[i] == Received(datagrams[i], CLIENT_BUFFER)
  {
    seq(|datagrams|, i requires 0 <= i < |datagrams| => Received(datagrams[i], CLIENT_BUFFER))
  }

  lemma {:induction false} EncodedAt(responses: seq<Response>)
    requires forall r :: r in responses ==> r.id < TWO_TO_32
    ensures forall i :: 0 <= i < |responses| ==> Encoded(responses)[i] == EncodeLocal(responses[i])
  {
    hide EncodeLocal;
    if responses != [] { EncodedAt(responses[..|responses| - 1]); }
  }

  lemma {:induction false} CollectsFrom(id: nat, pairs: seq<Pair>, replies: seq<Bytes>, i: nat, sofar: seq<Pair>)
    requires id < TWO_TO_32 && i <= Total(pairs) && Sized(pairs)
    requires |replies| == Total(pairs) + 1 - i
    requires forall j :: i <= j < Total(pairs) ==>
               replies[j - i] == Received(EncodeLocal(Chunk(id, Total(pairs), j, pairs[j])), CLIENT_BUFFER)
    requires replies[Total(pairs) - i] == Received(EncodeLocal(Response(id, SCAN_END, [])), CLIENT_BUFFER)
    ensures var rest := pairs[i..Total(pairs)];
            Collected(id, replies, sofar) == if KeysFit(rest) then Complete(sofar + AllAsFit(rest)) else Failed
    decreases Total(pairs) - i
  {
    hide ReadChunk, Received, EncodeLocal, Chunk, PairAsFits, KeyFits;
    var rest := pairs[i..Total(pairs)];
    if i == Total(pairs) {
      EndReads(id);
      assert rest == [] && KeysFit(rest) && sofar + AllAsFit(rest) == sofar;
    } else {
      var p, more := pairs[i], pairs[i + 1..Total(pairs)];
      ChunkReads(id, Total(pairs), i, p) by { assert Sized([p]); }
      assert rest == [p] + more;
      if KeyFits(p) {
        CollectsFrom(id, pairs, replies[1..], i + 1, sofar + [PairAsFits(p)]);
        FitsFirst(p, more, sofar);
      } else {
        assert p in rest;
      }
    }
  }

  lemma FitsFirst(p: Pair, more: seq<Pair>, sofar: seq<Pair>)
    requires KeyFits(p)
    ensures KeysFit([p] + more) <==> KeysFit(more)
    ensures KeysFit(more) ==> sofar + [PairAsFits(p)] + AllAsFit(more) == sofar + AllAsFit([p] + more)
  {
    hide PairAsFits;
    assert forall q :: q in more ==> q in [p] + more;
  }

  lemma EndReads(id: nat)
    requires id < TWO_TO_32
    ensures ReadChunk(id, Received(EncodeLocal(Response(id, SCAN_END, [])), CLIENT_BUFFER)) == End
  {
    ReplyOpens(Response(id, SCAN_END, []));
  }

  /** What a client makes of a scan: the first 65535 pairs in order, or a failure if one of
      their keys is too long for a chunk. */
  ghost function ScanOutcome(pairs: seq<Pair>): ScanResult {
    var sent := pairs[..Total(pairs)];
    if KeysFit(sent) then Complete(AllAsFit(sent)) else Failed
  }

  /** The client's loop over the server's stream rebuilds the pairs exactly when every key fits
      its chunk; a pair is intact exactly when its chunk fits the client's buffer. */
  lemma ScanArrives(id: nat, pairs: seq<Pair>)
    requires id < TWO_TO_32 && Sized(pairs)
    ensures Collected(id, Arriving(Encoded(ScanResponses(id, pairs))), []) == ScanOutcome(pairs)
    ensures forall p :: p in pairs && KeyFits(p) ==> (PairAsFits(p) == p <==> 17 + |p.0| + |p.1| <= CLIENT_BUFFER)
  {
    hide ReadChunk, Received, EncodeLocal, Encoded;
    var replies := Arriving(Encoded(ScanResponses(id, pairs)));
    EncodedAt(ScanResponses(id, pairs));
    CollectsFrom(id, pairs, replies, 0, []);
    assert pairs[0..Total(pairs)] == pairs[..Total(pairs)];
    var sent := pairs[..Total(pairs)];
    if KeysFit(sent) { assert [] + AllAsFit(sent) == AllAsFit(sent); }
  }

  lemma ScanServes(id: nat, prefix: Bytes, s: Tiers, now: Instant, s': Tiers, now': Instant, replies: seq<Bytes>)
    requires id < TWO_TO_32 && |prefix| < TWO_TO_32
    requires Replied(Received(RequestDatagram(id, Action.Scan(prefix)), SERVER_BUFFER), s, now, s', now', replies)
    ensures ScanServed(prefix, s, now, s', now', Collected(id, Arriving(replies), []))
  {
    hide Parse, Received, Performs, ReadChunk, Collected, EncodeLocal, Encoded, ScanResponses, U32;
    hide Sized, ScanOutcome, Arrived;
    var a := Action.Scan(prefix);
    assert |RequestDatagram(id, a)| == 9 + |prefix|;
    RequestArrives(id, a);
    var q := DecodeLocal(Received(RequestDatagram(id, a), SERVER_BUFFER)).value;
    var b := Parse(q.opcode, q.payload, q.isLocal);
    var responses: seq<Response> :|
      && Dispatched(id, b, s, now, s', now', responses) && (forall r :: r in responses ==> r.id == id)
      && replies == Encoded(responses);
    if b.Refuse? {
      RefusedScanFails(id, b.code);
    } else {
      var answer :| Performs(s, now, FindByPrefix(prefix), s', now', answer) && responses == Responses(id, answer);
      ScanAnswer(s, now, prefix, s', now', answer);
      if Sized(answer.pairs) {
        ScanArrives(id, answer.pairs);
        OutcomeArrived(answer.pairs);
      }
    }
  }

  lemma ScanAnswer(s: Tiers, now: Instant, prefix: Bytes, s': Tiers, now': Instant, answer: Answer)
    requires Performs(s, now, FindByPrefix(prefix), s', now', answer)
    ensures answer.Pairs?
  {
  }

  lemma RefusedScanFails(id: nat, code: Byte)
    requires id < TWO_TO_32 && code != SCAN_END && code != SCAN_CHUNK
    ensures Collected(id, Arriving(Encoded([Response(id, code, [])])), []) == Failed
  {
    hide Received, EncodeLocal, OpenReply;
    EncodedOne(Response(id, code, []));
    ReplyOpens(Response(id, code, []));
  }

  /** What the client has of these pairs: all of them, or the first 65535, each with its key and as
      much of its value as the client's buffer takes; or a failure, if one of their keys is too
      long. */
  ghost predicate Arrived(pairs: seq<Pair>, r: ScanResult) {
    var n := if |pairs| <= 65535 then |pairs| else 65535;
    if forall i :: 0 <= i < n ==> |pairs[i].0| <= 65536 - 17 then
      && r.Complete? && |r.pairs| == n
      && forall i :: 0 <= i < n ==>
           r.pairs[i].0 == pairs[i].0 && r.pairs[i].1 == Cut(pairs[i].1, 65536 - 17 - |pairs[i].0|)
    else r == Failed
  }

  lemma OutcomeArrived(pairs: seq<Pair>)
    ensures Arrived(pairs, ScanOutcome(pairs))
  {
    var sent := pairs[..Total(pairs)];
    if forall i :: 0 <= i < |sent| ==> |pairs[i].0| <= 65536 - 17 {
      assert KeysFit(sent);
    } else {
      var i :| 0 <= i < |sent| && |pairs[i].0| > 65536 - 17;
      assert sent[i] in sent && !KeyFits(sent[i]);
    }
  }

  ghost predicate ScanServed(prefix: Bytes, s: Tiers, now: Instant, s': Tiers, now': Instant, r: ScanResult) {
    if |prefix| <= 2048 - 9 then
      exists pairs ::
        && Performs(s, now, FindByPrefix(prefix), s', now', Pairs(pairs))
        && (Sized(pairs) ==> Arrived(pairs, r))
    else s' == s && now' == now && r == Failed
  }

  /** A scan over the wire is the bus's scan: the same pairs in the same order. */
  method Scan(connection: Connection, worker: Worker, prefix: Bytes) returns (r: ScanResult)
    requires connection.Valid() && worker.bus.Valid() && |prefix| < TWO_TO_32
    modifies connection, worker, worker.bus.transient.store, worker.bus.persistent, worker.bus.clock
    ensures connection.Valid() && worker.bus.Valid()
    ensures ScanServed(prefix, old(worker.bus.State()), old(worker.bus.clock.now), worker.bus.State(),
                       worker.bus.clock.now, r)
  {
    hide Parse, Received, Sendable, Replied, ScanServed, Namespace, Collected;
    var id := connection.NextRequestId();
    assert Sendable(Action.Scan(prefix)) by { SendableScan(prefix); }
    var datagram := RequestDatagram(id, Action.Scan(prefix));
    RequestArrives(id, Action.Scan(prefix));
    var replies := worker.ServeLocal(datagram);
    ScanServes(id, prefix, old(worker.bus.State()), old(worker.bus.clock.now), worker.bus.State(),
               worker.bus.clock.now, replies.value);
    r := Collect(id, Arriving(replies.value));
  }

  lemma SendableScan(prefix: Bytes)
    requires |prefix| < TWO_TO_32
    ensures Sendable(Action.Scan(prefix))
  {
  }
}
