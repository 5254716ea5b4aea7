/** Dispatch: a decoded request becomes a call on the bus and the call's answer becomes
    response datagrams. */
module Router {
  import opened ByteStrings
  import opened BigEndian
  import opened FlatStore
  import opened PersistentTier
  import opened TwoTiers
  import opened Permutive
  import opened Codec

  // ----- scan responses -----

  function Total(pairs: seq<Pair>): nat {
    if |pairs| < MAX_U16 then |pairs| else MAX_U16
  }

  /** `as u32`, which keeps the low 32 bits of a length. */
  function LengthPrefix(bytes: Bytes): Bytes {
    ToBytes(|bytes|, 4)
  }

  function Chunk(id: nat, total: nat, chunkId: nat, pair: Pair): Response
    requires total <= MAX_U16 && chunkId <= MAX_U16
  {
    Response(id, SCAN_CHUNK,
             U16(total) + U16(chunkId) + LengthPrefix(pair.0) + pair.0 + LengthPrefix(pair.1) + pair.1)
  }

  function ScanResponses(id: nat, pairs: seq<Pair>): seq<Response> {
    seq(Total(pairs), i requires 0 <= i < Total(pairs) => Chunk(id, Total(pairs), i, pairs[i]))
    + [Response(id, SCAN_END, [])]
  }

  method BuildScanResponses(id: nat, pairs: seq<Pair>) returns (responses: seq<Response>)
    ensures responses == ScanResponses(id, pairs)
    ensures |responses| == (if |pairs| <= 65535 then |pairs| else 65535) + 1
  {
    hide Chunk;
    var total := Total(pairs);
    responses := [];
    var chunkId := 0;
    while chunkId < |pairs| && chunkId < MAX_U16
      invariant 0 <= chunkId <= total
      invariant |responses| == chunkId
      invariant forall i :: 0 <= i < chunkId ==> responses[i] == Chunk(id, total, i, pairs[i])
    {
      responses := responses + [Chunk(id, total, chunkId, pairs[chunkId])];
      chunkId := chunkId + 1;
    }
    responses := responses + [Response(id, SCAN_END, [])];
  }

  // What a client can read off a chunk.
  function ChunkTotal(r: Response): nat
    requires |r.payload| >= 4
  {
    FromBytes(r.payload[0..2])
  }

  function ChunkId(r: Response): nat
    requires |r.payload| >= 4
  {
    FromBytes(r.payload[2..4])
  }

  lemma ChunkHeader(id: nat, total: nat, chunkId: nat, pair: Pair)
    requires total <= MAX_U16 && chunkId <= MAX_U16
    ensures var c := Chunk(id, total, chunkId, pair);
            |c.payload| >= 12 && ChunkTotal(c) == total && ChunkId(c) == chunkId
  {
    var c := Chunk(id, total, chunkId, pair);
    assert c.payload[0..2] == U16(total);
    assert c.payload[2..4] == U16(chunkId);
  }

  ghost predicate HasChunk(responses: seq<Response>, chunkId: nat) {
    exists c :: c in responses && |c.payload| >= 4 && ChunkId(c) == chunkId
  }

  /** The stream announces its own length, and however its chunks are shuffled their ids say
      where each belongs: no id is lost, repeated or truncated. */
  lemma ChunksCanBeReordered(id: nat, pairs: seq<Pair>, shuffled: seq<Response>)
    requires multiset(shuffled) == multiset(ScanResponses(id, pairs)[..Total(pairs)])
    ensures |shuffled| == Total(pairs)
    ensures forall c :: c in shuffled ==>
              && |c.payload| >= 4 && ChunkTotal(c) == |shuffled| && ChunkId(c) < |shuffled|
              && c == Chunk(id, |shuffled|, ChunkId(c), pairs[ChunkId(c)])
    ensures forall i :: 0 <= i < |shuffled| ==> HasChunk(shuffled, i)
  {
    hide Chunk, ChunkId, ChunkTotal;
    var chunks := ScanResponses(id, pairs)[..Total(pairs)];
    assert |shuffled| == |multiset(shuffled)| == |chunks|;
    forall c | c in shuffled
      ensures |c.payload| >= 4 && ChunkTotal(c) == |shuffled| && ChunkId(c) < |shuffled|
      ensures c == Chunk(id, |shuffled|, ChunkId(c), pairs[ChunkId(c)])
    {
      assert c in multiset(shuffled);
      assert c in chunks;
      var i :| 0 <= i < |chunks| && chunks[i] == c;
      ChunkHeader(id, Total(pairs), i, pairs[i]);
    }
    forall i | 0 <= i < |shuffled|
      ensures HasChunk(shuffled, i)
    {
      var c := chunks[i];
      ChunkHeader(id, Total(pairs), i, pairs[i]);
      assert c in multiset(chunks);
      assert c in shuffled;
    }
  }

  // ----- dispatch -----

  predicate IsPrimitive(a: Action) {
    a.Read? || a.Write? || a.Delete? || a.DeleteIfMatch? || a.SetTtl? || a.Scan?
  }

  /** The bus operation a primitive stands for. */
  function BusOp(a: Action): Op
    requires IsPrimitive(a)
  {
    match a
    case Read(key) => ReadValue(key)
    case Write(key, value, ms) =>
      if ms == 0 then WriteValue(key, value) else WriteValueWithTtl(key, value, ms * MILLISECOND)
    case Delete(key) => DeleteValue(key)
    case DeleteIfMatch(key, expected) => DeleteValueIfMatch(key, expected)
    case SetTtl(key, ms) => WriteTtl(key, ms * MILLISECOND)
    case Scan(prefix) => FindByPrefix(prefix)
  }

  /** How an answer is put on the wire. */
  function Responses(id: nat, answer: Answer): seq<Response> {
    match answer
    case Found(Some(value)) => [Response(id, OK_PAYLOAD, LengthPrefix(value) + value)]
    case Found(None) => [Response(id, OK, [])]
    case Matched(matched) => [Response(id, OK_PAYLOAD, [if matched then 0x01 else 0x00])]
    case Pairs(pairs) => ScanResponses(id, pairs)
    case _ => [Response(id, OK, [])]
  }

  /** Requests whose effect this model covers: the primitives, refusals and bare
      acknowledgements. */
  predicate Covered(a: Action) {
    IsPrimitive(a) || a.Refuse? || a.Acknowledge?
  }

  /** What one dispatch does: refuse without touching the bus, or make one bus call and
      answer with its answer. */
  ghost predicate Dispatched(id: nat, a: Action, s: Tiers, now: Instant, s': Tiers, now': Instant,
                             responses: seq<Response>)
    requires Covered(a)
  {
    match a
    case Refuse(code) => s' == s && now' == now && responses == [Response(id, code, [])]
    case Acknowledge => s' == s && now' == now && responses == [Response(id, OK, [])]
    case _ => exists answer :: Performs(s, now, BusOp(a), s', now', answer) && responses == Responses(id, answer)
  }

  /** The state as the action finds it: a plain write opens the key's database first, which
      brings back the rows of a file that start-up missed. */
  ghost function Before(bus: PermutiveBus, a: Action): Tiers
    reads bus.transient.store, bus.persistent
  {
    if a.Write? && a.milliseconds == 0 then bus.Opened(a.key) else bus.State()
  }

  /** Every response carries the request's id, and there is at least one. */
  lemma ResponseIds(id: nat, answer: Answer)
    ensures Responses(id, answer) != [] && forall r :: r in Responses(id, answer) ==> r.id == id
  {
    hide LengthPrefix, ScanResponses;
    if answer.Pairs? { ScanIds(id, answer.pairs); }
  }

  lemma ScanIds(id: nat, pairs: seq<Pair>)
    ensures ScanResponses(id, pairs) != [] && forall r :: r in ScanResponses(id, pairs) ==> r.id == id
  {
    hide LengthPrefix;
  }

  /** The bus call that each action is: the arguments are the request's, and its milliseconds are
      a million nanoseconds each. */
  ghost predicate MadeCall(a: Action, s: Tiers, now: Instant, s': Tiers, now': Instant) {
    match a
    case Read(key) => exists found :: Performs(s, now, ReadValue(key), s', now', Found(found))
    case Write(key, value, ms) =>
      if ms == 0 then Performs(s, now, WriteValue(key, value), s', now', Done)
      else Performs(s, now, WriteValueWithTtl(key, value, ms * 1_000_000), s', now', Done)
    case Delete(key) => Performs(s, now, DeleteValue(key), s', now', Done)
    case DeleteIfMatch(key, expected) =>
      exists matched :: Performs(s, now, DeleteValueIfMatch(key, expected), s', now', Matched(matched))
    case SetTtl(key, ms) => Performs(s, now, WriteTtl(key, ms * 1_000_000), s', now', Done)
    case Scan(prefix) => exists pairs :: Performs(s, now, FindByPrefix(prefix), s', now', Pairs(pairs))
    case _ => s' == s && now' == now
  }

  /** The answer is of the action's kind. */
  predicate IsAnswerTo(a: Action, answer: Answer) {
    match a
    case Read(_) => answer.Found?
    case DeleteIfMatch(_, _) => answer.Matched?
    case Scan(_) => answer.Pairs?
    case _ => answer.Done?
  }

  lemma CallMade(a: Action, s: Tiers, now: Instant, s': Tiers, now': Instant, answer: Answer)
    requires IsPrimitive(a) && IsAnswerTo(a, answer) && Performs(s, now, BusOp(a), s', now', answer)
    ensures MadeCall(a, s, now, s', now')
  {
    hide Performs;
  }

  /** A bus call and its answer are a dispatch. */
  lemma AnsweredBy(id: nat, a: Action, s: Tiers, now: Instant, s': Tiers, now': Instant, answer: Answer)
    requires IsPrimitive(a) && IsAnswerTo(a, answer) && Performs(s, now, BusOp(a), s', now', answer)
    ensures Dispatched(id, a, s, now, s', now', Responses(id, answer))
    ensures Responses(id, answer) != [] && forall r :: r in Responses(id, answer) ==> r.id == id
    ensures MadeCall(a, s, now, s', now')
  {
    hide Performs, BusOp, Responses, MadeCall, IsAnswerTo;
    ResponseIds(id, answer);
    CallMade(a, s, now, s', now', answer);
  }

  lemma NoCallMade(a: Action, s: Tiers, now: Instant)
    requires a.Refuse? || a.Acknowledge?
    ensures MadeCall(a, s, now, s, now)
  {
  }

  /** None for the administrative requests, which are handled outside this model. */
  method DispatchRequest(request: Request, bus: PermutiveBus) returns (responses: Option<seq<Response>>)
    requires bus.Valid()
    modifies bus.transient.store, bus.persistent, bus.clock
    ensures bus.Valid()
    ensures var a := Parse(request.opcode, request.payload, request.isLocal);
            && (responses.Some? <==> Covered(a))
            && (responses.Some? ==> responses.value != [] && forall r :: r in responses.value ==> r.id == request.id)
            && (Covered(a) ==>
                  Dispatched(request.id, a, old(Before(bus, a)), old(bus.clock.now), bus.State(), bus.clock.now,
                             responses.value)
                  && MadeCall(a, old(Before(bus, a)), old(bus.clock.now), bus.State(), bus.clock.now))
  {
    hide Performs, Namespace, Parse, Responses, ScanResponses, MadeCall;
    var a := Parse(request.opcode, request.payload, request.isLocal);
    ghost var s, now := Before(bus, a), bus.clock.now;
    if a.Refuse? || a.Acknowledge? { NoCallMade(a, s, now); }
    match a
    case Refuse(code) => responses := Some([Response(request.id, code, [])]);
    case Acknowledge => responses := Some([Response(request.id, OK, [])]);
    case Read(key) =>
      var found := bus.ReadValue(key);
      AnsweredBy(request.id, a, s, now, bus.State(), bus.clock.now, Found(found));
      responses := Some(Responses(request.id, Found(found)));
    case Write(key, value, ms) =>
      if ms == 0 {
        bus.WriteValue(key, value);
      } else {
        bus.WriteValueWithTtl(key, value, ms * MILLISECOND);
      }
      AnsweredBy(request.id, a, s, now, bus.State(), bus.clock.now, Done);
      responses := Some(Responses(request.id, Done));
    case Delete(key) =>
      bus.DeleteValue(key);
      AnsweredBy(request.id, a, s, now, bus.State(), bus.clock.now, Done);
      responses := Some(Responses(request.id, Done));
    case DeleteIfMatch(key, expected) =>
      var matched := bus.DeleteValueIfMatch(key, expected);
      AnsweredBy(request.id, a, s, now, bus.State(), bus.clock.now, Matched(matched));
      responses := Some(Responses(request.id, Matched(matched)));
    case SetTtl(key, ms) =>
      bus.WriteTtl(key, ms * MILLISECOND);
      AnsweredBy(request.id, a, s, now, bus.State(), bus.clock.now, Done);
      responses := Some(Responses(request.id, Done));
    case Scan(prefix) =>
      var pairs := bus.FindByPrefix(prefix);
      var chunks := BuildScanResponses(request.id, pairs);
      AnsweredBy(request.id, a, s, now, bus.State(), bus.clock.now, Pairs(pairs));
      ScanAnswers(request.id, pairs);
      responses := Some(chunks);
    case _ => responses := None;
  }

  lemma ScanAnswers(id: nat, pairs: seq<Pair>)
    ensures Responses(id, Pairs(pairs)) == ScanResponses(id, pairs)
  {
    hide ScanResponses;
  }
}
