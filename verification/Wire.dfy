/** Both ends of the local socket: the worker that serves datagrams from reused buffers, and
    the Python client. Together they amount to direct calls on the bus. */
module Wire {
  import opened ByteStrings
  import opened BigEndian
  import opened FlatStore
  import opened PersistentTier
  import opened TwoTiers
  import opened Permutive
  import opened Codec
  import opened Router

  const SERVER_BUFFER: nat := 2048
  const CLIENT_BUFFER: nat := 65536

  /** A datagram longer than the receive buffer arrives cut. */
  function Received(datagram: Bytes, size: nat): (r: Bytes)
    ensures |r| <= size
  {
    if |datagram| <= size then datagram else datagram[..size]
  }

  // ----- the worker -----

  function Encoded(responses: seq<Response>): (datagrams: seq<Bytes>)
    requires forall r :: r in responses ==> r.id < TWO_TO_32
    ensures |datagrams| == |responses|
  {
    if responses == [] then []
    else Encoded(responses[..|responses| - 1]) + [EncodeLocal(responses[|responses| - 1])]
  }

  /** One round of serving: the replies to a datagram, and what becomes of the bus, depend on
      that datagram and the bus alone. */
  ghost predicate Replied(raw: Bytes, s: Tiers, now: Instant, s': Tiers, now': Instant, replies: seq<Bytes>) {
    match DecodeLocal(raw)
    case None => s' == s && now' == now && replies == [EncodeLocal(Response(0, ERROR_MALFORMED, []))]
    case Some(q) =>
      var a := Parse(q.opcode, q.payload, q.isLocal);
      Covered(a) && exists responses: seq<Response> ::
        && Dispatched(q.id, a, s, now, s', now', responses)
        && (forall r :: r in responses ==> r.id == q.id)
        && replies == Encoded(responses)
  }

  class Worker {
    const bus: PermutiveBus
    var request: Request
    var sendBuffer: Bytes

    constructor (bus: PermutiveBus)
      ensures this.bus == bus
    {
      this.bus := bus;
      request := Request(0, 0, [], true);
      sendBuffer := [];
    }

    /** Overwrite the reused request: nothing of the previous one is left. */
    method DecodeLocalInto(raw: Bytes) returns (ok: bool)
      modifies `request
      ensures ok == DecodeLocal(raw).Some?
      ensures request == if ok then DecodeLocal(raw).value else old(request)
    {
      if |raw| < 5 { return false; }
      var opcode := raw[4];
      if opcode == 0x00 || opcode == 0xFF { return false; }
      request := request.(id := U32At(raw, 0));
      request := request.(opcode := opcode);
      request := request.(payload := []);
      request := request.(payload := request.payload + raw[5..]);
      request := request.(isLocal := true);
      ok := true;
    }

    /** Refill the reused send buffer. */
    method WriteLocalToBuffer(response: Response)
      requires response.id < TWO_TO_32
      modifies `sendBuffer
      ensures sendBuffer == EncodeLocal(response)
    {
      sendBuffer := [];
      sendBuffer := sendBuffer + U32(response.id);
      sendBuffer := sendBuffer + [response.opcode];
      sendBuffer := sendBuffer + response.payload;
    }

    method SendAll(responses: seq<Response>) returns (replies: seq<Bytes>)
      requires forall r :: r in responses ==> r.id < TWO_TO_32
      modifies `sendBuffer
      ensures replies == Encoded(responses)
    {
      hide EncodeLocal;
      replies := [];
      var i := 0;
      while i < |responses|
        invariant 0 <= i <= |responses|
        invariant replies == Encoded(responses[..i])
      {
        WriteLocalToBuffer(responses[i]);
        assert responses[..i + 1][..i] == responses[..i];
        replies := replies + [sendBuffer];
        i := i + 1;
      }
      assert responses[..i] == responses;
    }

    /** One round of the worker loop. None for requests handled outside this model. */
    method ServeLocal(datagram: Bytes) returns (replies: Option<seq<Bytes>>)
      requires bus.Valid()
      modifies this, bus.transient.store, bus.persistent, bus.clock
      ensures bus.Valid() && (replies.Some? ==> replies.value != [])
      ensures var raw := Received(datagram, SERVER_BUFFER);
              match DecodeLocal(raw)
              case None =>
                && replies.Some?
                && Replied(raw, old(bus.State()), old(bus.clock.now), bus.State(), bus.clock.now, replies.value)
              case Some(q) =>
                var a := Parse(q.opcode, q.payload, q.isLocal);
                && request == q
                && (replies.Some? <==> Covered(a))
                && (replies.Some? ==>
                      Replied(raw, old(Before(bus, a)), old(bus.clock.now), bus.State(), bus.clock.now, replies.value))
    {
      hide Performs, Namespace, Parse, Encoded, Dispatched, EncodeLocal;
      var buffer := Received(datagram, SERVER_BUFFER);
      var decoded := DecodeLocalInto(buffer);
      if !decoded {
        WriteLocalToBuffer(Response(0, ERROR_MALFORMED, []));
        return Some([sendBuffer]);
      }
      var responses := DispatchRequest(request, bus);
      if responses.None? { return None; }
      var sent := SendAll(responses.value);
      replies := Some(sent);
    }
  }

  // ----- requests on the wire -----

  function RequestDatagram(id: nat, a: Action): Bytes
    requires id < TWO_TO_32 && Sendable(a)
  {
    U32(id) + [Opcode(a)] + Payload(a)
  }

  /** A request is carried out exactly when it fits the server's receive buffer; a longer one
      arrives cut and is refused, never misread. */
  lemma RequestArrives(id: nat, a: Action)
    requires id < TWO_TO_32 && Sendable(a)
    ensures var q := DecodeLocal(Received(RequestDatagram(id, a), SERVER_BUFFER));
            && q.Some? && q.value.id == id && q.value.isLocal
            && Parse(q.value.opcode, q.value.payload, true) ==
               if |RequestDatagram(id, a)| <= SERVER_BUFFER then a else Refuse(ERROR_MALFORMED)
  {
    hide Parse, Payload, Opcode, Sendable, U32;
    var d := RequestDatagram(id, a);
    var raw := Received(d, SERVER_BUFFER);
    OpcodeServed(a);
    assert raw[..4] == U32(id) && raw[0..4] == raw[..4];
    if |d| <= SERVER_BUFFER {
      assert raw[5..] == Payload(a) + [];
      PayloadParses(a, [], true);
    } else {
      assert raw[5..] == Payload(a)[..SERVER_BUFFER - 5];
      CutPayloadRefused(a, SERVER_BUFFER - 5, true);
    }
  }

  lemma OpcodeServed(a: Action)
    requires Sendable(a)
    ensures Opcode(a) != 0x00 && Opcode(a) != 0xFF && IsPrimitive(a)
  {
  }

  // ----- replies on the wire -----

  // The client's own names for the response codes.
  const RESP_OK: Byte := 0x80
  const RESP_OK_DATA: Byte := 0x81
  const RESP_SCAN_CHUNK: Byte := 0x90
  const RESP_SCAN_END: Byte := 0x91

  datatype ClientResult<+T> = Ok(value: T) | Err

  /** The client's reading of a reply's header. */
  function OpenReply(id: nat, reply: Bytes): ClientResult<(Byte, Bytes)> {
    if |reply| < 5 || U32At(reply, 0) != id then Err else Ok((reply[4], reply[5..]))
  }

  function Cut(bytes: Bytes, size: nat): Bytes {
    if |bytes| <= size then bytes else bytes[..size]
  }

  /** The reply is recognised by its echoed id; only its payload may be cut. */
  lemma ReplyOpens(response: Response)
    requires response.id < TWO_TO_32
    ensures OpenReply(response.id, Received(EncodeLocal(response), CLIENT_BUFFER)) ==
            Ok((response.opcode, Cut(response.payload, CLIENT_BUFFER - 5)))
  {
    hide U32;
    var reply := Received(EncodeLocal(response), CLIENT_BUFFER);
    assert reply[0..4] == U32(response.id);
    assert reply[5..] == Cut(response.payload, CLIENT_BUFFER - 5);
  }

  /** A request and its one reply, seen from the client: some answer of the bus to the
      request, as far as it fits the client's receive buffer. */
  ghost predicate Served(a: Action, s: Tiers, now: Instant, s': Tiers, now': Instant,
                         reply: ClientResult<(Byte, Bytes)>)
    requires IsPrimitive(a) && !a.Scan?
  {
    exists answer ::
      && Performs(s, now, BusOp(a), s', now', answer)
      && |Responses(0, answer)| == 1
      && reply == Ok((Responses(0, answer)[0].opcode, Cut(Responses(0, answer)[0].payload, CLIENT_BUFFER - 5)))
  }

  lemma RefusalIsOneReply(id: nat, code: Byte, s: Tiers, now: Instant, s': Tiers, now': Instant,
                          responses: seq<Response>)
    requires id < TWO_TO_32 && Dispatched(id, Refuse(code), s, now, s', now', responses)
    ensures s' == s && now' == now && (forall r :: r in responses ==> r.id == id)
    ensures |Encoded(responses)| == 1
    ensures OpenReply(id, Received(Encoded(responses)[0], CLIENT_BUFFER)) == Ok((code, []))
  {
    hide OpenReply, Received, EncodeLocal;
    EncodedOne(Response(id, code, []));
    ReplyOpens(Response(id, code, []));
  }

  lemma AnswerIsOneReply(id: nat, a: Action, s: Tiers, now: Instant, s': Tiers, now': Instant, responses: seq<Response>)
    requires id < TWO_TO_32 && IsPrimitive(a) && !a.Scan? && Dispatched(id, a, s, now, s', now', responses)
    requires forall r :: r in responses ==> r.id == id
    ensures |Encoded(responses)| == 1
    ensures Served(a, s, now, s', now', OpenReply(id, Received(Encoded(responses)[0], CLIENT_BUFFER)))
  {
    hide Performs, OpenReply, Received, EncodeLocal, BusOp, Responses;
    var answer :| Performs(s, now, BusOp(a), s', now', answer) && responses == Responses(id, answer);
    AnswerIsSingle(s, now, a, s', now', answer, id);
    assert responses == [responses[0]];
    EncodedOne(responses[0]);
    ReplyOpens(responses[0]);
  }

  /** Serving an encoded request and opening the first reply is carrying it out, or refusing
      it untouched when it was too long. */
  lemma RoundtripServes(id: nat, a: Action, s: Tiers, now: Instant, s': Tiers, now': Instant, replies: seq<Bytes>)
    requires id < TWO_TO_32 && Sendable(a) && IsPrimitive(a) && !a.Scan?
    requires Replied(Received(RequestDatagram(id, a), SERVER_BUFFER), s, now, s', now', replies)
    ensures |replies| == 1
    ensures var reply := OpenReply(id, Received(replies[0], CLIENT_BUFFER));
            if |RequestDatagram(id, a)| <= SERVER_BUFFER then Served(a, s, now, s', now', reply)
            else s' == s && now' == now && reply == Ok((ERROR_MALFORMED, []))
  {
    hide Parse, RequestDatagram, Received, OpenReply, Sendable, Dispatched, Served, Encoded;
    RequestArrives(id, a);
    var q := DecodeLocal(Received(RequestDatagram(id, a), SERVER_BUFFER)).value;
    var b := Parse(q.opcode, q.payload, q.isLocal);
    var responses: seq<Response> :|
      && Dispatched(id, b, s, now, s', now', responses) && (forall r :: r in responses ==> r.id == id)
      && replies == Encoded(responses);
    if b.Refuse? {
      RefusalIsOneReply(id, b.code, s, now, s', now', responses);
    } else {
      AnswerIsOneReply(id, a, s, now, s', now', responses);
    }
  }

  lemma EncodedOne(r: Response)
    requires r.id < TWO_TO_32
    ensures Encoded([r]) == [EncodeLocal(r)]
  {
    assert [r][..0] == [];
  }

  lemma AnswerIsSingle(s: Tiers, now: Instant, a: Action, s': Tiers, now': Instant, answer: Answer, id: nat)
    requires IsPrimitive(a) && !a.Scan? && Performs(s, now, BusOp(a), s', now', answer)
    ensures |Responses(id, answer)| == 1 && Responses(id, answer)[0] == Responses(0, answer)[0].(id := id)
    ensures |Responses(0, answer)| == 1
  {
    hide Performs, ScanResponses;
    AnswerKind(s, now, BusOp(a), s', now', answer);
  }

  ghost predicate ServedOrRefused(a: Action, s: Tiers, now: Instant, s': Tiers, now': Instant,
                                  reply: ClientResult<(Byte, Bytes)>)
    requires Sendable(a) && !a.Scan?
  {
    if 5 + |Payload(a)| <= SERVER_BUFFER then Served(a, s, now, s', now', reply)
    else s' == s && now' == now && reply == Ok((ERROR_MALFORMED, []))
  }

  lemma AnswerKind(s: Tiers, now: Instant, op: Op, s': Tiers, now': Instant, answer: Answer)
    requires Performs(s, now, op, s', now', answer)
    ensures op.ReadValue? ==> answer.Found?
    ensures op.DeleteValueIfMatch? ==> answer.Matched?
    ensures op.WriteValue? || op.DeleteValue? || op.WriteTtl? || op.WriteValueWithTtl? ==> answer == Done
  {
  }

  lemma DoneReply(a: Action, s: Tiers, now: Instant, s': Tiers, now': Instant, reply: ClientResult<(Byte, Bytes)>)
    requires Sendable(a) && (a.Write? || a.Delete? || a.SetTtl?)
    ensures ServedOrRefused(a, s, now, s', now', reply) && 5 + |Payload(a)| <= SERVER_BUFFER ==>
              Performs(s, now, BusOp(a), s', now', Done) && reply == Ok((OK, []))
  {
    hide Performs;
    if ServedOrRefused(a, s, now, s', now', reply) && 5 + |Payload(a)| <= SERVER_BUFFER {
      var answer :| Performs(s, now, BusOp(a), s', now', answer) && |Responses(0, answer)| == 1
        && reply == Ok((Responses(0, answer)[0].opcode, Cut(Responses(0, answer)[0].payload, CLIENT_BUFFER - 5)));
      AnswerKind(s, now, BusOp(a), s', now', answer);
    }
  }

  /** The client's reading of a read reply. */
  function ReadReply(reply: ClientResult<(Byte, Bytes)>): ClientResult<Option<Bytes>> {
    match reply
    case Err => Err
    case Ok((op, body)) =>
      if op == RESP_OK_DATA then
        if |body| < 4 then Err
        else Ok(Some(Cut(body[4..], U32At(body, 0))))
      else Ok(None)
  }

  /** A found value as far as one reply datagram can carry it. */
  function AsFits(found: Option<Bytes>): Option<Bytes> {
    match found
    case None => None
    case Some(value) => Some(Cut(value, CLIENT_BUFFER - 9))
  }

  lemma ReadReplyFits(value: Bytes)
    requires |value| < TWO_TO_32
    ensures ReadReply(Ok((OK_PAYLOAD, Cut(LengthPrefix(value) + value, CLIENT_BUFFER - 5)))) == Ok(AsFits(Some(value)))
  {
    Widths();
    Roundtrip(|value|, 4);
    var body := Cut(LengthPrefix(value) + value, CLIENT_BUFFER - 5);
    assert body[0..4] == LengthPrefix(value);
    assert body[4..] == Cut(value, CLIENT_BUFFER - 9);
  }

  // ----- the client -----

  /** The state as a request finds it: one that is refused opens no database. */
  ghost function Reached(bus: PermutiveBus, a: Action): Tiers
    requires Sendable(a)
    reads bus.transient.store, bus.persistent
  {
    if 5 + |Payload(a)| <= SERVER_BUFFER then Before(bus, a) else bus.State()
  }

  class Connection {
    var requestId: nat

    ghost predicate Valid()
      reads this
    {
      requestId < TWO_TO_32
    }

    constructor ()
      ensures Valid() && requestId == 1
    {
      requestId := 1;
    }

    method NextRequestId() returns (id: nat)
      requires Valid()
      modifies this
      ensures Valid() && id == old(requestId) && requestId == (old(requestId) + 1) % TWO_TO_32
    {
      id := requestId;
      requestId := (requestId + 1) % TWO_TO_32;
    }

    /** Send one request, take one reply. */
    method Roundtrip(worker: Worker, a: Action) returns (reply: ClientResult<(Byte, Bytes)>)
      requires Valid() && worker.bus.Valid() && Sendable(a) && !a.Scan?
      modifies this, worker, worker.bus.transient.store, worker.bus.persistent, worker.bus.clock
      ensures Valid() && worker.bus.Valid()
      ensures requestId == (old(requestId) + 1) % TWO_TO_32
      ensures ServedOrRefused(a, old(Reached(worker.bus, a)), old(worker.bus.clock.now),
                              worker.bus.State(), worker.bus.clock.now, reply)
    {
      hide Performs, Parse, Served, Replied, Namespace, Sendable, Payload, Opcode, Received, OpenReply;
      var id := NextRequestId();
      var datagram := RequestDatagram(id, a);
      RequestArrives(id, a);
      OpcodeServed(a);
      var replies := worker.ServeLocal(datagram);
      RoundtripServes(id, a, old(Reached(worker.bus, a)), old(worker.bus.clock.now),
                      worker.bus.State(), worker.bus.clock.now, replies.value);
      reply := OpenReply(id, Received(replies.value[0], CLIENT_BUFFER));
    }

    /** A read is the bus's read, cut at what fits a reply; a key too long to send reads as
        absent. */
    method Read(worker: Worker, key: Bytes) returns (r: ClientResult<Option<Bytes>>)
      requires Valid() && worker.bus.Valid() && |key| < TWO_TO_32
      modifies this, worker, worker.bus.transient.store, worker.bus.persistent, worker.bus.clock
      ensures Valid() && worker.bus.Valid()
      ensures var (s, now) := (old(worker.bus.State()), old(worker.bus.clock.now));
              var (s', now') := (worker.bus.State(), worker.bus.clock.now);
              if |key| <= 2048 - 9 then
                exists found ::
                  && Performs(s, now, ReadValue(key), s', now', Found(found))
                  && ((found.Some? ==> |found.value| < TWO_TO_32) ==>
                        r == Ok(if found.None? then None else Some(Cut(found.value, 65536 - 9))))
              else s' == s && now' == now && r == Ok(None)
    {
      hide Performs, Namespace;
      var reply := Roundtrip(worker, Action.Read(key));
      r := ReadReply(reply);
      ghost var s, now := old(worker.bus.State()), old(worker.bus.clock.now);
      ghost var s', now' := worker.bus.State(), worker.bus.clock.now;
      if |key| <= SERVER_BUFFER - 9 {
        ghost var answer :| Performs(s, now, ReadValue(key), s', now', answer)
                      && reply == Ok((Responses(0, answer)[0].opcode,
                                      Cut(Responses(0, answer)[0].payload, CLIENT_BUFFER - 5)));
        AnswerKind(s, now, ReadValue(key), s', now', answer);
        if answer.found.Some? && |answer.found.value| < TWO_TO_32 { ReadReplyFits(answer.found.value); }
      }
    }

    /** A write is the bus's write, timed or not by its duration; one too long fails cleanly. */
    method Write(worker: Worker, key: Bytes, value: Bytes, durationMs: nat) returns (r: ClientResult<()>)
      requires Valid() && worker.bus.Valid() && |key| < TWO_TO_32 && |value| < TWO_TO_32 && durationMs < TWO_TO_64
      modifies this, worker, worker.bus.transient.store, worker.bus.persistent, worker.bus.clock
      ensures Valid() && worker.bus.Valid()
      ensures var fitsPlain := |key| + |value| <= 2048 - 21 && durationMs == 0;
              var (s, now) := (if fitsPlain then old(worker.bus.Opened(key)) else old(worker.bus.State()),
                                old(worker.bus.clock.now));
              var (s', now') := (worker.bus.State(), worker.bus.clock.now);
              var op := if durationMs == 0 then WriteValue(key, value)
                        else WriteValueWithTtl(key, value, durationMs * 1_000_000);
              if |key| + |value| <= 2048 - 21 then Performs(s, now, op, s', now', Done) && r == Ok(())
              else s' == s && now' == now && r == Err
    {
      hide Performs, Namespace;
      var a := Action.Write(key, value, durationMs);
      var reply := Roundtrip(worker, a);
      r := if reply.Ok? && reply.value.0 == RESP_OK then Ok(()) else Err;
      DoneReply(a, old(Reached(worker.bus, a)), old(worker.bus.clock.now), worker.bus.State(), worker.bus.clock.now,
                reply);
    }

    method Delete(worker: Worker, key: Bytes) returns (r: ClientResult<()>)
      requires Valid() && worker.bus.Valid() && |key| < TWO_TO_32
      modifies this, worker, worker.bus.transient.store, worker.bus.persistent, worker.bus.clock
      ensures Valid() && worker.bus.Valid()
      ensures var (s, now) := (old(worker.bus.State()), old(worker.bus.clock.now));
              var (s', now') := (worker.bus.State(), worker.bus.clock.now);
              if |key| <= 2048 - 9 then Performs(s, now, DeleteValue(key), s', now', Done) && r == Ok(())
              else s' == s && now' == now && r == Err
    {
      hide Performs, Namespace;
      var reply := Roundtrip(worker, Action.Delete(key));
      r := if reply.Ok? && reply.value.0 == RESP_OK then Ok(()) else Err;
      DoneReply(Action.Delete(key), old(worker.bus.State()), old(worker.bus.clock.now), worker.bus.State(),
                worker.bus.clock.now, reply);
    }

    method Ttl(worker: Worker, key: Bytes, durationMs: nat) returns (r: ClientResult<()>)
      requires Valid() && worker.bus.Valid() && |key| < TWO_TO_32 && durationMs < TWO_TO_64
      modifies this, worker, worker.bus.transient.store, worker.bus.persistent, worker.bus.clock
      ensures Valid() && worker.bus.Valid()
      ensures var (s, now) := (old(worker.bus.State()), old(worker.bus.clock.now));
              var (s', now') := (worker.bus.State(), worker.bus.clock.now);
              if |key| <= 2048 - 17 then
                Performs(s, now, WriteTtl(key, durationMs * 1_000_000), s', now', Done) && r == Ok(())
              else s' == s && now' == now && r == Err
    {
      hide Performs, Namespace;
      var reply := Roundtrip(worker, Action.SetTtl(key, durationMs));
      r := if reply.Ok? && reply.value.0 == RESP_OK then Ok(()) else Err;
      DoneReply(Action.SetTtl(key, durationMs), old(worker.bus.State()), old(worker.bus.clock.now), worker.bus.State(),
                worker.bus.clock.now, reply);
    }

    /** Compare-and-delete; a request too long to send reports no match. */
    method Cad(worker: Worker, key: Bytes, expected: Bytes) returns (r: ClientResult<bool>)
      requires Valid() && worker.bus.Valid() && |key| < TWO_TO_32 && |expected| < TWO_TO_32
      modifies this, worker, worker.bus.transient.store, worker.bus.persistent, worker.bus.clock
      ensures Valid() && worker.bus.Valid()
      ensures var (s, now) := (old(worker.bus.State()), old(worker.bus.clock.now));
              var (s', now') := (worker.bus.State(), worker.bus.clock.now);
              if |key| + |expected| <= 2048 - 13 then
                r.Ok? && Performs(s, now, DeleteValueIfMatch(key, expected), s', now', Matched(r.value))
              else s' == s && now' == now && r == Ok(false)
    {
      hide Performs, Namespace;
      var reply := Roundtrip(worker, Action.DeleteIfMatch(key, expected));
      r := match reply
        case Ok((op, body)) => Ok(op == RESP_OK_DATA && |body| >= 1 && body[0] == 0x01)
        case Err => Err;
      ghost var s, now := old(worker.bus.State()), old(worker.bus.clock.now);
      ghost var s', now' := worker.bus.State(), worker.bus.clock.now;
      if |key| + |expected| <= SERVER_BUFFER - 13 {
        ghost var answer :| Performs(s, now, DeleteValueIfMatch(key, expected), s', now', answer)
                      && reply == Ok((Responses(0, answer)[0].opcode,
                                      Cut(Responses(0, answer)[0].payload, CLIENT_BUFFER - 5)));
        AnswerKind(s, now, DeleteValueIfMatch(key, expected), s', now', answer);
      }
    }
  }
}
