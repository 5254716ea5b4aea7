/** Datagrams and requests: the header, the length-prefixed fields, and the two parsers that
    read them independently, one to cut off noise and one to dispatch. */
module Codec {
  import opened ByteStrings
  import opened BigEndian

  const OK: Byte := 0x80
  const OK_PAYLOAD: Byte := 0x81
  const SCAN_CHUNK: Byte := 0x90
  const SCAN_END: Byte := 0x91
  const ERROR_MALFORMED: Byte := 0xA1
  const ERROR_INVALID_OPCODE: Byte := 0xA2

  datatype Request = Request(id: nat, opcode: Byte, payload: Bytes, isLocal: bool)

  datatype Response = Response(id: nat, opcode: Byte, payload: Bytes)

  function DecodeLocal(raw: Bytes): Option<Request> {
    if |raw| < 5 || raw[4] == 0x00 || raw[4] == 0xFF then None
    else Some(Request(U32At(raw, 0), raw[4], raw[5..], true))
  }

  function EncodeLocal(response: Response): Bytes
    requires response.id < TWO_TO_32
  {
    U32(response.id) + [response.opcode] + response.payload
  }

  /** A datagram is taken for a request exactly if it has an id, an opcode other than 0 and 255,
      and any payload, empty or not; and it is the request that was encoded. */
  lemma DatagramOpens(raw: Bytes)
    ensures DecodeLocal(raw).Some? <==>
            exists id: nat, opcode: Byte, payload: Bytes ::
              id < TWO_TO_32 && 0 < opcode < 255 && raw == U32(id) + [opcode] + payload
  {
    if DecodeLocal(raw).Some? {
      BytesBack(raw[..4]);
      assert raw == U32(FromBytes(raw[..4])) + [raw[4]] + raw[5..];
    }
  }

  lemma RequestOpens(id: nat, opcode: Byte, payload: Bytes)
    requires id < TWO_TO_32 && 0 < opcode < 255
    ensures DecodeLocal(U32(id) + [opcode] + payload) == Some(Request(id, opcode, payload, true))
  {
    var raw := U32(id) + [opcode] + payload;
    assert raw[0..4] == U32(id);
  }

  // ----- the noise cutter -----

  function OneFieldLength(data: Bytes): Option<nat> {
    if |data| < 4 then None else Some(4 + U32At(data, 0))
  }

  function TwoFieldLengths(data: Bytes): Option<nat> {
    match OneFieldLength(data)
    case None => None
    case Some(first) =>
      if |data| < first + 4 then None else Some(first + 4 + U32At(data, first))
  }

  function PlusU64(length: Option<nat>): Option<nat> {
    match length
    case None => None
    case Some(n) => Some(n + 8)
  }

  function Consumed(opcode: Byte, data: Bytes): Option<nat> {
    if opcode == 0x01 || opcode == 0x03 || opcode == 0x06 then OneFieldLength(data)
    else if opcode == 0x02 then PlusU64(TwoFieldLengths(data))
    else if opcode == 0x04 then TwoFieldLengths(data)
    else if opcode == 0x05 then PlusU64(OneFieldLength(data))
    else if opcode == 0x13 then Some(0)
    else if opcode == 0x10 || opcode == 0x11 then Some(64)
    else None
  }

  /** `extract_real_payload`: cut the payload where its fields end, if they end inside it. */
  function RealPayload(opcode: Byte, data: Bytes): Bytes {
    match Consumed(opcode, data)
    case Some(length) => if length <= |data| then data[..length] else data
    case None => data
  }

  // ----- the dispatcher's reading of a request -----

  function FieldAt(payload: Bytes, offset: nat): (r: Option<(Bytes, nat)>)
    ensures r.Some? ==> offset + 4 <= r.value.1 <= |payload| && |r.value.0| < TWO_TO_32
  {
    if |payload| < offset + 4 then None
    else
      var end := offset + 4 + U32At(payload, offset);
      if |payload| < end then None else Some((payload[offset + 4..end], end))
  }

  /** Everything the dispatcher takes from a request: what to do, with which arguments. */
  datatype Action =
    | Refuse(code: Byte)
    | Acknowledge
    | Read(key: Bytes)
    | Write(key: Bytes, value: Bytes, milliseconds: nat)
    | Delete(key: Bytes)
    | DeleteIfMatch(key: Bytes, expected: Bytes)
    | SetTtl(key: Bytes, milliseconds: nat)
    | Scan(prefix: Bytes)
    | Query(sql: Bytes)
    | Status
    | Shutdown
    | Keys(prefix: Bytes)
    | Inspect(key: Bytes)
    | Dump
    | Restore(key: Bytes, value: Bytes, ttl: Option<nat>)

  function ParseWrite(payload: Bytes): Action {
    match FieldAt(payload, 0)
    case None => Refuse(ERROR_MALFORMED)
    case Some((key, a)) =>
      match FieldAt(payload, a)
      case None => Refuse(ERROR_MALFORMED)
      case Some((value, b)) =>
        if |payload| < b + 8 then Refuse(ERROR_MALFORMED) else Write(key, value, U64At(payload, b))
  }

  function ParseMatch(payload: Bytes): Action {
    match FieldAt(payload, 0)
    case None => Refuse(ERROR_MALFORMED)
    case Some((key, a)) =>
      match FieldAt(payload, a)
      case None => Refuse(ERROR_MALFORMED)
      case Some((expected, _)) => DeleteIfMatch(key, expected)
  }

  function ParseTtl(payload: Bytes): Action {
    match FieldAt(payload, 0)
    case None => Refuse(ERROR_MALFORMED)
    case Some((key, a)) =>
      if |payload| < a + 8 then Refuse(ERROR_MALFORMED) else SetTtl(key, U64At(payload, a))
  }

  function ParseRestore(payload: Bytes): Action {
    match FieldAt(payload, 0)
    case None => Refuse(ERROR_MALFORMED)
    case Some((key, a)) =>
      match FieldAt(payload, a)
      case None => Refuse(ERROR_MALFORMED)
      case Some((value, b)) =>
        Restore(key, value, if |payload| < b + 8 then None else Some(U64At(payload, b)))
  }

  function ParseOne(payload: Bytes, action: Bytes -> Action): Action {
    match FieldAt(payload, 0)
    case None => Refuse(ERROR_MALFORMED)
    case Some((field, _)) => action(field)
  }

  function Parse(opcode: Byte, payload: Bytes, isLocal: bool): Action {
    if opcode == 0x01 then ParseOne(payload, key => Read(key))
    else if opcode == 0x02 then ParseWrite(payload)
    else if opcode == 0x03 then ParseOne(payload, key => Delete(key))
    else if opcode == 0x04 then ParseMatch(payload)
    else if opcode == 0x05 then ParseTtl(payload)
    else if opcode == 0x06 then ParseOne(payload, prefix => Scan(prefix))
    else if opcode == 0x07 then ParseOne(payload, sql => Query(sql))
    else if opcode == 0x13 then Acknowledge
    else if opcode == 0x14 then (if isLocal then Status else Refuse(ERROR_INVALID_OPCODE))
    else if opcode == 0x15 then (if isLocal then Shutdown else Refuse(ERROR_INVALID_OPCODE))
    else if opcode == 0x16 then (if isLocal then Acknowledge else Refuse(ERROR_INVALID_OPCODE))
    else if opcode == 0x17 then Keys(match FieldAt(payload, 0) case Some((prefix, _)) => prefix case None => [])
    else if opcode == 0x18 then ParseOne(payload, key => Inspect(key))
    else if opcode == 0x19 then Dump
    else if opcode == 0x1A then ParseRestore(payload)
    else Refuse(ERROR_INVALID_OPCODE)
  }

  /** An opcode is refused as invalid exactly if it is not one of the server's, or is one for the
      local socket that came over the network. */
  lemma InvalidOpcodes(opcode: Byte, payload: Bytes, isLocal: bool)
    ensures Parse(opcode, payload, isLocal) == Refuse(0xA2)
            <==> !(0x01 <= opcode <= 0x07 || 0x13 <= opcode <= 0x1A) || (0x14 <= opcode <= 0x16 && !isLocal)
  {
  }

  // ----- the two parsers agree -----

  /** A field that lies inside a prefix is read from the prefix as from the whole. */
  lemma FieldInPrefix(payload: Bytes, offset: nat, n: nat)
    requires n <= |payload|
    ensures FieldAt(payload[..n], offset) ==
            if FieldAt(payload, offset).Some? && FieldAt(payload, offset).value.1 <= n then FieldAt(payload, offset)
            else None
  {
    if offset + 4 <= n {
      assert payload[..n][offset..offset + 4] == payload[offset..offset + 4];
      var end := offset + 4 + U32At(payload, offset);
      if end <= n { assert payload[..n][offset + 4..end] == payload[offset + 4..end]; }
    }
  }

  /** Where the noise cutter thinks the fields end is where the dispatcher's fields end. */
  lemma LengthsAreFieldEnds(data: Bytes)
    ensures FieldAt(data, 0).Some? <==> OneFieldLength(data).Some? && OneFieldLength(data).value <= |data|
    ensures FieldAt(data, 0).Some? ==> FieldAt(data, 0).value.1 == OneFieldLength(data).value
    ensures FieldAt(data, 0).Some? ==>
              var second := FieldAt(data, FieldAt(data, 0).value.1);
              && (second.Some? <==> TwoFieldLengths(data).Some? && TwoFieldLengths(data).value <= |data|)
              && (second.Some? ==> second.value.1 == TwoFieldLengths(data).value)
    ensures FieldAt(data, 0).None? ==> TwoFieldLengths(data).None? || TwoFieldLengths(data).value > |data|
  {
  }

  /** For every opcode and every byte string, cutting the noise off does not change what the
      dispatcher will do. */
  lemma TrimmingIsInvisible(opcode: Byte, data: Bytes, isLocal: bool)
    ensures Parse(opcode, RealPayload(opcode, data), isLocal) == Parse(opcode, data, isLocal)
  {
    hide U32At;
    LengthsAreFieldEnds(data);
    var cut := RealPayload(opcode, data);
    if cut != data {
      var n := |cut|;
      FieldInPrefix(data, 0, n);
      if FieldAt(data, 0).Some? {
        var a := FieldAt(data, 0).value.1;
        FieldInPrefix(data, a, n);
        if opcode == 0x05 { assert data[..n][a..a + 8] == data[a..a + 8]; }
        if opcode == 0x02 && FieldAt(data, a).Some? {
          var b := FieldAt(data, a).value.1;
          assert data[..n][b..b + 8] == data[b..b + 8];
        }
      }
    }
  }

  // ----- what clients send -----

  function Field(bytes: Bytes): (r: Bytes)
    requires |bytes| < TWO_TO_32
    ensures |r| == 4 + |bytes|
  {
    U32(|bytes|) + bytes
  }

  /** The six primitives, with arguments that fit their fields. */
  predicate Sendable(a: Action) {
    match a
    case Read(key) => |key| < TWO_TO_32
    case Write(key, value, ms) => |key| < TWO_TO_32 && |value| < TWO_TO_32 && ms < TWO_TO_64
    case Delete(key) => |key| < TWO_TO_32
    case DeleteIfMatch(key, expected) => |key| < TWO_TO_32 && |expected| < TWO_TO_32
    case SetTtl(key, ms) => |key| < TWO_TO_32 && ms < TWO_TO_64
    case Scan(prefix) => |prefix| < TWO_TO_32
    case _ => false
  }

  function Opcode(a: Action): (opcode: Byte)
    requires Sendable(a)
  {
    match a
    case Read(_) => 0x01
    case Write(_, _, _) => 0x02
    case Delete(_) => 0x03
    case DeleteIfMatch(_, _) => 0x04
    case SetTtl(_, _) => 0x05
    case Scan(_) => 0x06
  }

  function Payload(a: Action): Bytes
    requires Sendable(a)
  {
    match a
    case Read(key) => Field(key)
    case Write(key, value, ms) => Field(key) + Field(value) + U64(ms)
    case Delete(key) => Field(key)
    case DeleteIfMatch(key, expected) => Field(key) + Field(expected)
    case SetTtl(key, ms) => Field(key) + U64(ms)
    case Scan(prefix) => Field(prefix)
  }

  lemma FieldReads(before: Bytes, bytes: Bytes, after: Bytes)
    requires |bytes| < TWO_TO_32
    ensures FieldAt(before + Field(bytes) + after, |before|) == Some((bytes, |before| + 4 + |bytes|))
  {
    var data := before + Field(bytes) + after;
    assert data[|before|..|before| + 4] == U32(|bytes|);
    assert data == (before + U32(|bytes|)) + bytes + after;
    assert data[|before| + 4..|before| + 4 + |bytes|] == bytes;
  }

  lemma U64Reads(before: Bytes, n: nat, after: Bytes)
    requires n < TWO_TO_64
    ensures U64At(before + U64(n) + after, |before|) == n
  {
    var data := before + U64(n) + after;
    assert data[|before|..|before| + 8] == U64(n);
  }

  /** The dispatcher reads back exactly what was encoded, whatever follows it. */
  lemma PayloadParses(a: Action, noise: Bytes, isLocal: bool)
    requires Sendable(a)
    ensures Parse(Opcode(a), Payload(a) + noise, isLocal) == a
  {
    hide U32At, U32, U64, Field, FieldAt, U64At;
    match a
    case Read(key) => OneFieldParses(key, noise);
    case Delete(key) => OneFieldParses(key, noise);
    case Scan(prefix) => OneFieldParses(prefix, noise);
    case Write(key, value, ms) => WriteParses(key, value, ms, noise);
    case DeleteIfMatch(key, expected) => MatchParses(key, expected, noise);
    case SetTtl(key, ms) => TtlParses(key, ms, noise);
  }

  lemma OneFieldParses(field: Bytes, noise: Bytes)
    requires |field| < TWO_TO_32
    ensures FieldAt(Field(field) + noise, 0) == Some((field, 4 + |field|))
  {
    FieldReads([], field, noise);
    assert [] + Field(field) + noise == Field(field) + noise;
  }

  lemma WriteParses(key: Bytes, value: Bytes, ms: nat, noise: Bytes)
    requires Sendable(Write(key, value, ms))
    ensures ParseWrite(Field(key) + Field(value) + U64(ms) + noise) == Write(key, value, ms)
  {
    hide U32At, U32, U64, Field, FieldAt, U64At;
    var data := Field(key) + Field(value) + U64(ms) + noise;
    assert data == Field(key) + (Field(value) + U64(ms) + noise);
    OneFieldParses(key, Field(value) + U64(ms) + noise);
    assert data == Field(key) + Field(value) + (U64(ms) + noise);
    FieldReads(Field(key), value, U64(ms) + noise);
    U64Reads(Field(key) + Field(value), ms, noise);
  }

  lemma MatchParses(key: Bytes, expected: Bytes, noise: Bytes)
    requires Sendable(DeleteIfMatch(key, expected))
    ensures ParseMatch(Field(key) + Field(expected) + noise) == DeleteIfMatch(key, expected)
  {
    hide U32At, U32, Field, FieldAt;
    var data := Field(key) + Field(expected) + noise;
    assert data == Field(key) + (Field(expected) + noise);
    OneFieldParses(key, Field(expected) + noise);
    FieldReads(Field(key), expected, noise);
  }

  lemma TtlParses(key: Bytes, ms: nat, noise: Bytes)
    requires Sendable(SetTtl(key, ms))
    ensures ParseTtl(Field(key) + U64(ms) + noise) == SetTtl(key, ms)
  {
    hide U32At, U32, U64, Field, FieldAt, U64At;
    var data := Field(key) + U64(ms) + noise;
    assert data == Field(key) + (U64(ms) + noise);
    OneFieldParses(key, U64(ms) + noise);
    U64Reads(Field(key), ms, noise);
  }

  /** The noise cutter gives back exactly the encoded fields. */
  lemma NoiseIsCut(a: Action, noise: Bytes)
    requires Sendable(a)
    ensures RealPayload(Opcode(a), Payload(a) + noise) == Payload(a)
  {
    hide U32At, U32, U64, Field, FieldAt, U64At;
    var data := Payload(a) + noise;
    PayloadParses(a, noise, true);
    LengthsAreFieldEnds(data);
    PayloadEnds(a, noise);
    assert data[..|Payload(a)|] == Payload(a);
  }

  lemma PayloadEnds(a: Action, noise: Bytes)
    requires Sendable(a)
    ensures Consumed(Opcode(a), Payload(a) + noise) == Some(|Payload(a)|)
  {
    hide U32At, U32, U64, Field, FieldAt, U64At, OneFieldLength, TwoFieldLengths;
    var data := Payload(a) + noise;
    LengthsAreFieldEnds(data);
    match a
    case Read(key) => OneFieldParses(key, noise);
    case Delete(key) => OneFieldParses(key, noise);
    case Scan(prefix) => OneFieldParses(prefix, noise);
    case Write(key, value, ms) =>
      assert data == Field(key) + (Field(value) + U64(ms) + noise);
      OneFieldParses(key, Field(value) + U64(ms) + noise);
      assert data == Field(key) + Field(value) + (U64(ms) + noise);
      FieldReads(Field(key), value, U64(ms) + noise);
    case DeleteIfMatch(key, expected) =>
      assert data == Field(key) + (Field(expected) + noise);
      OneFieldParses(key, Field(expected) + noise);
      FieldReads(Field(key), expected, noise);
    case SetTtl(key, ms) =>
      assert data == Field(key) + (U64(ms) + noise);
      OneFieldParses(key, U64(ms) + noise);
  }

  /** A payload that was cut short is refused, never misread. */
  lemma CutPayloadRefused(a: Action, n: nat, isLocal: bool)
    requires Sendable(a) && n < |Payload(a)|
    ensures Parse(Opcode(a), Payload(a)[..n], isLocal) == Refuse(0xA1)
  {
    hide U32At, U32, U64, Field, FieldAt, U64At, OneFieldLength, TwoFieldLengths;
    var data := Payload(a);
    assert data + [] == data;
    PayloadEnds(a, []);
    LengthsAreFieldEnds(data);
    FieldInPrefix(data, 0, n);
    if FieldAt(data, 0).Some? { FieldInPrefix(data, FieldAt(data, 0).value.1, n); }
  }
}
