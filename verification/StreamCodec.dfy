/** The messages of stream.proto: ID and Message, their encoding, and what decoding makes of it. */
module StreamCodec {
  import opened Machine
  import opened Bits
  import opened Wire
  import opened Wrappers
  import opened RecordCodec

  // ---- ID ----

  datatype IDFields = IDFields(netKey: seq<byte>, address: seq<byte>, id: seq<byte>)

  type ID = Record<IDFields>

  const EMPTY_ID: ID := Record(IDFields([], [], []), [])

  const ID_SCHEMA: Schema := map[1 := LengthDelimited, 2 := LengthDelimited, 3 := LengthDelimited]

  /** An empty slice is not written. */
  function NonEmpty(b: seq<byte>): Option<Value> {
    if |b| > 0 then Some(Bytes(b)) else None
  }

  /** A zero is not written. */
  function NonZero(c: nat): Option<Value> {
    if c != 0 then Some(Count(c)) else None
  }

  function IDField(f: IDFields): int -> Option<Value> {
    k =>
      if k == 1 then NonEmpty(f.netKey)
      else if k == 2 then NonEmpty(f.address)
      else if k == 3 then NonEmpty(f.id)
      else None
  }

  function ApplyID(f: IDFields, k: int, v: Value): Outcome<IDFields> {
    if k == 1 && v.Bytes? then Ok(f.(netKey := v.bytes))
    else if k == 2 && v.Bytes? then Ok(f.(address := v.bytes))
    else if k == 3 && v.Bytes? then Ok(f.(id := v.bytes))
    else Ok(f)
  }

  /** What ID.MarshalTo writes. */
  function IDBytes(m: ID): seq<byte> {
    EncodeFrom(IDField(m.fields), 1, 3) + m.unknown
  }

  /** What ID.Unmarshal(d) leaves in m. */
  function DecodeID(m: ID, d: seq<byte>): Outcome<ID> {
    Decode(ApplyID, ID_SCHEMA, m, d)
  }

  /** A field of an ID that cannot be read changes nothing. */
  function SpoilID(f: IDFields, k: int, v: Value): IDFields {
    f
  }

  /** What ID.Unmarshal(d) leaves in m, an error included. */
  function LeftID(m: ID, d: seq<byte>): ID {
    Left(ApplyID, SpoilID, ID_SCHEMA, m, d)
  }

  /** The lengths of m's slices are Go ints. */
  predicate SizedID(m: ID) {
    |m.fields.netKey| < 0x8000_0000_0000_0000 && |m.fields.address| < 0x8000_0000_0000_0000
      && |m.fields.id| < 0x8000_0000_0000_0000
  }

  lemma IDFieldValues(f: IDFields)
    ensures IDField(f)(1) == NonEmpty(f.netKey) && IDField(f)(2) == NonEmpty(f.address)
            && IDField(f)(3) == NonEmpty(f.id)
  {
  }

  lemma ApplyIDFields(f: IDFields)
    ensures ApplyFrom(ApplyID, IDField(f), 1, 3, IDFields([], [], [])) == Ok(f)
  {
    var get := IDField(f);
    IDFieldValues(f);
    assert ApplyFrom(ApplyID, get, 4, 3, f) == Ok(f);
    assert ApplyFrom(ApplyID, get, 3, 3, IDFields(f.netKey, f.address, [])) == Ok(f);
    assert ApplyFrom(ApplyID, get, 2, 3, IDFields(f.netKey, [], [])) == Ok(f);
  }

  lemma IDCarried(m: ID)
    requires SizedID(m)
    ensures AllCarried(IDField(m.fields), ID_SCHEMA, 1, 3)
  {
    var get := IDField(m.fields);
    IDFieldValues(m.fields);
    assert AllCarried(get, ID_SCHEMA, 4, 3);
    assert AllCarried(get, ID_SCHEMA, 3, 3);
    assert AllCarried(get, ID_SCHEMA, 2, 3);
  }

  // decoding the encoding of m into an empty ID comes down to decoding its unknown bytes
  lemma DecodeIDBytes(m: ID)
    requires SizedID(m)
    ensures DecodeID(EMPTY_ID, IDBytes(m)) == DecodeID(Record(m.fields, []), m.unknown)
  {
    hide Decode, EncodeFrom, ApplyFrom, AllCarried;
    IDCarried(m);
    ApplyIDFields(m.fields);
    DecodeEncoded(ApplyID, ID_SCHEMA, IDField(m.fields), 1, 3, EMPTY_ID, m.unknown);
  }

  /** An ID survives the round trip exactly when its unrecognized bytes are whole fields unknown to ID. */
  lemma IDRoundTrip(m: ID)
    requires SizedID(m)
    ensures DecodeID(EMPTY_ID, IDBytes(m)) == Ok(m) <==> AllUnknown(m.unknown, ID_SCHEMA)
  {
    hide Decode, AllUnknown, IDBytes;
    DecodeIDBytes(m);
    var partly: ID := Record(m.fields, []);
    assert [] + m.unknown == m.unknown;
    if AllUnknown(m.unknown, ID_SCHEMA) {
      DecodeUnknown(ApplyID, ID_SCHEMA, partly, m.unknown);
    } else if DecodeID(partly, m.unknown) == Ok(m) {
      AllOfItUnknown(ApplyID, ID_SCHEMA, partly, m.unknown);
    }
  }

  // ---- Message ----

  datatype MessageFields = MessageFields(
    message: seq<byte>, sender: Option<ID>, signature: seq<byte>, requestNonce: nat, messageNonce: nat,
    replyFlag: bool, opcode: nat, dialAddress: seq<byte>)

  type Message = Record<MessageFields>

  const EMPTY_FIELDS := MessageFields([], None, [], 0, 0, false, 0, [])

  const EMPTY_MESSAGE: Message := Record(EMPTY_FIELDS, [])

  const MESSAGE_SCHEMA: Schema := map[
    1 := LengthDelimited, 2 := LengthDelimited, 3 := LengthDelimited, 4 := Scalar(64),
    5 := Scalar(64), 6 := Scalar(64), 7 := Scalar(32), 8 := LengthDelimited]

  function MessageField(f: MessageFields): int -> Option<Value> {
    k =>
      if k == 1 then NonEmpty(f.message)
      else if k == 2 then (if f.sender.None? then None else Some(Bytes(IDBytes(f.sender.value))))
      else if k == 3 then NonEmpty(f.signature)
      else if k == 4 then NonZero(f.requestNonce)
      else if k == 5 then NonZero(f.messageNonce)
      else if k == 6 then NonZero(if f.replyFlag then 1 else 0)
      else if k == 7 then NonZero(f.opcode)
      else if k == 8 then NonEmpty(f.dialAddress)
      else None
  }

  /** The sender a nested ID is decoded into: the one already there, or a new one. */
  function SenderOf(f: MessageFields): ID {
    if f.sender.None? then EMPTY_ID else f.sender.value
  }

  function ApplyMessage(f: MessageFields, k: int, v: Value): Outcome<MessageFields> {
    if k == 1 && v.Bytes? then Ok(f.(message := v.bytes))
    else if k == 2 && v.Bytes? then
      var s := DecodeID(SenderOf(f), v.bytes);
      if s.Err? then Err(s.error) else Ok(f.(sender := Some(s.value)))
    else if k == 3 && v.Bytes? then Ok(f.(signature := v.bytes))
    else if k == 4 && v.Count? then Ok(f.(requestNonce := v.count))
    else if k == 5 && v.Count? then Ok(f.(messageNonce := v.count))
    else if k == 6 && v.Count? then Ok(f.(replyFlag := v.count != 0))
    else if k == 7 && v.Count? then Ok(f.(opcode := v.count))
    else if k == 8 && v.Bytes? then Ok(f.(dialAddress := v.bytes))
    else Ok(f)
  }

  /** What Message.MarshalTo writes. */
  function MessageBytes(m: Message): seq<byte> {
    EncodeFrom(MessageField(m.fields), 1, 8) + m.unknown
  }

  /** What Message.Unmarshal(d) leaves in m. */
  function DecodeMessage(m: Message, d: seq<byte>): Outcome<Message> {
    Decode(ApplyMessage, MESSAGE_SCHEMA, m, d)
  }

  /** A scalar that cannot be read holds what was gathered, a flag stays, and a sender is left as far as it was
      decoded. */
  function SpoilMessage(f: MessageFields, k: int, v: Value): MessageFields {
    if k == 2 && v.Bytes? then f.(sender := Some(LeftID(SenderOf(f), v.bytes)))
    else if k == 4 && v.Count? then f.(requestNonce := v.count)
    else if k == 5 && v.Count? then f.(messageNonce := v.count)
    else if k == 7 && v.Count? then f.(opcode := v.count)
    else f
  }

  /** What Message.Unmarshal(d) leaves in m, an error included. */
  function LeftMessage(m: Message, d: seq<byte>): Message {
    Left(ApplyMessage, SpoilMessage, MESSAGE_SCHEMA, m, d)
  }

  /** m's integers have the width of their Go types, and its slices int lengths. */
  predicate Sized(m: Message) {
    var f := m.fields;
    |f.message| < 0x8000_0000_0000_0000 && |f.signature| < 0x8000_0000_0000_0000
      && |f.dialAddress| < 0x8000_0000_0000_0000
    && f.requestNonce < 0x1_0000_0000_0000_0000 && f.messageNonce < 0x1_0000_0000_0000_0000 && f.opcode < 0x1_0000_0000
    && (f.sender.Some? ==> SizedID(f.sender.value) && |IDBytes(f.sender.value)| < 0x8000_0000_0000_0000)
  }

  /** The unrecognized bytes of m, and of its sender, are whole fields unknown to Message and to ID. */
  predicate UnknownOnly(m: Message) {
    AllUnknown(m.unknown, MESSAGE_SCHEMA)
    && (m.fields.sender.Some? ==> AllUnknown(m.fields.sender.value.unknown, ID_SCHEMA))
  }

  lemma MessageFieldValues(f: MessageFields)
    ensures var get := MessageField(f);
            get(1) == NonEmpty(f.message) && get(3) == NonEmpty(f.signature) && get(4) == NonZero(f.requestNonce)
            && get(2) == (if f.sender.None? then None else Some(Bytes(IDBytes(f.sender.value))))
            && get(5) == NonZero(f.messageNonce) && get(6) == NonZero(if f.replyFlag then 1 else 0)
            && get(7) == NonZero(f.opcode) && get(8) == NonEmpty(f.dialAddress)
  {
    hide IDBytes;
  }

  lemma MessageCarried(m: Message)
    requires Sized(m)
    ensures AllCarried(MessageField(m.fields), MESSAGE_SCHEMA, 1, 8)
  {
    hide IDBytes, SizedID, Pow2;
    Sixtyfour();
    assert 1 < Pow2(64);
    var get := MessageField(m.fields);
    MessageFieldValues(m.fields);
    hide MessageField;
    assert AllCarried(get, MESSAGE_SCHEMA, 9, 8);
    assert AllCarried(get, MESSAGE_SCHEMA, 8, 8);
    assert AllCarried(get, MESSAGE_SCHEMA, 7, 8);
    assert AllCarried(get, MESSAGE_SCHEMA, 6, 8);
    assert AllCarried(get, MESSAGE_SCHEMA, 5, 8);
    assert AllCarried(get, MESSAGE_SCHEMA, 4, 8);
    assert AllCarried(get, MESSAGE_SCHEMA, 3, 8);
    assert AllCarried(get, MESSAGE_SCHEMA, 2, 8);
  }

  // applying fields 3 to 8 of f restores them, whatever sender was decoded before
  lemma ApplyRest(f: MessageFields, sender: Option<ID>)
    ensures ApplyFrom(ApplyMessage, MessageField(f), 3, 8, MessageFields(f.message, sender, [], 0, 0, false, 0, []))
            == Ok(f.(sender := sender))
  {
    hide DecodeID, IDBytes, MessageField, ApplyFrom;
    var get := MessageField(f);
    MessageFieldValues(f);
    var g := f.(sender := sender);
    var g7 := g.(dialAddress := []);
    var g6 := g7.(opcode := 0);
    var g5 := g6.(replyFlag := false);
    var g4 := g5.(messageNonce := 0);
    var g3 := g4.(requestNonce := 0);
    BytesStep(get, 3, g3.(signature := []), f.signature, g3);
    CountStep(get, 4, g3, f.requestNonce, g4);
    CountStep(get, 5, g4, f.messageNonce, g5);
    CountStep(get, 6, g5, if f.replyFlag then 1 else 0, g6);
    CountStep(get, 7, g6, f.opcode, g7);
    BytesStep(get, 8, g7, f.dialAddress, g);
    Finished(get, g);
  }

  lemma BytesStep(get: int -> Option<Value>, k: nat, f: MessageFields, b: seq<byte>, g: MessageFields)
    requires k <= 8 && get(k) == NonEmpty(b)
    requires if b == [] then g == f else ApplyMessage(f, k, Bytes(b)) == Ok(g)
    ensures ApplyFrom(ApplyMessage, get, k, 8, f) == ApplyFrom(ApplyMessage, get, k + 1, 8, g)
  {
    hide ApplyMessage;
  }

  lemma CountStep(get: int -> Option<Value>, k: nat, f: MessageFields, c: nat, g: MessageFields)
    requires k <= 8 && get(k) == NonZero(c)
    requires if c == 0 then g == f else ApplyMessage(f, k, Count(c)) == Ok(g)
    ensures ApplyFrom(ApplyMessage, get, k, 8, f) == ApplyFrom(ApplyMessage, get, k + 1, 8, g)
  {
    hide ApplyMessage;
  }

  lemma Finished(get: int -> Option<Value>, g: MessageFields)
    ensures ApplyFrom(ApplyMessage, get, 9, 8, g) == Ok(g)
  {
  }

  // what decoding makes of the nested sender of f
  function SenderBack(f: MessageFields): (s: Outcome<Option<ID>>) {
    if f.sender.None? then Ok(None)
    else
      var s := DecodeID(EMPTY_ID, IDBytes(f.sender.value));
      if s.Err? then Err(s.error) else Ok(Some(s.value))
  }

  lemma ApplyMessageFields(f: MessageFields)
    ensures var a := ApplyFrom(ApplyMessage, MessageField(f), 1, 8, EMPTY_FIELDS);
            var s := SenderBack(f);
            a == if s.Err? then Err(s.error) else Ok(f.(sender := s.value))
  {
    hide DecodeID, IDBytes, MessageField, ApplyFrom;
    var get := MessageField(f);
    MessageFieldValues(f);
    var one := EMPTY_FIELDS.(message := f.message);
    BytesStep(get, 1, EMPTY_FIELDS, f.message, one);
    var s := SenderBack(f);
    SenderStep(get, f, one);
    if s.Ok? {
      ApplyRest(f, s.value);
    }
  }

  lemma SenderStep(get: int -> Option<Value>, f: MessageFields, g: MessageFields)
    requires get(2) == (if f.sender.None? then None else Some(Bytes(IDBytes(f.sender.value)))) && g.sender == None
    ensures var s := SenderBack(f);
            ApplyFrom(ApplyMessage, get, 2, 8, g)
            == if s.Err? then Err(s.error) else ApplyFrom(ApplyMessage, get, 3, 8, g.(sender := s.value))
  {
    hide DecodeID, IDBytes;
  }

  // decoding the encoding of m comes down to decoding its sender and its unknown bytes
  lemma DecodeMessageBytes(m: Message)
    requires Sized(m)
    ensures var s := SenderBack(m.fields);
            DecodeMessage(EMPTY_MESSAGE, MessageBytes(m))
            == if s.Err? then Err(s.error) else DecodeMessage(Record(m.fields.(sender := s.value), []), m.unknown)
  {
    hide Decode, EncodeFrom, ApplyFrom, AllCarried, SenderBack, Sized;
    MessageCarried(m);
    ApplyMessageFields(m.fields);
    DecodeEncoded(ApplyMessage, MESSAGE_SCHEMA, MessageField(m.fields), 1, 8, EMPTY_MESSAGE, m.unknown);
  }

  /** Once the known fields are there, the unknown bytes decide. */
  lemma DecodeTail(m: Message, sender: Option<ID>)
    ensures DecodeMessage(Record(m.fields.(sender := sender), []), m.unknown) == Ok(m)
            <==> sender == m.fields.sender && AllUnknown(m.unknown, MESSAGE_SCHEMA)
  {
    hide Decode, AllUnknown, ReadField;
    var partly: Message := Record(m.fields.(sender := sender), []);
    assert [] + m.unknown == m.unknown;
    if AllUnknown(m.unknown, MESSAGE_SCHEMA) {
      DecodeUnknown(ApplyMessage, MESSAGE_SCHEMA, partly, m.unknown);
    } else if DecodeMessage(partly, m.unknown) == Ok(m) {
      AllOfItUnknown(ApplyMessage, MESSAGE_SCHEMA, partly, m.unknown);
    }
  }

  /**
   * A message survives Marshal followed by Unmarshal into a fresh message exactly when its unrecognized
   * bytes, and those of its sender, are whole unknown fields. In particular it does when they are empty.
   */
  lemma MessageRoundTrip(m: Message)
    requires Sized(m)
    ensures DecodeMessage(EMPTY_MESSAGE, MessageBytes(m)) == Ok(m) <==> UnknownOnly(m)
  {
    hide DecodeMessage, DecodeID, AllUnknown, MessageBytes, IDBytes, SizedID;
    DecodeMessageBytes(m);
    var s := SenderBack(m.fields);
    if m.fields.sender.Some? {
      IDRoundTrip(m.fields.sender.value);
    }
    if s.Ok? {
      DecodeTail(m, s.value);
    }
  }

  /** No unrecognized bytes at all: the round trip always succeeds. */
  lemma PlainRoundTrip(m: Message)
    requires Sized(m) && m.unknown == [] && (m.fields.sender.Some? ==> m.fields.sender.value.unknown == [])
    ensures DecodeMessage(EMPTY_MESSAGE, MessageBytes(m)) == Ok(m)
  {
    hide DecodeMessage, MessageBytes;
    MessageRoundTrip(m);
  }
}
