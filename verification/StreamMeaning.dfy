/** What each field on the wire means to an ID and to a Message, told by its number and form alone. */
module StreamMeaning {
  import opened Machine
  import opened Bits
  import opened Wire
  import opened Wrappers
  import opened RecordCodec
  import opened StreamCodec
  import opened WireFields

  // ---- one field, read ----

  // the tag of a field whose number is a positive int32
  lemma TagOf(f: WireFields.Field, rest: seq<byte>)
    requires WellFormed(f) && f.number < 0x8000_0000
    ensures var t := ReadTag(Written(f) + rest);
            t.Ok? && t.value.field == f.number && t.value.kind == KindOf(f)
  {
    hide Uint, Varint, Int32, WrittenTag, WrittenAll;
    var n, k := f.number, KindOf(f);
    var body := Behind(f);
    assert Written(f) + rest == WrittenTag(n, k) + (body + rest);
    TagBack(n, k, body + rest);
    ModUnique(8 * n + k, 8, n, k);
    assert Int32(n) == n;
  }

  /** The wire type of a form. */
  function KindOf(f: WireFields.Field): nat {
    match f
    case VarintField(_, _) => 0
    case Fixed64(_, _) => 1
    case Delimited(_, _) => 2
    case Group(_, _, _) => 3
    case Fixed32(_, _) => 5
  }

  // what is written behind the tag
  function Behind(f: WireFields.Field): (s: seq<byte>)
    ensures Written(f) == WrittenTag(f.number, KindOf(f)) + s
  {
    match f
    case VarintField(n, v) => Varint(v)
    case Fixed64(n, b) => b
    case Delimited(n, b) =>
      assert WrittenTag(n, 2) + (Varint(|b|) + b) == WrittenTag(n, 2) + Varint(|b|) + b;
      Varint(|b|) + b
    case Group(n, fields, end) =>
      var s := WrittenAll(fields) + WrittenTag(end, 4);
      assert WrittenTag(n, 3) + s == WrittenTag(n, 3) + WrittenAll(fields) + WrittenTag(end, 4);
      s
    case Fixed32(n, b) => b
  }

  /** A field of a number that the schema does not know is read whole, whatever its form. */
  lemma UnknownRead(f: WireFields.Field, schema: Schema, rest: seq<byte>)
    requires WellFormed(f) && 0 < f.number < 0x8000_0000 && f.number !in schema
    ensures ReadField(Written(f) + rest, schema) == Ok(Unknown(|Written(f)|))
  {
    hide ReadTag, Skip, Written, WellFormed;
    TagOf(f, rest);
    SkipWritten(f, rest);
  }

  /** A known number in another form, and the number zero, are refused. */
  lemma Refused(f: WireFields.Field, schema: Schema, rest: seq<byte>)
    requires WellFormed(f) && f.number < 0x8000_0000
    ensures f.number == 0 ==> ReadField(Written(f) + rest, schema) == Err(IllegalTag)
    ensures f.number > 0 && f.number in schema && !Fitting(f, schema[f.number]) ==>
              ReadField(Written(f) + rest, schema) == Err(WrongWireType)
  {
    hide ReadTag, Skip, Written, WellFormed;
    TagOf(f, rest);
  }

  /** Bytes go with a length, numbers with a varint. */
  predicate Fitting(f: WireFields.Field, kind: Kind) {
    if kind.LengthDelimited? then f.Delimited? else f.VarintField?
  }

  lemma KnownRead(f: WireFields.Field, schema: Schema, rest: seq<byte>)
    requires WellFormed(f) && 0 < f.number < 16 && (f.Delimited? || f.VarintField?)
    requires Carried(schema, f.number, ValueOf(f))
    ensures ReadField(Written(f) + rest, schema) == Ok(Known(f.number, ValueOf(f), |Written(f)|))
  {
    hide ReadField, Carried;
    FieldRoundTrip(schema, f.number, ValueOf(f), rest);
    OneByteTag(f);
  }

  function ValueOf(f: WireFields.Field): Value
    requires f.Delimited? || f.VarintField?
  {
    if f.Delimited? then Bytes(f.bytes) else Count(f.value)
  }

  lemma OneByteTag(f: WireFields.Field)
    requires 0 < f.number < 16 && (f.Delimited? || f.VarintField?)
    ensures Written(f) == FieldBytes(f.number, ValueOf(f))
  {
    if f.Delimited? {
      assert WrittenTag(f.number, 2) == [8 * f.number + 2];
    } else {
      assert WrittenTag(f.number, 0) == [8 * f.number];
    }
  }

  // decoding one more field
  lemma DecodeMore<F>(apply: (F, int, Value) -> Outcome<F>, schema: Schema, m: Record<F>, d: seq<byte>, e: seq<byte>)
    requires Decode(apply, schema, m, d).Ok? && e != []
    ensures var r := Decode(apply, schema, m, d).value;
            Decode(apply, schema, m, d + e) == match ReadField(e, schema)
              case Err(error) => Err(error)
              case Ok(Unknown(n)) =>
                if n == |e| then Ok(r.(unknown := r.unknown + e)) else Decode(apply, schema, r, e)
              case Ok(Known(k, v, n)) =>
                var a := apply(r.fields, k, v);
                if a.Err? then Err(a.error)
                else if n == |e| then Ok(r.(fields := a.value)) else Decode(apply, schema, r, e)
  {
    hide ReadField;
    DecodeConcat(apply, schema, m, d, e);
    var r := ReadField(e, schema);
    if r.Ok? && r.value.size == |e| {
      assert e[|e|..] == [] && e[..|e|] == e;
    }
  }

  // ---- Message ----

  /**
   * A field behind an accepted input sets what its number and form say, and nothing else; so of two equal fields the
   * last one wins.
   */
  lemma MessageSetsBytes(m: Message, d: seq<byte>, b: seq<byte>)
    requires DecodeMessage(m, d).Ok? && |b| < 0x8000_0000_0000_0000
    ensures var Record(f, unknown) := DecodeMessage(m, d).value;
            && DecodeMessage(m, d + Written(Delimited(1, b))) == Ok(Record(f.(message := b), unknown))
            && DecodeMessage(m, d + Written(Delimited(3, b))) == Ok(Record(f.(signature := b), unknown))
            && DecodeMessage(m, d + Written(Delimited(8, b))) == Ok(Record(f.(dialAddress := b), unknown))
  {
    hide Decode, DecodeID, ReadField, Written;
    MessageOne(m, d, Delimited(1, b));
    MessageOne(m, d, Delimited(3, b));
    MessageOne(m, d, Delimited(8, b));
  }

  lemma MessageSetsNumbers(m: Message, d: seq<byte>, v: nat)
    requires DecodeMessage(m, d).Ok? && v < WORD
    ensures var Record(f, unknown) := DecodeMessage(m, d).value;
            && DecodeMessage(m, d + Written(VarintField(4, v))) == Ok(Record(f.(requestNonce := v), unknown))
            && DecodeMessage(m, d + Written(VarintField(5, v))) == Ok(Record(f.(messageNonce := v), unknown))
            && DecodeMessage(m, d + Written(VarintField(6, v))) == Ok(Record(f.(replyFlag := v != 0), unknown))
            && DecodeMessage(m, d + Written(VarintField(7, v))) == Ok(Record(f.(opcode := v % 0x1_0000_0000), unknown))
  {
    hide Decode, DecodeID, ReadField, Written;
    MessageOne(m, d, VarintField(4, v));
    MessageOne(m, d, VarintField(5, v));
    MessageOne(m, d, VarintField(6, v));
    MessageOpcode(m, d, v);
  }

  // the opcode keeps 32 bits
  lemma MessageOpcode(m: Message, d: seq<byte>, v: nat)
    requires DecodeMessage(m, d).Ok? && v < WORD
    ensures var Record(f, unknown) := DecodeMessage(m, d).value;
            DecodeMessage(m, d + Written(VarintField(7, v))) == Ok(Record(f.(opcode := v % 0x1_0000_0000), unknown))
  {
    hide Decode, ReadField, Written, DecodeID;
    var f := VarintField(7, v);
    OpcodeRead(v);
    assert Written(f) + [] == Written(f);
    DecodeMore(ApplyMessage, MESSAGE_SCHEMA, m, d, Written(f));
  }

  lemma OpcodeRead(v: nat)
    requires v < WORD
    ensures var w := Written(VarintField(7, v));
            ReadField(w, MESSAGE_SCHEMA) == Ok(Known(7, Count(v % 0x1_0000_0000), |w|))
  {
    hide ReadTag, Uvarint, Varint, Skip, Pow2, Low;
    var w := Written(VarintField(7, v));
    OneByteTag(VarintField(7, v));
    assert w == [8 * 7 + 0] + Varint(v);
    TagRead(7, 0, Varint(v));
    assert w[1..] == Varint(v) + [];
    Word64();
    Word32();
    LowOf(v);
    VarintCut(v, [], 32, 0, 0);
  }

  lemma LowOf(v: nat)
    ensures Low(v, 32) == v % 0x1_0000_0000 && Low(0, 32) == 0 && Shl(v, 0) == v && Pow2(0) == 1
  {
    Word32();
  }

  /** A sender is decoded into the one that is there, or into a new one. */
  lemma MessageSender(m: Message, d: seq<byte>, b: seq<byte>)
    requires DecodeMessage(m, d).Ok? && |b| < 0x8000_0000_0000_0000
    ensures var r := DecodeMessage(m, d).value;
            var none: ID := Record(IDFields([], [], []), []);
            var s := DecodeID(if r.fields.sender.Some? then r.fields.sender.value else none, b);
            DecodeMessage(m, d + Written(Delimited(2, b)))
            == if s.Err? then Err(s.error) else Ok(Record(r.fields.(sender := Some(s.value)), r.unknown))
  {
    hide Decode, DecodeID, ReadField, Written;
    MessageOne(m, d, Delimited(2, b));
  }

  lemma MessageOne(m: Message, d: seq<byte>, f: WireFields.Field)
    requires DecodeMessage(m, d).Ok? && WellFormed(f) && 0 < f.number < 9 && Fitting(f, MESSAGE_SCHEMA[f.number])
    requires f.number != 7
    ensures var r := DecodeMessage(m, d).value;
            var a := ApplyMessage(r.fields, f.number, ValueOf(f));
            DecodeMessage(m, d + Written(f)) == if a.Err? then Err(a.error) else Ok(Record(a.value, r.unknown))
  {
    hide Decode, ApplyMessage, ReadField, Written;
    Word64();
    Word32();
    KnownRead(f, MESSAGE_SCHEMA, []);
    assert Written(f) + [] == Written(f);
    DecodeMore(ApplyMessage, MESSAGE_SCHEMA, m, d, Written(f));
  }

  lemma Word32()
    ensures Pow2(32) == 0x1_0000_0000
  {
    PowValues();
  }

  /** Every other field is kept as it is, behind what was kept before; a known number in another form is refused, and so
      is the number zero. */
  lemma MessageOthers(m: Message, d: seq<byte>, f: WireFields.Field)
    requires DecodeMessage(m, d).Ok? && WellFormed(f) && f.number < 0x8000_0000
    ensures var r := DecodeMessage(m, d).value;
            && (f.number > 8 ==> DecodeMessage(m, d + Written(f)) == Ok(Record(r.fields, r.unknown + Written(f))))
            && (f.number in {1, 2, 3, 8} && !f.Delimited? ==> DecodeMessage(m, d + Written(f)) == Err(WrongWireType))
            && (f.number in {4, 5, 6, 7} && !f.VarintField? ==> DecodeMessage(m, d + Written(f)) == Err(WrongWireType))
            && (f.number == 0 ==> DecodeMessage(m, d + Written(f)) == Err(IllegalTag))
  {
    hide Decode, ApplyMessage, ReadField, Written, WellFormed;
    assert Written(f) + [] == Written(f);
    DecodeMore(ApplyMessage, MESSAGE_SCHEMA, m, d, Written(f));
    if f.number > 8 {
      UnknownRead(f, MESSAGE_SCHEMA, []);
    } else {
      Refused(f, MESSAGE_SCHEMA, []);
    }
  }

  /** A field that is refused leaves the message as it was before it. */
  lemma MessageKept(m: Message, d: seq<byte>, f: WireFields.Field)
    requires DecodeMessage(m, d).Ok? && WellFormed(f) && f.number < 0x8000_0000
    requires f.number == 0 || (f.number in {1, 2, 3, 8} && !f.Delimited?)
             || (f.number in {4, 5, 6, 7} && !f.VarintField?)
    ensures LeftMessage(m, d + Written(f)) == DecodeMessage(m, d).value
  {
    hide Decode, Left, ApplyMessage, SpoilMessage, ReadField, Written, WellFormed;
    assert Written(f) + [] == Written(f);
    LeftConcat(ApplyMessage, SpoilMessage, MESSAGE_SCHEMA, m, d, Written(f));
    Refused(f, MESSAGE_SCHEMA, []);
    TagOf(f, []);
    LeftRefused(DecodeMessage(m, d).value, Written(f));
  }

  lemma LeftRefused(m: Message, e: seq<byte>)
    requires e != [] && ReadField(e, MESSAGE_SCHEMA).Err? && Broken(e, MESSAGE_SCHEMA).None?
    ensures LeftMessage(m, e) == m
  {
    hide ReadField, Broken;
  }

  /** A number that is cut off behind its tag has been cleared already; the flag has not. */
  lemma MessageCutOff(m: Message, d: seq<byte>)
    requires DecodeMessage(m, d).Ok?
    ensures var Record(f, unknown) := DecodeMessage(m, d).value;
            && LeftMessage(m, d + [0x20]) == Record(f.(requestNonce := 0), unknown)
            && LeftMessage(m, d + [0x28]) == Record(f.(messageNonce := 0), unknown)
            && LeftMessage(m, d + [0x30]) == Record(f, unknown)
            && LeftMessage(m, d + [0x38]) == Record(f.(opcode := 0), unknown)
  {
    hide Decode, ApplyMessage;
    CutOff(m, d, 4);
    CutOff(m, d, 5);
    CutOff(m, d, 6);
    CutOff(m, d, 7);
  }

  lemma CutOff(m: Message, d: seq<byte>, k: nat)
    requires DecodeMessage(m, d).Ok? && 4 <= k <= 7
    ensures var r := DecodeMessage(m, d).value;
            LeftMessage(m, d + [8 * k]) == Record(SpoilMessage(r.fields, k, Count(0)), r.unknown)
  {
    hide Decode, Left, ApplyMessage, SpoilMessage;
    LeftConcat(ApplyMessage, SpoilMessage, MESSAGE_SCHEMA, m, d, [8 * k]);
    TagRead(k, 0, []);
    assert [8 * k + 0] + [] == [8 * k];
    NothingBehind(DecodeMessage(m, d).value, k);
  }

  lemma NothingBehind(m: Message, k: nat)
    requires 4 <= k <= 7 && ReadTag([8 * k]) == Ok(Tag(k, 0, 1))
    ensures LeftMessage(m, [8 * k]) == Record(SpoilMessage(m.fields, k, Count(0)), m.unknown)
  {
    hide ReadTag, SpoilMessage;
    assert [8 * k][1..] == [];
    assert forall w :: Uint([], w) == Err(UnexpectedEOF) && Gathered([], w, 0, 0) == 0;
  }

  // ---- ID ----

  lemma IDSets(m: ID, d: seq<byte>, b: seq<byte>)
    requires DecodeID(m, d).Ok? && |b| < 0x8000_0000_0000_0000
    ensures var r := DecodeID(m, d).value;
            && DecodeID(m, d + Written(Delimited(1, b))) == Ok(Record(r.fields.(netKey := b), r.unknown))
            && DecodeID(m, d + Written(Delimited(2, b))) == Ok(Record(r.fields.(address := b), r.unknown))
            && DecodeID(m, d + Written(Delimited(3, b))) == Ok(Record(r.fields.(id := b), r.unknown))
  {
    hide Decode, ReadField, Written;
    IDOne(m, d, Delimited(1, b));
    IDOne(m, d, Delimited(2, b));
    IDOne(m, d, Delimited(3, b));
  }

  lemma IDOne(m: ID, d: seq<byte>, f: WireFields.Field)
    requires DecodeID(m, d).Ok? && WellFormed(f) && 0 < f.number < 4 && f.Delimited?
    ensures var r := DecodeID(m, d).value;
            var a := ApplyID(r.fields, f.number, ValueOf(f));
            a.Ok? && DecodeID(m, d + Written(f)) == Ok(Record(a.value, r.unknown))
  {
    hide Decode, ReadField, Written;
    KnownRead(f, ID_SCHEMA, []);
    assert Written(f) + [] == Written(f);
    DecodeMore(ApplyID, ID_SCHEMA, m, d, Written(f));
  }

  lemma IDOthers(m: ID, d: seq<byte>, f: WireFields.Field)
    requires DecodeID(m, d).Ok? && WellFormed(f) && f.number < 0x8000_0000
    ensures var r := DecodeID(m, d).value;
            && (f.number > 3 ==> DecodeID(m, d + Written(f)) == Ok(Record(r.fields, r.unknown + Written(f))))
            && (f.number in {1, 2, 3} && !f.Delimited? ==> DecodeID(m, d + Written(f)) == Err(WrongWireType))
            && (f.number == 0 ==> DecodeID(m, d + Written(f)) == Err(IllegalTag))
  {
    hide Decode, ApplyID, ReadField, Written, WellFormed;
    assert Written(f) + [] == Written(f);
    DecodeMore(ApplyID, ID_SCHEMA, m, d, Written(f));
    if f.number > 3 {
      UnknownRead(f, ID_SCHEMA, []);
    } else {
      Refused(f, ID_SCHEMA, []);
    }
  }

  // ---- what is written ----

  // a tag, a length and the bytes, if there are any
  function Slice(tag: byte, b: seq<byte>): seq<byte> {
    if b == [] then [] else [tag] + Varint(|b|) + b
  }

  // a tag and a number, if it is not zero
  function Counted(tag: byte, v: nat): seq<byte> {
    if v == 0 then [] else [tag] + Varint(v)
  }

  /** The bytes of an ID, tag by tag. */
  lemma IDLayout(m: ID)
    ensures var IDFields(netKey, address, id) := m.fields;
            IDBytes(m) == Slice(0x0A, netKey) + (Slice(0x12, address) + (Slice(0x1A, id) + m.unknown))
  {
    hide Varint, IDField, Slice;
    var IDFields(netKey, address, id) := m.fields;
    var get := IDField(m.fields);
    IDSliceBytes(m.fields);
    EncodeStep(get, 3, 3, Slice(0x1A, id), m.unknown);
    EncodeStep(get, 2, 3, Slice(0x12, address), m.unknown);
    EncodeStep(get, 1, 3, Slice(0x0A, netKey), m.unknown);
    assert EncodeFrom(get, 4, 3) + m.unknown == m.unknown;
  }

  lemma IDSliceBytes(f: IDFields)
    ensures var get := IDField(f);
            && Slice(0x0A, f.netKey) == (if get(1).None? then [] else FieldBytes(1, get(1).value))
            && Slice(0x12, f.address) == (if get(2).None? then [] else FieldBytes(2, get(2).value))
            && Slice(0x1A, f.id) == (if get(3).None? then [] else FieldBytes(3, get(3).value))
  {
    hide Varint, IDField;
    IDFieldValues(f);
  }

  /** The bytes of a Message, tag by tag. */
  lemma MessageLayout(m: Message)
    ensures var f := m.fields;
            MessageBytes(m)
            == Slice(0x0A, f.message) + (Nested(0x12, f.sender) + (Slice(0x1A, f.signature) + NumbersOn(f, m.unknown)))
  {
    hide Varint, MessageField, Slice, NumbersOn;
    var f := m.fields;
    var get := MessageField(f);
    SliceBytes(f);
    hide IDBytes, Nested;
    NumbersLayout(f, m.unknown);
    EncodeStep(get, 3, 8, Slice(0x1A, f.signature), m.unknown);
    EncodeStep(get, 2, 8, Nested(0x12, f.sender), m.unknown);
    EncodeStep(get, 1, 8, Slice(0x0A, f.message), m.unknown);
  }

  // the sender with its length
  function Nested(tag: byte, sender: Option<ID>): seq<byte> {
    if sender.None? then [] else [tag] + Varint(|IDBytes(sender.value)|) + IDBytes(sender.value)
  }

  // from the first number on
  function NumbersOn(f: MessageFields, unknown: seq<byte>): seq<byte> {
    Counted(0x20, f.requestNonce) + (Counted(0x28, f.messageNonce)
      + (Counted(0x30, if f.replyFlag then 1 else 0) + (Counted(0x38, f.opcode)
           + (Slice(0x42, f.dialAddress) + unknown))))
  }

  // the fields that have a length
  lemma SliceBytes(f: MessageFields)
    ensures var get := MessageField(f);
            && Slice(0x0A, f.message) == (if get(1).None? then [] else FieldBytes(1, get(1).value))
            && Nested(0x12, f.sender) == (if get(2).None? then [] else FieldBytes(2, get(2).value))
            && Slice(0x1A, f.signature) == (if get(3).None? then [] else FieldBytes(3, get(3).value))
            && Slice(0x42, f.dialAddress) == (if get(8).None? then [] else FieldBytes(8, get(8).value))
  {
    hide Varint, IDBytes, MessageField;
    MessageFieldValues(f);
  }

  lemma NumberBytes(f: MessageFields)
    ensures var get := MessageField(f);
            && Counted(0x20, f.requestNonce) == (if get(4).None? then [] else FieldBytes(4, get(4).value))
            && Counted(0x28, f.messageNonce) == (if get(5).None? then [] else FieldBytes(5, get(5).value))
            && Counted(0x30, if f.replyFlag then 1 else 0) == (if get(6).None? then [] else FieldBytes(6, get(6).value))
            && Counted(0x38, f.opcode) == (if get(7).None? then [] else FieldBytes(7, get(7).value))
  {
    hide Varint, IDBytes, MessageField;
    MessageFieldValues(f);
  }

  lemma NumbersLayout(f: MessageFields, unknown: seq<byte>)
    ensures EncodeFrom(MessageField(f), 4, 8) + unknown == NumbersOn(f, unknown)
  {
    hide Slice, Counted, MessageField, FieldBytes;
    var get := MessageField(f);
    SliceBytes(f);
    NumberBytes(f);
    EncodeStep(get, 8, 8, Slice(0x42, f.dialAddress), unknown);
    EncodeStep(get, 7, 8, Counted(0x38, f.opcode), unknown);
    EncodeStep(get, 6, 8, Counted(0x30, if f.replyFlag then 1 else 0), unknown);
    EncodeStep(get, 5, 8, Counted(0x28, f.messageNonce), unknown);
    EncodeStep(get, 4, 8, Counted(0x20, f.requestNonce), unknown);
    assert EncodeFrom(get, 9, 8) + unknown == unknown;
  }

  lemma EncodeStep(get: int -> Option<Value>, k: nat, n: nat, head: seq<byte>, tail: seq<byte>)
    requires 0 < k <= n < 16 && head == if get(k).None? then [] else FieldBytes(k, get(k).value)
    ensures EncodeFrom(get, k, n) + tail == head + (EncodeFrom(get, k + 1, n) + tail)
  {
    hide FieldBytes;
    assert EncodeFrom(get, k, n) == head + EncodeFrom(get, k + 1, n);
  }
}
