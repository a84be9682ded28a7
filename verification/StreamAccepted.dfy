/** Accepted input: what Unmarshal accepts can be marshalled again, without growing, to an equal message. */
module StreamAccepted {
  import opened Machine
  import opened Bits
  import opened Wire
  import opened Wrappers
  import opened RecordCodec
  import opened StreamCodec

  // ---- sizes, as Size() adds them up ----

  function BytesSize(b: seq<byte>): nat {
    if |b| > 0 then 1 + |b| + Sov(|b|) else 0
  }

  function CountSize(c: nat): nat {
    if c != 0 then 1 + Sov(c) else 0
  }

  function IDSize(m: ID): nat {
    BytesSize(m.fields.netKey) + BytesSize(m.fields.address) + BytesSize(m.fields.id) + |m.unknown|
  }

  function SenderSize(s: Option<ID>): nat {
    if s.Some? then 1 + IDSize(s.value) + Sov(IDSize(s.value)) else 0
  }

  function FieldsSize(f: MessageFields): nat {
    BytesSize(f.message) + SenderSize(f.sender) + BytesSize(f.signature) + CountSize(f.requestNonce)
      + CountSize(f.messageNonce)
    + (if f.replyFlag then 2 else 0) + CountSize(f.opcode) + BytesSize(f.dialAddress)
  }

  function MessageSize(m: Message): nat {
    FieldsSize(m.fields) + |m.unknown|
  }

  lemma BytesSizeStep(get: int -> Option<Value>, k: nat, n: nat, b: seq<byte>)
    requires 0 < k <= n < 16 && get(k) == NonEmpty(b)
    ensures |EncodeFrom(get, k, n)| == BytesSize(b) + |EncodeFrom(get, k + 1, n)|
  {
    hide Varint, Sov;
    SovExact(|b|);
  }

  lemma CountSizeStep(get: int -> Option<Value>, k: nat, n: nat, c: nat)
    requires 0 < k <= n < 16 && get(k) == NonZero(c)
    ensures |EncodeFrom(get, k, n)| == CountSize(c) + |EncodeFrom(get, k + 1, n)|
  {
    hide Varint, Sov;
    SovExact(c);
  }

  /** ID.Size is the number of bytes ID.MarshalTo writes. */
  lemma IDSizeExact(m: ID)
    ensures |IDBytes(m)| == IDSize(m)
  {
    hide BytesSize, EncodeFrom, IDField;
    var get := IDField(m.fields);
    IDFieldValues(m.fields);
    BytesSizeStep(get, 1, 3, m.fields.netKey);
    BytesSizeStep(get, 2, 3, m.fields.address);
    BytesSizeStep(get, 3, 3, m.fields.id);
    NoMore(get, 3);
  }

  lemma NoMore(get: int -> Option<Value>, n: nat)
    requires n < 16
    ensures EncodeFrom(get, n + 1, n) == []
  {
  }

  lemma SenderSizeStep(get: int -> Option<Value>, s: Option<ID>)
    requires get(2) == (if s.None? then None else Some(Bytes(IDBytes(s.value))))
    ensures |EncodeFrom(get, 2, 8)| == SenderSize(s) + |EncodeFrom(get, 3, 8)|
  {
    hide Varint, Sov, IDBytes, IDSize;
    if s.Some? {
      IDSizeExact(s.value);
      SovExact(IDSize(s.value));
    }
  }

  /** Message.Size is the number of bytes Message.MarshalTo writes. */
  lemma MessageSizeExact(m: Message)
    ensures |MessageBytes(m)| == MessageSize(m)
  {
    hide BytesSize, CountSize, SenderSize, EncodeFrom, MessageField, IDBytes;
    var f := m.fields;
    var get := MessageField(f);
    MessageFieldValues(f);
    BytesSizeStep(get, 1, 8, f.message);
    SenderSizeStep(get, f.sender);
    BytesSizeStep(get, 3, 8, f.signature);
    CountSizeStep(get, 4, 8, f.requestNonce);
    CountSizeStep(get, 5, 8, f.messageNonce);
    CountSizeStep(get, 6, 8, if f.replyFlag then 1 else 0);
    FlagSize();
    CountSizeStep(get, 7, 8, f.opcode);
    BytesSizeStep(get, 8, 8, f.dialAddress);
    NoMore(get, 8);
  }

  lemma FlagSize()
    ensures CountSize(1) == 2 && CountSize(0) == 0
  {
  }

  // ---- a field takes at least the bytes its shortest encoding takes ----

  lemma {:induction false} SovUpper(x: nat, n: nat)
    requires n > 0 && x < Pow2(7 * n)
    ensures Sov(x) <= n
    decreases n
  {
    hide Pow2;
    Seven();
    if n > 1 && x >= 128 {
      PowAdd(7, 7 * (n - 1));
      assert 7 * n == 7 + 7 * (n - 1);
      Quotient(x, Pow2(7 * (n - 1)));
      SovUpper(x / 128, n - 1);
    }
  }

  lemma {:induction false} SovLower(x: nat)
    ensures x < Pow2(7 * Sov(x))
  {
    hide Pow2;
    Seven();
    if x / 128 == 0 {
      assert 7 * Sov(x) == 7;
    } else {
      SovLower(x / 128);
      PowAdd(7, 7 * Sov(x / 128));
      assert 7 * Sov(x) == 7 + 7 * Sov(x / 128);
      FromQuotient(x, Pow2(7 * Sov(x / 128)));
    }
  }

  lemma FromQuotient(x: nat, m: int)
    requires x / 128 < m
    ensures x < 128 * m
  {
  }

  lemma SovMonotone(x: nat, y: nat)
    requires x <= y
    ensures Sov(x) <= Sov(y)
  {
    hide Sov, Pow2;
    SovLower(y);
    SovUpper(x, Sov(y));
  }

  /** The header of two lengths together is no longer than their two headers. */
  lemma SovSum(x: nat, y: nat)
    ensures Sov(x + y) <= Sov(x) + Sov(y)
  {
    hide Sov, Pow2;
    var a, b := Sov(x), Sov(y);
    SovLower(x);
    SovLower(y);
    PowAdd(7 * a, 7 * b);
    assert 7 * a + 7 * b == 7 * (a + b);
    AtLeastTwo(7 * a);
    AtLeastTwo(7 * b);
    SumBelowProduct(Pow2(7 * a), Pow2(7 * b));
    SovUpper(x + y, a + b);
  }

  lemma AtLeastTwo(k: nat)
    requires k > 0
    ensures Pow2(k) >= 2
  {
  }

  lemma SumBelowProduct(u: int, v: int)
    requires u >= 2 && v >= 2
    ensures u + v <= u * v
  {
    assert (u - 1) * (v - 1) >= 1;
  }

  lemma {:induction false} UvarintCost(d: seq<byte>, w: nat, shift: nat, acc: nat)
    requires Uvarint(d, w, shift, acc).Ok? && acc < Pow2(shift)
    ensures var r := Uvarint(d, w, shift, acc).value; r.value < Pow2(shift + 7 * r.size)
    decreases |d|
  {
    hide Or, Low, Shl, Pow2;
    var x := Low(Shl(d[0] % 128, shift), w);
    LowAtMost(Shl(d[0] % 128, shift), w);
    Seven();
    ShlBound(d[0] % 128, shift, shift + 7);
    Wider(shift);
    OrBound(acc, x, shift + 7);
    if d[0] >= 128 {
      UvarintCost(d[1..], w, shift + 7, Or(acc, x));
      var n := Uvarint(d[1..], w, shift + 7, Or(acc, x)).value.size;
      assert shift + 7 + 7 * n == shift + 7 * (1 + n);
    }
  }

  lemma Wider(k: nat)
    ensures Pow2(k) <= Pow2(k + 7)
  {
    PowAdd(k, 7);
  }

  lemma LowAtMost(x: nat, w: nat)
    ensures Low(x, w) <= x
  {
    hide Pow2;
    Parts(x, w);
  }

  lemma UintCost(d: seq<byte>, w: nat)
    requires Uint(d, w).Ok?
    ensures Sov(Uint(d, w).value.value) <= Uint(d, w).value.size
    ensures Uint(d, w).value.value < Pow2(w)
  {
    hide Uvarint, Sov;
    UvarintCost(d, w, 0, 0);
    SovUpper(Uint(d, w).value.value, Uint(d, w).value.size);
    UvarintBound(d, w, 0, 0);
  }

  /** The cost of a field: what is read took no fewer bytes than writing it would. */
  lemma FieldCost(d: seq<byte>, schema: Schema)
    requires ReadField(d, schema).Ok? && ReadField(d, schema).value.Known?
    ensures var Known(k, v, size) := ReadField(d, schema).value;
            k in schema && v.Bytes? == schema[k].LengthDelimited?
            && match v
               case Bytes(b) => 1 + |b| + Sov(|b|) <= size && |b| < 0x8000_0000_0000_0000
               case Count(c) => 1 + Sov(c) <= size && c < Pow2(schema[k].width)
  {
    hide ReadTag, Uint, Skip, Sov, Pow2;
    var t := ReadTag(d).value;
    if schema[t.field].LengthDelimited? {
      UintCost(d[t.size..], 64);
    } else {
      UintCost(d[t.size..], schema[t.field].width);
    }
  }

  // ---- decoding an ID ----

  /** Decoding into an ID adds at most the length of the input to its size, and keeps it well formed. */
  lemma {:induction false} IDGrowth(m: ID, d: seq<byte>)
    requires DecodeID(m, d).Ok? && SizedID(m)
    ensures SizedID(DecodeID(m, d).value) && IDSize(DecodeID(m, d).value) <= IDSize(m) + |d|
    decreases |d|
  {
    hide ReadField, Sov;
    if d != [] {
      var f := ReadField(d, ID_SCHEMA).value;
      match f
      case Unknown(n) => IDGrowth(m.(unknown := m.unknown + d[..n]), d[n..]);
      case Known(k, v, n) =>
        FieldCost(d, ID_SCHEMA);
        IDGrowth(m.(fields := ApplyID(m.fields, k, v).value), d[n..]);
    }
  }

  lemma IDUnknownOnly(m: ID, d: seq<byte>)
    requires DecodeID(m, d).Ok? && AllUnknown(m.unknown, ID_SCHEMA)
    ensures AllUnknown(DecodeID(m, d).value.unknown, ID_SCHEMA)
  {
    hide Decode, AllUnknown, Unrecognized;
    UnknownKept(ApplyID, ID_SCHEMA, m, d);
    UnrecognizedUnknown(ApplyID, ID_SCHEMA, m, d);
    AllUnknownConcat(m.unknown, Unrecognized(d, ID_SCHEMA), ID_SCHEMA);
  }

  // ---- decoding a message ----

  /** A message within the ranges of its Go types, its sender's unknown bytes whole. */
  predicate Clean(m: Message) {
    var f := m.fields;
    |f.message| < 0x8000_0000_0000_0000 && |f.signature| < 0x8000_0000_0000_0000
      && |f.dialAddress| < 0x8000_0000_0000_0000
    && f.requestNonce < 0x1_0000_0000_0000_0000 && f.messageNonce < 0x1_0000_0000_0000_0000 && f.opcode < 0x1_0000_0000
    && CleanSender(f.sender)
  }

  predicate CleanSender(s: Option<ID>) {
    s.Some? ==> SizedID(s.value) && AllUnknown(s.value.unknown, ID_SCHEMA)
  }

  lemma SenderGrowth(f: MessageFields, b: seq<byte>)
    requires DecodeID(SenderOf(f), b).Ok? && CleanSender(f.sender)
    ensures var s := Some(DecodeID(SenderOf(f), b).value);
            CleanSender(s) && SenderSize(s) <= SenderSize(f.sender) + 1 + |b| + Sov(|b|)
  {
    hide DecodeID, IDSize, Sov, AllUnknown;
    var s := DecodeID(SenderOf(f), b).value;
    NothingUnknown();
    IDGrowth(SenderOf(f), b);
    IDUnknownOnly(SenderOf(f), b);
    if f.sender.Some? {
      SovMonotone(IDSize(s), IDSize(f.sender.value) + |b|);
      SovSum(IDSize(f.sender.value), |b|);
    } else {
      EmptySize();
      SovMonotone(IDSize(s), |b|);
    }
  }

  lemma NothingUnknown()
    ensures AllUnknown([], ID_SCHEMA) && AllUnknown([], MESSAGE_SCHEMA)
  {
  }

  lemma EmptySize()
    ensures IDSize(EMPTY_ID) == 0 && MessageSize(EMPTY_MESSAGE) == 0
  {
  }

  // one known field
  lemma ApplyGrowth(m: Message, d: seq<byte>)
    requires Clean(m) && ReadField(d, MESSAGE_SCHEMA).Ok? && ReadField(d, MESSAGE_SCHEMA).value.Known?
    requires var Known(k, v, n) := ReadField(d, MESSAGE_SCHEMA).value; ApplyMessage(m.fields, k, v).Ok?
    ensures var Known(k, v, n) := ReadField(d, MESSAGE_SCHEMA).value;
            var f := ApplyMessage(m.fields, k, v).value;
            Clean(m.(fields := f)) && FieldsSize(f) <= FieldsSize(m.fields) + n
  {
    hide ReadField, Sov, Pow2, DecodeID, IDSize, SenderSize, CleanSender;
    Sixtyfour();
    FieldCost(d, MESSAGE_SCHEMA);
    var Known(k, v, n) := ReadField(d, MESSAGE_SCHEMA).value;
    if k == 2 {
      SenderGrowth(m.fields, v.bytes);
    } else if k == 6 {
      SovPositive(v.count);
    }
  }

  lemma SovPositive(c: nat)
    ensures Sov(c) >= 1
  {
  }

  /** Decoding into a clean message leaves a clean message, larger by at most the length of the input. */
  lemma {:induction false} MessageGrowth(m: Message, d: seq<byte>)
    requires DecodeMessage(m, d).Ok? && Clean(m)
    ensures Clean(DecodeMessage(m, d).value) && MessageSize(DecodeMessage(m, d).value) <= MessageSize(m) + |d|
    decreases |d|
  {
    hide ReadField, ApplyMessage, FieldsSize, CleanSender;
    if d != [] {
      var f := ReadField(d, MESSAGE_SCHEMA).value;
      match f
      case Unknown(n) => MessageGrowth(m.(unknown := m.unknown + d[..n]), d[n..]);
      case Known(k, v, n) =>
        ApplyGrowth(m, d);
        MessageGrowth(m.(fields := ApplyMessage(m.fields, k, v).value), d[n..]);
    }
  }

  lemma CleanIsSized(m: Message)
    requires Clean(m) && MessageSize(m) < 0x8000_0000_0000_0000
    ensures Sized(m)
  {
    hide BytesSize, CountSize, IDSize, Sov, AllUnknown, IDBytes;
    if m.fields.sender.Some? {
      IDSizeExact(m.fields.sender.value);
    }
  }

  /**
   * Every input that Unmarshal accepts into a fresh message marshals again: the result is no longer than the
   * input, it keeps the unrecognized fields in order, and unmarshalling it gives an equal message.
   */
  lemma AcceptedRoundTrip(d: seq<byte>)
    requires |d| < 0x8000_0000_0000_0000 && DecodeMessage(EMPTY_MESSAGE, d).Ok?
    ensures var m := DecodeMessage(EMPTY_MESSAGE, d).value;
            m.unknown == Unrecognized(d, MESSAGE_SCHEMA) && |MessageBytes(m)| <= |d|
            && DecodeMessage(EMPTY_MESSAGE, MessageBytes(m)) == Ok(m)
  {
    hide Decode, AllUnknown, Unrecognized, MessageBytes, MessageSize, SizedID, IDBytes;
    var m := DecodeMessage(EMPTY_MESSAGE, d).value;
    EmptySize();
    NothingUnknown();
    UnknownKept(ApplyMessage, MESSAGE_SCHEMA, EMPTY_MESSAGE, d);
    assert [] + Unrecognized(d, MESSAGE_SCHEMA) == Unrecognized(d, MESSAGE_SCHEMA);
    UnrecognizedUnknown(ApplyMessage, MESSAGE_SCHEMA, EMPTY_MESSAGE, d);
    MessageGrowth(EMPTY_MESSAGE, d);
    MessageSizeExact(m);
    CleanIsSized(m);
    MessageRoundTrip(m);
  }

  /** Two accepted messages back to back decode as the second decoded over the first. */
  lemma MergeByConcatenation(m: Message, d: seq<byte>, e: seq<byte>)
    requires DecodeMessage(m, d).Ok?
    ensures DecodeMessage(m, d + e) == DecodeMessage(DecodeMessage(m, d).value, e)
  {
    hide Decode;
    DecodeConcat(ApplyMessage, MESSAGE_SCHEMA, m, d, e);
  }
}
