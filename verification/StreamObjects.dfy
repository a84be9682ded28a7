/** The generated message objects of stream.proto: Size, MarshalTo, Marshal and Unmarshal on mutable fields. */
module StreamObjects {
  import opened Machine
  import opened Wire
  import opened Wrappers
  import opened RecordCodec
  import opened WireBuffer
  import opened StreamAccepted
  import Codec = StreamCodec

  // ---- writing one field ----

  /** The bytes of field k, none if it is absent. */
  function Part(k: nat, v: Option<Value>): seq<byte>
    requires 0 < k < 16
  {
    if v.None? then [] else FieldBytes(k, v.value)
  }

  lemma Advance(get: int -> Option<Value>, k: nat, n: nat, unknown: seq<byte>, done: seq<byte>)
    requires 0 < k <= n < 16
    ensures done + (EncodeFrom(get, k, n) + unknown) == done + Part(k, get(k)) + (EncodeFrom(get, k + 1, n) + unknown)
  {
    hide FieldBytes;
  }

  /** if len(b) > 0 { tag; length; copy } */
  method PutBytes(buffer: array<byte>, i: nat, tag: byte, b: seq<byte>, ghost k: nat) returns (next: nat)
    requires 0 < k < 16 && tag == 8 * k + 2 && i + |Part(k, Codec.NonEmpty(b))| <= buffer.Length
    modifies buffer
    ensures next == i + |Part(k, Codec.NonEmpty(b))|
    ensures buffer[..] == Written(old(buffer[..]), i, Part(k, Codec.NonEmpty(b)))
  {
    hide Written, Varint;
    next := i;
    WrittenNothing(buffer[..], i);
    if |b| > 0 {
      next := PutLengthAndBytes(buffer, i, tag, b);
    }
  }

  method PutLengthAndBytes(buffer: array<byte>, i: nat, tag: byte, b: seq<byte>) returns (next: nat)
    requires i + |[tag] + Varint(|b|) + b| <= buffer.Length
    modifies buffer
    ensures next == i + |[tag] + Varint(|b|) + b|
    ensures buffer[..] == Written(old(buffer[..]), i, [tag] + Varint(|b|) + b)
  {
    hide Written, Varint;
    ghost var start := buffer[..];
    next := PutLength(buffer, i, tag, |b|);
    next := Copy(buffer, next, b);
    WrittenTwice(start, i, [tag] + Varint(|b|), b);
  }

  method PutLength(buffer: array<byte>, i: nat, tag: byte, length: nat) returns (next: nat)
    requires i + |[tag] + Varint(length)| <= buffer.Length
    modifies buffer
    ensures next == i + |[tag] + Varint(length)|
    ensures buffer[..] == Written(old(buffer[..]), i, [tag] + Varint(length))
  {
    hide Written, Varint;
    ghost var start := buffer[..];
    Put(buffer, i, tag);
    next := EncodeVarint(buffer, i + 1, length);
    WrittenTwice(start, i, [tag], Varint(length));
  }

  /** i += copy(dAtA[i:], s) */
  method Copy(buffer: array<byte>, i: nat, s: seq<byte>) returns (next: nat)
    requires i + |s| <= buffer.Length
    modifies buffer
    ensures next == i + |s| && buffer[..] == Written(old(buffer[..]), i, s)
  {
    forall j | 0 <= j < |s| {
      buffer[i + j] := s[j];
    }
    next := i + |s|;
    assert buffer[..][i..i + |s|] == s;
    assert buffer[..] == buffer[..][..i] + buffer[..][i..i + |s|] + buffer[..][i + |s|..];
  }

  /** if v != 0 { tag; varint } */
  method PutCount(buffer: array<byte>, i: nat, tag: byte, v: nat, ghost k: nat) returns (next: nat)
    requires 0 < k < 16 && tag == 8 * k && i + |Part(k, Codec.NonZero(v))| <= buffer.Length
    modifies buffer
    ensures next == i + |Part(k, Codec.NonZero(v))|
    ensures buffer[..] == Written(old(buffer[..]), i, Part(k, Codec.NonZero(v)))
  {
    hide Written, Varint;
    next := i;
    WrittenNothing(buffer[..], i);
    if v != 0 {
      next := PutLength(buffer, i, tag, v);
    }
  }

  // ---- reading one field ----

  /** The tag at index preIndex: error, field number, wire type, and the index behind it. */
  method DecodeTag(d: seq<byte>, preIndex: nat) returns (e: Option<Error>, fieldNum: int, wireType: nat, iNdEx: nat)
    requires preIndex <= |d|
    ensures match ReadTag(d[preIndex..])
            case Err(error) => e == Some(error)
            case Ok(t) =>
              iNdEx == preIndex + t.size && iNdEx <= |d| && fieldNum == t.field && wireType == t.kind
              && e == (if t.kind == 4 then Some(EndGroup) else if t.field <= 0 then Some(IllegalTag) else None)
  {
    hide Uint, Int32;
    var wire;
    e, wire, iNdEx := DecodeVarint(d, preIndex, 64);
    if e.Some? {
      return e, 0, 0, iNdEx;
    }
    fieldNum := Int32(wire / 8);
    wireType := wire % 8;
    if wireType == 4 {
      e := Some(EndGroup);
    } else if fieldNum <= 0 {
      e := Some(IllegalTag);
    }
  }

  /** The default case: cut out a field of unknown number. */
  method DecodeUnknownField(d: seq<byte>, preIndex: nat) returns (e: Option<Error>, b: seq<byte>, iNdEx: nat)
    requires preIndex <= |d|
    ensures match Skip(d[preIndex..])
            case Err(error) => e == Some(error)
            case Ok(n) =>
              if n > |d| - preIndex then e == Some(UnexpectedEOF)
              else e == None && iNdEx == preIndex + n && b == d[preIndex..][..n]
  {
    hide Skip;
    var skippy;
    e, skippy := SkipStream(d[preIndex..]);
    iNdEx := preIndex;
    b := [];
    if e.Some? {
      return;
    }
    if iNdEx + skippy > |d| {
      e := Some(UnexpectedEOF);
      return;
    }
    b := d[iNdEx..iNdEx + skippy];
    iNdEx := iNdEx + skippy;
  }

  /** What reading a field of bytes amounts to. */
  lemma ReadBytesField(d: seq<byte>, schema: Schema, t: Tag)
    requires ReadTag(d) == Ok(t) && t.kind != 4 && t.field > 0
    requires t.field in schema && schema[t.field] == LengthDelimited
    ensures ReadField(d, schema)
            == if t.kind != 2 then Err(WrongWireType)
               else
                 var b := ReadBytes(d[t.size..]);
                 if b.Err? then Err(b.error)
                 else Ok(Known(t.field, Bytes(d[t.size..][b.value.size - b.value.value..b.value.size]),
                   t.size + b.value.size))
  {
    hide ReadTag, ReadBytes, Skip, Uint;
  }

  lemma ReadCountField(d: seq<byte>, schema: Schema, t: Tag)
    requires ReadTag(d) == Ok(t) && t.kind != 4 && t.field > 0
    requires t.field in schema && schema[t.field].Scalar?
    ensures ReadField(d, schema)
            == if t.kind != 0 then Err(WrongWireType)
               else
                 var v := Uint(d[t.size..], schema[t.field].width);
                 if v.Err? then Err(v.error) else Ok(Known(t.field, Count(v.value.value), t.size + v.value.size))
  {
    hide ReadTag, ReadBytes, Skip, Uint;
  }

  lemma ReadUnknownField(d: seq<byte>, schema: Schema, t: Tag)
    requires ReadTag(d) == Ok(t) && t.kind != 4 && t.field > 0 && t.field !in schema
    ensures ReadField(d, schema)
            == var s := Skip(d);
               if s.Err? then Err(s.error) else if s.value > |d| then Err(UnexpectedEOF) else Ok(Unknown(s.value))
  {
    hide ReadTag, ReadBytes, Skip, Uint;
  }

  /** The bytes, or the error, of a field of bytes whose tag ends at iNdEx. */
  method DecodeBytesField(d: seq<byte>, wireType: nat, iNdEx: nat, ghost preIndex: nat, ghost schema: Schema,
                          ghost t: Tag)
      returns (e: Option<Error>, b: seq<byte>, postIndex: nat)
    requires preIndex <= |d| && ReadTag(d[preIndex..]) == Ok(t) && t.kind != 4 && t.field > 0
    requires t.field in schema && schema[t.field] == LengthDelimited
    requires iNdEx == preIndex + t.size && iNdEx <= |d| && wireType == t.kind
    ensures match ReadField(d[preIndex..], schema)
            case Err(error) => e == Some(error)
            case Ok(f) =>
              e == None && preIndex <= postIndex <= |d| && f == Known(t.field, Bytes(b), postIndex - preIndex)
  {
    hide ReadTag, ReadField, ReadBytes;
    ReadBytesField(d[preIndex..], schema, t);
    if wireType != 2 {
      return Some(WrongWireType), [], iNdEx;
    }
    assert d[preIndex..][t.size..] == d[iNdEx..];
    e, b, postIndex := DecodeBytes(d, iNdEx);
  }

  method DecodeCountField(d: seq<byte>, iNdEx: nat, w: nat, ghost preIndex: nat, ghost schema: Schema, ghost t: Tag)
      returns (e: Option<Error>, v: nat, next: nat)
    requires preIndex <= |d| && ReadTag(d[preIndex..]) == Ok(t) && t.kind == 0 && t.field > 0
    requires t.field in schema && schema[t.field] == Scalar(w)
    requires iNdEx == preIndex + t.size && iNdEx <= |d|
    ensures match ReadField(d[preIndex..], schema)
            case Err(error) => e == Some(error)
            case Ok(f) => e == None && preIndex <= next <= |d| && f == Known(t.field, Count(v), next - preIndex)
    ensures Broken(d[preIndex..], schema) == Some((t.field, v))
  {
    hide ReadTag, ReadField, Uint;
    ReadCountField(d[preIndex..], schema, t);
    assert d[preIndex..][t.size..] == d[iNdEx..];
    e, v, next := DecodeVarint(d, iNdEx, w);
  }

  /** One pass of the loop: the new record and the index behind the field, or an error and what it leaves. */
  datatype Pass<+F> = Next(record: Record<F>, index: nat) | Stopped(error: Error, left: Record<F>)

  /** What one pass of the loop at index i makes of m. */
  function OneField<F>(apply: (F, int, Value) -> Outcome<F>, spoil: (F, int, Value) -> F, schema: Schema, m: Record<F>,
                       d: seq<byte>, i: nat): Pass<F>
    requires i <= |d|
  {
    match ReadField(d[i..], schema)
    case Err(error) => Stopped(error, Stalled(spoil, schema, m, d[i..]))
    case Ok(Unknown(n)) => Next(m.(unknown := m.unknown + d[i..][..n]), i + n)
    case Ok(Known(k, v, n)) =>
      var a := apply(m.fields, k, v);
      if a.Err? then Stopped(a.error, m.(fields := spoil(m.fields, k, v))) else Next(m.(fields := a.value), i + n)
  }

  lemma DecodeOne<F>(apply: (F, int, Value) -> Outcome<F>, spoil: (F, int, Value) -> F, schema: Schema, m: Record<F>,
                     d: seq<byte>, i: nat)
    requires i < |d|
    ensures match OneField(apply, spoil, schema, m, d, i)
            case Stopped(error, left) =>
              Decode(apply, schema, m, d[i..]) == Err(error) && Left(apply, spoil, schema, m, d[i..]) == left
            case Next(n, j) =>
              i < j <= |d| && Decode(apply, schema, m, d[i..]) == Decode(apply, schema, n, d[j..])
              && Left(apply, spoil, schema, m, d[i..]) == Left(apply, spoil, schema, n, d[j..])
  {
    hide ReadField, Stalled;
    var r := ReadField(d[i..], schema);
    if r.Ok? {
      assert d[i..][r.value.size..] == d[i + r.value.size..];
    }
  }

  // ---- sizes ----

  /** if l > 0 { 1 + l + sovStream(l) } */
  method LengthSize(l: nat) returns (n: nat)
    ensures n == if l > 0 then 1 + l + Sov(l) else 0
  {
    n := 0;
    if l > 0 {
      n := SovStream(l);
      n := 1 + l + n;
    }
  }

  /** if v != 0 { 1 + sovStream(v) } */
  method ScalarSize(v: nat) returns (n: nat)
    ensures n == CountSize(v)
  {
    n := 0;
    if v != 0 {
      n := SovStream(v);
      n := 1 + n;
    }
  }

  // ---- ID ----

  class ID {
    var netKey: seq<byte>
    var address: seq<byte>
    var id: seq<byte>
    var unknown: seq<byte>

    ghost function Value(): Codec.ID
      reads this
    {
      Record(Codec.IDFields(netKey, address, id), unknown)
    }

    constructor ()
      ensures Value() == Codec.EMPTY_ID
    {
      netKey, address, id, unknown := [], [], [], [];
    }

    method Size() returns (n: nat)
      ensures n == |Codec.IDBytes(Value())|
    {
      hide Codec.IDBytes, Sov;
      IDSizeExact(Value());
      var a := LengthSize(|netKey|);
      var b := LengthSize(|address|);
      var c := LengthSize(|id|);
      n := a + b + c + |unknown|;
    }

    /** Writes from index base; returns the number of bytes written. */
    method MarshalTo(buffer: array<byte>, base: nat) returns (n: nat)
      requires base + |Codec.IDBytes(Value())| <= buffer.Length
      modifies buffer
      ensures n == |Codec.IDBytes(Value())|
      ensures buffer[..] == Written(old(buffer[..]), base, Codec.IDBytes(Value()))
    {
      hide Written, Part, Codec.IDField, EncodeFrom;
      ghost var b := buffer[..];
      ghost var get := Codec.IDField(Value().fields);
      Codec.IDFieldValues(Value().fields);
      ghost var p1, p2, p3 := Part(1, get(1)), Part(2, get(2)), Part(3, get(3));
      ghost var all := Codec.IDBytes(Value());
      assert all == [] + all;
      Advance(get, 1, 3, unknown, []);
      Advance(get, 2, 3, unknown, [] + p1);
      Advance(get, 3, 3, unknown, [] + p1 + p2);
      NoMore(get, 3);
      assert all == [] + p1 + p2 + p3 + ([] + unknown);
      var i := base;
      WrittenNothing(b, base);
      i := PutBytes(buffer, i, 0xa, netKey, 1);
      WrittenTwice(b, base, [], p1);
      i := PutBytes(buffer, i, 0x12, address, 2);
      WrittenTwice(b, base, [] + p1, p2);
      i := PutBytes(buffer, i, 0x1a, id, 3);
      WrittenTwice(b, base, [] + p1 + p2, p3);
      i := Copy(buffer, i, unknown);
      WrittenTwice(b, base, [] + p1 + p2 + p3, unknown);
      assert [] + unknown == unknown;
      n := i - base;
    }

    /** Marshal: a buffer of Size() bytes, filled exactly. */
    method Marshal() returns (buffer: array<byte>)
      ensures fresh(buffer) && buffer[..] == Codec.IDBytes(Value())
    {
      hide Codec.IDBytes;
      var size := Size();
      buffer := new byte[size];
      var n := MarshalTo(buffer, 0);
    }

    // one pass of the Unmarshal loop
    method UnmarshalField(d: seq<byte>, preIndex: nat) returns (e: Option<Error>, iNdEx: nat)
      requires preIndex < |d|
      modifies this
      ensures match OneField(Codec.ApplyID, Codec.SpoilID, Codec.ID_SCHEMA, old(Value()), d, preIndex)
              case Stopped(error, left) => e == Some(error) && Value() == left
              case Next(m, i) => e == None && Value() == m && iNdEx == i
    {
      hide ReadTag, ReadField, Skip;
      var fieldNum, wireType, b;
      e, fieldNum, wireType, iNdEx := DecodeTag(d, preIndex);
      TagDecides(d[preIndex..], Codec.ID_SCHEMA);
      if e.Some? {
        return;
      }
      ghost var t := ReadTag(d[preIndex..]).value;
      if fieldNum == 1 {
        e, b, iNdEx := DecodeBytesField(d, wireType, iNdEx, preIndex, Codec.ID_SCHEMA, t);
        if e.None? {
          netKey := b;
        }
      } else if fieldNum == 2 {
        e, b, iNdEx := DecodeBytesField(d, wireType, iNdEx, preIndex, Codec.ID_SCHEMA, t);
        if e.None? {
          address := b;
        }
      } else if fieldNum == 3 {
        e, b, iNdEx := DecodeBytesField(d, wireType, iNdEx, preIndex, Codec.ID_SCHEMA, t);
        if e.None? {
          id := b;
        }
      } else {
        ReadUnknownField(d[preIndex..], Codec.ID_SCHEMA, t);
        e, b, iNdEx := DecodeUnknownField(d, preIndex);
        if e.None? {
          unknown := unknown + b;
        }
      }
    }

    /** Decodes d over what the object holds. */
    method Unmarshal(d: seq<byte>) returns (e: Option<Error>)
      modifies this
      ensures Value() == Codec.LeftID(old(Value()), d)
      ensures match Codec.DecodeID(old(Value()), d)
              case Err(error) => e == Some(error)
              case Ok(m) => e == None && Value() == m
    {
      hide ReadField, OneField, Decode, Left;
      ghost var was := Value();
      var iNdEx := 0;
      assert d[0..] == d;
      while iNdEx < |d|
        invariant iNdEx <= |d|
        invariant Codec.DecodeID(was, d) == Codec.DecodeID(Value(), d[iNdEx..])
        invariant Codec.LeftID(was, d) == Codec.LeftID(Value(), d[iNdEx..])
      {
        DecodeOne(Codec.ApplyID, Codec.SpoilID, Codec.ID_SCHEMA, Value(), d, iNdEx);
        e, iNdEx := UnmarshalField(d, iNdEx);
        if e.Some? {
          return;
        }
      }
      assert d[iNdEx..] == [];
      DecodeNothing(Codec.ApplyID, Codec.SpoilID, Codec.ID_SCHEMA, Value());
      e := None;
    }
  }

  // ---- Message ----

  class Message {
    var message: seq<byte>
    var sender: ID?
    var signature: seq<byte>
    var requestNonce: nat
    var messageNonce: nat
    var replyFlag: bool
    var opcode: nat
    var dialAddress: seq<byte>
    var unknown: seq<byte>

    ghost function Sender(): Option<Codec.ID>
      reads this, sender
    {
      if sender == null then None else Some(sender.Value())
    }

    ghost function Fields(): Codec.MessageFields
      reads this, sender
    {
      Codec.MessageFields(message, Sender(), signature, requestNonce, messageNonce, replyFlag, opcode, dialAddress)
    }

    ghost function Value(): Codec.Message
      reads this, sender
    {
      Record(Fields(), unknown)
    }

    constructor ()
      ensures Value() == Codec.EMPTY_MESSAGE
    {
      message, sender, signature, requestNonce, messageNonce := [], null, [], 0, 0;
      replyFlag, opcode, dialAddress, unknown := false, 0, [], [];
    }

    method Size() returns (n: nat)
      ensures n == |Codec.MessageBytes(Value())|
    {
      hide Codec.MessageBytes, Codec.IDBytes, Sov, IDSize, CountSize;
      MessageSizeExact(Value());
      n := LengthSize(|message|);
      if sender != null {
        IDSizeExact(sender.Value());
        var l := sender.Size();
        var s := SovStream(l);
        n := n + 1 + l + s;
      }
      var c := LengthSize(|signature|);
      var d := ScalarSize(requestNonce);
      var e := ScalarSize(messageNonce);
      var f := if replyFlag then 2 else 0;
      var g := ScalarSize(opcode);
      var h := LengthSize(|dialAddress|);
      n := n + c + d + e + f + g + h + |unknown|;
    }

    // if m.Sender != nil { tag; size; the sender itself }
    method PutSender(buffer: array<byte>, i: nat) returns (next: nat)
      requires i + |Part(2, Codec.MessageField(Fields())(2))| <= buffer.Length
      modifies buffer
      ensures next == i + |Part(2, Codec.MessageField(Fields())(2))|
      ensures buffer[..] == Written(old(buffer[..]), i, Part(2, Codec.MessageField(Fields())(2)))
    {
      hide Written, Varint, Codec.IDBytes, Codec.MessageField;
      Codec.MessageFieldValues(Fields());
      ghost var start := buffer[..];
      next := i;
      WrittenNothing(buffer[..], i);
      if sender != null {
        ghost var b := Codec.IDBytes(sender.Value());
        var size := sender.Size();
        next := PutLength(buffer, i, 0x12, size);
        var n := sender.MarshalTo(buffer, next);
        WrittenTwice(start, i, [0x12] + Varint(size), b);
        next := next + n;
      }
    }

    // the single byte of a set flag
    method PutFlag(buffer: array<byte>, i: nat) returns (next: nat)
      requires i + |Part(6, Codec.NonZero(if replyFlag then 1 else 0))| <= buffer.Length
      modifies buffer
      ensures next == i + |Part(6, Codec.NonZero(if replyFlag then 1 else 0))|
      ensures buffer[..] == Written(old(buffer[..]), i, Part(6, Codec.NonZero(if replyFlag then 1 else 0)))
    {
      hide Written;
      next := i;
      ghost var start := buffer[..];
      WrittenNothing(buffer[..], i);
      if replyFlag {
        assert FieldBytes(6, Count(1)) == [0x30] + [1];
        Put(buffer, next, 0x30);
        next := next + 1;
        Put(buffer, next, 1);
        WrittenTwice(start, i, [0x30], [1]);
        next := next + 1;
      }
    }

    // fields 5 to 8 and the unrecognized bytes
    method MarshalRest(buffer: array<byte>, i: nat) returns (next: nat)
      requires i + |EncodeFrom(Codec.MessageField(Fields()), 5, 8) + unknown| <= buffer.Length
      modifies buffer
      ensures next == i + |EncodeFrom(Codec.MessageField(Fields()), 5, 8) + unknown|
      ensures buffer[..] == Written(old(buffer[..]), i, EncodeFrom(Codec.MessageField(Fields()), 5, 8) + unknown)
    {
      hide Written, Part, Codec.MessageField, Codec.IDBytes, Codec.NonEmpty, Codec.NonZero, EncodeFrom;
      ghost var b := buffer[..];
      ghost var get := Codec.MessageField(Fields());
      Codec.MessageFieldValues(Fields());
      ghost var s5 := [] + Part(5, get(5));
      ghost var s6 := s5 + Part(6, get(6));
      ghost var s7 := s6 + Part(7, get(7));
      ghost var s8 := s7 + Part(8, get(8));
      FourParts(get, 5, unknown);
      next := i;
      WrittenNothing(b, i);
      next := PutCount(buffer, next, 0x28, messageNonce, 5);
      WrittenTwice(b, i, [], Part(5, get(5)));
      next := PutFlag(buffer, next);
      WrittenTwice(b, i, s5, Part(6, get(6)));
      next := PutCount(buffer, next, 0x38, opcode, 7);
      WrittenTwice(b, i, s6, Part(7, get(7)));
      next := PutBytes(buffer, next, 0x42, dialAddress, 8);
      WrittenTwice(b, i, s7, Part(8, get(8)));
      NoMore(get, 8);
      assert [] + unknown == unknown;
      next := Copy(buffer, next, unknown);
      WrittenTwice(b, i, s8, unknown);
    }

    /** Writes from index base; returns the number of bytes written. */
    method MarshalTo(buffer: array<byte>, base: nat) returns (n: nat)
      requires base + |Codec.MessageBytes(Value())| <= buffer.Length
      modifies buffer
      ensures n == |Codec.MessageBytes(Value())|
      ensures buffer[..] == Written(old(buffer[..]), base, Codec.MessageBytes(Value()))
    {
      hide Written, Part, Codec.MessageField, Codec.IDBytes, Codec.NonEmpty, Codec.NonZero, EncodeFrom;
      ghost var b := buffer[..];
      ghost var get := Codec.MessageField(Fields());
      Codec.MessageFieldValues(Fields());
      var i;
      ghost var s1 := [] + Part(1, get(1));
      ghost var s2 := s1 + Part(2, get(2));
      ghost var s3 := s2 + Part(3, get(3));
      ghost var s4 := s3 + Part(4, get(4));
      FourParts(get, 1, unknown);
      i := base;
      WrittenNothing(b, base);
      i := PutBytes(buffer, i, 0xa, message, 1);
      WrittenTwice(b, base, [], Part(1, get(1)));
      i := PutSender(buffer, i);
      WrittenTwice(b, base, s1, Part(2, get(2)));
      i := PutBytes(buffer, i, 0x1a, signature, 3);
      WrittenTwice(b, base, s2, Part(3, get(3)));
      i := PutCount(buffer, i, 0x20, requestNonce, 4);
      WrittenTwice(b, base, s3, Part(4, get(4)));
      i := MarshalRest(buffer, i);
      WrittenTwice(b, base, s4, EncodeFrom(get, 5, 8) + unknown);
      n := i - base;
    }

    /** Marshal: a buffer of Size() bytes, filled exactly. */
    method Marshal() returns (buffer: array<byte>)
      ensures fresh(buffer) && buffer[..] == Codec.MessageBytes(Value())
    {
      hide Codec.MessageBytes;
      var size := Size();
      buffer := new byte[size];
      var n := MarshalTo(buffer, 0);
    }

    // the nested sender, decoded into the one already there or into a new one
    method UnmarshalSender(b: seq<byte>) returns (e: Option<Error>)
      modifies this, sender
      ensures sender == old(sender) || fresh(sender)
      ensures match Codec.ApplyMessage(old(Fields()), 2, Bytes(b))
              case Err(error) => e == Some(error) && Fields() == Codec.SpoilMessage(old(Fields()), 2, Bytes(b))
              case Ok(f) => e == None && Fields() == f
      ensures unknown == old(unknown)
    {
      hide Codec.DecodeID, Codec.LeftID;
      if sender == null {
        sender := new ID();
      }
      e := sender.Unmarshal(b);
    }

    // fields 4 to 7, behind the tag
    method UnmarshalScalar(d: seq<byte>, ghost preIndex: nat, fieldNum: int, wireType: nat, first: nat, ghost t: Tag)
        returns (e: Option<Error>, iNdEx: nat)
      requires preIndex < |d| && ReadTag(d[preIndex..]) == Ok(t) && t.kind == wireType != 4 && t.field == fieldNum
      requires 4 <= fieldNum <= 7 && first == preIndex + t.size && first <= |d|
      modifies this
      ensures sender == old(sender)
      ensures match OneField(Codec.ApplyMessage, Codec.SpoilMessage, Codec.MESSAGE_SCHEMA, old(Value()), d, preIndex)
              case Stopped(error, left) => e == Some(error) && Value() == left
              case Next(m, i) => e == None && Value() == m && iNdEx == i
    {
      hide ReadTag, ReadField, Skip, Codec.DecodeID, OneField, Broken, Stalled, Codec.ApplyMessage, Codec.SpoilMessage;
      ReadCountField(d[preIndex..], Codec.MESSAGE_SCHEMA, t);
      if wireType != 0 {
        WrongKind(Value(), d, preIndex, t);
        return Some(WrongWireType), first;
      }
      ghost var was := Value();
      var v;
      e, v, iNdEx :=
        DecodeCountField(d, first, if fieldNum == 7 then 32 else 64, preIndex, Codec.MESSAGE_SCHEMA, t);
      ScalarPass(was, d, preIndex, t, v);
      StoreScalar(fieldNum, v, e.Some?);
    }

    // a number goes into its field while it is read, a flag only when it has been
    method StoreScalar(fieldNum: int, v: nat, failed: bool)
      requires 4 <= fieldNum <= 7
      modifies this
      ensures sender == old(sender) && unknown == old(unknown)
      ensures failed ==> Fields() == Codec.SpoilMessage(old(Fields()), fieldNum, Count(v))
      ensures !failed ==> Codec.ApplyMessage(old(Fields()), fieldNum, Count(v)) == Ok(Fields())
    {
      if fieldNum == 4 {
        requestNonce := v;
      } else if fieldNum == 5 {
        messageNonce := v;
      } else if fieldNum == 6 {
        if !failed {
          replyFlag := v != 0;
        }
      } else {
        opcode := v;
      }
    }

    // one pass of the Unmarshal loop
    method UnmarshalField(d: seq<byte>, preIndex: nat) returns (e: Option<Error>, iNdEx: nat)
      requires preIndex < |d|
      modifies this, sender
      ensures sender == old(sender) || fresh(sender)
      ensures match OneField(Codec.ApplyMessage, Codec.SpoilMessage, Codec.MESSAGE_SCHEMA, old(Value()), d, preIndex)
              case Stopped(error, left) => e == Some(error) && Value() == left
              case Next(m, i) => e == None && Value() == m && iNdEx == i
    {
      hide ReadTag, ReadField, Skip, Codec.DecodeID;
      var fieldNum, wireType, b;
      e, fieldNum, wireType, iNdEx := DecodeTag(d, preIndex);
      TagDecides(d[preIndex..], Codec.MESSAGE_SCHEMA);
      if e.Some? {
        return;
      }
      ghost var t := ReadTag(d[preIndex..]).value;
      if fieldNum == 1 {
        e, b, iNdEx := DecodeBytesField(d, wireType, iNdEx, preIndex, Codec.MESSAGE_SCHEMA, t);
        if e.None? {
          message := b;
        }
      } else if fieldNum == 2 {
        e, b, iNdEx := DecodeBytesField(d, wireType, iNdEx, preIndex, Codec.MESSAGE_SCHEMA, t);
        if e.None? {
          e := UnmarshalSender(b);
        }
      } else if fieldNum == 3 {
        e, b, iNdEx := DecodeBytesField(d, wireType, iNdEx, preIndex, Codec.MESSAGE_SCHEMA, t);
        if e.None? {
          signature := b;
        }
      } else if fieldNum == 8 {
        e, b, iNdEx := DecodeBytesField(d, wireType, iNdEx, preIndex, Codec.MESSAGE_SCHEMA, t);
        if e.None? {
          dialAddress := b;
        }
      } else if 4 <= fieldNum <= 7 {
        e, iNdEx := UnmarshalScalar(d, preIndex, fieldNum, wireType, iNdEx, t);
      } else {
        ReadUnknownField(d[preIndex..], Codec.MESSAGE_SCHEMA, t);
        e, b, iNdEx := DecodeUnknownField(d, preIndex);
        if e.None? {
          unknown := unknown + b;
        }
      }
    }

    /** Decodes d over what the object holds. */
    method Unmarshal(d: seq<byte>) returns (e: Option<Error>)
      modifies this, sender
      ensures sender == old(sender) || fresh(sender)
      ensures Value() == Codec.LeftMessage(old(Value()), d)
      ensures match Codec.DecodeMessage(old(Value()), d)
              case Err(error) => e == Some(error)
              case Ok(m) => e == None && Value() == m
    {
      hide ReadField, OneField, Decode, Left, Codec.ApplyMessage, Codec.SpoilMessage;
      ghost var was := Value();
      var iNdEx := 0;
      assert d[0..] == d;
      while iNdEx < |d|
        invariant iNdEx <= |d|
        invariant sender == old(sender) || fresh(sender)
        invariant Codec.DecodeMessage(was, d) == Codec.DecodeMessage(Value(), d[iNdEx..])
        invariant Codec.LeftMessage(was, d) == Codec.LeftMessage(Value(), d[iNdEx..])
      {
        DecodeOne(Codec.ApplyMessage, Codec.SpoilMessage, Codec.MESSAGE_SCHEMA, Value(), d, iNdEx);
        e, iNdEx := UnmarshalField(d, iNdEx);
        if e.Some? {
          return;
        }
      }
      assert d[iNdEx..] == [];
      DecodeNothing(Codec.ApplyMessage, Codec.SpoilMessage, Codec.MESSAGE_SCHEMA, Value());
      e := None;
    }
  }

  // a scalar field of a message, read or not
  lemma ScalarPass(m: Codec.Message, d: seq<byte>, i: nat, t: Tag, v: nat)
    requires i <= |d| && 4 <= t.field <= 7 && Broken(d[i..], Codec.MESSAGE_SCHEMA) == Some((t.field, v))
    ensures var pass := OneField(Codec.ApplyMessage, Codec.SpoilMessage, Codec.MESSAGE_SCHEMA, m, d, i);
            match ReadField(d[i..], Codec.MESSAGE_SCHEMA)
            case Err(error) => pass == Stopped(error, m.(fields := Codec.SpoilMessage(m.fields, t.field, Count(v))))
            case Ok(f) =>
              f == Known(t.field, Count(v), f.size) ==>
                Codec.ApplyMessage(m.fields, t.field, Count(v)).Ok?
                && pass == Next(m.(fields := Codec.ApplyMessage(m.fields, t.field, Count(v)).value), i + f.size)
  {
    hide ReadField, Broken, Codec.DecodeID, Codec.LeftID;
  }

  lemma WrongKind(m: Codec.Message, d: seq<byte>, i: nat, t: Tag)
    requires i <= |d| && ReadTag(d[i..]) == Ok(t) && t.kind != 0
    ensures Stalled(Codec.SpoilMessage, Codec.MESSAGE_SCHEMA, m, d[i..]) == m
    ensures var pass := OneField(Codec.ApplyMessage, Codec.SpoilMessage, Codec.MESSAGE_SCHEMA, m, d, i);
            ReadField(d[i..], Codec.MESSAGE_SCHEMA).Err? ==>
              pass == Stopped(ReadField(d[i..], Codec.MESSAGE_SCHEMA).error, m)
  {
    hide ReadField, ReadTag;
  }

  lemma FourParts(get: int -> Option<Value>, k: nat, unknown: seq<byte>)
    requires 0 < k <= 5
    ensures EncodeFrom(get, k, 8) + unknown
            == [] + Part(k, get(k)) + Part(k + 1, get(k + 1)) + Part(k + 2, get(k + 2)) + Part(k + 3, get(k + 3))
               + (EncodeFrom(get, k + 4, 8) + unknown)
  {
    hide Part, EncodeFrom;
    assert [] + (EncodeFrom(get, k, 8) + unknown) == EncodeFrom(get, k, 8) + unknown;
    var s: seq<byte> := [];
    Advance(get, k, 8, unknown, s);
    s := s + Part(k, get(k));
    Advance(get, k + 1, 8, unknown, s);
    s := s + Part(k + 1, get(k + 1));
    Advance(get, k + 2, 8, unknown, s);
    s := s + Part(k + 2, get(k + 2));
    Advance(get, k + 3, 8, unknown, s);
  }

  lemma DecodeNothing<F>(apply: (F, int, Value) -> Outcome<F>, spoil: (F, int, Value) -> F, schema: Schema,
                         m: Record<F>)
    ensures Decode(apply, schema, m, []) == Ok(m) && Left(apply, spoil, schema, m, []) == m
  {
  }

  /** A bad tag is a bad field. */
  lemma TagDecides(d: seq<byte>, schema: Schema)
    ensures match ReadTag(d)
            case Err(error) => ReadField(d, schema) == Err(error)
            case Ok(t) => (t.kind == 4 ==> ReadField(d, schema) == Err(EndGroup))
                          && (t.kind != 4 && t.field <= 0 ==> ReadField(d, schema) == Err(IllegalTag))
  {
    hide ReadTag, Skip;
  }
}
