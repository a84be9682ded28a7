/** Records of numbered fields: the encoding and decoding scheme all generated messages follow. */
module RecordCodec {
  import opened Machine
  import opened Bits
  import opened Wire
  import opened Wrappers

  /** What a field of a schema holds: bytes (or a string, or a nested record), or a varint of some width. */
  datatype Kind = LengthDelimited | Scalar(width: nat)

  type Schema = map<int, Kind>

  datatype Value = Bytes(bytes: seq<byte>) | Count(count: nat)

  /** A record: its known fields, and the bytes of unrecognized ones (XXX_unrecognized). */
  datatype Record<+F> = Record(fields: F, unknown: seq<byte>)

  /** One field read from a buffer, and how many bytes it took. */
  datatype Field = Known(number: int, value: Value, size: nat) | Unknown(size: nat)

  // ---- reading one field ----

  /** A length and that many bytes. */
  function ReadBytes(d: seq<byte>): (r: Outcome<Number>)
    ensures r.Ok? ==> r.value.value <= r.value.size <= |d| && r.value.value < 0x8000_0000_0000_0000
  {
    var v := Uint(d, 64);
    if v.Err? then v
    else if v.value.value >= 0x8000_0000_0000_0000 then Err(InvalidLength)
    else if v.value.size + v.value.value > |d| then Err(UnexpectedEOF)
    else Ok(Number(v.value.value, v.value.size + v.value.value))
  }

  function ReadField(d: seq<byte>, schema: Schema): (r: Outcome<Field>)
    ensures r.Ok? ==> 0 < r.value.size <= |d|
  {
    var t := ReadTag(d);
    if t.Err? then Err(t.error)
    else
      var Tag(field, kind, n) := t.value;
      if kind == 4 then Err(EndGroup)
      else if field <= 0 then Err(IllegalTag)
      else if field in schema then
        if schema[field] == LengthDelimited then
          if kind != 2 then Err(WrongWireType)
          else
            var b := ReadBytes(d[n..]);
            if b.Err? then Err(b.error)
            else Ok(Known(field, Bytes(d[n..][b.value.size - b.value.value..b.value.size]), n + b.value.size))
        else
          if kind != 0 then Err(WrongWireType)
          else
            var v := Uint(d[n..], schema[field].width);
            if v.Err? then Err(v.error)
            else Ok(Known(field, Count(v.value.value), n + v.value.size))
      else
        var s := Skip(d);
        if s.Err? then Err(s.error)
        else if s.value > |d| then Err(UnexpectedEOF)
        else Ok(Unknown(s.value))
  }

  /** The decoder and skipStream agree on where every accepted field ends. */
  lemma FieldEndsWhereSkipEnds(d: seq<byte>, schema: Schema)
    requires ReadField(d, schema).Ok?
    ensures Skip(d) == Ok(ReadField(d, schema).value.size)
  {
    hide Uvarint, Int32;
    var n := ReadTag(d).value.size;
    var field := ReadTag(d).value.field;
    if field in schema && schema[field].Scalar? {
      UvarintWidth(d[n..], schema[field].width, 64, 0, 0, 0);
    }
  }

  lemma FieldKind(d: seq<byte>, schema: Schema)
    requires ReadField(d, schema).Ok?
    ensures ReadTag(d).Ok? && Skip(d) == Ok(ReadField(d, schema).value.size)
    ensures ReadField(d, schema).value.Known? <==> ReadTag(d).value.field in schema
  {
    hide Skip, ReadBytes, Uint;
    FieldEndsWhereSkipEnds(d, schema);
  }

  /** Reading a field depends only on its own bytes. */
  lemma FieldLocal(d: seq<byte>, e: seq<byte>, schema: Schema)
    requires ReadField(d, schema).Ok? && Agree(d, e, ReadField(d, schema).value.size)
    ensures ReadField(e, schema) == ReadField(d, schema)
  {
    hide Uint, Int32, Skip, Agree;
    var size := ReadField(d, schema).value.size;
    var n := ReadTag(d).value.size;
    var field := ReadTag(d).value.field;
    assert d[0..] == d && e[0..] == e;
    FieldEndsWhereSkipEnds(d, schema);
    SkipAtLeastTag(d);
    UintLocalAt(d, e, size, 0, 64);
    if field !in schema {
      SkipLocal(d, e);
      AgreeWithin(d, e, size);
    } else if schema[field].Scalar? {
      UintLocalAt(d, e, size, n, schema[field].width);
    } else {
      UintLocalAt(d, e, size, n, 64);
      AgreeDrop(d, e, size, n);
      AgreeSlice(d[n..], e[n..], size - n, ReadBytes(d[n..]).value.value);
    }
  }

  lemma AgreeWithin(d: seq<byte>, e: seq<byte>, n: nat)
    requires Agree(d, e, n)
    ensures n <= |d| && n <= |e|
  {
  }

  lemma AgreeSlice(d: seq<byte>, e: seq<byte>, n: nat, k: nat)
    requires Agree(d, e, n) && k <= n
    ensures n <= |d| && n <= |e| && d[n - k..n] == e[n - k..n]
  {
    assert d[n - k..n] == d[..n][n - k..] && e[n - k..n] == e[..n][n - k..];
  }

  lemma AgreePrefix(d: seq<byte>, e: seq<byte>, n: nat)
    requires n <= |d|
    ensures Agree(d, d + e, n) && (d + e)[n..] == d[n..] + e
  {
    assert (d + e)[..n] == d[..n];
  }

  // ---- decoding a whole buffer into a record ----

  /** The Unmarshal loop: read a field, apply it, go on behind it. */
  function Decode<F>(apply: (F, int, Value) -> Outcome<F>, schema: Schema, m: Record<F>,
                     d: seq<byte>): (r: Outcome<Record<F>>)
    decreases |d|
  {
    if |d| == 0 then Ok(m)
    else
      var r := ReadField(d, schema);
      if r.Err? then Err(r.error)
      else
        var rest := d[r.value.size..];
        match r.value
        case Unknown(n) => Decode(apply, schema, m.(unknown := m.unknown + d[..n]), rest)
        case Known(k, v, _) =>
          var a := apply(m.fields, k, v);
          if a.Err? then Err(a.error) else Decode(apply, schema, m.(fields := a.value), rest)
  }

  /**
   * The scalar field whose value could not be read, if that is what stops decoding at the front of d, and what its
   * variable holds: it is cleared, then gathers what bits there are.
   */
  function Broken(d: seq<byte>, schema: Schema): Option<(int, nat)> {
    var t := ReadTag(d);
    if t.Ok? && t.value.kind == 0 && t.value.field > 0 && t.value.field in schema && schema[t.value.field].Scalar?
    then Some((t.value.field, Gathered(d[t.value.size..], schema[t.value.field].width, 0, 0)))
    else None
  }

  /** What a pass of the loop that cannot read a field leaves. */
  function Stalled<F>(spoil: (F, int, Value) -> F, schema: Schema, m: Record<F>, d: seq<byte>): Record<F> {
    var b := Broken(d, schema);
    if b.None? then m else m.(fields := spoil(m.fields, b.value.0, Count(b.value.1)))
  }

  /** What Unmarshal leaves in the record, whether it ends or stops at an error; spoil is what a failing field does. */
  function Left<F>(apply: (F, int, Value) -> Outcome<F>, spoil: (F, int, Value) -> F, schema: Schema, m: Record<F>,
                   d: seq<byte>):
      Record<F>
    decreases |d|
  {
    if |d| == 0 then m
    else
      var r := ReadField(d, schema);
      if r.Err? then Stalled(spoil, schema, m, d)
      else
        var rest := d[r.value.size..];
        match r.value
        case Unknown(n) => Left(apply, spoil, schema, m.(unknown := m.unknown + d[..n]), rest)
        case Known(k, v, _) =>
          var a := apply(m.fields, k, v);
          if a.Err? then m.(fields := spoil(m.fields, k, v))
            else Left(apply, spoil, schema, m.(fields := a.value), rest)
  }

  /** Without an error it is the decoded record. */
  lemma {:induction false} LeftDecoded<F>(apply: (F, int, Value) -> Outcome<F>, spoil: (F, int, Value) -> F,
                                          schema: Schema, m: Record<F>, d: seq<byte>)
    requires Decode(apply, schema, m, d).Ok?
    ensures Left(apply, spoil, schema, m, d) == Decode(apply, schema, m, d).value
    decreases |d|
  {
    hide ReadField, Stalled;
    if d != [] {
      var f := ReadField(d, schema).value;
      match f
      case Unknown(n) => LeftDecoded(apply, spoil, schema, m.(unknown := m.unknown + d[..n]), d[f.size..]);
      case Known(k, v, _) => LeftDecoded(apply, spoil, schema, m.(fields := apply(m.fields, k, v).value), d[f.size..]);
    }
  }

  /** Decoding a concatenation is decoding the parts one after the other into the same record. */
  lemma {:induction false} DecodeConcat<F>(apply: (F, int, Value) -> Outcome<F>, schema: Schema, m: Record<F>,
                                           d: seq<byte>, e: seq<byte>)
    requires Decode(apply, schema, m, d).Ok?
    ensures Decode(apply, schema, m, d + e) == Decode(apply, schema, Decode(apply, schema, m, d).value, e)
    decreases |d|
  {
    hide ReadField, Agree;
    if d == [] {
      assert d + e == e;
    } else {
      var f := ReadField(d, schema).value;
      AgreePrefix(d, e, f.size);
      FieldLocal(d, d + e, schema);
      assert (d + e)[..f.size] == d[..f.size];
      match f
      case Unknown(n) => DecodeConcat(apply, schema, m.(unknown := m.unknown + d[..n]), d[f.size..], e);
      case Known(k, v, _) => DecodeConcat(apply, schema, m.(fields := apply(m.fields, k, v).value), d[f.size..], e);
    }
  }

  /** An error behind an accepted input leaves what the input gave, and what is left from there on. */
  lemma {:induction false} LeftConcat<F>(apply: (F, int, Value) -> Outcome<F>, spoil: (F, int, Value) -> F,
                                         schema: Schema, m: Record<F>, d: seq<byte>, e: seq<byte>)
    requires Decode(apply, schema, m, d).Ok?
    ensures Left(apply, spoil, schema, m, d + e)
            == Left(apply, spoil, schema, Decode(apply, schema, m, d).value, e)
    decreases |d|
  {
    hide ReadField, Agree, Stalled;
    if d == [] {
      assert d + e == e;
    } else {
      var f := ReadField(d, schema).value;
      AgreePrefix(d, e, f.size);
      FieldLocal(d, d + e, schema);
      assert (d + e)[..f.size] == d[..f.size];
      match f
      case Unknown(n) => LeftConcat(apply, spoil, schema, m.(unknown := m.unknown + d[..n]), d[f.size..], e);
      case Known(k, v, _) =>
        LeftConcat(apply, spoil, schema, m.(fields := apply(m.fields, k, v).value), d[f.size..], e);
    }
  }

  // ---- unrecognized fields ----

  /** The bytes of all fields of d whose number the schema does not know, in order, as skipStream cuts them. */
  function Unrecognized(d: seq<byte>, schema: Schema): (u: seq<byte>)
    ensures |u| <= |d|
    decreases |d|
  {
    if |d| == 0 then [] else
    var t := ReadTag(d);
    var s := Skip(d);
    if t.Err? || s.Err? || s.value > |d| then []
    else (if t.value.field in schema then [] else d[..s.value]) + Unrecognized(d[s.value..], schema)
  }

  /** d is a run of whole fields, none of which the schema knows. */
  predicate AllUnknown(d: seq<byte>, schema: Schema)
    decreases |d|
  {
    |d| == 0
    || (var r := ReadField(d, schema);
        r.Ok? && r.value.Unknown? && AllUnknown(d[r.value.size..], schema))
  }

  /** Decoding appends exactly the unrecognized fields of the input, unchanged and in order. */
  lemma {:induction false} UnknownKept<F>(apply: (F, int, Value) -> Outcome<F>, schema: Schema, m: Record<F>,
                                          d: seq<byte>)
    requires Decode(apply, schema, m, d).Ok?
    ensures Decode(apply, schema, m, d).value.unknown == m.unknown + Unrecognized(d, schema)
    decreases |d|
  {
    hide Skip, ReadField, ReadTag;
    if d != [] {
      var f := ReadField(d, schema).value;
      FieldKind(d, schema);
      match f
      case Unknown(n) =>
        UnknownKept(apply, schema, m.(unknown := m.unknown + d[..n]), d[n..]);
        assert m.unknown + d[..n] + Unrecognized(d[n..], schema) == m.unknown + (d[..n] + Unrecognized(d[n..], schema));
      case Known(k, v, n) =>
        UnknownKept(apply, schema, m.(fields := apply(m.fields, k, v).value), d[n..]);
        assert [] + Unrecognized(d[n..], schema) == Unrecognized(d[n..], schema);
    }
  }

  /** A run of unknown fields decodes by being appended. */
  lemma {:induction false} DecodeUnknown<F>(apply: (F, int, Value) -> Outcome<F>, schema: Schema, m: Record<F>,
                                            d: seq<byte>)
    requires AllUnknown(d, schema)
    ensures Decode(apply, schema, m, d) == Ok(m.(unknown := m.unknown + d))
    decreases |d|
  {
    hide ReadField;
    if d == [] {
      assert m.unknown + d == m.unknown;
    } else {
      var n := ReadField(d, schema).value.size;
      DecodeUnknown(apply, schema, m.(unknown := m.unknown + d[..n]), d[n..]);
      assert m.unknown + d[..n] + d[n..] == m.unknown + d;
    }
  }

  /** Conversely: if decoding appends all of d, then d was a run of unknown fields. */
  lemma {:induction false} AllOfItUnknown<F>(apply: (F, int, Value) -> Outcome<F>, schema: Schema, m: Record<F>,
                                             d: seq<byte>)
    requires Decode(apply, schema, m, d).Ok? && |Decode(apply, schema, m, d).value.unknown| == |m.unknown| + |d|
    ensures AllUnknown(d, schema)
    decreases |d|
  {
    hide ReadField, Unrecognized;
    if d != [] {
      var f := ReadField(d, schema).value;
      match f
      case Unknown(n) =>
        AllOfItUnknown(apply, schema, m.(unknown := m.unknown + d[..n]), d[n..]);
      case Known(k, v, n) =>
        UnknownKept(apply, schema, m.(fields := apply(m.fields, k, v).value), d[n..]);
    }
  }

  lemma {:induction false} AllUnknownConcat(d: seq<byte>, e: seq<byte>, schema: Schema)
    requires AllUnknown(d, schema) && AllUnknown(e, schema)
    ensures AllUnknown(d + e, schema)
    decreases |d|
  {
    hide ReadField, Agree;
    if d == [] {
      assert d + e == e;
    } else {
      var n := ReadField(d, schema).value.size;
      AgreePrefix(d, e, n);
      FieldLocal(d, d + e, schema);
      AllUnknownConcat(d[n..], e, schema);
    }
  }

  /** The unrecognized fields of an accepted buffer are themselves a run of unknown fields. */
  lemma {:induction false} UnrecognizedUnknown<F>(apply: (F, int, Value) -> Outcome<F>, schema: Schema, m: Record<F>,
                                                  d: seq<byte>)
    requires Decode(apply, schema, m, d).Ok?
    ensures AllUnknown(Unrecognized(d, schema), schema)
    decreases |d|
  {
    hide Skip, ReadField, ReadTag, Agree;
    if d != [] {
      var f := ReadField(d, schema).value;
      FieldKind(d, schema);
      var rest := d[f.size..];
      match f
      case Unknown(n) =>
        UnrecognizedUnknown(apply, schema, m.(unknown := m.unknown + d[..n]), rest);
        OneUnknown(d, n, schema);
        AllUnknownConcat(d[..n], Unrecognized(rest, schema), schema);
      case Known(k, v, n) =>
        UnrecognizedUnknown(apply, schema, m.(fields := apply(m.fields, k, v).value), rest);
        assert [] + Unrecognized(rest, schema) == Unrecognized(rest, schema);
    }
  }

  lemma OneUnknown(d: seq<byte>, n: nat, schema: Schema)
    requires ReadField(d, schema) == Ok(Unknown(n))
    ensures AllUnknown(d[..n], schema)
  {
    hide ReadField;
    assert Agree(d, d[..n], n);
    FieldLocal(d, d[..n], schema);
  }

  // ---- encoding ----

  /** One present field: tag, then a varint, or a length and that many bytes. */
  function FieldBytes(k: nat, v: Value): (s: seq<byte>)
    requires 0 < k < 16
  {
    match v
    case Bytes(b) => [8 * k + 2] + Varint(|b|) + b
    case Count(c) => [8 * k] + Varint(c)
  }

  /** The fields numbered k to n that are present, in ascending order. */
  function EncodeFrom(get: int -> Option<Value>, k: nat, n: nat): (s: seq<byte>)
    requires 0 < k && n < 16
    decreases n + 1 - k
  {
    if k > n then [] else
    var v := get(k);
    (if v.None? then [] else FieldBytes(k, v.value)) + EncodeFrom(get, k + 1, n)
  }

  /** A value the schema can carry: a Go slice has an int length, a scalar its width. */
  predicate Carried(schema: Schema, k: int, v: Value) {
    k in schema
    && match schema[k]
       case LengthDelimited => v.Bytes? && |v.bytes| < 0x8000_0000_0000_0000
       case Scalar(w) => v.Count? && 0 < w <= 64 && v.count < Pow2(w)
  }

  predicate AllCarried(get: int -> Option<Value>, schema: Schema, k: nat, n: nat)
    decreases n + 1 - k
  {
    k > n || ((get(k).Some? ==> Carried(schema, k, get(k).value)) && AllCarried(get, schema, k + 1, n))
  }

  lemma TagRead(k: nat, kind: nat, rest: seq<byte>)
    requires 0 < k < 16 && kind < 8
    ensures ReadTag([8 * k + kind] + rest) == Ok(Tag(k, kind, 1))
  {
    hide Uint, Varint, Int32, Pow2;
    var t := 8 * k + kind;
    Sixtyfour();
    OneByte(t);
    UintRoundTrip(t, rest, 64);
  }

  lemma OneByte(t: nat)
    requires t < 128
    ensures Varint(t) == [t]
  {
  }

  // a length and its bytes are read back
  lemma BytesRead(b: seq<byte>, rest: seq<byte>)
    requires |b| < 0x8000_0000_0000_0000
    ensures ReadBytes(Varint(|b|) + (b + rest)) == Ok(Number(|b|, |Varint(|b|)| + |b|))
  {
    hide Uint, Varint;
    assert Pow2(63) == 0x8000_0000_0000_0000 < Pow2(64) by { Sixtyfour(); }
    UintRoundTrip(|b|, b + rest, 64);
  }

  lemma BytesRoundTrip(schema: Schema, k: nat, b: seq<byte>, rest: seq<byte>)
    requires 0 < k < 16 && Carried(schema, k, Bytes(b))
    ensures ReadField(FieldBytes(k, Bytes(b)) + rest, schema) == Ok(Known(k, Bytes(b), |FieldBytes(k, Bytes(b))|))
  {
    hide ReadTag, ReadBytes, Uint, Varint, Skip;
    var h := Varint(|b|);
    var d := FieldBytes(k, Bytes(b)) + rest;
    assert d == [8 * k + 2] + (h + (b + rest));
    TagRead(k, 2, h + (b + rest));
    assert d[1..] == h + (b + rest);
    BytesRead(b, rest);
    BytesBehind(h, b, rest);
  }

  lemma CountRoundTrip(schema: Schema, k: nat, c: nat, rest: seq<byte>)
    requires 0 < k < 16 && Carried(schema, k, Count(c))
    ensures ReadField(FieldBytes(k, Count(c)) + rest, schema) == Ok(Known(k, Count(c), |FieldBytes(k, Count(c))|))
  {
    hide ReadTag, ReadBytes, Uint, Varint, Skip;
    var d := FieldBytes(k, Count(c)) + rest;
    assert d == [8 * k + 0] + (Varint(c) + rest);
    TagRead(k, 0, Varint(c) + rest);
    assert d[1..] == Varint(c) + rest;
    UintRoundTrip(c, rest, schema[k].width);
  }

  /** A field that was written is read back, whatever follows. */
  lemma FieldRoundTrip(schema: Schema, k: nat, v: Value, rest: seq<byte>)
    requires 0 < k < 16 && Carried(schema, k, v)
    ensures ReadField(FieldBytes(k, v) + rest, schema) == Ok(Known(k, v, |FieldBytes(k, v)|))
    ensures (FieldBytes(k, v) + rest)[|FieldBytes(k, v)|..] == rest
  {
    hide ReadField, FieldBytes;
    match v
    case Bytes(b) => BytesRoundTrip(schema, k, b, rest);
    case Count(c) => CountRoundTrip(schema, k, c, rest);
  }

  lemma BytesBehind(h: seq<byte>, b: seq<byte>, rest: seq<byte>)
    ensures (h + (b + rest))[|h|..|h| + |b|] == b
  {
  }

  lemma Sixtyfour()
    ensures Pow2(63) == 0x8000_0000_0000_0000 && Pow2(64) == 0x1_0000_0000_0000_0000 && Pow2(32) == 0x1_0000_0000
  {
    PowValues();
    PowAdd(32, 32);
    PowAdd(32, 31);
    assert Pow2(32) == 2 * Pow2(31);
  }

  /** Applying the present fields k to n of a record in turn. */
  function ApplyFrom<F>(apply: (F, int, Value) -> Outcome<F>, get: int -> Option<Value>, k: nat, n: nat,
                        f: F): (r: Outcome<F>)
    decreases n + 1 - k
  {
    if k > n then Ok(f)
    else if get(k).None? then ApplyFrom(apply, get, k + 1, n, f)
    else
      var a := apply(f, k, get(k).value);
      if a.Err? then a else ApplyFrom(apply, get, k + 1, n, a.value)
  }

  /** Decoding encoded fields applies them in turn, then goes on with what follows them. */
  lemma {:induction false} DecodeEncoded<F>(apply: (F, int, Value) -> Outcome<F>, schema: Schema,
                                            get: int -> Option<Value>, k: nat, n: nat, m: Record<F>, rest: seq<byte>)
    requires 0 < k && n < 16 && AllCarried(get, schema, k, n)
    ensures var a := ApplyFrom(apply, get, k, n, m.fields);
            Decode(apply, schema, m, EncodeFrom(get, k, n) + rest)
            == if a.Err? then Err(a.error) else Decode(apply, schema, m.(fields := a.value), rest)
    decreases n + 1 - k
  {
    hide FieldBytes, ReadField, Carried;
    if k > n {
      assert [] + rest == rest;
    } else if get(k).None? {
      assert [] + EncodeFrom(get, k + 1, n) == EncodeFrom(get, k + 1, n);
      DecodeEncoded(apply, schema, get, k + 1, n, m, rest);
    } else {
      var v := get(k).value;
      var more := EncodeFrom(get, k + 1, n);
      assert FieldBytes(k, v) + more + rest == FieldBytes(k, v) + (more + rest);
      FieldRoundTrip(schema, k, v, more + rest);
      var a := apply(m.fields, k, v);
      if a.Ok? {
        DecodeEncoded(apply, schema, get, k + 1, n, m.(fields := a.value), rest);
      }
    }
  }
}
