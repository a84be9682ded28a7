/** What writers put on the wire, field by field, and what skipping makes of it. */
module WireFields {
  import opened Machine
  import opened Bits
  import opened Wire

  /** A field in one of the five forms there are on the wire. A group may be closed by an end tag of any number. */
  datatype Field =
    | VarintField(number: nat, value: nat)
    | Fixed64(number: nat, bytes: seq<byte>)
    | Delimited(number: nat, bytes: seq<byte>)
    | Group(number: nat, fields: seq<Field>, end: nat)
    | Fixed32(number: nat, bytes: seq<byte>)

  const WORD := 0x1_0000_0000_0000_0000

  /** A tag: the field number and three bits of wire type. */
  function WrittenTag(number: nat, kind: nat): seq<byte> {
    Varint(8 * number + kind)
  }

  /** Tags and numbers fit a 64-bit word, lengths a Go int, and fixed fields have their width. */
  predicate WellFormed(f: Field)
    decreases f
  {
    8 * f.number + 7 < WORD
    && match f
       case VarintField(_, v) => v < WORD
       case Fixed64(_, b) => |b| == 8
       case Delimited(_, b) => |b| < 0x8000_0000_0000_0000
       case Group(_, fields, end) => 8 * end + 7 < WORD && forall k | 0 <= k < |fields| :: WellFormed(fields[k])
       case Fixed32(_, b) => |b| == 4
  }

  function Written(f: Field): (s: seq<byte>)
    ensures |s| > 0
    decreases f
  {
    match f
    case VarintField(n, v) => WrittenTag(n, 0) + Varint(v)
    case Fixed64(n, b) => WrittenTag(n, 1) + b
    case Delimited(n, b) => WrittenTag(n, 2) + Varint(|b|) + b
    case Group(n, fields, end) => WrittenTag(n, 3) + WrittenAll(fields) + WrittenTag(end, 4)
    case Fixed32(n, b) => WrittenTag(n, 5) + b
  }

  function WrittenAll(fields: seq<Field>): seq<byte>
    decreases fields
  {
    if fields == [] then [] else Written(fields[0]) + WrittenAll(fields[1..])
  }

  lemma Word64()
    ensures Pow2(64) == WORD
  {
    PowValues();
    PowAdd(32, 32);
  }

  // reading a tag back
  lemma TagBack(number: nat, kind: nat, rest: seq<byte>)
    requires kind < 8 && 8 * number + 7 < WORD
    ensures var t := WrittenTag(number, kind);
            Uint(t + rest, 64) == Ok(Number(8 * number + kind, |t|)) && (8 * number + kind) % 8 == kind
            && (t + rest)[|t|..] == rest && t + rest != []
  {
    hide Uint, Varint, Pow2;
    Word64();
    UintRoundTrip(8 * number + kind, rest, 64);
    ModUnique(8 * number + kind, 8, number, kind);
  }

  lemma NumberBack(v: nat, rest: seq<byte>)
    requires v < WORD
    ensures Uint(Varint(v) + rest, 64) == Ok(Number(v, |Varint(v)|))
  {
    hide Uint, Varint, Pow2;
    Word64();
    UintRoundTrip(v, rest, 64);
  }

  /** Skipping a written field ends exactly behind it, whatever follows, groups within groups included. */
  lemma {:induction false} SkipWritten(f: Field, rest: seq<byte>)
    requires WellFormed(f)
    ensures Skip(Written(f) + rest) == Ok(|Written(f)|)
    decreases f, 0
  {
    hide Uint, Varint, WrittenTag, SkipGroup, WrittenAll;
    match f
    case VarintField(n, v) =>
      assert Written(f) + rest == WrittenTag(n, 0) + (Varint(v) + rest);
      TagBack(n, 0, Varint(v) + rest);
      NumberBack(v, rest);
    case Fixed64(n, b) =>
      assert Written(f) + rest == WrittenTag(n, 1) + (b + rest);
      TagBack(n, 1, b + rest);
    case Delimited(n, b) =>
      assert Written(f) + rest == WrittenTag(n, 2) + (Varint(|b|) + (b + rest));
      TagBack(n, 2, Varint(|b|) + (b + rest));
      NumberBack(|b|, b + rest);
    case Group(n, fields, end) =>
      var body := WrittenAll(fields) + WrittenTag(end, 4);
      assert Written(f) + rest == WrittenTag(n, 3) + (body + rest);
      TagBack(n, 3, body + rest);
      SkipGroupWritten(fields, end, rest);
    case Fixed32(n, b) =>
      assert Written(f) + rest == WrittenTag(n, 5) + (b + rest);
      TagBack(n, 5, b + rest);
  }

  lemma {:induction false} SkipGroupWritten(fields: seq<Field>, end: nat, rest: seq<byte>)
    requires (forall k | 0 <= k < |fields| :: WellFormed(fields[k])) && 8 * end + 7 < WORD
    ensures var body := WrittenAll(fields) + WrittenTag(end, 4); SkipGroup(body + rest) == Ok(|body|)
    decreases fields, 1
  {
    hide Uint, Varint, WrittenTag, Skip, Written, WellFormed;
    var body := WrittenAll(fields) + WrittenTag(end, 4);
    if fields == [] {
      assert body + rest == WrittenTag(end, 4) + rest;
      TagBack(end, 4, rest);
    } else {
      var f, more := fields[0], fields[1..];
      var tail := WrittenAll(more) + WrittenTag(end, 4);
      assert body + rest == Written(f) + (tail + rest);
      SkipWritten(f, tail + rest);
      StartTag(f, tail + rest);
      SkipGroupWritten(more, end, rest);
      assert (body + rest)[|Written(f)|..] == tail + rest;
    }
  }

  // a field does not begin with an end tag
  lemma StartTag(f: Field, rest: seq<byte>)
    requires WellFormed(f)
    ensures Uint(Written(f) + rest, 64).Ok? && Uint(Written(f) + rest, 64).value.value % 8 != 4
  {
    hide Uint, Varint, WrittenTag, WrittenAll;
    match f
    case VarintField(n, v) =>
      assert Written(f) + rest == WrittenTag(n, 0) + (Varint(v) + rest);
      TagBack(n, 0, Varint(v) + rest);
    case Fixed64(n, b) =>
      assert Written(f) + rest == WrittenTag(n, 1) + (b + rest);
      TagBack(n, 1, b + rest);
    case Delimited(n, b) =>
      assert Written(f) + rest == WrittenTag(n, 2) + (Varint(|b|) + b + rest);
      TagBack(n, 2, Varint(|b|) + b + rest);
    case Group(n, fields, end) =>
      assert Written(f) + rest == WrittenTag(n, 3) + (WrittenAll(fields) + WrittenTag(end, 4) + rest);
      TagBack(n, 3, WrittenAll(fields) + WrittenTag(end, 4) + rest);
    case Fixed32(n, b) =>
      assert Written(f) + rest == WrittenTag(n, 5) + (b + rest);
      TagBack(n, 5, b + rest);
  }

  /** What else can follow a tag: nothing but the tag itself is skipped for an end tag, a length with the top bit set is
      refused, and so are the two wire types that do not exist. */
  lemma SkipOthers(number: nat, length: nat, rest: seq<byte>)
    requires 8 * number + 7 < WORD && 0x8000_0000_0000_0000 <= length < WORD
    ensures Skip(WrittenTag(number, 4) + rest) == Ok(|WrittenTag(number, 4)|)
    ensures Skip(WrittenTag(number, 2) + (Varint(length) + rest)) == Err(InvalidLength)
    ensures Skip(WrittenTag(number, 6) + rest) == Skip(WrittenTag(number, 7) + rest) == Err(IllegalWireType)
  {
    hide Uint, Varint, WrittenTag, SkipGroup;
    TagBack(number, 4, rest);
    TagBack(number, 2, Varint(length) + rest);
    NumberBack(length, rest);
    TagBack(number, 6, rest);
    TagBack(number, 7, rest);
  }

  // ---- varints, byte by byte ----

  /** Seven bits of a number in each byte, the lowest first. */
  function Septets(s: seq<byte>): nat {
    if s == [] then 0 else s[0] % 128 + 128 * Septets(s[1..])
  }

  /** A written number is its seven-bit groups, all bytes but the last marked, and no shorter form exists. */
  lemma {:induction false} VarintSeptets(v: nat)
    ensures Septets(Varint(v)) == v && (forall i | 0 <= i < |Varint(v)| - 1 :: Varint(v)[i] >= 128)
    ensures Varint(v)[|Varint(v)| - 1] < 128 && (|Varint(v)| > 1 ==> Varint(v)[|Varint(v)| - 1] > 0)
  {
    if v >= 128 {
      VarintSeptets(v / 128);
      assert Varint(v)[1..] == Varint(v / 128);
    } else {
      assert Septets([v][1..]) == 0;
    }
  }
}
